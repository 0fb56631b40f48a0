/** The pagination of `create_pdf`: the table is cut into pages of at most
    `ROWS_PER_PAGE` rows, numbered from 1, and each page is laid out by
    `create_page`. The rasterised pages and the PDF file written from them
    are not modelled; the document is the sequence of page layouts. */
module Pagination {
  import opened Concept
  import opened Layout

  const RowsPerPage: nat := 25

  /** The rows `start` up to `end` of the table, drawn as page `number`. */
  datatype PageRange = PageRange(start: nat, end: nat, number: nat)

  /** How many pages a table of `total` rows takes: one when it fits on a
      page (even an empty table gets its one blank page), otherwise
      `ceil(total / ROWS_PER_PAGE)`, the fewest pages that hold every row. */
  function PageCount(total: nat): (n: nat)
    ensures n >= 1
    ensures total <= n * RowsPerPage
    ensures total <= RowsPerPage ==> n == 1
    ensures n > 1 ==> (n - 1) * RowsPerPage < total
  {
    if total <= RowsPerPage then 1 else (total + RowsPerPage - 1) / RowsPerPage
  }

  /** The `k`-th page, counting from 0: rows `k * ROWS_PER_PAGE` up to the
      next multiple or the end of the table, numbered `k + 1`. */
  function PageAt(total: nat, k: nat): PageRange {
    PageRange(k * RowsPerPage, Min((k + 1) * RowsPerPage, total), k + 1)
  }

  /** The ranges `create_pdf` hands to `create_page`, in order: a single range
      over the whole table when it fits on one page, otherwise one per page. */
  method PageRanges(total: nat) returns (pages: seq<PageRange>)
    ensures |pages| == PageCount(total)
    ensures forall k :: 0 <= k < |pages| ==> pages[k] == PageAt(total, k)
  {
    if total <= RowsPerPage {
      pages := [PageRange(0, total, 1)];
    } else {
      var numPages := (total + RowsPerPage - 1) / RowsPerPage;
      pages := [];
      var pageNum := 0;
      while pageNum < numPages
        invariant 0 <= pageNum <= numPages
        invariant |pages| == pageNum
        invariant forall k :: 0 <= k < pageNum ==> pages[k] == PageAt(total, k)
      {
        var startIdx := pageNum * RowsPerPage;
        var endIdx := Min((pageNum + 1) * RowsPerPage, total);
        pages := pages + [PageRange(startIdx, endIdx, pageNum + 1)];
        pageNum := pageNum + 1;
      }
    }
  }

  /** The pages cut the table into consecutive pieces: the first starts at
      row 0, each ends where the next starts, the last ends at the last row,
      none holds more than `ROWS_PER_PAGE` rows, the pages are numbered
      1, 2, ... in order, and only the single page of an empty table is
      empty. */
  lemma PagesPartitionRows(total: nat)
    ensures var n := PageCount(total);
            && PageAt(total, 0).start == 0
            && PageAt(total, n - 1).end == total
            && (forall k :: 0 <= k < n - 1 ==> PageAt(total, k).end == PageAt(total, k + 1).start)
            && (forall k :: 0 <= k < n ==>
                  && PageAt(total, k).start <= PageAt(total, k).end
                  && PageAt(total, k).end - PageAt(total, k).start <= RowsPerPage
                  && PageAt(total, k).number == k + 1)
            && (total > 0 ==> forall k :: 0 <= k < n ==> PageAt(total, k).start < PageAt(total, k).end)
  {
    var n := PageCount(total);
    forall k | 0 <= k < n ensures PageAt(total, k).start <= PageAt(total, k).end {
      if n > 1 {
        assert k * RowsPerPage <= (n - 1) * RowsPerPage;
      }
    }
    if total > 0 {
      forall k | 0 <= k < n ensures PageAt(total, k).start < PageAt(total, k).end {
        if n > 1 {
          assert k * RowsPerPage <= (n - 1) * RowsPerPage;
        }
      }
    }
  }

  /** Every row of the table is drawn on exactly one page, the one numbered
      `row / ROWS_PER_PAGE + 1`. */
  lemma RowOnExactlyOnePage(total: nat, row: nat)
    requires row < total
    ensures row / RowsPerPage < PageCount(total)
    ensures var p := PageAt(total, row / RowsPerPage);
            p.start <= row < p.end
    ensures forall k :: 0 <= k < PageCount(total) && PageAt(total, k).start <= row < PageAt(total, k).end
                        ==> k == row / RowsPerPage
  {
    var n := PageCount(total);
    var q := row / RowsPerPage;
    assert q * RowsPerPage <= row < total <= n * RowsPerPage;
    forall k | 0 <= k < n && PageAt(total, k).start <= row < PageAt(total, k).end
      ensures k == q
    {
      assert k * RowsPerPage <= row < k * RowsPerPage + RowsPerPage;
    }
  }

  /** The row indices `lo, lo + 1, ..., hi - 1`. */
  function Range(lo: nat, hi: nat): seq<nat>
    requires lo <= hi
  {
    seq(hi - lo, i requires 0 <= i < hi - lo => lo + i)
  }

  /** Two adjacent runs of rows, one after the other, are the run from the
      start of the first to the end of the second. */
  lemma RangeAppend(a: nat, b: nat, c: nat)
    requires a <= b <= c
    ensures Range(a, b) + Range(b, c) == Range(a, c)
  {
  }

  /** The rows of the first `k` pages, page after page. */
  function RowsOfPages(total: nat, k: nat): seq<nat>
    requires k <= PageCount(total)
  {
    if k == 0 then []
    else
      PagesPartitionRows(total);
      var p := PageAt(total, k - 1);
      RowsOfPages(total, k - 1) + Range(p.start, p.end)
  }

  /** Read page after page, the first `k` pages hold the rows from 0 up to
      where page `k` ends, in order, with none left out or repeated. */
  lemma {:induction false} FirstPagesHoldLeadingRows(total: nat, k: nat)
    requires 0 < k <= PageCount(total)
    ensures RowsOfPages(total, k) == Range(0, PageAt(total, k - 1).end)
  {
    PagesPartitionRows(total);
    var p := PageAt(total, k - 1);
    if k == 1 {
      assert RowsOfPages(total, 0) == [];
    } else {
      FirstPagesHoldLeadingRows(total, k - 1);
      var q := PageAt(total, k - 2);
      assert q.end == p.start;
      RangeAppend(0, q.end, p.end);
    }
  }

  /** All the pages together hold every row of the table exactly once, in
      table order. */
  lemma PagesCoverTableInOrder(total: nat)
    ensures RowsOfPages(total, PageCount(total)) == Range(0, total)
  {
    PagesPartitionRows(total);
    FirstPagesHoldLeadingRows(total, PageCount(total));
  }

  /** The pages of a table whose rows are `heights` tall: page `k` laid out
      from the rows of range `k`. */
  function Pages(heights: seq<int>): (doc: seq<PageLayout>)
    ensures |doc| == PageCount(|heights|)
  {
    var total := |heights|;
    seq(PageCount(total), k requires 0 <= k < PageCount(total) =>
          PageFrom(heights, PageAt(total, k).start, PageAt(total, k).end, k + 1))
  }

  /** The document `create_pdf` renders for the table whose Concepto cells
      are `concepts`. */
  function Document(concepts: seq<Cell>): (doc: seq<PageLayout>)
    ensures |doc| == PageCount(|concepts|)
  {
    Pages(RowHeights(concepts))
  }

  /** `create_pdf`: one `create_page` call per page range, in order. */
  method CreatePdf(concepts: seq<Cell>) returns (doc: seq<PageLayout>)
    ensures doc == Document(concepts)
  {
    var ranges := PageRanges(|concepts|);
    ghost var full := Document(concepts);
    doc := [];
    var k := 0;
    while k < |ranges|
      invariant 0 <= k <= |ranges|
      invariant doc == full[..k]
    {
      var page := CreatePage(concepts, ranges[k].start, ranges[k].end, ranges[k].number);
      ghost var p := PageAt(|concepts|, k);
      assert page == PageFrom(RowHeights(concepts), p.start, p.end, k + 1);
      assert page == full[k];
      PrefixGrows(full, k);
      doc := doc + [page];
      k := k + 1;
    }
    assert full[..k] == full;
  }

  /** The first `k + 1` elements are the first `k` and then element `k`. */
  lemma PrefixGrows<T>(s: seq<T>, k: nat)
    requires k < |s|
    ensures s[..k + 1] == s[..k] + [s[k]]
  {
  }

  /** The table rows drawn on a page, top to bottom. */
  function PageRows(page: PageLayout): seq<nat> {
    seq(|page.bands|, i requires 0 <= i < |page.bands| => page.bands[i].row)
  }

  /** The table rows drawn on the pages of a document, page after page. */
  function DocumentRows(doc: seq<PageLayout>): seq<nat> {
    if doc == [] then [] else DocumentRows(doc[..|doc| - 1]) + PageRows(doc[|doc| - 1])
  }

  /** Page `k` draws exactly the rows of range `k`. */
  lemma PageDrawsItsRange(heights: seq<int>, k: nat)
    requires k < PageCount(|heights|)
    ensures var p := PageAt(|heights|, k);
            PageRows(Pages(heights)[k]) == Range(p.start, p.end)
  {
    PagesPartitionRows(|heights|);
  }

  lemma {:induction false} PagesPrefixRows(heights: seq<int>, k: nat)
    requires k <= PageCount(|heights|)
    ensures DocumentRows(Pages(heights)[..k]) == RowsOfPages(|heights|, k)
  {
    var doc := Pages(heights);
    if k > 0 {
      PagesPrefixRows(heights, k - 1);
      assert doc[..k][..k - 1] == doc[..k - 1];
      PageDrawsItsRange(heights, k - 1);
    }
  }

  /** Read page after page, the document draws every row of the table once,
      in table order. */
  lemma DocumentDrawsEveryRowOnce(concepts: seq<Cell>)
    ensures DocumentRows(Document(concepts)) == Range(0, |concepts|)
  {
    var heights := RowHeights(concepts);
    var doc := Pages(heights);
    PagesPrefixRows(heights, |doc|);
    assert doc[..|doc|] == doc;
    PagesCoverTableInOrder(|heights|);
  }

  /** Every page starts its rows right below the header band, numbers
      itself from its position, and stripes a row exactly when its index in
      the whole table is even, so the stripes alternate across page breaks. */
  lemma PagesStartFreshAndStripeByTableRow(heights: seq<int>, k: nat)
    requires k < PageCount(|heights|)
    ensures var page := Pages(heights)[k];
            && page.number == k + 1
            && (page.bands != [] ==> page.bands[0].top == Margin + HeaderHeight)
            && forall i :: 0 <= i < |page.bands| ==>
                 page.bands[i].striped == (page.bands[i].row % 2 == 0)
  {
    var p := PageAt(|heights|, k);
    assert Pages(heights)[k] == PageFrom(heights, p.start, p.end, k + 1);
  }
}
