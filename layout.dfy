/** The page geometry of `create_page`: the six column widths and their x
    positions, the height of each row band, which bands are striped, and the
    running `current_y` as the rows of one page are laid out. The drawing
    itself (fonts, rectangles, text, colours) is not modelled; a page is
    described by the numbers the drawing calls receive. */
module Layout {
  import opened Concept

  const LetterWidth: int := 800
  const LetterHeight: int := 1000
  const Margin: int := 30
  const BaseRowHeight: int := 20
  const HeaderHeight: int := 25
  const LineSpacing: int := 10

  /** The width between the side margins, shared by the six columns. */
  const UsableWidth: nat := LetterWidth - 2 * Margin

  /** Share of the usable width, in percent, of Fecha, Concepto,
      Origen / Referencia, Depósito, Retiro and Saldo. */
  const ColumnPercents: seq<int> := [8, 40, 20, 11, 11, 10]

  function Sum(xs: seq<int>): int {
    if xs == [] then 0 else Sum(xs[..|xs| - 1]) + xs[|xs| - 1]
  }

  /** Sum of a list whose first element is split off. */
  lemma {:induction false} SumCons(x: int, xs: seq<int>)
    ensures Sum([x] + xs) == x + Sum(xs)
    decreases |xs|
  {
    if xs != [] {
      var ys := [x] + xs;
      assert ys[..|ys| - 1] == [x] + xs[..|xs| - 1];
      SumCons(x, xs[..|xs| - 1]);
    }
  }

  /** The column widths for a usable width: each of the first five is its
      percentage rounded down, and the last takes whatever is left, so that
      the six add up to the usable width exactly and the last is never
      narrower than its own rounded-down share, nor more than five wider. */
  function ColumnWidths(width: nat): (widths: seq<int>)
    ensures |widths| == 6 && Sum(widths) == width
    ensures forall i :: 0 <= i < 5 ==> widths[i] == width * ColumnPercents[i] / 100
    ensures widths[5] == width - (widths[0] + widths[1] + widths[2] + widths[3] + widths[4])
    ensures width * ColumnPercents[5] / 100 <= widths[5] <= width * ColumnPercents[5] / 100 + 5
  {
    var nominal := [width * 8 / 100, width * 40 / 100, width * 20 / 100,
                    width * 11 / 100, width * 11 / 100, width * 10 / 100];
    var widths := nominal[5 := width - Sum(nominal[..5])];
    assert widths[..5] == nominal[..5];
    assert widths[..6] == widths;
    assert nominal[..1][..0] == [];
    assert Sum(nominal[..1]) == nominal[0];
    assert nominal[..2][..1] == nominal[..1];
    assert Sum(nominal[..2]) == nominal[0] + nominal[1];
    assert nominal[..3][..2] == nominal[..2];
    assert Sum(nominal[..3]) == nominal[0] + nominal[1] + nominal[2];
    assert nominal[..4][..3] == nominal[..3];
    assert Sum(nominal[..4]) == nominal[0] + nominal[1] + nominal[2] + nominal[3];
    assert nominal[..5][..4] == nominal[..4];
    assert Sum(nominal[..5]) == nominal[0] + nominal[1] + nominal[2] + nominal[3] + nominal[4];
    assert 90 * width - 500 < 100 * Sum(nominal[..5]) <= 90 * width;
    widths
  }

  /** Running totals, as `numpy.cumsum`: entry i is the sum of the first i+1 values. */
  function CumSum(xs: seq<int>): (sums: seq<int>)
    ensures |sums| == |xs|
    ensures forall i :: 0 <= i < |xs| ==> sums[i] == Sum(xs[..i + 1])
  {
    if xs == [] then []
    else
      var init := xs[..|xs| - 1];
      var sums := CumSum(init) + [Sum(xs)];
      assert xs[..|xs|] == xs;
      assert forall i :: 0 <= i < |init| ==> sums[i] == Sum(xs[..i + 1]) by {
        forall i | 0 <= i < |init| ensures sums[i] == Sum(xs[..i + 1]) {
          assert init[..i + 1] == xs[..i + 1];
        }
      }
      sums
  }

  /** The left edge of each column, `cumsum([MARGIN] + widths[:-1])`: the
      margin plus the widths of the columns before it. */
  function XPositions(widths: seq<int>): (xs: seq<int>)
    ensures |xs| == if widths == [] then 1 else |widths|
    ensures forall i :: 0 <= i < |xs| ==> xs[i] == Margin + Sum(widths[..i])
  {
    var init := if widths == [] then [] else widths[..|widths| - 1];
    var xs := CumSum([Margin] + init);
    assert forall i :: 0 <= i < |xs| ==> ([Margin] + init)[..i + 1] == [Margin] + widths[..i];
    forall i | 0 <= i < |xs| ensures xs[i] == Margin + Sum(widths[..i]) {
      SumCons(Margin, widths[..i]);
    }
    xs
  }

  /** The sum of the first `i + 1` values is that of the first `i` plus value `i`. */
  lemma SumPrefix(xs: seq<int>, i: nat)
    requires i < |xs|
    ensures Sum(xs[..i + 1]) == Sum(xs[..i]) + xs[i]
  {
    assert xs[..i + 1][..i] == xs[..i];
  }

  /** Placed from their x positions, columns of any widths sit side by side:
      the first starts at the margin, each ends where the next begins, and the
      last ends at the margin plus their total width. */
  lemma XPositionsTile(widths: seq<int>)
    requires widths != []
    ensures var xs := XPositions(widths);
            && xs[0] == Margin
            && (forall i :: 0 <= i < |widths| - 1 ==> xs[i] + widths[i] == xs[i + 1])
            && xs[|widths| - 1] + widths[|widths| - 1] == Margin + Sum(widths)
  {
    var xs := XPositions(widths);
    assert widths[..0] == [];
    forall i | 0 <= i < |widths| - 1 ensures xs[i] + widths[i] == xs[i + 1] {
      SumPrefix(widths, i);
    }
    SumPrefix(widths, |widths| - 1);
    assert widths[..|widths|] == widths;
  }

  /** On the usable width the columns tile the band between the margins:
      the first starts at the left margin, each ends where the next begins,
      and the last ends at the right margin. */
  lemma ColumnsTileThePage(width: nat)
    ensures var widths := ColumnWidths(width);
            var xs := XPositions(widths);
            && xs[0] == Margin
            && (forall i :: 0 <= i < 5 ==> xs[i] + widths[i] == xs[i + 1])
            && xs[5] + widths[5] == Margin + width
  {
    XPositionsTile(ColumnWidths(width));
  }

  /** On the page itself the widths are 59, 296, 148, 81, 81 and 75, and the
      last column ends at `LETTER_WIDTH - MARGIN`. */
  lemma PageColumns()
    ensures ColumnWidths(UsableWidth) == [59, 296, 148, 81, 81, 75]
    ensures XPositions(ColumnWidths(UsableWidth)) == [30, 89, 385, 533, 614, 695]
    ensures XPositions(ColumnWidths(UsableWidth))[5] + ColumnWidths(UsableWidth)[5]
            == LetterWidth - Margin
  {
    ColumnsTileThePage(UsableWidth);
    var widths := ColumnWidths(UsableWidth);
    var xs := XPositions(widths);
    assert UsableWidth == 740;
    assert widths[0] == 740 * 8 / 100 == 59;
    assert widths[1] == 740 * 40 / 100 == 296;
    assert widths[2] == 740 * 20 / 100 == 148;
    assert widths[3] == 740 * 11 / 100 == 81;
    assert widths[4] == 740 * 11 / 100 == 81;
    assert widths[5] == 75;
    assert widths == [59, 296, 148, 81, 81, 75];
    assert xs[0] == 30 && xs[1] == 89 && xs[2] == 385 && xs[3] == 533 && xs[4] == 614
        && xs[5] == 695;
  }

  /** `max(lines * LINE_SPACING, BASE_ROW_HEIGHT)`: never below the base
      height, and exactly the lines' height when that is taller. */
  function RowHeight(lineCount: nat): (h: int)
    ensures h >= BaseRowHeight && h >= lineCount * LineSpacing
    ensures h == BaseRowHeight || h == lineCount * LineSpacing
  {
    if lineCount * LineSpacing > BaseRowHeight then lineCount * LineSpacing else BaseRowHeight
  }

  /** A row is the base height unless it is a SPEI transfer, whose three to
      seven lines make it 30 to 70 units tall. */
  lemma ConceptRowHeight(cell: Cell)
    ensures var h := RowHeight(|ConceptLines(cell)|);
            BaseRowHeight <= h <= 7 * LineSpacing
    ensures IsSpeiTransfer(cell) ==>
              RowHeight(|ConceptLines(cell)|) == |ConceptLines(cell)| * LineSpacing
    ensures !IsSpeiTransfer(cell) ==>
              RowHeight(|ConceptLines(cell)|) == BaseRowHeight
  {
    if cell.Value? && !IsSpeiTransfer(cell) {
      assert |ConceptLines(cell)| <= 2;
    }
  }

  /** The height of every row of the table, from its concept lines. */
  function RowHeights(concepts: seq<Cell>): (heights: seq<int>)
    ensures |heights| == |concepts|
    ensures forall i :: 0 <= i < |concepts| ==> BaseRowHeight <= heights[i] <= 7 * LineSpacing
  {
    seq(|concepts|, i requires 0 <= i < |concepts| => RowHeight(|ConceptLines(concepts[i])|))
  }

  /** The total height of rows `lo` up to `hi`. */
  function RangeSum(heights: seq<int>, lo: nat, hi: nat): int
    requires lo <= hi <= |heights|
    decreases hi - lo
  {
    if lo == hi then 0 else RangeSum(heights, lo, hi - 1) + heights[hi - 1]
  }

  /** `RangeSum` adds the rows one index at a time, as the row loop does;
      it is the `Sum` of the slice of those rows. */
  lemma {:induction false} RangeSumIsSliceSum(heights: seq<int>, lo: nat, hi: nat)
    requires lo <= hi <= |heights|
    ensures RangeSum(heights, lo, hi) == Sum(heights[lo..hi])
    decreases hi - lo
  {
    if lo < hi {
      RangeSumIsSliceSum(heights, lo, hi - 1);
      assert heights[lo..hi][..hi - lo - 1] == heights[lo..hi - 1];
    }
  }

  /** The band one statement row occupies on a page. */
  datatype RowBand = RowBand(row: nat, top: int, height: int, striped: bool)

  /** The bands of rows `lo` up to `hi`, the first one starting at `top`: one
      band per row in order, each as tall as that row and starting below all
      the rows before it on the page, each starting where the previous one
      ends, and striped exactly on the even rows of the whole table (not of
      the page). */
  function Bands(heights: seq<int>, lo: nat, hi: nat, top: int): (bands: seq<RowBand>)
    requires lo <= hi <= |heights|
    ensures |bands| == hi - lo
    ensures forall k :: 0 <= k < |bands| ==>
              && bands[k].row == lo + k
              && bands[k].top == top + RangeSum(heights, lo, lo + k)
              && bands[k].height == heights[lo + k]
              && bands[k].striped == ((lo + k) % 2 == 0)
    ensures bands != [] ==> bands[0].top == top
    ensures forall k :: 0 <= k < |bands| - 1 ==> bands[k].top + bands[k].height == bands[k + 1].top
  {
    var bands := seq(hi - lo, k requires 0 <= k < hi - lo =>
                       RowBand(lo + k, top + RangeSum(heights, lo, lo + k), heights[lo + k], (lo + k) % 2 == 0));
    bands
  }

  /** One more row adds one more band at the end, below the others. */
  lemma BandsSnoc(heights: seq<int>, lo: nat, hi: nat, top: int)
    requires lo <= hi < |heights|
    ensures Bands(heights, lo, hi + 1, top)
            == Bands(heights, lo, hi, top)
               + [RowBand(hi, top + RangeSum(heights, lo, hi), heights[hi], hi % 2 == 0)]
  {
  }

  /** The bands end at `top` plus the heights of their rows: after the last
      row, `current_y` is the bottom edge of that row. */
  lemma BandsEndAtTotalHeight(heights: seq<int>, lo: nat, hi: nat, top: int)
    requires lo <= hi <= |heights|
    ensures var bands := Bands(heights, lo, hi, top);
            bands != [] ==> bands[|bands| - 1].top + bands[|bands| - 1].height
                            == top + RangeSum(heights, lo, hi)
  {
    if lo < hi {
      var bands := Bands(heights, lo, hi, top);
      var last := bands[hi - lo - 1];
      assert last.top == top + RangeSum(heights, lo, hi - 1);
      assert last.height == heights[hi - 1];
    }
  }

  /** When every row is between `a` and `b` units tall, `n` rows take
      between `n * a` and `n * b` units. */
  lemma {:induction false} RangeSumBounds(heights: seq<int>, lo: nat, hi: nat, a: int, b: int)
    requires lo <= hi <= |heights|
    requires forall i :: lo <= i < hi ==> a <= heights[i] <= b
    ensures a * (hi - lo) <= RangeSum(heights, lo, hi) <= b * (hi - lo)
    decreases hi - lo
  {
    if lo < hi {
      RangeSumBounds(heights, lo, hi - 1, a, b);
      assert a * (hi - lo) == a * (hi - 1 - lo) + a;
      assert b * (hi - lo) == b * (hi - 1 - lo) + b;
    }
  }

  /** One rendered page: its number, the column geometry, the row bands and
      the `current_y` reached after the last row. */
  datatype PageLayout = PageLayout(number: nat, columnWidths: seq<int>, columnX: seq<int>,
                                   bands: seq<RowBand>, contentBottom: int)

  function Min(a: int, b: int): int {
    if a < b then a else b
  }

  /** Row `i` lies in the half-open span `[span.0, span.1)`. */
  predicate InSpan(span: (nat, nat), i: int) {
    span.0 <= i < span.1
  }

  /** The rows `create_page` draws for `start` and `end`: `range(start,
      min(end, len(df)))`, empty when the start is past the end. */
  function RowSpan(count: nat, start: nat, end: nat): (span: (nat, nat))
    ensures span.0 <= span.1 <= count
    ensures forall i :: InSpan(span, i) <==> start <= i < end && i < count
  {
    var hi := Min(end, count);
    (if start <= hi then start else hi, hi)
  }

  /** The page `create_page` draws for rows `start` up to `end` of a table
      whose rows are `heights` tall: rows start below the header band, and
      `contentBottom` is the `current_y` reached. */
  function PageFrom(heights: seq<int>, start: nat, end: nat, number: nat): PageLayout {
    var (lo, hi) := RowSpan(|heights|, start, end);
    var widths := ColumnWidths(UsableWidth);
    PageLayout(number, widths, XPositions(widths), Bands(heights, lo, hi, Margin + HeaderHeight),
               Margin + HeaderHeight + RangeSum(heights, lo, hi))
  }

  /** The page `create_page` draws for rows `start` up to `end` of the table
      whose Concepto cells are `concepts`. */
  function PageOf(concepts: seq<Cell>, start: nat, end: nat, number: nat): PageLayout {
    PageFrom(RowHeights(concepts), start, end, number)
  }

  /** A page's content ends at the bottom of its last row band, and is at
      least 20 and at most 70 units tall per row. */
  lemma PageContentHeight(concepts: seq<Cell>, start: nat, end: nat, number: nat)
    ensures var page := PageOf(concepts, start, end, number);
            var n := |page.bands|;
            && (n > 0 ==> page.bands[n - 1].top + page.bands[n - 1].height == page.contentBottom)
            && Margin + HeaderHeight + BaseRowHeight * n <= page.contentBottom
            && page.contentBottom <= Margin + HeaderHeight + 7 * LineSpacing * n
  {
    var (lo, hi) := RowSpan(|concepts|, start, end);
    var heights := RowHeights(concepts);
    BandsEndAtTotalHeight(heights, lo, hi, Margin + HeaderHeight);
    RangeSumBounds(heights, lo, hi, BaseRowHeight, 7 * LineSpacing);
  }

  /** A page's content ends `HEADER_HEIGHT` below the top margin plus the
      heights of its rows, whatever they are: nothing keeps the rows above the page's
      bottom edge. */
  lemma PageBottomFollowsRows(heights: seq<int>, h: int)
    requires |heights| == 25
    requires forall i :: 0 <= i < 25 ==> heights[i] == h
    ensures PageFrom(heights, 0, 25, 1).contentBottom == Margin + HeaderHeight + 25 * h
  {
    RangeSumBounds(heights, 0, 25, h, h);
  }

  /** A full page of 25 rows whose Concepto cells each split into seven
      lines, as the longest SPEI transfers do, ends at 1805, past
      `LETTER_HEIGHT`. */
  lemma SevenLineRowsRunPastPageBottom(concepts: seq<Cell>)
    requires |concepts| == 25
    requires forall i :: 0 <= i < 25 ==> |ConceptLines(concepts[i])| == 7
    ensures PageOf(concepts, 0, 25, 1).contentBottom == 1805 > LetterHeight
  {
    var heights := RowHeights(concepts);
    forall i | 0 <= i < 25 ensures heights[i] == 7 * LineSpacing {
      assert heights[i] == RowHeight(|ConceptLines(concepts[i])|);
    }
    PageBottomFollowsRows(heights, 7 * LineSpacing);
  }

  /** The row loop of `create_page`: lays the rows `lo` up to `hi` out one
      after the other below the header band, advancing `current_y` by each
      row's height, and returns the bands and the final `current_y`. */
  method LayOutRows(concepts: seq<Cell>, lo: nat, hi: nat) returns (bands: seq<RowBand>, currentY: int)
    requires lo <= hi <= |concepts|
    ensures bands == Bands(RowHeights(concepts), lo, hi, Margin + HeaderHeight)
    ensures currentY == Margin + HeaderHeight + RangeSum(RowHeights(concepts), lo, hi)
  {
    ghost var heights := RowHeights(concepts);
    currentY := Margin + HeaderHeight;
    bands := [];
    var idx := lo;
    while idx < hi
      invariant lo <= idx <= hi
      invariant bands == Bands(heights, lo, idx, Margin + HeaderHeight)
      invariant currentY == Margin + HeaderHeight + RangeSum(heights, lo, idx)
    {
      var parts := SplitConcept(concepts[idx]);
      var rowHeight := RowHeight(|parts|);
      assert rowHeight == heights[idx];
      BandsSnoc(heights, lo, idx, Margin + HeaderHeight);
      bands := bands + [RowBand(idx, currentY, rowHeight, idx % 2 == 0)];
      currentY := currentY + rowHeight;
      idx := idx + 1;
    }
  }

  /** `create_page`: the column geometry, then the rows `start` up to
      `min(end, len(df))`, none when `start` is past that bound. */
  method CreatePage(concepts: seq<Cell>, start: nat, end: nat, number: nat)
    returns (page: PageLayout)
    ensures page == PageOf(concepts, start, end, number)
  {
    var widths := ColumnWidths(UsableWidth);
    var columnX := XPositions(widths);
    var hi := Min(end, |concepts|);
    var lo := if start <= hi then start else hi;
    var bands, currentY := LayOutRows(concepts, lo, hi);
    page := PageLayout(number, widths, columnX, bands, currentY);
  }
}
