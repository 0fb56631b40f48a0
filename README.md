# Scotiabank statement generator: concept splitting, page layout and pagination

The statement generator reads a spreadsheet of Scotiabank account movements
and renders it as a letter-size PDF statement. This project models the
three parts of `app_gradio.py` that decide what goes where on the page:

- **`split_concept`**: the free-text *Concepto* of a movement becomes the
  lines printed in its cell. The text is trimmed, then three rules are tried
  in order:
  - **SPEI transfer** (the text names `TRANSF INTERBANCARIA SPEI`). The lines
    are three fixed lines, then:
    - the first token starting with `202`;
    - the date label, `02 DIC` if the text names DIC and otherwise `19 NOV`
      if it names NOV;
    - the payee, if named;
    - the first token starting with `//`.
  - **SCOTIALINE payment**: a fixed label, then the first all-digit token
    longer than ten characters.
  - **Anything else**: the trimmed text as one line.

  A null cell gives one empty line.
- **`create_page`**: the page geometry.
  - The six column widths are fixed shares of the 740-unit usable width. The
    last column absorbs the rounding, which gives 59, 296, 148, 81, 81 and 75.
  - Each column's x position is the running sum from the margin.
  - Every row band is `max(lines * 10, 20)` tall and starts where the
    previous one ends (`current_y`).
  - A band is striped when its index in the whole table (not on the page)
    is even.
- **`create_pdf`**: the table is cut into pages of at most 25 rows. Page `k`
  holds rows `25k` up to `min(25(k+1), total)` and carries the number `k+1`.
  A table of at most 25 rows, including an empty one, gives one page.

Module by module:
- `Text` gives Python's `strip`, `split`, `startswith`, `in` and `isdigit`
  their meaning.
- `Concept` models `split_concept`:
  - the `ConceptLines` specification function;
  - the `SplitConcept` method, proved equal to `ConceptLines`; its token
    scans (`AppendFirstMatch`) stop at the first match, as the source's
    `break` does;
  - one lemma per rule.
- `Layout` models `create_page`:
  - the page described by the numbers the drawing calls receive, as
    `PageFrom` and `PageOf`;
  - the row loop `LayOutRows` and `CreatePage`, proved against them.
- `Pagination` models `create_pdf`:
  - the page ranges;
  - the partition lemmas;
  - the whole-document lemma that every row is drawn exactly once, in table
    order.

Properties of note:
- The pages partition the rows in order.
- Stripes follow the global row index, so they alternate across page breaks.
- The columns tile the band between the two margins exactly.
- Nothing in the source keeps a page's rows above its bottom edge. With 25
  rows whose Concepto cells split into seven lines each (the longest SPEI
  transfers) the content ends at 1805, which is past the 1000-unit page
  height (`SevenLineRowsRunPastPageBottom`).

## Model

| member | source | states |
|---|---|---|
| Text.ContainsIffOccurs | app_gradio.py:22 | the scan used for `marker in concept` succeeds exactly when the marker occurs at some position of the text |
| Text.IsSpace | app_gradio.py:20-28 | the whitespace class that `strip()` and `split()` cut at: space, the controls tab to carriage return, and the separators 0x1C to 0x1F (ASCII only, see "## Left out") |
| Text.StartsWith | app_gradio.py:29 | `str.startswith` (also used at line 39): the prefix is no longer than the text and equals the text's first characters |
| Text.Contains | app_gradio.py:22 | `sub in s` (also used at lines 32, 34, 36 and 42): the text starts with `sub`, or its tail after the first character contains `sub` |
| Text.IsDigits | app_gradio.py:45 | `str.isdigit()` over ASCII: non-empty and every character is `0` to `9` |
| Text.TrimStart | app_gradio.py:20 | `lstrip`: the result is a suffix of the input; everything cut is whitespace; the result is empty or starts with a non-space |
| Text.TrimEnd | app_gradio.py:20 | `rstrip`: the result is a prefix of the input; everything cut is whitespace; the result is empty or ends with a non-space |
| Text.Strip | app_gradio.py:20 | `strip()` is `rstrip` applied to the result of `lstrip`; its properties are in the next two rows |
| Text.StripCutsOnlyWhitespace | app_gradio.py:20 | `strip()` returns a contiguous slice of the text with only whitespace before and after it |
| Text.StripTrimsToNonBlank | app_gradio.py:20 | `strip()` is empty exactly when the text is all whitespace, and otherwise starts and ends with a non-space character |
| Text.SplitFrom | app_gradio.py:28 | each token `split()` produces is non-empty and contains no whitespace |
| Text.Tokens | app_gradio.py:28 | the tokens of `concept.split()` are non-empty and whitespace-free |
| Text.SplitKeepsText | app_gradio.py:28 | joined back together, the tokens give the word in progress followed by the text's non-whitespace characters |
| Text.TokensKeepAllText | app_gradio.py:28 | joined back together, the tokens are exactly the non-whitespace characters of the text: splitting loses only whitespace |
| Text.SplitAtSpace | app_gradio.py:28 | a whitespace character ends the current word and separates the tokens before it from those after it |
| Text.SplitWord | app_gradio.py:28 | a run without whitespace continues the current word into a single token |
| Text.TokensSeparateAtSpace | app_gradio.py:28 | the tokens of `a + space + b` are the tokens of `a` followed by those of `b`; a non-empty run without whitespace is one token |
| Concept.Matches | app_gradio.py:29-45 | the test of each scan: a year token starts with `202` (line 29), a reference starts with `//` (line 39), and a SCOTIALINE number is all digits and longer than 10 characters (line 45) |
| Concept.FirstIndex | app_gradio.py:28-31 | the index where a `for ... if ...: break` scan stops: no earlier token matches, and the token at that index matches unless the scan ran off the end |
| Concept.FirstMatch | app_gradio.py:28-47 | what one scan appends: the token at `FirstIndex` when the scan found one, otherwise nothing; at most one line |
| Concept.AppendFirstMatch | app_gradio.py:28-31 | the scanning loop appends exactly the first matching token, or nothing when none matches |
| Concept.FirstMatchIsFirst | app_gradio.py:28-31 | a scan appends nothing exactly when no token matches, and otherwise appends the first matching token |
| Concept.DateLabel | app_gradio.py:32-35 | at most one date label is appended |
| Concept.PayeeLine | app_gradio.py:36-37 | at most one payee line is appended |
| Concept.SpeiDetails | app_gradio.py:28-41 | the SPEI rule appends at most four lines after its header |
| Concept.SpeiLines | app_gradio.py:22-41 | a SPEI transfer has 3 to 7 lines |
| Concept.ScotialineLines | app_gradio.py:42-47 | a SCOTIALINE payment has 1 or 2 lines |
| Concept.ConceptLines | app_gradio.py:17-50 | every cell yields 1 to 7 lines, and a null cell yields exactly `['']` |
| Concept.BuildSpeiLines | app_gradio.py:22-41 | the SPEI branch, appending step by step, builds exactly the SPEI line list |
| Concept.SplitConcept | app_gradio.py:17-50 | `split_concept` returns exactly the lines `ConceptLines` describes |
| Concept.RulesApplyInOrder | app_gradio.py:18-49 | rules apply in order on the trimmed text: SPEI wins even when SCOTIALINE is also named; SCOTIALINE applies only without SPEI; anything else is one trimmed line |
| Concept.SpeiStartsWithHeader | app_gradio.py:23-27 | a SPEI transfer starts with its three fixed lines and has at most four more |
| Concept.SpeiDetailsShape | app_gradio.py:28-41 | the appended SPEI lines are a `202` token, one of the two date labels, the payee and a `//` token, each optional |
| Concept.YearComesFirst | app_gradio.py:28-31 | after the header, the first line starts with `202` exactly when a year token was appended |
| Concept.SpeiYearReference | app_gradio.py:28-31 | line 4 starts with `202` exactly when some token does, and it is then the first such token |
| Concept.SlashComesLast | app_gradio.py:38-41 | the last line starts with `//` exactly when a `//` token was appended |
| Concept.SpeiSlashReference | app_gradio.py:38-41 | the last line starts with `//` exactly when some token does, and it is then the first such token |
| Concept.FixedLineOnlyAsAppended | app_gradio.py:32-37 | a fixed line that is neither a header line nor a scanned token appears only when the date or payee step appended it |
| Concept.SpeiDateLabel | app_gradio.py:32-35 | `02 DIC` appears exactly when DIC occurs; `19 NOV` exactly when NOV occurs and DIC does not |
| Concept.SpeiPayee | app_gradio.py:36-37 | the payee line appears exactly when the payee's name occurs in the text |
| Concept.ScotialineRule | app_gradio.py:42-47 | a SCOTIALINE payment is the label, then the first all-digit token of more than ten characters when there is one, and nothing else |
| Layout.Sum | app_gradio.py:95 | Python's `sum` of a list of integers, adding the last element to the sum of the rest |
| Layout.SumCons | app_gradio.py:95 | the sum of a list equals its first element plus the sum of the rest |
| Layout.ColumnWidths | app_gradio.py:85-95 | the first five widths are their percentages of the width rounded down; the last is the remainder, within 5 of its own share; the six sum to the usable width |
| Layout.CumSum | app_gradio.py:96 | `numpy.cumsum`: entry `i` is the sum of the first `i+1` values |
| Layout.XPositions | app_gradio.py:96 | a column's x position is the margin plus the widths of the columns before it |
| Layout.SumPrefix | app_gradio.py:96 | each running sum is the previous one plus the next value |
| Layout.XPositionsTile | app_gradio.py:96 | columns placed at their x positions sit side by side from the margin, with no gap and no overlap |
| Layout.ColumnsTileThePage | app_gradio.py:85-96 | on any usable width the six columns exactly tile the band between the margins |
| Layout.PageColumns | app_gradio.py:85-96 | on the page: widths 59, 296, 148, 81, 81, 75; x positions 30, 89, 385, 533, 614, 695; the last column ends at `LETTER_WIDTH - MARGIN` |
| Layout.RowHeight | app_gradio.py:113 | a row is at least the base height and at least its lines' height, and is one of the two |
| Layout.ConceptRowHeight | app_gradio.py:112-113 | every row is 20 to 70 units tall; a SPEI transfer is exactly its lines' height; any other row is the base height |
| Layout.RowHeights | app_gradio.py:112-113 | one height per row of the table, each between 20 and 70 |
| Layout.RangeSum | app_gradio.py:109-132 | the total height of rows `lo` up to `hi`, built by adding each row's height at the end, as `current_y += row_height` does |
| Layout.RangeSumIsSliceSum | app_gradio.py:109-132 | the running total the row loop builds equals the `Sum` of the slice of row heights, the same sum the column widths use |
| Layout.Bands | app_gradio.py:109-132 | one band per row, in order: each starts below all earlier rows of the page, each starts where the previous ends, and a band is striped exactly when its table index is even |
| Layout.BandsSnoc | app_gradio.py:110-132 | laying out one more row adds exactly one band at the bottom, at the running total of the rows above it (`current_y`) |
| Layout.BandsEndAtTotalHeight | app_gradio.py:130-132 | the last band ends at the start plus the total height of the rows |
| Layout.RangeSumBounds | app_gradio.py:113 | `n` rows each between `a` and `b` tall take between `n*a` and `n*b` |
| Layout.Min | app_gradio.py:110 | Python's `min` of two integers (also used at line 148) |
| Layout.RowSpan | app_gradio.py:110 | `range(start, min(end, len(df)))`: the span lies within the table, and a row index is in it exactly when it is at least `start`, below `end` and below the table length |
| Layout.PageFrom | app_gradio.py:72-137 | the page for rows `start` up to `min(end, len)`: its number, the page's column widths and x positions, the bands of those rows below the header, and `contentBottom`, which is the header bottom plus the rows' total height |
| Layout.PageOf | app_gradio.py:72-137 | `PageFrom` applied to the row heights the Concepto cells give |
| Layout.PageContentHeight | app_gradio.py:109-132 | the final `current_y` is the bottom of the last band, between 20 and 70 units per row below the header |
| Layout.PageBottomFollowsRows | app_gradio.py:109-132 | a full page of equal rows ends at the header bottom plus 25 times the row height |
| Layout.SevenLineRowsRunPastPageBottom | app_gradio.py:109-132 | a page of 25 rows whose Concepto cells each split into seven lines ends at 1805, past the page height of 1000 |
| Layout.LayOutRows | app_gradio.py:109-132 | the row loop produces exactly the bands of its rows and ends at the header bottom plus their total height |
| Layout.CreatePage | app_gradio.py:72-137 | `create_page` yields the page described for its number, its row range and the fixed column geometry |
| Pagination.PageCount | app_gradio.py:142-145 | at least one page; enough pages for every row; one page when the rows fit; no wholly unneeded page |
| Pagination.PageAt | app_gradio.py:147-149 | page `k` (from 0) covers rows `25k` up to `min(25(k+1), total)` and is numbered `k+1` |
| Pagination.PageRanges | app_gradio.py:139-149 | the ranges handed to `create_page` are page `k`'s rows `25k` up to `min(25(k+1), total)`, numbered `k+1`, for every page in turn |
| Pagination.PagesPartitionRows | app_gradio.py:142-149 | pages start at row 0, end at the last row, and each starts where the previous ends; each holds at most 25 rows; numbered 1, 2, … in order; only an empty table has an empty page |
| Pagination.RowOnExactlyOnePage | app_gradio.py:146-149 | every row lies on exactly one page, the one of index `row / 25` |
| Pagination.RangeAppend | app_gradio.py:146-149 | two adjacent runs of row indices, one after the other, form the run from the start of the first to the end of the second |
| Pagination.FirstPagesHoldLeadingRows | app_gradio.py:146-149 | the first `k` pages, read in order, hold the rows from 0 up to where page `k` ends |
| Pagination.PagesCoverTableInOrder | app_gradio.py:139-149 | all page ranges together list every row exactly once, in table order |
| Pagination.Pages | app_gradio.py:139-149 | the document has one page per page range |
| Pagination.Document | app_gradio.py:139-149 | a table yields as many pages as `PageCount` says |
| Pagination.CreatePdf | app_gradio.py:139-149 | `create_pdf` renders exactly the pages described, in order |
| Pagination.PageDrawsItsRange | app_gradio.py:146-149 | page `k` draws exactly the rows of range `k` |
| Pagination.PagesPrefixRows | app_gradio.py:146-149 | the rows drawn on the first `k` pages are the rows of the first `k` ranges |
| Pagination.DocumentDrawsEveryRowOnce | app_gradio.py:139-149 | across the whole document, every row of the table is drawn exactly once, in table order |
| Pagination.PagesStartFreshAndStripeByTableRow | app_gradio.py:109-116 | each page is numbered from its position; its rows start just below the header; stripes follow the global row index across page breaks |

## Left out

- `clean_amount` (app_gradio.py:52-60) and `clean_date` (app_gradio.py:62-70) are not modelled. They format the other columns' text, which affects neither the lines nor the geometry. Their pandas, float and date parsing has no counterpart here.
- The Gradio interface (`generar_estado_cuenta` and the `gr.Blocks` app, app_gradio.py:159-181) is not modelled. It does file upload, Excel reading and the status message.
- The drawing itself is not modelled: fonts, colours, rectangles, text, border lines and text-width centring. A page is represented by the numbers those calls receive: page number, column widths and x positions, and row bands with their stripes and `current_y`.
- The cell values of the other columns are not modelled; only the Concepto cell is, because only it decides a row's height. The header row's position is fixed, so it is not modelled either.
- PDF serialisation (app_gradio.py:150-157) is not modelled. The document is the sequence of page layouts.
- Text.IsSpace: only ASCII whitespace is recognised. Python's `str.strip()` and `str.split()` also strip Unicode whitespace such as U+00A0 and U+2028.
- Text.IsDigits: only ASCII digits are recognised. Python's `str.isdigit()` also accepts other Unicode digits.
- Non-null cells are given as the text of `str(value)`. How pandas renders numbers and dates as text is not modelled.
- Layout.ColumnWidths: the widths are the exact floor of `width * p / 100`, not the float product `int(width * 0.08)`. The two agree on the page's width of 740 (`PageColumns`), but not necessarily on every width.
- Pagination.PageCount: `math.ceil(total / 25)` on floats is modelled as the exact integer ceiling. The two differ only for row counts beyond 2^53.
- Pagination.PageRanges: in the source, `create_pdf` computes each range and calls `create_page` in the same loop. The model computes the ranges first and then calls `CreatePage` for each one. The ranges and the pages are the same.
