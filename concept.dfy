/** The concept tokenizer (`split_concept`): turns the free-text description of
    one statement row into the ordered lines printed in the Concepto column.
    Three rules are tried in order and the first that applies decides:
    an interbank SPEI transfer, a SCOTIALINE payment, and otherwise the text
    itself on one line. */
module Concept {
  import opened Text

  /** A spreadsheet cell as read: empty (pandas' null / NaN) or the text form
      of its value (`str(value)`). */
  datatype Cell = Null | Value(text: string)

  const SpeiMarker: string := "TRANSF INTERBANCARIA SPEI"
  const TransferLabel: string := "/TRANSFERENCIA A"
  const DecemberMarker: string := "DIC"
  const NovemberMarker: string := "NOV"
  const DecemberLabel: string := "02 DIC"
  const NovemberLabel: string := "19 NOV"
  const Payee: string := "JOSE TOMAS COLSA CHALITA"
  const ScotialineMarker: string := "SCOTIALINE"
  const ScotialineLabel: string := "SWEB PAGO A SCOTIALINE"

  /** The three fixed lines every SPEI transfer starts with. */
  const SpeiHeader: seq<string> := [SpeiMarker, SpeiMarker, TransferLabel]

  /** The token tests of the three `for part in concept.split(): ... break` scans. */
  datatype TokenRule =
    | YearReference  // `part.startswith('202')`
    | DoubleSlash    // `part.startswith('//')`
    | LongNumber     // `part.isdigit() and len(part) > 10`

  predicate Matches(rule: TokenRule, token: string) {
    match rule
    case YearReference => StartsWith(token, "202")
    case DoubleSlash => StartsWith(token, "//")
    case LongNumber => IsDigits(token) && |token| > 10
  }

  /** Index of the first token the rule accepts, or `|tokens|` when none does. */
  function FirstIndex(tokens: seq<string>, rule: TokenRule): (i: nat)
    ensures i <= |tokens|
    ensures forall j :: 0 <= j < i ==> !Matches(rule, tokens[j])
    ensures i < |tokens| ==> Matches(rule, tokens[i])
  {
    if tokens == [] then 0
    else if Matches(rule, tokens[0]) then 0
    else 1 + FirstIndex(tokens[1..], rule)
  }

  /** Some token is accepted by the rule. */
  predicate AnyMatch(tokens: seq<string>, rule: TokenRule) {
    exists j :: 0 <= j < |tokens| && Matches(rule, tokens[j])
  }

  /** `tokens[j]` is the first token the rule accepts. */
  predicate IsFirstMatch(tokens: seq<string>, rule: TokenRule, j: int) {
    0 <= j < |tokens| && Matches(rule, tokens[j])
    && forall k :: 0 <= k < j ==> !Matches(rule, tokens[k])
  }

  /** What one scan appends: the first accepted token, or nothing. */
  function FirstMatch(tokens: seq<string>, rule: TokenRule): (found: seq<string>)
    ensures |found| <= 1
  {
    var i := FirstIndex(tokens, rule);
    if i < |tokens| then [tokens[i]] else []
  }

  /** The date label: December is tested before November. */
  function DateLabel(text: string): (date: seq<string>)
    ensures |date| <= 1
  {
    if Contains(text, DecemberMarker) then [DecemberLabel]
    else if Contains(text, NovemberMarker) then [NovemberLabel]
    else []
  }

  function PayeeLine(text: string): (line: seq<string>)
    ensures |line| <= 1
  {
    if Contains(text, Payee) then [Payee] else []
  }

  /** The optional SPEI lines, in the order they are appended: the first
      year-prefixed token, the date label, the payee, the first `//` token. */
  function SpeiDetails(text: string): (details: seq<string>)
    ensures |details| <= 4
  {
    var tokens := Tokens(text);
    FirstMatch(tokens, YearReference) + DateLabel(text) + PayeeLine(text)
      + FirstMatch(tokens, DoubleSlash)
  }

  function SpeiLines(text: string): (lines: seq<string>)
    ensures 3 <= |lines| <= 7
  {
    SpeiHeader + SpeiDetails(text)
  }

  function ScotialineLines(text: string): (lines: seq<string>)
    ensures 1 <= |lines| <= 2
  {
    [ScotialineLabel] + FirstMatch(Tokens(text), LongNumber)
  }

  /** The cell holds an interbank SPEI transfer: the first rule applies. */
  predicate IsSpeiTransfer(cell: Cell) {
    cell.Value? && Contains(Strip(cell.text), SpeiMarker)
  }

  /** The lines `split_concept` returns for a cell: never empty, never more
      than seven, and exactly one empty line for a null cell. */
  function ConceptLines(cell: Cell): (lines: seq<string>)
    ensures 1 <= |lines| <= 7
    ensures cell.Null? ==> lines == [""]
  {
    match cell
    case Null => [""]
    case Value(raw) =>
      var text := Strip(raw);
      if Contains(text, SpeiMarker) then SpeiLines(text)
      else if Contains(text, ScotialineMarker) then ScotialineLines(text)
      else [text]
  }

  /** One `for part in tokens: if <rule>: parts.append(part); break` scan. */
  method AppendFirstMatch(parts: seq<string>, tokens: seq<string>, rule: TokenRule)
    returns (extended: seq<string>)
    ensures extended == parts + FirstMatch(tokens, rule)
  {
    extended := parts;
    var i := 0;
    while i < |tokens|
      invariant 0 <= i <= |tokens|
      invariant forall j :: 0 <= j < i ==> !Matches(rule, tokens[j])
      invariant extended == parts
    {
      if Matches(rule, tokens[i]) {
        extended := extended + [tokens[i]];
        return;
      }
      i := i + 1;
    }
  }

  /** The SPEI branch of `split_concept`: the three fixed lines, then each
      optional item appended in turn. */
  method BuildSpeiLines(text: string) returns (parts: seq<string>)
    ensures parts == SpeiLines(text)
  {
    var tokens := Tokens(text);
    ghost var details: seq<string> := [];
    parts := SpeiHeader;
    parts := AppendFirstMatch(parts, tokens, YearReference);
    details := FirstMatch(tokens, YearReference);
    assert parts == SpeiHeader + details;
    if Contains(text, DecemberMarker) {
      parts := parts + [DecemberLabel];
    } else if Contains(text, NovemberMarker) {
      parts := parts + [NovemberLabel];
    }
    details := details + DateLabel(text);
    assert parts == SpeiHeader + details;
    if Contains(text, Payee) {
      parts := parts + [Payee];
    }
    details := details + PayeeLine(text);
    assert parts == SpeiHeader + details;
    parts := AppendFirstMatch(parts, tokens, DoubleSlash);
    details := details + FirstMatch(tokens, DoubleSlash);
    assert parts == SpeiHeader + details;
  }

  /** `split_concept`: the first rule whose marker the trimmed text contains
      decides the lines. */
  method SplitConcept(cell: Cell) returns (parts: seq<string>)
    ensures parts == ConceptLines(cell)
  {
    if cell.Null? {
      return [""];
    }
    var text := Strip(cell.text);
    if Contains(text, SpeiMarker) {
      parts := BuildSpeiLines(text);
    } else if Contains(text, ScotialineMarker) {
      parts := [ScotialineLabel];
      parts := AppendFirstMatch(parts, Tokens(text), LongNumber);
    } else {
      parts := [text];
    }
  }

  /** A scan appends nothing when no token is accepted, and otherwise exactly
      the first accepted token. */
  lemma FirstMatchIsFirst(tokens: seq<string>, rule: TokenRule)
    ensures FirstMatch(tokens, rule) == [] <==> !AnyMatch(tokens, rule)
    ensures forall j :: IsFirstMatch(tokens, rule, j) ==> FirstMatch(tokens, rule) == [tokens[j]]
  {
  }


  /** The rules are tried in order on the trimmed text: a text naming the
      SPEI marker is a SPEI transfer even when it also names SCOTIALINE, the
      SCOTIALINE rule applies only to the texts the SPEI rule passed over, and
      any other text is returned as a single line, trimmed. */
  lemma RulesApplyInOrder(raw: string)
    ensures Contains(Strip(raw), SpeiMarker) ==> ConceptLines(Value(raw)) == SpeiLines(Strip(raw))
    ensures !Contains(Strip(raw), SpeiMarker) && Contains(Strip(raw), ScotialineMarker)
            ==> ConceptLines(Value(raw)) == ScotialineLines(Strip(raw))
    ensures !Contains(Strip(raw), SpeiMarker) && !Contains(Strip(raw), ScotialineMarker)
            ==> ConceptLines(Value(raw)) == [Strip(raw)]
    ensures IsSpeiTransfer(Value(raw)) <==> Contains(Strip(raw), SpeiMarker)
  {
  }

  /** A SPEI transfer starts with its three fixed lines and has at most four
      more. */
  lemma SpeiStartsWithHeader(text: string)
    ensures 3 <= |SpeiLines(text)| <= 7
    ensures SpeiLines(text)[..3] == SpeiHeader
  {
  }

  /** A string whose first (or second) character differs from the prefix's
      does not start with it. */
  lemma NotStartsWith(s: string, prefix: string, k: nat)
    requires k < |s| && k < |prefix| && s[k] != prefix[k]
    ensures !StartsWith(s, prefix)
  {
  }

  /** The lines after the SPEI header, item by item: what a token scan found
      is at most one accepted token, the date label is one of the two labels
      and the payee line is the payee. */
  predicate DetailsShape(year: seq<string>, date: seq<string>, payee: seq<string>,
                         slash: seq<string>)
  {
    && |year| <= 1 && (year != [] ==> Matches(YearReference, year[0]))
    && (date == [] || date == [DecemberLabel] || date == [NovemberLabel])
    && (payee == [] || payee == [Payee])
    && |slash| <= 1 && (slash != [] ==> Matches(DoubleSlash, slash[0]))
  }

  lemma SpeiDetailsShape(text: string)
    ensures var tokens := Tokens(text);
            DetailsShape(FirstMatch(tokens, YearReference), DateLabel(text),
                         PayeeLine(text), FirstMatch(tokens, DoubleSlash))
  {
    var tokens := Tokens(text);
    var i := FirstIndex(tokens, YearReference);
    var k := FirstIndex(tokens, DoubleSlash);
    assert i < |tokens| ==> FirstMatch(tokens, YearReference) == [tokens[i]];
    assert k < |tokens| ==> FirstMatch(tokens, DoubleSlash) == [tokens[k]];
  }

  /** In such a detail list the first line starts with "202" exactly when a
      year-prefixed token was found. */
  lemma YearComesFirst(year: seq<string>, date: seq<string>, payee: seq<string>,
                       slash: seq<string>)
    requires DetailsShape(year, date, payee, slash)
    ensures var details := year + date + payee + slash;
            year != [] <==> details != [] && StartsWith(details[0], "202")
  {
    var details := year + date + payee + slash;
    if year == [] && details != [] {
      if date != [] {
        NotStartsWith(DecemberLabel, "202", 0);
        NotStartsWith(NovemberLabel, "202", 0);
        assert details[0] == date[0];
      } else if payee != [] {
        NotStartsWith(Payee, "202", 0);
        assert details[0] == Payee;
      } else {
        assert details[0] == slash[0];
        assert slash[0][..2] == "//";
        NotStartsWith(slash[0], "202", 0);
      }
    }
  }

  /** Line 4 of a SPEI transfer starts with "202" exactly when some token of
      the text does, and it is then the first such token. */
  lemma SpeiYearReference(text: string)
    ensures var lines := SpeiLines(text);
            AnyMatch(Tokens(text), YearReference)
            <==> |lines| > 3 && StartsWith(lines[3], "202")
    ensures forall j :: IsFirstMatch(Tokens(text), YearReference, j) ==>
                          SpeiLines(text)[3] == Tokens(text)[j]
  {
    var tokens := Tokens(text);
    var year, date, payee, slash := FirstMatch(tokens, YearReference), DateLabel(text),
                                    PayeeLine(text), FirstMatch(tokens, DoubleSlash);
    var details := SpeiDetails(text);
    assert SpeiLines(text) == SpeiHeader + details;
    assert details == year + date + payee + slash;
    SpeiDetailsShape(text);
    YearComesFirst(year, date, payee, slash);
    FirstMatchIsFirst(tokens, YearReference);
  }

  /** In such a detail list, after the header, the last line starts with "//"
      exactly when a `//` token was found. */
  lemma SlashComesLast(year: seq<string>, date: seq<string>, payee: seq<string>,
                       slash: seq<string>)
    requires DetailsShape(year, date, payee, slash)
    ensures var lines := SpeiHeader + (year + date + payee + slash);
            slash != [] <==> StartsWith(lines[|lines| - 1], "//")
  {
    var details := year + date + payee + slash;
    var lines := SpeiHeader + details;
    var last := lines[|lines| - 1];
    if slash == [] {
      if payee != [] {
        assert last == Payee;
        NotStartsWith(Payee, "//", 0);
      } else if date != [] {
        assert last == date[0];
        NotStartsWith(DecemberLabel, "//", 0);
        NotStartsWith(NovemberLabel, "//", 0);
      } else if year != [] {
        assert last == year[0];
        assert year[0][..3] == "202";
        NotStartsWith(year[0], "//", 0);
      } else {
        assert last == TransferLabel;
        NotStartsWith(TransferLabel, "//", 1);
      }
    } else {
      assert last == slash[0];
    }
  }

  /** In such a detail list, after the header, a line that is no header line
      and cannot be a found token (it starts with neither '2' nor '/') is
      there exactly when the date label or the payee line holds it. */
  lemma FixedLineOnlyAsAppended(x: string, year: seq<string>, date: seq<string>,
                                payee: seq<string>, slash: seq<string>)
    requires DetailsShape(year, date, payee, slash)
    requires x != SpeiMarker && x != TransferLabel
    requires x != [] && x[0] != '2' && x[0] != '/'
    ensures x in SpeiHeader + (year + date + payee + slash) <==> x in date || x in payee
  {
    if year != [] {
      assert year[0][..3] == "202";
      assert year[0][0] == '2';
    }
    if slash != [] {
      assert slash[0][..2] == "//";
      assert slash[0][0] == '/';
    }
  }

  /** The last line of a SPEI transfer starts with "//" exactly when some
      token of the text does, and it is then the first such token. */
  lemma SpeiSlashReference(text: string)
    ensures var lines := SpeiLines(text);
            AnyMatch(Tokens(text), DoubleSlash) <==> StartsWith(lines[|lines| - 1], "//")
    ensures var lines := SpeiLines(text);
            forall j :: IsFirstMatch(Tokens(text), DoubleSlash, j) ==>
                          lines[|lines| - 1] == Tokens(text)[j]
  {
    var tokens := Tokens(text);
    var year, date, payee, slash := FirstMatch(tokens, YearReference), DateLabel(text),
                                    PayeeLine(text), FirstMatch(tokens, DoubleSlash);
    assert SpeiLines(text) == SpeiHeader + (year + date + payee + slash);
    SpeiDetailsShape(text);
    SlashComesLast(year, date, payee, slash);
    FirstMatchIsFirst(tokens, DoubleSlash);
  }

  /** A SPEI transfer carries "02 DIC" exactly when the text contains DIC, and
      "19 NOV" exactly when it contains NOV but not DIC: December wins. */
  lemma SpeiDateLabel(text: string)
    ensures DecemberLabel in SpeiLines(text) <==> Contains(text, DecemberMarker)
    ensures NovemberLabel in SpeiLines(text)
            <==> Contains(text, NovemberMarker) && !Contains(text, DecemberMarker)
  {
    var tokens := Tokens(text);
    var year, date, payee, slash := FirstMatch(tokens, YearReference), DateLabel(text),
                                    PayeeLine(text), FirstMatch(tokens, DoubleSlash);
    assert SpeiLines(text) == SpeiHeader + (year + date + payee + slash);
    SpeiDetailsShape(text);
    FixedLineOnlyAsAppended(DecemberLabel, year, date, payee, slash);
    FixedLineOnlyAsAppended(NovemberLabel, year, date, payee, slash);
  }

  /** A SPEI transfer names the payee exactly when the text contains the name. */
  lemma SpeiPayee(text: string)
    ensures Payee in SpeiLines(text) <==> Contains(text, Payee)
  {
    var tokens := Tokens(text);
    var year, date, payee, slash := FirstMatch(tokens, YearReference), DateLabel(text),
                                    PayeeLine(text), FirstMatch(tokens, DoubleSlash);
    assert SpeiLines(text) == SpeiHeader + (year + date + payee + slash);
    SpeiDetailsShape(text);
    FixedLineOnlyAsAppended(Payee, year, date, payee, slash);
  }

  /** A SCOTIALINE payment is the fixed label, followed by the first
      all-digit token longer than ten characters when there is one. */
  lemma ScotialineRule(text: string)
    ensures var lines := ScotialineLines(text);
            1 <= |lines| <= 2 && lines[0] == ScotialineLabel
    ensures |ScotialineLines(text)| == 2 <==> AnyMatch(Tokens(text), LongNumber)
    ensures forall j :: IsFirstMatch(Tokens(text), LongNumber, j) ==>
                          ScotialineLines(text) == [ScotialineLabel, Tokens(text)[j]]
  {
    FirstMatchIsFirst(Tokens(text), LongNumber);
  }
}
