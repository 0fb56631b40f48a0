/** The handful of Python string operations the statement generator relies on:
    whitespace, `str.strip()`, `str.split()`, `str.startswith`, the substring
    test `sub in s` and `str.isdigit()`. Characters are restricted to the ASCII
    range in meaning: non-ASCII whitespace and digits are not recognised. */
module Text {

  /** Python's `str.isspace()` over ASCII: space, the controls `\t` to `\r`,
      and the four separators 0x1C to 0x1F. */
  predicate IsSpace(c: char) {
    c == ' ' || ('\t' <= c <= '\r') || (28 <= c as int <= 31)
  }

  predicate NoSpace(s: string) {
    forall i :: 0 <= i < |s| ==> !IsSpace(s[i])
  }

  predicate AllSpace(s: string) {
    forall i :: 0 <= i < |s| ==> IsSpace(s[i])
  }

  /** `str.isdigit()` over ASCII: non-empty and every character a decimal digit. */
  predicate IsDigits(s: string) {
    |s| > 0 && forall i :: 0 <= i < |s| ==> '0' <= s[i] <= '9'
  }

  /** `s.startswith(prefix)` */
  predicate StartsWith(s: string, prefix: string) {
    |prefix| <= |s| && s[..|prefix|] == prefix
  }

  /** `sub in s`, as a left-to-right scan of the start positions. */
  predicate Contains(s: string, sub: string)
    decreases |s|
  {
    StartsWith(s, sub) || (s != [] && Contains(s[1..], sub))
  }

  /** `sub` occurs in `s` starting at position `i`. */
  predicate OccursAt(s: string, sub: string, i: int) {
    0 <= i <= |s| - |sub| && s[i..i + |sub|] == sub
  }

  /** The scan finds `sub` exactly when `sub` occurs somewhere in `s`. */
  lemma {:induction false} ContainsIffOccurs(s: string, sub: string)
    ensures Contains(s, sub) <==> exists i :: OccursAt(s, sub, i)
    decreases |s|
  {
    if StartsWith(s, sub) {
      assert OccursAt(s, sub, 0);
    } else if s != [] {
      ContainsIffOccurs(s[1..], sub);
      if i :| OccursAt(s, sub, i) {
        assert i != 0;
        assert s[1..][i - 1..i - 1 + |sub|] == s[i..i + |sub|];
        assert OccursAt(s[1..], sub, i - 1);
      }
      if i :| OccursAt(s[1..], sub, i) {
        assert s[1..][i..i + |sub|] == s[i + 1..i + 1 + |sub|];
        assert OccursAt(s, sub, i + 1);
      }
    } else {
      assert |sub| > 0;
    }
  }

  /** `s.lstrip()`: drops the leading whitespace. */
  function TrimStart(s: string): (r: string)
    ensures |r| <= |s| && r == s[|s| - |r|..]
    ensures forall k :: 0 <= k < |s| - |r| ==> IsSpace(s[k])
    ensures r == [] || !IsSpace(r[0])
    decreases |s|
  {
    if s != [] && IsSpace(s[0]) then TrimStart(s[1..]) else s
  }

  /** `s.rstrip()`: drops the trailing whitespace. */
  function TrimEnd(s: string): (r: string)
    ensures |r| <= |s| && r == s[..|r|]
    ensures forall k :: |r| <= k < |s| ==> IsSpace(s[k])
    ensures r == [] || !IsSpace(r[|r| - 1])
    decreases |s|
  {
    if s != [] && IsSpace(s[|s| - 1]) then TrimEnd(s[..|s| - 1]) else s
  }

  /** `s.strip()` */
  function Strip(s: string): string {
    TrimEnd(TrimStart(s))
  }

  /** `s.strip()` is the slice of `s` that starts after its leading whitespace,
      with only whitespace before and after it. */
  lemma StripCutsOnlyWhitespace(s: string)
    ensures var r, i := Strip(s), |s| - |TrimStart(s)|;
            i + |r| <= |s| && s[i..i + |r|] == r
            && (forall k :: 0 <= k < i ==> IsSpace(s[k]))
            && (forall k :: i + |r| <= k < |s| ==> IsSpace(s[k]))
  {
    var t := TrimStart(s);
    var r := TrimEnd(t);
    var i := |s| - |t|;
    assert s[i..i + |r|] == r by {
      assert t == s[i..];
    }
    forall k | i + |r| <= k < |s| ensures IsSpace(s[k]) {
      assert s[k] == t[k - i];
    }
  }

  /** `s.strip()` is empty exactly when `s` is all whitespace, and otherwise
      begins and ends with a non-whitespace character. */
  lemma StripTrimsToNonBlank(s: string)
    ensures Strip(s) == [] <==> AllSpace(s)
    ensures Strip(s) != [] ==> !IsSpace(Strip(s)[0]) && !IsSpace(Strip(s)[|Strip(s)| - 1])
  {
    var t := TrimStart(s);
    var r := TrimEnd(t);
    var i := |s| - |t|;
    if r == [] {
      assert t == [] && s[..i] == s;
    } else {
      assert s[i] == t[0] == r[0];
    }
  }

  /** The characters of `s` that are not whitespace, in order. */
  function Squeeze(s: string): (r: string)
    ensures |r| <= |s|
  {
    if s == [] then []
    else if IsSpace(s[0]) then Squeeze(s[1..])
    else [s[0]] + Squeeze(s[1..])
  }

  /** The concatenation of a list of strings, `''.join(words)`. */
  function Concat(words: seq<string>): string {
    if words == [] then [] else words[0] + Concat(words[1..])
  }

  /** `str.split()` with no separator, continuing a word already begun:
      every token is non-empty and free of whitespace. */
  function SplitFrom(s: string, word: string): (tokens: seq<string>)
    requires NoSpace(word)
    ensures forall k :: 0 <= k < |tokens| ==> tokens[k] != [] && NoSpace(tokens[k])
    decreases |s|
  {
    if s == [] then
      if word == [] then [] else [word]
    else if IsSpace(s[0]) then
      var rest := SplitFrom(s[1..], []);
      if word == [] then rest else [word] + rest
    else
      SplitFrom(s[1..], word + [s[0]])
  }

  /** `s.split()`: the maximal runs of non-whitespace characters, in order. */
  function Tokens(s: string): (tokens: seq<string>)
    ensures forall k :: 0 <= k < |tokens| ==> tokens[k] != [] && NoSpace(tokens[k])
  {
    SplitFrom(s, [])
  }

  /** Joined back together, the tokens continuing `word` are `word` and then
      the non-whitespace characters of `s`. */
  lemma {:induction false} SplitKeepsText(s: string, word: string)
    requires NoSpace(word)
    ensures Concat(SplitFrom(s, word)) == word + Squeeze(s)
    decreases |s|
  {
    if s == [] {
      assert word + [] == word;
    } else if IsSpace(s[0]) {
      SplitKeepsText(s[1..], []);
      var rest := SplitFrom(s[1..], []);
      if word != [] {
        assert ([word] + rest)[1..] == rest;
      }
    } else {
      SplitKeepsText(s[1..], word + [s[0]]);
      assert word + [s[0]] + Squeeze(s[1..]) == word + Squeeze(s);
    }
  }

  /** Joined back together, the tokens of `s` are exactly its non-whitespace
      characters: splitting loses only whitespace. */
  lemma TokensKeepAllText(s: string)
    ensures Concat(Tokens(s)) == Squeeze(s)
  {
    SplitKeepsText(s, []);
  }

  /** A whitespace character ends the word in progress and separates the
      tokens before it from those after it. */
  lemma {:induction false} SplitAtSpace(a: string, c: char, b: string, word: string)
    requires NoSpace(word) && IsSpace(c)
    ensures SplitFrom(a + [c] + b, word) == SplitFrom(a, word) + SplitFrom(b, [])
    decreases |a|
  {
    var s := a + [c] + b;
    if a == [] {
      assert s[1..] == b;
    } else {
      assert s[1..] == a[1..] + [c] + b;
      if IsSpace(a[0]) {
        SplitAtSpace(a[1..], c, b, []);
      } else {
        SplitAtSpace(a[1..], c, b, word + [a[0]]);
      }
    }
  }

  /** A run of non-whitespace characters continues the word in progress. */
  lemma {:induction false} SplitWord(w: string, word: string)
    requires NoSpace(word) && NoSpace(w)
    ensures SplitFrom(w, word) == if word + w == [] then [] else [word + w]
    decreases |w|
  {
    if w == [] {
      assert word + w == word;
    } else {
      SplitWord(w[1..], word + [w[0]]);
      assert word + [w[0]] + w[1..] == word + w;
    }
  }

  /** Splitting separates at every whitespace character: the tokens of
      `a + c + b`, for a whitespace `c`, are those of `a` and then those of
      `b`, and a non-empty run without whitespace is one token. */
  lemma TokensSeparateAtSpace(a: string, c: char, b: string)
    requires IsSpace(c)
    ensures Tokens(a + [c] + b) == Tokens(a) + Tokens(b)
    ensures NoSpace(a) && a != [] ==> Tokens(a) == [a]
  {
    SplitAtSpace(a, c, b, []);
    if NoSpace(a) {
      SplitWord(a, []);
      assert [] + a == a;
    }
  }
}
