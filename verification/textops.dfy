/** The pieces of Go's `strings` package that the extraction pipeline relies on:
    `Split` on a one-character separator, `TrimSpace`, `HasPrefix`, `HasSuffix`
    and `Contains`. Strings are sequences of Unicode scalar values. */
module TextOps {

  /** The white space characters Go's `unicode.IsSpace` recognises: tab,
      line feed, vertical tab, form feed, carriage return, space, U+0085,
      U+00A0, U+1680, U+2000 to U+200A, U+2028, U+2029, U+202F, U+205F and
      the ideographic space U+3000. */
  predicate IsSpace(c: char) {
    || ('\t' <= c <= '\r')
    || c == ' ' || c == '\U{85}' || c == '\U{A0}' || c == '\U{1680}'
    || ('\U{2000}' <= c <= '\U{200A}')
    || c == '\U{2028}' || c == '\U{2029}' || c == '\U{202F}' || c == '\U{205F}' || c == '\U{3000}'
  }

  predicate HasPrefix(s: string, prefix: string) {
    |prefix| <= |s| && s[..|prefix|] == prefix
  }

  predicate HasSuffix(s: string, suffix: string) {
    |suffix| <= |s| && s[|s| - |suffix|..] == suffix
  }

  /** `s` neither starts nor ends with white space. */
  predicate Trimmed(s: string) {
    |s| == 0 || (!IsSpace(s[0]) && !IsSpace(s[|s| - 1]))
  }

  /** The number of characters at the start of `s` satisfying `p`. */
  function LeadingCount(s: string, p: char -> bool): (n: nat)
    ensures n <= |s|
    ensures forall k :: 0 <= k < n ==> p(s[k])
    ensures n == |s| || !p(s[n])
    decreases |s|
  {
    if |s| > 0 && p(s[0]) then 1 + LeadingCount(s[1..], p) else 0
  }

  /** The number of characters at the end of `s` satisfying `p`. */
  function TrailingCount(s: string, p: char -> bool): (n: nat)
    ensures n <= |s|
    ensures forall k :: |s| - n <= k < |s| ==> p(s[k])
    ensures n == |s| || !p(s[|s| - n - 1])
    decreases |s|
  {
    if |s| > 0 && p(s[|s| - 1]) then 1 + TrailingCount(s[..|s| - 1], p) else 0
  }

  /** `r` is `s` with only characters satisfying `p` cut off at both ends,
      starting at position `i`. */
  ghost predicate CutWhere(s: string, r: string, i: int, p: char -> bool) {
    && 0 <= i && i + |r| <= |s| && s[i..i + |r|] == r
    && (forall k :: 0 <= k < i ==> p(s[k]))
    && (forall k :: i + |r| <= k < |s| ==> p(s[k]))
  }

  /** Go's `strings.TrimFunc`: cut the characters satisfying `p` from the
      start, then from the end of what is left. The result neither starts
      nor ends with such a character. */
  function TrimFunc(s: string, p: char -> bool): (r: string)
    ensures |r| == 0 || (!p(r[0]) && !p(r[|r| - 1]))
    ensures exists i :: CutWhere(s, r, i, p)
  {
    var i := LeadingCount(s, p);
    var t := s[i..];
    var j := TrailingCount(t, p);
    var r := s[i..|s| - j];
    assert |r| > 0 ==> r[0] == s[i] && r[|r| - 1] == t[|t| - j - 1];
    assert forall k :: i + |r| <= k < |s| ==> p(s[k]) by {
      forall k | i + |r| <= k < |s| ensures p(s[k]) {
        assert s[k] == t[k - i];
      }
    }
    assert CutWhere(s, r, i, p);
    r
  }

  /** Go's `strings.TrimSpace`, which is `TrimFunc` with `unicode.IsSpace`:
      the infix of `s` left after cutting white space at both ends. */
  function TrimSpace(s: string): (r: string)
    ensures Trimmed(r)
    ensures exists i :: CutWhere(s, r, i, IsSpace)
  {
    TrimFunc(s, IsSpace)
  }

  /** Trimming a string that has no white space at either end changes nothing. */
  lemma TrimSpaceOfTrimmed(s: string)
    requires Trimmed(s)
    ensures TrimSpace(s) == s
  {
  }

  /** Go's `strings.Join` with a one-character separator. */
  function Join(pieces: seq<string>, sep: char): string
  {
    if |pieces| == 0 then ""
    else if |pieces| == 1 then pieces[0]
    else pieces[0] + [sep] + Join(pieces[1..], sep)
  }

  /** Go's `strings.Split` with a one-character separator: the pieces between
      separators, always at least one, none containing the separator, and
      joining them back gives the input. */
  function Split(s: string, sep: char): (pieces: seq<string>)
    ensures |pieces| >= 1
    ensures forall i :: 0 <= i < |pieces| ==> sep !in pieces[i]
    ensures Join(pieces, sep) == s
  {
    if |s| == 0 then [""]
    else
      var rest := Split(s[1..], sep);
      if s[0] == sep then
        assert s == [sep] + s[1..];
        [""] + rest
      else
        var pieces := [[s[0]] + rest[0]] + rest[1..];
        assert forall i :: 1 <= i < |pieces| ==> pieces[i] == rest[i];
        assert |rest| > 1 ==> rest == [rest[0]] + rest[1..];
        pieces
  }

  /** A string without the separator splits into itself alone. */
  lemma {:induction false} SplitWithoutSeparator(s: string, sep: char)
    requires sep !in s
    ensures Split(s, sep) == [s]
  {
    if |s| > 0 {
      SplitWithoutSeparator(s[1..], sep);
      assert [s[0]] + s[1..] == s;
    }
  }

  /** The text before the first separator becomes the first piece. */
  lemma {:induction false} SplitAtFirstSeparator(piece: string, sep: char, rest: string)
    requires sep !in piece
    ensures Split(piece + [sep] + rest, sep) == [piece] + Split(rest, sep)
  {
    var s := piece + [sep] + rest;
    if |piece| == 0 {
      assert s[1..] == rest;
    } else {
      assert s[1..] == piece[1..] + [sep] + rest;
      SplitAtFirstSeparator(piece[1..], sep, rest);
      assert [piece[0]] + piece[1..] == piece;
    }
  }

  /** Splitting the join of separator-free pieces gives the pieces back. */
  lemma {:induction false} SplitJoin(pieces: seq<string>, sep: char)
    requires |pieces| >= 1
    requires forall i :: 0 <= i < |pieces| ==> sep !in pieces[i]
    ensures Split(Join(pieces, sep), sep) == pieces
  {
    if |pieces| == 1 {
      SplitWithoutSeparator(pieces[0], sep);
    } else {
      SplitJoin(pieces[1..], sep);
      SplitAtFirstSeparator(pieces[0], sep, Join(pieces[1..], sep));
      assert [pieces[0]] + pieces[1..] == pieces;
    }
  }

  /** `sub` occurs in `s` starting at position `i`. */
  predicate OccursAt(sub: string, s: string, i: int) {
    0 <= i && i + |sub| <= |s| && s[i..i + |sub|] == sub
  }

  /** `sub` occurs in `s` as a contiguous run of characters. */
  ghost predicate IsSubstring(sub: string, s: string) {
    exists i :: OccursAt(sub, s, i)
  }

  /** Go's `strings.Contains`: literal, case-sensitive substring search. */
  function Contains(s: string, sub: string): (found: bool)
    ensures found <==> IsSubstring(sub, s)
  {
    if |sub| > |s| then
      assert forall i :: !OccursAt(sub, s, i);
      false
    else if s[..|sub|] == sub then
      assert OccursAt(sub, s, 0);
      true
    else
      var r := Contains(s[1..], sub);
      if r then
        var i :| OccursAt(sub, s[1..], i);
        assert OccursAt(sub, s, i + 1);
        r
      else
        assert forall i :: OccursAt(sub, s, i) ==> i == 0 || OccursAt(sub, s[1..], i - 1);
        r
  }
}
