/** Go's `html.EscapeString`, which the record renderer applies to the file
    path, the column name and the cell value, and its inverse. */
module Html {

  /** The characters `html.EscapeString` replaces by entities. */
  predicate IsSpecial(c: char) {
    c == '&' || c == '\'' || c == '<' || c == '>' || c == '"'
  }

  /** Go's escaper maps `&`, `'`, `<`, `>` and `"` to `&amp;`, `&#39;`,
      `&lt;`, `&gt;` and `&#34;`; everything else is copied. */
  function EscapeChar(c: char): string {
    match c
    case '&' => "&amp;"
    case '\'' => "&#39;"
    case '<' => "&lt;"
    case '>' => "&gt;"
    case '"' => "&#34;"
    case _ => [c]
  }

  /** The escaped text never contains a markup delimiter or a quote, so it
      cannot close an element or an attribute it is placed in. */
  function Escape(s: string): (r: string)
    ensures forall k :: 0 <= k < |r| ==> r[k] != '<' && r[k] != '>' && r[k] != '"' && r[k] != '\''
    ensures |r| >= |s|
  {
    if |s| == 0 then "" else EscapeChar(s[0]) + Escape(s[1..])
  }

  /** Decodes exactly the five entities `Escape` produces, left to right. */
  function Unescape(r: string): string
    decreases |r|
  {
    if |r| == 0 then ""
    else if r[0] != '&' then [r[0]] + Unescape(r[1..])
    else if |r| >= 5 && r[..5] == "&amp;" then "&" + Unescape(r[5..])
    else if |r| >= 5 && r[..5] == "&#39;" then "'" + Unescape(r[5..])
    else if |r| >= 4 && r[..4] == "&lt;" then "<" + Unescape(r[4..])
    else if |r| >= 4 && r[..4] == "&gt;" then ">" + Unescape(r[4..])
    else if |r| >= 5 && r[..5] == "&#34;" then "\"" + Unescape(r[5..])
    else [r[0]] + Unescape(r[1..])
  }

  /** Unescaping the escape of one character followed by more text yields
      that character followed by the unescaped rest. */
  lemma UnescapeEscapeChar(c: char, rest: string)
    ensures Unescape(EscapeChar(c) + rest) == [c] + Unescape(rest)
  {
    var e := EscapeChar(c) + rest;
    if c == '&' {
      assert e[..5] == "&amp;" && e[5..] == rest;
    } else if c == '\'' {
      assert e[..5] == "&#39;" && e[5..] == rest;
    } else if c == '<' {
      assert e[..4] == "&lt;" && e[4..] == rest;
      assert e[1] == 'l';
    } else if c == '>' {
      assert e[..4] == "&gt;" && e[4..] == rest;
      assert e[1] == 'g';
    } else if c == '"' {
      assert e[..5] == "&#34;" && e[5..] == rest;
      assert e[2] == '3';
    } else {
      assert e[0] == c && e[1..] == rest;
    }
  }

  /** Escaping loses nothing: unescaping recovers the original text. */
  lemma {:induction false} UnescapeEscape(s: string)
    ensures Unescape(Escape(s)) == s
  {
    if |s| > 0 {
      UnescapeEscape(s[1..]);
      UnescapeEscapeChar(s[0], Escape(s[1..]));
      assert [s[0]] + s[1..] == s;
    }
  }

  /** Escaping distinguishes every pair of distinct strings. */
  lemma EscapeInjective(s: string, t: string)
    requires Escape(s) == Escape(t)
    ensures s == t
  {
    UnescapeEscape(s);
    UnescapeEscape(t);
  }

  /** Escaping a concatenation escapes each part. */
  lemma {:induction false} EscapeAppend(s: string, t: string)
    ensures Escape(s + t) == Escape(s) + Escape(t)
  {
    if |s| > 0 {
      assert (s + t)[1..] == s[1..] + t;
      EscapeAppend(s[1..], t);
    } else {
      assert s + t == t;
    }
  }
}
