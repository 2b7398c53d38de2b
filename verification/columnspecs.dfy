/** The `-cols` option: a comma-separated list of column names, where a name
    wrapped in asterisks (`*Mail*`) asks for that column to be emphasised. */
module ColumnSpecs {
  import opened TextOps

  /** A requested column and whether its rendered line is emphasised. */
  datatype ColumnSpec = ColumnSpec(name: string, emphasize: bool)

  /** A piece is starred when it is longer than one character and both starts
      and ends with `*`; a lone `*` is not starred. */
  predicate Starred(t: string) {
    HasPrefix(t, "*") && HasSuffix(t, "*") && |t| > 1
  }

  /** Parses one comma-separated piece: it is trimmed, and a starred piece
      yields its inner text with emphasis, any other piece itself without. */
  function ParsePiece(piece: string): (spec: ColumnSpec)
    ensures spec.emphasize <==> Starred(TrimSpace(piece))
    ensures spec.emphasize ==> "*" + spec.name + "*" == TrimSpace(piece)
    ensures !spec.emphasize ==> spec.name == TrimSpace(piece)
  {
    var trimmed := TrimSpace(piece);
    if Starred(trimmed) then
      var spec := ColumnSpec(trimmed[1..|trimmed| - 1], true);
      assert trimmed == [trimmed[0]] + spec.name + [trimmed[|trimmed| - 1]];
      spec
    else ColumnSpec(trimmed, false)
  }

  /** Parses the whole `-cols` value: one spec per comma-separated piece, in order. */
  function ParseColumns(columns: string): (specs: seq<ColumnSpec>)
    ensures |specs| == |Split(columns, ',')|
    ensures forall i :: 0 <= i < |specs| ==> specs[i] == ParsePiece(Split(columns, ',')[i])
  {
    var pieces := Split(columns, ',');
    seq(|pieces|, i requires 0 <= i < |pieces| => ParsePiece(pieces[i]))
  }

  /** The text a user writes on the command line to request `spec`. */
  function FormatSpec(spec: ColumnSpec): string {
    if spec.emphasize then "*" + spec.name + "*" else spec.name
  }

  /** The `-cols` value that requests `specs`, in order. */
  function FormatColumns(specs: seq<ColumnSpec>): string {
    Join(seq(|specs|, i requires 0 <= i < |specs| => FormatSpec(specs[i])), ',')
  }

  /** A spec that some `-cols` text can express: its name has no comma, and a
      plain name neither has white space at its ends nor is itself starred. */
  predicate Expressible(spec: ColumnSpec) {
    && ',' !in spec.name
    && (!spec.emphasize ==> Trimmed(spec.name) && !Starred(spec.name))
  }

  /** Parsing forgets only the white space around a piece. */
  lemma FormatParsePiece(piece: string)
    ensures FormatSpec(ParsePiece(piece)) == TrimSpace(piece)
  {
  }

  /** Every expressible spec survives a format-then-parse round trip, and in
      particular an emphasised name may itself have spaces or asterisks. */
  lemma ParseFormatSpec(spec: ColumnSpec)
    requires !spec.emphasize ==> Trimmed(spec.name) && !Starred(spec.name)
    ensures ParsePiece(FormatSpec(spec)) == spec
  {
    var text := FormatSpec(spec);
    assert Trimmed(text);
    TrimSpaceOfTrimmed(text);
    if spec.emphasize {
      assert text[1..|text| - 1] == spec.name;
    }
  }

  /** Parsing the formatted list of expressible specs gives the same specs back. */
  lemma ParseFormatColumns(specs: seq<ColumnSpec>)
    requires |specs| >= 1
    requires forall i :: 0 <= i < |specs| ==> Expressible(specs[i])
    ensures ParseColumns(FormatColumns(specs)) == specs
  {
    var texts := seq(|specs|, i requires 0 <= i < |specs| => FormatSpec(specs[i]));
    forall i | 0 <= i < |texts| ensures ',' !in texts[i] {
      assert ',' !in "*";
    }
    SplitJoin(texts, ',');
    forall i | 0 <= i < |specs| ensures ParsePiece(texts[i]) == specs[i] {
      ParseFormatSpec(specs[i]);
    }
  }

  /** The pieces in the example usage `氏名,*メール*`: a plain column and an emphasised one. */
  lemma UsageExample()
    ensures ParseColumns("氏名,*メール*") == [ColumnSpec("氏名", false), ColumnSpec("メール", true)]
  {
    var specs := [ColumnSpec("氏名", false), ColumnSpec("メール", true)];
    var texts := seq(|specs|, i requires 0 <= i < |specs| => FormatSpec(specs[i]));
    assert texts[0] == "氏名";
    assert texts[1] == "*" + "メール" + "*" == "*メール*";
    assert texts == ["氏名", "*メール*"];
    assert Join(texts, ',') == "氏名" + [','] + "*メール*";
    assert "氏名" + [','] + "*メール*" == "氏名,*メール*";
    assert FormatColumns(specs) == "氏名,*メール*";
    assert Expressible(specs[0]);
    assert Expressible(specs[1]);
    ParseFormatColumns(specs);
  }

  /** A lone `*` is not starred: it names a column called `*`. */
  lemma LoneAsterisk()
    ensures ParsePiece(" * ") == ColumnSpec("*", false)
  {
    assert IsSpace(' ') && !IsSpace('*');
    assert " * "[1..] == "* " && "* "[..1] == "*";
    assert LeadingCount(" * ", IsSpace) == 1;
    assert TrailingCount("* ", IsSpace) == 1;
    assert TrimSpace(" * ") == "*";
  }
}
