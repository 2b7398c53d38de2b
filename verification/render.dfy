/** Rendering of one surviving row as an HTML block: a file-info line naming
    the escaped file path and the line number, then one `data-item` line per
    target column whose index lies inside the row. */
module Render {
  import opened Wrappers
  import opened TextOps
  import opened Headers
  import opened Html
  import opened Decimal

  /** One column entry of a record: the column name, the cell, and whether
      the column was requested with emphasis. */
  datatype DataItem = DataItem(name: string, value: string, emphasize: bool)

  /** One record: where it came from and its column entries in output order. */
  datatype Block = Block(path: string, line: nat, items: seq<DataItem>)

  /** The entry a target column contributes for a row, if the row reaches its index. */
  function ItemFor(record: seq<string>, t: TargetColumn): seq<DataItem> {
    if t.index < |record| then [DataItem(t.name, record[t.index], t.emphasize)] else []
  }

  /** The entries of one row, one per target column in target order, skipping
      the columns whose index lies beyond the end of the row. */
  function RenderItems(record: seq<string>, targets: seq<TargetColumn>): (items: seq<DataItem>)
    ensures |items| <= |targets|
    decreases |targets|
  {
    if |targets| == 0 then [] else ItemFor(record, targets[0]) + RenderItems(record, targets[1..])
  }

  /** Every entry comes from a target column inside the row, with that
      column's name, cell and emphasis, and every target column inside the
      row gives its entry. */
  lemma {:induction false} RenderItemsContents(record: seq<string>, targets: seq<TargetColumn>)
    ensures forall it :: it in RenderItems(record, targets) ==>
      exists t :: t in targets && t.index < |record| && it == DataItem(t.name, record[t.index], t.emphasize)
    ensures forall t :: t in targets && t.index < |record| ==>
      DataItem(t.name, record[t.index], t.emphasize) in RenderItems(record, targets)
    decreases |targets|
  {
    if |targets| > 0 {
      RenderItemsContents(record, targets[1..]);
      assert RenderItems(record, targets) == ItemFor(record, targets[0]) + RenderItems(record, targets[1..]);
      assert forall t :: t in targets ==> t == targets[0] || t in targets[1..];
      assert forall t :: t in targets[1..] ==> t in targets;
    }
  }

  /** The entries for a concatenation of target lists are the entries of the
      first list followed by those of the second. */
  lemma {:induction false} RenderItemsAppend(record: seq<string>, a: seq<TargetColumn>, b: seq<TargetColumn>)
    ensures RenderItems(record, a + b) == RenderItems(record, a) + RenderItems(record, b)
    decreases |a|
  {
    if |a| == 0 {
      assert a + b == b;
    } else {
      RenderItemsAppend(record, a[1..], b);
      RenderItemsAppendStep(record, a, b);
    }
  }

  /** One induction step of `RenderItemsAppend`: the property for a list
      follows from the property for its tail. */
  lemma RenderItemsAppendStep(record: seq<string>, a: seq<TargetColumn>, b: seq<TargetColumn>)
    requires |a| > 0
    requires RenderItems(record, a[1..] + b) == RenderItems(record, a[1..]) + RenderItems(record, b)
    ensures RenderItems(record, a + b) == RenderItems(record, a) + RenderItems(record, b)
  {
    var head, rest, tail := ItemFor(record, a[0]), RenderItems(record, a[1..]), RenderItems(record, b);
    assert RenderItems(record, a + b) == head + (rest + tail) by {
      assert (a + b)[0] == a[0] && (a + b)[1..] == a[1..] + b;
      RenderItemsCons(record, a + b);
    }
    assert RenderItems(record, a) == head + rest by {
      RenderItemsCons(record, a);
    }
    assert head + (rest + tail) == (head + rest) + tail;
  }

  /** Unfolds the entries of a non-empty target list once. */
  lemma RenderItemsCons(record: seq<string>, targets: seq<TargetColumn>)
    requires |targets| > 0
    ensures RenderItems(record, targets) == ItemFor(record, targets[0]) + RenderItems(record, targets[1..])
  {
  }

  /** A target column whose index lies beyond the row leaves no trace: the
      entries are those of the other columns, in the same order. */
  lemma RenderSkipsShortRow(record: seq<string>, a: seq<TargetColumn>, t: TargetColumn, b: seq<TargetColumn>)
    requires t.index >= |record|
    ensures RenderItems(record, a + [t] + b) == RenderItems(record, a) + RenderItems(record, b)
  {
    RenderItemsAppend(record, a + [t], b);
    RenderItemsAppend(record, a, [t]);
  }

  /** A target column inside the row contributes exactly its entry, between
      the entries of the columns before and after it. */
  lemma RenderEmitsColumn(record: seq<string>, a: seq<TargetColumn>, t: TargetColumn, b: seq<TargetColumn>)
    requires t.index < |record|
    ensures RenderItems(record, a + [t] + b)
         == RenderItems(record, a) + [DataItem(t.name, record[t.index], t.emphasize)] + RenderItems(record, b)
  {
    RenderItemsAppend(record, a + [t], b);
    RenderItemsAppend(record, a, [t]);
    assert RenderItems(record, [t]) == [DataItem(t.name, record[t.index], t.emphasize)] by {
      assert [t][1..] == [];
    }
  }

  /** When the row reaches every target index, there is one entry per target
      column, in target order, holding that column's name, cell and emphasis. */
  lemma {:induction false} RenderItemsFullRow(record: seq<string>, targets: seq<TargetColumn>)
    requires forall t :: t in targets ==> t.index < |record|
    ensures |RenderItems(record, targets)| == |targets|
    ensures forall j :: 0 <= j < |targets| ==>
      RenderItems(record, targets)[j] == DataItem(targets[j].name, record[targets[j].index], targets[j].emphasize)
    decreases |targets|
  {
    if |targets| > 0 {
      RenderItemsFullRow(record, targets[1..]);
      assert forall j :: 1 <= j < |targets| ==> targets[j] == targets[1..][j - 1];
    }
  }

  /** The record for one row of one file: it carries the file path and the
      line number, and at most one entry per target column. */
  function RenderRecord(path: string, line: nat, record: seq<string>, targets: seq<TargetColumn>): (b: Block)
    ensures b.path == path && b.line == line && |b.items| <= |targets|
  {
    Block(path, line, RenderItems(record, targets))
  }

  /** The entries of a record: each comes from a target column inside the
      row, with its name, cell and emphasis; every such column gives its
      entry; and when the row reaches every target position there is exactly
      one entry per column, in column order. */
  lemma RenderRecordEntries(path: string, line: nat, record: seq<string>, targets: seq<TargetColumn>)
    ensures forall it :: it in RenderRecord(path, line, record, targets).items ==>
      exists t :: t in targets && t.index < |record| && it == DataItem(t.name, record[t.index], t.emphasize)
    ensures forall t :: t in targets && t.index < |record| ==>
      DataItem(t.name, record[t.index], t.emphasize) in RenderRecord(path, line, record, targets).items
    ensures (forall t :: t in targets ==> t.index < |record|) ==>
      && |RenderRecord(path, line, record, targets).items| == |targets|
      && forall j :: 0 <= j < |targets| ==>
           RenderRecord(path, line, record, targets).items[j]
             == DataItem(targets[j].name, record[targets[j].index], targets[j].emphasize)
  {
    RenderItemsContents(record, targets);
    if forall t :: t in targets ==> t.index < |record| {
      RenderItemsFullRow(record, targets);
    }
  }

  // ----- Text of a record -----

  /** The class attribute of a `data-item` line: `emphasis` is added exactly
      for emphasised columns. */
  function ClassName(emphasize: bool): (c: string)
    ensures HasPrefix(c, "data-item")
    ensures '"' !in c
  {
    if emphasize then "data-item emphasis" else "data-item"
  }

  const ItemOpen := "  <p class=\""
  const HeaderOpen := "\"><span class=\"header\">"
  const KeyClose := ": "
  const ValueOpen := "</span><span class=\"value\">["
  const ValueClose := "]"
  const ItemTail := "</span></p>\n"

  /** The end of an entry line from the cell's opening bracket on. */
  function ValueText(value: string): string {
    ValueOpen + (Escape(value) + ValueClose) + ItemTail
  }

  /** The end of an entry line from the close of the class attribute on. */
  function KeyValueText(name: string, value: string): string {
    HeaderOpen + (Escape(name) + KeyClose) + ValueText(value)
  }

  /** The HTML line of one entry, with the column name and the cell escaped:
      `  <p class="C"><span class="header">N: </span><span class="value">[V]</span></p>`. */
  function ItemLine(it: DataItem): string {
    ItemOpen + ClassName(it.emphasize) + KeyValueText(it.name, it.value)
  }

  const InfoOpen := "  <p class=\"file-info\">--- ファイル: "
  const InfoLineLabel := ", 行: "
  const InfoClose := " ---"
  const InfoTail := "</p>\n"

  /** The HTML line naming the escaped file path and the line number. */
  function FileInfoLine(path: string, line: nat): string {
    InfoOpen + Escape(path) + InfoLineLabel + NatToString(line) + InfoClose + InfoTail
  }

  /** The entry lines of a record, in entry order. */
  function ItemLines(items: seq<DataItem>): string
    decreases |items|
  {
    if |items| == 0 then "" else ItemLine(items[0]) + ItemLines(items[1..])
  }

  const BlockOpen := "<div class=\"record\">\n"
  const BlockClose := "</div>\n"

  /** The complete HTML block of one record. */
  function BlockText(b: Block): string {
    BlockOpen + FileInfoLine(b.path, b.line) + ItemLines(b.items) + BlockClose
  }

  // ----- Reading a record back -----

  /** Splits `s` before the first occurrence of `c`, or at its end. */
  function CutBefore(s: string, c: char): (parts: (string, string))
    ensures parts.0 + parts.1 == s
    ensures c !in parts.0
    ensures |parts.1| == 0 || parts.1[0] == c
    decreases |s|
  {
    if |s| == 0 then ("", "")
    else if s[0] == c then ("", s)
    else
      var rest := CutBefore(s[1..], c);
      assert [s[0]] + s[1..] == s;
      ([s[0]] + rest.0, rest.1)
  }

  /** Cutting before `c` finds the first `c` of the text. */
  lemma CutBeforeFirst(a: string, b: string, c: char)
    requires c !in a
    requires |b| > 0 && b[0] == c
    ensures CutBefore(a + b, c) == (a, b)
  {
    if |a| == 0 {
      assert a + b == b;
    } else {
      assert (a + b)[1..] == a[1..] + b;
      CutBeforeFirst(a[1..], b, c);
      assert [a[0]] + a[1..] == a;
    }
  }

  /** Reads the emphasis back from a class attribute. */
  function ParseClass(c: string): Option<bool> {
    if c == "data-item emphasis" then Some(true)
    else if c == "data-item" then Some(false)
    else None
  }

  /** Regrouping a three-part concatenation that is followed by more text. */
  lemma Regroup(a: string, b: string, c: string, rest: string)
    ensures a + b + c + rest == a + b + (c + rest)
  {
  }

  /** Regrouping a three-part concatenation. */
  lemma Assoc(a: string, b: string, c: string)
    ensures a + b + c == a + (b + c)
  {
  }

  /** A literal at the front of a text is recognised and skipped. */
  lemma SkipLiteral(open: string, rest: string)
    ensures HasPrefix(open + rest, open)
    ensures (open + rest)[|open|..] == rest
  {
    assert (open + rest)[..|open|] == open;
  }

  /** After an opening literal, cutting before `c` finds the end of a
      `c`-free field `a` followed by text `b` that starts with `c`. */
  lemma CutField(open: string, a: string, b: string, c: char)
    requires c !in a
    requires |b| > 0 && b[0] == c
    ensures HasPrefix(open + a + b, open)
    ensures CutBefore((open + a + b)[|open|..], c) == (a, b)
  {
    SkipLiteral(open, a + b);
    assert open + a + b == open + (a + b);
    CutBeforeFirst(a, b, c);
  }

  /** A field followed by its closing literal gives the field back once the
      literal is removed. */
  lemma DropClose(field: string, close: string)
    ensures HasSuffix(field + close, close)
    ensures (field + close)[..|field + close| - |close|] == field
  {
    assert (field + close)[|field + close| - |close|..] == close;
  }

  /** Reads the end of an entry line, from the value's opening bracket on:
      the unescaped cell and the text after the line. */
  function ParseValue(s: string): (r: Option<(string, string)>)
    ensures r.Some? ==> |r.value.1| < |s|
  {
    if !HasPrefix(s, ValueOpen) then None
    else
      var (valuePart, tail) := CutBefore(s[|ValueOpen|..], '<');
      if !HasSuffix(valuePart, ValueClose) || !HasPrefix(tail, ItemTail) then None
      else Some((Unescape(valuePart[..|valuePart| - |ValueClose|]), tail[|ItemTail|..]))
  }

  /** Reads the column name and the cell of an entry line, from the end of
      the class attribute on, and the text after the line. */
  function ParseKeyValue(s: string): (r: Option<(string, string, string)>)
    ensures r.Some? ==> |r.value.2| < |s|
  {
    if !HasPrefix(s, HeaderOpen) then None
    else
      var (keyPart, afterKey) := CutBefore(s[|HeaderOpen|..], '<');
      if !HasSuffix(keyPart, KeyClose) then None
      else
        match ParseValue(afterKey)
        case None => None
        case Some((value, rest)) => Some((Unescape(keyPart[..|keyPart| - |KeyClose|]), value, rest))
  }

  /** Reads one entry line from the front of `s`: the entry, and the text
      after the line. */
  function ParseItem(s: string): (r: Option<(DataItem, string)>)
    ensures r.Some? ==> |r.value.1| < |s|
  {
    if !HasPrefix(s, ItemOpen) then None
    else
      var (cls, afterClass) := CutBefore(s[|ItemOpen|..], '"');
      match (ParseClass(cls), ParseKeyValue(afterClass))
      case (Some(emphasize), Some((name, value, rest))) => Some((DataItem(name, value, emphasize), rest))
      case _ => None
  }

  /** Reads entry lines up to the closing `</div>` line. */
  function ParseItems(s: string): Option<seq<DataItem>>
    decreases |s|
  {
    if s == BlockClose then Some([])
    else
      match ParseItem(s)
      case None => None
      case Some((it, rest)) =>
        match ParseItems(rest)
        case None => None
        case Some(items) => Some([it] + items)
  }

  /** The number of decimal digits at the end of `s`. */
  function TrailingDigits(s: string): (k: nat)
    ensures k <= |s|
    ensures forall i :: |s| - k <= i < |s| ==> IsDigit(s[i])
    decreases |s|
  {
    if |s| == 0 || !IsDigit(s[|s| - 1]) then 0 else 1 + TrailingDigits(s[..|s| - 1])
  }

  /** Text ending in a non-digit, followed by digits, ends in exactly those digits. */
  lemma {:induction false} TrailingDigitsOf(a: string, d: string)
    requires |a| > 0 && !IsDigit(a[|a| - 1])
    requires forall i :: 0 <= i < |d| ==> IsDigit(d[i])
    ensures TrailingDigits(a + d) == |d|
    decreases |d|
  {
    if |d| == 0 {
      assert a + d == a;
    } else {
      assert (a + d)[..|a + d| - 1] == a + d[..|d| - 1];
      TrailingDigitsOf(a, d[..|d| - 1]);
    }
  }

  /** Reads the path and the line number from the text between the opening
      literal and the closing ` ---` of a file-info line. */
  function ParseInfoBody(body: string): Option<(string, nat)> {
    var k := TrailingDigits(body);
    var head := body[..|body| - k];
    if k == 0 || !HasSuffix(head, InfoLineLabel) then None
    else Some((Unescape(head[..|head| - |InfoLineLabel|]), DigitsValue(body[|body| - k..])))
  }

  /** Reads a file-info line from the front of `s`: the unescaped path, the
      line number, and the text after the line. */
  function ParseFileInfo(s: string): Option<(string, nat, string)> {
    if !HasPrefix(s, InfoOpen) then None
    else
      var (info, tail) := CutBefore(s[|InfoOpen|..], '<');
      if !HasPrefix(tail, InfoTail) || !HasSuffix(info, InfoClose) then None
      else
        match ParseInfoBody(info[..|info| - |InfoClose|])
        case None => None
        case Some((path, line)) => Some((path, line, tail[|InfoTail|..]))
  }

  /** Reads a whole record block back. */
  function ParseBlock(text: string): Option<Block> {
    if !HasPrefix(text, BlockOpen) then None
    else
      match ParseFileInfo(text[|BlockOpen|..])
      case None => None
      case Some((path, line, rest)) =>
        match ParseItems(rest)
        case None => None
        case Some(items) => Some(Block(path, line, items))
  }

  lemma ParseValueRoundTrip(value: string, rest: string)
    ensures ParseValue(ValueText(value) + rest) == Some((value, rest))
  {
    Regroup(ValueOpen, Escape(value) + ValueClose, ItemTail, rest);
    assert '<' !in ValueClose && (ItemTail + rest)[0] == '<';
    CutField(ValueOpen, Escape(value) + ValueClose, ItemTail + rest, '<');
    DropClose(Escape(value), ValueClose);
    SkipLiteral(ItemTail, rest);
    UnescapeEscape(value);
  }

  lemma ParseKeyValueRoundTrip(name: string, value: string, rest: string)
    ensures ParseKeyValue(KeyValueText(name, value) + rest) == Some((name, value, rest))
  {
    var afterKey := ValueText(value) + rest;
    Regroup(HeaderOpen, Escape(name) + KeyClose, ValueText(value), rest);
    assert '<' !in KeyClose && afterKey[0] == '<';
    CutField(HeaderOpen, Escape(name) + KeyClose, afterKey, '<');
    DropClose(Escape(name), KeyClose);
    UnescapeEscape(name);
    ParseValueRoundTrip(value, rest);
  }

  /** Reading an entry line back recovers the entry, whatever follows the
      line: its column name, its cell and its emphasis, so the class is
      `data-item emphasis` exactly for emphasised columns and no escaped text
      can be mistaken for markup. */
  lemma ParseItemRoundTrip(it: DataItem, rest: string)
    ensures ParseItem(ItemLine(it) + rest) == Some((it, rest))
  {
    var cls := ClassName(it.emphasize);
    var afterClass := KeyValueText(it.name, it.value) + rest;
    Regroup(ItemOpen, cls, KeyValueText(it.name, it.value), rest);
    assert afterClass[0] == '"';
    CutField(ItemOpen, cls, afterClass, '"');
    ParseKeyValueRoundTrip(it.name, it.value, rest);
  }

  /** An entry line starts with a space, so it is never the closing line. */
  lemma ItemLineStart(it: DataItem, rest: string)
    ensures (ItemLine(it) + rest)[0] == ' '
  {
    assert ItemLine(it) == ItemOpen + (ClassName(it.emphasize) + KeyValueText(it.name, it.value));
  }

  /** One step of reading entry lines: an entry line in front of lines that
      read back to `items` reads back to the entry followed by `items`. */
  lemma ParseItemsStep(it: DataItem, rest: string, items: seq<DataItem>)
    requires ParseItems(rest) == Some(items)
    ensures ParseItems(ItemLine(it) + rest) == Some([it] + items)
  {
    var s := ItemLine(it) + rest;
    assert s != BlockClose by {
      ItemLineStart(it, rest);
    }
    assert ParseItem(s) == Some((it, rest)) by {
      ParseItemRoundTrip(it, rest);
    }
  }

  /** Reading the entry lines of a record back recovers its entries, in order. */
  lemma {:induction false} ParseItemsRoundTrip(items: seq<DataItem>)
    ensures ParseItems(ItemLines(items) + BlockClose) == Some(items)
    decreases |items|
  {
    if |items| == 0 {
      assert ItemLines(items) + BlockClose == BlockClose;
    } else {
      var rest := ItemLines(items[1..]) + BlockClose;
      assert ItemLines(items) + BlockClose == ItemLine(items[0]) + rest by {
        assert ItemLines(items) == ItemLine(items[0]) + ItemLines(items[1..]);
        Assoc(ItemLine(items[0]), ItemLines(items[1..]), BlockClose);
      }
      ParseItemsRoundTrip(items[1..]);
      ParseItemsStep(items[0], rest, items[1..]);
      assert [items[0]] + items[1..] == items;
    }
  }

  lemma ParseInfoBodyRoundTrip(path: string, line: nat)
    ensures ParseInfoBody(Escape(path) + InfoLineLabel + NatToString(line)) == Some((path, line))
  {
    var digits := NatToString(line);
    var head := Escape(path) + InfoLineLabel;
    var body := head + digits;
    assert head[|head| - 1] == ' ';
    TrailingDigitsOf(head, digits);
    assert body[..|body| - |digits|] == head;
    assert body[|body| - |digits|..] == digits;
    DropClose(Escape(path), InfoLineLabel);
    UnescapeEscape(path);
  }

  /** Reading a file-info line back recovers the file path and the line
      number, whatever follows the line. */
  lemma ParseFileInfoRoundTrip(path: string, line: nat, rest: string)
    ensures ParseFileInfo(FileInfoLine(path, line) + rest) == Some((path, line, rest))
  {
    var digits := NatToString(line);
    var body := Escape(path) + InfoLineLabel + digits;
    assert FileInfoLine(path, line) + rest == InfoOpen + (body + InfoClose) + (InfoTail + rest);
    assert '<' !in InfoLineLabel && '<' !in InfoClose && (InfoTail + rest)[0] == '<';
    assert forall i :: 0 <= i < |digits| ==> digits[i] != '<';
    assert '<' !in body + InfoClose;
    CutField(InfoOpen, body + InfoClose, InfoTail + rest, '<');
    DropClose(body, InfoClose);
    SkipLiteral(InfoTail, rest);
    ParseInfoBodyRoundTrip(path, line);
  }

  /** Reading a rendered record block back recovers the record: the file
      path, the line number and every entry with its name, cell and emphasis,
      in order. */
  lemma BlockTextRoundTrip(b: Block)
    ensures ParseBlock(BlockText(b)) == Some(b)
  {
    var info := FileInfoLine(b.path, b.line);
    var rest := ItemLines(b.items) + BlockClose;
    assert BlockText(b) == BlockOpen + (info + rest) by {
      Regroup(BlockOpen, info, ItemLines(b.items), BlockClose);
    }
    assert HasPrefix(BlockText(b), BlockOpen) && BlockText(b)[|BlockOpen|..] == info + rest by {
      SkipLiteral(BlockOpen, info + rest);
    }
    assert ParseFileInfo(info + rest) == Some((b.path, b.line, rest)) by {
      ParseFileInfoRoundTrip(b.path, b.line, rest);
    }
    ParseItemsRoundTrip(b.items);
  }
}
