/** Processing of one CSV file: resolve the requested columns against its
    header, then read the data rows one by one, skipping malformed ones,
    filtering by the search text and rendering each surviving row. */
module Process {
  import opened Wrappers
  import opened TextOps
  import opened ColumnSpecs
  import opened Headers
  import opened RowFilter
  import opened Render

  /** What one read attempt after the header yields: a parsed record, or a
      parse fault such as a field-count mismatch or a bad quote. */
  datatype RowRead = Record(cells: seq<string>) | Malformed

  /** A file as the CSV reader sees it. The reader itself is not modelled:
      a file either cannot be opened, is empty (the header read hits end of
      input), has a header that cannot be read, or has a header followed by
      the results of reading each further record. */
  datatype Source =
    | Unopenable
    | EmptyFile
    | UnreadableHeader
    | Table(header: seq<string>, rows: seq<RowRead>)

  /** The diagnostics the processing of one file logs. */
  datatype Warning =
    | MissingColumn(name: string)
    | NoMatchingColumns
    | ParseFault(line: nat)

  /** The errors that end the processing of one file. */
  datatype FileError = OpenFailed | HeaderReadFailed

  /** What one file contributes: its records in output order and its diagnostics. */
  datatype FileReport = FileReport(blocks: seq<Block>, warnings: seq<Warning>)

  /** A read attempt survives: it is a record passing the filter. */
  predicate Survives(target: string, row: RowRead) {
    row.Record? && RowPasses(target, row.cells)
  }

  /** The row loop, where `first` is the line number of `rows[0]`: every read
      attempt advances the line number by one; a malformed row logs a parse
      fault and is skipped; a record failing the filter is skipped silently;
      every other record is rendered. Records and faults come out in line
      order, and each names a line of the right kind. */
  function RowLoop(path: string, target: string, targets: seq<TargetColumn>, rows: seq<RowRead>, first: nat)
    : (out: FileReport)
    ensures forall b :: b in out.blocks ==> first <= b.line < first + |rows| && b.path == path
    ensures forall i, j :: 0 <= i < j < |out.blocks| ==> out.blocks[i].line < out.blocks[j].line
    ensures forall w :: w in out.warnings ==> w.ParseFault? && first <= w.line < first + |rows|
    ensures forall i, j :: 0 <= i < j < |out.warnings| ==> out.warnings[i].line < out.warnings[j].line
    decreases |rows|
  {
    if |rows| == 0 then FileReport([], [])
    else
      var rest := RowLoop(path, target, targets, rows[1..], first + 1);
      match rows[0]
      case Malformed =>
        assert forall j :: 0 <= j < |rest.warnings| ==> first < rest.warnings[j].line;
        FileReport(rest.blocks, [ParseFault(first)] + rest.warnings)
      case Record(cells) =>
        if RowPasses(target, cells) then
          var b := RenderRecord(path, first, cells, targets);
          assert b.line == first && b.path == path;
          assert forall j :: 0 <= j < |rest.blocks| ==> first < rest.blocks[j].line;
          FileReport([b] + rest.blocks, rest.warnings)
        else rest
  }

  /** Every record the loop emits is the rendering of a surviving row at its
      own line, and every parse fault names a malformed row. */
  lemma {:induction false} RowLoopSound(path: string, target: string, targets: seq<TargetColumn>, rows: seq<RowRead>, first: nat)
    ensures forall b :: b in RowLoop(path, target, targets, rows, first).blocks ==>
      var row := rows[b.line - first];
      Survives(target, row) && b == RenderRecord(path, b.line, row.cells, targets)
    ensures forall w :: w in RowLoop(path, target, targets, rows, first).warnings ==>
      rows[w.line - first].Malformed?
    decreases |rows|
  {
    if |rows| > 0 {
      RowLoopSound(path, target, targets, rows[1..], first + 1);
      assert forall k :: 1 <= k < |rows| ==> rows[k] == rows[1..][k - 1];
    }
  }

  /** No row is lost: every surviving row is rendered at its line, and every
      malformed row is reported at its line, whatever comes before or after it. */
  lemma {:induction false} RowLoopComplete(path: string, target: string, targets: seq<TargetColumn>, rows: seq<RowRead>, first: nat)
    ensures forall k :: 0 <= k < |rows| && Survives(target, rows[k]) ==>
      RenderRecord(path, first + k, rows[k].cells, targets) in RowLoop(path, target, targets, rows, first).blocks
    ensures forall k :: 0 <= k < |rows| && rows[k].Malformed? ==>
      ParseFault(first + k) in RowLoop(path, target, targets, rows, first).warnings
    decreases |rows|
  {
    if |rows| > 0 {
      RowLoopComplete(path, target, targets, rows[1..], first + 1);
      assert forall k :: 1 <= k < |rows| ==> rows[k] == rows[1..][k - 1];
    }
  }

  /** The diagnostics for the requested columns missing from a header: one
      per missing request, in request order. */
  function MissingWarnings(missing: seq<string>): (ws: seq<Warning>)
    ensures |ws| == |missing|
    ensures forall i :: 0 <= i < |missing| ==> ws[i] == MissingColumn(missing[i])
    ensures forall n :: n in missing ==> MissingColumn(n) in ws
    ensures forall w :: w in ws ==> w.MissingColumn? && w.name in missing
  {
    var ws := seq(|missing|, i requires 0 <= i < |missing| => MissingColumn(missing[i]));
    assert forall i :: 0 <= i < |missing| ==> ws[i] == MissingColumn(missing[i]) && ws[i] in ws;
    ws
  }

  /** The report of a file once its columns are resolved: the missing-column
      warnings come first, in request order; with no target the file is
      skipped with one more warning and no row is read; otherwise the rows
      run through the row loop from line 2. */
  function ReportFor(path: string, target: string, res: Resolution, rows: seq<RowRead>): (report: FileReport)
    ensures |res.missing| <= |report.warnings| && report.warnings[..|res.missing|] == MissingWarnings(res.missing)
    ensures |res.targets| == 0 ==>
      report.blocks == [] && report.warnings == MissingWarnings(res.missing) + [NoMatchingColumns]
    ensures NoMatchingColumns in report.warnings <==> |res.targets| == 0
    ensures forall w :: w in report.warnings && w.MissingColumn? ==> w.name in res.missing
    ensures forall b :: b in report.blocks ==> 2 <= b.line < 2 + |rows| && b.path == path
    ensures forall w :: w in report.warnings && w.ParseFault? ==>
      |res.targets| > 0 && 2 <= w.line < 2 + |rows| && rows[w.line - 2].Malformed?
    ensures |res.targets| > 0 ==>
      forall i :: |res.missing| <= i < |report.warnings| ==> report.warnings[i].ParseFault?
    ensures forall i, j ::
      (|res.missing| <= i < j < |report.warnings| && report.warnings[i].ParseFault? && report.warnings[j].ParseFault?) ==>
      report.warnings[i].line < report.warnings[j].line
  {
    var missing := MissingWarnings(res.missing);
    if |res.targets| == 0 then
      assert (missing + [NoMatchingColumns])[..|missing|] == missing;
      FileReport([], missing + [NoMatchingColumns])
    else
      var loop := RowLoop(path, target, res.targets, rows, 2);
      RowLoopSound(path, target, res.targets, rows, 2);
      assert (missing + loop.warnings)[..|missing|] == missing;
      assert forall i :: |missing| <= i < |missing| + |loop.warnings| ==>
        (missing + loop.warnings)[i] == loop.warnings[i - |missing|];
      FileReport(loop.blocks, missing + loop.warnings)
  }

  /** Processes a file whose header was read: every requested column missing
      from the header is reported once per request, in request order, ahead
      of every other warning; a file where no requested column resolves is
      skipped with a warning and gives no record; otherwise the data rows
      run through the row loop from line 2, and what follows the
      missing-column warnings is only parse faults, in line order. */
  function ProcessTable(path: string, specs: seq<ColumnSpec>, target: string, header: seq<string>, rows: seq<RowRead>)
    : (report: FileReport)
    ensures forall b :: b in report.blocks ==> 2 <= b.line < 2 + |rows| && b.path == path
    ensures var missing := ResolveColumns(specs, header).missing;
            |missing| <= |report.warnings| && report.warnings[..|missing|] == MissingWarnings(missing)
    ensures var res := ResolveColumns(specs, header);
            |res.targets| == 0 ==>
              report.blocks == [] && report.warnings == MissingWarnings(res.missing) + [NoMatchingColumns]
    ensures forall w :: w in report.warnings && w.ParseFault? ==>
      && |ResolveColumns(specs, header).targets| > 0
      && 2 <= w.line < 2 + |rows| && rows[w.line - 2].Malformed?
    ensures var res := ResolveColumns(specs, header);
            |res.targets| > 0 ==>
              forall i :: |res.missing| <= i < |report.warnings| ==> report.warnings[i].ParseFault?
    ensures var res := ResolveColumns(specs, header);
            forall i, j ::
              (|res.missing| <= i < j < |report.warnings| && report.warnings[i].ParseFault? && report.warnings[j].ParseFault?) ==>
              report.warnings[i].line < report.warnings[j].line
  {
    ReportFor(path, target, ResolveColumns(specs, header), rows)
  }

  /** The diagnostics of a file in terms of its header: every requested name
      absent from the header is reported, every missing-column warning names
      a requested column the header lacks, and the no-match warning appears
      exactly when no requested name is a header, and then no record is given. */
  lemma ProcessTableWarnings(path: string, specs: seq<ColumnSpec>, target: string, header: seq<string>, rows: seq<RowRead>)
    ensures (forall s :: s in specs ==> s.name !in header) ==>
      ProcessTable(path, specs, target, header, rows).blocks == []
    ensures NoMatchingColumns in ProcessTable(path, specs, target, header, rows).warnings <==>
      forall s :: s in specs ==> s.name !in header
    ensures forall s :: s in specs && s.name !in header ==>
      MissingColumn(s.name) in ProcessTable(path, specs, target, header, rows).warnings
    ensures forall w :: w in ProcessTable(path, specs, target, header, rows).warnings && w.MissingColumn? ==>
      w.name !in header && exists s :: s in specs && s.name == w.name
  {
    var res := ResolveColumns(specs, header);
    assert ProcessTable(path, specs, target, header, rows) == ReportFor(path, target, res, rows);
    Seqs.SubsequenceMembers(res.missing, NamesOf(specs));
  }

  /** Processes one file. Only an unopenable file or an unreadable header is
      an error, and neither stops the caller; an empty file yields nothing. */
  function ProcessFile(path: string, specs: seq<ColumnSpec>, target: string, src: Source)
    : (r: Result<FileReport, FileError>)
    ensures r.Failure? <==> src.Unopenable? || src.UnreadableHeader?
    ensures src.Unopenable? ==> r == Failure(OpenFailed)
    ensures src.UnreadableHeader? ==> r == Failure(HeaderReadFailed)
    ensures src.EmptyFile? ==> r == Success(FileReport([], []))
    ensures src.Table? ==> r == Success(ProcessTable(path, specs, target, src.header, src.rows))
  {
    match src
    case Unopenable => Failure(OpenFailed)
    case EmptyFile => Success(FileReport([], []))
    case UnreadableHeader => Failure(HeaderReadFailed)
    case Table(header, rows) => Success(ProcessTable(path, specs, target, header, rows))
  }

  /** The records of a file once its columns are resolved are exactly the
      renderings of its surviving rows, in line order, from line 2. */
  lemma ReportForRecords(path: string, target: string, res: Resolution, rows: seq<RowRead>)
    ensures var report := ReportFor(path, target, res, rows);
            && (forall i, j :: 0 <= i < j < |report.blocks| ==> report.blocks[i].line < report.blocks[j].line)
            && (forall b :: b in report.blocks ==>
                  Survives(target, rows[b.line - 2]) && b == RenderRecord(path, b.line, rows[b.line - 2].cells, res.targets))
            && (|res.targets| > 0 ==> forall k :: 0 <= k < |rows| && Survives(target, rows[k]) ==>
                  RenderRecord(path, k + 2, rows[k].cells, res.targets) in report.blocks)
            && (|res.targets| > 0 ==> forall k :: 0 <= k < |rows| && rows[k].Malformed? ==>
                  ParseFault(k + 2) in report.warnings)
  {
    if |res.targets| > 0 {
      var loop := RowLoop(path, target, res.targets, rows, 2);
      assert ReportFor(path, target, res, rows) == FileReport(loop.blocks, MissingWarnings(res.missing) + loop.warnings);
      RowLoopSound(path, target, res.targets, rows, 2);
      RowLoopComplete(path, target, res.targets, rows, 2);
    }
  }

  /** The records of a processed file are exactly the renderings of its
      surviving rows against the file's resolved columns, in line order, with
      the first data row on line 2 and every read attempt counting one line. */
  lemma ProcessFileRecords(path: string, specs: seq<ColumnSpec>, target: string, header: seq<string>, rows: seq<RowRead>)
    ensures var report := ProcessTable(path, specs, target, header, rows);
            var targets := ResolveColumns(specs, header).targets;
            && (forall i, j :: 0 <= i < j < |report.blocks| ==> report.blocks[i].line < report.blocks[j].line)
            && (forall b :: b in report.blocks ==>
                  Survives(target, rows[b.line - 2]) && b == RenderRecord(path, b.line, rows[b.line - 2].cells, targets))
            && (|targets| > 0 ==> forall k :: 0 <= k < |rows| && Survives(target, rows[k]) ==>
                  RenderRecord(path, k + 2, rows[k].cells, targets) in report.blocks)
            && (|targets| > 0 ==> forall k :: 0 <= k < |rows| && rows[k].Malformed? ==>
                  ParseFault(k + 2) in report.warnings)
  {
    var res := ResolveColumns(specs, header);
    assert ProcessTable(path, specs, target, header, rows) == ReportFor(path, target, res, rows);
    ReportForRecords(path, target, res, rows);
  }

  /** The CSV reader rejects a record whose field count differs from the
      header's, so every record it yields is as wide as the header; on such
      a record every resolved column has its cell and none is dropped. */
  lemma HeaderWideRecordShowsEveryColumn(specs: seq<ColumnSpec>, header: seq<string>, cells: seq<string>)
    requires |cells| == |header|
    ensures var targets := ResolveColumns(specs, header).targets;
            |RenderItems(cells, targets)| == |targets|
  {
    RenderItemsFullRow(cells, ResolveColumns(specs, header).targets);
  }

  /** The header `ID,Name,City` resolves the columns `ID,*Name*` to
      positions 0 and 1, and nothing is missing. */
  lemma TokyoExampleColumns()
    ensures ResolveColumns([ColumnSpec("ID", false), ColumnSpec("Name", true)], ["ID", "Name", "City"])
         == Resolution([TargetColumn("ID", 0, false), TargetColumn("Name", 1, true)], [])
  {
    var specs := [ColumnSpec("ID", false), ColumnSpec("Name", true)];
    var header := ["ID", "Name", "City"];
    var index := HeaderIndex(header);
    assert "ID" in index && index["ID"] == 0 by {
      assert header[0] == "ID" && header[1] != "ID" && header[2] != "ID";
    }
    assert "Name" in index && index["Name"] == 1 by {
      assert header[1] == "Name" && header[0] != "Name" && header[2] != "Name";
    }
    assert Resolve(specs[1..], index) == Resolution([TargetColumn("Name", 1, true)], []) by {
      ResolveStep(specs[1..], index);
      assert specs[1..][1..] == [];
    }
    ResolveStep(specs, index);
  }

  /** The search text `Tokyo` keeps the row `1,Tom,Tokyo` and drops `2,Ann,Osaka`. */
  lemma TokyoExampleFilter()
    ensures RowPasses("Tokyo", ["1", "Tom", "Tokyo"])
    ensures !RowPasses("Tokyo", ["2", "Ann", "Osaka"])
  {
    assert ["1", "Tom", "Tokyo"][2] == "Tokyo";
    assert "Tokyo"[..5] == "Tokyo";
    assert Contains(["1", "Tom", "Tokyo"][2], "Tokyo");
    assert "Osaka"[..5][0] != "Tokyo"[0];
    assert "Osaka"[1..] == "saka";
    assert !Contains("2", "Tokyo") && !Contains("Ann", "Tokyo") && !Contains("Osaka", "Tokyo");
  }

  /** Of the two rows only the first is rendered, at line 2. */
  lemma TokyoExampleRows()
    ensures RowLoop("a.csv", "Tokyo", [TargetColumn("ID", 0, false), TargetColumn("Name", 1, true)],
                    [Record(["1", "Tom", "Tokyo"]), Record(["2", "Ann", "Osaka"])], 2)
         == FileReport([Block("a.csv", 2, [DataItem("ID", "1", false), DataItem("Name", "Tom", true)])], [])
  {
    var targets := [TargetColumn("ID", 0, false), TargetColumn("Name", 1, true)];
    var rows := [Record(["1", "Tom", "Tokyo"]), Record(["2", "Ann", "Osaka"])];
    TokyoExampleFilter();
    assert RenderItems(["1", "Tom", "Tokyo"], targets) == [DataItem("ID", "1", false), DataItem("Name", "Tom", true)];
    assert RowLoop("a.csv", "Tokyo", targets, rows[1..], 3) == FileReport([], []);
  }

  /** A worked example: header `ID,Name,City`, rows `1,Tom,Tokyo` and
      `2,Ann,Osaka`, columns `ID,*Name*`, search text `Tokyo`. Only the first
      data row survives; it is reported at line 2 with `ID` plain and `Name`
      emphasised. */
  lemma TokyoExample()
    ensures ProcessFile("a.csv", [ColumnSpec("ID", false), ColumnSpec("Name", true)], "Tokyo",
                        Table(["ID", "Name", "City"], [Record(["1", "Tom", "Tokyo"]), Record(["2", "Ann", "Osaka"])]))
         == Success(FileReport([Block("a.csv", 2, [DataItem("ID", "1", false), DataItem("Name", "Tom", true)])], []))
  {
    var specs := [ColumnSpec("ID", false), ColumnSpec("Name", true)];
    var header := ["ID", "Name", "City"];
    var rows := [Record(["1", "Tom", "Tokyo"]), Record(["2", "Ann", "Osaka"])];
    var block := Block("a.csv", 2, [DataItem("ID", "1", false), DataItem("Name", "Tom", true)]);
    TokyoExampleColumns();
    TokyoExampleRows();
    assert MissingWarnings([]) == [];
    assert ProcessTable("a.csv", specs, "Tokyo", header, rows) == FileReport([block], []);
  }
}
