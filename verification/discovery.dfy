/** The file-name test used when collecting input files: a path is taken as
    CSV input when its lower-cased form ends in `.csv`. */
module Discovery {
  import opened TextOps

  /** Lower-cases the ASCII letters and leaves every other character alone. */
  function ToLowerAscii(s: string): string
  {
    seq(|s|, i requires 0 <= i < |s| => if 'A' <= s[i] <= 'Z' then (s[i] as int + 32) as char else s[i])
  }

  /** The suffix test: exactly the names whose last four characters are a
      dot followed by `c`, `s` and `v` in either case, so `DATA.CSV` and
      `a.Csv` qualify while `csv`, `a.csvx` and `a_csv` do not. */
  function IsCsvName(name: string): (r: bool)
    ensures r <==> |name| >= 4 && name[|name| - 4] == '.'
                   && name[|name| - 3] in "cC" && name[|name| - 2] in "sS" && name[|name| - 1] in "vV"
  {
    var lower := ToLowerAscii(name);
    var r := HasSuffix(lower, ".csv");
    assert r ==> lower[|lower| - 4..] == ".csv" && lower[|lower| - 4] == '.';
    assert r ==> lower[|lower| - 3] == 'c' && lower[|lower| - 2] == 's' && lower[|lower| - 1] == 'v';
    r
  }
}
