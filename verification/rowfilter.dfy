/** The `-target` row filter: a row is kept when one of its cells contains
    the search text, or when no search text was given. */
module RowFilter {
  import opened TextOps

  /** The filter decision: an empty target keeps every row; otherwise some
      cell must contain the target (Go's `strings.Contains`). */
  predicate RowPasses(target: string, record: seq<string>)
    ensures RowPasses(target, record) <==>
      target == "" || exists i :: 0 <= i < |record| && IsSubstring(target, record[i])
  {
    target == "" || exists i :: 0 <= i < |record| && Contains(record[i], target)
  }

  /** The decision as the row loop takes it: return early on an empty target,
      else scan the cells in order and stop at the first one containing the
      target. The row passes exactly when the target is empty or occurs as a
      literal, case-sensitive substring of one of the cells. */
  method RowMatches(target: string, record: seq<string>) returns (pass: bool)
    ensures pass <==> RowPasses(target, record)
    ensures pass <==> target == "" || exists i :: 0 <= i < |record| && IsSubstring(target, record[i])
  {
    if target == "" {
      return true;
    }
    var found := false;
    var i := 0;
    while i < |record|
      invariant 0 <= i <= |record|
      invariant !found
      invariant forall k :: 0 <= k < i ==> !Contains(record[k], target)
    {
      if Contains(record[i], target) {
        found := true;
        break;
      }
      i := i + 1;
    }
    return found;
  }
}
