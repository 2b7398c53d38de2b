/** Per-file header resolution: the header row is turned into a name-to-index
    map, and the requested columns are bound to indices of that file. */
module Headers {
  import opened Seqs
  import opened ColumnSpecs

  /** `i` is the position of the last occurrence of `name` in `headers`. */
  predicate IsLastIndex(headers: seq<string>, name: string, i: nat) {
    && i < |headers| && headers[i] == name
    && forall j :: i < j < |headers| ==> headers[j] != name
  }

  /** The header map built by assigning each header its position in turn, so
      that of duplicate names the later position wins. Its keys are exactly
      the header names and each maps to its last occurrence. */
  function HeaderIndex(headers: seq<string>): (index: map<string, nat>)
    ensures forall name :: name in index <==> name in headers
    ensures forall name :: name in index ==> IsLastIndex(headers, name, index[name])
    decreases |headers|
  {
    if |headers| == 0 then map[]
    else
      var prefix := headers[..|headers| - 1];
      var last := |headers| - 1;
      assert forall name :: name in headers <==> name in prefix || name == headers[last];
      HeaderIndex(prefix)[headers[last] := last]
  }

  /** A requested column bound to its index in one file's header row. */
  datatype TargetColumn = TargetColumn(name: string, index: nat, emphasize: bool)

  /** The outcome of resolving the requested columns against one file: the
      columns to print, and the names of the columns that were not found, each
      in the order requested. */
  datatype Resolution = Resolution(targets: seq<TargetColumn>, missing: seq<string>)

  /** The specs a list of target columns was made from. */
  function SpecsOf(targets: seq<TargetColumn>): (specs: seq<ColumnSpec>)
    ensures |specs| == |targets|
    ensures forall i :: 0 <= i < |targets| ==> specs[i] == ColumnSpec(targets[i].name, targets[i].emphasize)
    ensures forall t :: t in targets ==> ColumnSpec(t.name, t.emphasize) in specs
  {
    seq(|targets|, i requires 0 <= i < |targets| => ColumnSpec(targets[i].name, targets[i].emphasize))
  }

  /** The names of a list of specs. */
  function NamesOf(specs: seq<ColumnSpec>): (names: seq<string>)
    ensures |names| == |specs|
    ensures forall i :: 0 <= i < |specs| ==> names[i] == specs[i].name
  {
    seq(|specs|, i requires 0 <= i < |specs| => specs[i].name)
  }

  /** Walks the specs in order, keeping each one whose name is a key of the
      header map, with that key's index and the spec's emphasis, and
      reporting every other one as missing. Every spec ends up on exactly one
      of the two lists, and resolution never fails. */
  function Resolve(specs: seq<ColumnSpec>, index: map<string, nat>): (r: Resolution)
    ensures |r.targets| + |r.missing| == |specs|
    ensures forall t :: t in r.targets ==> t.name in index && t.index == index[t.name]
    ensures forall n :: n in r.missing ==> n !in index
    decreases |specs|
  {
    if |specs| == 0 then Resolution([], [])
    else
      var spec := specs[0];
      var rest := Resolve(specs[1..], index);
      if spec.name in index then
        Resolution([TargetColumn(spec.name, index[spec.name], spec.emphasize)] + rest.targets, rest.missing)
      else
        Resolution(rest.targets, [spec.name] + rest.missing)
  }

  /** The specs of a target list that starts with `t`. */
  lemma SpecsOfCons(t: TargetColumn, ts: seq<TargetColumn>)
    ensures SpecsOf([t] + ts) == [ColumnSpec(t.name, t.emphasize)] + SpecsOf(ts)
  {
  }

  /** The names of a non-empty spec list. */
  lemma NamesOfCons(specs: seq<ColumnSpec>)
    requires |specs| > 0
    ensures NamesOf(specs) == [specs[0].name] + NamesOf(specs[1..])
  {
  }

  /** One step of resolution: the first spec goes on the front of one of the
      two lists resolved from the others. */
  lemma ResolveStep(specs: seq<ColumnSpec>, index: map<string, nat>)
    requires |specs| > 0
    ensures specs[0].name in index ==> Resolve(specs, index) == Resolution(
      [TargetColumn(specs[0].name, index[specs[0].name], specs[0].emphasize)] + Resolve(specs[1..], index).targets,
      Resolve(specs[1..], index).missing)
    ensures specs[0].name !in index ==> Resolve(specs, index) == Resolution(
      Resolve(specs[1..], index).targets,
      [specs[0].name] + Resolve(specs[1..], index).missing)
  {
  }

  /** Resolution keeps the requested order of the targets. Together with the
      contract of `Resolve` and `ResolveTargetsComplete` this pins the targets
      down to exactly the specs whose name is in the map. */
  lemma {:induction false} ResolveKeepsTargetOrder(specs: seq<ColumnSpec>, index: map<string, nat>)
    ensures SubsequenceOf(SpecsOf(Resolve(specs, index).targets), specs)
    decreases |specs|
  {
    if |specs| > 0 {
      var spec := specs[0];
      var rest := Resolve(specs[1..], index).targets;
      ResolveKeepsTargetOrder(specs[1..], index);
      ResolveStep(specs, index);
      assert specs == [spec] + specs[1..];
      if spec.name in index {
        var t := TargetColumn(spec.name, index[spec.name], spec.emphasize);
        SpecsOfCons(t, rest);
        SubsequenceCons(SpecsOf(rest), spec, specs[1..]);
      } else {
        assert SpecsOf(rest) == [] || SpecsOf(rest)[0] != spec;
        SubsequenceSkip(SpecsOf(rest), spec, specs[1..]);
      }
    }
  }

  /** Resolution keeps the requested order of the missing names. */
  lemma {:induction false} ResolveKeepsMissingOrder(specs: seq<ColumnSpec>, index: map<string, nat>)
    ensures SubsequenceOf(Resolve(specs, index).missing, NamesOf(specs))
    decreases |specs|
  {
    if |specs| > 0 {
      var spec := specs[0];
      var rest := Resolve(specs[1..], index).missing;
      ResolveKeepsMissingOrder(specs[1..], index);
      ResolveStep(specs, index);
      NamesOfCons(specs);
      if spec.name in index {
        assert rest == [] || rest[0] != spec.name;
        SubsequenceSkip(rest, spec.name, NamesOf(specs[1..]));
      } else {
        SubsequenceCons(rest, spec.name, NamesOf(specs[1..]));
      }
    }
  }

  /** Every spec whose name is in the map becomes a target. */
  lemma {:induction false} ResolveTargetsComplete(specs: seq<ColumnSpec>, index: map<string, nat>)
    ensures forall s :: s in specs && s.name in index ==> s in SpecsOf(Resolve(specs, index).targets)
    decreases |specs|
  {
    if |specs| > 0 {
      var spec := specs[0];
      var rest := Resolve(specs[1..], index).targets;
      ResolveTargetsComplete(specs[1..], index);
      ResolveStep(specs, index);
      assert forall s :: s in specs ==> s == spec || s in specs[1..];
      if spec.name in index {
        SpecsOfCons(TargetColumn(spec.name, index[spec.name], spec.emphasize), rest);
      }
    }
  }

  /** Every spec whose name is not in the map is reported missing. */
  lemma {:induction false} ResolveMissingComplete(specs: seq<ColumnSpec>, index: map<string, nat>)
    ensures forall s :: s in specs && s.name !in index ==> s.name in Resolve(specs, index).missing
    decreases |specs|
  {
    if |specs| > 0 {
      ResolveMissingComplete(specs[1..], index);
      ResolveStep(specs, index);
      assert forall s :: s in specs ==> s == specs[0] || s in specs[1..];
    }
  }

  /** Header resolution for one file. Each target is a requested spec, with
      the same name and emphasis, bound to the last header position holding
      that name; the targets are exactly the specs whose name is a header, in
      the requested order; the missing names are exactly the names of the
      other specs, in order; and there is no target at all exactly when no
      requested name is a header, which is when the file is skipped. */
  function ResolveColumns(specs: seq<ColumnSpec>, headers: seq<string>): (r: Resolution)
    ensures |r.targets| + |r.missing| == |specs|
    ensures forall t :: t in r.targets ==> IsLastIndex(headers, t.name, t.index)
    ensures forall t :: t in r.targets ==> ColumnSpec(t.name, t.emphasize) in specs
    ensures SubsequenceOf(SpecsOf(r.targets), specs)
    ensures forall s :: s in specs && s.name in headers ==> s in SpecsOf(r.targets)
    ensures forall n :: n in r.missing ==> n !in headers
    ensures SubsequenceOf(r.missing, NamesOf(specs))
    ensures forall s :: s in specs && s.name !in headers ==> s.name in r.missing
    ensures |r.targets| == 0 <==> forall s :: s in specs ==> s.name !in headers
  {
    var index := HeaderIndex(headers);
    var r := Resolve(specs, index);
    ResolveKeepsTargetOrder(specs, index);
    ResolveKeepsMissingOrder(specs, index);
    ResolveTargetsComplete(specs, index);
    ResolveMissingComplete(specs, index);
    SubsequenceMembers(SpecsOf(r.targets), specs);
    r
  }
}
