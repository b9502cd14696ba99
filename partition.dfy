/**
 * `prepare_output_dfs`: the valid and invalid tables are rebuilt from the
 * untouched loaded table. Valid rows are the loaded rows whose label is safe
 * or survived the rules; invalid rows are the others that have a name, with
 * the name reversed. Without `detailed`, both keep only `id` and `name`.
 */
module Partition {
  import opened Tables
  import opened Text
  import opened Orders

  /** One output row: the whole loaded row, or just its `id` and `name`. */
  datatype OutRow =
    | Detailed(index: nat, order: RawOrder)
    | Brief(index: nat, id: Cell<string>, name: Cell<string>)

  function NameOf(o: OutRow): Cell<string>
  {
    match o
    case Detailed(_, r) => r.name
    case Brief(_, _, n) => n
  }

  function IdOf(o: OutRow): Cell<string>
  {
    match o
    case Detailed(_, r) => r.id
    case Brief(_, i, _) => i
  }

  function OutLabels(s: seq<OutRow>): (r: set<nat>)
    ensures forall l :: l in r <==> exists o :: o in s && o.index == l
  {
    set o | o in s :: o.index
  }

  /** `safe_index | df.index`: the labels of the valid rows. */
  function ValidLabels(safe: seq<nat>, kept: seq<Row>): (r: set<nat>)
    ensures forall l :: l in r <==> l in safe || l in LabelSet(kept)
  {
    (set l | l in safe) + LabelSet(kept)
  }

  /** `orig_df.reindex(valid labels)`: the loaded rows with a valid label, in loaded order. */
  function ValidRows(orig: seq<RawOrder>, valid: set<nat>): (r: seq<RawRow>)
    ensures Increasing(r)
    ensures forall x :: x in r <==> x.index < |orig| && orig[x.index] == x.rec && x.index in valid
  {
    LabelRowsMemberAll(orig);
    Filter(LabelRows(orig), (x: RawRow) => x.index in valid)
  }

  /** The loaded rows that are not valid and have a name, in loaded order. */
  function RejectedRows(orig: seq<RawOrder>, valid: set<nat>): (r: seq<RawRow>)
    ensures Increasing(r)
    ensures forall x :: x in r <==>
      x.index < |orig| && orig[x.index] == x.rec && x.index !in valid && x.rec.name.Val?
  {
    LabelRowsMemberAll(orig);
    Filter(LabelRows(orig), (x: RawRow) => x.index !in valid && x.rec.name.Val?)
  }

  /** `n[::-1]` on the name of one row: reversing it back restores the name, and no other column changes. */
  function WithReversedName(r: RawOrder): (w: RawOrder)
    requires r.name.Val?
    ensures w.name.Val? && |w.name.value| == |r.name.value| && Reverse(w.name.value) == r.name.value
    ensures w.(name := r.name) == r
  {
    ReverseReverse(r.name.value);
    r.(name := Val(Reverse(r.name.value)))
  }

  /** `name.apply(lambda n: n[::-1])` on a table whose names are all present. */
  function ReverseNames(s: seq<RawRow>): (r: seq<RawRow>)
    requires forall x :: x in s ==> x.rec.name.Val?
    ensures |r| == |s|
    ensures forall i :: 0 <= i < |s| ==> r[i] == Labelled(s[i].index, WithReversedName(s[i].rec))
    decreases |s|
  {
    if s == [] then [] else [Labelled(s[0].index, WithReversedName(s[0].rec))] + ReverseNames(s[1..])
  }

  /**
   * The invalid table: every loaded row that is not valid and has a name,
   * in loaded order, with its name reversed and every other column as loaded.
   */
  function InvalidRows(orig: seq<RawOrder>, valid: set<nat>): (r: seq<RawRow>)
    ensures Increasing(r)
    ensures forall x :: x in r <==>
      x.index < |orig| && x.index !in valid && orig[x.index].name.Val? && x.rec == WithReversedName(orig[x.index])
  {
    var s := RejectedRows(orig, valid);
    var r := ReverseNames(s);
    forall x ensures x in r <==>
      x.index < |orig| && x.index !in valid && orig[x.index].name.Val? && x.rec == WithReversedName(orig[x.index])
    {
      if x in r {
        var i :| 0 <= i < |r| && r[i] == x;
        assert s[i] in s;
      }
      if x.index < |orig| && x.index !in valid && orig[x.index].name.Val? && x.rec == WithReversedName(orig[x.index]) {
        var y := Labelled(x.index, orig[x.index]);
        assert y in s;
        var i :| 0 <= i < |s| && s[i] == y;
        assert r[i] == x;
      }
    }
    assert forall i, j :: 0 <= i < j < |r| ==> r[i].index < r[j].index;
    r
  }

  /**
   * `df[['id', 'name']]` unless `detailed`: every row keeps its place, its
   * label, its `id` and its `name`; the other columns stay only when detailed.
   */
  function Project(rows: seq<RawRow>, detailed: bool): (r: seq<OutRow>)
    ensures |r| == |rows|
    ensures forall i :: 0 <= i < |rows| ==>
      && r[i].index == rows[i].index && IdOf(r[i]) == rows[i].rec.id && NameOf(r[i]) == rows[i].rec.name
      && (r[i].Detailed? <==> detailed) && (detailed ==> r[i].order == rows[i].rec)
    decreases |rows|
  {
    if rows == [] then []
    else
      [if detailed then Detailed(rows[0].index, rows[0].rec) else Brief(rows[0].index, rows[0].rec.id, rows[0].rec.name)]
      + Project(rows[1..], detailed)
  }

  /** The two output tables. */
  datatype Outputs = Outputs(valid: seq<OutRow>, invalid: seq<OutRow>)

  /** The two outputs of `prepare_output_dfs`: together they hold at most one row per loaded row. */
  function Partitioned(orig: seq<RawOrder>, valid: set<nat>, detailed: bool): (r: Outputs)
    ensures |r.valid| + |r.invalid| <= |orig|
  {
    var vr := ValidRows(orig, valid);
    var rejected := (x: RawRow) => x.index !in valid && x.rec.name.Val?;
    FilterDisjointSize(LabelRows(orig), (x: RawRow) => x.index in valid, rejected);
    Outputs(Project(vr, detailed), Project(InvalidRows(orig, valid), detailed))
  }

  /** Projecting keeps the labels. */
  lemma ProjectLabels(rows: seq<RawRow>, detailed: bool)
    ensures OutLabels(Project(rows, detailed)) == LabelSet(rows)
  {
    var r := Project(rows, detailed);
    forall l ensures l in OutLabels(r) <==> l in LabelSet(rows) {
      if l in OutLabels(r) {
        var o :| o in r && o.index == l;
        var i :| 0 <= i < |r| && r[i] == o;
        assert rows[i] in rows;
      }
      if l in LabelSet(rows) {
        var x :| x in rows && x.index == l;
        var i :| 0 <= i < |rows| && rows[i] == x;
        assert r[i] in r;
      }
    }
  }

  /** A loaded row is in the valid output exactly when its label is valid. */
  lemma ValidOutputLabels(orig: seq<RawOrder>, valid: set<nat>, detailed: bool)
    ensures forall l: nat :: l in OutLabels(Partitioned(orig, valid, detailed).valid) <==> l < |orig| && l in valid
  {
    var vr := ValidRows(orig, valid);
    ProjectLabels(vr, detailed);
    forall l: nat | l < |orig| && l in valid ensures l in LabelSet(vr) {
      assert Labelled(l, orig[l]) in vr;
    }
  }

  /** A loaded row is in the invalid output exactly when its label is not valid and it has a name. */
  lemma InvalidOutputLabels(orig: seq<RawOrder>, valid: set<nat>, detailed: bool)
    ensures forall l: nat :: l in OutLabels(Partitioned(orig, valid, detailed).invalid) <==>
      l < |orig| && l !in valid && orig[l].name.Val?
  {
    var ir := InvalidRows(orig, valid);
    ProjectLabels(ir, detailed);
    forall l: nat | l < |orig| && l !in valid && orig[l].name.Val? ensures l in LabelSet(ir) {
      assert Labelled(l, WithReversedName(orig[l])) in ir;
    }
  }

  /**
   * The partition of the loaded table: the outputs are disjoint, every named
   * loaded row lands in exactly one of them, a row without a name that is not
   * valid lands in neither, and no output row is foreign to the loaded table.
   */
  lemma PartitionComplete(orig: seq<RawOrder>, valid: set<nat>, detailed: bool)
    ensures OutLabels(Partitioned(orig, valid, detailed).valid) !! OutLabels(Partitioned(orig, valid, detailed).invalid)
    ensures forall l: nat :: l < |orig| && orig[l].name.Val? ==>
      (l in OutLabels(Partitioned(orig, valid, detailed).valid) <==>
       l !in OutLabels(Partitioned(orig, valid, detailed).invalid))
    ensures forall l: nat :: l < |orig| && orig[l].name.Null? && l !in valid ==>
      l !in OutLabels(Partitioned(orig, valid, detailed).valid) + OutLabels(Partitioned(orig, valid, detailed).invalid)
    ensures forall l :: l in OutLabels(Partitioned(orig, valid, detailed).valid) + OutLabels(Partitioned(orig, valid, detailed).invalid) ==>
      l < |orig|
  {
    ValidOutputLabels(orig, valid, detailed);
    InvalidOutputLabels(orig, valid, detailed);
  }

  /** Valid output rows carry the loaded `id` and `name` unchanged; with `detailed`, the whole loaded row. */
  lemma ValidOutputContents(orig: seq<RawOrder>, valid: set<nat>, detailed: bool)
    ensures forall o :: o in Partitioned(orig, valid, detailed).valid ==>
      o.index < |orig| && IdOf(o) == orig[o.index].id && NameOf(o) == orig[o.index].name &&
      (o.Detailed? <==> detailed) && (detailed ==> o == Detailed(o.index, orig[o.index]))
  {
    var vr := ValidRows(orig, valid);
    var out := Project(vr, detailed);
    assert Partitioned(orig, valid, detailed).valid == out;
    forall o | o in out
      ensures o.index < |orig| && IdOf(o) == orig[o.index].id && NameOf(o) == orig[o.index].name &&
        (o.Detailed? <==> detailed) && (detailed ==> o == Detailed(o.index, orig[o.index]))
    {
      var i :| 0 <= i < |out| && out[i] == o;
      assert vr[i] in vr;
    }
  }

  /**
   * Invalid output rows carry the loaded `id` and the loaded name reversed,
   * so reversing once more restores it; with `detailed`, every other column
   * is as loaded.
   */
  lemma InvalidOutputContents(orig: seq<RawOrder>, valid: set<nat>, detailed: bool)
    ensures forall o :: o in Partitioned(orig, valid, detailed).invalid ==>
      o.index < |orig| && orig[o.index].name.Val? && IdOf(o) == orig[o.index].id &&
      NameOf(o) == Val(Reverse(orig[o.index].name.value)) &&
      Reverse(NameOf(o).value) == orig[o.index].name.value &&
      (o.Detailed? <==> detailed) &&
      (detailed ==> o == Detailed(o.index, orig[o.index].(name := NameOf(o))))
  {
    var ir := InvalidRows(orig, valid);
    var out := Project(ir, detailed);
    assert Partitioned(orig, valid, detailed).invalid == out;
    forall o | o in out
      ensures o.index < |orig| && orig[o.index].name.Val? && IdOf(o) == orig[o.index].id &&
        NameOf(o) == Val(Reverse(orig[o.index].name.value)) &&
        Reverse(NameOf(o).value) == orig[o.index].name.value &&
        (o.Detailed? <==> detailed) &&
        (detailed ==> o == Detailed(o.index, orig[o.index].(name := NameOf(o))))
    {
      var i :| 0 <= i < |out| && out[i] == o;
      assert ir[i] in ir;
      ReverseReverse(orig[o.index].name.value);
    }
  }
}
