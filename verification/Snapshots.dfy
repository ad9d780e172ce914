/**
 The document as stored, and the replica read back from it. A stored tombstone has lost its
 text, and parents are not stored at all; nothing a replica does later depends on either.
 */
module Snapshots {
  import opened Identifiers
  import opened Operations
  import opened Replica

  /** Consecutive characters of one writer: their text, or how many were deleted. */
  datatype Run = Run(replica: string, clock: nat, text: string, deleted: int) {
    function Count(): int {
      if text != "" then |text| else deleted
    }

    predicate Valid() {
      && (text != "" ==> deleted == 0)
      && ValidReplica(replica) && clock != 0 && Count() > 0 && clock + Count() - 1 <= MAX_CLOCK
    }

    ghost function Expand(): seq<Cell> {
      seq(if Count() < 0 then 0 else Count(), k requires 0 <= k < Count() =>
        Cell(ID(replica, clock + k), if text == "" then '\0' else text[k], text == ""))
    }
  }

  ghost function ExpandAll(runs: seq<Run>): seq<Cell> {
    if runs == [] then [] else ExpandAll(runs[..|runs| - 1]) + runs[|runs| - 1].Expand()
  }

  /** A snapshot some document holds: whole runs, no character twice. */
  ghost predicate Loadable(runs: seq<Run>) {
    (forall i :: 0 <= i < |runs| ==> runs[i].Valid()) && Distinct(ExpandAll(runs))
  }

  /** c goes on where b ended: same writer, next clock, both read or both deleted. */
  ghost predicate Continues(b: Cell, c: Cell) {
    b.id.replica == c.id.replica && b.id.clock + 1 == c.id.clock && b.deleted == c.deleted
  }

  ghost function RunOf(c: Cell): Run {
    if c.deleted then Run(c.id.replica, c.id.clock, "", 1) else Run(c.id.replica, c.id.clock, [c.value], 0)
  }

  ghost function Extend(r: Run, c: Cell): Run {
    if c.deleted then r.(deleted := r.deleted + 1) else r.(text := r.text + [c.value])
  }

  /** The stored form: a run for each stretch of characters that go on from one another. */
  ghost function Runs(cells: seq<Cell>): (r: seq<Run>)
    ensures r == [] <==> cells == []
  {
    if cells == [] then [] else
      var last, before := |cells| - 1, Runs(cells[..|cells| - 1]);
      if last > 0 && Continues(cells[last - 1], cells[last])
        then before[|before| - 1 := Extend(before[|before| - 1], cells[last])]
        else before + [RunOf(cells[last])]
  }

  /** Two lists no reader and no later edit can tell apart. */
  ghost predicate Alike(a: seq<Cell>, b: seq<Cell>) {
    && |a| == |b|
    && forall i {:trigger a[i]} {:trigger b[i]} :: 0 <= i < |a| ==>
         && a[i].id == b[i].id && a[i].deleted == b[i].deleted
         && (!a[i].deleted ==> a[i].value == b[i].value)
  }

  /** What can be stored and loaded: valid names, each once. */
  ghost predicate Storable(cells: seq<Cell>) {
    Distinct(cells) && forall i :: 0 <= i < |cells| ==> ValidName(cells[i].id)
  }

  ghost predicate ValidName(x: ID) {
    ValidReplica(x.replica) && 1 <= x.clock <= MAX_CLOCK
  }

  /** A run names at least one character, and holds visible ones or deleted ones. */
  ghost predicate OneKind(run: Run) {
    run.Count() > 0 && (run.text == "" || run.deleted == 0)
  }

  ghost predicate Named(cells: seq<Cell>) {
    forall i :: 0 <= i < |cells| ==> ValidName(cells[i].id)
  }

  /** What loads is runs of one kind each, of valid names, none twice. */
  lemma LoadableIs(runs: seq<Run>)
    ensures Loadable(runs) <==> Storable(ExpandAll(runs)) && forall i :: 0 <= i < |runs| ==> OneKind(runs[i])
  {
    if forall i :: 0 <= i < |runs| ==> OneKind(runs[i]) { RunsAreNamed(runs); }
    forall i | 0 <= i < |runs| ensures runs[i].Valid() ==> OneKind(runs[i]) {}
    hide ExpandAll;
    hide Distinct;
    hide ValidName;
    hide OneKind;
    hide Run.Valid;
  }

  lemma RunIsNamed(run: Run)
    requires OneKind(run)
    ensures run.Valid() <==> Named(run.Expand())
  {
    var cells := run.Expand();
    hide ValidReplica;
    assert cells[0].id == ID(run.replica, run.clock) && cells[|cells| - 1].id == ID(run.replica, run.clock + run.Count() - 1);
    if Named(cells) { assert ValidName(cells[0].id) && ValidName(cells[|cells| - 1].id); }
  }

  lemma {:induction false} RunsAreNamed(runs: seq<Run>)
    requires forall i :: 0 <= i < |runs| ==> OneKind(runs[i])
    ensures (forall i :: 0 <= i < |runs| ==> runs[i].Valid()) <==> Named(ExpandAll(runs))
  {
    hide OneKind;
    hide Named;
    hide Run.Valid;
    hide Run.Expand;
    if runs == [] {
      NothingNamed();
    } else {
      var front, last := runs[..|runs| - 1], runs[|runs| - 1];
      RunsAreNamed(front);
      RunIsNamed(last);
      NamedJoin(ExpandAll(front), last.Expand());
      assert forall i :: 0 <= i < |front| ==> front[i] == runs[i];
    }
  }

  lemma NothingNamed()
    ensures Named([])
  {}

  lemma NamedJoin(a: seq<Cell>, b: seq<Cell>)
    ensures Named(a + b) <==> Named(a) && Named(b)
  {
    if Named(a + b) {
      forall i | 0 <= i < |a| ensures ValidName(a[i].id) { assert (a + b)[i] == a[i]; }
      forall i | 0 <= i < |b| ensures ValidName(b[i].id) { assert (a + b)[|a| + i] == b[i]; }
    }
  }

  // ----- storing -----

  /** The last run of the stored form ends with the last character and is of its kind. */
  ghost predicate EndsWith(r: Run, c: Cell) {
    && r.replica == c.id.replica && r.Count() > 0 && r.clock + r.Count() - 1 == c.id.clock
    && (if c.deleted then r.text == "" else r.text != "" && r.deleted == 0)
  }

  lemma ExtendExpands(r: Run, b: Cell, c: Cell)
    requires EndsWith(r, b) && Continues(b, c)
    ensures EndsWith(Extend(r, c), c)
    ensures |Extend(r, c).Expand()| == |r.Expand()| + 1
    ensures Extend(r, c).Expand()[..|r.Expand()|] == r.Expand()
    ensures Alike([Extend(r, c).Expand()[|r.Expand()|]], [c])
  {
  }

  lemma AlikeJoin(a: seq<Cell>, b: seq<Cell>, x: seq<Cell>, y: seq<Cell>)
    requires Alike(a, b) && Alike(x, y)
    ensures Alike(a + x, b + y)
  {
    forall i | 0 <= i < |a + x|
      ensures (a + x)[i].id == (b + y)[i].id && (a + x)[i].deleted == (b + y)[i].deleted
      ensures !(a + x)[i].deleted ==> (a + x)[i].value == (b + y)[i].value
    {
      if i < |a| { assert a[i].id == b[i].id; } else { assert x[i - |a|].id == y[i - |a|].id; }
    }
  }

  /** Reading the stored form back gives every character its place, name and state, and visible text. */
  lemma {:induction false} SnapshotExpands(cells: seq<Cell>)
    ensures Alike(ExpandAll(Runs(cells)), cells)
    ensures cells != [] ==> EndsWith(Runs(cells)[|Runs(cells)| - 1], cells[|cells| - 1])
  {
    hide Alike;
    hide Extend;
    hide Continues;
    if cells != [] {
      var last := |cells| - 1;
      var c, front := cells[last], cells[..last];
      assert cells == front + [c];
      var before, runs := Runs(front), Runs(cells);
      SnapshotExpands(front);
      if last > 0 && Continues(cells[last - 1], c) {
        var r := before[|before| - 1];
        ExtendExpands(r, cells[last - 1], c);
        var tail := Extend(r, c).Expand()[|r.Expand()|];
        assert Extend(r, c).Expand() == r.Expand() + [tail];
        LastExpands(before, Extend(r, c), tail);
        AlikeJoin(ExpandAll(before), front, [tail], [c]);
      } else {
        assert runs[..|before|] == before;
        OneExpands(c);
        AlikeJoin(ExpandAll(before), front, RunOf(c).Expand(), [c]);
      }
    } else {
      NothingAlike();
    }
    hide RunOf;
    hide EndsWith;
  }

  lemma NothingAlike()
    ensures Alike(ExpandAll([]), [])
  {}

  lemma OneExpands(c: Cell)
    ensures Alike(RunOf(c).Expand(), [c]) && EndsWith(RunOf(c), c)
  {}

  /** A last run one character longer makes the whole one character longer. */
  lemma LastExpands(before: seq<Run>, longer: Run, tail: Cell)
    requires before != [] && longer.Expand() == before[|before| - 1].Expand() + [tail]
    ensures ExpandAll(before[|before| - 1 := longer]) == ExpandAll(before) + [tail]
  {
    assert before[|before| - 1 := longer][..|before| - 1] == before[..|before| - 1];
  }

  /** b goes on from a: the two could be one run. */
  ghost predicate Joinable(a: Run, b: Run) {
    a.replica == b.replica && a.clock + a.Count() == b.clock && (a.text == "") == (b.text == "")
  }

  lemma ExtendKeepsStart(a: Run, r: Run, b: Cell, c: Cell)
    requires EndsWith(r, b) && Continues(b, c)
    ensures Joinable(a, Extend(r, c)) <==> Joinable(a, r)
  {
  }

  lemma NewRunIsApart(r: Run, b: Cell, c: Cell)
    requires EndsWith(r, b) && !Continues(b, c)
    ensures !Joinable(r, RunOf(c))
  {
  }

  /** The stored form is as short as it can be: no run could have been joined to the one before. */
  lemma {:induction false} SnapshotIsMaximal(cells: seq<Cell>, i: nat)
    requires i + 1 < |Runs(cells)|
    ensures !Joinable(Runs(cells)[i], Runs(cells)[i + 1])
  {
    hide ExpandAll;
    hide Alike;
    hide Joinable;
    hide Extend;
    hide Continues;
    hide EndsWith;
    hide RunOf;
    var last := |cells| - 1;
    var before := Runs(cells[..last]);
    SnapshotExpands(cells[..last]);
    if i + 1 < |before| { SnapshotIsMaximal(cells[..last], i); }
    if Continues(cells[last - 1], cells[last]) {
      ExtendKeepsStart(Runs(cells)[i], before[|before| - 1], cells[last - 1], cells[last]);
    } else {
      NewRunIsApart(before[|before| - 1], cells[last - 1], cells[last]);
    }
  }
}
