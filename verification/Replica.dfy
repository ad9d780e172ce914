/**
 One replica as a value: what Apply does to the list of characters and to the held ops.
 The class in Sequence.dfy, which does it in place, is proved to do exactly this.
 */
module Replica {
  import opened Identifiers
  import opened Operations

  /** One character of the list; a deleted one stays as a tombstone. */
  datatype Cell = Cell(id: ID, value: char, deleted: bool)

  datatype State = State(cells: seq<Cell>, pending: seq<Op>)

  /** What integrating one op comes to. */
  datatype Outcome = Done(changed: bool) | Missing | IllFormed

  /** What Apply reports, beside the state it leaves. */
  datatype Applied = Applied(state: State, changed: bool, ok: bool)

  const EMPTY := State([], [])

  ghost predicate Has(cells: seq<Cell>, x: ID) {
    exists i :: 0 <= i < |cells| && cells[i].id == x
  }

  ghost predicate Distinct(cells: seq<Cell>) {
    forall i, j :: 0 <= i < j < |cells| ==> cells[i].id != cells[j].id
  }

  ghost function IndexOf(cells: seq<Cell>, x: ID): (i: nat)
    requires Has(cells, x)
    ensures i < |cells| && cells[i].id == x
  {
    var i :| 0 <= i < |cells| && cells[i].id == x;
    i
  }

  /** Where the skip loop stops: past every following cell with a greater name. */
  ghost function Slot(cells: seq<Cell>, from: nat, id: ID): (k: nat)
    requires from <= |cells|
    ensures from <= k <= |cells|
    ensures forall j :: from <= j < k ==> Less(id, cells[j].id)
    ensures k < |cells| ==> !Less(id, cells[k].id)
    decreases |cells| - from
  {
    if from < |cells| && Less(id, cells[from].id) then Slot(cells, from + 1, id) else from
  }

  ghost function InsertAt(cells: seq<Cell>, k: nat, c: Cell): seq<Cell>
    requires k <= |cells|
  {
    cells[..k] + [c] + cells[k..]
  }

  /** The cells after inserting op's text, from its j-th character on, at a place; and whether any was new. */
  ghost function InsertText(cells: seq<Cell>, op: Op, j: nat, from: nat): (seq<Cell>, bool)
    requires j <= |op.text| && from <= |cells|
    decreases |op.text| - j
  {
    if j == |op.text| then (cells, false) else
      var id := op.CharId(j);
      if Has(cells, id) then
        InsertText(cells, op, j + 1, IndexOf(cells, id) + 1)
      else
        var k := Slot(cells, from, id);
        (InsertText(InsertAt(cells, k, Cell(id, op.text[j], false)), op, j + 1, k + 1).0, true)
  }

  /** The cells with everything op names turned into tombstones. */
  ghost function Strike(cells: seq<Cell>, op: Op): (r: seq<Cell>)
    ensures |r| == |cells|
    ensures forall i :: 0 <= i < |r| ==>
      r[i] == if op.Deletes(cells[i].id) then cells[i].(deleted := true) else cells[i]
  {
    seq(|cells|, i requires 0 <= i < |cells| =>
      if op.Deletes(cells[i].id) then cells[i].(deleted := true) else cells[i])
  }

  /** op names a character this replica has not seen. */
  ghost predicate Blocked(cells: seq<Cell>, op: Op) {
    if op.text != "" then op.after != ROOT && !Has(cells, op.after)
    else exists x :: op.Deletes(x) && !Has(cells, x)
  }

  ghost function PlaceAfter(cells: seq<Cell>, after: ID): (from: nat)
    requires after == ROOT || Has(cells, after)
    ensures from <= |cells|
  {
    if after == ROOT then 0 else IndexOf(cells, after) + 1
  }

  ghost function Integrate(cells: seq<Cell>, op: Op): (seq<Cell>, Outcome) {
    if Blocked(cells, op) then (cells, Missing)
    else if op.text == "" then
      (Strike(cells, op), Done(exists i :: 0 <= i < |cells| && op.Deletes(cells[i].id) && !cells[i].deleted))
    else if op.id.clock <= op.after.clock then (cells, IllFormed)
    else
      var r := InsertText(cells, op, 0, PlaceAfter(cells, op.after));
      (r.0, Done(r.1))
  }

  /** One pass over the held ops: kept are the ones that still wait. */
  datatype Pass = Pass(cells: seq<Cell>, kept: seq<Op>, progress: bool, changed: bool, ok: bool)

  ghost function Round(p: Pass, waiting: seq<Op>): (r: Pass)
    requires p.ok
    ensures |r.kept| <= |p.kept| + |waiting|
    ensures r.progress && !p.progress ==> |r.kept| < |p.kept| + |waiting|
    decreases |waiting|
  {
    if waiting == [] then p else
      var (cells, outcome) := Integrate(p.cells, waiting[0]);
      match outcome
      case Missing => Round(p.(kept := p.kept + [waiting[0]]), waiting[1..])
      case IllFormed => p.(ok := false)
      case Done(changed) => Round(p.(cells := cells, progress := true, changed := p.changed || changed), waiting[1..])
  }

  /** Passes over the held ops until one makes no progress: each productive pass holds fewer. */
  ghost function Drain(s: State, changed: bool): Applied
    decreases |s.pending|
  {
    if s.pending == [] then Applied(s, changed, true) else
      var r := Round(Pass(s.cells, [], false, changed, true), s.pending);
      var next := State(r.cells, r.kept);
      if r.ok && r.progress then Drain(next, r.changed) else Applied(next, r.changed, r.ok)
  }

  /** Apply an op from any replica: integrate it and what it unblocks, or hold it. */
  ghost function Apply(s: State, op: Op): Applied {
    if !op.Valid() then Applied(s, false, false) else
      var (cells, outcome) := Integrate(s.cells, op);
      match outcome
      case Missing => Applied(s.(pending := s.pending + [op]), false, true)
      case IllFormed => Applied(s, false, false)
      case Done(changed) => Drain(s.(cells := cells), changed)
  }

  /** The state after applying ops one by one. */
  ghost function ApplyAll(s: State, ops: seq<Op>): State
    decreases |ops|
  {
    if ops == [] then s else ApplyAll(Apply(s, ops[0]).state, ops[1..])
  }

  /** The characters not deleted. */
  ghost function Visible(cells: seq<Cell>): seq<Cell> {
    if cells == [] then [] else
      (if cells[0].deleted then [] else [cells[0]]) + Visible(cells[1..])
  }

  /** The document as it reads. */
  ghost function Text(cells: seq<Cell>): (t: string)
    ensures |t| == |Visible(cells)|
  {
    var v := Visible(cells);
    seq(|v|, i requires 0 <= i < |v| => v[i].value)
  }

  /** The highest clock among the cells. */
  ghost function Clock(cells: seq<Cell>): (c: nat)
    ensures forall i :: 0 <= i < |cells| ==> cells[i].id.clock <= c
    ensures c == 0 || exists i :: 0 <= i < |cells| && cells[i].id.clock == c
  {
    if cells == [] then 0 else
      var rest := Clock(cells[1..]);
      assert forall i :: 1 <= i < |cells| ==> cells[i] == cells[1..][i - 1];
      if rest > cells[0].id.clock then rest else cells[0].id.clock
  }
}
