/** Apply reports whether the document changed: exactly when the list of characters differs. */
module Changes {
  import opened Identifiers
  import opened Operations
  import opened Replica
  import LocalEdits

  /** Grows with every character added and every character deleted, and with nothing else. */
  ghost function Weight(cells: seq<Cell>): int {
    2 * |cells| - |Visible(cells)|
  }

  lemma InsertAtWeighs(cells: seq<Cell>, k: nat, c: Cell)
    requires k <= |cells| && !c.deleted
    ensures Weight(InsertAt(cells, k, c)) == Weight(cells) + 1
  {
    assert cells == cells[..k] + cells[k..];
    LocalEdits.VisibleJoin(cells[..k], cells[k..]);
    LocalEdits.VisibleJoin(cells[..k], [c]);
    LocalEdits.VisibleJoin(cells[..k] + [c], cells[k..]);
  }

  lemma {:induction false} InsertTextReports(cells: seq<Cell>, op: Op, j: nat, from: nat)
    requires j <= |op.text| && from <= |cells|
    ensures var (r, changed) := InsertText(cells, op, j, from);
            if changed then Weight(r) > Weight(cells) else r == cells
    decreases |op.text| - j
  {
    hide Visible;
    if j < |op.text| {
      var id := op.CharId(j);
      if Has(cells, id) {
        InsertTextReports(cells, op, j + 1, IndexOf(cells, id) + 1);
      } else {
        var k, c := Slot(cells, from, id), Cell(id, op.text[j], false);
        InsertAtWeighs(cells, k, c);
        InsertTextReports(InsertAt(cells, k, c), op, j + 1, k + 1);
      }
    }
  }

  lemma {:induction false} StrikeReports(cells: seq<Cell>, op: Op)
    ensures if exists i :: 0 <= i < |cells| && op.Deletes(cells[i].id) && !cells[i].deleted
            then Weight(Strike(cells, op)) > Weight(cells) else Strike(cells, op) == cells
    ensures |Visible(Strike(cells, op))| <= |Visible(cells)|
  {
    hide Operations.Op.Deletes;
    if cells != [] {
      var rest := cells[1..];
      StrikeReports(rest, op);
      assert Strike(cells, op)[1..] == Strike(rest, op);
      if i :| 0 <= i < |rest| && op.Deletes(rest[i].id) && !rest[i].deleted {
        assert cells[i + 1] == rest[i];
      } else {
        assert forall i :: 1 <= i < |cells| ==> cells[i] == rest[i - 1];
      }
    }
  }

  /** Whether an op changes the cells is what it reports, and a change adds or deletes something. */
  lemma IntegrateReports(cells: seq<Cell>, op: Op)
    ensures var (r, outcome) := Integrate(cells, op);
            if outcome == Done(true) then Weight(r) > Weight(cells) else r == cells
  {
    hide Visible;
    if !Blocked(cells, op) {
      if op.text == "" {
        StrikeReports(cells, op);
      } else if op.id.clock > op.after.clock {
        InsertTextReports(cells, op, 0, PlaceAfter(cells, op.after));
      }
    }
  }

  /** changed is set exactly when it was or the cells have gained weight; otherwise they are what they were. */
  ghost predicate Reports(before: seq<Cell>, was: bool, after: seq<Cell>, changed: bool) {
    && Weight(after) >= Weight(before)
    && (changed <==> was || Weight(after) > Weight(before))
    && (Weight(after) == Weight(before) ==> after == before)
  }

  lemma {:induction false} RoundReports(p: Pass, waiting: seq<Op>)
    requires p.ok
    ensures Reports(p.cells, p.changed, Round(p, waiting).cells, Round(p, waiting).changed)
    decreases |waiting|
  {
    hide Visible;
    if waiting != [] {
      IntegrateReports(p.cells, waiting[0]);
      var (cells, outcome) := Integrate(p.cells, waiting[0]);
      match outcome
      case Missing => RoundReports(p.(kept := p.kept + [waiting[0]]), waiting[1..]);
      case IllFormed =>
      case Done(c) => RoundReports(p.(cells := cells, progress := true, changed := p.changed || c), waiting[1..]);
    }
  }

  lemma {:induction false} DrainReports(s: State, changed: bool)
    ensures Reports(s.cells, changed, Drain(s, changed).state.cells, Drain(s, changed).changed)
    decreases |s.pending|
  {
    hide Visible;
    if s.pending != [] {
      var p := Pass(s.cells, [], false, changed, true);
      RoundReports(p, s.pending);
      var r := Round(p, s.pending);
      if r.ok && r.progress { DrainReports(State(r.cells, r.kept), r.changed); }
    }
  }

  /** Apply reports a change exactly when the list of characters is not what it was. */
  lemma ApplyReports(s: State, op: Op)
    ensures Apply(s, op).changed <==> Apply(s, op).state.cells != s.cells
  {
    hide Visible;
    if op.Valid() {
      IntegrateReports(s.cells, op);
      var (cells, outcome) := Integrate(s.cells, op);
      if outcome.Done? { DrainReports(s.(cells := cells), outcome.changed); }
    }
  }
}
