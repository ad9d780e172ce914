/** A replica read back from its snapshot goes on exactly as the one that was stored. */
module Reloading {
  import opened Identifiers
  import opened Operations
  import opened Replica
  import opened Snapshots

  // ----- every reachable list can be stored -----

  lemma InsertAtStorable(cells: seq<Cell>, k: nat, c: Cell)
    requires Storable(cells) && k <= |cells| && !Has(cells, c.id) && ValidName(c.id)
    ensures Storable(InsertAt(cells, k, c))
  {
    var r := InsertAt(cells, k, c);
    forall i, j | 0 <= i < j < |r| ensures r[i].id != r[j].id {
      if i != k && j != k {
        assert cells[if i < k then i else i - 1].id != cells[if j < k then j else j - 1].id;
      } else {
        assert Has(cells, r[if i == k then j else i].id);
      }
    }
  }

  lemma {:induction false} InsertTextStorable(cells: seq<Cell>, op: Op, j: nat, from: nat)
    requires Storable(cells) && op.Valid() && j <= |op.text| && from <= |cells|
    ensures Storable(InsertText(cells, op, j, from).0)
    decreases |op.text| - j
  {
    if j < |op.text| {
      var id := op.CharId(j);
      if Has(cells, id) {
        InsertTextStorable(cells, op, j + 1, IndexOf(cells, id) + 1);
      } else {
        var k, c := Slot(cells, from, id), Cell(id, op.text[j], false);
        InsertAtStorable(cells, k, c);
        InsertTextStorable(InsertAt(cells, k, c), op, j + 1, k + 1);
      }
    }
  }

  /** What every state a replica can reach satisfies, whatever ops it is given. */
  ghost predicate Stored(s: State) {
    Storable(s.cells) && forall i :: 0 <= i < |s.pending| ==> s.pending[i].Valid()
  }

  lemma IntegrateStorable(cells: seq<Cell>, op: Op)
    requires Storable(cells) && op.Valid()
    ensures Storable(Integrate(cells, op).0)
  {
    if !Blocked(cells, op) && op.text != "" && op.id.clock > op.after.clock {
      InsertTextStorable(cells, op, 0, PlaceAfter(cells, op.after));
    }
  }

  lemma {:induction false} RoundStored(p: Pass, waiting: seq<Op>)
    requires p.ok && Stored(State(p.cells, p.kept)) && Stored(State([], waiting))
    ensures Stored(State(Round(p, waiting).cells, Round(p, waiting).kept))
    decreases |waiting|
  {
    if waiting != [] {
      IntegrateStorable(p.cells, waiting[0]);
      var (cells, outcome) := Integrate(p.cells, waiting[0]);
      assert Stored(State([], waiting[1..]));
      match outcome
      case Missing => RoundStored(p.(kept := p.kept + [waiting[0]]), waiting[1..]);
      case IllFormed =>
      case Done(changed) => RoundStored(p.(cells := cells, progress := true, changed := p.changed || changed), waiting[1..]);
    }
  }

  lemma {:induction false} DrainStored(s: State, changed: bool)
    requires Stored(s)
    ensures Stored(Drain(s, changed).state)
    decreases |s.pending|
  {
    if s.pending != [] {
      var p := Pass(s.cells, [], false, changed, true);
      RoundStored(p, s.pending);
      var r := Round(p, s.pending);
      if r.ok && r.progress { DrainStored(State(r.cells, r.kept), r.changed); }
    }
  }

  lemma ApplyStored(s: State, op: Op)
    requires Stored(s)
    ensures Stored(Apply(s, op).state)
  {
    if op.Valid() {
      IntegrateStorable(s.cells, op);
      var (cells, outcome) := Integrate(s.cells, op);
      if outcome.Done? { DrainStored(s.(cells := cells), outcome.changed); }
    }
  }

  lemma {:induction false} ApplyAllStored(s: State, ops: seq<Op>)
    requires Stored(s)
    ensures Stored(ApplyAll(s, ops))
    decreases |ops|
  {
    if ops != [] {
      ApplyStored(s, ops[0]);
      ApplyAllStored(Apply(s, ops[0]).state, ops[1..]);
    }
  }

  // ----- what was not stored is never looked at -----

  lemma AlikeHas(a: seq<Cell>, b: seq<Cell>, x: ID)
    requires Alike(a, b)
    ensures Has(a, x) <==> Has(b, x)
  {
    if i :| 0 <= i < |a| && a[i].id == x { assert b[i].id == x; }
    if i :| 0 <= i < |b| && b[i].id == x { assert a[i].id == x; }
  }

  lemma AlikeIndexOf(a: seq<Cell>, b: seq<Cell>, x: ID)
    requires Alike(a, b) && Storable(a) && Has(a, x)
    ensures Has(b, x) && IndexOf(a, x) == IndexOf(b, x)
  {
    AlikeHas(a, b, x);
    assert a[IndexOf(b, x)].id == x;
  }

  lemma {:induction false} AlikeSlot(a: seq<Cell>, b: seq<Cell>, from: nat, id: ID)
    requires Alike(a, b) && from <= |a|
    ensures Slot(a, from, id) == Slot(b, from, id)
    decreases |a| - from
  {
    if from < |a| && Less(id, a[from].id) { AlikeSlot(a, b, from + 1, id); }
  }

  lemma AlikeInsertAt(a: seq<Cell>, b: seq<Cell>, k: nat, c: Cell)
    requires Alike(a, b) && k <= |a|
    ensures Alike(InsertAt(a, k, c), InsertAt(b, k, c))
  {
    assert Alike(a[..k], b[..k]) && Alike(a[k..], b[k..]);
    AlikeJoin(a[..k], b[..k], [c], [c]);
    AlikeJoin(a[..k] + [c], b[..k] + [c], a[k..], b[k..]);
  }

  lemma {:induction false} AlikeInsertText(a: seq<Cell>, b: seq<Cell>, op: Op, j: nat, from: nat)
    requires Alike(a, b) && Storable(a) && op.Valid() && j <= |op.text| && from <= |a|
    ensures Alike(InsertText(a, op, j, from).0, InsertText(b, op, j, from).0)
    ensures InsertText(a, op, j, from).1 == InsertText(b, op, j, from).1
    decreases |op.text| - j
  {
    hide Alike;
    hide Storable;
    hide Has;
    hide Slot;
    if j < |op.text| {
      assert |a| == |b| by { SameLength(a, b); }
      var id := op.CharId(j);
      AlikeHas(a, b, id);
      if Has(a, id) {
        AlikeIndexOf(a, b, id);
        AlikeInsertText(a, b, op, j + 1, IndexOf(a, id) + 1);
      } else {
        var k, c := Slot(a, from, id), Cell(id, op.text[j], false);
        AlikeSlot(a, b, from, id);
        AlikeInsertAt(a, b, k, c);
        InsertAtStorable(a, k, c);
        AlikeInsertText(InsertAt(a, k, c), InsertAt(b, k, c), op, j + 1, k + 1);
      }
    }
  }

  lemma SameLength(a: seq<Cell>, b: seq<Cell>)
    requires Alike(a, b)
    ensures |a| == |b|
  {
  }

  lemma AlikeStrike(a: seq<Cell>, b: seq<Cell>, op: Op)
    requires Alike(a, b)
    ensures Alike(Strike(a, op), Strike(b, op))
    ensures (exists i :: 0 <= i < |a| && op.Deletes(a[i].id) && !a[i].deleted)
        <==> exists i :: 0 <= i < |b| && op.Deletes(b[i].id) && !b[i].deleted
  {
    forall i | 0 <= i < |a|
      ensures Strike(a, op)[i].id == Strike(b, op)[i].id && Strike(a, op)[i].deleted == Strike(b, op)[i].deleted
      ensures !Strike(a, op)[i].deleted ==> Strike(a, op)[i].value == Strike(b, op)[i].value
    {
      assert a[i].id == b[i].id;
    }
    if i :| 0 <= i < |a| && op.Deletes(a[i].id) && !a[i].deleted { assert op.Deletes(b[i].id); }
    if i :| 0 <= i < |b| && op.Deletes(b[i].id) && !b[i].deleted { assert op.Deletes(a[i].id); }
  }

  lemma AlikeBlocked(a: seq<Cell>, b: seq<Cell>, op: Op)
    requires Alike(a, b)
    ensures Blocked(a, op) <==> Blocked(b, op)
  {
    forall x ensures Has(a, x) <==> Has(b, x) { AlikeHas(a, b, x); }
  }

  lemma AlikeIntegrate(a: seq<Cell>, b: seq<Cell>, op: Op)
    requires Alike(a, b) && Storable(a) && op.Valid()
    ensures Alike(Integrate(a, op).0, Integrate(b, op).0) && Integrate(a, op).1 == Integrate(b, op).1
  {
    AlikeBlocked(a, b, op);
    if !Blocked(a, op) {
      if op.text == "" {
        AlikeStrike(a, b, op);
      } else {
        if op.after != ROOT { AlikeIndexOf(a, b, op.after); }
        AlikeInsertText(a, b, op, 0, PlaceAfter(a, op.after));
      }
    }
  }

  lemma {:induction false} AlikeRound(p: Pass, q: Pass, waiting: seq<Op>)
    requires p.ok && q == p.(cells := q.cells) && Alike(p.cells, q.cells)
    requires Storable(p.cells) && Stored(State([], waiting))
    ensures var r, s := Round(p, waiting), Round(q, waiting);
            Alike(r.cells, s.cells) && s == r.(cells := s.cells)
    decreases |waiting|
  {
    hide Alike;
    hide Storable;
    if waiting != [] {
      var op, rest := waiting[0], waiting[1..];
      AlikeIntegrate(p.cells, q.cells, op);
      IntegrateStorable(p.cells, op);
      var (a, outcome) := Integrate(p.cells, op);
      var b := Integrate(q.cells, op).0;
      assert Stored(State([], rest)) by { assert Storable(State([], waiting).cells); }
      match outcome
      case Missing => AlikeRound(p.(kept := p.kept + [op]), q.(kept := p.kept + [op]), rest);
      case IllFormed =>
      case Done(changed) =>
        AlikeRound(p.(cells := a, progress := true, changed := p.changed || changed),
                   q.(cells := b, progress := true, changed := p.changed || changed), rest);
    }
  }

  lemma {:induction false} AlikeDrain(s: State, t: State, changed: bool)
    requires Alike(s.cells, t.cells) && s.pending == t.pending && Stored(s)
    ensures var x, y := Drain(s, changed), Drain(t, changed);
            Alike(x.state.cells, y.state.cells) && x.state.pending == y.state.pending && x.changed == y.changed && x.ok == y.ok
    decreases |s.pending|
  {
    hide Alike;
    if s.pending != [] {
      var p, q := Pass(s.cells, [], false, changed, true), Pass(t.cells, [], false, changed, true);
      AlikeRound(p, q, s.pending);
      RoundStored(p, s.pending);
      var r := Round(p, s.pending);
      if r.ok && r.progress {
        AlikeDrain(State(r.cells, r.kept), State(Round(q, s.pending).cells, r.kept), r.changed);
      }
    }
  }

  /** Replicas told apart by nothing but the text of tombstones answer every op alike, and stay so. */
  lemma AlikeApply(s: State, t: State, op: Op)
    requires Alike(s.cells, t.cells) && s.pending == t.pending && Stored(s)
    ensures var x, y := Apply(s, op), Apply(t, op);
            Alike(x.state.cells, y.state.cells) && x.state.pending == y.state.pending && x.changed == y.changed && x.ok == y.ok
  {
    if op.Valid() {
      AlikeIntegrate(s.cells, t.cells, op);
      IntegrateStorable(s.cells, op);
      var (a, outcome) := Integrate(s.cells, op);
      if outcome.Done? {
        AlikeDrain(s.(cells := a), t.(cells := Integrate(t.cells, op).0), outcome.changed);
      }
    }
  }

  lemma {:induction false} AlikeApplyAll(s: State, t: State, ops: seq<Op>)
    requires Alike(s.cells, t.cells) && s.pending == t.pending && Stored(s)
    ensures Alike(ApplyAll(s, ops).cells, ApplyAll(t, ops).cells)
    ensures ApplyAll(s, ops).pending == ApplyAll(t, ops).pending
    decreases |ops|
  {
    if ops != [] {
      AlikeApply(s, t, ops[0]);
      ApplyStored(s, ops[0]);
      AlikeApplyAll(Apply(s, ops[0]).state, Apply(t, ops[0]).state, ops[1..]);
    }
  }

  lemma {:induction false} AlikeReads(a: seq<Cell>, b: seq<Cell>)
    requires Alike(a, b)
    ensures Visible(a) == Visible(b) && Text(a) == Text(b) && Clock(a) == Clock(b)
  {
    if a != [] {
      assert a[0].id == b[0].id;
      assert forall i :: 0 <= i < |a[1..]| ==> a[1..][i] == a[i + 1] && b[1..][i] == b[i + 1];
      AlikeReads(a[1..], b[1..]);
    }
  }

  lemma AlikeStorable(a: seq<Cell>, b: seq<Cell>)
    requires Alike(a, b) && Storable(a)
    ensures Storable(b)
  {
    forall i, j | 0 <= i < j < |b| ensures b[i].id != b[j].id { assert a[i].id != a[j].id; }
    forall i | 0 <= i < |b| ensures ValidName(b[i].id) { assert ValidName(a[i].id); }
  }

  lemma {:induction false} StoredRunsValid(cells: seq<Cell>)
    requires Storable(cells)
    ensures forall i :: 0 <= i < |Runs(cells)| ==> Runs(cells)[i].Valid()
  {
    if cells != [] {
      var front := cells[..|cells| - 1];
      StoredRunsValid(front);
      SnapshotExpands(front);
      SnapshotExpands(cells);
    }
  }

  /**
   A reachable replica with nothing held is never refused when it is loaded back, and what is
   loaded reads the same, has the same clock, and stays the same under every later run of ops.
   */
  lemma LoadedGoesOnAlike(ops: seq<Op>, later: seq<Op>)
    requires ApplyAll(EMPTY, ops).pending == []
    ensures var s := ApplyAll(EMPTY, ops);
            var loaded := State(ExpandAll(Runs(s.cells)), []);
            && Loadable(Runs(s.cells)) && Alike(s.cells, loaded.cells)
            && Text(loaded.cells) == Text(s.cells) && Clock(loaded.cells) == Clock(s.cells)
            && Alike(ApplyAll(s, later).cells, ApplyAll(loaded, later).cells)
            && Text(ApplyAll(s, later).cells) == Text(ApplyAll(loaded, later).cells)
            && ApplyAll(s, later).pending == ApplyAll(loaded, later).pending
  {
    var s := ApplyAll(EMPTY, ops);
    var loaded := State(ExpandAll(Runs(s.cells)), []);
    ApplyAllStored(EMPTY, ops);
    SnapshotExpands(s.cells);
    assert Alike(s.cells, loaded.cells);
    StoredRunsValid(s.cells);
    AlikeStorable(s.cells, loaded.cells);
    AlikeReads(s.cells, loaded.cells);
    AlikeApplyAll(s, loaded, later);
    AlikeReads(ApplyAll(s, later).cells, ApplyAll(loaded, later).cells);
  }
}
