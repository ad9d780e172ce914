/**
 The proof that every replica that has received the same edits, in whatever order and however
 often, holds the document those edits determine.
 */
module Convergence {
  import opened Identifiers
  import opened Sets
  import opened Operations
  import opened InsertionTree
  import opened TreeWalk
  import opened Replica
  import opened Documents

  // ----- histories that grow -----

  /** Any op that inserts x tells its parent and value. */
  lemma SourceAgrees(h: History, op: Op, x: ID)
    requires WellFormed(h) && op in h && op.Inserts(x)
    ensures x in TreeOf(h) && TreeOf(h)[x] == op.ParentOf(x) && ValueIn(h, x) == op.ValueOf(x)
  {
    var source := Source(h, x);
  }

  lemma {:induction false} PresentGrows(h: History, k: History, x: ID)
    requires h <= k && Present(h, x)
    ensures Present(k, x)
    decreases x.clock
  {
    var op :| op in h && op.Inserts(x) && Anchored(h, op, x.clock);
    if op.after != ROOT { PresentGrows(h, k, op.after); }
    assert Anchored(k, op, x.clock);
  }

  lemma TombstonedGrows(h: History, k: History, x: ID)
    requires h <= k && Tombstoned(h, x)
    ensures Tombstoned(k, x)
  {
    var op :| op in h && op.Deletes(x) && forall y :: op.Deletes(y) ==> Present(h, y);
    forall y | op.Deletes(y) ensures Present(k, y) { PresentGrows(h, k, y); }
    assert op in k;
  }

  /** Trees that agree on some nodes put them in the same order. */
  lemma OrderGrows(t: Tree, u: Tree, cells: seq<Cell>)
    requires Grown(t) && Grown(u) && InOrder(t, cells)
    requires forall x :: Has(cells, x) ==> x in u && u[x] == t[x]
    ensures InOrder(u, cells)
  {
    var ids := Ids(cells);
    forall i, j | 0 <= i < j < |ids| ensures Before(u, ids[i], ids[j]) {
      PathStable(t, u, Elements(ids), ids[i]);
      PathStable(t, u, Elements(ids), ids[j]);
      assert Before(t, ids[i], ids[j]);
    }
  }

  lemma SoundGrows(h: History, k: History, cells: seq<Cell>)
    requires h <= k && WellFormed(k) && WellFormed(h) && Sound(h, cells)
    ensures Sound(k, cells)
  {
    TreeGrown(h);
    TreeGrown(k);
    forall x | x in TreeOf(h)
      ensures x in TreeOf(k) && TreeOf(k)[x] == TreeOf(h)[x] && ValueIn(k, x) == ValueIn(h, x)
    {
      SourceAgrees(k, Source(h, x), x);
    }
    OrderGrows(TreeOf(h), TreeOf(k), cells);
    forall i | 0 <= i < |cells| ensures Faithful(k, cells[i]) {
      assert Faithful(h, cells[i]);
      PresentGrows(h, k, cells[i].id);
      if cells[i].deleted { TombstonedGrows(h, k, cells[i].id); }
    }
  }

  // ----- one op -----

  ghost predicate Grows(a: seq<Cell>, b: seq<Cell>) {
    && (forall x :: Has(a, x) ==> Has(b, x))
    && forall x :: Struck(a, x) ==> Struck(b, x)
  }

  lemma IntegratedStays(a: seq<Cell>, b: seq<Cell>, op: Op)
    requires Grows(a, b) && Integrated(a, op)
    ensures Integrated(b, op)
  {
  }

  lemma InsertAtIds(cells: seq<Cell>, k: nat, c: Cell)
    requires k <= |cells|
    ensures Ids(InsertAt(cells, k, c)) == Ids(cells)[..k] + [c.id] + Ids(cells)[k..]
    ensures Elements(Ids(InsertAt(cells, k, c))) == Elements(Ids(cells)) + {c.id}
  {
    ElementsInsert(Ids(cells), k, c.id);
    hide Elements;
  }

  lemma InsertAtGrows(cells: seq<Cell>, k: nat, c: Cell)
    requires k <= |cells|
    ensures var r := InsertAt(cells, k, c);
            Grows(cells, r) && forall x :: Has(r, x) <==> x == c.id || Has(cells, x)
    ensures Ids(InsertAt(cells, k, c)) == Ids(cells)[..k] + [c.id] + Ids(cells)[k..]
    ensures Elements(Ids(InsertAt(cells, k, c))) == Elements(Ids(cells)) + {c.id}
  {
    var r := InsertAt(cells, k, c);
    assert r[k] == c;
    forall i | 0 <= i < |cells| ensures r[if i < k then i else i + 1] == cells[i] {}
    InsertAtIds(cells, k, c);
    hide Elements;
    hide Ids;
  }

  lemma FaithfulInsert(h: History, cells: seq<Cell>, k: nat, c: Cell)
    requires k <= |cells| && Faithful(h, c) && forall i :: 0 <= i < |cells| ==> Faithful(h, cells[i])
    ensures forall i :: 0 <= i <= |cells| ==> Faithful(h, InsertAt(cells, k, c)[i])
  {
    forall i | 0 <= i <= |cells| ensures Faithful(h, InsertAt(cells, k, c)[i]) {
      if i != k { assert Faithful(h, cells[if i < k then i else i - 1]); }
    }
  }

  lemma InsertOneInOrder(t: Tree, cells: seq<Cell>, from: nat, c: Cell)
    requires Grown(t) && InOrder(t, cells) && c.id in t && !Has(cells, c.id)
    requires PlaceOf(Ids(cells), t[c.id], from) && from <= |cells|
    ensures InOrder(t, InsertAt(cells, Slot(cells, from, c.id), c))
  {
    var k, ids := Slot(cells, from, c.id), Ids(cells);
    InsertAtGrows(cells, k, c);
    SlotKeepsOrder(t, ids, c.id, from, k);
    assert t[c.id] == ROOT || t[c.id] in Elements(ids) by {
      if from > 0 { assert ids[from - 1] in ids; }
    }
  }

  /** A new character put where the skip loop stops keeps the cells part of the document. */
  lemma InsertOneSound(h: History, op: Op, cells: seq<Cell>, from: nat, c: Cell)
    requires WellFormed(h) && Sound(h, cells) && op in h && op.Inserts(c.id) && !Has(cells, c.id)
    requires c.value == op.ValueOf(c.id) && !c.deleted && Present(h, c.id)
    requires PlaceOf(Ids(cells), op.ParentOf(c.id), from) && from <= |cells|
    ensures Sound(h, InsertAt(cells, Slot(cells, from, c.id), c))
  {
    TreeGrown(h);
    SourceAgrees(h, op, c.id);
    InsertOneInOrder(TreeOf(h), cells, from, c);
    FaithfulInsert(h, cells, Slot(cells, from, c.id), c);
  }

  lemma AnchoredArePresent(h: History, op: Op, x: ID)
    requires WellFormed(h) && op in h && op.Inserts(x) && (op.after == ROOT || Present(h, op.after))
    ensures Present(h, x)
  {
    assert op.text != "";
    assert Anchored(h, op, x.clock);
  }

  lemma GrowsTransitive(a: seq<Cell>, b: seq<Cell>, c: seq<Cell>)
    requires Grows(a, b) && Grows(b, c)
    ensures Grows(a, c)
  {
  }

  lemma HasStays(a: seq<Cell>, b: seq<Cell>, x: ID)
    requires Grows(a, b) && Has(a, x)
    ensures Has(b, x)
  {
  }

  /** The j-th character of an insert, not seen before, goes in where the skip loop stops. */
  lemma InsertNewSound(h: History, op: Op, cells: seq<Cell>, j: nat, from: nat)
    requires WellFormed(h) && Sound(h, cells) && op in h && j < |op.text| && from <= |cells|
    requires op.after == ROOT || Present(h, op.after)
    requires PlaceOf(Ids(cells), op.ParentOf(op.CharId(j)), from) && !Has(cells, op.CharId(j))
    ensures var k := Slot(cells, from, op.CharId(j));
            var r := InsertAt(cells, k, Cell(op.CharId(j), op.text[j], false));
            Sound(h, r) && Grows(cells, r) && PlaceOf(Ids(r), op.CharId(j), k + 1) && Has(r, op.CharId(j))
  {
    var c := Cell(op.CharId(j), op.text[j], false);
    AnchoredArePresent(h, op, c.id);
    InsertOneSound(h, op, cells, from, c);
    InsertAtGrows(cells, Slot(cells, from, c.id), c);
  }

  /** Inserting an op's text from its j-th character on. */
  lemma {:induction false} InsertTextSound(h: History, op: Op, cells: seq<Cell>, j: nat, from: nat)
    requires WellFormed(h) && Sound(h, cells) && op in h && j <= |op.text| && from <= |cells|
    requires op.after == ROOT || Present(h, op.after)
    requires j < |op.text| ==> PlaceOf(Ids(cells), op.ParentOf(op.CharId(j)), from)
    ensures var r := InsertText(cells, op, j, from).0;
            Sound(h, r) && Grows(cells, r) && forall i :: j <= i < |op.text| ==> Has(r, op.CharId(i))
    decreases |op.text| - j
  {
    hide Sound;
    hide WellFormed;
    hide Grows;
    hide PlaceOf;
    hide Has;
    hide Slot;
    hide InsertAt;
    hide IndexOf;
    hide Present;
    GrowsSelf(cells);
    if j < |op.text| {
      var id := op.CharId(j);
      if Has(cells, id) {
        if j + 1 < |op.text| { PlaceSeen(op, cells, j); }
        InsertTextSound(h, op, cells, j + 1, IndexOf(cells, id) + 1);
        HasStays(cells, InsertText(cells, op, j, from).0, id);
      } else {
        var k := Slot(cells, from, id);
        var r := InsertAt(cells, k, Cell(id, op.text[j], false));
        InsertNewSound(h, op, cells, j, from);
        InsertTextSound(h, op, r, j + 1, k + 1);
        GrowsTransitive(cells, r, InsertText(r, op, j + 1, k + 1).0);
        HasStays(r, InsertText(r, op, j + 1, k + 1).0, id);
      }
    }
  }

  lemma GrowsSelf(cells: seq<Cell>)
    ensures Grows(cells, cells)
  {}

  /** The place after a character already there is where the text goes on. */
  lemma PlaceSeen(op: Op, cells: seq<Cell>, j: nat)
    requires j + 1 < |op.text| && Has(cells, op.CharId(j))
    ensures IndexOf(cells, op.CharId(j)) < |cells|
    ensures PlaceOf(Ids(cells), op.ParentOf(op.CharId(j + 1)), IndexOf(cells, op.CharId(j)) + 1)
  {
    assert op.ParentOf(op.CharId(j + 1)) == op.CharId(j);
  }

  lemma StrikeGrows(op: Op, cells: seq<Cell>)
    requires op.text == "" && !Blocked(cells, op)
    ensures Grows(cells, Strike(cells, op)) && Integrated(Strike(cells, op), op)
    ensures Ids(Strike(cells, op)) == Ids(cells)
  {
    var r := Strike(cells, op);
    assert Ids(r) == Ids(cells);
    forall x | Has(cells, x) ensures Has(r, x) {
      assert x in Ids(r);
    }
    forall x | op.Deletes(x) || Struck(cells, x) ensures Struck(r, x) {
      var i :| 0 <= i < |cells| && cells[i].id == x && (op.Deletes(x) || cells[i].deleted);
      assert r[i].deleted;
    }
  }

  /** Striking what a delete names keeps the cells part of the document. */
  lemma StrikeSound(h: History, op: Op, cells: seq<Cell>)
    requires WellFormed(h) && Sound(h, cells) && op in h && op.text == "" && !Blocked(cells, op)
    ensures Sound(h, Strike(cells, op))
  {
    StrikeGrows(op, cells);
    forall y | op.Deletes(y) ensures Present(h, y) {
      var i :| 0 <= i < |cells| && cells[i].id == y;
      assert Faithful(h, cells[i]);
    }
    forall i | 0 <= i < |cells| ensures Faithful(h, Strike(cells, op)[i]) {
      assert Faithful(h, cells[i]);
    }
  }

  /** Integrating an op that is not blocked leaves its whole effect, and takes nothing away. */
  lemma IntegrateSound(h: History, op: Op, cells: seq<Cell>)
    requires WellFormed(h) && Sound(h, cells) && op in h && !Blocked(cells, op)
    ensures var (r, outcome) := Integrate(cells, op);
            outcome.Done? && Sound(h, r) && Grows(cells, r) && Integrated(r, op)
  {
    if op.text == "" {
      StrikeGrows(op, cells);
      StrikeSound(h, op, cells);
    } else {
      var from := PlaceAfter(cells, op.after);
      if op.after != ROOT { assert Faithful(h, cells[from - 1]); }
      InsertTextSound(h, op, cells, 0, from);
      var r := Integrate(cells, op).0;
      forall x | op.Inserts(x) ensures Has(r, x) {
        assert x == op.CharId(x.clock - op.id.clock);
      }
    }
  }

  // ----- the drain loop -----

  /** op is held, integrated, or has yet to be tried. */
  ghost predicate Accounted(cells: seq<Cell>, op: Op, kept: seq<Op>, waiting: seq<Op>) {
    op in kept || op in waiting || Integrated(cells, op)
  }

  /** A pass loses nothing; one without progress changed nothing and kept only ops that wait. */
  lemma {:induction false} RoundSound(h: History, p: Pass, waiting: seq<Op>)
    requires WellFormed(h) && p.ok && Sound(h, p.cells)
    requires forall op :: op in waiting ==> op in h
    ensures var r := Round(p, waiting);
            && r.ok && Sound(h, r.cells) && Grows(p.cells, r.cells)
            && (forall op :: op in r.kept ==> op in p.kept || op in waiting)
            && (forall op :: Accounted(p.cells, op, p.kept, waiting) ==> op in r.kept || Integrated(r.cells, op))
            && (!r.progress ==> r.cells == p.cells && !p.progress)
            && (!r.progress ==> forall op :: op in r.kept ==> op in p.kept || Blocked(p.cells, op))
    decreases |waiting|
  {
    hide Sound;
    hide WellFormed;
    if waiting != [] {
      var op, rest := waiting[0], waiting[1..];
      assert waiting == [op] + rest;
      var (cells, outcome) := Integrate(p.cells, op);
      if Blocked(p.cells, op) {
        RoundSound(h, p.(kept := p.kept + [op]), rest);
      } else {
        IntegrateSound(h, op, p.cells);
        var q := p.(cells := cells, progress := true, changed := p.changed || outcome.changed);
        RoundSound(h, q, rest);
        GrowsTransitive(p.cells, cells, Round(q, rest).cells);
        forall o | Accounted(p.cells, o, p.kept, waiting) ensures Accounted(cells, o, p.kept, rest) {
          if Integrated(p.cells, o) { IntegratedStays(p.cells, cells, o); }
        }
      }
    }
  }

  lemma {:induction false} DrainSettles(h: History, s: State, changed: bool)
    requires WellFormed(h) && Sound(h, s.cells)
    requires forall op :: op in s.pending ==> op in h
    requires forall op :: op in h ==> Accounted(s.cells, op, s.pending, [])
    ensures Drain(s, changed).ok && Settled(h, Drain(s, changed).state)
    ensures Grows(s.cells, Drain(s, changed).state.cells)
    decreases |s.pending|
  {
    hide Sound;
    hide WellFormed;
    if s.pending != [] {
      var p := Pass(s.cells, [], false, changed, true);
      RoundSound(h, p, s.pending);
      var r := Round(p, s.pending);
      var next := State(r.cells, r.kept);
      forall op | op in h ensures Accounted(next.cells, op, next.pending, []) {
        assert Accounted(p.cells, op, p.kept, s.pending);
      }
      if r.progress {
        DrainSettles(h, next, r.changed);
        GrowsTransitive(s.cells, r.cells, Drain(next, r.changed).state.cells);
      }
    }
  }

  /** Applying one more op: nothing received so far is lost, and nothing held could have been applied. */
  lemma ApplySettles(h: History, s: State, op: Op)
    requires WellFormed(h + {op}) && WellFormed(h) && Settled(h, s)
    ensures var r := Apply(s, op); r.ok && Settled(h + {op}, r.state) && Grows(s.cells, r.state.cells)
  {
    var k := h + {op};
    SoundGrows(h, k, s.cells);
    if !Blocked(s.cells, op) {
      IntegrateSound(k, op, s.cells);
      var (cells, outcome) := Integrate(s.cells, op);
      forall o | o in k ensures Accounted(cells, o, s.pending, []) {
        if o in h && o !in s.pending { IntegratedStays(s.cells, cells, o); }
      }
      DrainSettles(k, s.(cells := cells), outcome.changed);
      GrowsTransitive(s.cells, cells, Drain(s.(cells := cells), outcome.changed).state.cells);
    }
  }

  // ----- whole runs -----

  ghost function Received(ops: seq<Op>): History {
    set op | op in ops
  }

  lemma SubHistory(h: History, k: History)
    requires h <= k && WellFormed(k)
    ensures WellFormed(h)
  {
  }

  lemma {:induction false} RunSettles(h: History, s: State, ops: seq<Op>)
    requires WellFormed(h + Received(ops)) && WellFormed(h) && Settled(h, s)
    ensures Settled(h + Received(ops), ApplyAll(s, ops))
    decreases |ops|
  {
    if ops == [] {
      assert h + Received(ops) == h;
    } else {
      var k := h + {ops[0]};
      assert ops == [ops[0]] + ops[1..];
      assert h + Received(ops) == k + Received(ops[1..]);
      SubHistory(k, h + Received(ops));
      ApplySettles(h, s, ops[0]);
      RunSettles(k, Apply(s, ops[0]).state, ops[1..]);
    }
  }

  /** What can be placed has been placed. */
  lemma {:induction false} PresentIsHeld(h: History, s: State, x: ID)
    requires WellFormed(h) && Settled(h, s) && Present(h, x)
    ensures Has(s.cells, x)
    decreases x.clock
  {
    hide Sound;
    var op :| op in h && op.Inserts(x) && Anchored(h, op, x.clock);
    if op.after != ROOT { PresentIsHeld(h, s, op.after); }
    assert Integrated(s.cells, op);
  }

  lemma TombstonedIsStruck(h: History, s: State, x: ID)
    requires WellFormed(h) && Settled(h, s) && Tombstoned(h, x)
    ensures Struck(s.cells, x)
  {
    hide Sound;
    var op :| op in h && op.Deletes(x) && forall y :: op.Deletes(y) ==> Present(h, y);
    forall y | op.Deletes(y) ensures Has(s.cells, y) { PresentIsHeld(h, s, y); }
    assert Integrated(s.cells, op);
  }

  /** The names a replica holds, in its order, are the depth-first walk of the tree. */
  lemma SettledIsWalk(h: History, s: State)
    requires WellFormed(h) && Settled(h, s)
    ensures Grown(PresentTree(h)) && Ids(s.cells) == DepthFirst(PresentTree(h))
  {
    TreeGrown(h);
    var t, u, ids := TreeOf(h), PresentTree(h), Ids(s.cells);
    forall x ensures x in Elements(ids) <==> x in u {
      if x in ids {
        var i :| 0 <= i < |s.cells| && s.cells[i].id == x;
        assert Faithful(h, s.cells[i]);
      }
      if x in u { PresentIsHeld(h, s, x); }
    }
    OrderGrows(t, u, s.cells);
    WalkIsTheOrder(u, ids);
  }

  lemma DistinctInOrder(t: Tree, cells: seq<Cell>)
    requires Grown(t) && InOrder(t, cells)
    ensures Distinct(cells)
  {
    var ids := Ids(cells);
    forall i, j | 0 <= i < j < |cells| ensures cells[i].id != cells[j].id {
      assert Before(t, ids[i], ids[j]);
      BeforeAsymmetric(t, ids[i], ids[j]);
    }
  }

  lemma CellIsFaithful(h: History, s: State, i: nat)
    requires WellFormed(h) && Settled(h, s) && i < |s.cells|
    ensures var c := s.cells[i];
            c.id in Minted(h) && c.value == ValueIn(h, c.id) && (c.deleted <==> Tombstoned(h, c.id))
  {
    TreeGrown(h);
    var c := s.cells[i];
    assert Faithful(h, c);
    if Tombstoned(h, c.id) {
      TombstonedIsStruck(h, s, c.id);
      DistinctInOrder(TreeOf(h), s.cells);
    }
  }

  /** A replica to which nothing is owed holds the document its history determines. */
  lemma SettledIsDocument(h: History, s: State)
    requires WellFormed(h) && Settled(h, s)
    ensures s.cells == Document(h)
  {
    SettledIsWalk(h, s);
    hide Settled;
    var d, ids := Document(h), Ids(s.cells);
    assert |d| == |s.cells|;
    forall i | 0 <= i < |s.cells| ensures s.cells[i] == d[i] {
      CellIsFaithful(h, s, i);
    }
  }

  /** In every reachable state the list is the document of the ops received so far. */
  lemma RunIsDocument(ops: seq<Op>)
    requires WellFormed(Received(ops))
    ensures ApplyAll(EMPTY, ops).cells == Document(Received(ops))
    ensures Settled(Received(ops), ApplyAll(EMPTY, ops))
  {
    TreeGrown({});
    assert {} + Received(ops) == Received(ops);
    RunSettles({}, EMPTY, ops);
    SettledIsDocument(Received(ops), ApplyAll(EMPTY, ops));
  }

  /** Replicas that received the same edits, in any order and with any repetition, hold the same list. */
  lemma Convergence(a: seq<Op>, b: seq<Op>)
    requires WellFormed(Received(a)) && Received(a) == Received(b)
    ensures ApplyAll(EMPTY, a).cells == ApplyAll(EMPTY, b).cells
    ensures forall op :: op in ApplyAll(EMPTY, a).pending <==> op in ApplyAll(EMPTY, b).pending
  {
    RunIsDocument(a);
    RunIsDocument(b);
    var r, q := ApplyAll(EMPTY, a), ApplyAll(EMPTY, b);
    forall op | op in r.pending || op in q.pending ensures op in r.pending && op in q.pending {
      BlockedNotIntegrated(r.cells, op);
      assert Blocked(r.cells, op);
    }
  }

  lemma BlockedNotIntegrated(cells: seq<Cell>, op: Op)
    requires Blocked(cells, op)
    ensures !Integrated(cells, op)
  {
    if op.text == "" {
      var x :| op.Deletes(x) && !Has(cells, x);
      assert !Struck(cells, x);
    }
  }

  /** An op received again changes nothing that is read: it is seen, or it is held once more. */
  lemma ReapplyKeepsDocument(h: History, s: State, op: Op)
    requires WellFormed(h) && Settled(h, s) && op in h
    ensures Apply(s, op).ok && Apply(s, op).state.cells == s.cells
  {
    assert h + {op} == h;
    ApplySettles(h, s, op);
    SettledIsDocument(h, s);
    SettledIsDocument(h, Apply(s, op).state);
  }

  /** Text inserted into a run is all that can stand between its characters. */
  lemma RunsDoNotInterleave(h: History, s: State, op: Op, i: nat, j: nat, k: nat)
    requires WellFormed(h) && Settled(h, s) && op in h
    requires i <= j <= k < |s.cells| && op.Inserts(s.cells[i].id) && op.Inserts(s.cells[k].id)
    ensures Grown(TreeOf(h)) && Descends(TreeOf(h), s.cells[j].id, s.cells[i].id)
  {
    hide Faithful;
    hide WellFormed;
    TreeGrown(h);
    var a, b := s.cells[i].id, s.cells[k].id;
    if b.clock < a.clock {
      RunDescends(h, op, b, a);
      DescendantNotBefore(TreeOf(h), s.cells, i, k);
    }
    RunDescends(h, op, a, b);
    SubtreeContiguous(TreeOf(h), Ids(s.cells), i, j, k);
  }

  /**
   One order for everyone: of any two characters ever made exactly one stands before the other, and every
   replica, whatever part of the edits it has seen, lists the ones it holds that way.
   */
  lemma OneOrderForAll(log: History, h: History, s: State, x: ID, y: ID)
    requires WellFormed(log) && h <= log && WellFormed(h) && Settled(h, s)
    requires x in TreeOf(log) && y in TreeOf(log) && x != y
    ensures Grown(TreeOf(log)) && Before(TreeOf(log), x, y) != Before(TreeOf(log), y, x)
    ensures forall i, j {:trigger s.cells[i], s.cells[j]} ::
              0 <= i < |s.cells| && 0 <= j < |s.cells| && s.cells[i].id == x && s.cells[j].id == y ==>
                (i < j <==> Before(TreeOf(log), x, y))
  {
    hide WellFormed;
    hide Settled;
    hide TreeOf;
    hide Before;
    hide Sound;
    var t := TreeOf(log);
    TreeGrown(log);
    BeforeTotal(t, x, y);
    if Before(t, x, y) { BeforeAsymmetric(t, x, y); } else { BeforeAsymmetric(t, y, x); }
    forall i, j {:trigger s.cells[i], s.cells[j]} | 0 <= i < |s.cells| && 0 <= j < |s.cells| && s.cells[i].id == x && s.cells[j].id == y
      ensures i < j <==> Before(t, x, y)
    {
      if i < j { ListedBefore(log, h, s, i, j); } else { ListedBefore(log, h, s, j, i); }
    }
  }

  lemma ListedBefore(log: History, h: History, s: State, i: nat, j: nat)
    requires WellFormed(log) && h <= log && WellFormed(h) && Settled(h, s) && i <= j < |s.cells|
    ensures Grown(TreeOf(log)) && (i < j ==> Before(TreeOf(log), s.cells[i].id, s.cells[j].id))
  {
    TreeGrown(log);
    SoundGrows(h, log, s.cells);
    assert i < j ==> Before(TreeOf(log), Ids(s.cells)[i], Ids(s.cells)[j]);
  }

  lemma DescendantNotBefore(t: Tree, cells: seq<Cell>, i: nat, k: nat)
    requires Grown(t) && InOrder(t, cells) && i <= k < |cells|
    ensures !(Path(t, cells[k].id) < Path(t, cells[i].id))
  {
    assert i < k ==> Before(t, Ids(cells)[i], Ids(cells)[k]);
    if Path(t, cells[k].id) < Path(t, cells[i].id) {
      AncestorBefore(t, cells[k].id, cells[i].id);
      BeforeAsymmetric(t, cells[k].id, cells[i].id);
    }
  }

  lemma ParentInRun(op: Op, a: ID, b: ID)
    requires op.Inserts(a) && op.Inserts(b) && a.clock < b.clock
    ensures op.Inserts(op.ParentOf(b)) && a.clock <= op.ParentOf(b).clock < b.clock
  {
  }

  lemma {:induction false} RunDescends(h: History, op: Op, a: ID, b: ID)
    requires WellFormed(h) && op in h && op.Inserts(a) && op.Inserts(b) && a.clock <= b.clock
    ensures Grown(TreeOf(h)) && Descends(TreeOf(h), b, a)
    ensures a != b ==> Path(TreeOf(h), a) < Path(TreeOf(h), b)
    decreases b.clock
  {
    hide WellFormed;
    hide Grown;
    hide TreeOf;
    hide Path;
    TreeGrown(h);
    SourceAgrees(h, op, b);
    if a.clock < b.clock {
      ParentInRun(op, a, b);
      RunDescends(h, op, a, op.ParentOf(b));
      PathGoesOn(TreeOf(h), b);
    } else {
      assert a == b;
    }
  }

  lemma PathGoesOn(t: Tree, b: ID)
    requires Grown(t) && b in t
    ensures Path(t, b) == Path(t, t[b]) + [b]
  {}

  // ----- who stands first -----

  lemma {:induction false} ListHistory(h: History) returns (ops: seq<Op>)
    ensures Received(ops) == h
  {
    if h == {} {
      ops := [];
    } else {
      var op :| op in h;
      var rest := ListHistory(h - {op});
      ops := rest + [op];
      assert Received(ops) == Received(rest) + {op};
    }
  }

  lemma PartBelow(above: seq<ID>, a: seq<ID>, b: seq<ID>, q: ID, p: ID)
    requires above + [q] <= a && above + [p] <= b && Less(p, q)
    ensures Precedes(a, b)
  {
    var n := |above|;
    assert (above + [q])[n] == q && (above + [p])[n] == p;
    assert a[..n] == (above + [q])[..n] == above == (above + [p])[..n] == b[..n];
    assert Parts(a, b, n);
  }

  /** What two inserts at one place put into the tree: a greater sibling's subtree stands before a lesser's. */
  lemma SiblingRunsInOrder(h: History, p: Op, q: Op, x: ID, y: ID)
    requires WellFormed(h) && p in h && q in h && p.text != "" && q.text != "" && p.after == q.after && Less(p.id, q.id)
    requires q.Inserts(x) && p.Inserts(y)
    ensures Grown(TreeOf(h)) && Before(TreeOf(h), x, y)
  {
    hide WellFormed;
    hide Less;
    hide TreeOf;
    hide Path;
    hide Grown;
    TreeGrown(h);
    SourceAgrees(h, p, p.id);
    SourceAgrees(h, q, q.id);
    RunDescends(h, q, q.id, x);
    RunDescends(h, p, p.id, y);
    PathGoesOn(TreeOf(h), p.id);
    PathGoesOn(TreeOf(h), q.id);
    PartBelow(Path(TreeOf(h), p.after), Path(TreeOf(h), x), Path(TreeOf(h), y), q.id, p.id);
  }

  /**
   Of two inserts after the same character, the later one's text stands first; of two made at one clock, the
   text of the writer whose name is greater where the two names first differ.
   */
  lemma GreaterWriterFirst(h: History, p: Op, q: Op, k: nat, i: nat, j: nat)
    requires WellFormed(h) && p in h && q in h && p.text != "" && q.text != "" && p.after == q.after
    requires p.id.clock < q.id.clock || (p.id.clock == q.id.clock && LessAt(p.id.replica, q.id.replica, k))
    requires i < |Document(h)| && j < |Document(h)| && q.Inserts(Document(h)[i].id) && p.Inserts(Document(h)[j].id)
    ensures i < j
  {
    hide WellFormed;
    hide Less;
    hide Document;
    hide Settled;
    hide TreeOf;
    hide Before;
    hide ApplyAll;
    hide Received;
    LessIs(p.id, q.id);
    var ops := ListHistory(h);
    RunIsDocument(ops);
    var s := ApplyAll(EMPTY, ops);
    SiblingRunsInOrder(h, p, q, s.cells[i].id, s.cells[j].id);
    BeforeAsymmetric(TreeOf(h), s.cells[i].id, s.cells[j].id);
    if j < i { ListedBefore(h, h, s, j, i); }
  }
}
