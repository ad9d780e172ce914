/**
 Writers editing one document together: each edits its own replica, every edit may reach any
 replica at any time, any number of times, and a replica with nothing held may be stored and
 read back, by its own writer or by a new one. That edits are well formed is not assumed here: it is kept by every step.
 */
module Collaboration {
  import opened Identifiers
  import opened Operations
  import opened Replica
  import opened Documents
  import opened Convergence
  import opened Snapshots
  import opened Reloading
  import LocalEdits

  /**
   One writer's replica and the edits it has received. Shadow is the state it would have had
   it never been stored and read back.
   */
  datatype Member = Member(state: State, shadow: State, seen: History)

  /** Every edit made so far, and the replicas by writer. */
  datatype System = System(log: History, members: map<string, Member>)

  datatype Step =
    | Join(name: string)
    | Open(name: string, from: string)
    | Insert(name: string, position: int, text: string)
    | Remove(name: string, position: int, length: int)
    | Replace(name: string, text: string)
    | Deliver(name: string, op: Op)
    | Reload(name: string)

  const START := System({}, map[])

  ghost function Publish(sys: System, name: string, e: LocalEdits.Edited): System
    requires name in sys.members && |e.ops| <= 1
  {
    var m := sys.members[name];
    if e.ops == [] then System(sys.log, sys.members[name := m.(state := e.state)]) else
      var op := e.ops[0];
      System(sys.log + {op}, sys.members[name := Member(e.state, Apply(m.shadow, op).state, m.seen + {op})])
  }

  /** A replacement, published one half after the other. */
  ghost function Replaced(sys: System, name: string, text: string): System
    requires name in sys.members
  {
    var s := sys.members[name].state;
    var current := Text(s.cells);
    var p, q := LocalEdits.KeptPrefix(current, text), LocalEdits.KeptSuffix(current, text);
    var cut := if |current| > p + q then Publish(sys, name, LocalEdits.Remove(s, p, |current| - p - q)) else sys;
    if |text| == p + q then cut
    else Publish(cut, name, LocalEdits.Insert(cut.members[name].state, name, p, text[p..|text| - q]))
  }

  /** The member as it is read back from its snapshot. */
  ghost function Reloaded(m: Member): Member {
    m.(state := State(ExpandAll(Runs(m.state.cells)), []))
  }

  ghost function Next(sys: System, step: Step): System {
    match step
    case Join(name) =>
      if name in sys.members then sys
      else sys.(members := sys.members[name := Member(EMPTY, EMPTY, {})])
    case Open(name, from) => // a new writer loads what another has stored
      if name in sys.members || from !in sys.members || sys.members[from].state.pending != [] then sys
      else sys.(members := sys.members[name := Reloaded(sys.members[from])])
    case Insert(name, position, text) =>
      if name !in sys.members then sys
      else Publish(sys, name, LocalEdits.Insert(sys.members[name].state, name, position, text))
    case Remove(name, position, length) =>
      if name !in sys.members then sys
      else Publish(sys, name, LocalEdits.Remove(sys.members[name].state, position, length))
    case Replace(name, text) => // whoever calls it drops the replica when it is refused
      if name !in sys.members || !LocalEdits.Replace(sys.members[name].state, name, text).ok then sys
      else Replaced(sys, name, text)
    case Deliver(name, op) =>
      if name !in sys.members || op !in sys.log then sys
      else
        var m := sys.members[name];
        sys.(members := sys.members[name :=
          Member(Apply(m.state, op).state, Apply(m.shadow, op).state, m.seen + {op})])
    case Reload(name) =>
      if name !in sys.members || sys.members[name].state.pending != [] then sys
      else sys.(members := sys.members[name := Reloaded(sys.members[name])])
  }

  ghost function Play(sys: System, steps: seq<Step>): System
    decreases |steps|
  {
    if steps == [] then sys else Play(Next(sys, steps[0]), steps[1..])
  }

  // ----- what every step keeps -----

  /** A member's shadow is settled in what it has received, and its state reads and answers like it. */
  ghost predicate MemberInv(log: History, m: Member)
    requires WellFormed(log)
  {
    && m.seen <= log && WellFormed(m.seen) && Settled(m.seen, m.shadow)
    && Stored(m.state) && Stored(m.shadow)
    && Alike(m.state.cells, m.shadow.cells) && m.state.pending == m.shadow.pending
  }

  /** The characters op needs are ones the log can place. */
  ghost predicate Founded(log: History, op: Op) {
    && (op.text != "" ==> op.after == ROOT || Present(log, op.after))
    && forall x :: op.Deletes(x) ==> Present(log, x)
  }

  /** Whatever a writer minted is in that writer's own replica. */
  ghost predicate Owned(sys: System, op: Op) {
    op.text != "" ==>
      op.id.replica in sys.members &&
      forall x :: op.Inserts(x) ==> Has(sys.members[op.id.replica].shadow.cells, x)
  }

  ghost predicate Inv(sys: System) {
    && WellFormed(sys.log)
    && (forall name :: name in sys.members ==> MemberInv(sys.log, sys.members[name]))
    && forall op :: op in sys.log ==> Founded(sys.log, op) && Owned(sys, op)
  }

  lemma FoundedGrows(h: History, k: History, op: Op)
    requires h <= k && Founded(h, op)
    ensures Founded(k, op)
  {
    if op.text != "" && op.after != ROOT { PresentGrows(h, k, op.after); }
    forall x | op.Deletes(x) ensures Present(k, x) { PresentGrows(h, k, x); }
  }

  lemma OwnedGrows(sys: System, next: System, op: Op)
    requires Owned(sys, op)
    requires forall name :: name in sys.members ==>
      (name in next.members && Grows(sys.members[name].shadow.cells, next.members[name].shadow.cells))
    ensures Owned(next, op)
  {
  }

  lemma PresentIsMinted(h: History, x: ID)
    requires Present(h, x)
    ensures exists op :: op in h && op.Inserts(x)
  {
    var op :| op in h && op.Inserts(x) && Anchored(h, op, x.clock);
  }

  /** A character the log can place that a writer's next names would include is one it already holds: there is none. */
  lemma NextNamesAreNew(sys: System, name: string, op: Op, x: ID)
    requires Inv(sys) && name in sys.members && op.id == ID(name, Clock(sys.members[name].shadow.cells) + 1)
    requires op.Inserts(x)
    ensures !Present(sys.log, x) && forall o :: o in sys.log ==> !o.Inserts(x)
  {
    forall o | o in sys.log ensures !o.Inserts(x) {
      assert Owned(sys, o);
    }
    if Present(sys.log, x) { PresentIsMinted(sys.log, x); }
  }

  /** What a member holds still waits after it mints new names. */
  lemma HeldStillWaits(sys: System, name: string, op: Op, held: Op)
    requires Inv(sys) && name in sys.members && op.id == ID(name, Clock(sys.members[name].shadow.cells) + 1)
    requires held in sys.members[name].shadow.pending
    ensures LocalEdits.StillWaits(sys.members[name].shadow.cells, held, op)
  {
    var cells := sys.members[name].shadow.cells;
    assert MemberInv(sys.log, sys.members[name]);
    assert Blocked(cells, held) && Founded(sys.log, held);
    if held.text != "" {
      if op.Inserts(held.after) { NextNamesAreNew(sys, name, op, held.after); }
    } else {
      var x :| held.Deletes(x) && !Has(cells, x);
      if op.Inserts(x) { NextNamesAreNew(sys, name, op, x); }
    }
  }

  /** The system after a member applies an op, made by it or received. */
  ghost function Applied(sys: System, name: string, op: Op): System
    requires name in sys.members
  {
    var m := sys.members[name];
    System(sys.log + {op}, sys.members[name := Member(Apply(m.state, op).state, Apply(m.shadow, op).state, m.seen + {op})])
  }

  /** op is already in the log, or the member itself just made it out of what it holds. */
  ghost predicate Admissible(sys: System, name: string, op: Op)
    requires name in sys.members
  {
    op in sys.log ||
    (WellFormed(sys.log + {op}) && Founded(sys.log, op) && !Blocked(sys.members[name].shadow.cells, op)
     && (op.text != "" ==> op.id.replica == name))
  }

  lemma MemberApplies(log: History, m: Member, op: Op)
    requires WellFormed(log + {op}) && WellFormed(log) && MemberInv(log, m)
    ensures Apply(m.state, op).ok && Apply(m.shadow, op).ok
    ensures MemberInv(log + {op}, Member(Apply(m.state, op).state, Apply(m.shadow, op).state, m.seen + {op}))
    ensures Grows(m.shadow.cells, Apply(m.shadow, op).state.cells)
  {
    SubHistory(m.seen + {op}, log + {op});
    ApplySettles(m.seen, m.shadow, op);
    AlikeApply(m.state, m.shadow, op);
    ApplyStored(m.state, op);
    ApplyStored(m.shadow, op);
  }

  /** An op that is not blocked is integrated by applying it. */
  lemma OwnApplied(h: History, s: State, op: Op)
    requires WellFormed(h + {op}) && WellFormed(h) && Settled(h, s) && !Blocked(s.cells, op) && op.text != ""
    ensures forall x :: op.Inserts(x) ==> Has(Apply(s, op).state.cells, x)
  {
    ApplySettles(h, s, op);
    var t := Apply(s, op).state;
    if op.after != ROOT { assert Has(s.cells, op.after); }
    assert !Blocked(t.cells, op);
    assert op in h + {op};
    assert Integrated(t.cells, op);
  }

  lemma MemberStays(log: History, next: History, m: Member)
    requires log <= next && WellFormed(next) && WellFormed(log) && MemberInv(log, m)
    ensures MemberInv(next, m)
  {
    hide Settled;
  }

  lemma LogGrows(sys: System, next: System)
    requires Inv(sys) && sys.log <= next.log && WellFormed(next.log)
    requires forall name :: name in sys.members ==>
      (name in next.members && Grows(sys.members[name].shadow.cells, next.members[name].shadow.cells))
    ensures forall op :: op in sys.log ==> Founded(next.log, op) && Owned(next, op)
  {
    forall op | op in sys.log ensures Founded(next.log, op) && Owned(next, op) {
      FoundedGrows(sys.log, next.log, op);
      OwnedGrows(sys, next, op);
    }
  }

  lemma AppliedMembers(sys: System, name: string, op: Op)
    requires Inv(sys) && name in sys.members && WellFormed(sys.log + {op})
    ensures var next := Applied(sys, name, op);
            forall other :: other in next.members ==> MemberInv(next.log, next.members[other])
    ensures Apply(sys.members[name].state, op).ok
    ensures Grows(sys.members[name].shadow.cells, Apply(sys.members[name].shadow, op).state.cells)
  {
    hide Settled;
    var next := Applied(sys, name, op);
    MemberApplies(sys.log, sys.members[name], op);
    forall other | other in next.members ensures MemberInv(next.log, next.members[other]) {
      if other != name { MemberStays(sys.log, next.log, sys.members[other]); }
    }
  }

  lemma AppliedOwned(sys: System, name: string, op: Op)
    requires Inv(sys) && name in sys.members && WellFormed(sys.log + {op}) && !Blocked(sys.members[name].shadow.cells, op)
    requires op.text != "" ==> op.id.replica == name
    ensures Owned(Applied(sys, name, op), op)
  {
    var m := sys.members[name];
    assert MemberInv(sys.log, m);
    if op.text != "" {
      SubHistory(m.seen + {op}, sys.log + {op});
      OwnApplied(m.seen, m.shadow, op);
    }
  }

  lemma AppliedKeeps(sys: System, name: string, op: Op)
    requires Inv(sys) && name in sys.members && Admissible(sys, name, op)
    ensures Inv(Applied(sys, name, op)) && Apply(sys.members[name].state, op).ok
  {
    hide Settled;
    hide MemberInv;
    hide Blocked;
    var next := Applied(sys, name, op);
    if op in sys.log {
      assert sys.log + {op} == sys.log;
    } else {
      AppliedOwned(sys, name, op);
      FoundedGrows(sys.log, next.log, op);
    }
    AppliedMembers(sys, name, op);
    LogGrows(sys, next);
  }

  lemma PresentInLog(log: History, m: Member, x: ID)
    requires WellFormed(log) && MemberInv(log, m) && Has(m.shadow.cells, x)
    ensures Present(log, x) && ValidName(x)
  {
    var i :| 0 <= i < |m.shadow.cells| && m.shadow.cells[i].id == x;
    assert Faithful(m.seen, m.shadow.cells[i]) && ValidName(m.shadow.cells[i].id);
    PresentGrows(m.seen, log, x);
  }

  lemma AgreesWithLog(log: History, op: Op)
    requires WellFormed(log) && Sane(op)
    requires forall x, o :: op.Inserts(x) && o in log ==> !o.Inserts(x)
    ensures WellFormed(log + {op})
  {
    hide Sane;
  }

  /** A local insert goes after the start or a character the member holds, and is named past all it holds. */
  lemma InsertAnchored(log: History, m: Member, name: string, position: nat, text: string)
    requires WellFormed(log) && MemberInv(log, m) && position <= |Visible(m.state.cells)|
    ensures var op := LocalEdits.InsertOp(m.state, name, position, text);
            && op.id == ID(name, Clock(m.shadow.cells) + 1)
            && (op.after == ROOT || (Present(log, op.after) && Has(m.shadow.cells, op.after)))
            && op.after.clock < op.id.clock
  {
    hide Settled;
    var op := LocalEdits.InsertOp(m.state, name, position, text);
    AlikeReads(m.state.cells, m.shadow.cells);
    if position > 0 {
      var i := LocalEdits.VisibleIsThere(m.shadow.cells, position - 1);
      assert m.shadow.cells[i].id == op.after;
      PresentInLog(log, m, op.after);
    }
  }

  /** The op a member makes of a local insert may be added to the log. */
  lemma InsertAdmissible(sys: System, name: string, position: nat, text: string)
    requires Inv(sys) && name in sys.members && position <= |Visible(sys.members[name].state.cells)| && text != ""
    requires LocalEdits.InsertOp(sys.members[name].state, name, position, text).Valid()
    ensures Admissible(sys, name, LocalEdits.InsertOp(sys.members[name].state, name, position, text))
  {
    hide Settled;
    var m := sys.members[name];
    var op := LocalEdits.InsertOp(m.state, name, position, text);
    InsertAnchored(sys.log, m, name, position, text);
    forall x, o | op.Inserts(x) && o in sys.log ensures !o.Inserts(x) { NextNamesAreNew(sys, name, op, x); }
    AgreesWithLog(sys.log, op);
  }

  lemma RemoveAdmissible(sys: System, name: string, position: nat, length: nat)
    requires Inv(sys) && name in sys.members
    requires length > 0 && position + length <= |Visible(sys.members[name].state.cells)|
    ensures Admissible(sys, name, LocalEdits.RemoveOp(sys.members[name].state, position, length))
  {
    var m := sys.members[name];
    var op := LocalEdits.RemoveOp(m.state, position, length);
    LocalEdits.RemoveFits(m.state, position, length);
    AlikeBlocked(m.state.cells, m.shadow.cells, op);
    forall x | op.Deletes(x) ensures Present(sys.log, x) { PresentInLog(sys.log, m, x); }
    AgreesWithLog(sys.log, op);
  }

  lemma JoinKeeps(sys: System, name: string)
    requires Inv(sys) && name !in sys.members
    ensures Inv(Next(sys, Join(name)))
  {
    var next := Next(sys, Join(name));
    TreeGrown({});
    LogGrows(sys, next);
    forall other | other in next.members ensures MemberInv(next.log, next.members[other]) {
      if other != name { assert MemberInv(sys.log, sys.members[other]); }
    }
  }

  lemma MemberReloads(log: History, m: Member)
    requires WellFormed(log) && MemberInv(log, m) && m.state.pending == []
    ensures MemberInv(log, Reloaded(m))
  {
    hide Settled;
    var loaded := ExpandAll(Runs(m.state.cells));
    SnapshotExpands(m.state.cells);
    AlikeFlips(loaded, m.state.cells);
    AlikeStorable(m.state.cells, loaded);
    AlikeTransitive(loaded, m.state.cells, m.shadow.cells);
  }

  lemma ReloadKeeps(sys: System, name: string)
    requires Inv(sys) && name in sys.members && sys.members[name].state.pending == []
    ensures Inv(Next(sys, Reload(name)))
  {
    hide Settled;
    var next := Next(sys, Reload(name));
    LogGrows(sys, next);
    MemberReloads(sys.log, sys.members[name]);
    hide MemberInv;
    forall other | other in next.members ensures MemberInv(next.log, next.members[other]) {
      if other != name { assert MemberInv(sys.log, sys.members[other]); }
    }
  }

  lemma OpenKeeps(sys: System, name: string, from: string)
    requires Inv(sys) && name !in sys.members && from in sys.members && sys.members[from].state.pending == []
    ensures Inv(Next(sys, Open(name, from)))
  {
    hide Settled;
    var next := Next(sys, Open(name, from));
    LogGrows(sys, next);
    MemberReloads(sys.log, sys.members[from]);
    hide MemberInv;
    forall other | other in next.members ensures MemberInv(next.log, next.members[other]) {
      if other != name { assert MemberInv(sys.log, sys.members[other]); }
    }
  }

  lemma AlikeFlips(a: seq<Cell>, b: seq<Cell>)
    requires Alike(a, b)
    ensures Alike(b, a)
  {
  }

  lemma AlikeTransitive(a: seq<Cell>, b: seq<Cell>, c: seq<Cell>)
    requires Alike(a, b) && Alike(b, c)
    ensures Alike(a, c)
  {
    forall i | 0 <= i < |a|
      ensures a[i].id == c[i].id && a[i].deleted == c[i].deleted && (!a[i].deleted ==> a[i].value == c[i].value)
    {
      assert a[i].id == b[i].id && b[i].id == c[i].id;
    }
  }

  lemma PublishKeeps(sys: System, name: string, e: LocalEdits.Edited, op: Op)
    requires Inv(sys) && name in sys.members
    requires var r := Apply(sys.members[name].state, op);
             e == LocalEdits.Edited(r.state, if r.ok then [op] else [], r.ok)
    requires op.Valid() ==> Admissible(sys, name, op)
    ensures Inv(Publish(sys, name, e)) && e.ok == op.Valid()
  {
    var m := sys.members[name];
    if op.Valid() {
      AppliedKeeps(sys, name, op);
      assert Publish(sys, name, e) == Applied(sys, name, op);
    } else {
      assert e.state == m.state;
      Unchanged(sys, name);
    }
  }

  lemma Unchanged(sys: System, name: string)
    requires name in sys.members
    ensures Publish(sys, name, LocalEdits.Edited(sys.members[name].state, [], false)) == sys
  {
    assert sys.members[name := sys.members[name]] == sys.members;
  }

  lemma InsertKeeps(sys: System, name: string, position: int, text: string)
    requires Inv(sys)
    ensures Inv(Next(sys, Insert(name, position, text)))
  {
    hide Inv;
    if name in sys.members {
      var s := sys.members[name].state;
      if !ValidReplica(name) || position < 0 || position > |Text(s.cells)| || text == "" {
        Unchanged(sys, name);
      } else {
        var op := LocalEdits.InsertOp(s, name, position, text);
        if op.Valid() { InsertAdmissible(sys, name, position, text); }
        PublishKeeps(sys, name, LocalEdits.Insert(s, name, position, text), op);
      }
    }
  }

  lemma RemoveKeeps(sys: System, name: string, position: int, length: int)
    requires Inv(sys)
    ensures Inv(Next(sys, Remove(name, position, length)))
  {
    hide Inv;
    if name in sys.members {
      var s := sys.members[name].state;
      if position < 0 || length <= 0 || position + length > |Text(s.cells)| {
        Unchanged(sys, name);
      } else {
        RemoveAdmissible(sys, name, position, length);
        PublishKeeps(sys, name, LocalEdits.Remove(s, position, length), LocalEdits.RemoveOp(s, position, length));
      }
    }
  }

  lemma PublishLeaves(sys: System, name: string, e: LocalEdits.Edited)
    requires name in sys.members && |e.ops| <= 1
    ensures var next := Publish(sys, name, e);
            name in next.members && next.members[name].state == e.state && next.log == sys.log + (set op | op in e.ops)
  {
  }

  /** A replacement is a removal and an insert, each left out when it has nothing to do. */
  lemma ReplacedKeeps(sys: System, name: string, text: string)
    requires Inv(sys) && name in sys.members
    ensures Inv(Replaced(sys, name, text))
  {
    hide Inv;
    hide Text;
    hide Publish;
    hide LocalEdits.Insert;
    hide LocalEdits.Remove;
    hide LocalEdits.KeptPrefix;
    hide LocalEdits.KeptSuffix;
    var s := sys.members[name].state;
    var current := Text(s.cells);
    var p, q := LocalEdits.KeptPrefix(current, text), LocalEdits.KeptSuffix(current, text);
    var cut := sys;
    if |current| > p + q {
      LocalEdits.OneOp(s, name, p, |current| - p - q, "");
      PublishLeaves(sys, name, LocalEdits.Remove(s, p, |current| - p - q));
      RemoveKeeps(sys, name, p, |current| - p - q);
      cut := Next(sys, Remove(name, p, |current| - p - q));
    }
    if |text| > p + q { InsertKeeps(cut, name, p, text[p..|text| - q]); }
  }

  /** Every step keeps the log well formed and every member settled in what it has received. */
  lemma StepKeeps(sys: System, step: Step)
    requires Inv(sys)
    ensures Inv(Next(sys, step))
  {
    hide Inv;
    match step
    case Join(name) => if name !in sys.members { JoinKeeps(sys, name); }
    case Open(name, from) =>
      if name !in sys.members && from in sys.members && sys.members[from].state.pending == [] { OpenKeeps(sys, name, from); }
    case Reload(name) => if name in sys.members && sys.members[name].state.pending == [] { ReloadKeeps(sys, name); }
    case Deliver(name, op) =>
      if name in sys.members && op in sys.log {
        AppliedKeeps(sys, name, op);
        assert sys.log + {op} == sys.log;
      }
    case Insert(name, position, text) => InsertKeeps(sys, name, position, text);
    case Remove(name, position, length) => RemoveKeeps(sys, name, position, length);
    case Replace(name, text) =>
      if name in sys.members { ReplacedKeeps(sys, name, text); }
  }

  lemma StartHolds()
    ensures Inv(START)
  {
  }

  lemma {:induction false} PlayKeeps(sys: System, steps: seq<Step>)
    requires Inv(sys)
    ensures Inv(Play(sys, steps))
    decreases |steps|
  {
    if steps != [] {
      StepKeeps(sys, steps[0]);
      PlayKeeps(Next(sys, steps[0]), steps[1..]);
    }
  }

  // ----- what writers can rely on -----

  /** Every member reads the document of the edits it has received, whatever order they came in. */
  lemma EveryMemberReadsItsDocument(steps: seq<Step>, name: string)
    requires name in Play(START, steps).members
    ensures var m := Play(START, steps).members[name];
            && WellFormed(m.seen) && Alike(m.state.cells, Document(m.seen))
            && Text(m.state.cells) == Text(Document(m.seen))
  {
    StartHolds();
    PlayKeeps(START, steps);
    var sys := Play(START, steps);
    var m := sys.members[name];
    assert MemberInv(sys.log, m);
    SettledIsDocument(m.seen, m.shadow);
    AlikeReads(m.state.cells, m.shadow.cells);
  }

  lemma FoundedNotBlocked(h: History, s: State, op: Op)
    requires WellFormed(h) && Settled(h, s) && Founded(h, op)
    ensures !Blocked(s.cells, op)
  {
    hide Sound;
    if op.text != "" {
      if op.after != ROOT { PresentIsHeld(h, s, op.after); }
    } else {
      forall x | op.Deletes(x) ensures Has(s.cells, x) { PresentIsHeld(h, s, x); }
    }
  }

  /** Once a member has received every edit it holds none back, and reads the document of the whole log. */
  lemma NothingHeldAtTheEnd(steps: seq<Step>, name: string)
    requires name in Play(START, steps).members && Play(START, steps).members[name].seen == Play(START, steps).log
    ensures var sys := Play(START, steps);
            && sys.members[name].state.pending == []
            && WellFormed(sys.log) && Text(sys.members[name].state.cells) == Text(Document(sys.log))
  {
    hide Sound;
    StartHolds();
    PlayKeeps(START, steps);
    EveryMemberReadsItsDocument(steps, name);
    var sys := Play(START, steps);
    var m := sys.members[name];
    assert MemberInv(sys.log, m);
    if m.shadow.pending != [] { FoundedNotBlocked(m.seen, m.shadow, m.shadow.pending[0]); }
  }

  lemma NothingHeldWaitsForIt(sys: System, name: string, op: Op, i: nat)
    requires Inv(sys) && name in sys.members && op.id == ID(name, Clock(sys.members[name].state.cells) + 1)
    requires i < |sys.members[name].state.pending|
    ensures LocalEdits.StillWaits(sys.members[name].state.cells, sys.members[name].state.pending[i], op)
  {
    var m := sys.members[name];
    assert MemberInv(sys.log, m);
    AlikeReads(m.state.cells, m.shadow.cells);
    HeldStillWaits(sys, name, op, m.state.pending[i]);
    hide Inv;
    forall x ensures Has(m.state.cells, x) <==> Has(m.shadow.cells, x) { AlikeHas(m.state.cells, m.shadow.cells, x); }
    LocalEdits.StaysWaiting(m.shadow, m.state, m.state.pending[i], op, op);
  }

  /** In a running system an insert inside the text succeeds exactly when the clocks have room, and reads as the splice. */
  lemma InsertMeansSplice(steps: seq<Step>, name: string, position: nat, text: string)
    requires name in Play(START, steps).members && ValidReplica(name) && text != ""
    requires position <= |Text(Play(START, steps).members[name].state.cells)|
    ensures var sys := Play(START, steps);
            var before := Text(sys.members[name].state.cells);
            var after := Text(Next(sys, Insert(name, position, text)).members[name].state.cells);
            after == if Clock(sys.members[name].state.cells) + 1 + |text| <= MAX_CLOCK
                     then before[..position] + text + before[position..] else before
  {
    hide Settled;
    StartHolds();
    PlayKeeps(START, steps);
    var sys := Play(START, steps);
    var m := sys.members[name];
    assert Stored(m.state) by { assert MemberInv(sys.log, m); }
    var op := LocalEdits.InsertOp(m.state, name, position, text);
    forall i | 0 <= i < |m.state.pending| ensures LocalEdits.StillWaits(m.state.cells, m.state.pending[i], op) {
      NothingHeldWaitsForIt(sys, name, op, i);
    }
    hide Play;
    LocalEdits.InsertDecides(m.state, name, position, text);
  }

  /** In a running system a member's state can be stored, and what it holds back waits for something missing. */
  lemma MembersAreSound(sys: System, name: string)
    requires Inv(sys) && name in sys.members
    ensures var s := sys.members[name].state;
            Stored(s) && forall i :: 0 <= i < |s.pending| ==> Blocked(s.cells, s.pending[i])
  {
    var m := sys.members[name];
    assert MemberInv(sys.log, m);
    hide Inv;
    forall i | 0 <= i < |m.state.pending| ensures Blocked(m.state.cells, m.state.pending[i]) {
      AlikeBlocked(m.state.cells, m.shadow.cells, m.state.pending[i]);
    }
  }

  /** In a running system a removal inside the text cuts out its range. */
  lemma RemoveMeansCut(steps: seq<Step>, name: string, position: nat, length: nat)
    requires name in Play(START, steps).members && length > 0
    requires position + length <= |Text(Play(START, steps).members[name].state.cells)|
    ensures var sys := Play(START, steps);
            var before := Text(sys.members[name].state.cells);
            var next := Next(sys, Remove(name, position, length));
            && name in next.members
            && Text(next.members[name].state.cells) == before[..position] + before[position + length..]
  {
    hide Play;
    hide Inv;
    hide LocalEdits.Remove;
    hide Text;
    StartHolds();
    PlayKeeps(START, steps);
    var sys := Play(START, steps);
    MembersAreSound(sys, name);
    LocalEdits.RemoveReads(sys.members[name].state, position, length);
  }

  /**
   In a running system a replacement makes the member read the new text, exactly when there is
   nothing to insert or the writer's name is valid and the clocks have room.
   */
  lemma ReplaceMeansText(steps: seq<Step>, name: string, text: string)
    requires name in Play(START, steps).members
    ensures var sys := Play(START, steps);
            var s := sys.members[name].state;
            var n := |text| - LocalEdits.KeptPrefix(Text(s.cells), text) - LocalEdits.KeptSuffix(Text(s.cells), text);
            var done := n == 0 || (ValidReplica(name) && Clock(s.cells) + 1 + n <= MAX_CLOCK);
            var next := Next(sys, Replace(name, text));
            && name in next.members
            && (done <==> LocalEdits.Replace(s, name, text).ok)
            && next.members[name].state == (if done then LocalEdits.Replace(s, name, text).state else s)
            && next.log == (if done then sys.log + (set op | op in LocalEdits.Replace(s, name, text).ops) else sys.log)
            && Text(next.members[name].state.cells) == (if done then text else Text(s.cells))
  {
    hide Play;
    hide Inv;
    hide Text;
    hide Replaced;
    hide LocalEdits.Replace;
    hide LocalEdits.KeptPrefix;
    hide LocalEdits.KeptSuffix;
    hide ValidReplica;
    hide Stored;
    hide Blocked;
    StartHolds();
    PlayKeeps(START, steps);
    var sys := Play(START, steps);
    var s := sys.members[name].state;
    MembersAreSound(sys, name);
    var inserted := text[LocalEdits.KeptPrefix(Text(s.cells), text)..|text| - LocalEdits.KeptSuffix(Text(s.cells), text)];
    forall i | 0 <= i < |s.pending|
      ensures LocalEdits.StillWaits(s.cells, s.pending[i], LocalEdits.Next(s, name, inserted))
    {
      NothingHeldWaitsForIt(sys, name, LocalEdits.Next(s, name, inserted), i);
    }
    LocalEdits.ReplaceReads(s, name, text);
    if LocalEdits.Replace(s, name, text).ok { ReplacedIsReplace(sys, name, text); }
  }

  /** Published in two halves, a replacement that is accepted leaves what the call leaves, and its ops in the log. */
  lemma ReplacedIsReplace(sys: System, name: string, text: string)
    requires name in sys.members && LocalEdits.Replace(sys.members[name].state, name, text).ok
    ensures var r := LocalEdits.Replace(sys.members[name].state, name, text);
            && name in Replaced(sys, name, text).members && Replaced(sys, name, text).members[name].state == r.state
            && Replaced(sys, name, text).log == sys.log + (set op | op in r.ops)
  {
    hide LocalEdits.Insert;
    hide LocalEdits.Remove;
    hide LocalEdits.KeptPrefix;
    hide LocalEdits.KeptSuffix;
    hide Text;
    hide Publish;
    var s := sys.members[name].state;
    var current := Text(s.cells);
    var p, q := LocalEdits.KeptPrefix(current, text), LocalEdits.KeptSuffix(current, text);
    var cut := sys;
    if |current| > p + q {
      var first := LocalEdits.Remove(s, p, |current| - p - q);
      LocalEdits.OneOp(s, name, p, |current| - p - q, "");
      PublishLeaves(sys, name, first);
      cut := Publish(sys, name, first);
    }
    if |text| > p + q {
      var inserted := text[p..|text| - q];
      LocalEdits.OneOp(cut.members[name].state, name, p, 0, inserted);
      PublishLeaves(cut, name, LocalEdits.Insert(cut.members[name].state, name, p, inserted));
    }
  }
}
