/** The replica as it is kept: a linked list of characters, found by name through a map. */
module Sequences {
  import opened Identifiers
  import opened Operations
  import opened Replica
  import opened Snapshots
  import opened Reloading
  import LocalEdits

  lemma {:induction false} ClockJoin(a: seq<Cell>, b: seq<Cell>)
    ensures Clock(a + b) == if Clock(a) > Clock(b) then Clock(a) else Clock(b)
  {
    if a == [] {
      assert a + b == b;
    } else {
      assert (a + b)[1..] == a[1..] + b;
      ClockJoin(a[1..], b);
    }
  }

  /** A new visible character is one more to read, and the clock is the highest seen. */
  lemma InsertAtCounts(cells: seq<Cell>, k: nat, c: Cell)
    requires k <= |cells|
    ensures |Visible(InsertAt(cells, k, c))| == |Visible(cells)| + if c.deleted then 0 else 1
    ensures Clock(InsertAt(cells, k, c)) == if Clock(cells) > c.id.clock then Clock(cells) else c.id.clock
  {
    assert cells == cells[..k] + cells[k..];
    LocalEdits.VisibleJoin(cells[..k], cells[k..]);
    LocalEdits.VisibleJoin(cells[..k], [c]);
    LocalEdits.VisibleJoin(cells[..k] + [c], cells[k..]);
    ClockJoin(cells[..k], cells[k..]);
    ClockJoin(cells[..k], [c]);
    ClockJoin(cells[..k] + [c], cells[k..]);
  }

  /** A new tombstone is one less to read if it was read, and moves no clock. */
  lemma MarkCounts(cells: seq<Cell>, k: nat)
    requires k < |cells|
    ensures var r := cells[k := cells[k].(deleted := true)];
            && |Visible(r)| == |Visible(cells)| - (if cells[k].deleted then 0 else 1)
            && Clock(r) == Clock(cells)
  {
    var c := cells[k];
    var front, back := cells[..k], cells[k + 1..];
    assert cells == InsertAt(front + back, k, c);
    assert cells[k := c.(deleted := true)] == InsertAt(front + back, k, c.(deleted := true));
    InsertAtCounts(front + back, k, c);
    InsertAtCounts(front + back, k, c.(deleted := true));
  }

  class Node {
    const id: ID
    const value: char
    var deleted: bool
    var next: Node?

    constructor (id: ID, value: char, deleted: bool, next: Node?)
      ensures this.id == id && this.value == value && this.deleted == deleted && this.next == next
    {
      this.id, this.value, this.deleted, this.next := id, value, deleted, next;
    }
  }

  class Sequence {
    var head: Node
    var nodes: map<ID, Node>
    var clock: nat
    var visible: int
    var pending: seq<Op>
    /** The nodes in list order, the head first, and the characters the others hold. */
    ghost var chain: seq<Node>
    ghost var cells: seq<Cell>

    ghost function State(): Replica.State
      reads this`cells, this`pending
    {
      Replica.State(cells, pending)
    }

    ghost function Repr(): set<object>
      reads this`chain
    {
      var objects: set<object> := set n | n in chain;
      objects + {this}
    }

    /** The list runs from the head through the chain, no node twice. */
    ghost predicate Chained()
      reads this`head, this`chain, chain
    {
      && |chain| > 0 && chain[0] == head && head.id == ROOT
      && Once(chain)
      && (forall i :: 0 <= i < |chain| - 1 ==> chain[i].next == chain[i + 1])
      && chain[|chain| - 1].next == null
    }

    static ghost predicate Once(chain: seq<Node>) {
      forall i, j :: 0 <= i < j < |chain| ==> chain[i] != chain[j]
    }

    static lemma OnceAfter(chain: seq<Node>, k: nat, n: Node)
      requires Once(chain) && k < |chain| && n !in chain
      ensures Once(chain[..k + 1] + [n] + chain[k + 1..])
      ensures forall i :: 0 <= i < |chain| && i != k ==> chain[i] != chain[k]
    {
    }

    /** The nodes past the head carry the cells' names and values, and the map finds each by its name. */
    static ghost predicate Named(chain: seq<Node>, cells: seq<Cell>, nodes: map<ID, Node>) {
      && |chain| == |cells| + 1
      && (forall i :: 0 <= i < |cells| ==> cells[i].id in nodes && nodes[cells[i].id] == chain[i + 1])
      && (forall i :: 0 <= i < |cells| ==> chain[i + 1].id == cells[i].id && chain[i + 1].value == cells[i].value)
      && (forall x :: x in nodes ==> Has(cells, x))
    }

    /** The nodes past the head are tombstones where the cells are. */
    ghost predicate Flagged()
      requires |chain| == |cells| + 1
      reads this`chain, this`cells, chain
    {
      forall i :: 0 <= i < |cells| ==> chain[i + 1].deleted == cells[i].deleted
    }

    ghost predicate Linked()
      reads this`head, this`nodes, this`chain, this`cells, chain
    {
      |chain| == |cells| + 1 && Chained() && Named(chain, cells, nodes) && Flagged()
    }

    ghost predicate Counted()
      reads this`clock, this`visible, this`cells
    {
      clock == Clock(cells) && visible == |Visible(cells)|
    }

    ghost predicate Valid()
      reads this, chain
    {
      Linked() && Counted() && Stored(State())
    }

    constructor ()
      ensures Valid() && fresh(Repr()) && State() == EMPTY && EndsAt(head)
    {
      var start := new Node(ROOT, '\0', false, null);
      head := start;
      nodes, clock, visible, pending := map[], 0, 0, [];
      chain, cells := [start], [];
    }

    lemma Found(x: ID)
      requires Linked()
      ensures Has(cells, x) <==> x in nodes
      ensures |chain| == |cells| + 1 && Distinct(cells)
      ensures Has(cells, x) ==> nodes[x] == chain[IndexOf(cells, x) + 1]
    {
    }

    static lemma NamedAfter(chain: seq<Node>, cells: seq<Cell>, nodes: map<ID, Node>, k: nat, n: Node, c: Cell)
      requires Named(chain, cells, nodes) && k < |chain| && n.id == c.id && n.value == c.value && c.id !in nodes
      ensures Named(chain[..k + 1] + [n] + chain[k + 1..], InsertAt(cells, k, c), nodes[c.id := n])
    {
      hide InsertAt;
      InsertAtPlaces(cells, k, c);
      var r, longer := InsertAt(cells, k, c), chain[..k + 1] + [n] + chain[k + 1..];
      forall x | x in nodes[c.id := n] ensures Has(r, x) {
        if x == c.id {
          assert r[k].id == x;
        } else {
          var i :| 0 <= i < |cells| && cells[i].id == x;
          assert r[if i < k then i else i + 1].id == x;
        }
      }
      forall i | 0 <= i < |r|
        ensures r[i].id in nodes[c.id := n] && nodes[c.id := n][r[i].id] == longer[i + 1]
        ensures longer[i + 1].id == r[i].id && longer[i + 1].value == r[i].value
      {
        if i < k {
          assert longer[i + 1] == chain[i + 1] && r[i] == cells[i];
        } else if i == k {
          assert longer[i + 1] == n && r[i] == c;
        } else {
          assert longer[i + 1] == chain[i] && r[i] == cells[i - 1];
        }
      }
    }

    /** Put a new character after the node at place k. */
    method Link(previous: Node, ghost k: nat, id: ID, value: char, deleted: bool) returns (inserted: Node)
      requires Linked() && k < |chain| && previous == chain[k] && id !in nodes
      modifies this`nodes, this`chain, this`cells, previous`next
      ensures Linked() && fresh(inserted) && Repr() == old(Repr()) + {inserted}
      ensures cells == InsertAt(old(cells), k, Cell(id, value, deleted))
      ensures chain == old(chain)[..k + 1] + [inserted] + old(chain)[k + 1..]
    {
      hide Named;
      hide Once;
      hide InsertAt;
      ghost var was := chain;
      inserted := new Node(id, value, deleted, previous.next);
      NamedAfter(chain, cells, nodes, k, inserted, Cell(id, value, deleted));
      OnceAfter(chain, k, inserted);
      InsertAtPlaces(cells, k, Cell(id, value, deleted));
      previous.next := inserted;
      nodes := nodes[id := inserted];
      chain := chain[..k + 1] + [inserted] + chain[k + 1..];
      cells := InsertAt(cells, k, Cell(id, value, deleted));
      assert Repr() == old(Repr()) + {inserted} by {
        assert was == was[..k + 1] + was[k + 1..];
        assert forall n :: n in chain <==> n in was || n == inserted;
      }
      assert Chained() by {
        forall i | 0 <= i < |chain| - 1 ensures chain[i].next == chain[i + 1] {
          if i < k {
            assert chain[i] == was[i] != was[k] && chain[i + 1] == was[i + 1];
          } else if i == k {
            assert chain[i] == previous && chain[i + 1] == inserted;
          } else if i == k + 1 {
            assert chain[i] == inserted && chain[i + 1] == was[k + 1];
          } else {
            assert chain[i] == was[i - 1] != was[k] && chain[i + 1] == was[i];
          }
        }
        assert chain[|chain| - 1].next == null by { assert k == |was| - 1 || chain[|chain| - 1] == was[|was| - 1]; }
      }
      assert Flagged() by {
        forall i | 0 <= i < |cells| ensures chain[i + 1].deleted == cells[i].deleted {
          if i < k {
            assert chain[i + 1] == was[i + 1] && cells[i] == old(cells)[i];
          } else if i > k {
            assert chain[i + 1] == was[i] && cells[i] == old(cells)[i - 1];
          }
        }
      }
    }

    /** Turn the k-th character into a tombstone. */
    method Mark(target: Node, ghost k: nat)
      requires Linked() && k < |cells| && target == chain[k + 1]
      modifies this`cells, target`deleted
      ensures Linked() && cells == old(cells)[k := old(cells)[k].(deleted := true)]
    {
      hide Named;
      target.deleted := true;
      NamedStruck(chain, cells, nodes, k);
      cells := cells[k := cells[k].(deleted := true)];
    }

    static lemma NamedStruck(chain: seq<Node>, cells: seq<Cell>, nodes: map<ID, Node>, k: nat)
      requires Named(chain, cells, nodes) && k < |cells|
      ensures Named(chain, cells[k := cells[k].(deleted := true)], nodes)
    {
      var r := cells[k := cells[k].(deleted := true)];
      forall x | x in nodes ensures Has(r, x) {
        var i :| 0 <= i < |cells| && cells[i].id == x;
        assert r[i].id == x;
      }
    }

    /** Pass the characters inserted at the same place with a greater name. */
    method Skip(after: Node, ghost from: nat, id: ID) returns (previous: Node, ghost k: nat)
      requires Linked() && from < |chain| && after == chain[from]
      ensures k == Slot(cells, from, id) && k < |chain| && previous == chain[k]
    {
      hide Named;
      previous, k := after, from;
      while previous.next != null && Less(id, previous.next.id)
        invariant from <= k <= |cells| && previous == chain[k]
        invariant Slot(cells, from, id) == Slot(cells, k, id)
        decreases |cells| - k
      {
        NextCell(k);
        previous := previous.next;
        k := k + 1;
      }
      NextCell(k);
    }

    /** Put a new character where the skip loop stops. */
    method Place(after: Node, ghost from: nat, id: ID, value: char) returns (inserted: Node)
      requires Valid() && from < |chain| && after == chain[from] && id !in nodes && ValidName(id)
      modifies Repr()
      ensures Valid() && fresh(Repr() - old(Repr())) && head == old(head) && pending == old(pending)
      ensures var k := Slot(old(cells), from, id);
              && cells == InsertAt(old(cells), k, Cell(id, value, false))
              && |chain| == |cells| + 1 && inserted == chain[k + 1]
    {
      hide Named;
      hide Chained;
      hide Flagged;
      hide Visible;
      hide Clock;
      hide Slot;
      hide InsertAt;
      hide Storable;
      var previous, k := Skip(after, from, id);
      Found(id);
      InsertAtStorable(cells, k, Cell(id, value, false));
      InsertAtCounts(cells, k, Cell(id, value, false));
      inserted := Link(previous, k, id, value, false);
      visible := visible + 1;
      clock := if clock > id.clock then clock else id.clock;
    }

    lemma AtHead()
      requires Linked()
      ensures |chain| == |cells| + 1 && chain[0] == head && head.id == ROOT
    {
    }

    lemma NextCell(k: nat)
      requires Linked() && k < |chain|
      ensures |chain| == |cells| + 1 && chain[0] == head && chain[k].next == if k < |cells| then chain[k + 1] else null
      ensures k < |cells| ==> var n := chain[k + 1]; cells[k] == Cell(n.id, n.value, n.deleted)
    {
    }

    /** Insert the j-th character of an op after the node at a place, or pass over it if it was seen. */
    method InsertChar(op: Op, j: nat, after: Node, ghost from: nat) returns (next: Node, ghost place: nat, isNew: bool)
      requires Valid() && op.Valid() && j < |op.text| && from < |chain| && after == chain[from]
      modifies Repr()
      ensures Valid() && fresh(Repr() - old(Repr())) && head == old(head) && pending == old(pending)
      ensures place < |chain| && next == chain[place]
      ensures var rest := InsertText(cells, op, j + 1, place);
              InsertText(old(cells), op, j, from) == (rest.0, isNew || rest.1)
    {
      hide Linked;
      hide Visible;
      hide Clock;
      hide Storable;
      hide Slot;
      var id := op.CharId(j);
      Found(id);
      if id in nodes {
        next, place, isNew := nodes[id], IndexOf(cells, id) + 1, false;
      } else {
        place := Slot(cells, from, id) + 1;
        next := Place(after, from, id, op.text[j]);
        isNew := true;
      }
    }

    /** Insert an op's characters, each after the one before, passing over the ones already seen. */
    method IntegrateInsert(op: Op) returns (outcome: Outcome)
      requires Valid() && op.Valid() && op.text != ""
      modifies Repr()
      ensures Valid() && fresh(Repr() - old(Repr())) && head == old(head) && pending == old(pending)
      ensures (cells, outcome) == Replica.Integrate(old(cells), op)
    {
      hide Named;
      hide Flagged;
      hide Chained;
      hide Visible;
      hide Clock;
      hide Stored;
      hide Slot;
      hide InsertText;
      AtHead();
      var after := head;
      ghost var from: nat := 0;
      if op.after != ROOT {
        Found(op.after);
        if op.after !in nodes { return Missing; }
        after := nodes[op.after];
        from := IndexOf(cells, op.after) + 1;
        NextCell(from - 1);
      }
      if op.id.clock <= after.id.clock { return IllFormed; }
      ghost var all := InsertText(cells, op, 0, from);
      var changed := false;
      for j := 0 to |op.text|
        invariant Valid() && fresh(Repr() - old(Repr())) && head == old(head) && pending == old(pending)
        invariant from < |chain| && after == chain[from]
        invariant var rest := InsertText(cells, op, j, from);
                  all == (rest.0, changed || rest.1)
      {
        var isNew;
        after, from, isNew := InsertChar(op, j, after, from);
        changed := changed || isNew;
      }
      TextEnds(cells, op, from);
      outcome := Done(changed);
    }

    /** What of a delete the loops have struck: the spans before the i-th, and the i-th up to clock. */
    static ghost predicate Reached(op: Op, i: nat, clock: nat, x: ID)
      requires i <= |op.delete|
    {
      || (exists k :: 0 <= k < i && op.delete[k].Holds(x))
      || (i < |op.delete| && x.replica == op.delete[i].replica && op.delete[i].start <= x.clock < clock)
    }

    /** Whether every character a delete names is here. */
    method AllHere(op: Op) returns (here: bool)
      requires Linked() && op.text == ""
      ensures here <==> !Blocked(cells, op)
    {
      hide Chained;
      hide Flagged;
      for i := 0 to |op.delete|
        invariant forall x :: Reached(op, i, 0, x) ==> Has(cells, x)
      {
        var span := op.delete[i];
        var clock := span.start;
        while clock <= span.end
          invariant span.start <= clock
          invariant forall x :: Reached(op, i, clock, x) ==> Has(cells, x)
          decreases span.end - clock
        {
          var x := ID(span.replica, clock);
          Found(x);
          if x !in nodes {
            assert op.Deletes(x) by { assert span.Holds(x); }
            return false;
          }
          clock := clock + 1;
        }
      }
      forall x | op.Deletes(x) ensures Has(cells, x) { assert Reached(op, |op.delete|, 0, x); }
      here := true;
    }

    /** now is was with the reached part of a delete struck; changed tells whether any of it was still read. */
    static ghost predicate StruckSoFar(was: seq<Cell>, now: seq<Cell>, op: Op, i: nat, clock: nat, changed: bool)
      requires i <= |op.delete|
    {
      && |now| == |was|
      && (forall k :: 0 <= k < |was| ==>
            now[k] == if Reached(op, i, clock, was[k].id) then was[k].(deleted := true) else was[k])
      && (changed <==> exists k :: 0 <= k < |was| && Reached(op, i, clock, was[k].id) && !was[k].deleted)
    }

    static lemma StruckOneMore(was: seq<Cell>, now: seq<Cell>, op: Op, i: nat, clock: nat, changed: bool, k: nat)
      requires i < |op.delete| && StruckSoFar(was, now, op, i, clock, changed) && Distinct(was)
      requires k < |was| && was[k].id == ID(op.delete[i].replica, clock) && op.delete[i].start <= clock
      ensures StruckSoFar(was, now[k := now[k].(deleted := true)], op, i, clock + 1, changed || !now[k].deleted)
    {
      var next := now[k := now[k].(deleted := true)];
      forall m | 0 <= m < |was|
        ensures Reached(op, i, clock + 1, was[m].id) <==> Reached(op, i, clock, was[m].id) || m == k
      {
        assert m < k ==> was[m].id != was[k].id;
        assert k < m ==> was[k].id != was[m].id;
      }
      assert now[k].deleted <==> was[k].deleted || Reached(op, i, clock, was[k].id);
    }

    static lemma StruckStart(was: seq<Cell>, now: seq<Cell>, op: Op, i: nat, changed: bool)
      requires i < |op.delete| && StruckSoFar(was, now, op, i, 0, changed)
      ensures StruckSoFar(was, now, op, i, op.delete[i].start, changed)
    {
      forall x ensures Reached(op, i, 0, x) <==> Reached(op, i, op.delete[i].start, x) {}
    }

    static lemma StruckSpan(was: seq<Cell>, now: seq<Cell>, op: Op, i: nat, clock: nat, changed: bool)
      requires i < |op.delete| && StruckSoFar(was, now, op, i, clock, changed) && clock == op.delete[i].end + 1
      ensures StruckSoFar(was, now, op, i + 1, 0, changed)
    {
      forall x ensures Reached(op, i, clock, x) <==> Reached(op, i + 1, 0, x) {
        if Reached(op, i, clock, x) && !(exists k :: 0 <= k < i && op.delete[k].Holds(x)) { assert op.delete[i].Holds(x); }
      }
    }

    static lemma StillHere(was: seq<Cell>, now: seq<Cell>, op: Op, i: nat, clock: nat, changed: bool, x: ID)
      requires i <= |op.delete| && StruckSoFar(was, now, op, i, clock, changed) && Has(was, x)
      ensures Has(now, x) && was[IndexOf(now, x)].id == x
    {
      var k :| 0 <= k < |was| && was[k].id == x;
      assert now[k].id == x;
    }

    static lemma AllStruck(was: seq<Cell>, now: seq<Cell>, op: Op, changed: bool)
      requires StruckSoFar(was, now, op, |op.delete|, 0, changed) && op.text == "" && !Blocked(was, op)
      ensures (now, Done(changed)) == Replica.Integrate(was, op)
    {
      forall x ensures Reached(op, |op.delete|, 0, x) <==> op.Deletes(x) {}
      assert now == Strike(was, op);
    }

    /** Turn a character into a tombstone if it is not one yet. */
    method StrikeOne(x: ID) returns (changed: bool)
      requires Valid() && x in nodes
      modifies Repr()
      ensures Valid() && head == old(head) && pending == old(pending) && chain == old(chain) && nodes == old(nodes)
      ensures Has(old(cells), x)
      ensures var k := IndexOf(old(cells), x);
              cells == old(cells)[k := old(cells)[k].(deleted := true)] && changed == !old(cells)[k].deleted
    {
      hide Named;
      hide Chained;
      hide Visible;
      hide Clock;
      Found(x);
      ghost var k := IndexOf(cells, x);
      var target := nodes[x];
      MarkCounts(cells, k);
      changed := !target.deleted;
      if changed {
        StrikeStorable(cells, k);
        Mark(target, k);
        visible := visible - 1;
      }
      assert x.clock <= clock by { ClockBounds(cells, k); }
      clock := if clock > x.clock then clock else x.clock;
      assert !changed ==> cells == old(cells)[k := old(cells)[k].(deleted := true)];
    }

    static lemma ClockBounds(cells: seq<Cell>, k: nat)
      requires k < |cells|
      ensures cells[k].id.clock <= Clock(cells)
    {
    }

    static lemma StrikeStorable(cells: seq<Cell>, k: nat)
      requires Storable(cells) && k < |cells|
      ensures Storable(cells[k := cells[k].(deleted := true)])
    {
      var r := cells[k := cells[k].(deleted := true)];
      forall i, j | 0 <= i < j < |r| ensures r[i].id != r[j].id { assert cells[i].id != cells[j].id; }
      forall i | 0 <= i < |r| ensures ValidName(r[i].id) { assert ValidName(cells[i].id); }
    }

    /** Strike the characters of a delete's i-th span. */
    method StrikeSpan(op: Op, i: nat, ghost was: seq<Cell>, before: bool) returns (changed: bool)
      requires Valid() && op.Valid() && op.text == "" && i < |op.delete| && !Blocked(was, op) && Distinct(was)
      requires StruckSoFar(was, cells, op, i, 0, before)
      modifies Repr()
      ensures Valid() && head == old(head) && pending == old(pending) && chain == old(chain)
      ensures StruckSoFar(was, cells, op, i + 1, 0, changed)
    {
      hide Named;
      hide Chained;
      hide Flagged;
      hide Visible;
      hide Clock;
      hide Stored;
      hide StruckSoFar;
      changed := before;
      var span := op.delete[i];
      var clock := span.start;
      StruckStart(was, cells, op, i, changed);
      while clock <= span.end
        invariant span.start <= clock <= span.end + 1
        invariant Valid() && head == old(head) && pending == old(pending) && chain == old(chain)
        invariant StruckSoFar(was, cells, op, i, clock, changed)
        decreases span.end - clock
      {
        var x := ID(span.replica, clock);
        assert op.Deletes(x) by { assert span.Holds(x); }
        StillHere(was, cells, op, i, clock, changed, x);
        Found(x);
        ghost var now := cells;
        var struck := StrikeOne(x);
        StruckOneMore(was, now, op, i, clock, changed, IndexOf(now, x));
        changed := changed || struck;
        clock := clock + 1;
      }
      StruckSpan(was, cells, op, i, clock, changed);
    }

    /** Delete what an op names, all of it or, while any of it is missing, nothing. */
    method IntegrateDelete(op: Op) returns (outcome: Outcome)
      requires Valid() && op.Valid() && op.text == ""
      modifies Repr()
      ensures Valid() && fresh(Repr() - old(Repr())) && head == old(head) && pending == old(pending)
      ensures (cells, outcome) == Replica.Integrate(old(cells), op)
    {
      hide Named;
      hide Chained;
      hide Flagged;
      hide Visible;
      hide Clock;
      hide Stored;
      var here := AllHere(op);
      if !here { return Missing; }
      ghost var was := cells;
      Found(ROOT);
      var changed := false;
      for i := 0 to |op.delete|
        invariant Valid() && head == old(head) && pending == old(pending) && chain == old(chain)
        invariant StruckSoFar(was, cells, op, i, 0, changed)
      {
        changed := StrikeSpan(op, i, was, changed);
      }
      AllStruck(was, cells, op, changed);
      outcome := Done(changed);
    }

    method Integrate(op: Op) returns (outcome: Outcome)
      requires Valid() && op.Valid()
      modifies Repr()
      ensures Valid() && fresh(Repr() - old(Repr())) && head == old(head) && pending == old(pending)
      ensures (cells, outcome) == Replica.Integrate(old(cells), op)
    {
      if op.text != "" {
        outcome := IntegrateInsert(op);
      } else {
        outcome := IntegrateDelete(op);
      }
    }

    /** One pass over the held ops; ok is false when it met an ill-formed one and stopped. */
    method DrainOnce(before: bool) returns (progress: bool, changed: bool, ok: bool)
      requires Valid()
      modifies Repr()
      ensures Valid() && fresh(Repr() - old(Repr())) && head == old(head)
      ensures Pass(cells, pending, progress, changed, ok) == Round(Pass(old(cells), [], false, before, true), old(pending))
    {
      hide Linked;
      hide Counted;
      hide Storable;
      hide Round;
      var waiting := pending;
      ghost var all := Round(Pass(cells, [], false, before, true), waiting);
      pending := [];
      progress, changed, ok := false, before, true;
      for i := 0 to |waiting|
        invariant Valid() && fresh(Repr() - old(Repr())) && head == old(head)
        invariant Round(Pass(cells, pending, progress, changed, true), waiting[i..]) == all
      {
        var held := waiting[i];
        RoundStep(Pass(cells, pending, progress, changed, true), waiting, i);
        var outcome := Integrate(held);
        match outcome
        case Missing => pending := pending + [held];
        case IllFormed => ok := false; return;
        case Done(c) => progress, changed := true, changed || c;
      }
      RoundEnds(Pass(cells, pending, progress, changed, true), waiting);
    }

    /** Integrate an op from any replica and whatever it unblocks, or hold it. */
    method Apply(op: Op) returns (changed: bool, ok: bool)
      requires Valid()
      modifies Repr()
      ensures Valid() && fresh(Repr() - old(Repr())) && head == old(head)
      ensures Applied(State(), changed, ok) == Replica.Apply(old(State()), op)
    {
      hide Linked;
      hide Counted;
      hide Storable;
      if !op.Valid() { return false, false; }
      var outcome := Integrate(op);
      if outcome.Missing? {
        pending := pending + [op];
        return false, true;
      }
      if outcome.IllFormed? { return false, false; }
      changed, ok := outcome.changed, true;
      ghost var all := Drain(State(), changed);
      var progress := true;
      while progress && |pending| > 0
        invariant Valid() && fresh(Repr() - old(Repr())) && head == old(head) && ok
        invariant all == if progress then Drain(State(), changed) else Applied(State(), changed, true)
        decreases if progress then |pending| + 1 else 0
      {
        progress, changed, ok := DrainOnce(changed);
        if !ok { return; }
      }
    }

    /** The document as it reads now. */
    method Text() returns (text: string)
      requires Linked()
      ensures text == Replica.Text(cells)
    {
      hide Chained;
      hide Named;
      hide Flagged;
      text := "";
      ghost var i := 0;
      var current := head.next;
      NextCell(0);
      while current != null
        invariant i <= |cells| && current == if i < |cells| then chain[i + 1] else null
        invariant text == Replica.Text(cells[..i])
        decreases |cells| - i
      {
        NextCell(i);
        NextCell(i + 1);
        ReadOn(cells, i);
        if !current.deleted { text := text + [current.value]; }
        current := current.next;
        i := i + 1;
      }
      assert cells[..i] == cells;
    }

    /** Counts visible characters off along the list until the position is reached. */
    method VisibleBefore(position: nat) returns (x: ID)
      requires Linked()
      ensures x == if position <= |Visible(cells)| then LocalEdits.VisibleBefore(cells, position) else ROOT
    {
      hide Chained;
      hide Named;
      hide Flagged;
      if position == 0 { return ROOT; }
      var index := 0;
      ghost var i := 0;
      var current := head.next;
      NextCell(0);
      while current != null
        invariant i <= |cells| && current == if i < |cells| then chain[i + 1] else null
        invariant index == |Visible(cells[..i])| && index < position
        decreases |cells| - i
      {
        NextCell(i);
        NextCell(i + 1);
        ReadOn(cells, i);
        if !current.deleted {
          index := index + 1;
          if index == position { return current.id; }
        }
        current := current.next;
        i := i + 1;
      }
      assert cells[..i] == cells;
      x := ROOT;
    }

    /** Insert text at a position of the document as it reads. */
    method Insert(replica: string, position: int, text: string) returns (op: Op, ok: bool)
      requires Valid()
      modifies Repr()
      ensures Valid() && fresh(Repr() - old(Repr())) && head == old(head)
      ensures LocalEdits.Edited(State(), if ok then [op] else [], ok) == LocalEdits.Insert(old(State()), replica, position, text)
    {
      hide Linked;
      hide Visible;
      hide Stored;
      hide Replica.Apply;
      hide LocalEdits.VisibleBefore;
      op, ok := Op(ROOT, ROOT, "", []), false;
      if !ValidReplica(replica) || position < 0 || position > visible || text == "" { return; }
      var after := VisibleBefore(position);
      var made := Op(ID(replica, clock + 1), after, text, []);
      var _, applied := Apply(made);
      if applied { op, ok := made, true; }
    }

    /** Remove length characters of the document as it reads, from a position on. */
    method Remove(position: int, length: int) returns (op: Op, ok: bool)
      requires Valid()
      modifies Repr()
      ensures Valid() && fresh(Repr() - old(Repr())) && head == old(head)
      ensures LocalEdits.Edited(State(), if ok then [op] else [], ok) == LocalEdits.Remove(old(State()), position, length)
    {
      hide Linked;
      hide Visible;
      hide Stored;
      op, ok := Op(ROOT, ROOT, "", []), false;
      if position < 0 || length <= 0 || position + length > visible { return; }
      var spans := SpansFrom(position, length);
      var made := Op(ROOT, ROOT, "", spans);
      var _, applied := Apply(made);
      if applied { op, ok := made, true; }
    }

    /** The spans that name length visible characters from a position on. */
    method SpansFrom(position: nat, length: nat) returns (spans: seq<Span>)
      requires Linked() && position + length <= |Visible(cells)|
      ensures spans == LocalEdits.Spans(LocalEdits.VisibleIds(cells, position, length))
    {
      hide Chained;
      hide Named;
      hide Flagged;
      hide Visible;
      hide Replica.Text;
      hide LocalEdits.Spans;
      hide LocalEdits.VisibleIds;
      spans := [];
      var index := 0;
      ghost var i, ids := 0, [];
      NothingYet(cells, position);
      var current := head.next;
      NextCell(0);
      while current != null && index < position + length
        invariant i <= |cells| && current == if i < |cells| then chain[i + 1] else null
        invariant index == |Visible(cells[..i])| && index <= position + length
        invariant ids == LocalEdits.VisibleIds(cells, position, if index < position then 0 else index - position)
        invariant spans == LocalEdits.Spans(ids)
        decreases |cells| - i
      {
        NextCell(i);
        NextCell(i + 1);
        ReadOn(cells, i);
        if !current.deleted {
          if index >= position {
            IdsGoOn(cells, position, index);
            SpansGoOn(ids, current.id);
            ids := ids + [current.id];
            spans := LocalEdits.WithName(spans, current.id);
          }
          index := index + 1;
        }
        current := current.next;
        i := i + 1;
      }
      assert current == null ==> cells[..i] == cells;
    }

    /** Make the document read text, editing only between its common beginning and end with it. */
    method Replace(replica: string, text: string) returns (ops: seq<Op>, ok: bool)
      requires Valid()
      modifies Repr()
      ensures Valid() && fresh(Repr() - old(Repr())) && head == old(head)
      ensures LocalEdits.Edited(State(), ops, ok) == LocalEdits.Replace(old(State()), replica, text)
    {
      hide Linked;
      hide Counted;
      hide Stored;
      hide Visible;
      hide Replica.Text;
      hide LocalEdits.KeptPrefix;
      hide LocalEdits.KeptSuffix;
      hide LocalEdits.Insert;
      hide LocalEdits.Remove;
      ops, ok := [], true;
      var current := Text();
      var prefix := CommonBeginning(current, text);
      var suffix := CommonEnd(current, text, prefix);
      if |current| - prefix - suffix > 0 {
        var op, done := Remove(prefix, |current| - prefix - suffix);
        if !done { return [], false; }
        ops := [op];
      }
      var inserted := text[prefix..|text| - suffix];
      if inserted != "" {
        var op, done := Insert(replica, prefix, inserted);
        if !done { return [], false; }
        ops := ops + [op];
      }
    }

    /** Walks the list once and joins neighbours into one run while writer, clock and state go on. */
    method Snapshot() returns (runs: seq<Run>)
      requires Linked()
      ensures runs == Runs(cells)
    {
      hide Chained;
      hide Named;
      hide Flagged;
      hide Gathered;
      runs := [];
      var text := "";
      var previous: Node? := null;
      ghost var i := 0;
      var current := head.next;
      NextCell(0);
      NothingGathered(cells);
      while current != null
        invariant i <= |cells| && current == if i < |cells| then chain[i + 1] else null
        invariant previous == if i > 0 then chain[i] else null
        invariant Gathered(cells, i, runs, text)
        decreases |cells| - i
      {
        NextCell(i);
        NextCell(i + 1);
        if i > 0 { NextCell(i - 1); }
        GatherOn(cells, i, runs, text);
        var continues := previous != null && previous.id.replica == current.id.replica
                      && previous.id.clock + 1 == current.id.clock && previous.deleted == current.deleted;
        if !continues {
          runs := Flushed(runs, text) + [Run(current.id.replica, current.id.clock, "", 0)];
          text := "";
        }
        if current.deleted {
          var last := |runs| - 1;
          runs := runs[last := runs[last].(deleted := runs[last].deleted + 1)];
        } else {
          text := text + [current.value];
        }
        previous := current;
        current := current.next;
        i := i + 1;
      }
      AllGathered(cells, runs, text);
      runs := Flushed(runs, text);
    }

    ghost predicate EndsAt(tail: Node)
      reads this`chain
    {
      |chain| > 0 && tail == chain[|chain| - 1]
    }

    /** Put a character at the end of the list, unless its name is there already. */
    method Append(tail: Node, id: ID, value: char, deleted: bool) returns (appended: bool, last: Node)
      requires Valid() && ValidName(id) && EndsAt(tail)
      modifies Repr()
      ensures Valid() && fresh(Repr() - old(Repr())) && pending == old(pending)
      ensures EndsAt(last) && (appended <==> !Has(old(cells), id))
      ensures cells == if appended then old(cells) + [Cell(id, value, deleted)] else old(cells)
    {
      hide Named;
      hide Chained;
      hide Flagged;
      hide Visible;
      hide Clock;
      Found(id);
      if id in nodes { return false, tail; }
      ghost var k := |cells|;
      assert InsertAt(cells, k, Cell(id, value, deleted)) == cells + [Cell(id, value, deleted)];
      InsertAtStorable(cells, k, Cell(id, value, deleted));
      InsertAtCounts(cells, k, Cell(id, value, deleted));
      last := Link(tail, k, id, value, deleted);
      if !deleted { visible := visible + 1; }
      clock := if clock > id.clock then clock else id.clock;
      appended := true;
    }

    /** Put a run's characters at the end of the list, up to the first whose name is there already. */
    method AppendRun(tail: Node, run: Run) returns (appended: bool, last: Node, ghost repeated: nat)
      requires Valid() && run.Valid() && EndsAt(tail)
      modifies Repr()
      ensures Valid() && fresh(Repr() - old(Repr())) && pending == old(pending) && EndsAt(last)
      ensures appended ==> cells == old(cells) + run.Expand()
      ensures !appended ==> repeated < run.Count()
      ensures !appended ==> Has(old(cells) + run.Expand()[..repeated], ID(run.replica, run.clock + repeated))
    {
      hide Valid;
      hide EndsAt;
      hide Run.Expand;
      ExpandEnds(run);
      last, repeated := tail, 0;
      for index := 0 to run.Count()
        invariant Valid() && EndsAt(last) && fresh(Repr() - old(Repr())) && pending == old(pending)
        invariant cells == old(cells) + run.Expand()[..index]
      {
        var c := Cell(ID(run.replica, run.clock + index), if run.text == "" then '\0' else run.text[index], run.text == "");
        ExpandStep(run, index);
        appended, last := Append(last, c.id, c.value, c.deleted);
        repeated := index;
        if !appended { return; }
      }
      appended := true;
    }
  }

  /** The replica a snapshot describes, or none if no document could hold it. */
  method Load(runs: seq<Run>) returns (s: Sequence?)
    ensures s != null <==> Loadable(runs)
    ensures s != null ==> s.Valid() && fresh(s.Repr()) && s.State() == Replica.State(ExpandAll(runs), [])
  {
    hide Sequence.Linked;
    hide Sequence.Counted;
    hide Storable;
    s := new Sequence();
    var tail := s.head;
    for i := 0 to |runs|
      invariant s != null && s.Valid() && s.EndsAt(tail) && fresh(s.Repr())
      invariant s.State() == Replica.State(ExpandAll(runs[..i]), [])
      invariant forall j :: 0 <= j < i ==> runs[j].Valid()
    {
      if !runs[i].Valid() { return null; }
      ExpandOn(runs, i);
      ghost var before := s.cells;
      var appended;
      ghost var repeated;
      appended, tail, repeated := s.AppendRun(tail, runs[i]);
      if !appended {
        Repeated(runs, i, repeated);
        return null;
      }
    }
    assert runs[..|runs|] == runs;
    StoredDistinct(s.State());
  }

  lemma StoredDistinct(s: Replica.State)
    requires Stored(s)
    ensures Distinct(s.cells)
  {
  }

  /** How much two texts have in common at their beginnings. */
  method CommonBeginning(current: string, text: string) returns (prefix: nat)
    ensures prefix == LocalEdits.KeptPrefix(current, text)
  {
    prefix := 0;
    while prefix < |current| && prefix < |text| && current[prefix] == text[prefix]
      invariant prefix <= |current| && prefix <= |text|
      invariant LocalEdits.CommonPrefix(current, text, prefix) == LocalEdits.CommonPrefix(current, text, 0)
    {
      prefix := prefix + 1;
    }
  }

  /** How much two texts have in common at their ends, past their common beginnings. */
  method CommonEnd(current: string, text: string, prefix: nat) returns (suffix: nat)
    requires prefix == LocalEdits.KeptPrefix(current, text)
    ensures suffix == LocalEdits.KeptSuffix(current, text)
  {
    hide LocalEdits.KeptPrefix;
    suffix := 0;
    while suffix < |current| - prefix && suffix < |text| - prefix
          && current[|current| - 1 - suffix] == text[|text| - 1 - suffix]
      invariant prefix + suffix <= |current| && prefix + suffix <= |text|
      invariant LocalEdits.CommonSuffix(current, text, prefix, suffix) == LocalEdits.CommonSuffix(current, text, prefix, 0)
    {
      suffix := suffix + 1;
    }
  }

  /** The runs once the text gathered so far is written into the last of them, unless that one is deleted. */
  function Flushed(runs: seq<Run>, text: string): seq<Run> {
    var last := |runs| - 1;
    if last >= 0 && runs[last].deleted == 0 then runs[last := runs[last].(text := text)] else runs
  }

  /** The runs and the text gathered from the first i characters. */
  ghost predicate Gathered(cells: seq<Cell>, i: nat, runs: seq<Run>, text: string) {
    && i <= |cells| && Flushed(runs, text) == Runs(cells[..i]) && (runs == [] <==> i == 0)
    && (i > 0 ==>
          var last := runs[|runs| - 1];
          if cells[i - 1].deleted then last.deleted > 0 && text == "" else last.deleted == 0)
  }

  lemma NothingGathered(cells: seq<Cell>)
    ensures Gathered(cells, 0, [], "")
  {
  }

  lemma AllGathered(cells: seq<Cell>, runs: seq<Run>, text: string)
    requires Gathered(cells, |cells|, runs, text)
    ensures Flushed(runs, text) == Runs(cells)
  {
    assert cells[..|cells|] == cells;
  }

  lemma GatherOn(cells: seq<Cell>, i: nat, runs: seq<Run>, text: string)
    requires Gathered(cells, i, runs, text) && i < |cells|
    ensures var c := cells[i];
            var continues := i > 0 && Continues(cells[i - 1], c);
            var (r, t) := if continues then (runs, text)
                          else (Flushed(runs, text) + [Run(c.id.replica, c.id.clock, "", 0)], "");
            var last := |r| - 1;
            && last >= 0
            && if c.deleted then Gathered(cells, i + 1, r[last := r[last].(deleted := r[last].deleted + 1)], t)
               else Gathered(cells, i + 1, r, t + [c.value])
  {
    var front := cells[..i + 1];
    assert front[..i] == cells[..i] && front[i] == cells[i];
    assert i > 0 ==> front[i - 1] == cells[i - 1];
    assert "" + [cells[i].value] == [cells[i].value];
    var gathered := Flushed(runs, text);
    if !(i > 0 && Continues(cells[i - 1], cells[i])) && !cells[i].deleted {
      var r := gathered + [Run(cells[i].id.replica, cells[i].id.clock, "", 0)];
      assert Flushed(r, "" + [cells[i].value]) == gathered + [RunOf(cells[i])];
    }
  }

  lemma ExpandOn(runs: seq<Run>, i: nat)
    requires i < |runs|
    ensures ExpandAll(runs[..i + 1]) == ExpandAll(runs[..i]) + runs[i].Expand()
  {
    assert runs[..i + 1][..i] == runs[..i];
  }

  lemma {:induction false} ExpandPrefix(runs: seq<Run>, i: nat)
    requires i <= |runs|
    ensures ExpandAll(runs[..i]) <= ExpandAll(runs)
    decreases |runs| - i
  {
    if i < |runs| {
      ExpandOn(runs, i);
      ExpandPrefix(runs, i + 1);
    } else {
      assert runs[..i] == runs;
    }
  }

  /** A name already there when it comes up again makes the snapshot name it twice. */
  lemma Repeated(runs: seq<Run>, i: nat, index: nat)
    requires i < |runs| && index < runs[i].Count()
    requires Has(ExpandAll(runs[..i]) + runs[i].Expand()[..index], ID(runs[i].replica, runs[i].clock + index))
    ensures !Distinct(ExpandAll(runs))
  {
    ExpandOn(runs, i);
    ExpandPrefix(runs, i + 1);
    var all, seen := ExpandAll(runs), ExpandAll(runs[..i]) + runs[i].Expand()[..index];
    var j :| 0 <= j < |seen| && seen[j].id == ID(runs[i].replica, runs[i].clock + index);
    assert all[j] == seen[j];
    assert all[|seen|] == runs[i].Expand()[index];
  }

  /** Reading on by one character. */
  lemma RoundEnds(p: Pass, waiting: seq<Op>)
    requires p.ok
    ensures Round(p, waiting[|waiting|..]) == p
  {
  }

  lemma RoundStep(p: Pass, waiting: seq<Op>, i: nat)
    requires p.ok && i < |waiting|
    ensures waiting[0..] == waiting
    ensures var (cells, outcome) := Integrate(p.cells, waiting[i]);
            Round(p, waiting[i..]) ==
              match outcome
              case Missing => Round(p.(kept := p.kept + [waiting[i]]), waiting[i + 1..])
              case IllFormed => p.(ok := false)
              case Done(changed) => Round(p.(cells := cells, progress := true, changed := p.changed || changed), waiting[i + 1..])
  {
    assert waiting[i..][0] == waiting[i] && waiting[i..][1..] == waiting[i + 1..];
  }

  lemma InsertAtPlaces(cells: seq<Cell>, k: nat, c: Cell)
    requires k <= |cells|
    ensures var r := InsertAt(cells, k, c);
            && |r| == |cells| + 1 && r[k] == c
            && (forall i :: 0 <= i < k ==> r[i] == cells[i]) && forall i :: k < i < |r| ==> r[i] == cells[i - 1]
  {
  }

  lemma TextEnds(cells: seq<Cell>, op: Op, from: nat)
    requires op.Valid() && from <= |cells|
    ensures InsertText(cells, op, |op.text|, from) == (cells, false)
  {
  }

  lemma ExpandEnds(run: Run)
    requires run.Valid()
    ensures |run.Expand()| == run.Count() && run.Expand()[..0] == [] && run.Expand()[..run.Count()] == run.Expand()
  {
  }

  lemma ExpandStep(run: Run, index: nat)
    requires run.Valid() && index < run.Count()
    ensures |run.Expand()| == run.Count()
    ensures run.Expand()[..index + 1] == run.Expand()[..index] +
              [Cell(ID(run.replica, run.clock + index), if run.text == "" then '\0' else run.text[index], run.text == "")]
  {
  }

  lemma NothingYet(cells: seq<Cell>, position: nat)
    requires position <= |Visible(cells)|
    ensures LocalEdits.Spans([]) == [] && LocalEdits.VisibleIds(cells, position, 0) == [] && Visible(cells[..0]) == []
    ensures cells[..|cells|] == cells
  {
  }

  lemma IdsGoOn(cells: seq<Cell>, position: nat, index: nat)
    requires position <= index < |Visible(cells)|
    ensures LocalEdits.VisibleIds(cells, position, index + 1 - position)
         == LocalEdits.VisibleIds(cells, position, index - position) + [Visible(cells)[index].id]
  {
  }

  lemma SpansGoOn(ids: seq<ID>, x: ID)
    ensures LocalEdits.Spans(ids + [x]) == LocalEdits.WithName(LocalEdits.Spans(ids), x)
  {
    assert (ids + [x])[..|ids|] == ids;
  }

  lemma ReadOn(cells: seq<Cell>, i: nat)
    requires i < |cells|
    ensures Visible(cells[..i + 1]) == Visible(cells[..i]) + if cells[i].deleted then [] else [cells[i]]
    ensures Text(cells[..i + 1]) == Text(cells[..i]) + if cells[i].deleted then "" else [cells[i].value]
    ensures !cells[i].deleted ==> |Visible(cells[..i])| < |Visible(cells)| && Visible(cells)[|Visible(cells[..i])|] == cells[i]
  {
    var front := cells[..i];
    assert cells[..i + 1] == front + [cells[i]];
    LocalEdits.VisibleJoin(front, [cells[i]]);
    assert cells == cells[..i + 1] + cells[i + 1..];
    LocalEdits.VisibleJoin(cells[..i + 1], cells[i + 1..]);
  }
}
