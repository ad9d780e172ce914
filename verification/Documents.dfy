/**
 What a document is, given only the set of edits ever made, and what a replica holding part of it
 has to satisfy.
 */
module Documents {
  import opened Identifiers
  import opened Sets
  import opened Operations
  import opened InsertionTree
  import opened TreeWalk
  import opened Replica

  type History = set<Op>

  // ----- the document a set of ops determines -----

  ghost predicate Sane(op: Op) {
    op.Valid() && (op.text != "" ==> op.after.clock < op.id.clock)
  }

  /** Each op can be applied, each insert has seen its anchor, and no two disagree on a character. */
  ghost predicate WellFormed(h: History) {
    && (forall op :: op in h ==> Sane(op))
    && forall a, b, x {:trigger a.Inserts(x), b.Inserts(x)} :: a in h && b in h && a.Inserts(x) && b.Inserts(x) ==>
         a.ParentOf(x) == b.ParentOf(x) && a.ValueOf(x) == b.ValueOf(x)
  }

  /** The characters the inserts of h create. */
  ghost function Minted(h: History): (m: set<ID>)
    ensures forall op, x :: op in h && op.Inserts(x) ==> x in m
    ensures forall x :: x in m ==> exists op :: op in h && op.Inserts(x)
  {
    var m := set op, k | op in h && 0 <= k < |op.text| :: op.CharId(k);
    assert forall op, x :: op in h && op.Inserts(x) ==> op.CharId(x.clock - op.id.clock) == x;
    m
  }

  ghost function Source(h: History, x: ID): (op: Op)
    requires x in Minted(h)
    ensures op in h && op.Inserts(x)
  {
    var op :| op in h && op.Inserts(x);
    op
  }

  ghost function TreeOf(h: History): Tree {
    map x | x in Minted(h) :: Source(h, x).ParentOf(x)
  }

  ghost function ValueIn(h: History, x: ID): char
    requires x in Minted(h)
  {
    Source(h, x).ValueOf(x)
  }

  /** x can be placed: some insert of it goes after the start or after a character that can. */
  ghost predicate Present(h: History, x: ID)
    decreases x.clock
  {
    exists op :: op in h && op.Inserts(x) && Anchored(h, op, x.clock)
  }

  ghost predicate Anchored(h: History, op: Op, clock: nat)
    decreases clock, 0
  {
    op.after == ROOT || (op.after.clock < clock && Present(h, op.after))
  }

  /** Some delete of x names only characters that can be placed. */
  ghost predicate Tombstoned(h: History, x: ID) {
    exists op :: op in h && op.Deletes(x) && forall y :: op.Deletes(y) ==> Present(h, y)
  }

  ghost function PresentTree(h: History): Tree {
    map x | x in Minted(h) && Present(h, x) :: TreeOf(h)[x]
  }

  /** The document: the depth-first walk of the tree of placed characters. */
  ghost function Document(h: History): seq<Cell>
    requires WellFormed(h)
  {
    TreeGrown(h);
    var t := PresentTree(h);
    var ids := DepthFirst(t);
    ForestInOrder(t, ROOT, Children(t, ROOT), 0);
    seq(|ids|, i requires 0 <= i < |ids| =>
      assert ids[i] in ids;
      Cell(ids[i], ValueIn(h, ids[i]), Tombstoned(h, ids[i])))
  }

  lemma TreeGrown(h: History)
    requires WellFormed(h)
    ensures Grown(TreeOf(h)) && Grown(PresentTree(h))
  {
  }

  // ----- what a replica's cells have to do with it -----

  ghost function Ids(cells: seq<Cell>): (ids: seq<ID>)
    ensures |ids| == |cells| && forall i :: 0 <= i < |cells| ==> ids[i] == cells[i].id
    ensures forall x :: x in ids <==> Has(cells, x)
  {
    seq(|cells|, i requires 0 <= i < |cells| => cells[i].id)
  }

  /** The cells, with all their parents, stand in document order. */
  ghost predicate InOrder(t: Tree, cells: seq<Cell>)
    requires Grown(t)
  {
    Closed(t, Elements(Ids(cells))) && Sorted(t, Ids(cells))
  }

  /** The cells are part of the document, in its order. */
  ghost predicate Sound(h: History, cells: seq<Cell>)
    requires WellFormed(h)
  {
    TreeGrown(h);
    InOrder(TreeOf(h), cells) && forall i :: 0 <= i < |cells| ==> Faithful(h, cells[i])
  }

  ghost predicate Faithful(h: History, c: Cell) {
    && Present(h, c.id) && c.id in Minted(h) && c.value == ValueIn(h, c.id)
    && (c.deleted ==> Tombstoned(h, c.id))
  }

  ghost predicate Struck(cells: seq<Cell>, x: ID) {
    exists i :: 0 <= i < |cells| && cells[i].id == x && cells[i].deleted
  }

  /** op has left its whole effect on the cells. */
  ghost predicate Integrated(cells: seq<Cell>, op: Op) {
    if op.text != "" then
      (op.after == ROOT || Has(cells, op.after)) && forall x :: op.Inserts(x) ==> Has(cells, x)
    else
      forall x :: op.Deletes(x) ==> Struck(cells, x)
  }

  /** Nothing received is lost: every op is integrated or held, and what is held still waits. */
  ghost predicate Settled(h: History, s: State)
    requires WellFormed(h)
  {
    && Sound(h, s.cells)
    && (forall op :: op in h ==> op in s.pending || Integrated(s.cells, op))
    && forall op :: op in s.pending ==> op in h && Blocked(s.cells, op)
  }
}
