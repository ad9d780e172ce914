/**
 The tree an RGA document grows: every character hangs under the one it was inserted after.
 A tree is its parent map. A node is placed by its path from the root; the document order puts
 a node before its descendants, and of two siblings the greater name first.
 */
module InsertionTree {
  import opened Identifiers
  import opened Sets

  type Tree = map<ID, ID>

  /** A child's clock exceeds its parent's: an insert has seen what it goes after. */
  ghost predicate Grown(t: Tree) {
    ROOT !in t && forall x :: x in t ==> t[x].clock < x.clock
  }

  /** The nodes from just below the root down to x itself. */
  ghost function Path(t: Tree, x: ID): (p: seq<ID>)
    requires Grown(t)
    ensures x in t <==> p != []
    ensures p != [] ==> p[|p| - 1] == x
    decreases x.clock
  {
    if x in t then Path(t, t[x]) + [x] else []
  }

  /** a stands before b, told at index k, where the two paths part. */
  ghost predicate Parts(a: seq<ID>, b: seq<ID>, k: nat) {
    && k <= |a| && k < |b|
    && a[..k] == b[..k]
    && (k == |a| || Less(b[k], a[k]))
  }

  ghost predicate Precedes(a: seq<ID>, b: seq<ID>) {
    exists k: nat :: Parts(a, b, k)
  }

  /** Document order of two nodes. */
  ghost predicate Before(t: Tree, x: ID, y: ID)
    requires Grown(t)
  {
    Precedes(Path(t, x), Path(t, y))
  }

  ghost predicate Sorted(t: Tree, ids: seq<ID>)
    requires Grown(t)
  {
    forall i, j {:trigger Before(t, ids[i], ids[j])} :: 0 <= i < j < |ids| ==> Before(t, ids[i], ids[j])
  }

  /** Every node's parent is the root or a node too. */
  ghost predicate Closed(t: Tree, ids: set<ID>) {
    forall x :: x in ids ==> x in t && (t[x] == ROOT || t[x] in ids)
  }

  ghost predicate Descends(t: Tree, x: ID, ancestor: ID)
    requires Grown(t)
  {
    Path(t, ancestor) <= Path(t, x)
  }

  // ----- the order is a strict total order -----

  lemma PrecedesTransitive(a: seq<ID>, b: seq<ID>, c: seq<ID>)
    requires Precedes(a, b) && Precedes(b, c)
    ensures Precedes(a, c)
  {
    var i: nat :| Parts(a, b, i);
    var j: nat :| Parts(b, c, j);
    var k := if i < j then i else j;
    assert a[..k] == a[..i][..k] == b[..i][..k] == b[..k] == b[..j][..k] == c[..j][..k] == c[..k];
    if i < |a| && i < j { assert b[i] == b[..j][i] == c[..j][i] == c[i]; }
    if j < |b| && j < i { assert a[j] == a[..i][j] == b[..i][j] == b[j]; }
    if i == j && i < |a| { LessTransitive(c[i], b[i], a[i]); }
    if i < j && i == |a| { assert i < |c|; }
    assert Parts(a, c, k);
  }

  lemma PrecedesIrreflexive(a: seq<ID>)
    ensures !Precedes(a, a)
  {
    if k: nat :| Parts(a, a, k) { LessTotal(a[k], a[k]); }
  }

  lemma {:induction false} PrecedesTotal(a: seq<ID>, b: seq<ID>, k: nat)
    requires a != b
    requires k <= |a| && k <= |b| && a[..k] == b[..k]
    ensures Precedes(a, b) || Precedes(b, a)
    decreases |a| - k
  {
    if k == |a| {
      assert a == a[..k];
      assert Parts(a, b, k);
    } else if k == |b| {
      assert Parts(b, a, k);
    } else if a[k] == b[k] {
      assert a[..k + 1] == a[..k] + [a[k]] == b[..k + 1];
      PrecedesTotal(a, b, k + 1);
    } else {
      LessTotal(a[k], b[k]);
      assert Parts(a, b, k) || Parts(b, a, k);
    }
  }

  lemma BeforeTransitive(t: Tree, x: ID, y: ID, z: ID)
    requires Grown(t) && Before(t, x, y) && Before(t, y, z)
    ensures Before(t, x, z)
  {
    PrecedesTransitive(Path(t, x), Path(t, y), Path(t, z));
  }

  lemma BeforeAsymmetric(t: Tree, x: ID, y: ID)
    requires Grown(t) && Before(t, x, y)
    ensures !Before(t, y, x) && x != y
  {
    if Before(t, y, x) || x == y {
      if x != y { BeforeTransitive(t, x, y, x); }
      PrecedesIrreflexive(Path(t, x));
    }
  }

  lemma BeforeTotal(t: Tree, x: ID, y: ID)
    requires Grown(t) && x in t && y in t && x != y
    ensures Before(t, x, y) || Before(t, y, x)
  {
    PrecedesTotal(Path(t, x), Path(t, y), 0);
  }

  // ----- paths -----

  /** A node on a path is reached by the part of the path up to it. */
  lemma {:induction false} PathPrefix(t: Tree, x: ID, k: nat)
    requires Grown(t) && k < |Path(t, x)|
    ensures var p := Path(t, x); p[k] in t && Path(t, p[k]) == p[..k + 1]
    ensures var p := Path(t, x); p[k] == x || p[k].clock < x.clock
    ensures var p := Path(t, x); k + 1 < |p| ==> p[k + 1] in t && t[p[k + 1]] == p[k]
    decreases x.clock
  {
    var p, q := Path(t, x), Path(t, t[x]);
    if k < |q| {
      PathPrefix(t, t[x], k);
      assert p[..k + 1] == q[..k + 1];
    } else {
      assert p[..k + 1] == p;
    }
  }

  /** Every node on the path to a node of a closed set is in that set. */
  lemma {:induction false} PathInside(t: Tree, ids: set<ID>, x: ID, k: nat)
    requires Grown(t) && Closed(t, ids) && x in ids && k < |Path(t, x)|
    ensures Path(t, x)[k] in ids
    decreases x.clock
  {
    if k < |Path(t, t[x])| { PathInside(t, ids, t[x], k); }
  }

  /** A tree that grows moves nothing: the paths inside a closed set stay as they were. */
  lemma {:induction false} PathStable(t: Tree, u: Tree, ids: set<ID>, x: ID)
    requires Grown(t) && Grown(u) && Closed(t, ids)
    requires forall y :: y in ids ==> y in u && u[y] == t[y]
    requires x in ids
    ensures Path(t, x) == Path(u, x)
    decreases x.clock
  {
    if t[x] != ROOT { PathStable(t, u, ids, t[x]); }
  }

  // ----- the slot the skip loop finds -----

  /** In document order, what stands after p stands after p's new child, or inside p's subtree. */
  lemma ChildSpot(t: Tree, id: ID, y: ID)
    requires Grown(t) && id in t && y in t && y != id
    requires t[id] == ROOT || Before(t, t[id], y)
    ensures var a, b := Path(t, t[id]), Path(t, y);
            if a <= b then |a| < |b| && (Less(id, b[|a|]) ==> Before(t, y, id)) && (Less(b[|a|], id) ==> Before(t, id, y))
            else Before(t, id, y)
  {
    var a, b := Path(t, t[id]), Path(t, y);
    assert Path(t, id) == a + [id];
    if a <= b {
      if |a| == |b| {
        assert a == b;
        if t[id] != ROOT { PrecedesIrreflexive(a); }
        assert false;
      }
      assert (a + [id])[..|a|] == a == b[..|a|];
      if Less(id, b[|a|]) { assert Parts(b, a + [id], |a|); }
      if Less(b[|a|], id) { assert Parts(a + [id], b, |a|); }
    } else {
      var k: nat :| Parts(a, b, k);
      assert (a + [id])[..k] == a[..k];
      assert k < |a|;
      assert Parts(a + [id], b, k);
    }
  }

  lemma AncestorBefore(t: Tree, x: ID, y: ID)
    requires Grown(t) && Path(t, x) < Path(t, y)
    ensures Before(t, x, y)
  {
    assert Parts(Path(t, x), Path(t, y), |Path(t, x)|);
  }

  /** An element standing after the place from and before ids[i] has its index between the two. */
  lemma IndexBetween(t: Tree, ids: seq<ID>, from: nat, i: nat, z: ID) returns (j: nat)
    requires Grown(t) && Sorted(t, ids) && from <= i < |ids| && z in ids
    requires from > 0 ==> Before(t, ids[from - 1], z)
    requires Before(t, z, ids[i])
    ensures from <= j < i && ids[j] == z
  {
    j :| 0 <= j < |ids| && ids[j] == z;
    if j >= i {
      BeforeAsymmetric(t, z, ids[i]);
      assert false;
    }
    if j < from {
      BeforeAsymmetric(t, ids[from - 1], z);
      assert false;
    }
  }

  /** The place of an insert: 0 at the start, else one past its parent. */
  ghost predicate PlaceOf(ids: seq<ID>, parent: ID, from: nat) {
    if from == 0 then parent == ROOT else from <= |ids| && ids[from - 1] == parent
  }

  /** Where x's path parts from y's, y hangs under a sibling with a lesser name. */
  lemma PartingSibling(t: Tree, x: ID, y: ID) returns (q: ID)
    requires Grown(t) && x in t && y in t && Before(t, x, y) && !(Path(t, x) <= Path(t, y))
    ensures q in Path(t, y) && q in t && Before(t, x, q)
    ensures q.clock <= x.clock && q.clock <= y.clock
    ensures q != y ==> Before(t, q, y)
  {
    hide Grown;
    hide Path;
    var a, b := Path(t, x), Path(t, y);
    var k: nat :| Parts(a, b, k);
    q := b[k];
    PathPrefix(t, y, k);
    PathPrefix(t, x, k);
    assert Parts(a, Path(t, q), k);
    if q != y { AncestorBefore(t, q, y); }
  }

  /** Had the skip loop passed y outside the parent's subtree, it would have stopped at y or before. */
  lemma NothingOutsideSkipped(t: Tree, ids: seq<ID>, id: ID, from: nat, i: nat)
    requires Grown(t) && Sorted(t, ids) && Closed(t, Elements(ids))
    requires id in t && id !in ids && PlaceOf(ids, t[id], from)
    requires from <= i < |ids| && forall j :: from <= j <= i ==> Less(id, ids[j])
    ensures Path(t, t[id]) <= Path(t, ids[i])
  {
    hide Before;
    var y := ids[i];
    if !(Path(t, t[id]) <= Path(t, y)) {
      assert from > 0;
      var q := PartingSibling(t, t[id], y);
      var k :| 0 <= k < |Path(t, y)| && Path(t, y)[k] == q;
      PathInside(t, Elements(ids), y, k);
      LessTotal(q, id);
      if q != y {
        var j := IndexBetween(t, ids, from, i, q);
      }
    }
  }

  /** Inside the parent's subtree only greater siblings, and what hangs under them, are passed. */
  lemma SkippedSibling(t: Tree, ids: seq<ID>, id: ID, from: nat, i: nat)
    requires Grown(t) && Sorted(t, ids) && Closed(t, Elements(ids))
    requires id in t && id !in ids && PlaceOf(ids, t[id], from)
    requires from <= i < |ids| && forall j :: from <= j <= i ==> Less(id, ids[j])
    requires Path(t, t[id]) < Path(t, ids[i])
    ensures Less(id, Path(t, ids[i])[|Path(t, t[id])|])
  {
    var y := ids[i];
    var a, b := Path(t, t[id]), Path(t, y);
    var c := b[|a|];
    PathInside(t, Elements(ids), y, |a|);
    PathPrefix(t, y, |a|);
    LessTotal(id, c);
    if Less(c, id) && c != y {
      AncestorBefore(t, c, y);
      if from > 0 { AncestorBefore(t, t[id], c); }
      var j := IndexBetween(t, ids, from, i, c);
    }
  }

  /** Every name the skip loop passes belongs before the new character. */
  lemma SkippedBefore(t: Tree, ids: seq<ID>, id: ID, from: nat, i: nat)
    requires Grown(t) && Sorted(t, ids) && Closed(t, Elements(ids))
    requires id in t && id !in ids && PlaceOf(ids, t[id], from)
    requires from <= i < |ids| && forall j :: from <= j <= i ==> Less(id, ids[j])
    ensures Before(t, ids[i], id)
  {
    NothingOutsideSkipped(t, ids, id, from, i);
    ChildSpot(t, id, ids[i]);
    SkippedSibling(t, ids, id, from, i);
  }

  /** The name the skip loop stops at belongs after the new character. */
  lemma StopAfter(t: Tree, ids: seq<ID>, id: ID, from: nat, k: nat)
    requires Grown(t) && Sorted(t, ids) && Closed(t, Elements(ids))
    requires id in t && id !in ids && PlaceOf(ids, t[id], from)
    requires from <= k < |ids| && !Less(id, ids[k])
    ensures Before(t, id, ids[k])
  {
    var y := ids[k];
    ChildSpot(t, id, y);
    LessTotal(id, y);
    var a, b := Path(t, t[id]), Path(t, y);
    if a <= b {
      PathPrefix(t, y, |a|);
      assert Less(b[|a|], id);
    }
  }

  /** What the skip loop has behind it belongs before the new character. */
  lemma BehindSlot(t: Tree, ids: seq<ID>, id: ID, from: nat, k: nat, i: nat)
    requires Grown(t) && Sorted(t, ids) && Closed(t, Elements(ids))
    requires id in t && id !in ids && PlaceOf(ids, t[id], from)
    requires from <= k <= |ids| && forall j :: from <= j < k ==> Less(id, ids[j])
    requires i < k
    ensures Before(t, ids[i], id)
  {
    if i >= from {
      SkippedBefore(t, ids, id, from, i);
    } else {
      AncestorBefore(t, t[id], id);
      if i < from - 1 { BeforeTransitive(t, ids[i], ids[from - 1], id); }
    }
  }

  /** What the skip loop stops before belongs after the new character. */
  lemma AheadOfSlot(t: Tree, ids: seq<ID>, id: ID, from: nat, k: nat, i: nat)
    requires Grown(t) && Sorted(t, ids) && Closed(t, Elements(ids))
    requires id in t && id !in ids && PlaceOf(ids, t[id], from)
    requires from <= k <= i < |ids| && !Less(id, ids[k])
    ensures Before(t, id, ids[i])
  {
    StopAfter(t, ids, id, from, k);
    if i > k { BeforeTransitive(t, id, ids[k], ids[i]); }
  }

  /** The skip loop finds the one slot that keeps the list in document order. */
  lemma SlotKeepsOrder(t: Tree, ids: seq<ID>, id: ID, from: nat, k: nat)
    requires Grown(t) && Sorted(t, ids) && Closed(t, Elements(ids))
    requires id in t && id !in ids && PlaceOf(ids, t[id], from)
    requires from <= k <= |ids| && forall j :: from <= j < k ==> Less(id, ids[j])
    requires k < |ids| ==> !Less(id, ids[k])
    ensures Sorted(t, ids[..k] + [id] + ids[k..])
  {
    var s := ids[..k] + [id] + ids[k..];
    forall i, j | 0 <= i < j < |s| ensures Before(t, s[i], s[j]) {
      if i < k && j == k {
        BehindSlot(t, ids, id, from, k, i);
      } else if i == k {
        AheadOfSlot(t, ids, id, from, k, j - 1);
      } else {
        assert Before(t, ids[if i < k then i else i - 1], ids[if j < k then j else j - 1]);
      }
    }
  }
}
