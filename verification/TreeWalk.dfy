/** The depth-first walk of an insertion tree, and the lists in document order that are one. */
module TreeWalk {
  import opened Identifiers
  import opened Sets
  import opened InsertionTree

  ghost function Children(t: Tree, p: ID): set<ID> {
    set c | c in t && t[c] == p
  }

  ghost predicate Tops(cs: set<ID>, m: ID) {
    m in cs && forall c {:trigger Less(c, m)} :: c in cs && c != m ==> Less(c, m)
  }

  lemma {:induction false} HasGreatest(cs: set<ID>) returns (m: ID)
    requires cs != {}
    ensures Tops(cs, m)
  {
    var x :| x in cs;
    m := x;
    if cs != {x} {
      var n := HasGreatest(cs - {x});
      LessTotal(x, n);
      m := if Less(n, x) then x else n;
      forall c | c in cs && c != m ensures Less(c, m) {
        if c in cs - {x} && c != n && m == x { LessTransitive(c, n, x); }
      }
    }
  }

  ghost function Greatest(cs: set<ID>): (m: ID)
    requires cs != {}
    ensures Tops(cs, m)
  {
    assert exists m :: Tops(cs, m) by { var m := HasGreatest(cs); }
    var m :| Tops(cs, m);
    m
  }

  /** The nodes whose clock has reached floor. */
  ghost function Above(t: Tree, floor: nat): set<ID> {
    set x | x in t && floor <= x.clock
  }

  /** The walk of the subtrees under the siblings cs, none of whose clocks is below floor. */
  ghost function Forest(t: Tree, cs: set<ID>, floor: nat): seq<ID>
    requires Grown(t) && forall c :: c in cs ==> c in t && floor <= c.clock
    decreases Above(t, floor), cs
  {
    if cs == {} then [] else
      var c := Greatest(cs);
      assert c in Above(t, floor) && c !in Above(t, c.clock + 1);
      [c] + Forest(t, Children(t, c), c.clock + 1) + Forest(t, cs - {c}, floor)
  }

  /** Each node, then the subtrees under it from the greatest child to the least. */
  ghost function DepthFirst(t: Tree): seq<ID>
    requires Grown(t)
  {
    Forest(t, Children(t, ROOT), 0)
  }

  /** x lies in the subtree of one of cs, which are children of p. */
  ghost predicate Hangs(t: Tree, p: ID, cs: set<ID>, x: ID)
    requires Grown(t)
  {
    Path(t, p) < Path(t, x) && Path(t, x)[|Path(t, p)|] in cs
  }

  /** A path through c, a child of p, runs through p. */
  lemma PathThrough(t: Tree, p: ID, c: ID, x: ID)
    requires Grown(t) && c in t && t[c] == p
    ensures Path(t, c) <= Path(t, x) <==> Path(t, p) < Path(t, x) && Path(t, x)[|Path(t, p)|] == c
  {
    var a, b := Path(t, p), Path(t, x);
    if a < b && b[|a|] == c { assert b[..|a| + 1] == a + [c]; }
    if a + [c] <= b { assert b[..|a|] == (a + [c])[..|a|]; }
  }

  lemma HangsUnderOne(t: Tree, p: ID, cs: set<ID>, c: ID, x: ID)
    requires Grown(t) && c in cs && cs <= Children(t, p)
    ensures Hangs(t, p, cs, x) <==> x == c || Hangs(t, c, Children(t, c), x) || Hangs(t, p, cs - {c}, x)
  {
    PathThrough(t, p, c, x);
    var k := |Path(t, c)|;
    if Path(t, c) < Path(t, x) {
      PathPrefix(t, x, k);
      PathPrefix(t, x, k - 1);
    } else if Path(t, c) == Path(t, x) {
      assert x == c;
    }
  }

  lemma SiblingsInOrder(t: Tree, p: ID, c: ID, d: ID, x: ID, y: ID)
    requires Grown(t) && c in t && d in t && t[c] == p && t[d] == p && Less(d, c)
    requires Path(t, c) <= Path(t, x) && Path(t, d) <= Path(t, y)
    ensures Before(t, x, y)
  {
    var k := |Path(t, p)|;
    assert Path(t, c) == Path(t, p) + [c] && Path(t, d) == Path(t, p) + [d];
    assert Path(t, x)[..k] == Path(t, c)[..k] == Path(t, p);
    assert Path(t, y)[..k] == Path(t, d)[..k] == Path(t, p);
    assert Path(t, x)[k] == c && Path(t, y)[k] == d;
    assert Parts(Path(t, x), Path(t, y), k);
  }

  lemma HangsUnder(t: Tree, p: ID, cs: set<ID>, x: ID) returns (d: ID)
    requires Grown(t) && cs <= Children(t, p) && Hangs(t, p, cs, x)
    ensures d in cs && Path(t, d) <= Path(t, x)
  {
    var k := |Path(t, p)|;
    d := Path(t, x)[k];
    PathPrefix(t, x, k);
  }

  /** The walk under cs holds exactly the nodes hanging there, in document order. */
  lemma {:induction false} ForestInOrder(t: Tree, p: ID, cs: set<ID>, floor: nat)
    requires Grown(t) && cs <= Children(t, p) && forall c :: c in cs ==> c in t && floor <= c.clock
    ensures forall x :: x in Forest(t, cs, floor) <==> Hangs(t, p, cs, x)
    ensures Sorted(t, Forest(t, cs, floor))
    decreases Above(t, floor), cs
  {
    if cs != {} {
      var c := Greatest(cs);
      assert c in Above(t, floor) && c !in Above(t, c.clock + 1);
      ForestInOrder(t, c, Children(t, c), c.clock + 1);
      ForestInOrder(t, p, cs - {c}, floor);
      var a, b := Forest(t, Children(t, c), c.clock + 1), Forest(t, cs - {c}, floor);
      assert Forest(t, cs, floor) == [c] + a + b;
      forall x ensures x in [c] + a + b <==> Hangs(t, p, cs, x) {
        HangsUnderOne(t, p, cs, c, x);
      }
      forall x | x in a ensures Before(t, c, x) { AncestorBefore(t, c, x); }
      forall x, y | x in [c] + a && y in b ensures Before(t, x, y) {
        var d := HangsUnder(t, p, cs - {c}, y);
        SiblingsInOrder(t, p, c, d, x, y);
      }
      SortedJoin(t, [c], a);
      SortedJoin(t, [c] + a, b);
    }
  }

  lemma SortedJoin(t: Tree, a: seq<ID>, b: seq<ID>)
    requires Grown(t) && Sorted(t, a) && Sorted(t, b)
    requires forall x, y :: x in a && y in b ==> Before(t, x, y)
    ensures Sorted(t, a + b)
  {
    var s := a + b;
    forall i, j | 0 <= i < j < |s| ensures Before(t, s[i], s[j]) {
      if j < |a| {
        assert Before(t, a[i], a[j]);
      } else if i >= |a| {
        assert Before(t, b[i - |a|], b[j - |a|]);
      }
    }
  }

  /** A set of names has one arrangement in document order. */
  lemma {:induction false} SortedUnique(t: Tree, a: seq<ID>, b: seq<ID>)
    requires Grown(t) && Sorted(t, a) && Sorted(t, b)
    requires forall x :: x in a <==> x in b
    ensures a == b
  {
    assert a != [] ==> a[0] in b;
    assert b != [] ==> b[0] in a;
    if a != [] {
      var j :| 0 <= j < |b| && b[j] == a[0];
      var i :| 0 <= i < |a| && a[i] == b[0];
      if j > 0 {
        assert Before(t, b[0], b[j]);
        BeforeAsymmetric(t, b[0], a[0]);
      }
      SortedTail(t, a);
      SortedTail(t, b);
      SortedUnique(t, a[1..], b[1..]);
      assert a == [a[0]] + a[1..] && b == [b[0]] + b[1..];
    }
  }

  lemma SortedTail(t: Tree, a: seq<ID>)
    requires Grown(t) && Sorted(t, a) && a != []
    ensures Sorted(t, a[1..])
    ensures forall x :: x in a[1..] <==> x in a && x != a[0]
  {
    forall i, j | 0 <= i < j < |a[1..]| ensures Before(t, a[1..][i], a[1..][j]) {
      assert Before(t, a[i + 1], a[j + 1]);
    }
    forall x | x in a[1..] ensures x in a && x != a[0] {
      var i :| 0 <= i < |a[1..]| && a[1..][i] == x;
      assert Before(t, a[0], a[i + 1]);
      BeforeAsymmetric(t, a[0], a[i + 1]);
    }
    assert a == [a[0]] + a[1..];
  }

  /** A list of all the nodes is in document order exactly when it is the depth-first walk. */
  lemma WalkIsTheOrder(t: Tree, ids: seq<ID>)
    requires Grown(t) && Closed(t, t.Keys) && Elements(ids) == t.Keys
    ensures Sorted(t, ids) <==> ids == DepthFirst(t)
  {
    var w := DepthFirst(t);
    ForestInOrder(t, ROOT, Children(t, ROOT), 0);
    forall x ensures x in w <==> x in Elements(ids) {
      if x in t { TopOfPath(t, x); }
    }
    if Sorted(t, ids) {
      forall x ensures x in ids <==> x in w { assert x in ids <==> x in Elements(ids); }
      SortedUnique(t, ids, w);
    }
  }

  lemma {:induction false} TopOfPath(t: Tree, x: ID)
    requires Grown(t) && Closed(t, t.Keys) && x in t
    ensures Path(t, x)[0] in t && t[Path(t, x)[0]] == ROOT
    decreases x.clock
  {
    if t[x] != ROOT { TopOfPath(t, t[x]); }
  }

  /**
   Runs never interleave: what stands between a node and one of its descendants descends from
   it too, so between two characters of a run only text inserted into that run can appear.
   */
  lemma SubtreeContiguous(t: Tree, ids: seq<ID>, i: nat, j: nat, k: nat)
    requires Grown(t) && Sorted(t, ids) && i <= j <= k < |ids|
    requires Descends(t, ids[k], ids[i])
    ensures Descends(t, ids[j], ids[i])
  {
    if i < j < k {
      assert Before(t, ids[i], ids[j]) && Before(t, ids[j], ids[k]);
      var a, b, c := Path(t, ids[i]), Path(t, ids[j]), Path(t, ids[k]);
      var m: nat :| Parts(a, b, m);
      var n: nat :| Parts(b, c, n);
      if m < |a| {
        assert c[m] == a[m];
        if n > m { assert b[m] == b[..n][m] == c[..n][m] == c[m]; LessTotal(a[m], b[m]); }
        if n == m { LessTotal(a[m], b[m]); }
        if n < m { assert b[n] == b[..m][n] == a[..m][n] == a[n] == c[n]; LessTotal(b[n], c[n]); }
        assert false;
      }
    }
  }
}
