/**
 Laying a canvas's new sections over its current ones: what is unchanged keeps its identity,
 along a longest common subsequence, and what was moved elsewhere keeps it too.
 */
module CanvasMerge {

  datatype Section = Section(id: string, kind: string, text: string) {
    /** The section without its name: what moved sections are recognised by. */
    function Key(): Section {
      Section("", kind, text)
    }
  }

  const PROSE := "markdown"

  /** Whether markdown can spell a section kind. */
  predicate Spellable(kind: string) {
    kind in {PROSE, "", "h1", "h2", "h3"}
  }

  predicate Same(a: Section, b: Section) {
    a.kind == b.kind && a.text == b.text
  }

  function Max(a: int, b: int): int {
    if a > b then a else b
  }

  // ----- longest common subsequences -----

  /** The length the table holds for the suffixes of a from i on and of b from j on. */
  function Lcs(a: seq<Section>, b: seq<Section>, i: nat, j: nat): nat
    requires i <= |a| && j <= |b|
    decreases |a| - i + |b| - j
  {
    if i == |a| || j == |b| then 0
    else if Same(a[i], b[j]) then Lcs(a, b, i + 1, j + 1) + 1
    else Max(Lcs(a, b, i + 1, j), Lcs(a, b, i, j + 1))
  }

  /** Pairs of positions, increasing on both sides from i and j on, at which a and b agree. */
  ghost predicate Matching(a: seq<Section>, b: seq<Section>, i: nat, j: nat, m: seq<(nat, nat)>) {
    && (forall k :: 0 <= k < |m| ==> i <= m[k].0 < |a| && j <= m[k].1 < |b| && Same(a[m[k].0], b[m[k].1]))
    && forall k, l :: 0 <= k < l < |m| ==> m[k].0 < m[l].0 && m[k].1 < m[l].1
  }

  lemma {:induction false} MatchingFits(a: seq<Section>, b: seq<Section>, i: nat, j: nat, m: seq<(nat, nat)>)
    requires i <= |a| && j <= |b| && Matching(a, b, i, j, m)
    ensures |m| <= Lcs(a, b, i, j)
    decreases |a| - i + |b| - j
  {
    if m != [] {
      assert i <= m[0].0 < |a| && j <= m[0].1 < |b|;
      if Same(a[i], b[j]) {
        var rest := m[1..];
        forall k | 0 <= k < |rest| ensures i + 1 <= rest[k].0 && j + 1 <= rest[k].1 {
          assert m[0].0 < m[k + 1].0 && m[0].1 < m[k + 1].1;
        }
        MatchingFits(a, b, i + 1, j + 1, rest);
      } else if m[0].0 > i {
        assert forall k :: 1 <= k < |m| ==> m[0].0 < m[k].0;
        MatchingFits(a, b, i + 1, j, m);
      } else {
        assert m[0].1 > j;
        assert forall k :: 1 <= k < |m| ==> m[0].1 < m[k].1;
        MatchingFits(a, b, i, j + 1, m);
      }
    }
  }

  // ----- the walk -----

  datatype Move = Keep(i: nat, j: nat) | Add(j: nat) | Drop(i: nat)

  /** The walk along the table: keep what agrees, else go where more is left in common, adding on a tie. */
  function Align(a: seq<Section>, b: seq<Section>, i: nat, j: nat): seq<Move>
    requires i <= |a| && j <= |b|
    decreases |a| - i + |b| - j
  {
    if i == |a| && j == |b| then []
    else if i < |a| && j < |b| && Same(a[i], b[j]) then [Keep(i, j)] + Align(a, b, i + 1, j + 1)
    else if j < |b| && (i == |a| || Lcs(a, b, i, j + 1) >= Lcs(a, b, i + 1, j)) then [Add(j)] + Align(a, b, i, j + 1)
    else [Drop(i)] + Align(a, b, i + 1, j)
  }

  ghost function Kept(moves: seq<Move>): seq<(nat, nat)> {
    if moves == [] then [] else
      (if moves[0].Keep? then [(moves[0].i, moves[0].j)] else []) + Kept(moves[1..])
  }

  lemma MatchingWidens(a: seq<Section>, b: seq<Section>, i: nat, j: nat, k: nat, l: nat, m: seq<(nat, nat)>)
    requires k <= i && l <= j && Matching(a, b, i, j, m)
    ensures Matching(a, b, k, l, m)
  {
  }

  lemma KeptNothing(a: seq<Section>, b: seq<Section>, i: nat, j: nat)
    ensures Kept([]) == [] && Matching(a, b, i, j, [])
  {
  }

  lemma KeptMore(move: Move, moves: seq<Move>)
    ensures Kept([move] + moves) == if move.Keep? then [(move.i, move.j)] + Kept(moves) else Kept(moves)
  {
    assert ([move] + moves)[1..] == moves;
  }

  lemma KeepMore(a: seq<Section>, b: seq<Section>, i: nat, j: nat, m: seq<(nat, nat)>)
    requires i < |a| && j < |b| && Same(a[i], b[j]) && Matching(a, b, i + 1, j + 1, m)
    ensures Matching(a, b, i, j, [(i, j)] + m)
  {
  }

  /** The walk keeps a common subsequence as long as the table says, and so a longest one. */
  lemma {:induction false} WalkKeepsLongest(a: seq<Section>, b: seq<Section>, i: nat, j: nat)
    requires i <= |a| && j <= |b|
    ensures var m := Kept(Align(a, b, i, j)); Matching(a, b, i, j, m) && |m| == Lcs(a, b, i, j)
    decreases |a| - i + |b| - j
  {
    hide Same;
    hide Kept;
    KeptNothing(a, b, i, j);
    hide Matching;
    if i < |a| && j < |b| && Same(a[i], b[j]) {
      WalkKeepsLongest(a, b, i + 1, j + 1);
      KeepMore(a, b, i, j, Kept(Align(a, b, i + 1, j + 1)));
      KeptMore(Keep(i, j), Align(a, b, i + 1, j + 1));
    } else if j < |b| && (i == |a| || Lcs(a, b, i, j + 1) >= Lcs(a, b, i + 1, j)) {
      WalkKeepsLongest(a, b, i, j + 1);
      KeptMore(Add(j), Align(a, b, i, j + 1));
      MatchingWidens(a, b, i, j + 1, i, j, Kept(Align(a, b, i, j + 1)));
    } else if i < |a| {
      WalkKeepsLongest(a, b, i + 1, j);
      KeptMore(Drop(i), Align(a, b, i + 1, j));
      MatchingWidens(a, b, i + 1, j, i, j, Kept(Align(a, b, i + 1, j)));
    }
  }

  /** The table's first cell is the length of a longest common subsequence: attained, and never exceeded. */
  lemma TableIsLongest(a: seq<Section>, b: seq<Section>, i: nat, j: nat)
    requires i <= |a| && j <= |b|
    ensures exists m :: Matching(a, b, i, j, m) && |m| == Lcs(a, b, i, j)
    ensures forall m :: Matching(a, b, i, j, m) ==> |m| <= Lcs(a, b, i, j)
  {
    WalkKeepsLongest(a, b, i, j);
    forall m | Matching(a, b, i, j, m) ensures |m| <= Lcs(a, b, i, j) { MatchingFits(a, b, i, j, m); }
  }

  // ----- laying out -----

  /** The merged sections so far, and the current run of edits: what it removed and where it added. */
  datatype Draft = Draft(merged: seq<Section>, removed: seq<Section>, added: seq<nat>, changed: nat)

  /** Prose standing in for an app's section, from the k-th pair of the run on, takes its kind. */
  function TakeKinds(merged: seq<Section>, removed: seq<Section>, added: seq<nat>, k: nat): (r: seq<Section>)
    requires forall l :: 0 <= l < |added| ==> added[l] < |merged|
    ensures |r| == |merged|
    decreases |removed| - k
  {
    if k >= |removed| || k >= |added| then merged else
      var at, kind := added[k], removed[k].kind;
      TakeKinds(if merged[at].kind == PROSE && !Spellable(kind) then merged[at := merged[at].(kind := kind)] else merged,
        removed, added, k + 1)
  }

  /** End a run of edits: count it, and let prose in it take over app kinds. */
  function Settle(d: Draft): Draft
    requires forall l :: 0 <= l < |d.added| ==> d.added[l] < |d.merged|
  {
    Draft(TakeKinds(d.merged, d.removed, d.added, 0), [], [], d.changed + Max(|d.removed|, |d.added|))
  }

  ghost predicate InBounds(d: Draft) {
    forall l :: 0 <= l < |d.added| ==> d.added[l] < |d.merged|
  }

  ghost function Lay(a: seq<Section>, b: seq<Section>, i: nat, j: nat, d: Draft): (r: Draft)
    requires i <= |a| && j <= |b| && InBounds(d)
    ensures InBounds(r)
    decreases |a| - i + |b| - j
  {
    if i == |a| && j == |b| then Settle(d)
    else if i < |a| && j < |b| && Same(a[i], b[j]) then
      var s := Settle(d);
      Lay(a, b, i + 1, j + 1, s.(merged := s.merged + [a[i]]))
    else if j < |b| && (i == |a| || Lcs(a, b, i, j + 1) >= Lcs(a, b, i + 1, j)) then
      Lay(a, b, i, j + 1, d.(merged := d.merged + [b[j].(id := "")], added := d.added + [|d.merged|]))
    else
      Lay(a, b, i + 1, j, d.(removed := d.removed + [a[i]]))
  }

  // ----- moved sections -----

  type Pool = map<Section, seq<string>>

  function Names(pool: Pool, key: Section): seq<string> {
    if key in pool then pool[key] else []
  }

  function Ids(sections: seq<Section>): set<string> {
    set s | s in sections && s.id != "" :: s.id
  }

  /** The names of current sections that were not kept, by kind and text, in their order. */
  function Unused(current: seq<Section>, kept: set<string>): Pool {
    if current == [] then map[] else
      var before, s := Unused(current[..|current| - 1], kept), current[|current| - 1];
      if s.id != "" && s.id !in kept then before[s.Key() := Names(before, s.Key()) + [s.id]] else before
  }

  /** Give sections without a name, from the k-th on, the first unused name of their kind and text. */
  function Rename(merged: seq<Section>, pool: Pool, k: nat): (r: seq<Section>)
    requires k <= |merged|
    ensures |r| == |merged|
    decreases |merged| - k
  {
    if k == |merged| then merged else
      var key := merged[k].Key();
      var names := Names(pool, key);
      if merged[k].id == "" && |names| > 0
        then Rename(merged[k := merged[k].(id := names[0])], pool[key := names[1..]], k + 1)
        else Rename(merged, pool, k + 1)
  }

  ghost function Merge(current: seq<Section>, next: seq<Section>): (seq<Section>, nat) {
    var d := Lay(current, next, 0, 0, Draft([], [], [], 0));
    (Rename(d.merged, Unused(current, Ids(d.merged)), 0), d.changed)
  }

  // ----- in place, as the program does it -----

  method FillTable(current: seq<Section>, next: seq<Section>) returns (lengths: array2<int>)
    ensures fresh(lengths) && lengths.Length0 == |current| + 1 && lengths.Length1 == |next| + 1
    ensures forall i, j :: 0 <= i <= |current| && 0 <= j <= |next| ==> lengths[i, j] == Lcs(current, next, i, j)
  {
    var m, n := |current|, |next|;
    lengths := new int[m + 1, n + 1]((i, j) => 0);
    for i := m downto 0
      invariant forall k, l :: 0 <= k <= m && 0 <= l <= n ==> lengths[k, l] == if k >= i then Lcs(current, next, k, l) else 0
    {
      for j := n downto 0
        invariant forall k, l :: 0 <= k <= m && 0 <= l <= n ==>
          lengths[k, l] == if k > i || (k == i && l >= j) then Lcs(current, next, k, l) else 0
      {
        if Same(current[i], next[j]) {
          lengths[i, j] := lengths[i + 1, j + 1] + 1;
        } else {
          lengths[i, j] := Max(lengths[i + 1, j], lengths[i, j + 1]);
        }
      }
    }
  }

  method MergeSections(current: seq<Section>, next: seq<Section>) returns (merged: seq<Section>, changed: nat)
    ensures (merged, changed) == Merge(current, next)
  {
    var lengths := FillTable(current, next);
    var d := Draft([], [], [], 0);
    var i, j := 0, 0;
    while i < |current| || j < |next|
      modifies {}
      invariant i <= |current| && j <= |next| && InBounds(d)
      invariant Lay(current, next, i, j, d) == Lay(current, next, 0, 0, Draft([], [], [], 0))
      decreases |current| - i + |next| - j
    {
      if i < |current| && j < |next| && Same(current[i], next[j]) {
        d := SettleRun(d);
        d := d.(merged := d.merged + [current[i]]);
        i, j := i + 1, j + 1;
      } else if j < |next| && (i == |current| || lengths[i, j + 1] >= lengths[i + 1, j]) {
        d := d.(merged := d.merged + [next[j].(id := "")], added := d.added + [|d.merged|]);
        j := j + 1;
      } else {
        d := d.(removed := d.removed + [current[i]]);
        i := i + 1;
      }
    }
    d := SettleRun(d);
    changed := d.changed;
    merged := d.merged;
    var moved := UnusedNames(current, merged);
    ghost var pool := moved;
    for k := 0 to |merged|
      invariant |merged| == |d.merged|
      invariant Rename(merged, moved, k) == Rename(d.merged, pool, 0)
    {
      var key := merged[k].Key();
      var names := Names(moved, key);
      if merged[k].id == "" && |names| > 0 {
        merged := merged[k := merged[k].(id := names[0])];
        moved := moved[key := names[1..]];
      }
    }
  }

  method SettleRun(d: Draft) returns (r: Draft)
    requires InBounds(d)
    ensures r == Settle(d)
  {
    var merged := d.merged;
    var k := 0;
    while k < |d.removed| && k < |d.added|
      invariant k <= |d.removed| && k <= |d.added| && |merged| == |d.merged|
      invariant TakeKinds(merged, d.removed, d.added, k) == TakeKinds(d.merged, d.removed, d.added, 0)
    {
      var kind := d.removed[k].kind;
      if merged[d.added[k]].kind == PROSE && !Spellable(kind) {
        merged := merged[d.added[k] := merged[d.added[k]].(kind := kind)];
      }
      k := k + 1;
    }
    r := Draft(merged, [], [], d.changed + Max(|d.removed|, |d.added|));
  }

  method UnusedNames(current: seq<Section>, merged: seq<Section>) returns (moved: Pool)
    ensures moved == Unused(current, Ids(merged))
  {
    var kept: set<string> := {};
    for k := 0 to |merged|
      invariant kept == Ids(merged[..k])
    {
      assert merged[..k + 1] == merged[..k] + [merged[k]];
      if merged[k].id != "" { kept := kept + {merged[k].id}; }
    }
    assert merged[..|merged|] == merged;
    moved := map[];
    for k := 0 to |current|
      invariant moved == Unused(current[..k], kept)
    {
      assert current[..k + 1][..k] == current[..k];
      var s := current[k];
      if s.id != "" && s.id !in kept {
        moved := moved[s.Key() := Names(moved, s.Key()) + [s.id]];
      }
    }
    assert current[..|current|] == current;
  }
}
