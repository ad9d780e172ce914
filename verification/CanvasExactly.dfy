/**
 What a merge comes to, section by section, told by the pairs the walk keeps: which kind each new
 section gets, which name, and how many sections count as changed.
 */
module CanvasExactly {
  import opened CanvasMerge
  import opened CanvasIdentity

  // ----- the walk -----

  ghost predicate Longest(a: seq<Section>, b: seq<Section>, i: nat, j: nat, m: seq<(nat, nat)>) {
    Matching(a, b, i, j, m) && forall n :: Matching(a, b, i, j, n) ==> |n| <= |m|
  }

  ghost predicate UsesNew(m: seq<(nat, nat)>, j: nat) {
    exists k :: 0 <= k < |m| && m[k].1 == j
  }

  lemma LongestIsLcs(a: seq<Section>, b: seq<Section>, i: nat, j: nat, m: seq<(nat, nat)>)
    requires i <= |a| && j <= |b|
    ensures Longest(a, b, i, j, m) <==> Matching(a, b, i, j, m) && |m| == Lcs(a, b, i, j)
  {
    TableIsLongest(a, b, i, j);
    hide Lcs;
    hide Matching;
  }

  /** The current section where a gap before the first kept pair begins is s; later gaps begin past the pair before. */
  ghost function GapStart(s: (nat, nat), m: seq<(nat, nat)>, g: nat): (nat, nat)
    requires g <= |m|
  {
    if g == 0 then s else (m[g - 1].0 + 1, m[g - 1].1 + 1)
  }

  ghost function GapEnd(a: seq<Section>, b: seq<Section>, m: seq<(nat, nat)>, g: nat): (nat, nat)
    requires g <= |m|
  {
    if g == |m| then (|a|, |b|) else m[g]
  }

  /** Where the walk stands before its k-th move. */
  ghost function Stand(moves: seq<Move>, i: nat, j: nat, k: nat): (nat, nat)
    requires k <= |moves|
  {
    if k == 0 then (i, j)
    else
      var (x, y) := Stand(moves, i, j, k - 1);
      match moves[k - 1]
      case Keep(_, _) => (x + 1, y + 1)
      case Add(_) => (x, y + 1)
      case Drop(_) => (x + 1, y)
  }

  lemma {:induction false} StandNext(move: Move, moves: seq<Move>, i: nat, j: nat, k: nat)
    requires k <= |moves|
    ensures var (x, y) := Stand([move] + moves, i, j, 1); Stand([move] + moves, i, j, k + 1) == Stand(moves, x, y, k)
  {
    if k > 0 {
      StandNext(move, moves, i, j, k - 1);
      assert ([move] + moves)[k] == moves[k - 1];
    }
  }

  lemma StandsFirst(moves: seq<Move>, i: nat, j: nat)
    ensures Stand(moves, i, j, 0) == (i, j)
  {}

  /** Where the first move leads, and that the others are the walk from there. */
  lemma AfterFirst(a: seq<Section>, b: seq<Section>, i: nat, j: nat) returns (x: nat, y: nat)
    requires i <= |a| && j <= |b| && Align(a, b, i, j) != []
    ensures var moves := Align(a, b, i, j);
            && i <= x <= |a| && j <= y <= |b| && i + j < x + y && Stand(moves, i, j, 1) == (x, y)
            && moves == [moves[0]] + moves[1..] && moves[1..] == Align(a, b, x, y)
  {
    hide Lcs;
    hide Same;
    var moves := Align(a, b, i, j);
    StandsFirst(moves, i, j);
    match moves[0]
    case Keep(_, _) => x, y := i + 1, j + 1;
    case Add(_) => x, y := i, j + 1;
    case Drop(_) => x, y := i + 1, j;
    assert moves == [moves[0]] + moves[1..];
  }

  /**
   The move from (x, y): sections that agree are kept; otherwise the new one is added if some longest common
   subsequence does without it, and only else the current one is dropped.
   */
  ghost predicate Chosen(a: seq<Section>, b: seq<Section>, x: nat, y: nat, move: Move) {
    && x <= |a| && y <= |b|
    && move == (if x < |a| && y < |b| && Same(a[x], b[y]) then Keep(x, y)
                else if y < |b| && exists m :: Longest(a, b, x, y, m) && !UsesNew(m, y) then Add(y)
                else Drop(x))
  }

  lemma {:induction false} WalkMoves(a: seq<Section>, b: seq<Section>, i: nat, j: nat, k: nat)
    requires i <= |a| && j <= |b| && k < |Align(a, b, i, j)|
    ensures var moves := Align(a, b, i, j); var (x, y) := Stand(moves, i, j, k); Chosen(a, b, x, y, moves[k])
    decreases k, |a| - i + |b| - j
  {
    hide Lcs;
    hide Align;
    hide Stand;
    hide Chosen;
    if k == 0 {
      StandsFirst(Align(a, b, i, j), i, j);
      FirstMove(a, b, i, j);
    } else {
      var moves := Align(a, b, i, j);
      var x, y := AfterFirst(a, b, i, j);
      StandNext(moves[0], moves[1..], i, j, k - 1);
      WalkMoves(a, b, x, y, k - 1);
    }
  }

  /** The walk ends past both texts. */
  lemma {:induction false} WalkEnds(a: seq<Section>, b: seq<Section>, i: nat, j: nat)
    requires i <= |a| && j <= |b|
    ensures var moves := Align(a, b, i, j); Stand(moves, i, j, |moves|) == (|a|, |b|)
    decreases |a| - i + |b| - j
  {
    hide Lcs;
    hide Same;
    var moves := Align(a, b, i, j);
    if moves != [] {
      var x, y := AfterFirst(a, b, i, j);
      StandNext(moves[0], moves[1..], i, j, |moves| - 1);
      WalkEnds(a, b, x, y);
    }
  }

  lemma FirstMove(a: seq<Section>, b: seq<Section>, i: nat, j: nat)
    requires i <= |a| && j <= |b| && Align(a, b, i, j) != []
    ensures Chosen(a, b, i, j, Align(a, b, i, j)[0])
  {
    if j < |b| && !(i < |a| && Same(a[i], b[j])) {
      AvoidsNew(a, b, i, j);
      assert i < |a| ==> Lcs(a, b, i, j) == Max(Lcs(a, b, i + 1, j), Lcs(a, b, i, j + 1));
    }
    hide Lcs;
    hide Longest;
    hide UsesNew;
    hide Same;
  }

  /** Some longest common subsequence does without the next new section exactly when skipping it loses nothing. */
  lemma AvoidsNew(a: seq<Section>, b: seq<Section>, i: nat, j: nat)
    requires i <= |a| && j < |b|
    ensures (exists m :: Longest(a, b, i, j, m) && !UsesNew(m, j)) <==> Lcs(a, b, i, j + 1) >= Lcs(a, b, i, j)
  {
    hide Lcs;
    if m :| Longest(a, b, i, j, m) && !UsesNew(m, j) {
      LongestIsLcs(a, b, i, j, m);
      assert Matching(a, b, i, j + 1, m);
      MatchingFits(a, b, i, j + 1, m);
    }
    if Lcs(a, b, i, j + 1) >= Lcs(a, b, i, j) {
      TableIsLongest(a, b, i, j + 1);
      var m :| Matching(a, b, i, j + 1, m) && |m| == Lcs(a, b, i, j + 1);
      MatchingWidens(a, b, i, j + 1, i, j, m);
      MatchingFits(a, b, i, j, m);
      LongestIsLcs(a, b, i, j, m);
      assert !UsesNew(m, j);
    }
  }

  // ----- kinds, and how much is counted -----

  /** The kind a new section gets that stands in for a current one. */
  function KindFor(asked: Section, stoodFor: Section): string {
    if asked.kind == PROSE && !Spellable(stoodFor.kind) then stoodFor.kind else asked.kind
  }

  /** The draft's run began at (x, y): it removed the current sections from x to i, and added the new ones from y to j. */
  ghost predicate InRun(a: seq<Section>, b: seq<Section>, x: nat, y: nat, i: nat, j: nat, d: Draft) {
    && x <= i <= |a| && y <= j <= |b| && |d.merged| == j
    && d.removed == a[x..i] && |d.added| == j - y
    && (forall l :: 0 <= l < j - y ==> d.added[l] == y + l)
    && forall l :: y <= l < j ==> d.merged[l] == b[l].(id := "")
  }

  lemma {:induction false} TakeKindsExactly(merged: seq<Section>, removed: seq<Section>, added: seq<nat>, y: nat, k: nat, l: nat)
    requires y + |added| <= |merged| && (forall n :: 0 <= n < |added| ==> added[n] == y + n) && l < |merged|
    ensures TakeKinds(merged, removed, added, k)[l] ==
              if y + k <= l < y + |added| && l - y < |removed| then merged[l].(kind := KindFor(merged[l], removed[l - y])) else merged[l]
    decreases |removed| - k
  {
    if k < |removed| && k < |added| {
      var at, kind := added[k], removed[k].kind;
      var next := if merged[at].kind == PROSE && !Spellable(kind) then merged[at := merged[at].(kind := kind)] else merged;
      TakeKindsExactly(next, removed, added, y, k + 1, l);
    }
  }

  lemma SettledRun(a: seq<Section>, b: seq<Section>, x: nat, y: nat, i: nat, j: nat, d: Draft, l: nat)
    requires InRun(a, b, x, y, i, j, d) && InBounds(d) && l < j
    ensures |Settle(d).merged| == j
    ensures Settle(d).merged[l] ==
              if y <= l && x + l - y < i then b[l].(id := "", kind := KindFor(b[l], a[x + l - y])) else d.merged[l]
  {
    TakeKindsExactly(d.merged, d.removed, d.added, y, 0, l);
    hide TakeKinds;
  }

  lemma RunAdds(a: seq<Section>, b: seq<Section>, x: nat, y: nat, i: nat, j: nat, d: Draft)
    requires InRun(a, b, x, y, i, j, d) && j < |b|
    ensures InRun(a, b, x, y, i, j + 1, d.(merged := d.merged + [b[j].(id := "")], added := d.added + [|d.merged|]))
  {
  }

  lemma RunDrops(a: seq<Section>, b: seq<Section>, x: nat, y: nat, i: nat, j: nat, d: Draft)
    requires InRun(a, b, x, y, i, j, d) && i < |a|
    ensures InRun(a, b, x, y, i + 1, j, d.(removed := d.removed + [a[i]]))
  {
  }

  /** The changes counted from the g-th gap on: of each gap the longer side. */
  ghost function GapChanges(a: seq<Section>, b: seq<Section>, s: (nat, nat), m: seq<(nat, nat)>, g: nat): int
    requires g <= |m|
    decreases |m| - g
  {
    var (x, y), (u, v) := GapStart(s, m, g), GapEnd(a, b, m, g);
    Max(u - x, v - y) + if g == |m| then 0 else GapChanges(a, b, s, m, g + 1)
  }

  lemma {:induction false} GapChangesNext(a: seq<Section>, b: seq<Section>, s: (nat, nat), first: (nat, nat), rest: seq<(nat, nat)>, g: nat)
    requires g <= |rest|
    ensures GapChanges(a, b, s, [first] + rest, g + 1) == GapChanges(a, b, (first.0 + 1, first.1 + 1), rest, g)
    decreases |rest| - g
  {
    if g < |rest| { GapChangesNext(a, b, s, first, rest, g + 1); }
  }

  /** From a run on, each run counts the longer of its two sides. */
  lemma {:induction false} LayChanges(a: seq<Section>, b: seq<Section>, x: nat, y: nat, i: nat, j: nat, d: Draft)
    requires InRun(a, b, x, y, i, j, d) && InBounds(d)
    ensures Lay(a, b, i, j, d).changed == d.changed + GapChanges(a, b, (x, y), Kept(Align(a, b, i, j)), 0)
    decreases |a| - i + |b| - j
  {
    hide Lcs;
    hide Align;
    hide Kept;
    hide Settle;
    hide Same;
    hide Max;
    SettledShape(a, b, x, y, i, j, d);
    KeptStep(a, b, i, j);
    if i == |a| && j == |b| {
    } else if i < |a| && j < |b| && Same(a[i], b[j]) {
      var e := Settle(d).(merged := Settle(d).merged + [a[i]]);
      LayChanges(a, b, i + 1, j + 1, i + 1, j + 1, e);
      GapChangesNext(a, b, (x, y), (i, j), Kept(Align(a, b, i + 1, j + 1)), 0);
    } else if j < |b| && (i == |a| || Lcs(a, b, i, j + 1) >= Lcs(a, b, i + 1, j)) {
      RunAdds(a, b, x, y, i, j, d);
      LayChanges(a, b, x, y, i, j + 1, d.(merged := d.merged + [b[j].(id := "")], added := d.added + [|d.merged|]));
    } else {
      RunDrops(a, b, x, y, i, j, d);
      LayChanges(a, b, x, y, i + 1, j, d.(removed := d.removed + [a[i]]));
    }
  }

  /** What the g-th gap lays out at l, by the pairs kept: the new section, of the kind of the current one it stands in for. */
  ghost predicate LaidInGap(a: seq<Section>, b: seq<Section>, s: (nat, nat), m: seq<(nat, nat)>, g: nat, l: nat, laid: Section)
    requires g <= |m|
  {
    var (x, y), (u, v) := GapStart(s, m, g), GapEnd(a, b, m, g);
    y <= l < v <= |b| && u <= |a| ==>
      laid == b[l].(id := "", kind := if x + l - y < u then KindFor(b[l], a[x + l - y]) else b[l].kind)
  }

  lemma {:induction false} LayLength(a: seq<Section>, b: seq<Section>, x: nat, y: nat, i: nat, j: nat, d: Draft)
    requires InRun(a, b, x, y, i, j, d) && InBounds(d)
    ensures |Lay(a, b, i, j, d).merged| == |b|
    decreases |a| - i + |b| - j
  {
    hide Lcs;
    hide TakeKinds;
    hide Settle;
    SettledShape(a, b, x, y, i, j, d);
    if i == |a| && j == |b| {
    } else if i < |a| && j < |b| && Same(a[i], b[j]) {
      LayLength(a, b, i + 1, j + 1, i + 1, j + 1, Settle(d).(merged := Settle(d).merged + [a[i]]));
    } else if j < |b| && (i == |a| || Lcs(a, b, i, j + 1) >= Lcs(a, b, i + 1, j)) {
      RunAdds(a, b, x, y, i, j, d);
      LayLength(a, b, x, y, i, j + 1, d.(merged := d.merged + [b[j].(id := "")], added := d.added + [|d.merged|]));
    } else {
      RunDrops(a, b, x, y, i, j, d);
      LayLength(a, b, x, y, i + 1, j, d.(removed := d.removed + [a[i]]));
    }
  }

  /** The gap that ends at (i, j) lays out what the run there settles to. */
  lemma RunLaid(a: seq<Section>, b: seq<Section>, x: nat, y: nat, i: nat, j: nat, d: Draft, m: seq<(nat, nat)>, l: nat, laid: Section)
    requires InRun(a, b, x, y, i, j, d) && InBounds(d)
    requires GapEnd(a, b, m, 0) == (i, j) && (l < j ==> |Settle(d).merged| == j && laid == Settle(d).merged[l])
    ensures LaidInGap(a, b, (x, y), m, 0, l, laid)
  {
    if l < j { SettledRun(a, b, x, y, i, j, d, l); }
    hide Settle;
    hide KindFor;
  }

  lemma LaidPast(a: seq<Section>, b: seq<Section>, s: (nat, nat), first: (nat, nat), rest: seq<(nat, nat)>, g: nat, l: nat, laid: Section)
    requires g <= |rest| && LaidInGap(a, b, (first.0 + 1, first.1 + 1), rest, g, l, laid)
    ensures LaidInGap(a, b, s, [first] + rest, g + 1, l, laid)
  {
    hide KindFor;
  }

  lemma {:induction false} LayKinds(a: seq<Section>, b: seq<Section>, x: nat, y: nat, i: nat, j: nat, d: Draft, g: nat, l: nat)
    requires InRun(a, b, x, y, i, j, d) && InBounds(d) && g <= |Kept(Align(a, b, i, j))| && l < |b|
    requires |Lay(a, b, i, j, d).merged| == |b|
    ensures LaidInGap(a, b, (x, y), Kept(Align(a, b, i, j)), g, l, Lay(a, b, i, j, d).merged[l])
    decreases |a| - i + |b| - j
  {
    hide Lcs;
    hide Align;
    hide Kept;
    hide Settle;
    hide LaidInGap;
    KeptStep(a, b, i, j);
    SettledShape(a, b, x, y, i, j, d);
    var m, laid := Kept(Align(a, b, i, j)), Lay(a, b, i, j, d).merged[l];
    if i == |a| && j == |b| {
      RunLaid(a, b, x, y, i, j, d, m, l, laid);
    } else if i < |a| && j < |b| && Same(a[i], b[j]) {
      var e := Settle(d).(merged := Settle(d).merged + [a[i]]);
      if g == 0 {
        if l < j { LaterKeeps(a, b, i + 1, j + 1, e, l); }
        RunLaid(a, b, x, y, i, j, d, m, l, laid);
      } else {
        LayKinds(a, b, i + 1, j + 1, i + 1, j + 1, e, g - 1, l);
        LaidPast(a, b, (x, y), (i, j), m[1..], g - 1, l, laid);
      }
    } else if j < |b| && (i == |a| || Lcs(a, b, i, j + 1) >= Lcs(a, b, i + 1, j)) {
      RunAdds(a, b, x, y, i, j, d);
      LayKinds(a, b, x, y, i, j + 1, d.(merged := d.merged + [b[j].(id := "")], added := d.added + [|d.merged|]), g, l);
    } else {
      RunDrops(a, b, x, y, i, j, d);
      LayKinds(a, b, x, y, i + 1, j, d.(removed := d.removed + [a[i]]), g, l);
    }
  }

  lemma SettledShape(a: seq<Section>, b: seq<Section>, x: nat, y: nat, i: nat, j: nat, d: Draft)
    requires InRun(a, b, x, y, i, j, d) && InBounds(d)
    ensures |Settle(d).merged| == j && Settle(d).added == [] && Settle(d).removed == []
    ensures Settle(d).changed == d.changed + Max(i - x, j - y)
  {
  }

  /** The sections the walk keeps are laid out where the new text has them. */
  lemma {:induction false} LayKeeps(a: seq<Section>, b: seq<Section>, x: nat, y: nat, i: nat, j: nat, d: Draft, g: nat)
    requires InRun(a, b, x, y, i, j, d) && InBounds(d) && g < |Kept(Align(a, b, i, j))|
    ensures var (u, v) := Kept(Align(a, b, i, j))[g];
            u < |a| && v < |b| && v < |Lay(a, b, i, j, d).merged| && Lay(a, b, i, j, d).merged[v] == a[u]
    decreases |a| - i + |b| - j
  {
    hide Lcs;
    hide Align;
    hide Kept;
    hide TakeKinds;
    hide Settle;
    KeptStep(a, b, i, j);
    SettledShape(a, b, x, y, i, j, d);
    if i == |a| && j == |b| {
    } else if i < |a| && j < |b| && Same(a[i], b[j]) {
      var e := Settle(d).(merged := Settle(d).merged + [a[i]]);
      if g > 0 { LayKeeps(a, b, i + 1, j + 1, i + 1, j + 1, e, g - 1); } else { LaterKeeps(a, b, i + 1, j + 1, e, j); }
    } else if j < |b| && (i == |a| || Lcs(a, b, i, j + 1) >= Lcs(a, b, i + 1, j)) {
      RunAdds(a, b, x, y, i, j, d);
      LayKeeps(a, b, x, y, i, j + 1, d.(merged := d.merged + [b[j].(id := "")], added := d.added + [|d.merged|]), g);
    } else {
      RunDrops(a, b, x, y, i, j, d);
      LayKeeps(a, b, x, y, i + 1, j, d.(removed := d.removed + [a[i]]), g);
    }
  }

  // ----- names -----

  /** The names of current sections of one kind and text, in their order, but for those taken. */
  ghost function Free(current: seq<Section>, taken: set<string>, key: Section): seq<string> {
    if current == [] then []
    else
      var s := current[|current| - 1];
      Free(current[..|current| - 1], taken, key) + if s.id != "" && s.id !in taken && s.Key() == key then [s.id] else []
  }

  lemma {:induction false} UnusedIsFree(current: seq<Section>, taken: set<string>, key: Section)
    ensures Names(Unused(current, taken), key) == Free(current, taken, key)
  {
    if current != [] { UnusedIsFree(current[..|current| - 1], taken, key); }
  }

  /** How many sections from k up to l have no name and the same kind and text as the one at l. */
  ghost function Rank(merged: seq<Section>, k: nat, l: nat): nat
    requires l < |merged|
    decreases |merged| - k
  {
    if k >= l then 0
    else (if merged[k].id == "" && merged[k].Key() == merged[l].Key() then 1 else 0) + Rank(merged, k + 1, l)
  }

  /** Naming an earlier section changes no later rank. */
  lemma {:induction false} RankAfter(merged: seq<Section>, at: nat, name: string, k: nat, l: nat)
    requires at < k && l < |merged| && at < |merged|
    ensures Rank(merged[at := merged[at].(id := name)], k, l) == Rank(merged, k, l)
    decreases |merged| - k
  {
    if k < l { RankAfter(merged, at, name, k + 1, l); }
  }

  lemma {:induction false} RenameLeavesBefore(merged: seq<Section>, pool: Pool, k: nat, l: nat)
    requires l < k <= |merged|
    ensures Rename(merged, pool, k)[l] == merged[l]
    decreases |merged| - k
  {
    if k < |merged| {
      var names := Names(pool, merged[k].Key());
      if merged[k].id == "" && |names| > 0 {
        RenameLeavesBefore(merged[k := merged[k].(id := names[0])], pool[merged[k].Key() := names[1..]], k + 1, l);
      } else {
        RenameLeavesBefore(merged, pool, k + 1, l);
      }
    }
  }

  /** A section without a name gets the name set aside for its kind and text that its rank picks, if there is one. */
  lemma {:induction false} RenameGives(merged: seq<Section>, pool: Pool, k: nat, l: nat)
    requires k <= l < |merged| && merged[l].id == ""
    ensures var names, n := Names(pool, merged[l].Key()), Rank(merged, k, l);
            Rename(merged, pool, k)[l] == merged[l].(id := if n < |names| then names[n] else "")
    decreases |merged| - k
  {
    hide Rank;
    RankNext(merged, k, l);
    var names := Names(pool, merged[k].Key());
    if merged[k].id == "" && |names| > 0 {
      var given, rest := merged[k := merged[k].(id := names[0])], pool[merged[k].Key() := names[1..]];
      if k == l {
        RenameLeavesBefore(given, rest, k + 1, l);
      } else {
        RenameGives(given, rest, k + 1, l);
        RankAfter(merged, k, names[0], k + 1, l);
      }
    } else if k == l {
      RenameLeavesBefore(merged, pool, k + 1, l);
    } else {
      RenameGives(merged, pool, k + 1, l);
    }
  }

  lemma RankNext(merged: seq<Section>, k: nat, l: nat)
    requires k <= l < |merged|
    ensures Rank(merged, k, l) ==
              if k == l then 0
              else (if merged[k].id == "" && merged[k].Key() == merged[l].Key() then 1 else 0) + Rank(merged, k + 1, l)
  {
  }

  // ----- the whole merge -----

  /** What is laid out before names are given to moved sections. */
  ghost function LaidOut(current: seq<Section>, next: seq<Section>): seq<Section> {
    Lay(current, next, 0, 0, Draft([], [], [], 0)).merged
  }

  /**
   The whole merge, by the pairs (x, y) of a longest common subsequence. A kept section stands as it was. Any
   other stands in, within its gap, for the current section as far past the gap's start as it is itself: prose
   takes that one's kind if only an app writes it, and any other kind is as asked. Sections without a name get,
   in order, the names of current ones of their kind and text that no kept section bears. Of each gap the
   longer side counts as changed.
   */
  lemma MergedExactly(current: seq<Section>, next: seq<Section>)
    ensures var kept, laid, (r, changed) := Kept(Align(current, next, 0, 0)), LaidOut(current, next), Merge(current, next);
            && |r| == |laid| == |next| && changed == GapChanges(current, next, (0, 0), kept, 0)
            && (forall g :: 0 <= g < |kept| ==>
                  kept[g].0 < |current| && kept[g].1 < |next| && laid[kept[g].1] == current[kept[g].0])
            && (forall g, y :: 0 <= g <= |kept| && 0 <= y < |next| ==> LaidInGap(current, next, (0, 0), kept, g, y, laid[y]))
            && forall y :: 0 <= y < |next| ==>
                 var names, n := Free(current, Ids(laid), laid[y].Key()), Rank(laid, 0, y);
                 r[y] == if laid[y].id != "" then laid[y] else laid[y].(id := if n < |names| then names[n] else "")
  {
    hide Align;
    hide Kept;
    hide Lay;
    hide Rename;
    hide Unused;
    hide Free;
    hide Rank;
    hide GapChanges;
    hide LaidInGap;
    hide Ids;
    var kept, laid, start := Kept(Align(current, next, 0, 0)), LaidOut(current, next), Draft([], [], [], 0);
    assert InRun(current, next, 0, 0, 0, 0, start);
    LayChanges(current, next, 0, 0, 0, 0, start);
    LayLength(current, next, 0, 0, 0, 0, start);
    forall g | 0 <= g < |kept|
      ensures kept[g].0 < |current| && kept[g].1 < |next| && laid[kept[g].1] == current[kept[g].0]
    {
      LayKeeps(current, next, 0, 0, 0, 0, start, g);
    }
    forall g, y | 0 <= g <= |kept| && 0 <= y < |next| ensures LaidInGap(current, next, (0, 0), kept, g, y, laid[y]) {
      LayKinds(current, next, 0, 0, 0, 0, start, g, y);
    }
    var pool := Unused(current, Ids(laid));
    forall y | 0 <= y < |next|
      ensures var names, n := Free(current, Ids(laid), laid[y].Key()), Rank(laid, 0, y);
              Rename(laid, pool, 0)[y] == if laid[y].id != "" then laid[y] else laid[y].(id := if n < |names| then names[n] else "")
    {
      if laid[y].id != "" {
        RenameKeepsNamed(laid, pool, 0, y);
      } else {
        RenameGives(laid, pool, 0, y);
        UnusedIsFree(current, Ids(laid), laid[y].Key());
      }
    }
  }
}
