/** What merging a canvas keeps: the new texts in their order, the names of what is still there, and how much is counted as changed. */
module CanvasIdentity {
  import opened CanvasMerge

  // ----- how much is counted as changed -----

  /** Each run of edits counts the larger of its two sides, so the total lies between the larger total and the sum. */
  lemma {:induction false} LayCounts(a: seq<Section>, b: seq<Section>, i: nat, j: nat, d: Draft)
    requires i <= |a| && j <= |b| && InBounds(d)
    ensures var r, kept := Lay(a, b, i, j, d), Lcs(a, b, i, j);
            var gone, new_ := |a| - i - kept, |b| - j - kept;
            && gone >= 0 && new_ >= 0
            && d.changed + Max(|d.removed| + gone, |d.added| + new_) <= r.changed
            && r.changed <= d.changed + |d.removed| + gone + |d.added| + new_
    decreases |a| - i + |b| - j
  {
    hide TakeKinds;
    if i == |a| && j == |b| {
    } else if i < |a| && j < |b| && Same(a[i], b[j]) {
      var s := Settle(d);
      LayCounts(a, b, i + 1, j + 1, s.(merged := s.merged + [a[i]]));
    } else if j < |b| && (i == |a| || Lcs(a, b, i, j + 1) >= Lcs(a, b, i + 1, j)) {
      LayCounts(a, b, i, j + 1, d.(merged := d.merged + [b[j].(id := "")], added := d.added + [|d.merged|]));
    } else {
      LayCounts(a, b, i + 1, j, d.(removed := d.removed + [a[i]]));
    }
  }

  ghost predicate SameThroughout(a: seq<Section>, b: seq<Section>) {
    |a| == |b| && forall k :: 0 <= k < |a| ==> Same(a[k], b[k])
  }

  /** A strictly increasing choice of all of n positions chooses each in its place. */
  lemma {:induction false} AllInPlace(a: seq<Section>, b: seq<Section>, m: seq<(nat, nat)>, k: nat)
    requires Matching(a, b, 0, 0, m) && |m| == |a| == |b| && k < |m|
    ensures k <= m[k].0 && k <= m[k].1
    decreases k
  {
    if k > 0 { AllInPlace(a, b, m, k - 1); }
  }

  lemma {:induction false} NoneBeyond(a: seq<Section>, b: seq<Section>, m: seq<(nat, nat)>, k: nat)
    requires Matching(a, b, 0, 0, m) && |m| == |a| == |b| && k < |m|
    ensures m[k].0 <= k && m[k].1 <= k
    decreases |m| - k
  {
    if k + 1 < |m| { NoneBeyond(a, b, m, k + 1); }
  }

  lemma SameThroughoutFits(current: seq<Section>, next: seq<Section>)
    requires SameThroughout(current, next)
    ensures |current| <= Lcs(current, next, 0, 0)
  {
    hide Lcs;
    var m := seq(|current|, k requires 0 <= k < |current| => (k, k));
    MatchingFits(current, next, 0, 0, m);
  }

  /** Nothing counts as changed exactly when kinds and texts agree throughout. */
  lemma UnchangedIffSame(current: seq<Section>, next: seq<Section>)
    ensures Merge(current, next).1 == 0 <==> SameThroughout(current, next)
  {
    hide Lay;
    hide Lcs;
    hide Rename;
    LayCounts(current, next, 0, 0, Draft([], [], [], 0));
    if SameThroughout(current, next) {
      SameThroughoutFits(current, next);
    } else if Merge(current, next).1 == 0 {
      TableIsLongest(current, next, 0, 0);
      var m :| Matching(current, next, 0, 0, m) && |m| == Lcs(current, next, 0, 0);
      forall k | 0 <= k < |current| ensures Same(current[k], next[k]) {
        AllInPlace(current, next, m, k);
        NoneBeyond(current, next, m, k);
      }
    }
  }

  lemma ChangedWithinBounds(current: seq<Section>, next: seq<Section>)
    ensures var kept, changed := Lcs(current, next, 0, 0), Merge(current, next).1;
            Max(|current|, |next|) - kept <= changed <= |current| + |next| - 2 * kept
  {
    hide Lay;
    hide Lcs;
    hide Rename;
    LayCounts(current, next, 0, 0, Draft([], [], [], 0));
  }

  // ----- what is laid out -----

  ghost predicate DistinctIds(s: seq<Section>) {
    forall x, y :: 0 <= x < y < |s| && s[x].id != "" ==> s[x].id != s[y].id
  }

  /** The kind the new section asked for, or an app's kind it could not spell as prose. */
  ghost predicate KindFits(a: seq<Section>, kind: string, asked: string) {
    kind == asked || (asked == PROSE && !Spellable(kind) && exists s :: s in a && s.kind == kind)
  }

  /** The draft holds the first j new texts in order; named sections are unchanged current ones from before i. */
  ghost predicate Laid(a: seq<Section>, b: seq<Section>, i: nat, j: nat, d: Draft) {
    && i <= |a| && j <= |b| && |d.merged| == j
    && (forall k :: 0 <= k < j ==> d.merged[k].text == b[k].text && KindFits(a, d.merged[k].kind, b[k].kind))
    && (forall k :: 0 <= k < j && d.merged[k].id != "" ==> d.merged[k] in a[..i])
    && DistinctIds(d.merged)
    && (forall s :: s in d.removed ==> s in a)
    && (forall l :: 0 <= l < |d.added| ==> d.added[l] < j && d.merged[d.added[l]].id == "")
  }

  /** Taking over kinds touches nothing but kinds, of sections the run added. */
  lemma {:induction false} TakeKindsKeeps(a: seq<Section>, b: seq<Section>, merged: seq<Section>, removed: seq<Section>, added: seq<nat>, k: nat)
    requires |merged| <= |b| && (forall l :: 0 <= l < |added| ==> added[l] < |merged| && merged[added[l]].id == "")
    requires forall s :: s in removed ==> s in a
    requires forall l :: 0 <= l < |merged| ==> KindFits(a, merged[l].kind, b[l].kind)
    ensures var r := TakeKinds(merged, removed, added, k);
            && (forall l :: 0 <= l < |r| ==> r[l].id == merged[l].id && r[l].text == merged[l].text && KindFits(a, r[l].kind, b[l].kind))
            && (forall l :: 0 <= l < |r| && merged[l].id != "" ==> r[l] == merged[l])
    decreases |removed| - k
  {
    if k < |removed| && k < |added| {
      var at, kind := added[k], removed[k].kind;
      var next := if merged[at].kind == PROSE && !Spellable(kind) then merged[at := merged[at].(kind := kind)] else merged;
      assert removed[k] in a;
      TakeKindsKeeps(a, b, next, removed, added, k + 1);
    }
  }

  lemma SettleKeeps(a: seq<Section>, b: seq<Section>, i: nat, j: nat, d: Draft)
    requires Laid(a, b, i, j, d)
    ensures Laid(a, b, i, j, Settle(d))
  {
    TakeKindsKeeps(a, b, d.merged, d.removed, d.added, 0);
    var r := Settle(d).merged;
    forall k | 0 <= k < j && r[k].id != "" ensures r[k] in a[..i] { assert d.merged[k] in a[..i]; }
    forall x, y | 0 <= x < y < |r| && r[x].id != "" ensures r[x].id != r[y].id { assert d.merged[x].id != d.merged[y].id; }
  }

  lemma KeepLaid(a: seq<Section>, b: seq<Section>, i: nat, j: nat, d: Draft)
    requires DistinctIds(a) && Laid(a, b, i, j, d) && d.added == [] && i < |a| && j < |b| && Same(a[i], b[j])
    ensures Laid(a, b, i + 1, j + 1, d.(merged := d.merged + [a[i]]))
  {
    var r := d.merged + [a[i]];
    assert a[..i + 1] == a[..i] + [a[i]];
    forall x, y | 0 <= x < y < |r| && r[x].id != "" ensures r[x].id != r[y].id {
      if y < j {
        assert d.merged[x].id != d.merged[y].id;
      } else {
        assert d.merged[x] in a[..i];
        var w :| 0 <= w < i && a[w] == r[x];
        assert a[w].id != a[i].id;
      }
    }
  }

  lemma AddLaid(a: seq<Section>, b: seq<Section>, i: nat, j: nat, d: Draft)
    requires Laid(a, b, i, j, d) && j < |b|
    ensures Laid(a, b, i, j + 1, d.(merged := d.merged + [b[j].(id := "")], added := d.added + [j]))
  {
    var r := d.merged + [b[j].(id := "")];
    forall x, y | 0 <= x < y < |r| && r[x].id != "" ensures r[x].id != r[y].id {
      if y < j { assert d.merged[x].id != d.merged[y].id; }
    }
  }

  lemma {:induction false} LayLaid(a: seq<Section>, b: seq<Section>, i: nat, j: nat, d: Draft)
    requires DistinctIds(a) && Laid(a, b, i, j, d) && InBounds(d)
    ensures Laid(a, b, |a|, |b|, Lay(a, b, i, j, d))
    decreases |a| - i + |b| - j
  {
    hide Laid;
    assert i <= |a| && j <= |b| && |d.merged| == j by { LaidShape(a, b, i, j, d); }
    if i == |a| && j == |b| {
      SettleKeeps(a, b, i, j, d);
    } else if i < |a| && j < |b| && Same(a[i], b[j]) {
      var s := Settle(d);
      SettleKeeps(a, b, i, j, d);
      KeepLaid(a, b, i, j, s);
      LayLaid(a, b, i + 1, j + 1, s.(merged := s.merged + [a[i]]));
    } else if j < |b| && (i == |a| || Lcs(a, b, i, j + 1) >= Lcs(a, b, i + 1, j)) {
      AddLaid(a, b, i, j, d);
      LayLaid(a, b, i, j + 1, d.(merged := d.merged + [b[j].(id := "")], added := d.added + [|d.merged|]));
    } else {
      DropLaid(a, b, i, j, d);
      LayLaid(a, b, i + 1, j, d.(removed := d.removed + [a[i]]));
    }
  }

  lemma LaidShape(a: seq<Section>, b: seq<Section>, i: nat, j: nat, d: Draft)
    requires Laid(a, b, i, j, d)
    ensures i <= |a| && j <= |b| && |d.merged| == j
  {
  }

  lemma DropLaid(a: seq<Section>, b: seq<Section>, i: nat, j: nat, d: Draft)
    requires Laid(a, b, i, j, d) && i < |a|
    ensures Laid(a, b, i + 1, j, d.(removed := d.removed + [a[i]]))
  {
    assert a[..i + 1] == a[..i] + [a[i]];
  }

  // ----- what stays in place -----

  /** What the walk keeps from here on: this pair and the rest, or just the rest. */
  lemma KeptStep(a: seq<Section>, b: seq<Section>, i: nat, j: nat)
    requires i <= |a| && j <= |b|
    ensures var kept := Kept(Align(a, b, i, j));
            if i == |a| && j == |b| then kept == []
            else if i < |a| && j < |b| && Same(a[i], b[j]) then kept == [(i, j)] + Kept(Align(a, b, i + 1, j + 1))
            else if j < |b| && (i == |a| || Lcs(a, b, i, j + 1) >= Lcs(a, b, i + 1, j)) then kept == Kept(Align(a, b, i, j + 1))
            else kept == Kept(Align(a, b, i + 1, j))
  {
    hide Lcs;
    var moves := Align(a, b, i, j);
    if moves != [] { assert moves == [moves[0]] + moves[1..]; }
  }

  /** The draft one step of the walk on. */
  ghost function LayNext(a: seq<Section>, b: seq<Section>, i: nat, j: nat, d: Draft): (nat, nat, Draft)
    requires i <= |a| && j <= |b| && (i < |a| || j < |b|) && InBounds(d)
  {
    if i < |a| && j < |b| && Same(a[i], b[j]) then (i + 1, j + 1, Settle(d).(merged := Settle(d).merged + [a[i]]))
    else if j < |b| && (i == |a| || Lcs(a, b, i, j + 1) >= Lcs(a, b, i + 1, j)) then
      (i, j + 1, d.(merged := d.merged + [b[j].(id := "")], added := d.added + [|d.merged|]))
    else (i + 1, j, d.(removed := d.removed + [a[i]]))
  }

  /** Stepping keeps the draft in order, and the walk goes on from there. */
  lemma LayStep(a: seq<Section>, b: seq<Section>, i: nat, j: nat, d: Draft)
    requires Laid(a, b, i, j, d) && InBounds(d) && DistinctIds(a) && (i < |a| || j < |b|)
    ensures i <= |a| && j <= |b|
    ensures var (x, y, e) := LayNext(a, b, i, j, d);
            Laid(a, b, x, y, e) && x <= |a| && y <= |b| && InBounds(e) && Lay(a, b, i, j, d) == Lay(a, b, x, y, e)
  {
    hide Laid;
    hide Lcs;
    hide DistinctIds;
    LaidShape(a, b, i, j, d);
    if i < |a| && j < |b| && Same(a[i], b[j]) {
      SettleKeeps(a, b, i, j, d);
      KeepLaid(a, b, i, j, Settle(d));
    } else if j < |b| && (i == |a| || Lcs(a, b, i, j + 1) >= Lcs(a, b, i + 1, j)) {
      AddLaid(a, b, i, j, d);
    } else {
      DropLaid(a, b, i, j, d);
    }
  }

  /** A section just kept stands last, and outside the run. */
  lemma JustKept(a: seq<Section>, b: seq<Section>, i: nat, j: nat, d: Draft)
    requires Laid(a, b, i, j, d) && InBounds(d) && i < |a| && j < |b| && Same(a[i], b[j])
    ensures var e := LayNext(a, b, i, j, d).2; |e.merged| == j + 1 && e.merged[j] == a[i] && e.added == []
  {
    SettleKeeps(a, b, i, j, d);
    LaidShape(a, b, i, j, Settle(d));
    hide Laid;
  }

  /** Every section the walk keeps stands in the result where the new text has it, as it was. */
  lemma {:induction false} KeptInPlace(a: seq<Section>, b: seq<Section>, i: nat, j: nat, d: Draft, k: nat)
    requires Laid(a, b, i, j, d) && InBounds(d) && DistinctIds(a)
    requires k < |Kept(Align(a, b, i, j))|
    ensures var (x, y) := Kept(Align(a, b, i, j))[k];
            x < |a| && y < |Lay(a, b, i, j, d).merged| && Lay(a, b, i, j, d).merged[y] == a[x]
    decreases |a| - i + |b| - j
  {
    hide Laid;
    hide Align;
    hide Kept;
    hide Lcs;
    hide Lay;
    hide Settle;
    hide DistinctIds;
    LaidShape(a, b, i, j, d);
    KeptStep(a, b, i, j);
    LayStep(a, b, i, j, d);
    var (x, y, e) := LayNext(a, b, i, j, d);
    if i < |a| && j < |b| && Same(a[i], b[j]) {
      if k == 0 {
        JustKept(a, b, i, j, d);
        LaterKeeps(a, b, x, y, e, j);
      } else {
        KeptInPlace(a, b, x, y, e, k - 1);
      }
    } else {
      KeptInPlace(a, b, x, y, e, k);
    }
  }

  /** What is laid out before the current run is never touched again. */
  lemma {:induction false} LaterKeeps(a: seq<Section>, b: seq<Section>, i: nat, j: nat, d: Draft, y: nat)
    requires i <= |a| && j <= |b| && InBounds(d) && y < |d.merged| && y !in d.added
    ensures y < |Lay(a, b, i, j, d).merged| && Lay(a, b, i, j, d).merged[y] == d.merged[y]
    decreases |a| - i + |b| - j
  {
    TakeKindsElsewhere(d.merged, d.removed, d.added, 0, y);
    if i == |a| && j == |b| {
    } else if i < |a| && j < |b| && Same(a[i], b[j]) {
      var s := Settle(d);
      LaterKeeps(a, b, i + 1, j + 1, s.(merged := s.merged + [a[i]]), y);
    } else if j < |b| && (i == |a| || Lcs(a, b, i, j + 1) >= Lcs(a, b, i + 1, j)) {
      LaterKeeps(a, b, i, j + 1, d.(merged := d.merged + [b[j].(id := "")], added := d.added + [|d.merged|]), y);
    } else {
      LaterKeeps(a, b, i + 1, j, d.(removed := d.removed + [a[i]]), y);
    }
  }

  lemma {:induction false} TakeKindsElsewhere(merged: seq<Section>, removed: seq<Section>, added: seq<nat>, k: nat, y: nat)
    requires (forall l :: 0 <= l < |added| ==> added[l] < |merged|) && y < |merged| && y !in added
    ensures TakeKinds(merged, removed, added, k)[y] == merged[y]
    decreases |removed| - k
  {
    if k < |removed| && k < |added| {
      var at, kind := added[k], removed[k].kind;
      var next := if merged[at].kind == PROSE && !Spellable(kind) then merged[at := merged[at].(kind := kind)] else merged;
      TakeKindsElsewhere(next, removed, added, k + 1, y);
    }
  }

  // ----- names of moved sections -----

  /** The pool holds exactly the names of current sections no merged one bears, each under its kind and text. */
  ghost predicate Stocked(current: seq<Section>, merged: seq<Section>, pool: Pool) {
    && (forall key :: FreeNames(current, merged, Names(pool, key), key))
    && (forall s :: s in current && s.id != "" ==> s.id in Ids(merged) || s.id in Names(pool, s.Key()))
  }

  /** Names of current sections of one kind and text, none borne by a merged section and none twice. */
  ghost predicate FreeNames(current: seq<Section>, merged: seq<Section>, names: seq<string>, key: Section) {
    && (forall n :: n in names ==> n != "" && n !in Ids(merged) && Bears(current, n, key))
    && (forall x, y :: 0 <= x < y < |names| ==> names[x] != names[y])
  }

  ghost predicate Bears(current: seq<Section>, name: string, key: Section) {
    exists s :: s in current && s.id == name && s.Key() == key
  }

  /** Every named merged section is a current one of that name, kind and text; no name is borne twice. */
  ghost predicate Identified(current: seq<Section>, merged: seq<Section>) {
    && (forall k :: 0 <= k < |merged| && merged[k].id != "" ==> Bears(current, merged[k].id, merged[k].Key()))
    && DistinctIds(merged)
  }

  lemma BearsMore(front: seq<Section>, s: Section, name: string, key: Section)
    requires Bears(front, name, key)
    ensures Bears(front + [s], name, key)
  {
    var t :| t in front && t.id == name && t.Key() == key;
    assert t in front + [s];
  }

  lemma NoEarlierBearer(s: seq<Section>, x: nat, key: Section)
    requires DistinctIds(s) && x < |s| && s[x].id != ""
    ensures !Bears(s[..x], s[x].id, key)
  {
    forall w | 0 <= w < x ensures s[w].id != s[x].id {}
  }

  /** One more current section whose name is not borne yet. */
  lemma StockOne(front: seq<Section>, s: Section, merged: seq<Section>, pool: Pool)
    requires Stocked(front, merged, pool) && s.id != "" && s.id !in Ids(merged)
    requires forall key :: !Bears(front, s.id, key)
    ensures Stocked(front + [s], merged, pool[s.Key() := Names(pool, s.Key()) + [s.id]])
  {
    var next := pool[s.Key() := Names(pool, s.Key()) + [s.id]];
    forall key ensures FreeNames(front + [s], merged, Names(next, key), key) {
      var names := Names(pool, key);
      assert FreeNames(front, merged, names, key);
      forall n | n in Names(next, key) ensures Bears(front + [s], n, key) {
        if n in names { BearsMore(front, s, n, key); } else { assert s in front + [s]; }
      }
      assert s.id !in names;
    }
    forall t | t in front + [s] && t.id != "" ensures t.id in Ids(merged) || t.id in Names(next, t.Key()) {
      if t in front { assert t.id in Ids(merged) || t.id in Names(pool, t.Key()); }
    }
  }

  lemma StockNone(front: seq<Section>, s: Section, merged: seq<Section>, pool: Pool)
    requires Stocked(front, merged, pool) && (s.id == "" || s.id in Ids(merged))
    ensures Stocked(front + [s], merged, pool)
  {
    forall key ensures FreeNames(front + [s], merged, Names(pool, key), key) {
      assert FreeNames(front, merged, Names(pool, key), key);
      forall n | n in Names(pool, key) ensures Bears(front + [s], n, key) { BearsMore(front, s, n, key); }
    }
  }

  /** The names set aside before the second pass are those of the sections the walk did not keep. */
  lemma {:induction false} UnusedStocks(all: seq<Section>, n: nat, merged: seq<Section>)
    requires n <= |all| && DistinctIds(all)
    ensures Stocked(all[..n], merged, Unused(all[..n], Ids(merged)))
  {
    hide Stocked;
    if n > 0 {
      UnusedStocks(all, n - 1, merged);
      var front, s := all[..n - 1], all[n - 1];
      assert all[..n] == front + [s] && all[..n][..n - 1] == front;
      if s.id != "" && s.id !in Ids(merged) {
        forall key ensures !Bears(front, s.id, key) { NoEarlierBearer(all, n - 1, key); }
        StockOne(front, s, merged, Unused(front, Ids(merged)));
      } else {
        StockNone(front, s, merged, Unused(front, Ids(merged)));
      }
    } else {
      NothingStocked(merged);
      assert all[..n] == [];
    }
  }

  lemma NothingStocked(merged: seq<Section>)
    ensures Stocked([], merged, map[])
  {
  }

  /** A section given a name it may bear is one more that is identified, and the rest of the pool stays unborne. */
  lemma RenameOne(current: seq<Section>, merged: seq<Section>, pool: Pool, k: nat)
    requires k < |merged| && Identified(current, merged) && Stocked(current, merged, pool) && DistinctIds(current)
    requires merged[k].id == "" && |Names(pool, merged[k].Key())| > 0
    ensures var names := Names(pool, merged[k].Key());
            var r := merged[k := merged[k].(id := names[0])];
            && Identified(current, r) && Ids(r) == Ids(merged) + {names[0]}
            && Stocked(current, r, pool[merged[k].Key() := names[1..]])
  {
    var names := Names(pool, merged[k].Key());
    var name := names[0];
    var r, next := merged[k := merged[k].(id := name)], pool[merged[k].Key() := names[1..]];
    assert FreeNames(current, merged, names, merged[k].Key()) && name in names;
    IdsUpdated(merged, k, name);
    forall x, y | 0 <= x < y < |r| && r[x].id != "" ensures r[x].id != r[y].id {
      assert merged[if x == k then y else x] in merged;
    }
    forall key ensures FreeNames(current, r, Names(next, key), key) {
      FreeAfter(current, merged, pool, merged[k].Key(), r, key);
    }
    forall s | s in current && s.id != "" ensures s.id in Ids(r) || s.id in Names(next, s.Key()) {
      assert s.id in Ids(merged) || s.id in Names(pool, s.Key());
    }
  }

  /** The first name under a key given away leaves the others free. */
  lemma FreeAfter(current: seq<Section>, merged: seq<Section>, pool: Pool, given: Section, r: seq<Section>, key: Section)
    requires Stocked(current, merged, pool) && DistinctIds(current) && |Names(pool, given)| > 0
    requires Ids(r) == Ids(merged) + {Names(pool, given)[0]}
    ensures FreeNames(current, r, Names(pool[given := Names(pool, given)[1..]], key), key)
  {
    var names := Names(pool[given := Names(pool, given)[1..]], key);
    assert FreeNames(current, merged, Names(pool, key), key);
    SetAsideOnce(current, merged, pool, given, key);
    assert forall n :: n in names ==> n in Names(pool, key);
    hide Bears;
    hide Stocked;
    hide DistinctIds;
  }

  lemma IdsUpdated(merged: seq<Section>, k: nat, name: string)
    requires k < |merged| && merged[k].id == "" && name != ""
    ensures Ids(merged[k := merged[k].(id := name)]) == Ids(merged) + {name}
  {
    var r := merged[k := merged[k].(id := name)];
    assert r[k] in r;
    forall n | n in Ids(merged) ensures n in Ids(r) {
      var x :| 0 <= x < |merged| && merged[x].id == n;
      assert r[x] in r;
    }
    forall n | n in Ids(r) ensures n in Ids(merged) + {name} {
      var x :| 0 <= x < |r| && r[x].id == n;
      if x != k { assert merged[x] in merged; }
    }
  }

  lemma BearersAgree(current: seq<Section>, name: string, a: Section, b: Section)
    requires DistinctIds(current) && name != "" && Bears(current, name, a) && Bears(current, name, b)
    ensures a == b
  {
    var s :| s in current && s.id == name && s.Key() == a;
    var t :| t in current && t.id == name && t.Key() == b;
    var x :| 0 <= x < |current| && current[x] == s;
    var y :| 0 <= y < |current| && current[y] == t;
  }

  /** A name is set aside once: taking it from the front of its list takes it from the pool. */
  lemma SetAsideOnce(current: seq<Section>, merged: seq<Section>, pool: Pool, a: Section, b: Section)
    requires Stocked(current, merged, pool) && DistinctIds(current) && |Names(pool, a)| > 0
    ensures Names(pool, a)[0] !in if b == a then Names(pool, a)[1..] else Names(pool, b)
  {
    var names := Names(pool, a);
    assert FreeNames(current, merged, names, a) && FreeNames(current, merged, Names(pool, b), b);
    assert names[0] in names;
    if names[0] in Names(pool, b) { BearersAgree(current, names[0], a, b); }
  }

  /** The second pass, from the k-th section on. */
  lemma {:induction false} RenameIdentifies(current: seq<Section>, merged: seq<Section>, pool: Pool, k: nat)
    requires k <= |merged| && Identified(current, merged) && Stocked(current, merged, pool) && DistinctIds(current)
    requires forall m :: 0 <= m < k && merged[m].id == "" ==> Names(pool, merged[m].Key()) == []
    ensures var r := Rename(merged, pool, k);
            && Identified(current, r)
            && (forall m :: 0 <= m < |r| ==> Same(r[m], merged[m]) && (merged[m].id != "" ==> r[m] == merged[m]))
            && forall m, s :: 0 <= m < |r| && r[m].id == "" && s in current && s.id != "" && Same(s, r[m]) ==> s.id in Ids(r)
    decreases |merged| - k
  {
    hide Stocked;
    hide Identified;
    if k == |merged| {
      UnbornePoolEmpty(current, merged, pool);
    } else {
      var key := merged[k].Key();
      var names := Names(pool, key);
      if merged[k].id == "" && |names| > 0 {
        RenameOne(current, merged, pool, k);
        RenameIdentifies(current, merged[k := merged[k].(id := names[0])], pool[key := names[1..]], k + 1);
      } else {
        RenameIdentifies(current, merged, pool, k + 1);
      }
    }
  }

  lemma UnbornePoolEmpty(current: seq<Section>, merged: seq<Section>, pool: Pool)
    requires Stocked(current, merged, pool)
    requires forall m :: 0 <= m < |merged| && merged[m].id == "" ==> Names(pool, merged[m].Key()) == []
    ensures forall m, s :: 0 <= m < |merged| && merged[m].id == "" && s in current && s.id != "" && Same(s, merged[m])
              ==> s.id in Ids(merged)
  {
    forall m, s | 0 <= m < |merged| && merged[m].id == "" && s in current && s.id != "" && Same(s, merged[m])
      ensures s.id in Ids(merged)
    {
      assert s.Key() == merged[m].Key();
    }
  }

  /**
   Merging a canvas whose sections have distinct names: the new texts stand in order; kinds are as
   asked but for app kinds prose stands in for; every named section is a current one, unchanged, and
   none is named twice; and none is left without a name while a current name of its kind and text is free.
   */
  lemma MergeKeepsIdentity(current: seq<Section>, next: seq<Section>)
    requires DistinctIds(current)
    ensures var r := Merge(current, next).0;
            && |r| == |next|
            && (forall k :: 0 <= k < |r| ==> r[k].text == next[k].text && KindFits(current, r[k].kind, next[k].kind))
            && Identified(current, r)
            && forall m, s :: 0 <= m < |r| && r[m].id == "" && s in current && s.id != "" && Same(s, r[m]) ==> s.id in Ids(r)
  {
    hide Lay;
    hide Rename;
    var start := Draft([], [], [], 0);
    LayLaid(current, next, 0, 0, start);
    var d := Lay(current, next, 0, 0, start);
    assert current[..|current|] == current;
    forall k | 0 <= k < |d.merged| && d.merged[k].id != "" ensures Bears(current, d.merged[k].id, d.merged[k].Key()) {
      assert d.merged[k] in current[..|current|];
    }
    UnusedStocks(current, |current|, d.merged);
    RenameIdentifies(current, d.merged, Unused(current, Ids(d.merged)), 0);
    var r := Merge(current, next).0;
    forall k | 0 <= k < |r| ensures r[k].text == next[k].text && KindFits(current, r[k].kind, next[k].kind) {
      assert Same(r[k], d.merged[k]);
    }
  }

  /** The sections of a longest common subsequence stay in place, names and all. */
  lemma LongestStaysInPlace(current: seq<Section>, next: seq<Section>)
    requires DistinctIds(current)
    ensures var kept := Kept(Align(current, next, 0, 0));
            && Matching(current, next, 0, 0, kept) && |kept| == Lcs(current, next, 0, 0)
            && forall k :: 0 <= k < |kept| && current[kept[k].0].id != "" ==>
                 kept[k].1 < |Merge(current, next).0| && Merge(current, next).0[kept[k].1] == current[kept[k].0]
  {
    hide Lay;
    hide Lcs;
    hide Align;
    hide Rename;
    WalkKeepsLongest(current, next, 0, 0);
    var kept, start := Kept(Align(current, next, 0, 0)), Draft([], [], [], 0);
    var d := Lay(current, next, 0, 0, start);
    forall k | 0 <= k < |kept| && current[kept[k].0].id != ""
      ensures kept[k].1 < |Merge(current, next).0| && Merge(current, next).0[kept[k].1] == current[kept[k].0]
    {
      KeptInPlace(current, next, 0, 0, start, k);
      RenameKeepsNamed(d.merged, Unused(current, Ids(d.merged)), 0, kept[k].1);
    }
  }

  lemma {:induction false} RenameKeepsNamed(merged: seq<Section>, pool: Pool, k: nat, y: nat)
    requires k <= |merged| && y < |merged| && merged[y].id != ""
    ensures Rename(merged, pool, k)[y] == merged[y]
    decreases |merged| - k
  {
    if k < |merged| {
      var key := merged[k].Key();
      var names := Names(pool, key);
      if merged[k].id == "" && |names| > 0 {
        RenameKeepsNamed(merged[k := merged[k].(id := names[0])], pool[key := names[1..]], k + 1, y);
      } else {
        RenameKeepsNamed(merged, pool, k + 1, y);
      }
    }
  }
}
