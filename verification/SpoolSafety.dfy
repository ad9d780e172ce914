/** What the request queue guarantees over any run of calls by any owners. */
module SpoolSafety {
  import opened Whitespace
  import opened Spool
  import opened Sets

  // ----- one call -----

  ghost predicate Ascending(ids: seq<nat>) {
    forall i, j :: 0 <= i < j < |ids| ==> ids[i] < ids[j]
  }

  lemma AscendingFrom(x: nat, s: seq<nat>)
    requires Ascending(s) && forall k :: k in s ==> x < k
    ensures Ascending([x] + s)
  {
    var r := [x] + s;
    forall i, j | 0 <= i < j < |r| ensures r[i] < r[j] {
      if i == 0 { assert r[j] in s; } else { assert s[i - 1] < s[j - 1]; }
    }
  }

  /** The claimed rows are deliverable, in order, and none deliverable comes before them unclaimed. */
  lemma {:induction false} LowestComeFirst(t: Table, id: nat, limit: nat, now: int)
    ensures var r := Lowest(t, id, limit, now);
            && Ascending(r) && |r| <= limit
            && (forall k :: k in r ==> id <= k < t.next && k in t.rows && Deliverable(t.rows[k], now))
            && forall k :: id <= k < t.next && k in t.rows && Deliverable(t.rows[k], now) && k !in r ==>
                 |r| == limit && forall m :: m in r ==> m < k
    decreases t.next - id
  {
    if limit > 0 && id < t.next {
      if id in t.rows && Deliverable(t.rows[id], now) {
        LowestComeFirst(t, id + 1, limit - 1, now);
        AscendingFrom(id, Lowest(t, id + 1, limit - 1, now));
      } else {
        LowestComeFirst(t, id + 1, limit, now);
      }
    }
  }

  lemma {:induction false} TokenedInOrder(t: Table, id: nat, token: nat)
    ensures var r := Tokened(t, id, token);
            Ascending(r) && forall k :: k in r <==> id <= k < t.next && k in t.rows && t.rows[k].token == token
    decreases t.next - id
  {
    if id < t.next {
      TokenedInOrder(t, id + 1, token);
      if id in t.rows && t.rows[id].token == token { AscendingFrom(id, Tokened(t, id + 1, token)); }
    }
  }

  lemma {:induction false} AscendingUnique(a: seq<nat>, b: seq<nat>)
    requires Ascending(a) && Ascending(b) && forall k :: k in a <==> k in b
    ensures a == b
  {
    assert a != [] ==> a[0] in b;
    assert b != [] ==> b[0] in a;
    if a != [] {
      TailOf(a);
      TailOf(b);
      assert a[0] == b[0];
      AscendingUnique(a[1..], b[1..]);
      assert a == [a[0]] + a[1..] && b == [b[0]] + b[1..];
    }
  }

  lemma TailOf(a: seq<nat>)
    requires Ascending(a) && a != []
    ensures Ascending(a[1..]) && (forall k :: k in a ==> a[0] <= k) && forall k :: k in a[1..] <==> k in a && k != a[0]
  {
    assert a == [a[0]] + a[1..];
    forall k | k in a[1..] ensures k > a[0] {
      var x :| 0 <= x < |a[1..]| && a[1..][x] == k;
      assert a[0] < a[x + 1];
    }
  }

  /** With a token no row carries yet, a claim reads back exactly the rows it leased. */
  lemma TokenedAreLeased(t: Table, ids: seq<nat>, owner: string, token: nat, expires: int)
    requires Ascending(ids) && (forall k :: k in ids ==> k < t.next && k in t.rows)
    requires forall k :: k in t.rows ==> t.rows[k].token != token
    ensures Tokened(t.(rows := Lease(t.rows, ids, owner, token, expires)), 0, token) == ids
  {
    var leased := t.(rows := Lease(t.rows, ids, owner, token, expires));
    TokenedInOrder(leased, 0, token);
    AscendingUnique(Tokened(leased, 0, token), ids);
  }

  lemma {:induction false} WithoutKeepsOrder(ids: seq<nat>, bad: set<nat>)
    requires Ascending(ids)
    ensures Ascending(Without(ids, bad))
    ensures forall k :: k in Without(ids, bad) <==> k in ids && k !in bad
  {
    if ids != [] {
      WithoutKeepsOrder(ids[1..], bad);
      assert ids == [ids[0]] + ids[1..];
      forall k | k in ids[1..] ensures ids[0] < k {
        var x :| 0 <= x < |ids[1..]| && ids[1..][x] == k;
        assert ids[0] < ids[x + 1];
      }
      AscendingFrom(ids[0], Without(ids[1..], bad)) by {
        forall k | k in Without(ids[1..], bad) ensures ids[0] < k { assert k in ids[1..]; }
      }
    }
  }

  /** A claim returns rows of its own only, in ascending order, out of the lowest deliverable ones. */
  lemma ClaimReturnsItsOwn(t: Table, owner: string, limit: int, lease: int, now: int, later: int, token: nat, bad: set<nat>)
    requires !Blank(owner) && limit > 0 && lease > 0
    requires forall k :: k in t.rows ==> t.rows[k].token != token
    ensures var r := ClaimRows(t, owner, limit, lease, now, later, token, bad);
            var lowest := Lowest(t, 0, limit, now);
            && r.ok && Ascending(r.value) && (forall k :: k in r.value <==> k in lowest && k !in bad)
            && r.table.rows.Keys == t.rows.Keys && r.table.next == t.next
            && forall k :: k in t.rows ==>
                 r.table.rows[k] == if k !in lowest then t.rows[k]
                                    else if k in bad then Row(t.rows[k].bytes, "", UNLEASED, 0, true)
                                    else t.rows[k].(owner := owner, token := token, expires := later + lease)
  {
    hide Lowest;
    hide Tokened;
    hide Without;
    var lowest := Lowest(t, 0, limit, now);
    LowestComeFirst(t, 0, limit, now);
    TokenedAreLeased(t, lowest, owner, token, later + lease);
    WithoutKeepsOrder(lowest, bad);
  }

  /** The deliverable rows before k. */
  ghost function Older(t: Table, k: nat, now: int): set<nat> {
    set m | m in t.rows && m < k && !t.rows[m].quarantined && t.rows[m].expires <= now
  }

  /** A claim returns exactly the rows not quarantined nor leased that fewer than limit such rows are older than, and that decode. */
  lemma ClaimTakesTheOldest(t: Table, owner: string, limit: int, lease: int, now: int, later: int, token: nat, bad: set<nat>, k: nat)
    requires !Blank(owner) && limit > 0 && lease > 0
    requires forall m :: m in t.rows ==> t.rows[m].token != token && m < t.next
    ensures k in ClaimRows(t, owner, limit, lease, now, later, token, bad).value <==>
              && k in t.rows && !t.rows[k].quarantined && t.rows[k].expires <= now
              && |Older(t, k, now)| < limit && k !in bad
  {
    hide ClaimRows;
    hide Lowest;
    ClaimReturnsItsOwn(t, owner, limit, lease, now, later, token, bad);
    LowestComeFirst(t, 0, limit, now);
    var lowest, older := Lowest(t, 0, limit, now), Older(t, k, now);
    if k in lowest {
      forall m | m in older ensures m in Elements(lowest) - {k} { assert Deliverable(t.rows[m], now); }
      SubsetSize(older, Elements(lowest) - {k});
      ElementsFit(lowest);
    } else if k in t.rows && Deliverable(t.rows[k], now) {
      AscendingOnce(lowest);
      OnceFits(lowest);
      SubsetSize(Elements(lowest), older);
    }
  }

  lemma AscendingOnce(s: seq<nat>)
    requires Ascending(s)
    ensures Once(s)
  {
  }

  /** A request within all three limits is queued last, under an ID never used; any other is refused and nothing changes. */
  lemma EnqueueTakes(limits: Limits, calls: seq<Call>, bytes: nat)
    ensures var w := Play(START, limits, calls);
            var t, r := w.table, EnqueueRow(w.table, limits, bytes);
            && (r.ok <==> bytes <= limits.maxBodyBytes && |t.rows| + 1 <= limits.maxQueuedRequests
                          && Bytes(t.rows, t.next) + bytes <= limits.maxQueuedBytes)
            && (r.ok ==> r.value > 0 && r.value !in t.rows && r.value !in w.deleted && (forall k :: k in t.rows ==> k < r.value)
                         && r.table == Table(t.rows[r.value := Row(bytes, "", UNLEASED, 0, false)], r.value + 1))
            && (!r.ok ==> r.table == t)
  {
    hide Bytes;
    StartHolds();
    PlayKeeps(START, limits, calls);
    var w := Play(START, limits, calls);
    hide Play;
    assert IdInv(w, w.table.next);
    forall k | k in w.table.rows ensures k < w.table.next { assert IdInv(w, k); }
  }

  /** A renewal succeeds exactly when it names rows, none twice, and all are the owner's and unexpired; those it extends. */
  lemma RenewExactly(t: Table, owner: string, ids: seq<nat>, lease: int, now: int)
    ensures var r, asked := RenewRows(t, owner, ids, lease, now), !Blank(owner) && ids != [] && lease > 0 && 0 !in ids;
            && (r.ok <==> asked && Once(ids) && forall id :: id in ids ==> id in t.rows && t.rows[id].owner == owner && t.rows[id].expires > now)
            && r.table.rows.Keys == t.rows.Keys && r.table.next == t.next
            && forall id :: id in t.rows ==>
                 r.table.rows[id] == if asked && id in ids && t.rows[id].owner == owner && t.rows[id].expires > now
                                     then t.rows[id].(expires := now + lease) else t.rows[id]
  {
    if !Blank(owner) && ids != [] && lease > 0 && 0 !in ids {
      var matched := set id | id in t.rows && Renewable(t.rows, owner, ids, now, id);
      OnceFits(ids);
      ElementsFit(ids);
      if id :| id in Elements(ids) && id !in matched {
        SubsetSize(matched, Elements(ids) - {id});
      } else {
        assert matched == Elements(ids);
        forall id | id in ids ensures id in matched { assert id in Elements(ids); }
      }
    }
  }

  /** A lapsed lease cannot be renewed: the row is untouched and the call reports the loss. */
  lemma LapsedNotRenewed(t: Table, owner: string, ids: seq<nat>, lease: int, now: int, id: nat)
    requires id in ids && id in t.rows && (t.rows[id].expires <= now || t.rows[id].owner != owner)
    ensures var r := RenewRows(t, owner, ids, lease, now);
            !r.ok && id in r.table.rows && r.table.rows[id] == t.rows[id]
  {
    if !(Blank(owner) || ids == [] || lease <= 0 || 0 in ids) {
      var matched := set k | k in t.rows && Renewable(t.rows, owner, ids, now, k);
      var asked := Elements(ids);
      ElementsFit(ids);
      SubsetSize(matched, asked - {id});
      assert |asked - {id}| == |asked| - 1;
    }
  }

  // ----- runs -----

  /** What an owner held of a row: when it was claimed, and until when, with all renewals. */
  datatype Held = Held(owner: string, at: int, until: int)

  datatype Call =
    | Enqueue(bytes: nat)
    | Claim(owner: string, limit: int, lease: int, now: int, later: int, token: nat, bad: set<nat>)
    | Renew(owner: string, ids: seq<nat>, lease: int, now: int)
    | Delete(owner: string, id: nat)

  /**
   The table, the leases ever held of each row in order, who deleted what, the tokens drawn, and the
   last clock reading. A call with a token drawn before or a clock run backwards does not happen.
   */
  datatype World = World(table: Table, held: map<nat, seq<Held>>, deleted: map<nat, string>, tokens: set<nat>, clock: int)

  const START := World(Table(map[], 1), map[], map[], {UNLEASED}, 0)

  function HeldOf(w: World, id: nat): seq<Held> {
    if id in w.held then w.held[id] else []
  }

  ghost function Next(w: World, limits: Limits, c: Call): World {
    match c
    case Enqueue(bytes) => w.(table := EnqueueRow(w.table, limits, bytes).table)
    case Claim(owner, limit, lease, now, later, token, bad) =>
      if token in w.tokens || now < w.clock || later < now then w else
        var r := ClaimRows(w.table, owner, limit, lease, now, later, token, bad);
        w.(table := r.table, clock := later, tokens := w.tokens + {token},
           held := w.held + map id | id in r.value :: HeldOf(w, id) + [Held(owner, now, later + lease)])
    case Renew(owner, ids, lease, now) =>
      var r := RenewRows(w.table, owner, ids, lease, now);
      if now < w.clock || Blank(owner) || ids == [] || lease <= 0 || 0 in ids then w else
        w.(table := r.table, clock := now,
           held := map id | id in w.held :: if Renewable(w.table.rows, owner, ids, now, id) && w.held[id] != []
                     then w.held[id][|w.held[id]| - 1 := w.held[id][|w.held[id]| - 1].(until := now + lease)]
                     else w.held[id])
    case Delete(owner, id) =>
      var r := DeleteRow(w.table, owner, id);
      if r.ok then w.(table := r.table, deleted := w.deleted[id := owner]) else w
  }

  ghost function Play(w: World, limits: Limits, calls: seq<Call>): World
    decreases |calls|
  {
    if calls == [] then w else Play(Next(w, limits, calls[0]), limits, calls[1..])
  }

  /** Leases of one row, in order, do not overlap: each had expired, renewals and all, when the next was claimed. */
  ghost predicate Exclusive(s: seq<Held>) {
    forall i, j :: 0 <= i < j < |s| ==> s[i].until <= s[j].at
  }

  ghost predicate Timely(s: seq<Held>, clock: int) {
    forall i :: 0 <= i < |s| ==> s[i].at <= s[i].until && s[i].at <= clock
  }

  /** The row's lease columns are those of its last lease, unless it has none or was quarantined. */
  ghost predicate Recorded(r: Row, s: seq<Held>) {
    if r.quarantined || s == [] then r.owner == "" && r.expires == 0
    else !Blank(r.owner) && s[|s| - 1].owner == r.owner && s[|s| - 1].until == r.expires
  }

  /** An ID is queued or quarantined in the table, deleted by its last claimant, or never issued. */
  ghost predicate IdInv(w: World, id: nat) {
    var s, t := HeldOf(w, id), w.table;
    && Exclusive(s) && Timely(s, w.clock)
    && if id in t.rows then
         1 <= id < t.next && id !in w.deleted && t.rows[id].token in w.tokens && Recorded(t.rows[id], s)
       else if id in w.deleted then
         1 <= id < t.next && s != [] && s[|s| - 1].owner == w.deleted[id]
       else
         (id == 0 || id >= t.next) && s == []
  }

  ghost predicate Inv(w: World) {
    w.table.next >= 1 && UNLEASED in w.tokens && forall id: nat {:trigger IdInv(w, id)} :: IdInv(w, id)
  }

  lemma EnqueueKeeps(w: World, limits: Limits, bytes: nat)
    requires Inv(w)
    ensures Inv(Next(w, limits, Enqueue(bytes)))
  {
    hide Bytes;
    var n := Next(w, limits, Enqueue(bytes));
    forall id: nat ensures IdInv(n, id) { assert IdInv(w, id); }
  }

  lemma ClaimKeeps(w: World, limits: Limits, c: Call)
    requires Inv(w) && c.Claim?
    ensures Inv(Next(w, limits, c))
  {
    var n := Next(w, limits, c);
    if c.token in w.tokens || c.now < w.clock || c.later < c.now {
    } else if Blank(c.owner) || c.limit <= 0 || c.lease <= 0 {
      forall id: nat ensures IdInv(n, id) { assert IdInv(w, id); }
    } else {
      hide ClaimRows;
      forall k | k in w.table.rows ensures w.table.rows[k].token != c.token { assert IdInv(w, k); }
      forall id: nat ensures IdInv(n, id) {
        assert IdInv(w, id);
        ClaimOnId(w.table, c, id);
        ClaimKeepsId(w, limits, c, id);
      }
    }
  }

  /** What a claim does to one ID. */
  ghost predicate ClaimedOrNot(t: Table, c: Call, id: nat)
    requires c.Claim?
  {
    var r := ClaimRows(t, c.owner, c.limit, c.lease, c.now, c.later, c.token, c.bad);
    && r.table.next == t.next && (id in r.table.rows <==> id in t.rows)
    && (id in r.value ==> id in t.rows && Deliverable(t.rows[id], c.now))
    && (id in t.rows ==>
         if id in r.value then r.table.rows[id] == t.rows[id].(owner := c.owner, token := c.token, expires := c.later + c.lease)
         else r.table.rows[id] == t.rows[id] || r.table.rows[id] == Row(t.rows[id].bytes, "", UNLEASED, 0, true))
  }

  lemma ClaimOnId(t: Table, c: Call, id: nat)
    requires c.Claim? && !Blank(c.owner) && c.limit > 0 && c.lease > 0
    requires forall k :: k in t.rows ==> t.rows[k].token != c.token
    ensures ClaimedOrNot(t, c, id)
  {
    ClaimReturnsItsOwn(t, c.owner, c.limit, c.lease, c.now, c.later, c.token, c.bad);
    LowestComeFirst(t, 0, c.limit, c.now);
    hide ClaimRows;
  }

  lemma ClaimKeepsId(w: World, limits: Limits, c: Call, id: nat)
    requires c.Claim? && c.token !in w.tokens && w.clock <= c.now <= c.later && !Blank(c.owner) && c.lease > 0
    requires IdInv(w, id) && ClaimedOrNot(w.table, c, id)
    requires UNLEASED in w.tokens
    ensures IdInv(Next(w, limits, c), id)
  {
    hide ClaimRows;
    var s := HeldOf(w, id);
    ClaimOne(w, s, id, c.owner, c.now, c.later + c.lease);
    var n := Next(w, limits, c);
    if id in ClaimRows(w.table, c.owner, c.limit, c.lease, c.now, c.later, c.token, c.bad).value {
      assert HeldOf(n, id) == s + [Held(c.owner, c.now, c.later + c.lease)];
    } else {
      assert HeldOf(n, id) == s;
    }
  }

  /** A deliverable row's last lease has expired, so one more does not overlap it. */
  lemma ClaimOne(w: World, s: seq<Held>, id: nat, owner: string, now: int, until: int)
    requires Exclusive(s) && Timely(s, w.clock)
    ensures id in w.table.rows && Recorded(w.table.rows[id], s) && Deliverable(w.table.rows[id], now) ==>
              Exclusive(s + [Held(owner, now, until)])
  {
    if id in w.table.rows && Recorded(w.table.rows[id], s) && Deliverable(w.table.rows[id], now) {
      forall i | 0 <= i < |s| ensures s[i].until <= now {
        if i < |s| - 1 { assert s[i].until <= s[|s| - 1].at; }
      }
    }
  }

  lemma RenewKeeps(w: World, limits: Limits, c: Call)
    requires Inv(w) && c.Renew?
    ensures Inv(Next(w, limits, c))
  {
    var n := Next(w, limits, c);
    if !(c.now < w.clock || Blank(c.owner) || c.ids == [] || c.lease <= 0 || 0 in c.ids) {
      forall id: nat ensures IdInv(n, id) {
        assert IdInv(w, id);
        var s, t := HeldOf(w, id), HeldOf(n, id);
        if id in w.table.rows && Renewable(w.table.rows, c.owner, c.ids, c.now, id) {
          assert s != [] && t == s[|s| - 1 := s[|s| - 1].(until := c.now + c.lease)];
        } else {
          assert t == s;
        }
      }
    }
  }

  lemma DeleteKeeps(w: World, limits: Limits, c: Call)
    requires Inv(w) && c.Delete?
    ensures Inv(Next(w, limits, c))
  {
    var n := Next(w, limits, c);
    if DeleteRow(w.table, c.owner, c.id).ok {
      forall id: nat ensures IdInv(n, id) { assert IdInv(w, id); }
    }
  }

  lemma {:induction false} PlayKeeps(w: World, limits: Limits, calls: seq<Call>)
    requires Inv(w)
    ensures Inv(Play(w, limits, calls))
    decreases |calls|
  {
    if calls != [] {
      var c := calls[0];
      match c {
        case Enqueue(bytes) => EnqueueKeeps(w, limits, bytes);
        case Claim(_, _, _, _, _, _, _) => ClaimKeeps(w, limits, c);
        case Renew(_, _, _, _) => RenewKeeps(w, limits, c);
        case Delete(_, _) => DeleteKeeps(w, limits, c);
      }
      PlayKeeps(Next(w, limits, c), limits, calls[1..]);
    }
  }

  lemma StartHolds()
    ensures Inv(START)
  {
    forall id: nat ensures IdInv(START, id) {}
  }

  /**
   In any run the pending count is positive exactly when a claim from some instant on would return a
   request, if all rows decode; and the rows not counted are the quarantined ones.
   */
  lemma PendingCanBeClaimed(limits: Limits, calls: seq<Call>, owner: string, limit: int, lease: int, token: nat, clock: int)
    requires !Blank(owner) && limit > 0 && lease > 0 && token !in Play(START, limits, calls).tokens
    ensures var t := Play(START, limits, calls).table;
            && (|Unpoisoned(t.rows)| > 0 <==> exists now :: now >= clock && ClaimRows(t, owner, limit, lease, now, now, token, {}).value != [])
            && |Unpoisoned(t.rows)| + |Poisoned(t.rows)| == |t.rows|
  {
    StartHolds();
    PlayKeeps(START, limits, calls);
    hide ClaimRows;
    hide Play;
    var w := Play(START, limits, calls);
    forall k | k in w.table.rows ensures w.table.rows[k].token != token && k < w.table.next { assert IdInv(w, k); }
    hide Inv;
    hide IdInv;
    ClaimableIffPending(w.table, owner, limit, lease, token, clock);
    PendingAndPoisoned(w.table);
    hide Unpoisoned;
    hide Poisoned;
  }

  lemma PendingAndPoisoned(t: Table)
    ensures |Unpoisoned(t.rows)| + |Poisoned(t.rows)| == |t.rows|
  {
    assert t.rows.Keys == Unpoisoned(t.rows) + Poisoned(t.rows) && Unpoisoned(t.rows) !! Poisoned(t.rows);
  }

  lemma ClaimableIffPending(t: Table, owner: string, limit: int, lease: int, token: nat, clock: int)
    requires !Blank(owner) && limit > 0 && lease > 0
    requires forall k :: k in t.rows ==> t.rows[k].token != token && k < t.next
    ensures |Unpoisoned(t.rows)| > 0 <==> exists now :: now >= clock && ClaimRows(t, owner, limit, lease, now, now, token, {}).value != []
  {
    hide ClaimRows;
    if k :| k in Unpoisoned(t.rows) {
      var now := if t.rows[k].expires > clock then t.rows[k].expires else clock;
      assert Deliverable(t.rows[k], now);
      ClaimsSome(t, owner, limit, lease, now, token);
    }
    forall now | ClaimRows(t, owner, limit, lease, now, now, token, {}).value != [] ensures Unpoisoned(t.rows) != {} {
      ClaimsSome(t, owner, limit, lease, now, token);
      var k :| k in t.rows && Deliverable(t.rows[k], now);
      assert k in Unpoisoned(t.rows);
    }
  }

  ghost predicate SomeDeliverable(t: Table, now: int) {
    exists k :: k in t.rows && Deliverable(t.rows[k], now)
  }

  /** A claim of decodable rows returns one exactly when some row can be delivered now. */
  lemma ClaimsSome(t: Table, owner: string, limit: int, lease: int, now: int, token: nat)
    requires !Blank(owner) && limit > 0 && lease > 0
    requires forall k :: k in t.rows ==> t.rows[k].token != token && k < t.next
    ensures ClaimRows(t, owner, limit, lease, now, now, token, {}).value != [] <==> SomeDeliverable(t, now)
  {
    ClaimReturnsItsOwn(t, owner, limit, lease, now, now, token, {});
    LowestComeFirst(t, 0, limit, now);
    hide ClaimRows;
    var lowest, value := Lowest(t, 0, limit, now), ClaimRows(t, owner, limit, lease, now, now, token, {}).value;
    if value != [] { assert value[0] in lowest; }
    if lowest != [] { assert lowest[0] in value; }
  }

  /** In any run, whoever claims a row next does so only once the lease before, renewals and all, had expired. */
  lemma LeasesAreExclusive(limits: Limits, calls: seq<Call>, id: nat, i: nat, j: nat)
    requires i < j < |HeldOf(Play(START, limits, calls), id)|
    ensures var s := HeldOf(Play(START, limits, calls), id);
            s[i].at <= s[i].until <= s[j].at <= s[j].until
  {
    StartHolds();
    PlayKeeps(START, limits, calls);
    assert IdInv(Play(START, limits, calls), id);
  }

  /** In any run, every ID ever issued is exactly one of queued, quarantined, and deleted by its last claimant. */
  lemma NothingIsLost(limits: Limits, calls: seq<Call>, id: nat)
    ensures var w := Play(START, limits, calls);
            && (1 <= id < w.table.next <==> id in w.table.rows || id in w.deleted)
            && !(id in w.table.rows && id in w.deleted)
            && (id in w.deleted ==> HeldOf(w, id) != [] && HeldOf(w, id)[|HeldOf(w, id)| - 1].owner == w.deleted[id])
  {
    StartHolds();
    PlayKeeps(START, limits, calls);
    assert IdInv(Play(START, limits, calls), id);
  }

  /** Whoever last claimed a row still queued deletes it, lapsed lease or not; every other row stays as it was. */
  lemma OwnerDeletes(limits: Limits, calls: seq<Call>, id: nat, owner: string)
    requires var w := Play(START, limits, calls);
             && id in w.table.rows && !w.table.rows[id].quarantined
             && HeldOf(w, id) != [] && HeldOf(w, id)[|HeldOf(w, id)| - 1].owner == owner
    ensures var w := Play(START, limits, calls);
            var r, n := DeleteRow(w.table, owner, id), Next(w, limits, Delete(owner, id));
            && r.ok && r.table == Table(w.table.rows - {id}, w.table.next)
            && n.table == r.table && n.deleted == w.deleted[id := owner]
  {
    StartHolds();
    PlayKeeps(START, limits, calls);
    var w := Play(START, limits, calls);
    hide Play;
    assert IdInv(w, id);
    assert (map k | k in w.table.rows && k != id :: w.table.rows[k]) == w.table.rows - {id};
  }

  /** After another owner has claimed a row, the former owner can neither delete nor renew it. */
  lemma ReclaimedIsFenced(limits: Limits, calls: seq<Call>, id: nat, former: string, ids: seq<nat>, lease: int, now: int)
    requires var w := Play(START, limits, calls);
             id in w.table.rows && HeldOf(w, id) != [] && HeldOf(w, id)[|HeldOf(w, id)| - 1].owner != former && id in ids
    ensures var t := Play(START, limits, calls).table;
            !DeleteRow(t, former, id).ok && !RenewRows(t, former, ids, lease, now).ok
  {
    StartHolds();
    PlayKeeps(START, limits, calls);
    var w := Play(START, limits, calls);
    assert IdInv(w, id);
    if w.table.rows[id].owner != former || w.table.rows[id].expires <= now {
      LapsedNotRenewed(w.table, former, ids, lease, now, id);
    }
  }

  // ----- bounds -----

  ghost predicate WithinLimits(t: Table, limits: Limits) {
    |t.rows| <= limits.maxQueuedRequests && Bytes(t.rows, t.next) <= limits.maxQueuedBytes
  }

  /** a holds no row b does not, and those it holds have the same bodies. */
  ghost predicate NoMore(a: map<nat, Row>, b: map<nat, Row>) {
    forall k :: k in a ==> k in b && a[k].bytes == b[k].bytes
  }

  lemma {:induction false} FewerBytes(a: map<nat, Row>, b: map<nat, Row>, n: nat)
    requires NoMore(a, b)
    ensures Bytes(a, n) <= Bytes(b, n)
  {
    if n > 0 { FewerBytes(a, b, n - 1); }
  }

  lemma {:induction false} BytesBelow(a: map<nat, Row>, b: map<nat, Row>, n: nat)
    requires forall k :: k < n ==> (k in a <==> k in b) && (k in a ==> a[k].bytes == b[k].bytes)
    ensures Bytes(a, n) == Bytes(b, n)
  {
    if n > 0 { BytesBelow(a, b, n - 1); }
  }

  lemma NoMoreIsWithin(t: Table, u: Table, limits: Limits)
    requires WithinLimits(t, limits) && NoMore(u.rows, t.rows) && u.next == t.next
    ensures WithinLimits(u, limits)
  {
    FewerBytes(u.rows, t.rows, t.next);
    SubsetSize(u.rows.Keys, t.rows.Keys);
  }

  lemma StepWithin(w: World, limits: Limits, c: Call)
    requires Inv(w) && WithinLimits(w.table, limits)
    ensures WithinLimits(Next(w, limits, c).table, limits)
  {
    hide Bytes;
    var n := Next(w, limits, c);
    match c
    case Enqueue(bytes) =>
      var t := w.table;
      if EnqueueRow(t, limits, bytes).ok {
        assert IdInv(w, t.next);
        var row := Row(bytes, "", UNLEASED, 0, false);
        BytesAdd(t.rows, t.next, row);
      }
    case Claim(owner, limit, lease, now, later, token, bad) =>
      NoMoreIsWithin(w.table, n.table, limits);
    case Renew(_, _, _, _) => NoMoreIsWithin(w.table, n.table, limits);
    case Delete(_, _) => NoMoreIsWithin(w.table, n.table, limits);
  }

  lemma BytesAdd(rows: map<nat, Row>, n: nat, r: Row)
    ensures Bytes(rows[n := r], n + 1) == Bytes(rows, n) + r.bytes
  {
    BytesBelow(rows[n := r], rows, n);
  }

  lemma {:induction false} PlayWithin(w: World, limits: Limits, calls: seq<Call>)
    requires Inv(w) && WithinLimits(w.table, limits)
    ensures WithinLimits(Play(w, limits, calls).table, limits)
    decreases |calls|
  {
    hide Bytes;
    if calls != [] {
      StepWithin(w, limits, calls[0]);
      PlayKeeps(w, limits, [calls[0]]);
      assert Play(w, limits, [calls[0]]) == Next(w, limits, calls[0]);
      PlayWithin(Next(w, limits, calls[0]), limits, calls[1..]);
    }
  }

  /** A queue opened with positive limits never holds more rows, nor more body bytes, than they allow. */
  lemma QueueStaysBounded(limits: Limits, calls: seq<Call>)
    requires limits.maxQueuedRequests > 0 && limits.maxQueuedBytes > 0
    ensures WithinLimits(Play(START, limits, calls).table, limits)
  {
    StartHolds();
    assert Bytes(map[], 1) == 0;
    PlayWithin(START, limits, calls);
  }

  // ----- quarantine -----

  ghost predicate Quarantined(w: World, id: nat) {
    id in w.table.rows && w.table.rows[id].quarantined
  }

  lemma QuarantineStays(w: World, limits: Limits, c: Call, id: nat)
    requires Inv(w) && Quarantined(w, id)
    ensures Quarantined(Next(w, limits, c), id) && HeldOf(Next(w, limits, c), id) == HeldOf(w, id)
  {
    assert IdInv(w, id);
    match c
    case Enqueue(_) =>
    case Claim(owner, limit, lease, now, later, token, bad) =>
      if !(token in w.tokens || now < w.clock || later < now || Blank(owner) || limit <= 0 || lease <= 0) {
        forall k | k in w.table.rows ensures w.table.rows[k].token != token { assert IdInv(w, k); }
        ClaimOnId(w.table, c, id);
        hide ClaimRows;
      }
    case Renew(_, _, _, _) =>
    case Delete(_, _) =>
  }

  /** A quarantined row stays, and stays quarantined: nobody ever holds it again. */
  lemma {:induction false} QuarantineIsFinal(w: World, limits: Limits, calls: seq<Call>, id: nat)
    requires Inv(w) && Quarantined(w, id)
    ensures Quarantined(Play(w, limits, calls), id) && HeldOf(Play(w, limits, calls), id) == HeldOf(w, id)
    decreases |calls|
  {
    if calls != [] {
      QuarantineStays(w, limits, calls[0], id);
      PlayKeeps(w, limits, [calls[0]]);
      assert Play(w, limits, [calls[0]]) == Next(w, limits, calls[0]);
      QuarantineIsFinal(Next(w, limits, calls[0]), limits, calls[1..], id);
    }
  }
}
