/**
 The scale-down lock and the leases it excludes, in one table under one clock. Clients take and renew
 leases, sweeps take the lock, scan for leases and act; the steps of all of them interleave freely.
 */
module ScaleDown {

  /** Request leases and stream leases are scanned by different sweeps; the position is where a scan meets the row. */
  datatype Id = Lock | Lease(streams: bool, position: nat)

  datatype Row = Row(owner: nat, expires: int)

  /** How long a task sweep's lock, a request lease and a stream lease last, in seconds. */
  datatype Config = Config(lock: nat, request: nat, stream: real)

  const STREAM_LOCK: nat := 15

  datatype Phase = Started | Locked | Scanning | Clear | Over

  /**
   A sweep: first is the clock reading its lock's expiry is counted from, second the one its deadline
   is; since is the second its scan compares expiries with, and next the position the scan is at.
   */
  datatype Sweep = Sweep(streams: bool, lock: nat, first: real, second: real, phase: Phase, since: int, next: nat)

  /** revived remembers the stream leases renewed after they had lapsed. */
  datatype World = World(now: real, rows: map<Id, Row>, sweeps: map<nat, Sweep>, revived: set<nat>)

  /** An empty table, at some time. */
  function Empty(start: real): World {
    World(start, map[], map[], {})
  }

  datatype Step =
    | Pass(time: real)
    | Reap(id: Id)                                      // time-to-live removal
    | TakeLease(id: Id, owner: nat, reading: real, later: real)
    | RenewStream(position: nat, owner: nat, reading: real)
    | DropLease(id: Id)
    | Begin(sweep: nat, streams: bool)
    | ReadDeadline(sweep: nat)
    | TakeLock(sweep: nat, reading: real)
    | BeginScan(sweep: nat)
    | ReadPage(sweep: nat, end: nat, last: bool)
    | Release(sweep: nat, deleted: bool)

  function Expires(s: Sweep): int { s.first.Floor + s.lock }

  function Deadline(s: Sweep): real { s.second + s.lock as real }

  /** A request lease counts from the reading its lock test uses, a stream lease from a later one. */
  function LeaseExpires(c: Config, id: Id, reading: real, later: real): int
    requires id.Lease?
  {
    if id.streams then (later + c.stream).Floor else reading.Floor + c.request
  }

  /** A lock may be taken when there is none or the reader's clock is past it. */
  predicate Free(w: World, reading: real) {
    Lock !in w.rows || w.rows[Lock].expires < reading.Floor
  }

  predicate Live(w: World, id: Id) {
    id in w.rows && w.rows[id].expires > w.now.Floor
  }

  /** The page from next on holds an unexpired lease, as of the second the scan began. */
  predicate PageFinds(w: World, s: Sweep, end: nat, last: bool) {
    exists id :: id in w.rows && id.Lease? && id.streams == s.streams && s.next <= id.position && (last || id.position < end)
                 && w.rows[id].expires > s.since
  }

  function AfterPage(w: World, s: Sweep, end: nat, last: bool): Sweep {
    if (!s.streams && w.now >= Deadline(s)) || PageFinds(w, s, end, last) then s.(phase := Over)
    else if last then s.(phase := Clear)
    else s.(next := if end > s.next then end else s.next)
  }

  function Set(w: World, n: nat, s: Sweep): World {
    World(w.now, w.rows, w.sweeps[n := s], w.revived)
  }

  function Next(c: Config, w: World, step: Step): World {
    match step
    case Pass(time) => if time >= 0.0 then w.(now := w.now + time) else w
    case Reap(id) => if id in w.rows && w.rows[id].expires < w.now.Floor then w.(rows := w.rows - {id}) else w
    case TakeLease(id, owner, reading, later) =>
      if id.Lease? && id !in w.rows && reading <= later <= w.now && Free(w, reading)
      then w.(rows := w.rows[id := Row(owner, LeaseExpires(c, id, reading, later))]) else w
    case RenewStream(position, owner, reading) =>
      var id := Lease(true, position);
      if id in w.rows && w.rows[id].owner == owner && reading <= w.now
      then World(w.now, w.rows[id := Row(owner, LeaseExpires(c, id, reading, reading))], w.sweeps,
             if Live(w, id) then w.revived else w.revived + {position})
      else w
    case DropLease(id) => if id.Lease? then w.(rows := w.rows - {id}) else w
    case Begin(n, streams) =>
      if n in w.sweeps then w
      else Set(w, n, Sweep(streams, if streams then STREAM_LOCK else c.lock, w.now, w.now, Started, 0, 0))
    case ReadDeadline(n) =>
      if n in w.sweeps && w.sweeps[n].phase == Started then Set(w, n, w.sweeps[n].(second := w.now)) else w
    case TakeLock(n, reading) =>
      if n !in w.sweeps || w.sweeps[n].phase != Started || reading > w.now then w
      else if Free(w, reading)
      then World(w.now, w.rows[Lock := Row(n, Expires(w.sweeps[n]))], w.sweeps[n := w.sweeps[n].(phase := Locked)], w.revived)
      else Set(w, n, w.sweeps[n].(phase := Over))
    case BeginScan(n) =>
      if n in w.sweeps && w.sweeps[n].phase == Locked
      then Set(w, n, w.sweeps[n].(phase := Scanning, since := w.now.Floor, next := 0)) else w
    case ReadPage(n, end, last) =>
      if n in w.sweeps && w.sweeps[n].phase == Scanning then Set(w, n, AfterPage(w, w.sweeps[n], end, last)) else w
    case Release(n, deleted) =>
      if n !in w.sweeps then w
      else
        var rows := if deleted && Lock in w.rows && w.rows[Lock].owner == n then w.rows - {Lock} else w.rows;
        World(w.now, rows, w.sweeps[n := w.sweeps[n].(phase := Over)], w.revived)
  }

  function Play(c: Config, w: World, steps: seq<Step>): World
    decreases |steps|
  {
    if steps == [] then w else Next(c, Play(c, w, steps[..|steps| - 1]), steps[|steps| - 1])
  }

  /** The sweep may act now: a task sweep stops a task before its deadline, a stream sweep asks for hibernation. */
  predicate Acts(w: World, n: nat) {
    n in w.sweeps && w.sweeps[n].phase == Clear && (w.sweeps[n].streams || w.now < Deadline(w.sweeps[n]))
  }

  predicate HoldsLock(w: World, n: nat) {
    n in w.sweeps && Lock in w.rows && w.rows[Lock] == Row(n, Expires(w.sweeps[n])) && w.now.Floor <= Expires(w.sweeps[n])
  }

  /** The sweep holds the lock, unexpired, and no lease it looks for is live. */
  ghost predicate Alone(w: World, n: nat) {
    HoldsLock(w, n) && forall id :: Live(w, id) && id.Lease? ==> id.streams != w.sweeps[n].streams
  }

  // ----- the invariant -----

  /** The scan has passed the position. */
  predicate Passed(s: Sweep, position: nat) {
    s.phase == Clear || (s.phase == Scanning && position < s.next)
  }

  /** While its lock has not expired, a sweep at work holds it, and no lease it has passed is live. */
  ghost predicate Guarded(w: World, n: nat) {
    n in w.sweeps ==>
      var s := w.sweeps[n];
      && s.first <= s.second <= w.now && (s.streams ==> s.lock == STREAM_LOCK) && (s.phase in {Scanning, Clear} ==> s.since <= w.now.Floor)
      && (s.phase in {Locked, Scanning, Clear} && w.now.Floor <= Expires(s) ==>
            && HoldsLock(w, n)
            && forall id :: Live(w, id) && id.Lease? && id.streams == s.streams && Passed(s, id.position) ==>
                 id.streams && id.position in w.revived)
  }

  lemma PassGuarded(w: World, v: World, n: nat)
    requires Guarded(w, n) && w.now <= v.now && v == w.(now := v.now)
    ensures Guarded(v, n)
  {
    assert w.now.Floor <= v.now.Floor;
    forall id | Live(v, id) ensures Live(w, id) {}
  }

  /** Changing rows other than an unexpired lock, none of them coming alive unless revived. */
  lemma RowsGuarded(w: World, v: World, n: nat)
    requires Guarded(w, n) && v == World(w.now, v.rows, w.sweeps, v.revived) && w.revived <= v.revived
    requires Lock in w.rows && w.rows[Lock].expires >= w.now.Floor ==> Lock in v.rows && v.rows[Lock] == w.rows[Lock]
    requires Lock in w.rows && w.rows[Lock].expires >= w.now.Floor ==>
               forall id: Id :: id.Lease? && Live(v, id) && !Live(w, id) ==> id.streams && id.position in v.revived
    ensures Guarded(v, n)
  {}

  lemma OtherGuarded(w: World, v: World, n: nat, m: nat, s: Sweep)
    requires Guarded(w, n) && v == Set(w, m, s) && m != n
    ensures Guarded(v, n)
  {
    forall id | Live(v, id) ensures Live(w, id) {}
  }

  lemma LockGuarded(c: Config, w: World, n: nat, m: nat, reading: real)
    requires Guarded(w, n) && Guarded(w, m)
    ensures Guarded(Next(c, w, TakeLock(m, reading)), n)
  {
    var v := Next(c, w, TakeLock(m, reading));
    forall id | Live(v, id) && id.Lease? ensures Live(w, id) {}
  }

  lemma PageGuarded(c: Config, w: World, n: nat, m: nat, end: nat, last: bool)
    requires Guarded(w, n)
    ensures Guarded(Next(c, w, ReadPage(m, end, last)), n)
  {
    var v := Next(c, w, ReadPage(m, end, last));
    forall id | Live(v, id) ensures Live(w, id) {}
    if n == m && n in w.sweeps && v != w {
      var s, t := w.sweeps[n], v.sweeps[n];
      forall id | Live(w, id) && id.Lease? && id.streams == s.streams && Passed(t, id.position)
        ensures Passed(s, id.position)
      {
        assert !PageFinds(w, s, end, last);
        assert !(s.next <= id.position && (last || id.position < end));
      }
    }
  }

  lemma ReleaseGuarded(c: Config, w: World, n: nat, m: nat, deleted: bool)
    requires Guarded(w, n)
    ensures Guarded(Next(c, w, Release(m, deleted)), n)
  {
    var v := Next(c, w, Release(m, deleted));
    forall id | Live(v, id) && id.Lease? ensures Live(w, id) {}
  }

  ghost predicate AllGuarded(w: World) {
    forall n: nat {:trigger Guarded(w, n)} :: Guarded(w, n)
  }

  lemma StepGuarded(c: Config, w: World, step: Step, n: nat)
    requires AllGuarded(w)
    ensures Guarded(Next(c, w, step), n)
  {
    assert Guarded(w, n);
    var v := Next(c, w, step);
    match step
    case Pass(_) => PassGuarded(w, v, n);
    case TakeLock(m, reading) => assert Guarded(w, m); LockGuarded(c, w, n, m, reading);
    case ReadPage(m, end, last) => PageGuarded(c, w, n, m, end, last);
    case Release(m, deleted) => ReleaseGuarded(c, w, n, m, deleted);
    case Begin(m, _) => if m != n && v != w { OtherGuarded(w, v, n, m, v.sweeps[m]); }
    case ReadDeadline(m) => if m != n && v != w { OtherGuarded(w, v, n, m, v.sweeps[m]); }
    case BeginScan(m) => if m != n && v != w { OtherGuarded(w, v, n, m, v.sweeps[m]); }
    case _ => RowsGuarded(w, v, n);
  }

  lemma {:induction false} PlayGuarded(c: Config, w: World, steps: seq<Step>)
    requires AllGuarded(w)
    ensures AllGuarded(Play(c, w, steps))
    decreases |steps|
  {
    if steps != [] {
      PlayGuarded(c, w, steps[..|steps| - 1]);
      var before, step := Play(c, w, steps[..|steps| - 1]), steps[|steps| - 1];
      var after := Next(c, before, step);
      forall n: nat ensures Guarded(after, n) { StepGuarded(c, before, step, n); }
    }
  }

  // ----- the claims -----

  /** A sweep that acts while its lock has not expired is alone, unless a stream lease was renewed after lapsing. */
  lemma ActsAlone(c: Config, start: real, steps: seq<Step>, n: nat)
    requires var w := Play(c, Empty(start), steps); Acts(w, n) && w.now.Floor <= Expires(w.sweeps[n])
    ensures var w := Play(c, Empty(start), steps);
            HoldsLock(w, n) && (w.revived == {} || !w.sweeps[n].streams ==> Alone(w, n))
  {
    PlayGuarded(c, Empty(start), steps);
    assert Guarded(Play(c, Empty(start), steps), n);
  }

  /** A task sweep whose deadline is no later than a second past its lock's expiry stops tasks only when alone. */
  lemma StopsAlone(c: Config, start: real, steps: seq<Step>, n: nat)
    requires var w := Play(c, Empty(start), steps);
             Acts(w, n) && !w.sweeps[n].streams && Deadline(w.sweeps[n]) <= (Expires(w.sweeps[n]) + 1) as real
    ensures Alone(Play(c, Empty(start), steps), n)
  {
    var w := Play(c, Empty(start), steps);
    assert w.now < (Expires(w.sweeps[n]) + 1) as real;
    ActsAlone(c, start, steps, n);
  }

  /** Two sweeps never act at the same moment within their locks. */
  lemma OneSweepActs(c: Config, start: real, steps: seq<Step>, n: nat, m: nat)
    requires var w := Play(c, Empty(start), steps);
             && Acts(w, n) && w.now.Floor <= Expires(w.sweeps[n])
             && Acts(w, m) && w.now.Floor <= Expires(w.sweeps[m])
    ensures n == m
  {
    ActsAlone(c, start, steps, n);
    ActsAlone(c, start, steps, m);
  }

  function Fresh(c: Config, now: real, streams: bool): Sweep {
    Sweep(streams, if streams then STREAM_LOCK else c.lock, now, now, Started, 0, 0)
  }

  /** One sweep from beginning to acting, with nothing else going on. */
  function Swept(c: Config, w: World, n: nat, streams: bool): World {
    Next(c, Scans(c, w, n, streams), ReadPage(n, 0, true))
  }

  function Scans(c: Config, w: World, n: nat, streams: bool): World {
    Next(c, Next(c, Next(c, Next(c, w, Begin(n, streams)), ReadDeadline(n)), TakeLock(n, w.now)), BeginScan(n))
  }

  lemma ScansWhenFree(c: Config, w: World, n: nat, streams: bool)
    requires n !in w.sweeps
    ensures var s := Fresh(c, w.now, streams);
            Scans(c, w, n, streams) ==
              if Free(w, w.now)
              then World(w.now, w.rows[Lock := Row(n, Expires(s))], w.sweeps[n := s.(phase := Scanning, since := w.now.Floor)], w.revived)
              else World(w.now, w.rows, w.sweeps[n := s.(phase := Over)], w.revived)
  {
    var s := Fresh(c, w.now, streams);
    var begun := Set(w, n, s);
    assert Next(c, Next(c, w, Begin(n, streams)), ReadDeadline(n)) == begun;
    assert Free(begun, w.now) == Free(w, w.now);
    var locked := Next(c, begun, TakeLock(n, w.now));
    assert locked == if Free(w, w.now)
                     then World(w.now, w.rows[Lock := Row(n, Expires(s))], w.sweeps[n := s.(phase := Locked)], w.revived)
                     else Set(w, n, s.(phase := Over));
    hide Free;
  }

  /** Undisturbed, a new sweep gets to act exactly when no unexpired lock and no live lease of its sort stands in its way. */
  lemma ActsExactlyWhen(c: Config, w: World, n: nat, streams: bool)
    requires n !in w.sweeps && (streams || c.lock > 0)
    ensures Acts(Swept(c, w, n, streams), n) <==>
              && (Lock in w.rows ==> w.rows[Lock].expires < w.now.Floor)
              && forall id: Id :: id in w.rows && id.Lease? && w.rows[id].expires > w.now.Floor ==> id.streams != streams
    ensures Acts(Swept(c, w, n, streams), n) ==>
              Swept(c, w, n, streams).rows
                == w.rows[Lock := Row(n, w.now.Floor + if streams then STREAM_LOCK else c.lock)]
  {
    ScansWhenFree(c, w, n, streams);
    var v := Scans(c, w, n, streams);
    hide Scans;
    if Free(w, w.now) { ScanFinds(w, v.rows, v, v.sweeps[n]); }
    hide PageFinds;
  }

  lemma ScanFinds(w: World, rows: map<Id, Row>, v: World, s: Sweep)
    requires v.rows == rows && (forall id: Id :: id.Lease? ==> (id in rows <==> id in w.rows) && (id in rows ==> rows[id] == w.rows[id]))
    requires s.next == 0
    ensures PageFinds(v, s, 0, true) <==>
              exists id: Id :: id in w.rows && id.Lease? && id.streams == s.streams && w.rows[id].expires > s.since
  {
  }

  /** A sweep that gives up the lock it still has lets leases in again; another's lock it leaves. */
  lemma ReleaseLetsIn(c: Config, w: World, n: nat, id: Id, owner: nat)
    requires n in w.sweeps && id.Lease? && id !in w.rows && Lock in w.rows
    ensures var v := Next(c, w, Release(n, true));
            && !Acts(v, n)
            && if w.rows[Lock].owner == n then id in Next(c, v, TakeLease(id, owner, w.now, w.now)).rows else v.rows == w.rows
  {
  }

  // ----- exactly when -----

  lemma Further(c: Config, start: real, steps: seq<Step>, step: Step) returns (longer: seq<Step>)
    ensures longer == steps + [step] && Play(c, Empty(start), longer) == Next(c, Play(c, Empty(start), steps), step)
  {
    longer := steps + [step];
    assert longer[..|steps|] == steps;
  }

  lemma Nothing(c: Config, start: real)
    ensures Play(c, Empty(start), []) == Empty(start)
  {
  }

  /** A lone sweep's way to the end of its scan; the row, if any, is one its scan does not find. */
  lemma SweepClears(c: Config, start: real, before: seq<Step>, rows: map<Id, Row>, streams: bool, first: real, second: real) returns (steps: seq<Step>)
    requires Play(c, Empty(start), before) == World(first, rows, map[], {}) && first <= second && Lock !in rows && (streams || c.lock > 0)
    requires forall id :: id in rows ==> id.Lease? && rows[id].expires <= second.Floor
    ensures var s := Sweep(streams, if streams then STREAM_LOCK else c.lock, first, second, Clear, second.Floor, 0);
            Play(c, Empty(start), steps) == World(second, rows[Lock := Row(0, Expires(s))], map[0 := s], {})
  {
    hide Play;
    hide Free;
    hide AfterPage;
    hide LeaseExpires;
    hide Live;
    var s := Sweep(streams, if streams then STREAM_LOCK else c.lock, first, first, Started, 0, 0);
    steps := Further(c, start, before, Begin(0, streams));
    assert Play(c, Empty(start), steps) == World(first, rows, map[0 := s], {});
    steps := Further(c, start, steps, Pass(second - first));
    assert Play(c, Empty(start), steps) == World(second, rows, map[0 := s], {});
    steps := Further(c, start, steps, ReadDeadline(0));
    s := s.(second := second);
    assert Play(c, Empty(start), steps) == World(second, rows, map[0 := s], {});
    steps := SweepScans(c, start, steps, rows, s);
  }

  lemma SweepScans(c: Config, start: real, before: seq<Step>, rows: map<Id, Row>, s: Sweep) returns (steps: seq<Step>)
    requires Play(c, Empty(start), before) == World(s.second, rows, map[0 := s], {}) && s.phase == Started && s.next == 0
    requires Lock !in rows && (s.streams || s.lock > 0)
    requires forall id :: id in rows ==> id.Lease? && rows[id].expires <= s.second.Floor
    ensures var e := s.(phase := Clear, since := s.second.Floor);
            Play(c, Empty(start), steps) == World(s.second, rows[Lock := Row(0, Expires(s))], map[0 := e], {})
  {
    hide Play;
    var now, locked := s.second, rows[Lock := Row(0, Expires(s))];
    steps := Further(c, start, before, TakeLock(0, now));
    assert Play(c, Empty(start), steps) == World(now, locked, map[0 := s.(phase := Locked)], {});
    steps := Further(c, start, steps, BeginScan(0));
    var e := s.(phase := Scanning, since := now.Floor);
    assert Play(c, Empty(start), steps) == World(now, locked, map[0 := e], {});
    steps := Further(c, start, steps, ReadPage(0, 0, true));
    assert !PageFinds(Play(c, Empty(start), before + [TakeLock(0, now)] + [BeginScan(0)]), e, 0, true);
  }

  /** The lock lapses, a client takes a lease, and the sweep is still clear. */
  lemma LeaseAfterLock(c: Config, start: real, before: seq<Step>, s: Sweep, t: real) returns (steps: seq<Step>)
    requires Play(c, Empty(start), before) == World(s.second, map[Lock := Row(0, Expires(s))], map[0 := s], {})
    requires s.phase == Clear && s.second <= t && Expires(s) < t.Floor && (s.streams || t < Deadline(s))
    requires if s.streams then (t + c.stream).Floor > t.Floor else c.request > 0
    ensures var w := Play(c, Empty(start), steps);
            w.now == t && w.sweeps == map[0 := s] && w.revived == {} && Acts(w, 0) && Live(w, Lease(s.streams, 0))
  {
    hide Play;
    steps := Further(c, start, before, Pass(t - s.second));
    assert Play(c, Empty(start), steps) == World(t, map[Lock := Row(0, Expires(s))], map[0 := s], {});
    steps := Further(c, start, steps, TakeLease(Lease(s.streams, 0), 1, t, t));
  }

  /** A lease the sweep looks for is live. */
  ghost predicate Beside(w: World, n: nat)
    requires n in w.sweeps
  {
    exists id :: Live(w, id) && id.Lease? && id.streams == w.sweeps[n].streams
  }

  /** A stop beside a live request lease, by a task sweep with these two readings. */
  ghost predicate StopsBesideLease(c: Config, start: real, steps: seq<Step>, n: nat, first: real, second: real) {
    var w := Play(c, Empty(start), steps);
    Acts(w, n) && !w.sweeps[n].streams && w.sweeps[n].first == first && w.sweeps[n].second == second && Beside(w, n)
  }

  /**
   A task sweep's two clock readings keep every stop in every run clear of live leases exactly when the
   second is at most the next whole second after the first; one reading for both is.
   */
  lemma StopsAloneExactlyWhen(c: Config, first: real, second: real)
    requires first <= second && c.lock > 0 && c.request > 0
    ensures (forall start, steps, n :: !StopsBesideLease(c, start, steps, n, first, second)) <==> second <= (first.Floor + 1) as real
  {
    if second <= (first.Floor + 1) as real {
      forall start, steps, n ensures !StopsBesideLease(c, start, steps, n, first, second) {
        var w := Play(c, Empty(start), steps);
        if Acts(w, n) && !w.sweeps[n].streams && w.sweeps[n].first == first && w.sweeps[n].second == second {
          StopsAlone(c, start, steps, n);
        }
      }
    } else {
      var t := (first.Floor + c.lock + 1) as real;
      if t < second { t := second; }
      var steps := SweepClears(c, first, [], map[], false, first, second);
      var s := Sweep(false, c.lock, first, second, Clear, second.Floor, 0);
      steps := LeaseAfterLock(c, first, steps, s, t);
      assert StopsBesideLease(c, first, steps, 0, first, second);
    }
  }

  /** Hibernation asked for at some time, beside a live stream, by a sweep that read its lock's clock at first. */
  ghost predicate HibernatesBesideStream(c: Config, start: real, steps: seq<Step>, n: nat, first: real, at: real, revival: bool) {
    var w := Play(c, Empty(start), steps);
    && Acts(w, n) && w.sweeps[n].streams && w.sweeps[n].first == first && w.now == at && (revival || w.revived == {})
    && Beside(w, n)
  }

  /** A stream's lease that was live and has lapsed is renewed after a sweep's scan passed it. */
  lemma RevivedBesideSweep(c: Config, first: real, at: real) returns (start: real, steps: seq<Step>)
    requires first <= at && c.stream > 0.0 && (at + c.stream).Floor > at.Floor
    ensures HibernatesBesideStream(c, start, steps, 0, first, at, true)
  {
    hide Play;
    var id, expires := Lease(true, 0), first.Floor - 1;
    var lapsed := map[id := Row(1, expires)];
    start := expires as real - c.stream;
    assert start + c.stream == expires as real;
    Nothing(c, start);
    steps := Further(c, start, [], TakeLease(id, 1, start, start));
    assert Play(c, Empty(start), steps) == World(start, lapsed, map[], {});
    assert Live(Play(c, Empty(start), steps), id);
    steps := Further(c, start, steps, Pass(first - start));
    assert Play(c, Empty(start), steps) == World(first, lapsed, map[], {});
    steps := SweepClears(c, start, steps, lapsed, true, first, first);
    var s := Sweep(true, STREAM_LOCK, first, first, Clear, first.Floor, 0);
    var rows := lapsed[Lock := Row(0, Expires(s))];
    steps := Further(c, start, steps, Pass(at - first));
    assert Play(c, Empty(start), steps) == World(at, rows, map[0 := s], {});
    steps := Further(c, start, steps, RenewStream(0, 1, at));
    assert Live(Play(c, Empty(start), steps), id);
  }

  /** No stream's lease runs past its length from now. */
  lemma {:induction false} StreamLeasesEnd(c: Config, start: real, steps: seq<Step>)
    ensures var w := Play(c, Empty(start), steps);
            forall id :: id in w.rows && id.Lease? && id.streams ==> w.rows[id].expires <= (w.now + c.stream).Floor
    decreases |steps|
  {
    if steps != [] {
      StreamLeasesEnd(c, start, steps[..|steps| - 1]);
      var v, w := Play(c, Empty(start), steps[..|steps| - 1]), Play(c, Empty(start), steps);
      assert v.now <= w.now && (v.now + c.stream).Floor <= (w.now + c.stream).Floor;
    }
  }

  /**
   In every run, hibernation asked for at some time by a sweep that read its lock's clock at first finds
   no stream live, exactly when that time is within the lock and lapsed leases are not renewed, or leases
   are so short that one taken then would not outlast the second.
   */
  lemma HibernatesAloneExactlyWhen(c: Config, first: real, at: real, revival: bool)
    requires first <= at && c.stream > 0.0
    ensures (forall start, steps, n :: !HibernatesBesideStream(c, start, steps, n, first, at, revival))
       <==> (at.Floor <= first.Floor + STREAM_LOCK && !revival) || (at + c.stream).Floor == at.Floor
  {
    if (at + c.stream).Floor == at.Floor {
      forall start, steps, n ensures !HibernatesBesideStream(c, start, steps, n, first, at, revival) {
        StreamLeasesEnd(c, start, steps);
      }
    } else if revival {
      var start, steps := RevivedBesideSweep(c, first, at);
    } else if at.Floor <= first.Floor + STREAM_LOCK {
      forall start, steps, n ensures !HibernatesBesideStream(c, start, steps, n, first, at, false) {
        var w := Play(c, Empty(start), steps);
        if Acts(w, n) && w.sweeps[n].streams && w.sweeps[n].first == first && w.now == at && w.revived == {} {
          PlayGuarded(c, Empty(start), steps);
          assert Guarded(w, n);
          ActsAlone(c, start, steps, n);
        }
      }
    } else {
      var steps := SweepClears(c, first, [], map[], true, first, first);
      steps := LeaseAfterLock(c, first, steps, Sweep(true, STREAM_LOCK, first, first, Clear, first.Floor, 0), at);
      assert HibernatesBesideStream(c, first, steps, 0, first, at, false);
    }
  }
}
