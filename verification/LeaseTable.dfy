/** The shared table as the activators write it: each method one conditional write or one read of it. */
module LeaseTables {
  import opened ScaleDown

  class LeaseTable {
    /** The one clock. */
    var now: real
    var rows: map<Id, Row>
    /** The sweeps so far, and the streams whose leases were renewed after lapsing. */
    ghost var sweeps: map<nat, Sweep>
    ghost var revived: set<nat>

    ghost function Value(): World
      reads this
    {
      World(now, rows, sweeps, revived)
    }

    constructor (start: real)
      ensures Value() == Empty(start)
    {
      now, rows, sweeps, revived := start, map[], map[], {};
    }

    /** A request or a stream takes its lease, unless the scale-down lock is held; it read the clock twice. */
    method AcquireLease(c: Config, id: Id, owner: nat, reading: real, later: real) returns (ok: bool)
      requires id.Lease? && reading <= later <= now
      modifies this
      ensures Value() == Next(c, old(Value()), TakeLease(id, owner, reading, later))
      ensures ok <==> id !in old(rows) && (Lock in old(rows) ==> old(rows)[Lock].expires < reading.Floor)
      ensures ok ==> rows == old(rows)[id := Row(owner, if id.streams then (later + c.stream).Floor else reading.Floor + c.request)]
      ensures !ok ==> rows == old(rows)
    {
      if Lock in rows && rows[Lock].expires >= reading.Floor { return false; }
      if id in rows { return false; }
      rows := rows[id := Row(owner, LeaseExpires(c, id, reading, later))];
      ok := true;
    }

    /** A sweep takes the lock when there is none or the one there has expired. */
    method AcquireLock(c: Config, sweep: nat, first: real, lock: nat, reading: real) returns (ok: bool)
      requires sweep in sweeps && sweeps[sweep].phase == Started && reading <= now
      requires first == sweeps[sweep].first && lock == sweeps[sweep].lock
      modifies this
      ensures Value() == Next(c, old(Value()), TakeLock(sweep, reading))
      ensures ok <==> (Lock in old(rows) ==> old(rows)[Lock].expires < reading.Floor)
      ensures rows == if ok then old(rows)[Lock := Row(sweep, first.Floor + lock)] else old(rows)
    {
      ok := Lock !in rows || rows[Lock].expires < reading.Floor;
      if ok { rows := rows[Lock := Row(sweep, first.Floor + lock)]; }
      sweeps := sweeps[sweep := sweeps[sweep].(phase := if ok then Locked else Over)];
    }

    /** Whether the page from next on holds a lease unexpired in the second since. */
    method PageHasLease(streams: bool, next: nat, end: nat, last: bool, since: int) returns (found: bool)
      ensures found <==> exists id :: id in rows && id.Lease? && id.streams == streams && next <= id.position && (last || id.position < end)
                                      && rows[id].expires > since
    {
      var left := rows.Keys;
      while left != {}
        invariant left <= rows.Keys
        invariant forall id :: id in rows && id !in left && id.Lease? && id.streams == streams && next <= id.position &&
                               (last || id.position < end) ==>
                                 rows[id].expires <= since
        decreases |left|
      {
        var id :| id in left;
        left := left - {id};
        if id.Lease? && id.streams == streams && next <= id.position && (last || id.position < end) && rows[id].expires > since {
          return true;
        }
      }
      return false;
    }

    /** Read one page of the scan, giving up past the deadline or at the first lease found. */
    method ScanPage(c: Config, sweep: nat, s: Sweep, end: nat, last: bool) returns (goOn: bool)
      requires sweep in sweeps && s == sweeps[sweep] && s.phase == Scanning
      modifies this
      ensures Value() == Next(c, old(Value()), ReadPage(sweep, end, last))
      ensures goOn <==> (s.streams || now < s.second + s.lock as real)
                        && !exists id :: id in rows && id.Lease? && id.streams == s.streams && s.next <= id.position
                                         && (last || id.position < end) && rows[id].expires > s.since
      ensures rows == old(rows)
      ensures goOn && last ==> sweeps[sweep].phase == Clear
    {
      goOn := s.streams || now < s.second + s.lock as real;
      if goOn {
        var found := PageHasLease(s.streams, s.next, end, last, s.since);
        goOn := !found;
      }
      sweeps := sweeps[sweep := AfterPage(Value(), s, end, last)];
    }
  }
}
