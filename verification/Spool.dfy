/** The durable request queue: one table of leased rows. */
module Spool {
  import opened Whitespace

  /** A queued request. A row no claim holds has the empty owner; a quarantined one is never delivered. */
  datatype Row = Row(bytes: nat, owner: string, token: nat, expires: int, quarantined: bool)

  const UNLEASED := 0

  /** The rows by ID, and the next ID to allocate: IDs are never reused. */
  datatype Table = Table(rows: map<nat, Row>, next: nat)

  datatype Limits = Limits(maxBodyBytes: int, maxQueuedBytes: int, maxQueuedRequests: int)

  predicate Deliverable(r: Row, now: int) {
    !r.quarantined && r.expires <= now
  }

  /** The first limit deliverable IDs from one on. */
  function Lowest(t: Table, id: nat, limit: nat, now: int): seq<nat>
    decreases t.next - id
  {
    if limit == 0 || id >= t.next then []
    else if id in t.rows && Deliverable(t.rows[id], now) then [id] + Lowest(t, id + 1, limit - 1, now)
    else Lowest(t, id + 1, limit, now)
  }

  /** The body bytes queued under the IDs below n. */
  function Bytes(rows: map<nat, Row>, n: nat): nat {
    if n == 0 then 0 else Bytes(rows, n - 1) + if n - 1 in rows then rows[n - 1].bytes else 0
  }

  function Lease(rows: map<nat, Row>, ids: seq<nat>, owner: string, token: nat, expires: int): map<nat, Row> {
    map id | id in rows :: if id in ids then rows[id].(owner := owner, token := token, expires := expires) else rows[id]
  }

  function Quarantine(rows: map<nat, Row>, ids: set<nat>): map<nat, Row> {
    map id | id in rows ::
      if id in ids then rows[id].(owner := "", token := UNLEASED, expires := 0, quarantined := true) else rows[id]
  }

  /** The IDs whose rows carry a token, in ascending order. */
  function Tokened(t: Table, id: nat, token: nat): seq<nat>
    decreases t.next - id
  {
    if id >= t.next then []
    else (if id in t.rows && t.rows[id].token == token then [id] else []) + Tokened(t, id + 1, token)
  }

  function Without(ids: seq<nat>, bad: set<nat>): seq<nat> {
    if ids == [] then [] else (if ids[0] in bad then [] else [ids[0]]) + Without(ids[1..], bad)
  }

  function Unpoisoned(rows: map<nat, Row>): set<nat> {
    set id | id in rows && !rows[id].quarantined
  }

  function Poisoned(rows: map<nat, Row>): set<nat> {
    set id | id in rows && rows[id].quarantined
  }

  // ----- the operations as functions of the table -----

  /** What a call comes to: the table it leaves, what it returns, and whether it succeeded. */
  datatype Called<T> = Called(table: Table, value: T, ok: bool)

  function EnqueueRow(t: Table, limits: Limits, bytes: nat): Called<nat> {
    if bytes > limits.maxBodyBytes then Called(t, 0, false)
    else if |t.rows| >= limits.maxQueuedRequests || Bytes(t.rows, t.next) + bytes > limits.maxQueuedBytes then Called(t, 0, false)
    else Called(Table(t.rows[t.next := Row(bytes, "", UNLEASED, 0, false)], t.next + 1), t.next, true)
  }

  /** bad is what this claim finds it cannot decode; token is drawn afresh. */
  function ClaimRows(t: Table, owner: string, limit: int, lease: int, now: int, later: int, token: nat, bad: set<nat>): Called<seq<nat>> {
    if Blank(owner) || limit <= 0 || lease <= 0 then Called(t, [], false) else
      var leased := Lease(t.rows, Lowest(t, 0, limit, now), owner, token, later + lease);
      var mine := Tokened(t.(rows := leased), 0, token);
      var poisoned := set id | id in mine && id in bad;
      Called(t.(rows := Quarantine(leased, poisoned)), Without(mine, bad), true)
  }

  predicate Renewable(rows: map<nat, Row>, owner: string, ids: seq<nat>, now: int, id: nat) {
    id in rows && id in ids && rows[id].owner == owner && rows[id].expires > now
  }

  function RenewRows(t: Table, owner: string, ids: seq<nat>, lease: int, now: int): Called<()> {
    if Blank(owner) || ids == [] || lease <= 0 || 0 in ids then Called(t, (), false) else
      var matched := set id | id in t.rows && Renewable(t.rows, owner, ids, now, id);
      Called(t.(rows := map id | id in t.rows :: if id in matched then t.rows[id].(expires := now + lease) else t.rows[id]),
        (), |matched| == |ids|)
  }

  function DeleteRow(t: Table, owner: string, id: nat): Called<()> {
    if Blank(owner) || id !in t.rows || t.rows[id].owner != owner then Called(t, (), false)
    else Called(t.(rows := map k | k in t.rows && k != id :: t.rows[k]), (), true)
  }

  // ----- the table as it is kept -----

  lemma WithoutStep(ids: seq<nat>, bad: set<nat>, i: nat)
    requires i < |ids|
    ensures Without(ids[i..], bad) == if ids[i] in bad then Without(ids[i + 1..], bad) else [ids[i]] + Without(ids[i + 1..], bad)
  {
    assert ids[i..][0] == ids[i] && ids[i..][1..] == ids[i + 1..];
  }

  lemma WithoutEnds(ids: seq<nat>, bad: set<nat>)
    ensures Without(ids[|ids|..], bad) == [] && ids[0..] == ids
  {
  }

  /** Decode the rows that can be, and report the rest. */
  method Decode(ids: seq<nat>, bad: set<nat>) returns (decoded: seq<nat>, poisoned: set<nat>)
    ensures decoded == Without(ids, bad) && poisoned == set id | id in ids && id in bad
  {
    hide Without;
    WithoutEnds(ids, bad);
    decoded, poisoned := [], {};
    for i := 0 to |ids|
      invariant decoded + Without(ids[i..], bad) == Without(ids, bad)
      invariant poisoned == set id | id in ids[..i] && id in bad
    {
      WithoutStep(ids, bad, i);
      assert ids[..i + 1] == ids[..i] + [ids[i]];
      if ids[i] in bad {
        poisoned := poisoned + {ids[i]};
      } else {
        decoded := decoded + [ids[i]];
      }
    }
    assert ids[..|ids|] == ids;
  }

  class RequestSpool {
    const limits: Limits
    var rows: map<nat, Row>
    var next: nat

    function State(): Table
      reads this
    {
      Table(rows, next)
    }

    constructor (limits: Limits)
      ensures State() == Table(map[], 1) && this.limits == limits
    {
      this.limits, rows, next := limits, map[], 1;
    }

    method Enqueue(bytes: nat) returns (id: nat, ok: bool)
      modifies this
      ensures Called(State(), id, ok) == EnqueueRow(old(State()), limits, bytes)
    {
      id, ok := 0, false;
      if bytes > limits.maxBodyBytes { return; }
      var queued := Bytes(rows, next);
      if |rows| >= limits.maxQueuedRequests || queued + bytes > limits.maxQueuedBytes { return; }
      id, ok := next, true;
      rows := rows[id := Row(bytes, "", UNLEASED, 0, false)];
      next := next + 1;
    }

    /** Lease the oldest deliverable rows to an owner, setting aside the ones that cannot be decoded. */
    method Claim(owner: string, limit: int, lease: int, now: int, later: int, token: nat, bad: set<nat>)
      returns (claimed: seq<nat>, ok: bool)
      modifies this
      ensures Called(State(), claimed, ok) == ClaimRows(old(State()), owner, limit, lease, now, later, token, bad)
    {
      if Blank(owner) || limit <= 0 || lease <= 0 { return [], false; }
      rows := Lease(rows, Lowest(State(), 0, limit, now), owner, token, later + lease);
      var mine := Tokened(State(), 0, token);
      var poisoned;
      claimed, poisoned := Decode(mine, bad);
      rows := Quarantine(rows, poisoned);
      ok := true;
    }

    method Renew(owner: string, ids: seq<nat>, lease: int, now: int) returns (ok: bool)
      modifies this`rows
      ensures Called(State(), (), ok) == RenewRows(old(State()), owner, ids, lease, now)
    {
      if Blank(owner) || ids == [] || lease <= 0 { return false; }
      for i := 0 to |ids|
        invariant 0 !in ids[..i]
      {
        if ids[i] == 0 { return false; }
      }
      var matched := set id | id in rows && Renewable(rows, owner, ids, now, id);
      rows := map id | id in rows :: if id in matched then rows[id].(expires := now + lease) else rows[id];
      ok := |matched| == |ids|;
    }

    method Delete(owner: string, id: nat) returns (ok: bool)
      modifies this`rows
      ensures Called(State(), (), ok) == DeleteRow(old(State()), owner, id)
    {
      if Blank(owner) || id !in rows || rows[id].owner != owner { return false; }
      rows := map k | k in rows && k != id :: rows[k];
      ok := true;
    }

    /** How many requests may yet be delivered; quarantined ones never are. */
    method Pending() returns (count: nat)
      ensures count == |Unpoisoned(rows)|
    {
      count := 0;
      var left := rows.Keys;
      ghost var seen: set<nat> := {};
      while left != {}
        invariant left <= rows.Keys && seen == Unpoisoned(rows) - left && count == |seen|
        decreases |left|
      {
        var id :| id in left;
        left := left - {id};
        if !rows[id].quarantined {
          assert Unpoisoned(rows) - left == seen + {id};
          seen := seen + {id};
          count := count + 1;
        } else {
          assert Unpoisoned(rows) - left == seen;
        }
      }
      assert seen == Unpoisoned(rows);
    }
  }
}
