/** The generic cell rate algorithm: one stored instant per key decides what a token bucket would. Times are in nanoseconds. */
module RateLimit {

  /** One call an interval in the long run, and burst calls on a key not used for long enough. */
  datatype RateAllowance = RateAllowance(interval: int, burst: int) {

    predicate Valid() {
      interval > 0 && burst >= 1
    }

    /** The lead over the clock up to which the stored instant lets a call through. */
    function Tolerance(): int {
      (burst - 1) * interval
    }

    /** Decide one call at now against the stored arrival time. */
    function Admit(arrival: int, now: int): Verdict {
      var start := if arrival < now then now else arrival;
      var wait := start - now - Tolerance();
      if wait > 0 then Verdict(arrival, wait, false) else Verdict(start + interval, 0, true)
    }
  }

  datatype Verdict = Verdict(arrival: int, wait: int, admitted: bool)

  // ----- the bucket -----

  /** A bucket as it was at some instant: level counts credit, one interval's worth to a token, refilled one a nanosecond. */
  datatype Bucket = Bucket(level: int, at: int)

  function Refilled(a: RateAllowance, b: Bucket, now: int): int {
    var level := b.level + (now - b.at);
    if level > a.burst * a.interval then a.burst * a.interval else level
  }

  /** A call takes a token if there is a whole one. */
  function Take(a: RateAllowance, b: Bucket, now: int): (Bucket, bool) {
    var level := Refilled(a, b, now);
    if level >= a.interval then (Bucket(level - a.interval, now), true) else (Bucket(level, now), false)
  }

  /** What the limiter decides for calls at these times, one after the other. */
  function Decisions(a: RateAllowance, arrival: int, times: seq<int>): seq<bool>
    decreases |times|
  {
    if times == [] then []
    else
      var v := a.Admit(arrival, times[0]);
      [v.admitted] + Decisions(a, v.arrival, times[1..])
  }

  function BucketDecisions(a: RateAllowance, b: Bucket, times: seq<int>): seq<bool>
    decreases |times|
  {
    if times == [] then []
    else
      var (next, admitted) := Take(a, b, times[0]);
      [admitted] + BucketDecisions(a, next, times[1..])
  }

  ghost predicate InOrder(times: seq<int>) {
    forall i, j :: 0 <= i < j < |times| ==> times[i] <= times[j]
  }

  /** The stored instant and the bucket say the same: how far ahead the instant is of now is what the bucket lacks. */
  ghost predicate Mirrors(a: RateAllowance, arrival: int, b: Bucket) {
    b.level == a.burst * a.interval - if arrival > b.at then arrival - b.at else 0
  }

  lemma OneCallMirrors(a: RateAllowance, arrival: int, b: Bucket, now: int)
    requires a.Valid() && Mirrors(a, arrival, b) && b.at <= now
    ensures var v, (next, admitted) := a.Admit(arrival, now), Take(a, b, now);
            v.admitted == admitted && Mirrors(a, v.arrival, next) && next.at == now
  {
    assert a.Tolerance() == a.burst * a.interval - a.interval;
  }

  lemma {:induction false} RunMirrors(a: RateAllowance, arrival: int, b: Bucket, times: seq<int>)
    requires a.Valid() && Mirrors(a, arrival, b) && InOrder(times) && (times != [] ==> b.at <= times[0])
    ensures Decisions(a, arrival, times) == BucketDecisions(a, b, times)
    decreases |times|
  {
    if times != [] {
      OneCallMirrors(a, arrival, b, times[0]);
      RunMirrors(a, a.Admit(arrival, times[0]).arrival, Take(a, b, times[0]).0, times[1..]);
    }
  }

  /** From a key never seen, the limiter admits exactly the calls a full bucket of burst tokens does. */
  lemma AdmitsAsBucket(a: RateAllowance, arrival: int, times: seq<int>)
    requires a.Valid() && InOrder(times) && (times != [] ==> arrival <= times[0])
    ensures times != [] ==> Decisions(a, arrival, times) == BucketDecisions(a, Bucket(a.burst * a.interval, times[0]), times)
  {
    if times != [] { RunMirrors(a, arrival, Bucket(a.burst * a.interval, times[0]), times); }
  }

  // ----- how many calls a window admits -----

  function Count(decisions: seq<bool>): nat {
    if decisions == [] then 0 else (if decisions[0] then 1 else 0) + Count(decisions[1..])
  }

  /** Every admitted call moves the instant an interval further, and it never runs more than the tolerance ahead. */
  lemma {:induction false} CountMovesArrival(a: RateAllowance, arrival: int, times: seq<int>, from: int, until: int)
    requires a.Valid() && InOrder(times) && forall t :: t in times ==> from <= t <= until
    ensures var n := Count(Decisions(a, arrival, times));
            n > 0 ==> (if arrival > from then arrival else from) + (n - 1) * a.interval <= until + a.Tolerance()
    decreases |times|
  {
    if times != [] {
      var v, ds := a.Admit(arrival, times[0]), Decisions(a, arrival, times);
      assert times[0] in times && forall t :: t in times[1..] ==> t in times;
      CountMovesArrival(a, v.arrival, times[1..], from, until);
      assert ds[1..] == Decisions(a, v.arrival, times[1..]);
      var m := Count(ds[1..]);
      Difference(m, 1, a.interval);
    }
  }

  /** Whatever came before, calls within a window of length span admit at most burst plus one for each interval in it. */
  lemma WindowBound(a: RateAllowance, arrival: int, times: seq<int>, from: int, span: nat)
    requires a.Valid() && InOrder(times) && forall t :: t in times ==> from <= t <= from + span
    ensures Count(Decisions(a, arrival, times)) <= a.burst + span / a.interval
  {
    CountMovesArrival(a, arrival, times, from, from + span);
    var n := Count(Decisions(a, arrival, times));
    if n > 0 {
      Difference(n - 1, a.burst - 1, a.interval);
      AtMostQuotient(n - a.burst, span, a.interval);
    }
  }

  lemma Difference(x: int, y: int, interval: int)
    ensures (x - y) * interval == x * interval - y * interval
  {}

  lemma QuotientBound(span: nat, interval: int)
    requires interval > 0
    ensures span < span / interval * interval + interval
  {
    assert span == span / interval * interval + span % interval;
  }

  lemma Times(k: int, n: int, interval: int)
    requires k >= n && interval > 0
    ensures k * interval >= (n - 1) * interval + interval
  {
    assert k * interval == n * interval + (k - n) * interval;
    assert n * interval == (n - 1) * interval + interval;
    assert (k - n) * interval >= 0;
  }

  lemma AtMostQuotient(k: int, span: nat, interval: int)
    requires interval > 0 && k * interval <= span
    ensures k <= span / interval
  {
    var q := span / interval;
    assert span < q * interval + interval by { QuotientBound(span, interval); }
    if k >= q + 1 {
      Times(k, q + 1, interval);
    }
  }

  /** The decisions of a whole run, cut anywhere, are those of the two halves. */
  lemma {:induction false} DecisionsSplit(a: RateAllowance, arrival: int, times: seq<int>, i: nat) returns (middle: int)
    requires i <= |times|
    ensures |Decisions(a, arrival, times)| == |times| && Decisions(a, arrival, times)[i..] == Decisions(a, middle, times[i..])
    decreases |times|
  {
    if i == 0 {
      middle := arrival;
      assert times[0..] == times;
      if times != [] { var _ := DecisionsSplit(a, a.Admit(arrival, times[0]).arrival, times[1..], 0); }
    } else {
      middle := DecisionsSplit(a, a.Admit(arrival, times[0]).arrival, times[1..], i - 1);
      assert times[1..][i - 1..] == times[i..];
      var v := a.Admit(arrival, times[0]);
      assert Decisions(a, arrival, times)[i..] == Decisions(a, v.arrival, times[1..])[i - 1..];
    }
  }

  lemma {:induction false} DecisionsPrefix(a: RateAllowance, arrival: int, times: seq<int>, n: nat)
    requires n <= |times|
    ensures |Decisions(a, arrival, times)| == |times| && Decisions(a, arrival, times)[..n] == Decisions(a, arrival, times[..n])
    decreases |times|
  {
    if times != [] {
      var v := a.Admit(arrival, times[0]);
      DecisionsPrefix(a, v.arrival, times[1..], if n == 0 then 0 else n - 1);
      if n > 0 { assert times[..n][1..] == times[1..][..n - 1]; }
    }
  }

  /** In any run, the calls i to j, all within span of the first of them, are admitted at most burst + span / interval times. */
  lemma AnyWindow(a: RateAllowance, arrival: int, times: seq<int>, i: nat, j: nat, span: nat)
    requires a.Valid() && InOrder(times) && i < j <= |times| && times[j - 1] - times[i] <= span
    ensures |Decisions(a, arrival, times)| == |times|
    ensures Count(Decisions(a, arrival, times)[i..j]) <= a.burst + span / a.interval
  {
    hide Decisions;
    hide Count;
    var middle := DecisionsSplit(a, arrival, times, i);
    DecisionsPrefix(a, middle, times[i..], j - i);
    var window := times[i..][..j - i];
    assert Decisions(a, arrival, times)[i..j] == Decisions(a, arrival, times)[i..][..j - i];
    forall t | t in window ensures times[i] <= t <= times[i] + span {
      var k :| 0 <= k < |window| && window[k] == t;
      assert t == times[i + k];
    }
    WindowBound(a, middle, window, times[i], span);
  }

  /** A refusal's wait is the least after which a lone retry is admitted. */
  lemma WaitIsLeast(a: RateAllowance, arrival: int, now: int, later: nat)
    requires a.Valid()
    ensures var v := a.Admit(arrival, now);
            && (v.admitted ==> v.wait == 0)
            && (!v.admitted ==> v.arrival == arrival && v.wait > 0 && (a.Admit(v.arrival, now + later).admitted <==> later >= v.wait))
  {
    assert a.Tolerance() >= 0;
  }
}
