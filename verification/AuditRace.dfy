/** The audit racing uploads: the auditor's steps and everyone else's, in any order, under one clock. */
module AuditRace {
  import opened BlobAudit

  /**
   How long an upload's ticket lasts; how far before its write the store may date an object; how long after its
   test a commit may still happen; whether a reference that a test relies on is kept until then; and the
   auditor's minimum orphan age.
   */
  datatype Rules = Rules(lifetime: int, coarse: nat, delay: nat, held: bool, minAge: nat)

  datatype Phase = Waiting | Listing | Referring | Confirming

  /**
   tickets holds when each key's ticket was made, tests when a commit for it was last allowed; a key has
   one ticket. objects and references are the world's;
   due holds the references the walk must still return, those that were there when it began and are yet.
   */
  datatype World = World(now: int, tickets: map<string, int>, tests: map<string, int>, objects: map<string, int>, removed: set<string>,
                         references: set<string>, phase: Phase, cutoff: int, listing: map<string, Moment>,
                         due: set<string>, seen: set<string>, orphans: set<string>, absent: set<string>)

  const START := World(0, map[], map[], map[], {}, {}, Waiting, 0, map[], {}, {}, {}, {})

  datatype Step =
    | Wait(time: nat)
    | Mint(key: string)               // make the key's ticket
    | Upload(key: string)             // write the object, for the first time or again
    | Test(key: string)               // ask whether a row may refer to it
    | Commit(key: string)             // commit a row that refers to it
    | Forget(key: string)             // delete the last such row
    | Remove(key: string)             // delete the object
    | Begin                           // the auditor reads its cutoff
    | ListObject(key: string, stamp: Moment)
    | BeginReferences
    | ReadReference(key: string)
    | EndReferences                   // and judge what is left
    | Probe(key: string)              // open a listed-nowhere key again

  /**
   The key's ticket is good, or a draft or scheduled message refers to the upload already; if that one is
   kept until the commit, the commit adds no reference and no step is needed for it.
   */
  predicate Passes(r: Rules, w: World, key: string) {
    (key in w.tickets && w.now < w.tickets[key] + r.lifetime) || (!r.held && key in w.references)
  }

  /** The store may list the object with this date. */
  predicate Dates(r: Rules, w: World, key: string, stamp: Moment) {
    key in w.objects && (stamp.At? ==> stamp.time >= w.objects[key] - r.coarse)
  }

  function Next(r: Rules, w: World, step: Step): World {
    match step
    case Wait(time) => w.(now := w.now + time)
    case Mint(key) => if key in w.tickets then w else w.(tickets := w.tickets[key := w.now])
    case Upload(key) => if key in w.tickets then w.(objects := w.objects[key := w.now]) else w
    case Test(key) =>
      if (key in w.objects || key in w.removed) && Passes(r, w, key) then w.(tests := w.tests[key := w.now]) else w
    case Commit(key) =>
      if key in w.tests && w.now <= w.tests[key] + r.delay then w.(references := w.references + {key}) else w
    case Forget(key) => w.(references := w.references - {key}, due := w.due - {key})
    case Remove(key) => if key in w.objects then w.(objects := w.objects - {key}, removed := w.removed + {key}) else w
    case Begin => if w.phase == Waiting then w.(phase := Listing, cutoff := w.now) else w
    case ListObject(key, stamp) =>
      if w.phase == Listing && Dates(r, w, key, stamp) then w.(listing := w.listing[key := stamp]) else w
    case BeginReferences => if w.phase == Listing then w.(phase := Referring, due := w.references) else w
    case ReadReference(key) =>
      if w.phase == Referring && key in w.references then w.(seen := w.seen + {key}, due := w.due - {key}) else w
    case EndReferences =>
      if w.phase == Referring && w.due == {}
      then w.(phase := Confirming, orphans := Orphans(w.listing, w.seen, w.cutoff, r.minAge)) else w
    case Probe(key) =>
      if w.phase == Confirming && key in Unlisted(w.listing, w.seen) && key !in w.objects then w.(absent := w.absent + {key}) else w
  }

  function Play(r: Rules, w: World, steps: seq<Step>): World
    decreases |steps|
  {
    if steps == [] then w else Next(r, Play(r, w, steps[..|steps| - 1]), steps[|steps| - 1])
  }

  /** A key old enough to be judged an orphan. */
  ghost predicate Old(r: Rules, w: World, key: string) {
    key in w.listing && w.listing[key].At? && w.cutoff - w.listing[key].time >= r.minAge
  }

  /** The margin is large enough, or nothing can ever be committed. */
  predicate Safe(r: Rules) {
    r.lifetime <= 0 || (r.held && r.lifetime + r.coarse + r.delay <= r.minAge)
  }

  /**
   Every write is after the ticket was made and every test before it ran out, so no commit for a key listed
   as old can come after the cutoff.
   */
  ghost predicate KeyInv(r: Rules, w: World, key: string) {
    && (key in w.objects ==> key in w.tickets && w.tickets[key] <= w.objects[key])
    && (key in w.tickets ==> w.tickets[key] <= w.now)
    && (key in w.tests ==> 0 < r.lifetime)
    && (key in w.tests && r.held ==> key in w.tickets && w.tests[key] < w.tickets[key] + r.lifetime)
    && (key in w.listing && w.listing[key].At? ==> key in w.tickets && w.tickets[key] - r.coarse <= w.listing[key].time)
    && (key in w.tests ==> key in w.objects || key in w.removed)
    && (key in w.references || key in w.seen || key in w.due ==> key in w.objects || key in w.removed)
    && (key in w.references ==> 0 < r.lifetime)
    && (Safe(r) && w.phase == Referring && Old(r, w, key) && key in w.references ==> key in w.seen || key in w.due)
    && (key in w.orphans ==> Old(r, w, key) && (Safe(r) ==> key !in w.references))
    && (key in w.absent ==> key in w.removed)
  }

  ghost predicate Inv(r: Rules, w: World) {
    && (w.phase == Waiting ==> w.listing == map[]) && (w.phase != Confirming ==> w.orphans == {})
    && (w.phase != Waiting ==> w.cutoff <= w.now)
    && forall key {:trigger KeyInv(r, w, key)} :: KeyInv(r, w, key)
  }

  lemma KeyKeeps(r: Rules, w: World, step: Step, key: string)
    requires Inv(r, w)
    ensures KeyInv(r, Next(r, w, step), key)
  {
    assert KeyInv(r, w, key);
    hide Inv;
  }

  lemma StepKeeps(r: Rules, w: World, step: Step)
    requires Inv(r, w)
    ensures Inv(r, Next(r, w, step))
  {
    hide KeyInv;
    forall key ensures KeyInv(r, Next(r, w, step), key) { KeyKeeps(r, w, step, key); }
  }

  lemma {:induction false} PlayKeeps(r: Rules, w: World, steps: seq<Step>)
    requires Inv(r, w)
    ensures Inv(r, Play(r, w, steps))
    decreases |steps|
  {
    if steps != [] {
      PlayKeeps(r, w, steps[..|steps| - 1]);
      StepKeeps(r, Play(r, w, steps[..|steps| - 1]), steps[|steps| - 1]);
    }
  }

  /**
   However long the walks take, however often a key is written and whatever else runs beside them: with a large
   enough margin a key once judged an orphan is referred to by nothing, then or at any later time; and with any,
   a key confirmed missing had its object deleted.
   */
  lemma OrphansStayUnreferenced(r: Rules, steps: seq<Step>, key: string)
    ensures var w := Play(r, START, steps); (Safe(r) && key in w.orphans ==> key !in w.references) && (key in w.absent ==> key in w.removed)
  {
    forall k ensures KeyInv(r, START, k) {}
    PlayKeeps(r, START, steps);
    assert KeyInv(r, Play(r, START, steps), key);
  }

  /** An object written again is recent again: no pass that begins soon enough after can judge it. */
  lemma UploadedIsRecent(r: Rules, w: World, key: string, stamp: Moment, cutoff: int)
    requires key in w.tickets && cutoff < w.now + r.minAge - r.coarse
    ensures key in Next(r, w, Upload(key)).objects
    ensures Dates(r, Next(r, w, Upload(key)), key, stamp) ==> IsRecent(stamp, cutoff, r.minAge)
  {
  }

  // ----- exactly when -----

  ghost predicate Harmless(r: Rules, steps: seq<Step>, key: string) {
    var w := Play(r, START, steps);
    key in w.orphans ==> key !in w.references
  }

  ghost predicate NeverJudgesLive(r: Rules) {
    forall steps, key :: Harmless(r, steps, key)
  }

  lemma Further(r: Rules, steps: seq<Step>, step: Step) returns (longer: seq<Step>)
    ensures longer == steps + [step] && Play(r, START, longer) == Next(r, Play(r, START, steps), step)
  {
    longer := steps + [step];
    assert longer[..|steps|] == steps;
  }

  lemma Nothing(r: Rules)
    ensures Play(r, START, []) == START
  {
  }

  /** The world with one key, uploaded and dated as early as may be, its last test long or not long ago. */
  ghost function One(r: Rules, now: nat, tested: nat, referred: bool): World {
    World(now, map["k" := 0], map["k" := tested], map["k" := 0], {}, if referred then {"k"} else {}, Waiting, 0, map[], {}, {}, {}, {})
  }

  /** An upload whose ticket is tested at the last moment, and which is waited for before it is committed. */
  lemma TestedLate(r: Rules) returns (steps: seq<Step>)
    requires 0 < r.lifetime
    ensures Play(r, START, steps) == One(r, r.lifetime - 1 + r.delay, r.lifetime - 1, false)
  {
    hide Play;
    hide Orphans;
    hide Unlisted;
    hide Dates;
    Nothing(r);
    steps := Further(r, [], Mint("k"));
    steps := Further(r, steps, Upload("k"));
    assert Play(r, START, steps) == One(r, 0, 0, false).(tests := map[]);
    steps := Further(r, steps, Wait(r.lifetime - 1));
    steps := Further(r, steps, Test("k"));
    assert Play(r, START, steps) == One(r, r.lifetime - 1, r.lifetime - 1, false);
    steps := Further(r, steps, Wait(r.delay));
  }

  /** An old upload, tested while something refers to it that is then deleted. */
  lemma TestedByReference(r: Rules) returns (steps: seq<Step>)
    requires 0 < r.lifetime && !r.held
    ensures Play(r, START, steps) == One(r, r.minAge, r.minAge, false)
  {
    hide Play;
    hide Orphans;
    hide Unlisted;
    hide Dates;
    Nothing(r);
    steps := Further(r, [], Mint("k"));
    steps := Further(r, steps, Upload("k"));
    assert Play(r, START, steps) == One(r, 0, 0, false).(tests := map[]);
    steps := Further(r, steps, Test("k"));
    steps := Further(r, steps, Commit("k"));
    assert Play(r, START, steps) == One(r, 0, 0, true);
    steps := Further(r, steps, Wait(r.minAge));
    assert Play(r, START, steps) == One(r, r.minAge, 0, true);
    steps := Further(r, steps, Test("k"));
    steps := Further(r, steps, Forget("k"));
  }

  /** The audit then lists it as old as it may be dated. */
  lemma ListedOld(r: Rules, before: seq<Step>, now: nat, tested: nat) returns (steps: seq<Step>)
    requires Play(r, START, before) == One(r, now, tested, false)
    ensures Play(r, START, steps)
         == One(r, now, tested, false).(phase := Referring, cutoff := now, listing := map["k" := At(0 - r.coarse)])
  {
    hide Play;
    steps := Further(r, before, Begin);
    assert Play(r, START, steps) == One(r, now, tested, false).(phase := Listing, cutoff := now);
    steps := Further(r, steps, ListObject("k", At(0 - r.coarse)));
    steps := Further(r, steps, BeginReferences);
  }

  /** The key is judged an orphan, and then its reference is committed. */
  lemma CommitAfterJudging(r: Rules, before: seq<Step>, now: nat, tested: nat)
    requires Play(r, START, before) == One(r, now, tested, false) && now <= tested + r.delay && r.minAge <= now + r.coarse
    ensures !NeverJudgesLive(r)
  {
    hide Play;
    var listing := map["k" := At(0 - r.coarse)];
    var steps := ListedOld(r, before, now, tested);
    assert Orphans(listing, {}, now, r.minAge) == {"k"};
    steps := Further(r, steps, EndReferences);
    assert Play(r, START, steps)
        == One(r, now, tested, false).(phase := Confirming, cutoff := now, listing := listing, orphans := {"k"});
    steps := Further(r, steps, Commit("k"));
    assert !Harmless(r, steps, "k");
  }

  /**
   The audit judges nothing live an orphan in any run exactly when a ticket's life, the coarseness of dates and
   the delay of commits together fit in the minimum age and no reference that a test relies on goes before
   the commit. (Tickets that are never good allow nothing to go wrong.)
   */
  lemma HarmlessExactlyWhen(r: Rules)
    ensures NeverJudgesLive(r) <==> r.lifetime <= 0 || (r.held && r.lifetime + r.coarse + r.delay <= r.minAge)
  {
    if Safe(r) {
      forall steps, key ensures Harmless(r, steps, key) { OrphansStayUnreferenced(r, steps, key); }
    } else if r.held {
      var steps := TestedLate(r);
      CommitAfterJudging(r, steps, r.lifetime - 1 + r.delay, r.lifetime - 1);
    } else {
      var steps := TestedByReference(r);
      CommitAfterJudging(r, steps, r.minAge, r.minAge);
    }
  }
}
