/** Renegotiation: offers never pile up, and once everything settles each peer has been offered what it should receive. */
module HuddleSafety {
  import opened HuddleRoom

  lemma {:induction false} FlightsJoin(a: seq<Task>, b: seq<Task>, h: nat)
    ensures Flights(a + b, h) == Flights(a, h) + Flights(b, h)
  {
    if b == [] {
      assert a + b == a;
    } else {
      assert (a + b)[..|a + b| - 1] == a + b[..|b| - 1];
      FlightsJoin(a, b[..|b| - 1], h);
    }
  }

  lemma FlightsOne(t: Task, h: nat)
    ensures Flights([t], h) == if InFlight(t, h) then 1 else 0
  {
    assert [t][..0] == [];
  }

  lemma FlightsDrop(tasks: seq<Task>, i: nat, h: nat)
    requires i < |tasks|
    ensures Flights(Drop(tasks, i), h) == Flights(tasks, h) - if InFlight(tasks[i], h) then 1 else 0
  {
    FlightsJoin(tasks[..i], tasks[i + 1..], h);
    FlightsJoin(tasks[..i], [tasks[i]], h);
    FlightsJoin(tasks[..i] + [tasks[i]], tasks[i + 1..], h);
    FlightsOne(tasks[i], h);
    assert tasks == tasks[..i] + [tasks[i]] + tasks[i + 1..];
  }

  lemma {:induction false} NoFlights(tasks: seq<Task>, h: nat)
    requires forall t :: t in tasks ==> !InFlight(t, h)
    ensures Flights(tasks, h) == 0
  {
    if tasks != [] { NoFlights(tasks[..|tasks| - 1], h); }
  }

  lemma {:induction false} SomeFlight(tasks: seq<Task>, t: Task, h: nat)
    requires t in tasks && InFlight(t, h)
    ensures Flights(tasks, h) >= 1
  {
    var i :| 0 <= i < |tasks| && tasks[i] == t;
    FlightsDrop(tasks, i, h);
  }

  // ----- offers never pile up -----

  /** Every offer beyond the answers received, sent or on its way, is the one the flag stands for. */
  ghost predicate Paced(s: State, h: nat)
    requires h in s.peers
  {
    var p := s.peers[h];
    p.offers + Flights(s.tasks, h) <= p.answers + if p.negotiating then 1 else 0
  }

  ghost predicate AllPaced(s: State) {
    forall h: nat {:trigger PacedAt(s, h)} :: PacedAt(s, h)
  }

  lemma ItemsNotInFlight(s: State, order: seq<nat>, stuck: set<(nat, string)>, h: nat)
    requires forall o :: o in order ==> o in s.peers
    ensures Flights(Items(s, order, stuck), h) == 0
  {
    NoFlights(Items(s, order, stuck), h);
  }

  lemma FlightsReplace(tasks: seq<Task>, i: nat, next: seq<Task>, h: nat)
    requires i < |tasks|
    ensures Flights(Drop(tasks, i) + next, h)
         == Flights(tasks, h) - (if InFlight(tasks[i], h) then 1 else 0) + Flights(next, h)
  {
    FlightsDrop(tasks, i, h);
    FlightsJoin(Drop(tasks, i), next, h);
  }

  lemma AddedSynchronize(tasks: seq<Task>, h: nat)
    ensures Flights(tasks + [Synchronize], h) == Flights(tasks, h)
  {
    FlightsJoin(tasks, [Synchronize], h);
    FlightsOne(Synchronize, h);
  }

  ghost predicate PacedAt(s: State, h: nat) {
    if h in s.peers then Paced(s, h) else Flights(s.tasks, h) == 0
  }

  lemma SynchronizePaced(s: State, i: nat, order: seq<nat>, stuck: set<(nat, string)>, h: nat)
    requires i < |s.tasks| && s.tasks[i].Synchronize? && PacedAt(s, h)
    ensures PacedAt(RunSynchronize(s, Drop(s.tasks, i), order, stuck), h)
  {
    hide Reconciled;
    hide Flights;
    FlightsDrop(s.tasks, i, h);
    if (forall o :: o in order ==> o in s.peers) {
      FlightsReplace(s.tasks, i, Items(s, order, stuck), h);
      ItemsNotInFlight(s, order, stuck, h);
    }
  }

  lemma MarkPaced(s: State, i: nat, h: nat)
    requires i < |s.tasks| && s.tasks[i].Mark? && PacedAt(s, h)
    ensures PacedAt(RunMark(s, Drop(s.tasks, i), s.tasks[i].peer), h)
  {
    hide Flights;
    FlightsDrop(s.tasks, i, h);
    FlightsReplace(s.tasks, i, [Offer(s.tasks[i].peer)], h);
    FlightsOne(Offer(s.tasks[i].peer), h);
  }

  lemma OfferPaced(s: State, i: nat, h: nat)
    requires i < |s.tasks| && s.tasks[i].Offer? && PacedAt(s, h)
    ensures PacedAt(RunOffer(s, Drop(s.tasks, i), s.tasks[i].peer), h)
  {
    hide Flights;
    FlightsDrop(s.tasks, i, h);
    FlightsReplace(s.tasks, i, [Build(s.tasks[i].peer)], h);
    FlightsOne(Build(s.tasks[i].peer), h);
  }

  lemma BuildPaced(s: State, i: nat, fails: bool, h: nat)
    requires i < |s.tasks| && s.tasks[i].Build? && PacedAt(s, h)
    ensures PacedAt(RunBuild(s, Drop(s.tasks, i), s.tasks[i].peer, fails), h)
  {
    hide Flights;
    var k := s.tasks[i].peer;
    FlightsDrop(s.tasks, i, h);
    if k in s.peers {
      FlightsReplace(s.tasks, i, [Send(k, s.peers[k].senders)], h);
      FlightsOne(Send(k, s.peers[k].senders), h);
    }
  }

  lemma SendPaced(s: State, i: nat, h: nat)
    requires i < |s.tasks| && s.tasks[i].Send? && PacedAt(s, h)
    ensures PacedAt(RunSend(s, Drop(s.tasks, i), s.tasks[i].peer, s.tasks[i].tracks), h)
  {
    hide Flights;
    FlightsDrop(s.tasks, i, h);
  }

  lemma RunPacedAt(s: State, i: nat, order: seq<nat>, stuck: set<(nat, string)>, fails: bool, h: nat)
    requires i < |s.tasks| && PacedAt(s, h)
    ensures PacedAt(RunTask(s, i, order, stuck, fails), h)
  {
    hide PacedAt;
    match s.tasks[i]
    case Synchronize => SynchronizePaced(s, i, order, stuck, h);
    case Mark(_) => MarkPaced(s, i, h);
    case Offer(_) => OfferPaced(s, i, h);
    case Build(_) => BuildPaced(s, i, fails, h);
    case Send(_, _) => SendPaced(s, i, h);
  }

  lemma StepPacedAt(s: State, step: Step, h: nat)
    requires PacedAt(s, h)
    ensures PacedAt(Next(s, step), h)
  {
    hide Flights;
    hide RunTask;
    hide Desired;
    AddedSynchronize(s.tasks, h);
    if step.Run? && step.task < |s.tasks| { RunPacedAt(s, step.task, step.order, step.stuck, step.fails, h); }
  }

  lemma StepPaced(s: State, step: Step)
    requires AllPaced(s)
    ensures AllPaced(Next(s, step))
  {
    forall h: nat ensures PacedAt(Next(s, step), h) {
      assert PacedAt(s, h);
      StepPacedAt(s, step, h);
    }
  }

  lemma {:induction false} PlayPaced(s: State, steps: seq<Step>)
    requires AllPaced(s)
    ensures AllPaced(Play(s, steps))
    decreases |steps|
  {
    if steps != [] {
      PlayPaced(s, steps[..|steps| - 1]);
      StepPaced(Play(s, steps[..|steps| - 1]), steps[|steps| - 1]);
    }
  }

  /** Over every interleaving, the offers sent to a peer exceed the answers received from it by one at most. */
  lemma OffersNeverPileUp(steps: seq<Step>, h: nat)
    requires h in Play(EMPTY, steps).peers
    ensures var p := Play(EMPTY, steps).peers[h]; p.offers <= p.answers + 1
  {
    PlayPaced(EMPTY, steps);
    assert PacedAt(Play(EMPTY, steps), h);
  }

  // ----- what is offered in the end -----

  /** What the goroutines are about to do to one peer. */
  datatype View = View(mark: bool, offer: bool, synchronize: bool, flights: nat, sends: set<set<string>>)

  ghost function ViewOf(tasks: seq<Task>, h: nat): View {
    View(Mark(h) in tasks, Offer(h) in tasks, Synchronize in tasks, Flights(tasks, h),
      set t | t in tasks && t.Send? && t.peer == h :: t.tracks)
  }

  /**
   One peer between steps: at most one offer is on its way, and then the flag is up; the last offer,
   sent or on its way, describes the senders unless a change waits for the next; a change that could be
   offered is about to be; and a ready participant's senders match what it should receive unless they
   are about to be reconciled.
   */
  ghost predicate Tracking(p: Peer, v: View, named: bool, desired: set<string>) {
    var unoffered := p.dirty || v.mark;
    && v.flights <= 1 && (v.flights == 1 ==> p.negotiating)
    && (v.flights == 0 ==> v.sends == {} && (p.described == p.senders || unoffered))
    && (forall tracks :: tracks in v.sends ==> tracks == p.senders || unoffered)
    && (named && p.dirty && p.ready && !p.negotiating ==> v.offer || v.mark || v.synchronize)
    && (named && p.ready ==> p.senders == desired || v.synchronize)
  }

  ghost predicate TrackingAt(s: State, h: nat)
    requires h in s.peers
  {
    Tracking(s.peers[h], ViewOf(s.tasks, h), h in s.names.Values, Desired(s.forwards, s.peers[h].name))
  }

  /** No media call failed on the connection, and no answer overtook an offer to it. */
  ghost predicate Healthy(s: State, h: nat) {
    h !in s.failed && h !in s.overtaken
  }

  /** Names and tasks refer to connections that were made. */
  ghost predicate Known(s: State) {
    && (forall h :: h in s.names.Values ==> h in s.peers)
    && (s.closed ==> s.names == map[])
    && (forall t :: t in s.tasks && !t.Synchronize? ==> t.peer in s.peers)
  }

  ghost predicate Settles(s: State) {
    Known(s) && forall h :: h in s.peers && Healthy(s, h) ==> TrackingAt(s, h)
  }

  lemma DropMembers(tasks: seq<Task>, i: nat, next: seq<Task>, t: Task)
    requires i < |tasks|
    ensures t in Drop(tasks, i) + next ==> t in tasks || t in next
    ensures t in next || (t in tasks && t != tasks[i]) ==> t in Drop(tasks, i) + next
  {
    var d := Drop(tasks, i);
    if t in tasks && t != tasks[i] {
      var j :| 0 <= j < |tasks| && tasks[j] == t;
      assert d[if j < i then j else j - 1] == t;
    }
  }

  /** Replacing a task shows in a peer's view as one task less and the others more. */
  lemma ViewAfter(tasks: seq<Task>, i: nat, next: seq<Task>, h: nat)
    requires i < |tasks|
    ensures var v, r, n, t := ViewOf(tasks, h), ViewOf(Drop(tasks, i) + next, h), ViewOf(next, h), tasks[i];
            && (r.mark ==> v.mark || n.mark) && (n.mark || (v.mark && t != Mark(h)) ==> r.mark)
            && (n.offer || (v.offer && t != Offer(h)) ==> r.offer)
            && (n.synchronize || (v.synchronize && t != Synchronize) ==> r.synchronize)
            && (r.synchronize ==> v.synchronize || n.synchronize)
            && r.flights == v.flights - (if InFlight(t, h) then 1 else 0) + n.flights
            && r.sends <= v.sends + n.sends
  {
    FlightsReplace(tasks, i, next, h);
    hide Flights;
    hide Drop;
    DropMembers(tasks, i, next, Mark(h));
    DropMembers(tasks, i, next, Offer(h));
    DropMembers(tasks, i, next, Synchronize);
    forall t | t in Drop(tasks, i) + next ensures t in tasks || t in next { DropMembers(tasks, i, next, t); }
  }

  lemma ViewOne(t: Task, h: nat)
    ensures ViewOf([t], h) == View(t == Mark(h), t == Offer(h), t == Synchronize, if InFlight(t, h) then 1 else 0,
                                   if t.Send? && t.peer == h then {t.tracks} else {})
  {
    FlightsOne(t, h);
  }

  lemma SendsInFlight(tasks: seq<Task>, h: nat)
    requires Flights(tasks, h) == 0
    ensures ViewOf(tasks, h).sends == {} && Build(h) !in tasks
  {
    forall t | t in tasks && InFlight(t, h) ensures false { SomeFlight(tasks, t, h); }
  }

  /** Replacing a task by at most one other, seen from any peer. */
  lemma TrackingAfter(s: State, n: State, i: nat, next: seq<Task>, h: nat)
    requires i < |s.tasks| && h in s.peers && TrackingAt(s, h) && |next| <= 1
    requires n.tasks == Drop(s.tasks, i) + next && n.names == s.names && n.forwards == s.forwards
    requires h in n.peers && n.peers[h].name == s.peers[h].name
    requires s.tasks[i] != Synchronize
    requires var p, q, t := s.peers[h], n.peers[h], s.tasks[i];
             match t
             case Mark(k) => next == [Offer(k)] && q == if k == h then p.(dirty := true) else p
             case Offer(k) =>
               if k == h && p.ready && !p.negotiating && p.dirty then next == [Build(k)] && q == p.(dirty := false, negotiating := true)
               else q == p && (next == [] || (k != h && next == [Build(k)]))
             case Build(k) => q == p && ((k != h && next == []) || exists tracks :: next == [Send(k, tracks)] && (k == h ==> tracks == p.senders))
             case Send(k, tracks) => next == [] && q == if k == h then p.(described := tracks, offers := p.offers + 1) else p
             case Synchronize => true
    ensures TrackingAt(n, h)
  {
    var t := s.tasks[i];
    ViewAfter(s.tasks, i, next, h);
    if next != [] { ViewOne(next[0], h); assert next == [next[0]]; }
    if Flights(n.tasks, h) == 0 { SendsInFlight(n.tasks, h); }
    if InFlight(t, h) { SomeFlight(s.tasks, t, h); }
    assert t.Send? && t.peer == h ==> t.tracks in ViewOf(s.tasks, h).sends;
    hide ViewOf;
    hide Desired;
  }

  lemma ViewOfItems(s: State, order: seq<nat>, stuck: set<(nat, string)>, h: nat)
    requires forall o :: o in order ==> o in s.peers
    ensures var v := ViewOf(Items(s, order, stuck), h);
            && !v.synchronize && v.flights == 0 && v.sends == {}
            && (h !in order ==> !v.mark && !v.offer)
            && (h in order ==>
                  if Reconciled(s.peers[h], h, s.forwards, stuck) != s.peers[h].senders then v.mark else v.offer)
  {
    hide Reconciled;
    ItemsNotInFlight(s, order, stuck, h);
    hide Flights;
    if h in order {
      var j :| 0 <= j < |order| && order[j] == h;
      assert Items(s, order, stuck)[j] in Items(s, order, stuck);
    }
  }

  /** Reconciling, with no call on its connection failing, leaves a participant with what it should receive. */
  lemma SynchronizeTracks(s: State, i: nat, order: seq<nat>, stuck: set<(nat, string)>, h: nat)
    requires i < |s.tasks| && s.tasks[i] == Synchronize && h in s.peers && TrackingAt(s, h) && !s.closed
    requires Visits(s, order) && h !in FailedCalls(s, stuck)
    ensures TrackingAt(RunSynchronize(s, Drop(s.tasks, i), order, stuck), h)
  {
    ViewAfter(s.tasks, i, Items(s, order, stuck), h);
    ViewOfItems(s, order, stuck, h);
    hide ViewOf;
    hide Desired;
    hide Reconciled;
  }

  /** In a closed room nobody is left to reconcile. */
  lemma ClosedTracks(s: State, i: nat, h: nat)
    requires i < |s.tasks| && s.tasks[i] == Synchronize && h in s.peers && TrackingAt(s, h) && s.closed && s.names == map[]
    ensures TrackingAt(s.(tasks := Drop(s.tasks, i)), h)
  {
    ViewAfter(s.tasks, i, [], h);
    assert Drop(s.tasks, i) + [] == Drop(s.tasks, i);
    assert ViewOf([], h) == View(false, false, false, 0, {});
    hide ViewOf;
    hide Desired;
  }

  lemma KnownAfter(s: State, n: State, i: nat, next: seq<Task>)
    requires i < |s.tasks| && Known(s) && n.names == s.names && n.closed == s.closed && s.peers.Keys == n.peers.Keys
    requires n.tasks == Drop(s.tasks, i) + next && forall t :: t in next ==> t.Synchronize? || t.peer in s.peers
    ensures Known(n)
  {
    forall t | t in n.tasks && !t.Synchronize? ensures t.peer in n.peers { DropMembers(s.tasks, i, next, t); }
  }

  ghost function Follow(s: State, i: nat, order: seq<nat>, stuck: set<(nat, string)>, fails: bool): seq<Task>
    requires i < |s.tasks|
  {
    match s.tasks[i]
    case Synchronize => if !s.closed && Visits(s, order) then Items(s, order, stuck) else []
    case Mark(h) => if h in s.peers then [Offer(h)] else []
    case Offer(h) =>
      if h in s.peers && s.peers[h].ready && !s.peers[h].negotiating && s.peers[h].dirty then [Build(h)] else []
    case Build(h) => if h in s.peers && !fails then [Send(h, s.peers[h].senders)] else []
    case Send(_, _) => []
  }

  /** What no goroutine's action touches. */
  ghost predicate Keeps(s: State, n: State) {
    && n.names == s.names && n.forwards == s.forwards && n.peers.Keys == s.peers.Keys && n.closed == s.closed
    && s.failed <= n.failed && s.overtaken == n.overtaken
    && forall h :: h in s.peers ==> n.peers[h].name == s.peers[h].name
  }

  lemma SynchronizeFollows(s: State, rest: seq<Task>, order: seq<nat>, stuck: set<(nat, string)>)
    ensures var n := RunSynchronize(s, rest, order, stuck);
            && Keeps(s, n)
            && (n == s || (s.closed && n.tasks == rest) || (!s.closed && Visits(s, order) && n.tasks == rest + Items(s, order, stuck)))
  {
    hide Reconciled;
    hide FailedCalls;
    hide Items;
    hide Visits;
    if !s.closed && Visits(s, order) {
      assert RunSynchronize(s, rest, order, stuck).peers == ReconcileAll(s, stuck);
    }
  }

  lemma PutKeeps(s: State, h: nat, p: Peer, tasks: seq<Task>)
    requires h in s.peers && p.name == s.peers[h].name
    ensures Keeps(s, Put(s, h, p, tasks)) && Keeps(s, Put(s, h, p, tasks).(failed := s.failed + {h}))
  {}

  lemma TasksKeep(s: State, tasks: seq<Task>)
    ensures Keeps(s, s.(tasks := tasks))
  {}

  lemma MarkKeeps(s: State, rest: seq<Task>, h: nat)
    ensures Keeps(s, RunMark(s, rest, h))
  {
    hide Keeps;
    hide Put;
    TasksKeep(s, rest);
    if h in s.peers { PutKeeps(s, h, s.peers[h].(dirty := true), rest + [Offer(h)]); }
  }

  lemma OfferKeeps(s: State, rest: seq<Task>, h: nat)
    ensures Keeps(s, RunOffer(s, rest, h))
  {
    hide Keeps;
    hide Put;
    TasksKeep(s, rest);
    if h in s.peers { PutKeeps(s, h, s.peers[h].(dirty := false, negotiating := true), rest + [Build(h)]); }
  }

  lemma BuildKeeps(s: State, rest: seq<Task>, h: nat, fails: bool)
    ensures Keeps(s, RunBuild(s, rest, h, fails))
  {
    hide Keeps;
    hide Put;
    TasksKeep(s, rest);
    if h in s.peers {
      PutKeeps(s, h, s.peers[h].(negotiating := false, dirty := true), rest);
      TasksKeep(s, rest + [Send(h, s.peers[h].senders)]);
    }
  }

  lemma SendKeeps(s: State, rest: seq<Task>, h: nat, tracks: set<string>)
    ensures Keeps(s, RunSend(s, rest, h, tracks))
  {
    hide Keeps;
    hide Put;
    TasksKeep(s, rest);
    if h in s.peers { PutKeeps(s, h, s.peers[h].(described := tracks, offers := s.peers[h].offers + 1), rest); }
  }

  lemma RunKeeps(s: State, i: nat, order: seq<nat>, stuck: set<(nat, string)>, fails: bool)
    requires i < |s.tasks|
    ensures Keeps(s, RunTask(s, i, order, stuck, fails))
  {
    hide Keeps;
    hide RunSynchronize;
    hide RunMark;
    hide RunOffer;
    hide RunBuild;
    hide RunSend;
    hide Drop;
    hide Items;
    hide Visits;
    var rest := Drop(s.tasks, i);
    match s.tasks[i]
    case Synchronize => SynchronizeFollows(s, rest, order, stuck);
    case Mark(h) => MarkKeeps(s, rest, h);
    case Offer(h) => OfferKeeps(s, rest, h);
    case Build(h) => BuildKeeps(s, rest, h, fails);
    case Send(h, tracks) => SendKeeps(s, rest, h, tracks);
  }

  /** A task is replaced by what follows it, or nothing happens at all. */
  lemma RunFollows(s: State, i: nat, order: seq<nat>, stuck: set<(nat, string)>, fails: bool)
    requires i < |s.tasks|
    ensures var n := RunTask(s, i, order, stuck, fails);
            n == s || n.tasks == Drop(s.tasks, i) + Follow(s, i, order, stuck, fails)
  {
    hide Drop;
    hide Items;
    hide Visits;
    hide FailedCalls;
    hide ReconcileAll;
    var rest := Drop(s.tasks, i);
    assert rest + [] == rest;
  }

  lemma FollowKnown(s: State, i: nat, order: seq<nat>, stuck: set<(nat, string)>, fails: bool, t: Task)
    requires i < |s.tasks| && t in Follow(s, i, order, stuck, fails)
    ensures t.Synchronize? || t.peer in s.peers
  {
    hide Reconciled;
  }

  lemma RunSettles(s: State, i: nat, order: seq<nat>, stuck: set<(nat, string)>, fails: bool)
    requires i < |s.tasks| && Settles(s)
    ensures Settles(RunTask(s, i, order, stuck, fails))
  {
    hide TrackingAt;
    hide Reconciled;
    hide Drop;
    hide FailedCalls;
    var n := RunTask(s, i, order, stuck, fails);
    RunFollows(s, i, order, stuck, fails);
    RunKeeps(s, i, order, stuck, fails);
    if n != s {
      forall t | t in Follow(s, i, order, stuck, fails) ensures t.Synchronize? || t.peer in s.peers {
        FollowKnown(s, i, order, stuck, fails, t);
      }
      KnownAfter(s, n, i, Follow(s, i, order, stuck, fails));
      assert s.tasks[i] in s.tasks;
      forall h | h in n.peers && Healthy(n, h) ensures TrackingAt(n, h) {
        if s.tasks[i] != Synchronize {
          TrackingAfter(s, n, i, Follow(s, i, order, stuck, fails), h);
        } else if s.closed {
          ClosedTracks(s, i, h);
        } else {
          SynchronizeTracks(s, i, order, stuck, h);
        }
      }
    }
  }

  /** One more Synchronize to come covers any change to the forwards. */
  lemma SynchronizeAdded(s: State, n: State, h: nat)
    requires h in s.peers && TrackingAt(s, h) && h in n.peers && n.tasks == s.tasks + [Synchronize]
    requires h in n.names.Values ==> h in s.names.Values
    requires var p, q := s.peers[h], n.peers[h];
             q == p || q == p.(ready := true) ||
             (q == p.(negotiating := false, answers := p.answers + 1) && Flights(s.tasks, h) == 0)
    ensures TrackingAt(n, h)
  {
    AddedSynchronize(s.tasks, h);
    assert ViewOf(n.tasks, h) == ViewOf(s.tasks, h).(synchronize := true);
    hide ViewOf;
    hide Desired;
  }

  lemma StepKnown(s: State, step: Step)
    requires Known(s)
    ensures Known(Next(s, step))
  {
    hide RunTask;
    if step.Run? && step.task < |s.tasks| {
      RunFollows(s, step.task, step.order, step.stuck, step.fails);
      RunKeeps(s, step.task, step.order, step.stuck, step.fails);
      var n := Next(s, step);
      forall t | t in Follow(s, step.task, step.order, step.stuck, step.fails) ensures t.Synchronize? || t.peer in s.peers {
        FollowKnown(s, step.task, step.order, step.stuck, step.fails, t);
      }
      if n != s { KnownAfter(s, n, step.task, Follow(s, step.task, step.order, step.stuck, step.fails)); }
    } else if step.Leave? && step.name in s.names {
      forall h | h in Next(s, step).names.Values ensures h in s.names.Values {}
    }
  }

  lemma NewPeerTracks(s: State, name: string, h: nat)
    requires Known(s) && h !in s.peers && !s.closed
    ensures TrackingAt(Next(s, Join(name, h)), h)
  {
    NoFlights(s.tasks, h);
  }

  lemma CloseTracks(s: State, h: nat)
    requires h in s.peers && TrackingAt(s, h)
    ensures TrackingAt(Next(s, Close), h)
  {
    hide ViewOf;
    hide Desired;
  }

  lemma JoinTracks(s: State, name: string, h: nat, k: nat)
    requires k in s.peers && h !in s.peers && TrackingAt(s, k)
    ensures TrackingAt(Next(s, Join(name, h)), k)
  {
    hide ViewOf;
    hide Desired;
  }

  lemma StepSettles(s: State, step: Step)
    requires Settles(s)
    ensures Settles(Next(s, step))
  {
    hide TrackingAt;
    hide RunTask;
    hide Desired;
    StepKnown(s, step);
    var n := Next(s, step);
    if step.Run? && step.task < |s.tasks| {
      RunSettles(s, step.task, step.order, step.stuck, step.fails);
    } else if n != s {
      forall h | h in n.peers && Healthy(n, h) ensures TrackingAt(n, h) {
        if step.Close? {
          CloseTracks(s, h);
        } else if step.Join? {
          if h == step.handle { NewPeerTracks(s, step.name, h); } else { JoinTracks(s, step.name, step.handle, h); }
        } else {
          SynchronizeAdded(s, n, h);
        }
      }
    }
  }

  lemma {:induction false} PlaySettles(s: State, steps: seq<Step>)
    requires Settles(s)
    ensures Settles(Play(s, steps))
    decreases |steps|
  {
    if steps != [] {
      PlaySettles(s, steps[..|steps| - 1]);
      StepSettles(Play(s, steps[..|steps| - 1]), steps[|steps| - 1]);
    }
  }

  /**
   With no step in progress: a ready participant that owes no answer, and on whose connection no media
   call failed, was last offered exactly the tracks the others forward.
   */
  ghost predicate Current(s: State, h: nat) {
    && h in s.peers
    && (s.tasks == [] && h in s.names.Values && s.peers[h].ready && !s.peers[h].negotiating && h !in s.failed ==>
          forall t :: t in s.peers[h].described <==> OthersPublish(s.forwards, s.peers[h].name, t))
  }

  /** Over every interleaving, that holds of each participant none of whose answers overtook an offer to it. */
  lemma LastOfferIsCurrent(steps: seq<Step>, h: nat)
    requires var s := Play(EMPTY, steps); h in s.peers && h !in s.overtaken
    ensures Current(Play(EMPTY, steps), h)
  {
    PlaySettles(EMPTY, steps);
    var s := Play(EMPTY, steps);
    if h !in s.failed { assert TrackingAt(s, h); }
    forall t ensures t in Desired(s.forwards, s.peers[h].name) <==> OthersPublish(s.forwards, s.peers[h].name, t) {}
  }

  // ----- browsers that answer too early -----

  /** The room with one participant in it, whose answers overtook an offer if over is {0}. */
  ghost function Solo(p: Peer, forwards: map<Key, nat>, tasks: seq<Task>, over: set<nat>): State {
    State(false, map["a" := 0], map[0 := p], forwards, tasks, {}, over)
  }

  lemma Further(steps: seq<Step>, step: Step) returns (longer: seq<Step>)
    ensures longer == steps + [step] && Play(EMPTY, longer) == Next(Play(EMPTY, steps), step)
  {
    longer := steps + [step];
    assert longer[..|steps|] == steps;
  }

  lemma SoloSynchronizes(p: Peer, forwards: map<Key, nat>, tasks: seq<Task>, i: nat, u: set<nat>)
    requires i < |tasks| && tasks[i] == Synchronize
    ensures var wanted := Desired(forwards, p.name);
            Next(Solo(p, forwards, tasks, u), Run(i, [0], {}, false))
            == Solo(p.(senders := wanted), forwards, Drop(tasks, i) + [if wanted != p.senders then Mark(0) else Offer(0)], u)
  {
    var s, wanted := Solo(p, forwards, tasks, u), Desired(forwards, p.name);
    assert Reconciled(p, 0, forwards, {}) == wanted;
    assert s.names["a"] == 0 && s.names.Values == {0};
    assert ReconcileAll(s, {}) == map[0 := p.(senders := wanted)];
    assert Items(s, [0], {}) == [if wanted != p.senders then Mark(0) else Offer(0)];
  }

  lemma SoloRuns(p: Peer, forwards: map<Key, nat>, tasks: seq<Task>, i: nat, u: set<nat>)
    requires i < |tasks| && tasks[i] != Synchronize && tasks[i].peer == 0
    ensures var n, rest := Next(Solo(p, forwards, tasks, u), Run(i, [0], {}, false)), Drop(tasks, i);
            match tasks[i]
            case Mark(_) => n == Solo(p.(dirty := true), forwards, rest + [Offer(0)], u)
            case Offer(_) =>
              n == if p.ready && !p.negotiating && p.dirty
                   then Solo(p.(dirty := false, negotiating := true), forwards, rest + [Build(0)], u)
                   else Solo(p, forwards, rest, u)
            case Build(_) => n == Solo(p, forwards, rest + [Send(0, p.senders)], u)
            case Send(_, tracks) => n == Solo(p.(described := tracks, offers := p.offers + 1), forwards, rest, u)
            case Synchronize => true
  {
    hide Drop;
    var s := Solo(p, forwards, tasks, u);
    forall q: Peer ensures s.peers[0 := q] == map[0 := q] {}
  }

  lemma SoloHears(p: Peer, forwards: map<Key, nat>, tasks: seq<Task>, u: set<nat>, key: Key, local: nat)
    ensures Next(Solo(p, forwards, tasks, u), Publish(key, local)) == Solo(p, forwards[key := local], tasks + [Synchronize], u)
  {
  }

  lemma SoloAnswers(p: Peer, forwards: map<Key, nat>, tasks: seq<Task>, u: set<nat>)
    ensures Next(Solo(p, forwards, tasks, u), Answered(0))
         == Solo(p.(negotiating := false, answers := p.answers + 1), forwards, tasks + [Synchronize],
              if Flights(tasks, 0) > 0 then u + {0} else u)
  {
    hide Flights;
    var s := Solo(p, forwards, tasks, u);
    forall q: Peer ensures s.peers[0 := q] == map[0 := q] {}
  }

  /** Taking the last of at most two tasks. */
  lemma TakeLast(t: Task)
    ensures Drop([t], 0) == [] && forall u :: [] + [u] == [u] && Drop([t, u], 1) == [t] && [t] + [u] == [t, u]
  {}

  /** A participant in an otherwise empty room, with nothing left to do. */
  lemma Alone() returns (steps: seq<Step>)
    ensures Play(EMPTY, steps) == Solo(Peer("a", true, false, false, {}, {}, 0, 0), map[], [], {})
  {
    var p := Peer("a", true, false, false, {}, {}, 0, 0);
    steps := Further([], Join("a", 0));
    steps := Further(steps, Ready(0));
    assert Play(EMPTY, steps) == Solo(p, map[], [Synchronize], {});
    SoloSynchronizes(p, map[], [Synchronize], 0, {});
    assert Desired(map[], "a") == {};
    steps := Further(steps, Run(0, [0], {}, false));
    SoloRuns(p, map[], [Offer(0)], 0, {});
    steps := Further(steps, Run(0, [0], {}, false));
  }

  /** The next three actions when the forwards have changed and everything else is settled. */
  lemma StartsOffer(before: seq<Step>, p: Peer, forwards: map<Key, nat>, held: seq<Task>, u: set<nat>) returns (steps: seq<Step>)
    requires Play(EMPTY, before) == Solo(p, forwards, held + [Synchronize], u)
    requires p.name == "a" && p.ready && !p.negotiating && p.senders != Desired(forwards, "a")
    ensures Play(EMPTY, steps)
         == Solo(p.(senders := Desired(forwards, "a"), dirty := false, negotiating := true), forwards, held + [Build(0)], u)
  {
    hide Next;
    hide Play;
    var q, i := p.(senders := Desired(forwards, "a")), |held|;
    SoloSynchronizes(p, forwards, held + [Synchronize], i, u);
    assert forall t :: Drop(held + [t], i) == held;
    steps := Further(before, Run(i, [0], {}, false));
    SoloRuns(q, forwards, held + [Mark(0)], i, u);
    steps := Further(steps, Run(i, [0], {}, false));
    SoloRuns(q.(dirty := true), forwards, held + [Offer(0)], i, u);
    steps := Further(steps, Run(i, [0], {}, false));
  }

  /** A participant whose first offer is being sent. */
  lemma FirstOffer(x: Key) returns (steps: seq<Step>)
    requires x.owner == "b"
    ensures Play(EMPTY, steps) ==
      Solo(Peer("a", true, true, false, {x.track}, {}, 0, 0), map[x := 1], [Send(0, {x.track})], {})
  {
    hide Next;
    hide Play;
    TracksOf(x, x);
    var p, fw := Peer("a", true, false, false, {}, {}, 0, 0), map[x := 1];
    steps := Alone();
    SoloHears(p, map[], [], {}, x, 1);
    steps := Further(steps, Publish(x, 1));
    TakeLast(Build(0));
    assert map[][x := 1] == fw;
    steps := StartsOffer(steps, p, fw, [], {});
    SoloRuns(p.(senders := {x.track}, negotiating := true), fw, [Build(0)], 0, {});
    steps := Further(steps, Run(0, [0], {}, false));
  }

  /** A participant whose first offer is being sent when the answer to it is already counted. */
  lemma AnswerOvertakesOffer(x: Key) returns (steps: seq<Step>)
    requires x.owner == "b"
    ensures Play(EMPTY, steps) ==
      Solo(Peer("a", true, false, false, {x.track}, {}, 0, 1), map[x := 1], [Send(0, {x.track}), Synchronize], {0})
  {
    hide Next;
    hide Play;
    steps := FirstOffer(x);
    SoloAnswers(Peer("a", true, true, false, {x.track}, {}, 0, 0), map[x := 1], [Send(0, {x.track})], {});
    FlightsOne(Send(0, {x.track}), 0);
    steps := Further(steps, Answered(0));
  }

  /** The late answer's reconciliation finds nothing to do. */
  lemma NothingMoreToOffer(x: Key) returns (steps: seq<Step>)
    requires x.owner == "b"
    ensures Play(EMPTY, steps) ==
      Solo(Peer("a", true, false, false, {x.track}, {}, 0, 1), map[x := 1], [Send(0, {x.track})], {0})
  {
    hide Next;
    hide Play;
    TracksOf(x, x);
    var p, fw, first := Peer("a", true, false, false, {x.track}, {}, 0, 1), map[x := 1], Send(0, {x.track});
    TakeLast(first);
    steps := AnswerOvertakesOffer(x);
    SoloSynchronizes(p, fw, [first, Synchronize], 1, {0});
    steps := Further(steps, Run(1, [0], {}, false));
    SoloRuns(p, fw, [first, Offer(0)], 1, {0});
    steps := Further(steps, Run(1, [0], {}, false));
  }

  /** A second track then starts a second offer. */
  lemma SecondOffer(x: Key, y: Key) returns (steps: seq<Step>)
    requires x.owner == y.owner == "b" && x.track != y.track
    ensures Play(EMPTY, steps) ==
      Solo(Peer("a", true, true, false, {x.track, y.track}, {x.track, y.track}, 1, 1), map[x := 1, y := 2], [Send(0, {x.track})], {0})
  {
    hide Next;
    hide Play;
    TracksOf(x, y);
    var p, fw := Peer("a", true, false, false, {x.track}, {}, 0, 1), map[x := 1];
    var first, both := Send(0, {x.track}), {x.track, y.track};
    TakeLast(first);
    steps := NothingMoreToOffer(x);
    SoloHears(p, fw, [first], {0}, y, 2);
    steps := Further(steps, Publish(y, 2));
    assert y.track in both && y.track !in {x.track} && fw[y := 2] == map[x := 1, y := 2];
    steps := StartsOffer(steps, p, map[x := 1, y := 2], [first], {0});
    var q := p.(senders := both, negotiating := true);
    SoloRuns(q, map[x := 1, y := 2], [first, Build(0)], 1, {0});
    steps := Further(steps, Run(1, [0], {}, false));
    SoloRuns(q, map[x := 1, y := 2], [first, Send(0, both)], 1, {0});
    steps := Further(steps, Run(1, [0], {}, false));
  }

  /**
   An answer that comes before its offer breaks it: two offers are then on their way at once, and the
   older may arrive last, with every answer in and nothing left to do.
   */
  lemma EarlyAnswerLeavesOldOffer() returns (steps: seq<Step>)
    ensures 0 in Play(EMPTY, steps).peers && !Current(Play(EMPTY, steps), 0)
  {
    hide Next;
    hide Play;
    var x, y := Key("b", "x"), Key("b", "y");
    TracksOf(x, y);
    var first, both, fw := Send(0, {"x"}), {"x", "y"}, map[x := 1, y := 2];
    var p := Peer("a", true, true, false, both, both, 1, 1);
    TakeLast(first);
    TakeLast(Synchronize);
    TakeLast(Offer(0));
    steps := SecondOffer(x, y);
    SoloRuns(p, fw, [first], 0, {0});
    steps := Further(steps, Run(0, [0], {}, false));
    var q := p.(described := {"x"}, offers := 2);
    SoloAnswers(q, fw, [], {0});
    steps := Further(steps, Answered(0));
    var r := q.(negotiating := false, answers := 2);
    SoloSynchronizes(r, fw, [Synchronize], 0, {0});
    steps := Further(steps, Run(0, [0], {}, false));
    SoloRuns(r, fw, [Offer(0)], 0, {0});
    steps := Further(steps, Run(0, [0], {}, false));
    assert "y" !in {"x"} && y in fw;
    assert OthersPublish(fw, "a", "y");
    assert Solo(r, fw, [], {0}).names["a"] == 0;
  }

  /** Every run leaves every participant current; without overtaking, those none of whose answers overtook an offer to them. */
  ghost predicate AlwaysCurrent(overtaking: bool) {
    forall steps, h :: h in Play(EMPTY, steps).peers && (overtaking || h !in Play(EMPTY, steps).overtaken) ==>
      Current(Play(EMPTY, steps), h)
  }

  /** The last offer is current in all runs exactly when no answer may overtake an offer still being built or sent. */
  lemma CurrentExactlyWhen(overtaking: bool)
    ensures AlwaysCurrent(overtaking) <==> !overtaking
  {
    hide Current;
    hide Next;
    hide Play;
    if overtaking {
      var steps := EarlyAnswerLeavesOldOffer();
    } else {
      forall steps, h | h in Play(EMPTY, steps).peers && h !in Play(EMPTY, steps).overtaken ensures Current(Play(EMPTY, steps), h) {
        LastOfferIsCurrent(steps, h);
      }
    }
  }

  lemma TracksOf(x: Key, y: Key)
    requires x.owner == y.owner == "b"
    ensures Desired(map[x := 1], "a") == {x.track} && Desired(map[x := 1, y := 2], "a") == {x.track, y.track}
    ensures Desired(map[], "a") == {}
  {
    var m := map[x := 1, y := 2];
    assert x in m && y in m;
    assert x in map[x := 1];
  }
}
