/**
 One huddle's forwarding unit as the steps its goroutines take: each step is one critical section,
 or one call into the media stack, and any goroutine may take the next one.
 */
module HuddleRoom {

  /** A forward is named by its publisher and the track's ID. */
  datatype Key = Key(owner: string, track: string)

  /** One connection: its negotiation flags, the tracks it is sending, and its offers and answers so far. */
  datatype Peer = Peer(name: string, ready: bool, negotiating: bool, dirty: bool, senders: set<string>,
                       described: set<string>, offers: nat, answers: nat)

  /** What a goroutine is about to do. */
  datatype Task =
    | Synchronize                                 // reconcile everyone's senders
    | Mark(peer: nat)                             // record that a peer's senders changed, then offer
    | Offer(peer: nat)                            // offer if there is something to offer
    | Build(peer: nat)                            // create the offer
    | Send(peer: nat, tracks: set<string>)        // hand the offer to the browser

  /**
   peers holds every connection ever made, names the ones in the room; forwards holds the local
   track behind each key. failed and overtaken remember the connections on which a media call failed,
   and those whose browser answered while an offer to it was still being built or sent.
   */
  datatype State = State(closed: bool, names: map<string, nat>, peers: map<nat, Peer>, forwards: map<Key, nat>,
                         tasks: seq<Task>, failed: set<nat>, overtaken: set<nat>)

  const EMPTY := State(false, map[], map[], map[], [], {}, {})

  datatype Step =
    | Join(name: string, handle: nat)
    | Ready(handle: nat)
    | Answered(handle: nat)
    | Publish(key: Key, local: nat)
    | Withdraw(key: Key, local: nat)
    | Resume(key: Key, local: nat)
    | Leave(name: string)
    | Close
    | Run(task: nat, order: seq<nat>, stuck: set<(nat, string)>, fails: bool)

  /** The tracks a participant should be receiving: everyone else's forwards. */
  function Desired(forwards: map<Key, nat>, name: string): set<string> {
    set k | k in forwards && k.owner != name :: k.track
  }

  /** Someone but the named participant publishes the track. */
  ghost predicate OthersPublish(forwards: map<Key, nat>, name: string, track: string) {
    exists k :: k in forwards && k.track == track && k.owner != name
  }

  /** A peer's senders after reconciling; adding or removing a stuck track fails and leaves it as it was. */
  function Reconciled(p: Peer, handle: nat, forwards: map<Key, nat>, stuck: set<(nat, string)>): set<string> {
    var desired := Desired(forwards, p.name);
    (set t | t in p.senders && (t in desired || (handle, t) in stuck))
    + (set t | t in desired && (t in p.senders || (handle, t) !in stuck))
  }

  function ReconcileAll(s: State, stuck: set<(nat, string)>): map<nat, Peer> {
    map h | h in s.peers :: if h in s.names.Values then s.peers[h].(senders := Reconciled(s.peers[h], h, s.forwards, stuck)) else s.peers[h]
  }

  /** What follows the reconciliation, peer by peer. */
  function Items(s: State, order: seq<nat>, stuck: set<(nat, string)>): seq<Task>
    requires forall h :: h in order ==> h in s.peers
  {
    seq(|order|, i requires 0 <= i < |order| =>
      assert order[i] in order;
      if Reconciled(s.peers[order[i]], order[i], s.forwards, stuck) != s.peers[order[i]].senders then Mark(order[i]) else Offer(order[i]))
  }

  /** The connections on which adding or removing a track fails. */
  function FailedCalls(s: State, stuck: set<(nat, string)>): set<nat> {
    set h | h in s.peers && h in s.names.Values && Reconciled(s.peers[h], h, s.forwards, stuck) != Desired(s.forwards, s.peers[h].name)
  }

  /** task is building or sending an offer to peer h. */
  predicate InFlight(task: Task, h: nat) {
    (task.Build? || task.Send?) && task.peer == h
  }

  function Flights(tasks: seq<Task>, h: nat): nat {
    if tasks == [] then 0 else Flights(tasks[..|tasks| - 1], h) + if InFlight(tasks[|tasks| - 1], h) then 1 else 0
  }

  function Drop<T>(s: seq<T>, i: nat): seq<T>
    requires i < |s|
  {
    s[..i] + s[i + 1..]
  }

  /** The visiting order covers exactly the participants in the room. */
  ghost predicate Visits(s: State, order: seq<nat>) {
    (forall h :: h in order <==> h in s.names.Values) && (forall h :: h in order ==> h in s.peers)
  }

  /** Reconcile every participant's senders with the forwards; order is the order they are visited in. */
  ghost function RunSynchronize(s: State, rest: seq<Task>, order: seq<nat>, stuck: set<(nat, string)>): State {
    if s.closed then s.(tasks := rest)
    else if Visits(s, order) then
      s.(peers := ReconcileAll(s, stuck), tasks := rest + Items(s, order, stuck), failed := s.failed + FailedCalls(s, stuck))
    else s
  }

  /** One connection changes, and so does what there is left to do. */
  function Put(s: State, h: nat, p: Peer, tasks: seq<Task>): State {
    State(s.closed, s.names, s.peers[h := p], s.forwards, tasks, s.failed, s.overtaken)
  }

  function RunMark(s: State, rest: seq<Task>, h: nat): State {
    if h !in s.peers then s.(tasks := rest)
    else Put(s, h, s.peers[h].(dirty := true), rest + [Offer(h)])
  }

  /** Start an offer when there is something to offer, the peer is ready, and none is outstanding. */
  function RunOffer(s: State, rest: seq<Task>, h: nat): State {
    if h !in s.peers || !s.peers[h].ready || s.peers[h].negotiating || !s.peers[h].dirty then s.(tasks := rest)
    else Put(s, h, s.peers[h].(dirty := false, negotiating := true), rest + [Build(h)])
  }

  function RunBuild(s: State, rest: seq<Task>, h: nat, fails: bool): State {
    if h !in s.peers then s.(tasks := rest)
    else if fails then Put(s, h, s.peers[h].(negotiating := false, dirty := true), rest).(failed := s.failed + {h})
    else s.(tasks := rest + [Send(h, s.peers[h].senders)])
  }

  function RunSend(s: State, rest: seq<Task>, h: nat, tracks: set<string>): State {
    if h !in s.peers then s.(tasks := rest)
    else Put(s, h, s.peers[h].(described := tracks, offers := s.peers[h].offers + 1), rest)
  }

  /** One goroutine's next action. */
  ghost function RunTask(s: State, i: nat, order: seq<nat>, stuck: set<(nat, string)>, fails: bool): State
    requires i < |s.tasks|
  {
    var rest := Drop(s.tasks, i);
    match s.tasks[i]
    case Synchronize => RunSynchronize(s, rest, order, stuck)
    case Mark(h) => RunMark(s, rest, h)
    case Offer(h) => RunOffer(s, rest, h)
    case Build(h) => RunBuild(s, rest, h, fails)
    case Send(h, tracks) => RunSend(s, rest, h, tracks)
  }

  ghost function Next(s: State, step: Step): State {
    match step
    case Join(name, h) =>
      if s.closed || h in s.peers then s
      else s.(names := s.names[name := h], peers := s.peers[h := Peer(name, false, false, false, {}, {}, 0, 0)])
    case Ready(h) =>
      if h !in s.peers then s
      else Put(s, h, s.peers[h].(ready := true), s.tasks + [Synchronize])
    case Answered(h) =>
      if h !in s.peers then s
      else
        var p := s.peers[h];
        Put(s, h, p.(negotiating := false, answers := p.answers + 1), s.tasks + [Synchronize])
          .(overtaken := if Flights(s.tasks, h) > 0 then s.overtaken + {h} else s.overtaken)
    case Publish(key, local) =>
      if s.closed then s else s.(forwards := s.forwards[key := local], tasks := s.tasks + [Synchronize])
    case Withdraw(key, local) =>
      s.(forwards := if key in s.forwards && s.forwards[key] == local then s.forwards - {key} else s.forwards,
         tasks := s.tasks + [Synchronize])
    case Resume(key, local) =>
      if s.closed || key.owner !in s.names then s
      else s.(forwards := s.forwards[key := local], tasks := s.tasks + [Synchronize])
    case Leave(name) =>
      if name !in s.names then s
      else s.(names := s.names - {name}, forwards := map k | k in s.forwards && k.owner != name :: s.forwards[k],
              tasks := s.tasks + [Synchronize])
    case Close => s.(closed := true, names := map[], forwards := map[])
    case Run(i, order, stuck, fails) => if i < |s.tasks| then RunTask(s, i, order, stuck, fails) else s
  }

  ghost function Play(s: State, steps: seq<Step>): State
    decreases |steps|
  {
    if steps == [] then s else Next(Play(s, steps[..|steps| - 1]), steps[|steps| - 1])
  }
}
