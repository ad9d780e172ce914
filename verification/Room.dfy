/** The forwarding unit as the program keeps it: maps and flags updated in place, one critical section a method. */
module Rooms {
  import opened HuddleRoom

  class Room {
    var closed: bool
    var names: map<string, nat>
    var peers: map<nat, Peer>
    var forwards: map<Key, nat>
    /** What the goroutines have yet to do, and the connections on which something went wrong. */
    ghost var tasks: seq<Task>
    ghost var failed: set<nat>
    ghost var overtaken: set<nat>

    ghost function Value(): State
      reads this
    {
      State(closed, names, peers, forwards, tasks, failed, overtaken)
    }

    constructor ()
      ensures Value() == EMPTY
    {
      closed, names, peers, forwards := false, map[], map[], map[];
      tasks, failed, overtaken := [], {}, {};
    }

    /** Register a connection, unless the room has closed; should the name have been taken meanwhile, it changes hands. */
    method Join(name: string, handle: nat) returns (ok: bool)
      requires handle !in peers
      modifies this
      ensures ok <==> !old(closed)
      ensures Value() == Next(old(Value()), Step.Join(name, handle))
      ensures ok ==> names == old(names)[name := handle]
    {
      if closed { return false; }
      peers := peers[handle := Peer(name, false, false, false, {}, {}, 0, 0)];
      names := names[name := handle];
      ok := true;
    }

    /** A paused screen share is taken off the others' tiles or put back; one who left, or a closed room, changes nothing. */
    method SetScreenActive(key: Key, local: nat, active: bool)
      modifies this
      ensures Value() == if old(closed) || key.owner !in old(names) then old(Value())
                         else Next(old(Value()), if active then Resume(key, local) else Withdraw(key, local))
      ensures forall k :: k != key ==> (k in forwards <==> k in old(forwards)) && (k in forwards ==> forwards[k] == old(forwards)[k])
      ensures !closed && key.owner in names && active ==> key in forwards && forwards[key] == local
      ensures !active && key in forwards ==> key in old(forwards) && forwards[key] == old(forwards)[key]
      ensures !closed && key.owner in names && !active && key in old(forwards) ==> (key in forwards <==> old(forwards)[key] != local)
    {
      if closed || key.owner !in names { return; }
      if active {
        forwards := forwards[key := local];
      } else if key in forwards && forwards[key] == local {
        forwards := forwards - {key};
      }
      tasks := tasks + [Task.Synchronize];
    }

    method RemoveForwards(owner: string)
      modifies this`forwards
      ensures forwards == map k | k in old(forwards) && k.owner != owner :: old(forwards)[k]
    {
      var keys := forwards.Keys;
      while keys != {}
        invariant keys <= old(forwards).Keys
        invariant forwards == map k | k in old(forwards) && (k in keys || k.owner != owner) :: old(forwards)[k]
        decreases |keys|
      {
        var key :| key in keys;
        keys := keys - {key};
        if key.owner == owner { forwards := forwards - {key}; }
      }
    }

    method Leave(name: string)
      modifies this
      ensures Value() == Next(old(Value()), Step.Leave(name))
      ensures name !in names && names == old(names) - {name}
      ensures name in old(names) ==> forall k :: k in forwards <==> k in old(forwards) && k.owner != name
      ensures forall k :: k in forwards ==> k in old(forwards) && forwards[k] == old(forwards)[k]
      ensures name in old(names) ==> tasks == old(tasks) + [Task.Synchronize]
    {
      if name !in names { return; }
      names := names - {name};
      RemoveForwards(name);
      tasks := tasks + [Task.Synchronize];
    }

    /** The tracks a participant should be receiving. */
    method Wanted(name: string) returns (desired: set<string>)
      ensures desired == Desired(forwards, name)
    {
      desired := {};
      var keys := forwards.Keys;
      while keys != {}
        invariant keys <= forwards.Keys
        invariant desired == set k | k in forwards && k !in keys && k.owner != name :: k.track
        decreases |keys|
      {
        var key :| key in keys;
        ghost var before := keys;
        keys := keys - {key};
        assert forall k :: k in forwards && k !in keys <==> (k in forwards && k !in before) || k == key;
        if key.owner != name { desired := desired + {key.track}; }
      }
    }

    /** Remove the senders whose forwards are gone; a stuck track's call fails. */
    static method RemoveGone(handle: nat, existing: set<string>, desired: set<string>, stuck: set<(nat, string)>)
      returns (senders: set<string>, changed: bool)
      ensures senders == (set t | t in existing && (t in desired || (handle, t) in stuck)) && (changed <==> senders != existing)
    {
      var left := existing;
      senders, changed := existing, false;
      while left != {}
        invariant left <= existing
        invariant senders == set t | t in existing && (t in left || t in desired || (handle, t) in stuck)
        invariant changed <==> senders != existing
        decreases |left|
      {
        var track :| track in left;
        left := left - {track};
        if track !in desired && (handle, track) !in stuck {
          senders := senders - {track};
          changed := true;
          assert track in existing;
        }
      }
    }

    /** Add the senders that are missing; a stuck track's call fails. */
    static method AddMissing(handle: nat, existing: set<string>, desired: set<string>, stuck: set<(nat, string)>)
      returns (added: set<string>)
      ensures added == set t | t in desired && t !in existing && (handle, t) !in stuck
    {
      var left := desired;
      added := {};
      while left != {}
        invariant left <= desired
        invariant added == set t | t in desired && t !in left && t !in existing && (handle, t) !in stuck
        decreases |left|
      {
        var track :| track in left;
        left := left - {track};
        if track !in existing && (handle, track) !in stuck { added := added + {track}; }
      }
    }

    /** Bring one participant's senders in line with the forwards. */
    method Reconcile(handle: nat, stuck: set<(nat, string)>) returns (changed: bool)
      requires handle in peers
      modifies this`peers
      ensures var p := old(peers)[handle];
              && peers == old(peers)[handle := p.(senders := Reconciled(p, handle, forwards, stuck))]
              && (changed <==> Reconciled(p, handle, forwards, stuck) != p.senders)
      ensures forall t :: t in peers[handle].senders <==>
                if (handle, t) in stuck then t in old(peers)[handle].senders else OthersPublish(forwards, old(peers)[handle].name, t)
    {
      var p := peers[handle];
      var desired := Wanted(p.name);
      var kept, removed := RemoveGone(handle, p.senders, desired, stuck);
      var added := AddMissing(handle, p.senders, desired, stuck);
      ghost var wanted := Reconciled(p, handle, forwards, stuck);
      SendersChange(p, handle, forwards, stuck, kept, added);
      ReconciledSends(p, handle, forwards, stuck);
      hide Reconciled;
      peers := peers[handle := p.(senders := kept + added)];
      changed := removed || added != {};
    }

    /** A stuck track's sender stays as it was; every other track is sent exactly when someone else publishes it. */
    static lemma ReconciledSends(p: Peer, handle: nat, forwards: map<Key, nat>, stuck: set<(nat, string)>)
      ensures forall t :: t in Reconciled(p, handle, forwards, stuck) <==>
                if (handle, t) in stuck then t in p.senders else OthersPublish(forwards, p.name, t)
    {
      forall t ensures t in Desired(forwards, p.name) <==> OthersPublish(forwards, p.name, t) {}
    }

    static lemma SendersChange(p: Peer, handle: nat, forwards: map<Key, nat>, stuck: set<(nat, string)>, kept: set<string>, added: set<string>)
      requires kept == set t | t in p.senders && (t in Desired(forwards, p.name) || (handle, t) in stuck)
      requires added == set t | t in Desired(forwards, p.name) && t !in p.senders && (handle, t) !in stuck
      ensures kept + added == Reconciled(p, handle, forwards, stuck)
      ensures kept + added != p.senders <==> kept != p.senders || added != {}
    {
      hide Desired;
      var desired := Desired(forwards, p.name);
      forall t ensures t in kept + added <==> t in Reconciled(p, handle, forwards, stuck) {}
      if t :| t in added { assert t !in p.senders; }
      if kept != p.senders {
        var t :| t in p.senders && t !in kept;
        assert t !in kept + added;
      }
    }

    /** Reconcile everyone in the room, in the order they are visited, and note who is to be offered what. */
    method Synchronize(ghost task: nat, order: seq<nat>, stuck: set<(nat, string)>) returns (items: seq<(nat, bool)>)
      requires task < |tasks| && Visits(Value(), order) && forall i, j :: 0 <= i < j < |order| ==> order[i] != order[j]
      modifies this
      ensures Value() == RunSynchronize(old(Value()), Drop(old(tasks), task), order, stuck)
      ensures !closed ==> forall h, t :: h in order ==>
                (t in peers[h].senders <==>
                   if (h, t) in stuck then t in old(peers)[h].senders else OthersPublish(forwards, old(peers)[h].name, t))
      ensures !closed ==> |items| == |order| && forall i :: 0 <= i < |order| ==> items[i] == (order[i], Follows(old(Value()), order, stuck)[i].Mark?)
    {
      ghost var s := Value();
      hide Reconciled;
      hide Drop;
      hide Desired;
      hide Visited;
      hide ReconcileAll;
      hide FailedCalls;
      hide Items;
      items := [];
      tasks := Drop(tasks, task);
      if closed { return; }
      VisitedNone(s, order, stuck);
      for n := 0 to |order|
        invariant Value() == s.(peers := Visited(s, order[..n], stuck), tasks := Drop(s.tasks, task))
        invariant |items| == n && forall i :: 0 <= i < n ==> items[i] == (order[i], Follows(s, order, stuck)[i].Mark?)
      {
        var handle := order[n];
        assert handle in order && handle !in order[..n];
        VisitedOneMore(s, order, n, stuck);
        ItemMarks(s, order, n, stuck);
        var changed := Reconcile(handle, stuck);
        items := items + [(handle, changed)];
      }
      assert order[..|order|] == order;
      tasks := tasks + Items(s, order, stuck);
      failed := failed + FailedCalls(s, stuck);
      VisitedAll(s, order, stuck);
      VisitedSend(s, order, stuck);
    }

    /** Claim the next offer, unless there is nothing to offer or one is outstanding. */
    method BeginOffer(ghost task: nat, handle: nat) returns (start: bool)
      requires task < |tasks| && handle in peers
      modifies this
      ensures Value() == RunOffer(old(Value()), Drop(old(tasks), task), handle)
      ensures start <==> old(peers)[handle].ready && !old(peers)[handle].negotiating && old(peers)[handle].dirty
      ensures start ==> peers[handle].negotiating && !peers[handle].dirty && tasks == Drop(old(tasks), task) + [Build(handle)]
    {
      tasks := Drop(tasks, task);
      var p := peers[handle];
      start := p.ready && !p.negotiating && p.dirty;
      if start {
        peers := peers[handle := p.(dirty := false, negotiating := true)];
        tasks := tasks + [Build(handle)];
      }
    }

    /** Build the offer, three times at most; attempts says which tries succeed. When all fail the claim is undone. */
    method BuildOffer(ghost task: nat, handle: nat, attempts: seq<bool>) returns (built: bool, tracks: set<string>)
      requires task < |tasks| && handle in peers && |attempts| == 3
      modifies this
      ensures Value() == RunBuild(old(Value()), Drop(old(tasks), task), handle, true !in attempts)
      ensures built <==> true in attempts
      ensures built ==> tracks == peers[handle].senders && tasks == Drop(old(tasks), task) + [Send(handle, tracks)]
      ensures !built ==> peers[handle].dirty && !peers[handle].negotiating
    {
      tasks := Drop(tasks, task);
      built, tracks := false, {};
      for attempt := 0 to 3
        invariant !built && true !in attempts[..attempt]
      {
        built := attempts[attempt];
        if built { break; }
      }
      if built {
        tracks := peers[handle].senders;
        tasks := tasks + [Send(handle, tracks)];
      } else {
        peers := peers[handle := peers[handle].(negotiating := false, dirty := true)];
        failed := failed + {handle};
      }
    }
  }

  ghost function Follows(s: State, order: seq<nat>, stuck: set<(nat, string)>): (r: seq<Task>)
    requires Visits(s, order)
    ensures |r| == |order|
  {
    Items(s, order, stuck)
  }

  /** The peers once those in seen have been reconciled. */
  ghost function Visited(s: State, seen: seq<nat>, stuck: set<(nat, string)>): map<nat, Peer> {
    map h | h in s.peers :: if h in seen then s.peers[h].(senders := Reconciled(s.peers[h], h, s.forwards, stuck)) else s.peers[h]
  }

  lemma VisitedOneMore(s: State, order: seq<nat>, n: nat, stuck: set<(nat, string)>)
    requires n < |order| && order[n] in s.peers
    ensures var h := order[n];
            && Visited(s, order[..n + 1], stuck)
               == Visited(s, order[..n], stuck)[h := s.peers[h].(senders := Reconciled(s.peers[h], h, s.forwards, stuck))]
            && (h !in order[..n] ==> h in Visited(s, order[..n], stuck) && Visited(s, order[..n], stuck)[h] == s.peers[h])
  {
    hide Reconciled;
    assert order[..n + 1] == order[..n] + [order[n]];
  }

  lemma VisitedSend(s: State, order: seq<nat>, stuck: set<(nat, string)>)
    requires Visits(s, order)
    ensures forall h :: h in order ==> h in s.peers && h in Visited(s, order, stuck)
    ensures forall h, t :: h in order ==>
              (t in Visited(s, order, stuck)[h].senders <==>
                 if (h, t) in stuck then t in s.peers[h].senders else OthersPublish(s.forwards, s.peers[h].name, t))
  {
    hide Reconciled;
    forall h | h in order
      ensures forall t :: t in Visited(s, order, stuck)[h].senders <==>
                if (h, t) in stuck then t in s.peers[h].senders else OthersPublish(s.forwards, s.peers[h].name, t)
    {
      Room.ReconciledSends(s.peers[h], h, s.forwards, stuck);
    }
  }

  lemma VisitedNone(s: State, order: seq<nat>, stuck: set<(nat, string)>)
    ensures Visited(s, order[..0], stuck) == s.peers
  {}

  lemma ItemMarks(s: State, order: seq<nat>, n: nat, stuck: set<(nat, string)>)
    requires Visits(s, order) && n < |order|
    ensures order[n] in s.peers
    ensures Follows(s, order, stuck)[n].Mark?
            <==> Reconciled(s.peers[order[n]], order[n], s.forwards, stuck) != s.peers[order[n]].senders
  {
    assert order[n] in order;
    hide Reconciled;
  }

  lemma VisitedAll(s: State, order: seq<nat>, stuck: set<(nat, string)>)
    requires Visits(s, order)
    ensures Visited(s, order, stuck) == ReconcileAll(s, stuck)
  {
    hide Reconciled;
  }
}
