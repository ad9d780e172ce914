/** One pass comparing the provider's objects with the durable references to them. */
module BlobAudit {
  import opened Identifiers
  import opened Sets

  /** A modification time in nanoseconds, or none: the provider may not know. */
  datatype Moment = Unknown | At(time: int)

  datatype Object = Object(key: string, modified: Moment)

  /** What opening a key finds: an object, no object, or a provider that cannot say. */
  datatype Opening = Present | Absent | Broken

  datatype Reconciliation = Reconciliation(objects: nat, references: nat, orphanKeys: seq<string>, missingKeys: seq<string>,
                                           duplicateKeys: nat, recentObjects: nat)

  datatype Outcome = Done(found: Reconciliation) | Refused

  /** The longest time between writing an object and committing its reference: fifteen minutes. */
  const UPLOAD_WINDOW: int := 15 * 60 * 1_000_000_000

  /** The modification time each listed key was last listed with. */
  function Listing(walked: seq<Object>): map<string, Moment> {
    if walked == [] then map[]
    else Listing(walked[..|walked| - 1])[walked[|walked| - 1].key := walked[|walked| - 1].modified]
  }

  /** Too new to judge, or of unknown age. */
  predicate IsRecent(modified: Moment, cutoff: int, minAge: int) {
    modified.Unknown? || cutoff - modified.time < minAge
  }

  function Recent(listing: map<string, Moment>, referenced: set<string>, cutoff: int, minAge: int): set<string> {
    set k | k in listing && k !in referenced && IsRecent(listing[k], cutoff, minAge)
  }

  function Orphans(listing: map<string, Moment>, referenced: set<string>, cutoff: int, minAge: int): set<string> {
    set k | k in listing && k !in referenced && !IsRecent(listing[k], cutoff, minAge)
  }

  /** Referenced keys that were not listed. */
  function Unlisted(listing: map<string, Moment>, referenced: set<string>): set<string> {
    referenced - listing.Keys
  }

  ghost predicate Ascending(keys: seq<string>) {
    forall i, j :: 0 <= i < j < |keys| ==> StringLess(keys[i], keys[j])
  }

  /** keys lists the set, each key once and in order. */
  ghost predicate Lists(keys: seq<string>, s: set<string>) {
    Ascending(keys) && Elements(keys) == s
  }

  function OpenedAt(opens: map<string, Opening>, key: string): Opening {
    if key in opens then opens[key] else Absent
  }

  ghost predicate Refuses(workspace: string, minAge: int, maxResults: nat, cutoff: int, walked: seq<Object>, references: seq<string>,
                          opens: map<string, Opening>)
  {
    var listing, referenced := Listing(walked), Elements(references);
    || workspace == "" || minAge < UPLOAD_WINDOW
    || (exists o :: o in walked && o.key == "") || "" in references
    || |Unlisted(listing, referenced)| > maxResults
    || |Orphans(listing, referenced, cutoff, minAge)| > maxResults
    || exists k :: k in Unlisted(listing, referenced) && OpenedAt(opens, k) == Broken
  }

  ghost predicate Reports(r: Reconciliation, minAge: int, cutoff: int, walked: seq<Object>, references: seq<string>,
                          opens: map<string, Opening>)
  {
    var listing, referenced := Listing(walked), Elements(references);
    && r.objects == |walked| && r.references == |referenced| && r.duplicateKeys == |references| - |referenced|
    && r.recentObjects == |Recent(listing, referenced, cutoff, minAge)|
    && Lists(r.orphanKeys, Orphans(listing, referenced, cutoff, minAge))
    && Lists(r.missingKeys, set k | k in Unlisted(listing, referenced) && OpenedAt(opens, k) == Absent)
  }

  /** Every listed key is exactly one of referenced, recent and orphaned. */
  lemma EveryKeyIsJudgedOnce(listing: map<string, Moment>, referenced: set<string>, cutoff: int, minAge: int)
    ensures var seen, recent, orphans := listing.Keys * referenced, Recent(listing, referenced, cutoff, minAge),
                                         Orphans(listing, referenced, cutoff, minAge);
            && seen + recent + orphans == listing.Keys && seen !! recent !! orphans
            && |seen| + |recent| + |orphans| == |listing.Keys|
  {
    var seen, recent, orphans := listing.Keys * referenced, Recent(listing, referenced, cutoff, minAge),
                                 Orphans(listing, referenced, cutoff, minAge);
    assert seen + recent + orphans == listing.Keys;
  }

  /** A key's date is the one it was last listed with. */
  lemma {:induction false} ListedLast(walked: seq<Object>, i: nat)
    requires i < |walked| && forall j :: i < j < |walked| ==> walked[j].key != walked[i].key
    ensures walked[i].key in Listing(walked) && Listing(walked)[walked[i].key] == walked[i].modified
  {
    if i < |walked| - 1 {
      var front := walked[..|walked| - 1];
      assert front[i] == walked[i] && forall j :: i < j < |front| ==> front[j] == walked[j];
      ListedLast(front, i);
    }
  }

  lemma {:induction false} OnlyListed(walked: seq<Object>, key: string)
    ensures key in Listing(walked) <==> exists o :: o in walked && o.key == key
  {
    if walked != [] {
      var front, last := walked[..|walked| - 1], walked[|walked| - 1];
      OnlyListed(front, key);
      assert walked == front + [last];
      if key in Listing(front) {
        var o :| o in front && o.key == key;
        assert o in walked;
      }
    }
  }

  /**
   A key is reported an orphan exactly when it was listed, no reference names it, and the date it was last listed
   with is known and the minimum age or more before the cutoff; and missing exactly when a reference names it, it
   was not listed, and opening it finds nothing.
   */
  lemma ReportsExactly(r: Reconciliation, minAge: int, cutoff: int, walked: seq<Object>, references: seq<string>,
                       opens: map<string, Opening>, key: string)
    requires Reports(r, minAge, cutoff, walked, references, opens)
    ensures key in r.orphanKeys <==>
              && key !in references
              && exists i :: 0 <= i < |walked| && walked[i].key == key && (forall j :: i < j < |walked| ==> walked[j].key != key)
                             && walked[i].modified.At? && cutoff - walked[i].modified.time >= minAge
    ensures key in r.missingKeys <==>
              key in references && (forall o :: o in walked ==> o.key != key) && (key in opens ==> opens[key] == Absent)
  {
    OnlyListed(walked, key);
    assert key in r.orphanKeys <==> key in Elements(r.orphanKeys);
    assert key in r.missingKeys <==> key in Elements(r.missingKeys);
    if key in Listing(walked) {
      var i := LastListed(walked, key);
      ListedLast(walked, i);
    }
    forall i | 0 <= i < |walked| && walked[i].key == key && (forall j :: i < j < |walked| ==> walked[j].key != key)
      ensures key in Listing(walked) && Listing(walked)[key] == walked[i].modified
    {
      ListedLast(walked, i);
    }
    hide Listing;
  }

  lemma {:induction false} LastListed(walked: seq<Object>, key: string) returns (i: nat)
    requires exists o :: o in walked && o.key == key
    ensures i < |walked| && walked[i].key == key && forall j :: i < j < |walked| ==> walked[j].key != key
  {
    i := |walked| - 1;
    if walked[i].key != key {
      var o :| o in walked && o.key == key;
      assert walked == walked[..i] + [walked[i]];
      i := LastListed(walked[..i], key);
    }
  }

  /** Keys in ascending order are distinct. */
  lemma {:induction false} AscendingSize(keys: seq<string>)
    requires Ascending(keys)
    ensures |Elements(keys)| == |keys|
  {
    if keys != [] {
      var front, key := keys[..|keys| - 1], keys[|keys| - 1];
      AscendingSize(front);
      StringLessTotal(key, key);
      assert key !in front;
      assert keys == front + [key];
      assert Elements(keys) == Elements(front) + {key};
    }
  }

  /** What a report counts adds up: orphans, recent objects and listed references are the distinct keys listed. */
  lemma ReportAddsUp(r: Reconciliation, minAge: int, cutoff: int, walked: seq<Object>, references: seq<string>, opens: map<string, Opening>)
    requires Reports(r, minAge, cutoff, walked, references, opens)
    ensures var listing, referenced := Listing(walked), Elements(references);
            && |r.orphanKeys| + r.recentObjects + |listing.Keys * referenced| == |listing.Keys| <= r.objects
            && r.references + r.duplicateKeys == |references|
            && |r.missingKeys| <= r.references - |listing.Keys * referenced|
  {
    var listing, referenced := Listing(walked), Elements(references);
    AscendingSize(r.orphanKeys);
    AscendingSize(r.missingKeys);
    EveryKeyIsJudgedOnce(listing, referenced, cutoff, minAge);
    ListingSize(walked);
    assert referenced == Unlisted(listing, referenced) + listing.Keys * referenced;
    SubsetSize(Elements(r.missingKeys), Unlisted(listing, referenced));
  }

  lemma {:induction false} ListingSize(walked: seq<Object>)
    ensures |Listing(walked).Keys| <= |walked|
  {
    if walked != [] {
      var front := walked[..|walked| - 1];
      ListingSize(front);
      assert Listing(walked).Keys == Listing(front).Keys + {walked[|walked| - 1].key};
    }
  }

  // ----- sorting the keys -----

  /** Put key in its place among sorted keys. */
  method PlaceKey(sorted: seq<string>, key: string) returns (r: seq<string>)
    requires Ascending(sorted) && key !in sorted
    ensures Lists(r, Elements(sorted) + {key})
  {
    var i := 0;
    while i < |sorted| && StringLess(sorted[i], key)
      invariant 0 <= i <= |sorted| && forall j :: 0 <= j < i ==> StringLess(sorted[j], key)
    {
      i := i + 1;
    }
    forall j | i <= j < |sorted| ensures StringLess(key, sorted[j]) {
      assert sorted[i] in sorted;
      StringLessTotal(sorted[i], key);
      if i < j { StringLessTransitive(key, sorted[i], sorted[j]); }
    }
    r := sorted[..i] + [key] + sorted[i..];
    assert sorted == sorted[..i] + sorted[i..];
  }

  /** The keys sorted; they are distinct. */
  method SortKeys(keys: seq<string>) returns (r: seq<string>)
    requires Once(keys)
    ensures Lists(r, Elements(keys))
  {
    r := [];
    for n := 0 to |keys|
      invariant Lists(r, Elements(keys[..n]))
    {
      assert keys[..n + 1] == keys[..n] + [keys[n]];
      assert keys[n] !in Elements(keys[..n]);
      r := PlaceKey(r, keys[n]);
      assert Elements(keys[..n]) + {keys[n]} == Elements(keys[..n + 1]);
    }
    assert keys[..|keys|] == keys;
  }

  // ----- the pass -----

  /** List the objects; None when the provider returned an empty key. */
  method WalkObjects(walked: seq<Object>) returns (ok: bool, objects: map<string, Moment>, count: nat)
    ensures ok <==> forall o :: o in walked ==> o.key != ""
    ensures ok ==> objects == Listing(walked) && count == |walked|
  {
    ok, objects, count := true, map[], 0;
    for i := 0 to |walked|
      invariant ok && objects == Listing(walked[..i]) && count == i
      invariant forall o :: o in walked[..i] ==> o.key != ""
    {
      if walked[i].key == "" {
        ok := false;
        return;
      }
      assert walked[..i + 1][..i] == walked[..i];
      count := count + 1;
      objects := objects[walked[i].key := walked[i].modified];
    }
    assert walked[..|walked|] == walked;
  }

  /** What the walk has noted after the references in seen. */
  ghost predicate Noted(listing: map<string, Moment>, seen: set<string>, objects: map<string, Moment>, missing: seq<string>) {
    && objects == listing - seen && Once(missing)
    && Elements(missing) == Unlisted(listing, seen) && |missing| == |Unlisted(listing, seen)|
  }

  /** A reference seen for the first time: strike its object, or note that it has none. */
  method NoteReference(ghost listing: map<string, Moment>, ghost seen: set<string>, key: string, objects: map<string, Moment>,
                       missing: seq<string>, maxResults: nat)
    returns (ok: bool, left: map<string, Moment>, more: seq<string>)
    requires key !in seen && Noted(listing, seen, objects, missing) && |missing| <= maxResults
    ensures ok <==> |Unlisted(listing, seen + {key})| <= maxResults
    ensures ok ==> Noted(listing, seen + {key}, left, more)
  {
    UnlistedMore(listing, seen, key);
    KeysMore(missing, key);
    StruckMore(listing, seen, key);
    hide Elements;
    hide Unlisted;
    hide Once;
    ok, left, more := true, objects, missing;
    if key in objects {
      left := objects - {key};
    } else if |missing| >= maxResults {
      ok := false;
    } else {
      more := missing + [key];
    }
  }

  /** Walk the references: strike the referenced keys from objects and note those that have none. */
  method WalkReferences(listing: map<string, Moment>, references: seq<string>, maxResults: nat)
    returns (ok: bool, objects: map<string, Moment>, seen: set<string>, missing: seq<string>, distinct: nat, duplicates: nat)
    ensures ok <==> "" !in references && |Unlisted(listing, Elements(references))| <= maxResults
    ensures ok ==> seen == Elements(references) && Noted(listing, seen, objects, missing)
    ensures ok ==> distinct == |seen| && duplicates == |references| - |seen|
  {
    NothingNoted(listing, references);
    hide Noted;
    hide Elements;
    hide Unlisted;
    ok, objects, seen, missing, distinct, duplicates := true, listing, {}, [], 0, 0;
    for i := 0 to |references|
      invariant ok && "" !in references[..i] && seen == Elements(references[..i])
      invariant distinct == |seen| && duplicates == i - |seen|
      invariant Noted(listing, seen, objects, missing) && |missing| <= maxResults
    {
      var key := references[i];
      SeenMore(references, i);
      FewerUnlisted(listing, references, i + 1);
      if key == "" {
        ok := false;
        return;
      }
      if key in seen {
        assert seen + {key} == seen;
        duplicates := duplicates + 1;
      } else {
        ok, objects, missing := NoteReference(listing, seen, key, objects, missing, maxResults);
        if !ok { return; }
        NotedLength(listing, seen + {key}, objects, missing);
        distinct := distinct + 1;
        seen := seen + {key};
      }
    }
    assert references[..|references|] == references;
    NotedLength(listing, seen, objects, missing);
  }

  lemma NothingNoted(listing: map<string, Moment>, references: seq<string>)
    ensures Noted(listing, {}, listing, []) && Elements(references[..0]) == {}
  {
    assert listing - {} == listing;
  }

  lemma NotedLength(listing: map<string, Moment>, seen: set<string>, objects: map<string, Moment>, missing: seq<string>)
    requires Noted(listing, seen, objects, missing)
    ensures |missing| == |Unlisted(listing, seen)|
  {}

  lemma SeenMore(references: seq<string>, i: nat)
    requires i < |references|
    ensures Elements(references[..i + 1]) == Elements(references[..i]) + {references[i]}
    ensures references[..i + 1] == references[..i] + [references[i]]
  {
    assert references[..i + 1] == references[..i] + [references[i]];
  }

  lemma UnlistedMore(listing: map<string, Moment>, seen: set<string>, key: string)
    requires key !in seen
    ensures Unlisted(listing, seen + {key}) == Unlisted(listing, seen) + if key in listing then {} else {key}
    ensures key !in Unlisted(listing, seen)
  {}

  lemma StruckMore(listing: map<string, Moment>, seen: set<string>, key: string)
    ensures listing - (seen + {key}) == (listing - seen) - {key}
    ensures key !in listing - seen ==> listing - (seen + {key}) == listing - seen
    ensures key !in seen ==> (key in listing - seen <==> key in listing)
    ensures key in seen ==> seen + {key} == seen
    ensures key !in seen ==> |seen + {key}| == |seen| + 1
  {}

  lemma KeysMore(keys: seq<string>, key: string)
    ensures Elements(keys + [key]) == Elements(keys) + {key}
    ensures key in Elements(keys) <==> key in keys
    ensures Once(keys) && key !in keys ==> Once(keys + [key])
  {}

  lemma InKeys(keys: seq<string>)
    ensures forall k :: k in keys <==> k in Elements(keys)
  {}

  lemma FewerUnlisted(listing: map<string, Moment>, references: seq<string>, n: nat)
    requires n <= |references|
    ensures |Unlisted(listing, Elements(references[..n]))| <= |Unlisted(listing, Elements(references))|
  {
    SubsetSize(Unlisted(listing, Elements(references[..n])), Unlisted(listing, Elements(references)));
  }

  /** Sort what is left into recent and orphaned; the keys come in no particular order. */
  method Judge(objects: map<string, Moment>, cutoff: int, minAge: int, maxResults: nat)
    returns (ok: bool, orphans: seq<string>, recent: nat)
    ensures ok <==> |Orphans(objects, {}, cutoff, minAge)| <= maxResults
    ensures ok ==> Elements(orphans) == Orphans(objects, {}, cutoff, minAge)
    ensures ok ==> recent == |Recent(objects, {}, cutoff, minAge)|
    ensures Once(orphans)
  {
    ok, orphans, recent := true, [], 0;
    var left := objects.Keys;
    while left != {}
      invariant ok && left <= objects.Keys
      invariant recent == |Recent(objects, left, cutoff, minAge)|
      invariant Elements(orphans) == Orphans(objects, left, cutoff, minAge) && |orphans| == |Elements(orphans)| <= maxResults
      invariant Once(orphans)
      decreases |left|
    {
      var key :| key in left;
      JudgedMore(objects, left, key, cutoff, minAge);
      KeysMore(orphans, key);
      SubsetSize(Orphans(objects, left - {key}, cutoff, minAge), Orphans(objects, {}, cutoff, minAge));
      hide Recent;
      hide Orphans;
      hide Elements;
      hide Once;
      left := left - {key};
      if IsRecent(objects[key], cutoff, minAge) {
        recent := recent + 1;
      } else {
        if |orphans| >= maxResults {
          ok := false;
          return;
        }
        orphans := orphans + [key];
      }
    }
  }

  /** Judging one more key adds it to one of the two sets. */
  lemma JudgedMore(objects: map<string, Moment>, left: set<string>, key: string, cutoff: int, minAge: int)
    requires key in left && left <= objects.Keys
    ensures var recent, orphans := Recent(objects, left, cutoff, minAge), Orphans(objects, left, cutoff, minAge);
            && key !in recent && key !in orphans
            && Recent(objects, left - {key}, cutoff, minAge)
               == (if IsRecent(objects[key], cutoff, minAge) then recent + {key} else recent)
            && Orphans(objects, left - {key}, cutoff, minAge)
               == (if IsRecent(objects[key], cutoff, minAge) then orphans else orphans + {key})
  {}

  /** Only a key whose opening answers that it does not exist is confirmed; any other failure ends the pass. */
  method ConfirmMissing(candidates: seq<string>, opens: map<string, Opening>) returns (ok: bool, confirmed: seq<string>)
    requires Once(candidates)
    ensures ok <==> forall k :: k in candidates ==> OpenedAt(opens, k) != Broken
    ensures ok ==> Elements(confirmed) == set k | k in candidates && OpenedAt(opens, k) == Absent
    ensures Once(confirmed)
  {
    ok, confirmed := true, [];
    for n := 0 to |candidates|
      invariant ok && forall k :: k in candidates[..n] ==> OpenedAt(opens, k) != Broken
      invariant Elements(confirmed) == set k | k in candidates[..n] && OpenedAt(opens, k) == Absent
      invariant Once(confirmed)
    {
      var key := candidates[n];
      SeenMore(candidates, n);
      match OpenedAt(opens, key) {
        case Present =>
        case Absent =>
          assert key !in Elements(confirmed) by { assert key !in candidates[..n]; }
          assert Elements(confirmed + [key]) == Elements(confirmed) + {key};
          confirmed := confirmed + [key];
        case Broken =>
          ok := false;
          return;
      }
    }
    assert candidates[..|candidates|] == candidates;
  }

  /**
   The whole pass. walked, references and opens are what the provider and the metadata store answer;
   cutoff is the instant read before either walk.
   */
  method Audit(workspace: string, minAge: int, maxResults: nat, cutoff: int, walked: seq<Object>, references: seq<string>,
               opens: map<string, Opening>) returns (r: Outcome)
    ensures r.Refused? <==> Refuses(workspace, minAge, maxResults, cutoff, walked, references, opens)
    ensures r.Done? ==> Reports(r.found, minAge, cutoff, walked, references, opens)
  {
    hide Unlisted;
    hide Elements;
    hide Once;
    if workspace == "" || minAge < UPLOAD_WINDOW { return Refused; }
    var listed, listing, count := WalkObjects(walked);
    if !listed { return Refused; }
    var read, objects, seen, missing, distinct, duplicates := WalkReferences(listing, references, maxResults);
    if !read { return Refused; }
    assert Orphans(objects, {}, cutoff, minAge) == Orphans(listing, seen, cutoff, minAge);
    assert Recent(objects, {}, cutoff, minAge) == Recent(listing, seen, cutoff, minAge);
    var judged, orphans, recent := Judge(objects, cutoff, minAge, maxResults);
    if !judged { return Refused; }
    var confirmed, absent := ConfirmMissing(missing, opens);
    InKeys(missing);
    if !confirmed { return Refused; }
    assert Elements(absent) == set k | k in Unlisted(listing, seen) && OpenedAt(opens, k) == Absent;
    orphans := SortKeys(orphans);
    absent := SortKeys(absent);
    r := Done(Reconciliation(count, distinct, orphans, absent, duplicates, recent));
  }

  /** The keys whose deletion is asked for, and whether every one could be; sent is how far it got before the sink failed. */
  method EnqueueOrphans(workspace: string, found: Reconciliation, sinkFailsAt: nat) returns (ok: bool, sent: seq<string>)
    ensures ok <==> workspace != "" && found.missingKeys == [] && "" !in found.orphanKeys && sinkFailsAt >= |found.orphanKeys|
    ensures sent <= found.orphanKeys
    ensures ok ==> sent == found.orphanKeys
    ensures workspace == "" || found.missingKeys != [] || "" in found.orphanKeys ==> sent == []
    ensures !ok && workspace != "" && found.missingKeys == [] && "" !in found.orphanKeys ==> |sent| == sinkFailsAt
  {
    ok, sent := false, [];
    if workspace == "" || found.missingKeys != [] { return; }
    for i := 0 to |found.orphanKeys|
      invariant "" !in found.orphanKeys[..i]
    {
      if found.orphanKeys[i] == "" { return; }
    }
    for i := 0 to |found.orphanKeys|
      invariant sent == found.orphanKeys[..i] && i <= sinkFailsAt
    {
      if i == sinkFailsAt { return; }
      sent := sent + [found.orphanKeys[i]];
    }
    ok := true;
  }
}
