/** Which version of a capsule an answer shows when the tiers hold several. */
module Versions {
  import opened Results
  import opened Words
  import opened Capsules
  import opened Gates
  import opened CandidateSearch
  import opened Retrieve
  import opened Merging
  import opened Completeness
  import opened Lsm
  import opened SegmentLayout
  import opened Store
  import opened Query

  /** An entry shows the live version of its capsule whenever the tiers hold no other version of it. */
  lemma SoleVersionIsLive(store: MemoryStore, p: Probe, f: FrameCapsule)
    requires store.Valid() && store.Indexed() && f.id !in store.tombstones && Disclosed(LiveSegments(store), p, f)
    requires forall c, d :: c in Flatten(LiveSegments(store)) && d in Flatten(LiveSegments(store)) && c.id == f.id && d.id == f.id ==> c == d
    ensures f.id in store.Tiers().View() && Shows(f, store.Tiers().View()[f.id])
  {
    hide PassesGates, Flatten, ViewOf;
    var c :| c in Flatten(LiveSegments(store)) && PassesGates(c, p) && Shows(f, c);
    HeldIsViewed(store, c);
    var all := store.Tiers().Recent() + Flatten(store.segments);
    ViewKeys(all);
    ViewedIsHeld(store, ViewOf(all)[f.id]);
  }

  lemma ViewedIsHeld(store: MemoryStore, c: Capsule)
    requires store.Indexed() && c in store.Tiers().Recent() + Flatten(store.segments)
    ensures c in Flatten(LiveSegments(store))
  {
    hide Flatten, NewestFirst;
    var live := LiveSegments(store);
    FlattenElements(live);
    FlattenElements(store.segments);
    RunsHold(store.sealedDeltas);
    if c in store.delta {
      assert c in live[|live| - 1].capsules;
    } else if c in NewestFirst(store.sealedDeltas) {
      var k :| 0 <= k < |store.sealedDeltas| && c in store.sealedDeltas[k].capsules;
      assert c in live[|store.segments| + k].capsules;
    } else {
      var k :| 0 <= k < |store.segments| && c in store.segments[k].capsules;
      assert c in live[k].capsules;
    }
  }

  lemma {:induction false} RunsHold(runs: seq<Segment>)
    ensures forall c :: c in NewestFirst(runs) ==> exists k :: 0 <= k < |runs| && c in runs[k].capsules
    decreases |runs|
  {
    if runs != [] {
      var front, last := runs[..|runs| - 1], runs[|runs| - 1];
      RunsHold(front);
      forall c | c in NewestFirst(runs) ensures exists k :: 0 <= k < |runs| && c in runs[k].capsules {
        if c in last.capsules {
          assert c in runs[|runs| - 1].capsules;
        } else {
          assert c in NewestFirst(front);
          var k :| 0 <= k < |front| && c in front[k].capsules;
          assert c in runs[k].capsules;
        }
      }
    }
  }

  /** After a full compaction every answer shows the live map. */
  lemma CompactedIsFresh(store: MemoryStore, p: Probe, f: FrameCapsule)
    requires store.Valid() && store.Indexed() && f.id !in store.tombstones && Disclosed(LiveSegments(store), p, f)
    requires store.delta == [] && store.sealedDeltas == [] && |store.segments| == 1
    ensures f.id in store.Tiers().View() && Shows(f, store.Tiers().View()[f.id])
  {
    assert LiveSegments(store) == [store.segments[0]];
    assert Flatten(LiveSegments(store)) == store.segments[0].capsules + [];
    SoleVersionIsLive(store, p, f);
  }

  lemma {:induction false} LastHolder(frames: seq<Frame>, id: u128) returns (k: nat)
    requires exists j :: 0 <= j < |frames| && Holds(frames[j], id)
    ensures k < |frames| && Holds(frames[k], id) && forall j :: k < j < |frames| ==> !Holds(frames[j], id)
    decreases |frames|
  {
    var n := |frames| - 1;
    if Holds(frames[n], id) {
      k := n;
    } else {
      var j :| 0 <= j < |frames| && Holds(frames[j], id);
      assert Holds(frames[..n][j], id);
      k := LastHolder(frames[..n], id);
      forall i | k < i < |frames| ensures !Holds(frames[i], id) {
        if i < n { assert !Holds(frames[..n][i], id); }
      }
    }
  }

  /** Which version is shown: that of the last segment whose own answer holds the id, where it is eligible. */
  lemma ShownVersion(env: Env, segments: seq<Segment>, p: Probe, config: RetrievalConfig, frames: seq<Frame>, id: u128) returns (k: nat, o: nat)
    requires AllAnswer(env, segments, p, config, frames) && id in Latest(Entries(frames))
    ensures k < |segments| && Holds(frames[k], id) && forall j :: k < j < |segments| ==> !Holds(frames[j], id)
    ensures o in Eligible(segments[k].capsules, p) && segments[k].capsules[o].id == id
    ensures Shows(Latest(Entries(frames))[id], segments[k].capsules[o])
  {
    hide Latest, Entries, Eligible, ConflictsOk, Complete;
    LatestEntries(Entries(frames));
    EntriesHeld(frames);
    var j :| 0 <= j < |frames| && Latest(Entries(frames))[id] in frames[j].capsules;
    assert Holds(frames[j], id);
    k := LastHolder(frames, id);
    assert Answers(env, segments[k], p, config, frames[k]);
    var f :| f in frames[k].capsules && f.id == id;
    o :| o in Eligible(segments[k].capsules, p) && Shows(f, segments[k].capsules[o]);
    LastHolderWins(frames, k, f);
  }

  // ---------------------------------------------------------------- which version it is, before the query

  /** Segment `k` holds a copy of `id` at `o`. */
  predicate CopyAt(segments: seq<Segment>, k: nat, o: nat, id: u128) {
    k < |segments| && o < |segments[k].capsules| && segments[k].capsules[o].id == id
  }

  ghost predicate FoundAt(env: Env, segments: seq<Segment>, p: Probe, config: RetrievalConfig, k: nat, o: nat, id: u128) {
    CopyAt(segments, k, o, id) && o in Searched(env, segments[k].capsules, p, config)
  }

  ghost predicate AllRoomy(env: Env, segments: seq<Segment>, p: Probe, config: RetrievalConfig) {
    forall s :: s in segments ==> DistinctIds(s.capsules) && Roomy(env, s.capsules, p, config)
  }

  lemma FrameHolds(env: Env, segments: seq<Segment>, p: Probe, config: RetrievalConfig, frames: seq<Frame>, k: nat, o: nat, id: u128)
    requires AllAnswer(env, segments, p, config, frames) && AllRoomy(env, segments, p, config) && CopyAt(segments, k, o, id)
    ensures Holds(frames[k], id) <==> FoundAt(env, segments, p, config, k, o, id)
  {
    hide Roomy, Searched, Eligible, ConflictsOk;
    assert Answers(env, segments[k], p, config, frames[k]) && segments[k] in segments;
  }

  /** `k`, `o` is the last place the id is found in. */
  ghost predicate LastFound(env: Env, segments: seq<Segment>, p: Probe, config: RetrievalConfig, k: nat, o: nat, id: u128) {
    FoundAt(env, segments, p, config, k, o, id) && forall j: nat, q: nat :: j > k ==> !FoundAt(env, segments, p, config, j, q, id)
  }

  /** The merged answer shows `c` under its id. */
  ghost predicate ShownAs(frames: seq<Frame>, c: Capsule) {
    c.id in Latest(Entries(frames)) && Shows(Latest(Entries(frames))[c.id], c)
  }

  /**
   The version shown for an id is the copy of the last segment in which it is found: eligible there,
   and matching or near the probe (or nothing in that segment is). An id is shown exactly when some
   segment finds a copy.
   */
  lemma VersionShown(env: Env, segments: seq<Segment>, p: Probe, config: RetrievalConfig, frames: seq<Frame>, id: u128)
    requires AllAnswer(env, segments, p, config, frames) && AllRoomy(env, segments, p, config)
    ensures id in Latest(Entries(frames)) <==> exists k: nat, o: nat :: FoundAt(env, segments, p, config, k, o, id)
    ensures forall k: nat, o: nat :: LastFound(env, segments, p, config, k, o, id) ==> ShownAs(frames, segments[k].capsules[o])
  {
    hide Latest, Entries, Roomy, Searched, Eligible, ConflictsOk, AllAnswer, AllRoomy, ShownAs;
    if id in Latest(Entries(frames)) {
      var k, o := ShownVersion(env, segments, p, config, frames, id);
      ShownIsFound(env, segments, p, config, frames, k, o, id);
    }
    forall k: nat, o: nat | FoundAt(env, segments, p, config, k, o, id) ensures id in Latest(Entries(frames)) {
      FoundIsShown(env, segments, p, config, frames, k, o, id);
    }
    forall k: nat, o: nat | LastFound(env, segments, p, config, k, o, id) ensures ShownAs(frames, segments[k].capsules[o]) {
      LastIsShown(env, segments, p, config, frames, k, o, id);
    }
  }

  lemma ShownIsFound(env: Env, segments: seq<Segment>, p: Probe, config: RetrievalConfig, frames: seq<Frame>, k: nat, o: nat, id: u128)
    requires AllAnswer(env, segments, p, config, frames) && AllRoomy(env, segments, p, config)
    requires k < |segments| && Holds(frames[k], id) && o in Eligible(segments[k].capsules, p) && segments[k].capsules[o].id == id
    ensures FoundAt(env, segments, p, config, k, o, id)
  {
    hide Searched, AllAnswer, AllRoomy, FoundAt, Holds, Superseded, PassesGates;
    FrameHolds(env, segments, p, config, frames, k, o, id);
  }

  lemma FoundIsShown(env: Env, segments: seq<Segment>, p: Probe, config: RetrievalConfig, frames: seq<Frame>, k: nat, o: nat, id: u128)
    requires AllAnswer(env, segments, p, config, frames) && AllRoomy(env, segments, p, config) && FoundAt(env, segments, p, config, k, o, id)
    ensures Holds(frames[k], id) && id in Latest(Entries(frames))
  {
    hide Searched, AllAnswer, AllRoomy, Latest, Entries;
    FrameHolds(env, segments, p, config, frames, k, o, id);
    HeldIsLatest(env, segments, p, config, frames, k, id);
  }

  lemma LastIsShown(env: Env, segments: seq<Segment>, p: Probe, config: RetrievalConfig, frames: seq<Frame>, k: nat, o: nat, id: u128)
    requires AllAnswer(env, segments, p, config, frames) && AllRoomy(env, segments, p, config) && LastFound(env, segments, p, config, k, o, id)
    ensures ShownAs(frames, segments[k].capsules[o])
  {
    hide Latest, Entries, Searched, Eligible, AllAnswer, AllRoomy, Holds;
    FoundIsShown(env, segments, p, config, frames, k, o, id);
    var k', o' := ShownVersion(env, segments, p, config, frames, id);
    ShownIsFound(env, segments, p, config, frames, k', o', id);
    SameCopy(env, segments, p, config, k, o, o', id);
  }

  lemma SameCopy(env: Env, segments: seq<Segment>, p: Probe, config: RetrievalConfig, k: nat, o: nat, q: nat, id: u128)
    requires AllRoomy(env, segments, p, config) && CopyAt(segments, k, o, id)
    ensures CopyAt(segments, k, q, id) ==> q == o
  {
    hide Roomy;
    assert segments[k] in segments;
  }

  lemma HeldIsLatest(env: Env, segments: seq<Segment>, p: Probe, config: RetrievalConfig, frames: seq<Frame>, k: nat, id: u128)
    requires AllAnswer(env, segments, p, config, frames) && k < |segments| && Holds(frames[k], id)
    ensures id in Latest(Entries(frames))
  {
    hide Latest, Entries, Answers;
    EntriesHeld(frames);
    LatestEntries(Entries(frames));
    var f :| f in frames[k].capsules && f.id == id;
    assert f in Entries(frames);
  }

  ghost predicate EligibleAt(segments: seq<Segment>, p: Probe, k: nat, o: nat, id: u128) {
    CopyAt(segments, k, o, id) && o in Eligible(segments[k].capsules, p)
  }

  /** `k`, `o` is the last place the id is eligible in. */
  ghost predicate LastEligible(segments: seq<Segment>, p: Probe, k: nat, o: nat, id: u128) {
    EligibleAt(segments, p, k, o, id) && forall j: nat, q: nat :: j > k ==> !EligibleAt(segments, p, j, q, id)
  }

  /** Every eligible copy of the id is one the search reaches. */
  ghost predicate Findable(env: Env, segments: seq<Segment>, p: Probe, config: RetrievalConfig, id: u128) {
    forall k: nat, o: nat :: EligibleAt(segments, p, k, o, id) ==> Reachable(env, segments[k].capsules, o, p, config)
  }

  lemma FoundIffEligible(env: Env, segments: seq<Segment>, p: Probe, config: RetrievalConfig, k: nat, o: nat, id: u128)
    requires Findable(env, segments, p, config, id)
    ensures FoundAt(env, segments, p, config, k, o, id) <==> EligibleAt(segments, p, k, o, id)
  {
    hide Eligible, Searched, Reachable;
    if CopyAt(segments, k, o, id) { SearchedIsEligible(env, segments[k].capsules, p, config); }
  }

  /** Of findable copies, the last eligible one is shown: gates run segment by segment. */
  lemma LastEligibleShown(env: Env, segments: seq<Segment>, p: Probe, config: RetrievalConfig, frames: seq<Frame>, k: nat, o: nat, id: u128)
    requires AllAnswer(env, segments, p, config, frames) && AllRoomy(env, segments, p, config)
    requires Findable(env, segments, p, config, id) && LastEligible(segments, p, k, o, id)
    ensures ShownAs(frames, segments[k].capsules[o])
  {
    hide AllAnswer, AllRoomy, Findable, FoundAt, EligibleAt, ShownAs;
    FoundIffEligible(env, segments, p, config, k, o, id);
    forall j: nat, q: nat | j > k ensures !FoundAt(env, segments, p, config, j, q, id) {
      FoundIffEligible(env, segments, p, config, j, q, id);
    }
    LastIsShown(env, segments, p, config, frames, k, o, id);
  }

  /** `k`, `o` is the newest copy of the id. */
  ghost predicate Newest(segments: seq<Segment>, k: nat, o: nat, id: u128) {
    CopyAt(segments, k, o, id) && forall j: nat, q: nat :: j > k ==> !CopyAt(segments, j, q, id)
  }

  /**
   The newest copy is the one its own segment answers with exactly when it is eligible there. When
   it is, it is shown; when it is not, an older copy is shown if one is eligible, and otherwise none is.
   */
  lemma NewestShownIffEligible(env: Env, segments: seq<Segment>, p: Probe, config: RetrievalConfig, frames: seq<Frame>, k: nat, o: nat, id: u128)
    requires AllAnswer(env, segments, p, config, frames) && AllRoomy(env, segments, p, config)
    requires Findable(env, segments, p, config, id) && Newest(segments, k, o, id)
    ensures Holds(frames[k], id) <==> EligibleAt(segments, p, k, o, id)
    ensures EligibleAt(segments, p, k, o, id) ==> ShownAs(frames, segments[k].capsules[o])
    ensures !EligibleAt(segments, p, k, o, id) ==>
      forall j: nat, q: nat :: LastEligible(segments, p, j, q, id) ==> j < k && ShownAs(frames, segments[j].capsules[q])
    ensures id in Latest(Entries(frames)) <==> exists j: nat, q: nat :: EligibleAt(segments, p, j, q, id)
  {
    hide AllAnswer, AllRoomy, Findable, FoundAt, Eligible, ShownAs, Latest, Entries, Holds;
    FrameHolds(env, segments, p, config, frames, k, o, id);
    FoundIffEligible(env, segments, p, config, k, o, id);
    if EligibleAt(segments, p, k, o, id) {
      LastEligibleShown(env, segments, p, config, frames, k, o, id);
    }
    forall j: nat, q: nat | LastEligible(segments, p, j, q, id) ensures ShownAs(frames, segments[j].capsules[q]) {
      LastEligibleShown(env, segments, p, config, frames, j, q, id);
    }
    forall j: nat, q: nat | LastEligible(segments, p, j, q, id) && !EligibleAt(segments, p, k, o, id) ensures j < k {
      if j == k { SameCopy(env, segments, p, config, k, o, q, id); }
    }
    VersionShown(env, segments, p, config, frames, id);
    forall j: nat, q: nat ensures FoundAt(env, segments, p, config, j, q, id) <==> EligibleAt(segments, p, j, q, id) {
      FoundIffEligible(env, segments, p, config, j, q, id);
    }
  }

  // ---------------------------------------------------------------- the newest copy is the live one

  ghost predicate HoldsId(cs: seq<Capsule>, id: u128) {
    exists c :: c in cs && c.id == id
  }

  lemma NotHeld(cs: seq<Capsule>, id: u128)
    requires !HoldsId(cs, id)
    ensures id !in ViewOf(cs)
  {
    hide ViewOf;
    ViewKeys(cs);
  }

  lemma HeldOnce(cs: seq<Capsule>, c: Capsule)
    requires DistinctIds(cs) && c in cs
    ensures c.id in ViewOf(cs) && ViewOf(cs)[c.id] == c
  {
    hide ViewOf;
    ViewOfDistinct(cs);
  }

  /** The last run holding an id decides what the runs show. */
  lemma {:induction false} LastRunDecides(runs: seq<Segment>, k: nat, c: Capsule)
    requires k < |runs| && c in runs[k].capsules && DistinctIds(runs[k].capsules)
    requires forall j :: k < j < |runs| ==> !HoldsId(runs[j].capsules, c.id)
    ensures c.id in ViewOf(NewestFirst(runs)) && ViewOf(NewestFirst(runs))[c.id] == c
    decreases |runs|
  {
    hide ViewOf, HoldsId;
    var front, last := runs[..|runs| - 1], runs[|runs| - 1];
    ViewConcat(last.capsules, NewestFirst(front));
    if k == |runs| - 1 {
      HeldOnce(last.capsules, c);
    } else {
      NotHeld(last.capsules, c.id);
      LastRunDecides(front, k, c);
    }
  }

  /** When one base segment alone holds an id, that one decides what the base shows. */
  lemma {:induction false} OnlyBaseDecides(base: seq<Segment>, k: nat, c: Capsule)
    requires k < |base| && c in base[k].capsules && DistinctIds(base[k].capsules)
    requires forall j :: 0 <= j < |base| && j != k ==> !HoldsId(base[j].capsules, c.id)
    ensures c.id in ViewOf(Flatten(base)) && ViewOf(Flatten(base))[c.id] == c
  {
    hide ViewOf, HoldsId;
    ViewConcat(base[0].capsules, Flatten(base[1..]));
    if k == 0 {
      HeldOnce(base[0].capsules, c);
    } else {
      NotHeld(base[0].capsules, c.id);
      OnlyBaseDecides(base[1..], k - 1, c);
    }
  }

  lemma {:induction false} RunsNotHeld(runs: seq<Segment>, id: u128)
    requires forall j :: 0 <= j < |runs| ==> !HoldsId(runs[j].capsules, id)
    ensures id !in ViewOf(NewestFirst(runs))
    decreases |runs|
  {
    hide ViewOf, HoldsId;
    if runs == [] {
      NothingShown();
    } else {
      var front, last := runs[..|runs| - 1], runs[|runs| - 1];
      ViewConcat(last.capsules, NewestFirst(front));
      NotHeld(last.capsules, id);
      RunsNotHeld(front, id);
    }
  }

  lemma NothingShown()
    ensures ViewOf([]) == map[] && NewestFirst([]) == []
  {
  }

  /** No copy of the id stands behind segment `k`. */
  lemma NoLaterCopy(segments: seq<Segment>, k: nat, o: nat, id: u128, j: nat)
    requires Newest(segments, k, o, id) && k < j < |segments|
    ensures !HoldsId(segments[j].capsules, id)
  {
    if c :| c in segments[j].capsules && c.id == id {
      var q: nat :| q < |segments[j].capsules| && segments[j].capsules[q] == c;
      assert CopyAt(segments, j, q, id);
    }
  }

  /**
   Base, runs, buffer is oldest to newest: unless two base segments share the id, the newest copy the
   query looks at is the live version. So a query shows the live version exactly when it shows that copy.
   */
  lemma NewestIsLive(store: MemoryStore, k: nat, o: nat, id: u128)
    requires store.Valid() && store.Indexed() && id !in store.tombstones && Newest(LiveSegments(store), k, o, id)
    requires forall i, j :: 0 <= i < j < |store.segments| ==> !HoldsId(store.segments[i].capsules, id) || !HoldsId(store.segments[j].capsules, id)
    ensures id in store.Tiers().View() && store.Tiers().View()[id] == LiveSegments(store)[k].capsules[o]
  {
    hide ViewOf, HoldsId, Flatten, NewestFirst, Newest, IdSet;
    var live := LiveSegments(store);
    NewestCopy(live, k, o, id);
    var c := live[k].capsules[o];
    forall j: nat | k < j < |live| ensures !HoldsId(live[j].capsules, id) { NoLaterCopy(live, k, o, id, j); }
    ViewConcat(store.delta + NewestFirst(store.sealedDeltas), Flatten(store.segments));
    ViewConcat(store.delta, NewestFirst(store.sealedDeltas));
    var base, runs := |store.segments|, |store.sealedDeltas|;
    if k >= base + runs {
      HeldOnce(store.delta, c);
    } else {
      DeltaNotHeld(store, k, id);
      if k >= base {
        forall j | k - base < j < runs ensures !HoldsId(store.sealedDeltas[j].capsules, id) { assert live[base + j] == store.sealedDeltas[j]; }
        LastRunDecides(store.sealedDeltas, k - base, c);
      } else {
        forall j | 0 <= j < runs ensures !HoldsId(store.sealedDeltas[j].capsules, id) { assert live[base + j] == store.sealedDeltas[j]; }
        RunsNotHeld(store.sealedDeltas, id);
        HeldBy(store.segments[k].capsules, c);
        OnlyBaseDecides(store.segments, k, c);
      }
    }
  }

  lemma NewestCopy(segments: seq<Segment>, k: nat, o: nat, id: u128)
    requires Newest(segments, k, o, id)
    ensures CopyAt(segments, k, o, id)
  {
  }

  lemma HeldBy(cs: seq<Capsule>, c: Capsule)
    requires c in cs
    ensures HoldsId(cs, c.id)
  {
  }

  lemma DeltaNotHeld(store: MemoryStore, k: nat, id: u128)
    requires store.Indexed() && k < |store.segments| + |store.sealedDeltas|
    requires forall j: nat :: k < j < |LiveSegments(store)| ==> !HoldsId(LiveSegments(store)[j].capsules, id)
    ensures id !in ViewOf(store.delta)
  {
    hide ViewOf, HoldsId;
    if store.delta == [] {
      NothingShown();
    } else {
      var n := |store.segments| + |store.sealedDeltas|;
      assert LiveSegments(store)[n].capsules == store.delta;
      NotHeld(store.delta, id);
    }
  }

  // ---------------------------------------------------------------- a stale answer

  /** A capsule differing from its other versions in trust alone. */
  function Sample(trust: byte): Capsule {
    Capsule(1, 0, [], [], 0, None, Zeros(32), [0, 0, 0, 0], seq(64, _ => 0), [], [], [], 0, None, 0, 0, 1, 1, trust, 0, 0, [], Zeros(32))
  }

  /** A probe that asks for some trust. */
  function SampleProbe(): Probe {
    Probe(0, 0, 1, 1, 1, [0, 0, 0, 0], [], [], [], false, false, 0, 1, 100)
  }

  lemma SampleEligible(trust: byte)
    ensures Eligible([Sample(trust)], SampleProbe()) == if trust >= 1 then {0} else {}
  {
    assert And(1, 1) == 1;
    var cs, p := [Sample(trust)], SampleProbe();
    assert !Superseded(cs, 0, p);
    forall o: nat ensures o in Eligible(cs, p) <==> o == 0 && trust >= 1 {}
  }

  /** The base holds a trusted version, the buffer a newer one that is not: the older is all that is shown. */
  lemma StaleVersionShown(env: Env, segments: seq<Segment>, config: RetrievalConfig, frames: seq<Frame>)
    requires config.maxScored >= 1 && |segments| == 2 && segments[0].capsules == [Sample(5)] && segments[1].capsules == [Sample(0)]
    requires AllAnswer(env, segments, SampleProbe(), config, frames)
    ensures Latest(Entries(frames)).Keys == {1} && Shows(Latest(Entries(frames))[1], Sample(5))
  {
    hide Latest, Entries, Eligible, ConflictsOk, Complete;
    SampleEligible(5);
    SampleEligible(0);
    assert Answers(env, segments[0], SampleProbe(), config, frames[0]) && Answers(env, segments[1], SampleProbe(), config, frames[1]);
    var f := frames[0].capsules[0];
    assert f in frames[0].capsules;
    LastHolderWins(frames, 0, f);
    forall id | id in Latest(Entries(frames)) ensures id == 1 {
      var k, o := ShownVersion(env, segments, SampleProbe(), config, frames, id);
    }
  }
}
