/** What a caller sees, from the writes to the answer. */
module EndToEnd {
  import opened Results
  import opened Capsules
  import opened Index
  import opened Gates
  import opened CandidateSearch
  import opened Retrieve
  import opened Merging
  import opened Lsm
  import opened Store
  import opened Query
  import opened Versions
  import opened Durability

  /**
   Once the deletion of an id is acknowledged, no query in any mode returns it, among the entries or
   the conflicts, after any run that does not insert it again: through seals, compactions,
   checkpoints, crashes, recoveries, and operations that are in flight or have failed.
   */
  method QueryAfterDelete(env: Env, ghost start: State, ghost actions: seq<Action>, id: u128, store: MemoryStore, p: Probe, mode: Mode, config: RetrievalConfig, scoring: Scoring)
    returns (frame: Frame)
    requires Inv(env, start) && Runs(env, start, actions)
    requires id !in start.acked && id !in Promised(start) && forall a :: a in actions ==> !Puts(a, id)
    requires !After(start, actions).phase.Down? && store.Valid() && store.Tiers() == After(start, actions).memory
    requires config.rrfK >= 0.0 && forall s :: s in LiveSegments(store) ==> |s.capsules| <= U32_WRAP
    ensures forall f :: f in frame.capsules || f in frame.conflicts ==> f.id != id
  {
    hide Inv, Runs, After, Promised, Lsm.Tiers.View, Lsm.Tiers.Valid, Disclosed, DisclosedConflict, AllAnswer, Latest, Entries, HighestCopies, Answerable;
    DeletedStaysDeleted(env, start, actions, id);
    ghost var frames, found;
    frame, frames, found := Query.Query(env, store, p, mode, config, scoring);
  }

  /** A trusted base capsule, then a write of it that is not trusted. */
  method Distrusted() returns (store: MemoryStore)
    ensures store.Valid() && store.Tiers().View() == map[1 := Sample(0)] && store.tombstones == {}
    ensures var live := LiveSegments(store); |live| == 2 && live[0].capsules == [Sample(5)] && live[1].capsules == [Sample(0)]
  {
    hide Lsm.Tiers.View, Lsm.Tiers.Valid, InsertStep;
    var base := [Segment(1, 0, [Sample(5)])];
    store := new MemoryStore(base);
    BaseView(store.Tiers());
    SampleInserted(base, store.nextEpoch);
    var r := store.Insert(Sample(0), true);
  }

  lemma BaseView(t: Tiers)
    requires t.delta == [] && t.runs == [] && |t.base| == 1 && t.base[0].capsules == [Sample(5)] && t.tombstones == {}
    ensures t.View() == map[1 := Sample(5)]
  {
    SingleBase(t.base[0]);
    assert t.base == [t.base[0]];
    assert t.Recent() + Flatten(t.base) == [Sample(5)];
    assert [Sample(5)][1..] == [];
  }

  lemma SampleInserted(base: seq<Segment>, epoch: u64)
    ensures InsertStep(Tiers([], [], base, {}, epoch), Sample(0), Lsm.Config(1024, Some(16))) == Tiers([Sample(0)], [], base, {}, epoch)
  {
  }

  /** A write that lowers the trust of a capsule below what the probe asks leaves its old version in the answer. */
  method QueryAfterDistrust(env: Env, config: RetrievalConfig, scoring: Scoring) returns (store: MemoryStore, frame: Frame)
    requires config.maxScored >= 1 && config.rrfK >= 0.0
    ensures store.Tiers().View() == map[1 := Sample(0)]
    ensures exists f :: f in frame.capsules && f.id == 1 && Shows(f, Sample(5)) && !Shows(f, Sample(0))
  {
    hide Disclosed, DisclosedConflict, AllAnswer, Latest, Entries, HighestCopies, Answerable, ShowsEligible, Sample, LiveSegments, Lsm.Tiers.View, FromLatest;
    store := Distrusted();
    ghost var frames, found;
    frame, frames, found := Query.Query(env, store, SampleProbe(), L5m, config, scoring);
    StaleVersionShown(env, LiveSegments(store), config, frames);
    SamplesDiffer(Latest(Entries(frames))[1]);
  }

  lemma SamplesDiffer(f: FrameCapsule)
    requires Shows(f, Sample(5))
    ensures f.id == 1 && !Shows(f, Sample(0))
  {
  }
}
