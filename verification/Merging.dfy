/** Combining the answers of several segments: newest frame wins per id, best entry wins per source. */
module Merging {
  import opened Results
  import opened Maps
  import opened Sorting
  import opened Selection
  import opened Retrieve

  /** `compare_frame_capsules`: best score first; trust, then the later start of validity, break ties. */
  predicate FrameLeq(a: FrameCapsule, b: FrameCapsule) {
    a.score > b.score
    || (a.score == b.score
        && (a.trustLevel > b.trustLevel || (a.trustLevel == b.trustLevel && a.validFrom >= b.validFrom)))
  }

  lemma FrameLeqIsPreorder()
    ensures TotalPreorder(FrameLeq)
  {
  }

  function Top(pool: seq<FrameCapsule>, limit: nat): seq<FrameCapsule> {
    Take(SortBy(pool, FrameLeq), limit)
  }

  /** Sort then truncate keeps the best: nothing dropped precedes anything kept. */
  lemma TopIsBest(pool: seq<FrameCapsule>, limit: nat)
    ensures var out := Top(pool, limit);
            && |out| == (if |pool| <= limit then |pool| else limit) && SortedBy(out, FrameLeq)
            && (forall f :: f in out ==> f in pool)
            && (forall f, g :: f in pool && f !in out && g in out ==> FrameLeq(g, f))
  {
    var sorted, out := SortBy(pool, FrameLeq), Top(pool, limit);
    FrameLeqIsPreorder();
    SortElements(pool, FrameLeq);
    SortSorts(pool, FrameLeq);
    forall f, g | f in pool && f !in out && g in out ensures FrameLeq(g, f) {
      var i :| 0 <= i < |sorted| && sorted[i] == f;
      var j :| 0 <= j < |out| && out[j] == g;
      assert i >= limit && sorted[j] == g;
    }
  }

  /** A key no two entries of the pool share is shared by no two entries kept. */
  lemma TopKeepsDistinct<K>(pool: seq<FrameCapsule>, limit: nat, key: FrameCapsule -> K)
    requires forall i, j :: 0 <= i < j < |pool| ==> key(pool[i]) != key(pool[j])
    ensures var out := Top(pool, limit); forall i, j :: 0 <= i < j < |out| ==> key(out[i]) != key(out[j])
  {
    var sorted := SortBy(pool, FrameLeq);
    SortElements(pool, FrameLeq);
    DistinctPermutation(pool, sorted);
    forall i, j | 0 <= i < j < |sorted| ensures key(sorted[i]) != key(sorted[j]) {
      assert sorted[i] in pool && sorted[j] in pool;
      var a :| 0 <= a < |pool| && pool[a] == sorted[i];
      var b :| 0 <= b < |pool| && pool[b] == sorted[j];
      assert Distinct(pool) by {
        forall i, j | 0 <= i < j < |pool| ensures pool[i] != pool[j] { assert key(pool[i]) != key(pool[j]); }
      }
      assert sorted[i] != sorted[j];
    }
  }

  // ---------------------------------------------------------------- newest frame wins

  /** Entries in the order the frames list them. */
  function Entries(frames: seq<Frame>): seq<FrameCapsule> {
    if frames == [] then [] else Entries(frames[..|frames| - 1]) + frames[|frames| - 1].capsules
  }

  function Conflicts(frames: seq<Frame>): seq<FrameCapsule> {
    if frames == [] then [] else Conflicts(frames[..|frames| - 1]) + frames[|frames| - 1].conflicts
  }

  function Considered(frames: seq<Frame>): nat {
    if frames == [] then 0 else Considered(frames[..|frames| - 1]) + frames[|frames| - 1].candidateCount
  }

  /** The last entry under each id. */
  function Latest(fs: seq<FrameCapsule>): (m: map<u128, FrameCapsule>)
    ensures forall id :: id in m ==> m[id].id == id
  {
    if fs == [] then map[] else Latest(fs[..|fs| - 1])[fs[|fs| - 1].id := fs[|fs| - 1]]
  }

  lemma {:induction false} LatestEntries(fs: seq<FrameCapsule>)
    ensures forall id :: id in Latest(fs) ==> Latest(fs)[id] in fs
    ensures forall f :: f in fs ==> f.id in Latest(fs)
    ensures DistinctFrames(fs) ==> forall f :: f in fs ==> Latest(fs)[f.id] == f
    decreases |fs|
  {
    if fs != [] {
      var front, last := fs[..|fs| - 1], fs[|fs| - 1];
      LatestEntries(front);
      assert fs == front + [last];
    }
  }

  lemma {:induction false} LatestConcat(a: seq<FrameCapsule>, b: seq<FrameCapsule>)
    ensures Latest(a + b) == Latest(a) + Latest(b)
    decreases |b|
  {
    if b == [] {
      assert a + b == a;
    } else {
      var last := b[|b| - 1];
      LatestConcat(a, b[..|b| - 1]);
      assert (a + b)[..|a + b| - 1] == a + b[..|b| - 1];
      UnionUpdate(Latest(a), Latest(b[..|b| - 1]), last.id, last);
    }
  }

  ghost predicate Holds(frame: Frame, id: u128) {
    exists f :: f in frame.capsules && f.id == id
  }

  /** The entry kept for an id is the one of the last frame holding that id. */
  lemma {:induction false} LastHolderWins(frames: seq<Frame>, k: nat, f: FrameCapsule)
    requires k < |frames| && f in frames[k].capsules && DistinctFrames(frames[k].capsules)
    requires forall j :: k < j < |frames| ==> !Holds(frames[j], f.id)
    ensures f.id in Latest(Entries(frames)) && Latest(Entries(frames))[f.id] == f
    decreases |frames|
  {
    var front, last := frames[..|frames| - 1], frames[|frames| - 1];
    LatestConcat(Entries(front), last.capsules);
    LatestEntries(last.capsules);
    if k < |front| {
      LastHolderWins(front, k, f);
      assert !Holds(last, f.id);
    }
  }

  lemma EntriesHeld(frames: seq<Frame>)
    ensures forall f :: f in Entries(frames) <==> exists k :: 0 <= k < |frames| && f in frames[k].capsules
    ensures forall f :: f in Conflicts(frames) <==> exists k :: 0 <= k < |frames| && f in frames[k].conflicts
  {
    hide Entries, Conflicts;
    CapsulesHeld(frames);
    ConflictsHeld(frames);
  }

  lemma {:induction false} CapsulesHeld(frames: seq<Frame>)
    ensures forall f :: f in Entries(frames) <==> exists k :: 0 <= k < |frames| && f in frames[k].capsules
    decreases |frames|
  {
    if frames != [] {
      var front, last := frames[..|frames| - 1], frames[|frames| - 1];
      CapsulesHeld(front);
      forall f | exists k :: 0 <= k < |frames| && f in frames[k].capsules ensures f in Entries(frames) {
        var k :| 0 <= k < |frames| && f in frames[k].capsules;
        if k < |front| { assert f in front[k].capsules; }
      }
      forall f | f in Entries(frames) ensures exists k :: 0 <= k < |frames| && f in frames[k].capsules {
        if f in Entries(front) {
          var k :| 0 <= k < |front| && f in front[k].capsules;
          assert f in frames[k].capsules;
        } else {
          assert f in frames[|frames| - 1].capsules;
        }
      }
    }
  }

  lemma {:induction false} ConflictsHeld(frames: seq<Frame>)
    ensures forall f :: f in Conflicts(frames) <==> exists k :: 0 <= k < |frames| && f in frames[k].conflicts
    decreases |frames|
  {
    if frames != [] {
      var front, last := frames[..|frames| - 1], frames[|frames| - 1];
      ConflictsHeld(front);
      forall f | exists k :: 0 <= k < |frames| && f in frames[k].conflicts ensures f in Conflicts(frames) {
        var k :| 0 <= k < |frames| && f in frames[k].conflicts;
        if k < |front| { assert f in front[k].conflicts; }
      }
      forall f | f in Conflicts(frames) ensures exists k :: 0 <= k < |frames| && f in frames[k].conflicts {
        if f in Conflicts(front) {
          var k :| 0 <= k < |front| && f in front[k].conflicts;
          assert f in frames[k].conflicts;
        } else {
          assert f in frames[|frames| - 1].conflicts;
        }
      }
    }
  }

  /** The merge under way: one slot per id, holding the latest entry seen under it. */
  ghost predicate MergeState(slots: seq<FrameCapsule>, slotOf: map<u128, nat>, seen: seq<FrameCapsule>) {
    && SlotsInRange(slots, slotOf)
    && (forall i :: 0 <= i < |slots| ==> slots[i].id in slotOf && slotOf[slots[i].id] == i)
    && SlotMap(slots, slotOf) == Latest(seen)
  }

  lemma MergeOne(slots: seq<FrameCapsule>, slotOf: map<u128, nat>, seen: seq<FrameCapsule>, f: FrameCapsule)
    requires MergeState(slots, slotOf, seen)
    ensures f.id in slotOf ==> MergeState(slots[slotOf[f.id] := f], slotOf, seen + [f])
    ensures f.id !in slotOf ==> MergeState(slots + [f], slotOf[f.id := |slots|], seen + [f])
  {
    assert (seen + [f])[..|seen|] == seen;
    if f.id in slotOf {
      forall id | id in slotOf ensures slots[slotOf[id]].id == id { assert SlotMap(slots, slotOf)[id].id == id; }
      SlotReplaced(slots, slotOf, f.id, f);
    } else {
      SlotAdded(slots, slotOf, f.id, f);
    }
  }

  lemma MergedSlots(slots: seq<FrameCapsule>, slotOf: map<u128, nat>, seen: seq<FrameCapsule>)
    requires MergeState(slots, slotOf, seen)
    ensures DistinctFrames(slots)
    ensures forall f :: f in slots <==> f.id in Latest(seen) && Latest(seen)[f.id] == f
  {
    forall f: FrameCapsule | f.id in Latest(seen) && Latest(seen)[f.id] == f ensures f in slots {
      assert SlotMap(slots, slotOf)[f.id] == f;
    }
    forall f | f in slots ensures f.id in Latest(seen) && Latest(seen)[f.id] == f {
      var i :| 0 <= i < |slots| && slots[i] == f;
      assert SlotMap(slots, slotOf)[f.id] == f;
    }
  }

  /** `out` is the best `limit` of the latest entries. */
  ghost predicate BestLatest(out: seq<FrameCapsule>, latest: map<u128, FrameCapsule>, limit: nat) {
    && |out| <= limit && DistinctFrames(out) && SortedBy(out, FrameLeq)
    && (forall f :: f in out ==> f.id in latest && latest[f.id] == f)
    && (forall id :: id in latest && latest[id] !in out ==> |out| == limit && forall g :: g in out ==> FrameLeq(g, latest[id]))
  }

  function FrameId(f: FrameCapsule): u128 {
    f.id
  }

  /** `merge_frames`. */
  method MergeFrames(frames: seq<Frame>, limit: nat) returns (merged: Frame)
    ensures BestLatest(merged.capsules, Latest(Entries(frames)), limit)
    ensures merged.conflicts == Conflicts(frames) && merged.candidateCount == Considered(frames)
    ensures forall k :: 0 <= k < |frames| ==> frames[k].epoch <= merged.epoch
    ensures merged.epoch == 0 || exists k :: 0 <= k < |frames| && merged.epoch == frames[k].epoch
  {
    hide Latest, MergeState, BestLatest, FrameLeq;
    var slotOf: map<u128, nat> := map[];
    var slots: seq<FrameCapsule> := [];
    var conflicts: seq<FrameCapsule> := [];
    var epoch: u64 := 0;
    var count: nat := 0;
    NothingMerged();
    for k := 0 to |frames|
      invariant MergeState(slots, slotOf, Entries(frames[..k])) && conflicts == Conflicts(frames[..k])
      invariant count == Considered(frames[..k])
      invariant forall j :: 0 <= j < k ==> frames[j].epoch <= epoch
      invariant epoch == 0 || exists j :: 0 <= j < k && epoch == frames[j].epoch
    {
      assert frames[..k + 1][..k] == frames[..k];
      if frames[k].epoch > epoch { epoch := frames[k].epoch; }
      conflicts := conflicts + frames[k].conflicts;
      count := count + frames[k].candidateCount;
      slots, slotOf := Overlay(slots, slotOf, Entries(frames[..k]), frames[k].capsules);
    }
    assert frames[..|frames|] == frames;
    MergedSlots(slots, slotOf, Entries(frames));
    SortedTop(slots, Latest(Entries(frames)), limit);
    assert Top(slots, limit) == Take(SortBy(slots, FrameLeq), limit);
    merged := Frame(epoch, Take(SortBy(slots, FrameLeq), limit), conflicts, count);
  }

  lemma NothingMerged()
    ensures MergeState([], map[], [])
  {
  }

  lemma SortedTop(slots: seq<FrameCapsule>, latest: map<u128, FrameCapsule>, limit: nat)
    requires DistinctFrames(slots) && (forall f :: f in slots <==> f.id in latest && latest[f.id] == f)
    requires forall id :: id in latest ==> latest[id].id == id
    ensures BestLatest(Top(slots, limit), latest, limit)
  {
    hide Top;
    TopIsBest(slots, limit);
    TopKeepsDistinct(slots, limit, FrameId);
    var out := Top(slots, limit);
    forall i, j | 0 <= i < j < |out| ensures out[i].id != out[j].id { assert FrameId(out[i]) != FrameId(out[j]); }
    forall id | id in latest && latest[id] !in out ensures |out| == limit { assert latest[id] in slots; TopAll(slots, limit); }
  }

  lemma TopAll(pool: seq<FrameCapsule>, limit: nat)
    ensures |Top(pool, limit)| < limit ==> forall f :: f in pool ==> f in Top(pool, limit)
  {
    SortElements(pool, FrameLeq);
  }

  method Overlay(slots: seq<FrameCapsule>, slotOf: map<u128, nat>, ghost seen: seq<FrameCapsule>, fs: seq<FrameCapsule>)
    returns (slots': seq<FrameCapsule>, slotOf': map<u128, nat>)
    requires MergeState(slots, slotOf, seen)
    ensures MergeState(slots', slotOf', seen + fs)
  {
    slots', slotOf' := slots, slotOf;
    assert seen + fs[..0] == seen;
    for i := 0 to |fs|
      invariant MergeState(slots', slotOf', seen + fs[..i])
    {
      var f := fs[i];
      assert seen + fs[..i + 1] == (seen + fs[..i]) + [f];
      MergeOne(slots', slotOf', seen + fs[..i], f);
      if f.id in slotOf' {
        slots' := slots'[slotOf'[f.id] := f];
      } else {
        slotOf' := slotOf'[f.id := |slots'|];
        slots' := slots' + [f];
      }
    }
    assert fs[..|fs|] == fs;
  }

  // ---------------------------------------------------------------- best entry per source

  /** The first entry of the source with the highest score. */
  function Best(fs: seq<FrameCapsule>, source: u64): Option<FrameCapsule> {
    if fs == [] then None
    else
      var before, last := Best(fs[..|fs| - 1], source), fs[|fs| - 1];
      if last.sourceId == source && (before.None? || last.score > before.value.score) then Some(last) else before
  }

  function Support(fs: seq<FrameCapsule>, source: u64): nat {
    if fs == [] then 0
    else Support(fs[..|fs| - 1], source) + if fs[|fs| - 1].sourceId == source then 1 else 0
  }

  lemma {:induction false} BestIsHighest(fs: seq<FrameCapsule>, source: u64)
    ensures Best(fs, source).Some? <==> exists f :: f in fs && f.sourceId == source
    ensures Best(fs, source).Some? ==> Best(fs, source).value in fs && Best(fs, source).value.sourceId == source
    ensures Best(fs, source).Some? ==> forall f :: f in fs && f.sourceId == source ==> f.score <= Best(fs, source).value.score
    ensures Best(fs, source).Some? <==> Support(fs, source) >= 1
    decreases |fs|
  {
    if fs != [] {
      var front, last := fs[..|fs| - 1], fs[|fs| - 1];
      BestIsHighest(front, source);
      assert fs == front + [last];
      if last.sourceId == source { assert last in fs; }
    }
  }

  /** The entry a source is shown by: its best, rewarded for every further entry of that source. */
  function Boosted(fs: seq<FrameCapsule>, source: u64): FrameCapsule
    requires Best(fs, source).Some?
  {
    var best := Best(fs, source).value;
    best.(score := best.score + (if Support(fs, source) >= 1 then Support(fs, source) - 1 else 0) as real * 0.03)
  }

  function Source(f: FrameCapsule): u64 {
    f.sourceId
  }

  /** One entry per source, best first, and every source is there unless the limit cut it off. */
  ghost predicate Aggregated(fs: seq<FrameCapsule>, limit: nat, out: seq<FrameCapsule>) {
    && |out| <= limit && SortedBy(out, FrameLeq)
    && (forall i, j :: 0 <= i < j < |out| ==> out[i].sourceId != out[j].sourceId)
    && (forall f :: f in out ==> Best(fs, f.sourceId).Some? && f == Boosted(fs, f.sourceId))
    && (forall g :: g in fs ==> Best(fs, g.sourceId).Some?)
    && (forall g :: g in fs && Boosted(fs, g.sourceId) !in out ==>
          |out| == limit && forall f :: f in out ==> FrameLeq(f, Boosted(fs, g.sourceId)))
  }

  ghost predicate GroupedBy(fs: seq<FrameCapsule>, grouped: map<u64, FrameCapsule>, counts: map<u64, nat>) {
    && grouped.Keys == counts.Keys
    && (forall s: u64 :: s in grouped <==> Best(fs, s).Some?)
    && (forall s :: s in grouped ==> Best(fs, s) == Some(grouped[s]) && counts[s] == Support(fs, s))
  }

  method GroupBySource(fs: seq<FrameCapsule>) returns (grouped: map<u64, FrameCapsule>, counts: map<u64, nat>)
    ensures GroupedBy(fs, grouped, counts)
  {
    grouped, counts := map[], map[];
    for i := 0 to |fs|
      invariant GroupedBy(fs[..i], grouped, counts)
    {
      var f := fs[i];
      assert fs[..i + 1][..i] == fs[..i];
      BestIsHighest(fs[..i], f.sourceId);
      counts := counts[f.sourceId := (if f.sourceId in counts then counts[f.sourceId] else 0) + 1];
      if f.sourceId !in grouped || f.score > grouped[f.sourceId].score {
        grouped := grouped[f.sourceId := f];
      }
    }
    assert fs[..|fs|] == fs;
  }

  /** `into_values`: the groups in any order. */
  lemma GroupEntry(fs: seq<FrameCapsule>, grouped: map<u64, FrameCapsule>, counts: map<u64, nat>, s: u64)
    requires GroupedBy(fs, grouped, counts) && s in grouped
    ensures var raise := (if counts[s] >= 1 then counts[s] - 1 else 0) as real * 0.03;
            Boosted(fs, s) == grouped[s].(score := grouped[s].score + raise) && Boosted(fs, s).sourceId == s
  {
    hide Best, Support;
    BestIsHighest(fs, s);
  }

  method ListGroups(fs: seq<FrameCapsule>, grouped: map<u64, FrameCapsule>, counts: map<u64, nat>) returns (pool: seq<FrameCapsule>)
    requires GroupedBy(fs, grouped, counts)
    ensures forall i, j :: 0 <= i < j < |pool| ==> pool[i].sourceId != pool[j].sourceId
    ensures forall f :: f in pool ==> Best(fs, f.sourceId).Some? && f == Boosted(fs, f.sourceId)
    ensures forall s: u64 :: Best(fs, s).Some? ==> Boosted(fs, s) in pool
  {
    hide Best, Support, Boosted;
    pool := [];
    var remaining := grouped.Keys;
    while remaining != {}
      invariant remaining <= grouped.Keys
      invariant forall i :: 0 <= i < |pool| ==> pool[i].sourceId in grouped && pool[i].sourceId !in remaining
      invariant forall i, j :: 0 <= i < j < |pool| ==> pool[i].sourceId != pool[j].sourceId
      invariant forall i :: 0 <= i < |pool| ==> pool[i] == Boosted(fs, pool[i].sourceId)
      invariant forall s :: s in grouped && s !in remaining ==> Boosted(fs, s) in pool
      decreases remaining
    {
      var s :| s in remaining;
      GroupEntry(fs, grouped, counts, s);
      var support := counts[s];
      pool := pool + [grouped[s].(score := grouped[s].score + (if support >= 1 then support - 1 else 0) as real * 0.03)];
      remaining := remaining - {s};
    }
  }

  /** `aggregate_frame_capsules`. */
  method AggregateFrames(fs: seq<FrameCapsule>, limit: nat) returns (out: seq<FrameCapsule>)
    ensures Aggregated(fs, limit, out)
    ensures out == [] <==> limit == 0 || fs == []
  {
    var grouped, counts := GroupBySource(fs);
    var pool := ListGroups(fs, grouped, counts);
    out := Take(SortBy(pool, FrameLeq), limit);
    assert out == Top(pool, limit);
    TopAggregated(fs, pool, limit);
  }

  lemma TopAggregated(fs: seq<FrameCapsule>, pool: seq<FrameCapsule>, limit: nat)
    requires forall i, j :: 0 <= i < j < |pool| ==> pool[i].sourceId != pool[j].sourceId
    requires forall f :: f in pool ==> Best(fs, f.sourceId).Some? && f == Boosted(fs, f.sourceId)
    requires forall s: u64 :: Best(fs, s).Some? ==> Boosted(fs, s) in pool
    ensures Aggregated(fs, limit, Top(pool, limit))
    ensures Top(pool, limit) == [] <==> limit == 0 || fs == []
  {
    hide Top, Best, Boosted, FrameLeq;
    TopIsBest(pool, limit);
    TopAll(pool, limit);
    TopKeepsDistinct(pool, limit, Source);
    var out := Top(pool, limit);
    forall i, j | 0 <= i < j < |out| ensures out[i].sourceId != out[j].sourceId { assert Source(out[i]) != Source(out[j]); }
    forall g | g in fs ensures Best(fs, g.sourceId).Some? { BestIsHighest(fs, g.sourceId); }
    if fs != [] {
      assert fs[0] in fs && Boosted(fs, fs[0].sourceId) in pool;
    } else if pool != [] {
      assert pool[0] in pool;
      BestIsHighest(fs, pool[0].sourceId);
    }
  }

  /** Aggregation changes scores only: every entry is the best of its source, and distinct ids stay distinct. */
  lemma AggregatedShows(fs: seq<FrameCapsule>, limit: nat, out: seq<FrameCapsule>)
    requires Aggregated(fs, limit, out)
    ensures forall f :: f in out ==> exists g :: g in fs && f == g.(score := f.score) && f.score >= g.score
    ensures DistinctFrames(fs) ==> DistinctFrames(out)
  {
    forall f | f in out ensures exists g :: g in fs && f == g.(score := f.score) && f.score >= g.score {
      BestIsHighest(fs, f.sourceId);
      var g := Best(fs, f.sourceId).value;
      assert g in fs && f == g.(score := f.score);
    }
    if DistinctFrames(fs) {
      forall i, j | 0 <= i < j < |out| ensures out[i].id != out[j].id {
        assert out[i] in out && out[j] in out;
        var g :| g in fs && out[i] == g.(score := out[i].score);
        var h :| h in fs && out[j] == h.(score := out[j].score);
        assert g.sourceId != h.sourceId;
      }
    }
  }

  // ---------------------------------------------------------------- aggregation in full

  predicate FromSource(fs: seq<FrameCapsule>, source: u64, i: nat) {
    i < |fs| && fs[i].sourceId == source
  }

  /** The places of a source's entries. */
  function EntriesOf(fs: seq<FrameCapsule>, source: u64): (s: set<nat>)
    ensures forall i: nat :: i in s <==> FromSource(fs, source, i)
  {
    set i: nat | 0 <= i < |fs| && FromSource(fs, source, i)
  }

  lemma {:induction false} SupportCounts(fs: seq<FrameCapsule>, source: u64)
    ensures Support(fs, source) == |EntriesOf(fs, source)|
    decreases |fs|
  {
    if fs == [] {
      assert EntriesOf(fs, source) == {};
    } else {
      var n := |fs| - 1;
      SupportCounts(fs[..n], source);
      if fs[n].sourceId == source {
        assert EntriesOf(fs, source) == EntriesOf(fs[..n], source) + {n};
      } else {
        assert EntriesOf(fs, source) == EntriesOf(fs[..n], source);
      }
    }
  }

  /** `fs[i]` is the first of the highest-scoring entries of its source. */
  ghost predicate Leading(fs: seq<FrameCapsule>, i: nat) {
    && i < |fs|
    && (forall j: nat :: FromSource(fs, fs[i].sourceId, j) ==> fs[j].score <= fs[i].score)
    && forall j: nat :: j < i && FromSource(fs, fs[i].sourceId, j) ==> fs[j].score < fs[i].score
  }

  lemma {:induction false} BestIsLeading(fs: seq<FrameCapsule>, source: u64) returns (i: nat)
    requires Best(fs, source).Some?
    ensures Leading(fs, i) && fs[i] == Best(fs, source).value && fs[i].sourceId == source
    decreases |fs|
  {
    var n := |fs| - 1;
    var front := fs[..n];
    BestIsHighest(front, source);
    if fs[n].sourceId == source && (Best(front, source).None? || fs[n].score > Best(front, source).value.score) {
      i := n;
      forall j: nat | FromSource(fs, source, j) && j < n ensures fs[j].score < fs[n].score { assert front[j] in front; }
    } else {
      i := BestIsLeading(front, source);
      forall j: nat | FromSource(fs, source, j) ensures fs[j].score <= fs[i].score {
        if j < n { assert FromSource(front, source, j); }
      }
      forall j: nat | j < i && FromSource(fs, source, j) ensures fs[j].score < fs[i].score { assert FromSource(front, source, j); }
    }
  }

  /** `f` stands for its source: the leading entry, raised by three hundredths for each other entry of the source. */
  ghost predicate StandsFor(fs: seq<FrameCapsule>, f: FrameCapsule, i: nat) {
    Leading(fs, i) && fs[i].sourceId == f.sourceId
    && f == fs[i].(score := fs[i].score + (|EntriesOf(fs, f.sourceId)| - 1) as real * 0.03)
  }

  /** One entry per source, standing for it; a source goes unseen only when the limit is used up. */
  lemma AggregatedMeans(fs: seq<FrameCapsule>, limit: nat, out: seq<FrameCapsule>)
    requires Aggregated(fs, limit, out)
    ensures forall f :: f in out ==> exists i: nat :: StandsFor(fs, f, i)
    ensures forall i, j :: 0 <= i < j < |out| ==> out[i].sourceId != out[j].sourceId
    ensures |out| < limit ==> forall g :: g in fs ==> exists f :: f in out && f.sourceId == g.sourceId
  {
    hide Best, Support, Leading, FrameLeq;
    forall f | f in out ensures exists i: nat :: StandsFor(fs, f, i) {
      BestIsHighest(fs, f.sourceId);
      SupportCounts(fs, f.sourceId);
      var i := BestIsLeading(fs, f.sourceId);
      assert StandsFor(fs, f, i);
    }
    if |out| < limit {
      forall g | g in fs ensures exists f :: f in out && f.sourceId == g.sourceId {
        BestIsHighest(fs, g.sourceId);
        assert Boosted(fs, g.sourceId) in out;
      }
    }
  }
}
