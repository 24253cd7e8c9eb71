/** The mutable store of `store.rs`: its fields, and every write, compaction and recovery over them. */
module Store {
  import opened Results
  import opened Capsules
  import opened Maps
  import opened Lsm
  import opened WalCodec
  import opened WalFile
  import opened SegmentLayout
  import opened SegmentReader
  import opened SegmentRoundTrip
  import opened SegmentWriter

  function MaxEpoch(segments: seq<Segment>): u64 {
    if segments == [] then 0
    else
      var e := MaxEpoch(segments[..|segments| - 1]);
      if segments[|segments| - 1].epoch > e then segments[|segments| - 1].epoch else e
  }

  /** What the single pass over the log has built so far: slots, and for each live id its slot. */
  ghost predicate FoldState(slots: seq<Capsule>, byId: map<u128, nat>, tombstones: set<u128>, ops: seq<Op>) {
    && (forall id :: id in byId ==> byId[id] < |slots| && slots[byId[id]].id == id)
    && ViewOf(RunDelta(ops).buffer) == SlotMap(slots, byId)
    && tombstones == RunDelta(ops).tombstones
  }

  lemma FoldPut(slots: seq<Capsule>, byId: map<u128, nat>, tombstones: set<u128>, ops: seq<Op>, c: Capsule)
    requires FoldState(slots, byId, tombstones, ops)
    ensures c.id in byId ==> FoldState(slots[byId[c.id] := c], byId, tombstones - {c.id}, ops + [Put(c)])
    ensures c.id !in byId ==> FoldState(slots + [c], byId[c.id := |slots|], tombstones - {c.id}, ops + [Put(c)])
  {
    hide ViewOf, Pushed, RunDelta, SlotMap;
    RunDeltaSnoc(ops, Put(c));
    PushedView(RunDelta(ops).buffer, c);
    if c.id in byId {
      SlotReplaced(slots, byId, c.id, c);
    } else {
      SlotAdded(slots, byId, c.id, c);
    }
  }

  lemma FoldDrop(slots: seq<Capsule>, byId: map<u128, nat>, tombstones: set<u128>, ops: seq<Op>, id: u128)
    requires FoldState(slots, byId, tombstones, ops)
    ensures FoldState(slots, byId - {id}, tombstones + {id}, ops + [Drop(id)])
  {
    hide ViewOf, Without, RunDelta, SlotMap;
    RunDeltaSnoc(ops, Drop(id));
    WithoutView(RunDelta(ops).buffer, id);
    SlotDropped(slots, byId, id);
  }

  /** The canonical slots up to `n`: those their id still points at. */
  function Canonicals(slots: seq<Capsule>, byId: map<u128, nat>, n: nat): seq<Capsule>
    requires n <= |slots|
  {
    if n == 0 then []
    else
      var c := slots[n - 1];
      Canonicals(slots, byId, n - 1) + if c.id in byId && byId[c.id] == n - 1 then [c] else []
  }

  lemma {:induction false} CanonicalElements(slots: seq<Capsule>, byId: map<u128, nat>, n: nat)
    requires n <= |slots|
    ensures forall c :: c in Canonicals(slots, byId, n) <==> c.id in byId && byId[c.id] < n && slots[byId[c.id]] == c
    ensures DistinctIds(Canonicals(slots, byId, n))
  {
    if n > 0 {
      CanonicalElements(slots, byId, n - 1);
      var c := slots[n - 1];
      if c.id in byId && byId[c.id] == n - 1 {
        DistinctSnoc(Canonicals(slots, byId, n - 1), c);
      }
    }
  }

  lemma CanonicalView(slots: seq<Capsule>, byId: map<u128, nat>, tombstones: set<u128>, ops: seq<Op>)
    requires FoldState(slots, byId, tombstones, ops)
    ensures var live := Canonicals(slots, byId, |slots|);
            DistinctIds(live) && ViewOf(live) == ViewOf(RunDelta(ops).buffer)
  {
    hide ViewOf, Canonicals, RunDelta;
    var live := Canonicals(slots, byId, |slots|);
    CanonicalElements(slots, byId, |slots|);
    ViewOfDistinct(live);
    ViewKeys(live);
    var m := SlotMap(slots, byId);
    forall id: u128 ensures SameAt(ViewOf(live), m, id) {
      if id in byId { assert slots[byId[id]] in live; }
      if id in ViewOf(live) { assert ViewOf(live)[id] in live; }
    }
    SamePointwise(ViewOf(live), m);
  }

  /**
   The single-pass replay of `open_durable`, positional map and orphaned slots included.
   It fails exactly when some entry does not decode; otherwise it leaves the same live delta, as a
   map, and the same tombstones as applying the operations one by one.
   */
  method ReplayLog(env: Env, log: seq<WalOp>) returns (r: Result<Delta>)
    ensures r.Ok? <==> DecodeAll(env, log).Ok?
    ensures r.Ok? ==> var d := RunDelta(DecodeAll(env, log).value);
                      && DistinctIds(r.value.buffer) && ViewOf(r.value.buffer) == ViewOf(d.buffer)
                      && r.value.tombstones == d.tombstones && IdSet(r.value.buffer) !! r.value.tombstones
  {
    hide ViewOf, Decode, Canonicals, RunDelta;
    var byId: map<u128, nat> := map[];
    var slots: seq<Capsule> := [];
    var tombstones: set<u128> := {};
    ghost var ops: seq<Op> := [];
    EmptyFold();
    for i := 0 to |log|
      invariant DecodeAll(env, log[..i]) == Ok(ops) && FoldState(slots, byId, tombstones, ops)
    {
      DecodeSnoc(env, log[..i], log[i]);
      assert log[..i + 1] == log[..i] + [log[i]];
      var decoded := Decode(env, log[i]);
      if decoded.Err? {
        DecodePrefixFails(env, log, i + 1);
        return Err(decoded.error);
      }
      match decoded.value {
        case Put(c) =>
          FoldPut(slots, byId, tombstones, ops, c);
          tombstones := tombstones - {c.id};
          if c.id in byId {
            slots := slots[byId[c.id] := c];
          } else {
            byId := byId[c.id := |slots|];
            slots := slots + [c];
          }
        case Drop(id) =>
          FoldDrop(slots, byId, tombstones, ops, id);
          byId := byId - {id};
          tombstones := tombstones + {id};
      }
      ops := ops + [decoded.value];
    }
    assert log[..|log|] == log;
    var live := CollectCanonicals(slots, byId);
    CanonicalView(slots, byId, tombstones, ops);
    ReplayedDisjoint(live, ops);
    return Ok(Delta(live, tombstones));
  }

  lemma EmptyFold()
    ensures FoldState([], map[], {}, [])
  {
  }

  lemma ReplayedDisjoint(live: seq<Capsule>, ops: seq<Op>)
    requires ViewOf(live) == ViewOf(RunDelta(ops).buffer)
    ensures IdSet(live) !! RunDelta(ops).tombstones
  {
    hide ViewOf, RunDelta;
    RunDeltaDistinct(ops);
    ViewKeys(live);
    ViewKeys(RunDelta(ops).buffer);
  }

  lemma {:induction false} DecodePrefixFails(env: Env, log: seq<WalOp>, n: nat)
    requires n <= |log| && DecodeAll(env, log[..n]).Err?
    ensures DecodeAll(env, log).Err?
    decreases |log| - n
  {
    hide Decode;
    if n == |log| {
      assert log[..n] == log;
    } else {
      DecodeSnoc(env, log[..n], log[n]);
      assert log[..n + 1] == log[..n] + [log[n]];
      DecodePrefixFails(env, log, n + 1);
    }
  }

  /** One entry with a lane that is not finite, and no log that holds it opens again. */
  lemma NullLaneStopsOpening(env: Env, before: seq<WalOp>, c: Capsule, after: seq<WalOp>)
    requires !FiniteLanes(c.embedding)
    ensures DecodeAll(env, before + [WalOp.Insert(ToRaw(c))] + after).Err?
  {
    LogRoundTrip(env, c);
    hide ToRaw, IntoCapsule, FiniteLanes;
    var entry := WalOp.Insert(ToRaw(c));
    var log := before + [entry] + after;
    DecodeSnoc(env, before, entry);
    assert log[..|before| + 1] == before + [entry];
    DecodePrefixFails(env, log, |before| + 1);
  }

  method CollectCanonicals(slots: seq<Capsule>, byId: map<u128, nat>) returns (live: seq<Capsule>)
    ensures live == Canonicals(slots, byId, |slots|)
  {
    live := [];
    for pos := 0 to |slots|
      invariant live == Canonicals(slots, byId, pos)
    {
      if slots[pos].id in byId && byId[slots[pos].id] == pos {
        live := live + [slots[pos]];
      }
    }
  }

  // ---------------------------------------------------------------- retain and collect loops

  lemma {:induction false} WithoutSnoc(cs: seq<Capsule>, c: Capsule, id: u128)
    ensures Without(cs + [c], id) == Without(cs, id) + if c.id == id then [] else [c]
  {
    if cs == [] {
      assert (cs + [c])[1..] == [];
    } else {
      WithoutSnoc(cs[1..], c, id);
      assert (cs + [c])[1..] == cs[1..] + [c];
    }
  }

  method Retain(cs: seq<Capsule>, id: u128) returns (kept: seq<Capsule>)
    ensures kept == Without(cs, id)
  {
    kept := [];
    for i := 0 to |cs|
      invariant kept == Without(cs[..i], id)
    {
      WithoutSnoc(cs[..i], cs[i], id);
      assert cs[..i + 1] == cs[..i] + [cs[i]];
      if cs[i].id != id { kept := kept + [cs[i]]; }
    }
    assert cs[..|cs|] == cs;
  }

  /** The `take` closure over one tier: keeps first copies, remembering ids already listed. */
  method TakeAll(live: seq<Capsule>, seen: set<u128>, cs: seq<Capsule>, ghost later: seq<Capsule>)
    returns (live': seq<Capsule>, seen': set<u128>)
    ensures live' + Live(later, seen') == live + Live(cs + later, seen)
  {
    live', seen' := live, seen;
    for i := 0 to |cs|
      invariant live' + Live(cs[i..] + later, seen') == live + Live(cs + later, seen)
    {
      var rest := cs[i..] + later;
      assert rest[0] == cs[i] && rest[1..] == cs[i + 1..] + later;
      if cs[i].id !in seen' {
        ghost var tail := Live(cs[i + 1..] + later, seen' + {cs[i].id});
        assert live' + ([cs[i]] + tail) == (live' + [cs[i]]) + tail;
        live' := live' + [cs[i]];
        seen' := seen' + {cs[i].id};
      }
    }
    assert cs[|cs|..] + later == later;
  }

  /** The sealed runs, newest first. */
  method TakeRuns(live: seq<Capsule>, seen: set<u128>, runs: seq<Segment>, ghost later: seq<Capsule>)
    returns (live': seq<Capsule>, seen': set<u128>)
    ensures live' + Live(later, seen') == live + Live(NewestFirst(runs) + later, seen)
  {
    hide Live;
    live', seen' := live, seen;
    var k := |runs|;
    assert runs[..k] == runs;
    while k > 0
      invariant k <= |runs|
      invariant live' + Live(NewestFirst(runs[..k]) + later, seen') == live + Live(NewestFirst(runs) + later, seen)
    {
      k := k - 1;
      assert runs[..k + 1][..k] == runs[..k];
      ghost var rest := NewestFirst(runs[..k]) + later;
      assert NewestFirst(runs[..k + 1]) + later == runs[k].capsules + rest;
      live', seen' := TakeAll(live', seen', runs[k].capsules, rest);
    }
    assert NewestFirst(runs[..0]) + later == later;
  }

  /** The base segments, as listed. */
  method TakeBase(live: seq<Capsule>, seen: set<u128>, segments: seq<Segment>) returns (live': seq<Capsule>)
    ensures live' == live + Live(Flatten(segments), seen)
  {
    live' := live;
    var seen' := seen;
    assert segments[0..] == segments;
    for j := 0 to |segments|
      invariant live' + Live(Flatten(segments[j..]), seen') == live + Live(Flatten(segments), seen)
    {
      assert segments[j..][0] == segments[j] && segments[j..][1..] == segments[j + 1..];
      live', seen' := TakeAll(live', seen', segments[j].capsules, Flatten(segments[j + 1..]));
    }
    assert segments[|segments|..] == [];
    assert live' + [] == live';
  }

  class MemoryStore {
    var segments: seq<Segment>
    var delta: seq<Capsule>
    var deltaSegment: Option<Segment>
    var sealedDeltas: seq<Segment>
    var sealThreshold: nat
    var autoCompactRuns: Option<nat>
    var tombstones: set<u128>
    var nextEpoch: u64
    var wal: Wal?

    ghost function Tiers(): Tiers
      reads this
    {
      Lsm.Tiers(delta, sealedDeltas, segments, tombstones, nextEpoch)
    }

    ghost function Config(): Config
      reads this
    {
      Lsm.Config(sealThreshold, autoCompactRuns)
    }

    ghost predicate Sound()
      reads this
    {
      Tiers().Valid() && Config().Valid()
    }

    /** The queryable segment of the active buffer may lag behind it, but holds no id the buffer has lost. */
    ghost predicate Valid()
      reads this
    {
      Sound() && (deltaSegment.Some? ==> DistinctIds(deltaSegment.value.capsules) && IdSet(deltaSegment.value.capsules) <= IdSet(delta))
    }

    /** The queryable segment of the active buffer is up to date. */
    ghost predicate Indexed()
      reads this
    {
      if delta == [] then deltaSegment == None else deltaSegment.Some? && deltaSegment.value.capsules == delta
    }

    constructor (segments: seq<Segment>)
      requires forall s :: s in segments ==> DistinctIds(s.capsules)
      ensures Valid() && Indexed() && wal == null
      ensures Tiers() == Lsm.Tiers([], [], segments, {}, NextEpoch(MaxEpoch(segments)))
      ensures (forall s :: s in segments ==> s.epoch < 0xffff_ffff_ffff_ffff) ==> Dated(Tiers())
      ensures Config() == Lsm.Config(1024, Some(16))
    {
      this.segments := segments;
      delta, deltaSegment, sealedDeltas := [], None, [];
      sealThreshold, autoCompactRuns := 1024, Some(16);
      tombstones := {};
      nextEpoch := NextEpoch(MaxEpoch(segments));
      MaxIsHighest(segments);
      wal := null;
      assert IdSet([]) == {};
    }

    method WithSealThreshold(threshold: nat)
      requires Valid()
      modifies this`sealThreshold
      ensures Valid() && sealThreshold == if threshold < 1 then 1 else threshold
    {
      sealThreshold := if threshold < 1 then 1 else threshold;
    }

    method WithAutoCompaction(runs: Option<nat>)
      requires Valid()
      modifies this`autoCompactRuns
      ensures Valid()
      ensures autoCompactRuns == match runs case None => None case Some(n) => Some(if n < 1 then 1 else n)
    {
      autoCompactRuns := match runs case None => None case Some(n) => Some(if n < 1 then 1 else n);
    }

    method WalAppend(op: WalOp, ioOk: bool) returns (r: Result<()>)
      modifies wal
      ensures r.Ok? <==> wal == null || ioOk
      ensures wal != null ==> wal.file == if ioOk then old(wal.file) + [Entry(op)] else old(wal.file)
    {
      r := Ok(());
      if wal != null {
        r := wal.Append(op, ioOk);
      }
    }

    method PushIntoBuffer(c: Capsule)
      requires Valid()
      modifies this`delta, this`tombstones
      ensures Valid() && Tiers() == PushStep(old(Tiers()), c)
    {
      PushKeepsValid(Tiers(), c);
      PushKeepsIds(delta, c);
      tombstones := tombstones - {c.id};
      delta := Retain(delta, c.id);
      delta := delta + [c];
    }

    /** Distinct ids mean `from_capsules` cannot fail, here and in every method below. */
    method RebuildActiveSegment()
      requires Sound()
      modifies this`deltaSegment
      ensures Valid() && Indexed()
    {
      if delta == [] {
        deltaSegment := None;
      } else {
        IdCountDetectsRepeats(delta);
        var built := FromCapsules(delta, nextEpoch);
        deltaSegment := Some(built.value);
      }
    }

    method SealActiveBuffer()
      requires Valid()
      modifies this`delta, this`deltaSegment, this`sealedDeltas, this`nextEpoch
      ensures Valid() && Tiers() == SealStep(old(Tiers()))
      ensures old(delta) != [] ==> Indexed()
    {
      hide Lsm.Tiers.View, Lsm.Tiers.Valid;
      SealKeepsView(Tiers());
      BufferDistinct(Tiers());
      if delta == [] { return; }
      IdCountDetectsRepeats(delta);
      var run := FromCapsules(delta, nextEpoch);
      nextEpoch := NextEpoch(nextEpoch);
      sealedDeltas := sealedDeltas + [run.value];
      delta := [];
      deltaSegment := None;
    }

    /** `collect_live`: buffer, runs newest first, then the base if asked for. */
    method CollectLive(includeBase: bool) returns (live: seq<Capsule>)
      ensures live == Live(if includeBase then Tiers().Recent() + Flatten(segments) else Tiers().Recent(), tombstones)
    {
      ghost var base := if includeBase then Flatten(segments) else [];
      assert Tiers().Recent() + base == delta + (NewestFirst(sealedDeltas) + base);
      assert Tiers().Recent() + [] == Tiers().Recent();
      var seen := tombstones;
      live := [];
      live, seen := TakeAll(live, seen, delta, NewestFirst(sealedDeltas) + base);
      live, seen := TakeRuns(live, seen, sealedDeltas, base);
      if includeBase {
        live := TakeBase(live, seen, segments);
      } else {
        assert live + Live([], seen) == live;
      }
    }

    method CompactDelta()
      requires Valid()
      modifies this`delta, this`deltaSegment, this`sealedDeltas, this`nextEpoch
      ensures Valid() && Tiers() == CompactDeltaStep(old(Tiers()))
      ensures old(Indexed()) ==> Indexed()
    {
      CompactDeltaKeepsValid(Tiers());
      if sealedDeltas == [] { return; }
      var live := CollectLive(false);
      LiveDistinct(Tiers().Recent(), tombstones);
      IdCountDetectsRepeats(live);
      var merged: seq<Segment> := [];
      if live != [] {
        var run := FromCapsules(live, nextEpoch);
        merged := [run.value];
      }
      delta := [];
      deltaSegment := None;
      sealedDeltas := merged;
      nextEpoch := NextEpoch(nextEpoch);
    }

    method MaybeAutoCompact()
      requires Valid()
      modifies this`delta, this`deltaSegment, this`sealedDeltas, this`nextEpoch
      ensures Valid() && Tiers() == AutoCompactStep(old(Tiers()), Config())
      ensures old(Indexed()) ==> Indexed()
    {
      if autoCompactRuns.Some? && |sealedDeltas| >= autoCompactRuns.value {
        CompactDelta();
      }
    }

    /** `insert`: logged first, so a failed append leaves everything as it was. */
    method Insert(c: Capsule, ioOk: bool) returns (r: Result<()>)
      requires Valid()
      modifies this`delta, this`deltaSegment, this`sealedDeltas, this`tombstones, this`nextEpoch, wal
      ensures Valid() && (r.Ok? <==> wal == null || ioOk)
      ensures wal != null ==> wal.file == if r.Ok? then old(wal.file) + [Entry(WalOp.Insert(ToRaw(c)))] else old(wal.file)
      ensures r.Ok? ==> Indexed() && Tiers() == InsertStep(old(Tiers()), c, Config())
      ensures r.Ok? ==> Tiers().View() == old(Tiers()).View()[c.id := c] && |delta| < sealThreshold
      ensures r.Err? ==> Tiers() == old(Tiers()) && deltaSegment == old(deltaSegment)
    {
      r := WalAppend(WalOp.Insert(ToRaw(c)), ioOk);
      if r.Err? { return; }
      hide ToRaw, InsertStep, Lsm.Tiers.View, Lsm.Tiers.Valid;
      InsertUpdatesView(Tiers(), c, Config());
      InsertBoundsTiers(Tiers(), c, Config());
      ApplyInsert(c);
    }

    method ApplyInsert(c: Capsule)
      requires Valid()
      modifies this`delta, this`deltaSegment, this`sealedDeltas, this`tombstones, this`nextEpoch
      ensures Valid() && Indexed() && Tiers() == InsertStep(old(Tiers()), c, Config())
    {
      hide PushStep, SealStep, CompactDeltaStep, AutoCompactStep, Lsm.Tiers.Valid;
      PushIntoBuffer(c);
      if |delta| >= sealThreshold {
        SealActiveBuffer();
      } else {
        RebuildActiveSegment();
      }
      MaybeAutoCompact();
    }

    method ApplyInBatch(c: Capsule)
      requires Valid()
      modifies this`delta, this`deltaSegment, this`sealedDeltas, this`tombstones, this`nextEpoch
      ensures Valid() && Tiers() == BatchStep(old(Tiers()), c, Config())
    {
      hide PushStep, SealStep, CompactDeltaStep, AutoCompactStep, Lsm.Tiers.Valid;
      PushIntoBuffer(c);
      if |delta| >= sealThreshold {
        SealActiveBuffer();
        MaybeAutoCompact();
      }
    }

    /**
     `insert_many`: the append of capsule `failAt`, if any, fails. Capsules before it are applied
     (and logged) all the same; only a complete batch re-indexes the active buffer.
     */
    method InsertMany(cs: seq<Capsule>, failAt: Option<nat>) returns (r: Result<()>, ghost applied: nat)
      requires Valid()
      modifies this`delta, this`deltaSegment, this`sealedDeltas, this`tombstones, this`nextEpoch, wal
      ensures Valid() && applied == if wal != null && failAt.Some? && failAt.value < |cs| then failAt.value else |cs|
      ensures r.Ok? <==> applied == |cs|
      ensures Tiers() == BatchAll(old(Tiers()), cs[..applied], Config())
      ensures Tiers().View() == PutAll(old(Tiers()).View(), cs[..applied])
      ensures r.Ok? ==> Indexed()
      ensures wal != null ==> wal.file == old(wal.file) + InsertLines(cs[..applied])
    {
      hide BatchStep, Lsm.Tiers.View, Lsm.Tiers.Valid, PutAll, BatchAll, InsertLines;
      applied := 0;
      ghost var start := Tiers();
      NoBatch(start, cs, Config());
      for i := 0 to |cs|
        invariant Valid() && applied == i && (wal != null && failAt.Some? ==> i <= failAt.value || failAt.value >= |cs|)
        invariant Tiers() == BatchAll(start, cs[..i], Config())
        invariant wal != null ==> wal.file == old(wal.file) + InsertLines(cs[..i])
      {
        r := WalAppend(WalOp.Insert(ToRaw(cs[i])), failAt != Some(i));
        if r.Err? {
          BatchUpdatesAll(start, cs[..i], Config());
          return;
        }
        NextInBatch(start, cs, i, Config());
        ApplyInBatch(cs[i]);
        applied := i + 1;
      }
      assert cs[..|cs|] == cs;
      BatchUpdatesAll(start, cs, Config());
      RebuildActiveSegment();
      r := Ok(());
    }

    /** `delete`: a tombstone over every tier, and any copy in the buffer dropped. */
    method Delete(id: u128, ioOk: bool) returns (r: Result<()>)
      requires Valid()
      modifies this`delta, this`deltaSegment, this`tombstones, wal
      ensures Valid() && (r.Ok? <==> wal == null || ioOk)
      ensures wal != null ==> wal.file == if r.Ok? then old(wal.file) + [Entry(WalOp.Delete(Digits(id, 10)))] else old(wal.file)
      ensures r.Ok? ==> Indexed() && Tiers() == DeleteStep(old(Tiers()), id) && Tiers().View() == old(Tiers()).View() - {id}
      ensures r.Err? ==> Tiers() == old(Tiers()) && deltaSegment == old(deltaSegment)
    {
      r := WalAppend(WalOp.Delete(Digits(id, 10)), ioOk);
      if r.Err? { return; }
      hide Digits, DeleteStep, Lsm.Tiers.View, Lsm.Tiers.Valid;
      DeleteUpdatesView(Tiers(), id);
      ApplyDelete(id);
    }

    method ApplyDelete(id: u128)
      requires Valid()
      modifies this`delta, this`deltaSegment, this`tombstones
      ensures Valid() && Indexed() && Tiers() == DeleteStep(old(Tiers()), id)
    {
      hide Without, Lsm.Tiers.View, Lsm.Tiers.Valid;
      DeleteKeepsValid(Tiers(), id);
      delta := Retain(delta, id);
      tombstones := tombstones + {id};
      RebuildActiveSegment();
    }

    method ClearDeltaState()
      modifies this`delta, this`deltaSegment, this`sealedDeltas, this`tombstones
      ensures delta == [] && deltaSegment == None && sealedDeltas == [] && tombstones == {}
    {
      delta, sealedDeltas, deltaSegment, tombstones := [], [], None, {};
    }

    method AdoptBase(base: Segment)
      requires Valid() && DistinctIds(base.capsules)
      modifies this`segments, this`delta, this`deltaSegment, this`sealedDeltas, this`tombstones, this`nextEpoch
      ensures Valid() && Indexed() && Tiers() == AdoptStep(old(Tiers()), base)
    {
      AdoptView(Tiers(), base);
      segments := [base];
      ClearDeltaState();
      nextEpoch := NextEpoch(nextEpoch);
    }

    method Compact()
      requires Valid()
      modifies this`segments, this`delta, this`deltaSegment, this`sealedDeltas, this`tombstones, this`nextEpoch
      ensures Valid() && Indexed() && Tiers() == CompactStep(old(Tiers())) && Tiers().View() == old(Tiers()).View()
    {
      hide Lsm.Tiers.View, Lsm.Tiers.Valid, LiveList, AdoptStep;
      CompactKeepsView(Tiers());
      var live := CollectLive(true);
      LiveListed(Tiers(), live);
      LiveListIsView(Tiers());
      IdCountDetectsRepeats(live);
      var compacted := FromCapsules(live, nextEpoch);
      AdoptBase(compacted.value);
    }

    /**
     `compact_to`: write the checkpoint, read it back, adopt it, and only then drop the log.
     `writeOk`, `emptied` and `reopened` say whether the file operations succeed. A failure before
     adoption changes nothing; one after it leaves the log whole or, if only the last open fails,
     empty. `checkpoint` is what stands on disk.
     */
    method CompactTo(env: Env, writeOk: bool, emptied: bool, reopened: bool) returns (r: Result<()>, checkpoint: Option<Bytes>)
      requires Valid() && CheckpointFits(Tiers())
      modifies this`segments, this`delta, this`deltaSegment, this`sealedDeltas, this`tombstones, this`nextEpoch, wal
      ensures wal != null ==> wal.file == if Loaded(env, checkpoint).Some? && emptied then [] else old(wal.file)
      ensures checkpoint.Some? <==> writeOk && UniformDim(old(LiveList(Tiers())))
      ensures checkpoint.Some? ==> CheckpointBytes(env, old(Tiers())) == Ok(checkpoint.value) && |checkpoint.value| < ISIZE_LIMIT
      ensures var base := Loaded(env, checkpoint);
              && (r.Ok? <==> base.Some? && (wal == null || (emptied && reopened)))
              && (base.Some? ==> Indexed() && Tiers() == AdoptStep(old(Tiers()), base.value))
              && (base.None? ==> Tiers() == old(Tiers()) && deltaSegment == old(deltaSegment))
      ensures AllSized(old(LiveList(Tiers()))) ==> Tiers().View() == old(Tiers()).View()
      ensures Valid()
    {
      hide Assemble, Parse, AllSized, AllLoadable, UniformDim, Sorted, AssembledSize, LiveList, Lsm.Tiers.View, Lsm.Tiers.Valid, AdoptStep, DistinctIds;
      ghost var was := Tiers();
      var live := CollectLive(true);
      LiveListed(was, live);
      LiveListIsView(was);
      var loaded;
      loaded, checkpoint := WriteCheckpoint(env, live, nextEpoch, writeOk);
      if loaded.Err? { return Err(loaded.error), checkpoint; }
      SortedKeeps(live);
      ViewOfPermutation(live, Sorted(live));
      AdoptView(was, loaded.value);
      AdoptBase(loaded.value);
      r := Ok(());
      if wal != null {
        r := wal.Truncate(emptied, reopened);
      }
    }
  }

  /** The first two steps of `compact_to`: the file, and the segment read back from it. */
  method WriteCheckpoint(env: Env, live: seq<Capsule>, epoch: u64, writeOk: bool) returns (loaded: Result<Segment>, checkpoint: Option<Bytes>)
    requires DistinctIds(live) && AssembledSize(Sorted(live)) < ISIZE_LIMIT
    ensures checkpoint.Some? <==> writeOk && UniformDim(live)
    ensures checkpoint.Some? ==> Assemble(env, live, epoch) == Ok(checkpoint.value) && |checkpoint.value| < ISIZE_LIMIT
                                 && loaded == Parse(env, checkpoint.value)
    ensures checkpoint.None? ==> loaded.Err?
    ensures loaded.Ok? ==> DistinctIds(loaded.value.capsules) && (loaded.value.capsules == Sorted(live) <==> AllSized(live))
  {
    hide Parse, AllSized, AllLoadable, Sorted, AssembledSize, DistinctIds, FirstTenant, Assemble;
    checkpoint := None;
    AssemblyFails(env, live, epoch);
    var built := AssembleSegment(env, live, epoch);
    if built.Err? { return Err(built.error), checkpoint; }
    if !writeOk { return Err(IoFailure), checkpoint; }
    checkpoint := Some(built.value);
    LoadOutcome(env, live, epoch);
    var hint;
    loaded, hint := FromBytes(env, built.value);
  }

  predicate CheckpointFits(t: Tiers) {
    AssembledSize(Sorted(LiveList(t))) < ISIZE_LIMIT
  }

  function CheckpointBytes(env: Env, t: Tiers): Result<Bytes> {
    Assemble(env, LiveList(t), t.epoch)
  }

  lemma {:induction false} MaxIsHighest(segments: seq<Segment>)
    ensures forall s :: s in segments ==> s.epoch <= MaxEpoch(segments)
    ensures MaxEpoch(segments) == 0 || exists s :: s in segments && s.epoch == MaxEpoch(segments)
    decreases |segments|
  {
    if segments != [] {
      var front, last := segments[..|segments| - 1], segments[|segments| - 1];
      MaxIsHighest(front);
      assert segments == front + [last] && last in segments;
    }
  }

  /** The segment a checkpoint file reads back as, if there is such a file and it can be read. */
  ghost function Loaded(env: Env, checkpoint: Option<Bytes>): Option<Segment> {
    if checkpoint.Some? && |checkpoint.value| < ISIZE_LIMIT && Parse(env, checkpoint.value).Ok?
    then Some(Parse(env, checkpoint.value).value) else None
  }

  lemma PushKeepsIds(cs: seq<Capsule>, c: Capsule)
    ensures IdSet(cs) <= IdSet(Pushed(cs, c))
  {
    hide ViewOf, Pushed;
    PushedView(cs, c);
    ViewKeys(cs);
    ViewKeys(Pushed(cs, c));
  }

  lemma LiveListed(t: Tiers, live: seq<Capsule>)
    requires live == Live(t.Recent() + Flatten(t.base), t.tombstones)
    ensures live == LiveList(t)
  {
  }

  function InsertLines(cs: seq<Capsule>): seq<Line> {
    if cs == [] then [] else InsertLines(cs[..|cs| - 1]) + [Entry(WalOp.Insert(ToRaw(cs[|cs| - 1])))]
  }

  lemma NoBatch(t: Tiers, cs: seq<Capsule>, config: Lsm.Config)
    ensures BatchAll(t, cs[..0], config) == t && InsertLines(cs[..0]) == []
  {
  }

  lemma NextInBatch(t: Tiers, cs: seq<Capsule>, i: nat, config: Lsm.Config)
    requires i < |cs|
    ensures BatchAll(t, cs[..i + 1], config) == BatchStep(BatchAll(t, cs[..i], config), cs[i], config)
    ensures InsertLines(cs[..i + 1]) == InsertLines(cs[..i]) + [Entry(WalOp.Insert(ToRaw(cs[i])))]
  {
    hide BatchStep, ToRaw;
    assert cs[..i + 1][..i] == cs[..i];
  }

  /** Base files read in order; the first unreadable one decides. */
  function ParseAll(env: Env, files: seq<Bytes>): (r: Result<seq<Segment>>)
    requires forall f :: f in files ==> |f| < ISIZE_LIMIT
  {
    if files == [] then Ok([])
    else
      var front :- ParseAll(env, files[..|files| - 1]);
      var last :- Parse(env, files[|files| - 1]);
      Ok(front + [last])
  }

  lemma {:induction false} ParsedDistinct(env: Env, files: seq<Bytes>)
    requires (forall f :: f in files ==> |f| < ISIZE_LIMIT) && ParseAll(env, files).Ok?
    ensures forall s :: s in ParseAll(env, files).value ==> DistinctIds(s.capsules)
    decreases |files|
  {
    hide Parse;
    if files != [] {
      ParsedDistinct(env, files[..|files| - 1]);
      AcceptedSegment(env, files[|files| - 1]);
    }
  }

  /**
   `open_durable`: base files, then the log replayed over them. Opening fails exactly when a file
   or a log entry cannot be read; an opened store shows the log applied to the base.
   */
  method OpenDurable(env: Env, files: seq<Bytes>, wal: Wal) returns (r: Result<MemoryStore>)
    requires forall f :: f in files ==> |f| < ISIZE_LIMIT
    ensures r.Ok? <==> ParseAll(env, files).Ok? && Ops(wal.file).Ok? && DecodeAll(env, Ops(wal.file).value).Ok?
    ensures r.Ok? ==> fresh(r.value) && r.value.Valid() && r.value.Indexed() && r.value.wal == wal
    ensures r.Ok? ==> r.value.segments == ParseAll(env, files).value && r.value.sealedDeltas == []
    ensures r.Ok? ==> var d := RunDelta(DecodeAll(env, Ops(wal.file).value).value);
                      ViewOf(r.value.delta) == ViewOf(d.buffer) && r.value.tombstones == d.tombstones
    ensures r.Ok? ==> r.value.Tiers().View()
                      == ApplyAll(DecodeAll(env, Ops(wal.file).value).value, ViewOf(Flatten(ParseAll(env, files).value)))
  {
    hide ParseAll, ViewOf, DecodeAll, RunDelta, Ops, ApplyAll, Lsm.Tiers.View, Flatten, MaxEpoch;
    var bases := OpenSegments(env, files);
    if bases.Err? { return Err(bases.error); }
    ParsedDistinct(env, files);
    var store := new MemoryStore(bases.value);
    var log := wal.Replay();
    if log.Err? { return Err(log.error); }
    var replayed := ReplayLog(env, log.value);
    if replayed.Err? { return Err(replayed.error); }
    store.delta := replayed.value.buffer;
    store.tombstones := replayed.value.tombstones;
    store.RebuildActiveSegment();
    store.wal := wal;
    ghost var ops := DecodeAll(env, log.value).value;
    DeltaOverBase(ops, bases.value, store.nextEpoch);
    SameDeltaSameView(store.delta, RunDelta(ops).buffer, bases.value, store.tombstones, store.nextEpoch);
    return Ok(store);
  }

  method OpenSegments(env: Env, files: seq<Bytes>) returns (r: Result<seq<Segment>>)
    requires forall f :: f in files ==> |f| < ISIZE_LIMIT
    ensures r.Ok? <==> ParseAll(env, files).Ok?
    ensures r.Ok? ==> r == ParseAll(env, files)
  {
    hide Parse;
    var segments: seq<Segment> := [];
    for i := 0 to |files|
      invariant ParseAll(env, files[..i]) == Ok(segments)
    {
      assert files[..i + 1][..i] == files[..i];
      var parsed, _ := FromBytes(env, files[i]);
      if parsed.Err? {
        ParsePrefixFails(env, files, i + 1);
        return Err(parsed.error);
      }
      segments := segments + [parsed.value];
    }
    assert files[..|files|] == files;
    return Ok(segments);
  }

  lemma {:induction false} ParsePrefixFails(env: Env, files: seq<Bytes>, n: nat)
    requires (forall f :: f in files ==> |f| < ISIZE_LIMIT) && n <= |files| && ParseAll(env, files[..n]).Err?
    ensures ParseAll(env, files).Err?
    decreases |files| - n
  {
    hide Parse;
    if n == |files| {
      assert files[..n] == files;
    } else {
      assert files[..n + 1][..n] == files[..n];
      ParsePrefixFails(env, files, n + 1);
    }
  }
}
