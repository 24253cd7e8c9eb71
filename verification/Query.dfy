/** Queries over all tiers, in the four retrieval modes of `store.rs`. */
module Query {
  import opened Results
  import opened Sorting
  import opened Capsules
  import opened Index
  import opened Gates
  import opened Selection
  import opened CandidateSearch
  import opened Retrieve
  import opened Merging
  import opened Completeness
  import opened Lsm
  import opened Store

  datatype Mode = L5m | ParentAggregate | HybridBm25L5m | RrfFusionParent

  const USIZE_MAX: nat := 0xffff_ffff_ffff_ffff

  /** Oldest first: base segments, sealed runs, then the active buffer. */
  function LiveSegments(s: MemoryStore): seq<Segment>
    reads s
  {
    s.segments + s.sealedDeltas + if s.deltaSegment.Some? then [s.deltaSegment.value] else []
  }

  /** `f` shows the content of a capsule held by some tier that passes every gate. */
  ghost predicate Disclosed(segments: seq<Segment>, p: Probe, f: FrameCapsule) {
    exists c :: c in Flatten(segments) && PassesGates(c, p) && Shows(f, c)
  }

  /** A conflict entry need not be valid in time, but the four authorization gates hold. */
  ghost predicate DisclosedConflict(segments: seq<Segment>, p: Probe, f: FrameCapsule) {
    exists c :: c in Flatten(segments) && Authorized(c, p) && Shows(f, c)
  }

  /** `f` is a copy of a capsule some tier holds that the caller may be shown; every condition written out. */
  ghost predicate Released(segments: seq<Segment>, p: Probe, f: FrameCapsule) {
    exists k: nat, o: nat :: k < |segments| && o < |segments[k].capsules| &&
      var c := segments[k].capsules[o];
      && f.id == c.id && f.claim == c.claim && f.evidence == c.evidence && f.sourceId == c.sourceId
      && f.sourceHash == c.sourceHash && f.trustLevel == c.trustLevel && f.validFrom == c.validFrom && f.validUntil == c.validUntil
      && c.tenantId == p.tenantId && c.trustLevel >= p.trustFloor
      && (exists b: nat :: HasBit(c.contextMask, b) && HasBit(p.contextMask, b))
      && (exists b: nat :: HasBit(c.policyMask, b) && HasBit(p.policyMask, b))
      && c.validFrom <= p.asOf && (c.validUntil == None || c.validUntil.value >= p.asOf)
  }

  /** The same of a conflict, which need not be valid at the time asked about. */
  ghost predicate ReleasedConflict(segments: seq<Segment>, p: Probe, f: FrameCapsule) {
    exists k: nat, o: nat :: k < |segments| && o < |segments[k].capsules| &&
      var c := segments[k].capsules[o];
      && f.id == c.id && f.claim == c.claim && f.evidence == c.evidence && f.sourceId == c.sourceId
      && f.sourceHash == c.sourceHash && f.trustLevel == c.trustLevel && f.validFrom == c.validFrom && f.validUntil == c.validUntil
      && c.tenantId == p.tenantId && c.trustLevel >= p.trustFloor
      && (exists b: nat :: HasBit(c.contextMask, b) && HasBit(p.contextMask, b))
      && (exists b: nat :: HasBit(c.policyMask, b) && HasBit(p.policyMask, b))
  }

  lemma DisclosedIsReleased(segments: seq<Segment>, p: Probe, f: FrameCapsule)
    ensures Disclosed(segments, p, f) ==> Released(segments, p, f)
    ensures DisclosedConflict(segments, p, f) ==> ReleasedConflict(segments, p, f)
  {
    hide PassesGates, Authorized, Flatten, HasBit;
    FlattenElements(segments);
    if Disclosed(segments, p, f) {
      var c :| c in Flatten(segments) && PassesGates(c, p) && Shows(f, c);
      GatesMean(c, p);
      var k: nat, o: nat := HeldAt(segments, c);
    }
    if DisclosedConflict(segments, p, f) {
      var c :| c in Flatten(segments) && Authorized(c, p) && Shows(f, c);
      GatesMean(c, p);
      var k: nat, o: nat := HeldAt(segments, c);
    }
  }

  lemma HeldAt(segments: seq<Segment>, c: Capsule) returns (k: nat, o: nat)
    requires c in Flatten(segments)
    ensures k < |segments| && o < |segments[k].capsules| && segments[k].capsules[o] == c
  {
    hide Flatten;
    FlattenElements(segments);
    k :| k < |segments| && c in segments[k].capsules;
    o :| o < |segments[k].capsules| && segments[k].capsules[o] == c;
  }

  ghost predicate AllDisclosed(segments: seq<Segment>, p: Probe, fs: seq<FrameCapsule>) {
    forall f :: f in fs ==> Disclosed(segments, p, f)
  }

  ghost predicate AllConflictsDisclosed(segments: seq<Segment>, p: Probe, fs: seq<FrameCapsule>) {
    forall f :: f in fs ==> DisclosedConflict(segments, p, f)
  }

  lemma {:induction false} FlattenElements(segments: seq<Segment>)
    ensures forall c :: c in Flatten(segments) <==> exists k :: 0 <= k < |segments| && c in segments[k].capsules
  {
    if segments != [] {
      FlattenElements(segments[1..]);
      forall c | exists k :: 0 <= k < |segments| && c in segments[k].capsules ensures c in Flatten(segments) {
        var k :| 0 <= k < |segments| && c in segments[k].capsules;
        if k > 0 { assert c in segments[1..][k - 1].capsules; }
      }
      forall c | c in Flatten(segments) ensures exists k :: 0 <= k < |segments| && c in segments[k].capsules {
        if c in Flatten(segments[1..]) {
          var k :| 0 <= k < |segments[1..]| && c in segments[1..][k].capsules;
          assert c in segments[k + 1].capsules;
        } else {
          assert c in segments[0].capsules;
        }
      }
    }
  }

  // ---------------------------------------------------------------- one frame per segment

  /** What `retrieve` guarantees of one segment's answer. */
  ghost predicate Answers(env: Env, s: Segment, p: Probe, config: RetrievalConfig, frame: Frame) {
    && |frame.capsules| <= p.maxCapsules && DistinctFrames(frame.capsules)
    && (forall f :: f in frame.capsules ==> exists o: nat :: o in Eligible(s.capsules, p) && Shows(f, s.capsules[o]))
    && (config.maxScored >= 1 && p.maxCapsules >= 1 ==> (frame.capsules == [] <==> Eligible(s.capsules, p) == {}))
    && ConflictsOk(s.capsules, p, frame.conflicts) && frame.epoch == s.epoch
    && Complete(env, s.capsules, p, config, frame)
  }

  ghost predicate AllAnswer(env: Env, segments: seq<Segment>, p: Probe, config: RetrievalConfig, frames: seq<Frame>) {
    |frames| == |segments| && forall k :: 0 <= k < |segments| ==> Answers(env, segments[k], p, config, frames[k])
  }

  lemma EntriesDisclosed(env: Env, segments: seq<Segment>, p: Probe, config: RetrievalConfig, frames: seq<Frame>)
    requires AllAnswer(env, segments, p, config, frames)
    ensures AllDisclosed(segments, p, Entries(frames)) && AllConflictsDisclosed(segments, p, Conflicts(frames))
  {
    hide Entries, Conflicts, Flatten, PassesGates, Authorized, Shows, Complete;
    EntriesHeld(frames);
    FlattenElements(segments);
    forall f | f in Entries(frames) ensures Disclosed(segments, p, f) {
      var k :| 0 <= k < |frames| && f in frames[k].capsules;
      var o: nat :| o in Eligible(segments[k].capsules, p) && Shows(f, segments[k].capsules[o]);
      assert segments[k].capsules[o] in segments[k].capsules;
    }
    forall f | f in Conflicts(frames) ensures DisclosedConflict(segments, p, f) {
      var k :| 0 <= k < |frames| && f in frames[k].conflicts;
      var i :| 0 <= i < |frames[k].conflicts| && frames[k].conflicts[i] == f;
      var o: nat :| o < |segments[k].capsules| && Shows(f, segments[k].capsules[o]) && Authorized(segments[k].capsules[o], p);
      assert segments[k].capsules[o] in segments[k].capsules;
    }
  }

  /** `f` shows a capsule that is eligible in its own segment: gates passed, and superseded by none that passes them. */
  ghost predicate ShowsEligible(segments: seq<Segment>, p: Probe, f: FrameCapsule) {
    exists k, o: nat :: 0 <= k < |segments| && o in Eligible(segments[k].capsules, p) && Shows(f, segments[k].capsules[o])
  }

  lemma EntriesEligible(env: Env, segments: seq<Segment>, p: Probe, config: RetrievalConfig, frames: seq<Frame>)
    requires AllAnswer(env, segments, p, config, frames)
    ensures forall id :: id in Latest(Entries(frames)) ==> ShowsEligible(segments, p, Latest(Entries(frames))[id])
  {
    hide Entries, Latest, Eligible, Shows, Complete, ConflictsOk;
    LatestEntries(Entries(frames));
    EntriesHeld(frames);
    forall id | id in Latest(Entries(frames)) ensures ShowsEligible(segments, p, Latest(Entries(frames))[id]) {
      var f := Latest(Entries(frames))[id];
      var k :| 0 <= k < |frames| && f in frames[k].capsules;
      assert Answers(env, segments[k], p, config, frames[k]);
      var o: nat :| o in Eligible(segments[k].capsules, p) && Shows(f, segments[k].capsules[o]);
    }
  }

  /** Every entry is the latest one under its id, its score aside. */
  ghost predicate FromLatest(fs: seq<FrameCapsule>, frames: seq<Frame>) {
    forall f :: f in fs ==> f.id in Latest(Entries(frames)) && f == Latest(Entries(frames))[f.id].(score := f.score)
  }

  lemma LatestShowsEligible(env: Env, segments: seq<Segment>, p: Probe, config: RetrievalConfig, frames: seq<Frame>, fs: seq<FrameCapsule>)
    requires AllAnswer(env, segments, p, config, frames) && FromLatest(fs, frames)
    ensures forall f :: f in fs ==> ShowsEligible(segments, p, f)
  {
    hide Entries, Latest, Eligible, AllAnswer;
    EntriesEligible(env, segments, p, config, frames);
    forall f | f in fs ensures ShowsEligible(segments, p, f) {
      var g := Latest(Entries(frames))[f.id];
      var k, o: nat :| 0 <= k < |segments| && o in Eligible(segments[k].capsules, p) && Shows(g, segments[k].capsules[o]);
      assert Shows(f, segments[k].capsules[o]);
    }
  }

  ghost predicate SomeEligible(segments: seq<Segment>, p: Probe) {
    exists k :: 0 <= k < |segments| && Eligible(segments[k].capsules, p) != {}
  }

  method AnswerOne(env: Env, segment: Segment, p: Probe, config: RetrievalConfig, scoring: Scoring) returns (answer: Frame)
    requires |segment.capsules| <= U32_WRAP && DistinctIds(segment.capsules) && config.rrfK >= 0.0
    ensures Answers(env, segment, p, config, answer)
  {
    hide Eligible, PassesGates, Authorized, ConflictsOk, ScoreOrder, TotalTokens, Chosen, ScoredBy, Expanded, IdIndex, Budgeted, Frames, Complete;
    ghost var ordinals, pool;
    answer, ordinals, pool := Retrieve.Retrieve(env, segment, p, config, scoring);
    forall f | f in answer.capsules ensures exists o: nat :: o in Eligible(segment.capsules, p) && Shows(f, segment.capsules[o]) {
      assert FromEligible(segment.capsules, p, scoring, f);
    }
    RoomyIsComplete(env, segment.capsules, p, config, scoring, ordinals, pool, answer);
  }

  /** `retrieve_l5m`: each segment answers alone, then the answers are merged. */
  method RetrieveL5m(env: Env, segments: seq<Segment>, p: Probe, config: RetrievalConfig, scoring: Scoring)
    returns (frame: Frame, ghost frames: seq<Frame>)
    requires forall s :: s in segments ==> |s.capsules| <= U32_WRAP && DistinctIds(s.capsules)
    requires config.rrfK >= 0.0
    ensures AllAnswer(env, segments, p, config, frames)
    ensures BestLatest(frame.capsules, Latest(Entries(frames)), p.maxCapsules) && frame.conflicts == Conflicts(frames)
    ensures AllDisclosed(segments, p, frame.capsules) && AllConflictsDisclosed(segments, p, frame.conflicts)
    ensures config.maxScored >= 1 && p.maxCapsules >= 1 ==> (frame.capsules != [] <==> SomeEligible(segments, p))
  {
    hide Eligible, PassesGates, Authorized, Answers;
    var answers: seq<Frame> := [];
    for k := 0 to |segments|
      invariant |answers| == k && forall j :: 0 <= j < k ==> Answers(env, segments[j], p, config, answers[j])
    {
      var answer := AnswerOne(env, segments[k], p, config, scoring);
      answers := answers + [answer];
    }
    frame := MergeFrames(answers, p.maxCapsules);
    frames := answers;
    MergedDisclosed(env, segments, p, config, frames, frame.capsules);
  }

  lemma MergedDisclosed(env: Env, segments: seq<Segment>, p: Probe, config: RetrievalConfig, frames: seq<Frame>, out: seq<FrameCapsule>)
    requires AllAnswer(env, segments, p, config, frames) && BestLatest(out, Latest(Entries(frames)), p.maxCapsules)
    ensures AllDisclosed(segments, p, out) && AllConflictsDisclosed(segments, p, Conflicts(frames))
    ensures config.maxScored >= 1 && p.maxCapsules >= 1 ==> (out != [] <==> SomeEligible(segments, p))
  {
    hide Latest, Entries, Conflicts, Eligible, Disclosed, DisclosedConflict, FrameLeq, ConflictsOk, Complete;
    EntriesDisclosed(env, segments, p, config, frames);
    LatestEntries(Entries(frames));
    EntriesHeld(frames);
    if config.maxScored >= 1 && p.maxCapsules >= 1 {
      if out != [] {
        assert out[0] in out && out[0] in Entries(frames);
      }
      if k :| 0 <= k < |segments| && Eligible(segments[k].capsules, p) != {} {
        var f := frames[k].capsules[0];
        assert f in frames[k].capsules && f in Entries(frames) && f.id in Latest(Entries(frames));
      }
    }
  }

  /** `retrieve_parent_aggregate`: a four times wider search, then one entry per source. */
  function Widened(limit: nat): (wide: nat)
    ensures wide >= limit && (limit >= 1 ==> wide >= 1)
    ensures limit <= USIZE_MAX ==> wide <= 4 * limit && wide <= USIZE_MAX && (wide == 4 * limit || wide == 0xffff_ffff_ffff_ffff)
  {
    var four := if 4 * limit > USIZE_MAX then USIZE_MAX else 4 * limit;
    if four < limit then limit else four
  }

  method RetrieveParentAggregate(env: Env, segments: seq<Segment>, p: Probe, config: RetrievalConfig, scoring: Scoring)
    returns (frame: Frame, ghost wide: seq<FrameCapsule>, ghost frames: seq<Frame>)
    requires forall s :: s in segments ==> |s.capsules| <= U32_WRAP && DistinctIds(s.capsules)
    requires config.rrfK >= 0.0
    ensures AllAnswer(env, segments, p.(maxCapsules := Widened(p.maxCapsules)), config, frames)
    ensures BestLatest(wide, Latest(Entries(frames)), Widened(p.maxCapsules)) && frame.conflicts == Conflicts(frames)
    ensures Aggregated(wide, p.maxCapsules, frame.capsules) && DistinctFrames(frame.capsules)
    ensures AllDisclosed(segments, p, frame.capsules) && AllConflictsDisclosed(segments, p, frame.conflicts)
    ensures config.maxScored >= 1 && p.maxCapsules >= 1 ==> (frame.capsules != [] <==> SomeEligible(segments, p))
  {
    hide AllAnswer, BestLatest, Aggregated;
    var widened := p.(maxCapsules := Widened(p.maxCapsules));
    WideningKeepsGates(segments, p, widened);
    var merged;
    merged, frames := RetrieveL5m(env, segments, widened, config, scoring);
    var capsules := AggregateFrames(merged.capsules, p.maxCapsules);
    BestLatestDistinct(merged.capsules, Latest(Entries(frames)), widened.maxCapsules);
    AggregatedShows(merged.capsules, p.maxCapsules, capsules);
    AggregatedDisclosed(segments, p, merged.capsules, capsules);
    frame, wide := merged.(capsules := capsules), merged.capsules;
  }

  lemma BestLatestDistinct(out: seq<FrameCapsule>, latest: map<u128, FrameCapsule>, limit: nat)
    requires BestLatest(out, latest, limit)
    ensures DistinctFrames(out) && |out| <= limit
  {
  }

  lemma WideningKeepsGates(segments: seq<Segment>, p: Probe, wide: Probe)
    requires wide == p.(maxCapsules := wide.maxCapsules)
    ensures forall f :: Disclosed(segments, wide, f) <==> Disclosed(segments, p, f)
    ensures forall f :: DisclosedConflict(segments, wide, f) <==> DisclosedConflict(segments, p, f)
    ensures SomeEligible(segments, wide) <==> SomeEligible(segments, p)
    ensures forall f :: ShowsEligible(segments, wide, f) <==> ShowsEligible(segments, p, f)
  {
    assert forall c :: PassesGates(c, wide) == PassesGates(c, p) && Authorized(c, wide) == Authorized(c, p);
    forall cs: seq<Capsule> ensures Eligible(cs, wide) == Eligible(cs, p) {
      forall o: nat | o < |cs| ensures Superseded(cs, o, wide) == Superseded(cs, o, p) {}
    }
  }

  lemma AggregatedFromLatest(fs: seq<FrameCapsule>, limit: nat, out: seq<FrameCapsule>, wideLimit: nat, frames: seq<Frame>)
    requires Aggregated(fs, limit, out) && BestLatest(fs, Latest(Entries(frames)), wideLimit)
    ensures FromLatest(out, frames)
  {
    hide Latest, Entries, Aggregated;
    AggregatedShows(fs, limit, out);
    forall f | f in out ensures f.id in Latest(Entries(frames)) && f == Latest(Entries(frames))[f.id].(score := f.score) {
      var g :| g in fs && f == g.(score := f.score) && f.score >= g.score;
    }
  }

  lemma AggregatedDisclosed(segments: seq<Segment>, p: Probe, fs: seq<FrameCapsule>, out: seq<FrameCapsule>)
    requires AllDisclosed(segments, p, fs) && forall f :: f in out ==> exists g :: g in fs && f == g.(score := f.score) && f.score >= g.score
    ensures AllDisclosed(segments, p, out)
  {
    hide PassesGates, Flatten;
    forall f | f in out ensures Disclosed(segments, p, f) {
      var g :| g in fs && f == g.(score := f.score) && f.score >= g.score;
      var c :| c in Flatten(segments) && PassesGates(c, p) && Shows(g, c);
      assert Shows(f, c);
    }
  }

  // ---------------------------------------------------------------- fusion modes

  /** The scan of the fusion modes: every capsule passing the gates, superseded or not, under its score. */
  function Passing(cs: seq<Capsule>, p: Probe, score: Capsule -> real): seq<FrameCapsule> {
    if cs == [] then []
    else (if PassesGates(cs[0], p) then [MakeFrame(cs[0], score(cs[0]), [])] else []) + Passing(cs[1..], p, score)
  }

  lemma {:induction false} PassingElements(cs: seq<Capsule>, p: Probe, score: Capsule -> real)
    ensures forall f :: f in Passing(cs, p, score) <==> exists c :: c in cs && PassesGates(c, p) && f == MakeFrame(c, score(c), [])
  {
    hide PassesGates;
    if cs != [] {
      PassingElements(cs[1..], p, score);
      forall f ensures f in Passing(cs, p, score) <==> exists c :: c in cs && PassesGates(c, p) && f == MakeFrame(c, score(c), []) {
        assert cs[0] in cs;
        if c :| c in cs && PassesGates(c, p) && f == MakeFrame(c, score(c), []) {
          assert c == cs[0] || c in cs[1..];
        }
      }
    }
  }

  method Scan(segments: seq<Segment>, p: Probe, score: Capsule -> real) returns (scored: seq<FrameCapsule>, epoch: u64)
    ensures scored == Passing(Flatten(segments), p, score)
    ensures forall s :: s in segments ==> s.epoch <= epoch
  {
    hide PassesGates;
    scored, epoch := [], 0;
    assert segments[0..] == segments;
    for k := 0 to |segments|
      invariant scored + Passing(Flatten(segments[k..]), p, score) == Passing(Flatten(segments), p, score)
      invariant forall j :: 0 <= j < k ==> segments[j].epoch <= epoch
    {
      if segments[k].epoch > epoch { epoch := segments[k].epoch; }
      assert segments[k..][0] == segments[k] && segments[k..][1..] == segments[k + 1..];
      scored := ScanOne(scored, segments[k].capsules, p, score, Flatten(segments[k + 1..]));
    }
    assert segments[|segments|..] == [];
    assert scored + [] == scored;
  }

  method ScanOne(scored: seq<FrameCapsule>, cs: seq<Capsule>, p: Probe, score: Capsule -> real, ghost later: seq<Capsule>)
    returns (out: seq<FrameCapsule>)
    ensures out + Passing(later, p, score) == scored + Passing(cs + later, p, score)
  {
    hide PassesGates;
    out := scored;
    for i := 0 to |cs|
      invariant out + Passing(cs[i..] + later, p, score) == scored + Passing(cs + later, p, score)
    {
      assert (cs[i..] + later)[1..] == cs[i + 1..] + later && (cs[i..] + later)[0] == cs[i];
      ghost var rest := Passing(cs[i + 1..] + later, p, score);
      if PassesGates(cs[i], p) {
        var f := MakeFrame(cs[i], score(cs[i]), []);
        assert out + ([f] + rest) == (out + [f]) + rest;
        out := out + [f];
      }
    }
    assert cs[|cs|..] + later == later;
  }

  ghost predicate SomePasses(segments: seq<Segment>, p: Probe) {
    exists c :: c in Flatten(segments) && PassesGates(c, p)
  }

  /** `retrieve_fusion`. */
  method RetrieveFusion(segments: seq<Segment>, p: Probe, scoring: Scoring, parentAggregate: bool)
    returns (frame: Frame, ghost scored: seq<FrameCapsule>)
    ensures scored == Passing(Flatten(segments), p, if parentAggregate then scoring.parent else scoring.hybrid)
    ensures frame.candidateCount == |scored| && frame.conflicts == []
    ensures if parentAggregate then Aggregated(Top(scored, |scored|), p.maxCapsules, frame.capsules)
            else frame.capsules == Top(scored, p.maxCapsules)
    ensures |frame.capsules| <= p.maxCapsules && SortedBy(frame.capsules, FrameLeq) && AllDisclosed(segments, p, frame.capsules)
    ensures p.maxCapsules >= 1 ==> (frame.capsules != [] <==> SomePasses(segments, p))
  {
    hide Passing, PassesGates, FrameLeq, Flatten, Aggregated;
    var epoch, capsules;
    ghost var score := if parentAggregate then scoring.parent else scoring.hybrid;
    var found;
    found, epoch := Scan(segments, p, if parentAggregate then scoring.parent else scoring.hybrid);
    scored := found;
    var sorted := SortBy(found, FrameLeq);
    SortElements(found, FrameLeq);
    assert Top(scored, |scored|) == sorted;
    PassingElements(Flatten(segments), p, score);
    ScannedDisclosed(segments, p, score, sorted);
    TopIsBest(scored, p.maxCapsules);
    if parentAggregate {
      capsules := AggregateFrames(sorted, p.maxCapsules);
      AggregatedShows(sorted, p.maxCapsules, capsules);
      AggregatedDisclosed(segments, p, sorted, capsules);
      AggregatedSorted(sorted, p.maxCapsules, capsules);
    } else {
      capsules := Take(sorted, p.maxCapsules);
    }
    frame := Frame(epoch, capsules, [], |found|);
  }

  lemma AggregatedSorted(fs: seq<FrameCapsule>, limit: nat, out: seq<FrameCapsule>)
    requires Aggregated(fs, limit, out)
    ensures |out| <= limit && SortedBy(out, FrameLeq)
  {
  }

  lemma ScannedDisclosed(segments: seq<Segment>, p: Probe, score: Capsule -> real, fs: seq<FrameCapsule>)
    requires forall f :: f in fs <==> f in Passing(Flatten(segments), p, score)
    ensures AllDisclosed(segments, p, fs) && (fs != [] <==> SomePasses(segments, p))
  {
    hide Passing, PassesGates, Flatten;
    PassingElements(Flatten(segments), p, score);
    forall f | f in fs ensures Disclosed(segments, p, f) {
      var c :| c in Flatten(segments) && PassesGates(c, p) && f == MakeFrame(c, score(c), []);
      assert Shows(f, c);
    }
    if fs != [] { assert fs[0] in fs && Disclosed(segments, p, fs[0]); }
    if c :| c in Flatten(segments) && PassesGates(c, p) { assert MakeFrame(c, score(c), []) in fs; }
  }

  // ---------------------------------------------------------------- tombstones and duplicates

  /** First entry of each id, hidden ids skipped. */
  function FirstVisible(fs: seq<FrameCapsule>, hidden: set<u128>): seq<FrameCapsule> {
    if fs == [] then []
    else if fs[0].id in hidden then FirstVisible(fs[1..], hidden)
    else [fs[0]] + FirstVisible(fs[1..], hidden + {fs[0].id})
  }

  lemma {:induction false} FirstVisibleEntries(fs: seq<FrameCapsule>, hidden: set<u128>)
    ensures var out := FirstVisible(fs, hidden);
            && |out| <= |fs| && (forall f :: f in out ==> f in fs && f.id !in hidden)
            && (hidden == {} && fs != [] ==> out != [])
    decreases |fs|
  {
    if fs != [] {
      FirstVisibleEntries(fs[1..], if fs[0].id in hidden then hidden else hidden + {fs[0].id});
    }
  }

  ghost predicate HasId(fs: seq<FrameCapsule>, id: u128) {
    exists f :: f in fs && f.id == id
  }

  lemma HasIdFirst(f: FrameCapsule, fs: seq<FrameCapsule>)
    ensures HasId([f] + fs, f.id)
  {
    assert f in [f] + fs;
  }

  lemma HasIdLater(f: FrameCapsule, fs: seq<FrameCapsule>, id: u128)
    requires HasId(fs, id)
    ensures HasId([f] + fs, id)
  {
    var g :| g in fs && g.id == id;
    assert g in [f] + fs;
  }

  /** Each visible id is there, once. */
  lemma {:induction false} FirstVisibleOnce(fs: seq<FrameCapsule>, hidden: set<u128>)
    ensures DistinctFrames(FirstVisible(fs, hidden))
    ensures forall g :: g in fs && g.id !in hidden ==> HasId(FirstVisible(fs, hidden), g.id)
    decreases |fs|
  {
    if fs != [] {
      hide HasId;
      var f := fs[0];
      var hidden' := if f.id in hidden then hidden else hidden + {f.id};
      FirstVisibleOnce(fs[1..], hidden');
      FirstVisibleEntries(fs[1..], hidden');
      var tail := FirstVisible(fs[1..], hidden');
      if f.id !in hidden {
        var out := [f] + tail;
        forall i, j | 0 <= i < j < |out| ensures out[i].id != out[j].id { if i == 0 { assert out[j] in tail; } }
        forall g | g in fs && g.id !in hidden ensures HasId(out, g.id) {
          if g.id == f.id {
            HasIdFirst(f, tail);
          } else {
            HasIdLater(f, tail, g.id);
          }
        }
      }
    }
  }

  /** In score order, the entry kept for an id is its highest-scoring one. */
  lemma {:induction false} FirstVisibleHighest(fs: seq<FrameCapsule>, hidden: set<u128>)
    requires SortedBy(fs, FrameLeq)
    ensures SortedBy(FirstVisible(fs, hidden), FrameLeq)
    ensures forall f, g :: f in FirstVisible(fs, hidden) && g in fs && g.id == f.id ==> FrameLeq(f, g)
    decreases |fs|
  {
    if fs != [] {
      var f, rest := fs[0], fs[1..];
      FrameReflexive(f);
      hide FrameLeq;
      forall g | g in rest ensures FrameLeq(f, g) {
        var i :| 0 <= i < |rest| && rest[i] == g;
        assert fs[i + 1] == g;
      }
      forall i, j | 0 <= i < j < |rest| ensures FrameLeq(rest[i], rest[j]) { assert fs[i + 1] == rest[i] && fs[j + 1] == rest[j]; }
      var hidden' := if f.id in hidden then hidden else hidden + {f.id};
      FirstVisibleHighest(rest, hidden');
      FirstVisibleEntries(rest, hidden');
      var tail := FirstVisible(rest, hidden');
      if f.id !in hidden {
        var out := [f] + tail;
        forall i, j | 0 <= i < j < |out| ensures FrameLeq(out[i], out[j]) { if i == 0 { assert out[j] in tail; } }
      }
    }
  }

  lemma FrameReflexive(f: FrameCapsule)
    ensures FrameLeq(f, f)
  {
  }

  /** The `retain` over capsules in `apply_tombstones_and_dedup`. */
  method RetainVisible(fs: seq<FrameCapsule>, hidden: set<u128>) returns (out: seq<FrameCapsule>)
    ensures out == FirstVisible(fs, hidden)
  {
    out := [];
    var seen := hidden;
    for i := 0 to |fs|
      invariant out + FirstVisible(fs[i..], seen) == FirstVisible(fs, hidden)
    {
      assert fs[i..][0] == fs[i] && fs[i..][1..] == fs[i + 1..];
      if fs[i].id !in seen {
        ghost var rest := FirstVisible(fs[i + 1..], seen + {fs[i].id});
        assert out + ([fs[i]] + rest) == (out + [fs[i]]) + rest;
        out := out + [fs[i]];
        seen := seen + {fs[i].id};
      }
    }
    assert out + [] == out;
  }

  method RetainConflicts(fs: seq<FrameCapsule>, hidden: set<u128>) returns (out: seq<FrameCapsule>)
    ensures forall f :: f in out <==> f in fs && f.id !in hidden
  {
    out := [];
    for i := 0 to |fs|
      invariant forall f :: f in out <==> f in fs[..i] && f.id !in hidden
    {
      assert fs[..i + 1] == fs[..i] + [fs[i]];
      if fs[i].id !in hidden { out := out + [fs[i]]; }
    }
  }

  /** Every id of `found` that is not hidden keeps its highest-scoring entry, and nothing else is kept. */
  ghost predicate VisibleOf(found: seq<FrameCapsule>, hidden: set<u128>, out: seq<FrameCapsule>) {
    && (forall f :: f in out ==> f in found && f.id !in hidden)
    && (forall g :: g in found && g.id !in hidden ==> HasId(out, g.id))
    && (forall f, g :: f in out && g in found && g.id == f.id ==> FrameLeq(f, g))
  }

  /** `apply_tombstones_and_dedup`, on a frame in score order. */
  method ApplyTombstonesAndDedup(found: Frame, hidden: set<u128>, limit: nat) returns (frame: Frame)
    requires SortedBy(found.capsules, FrameLeq) && |found.capsules| <= limit
    ensures |frame.capsules| <= limit && DistinctFrames(frame.capsules) && SortedBy(frame.capsules, FrameLeq)
    ensures VisibleOf(found.capsules, hidden, frame.capsules)
    ensures forall f :: f in frame.conflicts <==> f in found.conflicts && f.id !in hidden
    ensures hidden == {} ==> (frame.capsules == [] <==> found.capsules == [])
  {
    hide FrameLeq, HasId, FirstVisible;
    var capsules := RetainVisible(found.capsules, hidden);
    FirstVisibleEntries(found.capsules, hidden);
    FirstVisibleOnce(found.capsules, hidden);
    FirstVisibleHighest(found.capsules, hidden);
    var conflicts := RetainConflicts(found.conflicts, hidden);
    assert Take(capsules, limit) == capsules;
    frame := found.(capsules := Take(capsules, limit), conflicts := conflicts);
  }

  // ---------------------------------------------------------------- the query

  /** Something in the tiers answers the probe, by the standard of the mode. */
  ghost predicate Answerable(mode: Mode, segments: seq<Segment>, p: Probe) {
    if mode == L5m || mode == ParentAggregate then SomeEligible(segments, p) else SomePasses(segments, p)
  }

  ghost predicate Scannable(segments: seq<Segment>) {
    forall s :: s in segments ==> |s.capsules| <= U32_WRAP && DistinctIds(s.capsules)
  }

  lemma TiersScannable(s: MemoryStore)
    requires s.Valid() && forall g :: g in LiveSegments(s) ==> |g.capsules| <= U32_WRAP
    ensures Scannable(LiveSegments(s))
  {
  }

  /** The probe each segment is asked: the aggregating mode asks for more. */
  function Searching(p: Probe, mode: Mode): Probe {
    if mode == ParentAggregate then p.(maxCapsules := Widened(p.maxCapsules)) else p
  }

  predicate Merges(mode: Mode) {
    mode == L5m || mode == ParentAggregate
  }

  /** One best entry per source, of the best latest entries of the segments' answers. */
  ghost predicate AggregatesLatest(latest: map<u128, FrameCapsule>, p: Probe, out: seq<FrameCapsule>) {
    exists wide :: BestLatest(wide, latest, Widened(p.maxCapsules)) && Aggregated(wide, p.maxCapsules, out)
  }

  /** What each mode answers with, before deleted ids are taken out. */
  ghost predicate ByMode(segments: seq<Segment>, p: Probe, mode: Mode, scoring: Scoring, frames: seq<Frame>, out: seq<FrameCapsule>) {
    match mode
    case L5m => BestLatest(out, Latest(Entries(frames)), p.maxCapsules)
    case ParentAggregate => AggregatesLatest(Latest(Entries(frames)), p, out)
    case HybridBm25L5m => out == Top(Passing(Flatten(segments), p, scoring.hybrid), p.maxCapsules)
    case RrfFusionParent =>
      var scored := Passing(Flatten(segments), p, scoring.parent);
      Aggregated(Top(scored, |scored|), p.maxCapsules, out)
  }

  /** In the merging modes `frames` are the answers of the segments one by one. */
  method RetrieveMode(env: Env, segments: seq<Segment>, p: Probe, mode: Mode, config: RetrievalConfig, scoring: Scoring)
    returns (frame: Frame, ghost frames: seq<Frame>)
    requires Scannable(segments) && config.rrfK >= 0.0
    ensures |frame.capsules| <= p.maxCapsules
    ensures AllDisclosed(segments, p, frame.capsules) && AllConflictsDisclosed(segments, p, frame.conflicts)
    ensures SortedBy(frame.capsules, FrameLeq)
    ensures Merges(mode) ==> AllAnswer(env, segments, Searching(p, mode), config, frames) && FromLatest(frame.capsules, frames)
    ensures ByMode(segments, p, mode, scoring, frames, frame.capsules)
    ensures frame.conflicts == if Merges(mode) then Conflicts(frames) else []
    ensures Merges(mode) ==> forall f :: f in frame.capsules ==> ShowsEligible(segments, p, f)
    ensures config.maxScored >= 1 && p.maxCapsules >= 1 ==> (frame.capsules != [] <==> Answerable(mode, segments, p))
  {
    hide AllDisclosed, AllConflictsDisclosed, AllAnswer, FrameLeq, SomeEligible, SomePasses, Latest, Aggregated, Passing, Flatten, Top, ShowsEligible, Conflicts, Entries;
    frames := [];
    match mode {
      case L5m =>
        frame, frames := RetrieveL5m(env, segments, p, config, scoring);
        LatestShowsEligible(env, segments, p, config, frames, frame.capsules);
      case ParentAggregate =>
        ghost var wide;
        frame, wide, frames := RetrieveParentAggregate(env, segments, p, config, scoring);
        AggregatedSorted(wide, p.maxCapsules, frame.capsules);
        AggregatedFromLatest(wide, p.maxCapsules, frame.capsules, Widened(p.maxCapsules), frames);
        LatestShowsEligible(env, segments, Searching(p, mode), config, frames, frame.capsules);
        WideningKeepsGates(segments, p, Searching(p, mode));
      case _ =>
        ghost var scored;
        frame, scored := RetrieveFusion(segments, p, scoring, mode == RrfFusionParent);
        NoConflicts(segments, p);
    }
  }

  lemma NoConflicts(segments: seq<Segment>, p: Probe)
    ensures AllConflictsDisclosed(segments, p, [])
  {
  }

  /**
   `query`, in every mode: distinct ids, at most the limit, best first; no tombstoned id among the
   entries or the conflicts; every entry shows a capsule of some tier that passes all gates, every
   conflict one that is authorized; every id shown is live; in the merging modes every entry is
   eligible in its own segment and is the latest of the segments' answers, all of which are there if
   they fit the limit; with no tombstones the answer is empty only when no tier holds an answer; and
   the entries are what the mode's own standard finds, less the hidden ids.
   */
  method Query(env: Env, store: MemoryStore, p: Probe, mode: Mode, config: RetrievalConfig, scoring: Scoring)
    returns (frame: Frame, ghost frames: seq<Frame>, ghost found: seq<FrameCapsule>)
    requires store.Valid() && config.rrfK >= 0.0
    requires forall s :: s in LiveSegments(store) ==> |s.capsules| <= U32_WRAP
    ensures |frame.capsules| <= p.maxCapsules && DistinctFrames(frame.capsules) && SortedBy(frame.capsules, FrameLeq)
    ensures forall i, j :: 0 <= i < j < |frame.capsules| ==>
              var a, b := frame.capsules[i], frame.capsules[j];
              a.score > b.score || (a.score == b.score && (a.trustLevel > b.trustLevel || (a.trustLevel == b.trustLevel && a.validFrom >= b.validFrom)))
    ensures forall f :: f in frame.capsules ==> f.id !in store.tombstones && Disclosed(LiveSegments(store), p, f)
    ensures forall f :: f in frame.conflicts ==> f.id !in store.tombstones && DisclosedConflict(LiveSegments(store), p, f)
    ensures forall f :: f in frame.capsules ==> Released(LiveSegments(store), p, f)
    ensures forall f :: f in frame.conflicts ==> ReleasedConflict(LiveSegments(store), p, f)
    ensures forall f :: f in frame.capsules || f in frame.conflicts ==> f.id in store.Tiers().View()
    ensures Merges(mode) ==> forall f :: f in frame.capsules ==> ShowsEligible(LiveSegments(store), p, f)
    ensures Merges(mode) ==>
      AllAnswer(env, LiveSegments(store), Searching(p, mode), config, frames) && FromLatest(frame.capsules, frames)
    ensures ByMode(LiveSegments(store), p, mode, scoring, frames, found) && VisibleOf(found, store.tombstones, frame.capsules)
    ensures forall f :: f in frame.conflicts <==> Merges(mode) && f in Conflicts(frames) && f.id !in store.tombstones
    ensures mode == L5m && |Latest(Entries(frames))| <= p.maxCapsules ==>
      forall id :: id in Latest(Entries(frames)) && id !in store.tombstones ==> Latest(Entries(frames))[id] in frame.capsules
    ensures mode == HybridBm25L5m ==> HighestCopies(Flatten(LiveSegments(store)), p, scoring.hybrid, frame.capsules)
    ensures config.maxScored >= 1 && p.maxCapsules >= 1 && store.tombstones == {} ==>
      (frame.capsules != [] <==> Answerable(mode, LiveSegments(store), p))
  {
    hide Lsm.Tiers.View, Answerable, FrameLeq, Passing, Disclosed, DisclosedConflict, HighestCopies, Top, Flatten, ShowsEligible, AllAnswer, Latest, BestLatest, AggregatesLatest, Aggregated, Conflicts, Entries, Released, ReleasedConflict;
    TiersScannable(store);
    var answer;
    answer, frames := RetrieveMode(env, LiveSegments(store), p, mode, config, scoring);
    found := answer.capsules;
    frame := ApplyTombstonesAndDedup(answer, store.tombstones, p.maxCapsules);
    ShownIsLive(store, p);
    OrderMeans(frame.capsules);
    forall f ensures Disclosed(LiveSegments(store), p, f) ==> Released(LiveSegments(store), p, f) { DisclosedIsReleased(LiveSegments(store), p, f); }
    forall f ensures DisclosedConflict(LiveSegments(store), p, f) ==> ReleasedConflict(LiveSegments(store), p, f) { DisclosedIsReleased(LiveSegments(store), p, f); }
    if mode == L5m && |Latest(Entries(frames))| <= p.maxCapsules {
      AllLatestKept(frames, store.tombstones, p.maxCapsules, found, frame.capsules);
    }
    if mode == HybridBm25L5m { HighestShown(Flatten(LiveSegments(store)), p, scoring.hybrid, found, frame.capsules); }
  }

  /** When the latest entries fit the limit, dropping the hidden ids drops nothing else. */
  lemma AllLatestKept(frames: seq<Frame>, hidden: set<u128>, limit: nat, found: seq<FrameCapsule>, out: seq<FrameCapsule>)
    requires BestLatest(found, Latest(Entries(frames)), limit) && |Latest(Entries(frames))| <= limit
    requires VisibleOf(found, hidden, out)
    ensures forall id :: id in Latest(Entries(frames)) && id !in hidden ==> Latest(Entries(frames))[id] in out
  {
    hide Latest, Entries, FrameLeq;
    var latest := Latest(Entries(frames));
    LatestEntries(Entries(frames));
    forall id | id in latest && id !in hidden ensures latest[id] in out {
      if latest[id] !in found {
        FewerThanKeys(found, latest, id);
      } else {
        var f :| f in out && f.id == id;
      }
    }
  }

  lemma FewerThanKeys(fs: seq<FrameCapsule>, latest: map<u128, FrameCapsule>, id: u128)
    requires DistinctFrames(fs) && forall f :: f in fs ==> f.id in latest.Keys - {id}
    requires id in latest
    ensures |fs| < |latest|
  {
    var keys := latest.Keys - {id};
    DistinctWithin(fs, keys);
    assert |keys| == |latest.Keys| - 1;
  }

  lemma {:induction false} DistinctWithin(fs: seq<FrameCapsule>, ids: set<u128>)
    requires DistinctFrames(fs) && forall f :: f in fs ==> f.id in ids
    ensures |fs| <= |ids|
    decreases |fs|
  {
    if fs != [] {
      forall f | f in fs[1..] ensures f.id in ids - {fs[0].id} {
        var i :| 0 <= i < |fs[1..]| && fs[1..][i] == f;
        assert fs[i + 1] == f;
      }
      DistinctWithin(fs[1..], ids - {fs[0].id});
    }
  }

  /** By score, then trust, then start of validity, each highest first. */
  lemma OrderMeans(fs: seq<FrameCapsule>)
    requires SortedBy(fs, FrameLeq)
    ensures forall i, j :: 0 <= i < j < |fs| ==>
              var a, b := fs[i], fs[j];
              a.score > b.score || (a.score == b.score && (a.trustLevel > b.trustLevel || (a.trustLevel == b.trustLevel && a.validFrom >= b.validFrom)))
  {
    forall i, j | 0 <= i < j < |fs| ensures FrameLeq(fs[i], fs[j]) {}
  }

  /** No copy that passes the gates scores above the one shown for its id. */
  ghost predicate HighestCopies(cs: seq<Capsule>, p: Probe, score: Capsule -> real, out: seq<FrameCapsule>) {
    forall f, c :: f in out && c in cs && c.id == f.id && PassesGates(c, p) ==> score(c) <= f.score
  }

  lemma HighestShown(cs: seq<Capsule>, p: Probe, score: Capsule -> real, found: seq<FrameCapsule>, out: seq<FrameCapsule>)
    requires exists n :: found == Top(Passing(cs, p, score), n)
    requires forall f :: f in out ==> f in found
    requires forall f, g :: f in out && g in found && g.id == f.id ==> FrameLeq(f, g)
    ensures HighestCopies(cs, p, score, out)
  {
    hide PassesGates, Passing, Top;
    var n: nat :| found == Top(Passing(cs, p, score), n);
    TopIsBest(Passing(cs, p, score), n);
    PassingElements(cs, p, score);
    forall f, c | f in out && c in cs && c.id == f.id && PassesGates(c, p) ensures score(c) <= f.score {
      var g := MakeFrame(c, score(c), []);
      assert g in Passing(cs, p, score);
      assert FrameLeq(f, g);
    }
  }

  /** Whatever a tier holds under an id that is not tombstoned, the live map holds too, queryable segment lagging or not. */
  lemma ShownIsLive(store: MemoryStore, p: Probe)
    requires store.Valid()
    ensures forall f: FrameCapsule :: f.id !in store.tombstones && Disclosed(LiveSegments(store), p, f) ==> f.id in store.Tiers().View()
    ensures forall f: FrameCapsule :: f.id !in store.tombstones && DisclosedConflict(LiveSegments(store), p, f) ==> f.id in store.Tiers().View()
  {
    hide PassesGates, Authorized, ViewOf, Flatten;
    forall c | c in Flatten(LiveSegments(store)) && c.id !in store.tombstones ensures c.id in store.Tiers().View() {
      HeldIsViewed(store, c);
    }
  }

  lemma HeldIsViewed(store: MemoryStore, c: Capsule)
    requires store.Valid() && c in Flatten(LiveSegments(store))
    ensures c.id in ViewOf(store.Tiers().Recent() + Flatten(store.segments))
  {
    hide ViewOf, Flatten, NewestFirst, IdSet;
    var all := store.Tiers().Recent() + Flatten(store.segments);
    FlattenElements(LiveSegments(store));
    FlattenElements(store.segments);
    NewestElements(store.sealedDeltas);
    var k :| 0 <= k < |LiveSegments(store)| && c in LiveSegments(store)[k].capsules;
    var holder: Capsule;
    if k < |store.segments| {
      assert c in store.segments[k].capsules;
      holder := c;
    } else if k < |store.segments| + |store.sealedDeltas| {
      assert c in store.sealedDeltas[k - |store.segments|].capsules;
      holder := c;
    } else {
      holder := SameIdInBuffer(store.deltaSegment.value.capsules, store.delta, c);
    }
    assert holder in all;
    ViewKeys(all);
    IdIn(all, holder);
  }

  lemma SameIdInBuffer(held: seq<Capsule>, buffer: seq<Capsule>, c: Capsule) returns (d: Capsule)
    requires IdSet(held) <= IdSet(buffer) && c in held
    ensures d in buffer && d.id == c.id
  {
    IdIn(held, c);
    var i :| 0 <= i < |buffer| && buffer[i].id == c.id;
    d := buffer[i];
  }

  lemma IdIn(cs: seq<Capsule>, c: Capsule)
    requires c in cs
    ensures c.id in IdSet(cs)
  {
    var i :| 0 <= i < |cs| && cs[i] == c;
  }

  lemma {:induction false} NewestElements(runs: seq<Segment>)
    ensures forall c, k :: 0 <= k < |runs| && c in runs[k].capsules ==> c in NewestFirst(runs)
    decreases |runs|
  {
    if runs != [] {
      NewestElements(runs[..|runs| - 1]);
    }
  }
}
