/**
 The durability protocol as a step machine: memory on one side, base files and the log on the
 other, a crash possible between any two steps. The memory steps are the ones the store's
 methods are proved to take; the files are bytes, written and read by the segment codec.
 */
module Durability {
  import opened Results
  import opened Capsules
  import opened SegmentLayout
  import opened SegmentReader
  import opened SegmentRoundTrip
  import opened WalCodec
  import opened Lsm
  import opened Store

  /** `bases` are the base file lists a restart may be given, readable or not. */
  datatype Disk = Disk(bases: set<seq<Bytes>>, log: seq<WalOp>)

  datatype Phase =
    | Idle
    | Logged(op: Op)              // appended, not yet applied or acknowledged
    | Written(checkpoint: Bytes)  // checkpoint on disk, not yet read back
    | Adopted(checkpoint: Bytes)  // read back and base in memory, log not yet dropped
    | Down(inFlight: Option<Op>)  // crashed; an operation was in the log but not acknowledged

  /** `acked` records the map the acknowledged writes have built. */
  datatype State = State(disk: Disk, memory: Tiers, config: Config, phase: Phase, acked: View)

  /** `replaced` are the base lists that used the path a checkpoint is written to. */
  datatype Action =
    | LogPut(capsule: Capsule)
    | LogDrop(id: u128)
    | Apply(op: Op)
    | ApplyInBatch(capsule: Capsule)
    | CompactRuns
    | CompactAll
    | WriteFile(checkpoint: Bytes, replaced: set<seq<Bytes>>)
    | AdoptFile(checkpoint: Bytes, base: Segment)
    | RefuseFile(checkpoint: Bytes)
    | DropLog(checkpoint: Bytes)
    | DropLogFails
    | Crash
    | Recover(files: seq<Bytes>, memory: Tiers)

  /** A capsule as `into_capsule` builds it from JSON, that the log and the record format can express. */
  ghost predicate Persistable(env: Env, c: Capsule) {
    Canonical(env, c) && FiniteLanes(c.embedding) && Sized(c) && TextValid(env, c)
  }

  /** What a stored capsule may be refused for on loading is a foreign edge, and nothing else. */
  ghost predicate Writable(env: Env, c: Capsule) {
    Sized(c) && TextValid(env, c) && HashesMatch(env, c)
  }

  predicate FilesFit(files: seq<Bytes>) {
    forall f :: f in files ==> |f| < ISIZE_LIMIT
  }

  /** What `open_durable` leaves in memory. */
  ghost predicate Reopened(env: Env, files: seq<Bytes>, log: seq<WalOp>, t: Tiers) {
    && FilesFit(files) && ParseAll(env, files).Ok? && DecodeAll(env, log).Ok?
    && var d := RunDelta(DecodeAll(env, log).value);
       && t.runs == [] && t.base == ParseAll(env, files).value
       && DistinctIds(t.delta) && ViewOf(t.delta) == ViewOf(d.buffer) && t.tombstones == d.tombstones
  }

  ghost predicate Enabled(env: Env, s: State, a: Action) {
    match a
    case LogPut(c) => s.phase == Idle && Persistable(env, c)
    case LogDrop(_) => s.phase == Idle
    case Apply(op) => s.phase == Logged(op)
    case ApplyInBatch(c) => s.phase == Logged(Put(c))
    case CompactRuns => s.phase == Idle
    case CompactAll => s.phase == Idle
    case WriteFile(file, replaced) =>
      s.phase == Idle && replaced <= s.disk.bases && CheckpointFits(s.memory) && CheckpointBytes(env, s.memory) == Ok(file)
    case AdoptFile(file, base) => s.phase == Written(file) && Loaded(env, Some(file)) == Some(base)
    case RefuseFile(file) => s.phase == Written(file) && Loaded(env, Some(file)) == None
    case DropLog(file) => s.phase == Adopted(file)
    case DropLogFails => s.phase.Adopted?
    case Crash => !s.phase.Down?
    case Recover(files, t) => s.phase.Down? && files in s.disk.bases && Reopened(env, files, s.disk.log, t)
  }

  function MemoryStep(t: Tiers, op: Op, config: Config): Tiers {
    match op
    case Put(c) => InsertStep(t, c, config)
    case Drop(id) => DeleteStep(t, id)
  }

  /**
   A checkpoint stays on disk whether or not it can be read back. `DropLog` covers a truncation
   that reports an error after emptying the log; `DropLogFails` one that leaves the log whole.
   */
  function Do(s: State, a: Action): State {
    match a
    case LogPut(c) =>
      s.(disk := s.disk.(log := s.disk.log + [Insert(ToRaw(c))]), phase := Logged(Put(c)))
    case LogDrop(id) =>
      s.(disk := s.disk.(log := s.disk.log + [Delete(Digits(id, 10))]), phase := Logged(Drop(id)))
    case Apply(op) => s.(memory := MemoryStep(s.memory, op, s.config), phase := Idle, acked := ApplyOp(op, s.acked))
    case ApplyInBatch(c) => s.(memory := BatchStep(s.memory, c, s.config), phase := Idle, acked := ApplyOp(Put(c), s.acked))
    case CompactRuns => s.(memory := CompactDeltaStep(s.memory))
    case CompactAll => s.(memory := CompactStep(s.memory))
    case WriteFile(file, replaced) =>
      s.(disk := s.disk.(bases := s.disk.bases - replaced + {[file]}), phase := Written(file))
    case AdoptFile(file, base) => s.(memory := AdoptStep(s.memory, base), phase := Adopted(file))
    case RefuseFile(_) => s.(phase := Idle)
    case DropLog(file) => s.(disk := Disk({[file]}, []), phase := Idle)
    case DropLogFails => s.(phase := Idle)
    case Crash => s.(phase := Down(if s.phase.Logged? then Some(s.phase.op) else None))
    case Recover(files, t) => s.(memory := t, phase := Idle, acked := Promised(s))
  }

  /** The memory a restart owes: every acknowledged write, and the one in flight if it reached the log. */
  function Promised(s: State): View {
    match s.phase
    case Logged(op) => ApplyOp(op, s.acked)
    case Down(Some(op)) => ApplyOp(op, s.acked)
    case _ => s.acked
  }

  ghost predicate WritableView(env: Env, v: View) {
    forall id :: id in v ==> Writable(env, v[id])
  }

  ghost predicate OwnedView(v: View) {
    forall id :: id in v ==> EdgesOwned(v[id])
  }

  /** Opening `files` and replaying the log succeeds and shows `v`. */
  ghost predicate Recovers(env: Env, files: seq<Bytes>, log: seq<WalOp>, v: View) {
    && FilesFit(files) && ParseAll(env, files).Ok? && DecodeAll(env, log).Ok?
    && ApplyAll(DecodeAll(env, log).value, ViewOf(Flatten(ParseAll(env, files).value))) == v
  }

  /** A base list that can be read recovers `v`. */
  ghost predicate Faithful(env: Env, files: seq<Bytes>, log: seq<WalOp>, v: View) {
    FilesFit(files) && (ParseAll(env, files).Ok? ==> Recovers(env, files, log, v))
  }

  /** The log can be read, and replaying it over `v` changes nothing. */
  ghost predicate Absorbed(env: Env, log: seq<WalOp>, v: View) {
    DecodeAll(env, log).Ok? && ApplyAll(DecodeAll(env, log).value, v) == v
  }

  /** A checkpoint that by itself stands for the acknowledged map. */
  ghost predicate Stands(env: Env, checkpoint: Bytes, v: View) {
    && |checkpoint| < ISIZE_LIMIT && Parse(env, checkpoint).Ok?
    && DistinctIds(Parse(env, checkpoint).value.capsules)
    && ViewOf(Parse(env, checkpoint).value.capsules) == v
  }

  ghost predicate Inv(env: Env, s: State) {
    && s.config.Valid() && WritableView(env, Promised(s)) && WritableView(env, s.acked)
    && Absorbed(env, s.disk.log, Promised(s))
    && (forall files :: files in s.disk.bases ==> Faithful(env, files, s.disk.log, Promised(s)))
    && (!s.phase.Down? ==> s.memory.Valid() && s.memory.View() == s.acked)
    && (s.phase.Written? && Loaded(env, Some(s.phase.checkpoint)).Some? ==> Stands(env, s.phase.checkpoint, s.acked))
    && (s.phase.Written? ==> [s.phase.checkpoint] in s.disk.bases)
    && (s.phase.Adopted? ==> [s.phase.checkpoint] in s.disk.bases && Stands(env, s.phase.checkpoint, s.acked))
  }

  /** No edge is foreign, and every base list a restart may be given can be read. */
  ghost predicate Safe(env: Env, s: State) {
    && OwnedView(s.acked) && OwnedView(Promised(s)) && s.disk.bases != {}
    && forall files :: files in s.disk.bases ==> FilesFit(files) && ParseAll(env, files).Ok?
  }

  // ---------------------------------------------------------------- one step

  lemma LogGrows(env: Env, files: seq<Bytes>, log: seq<WalOp>, entry: WalOp, op: Op, v: View)
    requires Recovers(env, files, log, v) && Decode(env, entry) == Ok(op)
    ensures Recovers(env, files, log + [entry], ApplyOp(op, v))
  {
    hide Decode, ViewOf, ParseAll, ApplyOp;
    DecodeSnoc(env, log, entry);
    ApplySnoc(DecodeAll(env, log).value, op, ViewOf(Flatten(ParseAll(env, files).value)));
  }

  lemma PutDecodes(env: Env, c: Capsule)
    requires Canonical(env, c) && FiniteLanes(c.embedding)
    ensures Decode(env, Insert(ToRaw(c))) == Ok(Put(c))
  {
    hide IntoCapsule, ToRaw, Canonical, FiniteLanes;
    LogRoundTrip(env, c);
  }

  lemma DropDecodes(env: Env, id: u128)
    ensures Decode(env, Delete(Digits(id, 10))) == Ok(Drop(id))
  {
    hide ParseU128, Digits;
    DecimalRoundTrip(id);
  }

  lemma AbsorbedGrows(env: Env, log: seq<WalOp>, entry: WalOp, op: Op, v: View)
    requires Absorbed(env, log, v) && Decode(env, entry) == Ok(op)
    ensures Absorbed(env, log + [entry], ApplyOp(op, v))
  {
    hide Decode, ApplyOp, ApplyAll;
    DecodeSnoc(env, log, entry);
    AbsorbsOneMore(DecodeAll(env, log).value, op, v);
  }

  lemma SingleFile(env: Env, file: Bytes)
    requires |file| < ISIZE_LIMIT
    ensures FilesFit([file]) && (ParseAll(env, [file]).Ok? <==> Parse(env, file).Ok?)
    ensures Parse(env, file).Ok? ==>
      ParseAll(env, [file]) == Ok([Parse(env, file).value]) && Flatten([Parse(env, file).value]) == Parse(env, file).value.capsules
  {
    hide Parse;
    assert [file][..0] == [] && [file][|[file]| - 1] == file;
    assert ParseAll(env, []) == Ok([]);
    if Parse(env, file).Ok? {
      assert [] + [Parse(env, file).value] == [Parse(env, file).value];
      SingleBase(Parse(env, file).value);
    }
  }

  /** A checkpoint standing for a map its log agrees with recovers that map, with the log or without. */
  lemma CheckpointRecovers(env: Env, log: seq<WalOp>, checkpoint: Bytes, v: View)
    requires Absorbed(env, log, v) && Stands(env, checkpoint, v)
    ensures Recovers(env, [checkpoint], log, v) && Recovers(env, [checkpoint], [], v)
  {
    hide Parse, ViewOf, ParseAll, ApplyAll, Flatten;
    SingleFile(env, checkpoint);
    NothingToReplay(env, v);
  }

  lemma NothingToReplay(env: Env, v: View)
    ensures DecodeAll(env, []) == Ok([]) && ApplyAll([], v) == v
  {
  }

  /** The capsules of an operator's segments that the log does not mention are in `v` as they are there. */
  ghost predicate StillLive(old_: View, ops: seq<Op>, v: View) {
    forall id :: id in old_ && !Mentions(ops, id) ==> id in v && v[id] == old_[id]
  }

  /**
   Listed after segments of the operator's, whose copies come first, a checkpoint of `v` and the log
   written since recover exactly when each capsule of those segments that the log does not mention
   is still in `v` unchanged.
   */
  lemma OperatorSegmentsFirst(env: Env, files: seq<Bytes>, checkpoint: Bytes, log: seq<WalOp>, v: View)
    requires FilesFit(files) && ParseAll(env, files).Ok? && Stands(env, checkpoint, v) && DecodeAll(env, log).Ok?
    ensures var old_, ops := ViewOf(Flatten(ParseAll(env, files).value)), DecodeAll(env, log).value;
            Recovers(env, files + [checkpoint], log, ApplyAll(ops, v)) <==> StillLive(old_, ops, v)
  {
    hide Parse, ViewOf, Flatten, ApplyAll, DecodeAll, Mentions;
    var old_, ops := ViewOf(Flatten(ParseAll(env, files).value)), DecodeAll(env, log).value;
    OperatorBase(env, files, checkpoint, v);
    SameAfterLog(ops, v + old_, v);
    if StillLive(old_, ops, v) {
      forall id: u128 | !Mentions(ops, id) ensures SameAt(v + old_, v, id) {}
    } else {
      var id :| id in old_ && !Mentions(ops, id) && !(id in v && v[id] == old_[id]);
      assert !SameAt(v + old_, v, id);
    }
  }

  /** With nothing logged since, all their capsules must still be live unchanged. */
  lemma OperatorSegmentsNoLog(env: Env, files: seq<Bytes>, checkpoint: Bytes, v: View)
    requires FilesFit(files) && ParseAll(env, files).Ok? && Stands(env, checkpoint, v)
    ensures var old_ := ViewOf(Flatten(ParseAll(env, files).value));
            Recovers(env, files + [checkpoint], [], v) <==> forall id :: id in old_ ==> id in v && v[id] == old_[id]
  {
    hide ParseAll, ViewOf, Flatten, Stands, Recovers, FilesFit;
    NothingToReplay(env, v);
    OperatorSegmentsFirst(env, files, checkpoint, [], v);
    NothingMentioned();
    hide Mentions;
  }

  lemma NothingMentioned()
    ensures forall id :: !Mentions([], id)
  {
  }

  /** What the operator's segments and a checkpoint show together. */
  lemma OperatorBase(env: Env, files: seq<Bytes>, checkpoint: Bytes, v: View)
    requires FilesFit(files) && ParseAll(env, files).Ok? && Stands(env, checkpoint, v)
    ensures var all := files + [checkpoint];
            && FilesFit(all) && ParseAll(env, all).Ok?
            && ViewOf(Flatten(ParseAll(env, all).value)) == v + ViewOf(Flatten(ParseAll(env, files).value))
  {
    hide Parse, ViewOf, Flatten, DistinctIds;
    var segments, last, all := ParseAll(env, files).value, Parse(env, checkpoint).value, files + [checkpoint];
    assert all[..|all| - 1] == files && all[|all| - 1] == checkpoint;
    FlattenSnoc(segments, last);
    ViewConcat(Flatten(segments), last.capsules);
    assert ParseAll(env, all) == Ok(segments + [last]);
  }

  /** The bytes written from memory load exactly when every live capsule owns its edges, and then hold the live map. */
  lemma WrittenStands(env: Env, t: Tiers)
    requires CheckpointFits(t) && WritableView(env, t.View()) && CheckpointBytes(env, t).Ok?
    ensures |CheckpointBytes(env, t).value| < ISIZE_LIMIT
    ensures Parse(env, CheckpointBytes(env, t).value).Ok? <==> OwnedView(t.View())
    ensures OwnedView(t.View()) ==> Stands(env, CheckpointBytes(env, t).value, t.View())
  {
    hide Parse, Assemble, Sorted, ViewOf, Sized, TextValid, HashesMatch, EdgesOwned, LiveList, Lsm.Tiers.View, DistinctIds, AssembledSize;
    var live := LiveList(t);
    LiveListIsView(t);
    ViewOfDistinct(live);
    ViewKeys(live);
    forall c | c in live ensures Writable(env, c) && c.id in t.View() && t.View()[c.id] == c {}
    AssembledSegmentLoads(env, live, t.epoch);
    SortedKeeps(live);
    if OwnedView(t.View()) {
      ViewOfPermutation(live, Sorted(live));
    } else {
      var id :| id in t.View() && !EdgesOwned(t.View()[id]);
      assert t.View()[id] in live && !Loadable(env, t.View()[id]);
    }
  }

  lemma ReopenedView(env: Env, files: seq<Bytes>, log: seq<WalOp>, t: Tiers)
    requires Reopened(env, files, log, t)
    ensures t.Valid() && Recovers(env, files, log, t.View())
  {
    hide Parse, ViewOf, ApplyAll, RunDelta, DecodeAll, Lsm.Tiers.View;
    var ops := DecodeAll(env, log).value;
    DeltaOverBase(ops, t.base, t.epoch);
    SameDeltaSameView(t.delta, RunDelta(ops).buffer, t.base, t.tombstones, t.epoch);
    assert t == Tiers(t.delta, [], t.base, t.tombstones, t.epoch);
    ParsedDistinct(env, files);
    ReplayedDisjoint(t.delta, ops);
  }

  lemma ApplyKeepsWritable(env: Env, op: Op, v: View)
    requires WritableView(env, v) && (op.Put? ==> Writable(env, op.capsule))
    ensures WritableView(env, ApplyOp(op, v))
  {
    hide Writable;
  }

  lemma PersistableIsWritable(env: Env, c: Capsule)
    ensures Persistable(env, c) ==> Writable(env, c) && Canonical(env, c) && FiniteLanes(c.embedding)
  {
    hide Sized, TextValid, HashesMatch, FiniteLanes;
  }

  lemma FaithfulGrows(env: Env, files: seq<Bytes>, log: seq<WalOp>, entry: WalOp, op: Op, v: View)
    requires Faithful(env, files, log, v) && Decode(env, entry) == Ok(op)
    ensures Faithful(env, files, log + [entry], ApplyOp(op, v))
  {
    hide Decode, ApplyOp, ParseAll, Recovers;
    if ParseAll(env, files).Ok? { LogGrows(env, files, log, entry, op, v); }
  }

  lemma LogStepKeeps(env: Env, s: State, a: Action)
    requires Inv(env, s) && Enabled(env, s, a) && (a.LogPut? || a.LogDrop?)
    ensures Inv(env, Do(s, a))
  {
    hide DecodeAll, ViewOf, ParseAll, ApplyAll, ToRaw, Digits, Faithful, Absorbed, Stands, Decode, Persistable, Writable, Canonical, Lsm.Tiers.View, Lsm.Tiers.Valid;
    var s' := Do(s, a);
    var entry := if a.LogPut? then Insert(ToRaw(a.capsule)) else Delete(Digits(a.id, 10));
    var op := if a.LogPut? then Put(a.capsule) else Drop(a.id);
    if a.LogPut? {
      PersistableIsWritable(env, a.capsule);
      PutDecodes(env, a.capsule);
    } else {
      DropDecodes(env, a.id);
    }
    ApplyKeepsWritable(env, op, s.acked);
    AbsorbedGrows(env, s.disk.log, entry, op, s.acked);
    forall files | files in s.disk.bases ensures Faithful(env, files, s'.disk.log, Promised(s')) {
      FaithfulGrows(env, files, s.disk.log, entry, op, s.acked);
    }
  }

  lemma MemoryStepKeeps(env: Env, s: State, a: Action)
    requires Inv(env, s) && Enabled(env, s, a) && (a.Apply? || a.ApplyInBatch? || a.CompactRuns? || a.CompactAll?)
    ensures Inv(env, Do(s, a))
  {
    hide DecodeAll, ViewOf, ParseAll, ApplyAll, Faithful, Absorbed, Stands, Lsm.Tiers.View, Lsm.Tiers.Valid, Writable;
    hide InsertStep, DeleteStep, BatchStep, CompactDeltaStep, CompactStep;
    match a {
      case Apply(op) =>
        match op {
          case Put(c) =>
            InsertUpdatesView(s.memory, c, s.config);
            InsertBoundsTiers(s.memory, c, s.config);
          case Drop(id) =>
            DeleteUpdatesView(s.memory, id);
            DeleteKeepsValid(s.memory, id);
        }
      case ApplyInBatch(c) => BatchUpdatesView(s.memory, c, s.config);
      case CompactRuns =>
        CompactDeltaKeepsView(s.memory);
        CompactDeltaKeepsValid(s.memory);
      case CompactAll => CompactKeepsView(s.memory);
    }
  }

  lemma StandingIsFaithful(env: Env, log: seq<WalOp>, checkpoint: Bytes, v: View)
    requires |checkpoint| < ISIZE_LIMIT && Absorbed(env, log, v) && (Parse(env, checkpoint).Ok? ==> Stands(env, checkpoint, v))
    ensures Faithful(env, [checkpoint], log, v)
    ensures Parse(env, checkpoint).Ok? ==> Faithful(env, [checkpoint], [], v) && Absorbed(env, [], v)
  {
    hide Parse, ViewOf, ParseAll, ApplyAll, Flatten, Stands, Absorbed;
    SingleFile(env, checkpoint);
    if Parse(env, checkpoint).Ok? {
      CheckpointRecovers(env, log, checkpoint, v);
      EmptyLogAbsorbed(env, v);
    }
  }

  lemma EmptyLogAbsorbed(env: Env, v: View)
    ensures Absorbed(env, [], v)
  {
    NothingToReplay(env, v);
  }

  lemma FileStepKeeps(env: Env, s: State, a: Action)
    requires Inv(env, s) && Enabled(env, s, a)
    requires a.WriteFile? || a.AdoptFile? || a.RefuseFile? || a.DropLog? || a.DropLogFails?
    ensures Inv(env, Do(s, a))
  {
    hide DecodeAll, ViewOf, ParseAll, ApplyAll, Faithful, Absorbed, Lsm.Tiers.View, Lsm.Tiers.Valid, Writable, EdgesOwned, Parse, AdoptStep, CheckpointBytes, CheckpointFits, DistinctIds;
    match a {
      case WriteFile(file, _) =>
        WrittenStands(env, s.memory);
        StandingIsFaithful(env, s.disk.log, file, s.acked);
      case AdoptFile(_, base) => AdoptView(s.memory, base);
      case RefuseFile(_) =>
      case DropLog(file) => StandingIsFaithful(env, s.disk.log, file, s.acked);
      case DropLogFails =>
    }
  }

  /** Every step keeps the invariant. */
  lemma StepKeeps(env: Env, s: State, a: Action)
    requires Inv(env, s) && Enabled(env, s, a)
    ensures Inv(env, Do(s, a))
  {
    hide Inv, Enabled, Do;
    if a.LogPut? || a.LogDrop? {
      LogStepKeeps(env, s, a);
    } else if a.Apply? || a.ApplyInBatch? || a.CompactRuns? || a.CompactAll? {
      MemoryStepKeeps(env, s, a);
    } else if a.WriteFile? || a.AdoptFile? || a.RefuseFile? || a.DropLog? || a.DropLogFails? {
      FileStepKeeps(env, s, a);
    } else if a.Recover? {
      RecoverKeeps(env, s, a);
    } else {
      CrashKeeps(env, s);
    }
  }

  lemma CrashKeeps(env: Env, s: State)
    requires Inv(env, s) && Enabled(env, s, Crash)
    ensures Inv(env, Do(s, Crash))
  {
    hide DecodeAll, Faithful, Absorbed, Stands, Lsm.Tiers.View, Lsm.Tiers.Valid, Writable, ApplyOp;
  }

  lemma RecoverKeeps(env: Env, s: State, a: Action)
    requires Inv(env, s) && Enabled(env, s, a) && a.Recover?
    ensures Inv(env, Do(s, a))
    ensures a.memory.View() == Promised(s)
  {
    hide DecodeAll, ViewOf, ParseAll, ApplyAll, Absorbed, Lsm.Tiers.View, Lsm.Tiers.Valid, Writable, ApplyOp;
    FaithfulView(env, a.files, s.disk.log, Promised(s), a.memory);
    hide Reopened, Faithful;
  }

  lemma FaithfulView(env: Env, files: seq<Bytes>, log: seq<WalOp>, v: View, t: Tiers)
    requires Faithful(env, files, log, v) && Reopened(env, files, log, t)
    ensures t.Valid() && t.View() == v && Recovers(env, files, log, v)
  {
    hide DecodeAll, ViewOf, ParseAll, ApplyAll, Lsm.Tiers.View, Lsm.Tiers.Valid;
    ReopenedView(env, files, log, t);
  }

  // ---------------------------------------------------------------- when checkpoints can be read

  /** In any reachable state the checkpoint about to be written can be read back exactly when every live capsule owns its edges. */
  lemma CheckpointReadable(env: Env, s: State)
    requires Inv(env, s) && s.phase == Idle && CheckpointFits(s.memory) && CheckpointBytes(env, s.memory).Ok?
    ensures var file := CheckpointBytes(env, s.memory).value;
            && (ParseAll(env, [file]).Ok? <==> OwnedView(s.acked))
            && (Loaded(env, Some(file)).Some? <==> OwnedView(s.acked))
            && (Recovers(env, [file], s.disk.log, s.acked) <==> OwnedView(s.acked))
  {
    hide Parse, ParseAll, Recovers, CheckpointBytes, CheckpointFits, Lsm.Tiers.View, Lsm.Tiers.Valid, EdgesOwned, Writable, Stands, Absorbed, Faithful;
    WrittenStands(env, s.memory);
    var file := CheckpointBytes(env, s.memory).value;
    SingleFile(env, file);
    if OwnedView(s.acked) {
      CheckpointRecovers(env, s.disk.log, file, s.acked);
    } else {
      UnreadableRecoversNothing(env, [file], s.disk.log, s.acked);
    }
  }

  lemma UnreadableRecoversNothing(env: Env, files: seq<Bytes>, log: seq<WalOp>, v: View)
    ensures FilesFit(files) && ParseAll(env, files).Err? ==> !Recovers(env, files, log, v)
  {
  }

  ghost predicate PutsOwned(a: Action) {
    a.LogPut? ==> EdgesOwned(a.capsule)
  }

  lemma StaysSafe(env: Env, s: State, a: Action)
    requires Inv(env, s) && Safe(env, s) && Enabled(env, s, a) && PutsOwned(a)
    ensures Safe(env, Do(s, a))
  {
    hide DecodeAll, ViewOf, ParseAll, ApplyAll, Absorbed, Faithful, Lsm.Tiers.View, Lsm.Tiers.Valid, Writable, EdgesOwned, Parse, AdoptStep, InsertStep, BatchStep, DeleteStep, CompactDeltaStep, CompactStep, CheckpointFits, CheckpointBytes, ToRaw, Digits, Persistable, Reopened;
    if a.WriteFile? {
      CheckpointReadable(env, s);
      SingleFile(env, a.checkpoint);
      WrittenStands(env, s.memory);
    } else if a.DropLog? {
      SingleFile(env, a.checkpoint);
    }
  }

  // ---------------------------------------------------------------- whole runs

  ghost predicate Runs(env: Env, s: State, actions: seq<Action>)
    decreases |actions|
  {
    actions == [] || (Enabled(env, s, actions[0]) && Runs(env, Do(s, actions[0]), actions[1..]))
  }

  function After(s: State, actions: seq<Action>): State
    decreases |actions|
  {
    if actions == [] then s else After(Do(s, actions[0]), actions[1..])
  }

  /** A store just opened on readable base files and an empty log. */
  ghost function Start(env: Env, files: seq<Bytes>, config: Config): State
    requires FilesFit(files) && ParseAll(env, files).Ok?
  {
    var base := ParseAll(env, files).value;
    State(Disk({files}, []), Tiers([], [], base, {}, NextEpoch(MaxEpoch(base))), config, Idle, ViewOf(Flatten(base)))
  }

  lemma StartHolds(env: Env, files: seq<Bytes>, config: Config)
    requires FilesFit(files) && ParseAll(env, files).Ok? && config.Valid()
    ensures Inv(env, Start(env, files, config)) && Safe(env, Start(env, files, config))
  {
    hide ViewOf, ParseAll, Sized, TextValid, HashesMatch, EdgesOwned, Flatten, MaxEpoch;
    var s := Start(env, files, config);
    var base := ParseAll(env, files).value;
    EmptyLogAbsorbed(env, s.acked);
    NothingToReplay(env, s.acked);
    StartMemory(base, s.memory);
    ParsedDistinct(env, files);
    ParsedLoadable(env, files);
    ViewKeys(Flatten(base));
    hide Loadable, Writable, Absorbed, Lsm.Tiers.View, Lsm.Tiers.Valid;
  }

  lemma StartMemory(base: seq<Segment>, t: Tiers)
    requires t == Tiers([], [], base, {}, t.epoch)
    ensures t.View() == ViewOf(Flatten(base))
    ensures (forall s :: s in base ==> DistinctIds(s.capsules)) ==> t.Valid()
  {
    hide ViewOf, Flatten;
    assert IdSet([]) == {};
    assert t.Recent() + Flatten(base) == Flatten(base);
  }

  lemma {:induction false} ParsedLoadable(env: Env, files: seq<Bytes>)
    requires FilesFit(files) && ParseAll(env, files).Ok?
    ensures forall c :: c in Flatten(ParseAll(env, files).value) ==> Sized(c) && Loadable(env, c)
    decreases |files|
  {
    hide Parse, Sized, Loadable;
    if files != [] {
      var front, last := ParseAll(env, files[..|files| - 1]).value, Parse(env, files[|files| - 1]).value;
      ParsedLoadable(env, files[..|files| - 1]);
      AcceptedSegment(env, files[|files| - 1]);
      FlattenSnoc(front, last);
    }
  }

  lemma {:induction false} FlattenSnoc(segments: seq<Segment>, s: Segment)
    ensures Flatten(segments + [s]) == Flatten(segments) + s.capsules
  {
    if segments == [] {
      assert (segments + [s])[1..] == [];
    } else {
      FlattenSnoc(segments[1..], s);
      assert (segments + [s])[1..] == segments[1..] + [s];
    }
  }

  lemma {:induction false} RunKeeps(env: Env, s: State, actions: seq<Action>)
    requires Inv(env, s) && Runs(env, s, actions)
    ensures Inv(env, After(s, actions))
    ensures Safe(env, s) && (forall a :: a in actions ==> PutsOwned(a)) ==> Safe(env, After(s, actions))
    decreases |actions|
  {
    hide Enabled, Do, Inv, Safe, PutsOwned;
    if actions != [] {
      StepKeeps(env, s, actions[0]);
      if Safe(env, s) && PutsOwned(actions[0]) { StaysSafe(env, s, actions[0]); }
      RunKeeps(env, Do(s, actions[0]), actions[1..]);
    }
  }

  /**
   At every point of every run the live view is the acknowledged map while the store is up, and any
   base list a restart may be given, if it can be read, recovers that map, plus the one operation
   in flight if that had reached the log.
   */
  lemma ReadableBaseRecovers(env: Env, files: seq<Bytes>, config: Config, actions: seq<Action>)
    requires FilesFit(files) && ParseAll(env, files).Ok? && config.Valid()
    requires Runs(env, Start(env, files, config), actions)
    ensures var s := After(Start(env, files, config), actions);
            && (!s.phase.Down? ==> s.memory.View() == s.acked)
            && (forall b, t :: b in s.disk.bases && Reopened(env, b, s.disk.log, t) ==> t.View() == Promised(s))
            && (forall b :: b in s.disk.bases ==> FilesFit(b) && (ParseAll(env, b).Ok? <==> Recovers(env, b, s.disk.log, Promised(s))))
  {
    hide Do, Enabled, Start, ViewOf, ParseAll, DecodeAll, ApplyAll, Reopened, Lsm.Tiers.View, Promised, Absorbed;
    StartHolds(env, files, config);
    RunKeeps(env, Start(env, files, config), actions);
    var s := After(Start(env, files, config), actions);
    forall b, t | b in s.disk.bases && Reopened(env, b, s.disk.log, t) ensures t.View() == Promised(s) {
      FaithfulView(env, b, s.disk.log, Promised(s), t);
    }
  }

  /**
   Durability. When every capsule inserted owns its edges, every base list a restart may be given,
   at every point of every run, opens and shows the acknowledged map, plus the operation in flight.
   */
  lemma NoAcknowledgedWriteLost(env: Env, files: seq<Bytes>, config: Config, actions: seq<Action>)
    requires FilesFit(files) && ParseAll(env, files).Ok? && config.Valid()
    requires Runs(env, Start(env, files, config), actions)
    requires forall a :: a in actions ==> PutsOwned(a)
    ensures var s := After(Start(env, files, config), actions);
            && s.disk.bases != {}
            && forall b :: b in s.disk.bases ==> Recovers(env, b, s.disk.log, Promised(s))
  {
    hide Do, Enabled, Start, ViewOf, ParseAll, DecodeAll, Recovers, Promised, Inv, Reopened, Lsm.Tiers.View;
    ReadableBaseRecovers(env, files, config, actions);
    StartHolds(env, files, config);
    RunKeeps(env, Start(env, files, config), actions);
  }

  /** The run in which one insert is acknowledged and then checkpointed over the only base. */
  function StrandingRun(c: Capsule, file: Bytes): seq<Action> {
    [LogPut(c), Apply(Put(c)), WriteFile(file, {[]}), RefuseFile(file)]
  }

  /** When the insert has a foreign edge, it stands acknowledged and no base list a restart may be given can be read. */
  lemma ForeignEdgeStrandsRestart(env: Env, c: Capsule, config: Config) returns (file: Bytes)
    requires Persistable(env, c) && !EdgesOwned(c) && AssembledSize([c]) < ISIZE_LIMIT && config.Valid()
    ensures var start := Start(env, [], config);
            && Runs(env, start, StrandingRun(c, file))
            && var s := After(start, StrandingRun(c, file));
               && s.acked == map[c.id := c] && s.memory.View() == s.acked && s.disk.bases == {[file]}
               && FilesFit([file]) && ParseAll(env, [file]).Err?
  {
    hide Persistable, EdgesOwned, Writable, Absorbed, Faithful, Stands, Parse, Lsm.Tiers.View, Lsm.Tiers.Valid, InsertStep, AssembledSize, CheckpointBytes, CheckpointFits, ToRaw, LiveList, Runs, After;
    var s0 := Start(env, [], config);
    StartHolds(env, [], config);
    var s1 := Do(s0, LogPut(c));
    StepKeeps(env, s0, LogPut(c));
    var s2 := Do(s1, Apply(Put(c)));
    StepKeeps(env, s1, Apply(Put(c)));
    assert s2.acked == map[c.id := c];
    OneLiveCapsule(env, s2.memory, c);
    file := CheckpointBytes(env, s2.memory).value;
    CheckpointReadable(env, s2);
    assert !OwnedView(s2.acked) by { assert c.id in s2.acked; }
    WrittenStands(env, s2.memory);
    var write, refuse := WriteFile(file, {[]}), RefuseFile(file);
    var s3 := Do(s2, write);
    StepKeeps(env, s2, write);
    StepKeeps(env, s3, refuse);
    SingleFile(env, file);
    assert [refuse] + [] == [refuse] && [write] + [refuse] == [write, refuse];
    assert [Apply(Put(c))] + [write, refuse] == [Apply(Put(c)), write, refuse];
    assert [LogPut(c)] + [Apply(Put(c)), write, refuse] == StrandingRun(c, file);
    NoMore(env, Do(s3, refuse));
    FirstStep(env, s3, refuse, []);
    FirstStep(env, s2, write, [refuse]);
    FirstStep(env, s1, Apply(Put(c)), [write, refuse]);
    FirstStep(env, s0, LogPut(c), [Apply(Put(c)), write, refuse]);
  }

  /** The run in which a capsule of the operator's segment is deleted and the deletion checkpointed. */
  function UndeletingRun(id: u128, file: Bytes, base: Segment): seq<Action> {
    [LogDrop(id), Apply(Drop(id)), WriteFile(file, {}), AdoptFile(file, base), DropLog(file)]
  }

  /** The deletion is acknowledged, yet with the operator's segment listed before the checkpoint a restart shows the capsule. */
  lemma OperatorSegmentUndeletes(env: Env, f: Bytes, config: Config, id: u128) returns (file: Bytes, base: Segment)
    requires FilesFit([f]) && ParseAll(env, [f]).Ok? && config.Valid() && id in Start(env, [f], config).acked
    requires CheckpointFits(DeleteStep(Start(env, [f], config).memory, id))
    ensures var start := Start(env, [f], config);
            && Runs(env, start, UndeletingRun(id, file, base))
            && var s := After(start, UndeletingRun(id, file, base));
               && s.acked == start.acked - {id} && s.memory.View() == s.acked && s.disk == Disk({[file]}, [])
               && Recovers(env, [f, file], s.disk.log, start.acked)
  {
    hide Inv, Parse, ParseAll, Flatten, ViewOf, Stands, Lsm.Tiers.View, Lsm.Tiers.Valid, DeleteStep, CheckpointBytes, CheckpointFits, Runs, After, Digits, MaxEpoch, EdgesOwned;
    var s0 := Start(env, [f], config);
    StartHolds(env, [f], config);
    var log, apply := LogDrop(id), Apply(Drop(id));
    var s1 := Do(s0, log);
    var s2 := Do(s1, apply);
    DeleteAcknowledged(env, s0, id);
    IdleMemory(env, s2);
    hide Enabled, Do, Recovers;
    PartAssembles(env, f, s2.memory, s0.acked);
    file, base := FullCheckpoint(env, s2);
    FirstStep(env, s1, apply, CheckpointSteps(file, base));
    FirstStep(env, s0, log, [apply] + CheckpointSteps(file, base));
    assert [log] + ([apply] + CheckpointSteps(file, base)) == UndeletingRun(id, file, base);
    OldBaseWins(env, f, file, s2.acked);
  }

  lemma DeleteAcknowledged(env: Env, s: State, id: u128)
    requires Inv(env, s) && s.phase == Idle
    ensures var s1 := Do(s, LogDrop(id));
            var s2 := Do(s1, Apply(Drop(id)));
            && Enabled(env, s, LogDrop(id)) && Enabled(env, s1, Apply(Drop(id))) && Inv(env, s2)
            && s2.phase == Idle && s2.memory == DeleteStep(s.memory, id) && s2.acked == s.acked - {id}
  {
    hide Inv, DeleteStep, Digits;
    StepKeeps(env, s, LogDrop(id));
    StepKeeps(env, Do(s, LogDrop(id)), Apply(Drop(id)));
  }

  /** A file listed before a checkpoint of part of what it holds shows all it holds. */
  lemma OldBaseWins(env: Env, f: Bytes, file: Bytes, v: View)
    requires FilesFit([f]) && ParseAll(env, [f]).Ok? && Stands(env, file, v)
    requires v.Keys <= ViewOf(Flatten(ParseAll(env, [f]).value)).Keys
    ensures Recovers(env, [f, file], [], ViewOf(Flatten(ParseAll(env, [f]).value)))
  {
    hide ParseAll, ViewOf, Flatten, Stands, ApplyAll, DecodeAll;
    var old_ := ViewOf(Flatten(ParseAll(env, [f]).value));
    OperatorBase(env, [f], file, v);
    NothingToReplay(env, old_);
    assert v + old_ == old_ && [f] + [file] == [f, file];
  }

  function CheckpointSteps(file: Bytes, base: Segment): seq<Action> {
    [WriteFile(file, {}), AdoptFile(file, base), DropLog(file)]
  }

  /** With all edges owned, a full compaction runs to its end and leaves its checkpoint alone on the disk. */
  lemma FullCheckpoint(env: Env, s: State) returns (file: Bytes, base: Segment)
    requires Inv(env, s) && s.phase == Idle && CheckpointFits(s.memory) && CheckpointBytes(env, s.memory).Ok? && OwnedView(s.acked)
    ensures Stands(env, file, s.acked) && Runs(env, s, CheckpointSteps(file, base))
    ensures var t := After(s, CheckpointSteps(file, base));
            && t.acked == s.acked && t.memory.View() == s.acked && t.disk == Disk({[file]}, []) && t.phase == Idle
  {
    hide Inv, Parse, Lsm.Tiers.View, Lsm.Tiers.Valid, CheckpointBytes, CheckpointFits, Runs, After, AdoptStep, ViewOf;
    IdleMemory(env, s);
    WrittenStands(env, s.memory);
    file := CheckpointBytes(env, s.memory).value;
    base := Parse(env, file).value;
    var write, adopt, dropLog := WriteFile(file, {}), AdoptFile(file, base), DropLog(file);
    var s1 := Do(s, write);
    var s2 := Do(s1, adopt);
    var s3 := Do(s2, dropLog);
    StepKeeps(env, s, write);
    StepKeeps(env, s1, adopt);
    StepKeeps(env, s2, dropLog);
    IdleMemory(env, s3);
    NoMore(env, s3);
    assert [dropLog] + [] == [dropLog] && [adopt] + [dropLog] == [adopt, dropLog];
    FirstStep(env, s2, dropLog, []);
    FirstStep(env, s1, adopt, [dropLog]);
    FirstStep(env, s, write, [adopt, dropLog]);
    assert [write] + [adopt, dropLog] == CheckpointSteps(file, base);
  }

  lemma IdleMemory(env: Env, s: State)
    requires Inv(env, s) && s.phase == Idle
    ensures WritableView(env, s.memory.View()) && s.memory.View() == s.acked
  {
    hide Lsm.Tiers.View, Lsm.Tiers.Valid, Faithful, Absorbed, Writable;
  }

  /** A memory showing part of what one file holds can be assembled. */
  lemma PartAssembles(env: Env, f: Bytes, t: Tiers, old_: View)
    requires FilesFit([f]) && ParseAll(env, [f]).Ok? && old_ == ViewOf(Flatten(ParseAll(env, [f]).value))
    requires forall id :: id in t.View() ==> id in old_ && t.View()[id] == old_[id]
    ensures CheckpointBytes(env, t).Ok?
  {
    hide Parse, ParseAll, ViewOf, Flatten, LiveList, Lsm.Tiers.View, Assemble, DistinctIds;
    SingleFile(env, f);
    AcceptedSegment(env, f);
    var live := LiveList(t);
    LiveListIsView(t);
    ViewOfDistinct(live);
    ViewKeys(Flatten(ParseAll(env, [f]).value));
    forall c | c in live ensures c in Parse(env, f).value.capsules {
      assert c.id in t.View() && t.View()[c.id] == c;
    }
    AssemblyFails(env, live, t.epoch);
  }

  lemma NoMore(env: Env, s: State)
    ensures Runs(env, s, []) && After(s, []) == s
  {
  }

  lemma FirstStep(env: Env, s: State, a: Action, rest: seq<Action>)
    requires Enabled(env, s, a) && Runs(env, Do(s, a), rest)
    ensures Runs(env, s, [a] + rest) && After(s, [a] + rest) == After(Do(s, a), rest)
  {
    hide Enabled, Do;
    assert ([a] + rest)[1..] == rest;
  }

  lemma AtMostOne(cs: seq<Capsule>, id: u128)
    requires forall c :: c in cs ==> c.id == id
    ensures DistinctIds(cs) ==> |cs| <= 1
  {
    if |cs| >= 2 {
      assert cs[0] in cs && cs[1] in cs;
    }
  }

  /** A memory showing one capsule writes that capsule alone. */
  lemma OneLiveCapsule(env: Env, t: Tiers, c: Capsule)
    requires t.View() == map[c.id := c]
    ensures LiveList(t) == [c]
    ensures AssembledSize([c]) < ISIZE_LIMIT ==> CheckpointFits(t)
    ensures CheckpointBytes(env, t).Ok?
  {
    hide LiveList, Lsm.Tiers.View, ViewOf, AssembledSize, Assemble;
    var live := LiveList(t);
    LiveListIsView(t);
    ViewOfDistinct(live);
    ViewKeys(live);
    assert c.id in ViewOf(live) && c in live;
    forall i | 0 <= i < |live| ensures live[i] == c { assert live[i] in live; }
    AtMostOne(live, c.id);
    assert live == [c];
    SortedKeeps([c]);
    assert Sorted([c]) == [c] by { assert |Sorted([c])| == 1 && Sorted([c])[0] in Sorted([c]); }
    AssemblyFails(env, [c], t.epoch);
  }

  // ---------------------------------------------------------------- deletes

  predicate Puts(a: Action, id: u128) {
    a.LogPut? && a.capsule.id == id
  }

  lemma StaysOut(env: Env, s: State, a: Action, id: u128)
    requires Inv(env, s) && Enabled(env, s, a) && id !in Promised(s) && !Puts(a, id)
    ensures id !in Promised(Do(s, a))
    ensures id !in s.acked ==> id !in Do(s, a).acked
  {
    hide Inv, InsertStep, BatchStep, CompactDeltaStep, CompactStep, DeleteStep, AdoptStep, Parse, Reopened, ToRaw, Digits, CheckpointBytes, CheckpointFits;
  }

  /**
   Deleted stays deleted: once an id is out of the promised memory, no run that does not insert it
   again brings it back, through seals, compactions, checkpoints, crashes and recoveries; and once
   its deletion is acknowledged it is out of the live map whenever the store is up.
   */
  lemma {:induction false} DeletedStaysDeleted(env: Env, s: State, actions: seq<Action>, id: u128)
    requires Inv(env, s) && Runs(env, s, actions) && id !in Promised(s)
    requires forall a :: a in actions ==> !Puts(a, id)
    ensures var s' := After(s, actions);
            && id !in Promised(s') && (s'.phase.Idle? ==> id !in s'.memory.View())
            && (id !in s.acked ==> id !in s'.acked && (!s'.phase.Down? ==> id !in s'.memory.View()))
    decreases |actions|
  {
    if actions == [] {
    } else {
      StaysOut(env, s, actions[0], id);
      hide Enabled, Do, Inv, Promised;
      StepKeeps(env, s, actions[0]);
      DeletedStaysDeleted(env, Do(s, actions[0]), actions[1..], id);
    }
  }
}
