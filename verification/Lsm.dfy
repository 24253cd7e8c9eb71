/** What the tiers of the store mean: one map from id to capsule, and what each operation does to it. */
module Lsm {
  import opened Results
  import opened Capsules
  import opened WalCodec
  import opened Maps

  type View = map<u128, Capsule>

  /** The first copy of each id wins. */
  function ViewOf(cs: seq<Capsule>): (v: View)
    ensures forall id :: id in v ==> v[id].id == id
  {
    if cs == [] then map[] else ViewOf(cs[1..])[cs[0].id := cs[0]]
  }

  function Flatten(segments: seq<Segment>): seq<Capsule> {
    if segments == [] then [] else segments[0].capsules + Flatten(segments[1..])
  }

  /** Sealed runs are stored oldest first. */
  function NewestFirst(runs: seq<Segment>): seq<Capsule> {
    if runs == [] then [] else runs[|runs| - 1].capsules + NewestFirst(runs[..|runs| - 1])
  }

  /** Everything a query or a compaction looks at; `epoch` is the next one to be stamped. */
  datatype Tiers = Tiers(delta: seq<Capsule>, runs: seq<Segment>, base: seq<Segment>, tombstones: set<u128>, epoch: u64)
  {
    function Recent(): seq<Capsule> {
      delta + NewestFirst(runs)
    }

    /** The live memory: newest copy of each id, tombstoned ids hidden. */
    function View(): View {
      ViewOf(Recent() + Flatten(base)) - tombstones
    }

    /** No tier repeats an id, and the buffer holds no hidden one. */
    ghost predicate Valid() {
      && DistinctIds(delta) && IdSet(delta) !! tombstones
      && (forall s :: s in runs ==> DistinctIds(s.capsules))
      && (forall s :: s in base ==> DistinctIds(s.capsules))
    }
  }

  // ---------------------------------------------------------------- views of sequences

  lemma {:induction false} ViewConcat(a: seq<Capsule>, b: seq<Capsule>)
    ensures ViewOf(a + b) == ViewOf(b) + ViewOf(a)
  {
    if a == [] {
      assert a + b == b;
    } else {
      ViewConcat(a[1..], b);
      assert (a + b)[1..] == a[1..] + b;
      UnionUpdate(ViewOf(b), ViewOf(a[1..]), a[0].id, a[0]);
    }
  }

  lemma {:induction false} ViewKeys(cs: seq<Capsule>)
    ensures ViewOf(cs).Keys == IdSet(cs)
    ensures forall id :: id in ViewOf(cs) ==> ViewOf(cs)[id] in cs
  {
    if cs == [] {
      assert IdSet(cs) == {};
    } else {
      ViewKeys(cs[1..]);
      assert IdSet(cs) == IdSet(cs[1..]) + {cs[0].id} by {
        assert Ids(cs) == [cs[0].id] + Ids(cs[1..]);
      }
    }
  }

  /** With distinct ids the view holds every capsule, whatever the order. */
  lemma {:induction false} ViewOfDistinct(cs: seq<Capsule>)
    requires DistinctIds(cs)
    ensures forall c :: c in cs ==> c.id in ViewOf(cs) && ViewOf(cs)[c.id] == c
  {
    if cs != [] {
      ViewOfDistinct(cs[1..]);
      ViewKeys(cs[1..]);
      forall c | c in cs ensures c.id in ViewOf(cs) && ViewOf(cs)[c.id] == c {
        var i :| 0 <= i < |cs| && cs[i] == c;
        assert i > 0 ==> cs[1..][i - 1] == c;
      }
    }
  }

  lemma ViewOfPermutation(xs: seq<Capsule>, ys: seq<Capsule>)
    requires DistinctIds(xs) && DistinctIds(ys) && forall c :: c in xs <==> c in ys
    ensures ViewOf(xs) == ViewOf(ys)
  {
    ViewOfDistinct(xs);
    ViewOfDistinct(ys);
    ViewKeys(xs);
    ViewKeys(ys);
    forall id ensures id in ViewOf(xs) <==> id in ViewOf(ys) {
      if id in ViewOf(xs) { assert ViewOf(xs)[id] in ys; }
      if id in ViewOf(ys) { assert ViewOf(ys)[id] in xs; }
    }
    forall id | id in ViewOf(xs) ensures ViewOf(xs)[id] == ViewOf(ys)[id] {
      assert ViewOf(xs)[id] in ys;
    }
  }

  // ---------------------------------------------------------------- the buffer

  /** `retain(|existing| existing.capsule_id != id)`. */
  function Without(cs: seq<Capsule>, id: u128): seq<Capsule> {
    if cs == [] then []
    else if cs[0].id == id then Without(cs[1..], id)
    else [cs[0]] + Without(cs[1..], id)
  }

  lemma {:induction false} WithoutView(cs: seq<Capsule>, id: u128)
    ensures ViewOf(Without(cs, id)) == ViewOf(cs) - {id}
  {
    if cs != [] {
      var c, rest := cs[0], cs[1..];
      WithoutView(rest, id);
      if c.id == id {
        RemoveUpdated(ViewOf(rest), id, c);
      } else {
        RemoveOther(ViewOf(rest), c.id, c, id);
        assert ([c] + Without(rest, id))[1..] == Without(rest, id);
      }
    }
  }

  lemma {:induction false} WithoutElements(cs: seq<Capsule>, id: u128)
    ensures forall c :: c in Without(cs, id) <==> c in cs && c.id != id
    ensures |Without(cs, id)| <= |cs|
    ensures DistinctIds(cs) ==> DistinctIds(Without(cs, id))
  {
    if cs != [] {
      var c, rest := cs[0], cs[1..];
      WithoutElements(rest, id);
      if DistinctIds(cs) {
        DistinctTail(cs);
        if c.id != id { DistinctCons(c, Without(rest, id)); }
      }
    }
  }

  lemma DistinctTail(cs: seq<Capsule>)
    requires DistinctIds(cs) && cs != []
    ensures DistinctIds(cs[1..]) && forall d :: d in cs[1..] ==> d.id != cs[0].id
  {
    forall d | d in cs[1..] ensures d.id != cs[0].id {
      var i :| 0 <= i < |cs[1..]| && cs[1..][i] == d;
      assert cs[i + 1] == d;
    }
  }

  lemma DistinctCons(c: Capsule, rest: seq<Capsule>)
    requires DistinctIds(rest) && forall d :: d in rest ==> d.id != c.id
    ensures DistinctIds([c] + rest)
  {
    var all := [c] + rest;
    forall i, j | 0 <= i < j < |all| ensures all[i].id != all[j].id {
      if i == 0 { assert all[j] in rest; } else { assert all[i] == rest[i - 1] && all[j] == rest[j - 1]; }
    }
  }

  lemma DistinctSnoc(cs: seq<Capsule>, c: Capsule)
    requires DistinctIds(cs) && forall d :: d in cs ==> d.id != c.id
    ensures DistinctIds(cs + [c])
  {
    var all := cs + [c];
    forall i, j | 0 <= i < j < |all| ensures all[i].id != all[j].id {
      assert all[i] in cs;
    }
  }

  function Pushed(cs: seq<Capsule>, c: Capsule): seq<Capsule> {
    Without(cs, c.id) + [c]
  }

  lemma SingleView(c: Capsule)
    ensures ViewOf([c]) == map[c.id := c]
  {
    assert [c][1..] == [];
  }

  lemma PushedView(cs: seq<Capsule>, c: Capsule)
    ensures ViewOf(Pushed(cs, c)) == ViewOf(cs)[c.id := c]
  {
    hide ViewOf;
    WithoutView(cs, c.id);
    ViewConcat(Without(cs, c.id), [c]);
    SingleView(c);
    UpdateRemoved(ViewOf(cs), c.id, c);
  }

  lemma PushedDistinct(cs: seq<Capsule>, c: Capsule)
    requires DistinctIds(cs)
    ensures DistinctIds(Pushed(cs, c)) && |Pushed(cs, c)| <= |cs| + 1
  {
    WithoutElements(cs, c.id);
    DistinctSnoc(Without(cs, c.id), c);
  }

  // ---------------------------------------------------------------- operations on the tiers

  lemma ViewSplit(t: Tiers)
    ensures t.View() == (ViewOf(NewestFirst(t.runs) + Flatten(t.base)) + ViewOf(t.delta)) - t.tombstones
  {
    hide ViewOf;
    var rest := NewestFirst(t.runs) + Flatten(t.base);
    assert t.Recent() + Flatten(t.base) == t.delta + rest;
    ViewConcat(t.delta, rest);
  }

  /** `push_into_buffer`. */
  function PushStep(t: Tiers, c: Capsule): Tiers {
    t.(delta := Pushed(t.delta, c), tombstones := t.tombstones - {c.id})
  }

  /** A push into the buffer is a map update: the tombstone goes, every older copy is shadowed. */
  lemma PushUpdatesView(t: Tiers, c: Capsule)
    ensures PushStep(t, c).View() == t.View()[c.id := c]
  {
    hide ViewOf, Pushed;
    PushedView(t.delta, c);
    ViewSplit(t);
    ViewSplit(PushStep(t, c));
    PushOver(ViewOf(NewestFirst(t.runs) + Flatten(t.base)), ViewOf(t.delta), t.tombstones, c.id, c);
  }

  lemma PushKeepsValid(t: Tiers, c: Capsule)
    requires t.Valid()
    ensures PushStep(t, c).Valid() && |PushStep(t, c).delta| <= |t.delta| + 1
  {
    hide ViewOf, Pushed;
    PushedDistinct(t.delta, c);
    PushedView(t.delta, c);
    ViewKeys(t.delta);
    ViewKeys(Pushed(t.delta, c));
  }

  function DeleteStep(t: Tiers, id: u128): Tiers {
    t.(delta := Without(t.delta, id), tombstones := t.tombstones + {id})
  }

  /** A delete is a map removal, whichever tiers still hold copies. */
  lemma DeleteUpdatesView(t: Tiers, id: u128)
    ensures DeleteStep(t, id).View() == t.View() - {id}
  {
    hide ViewOf, Without;
    WithoutView(t.delta, id);
    ViewSplit(t);
    ViewSplit(DeleteStep(t, id));
    DropOver(ViewOf(NewestFirst(t.runs) + Flatten(t.base)), ViewOf(t.delta), t.tombstones, id);
  }

  lemma DeleteKeepsValid(t: Tiers, id: u128)
    requires t.Valid()
    ensures DeleteStep(t, id).Valid()
  {
    hide ViewOf, Without;
    WithoutElements(t.delta, id);
    WithoutView(t.delta, id);
    ViewKeys(t.delta);
    ViewKeys(Without(t.delta, id));
  }

  function NextEpoch(e: u64): u64 {
    if e == 0xffff_ffff_ffff_ffff then 0 else e + 1
  }

  function Stamped(cs: seq<Capsule>, epoch: u64): Segment {
    Segment(epoch, FirstTenant(cs), cs)
  }

  /** `seal_active_buffer`. */
  function SealStep(t: Tiers): Tiers {
    if t.delta == [] then t
    else t.(delta := [], runs := t.runs + [Stamped(t.delta, t.epoch)], epoch := NextEpoch(t.epoch))
  }

  /** Sealing moves the buffer behind itself in the recency order, which is where it already was. */
  lemma SealKeepsView(t: Tiers)
    ensures SealStep(t).View() == t.View()
    ensures t.Valid() ==> SealStep(t).Valid()
    ensures SealStep(t).delta == []
  {
    if t.delta != [] {
      var runs := t.runs + [Stamped(t.delta, t.epoch)];
      assert runs[..|runs| - 1] == t.runs;
      assert SealStep(t).Recent() == t.Recent();
    }
    assert IdSet([]) == {};
  }

  lemma BufferDistinct(t: Tiers)
    requires t.Valid()
    ensures DistinctIds(t.delta)
  {
  }

  /** First copies in order, hidden ids skipped: the loop body of `collect_live`. */
  function Live(cs: seq<Capsule>, hidden: set<u128>): seq<Capsule> {
    if cs == [] then []
    else if cs[0].id in hidden then Live(cs[1..], hidden)
    else [cs[0]] + Live(cs[1..], hidden + {cs[0].id})
  }

  /** `collect_live` lists the live map. */
  lemma {:induction false} LiveIsView(cs: seq<Capsule>, hidden: set<u128>)
    ensures ViewOf(Live(cs, hidden)) == ViewOf(cs) - hidden
    decreases |cs|
  {
    if cs != [] {
      var c, rest := cs[0], cs[1..];
      HiddenUpdate(ViewOf(rest), hidden, c.id, c);
      if c.id in hidden {
        LiveIsView(rest, hidden);
      } else {
        LiveIsView(rest, hidden + {c.id});
        assert ([c] + Live(rest, hidden + {c.id}))[1..] == Live(rest, hidden + {c.id});
      }
    }
  }

  /** Each live id is listed once, and no hidden one. */
  lemma {:induction false} LiveDistinct(cs: seq<Capsule>, hidden: set<u128>)
    ensures DistinctIds(Live(cs, hidden))
    ensures forall c :: c in Live(cs, hidden) ==> c.id !in hidden && c in cs
    decreases |cs|
  {
    if cs != [] {
      var c, rest := cs[0], cs[1..];
      if c.id in hidden {
        LiveDistinct(rest, hidden);
      } else {
        LiveDistinct(rest, hidden + {c.id});
        DistinctCons(c, Live(rest, hidden + {c.id}));
      }
    }
  }

  /** `compact_delta`. */
  function CompactDeltaStep(t: Tiers): Tiers {
    if t.runs == [] then t
    else
      var merged := Live(t.Recent(), t.tombstones);
      t.(delta := [], runs := if merged == [] then [] else [Stamped(merged, t.epoch)], epoch := NextEpoch(t.epoch))
  }

  /** A merged delta run stands for the buffer and all runs; the base and the tombstones are untouched. */
  lemma CompactDeltaKeepsView(t: Tiers)
    ensures CompactDeltaStep(t).View() == t.View()
  {
    hide ViewOf, Live;
    var merged, base := Live(t.Recent(), t.tombstones), Flatten(t.base);
    LiveIsView(t.Recent(), t.tombstones);
    var t' := CompactDeltaStep(t);
    if t.runs != [] {
      MergedRecency(merged, t'.runs);
      assert t'.Recent() == merged;
      ViewConcat(merged, base);
      ViewConcat(t.Recent(), base);
      HideTwice(ViewOf(base), ViewOf(t.Recent()), t.tombstones);
    }
  }

  lemma CompactDeltaKeepsValid(t: Tiers)
    ensures t.Valid() ==> CompactDeltaStep(t).Valid()
    ensures |CompactDeltaStep(t).runs| <= 1 && |CompactDeltaStep(t).delta| <= |t.delta|
  {
    hide Live;
    LiveDistinct(t.Recent(), t.tombstones);
    assert IdSet([]) == {};
  }

  lemma MergedRecency(merged: seq<Capsule>, runs: seq<Segment>)
    requires if merged == [] then runs == [] else |runs| == 1 && runs[0].capsules == merged
    ensures NewestFirst(runs) == merged
  {
    if merged != [] {
      assert runs[..0] == [];
      assert merged + [] == merged;
    }
  }

  function LiveList(t: Tiers): seq<Capsule> {
    Live(t.Recent() + Flatten(t.base), t.tombstones)
  }

  /** Every tier replaced by one base segment, as both full compactions do. */
  function AdoptStep(t: Tiers, base: Segment): Tiers {
    Tiers([], [], [base], {}, NextEpoch(t.epoch))
  }

  function CompactStep(t: Tiers): Tiers {
    AdoptStep(t, Stamped(LiveList(t), t.epoch))
  }

  lemma LiveListIsView(t: Tiers)
    ensures ViewOf(LiveList(t)) == t.View() && DistinctIds(LiveList(t))
  {
    LiveIsView(t.Recent() + Flatten(t.base), t.tombstones);
    LiveDistinct(t.Recent() + Flatten(t.base), t.tombstones);
  }

  lemma AdoptView(t: Tiers, base: Segment)
    ensures AdoptStep(t, base).View() == ViewOf(base.capsules)
    ensures DistinctIds(base.capsules) ==> AdoptStep(t, base).Valid()
  {
    hide ViewOf;
    SingleBase(base);
    assert AdoptStep(t, base).Recent() + Flatten([base]) == base.capsules;
    assert IdSet([]) == {};
  }

  /** Full compaction keeps the view and needs no tombstone any more. */
  lemma CompactKeepsView(t: Tiers)
    ensures CompactStep(t).View() == t.View() && CompactStep(t).Valid()
  {
    hide ViewOf, LiveList;
    LiveListIsView(t);
    AdoptView(t, Stamped(LiveList(t), t.epoch));
  }

  // ---------------------------------------------------------------- whole writes

  datatype Config = Config(sealThreshold: nat, autoCompactRuns: Option<nat>)
  {
    predicate Valid() {
      sealThreshold >= 1 && (autoCompactRuns.Some? ==> autoCompactRuns.value >= 1)
    }
  }

  function AutoCompactStep(t: Tiers, config: Config): Tiers {
    if config.autoCompactRuns.Some? && |t.runs| >= config.autoCompactRuns.value then CompactDeltaStep(t) else t
  }

  /** `insert`: push, seal when full, compact when runs have piled up. */
  function InsertStep(t: Tiers, c: Capsule, config: Config): Tiers {
    var pushed := PushStep(t, c);
    AutoCompactStep(if |pushed.delta| >= config.sealThreshold then SealStep(pushed) else pushed, config)
  }

  /** One turn of the `insert_many` loop, which considers compaction only after a seal. */
  function BatchStep(t: Tiers, c: Capsule, config: Config): Tiers {
    var pushed := PushStep(t, c);
    if |pushed.delta| >= config.sealThreshold then AutoCompactStep(SealStep(pushed), config) else pushed
  }

  lemma AutoCompactKeepsView(t: Tiers, config: Config)
    ensures AutoCompactStep(t, config).View() == t.View()
    ensures t.Valid() ==> AutoCompactStep(t, config).Valid()
    ensures |AutoCompactStep(t, config).delta| <= |t.delta|
    ensures config.autoCompactRuns.Some? ==>
      |AutoCompactStep(t, config).runs| < config.autoCompactRuns.value || |AutoCompactStep(t, config).runs| <= 1
  {
    CompactDeltaKeepsView(t);
    CompactDeltaKeepsValid(t);
  }

  /** An insert is a map update. */
  lemma InsertUpdatesView(t: Tiers, c: Capsule, config: Config)
    ensures InsertStep(t, c, config).View() == t.View()[c.id := c]
  {
    hide PushStep, SealStep, AutoCompactStep, Tiers.View;
    var pushed := PushStep(t, c);
    PushUpdatesView(t, c);
    SealKeepsView(pushed);
    AutoCompactKeepsView(if |pushed.delta| >= config.sealThreshold then SealStep(pushed) else pushed, config);
  }

  /** It keeps the tiers well formed, leaves the buffer below its threshold and bounds the runs. */
  lemma InsertBoundsTiers(t: Tiers, c: Capsule, config: Config)
    requires config.Valid()
    ensures t.Valid() ==> InsertStep(t, c, config).Valid()
    ensures |InsertStep(t, c, config).delta| < config.sealThreshold
    ensures config.autoCompactRuns.Some? ==>
      |InsertStep(t, c, config).runs| < config.autoCompactRuns.value || |InsertStep(t, c, config).runs| <= 1
  {
    hide PushStep, SealStep, AutoCompactStep, Tiers.View, Tiers.Valid;
    var pushed := PushStep(t, c);
    if t.Valid() { PushKeepsValid(t, c); }
    SealKeepsView(pushed);
    AutoCompactKeepsView(if |pushed.delta| >= config.sealThreshold then SealStep(pushed) else pushed, config);
  }

  lemma BatchUpdatesView(t: Tiers, c: Capsule, config: Config)
    requires config.Valid()
    ensures BatchStep(t, c, config).View() == t.View()[c.id := c]
    ensures t.Valid() ==> BatchStep(t, c, config).Valid()
    ensures |BatchStep(t, c, config).delta| < config.sealThreshold
  {
    hide PushStep, SealStep, AutoCompactStep;
    var pushed := PushStep(t, c);
    PushUpdatesView(t, c);
    if t.Valid() { PushKeepsValid(t, c); }
    SealKeepsView(pushed);
    AutoCompactKeepsView(SealStep(pushed), config);
  }

  function BatchAll(t: Tiers, cs: seq<Capsule>, config: Config): Tiers {
    if cs == [] then t else BatchStep(BatchAll(t, cs[..|cs| - 1], config), cs[|cs| - 1], config)
  }

  function PutAll(v: View, cs: seq<Capsule>): View {
    if cs == [] then v else PutAll(v, cs[..|cs| - 1])[cs[|cs| - 1].id := cs[|cs| - 1]]
  }

  /** A batch is the map updated capsule by capsule. */
  lemma {:induction false} BatchUpdatesAll(t: Tiers, cs: seq<Capsule>, config: Config)
    requires config.Valid()
    ensures BatchAll(t, cs, config).View() == PutAll(t.View(), cs)
    ensures t.Valid() ==> BatchAll(t, cs, config).Valid()
    ensures cs != [] ==> |BatchAll(t, cs, config).delta| < config.sealThreshold
  {
    hide BatchStep;
    if cs != [] {
      BatchUpdatesAll(t, cs[..|cs| - 1], config);
      BatchUpdatesView(BatchAll(t, cs[..|cs| - 1], config), cs[|cs| - 1], config);
    }
  }

  lemma SingleBase(base: Segment)
    ensures Flatten([base]) == base.capsules
  {
    assert [base][1..] == [];
    assert base.capsules + [] == base.capsules;
  }

  // ---------------------------------------------------------------- the log

  datatype WalOp = Insert(capsule: RawCapsule) | Delete(id: Bytes)

  datatype Op = Put(capsule: Capsule) | Drop(id: u128)

  function Decode(env: Env, op: WalOp): Result<Op> {
    match op
    case Insert(raw) =>
      var c :- IntoCapsule(env, raw);
      Ok(Put(c))
    case Delete(text) =>
      var id :- ParseU128(text);
      Ok(Drop(id))
  }

  function DecodeAll(env: Env, ops: seq<WalOp>): (r: Result<seq<Op>>)
    ensures r.Ok? ==> |r.value| == |ops|
  {
    if ops == [] then Ok([])
    else
      var op :- Decode(env, ops[0]);
      var rest :- DecodeAll(env, ops[1..]);
      Ok([op] + rest)
  }

  lemma {:induction false} DecodeSnoc(env: Env, ops: seq<WalOp>, op: WalOp)
    ensures var whole := DecodeAll(env, ops + [op]);
            if DecodeAll(env, ops).Ok? && Decode(env, op).Ok?
            then whole == Ok(DecodeAll(env, ops).value + [Decode(env, op).value])
            else whole.Err?
  {
    hide Decode;
    var all := ops + [op];
    if ops == [] {
      assert all[1..] == [] && all[0] == op;
      assert DecodeAll(env, []) == Ok([]);
      if Decode(env, op).Ok? {
        assert [Decode(env, op).value] + [] == [] + [Decode(env, op).value];
      }
    } else {
      DecodeSnoc(env, ops[1..], op);
      assert all[1..] == ops[1..] + [op] && all[0] == ops[0];
      if DecodeAll(env, ops).Ok? && Decode(env, op).Ok? {
        var a, b := Decode(env, ops[0]).value, DecodeAll(env, ops[1..]).value;
        assert [a] + (b + [Decode(env, op).value]) == ([a] + b) + [Decode(env, op).value];
      }
    }
  }

  function ApplyOp(op: Op, v: View): View {
    match op
    case Put(c) => v[c.id := c]
    case Drop(id) => v - {id}
  }

  function ApplyAll(ops: seq<Op>, v: View): View {
    if ops == [] then v else ApplyOp(ops[|ops| - 1], ApplyAll(ops[..|ops| - 1], v))
  }

  lemma ApplySnoc(ops: seq<Op>, op: Op, v: View)
    ensures ApplyAll(ops + [op], v) == ApplyOp(op, ApplyAll(ops, v))
  {
    assert (ops + [op])[..|ops|] == ops;
  }

  function OpId(op: Op): u128 {
    match op
    case Put(c) => c.id
    case Drop(id) => id
  }

  predicate Mentions(ops: seq<Op>, id: u128) {
    exists i :: 0 <= i < |ops| && OpId(ops[i]) == id
  }

  ghost predicate SameAt(v: View, w: View, id: u128) {
    (id in v <==> id in w) && (id in v ==> v[id] == w[id])
  }

  /** An id the log mentions ends up as the log leaves it, whatever the start; any other id as it was. */
  lemma {:induction false} ApplyPointwise(ops: seq<Op>, v: View, w: View, id: u128)
    ensures !Mentions(ops, id) ==> SameAt(ApplyAll(ops, v), v, id)
    ensures Mentions(ops, id) ==> SameAt(ApplyAll(ops, v), ApplyAll(ops, w), id)
    decreases |ops|
  {
    if ops != [] {
      var front, last := ops[..|ops| - 1], ops[|ops| - 1];
      ApplyPointwise(front, v, w, id);
      if Mentions(front, id) {
        var i :| 0 <= i < |front| && OpId(front[i]) == id;
        assert OpId(ops[i]) == id;
      }
      assert OpId(ops[|ops| - 1]) == OpId(last);
    }
  }

  /** Replaying a log over what it already produced changes nothing. */
  lemma ReplayIdempotent(ops: seq<Op>, v: View)
    ensures ApplyAll(ops, ApplyAll(ops, v)) == ApplyAll(ops, v)
  {
    hide ApplyAll;
    var once := ApplyAll(ops, v);
    var twice := ApplyAll(ops, once);
    forall id: u128 ensures SameAt(twice, once, id) {
      ApplyPointwise(ops, once, v, id);
    }
    SamePointwise(twice, once);
  }

  /** A map its log already agrees with still agrees with it after one more operation, logged and applied. */
  lemma AbsorbsOneMore(ops: seq<Op>, op: Op, v: View)
    requires ApplyAll(ops, v) == v
    ensures ApplyAll(ops + [op], ApplyOp(op, v)) == ApplyOp(op, v)
  {
    hide ApplyAll, ApplyOp;
    ApplySnoc(ops, op, v);
    var w := ApplyOp(op, v);
    forall id: u128 ensures SameAt(ApplyAll(ops + [op], w), w, id) {
      ApplyPointwise(ops + [op], w, v, id);
    }
    SamePointwise(ApplyAll(ops + [op], w), w);
  }

  /** A log ends in one map from two starts exactly when they agree wherever the log says nothing. */
  lemma SameAfterLog(ops: seq<Op>, v: View, w: View)
    ensures ApplyAll(ops, v) == ApplyAll(ops, w) <==> forall id: u128 :: !Mentions(ops, id) ==> SameAt(v, w, id)
  {
    hide ApplyAll, Mentions;
    forall id: u128
      ensures !Mentions(ops, id) ==> SameAt(ApplyAll(ops, v), v, id) && SameAt(ApplyAll(ops, w), w, id)
      ensures Mentions(ops, id) ==> SameAt(ApplyAll(ops, v), ApplyAll(ops, w), id)
    {
      ApplyPointwise(ops, v, w, id);
      ApplyPointwise(ops, w, v, id);
    }
    if forall id: u128 :: !Mentions(ops, id) ==> SameAt(v, w, id) {
      SamePointwise(ApplyAll(ops, v), ApplyAll(ops, w));
    }
  }

  lemma SamePointwise(v: View, w: View)
    requires forall id: u128 :: SameAt(v, w, id)
    ensures v == w
  {
    forall id: u128 ensures id in v <==> id in w { assert SameAt(v, w, id); }
    forall id: u128 | id in v ensures v[id] == w[id] { assert SameAt(v, w, id); }
  }

  /**
   The same from any earlier state of that log: a checkpoint taken after `done` and replayed
   under the whole log `done + more` reaches the same map as the old base does.
   */
  lemma {:induction false} ReplayOverCheckpoint(done: seq<Op>, more: seq<Op>, v: View)
    ensures ApplyAll(done + more, ApplyAll(done, v)) == ApplyAll(done + more, v)
    decreases |more|
  {
    hide ApplyAll, ApplyOp;
    if more == [] {
      assert done + more == done;
      ReplayIdempotent(done, v);
    } else {
      var front, last := more[..|more| - 1], more[|more| - 1];
      ReplayOverCheckpoint(done, front, v);
      assert more == front + [last];
      assert done + more == (done + front) + [last];
      ApplySnoc(done + front, last, v);
      ApplySnoc(done + front, last, ApplyAll(done, v));
    }
  }

  // ---------------------------------------------------------------- replay, op by op

  datatype Delta = Delta(buffer: seq<Capsule>, tombstones: set<u128>)

  /** `push_into_buffer`, and the buffer part of `delete`. */
  function StepDelta(d: Delta, op: Op): Delta {
    match op
    case Put(c) => Delta(Pushed(d.buffer, c), d.tombstones - {c.id})
    case Drop(id) => Delta(Without(d.buffer, id), d.tombstones + {id})
  }

  function RunDelta(ops: seq<Op>): Delta {
    if ops == [] then Delta([], {}) else StepDelta(RunDelta(ops[..|ops| - 1]), ops[|ops| - 1])
  }

  lemma RunDeltaSnoc(ops: seq<Op>, op: Op)
    ensures RunDelta(ops + [op]) == StepDelta(RunDelta(ops), op)
  {
    assert (ops + [op])[..|ops|] == ops;
  }

  lemma {:induction false} RunDeltaDistinct(ops: seq<Op>)
    ensures DistinctIds(RunDelta(ops).buffer) && IdSet(RunDelta(ops).buffer) !! RunDelta(ops).tombstones
    decreases |ops|
  {
    if ops == [] {
      assert IdSet([]) == {};
    } else {
      var front, last := ops[..|ops| - 1], ops[|ops| - 1];
      RunDeltaDistinct(front);
      var d := RunDelta(front);
      hide ViewOf, RunDelta;
      ViewKeys(d.buffer);
      ViewKeys(StepDelta(d, last).buffer);
      match last {
        case Put(c) =>
          PushedDistinct(d.buffer, c);
          PushedView(d.buffer, c);
        case Drop(id) =>
          WithoutElements(d.buffer, id);
          WithoutView(d.buffer, id);
      }
    }
  }

  /** The buffer and tombstones a log leaves, put over a base, show the log applied to the base. */
  lemma {:induction false} DeltaOverBase(ops: seq<Op>, base: seq<Segment>, epoch: u64)
    ensures var d := RunDelta(ops);
            Tiers(d.buffer, [], base, d.tombstones, epoch).View() == ApplyAll(ops, ViewOf(Flatten(base)))
    decreases |ops|
  {
    hide ViewOf, Pushed, Without;
    var d := RunDelta(ops);
    var t := Tiers(d.buffer, [], base, d.tombstones, epoch);
    if ops == [] {
      assert t.Recent() + Flatten(base) == Flatten(base);
    } else {
      var front, last := ops[..|ops| - 1], ops[|ops| - 1];
      DeltaOverBase(front, base, epoch);
      var e := RunDelta(front);
      var s := Tiers(e.buffer, [], base, e.tombstones, epoch);
      match last {
        case Put(c) =>
          PushUpdatesView(s, c);
          assert t == PushStep(s, c);
        case Drop(id) =>
          DeleteUpdatesView(s, id);
          assert t == DeleteStep(s, id);
      }
    }
  }

  /** Any buffer with the same view and the same tombstones shows the same live map. */
  lemma SameDeltaSameView(a: seq<Capsule>, b: seq<Capsule>, base: seq<Segment>, tombstones: set<u128>, epoch: u64)
    requires ViewOf(a) == ViewOf(b)
    ensures Tiers(a, [], base, tombstones, epoch).View() == Tiers(b, [], base, tombstones, epoch).View()
  {
    hide ViewOf;
    ViewSplit(Tiers(a, [], base, tombstones, epoch));
    ViewSplit(Tiers(b, [], base, tombstones, epoch));
  }

  // ---------------------------------------------------------------- epochs

  /** Runs carry rising epochs, above those of the base, and the next one to be stamped is above all. */
  ghost predicate Dated(t: Tiers) {
    && (forall s :: s in t.base ==> s.epoch < t.epoch) && (forall s :: s in t.runs ==> s.epoch < t.epoch)
    && (forall i, j :: 0 <= i < j < |t.runs| ==> t.runs[i].epoch < t.runs[j].epoch)
    && forall b, r :: b in t.base && r in t.runs ==> b.epoch < r.epoch
  }

  /** No epoch is ever given twice, until the counter has run through all 2^64 - 1 of them. */
  lemma EpochsAdvance(t: Tiers, c: Capsule, id: u128, config: Config)
    requires Dated(t) && t.epoch < 0xffff_ffff_ffff_fffe
    ensures Dated(PushStep(t, c)) && Dated(DeleteStep(t, id)) && Dated(SealStep(t)) && Dated(CompactDeltaStep(t)) && Dated(CompactStep(t))
    ensures Dated(InsertStep(t, c, config)) && t.epoch <= InsertStep(t, c, config).epoch <= t.epoch + 2
    ensures t.delta != [] ==> SealStep(t).epoch == t.epoch + 1 && |SealStep(t).runs| == |t.runs| + 1 && SealStep(t).runs[|t.runs|].epoch == t.epoch
    ensures t.runs != [] ==> CompactDeltaStep(t).epoch == t.epoch + 1
    ensures CompactStep(t).epoch == t.epoch + 1 && |CompactStep(t).base| == 1 && CompactStep(t).base[0].epoch == t.epoch
  {
    hide Dated, PushStep, SealStep, CompactDeltaStep, CompactStep;
    BufferDates(t, c, id);
    var pushed := PushStep(t, c);
    SealDates(t);
    SealDates(pushed);
    CompactDates(t);
    CompactDates(SealStep(pushed));
    CompactDates(pushed);
  }

  lemma BufferDates(t: Tiers, c: Capsule, id: u128)
    requires Dated(t)
    ensures Dated(PushStep(t, c)) && Dated(DeleteStep(t, id)) && PushStep(t, c).epoch == t.epoch
  {
    hide Without;
  }

  lemma SealDates(t: Tiers)
    requires Dated(t) && t.epoch < 0xffff_ffff_ffff_ffff
    ensures Dated(SealStep(t)) && t.epoch <= SealStep(t).epoch <= t.epoch + 1
    ensures t.delta != [] ==> SealStep(t).epoch == t.epoch + 1 && |SealStep(t).runs| == |t.runs| + 1 && SealStep(t).runs[|t.runs|].epoch == t.epoch
  {
  }

  lemma CompactDates(t: Tiers)
    requires Dated(t) && t.epoch < 0xffff_ffff_ffff_ffff
    ensures Dated(CompactDeltaStep(t)) && t.epoch <= CompactDeltaStep(t).epoch <= t.epoch + 1
    ensures t.runs != [] ==> CompactDeltaStep(t).epoch == t.epoch + 1
    ensures Dated(CompactStep(t)) && CompactStep(t).epoch == t.epoch + 1 && |CompactStep(t).base| == 1 && CompactStep(t).base[0].epoch == t.epoch
  {
    hide Live, LiveList;
  }

  // ---------------------------------------------------------------- when an insert seals

  lemma PushedIds(cs: seq<Capsule>, c: Capsule)
    requires DistinctIds(cs)
    ensures IdSet(Pushed(cs, c)) == IdSet(cs) + {c.id} && |Pushed(cs, c)| == |IdSet(cs) + {c.id}|
    ensures c in Pushed(cs, c)
  {
    assert c in Pushed(cs, c);
    PushedDistinct(cs, c);
    hide ViewOf, Pushed, DistinctIds, IdSet;
    PushedView(cs, c);
    ViewKeys(cs);
    ViewKeys(Pushed(cs, c));
    IdCountDetectsRepeats(Pushed(cs, c));
    assert ViewOf(cs)[c.id := c].Keys == ViewOf(cs).Keys + {c.id};
  }

  /**
   An insert only changes the buffer while there is room for one more id; the insert that fills the
   buffer makes it the newest run, and compacts the runs into one when their number is reached.
   */
  lemma InsertSealsWhenFull(t: Tiers, c: Capsule, config: Config)
    requires config.Valid() && t.Valid() && (config.autoCompactRuns.Some? ==> |t.runs| < config.autoCompactRuns.value)
    ensures |IdSet(t.delta) + {c.id}| < config.sealThreshold ==> OnlyBuffered(t, c, InsertStep(t, c, config))
    ensures |IdSet(t.delta) + {c.id}| >= config.sealThreshold && config.autoCompactRuns != Some(|t.runs| + 1) ==> Sealed(t, c, InsertStep(t, c, config))
    ensures |IdSet(t.delta) + {c.id}| >= config.sealThreshold && config.autoCompactRuns == Some(|t.runs| + 1) ==>
              InsertStep(t, c, config).delta == [] && |InsertStep(t, c, config).runs| == 1
  {
    hide Pushed, DistinctIds, IdSet, SealStep, CompactDeltaStep, OnlyBuffered, Sealed;
    BufferDistinct(t);
    PushedIds(t.delta, c);
    var pushed := PushStep(t, c);
    if |pushed.delta| < config.sealThreshold {
      BufferedOnly(t, c);
    } else {
      SealedNow(t, c);
      if config.autoCompactRuns == Some(|t.runs| + 1) { SealedSurvive(SealStep(pushed), c); }
    }
  }

  /** Only the buffer has changed, by the one id. */
  ghost predicate OnlyBuffered(t: Tiers, c: Capsule, after: Tiers) {
    after.runs == t.runs && after.base == t.base && after.epoch == t.epoch && IdSet(after.delta) == IdSet(t.delta) + {c.id}
  }

  /** The buffer, with the one id, has become the newest run. */
  ghost predicate Sealed(t: Tiers, c: Capsule, after: Tiers) {
    && after.delta == [] && |after.runs| == |t.runs| + 1 && after.runs[..|t.runs|] == t.runs && after.base == t.base
    && IdSet(after.runs[|t.runs|].capsules) == IdSet(t.delta) + {c.id} && c in after.runs[|t.runs|].capsules
  }

  lemma BufferedOnly(t: Tiers, c: Capsule)
    requires DistinctIds(t.delta)
    ensures OnlyBuffered(t, c, PushStep(t, c))
  {
    PushedIds(t.delta, c);
    hide Pushed, DistinctIds, IdSet;
  }

  lemma SealedNow(t: Tiers, c: Capsule)
    requires DistinctIds(t.delta)
    ensures var after := SealStep(PushStep(t, c));
            && Sealed(t, c, after) && c.id !in after.tombstones && |after.runs| == |t.runs| + 1
            && c in after.runs[|after.runs| - 1].capsules && after.delta == []
  {
    PushedIds(t.delta, c);
    hide Pushed, DistinctIds, IdSet;
    var pushed := PushStep(t, c);
    assert pushed.delta != [];
    assert (t.runs + [Stamped(pushed.delta, t.epoch)])[..|t.runs|] == t.runs;
  }

  /** What was just sealed is live, so merging the runs leaves one. */
  lemma SealedSurvive(t: Tiers, c: Capsule)
    requires t.runs != [] && t.delta == [] && c in t.runs[|t.runs| - 1].capsules && c.id !in t.tombstones
    ensures |CompactDeltaStep(t).runs| == 1 && CompactDeltaStep(t).delta == []
  {
    hide ViewOf, Live;
    LiveIsView(t.Recent(), t.tombstones);
    ViewKeys(t.Recent());
    var i :| 0 <= i < |t.runs[|t.runs| - 1].capsules| && t.runs[|t.runs| - 1].capsules[i] == c;
    assert t.Recent()[i] == c;
    assert c.id in ViewOf(t.Recent()) - t.tombstones;
    NothingLive(t);
  }

  lemma NothingLive(t: Tiers)
    ensures ViewOf([]) == map[]
  {
  }
}
