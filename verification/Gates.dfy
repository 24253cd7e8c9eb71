/** The probe and the gates a capsule must pass before anything is scored. */
module Gates {
  import opened Results
  import opened Words
  import opened Capsules
  import opened Index

  datatype Probe = Probe(
    tenantId: u64, asOf: i64, contextMask: u128, policyMask: u128, trustFloor: byte,
    semanticBits: SemanticBits, embedding: seq<u32>, anchors: seq<Bytes>, entities: seq<Bytes>,
    includeSupporting: bool, includeContradictions: bool, maxHops: byte, maxCapsules: nat, maxTokens: nat)

  /** `a & b != 0`. */
  predicate Overlap(a: nat, b: nat) {
    And(a, b) != 0
  }

  predicate HasBit(mask: nat, k: nat) {
    Bit(mask, k)
  }

  /** Two masks overlap exactly when they have a bit in common. */
  lemma OverlapIsCommonBit(a: nat, b: nat)
    ensures Overlap(a, b) <==> exists k: nat :: HasBit(a, k) && HasBit(b, k)
  {
    if And(a, b) != 0 {
      var k := TrailingZeros(And(a, b));
      SomeBit(And(a, b));
      BitAnd(a, b, k);
      assert HasBit(a, k) && HasBit(b, k);
    }
    if k: nat :| HasBit(a, k) && HasBit(b, k) {
      BitAnd(a, b, k);
      BitZero(k);
    }
  }

  predicate InWindow(from: i64, until: Option<i64>, asOf: i64) {
    from <= asOf && (until.None? || until.value >= asOf)
  }

  predicate Authorized(c: Capsule, p: Probe) {
    c.tenantId == p.tenantId && Overlap(c.contextMask, p.contextMask) && Overlap(c.policyMask, p.policyMask)
    && c.trustLevel >= p.trustFloor
  }

  predicate PassesGates(c: Capsule, p: Probe) {
    Authorized(c, p) && InWindow(c.validFrom, c.validUntil, p.asOf)
  }

  /** Some capsule of the segment that itself passes every gate supersedes `o`. */
  ghost predicate Superseded(cs: seq<Capsule>, o: nat, p: Probe)
    requires o < |cs|
  {
    exists j: nat :: j < |cs| && SupersededBy(cs, o, j) && PassesGates(cs[j], p)
  }

  /** The plain scan: what a query of this segment may see. */
  ghost function Eligible(cs: seq<Capsule>, p: Probe): (s: set<nat>)
    ensures forall o: nat :: o in s <==> o < |cs| && PassesGates(cs[o], p) && !Superseded(cs, o, p)
  {
    set o: nat | 0 <= o < |cs| && PassesGates(cs[o], p) && !Superseded(cs, o, p)
  }

  // ---------------------------------------------------------------- the gates in full

  /** What a conflict must meet: own tenant, enough trust, a common context bit, a common policy bit. */
  ghost predicate MayKnow(c: Capsule, p: Probe) {
    && c.tenantId == p.tenantId && c.trustLevel >= p.trustFloor
    && (exists k: nat :: HasBit(c.contextMask, k) && HasBit(p.contextMask, k))
    && (exists k: nat :: HasBit(c.policyMask, k) && HasBit(p.policyMask, k))
  }

  /** What an answer must meet: that, and validity at the time asked about, both ends included. */
  ghost predicate MaySee(c: Capsule, p: Probe) {
    && MayKnow(c, p)
    && c.validFrom <= p.asOf && (c.validUntil == None || c.validUntil.value >= p.asOf)
  }

  /** The tests the code makes are exactly these. */
  lemma GatesMean(c: Capsule, p: Probe)
    ensures Authorized(c, p) <==> MayKnow(c, p)
    ensures PassesGates(c, p) <==> MaySee(c, p)
  {
    hide Overlap;
    OverlapIsCommonBit(c.contextMask, p.contextMask);
    OverlapIsCommonBit(c.policyMask, p.policyMask);
    hide HasBit;
  }

  /** Eligible: seen, and no capsule of the segment that may be seen has a superseding edge to it. */
  lemma EligibleMeans(cs: seq<Capsule>, p: Probe, o: nat)
    ensures o in Eligible(cs, p) <==>
            && o < |cs| && MaySee(cs[o], p)
            && !exists c, e :: c in cs && MaySee(c, p) && e in c.relationEdges && e.kind == Supersedes && e.to == cs[o].id
  {
    hide PassesGates, MaySee;
    if o < |cs| {
      GatesMean(cs[o], p);
      if c, e :| c in cs && MaySee(c, p) && e in c.relationEdges && e.kind == Supersedes && e.to == cs[o].id {
        var j: nat :| j < |cs| && cs[j] == c;
        GatesMean(c, p);
        assert SupersededBy(cs, o, j);
      }
      if j: nat :| j < |cs| && SupersededBy(cs, o, j) && PassesGates(cs[j], p) {
        GatesMean(cs[j], p);
        var e :| e in cs[j].relationEdges && e.kind == Supersedes && e.to == cs[o].id;
      }
    }
  }
}
