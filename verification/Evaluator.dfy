/** Top-level claim evaluation (crates/nq-core/src/claim_registry.rs): validate the packets, keep the
    subject's, resolve the claim, attach the witness references and seal. */
module Evaluator {
  import opened Order
  import opened Evidence
  import opened ClaimRegistry
  import opened ClaimLaws

  ghost predicate AllValid(lib: Library, packets: seq<Packet>) {
    forall p :: p in packets ==> p.Valid(lib.instant)
  }

  function ForSubject(packets: seq<Packet>, subject: string): seq<Packet> {
    if packets == [] then []
    else
      var rest := ForSubject(packets[..|packets| - 1], subject);
      var p := packets[|packets| - 1];
      if p.subject == subject then rest + [p] else rest
  }

  lemma {:induction false} ForSubjectMembers(packets: seq<Packet>, subject: string, p: Packet)
    ensures p in ForSubject(packets, subject) <==> p in packets && p.subject == subject
  {
    if packets == [] {
    } else {
      ForSubjectMembers(packets[..|packets| - 1], subject, p);
      assert packets == packets[..|packets| - 1] + [packets[|packets| - 1]];
    }
  }

  function RefOf(lib: Library, p: Packet): WitnessRef {
    WitnessRef(p.witnessType, lib.digest(p), Some(p.observedAt), p.custodyBasis)
  }

  function RefsOf(lib: Library, packets: seq<Packet>): seq<WitnessRef> {
    seq(|packets|, i requires 0 <= i < |packets| => RefOf(lib, packets[i]))
  }

  /** The first value no other precedes; `less` is flipped for the maximum. */
  function Extreme(times: seq<string>, less: (string, string) -> bool): Option<string> {
    if times == [] then None
    else
      match Extreme(times[..|times| - 1], less)
      case None => Some(times[|times| - 1])
      case Some(best) => if less(times[|times| - 1], best) then Some(times[|times| - 1]) else Some(best)
  }

  predicate StrGreater(a: string, b: string) { StrLess(b, a) }

  ghost predicate IsExtreme(r: Option<string>, times: seq<string>, less: (string, string) -> bool) {
    match r
    case None => times == []
    case Some(best) => best in times && forall t :: t in times ==> t == best || less(best, t)
  }

  lemma {:induction false} ExtremeIsExtreme(times: seq<string>, less: (string, string) -> bool)
    requires StrictTotal(less)
    ensures IsExtreme(Extreme(times, less), times, less)
  {
    if times == [] {
    } else {
      var rest, last := times[..|times| - 1], times[|times| - 1];
      assert times == rest + [last];
      ExtremeIsExtreme(rest, less);
      match Extreme(rest, less)
      case None =>
      case Some(best) =>
        assert best == last || less(best, last) || less(last, best);
        if less(last, best) {
          forall t | t in rest ensures t == last || less(last, t) {
            assert t == best || less(best, t);
          }
        }
    }
  }

  lemma ExtremeIgnoresOrder(a: seq<string>, b: seq<string>, less: (string, string) -> bool)
    requires StrictTotal(less) && forall t :: t in a <==> t in b
    ensures Extreme(a, less) == Extreme(b, less)
  {
    ExtremeIsExtreme(a, less);
    ExtremeIsExtreme(b, less);
    hide Extreme;
    assert a != [] ==> a[0] in b;
    assert b != [] ==> b[0] in a;
  }

  lemma GreaterOrder()
    ensures StrictTotal(StrGreater)
  {
    StrOrder();
    hide StrLess;
    forall a, b, c | StrGreater(a, b) && StrGreater(b, c) ensures StrGreater(a, c) {
      assert StrLess(c, b) && StrLess(b, a);
    }
    forall a, b ensures a == b || StrGreater(a, b) || StrGreater(b, a) {
      assert a == b || StrLess(a, b) || StrLess(b, a);
    }
  }

  function Times(packets: seq<Packet>): seq<string> {
    seq(|packets|, i requires 0 <= i < |packets| => packets[i].observedAt)
  }

  // ---- the evaluated receipt ----

  function InvalidWitnessReceipt(claim: string, subject: string, generatedAt: string, index: nat): Receipt {
    NewReceipt(claim, subject, generatedAt).(
      status := InvalidEvidence, statusReasons := [InvalidWitness],
      notVerified := [NotVerifiedEntry(claim, InvalidWitnessPacket(index))])
  }

  function UnknownClaimReceipt(claim: string, subject: string, generatedAt: string): Receipt {
    NewReceipt(claim, subject, generatedAt).(
      status := InvalidEvidence, statusReasons := [InvalidWitness],
      notVerified := [NotVerifiedEntry(claim, UnknownClaim)])
  }

  /** The receipt before witnesses are attached and it is sealed. */
  function Verdict(reg: Entries, ghost rank: map<string, nat>, claim: string, ctx: Context): Receipt
    requires WellFounded(reg, rank)
  {
    if claim in reg then Resolve(reg, rank, claim, ctx) else UnknownClaimReceipt(claim, ctx.subject, ctx.generatedAt)
  }

  function Attach(lib: Library, verdict: Receipt, applicable: seq<Packet>): Receipt {
    verdict.(witnesses := RefsOf(lib, applicable),
             observedAtMin := Extreme(Times(applicable), StrLess),
             observedAtMax := Extreme(Times(applicable), StrGreater))
  }

  /** The sealed receipt of an evaluation whose packets are all valid. */
  function Evaluated(lib: Library, reg: Entries, ghost rank: map<string, nat>, claim: string, ctx: Context): Receipt
    requires WellFounded(reg, rank)
  {
    lib.Seal(Attach(lib, Verdict(reg, rank, claim, ctx), ctx.packets), EVALUATOR)
  }

  ghost predicate FirstInvalid(lib: Library, packets: seq<Packet>, i: nat) {
    i < |packets| && !packets[i].Valid(lib.instant) && AllValid(lib, packets[..i])
  }

  method Evaluate(
    lib: Library, registry: Registry, ghost rank: map<string, nat>, claim: string, subject: string,
    witnesses: seq<Packet>, generatedAt: string)
    returns (r: Receipt)
    requires WellFounded(registry.entries, rank)
    ensures AllValid(lib, witnesses) ==>
      r == Evaluated(lib, registry.entries, rank, claim, Context(subject, generatedAt, ForSubject(witnesses, subject)))
    ensures !AllValid(lib, witnesses) ==>
      exists i :: FirstInvalid(lib, witnesses, i) && r == InvalidWitnessReceipt(claim, subject, generatedAt, i)
    // the verdict, whatever the packets
    ensures r.status == Verified <==>
      && AllValid(lib, witnesses) && claim in registry.entries
      && Supported(registry.entries, ForSubject(witnesses, subject), claim)
    ensures !AllValid(lib, witnesses) ==>
      && r.status == InvalidEvidence && r.statusReasons == [InvalidWitness] && r.verified == []
      && (exists i :: FirstInvalid(lib, witnesses, i) && r.notVerified == [NotVerifiedEntry(claim, InvalidWitnessPacket(i))])
      && r.witnesses == [] && r.suggestedWeakerClaims == [] && r.evaluator == None && r.contentHash == None
    ensures AllValid(lib, witnesses) && claim !in registry.entries ==>
      && r.status == InvalidEvidence && r.statusReasons == [InvalidWitness] && r.verified == []
      && r.notVerified == [NotVerifiedEntry(claim, UnknownClaim)]
  {
    hide Packet.Valid, Supported;
    ghost var ctx := Context(subject, generatedAt, ForSubject(witnesses, subject));
    EvaluationIsExact(lib, registry.entries, rank, claim, ctx);
    UnknownIsInvalid(lib, registry.entries, rank, claim, ctx);
    hide Resolve;
    for i := 0 to |witnesses|
      invariant AllValid(lib, witnesses[..i])
    {
      if !witnesses[i].Valid(lib.instant) {
        assert FirstInvalid(lib, witnesses, i);
        return InvalidWitnessReceipt(claim, subject, generatedAt, i);
      }
      assert witnesses[..i + 1] == witnesses[..i] + [witnesses[i]];
    }
    assert witnesses[..|witnesses|] == witnesses;
    var applicable := ForSubject(witnesses, subject);
    var entry := registry.Lookup(claim);
    if entry.None? {
      r := UnknownClaimReceipt(claim, subject, generatedAt);
    } else {
      r := ResolveClaim(registry.entries, rank, claim, Context(subject, generatedAt, applicable));
    }
    r := r.(witnesses := RefsOf(lib, applicable));
    r := r.(observedAtMin := Extreme(Times(applicable), StrLess));
    r := r.(observedAtMax := Extreme(Times(applicable), StrGreater));
    r := lib.Seal(r, EVALUATOR);
  }

  // ---- what evaluation guarantees ----

  /** An unknown claim is invalid evidence, still sealed with the packets it was asked about. */
  lemma UnknownIsInvalid(lib: Library, reg: Entries, rank: map<string, nat>, claim: string, ctx: Context)
    requires WellFounded(reg, rank)
    ensures var r := Evaluated(lib, reg, rank, claim, ctx);
      claim !in reg ==>
        && r.status == InvalidEvidence && r.statusReasons == [InvalidWitness] && r.verified == []
        && r.notVerified == [NotVerifiedEntry(claim, UnknownClaim)] && r.suggestedWeakerClaims == []
  {
    hide Resolve, Extreme, Times, RefsOf;
  }

  /** Nothing on the way to the verdict touches the envelope: schema, subject, freshness, hash. */
  lemma VerdictEnvelope(reg: Entries, rank: map<string, nat>, claim: string, ctx: Context)
    requires WellFounded(reg, rank) && Keyed(reg)
    ensures var r := Verdict(reg, rank, claim, ctx);
      r == NewReceipt(claim, ctx.subject, ctx.generatedAt).(
        status := r.status, statusReasons := r.statusReasons, verified := r.verified, notVerified := r.notVerified,
        suggestedWeakerClaims := r.suggestedWeakerClaims)
  {
    hide TallyUpTo, SurfaceUpTo, Matching, LeafCondition.Holds;
  }

  /** A sealed receipt is Verified exactly when the claim is registered and everything in its
      requirement closure is registered, mintable and witnessed to hold by the subject's packets. */
  lemma EvaluationIsExact(lib: Library, reg: Entries, rank: map<string, nat>, claim: string, ctx: Context)
    requires WellFounded(reg, rank)
    ensures Evaluated(lib, reg, rank, claim, ctx).status == Verified <==> claim in reg && Supported(reg, ctx.packets, claim)
  {
    hide Resolve, Supported;
    if claim in reg { VerifiedIsExact(reg, rank, claim, ctx); }
  }

  /** The verdict a receipt records, apart from the list of packets it cites and the seal over it. */
  function Findings(r: Receipt): Receipt { r.(witnesses := [], contentHash := None) }

  ghost predicate SameForSubject(a: seq<Packet>, b: seq<Packet>, subject: string) {
    forall p: Packet :: p.subject == subject ==> (p in a <==> p in b)
  }

  /** Everything a receipt records but the order of its witness references ignores the order and
      repetition of packets and every valid packet about another subject. */
  lemma EvaluationIgnoresOthers(
    lib: Library, reg: Entries, rank: map<string, nat>, claim: string, subject: string, generatedAt: string,
    a: seq<Packet>, b: seq<Packet>)
    requires WellFounded(reg, rank) && SameForSubject(a, b, subject)
    ensures
      Findings(Evaluated(lib, reg, rank, claim, Context(subject, generatedAt, ForSubject(a, subject))))
      == Findings(Evaluated(lib, reg, rank, claim, Context(subject, generatedAt, ForSubject(b, subject))))
  {
    var x, y := ForSubject(a, subject), ForSubject(b, subject);
    forall p ensures p in x <==> p in y {
      ForSubjectMembers(a, subject, p);
      ForSubjectMembers(b, subject, p);
    }
    hide ForSubject;
    VerdictIgnoresOrder(reg, rank, claim, Context(subject, generatedAt, x), Context(subject, generatedAt, y));
    SpanIgnoresOrder(x, y);
    hide Verdict, Extreme, Times, RefsOf, Findings, Library.Seal, WellFounded;
    var cx, cy := Context(subject, generatedAt, x), Context(subject, generatedAt, y);
    SealKeepsFindings(lib, Attach(lib, Verdict(reg, rank, claim, cx), x), Attach(lib, Verdict(reg, rank, claim, cy), y));
  }

  lemma SealKeepsFindings(lib: Library, a: Receipt, b: Receipt)
    requires a.(witnesses := []) == b.(witnesses := []) && a.contentHash == b.contentHash
    ensures Findings(lib.Seal(a, EVALUATOR)) == Findings(lib.Seal(b, EVALUATOR))
  {}

  lemma VerdictIgnoresOrder(reg: Entries, rank: map<string, nat>, claim: string, x: Context, y: Context)
    requires WellFounded(reg, rank) && x == y.(packets := x.packets) && SamePackets(x.packets, y.packets)
    ensures Verdict(reg, rank, claim, x) == Verdict(reg, rank, claim, y)
  {
    hide Resolve, SamePackets;
    if claim in reg { ResolveIgnoresOrder(reg, rank, claim, x, y); }
  }

  lemma SpanIgnoresOrder(x: seq<Packet>, y: seq<Packet>)
    requires SamePackets(x, y)
    ensures Extreme(Times(x), StrLess) == Extreme(Times(y), StrLess)
    ensures Extreme(Times(x), StrGreater) == Extreme(Times(y), StrGreater)
  {
    TimesIgnoreOrder(x, y);
    StrOrder();
    GreaterOrder();
    hide Times, StrLess, StrGreater, StrictTotal, StrictWeak;
    ExtremeIgnoresOrder(Times(x), Times(y), StrLess);
    ExtremeIgnoresOrder(Times(x), Times(y), StrGreater);
  }

  lemma TimesIgnoreOrder(x: seq<Packet>, y: seq<Packet>)
    requires SamePackets(x, y)
    ensures forall t :: t in Times(x) <==> t in Times(y)
  {
    forall t ensures t in Times(x) ==> t in Times(y) { TimesWithin(x, y, t); }
    forall t ensures t in Times(y) ==> t in Times(x) { TimesWithin(y, x, t); }
  }

  lemma TimesWithin(x: seq<Packet>, y: seq<Packet>, t: string)
    requires SamePackets(x, y)
    ensures t in Times(x) ==> t in Times(y)
  {
    if t in Times(x) {
      var i :| 0 <= i < |x| && Times(x)[i] == t;
      assert x[i] in y;
      var j :| 0 <= j < |y| && y[j] == x[i];
      assert Times(y)[j] == t;
    }
  }

  // ---- the recorded bounds are bounds on text ----

  ghost predicate Readable(lib: Library, pool: set<string>) {
    forall t :: t in pool ==> lib.instant(t).Some?
  }

  /** `best` is among the times and none is earlier. */
  ghost predicate IsEarliest(lib: Library, times: seq<string>, best: string)
    requires Readable(lib, set t | t in times)
  {
    best in times && forall t :: t in times ==> lib.instant(best).value <= lib.instant(t).value
  }

  ghost predicate IsLatest(lib: Library, times: seq<string>, best: string)
    requires Readable(lib, set t | t in times)
  {
    best in times && forall t :: t in times ==> lib.instant(t).value <= lib.instant(best).value
  }

  /** The order of the texts is the order of the instants. */
  ghost predicate TextAgrees(lib: Library, pool: set<string>)
    requires Readable(lib, pool)
  {
    forall a, b :: a in pool && b in pool && StrLess(a, b) ==> lib.instant(a).value <= lib.instant(b).value
  }

  ghost predicate DrawnFrom(pool: set<string>, times: seq<string>) {
    times != [] && forall t :: t in times ==> t in pool
  }

  ghost predicate BoundsAreInstants(lib: Library, pool: set<string>)
    requires Readable(lib, pool)
  {
    && (forall times :: DrawnFrom(pool, times) ==>
          Extreme(times, StrLess).Some? && IsEarliest(lib, times, Extreme(times, StrLess).value))
    && (forall times :: DrawnFrom(pool, times) ==>
          Extreme(times, StrGreater).Some? && IsLatest(lib, times, Extreme(times, StrGreater).value))
  }

  /** Over a set of readable times, the recorded minimum and maximum of every list drawn from it are its
      earliest and latest instants if and only if the texts are ordered as the instants are. */
  lemma BoundsAreInstantsExactlyWhenTextAgrees(lib: Library, pool: set<string>)
    requires Readable(lib, pool)
    ensures BoundsAreInstants(lib, pool) <==> TextAgrees(lib, pool)
  {
    StrOrder();
    GreaterOrder();
    hide StrLess;
    if TextAgrees(lib, pool) {
      forall times | DrawnFrom(pool, times)
        ensures Extreme(times, StrLess).Some? && IsEarliest(lib, times, Extreme(times, StrLess).value)
        ensures Extreme(times, StrGreater).Some? && IsLatest(lib, times, Extreme(times, StrGreater).value)
      {
        ExtremeIsExtreme(times, StrLess);
        ExtremeIsExtreme(times, StrGreater);
      }
    }
    if BoundsAreInstants(lib, pool) {
      forall a, b | a in pool && b in pool && StrLess(a, b) ensures lib.instant(a).value <= lib.instant(b).value {
        assert DrawnFrom(pool, [a, b]);
        SmallerOfTwo(a, b);
      }
    }
  }

  lemma SmallerOfTwo(a: string, b: string)
    requires StrLess(a, b)
    ensures Extreme([a, b], StrLess) == Some(a)
  {
    StrOrder();
    ExtremeIsExtreme([a, b], StrLess);
    hide StrLess, Extreme;
  }

  const OFFSET_TIME := "2026-01-01T00:00:00+02:00"
  const ZULU_TIME := "2025-12-31T23:00:00Z"

  function PacketAt(time: string): Packet {
    Packet(WITNESS_SCHEMA, "pytest", "repo", "local", time, time, [], [], [], None, None, [], None)
  }

  /** Of two times whose texts are ordered against their instants, the receipt records the later one as
      its minimum and the earlier one as its maximum. */
  lemma DisorderMisleadsBounds(lib: Library, reg: Entries, rank: map<string, nat>, claim: string, generatedAt: string,
                               a: string, b: string)
    requires WellFounded(reg, rank) && StrLess(b, a)
    ensures var r := Evaluated(lib, reg, rank, claim, Context("repo", generatedAt, [PacketAt(a), PacketAt(b)]));
      r.observedAtMin == Some(b) && r.observedAtMax == Some(a)
  {
    ExtremesOfTwo(a, b);
    hide StrLess, Extreme;
    TimesOfTwo(PacketAt(a), PacketAt(b));
    hide Times, Verdict, RefsOf;
  }

  lemma TimesOfTwo(p: Packet, q: Packet)
    ensures Times([p, q]) == [p.observedAt, q.observedAt]
  {}

  /** Such times exist: an hour apart, the earlier one written with an offset, both in valid packets. */
  lemma OffsetMisleadsBounds(lib: Library, reg: Entries, rank: map<string, nat>, claim: string, generatedAt: string, t: int)
    requires WellFounded(reg, rank)
    requires lib.instant(OFFSET_TIME) == Some(t) && lib.instant(ZULU_TIME) == Some(t + 3600)
    ensures PacketAt(OFFSET_TIME).Valid(lib.instant) && PacketAt(ZULU_TIME).Valid(lib.instant)
    ensures var r := Evaluated(lib, reg, rank, claim, Context("repo", generatedAt, [PacketAt(OFFSET_TIME), PacketAt(ZULU_TIME)]));
      r.observedAtMin == Some(ZULU_TIME) && r.observedAtMax == Some(OFFSET_TIME)
  {
    PacketAtIsValid(lib, OFFSET_TIME);
    PacketAtIsValid(lib, ZULU_TIME);
    ZuluSortsFirst();
    hide Evaluated, PacketAt, StrLess, Packet.Valid;
    DisorderMisleadsBounds(lib, reg, rank, claim, generatedAt, OFFSET_TIME, ZULU_TIME);
  }

  lemma PacketAtIsValid(lib: Library, time: string)
    requires lib.instant(time).Some? && time != "" && time[0] == '2'
    ensures PacketAt(time).Valid(lib.instant)
  {
    assert "pytest"[0] in "pytest" && "repo"[0] in "repo" && "local"[0] in "local" && time[0] in time;
  }

  lemma ZuluSortsFirst()
    ensures StrLess(ZULU_TIME, OFFSET_TIME)
  {
    LessAt(ZULU_TIME, OFFSET_TIME, 3);
  }

  lemma {:induction false} LessAt(a: string, b: string, k: nat)
    requires k < |a| && k < |b| && a[k] < b[k] && forall i :: 0 <= i < k ==> a[i] == b[i]
    ensures StrLess(a, b)
  {
    if k == 0 {
    } else {
      LessAt(a[1..], b[1..], k - 1);
    }
  }

  lemma ExtremesOfTwo(a: string, b: string)
    requires StrLess(b, a)
    ensures Extreme([a, b], StrLess) == Some(b) && Extreme([a, b], StrGreater) == Some(a)
  {
    StrOrder();
    GreaterOrder();
    ExtremeIsExtreme([a, b], StrLess);
    ExtremeIsExtreme([a, b], StrGreater);
    hide StrLess, Extreme;
  }
}
