/** What a receipt check establishes: exact exit codes, the evaluate-then-check round trip, and the
    detection of altered receipts and substituted packets. */
module CheckLaws {
  import opened Order
  import opened Text
  import opened Evidence
  import opened ClaimRegistry
  import opened Evaluator
  import opened ReceiptCheck

  // ---- exit codes, section by section ----

  lemma PassesConcat(a: seq<CheckOutcome>, b: seq<CheckOutcome>, strict: bool)
    ensures Passes(a + b, strict) <==> Passes(a, strict) && Passes(b, strict)
    ensures AnyBroken(a + b) <==> AnyBroken(a) || AnyBroken(b)
  {
    assert forall o :: o in a + b <==> o in a || o in b;
  }

  lemma Sections(lib: Library, r: Receipt, packets: seq<Packet>, opts: CheckOptions, strict: bool)
    ensures var digests := PacketDigests(lib, packets);
      Passes(Outcomes(lib, r, packets, opts), strict) <==>
        && r.schema == RECEIPT_SCHEMA
        && Passes(HashOutcomes(lib, r), strict)
        && Passes(RefOutcomes(r.witnesses, digests), strict)
        && Passes(ExtraOutcomes(r.witnesses, digests, |digests|), strict)
        && Passes(FreshnessOutcomes(lib, r, opts), strict)
    ensures AnyBroken(Outcomes(lib, r, packets, opts)) <==>
      r.schema == RECEIPT_SCHEMA && HashStatus(lib, r) == BrokenContentHash
  {
    var digests := PacketDigests(lib, packets);
    var a, b, c := [SchemaOutcome(r)], HashOutcomes(lib, r), RefOutcomes(r.witnesses, digests);
    var d, e, f := ExtraOutcomes(r.witnesses, digests, |digests|), FreshnessOutcomes(lib, r, opts), EvaluatorOutcomes(r);
    PassesConcat(a, b, strict);
    PassesConcat(a + b, c, strict);
    PassesConcat(a + b + c, d, strict);
    PassesConcat(a + b + c + d, e, strict);
    PassesConcat(a + b + c + d + e, f, strict);
    assert Outcomes(lib, r, packets, opts) == a + b + c + d + e + f;
    SchemaPasses(r, strict);
    EvaluatorPasses(r, strict);
    OnlyHashBreaks(lib, r, digests, opts);
    hide *;
  }

  lemma SchemaPasses(r: Receipt, strict: bool)
    ensures Passes([SchemaOutcome(r)], strict) <==> r.schema == RECEIPT_SCHEMA
    ensures !AnyBroken([SchemaOutcome(r)])
  {
    assert SchemaOutcome(r) in [SchemaOutcome(r)];
  }

  lemma EvaluatorPasses(r: Receipt, strict: bool)
    ensures Passes(EvaluatorOutcomes(r), strict) && !AnyBroken(EvaluatorOutcomes(r))
  {}

  lemma OnlyHashBreaks(lib: Library, r: Receipt, digests: seq<string>, opts: CheckOptions)
    ensures AnyBroken(HashOutcomes(lib, r)) <==> r.schema == RECEIPT_SCHEMA && HashStatus(lib, r) == BrokenContentHash
    ensures !AnyBroken(RefOutcomes(r.witnesses, digests))
    ensures !AnyBroken(ExtraOutcomes(r.witnesses, digests, |digests|))
    ensures !AnyBroken(FreshnessOutcomes(lib, r, opts))
  {
    HashBreaks(lib, r);
    RefsNeverBreak(r.witnesses, digests);
    ExtraMembers(r.witnesses, digests, |digests|);
    hide HashOutcomes, RefOutcomes, ExtraOutcomes, HashStatus;
  }

  lemma HashBreaks(lib: Library, r: Receipt)
    ensures AnyBroken(HashOutcomes(lib, r)) <==> r.schema == RECEIPT_SCHEMA && HashStatus(lib, r) == BrokenContentHash
  {
    hide HashStatus;
    if r.schema == RECEIPT_SCHEMA {
      assert CheckOutcome(ContentHash, HashStatus(lib, r)) in HashOutcomes(lib, r);
    }
  }

  lemma RefsNeverBreak(refs: seq<WitnessRef>, digests: seq<string>)
    ensures !AnyBroken(RefOutcomes(refs, digests))
  {
    hide ParseDigest;
  }

  lemma {:induction false} ExtraMembers(refs: seq<WitnessRef>, digests: seq<string>, upTo: nat)
    requires upTo <= |digests|
    ensures forall o :: o in ExtraOutcomes(refs, digests, upTo) ==> o.status == ExtraWitnessPacket
    ensures ExtraOutcomes(refs, digests, upTo) == [] <==> forall k :: 0 <= k < upTo ==> Claimed(refs, digests, k)
  {
    hide Claimed;
    if upTo == 0 {
    } else {
      ExtraMembers(refs, digests, upTo - 1);
    }
  }

  // ---- exit code 2 ----

  /** Broken integrity is reported exactly when a supported receipt stores a hash its body does not have. */
  lemma BrokenIsExact(lib: Library, r: Receipt, packets: seq<Packet>, opts: CheckOptions, strict: bool)
    ensures ExitCode(Outcomes(lib, r, packets, opts), strict) == 2 <==>
      r.schema == RECEIPT_SCHEMA && r.contentHash.Some? && lib.ContentHash(r) != r.contentHash
  {
    Sections(lib, r, packets, opts, strict);
    hide Outcomes, AnyBroken, Passes;
  }

  // ---- exit code 0 under --strict ----

  /** Every reference is anchored to a supplied packet. */
  ghost predicate AllAnchored(refs: seq<WitnessRef>, digests: seq<string>) {
    forall ref :: ref in refs ==> ref.digest.Some? && IsSha256Digest(ref.digest.value) && ref.digest.value in digests
  }

  /** Every supplied packet is cited, and none is supplied twice. */
  ghost predicate AllCited(refs: seq<WitnessRef>, digests: seq<string>) {
    Distinct(digests) && forall d :: d in digests ==> Cited(refs, d)
  }

  /** The horizon and the instant of the check are both readable, and the check comes first. */
  ghost predicate ShownFresh(lib: Library, r: Receipt, opts: CheckOptions) {
    && r.freshnessHorizon.Some? && opts.asOf.Some?
    && lib.instant(r.freshnessHorizon.value).Some? && lib.instant(opts.asOf.value).Some?
    && lib.instant(opts.asOf.value).value < lib.instant(r.freshnessHorizon.value).value
  }

  /** A strict check passes exactly when the receipt is intact, its references and the supplied packets
      match one to one by digest, and it is shown fresh if that was asked. */
  lemma StrictPassIsExact(lib: Library, r: Receipt, packets: seq<Packet>, opts: CheckOptions)
    ensures ExitCode(Outcomes(lib, r, packets, opts), true) == 0 <==>
      && r.schema == RECEIPT_SCHEMA
      && r.contentHash.Some? && lib.ContentHash(r) == r.contentHash
      && AllAnchored(r.witnesses, PacketDigests(lib, packets))
      && AllCited(r.witnesses, PacketDigests(lib, packets))
      && (opts.checkFreshness ==> ShownFresh(lib, r, opts))
  {
    var digests := PacketDigests(lib, packets);
    Sections(lib, r, packets, opts, true);
    if r.schema == RECEIPT_SCHEMA { HashPasses(lib, r); }
    RefsPass(r.witnesses, digests);
    ExtrasPass(r.witnesses, digests);
    FreshnessPasses(lib, r, opts);
    CleanPasses(Outcomes(lib, r, packets, opts), true);
    hide Outcomes, AnyBroken, Passes, AllAnchored, AllCited, ShownFresh, HashOutcomes, RefOutcomes, ExtraOutcomes, FreshnessOutcomes, PacketDigests;
  }

  lemma CleanPasses(outcomes: seq<CheckOutcome>, strict: bool)
    ensures ExitCode(outcomes, strict) == 0 <==> Passes(outcomes, strict)
  {}

  lemma HashPasses(lib: Library, r: Receipt)
    requires r.schema == RECEIPT_SCHEMA
    ensures Passes(HashOutcomes(lib, r), true) <==> r.contentHash.Some? && lib.ContentHash(r) == r.contentHash
  {
    assert CheckOutcome(ContentHash, HashStatus(lib, r)) in HashOutcomes(lib, r);
  }

  lemma RefsPass(refs: seq<WitnessRef>, digests: seq<string>)
    ensures Passes(RefOutcomes(refs, digests), true) <==> AllAnchored(refs, digests)
  {
    forall ref ensures RefStatus(ref, digests) == Ok <==>
      ref.digest.Some? && IsSha256Digest(ref.digest.value) && ref.digest.value in digests
    {
      if ref.digest.Some? { ParseIsExact(ref.digest.value); }
    }
    hide ParseDigest, RefStatus, IsSha256Digest;
    var outcomes := RefOutcomes(refs, digests);
    if Passes(outcomes, true) {
      forall ref | ref in refs ensures RefStatus(ref, digests) == Ok {
        var i :| 0 <= i < |refs| && refs[i] == ref;
        assert outcomes[i] in outcomes;
      }
    }
  }

  lemma ExtrasPass(refs: seq<WitnessRef>, digests: seq<string>)
    ensures Passes(ExtraOutcomes(refs, digests, |digests|), true) <==> AllCited(refs, digests)
  {
    var outcomes := ExtraOutcomes(refs, digests, |digests|);
    ExtraMembers(refs, digests, |digests|);
    assert Passes(outcomes, true) <==> outcomes == [] by {
      hide ExtraOutcomes;
      assert outcomes != [] ==> outcomes[0] in outcomes;
    }
    hide ExtraOutcomes;
    ClaimedIsCited(refs, digests);
  }

  /** Every packet is claimed exactly when every digest is cited and none repeats. */
  lemma ClaimedIsCited(refs: seq<WitnessRef>, digests: seq<string>)
    ensures (forall k :: 0 <= k < |digests| ==> Claimed(refs, digests, k)) <==> AllCited(refs, digests)
  {
    hide Cited;
    if AllCited(refs, digests) {
      forall k | 0 <= k < |digests| ensures Claimed(refs, digests, k) {
        assert digests[k] in digests && forall i :: 0 <= i < k ==> digests[i] != digests[k];
      }
    }
    if forall k :: 0 <= k < |digests| ==> Claimed(refs, digests, k) {
      forall i, j | 0 <= i < j < |digests| ensures digests[i] != digests[j] {
        assert Claimed(refs, digests, j) && digests[..j][i] == digests[i];
      }
      forall d | d in digests ensures Cited(refs, d) {
        var k :| 0 <= k < |digests| && digests[k] == d;
        assert Claimed(refs, digests, k);
      }
    }
  }

  lemma FreshnessPasses(lib: Library, r: Receipt, opts: CheckOptions)
    ensures Passes(FreshnessOutcomes(lib, r, opts), true) <==> (opts.checkFreshness ==> ShownFresh(lib, r, opts))
  {
    if opts.checkFreshness {
      assert CheckOutcome(FreshnessHorizon, FreshnessStatus(lib, r, opts)) in FreshnessOutcomes(lib, r, opts);
    }
  }

  // ---- exit code 0 otherwise ----

  /** Both instants are readable and the check comes no earlier than the horizon. */
  ghost predicate ShownStale(lib: Library, r: Receipt, opts: CheckOptions) {
    && r.freshnessHorizon.Some? && opts.asOf.Some?
    && lib.instant(r.freshnessHorizon.value).Some? && lib.instant(opts.asOf.value).Some?
    && lib.instant(r.freshnessHorizon.value).value <= lib.instant(opts.asOf.value).value
  }

  /** A lenient check fails only on what the receipt itself says wrongly: an unknown schema, a false hash,
      an unreadable digest, or, if asked, a deadline that has passed. No supplied packet matters. */
  lemma LenientPassIsExact(lib: Library, r: Receipt, packets: seq<Packet>, opts: CheckOptions)
    ensures ExitCode(Outcomes(lib, r, packets, opts), false) == 0 <==>
      && r.schema == RECEIPT_SCHEMA
      && (r.contentHash.Some? ==> lib.ContentHash(r) == r.contentHash)
      && (forall ref :: ref in r.witnesses && ref.digest.Some? ==> IsSha256Digest(ref.digest.value))
      && !(opts.checkFreshness && ShownStale(lib, r, opts))
  {
    var digests := PacketDigests(lib, packets);
    Sections(lib, r, packets, opts, false);
    CleanPasses(Outcomes(lib, r, packets, opts), false);
    if r.schema == RECEIPT_SCHEMA {
      assert CheckOutcome(ContentHash, HashStatus(lib, r)) in HashOutcomes(lib, r);
      assert Passes(HashOutcomes(lib, r), false) <==> HashStatus(lib, r) != BrokenContentHash;
    }
    RefsTolerated(r.witnesses, digests);
    ExtraMembers(r.witnesses, digests, |digests|);
    FreshnessTolerated(lib, r, opts);
    hide Outcomes, ExitCode, AnyBroken, RefOutcomes, ExtraOutcomes, FreshnessOutcomes, PacketDigests, IsSha256Digest, ShownStale;
  }

  lemma RefsTolerated(refs: seq<WitnessRef>, digests: seq<string>)
    ensures Passes(RefOutcomes(refs, digests), false) <==>
      forall ref :: ref in refs && ref.digest.Some? ==> IsSha256Digest(ref.digest.value)
  {
    forall ref ensures RefStatus(ref, digests) in {Ok, WitnessNotAnchored, MissingWitnessPacket} <==>
      (ref.digest.Some? ==> IsSha256Digest(ref.digest.value))
    {
      if ref.digest.Some? { ParseIsExact(ref.digest.value); }
    }
    assert forall ref ::
        RefStatus(ref, digests) in {Ok, WitnessNotAnchored, MissingWitnessPacket, UnsupportedDigestAlgorithm, MalformedDigest};
    hide ParseDigest, RefStatus, IsSha256Digest;
    var outcomes := RefOutcomes(refs, digests);
    if Passes(outcomes, false) {
      forall ref | ref in refs ensures RefStatus(ref, digests) in {Ok, WitnessNotAnchored, MissingWitnessPacket} {
        var i :| 0 <= i < |refs| && refs[i] == ref;
        assert outcomes[i] in outcomes;
      }
    }
  }

  lemma FreshnessTolerated(lib: Library, r: Receipt, opts: CheckOptions)
    ensures Passes(FreshnessOutcomes(lib, r, opts), false) <==> !(opts.checkFreshness && ShownStale(lib, r, opts))
  {
    if opts.checkFreshness {
      assert CheckOutcome(FreshnessHorizon, FreshnessStatus(lib, r, opts)) in FreshnessOutcomes(lib, r, opts);
    }
  }

  // ---- conservation ----

  /** Every supplied digest is either reported as extra or is the one packet claimed for its digest. */
  lemma {:induction false} ExtrasConserved(refs: seq<WitnessRef>, digests: seq<string>, upTo: nat)
    requires upTo <= |digests|
    ensures |ExtraOutcomes(refs, digests, upTo)| + |set d | d in digests[..upTo] && Cited(refs, d)| == upTo
  {
    hide Cited;
    if upTo == 0 {
    } else {
      var k := upTo - 1;
      ExtrasConserved(refs, digests, k);
      var before, after := set d | d in digests[..k] && Cited(refs, d), set d | d in digests[..upTo] && Cited(refs, d);
      assert digests[..upTo] == digests[..k] + [digests[k]];
      if Claimed(refs, digests, k) {
        assert after == before + {digests[k]} && digests[k] !in before;
      } else {
        assert after == before;
      }
    }
  }

  // ---- evaluate, then check ----

  lemma {:induction false} DigestMembers(lib: Library, packets: seq<Packet>, d: string)
    ensures d in PacketDigests(lib, packets) <==> exists p :: p in packets && lib.digest(p) == Some(d)
  {
    if packets == [] {
    } else {
      var rest, last := packets[..|packets| - 1], packets[|packets| - 1];
      DigestMembers(lib, rest, d);
      assert packets == rest + [last];
      assert last in packets;
    }
  }

  /** What an evaluated receipt carries for the checker. */
  lemma EvaluatedEnvelope(lib: Library, reg: Entries, rank: map<string, nat>, claim: string, ctx: Context)
    requires WellFounded(reg, rank) && Keyed(reg)
    ensures var r := Evaluated(lib, reg, rank, claim, ctx);
      && r.schema == RECEIPT_SCHEMA && r.witnesses == RefsOf(lib, ctx.packets)
      && r.freshnessHorizon == None && r.contentHash == lib.ContentHash(r)
  {
    VerdictEnvelope(reg, rank, claim, ctx);
    hide Verdict, RefsOf, Extreme, Times;
    var unsealed := Attach(lib, Verdict(reg, rank, claim, ctx), ctx.packets).(evaluator := Some(EVALUATOR));
    assert Evaluated(lib, reg, rank, claim, ctx).Body() == unsealed.Body();
  }

  ghost predicate Digestible(lib: Library, packets: seq<Packet>) {
    forall p :: p in packets ==> lib.digest(p).Some?
  }

  lemma RefsAnchored(lib: Library, packets: seq<Packet>, supplied: seq<Packet>)
    requires lib.DigestsWellFormed()
    ensures AllAnchored(RefsOf(lib, packets), PacketDigests(lib, supplied)) <==>
      Digestible(lib, packets) && forall p :: p in packets ==> exists q :: q in supplied && lib.digest(q) == lib.digest(p)
  {
    hide IsSha256Digest;
    var refs := RefsOf(lib, packets);
    forall d ensures d in PacketDigests(lib, supplied) <==> exists q :: q in supplied && lib.digest(q) == Some(d) {
      DigestMembers(lib, supplied, d);
    }
    hide PacketDigests;
    assert forall ref :: ref in refs ==> exists p :: p in packets && ref == RefOf(lib, p);
    forall p | p in packets ensures RefOf(lib, p) in refs {
      var i :| 0 <= i < |packets| && packets[i] == p;
      assert refs[i] == RefOf(lib, p);
    }
  }

  lemma RefsCite(lib: Library, packets: seq<Packet>, d: string)
    requires lib.DigestsWellFormed()
    ensures Cited(RefsOf(lib, packets), d) <==> exists p :: p in packets && lib.digest(p) == Some(d)
  {
    ParseIsExact(d);
    hide ParseDigest, IsSha256Digest;
    var refs := RefsOf(lib, packets);
    if p :| p in packets && lib.digest(p) == Some(d) {
      var i :| 0 <= i < |packets| && packets[i] == p;
      assert refs[i] in refs && refs[i].digest == Some(d);
    }
  }

  /** A receipt checked against the packets it was evaluated from is never broken, missing, malformed,
      unsupported or stale, so it passes; it passes strictly exactly when every digest could be computed,
      no two packets share one, and freshness, which such receipts do not declare, was not asked for. */
  lemma RoundTrip(lib: Library, reg: Entries, rank: map<string, nat>, claim: string, ctx: Context, opts: CheckOptions)
    requires WellFounded(reg, rank) && Keyed(reg) && lib.DigestsWellFormed()
    ensures var r := Evaluated(lib, reg, rank, claim, ctx);
      && ExitCode(Outcomes(lib, r, ctx.packets, opts), false) == 0
      && (forall o :: o in Outcomes(lib, r, ctx.packets, opts) ==> o.status != MissingWitnessPacket)
      && (ExitCode(Outcomes(lib, r, ctx.packets, opts), true) == 0 <==>
            && r.contentHash.Some? && Digestible(lib, ctx.packets)
            && Distinct(PacketDigests(lib, ctx.packets)) && !opts.checkFreshness)
  {
    var r, digests := Evaluated(lib, reg, rank, claim, ctx), PacketDigests(lib, ctx.packets);
    EvaluatedEnvelope(lib, reg, rank, claim, ctx);
    StrictPassIsExact(lib, r, ctx.packets, opts);
    RefsAnchored(lib, ctx.packets, ctx.packets);
    forall d | d in digests ensures Cited(RefsOf(lib, ctx.packets), d) {
      RefsCite(lib, ctx.packets, d);
      DigestMembers(lib, ctx.packets, d);
    }
    LenientRoundTrip(lib, r, ctx.packets, opts);
    hide Evaluated, Outcomes, ExitCode, PacketDigests, Cited, RefsOf, AllAnchored;
  }

  lemma LenientRoundTrip(lib: Library, r: Receipt, packets: seq<Packet>, opts: CheckOptions)
    requires lib.DigestsWellFormed() && r.schema == RECEIPT_SCHEMA && r.witnesses == RefsOf(lib, packets)
    requires r.freshnessHorizon == None && r.contentHash == lib.ContentHash(r)
    ensures ExitCode(Outcomes(lib, r, packets, opts), false) == 0
    ensures forall o :: o in Outcomes(lib, r, packets, opts) ==> o.status != MissingWitnessPacket
  {
    var digests := PacketDigests(lib, packets);
    Sections(lib, r, packets, opts, false);
    CleanPasses(Outcomes(lib, r, packets, opts), false);
    ExtraMembers(r.witnesses, digests, |digests|);
    OwnRefsMatch(lib, packets);
    OnlyRefsMiss(lib, r, packets, opts);
    hide Outcomes, ExitCode, PacketDigests, ExtraOutcomes, RefOutcomes, AnyBroken;
  }

  lemma OwnRefsMatch(lib: Library, packets: seq<Packet>)
    requires lib.DigestsWellFormed()
    ensures forall o :: o in RefOutcomes(RefsOf(lib, packets), PacketDigests(lib, packets)) ==> o.status in {Ok, WitnessNotAnchored}
  {
    var digests := PacketDigests(lib, packets);
    forall i | 0 <= i < |packets| ensures RefStatus(RefOf(lib, packets[i]), digests) in {Ok, WitnessNotAnchored} {
      var p := packets[i];
      if lib.digest(p).Some? {
        ParseIsExact(lib.digest(p).value);
        DigestMembers(lib, packets, lib.digest(p).value);
      }
    }
    hide PacketDigests, RefStatus, ParseDigest;
  }

  /** A missing packet is only ever reported against a reference. */
  lemma OnlyRefsMiss(lib: Library, r: Receipt, packets: seq<Packet>, opts: CheckOptions)
    ensures forall o :: o in Outcomes(lib, r, packets, opts) && o.status == MissingWitnessPacket ==>
      o in RefOutcomes(r.witnesses, PacketDigests(lib, packets))
  {
    var digests := PacketDigests(lib, packets);
    ExtraMembers(r.witnesses, digests, |digests|);
    hide PacketDigests, ExtraOutcomes, RefOutcomes;
    forall o | o in Outcomes(lib, r, packets, opts) && o.status == MissingWitnessPacket
      ensures o in RefOutcomes(r.witnesses, digests)
    {
      InSections(o, [SchemaOutcome(r)], HashOutcomes(lib, r), RefOutcomes(r.witnesses, digests),
                 ExtraOutcomes(r.witnesses, digests, |digests|), FreshnessOutcomes(lib, r, opts), EvaluatorOutcomes(r));
    }
  }

  lemma InSections(o: CheckOutcome, a: seq<CheckOutcome>, b: seq<CheckOutcome>, c: seq<CheckOutcome>,
                   d: seq<CheckOutcome>, e: seq<CheckOutcome>, f: seq<CheckOutcome>)
    requires o in a + b + c + d + e + f
    ensures o in a || o in b || o in c || o in d || o in e || o in f
  {}

  lemma {:induction false} DigestCountsAtLeast(lib: Library, packets: seq<Packet>, p: Packet)
    requires lib.digest(p).Some?
    ensures multiset(PacketDigests(lib, packets))[lib.digest(p).value] >= multiset(packets)[p]
  {
    if packets == [] {
    } else {
      var rest, last := packets[..|packets| - 1], packets[|packets| - 1];
      DigestCountsAtLeast(lib, rest, p);
      assert packets == rest + [last];
    }
  }

  /** A receipt evaluated from a packet given twice fails a strict check against the very packets it was
      evaluated from, though nothing about it is broken. */
  lemma RepeatedPacketFailsStrictly(
    lib: Library, reg: Entries, rank: map<string, nat>, claim: string, ctx: Context, p: Packet, opts: CheckOptions)
    requires WellFounded(reg, rank) && Keyed(reg) && lib.DigestsWellFormed()
    requires multiset(ctx.packets)[p] >= 2 && lib.digest(p).Some?
    ensures ExitCode(Outcomes(lib, Evaluated(lib, reg, rank, claim, ctx), ctx.packets, opts), true) == 1
  {
    var r := Evaluated(lib, reg, rank, claim, ctx);
    RoundTrip(lib, reg, rank, claim, ctx, opts);
    EvaluatedEnvelope(lib, reg, rank, claim, ctx);
    BrokenIsExact(lib, r, ctx.packets, opts, true);
    DigestCountsAtLeast(lib, ctx.packets, p);
    DistinctIsMultiset(PacketDigests(lib, ctx.packets));
    hide Evaluated, Outcomes, PacketDigests, Distinct, Digestible, AnyBroken, Passes;
  }

  // ---- substituted packets ----

  lemma {:induction false} DigestCounts(lib: Library, packets: seq<Packet>, universe: set<Packet>, p: Packet)
    requires lib.DigestsSeparate(universe) && p in universe && lib.digest(p).Some?
    requires forall q :: q in packets ==> q in universe
    ensures multiset(PacketDigests(lib, packets))[lib.digest(p).value] == multiset(packets)[p]
  {
    if packets == [] {
    } else {
      var rest, last := packets[..|packets| - 1], packets[|packets| - 1];
      DigestCounts(lib, rest, universe, p);
      assert packets == rest + [last];
    }
  }

  /** The packets in play on either side. */
  function Both(packets: seq<Packet>, supplied: seq<Packet>): set<Packet> {
    (set p | p in packets) + (set p | p in supplied)
  }

  /** Each of the subject's packets is supplied once, and no other packet with a digest is supplied. */
  ghost predicate SuppliesExactly(lib: Library, supplied: seq<Packet>, packets: seq<Packet>) {
    forall p :: lib.digest(p).Some? ==> multiset(supplied)[p] == if p in packets then 1 else 0
  }

  /** Barring digest collisions among the packets in play, a strict check of an evaluated receipt that does
      not ask for freshness accepts exactly the packets it was evaluated from, each once: a dropped, altered,
      foreign or repeated packet is always noticed. One that asks for freshness always fails. */
  lemma StrictCheckPinsThePackets(
    lib: Library, reg: Entries, rank: map<string, nat>, claim: string, ctx: Context, supplied: seq<Packet>, opts: CheckOptions)
    requires WellFounded(reg, rank) && Keyed(reg) && lib.DigestsWellFormed()
    requires lib.DigestsSeparate(Both(ctx.packets, supplied))
    ensures var r := Evaluated(lib, reg, rank, claim, ctx);
      ExitCode(Outcomes(lib, r, supplied, opts), true) == 0 <==>
        && r.contentHash.Some? && Digestible(lib, ctx.packets) && SuppliesExactly(lib, supplied, ctx.packets)
        && !opts.checkFreshness
  {
    var r := Evaluated(lib, reg, rank, claim, ctx);
    EvaluatedEnvelope(lib, reg, rank, claim, ctx);
    StrictPassIsExact(lib, r, supplied, opts);
    hide Evaluated, Outcomes, ExitCode, RefsOf;
    if Digestible(lib, ctx.packets) {
      MatchIsExact(lib, ctx.packets, supplied);
    } else {
      RefsAnchored(lib, ctx.packets, supplied);
    }
  }

  lemma MatchIsExact(lib: Library, packets: seq<Packet>, supplied: seq<Packet>)
    requires lib.DigestsWellFormed() && lib.DigestsSeparate(Both(packets, supplied)) && Digestible(lib, packets)
    ensures var refs, digests := RefsOf(lib, packets), PacketDigests(lib, supplied);
      AllAnchored(refs, digests) && AllCited(refs, digests) <==> SuppliesExactly(lib, supplied, packets)
  {
    var refs, digests := RefsOf(lib, packets), PacketDigests(lib, supplied);
    RefsAnchored(lib, packets, supplied);
    DistinctIsMultiset(digests);
    var both := Both(packets, supplied);
    forall p | p in both && lib.digest(p).Some?
      ensures multiset(digests)[lib.digest(p).value] == multiset(supplied)[p]
      ensures Cited(refs, lib.digest(p).value) <==> p in packets
    {
      DigestCounts(lib, supplied, both, p);
      RefsCite(lib, packets, lib.digest(p).value);
    }
    forall d | d in digests ensures exists p :: p in supplied && p in both && lib.digest(p) == Some(d) {
      DigestMembers(lib, supplied, d);
    }
    hide RefsOf, PacketDigests, Cited, AllAnchored, Distinct, Library.DigestsWellFormed;
    if AllAnchored(refs, digests) && AllCited(refs, digests) {
      forall p | p in both && lib.digest(p).Some? ensures multiset(supplied)[p] == if p in packets then 1 else 0 {
        assert multiset(digests)[lib.digest(p).value] <= 1;
        if p in packets {
          assert p in supplied;
        }
      }
    }
    if SuppliesExactly(lib, supplied, packets) {
      forall d ensures multiset(digests)[d] <= 1 {
        if d in digests { var p :| p in supplied && lib.digest(p) == Some(d); }
      }
      forall p | p in packets ensures p in supplied { assert multiset(supplied)[p] == 1; }
      forall d | d in digests ensures Cited(refs, d) {
        var p :| p in supplied && lib.digest(p) == Some(d);
        assert multiset(supplied)[p] > 0;
      }
    }
  }

  // ---- altered receipts ----

  /** Unless the two bodies collide under the hash, a sealed receipt altered in any field but the schema
      and the stored hash is reported broken; altering the schema only makes it unsupported. */
  lemma AlterationIsCaught(lib: Library, r: Receipt, altered: Receipt, packets: seq<Packet>, opts: CheckOptions, strict: bool)
    requires lib.HashSeparates(r, altered)
    requires r.schema == RECEIPT_SCHEMA && r.contentHash.Some? && r.contentHash == lib.ContentHash(r)
    requires altered.contentHash == r.contentHash
    ensures ExitCode(Outcomes(lib, altered, packets, opts), strict) == 2 <==> altered.schema == r.schema && altered != r
    ensures altered.schema != r.schema ==> ExitCode(Outcomes(lib, altered, packets, opts), strict) == 1
  {
    BrokenIsExact(lib, altered, packets, opts, strict);
    Sections(lib, altered, packets, opts, strict);
    CleanPasses(Outcomes(lib, altered, packets, opts), strict);
    hide Outcomes, AnyBroken, Passes;
  }

  // ---- what each outcome says ----

  /** A reference is unanchored without a digest; malformed without a colon or with a bad tail after the
      known prefix; unsupported under another prefix; and otherwise matched or missing. */
  lemma RefStatusIsExact(ref: WitnessRef, digests: seq<string>)
    ensures RefStatus(ref, digests) == WitnessNotAnchored <==> ref.digest == None
    ensures forall d :: ref.digest == Some(d) ==>
      && (RefStatus(ref, digests) == MalformedDigest <==> ':' !in d || ("sha256:" <= d && !IsSha256Digest(d)))
      && (RefStatus(ref, digests) == UnsupportedDigestAlgorithm <==> ':' in d && !("sha256:" <= d))
      && (RefStatus(ref, digests) == Ok <==> IsSha256Digest(d) && d in digests)
      && (RefStatus(ref, digests) == MissingWitnessPacket <==> IsSha256Digest(d) && d !in digests)
  {
    if ref.digest.Some? {
      ParseIsExact(ref.digest.value);
      PrefixHasColon(ref.digest.value);
    }
    hide ParseDigest;
  }

  lemma PrefixHasColon(d: string)
    ensures "sha256:" <= d ==> ':' in d
    ensures IsSha256Digest(d) ==> "sha256:" <= d
  {
    assert "sha256:" <= d ==> d[6] == "sha256:"[6];
  }

  /** The stored hash is absent, right, or broken; a failed recomputation breaks it. */
  lemma HashStatusIsExact(lib: Library, r: Receipt)
    ensures HashStatus(lib, r) == ReceiptNotAnchored <==> r.contentHash == None
    ensures HashStatus(lib, r) == Ok <==> r.contentHash.Some? && lib.hash(r.(contentHash := None)) == r.contentHash
    ensures HashStatus(lib, r) in {ReceiptNotAnchored, Ok, BrokenContentHash}
  {}

  /** Freshness is shown, refuted, or not applicable for want of a readable time on either side. */
  lemma FreshnessIsExact(lib: Library, r: Receipt, opts: CheckOptions)
    ensures FreshnessStatus(lib, r, opts) == Ok <==> ShownFresh(lib, r, opts)
    ensures FreshnessStatus(lib, r, opts) == Stale <==> ShownStale(lib, r, opts)
    ensures FreshnessStatus(lib, r, opts) in {Ok, Stale, FreshnessNotApplicable}
  {}

  /** The report in order: the schema; the hash of a supported receipt; every reference with its type and
      digest; the packets nobody claims; freshness if asked; the evaluator if recorded. */
  lemma ReportIsInOrder(lib: Library, r: Receipt, packets: seq<Packet>, opts: CheckOptions)
    ensures var os, h, n := Outcomes(lib, r, packets, opts), if r.schema == "nq.receipt.v1" then 1 else 0, |r.witnesses|;
      var extras := ExtraOutcomes(r.witnesses, PacketDigests(lib, packets), |PacketDigests(lib, packets)|);
      var tail := 1 + h + n + |extras|;
      && |os| == tail + (if opts.checkFreshness then 1 else 0) + (if r.evaluator.Some? then 1 else 0)
      && os[0] == CheckOutcome(Schema(r.schema), if h == 1 then Ok else UnsupportedReceiptVersion)
      && (h == 1 ==> os[1] == CheckOutcome(ContentHash, HashStatus(lib, r)))
      && (forall i :: 0 <= i < n ==> os[1 + h + i].kind == WitnessDigest(r.witnesses[i].witnessType, r.witnesses[i].digest))
      && os[1 + h + n..tail] == extras
      && (opts.checkFreshness ==> os[tail].kind == FreshnessHorizon)
      && (r.evaluator.Some? ==> os[|os| - 1] == CheckOutcome(EvaluatorCheck(r.evaluator.value), Ok))
  {
    hide PacketDigests, ExtraOutcomes, HashStatus, RefStatus, FreshnessStatus;
    var digests := PacketDigests(lib, packets);
    var a, b, c := [SchemaOutcome(r)], HashOutcomes(lib, r), RefOutcomes(r.witnesses, digests);
    var d, e, f := ExtraOutcomes(r.witnesses, digests, |digests|), FreshnessOutcomes(lib, r, opts), EvaluatorOutcomes(r);
    SectionsInOrder(a, b, c, d, e, f);
  }

  lemma SectionsInOrder(a: seq<CheckOutcome>, b: seq<CheckOutcome>, c: seq<CheckOutcome>,
                        d: seq<CheckOutcome>, e: seq<CheckOutcome>, f: seq<CheckOutcome>)
    ensures var os := a + b + c + d + e + f;
      && os[..|a|] == a && os[|a|..|a| + |b|] == b && os[|a| + |b|..|a| + |b| + |c|] == c
      && os[|a| + |b| + |c|..|a| + |b| + |c| + |d|] == d
      && os[|a| + |b| + |c| + |d|..|a| + |b| + |c| + |d| + |e|] == e
      && os[|a| + |b| + |c| + |d| + |e|..] == f
  {}

  /** The extra outcomes are exactly the packets that are not the first cited one of their digest. */
  lemma {:induction false} ExtrasAreUnclaimed(refs: seq<WitnessRef>, digests: seq<string>, upTo: nat, o: CheckOutcome)
    requires upTo <= |digests|
    ensures o in ExtraOutcomes(refs, digests, upTo) <==>
      exists k :: 0 <= k < upTo && !Claimed(refs, digests, k) && o == CheckOutcome(ExtraSuppliedPacket(digests[k]), ExtraWitnessPacket)
  {
    hide Claimed;
    if upTo == 0 {
    } else {
      ExtrasAreUnclaimed(refs, digests, upTo - 1, o);
    }
  }

  /** The supplied digests are those of the packets that have one, in order, each as often as it came. */
  lemma {:induction false} DigestsKeepOrder(lib: Library, packets: seq<Packet>) returns (places: seq<nat>)
    ensures |places| == |PacketDigests(lib, packets)|
    ensures forall i, j :: 0 <= i < j < |places| ==> places[i] < places[j]
    ensures forall k :: 0 <= k < |places| ==>
      places[k] < |packets| && lib.digest(packets[places[k]]) == Some(PacketDigests(lib, packets)[k])
    ensures forall i :: 0 <= i < |packets| ==> (i in places <==> lib.digest(packets[i]).Some?)
  {
    if packets == [] {
      places := [];
    } else {
      var rest, last := packets[..|packets| - 1], packets[|packets| - 1];
      places := DigestsKeepOrder(lib, rest);
      if lib.digest(last).Some? { places := places + [|rest|]; }
    }
  }
}
