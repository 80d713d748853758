/** Receipt sealing: canonicalization in place and re-verification of the spend accounting
    (crates/nq-core/src/inquiry.rs, 2150-2750). */
module InquiryReceipt {
  import opened Order
  import opened Text
  import opened InquiryTypes
  import opened Profiles
  import opened Admission

  const RECEIPT_SCHEMA := "nq.inquiry_receipt.v0"

  datatype Outcome =
    | OutcomeResolutionFailed | OutcomeConnectionFailed | OutcomeHandshakeFailed | NoCertificatePresented
    | NameMismatch | ChainInvalid | ExpiredUnderAcquisitionClock | ValidNowButExpiresWithinHorizon
    | ValidBeyondExpiryHorizon | AcquisitionBoundRefused

  datatype Validation = Valid | Invalid(reason: string) | NotAttempted

  datatype Observation = Observation(
    acquiredAt: string,
    target: Target,
    observedIp: Option<string>,
    certificateDigest: Option<string>,
    chainDigest: Option<string>,
    chainFingerprints: seq<string>,
    notBefore: Option<string>,
    notAfter: Option<string>,
    validation: Validation,
    outcome: Outcome,
    spend: Spend,
    refusals: seq<Refusal>)
  {
    predicate CertificateObserved() {
      certificateDigest.Some? && chainDigest.Some? && chainFingerprints != [] && notBefore.Some? && notAfter.Some?
    }

    predicate NoCertificateEvidence() {
      certificateDigest.None? && chainDigest.None? && chainFingerprints == [] && notBefore.None? && notAfter.None?
    }

    /** `verify_shape`: the outcome is consistent with the evidence and the refusals. */
    predicate ShapeOk(parses: string -> bool) {
      && (certificateDigest.Some? ==> IsSha256Digest(certificateDigest.value))
      && (chainDigest.Some? ==> IsSha256Digest(chainDigest.value))
      && (notBefore.Some? ==> parses(notBefore.value))
      && (notAfter.Some? ==> parses(notAfter.value))
      && match outcome
         case OutcomeResolutionFailed =>
           spend.connectionAttempts == 0 && spend.handshakesAttempted == 0 && observedIp.None?
           && NoCertificateEvidence() && validation.NotAttempted? && HasKind(refusals, ResolutionFailed)
         case OutcomeConnectionFailed =>
           spend.connectionAttempts == 1 && spend.handshakesAttempted == 0 && observedIp.Some?
           && NoCertificateEvidence() && validation.NotAttempted? && HasKind(refusals, ConnectionFailed)
         case OutcomeHandshakeFailed =>
           spend.handshakesAttempted == 1 && spend.handshakesCompleted != 1 && observedIp.Some?
           && NoCertificateEvidence() && validation.NotAttempted? && HasKind(refusals, TlsHandshakeFailed)
         case NoCertificatePresented =>
           spend.handshakesCompleted == 1 && !CertificateObserved() && observedIp.Some? && HasKind(refusals, EvidenceAbsent)
         case NameMismatch => CompletedWith(true)
         case ExpiredUnderAcquisitionClock => CompletedWith(true)
         case ChainInvalid => CompletedWith(true)
         case ValidNowButExpiresWithinHorizon => CompletedWith(false)
         case ValidBeyondExpiryHorizon => CompletedWith(false)
         case AcquisitionBoundRefused => HasKind(refusals, AcquisitionBoundCannotBeHonored)
    }

    predicate CompletedWith(invalid: bool) {
      spend.handshakesCompleted == 1 && CertificateObserved() && observedIp.Some?
      && (if invalid then validation.Invalid? else validation.Valid?)
    }

    /** Outcomes that force the receipt to be refused. */
    predicate IsRefusal() {
      outcome in {OutcomeResolutionFailed, OutcomeConnectionFailed, OutcomeHandshakeFailed, NoCertificatePresented,
                  AcquisitionBoundRefused}
    }
  }

  datatype Status = Answered | Refused

  datatype Disposition = OperationallyActive | NotOperationallyActive | CannotTestify | PerTargetOutcomes

  datatype EvidenceCoverage = EvidenceCoverage(
    matchedCurrentRows: u64,
    matchedReceiptRows: u64,
    receiptLimit: u32,
    receiptTailTruncated: bool,
    newestReceiptGeneration: Option<int>,
    oldestReceiptGeneration: Option<int>)

  const NO_EVIDENCE := EvidenceCoverage(0, 0, 0, false, None, None)

  /** The fields sealing never touches. */
  datatype Head = Head(
    schema: string,
    status: Status,
    disposition: Disposition,
    request: Request,
    sourceSnapshot: Option<string>,
    findingState: Option<string>,
    evidenceReceipts: seq<string>,
    evidenceCoverage: EvidenceCoverage,
    witnessPlan: Option<WitnessPlan>,
    acquisition: Option<Spend>,
    grantDigest: Option<string>,
    authorizedEnvelope: Option<Spend>,
    observedSpend: Option<Spend>,
    acquisitionSpend: u64)

  /** A receipt value: the head plus the fields sealing canonicalizes. */
  datatype Receipt = Receipt(
    head: Head,
    coverage: seq<string>,
    cannotTestify: seq<Refusal>,
    observations: seq<Observation>,
    digest: Option<string>)

  // ---- canonical form ----

  predicate ObservationLess(a: Observation, b: Observation) { TargetLess(a.target, b.target) }

  function SortedRefusalSet(refusals: seq<Refusal>): seq<Refusal> { Dedup(Sort(refusals, RefusalLess)) }

  function CanonicalObservation(o: Observation): Observation { o.(refusals := SortedRefusalSet(o.refusals)) }

  function CanonicalEach(os: seq<Observation>): seq<Observation> {
    seq(|os|, i requires 0 <= i < |os| => CanonicalObservation(os[i]))
  }

  function Canonical(r: Receipt): Receipt {
    r.(coverage := Sort(r.coverage, StrLess),
       cannotTestify := SortedRefusalSet(r.cannotTestify),
       observations := Sort(CanonicalEach(r.observations), ObservationLess))
  }

  // ---- accounting ----

  /** One `+=` per counter, at the counter's width. */
  function AddWrapping(a: Spend, b: Spend): Spend {
    Spend(Truncate32(a.dnsAttempts + b.dnsAttempts),
          Truncate32(a.connectionAttempts + b.connectionAttempts),
          Truncate32(a.handshakesAttempted + b.handshakesAttempted),
          Truncate32(a.handshakesCompleted + b.handshakesCompleted),
          Truncate32(a.boundChecks + b.boundChecks),
          Truncate64(a.wallMs + b.wallMs),
          Truncate64(a.workUnits + b.workUnits))
  }

  /** The accumulator after the whole loop. */
  function Summed(os: seq<Observation>): Spend {
    if os == [] then NO_SPEND else AddWrapping(Summed(os[..|os| - 1]), os[|os| - 1].spend)
  }

  /** The per-target caps inside the loop. */
  predicate TargetSpendOk(s: Spend, perTargetDeadlineMs: u64) {
    && s.workUnits == s.CountedWorkUnits()
    && s.handshakesCompleted <= s.handshakesAttempted <= s.connectionAttempts <= s.dnsAttempts <= 1
    && s.connectionAttempts <= 1 && s.handshakesAttempted <= 1 && s.boundChecks <= 1
    && s.wallMs <= perTargetDeadlineMs
  }

  /** The checks on one observation that come before its spend is added. */
  predicate AddableOk(parses: string -> bool, plan: WitnessPlan, o: Observation) {
    && parses(o.acquiredAt)
    && o.ShapeOk(parses)
    && o.target in plan.targets
    && TargetSpendOk(o.spend, plan.bounds.perTargetDeadlineMs)
  }

  /** Its refusals are checked after. */
  predicate ObservationOk(parses: string -> bool, plan: WitnessPlan, cannotTestify: seq<Refusal>, o: Observation) {
    && AddableOk(parses, plan, o)
    && (forall r :: r in o.refusals ==> r in cannotTestify)
  }

  ghost predicate DistinctTargets(os: seq<Observation>) {
    forall i, j :: 0 <= i < j < |os| ==> os[i].target != os[j].target
  }

  ghost predicate ObservationsOk(parses: string -> bool, plan: WitnessPlan, cannotTestify: seq<Refusal>, os: seq<Observation>) {
    && (forall i :: 0 <= i < |os| ==> ObservationOk(parses, plan, cannotTestify, os[i]))
    && DistinctTargets(os)
  }

  predicate WorkIsCounted(acquisition: Spend, acquisitionSpend: u64) {
    && acquisition.workUnits != 0
    && acquisition.workUnits == acquisition.CountedWorkUnits()
    && acquisitionSpend == acquisition.workUnits
  }

  /** The aggregate caps checked before the loop, except the wall clock. */
  predicate WithinCaps(acquisition: Spend, b: Bounds) {
    && acquisition.dnsAttempts <= b.maxDnsAttempts
    && acquisition.connectionAttempts <= b.maxConnectionAttempts
    && acquisition.handshakesAttempted <= b.maxHandshakesAttempted
    && acquisition.boundChecks <= b.maxBoundChecks
    && acquisition.connectionAttempts <= acquisition.dnsAttempts
    && acquisition.handshakesAttempted <= acquisition.connectionAttempts
    && acquisition.handshakesCompleted <= acquisition.handshakesAttempted
    && acquisition.workUnits <= b.maxWorkUnits
  }

  predicate AccountingMatches(summed: Spend, acquisition: Spend) {
    && summed.dnsAttempts == acquisition.dnsAttempts
    && summed.connectionAttempts == acquisition.connectionAttempts
    && summed.handshakesAttempted == acquisition.handshakesAttempted
    && summed.handshakesCompleted == acquisition.handshakesCompleted
    && summed.boundChecks == acquisition.boundChecks
    && summed.wallMs <= acquisition.wallMs
    && summed.workUnits == acquisition.workUnits
  }

  // ---- the envelope checks ----

  predicate GrantBindingOk(h: Head, acquisition: Spend) {
    match (h.grantDigest, h.authorizedEnvelope, h.observedSpend)
    case (None, None, None) => true
    case (Some(d), Some(authorized), Some(observed)) =>
      IsSha256Digest(d) && observed == acquisition && FirstOverLimit(observed, authorized).None?
    case _ => false
  }

  predicate ReportEnvelopeOk(r: Receipt) {
    var h := r.head;
    && h.acquisitionSpend == 0 && h.acquisition.None? && h.witnessPlan.None? && r.observations == []
    && h.grantDigest.None? && h.authorizedEnvelope.None? && h.observedSpend.None?
    && h.request.selector.Some? && h.request.requestedTargets == [] && h.request.admittedTargets == []
    && h.disposition != PerTargetOutcomes
  }

  predicate HasGrantRefusal(refusals: seq<Refusal>) {
    || HasKind(refusals, GrantRequired) || HasKind(refusals, GrantMalformed)
    || HasKind(refusals, GrantScopeInsufficient) || HasKind(refusals, GrantDepthInsufficient)
    || HasKind(refusals, GrantAcquisitionEnvelopeInsufficient) || HasKind(refusals, GrantWitnessClassNotPermitted)
  }

  datatype EnvelopeShape = CompletedPerTargetOutcomes | PreAcquisitionGrantRefusal | NoShape

  function ShapeOf(r: Receipt): EnvelopeShape {
    if r.head.disposition == PerTargetOutcomes then CompletedPerTargetOutcomes
    else if r.head.disposition == CannotTestify && r.head.status == Refused && HasGrantRefusal(r.cannotTestify)
      then PreAcquisitionGrantRefusal
    else NoShape
  }

  predicate PreAcquisitionOk(r: Receipt, acquisition: Spend) {
    var h := r.head;
    && r.observations == [] && h.acquisitionSpend == 0 && acquisition == NO_SPEND
    && (HasKind(r.cannotTestify, GrantRequired) || HasKind(r.cannotTestify, GrantMalformed) ==>
          h.grantDigest.None? && h.authorizedEnvelope.None? && h.observedSpend.None?)
    && GrantBindingOk(h, acquisition)
  }

  /** The checks of `verify_tls_envelope` up to the choice of shape. */
  ghost predicate TlsHeaderOk(env: Env, r: Receipt) {
    var h := r.head;
    && h.request.selector.None? && h.sourceSnapshot.None? && h.findingState.None? && h.evidenceReceipts == []
    && h.evidenceCoverage == NO_EVIDENCE
    && HasKind(r.cannotTestify, ConsequenceAuthority)
    && h.witnessPlan.Some? && EnvelopeOk(env, h.witnessPlan.value)
    && h.witnessPlan.value.requestDigest == h.request.requestDigest
    && h.witnessPlan.value.targets == h.request.admittedTargets
    && h.request.requestedTargets == h.request.admittedTargets
    && h.acquisition.Some?
  }

  /** The checks of a completed envelope before the observation loop. */
  ghost predicate BeforeLoopOk(env: Env, r: Receipt) {
    && TlsHeaderOk(env, r) && ShapeOf(r) == CompletedPerTargetOutcomes
    && WorkIsCounted(r.head.acquisition.value, r.head.acquisitionSpend)
    && WithinCaps(r.head.acquisition.value, r.head.witnessPlan.value.bounds)
    && r.head.acquisition.value.wallMs <= r.head.witnessPlan.value.bounds.totalDeadlineMs
    && |r.observations| == |r.head.witnessPlan.value.targets|
  }

  predicate StatusFollows(status: Status, os: seq<Observation>) {
    status == (if exists i :: 0 <= i < |os| && os[i].IsRefusal() then Refused else Answered)
  }

  ghost predicate CompletedOk(env: Env, r: Receipt) {
    && BeforeLoopOk(env, r)
    && ObservationsOk(env.parses, r.head.witnessPlan.value, r.cannotTestify, r.observations)
    && AccountingMatches(Summed(r.observations), r.head.acquisition.value)
    && StatusFollows(r.head.status, r.observations)
    && GrantBindingOk(r.head, r.head.acquisition.value)
  }

  ghost predicate TlsEnvelopeOk(env: Env, r: Receipt) {
    || CompletedOk(env, r)
    || (TlsHeaderOk(env, r) && ShapeOf(r) == PreAcquisitionGrantRefusal && PreAcquisitionOk(r, r.head.acquisition.value))
  }

  ghost predicate EnvelopeHolds(env: Env, r: Receipt) {
    if r.head.request.questionKind == FindingOperationalActivity then ReportEnvelopeOk(r) else TlsEnvelopeOk(env, r)
  }

  // ---- sealing ----

  ghost predicate Precheck(env: Env, r: Receipt) {
    r.head.schema == RECEIPT_SCHEMA && r.head.request.DigestOk(env)
  }

  /** The canonical receipt passes every check; the stored digest plays no part. */
  ghost predicate Seals(env: Env, r: Receipt) {
    Precheck(env, r) && EnvelopeHolds(env, Canonical(r).(digest := None))
  }

  /** The receipt after `seal`, successful or not: a failed envelope check leaves the sorted fields. */
  ghost function AfterSeal(env: Env, hash: Receipt -> string, r: Receipt): Receipt {
    if !Precheck(env, r) then r
    else if !Seals(env, r) then Canonical(r)
    else Canonical(r).(digest := Some(hash(Canonical(r).(digest := None))))
  }

  class InquiryReceipt {
    const head: Head
    var coverage: seq<string>
    var cannotTestify: seq<Refusal>
    var tlsObservations: seq<Observation>
    var receiptDigest: Option<string>

    constructor (r: Receipt)
      ensures View() == r
    {
      head, coverage, cannotTestify, tlsObservations, receiptDigest :=
        r.head, r.coverage, r.cannotTestify, r.observations, r.digest;
    }

    function View(): Receipt
      reads this
    {
      Receipt(head, coverage, cannotTestify, tlsObservations, receiptDigest)
    }

    /** The in-place sorts and dedups at the start of `seal`. */
    method Canonicalize()
      modifies this
      ensures View() == Canonical(old(View()))
    {
      hide Sort, Dedup;
      coverage := Sort(coverage, StrLess);
      cannotTestify := Dedup(Sort(cannotTestify, RefusalLess));
      ghost var before := tlsObservations;
      var i := 0;
      while i < |tlsObservations|
        invariant 0 <= i <= |tlsObservations| == |before|
        invariant forall j :: 0 <= j < i ==> tlsObservations[j] == CanonicalObservation(before[j])
        invariant forall j :: i <= j < |before| ==> tlsObservations[j] == before[j]
        invariant coverage == Sort(old(coverage), StrLess)
        invariant cannotTestify == SortedRefusalSet(old(cannotTestify)) && receiptDigest == old(receiptDigest)
      {
        var o := tlsObservations[i];
        tlsObservations := tlsObservations[i := o.(refusals := Dedup(Sort(o.refusals, RefusalLess)))];
        i := i + 1;
      }
      assert tlsObservations == CanonicalEach(before);
      tlsObservations := Sort(tlsObservations, ObservationLess);
    }

    method Seal(env: Env, hash: Receipt -> string) returns (ok: bool)
      modifies this
      ensures ok <==> Seals(env, old(View()))
      ensures View() == AfterSeal(env, hash, old(View()))
    {
      hide Canonical, ReportEnvelopeOk, TlsEnvelopeOk, Request.DigestOk;
      if head.schema != RECEIPT_SCHEMA || !head.request.DigestOk(env) {
        return false;
      }
      Canonicalize();
      var canonical := View().(digest := None);
      match head.request.questionKind {
        case FindingOperationalActivity => ok := ReportEnvelopeOk(canonical);
        case TlsCertificate => ok := VerifyTlsEnvelope(env, canonical);
      }
      if ok {
        receiptDigest := Some(hash(View().(digest := None)));
      }
    }
  }

  method VerifyTlsEnvelope(env: Env, r: Receipt) returns (ok: bool)
    ensures ok <==> TlsEnvelopeOk(env, r)
  {
    hide EnvelopeOk, WorkIsCounted, WithinCaps, AccountingMatches, StatusFollows, GrantBindingOk, PreAcquisitionOk;
    hide HasGrantRefusal, HasKind;
    var h := r.head;
    if h.request.selector.Some? || h.sourceSnapshot.Some? || h.findingState.Some? || h.evidenceReceipts != []
       || h.evidenceCoverage != NO_EVIDENCE
    {
      return false;
    }
    if !HasKind(r.cannotTestify, ConsequenceAuthority) || h.witnessPlan.None? {
      return false;
    }
    var plan := h.witnessPlan.value;
    var planOk := VerifyEnvelope(env, plan);
    if !planOk || plan.requestDigest != h.request.requestDigest || plan.targets != h.request.admittedTargets
       || h.request.requestedTargets != h.request.admittedTargets || h.acquisition.None?
    {
      return false;
    }
    var acquisition := h.acquisition.value;
    match ShapeOf(r) {
      case NoShape =>
        return false;
      case PreAcquisitionGrantRefusal =>
        return PreAcquisitionOk(r, acquisition);
      case CompletedPerTargetOutcomes =>
        if !WorkIsCounted(acquisition, h.acquisitionSpend) || !WithinCaps(acquisition, plan.bounds)
           || acquisition.wallMs > plan.bounds.totalDeadlineMs || |r.observations| != |plan.targets|
        {
          return false;
        }
        var passed, summed := SumObservations(env, plan, r.cannotTestify, r.observations);
        ok := passed && AccountingMatches(summed, acquisition) && StatusFollows(h.status, r.observations)
              && GrantBindingOk(h, acquisition);
    }
  }

  /** The observation loop: checks each observation and accumulates the seven counters. */
  method SumObservations(env: Env, plan: WitnessPlan, cannotTestify: seq<Refusal>, os: seq<Observation>)
    returns (ok: bool, summed: Spend)
    ensures ok <==> ObservationsOk(env.parses, plan, cannotTestify, os)
    ensures ok ==> summed == Summed(os)
  {
    hide ObservationOk, AddWrapping;
    var observed: set<Target> := {};
    summed := NO_SPEND;
    assert summed == Summed(os[..0]);
    hide Summed;
    for i := 0 to |os|
      invariant forall j :: 0 <= j < i ==> ObservationOk(env.parses, plan, cannotTestify, os[j])
      invariant forall j :: 0 <= j < i ==> os[j].target in observed
      invariant forall t :: t in observed ==> exists j :: 0 <= j < i && os[j].target == t
      invariant forall j, k :: 0 <= j < k < i ==> os[j].target != os[k].target
      invariant summed == Summed(os[..i])
    {
      if !ObservationOk(env.parses, plan, cannotTestify, os[i]) || os[i].target in observed {
        return false, summed;
      }
      observed := observed + {os[i].target};
      SummedStep(os, i);
      summed := AddWrapping(summed, os[i].spend);
    }
    assert os[..|os|] == os;
    ok := true;
  }

  lemma SummedStep(os: seq<Observation>, i: nat)
    requires i < |os|
    ensures Summed(os[..i + 1]) == AddWrapping(Summed(os[..i]), os[i].spend)
  {
    assert os[..i + 1][..i] == os[..i];
  }
}
