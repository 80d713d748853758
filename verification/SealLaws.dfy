/** What a sealed inquiry receipt testifies to, said of the receipt and not of the checks: outcomes and
    their evidence, balanced books, and the grant that covers them (crates/nq-core/src/inquiry.rs, `seal`). */
module SealLaws {
  import opened Order
  import opened Text
  import opened InquiryTypes
  import opened Profiles
  import opened Admission
  import opened InquiryReceipt
  import opened ReceiptLaws

  ghost predicate Carries(refusals: seq<Refusal>, kind: RefusalKind) {
    exists r :: r in refusals && r.kind == kind
  }

  // ---- outcomes and their evidence ----

  /** The refusal an outcome owes its reader. */
  function OwedRefusal(outcome: Outcome): Option<RefusalKind> {
    match outcome
    case OutcomeResolutionFailed => Some(ResolutionFailed)
    case OutcomeConnectionFailed => Some(ConnectionFailed)
    case OutcomeHandshakeFailed => Some(TlsHandshakeFailed)
    case NoCertificatePresented => Some(EvidenceAbsent)
    case AcquisitionBoundRefused => Some(AcquisitionBoundCannotBeHonored)
    case _ => None
  }

  const BEFORE_HANDSHAKE := {OutcomeResolutionFailed, OutcomeConnectionFailed, OutcomeHandshakeFailed}
  const JUDGED_VALID := {ValidNowButExpiresWithinHorizon, ValidBeyondExpiryHorizon}
  const JUDGED_INVALID := {NameMismatch, ChainInvalid, ExpiredUnderAcquisitionClock}
  const NO_TESTIMONY := BEFORE_HANDSHAKE + {NoCertificatePresented, AcquisitionBoundRefused}

  ghost predicate WholeCertificate(o: Observation) {
    o.certificateDigest.Some? && o.chainDigest.Some? && |o.chainFingerprints| > 0 && o.notBefore.Some? && o.notAfter.Some?
  }

  ghost predicate NoCertificate(o: Observation) {
    o.certificateDigest == None && o.chainDigest == None && |o.chainFingerprints| == 0 && o.notBefore == None && o.notAfter == None
  }

  /** Outcome, evidence, progress and verdict agree, kind of evidence by kind of evidence. */
  ghost predicate OutcomeLaw(parses: string -> bool, o: Observation) {
    // what is carried is well formed
    && (forall d :: o.certificateDigest == Some(d) || o.chainDigest == Some(d) ==> IsSha256Digest(d))
    && (forall t :: o.notBefore == Some(t) || o.notAfter == Some(t) ==> parses(t))
    // certificates
    && (o.outcome in JUDGED_VALID + JUDGED_INVALID ==> WholeCertificate(o))
    && (o.outcome in BEFORE_HANDSHAKE ==> NoCertificate(o))
    && (o.outcome == NoCertificatePresented ==> !WholeCertificate(o))
    // verdicts
    && (o.outcome in JUDGED_VALID ==> o.validation.Valid?)
    && (o.outcome in JUDGED_INVALID ==> o.validation.Invalid?)
    && (o.outcome in BEFORE_HANDSHAKE ==> o.validation.NotAttempted?)
    // addresses
    && (o.outcome == OutcomeResolutionFailed ==> o.observedIp == None)
    && (o.outcome !in {OutcomeResolutionFailed, AcquisitionBoundRefused} ==> o.observedIp.Some?)
    // progress
    && (o.outcome in JUDGED_VALID + JUDGED_INVALID + {NoCertificatePresented} ==> o.spend.handshakesCompleted == 1)
    && (o.outcome == OutcomeHandshakeFailed ==> o.spend.handshakesAttempted == 1 && o.spend.handshakesCompleted != 1)
    && (o.outcome == OutcomeConnectionFailed ==> o.spend.connectionAttempts == 1 && o.spend.handshakesAttempted == 0)
    && (o.outcome == OutcomeResolutionFailed ==> o.spend.connectionAttempts == 0 && o.spend.handshakesAttempted == 0)
    // refusals
    && (OwedRefusal(o.outcome).Some? ==> Carries(o.refusals, OwedRefusal(o.outcome).value))
  }

  lemma CarriesIsHasKind(refusals: seq<Refusal>, kind: RefusalKind)
    ensures HasKind(refusals, kind) <==> Carries(refusals, kind)
  {
    HasKindIsMembership(refusals, kind);
  }

  lemma OutcomeIsExact(parses: string -> bool, o: Observation)
    ensures o.ShapeOk(parses) <==> OutcomeLaw(parses, o)
  {
    forall kind ensures HasKind(o.refusals, kind) <==> Carries(o.refusals, kind) { CarriesIsHasKind(o.refusals, kind); }
    hide HasKind, Carries, IsSha256Digest;
  }

  // ---- the grant a receipt is bound to ----

  /** Bound wholly or not at all; if bound, under a well-formed digest, to what was spent, within what was
      authorized, counter by counter. */
  ghost predicate GrantLaw(h: Head, spent: Spend) {
    if h.grantDigest == None then h.authorizedEnvelope == None && h.observedSpend == None
    else
      && IsSha256Digest(h.grantDigest.value)
      && h.observedSpend == Some(spent)
      && h.authorizedEnvelope.Some? && Within(spent, h.authorizedEnvelope.value)
  }

  lemma GrantIsExact(h: Head, spent: Spend)
    ensures GrantBindingOk(h, spent) <==> GrantLaw(h, spent)
  {
    if h.authorizedEnvelope.Some? { FirstOverLimitExact(spent, h.authorizedEnvelope.value); }
    hide FirstOverLimit, Within, IsSha256Digest;
  }

  // ---- the three kinds of receipt ----

  /** A report: no acquisition, no plan, no grant, no targets. */
  ghost predicate ReportLaw(r: Receipt) {
    var h := r.head;
    && h.disposition in {OperationallyActive, NotOperationallyActive, CannotTestify}
    && h.request.selector.Some? && |h.request.requestedTargets| == 0 && |h.request.admittedTargets| == 0
    && h.witnessPlan == None && h.acquisition == None && h.acquisitionSpend == 0 && |r.observations| == 0
    && h.grantDigest == None && h.authorizedEnvelope == None && h.observedSpend == None
  }

  /** A survey carries no report material, disclaims consequence, and a verified plan for its request. */
  ghost predicate SurveyLaw(env: Env, r: Receipt) {
    var h := r.head;
    && h.request.selector == None && h.sourceSnapshot == None && h.findingState == None && |h.evidenceReceipts| == 0
    && h.evidenceCoverage == EvidenceCoverage(0, 0, 0, false, None, None)
    && Carries(r.cannotTestify, ConsequenceAuthority)
    && h.acquisition.Some? && h.witnessPlan.Some? && EnvelopeOk(env, h.witnessPlan.value)
    && h.witnessPlan.value.requestDigest == h.request.requestDigest
    && h.request.requestedTargets == h.request.admittedTargets == h.witnessPlan.value.targets
  }

  const GRANT_REFUSALS := {GrantRequired, GrantMalformed, GrantScopeInsufficient, GrantDepthInsufficient,
                           GrantAcquisitionEnvelopeInsufficient, GrantWitnessClassNotPermitted}

  /** A survey refused for want of a grant, before anything was spent. */
  ghost predicate RefusedLaw(r: Receipt) {
    var h := r.head;
    && h.disposition == CannotTestify && h.status == Refused
    && (exists kind :: kind in GRANT_REFUSALS && Carries(r.cannotTestify, kind))
    && |r.observations| == 0 && h.acquisitionSpend == 0 && h.acquisition == Some(Spend(0, 0, 0, 0, 0, 0, 0))
    && (Carries(r.cannotTestify, GrantRequired) || Carries(r.cannotTestify, GrantMalformed) ==> h.grantDigest == None)
    && GrantLaw(h, Spend(0, 0, 0, 0, 0, 0, 0))
  }

  /** One target's testimony: serial attempts, at most one of each, counted, in time, and disclosed. */
  ghost predicate TestimonyLaw(parses: string -> bool, deadline: u64, cannotTestify: seq<Refusal>, o: Observation) {
    var s := o.spend;
    && parses(o.acquiredAt) && OutcomeLaw(parses, o)
    && s.handshakesCompleted <= s.handshakesAttempted <= s.connectionAttempts <= s.dnsAttempts <= 1 && s.boundChecks <= 1
    && s.workUnits == s.dnsAttempts + s.connectionAttempts + s.handshakesAttempted + s.boundChecks
    && s.wallMs <= deadline
    && forall x :: x in o.refusals ==> x in cannotTestify
  }

  ghost predicate AllTestify(parses: string -> bool, deadline: u64, cannotTestify: seq<Refusal>, os: seq<Observation>) {
    forall i :: 0 <= i < |os| ==> TestimonyLaw(parses, deadline, cannotTestify, os[i])
  }

  ghost predicate Covers(targets: seq<Target>, os: seq<Observation>) {
    forall t :: t in targets <==> Observes(os, t)
  }

  /** Declared spend is the true total of every counter; elapsed time covers the serial time. */
  ghost predicate BooksBalance(h: Head, os: seq<Observation>)
    requires h.acquisition.Some? && h.witnessPlan.Some?
  {
    var spent, t := h.acquisition.value, TotalsOf(os);
    && spent.dnsAttempts == t.dns && spent.connectionAttempts == t.connection
    && spent.handshakesAttempted == t.attempted && spent.handshakesCompleted == t.completed && spent.boundChecks == t.bound
    && spent.workUnits == h.acquisitionSpend == t.work && t.work > 0
    && t.wall <= spent.wallMs <= h.witnessPlan.value.bounds.totalDeadlineMs
  }

  /** Answered means that every target gave testimony. */
  ghost predicate StatusLaw(status: Status, os: seq<Observation>) {
    status == Refused <==> exists i :: 0 <= i < |os| && os[i].outcome in NO_TESTIMONY
  }

  /** A completed survey: each planned target testified to exactly once, and books that balance in true
      totals. That every aggregate cap holds is a consequence. */
  ghost predicate CompletedLaw(env: Env, r: Receipt)
    requires r.head.acquisition.Some? && r.head.witnessPlan.Some?
  {
    var h, os, plan := r.head, r.observations, r.head.witnessPlan.value;
    && h.disposition == PerTargetOutcomes
    && DistinctTargets(os) && Covers(plan.targets, os)
    && AllTestify(env.parses, plan.bounds.perTargetDeadlineMs, r.cannotTestify, os)
    && BooksBalance(h, os) && StatusLaw(h.status, os) && GrantLaw(h, h.acquisition.value)
  }

  /** What the receipt says, whichever kind it is. */
  ghost predicate Lawful(env: Env, r: Receipt) {
    && r.head.schema == "nq.inquiry_receipt.v0" && r.head.request.DigestOk(env)
    && match r.head.request.questionKind
       case FindingOperationalActivity => ReportLaw(r)
       case TlsCertificate => SurveyLaw(env, r) && (RefusedLaw(r) || CompletedLaw(env, r))
  }

  // ---- seal accepts exactly the lawful ----

  lemma ReportIsExact(r: Receipt)
    ensures ReportEnvelopeOk(r) <==> ReportLaw(r)
  {}

  lemma SurveyIsExact(env: Env, r: Receipt)
    ensures TlsHeaderOk(env, r) <==> SurveyLaw(env, r)
  {
    CarriesIsHasKind(r.cannotTestify, ConsequenceAuthority);
    hide EnvelopeOk, HasKind, Carries;
  }

  lemma RefusedIsExact(env: Env, r: Receipt)
    requires r.head.acquisition.Some?
    ensures ShapeOf(r) == PreAcquisitionGrantRefusal && PreAcquisitionOk(r, r.head.acquisition.value) <==> RefusedLaw(r)
  {
    forall kind ensures HasKind(r.cannotTestify, kind) <==> Carries(r.cannotTestify, kind) { CarriesIsHasKind(r.cannotTestify, kind); }
    GrantIsExact(r.head, r.head.acquisition.value);
    hide HasKind, Carries, GrantBindingOk, IsSha256Digest, Within;
    assert HasGrantRefusal(r.cannotTestify) <==> exists kind :: kind in GRANT_REFUSALS && Carries(r.cannotTestify, kind);
    hide HasGrantRefusal;
  }

  lemma TestimonyIsExact(parses: string -> bool, plan: WitnessPlan, cannotTestify: seq<Refusal>, o: Observation)
    ensures ObservationOk(parses, plan, cannotTestify, o) <==>
      o.target in plan.targets && TestimonyLaw(parses, plan.bounds.perTargetDeadlineMs, cannotTestify, o)
  {
    OutcomeIsExact(parses, o);
    hide Observation.ShapeOk, OutcomeLaw;
  }

  lemma ObservesEach(os: seq<Observation>, i: nat)
    requires i < |os|
    ensures Observes(os, os[i].target)
  {}

  /** One observation per planned target, said by counting or said by covering. */
  lemma CoverageIsExact(plan: WitnessPlan, os: seq<Observation>)
    requires DistinctIds(plan.targets) && DistinctTargets(os)
    ensures |os| == |plan.targets| && (forall i :: 0 <= i < |os| ==> os[i].target in plan.targets) <==>
      forall t :: t in plan.targets <==> Observes(os, t)
  {
    if |os| == |plan.targets| && forall i :: 0 <= i < |os| ==> os[i].target in plan.targets {
      EveryTargetObserved(plan, os);
    }
    if forall t :: t in plan.targets <==> Observes(os, t) {
      forall i | 0 <= i < |os| ensures os[i].target in plan.targets { ObservesEach(os, i); }
      CoveredCount(plan, os);
    }
  }

  lemma CoveredCount(plan: WitnessPlan, os: seq<Observation>)
    requires DistinctIds(plan.targets) && DistinctTargets(os)
    requires forall t :: t in plan.targets <==> Observes(os, t)
    ensures |os| == |plan.targets|
  {
    DistinctIdsDistinct(plan.targets);
    DistinctSize(plan.targets);
    DistinctTargetsSize(os);
    forall t ensures t in (set x | x in plan.targets) <==> t in TargetSet(os) {
      ObservesIsMember(os, t);
    }
    assert (set x | x in plan.targets) == TargetSet(os);
  }

  lemma ObservesIsMember(os: seq<Observation>, t: Target)
    ensures Observes(os, t) <==> t in TargetSet(os)
  {
    if Observes(os, t) {
      var i :| 0 <= i < |os| && os[i].target == t;
      assert os[i] in os;
    }
    if t in TargetSet(os) {
      var o :| o in os && o.target == t;
      var i :| 0 <= i < |os| && os[i] == o;
    }
  }

  /** Everything about a completed survey but its books. */
  ghost predicate SoundApartFromBooks(env: Env, r: Receipt)
    requires r.head.acquisition.Some? && r.head.witnessPlan.Some?
  {
    var h, os, plan := r.head, r.observations, r.head.witnessPlan.value;
    && h.disposition == PerTargetOutcomes && |os| == |plan.targets|
    && ObservationsOk(env.parses, plan, r.cannotTestify, os)
    && StatusFollows(h.status, os) && GrantBindingOk(h, h.acquisition.value)
  }

  lemma SoundSpends(env: Env, r: Receipt)
    requires r.head.acquisition.Some? && r.head.witnessPlan.Some? && SoundApartFromBooks(env, r)
    ensures SpendsOk(r.observations, r.head.witnessPlan.value.bounds.perTargetDeadlineMs)
  {
    hide Observation.ShapeOk;
  }

  /** The checks on the books, given everything else. */
  ghost predicate BooksChecked(h: Head, os: seq<Observation>)
    requires h.acquisition.Some? && h.witnessPlan.Some?
  {
    var spent, b := h.acquisition.value, h.witnessPlan.value.bounds;
    && WorkIsCounted(spent, h.acquisitionSpend) && WithinCaps(spent, b) && spent.wallMs <= b.totalDeadlineMs
    && AccountingMatches(Summed(os), spent)
  }

  /** On at most 32 targets the wrapped sums are the true totals. */
  lemma SummedIsTotals(os: seq<Observation>, perTarget: u64)
    requires SpendsOk(os, perTarget) && perTarget <= 60_000 && |os| <= 32
    ensures var s, t := Summed(os), TotalsOf(os);
      && s.dnsAttempts == t.dns && s.connectionAttempts == t.connection && s.handshakesAttempted == t.attempted
      && s.handshakesCompleted == t.completed && s.boundChecks == t.bound && s.wallMs == t.wall && s.workUnits == t.work
    ensures Bounded(TotalsOf(os), |os|)
  {
    hide Wraps, TotalsOf, Summed, SpendsOk, Bounded;
    SummedWraps(os);
    TotalsBounded(os, perTarget);
    WallIsExact(os, perTarget);
    Unwrapped(Summed(os), TotalsOf(os), |os|);
  }

  lemma Unwrapped(s: Spend, t: Totals, n: nat)
    requires Wraps(s, t) && Bounded(t, n) && n <= 32
    ensures s.dnsAttempts == t.dns && s.connectionAttempts == t.connection && s.handshakesAttempted == t.attempted
    ensures s.handshakesCompleted == t.completed && s.boundChecks == t.bound && s.workUnits == t.work
  {
    SmallCount(t.dns);
    SmallCount(t.connection);
    SmallCount(t.attempted);
    SmallCount(t.completed);
    SmallCount(t.bound);
    SmallCount64(t.work);
    hide Truncate32, Truncate64;
  }

  lemma BooksAreExact(env: Env, h: Head, os: seq<Observation>)
    requires h.acquisition.Some? && h.witnessPlan.Some? && EnvelopeOk(env, h.witnessPlan.value)
    requires |os| == |h.witnessPlan.value.targets| < TWO_32
    requires SpendsOk(os, h.witnessPlan.value.bounds.perTargetDeadlineMs)
    ensures BooksChecked(h, os) <==> BooksBalance(h, os)
  {
    var plan := h.witnessPlan.value;
    PlanCountIsSmall(env, plan);
    SummedIsTotals(os, plan.bounds.perTargetDeadlineMs);
    if BooksBalance(h, os) {
      CapsFollow(env, plan, os, h.acquisition.value);
    }
    hide EnvelopeOk, BoundsMatch, SpendsOk, TotalsOf, Summed, Truncate32, WithinCaps;
  }

  lemma StatusIsExact(status: Status, os: seq<Observation>)
    ensures StatusFollows(status, os) <==> StatusLaw(status, os)
  {
    forall i | 0 <= i < |os| ensures os[i].IsRefusal() <==> os[i].outcome in NO_TESTIMONY {}
    hide Observation.IsRefusal;
  }

  lemma ObservationsAreExact(parses: string -> bool, plan: WitnessPlan, cannotTestify: seq<Refusal>, os: seq<Observation>)
    requires DistinctIds(plan.targets)
    ensures |os| == |plan.targets| && ObservationsOk(parses, plan, cannotTestify, os) <==>
      DistinctTargets(os) && Covers(plan.targets, os) && AllTestify(parses, plan.bounds.perTargetDeadlineMs, cannotTestify, os)
  {
    forall i | 0 <= i < |os|
      ensures ObservationOk(parses, plan, cannotTestify, os[i]) <==>
        os[i].target in plan.targets && TestimonyLaw(parses, plan.bounds.perTargetDeadlineMs, cannotTestify, os[i])
    {
      TestimonyIsExact(parses, plan, cannotTestify, os[i]);
    }
    if DistinctTargets(os) { CoverageIsExact(plan, os); }
    hide ObservationOk, TestimonyLaw, Observes, DistinctTargets;
  }

  lemma ChecksSplit(env: Env, r: Receipt)
    requires TlsHeaderOk(env, r)
    ensures CompletedOk(env, r) <==> SoundApartFromBooks(env, r) && BooksChecked(r.head, r.observations)
  {
    assert r.head.acquisition.Some? && r.head.witnessPlan.Some?;
    hide TlsHeaderOk, ObservationsOk, GrantBindingOk, StatusFollows, HasGrantRefusal, Summed, WorkIsCounted, WithinCaps, AccountingMatches;
  }

  lemma LawSplits(env: Env, r: Receipt)
    requires r.head.acquisition.Some? && r.head.witnessPlan.Some? && DistinctIds(r.head.witnessPlan.value.targets)
    ensures CompletedLaw(env, r) <==> SoundApartFromBooks(env, r) && BooksBalance(r.head, r.observations)
  {
    var h, os, plan := r.head, r.observations, r.head.witnessPlan.value;
    ObservationsAreExact(env.parses, plan, r.cannotTestify, os);
    StatusIsExact(h.status, os);
    GrantIsExact(h, h.acquisition.value);
    hide DistinctIds, ObservationsOk, DistinctTargets, Covers, AllTestify, GrantBindingOk, GrantLaw, StatusFollows, StatusLaw, BooksBalance;
  }

  lemma CompletedIsExact(env: Env, r: Receipt)
    requires SurveyLaw(env, r) && |r.observations| < TWO_32
    ensures CompletedOk(env, r) <==> CompletedLaw(env, r)
  {
    SurveyIsExact(env, r);
    PlanIsVerified(env, r);
    ChecksSplit(env, r);
    LawSplits(env, r);
    hide TlsHeaderOk, SurveyLaw, EnvelopeOk, CompletedOk, CompletedLaw, BooksChecked, BooksBalance;
    if SoundApartFromBooks(env, r) {
      SoundSpends(env, r);
      SoundCount(env, r);
      hide SoundApartFromBooks, SpendsOk;
      BooksAreExact(env, r.head, r.observations);
    }
  }

  lemma SoundCount(env: Env, r: Receipt)
    requires r.head.acquisition.Some? && r.head.witnessPlan.Some? && SoundApartFromBooks(env, r)
    ensures |r.observations| == |r.head.witnessPlan.value.targets|
  {}

  lemma PlanIsVerified(env: Env, r: Receipt)
    requires SurveyLaw(env, r)
    ensures r.head.acquisition.Some? && r.head.witnessPlan.Some?
    ensures EnvelopeOk(env, r.head.witnessPlan.value) && DistinctIds(r.head.witnessPlan.value.targets)
  {}

  /** Seal succeeds exactly on the receipts whose canonical form is lawful. */
  lemma SealAcceptsExactlyTheLawful(env: Env, r: Receipt)
    requires |r.observations| < TWO_32
    ensures Seals(env, r) <==> Lawful(env, Canonical(r).(digest := None))
  {
    CanonicalSize(r);
    var c := Canonical(r).(digest := None);
    assert c.head == r.head && |c.observations| == |r.observations|;
    hide Canonical, Request.DigestOk;
    if r.head.request.questionKind == FindingOperationalActivity {
      ReportIsExact(c);
    } else {
      SurveyIsExact(env, c);
      if SurveyLaw(env, c) {
        CompletedIsExact(env, c);
        RefusedIsExact(env, c);
      }
    }
    hide ReportEnvelopeOk, ReportLaw, TlsHeaderOk, SurveyLaw, CompletedOk, CompletedLaw, RefusedLaw, PreAcquisitionOk, ShapeOf;
    ShapesDiffer(env, c);
  }

  lemma ShapesDiffer(env: Env, r: Receipt)
    ensures CompletedOk(env, r) ==> TlsHeaderOk(env, r)
  {}

  // ---- what every sealed receipt shows ----

  /** The grant binding of a sealed receipt is whole or absent, and covers what was spent. */
  lemma SealedGrantCoversSpend(env: Env, r: Receipt)
    requires Seals(env, r)
    ensures r.head.grantDigest.Some? <==> r.head.authorizedEnvelope.Some?
    ensures r.head.grantDigest.Some? <==> r.head.observedSpend.Some?
    ensures r.head.grantDigest.Some? ==>
      && IsSha256Digest(r.head.grantDigest.value)
      && r.head.acquisition.Some? && r.head.observedSpend.value == r.head.acquisition.value
      && Within(r.head.acquisition.value, r.head.authorizedEnvelope.value)
  {
    CanonicalSize(r);
    var c := Canonical(r).(digest := None);
    assert c.head == r.head;
    hide Canonical, EnvelopeOk, ObservationsOk, HasKind, HasGrantRefusal, Summed, Within, IsSha256Digest;
    if c.head.acquisition.Some? { GrantIsExact(c.head, c.head.acquisition.value); }
    hide GrantBindingOk;
  }

  /** Spending past the authorized envelope, in any counter, is never sealed. */
  lemma OverspentNeverSeals(env: Env, r: Receipt)
    requires r.head.acquisition.Some? && r.head.authorizedEnvelope.Some?
    requires !Within(r.head.acquisition.value, r.head.authorizedEnvelope.value)
    ensures !Seals(env, r)
  {
    hide Within, Seals;
    if Seals(env, r) { SealedGrantCoversSpend(env, r); }
  }

  lemma CanonicalKeepsOutcome(parses: string -> bool, o: Observation)
    ensures OutcomeLaw(parses, CanonicalObservation(o)) <==> OutcomeLaw(parses, o)
  {
    SortedRefusalSetMembers(o.refusals);
    hide SortedRefusalSet, IsSha256Digest;
    forall kind ensures Carries(CanonicalObservation(o).refusals, kind) <==> Carries(o.refusals, kind) {}
    hide Carries;
  }

  /** In a sealed survey every outcome agrees with its evidence, verdict and progress. */
  lemma SealedOutcomesAgree(env: Env, r: Receipt, o: Observation)
    requires Seals(env, r) && r.head.request.questionKind == TlsCertificate && o in r.observations
    ensures OutcomeLaw(env.parses, o)
  {
    var c := Canonical(r);
    CanonicalSize(r);
    CanonicalMember(r, o);
    var i :| 0 <= i < |c.observations| && c.observations[i] == CanonicalObservation(o);
    CanonicalKeepsOutcome(env.parses, o);
    OutcomeIsExact(env.parses, c.observations[i]);
    hide Canonical, CanonicalObservation, OutcomeLaw, Observation.ShapeOk;
    hide EnvelopeOk, HasKind, HasGrantRefusal, Summed, TargetSpendOk, WorkIsCounted, WithinCaps, AccountingMatches, StatusFollows;
    assert ObservationOk(env.parses, c.head.witnessPlan.value, c.cannotTestify, c.observations[i]);
  }

  lemma CanonicalMember(r: Receipt, o: Observation)
    requires o in r.observations
    ensures CanonicalObservation(o) in Canonical(r).observations
  {
    ObservationOrder();
    hide ObservationLess, CanonicalObservation;
    var each := CanonicalEach(r.observations);
    var i :| 0 <= i < |r.observations| && r.observations[i] == o;
    assert each[i] == CanonicalObservation(o);
    SortSorts(each, ObservationLess);
  }

  /** Sealing only rearranges: the head is untouched, coverage and observations are permuted, refusals are
      the same without repetition, everything is in order, and the digest is taken over all the rest. */
  lemma SealKeepsContents(env: Env, hash: Receipt -> string, r: Receipt)
    requires Seals(env, r)
    ensures var a := AfterSeal(env, hash, r);
      && a.head == r.head
      && multiset(a.coverage) == multiset(r.coverage) && Sorted(a.coverage, StrLess)
      && (forall x :: x in a.cannotTestify <==> x in r.cannotTestify) && Ascending(a.cannotTestify, RefusalLess)
      && Corresponds(r.observations, a.observations) && Sorted(a.observations, ObservationLess)
      && a.digest == Some(hash(a.(digest := None)))
  {
    CanonicalTexts(r);
    CanonicalObservations(r);
    hide Seals, Canonical, Sorted, Ascending, StrLess, RefusalLess, ObservationLess, Corresponds;
    var c := Canonical(r);
    assert c.head == r.head by { CanonicalSize(r); }
    assert AfterSeal(env, hash, r) == c.(digest := Some(hash(c.(digest := None)))) by { SealedForm(env, hash, r); }
  }

  lemma SealedForm(env: Env, hash: Receipt -> string, r: Receipt)
    requires Seals(env, r)
    ensures AfterSeal(env, hash, r) == Canonical(r).(digest := Some(hash(Canonical(r).(digest := None))))
  {
    hide Canonical, EnvelopeHolds, Request.DigestOk;
  }

  lemma CanonicalTexts(r: Receipt)
    ensures var c := Canonical(r);
      && multiset(c.coverage) == multiset(r.coverage) && Sorted(c.coverage, StrLess)
      && (forall x :: x in c.cannotTestify <==> x in r.cannotTestify) && Ascending(c.cannotTestify, RefusalLess)
  {
    StrOrder();
    hide StrLess;
    SortSorts(r.coverage, StrLess);
    SortedRefusalSetMembers(r.cannotTestify);
    RefusalsAscend(r.cannotTestify);
    hide RefusalLess, SortedRefusalSet, Sort, Sorted, Ascending, CanonicalEach, ObservationLess;
  }

  lemma CanonicalObservations(r: Receipt)
    ensures Corresponds(r.observations, Canonical(r).observations) && Sorted(Canonical(r).observations, ObservationLess)
  {
    ObservationOrder();
    hide ObservationLess;
    var each := CanonicalEach(r.observations);
    SortSorts(each, ObservationLess);
    EachIsSame(r.observations);
    hide CanonicalEach, Sort, SameObservation, Sorted, SortedRefusalSet;
    assert Pairs(r.observations, each, Canonical(r).observations);
  }

  lemma RefusalsAscend(s: seq<Refusal>)
    ensures Ascending(SortedRefusalSet(s), RefusalLess)
  {
    RefusalOrder();
    hide RefusalLess;
    SortSorts(s, RefusalLess);
    DedupAscends(Sort(s, RefusalLess), RefusalLess);
  }

  lemma EachIsSame(os: seq<Observation>)
    ensures |CanonicalEach(os)| == |os| && forall i :: 0 <= i < |os| ==> SameObservation(os[i], CanonicalEach(os)[i])
  {
    forall i | 0 <= i < |os| ensures SameObservation(os[i], CanonicalEach(os)[i]) {
      SortedRefusalSetMembers(os[i].refusals);
    }
    hide SortedRefusalSet;
  }
}
