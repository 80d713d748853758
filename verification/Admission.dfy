/** Admission of a candidate plan, the witness plan it resolves to, and the preflight rendering
    (crates/nq-core/src/inquiry.rs, 330-365, 690-1090 and 1100-1520). */
module Admission {
  import opened Order
  import opened Text
  import opened InquiryTypes
  import opened Profiles
  import opened ProfileCatalog
  import opened Ratchet

  const PLAN_SCHEMA := "nq.inquiry_plan.v0"
  const REQUEST_SCHEMA := "nq.inquiry_request.v0"
  const WITNESS_PLAN_SCHEMA := "nq.inquiry_witness_plan.v0"
  const PREFLIGHT_SCHEMA := "nq.inquiry_preflight.v0"
  const REPORT_DEPTH: u32 := 0
  const SURVEY_DEPTH: u32 := 1

  /** Digests and timestamp parsing come from libraries; each digest is a function of the artifact
      with its own digest field blanked. */
  datatype Env = Env(
    profileDigest: Profile -> string,
    requestDigest: Request -> string,
    planDigest: WitnessPlan -> string,
    preflightDigest: Preflight -> string,
    parses: string -> bool)

  ghost predicate DigestsWellFormed(env: Env) {
    && (forall p :: IsSha256Digest(env.profileDigest(p)))
    && (forall r :: IsSha256Digest(env.requestDigest(r)))
    && (forall w :: IsSha256Digest(env.planDigest(w)))
    && (forall f :: IsSha256Digest(env.preflightDigest(f)))
  }

  // ---- candidate plan and admitted request ----

  datatype Plan = Plan(schema: string, profile: string, asOf: string, targets: seq<Target>) {
    ghost predicate Valid(parses: string -> bool) {
      schema == PLAN_SCHEMA && !Blank(profile) && parses(asOf) && ValidTargets(targets) && DistinctIds(targets)
    }
  }

  datatype Binding = Binding(profileId: string, profileDigest: string)

  datatype Request = Request(
    schema: string,
    profile: Binding,
    questionKind: Question,
    question: string,
    selector: Option<Selector>,
    asOf: string,
    requestedTargets: seq<Target>,
    admittedTargets: seq<Target>,
    requestDigest: string)
  {
    function Material(): Request { this.(requestDigest := "") }

    predicate DigestOk(env: Env) {
      schema == REQUEST_SCHEMA && env.parses(asOf) && env.requestDigest(Material()) == requestDigest
    }
  }

  function BindingOf(r: Resolved): Binding { Binding(r.profile.profileId, r.profileDigest) }

  function SealRequest(env: Env, r: Request): Request {
    r.(requestDigest := env.requestDigest(r.Material()))
  }

  /** The target list an active plan asks for: its own, or every declared target. */
  function RequestedTargets(plan: Plan, tls: TlsProfile): seq<Target> {
    Dedup(Sort(if plan.targets == [] then tls.declaredTargets else plan.targets, TargetLess))
  }

  ghost function Admit(env: Env, plan: Plan, resolved: Resolved): Result<Request> {
    var p := resolved.profile;
    if !plan.Valid(env.parses) || !p.Valid() then Err
    else if !p.Answers(plan.profile) then Err
    else if resolved.profileDigest != env.profileDigest(Normalize(p)) then Err
    else if p.questionKind == FindingOperationalActivity then
      if plan.targets != [] then Err
      else Ok(SealRequest(env, Request(REQUEST_SCHEMA, BindingOf(resolved), p.questionKind, p.question, p.selector,
                                       plan.asOf, [], [], "")))
    else if p.tlsCert.None? then Err
    else
      var requested := RequestedTargets(plan, p.tlsCert.value);
      if requested == [] || |requested| > p.tlsCert.value.maxTargets then Err
      else if exists t :: t in requested && t !in p.tlsCert.value.declaredTargets then Err
      else Ok(SealRequest(env, Request(REQUEST_SCHEMA, BindingOf(resolved), p.questionKind, p.question, None,
                                       plan.asOf, requested, requested, "")))
  }

  // ---- witness plan ----

  datatype Bounds = Bounds(
    maxTargets: u32,
    maxConcurrency: u32,
    perTargetDeadlineMs: u64,
    totalDeadlineMs: u64,
    maxDnsAttempts: u32,
    maxConnectionAttempts: u32,
    maxHandshakesAttempted: u32,
    maxBoundChecks: u32,
    maxWorkUnits: u64,
    maxRedirects: u32,
    maxRetries: u32,
    maxAiaFetches: u32,
    maxOcspRequests: u32,
    maxDependencyRecursions: u32)

  datatype WitnessPlan = WitnessPlan(
    schema: string,
    requestDigest: string,
    collector: Collector,
    targets: seq<Target>,
    expiryHorizonDays: u32,
    vantage: string,
    bounds: Bounds,
    witnessPlanDigest: string)
  {
    function Material(): WitnessPlan { this.(witnessPlanDigest := "") }
  }

  /** 64-bit `saturating_mul`. */
  function SaturatingMul(a: int, b: int): int {
    if a * b < TWO_64 then a * b else TWO_64 - 1
  }

  function BoundsFor(tls: TlsProfile, admitted: u32): Bounds {
    Bounds(tls.maxTargets, tls.maxConcurrency, tls.perTargetDeadlineMs, tls.totalDeadlineMs,
           admitted, admitted, admitted, admitted, admitted * 4, 0, 0, 0, 0, 0)
  }

  ghost function ResolvePlan(env: Env, request: Request, resolved: Resolved): Result<WitnessPlan> {
    var p := resolved.profile;
    if !request.DigestOk(env) then Err
    else if request.questionKind != TlsCertificate || request.question != p.question || request.selector.Some?
            || request.requestedTargets != request.admittedTargets then Err
    else if !p.Valid() then Err
    else
      var digest := env.profileDigest(Normalize(p));
      if request.profile != Binding(p.profileId, digest) || resolved.profileDigest != digest then Err
      else if p.tlsCert.None? then Err
      else
        var tls := p.tlsCert.value;
        var targets := Sort(request.admittedTargets, TargetLess);
        if targets == [] || |targets| > tls.maxTargets then Err
        else if exists t :: t in targets && t !in tls.declaredTargets then Err
        else
          var w := WitnessPlan(WITNESS_PLAN_SCHEMA, request.requestDigest, tls.collector, targets, tls.expiryHorizonDays,
                               tls.vantage, BoundsFor(tls, Truncate32(|targets|)), "");
          Ok(w.(witnessPlanDigest := env.planDigest(w)))
  }

  /** The bound checks common to the witness plan and the preflight. */
  predicate BoundsMatch(b: Bounds, targetCount: u32) {
    && b.maxTargets != 0 && targetCount <= b.maxTargets
    && b.maxConcurrency == 1
    && 100 <= b.perTargetDeadlineMs <= 60_000
    && 1 <= b.totalDeadlineMs <= 300_000
    && b.totalDeadlineMs >= SaturatingMul(b.perTargetDeadlineMs, targetCount)
    && b.maxDnsAttempts == targetCount
    && b.maxConnectionAttempts == targetCount
    && b.maxHandshakesAttempted == targetCount
    && b.maxBoundChecks == targetCount
    && b.maxWorkUnits == targetCount * 4
    && b.maxRedirects == b.maxRetries == b.maxAiaFetches == b.maxOcspRequests == b.maxDependencyRecursions == 0
  }

  predicate EnvelopeHeaderOk(env: Env, w: WitnessPlan) {
    && env.planDigest(w.Material()) == w.witnessPlanDigest
    && w.schema == WITNESS_PLAN_SCHEMA
    && w.targets != []
    && w.bounds.maxTargets <= 32
    && BoundsMatch(w.bounds, Truncate32(|w.targets|))
    && 1 <= w.expiryHorizonDays <= 3_650
    && !Blank(w.vantage)
  }

  ghost predicate EnvelopeOk(env: Env, w: WitnessPlan) {
    EnvelopeHeaderOk(env, w) && ValidTargets(w.targets) && DistinctIds(w.targets)
  }

  method VerifyEnvelope(env: Env, w: WitnessPlan) returns (ok: bool)
    ensures ok <==> EnvelopeOk(env, w)
  {
    hide EnvelopeHeaderOk, ValidTargets, DistinctIds;
    if !EnvelopeHeaderOk(env, w) {
      return false;
    }
    ok := CheckTargets(w.targets);
  }

  // ---- preflight ----

  datatype Requirements = Requirements(
    admittedScope: set<Target>,
    maxDepth: u32,
    totalEnvelope: Spend,
    permittedWitnessClasses: set<Collector>)

  datatype Preflight = Preflight(
    schema: string,
    profile: Binding,
    questionKind: Question,
    asOf: string,
    selector: Option<Selector>,
    requestDigest: string,
    declaredTargets: set<Target>,
    witnessClass: Option<Collector>,
    witnessPlanDigest: Option<string>,
    bounds: Option<Bounds>,
    expiryHorizonDays: Option<u32>,
    vantage: Option<string>,
    maxSnapshotAgeSeconds: Option<u64>,
    evidenceLimit: Option<u32>,
    envelope: Spend,
    spend: Spend,
    requirements: Requirements,
    preflightDigest: string)
  {
    function Material(): Preflight { this.(preflightDigest := "") }

    predicate ReportShape() {
      && selector.Some? && !Blank(selector.value.host) && !Blank(selector.value.kind)
      && declaredTargets == {} && witnessClass.None? && witnessPlanDigest.None? && bounds.None?
      && expiryHorizonDays.None? && vantage.None?
      && maxSnapshotAgeSeconds.Some? && maxSnapshotAgeSeconds.value != 0
      && evidenceLimit.Some? && evidenceLimit.value != 0
      && envelope == NO_SPEND && requirements.maxDepth == REPORT_DEPTH
    }

    predicate SurveyShape() {
      && bounds.Some? && selector.None? && declaredTargets != {} && witnessClass.Some? && witnessPlanDigest.Some?
      && expiryHorizonDays.Some? && vantage.Some? && vantage.value != ""
      && maxSnapshotAgeSeconds.None? && evidenceLimit.None?
      && BoundsMatch(bounds.value, Truncate32(|declaredTargets|))
      && 1 <= expiryHorizonDays.value <= 3_650
      && envelope == EnvelopeFrom(bounds.value) && requirements.maxDepth == SURVEY_DEPTH
    }

    predicate Valid(env: Env) {
      && schema == PREFLIGHT_SCHEMA && !Blank(profile.profileId) && env.parses(asOf)
      && IsSha256Digest(profile.profileDigest) && IsSha256Digest(requestDigest) && IsSha256Digest(preflightDigest)
      && (witnessPlanDigest.Some? ==> IsSha256Digest(witnessPlanDigest.value))
      && ScopeValid(declaredTargets) && ScopeValid(requirements.admittedScope)
      && spend == NO_SPEND
      && requirements.admittedScope == declaredTargets && requirements.totalEnvelope == envelope
      && requirements.permittedWitnessClasses == AsSet(witnessClass)
      && (if questionKind == FindingOperationalActivity then ReportShape() else SurveyShape())
      && env.preflightDigest(Material()) == preflightDigest
    }
  }

  function AsSet(c: Option<Collector>): set<Collector> {
    if c.Some? then {c.value} else {}
  }

  function EnvelopeFrom(b: Bounds): Spend {
    Spend(b.maxDnsAttempts, b.maxConnectionAttempts, b.maxHandshakesAttempted, b.maxHandshakesAttempted,
          b.maxBoundChecks, b.totalDeadlineMs, b.maxWorkUnits)
  }

  function ToSet(targets: seq<Target>): set<Target> { set t | t in targets }

  function ReportPreflight(request: Request, p: Profile): Preflight {
    Preflight(PREFLIGHT_SCHEMA, request.profile, request.questionKind, request.asOf, request.selector, request.requestDigest,
              {}, None, None, None, None, None, p.maxSnapshotAgeSeconds, p.evidenceLimit, NO_SPEND, NO_SPEND,
              Requirements({}, REPORT_DEPTH, NO_SPEND, {}), "")
  }

  function SurveyPreflight(request: Request, w: WitnessPlan): Preflight {
    Preflight(PREFLIGHT_SCHEMA, request.profile, request.questionKind, request.asOf, request.selector, request.requestDigest,
              ToSet(w.targets), Some(w.collector), Some(w.witnessPlanDigest), Some(w.bounds),
              Some(w.expiryHorizonDays), Some(w.vantage), None, None, EnvelopeFrom(w.bounds), NO_SPEND,
              Requirements(ToSet(w.targets), SURVEY_DEPTH, EnvelopeFrom(w.bounds), {w.collector}), "")
  }

  function SealPreflight(env: Env, f: Preflight): Preflight {
    f.(preflightDigest := env.preflightDigest(f.Material()))
  }

  ghost function Render(env: Env, plan: Plan, resolved: Resolved): Result<Preflight> {
    match Admit(env, plan, resolved)
    case Err => Err
    case Ok(request) =>
      if request.questionKind == FindingOperationalActivity then
        CheckedPreflight(env, ReportPreflight(request, resolved.profile))
      else
        match ResolvePlan(env, request, resolved)
        case Err => Err
        case Ok(w) => CheckedPreflight(env, SurveyPreflight(request, w))
  }

  function CheckedPreflight(env: Env, f: Preflight): Result<Preflight> {
    var sealed := SealPreflight(env, f);
    if sealed.Valid(env) then Ok(sealed) else Err
  }

  // ---- a fitting plan goes all the way through ----

  /** The plan cites this profile and, for a survey, only declared targets; for a report, none. */
  ghost predicate Fits(plan: Plan, p: Profile) {
    && p.Answers(plan.profile)
    && (if p.questionKind == FindingOperationalActivity then plan.targets == []
        else p.tlsCert.Some? && forall t :: t in plan.targets ==> t in p.tlsCert.value.declaredTargets)
  }

  /** The targets a fitting plan means. */
  function MeantTargets(plan: Plan, p: Profile): seq<Target> {
    if p.tlsCert.None? then []
    else Sort(if plan.targets == [] then p.tlsCert.value.declaredTargets else plan.targets, TargetLess)
  }

  lemma {:induction false} PigeonHole(a: seq<Target>, b: seq<Target>)
    requires Distinct(a) && forall t :: t in a ==> t in b
    ensures |a| <= |b|
  {
    DistinctSize(a);
    SubsetSize(set t | t in a, set t | t in b);
    SetSize(b);
  }

  lemma {:induction false} SetSize(b: seq<Target>)
    ensures |set t | t in b| <= |b|
  {
    if b == [] {
    } else {
      SetSize(b[1..]);
      assert (set t | t in b) == (set t | t in b[1..]) + {b[0]};
    }
  }

  lemma DistinctIdsDistinct(s: seq<Target>)
    requires DistinctIds(s)
    ensures Distinct(s)
  {}

  /** Sorting distinct targets already deduplicates them. */
  lemma MeantTargetsFit(plan: Plan, p: Profile)
    requires p.Valid() && p.questionKind == TlsCertificate && Fits(plan, p)
    requires ValidTargets(plan.targets) && DistinctIds(plan.targets)
    ensures RequestedTargets(plan, p.tlsCert.value) == MeantTargets(plan, p)
    ensures var m := MeantTargets(plan, p);
            && m != [] && |m| <= |p.tlsCert.value.declaredTargets| && ValidTargets(m) && DistinctIds(m)
            && (forall t :: t in m ==> t in p.tlsCert.value.declaredTargets)
            && Sort(m, TargetLess) == m
  {
    var tls := p.tlsCert.value;
    var s := if plan.targets == [] then tls.declaredTargets else plan.targets;
    SortedTargets(s);
    hide TargetLess, Sort, Dedup;
    DistinctIdsDistinct(Sort(s, TargetLess));
    DedupDistinct(Sort(s, TargetLess));
    DistinctIdsDistinct(s);
    PigeonHole(s, tls.declaredTargets);
  }

  /** Fitting a plan against a profile does not depend on the order of the profile's arrays. */
  lemma FitsNormalized(plan: Plan, p: Profile)
    requires p.Valid() && Fits(plan, p)
    ensures Fits(plan, Normalize(p)) && MeantTargets(plan, Normalize(p)) == MeantTargets(plan, p)
    ensures p.tlsCert.Some? ==>
      && Normalize(p).tlsCert.Some?
      && |Normalize(p).tlsCert.value.declaredTargets| == |p.tlsCert.value.declaredTargets|
      && Normalize(p).tlsCert.value == p.tlsCert.value.(declaredTargets := Normalize(p).tlsCert.value.declaredTargets)
  {
    NormalizeIsCanonical(p);
    if p.tlsCert.Some? { SortedTargets(p.tlsCert.value.declaredTargets); }
    hide Profile.Valid, Profile.Answers, Sort, TargetLess, StrLess, RefusalLess;
  }

  /** What admission yields for a plan that fits a resolved profile. */
  function ExpectedRequest(env: Env, plan: Plan, p: Profile): Request {
    SealRequest(env, Request(REQUEST_SCHEMA, BindingOf(ResolvedOf(env.profileDigest, p)), p.questionKind, p.question,
                             if p.questionKind == FindingOperationalActivity then p.selector else None,
                             plan.asOf, MeantTargets(plan, p), MeantTargets(plan, p), ""))
  }

  /** Admission succeeds on every fitting plan and admits exactly the targets the plan means. */
  lemma AdmitSucceeds(env: Env, plan: Plan, p: Profile)
    requires p.Valid() && plan.Valid(env.parses) && Fits(plan, p)
    ensures Admit(env, plan, ResolvedOf(env.profileDigest, p)) == Ok(ExpectedRequest(env, plan, p))
    ensures ExpectedRequest(env, plan, p).DigestOk(env)
  {
    var q := Normalize(p);
    NormalizeIsCanonical(p);
    FitsNormalized(plan, p);
    assert q.question == p.question && q.selector == p.selector;
    if p.questionKind == TlsCertificate {
      MeantTargetsFit(plan, q);
      assert q.tlsCert.Some? && |MeantTargets(plan, q)| <= q.tlsCert.value.maxTargets;
      hide Profile.Valid, Profile.Answers, Normalize, MeantTargets, RequestedTargets;
    } else {
      assert p.tlsCert.None?;
      hide Profile.Valid, Profile.Answers, Normalize;
    }
  }

  /** Admission is exact: a plan is admitted iff it and the profile are valid and the plan fits. */
  lemma AdmitIsExact(env: Env, plan: Plan, p: Profile)
    ensures Admit(env, plan, ResolvedOf(env.profileDigest, p)).Ok? <==>
      plan.Valid(env.parses) && p.Valid() && Fits(plan, p)
  {
    if p.Valid() && plan.Valid(env.parses) && Fits(plan, p) {
      AdmitSucceeds(env, plan, p);
    } else if plan.Valid(env.parses) && p.Valid() && Admit(env, plan, ResolvedOf(env.profileDigest, p)).Ok? {
      AdmittedFits(env, plan, p);
    } else {
      NormalizeIsCanonical(p);
      hide Normalize, Profile.Valid, Fits, Plan.Valid;
    }
  }

  lemma AdmittedFits(env: Env, plan: Plan, p: Profile)
    requires plan.Valid(env.parses) && p.Valid() && Admit(env, plan, ResolvedOf(env.profileDigest, p)).Ok?
    ensures Fits(plan, p)
  {
    var q := Normalize(p);
    NormalizeIsCanonical(p);
    if p.questionKind == TlsCertificate && plan.targets != [] {
      SortedTargets(p.tlsCert.value.declaredTargets);
      TargetOrder();
      SortSorts(plan.targets, TargetLess);
      hide TargetLess, Sort;
      DistinctIdsDistinct(plan.targets);
      SortedTargets(plan.targets);
      DistinctIdsDistinct(Sort(plan.targets, TargetLess));
      DedupDistinct(Sort(plan.targets, TargetLess));
    }
    hide Profile.Valid, Profile.Answers, Dedup, Plan.Valid;
  }

  /** The witness plan an admitted survey request resolves to. */
  function ExpectedPlan(env: Env, plan: Plan, p: Profile): WitnessPlan
    requires p.tlsCert.Some?
  {
    var tls := p.tlsCert.value;
    var m := MeantTargets(plan, p);
    var w := WitnessPlan(WITNESS_PLAN_SCHEMA, ExpectedRequest(env, plan, p).requestDigest, tls.collector, m,
                         tls.expiryHorizonDays, tls.vantage, BoundsFor(tls, Truncate32(|m|)), "");
    w.(witnessPlanDigest := env.planDigest(w))
  }

  lemma DeadlineCovers(perTarget: int, count: int, declared: int)
    requires 0 <= perTarget && 0 <= count <= declared
    ensures perTarget * count <= perTarget * declared
  {}

  lemma BoundsForMatch(tls: TlsProfile, n: u32)
    requires tls.BoundsValid() && 1 <= n <= |tls.declaredTargets|
    ensures BoundsMatch(BoundsFor(tls, n), n) && BoundsFor(tls, n).maxTargets == tls.maxTargets
  {
    DeadlineCovers(tls.perTargetDeadlineMs, n, |tls.declaredTargets|);
  }

  lemma MeantTargetsSurvive(plan: Plan, p: Profile)
    requires p.Valid() && Fits(plan, p) && p.questionKind == TlsCertificate
    requires ValidTargets(plan.targets) && DistinctIds(plan.targets)
    ensures var m := MeantTargets(plan, p);
            && 1 <= |m| <= |p.tlsCert.value.declaredTargets| <= p.tlsCert.value.maxTargets <= 32
            && DistinctIds(m) && ValidTargets(m) && Sort(m, TargetLess) == m
            && forall t :: t in m ==> t in Normalize(p).tlsCert.value.declaredTargets
  {
    NormalizeIsCanonical(p);
    FitsNormalized(plan, p);
    hide Sort, TargetLess, StrLess, RefusalLess;
    MeantTargetsFit(plan, Normalize(p));
  }

  lemma SurveyBounds(p: Profile)
    requires p.Valid() && p.questionKind == TlsCertificate
    ensures p.tlsCert.Some?
    ensures var tls := p.tlsCert.value;
            tls.BoundsValid() && 1 <= tls.expiryHorizonDays <= 3_650 && !Blank(tls.vantage) && tls.maxTargets <= 32
  {}

  lemma ExpectedPlanOk(env: Env, plan: Plan, p: Profile)
    requires p.Valid() && Fits(plan, p) && p.questionKind == TlsCertificate
    requires ValidTargets(plan.targets) && DistinctIds(plan.targets)
    ensures EnvelopeOk(env, ExpectedPlan(env, plan, p))
  {
    MeantTargetsSurvive(plan, p);
    var m := MeantTargets(plan, p);
    SmallCount(|m|);
    SurveyBounds(p);
    hide Profile.Valid, MeantTargets, Normalize, ExpectedRequest, BoundsMatch, BoundsFor, ValidTargets, DistinctIds;
    hide TlsProfile.BoundsValid, Truncate32, Blank;
    BoundsForMatch(p.tlsCert.value, |m|);
  }

  /** Witness-plan resolution and envelope verification succeed after admission of a survey. */
  lemma PlanResolves(env: Env, plan: Plan, p: Profile)
    requires p.Valid() && plan.Valid(env.parses) && Fits(plan, p) && p.questionKind == TlsCertificate
    ensures ResolvePlan(env, ExpectedRequest(env, plan, p), ResolvedOf(env.profileDigest, p)) == Ok(ExpectedPlan(env, plan, p))
    ensures EnvelopeOk(env, ExpectedPlan(env, plan, p))
    ensures 1 <= |MeantTargets(plan, p)| <= 32
  {
    NormalizeIsCanonical(p);
    FitsNormalized(plan, p);
    MeantTargetsSurvive(plan, p);
    ExpectedPlanOk(env, plan, p);
    assert ExpectedRequest(env, plan, p).DigestOk(env);
    assert p.tlsCert.Some? && Normalize(p).question == p.question && Normalize(p).tlsCert.Some?;
    assert Normalize(p).profileId == p.profileId;
    SurveyBounds(p);
    BoundsIgnoreTargets(p.tlsCert.value, Normalize(p).tlsCert.value.declaredTargets, Truncate32(|MeantTargets(plan, p)|));
    hide Profile.Valid, Profile.Answers, Normalize, MeantTargets, EnvelopeOk, TargetLess, Sort, Request.DigestOk, BoundsFor, Truncate32;
    hide Plan.Valid, Fits, TlsProfile.BoundsValid, Blank, DistinctIds, ValidTargets;
  }

  lemma BoundsIgnoreTargets(tls: TlsProfile, targets: seq<Target>, n: u32)
    ensures BoundsFor(tls.(declaredTargets := targets), n) == BoundsFor(tls, n)
  {}

  /** Rendering the preflight succeeds on every fitting plan. */
  lemma RenderSucceeds(env: Env, plan: Plan, p: Profile)
    requires DigestsWellFormed(env) && p.Valid() && plan.Valid(env.parses) && Fits(plan, p)
    ensures Render(env, plan, ResolvedOf(env.profileDigest, p)).Ok?
    ensures var f := Render(env, plan, ResolvedOf(env.profileDigest, p)).value;
            f.Valid(env) && f.declaredTargets == ToSet(MeantTargets(plan, p)) && f.questionKind == p.questionKind
  {
    NormalizeIsCanonical(p);
    AdmitSucceeds(env, plan, p);
    var request := ExpectedRequest(env, plan, p);
    if p.questionKind == FindingOperationalActivity {
      var f := SealPreflight(env, ReportPreflight(request, Normalize(p)));
      assert f.Valid(env);
      hide Admit, Preflight.Valid;
    } else {
      PlanResolves(env, plan, p);
      var w := ExpectedPlan(env, plan, p);
      SurveyPreflightValid(env, request, w);
      hide Admit, ResolvePlan, Preflight.Valid;
    }
  }

  /** So a preflight is rendered for exactly the plans that are admitted. */
  lemma RenderIsExact(env: Env, plan: Plan, p: Profile)
    requires DigestsWellFormed(env)
    ensures Render(env, plan, ResolvedOf(env.profileDigest, p)).Ok? <==>
      plan.Valid(env.parses) && p.Valid() && Fits(plan, p)
  {
    AdmitIsExact(env, plan, p);
    if plan.Valid(env.parses) && p.Valid() && Fits(plan, p) {
      RenderSucceeds(env, plan, p);
    }
    hide Admit, Fits, Profile.Valid, Plan.Valid, ResolvePlan, CheckedPreflight;
  }

  lemma {:induction false} ToSetSize(s: seq<Target>)
    requires DistinctIds(s)
    ensures |ToSet(s)| == |s|
  {
    DistinctSize(s);
  }

  lemma SurveyPreflightValid(env: Env, request: Request, w: WitnessPlan)
    requires DigestsWellFormed(env) && EnvelopeOk(env, w) && |w.targets| < TWO_32
    requires request.DigestOk(env) && request.questionKind == TlsCertificate && request.selector.None?
    requires !Blank(request.profile.profileId) && IsSha256Digest(request.profile.profileDigest)
    requires IsSha256Digest(w.witnessPlanDigest)
    ensures SealPreflight(env, SurveyPreflight(request, w)).Valid(env)
  {
    ToSetSize(w.targets);
    hide IsSha256Digest;
    assert w.targets[0] in ToSet(w.targets);
    assert w.vantage != "" by { assert !Blank(w.vantage); }
  }

  // ---- aliases ----

  /** The raw selector leaves no trace: two names of one profile admit the same request. */
  lemma AliasAdmitsSameRequest(env: Env, plan: Plan, resolved: Resolved, other: string)
    requires resolved.profile.Answers(plan.profile) && resolved.profile.Answers(other) && !Blank(other) && !Blank(plan.profile)
    ensures Admit(env, plan.(profile := other), resolved) == Admit(env, plan, resolved)
  {
    hide Profile.Valid, Profile.Answers, ValidTargets, DistinctIds, Blank, Normalize;
  }

  /** In a valid catalog an alias and its canonical id resolve alike, so they admit identical requests. */
  lemma AliasIsCanonical(env: Env, c: Catalog, i: nat, alias: string, plan: Plan)
    requires c.Valid() && i < |c.profiles| && alias in c.profiles[i].aliases
    ensures Resolve(env.profileDigest, c, alias) == Resolve(env.profileDigest, c, c.profiles[i].profileId)
    ensures Resolve(env.profileDigest, c, alias).Found?
    ensures var r := Resolve(env.profileDigest, c, alias).resolved;
            Admit(env, plan.(profile := alias), r) == Admit(env, plan.(profile := c.profiles[i].profileId), r)
  {
    var p := c.profiles[i];
    assert p.Valid() && p.Answers(alias) && p.Answers(p.profileId) && !Blank(alias) && !Blank(p.profileId);
    NormalizeIsCanonical(p);
    hide Catalog.Valid, Profile.Valid, Profile.Answers, Normalize, Resolve, Admit, Blank;
    ResolveIsExact(env.profileDigest, c, alias);
    ResolveIsExact(env.profileDigest, c, p.profileId);
    AliasAdmitsSameRequest(env, plan.(profile := p.profileId), ResolvedOf(env.profileDigest, p), alias);
  }

  // ---- the least grant ----

  /** The position a rendered preflight asks standing for. */
  function PreflightPosition(f: Preflight): Position {
    Position(POSITION_SCHEMA, f.requirements.admittedScope, f.requirements.maxDepth, f.requirements.totalEnvelope)
  }

  /** The grant that concedes exactly what a preflight requires. */
  function GrantFor(f: Preflight): Grant {
    Grant(GRANT_SCHEMA, f.requirements.admittedScope, f.requirements.maxDepth, f.requirements.totalEnvelope,
          f.requirements.permittedWitnessClasses)
  }

  /** What a plan needs, in its own terms: a report needs nothing; a survey needs the targets it means,
      depth one, the collector, one attempt of each kind and four work units per target, and its deadline. */
  ghost predicate NeedsExactly(r: Requirements, plan: Plan, p: Profile) {
    if p.questionKind == FindingOperationalActivity then
      r == Requirements({}, 0, Spend(0, 0, 0, 0, 0, 0, 0), {})
    else
      var n, s := |MeantTargets(plan, p)|, r.totalEnvelope;
      && p.tlsCert.Some?
      && r.admittedScope == ToSet(MeantTargets(plan, p)) && r.maxDepth == 1
      && r.permittedWitnessClasses == {p.tlsCert.value.collector}
      && s.dnsAttempts == s.connectionAttempts == s.handshakesAttempted == s.handshakesCompleted == s.boundChecks == n
      && s.wallMs == p.tlsCert.value.totalDeadlineMs && s.workUnits == 4 * n
  }

  lemma RenderedNeeds(env: Env, plan: Plan, p: Profile)
    requires DigestsWellFormed(env) && p.Valid() && plan.Valid(env.parses) && Fits(plan, p)
    ensures Render(env, plan, ResolvedOf(env.profileDigest, p)).Ok?
    ensures var f := Render(env, plan, ResolvedOf(env.profileDigest, p)).value;
            f.Valid(env) && NeedsExactly(f.requirements, plan, p)
  {
    RenderSucceeds(env, plan, p);
    AdmitSucceeds(env, plan, p);
    var request := ExpectedRequest(env, plan, p);
    if p.questionKind == FindingOperationalActivity {
      hide Admit, Preflight.Valid, Profile.Valid, Fits, Plan.Valid;
    } else {
      PlanResolves(env, plan, p);
      SurveyBounds(p);
      SmallCount(|MeantTargets(plan, p)|);
      hide Admit, ResolvePlan, Preflight.Valid, Profile.Valid, Fits, Plan.Valid, EnvelopeOk, MeantTargets, Truncate32;
      hide ExpectedRequest, TlsProfile.BoundsValid, Blank;
    }
  }

  /** The rendered requirements are the least grant: the grant made of them is valid and admits the
      position, and a valid grant admits it iff it concedes as much in scope, depth and all seven counters. */
  lemma RequirementsAreLeastGrant(env: Env, plan: Plan, p: Profile, grant: Grant)
    requires DigestsWellFormed(env) && grant.Valid()
    requires Render(env, plan, ResolvedOf(env.profileDigest, p)).Ok?
    ensures var f := Render(env, plan, ResolvedOf(env.profileDigest, p)).value;
      && NeedsExactly(f.requirements, plan, p)
      && GrantFor(f).Valid() && Admits(GrantFor(f), PreflightPosition(f))
      && (Admits(grant, PreflightPosition(f)) <==> Concedes(grant, GrantFor(f)))
  {
    RenderIsExact(env, plan, p);
    RenderedNeeds(env, plan, p);
    var f := Render(env, plan, ResolvedOf(env.profileDigest, p)).value;
    FirstOverLimitExact(f.requirements.totalEnvelope, grant.totalEnvelope);
    FirstOverLimitExact(f.requirements.totalEnvelope, f.requirements.totalEnvelope);
    hide Render, NeedsExactly, FirstOverLimit, ScopeValid, Profile.Valid, Plan.Valid, Fits, DigestsWellFormed;
  }

  /** `grant` covers at least the scope, depth and spend of `least`. */
  ghost predicate Concedes(grant: Grant, least: Grant) {
    && least.admittedScope <= grant.admittedScope
    && least.maxDepth <= grant.maxDepth
    && Within(least.totalEnvelope, grant.totalEnvelope)
  }
}
