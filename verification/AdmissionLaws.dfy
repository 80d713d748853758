/** What admission, witness-plan resolution and preflight rendering carry over from the catalog profile and
    the plan, field by field, and what a verified document promises (crates/nq-core/src/inquiry.rs). */
module AdmissionLaws {
  import opened Order
  import opened Text
  import opened InquiryTypes
  import opened Profiles
  import opened ProfileCatalog
  import opened Ratchet
  import opened Admission
  import opened ProfileLaws

  // ---- requests ----

  /** The targets a survey plan is about: those it cites, or every declared one. */
  ghost predicate About(plan: Plan, p: Profile, t: Target) {
    p.tlsCert.Some? && t in p.tlsCert.value.declaredTargets && (plan.targets == [] || t in plan.targets)
  }

  /** An admitted request repeats the profile's question and selector and the plan's time, binds the
      normalized profile, and asks for exactly what it grants: the targets the plan is about, in order. */
  lemma AdmittedRequestIsFaithful(env: Env, plan: Plan, p: Profile)
    requires p.Valid() && plan.Valid(env.parses) && Fits(plan, p)
    ensures Admit(env, plan, ResolvedOf(env.profileDigest, p)).Ok?
    ensures var r := Admit(env, plan, ResolvedOf(env.profileDigest, p)).value;
      && r.schema == "nq.inquiry_request.v0" && r.asOf == plan.asOf
      && r.profile.profileId == p.profileId && r.profile.profileDigest == env.profileDigest(Normalize(p))
      && r.questionKind == p.questionKind && r.question == p.question && r.selector == p.selector
      && r.requestedTargets == r.admittedTargets && Ascending(r.admittedTargets, TargetLess)
      && (forall t :: t in r.admittedTargets <==> About(plan, p, t))
      && r.requestDigest == env.requestDigest(r.(requestDigest := ""))
  {
    AdmitSucceeds(env, plan, p);
    NormalizeIsCanonical(p);
    MeantIsAbout(plan, p);
    SelectorOfSurvey(p);
    hide Admit, Normalize, Profile.Valid, Fits, MeantTargets, Plan.Valid, About, Ascending, TargetLess;
    assert ResolvedOf(env.profileDigest, p).profile.profileId == p.profileId;
  }

  lemma SelectorOfSurvey(p: Profile)
    requires p.Valid()
    ensures p.questionKind == TlsCertificate ==> p.selector == None
  {}

  lemma MeantIsAbout(plan: Plan, p: Profile)
    requires p.Valid() && Fits(plan, p) && ValidTargets(plan.targets) && DistinctIds(plan.targets)
    ensures Ascending(MeantTargets(plan, p), TargetLess)
    ensures forall t :: t in MeantTargets(plan, p) <==> About(plan, p, t)
  {
    TargetOrder();
    hide TargetLess;
    if p.questionKind == TlsCertificate {
      var s := if plan.targets == [] then p.tlsCert.value.declaredTargets else plan.targets;
      SortSorts(s, TargetLess);
      SortedTargets(s);
      hide Sort;
      DistinctIdsDistinct(Sort(s, TargetLess));
      StrictlyAscends(Sort(s, TargetLess));
    }
  }

  lemma StrictlyAscends(s: seq<Target>)
    requires Sorted(s, TargetLess) && Distinct(s)
    ensures Ascending(s, TargetLess)
  {
    TargetOrder();
    hide TargetLess;
    forall i, j | 0 <= i < j < |s| ensures TargetLess(s[i], s[j]) {
      assert s[i] != s[j] && !TargetLess(s[j], s[i]);
    }
  }

  /** The order of targets is by id, then host, then port, then server name. */
  lemma TargetsAscendById(s: seq<Target>)
    requires Ascending(s, TargetLess)
    ensures forall i, j :: 0 <= i < j < |s| ==>
      || StrLess(s[i].targetId, s[j].targetId)
      || (s[i].targetId == s[j].targetId && StrLess(s[i].host, s[j].host))
      || (s[i].targetId == s[j].targetId && s[i].host == s[j].host && s[i].port < s[j].port)
      || (s[i].targetId == s[j].targetId && s[i].host == s[j].host && s[i].port == s[j].port && StrLess(s[i].sni, s[j].sni))
  {
    hide StrLess;
    assert forall i, j :: 0 <= i < j < |s| ==> TargetLess(s[i], s[j]);
  }

  // ---- witness plans ----

  /** Every admitted survey resolves, and its plan keeps the profile's own limits and says nothing of its
      own: one attempt of each kind and four work units per target, and nothing recursive. */
  lemma ResolvedPlanKeepsProfile(env: Env, plan: Plan, p: Profile)
    requires p.Valid() && plan.Valid(env.parses) && Fits(plan, p) && p.questionKind == TlsCertificate
    ensures Admit(env, plan, ResolvedOf(env.profileDigest, p)).Ok? && p.tlsCert.Some?
    ensures var request, tls := Admit(env, plan, ResolvedOf(env.profileDigest, p)).value, p.tlsCert.value;
      var resolved := ResolvePlan(env, request, ResolvedOf(env.profileDigest, p));
      && resolved.Ok?
      && var w := resolved.value;
         var b, n := w.bounds, |w.targets|;
         && w.schema == "nq.inquiry_witness_plan.v0" && w.requestDigest == request.requestDigest
         && w.targets == request.admittedTargets && 1 <= n <= 32
         && w.collector == tls.collector && w.expiryHorizonDays == tls.expiryHorizonDays && w.vantage == tls.vantage
         && b.perTargetDeadlineMs == tls.perTargetDeadlineMs && b.totalDeadlineMs == tls.totalDeadlineMs
         && b.maxConcurrency == tls.maxConcurrency && b.maxTargets == tls.maxTargets
         && b.maxDnsAttempts == n && b.maxConnectionAttempts == n && b.maxHandshakesAttempted == n
         && b.maxBoundChecks == n && b.maxWorkUnits == 4 * n
         && b.maxRedirects == 0 && b.maxRetries == 0 && b.maxAiaFetches == 0 && b.maxOcspRequests == 0
         && b.maxDependencyRecursions == 0
         && w.witnessPlanDigest == env.planDigest(w.(witnessPlanDigest := ""))
  {
    AdmitSucceeds(env, plan, p);
    PlanResolves(env, plan, p);
    SurveyBounds(p);
    SmallCount(|MeantTargets(plan, p)|);
    hide Admit, ResolvePlan, Profile.Valid, Fits, Plan.Valid, MeantTargets, EnvelopeOk, Truncate32, TlsProfile.BoundsValid, Blank;
  }

  /** What a verified witness plan promises, with the real product of deadlines. */
  ghost predicate PlanLaw(env: Env, w: WitnessPlan) {
    var b, n := w.bounds, |w.targets|;
    && w.schema == "nq.inquiry_witness_plan.v0" && w.witnessPlanDigest == env.planDigest(w.(witnessPlanDigest := ""))
    && 0 < n <= b.maxTargets < 33 && b.maxConcurrency == 1
    && 99 < b.perTargetDeadlineMs < 60_001 && n * b.perTargetDeadlineMs <= b.totalDeadlineMs < 300_001
    && 0 < w.expiryHorizonDays < 3_651 && !Blank(w.vantage)
    && b.maxDnsAttempts == n && b.maxConnectionAttempts == n && b.maxHandshakesAttempted == n && b.maxBoundChecks == n
    && b.maxWorkUnits == 4 * n
    && b.maxRedirects == 0 && b.maxRetries == 0 && b.maxAiaFetches == 0 && b.maxOcspRequests == 0
    && b.maxDependencyRecursions == 0
    && (forall t :: t in w.targets ==> !Blank(t.targetId) && !Blank(t.host) && t.port > 0 && !Blank(t.sni))
    && (forall i, j :: 0 <= i < j < |w.targets| ==> w.targets[i].targetId != w.targets[j].targetId)
  }

  /** Bounds that carry a count of at most 32. */
  ghost predicate BoundsLaw(b: Bounds, n: nat) {
    && 0 < b.maxTargets && n <= b.maxTargets && b.maxConcurrency == 1
    && 99 < b.perTargetDeadlineMs < 60_001 && n * b.perTargetDeadlineMs <= b.totalDeadlineMs
    && 0 < b.totalDeadlineMs < 300_001
    && b.maxDnsAttempts == n && b.maxConnectionAttempts == n && b.maxHandshakesAttempted == n && b.maxBoundChecks == n
    && b.maxWorkUnits == 4 * n
    && b.maxRedirects == 0 && b.maxRetries == 0 && b.maxAiaFetches == 0 && b.maxOcspRequests == 0
    && b.maxDependencyRecursions == 0
  }

  lemma BoundsAreExact(b: Bounds, n: u32)
    ensures BoundsMatch(b, n) <==> BoundsLaw(b, n)
  {
    if 0 <= n && 100 <= b.perTargetDeadlineMs <= 60_000 && n < TWO_32 { NoSaturation(b.perTargetDeadlineMs, n); }
    hide SaturatingMul;
  }

  lemma NoSaturation(x: int, n: int)
    requires 0 <= x <= 60_000 && 0 <= n < TWO_32
    ensures SaturatingMul(x, n) == n * x
  {
    Product(x, n);
  }

  lemma Product(x: int, n: int)
    requires 0 <= x <= 60_000 && 0 <= n < TWO_32
    ensures 0 <= x * n <= 60_000 * n && x * n == n * x
  {}

  /** A plan of fewer than 2^32 targets verifies exactly when it keeps those promises. */
  lemma VerifiedPlansAreExact(env: Env, w: WitnessPlan)
    requires |w.targets| < TWO_32
    ensures EnvelopeOk(env, w) <==> PlanLaw(env, w)
  {
    SmallCount(|w.targets|);
    BoundsAreExact(w.bounds, |w.targets|);
    hide BoundsMatch, Blank, Truncate32;
    if 0 < |w.targets| && 99 < w.bounds.perTargetDeadlineMs { PositiveProduct(|w.targets|, w.bounds.perTargetDeadlineMs); }
  }

  lemma PositiveProduct(n: int, x: int)
    requires n > 0 && x > 0
    ensures n * x > 0
  {}

  // ---- preflights ----

  /** A rendered preflight shows the request's question and bindings and the profile's limits: freshness
      and evidence limits for a report; bounds, horizon, vantage and collector for a survey. */
  lemma RenderedPreflightIsFaithful(env: Env, plan: Plan, p: Profile)
    requires DigestsWellFormed(env) && p.Valid() && plan.Valid(env.parses) && Fits(plan, p)
    ensures Admit(env, plan, ResolvedOf(env.profileDigest, p)).Ok? && Render(env, plan, ResolvedOf(env.profileDigest, p)).Ok?
    ensures var r, f := Admit(env, plan, ResolvedOf(env.profileDigest, p)).value, Render(env, plan, ResolvedOf(env.profileDigest, p)).value;
      && f.schema == "nq.inquiry_preflight.v0" && f.profile == r.profile && f.questionKind == p.questionKind
      && f.asOf == plan.asOf && f.selector == p.selector && f.requestDigest == r.requestDigest
      && f.spend == Spend(0, 0, 0, 0, 0, 0, 0) && f.envelope == f.requirements.totalEnvelope
      && (forall t :: t in f.declaredTargets <==> t in r.admittedTargets)
      && f.preflightDigest == env.preflightDigest(f.(preflightDigest := ""))
      && (p.questionKind == FindingOperationalActivity ==>
            && f.maxSnapshotAgeSeconds == p.maxSnapshotAgeSeconds && f.evidenceLimit == p.evidenceLimit
            && f.bounds == None && f.witnessClass == None && f.witnessPlanDigest == None
            && f.expiryHorizonDays == None && f.vantage == None)
      && (p.questionKind == TlsCertificate ==>
            && p.tlsCert.Some? && ResolvePlan(env, r, ResolvedOf(env.profileDigest, p)).Ok?
            && var w := ResolvePlan(env, r, ResolvedOf(env.profileDigest, p)).value;
               && f.bounds == Some(w.bounds) && f.witnessPlanDigest == Some(w.witnessPlanDigest)
               && f.witnessClass == Some(p.tlsCert.value.collector)
               && f.expiryHorizonDays == Some(p.tlsCert.value.expiryHorizonDays) && f.vantage == Some(p.tlsCert.value.vantage)
               && f.maxSnapshotAgeSeconds == None && f.evidenceLimit == None)
  {
    RenderSucceeds(env, plan, p);
    AdmitSucceeds(env, plan, p);
    NormalizeIsCanonical(p);
    SelectorOfSurvey(p);
    if p.questionKind == TlsCertificate {
      PlanResolves(env, plan, p);
      SurveyBounds(p);
      hide Admit, ResolvePlan, Preflight.Valid, Profile.Valid, Fits, Plan.Valid, EnvelopeOk, MeantTargets, BoundsFor, Normalize;
    } else {
      ReportHasNoTargets(plan, p);
      hide Admit, ResolvePlan, Preflight.Valid, Profile.Valid, Fits, Plan.Valid, EnvelopeOk, MeantTargets;
    }
  }

  lemma ReportHasNoTargets(plan: Plan, p: Profile)
    requires p.Valid() && p.questionKind == FindingOperationalActivity
    ensures MeantTargets(plan, p) == []
  {}

  /** What a valid preflight promises, whoever wrote it. */
  ghost predicate PreflightLaw(env: Env, f: Preflight) {
    var need := f.requirements;
    && f.schema == "nq.inquiry_preflight.v0" && !Blank(f.profile.profileId) && env.parses(f.asOf)
    && IsSha256Digest(f.profile.profileDigest) && IsSha256Digest(f.requestDigest) && IsSha256Digest(f.preflightDigest)
    && f.preflightDigest == env.preflightDigest(f.(preflightDigest := ""))
    && f.spend == Spend(0, 0, 0, 0, 0, 0, 0)
    && need.admittedScope == f.declaredTargets && need.totalEnvelope == f.envelope
    && need.permittedWitnessClasses == (set c | f.witnessClass == Some(c))
    && (if f.questionKind == FindingOperationalActivity then ReportPreflightLaw(f) else SurveyPreflightLaw(f))
  }

  /** A report needs no targets, no depth, no spend and no witness. */
  ghost predicate ReportPreflightLaw(f: Preflight) {
    && (exists s :: f.selector == Some(s) && !Blank(s.host) && !Blank(s.kind))
    && (exists age :: f.maxSnapshotAgeSeconds == Some(age) && age > 0)
    && (exists limit :: f.evidenceLimit == Some(limit) && limit > 0)
    && f.declaredTargets == {} && f.requirements.maxDepth == 0 && f.envelope == Spend(0, 0, 0, 0, 0, 0, 0)
    && f.witnessClass == None && f.witnessPlanDigest == None && f.bounds == None
    && f.expiryHorizonDays == None && f.vantage == None
  }

  /** A survey needs depth one and its bounds as an envelope, for targets it can tell apart. */
  ghost predicate SurveyPreflightLaw(f: Preflight) {
    && f.declaredTargets != {} && f.requirements.maxDepth == 1
    && (forall t :: t in f.declaredTargets ==> !Blank(t.targetId) && !Blank(t.host) && t.port > 0 && !Blank(t.sni))
    && (forall t, u :: t in f.declaredTargets && u in f.declaredTargets && t != u ==> t.targetId != u.targetId)
    && f.bounds.Some? && BoundsLaw(f.bounds.value, |f.declaredTargets|)
    && (var b, e, n := f.bounds.value, f.envelope, |f.declaredTargets|;
        && e.dnsAttempts == n && e.connectionAttempts == n && e.handshakesAttempted == n && e.handshakesCompleted == n
        && e.boundChecks == n && e.wallMs == b.totalDeadlineMs && e.workUnits == 4 * n)
    && f.selector == None && f.maxSnapshotAgeSeconds == None && f.evidenceLimit == None
    && f.witnessClass.Some? && (exists d :: f.witnessPlanDigest == Some(d) && IsSha256Digest(d))
    && (exists days :: f.expiryHorizonDays == Some(days) && 0 < days < 3_651)
    && (exists v :: f.vantage == Some(v) && v != "")
  }

  lemma ScopesAreExact(scope: set<Target>)
    ensures ScopeValid(scope) <==>
      && (forall t :: t in scope ==> !Blank(t.targetId) && !Blank(t.host) && t.port > 0 && !Blank(t.sni))
      && (forall t, u :: t in scope && u in scope && t != u ==> t.targetId != u.targetId)
  {
    hide Blank;
  }

  lemma SurveyShapesAreExact(f: Preflight)
    requires |f.declaredTargets| < TWO_32
    ensures ScopeValid(f.declaredTargets) && f.SurveyShape() && (f.witnessPlanDigest.Some? ==> IsSha256Digest(f.witnessPlanDigest.value))
            <==> SurveyPreflightLaw(f)
  {
    SmallCount(|f.declaredTargets|);
    ScopesAreExact(f.declaredTargets);
    if f.bounds.Some? { BoundsAreExact(f.bounds.value, |f.declaredTargets|); }
    hide BoundsMatch, Blank, Truncate32, ScopeValid, IsSha256Digest;
  }

  lemma ReportShapesAreExact(f: Preflight)
    ensures f.ReportShape() <==> ReportPreflightLaw(f)
  {
    hide Blank;
  }

  /** A preflight of fewer than 2^32 targets is valid exactly when it keeps those promises. */
  lemma ValidPreflightsAreExact(env: Env, f: Preflight)
    requires |f.declaredTargets| < TWO_32
    ensures f.Valid(env) <==> PreflightLaw(env, f)
  {
    SurveyShapesAreExact(f);
    ReportShapesAreExact(f);
    ReportHasNoPlan(f);
    assert ScopeValid({});
    assert AsSet(f.witnessClass) == (set c | f.witnessClass == Some(c));
    hide Preflight.SurveyShape, SurveyPreflightLaw, Preflight.ReportShape, ReportPreflightLaw, ScopeValid, IsSha256Digest, Blank;
  }

  lemma ReportHasNoPlan(f: Preflight)
    ensures ReportPreflightLaw(f) ==> f.witnessPlanDigest == None && f.declaredTargets == {}
  {}

  // ---- digests bind every field ----

  /** Unless two documents collide under the digest, verifying under the same digest makes them the same. */
  lemma RequestDigestBinds(env: Env, a: Request, b: Request)
    requires a.DigestOk(env) && b.DigestOk(env) && a.requestDigest == b.requestDigest
    requires env.requestDigest(a.(requestDigest := "")) == env.requestDigest(b.(requestDigest := ""))
             ==> a.(requestDigest := "") == b.(requestDigest := "")
    ensures a == b
  {}

  lemma PlanDigestBinds(env: Env, a: WitnessPlan, b: WitnessPlan)
    requires EnvelopeOk(env, a) && EnvelopeOk(env, b) && a.witnessPlanDigest == b.witnessPlanDigest
    requires env.planDigest(a.(witnessPlanDigest := "")) == env.planDigest(b.(witnessPlanDigest := ""))
             ==> a.(witnessPlanDigest := "") == b.(witnessPlanDigest := "")
    ensures a == b
  {}

  lemma PreflightDigestBinds(env: Env, a: Preflight, b: Preflight)
    requires a.Valid(env) && b.Valid(env) && a.preflightDigest == b.preflightDigest
    requires env.preflightDigest(a.(preflightDigest := "")) == env.preflightDigest(b.(preflightDigest := ""))
             ==> a.(preflightDigest := "") == b.(preflightDigest := "")
    ensures a == b
  {
    hide Preflight.SurveyShape, Preflight.ReportShape, ScopeValid, IsSha256Digest, Blank;
  }

  /** A verifying request is one of its schema, with a readable time, under its own digest. */
  lemma RequestsAreExact(env: Env, r: Request)
    ensures r.DigestOk(env) <==>
      r.schema == "nq.inquiry_request.v0" && env.parses(r.asOf) && r.requestDigest == env.requestDigest(r.(requestDigest := ""))
  {}

  // ---- who is admitted ----

  /** A candidate plan: a readable time, a named profile, and targets it can tell apart. */
  ghost predicate CandidateLaw(plan: Plan, parses: string -> bool) {
    && plan.schema == "nq.inquiry_plan.v0" && !Blank(plan.profile) && parses(plan.asOf)
    && (forall t :: t in plan.targets ==> !Blank(t.targetId) && !Blank(t.host) && t.port > 0 && !Blank(t.sni))
    && |set t | t in plan.targets :: t.targetId| == |plan.targets|
  }

  lemma CandidatesAreExact(plan: Plan, parses: string -> bool)
    ensures plan.Valid(parses) <==> CandidateLaw(plan, parses)
  {
    DistinctIdsByCount(plan.targets);
    hide DistinctIds, Blank;
  }

  /** A plan is admitted iff it and the profile are well written, it names the profile by id or alias, and
      it cites nothing but the profile's declared targets, which a report has none of. */
  lemma AdmissionIsByName(env: Env, plan: Plan, p: Profile)
    ensures Admit(env, plan, ResolvedOf(env.profileDigest, p)).Ok? <==>
      && CandidateLaw(plan, env.parses) && ProfileLaw(p)
      && (plan.profile == p.profileId || plan.profile in p.aliases)
      && (forall t :: t in plan.targets ==> p.tlsCert.Some? && t in p.tlsCert.value.declaredTargets)
  {
    AdmitIsExact(env, plan, p);
    CandidatesAreExact(plan, env.parses);
    ProfilesAreExact(p);
    hide Admit, Plan.Valid, CandidateLaw, ProfileLaw;
    if p.Valid() { TlsByKind(p); }
    hide Profile.Valid;
    assert plan.targets != [] ==> plan.targets[0] in plan.targets;
  }

  lemma TlsByKind(p: Profile)
    requires p.Valid()
    ensures p.tlsCert.Some? <==> p.questionKind == TlsCertificate
  {}
}
