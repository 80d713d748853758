/** The intent compiler: a typed utterance and a catalog become a plan, a clarification or a refusal
    (crates/nq-core/src/intent.rs). */
module Intent {
  import opened Order
  import opened Text
  import opened InquiryTypes
  import opened Profiles
  import opened ProfileCatalog
  import opened Admission

  const INTENT_SCHEMA := "nq.inquiry_intent.v0"
  const RESOLUTION_SCHEMA := "nq.inquiry_intent_resolution.v0"

  datatype IntentSelector = ByProfile(name: string) | ByQuestion(question: Question)

  datatype Composer = Operator | Model(modelId: string, adapter: string)

  /** `composedBy` and `sourceText` are inert provenance. */
  datatype Intent = Intent(
    schema: string,
    selector: IntentSelector,
    asOf: string,
    targetIds: seq<string>,
    composedBy: Composer,
    sourceText: Option<string>)

  datatype RefusalFamily = Semantic | Operational

  datatype IntentRefusal = SelectorUnresolved | QuestionUnanswerable | TargetUndeclared {
    function Family(): RefusalFamily {
      match this
      case SelectorUnresolved => Semantic
      case QuestionUnanswerable => Operational
      case TargetUndeclared => Operational
    }
  }

  datatype Disposition =
    | Compiled(plan: Plan, profile: Binding)
    | Clarification(options: seq<Binding>)
    | Declined(refusal: IntentRefusal, family: RefusalFamily)

  datatype IntentResolution = IntentResolution(
    schema: string,
    intentDigest: string,
    composedBy: Composer,
    sourceText: Option<string>,
    disposition: Disposition)

  // ---- lowering one resolved profile ----

  function DeclaredTargets(p: Profile): seq<Target> {
    if p.tlsCert.Some? then p.tlsCert.value.declaredTargets else []
  }

  function IdSet(targets: seq<Target>): set<string> { set t | t in targets :: t.targetId }

  function CitedOnly(targets: seq<Target>, cited: set<string>): seq<Target> {
    if targets == [] then []
    else (if targets[0].targetId in cited then [targets[0]] else []) + CitedOnly(targets[1..], cited)
  }

  function DispositionFor(asOf: string, cited: set<string>, resolved: Resolved): Disposition {
    var declared := DeclaredTargets(resolved.profile);
    if cited - IdSet(declared) != {} then Declined(TargetUndeclared, TargetUndeclared.Family())
    else
      Compiled(Plan(PLAN_SCHEMA, resolved.profile.profileId, asOf, if cited == {} then [] else CitedOnly(declared, cited)),
               BindingOf(resolved))
  }

  function Cited(intent: Intent): set<string> { set id | id in intent.targetIds }

  // ---- the compiler ----

  predicate BindingLess(a: Binding, b: Binding) {
    StrLess(a.profileId, b.profileId) || (a.profileId == b.profileId && StrLess(a.profileDigest, b.profileDigest))
  }

  predicate ResolvedBindingLess(a: Resolved, b: Resolved) { BindingLess(BindingOf(a), BindingOf(b)) }

  predicate SameResolvedBinding(a: Resolved, b: Resolved) { BindingOf(a) == BindingOf(b) }

  /** Resolve the canonical id of every profile that asks the question. */
  ghost function QuestionMatches(digest: Profile -> string, c: Catalog, profiles: seq<Profile>, q: Question): Result<seq<Resolved>> {
    if profiles == [] then Ok([])
    else if profiles[0].questionKind != q then QuestionMatches(digest, c, profiles[1..], q)
    else
      match Resolve(digest, c, profiles[0].profileId)
      case Found(r) =>
        (match QuestionMatches(digest, c, profiles[1..], q)
         case Ok(rest) => Ok([r] + rest)
         case Err => Err)
      case _ => Err
  }

  function BindingsOf(rs: seq<Resolved>): seq<Binding> {
    seq(|rs|, i requires 0 <= i < |rs| => BindingOf(rs[i]))
  }

  /** Nobody to ask, one profile to ask, or a choice. */
  function DispositionOf(asOf: string, cited: set<string>, matches: seq<Resolved>): Disposition {
    if |matches| == 0 then Declined(QuestionUnanswerable, QuestionUnanswerable.Family())
    else if |matches| == 1 then DispositionFor(asOf, cited, matches[0])
    else Clarification(BindingsOf(matches))
  }

  ghost function QuestionDisposition(asOf: string, cited: set<string>, rs: seq<Resolved>): Disposition {
    DispositionOf(asOf, cited, DedupBy(Sort(rs, ResolvedBindingLess), SameResolvedBinding))
  }

  predicate Known(c: Catalog, name: string) {
    exists i :: 0 <= i < |c.profiles| && c.profiles[i].Answers(name)
  }

  /** The disposition before the resolution is assembled. */
  ghost function Dispose(digest: Profile -> string, intent: Intent, c: Catalog): Result<Disposition> {
    match intent.selector
    case ByProfile(name) =>
      if !Known(c, name) then Ok(Declined(SelectorUnresolved, SelectorUnresolved.Family()))
      else
        (match Resolve(digest, c, name)
         case Found(r) => Ok(DispositionFor(intent.asOf, Cited(intent), r))
         case _ => Err)
    case ByQuestion(q) =>
      match QuestionMatches(digest, c, c.profiles, q)
      case Ok(rs) => Ok(QuestionDisposition(intent.asOf, Cited(intent), rs))
      case Err => Err
  }

  predicate ResolutionValid(r: IntentResolution) {
    && r.schema == RESOLUTION_SCHEMA && IsSha256Digest(r.intentDigest)
    && match r.disposition
       case Compiled(plan, profile) =>
         plan.schema == PLAN_SCHEMA && plan.profile == profile.profileId && IsSha256Digest(profile.profileDigest)
       case Clarification(options) =>
         && |options| >= 2
         && Dedup(Sort(options, BindingLess)) == options
         && forall o :: o in options ==> IsSha256Digest(o.profileDigest)
       case Declined(refusal, family) => family == refusal.Family()
  }

  ghost function Compile(env: Env, intentDigest: Intent -> string, intent: Intent, c: Catalog): Result<IntentResolution> {
    if intent.schema != INTENT_SCHEMA || !c.Valid() then Err
    else
      match Dispose(env.profileDigest, intent, c)
      case Err => Err
      case Ok(d) =>
        var r := IntentResolution(RESOLUTION_SCHEMA, intentDigest(intent), intent.composedBy, intent.sourceText, d);
        if ResolutionValid(r) then Ok(r) else Err
  }

  // ---- lowering is faithful ----

  lemma {:induction false} CitedOnlyMembers(targets: seq<Target>, cited: set<string>, t: Target)
    ensures t in CitedOnly(targets, cited) <==> t in targets && t.targetId in cited
  {
    if targets == [] {
    } else {
      CitedOnlyMembers(targets[1..], cited, t);
      assert targets == [targets[0]] + targets[1..];
    }
  }

  lemma {:induction false} CitedOnlyDistinct(targets: seq<Target>, cited: set<string>)
    requires DistinctIds(targets)
    ensures DistinctIds(CitedOnly(targets, cited))
  {
    if targets == [] {
    } else {
      CitedOnlyDistinct(targets[1..], cited);
      forall t | t in CitedOnly(targets[1..], cited) ensures t.targetId != targets[0].targetId {
        CitedOnlyMembers(targets[1..], cited, t);
        var i :| 1 <= i < |targets| && targets[i] == t;
      }
    }
  }

  /** The declared targets of a resolved profile are those of the catalog profile, whatever their order. */
  lemma DeclaredNormalized(p: Profile)
    requires p.Valid()
    ensures var declared := DeclaredTargets(Normalize(p));
            && ValidTargets(declared) && DistinctIds(declared)
            && (forall t :: t in declared <==> t in DeclaredTargets(p))
    ensures Normalize(p).profileId == p.profileId && !Blank(p.profileId)
    ensures p.questionKind == FindingOperationalActivity <==> p.tlsCert.None?
  {
    NormalizeIsCanonical(p);
    if p.tlsCert.Some? { SortedTargets(p.tlsCert.value.declaredTargets); }
    hide Sort, TargetLess, StrLess, RefusalLess;
  }

  lemma CitedOnlyNonempty(declared: seq<Target>, cited: set<string>)
    requires cited <= IdSet(declared) && cited != {}
    ensures CitedOnly(declared, cited) != []
  {
    var id :| id in cited;
    assert id in IdSet(declared);
    var t :| t in declared && t.targetId == id;
    CitedOnlyMembers(declared, cited, t);
  }

  /** A compiled plan fits the profile it names, and cites the declared targets with the cited ids. */
  lemma CompiledPlanFits(env: Env, asOf: string, cited: set<string>, p: Profile)
    requires p.Valid() && env.parses(asOf) && DispositionFor(asOf, cited, ResolvedOf(env.profileDigest, p)).Compiled?
    ensures var plan := DispositionFor(asOf, cited, ResolvedOf(env.profileDigest, p)).plan;
            && plan.Valid(env.parses) && Fits(plan, p) && plan.asOf == asOf && plan.profile == p.profileId
            && (cited == {} <==> plan.targets == [])
            && (cited != {} ==> forall t :: t in plan.targets <==> t in DeclaredTargets(p) && t.targetId in cited)
  {
    hide Profile.Valid, Normalize, Blank, DeclaredTargets, CitedOnly, IdSet, DispositionFor, ResolvedOf;
    DeclaredNormalized(p);
    var declared := DeclaredTargets(Normalize(p));
    var targets := CitedOnly(declared, cited);
    CompiledShape(env.profileDigest, asOf, cited, p);
    forall t ensures t in targets <==> t in declared && t.targetId in cited { CitedOnlyMembers(declared, cited, t); }
    CitedOnlyDistinct(declared, cited);
    if cited != {} { CitedOnlyNonempty(declared, cited); }
    FitsDeclared(DispositionFor(asOf, cited, ResolvedOf(env.profileDigest, p)).plan, p);
  }

  lemma CompiledShape(digest: Profile -> string, asOf: string, cited: set<string>, p: Profile)
    requires DispositionFor(asOf, cited, ResolvedOf(digest, p)).Compiled?
    ensures var declared := DeclaredTargets(Normalize(p));
            && cited <= IdSet(declared)
            && DispositionFor(asOf, cited, ResolvedOf(digest, p)) ==
                 Compiled(Plan(PLAN_SCHEMA, Normalize(p).profileId, asOf, if cited == {} then [] else CitedOnly(declared, cited)),
                          BindingOf(ResolvedOf(digest, p)))
  {
    hide Normalize, CitedOnly, IdSet, DeclaredTargets;
    var declared := IdSet(DeclaredTargets(Normalize(p)));
    assert cited - declared == {};
    forall id | id in cited ensures id in declared { assert id !in cited - declared; }
  }

  lemma FitsDeclared(plan: Plan, p: Profile)
    requires plan.profile == p.profileId && forall t :: t in plan.targets ==> t in DeclaredTargets(p)
    requires p.questionKind == FindingOperationalActivity <==> p.tlsCert.None?
    ensures Fits(plan, p)
  {
    assert plan.targets == [] || plan.targets[0] in plan.targets;
  }

  // ---- the question branch ----

  /** The resolutions of the profiles that ask `q`, in catalog order. */
  function Asking(digest: Profile -> string, profiles: seq<Profile>, q: Question): seq<Resolved> {
    if profiles == [] then []
    else (if profiles[0].questionKind == q then [ResolvedOf(digest, profiles[0])] else []) + Asking(digest, profiles[1..], q)
  }

  lemma CanonicalIdResolves(digest: Profile -> string, c: Catalog, i: nat)
    requires c.Valid() && i < |c.profiles|
    ensures Resolve(digest, c, c.profiles[i].profileId) == Found(ResolvedOf(digest, c.profiles[i]))
  {
    assert c.profiles[i].Valid();
    assert !Blank(c.profiles[i].profileId);
    hide Catalog.Valid, Profile.Valid, ResolvedOf, Resolve;
    ResolveIsExact(digest, c, c.profiles[i].profileId);
    assert c.profiles[i].Answers(c.profiles[i].profileId);
  }

  lemma {:induction false} QuestionMatchesExact(digest: Profile -> string, c: Catalog, k: nat, q: Question)
    requires c.Valid() && k <= |c.profiles|
    ensures QuestionMatches(digest, c, c.profiles[k..], q) == Ok(Asking(digest, c.profiles[k..], q))
    decreases |c.profiles| - k
  {
    hide Catalog.Valid, Resolve, ResolvedOf;
    if k < |c.profiles| {
      assert c.profiles[k..][0] == c.profiles[k] && c.profiles[k..][1..] == c.profiles[k + 1..];
      QuestionMatchesExact(digest, c, k + 1, q);
      CanonicalIdResolves(digest, c, k);
      var rest := Asking(digest, c.profiles[k + 1..], q);
      assert [] + rest == rest;
    } else {
      assert c.profiles[k..] == [];
    }
  }

  lemma {:induction false} AskingMembers(digest: Profile -> string, profiles: seq<Profile>, q: Question, r: Resolved)
    ensures r in Asking(digest, profiles, q) <==>
      exists i :: 0 <= i < |profiles| && profiles[i].questionKind == q && ResolvedOf(digest, profiles[i]) == r
  {
    hide ResolvedOf;
    if profiles == [] {
    } else {
      AskingMembers(digest, profiles[1..], q, r);
      if i :| 0 <= i < |profiles[1..]| && profiles[1..][i].questionKind == q && ResolvedOf(digest, profiles[1..][i]) == r {
        assert profiles[i + 1] == profiles[1..][i];
      }
      if i :| 0 < i < |profiles| && profiles[i].questionKind == q && ResolvedOf(digest, profiles[i]) == r {
        assert profiles[1..][i - 1] == profiles[i];
      }
    }
  }

  ghost predicate DistinctProfiles(rs: seq<Resolved>) {
    forall i, j :: 0 <= i < j < |rs| ==> rs[i].profile.profileId != rs[j].profile.profileId
  }

  lemma {:induction false} AskingDistinct(digest: Profile -> string, profiles: seq<Profile>, q: Question)
    requires UniqueIds(profiles)
    ensures DistinctProfiles(Asking(digest, profiles, q))
  {
    if profiles == [] {
    } else {
      var rest := profiles[1..];
      assert forall i :: 0 <= i < |rest| ==> rest[i] == profiles[i + 1];
      AskingDistinct(digest, rest, q);
      forall r | r in Asking(digest, rest, q) ensures r.profile.profileId != profiles[0].profileId {
        AskingMembers(digest, rest, q, r);
        var i :| 0 <= i < |rest| && rest[i].questionKind == q && ResolvedOf(digest, rest[i]) == r;
      }
    }
  }

  lemma BindingOrder()
    ensures StrictTotal(BindingLess) && StrictWeak(BindingLess) && StrictWeak(ResolvedBindingLess)
  {
    StrOrder();
    hide StrLess;
    TotalIsWeak(BindingLess);
  }

  lemma {:induction false} DedupByDistinct<T(!new)>(s: seq<T>, same: (T, T) -> bool)
    requires forall i, j :: 0 <= i < j < |s| ==> !same(s[i], s[j])
    ensures DedupBy(s, same) == s
    decreases |s|
  {
    if |s| <= 1 {
    } else {
      DedupByDistinct(s[1..], same);
      assert s == [s[0]] + s[1..];
    }
  }

  function Options(digest: Profile -> string, profiles: seq<Profile>, q: Question): seq<Resolved> {
    DedupBy(Sort(Asking(digest, profiles, q), ResolvedBindingLess), SameResolvedBinding)
  }

  /** The options are the asking profiles, each once, in strictly ascending binding order. */
  lemma OptionsAscend(digest: Profile -> string, profiles: seq<Profile>, q: Question)
    requires UniqueIds(profiles)
    ensures Ascending(Options(digest, profiles, q), ResolvedBindingLess)
    ensures forall r :: r in Options(digest, profiles, q) <==> r in Asking(digest, profiles, q)
  {
    var rs := Asking(digest, profiles, q);
    AskingDistinct(digest, profiles, q);
    BindingOrder();
    hide Asking, BindingLess;
    var s := Sort(rs, ResolvedBindingLess);
    SortSorts(rs, ResolvedBindingLess);
    DistinctProfilesSorted(rs, s);
    hide Sort;
    DedupByDistinct(s, SameResolvedBinding);
    forall i, j | 0 <= i < j < |s| ensures ResolvedBindingLess(s[i], s[j]) {
      assert BindingOf(s[i]) != BindingOf(s[j]);
    }
  }

  /** Rearranging keeps profiles distinct. */
  lemma DistinctProfilesSorted(rs: seq<Resolved>, s: seq<Resolved>)
    requires DistinctProfiles(rs) && multiset(rs) == multiset(s)
    ensures DistinctProfiles(s)
  {
    DistinctIsMultiset(rs);
    DistinctIsMultiset(s);
    forall i, j | 0 <= i < j < |s| ensures s[i].profile.profileId != s[j].profile.profileId {
      assert s[i] in multiset(s) && s[j] in multiset(s);
      assert s[i] in rs && s[j] in rs;
      var a :| 0 <= a < |rs| && rs[a] == s[i];
      var b :| 0 <= b < |rs| && rs[b] == s[j];
      assert s[i] != s[j];
    }
  }

  // ---- compiling never fails on valid input ----

  /** What a valid intent and catalog compile to, branch by branch. */
  ghost predicate Means(digest: Profile -> string, intent: Intent, c: Catalog, d: Disposition) {
    match intent.selector
    case ByProfile(name) =>
      if !Known(c, name) then d == Declined(SelectorUnresolved, Semantic)
      else exists i :: 0 <= i < |c.profiles| && c.profiles[i].Answers(name)
             && d == DispositionFor(intent.asOf, Cited(intent), ResolvedOf(digest, c.profiles[i]))
    case ByQuestion(q) =>
      var options := Options(digest, c.profiles, q);
      if options == [] then d == Declined(QuestionUnanswerable, Operational)
      else if |options| == 1 then d == DispositionFor(intent.asOf, Cited(intent), options[0])
      else d == Clarification(BindingsOf(options))
  }

  lemma KnownNameResolves(digest: Profile -> string, c: Catalog, i: nat, name: string)
    requires c.Valid() && i < |c.profiles| && c.profiles[i].Answers(name)
    ensures Resolve(digest, c, name) == Found(ResolvedOf(digest, c.profiles[i]))
  {
    assert c.profiles[i].Valid();
    assert !Blank(name);
    hide Catalog.Valid, Profile.Valid, Profile.Answers, ResolvedOf, Resolve;
    ResolveIsExact(digest, c, name);
  }

  lemma DisposeExact(digest: Profile -> string, intent: Intent, c: Catalog)
    requires c.Valid()
    ensures Dispose(digest, intent, c).Ok? && Means(digest, intent, c, Dispose(digest, intent, c).value)
  {
    hide Catalog.Valid, Profile.Answers, ResolvedOf, Resolve, DispositionFor, Sort, DedupBy;
    match intent.selector
    case ByProfile(name) =>
      if Known(c, name) {
        var i :| 0 <= i < |c.profiles| && c.profiles[i].Answers(name);
        KnownNameResolves(digest, c, i, name);
      }
    case ByQuestion(q) =>
      QuestionMatchesExact(digest, c, 0, q);
      assert c.profiles[0..] == c.profiles;
      hide QuestionMatches, Asking;
  }

  lemma OptionsCanonical(digest: Profile -> string, profiles: seq<Profile>, q: Question)
    requires UniqueIds(profiles) && forall p :: IsSha256Digest(digest(p))
    ensures var bs := BindingsOf(Options(digest, profiles, q));
            && Ascending(bs, BindingLess) && Dedup(Sort(bs, BindingLess)) == bs
            && forall b :: b in bs ==> IsSha256Digest(b.profileDigest)
  {
    OptionsAscend(digest, profiles, q);
    var options := Options(digest, profiles, q);
    var bs := BindingsOf(options);
    forall r | r in options ensures IsSha256Digest(r.profileDigest) {
      AskingMembers(digest, profiles, q, r);
    }
    assert Ascending(bs, BindingLess);
    hide Options, BindingsOf, IsSha256Digest, Ascending;
    BindingOrder();
    AscendingIsCanonical(bs);
  }

  lemma AscendingIsCanonical(bs: seq<Binding>)
    requires StrictTotal(BindingLess) && Ascending(bs, BindingLess)
    ensures Dedup(Sort(bs, BindingLess)) == bs
  {
    hide BindingLess;
    assert Sorted(bs, BindingLess) && Distinct(bs);
    SortOfSorted(bs, BindingLess);
    DedupDistinct(bs);
  }

  /** Malformed input aside, the compiler always produces a valid resolution. */
  lemma CompileIsTotal(env: Env, intentDigest: Intent -> string, intent: Intent, c: Catalog)
    requires DigestsWellFormed(env) && (forall i :: IsSha256Digest(intentDigest(i)))
    requires intent.schema == INTENT_SCHEMA && c.Valid()
    ensures Compile(env, intentDigest, intent, c).Ok?
    ensures Means(env.profileDigest, intent, c, Compile(env, intentDigest, intent, c).value.disposition)
  {
    DisposeExact(env.profileDigest, intent, c);
    var d := Dispose(env.profileDigest, intent, c).value;
    MeantIsValid(env, intent, c, d, intentDigest(intent));
    hide Catalog.Valid, Dispose, Means, ResolutionValid, IsSha256Digest;
  }

  /** Every disposition of the specified meaning passes the resolution checks. */
  lemma MeantIsValid(env: Env, intent: Intent, c: Catalog, d: Disposition, digest: string)
    requires DigestsWellFormed(env) && IsSha256Digest(digest) && c.Valid() && Means(env.profileDigest, intent, c, d)
    ensures ResolutionValid(IntentResolution(RESOLUTION_SCHEMA, digest, intent.composedBy, intent.sourceText, d))
  {
    assert UniqueIds(c.profiles);
    hide Catalog.Valid, Dispose, IsSha256Digest, Known, Profile.Answers, Normalize, IdSet, CitedOnly, DeclaredTargets;
    if intent.selector.ByQuestion? {
      OptionsCanonical(env.profileDigest, c.profiles, intent.selector.question);
      if |Options(env.profileDigest, c.profiles, intent.selector.question)| == 1 {
        AskingMembersOne(env, c.profiles, intent.selector.question);
      }
      hide Options, Sort, Dedup, Ascending, BindingLess;
    }
  }

  lemma AskingMembersOne(env: Env, profiles: seq<Profile>, q: Question)
    requires UniqueIds(profiles) && |Options(env.profileDigest, profiles, q)| >= 1 && DigestsWellFormed(env)
    ensures IsSha256Digest(Options(env.profileDigest, profiles, q)[0].profileDigest)
    ensures exists i :: 0 <= i < |profiles| && profiles[i].questionKind == q
              && Options(env.profileDigest, profiles, q)[0] == ResolvedOf(env.profileDigest, profiles[i])
  {
    OptionsAscend(env.profileDigest, profiles, q);
    AskingMembers(env.profileDigest, profiles, q, Options(env.profileDigest, profiles, q)[0]);
    hide Options, IsSha256Digest;
  }

  // ---- end to end ----

  /** The catalog profile behind a compiled disposition. */
  lemma CompiledProfile(env: Env, intentDigest: Intent -> string, intent: Intent, c: Catalog) returns (i: nat)
    requires Compile(env, intentDigest, intent, c).Ok? && Compile(env, intentDigest, intent, c).value.disposition.Compiled?
    ensures c.Valid() && i < |c.profiles|
    ensures Compile(env, intentDigest, intent, c).value.disposition ==
              DispositionFor(intent.asOf, Cited(intent), ResolvedOf(env.profileDigest, c.profiles[i]))
    ensures match intent.selector
            case ByProfile(name) => c.profiles[i].Answers(name)
            case ByQuestion(q) => c.profiles[i].questionKind == q
  {
    DisposeExact(env.profileDigest, intent, c);
    var d := Dispose(env.profileDigest, intent, c).value;
    assert UniqueIds(c.profiles);
    hide Catalog.Valid, Dispose, ResolutionValid, Profile.Answers, ResolvedOf, DispositionFor;
    match intent.selector {
      case ByProfile(name) =>
        i :| 0 <= i < |c.profiles| && c.profiles[i].Answers(name)
             && d == DispositionFor(intent.asOf, Cited(intent), ResolvedOf(env.profileDigest, c.profiles[i]));
      case ByQuestion(q) =>
        var options := Options(env.profileDigest, c.profiles, q);
        OptionsAscend(env.profileDigest, c.profiles, q);
        assert options[0] in options;
        AskingMembers(env.profileDigest, c.profiles, q, options[0]);
        hide Options, Asking;
        i :| 0 <= i < |c.profiles| && c.profiles[i].questionKind == q && ResolvedOf(env.profileDigest, c.profiles[i]) == options[0];
    }
  }

  /** Every compiled plan whose time parses goes through the whole downstream pipeline with its meaning
      kept: it names one catalog profile, resolves back to it, is admitted with exactly the declared
      targets that were cited (all of them when none was), renders a preflight, and for a survey resolves
      to a witness plan whose envelope verifies. */
  lemma CompiledPlanRuns(env: Env, intentDigest: Intent -> string, intent: Intent, c: Catalog) returns (i: nat)
    requires DigestsWellFormed(env) && env.parses(intent.asOf)
    requires Compile(env, intentDigest, intent, c).Ok? && Compile(env, intentDigest, intent, c).value.disposition.Compiled?
    ensures i < |c.profiles|
    ensures var d := Compile(env, intentDigest, intent, c).value.disposition;
            var p := c.profiles[i];
            var resolved := ResolvedOf(env.profileDigest, p);
            && d.profile == BindingOf(resolved) && Resolve(env.profileDigest, c, d.plan.profile) == Found(resolved)
            && Admit(env, d.plan, resolved) == Ok(ExpectedRequest(env, d.plan, p))
            && (forall t :: t in ExpectedRequest(env, d.plan, p).admittedTargets <==>
                  t in DeclaredTargets(p) && (Cited(intent) == {} || t.targetId in Cited(intent)))
            && Render(env, d.plan, resolved).Ok?
            && (p.questionKind == TlsCertificate ==>
                  && p.tlsCert.Some?
                  && ResolvePlan(env, ExpectedRequest(env, d.plan, p), resolved) == Ok(ExpectedPlan(env, d.plan, p))
                  && EnvelopeOk(env, ExpectedPlan(env, d.plan, p)))
  {
    i := CompiledProfile(env, intentDigest, intent, c);
    var p := c.profiles[i];
    assert p.Valid();
    hide Catalog.Valid, Compile, Admit, Render, ResolvePlan, EnvelopeOk, DispositionFor, Resolve;
    CompiledPlanFits(env, intent.asOf, Cited(intent), p);
    var d := DispositionFor(intent.asOf, Cited(intent), ResolvedOf(env.profileDigest, p));
    CompiledShape(env.profileDigest, intent.asOf, Cited(intent), p);
    CanonicalIdResolves(env.profileDigest, c, i);
    AdmitSucceeds(env, d.plan, p);
    RenderSucceeds(env, d.plan, p);
    if p.questionKind == TlsCertificate {
      SurveyBounds(p);
      PlanResolves(env, d.plan, p);
    }
    hide Profile.Valid, Plan.Valid, ExpectedPlan;
    MeantMembers(d.plan, p);
  }

  lemma MeantMembers(plan: Plan, p: Profile)
    requires Fits(plan, p) && (p.questionKind == FindingOperationalActivity <==> p.tlsCert.None?)
    ensures forall t :: t in MeantTargets(plan, p) <==>
      if plan.targets == [] then t in DeclaredTargets(p) else t in plan.targets
  {
    if p.tlsCert.Some? {
      SortedTargets(if plan.targets == [] then p.tlsCert.value.declaredTargets else plan.targets);
    }
    hide Sort, TargetLess;
  }

  // ---- independence and clarification ----

  /** Provenance, and the order and repetition of cited ids, leave no trace on the disposition. */
  lemma ProvenanceIsInert(env: Env, intentDigest: Intent -> string, a: Intent, b: Intent, c: Catalog)
    requires a.schema == b.schema && a.selector == b.selector && a.asOf == b.asOf && Cited(a) == Cited(b)
    requires DigestsWellFormed(env) && forall i :: IsSha256Digest(intentDigest(i))
    ensures Compile(env, intentDigest, a, c).Ok? <==> Compile(env, intentDigest, b, c).Ok?
    ensures Compile(env, intentDigest, a, c).Ok? ==>
      Compile(env, intentDigest, a, c).value.disposition == Compile(env, intentDigest, b, c).value.disposition
  {
    if a.schema == INTENT_SCHEMA && c.Valid() {
      CompileIsTotal(env, intentDigest, a, c);
      CompileIsTotal(env, intentDigest, b, c);
      hide Catalog.Valid, Means, Resolve, QuestionMatches, Known, DispositionFor, QuestionDisposition, ResolutionValid;
    }
  }

  /** The options offered for a question do not depend on catalog order. */
  lemma OptionsIgnoreOrder(digest: Profile -> string, a: seq<Profile>, b: seq<Profile>, to: seq<nat>, from: seq<nat>, q: Question)
    requires UniqueIds(a) && UniqueIds(b) && Rearranges(a, b, to, from)
    ensures Options(digest, a, q) == Options(digest, b, q)
  {
    hide Options, Asking, Rearranges, UniqueIds, ResolvedBindingLess;
    OptionsAscend(digest, a, q);
    OptionsAscend(digest, b, q);
    RearrangedBack(a, b, to, from);
    forall r ensures r in Asking(digest, a, q) <==> r in Asking(digest, b, q) {
      if r in Asking(digest, a, q) { AskingIgnoresOrder(digest, a, b, to, from, q, r); }
      if r in Asking(digest, b, q) { AskingIgnoresOrder(digest, b, a, from, to, q, r); }
    }
    BindingOrder();
    AscendingUnique(Options(digest, a, q), Options(digest, b, q), ResolvedBindingLess);
  }

  lemma AskingIgnoresOrder(digest: Profile -> string, a: seq<Profile>, b: seq<Profile>, to: seq<nat>, from: seq<nat>,
                           q: Question, r: Resolved)
    requires Rearranges(a, b, to, from) && r in Asking(digest, a, q)
    ensures r in Asking(digest, b, q)
  {
    AskingMembers(digest, a, q, r);
    AskingMembers(digest, b, q, r);
    hide Asking, Normalize;
    var i :| 0 <= i < |a| && a[i].questionKind == q && ResolvedOf(digest, a[i]) == r;
    NormalizeIsCanonical(a[i]);
    NormalizeIsCanonical(b[to[i]]);
    assert b[to[i]].questionKind == q && ResolvedOf(digest, b[to[i]]) == r;
  }

  lemma DispositionIgnoresOrder(digest: Profile -> string, intent: Intent, a: Catalog, b: Catalog, to: seq<nat>, from: seq<nat>)
    requires a.Valid() && b.Valid() && Rearranges(a.profiles, b.profiles, to, from)
    requires a.schema == b.schema
    ensures Dispose(digest, intent, a) == Dispose(digest, intent, b)
  {
    match intent.selector
    case ByProfile(name) =>
      hide Catalog.Valid, Resolve, DispositionFor, Rearranges, Known;
      ResolveIgnoresOrder(digest, a, b, to, from, name);
      KnownAgrees(a, b, to, from, name);
    case ByQuestion(q) =>
      hide Catalog.Valid, QuestionMatches, Rearranges, QuestionDisposition;
      QuestionIgnoresOrder(digest, q, intent.asOf, Cited(intent), a, b, to, from);
  }

  lemma KnownAgrees(a: Catalog, b: Catalog, to: seq<nat>, from: seq<nat>, name: string)
    requires Rearranges(a.profiles, b.profiles, to, from)
    ensures Known(a, name) <==> Known(b, name)
  {
    RearrangedBack(a.profiles, b.profiles, to, from);
    hide Rearranges, Known;
    if Known(a, name) { KnownIgnoresOrder(a, b, to, from, name); }
    if Known(b, name) { KnownIgnoresOrder(b, a, from, to, name); }
  }

  lemma QuestionIgnoresOrder(digest: Profile -> string, q: Question, asOf: string, cited: set<string>,
                             a: Catalog, b: Catalog, to: seq<nat>, from: seq<nat>)
    requires a.Valid() && b.Valid() && Rearranges(a.profiles, b.profiles, to, from)
    ensures QuestionMatches(digest, a, a.profiles, q).Ok? && QuestionMatches(digest, b, b.profiles, q).Ok?
    ensures QuestionDisposition(asOf, cited, QuestionMatches(digest, a, a.profiles, q).value) ==
            QuestionDisposition(asOf, cited, QuestionMatches(digest, b, b.profiles, q).value)
  {
    hide Catalog.Valid, QuestionMatches, Options, DispositionOf, Rearranges, UniqueIds, QuestionDisposition;
    ValidIsUnique(a);
    ValidIsUnique(b);
    OptionsIgnoreOrder(digest, a.profiles, b.profiles, to, from, q);
    QuestionDispositionByOptions(digest, a, q, asOf, cited);
    QuestionDispositionByOptions(digest, b, q, asOf, cited);
  }

  lemma ValidIsUnique(c: Catalog)
    requires c.Valid()
    ensures UniqueIds(c.profiles)
  {}

  lemma QuestionDispositionByOptions(digest: Profile -> string, c: Catalog, q: Question, asOf: string, cited: set<string>)
    requires c.Valid()
    ensures QuestionMatches(digest, c, c.profiles, q).Ok?
    ensures QuestionDisposition(asOf, cited, QuestionMatches(digest, c, c.profiles, q).value) ==
              DispositionOf(asOf, cited, Options(digest, c.profiles, q))
  {
    QuestionMatchesExact(digest, c, 0, q);
    assert c.profiles[0..] == c.profiles;
    hide Catalog.Valid, QuestionMatches, Asking, Sort, DedupBy, DispositionFor;
  }

  lemma KnownIgnoresOrder(a: Catalog, b: Catalog, to: seq<nat>, from: seq<nat>, name: string)
    requires Rearranges(a.profiles, b.profiles, to, from) && Known(a, name)
    ensures Known(b, name)
  {
    hide Normalize, Profile.Answers;
    var i :| 0 <= i < |a.profiles| && a.profiles[i].Answers(name);
    NormalizeIsCanonical(a.profiles[i]);
    NormalizeIsCanonical(b.profiles[to[i]]);
    assert b.profiles[to[i]].Answers(name);
  }

  /** Compilation does not depend on the order of the catalog or of its profiles' arrays. */
  lemma CompileIgnoresCatalogOrder(env: Env, intentDigest: Intent -> string, intent: Intent,
                                   a: Catalog, b: Catalog, to: seq<nat>, from: seq<nat>)
    requires a.schema == b.schema && Rearranges(a.profiles, b.profiles, to, from)
    ensures Compile(env, intentDigest, intent, a) == Compile(env, intentDigest, intent, b)
  {
    RearrangedBack(a.profiles, b.profiles, to, from);
    if a.Valid() { RearrangedValid(a, b, to, from); }
    if b.Valid() { RearrangedValid(b, a, from, to); }
    hide Catalog.Valid, Dispose, ResolutionValid;
    if a.Valid() { DispositionIgnoresOrder(env.profileDigest, intent, a, b, to, from); }
  }

  /** A clarification offers at least two options, strictly ascending, each the binding of a catalog
      profile that asks the question; and re-asking with any option's id is never ambiguous again: it
      compiles to exactly that binding or refuses an undeclared target. */
  lemma ClarificationIsResolvable(env: Env, intentDigest: Intent -> string, intent: Intent, c: Catalog, k: nat)
    requires DigestsWellFormed(env) && forall i :: IsSha256Digest(intentDigest(i))
    requires intent.schema == INTENT_SCHEMA && c.Valid()
    requires Compile(env, intentDigest, intent, c).Ok?
    requires Compile(env, intentDigest, intent, c).value.disposition.Clarification?
    requires k < |Compile(env, intentDigest, intent, c).value.disposition.options|
    ensures var options := Compile(env, intentDigest, intent, c).value.disposition.options;
            && |options| >= 2 && Ascending(options, BindingLess)
            && (exists i :: 0 <= i < |c.profiles| && options[k] == BindingOf(ResolvedOf(env.profileDigest, c.profiles[i]))
                  && intent.selector == ByQuestion(c.profiles[i].questionKind))
            && var again := Compile(env, intentDigest, intent.(selector := ByProfile(options[k].profileId)), c);
               again.Ok? && (|| (again.value.disposition.Compiled? && again.value.disposition.profile == options[k])
                             || again.value.disposition == Declined(TargetUndeclared, Operational))
  {
    hide Compile, IsSha256Digest, Catalog.Valid, Means, Options, Asking, Ascending, UniqueIds, ResolvedOf, BindingLess;
    CompileIsTotal(env, intentDigest, intent, c);
    ValidIsUnique(c);
    var options := Compile(env, intentDigest, intent, c).value.disposition.options;
    var again := intent.(selector := ByProfile(options[k].profileId));
    CompileIsTotal(env, intentDigest, again, c);
    var q := ClarifiedQuestion(env.profileDigest, intent, c, options);
    OptionsCanonical(env.profileDigest, c.profiles, q);
    OptionsAscend(env.profileDigest, c.profiles, q);
    var rs := Options(env.profileDigest, c.profiles, q);
    AskingMembers(env.profileDigest, c.profiles, q, rs[k]);
    assert rs[k] in rs;
    var i :| 0 <= i < |c.profiles| && c.profiles[i].questionKind == q && ResolvedOf(env.profileDigest, c.profiles[i]) == rs[k];
    ResolvedKeepsId(env.profileDigest, c.profiles[i]);
    AskedById(env.profileDigest, again, c, i, Compile(env, intentDigest, again, c).value.disposition);
  }

  lemma ResolvedKeepsId(digest: Profile -> string, p: Profile)
    ensures ResolvedOf(digest, p).profile.profileId == p.profileId
  {}

  lemma ClarifiedQuestion(digest: Profile -> string, intent: Intent, c: Catalog, options: seq<Binding>) returns (q: Question)
    requires Means(digest, intent, c, Clarification(options))
    ensures intent.selector == ByQuestion(q) && |options| >= 2 && options == BindingsOf(Options(digest, c.profiles, q))
  {
    hide Options;
    q := intent.selector.question;
  }

  lemma AskedById(digest: Profile -> string, intent: Intent, c: Catalog, i: nat, d: Disposition)
    requires c.Valid() && i < |c.profiles| && intent.selector == ByProfile(c.profiles[i].profileId)
    requires Means(digest, intent, c, d)
    ensures || (d.Compiled? && d.profile == BindingOf(ResolvedOf(digest, c.profiles[i])))
            || d == Declined(TargetUndeclared, Operational)
  {
    var name := c.profiles[i].profileId;
    assert c.profiles[i].Answers(name);
    hide ResolvedOf, Resolve, Cited, IdSet, CitedOnly, DeclaredTargets;
    var j :| 0 <= j < |c.profiles| && c.profiles[j].Answers(name)
             && d == DispositionFor(intent.asOf, Cited(intent), ResolvedOf(digest, c.profiles[j]));
    assert c.profiles[j].profileId == c.profiles[i].profileId;
    assert i == j;
  }

  // ---- the compiler as it runs ----

  method CompileInquiryIntent(env: Env, intentDigest: Intent -> string, intent: Intent, c: Catalog)
    returns (r: Result<IntentResolution>)
    ensures r == Compile(env, intentDigest, intent, c)
  {
    hide Catalog.Valid, Resolve, ResolutionValid, DispositionFor, Profile.Answers, Sort, DedupBy;
    if intent.schema != INTENT_SCHEMA {
      return Err;
    }
    var valid := ValidateCatalog(c);
    if !valid {
      return Err;
    }
    var disposition: Disposition;
    match intent.selector {
      case ByProfile(name) =>
        if !Known(c, name) {
          disposition := Declined(SelectorUnresolved, SelectorUnresolved.Family());
        } else {
          var resolution := ResolveProfile(env.profileDigest, c, name);
          if !resolution.Found? {
            return Err;
          }
          disposition := DispositionFor(intent.asOf, Cited(intent), resolution.resolved);
        }
      case ByQuestion(q) =>
        var found := CollectMatches(env.profileDigest, c, q);
        if found.Err? {
          return Err;
        }
        var matches := Sort(found.value, ResolvedBindingLess);
        matches := DedupBy(matches, SameResolvedBinding);
        if |matches| == 0 {
          disposition := Declined(QuestionUnanswerable, QuestionUnanswerable.Family());
        } else if |matches| == 1 {
          disposition := DispositionFor(intent.asOf, Cited(intent), matches[0]);
        } else {
          disposition := Clarification(BindingsOf(matches));
        }
    }
    var resolution := IntentResolution(RESOLUTION_SCHEMA, intentDigest(intent), intent.composedBy, intent.sourceText, disposition);
    if !ResolutionValid(resolution) {
      return Err;
    }
    r := Ok(resolution);
  }

  method CollectMatches(digest: Profile -> string, c: Catalog, q: Question) returns (r: Result<seq<Resolved>>)
    ensures r == QuestionMatches(digest, c, c.profiles, q)
  {
    hide Resolve;
    var matches: seq<Resolved> := [];
    assert c.profiles[0..] == c.profiles;
    PrependNothing(QuestionMatches(digest, c, c.profiles, q));
    for i := 0 to |c.profiles|
      invariant QuestionMatches(digest, c, c.profiles, q) == Prepended(matches, QuestionMatches(digest, c, c.profiles[i..], q))
    {
      assert c.profiles[i..][0] == c.profiles[i] && c.profiles[i..][1..] == c.profiles[i + 1..];
      if c.profiles[i].questionKind == q {
        var resolution := ResolveProfile(digest, c, c.profiles[i].profileId);
        if !resolution.Found? {
          return Err;
        }
        PrependedSnoc(matches, resolution.resolved, QuestionMatches(digest, c, c.profiles[i + 1..], q));
        matches := matches + [resolution.resolved];
      }
    }
    assert c.profiles[|c.profiles|..] == [];
    assert matches + [] == matches;
    r := Ok(matches);
  }

  function Prepended(matches: seq<Resolved>, rest: Result<seq<Resolved>>): Result<seq<Resolved>> {
    match rest
    case Ok(rs) => Ok(matches + rs)
    case Err => Err
  }

  lemma PrependNothing(rest: Result<seq<Resolved>>)
    ensures Prepended([], rest) == rest
  {
    if rest.Ok? { assert [] + rest.value == rest.value; }
  }

  lemma PrependedSnoc(matches: seq<Resolved>, x: Resolved, rest: Result<seq<Resolved>>)
    ensures Prepended(matches + [x], rest) == Prepended(matches, Prepended([x], rest))
  {
    if rest.Ok? { assert matches + [x] + rest.value == matches + ([x] + rest.value); }
  }
}
