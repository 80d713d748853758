/** When the intent compiler compiles, asks back or refuses, said of the catalog's profiles and the cited
    ids (crates/nq-core/src/intent.rs). */
module IntentLaws {
  import opened Order
  import opened Text
  import opened InquiryTypes
  import opened Profiles
  import opened ProfileCatalog
  import opened Admission
  import opened Intent

  /** The compiler's parameters behave: digests have the digest form. */
  ghost predicate Digesting(env: Env, intentDigest: Intent -> string) {
    DigestsWellFormed(env) && forall i :: IsSha256Digest(intentDigest(i))
  }

  ghost predicate Declares(p: Profile, t: Target) {
    p.tlsCert.Some? && t in p.tlsCert.value.declaredTargets
  }

  /** Every id the intent cites is the id of a target this profile declares. */
  ghost predicate CitesOnlyDeclared(intent: Intent, p: Profile) {
    forall id :: id in intent.targetIds ==> exists t :: Declares(p, t) && t.targetId == id
  }

  /** The selector means this profile: by id, by alias, or as the only one to ask the question. */
  ghost predicate Selects(intent: Intent, c: Catalog, i: nat) {
    && i < |c.profiles|
    && match intent.selector
       case ByProfile(name) => c.profiles[i].profileId == name || name in c.profiles[i].aliases
       case ByQuestion(q) =>
         c.profiles[i].questionKind == q && forall j :: 0 <= j < |c.profiles| && j != i ==> c.profiles[j].questionKind != q
  }

  // ---- one profile meant ----

  lemma OnlyAskerIsOnlyOption(digest: Profile -> string, profiles: seq<Profile>, q: Question, i: nat)
    requires UniqueIds(profiles) && i < |profiles| && profiles[i].questionKind == q
    requires forall j :: 0 <= j < |profiles| && j != i ==> profiles[j].questionKind != q
    ensures Options(digest, profiles, q) == [ResolvedOf(digest, profiles[i])]
  {
    var options, r := Options(digest, profiles, q), ResolvedOf(digest, profiles[i]);
    OptionsAscend(digest, profiles, q);
    forall x ensures x in options <==> x == r { AskingMembers(digest, profiles, q, x); }
    BindingOrder();
    hide Options, Asking, UniqueIds, ResolvedOf;
    AllEqual(options, r);
  }

  lemma AllEqual(s: seq<Resolved>, r: Resolved)
    requires Ascending(s, ResolvedBindingLess) && forall x :: x in s <==> x == r
    ensures s == [r]
  {
    AscendingIsDistinct(s);
    DistinctSize(s);
    assert (set x | x in s) == {r};
    hide Ascending, Distinct;
    assert |s| == 1 && s[0] in s;
  }

  lemma AscendingIsDistinct(s: seq<Resolved>)
    requires Ascending(s, ResolvedBindingLess)
    ensures Distinct(s)
  {
    forall i, j | 0 <= i < j < |s| ensures s[i] != s[j] { NotBeforeItself(s[i]); }
    hide ResolvedBindingLess;
  }

  lemma NotBeforeItself(r: Resolved)
    ensures !ResolvedBindingLess(r, r)
  {
    BindingOrder();
    hide BindingLess;
  }

  /** The disposition is decided by that profile alone. */
  lemma SelectedDecides(env: Env, intentDigest: Intent -> string, intent: Intent, c: Catalog, i: nat)
    requires Digesting(env, intentDigest) && intent.schema == INTENT_SCHEMA && c.Valid() && Selects(intent, c, i)
    ensures Compile(env, intentDigest, intent, c).Ok?
    ensures Compile(env, intentDigest, intent, c).value.disposition ==
      DispositionFor(intent.asOf, Cited(intent), ResolvedOf(env.profileDigest, c.profiles[i]))
  {
    hide Catalog.Valid, Compile, DispositionFor, ResolvedOf;
    CompileIsTotal(env, intentDigest, intent, c);
    match intent.selector
    case ByProfile(name) =>
      assert c.profiles[i].Answers(name);
      UniqueAnswer(c, name, i);
    case ByQuestion(q) =>
      assert UniqueIds(c.profiles) by { ValidIsUnique(c); }
      OnlyAskerIsOnlyOption(env.profileDigest, c.profiles, q, i);
      hide Options;
  }

  lemma UniqueAnswer(c: Catalog, name: string, i: nat)
    requires c.Valid() && i < |c.profiles| && c.profiles[i].Answers(name)
    ensures forall j :: 0 <= j < |c.profiles| && c.profiles[j].Answers(name) ==> j == i
  {
    hide Profile.Valid, Profile.Answers;
    forall j | 0 <= j < |c.profiles| && c.profiles[j].Answers(name) ensures j == i {
      assert c.profiles[i].profileId == c.profiles[j].profileId;
      assert UniqueIds(c.profiles);
    }
  }

  lemma CitedAgree(intent: Intent, p: Profile)
    ensures Cited(intent) <= IdSet(DeclaredTargets(Normalize(p))) <==> CitesOnlyDeclared(intent, p)
  {
    SameDeclared(p);
    var declared := DeclaredTargets(Normalize(p));
    hide Normalize, DeclaredTargets, Declares;
    forall id ensures id in IdSet(declared) <==> exists t :: Declares(p, t) && t.targetId == id {
      if t :| Declares(p, t) && t.targetId == id { assert t in declared; }
    }
    hide IdSet;
    assert forall id :: id in Cited(intent) <==> id in intent.targetIds;
  }

  lemma CitedTargets(intent: Intent, p: Profile)
    ensures forall t :: t in CitedOnly(DeclaredTargets(Normalize(p)), Cited(intent)) <==> Declares(p, t) && t.targetId in intent.targetIds
  {
    SameDeclared(p);
    var declared := DeclaredTargets(Normalize(p));
    hide Normalize, DeclaredTargets, Declares, CitedOnly;
    forall t ensures t in CitedOnly(declared, Cited(intent)) <==> Declares(p, t) && t.targetId in intent.targetIds {
      CitedOnlyMembers(declared, Cited(intent), t);
    }
  }

  /** Citing is compiled exactly when it is declared; otherwise the refusal says so. */
  lemma DispositionIsExact(env: Env, asOf: string, intent: Intent, p: Profile)
    requires p.Valid()
    ensures var d := DispositionFor(asOf, Cited(intent), ResolvedOf(env.profileDigest, p));
      && (d.Compiled? <==> CitesOnlyDeclared(intent, p))
      && (!CitesOnlyDeclared(intent, p) ==> d == Declined(TargetUndeclared, Operational))
      && (d.Compiled? ==>
            && d.profile == Binding(p.profileId, env.profileDigest(Normalize(p)))
            && d.plan.schema == "nq.inquiry_plan.v0" && d.plan.profile == p.profileId && d.plan.asOf == asOf
            && (forall t :: t in d.plan.targets <==> Declares(p, t) && t.targetId in intent.targetIds))
  {
    NormalizeIsCanonical(p);
    CitedAgree(intent, p);
    CitedTargets(intent, p);
    NothingCited(intent);
    var q := Normalize(p);
    assert ResolvedOf(env.profileDigest, p) == Resolved(q, env.profileDigest(q));
    hide Normalize, Profile.Valid, CitedOnly, DeclaredTargets, IdSet, CitesOnlyDeclared, Declares, ResolvedOf, DispositionFor, Cited;
    DispositionCases(asOf, Cited(intent), Resolved(q, env.profileDigest(q)));
  }

  lemma DispositionCases(asOf: string, cited: set<string>, r: Resolved)
    ensures var d, declared := DispositionFor(asOf, cited, r), DeclaredTargets(r.profile);
      && (d.Compiled? <==> cited <= IdSet(declared))
      && (!d.Compiled? ==> d == Declined(TargetUndeclared, Operational))
      && (d.Compiled? ==>
            && d.profile == Binding(r.profile.profileId, r.profileDigest)
            && d.plan.schema == "nq.inquiry_plan.v0" && d.plan.profile == r.profile.profileId && d.plan.asOf == asOf
            && d.plan.targets == if cited == {} then [] else CitedOnly(declared, cited))
  {
    var ids := IdSet(DeclaredTargets(r.profile));
    hide IdSet, DeclaredTargets, CitedOnly;
    assert cited - ids == {} <==> cited <= ids by {
      forall id | id in cited && cited - ids == {} ensures id in ids { assert id !in cited - ids; }
    }
  }

  lemma NothingCited(intent: Intent)
    ensures Cited(intent) == {} <==> intent.targetIds == []
  {
    assert intent.targetIds != [] ==> intent.targetIds[0] in Cited(intent);
  }

  lemma SameDeclared(p: Profile)
    ensures forall t :: t in DeclaredTargets(Normalize(p)) <==> Declares(p, t)
  {
    if p.tlsCert.Some? { SortedTargets(p.tlsCert.value.declaredTargets); }
    hide Sort, TargetLess, StrLess, RefusalLess;
  }

  /** An intent whose selector means one profile compiles iff it cites only targets that profile
      declares, and then into a plan for exactly those; otherwise it is refused for an undeclared target. */
  lemma CompilesExactlyWhenDeclared(env: Env, intentDigest: Intent -> string, intent: Intent, c: Catalog, i: nat)
    requires Digesting(env, intentDigest) && intent.schema == INTENT_SCHEMA && c.Valid() && Selects(intent, c, i)
    ensures Compile(env, intentDigest, intent, c).Ok?
    ensures var d, p := Compile(env, intentDigest, intent, c).value.disposition, c.profiles[i];
      && (d.Compiled? <==> CitesOnlyDeclared(intent, p))
      && (!CitesOnlyDeclared(intent, p) ==> d == Declined(TargetUndeclared, Operational))
      && (d.Compiled? ==>
            && d.profile == Binding(p.profileId, env.profileDigest(Normalize(p)))
            && d.plan.schema == "nq.inquiry_plan.v0" && d.plan.profile == p.profileId && d.plan.asOf == intent.asOf
            && (forall t :: t in d.plan.targets <==> Declares(p, t) && t.targetId in intent.targetIds))
  {
    SelectedDecides(env, intentDigest, intent, c, i);
    assert c.profiles[i].Valid();
    hide Compile, DispositionFor, ResolvedOf, Catalog.Valid, Selects, CitesOnlyDeclared, Declares, Digesting, Normalize;
    DispositionIsExact(env, intent.asOf, intent, c.profiles[i]);
  }

  // ---- no profile, or several ----

  /** A name no profile carries is a semantic refusal. */
  lemma UnknownNameIsRefused(env: Env, intentDigest: Intent -> string, intent: Intent, c: Catalog, name: string)
    requires Digesting(env, intentDigest) && intent.schema == INTENT_SCHEMA && c.Valid() && intent.selector == ByProfile(name)
    requires forall p :: p in c.profiles ==> p.profileId != name && name !in p.aliases
    ensures Compile(env, intentDigest, intent, c).Ok?
    ensures Compile(env, intentDigest, intent, c).value.disposition == Declined(SelectorUnresolved, Semantic)
  {
    hide Catalog.Valid, Compile, DispositionFor, ResolvedOf;
    CompileIsTotal(env, intentDigest, intent, c);
    assert !Known(c, name);
  }

  /** A question no profile asks is an operational refusal. */
  lemma UnaskedQuestionIsRefused(env: Env, intentDigest: Intent -> string, intent: Intent, c: Catalog, q: Question)
    requires Digesting(env, intentDigest) && intent.schema == INTENT_SCHEMA && c.Valid() && intent.selector == ByQuestion(q)
    requires forall p :: p in c.profiles ==> p.questionKind != q
    ensures Compile(env, intentDigest, intent, c).Ok?
    ensures Compile(env, intentDigest, intent, c).value.disposition == Declined(QuestionUnanswerable, Operational)
  {
    assert UniqueIds(c.profiles);
    hide Catalog.Valid, Compile, DispositionFor, ResolvedOf;
    CompileIsTotal(env, intentDigest, intent, c);
    var options := Options(env.profileDigest, c.profiles, q);
    OptionsAscend(env.profileDigest, c.profiles, q);
    hide Options, Asking;
    if options != [] { AskingMembers(env.profileDigest, c.profiles, q, options[0]); }
  }

  /** Some profile that asks the question has this binding. */
  ghost predicate Asks(digest: Profile -> string, profiles: seq<Profile>, q: Question, b: Binding) {
    exists k :: 0 <= k < |profiles| && profiles[k].questionKind == q && AsBinding(digest, profiles[k]) == b
  }

  function AsBinding(digest: Profile -> string, p: Profile): Binding {
    Binding(p.profileId, digest(Normalize(p)))
  }

  /** A question two profiles ask is never answered for the utterer: the bindings of all who ask are
      offered, each once. */
  lemma SharedQuestionAsksBack(env: Env, intentDigest: Intent -> string, intent: Intent, c: Catalog, q: Question, i: nat, j: nat)
    requires Digesting(env, intentDigest) && intent.schema == INTENT_SCHEMA && c.Valid() && intent.selector == ByQuestion(q)
    requires i < j < |c.profiles| && c.profiles[i].questionKind == q && c.profiles[j].questionKind == q
    ensures Compile(env, intentDigest, intent, c).Ok? && Compile(env, intentDigest, intent, c).value.disposition.Clarification?
    ensures var bs := Compile(env, intentDigest, intent, c).value.disposition.options;
      && Ascending(bs, BindingLess)
      && (forall b :: b in bs <==> Asks(env.profileDigest, c.profiles, q, b))
  {
    assert UniqueIds(c.profiles);
    assert c.profiles[i].profileId != c.profiles[j].profileId;
    hide Catalog.Valid, Compile, DispositionFor;
    CompileIsTotal(env, intentDigest, intent, c);
    var options := Options(env.profileDigest, c.profiles, q);
    TwoOptions(env.profileDigest, c.profiles, q, i, j);
    OptionsCanonical(env.profileDigest, c.profiles, q);
    forall b ensures b in BindingsOf(options) <==> Asks(env.profileDigest, c.profiles, q, b) {
      BindingMembers(env.profileDigest, c.profiles, q, b);
    }
    hide Options, BindingsOf, Asks, UniqueIds, Ascending, BindingLess;
  }

  lemma TwoOptions(digest: Profile -> string, profiles: seq<Profile>, q: Question, i: nat, j: nat)
    requires UniqueIds(profiles) && i < j < |profiles| && profiles[i].questionKind == q && profiles[j].questionKind == q
    ensures |Options(digest, profiles, q)| >= 2
  {
    var a, b := ResolvedOf(digest, profiles[i]), ResolvedOf(digest, profiles[j]);
    NormalizeIsCanonical(profiles[i]);
    NormalizeIsCanonical(profiles[j]);
    OptionsAscend(digest, profiles, q);
    AskingMembers(digest, profiles, q, a);
    AskingMembers(digest, profiles, q, b);
    assert a != b;
    hide Options, Asking, ResolvedOf;
    assert a in Options(digest, profiles, q) && b in Options(digest, profiles, q);
  }

  lemma BindingMembers(digest: Profile -> string, profiles: seq<Profile>, q: Question, b: Binding)
    requires UniqueIds(profiles)
    ensures b in BindingsOf(Options(digest, profiles, q)) <==> Asks(digest, profiles, q, b)
  {
    var options := Options(digest, profiles, q);
    OptionsAscend(digest, profiles, q);
    forall k | 0 <= k < |profiles|
      ensures BindingOf(ResolvedOf(digest, profiles[k])) == AsBinding(digest, profiles[k])
    {
      NormalizeIsCanonical(profiles[k]);
    }
    hide Options, Asking, AsBinding, ResolvedOf;
    if b in BindingsOf(options) {
      var m :| 0 <= m < |options| && BindingOf(options[m]) == b;
      AskingMembers(digest, profiles, q, options[m]);
    }
    if k :| 0 <= k < |profiles| && profiles[k].questionKind == q && AsBinding(digest, profiles[k]) == b {
      AskingMembers(digest, profiles, q, ResolvedOf(digest, profiles[k]));
      var m :| 0 <= m < |options| && options[m] == ResolvedOf(digest, profiles[k]);
      assert BindingsOf(options)[m] == b;
    }
  }

  /** A resolution records what was said, by whom, under the utterance's own digest. */
  lemma ResolutionRecordsIntent(env: Env, intentDigest: Intent -> string, intent: Intent, c: Catalog)
    requires Compile(env, intentDigest, intent, c).Ok?
    ensures var r := Compile(env, intentDigest, intent, c).value;
      && r.schema == "nq.inquiry_intent_resolution.v0" && r.intentDigest == intentDigest(intent)
      && r.composedBy == intent.composedBy && r.sourceText == intent.sourceText
    ensures intent.schema == "nq.inquiry_intent.v0" && c.Valid()
  {
    hide Catalog.Valid, Dispose, ResolutionValid;
  }

  /** Offered bindings are in order of profile id, then of digest. */
  lemma OptionsAscendById(bs: seq<Binding>)
    requires Ascending(bs, BindingLess)
    ensures forall i, j :: 0 <= i < j < |bs| ==>
      StrLess(bs[i].profileId, bs[j].profileId)
      || (bs[i].profileId == bs[j].profileId && StrLess(bs[i].profileDigest, bs[j].profileDigest))
  {
    hide StrLess;
    assert forall i, j :: 0 <= i < j < |bs| ==> BindingLess(bs[i], bs[j]);
  }

  /** What a valid resolution promises, whoever wrote it. */
  ghost predicate ResolutionLaw(r: IntentResolution) {
    && r.schema == "nq.inquiry_intent_resolution.v0" && IsSha256Digest(r.intentDigest)
    && (r.disposition.Compiled? ==>
          && r.disposition.plan.schema == "nq.inquiry_plan.v0"
          && r.disposition.plan.profile == r.disposition.profile.profileId
          && IsSha256Digest(r.disposition.profile.profileDigest))
    && (r.disposition.Clarification? ==>
          && |r.disposition.options| > 1 && Ascending(r.disposition.options, BindingLess)
          && forall b :: b in r.disposition.options ==> IsSha256Digest(b.profileDigest))
    && (r.disposition.Declined? ==>
          (r.disposition.family == Semantic <==> r.disposition.refusal == SelectorUnresolved))
  }

  lemma ResolutionsAreExact(r: IntentResolution)
    ensures ResolutionValid(r) <==> ResolutionLaw(r)
  {
    if r.disposition.Clarification? { CanonicalIsAscending(r.disposition.options); }
    hide IsSha256Digest, BindingLess, Sort, Dedup, Ascending;
  }

  /** A list equals its sorted, deduplicated form iff it strictly ascends. */
  lemma CanonicalIsAscending(bs: seq<Binding>)
    ensures Dedup(Sort(bs, BindingLess)) == bs <==> Ascending(bs, BindingLess)
  {
    BindingOrder();
    if Ascending(bs, BindingLess) { AscendingIsCanonical(bs); }
    hide BindingLess;
    SortSorts(bs, BindingLess);
    SeparatesAll(Sort(bs, BindingLess));
    DedupAscends(Sort(bs, BindingLess), BindingLess);
  }

  lemma SeparatesAll(bs: seq<Binding>)
    ensures Separates(bs, BindingLess)
  {
    BindingOrder();
    hide BindingLess;
  }
}
