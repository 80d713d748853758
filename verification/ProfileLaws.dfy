/** What a catalog author must write, and what normalization may touch (crates/nq-core/src/inquiry.rs,
    profile and catalog validation), said without the checks. */
module ProfileLaws {
  import opened Order
  import opened Text
  import opened InquiryTypes
  import opened Profiles
  import opened ProfileCatalog

  // ---- one profile ----

  /** No text of the list is blank, and none is repeated. */
  ghost predicate Texts(names: seq<string>) {
    (forall n :: n in names ==> !Blank(n)) && |set n | n in names| == |names|
  }

  /** A finding report: what to look at, how fresh, how much. */
  ghost predicate ReportProfile(p: Profile) {
    && p.questionKind == FindingOperationalActivity && p.tlsCert == None
    && (exists s :: p.selector == Some(s) && !Blank(s.host) && !Blank(s.kind))
    && (exists age :: p.maxSnapshotAgeSeconds == Some(age) && age > 0)
    && (exists limit :: p.evidenceLimit == Some(limit) && 0 < limit < 1001)
  }

  /** A survey of declared endpoints under serial deadlines that all fit the total. */
  ghost predicate SurveyProfile(p: Profile) {
    && p.questionKind == TlsCertificate && p.tlsCert.Some?
    && p.question == "what certificate did these declared endpoints present, and does it validate within the profile's expiry horizon?"
    && p.selector == None && p.maxSnapshotAgeSeconds == None && p.evidenceLimit == None
    && (exists r :: r in p.cannotTestify && r.kind == ConsequenceAuthority)
    && var tls := p.tlsCert.value;
       var n := |tls.declaredTargets|;
       && 0 < n <= tls.maxTargets < 33 && tls.maxConcurrency == 1
       && 99 < tls.perTargetDeadlineMs < 60_001
       && n * tls.perTargetDeadlineMs <= tls.totalDeadlineMs < 300_001
       && 0 < tls.expiryHorizonDays < 3_651 && !Blank(tls.vantage)
       && (forall t :: t in tls.declaredTargets ==> !Blank(t.targetId) && !Blank(t.host) && t.port > 0 && !Blank(t.sni))
       && |set t | t in tls.declaredTargets :: t.targetId| == n
  }

  /** Distinct non-blank texts; coverage and refusals are never empty. */
  ghost predicate ArraysLaw(p: Profile) {
    && Texts(p.aliases) && p.profileId !in p.aliases
    && Texts(p.coverage) && |p.coverage| > 0
    && (forall r :: r in p.cannotTestify ==> !Blank(r.statement))
    && |set r | r in p.cannotTestify| == |p.cannotTestify| > 0
  }

  ghost predicate ProfileLaw(p: Profile) {
    && p.schema == "nq.inquiry_profile.v0" && !Blank(p.profileId) && !Blank(p.question)
    && (ReportProfile(p) || SurveyProfile(p)) && ArraysLaw(p)
  }

  lemma {:induction false} DistinctByCount<T(!new)>(s: seq<T>)
    ensures |set x | x in s| <= |s|
    ensures Distinct(s) <==> |set x | x in s| == |s|
  {
    if s == [] {
    } else {
      var rest := s[1..];
      DistinctByCount(rest);
      assert s == [s[0]] + rest;
      assert (set x | x in s) == (set x | x in rest) + {s[0]};
      assert Distinct(s) <==> Distinct(rest) && s[0] !in rest by {
        if Distinct(s) {
          forall i, j | 0 <= i < j < |rest| ensures rest[i] != rest[j] { assert s[i + 1] != s[j + 1]; }
        }
        if Distinct(rest) && s[0] !in rest {
          forall i, j | 0 <= i < j < |s| ensures s[i] != s[j] {
            if i > 0 { assert rest[i - 1] != rest[j - 1]; } else { assert s[j] in rest; }
          }
        }
      }
    }
  }

  function Ids(targets: seq<Target>): seq<string> {
    seq(|targets|, i requires 0 <= i < |targets| => targets[i].targetId)
  }

  lemma IdsDistinct(targets: seq<Target>)
    ensures DistinctIds(targets) <==> Distinct(Ids(targets))
  {
    var ids := Ids(targets);
    assert forall i :: 0 <= i < |targets| ==> ids[i] == targets[i].targetId;
    if DistinctIds(targets) {
      forall i, j | 0 <= i < j < |ids| ensures ids[i] != ids[j] { assert targets[i].targetId != targets[j].targetId; }
    }
    if Distinct(ids) {
      forall i, j | 0 <= i < j < |targets| ensures targets[i].targetId != targets[j].targetId { assert ids[i] != ids[j]; }
    }
  }

  lemma IdsMembers(targets: seq<Target>)
    ensures (set x | x in Ids(targets)) == (set t | t in targets :: t.targetId)
  {
    forall x | x in Ids(targets) ensures x in (set t | t in targets :: t.targetId) {
      var i :| 0 <= i < |targets| && Ids(targets)[i] == x;
      assert targets[i] in targets;
    }
    forall t | t in targets ensures t.targetId in Ids(targets) {
      var i :| 0 <= i < |targets| && targets[i] == t;
      assert Ids(targets)[i] == t.targetId;
    }
  }

  lemma DistinctIdsByCount(targets: seq<Target>)
    ensures DistinctIds(targets) <==> |set t | t in targets :: t.targetId| == |targets|
  {
    DistinctByCount(Ids(targets));
    IdsMembers(targets);
    IdsDistinct(targets);
  }

  lemma TlsIsExact(tls: TlsProfile)
    ensures tls.Valid() <==>
      var n := |tls.declaredTargets|;
      && 0 < n <= tls.maxTargets < 33 && tls.maxConcurrency == 1
      && 99 < tls.perTargetDeadlineMs < 60_001
      && n * tls.perTargetDeadlineMs <= tls.totalDeadlineMs < 300_001
      && 0 < tls.expiryHorizonDays < 3_651 && !Blank(tls.vantage)
      && (forall t :: t in tls.declaredTargets ==> !Blank(t.targetId) && !Blank(t.host) && t.port > 0 && !Blank(t.sni))
      && |set t | t in tls.declaredTargets :: t.targetId| == n
  {
    DistinctIdsByCount(tls.declaredTargets);
    var n := |tls.declaredTargets|;
    assert tls.perTargetDeadlineMs * n == n * tls.perTargetDeadlineMs;
    if n > 0 && tls.perTargetDeadlineMs > 0 { AtLeast(n, tls.perTargetDeadlineMs); }
    hide DistinctIds, Blank;
  }

  lemma AtLeast(n: int, x: int)
    requires n > 0 && x > 0
    ensures n * x >= 1
  {}

  lemma ReportsAreExact(p: Profile)
    requires p.questionKind == FindingOperationalActivity
    ensures p.ReportValid() <==> ReportProfile(p)
  {
    hide Blank;
  }

  lemma SurveysAreExact(p: Profile)
    requires p.questionKind == TlsCertificate
    ensures p.SurveyValid() <==> SurveyProfile(p)
  {
    HasKindIsMembership(p.cannotTestify, ConsequenceAuthority);
    if p.tlsCert.Some? { TlsIsExact(p.tlsCert.value); }
    hide TlsProfile.Valid, Blank, HasKind;
  }

  lemma ArraysAreExact(p: Profile)
    ensures p.ArraysValid() <==> ArraysLaw(p)
  {
    DistinctByCount(p.aliases);
    DistinctByCount(p.coverage);
    DistinctByCount(p.cannotTestify);
    hide Distinct, Blank;
  }

  /** Validation accepts exactly the profiles an author is asked to write. */
  lemma ProfilesAreExact(p: Profile)
    ensures p.Valid() <==> ProfileLaw(p)
  {
    ArraysAreExact(p);
    if p.questionKind == FindingOperationalActivity { ReportsAreExact(p); } else { SurveysAreExact(p); }
    KindsExclude(p);
    hide Profile.ArraysValid, ArraysLaw, Profile.ReportValid, ReportProfile, Profile.SurveyValid, SurveyProfile, Blank;
  }

  lemma KindsExclude(p: Profile)
    ensures ReportProfile(p) ==> p.questionKind == FindingOperationalActivity
    ensures SurveyProfile(p) ==> p.questionKind == TlsCertificate
  {}

  // ---- a catalog ----

  /** Unique ids, and no name or alias claimed by two profiles. */
  ghost predicate NamesApart(p: Profile, q: Profile) {
    && p.profileId != q.profileId && p.profileId !in q.aliases && q.profileId !in p.aliases
    && forall a :: a in p.aliases ==> a !in q.aliases
  }

  ghost predicate CatalogLaw(c: Catalog) {
    && c.schema == "nq.inquiry_profile_catalog.v0" && |c.profiles| > 0
    && (forall p :: p in c.profiles ==> ProfileLaw(p))
    && forall i, j :: 0 <= i < j < |c.profiles| ==> NamesApart(c.profiles[i], c.profiles[j])
  }

  lemma ApartShareNothing(ps: seq<Profile>, i: nat, j: nat, name: string)
    requires i < j < |ps| && NamesApart(ps[i], ps[j])
    ensures !(ps[i].Answers(name) && ps[j].Answers(name))
  {}

  lemma NamesApartIsUnambiguous(ps: seq<Profile>)
    ensures UniqueIds(ps) && Unambiguous(ps) <==> forall i, j :: 0 <= i < j < |ps| ==> NamesApart(ps[i], ps[j])
  {
    if UniqueIds(ps) && Unambiguous(ps) {
      forall i, j | 0 <= i < j < |ps| ensures NamesApart(ps[i], ps[j]) {
        var p, q := ps[i], ps[j];
        assert p.profileId != q.profileId;
        assert p.Answers(p.profileId) && q.Answers(q.profileId);
        assert p.profileId !in q.aliases && q.profileId !in p.aliases;
        forall a | a in p.aliases ensures a !in q.aliases { assert p.Answers(a); }
      }
    }
    if forall i, j :: 0 <= i < j < |ps| ==> NamesApart(ps[i], ps[j]) {
      forall i, j, name | 0 <= i < |ps| && 0 <= j < |ps| && ps[i].Answers(name) && ps[j].Answers(name)
        ensures ps[i].profileId == ps[j].profileId
      {
        if i < j { ApartShareNothing(ps, i, j, name); }
        if j < i { ApartShareNothing(ps, j, i, name); }
      }
      forall i, j | 0 <= i < j < |ps| ensures ps[i].profileId != ps[j].profileId {
        assert NamesApart(ps[i], ps[j]);
      }
    }
  }

  lemma CatalogsAreExact(c: Catalog)
    ensures c.Valid() <==> CatalogLaw(c)
  {
    forall p: Profile ensures p.Valid() <==> ProfileLaw(p) { ProfilesAreExact(p); }
    NamesApartIsUnambiguous(c.profiles);
    hide Profile.Valid, ProfileLaw, NamesApart, UniqueIds, Unambiguous;
    assert (forall i :: 0 <= i < |c.profiles| ==> c.profiles[i].Valid()) <==> forall p :: p in c.profiles ==> p.Valid();
  }

  // ---- normalization ----

  /** Normalizing rearranges the four arrays and touches nothing else. */
  lemma NormalizeKeepsContents(p: Profile)
    ensures var q := Normalize(p);
      && q == p.(aliases := q.aliases, coverage := q.coverage, cannotTestify := q.cannotTestify, tlsCert := q.tlsCert)
      && multiset(q.aliases) == multiset(p.aliases) && multiset(q.coverage) == multiset(p.coverage)
      && multiset(q.cannotTestify) == multiset(p.cannotTestify)
      && (q.tlsCert.Some? <==> p.tlsCert.Some?)
      && (p.tlsCert.Some? ==>
            && q.tlsCert.value == p.tlsCert.value.(declaredTargets := q.tlsCert.value.declaredTargets)
            && multiset(q.tlsCert.value.declaredTargets) == multiset(p.tlsCert.value.declaredTargets))
  {
    StrOrder();
    RefusalOrder();
    TargetOrder();
    hide StrLess, RefusalLess, TargetLess;
    SortSorts(p.aliases, StrLess);
    SortSorts(p.coverage, StrLess);
    SortSorts(p.cannotTestify, RefusalLess);
    if p.tlsCert.Some? { SortSorts(p.tlsCert.value.declaredTargets, TargetLess); }
    hide Sort, Sorted;
  }

  /** A selector finds the profile that has it as its id or among its aliases. */
  lemma ResolutionIsByName(digest: Profile -> string, c: Catalog, selector: string, p: Profile)
    requires CatalogLaw(c) && !Blank(selector) && p in c.profiles && (p.profileId == selector || selector in p.aliases)
    ensures Resolve(digest, c, selector).Found?
    ensures var r := Resolve(digest, c, selector).resolved;
      r.profile == Normalize(p) && r.profileDigest == digest(Normalize(p))
  {
    CatalogsAreExact(c);
    var i :| 0 <= i < |c.profiles| && c.profiles[i] == p;
    assert p.Answers(selector);
    NormalizeIsCanonical(p);
    hide Normalize, Catalog.Valid, CatalogLaw, Profile.Answers, Resolve, Blank;
    ResolveIsExact(digest, c, selector);
  }

  lemma UnknownNamesResolveToNothing(digest: Profile -> string, c: Catalog, selector: string)
    requires CatalogLaw(c) && !Blank(selector)
    requires forall p :: p in c.profiles ==> p.profileId != selector && selector !in p.aliases
    ensures Resolve(digest, c, selector) == NotFound
  {
    CatalogsAreExact(c);
    assert forall i :: 0 <= i < |c.profiles| ==> !c.profiles[i].Answers(selector);
    hide Catalog.Valid, CatalogLaw, Profile.Answers, Resolve, Blank;
    ResolveIsExact(digest, c, selector);
  }
}
