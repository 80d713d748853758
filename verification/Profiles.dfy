/** Inquiry profiles and the profile catalog: validation, normalization, resolution
    (crates/nq-core/src/inquiry.rs, 240-662). */
module Profiles {
  import opened Order
  import opened Text
  import opened InquiryTypes

  const PROFILE_SCHEMA := "nq.inquiry_profile.v0"
  const CATALOG_SCHEMA := "nq.inquiry_profile_catalog.v0"
  const TLS_QUESTION :=
    "what certificate did these declared endpoints present, and does it validate within the profile's expiry horizon?"

  datatype Question = FindingOperationalActivity | TlsCertificate

  datatype RefusalKind =
    | RootCause | FutureState | ConsequenceAuthority | EvidenceAbsent | EvidenceNotCurrent | EvidenceSuppressed
    | EvidenceNotAuthenticallyObserved | SnapshotUnavailable | SnapshotUnsealed | SnapshotIncomplete
    | SnapshotAfterAsOf | SnapshotTooOld | AcquisitionBoundCannotBeHonored | ResolutionFailed | ConnectionFailed
    | TlsHandshakeFailed | GrantRequired | GrantMalformed | GrantScopeInsufficient | GrantDepthInsufficient
    | GrantAcquisitionEnvelopeInsufficient | GrantWitnessClassNotPermitted | GrantNotApplicableToPassiveInquiry

  const KINDS := [
    RootCause, FutureState, ConsequenceAuthority, EvidenceAbsent, EvidenceNotCurrent, EvidenceSuppressed,
    EvidenceNotAuthenticallyObserved, SnapshotUnavailable, SnapshotUnsealed, SnapshotIncomplete,
    SnapshotAfterAsOf, SnapshotTooOld, AcquisitionBoundCannotBeHonored, ResolutionFailed, ConnectionFailed,
    TlsHandshakeFailed, GrantRequired, GrantMalformed, GrantScopeInsufficient, GrantDepthInsufficient,
    GrantAcquisitionEnvelopeInsufficient, GrantWitnessClassNotPermitted, GrantNotApplicableToPassiveInquiry]

  /** Declaration order of the kinds. */
  function Ordinal(k: RefusalKind): (n: nat)
    ensures n < |KINDS| && KINDS[n] == k
  {
    match k
    case RootCause => 0
    case FutureState => 1
    case ConsequenceAuthority => 2
    case EvidenceAbsent => 3
    case EvidenceNotCurrent => 4
    case EvidenceSuppressed => 5
    case EvidenceNotAuthenticallyObserved => 6
    case SnapshotUnavailable => 7
    case SnapshotUnsealed => 8
    case SnapshotIncomplete => 9
    case SnapshotAfterAsOf => 10
    case SnapshotTooOld => 11
    case AcquisitionBoundCannotBeHonored => 12
    case ResolutionFailed => 13
    case ConnectionFailed => 14
    case TlsHandshakeFailed => 15
    case GrantRequired => 16
    case GrantMalformed => 17
    case GrantScopeInsufficient => 18
    case GrantDepthInsufficient => 19
    case GrantAcquisitionEnvelopeInsufficient => 20
    case GrantWitnessClassNotPermitted => 21
    case GrantNotApplicableToPassiveInquiry => 22
  }

  datatype Refusal = Refusal(kind: RefusalKind, statement: string)

  predicate RefusalLess(a: Refusal, b: Refusal) {
    Ordinal(a.kind) < Ordinal(b.kind) || (a.kind == b.kind && StrLess(a.statement, b.statement))
  }

  lemma RefusalOrder()
    ensures StrictTotal(RefusalLess) && StrictWeak(RefusalLess)
  {
    StrOrder();
    hide StrLess, Ordinal;
    forall a: Refusal, b: Refusal ensures a == b || RefusalLess(a, b) || RefusalLess(b, a) {
      assert KINDS[Ordinal(a.kind)] == a.kind && KINDS[Ordinal(b.kind)] == b.kind;
    }
    TotalIsWeak(RefusalLess);
  }

  datatype Selector = Selector(host: string, kind: string, subject: string)

  /** Content-addressed active acquisition policy; its targets are an allow-list. */
  datatype TlsProfile = TlsProfile(
    collector: Collector,
    declaredTargets: seq<Target>,
    maxTargets: u32,
    maxConcurrency: u32,
    perTargetDeadlineMs: u64,
    totalDeadlineMs: u64,
    expiryHorizonDays: u32,
    vantage: string)
  {
    /** The checks before the target loop. */
    predicate BoundsValid() {
      && declaredTargets != []
      && 1 <= maxTargets <= 32
      && |declaredTargets| <= maxTargets
      && maxConcurrency == 1
      && 100 <= perTargetDeadlineMs <= 60_000
      && 1 <= totalDeadlineMs <= 300_000
      && perTargetDeadlineMs * |declaredTargets| < TWO_64
      && totalDeadlineMs >= perTargetDeadlineMs * |declaredTargets|
      && 1 <= expiryHorizonDays <= 3_650
      && !Blank(vantage)
    }

    ghost predicate Valid() {
      BoundsValid() && ValidTargets(declaredTargets) && DistinctIds(declaredTargets)
    }
  }

  datatype Profile = Profile(
    schema: string,
    profileId: string,
    aliases: seq<string>,
    questionKind: Question,
    question: string,
    selector: Option<Selector>,
    maxSnapshotAgeSeconds: Option<u64>,
    evidenceLimit: Option<u32>,
    tlsCert: Option<TlsProfile>,
    coverage: seq<string>,
    cannotTestify: seq<Refusal>)
  {
    predicate HeaderValid() {
      schema == PROFILE_SCHEMA && !Blank(profileId) && !Blank(question)
    }

    predicate ReportValid() {
      && selector.Some? && !Blank(selector.value.host) && !Blank(selector.value.kind)
      && maxSnapshotAgeSeconds.Some? && maxSnapshotAgeSeconds.value != 0
      && evidenceLimit.Some? && 1 <= evidenceLimit.value <= 1_000
      && tlsCert.None?
    }

    ghost predicate SurveyValid() {
      && question == TLS_QUESTION
      && selector.None? && maxSnapshotAgeSeconds.None? && evidenceLimit.None?
      && tlsCert.Some? && tlsCert.value.Valid()
      && HasKind(cannotTestify, ConsequenceAuthority)
    }

    ghost predicate ArraysValid() {
      && coverage != [] && cannotTestify != []
      && (forall a :: a in aliases ==> !Blank(a) && a != profileId) && Distinct(aliases)
      && (forall c :: c in coverage ==> !Blank(c)) && Distinct(coverage)
      && (forall r :: r in cannotTestify ==> !Blank(r.statement)) && Distinct(cannotTestify)
    }

    ghost predicate Valid() {
      && HeaderValid()
      && (if questionKind == FindingOperationalActivity then ReportValid() else SurveyValid())
      && ArraysValid()
    }

    /** A selector names this profile: by canonical id or by alias. */
    predicate Answers(name: string) {
      profileId == name || name in aliases
    }
  }

  predicate HasKind(refusals: seq<Refusal>, kind: RefusalKind) {
    exists i :: 0 <= i < |refusals| && refusals[i].kind == kind
  }

  // ---- validation loops ----

  method CheckNames(names: seq<string>, banned: Option<string>) returns (ok: bool)
    ensures ok <==> (forall n :: n in names ==> !Blank(n) && Some(n) != banned) && Distinct(names)
  {
    hide Blank;
    var seen: set<string> := {};
    for i := 0 to |names|
      invariant forall j :: 0 <= j < i ==> !Blank(names[j]) && Some(names[j]) != banned
      invariant forall n :: n in seen <==> n in names[..i]
      invariant forall j, k :: 0 <= j < k < i ==> names[j] != names[k]
    {
      if Blank(names[i]) || Some(names[i]) == banned {
        assert names[i] in names;
        return false;
      }
      if names[i] in seen {
        var j :| 0 <= j < i && names[j] == names[i];
        return false;
      }
      seen := seen + {names[i]};
    }
    ok := true;
  }

  method CheckRefusals(refusals: seq<Refusal>) returns (ok: bool)
    ensures ok <==> (forall r :: r in refusals ==> !Blank(r.statement)) && Distinct(refusals)
  {
    hide Blank;
    var seen: set<Refusal> := {};
    for i := 0 to |refusals|
      invariant forall j :: 0 <= j < i ==> !Blank(refusals[j].statement)
      invariant forall r :: r in seen <==> r in refusals[..i]
      invariant forall j, k :: 0 <= j < k < i ==> refusals[j] != refusals[k]
    {
      if Blank(refusals[i].statement) {
        assert refusals[i] in refusals;
        return false;
      }
      if refusals[i] in seen {
        var j :| 0 <= j < i && refusals[j] == refusals[i];
        return false;
      }
      seen := seen + {refusals[i]};
    }
    ok := true;
  }

  method ValidateProfile(p: Profile) returns (ok: bool)
    ensures ok <==> p.Valid()
  {
    hide Blank, ValidTargets, DistinctIds;
    if !p.HeaderValid() {
      return false;
    }
    if p.questionKind == FindingOperationalActivity {
      if !p.ReportValid() {
        return false;
      }
    } else {
      if p.question != TLS_QUESTION || p.selector.Some? || p.maxSnapshotAgeSeconds.Some? || p.evidenceLimit.Some?
         || p.tlsCert.None? || !p.tlsCert.value.BoundsValid()
      {
        return false;
      }
      var targetsOk := CheckTargets(p.tlsCert.value.declaredTargets);
      if !targetsOk || !HasKind(p.cannotTestify, ConsequenceAuthority) {
        return false;
      }
    }
    if p.coverage == [] || p.cannotTestify == [] {
      return false;
    }
    var aliasesOk := CheckNames(p.aliases, Some(p.profileId));
    var coverageOk := CheckNames(p.coverage, None);
    var refusalsOk := CheckRefusals(p.cannotTestify);
    ok := aliasesOk && coverageOk && refusalsOk;
  }

  // ---- normalization ----

  /** Sorting every array makes the digest blind to the order they were written in. */
  function Normalize(p: Profile): Profile {
    p.(aliases := Sort(p.aliases, StrLess),
       coverage := Sort(p.coverage, StrLess),
       cannotTestify := Sort(p.cannotTestify, RefusalLess),
       tlsCert := match p.tlsCert
                  case Some(tls) => Some(tls.(declaredTargets := Sort(tls.declaredTargets, TargetLess)))
                  case None => None)
  }

  lemma {:induction false} SortKeepsDistinct<T(!new)>(s: seq<T>, less: (T, T) -> bool)
    requires StrictWeak(less)
    ensures Distinct(s) <==> Distinct(Sort(s, less))
  {
    SortSorts(s, less);
    DistinctIsMultiset(s);
    DistinctIsMultiset(Sort(s, less));
  }

  lemma {:induction false} DistinctIdsIffMultiset(s: seq<Target>)
    ensures DistinctIds(s) <==> Distinct(s) && forall t, t' :: t in s && t' in s && t.targetId == t'.targetId ==> t == t'
  {
    if DistinctIds(s) {
      forall t, t' | t in s && t' in s && t.targetId == t'.targetId ensures t == t' {
        var i :| 0 <= i < |s| && s[i] == t;
        var j :| 0 <= j < |s| && s[j] == t';
      }
    }
  }

  /** Sorting neither adds nor removes targets, so target checks see through it. */
  lemma SortedTargets(s: seq<Target>)
    ensures |Sort(s, TargetLess)| == |s|
    ensures forall t :: t in Sort(s, TargetLess) <==> t in s
    ensures ValidTargets(Sort(s, TargetLess)) <==> ValidTargets(s)
    ensures DistinctIds(Sort(s, TargetLess)) <==> DistinctIds(s)
    ensures Sort(Sort(s, TargetLess), TargetLess) == Sort(s, TargetLess)
  {
    TargetOrder();
    hide TargetLess;
    SortSorts(s, TargetLess);
    SortKeepsDistinct(s, TargetLess);
    DistinctIdsIffMultiset(s);
    DistinctIdsIffMultiset(Sort(s, TargetLess));
    SortIdempotent(s, TargetLess);
  }

  lemma SortedStrings(s: seq<string>)
    ensures |Sort(s, StrLess)| == |s|
    ensures forall x :: x in Sort(s, StrLess) <==> x in s
    ensures Distinct(Sort(s, StrLess)) <==> Distinct(s)
    ensures Sort(Sort(s, StrLess), StrLess) == Sort(s, StrLess)
  {
    StrOrder();
    hide StrLess;
    SortSorts(s, StrLess);
    SortKeepsDistinct(s, StrLess);
    SortIdempotent(s, StrLess);
  }

  lemma SortedRefusals(s: seq<Refusal>)
    ensures |Sort(s, RefusalLess)| == |s|
    ensures forall x :: x in Sort(s, RefusalLess) <==> x in s
    ensures Distinct(Sort(s, RefusalLess)) <==> Distinct(s)
    ensures Sort(Sort(s, RefusalLess), RefusalLess) == Sort(s, RefusalLess)
    ensures HasKind(Sort(s, RefusalLess), ConsequenceAuthority) <==> HasKind(s, ConsequenceAuthority)
  {
    RefusalOrder();
    hide RefusalLess;
    SortSorts(s, RefusalLess);
    SortKeepsDistinct(s, RefusalLess);
    SortIdempotent(s, RefusalLess);
    HasKindIsMembership(s, ConsequenceAuthority);
    HasKindIsMembership(Sort(s, RefusalLess), ConsequenceAuthority);
  }

  lemma HasKindIsMembership(s: seq<Refusal>, kind: RefusalKind)
    ensures HasKind(s, kind) <==> exists r :: r in s && r.kind == kind
  {
    if r :| r in s && r.kind == kind {
      var i :| 0 <= i < |s| && s[i] == r;
    }
    if HasKind(s, kind) {
      var i :| 0 <= i < |s| && s[i].kind == kind;
      assert s[i] in s;
    }
  }

  /** Normalizing is idempotent and changes neither validity nor the names a profile answers to. */
  lemma NormalizeIsCanonical(p: Profile)
    ensures Normalize(Normalize(p)) == Normalize(p)
    ensures Normalize(p).Valid() <==> p.Valid()
    ensures forall name :: Normalize(p).Answers(name) <==> p.Answers(name)
    ensures Normalize(p).profileId == p.profileId && Normalize(p).questionKind == p.questionKind
  {
    hide StrLess, RefusalLess, TargetLess, Sort, Distinct, DistinctIds, ValidTargets, Blank, HasKind;
    SortedStrings(p.aliases);
    SortedStrings(p.coverage);
    SortedRefusals(p.cannotTestify);
    if p.tlsCert.Some? { SortedTargets(p.tlsCert.value.declaredTargets); }
    assert p.coverage == [] <==> Normalize(p).coverage == [];
    assert p.cannotTestify == [] <==> Normalize(p).cannotTestify == [];
  }

  /** Profiles that differ only in the order of their arrays. */
  ghost predicate SameUpToArrayOrder(p: Profile, q: Profile) {
    && multiset(p.aliases) == multiset(q.aliases)
    && multiset(p.coverage) == multiset(q.coverage)
    && multiset(p.cannotTestify) == multiset(q.cannotTestify)
    && (p.tlsCert.Some? <==> q.tlsCert.Some?)
    && (p.tlsCert.Some? ==>
          && multiset(p.tlsCert.value.declaredTargets) == multiset(q.tlsCert.value.declaredTargets)
          && p.tlsCert.value == q.tlsCert.value.(declaredTargets := p.tlsCert.value.declaredTargets))
    && p == q.(aliases := p.aliases, coverage := p.coverage, cannotTestify := p.cannotTestify, tlsCert := p.tlsCert)
  }

  lemma ArrayOrderIsInvisible(p: Profile, q: Profile)
    requires SameUpToArrayOrder(p, q)
    ensures Normalize(p) == Normalize(q)
  {
    StrOrder();
    RefusalOrder();
    TargetOrder();
    hide StrLess, RefusalLess, TargetLess, Sort;
    SortCanonical(p.aliases, q.aliases, StrLess);
    SortCanonical(p.coverage, q.coverage, StrLess);
    SortCanonical(p.cannotTestify, q.cannotTestify, RefusalLess);
    if p.tlsCert.Some? {
      SortCanonical(p.tlsCert.value.declaredTargets, q.tlsCert.value.declaredTargets, TargetLess);
    }
  }
}
