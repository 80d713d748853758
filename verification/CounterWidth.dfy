/** When the 32-bit counters of the observation loop can overflow: the plan check compares `len() as u32`
    with the 32-target cap, so a truncated count can slip a huge plan past it. */
module CounterWidth {
  import opened Order
  import opened Text
  import opened InquiryTypes
  import opened Profiles
  import opened Admission
  import opened InquiryReceipt
  import opened ReceiptLaws

  /** Every running total fits its counter. */
  ghost predicate FitsCounters(t: Totals) {
    && t.dns < TWO_32 && t.connection < TWO_32 && t.attempted < TWO_32 && t.completed < TWO_32 && t.bound < TWO_32
    && t.wall < TWO_64 && t.work < TWO_64
  }

  /** The loop accepts the first `k - 1` observations and gets as far as adding the spend of the next. */
  ghost predicate ReachesAddition(parses: string -> bool, plan: WitnessPlan, cannotTestify: seq<Refusal>, os: seq<Observation>, k: nat) {
    && 0 < k <= |os|
    && ObservationsOk(parses, plan, cannotTestify, os[..k - 1])
    && AddableOk(parses, plan, os[k - 1])
    && forall j :: 0 <= j < k - 1 ==> os[j].target != os[k - 1].target
  }

  lemma AddedSpends(parses: string -> bool, plan: WitnessPlan, cannotTestify: seq<Refusal>, os: seq<Observation>, k: nat)
    requires ReachesAddition(parses, plan, cannotTestify, os, k)
    ensures SpendsOk(os[..k], plan.bounds.perTargetDeadlineMs)
  {
    hide Observation.ShapeOk;
    forall i | 0 <= i < k ensures TargetSpendOk(os[i].spend, plan.bounds.perTargetDeadlineMs) {
      if i < k - 1 { assert os[i] == os[..k - 1][i]; }
    }
  }

  lemma AcceptedIsAdded(parses: string -> bool, plan: WitnessPlan, cannotTestify: seq<Refusal>, os: seq<Observation>, k: nat)
    requires 0 < k <= |os| && ObservationsOk(parses, plan, cannotTestify, os[..k])
    ensures ReachesAddition(parses, plan, cannotTestify, os, k)
  {
    hide AddableOk;
    assert forall i :: 0 <= i < k ==> os[..k][i] == os[i];
    assert forall i :: 0 <= i < k - 1 ==> os[..k - 1][i] == os[i];
  }

  /** Sealing this receipt reaches the loop and overflows a counter by its `k`-th addition. */
  ghost predicate OverflowsAt(env: Env, r: Receipt, k: nat) {
    var c := Canonical(r).(digest := None);
    && Precheck(env, r) && r.head.request.questionKind == TlsCertificate
    && BeforeLoopOk(env, c)
    && ReachesAddition(env.parses, c.head.witnessPlan.value, c.cannotTestify, c.observations, k)
    && !FitsCounters(TotalsOf(c.observations[..k]))
  }

  ghost predicate SealOverflows(env: Env, r: Receipt) {
    exists k :: OverflowsAt(env, r, k)
  }

  /** The exact condition on the plan: a count that truncates to something else, and not to zero. */
  predicate CountSlipsThrough(w: WitnessPlan) {
    |w.targets| >= TWO_32 && Truncate32(|w.targets|) != 0
  }

  /** With an honest count the loop handles at most 32 observations and no counter can overflow. */
  lemma OverflowNeedsSlippedCount(env: Env, r: Receipt, k: nat)
    requires OverflowsAt(env, r, k)
    ensures r.head.witnessPlan.Some? && CountSlipsThrough(r.head.witnessPlan.value)
  {
    CanonicalSize(r);
    hide Canonical, HasKind, HasGrantRefusal, Request.DigestOk;
    var c := Canonical(r).(digest := None);
    var plan := c.head.witnessPlan.value;
    PlanCountIsSmall(env, plan);
    hide EnvelopeOk, Truncate32;
    var os := c.observations[..k];
    AddedSpends(env.parses, plan, c.cannotTestify, c.observations, k);
    hide ReachesAddition;
    TotalsBounded(os, plan.bounds.perTargetDeadlineMs);
    WallBounded(os, plan.bounds.perTargetDeadlineMs);
    hide TotalsOf;
  }

  // ---- and every such plan does admit an overflowing receipt ----

  const NOTE := Refusal(ResolutionFailed, "unresolved")
  const AUTHORITY := Refusal(ConsequenceAuthority, "no authority")
  const ONE_LOOKUP := Spend(1, 0, 0, 0, 0, 0, 1)

  function Unresolved(t: Target, acquiredAt: string): Observation {
    Observation(acquiredAt, t, None, None, None, [], None, None, NotAttempted, OutcomeResolutionFailed, ONE_LOOKUP, [NOTE])
  }

  function UnresolvedAll(targets: seq<Target>, acquiredAt: string): seq<Observation> {
    seq(|targets|, i requires 0 <= i < |targets| => Unresolved(targets[i], acquiredAt))
  }

  /** One failed lookup per planned target. */
  function LookupEach(request: Request, w: WitnessPlan, acquiredAt: string): Receipt {
    Receipt(Head(RECEIPT_SCHEMA, Refused, PerTargetOutcomes, request, None, None, [], NO_EVIDENCE, Some(w),
                 Some(ONE_LOOKUP), None, None, None, 1),
            [], [AUTHORITY, NOTE], UnresolvedAll(Sort(w.targets, TargetLess), acquiredAt), None)
  }

  lemma TotalsStep(os: seq<Observation>, k: nat)
    requires 0 < k <= |os|
    ensures TotalsOf(os[..k]).dns == TotalsOf(os[..k - 1]).dns + os[k - 1].spend.dnsAttempts
  {
    assert os[..k][..k - 1] == os[..k - 1];
  }

  lemma LookupEachSpends(targets: seq<Target>, acquiredAt: string, k: nat)
    requires k < |targets|
    ensures UnresolvedAll(targets, acquiredAt)[k].spend.dnsAttempts == 1
  {}

  lemma {:induction false} LookupEachTotals(targets: seq<Target>, acquiredAt: string, k: nat)
    requires k <= |targets|
    ensures TotalsOf(UnresolvedAll(targets, acquiredAt)[..k]).dns == k
  {
    var os := UnresolvedAll(targets, acquiredAt);
    if k == 0 {
    } else {
      assert k <= |os|;
      LookupEachTotals(targets, acquiredAt, k - 1);
      LookupEachSpends(targets, acquiredAt, k - 1);
      TotalsStep(os, k);
      hide UnresolvedAll, TotalsOf;
    }
  }

  lemma AscendingRefusalsCanonical(s: seq<Refusal>)
    requires Ascending(s, RefusalLess)
    ensures SortedRefusalSet(s) == s
  {
    RefusalOrder();
    hide RefusalLess;
    assert Sorted(s, RefusalLess);
    SortOfSorted(s, RefusalLess);
    DedupDistinct(s);
  }

  lemma LookupEachCanonical(request: Request, w: WitnessPlan, acquiredAt: string)
    ensures Canonical(LookupEach(request, w, acquiredAt)) == LookupEach(request, w, acquiredAt)
  {
    var f := LookupEach(request, w, acquiredAt);
    AscendingRefusalsCanonical([NOTE]);
    AscendingRefusalsCanonical([AUTHORITY, NOTE]);
    hide SortedRefusalSet, RefusalLess;
    assert CanonicalEach(f.observations) == f.observations;
    LookupEachIsSorted(w.targets, acquiredAt);
    SortOfSorted(f.observations, ObservationLess);
    assert Sort<string>([], StrLess) == [];
    hide UnresolvedAll, CanonicalEach, Sort, ObservationLess;
  }

  lemma LookupEachIsSorted(targets: seq<Target>, acquiredAt: string)
    ensures Sorted(UnresolvedAll(Sort(targets, TargetLess), acquiredAt), ObservationLess)
  {
    TargetOrder();
    SortSorts(targets, TargetLess);
    hide TargetLess, Sort;
    var s := Sort(targets, TargetLess);
    var os := UnresolvedAll(s, acquiredAt);
    forall i, j | 0 <= i < j < |os| ensures !ObservationLess(os[j], os[i]) {
      assert os[i].target == s[i] && os[j].target == s[j];
    }
  }

  predicate IsOneLookup(s: Spend) {
    && s.dnsAttempts == 1 && s.workUnits == 1
    && s.connectionAttempts == s.handshakesAttempted == s.handshakesCompleted == s.boundChecks == s.wallMs == 0
  }

  lemma OneLookupIsAllowed(s: Spend, b: Bounds, n: u32)
    requires IsOneLookup(s) && BoundsMatch(b, n) && n != 0
    ensures WithinCaps(s, b) && s.wallMs <= b.totalDeadlineMs
  {
    hide SaturatingMul;
  }

  lemma OneLookupIsCounted(s: Spend)
    requires IsOneLookup(s)
    ensures WorkIsCounted(s, 1)
  {}

  lemma OneLookupShape(parses: string -> bool, w: WitnessPlan, o: Observation)
    requires IsOneLookup(o.spend) && o.outcome == OutcomeResolutionFailed && o.observedIp.None?
    requires o.NoCertificateEvidence() && o.validation.NotAttempted? && o.refusals == [NOTE]
    requires parses(o.acquiredAt) && o.target in w.targets
    ensures ObservationOk(parses, w, [AUTHORITY, NOTE], o)
  {
    hide HasKind;
    KindsPresent();
    assert NOTE in [AUTHORITY, NOTE];
  }

  lemma UnresolvedOk(parses: string -> bool, w: WitnessPlan, t: Target, acquiredAt: string)
    requires parses(acquiredAt) && t in w.targets
    ensures ObservationOk(parses, w, [AUTHORITY, NOTE], Unresolved(t, acquiredAt))
  {
    hide ObservationOk;
    OneLookupShape(parses, w, Unresolved(t, acquiredAt));
  }

  lemma LookupEachObservationsOk(parses: string -> bool, w: WitnessPlan, acquiredAt: string, k: nat)
    requires parses(acquiredAt) && DistinctIds(w.targets) && k <= |w.targets|
    ensures |Sort(w.targets, TargetLess)| == |w.targets|
    ensures ObservationsOk(parses, w, [AUTHORITY, NOTE], UnresolvedAll(Sort(w.targets, TargetLess), acquiredAt)[..k])
  {
    SortedTargets(w.targets);
    hide TargetLess, Sort, ObservationOk;
    var targets := Sort(w.targets, TargetLess);
    var os := UnresolvedAll(targets, acquiredAt)[..k];
    forall i | 0 <= i < |os| ensures ObservationOk(parses, w, [AUTHORITY, NOTE], os[i]) {
      assert targets[i] in targets;
      UnresolvedOk(parses, w, targets[i], acquiredAt);
    }
    forall i, j | 0 <= i < j < |os| ensures os[i].target != os[j].target {
      assert os[i].target == targets[i] && os[j].target == targets[j];
    }
  }

  lemma KindsPresent()
    ensures HasKind([AUTHORITY, NOTE], ConsequenceAuthority) && HasKind([NOTE], ResolutionFailed)
  {
    assert [AUTHORITY, NOTE][0].kind == ConsequenceAuthority && [NOTE][0].kind == ResolutionFailed;
  }

  lemma LookupEachReachesLoop(env: Env, request: Request, w: WitnessPlan, acquiredAt: string)
    requires EnvelopeOk(env, w) && CountSlipsThrough(w)
    requires request.selector.None? && request.requestedTargets == request.admittedTargets == w.targets
    requires request.requestDigest == w.requestDigest
    ensures BeforeLoopOk(env, LookupEach(request, w, acquiredAt))
  {
    hide EnvelopeOk, Truncate32, BoundsMatch, Sort, TargetLess, HasKind, WorkIsCounted, WithinCaps, HasGrantRefusal;
    hide ValidTargets, DistinctIds, UnresolvedAll;
    PlanCountIsSmall(env, w);
    OneLookupIsCounted(ONE_LOOKUP);
    OneLookupIsAllowed(ONE_LOOKUP, w.bounds, Truncate32(|w.targets|));
    SortedTargets(w.targets);
    LookupEachLength(Sort(w.targets, TargetLess), acquiredAt);
    KindsPresent();
  }

  lemma LookupEachOverflows(env: Env, request: Request, w: WitnessPlan, acquiredAt: string)
    requires EnvelopeOk(env, w) && CountSlipsThrough(w) && request.DigestOk(env) && env.parses(acquiredAt)
    requires request.questionKind == TlsCertificate && request.selector.None?
    requires request.requestedTargets == request.admittedTargets == w.targets && request.requestDigest == w.requestDigest
    ensures OverflowsAt(env, LookupEach(request, w, acquiredAt), TWO_32)
  {
    hide EnvelopeHeaderOk, BeforeLoopOk, Canonical, Sort, TargetLess, ObservationsOk, UnresolvedAll, Request.DigestOk, TotalsOf, Truncate32;
    hide ValidTargets, DistinctIds;
    LookupEachCanonical(request, w, acquiredAt);
    LookupEachReachesLoop(env, request, w, acquiredAt);
    LookupEachObservationsOk(env.parses, w, acquiredAt, TWO_32);
    LookupEachTotals(Sort(w.targets, TargetLess), acquiredAt, TWO_32);
    var f := LookupEach(request, w, acquiredAt);
    assert f.(digest := None) == f;
    LookupEachLength(Sort(w.targets, TargetLess), acquiredAt);
    AcceptedIsAdded(env.parses, w, f.cannotTestify, f.observations, TWO_32);
    hide ReachesAddition;
  }

  lemma LookupEachLength(targets: seq<Target>, acquiredAt: string)
    ensures |UnresolvedAll(targets, acquiredAt)| == |targets|
  {}

  /** For a request and its verified plan, some receipt overflows a counter while being sealed if and
      only if the target count slips through the truncated comparison. */
  lemma OverflowExactlyWhenCountSlips(env: Env, request: Request, w: WitnessPlan, acquiredAt: string)
    requires EnvelopeOk(env, w) && request.DigestOk(env) && env.parses(acquiredAt)
    requires request.questionKind == TlsCertificate && request.selector.None?
    requires request.requestedTargets == request.admittedTargets == w.targets && request.requestDigest == w.requestDigest
    ensures (exists r: Receipt :: r.head.request == request && r.head.witnessPlan == Some(w) && SealOverflows(env, r))
            <==> CountSlipsThrough(w)
  {
    hide OverflowsAt, EnvelopeOk, Request.DigestOk, Truncate32, Sort, UnresolvedAll;
    forall r: Receipt | r.head.request == request && r.head.witnessPlan == Some(w) && SealOverflows(env, r)
      ensures CountSlipsThrough(w)
    {
      var k :| OverflowsAt(env, r, k);
      OverflowNeedsSlippedCount(env, r, k);
    }
    if CountSlipsThrough(w) { SlippedPlanOverflows(env, request, w, acquiredAt); }
  }

  // ---- the aggregate caps ----

  /** One observation per target, each within the per-target caps, and books that balance. */
  ghost predicate Balanced(plan: WitnessPlan, os: seq<Observation>, acquisition: Spend) {
    && |os| == |plan.targets| && SpendsOk(os, plan.bounds.perTargetDeadlineMs)
    && AccountingMatches(Summed(os), acquisition) && acquisition.workUnits == acquisition.CountedWorkUnits()
  }

  /** A lookup for the first `m` targets and nothing for the rest. */
  function FirstLookups(targets: seq<Target>, m: nat): seq<Observation> {
    seq(|targets|, i requires 0 <= i < |targets| =>
      Unresolved(targets[i], "").(spend := if i < m then ONE_LOOKUP else NO_SPEND))
  }

  function Lookups(n: u32): Spend { Spend(n, 0, 0, 0, 0, 0, n) }

  lemma AddLookup(n: u32, x: Spend)
    requires n <= 33 && (x == ONE_LOOKUP || x == NO_SPEND)
    ensures AddWrapping(Lookups(n), x) == Lookups(if x == ONE_LOOKUP then n + 1 else n)
  {
    SmallCount(n + 1);
    SmallCount(n);
    SmallCount(0);
    SmallCount64(n + 1);
    SmallCount64(n);
    SmallCount64(0);
    hide Truncate32, Truncate64;
  }

  lemma FirstLookupsSpend(targets: seq<Target>, m: nat, i: nat)
    requires i < |targets|
    ensures FirstLookups(targets, m)[i].spend == if i < m then ONE_LOOKUP else NO_SPEND
  {}

  lemma {:induction false} FirstLookupsSum(targets: seq<Target>, m: u32, k: nat)
    requires k <= |targets| && m <= 33
    ensures Summed(FirstLookups(targets, m)[..k]) == Lookups(if k < m then k else m)
  {
    var os := FirstLookups(targets, m);
    if k == 0 {
    } else {
      assert k <= |os|;
      hide Unresolved, Truncate32, Truncate64;
      FirstLookupsSum(targets, m, k - 1);
      FirstLookupsSpend(targets, m, k - 1);
      assert os[..k][..k - 1] == os[..k - 1] && os[..k][k - 1] == os[k - 1];
      hide FirstLookups, AddWrapping;
      AddLookup(if k - 1 < m then k - 1 else m, os[k - 1].spend);
    }
  }

  lemma FirstLookupsBalanced(plan: WitnessPlan, m: u32)
    requires m <= 33 && m <= |plan.targets|
    ensures Balanced(plan, FirstLookups(plan.targets, m), Lookups(m))
  {
    var os := FirstLookups(plan.targets, m);
    FirstLookupsSum(plan.targets, m, |plan.targets|);
    assert os[..|plan.targets|] == os;
    hide Summed, AccountingMatches, TargetSpendOk, Unresolved;
    forall i | 0 <= i < |os| ensures TargetSpendOk(os[i].spend, plan.bounds.perTargetDeadlineMs) {
      FirstLookupsSpend(plan.targets, m, i);
      SpendIsAllowed(os[i].spend, plan.bounds.perTargetDeadlineMs);
    }
    hide FirstLookups;
    LookupsMatch(m);
  }

  lemma SpendIsAllowed(s: Spend, perTarget: u64)
    requires IsOneLookup(s) || s == NO_SPEND
    ensures TargetSpendOk(s, perTarget)
  {}

  lemma LookupsMatch(m: u32)
    ensures AccountingMatches(Lookups(m), Lookups(m)) && Lookups(m).workUnits == Lookups(m).CountedWorkUnits()
  {}

  /** On verified plans the aggregate caps follow from balanced books if and only if the truncated
      count is the real one. */
  lemma CapsFollowExactlyWhenCountFits(env: Env, plan: WitnessPlan)
    requires EnvelopeOk(env, plan)
    ensures (forall os, acquisition :: Balanced(plan, os, acquisition) ==> WithinCaps(acquisition, plan.bounds))
            <==> |plan.targets| < TWO_32
  {
    hide Summed, AccountingMatches, SpendsOk, WithinCaps;
    if |plan.targets| < TWO_32 {
      forall os, acquisition | Balanced(plan, os, acquisition) ensures WithinCaps(acquisition, plan.bounds) {
        CapsFollow(env, plan, os, acquisition);
      }
    } else {
      PlanCountIsSmall(env, plan);
      var m := Truncate32(|plan.targets|) + 1;
      FirstLookupsBalanced(plan, m);
      MoreThanCap(plan.bounds, m);
    }
  }

  lemma MoreThanCap(b: Bounds, m: u32)
    requires b.maxDnsAttempts < m
    ensures !WithinCaps(Lookups(m), b)
  {}

  // ---- such plans exist ----

  /** Words of `len` letters, one for each number below `16^len`. */
  function Word(n: nat, len: nat): (s: string)
    ensures |s| == len
  {
    if len == 0 then "" else Word(n / 16, len - 1) + [LETTERS[n % 16]]
  }

  const LETTERS := "abcdefghijklmnop"

  function WordCount(len: nat): nat {
    if len == 0 then 1 else 16 * WordCount(len - 1)
  }

  lemma LettersDiffer(i: nat, j: nat)
    requires i < 16 && j < 16 && LETTERS[i] == LETTERS[j]
    ensures i == j
  {}

  lemma {:induction false} WordsDiffer(m: nat, n: nat, len: nat)
    requires m < WordCount(len) && n < WordCount(len) && Word(m, len) == Word(n, len)
    ensures m == n
  {
    if len == 0 {
    } else {
      var a, b := Word(m, len), Word(n, len);
      assert a[..len - 1] == Word(m / 16, len - 1) && b[..len - 1] == Word(n / 16, len - 1);
      assert a[len - 1] == LETTERS[m % 16] && b[len - 1] == LETTERS[n % 16];
      LettersDiffer(m % 16, n % 16);
      WordsDiffer(m / 16, n / 16, len - 1);
    }
  }

  lemma NineLettersSuffice()
    ensures TWO_32 + 1 <= WordCount(9)
  {
    assert WordCount(3) == 0x1000;
    assert WordCount(6) == 0x100_0000;
    assert WordCount(9) == 0x10_0000_0000;
  }

  /** Targets told apart by ids of nine letters. */
  function ManyTargets(n: nat): seq<Target> {
    seq(n, i requires 0 <= i < n => Target(Word(i, 9), "host", 443, "sni"))
  }

  const HUGE_BOUNDS := Bounds(1, 1, 100, 100, 1, 1, 1, 1, 4, 0, 0, 0, 0, 0)

  lemma NotBlank(s: string)
    requires s != "" && !IsWhiteSpace(s[0])
    ensures !Blank(s)
  {
    assert s[0] in s;
  }

  lemma ManyTargetsAreValid(n: nat)
    requires n <= WordCount(9)
    ensures ValidTargets(ManyTargets(n)) && DistinctIds(ManyTargets(n))
  {
    var targets := ManyTargets(n);
    forall t | t in targets ensures t.Valid() {
      var i :| 0 <= i < |targets| && targets[i] == t;
      WordIsNotBlank(i, 9);
      NotBlank(t.host);
      NotBlank(t.sni);
    }
    forall i, j | 0 <= i < j < n ensures targets[i].targetId != targets[j].targetId {
      if Word(i, 9) == Word(j, 9) { WordsDiffer(i, j, 9); }
    }
  }

  lemma WordIsNotBlank(n: nat, len: nat)
    requires len > 0
    ensures !Blank(Word(n, len))
  {
    assert Word(n, len)[len - 1] == LETTERS[n % 16];
    assert LETTERS[n % 16] in Word(n, len);
  }

  lemma HugePlanPassesEnvelope(env: Env, requestDigest: string) returns (w: WitnessPlan)
    ensures EnvelopeOk(env, w) && CountSlipsThrough(w) && w.targets == ManyTargets(TWO_32 + 1) && w.requestDigest == requestDigest
  {
    var targets := ManyTargets(TWO_32 + 1);
    var blank := WitnessPlan(WITNESS_PLAN_SCHEMA, requestDigest, TlsCertProbe, targets, 30, "here", HUGE_BOUNDS, "");
    w := blank.(witnessPlanDigest := env.planDigest(blank));
    assert w.Material() == blank;
    NineLettersSuffice();
    ManyTargetsAreValid(TWO_32 + 1);
    assert Truncate32(|targets|) == 1;
    NotBlank("here");
    hide ManyTargets, ValidTargets, DistinctIds, Blank;
  }

  lemma RequestFor(env: Env, asOf: string, targets: seq<Target>) returns (request: Request)
    requires env.parses(asOf)
    ensures request.DigestOk(env) && request.questionKind == TlsCertificate && request.selector.None?
    ensures request.requestedTargets == request.admittedTargets == targets
  {
    request := SealRequest(env, Request(REQUEST_SCHEMA, Binding("profile", "digest"), TlsCertificate, "question", None,
                                        asOf, targets, targets, ""));
    assert request.Material() == request.(requestDigest := "");
  }

  lemma SlippedPlanOverflows(env: Env, request: Request, w: WitnessPlan, acquiredAt: string)
    requires EnvelopeOk(env, w) && CountSlipsThrough(w) && request.DigestOk(env) && env.parses(acquiredAt)
    requires request.questionKind == TlsCertificate && request.selector.None?
    requires request.requestedTargets == request.admittedTargets == w.targets && request.requestDigest == w.requestDigest
    ensures var r := LookupEach(request, w, acquiredAt);
      SealOverflows(env, r) && |r.observations| == |w.targets| && r.head.request == request && r.head.witnessPlan == Some(w)
  {
    hide EnvelopeOk, Truncate32, Request.DigestOk, OverflowsAt, UnresolvedAll, Sort;
    LookupEachOverflows(env, request, w, acquiredAt);
    LookupEachLength(Sort(w.targets, TargetLess), acquiredAt);
    SortedTargets(w.targets);
  }

  /** An outright overflow: 2^32 + 1 targets, one failed lookup each, whatever the digests are. */
  lemma HugeReceiptOverflows(env: Env, acquiredAt: string) returns (r: Receipt)
    requires env.parses(acquiredAt)
    ensures SealOverflows(env, r) && |r.observations| == TWO_32 + 1
  {
    hide EnvelopeOk, CountSlipsThrough, SealOverflows, Request.DigestOk, LookupEach;
    var targets := ManyTargets(TWO_32 + 1);
    assert |targets| == TWO_32 + 1;
    hide ManyTargets;
    var request := RequestFor(env, acquiredAt, targets);
    var w := HugePlanPassesEnvelope(env, request.requestDigest);
    SlippedPlanOverflows(env, request, w, acquiredAt);
    r := LookupEach(request, w, acquiredAt);
  }
}
