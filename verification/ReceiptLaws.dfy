/** What sealing guarantees: canonical form, exact accounting, and the limits of the 32-bit counters. */
module ReceiptLaws {
  import opened Order
  import opened InquiryTypes
  import opened Profiles
  import opened ProfileCatalog
  import opened Admission
  import opened InquiryReceipt
  import Ratchet

  // ---- canonical form ----

  lemma ObservationOrder()
    ensures StrictWeak(ObservationLess)
  {
    TargetOrder();
    hide TargetLess;
  }

  lemma SortedRefusalSetCanonical(a: seq<Refusal>, b: seq<Refusal>)
    requires forall x :: x in a <==> x in b
    ensures SortedRefusalSet(a) == SortedRefusalSet(b)
  {
    RefusalOrder();
    hide RefusalLess;
    SortDedupCanonical(a, b, RefusalLess);
  }

  lemma SortedRefusalSetMembers(a: seq<Refusal>)
    ensures forall x :: x in SortedRefusalSet(a) <==> x in a
    ensures SortedRefusalSet(SortedRefusalSet(a)) == SortedRefusalSet(a)
  {
    RefusalOrder();
    hide RefusalLess;
    SortSorts(a, RefusalLess);
    DedupAscends(Sort(a, RefusalLess), RefusalLess);
    SortedRefusalSetCanonical(a, SortedRefusalSet(a));
  }

  lemma CanonicalObservationIdempotent(o: Observation)
    ensures CanonicalObservation(CanonicalObservation(o)) == CanonicalObservation(o)
  {
    SortedRefusalSetMembers(o.refusals);
  }

  lemma CanonicalEachOfSorted(os: seq<Observation>)
    ensures CanonicalEach(Sort(CanonicalEach(os), ObservationLess)) == Sort(CanonicalEach(os), ObservationLess)
  {
    ObservationOrder();
    hide ObservationLess, SortedRefusalSet;
    var s := Sort(CanonicalEach(os), ObservationLess);
    SortSorts(CanonicalEach(os), ObservationLess);
    forall i | 0 <= i < |s| ensures CanonicalObservation(s[i]) == s[i] {
      assert s[i] in CanonicalEach(os);
      var k :| 0 <= k < |os| && CanonicalObservation(os[k]) == s[i];
      CanonicalObservationIdempotent(os[k]);
    }
  }

  lemma CanonicalIdempotent(r: Receipt)
    ensures Canonical(Canonical(r)) == Canonical(r)
  {
    StrOrder();
    ObservationOrder();
    SortedRefusalSetMembers(r.cannotTestify);
    CanonicalEachOfSorted(r.observations);
    hide StrLess, ObservationLess, SortedRefusalSet, CanonicalEach, Sort;
    SortIdempotent(r.coverage, StrLess);
    SortIdempotent(CanonicalEach(r.observations), ObservationLess);
  }

  /** Sealing again after a successful seal succeeds and changes nothing. */
  lemma SealIsIdempotent(env: Env, hash: Receipt -> string, r: Receipt)
    requires Seals(env, r)
    ensures Seals(env, AfterSeal(env, hash, r))
    ensures AfterSeal(env, hash, AfterSeal(env, hash, r)) == AfterSeal(env, hash, r)
  {
    var s := AfterSeal(env, hash, r);
    CanonicalIdempotent(r);
    CanonicalIgnoresDigest(r, None);
    CanonicalIgnoresDigest(Canonical(r), s.digest);
    hide Canonical, EnvelopeHolds, Request.DigestOk;
    assert Canonical(s) == s;
  }

  lemma CanonicalIgnoresDigest(r: Receipt, d: Option<string>)
    ensures Canonical(r.(digest := d)) == Canonical(r).(digest := d)
    ensures Canonical(r).head == r.head
  {
    hide Sort, Dedup;
  }

  /** The same observation but for the order and repetition of its refusals. */
  ghost predicate SameObservation(x: Observation, y: Observation) {
    && x == y.(refusals := x.refusals)
    && forall r: Refusal :: r in x.refusals <==> r in y.refusals
  }

  /** `image` is a rearrangement of `b` whose observations are, place by place, those of `a`. */
  ghost predicate Pairs(a: seq<Observation>, image: seq<Observation>, b: seq<Observation>) {
    && multiset(image) == multiset(b) && |image| == |a|
    && forall i :: 0 <= i < |a| ==> SameObservation(a[i], image[i])
  }

  ghost predicate Corresponds(a: seq<Observation>, b: seq<Observation>) {
    exists image: seq<Observation> :: Pairs(a, image, b)
  }

  lemma CorrespondsCanonically(a: seq<Observation>, b: seq<Observation>)
    requires Corresponds(a, b)
    ensures multiset(CanonicalEach(a)) == multiset(CanonicalEach(b))
  {
    var image: seq<Observation> :| Pairs(a, image, b);
    hide SortedRefusalSet;
    forall i | 0 <= i < |a| ensures CanonicalEach(a)[i] == CanonicalEach(image)[i] {
      assert SameObservation(a[i], image[i]);
      SortedRefusalSetCanonical(a[i].refusals, image[i].refusals);
    }
    assert CanonicalEach(a) == CanonicalEach(image);
    EachKeepsMultiset(image, b);
  }

  lemma {:induction false} EachKeepsMultiset(a: seq<Observation>, b: seq<Observation>)
    requires multiset(a) == multiset(b)
    ensures multiset(CanonicalEach(a)) == multiset(CanonicalEach(b))
    decreases |a|
  {
    if a == [] {
      EmptyMultiset(b);
    } else {
      var rest := SameRest(a, b);
      EachKeepsMultiset(a[1..], rest);
    }
  }

  lemma EmptyMultiset<T>(s: seq<T>)
    requires multiset(s) == multiset{}
    ensures s == []
  {
    assert |s| == |multiset(s)|;
  }

  /** Taking the head of `a` out of `b` leaves the same multiset, before and after canonicalizing. */
  lemma SameRest(a: seq<Observation>, b: seq<Observation>) returns (rest: seq<Observation>)
    requires a != [] && multiset(a) == multiset(b)
    ensures multiset(a[1..]) == multiset(rest)
    ensures multiset(CanonicalEach(a[1..])) == multiset(CanonicalEach(rest)) ==>
      multiset(CanonicalEach(a)) == multiset(CanonicalEach(b))
  {
    hide CanonicalEach, CanonicalObservation;
    var k := IndexIn(a[0], a, b);
    rest := b[..k] + b[k + 1..];
    HeadOut(a);
    EachSplits(b, k);
    CancelOut(a, b, k);
  }

  lemma IndexIn<T>(x: T, a: seq<T>, b: seq<T>) returns (k: nat)
    requires x in a && multiset(a) == multiset(b)
    ensures k < |b| && b[k] == x
  {
    assert x in multiset(b);
    k :| 0 <= k < |b| && b[k] == x;
  }

  lemma HeadOut(a: seq<Observation>)
    requires a != []
    ensures multiset(CanonicalEach(a)) == multiset{CanonicalObservation(a[0])} + multiset(CanonicalEach(a[1..]))
  {
    EachSplits(a, 0);
    assert a[..0] + a[0 + 1..] == a[1..];
  }

  lemma CancelOut<T>(a: seq<T>, b: seq<T>, k: nat)
    requires a != [] && k < |b| && multiset(a) == multiset(b) && a[0] == b[k]
    ensures multiset(a[1..]) == multiset(b[..k] + b[k + 1..])
  {
    TakeOut(b, k);
    assert a == [a[0]] + a[1..];
    Cancel(a[0], multiset(a[1..]), multiset(b[..k] + b[k + 1..]));
  }

  lemma Cancel<T>(x: T, m: multiset<T>, n: multiset<T>)
    requires multiset{x} + m == multiset{x} + n
    ensures m == n
  {
    assert m == multiset{x} + m - multiset{x};
    assert n == multiset{x} + n - multiset{x};
  }

  lemma TakeOut<T>(s: seq<T>, k: nat)
    requires k < |s|
    ensures multiset(s) == multiset{s[k]} + multiset(s[..k] + s[k + 1..])
  {
    assert s == s[..k] + [s[k]] + s[k + 1..];
  }

  lemma EachSplits(b: seq<Observation>, k: nat)
    requires k < |b|
    ensures multiset(CanonicalEach(b)) ==
      multiset{CanonicalObservation(b[k])} + multiset(CanonicalEach(b[..k] + b[k + 1..]))
  {
    hide CanonicalObservation;
    var x, y := CanonicalEach(b[..k]), CanonicalEach(b[k + 1..]);
    assert CanonicalEach(b) == x + [CanonicalObservation(b[k])] + y;
    assert CanonicalEach(b[..k] + b[k + 1..]) == x + y;
  }

  /** Receipts that differ only in the order of coverage, refusals or observations, in repeated
      refusals, or in the stored digest. */
  ghost predicate SameUpToOrder(a: Receipt, b: Receipt) {
    && a.head == b.head
    && multiset(a.coverage) == multiset(b.coverage)
    && (forall x :: x in a.cannotTestify <==> x in b.cannotTestify)
    && Corresponds(a.observations, b.observations)
  }

  lemma DistinctTargetsSeparate(os: seq<Observation>)
    requires DistinctTargets(os)
    ensures Separates(os, ObservationLess)
  {
    TargetOrder();
    hide TargetLess;
    forall x, y | x in os && y in os ensures x == y || ObservationLess(x, y) || ObservationLess(y, x) {
      var i :| 0 <= i < |os| && os[i] == x;
      var j :| 0 <= j < |os| && os[j] == y;
      assert x.target == y.target ==> i == j;
    }
  }

  /** A receipt that seals has at most one observation per target. */
  lemma SealedTargetsDistinct(env: Env, r: Receipt)
    requires Seals(env, r)
    ensures DistinctTargets(Canonical(r).observations)
  {
    hide Canonical, EnvelopeOk, WorkIsCounted, WithinCaps, GrantBindingOk, HasKind, HasGrantRefusal, ObservationOk;
  }

  lemma SameCanonical(env: Env, a: Receipt, b: Receipt)
    requires a.head == b.head && multiset(a.coverage) == multiset(b.coverage)
    requires forall x :: x in a.cannotTestify <==> x in b.cannotTestify
    requires multiset(CanonicalEach(a.observations)) == multiset(CanonicalEach(b.observations))
    requires Seals(env, a)
    ensures Canonical(a).(digest := None) == Canonical(b).(digest := None)
  {
    SealedTargetsDistinct(env, a);
    DistinctTargetsSeparate(Canonical(a).observations);
    StrOrder();
    ObservationOrder();
    SortedRefusalSetCanonical(a.cannotTestify, b.cannotTestify);
    hide Seals, ObservationLess, StrLess, SortedRefusalSet, CanonicalEach, Sort;
    SortCanonical(a.coverage, b.coverage, StrLess);
    SortSorts(CanonicalEach(a.observations), ObservationLess);
    assert Separates(CanonicalEach(a.observations), ObservationLess);
    SortCanonical(CanonicalEach(a.observations), CanonicalEach(b.observations), ObservationLess);
  }

  /** Sealing is canonicalizing: such receipts seal alike, to the same receipt and the same digest. */
  lemma SealIgnoresOrder(env: Env, hash: Receipt -> string, a: Receipt, b: Receipt)
    requires SameUpToOrder(a, b)
    ensures Seals(env, a) <==> Seals(env, b)
    ensures Seals(env, a) ==> AfterSeal(env, hash, a) == AfterSeal(env, hash, b)
  {
    CanonicalIgnoresDigest(a, None);
    CanonicalIgnoresDigest(b, None);
    CorrespondsCanonically(a.observations, b.observations);
    hide CanonicalEach, Corresponds;
    if Seals(env, a) { SameCanonical(env, a, b); }
    if Seals(env, b) { SameCanonical(env, b, a); }
    hide Canonical, EnvelopeHolds, Request.DigestOk;
  }

  // ---- exact totals ----

  /** The seven sums as mathematical integers. */
  datatype Totals = Totals(dns: nat, connection: nat, attempted: nat, completed: nat, bound: nat, wall: nat, work: nat)

  function Plus(t: Totals, s: Spend): Totals {
    Totals(t.dns + s.dnsAttempts, t.connection + s.connectionAttempts, t.attempted + s.handshakesAttempted,
           t.completed + s.handshakesCompleted, t.bound + s.boundChecks, t.wall + s.wallMs, t.work + s.workUnits)
  }

  function TotalsOf(os: seq<Observation>): Totals {
    if os == [] then Totals(0, 0, 0, 0, 0, 0, 0) else Plus(TotalsOf(os[..|os| - 1]), os[|os| - 1].spend)
  }

  /** The accumulator holds the totals modulo the counter widths. */
  ghost predicate Wraps(s: Spend, t: Totals) {
    && s.dnsAttempts == Truncate32(t.dns)
    && s.connectionAttempts == Truncate32(t.connection)
    && s.handshakesAttempted == Truncate32(t.attempted)
    && s.handshakesCompleted == Truncate32(t.completed)
    && s.boundChecks == Truncate32(t.bound)
    && s.wallMs == Truncate64(t.wall)
    && s.workUnits == Truncate64(t.work)
  }

  lemma WrapsStep(s: Spend, t: Totals, x: Spend)
    requires Wraps(s, t)
    ensures Wraps(AddWrapping(s, x), Plus(t, x))
  {
    hide Truncate32, Truncate64;
    TruncateAdd32(t.dns, x.dnsAttempts);
    TruncateAdd32(t.connection, x.connectionAttempts);
    TruncateAdd32(t.attempted, x.handshakesAttempted);
    TruncateAdd32(t.completed, x.handshakesCompleted);
    TruncateAdd32(t.bound, x.boundChecks);
    TruncateAdd64(t.wall, x.wallMs);
    TruncateAdd64(t.work, x.workUnits);
  }

  lemma {:induction false} SummedWraps(os: seq<Observation>)
    ensures Wraps(Summed(os), TotalsOf(os))
  {
    hide AddWrapping, Plus;
    if os == [] {
      SmallCount(0);
      SmallCount64(0);
    } else {
      hide Wraps;
      SummedWraps(os[..|os| - 1]);
      WrapsStep(Summed(os[..|os| - 1]), TotalsOf(os[..|os| - 1]), os[|os| - 1].spend);
    }
  }

  ghost predicate SpendsOk(os: seq<Observation>, perTarget: u64) {
    forall i :: 0 <= i < |os| ==> TargetSpendOk(os[i].spend, perTarget)
  }

  /** Per-target caps bound every total by the number of targets, and the work units are the attempts. */
  ghost predicate Bounded(t: Totals, n: nat) {
    && t.completed <= t.attempted <= t.connection <= t.dns <= n && t.bound <= n
    && t.work == t.dns + t.connection + t.attempted + t.bound
  }

  lemma {:induction false} TotalsBounded(os: seq<Observation>, perTarget: u64)
    requires SpendsOk(os, perTarget)
    ensures Bounded(TotalsOf(os), |os|)
  {
    if os == [] {
    } else {
      TotalsBounded(os[..|os| - 1], perTarget);
      assert TargetSpendOk(os[|os| - 1].spend, perTarget);
    }
  }

  /** More observations than a vector of observations can hold. */
  const MAX_OBSERVATIONS: nat := 0x4000_0000_0000_0000

  lemma {:induction false} WallBounded(os: seq<Observation>, perTarget: u64)
    requires SpendsOk(os, perTarget) && perTarget <= 60_000
    ensures TotalsOf(os).wall <= 60_000 * |os|
  {
    if os == [] {
    } else {
      WallBounded(os[..|os| - 1], perTarget);
      assert TargetSpendOk(os[|os| - 1].spend, perTarget);
    }
  }

  /** The wall clock is summed in 64 bits, each addend at most a minute. */
  lemma WallIsExact(os: seq<Observation>, perTarget: u64)
    requires SpendsOk(os, perTarget) && perTarget <= 60_000 && |os| < 0x1_0000_0000_0000
    ensures Summed(os).wallMs == TotalsOf(os).wall
  {
    SummedWraps(os);
    WallBounded(os, perTarget);
    SmallCount64(TotalsOf(os).wall);
    hide TotalsOf, Summed, SpendsOk, Truncate32;
  }

  /** If the books balance, no 32-bit counter wrapped: the 64-bit work-unit sum would not match. The wall
      clock has no such cross-check; it cannot wrap on fewer than 2^48 observations. */
  lemma BalancedBooksAreExact(os: seq<Observation>, perTarget: u64, acquisition: Spend)
    requires SpendsOk(os, perTarget) && |os| < MAX_OBSERVATIONS
    requires AccountingMatches(Summed(os), acquisition) && acquisition.workUnits == acquisition.CountedWorkUnits()
    ensures var t := TotalsOf(os);
            && acquisition.dnsAttempts == t.dns && acquisition.connectionAttempts == t.connection
            && acquisition.handshakesAttempted == t.attempted && acquisition.boundChecks == t.bound
            && acquisition.workUnits == t.work
            && acquisition.handshakesCompleted == t.completed
    ensures perTarget <= 60_000 && |os| < 0x1_0000_0000_0000 ==>
      Summed(os).wallMs == TotalsOf(os).wall <= acquisition.wallMs
  {
    if perTarget <= 60_000 && |os| < 0x1_0000_0000_0000 { WallIsExact(os, perTarget); }
    SummedWraps(os);
    TotalsBounded(os, perTarget);
    var t := TotalsOf(os);
    hide TotalsOf, Summed, Truncate32, Truncate64;
    TruncateAtMost(t.dns);
    TruncateAtMost(t.connection);
    TruncateAtMost(t.attempted);
    TruncateAtMost(t.bound);
    SmallCount64(t.work);
    assert t.attempted == acquisition.handshakesAttempted;
    SmallCount(t.completed);
  }

  lemma PlanCountIsSmall(env: Env, w: WitnessPlan)
    requires EnvelopeOk(env, w)
    ensures |w.targets| < TWO_32 ==> 1 <= |w.targets| <= 32
    ensures BoundsMatch(w.bounds, Truncate32(|w.targets|)) && 1 <= w.bounds.maxTargets <= 32
    ensures Truncate32(|w.targets|) <= 32
  {
    if |w.targets| < TWO_32 { SmallCount(|w.targets|); }
  }

  lemma CompletedFacts(env: Env, r: Receipt)
    requires CompletedOk(env, r)
    ensures SpendsOk(r.observations, r.head.witnessPlan.value.bounds.perTargetDeadlineMs)
  {
    hide HasKind, EnvelopeOk, GrantBindingOk, Observation.ShapeOk;
  }

  ghost predicate Observes(os: seq<Observation>, t: Target) {
    exists i :: 0 <= i < |os| && os[i].target == t
  }

  function TargetSet(os: seq<Observation>): set<Target> { set o | o in os :: o.target }

  lemma {:induction false} DistinctTargetsSize(os: seq<Observation>)
    requires DistinctTargets(os)
    ensures |TargetSet(os)| == |os|
  {
    if os == [] {
    } else {
      var rest := os[..|os| - 1];
      var last := os[|os| - 1];
      DistinctTargetsSize(rest);
      assert last.target !in TargetSet(rest);
      assert os == rest + [last];
      assert TargetSet(os) == TargetSet(rest) + {last.target};
    }
  }

  /** One observation per planned target, and as many as targets: every target is observed, once. */
  lemma EveryTargetObserved(plan: WitnessPlan, os: seq<Observation>)
    requires DistinctTargets(os) && |os| == |plan.targets| && DistinctIds(plan.targets)
    requires forall i :: 0 <= i < |os| ==> os[i].target in plan.targets
    ensures forall t :: t in plan.targets <==> Observes(os, t)
  {
    var planned := ToSet(plan.targets);
    DistinctTargetsSize(os);
    ToSetSize(plan.targets);
    assert TargetSet(os) <= planned;
    SubsetSize(TargetSet(os), planned);
    forall t | t in plan.targets ensures Observes(os, t) {
      assert t in planned && t in TargetSet(os);
      var o :| o in os && o.target == t;
      var i :| 0 <= i < |os| && os[i] == o;
    }
  }

  /** In an answered envelope every handshake completed, so every attempt counter of a target is one. */
  lemma {:induction false} AnsweredTotals(parses: string -> bool, os: seq<Observation>, perTarget: u64)
    requires SpendsOk(os, perTarget)
    requires forall i :: 0 <= i < |os| ==> os[i].ShapeOk(parses) && !os[i].IsRefusal()
    ensures var t := TotalsOf(os); t.dns == t.connection == t.attempted == t.completed == |os|
  {
    if os == [] {
    } else {
      AnsweredTotals(parses, os[..|os| - 1], perTarget);
      var o := os[|os| - 1];
      assert TargetSpendOk(o.spend, perTarget) && o.ShapeOk(parses) && !o.IsRefusal();
      assert o.spend.handshakesCompleted == 1;
    }
  }

  /** Every sealed answered TLS receipt over n targets: each target observed exactly once, the four
      attempt totals all equal to n, and 3n plus the bound checks in work units. */
  lemma AnsweredReceiptIsExact(env: Env, r: Receipt)
    requires Seals(env, r) && r.head.request.questionKind == TlsCertificate && r.head.status == Answered
    requires |r.observations| < MAX_OBSERVATIONS
    ensures r.head.witnessPlan.Some? && r.head.acquisition.Some?
    ensures var plan, spent, os := r.head.witnessPlan.value, r.head.acquisition.value, Canonical(r).observations;
            var n := |plan.targets|;
            && |os| == n && DistinctTargets(os) && (forall t :: t in plan.targets <==> Observes(os, t))
            && spent.dnsAttempts == spent.connectionAttempts == spent.handshakesAttempted == spent.handshakesCompleted == n
            && spent.workUnits == r.head.acquisitionSpend == 3 * n + spent.boundChecks
            && 3 * n <= spent.workUnits <= 4 * n && 1 <= n <= 32
  {
    var c := Canonical(r).(digest := None);
    CanonicalSize(r);
    hide Canonical, HasKind, HasGrantRefusal, GrantBindingOk, Request.DigestOk;
    assert CompletedOk(env, c);
    CompletedFacts(env, c);
    var plan, os := c.head.witnessPlan.value, c.observations;
    PlanCountIsSmall(env, plan);
    EveryTargetObserved(plan, os);
    hide EnvelopeOk, BoundsMatch, Observation.ShapeOk;
    BalancedBooksAreExact(os, plan.bounds.perTargetDeadlineMs, c.head.acquisition.value);
    TotalsBounded(os, plan.bounds.perTargetDeadlineMs);
    AnsweredTotals(env.parses, os, plan.bounds.perTargetDeadlineMs);
    hide TotalsOf, Summed;
  }

  lemma CanonicalSize(r: Receipt)
    ensures |Canonical(r).observations| == |r.observations| && Canonical(r).head == r.head
  {
    ObservationOrder();
    hide ObservationLess;
    SortSorts(CanonicalEach(r.observations), ObservationLess);
  }

  /** The aggregate caps are implied: they follow from the per-target caps, one observation per target,
      and the balanced books. */
  lemma CapsFollow(env: Env, plan: WitnessPlan, os: seq<Observation>, acquisition: Spend)
    requires EnvelopeOk(env, plan) && |os| == |plan.targets| < TWO_32
    requires SpendsOk(os, plan.bounds.perTargetDeadlineMs)
    requires AccountingMatches(Summed(os), acquisition) && acquisition.workUnits == acquisition.CountedWorkUnits()
    ensures WithinCaps(acquisition, plan.bounds)
  {
    PlanCountIsSmall(env, plan);
    SmallCount(|plan.targets|);
    hide EnvelopeOk;
    BalancedBooksAreExact(os, plan.bounds.perTargetDeadlineMs, acquisition);
    TotalsBounded(os, plan.bounds.perTargetDeadlineMs);
    hide TotalsOf, Summed, Truncate32;
  }

  /** A completed sealed receipt spends within the envelope its plan's bounds render to. */
  lemma CompletedWithinEnvelope(env: Env, r: Receipt)
    requires Seals(env, r) && r.head.disposition == PerTargetOutcomes
    ensures r.head.witnessPlan.Some? && r.head.acquisition.Some?
    ensures Within(r.head.acquisition.value, EnvelopeFrom(r.head.witnessPlan.value.bounds))
  {
    CanonicalSize(r);
    hide Canonical, HasKind, HasGrantRefusal, GrantBindingOk, Request.DigestOk, EnvelopeOk, ObservationsOk, AccountingMatches;
  }

  lemma RenderedEnvelope(env: Env, plan: Plan, p: Profile)
    requires DigestsWellFormed(env) && p.Valid() && plan.Valid(env.parses) && Fits(plan, p) && p.questionKind == TlsCertificate
    ensures Render(env, plan, ResolvedOf(env.profileDigest, p)).Ok?
    ensures p.tlsCert.Some?
    ensures Render(env, plan, ResolvedOf(env.profileDigest, p)).value.requirements.totalEnvelope ==
      EnvelopeFrom(ExpectedPlan(env, plan, p).bounds)
  {
    RenderSucceeds(env, plan, p);
    AdmitSucceeds(env, plan, p);
    PlanResolves(env, plan, p);
    hide Admit, ResolvePlan, ExpectedPlan, ExpectedRequest, Profile.Valid, EnvelopeOk, Preflight.Valid, Plan.Valid, EnvelopeFrom;
  }

  /** A grant that admits the preflighted position covers whatever a completed receipt for that plan spent. */
  lemma AdmittingGrantCoversSpend(env: Env, plan: Plan, p: Profile, grant: Ratchet.Grant, r: Receipt)
    requires DigestsWellFormed(env) && p.Valid() && plan.Valid(env.parses) && Fits(plan, p) && p.questionKind == TlsCertificate
    requires Render(env, plan, ResolvedOf(env.profileDigest, p)).Ok?
    requires Ratchet.Admits(grant, PreflightPosition(Render(env, plan, ResolvedOf(env.profileDigest, p)).value))
    requires Seals(env, r) && r.head.disposition == PerTargetOutcomes
    requires r.head.witnessPlan == Some(ExpectedPlan(env, plan, p))
    ensures Within(r.head.acquisition.value, grant.totalEnvelope)
  {
    CompletedWithinEnvelope(env, r);
    hide Seals;
    RenderedEnvelope(env, plan, p);
    var f := Render(env, plan, ResolvedOf(env.profileDigest, p)).value;
    hide Render, ExpectedPlan, Profile.Valid, Fits, Plan.Valid, DigestsWellFormed, Ratchet.ScopeValid, EnvelopeFrom, FirstOverLimit;
    FirstOverLimitExact(f.requirements.totalEnvelope, grant.totalEnvelope);
  }
}
