/** The same-grant escalation ratchet as a state machine over positions
    (crates/nq-core/src/inquiry.rs, `admit_initial_position` and `authorize_same_grant_transition`). */
module Ratchet {
  import opened Order
  import opened InquiryTypes
  import Text

  const GRANT_SCHEMA := "nq.inquiry_grant.v0"
  const POSITION_SCHEMA := "nq.inquiry_position.v0"

  datatype Grant = Grant(
    schema: string,
    admittedScope: set<Target>,
    maxDepth: u32,
    totalEnvelope: Spend,
    permittedWitnessClasses: set<Collector>)
  {
    predicate Valid() { schema == GRANT_SCHEMA && ScopeValid(admittedScope) }
  }

  /** Greater depth is deeper inquiry; the envelope is what is left to spend. */
  datatype Position = Position(schema: string, scope: set<Target>, depth: u32, remaining: Spend) {
    predicate Valid() { schema == POSITION_SCHEMA && ScopeValid(scope) }
  }

  predicate ScopeValid(scope: set<Target>) {
    && (forall t :: t in scope ==> t.Valid())
    && (forall t, t' :: t in scope && t' in scope && t.targetId == t'.targetId ==> t == t')
  }

  /** The loop of `validate_ratchet_scope`, in set order. */
  method ValidateScope(scope: set<Target>) returns (ok: bool)
    ensures ok <==> ScopeValid(scope)
  {
    TargetOrder();
    var targets := SortedSet(scope, TargetLess);
    hide TargetLess, ValidTargets, DistinctIds, ScopeValid, Ascending;
    ok := CheckTargets(targets);
    ListedScope(scope, targets);
  }

  /** A repetition-free listing of the scope passes the target checks exactly when the scope is valid. */
  lemma ListedScope(scope: set<Target>, targets: seq<Target>)
    requires Ascending(targets, TargetLess) && forall t :: t in targets <==> t in scope
    ensures ValidTargets(targets) && DistinctIds(targets) <==> ScopeValid(scope)
  {
    TargetOrder();
    hide TargetLess, Target.Valid;
    assert forall i :: 0 <= i < |targets| ==> targets[i] in scope;
    if ScopeValid(scope) {
      forall i, j | 0 <= i < j < |targets| ensures targets[i].targetId != targets[j].targetId {
        assert TargetLess(targets[i], targets[j]);
      }
    }
    if DistinctIds(targets) {
      forall t, t' | t in scope && t' in scope && t.targetId == t'.targetId ensures t == t' {
        var i :| 0 <= i < |targets| && targets[i] == t;
        var j :| 0 <= j < |targets| && targets[j] == t';
      }
    }
  }

  // ---- the decision ----

  datatype TransitionRefusalKind =
    | InvalidGrant
    | InvalidCurrentPosition
    | InvalidRequestedPosition
    | CurrentPositionOutsideGrant
    | RequestedScopeOutsideGrant
    | DepthExceedsGrant
    | RequestedAcquisitionEnvelopeExceedsGrant
    | ScopeWidening
    | DepthRegression
    | AcquisitionSpendReplenished
    | DepthIncreaseRequiresStrictScopeNarrowing
    | NoProgress

  datatype Decision = Authorized | Refused(kind: TransitionRefusalKind)

  /** Containment of a position in newly supplied standing. */
  predicate Admits(grant: Grant, position: Position) {
    && grant.Valid() && position.Valid()
    && position.scope <= grant.admittedScope
    && position.depth <= grant.maxDepth
    && FirstOverLimit(position.remaining, grant.totalEnvelope).None?
  }

  /** The complete authorization input is the grant and the two positions. */
  function Authorize(grant: Grant, current: Position, requested: Position): Decision {
    if !grant.Valid() then Refused(InvalidGrant)
    else if !current.Valid() then Refused(InvalidCurrentPosition)
    else if !requested.Valid() then Refused(InvalidRequestedPosition)
    else if !Admits(grant, current) then Refused(CurrentPositionOutsideGrant)
    else if !(requested.scope <= grant.admittedScope) then Refused(RequestedScopeOutsideGrant)
    else if requested.depth > grant.maxDepth then Refused(DepthExceedsGrant)
    else if FirstOverLimit(requested.remaining, grant.totalEnvelope).Some?
      then Refused(RequestedAcquisitionEnvelopeExceedsGrant)
    else if !(requested.scope <= current.scope) then Refused(ScopeWidening)
    else if requested.depth < current.depth then Refused(DepthRegression)
    else if FirstOverLimit(requested.remaining, current.remaining).Some? then Refused(AcquisitionSpendReplenished)
    else
      var narrowed := requested.scope != current.scope;
      var deepened := requested.depth > current.depth;
      var spent := requested.remaining != current.remaining;
      if deepened && !narrowed then Refused(DepthIncreaseRequiresStrictScopeNarrowing)
      else if !narrowed && !deepened && !spent then Refused(NoProgress)
      else Authorized
  }

  /** The law of the ratchet: narrow, deepen only while strictly narrowing, spend down, and move. */
  ghost predicate Descends(p: Position, q: Position) {
    && q.scope <= p.scope && p.depth <= q.depth && Within(q.remaining, p.remaining)
    && (q.depth > p.depth ==> q.scope < p.scope)
    && (q.scope < p.scope || q.remaining != p.remaining)
  }

  lemma AuthorizeExact(grant: Grant, p: Position, q: Position)
    ensures Authorize(grant, p, q) == Authorized <==> Admits(grant, p) && Admits(grant, q) && Descends(p, q)
  {
    FirstOverLimitExact(q.remaining, p.remaining);
    hide Within, FirstOverLimit;
  }

  /** What each refusal accuses the request of. */
  ghost predicate Violates(grant: Grant, p: Position, q: Position, kind: TransitionRefusalKind) {
    match kind
    case InvalidGrant => !grant.Valid()
    case InvalidCurrentPosition => !p.Valid()
    case InvalidRequestedPosition => !q.Valid()
    case CurrentPositionOutsideGrant => !Admits(grant, p)
    case RequestedScopeOutsideGrant => exists t :: t in q.scope && t !in grant.admittedScope
    case DepthExceedsGrant => q.depth > grant.maxDepth
    case RequestedAcquisitionEnvelopeExceedsGrant => !Within(q.remaining, grant.totalEnvelope)
    case ScopeWidening => exists t :: t in q.scope && t !in p.scope
    case DepthRegression => q.depth < p.depth
    case AcquisitionSpendReplenished => !Within(q.remaining, p.remaining)
    case DepthIncreaseRequiresStrictScopeNarrowing => q.depth > p.depth && p.scope <= q.scope
    case NoProgress => q == p
  }

  /** The order in which the rules are applied. */
  function Precedence(kind: TransitionRefusalKind): nat {
    match kind
    case InvalidGrant => 0
    case InvalidCurrentPosition => 1
    case InvalidRequestedPosition => 2
    case CurrentPositionOutsideGrant => 3
    case RequestedScopeOutsideGrant => 4
    case DepthExceedsGrant => 5
    case RequestedAcquisitionEnvelopeExceedsGrant => 6
    case ScopeWidening => 7
    case DepthRegression => 8
    case AcquisitionSpendReplenished => 9
    case DepthIncreaseRequiresStrictScopeNarrowing => 10
    case NoProgress => 11
  }

  /** A refusal names the first rule the request violates; in particular a request that violates some
      rule is never authorized. */
  lemma RefusalIsExact(grant: Grant, p: Position, q: Position, kind: TransitionRefusalKind)
    ensures Authorize(grant, p, q) == Refused(kind) <==>
      Violates(grant, p, q, kind) && forall k :: Precedence(k) < Precedence(kind) ==> !Violates(grant, p, q, k)
  {
    FirstOverLimitExact(q.remaining, p.remaining);
    FirstOverLimitExact(q.remaining, grant.totalEnvelope);
    hide Within, FirstOverLimit, ScopeValid, Admits;
    var d := Authorize(grant, p, q);
    if d.Refused? {
      assert Violates(grant, p, q, d.kind);
      assert forall k :: Precedence(k) < Precedence(d.kind) ==> !Violates(grant, p, q, k);
      assert Precedence(kind) == Precedence(d.kind) ==> kind == d.kind;
    } else {
      assert !Violates(grant, p, q, kind);
    }
  }

  /** A request beyond the grant is already beyond the current position: only the message differs. */
  lemma BeyondGrantIsBeyondCurrent(grant: Grant, p: Position, q: Position)
    requires Admits(grant, p)
    ensures Violates(grant, p, q, RequestedScopeOutsideGrant) ==> Violates(grant, p, q, ScopeWidening)
    ensures Violates(grant, p, q, RequestedAcquisitionEnvelopeExceedsGrant) ==> Violates(grant, p, q, AcquisitionSpendReplenished)
  {
    FirstOverLimitExact(p.remaining, grant.totalEnvelope);
    hide FirstOverLimit;
  }

  // ---- a strict partial order ----

  lemma AuthorizeIrreflexive(grant: Grant, p: Position)
    ensures Authorize(grant, p, p) != Authorized
  {
    AuthorizeExact(grant, p, p);
  }

  lemma WithinAntisymmetric(a: Spend, b: Spend)
    requires Within(a, b) && Within(b, a)
    ensures a == b
  {}

  lemma AuthorizeTransitive(grant: Grant, p: Position, q: Position, r: Position)
    requires Authorize(grant, p, q) == Authorized && Authorize(grant, q, r) == Authorized
    ensures Authorize(grant, p, r) == Authorized
  {
    hide Authorize, Admits;
    AuthorizeExact(grant, p, q);
    AuthorizeExact(grant, q, r);
    AuthorizeExact(grant, p, r);
    if p.remaining == r.remaining { WithinAntisymmetric(q.remaining, p.remaining); }
  }

  lemma AuthorizeAsymmetric(grant: Grant, p: Position, q: Position)
    requires Authorize(grant, p, q) == Authorized
    ensures Authorize(grant, q, p) != Authorized
  {
    hide Authorize;
    if Authorize(grant, q, p) == Authorized {
      AuthorizeIrreflexive(grant, p);
      AuthorizeTransitive(grant, p, q, p);
    }
  }

  // ---- runs ----

  /** A run under one grant: admitted at the start, authorized at every step. */
  ghost predicate IsRun(grant: Grant, run: seq<Position>) {
    && run != [] && Admits(grant, run[0])
    && (forall i :: 0 <= i < |run| - 1 ==> Authorize(grant, run[i], run[i + 1]) == Authorized)
  }

  /** What is left to give up: targets in scope plus the seven remaining counters. */
  function Measure(p: Position): nat {
    |p.scope| + p.remaining.Total()
  }

  function Deepenings(run: seq<Position>): nat {
    if |run| <= 1 then 0
    else Deepenings(run[..|run| - 1]) + (if run[|run| - 1].depth > run[|run| - 2].depth then 1 else 0)
  }

  lemma StepDecreases(p: Position, q: Position)
    requires Descends(p, q)
    ensures Measure(q) < Measure(p) && |q.scope| <= |p.scope|
    ensures q.depth > p.depth ==> |q.scope| < |p.scope|
  {
    SubsetSize(q.scope, p.scope);
  }

  lemma RunPrefix(grant: Grant, run: seq<Position>)
    requires IsRun(grant, run) && |run| > 1
    ensures IsRun(grant, run[..|run| - 1])
    ensures Authorize(grant, run[|run| - 2], run[|run| - 1]) == Authorized
  {
    hide Authorize;
    var r := run[..|run| - 1];
    forall i | 0 <= i < |r| - 1 ensures Authorize(grant, r[i], r[i + 1]) == Authorized {
      assert Authorize(grant, run[i], run[i + 1]) == Authorized;
    }
    assert run[|run| - 2 + 1] == run[|run| - 1];
  }

  /** Any stretch of a run is itself one authorized transition, so each position is inside the grant,
      and between any two positions scope only shrinks, depth never falls and no counter rises. */
  lemma {:induction false} RunCollapses(grant: Grant, run: seq<Position>, i: nat, j: nat)
    requires IsRun(grant, run) && i < j < |run|
    ensures Authorize(grant, run[i], run[j]) == Authorized
    ensures Admits(grant, run[i]) && Admits(grant, run[j]) && Descends(run[i], run[j])
    decreases j
  {
    hide Authorize, Admits, Descends;
    assert Authorize(grant, run[j - 1], run[j - 1 + 1]) == Authorized;
    if i < j - 1 {
      RunCollapses(grant, run, i, j - 1);
      AuthorizeTransitive(grant, run[i], run[j - 1], run[j]);
    }
    AuthorizeExact(grant, run[i], run[j]);
  }

  /** A run is no longer than what its first position had to give up, and deepens at most once per
      target given up and once per level left under the depth cap. */
  lemma {:induction false} RunIsBounded(grant: Grant, run: seq<Position>)
    requires IsRun(grant, run)
    ensures |run| - 1 + Measure(run[|run| - 1]) <= Measure(run[0])
    ensures Deepenings(run) + |run[|run| - 1].scope| <= |run[0].scope|
    ensures run[0].depth + Deepenings(run) <= run[|run| - 1].depth <= grant.maxDepth
    decreases |run|
  {
    if |run| <= 1 {
    } else {
      hide Authorize;
      RunPrefix(grant, run);
      RunIsBounded(grant, run[..|run| - 1]);
      AuthorizeExact(grant, run[|run| - 2], run[|run| - 1]);
      StepDecreases(run[|run| - 2], run[|run| - 1]);
    }
  }

  // ---- the bound is attained ----

  /** Give up one target, or one unit of one counter. */
  ghost function Drained(p: Position): Position
    requires Measure(p) > 0
  {
    if p.scope != {} then
      var t :| t in p.scope;
      p.(scope := p.scope - {t})
    else
      p.(remaining := SpendOne(p.remaining))
  }

  function SpendOne(s: Spend): Spend
    requires s.Total() > 0
  {
    if s.dnsAttempts > 0 then s.(dnsAttempts := s.dnsAttempts - 1)
    else if s.connectionAttempts > 0 then s.(connectionAttempts := s.connectionAttempts - 1)
    else if s.handshakesAttempted > 0 then s.(handshakesAttempted := s.handshakesAttempted - 1)
    else if s.handshakesCompleted > 0 then s.(handshakesCompleted := s.handshakesCompleted - 1)
    else if s.boundChecks > 0 then s.(boundChecks := s.boundChecks - 1)
    else if s.wallMs > 0 then s.(wallMs := s.wallMs - 1)
    else s.(workUnits := s.workUnits - 1)
  }

  lemma DrainIsAuthorized(grant: Grant, p: Position)
    requires Admits(grant, p) && Measure(p) > 0
    ensures Authorize(grant, p, Drained(p)) == Authorized
    ensures Measure(Drained(p)) == Measure(p) - 1
  {
    var q := Drained(p);
    FirstOverLimitExact(p.remaining, grant.totalEnvelope);
    FirstOverLimitExact(q.remaining, grant.totalEnvelope);
    AuthorizeExact(grant, p, q);
    hide Authorize, FirstOverLimit;
    if p.scope != {} {
      WithinItself(p.remaining);
      hide Within, SpendOne;
    } else {
      SpendOneIsLess(p.remaining);
      hide SpendOne;
    }
  }

  lemma WithinItself(s: Spend)
    ensures Within(s, s)
  {}

  lemma SpendOneIsLess(s: Spend)
    requires s.Total() > 0
    ensures Within(SpendOne(s), s) && SpendOne(s).Total() == s.Total() - 1
  {}

  /** Every admitted position starts a run of exactly the bounding length. */
  lemma {:induction false} LongestRun(grant: Grant, p: Position) returns (run: seq<Position>)
    requires Admits(grant, p)
    ensures IsRun(grant, run) && run[0] == p && |run| - 1 == Measure(p)
    decreases Measure(p)
  {
    hide Authorize, Admits;
    if Measure(p) == 0 {
      run := [p];
    } else {
      DrainIsAuthorized(grant, p);
      AuthorizeExact(grant, p, Drained(p));
      var rest := LongestRun(grant, Drained(p));
      run := [p] + rest;
      forall i | 0 <= i < |run| - 1 ensures Authorize(grant, run[i], run[i + 1]) == Authorized {
        if i > 0 { assert run[i] == rest[i - 1] && run[i + 1] == rest[i - 1 + 1]; }
      }
    }
  }

  /** The most deepening steps a run from `p` can take. */
  function DeepeningBound(grant: Grant, p: Position): nat
    requires p.depth <= grant.maxDepth
  {
    var levels := grant.maxDepth - p.depth;
    if |p.scope| <= levels then |p.scope| else levels
  }

  /** The deepening bound is exact: no run exceeds it, and some run reaches it. */
  lemma DeepeningsAreBounded(grant: Grant, run: seq<Position>)
    requires IsRun(grant, run)
    ensures Deepenings(run) <= DeepeningBound(grant, run[0])
  {
    hide IsRun;
    RunIsBounded(grant, run);
  }

  /** Give up one target for one more level of depth. */
  ghost function Deepened(p: Position): Position
    requires p.scope != {} && p.depth < 0xFFFF_FFFF
  {
    var t :| t in p.scope;
    p.(scope := p.scope - {t}, depth := p.depth + 1)
  }

  lemma DeepeningIsAuthorized(grant: Grant, p: Position)
    requires Admits(grant, p) && p.scope != {} && p.depth < grant.maxDepth
    ensures Authorize(grant, p, Deepened(p)) == Authorized
    ensures |Deepened(p).scope| == |p.scope| - 1
  {
    var q := Deepened(p);
    FirstOverLimitExact(p.remaining, grant.totalEnvelope);
    AuthorizeExact(grant, p, q);
    WithinItself(p.remaining);
    hide Authorize, FirstOverLimit, Within;
  }

  lemma {:induction false} DeepeningsOfCons(p: Position, rest: seq<Position>)
    requires rest != []
    ensures Deepenings([p] + rest) == Deepenings(rest) + if rest[0].depth > p.depth then 1 else 0
    decreases |rest|
  {
    var run := [p] + rest;
    if |rest| == 1 {
    } else {
      var shorter := rest[..|rest| - 1];
      assert run[..|run| - 1] == [p] + shorter;
      DeepeningsOfCons(p, shorter);
    }
  }

  lemma {:induction false} DeepestRun(grant: Grant, p: Position) returns (run: seq<Position>)
    requires Admits(grant, p)
    ensures IsRun(grant, run) && run[0] == p && Deepenings(run) == DeepeningBound(grant, p)
    decreases |p.scope|
  {
    if p.scope == {} || p.depth == grant.maxDepth {
      run := [p];
    } else {
      var q := Deepened(p);
      DeepeningIsAuthorized(grant, p);
      AuthorizeExact(grant, p, q);
      hide Authorize, Admits, Descends, Within, Deepenings;
      var rest := DeepestRun(grant, q);
      run := [p] + rest;
      DeepeningsOfCons(p, rest);
      forall i | 0 <= i < |run| - 1 ensures Authorize(grant, run[i], run[i + 1]) == Authorized {
        if i > 0 { assert run[i] == rest[i - 1] && run[i + 1] == rest[i - 1 + 1]; }
      }
    }
  }

  /** Every position of a run lies inside the grant: its targets are well formed, told apart by id and
      admitted, its depth is within the cap, and each of its seven counters within the envelope. */
  lemma ReachedPositionsStayInside(grant: Grant, run: seq<Position>, i: nat)
    requires IsRun(grant, run) && i < |run|
    ensures var p, e := run[i], grant.totalEnvelope;
      && grant.schema == "nq.inquiry_grant.v0" && p.schema == "nq.inquiry_position.v0"
      && p.scope <= grant.admittedScope && p.depth <= grant.maxDepth
      && (forall t :: t in grant.admittedScope ==> !Text.Blank(t.targetId) && !Text.Blank(t.host) && t.port > 0 && !Text.Blank(t.sni))
      && (forall t, u :: t in grant.admittedScope && u in grant.admittedScope && t != u ==> t.targetId != u.targetId)
      && p.remaining.dnsAttempts <= e.dnsAttempts && p.remaining.connectionAttempts <= e.connectionAttempts
      && p.remaining.handshakesAttempted <= e.handshakesAttempted && p.remaining.handshakesCompleted <= e.handshakesCompleted
      && p.remaining.boundChecks <= e.boundChecks && p.remaining.wallMs <= e.wallMs && p.remaining.workUnits <= e.workUnits
  {
    if i > 0 { RunCollapses(grant, run, 0, i); }
    assert Admits(grant, run[i]);
    FirstOverLimitExact(run[i].remaining, grant.totalEnvelope);
    hide FirstOverLimit, Text.Blank, IsRun;
  }

  /** Admission, spelled out: a position is admitted iff it and the grant are well formed and it asks for
      no target, no depth and no unit of any counter that the grant does not give. */
  lemma AdmissionIsExact(grant: Grant, p: Position)
    ensures Admits(grant, p) <==>
      && grant.schema == "nq.inquiry_grant.v0" && p.schema == "nq.inquiry_position.v0"
      && ScopeValid(grant.admittedScope) && p.scope <= grant.admittedScope
      && p.depth <= grant.maxDepth && Within(p.remaining, grant.totalEnvelope)
  {
    FirstOverLimitExact(p.remaining, grant.totalEnvelope);
    hide FirstOverLimit, Within;
  }
}
