/** Values shared by the governed-inquiry modules (crates/nq-core/src/inquiry.rs). */
module InquiryTypes {
  import opened Order
  import opened Text

  const TWO_32: int := 0x1_0000_0000
  const TWO_64: int := 0x1_0000_0000_0000_0000

  type u16 = x: int | 0 <= x < 0x1_0000
  type u32 = x: int | 0 <= x < TWO_32
  type u64 = x: int | 0 <= x < TWO_64

  /** `as u32` and a wrapping 32-bit sum: keep the low 32 bits. */
  function Truncate32(n: nat): u32 { n % TWO_32 }

  function Truncate64(n: nat): u64 { n % TWO_64 }

  lemma SmallCount(n: nat)
    requires n < TWO_32
    ensures Truncate32(n) == n
  {}

  lemma SmallCount64(n: nat)
    requires n < TWO_64
    ensures Truncate64(n) == n
  {}

  lemma TruncateAtMost(n: nat)
    ensures Truncate32(n) <= n && (Truncate32(n) == n ==> n < TWO_32)
  {}

  lemma TruncateAdd32(a: nat, b: nat)
    ensures Truncate32(Truncate32(a) + b) == Truncate32(a + b)
  {}

  lemma TruncateAdd64(a: nat, b: nat)
    ensures Truncate64(Truncate64(a) + b) == Truncate64(a + b)
  {}

  datatype Result<+T> = Ok(value: T) | Err

  /** Where one certificate is to be presented, under an id of its own. */
  datatype Target = Target(targetId: string, host: string, port: u16, sni: string) {
    predicate Valid() {
      !Blank(targetId) && !Blank(host) && port != 0 && !Blank(sni)
    }
  }

  /** The derived field-by-field order. */
  predicate TargetLess(a: Target, b: Target) {
    || StrLess(a.targetId, b.targetId)
    || (a.targetId == b.targetId && (
         || StrLess(a.host, b.host)
         || (a.host == b.host && (
              || a.port < b.port
              || (a.port == b.port && StrLess(a.sni, b.sni))))))
  }

  lemma TargetOrder()
    ensures StrictTotal(TargetLess) && StrictWeak(TargetLess)
  {
    StrOrder();
    hide StrLess;
    TotalIsWeak(TargetLess);
  }

  /** No two targets share an id. */
  ghost predicate DistinctIds(targets: seq<Target>) {
    forall i, j :: 0 <= i < j < |targets| ==> targets[i].targetId != targets[j].targetId
  }

  ghost predicate ValidTargets(targets: seq<Target>) {
    forall t :: t in targets ==> t.Valid()
  }

  /** The loop shared by plan, profile and witness-plan validation: every target well formed, ids unique. */
  method CheckTargets(targets: seq<Target>) returns (ok: bool)
    ensures ok <==> ValidTargets(targets) && DistinctIds(targets)
  {
    var ids: set<string> := {};
    for i := 0 to |targets|
      invariant forall j :: 0 <= j < i ==> targets[j].Valid() && targets[j].targetId in ids
      invariant forall id :: id in ids ==> exists j :: 0 <= j < i && targets[j].targetId == id
      invariant forall j, k :: 0 <= j < k < i ==> targets[j].targetId != targets[k].targetId
    {
      if !targets[i].Valid() {
        assert targets[i] in targets;
        return false;
      }
      if targets[i].targetId in ids {
        return false;
      }
      ids := ids + {targets[i].targetId};
    }
    ok := true;
  }

  /** Seven acquisition counters: a spend, or an envelope that bounds one. */
  datatype Spend = Spend(
    dnsAttempts: u32,
    connectionAttempts: u32,
    handshakesAttempted: u32,
    handshakesCompleted: u32,
    boundChecks: u32,
    wallMs: u64,
    workUnits: u64)
  {
    /** Each addend is below 2^32, so the 64-bit sum cannot wrap. */
    function CountedWorkUnits(): u64 {
      dnsAttempts + connectionAttempts + handshakesAttempted + boundChecks
    }

    /** All seven counters together, as a mathematical integer. */
    function Total(): nat {
      dnsAttempts + connectionAttempts + handshakesAttempted + handshakesCompleted + boundChecks + wallMs + workUnits
    }
  }

  const NO_SPEND := Spend(0, 0, 0, 0, 0, 0, 0)

  datatype Dimension = Dns | Connection | HandshakeAttempt | HandshakeDone | BoundCheck | WallMs | WorkUnits

  function FirstOverLimit(candidate: Spend, limit: Spend): Option<Dimension> {
    if candidate.dnsAttempts > limit.dnsAttempts then Some(Dns)
    else if candidate.connectionAttempts > limit.connectionAttempts then Some(Connection)
    else if candidate.handshakesAttempted > limit.handshakesAttempted then Some(HandshakeAttempt)
    else if candidate.handshakesCompleted > limit.handshakesCompleted then Some(HandshakeDone)
    else if candidate.boundChecks > limit.boundChecks then Some(BoundCheck)
    else if candidate.wallMs > limit.wallMs then Some(WallMs)
    else if candidate.workUnits > limit.workUnits then Some(WorkUnits)
    else None
  }

  /** Every counter of `a` is at most the same counter of `b`. */
  ghost predicate Within(a: Spend, b: Spend) {
    && a.dnsAttempts <= b.dnsAttempts
    && a.connectionAttempts <= b.connectionAttempts
    && a.handshakesAttempted <= b.handshakesAttempted
    && a.handshakesCompleted <= b.handshakesCompleted
    && a.boundChecks <= b.boundChecks
    && a.wallMs <= b.wallMs
    && a.workUnits <= b.workUnits
  }

  lemma FirstOverLimitExact(candidate: Spend, limit: Spend)
    ensures FirstOverLimit(candidate, limit).None? <==> Within(candidate, limit)
  {}

  /** Surveys have a single collector so far. */
  datatype Collector = TlsCertProbe
}
