/** Structural verification of a receipt against supplied packets (crates/nq-core/src/receipt_check.rs). */
module ReceiptCheck {
  import opened Order
  import opened Text
  import opened Evidence

  datatype CheckOptions = CheckOptions(strict: bool, checkFreshness: bool, asOf: Option<string>)

  datatype CheckKind =
    | Schema(schema: string)
    | ContentHash
    | WitnessDigest(witnessType: string, digest: Option<string>)
    | ExtraSuppliedPacket(computedDigest: string)
    | FreshnessHorizon
    | EvaluatorCheck(binding: EvaluatorBinding)

  datatype CheckStatus =
    | Ok | ReceiptNotAnchored | BrokenContentHash | WitnessNotAnchored | MissingWitnessPacket | ExtraWitnessPacket
    | MalformedDigest | UnsupportedDigestAlgorithm | Stale | FreshnessNotApplicable | UnsupportedReceiptVersion

  datatype CheckOutcome = CheckOutcome(kind: CheckKind, status: CheckStatus)

  class CheckReport {
    var outcomes: seq<CheckOutcome>
    var integrityBroken: bool

    /** The flag says exactly whether some outcome is broken. */
    predicate Valid()
      reads this
    {
      integrityBroken <==> AnyBroken(outcomes)
    }

    constructor ()
      ensures Valid() && outcomes == []
    {
      outcomes, integrityBroken := [], false;
    }

    method Push(outcome: CheckOutcome)
      requires Valid()
      modifies this
      ensures Valid() && outcomes == old(outcomes) + [outcome]
    {
      if outcome.status == BrokenContentHash {
        integrityBroken := true;
      }
      outcomes := outcomes + [outcome];
    }
  }

  predicate AnyBroken(outcomes: seq<CheckOutcome>) {
    exists o :: o in outcomes && o.status == BrokenContentHash
  }

  // ---- digest text ----

  datatype DigestShape = Sha256 | UnsupportedAlgorithm | Malformed

  /** Index of the first colon, or the length when there is none. */
  function FindColon(s: string): (i: nat)
    ensures i <= |s| && (i < |s| ==> s[i] == ':') && forall k :: 0 <= k < i ==> s[k] != ':'
  {
    if s == "" || s[0] == ':' then 0 else 1 + FindColon(s[1..])
  }

  function ParseDigest(s: string): DigestShape {
    var colon := FindColon(s);
    if colon == |s| then Malformed
    else if s[..colon + 1] != DIGEST_PREFIX then UnsupportedAlgorithm
    else
      var rest := s[colon + 1..];
      if |rest| != 64 || exists c :: c in rest && !IsLowerHex(c) then Malformed else Sha256
  }

  /** The parser accepts exactly the strings of the digest form. */
  lemma ParseIsExact(s: string)
    ensures ParseDigest(s) == Sha256 <==> IsSha256Digest(s)
    ensures ParseDigest(s) == Malformed <==> ':' !in s || (DIGEST_PREFIX <= s && !IsSha256Digest(s))
  {
    var colon := FindColon(s);
    if DIGEST_PREFIX <= s {
      assert forall k :: 0 <= k < 6 ==> s[k] == DIGEST_PREFIX[k] != ':';
      assert s[6] == DIGEST_PREFIX[6] == ':';
      assert colon == 6 && s[..7] == DIGEST_PREFIX;
    }
  }

  // ---- the report as a value ----

  function SchemaOutcome(r: Receipt): CheckOutcome {
    CheckOutcome(Schema(r.schema), if r.schema == RECEIPT_SCHEMA then Ok else UnsupportedReceiptVersion)
  }

  function HashStatus(lib: Library, r: Receipt): CheckStatus {
    if r.contentHash.None? then ReceiptNotAnchored
    else if lib.ContentHash(r) == r.contentHash then Ok
    else BrokenContentHash
  }

  function HashOutcomes(lib: Library, r: Receipt): seq<CheckOutcome> {
    if r.schema == RECEIPT_SCHEMA then [CheckOutcome(ContentHash, HashStatus(lib, r))] else []
  }

  /** Digests of the packets that have one, in order. */
  function PacketDigests(lib: Library, packets: seq<Packet>): seq<string> {
    if packets == [] then []
    else
      var rest := PacketDigests(lib, packets[..|packets| - 1]);
      match lib.digest(packets[|packets| - 1])
      case Some(d) => rest + [d]
      case None => rest
  }

  function RefStatus(ref: WitnessRef, digests: seq<string>): CheckStatus {
    match ref.digest
    case None => WitnessNotAnchored
    case Some(d) =>
      match ParseDigest(d)
      case Sha256 => if d in digests then Ok else MissingWitnessPacket
      case UnsupportedAlgorithm => UnsupportedDigestAlgorithm
      case Malformed => MalformedDigest
  }

  function RefOutcome(ref: WitnessRef, digests: seq<string>): CheckOutcome {
    CheckOutcome(WitnessDigest(ref.witnessType, ref.digest), RefStatus(ref, digests))
  }

  function RefOutcomes(refs: seq<WitnessRef>, digests: seq<string>): seq<CheckOutcome> {
    seq(|refs|, i requires 0 <= i < |refs| => RefOutcome(refs[i], digests))
  }

  /** Some reference is anchored to this digest. */
  predicate Cited(refs: seq<WitnessRef>, d: string) {
    exists ref :: ref in refs && ref.digest == Some(d) && ParseDigest(d) == Sha256
  }

  predicate FirstOfItsKind(digests: seq<string>, k: nat)
    requires k < |digests|
  {
    digests[k] !in digests[..k]
  }

  /** A reference claims the first packet of its digest and no other. */
  predicate Claimed(refs: seq<WitnessRef>, digests: seq<string>, k: nat)
    requires k < |digests|
  {
    FirstOfItsKind(digests, k) && Cited(refs, digests[k])
  }

  function ExtraOutcomes(refs: seq<WitnessRef>, digests: seq<string>, upTo: nat): seq<CheckOutcome>
    requires upTo <= |digests|
  {
    if upTo == 0 then []
    else
      var rest := ExtraOutcomes(refs, digests, upTo - 1);
      if Claimed(refs, digests, upTo - 1) then rest
      else rest + [CheckOutcome(ExtraSuppliedPacket(digests[upTo - 1]), ExtraWitnessPacket)]
  }

  function FreshnessStatus(lib: Library, r: Receipt, opts: CheckOptions): CheckStatus {
    if r.freshnessHorizon.None? || opts.asOf.None? then FreshnessNotApplicable
    else
      var horizon, asOf := lib.instant(r.freshnessHorizon.value), lib.instant(opts.asOf.value);
      if horizon.None? || asOf.None? then FreshnessNotApplicable
      else if asOf.value < horizon.value then Ok else Stale
  }

  function FreshnessOutcomes(lib: Library, r: Receipt, opts: CheckOptions): seq<CheckOutcome> {
    if opts.checkFreshness then [CheckOutcome(FreshnessHorizon, FreshnessStatus(lib, r, opts))] else []
  }

  function EvaluatorOutcomes(r: Receipt): seq<CheckOutcome> {
    match r.evaluator
    case Some(binding) => [CheckOutcome(EvaluatorCheck(binding), Ok)]
    case None => []
  }

  function Outcomes(lib: Library, r: Receipt, packets: seq<Packet>, opts: CheckOptions): seq<CheckOutcome> {
    var digests := PacketDigests(lib, packets);
    [SchemaOutcome(r)] + HashOutcomes(lib, r) + RefOutcomes(r.witnesses, digests)
    + ExtraOutcomes(r.witnesses, digests, |digests|) + FreshnessOutcomes(lib, r, opts) + EvaluatorOutcomes(r)
  }

  // ---- the check as it runs ----

  method CheckReceipt(lib: Library, receipt: Receipt, packets: seq<Packet>, opts: CheckOptions) returns (report: CheckReport)
    ensures fresh(report) && report.Valid()
    ensures report.outcomes == Outcomes(lib, receipt, packets, opts)
  {
    hide AnyBroken, CheckReport.Valid, HashStatus, RefOutcomes, Claimed, ExtraOutcomes, PacketDigests, FreshnessStatus;
    report := new CheckReport();
    var supported := receipt.schema == RECEIPT_SCHEMA;
    report.Push(CheckOutcome(Schema(receipt.schema), if supported then Ok else UnsupportedReceiptVersion));
    if supported {
      CheckContentHash(lib, receipt, report);
    }
    var digests := PacketDigests(lib, packets);
    var used := CheckWitnesses(receipt.witnesses, digests, report);
    CheckExtras(receipt.witnesses, digests, used, report);
    if opts.checkFreshness {
      CheckFreshness(lib, receipt, opts, report);
    }
    if receipt.evaluator.Some? {
      report.Push(CheckOutcome(EvaluatorCheck(receipt.evaluator.value), Ok));
    }
  }

  method CheckContentHash(lib: Library, receipt: Receipt, report: CheckReport)
    requires report.Valid() && receipt.schema == RECEIPT_SCHEMA
    modifies report
    ensures report.Valid() && report.outcomes == old(report.outcomes) + HashOutcomes(lib, receipt)
  {
    match (receipt.contentHash, lib.ContentHash(receipt)) {
      case (None, _) =>
        report.Push(CheckOutcome(ContentHash, ReceiptNotAnchored));
      case (Some(stored), Some(recomputed)) =>
        if stored == recomputed {
          report.Push(CheckOutcome(ContentHash, Ok));
        } else {
          report.Push(CheckOutcome(ContentHash, BrokenContentHash));
        }
      case (Some(stored), None) =>
        report.Push(CheckOutcome(ContentHash, BrokenContentHash));
    }
  }

  /** The first position holding `d`, if any. */
  method FindDigest(digests: seq<string>, d: string) returns (found: Option<nat>)
    ensures found.None? <==> d !in digests
    ensures found.Some? ==> found.value < |digests| && digests[found.value] == d && FirstOfItsKind(digests, found.value)
  {
    for i := 0 to |digests|
      invariant d !in digests[..i]
    {
      if digests[i] == d {
        return Some(i);
      }
    }
    return None;
  }

  method CheckWitnesses(refs: seq<WitnessRef>, digests: seq<string>, report: CheckReport) returns (used: array<bool>)
    requires report.Valid()
    modifies report
    ensures report.Valid() && report.outcomes == old(report.outcomes) + RefOutcomes(refs, digests)
    ensures fresh(used) && used.Length == |digests|
    ensures forall k :: 0 <= k < |digests| ==> (used[k] <==> Claimed(refs, digests, k))
  {
    hide ParseDigest, FindColon;
    used := new bool[|digests|](_ => false);
    for i := 0 to |refs|
      invariant report.Valid() && report.outcomes == old(report.outcomes) + RefOutcomes(refs[..i], digests)
      invariant forall k :: 0 <= k < |digests| ==> (used[k] <==> Claimed(refs[..i], digests, k))
    {
      RefOutcomesExtend(refs, digests, i);
      match refs[i].digest {
        case None =>
          report.Push(CheckOutcome(WitnessDigest(refs[i].witnessType, None), WitnessNotAnchored));
        case Some(d) =>
          match ParseDigest(d) {
            case Sha256 =>
              var matched := FindDigest(digests, d);
              match matched {
                case Some(index) =>
                  used[index] := true;
                  report.Push(CheckOutcome(WitnessDigest(refs[i].witnessType, Some(d)), Ok));
                case None =>
                  report.Push(CheckOutcome(WitnessDigest(refs[i].witnessType, Some(d)), MissingWitnessPacket));
              }
            case UnsupportedAlgorithm =>
              report.Push(CheckOutcome(WitnessDigest(refs[i].witnessType, Some(d)), UnsupportedDigestAlgorithm));
            case Malformed =>
              report.Push(CheckOutcome(WitnessDigest(refs[i].witnessType, Some(d)), MalformedDigest));
          }
      }
      ClaimedExtends(refs, digests, i);
    }
    assert refs[..|refs|] == refs;
  }

  lemma RefOutcomesExtend(refs: seq<WitnessRef>, digests: seq<string>, i: nat)
    requires i < |refs|
    ensures RefOutcomes(refs[..i + 1], digests) == RefOutcomes(refs[..i], digests) + [RefOutcome(refs[i], digests)]
  {
    hide RefOutcome;
  }

  /** One more reference claims one more packet: the first of its digest. */
  lemma ClaimedExtends(refs: seq<WitnessRef>, digests: seq<string>, i: nat)
    requires i < |refs|
    ensures forall k :: 0 <= k < |digests| ==>
      (Claimed(refs[..i + 1], digests, k) <==>
        (Claimed(refs[..i], digests, k)
         || (FirstOfItsKind(digests, k) && refs[i].digest == Some(digests[k]) && ParseDigest(digests[k]) == Sha256)))
  {
    hide ParseDigest, FirstOfItsKind;
    assert refs[..i + 1] == refs[..i] + [refs[i]];
  }

  method CheckExtras(ghost refs: seq<WitnessRef>, digests: seq<string>, used: array<bool>, report: CheckReport)
    requires report.Valid() && used.Length == |digests|
    requires forall k :: 0 <= k < |digests| ==> (used[k] <==> Claimed(refs, digests, k))
    modifies report
    ensures report.Valid() && report.outcomes == old(report.outcomes) + ExtraOutcomes(refs, digests, |digests|)
  {
    hide Claimed;
    for k := 0 to |digests|
      invariant report.Valid() && report.outcomes == old(report.outcomes) + ExtraOutcomes(refs, digests, k)
    {
      if !used[k] {
        report.Push(CheckOutcome(ExtraSuppliedPacket(digests[k]), ExtraWitnessPacket));
      }
    }
  }

  method CheckFreshness(lib: Library, receipt: Receipt, opts: CheckOptions, report: CheckReport)
    requires report.Valid() && opts.checkFreshness
    modifies report
    ensures report.Valid() && report.outcomes == old(report.outcomes) + FreshnessOutcomes(lib, receipt, opts)
  {
    match (receipt.freshnessHorizon, opts.asOf) {
      case (Some(horizon), Some(asOf)) =>
        match (lib.instant(horizon), lib.instant(asOf)) {
          case (Some(h), Some(a)) =>
            report.Push(CheckOutcome(FreshnessHorizon, if a < h then Ok else Stale));
          case _ =>
            report.Push(CheckOutcome(FreshnessHorizon, FreshnessNotApplicable));
        }
      case _ =>
        report.Push(CheckOutcome(FreshnessHorizon, FreshnessNotApplicable));
    }
  }

  // ---- exit codes ----

  /** Statuses that fail only under `--strict`. */
  predicate Tolerated(status: CheckStatus) {
    status in {ReceiptNotAnchored, WitnessNotAnchored, MissingWitnessPacket, ExtraWitnessPacket, FreshnessNotApplicable}
  }

  predicate Passes(outcomes: seq<CheckOutcome>, strict: bool) {
    forall o :: o in outcomes ==> o.status == Ok || (!strict && Tolerated(o.status))
  }

  function ExitCode(outcomes: seq<CheckOutcome>, strict: bool): int {
    if AnyBroken(outcomes) then 2 else if Passes(outcomes, strict) then 0 else 1
  }

  function Severity(status: CheckStatus, strict: bool): int {
    match status
    case Ok => 0
    case ReceiptNotAnchored => if strict then 1 else 0
    case WitnessNotAnchored => if strict then 1 else 0
    case MissingWitnessPacket => if strict then 1 else 0
    case ExtraWitnessPacket => if strict then 1 else 0
    case FreshnessNotApplicable => if strict then 1 else 0
    case Stale => 1
    case MalformedDigest => 1
    case UnsupportedDigestAlgorithm => 1
    case UnsupportedReceiptVersion => 1
    case BrokenContentHash => 2
  }

  method ExitCodeFor(report: CheckReport, strict: bool) returns (code: int)
    ensures code == if report.integrityBroken then 2 else ExitCode(report.outcomes, strict)
  {
    if report.integrityBroken {
      return 2;
    }
    var outcomes := report.outcomes;
    var worst := 0;
    for i := 0 to |outcomes|
      invariant worst == ExitCode(outcomes[..i], strict)
    {
      var candidate := Severity(outcomes[i].status, strict);
      ExitCodeExtends(outcomes[..i], outcomes[i], strict);
      assert outcomes[..i + 1] == outcomes[..i] + [outcomes[i]];
      if candidate > worst {
        worst := candidate;
      }
    }
    assert outcomes[..|outcomes|] == outcomes;
    return worst;
  }

  /** The exit code of a longer report is the worse of the old code and the new outcome's severity. */
  lemma ExitCodeExtends(outcomes: seq<CheckOutcome>, o: CheckOutcome, strict: bool)
    ensures ExitCode(outcomes + [o], strict) ==
      if Severity(o.status, strict) > ExitCode(outcomes, strict) then Severity(o.status, strict) else ExitCode(outcomes, strict)
  {
    var longer := outcomes + [o];
    assert o in longer;
    assert forall x :: x in longer <==> x in outcomes || x == o;
  }
}
