/** Witness packets (crates/nq-witness/src/witness.rs) and the receipt document
    (crates/nq-core/src/receipt.rs) shared by the claim evaluator and the receipt checker. */
module Evidence {
  import opened Order
  import opened Text

  const WITNESS_SCHEMA := "nq.witness.v1"
  const RECEIPT_SCHEMA := "nq.receipt.v1"
  const NATIVE := "native_observation"
  const LEGACY_PROJECTION := "legacy_projection"
  const EXTERNAL_PROJECTION := "external_projection"
  const NATIVE_CUSTODY_LIMIT := "native_witness_custody"

  datatype Json =
    | JNull
    | JBool(b: bool)
    | JInt(n: int)
    | JFloat(text: string)
    | JString(s: string)
    | JArray(items: seq<Json>)
    | JObject(fields: map<string, Json>)
  {
    /** `Value::get` with a string key: only objects have members. */
    function Get(key: string): Option<Json> {
      if JObject? && key in fields then Some(fields[key]) else None
    }
  }

  datatype WitnessPosition = Substrate | ApplicationInternal | Platform

  datatype Packet = Packet(
    schema: string,
    witnessType: string,
    subject: string,
    accessPath: string,
    observedAt: string,
    generatedAt: string,
    observations: seq<Json>,
    coverageLimits: seq<string>,
    dependencies: seq<string>,
    custodyBasis: Option<string>,
    sourceFindingRef: Option<string>,
    projectionLimits: seq<string>,
    position: Option<WitnessPosition>)
  {
    /** `instant` reads an RFC 3339 timestamp. */
    predicate Valid(instant: string -> Option<int>) {
      && schema == WITNESS_SCHEMA
      && !Blank(witnessType) && !Blank(subject) && !Blank(accessPath) && !Blank(observedAt) && !Blank(generatedAt)
      && instant(observedAt).Some? && instant(generatedAt).Some?
      && (forall o :: o in observations ==> o.Get("claim").None? && o.Get("supports").None?)
      && CustodyValid()
    }

    predicate CustodyValid() {
      if custodyBasis.None? || custodyBasis.value == NATIVE then
        sourceFindingRef.None? && projectionLimits == []
      else
        && custodyBasis.value in {LEGACY_PROJECTION, EXTERNAL_PROJECTION}
        && sourceFindingRef.Some? && !Blank(sourceFindingRef.value)
        && (forall l :: l in projectionLimits ==> !Blank(l))
        && NATIVE_CUSTODY_LIMIT in projectionLimits
    }
  }

  datatype Status = Verified | PartiallyVerified | NeedsMoreEvidence | NotVerified | InvalidEvidence

  datatype StatusReason =
    | AllRequirementsVerified | PartialComposite | MissingRequiredClaim | ClaimConditionFailed | NonMintableClaim
    | SuggestedWeakerClaimAvailable | InvalidWitness

  datatype Shortfall =
    | UnknownClaim | NoApplicableObservation | ConditionFailed | InvalidWitnessPacket(index: nat) | SubStatus(status: Status)

  datatype NotVerifiedEntry = NotVerifiedEntry(claim: string, reason: Shortfall)

  datatype WitnessRef = WitnessRef(
    witnessType: string,
    digest: Option<string>,
    observedAt: Option<string>,
    custodyBasis: Option<string>)

  datatype EvaluatorBinding = EvaluatorBinding(evaluator: string, version: nat)

  datatype Receipt = Receipt(
    schema: string,
    claim: string,
    subject: string,
    target: Option<string>,
    status: Status,
    statusReasons: seq<StatusReason>,
    verified: seq<string>,
    notVerified: seq<NotVerifiedEntry>,
    suggestedWeakerClaims: seq<string>,
    cannotTestify: seq<string>,
    witnesses: seq<WitnessRef>,
    observedAtMin: Option<string>,
    observedAtMax: Option<string>,
    generatedAt: string,
    evaluator: Option<EvaluatorBinding>,
    freshnessHorizon: Option<string>,
    signals: Option<Json>,
    contentHash: Option<string>)
  {
    /** What the content hash covers: everything but the hash itself. */
    function Body(): Receipt { this.(contentHash := None) }
  }

  function NewReceipt(claim: string, subject: string, generatedAt: string): Receipt {
    Receipt(RECEIPT_SCHEMA, claim, subject, None, NotVerified, [], [], [], [], [], [], None, None, generatedAt, None, None, None, None)
  }

  /** The library functions evaluation and checking rest on: timestamps, and the digests of a packet and
      of a receipt body, each of which may fail. */
  datatype Library = Library(
    instant: string -> Option<int>,
    digest: Packet -> Option<string>,
    hash: Receipt -> Option<string>)
  {
    /** Packet digests come out as `sha256:` and 64 lowercase hexadecimal digits. */
    ghost predicate DigestsWellFormed() {
      forall p :: digest(p).Some? ==> IsSha256Digest(digest(p).value)
    }

    /** No two of these packets collide. */
    ghost predicate DigestsSeparate(packets: set<Packet>) {
      forall p, q :: p in packets && q in packets && digest(p).Some? && digest(p) == digest(q) ==> p == q
    }

    /** These two receipt bodies do not collide. */
    ghost predicate HashSeparates(a: Receipt, b: Receipt) {
      ContentHash(a).Some? && ContentHash(a) == ContentHash(b) ==> a.(contentHash := None) == b.(contentHash := None)
    }

    function ContentHash(r: Receipt): Option<string> { hash(r.Body()) }

    /** Stamp the evaluator, then hash the body; a failed hash leaves the stored one as it was. */
    function Seal(r: Receipt, binding: EvaluatorBinding): Receipt {
      var stamped := r.(evaluator := Some(binding));
      var h := ContentHash(stamped);
      if h.Some? then stamped.(contentHash := h) else stamped
    }
  }
}
