/** The claim registry and evaluator (crates/nq-core/src/claim_registry.rs). */
module ClaimRegistry {
  import opened Order
  import opened Evidence

  const EVALUATOR := EvaluatorBinding("claim_registry", 2)

  datatype LeafCondition =
    | ExitCodeZero
    | StringFieldEquals(path: string, expected: string)
    | NumberFieldEquals(path: string, number: int)
    | BoolFieldTrue(path: string)
  {
    predicate Holds(obs: Json) {
      match this
      case ExitCodeZero => obs.Get("exit_code") == Some(JInt(0))
      case StringFieldEquals(path, expected) => ResolvePath(obs, Segments(path)) == Some(JString(expected))
      case NumberFieldEquals(path, number) => ResolvePath(obs, Segments(path)) == Some(JInt(number))
      case BoolFieldTrue(path) => ResolvePath(obs, Segments(path)) == Some(JBool(true))
    }
  }

  /** `path.split('.')`: always at least one segment. */
  function Segments(path: string): (r: seq<string>)
    ensures r != []
  {
    if path == "" then [""]
    else
      var rest := Segments(path[1..]);
      if path[0] == '.' then [""] + rest else [[path[0]] + rest[0]] + rest[1..]
  }

  function ResolvePath(v: Json, segments: seq<string>): Option<Json> {
    if segments == [] then Some(v)
    else
      match v.Get(segments[0])
      case None => None
      case Some(w) => ResolvePath(w, segments[1..])
  }

  datatype ClaimEntry =
    | Leaf(name: string, witnessType: string, observationType: string, condition: LeafCondition)
    | Composite(name: string, requirements: seq<string>)
    | NonMintable(name: string, weaker: seq<string>)
  {
    /** Names this entry's resolution looks up. */
    function Mentions(): seq<string> {
      match this
      case Leaf(_, _, _, _) => []
      case Composite(_, requirements) => requirements
      case NonMintable(_, weaker) => weaker
    }
  }

  type Entries = map<string, ClaimEntry>

  /** `register` files an entry under its own name. */
  ghost predicate Keyed(reg: Entries) {
    forall n :: n in reg ==> reg[n].name == n
  }

  /** `rank` falls along every registered name an entry mentions: evaluation cannot loop. */
  ghost predicate WellFounded(reg: Entries, rank: map<string, nat>) {
    && (forall n :: n in reg ==> n in rank)
    && (forall n, m :: n in reg && m in reg[n].Mentions() && m in reg ==> rank[m] < rank[n])
  }

  class Registry {
    var entries: Entries

    constructor ()
      ensures entries == map[]
    {
      entries := map[];
    }

    method Register(entry: ClaimEntry)
      modifies this
      ensures entries == old(entries)[entry.name := entry]
      ensures old(Keyed(entries)) ==> Keyed(entries)
    {
      entries := entries[entry.name := entry];
    }

    function Lookup(name: string): Option<ClaimEntry>
      reads this
    {
      if name in entries then Some(entries[name]) else None
    }
  }

  const STARTER: seq<ClaimEntry> := [
    Leaf("repo_clean", "git_status", "git_status_porcelain", StringFieldEquals("porcelain", "")),
    Leaf("tests_passed", "pytest", "pytest_run", ExitCodeZero),
    Leaf("diff_scope_matches_claim", "diff_scope", "diff_scope_porcelain", BoolFieldTrue("matches_declared_scope")),
    Leaf("continuity_rely_eligible", "continuity_rely_record", "continuity_rely_result", BoolFieldTrue("rely_ok")),
    Leaf("docket_attempt_settled", "docket_attempt_dossier", "docket_attempt_core", StringFieldEquals("docket_state", "committed")),
    Composite("ready_for_review", ["repo_clean", "tests_passed", "diff_scope_matches_claim"]),
    NonMintable("safe_to_merge", ["ready_for_review"])]

  /** Leaves below composites below non-mintables. */
  function KindRank(entry: ClaimEntry): nat {
    if entry.Leaf? then 0 else if entry.Composite? then 1 else 2
  }

  /** The shape of the starter catalog: composites require leaves or unknown names, non-mintables
      suggest leaves, composites or unknown names. */
  ghost predicate Layered(reg: Entries) {
    forall n, m :: n in reg && m in reg[n].Mentions() && m in reg ==> KindRank(reg[m]) < KindRank(reg[n])
  }

  lemma LayeredIsWellFounded(reg: Entries)
    requires Layered(reg)
    ensures WellFounded(reg, map n | n in reg :: KindRank(reg[n]))
  {}

  method TrackBStarter() returns (r: Registry)
    ensures fresh(r) && Keyed(r.entries) && WellFounded(r.entries, map n | n in r.entries :: KindRank(r.entries[n]))
    ensures forall e :: e in STARTER ==> e.name in r.entries && r.entries[e.name] == e
    ensures forall n :: n in r.entries ==> r.entries[n] in STARTER
  {
    r := new Registry();
    var i := 0;
    while i < |STARTER|
      invariant 0 <= i <= |STARTER| && fresh(r) && Keyed(r.entries)
      invariant forall n :: n in r.entries <==> exists j :: 0 <= j < i && STARTER[j].name == n
      invariant forall j :: 0 <= j < i ==> STARTER[j].name in r.entries && r.entries[STARTER[j].name] == STARTER[j]
    {
      StarterNamesDiffer(i);
      r.Register(STARTER[i]);
      i := i + 1;
    }
    StarterIsLayered(r.entries);
    LayeredIsWellFounded(r.entries);
  }

  lemma StarterNamesDiffer(i: nat)
    requires i < |STARTER|
    ensures forall j :: 0 <= j < i ==> STARTER[j].name != STARTER[i].name
  {}

  lemma StarterIsLayered(reg: Entries)
    requires forall n :: n in reg ==> reg[n] in STARTER && reg[n].name == n
    ensures Layered(reg)
  {
    forall n, m | n in reg && m in reg[n].Mentions() && m in reg ensures KindRank(reg[m]) < KindRank(reg[n]) {
      StarterKinds(reg[n]);
      StarterMentions(reg[n]);
      StarterKinds(reg[m]);
    }
  }

  /** The starter's composite and non-mintable are told apart by the lengths of their names. */
  lemma StarterKinds(e: ClaimEntry)
    requires e in STARTER
    ensures e.Composite? <==> |e.name| == 16
    ensures e.NonMintable? <==> |e.name| == 13
  {}

  lemma StarterMentions(e: ClaimEntry)
    requires e in STARTER
    ensures e.Composite? ==> forall m :: m in e.Mentions() ==> |m| != 16 && |m| != 13
    ensures e.NonMintable? ==> forall m :: m in e.Mentions() ==> |m| == 16
  {}

  // ---- evidence for a leaf ----

  predicate OfType(obs: Json, t: string) { obs.Get("type") == Some(JString(t)) }

  function OfTypeOnly(observations: seq<Json>, t: string): seq<Json> {
    if observations == [] then []
    else (if OfType(observations[0], t) then [observations[0]] else []) + OfTypeOnly(observations[1..], t)
  }

  function Matching(leaf: ClaimEntry, packets: seq<Packet>): seq<Json>
    requires leaf.Leaf?
  {
    if packets == [] then []
    else (if packets[0].witnessType == leaf.witnessType then OfTypeOnly(packets[0].observations, leaf.observationType) else [])
         + Matching(leaf, packets[1..])
  }

  /** Some packet of the right type carries this observation of the right type. */
  ghost predicate Witnessed(leaf: ClaimEntry, packets: seq<Packet>, obs: Json)
    requires leaf.Leaf?
  {
    exists p :: p in packets && p.witnessType == leaf.witnessType && obs in p.observations && OfType(obs, leaf.observationType)
  }

  lemma {:induction false} OfTypeOnlyMembers(observations: seq<Json>, t: string, obs: Json)
    ensures obs in OfTypeOnly(observations, t) <==> obs in observations && OfType(obs, t)
  {
    if observations == [] {
    } else {
      OfTypeOnlyMembers(observations[1..], t, obs);
      assert observations == [observations[0]] + observations[1..];
    }
  }

  lemma {:induction false} MatchingMembers(leaf: ClaimEntry, packets: seq<Packet>, obs: Json)
    requires leaf.Leaf?
    ensures obs in Matching(leaf, packets) <==> Witnessed(leaf, packets, obs)
  {
    if packets == [] {
    } else {
      MatchingMembers(leaf, packets[1..], obs);
      OfTypeOnlyMembers(packets[0].observations, leaf.observationType, obs);
      assert packets == [packets[0]] + packets[1..];
      assert forall p :: p in packets <==> p == packets[0] || p in packets[1..];
      hide OfType, OfTypeOnly;
    }
  }

  // ---- resolution ----

  datatype Context = Context(subject: string, generatedAt: string, packets: seq<Packet>)

  function ResolveLeaf(leaf: ClaimEntry, ctx: Context): Receipt
    requires leaf.Leaf?
  {
    var receipt := NewReceipt(leaf.name, ctx.subject, ctx.generatedAt);
    var matching := Matching(leaf, ctx.packets);
    if matching == [] then
      receipt.(status := NeedsMoreEvidence, statusReasons := [MissingRequiredClaim],
               notVerified := [NotVerifiedEntry(leaf.name, NoApplicableObservation)])
    else if forall obs :: obs in matching ==> leaf.condition.Holds(obs) then
      receipt.(status := Verified, statusReasons := [AllRequirementsVerified], verified := [leaf.name])
    else
      receipt.(status := NotVerified, statusReasons := [ClaimConditionFailed],
               notVerified := [NotVerifiedEntry(leaf.name, ConditionFailed)])
  }

  /** The accumulators of the composite loop. */
  datatype Tally = Tally(verified: seq<string>, notVerified: seq<NotVerifiedEntry>, needsMore: bool)

  function TallyOne(t: Tally, requirement: string, sub: Option<Receipt>): Tally {
    match sub
    case None => t.(notVerified := t.notVerified + [NotVerifiedEntry(requirement, UnknownClaim)])
    case Some(r) =>
      if r.status == Verified then t.(verified := t.verified + [requirement])
      else t.(notVerified := t.notVerified + [NotVerifiedEntry(requirement, SubStatus(r.status))],
              needsMore := t.needsMore || r.status == NeedsMoreEvidence)
  }

  function CompositeReceipt(name: string, ctx: Context, t: Tally): Receipt {
    var receipt := NewReceipt(name, ctx.subject, ctx.generatedAt).(verified := t.verified, notVerified := t.notVerified);
    if t.notVerified == [] then
      receipt.(status := Verified, statusReasons := [AllRequirementsVerified])
    else if t.verified == [] && t.needsMore then
      receipt.(status := NeedsMoreEvidence, statusReasons := [MissingRequiredClaim])
    else
      receipt.(status := PartiallyVerified,
               statusReasons := if t.needsMore then [PartialComposite, MissingRequiredClaim] else [PartialComposite])
  }

  /** The fields the non-mintable loop overwrites and extends. */
  datatype Surfaced = Surfaced(verified: seq<string>, suggested: seq<string>)

  function SurfaceOne(s: Surfaced, weaker: string, sub: Option<Receipt>): Surfaced {
    match sub
    case None => s
    case Some(r) =>
      Surfaced(if r.verified != [] then r.verified else s.verified,
               if r.status == Verified || r.status == PartiallyVerified then s.suggested + [weaker] else s.suggested)
  }

  function NonMintableReceipt(name: string, ctx: Context, s: Surfaced): Receipt {
    NewReceipt(name, ctx.subject, ctx.generatedAt).(
      status := NotVerified,
      statusReasons := if s.suggested == [] then [NonMintableClaim] else [NonMintableClaim, SuggestedWeakerClaimAvailable],
      verified := s.verified,
      suggestedWeakerClaims := s.suggested)
  }

  function Resolve(reg: Entries, ghost rank: map<string, nat>, n: string, ctx: Context): Receipt
    requires WellFounded(reg, rank) && n in reg
    decreases rank[n], 1, 0
  {
    match reg[n]
    case Leaf(_, _, _, _) => ResolveLeaf(reg[n], ctx)
    case Composite(name, requirements) => CompositeReceipt(name, ctx, TallyUpTo(reg, rank, n, requirements, ctx))
    case NonMintable(name, weaker) => NonMintableReceipt(name, ctx, SurfaceUpTo(reg, rank, n, weaker, ctx))
  }

  function ResolveMention(reg: Entries, ghost rank: map<string, nat>, n: string, m: string, ctx: Context): Option<Receipt>
    requires WellFounded(reg, rank) && n in reg && m in reg[n].Mentions()
    decreases rank[n], 0, 0
  {
    if m in reg then Some(Resolve(reg, rank, m, ctx)) else None
  }

  function TallyUpTo(reg: Entries, ghost rank: map<string, nat>, n: string, names: seq<string>, ctx: Context): Tally
    requires WellFounded(reg, rank) && n in reg && forall m :: m in names ==> m in reg[n].Mentions()
    decreases rank[n], 0, 1 + |names|
  {
    if names == [] then Tally([], [], false)
    else
      var m := names[|names| - 1];
      TallyOne(TallyUpTo(reg, rank, n, names[..|names| - 1], ctx), m, ResolveMention(reg, rank, n, m, ctx))
  }

  function SurfaceUpTo(reg: Entries, ghost rank: map<string, nat>, n: string, names: seq<string>, ctx: Context): Surfaced
    requires WellFounded(reg, rank) && n in reg && forall m :: m in names ==> m in reg[n].Mentions()
    decreases rank[n], 0, 1 + |names|
  {
    if names == [] then Surfaced([], [])
    else
      var m := names[|names| - 1];
      SurfaceOne(SurfaceUpTo(reg, rank, n, names[..|names| - 1], ctx), m, ResolveMention(reg, rank, n, m, ctx))
  }

  // ---- resolution as it runs ----

  method ResolveClaim(reg: Entries, ghost rank: map<string, nat>, n: string, ctx: Context) returns (r: Receipt)
    requires WellFounded(reg, rank) && n in reg
    ensures r == Resolve(reg, rank, n, ctx)
    decreases rank[n], 1
  {
    match reg[n] {
      case Leaf(_, _, _, _) =>
        r := ResolveLeaf(reg[n], ctx);
      case Composite(name, requirements) =>
        r := ResolveComposite(reg, rank, n, ctx);
      case NonMintable(name, weaker) =>
        r := ResolveNonMintable(reg, rank, n, ctx);
    }
  }

  method ResolveComposite(reg: Entries, ghost rank: map<string, nat>, n: string, ctx: Context) returns (r: Receipt)
    requires WellFounded(reg, rank) && n in reg && reg[n].Composite?
    ensures r == Resolve(reg, rank, n, ctx)
    decreases rank[n], 0
  {
    var names := reg[n].requirements;
    var verified: seq<string>, notVerified: seq<NotVerifiedEntry>, needsMore := [], [], false;
    for i := 0 to |names|
      invariant Tally(verified, notVerified, needsMore) == TallyUpTo(reg, rank, n, names[..i], ctx)
    {
      assert names[..i + 1][..i] == names[..i];
      if names[i] !in reg {
        notVerified := notVerified + [NotVerifiedEntry(names[i], UnknownClaim)];
      } else {
        var sub := ResolveClaim(reg, rank, names[i], ctx);
        match sub.status {
          case Verified =>
            verified := verified + [names[i]];
          case NeedsMoreEvidence =>
            needsMore := true;
            notVerified := notVerified + [NotVerifiedEntry(names[i], SubStatus(NeedsMoreEvidence))];
          case _ =>
            notVerified := notVerified + [NotVerifiedEntry(names[i], SubStatus(sub.status))];
        }
      }
    }
    assert names[..|names|] == names;
    r := CompositeReceipt(reg[n].name, ctx, Tally(verified, notVerified, needsMore));
  }

  method ResolveNonMintable(reg: Entries, ghost rank: map<string, nat>, n: string, ctx: Context) returns (r: Receipt)
    requires WellFounded(reg, rank) && n in reg && reg[n].NonMintable?
    ensures r == Resolve(reg, rank, n, ctx)
    decreases rank[n], 0
  {
    var names := reg[n].weaker;
    r := NewReceipt(reg[n].name, ctx.subject, ctx.generatedAt).(status := NotVerified, statusReasons := [NonMintableClaim]);
    ghost var blank := r;
    for i := 0 to |names|
      invariant r == blank.(verified := r.verified, suggestedWeakerClaims := r.suggestedWeakerClaims)
      invariant Surfaced(r.verified, r.suggestedWeakerClaims) == SurfaceUpTo(reg, rank, n, names[..i], ctx)
    {
      assert names[..i + 1][..i] == names[..i];
      if names[i] in reg {
        var sub := ResolveClaim(reg, rank, names[i], ctx);
        if sub.verified != [] {
          r := r.(verified := sub.verified);
        }
        if sub.status == Verified || sub.status == PartiallyVerified {
          r := r.(suggestedWeakerClaims := r.suggestedWeakerClaims + [names[i]]);
        }
      }
    }
    assert names[..|names|] == names;
    if r.suggestedWeakerClaims != [] {
      r := r.(statusReasons := r.statusReasons + [SuggestedWeakerClaimAvailable]);
    }
  }
}
