/** Packets, observations and receipts in their own terms: what a valid packet is, what a leaf demands of an
    observation, and what the starter claims mean (crates/nq-witness/src/witness.rs and
    crates/nq-core/src/claim_registry.rs). */
module EvidenceLaws {
  import opened Order
  import opened Text
  import opened Evidence
  import opened ClaimRegistry
  import opened ClaimLaws
  import opened Evaluator
  import opened CheckLaws

  // ---- packets ----

  /** The observation has a member of this name. */
  ghost predicate Names(o: Json, key: string) {
    o.JObject? && key in o.fields
  }

  /** Custody is native, and then nothing is projected, or a projection that cites its source and
      disclaims native custody. */
  ghost predicate CustodyLaw(p: Packet) {
    || (p.custodyBasis in {None, Some("native_observation")} && p.sourceFindingRef == None && |p.projectionLimits| == 0)
    || (&& p.custodyBasis in {Some("legacy_projection"), Some("external_projection")}
        && (exists source :: p.sourceFindingRef == Some(source) && !Blank(source))
        && "native_witness_custody" in p.projectionLimits
        && forall l :: l in p.projectionLimits ==> !Blank(l))
  }

  ghost predicate PacketLaw(p: Packet, instant: string -> Option<int>) {
    && p.schema == "nq.witness.v1"
    && (forall text :: text in {p.witnessType, p.subject, p.accessPath, p.observedAt, p.generatedAt} ==> !Blank(text))
    && instant(p.observedAt).Some? && instant(p.generatedAt).Some?
    && (forall i :: 0 <= i < |p.observations| ==> !Names(p.observations[i], "claim") && !Names(p.observations[i], "supports"))
    && CustodyLaw(p)
  }

  lemma CustodyIsExact(p: Packet)
    ensures p.CustodyValid() <==> CustodyLaw(p)
  {
    hide Blank;
    BasesDiffer();
    if p.custodyBasis == None || p.custodyBasis == Some(NATIVE) {
      assert p.custodyBasis in {None, Some("native_observation")};
    } else if p.custodyBasis.value == LEGACY_PROJECTION || p.custodyBasis.value == EXTERNAL_PROJECTION {
      assert p.custodyBasis in {Some("legacy_projection"), Some("external_projection")};
    }
  }

  lemma BasesDiffer()
    ensures NATIVE != LEGACY_PROJECTION && NATIVE != EXTERNAL_PROJECTION
  {
    assert |NATIVE| == 18 && |LEGACY_PROJECTION| == 17 && |EXTERNAL_PROJECTION| == 19;
  }

  /** Validation accepts exactly these packets: whole envelopes that testify and never claim. */
  lemma PacketsAreExact(p: Packet, instant: string -> Option<int>)
    ensures p.Valid(instant) <==> PacketLaw(p, instant)
  {
    CustodyIsExact(p);
    TestifiesOnly(p.observations, "claim");
    TestifiesOnly(p.observations, "supports");
    hide Packet.CustodyValid, CustodyLaw, Blank, Names, Json.Get;
  }

  lemma TestifiesOnly(observations: seq<Json>, key: string)
    ensures (forall o :: o in observations ==> o.Get(key).None?) <==>
      (forall i :: 0 <= i < |observations| ==> !Names(observations[i], key))
  {
    if forall o :: o in observations ==> o.Get(key).None? {
      forall i | 0 <= i < |observations| ensures !Names(observations[i], key) { assert observations[i] in observations; }
    }
    if forall i :: 0 <= i < |observations| ==> !Names(observations[i], key) {
      forall o | o in observations ensures o.Get(key).None? {
        var i :| 0 <= i < |observations| && observations[i] == o;
        assert !Names(observations[i], key);
      }
    }
  }

  // ---- dotted paths ----

  function Join(parts: seq<string>): string {
    if parts == [] then "" else if |parts| == 1 then parts[0] else parts[0] + "." + Join(parts[1..])
  }

  /** A path is cut at every dot and nowhere else. */
  lemma {:induction false} SegmentsAreExact(path: string)
    ensures Join(Segments(path)) == path && forall part :: part in Segments(path) ==> '.' !in part
  {
    if path == "" {
    } else {
      var rest := Segments(path[1..]);
      SegmentsAreExact(path[1..]);
      assert path == [path[0]] + path[1..];
      if path[0] == '.' {
        assert ([""] + rest)[1..] == rest;
      } else {
        var parts := [[path[0]] + rest[0]] + rest[1..];
        assert parts[1..] == rest[1..];
        assert rest[0] in rest;
        forall part | part in parts ensures '.' !in part {
          if part == parts[0] {
          } else {
            assert part in rest[1..];
            assert part in rest;
          }
        }
        JoinHead([path[0]], rest);
      }
    }
  }

  lemma JoinHead(c: string, parts: seq<string>)
    requires parts != []
    ensures Join([c + parts[0]] + parts[1..]) == c + Join(parts)
  {
    var longer := [c + parts[0]] + parts[1..];
    assert longer[1..] == parts[1..] && longer[0] == c + parts[0] && |longer| == |parts|;
    if |parts| == 1 {
    } else {
      JoinTwo(longer);
      JoinTwo(parts);
      hide Join;
      Regroup(c, parts[0], "." + Join(parts[1..]));
    }
  }

  lemma Regroup(a: string, b: string, c: string)
    ensures (a + b) + c == a + (b + c)
  {}

  lemma JoinTwo(parts: seq<string>)
    requires |parts| > 1
    ensures Join(parts) == parts[0] + ("." + Join(parts[1..]))
  {
    Regroup(parts[0], ".", Join(parts[1..]));
  }

  /** Following names from value to value. */
  ghost predicate Leads(v: Json, names: seq<string>, w: Json) {
    exists values: seq<Json> :: IsTrail(v, names, w, values)
  }

  ghost predicate IsTrail(v: Json, names: seq<string>, w: Json, values: seq<Json>) {
    && |values| == |names| + 1 && values[0] == v && values[|names|] == w
    && forall i :: 0 <= i < |names| ==> values[i].JObject? && names[i] in values[i].fields && values[i].fields[names[i]] == values[i + 1]
  }

  lemma TrailUnfolds(v: Json, names: seq<string>, w: Json)
    requires names != []
    ensures Leads(v, names, w) <==> v.JObject? && names[0] in v.fields && Leads(v.fields[names[0]], names[1..], w)
  {
    if values: seq<Json> :| IsTrail(v, names, w, values) {
      assert values[0].JObject? && names[0] in values[0].fields && values[0].fields[names[0]] == values[0 + 1];
      assert IsTrail(v.fields[names[0]], names[1..], w, values[1..]);
    }
    if v.JObject? && names[0] in v.fields && Leads(v.fields[names[0]], names[1..], w) {
      var values: seq<Json> :| IsTrail(v.fields[names[0]], names[1..], w, values);
      var longer := [v] + values;
      forall i | 0 <= i < |names|
        ensures longer[i].JObject? && names[i] in longer[i].fields && longer[i].fields[names[i]] == longer[i + 1]
      {
        if i > 0 { assert names[1..][i - 1] == names[i]; }
      }
      assert IsTrail(v, names, w, longer);
    }
  }

  lemma {:induction false} PathsAreExact(v: Json, names: seq<string>, w: Json)
    ensures ResolvePath(v, names) == Some(w) <==> Leads(v, names, w)
  {
    if names == [] {
      if v == w { assert IsTrail(v, names, w, [v]); }
    } else {
      TrailUnfolds(v, names, w);
      hide Leads;
      if v.JObject? && names[0] in v.fields { PathsAreExact(v.fields[names[0]], names[1..], w); }
    }
  }

  // ---- what a leaf demands ----

  /** The condition on an observation, said of its members. */
  ghost predicate Demands(condition: LeafCondition, obs: Json) {
    match condition
    case ExitCodeZero => Leads(obs, ["exit_code"], JInt(0))
    case StringFieldEquals(path, expected) => Leads(obs, Segments(path), JString(expected))
    case NumberFieldEquals(path, number) => Leads(obs, Segments(path), JInt(number))
    case BoolFieldTrue(path) => Leads(obs, Segments(path), JBool(true))
  }

  lemma ConditionsAreExact(condition: LeafCondition, obs: Json)
    ensures condition.Holds(obs) <==> Demands(condition, obs)
  {
    forall names, w ensures ResolvePath(obs, names) == Some(w) <==> Leads(obs, names, w) { PathsAreExact(obs, names, w); }
    assert ResolvePath(obs, ["exit_code"]) == obs.Get("exit_code") by {
      if obs.Get("exit_code").Some? { assert ["exit_code"][1..] == []; }
    }
    hide ResolvePath, Leads, Segments;
  }

  /** The observation is an object with this member. */
  ghost predicate Has(obs: Json, key: string, value: Json) {
    obs.JObject? && key in obs.fields && obs.fields[key] == value
  }

  lemma {:induction false} PlainPath(key: string)
    requires '.' !in key
    ensures Segments(key) == [key]
  {
    if key == "" {
    } else {
      assert forall c :: c in key[1..] ==> c in key;
      assert key == [key[0]] + key[1..];
      PlainPath(key[1..]);
    }
  }

  lemma PlainField(obs: Json, key: string, value: Json)
    requires '.' !in key
    ensures ResolvePath(obs, Segments(key)) == Some(value) <==> Has(obs, key, value)
  {
    PlainPath(key);
    assert [key][1..] == [];
  }

  /** The kind of evidence a starter leaf wants: which witness, which observation, which member, which value. */
  datatype Demand = Demand(claim: string, witnessType: string, observationType: string, key: string, value: Json)

  const DEMANDS: seq<Demand> := [
    Demand("repo_clean", "git_status", "git_status_porcelain", "porcelain", JString("")),
    Demand("tests_passed", "pytest", "pytest_run", "exit_code", JInt(0)),
    Demand("diff_scope_matches_claim", "diff_scope", "diff_scope_porcelain", "matches_declared_scope", JBool(true)),
    Demand("continuity_rely_eligible", "continuity_rely_record", "continuity_rely_result", "rely_ok", JBool(true)),
    Demand("docket_attempt_settled", "docket_attempt_dossier", "docket_attempt_core", "docket_state", JString("committed"))]

  /** The entry is a leaf that wants exactly that. */
  ghost predicate Wants(e: ClaimEntry, d: Demand) {
    && e.Leaf? && e.name == d.claim && e.witnessType == d.witnessType && e.observationType == d.observationType
    && forall obs :: e.condition.Holds(obs) <==> Has(obs, d.key, d.value)
  }

  lemma StringLeafWants(name: string, witnessType: string, observationType: string, key: string, expected: string)
    requires '.' !in key
    ensures Wants(Leaf(name, witnessType, observationType, StringFieldEquals(key, expected)),
                  Demand(name, witnessType, observationType, key, JString(expected)))
  {
    forall obs ensures StringFieldEquals(key, expected).Holds(obs) <==> Has(obs, key, JString(expected)) {
      PlainField(obs, key, JString(expected));
    }
  }

  lemma TrueLeafWants(name: string, witnessType: string, observationType: string, key: string)
    requires '.' !in key
    ensures Wants(Leaf(name, witnessType, observationType, BoolFieldTrue(key)),
                  Demand(name, witnessType, observationType, key, JBool(true)))
  {
    forall obs ensures BoolFieldTrue(key).Holds(obs) <==> Has(obs, key, JBool(true)) { PlainField(obs, key, JBool(true)); }
  }

  /** The starter's leaves want what the table says, its composite asks for the three checks of a change, and
      its one non-mintable claim suggests that composite. */
  lemma StarterMeans()
    ensures |STARTER| == 7
    ensures forall i :: 0 <= i < 5 ==> Wants(STARTER[i], DEMANDS[i])
    ensures STARTER[5] == Composite("ready_for_review", ["repo_clean", "tests_passed", "diff_scope_matches_claim"])
    ensures STARTER[6] == NonMintable("safe_to_merge", ["ready_for_review"])
  {
    StringLeafWants("repo_clean", "git_status", "git_status_porcelain", "porcelain", "");
    TrueLeafWants("diff_scope_matches_claim", "diff_scope", "diff_scope_porcelain", "matches_declared_scope");
    TrueLeafWants("continuity_rely_eligible", "continuity_rely_record", "continuity_rely_result", "rely_ok");
    StringLeafWants("docket_attempt_settled", "docket_attempt_dossier", "docket_attempt_core", "docket_state", "committed");
    assert Wants(STARTER[1], DEMANDS[1]);
    hide Wants;
  }

  // ---- receipts ----

  /** A resolved receipt is about its claim and subject, and carries nothing resolution does not decide. */
  lemma ResolvedReceiptIsPlain(reg: Entries, rank: map<string, nat>, n: string, ctx: Context)
    requires WellFounded(reg, rank) && Keyed(reg) && n in reg
    ensures var r := Resolve(reg, rank, n, ctx);
      && r.schema == "nq.receipt.v1" && r.claim == n && r.subject == ctx.subject && r.generatedAt == ctx.generatedAt
      && r.target == None && r.cannotTestify == [] && r.witnesses == [] && r.observedAtMin == None && r.observedAtMax == None
      && r.evaluator == None && r.freshnessHorizon == None && r.signals == None && r.contentHash == None
  {
    hide TallyUpTo, SurfaceUpTo, Matching, LeafCondition.Holds;
  }

  /** Each status comes with its reasons. */
  lemma ReasonsFollowStatus(reg: Entries, rank: map<string, nat>, n: string, ctx: Context)
    requires WellFounded(reg, rank) && n in reg
    ensures var r := Resolve(reg, rank, n, ctx);
      && (r.status == Verified ==> r.statusReasons == [AllRequirementsVerified] && r.notVerified == [])
      && (r.status == NeedsMoreEvidence ==> r.statusReasons == [MissingRequiredClaim])
      && (r.status == PartiallyVerified ==> r.statusReasons[..1] == [PartialComposite] && |r.statusReasons| <= 2)
      && (reg[n].Leaf? && r.status == NotVerified ==>
            r.statusReasons == [ClaimConditionFailed] && r.notVerified == [NotVerifiedEntry(reg[n].name, ConditionFailed)])
      && (reg[n].Leaf? && r.status == NeedsMoreEvidence ==> r.notVerified == [NotVerifiedEntry(reg[n].name, NoApplicableObservation)])
      && (reg[n].NonMintable? ==> NonMintableClaim in r.statusReasons)
      && (reg[n].Composite? && r.status == PartiallyVerified ==>
            (MissingRequiredClaim in r.statusReasons <==>
               exists m :: m in reg[n].requirements && StandsAt(reg, rank, ctx, m, NeedsMoreEvidence)))
  {
    if reg[n].Composite? {
      TallyVerified(reg, rank, n, reg[n].requirements, ctx);
      assert Resolve(reg, rank, n, ctx) == CompositeReceipt(reg[n].name, ctx, TallyUpTo(reg, rank, n, reg[n].requirements, ctx));
      hide TallyUpTo, StandsAt, Resolve;
    } else {
      hide SurfaceUpTo, Matching, LeafCondition.Holds;
    }
  }

  /** Every requirement is accounted for once, in order: Verified ones among the verified, others among the
      shortfalls. */
  lemma {:induction false} RequirementsAreCounted(reg: Entries, rank: map<string, nat>, n: string, names: seq<string>, ctx: Context)
    requires WellFounded(reg, rank) && n in reg && forall m :: m in names ==> m in reg[n].Mentions()
    ensures var t := TallyUpTo(reg, rank, n, names, ctx);
      && |t.verified| + |t.notVerified| == |names|
      && Merges(names, t.verified, t.notVerified)
    decreases |names|
  {
    hide Resolve;
    if names == [] {
    } else {
      RequirementsAreCounted(reg, rank, n, names[..|names| - 1], ctx);
      var before := TallyUpTo(reg, rank, n, names[..|names| - 1], ctx);
      var m, sub := names[|names| - 1], ResolveMention(reg, rank, n, names[|names| - 1], ctx);
      var t := TallyUpTo(reg, rank, n, names, ctx);
      assert t == TallyOne(before, m, sub);
      hide TallyUpTo;
      assert t.verified == before.verified + [m] || t.notVerified[..|t.notVerified| - 1] == before.notVerified;
    }
  }

  /** `names` is an interleaving of the two lists that keeps the order of both. */
  ghost predicate Merges(names: seq<string>, verified: seq<string>, short: seq<NotVerifiedEntry>) {
    if names == [] then verified == [] && short == []
    else
      var rest, last := names[..|names| - 1], names[|names| - 1];
      || (verified != [] && verified[|verified| - 1] == last && Merges(rest, verified[..|verified| - 1], short))
      || (short != [] && short[|short| - 1].claim == last && Merges(rest, verified, short[..|short| - 1]))
  }

  /** An evaluated receipt names its claim, subject and evaluator, cites every packet of the subject with its
      type, digest, time and custody, bounds their times, and is hashed over all the rest. */
  lemma EvaluatedReceiptIsWhole(lib: Library, reg: Entries, rank: map<string, nat>, claim: string, ctx: Context)
    requires WellFounded(reg, rank) && Keyed(reg)
    ensures var r := Evaluated(lib, reg, rank, claim, ctx);
      && r.schema == "nq.receipt.v1" && r.claim == claim && r.subject == ctx.subject && r.generatedAt == ctx.generatedAt
      && r.evaluator == Some(EvaluatorBinding("claim_registry", 2))
      && r.target == None && r.cannotTestify == [] && r.freshnessHorizon == None && r.signals == None
      && |r.witnesses| == |ctx.packets|
      && (forall i :: 0 <= i < |ctx.packets| ==>
            && r.witnesses[i].witnessType == ctx.packets[i].witnessType && r.witnesses[i].digest == lib.digest(ctx.packets[i])
            && r.witnesses[i].observedAt == Some(ctx.packets[i].observedAt)
            && r.witnesses[i].custodyBasis == ctx.packets[i].custodyBasis)
      && IsExtreme(r.observedAtMin, Times(ctx.packets), StrLess) && IsExtreme(r.observedAtMax, Times(ctx.packets), StrGreater)
      && r.contentHash == lib.hash(r.(contentHash := None))
  {
    if claim in reg { ResolvedReceiptIsPlain(reg, rank, claim, ctx); }
    StrOrder();
    GreaterOrder();
    ExtremeIsExtreme(Times(ctx.packets), StrLess);
    ExtremeIsExtreme(Times(ctx.packets), StrGreater);
    EvaluatedEnvelope(lib, reg, rank, claim, ctx);
    hide Resolve, Extreme, Times, StrLess, StrGreater, StrictTotal, StrictWeak, IsExtreme;
  }

  /** Sealing stamps the evaluator and hashes what is then there; sealing again changes nothing; where
      hashing fails, the stored hash stays as it was. */
  lemma SealStampsAndHashes(lib: Library, r: Receipt, binding: EvaluatorBinding)
    ensures var s := lib.Seal(r, binding);
      && s == r.(evaluator := Some(binding), contentHash := s.contentHash)
      && (lib.hash(s.(contentHash := None)).Some? ==> s.contentHash == lib.hash(s.(contentHash := None)))
      && (lib.hash(s.(contentHash := None)).None? ==> s.contentHash == r.contentHash)
    ensures lib.Seal(lib.Seal(r, binding), binding) == lib.Seal(r, binding)
  {
    assert r.(evaluator := Some(binding)).Body() == lib.Seal(r, binding).(contentHash := None);
  }

  /** The subject's packets, in the order they came, each as often as it came. */
  lemma {:induction false} SubjectKeepsOrder(packets: seq<Packet>, subject: string) returns (places: seq<nat>)
    ensures |places| == |ForSubject(packets, subject)|
    ensures forall i, j :: 0 <= i < j < |places| ==> places[i] < places[j]
    ensures forall k :: 0 <= k < |places| ==> places[k] < |packets| && packets[places[k]] == ForSubject(packets, subject)[k]
    ensures forall i :: 0 <= i < |packets| ==> (i in places <==> packets[i].subject == subject)
  {
    if packets == [] {
      places := [];
    } else {
      var rest, last := packets[..|packets| - 1], packets[|packets| - 1];
      places := SubjectKeepsOrder(rest, subject);
      if last.subject == subject { places := places + [|rest|]; }
    }
  }

  /** An observation is of a type iff its `type` member is that text. */
  lemma TypesAreExact(obs: Json, t: string)
    ensures OfType(obs, t) <==> Has(obs, "type", JString(t))
  {}

  /** Suggestions come in the order of the entry's list, one for each place that earns one. */
  lemma {:induction false} SuggestionsKeepOrder(reg: Entries, rank: map<string, nat>, n: string, names: seq<string>, ctx: Context)
    returns (places: seq<nat>)
    requires WellFounded(reg, rank) && n in reg && forall m :: m in names ==> m in reg[n].Mentions()
    ensures var s := SurfaceUpTo(reg, rank, n, names, ctx).suggested;
      && |places| == |s|
      && (forall i, j :: 0 <= i < j < |places| ==> places[i] < places[j])
      && (forall k :: 0 <= k < |places| ==> places[k] < |names| && names[places[k]] == s[k])
    decreases |names|
  {
    hide Resolve;
    if names == [] {
      places := [];
    } else {
      var rest, m := names[..|names| - 1], names[|names| - 1];
      places := SuggestionsKeepOrder(reg, rank, n, rest, ctx);
      var before, s := SurfaceUpTo(reg, rank, n, rest, ctx), SurfaceUpTo(reg, rank, n, names, ctx);
      assert s == SurfaceOne(before, m, ResolveMention(reg, rank, n, m, ctx));
      hide SurfaceUpTo;
      if s.suggested != before.suggested { places := places + [|rest|]; }
    }
  }
}
