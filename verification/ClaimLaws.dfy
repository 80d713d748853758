/** What evaluation guarantees about claims: exact verification, honest `verified` lists, and
    independence from packet order and from other subjects. */
module ClaimLaws {
  import opened Order
  import opened Evidence
  import opened ClaimRegistry

  // ---- the requirement closure ----

  ghost predicate Requires(reg: Entries, n: string, m: string) {
    n in reg && reg[n].Composite? && m in reg[n].requirements
  }

  ghost predicate IsChain(reg: Entries, chain: seq<string>) {
    chain != [] && forall i :: 0 <= i < |chain| - 1 ==> Requires(reg, chain[i], chain[i + 1])
  }

  /** `m` is `n` or is required by it through composites, at any depth. */
  ghost predicate InClosure(reg: Entries, n: string, m: string) {
    exists chain :: IsChain(reg, chain) && chain[0] == n && chain[|chain| - 1] == m
  }

  /** At least one matching observation, and every one of them passes. */
  ghost predicate LeafHolds(leaf: ClaimEntry, packets: seq<Packet>)
    requires leaf.Leaf?
  {
    && (exists obs :: Witnessed(leaf, packets, obs))
    && (forall obs :: Witnessed(leaf, packets, obs) ==> leaf.condition.Holds(obs))
  }

  /** A member of a closure that cannot stand in the way of verification. */
  ghost predicate Sound(reg: Entries, packets: seq<Packet>, m: string) {
    m in reg && !reg[m].NonMintable? && (reg[m].Leaf? ==> LeafHolds(reg[m], packets))
  }

  /** Everything in the requirement closure is registered, mintable and, if a leaf, witnessed to hold. */
  ghost predicate Supported(reg: Entries, packets: seq<Packet>, n: string) {
    forall m :: InClosure(reg, n, m) ==> Sound(reg, packets, m)
  }

  lemma ClosureReflexive(reg: Entries, n: string)
    ensures InClosure(reg, n, n)
  {
    assert IsChain(reg, [n]);
  }

  lemma ClosureStep(reg: Entries, n: string, k: string, m: string)
    requires Requires(reg, n, k) && InClosure(reg, k, m)
    ensures InClosure(reg, n, m)
  {
    hide Requires;
    var chain :| IsChain(reg, chain) && chain[0] == k && chain[|chain| - 1] == m;
    var longer := [n] + chain;
    forall i | 0 <= i < |longer| - 1 ensures Requires(reg, longer[i], longer[i + 1]) {
      if i > 0 { assert Requires(reg, chain[i - 1], chain[i - 1 + 1]); }
    }
    assert IsChain(reg, longer) && longer[|longer| - 1] == m;
  }

  lemma ClosureUnfolds(reg: Entries, n: string, m: string) returns (k: string)
    requires InClosure(reg, n, m) && m != n
    ensures Requires(reg, n, k) && InClosure(reg, k, m)
  {
    hide Requires;
    var chain :| IsChain(reg, chain) && chain[0] == n && chain[|chain| - 1] == m;
    k := chain[1];
    assert Requires(reg, chain[0], chain[0 + 1]);
    var shorter := chain[1..];
    forall i | 0 <= i < |shorter| - 1 ensures Requires(reg, shorter[i], shorter[i + 1]) {
      assert Requires(reg, chain[i + 1], chain[i + 1 + 1]);
    }
    assert IsChain(reg, shorter);
  }

  /** Support of a composite is support of each requirement. */
  lemma SupportedUnfolds(reg: Entries, packets: seq<Packet>, n: string)
    requires n in reg
    ensures Supported(reg, packets, n) <==>
      Sound(reg, packets, n) && (reg[n].Composite? ==> forall k :: k in reg[n].requirements ==> Supported(reg, packets, k))
  {
    hide InClosure, Sound;
    ClosureReflexive(reg, n);
    if Supported(reg, packets, n) && reg[n].Composite? {
      forall k, m | k in reg[n].requirements && InClosure(reg, k, m) ensures Sound(reg, packets, m) {
        ClosureStep(reg, n, k, m);
      }
    }
    if Sound(reg, packets, n) && (reg[n].Composite? ==> forall k :: k in reg[n].requirements ==> Supported(reg, packets, k)) {
      forall m | InClosure(reg, n, m) ensures Sound(reg, packets, m) {
        if m != n { var k := ClosureUnfolds(reg, n, m); }
      }
    }
  }

  lemma UnregisteredUnsupported(reg: Entries, packets: seq<Packet>, k: string)
    requires k !in reg
    ensures !Supported(reg, packets, k)
  {
    ClosureReflexive(reg, k);
  }

  // ---- Verified is exact ----

  /** A leaf needs more evidence iff nothing witnesses it, is refuted iff some witness fails its
      condition, and is Verified, and then lists itself, otherwise. */
  lemma LeafIsExact(leaf: ClaimEntry, ctx: Context)
    requires leaf.Leaf?
    ensures ResolveLeaf(leaf, ctx).status == Verified <==> LeafHolds(leaf, ctx.packets)
    ensures ResolveLeaf(leaf, ctx).status == NeedsMoreEvidence <==> forall obs :: !Witnessed(leaf, ctx.packets, obs)
    ensures ResolveLeaf(leaf, ctx).status == NotVerified <==>
      exists obs :: Witnessed(leaf, ctx.packets, obs) && !leaf.condition.Holds(obs)
    ensures ResolveLeaf(leaf, ctx).verified == if LeafHolds(leaf, ctx.packets) then [leaf.name] else []
  {
    var matching := Matching(leaf, ctx.packets);
    forall obs ensures obs in matching <==> Witnessed(leaf, ctx.packets, obs) { MatchingMembers(leaf, ctx.packets, obs); }
    hide Witnessed, Matching, LeafCondition.Holds;
    assert matching != [] ==> matching[0] in matching;
  }

  /** The tally has a shortfall exactly when some requirement is unregistered or not Verified. */
  lemma {:induction false} TallyClear(reg: Entries, rank: map<string, nat>, n: string, names: seq<string>, ctx: Context)
    requires WellFounded(reg, rank) && n in reg && forall m :: m in names ==> m in reg[n].Mentions()
    ensures TallyUpTo(reg, rank, n, names, ctx).notVerified == [] <==>
      forall m :: m in names ==> m in reg && Resolve(reg, rank, m, ctx).status == Verified
    ensures forall v :: v in TallyUpTo(reg, rank, n, names, ctx).verified ==>
      v in reg && Resolve(reg, rank, v, ctx).status == Verified
    decreases |names|
  {
    hide Resolve;
    if names == [] {
    } else {
      var rest, m := names[..|names| - 1], names[|names| - 1];
      assert names == rest + [m];
      TallyClear(reg, rank, n, rest, ctx);
    }
  }

  /** A claim is Verified iff everything in its requirement closure is registered, mintable and holds. */
  lemma {:induction false} VerifiedIsExact(reg: Entries, rank: map<string, nat>, n: string, ctx: Context)
    requires WellFounded(reg, rank) && n in reg
    ensures Resolve(reg, rank, n, ctx).status == Verified <==> Supported(reg, ctx.packets, n)
    decreases rank[n]
  {
    hide Supported;
    SupportedUnfolds(reg, ctx.packets, n);
    match reg[n]
    case Leaf(_, _, _, _) =>
      LeafIsExact(reg[n], ctx);
      hide ResolveLeaf, LeafHolds;
    case Composite(_, requirements) =>
      TallyClear(reg, rank, n, requirements, ctx);
      forall k | k in requirements
        ensures (k in reg && Resolve(reg, rank, k, ctx).status == Verified) <==> Supported(reg, ctx.packets, k)
      {
        assert k in reg[n].Mentions();
        if k in reg { VerifiedIsExact(reg, rank, k, ctx); } else { UnregisteredUnsupported(reg, ctx.packets, k); }
      }
      hide TallyUpTo;
    case NonMintable(_, _) =>
      hide SurfaceUpTo;
  }

  // ---- the `verified` list is honest ----

  ghost predicate Honest(reg: Entries, rank: map<string, nat>, ctx: Context, names: seq<string>)
    requires WellFounded(reg, rank)
  {
    forall v :: v in names ==> v in reg && Resolve(reg, rank, v, ctx).status == Verified
  }

  /** Every name in any receipt's `verified` list itself evaluates to Verified on the same evidence. */
  lemma {:induction false} VerifiedListIsHonest(reg: Entries, rank: map<string, nat>, n: string, ctx: Context)
    requires WellFounded(reg, rank) && Keyed(reg) && n in reg
    ensures Honest(reg, rank, ctx, Resolve(reg, rank, n, ctx).verified)
    decreases rank[n], 0
  {
    match reg[n]
    case Leaf(_, _, _, _) =>
    case Composite(_, requirements) =>
      TallyClear(reg, rank, n, requirements, ctx);
    case NonMintable(_, weaker) =>
      SurfacedIsHonest(reg, rank, n, weaker, ctx);
  }

  lemma {:induction false} SurfacedIsHonest(reg: Entries, rank: map<string, nat>, n: string, names: seq<string>, ctx: Context)
    requires WellFounded(reg, rank) && Keyed(reg) && n in reg && forall m :: m in names ==> m in reg[n].Mentions()
    ensures Honest(reg, rank, ctx, SurfaceUpTo(reg, rank, n, names, ctx).verified)
    decreases rank[n], 0, |names|
  {
    hide Resolve;
    if names == [] {
    } else {
      var m := names[|names| - 1];
      SurfacedIsHonest(reg, rank, n, names[..|names| - 1], ctx);
      assert m in reg[n].Mentions();
      if m in reg { VerifiedListIsHonest(reg, rank, m, ctx); }
    }
  }

  /** No non-mintable claim, and no composite that transitively requires one, is Verified or listed. */
  lemma NonMintableNeverSurfaces(reg: Entries, rank: map<string, nat>, n: string, tainted: string, bad: string, ctx: Context)
    requires WellFounded(reg, rank) && Keyed(reg) && n in reg
    requires bad in reg && reg[bad].NonMintable? && InClosure(reg, tainted, bad)
    ensures tainted !in Resolve(reg, rank, n, ctx).verified
    ensures tainted in reg ==> Resolve(reg, rank, tainted, ctx).status != Verified
  {
    hide Resolve, InClosure;
    VerifiedListIsHonest(reg, rank, n, ctx);
    if tainted in reg { VerifiedIsExact(reg, rank, tainted, ctx); }
  }

  // ---- what composites and non-mintables report ----

  ghost predicate StandsAt(reg: Entries, rank: map<string, nat>, ctx: Context, m: string, status: Status)
    requires WellFounded(reg, rank)
  {
    m in reg && Resolve(reg, rank, m, ctx).status == status
  }

  /** The entry a requirement that is not Verified earns. */
  ghost predicate FallsShort(reg: Entries, rank: map<string, nat>, ctx: Context, e: NotVerifiedEntry)
    requires WellFounded(reg, rank)
  {
    if e.claim !in reg then e.reason == UnknownClaim
    else !StandsAt(reg, rank, ctx, e.claim, Verified) && e.reason == SubStatus(Resolve(reg, rank, e.claim, ctx).status)
  }

  lemma {:induction false} TallyVerified(reg: Entries, rank: map<string, nat>, n: string, names: seq<string>, ctx: Context)
    requires WellFounded(reg, rank) && n in reg && forall m :: m in names ==> m in reg[n].Mentions()
    ensures var t := TallyUpTo(reg, rank, n, names, ctx);
      && (forall m :: m in t.verified <==> m in names && StandsAt(reg, rank, ctx, m, Verified))
      && (t.needsMore <==> exists m :: m in names && StandsAt(reg, rank, ctx, m, NeedsMoreEvidence))
    decreases |names|
  {
    hide Resolve;
    if names == [] {
    } else {
      var rest, m := names[..|names| - 1], names[|names| - 1];
      assert names == rest + [m] && m in names;
      assert StandsAt(reg, rank, ctx, m, NeedsMoreEvidence) ==> exists x :: x in names && StandsAt(reg, rank, ctx, x, NeedsMoreEvidence);
      TallyVerified(reg, rank, n, rest, ctx);
      assert TallyUpTo(reg, rank, n, names, ctx) ==
             TallyOne(TallyUpTo(reg, rank, n, rest, ctx), m, ResolveMention(reg, rank, n, m, ctx));
      hide TallyUpTo;
    }
  }

  lemma {:induction false} TallyShort(reg: Entries, rank: map<string, nat>, n: string, names: seq<string>, ctx: Context)
    requires WellFounded(reg, rank) && n in reg && forall m :: m in names ==> m in reg[n].Mentions()
    ensures var t := TallyUpTo(reg, rank, n, names, ctx);
      forall e :: e in t.notVerified <==> e.claim in names && FallsShort(reg, rank, ctx, e)
    decreases |names|
  {
    hide Resolve;
    if names == [] {
    } else {
      var rest, m := names[..|names| - 1], names[|names| - 1];
      assert names == rest + [m];
      TallyShort(reg, rank, n, rest, ctx);
      assert TallyUpTo(reg, rank, n, names, ctx) ==
             TallyOne(TallyUpTo(reg, rank, n, rest, ctx), m, ResolveMention(reg, rank, n, m, ctx));
      hide TallyUpTo;
    }
  }

  /** A composite lists exactly its Verified requirements and exactly the reasons for the others; it needs
      more evidence iff none is Verified and some needs more, and is otherwise partial unless all are Verified. */
  lemma CompositeIsExact(reg: Entries, rank: map<string, nat>, n: string, ctx: Context)
    requires WellFounded(reg, rank) && n in reg && reg[n].Composite?
    ensures var r := Resolve(reg, rank, n, ctx);
      && (forall m :: m in r.verified <==> m in reg[n].requirements && StandsAt(reg, rank, ctx, m, Verified))
      && (forall e :: e in r.notVerified <==> e.claim in reg[n].requirements && FallsShort(reg, rank, ctx, e))
      && (r.status == Verified <==> r.notVerified == [])
      && (r.status == NeedsMoreEvidence <==>
            && (forall m :: m in reg[n].requirements ==> !StandsAt(reg, rank, ctx, m, Verified))
            && (exists m :: m in reg[n].requirements && StandsAt(reg, rank, ctx, m, NeedsMoreEvidence)))
      && r.status in {Verified, NeedsMoreEvidence, PartiallyVerified}
  {
    var names := reg[n].requirements;
    TallyVerified(reg, rank, n, names, ctx);
    TallyShort(reg, rank, n, names, ctx);
    var t := TallyUpTo(reg, rank, n, names, ctx);
    assert Resolve(reg, rank, n, ctx) == CompositeReceipt(reg[n].name, ctx, t);
    hide TallyUpTo, Resolve;
    assert t.verified == [] || t.verified[0] in t.verified;
    if m :| m in names && StandsAt(reg, rank, ctx, m, NeedsMoreEvidence) {
      assert NotVerifiedEntry(m, SubStatus(NeedsMoreEvidence)) in t.notVerified;
    }
  }

  /** Position `i` supplies the verified list: the last resolved suggestion with a non-empty one. */
  ghost predicate Supplies(reg: Entries, rank: map<string, nat>, ctx: Context, names: seq<string>, i: nat)
    requires WellFounded(reg, rank) && i < |names|
  {
    && names[i] in reg && Resolve(reg, rank, names[i], ctx).verified != []
    && forall j :: i < j < |names| && names[j] in reg ==> Resolve(reg, rank, names[j], ctx).verified == []
  }

  lemma {:induction false} SurfacedSuggestions(reg: Entries, rank: map<string, nat>, n: string, names: seq<string>, ctx: Context)
    requires WellFounded(reg, rank) && n in reg && forall m :: m in names ==> m in reg[n].Mentions()
    ensures forall m :: m in SurfaceUpTo(reg, rank, n, names, ctx).suggested <==>
      m in names && (StandsAt(reg, rank, ctx, m, Verified) || StandsAt(reg, rank, ctx, m, PartiallyVerified))
    decreases |names|
  {
    hide Resolve;
    if names == [] {
    } else {
      var rest, m := names[..|names| - 1], names[|names| - 1];
      assert names == rest + [m];
      SurfacedSuggestions(reg, rank, n, rest, ctx);
    }
  }

  lemma SuppliesShorter(reg: Entries, rank: map<string, nat>, ctx: Context, names: seq<string>, i: nat)
    requires WellFounded(reg, rank) && i < |names| - 1 && Supplies(reg, rank, ctx, names, i)
    ensures Supplies(reg, rank, ctx, names[..|names| - 1], i)
    ensures names[|names| - 1] in reg ==> Resolve(reg, rank, names[|names| - 1], ctx).verified == []
  {
    hide Resolve;
    var rest := names[..|names| - 1];
    forall j | i < j < |rest| && rest[j] in reg ensures Resolve(reg, rank, rest[j], ctx).verified == [] {
      assert rest[j] == names[j];
    }
  }

  lemma {:induction false} SurfacedVerified(reg: Entries, rank: map<string, nat>, n: string, names: seq<string>, ctx: Context)
    requires WellFounded(reg, rank) && n in reg && forall m :: m in names ==> m in reg[n].Mentions()
    ensures var s := SurfaceUpTo(reg, rank, n, names, ctx);
      && (s.verified == [] <==> forall m :: m in names && m in reg ==> Resolve(reg, rank, m, ctx).verified == [])
      && (forall i :: 0 <= i < |names| && Supplies(reg, rank, ctx, names, i) ==>
            s.verified == Resolve(reg, rank, names[i], ctx).verified)
    decreases |names|
  {
    hide Resolve;
    if names == [] {
    } else {
      var last := |names| - 1;
      var rest, m := names[..last], names[last];
      assert names == rest + [m];
      SurfacedVerified(reg, rank, n, rest, ctx);
      var s, before := SurfaceUpTo(reg, rank, n, names, ctx), SurfaceUpTo(reg, rank, n, rest, ctx);
      assert s == SurfaceOne(before, m, ResolveMention(reg, rank, n, m, ctx));
      assert s.verified == if m in reg && Resolve(reg, rank, m, ctx).verified != [] then Resolve(reg, rank, m, ctx).verified
                           else before.verified;
      hide SurfaceUpTo;
      forall i | 0 <= i < |names| && Supplies(reg, rank, ctx, names, i)
        ensures s.verified == Resolve(reg, rank, names[i], ctx).verified
      {
        if i < last {
          SuppliesShorter(reg, rank, ctx, names, i);
          assert rest[i] == names[i];
        }
      }
    }
  }

  /** A non-mintable claim is never minted: it stands NotVerified, suggests exactly its Verified or
      partially Verified weaker claims, and shows the verified list of the last of them to have one. */
  lemma NonMintableIsExact(reg: Entries, rank: map<string, nat>, n: string, ctx: Context)
    requires WellFounded(reg, rank) && n in reg && reg[n].NonMintable?
    ensures var r, names := Resolve(reg, rank, n, ctx), reg[n].weaker;
      && r.status == NotVerified && r.notVerified == []
      && (forall m :: m in r.suggestedWeakerClaims <==>
            m in names && (StandsAt(reg, rank, ctx, m, Verified) || StandsAt(reg, rank, ctx, m, PartiallyVerified)))
      && (SuggestedWeakerClaimAvailable in r.statusReasons <==> r.suggestedWeakerClaims != [])
      && (r.verified == [] <==> forall m :: m in names && m in reg ==> Resolve(reg, rank, m, ctx).verified == [])
      && (forall i :: 0 <= i < |names| && Supplies(reg, rank, ctx, names, i) ==>
            r.verified == Resolve(reg, rank, names[i], ctx).verified)
  {
    SurfacedSuggestions(reg, rank, n, reg[n].weaker, ctx);
    SurfacedVerified(reg, rank, n, reg[n].weaker, ctx);
    assert Resolve(reg, rank, n, ctx) ==
           NonMintableReceipt(reg[n].name, ctx, SurfaceUpTo(reg, rank, n, reg[n].weaker, ctx));
    hide SurfaceUpTo, Resolve, Supplies, StandsAt;
  }

  // ---- only the set of applicable packets matters ----

  ghost predicate SamePackets(a: seq<Packet>, b: seq<Packet>) {
    forall p :: p in a <==> p in b
  }

  lemma LeafIgnoresOrder(leaf: ClaimEntry, a: Context, b: Context)
    requires leaf.Leaf? && a == b.(packets := a.packets) && SamePackets(a.packets, b.packets)
    ensures ResolveLeaf(leaf, a) == ResolveLeaf(leaf, b)
  {
    var x, y := Matching(leaf, a.packets), Matching(leaf, b.packets);
    forall obs ensures obs in x <==> obs in y {
      MatchingMembers(leaf, a.packets, obs);
      MatchingMembers(leaf, b.packets, obs);
    }
    hide Matching, LeafCondition.Holds;
    assert x == [] <==> y == [] by {
      assert x != [] ==> x[0] in x;
      assert y != [] ==> y[0] in y;
    }
  }

  /** The resolved receipt ignores the order and repetition of packets. */
  lemma {:induction false} ResolveIgnoresOrder(reg: Entries, rank: map<string, nat>, n: string, a: Context, b: Context)
    requires WellFounded(reg, rank) && n in reg
    requires a == b.(packets := a.packets) && SamePackets(a.packets, b.packets)
    ensures Resolve(reg, rank, n, a) == Resolve(reg, rank, n, b)
    decreases rank[n], 1, 0
  {
    match reg[n]
    case Leaf(_, _, _, _) =>
      LeafIgnoresOrder(reg[n], a, b);
    case Composite(_, requirements) =>
      FoldsIgnoreOrder(reg, rank, n, requirements, a, b);
    case NonMintable(_, weaker) =>
      FoldsIgnoreOrder(reg, rank, n, weaker, a, b);
  }

  lemma {:induction false} FoldsIgnoreOrder(reg: Entries, rank: map<string, nat>, n: string, names: seq<string>, a: Context, b: Context)
    requires WellFounded(reg, rank) && n in reg && forall m :: m in names ==> m in reg[n].Mentions()
    requires a == b.(packets := a.packets) && SamePackets(a.packets, b.packets)
    ensures TallyUpTo(reg, rank, n, names, a) == TallyUpTo(reg, rank, n, names, b)
    ensures SurfaceUpTo(reg, rank, n, names, a) == SurfaceUpTo(reg, rank, n, names, b)
    decreases rank[n], 0, |names|
  {
    hide Resolve, TallyOne, SurfaceOne;
    if names == [] {
    } else {
      var m := names[|names| - 1];
      FoldsIgnoreOrder(reg, rank, n, names[..|names| - 1], a, b);
      assert m in reg[n].Mentions();
      if m in reg { ResolveIgnoresOrder(reg, rank, m, a, b); }
    }
  }
}
