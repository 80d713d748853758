/** For which claims evaluation returns: the resolver has no cycle guard (crates/nq-core/src/claim_registry.rs,
    `resolve` and the loops it calls). */
module ClaimTermination {
  import opened Order
  import opened Evidence
  import opened ClaimRegistry

  /** Resolving `n` resolves `m`. */
  ghost predicate Leads(reg: Entries, n: string, m: string) {
    n in reg && m in reg && m in reg[n].Mentions()
  }

  ghost predicate IsDescent(reg: Entries, chain: seq<string>) {
    |chain| >= 2 && forall i :: 0 <= i < |chain| - 1 ==> Leads(reg, chain[i], chain[i + 1])
  }

  /** Resolving `n` comes to resolve `m`, in one or more steps. */
  ghost predicate ComesTo(reg: Entries, n: string, m: string) {
    exists chain :: IsDescent(reg, chain) && chain[0] == n && chain[|chain| - 1] == m
  }

  ghost predicate Circular(reg: Entries) {
    exists n :: ComesTo(reg, n, n)
  }

  lemma {:induction false} RankFalls(reg: Entries, rank: map<string, nat>, chain: seq<string>)
    requires WellFounded(reg, rank) && IsDescent(reg, chain)
    ensures chain[0] in rank && chain[|chain| - 1] in rank && rank[chain[|chain| - 1]] < rank[chain[0]]
    decreases |chain|
  {
    assert Leads(reg, chain[0], chain[0 + 1]);
    if |chain| == 2 {
    } else {
      var rest := chain[1..];
      forall i | 0 <= i < |rest| - 1 ensures Leads(reg, rest[i], rest[i + 1]) {
        assert Leads(reg, chain[i + 1], chain[i + 1 + 1]);
      }
      RankFalls(reg, rank, rest);
    }
  }

  lemma ComesToStep(reg: Entries, n: string, k: string, m: string)
    requires Leads(reg, n, k) && ComesTo(reg, k, m)
    ensures ComesTo(reg, n, m)
  {
    hide Leads;
    var chain :| IsDescent(reg, chain) && chain[0] == k && chain[|chain| - 1] == m;
    var longer := [n] + chain;
    forall i | 0 <= i < |longer| - 1 ensures Leads(reg, longer[i], longer[i + 1]) {
      if i > 0 { assert Leads(reg, chain[i - 1], chain[i - 1 + 1]); }
    }
    assert IsDescent(reg, longer) && longer[|longer| - 1] == m;
  }

  ghost function Below(reg: Entries, n: string): set<string> {
    set m | m in reg && ComesTo(reg, n, m)
  }

  lemma BelowShrinks(reg: Entries, n: string, m: string)
    requires Leads(reg, n, m) && !ComesTo(reg, m, m)
    ensures |Below(reg, m)| < |Below(reg, n)|
  {
    assert IsDescent(reg, [n, m]);
    assert m in Below(reg, n) && m !in Below(reg, m);
    hide IsDescent;
    forall x | x in Below(reg, m) ensures x in Below(reg, n) { ComesToStep(reg, n, m, x); }
    SubsetSize(Below(reg, m), Below(reg, n));
  }

  /** A registry has a rank, and so evaluates everywhere, iff resolving no claim comes back to it. */
  lemma WellFoundedIffNotCircular(reg: Entries)
    ensures (exists rank :: WellFounded(reg, rank)) <==> !Circular(reg)
  {
    if rank :| WellFounded(reg, rank) {
      if n :| ComesTo(reg, n, n) {
        var chain :| IsDescent(reg, chain) && chain[0] == n && chain[|chain| - 1] == n;
        RankFalls(reg, rank, chain);
      }
    }
    if !Circular(reg) {
      var rank := map n | n in reg :: |Below(reg, n)|;
      forall n, m | n in reg && m in reg[n].Mentions() && m in reg ensures rank[m] < rank[n] {
        BelowShrinks(reg, n, m);
      }
      assert WellFounded(reg, rank);
    }
  }

  // ---- the resolver with a bounded call depth ----

  /** `resolve` with at most `depth` nested calls; None when that is not enough. */
  function Run(reg: Entries, n: string, ctx: Context, depth: nat): Option<Receipt>
    requires n in reg
    decreases depth, 0
  {
    if depth == 0 then None
    else
      match reg[n]
      case Leaf(_, _, _, _) => Some(ResolveLeaf(reg[n], ctx))
      case Composite(name, requirements) =>
        (match RunTally(reg, requirements, ctx, depth - 1)
         case Some(t) => Some(CompositeReceipt(name, ctx, t))
         case None => None)
      case NonMintable(name, weaker) =>
        (match RunSurface(reg, weaker, ctx, depth - 1)
         case Some(s) => Some(NonMintableReceipt(name, ctx, s))
         case None => None)
  }

  function RunTally(reg: Entries, names: seq<string>, ctx: Context, depth: nat): Option<Tally>
    decreases depth, 1 + |names|
  {
    if names == [] then Some(Tally([], [], false))
    else
      var m := names[|names| - 1];
      match RunTally(reg, names[..|names| - 1], ctx, depth)
      case None => None
      case Some(t) =>
        if m !in reg then Some(TallyOne(t, m, None))
        else
          match Run(reg, m, ctx, depth)
          case None => None
          case Some(r) => Some(TallyOne(t, m, Some(r)))
  }

  function RunSurface(reg: Entries, names: seq<string>, ctx: Context, depth: nat): Option<Surfaced>
    decreases depth, 1 + |names|
  {
    if names == [] then Some(Surfaced([], []))
    else
      var m := names[|names| - 1];
      match RunSurface(reg, names[..|names| - 1], ctx, depth)
      case None => None
      case Some(s) =>
        if m !in reg then Some(SurfaceOne(s, m, None))
        else
          match Run(reg, m, ctx, depth)
          case None => None
          case Some(r) => Some(SurfaceOne(s, m, Some(r)))
  }

  /** Some call depth is enough. */
  ghost predicate Returns(reg: Entries, n: string, ctx: Context)
    requires n in reg
  {
    exists depth: nat :: Run(reg, n, ctx, depth).Some?
  }

  lemma {:induction false} LoopsReturn(reg: Entries, names: seq<string>, ctx: Context, depth: nat)
    ensures RunTally(reg, names, ctx, depth).Some? <==>
      forall m :: m in names && m in reg ==> Run(reg, m, ctx, depth).Some?
    ensures RunSurface(reg, names, ctx, depth).Some? <==>
      forall m :: m in names && m in reg ==> Run(reg, m, ctx, depth).Some?
    decreases |names|
  {
    hide Run;
    if names == [] {
    } else {
      var rest, m := names[..|names| - 1], names[|names| - 1];
      assert names == rest + [m];
      LoopsReturn(reg, rest, ctx, depth);
    }
  }

  /** One call returns iff every call it makes does, with one level less. */
  lemma RunUnfolds(reg: Entries, n: string, ctx: Context, depth: nat)
    requires n in reg && depth > 0
    ensures Run(reg, n, ctx, depth).Some? <==> forall m :: Leads(reg, n, m) ==> Run(reg, m, ctx, depth - 1).Some?
  {
    var names := reg[n].Mentions();
    LoopsReturn(reg, names, ctx, depth - 1);
    assert forall m :: Leads(reg, n, m) <==> m in names && m in reg;
    hide RunTally, RunSurface, Leads;
    match reg[n]
    case Leaf(_, _, _, _) => assert Run(reg, n, ctx, depth).Some?;
    case Composite(_, requirements) => assert names == requirements;
    case NonMintable(_, weaker) => assert names == weaker;
  }

  /** Resolving `n` never enters a cycle. */
  ghost predicate AvoidsCycles(reg: Entries, n: string) {
    !ComesTo(reg, n, n) && forall m :: ComesTo(reg, n, m) ==> !ComesTo(reg, m, m)
  }

  lemma AvoidanceIsInherited(reg: Entries, n: string, m: string)
    requires AvoidsCycles(reg, n) && Leads(reg, n, m)
    ensures AvoidsCycles(reg, m)
  {
    assert ComesTo(reg, n, m) by { assert IsDescent(reg, [n, m]); }
    forall k | ComesTo(reg, m, k) ensures !ComesTo(reg, k, k) { ComesToStep(reg, n, m, k); }
  }

  lemma {:induction false} DepthSuffices(reg: Entries, n: string, ctx: Context, depth: nat)
    requires n in reg && AvoidsCycles(reg, n) && depth > |Below(reg, n)|
    ensures Run(reg, n, ctx, depth).Some?
    decreases depth
  {
    hide Run, Below, AvoidsCycles;
    forall m | Leads(reg, n, m) ensures Run(reg, m, ctx, depth - 1).Some? {
      AvoidanceIsInherited(reg, n, m);
      assert !ComesTo(reg, m, m) by { AvoidersDoNotReturn(reg, m); }
      BelowShrinks(reg, n, m);
      DepthSuffices(reg, m, ctx, depth - 1);
    }
    RunUnfolds(reg, n, ctx, depth);
  }

  lemma AvoidersDoNotReturn(reg: Entries, n: string)
    requires AvoidsCycles(reg, n)
    ensures !ComesTo(reg, n, n)
  {}

  /** A returning call's descent uses up one level of depth at each step. */
  lemma {:induction false} DescentUsesDepth(reg: Entries, chain: seq<string>, ctx: Context, depth: nat)
    requires IsDescent(reg, chain) && chain[0] in reg && Run(reg, chain[0], ctx, depth).Some?
    ensures depth > |chain| - 1 && chain[|chain| - 1] in reg
    ensures Run(reg, chain[|chain| - 1], ctx, depth - (|chain| - 1)).Some?
    decreases |chain|
  {
    assert depth > 0;
    assert Leads(reg, chain[0], chain[0 + 1]);
    RunUnfolds(reg, chain[0], ctx, depth);
    assert Run(reg, chain[1], ctx, depth - 1).Some?;
    if |chain| == 2 {
      assert depth - 1 > 0;
    } else {
      var rest := chain[1..];
      forall i | 0 <= i < |rest| - 1 ensures Leads(reg, rest[i], rest[i + 1]) {
        assert Leads(reg, chain[i + 1], chain[i + 1 + 1]);
      }
      DescentUsesDepth(reg, rest, ctx, depth - 1);
    }
  }

  lemma {:induction false} CircularNeverReturns(reg: Entries, n: string, ctx: Context, depth: nat)
    requires n in reg && ComesTo(reg, n, n)
    ensures Run(reg, n, ctx, depth).None?
    decreases depth
  {
    hide Run;
    var chain :| IsDescent(reg, chain) && chain[0] == n && chain[|chain| - 1] == n;
    if Run(reg, n, ctx, depth).Some? {
      DescentUsesDepth(reg, chain, ctx, depth);
      CircularNeverReturns(reg, n, ctx, depth - (|chain| - 1));
    }
  }

  /** Resolving a claim returns iff it never comes to a claim that comes back to itself, whatever the
      rest of the registry and the evidence look like. */
  lemma ReturnsIffAvoidsCycles(reg: Entries, n: string, ctx: Context)
    requires n in reg
    ensures Returns(reg, n, ctx) <==> AvoidsCycles(reg, n)
  {
    hide Run;
    if AvoidsCycles(reg, n) {
      DepthSuffices(reg, n, ctx, |Below(reg, n)| + 1);
    }
    if depth: nat :| Run(reg, n, ctx, depth).Some? {
      if ComesTo(reg, n, n) { CircularNeverReturns(reg, n, ctx, depth); }
      forall m | ComesTo(reg, n, m) ensures !ComesTo(reg, m, m) {
        var chain :| IsDescent(reg, chain) && chain[0] == n && chain[|chain| - 1] == m;
        DescentUsesDepth(reg, chain, ctx, depth);
        if ComesTo(reg, m, m) { CircularNeverReturns(reg, m, ctx, depth - (|chain| - 1)); }
      }
    }
  }

  // ---- what it returns ----

  /** The part of the registry that resolving `n` can look up. */
  ghost function Part(reg: Entries, n: string): Entries {
    map m | m in reg && (m == n || ComesTo(reg, n, m)) :: reg[m]
  }

  /** A sub-registry in which every lookup its entries make has the same answer. */
  ghost predicate IsClosedPart(reg: Entries, part: Entries) {
    && (forall k :: k in part ==> k in reg && part[k] == reg[k])
    && (forall k, m :: k in part && m in part[k].Mentions() && m in reg ==> m in part)
  }

  lemma ComesToSnoc(reg: Entries, n: string, k: string, m: string)
    requires ComesTo(reg, n, k) && Leads(reg, k, m)
    ensures ComesTo(reg, n, m)
  {
    hide Leads;
    var chain :| IsDescent(reg, chain) && chain[0] == n && chain[|chain| - 1] == k;
    var longer := chain + [m];
    forall i | 0 <= i < |longer| - 1 ensures Leads(reg, longer[i], longer[i + 1]) {
      if i < |chain| - 1 { assert Leads(reg, chain[i], chain[i + 1]); }
    }
    assert IsDescent(reg, longer) && longer[|longer| - 1] == m;
  }

  lemma PartIsClosed(reg: Entries, n: string)
    ensures IsClosedPart(reg, Part(reg, n))
  {
    var part := Part(reg, n);
    forall k, m | k in part && m in part[k].Mentions() && m in reg ensures m in part {
      assert Leads(reg, k, m);
      if k == n {
        assert IsDescent(reg, [n, m]);
      } else {
        ComesToSnoc(reg, n, k, m);
      }
    }
  }

  ghost function PartRank(reg: Entries, n: string): map<string, nat> {
    map m | m in Part(reg, n) :: |Below(reg, m)|
  }

  lemma PartIsWellFounded(reg: Entries, n: string)
    requires AvoidsCycles(reg, n)
    ensures WellFounded(Part(reg, n), PartRank(reg, n))
  {
    hide ComesTo, Below;
    forall k, m | k in Part(reg, n) && m in Part(reg, n)[k].Mentions() && m in Part(reg, n)
      ensures |Below(reg, m)| < |Below(reg, k)|
    {
      assert Leads(reg, k, m);
      BelowShrinks(reg, k, m);
    }
  }

  /** Where the bounded resolver returns, it returns what the specification says of any closed part. */
  lemma {:induction false} RunIsResolve(reg: Entries, part: Entries, rank: map<string, nat>, n: string, ctx: Context, depth: nat)
    requires IsClosedPart(reg, part) && WellFounded(part, rank) && n in part && Run(reg, n, ctx, depth).Some?
    ensures Run(reg, n, ctx, depth).value == Resolve(part, rank, n, ctx)
    decreases depth, 0
  {
    match reg[n]
    case Leaf(_, _, _, _) =>
    case Composite(_, requirements) =>
      TallyIsTally(reg, part, rank, n, requirements, ctx, depth - 1);
      hide RunTally, TallyUpTo;
    case NonMintable(_, weaker) =>
      SurfaceIsSurface(reg, part, rank, n, weaker, ctx, depth - 1);
      hide RunSurface, SurfaceUpTo;
  }

  lemma {:induction false} TallyIsTally(reg: Entries, part: Entries, rank: map<string, nat>, n: string, names: seq<string>,
                                        ctx: Context, depth: nat)
    requires IsClosedPart(reg, part) && WellFounded(part, rank) && n in part
    requires forall m :: m in names ==> m in part[n].Mentions()
    requires RunTally(reg, names, ctx, depth).Some?
    ensures RunTally(reg, names, ctx, depth).value == TallyUpTo(part, rank, n, names, ctx)
    decreases depth, 1 + |names|
  {
    hide Run, Resolve, TallyOne;
    if names == [] {
    } else {
      var m := names[|names| - 1];
      TallyIsTally(reg, part, rank, n, names[..|names| - 1], ctx, depth);
      if m in reg { RunIsResolve(reg, part, rank, m, ctx, depth); }
    }
  }

  lemma {:induction false} SurfaceIsSurface(reg: Entries, part: Entries, rank: map<string, nat>, n: string, names: seq<string>,
                                            ctx: Context, depth: nat)
    requires IsClosedPart(reg, part) && WellFounded(part, rank) && n in part
    requires forall m :: m in names ==> m in part[n].Mentions()
    requires RunSurface(reg, names, ctx, depth).Some?
    ensures RunSurface(reg, names, ctx, depth).value == SurfaceUpTo(part, rank, n, names, ctx)
    decreases depth, 1 + |names|
  {
    hide Run, Resolve, SurfaceOne;
    if names == [] {
    } else {
      var m := names[|names| - 1];
      SurfaceIsSurface(reg, part, rank, n, names[..|names| - 1], ctx, depth);
      if m in reg { RunIsResolve(reg, part, rank, m, ctx, depth); }
    }
  }

  /** A claim that avoids cycles evaluates, in any registry, to the one receipt the laws speak of, taken
      over the part of the registry it can look up. */
  lemma ReturnsTheResolution(reg: Entries, n: string, ctx: Context, depth: nat)
    requires n in reg && AvoidsCycles(reg, n)
    ensures WellFounded(Part(reg, n), PartRank(reg, n)) && n in Part(reg, n)
    ensures Run(reg, n, ctx, depth).Some? ==>
      Run(reg, n, ctx, depth).value == Resolve(Part(reg, n), PartRank(reg, n), n, ctx)
  {
    PartIsClosed(reg, n);
    PartIsWellFounded(reg, n);
    hide IsClosedPart, WellFounded, Run, Resolve, AvoidsCycles, PartRank;
    if Run(reg, n, ctx, depth).Some? { RunIsResolve(reg, Part(reg, n), PartRank(reg, n), n, ctx, depth); }
  }
}
