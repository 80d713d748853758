/** The forbidden-dependency gate with exact, self-expiring allowances
    (scripts/check-constellation-boundaries.py, `_forbidden_dependency_violations`). */
module ForbiddenGate {
  import opened Order
  import opened DependencyGraph
  import opened ShortestPath
  import Text

  datatype Allowance = Allowance(path: seq<string>, reason: string, removalCondition: string)

  /** The policy tables at the top of the script. */
  datatype Policy = Policy(
    roles: map<string, string>,
    rolePrefixes: seq<(string, string)>,
    forbiddenRoles: map<string, set<string>>,
    forbiddenExact: set<(string, string)>,
    allowances: seq<Allowance>)

  datatype Violation =
    | Malformed(path: seq<string>)
    | Duplicate(path: seq<string>)
    | Forbidden(source: Id, target: Id, route: seq<Id>)
    | Stale(path: seq<string>)

  function RoleFor(policy: Policy, name: string): Option<string> {
    if name in policy.roles then Some(policy.roles[name]) else PrefixRole(policy.rolePrefixes, name)
  }

  function PrefixRole(prefixes: seq<(string, string)>, name: string): Option<string> {
    if prefixes == [] then None
    else if prefixes[0].0 <= name then Some(prefixes[0].1)
    else PrefixRole(prefixes[1..], name)
  }

  // ---- package names ----

  function LocalOnly(g: Graph, ids: seq<Id>): seq<Id> {
    if ids == [] then []
    else (if ids[0] in g.localIds then [ids[0]] else []) + LocalOnly(g, ids[1..])
  }

  /** `ids_by_name.get(name, [])` */
  function IdsOf(index: map<string, seq<Id>>, name: string): seq<Id> {
    if name in index then index[name] else []
  }

  function SingleLocalId(g: Graph, name: string): Option<Id> {
    var matches := LocalOnly(g, IdsOf(g.idsByName, name));
    if |matches| != 1 then None else Some(matches[0])
  }

  function NameOf(g: Graph, id: Id): string {
    if id in g.names then g.names[id] else ""
  }

  function Names(g: Graph, ids: seq<Id>): seq<string> {
    seq(|ids|, i requires 0 <= i < |ids| => NameOf(g, ids[i]))
  }

  /** Every local package is found under its own name: how the metadata loader fills the index. */
  ghost predicate NameIndexed(g: Graph) {
    forall id :: id in g.localIds ==> NameOf(g, id) in g.idsByName && id in g.idsByName[NameOf(g, id)]
  }

  lemma {:induction false} LocalOnlyMembers(g: Graph, ids: seq<Id>, id: Id)
    ensures id in LocalOnly(g, ids) <==> id in ids && id in g.localIds
  {
    if ids == [] {
    } else {
      LocalOnlyMembers(g, ids[1..], id);
      assert ids == [ids[0]] + ids[1..];
    }
  }

  lemma SingleLocalIdUnique(g: Graph, id: Id)
    requires NameIndexed(g) && id in g.localIds && SingleLocalId(g, NameOf(g, id)).Some?
    ensures SingleLocalId(g, NameOf(g, id)) == Some(id)
  {
    LocalOnlyMembers(g, g.idsByName[NameOf(g, id)], id);
  }

  datatype Package = Package(id: Id, name: string, isLocal: bool)

  /** Record `k` is the last one with its id among the first `n`. */
  ghost predicate Latest(packages: seq<Package>, n: nat, k: int) {
    0 <= k < n <= |packages| && forall j :: k < j < n ==> packages[j].id != packages[k].id
  }

  /** The ids of the records called `name`, one for each record, in order. */
  function IdsNamed(packages: seq<Package>, name: string): seq<Id> {
    if packages == [] then []
    else
      var rest, last := packages[..|packages| - 1], packages[|packages| - 1];
      IdsNamed(rest, name) + (if last.name == name then [last.id] else [])
  }

  lemma {:induction false} LatestOf(packages: seq<Package>, n: nat, id: Id) returns (k: nat)
    requires n <= |packages| && exists j :: 0 <= j < n && packages[j].id == id
    ensures Latest(packages, n, k) && packages[k].id == id
  {
    if packages[n - 1].id == id {
      k := n - 1;
    } else {
      k := LatestOf(packages, n - 1, id);
    }
  }

  /** The last record of an id says whether the package is local. */
  ghost predicate LocalAtLast(packages: seq<Package>, id: Id) {
    exists k: nat :: Latest(packages, |packages|, k) && packages[k].id == id && packages[k].isLocal
  }

  lemma LatestShrinks(packages: seq<Package>, n: nat, k: int)
    requires Latest(packages, n + 1, k)
    ensures k == n || (Latest(packages, n, k) && packages[k].id != packages[n].id)
  {}

  /** The three maps after the first `n` records. */
  ghost predicate RecordsLoaded(packages: seq<Package>, n: nat, names: map<Id, string>, local: map<Id, bool>)
    requires n <= |packages|
  {
    && names.Keys == local.Keys
    && (forall id :: id in names <==> exists k :: 0 <= k < n && packages[k].id == id)
    && (forall k :: Latest(packages, n, k) ==>
          && packages[k].id in names && names[packages[k].id] == packages[k].name
          && local[packages[k].id] == packages[k].isLocal)
  }

  ghost predicate NamesLoaded(packages: seq<Package>, n: nat, names: map<Id, string>, index: map<string, seq<Id>>)
    requires n <= |packages|
  {
    && (forall id :: id in names ==> names[id] in index && id in index[names[id]])
    && (forall name :: IdsOf(index, name) == IdsNamed(packages[..n], name))
  }

  lemma RecordStep(packages: seq<Package>, n: nat, names: map<Id, string>, local: map<Id, bool>)
    requires n < |packages| && RecordsLoaded(packages, n, names, local)
    ensures RecordsLoaded(packages, n + 1, names[packages[n].id := packages[n].name], local[packages[n].id := packages[n].isLocal])
  {
    forall k | Latest(packages, n + 1, k) ensures k == n || (Latest(packages, n, k) && packages[k].id != packages[n].id) {
      LatestShrinks(packages, n, k);
    }
    hide Latest;
  }

  lemma NameStep(packages: seq<Package>, n: nat, names: map<Id, string>, index: map<string, seq<Id>>)
    requires n < |packages| && NamesLoaded(packages, n, names, index)
    ensures var p := packages[n];
      NamesLoaded(packages, n + 1, names[p.id := p.name], index[p.name := IdsOf(index, p.name) + [p.id]])
  {
    hide IdsNamed;
    var grown := index[packages[n].name := IdsOf(index, packages[n].name) + [packages[n].id]];
    forall name ensures IdsOf(grown, name) == IdsNamed(packages[..n + 1], name) {
      IdsNamedStep(packages, n, name);
      assert IdsOf(index, name) == IdsNamed(packages[..n], name);
    }
  }

  lemma IdsNamedStep(packages: seq<Package>, n: nat, name: string)
    requires n < |packages|
    ensures IdsNamed(packages[..n + 1], name) ==
      IdsNamed(packages[..n], name) + (if packages[n].name == name then [packages[n].id] else [])
  {
    assert packages[..n + 1][..n] == packages[..n] && packages[..n + 1][n] == packages[n];
  }

  /** The package loop of `graph_from_metadata`: a later record with the same id wins, but the name
      index keeps every append. */
  method IndexPackages(packages: seq<Package>, edges: set<(Id, Id)>) returns (g: Graph)
    ensures NameIndexed(g) && g.edges == edges && g.localIds <= g.names.Keys
    ensures forall id :: id in g.names <==> exists k :: 0 <= k < |packages| && packages[k].id == id
    ensures forall k :: Latest(packages, |packages|, k) ==>
              g.names[packages[k].id] == packages[k].name && (packages[k].id in g.localIds <==> packages[k].isLocal)
    ensures forall id :: id in g.localIds <==> LocalAtLast(packages, id)
    ensures forall name :: IdsOf(g.idsByName, name) == IdsNamed(packages, name)
  {
    var names: map<Id, string> := map[];
    var local: map<Id, bool> := map[];
    var idsByName: map<string, seq<Id>> := map[];
    assert RecordsLoaded(packages, 0, names, local) && NamesLoaded(packages, 0, names, idsByName);
    for i := 0 to |packages|
      invariant RecordsLoaded(packages, i, names, local) && NamesLoaded(packages, i, names, idsByName)
    {
      hide RecordsLoaded, NamesLoaded;
      var p := packages[i];
      RecordStep(packages, i, names, local);
      NameStep(packages, i, names, idsByName);
      names := names[p.id := p.name];
      local := local[p.id := p.isLocal];
      idsByName := idsByName[p.name := IdsOf(idsByName, p.name) + [p.id]];
    }
    assert packages[..|packages|] == packages;
    LastLocals(packages, local);
    hide Latest, IdsNamed;
    g := Graph((set id | id in local && local[id]), edges, names, idsByName);
  }

  lemma LastLocals(packages: seq<Package>, local: map<Id, bool>)
    requires forall id :: id in local <==> exists k :: 0 <= k < |packages| && packages[k].id == id
    requires forall k :: Latest(packages, |packages|, k) ==> packages[k].id in local && local[packages[k].id] == packages[k].isLocal
    ensures forall id :: id in local && local[id] <==> LocalAtLast(packages, id)
  {
    forall id ensures id in local && local[id] <==> LocalAtLast(packages, id) {
      if id in local {
        var k := LatestOf(packages, |packages|, id);
        LatestUnique(packages, k);
      }
    }
  }

  lemma LatestUnique(packages: seq<Package>, k: nat)
    requires Latest(packages, |packages|, k)
    ensures LocalAtLast(packages, packages[k].id) <==> packages[k].isLocal
  {}

  // ---- what the gate is about ----

  predicate WellFormed(a: Allowance) {
    |a.path| >= 2 && !Text.PyBlank(a.reason) && !Text.PyBlank(a.removalCondition)
  }

  predicate Resolvable(g: Graph, path: seq<string>) {
    forall n :: n in path ==> SingleLocalId(g, n).Some?
  }

  /** An allowance that takes part in this graph. */
  predicate Active(g: Graph, a: Allowance) {
    WellFormed(a) && Resolvable(g, a.path)
  }

  ghost predicate Applicable(g: Graph, policy: Policy, path: seq<string>) {
    exists i :: 0 <= i < |policy.allowances| && Active(g, policy.allowances[i]) && policy.allowances[i].path == path
  }

  /** The boundary law forbids `s` to reach `t`. */
  predicate ForbiddenPair(g: Graph, policy: Policy, s: Id, t: Id) {
    && s in g.localIds && t in g.localIds && s != t
    && RoleFor(policy, NameOf(g, s)).Some?
    && (|| (NameOf(g, s), NameOf(g, t)) in policy.forbiddenExact
        || RoleForbidden(policy, RoleFor(policy, NameOf(g, s)).value, RoleFor(policy, NameOf(g, t))))
  }

  predicate RoleForbidden(policy: Policy, source: string, target: Option<string>) {
    target.Some? && source in policy.forbiddenRoles && target.value in policy.forbiddenRoles[source]
  }

  /** `p` is the route the gate names for the forbidden reachable pair `(s, t)`. */
  ghost predicate Route(g: Graph, policy: Policy, s: Id, t: Id, p: seq<Id>) {
    ForbiddenPair(g, policy, s, t) && IsLeastPath(g, s, t, p)
  }

  /** Some forbidden reachable pair's route carries exactly these names. */
  ghost predicate Matched(g: Graph, policy: Policy, path: seq<string>) {
    exists s, t, p :: Route(g, policy, s, t, p) && Names(g, p) == path
  }

  ghost predicate Repeated(g: Graph, policy: Policy, path: seq<string>) {
    exists i, j :: 0 <= i < j < |policy.allowances| && Active(g, policy.allowances[i])
      && policy.allowances[i].path == policy.allowances[j].path == path && WellFormed(policy.allowances[j])
  }

  ghost predicate SomeMalformed(policy: Policy, path: seq<string>) {
    exists i :: 0 <= i < |policy.allowances| && !WellFormed(policy.allowances[i]) && policy.allowances[i].path == path
  }

  /** A report that is exact in each of the four kinds of violation. */
  ghost predicate IsReport(g: Graph, policy: Policy, violations: seq<Violation>) {
    && (forall path :: Malformed(path) in violations <==> SomeMalformed(policy, path))
    && (forall path :: Duplicate(path) in violations <==> Repeated(g, policy, path))
    && (forall s, t, p :: Forbidden(s, t, p) in violations
          <==> Route(g, policy, s, t, p) && !Applicable(g, policy, Names(g, p)))
    && (forall path :: Stale(path) in violations <==> Applicable(g, policy, path) && !Matched(g, policy, path))
  }

  /** Well-formed allowances for the path that come after one already accepted. */
  function LaterCopies(g: Graph, allowances: seq<Allowance>, path: seq<string>): nat {
    if allowances == [] then 0
    else
      var rest, last := allowances[..|allowances| - 1], allowances[|allowances| - 1];
      LaterCopies(g, rest, path) + if WellFormed(last) && last.path == path && Accepted(g, rest, path) then 1 else 0
  }

  predicate Accepted(g: Graph, allowances: seq<Allowance>, path: seq<string>) {
    exists k :: 0 <= k < |allowances| && Active(g, allowances[k]) && allowances[k].path == path
  }

  function MalformedCopies(allowances: seq<Allowance>, path: seq<string>): nat {
    if allowances == [] then 0
    else
      var rest, last := allowances[..|allowances| - 1], allowances[|allowances| - 1];
      MalformedCopies(rest, path) + if !WellFormed(last) && last.path == path then 1 else 0
  }

  /** How often a violation may be reported: once per malformed allowance, once per later copy of an
      accepted one, and at most once for a pair or a stale path. */
  ghost predicate CountIs(g: Graph, policy: Policy, v: Violation, count: nat) {
    match v
    case Malformed(path) => count == MalformedCopies(policy.allowances, path)
    case Duplicate(path) => count == LaterCopies(g, policy.allowances, path)
    case Forbidden(_, _, _) => count <= 1
    case Stale(_) => count <= 1
  }

  ghost predicate IsCounted(g: Graph, policy: Policy, violations: seq<Violation>) {
    forall v :: CountIs(g, policy, v, multiset(violations)[v])
  }

  /** The first loop's share of that. */
  ghost predicate IsCollected(g: Graph, allowances: seq<Allowance>, violations: seq<Violation>) {
    forall path ::
      && multiset(violations)[Malformed(path)] == MalformedCopies(allowances, path)
      && multiset(violations)[Duplicate(path)] == LaterCopies(g, allowances, path)
  }

  lemma CollectStep(g: Graph, allowances: seq<Allowance>, i: nat, before: seq<Violation>, after: seq<Violation>)
    requires i < |allowances| && IsCollected(g, allowances[..i], before)
    requires after == before + (
      var a := allowances[i];
      if !WellFormed(a) then [Malformed(a.path)]
      else if Accepted(g, allowances[..i], a.path) then [Duplicate(a.path)]
      else [])
    ensures IsCollected(g, allowances[..i + 1], after)
  {
    hide WellFormed, Accepted;
    var longer := allowances[..i + 1];
    assert longer[..i] == allowances[..i] && longer[i] == allowances[i];
    forall path
      ensures multiset(after)[Malformed(path)] == MalformedCopies(longer, path)
      ensures multiset(after)[Duplicate(path)] == LaterCopies(g, longer, path)
    {
      assert multiset(before)[Malformed(path)] == MalformedCopies(allowances[..i], path);
    }
  }

  lemma CountsAddUp(g: Graph, policy: Policy, collected: seq<Violation>, routes: seq<Violation>, stale: seq<Violation>)
    requires IsCollected(g, policy.allowances, collected)
    requires forall v :: v in collected ==> v.Malformed? || v.Duplicate?
    requires forall v :: v in routes ==> v.Forbidden?
    requires forall v :: v in stale ==> v.Stale?
    requires Distinct(routes) && Distinct(stale)
    ensures IsCounted(g, policy, collected + routes + stale)
  {
    DistinctIsMultiset(routes);
    DistinctIsMultiset(stale);
    hide Distinct, LaterCopies, MalformedCopies;
    var all := collected + routes + stale;
    forall v ensures CountIs(g, policy, v, multiset(all)[v]) {
      assert multiset(all)[v] == multiset(collected)[v] + multiset(routes)[v] + multiset(stale)[v];
      assert v !in collected ==> multiset(collected)[v] == 0;
      assert v !in routes ==> multiset(routes)[v] == 0;
      assert v !in stale ==> multiset(stale)[v] == 0;
    }
  }

  // ---- the gate ----

  /** First loop: sort allowances into malformed, duplicate and applicable. */
  method CollectAllowances(g: Graph, policy: Policy)
    returns (violations: seq<Violation>, applicable: map<seq<string>, Allowance>)
    ensures forall path :: path in applicable <==> Applicable(g, policy, path)
    ensures forall path :: Malformed(path) in violations <==> SomeMalformed(policy, path)
    ensures forall path :: Duplicate(path) in violations <==> Repeated(g, policy, path)
    ensures forall v :: v in violations ==> v.Malformed? || v.Duplicate?
    ensures IsCollected(g, policy.allowances, violations)
  {
    hide WellFormed, Resolvable, IsCollected, Gathered;
    violations := [];
    applicable := map[];
    var all := policy.allowances;
    CollectNothing(g);
    GatherNothing(g, all);
    assert applicable.Keys == {} && all[..0] == [];
    for i := 0 to |all|
      invariant Gathered(g, all, i, applicable.Keys, violations) && IsCollected(g, all[..i], violations)
    {
      var a := all[i];
      ghost var keys, before := applicable.Keys, violations;
      AcceptedSoFar(g, all, i, a.path);
      AcceptedAreKeys(g, all, i, keys, violations, a.path);
      if !WellFormed(a) {
        violations := violations + [Malformed(a.path)];
      } else if a.path in applicable {
        violations := violations + [Duplicate(a.path)];
      } else if Resolvable(g, a.path) {
        applicable := applicable[a.path := a];
      }
      GatherStep(g, all, i, keys, before, applicable.Keys, violations);
      CollectStep(g, all, i, before, violations);
    }
    assert all[..|all|] == all;
    GatheredAll(g, policy, applicable.Keys, violations);
  }

  /** After `n` allowances: the accepted paths, and what has been reported of each kind. */
  ghost predicate Gathered(g: Graph, all: seq<Allowance>, n: nat, keys: set<seq<string>>, violations: seq<Violation>)
    requires n <= |all|
  {
    && (forall path :: path in keys <==> exists k :: 0 <= k < n && Active(g, all[k]) && all[k].path == path)
    && (forall path :: Malformed(path) in violations <==> exists k :: 0 <= k < n && !WellFormed(all[k]) && all[k].path == path)
    && (forall path :: Duplicate(path) in violations <==>
          exists k, j :: 0 <= k < j < n && Active(g, all[k]) && all[k].path == all[j].path == path && WellFormed(all[j]))
    && (forall v :: v in violations ==> v.Malformed? || v.Duplicate?)
  }

  lemma GatherNothing(g: Graph, all: seq<Allowance>)
    ensures Gathered(g, all, 0, {}, [])
  {}

  lemma AcceptedAreKeys(g: Graph, all: seq<Allowance>, n: nat, keys: set<seq<string>>, violations: seq<Violation>, path: seq<string>)
    requires n <= |all| && Gathered(g, all, n, keys, violations)
    ensures path in keys <==> exists k :: 0 <= k < n && Active(g, all[k]) && all[k].path == path
  {}

  lemma GatherStep(g: Graph, all: seq<Allowance>, n: nat, keys: set<seq<string>>, before: seq<Violation>,
                   keys': set<seq<string>>, after: seq<Violation>)
    requires n < |all| && Gathered(g, all, n, keys, before)
    requires var a := all[n];
      if !WellFormed(a) then keys' == keys && after == before + [Malformed(a.path)]
      else if a.path in keys then keys' == keys && after == before + [Duplicate(a.path)]
      else keys' == (if Resolvable(g, a.path) then keys + {a.path} else keys) && after == before
    ensures Gathered(g, all, n + 1, keys', after)
  {
    hide WellFormed, Resolvable;
  }

  lemma GatheredAll(g: Graph, policy: Policy, keys: set<seq<string>>, violations: seq<Violation>)
    requires Gathered(g, policy.allowances, |policy.allowances|, keys, violations)
    ensures forall path :: path in keys <==> Applicable(g, policy, path)
    ensures forall path :: Malformed(path) in violations <==> SomeMalformed(policy, path)
    ensures forall path :: Duplicate(path) in violations <==> Repeated(g, policy, path)
    ensures forall v :: v in violations ==> v.Malformed? || v.Duplicate?
  {
    hide WellFormed, Resolvable;
  }

  lemma CollectNothing(g: Graph)
    ensures IsCollected(g, [], [])
  {}

  lemma AcceptedSoFar(g: Graph, all: seq<Allowance>, i: nat, path: seq<string>)
    requires i <= |all|
    ensures Accepted(g, all[..i], path) <==> exists k :: 0 <= k < i && Active(g, all[k]) && all[k].path == path
  {
    hide Active;
    if k :| 0 <= k < i && Active(g, all[k]) && all[k].path == path {
      assert all[..i][k] == all[k];
    }
  }

  /** The inner loop body: one ordered pair of local packages. */
  method CheckPair(g: Graph, policy: Policy, s: Id, t: Id) returns (r: Option<seq<Id>>)
    ensures forall p :: r == Some(p) <==> Route(g, policy, s, t, p)
  {
    hide IsLeastPath, ForbiddenPair;
    r := None;
    if ForbiddenPair(g, policy, s, t) {
      r := PathBetween(g, s, t);
      forall p | Route(g, policy, s, t, p) ensures r == Some(p) {
        LeastIsReachable(g, s, t, p);
        LeastPathUnique(g, s, t, p, r.value);
      }
    }
  }

  /** The pairs in `seen` are fully accounted for. */
  ghost predicate Recorded(g: Graph, policy: Policy, applicable: set<seq<string>>, seen: set<(Id, Id)>,
                           violations: seq<Violation>, matched: set<seq<string>>)
  {
    && (forall s, t, p :: Forbidden(s, t, p) in violations
          <==> (s, t) in seen && Route(g, policy, s, t, p) && Names(g, p) !in applicable)
    && (forall path :: path in matched
          <==> path in applicable && exists s, t, p :: (s, t) in seen && Route(g, policy, s, t, p) && Names(g, p) == path)
    && (forall v :: v in violations ==> v.Forbidden?)
  }

  lemma RecordNothing(g: Graph, policy: Policy, applicable: set<seq<string>>, seen: set<(Id, Id)>,
                      violations: seq<Violation>, matched: set<seq<string>>, s: Id, t: Id)
    requires Recorded(g, policy, applicable, seen, violations, matched)
    requires forall p :: !Route(g, policy, s, t, p)
    ensures Recorded(g, policy, applicable, seen + {(s, t)}, violations, matched)
  {
    hide Route, Names;
    forall path | path in matched
      ensures exists s', t', p :: (s', t') in seen + {(s, t)} && Route(g, policy, s', t', p) && Names(g, p) == path
    {
      var s', t', p :| (s', t') in seen && Route(g, policy, s', t', p) && Names(g, p) == path;
      assert (s', t') in seen + {(s, t)};
    }
  }

  lemma RecordMatch(g: Graph, policy: Policy, applicable: set<seq<string>>, seen: set<(Id, Id)>,
                    violations: seq<Violation>, matched: set<seq<string>>, s: Id, t: Id, p: seq<Id>)
    requires Recorded(g, policy, applicable, seen, violations, matched)
    requires forall q :: Route(g, policy, s, t, q) <==> q == p
    requires Names(g, p) in applicable
    ensures Recorded(g, policy, applicable, seen + {(s, t)}, violations, matched + {Names(g, p)})
  {
    hide Route, Names;
    var seen', matched' := seen + {(s, t)}, matched + {Names(g, p)};
    assert (s, t) in seen' && Route(g, policy, s, t, p);
    forall path | path in matched'
      ensures exists s', t', q :: (s', t') in seen' && Route(g, policy, s', t', q) && Names(g, q) == path
    {
      if path != Names(g, p) {
        var s', t', q :| (s', t') in seen && Route(g, policy, s', t', q) && Names(g, q) == path;
        assert (s', t') in seen';
      }
    }
  }

  lemma RecordViolation(g: Graph, policy: Policy, applicable: set<seq<string>>, seen: set<(Id, Id)>,
                        violations: seq<Violation>, matched: set<seq<string>>, s: Id, t: Id, p: seq<Id>)
    requires Recorded(g, policy, applicable, seen, violations, matched)
    requires forall q :: Route(g, policy, s, t, q) <==> q == p
    requires Names(g, p) !in applicable && (s, t) !in seen && Distinct(violations)
    ensures Recorded(g, policy, applicable, seen + {(s, t)}, violations + [Forbidden(s, t, p)], matched)
    ensures Distinct(violations + [Forbidden(s, t, p)])
  {
    hide Route, Names;
    assert Forbidden(s, t, p) !in violations;
    var seen' := seen + {(s, t)};
    forall path | path in matched
      ensures exists s', t', q :: (s', t') in seen' && Route(g, policy, s', t', q) && Names(g, q) == path
    {
      var s', t', q :| (s', t') in seen && Route(g, policy, s', t', q) && Names(g, q) == path;
      assert (s', t') in seen';
    }
  }

  /** `seen` is the part of the square `ids x ids` before row `i`, column `j`. */
  ghost predicate UpTo(ids: seq<Id>, i: nat, j: nat, seen: set<(Id, Id)>) {
    forall a, b :: 0 <= a < |ids| && 0 <= b < |ids| ==> ((ids[a], ids[b]) in seen <==> a < i || (a == i && b < j))
  }

  /** Second loop: every ordered pair of local packages in id order. */
  method CheckRoutes(g: Graph, policy: Policy, applicable: map<seq<string>, Allowance>)
    returns (violations: seq<Violation>, matched: set<seq<string>>)
    ensures forall s, t, p :: Forbidden(s, t, p) in violations <==> Route(g, policy, s, t, p) && Names(g, p) !in applicable
    ensures forall path :: path in matched <==> path in applicable && Matched(g, policy, path)
    ensures Distinct(violations) && forall v :: v in violations ==> v.Forbidden?
  {
    hide Route, Names, SortedIds, Recorded;
    var ids := SortedIds(g.localIds);
    assert Distinct(ids) by { StrOrder(); }
    hide Ascending, Distinct;
    violations, matched := [], {};
    assert Distinct(violations) by { DistinctNothing(); }
    var emitted: set<(Id, Id)> := {};
    ghost var seen: set<(Id, Id)> := {};
    ghost var keys := applicable.Keys;
    RecordedStarts(g, policy, keys);
    for i := 0 to |ids|
      invariant emitted <= seen && UpTo(ids, i, 0, seen)
      invariant Recorded(g, policy, keys, seen, violations, matched) && Distinct(violations)
    {
      for j := 0 to |ids|
        invariant emitted <= seen && UpTo(ids, i, j, seen)
        invariant Recorded(g, policy, keys, seen, violations, matched) && Distinct(violations)
      {
        var s, t := ids[i], ids[j];
        var route := CheckPair(g, policy, s, t);
        if route.None? || (s, t) in emitted {
          RecordNothing(g, policy, keys, seen, violations, matched, s, t);
        } else {
          emitted := emitted + {(s, t)};
          if Names(g, route.value) in applicable {
            RecordMatch(g, policy, keys, seen, violations, matched, s, t, route.value);
            matched := matched + {Names(g, route.value)};
          } else {
            RecordViolation(g, policy, keys, seen, violations, matched, s, t, route.value);
            violations := violations + [Forbidden(s, t, route.value)];
          }
        }
        seen := seen + {(s, t)};
      }
    }
    RecordedAll(g, policy, keys, ids, seen, violations, matched);
  }

  lemma DistinctNothing()
    ensures Distinct<Violation>([])
  {}

  lemma RecordedStarts(g: Graph, policy: Policy, applicable: set<seq<string>>)
    ensures Recorded(g, policy, applicable, {}, [], {})
  {}

  lemma RecordedAll(g: Graph, policy: Policy, applicable: set<seq<string>>, ids: seq<Id>, seen: set<(Id, Id)>,
                    violations: seq<Violation>, matched: set<seq<string>>)
    requires Recorded(g, policy, applicable, seen, violations, matched) && UpTo(ids, |ids|, 0, seen)
    requires forall x :: x in ids <==> x in g.localIds
    ensures forall s, t, p :: Forbidden(s, t, p) in violations <==> Route(g, policy, s, t, p) && Names(g, p) !in applicable
    ensures forall path :: path in matched <==> path in applicable && Matched(g, policy, path)
    ensures forall v :: v in violations ==> v.Forbidden?
  {
    hide IsLeastPath, Names;
    forall s, t, p | Route(g, policy, s, t, p) ensures (s, t) in seen {
      assert s in ids && t in ids;
      var a :| 0 <= a < |ids| && ids[a] == s;
      var b :| 0 <= b < |ids| && ids[b] == t;
      assert (ids[a], ids[b]) in seen;
    }
    hide Route;
  }

  /** Third loop: applicable allowances that no route matched are stale. */
  method CheckStale(applicable: map<seq<string>, Allowance>, matched: set<seq<string>>) returns (violations: seq<Violation>)
    ensures forall path :: Stale(path) in violations <==> path in applicable && path !in matched
    ensures Distinct(violations) && forall v :: v in violations ==> v.Stale?
  {
    PathOrder();
    var keys := SortedSet(applicable.Keys, PathLess);
    assert Distinct(keys);
    DistinctNothing();
    hide StrictTotal, SortedSet, Ascending, PathLess, Distinct;
    violations := [];
    for i := 0 to |keys|
      invariant StaleUpTo(keys, i, matched, violations) && Distinct(violations)
    {
      NotBefore(keys, i);
      StaleStep(keys, i, matched, violations);
      if keys[i] !in matched {
        DistinctSnoc(violations, Stale(keys[i]));
        violations := violations + [Stale(keys[i])];
      }
      hide StaleUpTo;
    }
    assert keys[..|keys|] == keys;
  }

  /** The stale paths among the first `i` keys are reported, and nothing else. */
  ghost predicate StaleUpTo(keys: seq<seq<string>>, i: nat, matched: set<seq<string>>, violations: seq<Violation>)
    requires i <= |keys|
  {
    && (forall path :: Stale(path) in violations <==> path in keys[..i] && path !in matched)
    && (forall v :: v in violations ==> v.Stale?)
  }

  lemma StaleStep(keys: seq<seq<string>>, i: nat, matched: set<seq<string>>, violations: seq<Violation>)
    requires i < |keys| && keys[i] !in keys[..i] && StaleUpTo(keys, i, matched, violations)
    ensures keys[i] in matched ==> StaleUpTo(keys, i + 1, matched, violations)
    ensures keys[i] !in matched ==>
      Stale(keys[i]) !in violations && StaleUpTo(keys, i + 1, matched, violations + [Stale(keys[i])])
  {
    assert forall path :: path in keys[..i + 1] <==> path in keys[..i] || path == keys[i];
  }

  lemma NotBefore<T>(s: seq<T>, i: nat)
    requires Distinct(s) && i < |s|
    ensures s[i] !in s[..i]
  {}

  lemma DistinctSnoc<T>(s: seq<T>, x: T)
    requires Distinct(s) && x !in s
    ensures Distinct(s + [x])
  {}

  /** The whole gate. */
  method ForbiddenDependencyViolations(g: Graph, policy: Policy) returns (violations: seq<Violation>)
    ensures IsReport(g, policy, violations) && IsCounted(g, policy, violations)
  {
    hide Applicable, SomeMalformed, Repeated, Route, Names, Matched, IsCollected, Distinct, IsCounted;
    var collected, applicable := CollectAllowances(g, policy);
    var routes, matched := CheckRoutes(g, policy, applicable);
    var stale := CheckStale(applicable, matched);
    CountsAddUp(g, policy, collected, routes, stale);
    violations := collected + routes + stale;
  }

  // ---- exactness ----

  /** The gate's law, with no reference to the run. */
  ghost predicate Clean(g: Graph, policy: Policy) {
    && (forall i :: 0 <= i < |policy.allowances| ==> WellFormed(policy.allowances[i]))
    && (forall i, j :: 0 <= i < j < |policy.allowances| && Active(g, policy.allowances[i])
          ==> policy.allowances[i].path != policy.allowances[j].path)
    && (forall s, t, p :: Route(g, policy, s, t, p) ==> Applicable(g, policy, Names(g, p)))
    && (forall path :: Applicable(g, policy, path) ==> Matched(g, policy, path))
  }

  lemma CleanReportsNothing(g: Graph, policy: Policy, violations: seq<Violation>, v: Violation)
    requires IsReport(g, policy, violations) && Clean(g, policy)
    ensures v !in violations
  {
    hide Route, Names, WellFormed, Resolvable, Applicable, Matched;
    match v
    case Malformed(path) => assert !SomeMalformed(policy, path);
    case Duplicate(path) => assert !Repeated(g, policy, path);
    case Forbidden(s, t, p) =>
    case Stale(path) =>
  }

  lemma GateIsExact(g: Graph, policy: Policy, violations: seq<Violation>)
    requires IsReport(g, policy, violations)
    ensures violations == [] <==> Clean(g, policy)
  {
    hide Route, Names, WellFormed, Resolvable, Applicable, Matched;
    assert violations != [] ==> violations[0] in violations;
    if violations == [] {
      forall i | 0 <= i < |policy.allowances| ensures WellFormed(policy.allowances[i]) {
        assert !SomeMalformed(policy, policy.allowances[i].path);
      }
      forall i, j | 0 <= i < j < |policy.allowances| && Active(g, policy.allowances[i])
        ensures policy.allowances[i].path != policy.allowances[j].path
      {
        assert !Repeated(g, policy, policy.allowances[i].path);
      }
    }
    if Clean(g, policy) {
      forall v ensures v !in violations { CleanReportsNothing(g, policy, violations, v); }
    }
  }

  /** Two well-formed allowances for one path. */
  ghost predicate RepeatedWellFormed(policy: Policy, path: seq<string>) {
    exists i, j :: 0 <= i < j < |policy.allowances| && WellFormed(policy.allowances[i]) && WellFormed(policy.allowances[j])
      && policy.allowances[i].path == policy.allowances[j].path == path
  }

  /** A repeated path is reported iff it is applicable, so every repetition is reported iff every
      repeated path resolves in the current graph. */
  lemma DuplicatesReportedWhenResolvable(g: Graph, policy: Policy, violations: seq<Violation>)
    requires IsReport(g, policy, violations)
    ensures forall path :: Duplicate(path) in violations <==> RepeatedWellFormed(policy, path) && Resolvable(g, path)
    ensures (forall path :: RepeatedWellFormed(policy, path) ==> Duplicate(path) in violations)
            <==> (forall path :: RepeatedWellFormed(policy, path) ==> Resolvable(g, path))
  {
    hide WellFormed, Resolvable, Route;
    forall path ensures Duplicate(path) in violations <==> RepeatedWellFormed(policy, path) && Resolvable(g, path) {
      assert Duplicate(path) in violations <==> Repeated(g, policy, path);
    }
    hide RepeatedWellFormed, Repeated;
  }

  /** A graph with no packages, under a policy that only repeats one allowance. */
  function NoPackages(): Graph { Graph({}, {}, map[], map[]) }

  function Twice(a: Allowance): Policy { Policy(map[], [], map[], {}, [a, a]) }

  lemma UnresolvedTwiceIsSilent(a: Allowance)
    requires WellFormed(a)
    ensures RepeatedWellFormed(Twice(a), a.path) && IsReport(NoPackages(), Twice(a), [])
  {
    var g, policy := NoPackages(), Twice(a);
    UnresolvedName(g, a.path[0]);
    assert a.path[0] in a.path && !Resolvable(g, a.path);
    assert WellFormed(policy.allowances[0]) && WellFormed(policy.allowances[1]);
    hide Resolvable, WellFormed, IsLeastPath;
  }

  /** A repetition that goes unreported: a path between packages the graph does not have. */
  lemma SilentDuplicate() returns (g: Graph, policy: Policy, path: seq<string>)
    ensures RepeatedWellFormed(policy, path) && IsReport(g, policy, [])
  {
    var a := Allowance(["old-source", "old-target"], "migration", "when it ends");
    NotPyBlank(a.reason);
    NotPyBlank(a.removalCondition);
    hide Text.PyBlank, IsReport, RepeatedWellFormed;
    UnresolvedTwiceIsSilent(a);
    g, policy, path := NoPackages(), Twice(a), a.path;
  }

  lemma UnresolvedName(g: Graph, name: string)
    requires g.idsByName == map[]
    ensures SingleLocalId(g, name).None?
  {}

  lemma NotPyBlank(s: string)
    requires s != "" && 'a' <= s[0] <= 'z'
    ensures !Text.PyBlank(s)
  {
    assert s[0] in s;
  }

  // ---- allowances and forbidden pairs correspond ----

  /** The end points of a route are the packages its names denote. */
  lemma RouteEnds(g: Graph, policy: Policy, s: Id, t: Id, p: seq<Id>, path: seq<string>)
    requires NameIndexed(g) && Route(g, policy, s, t, p) && Names(g, p) == path && Applicable(g, policy, path)
    ensures |path| >= 2 && |p| == |path|
    ensures SingleLocalId(g, path[0]) == Some(s) && SingleLocalId(g, path[|path| - 1]) == Some(t)
  {
    var i :| 0 <= i < |policy.allowances| && Active(g, policy.allowances[i]) && policy.allowances[i].path == path;
    assert path[0] == NameOf(g, s) && path[|path| - 1] == NameOf(g, t);
    assert path[0] in path && path[|path| - 1] in path;
    SingleLocalIdUnique(g, s);
    SingleLocalIdUnique(g, t);
  }

  ghost function ReachableForbiddenPairs(g: Graph, policy: Policy): set<(Id, Id)> {
    set s, t | s in g.localIds && t in g.localIds && ForbiddenPair(g, policy, s, t) && g.Reach(s, t) :: (s, t)
  }

  ghost function ApplicablePaths(g: Graph, policy: Policy): set<seq<string>> {
    set a | a in policy.allowances && Active(g, a) :: a.path
  }

  ghost predicate Covers(g: Graph, policy: Policy, path: seq<string>, pair: (Id, Id)) {
    exists p :: Route(g, policy, pair.0, pair.1, p) && Names(g, p) == path
  }

  lemma {:induction false} BijectionSize<A(!new), B(!new)>(a: set<A>, b: set<B>, rel: (A, B) -> bool)
    requires forall x :: x in a ==> exists y :: y in b && rel(x, y)
    requires forall y :: y in b ==> exists x :: x in a && rel(x, y)
    requires forall x, y, y' :: x in a && y in b && y' in b && rel(x, y) && rel(x, y') ==> y == y'
    requires forall x, x', y :: x in a && x' in a && y in b && rel(x, y) && rel(x', y) ==> x == x'
    ensures |a| == |b|
  {
    if a == {} {
      assert b == {};
    } else {
      var x :| x in a;
      var y :| y in b && rel(x, y);
      forall x' | x' in a - {x} ensures exists y' :: y' in b - {y} && rel(x', y') {
        var y' :| y' in b && rel(x', y');
        assert y' in b - {y};
      }
      forall y' | y' in b - {y} ensures exists x' :: x' in a - {x} && rel(x', y') {
        var x' :| x' in a && rel(x', y');
        assert x' in a - {x};
      }
      BijectionSize(a - {x}, b - {y}, rel);
    }
  }

  lemma ApplicablePathsExact(g: Graph, policy: Policy, path: seq<string>)
    ensures path in ApplicablePaths(g, policy) <==> Applicable(g, policy, path)
  {
    hide WellFormed, Resolvable;
    if Applicable(g, policy, path) {
      var i :| 0 <= i < |policy.allowances| && Active(g, policy.allowances[i]) && policy.allowances[i].path == path;
      assert policy.allowances[i] in policy.allowances;
    }
  }

  lemma PairHasRoute(g: Graph, policy: Policy, s: Id, t: Id) returns (p: seq<Id>)
    requires ForbiddenPair(g, policy, s, t) && g.Reach(s, t)
    ensures Route(g, policy, s, t, p)
  {
    p := LeastPathExists(g, s, t);
  }

  /** When the gate is silent, each applicable allowance covers exactly one forbidden reachable pair. */
  lemma AllowanceCoversOnePair(g: Graph, policy: Policy, path: seq<string>) returns (pair: (Id, Id))
    requires NameIndexed(g) && Clean(g, policy) && path in ApplicablePaths(g, policy)
    ensures pair in ReachableForbiddenPairs(g, policy) && Covers(g, policy, path, pair)
    ensures forall other :: Covers(g, policy, path, other) ==> other == pair
  {
    ApplicablePathsExact(g, policy, path);
    hide Applicable, ApplicablePaths, ForbiddenPair, IsLeastPath, SingleLocalId, Names;
    assert Matched(g, policy, path);
    var s, t, p :| Route(g, policy, s, t, p) && Names(g, p) == path;
    pair := (s, t);
    LeastIsReachable(g, s, t, p);
    RouteIsPair(g, policy, s, t, p);
    RouteEnds(g, policy, s, t, p, path);
    forall other | Covers(g, policy, path, other) ensures other == pair {
      var q :| Route(g, policy, other.0, other.1, q) && Names(g, q) == path;
      RouteEnds(g, policy, other.0, other.1, q, path);
    }
  }

  lemma RouteIsPair(g: Graph, policy: Policy, s: Id, t: Id, p: seq<Id>)
    requires Route(g, policy, s, t, p)
    ensures (s, t) in ReachableForbiddenPairs(g, policy)
  {}

  /** When the gate is silent, each forbidden reachable pair is covered by exactly one allowance path. */
  lemma PairHasOneAllowance(g: Graph, policy: Policy, pair: (Id, Id)) returns (path: seq<string>)
    requires Clean(g, policy) && pair in ReachableForbiddenPairs(g, policy)
    ensures path in ApplicablePaths(g, policy) && Covers(g, policy, path, pair)
    ensures forall other :: Covers(g, policy, other, pair) ==> other == path
  {
    var p := PairHasRoute(g, policy, pair.0, pair.1);
    path := Names(g, p);
    hide Names, Applicable, ApplicablePaths, IsLeastPath, ForbiddenPair;
    ApplicablePathsExact(g, policy, path);
    forall other | Covers(g, policy, other, pair) ensures other == path {
      var q :| Route(g, policy, pair.0, pair.1, q) && Names(g, q) == other;
      LeastPathUnique(g, pair.0, pair.1, p, q);
    }
  }

  /** A silent gate has exactly as many applicable allowance paths as forbidden reachable pairs. */
  lemma AllowancesMatchPairs(g: Graph, policy: Policy)
    requires NameIndexed(g) && Clean(g, policy)
    ensures |ApplicablePaths(g, policy)| == |ReachableForbiddenPairs(g, policy)|
  {
    hide Clean, ApplicablePaths, ReachableForbiddenPairs, Covers;
    var paths, pairs := ApplicablePaths(g, policy), ReachableForbiddenPairs(g, policy);
    var rel := (path, pair) => Covers(g, policy, path, pair);
    forall path | path in paths ensures exists pair :: pair in pairs && rel(path, pair) {
      var pair := AllowanceCoversOnePair(g, policy, path);
      assert pair in pairs && rel(path, pair);
    }
    forall pair | pair in pairs ensures exists path :: path in paths && rel(path, pair) {
      var path := PairHasOneAllowance(g, policy, pair);
      assert path in paths && rel(path, pair);
    }
    forall path, pair, pair' | path in paths && pair in pairs && pair' in pairs && rel(path, pair) && rel(path, pair')
      ensures pair == pair'
    {
      var one := AllowanceCoversOnePair(g, policy, path);
    }
    forall path, path', pair | path in paths && path' in paths && pair in pairs && rel(path, pair) && rel(path', pair)
      ensures path == path'
    {
      var one := PairHasOneAllowance(g, policy, pair);
    }
    BijectionSize(paths, pairs, rel);
  }

  /** A strictly shorter route in the current graph expires an allowance for the longer one. */
  lemma ShorterRouteExpires(g: Graph, policy: Policy, violations: seq<Violation>, path: seq<string>, s: Id, t: Id, q: seq<Id>)
    requires NameIndexed(g) && IsReport(g, policy, violations) && Applicable(g, policy, path) && |path| >= 2
    requires SingleLocalId(g, path[0]) == Some(s) && SingleLocalId(g, path[|path| - 1]) == Some(t)
    requires g.Connects(q, s, t) && |q| < |path|
    ensures Stale(path) in violations
  {
    if Matched(g, policy, path) {
      var s', t', p :| Route(g, policy, s', t', p) && Names(g, p) == path;
      RouteEnds(g, policy, s', t', p, path);
    }
  }
}
