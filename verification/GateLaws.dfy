/** The forbidden-dependency report in the policy's own terms: names, roles, prefixes, routes and
    allowances (scripts/check-constellation-boundaries.py). */
module GateLaws {
  import opened Order
  import opened DependencyGraph
  import opened ShortestPath
  import opened ForbiddenGate
  import Text

  // ---- roles ----

  /** An exact entry decides; without one, the first prefix that fits. */
  ghost predicate HasRole(policy: Policy, name: string, role: string) {
    if name in policy.roles then policy.roles[name] == role
    else exists i :: FirstPrefix(policy.rolePrefixes, name, i) && policy.rolePrefixes[i].1 == role
  }

  ghost predicate FirstPrefix(prefixes: seq<(string, string)>, name: string, i: int) {
    && 0 <= i < |prefixes| && prefixes[i].0 <= name
    && forall j :: 0 <= j < i ==> !(prefixes[j].0 <= name)
  }

  lemma {:induction false} PrefixRoleIsFirst(prefixes: seq<(string, string)>, name: string)
    ensures PrefixRole(prefixes, name).None? <==> forall j :: 0 <= j < |prefixes| ==> !(prefixes[j].0 <= name)
    ensures forall i :: FirstPrefix(prefixes, name, i) ==> PrefixRole(prefixes, name) == Some(prefixes[i].1)
    ensures PrefixRole(prefixes, name).Some? ==> exists i :: FirstPrefix(prefixes, name, i)
  {
    if prefixes == [] {
    } else if prefixes[0].0 <= name {
      assert FirstPrefix(prefixes, name, 0);
    } else {
      var rest := prefixes[1..];
      PrefixRoleIsFirst(rest, name);
      forall i | FirstPrefix(prefixes, name, i) ensures PrefixRole(prefixes, name) == Some(prefixes[i].1) {
        assert rest[i - 1] == prefixes[i];
        assert FirstPrefix(rest, name, i - 1);
      }
      if PrefixRole(rest, name).Some? {
        var i :| FirstPrefix(rest, name, i);
        assert FirstPrefix(prefixes, name, i + 1);
      }
      assert forall j :: 0 < j < |prefixes| ==> prefixes[j] == rest[j - 1];
    }
  }

  lemma RolesAreExact(policy: Policy, name: string, role: string)
    ensures RoleFor(policy, name) == Some(role) <==> HasRole(policy, name, role)
  {
    PrefixRoleIsFirst(policy.rolePrefixes, name);
  }

  // ---- names ----

  /** `path` lists the names of the packages of `p`. */
  ghost predicate NamedBy(g: Graph, p: seq<Id>, path: seq<string>) {
    |path| == |p| && forall i :: 0 <= i < |p| ==> p[i] in g.names && g.names[p[i]] == path[i]
  }

  ghost predicate OnlyAt(g: Graph, ids: seq<Id>, k: int) {
    && 0 <= k < |ids| && ids[k] in g.localIds
    && forall j :: 0 <= j < |ids| && j != k ==> ids[j] !in g.localIds
  }

  /** Exactly one record of this name, counted with repeats, is of a local package. */
  ghost predicate OneLocal(g: Graph, name: string) {
    name in g.idsByName && exists k :: OnlyAt(g, g.idsByName[name], k)
  }

  lemma {:induction false} LocalOnlyCount(g: Graph, ids: seq<Id>)
    ensures LocalOnly(g, ids) == [] <==> forall j :: 0 <= j < |ids| ==> ids[j] !in g.localIds
    ensures |LocalOnly(g, ids)| == 1 <==> exists k :: OnlyAt(g, ids, k)
  {
    if ids == [] {
    } else {
      var rest := ids[1..];
      LocalOnlyCount(g, rest);
      assert forall j :: 0 < j < |ids| ==> ids[j] == rest[j - 1];
      if ids[0] in g.localIds {
        assert |LocalOnly(g, ids)| == 1 <==> LocalOnly(g, rest) == [];
        if LocalOnly(g, rest) == [] { assert OnlyAt(g, ids, 0); }
        if k :| OnlyAt(g, ids, k) {
          assert k == 0;
          forall j | 0 <= j < |rest| ensures rest[j] !in g.localIds { assert rest[j] == ids[j + 1]; }
        }
      } else {
        if k :| OnlyAt(g, rest, k) { assert OnlyAt(g, ids, k + 1); }
        if k :| OnlyAt(g, ids, k) {
          assert k > 0;
          forall j | 0 <= j < |rest| && j != k - 1 ensures rest[j] !in g.localIds { assert rest[j] == ids[j + 1]; }
          assert OnlyAt(g, rest, k - 1);
        }
      }
    }
  }

  lemma SingleIsOneLocal(g: Graph, name: string)
    ensures SingleLocalId(g, name).Some? <==> OneLocal(g, name)
  {
    LocalOnlyCount(g, IdsOf(g.idsByName, name));
    hide LocalOnly, OnlyAt;
    assert name !in g.idsByName ==> LocalOnly(g, []) == [] by { LocalOnlyCount(g, []); }
  }

  // ---- the policy ----

  /** Reaching `t` from `s` breaks a boundary: the source has a role, and either the two names are a
      forbidden pair or the source's role may not reach the target's. */
  ghost predicate Breaks(g: Graph, policy: Policy, s: Id, t: Id) {
    && s in g.localIds && t in g.localIds && s != t && s in g.names && t in g.names
    && exists r :: HasRole(policy, g.names[s], r)
         && (|| (g.names[s], g.names[t]) in policy.forbiddenExact
             || (r in policy.forbiddenRoles && exists q :: q in policy.forbiddenRoles[r] && HasRole(policy, g.names[t], q)))
  }

  lemma BreaksIsExact(g: Graph, policy: Policy, s: Id, t: Id)
    requires g.localIds <= g.names.Keys
    ensures ForbiddenPair(g, policy, s, t) <==> Breaks(g, policy, s, t)
  {
    if s in g.localIds && t in g.localIds {
      forall r ensures RoleFor(policy, g.names[s]) == Some(r) <==> HasRole(policy, g.names[s], r) {
        RolesAreExact(policy, g.names[s], r);
      }
      forall r ensures RoleFor(policy, g.names[t]) == Some(r) <==> HasRole(policy, g.names[t], r) {
        RolesAreExact(policy, g.names[t], r);
      }
      hide RoleFor, HasRole;
    }
  }

  /** A written-out allowance: two names or more, a reason and a removal condition. */
  ghost predicate Written(a: Allowance) {
    |a.path| > 1 && !Text.PyBlank(a.reason) && !Text.PyBlank(a.removalCondition)
  }

  /** It applies to this graph: each of its names is carried by one local record. */
  ghost predicate Usable(g: Graph, policy: Policy, path: seq<string>) {
    && (exists a :: a in policy.allowances && Written(a) && a.path == path)
    && forall n :: n in path ==> OneLocal(g, n)
  }

  lemma UsableIsExact(g: Graph, policy: Policy, path: seq<string>)
    ensures Applicable(g, policy, path) <==> Usable(g, policy, path)
  {
    forall n ensures SingleLocalId(g, n).Some? <==> OneLocal(g, n) { SingleIsOneLocal(g, n); }
    hide SingleLocalId, OneLocal, Text.PyBlank;
    if Usable(g, policy, path) {
      var a :| a in policy.allowances && Written(a) && a.path == path;
      var i :| 0 <= i < |policy.allowances| && policy.allowances[i] == a;
      assert Active(g, policy.allowances[i]);
    }
  }

  lemma {:induction false} WalkStaysLocal(g: Graph, p: seq<Id>, k: nat)
    requires g.IsPath(p) && p[0] in g.localIds && k < |p|
    ensures p[k] in g.localIds
  {
    if k == 0 {
    } else {
      assert g.Step(p[k - 1], p[k - 1 + 1]);
    }
  }

  lemma NamesAreExact(g: Graph, p: seq<Id>, path: seq<string>)
    requires g.localIds <= g.names.Keys && g.IsPath(p) && p[0] in g.localIds
    ensures Names(g, p) == path <==> NamedBy(g, p, path)
  {
    forall i | 0 <= i < |p| ensures p[i] in g.names { WalkStaysLocal(g, p, i); }
    if NamedBy(g, p, path) { assert Names(g, p) == path; }
  }

  // ---- the report ----

  /** What the report must contain, kind by kind, in the policy's terms. */
  ghost predicate Blames(g: Graph, policy: Policy, s: Id, t: Id, p: seq<Id>) {
    && Breaks(g, policy, s, t) && IsLeastPath(g, s, t, p)
    && !exists path :: Usable(g, policy, path) && NamedBy(g, p, path)
  }

  ghost predicate Follows(g: Graph, policy: Policy, path: seq<string>) {
    exists s, t, p :: Breaks(g, policy, s, t) && IsLeastPath(g, s, t, p) && NamedBy(g, p, path)
  }

  lemma BlamesIsExact(g: Graph, policy: Policy, s: Id, t: Id, p: seq<Id>)
    requires g.localIds <= g.names.Keys
    ensures Route(g, policy, s, t, p) && !Applicable(g, policy, Names(g, p)) <==> Blames(g, policy, s, t, p)
  {
    BreaksIsExact(g, policy, s, t);
    if Breaks(g, policy, s, t) && IsLeastPath(g, s, t, p) {
      assert g.IsPath(p) && p[0] == s by { LeastIsPath(g, s, t, p); }
      forall path ensures Usable(g, policy, path) && NamedBy(g, p, path) <==> Applicable(g, policy, path) && Names(g, p) == path {
        UsableIsExact(g, policy, path);
        NamesAreExact(g, p, path);
      }
    }
    hide ForbiddenPair, Breaks, IsLeastPath, Applicable, Usable, NamedBy, Names;
  }

  lemma LeastIsPath(g: Graph, s: Id, t: Id, p: seq<Id>)
    requires IsLeastPath(g, s, t, p)
    ensures g.IsPath(p) && p[0] == s && p[|p| - 1] == t
  {}

  lemma FollowsIsExact(g: Graph, policy: Policy, path: seq<string>)
    requires g.localIds <= g.names.Keys
    ensures Matched(g, policy, path) <==> Follows(g, policy, path)
  {
    forall s, t, p ensures Route(g, policy, s, t, p) && Names(g, p) == path <==>
      Breaks(g, policy, s, t) && IsLeastPath(g, s, t, p) && NamedBy(g, p, path)
    {
      BreaksIsExact(g, policy, s, t);
      if Breaks(g, policy, s, t) && IsLeastPath(g, s, t, p) {
        LeastIsPath(g, s, t, p);
        NamesAreExact(g, p, path);
      }
      hide ForbiddenPair, IsLeastPath, NamedBy, Names;
    }
    hide Route, Breaks, IsLeastPath, NamedBy, Names;
  }

  /** The gate's report, said of the policy tables and the graph. */
  ghost predicate PolicyReport(g: Graph, policy: Policy, violations: seq<Violation>) {
    && (forall path :: Malformed(path) in violations <==> exists a :: a in policy.allowances && !Written(a) && a.path == path)
    && (forall path :: Duplicate(path) in violations <==>
          Usable(g, policy, path) && WrittenTwice(policy, path))
    && (forall s, t, p :: Forbidden(s, t, p) in violations <==> Blames(g, policy, s, t, p))
    && (forall path :: Stale(path) in violations <==> Usable(g, policy, path) && !Follows(g, policy, path))
  }

  ghost predicate WrittenAt(policy: Policy, i: int, path: seq<string>) {
    0 <= i < |policy.allowances| && Written(policy.allowances[i]) && policy.allowances[i].path == path
  }

  ghost predicate WrittenTwice(policy: Policy, path: seq<string>) {
    exists i, j :: 0 <= i < j < |policy.allowances| && WrittenAt(policy, i, path) && WrittenAt(policy, j, path)
  }

  lemma MalformedIsExact(policy: Policy, path: seq<string>)
    ensures SomeMalformed(policy, path) <==> exists a :: a in policy.allowances && !Written(a) && a.path == path
  {
    hide Text.PyBlank;
    if a :| a in policy.allowances && !Written(a) && a.path == path {
      var i :| 0 <= i < |policy.allowances| && policy.allowances[i] == a;
      assert !WellFormed(policy.allowances[i]);
    }
  }

  lemma RepeatedIsExact(g: Graph, policy: Policy, path: seq<string>)
    ensures Repeated(g, policy, path) <==> Usable(g, policy, path) && WrittenTwice(policy, path)
  {
    forall n ensures SingleLocalId(g, n).Some? <==> OneLocal(g, n) { SingleIsOneLocal(g, n); }
    hide SingleLocalId, OneLocal, Text.PyBlank;
    if Repeated(g, policy, path) {
      var i, j :| 0 <= i < j < |policy.allowances| && Active(g, policy.allowances[i])
        && policy.allowances[i].path == policy.allowances[j].path == path && WellFormed(policy.allowances[j]);
      assert WrittenAt(policy, i, path) && WrittenAt(policy, j, path);
      assert policy.allowances[i] in policy.allowances;
    }
    if i, j :| 0 <= i < j < |policy.allowances| && WrittenAt(policy, i, path) && WrittenAt(policy, j, path) {
      assert Usable(g, policy, path) ==> Active(g, policy.allowances[i]);
      assert WellFormed(policy.allowances[j]);
    }
  }

  /** On a graph whose local packages have records, the gate's report is the policy's report. */
  lemma ReportIsPolicy(g: Graph, policy: Policy, violations: seq<Violation>)
    requires g.localIds <= g.names.Keys
    ensures IsReport(g, policy, violations) <==> PolicyReport(g, policy, violations)
  {
    forall path ensures SomeMalformed(policy, path) <==> exists a :: a in policy.allowances && !Written(a) && a.path == path {
      MalformedIsExact(policy, path);
    }
    forall path ensures Repeated(g, policy, path) <==> Usable(g, policy, path) && WrittenTwice(policy, path) {
      RepeatedIsExact(g, policy, path);
    }
    forall path ensures Applicable(g, policy, path) && !Matched(g, policy, path) <==> Usable(g, policy, path) && !Follows(g, policy, path) {
      UsableIsExact(g, policy, path);
      FollowsIsExact(g, policy, path);
    }
    forall s, t, p ensures Route(g, policy, s, t, p) && !Applicable(g, policy, Names(g, p)) <==> Blames(g, policy, s, t, p) {
      BlamesIsExact(g, policy, s, t, p);
    }
    hide SomeMalformed, Written, Repeated, WrittenTwice, Usable, Applicable, Matched, Follows, Route, Names, Blames;
  }

  // ---- consequences a policy author relies on ----

  /** A role that may not reach another is blamed for its least path, and for nothing else, unless an
      allowance names exactly that path. */
  lemma ForbiddenRoleIsBlamed(g: Graph, policy: Policy, violations: seq<Violation>, s: Id, t: Id, p: seq<Id>, r: string, q: string)
    requires g.localIds <= g.names.Keys && IsReport(g, policy, violations)
    requires s in g.localIds && t in g.localIds && s != t && IsLeastPath(g, s, t, p)
    requires g.names[s] in policy.roles && policy.roles[g.names[s]] == r
    requires g.names[t] in policy.roles && policy.roles[g.names[t]] == q
    requires r in policy.forbiddenRoles && q in policy.forbiddenRoles[r]
    requires forall a :: a in policy.allowances ==> !NamedBy(g, p, a.path)
    ensures forall other :: Forbidden(s, t, other) in violations <==> other == p
  {
    ReportIsPolicy(g, policy, violations);
    assert HasRole(policy, g.names[s], r) && HasRole(policy, g.names[t], q);
    assert Breaks(g, policy, s, t);
    assert Blames(g, policy, s, t, p);
    hide IsReport;
    forall other | Forbidden(s, t, other) in violations ensures other == p {
      assert Blames(g, policy, s, t, other);
      LeastPathUnique(g, s, t, other, p);
    }
  }

  /** A pair that neither table forbids is never blamed. */
  lemma PermittedPairIsNotBlamed(g: Graph, policy: Policy, violations: seq<Violation>, s: Id, t: Id, p: seq<Id>, r: string)
    requires g.localIds <= g.names.Keys && IsReport(g, policy, violations) && s in g.localIds && t in g.localIds
    requires HasRole(policy, g.names[s], r) && (g.names[s], g.names[t]) !in policy.forbiddenExact
    requires r in policy.forbiddenRoles ==> forall q :: HasRole(policy, g.names[t], q) ==> q !in policy.forbiddenRoles[r]
    ensures Forbidden(s, t, p) !in violations
  {
    ReportIsPolicy(g, policy, violations);
    hide IsReport;
    forall other | HasRole(policy, g.names[s], other) ensures other == r {
      RolesAreExact(policy, g.names[s], other);
      RolesAreExact(policy, g.names[s], r);
    }
    hide HasRole, IsLeastPath, Usable, NamedBy;
  }

  /** A package without a role is never blamed, whatever it reaches. */
  lemma RolelessSourceIsNotBlamed(g: Graph, policy: Policy, violations: seq<Violation>, s: Id, t: Id, p: seq<Id>)
    requires g.localIds <= g.names.Keys && IsReport(g, policy, violations) && s in g.localIds
    requires g.names[s] !in policy.roles
    requires forall i :: 0 <= i < |policy.rolePrefixes| ==> !(policy.rolePrefixes[i].0 <= g.names[s])
    ensures Forbidden(s, t, p) !in violations
  {
    ReportIsPolicy(g, policy, violations);
    hide IsReport, IsLeastPath, Usable, NamedBy;
  }
}
