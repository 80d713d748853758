/** The profile catalog: validation and selector resolution
    (crates/nq-core/src/inquiry.rs, `InquiryProfileCatalogV0`). */
module ProfileCatalog {
  import opened Order
  import opened Text
  import opened Profiles

  datatype Catalog = Catalog(schema: string, profiles: seq<Profile>) {
    /** What an accepted catalog guarantees: valid profiles, unique ids, no shared name or alias. */
    ghost predicate Valid() {
      && schema == CATALOG_SCHEMA
      && profiles != []
      && (forall i :: 0 <= i < |profiles| ==> profiles[i].Valid())
      && UniqueIds(profiles)
      && Unambiguous(profiles)
    }
  }

  ghost predicate UniqueIds(profiles: seq<Profile>) {
    forall i, j :: 0 <= i < j < |profiles| ==> profiles[i].profileId != profiles[j].profileId
  }

  /** A name or alias belongs to one profile id. */
  ghost predicate Unambiguous(profiles: seq<Profile>) {
    forall i, j, name :: 0 <= i < |profiles| && 0 <= j < |profiles| && profiles[i].Answers(name) && profiles[j].Answers(name)
      ==> profiles[i].profileId == profiles[j].profileId
  }

  // ---- validation ----

  function Label(p: Profile): string { p.profileId + "@v0" }

  lemma LabelInjective(p: Profile, q: Profile)
    ensures Label(p) == Label(q) <==> p.profileId == q.profileId
  {
    if Label(p) == Label(q) {
      assert |p.profileId| == |q.profileId|;
      assert p.profileId == Label(p)[..|p.profileId|] && q.profileId == Label(q)[..|q.profileId|];
    }
  }

  /** The name table after some profiles: each name lists the labels of the profiles that answer to it. */
  ghost predicate TableOk(profiles: seq<Profile>, names: map<string, seq<string>>) {
    && (forall name, l :: Lists(names, name, l) ==> Owned(profiles, name, l))
    && (forall i, name :: 0 <= i < |profiles| && profiles[i].Answers(name) ==> Lists(names, name, Label(profiles[i])))
  }

  ghost predicate Owned(profiles: seq<Profile>, name: string, l: string) {
    exists i :: 0 <= i < |profiles| && profiles[i].Answers(name) && Label(profiles[i]) == l
  }

  ghost predicate Lists(names: map<string, seq<string>>, name: string, l: string) {
    name in names && l in names[name]
  }

  method AddName(names: map<string, seq<string>>, name: string, l: string) returns (r: map<string, seq<string>>)
    ensures forall n, k :: Lists(r, n, k) <==> Lists(names, n, k) || (n == name && k == l)
  {
    r := names[name := (if name in names then names[name] else []) + [l]];
  }

  method AddProfile(ghost before: seq<Profile>, p: Profile, names: map<string, seq<string>>)
    returns (r: map<string, seq<string>>)
    requires TableOk(before, names)
    ensures TableOk(before + [p], r)
  {
    hide Label, Lists, TableOk;
    var l := Label(p);
    r := AddName(names, p.profileId, l);
    for k := 0 to |p.aliases|
      invariant forall n, m :: Lists(r, n, m) <==> Lists(names, n, m) || ((n == p.profileId || n in p.aliases[..k]) && m == l)
    {
      assert p.aliases[..k + 1] == p.aliases[..k] + [p.aliases[k]];
      r := AddName(r, p.aliases[k], l);
    }
    assert p.aliases[..|p.aliases|] == p.aliases;
    TableGrows(before, p, names, r);
  }

  lemma TableGrows(before: seq<Profile>, p: Profile, names: map<string, seq<string>>, r: map<string, seq<string>>)
    requires TableOk(before, names)
    requires forall n, m :: Lists(r, n, m) <==> Lists(names, n, m) || (p.Answers(n) && m == Label(p))
    ensures TableOk(before + [p], r)
  {
    hide Label, Profile.Answers;
    var after := before + [p];
    assert after[|before|] == p && forall i :: 0 <= i < |before| ==> after[i] == before[i];
    forall name, l | Lists(r, name, l) ensures Owned(after, name, l) {
      if Lists(names, name, l) {
        assert Owned(before, name, l);
        var i :| 0 <= i < |before| && before[i].Answers(name) && Label(before[i]) == l;
        assert after[i].Answers(name);
      } else {
        assert after[|before|].Answers(name);
      }
    }
    forall i, name | 0 <= i < |after| && after[i].Answers(name) ensures Lists(r, name, Label(after[i])) {
      assert i < |before| ==> Lists(names, name, Label(before[i]));
    }
  }

  /** `sort(); dedup()` leaves more than one owner exactly when two owners differ. */
  lemma OwnersDiffer(owners: seq<string>)
    ensures |Dedup(Sort(owners, StrLess))| > 1 <==> exists x, y :: x in owners && y in owners && x != y
  {
    StrOrder();
    hide StrLess;
    SortSorts(owners, StrLess);
    var d := Dedup(Sort(owners, StrLess));
    DedupAscends(Sort(owners, StrLess), StrLess);
    if |d| > 1 {
      assert StrLess(d[0], d[1]) && d[0] in d && d[1] in d;
    }
    if x, y :| x in owners && y in owners && x != y {
      assert x in d && y in d;
    }
  }

  /** No name has two owners exactly when the profiles are unambiguous. */
  lemma TableUnambiguous(profiles: seq<Profile>, names: map<string, seq<string>>)
    requires TableOk(profiles, names)
    ensures Unambiguous(profiles) <==>
      forall name, x, y :: name in names && x in names[name] && y in names[name] ==> x == y
  {
    hide Label;
    if Unambiguous(profiles) {
      forall name, x, y | name in names && x in names[name] && y in names[name] ensures x == y {
        assert Lists(names, name, x) && Lists(names, name, y);
        var i :| 0 <= i < |profiles| && profiles[i].Answers(name) && Label(profiles[i]) == x;
        var j :| 0 <= j < |profiles| && profiles[j].Answers(name) && Label(profiles[j]) == y;
        LabelInjective(profiles[i], profiles[j]);
      }
    }
    if forall name, x, y :: name in names && x in names[name] && y in names[name] ==> x == y {
      forall i, j, name | 0 <= i < |profiles| && 0 <= j < |profiles| && profiles[i].Answers(name) && profiles[j].Answers(name)
        ensures profiles[i].profileId == profiles[j].profileId
      {
        assert Lists(names, name, Label(profiles[i])) && Lists(names, name, Label(profiles[j]));
        LabelInjective(profiles[i], profiles[j]);
      }
    }
  }

  method ValidateCatalog(c: Catalog) returns (ok: bool)
    ensures ok <==> c.Valid()
  {
    hide Profile.Valid, Profile.Answers, Unambiguous, TableOk, StrLess;
    if c.schema != CATALOG_SCHEMA || c.profiles == [] {
      return false;
    }
    var bindings: set<string> := {};
    var names: map<string, seq<string>> := map[];
    EmptyTable(names);
    for i := 0 to |c.profiles|
      invariant forall j :: 0 <= j < i ==> c.profiles[j].Valid()
      invariant forall id :: id in bindings <==> exists j :: 0 <= j < i && c.profiles[j].profileId == id
      invariant UniqueIds(c.profiles[..i])
      invariant TableOk(c.profiles[..i], names)
    {
      var p := c.profiles[i];
      var valid := ValidateProfile(p);
      if !valid {
        return false;
      }
      if p.profileId in bindings {
        return false;
      }
      bindings := bindings + {p.profileId};
      assert c.profiles[..i + 1] == c.profiles[..i] + [p];
      names := AddProfile(c.profiles[..i], p, names);
    }
    assert c.profiles[..|c.profiles|] == c.profiles;
    TableUnambiguous(c.profiles, names);
    ok := true;
    var pending := names.Keys;
    while pending != {}
      invariant pending <= names.Keys
      invariant ok <==> forall name, x, y ::
        name in names && name !in pending && x in names[name] && y in names[name] ==> x == y
      decreases pending
    {
      var name :| name in pending;
      pending := pending - {name};
      OwnersDiffer(names[name]);
      if |Dedup(Sort(names[name], StrLess))| > 1 {
        ok := false;
      }
    }
  }

  lemma EmptyTable(names: map<string, seq<string>>)
    requires names == map[]
    ensures TableOk([], names)
  {}

  // ---- resolution ----

  datatype Resolved = Resolved(profile: Profile, profileDigest: string)

  /** `normalized()` then `profile_digest()` of one catalog profile. */
  function ResolvedOf(digest: Profile -> string, p: Profile): Resolved {
    Resolved(Normalize(p), digest(Normalize(Normalize(p))))
  }

  function Matches(digest: Profile -> string, profiles: seq<Profile>, selector: string): seq<Resolved> {
    if profiles == [] then []
    else (if profiles[0].Answers(selector) then [ResolvedOf(digest, profiles[0])] else [])
         + Matches(digest, profiles[1..], selector)
  }

  predicate ResolvedLess(a: Resolved, b: Resolved) {
    || StrLess(a.profile.profileId, b.profile.profileId)
    || (a.profile.profileId == b.profile.profileId && StrLess(a.profileDigest, b.profileDigest))
  }

  predicate SameBinding(a: Resolved, b: Resolved) {
    a.profile.profileId == b.profile.profileId && a.profileDigest == b.profileDigest
  }

  datatype Resolution = Found(resolved: Resolved) | InvalidCatalog | BlankSelector | NotFound | MoreThanOne

  /** The whole of `resolve`, including the branch for more than one match. */
  ghost function Resolve(digest: Profile -> string, c: Catalog, selector: string): Resolution {
    if !c.Valid() then InvalidCatalog
    else if Blank(selector) then BlankSelector
    else
      var matches := DedupBy(Sort(Matches(digest, c.profiles, selector), ResolvedLess), SameBinding);
      if |matches| == 0 then NotFound
      else if |matches| == 1 then Found(matches[0])
      else MoreThanOne
  }

  lemma {:induction false} MatchesSnoc(digest: Profile -> string, profiles: seq<Profile>, p: Profile, selector: string)
    ensures Matches(digest, profiles + [p], selector) ==
      Matches(digest, profiles, selector) + (if p.Answers(selector) then [ResolvedOf(digest, p)] else [])
  {
    hide Profile.Answers, ResolvedOf;
    if profiles == [] {
    } else {
      MatchesSnoc(digest, profiles[1..], p, selector);
      assert (profiles + [p])[1..] == profiles[1..] + [p];
    }
  }

  /** Finds exactly the one profile that answers to the selector; never more than one. */
  method ResolveProfile(digest: Profile -> string, c: Catalog, selector: string) returns (r: Resolution)
    ensures r == Resolve(digest, c, selector)
    ensures r == InvalidCatalog <==> !c.Valid()
    ensures r == BlankSelector <==> c.Valid() && Blank(selector)
    ensures c.Valid() && !Blank(selector) ==>
      && r != MoreThanOne
      && (r == NotFound <==> forall i :: 0 <= i < |c.profiles| ==> !c.profiles[i].Answers(selector))
      && (forall i :: 0 <= i < |c.profiles| && c.profiles[i].Answers(selector) ==> r == Found(ResolvedOf(digest, c.profiles[i])))
  {
    hide Catalog.Valid, Profile.Answers, ResolvedOf, Blank;
    var valid := ValidateCatalog(c);
    if !valid {
      return InvalidCatalog;
    }
    if Blank(selector) {
      return BlankSelector;
    }
    var matches: seq<Resolved> := [];
    assert matches == Matches(digest, c.profiles[..0], selector);
    for i := 0 to |c.profiles|
      invariant matches == Matches(digest, c.profiles[..i], selector)
    {
      MatchesSnoc(digest, c.profiles[..i], c.profiles[i], selector);
      assert c.profiles[..i + 1] == c.profiles[..i] + [c.profiles[i]];
      if c.profiles[i].Answers(selector) {
        matches := matches + [ResolvedOf(digest, c.profiles[i])];
      }
    }
    assert c.profiles[..|c.profiles|] == c.profiles;
    ResolveIsExact(digest, c, selector);
    matches := DedupBy(Sort(matches, ResolvedLess), SameBinding);
    r := if |matches| == 0 then NotFound else if |matches| == 1 then Found(matches[0]) else MoreThanOne;
  }

  lemma {:induction false} MatchesMembers(digest: Profile -> string, profiles: seq<Profile>, selector: string, r: Resolved)
    ensures r in Matches(digest, profiles, selector) <==>
      exists i :: 0 <= i < |profiles| && profiles[i].Answers(selector) && ResolvedOf(digest, profiles[i]) == r
  {
    hide Profile.Answers, ResolvedOf;
    if profiles == [] {
    } else {
      MatchesMembers(digest, profiles[1..], selector, r);
      if i :| 0 <= i < |profiles[1..]| && profiles[1..][i].Answers(selector) && ResolvedOf(digest, profiles[1..][i]) == r {
        assert profiles[i + 1] == profiles[1..][i];
      }
      if i :| 0 < i < |profiles| && profiles[i].Answers(selector) && ResolvedOf(digest, profiles[i]) == r {
        assert profiles[1..][i - 1] == profiles[i];
      }
    }
  }

  /** Unique ids and unambiguous names leave at most one match. */
  lemma {:induction false} AtMostOneMatch(digest: Profile -> string, profiles: seq<Profile>, selector: string)
    requires UniqueIds(profiles) && Unambiguous(profiles)
    ensures |Matches(digest, profiles, selector)| <= 1
  {
    hide Profile.Answers, ResolvedOf;
    if profiles == [] {
    } else {
      var rest := profiles[1..];
      assert forall i :: 0 <= i < |rest| ==> rest[i] == profiles[i + 1];
      AtMostOneMatch(digest, rest, selector);
      if profiles[0].Answers(selector) && Matches(digest, rest, selector) != [] {
        var r := Matches(digest, rest, selector)[0];
        MatchesMembers(digest, rest, selector, r);
      }
    }
  }

  /** On a valid catalog a selector finds exactly the one profile that answers to it, and the
      "more than one" branch is unreachable. */
  lemma ResolveIsExact(digest: Profile -> string, c: Catalog, selector: string)
    requires c.Valid() && !Blank(selector)
    ensures Resolve(digest, c, selector) != MoreThanOne
    ensures Resolve(digest, c, selector) == NotFound <==> forall i :: 0 <= i < |c.profiles| ==> !c.profiles[i].Answers(selector)
    ensures forall i :: 0 <= i < |c.profiles| && c.profiles[i].Answers(selector) ==>
      Resolve(digest, c, selector) == Found(ResolvedOf(digest, c.profiles[i]))
  {
    var m := Matches(digest, c.profiles, selector);
    AtMostOneMatch(digest, c.profiles, selector);
    hide Profile.Answers, Profile.Valid, ResolvedOf, Unambiguous, UniqueIds, Matches;
    assert Sort(m, ResolvedLess) == m by {
      if |m| == 1 { assert m == [m[0]] && m[1..] == []; }
    }
    assert DedupBy(m, SameBinding) == m;
    forall i | 0 <= i < |c.profiles| && c.profiles[i].Answers(selector)
      ensures Resolve(digest, c, selector) == Found(ResolvedOf(digest, c.profiles[i]))
    {
      MatchesMembers(digest, c.profiles, selector, ResolvedOf(digest, c.profiles[i]));
    }
    if m != [] {
      MatchesMembers(digest, c.profiles, selector, m[0]);
    }
  }

  // ---- order independence ----

  /** `b` lists the profiles of `a` in another order, each with its arrays possibly reordered. */
  ghost predicate Rearranges(a: seq<Profile>, b: seq<Profile>, to: seq<nat>, from: seq<nat>) {
    && |a| == |b| == |to| == |from|
    && (forall i :: 0 <= i < |a| ==> to[i] < |a| && from[i] < |a|)
    && (forall i :: 0 <= i < |a| ==> from[to[i]] == i && to[from[i]] == i)
    && (forall i :: 0 <= i < |a| ==> Normalize(a[i]) == Normalize(b[to[i]]))
  }

  lemma RearrangedBack(a: seq<Profile>, b: seq<Profile>, to: seq<nat>, from: seq<nat>)
    requires Rearranges(a, b, to, from)
    ensures Rearranges(b, a, from, to)
  {
    hide Normalize;
    forall i | 0 <= i < |b| ensures Normalize(b[i]) == Normalize(a[from[i]]) {
      assert Normalize(a[from[i]]) == Normalize(b[to[from[i]]]);
    }
  }

  /** Each rearranged profile is as valid as its original and answers to the same names. */
  lemma RearrangedAlike(a: seq<Profile>, b: seq<Profile>, to: seq<nat>, from: seq<nat>)
    requires Rearranges(a, b, to, from)
    ensures Rearranges(b, a, from, to)
    ensures forall i :: 0 <= i < |b| ==>
      && b[i].profileId == a[from[i]].profileId && (b[i].Valid() <==> a[from[i]].Valid())
      && (forall name :: b[i].Answers(name) <==> a[from[i]].Answers(name))
  {
    RearrangedBack(a, b, to, from);
    hide Normalize, Profile.Valid, Profile.Answers;
    forall i | 0 <= i < |b|
      ensures b[i].profileId == a[from[i]].profileId && (b[i].Valid() <==> a[from[i]].Valid())
      ensures forall name :: b[i].Answers(name) <==> a[from[i]].Answers(name)
    {
      NormalizeIsCanonical(b[i]);
      NormalizeIsCanonical(a[from[i]]);
    }
  }

  lemma RearrangedValid(a: Catalog, b: Catalog, to: seq<nat>, from: seq<nat>)
    requires a.Valid() && a.schema == b.schema && Rearranges(a.profiles, b.profiles, to, from)
    ensures b.Valid()
  {
    RearrangedAlike(a.profiles, b.profiles, to, from);
    hide Normalize, Profile.Valid, Profile.Answers, Blank;
    forall i, j | 0 <= i < j < |b.profiles| ensures b.profiles[i].profileId != b.profiles[j].profileId {
      assert from[i] != from[j] by { assert to[from[i]] == i && to[from[j]] == j; }
    }
  }

  /** Resolution depends neither on the order of the profiles nor on the order of their arrays. */
  lemma ResolveIgnoresOrder(digest: Profile -> string, a: Catalog, b: Catalog, to: seq<nat>, from: seq<nat>, selector: string)
    requires a.schema == b.schema && Rearranges(a.profiles, b.profiles, to, from)
    ensures Resolve(digest, a, selector) == Resolve(digest, b, selector)
  {
    RearrangedBack(a.profiles, b.profiles, to, from);
    if a.Valid() { RearrangedValid(a, b, to, from); }
    if b.Valid() { RearrangedValid(b, a, from, to); }
    if a.Valid() && !Blank(selector) {
      hide Catalog.Valid, Profile.Answers, Normalize;
      ResolveIsExact(digest, a, selector);
      ResolveIsExact(digest, b, selector);
      if i :| 0 <= i < |a.profiles| && a.profiles[i].Answers(selector) {
        NormalizeIsCanonical(a.profiles[i]);
        NormalizeIsCanonical(b.profiles[to[i]]);
        assert b.profiles[to[i]].Answers(selector);
      } else {
        forall i | 0 <= i < |b.profiles| ensures !b.profiles[i].Answers(selector) {
          NormalizeIsCanonical(b.profiles[i]);
          NormalizeIsCanonical(a.profiles[from[i]]);
        }
      }
    }
  }
}
