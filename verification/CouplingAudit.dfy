/** The audit of private source couplings against the transitional allowlist
    (scripts/check-constellation-boundaries.py, `audit_couplings`). */
module CouplingAudit {
  import opened Order
  import Text

  /** (kind, consumer, source path, target, target path) */
  type Key = k: seq<string> | |k| == 5 witness ["", "", "", "", ""]

  datatype Finding = Finding(key: Key, line: nat, expression: string)

  datatype Allowance = Allowance(key: Key, reason: string, removalCondition: string)

  datatype Violation =
    | Malformed(key: Key)
    | Duplicate(key: Key)
    | Unallowlisted(finding: Finding)
    | Stale(key: Key)

  datatype SourceAudit = SourceAudit(
    findings: seq<Finding>,
    allowed: seq<(Allowance, nat)>,
    violations: seq<Violation>)

  /** Every one of the seven fields says something. */
  predicate Complete(a: Allowance) {
    (forall f :: f in a.key ==> !Text.PyBlank(f)) && !Text.PyBlank(a.reason) && !Text.PyBlank(a.removalCondition)
  }

  ghost predicate DistinctKeys(allowances: seq<Allowance>) {
    forall i, j :: 0 <= i < j < |allowances| ==> allowances[i].key != allowances[j].key
  }

  ghost predicate HasKey(allowances: seq<Allowance>, k: Key) {
    exists i :: 0 <= i < |allowances| && allowances[i].key == k
  }

  ghost predicate IncompleteKey(allowances: seq<Allowance>, k: Key) {
    exists i :: 0 <= i < |allowances| && allowances[i].key == k && !Complete(allowances[i])
  }

  ghost predicate RepeatedKey(allowances: seq<Allowance>, k: Key) {
    exists i, j :: 0 <= i < j < |allowances| && allowances[i].key == allowances[j].key == k
  }

  ghost predicate Coupled(findings: seq<Finding>, k: Key) {
    exists i :: 0 <= i < |findings| && findings[i].key == k
  }

  /** `collections.Counter` over the finding keys. */
  function Occurrences(findings: seq<Finding>, k: Key): nat {
    if findings == [] then 0
    else (if findings[0].key == k then 1 else 0) + Occurrences(findings[1..], k)
  }

  function TotalOver(findings: seq<Finding>, keys: seq<Key>): nat {
    if keys == [] then 0 else Occurrences(findings, keys[0]) + TotalOver(findings, keys[1..])
  }

  function CountUnallowlisted(violations: seq<Violation>): nat {
    if violations == [] then 0
    else (if violations[0].Unallowlisted? then 1 else 0) + CountUnallowlisted(violations[1..])
  }

  function AllowedTotal(allowed: seq<(Allowance, nat)>): nat {
    if allowed == [] then 0 else allowed[0].1 + AllowedTotal(allowed[1..])
  }

  lemma {:induction false} OccurrencesPositive(findings: seq<Finding>, k: Key)
    ensures Occurrences(findings, k) > 0 <==> Coupled(findings, k)
  {
    if findings == [] {
    } else {
      OccurrencesPositive(findings[1..], k);
      if Coupled(findings[1..], k) {
        var i :| 0 <= i < |findings[1..]| && findings[1..][i].key == k;
        assert findings[i + 1].key == k;
      }
      if Coupled(findings, k) && findings[0].key != k {
        var i :| 0 <= i < |findings| && findings[i].key == k;
        assert findings[1..][i - 1].key == k;
      }
    }
  }

  /** Findings outside a key list. */
  function Outside(findings: seq<Finding>, keys: seq<Key>): nat {
    if findings == [] then 0
    else (if findings[0].key in keys then 0 else 1) + Outside(findings[1..], keys)
  }

  lemma {:induction false} TotalOverStep(findings: seq<Finding>, keys: seq<Key>)
    requires findings != [] && Distinct(keys)
    ensures TotalOver(findings, keys) == TotalOver(findings[1..], keys) + (if findings[0].key in keys then 1 else 0)
  {
    if keys == [] {
    } else {
      assert keys == [keys[0]] + keys[1..];
      TotalOverStep(findings, keys[1..]);
    }
  }

  lemma {:induction false} TotalOverNothing(keys: seq<Key>)
    ensures TotalOver([], keys) == 0
  {
    if keys == [] {
    } else {
      TotalOverNothing(keys[1..]);
    }
  }

  /** Each finding is either outside the distinct keys or counted under exactly one of them. */
  lemma {:induction false} FindingsConserved(findings: seq<Finding>, keys: seq<Key>)
    requires Distinct(keys)
    ensures Outside(findings, keys) + TotalOver(findings, keys) == |findings|
  {
    if findings == [] {
      TotalOverNothing(keys);
    } else {
      FindingsConserved(findings[1..], keys);
      TotalOverStep(findings, keys);
    }
  }

  lemma {:induction false} CountAppend(a: seq<Violation>, b: seq<Violation>)
    ensures CountUnallowlisted(a + b) == CountUnallowlisted(a) + CountUnallowlisted(b)
  {
    if a == [] {
      assert a + b == b;
    } else {
      CountAppend(a[1..], b);
      assert (a + b)[1..] == a[1..] + b;
    }
  }

  lemma {:induction false} CountNone(a: seq<Violation>)
    requires forall v :: v in a ==> !v.Unallowlisted?
    ensures CountUnallowlisted(a) == 0
  {
    if a == [] {
    } else {
      CountNone(a[1..]);
    }
  }

  lemma {:induction false} OutsideSnoc(findings: seq<Finding>, f: Finding, keys: seq<Key>)
    ensures Outside(findings + [f], keys) == Outside(findings, keys) + (if f.key in keys then 0 else 1)
  {
    if findings == [] {
      assert [f][1..] == [];
    } else {
      OutsideSnoc(findings[1..], f, keys);
      assert (findings + [f])[1..] == findings[1..] + [f];
    }
  }

  lemma {:induction false} AllowedTotalSnoc(allowed: seq<(Allowance, nat)>, x: (Allowance, nat))
    ensures AllowedTotal(allowed + [x]) == AllowedTotal(allowed) + x.1
  {
    if allowed == [] {
      assert [x][1..] == [];
    } else {
      AllowedTotalSnoc(allowed[1..], x);
      assert (allowed + [x])[1..] == allowed[1..] + [x];
    }
  }

  lemma {:induction false} TotalOverSnoc(findings: seq<Finding>, keys: seq<Key>, k: Key)
    ensures TotalOver(findings, keys + [k]) == TotalOver(findings, keys) + Occurrences(findings, k)
  {
    if keys == [] {
      assert [k][1..] == [];
    } else {
      TotalOverSnoc(findings, keys[1..], k);
      assert (keys + [k])[1..] == keys[1..] + [k];
    }
  }

  // ---- the three loops ----

  method IndexAllowances(allowances: seq<Allowance>)
    returns (violations: seq<Violation>, byKey: map<Key, Allowance>, malformed: set<Key>)
    ensures forall k :: k in byKey <==> HasKey(allowances, k)
    ensures forall k :: k in byKey ==> byKey[k].key == k && byKey[k] in allowances
    ensures forall v :: v in violations ==> v.Malformed? || v.Duplicate?
    ensures forall k :: Malformed(k) in violations <==> IncompleteKey(allowances, k)
    ensures forall k :: Duplicate(k) in violations <==> RepeatedKey(allowances, k)
    ensures forall k :: k in malformed <==> IncompleteKey(allowances, k) || RepeatedKey(allowances, k)
  {
    hide Complete;
    violations, byKey, malformed := [], map[], {};
    for i := 0 to |allowances|
      invariant forall k :: k in byKey <==> HasKey(allowances[..i], k)
      invariant forall k :: k in byKey ==> byKey[k].key == k && byKey[k] in allowances
      invariant forall v :: v in violations ==> v.Malformed? || v.Duplicate?
      invariant forall k :: Malformed(k) in violations <==> IncompleteKey(allowances[..i], k)
      invariant forall k :: Duplicate(k) in violations <==> RepeatedKey(allowances[..i], k)
      invariant forall k :: k in malformed <==> IncompleteKey(allowances[..i], k) || RepeatedKey(allowances[..i], k)
    {
      var a := allowances[i];
      assert allowances[..i + 1] == allowances[..i] + [a];
      KeysGrow(allowances[..i], a);
      if !Complete(a) {
        violations := violations + [Malformed(a.key)];
        malformed := malformed + {a.key};
      }
      if a.key in byKey {
        violations := violations + [Duplicate(a.key)];
        malformed := malformed + {a.key};
      }
      hide HasKey, IncompleteKey, RepeatedKey;
      byKey := byKey[a.key := a];
    }
    assert allowances[..|allowances|] == allowances;
  }

  lemma KeysGrow(s: seq<Allowance>, a: Allowance)
    ensures forall k :: HasKey(s + [a], k) <==> HasKey(s, k) || k == a.key
    ensures forall k :: IncompleteKey(s + [a], k) <==> IncompleteKey(s, k) || (k == a.key && !Complete(a))
    ensures forall k :: RepeatedKey(s + [a], k) <==> RepeatedKey(s, k) || (k == a.key && HasKey(s, k))
  {
    hide Complete;
    var t := s + [a];
    assert t[|s|] == a && forall i :: 0 <= i < |s| ==> t[i] == s[i];
    forall k ensures HasKey(t, k) <==> HasKey(s, k) || k == a.key {
      if HasKey(s, k) { var i :| 0 <= i < |s| && s[i].key == k; assert t[i].key == k; }
    }
    forall k ensures IncompleteKey(t, k) <==> IncompleteKey(s, k) || (k == a.key && !Complete(a)) {
      if IncompleteKey(s, k) { var i :| 0 <= i < |s| && s[i].key == k && !Complete(s[i]); assert t[i].key == k; }
    }
    forall k ensures RepeatedKey(t, k) <==> RepeatedKey(s, k) || (k == a.key && HasKey(s, k)) {
      if RepeatedKey(s, k) { var i, j :| 0 <= i < j < |s| && s[i].key == s[j].key == k; assert t[i].key == t[j].key == k; }
      if k == a.key && HasKey(s, k) { var i :| 0 <= i < |s| && s[i].key == k; assert t[i].key == t[|s|].key == k; }
    }
  }

  lemma WellKeyed(allowances: seq<Allowance>)
    ensures (forall k :: !IncompleteKey(allowances, k)) <==> forall a :: a in allowances ==> Complete(a)
    ensures (forall k :: !RepeatedKey(allowances, k)) <==> DistinctKeys(allowances)
  {
    hide Complete;
    if forall k :: !IncompleteKey(allowances, k) {
      forall i | 0 <= i < |allowances| ensures Complete(allowances[i]) {
        assert !IncompleteKey(allowances, allowances[i].key);
      }
    }
    if forall k :: !RepeatedKey(allowances, k) {
      forall i, j | 0 <= i < j < |allowances| ensures allowances[i].key != allowances[j].key {
        assert !RepeatedKey(allowances, allowances[i].key);
      }
    }
  }

  method CheckFindings(findings: seq<Finding>, keys: seq<Key>) returns (violations: seq<Violation>)
    ensures CountUnallowlisted(violations) == Outside(findings, keys)
    ensures forall v :: v in violations <==> v.Unallowlisted? && v.finding in findings && v.finding.key !in keys
  {
    violations := [];
    for i := 0 to |findings|
      invariant CountUnallowlisted(violations) == Outside(findings[..i], keys)
      invariant forall v :: v in violations <==> v.Unallowlisted? && v.finding in findings[..i] && v.finding.key !in keys
    {
      assert findings[..i + 1] == findings[..i] + [findings[i]];
      OutsideSnoc(findings[..i], findings[i], keys);
      if findings[i].key !in keys {
        CountAppend(violations, [Unallowlisted(findings[i])]);
        violations := violations + [Unallowlisted(findings[i])];
      }
    }
    assert findings[..|findings|] == findings;
  }

  ghost predicate IsAllowed(findings: seq<Finding>, keys: seq<Key>, byKey: map<Key, Allowance>, malformed: set<Key>,
                            x: (Allowance, nat))
  {
    var k := x.0.key;
    k in keys && k in byKey && byKey[k] == x.0 && k !in malformed && x.1 == Occurrences(findings, k) > 0
  }

  method CheckAllowances(findings: seq<Finding>, keys: seq<Key>, byKey: map<Key, Allowance>, malformed: set<Key>)
    returns (violations: seq<Violation>, allowed: seq<(Allowance, nat)>)
    requires forall k :: k in keys ==> k in byKey && byKey[k].key == k
    ensures forall v :: v in violations <==> v.Stale? && v.key in keys && !Coupled(findings, v.key)
    ensures forall x :: x in allowed ==> IsAllowed(findings, keys, byKey, malformed, x)
    ensures forall k :: k in keys && k !in malformed && Coupled(findings, k) ==>
      (byKey[k], Occurrences(findings, k)) in allowed
    ensures malformed == {} ==> AllowedTotal(allowed) == TotalOver(findings, keys)
  {
    hide Coupled;
    violations, allowed := [], [];
    for i := 0 to |keys|
      invariant forall v :: v in violations <==> v.Stale? && v.key in keys[..i] && !Coupled(findings, v.key)
      invariant forall x :: x in allowed ==> IsAllowed(findings, keys, byKey, malformed, x)
      invariant forall k :: k in keys[..i] && k !in malformed && Coupled(findings, k) ==>
        (byKey[k], Occurrences(findings, k)) in allowed
      invariant malformed == {} ==> AllowedTotal(allowed) == TotalOver(findings, keys[..i])
    {
      var k := keys[i];
      var count := Occurrences(findings, k);
      OccurrencesPositive(findings, k);
      assert keys[..i + 1] == keys[..i] + [k];
      TotalOverSnoc(findings, keys[..i], k);
      AllowedTotalSnoc(allowed, (byKey[k], count));
      if count == 0 {
        violations := violations + [Stale(k)];
      } else if k !in malformed {
        allowed := allowed + [(byKey[k], count)];
      }
    }
    assert keys[..|keys|] == keys;
  }

  predicate KeyLess(a: Key, b: Key) { PathLess(a, b) }

  /** The law the audit enforces: allowances complete and distinct, on exactly the coupled keys. */
  ghost predicate Lawful(findings: seq<Finding>, allowances: seq<Allowance>) {
    && (forall a :: a in allowances ==> Complete(a))
    && DistinctKeys(allowances)
    && (forall k :: HasKey(allowances, k) <==> Coupled(findings, k))
  }

  /** Exact and conserving: silent iff lawful; every finding is reported once or counted under one
      allowance key; and a silent audit allows each finding exactly once. */
  method AuditCouplings(findings: seq<Finding>, allowances: seq<Allowance>) returns (audit: SourceAudit, ghost keys: seq<Key>)
    ensures audit.findings == findings
    ensures audit.violations == [] <==> Lawful(findings, allowances)
    ensures Distinct(keys) && forall k :: k in keys <==> HasKey(allowances, k)
    ensures CountUnallowlisted(audit.violations) + TotalOver(findings, keys) == |findings|
    ensures audit.violations == [] ==> AllowedTotal(audit.allowed) == |findings|
    ensures forall f :: Unallowlisted(f) in audit.violations <==> f in findings && !HasKey(allowances, f.key)
    ensures forall k :: Stale(k) in audit.violations <==> HasKey(allowances, k) && !Coupled(findings, k)
    ensures forall k :: Malformed(k) in audit.violations <==> IncompleteKey(allowances, k)
    ensures forall k :: Duplicate(k) in audit.violations <==> RepeatedKey(allowances, k)
    ensures forall x :: x in audit.allowed ==>
      x.0 in allowances && Complete(x.0) && !RepeatedKey(allowances, x.0.key) && x.1 == Occurrences(findings, x.0.key) > 0
  {
    hide DistinctKeys, HasKey, IncompleteKey, RepeatedKey, PathLess;
    var indexed, byKey, malformed := IndexAllowances(allowances);
    AllowedAreComplete(allowances);
    hide Lawful, Complete, Coupled, Occurrences, TotalOver, Outside, CountUnallowlisted, AllowedTotal;
    assert StrictTotal(KeyLess) by { KeyOrder(); }
    var sorted := SortedSet(byKey.Keys, KeyLess);
    assert Distinct(sorted);
    hide Ascending, Distinct, SortedSet, StrictTotal, KeyLess;
    var unallowlisted := CheckFindings(findings, sorted);
    var stale, allowed := CheckAllowances(findings, sorted, byKey, malformed);
    audit := SourceAudit(findings, allowed, indexed + unallowlisted + stale);
    keys := sorted;
    CountParts(indexed, unallowlisted, stale);
    Conserved(findings, sorted, audit.violations, malformed, allowed);
    ByKind(indexed, unallowlisted, stale);
    SilentIffLawful(findings, allowances, sorted, indexed, unallowlisted, stale);
  }

  lemma AllowedAreComplete(allowances: seq<Allowance>)
    ensures forall a :: a in allowances && !IncompleteKey(allowances, a.key) ==> Complete(a)
  {
    hide Complete;
  }

  lemma KeyOrder()
    ensures StrictTotal(KeyLess)
  {
    PathOrder();
    hide PathLess;
  }

  lemma Conserved(findings: seq<Finding>, keys: seq<Key>, violations: seq<Violation>,
                  malformed: set<Key>, allowed: seq<(Allowance, nat)>)
    requires Distinct(keys) && CountUnallowlisted(violations) == Outside(findings, keys)
    requires forall k :: k in malformed <==> Malformed(k) in violations || Duplicate(k) in violations
    requires malformed == {} ==> AllowedTotal(allowed) == TotalOver(findings, keys)
    ensures CountUnallowlisted(violations) + TotalOver(findings, keys) == |findings|
    ensures violations == [] ==> AllowedTotal(allowed) == |findings|
  {
    FindingsConserved(findings, keys);
    hide Distinct, AllowedTotal, TotalOver, Outside;
    assert violations == [] ==> malformed == {};
  }

  lemma CountParts(indexed: seq<Violation>, unallowlisted: seq<Violation>, stale: seq<Violation>)
    requires forall v :: v in indexed ==> !v.Unallowlisted?
    requires forall v :: v in stale ==> !v.Unallowlisted?
    ensures CountUnallowlisted(indexed + unallowlisted + stale) == CountUnallowlisted(unallowlisted)
  {
    CountNone(indexed);
    CountNone(stale);
    CountAppend(indexed + unallowlisted, stale);
    CountAppend(indexed, unallowlisted);
  }

  /** Each kind of violation comes from one loop. */
  lemma ByKind(indexed: seq<Violation>, unallowlisted: seq<Violation>, stale: seq<Violation>)
    requires forall v :: v in indexed ==> v.Malformed? || v.Duplicate?
    requires forall v :: v in unallowlisted ==> v.Unallowlisted?
    requires forall v :: v in stale ==> v.Stale?
    ensures forall v :: v in indexed + unallowlisted + stale <==>
      v in (if v.Unallowlisted? then unallowlisted else if v.Stale? then stale else indexed)
  {}

  lemma SilentIffLawful(findings: seq<Finding>, allowances: seq<Allowance>, keys: seq<Key>,
                        indexed: seq<Violation>, unallowlisted: seq<Violation>, stale: seq<Violation>)
    requires forall v :: v in indexed ==> v.Malformed? || v.Duplicate?
    requires forall k :: Malformed(k) in indexed <==> IncompleteKey(allowances, k)
    requires forall k :: Duplicate(k) in indexed <==> RepeatedKey(allowances, k)
    requires forall k :: k in keys <==> HasKey(allowances, k)
    requires forall v :: v in unallowlisted <==> v.Unallowlisted? && v.finding in findings && v.finding.key !in keys
    requires forall v :: v in stale <==> v.Stale? && v.key in keys && !Coupled(findings, v.key)
    ensures indexed + unallowlisted + stale == [] <==> Lawful(findings, allowances)
  {
    WellKeyed(allowances);
    hide HasKey, IncompleteKey, RepeatedKey, DistinctKeys, Complete;
    assert indexed == [] || indexed[0] in indexed;
    assert indexed == [] <==> (forall k :: !IncompleteKey(allowances, k)) && (forall k :: !RepeatedKey(allowances, k));
    SilentIffMatched(findings, allowances, keys, unallowlisted, stale);
    hide Coupled;
  }

  lemma SilentIffMatched(findings: seq<Finding>, allowances: seq<Allowance>, keys: seq<Key>,
                         unallowlisted: seq<Violation>, stale: seq<Violation>)
    requires forall k :: k in keys <==> HasKey(allowances, k)
    requires forall v :: v in unallowlisted <==> v.Unallowlisted? && v.finding in findings && v.finding.key !in keys
    requires forall v :: v in stale <==> v.Stale? && v.key in keys && !Coupled(findings, v.key)
    ensures unallowlisted == [] && stale == [] <==> forall k :: HasKey(allowances, k) <==> Coupled(findings, k)
  {
    hide HasKey;
    assert unallowlisted == [] || unallowlisted[0] in unallowlisted;
    assert stale == [] || stale[0] in stale;
    if unallowlisted == [] && stale == [] {
      forall k ensures k in keys <==> Coupled(findings, k) {
        assert Stale(k) !in stale;
        if Coupled(findings, k) {
          var i :| 0 <= i < |findings| && findings[i].key == k;
          assert Unallowlisted(findings[i]) !in unallowlisted;
        }
      }
    }
  }

  ghost predicate LeavesBlank(a: Allowance) {
    || Text.PyBlank(a.key[0]) || Text.PyBlank(a.key[1]) || Text.PyBlank(a.key[2]) || Text.PyBlank(a.key[3])
    || Text.PyBlank(a.key[4]) || Text.PyBlank(a.reason) || Text.PyBlank(a.removalCondition)
  }

  /** A key is reported incomplete iff some allowance for it leaves any of its seven fields blank. */
  lemma IncompleteIsExact(allowances: seq<Allowance>, k: Key)
    ensures IncompleteKey(allowances, k) <==> exists a :: a in allowances && a.key == k && LeavesBlank(a)
  {
    hide Text.PyBlank;
    forall a: Allowance ensures LeavesBlank(a) <==> !Complete(a) {
      assert forall f :: f in a.key <==> f == a.key[0] || f == a.key[1] || f == a.key[2] || f == a.key[3] || f == a.key[4];
    }
    hide LeavesBlank, Complete;
    if IncompleteKey(allowances, k) {
      var i :| 0 <= i < |allowances| && allowances[i].key == k && !Complete(allowances[i]);
      assert allowances[i] in allowances;
    }
    if a :| a in allowances && a.key == k && !Complete(a) {
      var i :| 0 <= i < |allowances| && allowances[i] == a;
    }
  }
}
