/** Orders and sorting: the total orders behind Python's `sorted` and Rust's derived `Ord`, a stable
    sort, adjacent deduplication, and the lemmas that make both canonical. */
module Order {

  datatype Option<+T> = None | Some(value: T)

  /** `less` is irreflexive and transitive, and any two different values are comparable. */
  ghost predicate StrictTotal<T(!new)>(less: (T, T) -> bool) {
    && (forall a :: !less(a, a))
    && (forall a, b, c :: less(a, b) && less(b, c) ==> less(a, c))
    && (forall a, b :: a == b || less(a, b) || less(b, a))
  }

  /** Strict weak order: what a comparison sort by key needs (ties allowed). */
  ghost predicate StrictWeak<T(!new)>(less: (T, T) -> bool) {
    && (forall a :: !less(a, a))
    && (forall a, b, c :: less(a, b) && less(b, c) ==> less(a, c))
    && (forall a, b, c :: less(a, b) ==> less(a, c) || less(c, b))
  }

  /** Lexicographic order on sequences; a proper prefix comes first. */
  predicate LexLess<T(==)>(a: seq<T>, b: seq<T>, less: (T, T) -> bool) {
    b != [] && (a == [] || less(a[0], b[0]) || (a[0] == b[0] && LexLess(a[1..], b[1..], less)))
  }

  predicate CharLess(a: char, b: char) { a < b }

  /** Code-point order on strings: Python `str` and Rust `String` comparison. */
  predicate StrLess(a: string, b: string) { LexLess(a, b, CharLess) }

  /** Python tuple comparison on tuples of strings. */
  predicate PathLess(a: seq<string>, b: seq<string>) { LexLess(a, b, StrLess) }

  lemma {:induction false} LexIrreflexive<T(!new)>(a: seq<T>, less: (T, T) -> bool)
    requires StrictTotal(less)
    ensures !LexLess(a, a, less)
  {
    if a == [] {
    } else {
      LexIrreflexive(a[1..], less);
    }
  }

  lemma {:induction false} LexTransitive<T(!new)>(a: seq<T>, b: seq<T>, c: seq<T>, less: (T, T) -> bool)
    requires StrictTotal(less) && LexLess(a, b, less) && LexLess(b, c, less)
    ensures LexLess(a, c, less)
    decreases |a|
  {
    if a == [] || a[0] != b[0] || b[0] != c[0] {
    } else {
      LexTransitive(a[1..], b[1..], c[1..], less);
    }
  }

  lemma {:induction false} LexComparable<T(!new)>(a: seq<T>, b: seq<T>, less: (T, T) -> bool)
    requires StrictTotal(less)
    ensures a == b || LexLess(a, b, less) || LexLess(b, a, less)
    decreases |a|
  {
    if a == [] || b == [] || a[0] != b[0] {
    } else {
      LexComparable(a[1..], b[1..], less);
      assert a == [a[0]] + a[1..] && b == [b[0]] + b[1..];
    }
  }

  lemma StrOrder()
    ensures StrictTotal(StrLess) && StrictWeak(StrLess)
  {
    assert StrictTotal(CharLess);
    forall a: string { LexIrreflexive(a, CharLess); }
    forall a: string, b: string, c: string | StrLess(a, b) && StrLess(b, c)
      ensures StrLess(a, c)
    { LexTransitive(a, b, c, CharLess); }
    forall a: string, b: string
      ensures a == b || StrLess(a, b) || StrLess(b, a)
    { LexComparable(a, b, CharLess); }
    TotalIsWeak(StrLess);
  }

  lemma PathOrder()
    ensures StrictTotal(PathLess)
  {
    StrOrder();
    forall a: seq<string> { LexIrreflexive(a, StrLess); }
    forall a: seq<string>, b: seq<string>, c: seq<string> | PathLess(a, b) && PathLess(b, c)
      ensures PathLess(a, c)
    { LexTransitive(a, b, c, StrLess); }
    forall a: seq<string>, b: seq<string>
      ensures a == b || PathLess(a, b) || PathLess(b, a)
    { LexComparable(a, b, StrLess); }
  }

  lemma TotalIsWeak<T(!new)>(less: (T, T) -> bool)
    requires StrictTotal(less)
    ensures StrictWeak(less)
  {
    forall a, b, c | less(a, b) ensures less(a, c) || less(c, b) {
      assert a == c || less(a, c) || less(c, a);
    }
  }

  // ---- sorting a set (Python `sorted` over a set or a dictionary's keys) ----

  ghost predicate Ascending<T>(s: seq<T>, less: (T, T) -> bool) {
    forall i, j :: 0 <= i < j < |s| ==> less(s[i], s[j])
  }

  predicate IsLeast<T(==)>(m: T, s: set<T>, less: (T, T) -> bool) {
    m in s && forall x :: x in s ==> x == m || less(m, x)
  }

  lemma {:induction false} LeastExists<T(!new)>(s: set<T>, less: (T, T) -> bool)
    requires s != {} && StrictTotal(less)
    ensures exists m :: IsLeast(m, s, less)
  {
    var x :| x in s;
    if s == {x} {
      assert IsLeast(x, s, less);
    } else {
      LeastExists(s - {x}, less);
      var m :| IsLeast(m, s - {x}, less);
      assert forall y :: y in s ==> y == x || y in s - {x};
      assert less(x, m) || less(m, x);
      if less(x, m) { assert IsLeast(x, s, less); } else { assert IsLeast(m, s, less); }
    }
  }

  function SortedSet<T(==, !new)>(s: set<T>, less: (T, T) -> bool): (r: seq<T>)
    requires StrictTotal(less)
    ensures Ascending(r, less)
    ensures forall x :: x in r <==> x in s
    ensures |r| == |s|
  {
    if s == {} then [] else
      LeastExists(s, less);
      var m :| IsLeast(m, s, less);
      [m] + SortedSet(s - {m}, less)
  }

  function SortedIds(s: set<string>): (r: seq<string>)
    ensures Ascending(r, StrLess)
    ensures forall x :: x in r <==> x in s
  {
    StrOrder();
    SortedSet(s, StrLess)
  }

  // ---- sorting a vector (Rust `Vec::sort`, stable) and `Vec::dedup` ----

  function Insert<T>(x: T, s: seq<T>, less: (T, T) -> bool): seq<T> {
    if s == [] then [x]
    else if less(s[0], x) then [s[0]] + Insert(x, s[1..], less)
    else [x] + s
  }

  function Sort<T>(s: seq<T>, less: (T, T) -> bool): seq<T> {
    if s == [] then [] else Insert(s[0], Sort(s[1..], less), less)
  }

  function Dedup<T(==)>(s: seq<T>): seq<T> {
    if |s| <= 1 then s
    else if s[0] == s[1] then Dedup(s[1..])
    else [s[0]] + Dedup(s[1..])
  }

  /** `Vec::dedup_by`: drop an element equivalent to the one kept before it. */
  function DedupBy<T>(s: seq<T>, same: (T, T) -> bool): seq<T>
    decreases |s|
  {
    if |s| <= 1 then s
    else if same(s[0], s[1]) then DedupBy([s[0]] + s[2..], same)
    else [s[0]] + DedupBy(s[1..], same)
  }

  ghost predicate Sorted<T>(s: seq<T>, less: (T, T) -> bool) {
    forall i, j :: 0 <= i < j < |s| ==> !less(s[j], s[i])
  }

  ghost predicate Distinct<T>(s: seq<T>) {
    forall i, j :: 0 <= i < j < |s| ==> s[i] != s[j]
  }

  lemma {:induction false} InsertKeepsAll<T(!new)>(x: T, s: seq<T>, less: (T, T) -> bool)
    ensures multiset(Insert(x, s, less)) == multiset{x} + multiset(s)
    ensures forall y :: y in Insert(x, s, less) <==> y == x || y in s
  {
    if s == [] {
    } else {
      assert s == [s[0]] + s[1..];
      InsertKeepsAll(x, s[1..], less);
    }
  }

  lemma SortedCons<T(!new)>(x: T, s: seq<T>, less: (T, T) -> bool)
    requires Sorted(s, less) && forall y :: y in s ==> !less(y, x)
    ensures Sorted([x] + s, less)
  {}

  lemma HeadIsLow<T(!new)>(s: seq<T>, less: (T, T) -> bool)
    requires s != [] && Sorted(s, less)
    ensures Sorted(s[1..], less) && forall y :: y in s[1..] ==> !less(y, s[0])
  {}

  lemma {:induction false} InsertSorts<T(!new)>(x: T, s: seq<T>, less: (T, T) -> bool)
    requires StrictWeak(less) && Sorted(s, less)
    ensures Sorted(Insert(x, s, less), less)
    ensures multiset(Insert(x, s, less)) == multiset{x} + multiset(s)
  {
    InsertKeepsAll(x, s, less);
    if s == [] {
    } else {
      HeadIsLow(s, less);
      hide Sorted;
      assert s == [s[0]] + s[1..];
      if less(s[0], x) {
        InsertKeepsAll(x, s[1..], less);
        InsertSorts(x, s[1..], less);
        SortedCons(s[0], Insert(x, s[1..], less), less);
      } else {
        SortedCons(x, s, less);
      }
    }
  }

  lemma {:induction false} SortSorts<T(!new)>(s: seq<T>, less: (T, T) -> bool)
    requires StrictWeak(less)
    ensures Sorted(Sort(s, less), less)
    ensures multiset(Sort(s, less)) == multiset(s)
    ensures |Sort(s, less)| == |s|
    ensures forall x :: x in Sort(s, less) <==> x in s
  {
    if s == [] {
    } else {
      SortSorts(s[1..], less);
      InsertSorts(s[0], Sort(s[1..], less), less);
      assert s == [s[0]] + s[1..];
    }
    assert |multiset(Sort(s, less))| == |multiset(s)|;
    forall x ensures x in Sort(s, less) <==> x in s {
      assert x in multiset(Sort(s, less)) <==> x in multiset(s);
    }
  }

  /** Values that are equal under the order are identical, on the elements of `s`. */
  ghost predicate Separates<T>(s: seq<T>, less: (T, T) -> bool) {
    forall x, y :: x in s && y in s ==> x == y || less(x, y) || less(y, x)
  }

  lemma SortedHeads<T(!new)>(a: seq<T>, b: seq<T>, less: (T, T) -> bool)
    requires Sorted(a, less) && Sorted(b, less) && multiset(a) == multiset(b)
    requires Separates(a, less) && a != [] && b != []
    ensures a[0] == b[0]
  {
    assert a[0] in multiset(b) && b[0] in multiset(a);
    assert a[0] in b && b[0] in a;
  }

  lemma SortedTail<T(!new)>(a: seq<T>, less: (T, T) -> bool)
    requires a != [] && Sorted(a, less)
    ensures Sorted(a[1..], less)
    ensures Separates(a, less) ==> Separates(a[1..], less)
  {}

  /** A sorted arrangement of a multiset is unique, so sorting is canonical. */
  lemma {:induction false} SortedUnique<T(!new)>(a: seq<T>, b: seq<T>, less: (T, T) -> bool)
    requires Sorted(a, less) && Sorted(b, less) && multiset(a) == multiset(b)
    requires Separates(a, less)
    ensures a == b
    decreases |a|
  {
    assert |a| == |multiset(a)| == |multiset(b)| == |b|;
    if a == [] {
    } else {
      SortedHeads(a, b, less);
      SortedTail(a, less);
      SortedTail(b, less);
      hide Sorted, Separates;
      assert a == [a[0]] + a[1..] && b == [b[0]] + b[1..];
      assert multiset(a[1..]) == multiset(a) - multiset{a[0]};
      assert multiset(b[1..]) == multiset(b) - multiset{b[0]};
      SortedUnique(a[1..], b[1..], less);
    }
  }

  lemma SortCanonical<T(!new)>(a: seq<T>, b: seq<T>, less: (T, T) -> bool)
    requires StrictWeak(less) && multiset(a) == multiset(b) && Separates(a, less)
    ensures Sort(a, less) == Sort(b, less)
  {
    SortSorts(a, less);
    SortSorts(b, less);
    SortedUnique(Sort(a, less), Sort(b, less), less);
  }

  /** Sorting a sorted vector changes nothing, ties included. */
  lemma {:induction false} SortOfSorted<T(!new)>(s: seq<T>, less: (T, T) -> bool)
    requires Sorted(s, less)
    ensures Sort(s, less) == s
  {
    if s == [] {
    } else {
      SortOfSorted(s[1..], less);
      assert s == [s[0]] + s[1..];
      assert |s| > 1 ==> !less(s[1], s[0]);
    }
  }

  lemma SortIdempotent<T(!new)>(a: seq<T>, less: (T, T) -> bool)
    requires StrictWeak(less)
    ensures Sort(Sort(a, less), less) == Sort(a, less)
  {
    SortSorts(a, less);
    SortOfSorted(Sort(a, less), less);
  }

  /** On a sorted vector, removing adjacent repeats leaves each value once. */
  lemma {:induction false} DedupAscends<T(!new)>(s: seq<T>, less: (T, T) -> bool)
    requires Sorted(s, less) && Separates(s, less)
    ensures Ascending(Dedup(s), less)
    ensures forall x :: x in Dedup(s) <==> x in s
  {
    if |s| <= 1 {
    } else {
      DedupAscends(s[1..], less);
      assert s == [s[0]] + s[1..];
      var t := Dedup(s[1..]);
      if s[0] != s[1] {
        forall j | 0 <= j < |t| ensures less(s[0], t[j]) {
          assert t[j] in s[1..];
          var k :| 1 <= k < |s| && s[k] == t[j];
          assert !less(s[k], s[0]);
          assert s[0] in s && s[1] in s && s[k] in s;
          assert k != 1 ==> !less(s[k], s[1]);
          assert !less(s[1], s[0]);
        }
      }
    }
  }

  lemma {:induction false} AscendingUnique<T(!new)>(a: seq<T>, b: seq<T>, less: (T, T) -> bool)
    requires forall x :: x in a ==> !less(x, x)
    requires forall x, y :: x in a && y in a ==> !(less(x, y) && less(y, x))
    requires Ascending(a, less) && Ascending(b, less) && forall x :: x in a <==> x in b
    ensures a == b
    decreases |a|
  {
    assert b == [] || b[0] in b;
    if a == [] {
    } else {
      assert a[0] in a && a[0] in b;
      assert b[0] in b && b[0] in a;
      var i :| 0 <= i < |b| && b[i] == a[0];
      var j :| 0 <= j < |a| && a[j] == b[0];
      assert a[0] == b[0];
      forall x ensures x in a[1..] <==> x in b[1..] {
        if x in a[1..] {
          var k :| 1 <= k < |a| && a[k] == x;
          assert less(a[0], x) && x in b && x != b[0];
        }
        if x in b[1..] {
          var k :| 1 <= k < |b| && b[k] == x;
          assert less(b[0], x) && x in a && x != a[0];
        }
      }
      assert forall x :: x in a[1..] ==> x in a;
      AscendingUnique(a[1..], b[1..], less);
      assert a == [a[0]] + a[1..] && b == [b[0]] + b[1..];
    }
  }

  /** Sort-then-dedup depends only on the set of values. */
  lemma SortDedupCanonical<T(!new)>(a: seq<T>, b: seq<T>, less: (T, T) -> bool)
    requires StrictTotal(less) && forall x :: x in a <==> x in b
    ensures Dedup(Sort(a, less)) == Dedup(Sort(b, less))
  {
    TotalIsWeak(less);
    SortSorts(a, less);
    SortSorts(b, less);
    DedupAscends(Sort(a, less), less);
    DedupAscends(Sort(b, less), less);
    AscendingUnique(Dedup(Sort(a, less)), Dedup(Sort(b, less)), less);
  }

  lemma {:induction false} DedupDistinct<T(!new)>(s: seq<T>)
    requires Distinct(s)
    ensures Dedup(s) == s
  {
    if |s| <= 1 {
    } else {
      DedupDistinct(s[1..]);
      assert s == [s[0]] + s[1..];
    }
  }

  // ---- counting helpers ----

  /** A subset is no larger; a proper subset is strictly smaller. */
  lemma {:induction false} SubsetSize<T(!new)>(a: set<T>, b: set<T>)
    requires a <= b
    ensures |a| <= |b|
    ensures a != b ==> |a| < |b|
  {
    if a == {} {
    } else {
      var x :| x in a;
      SubsetSize(a - {x}, b - {x});
    }
  }

  lemma {:induction false} DistinctIsMultiset<T(!new)>(s: seq<T>)
    ensures Distinct(s) <==> forall x :: multiset(s)[x] <= 1
  {
    if s == [] {
    } else {
      assert s == [s[0]] + s[1..];
      DistinctIsMultiset(s[1..]);
      assert forall x :: multiset(s)[x] == multiset(s[1..])[x] + (if x == s[0] then 1 else 0);
      if Distinct(s) {
        assert s[0] !in s[1..];
        assert multiset(s[1..])[s[0]] == 0;
      }
      if forall x :: multiset(s)[x] <= 1 {
        assert multiset(s)[s[0]] <= 1;
        assert s[0] !in multiset(s[1..]);
        assert s[0] !in s[1..];
      }
    }
  }

  lemma {:induction false} DistinctSize<T(!new)>(s: seq<T>)
    requires Distinct(s)
    ensures |set x | x in s| == |s|
  {
    if s == [] {
    } else {
      DistinctSize(s[1..]);
      var rest := set x | x in s[1..];
      assert s[0] !in rest;
      assert (set x | x in s) == rest + {s[0]};
    }
  }
}
