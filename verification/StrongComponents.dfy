/** Tarjan's strong components and the dependency-cycle check
    (scripts/check-constellation-boundaries.py, `_strong_components` and `_cycle_violations`). */
module StrongComponents {
  import opened Order
  import opened DependencyGraph

  /** A component: the packages mutually reachable with each of its members, listed once each. */
  ghost predicate IsComponent(g: Graph, c: seq<Id>) {
    && c != []
    && Distinct(c)
    && (forall u, v :: u in c ==> (v in c <==> g.Mutual(u, v)))
  }

  ghost predicate Listed(cs: seq<seq<Id>>, x: Id) {
    exists k :: 0 <= k < |cs| && x in cs[k]
  }

  ghost predicate Disjoint(cs: seq<seq<Id>>) {
    forall i, j, x :: 0 <= i < j < |cs| && x in cs[i] ==> x !in cs[j]
  }

  /** `cs` splits `nodes` into strong components. */
  ghost predicate IsPartition(g: Graph, nodes: set<Id>, cs: seq<seq<Id>>) {
    && (forall x :: x in nodes <==> Listed(cs, x))
    && (forall k :: 0 <= k < |cs| ==> IsComponent(g, cs[k]))
    && Disjoint(cs)
  }

  /** Every step out of a component leads to it or to one listed before it. */
  ghost predicate Closed(g: Graph, cs: seq<seq<Id>>) {
    forall i, u, v :: 0 <= i < |cs| && u in cs[i] && g.Step(u, v) ==> Listed(cs[..i + 1], v)
  }

  /** Dependencies come first: no component reaches one listed after it. */
  ghost predicate DependenciesFirst(g: Graph, cs: seq<seq<Id>>) {
    forall i, j, u, v :: 0 <= i < j < |cs| && u in cs[i] && v in cs[j] ==> !g.Reach(u, v)
  }

  lemma ListedPrefix(cs: seq<seq<Id>>, i: nat, j: nat, x: Id)
    requires i <= j <= |cs| && Listed(cs[..i], x)
    ensures Listed(cs[..j], x)
  {
    var k :| 0 <= k < i && x in cs[..i][k];
    assert cs[..j][k] == cs[..i][k];
  }

  lemma ClosedIsOrdered(g: Graph, cs: seq<seq<Id>>)
    requires Closed(g, cs) && IsPartition(g, g.localIds, cs)
    ensures DependenciesFirst(g, cs)
  {
    hide Graph.Reach, IsComponent, Disjoint;
    forall i, j, u, v | 0 <= i < j < |cs| && u in cs[i] && v in cs[j] && g.Reach(u, v) ensures false {
      ReachStaysListed(g, cs, i, u, v);
      assert Disjoint(cs);
      var k :| 0 <= k < i + 1 && v in cs[..i + 1][k];
      SharedComponent(cs, k, j, v);
    }
  }

  lemma SharedComponent(cs: seq<seq<Id>>, i: nat, j: nat, x: Id)
    requires Disjoint(cs) && i < |cs| && j < |cs| && x in cs[i] && x in cs[j]
    ensures i == j
  {}

  lemma ReachStaysListed(g: Graph, cs: seq<seq<Id>>, i: nat, u: Id, v: Id)
    requires Closed(g, cs) && IsPartition(g, g.localIds, cs) && i < |cs| && u in cs[i] && g.Reach(u, v)
    ensures Listed(cs[..i + 1], v)
  {
    hide IsComponent, Disjoint, Closed;
    var inside := set x | x in g.localIds && Listed(cs[..i + 1], x);
    assert Listed(cs, u);
    assert u in cs[..i + 1][i];
    var p :| g.Connects(p, u, v);
    if v !in inside {
      var a, b := Crossing(g, p, inside);
      var k :| 0 <= k < i + 1 && a in cs[..i + 1][k];
      assert a in cs[k];
      assert Listed(cs[..k + 1], b) by { assert Closed(g, cs); StepStaysListed(g, cs, k, a, b); }
      ListedPrefix(cs, k + 1, i + 1, b);
    }
  }

  lemma StepStaysListed(g: Graph, cs: seq<seq<Id>>, i: nat, u: Id, v: Id)
    requires Closed(g, cs) && i < |cs| && u in cs[i] && g.Step(u, v)
    ensures Listed(cs[..i + 1], v)
  {}

  // ---- the search state and its invariant ----

  /** `gray` holds the nodes whose `visit` call has not returned. */
  datatype State = State(
    index: nat,
    indices: map<Id, nat>,
    stack: seq<Id>,
    result: seq<seq<Id>>,
    gray: set<Id>)

  ghost predicate Shape(g: Graph, s: State) {
    && (forall x :: x in s.indices ==> x in g.localIds && s.indices[x] < s.index)
    && (forall x :: x in s.stack ==> x in s.indices)
    && (forall i, j :: 0 <= i < j < |s.stack| ==> s.indices[s.stack[i]] < s.indices[s.stack[j]])
    && (forall x :: x in s.gray ==> x in s.stack)
  }

  /** A finished node has no unvisited successor. */
  ghost predicate NoWhiteSuccessor(g: Graph, s: State) {
    forall u, v :: u in s.indices && u !in s.gray && g.Step(u, v) ==> v in s.indices
  }

  ghost predicate ReachesGray(g: Graph, s: State, x: Id)
    requires x in s.indices && Shape(g, s)
  {
    exists y :: y in s.gray && s.indices[y] <= s.indices[x] && g.Reach(x, y)
  }

  ghost predicate ToGray(g: Graph, s: State)
    requires Shape(g, s)
  {
    forall x {:trigger ReachesGray(g, s, x)} :: x in s.stack ==> ReachesGray(g, s, x)
  }

  ghost predicate FromGray(g: Graph, s: State)
    requires Shape(g, s)
  {
    forall x, y :: x in s.gray && y in s.stack && s.indices[x] <= s.indices[y] ==> g.Reach(x, y)
  }

  ghost predicate StackLinked(g: Graph, s: State)
    requires Shape(g, s)
  {
    ToGray(g, s) && FromGray(g, s)
  }

  ghost predicate Emitted(g: Graph, s: State) {
    && (forall x :: Listed(s.result, x) <==> x in s.indices && x !in s.stack)
    && (forall k :: 0 <= k < |s.result| ==> IsComponent(g, s.result[k]))
    && Disjoint(s.result) && Closed(g, s.result)
  }

  ghost predicate Inv(g: Graph, s: State) {
    Shape(g, s) && NoWhiteSuccessor(g, s) && StackLinked(g, s) && Emitted(g, s)
  }

  /** What a whole `visit` call may change, seen from its caller. */
  ghost predicate Extends(s: State, t: State) {
    && s.index <= t.index
    && (forall x :: x in s.indices ==> x in t.indices && t.indices[x] == s.indices[x])
    && (forall x :: x in t.indices && x !in s.indices ==> t.indices[x] >= s.index)
    && (forall x :: x in s.indices ==> (x in s.stack <==> x in t.stack))
    && s.gray == t.gray
  }

  lemma ExtendsTransitive(s: State, t: State, r: State)
    requires Extends(s, t) && Extends(t, r)
    ensures Extends(s, r)
  {}

  lemma GrayBelow(g: Graph, s: State, x: Id)
    requires Inv(g, s) && x in s.stack
    ensures exists y :: y in s.gray && s.indices[y] <= s.indices[x] && g.Reach(x, y)
  {
    assert ReachesGray(g, s, x);
  }

  ghost function Pushed(s: State, x: Id): State {
    State(s.index + 1, s.indices[x := s.index], s.stack + [x], s.result, s.gray + {x})
  }

  lemma PushKeepsShape(g: Graph, s: State, x: Id)
    requires Shape(g, s) && x in g.localIds && x !in s.indices
    ensures Shape(g, Pushed(s, x))
  {}

  lemma PushKeepsToGray(g: Graph, s: State, x: Id)
    requires Shape(g, s) && ToGray(g, s) && x in g.localIds && x !in s.indices
    requires Shape(g, Pushed(s, x))
    ensures ToGray(g, Pushed(s, x))
  {
    hide Graph.Reach;
    var t := Pushed(s, x);
    ReachReflexive(g, x);
    forall y | y in t.stack ensures ReachesGray(g, t, y) {
      if y in s.stack {
        assert ReachesGray(g, s, y);
        var z :| z in s.gray && s.indices[z] <= s.indices[y] && g.Reach(y, z);
        assert z in t.gray && t.indices[z] <= t.indices[y];
      } else {
        assert x in t.gray;
      }
    }
  }

  lemma PushKeepsFromGray(g: Graph, s: State, x: Id)
    requires Shape(g, s) && FromGray(g, s) && x in g.localIds && x !in s.indices
    requires Shape(g, Pushed(s, x))
    requires forall y :: y in s.gray ==> g.Reach(y, x)
    ensures FromGray(g, Pushed(s, x))
  {
    hide Graph.Reach;
    var t := Pushed(s, x);
    ReachReflexive(g, x);
    forall a, b | a in t.gray && b in t.stack && t.indices[a] <= t.indices[b] ensures g.Reach(a, b) {
      if b != x {
        assert b in s.stack;
        assert a in s.gray;
      }
    }
  }

  lemma PushKeepsInv(g: Graph, s: State, x: Id)
    requires Inv(g, s) && x in g.localIds && x !in s.indices
    requires forall y :: y in s.gray ==> g.Reach(y, x)
    ensures Inv(g, Pushed(s, x))
  {
    hide Graph.Reach, Listed, Disjoint, IsComponent, Closed;
    hide ToGray, FromGray;
    PushKeepsShape(g, s, x);
    PushKeepsToGray(g, s, x);
    PushKeepsFromGray(g, s, x);
  }

  /** `visit` returns without popping: the node reaches something strictly below it on the stack. */
  lemma BlackenKeepsLinks(g: Graph, s: State, x: Id, y: Id)
    requires Shape(g, s) && StackLinked(g, s) && x in s.gray
    requires y in s.stack && s.indices[y] < s.indices[x] && g.Reach(x, y)
    ensures Shape(g, s.(gray := s.gray - {x})) && StackLinked(g, s.(gray := s.gray - {x}))
  {
    hide Graph.Reach;
    var t := s.(gray := s.gray - {x});
    assert Shape(g, t);
    assert FromGray(g, t);
    hide FromGray;
    assert ReachesGray(g, s, y);
    var z :| z in s.gray && s.indices[z] <= s.indices[y] && g.Reach(y, z);
    ReachTransitive(g, x, y, z);
    forall w | w in t.stack ensures ReachesGray(g, t, w) {
      assert ReachesGray(g, s, w);
      var a :| a in s.gray && s.indices[a] <= s.indices[w] && g.Reach(w, a);
      if a == x {
        ReachTransitive(g, w, x, z);
        assert z in t.gray;
      } else {
        assert a in t.gray;
      }
    }
  }

  lemma BlackenKeepsInv(g: Graph, s: State, x: Id, y: Id)
    requires Inv(g, s) && x in s.gray
    requires y in s.stack && s.indices[y] < s.indices[x] && g.Reach(x, y)
    requires forall v :: g.Step(x, v) ==> v in s.indices
    ensures Inv(g, s.(gray := s.gray - {x}))
  {
    hide Graph.Reach, Listed, Disjoint, IsComponent, Closed;
    hide StackLinked;
    BlackenKeepsLinks(g, s, x, y);
  }

  /** `y` is stacked at or above the gray node `x`. */
  ghost predicate Above(s: State, x: Id, y: Id) {
    x in s.indices && y in s.indices && y in s.stack && s.indices[x] <= s.indices[y]
  }

  /** The stack from `x` up has no step to the stack below `x`, and `x` is the innermost gray node. */
  ghost predicate Root(g: Graph, s: State, x: Id) {
    && Shape(g, s)
    && x in s.gray
    && (forall y :: y in s.gray ==> g.Reach(y, x) && s.indices[y] <= s.indices[x])
    && (forall v :: g.Step(x, v) ==> v in s.indices)
    && (forall u, v :: Above(s, x, u) && g.Step(u, v) && v in s.stack ==> Above(s, x, v))
  }

  lemma SegmentIsMutual(g: Graph, s: State, x: Id, u: Id)
    requires Root(g, s, x) && StackLinked(g, s) && Above(s, x, u)
    ensures g.Mutual(x, u)
  {
    hide Graph.Reach;
    assert ReachesGray(g, s, u);
    var z :| z in s.gray && s.indices[z] <= s.indices[u] && g.Reach(u, z);
    ReachTransitive(g, u, z, x);
  }

  /** A step out of the segment leads to an already emitted node. */
  lemma SegmentExits(g: Graph, s: State, x: Id, u: Id, v: Id)
    requires Root(g, s, x) && NoWhiteSuccessor(g, s) && Emitted(g, s)
    requires Above(s, x, u) && g.Step(u, v) && !Above(s, x, v)
    ensures Listed(s.result, v)
  {
    hide Graph.Reach, Listed, Disjoint, IsComponent, Closed;
    assert u == x || u !in s.gray by {
      if u != x { StackIndicesDistinct(g, s, u, x); }
    }
  }

  lemma StackIndicesDistinct(g: Graph, s: State, u: Id, v: Id)
    requires Shape(g, s) && u in s.stack && v in s.stack && u != v
    ensures s.indices[u] != s.indices[v]
  {
    var i :| 0 <= i < |s.stack| && s.stack[i] == u;
    var j :| 0 <= j < |s.stack| && s.stack[j] == v;
  }

  lemma SegmentIsMaximal(g: Graph, s: State, x: Id, v: Id)
    requires Root(g, s, x) && NoWhiteSuccessor(g, s) && Emitted(g, s) && g.Mutual(x, v)
    ensures Above(s, x, v)
  {
    hide Disjoint, Closed;
    var inside := set y | y in s.stack && Above(s, x, y);
    assert x in s.stack && !Listed(s.result, x);
    var p :| g.Connects(p, x, v);
    if v !in inside {
      var a, b := Crossing(g, p, inside);
      ReachTransitive(g, b, v, x);
      SegmentExits(g, s, x, a, b);
    }
  }

  /** `c` lists the segment of `x`. */
  ghost predicate IsSegment(s: State, x: Id, c: seq<Id>) {
    Distinct(c) && forall y :: y in c <==> Above(s, x, y)
  }

  lemma SegmentIsComponent(g: Graph, s: State, x: Id, c: seq<Id>)
    requires Root(g, s, x) && Inv(g, s) && IsSegment(s, x, c)
    ensures IsComponent(g, c)
  {
    hide Graph.Reach, StackLinked, NoWhiteSuccessor, Emitted;
    assert Above(s, x, x);
    forall u, v | u in c ensures v in c <==> g.Mutual(u, v) {
      SegmentIsMutual(g, s, x, u);
      if v in c {
        SegmentIsMutual(g, s, x, v);
        ReachTransitive(g, u, x, v);
        ReachTransitive(g, v, x, u);
      }
      if g.Mutual(u, v) {
        ReachTransitive(g, x, u, v);
        ReachTransitive(g, v, u, x);
        SegmentIsMaximal(g, s, x, v);
      }
    }
  }

  /** `t` is `s` after the segment of `x` has moved from the stack to the result as `c`. */
  ghost predicate IsPop(s: State, x: Id, c: seq<Id>, t: State) {
    && IsSegment(s, x, c)
    && t.stack <= s.stack
    && (forall y :: y in t.stack <==> y in s.stack && !Above(s, x, y))
    && t == s.(stack := t.stack, result := s.result + [c], gray := s.gray - {x})
  }

  lemma ListedAppend(cs: seq<seq<Id>>, c: seq<Id>, x: Id)
    ensures Listed(cs + [c], x) <==> Listed(cs, x) || x in c
  {
    if Listed(cs, x) {
      var i :| 0 <= i < |cs| && x in cs[i];
      assert x in (cs + [c])[i];
    }
    if x in c { assert x in (cs + [c])[|cs|]; }
  }

  lemma DisjointAppend(cs: seq<seq<Id>>, c: seq<Id>)
    requires Disjoint(cs) && forall x :: x in c ==> !Listed(cs, x)
    ensures Disjoint(cs + [c])
  {
    var t := cs + [c];
    forall i, j, x | 0 <= i < j < |t| && x in t[i] ensures x !in t[j] {
      assert x in cs[i];
      assert Listed(cs, x);
    }
  }

  lemma AppendKeepsClosed(g: Graph, s: State, x: Id, c: seq<Id>)
    requires Root(g, s, x) && Inv(g, s) && IsSegment(s, x, c)
    ensures Closed(g, s.result + [c])
  {
    hide Graph.Reach, StackLinked, IsComponent, Disjoint, Listed;
    var cs := s.result + [c];
    assert cs[..|cs|] == cs;
    forall i, u, v | 0 <= i < |cs| && u in cs[i] && g.Step(u, v) ensures Listed(cs[..i + 1], v) {
      ListedAppend(s.result, c, v);
      if i < |s.result| {
        assert u in s.result[i];
        assert cs[..i + 1] == s.result[..i + 1];
      } else if !Above(s, x, v) {
        SegmentExits(g, s, x, u, v);
      }
    }
  }

  lemma PopEmits(g: Graph, s: State, x: Id, c: seq<Id>, t: State)
    requires Root(g, s, x) && Inv(g, s) && IsPop(s, x, c, t)
    ensures Emitted(g, t)
  {
    SegmentIsComponent(g, s, x, c);
    AppendKeepsClosed(g, s, x, c);
    hide Graph.Reach, StackLinked, NoWhiteSuccessor, IsComponent, Disjoint, Listed, Closed;
    forall y ensures Listed(t.result, y) <==> y in t.indices && y !in t.stack {
      ListedAppend(s.result, c, y);
    }
    DisjointAppend(s.result, c);
  }

  lemma PopKeepsLinks(g: Graph, s: State, x: Id, c: seq<Id>, t: State)
    requires Root(g, s, x) && StackLinked(g, s) && IsPop(s, x, c, t)
    ensures Shape(g, t) && StackLinked(g, t)
  {
    hide Graph.Reach;
    assert Shape(g, t) by {
      forall y | y in t.gray ensures y in t.stack { StackIndicesDistinct(g, s, x, y); }
    }
    forall w | w in t.stack ensures ReachesGray(g, t, w) {
      assert ReachesGray(g, s, w);
      var a :| a in s.gray && s.indices[a] <= s.indices[w] && g.Reach(w, a);
      assert a in t.gray;
    }
  }

  /** `visit` returns after popping the root's segment as a component. */
  lemma PopKeepsInv(g: Graph, s: State, x: Id, c: seq<Id>, t: State)
    requires Root(g, s, x) && Inv(g, s) && IsPop(s, x, c, t)
    ensures Inv(g, t)
  {
    hide Graph.Reach, Emitted, StackLinked;
    PopEmits(g, s, x, c, t);
    PopKeepsLinks(g, s, x, c, t);
  }

  // ---- lowlinks ----

  /** Some stacked node that `x` reaches has index `low`. */
  ghost predicate Attained(g: Graph, s: State, x: Id, low: nat) {
    exists y :: y in s.stack && y in s.indices && s.indices[y] == low && g.Reach(x, y)
  }

  /** Steps from stacked nodes with index at least `from` to ones below `upTo` do not go below `low`. */
  ghost predicate Bounds(g: Graph, s: State, from: nat, upTo: nat, low: nat)
    requires Shape(g, s)
  {
    forall u, v :: u in s.stack && s.indices[u] >= from && g.Step(u, v) && v in s.stack && s.indices[v] < upTo
      ==> low <= s.indices[v]
  }

  /** What the lowlink of a gray node `x` means while its successors are being scanned. */
  ghost predicate Low(g: Graph, s: State, x: Id, low: nat)
    requires Shape(g, s)
  {
    x in s.gray && low <= s.indices[x] && Attained(g, s, x, low) && Bounds(g, s, s.indices[x] + 1, s.indices[x], low)
  }

  /** What the lowlink of `x` means when its `visit` returns; `from` is the index counter at entry. */
  ghost predicate FinalLow(g: Graph, s: State, x: Id, from: nat, low: nat)
    requires Shape(g, s)
  {
    && x in s.indices && low <= s.indices[x]
    && Bounds(g, s, from, from, low)
    && (if x in s.stack then Attained(g, s, x, low) else low == s.indices[x])
  }

  function Min(a: nat, b: nat): nat { if a <= b then a else b }

  lemma AttainedExtends(g: Graph, s: State, t: State, x: Id, low: nat)
    requires Shape(g, s) && Extends(s, t) && Attained(g, s, x, low)
    ensures Attained(g, t, x, low)
  {
    hide Graph.Reach;
    var y :| y in s.stack && y in s.indices && s.indices[y] == low && g.Reach(x, y);
    assert y in t.stack;
  }

  lemma LowAfterVisit(g: Graph, s: State, t: State, x: Id, w: Id, low: nat, lowW: nat)
    requires Shape(g, s) && Shape(g, t) && Extends(s, t) && g.Step(x, w) && w !in s.indices
    requires Low(g, s, x, low) && FinalLow(g, t, w, s.index, lowW)
    ensures Low(g, t, x, Min(low, lowW))
    ensures Min(low, lowW) <= t.indices[w]
  {
    hide Graph.Reach;
    AttainedExtends(g, s, t, x, low);
    if lowW < low {
      var y :| y in t.stack && y in t.indices && t.indices[y] == lowW && g.Reach(w, y);
      ReachStep(g, x, w);
      ReachTransitive(g, x, w, y);
    }
    hide Attained;
  }

  lemma LowAfterBackEdge(g: Graph, s: State, x: Id, w: Id, low: nat)
    requires Shape(g, s) && g.Step(x, w) && w in s.stack && Low(g, s, x, low)
    ensures Low(g, s, x, Min(low, s.indices[w]))
  {
    ReachStep(g, x, w);
  }

  /** The first `n` successors are visited, and the ones still stacked are not below `low`. */
  ghost predicate Scanned(s: State, successors: seq<Id>, n: nat, low: nat)
    requires n <= |successors|
  {
    forall j :: 0 <= j < n ==>
      successors[j] in s.indices && (successors[j] in s.stack ==> low <= s.indices[successors[j]])
  }

  lemma ScannedStep(s: State, t: State, successors: seq<Id>, n: nat, low: nat, low': nat)
    requires n < |successors| && Scanned(s, successors, n, low) && Extends(s, t) && low' <= low
    requires successors[n] in t.indices && (successors[n] in t.stack ==> low' <= t.indices[successors[n]])
    ensures Scanned(t, successors, n + 1, low')
  {}

  ghost predicate SameExcept(m: map<Id, nat>, m': map<Id, nat>, x: Id) {
    forall y :: y in m && y != x ==> y in m' && m'[y] == m[y]
  }

  lemma ScanStarts(s: State, lows: map<Id, nat>, successors: seq<Id>, x: Id, low: nat)
    ensures SameExcept(lows, lows, x) && Scanned(s, successors, 0, low) && Extends(s, s)
  {}

  lemma SameExceptTransitive(a: map<Id, nat>, b: map<Id, nat>, c: map<Id, nat>, x: Id)
    requires SameExcept(a, b, x) && SameExcept(b, c, x)
    ensures SameExcept(a, c, x)
  {}

  lemma SuccessorsScanned(g: Graph, s: State, x: Id, low: nat)
    requires Scanned(s, g.LocalSuccessors(x), |g.LocalSuccessors(x)|, low)
    ensures forall v :: g.Step(x, v) ==> v in s.indices && (v in s.stack ==> low <= s.indices[v])
  {
    hide Graph.LocalSuccessors, Ascending, StrLess;
    assert forall v :: g.Step(x, v) ==> v in g.LocalSuccessors(x);
  }

  /** Once nothing is gray and every local node is visited, the emitted components are the answer. */
  lemma AllEmitted(g: Graph, s: State)
    requires Inv(g, s) && s.gray == {} && forall x :: x in g.localIds ==> x in s.indices
    ensures IsPartition(g, g.localIds, s.result) && Closed(g, s.result)
  {
    hide Graph.Reach, NoWhiteSuccessor, IsComponent, Disjoint, Listed, FromGray, Closed;
    if s.stack != [] { GrayBelow(g, s, s.stack[0]); }
  }

  // ---- the algorithm ----

  class Tarjan {
    const g: Graph
    var index: nat
    var indices: map<Id, nat>
    var lowlinks: map<Id, nat>
    var stack: seq<Id>
    var onStack: set<Id>
    var result: seq<seq<Id>>
    ghost var gray: set<Id>

    ghost function View(): State
      reads this
    {
      State(index, indices, stack, result, gray)
    }

    ghost predicate Valid()
      reads this
    {
      Inv(g, View()) && (forall x :: x in onStack <==> x in stack) && lowlinks.Keys == indices.Keys
    }

    constructor (graph: Graph)
      ensures g == graph && Valid() && indices == map[] && gray == {} && stack == []
    {
      g := graph;
      index, indices, lowlinks, stack, onStack, result, gray := 0, map[], map[], [], {}, [], {};
    }

    method Visit(node: Id)
      requires Valid() && node in g.localIds && node !in indices
      requires forall y :: y in gray ==> g.Reach(y, node)
      modifies this
      ensures Valid() && Extends(old(View()), View())
      ensures node in lowlinks && FinalLow(g, View(), node, old(index), lowlinks[node])
      ensures SameExcept(old(lowlinks), lowlinks, node)
      decreases g.localIds - indices.Keys, 0
    {
      hide Graph.Reach, StackLinked, NoWhiteSuccessor, Emitted, Attained, Bounds;
      ghost var s0 := View();
      Enter(node);
      ReachReflexive(g, node);
      Scan(node);
      ghost var s2 := View();
      Finish(node);
      VisitExtends(g, s0, node, s2, View());
    }

    method Enter(node: Id)
      requires Valid() && node in g.localIds && node !in indices
      requires forall y :: y in gray ==> g.Reach(y, node)
      modifies this
      ensures Valid() && View() == Pushed(old(View()), node) && lowlinks == old(lowlinks)[node := old(index)]
      ensures Low(g, View(), node, lowlinks[node])
    {
      hide Graph.Reach, StackLinked, NoWhiteSuccessor, Emitted;
      PushKeepsInv(g, View(), node);
      ReachReflexive(g, node);
      indices := indices[node := index];
      lowlinks := lowlinks[node := index];
      index := index + 1;
      stack := stack + [node];
      onStack := onStack + {node};
      gray := gray + {node};
    }

    /** The successor loop of `visit`. */
    method Scan(node: Id)
      requires Valid() && node in gray && Low(g, View(), node, lowlinks[node])
      requires forall y :: y in gray ==> g.Reach(y, node)
      modifies this
      ensures Valid() && Extends(old(View()), View()) && SameExcept(old(lowlinks), lowlinks, node)
      ensures node in lowlinks && Low(g, View(), node, lowlinks[node])
      ensures forall v :: g.Step(node, v) ==> v in indices && (v in stack ==> lowlinks[node] <= indices[v])
      decreases g.localIds - indices.Keys, 2
    {
      hide Graph.Reach, Graph.LocalSuccessors, StackLinked, NoWhiteSuccessor, Emitted, Attained, Bounds, Ascending, StrLess;
      hide SameExcept, Scanned;
      ScanStarts(View(), lowlinks, g.LocalSuccessors(node), node, lowlinks[node]);
      ghost var s1 := View();
      ghost var low1 := lowlinks;
      var successors := g.LocalSuccessors(node);
      var i := 0;
      while i < |successors|
        invariant 0 <= i <= |successors|
        invariant Valid() && Extends(s1, View()) && SameExcept(low1, lowlinks, node)
        invariant node in lowlinks && Low(g, View(), node, lowlinks[node])
        invariant Scanned(View(), successors, i, lowlinks[node])
      {
        var successor := successors[i];
        ghost var s, low, lows := View(), lowlinks[node], lowlinks;
        ScanOne(node, successor);
        ScannedStep(s, View(), successors, i, low, lowlinks[node]);
        ExtendsTransitive(s1, s, View());
        SameExceptTransitive(low1, lows, lowlinks, node);
        i := i + 1;
      }
      SuccessorsScanned(g, View(), node, lowlinks[node]);
    }

    /** One iteration of the successor loop. */
    method ScanOne(node: Id, successor: Id)
      requires Valid() && node in gray && g.Step(node, successor) && Low(g, View(), node, lowlinks[node])
      requires forall y :: y in gray ==> g.Reach(y, node)
      modifies this
      ensures Valid() && Extends(old(View()), View()) && SameExcept(old(lowlinks), lowlinks, node)
      ensures node in lowlinks && lowlinks[node] <= old(lowlinks)[node] && Low(g, View(), node, lowlinks[node])
      ensures successor in indices && (successor in stack ==> lowlinks[node] <= indices[successor])
      decreases g.localIds - indices.Keys, 1
    {
      hide Graph.Reach, StackLinked, NoWhiteSuccessor, Emitted, Attained, Bounds;
      ghost var s := View();
      if successor !in indices {
        ReachStep(g, node, successor);
        forall x | x in gray ensures g.Reach(x, successor) { ReachTransitive(g, x, node, successor); }
        Visit(successor);
        LowAfterVisit(g, s, View(), node, successor, lowlinks[node], lowlinks[successor]);
        lowlinks := lowlinks[node := Min(lowlinks[node], lowlinks[successor])];
      } else if successor in onStack {
        LowAfterBackEdge(g, s, node, successor, lowlinks[node]);
        lowlinks := lowlinks[node := Min(lowlinks[node], indices[successor])];
      }
    }

    /** The tail of `visit`: pop a whole component when `node` is its root, otherwise leave it stacked. */
    method Finish(node: Id)
      requires Valid() && node in gray && Low(g, View(), node, lowlinks[node])
      requires forall y :: y in gray ==> g.Reach(y, node) && indices[y] <= indices[node]
      requires forall v :: g.Step(node, v) ==> v in indices && (v in stack ==> lowlinks[node] <= indices[v])
      modifies this
      ensures Valid() && index == old(index) && indices == old(indices) && lowlinks == old(lowlinks)
      ensures gray == old(gray) - {node}
      ensures forall y :: y in old(stack) && indices[y] < indices[node] ==> y in stack
      ensures forall y :: y in stack ==> y in old(stack)
      ensures FinalLow(g, View(), node, indices[node], lowlinks[node])
    {
      hide Graph.Reach, StackLinked, NoWhiteSuccessor, Emitted;
      ghost var s := View();
      WholeSegmentBounds(g, s, node, lowlinks[node]);
      if lowlinks[node] == indices[node] {
        RootFound(g, s, node);
        Emit(node);
      } else {
        ghost var y :| y in stack && indices[y] == lowlinks[node] && g.Reach(node, y);
        BlackenKeepsInv(g, s, node, y);
        gray := gray - {node};
        assert View() == s.(gray := s.gray - {node});
      }
    }

    method Emit(node: Id)
      requires Valid() && node in gray && Root(g, View(), node)
      modifies this
      ensures Valid() && index == old(index) && indices == old(indices) && lowlinks == old(lowlinks)
      ensures gray == old(gray) - {node} && node !in stack
      ensures forall y :: y in stack <==> y in old(stack) && indices[y] < indices[node]
    {
      ghost var s := View();
      hide Graph.Reach, StackLinked, NoWhiteSuccessor, Emitted;
      StackIsDistinct(g, s);
      ghost var k :| 0 <= k < |stack| && stack[k] == node;
      var component := PopComponent(node, k);
      PoppedSegment(s, k, component);
      result := result + [component];
      gray := gray - {node};
      PopKeepsInv(g, s, node, component, View());
    }

    /** The inner `while True` loop: pops through `node`, newest first. */
    method PopComponent(node: Id, ghost k: nat) returns (component: seq<Id>)
      requires k < |stack| && stack[k] == node && Distinct(stack) && forall x :: x in onStack <==> x in stack
      modifies this`stack, this`onStack
      ensures stack == old(stack)[..k] && forall x :: x in onStack <==> x in stack
      ensures |component| == |old(stack)| - k
      ensures forall j :: 0 <= j < |component| ==> component[j] == old(stack)[|old(stack)| - 1 - j]
    {
      ghost var full := stack;
      component := [];
      var done := false;
      while !done
        invariant k <= |stack| <= |full| && stack == full[..|stack|]
        invariant done <==> |stack| == k
        invariant |component| == |full| - |stack|
        invariant forall j :: 0 <= j < |component| ==> component[j] == full[|full| - 1 - j]
        invariant forall x :: x in onStack <==> x in stack
        decreases |stack|
      {
        var member := stack[|stack| - 1];
        ghost var before := stack;
        stack := stack[..|stack| - 1];
        PoppedMember(before);
        onStack := onStack - {member};
        component := component + [member];
        done := member == node;
      }
    }
  }

  lemma PoppedMember(s: seq<Id>)
    requires s != [] && Distinct(s)
    ensures forall x :: x in s <==> x in s[..|s| - 1] || x == s[|s| - 1]
    ensures s[|s| - 1] !in s[..|s| - 1]
  {
    assert s == s[..|s| - 1] + [s[|s| - 1]];
  }

  lemma WholeSegmentBounds(g: Graph, s: State, x: Id, low: nat)
    requires Shape(g, s) && Low(g, s, x, low)
    requires forall v :: g.Step(x, v) && v in s.stack ==> low <= s.indices[v]
    ensures Bounds(g, s, s.indices[x], s.indices[x], low)
  {
    hide Attained;
    forall u | u in s.stack && u != x ensures s.indices[u] != s.indices[x] { StackIndicesDistinct(g, s, u, x); }
  }

  lemma RootFound(g: Graph, s: State, x: Id)
    requires Shape(g, s) && x in s.gray && Bounds(g, s, s.indices[x], s.indices[x], s.indices[x])
    requires forall y :: y in s.gray ==> g.Reach(y, x) && s.indices[y] <= s.indices[x]
    requires forall v :: g.Step(x, v) ==> v in s.indices
    ensures Root(g, s, x)
  {
    hide Graph.Reach;
  }

  lemma StackIsDistinct(g: Graph, s: State)
    requires Shape(g, s)
    ensures Distinct(s.stack)
  {}

  lemma VisitExtends(g: Graph, s0: State, x: Id, s2: State, s3: State)
    requires Shape(g, s0) && Shape(g, s2) && x !in s0.indices && x !in s0.gray
    requires Extends(Pushed(s0, x), s2)
    requires s3 == s2.(stack := s3.stack, result := s3.result, gray := s2.gray - {x})
    requires forall y :: y in s2.stack && s2.indices[y] < s2.indices[x] ==> y in s3.stack
    requires forall y :: y in s3.stack ==> y in s2.stack
    ensures Extends(s0, s3)
  {
    assert s3.gray == s0.gray;
  }

  lemma PoppedSegment(s: State, k: nat, c: seq<Id>)
    requires k < |s.stack| && forall x :: x in s.stack ==> x in s.indices
    requires forall i, j :: 0 <= i < j < |s.stack| ==> s.indices[s.stack[i]] < s.indices[s.stack[j]]
    requires |c| == |s.stack| - k && forall j :: 0 <= j < |c| ==> c[j] == s.stack[|s.stack| - 1 - j]
    ensures IsSegment(s, s.stack[k], c)
    ensures forall y :: y in s.stack[..k] <==> y in s.stack && !Above(s, s.stack[k], y)
  {
    forall y | Above(s, s.stack[k], y) ensures y in c {
      var i :| 0 <= i < |s.stack| && s.stack[i] == y;
      assert k <= i;
      assert c[|s.stack| - 1 - i] == y;
    }
  }

  /** Every local package is in exactly one component, components are exactly the maximal mutually
      reachable sets, and each comes after every component it reaches. */
  method StrongComponents(g: Graph) returns (result: seq<seq<Id>>)
    ensures IsPartition(g, g.localIds, result) && DependenciesFirst(g, result)
  {
    hide Inv, IsPartition, Closed, DependenciesFirst, Ascending, StrLess, SortedIds, FinalLow, SameExcept;
    var t := new Tarjan(g);
    var ids := SortedIds(g.localIds);
    for i := 0 to |ids|
      invariant t.Valid() && t.g == g && t.gray == {}
      invariant fresh(t)
      invariant forall j :: 0 <= j < i ==> ids[j] in t.indices
    {
      if ids[i] !in t.indices {
        t.Visit(ids[i]);
      }
    }
    AllEmitted(g, t.View());
    ClosedIsOrdered(g, t.result);
    result := t.result;
  }

  // ---- dependency cycles ----

  /** The check's test on one component: more than one member, or a self-edge. */
  predicate IsCyclicComponent(g: Graph, c: seq<Id>) {
    |c| > 1 || (|c| == 1 && (c[0], c[0]) in g.edges)
  }

  /** `picked` lists the components at `places`, which ascend. */
  ghost predicate Selects(cs: seq<seq<Id>>, picked: seq<seq<Id>>, places: seq<nat>) {
    && |places| == |picked|
    && (forall k :: 0 <= k < |places| ==> places[k] < |cs| && picked[k] == cs[places[k]])
    && (forall i, j :: 0 <= i < j < |places| ==> places[i] < places[j])
  }

  lemma SelectionKeeps(g: Graph, cs: seq<seq<Id>>, picked: seq<seq<Id>>, places: seq<nat>)
    requires Selects(cs, picked, places) && Disjoint(cs) && DependenciesFirst(g, cs)
    ensures Disjoint(picked) && DependenciesFirst(g, picked)
  {
    hide Graph.Reach;
    forall i, j, x | 0 <= i < j < |picked| && x in picked[i] ensures x !in picked[j] {
      assert places[i] < places[j] && x in cs[places[i]];
    }
    forall i, j, u, v | 0 <= i < j < |picked| && u in picked[i] && v in picked[j] ensures !g.Reach(u, v) {
      assert places[i] < places[j] && u in cs[places[i]] && v in cs[places[j]];
    }
  }

  /** One DEPENDENCY_CYCLE violation per cyclic component, in emission order: none overlaps another, and
      none reaches a later one. */
  method CycleViolations(g: Graph) returns (violations: seq<seq<Id>>)
    ensures violations == [] <==> !g.Cyclic()
    ensures Disjoint(violations) && DependenciesFirst(g, violations)
    ensures forall c :: c in violations ==> IsComponent(g, c) && IsCyclicComponent(g, c)
    ensures forall u, v :: u in g.localIds && g.Step(u, v) && g.Reach(v, u) ==> Listed(violations, u)
  {
    hide Graph.Reach, IsComponent, DependenciesFirst, Disjoint;
    var components := StrongComponents(g);
    violations := [];
    ghost var places: seq<nat> := [];
    for i := 0 to |components|
      invariant Selects(components[..i], violations, places)
      invariant forall c :: c in violations ==> c in components && IsCyclicComponent(g, c)
      invariant forall j :: 0 <= j < i && IsCyclicComponent(g, components[j]) ==> components[j] in violations
    {
      if IsCyclicComponent(g, components[i]) {
        violations := violations + [components[i]];
        places := places + [i];
      }
    }
    assert components[..|components|] == components;
    SelectionKeeps(g, components, violations, places);
    hide Selects;
    forall u, v | u in g.localIds && g.Step(u, v) && g.Reach(v, u) ensures Listed(violations, u) {
      CycleIsListed(g, components, u, v);
      var k :| 0 <= k < |components| && u in components[k] && IsCyclicComponent(g, components[k]);
      assert components[k] in violations;
    }
    if violations != [] {
      ListedIsCycle(g, components, violations[0]);
    }
  }

  lemma CycleIsListed(g: Graph, cs: seq<seq<Id>>, u: Id, v: Id)
    requires IsPartition(g, g.localIds, cs) && u in g.localIds && g.Step(u, v) && g.Reach(v, u)
    ensures exists k :: 0 <= k < |cs| && u in cs[k] && IsCyclicComponent(g, cs[k])
  {
    ReachStep(g, u, v);
    assert Listed(cs, u);
    var k :| 0 <= k < |cs| && u in cs[k];
    assert IsComponent(g, cs[k]);
    assert g.Mutual(u, v);
    assert v in cs[k];
    if u == v {
      assert |cs[k]| == 1 ==> cs[k][0] == u;
    }
  }

  lemma ListedIsCycle(g: Graph, cs: seq<seq<Id>>, c: seq<Id>)
    requires IsPartition(g, g.localIds, cs) && c in cs && IsCyclicComponent(g, c)
    ensures g.Cyclic()
  {
    var k :| 0 <= k < |cs| && cs[k] == c;
    assert IsComponent(g, c);
    var u := c[0];
    assert Listed(cs, u);
    if |c| == 1 {
      assert g.Step(u, u);
      ReachReflexive(g, u);
    } else {
      var w := c[1];
      assert w in c && g.Mutual(u, w);
      var p :| g.Connects(p, u, w);
      var a, b := Crossing(g, p, {u});
      ReachTransitive(g, b, w, u);
    }
  }
}
