/** Breadth-first search with predecessor reconstruction
    (scripts/check-constellation-boundaries.py, `_path_between`). */
module ShortestPath {
  import opened Order
  import opened DependencyGraph

  /** Shorter first, then lexicographically by package id. */
  ghost predicate Precedes(a: seq<Id>, b: seq<Id>) {
    |a| < |b| || (|a| == |b| && PathLess(a, b))
  }

  ghost predicate AtMost(a: seq<Id>, b: seq<Id>) {
    a == b || Precedes(a, b)
  }

  /** `p` is the least walk from `u` to `v`: of minimum length and, among those, first by package ids. */
  ghost predicate IsLeastPath(g: Graph, u: Id, v: Id, p: seq<Id>) {
    g.Connects(p, u, v) && forall q :: g.Connects(q, u, v) ==> AtMost(p, q)
  }

  lemma {:induction false} PathLessSnoc(a: seq<Id>, b: seq<Id>, x: Id, y: Id)
    requires |a| == |b|
    ensures PathLess(a + [x], b + [y]) <==> PathLess(a, b) || (a == b && StrLess(x, y))
    decreases |a|
  {
    StrOrder();
    if a == [] {
      assert [x][1..] == [] && [y][1..] == [];
    } else {
      assert (a + [x])[1..] == a[1..] + [x] && (b + [y])[1..] == b[1..] + [y];
      PathLessSnoc(a[1..], b[1..], x, y);
      assert a == b <==> a[0] == b[0] && a[1..] == b[1..] by {
        assert a == [a[0]] + a[1..] && b == [b[0]] + b[1..];
      }
    }
  }

  lemma PrecedesTransitive(a: seq<Id>, b: seq<Id>, c: seq<Id>)
    requires Precedes(a, b) && Precedes(b, c)
    ensures Precedes(a, c)
  {
    PathOrder();
  }

  lemma AtMostTransitive(a: seq<Id>, b: seq<Id>, c: seq<Id>)
    requires AtMost(a, b) && AtMost(b, c)
    ensures AtMost(a, c)
  {
    if a != b && b != c { PrecedesTransitive(a, b, c); }
  }

  lemma LeastPathUnique(g: Graph, u: Id, v: Id, p: seq<Id>, q: seq<Id>)
    requires IsLeastPath(g, u, v, p) && IsLeastPath(g, u, v, q)
    ensures p == q
  {
    PathOrder();
  }

  /** Extending by one node keeps the order, and earlier parents give earlier children. */
  lemma SnocMonotone(a: seq<Id>, b: seq<Id>, x: Id, y: Id)
    ensures Precedes(a, b) ==> Precedes(a + [x], b + [y])
    ensures StrLess(x, y) ==> Precedes(a + [x], a + [y])
    ensures AtMost(a, b) ==> AtMost(a + [x], b + [x]) && Precedes(a, b + [x])
  {
    if |a| == |b| { PathLessSnoc(a, b, x, y); }
    if |a| == |b| { PathLessSnoc(a, b, x, x); }
    PathLessSnoc(a, a, x, y);
  }

  // ---- the search state ----

  /** `order` lists the discovered nodes in discovery order; the first `head` have left the queue. */
  datatype Search = Search(order: seq<Id>, head: nat, tree: map<Id, seq<Id>>)

  ghost predicate TreeOk(g: Graph, source: Id, s: Search) {
    && s.head <= |s.order|
    && s.order != [] && s.order[0] == source
    && (forall v :: v in s.tree <==> v in s.order)
    && s.tree[source] == [source]
    && (forall v :: v in s.tree ==> g.Connects(s.tree[v], source, v))
  }

  /** Discovery order is the order of the tree paths. */
  ghost predicate OrderOk(s: Search) {
    && (forall v :: v in s.order ==> v in s.tree)
    && (forall i, j :: 0 <= i < j < |s.order| ==> Precedes(s.tree[s.order[i]], s.tree[s.order[j]]))
  }

  /** Every discovered node's path comes from a dequeued parent, or is the source's. */
  ghost predicate ParentsOk(source: Id, s: Search) {
    && s.head <= |s.order|
    && (forall v :: v in s.order ==> v in s.tree)
    && (forall v :: v in s.order ==> v == source || HasParent(s, v, s.head))
  }

  ghost predicate HasParent(s: Search, v: Id, upTo: nat)
    requires v in s.tree && upTo <= |s.order| && forall w :: w in s.order ==> w in s.tree
  {
    exists i :: 0 <= i < upTo && s.tree[v] == s.tree[s.order[i]] + [v]
  }

  /** Successors of dequeued nodes are discovered, with a path no later than the one through them. */
  ghost predicate Expanded(g: Graph, s: Search, n: nat)
    requires n <= |s.order|
  {
    && (forall v :: v in s.order ==> v in s.tree)
    && forall i, v :: 0 <= i < n && g.Step(s.order[i], v) ==>
         v in s.order && AtMost(s.tree[v], s.tree[s.order[i]] + [v])
  }

  ghost predicate SearchInv(g: Graph, source: Id, s: Search) {
    TreeOk(g, source, s) && OrderOk(s) && ParentsOk(source, s) && Expanded(g, s, s.head)
  }

  lemma Unsnoc(g: Graph, p: seq<Id>)
    requires g.IsPath(p) && |p| > 1
    ensures g.IsPath(p[..|p| - 1]) && p == p[..|p| - 1] + [p[|p| - 1]]
    ensures g.Step(p[..|p| - 1][|p| - 2], p[|p| - 1])
  {
    hide Graph.Step;
    var q := p[..|p| - 1];
    forall i | 0 <= i < |q| - 1 ensures g.Step(q[i], q[i + 1]) { assert g.Step(p[i], p[i + 1]); }
    assert g.Step(p[|p| - 2], p[|p| - 2 + 1]);
  }

  /** A walk from the source is matched by a tree path among the first `head + 1` nodes, or the node
      at the head of the queue already has a path no later than the walk. */
  lemma {:induction false} WalkIsMatched(g: Graph, source: Id, s: Search, p: seq<Id>)
    requires SearchInv(g, source, s) && s.head < |s.order|
    requires g.IsPath(p) && p[0] == source
    ensures AtMost(s.tree[s.order[s.head]], p) ||
            exists i :: 0 <= i <= s.head && s.order[i] == p[|p| - 1] && AtMost(s.tree[s.order[i]], p)
    decreases |p|
  {
    var current := s.order[s.head];
    var w := p[|p| - 1];
    if |p| == 1 {
      assert p == [source] && s.order[0] == w;
    } else {
      var q := p[..|p| - 1];
      Unsnoc(g, p);
      WalkIsMatched(g, source, s, q);
      var u := q[|q| - 1];
      hide Graph.Step, Graph.IsPath, Graph.Connects, HasParent, ParentsOk;
      if AtMost(s.tree[current], q) {
        SnocMonotone(s.tree[current], q, w, w);
      } else {
        var i :| 0 <= i <= s.head && s.order[i] == u && AtMost(s.tree[s.order[i]], q);
        assert i < s.head;
        SnocMonotone(s.tree[u], q, w, w);
        assert w in s.order && AtMost(s.tree[w], s.tree[u] + [w]);
        AtMostTransitive(s.tree[w], s.tree[u] + [w], p);
        var j :| 0 <= j < |s.order| && s.order[j] == w;
        if j > s.head { AtMostTransitive(s.tree[current], s.tree[w], p); }
      }
    }
  }

  /** When a node reaches the head of the queue its tree path is the least path. */
  lemma HeadIsLeast(g: Graph, source: Id, s: Search)
    requires SearchInv(g, source, s) && s.head < |s.order|
    ensures IsLeastPath(g, source, s.order[s.head], s.tree[s.order[s.head]])
  {
    var current := s.order[s.head];
    forall q | g.Connects(q, source, current) ensures AtMost(s.tree[current], q) {
      WalkIsMatched(g, source, s, q);
    }
  }

  /** With the queue exhausted, the discovered nodes are closed under steps. */
  lemma ExhaustedIsClosed(g: Graph, source: Id, s: Search, v: Id)
    requires SearchInv(g, source, s) && s.head == |s.order| && g.Reach(source, v)
    ensures v in s.order
  {
    var p :| g.Connects(p, source, v);
    var seen := set x | x in s.order;
    if v !in seen {
      var a, b := Crossing(g, p, seen);
    }
  }

  // ---- expanding the node at the head of the queue ----

  ghost function Discover(s: Search, v: Id): Search
    requires s.head < |s.order| && s.order[s.head] in s.tree
  {
    s.(order := s.order + [v], tree := s.tree[v := s.tree[s.order[s.head]] + [v]])
  }

  /** State between two successors of `order[head]`: `done` of them are handled, and the nodes from
      position `base` on were discovered through it. */
  ghost predicate Expanding(g: Graph, source: Id, s: Search, successors: seq<Id>, done: nat, base: nat) {
    && s.head < base <= |s.order| && done <= |successors|
    && TreeOk(g, source, s) && OrderOk(s) && Expanded(g, s, s.head)
    && OldNodes(s, source, base) && NewNodes(s, successors, done, base) && Handled(s, successors, done)
  }

  ghost predicate OldNodes(s: Search, source: Id, base: nat)
    requires s.head < base <= |s.order| && forall v :: v in s.order ==> v in s.tree
  {
    forall j :: 0 <= j < base ==> s.order[j] == source || HasParent(s, s.order[j], s.head)
  }

  ghost predicate NewNodes(s: Search, successors: seq<Id>, done: nat, base: nat)
    requires s.head < base <= |s.order| && done <= |successors| && forall v :: v in s.order ==> v in s.tree
  {
    forall j :: base <= j < |s.order| ==> ViaHead(s, s.order[j]) && s.order[j] in successors[..done]
  }

  ghost predicate Handled(s: Search, successors: seq<Id>, done: nat)
    requires s.head < |s.order| && done <= |successors| && forall v :: v in s.order ==> v in s.tree
  {
    forall k :: 0 <= k < done ==>
      successors[k] in s.order && AtMost(s.tree[successors[k]], s.tree[s.order[s.head]] + [successors[k]])
  }

  ghost predicate ViaHead(s: Search, v: Id)
    requires v in s.tree && s.head < |s.order| && s.order[s.head] in s.tree
  {
    s.tree[v] == s.tree[s.order[s.head]] + [v]
  }

  lemma ExpandStart(g: Graph, source: Id, s: Search, successors: seq<Id>)
    requires SearchInv(g, source, s) && s.head < |s.order|
    ensures Expanding(g, source, s, successors, 0, |s.order|)
  {
    hide Graph.Connects, Precedes;
  }

  /** Every discovered node precedes a new child of the head. */
  lemma DiscoveredPrecedes(g: Graph, source: Id, s: Search, successors: seq<Id>, done: nat, base: nat, j: nat)
    requires Expanding(g, source, s, successors, done, base) && j < |s.order| && done < |successors|
    requires Ascending(successors, StrLess)
    ensures Precedes(s.tree[s.order[j]], s.tree[s.order[s.head]] + [successors[done]])
  {
    hide Precedes, StrLess;
    var cur, v, w := s.tree[s.order[s.head]], successors[done], s.order[j];
    if j < base {
      if w == source {
        ShorterPrecedes(s.tree[w], cur + [v]);
      } else {
        var i :| 0 <= i < s.head && s.tree[w] == s.tree[s.order[i]] + [w];
        SnocMonotone(s.tree[s.order[i]], cur, w, v);
      }
    } else {
      var k :| 0 <= k < done && successors[k] == w;
      SnocMonotone(cur, cur, w, v);
    }
  }

  lemma ShorterPrecedes(a: seq<Id>, b: seq<Id>)
    requires |a| < |b|
    ensures Precedes(a, b)
  {}

  lemma KnownAtMost(g: Graph, source: Id, s: Search, successors: seq<Id>, done: nat, base: nat)
    requires Expanding(g, source, s, successors, done, base) && done < |successors|
    requires Ascending(successors, StrLess) && successors[done] in s.order
    ensures AtMost(s.tree[successors[done]], s.tree[s.order[s.head]] + [successors[done]])
  {
    var v := successors[done];
    var j :| 0 <= j < |s.order| && s.order[j] == v;
    DiscoveredPrecedes(g, source, s, successors, done, base, j);
    hide Precedes, Ascending, StrLess, Graph.Connects, TreeOk, OrderOk, Expanded, OldNodes, NewNodes, Handled;
  }

  lemma KnownSuccessor(g: Graph, source: Id, s: Search, successors: seq<Id>, done: nat, base: nat)
    requires Expanding(g, source, s, successors, done, base) && done < |successors|
    requires Ascending(successors, StrLess) && successors[done] in s.order
    ensures Expanding(g, source, s, successors, done + 1, base)
  {
    KnownAtMost(g, source, s, successors, done, base);
    hide Graph.Connects, AtMost, Ascending, StrLess, TreeOk, OrderOk, Expanded, OldNodes, NewNodes;
    assert NewNodes(s, successors, done + 1, base) by { NewNodesGrow(s, successors, done, base); }
  }

  lemma NewNodesGrow(s: Search, successors: seq<Id>, done: nat, base: nat)
    requires s.head < base <= |s.order| && done < |successors| && forall v :: v in s.order ==> v in s.tree
    requires NewNodes(s, successors, done, base)
    ensures NewNodes(s, successors, done + 1, base)
  {
    hide ViaHead;
    assert successors[..done + 1] == successors[..done] + [successors[done]];
  }

  lemma SnocConnects(g: Graph, p: seq<Id>, u: Id, v: Id, w: Id)
    requires g.Connects(p, u, v) && g.Step(v, w)
    ensures g.Connects(p + [w], u, w)
  {}

  lemma DiscoverKeepsOrder(g: Graph, source: Id, s: Search, successors: seq<Id>, done: nat, base: nat)
    requires Expanding(g, source, s, successors, done, base) && done < |successors|
    requires Ascending(successors, StrLess) && successors[done] !in s.order
    ensures OrderOk(Discover(s, successors[done]))
  {
    var t := Discover(s, successors[done]);
    forall j | 0 <= j < |s.order| ensures Precedes(t.tree[t.order[j]], t.tree[t.order[|s.order|]]) {
      DiscoveredPrecedes(g, source, s, successors, done, base, j);
    }
    hide Precedes, Ascending, StrLess, Graph.Connects, Expanded;
  }

  /** `t` has everything `s` has, at the same place and with the same path. */
  ghost predicate Grows(s: Search, t: Search) {
    && t.head == s.head && s.order <= t.order
    && (forall v :: v in s.tree ==> v in t.tree && t.tree[v] == s.tree[v])
    && (forall v :: v in s.order ==> v in s.tree && v in t.order)
    && (forall v :: v in t.order ==> v in t.tree)
  }

  lemma DiscoverKeepsOldNodes(s: Search, t: Search, source: Id, base: nat)
    requires Grows(s, t) && s.head < base <= |s.order| && OldNodes(s, source, base)
    ensures OldNodes(t, source, base)
  {
    forall j | 0 <= j < base && t.order[j] != source ensures HasParent(t, t.order[j], t.head) {
      assert HasParent(s, s.order[j], s.head);
      var i :| 0 <= i < s.head && s.tree[s.order[j]] == s.tree[s.order[i]] + [s.order[j]];
      assert t.tree[t.order[j]] == t.tree[t.order[i]] + [t.order[j]];
    }
  }

  lemma DiscoverKeepsNewNodes(s: Search, successors: seq<Id>, done: nat, base: nat, t: Search)
    requires s.head < base <= |s.order| && done < |successors| && s.order[s.head] in s.tree
    requires t == Discover(s, successors[done]) && successors[done] !in s.order && Grows(s, t)
    requires NewNodes(s, successors, done, base)
    ensures NewNodes(t, successors, done + 1, base)
  {
    forall j | base <= j < |t.order| ensures ViaHead(t, t.order[j]) && t.order[j] in successors[..done + 1] {
      if j < |s.order| {
        assert ViaHead(s, s.order[j]) && s.order[j] in successors[..done];
      } else {
        assert successors[..done + 1][done] == successors[done];
      }
    }
  }

  lemma DiscoverKeepsExpanded(g: Graph, s: Search, t: Search)
    requires Grows(s, t) && s.head < |s.order| && Expanded(g, s, s.head)
    ensures Expanded(g, t, t.head)
  {
    hide AtMost;
    forall i, v | 0 <= i < t.head && g.Step(t.order[i], v)
      ensures v in t.order && AtMost(t.tree[v], t.tree[t.order[i]] + [v])
    {
      assert t.order[i] == s.order[i];
    }
  }

  lemma DiscoverKeepsHandled(s: Search, successors: seq<Id>, done: nat, t: Search)
    requires Grows(s, t) && s.head < |s.order| && done < |successors| && Handled(s, successors, done)
    requires t == Discover(s, successors[done]) && successors[done] !in s.order
    ensures Handled(t, successors, done + 1)
  {
    hide Precedes;
  }

  lemma DiscoverKeepsTree(g: Graph, source: Id, s: Search, v: Id)
    requires TreeOk(g, source, s) && s.head < |s.order| && v !in s.order && g.Step(s.order[s.head], v)
    ensures TreeOk(g, source, Discover(s, v)) && Grows(s, Discover(s, v))
  {
    SnocConnects(g, s.tree[s.order[s.head]], source, s.order[s.head], v);
    hide Graph.Connects;
  }

  lemma NewSuccessor(g: Graph, source: Id, s: Search, successors: seq<Id>, done: nat, base: nat)
    requires Expanding(g, source, s, successors, done, base) && done < |successors|
    requires Ascending(successors, StrLess) && successors[done] !in s.order
    requires g.Step(s.order[s.head], successors[done])
    ensures Expanding(g, source, Discover(s, successors[done]), successors, done + 1, base)
  {
    hide OldNodes, NewNodes, Handled, Expanded, Precedes, Ascending, StrLess, Graph.Connects;
    var t := Discover(s, successors[done]);
    DiscoverKeepsOrder(g, source, s, successors, done, base);
    DiscoverKeepsTree(g, source, s, successors[done]);
    hide OrderOk;
    DiscoverKeepsOldNodes(s, t, source, base);
    DiscoverKeepsNewNodes(s, successors, done, base, t);
    DiscoverKeepsExpanded(g, s, t);
    DiscoverKeepsHandled(s, successors, done, t);
  }

  lemma ExpandDoneParents(g: Graph, source: Id, s: Search, successors: seq<Id>, base: nat)
    requires Expanding(g, source, s, successors, |successors|, base)
    ensures ParentsOk(source, s.(head := s.head + 1))
  {
    hide Graph.Connects, OrderOk, Expanded, Handled;
    var t := s.(head := s.head + 1);
    forall v | v in t.order ensures v == source || HasParent(t, v, t.head) {
      var j :| 0 <= j < |s.order| && s.order[j] == v;
      if j >= base {
        assert ViaHead(s, v);
        assert t.tree[v] == t.tree[t.order[s.head]] + [v];
      } else if v != source {
        assert HasParent(s, v, s.head);
        var i :| 0 <= i < s.head && s.tree[v] == s.tree[s.order[i]] + [v];
        assert t.tree[v] == t.tree[t.order[i]] + [v];
      }
    }
  }

  lemma ExpandDone(g: Graph, source: Id, s: Search, successors: seq<Id>, base: nat)
    requires Expanding(g, source, s, successors, |successors|, base)
    requires forall v :: g.Step(s.order[s.head], v) ==> v in successors
    ensures SearchInv(g, source, s.(head := s.head + 1))
  {
    ExpandDoneParents(g, source, s, successors, base);
    HeadExpanded(g, s, successors);
    HeadAdvances(g, source, s);
    hide Graph.Connects, Precedes, AtMost, OldNodes, NewNodes, ParentsOk, Expanded, Handled, TreeOk, OrderOk;
  }

  lemma HeadAdvances(g: Graph, source: Id, s: Search)
    requires TreeOk(g, source, s) && OrderOk(s) && s.head < |s.order|
    ensures TreeOk(g, source, s.(head := s.head + 1)) && OrderOk(s.(head := s.head + 1))
  {
    hide Graph.Connects, Precedes;
  }

  /** Once all its successors are handled, the head counts as expanded. */
  lemma HeadExpanded(g: Graph, s: Search, successors: seq<Id>)
    requires s.head < |s.order| && Expanded(g, s, s.head) && Handled(s, successors, |successors|)
    requires forall v :: g.Step(s.order[s.head], v) ==> v in successors
    ensures Expanded(g, s.(head := s.head + 1), s.head + 1)
  {
    hide AtMost, Graph.Step;
    var t := s.(head := s.head + 1);
    forall i, v | 0 <= i < t.head && g.Step(t.order[i], v)
      ensures v in t.order && AtMost(t.tree[v], t.tree[t.order[i]] + [v])
    {
      if i == s.head {
        assert v in successors;
        var k :| 0 <= k < |successors| && successors[k] == v;
      }
    }
  }

  // ---- the search ----

  /** The predecessor map mirrors the search tree. */
  ghost predicate PreviousOk(s: Search, source: Id, previous: map<Id, Option<Id>>) {
    && (forall v :: v in previous <==> v in s.tree)
    && (forall v :: v in previous ==> (previous[v] == None <==> v == source))
    && (forall v :: v in previous && previous[v].Some? ==>
         previous[v].value in s.tree && s.tree[v] == s.tree[previous[v].value] + [v])
  }

  /** The predecessor walk: collects nodes back to the source and reverses them. */
  method WalkBack(previous: map<Id, Option<Id>>, ghost g: Graph, ghost source: Id, ghost s: Search, from: Id)
    returns (path: seq<Id>)
    requires TreeOk(g, source, s) && PreviousOk(s, source, previous) && from in previous
    ensures path == s.tree[from]
  {
    hide Graph.Connects, PreviousOk;
    InPrevious(s, source, previous);
    var backwards: seq<Id> := [];
    var cursor := Some(from);
    while cursor.Some?
      invariant cursor.Some? ==> cursor.value in previous
      invariant s.tree[from] == (if cursor.Some? then s.tree[cursor.value] else []) + Reversed(backwards)
      decreases if cursor.Some? then 1 + |s.tree[cursor.value]| else 0
    {
      ReversedSnoc(backwards, cursor.value);
      TreeUnwinds(s, source, previous, cursor.value, Reversed(backwards));
      backwards := backwards + [cursor.value];
      cursor := previous[cursor.value];
    }
    path := Reversed(backwards);
  }

  lemma InPrevious(s: Search, source: Id, previous: map<Id, Option<Id>>)
    requires PreviousOk(s, source, previous)
    ensures forall v :: v in previous <==> v in s.tree
  {}

  lemma TreeUnwinds(s: Search, source: Id, previous: map<Id, Option<Id>>, v: Id, tail: seq<Id>)
    requires PreviousOk(s, source, previous) && v in previous && source in s.tree && s.tree[source] == [source]
    ensures previous[v].Some? ==>
              previous[v].value in previous
              && |s.tree[previous[v].value]| < |s.tree[v]|
              && s.tree[v] + tail == s.tree[previous[v].value] + ([v] + tail)
    ensures previous[v].None? ==> s.tree[v] + tail == [v] + tail
  {}

  function Reversed(s: seq<Id>): seq<Id> {
    if s == [] then [] else Reversed(s[1..]) + [s[0]]
  }

  lemma {:induction false} ReversedSnoc(s: seq<Id>, x: Id)
    ensures Reversed(s + [x]) == [x] + Reversed(s)
  {
    if s == [] {
      assert [x][1..] == [];
    } else {
      ReversedSnoc(s[1..], x);
      assert (s + [x])[1..] == s[1..] + [x];
    }
  }

  lemma SearchStarts(g: Graph, source: Id, s: Search)
    requires s == Search([source], 0, map[source := [source]])
    ensures SearchInv(g, source, s)
  {}

  ghost function Taken(s: Search): set<Id>
    requires s.head <= |s.order|
  {
    set v | v in s.order[..s.head]
  }

  lemma HeadIsNew(g: Graph, source: Id, s: Search)
    requires SearchInv(g, source, s) && s.head < |s.order|
    ensures s.order[s.head] !in s.order[..s.head] && s.order[s.head] in g.localIds + {source}
    ensures s.order[s.head] in s.tree
  {
    PathOrder();
    var v := s.order[s.head];
    var p := s.tree[v];
    assert g.Connects(p, source, v);
    if |p| > 1 { assert g.Step(p[|p| - 2], p[|p| - 1]); }
  }

  /** The successor loop for one dequeued node. */
  method Expand(g: Graph, ghost source: Id, current: Id, previous: map<Id, Option<Id>>, queue: seq<Id>, ghost s: Search)
    returns (previous': map<Id, Option<Id>>, queue': seq<Id>, ghost s': Search)
    requires SearchInv(g, source, s) && PreviousOk(s, source, previous)
    requires s.head < |s.order| && s.order[s.head..] == [current] + queue
    ensures SearchInv(g, source, s') && PreviousOk(s', source, previous')
    ensures s'.head == s.head + 1 && s.order <= s'.order && s'.order[s'.head..] == queue'
  {
    hide SearchInv, TreeOk, OrderOk, Expanded, OldNodes, NewNodes, Handled, Precedes, AtMost, Graph.LocalSuccessors, Ascending, StrLess;
    hide Graph.Step, Graph.IsPath, Graph.Connects, HasParent, ParentsOk, ViaHead, PreviousOk;
    var successors := g.LocalSuccessors(current);
    previous', queue', s' := previous, queue, s;
    ghost var base := |s.order|;
    assert s.order[s.head] == s.order[s.head..][0] == current;
    ExpandStart(g, source, s, successors);
    for i := 0 to |successors|
      invariant s'.head == s.head && s.order <= s'.order && s'.order[s.head..] == [current] + queue'
      invariant s'.order[s'.head] == current
      invariant Expanding(g, source, s', successors, i, base) && PreviousOk(s', source, previous')
    {
      var successor := successors[i];
      assert successor in successors;
      InTree(g, source, s', successors, i, base, previous');
      if successor !in previous' {
        NewSuccessor(g, source, s', successors, i, base);
        PreviousGrows(s', source, previous', successor);
        previous' := previous'[successor := Some(current)];
        queue' := queue' + [successor];
        s' := Discover(s', successor);
      } else {
        KnownSuccessor(g, source, s', successors, i, base);
      }
    }
    ExpandDone(g, source, s', successors, base);
    HeadMoves(s', source, previous');
    s' := s'.(head := s'.head + 1);
    assert s'.order[s'.head..] == s'.order[s.head..][1..];
  }

  lemma HeadMoves(s: Search, source: Id, previous: map<Id, Option<Id>>)
    requires PreviousOk(s, source, previous)
    ensures PreviousOk(s.(head := s.head + 1), source, previous)
  {}

  lemma PreviousGrows(s: Search, source: Id, previous: map<Id, Option<Id>>, v: Id)
    requires PreviousOk(s, source, previous) && s.head < |s.order| && s.order[s.head] in s.tree
    requires source in s.tree && v !in s.tree
    ensures PreviousOk(Discover(s, v), source, previous[v := Some(s.order[s.head])])
  {}

  lemma InTree(g: Graph, source: Id, s: Search, successors: seq<Id>, done: nat, base: nat, previous: map<Id, Option<Id>>)
    requires Expanding(g, source, s, successors, done, base) && PreviousOk(s, source, previous)
    ensures (forall v :: v in s.tree <==> v in s.order) && source in s.order
    ensures forall v :: v in previous <==> v in s.order
  {}

  lemma LeastIsReachable(g: Graph, source: Id, target: Id, p: seq<Id>)
    requires IsLeastPath(g, source, target, p)
    ensures g.Reach(source, target)
  {}

  /** Total, exact shortest-path search: the result is the least path, or None iff unreachable. */
  method PathBetween(g: Graph, source: Id, target: Id) returns (r: Option<seq<Id>>)
    ensures r.Some? ==> IsLeastPath(g, source, target, r.value)
    ensures r.None? <==> !g.Reach(source, target)
  {
    hide SearchInv, TreeOk, PreviousOk, IsLeastPath, Graph.Reach;
    var queue := [source];
    var previous := map[source := None];
    ghost var s := Search([source], 0, map[source := [source]]);
    SearchStarts(g, source, s);
    assert PreviousOk(s, source, previous) by { PreviousStarts(source, s, previous); }
    while queue != []
      invariant s.head <= |s.order| && queue == s.order[s.head..]
      invariant SearchInv(g, source, s) && PreviousOk(s, source, previous)
      invariant target !in s.order[..s.head]
      decreases (g.localIds + {source}) - Taken(s)
    {
      var current := queue[0];
      queue := queue[1..];
      assert current == s.order[s.head];
      HeadIsNew(g, source, s);
      HeadIsLeast(g, source, s);
      if current == target {
        LeastIsReachable(g, source, target, s.tree[current]);
        var path := WalkBackFrom(previous, g, source, s, current);
        return Some(path);
      }
      ghost var before := s;
      previous, queue, s := Expand(g, source, current, previous, queue, s);
      assert s.order[..s.head] == before.order[..before.head] + [current];
      assert current !in Taken(before) && current in Taken(s) && Taken(before) <= Taken(s);
    }
    assert s.order[..s.head] == s.order;
    if g.Reach(source, target) { ExhaustedIsClosed(g, source, s, target); }
    r := None;
  }

  lemma PreviousStarts(source: Id, s: Search, previous: map<Id, Option<Id>>)
    requires s == Search([source], 0, map[source := [source]]) && previous == map[source := None]
    ensures PreviousOk(s, source, previous)
  {}

  method WalkBackFrom(previous: map<Id, Option<Id>>, ghost g: Graph, ghost source: Id, ghost s: Search, from: Id)
    returns (path: seq<Id>)
    requires SearchInv(g, source, s) && PreviousOk(s, source, previous) && from in s.tree
    ensures path == s.tree[from]
  {
    path := WalkBack(previous, g, source, s, from);
  }

  // ---- existence of the least path ----

  ghost function Words(nodes: set<Id>, n: nat): set<seq<Id>> {
    if n == 0 then {[]} else set x, r | x in nodes && r in Words(nodes, n - 1) :: [x] + r
  }

  lemma {:induction false} InWords(nodes: set<Id>, p: seq<Id>)
    requires forall k :: 0 <= k < |p| ==> p[k] in nodes
    ensures p in Words(nodes, |p|)
  {
    if p == [] {
    } else {
      InWords(nodes, p[1..]);
      assert p == [p[0]] + p[1..];
    }
  }

  lemma {:induction false} ShortestExists(g: Graph, u: Id, v: Id, p: seq<Id>) returns (q: seq<Id>)
    requires g.Connects(p, u, v)
    ensures g.Connects(q, u, v) && forall r :: g.Connects(r, u, v) ==> |q| <= |r|
    decreases |p|
  {
    hide Graph.Connects;
    if r :| g.Connects(r, u, v) && |r| < |p| {
      q := ShortestExists(g, u, v, r);
    } else {
      q := p;
    }
  }

  /** A reachable node has a least path: shortest walks are finitely many, and totally ordered. */
  lemma LeastPathExists(g: Graph, u: Id, v: Id) returns (p: seq<Id>)
    requires g.Reach(u, v)
    ensures IsLeastPath(g, u, v, p)
  {
    var q :| g.Connects(q, u, v);
    var m := ShortestExists(g, u, v, q);
    var nodes := g.localIds + {u};
    var candidates := set r | r in Words(nodes, |m|) && g.Connects(r, u, v) && |r| == |m|;
    forall r | g.Connects(r, u, v) && |r| == |m| ensures r in candidates { WalkIsWord(g, u, v, r); }
    hide Graph.Connects, PathLess;
    PathOrder();
    LeastExists(candidates, PathLess);
    p :| Order.IsLeast(p, candidates, PathLess);
  }

  lemma WalkIsWord(g: Graph, u: Id, v: Id, r: seq<Id>)
    requires g.Connects(r, u, v)
    ensures r in Words(g.localIds + {u}, |r|)
  {
    forall k | 0 <= k < |r| ensures r[k] in g.localIds + {u} {
      if k > 0 { assert g.Step(r[k - 1], r[k]); }
    }
    InWords(g.localIds + {u}, r);
  }
}
