/** The resolved package graph of scripts/check-constellation-boundaries.py and reachability in it. */
module DependencyGraph {
  import opened Order

  type Id = string

  /** `names` and `idsByName` come from the package records; edges may leave the local packages. */
  datatype Graph = Graph(
    localIds: set<Id>,
    edges: set<(Id, Id)>,
    names: map<Id, string>,
    idsByName: map<string, seq<Id>>)
  {
    /** One traversal step: what `local_successors` enumerates. */
    predicate Step(u: Id, v: Id) {
      (u, v) in edges && v in localIds
    }

    function LocalSuccessors(u: Id): (r: seq<Id>)
      ensures forall v :: v in r <==> Step(u, v)
      ensures Ascending(r, StrLess)
    {
      SortedIds(set e | e in edges && e.0 == u && e.1 in localIds :: e.1)
    }

    /** A nonempty walk along steps. */
    ghost predicate IsPath(p: seq<Id>) {
      p != [] && forall i :: 0 <= i < |p| - 1 ==> Step(p[i], p[i + 1])
    }

    ghost predicate Connects(p: seq<Id>, u: Id, v: Id) {
      IsPath(p) && p[0] == u && p[|p| - 1] == v
    }

    ghost predicate Reach(u: Id, v: Id) {
      exists p :: Connects(p, u, v)
    }

    /** Two packages depend on each other, possibly through others. */
    ghost predicate Mutual(u: Id, v: Id) {
      Reach(u, v) && Reach(v, u)
    }

    /** Some local package reaches itself in one or more steps. */
    ghost predicate Cyclic() {
      exists u, v :: u in localIds && Step(u, v) && Reach(v, u)
    }
  }

  lemma ReachReflexive(g: Graph, u: Id)
    ensures g.Reach(u, u)
  {
    assert g.Connects([u], u, u);
  }

  lemma ReachStep(g: Graph, u: Id, v: Id)
    requires g.Step(u, v)
    ensures g.Reach(u, v)
  {
    assert g.Connects([u, v], u, v);
  }

  lemma ReachTransitive(g: Graph, u: Id, v: Id, w: Id)
    requires g.Reach(u, v) && g.Reach(v, w)
    ensures g.Reach(u, w)
  {
    var p :| g.Connects(p, u, v);
    var q :| g.Connects(q, v, w);
    var r := p + q[1..];
    forall i | 0 <= i < |r| - 1 ensures g.Step(r[i], r[i + 1]) {
      if i >= |p| - 1 {
        assert r[i] == q[i - |p| + 1] && r[i + 1] == q[i - |p| + 2];
      }
    }
    assert r[|r| - 1] == q[|q| - 1];
    assert g.Connects(r, u, w);
  }

  /** A walk that starts inside a set and ends outside it crosses the boundary at some step. */
  lemma {:induction false} Crossing(g: Graph, p: seq<Id>, inside: set<Id>) returns (u: Id, v: Id)
    requires g.IsPath(p) && p[0] in inside && p[|p| - 1] !in inside
    ensures g.Step(u, v) && u in inside && v !in inside
    ensures g.Reach(p[0], v) && g.Reach(v, p[|p| - 1])
    decreases |p|
  {
    assert g.Step(p[0], p[1]);
    var q := p[1..];
    assert g.IsPath(q) by {
      forall i | 0 <= i < |q| - 1 ensures g.Step(q[i], q[i + 1]) {
        assert g.Step(p[i + 1], p[i + 2]);
      }
    }
    if p[1] !in inside {
      u, v := p[0], p[1];
      ReachStep(g, u, v);
      assert g.Connects(q, v, p[|p| - 1]);
    } else {
      u, v := Crossing(g, q, inside);
      ReachStep(g, p[0], p[1]);
      ReachTransitive(g, p[0], p[1], v);
    }
  }
}
