/** Finite directed graphs given by adjacency lists: walks, cycles and topological orders. */
module Graphs {

  /** The vertices are the keys; a listed neighbour that is no key is no edge. */
  type Graph = map<string, seq<string>>

  predicate Edge(g: Graph, a: string, b: string) {
    a in g && b in g && b in g[a]
  }

  ghost predicate IsWalk(g: Graph, w: seq<string>) {
    && |w| >= 1 && w[0] in g
    && forall i :: 0 <= i < |w| - 1 ==> Edge(g, w[i], w[i + 1])
  }

  ghost predicate IsCycle(g: Graph, w: seq<string>) {
    IsWalk(g, w) && |w| >= 2 && w[0] == w[|w| - 1]
  }

  ghost predicate Acyclic(g: Graph) {
    forall w :: !IsCycle(g, w)
  }

  ghost predicate WalkBetween(g: Graph, w: seq<string>, a: string, b: string) {
    IsWalk(g, w) && w[0] == a && w[|w| - 1] == b
  }

  ghost predicate Reaches(g: Graph, a: string, b: string) {
    exists w :: WalkBetween(g, w, a, b)
  }

  /** Every edge leads to an earlier vertex of the list. */
  ghost predicate Topological(g: Graph, order: seq<string>) {
    forall i, b :: 0 <= i < |order| && Edge(g, order[i], b) ==> b in order[..i]
  }

  lemma TailWalk(g: Graph, w: seq<string>)
    requires IsWalk(g, w) && |w| >= 2
    ensures IsWalk(g, w[1..])
  {
    var tail := w[1..];
    assert Edge(g, w[0], w[1]);
    forall i | 0 <= i < |tail| - 1 ensures Edge(g, tail[i], tail[i + 1]) {
      assert Edge(g, w[i + 1], w[i + 1 + 1]);
    }
  }

  lemma {:induction false} WalkDescends(g: Graph, order: seq<string>, w: seq<string>, i: nat)
    requires Topological(g, order) && IsWalk(g, w) && |w| >= 2 && i < |order| && w[0] == order[i]
    ensures w[|w| - 1] in order[..i]
    decreases |w|
  {
    assert Edge(g, w[0], w[1]);
    var j :| 0 <= j < i && order[j] == w[1];
    if |w| > 2 {
      TailWalk(g, w);
      WalkDescends(g, order, w[1..], j);
      assert w[|w| - 1] in order[..j];
    }
  }

  lemma {:induction false} NoCycleFrom(g: Graph, order: seq<string>, w: seq<string>, i: nat)
    requires Topological(g, order) && i < |order| && IsCycle(g, w) && w[0] == order[i]
    ensures false
    decreases i
  {
    WalkDescends(g, order, w, i);
    var j :| 0 <= j < i && order[j] == w[0];
    NoCycleFrom(g, order, w, j);
  }

  /** A graph whose vertices can be listed with all edges leading back has no cycle. */
  lemma TopologicalIsAcyclic(g: Graph, order: seq<string>)
    requires Topological(g, order) && forall v :: v in g ==> v in order
    ensures Acyclic(g)
  {
    forall w ensures !IsCycle(g, w) {
      if IsCycle(g, w) {
        var i :| 0 <= i < |order| && order[i] == w[0];
        NoCycleFrom(g, order, w, i);
      }
    }
  }

  lemma JoinWalks(g: Graph, v: seq<string>, w: seq<string>)
    requires IsWalk(g, v) && IsWalk(g, w) && v[|v| - 1] == w[0]
    ensures WalkBetween(g, v + w[1..], v[0], w[|w| - 1])
  {
    var u := v + w[1..];
    forall i | 0 <= i < |u| - 1 ensures Edge(g, u[i], u[i + 1]) {
      if i < |v| - 1 {
        assert Edge(g, v[i], v[i + 1]);
      } else {
        var k := i - (|v| - 1);
        assert u[i] == w[k] && u[i + 1] == w[k + 1];
        assert Edge(g, w[k], w[k + 1]);
      }
    }
  }

  lemma ReachesSelf(g: Graph, a: string)
    requires a in g
    ensures Reaches(g, a, a)
  {
    assert WalkBetween(g, [a], a, a);
  }

  lemma ReachesThenEdge(g: Graph, a: string, b: string, c: string)
    requires Reaches(g, a, b) && Edge(g, b, c)
    ensures Reaches(g, a, c)
  {
    var w :| WalkBetween(g, w, a, b);
    assert IsWalk(g, [b, c]);
    JoinWalks(g, w, [b, c]);
  }

  /** A set that holds the start of a walk and is closed under edges holds its end. */
  lemma {:induction false} ClosedUnderWalk(g: Graph, w: seq<string>, s: set<string>)
    requires IsWalk(g, w) && w[0] in s
    requires forall a, b :: a in s && Edge(g, a, b) ==> b in s
    ensures w[|w| - 1] in s
    decreases |w|
  {
    if |w| > 1 {
      assert Edge(g, w[0], w[1]);
      TailWalk(g, w);
      ClosedUnderWalk(g, w[1..], s);
    }
  }
}
