/**
 The depth-first search that both the workflow check and the work-package check use: it
 marks what it is visiting and what it has visited, and notes the trail whenever it meets
 a vertex of its own trail. From a root it notes a trail exactly when a cycle can be
 reached from there.
 */
module DepthFirst {
  import opened Graphs
  import opened Sets

  datatype Search = Search(visiting: set<string>, visited: set<string>, trails: seq<seq<string>>) {
    function Seen(): set<string> {
      visiting + visited
    }
  }

  const START := Search({}, {}, [])

  function Visit(g: Graph, id: string, trail: seq<string>, s: Search): (r: Search)
    requires id in g
    ensures s.Seen() <= r.Seen()
    decreases g.Keys - s.Seen(), 0, 0
  {
    if id in s.visiting then s.(trails := s.trails + [trail + [id]])
    else if id in s.visited then s
    else
      assert id in g.Keys - s.Seen();
      var inside := VisitNext(g, g[id], trail + [id], s.(visiting := s.visiting + {id}));
      inside.(visiting := inside.visiting - {id}, visited := inside.visited + {id})
  }

  /** Visits those of the ids that are vertices. */
  function VisitNext(g: Graph, ids: seq<string>, trail: seq<string>, s: Search): (r: Search)
    ensures s.Seen() <= r.Seen()
    decreases g.Keys - s.Seen(), 1, |ids|
  {
    if ids == [] then s
    else if ids[0] in g then VisitNext(g, ids[1..], trail, Visit(g, ids[0], trail, s))
    else VisitNext(g, ids[1..], trail, s)
  }

  // ---------------------------------------------------------------- its meaning

  /** The trail is a path of distinct vertices. */
  ghost predicate IsTrail(g: Graph, trail: seq<string>) {
    && Distinct(trail) && (forall v :: v in trail ==> v in g)
    && forall i :: 0 <= i < |trail| - 1 ==> Edge(g, trail[i], trail[i + 1])
  }

  /** A path that ends by coming back to one of its own vertices. */
  ghost predicate Lasso(g: Graph, w: seq<string>) {
    |w| >= 2 && IsTrail(g, w[..|w| - 1]) && w[|w| - 1] in w[..|w| - 1] && Edge(g, w[|w| - 2], w[|w| - 1])
  }

  /** A cycle can be reached from the vertex. */
  ghost predicate CycleBelow(g: Graph, root: string) {
    exists v, c :: Reaches(g, root, v) && IsCycle(g, c) && c[0] == v
  }

  /** What holds between two steps; `order` lists the visited vertices while no trail is noted. */
  ghost predicate Consistent(g: Graph, s: Search, trail: seq<string>, order: seq<string>) {
    && IsTrail(g, trail) && (forall v :: v in trail <==> v in s.visiting)
    && s.visiting !! s.visited
    && (s.trails == [] ==> Topological(g, order) && forall v :: v in order <==> v in s.visited)
  }

  /** The search only adds to what it visited and noted. */
  ghost predicate Extends(s: Search, r: Search) {
    r.visiting == s.visiting && s.visited <= r.visited && s.trails <= r.trails
  }

  /** Every trail noted since is a lasso from this root. */
  ghost predicate LassosFrom(g: Graph, root: string, trails: seq<seq<string>>) {
    forall w :: w in trails ==> Lasso(g, w) && w[0] == root
  }

  /** The vertices are visited, unless a trail was noted. */
  ghost predicate AllVisited(g: Graph, ids: seq<string>, s: Search) {
    s.trails == [] ==> forall b :: b in ids && b in g ==> b in s.visited
  }

  lemma GrowTrail(g: Graph, trail: seq<string>, id: string)
    requires IsTrail(g, trail) && id in g && id !in trail
    requires trail != [] ==> Edge(g, trail[|trail| - 1], id)
    ensures IsTrail(g, trail + [id])
  {
    var grown := trail + [id];
    forall i | 0 <= i < |grown| - 1 ensures Edge(g, grown[i], grown[i + 1]) {
      if i < |trail| - 1 {
        assert Edge(g, trail[i], trail[i + 1]);
      }
    }
  }

  lemma CloseTrail(g: Graph, trail: seq<string>, id: string)
    requires IsTrail(g, trail) && id in trail && Edge(g, trail[|trail| - 1], id)
    ensures Lasso(g, trail + [id])
  {
    assert (trail + [id])[..|trail|] == trail;
  }

  /** Leaving a vertex all of whose successors are visited extends the order. */
  lemma LeaveVertex(g: Graph, id: string, inside: Search, order: seq<string>)
    requires inside.trails == [] && Topological(g, order) && forall v :: v in order <==> v in inside.visited
    requires id in g && AllVisited(g, g[id], inside)
    ensures Topological(g, order + [id])
  {
    var grown := order + [id];
    forall i, b | 0 <= i < |grown| && Edge(g, grown[i], b) ensures b in grown[..i] {
      if i < |order| {
        assert grown[..i] == order[..i];
      } else {
        assert grown[..i] == order;
      }
    }
  }

  /** What one visit leaves behind. */
  ghost predicate Visited(g: Graph, ids: seq<string>, trail: seq<string>, root: string, s: Search, r: Search,
                          order: seq<string>) {
    && Consistent(g, r, trail, order) && Extends(s, r) && LassosFrom(g, root, r.trails) && AllVisited(g, ids, r)
  }

  lemma {:induction false} VisitMeans(g: Graph, id: string, trail: seq<string>, root: string, s: Search, order: seq<string>)
    returns (order': seq<string>)
    requires Consistent(g, s, trail, order) && id in g && LassosFrom(g, root, s.trails)
    requires trail != [] ==> Edge(g, trail[|trail| - 1], id) && trail[0] == root
    requires trail == [] ==> id == root
    ensures Visited(g, [id], trail, root, s, Visit(g, id, trail, s), order')
    decreases g.Keys - s.Seen(), 0, 1
  {
    order' := order;
    if id in s.visiting {
      CloseTrail(g, trail, id);
    } else if id !in s.visited {
      var entered := s.(visiting := s.visiting + {id});
      GrowTrail(g, trail, id);
      assert id in g.Keys - s.Seen();
      var inner := VisitNextMeans(g, id, g[id], trail + [id], root, entered, order);
      var inside := VisitNext(g, g[id], trail + [id], entered);
      order' := inner + [id];
      if inside.trails == [] {
        LeaveVertex(g, id, inside, inner);
      }
      assert inside.visiting - {id} == s.visiting;
    }
  }

  /** The successors of the last vertex of the trail. */
  lemma {:induction false} VisitNextMeans(g: Graph, top: string, ids: seq<string>, trail: seq<string>, root: string,
                                          s: Search, order: seq<string>)
    returns (order': seq<string>)
    requires Consistent(g, s, trail, order) && LassosFrom(g, root, s.trails)
    requires trail != [] && trail[|trail| - 1] == top && trail[0] == root
    requires forall b :: b in ids ==> b in g[top]
    ensures Visited(g, ids, trail, root, s, VisitNext(g, ids, trail, s), order')
    decreases g.Keys - s.Seen(), 1, |ids|
  {
    order' := order;
    if ids != [] {
      if ids[0] in g {
        assert Edge(g, top, ids[0]);
        order' := VisitMeans(g, ids[0], trail, root, s, order);
        order' := VisitNextMeans(g, top, ids[1..], trail, root, Visit(g, ids[0], trail, s), order');
      } else {
        order' := VisitNextMeans(g, top, ids[1..], trail, root, s, order);
      }
    }
  }

  /** A lasso leads to a cycle. */
  lemma LassoHasCycle(g: Graph, w: seq<string>)
    requires Lasso(g, w)
    ensures CycleBelow(g, w[0])
  {
    var n := |w| - 1;
    var path := w[..n];
    var k :| 0 <= k < n && path[k] == w[n];
    var handle, cycle := w[..k + 1], w[k..];
    forall i | 0 <= i < n ensures Edge(g, w[i], w[i + 1]) {
      if i < n - 1 {
        assert Edge(g, path[i], path[i + 1]);
      }
    }
    assert WalkBetween(g, handle, w[0], w[k]) by {
      forall i | 0 <= i < |handle| - 1 ensures Edge(g, handle[i], handle[i + 1]) {
        assert Edge(g, w[i], w[i + 1]);
      }
    }
    assert IsCycle(g, cycle) by {
      forall i | 0 <= i < |cycle| - 1 ensures Edge(g, cycle[i], cycle[i + 1]) {
        assert Edge(g, w[k + i], w[k + i + 1]);
      }
    }
    assert Reaches(g, w[0], w[k]);
  }

  /** Above a topological order that holds the root no cycle can be reached. */
  lemma NoCycleBelow(g: Graph, order: seq<string>, root: string)
    requires Topological(g, order) && root in order
    ensures !CycleBelow(g, root)
  {
    forall v, c | Reaches(g, root, v) && IsCycle(g, c) && c[0] == v ensures false {
      var w :| WalkBetween(g, w, root, v);
      var all := set x | x in order;
      forall a, b | a in all && Edge(g, a, b) ensures b in all {
        var i :| 0 <= i < |order| && order[i] == a;
        assert b in order[..i];
      }
      ClosedUnderWalk(g, w, all);
      var i :| 0 <= i < |order| && order[i] == v;
      NoCycleFrom(g, order, c, i);
    }
  }

  /** A search from one root notes a trail exactly when a cycle can be reached from the root. */
  lemma SearchFindsCycles(g: Graph, root: string)
    requires root in g
    ensures Visit(g, root, [], START).trails != [] <==> CycleBelow(g, root)
    ensures LassosFrom(g, root, Visit(g, root, [], START).trails)
  {
    var order := VisitMeans(g, root, [], root, START, []);
    var r := Visit(g, root, [], START);
    if r.trails == [] {
      assert root in [root];
      NoCycleBelow(g, order, root);
    } else {
      LassoHasCycle(g, r.trails[0]);
    }
  }

  /** The search over all vertices, one root after the other. */
  function VisitRoots(g: Graph, roots: seq<string>, s: Search): (r: Search)
    decreases |roots|
  {
    if roots == [] then s
    else VisitRoots(g, roots[1..], if roots[0] in g then Visit(g, roots[0], [], s) else s)
  }

  lemma {:induction false} RootsMean(g: Graph, roots: seq<string>, s: Search, order: seq<string>)
    returns (order': seq<string>)
    requires Consistent(g, s, [], order) && s.trails == []
    ensures var r := VisitRoots(g, roots, s);
      if r.trails == [] then Topological(g, order') && forall v :: (v in s.visited || v in roots) && v in g ==> v in order'
      else !Acyclic(g)
    decreases |roots|
  {
    order' := order;
    if roots != [] {
      var root := roots[0];
      if root in g {
        order' := VisitMeans(g, root, [], root, s, order);
        var next := Visit(g, root, [], s);
        assert root in [root];
        if next.trails == [] {
          order' := RootsMean(g, roots[1..], next, order');
        } else {
          LassoHasCycle(g, next.trails[0]);
          TrailsStay(g, roots[1..], next);
        }
      } else {
        order' := RootsMean(g, roots[1..], s, order);
      }
    }
  }

  lemma {:induction false} TrailsStay(g: Graph, roots: seq<string>, s: Search)
    requires s.trails != []
    ensures VisitRoots(g, roots, s).trails != []
    decreases |roots|
  {
    if roots != [] {
      if roots[0] in g {
        TrailsGrow(g, roots[0], [], s);
        TrailsStay(g, roots[1..], Visit(g, roots[0], [], s));
      } else {
        TrailsStay(g, roots[1..], s);
      }
    }
  }

  lemma {:induction false} TrailsGrow(g: Graph, id: string, trail: seq<string>, s: Search)
    requires id in g
    ensures s.trails <= Visit(g, id, trail, s).trails
    decreases g.Keys - s.Seen(), 0, 1
  {
    if id !in s.Seen() {
      assert id in g.Keys - s.Seen();
      NextTrailsGrow(g, g[id], trail + [id], s.(visiting := s.visiting + {id}));
    }
  }

  lemma {:induction false} NextTrailsGrow(g: Graph, ids: seq<string>, trail: seq<string>, s: Search)
    ensures s.trails <= VisitNext(g, ids, trail, s).trails
    decreases g.Keys - s.Seen(), 1, |ids|
  {
    if ids != [] {
      if ids[0] in g {
        TrailsGrow(g, ids[0], trail, s);
        NextTrailsGrow(g, ids[1..], trail, Visit(g, ids[0], trail, s));
      } else {
        NextTrailsGrow(g, ids[1..], trail, s);
      }
    }
  }

  /** Searching from every vertex notes nothing exactly when the graph has no cycle. */
  lemma FullSearchFindsCycles(g: Graph, roots: seq<string>)
    requires forall v :: v in g <==> v in roots
    ensures VisitRoots(g, roots, START).trails == [] <==> Acyclic(g)
  {
    var order := RootsMean(g, roots, START, []);
    if VisitRoots(g, roots, START).trails == [] {
      TopologicalIsAcyclic(g, order);
    }
  }

  // ---------------------------------------------------------------- graphs without cycles

  lemma {:induction false} ListOf(s: set<string>) returns (list: seq<string>)
    ensures forall v :: v in list <==> v in s
    decreases s
  {
    list := [];
    if s != {} {
      var v :| v in s;
      var rest := ListOf(s - {v});
      list := [v] + rest;
    }
  }

  /** A graph without cycles can be listed with every edge leading back. */
  lemma TopologicalOrder(g: Graph) returns (order: seq<string>)
    requires Acyclic(g)
    ensures Topological(g, order) && forall v :: v in g ==> v in order
  {
    var roots := ListOf(g.Keys);
    FullSearchFindsCycles(g, roots);
    order := RootsMean(g, roots, START, []);
  }

  /** Every nonempty set of its vertices has one with no edge back into the set. */
  lemma SinkIn(g: Graph, s: set<string>) returns (v: string)
    requires Acyclic(g) && s != {} && s <= g.Keys
    ensures v in s && forall b :: Edge(g, v, b) ==> b !in s
  {
    var order := TopologicalOrder(g);
    v :| v in s;
    var i :| 0 <= i < |order| && order[i] == v;
    i := FirstIn(order, s, i);
    v := order[i];
  }

  lemma {:induction false} FirstIn(order: seq<string>, s: set<string>, i: nat) returns (k: nat)
    requires i < |order| && order[i] in s
    ensures k < |order| && order[k] in s && forall b :: b in order[..k] ==> b !in s
    decreases i
  {
    k := i;
    if j :| 0 <= j < i && order[j] in s {
      k := FirstIn(order, s, j);
    }
  }
}
