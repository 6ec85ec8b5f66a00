/**
 The layered drawing of a workflow: depths by a memoised search, one column of cards for each
 depth, and curves from dependencies to dependents.
 */
module Layout {
  import opened Wrappers
  import opened Graphs
  import opened Numbers
  import DepthFirst

  const CARD_WIDTH := 216.0
  const CARD_HEIGHT := 114.0
  const GAP_X := 78.0
  const GAP_Y := 52.0
  const PADDING := 30.0

  datatype GraphNode = GraphNode(id: string, dependsOn: seq<string>)

  datatype Fault = WrongSize | InvalidNode | DependencyCycle | UnknownDependency

  // ---------------------------------------------------------------- depths

  type Depths = map<string, nat>

  /** The depths known after asking for one more. */
  function DepthOf(g: Graph, id: string, visiting: set<string>, depths: Depths): (r: Result<Depths, Fault>)
    ensures r.Ok? ==> id in r.value
    decreases g.Keys - visiting, 0, 0
  {
    if id in depths then Ok(depths)
    else if id in visiting then Err(DependencyCycle)
    else if id !in g then Err(UnknownDependency)
    else
      assert id in g.Keys - visiting;
      match DepthOfAll(g, g[id], visiting + {id}, depths, 0)
      case Err(f) => Err(f)
      case Ok(deeper) => Ok(deeper.0[id := deeper.1])
  }

  /** One more than the greatest depth of these, if any, and the depths known after asking. */
  function DepthOfAll(g: Graph, dependsOn: seq<string>, visiting: set<string>, depths: Depths,
                      depth: nat): Result<(Depths, nat), Fault>
    decreases g.Keys - visiting, 1, |dependsOn|
  {
    if dependsOn == [] then Ok((depths, depth))
    else if dependsOn[0] !in g then Err(UnknownDependency)
    else
      match DepthOf(g, dependsOn[0], visiting, depths)
      case Err(f) => Err(f)
      case Ok(known) => DepthOfAll(g, dependsOn[1..], visiting, known, Max(depth, known[dependsOn[0]] + 1))
  }

  function AllDepths(g: Graph, ids: seq<string>, depths: Depths): Result<Depths, Fault> {
    if ids == [] then Ok(depths)
    else
      match DepthOf(g, ids[0], {}, depths)
      case Err(f) => Err(f)
      case Ok(known) => AllDepths(g, ids[1..], known)
  }

  // ---------------------------------------------------------------- what depths mean

  /** One more than the greatest depth of the dependencies; nothing without dependencies. */
  ghost predicate RightDepth(dependsOn: seq<string>, depths: Depths, depth: nat) {
    && (forall d :: d in dependsOn ==> d in depths && depths[d] + 1 <= depth)
    && (depth > 0 ==> exists d :: d in dependsOn && d in depths && depths[d] + 1 == depth)
  }

  ghost predicate RightDepths(g: Graph, depths: Depths) {
    forall id :: id in depths ==> id in g && RightDepth(g[id], depths, depths[id])
  }

  ghost predicate Grows(before: Depths, after: Depths) {
    forall id :: id in before ==> id in after && after[id] == before[id]
  }

  /** The graph cannot be drawn: a cycle, or a dependency that is no node. */
  ghost predicate Undrawable(g: Graph, f: Fault) {
    match f
    case DependencyCycle => !Acyclic(g)
    case UnknownDependency => exists n, d :: Dangles(g, n, d)
    case _ => false
  }

  ghost predicate Dangles(g: Graph, n: string, d: string) {
    n in g && d in g[n] && d !in g
  }

  /** What asking for a depth leaves behind. */
  ghost predicate Asked(g: Graph, visiting: set<string>, depths: Depths, r: Result<Depths, Fault>) {
    match r
    case Ok(known) => RightDepths(g, known) && Grows(depths, known) && known.Keys !! visiting
    case Err(f) => Undrawable(g, f)
  }

  lemma RightDepthGrows(dependsOn: seq<string>, depths: Depths, after: Depths, depth: nat)
    requires RightDepth(dependsOn, depths, depth) && Grows(depths, after)
    ensures RightDepth(dependsOn, after, depth)
  {
  }

  /** A new right depth may be added to right depths. */
  lemma AddDepth(g: Graph, depths: Depths, id: string, depth: nat)
    requires RightDepths(g, depths) && id in g && id !in depths && RightDepth(g[id], depths, depth)
    ensures RightDepths(g, depths[id := depth])
  {
    var after := depths[id := depth];
    forall n | n in after ensures n in g && RightDepth(g[n], after, after[n]) {
      RightDepthGrows(g[n], depths, after, after[n]);
    }
  }

  /** The depth of the last dependency joins the maximum. */
  lemma SnocDepth(done: seq<string>, next: string, before: Depths, known: Depths, depth: nat)
    requires RightDepth(done, before, depth) && Grows(before, known) && next in known
    ensures RightDepth(done + [next], known, Max(depth, known[next] + 1))
  {
    RightDepthGrows(done, before, known, depth);
    var all := done + [next];
    if Max(depth, known[next] + 1) == depth && depth > 0 {
      var d :| d in done && d in known && known[d] + 1 == depth;
      assert d in all;
    } else {
      assert next in all;
    }
  }

  /** What asking for several depths leaves behind; `all` were asked, now or before. */
  ghost predicate AskedAll(g: Graph, visiting: set<string>, depths: Depths, all: seq<string>,
                           r: Result<(Depths, nat), Fault>) {
    match r
    case Ok(found) => Asked(g, visiting, depths, Ok(found.0)) && RightDepth(all, found.0, found.1)
    case Err(f) => Undrawable(g, f)
  }

  lemma AskedOn(g: Graph, visiting: set<string>, depths: Depths, known: Depths, all: seq<string>,
                r: Result<(Depths, nat), Fault>)
    requires Grows(depths, known) && AskedAll(g, visiting, known, all, r)
    ensures AskedAll(g, visiting, depths, all, r)
  {
  }

  lemma {:induction false} DepthOfMeans(g: Graph, id: string, trail: seq<string>, visiting: set<string>, depths: Depths)
    requires RightDepths(g, depths) && depths.Keys !! visiting && id in g
    requires DepthFirst.IsTrail(g, trail) && forall v :: v in trail <==> v in visiting
    requires trail != [] ==> Edge(g, trail[|trail| - 1], id)
    ensures Asked(g, visiting, depths, DepthOf(g, id, visiting, depths))
    decreases g.Keys - visiting, 0, 0
  {
    if id in depths {
    } else if id in visiting {
      DepthFirst.CloseTrail(g, trail, id);
      DepthFirst.LassoHasCycle(g, trail + [id]);
    } else {
      assert id in g.Keys - visiting;
      DepthFirst.GrowTrail(g, trail, id);
      DepthOfAllMeans(g, id, [], g[id], trail + [id], visiting + {id}, depths, 0);
      assert [] + g[id] == g[id];
      AnsweredDepth(g, id, visiting, depths, DepthOfAll(g, g[id], visiting + {id}, depths, 0), DepthOf(g, id, visiting, depths));
    }
  }

  /** A vertex whose dependencies were asked gets its depth. */
  lemma AnsweredDepth(g: Graph, id: string, visiting: set<string>, depths: Depths, below: Result<(Depths, nat), Fault>,
                      r: Result<Depths, Fault>)
    requires id in g && id !in depths && id !in visiting && AskedAll(g, visiting + {id}, depths, g[id], below)
    requires r == if below.Err? then Err(below.error) else Ok(below.value.0[id := below.value.1])
    ensures Asked(g, visiting, depths, r)
  {
    if below.Ok? {
      AddDepth(g, below.value.0, id, below.value.1);
    }
  }

  /** The dependencies of the last vertex of the trail; `done` were asked before. */
  lemma {:induction false} DepthOfAllMeans(g: Graph, top: string, done: seq<string>, dependsOn: seq<string>,
                                           trail: seq<string>, visiting: set<string>, depths: Depths, depth: nat)
    requires RightDepths(g, depths) && depths.Keys !! visiting && RightDepth(done, depths, depth)
    requires DepthFirst.IsTrail(g, trail) && forall v :: v in trail <==> v in visiting
    requires trail != [] && trail[|trail| - 1] == top && forall d :: d in dependsOn ==> d in g[top]
    ensures AskedAll(g, visiting, depths, done + dependsOn, DepthOfAll(g, dependsOn, visiting, depths, depth))
    decreases g.Keys - visiting, 1, 2 * |dependsOn|
  {
    if dependsOn == [] {
      assert done + dependsOn == done;
    } else if dependsOn[0] !in g {
      assert Dangles(g, top, dependsOn[0]);
    } else {
      var next := dependsOn[0];
      assert Edge(g, top, next);
      DepthOfMeans(g, next, trail, visiting, depths);
      var r := DepthOf(g, next, visiting, depths);
      DepthOfAllGoesOn(g, dependsOn, visiting, depths, depth);
      if r.Ok? {
        DepthOfRestMeans(g, top, done, dependsOn, trail, visiting, depths, depth, r.value);
      }
    }
  }

  lemma DepthOfAllGoesOn(g: Graph, dependsOn: seq<string>, visiting: set<string>, depths: Depths, depth: nat)
    requires dependsOn != [] && dependsOn[0] in g
    ensures var r := DepthOf(g, dependsOn[0], visiting, depths);
            DepthOfAll(g, dependsOn, visiting, depths, depth) ==
              if r.Err? then Err(r.error)
              else DepthOfAll(g, dependsOn[1..], visiting, r.value, Max(depth, r.value[dependsOn[0]] + 1))
  {
  }

  /** The same, once the first of the dependencies has its depth. */
  lemma {:induction false} DepthOfRestMeans(g: Graph, top: string, done: seq<string>, dependsOn: seq<string>,
                                            trail: seq<string>, visiting: set<string>, depths: Depths, depth: nat,
                                            known: Depths)
    requires RightDepth(done, depths, depth) && Asked(g, visiting, depths, Ok(known))
    requires DepthFirst.IsTrail(g, trail) && forall v :: v in trail <==> v in visiting
    requires trail != [] && trail[|trail| - 1] == top && forall d :: d in dependsOn ==> d in g[top]
    requires dependsOn != [] && dependsOn[0] in known
    ensures AskedAll(g, visiting, depths, done + dependsOn,
                     DepthOfAll(g, dependsOn[1..], visiting, known, Max(depth, known[dependsOn[0]] + 1)))
    decreases g.Keys - visiting, 1, 2 * |dependsOn| - 1
  {
    var next, rest := dependsOn[0], dependsOn[1..];
    var deepest := Max(depth, known[next] + 1);
    SnocDepth(done, next, depths, known, depth);
    DepthOfAllMeans(g, top, done + [next], rest, trail, visiting, known, deepest);
    assert (done + [next]) + rest == done + dependsOn;
    AskedOn(g, visiting, depths, known, done + dependsOn, DepthOfAll(g, rest, visiting, known, deepest));
  }

  lemma {:induction false} AllDepthsMean(g: Graph, ids: seq<string>, depths: Depths)
    requires RightDepths(g, depths) && forall id :: id in ids ==> id in g
    ensures match AllDepths(g, ids, depths)
            case Err(f) => Undrawable(g, f)
            case Ok(r) => RightDepths(g, r) && Grows(depths, r) && forall id :: id in ids ==> id in r
    decreases |ids|
  {
    if ids != [] {
      DepthOfMeans(g, ids[0], [], {}, depths);
      var r := DepthOf(g, ids[0], {}, depths);
      if r.Ok? {
        AllDepthsMean(g, ids[1..], r.value);
      }
    }
  }

  /** Along every walk right depths fall by at least one a step. */
  lemma {:induction false} DepthFallsAlong(g: Graph, depths: Depths, w: seq<string>)
    requires RightDepths(g, depths) && depths.Keys == g.Keys && IsWalk(g, w)
    ensures w[|w| - 1] in g && depths[w[|w| - 1]] + |w| <= depths[w[0]] + 1
    decreases |w|
  {
    if |w| > 1 {
      assert Edge(g, w[0], w[1]);
      assert RightDepth(g[w[0]], depths, depths[w[0]]);
      TailWalk(g, w);
      DepthFallsAlong(g, depths, w[1..]);
    }
  }

  /** And some walk is as long as its depth. */
  lemma {:induction false} DepthHasWalk(g: Graph, depths: Depths, id: string) returns (w: seq<string>)
    requires RightDepths(g, depths) && depths.Keys == g.Keys && id in g
    ensures IsWalk(g, w) && w[0] == id && |w| == depths[id] + 1
    decreases depths[id]
  {
    assert RightDepth(g[id], depths, depths[id]);
    if depths[id] == 0 {
      w := [id];
    } else {
      var d :| d in g[id] && d in depths && depths[d] + 1 == depths[id];
      var rest := DepthHasWalk(g, depths, d);
      w := [id] + rest;
      forall i | 0 <= i < |w| - 1 ensures Edge(g, w[i], w[i + 1]) {
        if i > 0 {
          assert Edge(g, rest[i - 1], rest[i - 1 + 1]);
        }
      }
    }
  }

  lemma RightDepthsAreAcyclic(g: Graph, depths: Depths)
    requires RightDepths(g, depths) && depths.Keys == g.Keys
    ensures Acyclic(g)
  {
    forall w ensures !IsCycle(g, w) {
      if IsCycle(g, w) {
        DepthFallsAlong(g, depths, w);
      }
    }
  }
}
