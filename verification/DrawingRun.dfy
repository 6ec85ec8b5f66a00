/** The layout as it runs: maps filled node by node, a memoised search, columns and cards pushed in loops. */
module DrawingRun {
  import opened Wrappers
  import opened Graphs
  import opened Ordering
  import opened Numbers
  import Layout
  import opened Drawing

  class DepthSearch {
    var depths: Layout.Depths
    var visiting: set<string>

    constructor ()
      ensures depths == map[] && visiting == {}
    {
      depths, visiting := map[], {};
    }

    /** On success `visiting` is as before; a fault abandons the search. */
    method DepthOf(g: Graph, id: string) returns (r: Result<nat, Layout.Fault>)
      modifies this
      ensures match Layout.DepthOf(g, id, old(visiting), old(depths))
              case Ok(known) => r == Ok(known[id]) && depths == known && visiting == old(visiting)
              case Err(f) => r == Err(f)
      decreases g.Keys - visiting
    {
      if id in depths { return Ok(depths[id]); }
      if id in visiting { return Err(Layout.DependencyCycle); }
      if id !in g { return Err(Layout.UnknownDependency); }
      assert id in g.Keys - visiting;
      ghost var outside := visiting;
      visiting := visiting + {id};
      var depth: nat, k, dependsOn := 0, 0, g[id];
      while k < |dependsOn|
        invariant k <= |dependsOn| && visiting == outside + {id}
        invariant Layout.DepthOfAll(g, dependsOn, visiting, old(depths), 0) == Layout.DepthOfAll(g, dependsOn[k..], visiting, depths, depth)
      {
        if dependsOn[k] !in g { return Err(Layout.UnknownDependency); }
        var below := DepthOf(g, dependsOn[k]);
        if below.Err? { return Err(below.error); }
        depth := Max(depth, below.value + 1);
        k := k + 1;
      }
      visiting := visiting - {id};
      assert visiting == outside;
      depths := depths[id := depth];
      r := Ok(depth);
    }
  }

  /** A proper list stays so by a new nonempty id, and only so. */
  lemma ProperSnoc(nodes: seq<Layout.GraphNode>, k: nat)
    requires k < |nodes| && ProperIds(nodes[..k])
    ensures ProperIds(nodes[..k + 1]) <==> nodes[k].id != "" && nodes[k].id !in NodeGraph(nodes[..k])
  {
    GraphHolds(nodes[..k]);
    var ids := NodeIds(nodes[..k]);
    if nodes[k].id in NodeGraph(nodes[..k]) {
      var j := NodeOf(nodes[..k], nodes[k].id);
      assert nodes[..k + 1][j].id == nodes[..k + 1][k].id;
    } else {
      forall j | 0 <= j < k ensures nodes[j].id != nodes[k].id {
        assert ids[j] == nodes[j].id;
      }
    }
  }

  lemma ImproperStays(nodes: seq<Layout.GraphNode>, k: nat)
    requires k <= |nodes| && ProperIds(nodes)
    ensures ProperIds(nodes[..k])
  {
  }

  /** The nodes by id and their places, if the ids are proper. */
  method IndexNodes(nodes: seq<Layout.GraphNode>) returns (proper: bool, g: Graph, places: map<string, nat>)
    ensures proper == ProperIds(nodes)
    ensures proper ==> g == NodeGraph(nodes) && places == Places(nodes)
  {
    proper, g, places := true, map[], map[];
    for k := 0 to |nodes|
      invariant ProperIds(nodes[..k]) && g == NodeGraph(nodes[..k]) && places == Places(nodes[..k])
    {
      ProperSnoc(nodes, k);
      var node := nodes[k];
      if node.id == "" || node.id in g {
        proper := false;
        if ProperIds(nodes) {
          ImproperStays(nodes, k + 1);
        }
        return;
      }
      assert nodes[..k + 1][..k] == nodes[..k];
      g := g[node.id := node.dependsOn];
      places := places[node.id := k];
    }
    assert nodes[..|nodes|] == nodes;
  }

  method FindDepths(g: Graph, ids: seq<string>) returns (r: Result<Layout.Depths, Layout.Fault>)
    ensures r == Layout.AllDepths(g, ids, map[])
  {
    var search := new DepthSearch();
    var k := 0;
    while k < |ids|
      invariant k <= |ids| && search.visiting == {}
      invariant Layout.AllDepths(g, ids, map[]) == Layout.AllDepths(g, ids[k..], search.depths)
    {
      var depth := search.DepthOf(g, ids[k]);
      if depth.Err? { return Err(depth.error); }
      k := k + 1;
    }
    r := Ok(search.depths);
  }

  /** Pushes each id to the column of its depth, then sorts the columns. */
  method FillColumns(ids: seq<string>, depths: Layout.Depths, lastDepth: nat, order: Order<string>)
    returns (columns: seq<seq<string>>)
    requires forall k :: 0 <= k < |ids| ==> ids[k] in depths && depths[ids[k]] <= lastDepth
    ensures columns == Columns(ids, depths, lastDepth + 1, order)
  {
    columns := seq(lastDepth + 1, _ => []);
    for k := 0 to |ids|
      invariant |columns| == lastDepth + 1
      invariant forall d :: 0 <= d <= lastDepth ==> columns[d] == Column(ids[..k], depths, d)
    {
      assert ids[..k + 1][..k] == ids[..k];
      var depth := depths[ids[k]];
      columns := columns[depth := columns[depth] + [ids[k]]];
    }
    assert ids[..|ids|] == ids;
    for d := 0 to |columns|
      invariant |columns| == lastDepth + 1
      invariant forall e :: 0 <= e < d ==> columns[e] == Sort(Column(ids, depths, e), order)
      invariant forall e :: d <= e <= lastDepth ==> columns[e] == Column(ids, depths, e)
    {
      columns := columns[d := Sort(columns[d], order)];
    }
  }

  lemma PushCard(before: seq<Card>, all: seq<Card>, row: nat, card: Card)
    requires row < |all| && all[row] == card
    ensures before + all[..row + 1] == (before + all[..row]) + [card]
    ensures CardsById((before + all[..row]) + [card]) == CardsById(before + all[..row])[card.id := card]
  {
    var cards := before + all[..row];
    assert (cards + [card])[..|cards|] == cards;
  }

  method PlaceColumn(column: seq<string>, depth: nat, height: real, before: seq<Card>, beforeById: map<string, Card>)
    returns (cards: seq<Card>, byId: map<string, Card>)
    requires beforeById == CardsById(before)
    ensures cards == before + ColumnCards(column, depth, height) && byId == CardsById(cards)
  {
    cards, byId := before, beforeById;
    ghost var all := ColumnCards(column, depth, height);
    for row := 0 to |column|
      invariant cards == before + all[..row] && byId == CardsById(cards)
    {
      var card := CardAt(column, depth, row, height);
      PushCard(before, all, row, card);
      cards := cards + [card];
      byId := byId[card.id := card];
    }
    assert all[..|column|] == all;
  }

  method PlaceCards(columns: seq<seq<string>>, height: real) returns (cards: seq<Card>, byId: map<string, Card>)
    ensures cards == Cards(columns, height) && byId == CardsById(cards)
  {
    cards, byId := [], map[];
    for depth := 0 to |columns|
      invariant cards == Cards(columns[..depth], height) && byId == CardsById(cards)
    {
      assert columns[..depth + 1][..depth] == columns[..depth];
      cards, byId := PlaceColumn(columns[depth], depth, height, cards, byId);
    }
    assert columns[..|columns|] == columns;
  }

  method DrawCurves(nodes: seq<Layout.GraphNode>, byId: map<string, Card>) returns (curves: seq<Curve>)
    requires forall k :: 0 <= k < |nodes| ==> nodes[k].id in byId && forall d :: d in nodes[k].dependsOn ==> d in byId
    ensures curves == Curves(nodes, byId)
  {
    curves := [];
    for k := 0 to |nodes|
      invariant curves == Curves(nodes[..k], byId)
    {
      assert nodes[..k + 1][..k] == nodes[..k];
      var to, dependsOn := byId[nodes[k].id], nodes[k].dependsOn;
      ghost var before := curves;
      for j := 0 to |dependsOn|
        invariant curves == before + CurvesTo(to, dependsOn[..j], byId)
      {
        assert dependsOn[..j + 1][..j] == dependsOn[..j];
        assert dependsOn[j] in dependsOn;
        curves := curves + [CurveBetween(byId[dependsOn[j]], to)];
      }
      assert dependsOn[..|dependsOn|] == dependsOn;
    }
    assert nodes[..|nodes|] == nodes;
  }

  method LayoutWorkflowGraph(nodes: seq<Layout.GraphNode>) returns (r: Result<Canvas, Layout.Fault>)
    ensures r == LayOut(nodes)
  {
    if nodes == [] || |nodes| > 60 { return Err(Layout.WrongSize); }
    var proper, g, places := IndexNodes(nodes);
    if !proper { return Err(Layout.InvalidNode); }
    var ids := NodeIds(nodes);
    var found := FindDepths(g, ids);
    if found.Err? { return Err(found.error); }
    DepthsDescend(nodes, found.value);
    var canvas := DrawAll(nodes, found.value, Before(g, places));
    r := Ok(canvas);
  }

  method DrawAll(nodes: seq<Layout.GraphNode>, depths: Layout.Depths, order: Order<string>) returns (canvas: Canvas)
    requires Descending(nodes, depths)
    ensures canvas == Draw(nodes, depths, order)
  {
    var ids := NodeIds(nodes);
    var lastDepth := LastDepth(ids, depths);
    LastDepthBounds(ids, depths);
    var columns := FillColumns(ids, depths, lastDepth, order);
    var cards, byId := PlaceCards(columns, CanvasHeight(columns));
    CardsReached(nodes, depths, order, byId);
    var curves := DrawCurves(nodes, byId);
    canvas := Canvas(CanvasWidth(lastDepth), CanvasHeight(columns), cards, curves);
  }

  lemma DepthsDescend(nodes: seq<Layout.GraphNode>, depths: Layout.Depths)
    requires ProperIds(nodes) && Layout.AllDepths(NodeGraph(nodes), NodeIds(nodes), map[]) == Ok(depths)
    ensures Descending(nodes, depths)
  {
    GraphHolds(nodes);
    DepthsFoundExactly(NodeGraph(nodes), NodeIds(nodes));
    RightDepthsDescend(nodes, depths);
  }

  /** Every node and every dependency has its card when the curves are drawn. */
  lemma CardsReached(nodes: seq<Layout.GraphNode>, depths: Layout.Depths, order: Order<string>, byId: map<string, Card>)
    requires Descending(nodes, depths) && byId == CardsById(Draw(nodes, depths, order).cards)
    ensures forall k :: 0 <= k < |nodes| ==> nodes[k].id in byId && forall d :: d in nodes[k].dependsOn ==> d in byId
  {
    forall k | 0 <= k < |nodes| ensures nodes[k].id in byId {
      CardOfNode(nodes, depths, order, k);
    }
    forall k, d | 0 <= k < |nodes| && d in nodes[k].dependsOn ensures d in byId {
      var j := NodeOf(nodes, d);
    }
  }
}
