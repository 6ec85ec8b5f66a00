/** Columns, cards and curves, once the depths are known. */
module Drawing {
  import opened Wrappers
  import opened Graphs
  import opened Ordering
  import opened Layout
  import opened Numbers
  import opened Bags
  import opened Sets

  datatype Card = Card(id: string, depth: nat, x: real, y: real)

  /** A curve from the right edge of one card to the left edge of another, with its bend. */
  datatype Curve = Curve(from: string, to: string, x1: real, y1: real, x2: real, y2: real, bend: real)

  datatype Canvas = Canvas(width: real, height: real, cards: seq<Card>, curves: seq<Curve>)

  function NodeIds(nodes: seq<GraphNode>): (ids: seq<string>)
    ensures |ids| == |nodes| && forall k :: 0 <= k < |ids| ==> ids[k] == nodes[k].id
  {
    Mapped(nodes, (node: GraphNode) => node.id)
  }

  function NodeGraph(nodes: seq<GraphNode>): Graph {
    if nodes == [] then map[]
    else NodeGraph(nodes[..|nodes| - 1])[nodes[|nodes| - 1].id := nodes[|nodes| - 1].dependsOn]
  }

  /** The authored index of each node. */
  function Places(nodes: seq<GraphNode>): map<string, nat> {
    if nodes == [] then map[]
    else Places(nodes[..|nodes| - 1])[nodes[|nodes| - 1].id := |nodes| - 1]
  }

  /** No id is empty or repeated. */
  predicate ProperIds(nodes: seq<GraphNode>) {
    && (forall k :: 0 <= k < |nodes| ==> nodes[k].id != "")
    && forall j, k :: 0 <= j < k < |nodes| ==> nodes[j].id != nodes[k].id
  }

  // ---------------------------------------------------------------- columns

  function PlaceOf(places: map<string, nat>, id: string): nat {
    if id in places then places[id] else 0
  }

  function SumPlaces(places: map<string, nat>, ids: seq<string>): nat {
    if ids == [] then 0 else SumPlaces(places, ids[..|ids| - 1]) + PlaceOf(places, ids[|ids| - 1])
  }

  /** The average place of the dependencies, or the node's own place. */
  function Gravity(g: Graph, places: map<string, nat>, id: string): real {
    if id in g && g[id] != [] then SumPlaces(places, g[id]) as real / |g[id]| as real else PlaceOf(places, id) as real
  }

  function Before(g: Graph, places: map<string, nat>): Order<string> {
    (a, b) =>
      Gravity(g, places, a) < Gravity(g, places, b) ||
      (Gravity(g, places, a) == Gravity(g, places, b) && PlaceOf(places, a) <= PlaceOf(places, b))
  }

  /** The ids of one depth in authored order. */
  function Column(ids: seq<string>, depths: Depths, depth: nat): seq<string> {
    if ids == [] then []
    else
      var last := ids[|ids| - 1];
      Column(ids[..|ids| - 1], depths, depth) + if last in depths && depths[last] == depth then [last] else []
  }

  function LastDepth(ids: seq<string>, depths: Depths): nat {
    if ids == [] then 0
    else
      var last := ids[|ids| - 1];
      Max(LastDepth(ids[..|ids| - 1], depths), if last in depths then depths[last] else 0)
  }

  function Columns(ids: seq<string>, depths: Depths, count: nat, order: Order<string>): (columns: seq<seq<string>>)
    ensures |columns| == count
  {
    seq(count, d requires 0 <= d < count => Sort(Column(ids, depths, d), order))
  }

  function MaxRows(columns: seq<seq<string>>): nat {
    if columns == [] then 0 else Max(MaxRows(columns[..|columns| - 1]), |columns[|columns| - 1]|)
  }

  // ---------------------------------------------------------------- cards

  function StackHeight(rows: nat): real {
    rows as real * CARD_HEIGHT + (rows as real - 1.0) * GAP_Y
  }

  function CardAt(column: seq<string>, depth: nat, row: nat, height: real): Card
    requires row < |column|
  {
    var start := PADDING + (height - PADDING * 2.0 - StackHeight(|column|)) / 2.0;
    Card(column[row], depth, PADDING + depth as real * (CARD_WIDTH + GAP_X), start + row as real * (CARD_HEIGHT + GAP_Y))
  }

  function ColumnCards(column: seq<string>, depth: nat, height: real): (cards: seq<Card>)
    ensures |cards| == |column| && forall r :: 0 <= r < |cards| ==> cards[r] == CardAt(column, depth, r, height)
  {
    seq(|column|, r requires 0 <= r < |column| => CardAt(column, depth, r, height))
  }

  function Cards(columns: seq<seq<string>>, height: real): seq<Card> {
    if columns == [] then []
    else Cards(columns[..|columns| - 1], height) + ColumnCards(columns[|columns| - 1], |columns| - 1, height)
  }

  function CardsById(cards: seq<Card>): map<string, Card> {
    if cards == [] then map[] else CardsById(cards[..|cards| - 1])[cards[|cards| - 1].id := cards[|cards| - 1]]
  }

  // ---------------------------------------------------------------- curves

  function MaxReal(a: real, b: real): real {
    if a >= b then a else b
  }

  function CurveBetween(from: Card, to: Card): Curve {
    var x1, x2 := from.x + CARD_WIDTH, to.x;
    Curve(from.id, to.id, x1, from.y + CARD_HEIGHT / 2.0, x2, to.y + CARD_HEIGHT / 2.0, MaxReal(20.0, (x2 - x1) * 0.45))
  }

  function CurvesTo(to: Card, dependsOn: seq<string>, byId: map<string, Card>): seq<Curve> {
    if dependsOn == [] then []
    else
      var last := dependsOn[|dependsOn| - 1];
      CurvesTo(to, dependsOn[..|dependsOn| - 1], byId) + if last in byId then [CurveBetween(byId[last], to)] else []
  }

  function Curves(nodes: seq<GraphNode>, byId: map<string, Card>): seq<Curve> {
    if nodes == [] then []
    else
      var last := nodes[|nodes| - 1];
      Curves(nodes[..|nodes| - 1], byId) + if last.id in byId then CurvesTo(byId[last.id], last.dependsOn, byId) else []
  }

  // ---------------------------------------------------------------- the canvas

  /** The columns of these nodes, each depth's ids in their final order. */
  function ColumnsOf(nodes: seq<GraphNode>, depths: Depths, order: Order<string>): seq<seq<string>> {
    Columns(NodeIds(nodes), depths, LastDepth(NodeIds(nodes), depths) + 1, order)
  }

  function CanvasHeight(columns: seq<seq<string>>): real {
    PADDING * 2.0 + StackHeight(MaxRows(columns))
  }

  function CanvasWidth(lastDepth: nat): real {
    PADDING * 2.0 + (lastDepth as real + 1.0) * CARD_WIDTH + lastDepth as real * GAP_X
  }

  function Draw(nodes: seq<GraphNode>, depths: Depths, order: Order<string>): Canvas {
    var columns := ColumnsOf(nodes, depths, order);
    var cards := Cards(columns, CanvasHeight(columns));
    Canvas(CanvasWidth(LastDepth(NodeIds(nodes), depths)), CanvasHeight(columns), cards, Curves(nodes, CardsById(cards)))
  }

  function LayOut(nodes: seq<GraphNode>): Result<Canvas, Fault> {
    if nodes == [] || |nodes| > 60 then Err(WrongSize)
    else if !ProperIds(nodes) then Err(InvalidNode)
    else
      match AllDepths(NodeGraph(nodes), NodeIds(nodes), map[])
      case Err(f) => Err(f)
      case Ok(depths) => Ok(Draw(nodes, depths, Before(NodeGraph(nodes), Places(nodes))))
  }

  // ---------------------------------------------------------------- which graphs are drawn

  lemma {:induction false} GraphHolds(nodes: seq<GraphNode>)
    ensures forall id :: id in NodeGraph(nodes) <==> id in NodeIds(nodes)
    ensures forall id :: id in Places(nodes) <==> id in NodeIds(nodes)
    ensures ProperIds(nodes) ==> forall k :: 0 <= k < |nodes| ==> NodeGraph(nodes)[nodes[k].id] == nodes[k].dependsOn
  {
    if nodes != [] {
      var rest, last := nodes[..|nodes| - 1], nodes[|nodes| - 1];
      GraphHolds(rest);
      assert NodeIds(nodes) == NodeIds(rest) + [last.id];
      if ProperIds(nodes) {
        forall k | 0 <= k < |nodes| ensures NodeGraph(nodes)[nodes[k].id] == nodes[k].dependsOn {
          if k < |rest| {
            assert rest[k] == nodes[k];
          }
        }
      }
    }
  }

  /** Every dependency is a node. */
  ghost predicate AllKnown(g: Graph) {
    forall n, d :: n in g && d in g[n] ==> d in g
  }

  /** The depths of all nodes are found exactly when dependencies are known and no cycle stands in the way. */
  lemma DepthsFoundExactly(g: Graph, ids: seq<string>)
    requires forall id :: id in g <==> id in ids
    ensures AllDepths(g, ids, map[]).Ok? <==> AllKnown(g) && Acyclic(g)
    ensures AllDepths(g, ids, map[]).Ok? ==> RightDepths(g, AllDepths(g, ids, map[]).value) && AllDepths(g, ids, map[]).value.Keys == g.Keys
  {
    AllDepthsMean(g, ids, map[]);
    var r := AllDepths(g, ids, map[]);
    if r.Ok? {
      assert r.value.Keys == g.Keys;
      RightDepthsAreAcyclic(g, r.value);
      forall n, d | n in g && d in g[n] ensures d in g {
        assert RightDepth(g[n], r.value, r.value[n]);
      }
    }
  }

  /** A graph is drawn exactly when it has 1 to 60 nodes under proper ids, known dependencies and no cycle. */
  lemma DrawnExactly(nodes: seq<GraphNode>)
    ensures LayOut(nodes).Ok? <==> 1 <= |nodes| <= 60 && ProperIds(nodes) && AllKnown(NodeGraph(nodes)) && Acyclic(NodeGraph(nodes))
  {
    GraphHolds(nodes);
    DepthsFoundExactly(NodeGraph(nodes), NodeIds(nodes));
  }

  // ---------------------------------------------------------------- what the columns hold

  lemma {:induction false} ColumnHolds(ids: seq<string>, depths: Depths, depth: nat)
    ensures forall id :: id in Column(ids, depths, depth) <==> id in ids && id in depths && depths[id] == depth
  {
    if ids != [] {
      ColumnHolds(ids[..|ids| - 1], depths, depth);
      assert ids == ids[..|ids| - 1] + [ids[|ids| - 1]];
    }
  }

  lemma {:induction false} LastDepthBounds(ids: seq<string>, depths: Depths)
    ensures forall k :: 0 <= k < |ids| && ids[k] in depths ==> depths[ids[k]] <= LastDepth(ids, depths)
  {
    if ids != [] {
      LastDepthBounds(ids[..|ids| - 1], depths);
    }
  }

  lemma {:induction false} LastDepthOccurs(ids: seq<string>, depths: Depths) returns (k: nat)
    requires ids != [] && forall k :: 0 <= k < |ids| ==> ids[k] in depths
    ensures k < |ids| && depths[ids[k]] == LastDepth(ids, depths)
    decreases |ids|
  {
    var n := |ids| - 1;
    if n == 0 || depths[ids[n]] == LastDepth(ids, depths) {
      k := n;
    } else {
      k := LastDepthOccurs(ids[..n], depths);
    }
  }

  /** A node of some depth has one of every smaller depth below it. */
  lemma {:induction false} EveryDepthOccurs(g: Graph, depths: Depths, id: string, depth: nat) returns (other: string)
    requires RightDepths(g, depths) && depths.Keys == g.Keys && id in g && depth <= depths[id]
    ensures other in g && depths[other] == depth
    decreases depths[id]
  {
    if depths[id] == depth {
      other := id;
    } else {
      assert RightDepth(g[id], depths, depths[id]);
      var d :| d in g[id] && d in depths && depths[d] + 1 == depths[id];
      other := EveryDepthOccurs(g, depths, d, depth);
    }
  }

  // ---------------------------------------------------------------- where the cards are

  predicate Apart(a: Card, b: Card) {
    a.x + CARD_WIDTH <= b.x || b.x + CARD_WIDTH <= a.x || a.y + CARD_HEIGHT <= b.y || b.y + CARD_HEIGHT <= a.y
  }

  predicate InsideCanvas(c: Card, width: real, height: real) {
    0.0 <= c.x && c.x + CARD_WIDTH <= width && 0.0 <= c.y && c.y + CARD_HEIGHT <= height
  }

  ghost predicate PairwiseApart(cards: seq<Card>) {
    forall i, j :: 0 <= i < j < |cards| ==> Apart(cards[i], cards[j])
  }

  /** The cards of a column are apart, and apart from those of earlier columns. */
  lemma {:induction false} CardsAreApart(columns: seq<seq<string>>, height: real)
    ensures PairwiseApart(Cards(columns, height))
    ensures forall k :: 0 <= k < |Cards(columns, height)| ==>
      var c := Cards(columns, height)[k];
      c.depth < |columns| && c.x == PADDING + c.depth as real * (CARD_WIDTH + GAP_X)
  {
    if columns != [] {
      var n := |columns| - 1;
      var before, here := Cards(columns[..n], height), ColumnCards(columns[n], n, height);
      CardsAreApart(columns[..n], height);
      var all := before + here;
      forall i, j | 0 <= i < j < |all| ensures Apart(all[i], all[j]) {
        if j >= |before| {
          if i < |before| {
            XApart(all[i], all[j]);
          } else {
            RowsApart(columns[n], n, height, i - |before|, j - |before|);
          }
        }
      }
    }
  }

  lemma XApart(a: Card, b: Card)
    requires a.x == PADDING + a.depth as real * (CARD_WIDTH + GAP_X) && b.x == PADDING + b.depth as real * (CARD_WIDTH + GAP_X)
    requires a.depth < b.depth
    ensures a.x + CARD_WIDTH + GAP_X <= b.x
  {
    assert a.depth as real + 1.0 <= b.depth as real;
  }

  lemma RowsApart(column: seq<string>, depth: nat, height: real, r: nat, s: nat)
    requires r < s < |column|
    ensures Apart(CardAt(column, depth, r, height), CardAt(column, depth, s, height))
  {
    assert r as real + 1.0 <= s as real;
  }

  lemma {:induction false} RowsWithin(columns: seq<seq<string>>)
    ensures forall d :: 0 <= d < |columns| ==> |columns[d]| <= MaxRows(columns)
  {
    if columns != [] {
      var n := |columns| - 1;
      RowsWithin(columns[..n]);
      forall d | 0 <= d < |columns| ensures |columns[d]| <= MaxRows(columns) {
        assert d < n ==> columns[..n][d] == columns[d];
      }
    }
  }

  lemma CardIsInside(column: seq<string>, depth: nat, row: nat, lastDepth: nat, rows: nat, height: real)
    requires row < |column| <= rows && depth <= lastDepth && height == PADDING * 2.0 + StackHeight(rows)
    ensures InsideCanvas(CardAt(column, depth, row, height), CanvasWidth(lastDepth), height)
  {
    assert row as real + 1.0 <= |column| as real <= rows as real;
    assert depth as real <= lastDepth as real;
  }

  /** Every card is that of some place in some column. */
  lemma {:induction false} CardsStandInColumns(columns: seq<seq<string>>, height: real, c: Card) returns (d: nat, r: nat)
    requires c in Cards(columns, height)
    ensures d < |columns| && r < |columns[d]| && c == CardAt(columns[d], d, r, height)
  {
    var n := |columns| - 1;
    if c in Cards(columns[..n], height) {
      d, r := CardsStandInColumns(columns[..n], height, c);
    } else {
      d := n;
      r :| 0 <= r < |columns[n]| && ColumnCards(columns[n], n, height)[r] == c;
    }
  }

  lemma {:induction false} ColumnsHaveCards(columns: seq<seq<string>>, height: real, d: nat, r: nat)
    requires d < |columns| && r < |columns[d]|
    ensures CardAt(columns[d], d, r, height) in Cards(columns, height)
  {
    var n := |columns| - 1;
    if d < n {
      ColumnsHaveCards(columns[..n], height, d, r);
    } else {
      assert ColumnCards(columns[n], n, height)[r] == CardAt(columns[n], n, r, height);
    }
  }

  // ---------------------------------------------------------------- one card for each node

  function CardIds(cards: seq<Card>): multiset<string> {
    Gather(cards, (c: Card) => multiset{c.id})
  }

  lemma {:induction false} ColumnCardIds(column: seq<string>, cards: seq<Card>)
    requires |cards| == |column| && forall r :: 0 <= r < |cards| ==> cards[r].id == column[r]
    ensures CardIds(cards) == multiset(column)
    decreases |column|
  {
    if column != [] {
      var n := |column| - 1;
      ColumnCardIds(column[..n], cards[..n]);
      assert column == column[..n] + [column[n]];
    }
  }

  lemma {:induction false} CountInColumn(ids: seq<string>, depths: Depths, depth: nat, id: string)
    ensures multiset(Column(ids, depths, depth))[id] == if id in depths && depths[id] == depth then multiset(ids)[id] else 0
  {
    if ids != [] {
      var rest, last := ids[..|ids| - 1], ids[|ids| - 1];
      CountInColumn(rest, depths, depth, id);
      assert ids == rest + [last];
    }
  }

  /** The cards of the first columns count an id as often as it was given, if its depth is among them. */
  lemma {:induction false} CountInCards(ids: seq<string>, depths: Depths, count: nat, order: Order<string>,
                                        height: real, id: string)
    ensures CardIds(Cards(Columns(ids, depths, count, order), height))[id] ==
            if id in depths && depths[id] < count then multiset(ids)[id] else 0
    decreases count
  {
    if count > 0 {
      var columns, n := Columns(ids, depths, count, order), count - 1;
      CountInCards(ids, depths, n, order, height, id);
      assert columns[..n] == Columns(ids, depths, n, order);
      ColumnCardIds(columns[n], ColumnCards(columns[n], n, height));
      SortPermutes(Column(ids, depths, n), order);
      CountInColumn(ids, depths, n, id);
      GatherConcat(Cards(columns[..n], height), ColumnCards(columns[n], n, height), (c: Card) => multiset{c.id});
    }
  }

  lemma AllCounted(ids: seq<string>, depths: Depths, count: nat, order: Order<string>, height: real)
    requires forall id :: id in ids ==> id in depths && depths[id] < count
    ensures CardIds(Cards(Columns(ids, depths, count, order), height)) == multiset(ids)
  {
    var cards := CardIds(Cards(Columns(ids, depths, count, order), height));
    forall id ensures cards[id] == multiset(ids)[id] {
      CountInCards(ids, depths, count, order, height, id);
    }
  }

  /** One card for each node. */
  lemma CardsAreNodes(ids: seq<string>, depths: Depths, order: Order<string>, height: real)
    requires forall k :: 0 <= k < |ids| ==> ids[k] in depths
    ensures CardIds(Cards(Columns(ids, depths, LastDepth(ids, depths) + 1, order), height)) == multiset(ids)
  {
    LastDepthBounds(ids, depths);
    AllCounted(ids, depths, LastDepth(ids, depths) + 1, order, height);
  }

  // ---------------------------------------------------------------- curves run left to right

  lemma {:induction false} ByIdHolds(cards: seq<Card>)
    ensures forall id :: id in CardsById(cards) ==> CardsById(cards)[id] in cards && CardsById(cards)[id].id == id
    ensures forall c :: c in cards ==> c.id in CardsById(cards)
  {
    if cards != [] {
      var n := |cards| - 1;
      ByIdHolds(cards[..n]);
      assert cards == cards[..n] + [cards[n]];
    }
  }

  /** The right edge is left of the left edge by the column gap at least, and the bends stay between them. */
  predicate RunsRight(c: Curve) {
    c.x1 + GAP_X <= c.x2 && c.bend == (c.x2 - c.x1) * 0.45 && c.x1 < c.x1 + c.bend < c.x2 - c.bend < c.x2
  }

  lemma CurveRunsRight(from: Card, to: Card)
    requires from.x == PADDING + from.depth as real * (CARD_WIDTH + GAP_X) && to.x == PADDING + to.depth as real * (CARD_WIDTH + GAP_X)
    requires from.depth < to.depth
    ensures RunsRight(CurveBetween(from, to))
  {
    XApart(from, to);
  }

  /** The cards by id have the depth of their node and stand in its column. */
  ghost predicate PlacedByDepth(byId: map<string, Card>, depths: Depths) {
    forall id :: id in byId ==>
      id in depths && byId[id].id == id && byId[id].depth == depths[id] && byId[id].x == PADDING + depths[id] as real * (CARD_WIDTH + GAP_X)
  }

  lemma {:induction false} CurvesToRunRight(to: Card, dependsOn: seq<string>, byId: map<string, Card>, depths: Depths)
    requires PlacedByDepth(byId, depths) && to.id in byId && byId[to.id] == to
    requires forall d :: d in dependsOn ==> d in byId && depths[d] < depths[to.id]
    ensures forall c :: c in CurvesTo(to, dependsOn, byId) ==> RunsRight(c)
    ensures |CurvesTo(to, dependsOn, byId)| == |dependsOn|
    ensures forall k :: 0 <= k < |dependsOn| ==> CurvesTo(to, dependsOn, byId)[k] == CurveBetween(byId[dependsOn[k]], to)
  {
    if dependsOn != [] {
      var n := |dependsOn| - 1;
      CurvesToRunRight(to, dependsOn[..n], byId, depths);
      assert dependsOn[n] in dependsOn;
      CurveRunsRight(byId[dependsOn[n]], to);
    }
  }

  lemma {:induction false} CurvesRunRight(nodes: seq<GraphNode>, byId: map<string, Card>, depths: Depths)
    requires PlacedByDepth(byId, depths)
    requires forall k :: 0 <= k < |nodes| ==> nodes[k].id in byId
    requires forall k, d :: 0 <= k < |nodes| && d in nodes[k].dependsOn ==> d in byId && depths[d] < depths[nodes[k].id]
    ensures forall c :: c in Curves(nodes, byId) ==> RunsRight(c)
    ensures forall k, d :: 0 <= k < |nodes| && d in nodes[k].dependsOn ==> CurveBetween(byId[d], byId[nodes[k].id]) in Curves(nodes, byId)
  {
    if nodes != [] {
      var n := |nodes| - 1;
      CurvesRunRight(nodes[..n], byId, depths);
      CurvesToRunRight(byId[nodes[n].id], nodes[n].dependsOn, byId, depths);
      forall k, d | 0 <= k < |nodes| && d in nodes[k].dependsOn
        ensures CurveBetween(byId[d], byId[nodes[k].id]) in Curves(nodes, byId)
      {
        if k < n {
          assert nodes[..n][k] == nodes[k];
        } else {
          var j :| 0 <= j < |nodes[n].dependsOn| && nodes[n].dependsOn[j] == d;
          assert CurvesTo(byId[nodes[n].id], nodes[n].dependsOn, byId)[j] == CurveBetween(byId[d], byId[nodes[n].id]);
        }
      }
    }
  }

  // ---------------------------------------------------------------- the drawing as a whole

  /** Every column up to the last holds a card. */
  lemma NoColumnIsEmpty(nodes: seq<GraphNode>, depths: Depths, order: Order<string>, d: nat)
    requires nodes != [] && RightDepths(NodeGraph(nodes), depths) && depths.Keys == NodeGraph(nodes).Keys
    requires d <= LastDepth(NodeIds(nodes), depths)
    ensures ColumnsOf(nodes, depths, order)[d] != []
  {
    var ids := NodeIds(nodes);
    GraphHolds(nodes);
    var k := LastDepthOccurs(ids, depths);
    var id := EveryDepthOccurs(NodeGraph(nodes), depths, ids[k], d);
    ColumnHolds(ids, depths, d);
    assert id in Column(ids, depths, d);
    SortKeepsElements(Column(ids, depths, d), order);
  }

  /** Every card of the drawing stands in the column of its node's depth, inside the canvas. */
  lemma CardIsPlaced(nodes: seq<GraphNode>, depths: Depths, order: Order<string>, c: Card)
    requires c in Draw(nodes, depths, order).cards
    ensures c.id in depths && c.depth == depths[c.id]
    ensures c.x == PADDING + c.depth as real * (CARD_WIDTH + GAP_X)
    ensures InsideCanvas(c, Draw(nodes, depths, order).width, Draw(nodes, depths, order).height)
  {
    var columns, height := ColumnsOf(nodes, depths, order), Draw(nodes, depths, order).height;
    var d, r := CardsStandInColumns(columns, height, c);
    RowsWithin(columns);
    CardIsInside(columns[d], d, r, LastDepth(NodeIds(nodes), depths), MaxRows(columns), height);
    SortKeepsElements(Column(NodeIds(nodes), depths, d), order);
    assert c.id in columns[d];
    ColumnHolds(NodeIds(nodes), depths, d);
  }

  lemma CardOfNode(nodes: seq<GraphNode>, depths: Depths, order: Order<string>, k: nat)
    requires k < |nodes| && nodes[k].id in depths
    ensures nodes[k].id in CardsById(Draw(nodes, depths, order).cards)
  {
    var columns, height := ColumnsOf(nodes, depths, order), Draw(nodes, depths, order).height;
    var ids, id := NodeIds(nodes), nodes[k].id;
    var d := depths[id];
    LastDepthBounds(ids, depths);
    assert ids[k] == id;
    ColumnHolds(ids, depths, d);
    SortKeepsElements(Column(ids, depths, d), order);
    assert id in columns[d];
    var r :| 0 <= r < |columns[d]| && columns[d][r] == id;
    ColumnsHaveCards(columns, height, d, r);
    ByIdHolds(Draw(nodes, depths, order).cards);
  }

  lemma CardsArePlaced(nodes: seq<GraphNode>, depths: Depths, order: Order<string>)
    ensures PlacedByDepth(CardsById(Draw(nodes, depths, order).cards), depths)
  {
    var cards := Draw(nodes, depths, order).cards;
    var byId := CardsById(cards);
    ByIdHolds(cards);
    forall id | id in byId
      ensures id in depths && byId[id].id == id && byId[id].depth == depths[id] && byId[id].x == PADDING + depths[id] as real * (CARD_WIDTH + GAP_X)
    {
      CardIsPlaced(nodes, depths, order, byId[id]);
    }
  }

  /** What a drawing promises of its cards: one for each node, in its column, inside and apart. */
  ghost predicate GoodCards(nodes: seq<GraphNode>, depths: Depths, c: Canvas) {
    && CardIds(c.cards) == multiset(NodeIds(nodes))
    && PairwiseApart(c.cards)
    && forall card :: card in c.cards ==> InsideCanvas(card, c.width, c.height) && card.id in depths && card.depth == depths[card.id]
  }

  /** The curve joins the cards of a node and one of its dependencies. */
  ghost predicate Belongs(nodes: seq<GraphNode>, byId: map<string, Card>, curve: Curve) {
    exists k, d :: 0 <= k < |nodes| && d in nodes[k].dependsOn &&
      d in byId && nodes[k].id in byId && curve == CurveBetween(byId[d], byId[nodes[k].id])
  }

  /** From the middle of the right edge of one card to the middle of the left edge of the other. */
  lemma CurveJoins(from: Card, to: Card)
    ensures var curve := CurveBetween(from, to);
      && curve.from == from.id && curve.to == to.id && curve.x1 - from.x == CARD_WIDTH && curve.x2 == to.x
      && curve.y1 - from.y == from.y + CARD_HEIGHT - curve.y1 && curve.y2 - to.y == to.y + CARD_HEIGHT - curve.y2
  {
  }

  function DependencyCount(nodes: seq<GraphNode>): nat {
    if nodes == [] then 0 else DependencyCount(nodes[..|nodes| - 1]) + |nodes[|nodes| - 1].dependsOn|
  }

  /**
   What it promises of its curves: each runs to the right and belongs to a dependency, every
   dependency has one between the cards, and there are as many as listed dependencies.
   */
  ghost predicate GoodCurves(nodes: seq<GraphNode>, byId: map<string, Card>, curves: seq<Curve>) {
    && (forall curve :: curve in curves ==> RunsRight(curve) && Belongs(nodes, byId, curve))
    && |curves| == DependencyCount(nodes)
    && forall k, d :: 0 <= k < |nodes| && d in nodes[k].dependsOn ==>
         d in byId && nodes[k].id in byId && CurveBetween(byId[d], byId[nodes[k].id]) in curves
  }

  /** Every node has a depth, greater than those of its dependencies, which are nodes. */
  ghost predicate Descending(nodes: seq<GraphNode>, depths: Depths) {
    && (forall k :: 0 <= k < |nodes| ==> nodes[k].id in depths)
    && forall k, d :: 0 <= k < |nodes| && d in nodes[k].dependsOn ==>
         d in NodeIds(nodes) && d in depths && depths[d] < depths[nodes[k].id]
  }

  lemma RightDepthsDescend(nodes: seq<GraphNode>, depths: Depths)
    requires ProperIds(nodes) && RightDepths(NodeGraph(nodes), depths) && depths.Keys == NodeGraph(nodes).Keys
    ensures Descending(nodes, depths)
  {
    GraphHolds(nodes);
    forall k | 0 <= k < |nodes| ensures nodes[k].id in depths {
      assert NodeIds(nodes)[k] == nodes[k].id;
    }
    forall k, d | 0 <= k < |nodes| && d in nodes[k].dependsOn
      ensures d in NodeIds(nodes) && d in depths && depths[d] < depths[nodes[k].id]
    {
      assert NodeIds(nodes)[k] == nodes[k].id;
      assert RightDepth(NodeGraph(nodes)[nodes[k].id], depths, depths[nodes[k].id]);
    }
  }

  lemma CardsAreGood(nodes: seq<GraphNode>, depths: Depths, order: Order<string>)
    requires forall k :: 0 <= k < |nodes| ==> nodes[k].id in depths
    ensures GoodCards(nodes, depths, Draw(nodes, depths, order))
  {
    EachNodeHasCard(nodes, depths, order);
    DrawnApart(nodes, depths, order);
    CardsAreInside(nodes, depths, order);
    GoodByParts(nodes, depths, Draw(nodes, depths, order));
  }

  lemma EachNodeHasCard(nodes: seq<GraphNode>, depths: Depths, order: Order<string>)
    requires forall k :: 0 <= k < |nodes| ==> nodes[k].id in depths
    ensures CardIds(Draw(nodes, depths, order).cards) == multiset(NodeIds(nodes))
  {
    CardsAreNodes(NodeIds(nodes), depths, order, Draw(nodes, depths, order).height);
  }

  lemma DrawnApart(nodes: seq<GraphNode>, depths: Depths, order: Order<string>)
    ensures PairwiseApart(Draw(nodes, depths, order).cards)
  {
    CardsAreApart(ColumnsOf(nodes, depths, order), Draw(nodes, depths, order).height);
  }

  lemma GoodByParts(nodes: seq<GraphNode>, depths: Depths, c: Canvas)
    requires CardIds(c.cards) == multiset(NodeIds(nodes)) && PairwiseApart(c.cards)
    requires forall card :: card in c.cards ==>
      InsideCanvas(card, c.width, c.height) && card.id in depths && card.depth == depths[card.id]
    ensures GoodCards(nodes, depths, c)
  {
  }

  lemma CardsAreInside(nodes: seq<GraphNode>, depths: Depths, order: Order<string>)
    ensures var c := Draw(nodes, depths, order);
      forall card :: card in c.cards ==>
        InsideCanvas(card, c.width, c.height) && card.id in depths && card.depth == depths[card.id]
  {
    var c := Draw(nodes, depths, order);
    forall card | card in c.cards
      ensures InsideCanvas(card, c.width, c.height) && card.id in depths && card.depth == depths[card.id]
    {
      CardIsPlaced(nodes, depths, order, card);
    }
  }

  lemma NodeOf(nodes: seq<GraphNode>, id: string) returns (k: nat)
    requires id in NodeIds(nodes)
    ensures k < |nodes| && nodes[k].id == id
  {
    k :| 0 <= k < |nodes| && NodeIds(nodes)[k] == id;
  }

  lemma CurveBelongs(nodes: seq<GraphNode>, byId: map<string, Card>, k: nat, d: string)
    requires k < |nodes| && d in nodes[k].dependsOn && d in byId && nodes[k].id in byId
    ensures Belongs(nodes, byId, CurveBetween(byId[d], byId[nodes[k].id]))
  {
  }

  /** Of known nodes and dependencies, every curve drawn belongs to one listed dependency. */
  lemma {:induction false} CurvesBelong(nodes: seq<GraphNode>, byId: map<string, Card>, depths: Depths)
    requires PlacedByDepth(byId, depths)
    requires forall k :: 0 <= k < |nodes| ==> nodes[k].id in byId
    requires forall k, d :: 0 <= k < |nodes| && d in nodes[k].dependsOn ==> d in byId && depths[d] < depths[nodes[k].id]
    ensures forall c :: c in Curves(nodes, byId) ==> Belongs(nodes, byId, c)
    ensures |Curves(nodes, byId)| == DependencyCount(nodes)
  {
    if nodes != [] {
      var n := |nodes| - 1;
      var to, deps := byId[nodes[n].id], nodes[n].dependsOn;
      CurvesBelong(nodes[..n], byId, depths);
      CurvesToRunRight(to, deps, byId, depths);
      forall c | c in Curves(nodes, byId) ensures Belongs(nodes, byId, c) {
        if c in Curves(nodes[..n], byId) {
          var k, d :| 0 <= k < n && d in nodes[k].dependsOn && d in byId && nodes[k].id in byId
                      && c == CurveBetween(byId[d], byId[nodes[k].id]);
          CurveBelongs(nodes, byId, k, d);
        } else {
          var j :| 0 <= j < |deps| && CurvesTo(to, deps, byId)[j] == c;
          CurveBelongs(nodes, byId, n, deps[j]);
        }
      }
    }
  }

  lemma PlacedCurvesAreGood(nodes: seq<GraphNode>, depths: Depths, byId: map<string, Card>)
    requires Descending(nodes, depths) && PlacedByDepth(byId, depths) && forall k :: 0 <= k < |nodes| ==> nodes[k].id in byId
    ensures GoodCurves(nodes, byId, Curves(nodes, byId))
  {
    forall k, d | 0 <= k < |nodes| && d in nodes[k].dependsOn ensures d in byId && depths[d] < depths[nodes[k].id] {
      var j := NodeOf(nodes, d);
    }
    CurvesRunRight(nodes, byId, depths);
    CurvesBelong(nodes, byId, depths);
  }

  lemma CurvesAreGood(nodes: seq<GraphNode>, depths: Depths, order: Order<string>, byId: map<string, Card>)
    requires Descending(nodes, depths) && byId == CardsById(Draw(nodes, depths, order).cards)
    ensures GoodCurves(nodes, byId, Draw(nodes, depths, order).curves)
  {
    CardsArePlaced(nodes, depths, order);
    forall k | 0 <= k < |nodes| ensures nodes[k].id in byId {
      CardOfNode(nodes, depths, order, k);
    }
    PlacedCurvesAreGood(nodes, depths, byId);
  }

  /**
   Every accepted graph is drawn well: each node has one card, in the column of its longest
   dependency chain; cards are apart and inside the canvas; every curve runs to the right
   across the column gap; no column is empty; and the curves are those of the dependencies.
   */
  lemma DrawingIsGood(nodes: seq<GraphNode>) returns (depths: Depths)
    requires LayOut(nodes).Ok?
    ensures RightDepths(NodeGraph(nodes), depths) && depths.Keys == NodeGraph(nodes).Keys
    ensures var c := LayOut(nodes).value; GoodCards(nodes, depths, c) && GoodCurves(nodes, CardsById(c.cards), c.curves)
    ensures forall d :: 0 <= d <= LastDepth(NodeIds(nodes), depths) ==>
      ColumnsOf(nodes, depths, Before(NodeGraph(nodes), Places(nodes)))[d] != []
  {
    var g, ids := NodeGraph(nodes), NodeIds(nodes);
    var order := Before(g, Places(nodes));
    GraphHolds(nodes);
    DepthsFoundExactly(g, ids);
    depths := AllDepths(g, ids, map[]).value;
    RightDepthsDescend(nodes, depths);
    CardsAreGood(nodes, depths, order);
    CurvesAreGood(nodes, depths, order, CardsById(LayOut(nodes).value.cards));
    forall d: nat | d <= LastDepth(ids, depths) ensures ColumnsOf(nodes, depths, order)[d] != [] {
      NoColumnIsEmpty(nodes, depths, order, d);
    }
  }

  // ---------------------------------------------------------------- the order within a column

  /** The authored index of a node is its place. */
  lemma {:induction false} PlacesAre(nodes: seq<GraphNode>)
    requires ProperIds(nodes)
    ensures forall k :: 0 <= k < |nodes| ==> nodes[k].id in Places(nodes) && Places(nodes)[nodes[k].id] == k
  {
    if nodes != [] {
      var n := |nodes| - 1;
      PlacesAre(nodes[..n]);
      forall k | 0 <= k < |nodes| ensures nodes[k].id in Places(nodes) && Places(nodes)[nodes[k].id] == k {
        assert k < n ==> nodes[..n][k] == nodes[k] && nodes[k].id != nodes[n].id;
      }
    }
  }

  function SumOf(s: seq<nat>): nat {
    if s == [] then 0 else s[0] + SumOf(s[1..])
  }

  lemma {:induction false} SumSnoc(s: seq<nat>, n: nat)
    ensures SumOf(s + [n]) == SumOf(s) + n
  {
    if s == [] {
      assert s + [n] == [n] && SumOf([n]) == n + SumOf([n][1..]);
    } else {
      SumSnoc(s[1..], n);
      assert (s + [n])[1..] == s[1..] + [n];
    }
  }

  /** The indexes are those of the nodes with these ids. */
  ghost predicate IndexesOf(nodes: seq<GraphNode>, ids: seq<string>, indexes: seq<nat>) {
    |indexes| == |ids| && forall k :: 0 <= k < |ids| ==> indexes[k] < |nodes| && nodes[indexes[k]].id == ids[k]
  }

  lemma {:induction false} SumOfPlaces(nodes: seq<GraphNode>, ids: seq<string>, indexes: seq<nat>)
    requires ProperIds(nodes) && IndexesOf(nodes, ids, indexes)
    ensures SumPlaces(Places(nodes), ids) == SumOf(indexes)
    decreases |ids|
  {
    if ids == [] {
      assert indexes == [];
    } else {
      var n := |ids| - 1;
      PlacesAre(nodes);
      SumOfPlaces(nodes, ids[..n], indexes[..n]);
      SumSnoc(indexes[..n], indexes[n]);
      assert indexes == indexes[..n] + [indexes[n]];
    }
  }

  /** A node is pulled to the average authored index of its dependencies, and stays at its own index without any. */
  lemma GravityMeans(nodes: seq<GraphNode>, k: nat, indexes: seq<nat>)
    requires ProperIds(nodes) && k < |nodes| && IndexesOf(nodes, nodes[k].dependsOn, indexes)
    ensures Gravity(NodeGraph(nodes), Places(nodes), nodes[k].id)
            == if indexes == [] then k as real else SumOf(indexes) as real / |indexes| as real
  {
    GraphHolds(nodes);
    PlacesAre(nodes);
    assert NodeIds(nodes)[k] == nodes[k].id;
    SumOfPlaces(nodes, nodes[k].dependsOn, indexes);
  }

  lemma BeforeIsPreorder(g: Graph, places: map<string, nat>)
    ensures IsTotalPreorder(Before(g, places))
  {
  }

  /** The card stands in this row of the column of its depth. */
  ghost predicate StandsAt(columns: seq<seq<string>>, height: real, c: Card, row: nat) {
    c.depth < |columns| && row < |columns[c.depth]| && c == CardAt(columns[c.depth], c.depth, row, height)
  }

  lemma LowerCardIsLater(columns: seq<seq<string>>, height: real, a: Card, b: Card, r: nat, s: nat)
    requires StandsAt(columns, height, a, r) && StandsAt(columns, height, b, s) && a.depth == b.depth
    ensures b.y - a.y == (s as real - r as real) * (CARD_HEIGHT + GAP_Y)
    ensures a.y < b.y <==> r < s
  {
  }

  /** A card and the one in the mirrored row lie at the same distance from the top and from the bottom. */
  lemma RowsMirror(columns: seq<seq<string>>, height: real, a: Card, r: nat)
    requires StandsAt(columns, height, a, r)
    ensures var column := columns[a.depth];
            a.y + CardAt(column, a.depth, |column| - 1 - r, height).y + CARD_HEIGHT == height
  {
    var n := |columns[a.depth]|;
    assert (n - 1 - r) as real == n as real - 1.0 - r as real;
  }

  /**
   In a drawing, the cards of a column are evenly spaced about the middle of the canvas, and
   come in the order of the average place of their dependencies, and of their own place.
   */
  lemma DrawnInOrder(nodes: seq<GraphNode>, a: Card, b: Card)
    requires LayOut(nodes).Ok? && a in LayOut(nodes).value.cards && b in LayOut(nodes).value.cards && a.depth == b.depth && a.y < b.y
    ensures b.y - a.y >= CARD_HEIGHT + GAP_Y
    ensures var pull := id => Gravity(NodeGraph(nodes), Places(nodes), id);
            pull(a.id) < pull(b.id) || (pull(a.id) == pull(b.id) && PlaceOf(Places(nodes), a.id) <= PlaceOf(Places(nodes), b.id))
    ensures exists c :: c in LayOut(nodes).value.cards && c.depth == a.depth && a.y + c.y + CARD_HEIGHT == LayOut(nodes).value.height
  {
    var g := NodeGraph(nodes);
    var order := Before(g, Places(nodes));
    var depths := AllDepths(g, NodeIds(nodes), map[]).value;
    var columns, height := ColumnsOf(nodes, depths, order), LayOut(nodes).value.height;
    var d, r := CardsStandInColumns(columns, height, a);
    var e, s := CardsStandInColumns(columns, height, b);
    LowerCardIsLater(columns, height, a, b, r, s);
    assert s as real >= r as real + 1.0;
    RowsMirror(columns, height, a, r);
    ColumnsHaveCards(columns, height, d, |columns[d]| - 1 - r);
    BeforeIsPreorder(g, Places(nodes));
    SortSorts(Column(NodeIds(nodes), depths, d), order);
    assert order(columns[d][r], columns[d][s]);
  }
}
