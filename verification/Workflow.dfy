/** Workflow manifests: the nodes, and the check that makes them a dependency graph. */
module Workflow {
  import opened Graphs
  import opened Sets
  import opened DependencyWalk
  import opened Paths
  import DepthFirst
  import Policy

  datatype Stage = Discover | Specify | Design | Plan | Implement | Test | Review | Release | Learn
  {
    function Rank(): nat {
      match this
      case Discover => 0 case Specify => 1 case Design => 2 case Plan => 3 case Implement => 4
      case Test => 5 case Review => 6 case Release => 7 case Learn => 8
    }
  }

  const STAGES: seq<Stage> := [Discover, Specify, Design, Plan, Implement, Test, Review, Release, Learn]

  /** `STAGES.indexOf(stage)` */
  lemma RankIsPlace(stage: Stage)
    ensures stage.Rank() < |STAGES| && STAGES[stage.Rank()] == stage
  {
  }

  /** What executions of a node may spend at most. */
  datatype Budget = Budget(maxAttempts: nat, maxFiles: nat, maxTokenEstimate: nat) {
    predicate WithinBounds() {
      1 <= maxAttempts <= 5 && 1 <= maxFiles <= 30 && 1 <= maxTokenEstimate <= 30000
    }
  }

  datatype Node = Node(id: string, stage: Stage, dependsOn: seq<string>, humanGate: bool, budget: Budget) {
    /** No prompt or agent may complete the node. */
    predicate NeedsHuman() {
      humanGate || stage.Release?
    }
  }

  datatype Lifecycle = Candidate | Approved | Deprecated

  /** `prose` is all the rest of a manifest: its area, the roles, goals and lists of its nodes. */
  datatype Manifest = Manifest(
    workflowId: string, workflowVersion: string, status: Lifecycle, templateId: string, projectId: string,
    repository: string, minimumPolicy: string, nodes: seq<Node>, prose: string)

  /** The index of a manifest; a repeated id keeps its first node. */
  function Index(nodes: seq<Node>): map<string, Node> {
    if nodes == [] then map[]
    else
      var rest, last := Index(nodes[..|nodes| - 1]), nodes[|nodes| - 1];
      if last.id in rest then rest else rest[last.id := last]
  }

  function IdsOf(nodes: seq<Node>): (ids: seq<string>)
    ensures |ids| == |nodes| && forall k :: 0 <= k < |ids| ==> ids[k] == nodes[k].id
  {
    Mapped(nodes, (node: Node) => node.id)
  }

  function DependencyGraph(nodes: seq<Node>): Graph {
    map id | id in Index(nodes) :: Index(nodes)[id].dependsOn
  }

  /** A node the check accepts. */
  predicate ProperNode(index: map<string, Node>, node: Node) {
    && IsId(node.id) && (node.stage.Release? ==> node.humanGate) && node.budget.WithinBounds()
    && Distinct(node.dependsOn)
    && forall d :: d in node.dependsOn ==> d in index && d != node.id && index[d].stage.Rank() <= node.stage.Rank()
  }

  predicate HasRoot(nodes: seq<Node>) {
    exists root :: root in nodes && root.stage.Discover? && root.dependsOn == []
  }

  predicate HasTest(nodes: seq<Node>) {
    exists test :: test in nodes && test.stage.Test?
  }

  /** The check of the nodes and their graph. */
  predicate ProperManifest(nodes: seq<Node>) {
    && 1 <= |nodes| <= 60 && Distinct(IdsOf(nodes))
    && (forall k :: 0 <= k < |nodes| ==> ProperNode(Index(nodes), nodes[k]))
    && DepthFirst.VisitRoots(DependencyGraph(nodes), IdsOf(nodes), DepthFirst.START).trails == []
    && HasRoot(nodes) && HasTest(nodes)
  }

  const TEMPLATE := "engineering-node@1.0.0"

  /** The whole check; `described` is its part that reads the prose, and the search for raw credentials. */
  predicate ProperWorkflow(m: Manifest, described: Manifest -> bool) {
    && IsId(m.workflowId) && Policy.IsVersion(m.workflowVersion) && m.templateId == TEMPLATE
    && IsProjectId(m.projectId) && IsRepository(m.repository) && Policy.IsVersion(m.minimumPolicy)
    && described(m) && ProperManifest(m.nodes)
  }

  /** The index holds each node under its id. */
  lemma {:induction false} IndexHolds(nodes: seq<Node>)
    ensures forall id :: id in Index(nodes) <==> id in IdsOf(nodes)
    ensures Distinct(IdsOf(nodes)) ==> forall k :: 0 <= k < |nodes| ==> Index(nodes)[nodes[k].id] == nodes[k]
    ensures forall id :: id in Index(nodes) ==> Index(nodes)[id].id == id && Index(nodes)[id] in nodes
  {
    if nodes != [] {
      var rest, last := nodes[..|nodes| - 1], nodes[|nodes| - 1];
      IndexHolds(rest);
      assert nodes == rest + [last];
      assert IdsOf(nodes) == IdsOf(rest) + [last.id];
      if Distinct(IdsOf(nodes)) {
        forall k | 0 <= k < |nodes| ensures Index(nodes)[nodes[k].id] == nodes[k] {
          if k < |rest| {
            assert rest[k] == nodes[k] && IdsOf(nodes)[k] != IdsOf(nodes)[|rest|];
          } else {
            assert last.id !in IdsOf(rest);
          }
        }
      }
    }
  }

  /** A manifest of different ids holds a node exactly when its index has it under its id. */
  lemma IndexFinds(nodes: seq<Node>, id: string, node: Node)
    requires Distinct(IdsOf(nodes))
    ensures node in nodes && node.id == id <==> id in Index(nodes) && Index(nodes)[id] == node
  {
    IndexHolds(nodes);
    if node in nodes && node.id == id {
      var k :| 0 <= k < |nodes| && nodes[k] == node;
      assert Index(nodes)[nodes[k].id] == node;
    }
  }

  /** What the check accepts, said without its search: known dependencies, no cycle, a root and a test. */
  lemma ProperManifestMeans(nodes: seq<Node>)
    ensures ProperManifest(nodes) <==>
      && 1 <= |nodes| <= 60 && Distinct(IdsOf(nodes))
      && (forall k :: 0 <= k < |nodes| ==> ProperNode(Index(nodes), nodes[k]))
      && Acyclic(DependencyGraph(nodes))
      && HasRoot(nodes) && HasTest(nodes)
  {
    IndexHolds(nodes);
    DepthFirst.FullSearchFindsCycles(DependencyGraph(nodes), IdsOf(nodes));
  }

  /** The search of the check, as it runs. */
  method CheckAcyclic(nodes: seq<Node>) returns (acyclic: bool)
    ensures acyclic <==> Acyclic(DependencyGraph(nodes))
  {
    var walk := new Walk();
    var g := DependencyGraph(nodes);
    walk.VisitAll(g, IdsOf(nodes));
    acyclic := walk.trails == [];
    assert walk.State().trails == walk.trails;
    IndexHolds(nodes);
    DepthFirst.FullSearchFindsCycles(g, IdsOf(nodes));
  }
}
