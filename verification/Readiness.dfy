/**
 Readiness of a workflow: which completion receipts count, and which nodes are accepted,
 available, waiting or reserved for people.
 */
module Readiness {
  import opened Bags
  import opened Wrappers
  import opened Paths
  import opened Text
  import opened Graphs
  import opened Sets
  import opened Workflow
  import DepthFirst
  import Policy

  // ---------------------------------------------------------------- receipts

  /** What a receipt must agree on with the workflow and its source. */
  datatype Binding = Binding(
    projectId: string, repository: string, workflowId: string, workflowVersion: string, workflowDigest: string,
    templateId: string, appHead: string, canonicalDigest: string, policyVersion: string)

  /** The canonical source a plan is made for. */
  datatype Context = Context(projectId: string, repository: string, appHead: string, canonicalDigest: string, policyVersion: string)

  /** The binding of a workflow to its source; `digest` is that of the manifest. */
  function BindingFor(m: Manifest, c: Context, digest: string): Binding {
    Binding(c.projectId, c.repository, m.workflowId, m.workflowVersion, digest, m.templateId, c.appHead, c.canonicalDigest, c.policyVersion)
  }

  datatype Anchor = Anchor(reference: string, digest: string)

  datatype Receipt = Receipt(binding: Binding, nodeId: string, issuerId: string, evidence: seq<Anchor>, signature: string)

  /** What the receipt source hands over may have any shape. */
  datatype Supplied = Misshapen | Shaped(receipt: Receipt)

  /**
   The checks outside this model: the prose of a manifest, the patterns of issuer, signature
   and date, pinned keys, signatures, evidence, and `split(".").map(Number)` of a version.
   */
  datatype Oracles = Oracles(
    described: Manifest -> bool, wellFormed: Receipt -> bool, pinned: string -> bool, signed: Receipt -> bool,
    verifies: Anchor -> bool, numbers: string -> Policy.Version)

  /** The shape of a receipt: digests, and 1 to 30 pieces of evidence under different references. */
  predicate ProperShape(o: Oracles, r: Receipt) {
    && IsDigest(r.binding.workflowDigest) && IsDigest(r.binding.canonicalDigest) && IsSha(r.binding.appHead) && o.wellFormed(r)
    && 1 <= |r.evidence| <= 30
    && (forall k :: 0 <= k < |r.evidence| ==> IsReference(r.evidence[k].reference) && IsDigest(r.evidence[k].digest))
    && forall j, k :: 0 <= j < k < |r.evidence| ==> r.evidence[j].reference != r.evidence[k].reference
  }

  /** One receipt, looked at on its own. */
  predicate Valid(nodes: map<string, Node>, expected: Binding, o: Oracles, value: Supplied) {
    && value.Shaped? && ProperShape(o, value.receipt)
    && value.receipt.binding == expected && value.receipt.nodeId in nodes
    && !nodes[value.receipt.nodeId].NeedsHuman()
    && o.pinned(value.receipt.issuerId) && o.signed(value.receipt)
    && forall k :: 0 <= k < |value.receipt.evidence| ==> o.verifies(value.receipt.evidence[k])
  }

  datatype Fold = Fold(verified: map<string, Receipt>, compromised: set<string>, rejected: nat)

  function FoldOne(f: Fold, valid: bool, value: Supplied): Fold
    requires valid ==> value.Shaped?
  {
    if !valid then f.(rejected := f.rejected + 1)
    else
      var node := value.receipt.nodeId;
      if node in f.verified then
        f.(compromised := f.compromised + {node}, verified := f.verified - {node}, rejected := f.rejected + 1)
      else if node in f.compromised then f.(rejected := f.rejected + 1)
      else f.(verified := f.verified[node := value.receipt])
  }

  /** `valid` is the check of one receipt. */
  function FoldAll(supplied: seq<Supplied>, valid: Supplied -> bool): Fold
    requires forall value :: valid(value) ==> value.Shaped?
  {
    if supplied == [] then Fold(map[], {}, 0)
    else
      var last := supplied[|supplied| - 1];
      FoldOne(FoldAll(supplied[..|supplied| - 1], valid), valid(last), last)
  }

  // ---------------------------------------------------------------- which receipts count

  /** Every part of the binding is that of the workflow, of its digest, or of the source. */
  ghost predicate NamesSource(b: Binding, m: Manifest, c: Context, digest: string) {
    && b.projectId == c.projectId && b.repository == c.repository
    && b.workflowId == m.workflowId && b.workflowVersion == m.workflowVersion && b.workflowDigest == digest
    && b.templateId == m.templateId
    && b.appHead == c.appHead && b.canonicalDigest == c.canonicalDigest && b.policyVersion == c.policyVersion
  }

  /** One to thirty pieces of evidence under different proper references, all of which verify. */
  ghost predicate Evidenced(o: Oracles, evidence: seq<Anchor>) {
    && 0 < |evidence| < 31
    && Distinct(Mapped(evidence, (a: Anchor) => a.reference))
    && forall a :: a in evidence ==> IsReference(a.reference) && IsDigest(a.digest) && o.verifies(a)
  }

  /** A receipt counts exactly when it names the workflow and its source, an automatic node, and evidence that verifies, and is signed by a pinned issuer. */
  lemma CountsExactly(m: Manifest, c: Context, digest: string, o: Oracles, r: Receipt)
    requires Distinct(IdsOf(m.nodes))
    ensures Valid(Index(m.nodes), BindingFor(m, c, digest), o, Shaped(r)) <==>
      && NamesSource(r.binding, m, c, digest) && IsDigest(digest) && IsDigest(c.canonicalDigest) && IsSha(c.appHead)
      && (exists node :: node in m.nodes && node.id == r.nodeId && !node.NeedsHuman())
      && Evidenced(o, r.evidence) && o.wellFormed(r) && o.pinned(r.issuerId) && o.signed(r)
    ensures !Valid(Index(m.nodes), BindingFor(m, c, digest), o, Misshapen)
  {
    EvidenceCounts(o, r);
    if r.nodeId in Index(m.nodes) {
      IndexFinds(m.nodes, r.nodeId, Index(m.nodes)[r.nodeId]);
    }
    forall node | node in m.nodes && node.id == r.nodeId ensures r.nodeId in Index(m.nodes) && Index(m.nodes)[r.nodeId] == node {
      IndexFinds(m.nodes, r.nodeId, node);
    }
  }

  lemma EvidenceCounts(o: Oracles, r: Receipt)
    ensures Evidenced(o, r.evidence) <==>
      && 1 <= |r.evidence| <= 30
      && (forall k :: 0 <= k < |r.evidence| ==> IsReference(r.evidence[k].reference) && IsDigest(r.evidence[k].digest))
      && (forall k :: 0 <= k < |r.evidence| ==> o.verifies(r.evidence[k]))
      && forall j, k :: 0 <= j < k < |r.evidence| ==> r.evidence[j].reference != r.evidence[k].reference
  {
  }

  // ---------------------------------------------------------------- what the fold means

  function ReceiptFor(valid: Supplied -> bool, node: string, value: Supplied): multiset<Receipt> {
    if valid(value) && value.Shaped? && value.receipt.nodeId == node then multiset{value.receipt} else multiset{}
  }

  /** The valid receipts for a node, with their multiplicity. */
  function ReceiptsFor(supplied: seq<Supplied>, valid: Supplied -> bool, node: string): multiset<Receipt> {
    Gather(supplied, value => ReceiptFor(valid, node, value))
  }

  /** How one node stands after the fold. */
  ghost predicate Stands(f: Fold, node: string, receipts: multiset<Receipt>) {
    && (node in f.verified <==> |receipts| == 1)
    && (node in f.verified ==> f.verified[node] in receipts)
    && (node in f.compromised <==> |receipts| >= 2)
  }

  lemma FoldOneStands(f: Fold, node: string, receipts: multiset<Receipt>, valid: Supplied -> bool, value: Supplied)
    requires Stands(f, node, receipts) && (valid(value) ==> value.Shaped?)
    ensures Stands(FoldOne(f, valid(value), value), node, receipts + ReceiptFor(valid, node, value))
  {
    if |receipts| == 0 {
      assert receipts == multiset{};
    }
  }

  /** A node is verified by exactly one valid receipt and compromised by more; nothing else matters. */
  lemma {:induction false} FoldMeans(supplied: seq<Supplied>, valid: Supplied -> bool, node: string)
    requires forall value :: valid(value) ==> value.Shaped?
    ensures Stands(FoldAll(supplied, valid), node, ReceiptsFor(supplied, valid, node))
  {
    if supplied != [] {
      var rest, last := supplied[..|supplied| - 1], supplied[|supplied| - 1];
      FoldMeans(rest, valid, node);
      FoldOneStands(FoldAll(rest, valid), node, ReceiptsFor(rest, valid, node), valid, last);
    }
  }

  /** The counts of a fold add up. */
  ghost predicate Adds(f: Fold, total: nat) {
    total == f.rejected + |f.verified.Keys| + |f.compromised| && f.verified.Keys !! f.compromised
  }

  lemma FoldOneAdds(f: Fold, valid: bool, value: Supplied, total: nat)
    requires Adds(f, total) && (valid ==> value.Shaped?)
    ensures Adds(FoldOne(f, valid, value), total + 1)
  {
    if valid {
      var h, node := FoldOne(f, valid, value), value.receipt.nodeId;
      if node in f.verified {
        assert h.verified.Keys == f.verified.Keys - {node};
      } else if node !in f.compromised {
        assert h.verified.Keys == f.verified.Keys + {node};
      }
    }
  }

  lemma {:induction false} FoldAdds(supplied: seq<Supplied>, valid: Supplied -> bool)
    requires forall value :: valid(value) ==> value.Shaped?
    ensures Adds(FoldAll(supplied, valid), |supplied|)
  {
    if supplied != [] {
      var rest, last := supplied[..|supplied| - 1], supplied[|supplied| - 1];
      FoldAdds(rest, valid);
      FoldOneAdds(FoldAll(rest, valid), valid(last), last, |rest|);
    }
  }

  /** Every supplied receipt is rejected, verifies its node, or is the first of a compromised node. */
  lemma FoldCounts(supplied: seq<Supplied>, valid: Supplied -> bool)
    requires forall value :: valid(value) ==> value.Shaped?
    ensures var f := FoldAll(supplied, valid);
            |supplied| == f.rejected + |f.verified| + |f.compromised| && f.verified.Keys !! f.compromised
  {
    FoldAdds(supplied, valid);
    var f := FoldAll(supplied, valid);
    assert |f.verified| == |f.verified.Keys|;
  }

  lemma SameStanding(f: Fold, h: Fold, node: string, receipts: multiset<Receipt>)
    requires Stands(f, node, receipts) && Stands(h, node, receipts)
    ensures (node in f.verified <==> node in h.verified) && (node in f.compromised <==> node in h.compromised)
    ensures node in f.verified ==> f.verified[node] == h.verified[node]
  {
    if node in f.verified {
      OneMember(receipts, f.verified[node], h.verified[node]);
    }
  }

  lemma FoldForgetsOrder(a: seq<Supplied>, b: seq<Supplied>, valid: Supplied -> bool)
    requires multiset(a) == multiset(b) && forall value :: valid(value) ==> value.Shaped?
    ensures FoldAll(a, valid) == FoldAll(b, valid)
  {
    var f, h := FoldAll(a, valid), FoldAll(b, valid);
    forall node ensures (node in f.verified <==> node in h.verified) && (node in f.compromised <==> node in h.compromised)
      && (node in f.verified ==> f.verified[node] == h.verified[node])
    {
      FoldMeans(a, valid, node);
      FoldMeans(b, valid, node);
      GatherForgetsOrder(a, b, value => ReceiptFor(valid, node, value));
      SameStanding(f, h, node, ReceiptsFor(a, valid, node));
    }
    assert f.verified == h.verified && f.compromised == h.compromised;
    FoldCounts(a, valid);
    FoldCounts(b, valid);
    assert |multiset(a)| == |a| && |multiset(b)| == |b|;
  }

  lemma OneMember<T>(m: multiset<T>, x: T, y: T)
    requires |m| == 1 && x in m && y in m
    ensures x == y
  {
    assert m == multiset{x} + (m - multiset{x});
  }

  // ---------------------------------------------------------------- accepted nodes

  /** A set of verified nodes that holds the dependencies of its members. */
  ghost predicate Closed(g: Graph, verified: set<string>, s: set<string>) {
    forall n :: n in s ==> n in g && n in verified && forall d :: d in g[n] ==> d in s
  }

  ghost predicate InClosed(g: Graph, verified: set<string>, id: string) {
    exists s :: Closed(g, verified, s) && id in s
  }

  /** The greatest such set. */
  ghost function Accepted(g: Graph, verified: set<string>): set<string> {
    set id | id in g && InClosed(g, verified, id)
  }

  /** It is closed itself and holds every other. */
  lemma AcceptedIsGreatest(g: Graph, verified: set<string>)
    ensures Closed(g, verified, Accepted(g, verified))
    ensures forall s :: Closed(g, verified, s) ==> s <= Accepted(g, verified)
  {
    var all := Accepted(g, verified);
    forall s | Closed(g, verified, s) ensures s <= all {
      forall id | id in s ensures id in all {
        assert InClosed(g, verified, id);
      }
    }
    forall id | id in all ensures id in g && id in verified && forall d :: d in g[id] ==> d in all {
      var s :| Closed(g, verified, s) && id in s;
      assert s <= all;
    }
  }

  /** A node belongs exactly when it is verified and its dependencies belong. */
  ghost predicate Fixpoint(g: Graph, verified: set<string>, s: set<string>) {
    && s <= g.Keys
    && forall id :: id in g ==> (id in s <==> id in verified && forall d :: d in g[id] ==> d in s)
  }

  lemma AcceptedIsFixpoint(g: Graph, verified: set<string>)
    ensures Fixpoint(g, verified, Accepted(g, verified))
  {
    var all := Accepted(g, verified);
    AcceptedIsGreatest(g, verified);
    forall id | id in g && id in verified && forall d :: d in g[id] ==> d in all ensures id in all {
      assert Closed(g, verified, all + {id});
    }
  }

  /** One more verified node, all of whose dependencies are accepted, is accepted too. */
  lemma AcceptedGrows(g: Graph, verified: set<string>, node: string)
    requires node in g && forall d :: d in g[node] ==> d in Accepted(g, verified)
    ensures Accepted(g, verified) + {node} <= Accepted(g, verified + {node})
  {
    AcceptedIsGreatest(g, verified);
    AcceptedIsGreatest(g, verified + {node});
    assert Closed(g, verified + {node}, Accepted(g, verified) + {node});
  }

  /** The recursion with its memory, over a graph whose every edge leads back in some list. */
  class Acceptance {
    var checked: map<string, bool>
    var accepted: set<string>

    /** What is remembered is right. */
    ghost predicate Right(target: set<string>)
      reads this
    {
      && (forall id :: id in checked ==> (checked[id] <==> id in target))
      && forall id :: id in accepted <==> id in checked && checked[id]
    }

    constructor ()
      ensures checked == map[] && accepted == {}
    {
      checked, accepted := map[], {};
    }

    method IsAccepted(g: Graph, verified: set<string>, id: string, ghost target: set<string>, ghost order: seq<string>,
                      ghost at: nat)
      returns (valid: bool)
      requires Right(target) && Fixpoint(g, verified, target) && DependenciesKnown(g)
      requires Topological(g, order) && at < |order| && order[at] == id && id in g
      modifies this
      ensures Right(target) && old(checked.Keys) + {id} <= checked.Keys
      ensures valid <==> id in target
      decreases at
    {
      if id in checked { return checked[id]; }
      valid := id in verified;
      var k, dependsOn := 0, g[id];
      while valid && k < |dependsOn|
        invariant k <= |dependsOn| && Right(target) && old(checked.Keys) <= checked.Keys
        invariant valid ==> id in verified && forall j :: 0 <= j < k ==> dependsOn[j] in target
        invariant !valid ==> id !in target
      {
        assert Edge(g, id, dependsOn[k]);
        ghost var next :| 0 <= next < at && order[next] == dependsOn[k];
        valid := IsAccepted(g, verified, dependsOn[k], target, order, next);
        k := k + 1;
      }
      checked := checked[id := valid];
      if valid { accepted := accepted + {id}; }
    }
  }

  ghost predicate DependenciesKnown(g: Graph) {
    forall n, d :: n in g && d in g[n] ==> d in g
  }

  // ---------------------------------------------------------------- the plan

  datatype State = Available | WaitingEvidence | Verified | HumanGate

  datatype Row = Row(id: string, state: State, missing: seq<string>, evidenceCount: nat)

  function Missing(dependsOn: seq<string>, accepted: set<string>): seq<string> {
    if dependsOn == [] then []
    else
      var last := dependsOn[|dependsOn| - 1];
      Missing(dependsOn[..|dependsOn| - 1], accepted) + if last in accepted then [] else [last]
  }

  function RowOf(node: Node, accepted: set<string>, verified: map<string, Receipt>): Row {
    var missing := Missing(node.dependsOn, accepted);
    if node.NeedsHuman() then Row(node.id, HumanGate, missing, 0)
    else if node.id in accepted then Row(node.id, Verified, [], if node.id in verified then |verified[node.id].evidence| else 0)
    else if missing != [] then Row(node.id, WaitingEvidence, missing, 0)
    else Row(node.id, Available, [], 0)
  }

  /** What a plan says it was made for. */
  datatype PlanSource = PlanSource(
    workflowId: string, workflowVersion: string, workflowDigest: string, appHead: string, canonicalDigest: string,
    policyVersion: string)

  function SourceOf(b: Binding): PlanSource {
    PlanSource(b.workflowId, b.workflowVersion, b.workflowDigest, b.appHead, b.canonicalDigest, b.policyVersion)
  }

  datatype ReadinessPlan = ReadinessPlan(
    source: PlanSource, total: nat, accepted: nat, rejected: nat, ready: seq<string>, rows: seq<Row>)

  function RowsOf(nodes: seq<Node>, accepted: set<string>, verified: map<string, Receipt>): (rows: seq<Row>)
    ensures |rows| == |nodes| && forall k :: 0 <= k < |rows| ==> rows[k] == RowOf(nodes[k], accepted, verified)
  {
    seq(|nodes|, k requires 0 <= k < |nodes| => RowOf(nodes[k], accepted, verified))
  }

  function ReadyIds(rows: seq<Row>): seq<string> {
    if rows == [] then []
    else
      var last := rows[|rows| - 1];
      ReadyIds(rows[..|rows| - 1]) + if last.state.Available? then [last.id] else []
  }

  lemma {:induction false} MissingMeans(dependsOn: seq<string>, accepted: set<string>)
    ensures forall d :: d in Missing(dependsOn, accepted) <==> d in dependsOn && d !in accepted
  {
    if dependsOn != [] {
      MissingMeans(dependsOn[..|dependsOn| - 1], accepted);
      assert dependsOn == dependsOn[..|dependsOn| - 1] + [dependsOn[|dependsOn| - 1]];
    }
  }

  lemma {:induction false} ReadyMeans(rows: seq<Row>)
    ensures forall id :: id in ReadyIds(rows) <==> exists k :: 0 <= k < |rows| && rows[k].id == id && rows[k].state.Available?
  {
    if rows != [] {
      var rest, last := rows[..|rows| - 1], rows[|rows| - 1];
      ReadyMeans(rest);
      forall id ensures id in ReadyIds(rows) <==> exists k :: 0 <= k < |rows| && rows[k].id == id && rows[k].state.Available? {
        if id in ReadyIds(rest) {
          var k :| 0 <= k < |rest| && rest[k].id == id && rest[k].state.Available?;
          assert rows[k].id == id;
        }
        if k :| 0 <= k < |rows| && rows[k].id == id && rows[k].state.Available? {
          assert k < |rest| ==> rest[k].id == id && rest[k].state.Available?;
        }
      }
    }
  }

  /** The plan of a manifest, without the recursion: receipts folded, the greatest closed set taken. */
  ghost function PlanOf(nodes: seq<Node>, expected: Binding, supplied: seq<Supplied>, o: Oracles): ReadinessPlan {
    var f := FoldAll(supplied, value => Valid(Index(nodes), expected, o, value));
    var accepted := Accepted(DependencyGraph(nodes), f.verified.Keys);
    var rows := RowsOf(nodes, accepted, f.verified);
    AcceptedAreVerified(DependencyGraph(nodes), f.verified.Keys);
    ReadinessPlan(SourceOf(expected), |supplied|, |accepted|, f.rejected + (|f.verified| - |accepted|), ReadyIds(rows), rows)
  }

  lemma AcceptedAreVerified(g: Graph, verified: set<string>)
    ensures Accepted(g, verified) <= verified && |Accepted(g, verified)| <= |verified|
  {
    AcceptedIsGreatest(g, verified);
    var extra := verified - Accepted(g, verified);
    assert verified == Accepted(g, verified) + extra;
  }

  /** In a proper manifest every node is a vertex under its own id. */
  lemma NodeIsVertex(nodes: seq<Node>, k: nat)
    requires ProperManifest(nodes) && k < |nodes|
    ensures nodes[k].id in Index(nodes) && Index(nodes)[nodes[k].id] == nodes[k]
  {
    IndexHolds(nodes);
    assert IdsOf(nodes)[k] == nodes[k].id;
  }

  lemma VertexIsNode(nodes: seq<Node>, id: string) returns (k: nat)
    requires id in DependencyGraph(nodes)
    ensures k < |nodes| && nodes[k].id == id
  {
    IndexHolds(nodes);
    k :| 0 <= k < |nodes| && IdsOf(nodes)[k] == id;
  }

  lemma ProperGraph(nodes: seq<Node>)
    requires ProperManifest(nodes)
    ensures Acyclic(DependencyGraph(nodes)) && DependenciesKnown(DependencyGraph(nodes))
  {
    ProperManifestMeans(nodes);
    forall n, d | n in Index(nodes) && d in Index(nodes)[n].dependsOn ensures d in Index(nodes) {
      var k := VertexIsNode(nodes, n);
      NodeIsVertex(nodes, k);
      assert ProperNode(Index(nodes), nodes[k]);
    }
  }

  datatype Fault = InvalidWorkflow | MismatchedContext | PolicyBelowMinimum | SourceUnavailable

  /** The context is of the workflow's project and repository, and its texts are what they should be. */
  predicate ContextMatches(m: Manifest, c: Context) {
    && c.projectId == m.projectId && c.repository == m.repository
    && IsSha(c.appHead) && IsDigest(c.canonicalDigest) && Policy.IsVersion(c.policyVersion)
  }

  /** The readiness of a workflow: the plan, or the first reason why there is none. */
  ghost function ReadinessOf(m: Manifest, c: Context, digest: string, supplied: seq<Supplied>,
                             o: Oracles): Result<ReadinessPlan, Fault> {
    if !ProperWorkflow(m, o.described) then Err(InvalidWorkflow)
    else if !ContextMatches(m, c) then Err(MismatchedContext)
    else if !Policy.Reaches(o.numbers(c.policyVersion), o.numbers(m.minimumPolicy)) then Err(PolicyBelowMinimum)
    else if |supplied| > 240 then Err(SourceUnavailable)
    else Ok(PlanOf(m.nodes, BindingFor(m, c, digest), supplied, o))
  }

  /** The readiness of a workflow, as it is computed. */
  method BuildWorkflowReadiness(m: Manifest, c: Context, digest: string, supplied: seq<Supplied>, o: Oracles)
    returns (r: Result<ReadinessPlan, Fault>)
    ensures r == ReadinessOf(m, c, digest, supplied, o)
  {
    if !ProperWorkflow(m, o.described) { return Err(InvalidWorkflow); }
    if !ContextMatches(m, c) { return Err(MismatchedContext); }
    var highEnough := Policy.CheckForPlan(o.numbers(c.policyVersion), o.numbers(m.minimumPolicy));
    if !highEnough { return Err(PolicyBelowMinimum); }
    if |supplied| > 240 { return Err(SourceUnavailable); }
    var plan := PlanFromReceipts(m.nodes, BindingFor(m, c, digest), supplied, o);
    r := Ok(plan);
  }

  method PlanFromReceipts(nodes: seq<Node>, expected: Binding, supplied: seq<Supplied>, o: Oracles)
    returns (plan: ReadinessPlan)
    requires ProperManifest(nodes)
    ensures plan == PlanOf(nodes, expected, supplied, o)
  {
    var verified, compromised, rejected := FoldReceipts(nodes, expected, supplied, o);
    var accepted := AcceptAll(nodes, verified.Keys);
    var rows := RowsOf(nodes, accepted, verified);
    AcceptedAreVerified(DependencyGraph(nodes), verified.Keys);
    plan := ReadinessPlan(SourceOf(expected), |supplied|, |accepted|, rejected + (|verified| - |accepted|), ReadyIds(rows), rows);
  }

  method FoldReceipts(nodes: seq<Node>, expected: Binding, supplied: seq<Supplied>, o: Oracles)
    returns (verified: map<string, Receipt>, compromised: set<string>, rejected: nat)
    ensures Fold(verified, compromised, rejected) == FoldAll(supplied, value => Valid(Index(nodes), expected, o, value))
  {
    verified, compromised, rejected := map[], {}, 0;
    ghost var valid := value => Valid(Index(nodes), expected, o, value);
    for k := 0 to |supplied|
      invariant Fold(verified, compromised, rejected) == FoldAll(supplied[..k], valid)
    {
      assert supplied[..k + 1][..k] == supplied[..k];
      var value := supplied[k];
      if !Valid(Index(nodes), expected, o, value) {
        rejected := rejected + 1;
      } else {
        var node := value.receipt.nodeId;
        if node in verified {
          compromised := compromised + {node};
          verified := verified - {node};
          rejected := rejected + 1;
        } else if node in compromised {
          rejected := rejected + 1;
        } else {
          verified := verified[node := value.receipt];
        }
      }
    }
    assert supplied[..|supplied|] == supplied;
  }

  method AcceptAll(nodes: seq<Node>, verified: set<string>) returns (accepted: set<string>)
    requires ProperManifest(nodes)
    ensures accepted == Accepted(DependencyGraph(nodes), verified)
  {
    ProperGraph(nodes);
    var g := DependencyGraph(nodes);
    ghost var order := DepthFirst.TopologicalOrder(g);
    AcceptedIsFixpoint(g, verified);
    IndexHolds(nodes);
    accepted := AcceptEach(IdsOf(nodes), g, verified, Accepted(g, verified), order);
  }

  method AcceptEach(ids: seq<string>, g: Graph, verified: set<string>, ghost target: set<string>, ghost order: seq<string>)
    returns (accepted: set<string>)
    requires DependenciesKnown(g) && Topological(g, order) && Fixpoint(g, verified, target)
    requires (forall v :: v in g ==> v in order && v in ids) && forall id :: id in ids ==> id in g
    ensures accepted == target
  {
    var memory := new Acceptance();
    for k := 0 to |ids|
      invariant memory.Right(target)
      invariant forall j :: 0 <= j < k ==> ids[j] in memory.checked
    {
      ghost var at := PlaceOf(order, ids[k]);
      var _ := memory.IsAccepted(g, verified, ids[k], target, order, at);
    }
    accepted := memory.accepted;
  }

  lemma PlaceOf(order: seq<string>, id: string) returns (at: nat)
    requires id in order
    ensures at < |order| && order[at] == id
  {
    at :| 0 <= at < |order| && order[at] == id;
  }

  // ---------------------------------------------------------------- what the plan promises

  /** The plan is the same for every order of the receipts. */
  lemma PlanForgetsOrder(nodes: seq<Node>, expected: Binding, a: seq<Supplied>, b: seq<Supplied>, o: Oracles)
    requires multiset(a) == multiset(b)
    ensures PlanOf(nodes, expected, a, o) == PlanOf(nodes, expected, b, o)
  {
    FoldForgetsOrder(a, b, value => Valid(Index(nodes), expected, o, value));
    assert |multiset(a)| == |a| && |multiset(b)| == |b|;
  }

  /** The counters add up, except that nothing counts the first receipt of a node that has several. */
  lemma CountersAreExact(nodes: seq<Node>, expected: Binding, supplied: seq<Supplied>, o: Oracles, duplicated: set<string>)
    requires forall n :: n in duplicated <==> |ReceiptsFor(supplied, value => Valid(Index(nodes), expected, o, value), n)| >= 2
    ensures var plan := PlanOf(nodes, expected, supplied, o);
            plan.total == plan.accepted + plan.rejected + |duplicated|
  {
    var valid := value => Valid(Index(nodes), expected, o, value);
    FoldCounts(supplied, valid);
    forall n ensures n in duplicated <==> n in FoldAll(supplied, valid).compromised {
      FoldMeans(supplied, valid, n);
    }
    assert duplicated == FoldAll(supplied, valid).compromised;
  }

  lemma {:induction false} ReadyAt(rows: seq<Row>, k: nat)
    requires k < |rows| && forall j :: 0 <= j < |rows| && j != k ==> rows[j].id != rows[k].id
    ensures rows[k].id in ReadyIds(rows) <==> rows[k].state.Available?
  {
    ReadyMeans(rows);
  }

  lemma AvailableExactly(node: Node, accepted: set<string>, verified: map<string, Receipt>)
    ensures RowOf(node, accepted, verified).state.Available? <==>
            !node.NeedsHuman() && node.id !in accepted && forall d :: d in node.dependsOn ==> d in accepted
  {
    MissingMeans(node.dependsOn, accepted);
    var missing := Missing(node.dependsOn, accepted);
    if missing != [] {
      assert missing[0] in missing;
    }
  }

  lemma RowsDiffer(nodes: seq<Node>, rows: seq<Row>, k: nat)
    requires Distinct(IdsOf(nodes)) && k < |nodes| == |rows| && forall j :: 0 <= j < |nodes| ==> rows[j].id == nodes[j].id
    ensures forall j :: 0 <= j < |rows| && j != k ==> rows[j].id != rows[k].id
  {
    forall j | 0 <= j < |rows| && j != k ensures rows[j].id != rows[k].id {
      assert IdsOf(nodes)[j] != IdsOf(nodes)[k];
    }
  }

  lemma ReadyAmongRows(nodes: seq<Node>, accepted: set<string>, verified: map<string, Receipt>, k: nat)
    requires Distinct(IdsOf(nodes)) && k < |nodes|
    ensures nodes[k].id in ReadyIds(RowsOf(nodes, accepted, verified)) <==>
            !nodes[k].NeedsHuman() && nodes[k].id !in accepted && forall d :: d in nodes[k].dependsOn ==> d in accepted
  {
    var rows := RowsOf(nodes, accepted, verified);
    RowsDiffer(nodes, rows, k);
    ReadyAt(rows, k);
    AvailableExactly(nodes[k], accepted, verified);
  }

  /** A node is ready exactly when it is no person's, is not accepted, and all its dependencies are. */
  lemma ReadyExactly(nodes: seq<Node>, expected: Binding, supplied: seq<Supplied>, o: Oracles, k: nat)
    requires ProperManifest(nodes) && k < |nodes|
    ensures var f := FoldAll(supplied, value => Valid(Index(nodes), expected, o, value));
            var accepted := Accepted(DependencyGraph(nodes), f.verified.Keys);
            nodes[k].id in PlanOf(nodes, expected, supplied, o).ready <==>
              !nodes[k].NeedsHuman() && nodes[k].id !in accepted && forall d :: d in nodes[k].dependsOn ==> d in accepted
  {
    var f := FoldAll(supplied, value => Valid(Index(nodes), expected, o, value));
    ReadyAmongRows(nodes, Accepted(DependencyGraph(nodes), f.verified.Keys), f.verified, k);
  }

  /** A plan names the workflow, its digest and the source it was made for, and counts what was supplied. */
  lemma PlanNamesSource(m: Manifest, c: Context, digest: string, supplied: seq<Supplied>, o: Oracles)
    requires ReadinessOf(m, c, digest, supplied, o).Ok?
    ensures var plan := ReadinessOf(m, c, digest, supplied, o).value;
      && plan.source.workflowId == m.workflowId && plan.source.workflowVersion == m.workflowVersion
      && plan.source.workflowDigest == digest && plan.source.appHead == c.appHead
      && plan.source.canonicalDigest == c.canonicalDigest && plan.source.policyVersion == c.policyVersion
      && plan.total == |supplied| <= 240
  {
  }

  /** The members of a list that are in another, in the same order. */
  ghost predicate InOrder(part: seq<string>, whole: seq<string>) {
    forall i, j :: 0 <= i < j < |part| ==> exists a, b :: 0 <= a < b < |whole| && whole[a] == part[i] && whole[b] == part[j]
  }

  lemma {:induction false} MissingInOrder(dependsOn: seq<string>, accepted: set<string>)
    ensures InOrder(Missing(dependsOn, accepted), dependsOn)
  {
    if dependsOn != [] {
      var rest, last := dependsOn[..|dependsOn| - 1], dependsOn[|dependsOn| - 1];
      var before, missing := Missing(rest, accepted), Missing(dependsOn, accepted);
      MissingInOrder(rest, accepted);
      MissingMeans(rest, accepted);
      forall i, j | 0 <= i < j < |missing|
        ensures exists a, b :: 0 <= a < b < |dependsOn| && dependsOn[a] == missing[i] && dependsOn[b] == missing[j]
      {
        assert missing[i] == before[i];
        if j < |before| {
          var a, b :| 0 <= a < b < |rest| && rest[a] == before[i] && rest[b] == before[j];
          assert dependsOn[a] == missing[i] && dependsOn[b] == missing[j];
        } else {
          assert before[i] in before;
          var a :| 0 <= a < |rest| && rest[a] == before[i];
          assert dependsOn[a] == missing[i] && dependsOn[|rest|] == missing[j];
        }
      }
    }
  }

  lemma {:induction false} MissingDistinct(dependsOn: seq<string>, accepted: set<string>)
    requires Distinct(dependsOn)
    ensures Distinct(Missing(dependsOn, accepted))
  {
    if dependsOn != [] {
      MissingDistinct(dependsOn[..|dependsOn| - 1], accepted);
      MissingMeans(dependsOn[..|dependsOn| - 1], accepted);
    }
  }

  /** The row of a node, said of the node: what state it is in, what it waits for, how much evidence stands behind it. */
  ghost predicate Describes(row: Row, node: Node, accepted: set<string>, receipts: multiset<Receipt>) {
    && row.id == node.id
    && (row.state.HumanGate? <==> node.NeedsHuman())
    && (row.state.Verified? <==> !node.NeedsHuman() && node.id in accepted)
    && (row.state.WaitingEvidence? <==>
          !node.NeedsHuman() && node.id !in accepted && exists d :: d in node.dependsOn && d !in accepted)
    && (forall d :: d in row.missing <==> d in node.dependsOn && d !in accepted)
    && Distinct(row.missing) && InOrder(row.missing, node.dependsOn)
    && (node.id in accepted ==> |receipts| == 1 && forall r :: r in receipts ==> row.evidenceCount == |r.evidence|)
    && (node.id !in accepted ==> row.evidenceCount == 0)
  }

  lemma RowDescribes(node: Node, accepted: set<string>, verified: map<string, Receipt>, receipts: multiset<Receipt>)
    requires Distinct(node.dependsOn) && accepted <= verified.Keys
    requires node.id in accepted ==> !node.NeedsHuman() && forall d :: d in node.dependsOn ==> d in accepted
    requires node.id in verified ==> |receipts| == 1 && verified[node.id] in receipts
    ensures Describes(RowOf(node, accepted, verified), node, accepted, receipts)
  {
    var missing := Missing(node.dependsOn, accepted);
    MissingMeans(node.dependsOn, accepted);
    MissingInOrder(node.dependsOn, accepted);
    MissingDistinct(node.dependsOn, accepted);
    if missing != [] {
      assert missing[0] in missing;
    }
    if node.id in accepted {
      forall r | r in receipts ensures r == verified[node.id] {
        OneMember(receipts, r, verified[node.id]);
      }
    }
  }

  /** Every row of a plan describes its node. */
  lemma RowsDescribe(nodes: seq<Node>, expected: Binding, supplied: seq<Supplied>, o: Oracles, k: nat)
    requires ProperManifest(nodes) && k < |nodes|
    ensures var valid := value => Valid(Index(nodes), expected, o, value);
            var accepted, plan := Accepted(DependencyGraph(nodes), FoldAll(supplied, valid).verified.Keys), PlanOf(nodes, expected, supplied, o);
            |plan.rows| == |nodes| && Describes(plan.rows[k], nodes[k], accepted, ReceiptsFor(supplied, valid, nodes[k].id))
  {
    var valid := value => Valid(Index(nodes), expected, o, value);
    var f, g := FoldAll(supplied, valid), DependencyGraph(nodes);
    NodeIsVertex(nodes, k);
    assert ProperNode(Index(nodes), nodes[k]);
    AcceptedIsGreatest(g, f.verified.Keys);
    FoldMeans(supplied, valid, nodes[k].id);
    if nodes[k].NeedsHuman() {
      HumanNodesAreNotAccepted(nodes, expected, supplied, o, nodes[k].id);
    }
    RowDescribes(nodes[k], Accepted(g, f.verified.Keys), f.verified, ReceiptsFor(supplied, valid, nodes[k].id));
  }

  /** Nobody can hand in a receipt for a node that needs a person. */
  lemma HumanNodesAreNotAccepted(nodes: seq<Node>, expected: Binding, supplied: seq<Supplied>, o: Oracles, node: string)
    requires node in Index(nodes) && Index(nodes)[node].NeedsHuman()
    ensures node !in FoldAll(supplied, value => Valid(Index(nodes), expected, o, value)).verified
  {
    var valid := value => Valid(Index(nodes), expected, o, value);
    FoldMeans(supplied, valid, node);
    NoneGathered(supplied, valid, node);
  }

  lemma {:induction false} NoneGathered(supplied: seq<Supplied>, valid: Supplied -> bool, node: string)
    requires forall value :: valid(value) ==> value.Shaped? && value.receipt.nodeId != node
    ensures ReceiptsFor(supplied, valid, node) == multiset{}
  {
    if supplied != [] {
      NoneGathered(supplied[..|supplied| - 1], valid, node);
    }
  }

  /** Some node that needs a person can be reached along dependencies. */
  ghost predicate WaitsForPerson(nodes: seq<Node>, id: string) {
    exists h :: h in Index(nodes) && Index(nodes)[h].NeedsHuman() && Reaches(DependencyGraph(nodes), id, h)
  }

  lemma WaitingIsInherited(nodes: seq<Node>, id: string, d: string)
    requires Edge(DependencyGraph(nodes), id, d) && WaitsForPerson(nodes, d)
    ensures WaitsForPerson(nodes, id)
  {
    var g := DependencyGraph(nodes);
    var h :| h in Index(nodes) && Index(nodes)[h].NeedsHuman() && Reaches(g, d, h);
    var w :| WalkBetween(g, w, d, h);
    assert IsWalk(g, [id, d]);
    JoinWalks(g, [id, d], w);
  }

  /** When nothing is ready, every node that is not accepted waits for a person, directly or through its dependencies. */
  lemma NeverStuck(nodes: seq<Node>, expected: Binding, supplied: seq<Supplied>, o: Oracles)
    requires ProperManifest(nodes) && PlanOf(nodes, expected, supplied, o).ready == []
    ensures var f := FoldAll(supplied, value => Valid(Index(nodes), expected, o, value));
            forall id :: id in DependencyGraph(nodes) && id !in Accepted(DependencyGraph(nodes), f.verified.Keys) ==> WaitsForPerson(nodes, id)
  {
    var f := FoldAll(supplied, value => Valid(Index(nodes), expected, o, value));
    var g := DependencyGraph(nodes);
    var accepted := Accepted(g, f.verified.Keys);
    ProperGraph(nodes);
    var stuck := set id | id in g && id !in accepted && !WaitsForPerson(nodes, id);
    if stuck != {} {
      var id := DepthFirst.SinkIn(g, stuck);
      var k := VertexIsNode(nodes, id);
      NodeIsVertex(nodes, k);
      ReadyExactly(nodes, expected, supplied, o, k);
      if nodes[k].NeedsHuman() {
        ReachesSelf(g, id);
        assert WaitsForPerson(nodes, id);
      } else {
        forall d | d in nodes[k].dependsOn ensures d in accepted {
          assert Edge(g, id, d);
          if d !in accepted {
            WaitingIsInherited(nodes, id, d);
          }
        }
      }
    }
    assert forall id :: id in g && id !in accepted && !WaitsForPerson(nodes, id) ==> id in stuck;
  }

  // ---------------------------------------------------------------- one receipt more

  lemma FirstReceipt(supplied: seq<Supplied>, value: Supplied, valid: Supplied -> bool)
    requires forall v :: valid(v) ==> v.Shaped?
    requires valid(value) && ReceiptsFor(supplied, valid, value.receipt.nodeId) == multiset{}
    ensures FoldAll(supplied + [value], valid).verified.Keys == FoldAll(supplied, valid).verified.Keys + {value.receipt.nodeId}
  {
    FoldMeans(supplied, valid, value.receipt.nodeId);
    assert (supplied + [value])[..|supplied|] == supplied;
  }

  /** A first valid receipt for a ready node is accepted, and every accepted node stays so. */
  lemma NewReceiptIsAccepted(nodes: seq<Node>, expected: Binding, supplied: seq<Supplied>, o: Oracles, value: Supplied)
    requires ProperManifest(nodes) && Valid(Index(nodes), expected, o, value)
    requires value.receipt.nodeId in PlanOf(nodes, expected, supplied, o).ready
    requires ReceiptsFor(supplied, v => Valid(Index(nodes), expected, o, v), value.receipt.nodeId) == multiset{}
    ensures var f := FoldAll(supplied, v => Valid(Index(nodes), expected, o, v));
            var h := FoldAll(supplied + [value], v => Valid(Index(nodes), expected, o, v));
            Accepted(DependencyGraph(nodes), f.verified.Keys) + {value.receipt.nodeId} <= Accepted(DependencyGraph(nodes), h.verified.Keys)
  {
    var valid := v => Valid(Index(nodes), expected, o, v);
    var g, node := DependencyGraph(nodes), value.receipt.nodeId;
    var f, h := FoldAll(supplied, valid), FoldAll(supplied + [value], valid);
    FirstReceipt(supplied, value, valid);
    var k := VertexIsNode(nodes, node);
    NodeIsVertex(nodes, k);
    ReadyExactly(nodes, expected, supplied, o, k);
    AcceptedGrows(g, f.verified.Keys, node);
  }

  /** A second valid receipt for a node takes its acceptance away for good. */
  lemma DuplicatesFailClosed(nodes: seq<Node>, expected: Binding, supplied: seq<Supplied>, more: seq<Supplied>,
                             o: Oracles, node: string)
    requires |ReceiptsFor(supplied, v => Valid(Index(nodes), expected, o, v), node)| >= 2
    ensures node !in Accepted(DependencyGraph(nodes), FoldAll(supplied + more, v => Valid(Index(nodes), expected, o, v)).verified.Keys)
  {
    var valid := v => Valid(Index(nodes), expected, o, v);
    FoldMeans(supplied + more, valid, node);
    GatherConcat(supplied, more, v => ReceiptFor(valid, node, v));
    AcceptedIsGreatest(DependencyGraph(nodes), FoldAll(supplied + more, valid).verified.Keys);
  }

  // ---------------------------------------------------------------- counters that do not add up

  lemma TwoAlike(value: Supplied, valid: Supplied -> bool)
    requires value.Shaped? && valid(value)
    ensures forall n :: |ReceiptsFor([value, value], valid, n)| == if n == value.receipt.nodeId then 2 else 0
  {
    forall n ensures |ReceiptsFor([value, value], valid, n)| == if n == value.receipt.nodeId then 2 else 0 {
      assert [value, value] == [value] + [value];
      GatherConcat([value], [value], v => ReceiptFor(valid, n, v));
      GatherOne(value, v => ReceiptFor(valid, n, v));
    }
  }

  /** There is a plan, and its counters miss one of two receipts. */
  predicate MissesOne(r: Result<ReadinessPlan, Fault>) {
    r.Ok? && r.value.total == 2 && r.value.accepted + r.value.rejected == 1
  }

  /** Any valid receipt handed over twice: the counters miss one of the two. */
  lemma DoubledReceiptIsMissed(m: Manifest, c: Context, digest: string, o: Oracles, value: Supplied)
    requires ProperWorkflow(m, o.described) && ContextMatches(m, c)
    requires Policy.Reaches(o.numbers(c.policyVersion), o.numbers(m.minimumPolicy))
    requires Valid(Index(m.nodes), BindingFor(m, c, digest), o, value)
    ensures MissesOne(ReadinessOf(m, c, digest, [value, value], o))
  {
    var expected := BindingFor(m, c, digest);
    TwoAlike(value, v => Valid(Index(m.nodes), expected, o, v));
    CountersAreExact(m.nodes, expected, [value, value], o, {value.receipt.nodeId});
  }

  /** A root, and a test that depends on it. */
  function RootAndTest(root: string, test: string): seq<Node> {
    [Node(root, Discover, [], false, Budget(1, 1, 1)), Node(test, Test, [root], false, Budget(1, 1, 1))]
  }

  lemma RootAndTestAreProper(root: string, test: string)
    requires IsId(root) && IsId(test) && root != test
    ensures ProperManifest(RootAndTest(root, test)) && root in Index(RootAndTest(root, test))
    ensures Index(RootAndTest(root, test))[root] == RootAndTest(root, test)[0]
  {
    var nodes := RootAndTest(root, test);
    assert nodes[..1] == [nodes[0]] && [nodes[0]][..0] == [];
    assert Index(nodes[..1]) == map[root := nodes[0]];
    assert Index(nodes) == map[root := nodes[0], test := nodes[1]];
    var g, order := DependencyGraph(nodes), [root, test];
    assert g[root] == [] && g[test] == [root];
    assert Topological(g, order) by {
      assert order[..1] == [root];
    }
    TopologicalIsAcyclic(g, order);
    assert nodes[0] in nodes && nodes[1] in nodes;
    ProperManifestMeans(nodes);
  }

  /** A receipt with one piece of evidence. */
  function SampleReceipt(expected: Binding, node: string, reference: string): Receipt {
    Receipt(expected, node, "issuer", [Anchor(reference, expected.workflowDigest)], Repeat('A', 86) + "==")
  }

  /** The checks outside this model accept the manifest and the receipt. */
  predicate AcceptsSample(o: Oracles, m: Manifest, receipt: Receipt) {
    && o.described(m) && o.wellFormed(receipt) && o.pinned(receipt.issuerId) && o.signed(receipt)
    && forall k :: 0 <= k < |receipt.evidence| ==> o.verifies(receipt.evidence[k])
  }

  function SampleManifest(id: string, version: string, projectId: string, repository: string, root: string,
                          test: string): Manifest {
    Manifest(id, version, Approved, TEMPLATE, projectId, repository, version, RootAndTest(root, test), "")
  }

  function SampleContext(version: string, projectId: string, repository: string): Context {
    Context(projectId, repository, Repeat('0', 40), "sha256:" + Repeat('0', 64), version)
  }

  lemma SampleIsProper(o: Oracles, id: string, version: string, projectId: string, repository: string, root: string,
                       test: string)
    requires IsId(id) && Policy.IsVersion(version) && IsProjectId(projectId) && IsRepository(repository)
    requires IsId(root) && IsId(test) && root != test
    requires o.described(SampleManifest(id, version, projectId, repository, root, test))
    ensures ProperWorkflow(SampleManifest(id, version, projectId, repository, root, test), o.described)
  {
    RootAndTestAreProper(root, test);
  }

  lemma SampleContextMatches(id: string, version: string, projectId: string, repository: string, root: string, test: string)
    requires Policy.IsVersion(version)
    ensures ContextMatches(SampleManifest(id, version, projectId, repository, root, test), SampleContext(version, projectId, repository))
  {
    assert IsDigest("sha256:" + Repeat('0', 64));
    assert IsSha(Repeat('0', 40));
  }

  lemma SampleIsValid(o: Oracles, expected: Binding, node: Node, nodes: map<string, Node>, reference: string)
    requires node.id in nodes && nodes[node.id] == node && !node.NeedsHuman() && IsReference(reference)
    requires IsDigest(expected.workflowDigest) && IsDigest(expected.canonicalDigest) && IsSha(expected.appHead)
    requires var receipt := SampleReceipt(expected, node.id, reference);
             && o.wellFormed(receipt) && o.pinned(receipt.issuerId) && o.signed(receipt)
             && o.verifies(receipt.evidence[0])
    ensures Valid(nodes, expected, o, Shaped(SampleReceipt(expected, node.id, reference)))
  {
  }

  lemma SampleVersion()
    ensures Policy.IsVersion("1.0.0")
  {
    Policy.ThreeNumerals("1", "0", "0");
    assert "1.0.0" == "1" + ("." + ("0" + ("." + "0")));
  }

  lemma SampleRepository()
    ensures IsRepository("owner/name")
  {
    PlainRepository("owner", "name");
    assert "owner/name" == "owner" + "/" + "name";
  }

  lemma SampleIds()
    ensures IsId("workflow") && IsId("aa") && IsId("bb") && IsProjectId("project:aa") && IsReference("github:aaaa")
  {
    assert IsReferenceAfter("github:aaaa", "github:");
  }

  function TheManifest(): Manifest {
    SampleManifest("workflow", "1.0.0", "project:aa", "owner/name", "aa", "bb")
  }

  function TheContext(): Context {
    SampleContext("1.0.0", "project:aa", "owner/name")
  }

  function TheReceipt(digest: string): Receipt {
    SampleReceipt(BindingFor(TheManifest(), TheContext(), digest), "aa", "github:aaaa")
  }

  lemma TheInputsAreAccepted(o: Oracles, digest: string)
    requires IsDigest(digest) && AcceptsSample(o, TheManifest(), TheReceipt(digest))
    ensures ProperWorkflow(TheManifest(), o.described) && ContextMatches(TheManifest(), TheContext())
    ensures Valid(Index(TheManifest().nodes), BindingFor(TheManifest(), TheContext(), digest), o, Shaped(TheReceipt(digest)))
  {
    SampleVersion();
    SampleRepository();
    SampleIds();
    SampleIsProper(o, "workflow", "1.0.0", "project:aa", "owner/name", "aa", "bb");
    SampleContextMatches("workflow", "1.0.0", "project:aa", "owner/name", "aa", "bb");
    RootAndTestAreProper("aa", "bb");
    SampleIsValid(o, BindingFor(TheManifest(), TheContext(), digest), RootAndTest("aa", "bb")[0], Index(TheManifest().nodes), "github:aaaa");
  }

  /**
   A root "aa", a test "bb" that depends on it, and one valid receipt for "aa" handed over
   twice: there is a plan, and its counters miss one of the two receipts.
   */
  lemma SomeCountersMiss(o: Oracles, digest: string) returns (supplied: seq<Supplied>)
    requires IsDigest(digest) && AcceptsSample(o, TheManifest(), TheReceipt(digest))
    ensures MissesOne(ReadinessOf(TheManifest(), TheContext(), digest, supplied, o))
  {
    var value := Shaped(TheReceipt(digest));
    supplied := [value, value];
    TheInputsAreAccepted(o, digest);
    DoubledReceiptIsMissed(TheManifest(), TheContext(), digest, o, value);
  }
}
