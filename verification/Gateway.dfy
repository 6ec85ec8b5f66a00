/**
 The execution gateway: the check of a signed grant, the match with a readiness plan, and
 then the claim and the loop. Whatever is executed is bounded by its node, is no person's,
 and has all its dependencies accepted.
 */
module Gateway {
  import opened Wrappers
  import opened Paths
  import opened Sets
  import opened Graphs
  import opened Workflow
  import opened Execution
  import opened Journal
  import opened Readiness
  import opened Numbers
  import opened Base64
  import Policy

  datatype Mode = InspectScoped | EditScoped | TestScoped

  datatype Payload = Payload(
    binding: Binding, nodeId: string, mode: Mode, bounds: Grant, issuerId: string, nonce: string,
    issuedAt: string, expiresAt: string)

  datatype SignedGrant = SignedGrant(payload: Payload, signature: string)

  /**
   The checks outside this model: the prose of a manifest, `Date.parse`, pinned keys, the
   signature of a payload in 64 bytes, adoption and permission, the three numbers of a
   version, and the digest of a grant.
   */
  datatype Authority = Authority(
    described: Manifest -> bool, time: string -> Option<int>, pinned: string -> bool,
    signed: (Payload, seq<nat>) -> bool, adopted: string -> bool, mayExecute: string -> bool,
    numbers: string -> Option<Policy.Version>, requestId: SignedGrant -> string)

  datatype GrantFault =
    | InvalidWorkflow | NotApproved | InvalidShape | StaleBinding | NotExecutable | WrongMode | ExceedsBudget
    | OutsideValidity | NoPinnedKey | Untrusted | NotAdopted | MayNotExecute

  /** The one mode a stage is executed in; reviews and releases have none. */
  function ModeOf(stage: Stage): Option<Mode> {
    match stage
    case Implement => Some(EditScoped)
    case Test => Some(TestScoped)
    case Review => None
    case Release => None
    case _ => Some(InspectScoped)
  }

  /** `^[a-f0-9]{32,64}$` */
  predicate IsNonce(s: string) {
    32 <= |s| <= 64 && forall k :: 0 <= k < |s| ==> IsHexDigit(s[k])
  }

  /** `^\d{4}-\d\d-\d\dT\d\d:\d\d:\d\d(?:\.\d{3})?Z$` */
  predicate IsTimestamp(s: string) {
    && (|s| == 20 || (|s| == 24 && s[19] == '.')) && s[|s| - 1] == 'Z'
    && s[4] == '-' && s[7] == '-' && s[10] == 'T' && s[13] == ':' && s[16] == ':'
    && forall k :: 0 <= k < |s| - 1 && k !in {4, 7, 10, 13, 16, 19} ==> IsDigit(s[k])
  }

  predicate PayloadShape(p: Payload) {
    && IsDigest(p.binding.workflowDigest) && IsDigest(p.binding.canonicalDigest) && IsSha(p.binding.appHead)
    && IsId(p.issuerId) && IsNonce(p.nonce) && IsTimestamp(p.issuedAt) && IsTimestamp(p.expiresAt)
    && p.bounds.WithinBounds() && Distinct(p.bounds.allowedPaths)
  }

  /** The grant is for exactly this workflow and source, and the policy reaches the workflow's minimum. */
  predicate SourceBound(a: Authority, p: Payload, m: Manifest, c: Context, digest: string) {
    && p.binding == BindingFor(m, c, digest)
    && c.projectId == m.projectId && c.repository == m.repository
    && a.numbers(c.policyVersion).Some? && a.numbers(m.minimumPolicy).Some?
    && var policy, minimum := a.numbers(c.policyVersion).value, a.numbers(m.minimumPolicy).value;
       Policy.Exact(policy) && Policy.Exact(minimum) && Policy.Reaches(policy, minimum)
  }

  predicate WithinBudget(bounds: Grant, budget: Budget) {
    && bounds.maxAttempts <= budget.maxAttempts && bounds.maxFiles <= budget.maxFiles
    && bounds.maxTokenEstimate <= budget.maxTokenEstimate && |bounds.allowedPaths| <= bounds.maxFiles
  }

  /** Issued no more than a minute ahead, not expired, and valid for an hour at most. Times are in milliseconds. */
  predicate InTime(issued: Option<int>, expires: Option<int>, now: int) {
    && issued.Some? && expires.Some?
    && issued.value <= now + 60000 && expires.value > now
    && expires.value > issued.value && expires.value - issued.value <= 3600000
  }

  /** Whether a grant bound to its source may be executed on the node it names. */
  function VerifyForNode(g: SignedGrant, node: Node, a: Authority, now: int): Result<Node, GrantFault>
    requires IsSignature(g.signature)
  {
    var p := g.payload;
    if node.humanGate || node.stage.Release? || node.stage.Review? then Err(NotExecutable)
    else if ModeOf(node.stage) != Some(p.mode) then Err(WrongMode)
    else if !WithinBudget(p.bounds, node.budget) then Err(ExceedsBudget)
    else if !InTime(a.time(p.issuedAt), a.time(p.expiresAt), now) then Err(OutsideValidity)
    else if !a.pinned(p.issuerId) then Err(NoPinnedKey)
    else if !a.signed(p, Decode(g.signature)) then Err(Untrusted)
    else if !a.adopted(p.binding.workflowDigest) then Err(NotAdopted)
    else if !a.mayExecute(p.issuerId) then Err(MayNotExecute)
    else Ok(node)
  }

  /** The node the grant may be executed on, or the first reason why it may not. */
  function VerifyGrant(input: Option<SignedGrant>, m: Manifest, c: Context, digest: string, a: Authority,
                       now: int): Result<Node, GrantFault> {
    if !ProperWorkflow(m, a.described) then Err(GrantFault.InvalidWorkflow)
    else if !m.status.Approved? then Err(NotApproved)
    else if input.None? || !PayloadShape(input.value.payload) || !IsSignature(input.value.signature) then Err(InvalidShape)
    else if !SourceBound(a, input.value.payload, m, c, digest) then Err(StaleBinding)
    else if input.value.payload.nodeId !in Index(m.nodes) then Err(NotExecutable)
    else VerifyForNode(input.value, Index(m.nodes)[input.value.payload.nodeId], a, now)
  }

  /** What a verified grant guarantees of the node it names. */
  ghost predicate Sanctions(a: Authority, p: Payload, m: Manifest, node: Node, now: int) {
    && node in m.nodes && node.id == p.nodeId && !node.NeedsHuman() && !node.stage.Review?
    && 1 <= p.bounds.maxAttempts <= node.budget.maxAttempts <= 5
    && 1 <= |p.bounds.allowedPaths| <= p.bounds.maxFiles <= node.budget.maxFiles <= 30
    && 1 <= p.bounds.maxTokenEstimate <= node.budget.maxTokenEstimate <= 30000
    && a.time(p.expiresAt).Some? && now < a.time(p.expiresAt).value <= now + 3660000
    && (p.mode.EditScoped? <==> node.stage.Implement?) && (p.mode.TestScoped? <==> node.stage.Test?)
  }

  lemma VerifiedParts(g: SignedGrant, m: Manifest, c: Context, digest: string, a: Authority, now: int)
    requires VerifyGrant(Some(g), m, c, digest, a, now).Ok?
    ensures ProperManifest(m.nodes) && SourceBound(a, g.payload, m, c, digest) && g.payload.nodeId in Index(m.nodes)
    ensures IsSignature(g.signature) && a.signed(g.payload, Decode(g.signature))
    ensures var p, node := g.payload, Index(m.nodes)[g.payload.nodeId];
            && VerifyGrant(Some(g), m, c, digest, a, now) == Ok(node)
            && !node.humanGate && ModeOf(node.stage) == Some(p.mode)
            && p.bounds.WithinBounds() && WithinBudget(p.bounds, node.budget)
            && InTime(a.time(p.issuedAt), a.time(p.expiresAt), now)
  {
  }

  /**
   Where different manifests have different digests, one grant is verified for one manifest
   and one source only, and for less than sixty-one minutes.
   */
  lemma GrantFixesSource(g: SignedGrant, m: Manifest, c: Context, a: Authority, now: int, m': Manifest, c': Context,
                         now': int, digestOf: Manifest -> string)
    requires Injective(digestOf)
    requires VerifyGrant(Some(g), m, c, digestOf(m), a, now).Ok?
    requires VerifyGrant(Some(g), m', c', digestOf(m'), a, now').Ok?
    ensures m == m' && c == c' && -3660000 < now - now' < 3660000
    ensures VerifyGrant(Some(g), m, c, digestOf(m), a, now) == VerifyGrant(Some(g), m', c', digestOf(m'), a, now')
  {
    VerifiedParts(g, m, c, digestOf(m), a, now);
    VerifiedParts(g, m', c', digestOf(m'), a, now');
    assert digestOf(m) == digestOf(m');
  }

  lemma ProperlyIndexed(nodes: seq<Node>, id: string)
    requires ProperManifest(nodes) && id in Index(nodes)
    ensures var node := Index(nodes)[id]; node in nodes && node.id == id && node.budget.WithinBounds()
  {
    IndexHolds(nodes);
    var k :| 0 <= k < |nodes| && nodes[k] == Index(nodes)[id];
    assert ProperNode(Index(nodes), nodes[k]);
  }

  /** A verified grant sanctions its node, within the node's budget and for an hour and a minute at most. */
  lemma VerifiedIsSanctioned(g: SignedGrant, m: Manifest, c: Context, digest: string, a: Authority, now: int)
    requires VerifyGrant(Some(g), m, c, digest, a, now).Ok?
    ensures Sanctions(a, g.payload, m, VerifyGrant(Some(g), m, c, digest, a, now).value, now)
  {
    VerifiedParts(g, m, c, digest, a, now);
    ProperlyIndexed(m.nodes, g.payload.nodeId);
    SanctionedBy(a, g.payload, m, Index(m.nodes)[g.payload.nodeId], now);
  }

  lemma SanctionedBy(a: Authority, p: Payload, m: Manifest, node: Node, now: int)
    requires node in m.nodes && node.id == p.nodeId && node.budget.WithinBounds()
    requires !node.humanGate && ModeOf(node.stage) == Some(p.mode)
    requires p.bounds.WithinBounds() && WithinBudget(p.bounds, node.budget)
    requires InTime(a.time(p.issuedAt), a.time(p.expiresAt), now)
    ensures Sanctions(a, p, m, node, now)
  {
  }

  // ---------------------------------------------------------------- exactly which grants are verified

  /** The context's policy and the workflow's minimum are exact versions, and the one reaches the other. */
  ghost predicate PolicyReached(a: Authority, m: Manifest, c: Context) {
    && a.numbers(c.policyVersion).Some? && a.numbers(m.minimumPolicy).Some?
    && Policy.Exact(a.numbers(c.policyVersion).value) && Policy.Exact(a.numbers(m.minimumPolicy).value)
    && Policy.Reaches(a.numbers(c.policyVersion).value, a.numbers(m.minimumPolicy).value)
  }

  /** The payload is for this node: no person's, in the mode of its stage, within its budget. */
  ghost predicate ForNode(p: Payload, node: Node) {
    && node.id == p.nodeId && !node.humanGate && !node.stage.Release? && !node.stage.Review?
    && (p.mode.EditScoped? <==> node.stage.Implement?) && (p.mode.TestScoped? <==> node.stage.Test?)
    && p.bounds.maxAttempts <= node.budget.maxAttempts && p.bounds.maxFiles <= node.budget.maxFiles
    && p.bounds.maxTokenEstimate <= node.budget.maxTokenEstimate && |p.bounds.allowedPaths| <= p.bounds.maxFiles
  }

  /** Issued at most a minute ahead, not expired, and made for an hour at most. */
  ghost predicate Timely(a: Authority, p: Payload, now: int) {
    && a.time(p.issuedAt).Some? && a.time(p.expiresAt).Some?
    && a.time(p.issuedAt).value - 60000 <= now < a.time(p.expiresAt).value
    && a.time(p.issuedAt).value < a.time(p.expiresAt).value <= a.time(p.issuedAt).value + 3600000
  }

  ghost predicate Trusted(a: Authority, p: Payload, bytes: seq<nat>) {
    a.pinned(p.issuerId) && a.signed(p, bytes) && a.adopted(p.binding.workflowDigest) && a.mayExecute(p.issuerId)
  }

  lemma ModeFits(stage: Stage, mode: Mode)
    ensures ModeOf(stage) == Some(mode) <==>
      && !stage.Release? && !stage.Review?
      && (mode.EditScoped? <==> stage.Implement?) && (mode.TestScoped? <==> stage.Test?)
  {
  }

  lemma ForNodeExactly(g: SignedGrant, node: Node, a: Authority, now: int)
    requires IsSignature(g.signature) && node.id == g.payload.nodeId
    ensures VerifyForNode(g, node, a, now).Ok? <==>
              ForNode(g.payload, node) && Timely(a, g.payload, now) && Trusted(a, g.payload, Decode(g.signature))
  {
    ModeFits(node.stage, g.payload.mode);
  }

  /**
   The parts of the verdict on a grant, each said on its own. That no grant is refused that
   meets them all matters as much as that none is verified that does not.
   */
  lemma VerifiedExactly(g: SignedGrant, m: Manifest, c: Context, digest: string, a: Authority, now: int, node: Node)
    ensures VerifyGrant(Some(g), m, c, digest, a, now) == Ok(node) <==>
      && ProperWorkflow(m, a.described) && m.status.Approved? && PayloadShape(g.payload) && IsSignature(g.signature)
      && NamesSource(g.payload.binding, m, c, digest) && c.projectId == m.projectId && c.repository == m.repository
      && PolicyReached(a, m, c) && node in m.nodes && ForNode(g.payload, node)
      && Timely(a, g.payload, now) && Trusted(a, g.payload, Decode(g.signature))
  {
    if ProperWorkflow(m, a.described) && IsSignature(g.signature) {
      IndexFinds(m.nodes, g.payload.nodeId, node);
      SourceNamed(a, g.payload, m, c, digest);
      if node.id == g.payload.nodeId {
        ForNodeExactly(g, node, a, now);
      }
      if g.payload.nodeId in Index(m.nodes) {
        OnlyItsNode(g, Index(m.nodes)[g.payload.nodeId], a, now);
      }
    }
  }

  lemma OnlyItsNode(g: SignedGrant, node: Node, a: Authority, now: int)
    requires IsSignature(g.signature)
    ensures VerifyForNode(g, node, a, now).Ok? ==> VerifyForNode(g, node, a, now) == Ok(node)
  {
  }

  lemma SourceNamed(a: Authority, p: Payload, m: Manifest, c: Context, digest: string)
    ensures SourceBound(a, p, m, c, digest) <==>
              && NamesSource(p.binding, m, c, digest) && c.projectId == m.projectId && c.repository == m.repository
              && PolicyReached(a, m, c)
  {
  }

  // ---------------------------------------------------------------- one payload, several requests

  /** Texts that spell the same signature are verified alike. */
  lemma SpellingsVerifyAlike(p: Payload, s: string, t: string, m: Manifest, c: Context, digest: string, a: Authority,
                             now: int)
    requires IsSignature(s) && IsSignature(t) && Decode(s) == Decode(t)
    ensures VerifyGrant(Some(SignedGrant(p, s)), m, c, digest, a, now) == VerifyGrant(Some(SignedGrant(p, t)), m, c, digest, a, now)
  {
  }

  /**
   Grants of one payload are one request exactly when their signature texts agree. And every
   verified grant has sixteen signature texts, all verified alike, each a request of its own.
   */
  lemma RequestsAreTexts(g: SignedGrant, m: Manifest, c: Context, digest: string, a: Authority, now: int)
    requires Injective(a.requestId) && VerifyGrant(Some(g), m, c, digest, a, now).Ok?
    ensures forall h: SignedGrant :: h.payload == g.payload ==> (a.requestId(h) == a.requestId(g) <==> h.signature == g.signature)
    ensures |Spellings(g.signature)| == 16 && Distinct(Mapped(Spellings(g.signature), t => a.requestId(SignedGrant(g.payload, t))))
    ensures forall t :: t in Spellings(g.signature) ==>
              VerifyGrant(Some(SignedGrant(g.payload, t)), m, c, digest, a, now) == VerifyGrant(Some(g), m, c, digest, a, now)
  {
    VerifiedParts(g, m, c, digest, a, now);
    SixteenSpellings(g.signature);
    var texts := Spellings(g.signature);
    var ids := Mapped(texts, t => a.requestId(SignedGrant(g.payload, t)));
    forall i, j | 0 <= i < j < 16 ensures ids[i] != ids[j] {
      assert texts[i] != texts[j];
    }
    forall t | t in texts ensures VerifyGrant(Some(SignedGrant(g.payload, t)), m, c, digest, a, now) == VerifyGrant(Some(g), m, c, digest, a, now) {
      SpellingsVerifyAlike(g.payload, t, g.signature, m, c, digest, a, now);
    }
  }

  /** Where a payload has one signature, those sixteen requests are all it has. */
  lemma AtMostSixteenRequests(g: SignedGrant, h: SignedGrant, m: Manifest, c: Context, digest: string, a: Authority,
                              now: int)
    requires VerifyGrant(Some(g), m, c, digest, a, now).Ok? && VerifyGrant(Some(h), m, c, digest, a, now).Ok?
    requires h.payload == g.payload
    requires forall x, y :: a.signed(g.payload, x) && a.signed(g.payload, y) ==> x == y
    ensures a.requestId(h) in Mapped(Spellings(g.signature), t => a.requestId(SignedGrant(g.payload, t)))
  {
    VerifiedParts(g, m, c, digest, a, now);
    VerifiedParts(h, m, c, digest, a, now);
    SixteenSpellings(g.signature);
    var texts := Spellings(g.signature);
    var k :| 0 <= k < |texts| && texts[k] == h.signature;
    assert Mapped(texts, t => a.requestId(SignedGrant(g.payload, t)))[k] == a.requestId(SignedGrant(g.payload, h.signature));
  }

  // ---------------------------------------------------------------- the readiness plan

  /** The state a plan's rows give a node: that of its first row. */
  function StateIn(rows: seq<Row>, id: string): Option<State> {
    if rows == [] then None else if rows[0].id == id then Some(rows[0].state) else StateIn(rows[1..], id)
  }

  /** The plan was made for this source and has the node available. */
  predicate PlanAllows(plan: ReadinessPlan, m: Manifest, c: Context, digest: string, id: string) {
    && plan.source == SourceOf(BindingFor(m, c, digest))
    && id in plan.ready && StateIn(plan.rows, id) == Some(Available)
  }

  /** A plan computed for another source allows nothing for this one. */
  lemma OtherPlansAllowNothing(m: Manifest, c: Context, digest: string, other: Manifest, source: Context, made: string,
                               supplied: seq<Supplied>, o: Oracles, id: string)
    requires PlanAllows(PlanOf(other.nodes, BindingFor(other, source, made), supplied, o), m, c, digest, id)
    ensures other.workflowId == m.workflowId && other.workflowVersion == m.workflowVersion && made == digest
    ensures source.appHead == c.appHead && source.canonicalDigest == c.canonicalDigest && source.policyVersion == c.policyVersion
  {
  }

  datatype Refusal = BadGrant(fault: GrantFault) | NotReady | NotClaimed(refusal: Journal.Refusal)

  /** The whole execution of one grant. */
  method ExecuteBoundedWorkflowNode(input: Option<SignedGrant>, m: Manifest, c: Context, digest: string,
                                    plan: ReadinessPlan, a: Authority, journal: ExecutionJournal, now: int,
                                    sourceCurrent: bool, databaseUp: bool, turns: seq<Turn>)
    returns (r: Result<End, Refusal>)
    requires journal.Valid() && |turns| >= 5 && forall g :: IsDigest(a.requestId(g))
    modifies journal
    ensures journal.Valid()
    ensures r.Ok? <==>
      && VerifyGrant(input, m, c, digest, a, now).Ok?
      && PlanAllows(plan, m, c, digest, input.value.payload.nodeId)
      && sourceCurrent && databaseUp && a.requestId(input.value) !in old(journal.claims)
    ensures r.Ok? ==>
      var request := a.requestId(input.value);
      && r.value == Run(input.value.payload.bounds, turns) && Truthful(input.value.payload.bounds, turns, r.value)
      && RowsAre(journal.observations, request, r.value.attempts)
      && OthersKept(old(journal.observations), journal.observations, request)
      && journal.claims.Keys == old(journal.claims.Keys) + {request}
    ensures r.Err? ==> journal.observations == old(journal.observations) && journal.claims == old(journal.claims)
  {
    var node := VerifyGrant(input, m, c, digest, a, now);
    if node.Err? { return Err(BadGrant(node.error)); }
    var g := input.value;
    if !PlanAllows(plan, m, c, digest, g.payload.nodeId) { return Err(NotReady); }
    var end := ClaimAndDrive(journal, g.payload.bounds, a.requestId(g), a.time(g.payload.expiresAt), now, sourceCurrent, databaseUp, turns);
    if end.Err? { return Err(NotClaimed(end.error)); }
    r := Ok(end.value);
  }

  // ---------------------------------------------------------------- what is executed

  /**
   Under a plan computed from receipts for the same source, a verified grant is for a node
   that no person is needed for, that is not accepted yet, and whose dependencies all are.
   */
  lemma OnlyReadyNodesAreExecuted(g: SignedGrant, m: Manifest, c: Context, digest: string, a: Authority, now: int,
                                  supplied: seq<Supplied>, o: Oracles)
    requires VerifyGrant(Some(g), m, c, digest, a, now).Ok?
    requires PlanAllows(PlanOf(m.nodes, BindingFor(m, c, digest), supplied, o), m, c, digest, g.payload.nodeId)
    ensures var node := VerifyGrant(Some(g), m, c, digest, a, now).value;
            var f := FoldAll(supplied, value => Valid(Index(m.nodes), g.payload.binding, o, value));
            var accepted := Accepted(DependencyGraph(m.nodes), f.verified.Keys);
            && !node.NeedsHuman() && node.id !in accepted && (forall d :: d in node.dependsOn ==> d in accepted)
  {
    VerifiedParts(g, m, c, digest, a, now);
    ReadyNode(m.nodes, g.payload.binding, supplied, o, g.payload.nodeId);
  }

  lemma ReadyNode(nodes: seq<Node>, expected: Binding, supplied: seq<Supplied>, o: Oracles, id: string)
    requires ProperManifest(nodes) && id in Index(nodes) && id in PlanOf(nodes, expected, supplied, o).ready
    ensures var f := FoldAll(supplied, value => Valid(Index(nodes), expected, o, value));
            var accepted, node := Accepted(DependencyGraph(nodes), f.verified.Keys), Index(nodes)[id];
            !node.NeedsHuman() && node.id !in accepted && forall d :: d in node.dependsOn ==> d in accepted
  {
    assert id in DependencyGraph(nodes);
    var k := VertexIsNode(nodes, id);
    NodeIsVertex(nodes, k);
    ReadyExactly(nodes, expected, supplied, o, k);
  }

  lemma {:induction false} StateOf(rows: seq<Row>, k: nat)
    requires k < |rows| && forall j :: 0 <= j < |rows| && j != k ==> rows[j].id != rows[k].id
    ensures StateIn(rows, rows[k].id) == Some(rows[k].state)
  {
    if k > 0 {
      assert rows[0].id != rows[k].id;
      assert rows[1..][k - 1] == rows[k];
      StateOf(rows[1..], k - 1);
    }
  }

  /** Where rows have different ids, the first row of an id is available exactly when the id is ready. */
  lemma AvailableWhenReady(rows: seq<Row>, k: nat)
    requires k < |rows| && forall j :: 0 <= j < |rows| && j != k ==> rows[j].id != rows[k].id
    ensures StateIn(rows, rows[k].id) == Some(Available) <==> rows[k].id in ReadyIds(rows)
  {
    StateOf(rows, k);
    ReadyAt(rows, k);
  }

  lemma PlanRows(nodes: seq<Node>, expected: Binding, supplied: seq<Supplied>, o: Oracles)
    ensures var plan := PlanOf(nodes, expected, supplied, o);
      && plan.ready == ReadyIds(plan.rows) && plan.source == SourceOf(expected)
      && |plan.rows| == |nodes| && forall k :: 0 <= k < |nodes| ==> plan.rows[k].id == nodes[k].id
  {
  }

  /** A computed plan allows a node of its own source exactly when the node is ready. */
  lemma PlanAllowsExactly(m: Manifest, c: Context, digest: string, supplied: seq<Supplied>, o: Oracles, k: nat)
    requires Distinct(IdsOf(m.nodes)) && k < |m.nodes|
    ensures var plan := PlanOf(m.nodes, BindingFor(m, c, digest), supplied, o);
            PlanAllows(plan, m, c, digest, m.nodes[k].id) <==> m.nodes[k].id in plan.ready
  {
    var expected := BindingFor(m, c, digest);
    PlanRows(m.nodes, expected, supplied, o);
    RowsDiffer(m.nodes, PlanOf(m.nodes, expected, supplied, o).rows, k);
    AvailableWhenReady(PlanOf(m.nodes, expected, supplied, o).rows, k);
  }
}
