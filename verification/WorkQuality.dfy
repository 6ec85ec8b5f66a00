/**
 Work packages, quality gates and their evidence: what each call accepts, and what holds of
 the stored records over every run.
 */
module WorkQuality {
  import opened Wrappers
  import opened Text
  import opened Graphs
  import opened Sets
  import DepthFirst

  datatype WorkStatus = Planned | Blocked | Ready | InProgress | Testing | Review | Completed | Archived

  datatype WorkPackage = WorkPackage(id: string, projectId: string, dependencies: seq<string>, status: WorkStatus, recordVersion: int)

  datatype GateStatus = NotReady | Candidate | Pass | Fail

  datatype QualityGate = QualityGate(id: string, projectId: string, status: GateStatus, evidenceIds: seq<string>, recordVersion: int)

  datatype GateEvidence = GateEvidence(id: string, gateId: string, source: string, revision: string)

  type Packages = map<string, WorkPackage>

  datatype Store = Store(packages: Packages, gates: map<string, QualityGate>, evidence: map<string, GateEvidence>)

  const EMPTY := Store(map[], map[], map[])

  /** A condition on all members of a list, one member at a time. */
  ghost predicate All(s: seq<string>, good: string -> bool) {
    forall x :: x in s ==> good(x)
  }

  lemma AllSnoc(s: seq<string>, good: string -> bool)
    requires s != []
    ensures All(s, good) <==> All(s[..|s| - 1], good) && good(s[|s| - 1])
  {
    assert forall x :: x in s <==> x in s[..|s| - 1] || x == s[|s| - 1] by {
      assert s == s[..|s| - 1] + [s[|s| - 1]];
    }
  }

  // ---------------------------------------------------------------- dependencies of a package

  datatype Reason =
    | DependsOnItself
    | MissingDependency(id: string)
    | ForeignDependency(id: string)
    | DependencyCycle(trail: seq<string>)

  function DirectReason(candidate: WorkPackage, listed: Packages, dependency: string): seq<Reason> {
    if dependency == candidate.id then [DependsOnItself]
    else if dependency !in listed then [MissingDependency(dependency)]
    else if listed[dependency].projectId != candidate.projectId then [ForeignDependency(dependency)]
    else []
  }

  function DirectReasons(candidate: WorkPackage, listed: Packages, dependencies: seq<string>): seq<Reason> {
    if dependencies == [] then []
    else DirectReasons(candidate, listed, dependencies[..|dependencies| - 1])
         + DirectReason(candidate, listed, dependencies[|dependencies| - 1])
  }

  function CycleReasons(trails: seq<seq<string>>): (reasons: seq<Reason>)
    ensures |reasons| == |trails|
  {
    seq(|trails|, k requires 0 <= k < |trails| => DependencyCycle(trails[k]))
  }

  function PackageGraph(packages: Packages): Graph {
    map id | id in packages :: packages[id].dependencies
  }

  /** The project's graph with the candidate's dependencies put in. */
  function CandidateGraph(candidate: WorkPackage, listed: Packages): Graph {
    PackageGraph(listed)[candidate.id := candidate.dependencies]
  }

  /** Everything that speaks against a candidate, in the order it is found. */
  function AllReasons(candidate: WorkPackage, listed: Packages): seq<Reason> {
    DirectReasons(candidate, listed, candidate.dependencies)
    + CycleReasons(DepthFirst.Visit(CandidateGraph(candidate, listed), candidate.id, [], DepthFirst.START).trails)
  }

  /** Why a candidate is refused, each reason once. */
  function DependencyReasons(candidate: WorkPackage, listed: Packages): seq<Reason> {
    AddAll([], AllReasons(candidate, listed))
  }

  /** Another listed package of the candidate's project. */
  predicate Admissible(candidate: WorkPackage, listed: Packages, d: string) {
    d != candidate.id && d in listed && listed[d].projectId == candidate.projectId
  }

  /** The candidate fits the listed packages: its dependencies are others of its project and lead to no cycle. */
  ghost predicate Fits(candidate: WorkPackage, listed: Packages) {
    && (forall d :: d in candidate.dependencies ==> Admissible(candidate, listed, d))
    && !DepthFirst.CycleBelow(CandidateGraph(candidate, listed), candidate.id)
  }

  lemma {:induction false} DirectReasonsMean(candidate: WorkPackage, listed: Packages, dependencies: seq<string>)
    ensures DirectReasons(candidate, listed, dependencies) == [] <==> All(dependencies, d => Admissible(candidate, listed, d))
  {
    if dependencies != [] {
      DirectReasonsMean(candidate, listed, dependencies[..|dependencies| - 1]);
      AllSnoc(dependencies, d => Admissible(candidate, listed, d));
    }
  }

  /** The check refuses exactly the candidates that do not fit, though it searches from the candidate alone. */
  lemma RefusedExactly(candidate: WorkPackage, listed: Packages)
    ensures DependencyReasons(candidate, listed) == [] <==> Fits(candidate, listed)
  {
    DirectReasonsMean(candidate, listed, candidate.dependencies);
    DepthFirst.SearchFindsCycles(CandidateGraph(candidate, listed), candidate.id);
    NothingToReport(AllReasons(candidate, listed));
  }

  lemma NothingToReport(reasons: seq<Reason>)
    ensures AddAll([], reasons) == [] <==> reasons == []
  {
    AddAllMeans([], reasons);
    if reasons != [] {
      assert reasons[0] in reasons;
    }
  }

  // ---------------------------------------------------------------- what the reasons say

  lemma {:induction false} DirectReasonsAre(candidate: WorkPackage, listed: Packages, dependencies: seq<string>)
    ensures forall r :: r in DirectReasons(candidate, listed, dependencies) <==>
              exists d :: d in dependencies && r in DirectReason(candidate, listed, d)
  {
    if dependencies != [] {
      var rest, last := dependencies[..|dependencies| - 1], dependencies[|dependencies| - 1];
      DirectReasonsAre(candidate, listed, rest);
      assert dependencies == rest + [last];
      forall r ensures r in DirectReasons(candidate, listed, dependencies) <==>
                       exists d :: d in dependencies && r in DirectReason(candidate, listed, d)
      {
        assert last in dependencies;
        if d :| d in rest && r in DirectReason(candidate, listed, d) {
          assert d in dependencies;
        }
      }
    }
  }

  /** Each reason is given exactly when it is one, and a reported cycle is a path that comes back to itself. */
  ghost predicate Explains(reasons: seq<Reason>, candidate: WorkPackage, listed: Packages) {
    && Distinct(reasons)
    && (DependsOnItself in reasons <==> candidate.id in candidate.dependencies)
    && (forall d :: MissingDependency(d) in reasons <==> d in candidate.dependencies && d != candidate.id && d !in listed)
    && (forall d :: ForeignDependency(d) in reasons <==>
          d in candidate.dependencies && d != candidate.id && d in listed && listed[d].projectId != candidate.projectId)
    && forall trail :: DependencyCycle(trail) in reasons ==>
         DepthFirst.Lasso(CandidateGraph(candidate, listed), trail) && trail[0] == candidate.id
  }

  lemma ReasonsExplain(candidate: WorkPackage, listed: Packages)
    ensures Explains(DependencyReasons(candidate, listed), candidate, listed)
  {
    var g := CandidateGraph(candidate, listed);
    var trails := DepthFirst.Visit(g, candidate.id, [], DepthFirst.START).trails;
    DirectReasonsAre(candidate, listed, candidate.dependencies);
    DepthFirst.SearchFindsCycles(g, candidate.id);
    AddAllMeans([], AllReasons(candidate, listed));
    forall r: Reason | !r.DependencyCycle?
      ensures r in DependencyReasons(candidate, listed) <==>
              exists d :: d in candidate.dependencies && r in DirectReason(candidate, listed, d)
    {
    }
    forall trail | DependencyCycle(trail) in DependencyReasons(candidate, listed)
      ensures DepthFirst.Lasso(g, trail) && trail[0] == candidate.id
    {
      OnlySearchFindsCycles(candidate, listed, DependencyCycle(trail));
      var k :| 0 <= k < |CycleReasons(trails)| && CycleReasons(trails)[k] == DependencyCycle(trail);
      assert trails[k] == trail;
    }
    DirectReasonsSay(candidate, listed);
  }

  lemma OnlySearchFindsCycles(candidate: WorkPackage, listed: Packages, r: Reason)
    requires r.DependencyCycle? && r in DependencyReasons(candidate, listed)
    ensures r in CycleReasons(DepthFirst.Visit(CandidateGraph(candidate, listed), candidate.id, [], DepthFirst.START).trails)
  {
    AddAllMeans([], AllReasons(candidate, listed));
    DirectReasonsAre(candidate, listed, candidate.dependencies);
  }

  lemma DirectReasonsSay(candidate: WorkPackage, listed: Packages)
    ensures (exists d :: d in candidate.dependencies && DependsOnItself in DirectReason(candidate, listed, d)) <==> candidate.id in candidate.dependencies
    ensures forall x :: (exists d :: d in candidate.dependencies && MissingDependency(x) in DirectReason(candidate, listed, d)) <==>
              x in candidate.dependencies && x != candidate.id && x !in listed
    ensures forall x :: (exists d :: d in candidate.dependencies && ForeignDependency(x) in DirectReason(candidate, listed, d)) <==>
              x in candidate.dependencies && x != candidate.id && x in listed && listed[x].projectId != candidate.projectId
  {
    if candidate.id in candidate.dependencies {
      assert DependsOnItself in DirectReason(candidate, listed, candidate.id);
    }
    forall x | x in candidate.dependencies && x != candidate.id && x !in listed
      ensures exists d :: d in candidate.dependencies && MissingDependency(x) in DirectReason(candidate, listed, d)
    {
      assert MissingDependency(x) in DirectReason(candidate, listed, x);
    }
    forall x | x in candidate.dependencies && x != candidate.id && x in listed && listed[x].projectId != candidate.projectId
      ensures exists d :: d in candidate.dependencies && ForeignDependency(x) in DirectReason(candidate, listed, d)
    {
      assert ForeignDependency(x) in DirectReason(candidate, listed, x);
    }
  }

  // ---------------------------------------------------------------- readiness

  datatype Blocker = Missing(id: string) | NotCompleted(id: string, status: WorkStatus)

  function BlockerOf(dependency: string, listed: Packages): seq<Blocker> {
    if dependency !in listed then [Missing(dependency)]
    else if !listed[dependency].status.Completed? then [NotCompleted(dependency, listed[dependency].status)]
    else []
  }

  function BlockersOf(dependencies: seq<string>, listed: Packages): seq<Blocker> {
    if dependencies == [] then []
    else BlockersOf(dependencies[..|dependencies| - 1], listed) + BlockerOf(dependencies[|dependencies| - 1], listed)
  }

  predicate Finished(listed: Packages, d: string) {
    d in listed && listed[d].status.Completed?
  }

  lemma {:induction false} BlockersMean(dependencies: seq<string>, listed: Packages)
    ensures BlockersOf(dependencies, listed) == [] <==> All(dependencies, d => Finished(listed, d))
  {
    if dependencies != [] {
      BlockersMean(dependencies[..|dependencies| - 1], listed);
      AllSnoc(dependencies, d => Finished(listed, d));
    }
  }

  /** What blocks a package: each dependency that is missing, and each that is not completed, with its status. */
  lemma {:induction false} BlockersAre(dependencies: seq<string>, listed: Packages)
    ensures forall d :: Missing(d) in BlockersOf(dependencies, listed) <==> d in dependencies && d !in listed
    ensures forall d, status :: NotCompleted(d, status) in BlockersOf(dependencies, listed) <==>
              d in dependencies && d in listed && status == listed[d].status && !status.Completed?
  {
    if dependencies != [] {
      BlockersAre(dependencies[..|dependencies| - 1], listed);
      assert dependencies == dependencies[..|dependencies| - 1] + [dependencies[|dependencies| - 1]];
    }
  }

  // ---------------------------------------------------------------- passing a gate

  datatype GateReason = NoEvidence | UnknownEvidence(id: string) | ForeignEvidence(id: string) | NoProvenance(id: string)

  function EvidenceReason(gateId: string, id: string, listed: map<string, GateEvidence>): seq<GateReason> {
    if id !in listed then [UnknownEvidence(id)]
    else
      (if listed[id].gateId != gateId then [ForeignEvidence(id)] else []) +
      (if IsBlank(listed[id].source) || IsBlank(listed[id].revision) then [NoProvenance(id)] else [])
  }

  function EvidenceReasons(gateId: string, ids: seq<string>, listed: map<string, GateEvidence>): seq<GateReason> {
    if ids == [] then []
    else EvidenceReasons(gateId, ids[..|ids| - 1], listed) + EvidenceReason(gateId, ids[|ids| - 1], listed)
  }

  function GateReasons(gate: QualityGate, listed: map<string, GateEvidence>): seq<GateReason> {
    (if gate.evidenceIds == [] then [NoEvidence] else []) + EvidenceReasons(gate.id, gate.evidenceIds, listed)
  }

  /** Evidence of the gate that says where it comes from. */
  predicate Grounds(gateId: string, listed: map<string, GateEvidence>, e: string) {
    e in listed && listed[e].gateId == gateId && !IsBlank(listed[e].source) && !IsBlank(listed[e].revision)
  }

  /** The gate names evidence, and all of it is there, is its own and says where it comes from. */
  ghost predicate Evidenced(gate: QualityGate, listed: map<string, GateEvidence>) {
    gate.evidenceIds != [] && forall e :: e in gate.evidenceIds ==> Grounds(gate.id, listed, e)
  }

  lemma {:induction false} EvidenceReasonsMean(gateId: string, ids: seq<string>, listed: map<string, GateEvidence>)
    ensures EvidenceReasons(gateId, ids, listed) == [] <==> All(ids, e => Grounds(gateId, listed, e))
  {
    if ids != [] {
      EvidenceReasonsMean(gateId, ids[..|ids| - 1], listed);
      AllSnoc(ids, e => Grounds(gateId, listed, e));
    }
  }

  lemma PassesExactly(gate: QualityGate, listed: map<string, GateEvidence>)
    ensures GateReasons(gate, listed) == [] <==> Evidenced(gate, listed)
  {
    EvidenceReasonsMean(gate.id, gate.evidenceIds, listed);
  }

  lemma {:induction false} EvidenceReasonsAre(gateId: string, ids: seq<string>, listed: map<string, GateEvidence>)
    ensures NoEvidence !in EvidenceReasons(gateId, ids, listed)
    ensures forall e :: UnknownEvidence(e) in EvidenceReasons(gateId, ids, listed) <==> e in ids && e !in listed
    ensures forall e :: ForeignEvidence(e) in EvidenceReasons(gateId, ids, listed) <==> e in ids && e in listed && listed[e].gateId != gateId
    ensures forall e :: NoProvenance(e) in EvidenceReasons(gateId, ids, listed) <==>
              e in ids && e in listed && (IsBlank(listed[e].source) || IsBlank(listed[e].revision))
  {
    GivenExactly(gateId, ids, listed, NoEvidence);
    forall e ensures UnknownEvidence(e) in EvidenceReasons(gateId, ids, listed) <==> e in ids && e !in listed {
      GivenExactly(gateId, ids, listed, UnknownEvidence(e));
      assert IsSo(gateId, e, listed, UnknownEvidence(e)) <==> e !in listed;
    }
    forall e
      ensures ForeignEvidence(e) in EvidenceReasons(gateId, ids, listed) <==> e in ids && e in listed && listed[e].gateId != gateId
    {
      GivenExactly(gateId, ids, listed, ForeignEvidence(e));
      assert IsSo(gateId, e, listed, ForeignEvidence(e)) <==> e in listed && listed[e].gateId != gateId;
    }
    forall e
      ensures NoProvenance(e) in EvidenceReasons(gateId, ids, listed) <==>
                e in ids && e in listed && (IsBlank(listed[e].source) || IsBlank(listed[e].revision))
    {
      GivenExactly(gateId, ids, listed, NoProvenance(e));
      assert IsSo(gateId, e, listed, NoProvenance(e)) <==> e in listed && (IsBlank(listed[e].source) || IsBlank(listed[e].revision));
    }
  }

  /** What the reason says of this piece of evidence is so. */
  ghost predicate IsSo(gateId: string, id: string, listed: map<string, GateEvidence>, r: GateReason) {
    match r
    case NoEvidence => false
    case UnknownEvidence(e) => e == id && id !in listed
    case ForeignEvidence(e) => e == id && id in listed && listed[id].gateId != gateId
    case NoProvenance(e) => e == id && id in listed && (IsBlank(listed[id].source) || IsBlank(listed[id].revision))
  }

  lemma GivenForOne(gateId: string, id: string, listed: map<string, GateEvidence>, r: GateReason)
    ensures r in EvidenceReason(gateId, id, listed) <==> IsSo(gateId, id, listed, r)
  {
  }

  lemma {:induction false} GivenExactly(gateId: string, ids: seq<string>, listed: map<string, GateEvidence>, r: GateReason)
    ensures r in EvidenceReasons(gateId, ids, listed) <==> exists e :: e in ids && IsSo(gateId, e, listed, r)
  {
    if ids != [] {
      var rest, last := ids[..|ids| - 1], ids[|ids| - 1];
      GivenExactly(gateId, rest, listed, r);
      GivenForOne(gateId, last, listed, r);
      assert ids == rest + [last];
      if e :| e in ids && IsSo(gateId, e, listed, r) {
        assert e in rest || e == last;
      }
    }
  }

  /** Why a gate does not pass: no evidence is named, or one named is unknown, another gate's, or of no stated origin. */
  lemma GateReasonsAre(gate: QualityGate, listed: map<string, GateEvidence>)
    ensures NoEvidence in GateReasons(gate, listed) <==> gate.evidenceIds == []
    ensures forall e :: UnknownEvidence(e) in GateReasons(gate, listed) <==> e in gate.evidenceIds && e !in listed
    ensures forall e :: ForeignEvidence(e) in GateReasons(gate, listed) <==>
              e in gate.evidenceIds && e in listed && listed[e].gateId != gate.id
    ensures forall e :: NoProvenance(e) in GateReasons(gate, listed) <==>
              e in gate.evidenceIds && e in listed && (IsBlank(listed[e].source) || IsBlank(listed[e].revision))
  {
    EvidenceReasonsAre(gate.id, gate.evidenceIds, listed);
  }

  // ---------------------------------------------------------------- the calls

  function ProjectPackages(s: Store, projectId: string): Packages {
    map id | id in s.packages && s.packages[id].projectId == projectId :: s.packages[id]
  }

  function EvidenceOf(s: Store, gateId: string): map<string, GateEvidence> {
    map id | id in s.evidence && s.evidence[id].gateId == gateId :: s.evidence[id]
  }

  datatype Fault =
    | InvalidDependencies(reasons: seq<Reason>)
    | InsufficientEvidence(gateReasons: seq<GateReason>)
    | StartsAtPass
    | UnknownGate
    | AlreadyExists
    | WrongIncrement
    | VersionConflict

  datatype Call =
    | CreateWorkPackage(package: WorkPackage)
    | UpdateWorkPackage(package: WorkPackage, expected: int)
    | CreateQualityGate(gate: QualityGate)
    | UpdateQualityGate(gate: QualityGate, expected: int)
    | AddGateEvidence(evidence: GateEvidence)

  function CreatePackage(s: Store, p: WorkPackage): Result<Store, Fault> {
    var reasons := DependencyReasons(p, ProjectPackages(s, p.projectId));
    if reasons != [] then Err(InvalidDependencies(reasons)) else InsertPackage(s, p)
  }

  function InsertPackage(s: Store, p: WorkPackage): Result<Store, Fault> {
    if p.id in s.packages then Err(AlreadyExists) else Ok(s.(packages := s.packages[p.id := p]))
  }

  /** The row update, guarded by project and record version. */
  function WritePackage(s: Store, p: WorkPackage, expected: int): Result<Store, Fault> {
    if p.recordVersion != expected + 1 then Err(WrongIncrement)
    else if p.id !in s.packages || s.packages[p.id].projectId != p.projectId || s.packages[p.id].recordVersion != expected then
      Err(VersionConflict)
    else Ok(s.(packages := s.packages[p.id := p]))
  }

  function UpdatePackage(s: Store, p: WorkPackage, expected: int): Result<Store, Fault> {
    var reasons := DependencyReasons(p, ProjectPackages(s, p.projectId));
    if reasons != [] then Err(InvalidDependencies(reasons)) else WritePackage(s, p, expected)
  }

  function CreateGate(s: Store, gate: QualityGate): Result<Store, Fault> {
    if gate.status.Pass? then Err(StartsAtPass)
    else if gate.id in s.gates then Err(AlreadyExists)
    else Ok(s.(gates := s.gates[gate.id := gate]))
  }

  /** The row update of a gate whose evidence was listed earlier, possibly in an older store. */
  function WriteGate(s: Store, gate: QualityGate, expected: int, listed: map<string, GateEvidence>): Result<Store, Fault> {
    if gate.status.Pass? && GateReasons(gate, listed) != [] then Err(InsufficientEvidence(GateReasons(gate, listed)))
    else if gate.recordVersion != expected + 1 then Err(WrongIncrement)
    else if gate.id !in s.gates || s.gates[gate.id].projectId != gate.projectId || s.gates[gate.id].recordVersion != expected then
      Err(VersionConflict)
    else Ok(s.(gates := s.gates[gate.id := gate]))
  }

  function AddEvidence(s: Store, e: GateEvidence): Result<Store, Fault> {
    if e.gateId !in s.gates then Err(UnknownGate)
    else if e.id in s.evidence then Err(AlreadyExists)
    else Ok(s.(evidence := s.evidence[e.id := e]))
  }

  function Perform(s: Store, call: Call): Result<Store, Fault> {
    match call
    case CreateWorkPackage(p) => CreatePackage(s, p)
    case UpdateWorkPackage(p, expected) => UpdatePackage(s, p, expected)
    case CreateQualityGate(gate) => CreateGate(s, gate)
    case UpdateQualityGate(gate, expected) => WriteGate(s, gate, expected, EvidenceOf(s, gate.id))
    case AddGateEvidence(e) => AddEvidence(s, e)
  }

  /** The store after a sequence of calls; a refused call changes nothing. */
  function After(calls: seq<Call>): Store {
    if calls == [] then EMPTY
    else
      var s := After(calls[..|calls| - 1]);
      match Perform(s, calls[|calls| - 1])
      case Ok(t) => t
      case Err(_) => s
  }

  // ---------------------------------------------------------------- which calls succeed

  /** The record a call is about may be written: it is new, or it is the next version of what the project has. */
  ghost predicate MayCall(s: Store, call: Call) {
    match call
    case CreateWorkPackage(p) => p.id !in s.packages && Fits(p, ProjectPackages(s, p.projectId))
    case UpdateWorkPackage(p, expected) =>
      && Fits(p, ProjectPackages(s, p.projectId)) && p.id in s.packages && s.packages[p.id].projectId == p.projectId
      && s.packages[p.id].recordVersion == expected && p.recordVersion == expected + 1
    case CreateQualityGate(gate) => gate.id !in s.gates && !gate.status.Pass?
    case UpdateQualityGate(gate, expected) =>
      && gate.id in s.gates && s.gates[gate.id].projectId == gate.projectId
      && s.gates[gate.id].recordVersion == expected && gate.recordVersion == expected + 1
      && (gate.status.Pass? ==> Evidenced(gate, EvidenceOf(s, gate.id)))
    case AddGateEvidence(e) => e.id !in s.evidence && e.gateId in s.gates
  }

  /** The store with the record of the call, and nothing else changed. */
  ghost function WithRecord(s: Store, call: Call): Store {
    match call
    case CreateWorkPackage(p) => s.(packages := s.packages[p.id := p])
    case UpdateWorkPackage(p, _) => s.(packages := s.packages[p.id := p])
    case CreateQualityGate(gate) => s.(gates := s.gates[gate.id := gate])
    case UpdateQualityGate(gate, _) => s.(gates := s.gates[gate.id := gate])
    case AddGateEvidence(e) => s.(evidence := s.evidence[e.id := e])
  }

  /** A call is carried out exactly when it may be, and then writes its record and nothing else. */
  lemma CallsExactly(s: Store, call: Call)
    ensures Perform(s, call).Ok? <==> MayCall(s, call)
    ensures Perform(s, call).Ok? ==> Perform(s, call).value == WithRecord(s, call)
  {
    match call {
      case CreateWorkPackage(p) => RefusedExactly(p, ProjectPackages(s, p.projectId));
      case UpdateWorkPackage(p, _) => RefusedExactly(p, ProjectPackages(s, p.projectId));
      case UpdateQualityGate(gate, _) => PassesExactly(gate, EvidenceOf(s, gate.id));
      case _ =>
    }
  }

  // ---------------------------------------------------------------- what every run keeps

  /** Every dependency names another package of the same project. */
  ghost predicate StaysInProject(packages: Packages) {
    forall id, d :: id in packages && d in packages[id].dependencies ==>
      d != id && d in packages && packages[d].projectId == packages[id].projectId
  }

  ghost predicate Sound(s: Store) {
    && (forall id :: id in s.packages ==> s.packages[id].id == id)
    && StaysInProject(s.packages)
    && AllAcyclic(s)
    && (forall id :: id in s.gates ==> s.gates[id].id == id)
    && (forall id :: id in s.gates && s.gates[id].status.Pass? ==> Evidenced(s.gates[id], s.evidence))
  }

  /** A cycle through a vertex can be walked from it. */
  lemma CycleFrom(g: Graph, w: seq<string>, k: nat)
    requires IsCycle(g, w) && k < |w|
    ensures DepthFirst.CycleBelow(g, w[k])
  {
    var back := w[k..];
    forall i | 0 <= i < |back| - 1 ensures Edge(g, back[i], back[i + 1]) {
      assert Edge(g, w[k + i], w[k + i + 1]);
    }
    assert w[k] in g by {
      if k > 0 {
        assert Edge(g, w[k - 1], w[k - 1 + 1]);
      }
    }
    assert WalkBetween(g, back, w[k], w[0]);
    assert Reaches(g, w[k], w[0]);
  }

  /** New dependencies of one vertex close a cycle only if one can be reached from it. */
  lemma ChangeKeepsAcyclic(g: Graph, c: string, dependencies: seq<string>)
    requires Acyclic(g) && !DepthFirst.CycleBelow(g[c := dependencies], c)
    ensures Acyclic(g[c := dependencies])
  {
    var changed := g[c := dependencies];
    forall w ensures !IsCycle(changed, w) {
      if IsCycle(changed, w) {
        if k :| 0 <= k < |w| && w[k] == c {
          CycleFrom(changed, w, k);
        } else {
          forall i | 0 <= i < |w| - 1 ensures Edge(g, w[i], w[i + 1]) {
            assert Edge(changed, w[i], w[i + 1]) && w[i] != c && w[i + 1] != c;
          }
          assert IsCycle(g, w);
        }
      }
    }
  }

  /** The graphs of all projects. */
  ghost predicate AllAcyclic(s: Store) {
    forall project :: Acyclic(PackageGraph(ProjectPackages(s, project)))
  }

  lemma WritingKeepsAcyclic(s: Store, p: WorkPackage, t: Store)
    requires AllAcyclic(s) && !DepthFirst.CycleBelow(CandidateGraph(p, ProjectPackages(s, p.projectId)), p.id)
    requires p.id in s.packages ==> s.packages[p.id].projectId == p.projectId
    requires t.packages == s.packages[p.id := p]
    ensures AllAcyclic(t)
  {
    forall project ensures Acyclic(PackageGraph(ProjectPackages(t, project))) {
      assert Acyclic(PackageGraph(ProjectPackages(s, project)));
      if project == p.projectId {
        ChangeKeepsAcyclic(PackageGraph(ProjectPackages(s, project)), p.id, p.dependencies);
        WrittenGraph(s, p, t);
      } else {
        OtherProject(s, p, t, project);
      }
    }
  }

  lemma OtherProject(s: Store, p: WorkPackage, t: Store, project: string)
    requires p.id in s.packages ==> s.packages[p.id].projectId == p.projectId
    requires t.packages == s.packages[p.id := p] && project != p.projectId
    ensures ProjectPackages(t, project) == ProjectPackages(s, project)
  {
  }

  lemma WrittenGraph(s: Store, p: WorkPackage, t: Store)
    requires t.packages == s.packages[p.id := p]
    ensures PackageGraph(ProjectPackages(t, p.projectId)) == CandidateGraph(p, ProjectPackages(s, p.projectId))
  {
  }

  /** A package that fits can be written over its own older version, or added. */
  lemma WritingKeepsSound(s: Store, p: WorkPackage, t: Store)
    requires Sound(s) && Fits(p, ProjectPackages(s, p.projectId))
    requires p.id in s.packages ==> s.packages[p.id].projectId == p.projectId
    requires t == s.(packages := s.packages[p.id := p])
    ensures Sound(t)
  {
    WritingKeepsAcyclic(s, p, t);
    forall id, d | id in t.packages && d in t.packages[id].dependencies
      ensures d != id && d in t.packages && t.packages[d].projectId == t.packages[id].projectId
    {
      assert id == p.id ==> Admissible(p, ProjectPackages(s, p.projectId), d);
    }
  }

  /** A store that is sound after the write was given a package that fits. */
  lemma SoundMeansFits(s: Store, p: WorkPackage, t: Store)
    requires Sound(t) && t == s.(packages := s.packages[p.id := p])
    ensures Fits(p, ProjectPackages(s, p.projectId))
  {
    var listed := ProjectPackages(s, p.projectId);
    var g := PackageGraph(ProjectPackages(t, p.projectId));
    WrittenGraph(s, p, t);
    assert Acyclic(g);
    assert t.packages[p.id] == p;
    forall d | d in p.dependencies ensures Admissible(p, listed, d) {
      assert d in t.packages[p.id].dependencies;
      assert t.packages[d] == s.packages[d];
    }
  }

  /** Only the packages matter to the graphs. */
  lemma SameGraphs(s: Store, t: Store)
    requires AllAcyclic(s) && t.packages == s.packages
    ensures AllAcyclic(t)
  {
    forall project ensures Acyclic(PackageGraph(ProjectPackages(t, project))) {
      assert ProjectPackages(t, project) == ProjectPackages(s, project);
      assert Acyclic(PackageGraph(ProjectPackages(s, project)));
    }
  }

  /**
   A gate may pass on evidence listed in any earlier store: what was listed is still there.
   So the gate commands need no atomic service call, unlike the package commands.
   */
  lemma GateWriteKeepsSound(s: Store, gate: QualityGate, expected: int, listed: map<string, GateEvidence>)
    requires Sound(s) && forall e :: e in listed ==> e in s.evidence && s.evidence[e] == listed[e]
    ensures WriteGate(s, gate, expected, listed).Ok? ==> Sound(WriteGate(s, gate, expected, listed).value)
  {
    PassesExactly(gate, listed);
    if WriteGate(s, gate, expected, listed).Ok? {
      SameGraphs(s, WriteGate(s, gate, expected, listed).value);
    }
  }

  lemma PerformKeepsSound(s: Store, call: Call)
    requires Sound(s) && Perform(s, call).Ok?
    ensures Sound(Perform(s, call).value)
  {
    var t := Perform(s, call).value;
    match call {
      case CreateWorkPackage(p) =>
        RefusedExactly(p, ProjectPackages(s, p.projectId));
        WritingKeepsSound(s, p, t);
      case UpdateWorkPackage(p, expected) =>
        RefusedExactly(p, ProjectPackages(s, p.projectId));
        WritingKeepsSound(s, p, t);
      case CreateQualityGate(_) => SameGraphs(s, t);
      case UpdateQualityGate(gate, expected) => GateWriteKeepsSound(s, gate, expected, EvidenceOf(s, gate.id));
      case AddGateEvidence(_) => SameGraphs(s, t);
    }
  }

  /**
   After every sequence of calls each project's packages form an acyclic graph of their own,
   and every gate that stands at pass rests on evidence of its own.
   */
  lemma {:induction false} EveryRunIsSound(calls: seq<Call>)
    ensures Sound(After(calls))
  {
    if calls == [] {
      forall project ensures Acyclic(PackageGraph(ProjectPackages(EMPTY, project))) {
        forall w ensures !IsCycle(PackageGraph(ProjectPackages(EMPTY, project)), w) {
        }
      }
    } else {
      var s := After(calls[..|calls| - 1]);
      EveryRunIsSound(calls[..|calls| - 1]);
      if Perform(s, calls[|calls| - 1]).Ok? {
        PerformKeepsSound(s, calls[|calls| - 1]);
      }
    }
  }

  // ---------------------------------------------------------------- progress

  /** After every run, a project with work left has a package that is left and that nothing blocks. */
  lemma WorkIsNeverStuck(calls: seq<Call>, projectId: string, left: string) returns (next: string)
    requires left in ProjectPackages(After(calls), projectId)
    requires !ProjectPackages(After(calls), projectId)[left].status.Completed?
    ensures var listed := ProjectPackages(After(calls), projectId);
      && next in listed && !listed[next].status.Completed?
      && BlockersOf(listed[next].dependencies, listed) == []
  {
    EveryRunIsSound(calls);
    var listed := ProjectPackages(After(calls), projectId);
    var remaining := set id | id in listed && !listed[id].status.Completed?;
    assert left in remaining;
    next := DepthFirst.SinkIn(PackageGraph(listed), remaining);
    SinkIsFree(listed, next, remaining);
  }

  lemma SinkIsFree(listed: Packages, id: string, remaining: set<string>)
    requires id in listed && forall d :: d in listed[id].dependencies ==> d in listed
    requires forall d :: d in listed && !listed[d].status.Completed? ==> d in remaining
    requires forall b :: Edge(PackageGraph(listed), id, b) ==> b !in remaining
    ensures BlockersOf(listed[id].dependencies, listed) == []
  {
    BlockersMean(listed[id].dependencies, listed);
    forall d | d in listed[id].dependencies ensures Finished(listed, d) {
      assert Edge(PackageGraph(listed), id, d);
    }
  }

  /** In a stored project no blocker is ever a missing package. */
  lemma NothingIsMissing(calls: seq<Call>, projectId: string, id: string)
    requires id in ProjectPackages(After(calls), projectId)
    ensures var listed := ProjectPackages(After(calls), projectId);
            forall b :: b in BlockersOf(listed[id].dependencies, listed) ==> b.NotCompleted?
  {
    EveryRunIsSound(calls);
    var listed := ProjectPackages(After(calls), projectId);
    NoMissing(listed[id].dependencies, listed);
  }

  lemma {:induction false} NoMissing(dependencies: seq<string>, listed: Packages)
    requires forall d :: d in dependencies ==> d in listed
    ensures forall b :: b in BlockersOf(dependencies, listed) ==> b.NotCompleted?
  {
    if dependencies != [] {
      NoMissing(dependencies[..|dependencies| - 1], listed);
    }
  }

  // ---------------------------------------------------------------- why the calls must not interleave

  /** The check in one store and the row update in a later one. */
  function UpdateSplit(seen: Store, s: Store, p: WorkPackage, expected: int): Result<Store, Fault> {
    var reasons := DependencyReasons(p, ProjectPackages(seen, p.projectId));
    if reasons != [] then Err(InvalidDependencies(reasons)) else WritePackage(s, p, expected)
  }

  /** A split update keeps a store sound exactly when the package still fits the store it is written to. */
  lemma SplitUpdateIsSoundExactly(seen: Store, s: Store, p: WorkPackage, expected: int)
    requires Sound(s) && UpdateSplit(seen, s, p, expected).Ok?
    ensures Sound(UpdateSplit(seen, s, p, expected).value) <==> Fits(p, ProjectPackages(s, p.projectId))
  {
    var t := UpdateSplit(seen, s, p, expected).value;
    if Fits(p, ProjectPackages(s, p.projectId)) {
      WritingKeepsSound(s, p, t);
    }
    if Sound(t) {
      SoundMeansFits(s, p, t);
    }
  }

  /** Every package of the older store is still there, in its project. */
  ghost predicate Older(seen: Store, s: Store) {
    forall id :: id in seen.packages ==> id in s.packages && s.packages[id].projectId == seen.packages[id].projectId
  }

  /** The check in one store and the insertion in a later one. */
  function CreateSplit(seen: Store, s: Store, p: WorkPackage): Result<Store, Fault> {
    var reasons := DependencyReasons(p, ProjectPackages(seen, p.projectId));
    if reasons != [] then Err(InvalidDependencies(reasons)) else InsertPackage(s, p)
  }

  /** A new vertex that nothing leads to is on no cycle. */
  lemma NewVertexKeepsAcyclic(g: Graph, c: string, dependencies: seq<string>)
    requires Acyclic(g) && c !in g && c !in dependencies && forall v :: v in g ==> c !in g[v]
    ensures Acyclic(g[c := dependencies])
  {
    var grown := g[c := dependencies];
    forall w ensures !IsCycle(grown, w) {
      if IsCycle(grown, w) {
        assert forall a :: !Edge(grown, a, c);
        forall i | 0 <= i < |w| ensures w[i] != c {
          var before := if i > 0 then i - 1 else |w| - 2;
          assert Edge(grown, w[before], w[before + 1]);
        }
        forall i | 0 <= i < |w| - 1 ensures Edge(g, w[i], w[i + 1]) {
          assert Edge(grown, w[i], w[i + 1]);
        }
        assert IsCycle(g, w);
      }
    }
  }

  /** A creation checked in an older store keeps a store sound: nothing is deleted, and nothing depends on a new id. */
  lemma SplitCreationIsSound(seen: Store, s: Store, p: WorkPackage)
    requires Sound(s) && Older(seen, s) && CreateSplit(seen, s, p).Ok?
    ensures Sound(CreateSplit(seen, s, p).value)
  {
    var before, listed := ProjectPackages(seen, p.projectId), ProjectPackages(s, p.projectId);
    RefusedExactly(p, before);
    forall d | d in p.dependencies ensures Admissible(p, listed, d) {
      assert Admissible(p, before, d);
    }
    NewVertexKeepsAcyclic(PackageGraph(listed), p.id, p.dependencies);
    WritingKeepsSound(s, p, CreateSplit(seen, s, p).value);
  }

  lemma CallsGrow(seen: Store, s: Store, call: Call)
    requires Older(seen, s)
    ensures Perform(s, call).Ok? ==> Older(seen, Perform(s, call).value)
  {
  }

  /** An earlier store of a run is older than a later one. */
  lemma {:induction false} RunsGrow(calls: seq<Call>, n: nat)
    requires n <= |calls|
    ensures Older(After(calls[..n]), After(calls))
    decreases |calls|
  {
    if n == |calls| {
      assert calls[..n] == calls;
    } else {
      var rest := calls[..|calls| - 1];
      RunsGrow(rest, n);
      assert rest[..n] == calls[..n];
      CallsGrow(After(calls[..n]), After(rest), calls[|calls| - 1]);
    }
  }

  /** So whatever calls come between the check of a creation and its insertion, the store stays sound. */
  lemma CreationsMayInterleave(calls: seq<Call>, n: nat, p: WorkPackage)
    requires n <= |calls| && CreateSplit(After(calls[..n]), After(calls), p).Ok?
    ensures Sound(CreateSplit(After(calls[..n]), After(calls), p).value)
  {
    EveryRunIsSound(calls);
    RunsGrow(calls, n);
    SplitCreationIsSound(After(calls[..n]), After(calls), p);
  }

  /** A pair of packages, the first depending on the second, has no cycle below the first. */
  lemma PairFits(p: WorkPackage, listed: Packages, other: string)
    requires p.dependencies == [other] && other != p.id && listed.Keys == {p.id, other}
    requires listed[other].projectId == p.projectId && listed[other].dependencies == []
    ensures Fits(p, listed)
  {
    var g := CandidateGraph(p, listed);
    assert g[other] == [] && g[p.id] == [other];
    assert Topological(g, [other, p.id]) by {
      assert [other, p.id][..1] == [other];
    }
    DepthFirst.NoCycleBelow(g, [other, p.id], p.id);
  }

  /** Two packages of one project, depending on these. */
  function Pair(p: seq<string>, pVersion: int, q: seq<string>, qVersion: int): Store {
    EMPTY.(packages := map["p" := WorkPackage("p", "project", p, Planned, pVersion),
                           "q" := WorkPackage("q", "project", q, Planned, qVersion)])
  }

  lemma PairIsSound()
    ensures Sound(Pair([], 1, [], 1))
  {
    var p, q := WorkPackage("p", "project", [], Planned, 1), WorkPackage("q", "project", [], Planned, 1);
    var one := EMPTY.(packages := map["p" := p]);
    EveryRunIsSound([]);
    AloneFits(p, ProjectPackages(EMPTY, "project"));
    WritingKeepsSound(EMPTY, p, one);
    assert AllAcyclic(one) && Acyclic(PackageGraph(ProjectPackages(one, "project")));
    AloneFits(q, ProjectPackages(one, "project"));
    WritingKeepsSound(one, q, Pair([], 1, [], 1));
  }

  lemma MutualPairIsUnsound()
    ensures !Sound(Pair(["q"], 2, ["p"], 2))
  {
    var s := Pair(["q"], 2, ["p"], 2);
    var g := PackageGraph(ProjectPackages(s, "project"));
    assert Edge(g, "p", "q") && Edge(g, "q", "p");
    assert IsCycle(g, ["p", "q", "p"]);
  }

  lemma PairWrites(p: WorkPackage, q: WorkPackage)
    requires p == WorkPackage("p", "project", ["q"], Planned, 2) && q == WorkPackage("q", "project", ["p"], Planned, 2)
    ensures WritePackage(Pair([], 1, [], 1), p, 1) == Ok(Pair(["q"], 2, [], 1))
    ensures WritePackage(Pair(["q"], 2, [], 1), q, 1) == Ok(Pair(["q"], 2, ["p"], 2))
  {
    assert Pair([], 1, [], 1).packages["p" := p] == Pair(["q"], 2, [], 1).packages;
    assert Pair(["q"], 2, [], 1).packages["q" := q] == Pair(["q"], 2, ["p"], 2).packages;
  }

  lemma PairMembers(listed: Packages)
    requires listed == ProjectPackages(Pair([], 1, [], 1), "project")
    ensures listed.Keys == {"p", "q"}
    ensures listed["p"].dependencies == [] && listed["q"].dependencies == []
    ensures listed["p"].projectId == "project" && listed["q"].projectId == "project"
  {
  }

  /** Two updates checked against the same store and written one after the other can close a cycle. */
  lemma InterleavedUpdatesCloseACycle() returns (seen: Store, p: WorkPackage, q: WorkPackage)
    ensures Sound(seen)
    ensures var first := UpdateSplit(seen, seen, p, 1);
      first.Ok? && var second := UpdateSplit(seen, first.value, q, 1);
      second.Ok? && !Sound(second.value)
  {
    seen := Pair([], 1, [], 1);
    p, q := WorkPackage("p", "project", ["q"], Planned, 2), WorkPackage("q", "project", ["p"], Planned, 2);
    PairIsSound();
    var listed := ProjectPackages(seen, "project");
    PairMembers(listed);
    PairFits(p, listed, "q");
    PairFits(q, listed, "p");
    RefusedExactly(p, listed);
    RefusedExactly(q, listed);
    PairWrites(p, q);
    MutualPairIsUnsound();
  }

  lemma AloneFits(p: WorkPackage, listed: Packages)
    requires p.dependencies == [] && Acyclic(PackageGraph(listed)) && p.id !in listed
    ensures Fits(p, listed)
  {
    var g := CandidateGraph(p, listed);
    assert g[p.id] == [];
    assert Topological(g, [p.id]);
    DepthFirst.NoCycleBelow(g, [p.id], p.id);
  }
}
