/** The service calls on work packages and gates, over tables that change in place. */
module WorkQualityService {
  import opened Wrappers
  import opened Sets
  import opened WorkQuality
  import DepthFirst
  import opened DependencyWalk

  method ValidateWorkPackageDependencies(candidate: WorkPackage, listed: Packages) returns (reasons: seq<Reason>)
    ensures reasons == DependencyReasons(candidate, listed)
    ensures reasons == [] <==> Fits(candidate, listed)
    ensures Distinct(reasons) && forall r :: r in reasons <==> r in AllReasons(candidate, listed)
  {
    var found := FindReasons(candidate, listed);
    reasons := [];
    assert found[0..] == found;
    for k := 0 to |found|
      invariant AddAll([], found) == AddAll(reasons, found[k..])
    {
      assert found[k..][1..] == found[k + 1..];
      reasons := Add(reasons, found[k]);
    }
    RefusedExactly(candidate, listed);
    AddAllMeans([], found);
  }

  /** The direct reasons, then the cycles a search from the candidate finds. */
  method FindReasons(candidate: WorkPackage, listed: Packages) returns (reasons: seq<Reason>)
    ensures reasons == AllReasons(candidate, listed)
  {
    reasons := [];
    for k := 0 to |candidate.dependencies|
      invariant reasons == DirectReasons(candidate, listed, candidate.dependencies[..k])
    {
      var dependency := candidate.dependencies[k];
      var longer := candidate.dependencies[..k + 1];
      assert longer[..|longer| - 1] == candidate.dependencies[..k];
      if dependency == candidate.id {
        reasons := reasons + [DependsOnItself];
      } else if dependency !in listed {
        reasons := reasons + [MissingDependency(dependency)];
      } else if listed[dependency].projectId != candidate.projectId {
        reasons := reasons + [ForeignDependency(dependency)];
      }
    }
    assert candidate.dependencies[..|candidate.dependencies|] == candidate.dependencies;
    var walk := new Walk();
    walk.Visit(CandidateGraph(candidate, listed), candidate.id, []);
    ghost var found := DepthFirst.Visit(CandidateGraph(candidate, listed), candidate.id, [], DepthFirst.START).trails;
    assert walk.State().trails == found;
    for k := 0 to |walk.trails|
      invariant walk.trails == found
      invariant reasons == DirectReasons(candidate, listed, candidate.dependencies) + CycleReasons(found)[..k]
    {
      reasons := reasons + [DependencyCycle(walk.trails[k])];
    }
  }

  class Service {
    var packages: map<string, WorkPackage>
    var gates: map<string, QualityGate>
    var evidence: map<string, GateEvidence>

    ghost function State(): Store
      reads this
    {
      Store(packages, gates, evidence)
    }

    constructor ()
      ensures State() == EMPTY
    {
      packages, gates, evidence := map[], map[], map[];
    }

    /** Whether a call did what its function says: the new state, or the refusal and no change. */
    ghost predicate Did(before: Store, fault: Option<Fault>, result: Result<Store, Fault>)
      reads this
    {
      match result
      case Ok(after) => fault == None && State() == after
      case Err(f) => fault == Some(f) && State() == before
    }

    method CreateWorkPackage(p: WorkPackage) returns (fault: Option<Fault>)
      modifies this
      ensures Did(old(State()), fault, Perform(old(State()), Call.CreateWorkPackage(p)))
    {
      var listed := map id | id in packages && packages[id].projectId == p.projectId :: packages[id];
      var reasons := ValidateWorkPackageDependencies(p, listed);
      assert listed == ProjectPackages(State(), p.projectId);
      if reasons != [] { return Some(InvalidDependencies(reasons)); }
      if p.id in packages { return Some(AlreadyExists); }
      packages := packages[p.id := p];
      fault := None;
    }

    method UpdateWorkPackage(p: WorkPackage, expected: int) returns (fault: Option<Fault>)
      modifies this
      ensures Did(old(State()), fault, Perform(old(State()), Call.UpdateWorkPackage(p, expected)))
    {
      var listed := map id | id in packages && packages[id].projectId == p.projectId :: packages[id];
      var reasons := ValidateWorkPackageDependencies(p, listed);
      assert listed == ProjectPackages(State(), p.projectId);
      if reasons != [] { return Some(InvalidDependencies(reasons)); }
      if p.recordVersion != expected + 1 { return Some(WrongIncrement); }
      if p.id !in packages || packages[p.id].projectId != p.projectId || packages[p.id].recordVersion != expected {
        return Some(VersionConflict);
      }
      packages := packages[p.id := p];
      fault := None;
    }

    method CreateQualityGate(gate: QualityGate) returns (fault: Option<Fault>)
      modifies this
      ensures Did(old(State()), fault, Perform(old(State()), Call.CreateQualityGate(gate)))
    {
      if gate.status.Pass? { return Some(StartsAtPass); }
      if gate.id in gates { return Some(AlreadyExists); }
      gates := gates[gate.id := gate];
      fault := None;
    }

    method UpdateQualityGate(gate: QualityGate, expected: int) returns (fault: Option<Fault>)
      modifies this
      ensures Did(old(State()), fault, Perform(old(State()), Call.UpdateQualityGate(gate, expected)))
    {
      if gate.status.Pass? {
        var listed := map id | id in evidence && evidence[id].gateId == gate.id :: evidence[id];
        assert listed == EvidenceOf(State(), gate.id);
        var reasons := GateReasons(gate, listed);
        if reasons != [] { return Some(InsufficientEvidence(reasons)); }
      }
      if gate.recordVersion != expected + 1 { return Some(WrongIncrement); }
      if gate.id !in gates || gates[gate.id].projectId != gate.projectId || gates[gate.id].recordVersion != expected {
        return Some(VersionConflict);
      }
      gates := gates[gate.id := gate];
      fault := None;
    }

    method AddGateEvidence(e: GateEvidence) returns (fault: Option<Fault>)
      modifies this
      ensures Did(old(State()), fault, Perform(old(State()), Call.AddGateEvidence(e)))
    {
      if e.gateId !in gates { return Some(UnknownGate); }
      if e.id in evidence { return Some(AlreadyExists); }
      evidence := evidence[e.id := e];
      fault := None;
    }

    method Readiness(id: string) returns (blockers: Option<seq<Blocker>>)
      ensures blockers == if id !in packages then None
                          else Some(BlockersOf(packages[id].dependencies, ProjectPackages(State(), packages[id].projectId)))
    {
      if id !in packages { return None; }
      var projectId := packages[id].projectId;
      var listed := map other | other in packages && packages[other].projectId == projectId :: packages[other];
      assert listed == ProjectPackages(State(), projectId);
      var dependencies := packages[id].dependencies;
      var found: seq<Blocker> := [];
      for k := 0 to |dependencies|
        invariant found == BlockersOf(dependencies[..k], listed)
      {
        assert dependencies[..k + 1][..k] == dependencies[..k];
        if dependencies[k] !in listed {
          found := found + [Missing(dependencies[k])];
        } else if !listed[dependencies[k]].status.Completed? {
          found := found + [NotCompleted(dependencies[k], listed[dependencies[k]].status)];
        }
      }
      assert dependencies[..|dependencies|] == dependencies;
      blockers := Some(found);
    }
  }
}
