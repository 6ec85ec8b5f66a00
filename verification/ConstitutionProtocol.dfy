/**
 Many sessions working on amendments at once. A command reads what it needs in separate
 steps, other sessions may commit in between, and only the final transaction is atomic.
 */
module ConstitutionProtocol {
  import opened Wrappers
  import opened Amendment
  import opened ConstitutionStore

  datatype Attestation = Attestation(policyVersion: string, sourceRevision: string, authoritySetDigest: string)

  /** What a lifecycle attestation says of the amendment it is about. */
  datatype LifecycleAttestation = LifecycleAttestation(
    amendmentId: string, publicationId: string, policyVersion: string, revision: string, digest: string, allCompliant: bool)

  /** Shapes of revisions and digests, and the trusted verifiers. */
  datatype Env = Env(
    isRevision: string -> bool,
    isDigest: string -> bool,
    isWellFormed: Attestation -> bool,
    verifies: Attestation -> bool,
    verifiesLifecycle: LifecycleAttestation -> bool)

  datatype Command =
    | RecordEvidence(kind: EvidenceKind, revision: string, digest: string)
    | OpenRatification
    | Decide(verdict: Verdict)
    | PublishLaw(attestation: Attestation)
    | PropagateLaw(lifecycle: LifecycleAttestation)
    | VerifyLaw(lifecycle: LifecycleAttestation)

  /** How far a command has come: what it has read and checked so far. */
  datatype Local =
    | Idle
    | Working(command: Command, current: Record, approved: bool, seal: Option<Evidence>, rechecked: bool, publication: Option<Publication>)

  datatype Session = Session(principal: string, local: Local)

  datatype System = System(owner: string, store: Store, sessions: map<nat, Session>)

  // ---------------------------------------------------------------- checks of the service

  function FirstOf(listed: seq<Evidence>, ids: seq<string>, kind: EvidenceKind): Option<Evidence> {
    if listed == [] then None
    else if listed[0].id in ids && listed[0].kind == kind then Some(listed[0])
    else FirstOf(listed[1..], ids, kind)
  }

  /** The migration evidence that seals the candidate, reviewed for impact at the same revision. */
  function ReviewedCandidate(env: Env, current: Record, listed: seq<Evidence>): Option<Evidence> {
    var impact := FirstOf(listed, current.impactEvidenceIds, ImpactKind);
    var migration := FirstOf(listed, current.migrationEvidenceIds, MigrationKind);
    if impact.None? || migration.None? || !env.isRevision(migration.value.revision)
       || impact.value.revision != migration.value.revision || !env.isDigest(migration.value.digest) then None
    else migration
  }

  /** A ratified record whose approval is on file and whose reviewer still holds the authority. */
  predicate ValidRatification(s: Store, owner: string, current: Record) {
    && current.stage.Ratified? && current.ratificationDecisionId.Some?
    && current.ratificationDecisionId.value in s.decisions
    && var d := s.decisions[current.ratificationDecisionId.value];
       && d.verdict.Approve? && d.amendmentId == current.proposal.id
       && d.amendmentRecordVersion == current.recordVersion - 1 && d.reviewer == owner
  }

  predicate MatchesSeal(attestation: Attestation, seal: Evidence) {
    attestation.sourceRevision == seal.revision && attestation.authoritySetDigest == seal.digest
  }

  predicate MatchesPublication(a: LifecycleAttestation, current: Record, p: Publication) {
    && a.amendmentId == current.proposal.id && a.publicationId == p.id
    && a.policyVersion == current.proposal.targetPolicyVersion && a.policyVersion == p.policyVersion
  }

  /** The evidence, if any, and the decision, if any, that go with a command's transaction. */
  function EvidenceFor(principal: string, w: Local, id: string): Evidence
    requires w.Working?
  {
    var amendment := w.current.proposal.id;
    match w.command
    case RecordEvidence(kind, revision, digest) => Evidence(id, amendment, kind, revision, digest, principal)
    case PublishLaw(a) => Evidence(id, amendment, PublicationKind, a.sourceRevision, a.authoritySetDigest, principal)
    case PropagateLaw(a) => Evidence(id, amendment, PropagationKind, a.revision, a.digest, principal)
    case VerifyLaw(a) => Evidence(id, amendment, VerificationKind, a.revision, a.digest, principal)
    case _ => Evidence(id, amendment, ImpactKind, "", "", principal)
  }

  function PublicationFor(principal: string, w: Local, id: string): Publication
    requires w.Working? && w.command.PublishLaw?
  {
    var a := w.command.attestation;
    Publication(id, w.current.proposal.id, w.current.recordVersion, a.policyVersion, principal, a.sourceRevision, a.authoritySetDigest)
  }

  /** The transition a command asks for, with the id of its evidence or of its decision. */
  function Requested(w: Local, id: string): Result<Record, Refusal>
    requires w.Working?
  {
    match w.command
    case RecordEvidence(kind, _, _) =>
      Transition(w.current, if kind.ImpactKind? then CompleteImpactReview else CompleteMigrationPlan, [id], None)
    case OpenRatification => Transition(w.current, Action.OpenRatification, [], None)
    case Decide(verdict) => Transition(w.current, if verdict.Approve? then Ratify else Reject, [], Some(id))
    case PublishLaw(_) => Transition(w.current, Publish, [id], None)
    case PropagateLaw(_) => Transition(w.current, BeginPropagation, [id], None)
    case VerifyLaw(_) => Transition(w.current, Verify, [id], None)
  }

  /** Every check the service makes before its transaction has been made and has passed. */
  predicate ReadyToCommit(env: Env, w: Local)
    requires w.Working?
  {
    var current := w.current;
    match w.command
    case RecordEvidence(kind, _, digest) =>
      && env.isDigest(digest)
      && (if current.stage.Draft? then kind.ImpactKind?
          else current.stage.ImpactReviewed? && kind.MigrationKind?)
    case OpenRatification => w.seal.Some?
    case Decide(verdict) => current.stage.RatificationReady? && (verdict.Approve? ==> w.seal.Some?)
    case PublishLaw(a) =>
      && w.approved && w.seal.Some? && w.rechecked
      && env.isWellFormed(a) && a.policyVersion == current.proposal.targetPolicyVersion
      && MatchesSeal(a, w.seal.value) && env.verifies(a)
    case PropagateLaw(a) =>
      && current.stage.Published? && current.publicationEvidenceId.Some?
      && w.publication.Some? && MatchesPublication(a, current, w.publication.value) && env.verifiesLifecycle(a)
    case VerifyLaw(a) =>
      && current.stage.Propagating? && current.propagationEvidenceIds != []
      && w.publication.Some? && MatchesPublication(a, current, w.publication.value)
      && a.allCompliant && env.verifiesLifecycle(a)
  }

  /** The command's transaction, with the ids it generates for its evidence or decision and for a publication. */
  function Transact(s: Store, owner: string, principal: string, w: Local, next: Record, id: string, publicationId: string):
    Result<Store, StoreError>
    requires w.Working?
  {
    var expected := w.current.recordVersion;
    match w.command
    case RecordEvidence(kind, _, _) =>
      AppendEvidenceAndUpdate(s, EvidenceFor(principal, w, id), next, expected, principal,
                              if kind.ImpactKind? then "IMPACT_REVIEW_COMPLETED" else "MIGRATION_PLAN_COMPLETED")
    case OpenRatification => UpdateAmendment(s, next, expected, principal, "RATIFICATION_OPENED")
    case Decide(verdict) =>
      AppendDecisionAndUpdate(s, Decision(id, w.current.proposal.id, expected, principal, verdict), next, expected)
    case PublishLaw(_) =>
      AppendPublicationAndUpdate(s, owner, PublicationFor(principal, w, publicationId), EvidenceFor(principal, w, id), next, expected)
    case PropagateLaw(_) =>
      AppendEvidenceAndUpdate(s, EvidenceFor(principal, w, id), next, expected, principal, "CONSTITUTION_PROPAGATION_STARTED")
    case VerifyLaw(_) =>
      AppendEvidenceAndUpdate(s, EvidenceFor(principal, w, id), next, expected, principal, "CONSTITUTION_VERIFIED")
  }

  // ---------------------------------------------------------------- steps

  datatype Step =
    | CreateDraft(i: nat, proposal: Proposal)
    | Begin(i: nat, amendmentId: string, expected: int, command: Command)
    | CheckApproval(i: nat)
    | ReadSeal(i: nat, listed: seq<Evidence>)
    | Recheck(i: nat)
    | ReadPublication(i: nat, publication: Publication)
    | Commit(i: nat, id: string, publicationId: string)
    | Abandon(i: nat)
    | OwnerChanges(owner: string)

  function NewDraft(proposal: Proposal, principal: string): Record {
    Record(proposal, Draft, [], [], None, None, [], [], principal, 1)
  }

  /** The list is the amendment's evidence, in whatever order. */
  ghost predicate ListsEvidence(s: Store, amendmentId: string, listed: seq<Evidence>) {
    forall e :: e in listed <==> e in s.evidence.Values && e.amendmentId == amendmentId
  }

  ghost function WithLocal(y: System, i: nat, local: Local): System
    requires i in y.sessions
  {
    y.(sessions := y.sessions[i := y.sessions[i].(local := local)])
  }

  ghost predicate CreateStep(y: System, i: nat, proposal: Proposal, z: System) {
    && i in y.sessions && y.sessions[i].principal == y.owner
    && z == y.(store := After(y.store, CreateAmendment(y.store, NewDraft(proposal, y.sessions[i].principal))))
  }

  ghost predicate BeginStep(y: System, i: nat, id: string, expected: int, command: Command, z: System) {
    && i in y.sessions && y.sessions[i].local.Idle? && y.sessions[i].principal == y.owner
    && IsCurrent(y.store, id, expected)
    && z == WithLocal(y, i, Working(command, y.store.amendments[id], false, None, false, None))
  }

  ghost predicate IsWorking(y: System, i: nat) {
    i in y.sessions && y.sessions[i].local.Working?
  }

  ghost predicate ApprovalStep(y: System, i: nat, z: System) {
    && IsWorking(y, i)
    && ValidRatification(y.store, y.owner, y.sessions[i].local.current)
    && z == WithLocal(y, i, y.sessions[i].local.(approved := true))
  }

  ghost predicate SealStep(env: Env, y: System, i: nat, listed: seq<Evidence>, z: System) {
    && IsWorking(y, i)
    && var w := y.sessions[i].local;
    && ListsEvidence(y.store, w.current.proposal.id, listed)
    && ReviewedCandidate(env, w.current, listed).Some?
    && z == WithLocal(y, i, w.(seal := ReviewedCandidate(env, w.current, listed)))
  }

  ghost predicate RecheckStep(y: System, i: nat, z: System) {
    && IsWorking(y, i)
    && var w := y.sessions[i].local;
    && w.approved && w.seal.Some?
    && y.sessions[i].principal == y.owner
    && IsCurrent(y.store, w.current.proposal.id, w.current.recordVersion)
    && ValidRatification(y.store, y.owner, y.store.amendments[w.current.proposal.id])
    && z == WithLocal(y, i, w.(rechecked := true))
  }

  ghost predicate PublicationStep(y: System, i: nat, p: Publication, z: System) {
    && IsWorking(y, i)
    && var w := y.sessions[i].local;
    && p in y.store.publications.Values && p.amendmentId == w.current.proposal.id
    && z == WithLocal(y, i, w.(publication := Some(p)))
  }

  /** The transaction succeeds or is refused; either way the command is over. */
  ghost predicate CommitStep(env: Env, y: System, i: nat, id: string, publicationId: string, z: System) {
    && IsWorking(y, i) && Tidy(id)
    && var session := y.sessions[i];
    && ReadyToCommit(env, session.local)
    && Requested(session.local, id).Ok?
    && var next := CanonicalNext(session.local.current, Requested(session.local, id).value);
       z == WithLocal(y.(store := After(y.store, Transact(y.store, y.owner, session.principal, session.local, next, id, publicationId))), i, Idle)
  }

  ghost predicate NextBy(env: Env, y: System, step: Step, z: System) {
    match step
    case CreateDraft(i, proposal) => CreateStep(y, i, proposal, z)
    case Begin(i, id, expected, command) => BeginStep(y, i, id, expected, command, z)
    case CheckApproval(i) => ApprovalStep(y, i, z)
    case ReadSeal(i, listed) => SealStep(env, y, i, listed, z)
    case Recheck(i) => RecheckStep(y, i, z)
    case ReadPublication(i, p) => PublicationStep(y, i, p, z)
    case Commit(i, id, publicationId) => CommitStep(env, y, i, id, publicationId, z)
    case Abandon(i) => IsWorking(y, i) && z == WithLocal(y, i, Idle)
    case OwnerChanges(owner) => z == y.(owner := owner)
  }

  ghost predicate Next(env: Env, y: System, z: System) {
    exists step :: NextBy(env, y, step, z)
  }

  ghost predicate Init(y: System) {
    && y.store.amendments == map[] && y.store.revisions == map[] && y.store.evidence == map[]
    && y.store.decisions == map[] && y.store.publications == map[]
    && forall i :: i in y.sessions ==> y.sessions[i].local.Idle?
  }

  /** Any interleaving of the sessions' steps, from an empty store. */
  ghost predicate IsRun(env: Env, run: seq<System>) {
    && run != [] && Init(run[0])
    && forall k :: 0 <= k < |run| - 1 ==> Next(env, run[k], run[k + 1])
  }
}
