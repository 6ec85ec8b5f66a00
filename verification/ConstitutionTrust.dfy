/**
 Who and what stands behind the amendments: every revision was made by a principal who owned
 the authority, and everything filed had passed the check it needed.
 */
module ConstitutionTrust {
  import opened Wrappers
  import opened Amendment
  import opened ConstitutionStore
  import opened ConstitutionProtocol
  import opened ConstitutionSafety

  // ---------------------------------------------------------------- what is logged

  /** The name under which the step to a stage is logged. */
  function LogName(stage: Stage): string {
    match stage
    case Draft => "AMENDMENT_CREATED"
    case ImpactReviewed => "IMPACT_REVIEW_COMPLETED"
    case MigrationReady => "MIGRATION_PLAN_COMPLETED"
    case RatificationReady => "RATIFICATION_OPENED"
    case Ratified => "AMENDMENT_RATIFIED"
    case Rejected => "AMENDMENT_REJECTED"
    case Published => "CONSTITUTION_PUBLISHED"
    case Propagating => "CONSTITUTION_PROPAGATION_STARTED"
    case Verified => "CONSTITUTION_VERIFIED"
  }

  /** The stage a command leads to. */
  function Target(command: Command): Stage {
    match command
    case RecordEvidence(kind, _, _) => if kind.ImpactKind? then ImpactReviewed else MigrationReady
    case OpenRatification => RatificationReady
    case Decide(verdict) => if verdict.Approve? then Ratified else Rejected
    case PublishLaw(_) => Published
    case PropagateLaw(_) => Propagating
    case VerifyLaw(_) => Verified
  }

  lemma LeadsToTarget(w: Local, id: string, next: Record)
    requires w.Working? && Moves(w, id, next)
    ensures next.stage == Target(w.command) && next.proposal == w.current.proposal && next.recordVersion == w.current.recordVersion + 1
  {
  }

  /** A carried-out command logs who did it, under the name of the stage it leads to. */
  lemma CommitLogs(s: Store, owner: string, principal: string, w: Local, next: Record, id: string, publicationId: string)
    requires w.Working? && next.proposal == w.current.proposal && Transact(s, owner, principal, w, next, id, publicationId).Ok?
    ensures Transact(s, owner, principal, w, next, id, publicationId).value.revisions
            == s.revisions[(next.proposal.id, next.recordVersion) := Revision(principal, LogName(Target(w.command)), next)]
  {
    match w.command {
      case RecordEvidence(kind, _, _) =>
      case OpenRatification =>
      case Decide(verdict) =>
      case PublishLaw(_) =>
      case PropagateLaw(_) =>
      case VerifyLaw(_) =>
    }
  }

  // ---------------------------------------------------------------- who acted

  /** The principal owned the authority at some time up to state k of the run. */
  ghost predicate WasOwner(run: seq<System>, k: nat, principal: string)
    requires k < |run|
  {
    exists j :: 0 <= j <= k && run[j].owner == principal
  }

  /** Every revision was made by an owner under the name of its stage, and every command at work was begun by one. */
  ghost predicate Logged(run: seq<System>, k: nat)
    requires k < |run|
  {
    && (forall key :: key in run[k].store.revisions ==>
          && WasOwner(run, k, run[k].store.revisions[key].actor)
          && run[k].store.revisions[key].action == LogName(run[k].store.revisions[key].document.stage))
    && forall i :: i in run[k].sessions && run[k].sessions[i].local.Working? ==> WasOwner(run, k, run[k].sessions[i].principal)
  }

  lemma OwnerStays(run: seq<System>, k: nat, principal: string)
    requires k + 1 < |run| && WasOwner(run, k, principal)
    ensures WasOwner(run, k + 1, principal)
  {
  }

  lemma CommitKeepsLog(env: Env, run: seq<System>, k: nat, i: nat, id: string, publicationId: string)
    requires k + 1 < |run| && Logged(run, k) && CommitStep(env, run[k], i, id, publicationId, run[k + 1])
    ensures Logged(run, k + 1)
  {
    var y, z := run[k], run[k + 1];
    var session := y.sessions[i];
    var w := session.local;
    var next := CanonicalNext(w.current, Requested(w, id).value);
    var r := Transact(y.store, y.owner, session.principal, w, next, id, publicationId);
    RequestedMoves(env, w, id);
    LeadsToTarget(w, id, next);
    if r.Ok? {
      CommitLogs(y.store, y.owner, session.principal, w, next, id, publicationId);
    }
    assert WasOwner(run, k, session.principal);
    LogGrows(run, k, next, session.principal);
  }

  /** The log is as before, or has one more entry by an owner, and no new command is at work. */
  lemma LogGrows(run: seq<System>, k: nat, next: Record, principal: string)
    requires k + 1 < |run| && Logged(run, k) && WasOwner(run, k, principal)
    requires
      || run[k + 1].store.revisions == run[k].store.revisions
      || run[k + 1].store.revisions
         == run[k].store.revisions[(next.proposal.id, next.recordVersion) := Revision(principal, LogName(next.stage), next)]
    requires forall i :: i in run[k + 1].sessions && run[k + 1].sessions[i].local.Working? ==>
               run[k + 1].sessions[i].principal == principal || (i in run[k].sessions && run[k].sessions[i].local.Working?
                 && run[k].sessions[i].principal == run[k + 1].sessions[i].principal)
    ensures Logged(run, k + 1)
  {
    var before, after := run[k].store.revisions, run[k + 1].store.revisions;
    OwnerStays(run, k, principal);
    forall key | key in after ensures WasOwner(run, k + 1, after[key].actor) && after[key].action == LogName(after[key].document.stage) {
      if key in before && after[key] == before[key] {
        OwnerStays(run, k, before[key].actor);
      }
    }
    var sessions := run[k + 1].sessions;
    forall i | i in sessions && sessions[i].local.Working? ensures WasOwner(run, k + 1, sessions[i].principal) {
      if sessions[i].principal != principal {
        OwnerStays(run, k, run[k].sessions[i].principal);
      }
    }
  }

  lemma StepKeepsLog(env: Env, run: seq<System>, k: nat, step: Step)
    requires k + 1 < |run| && Logged(run, k) && NextBy(env, run[k], step, run[k + 1])
    ensures Logged(run, k + 1)
  {
    assert WasOwner(run, k, run[k].owner);
    match step {
      case CreateDraft(i, proposal) => LogGrows(run, k, NewDraft(proposal, run[k].owner), run[k].owner);
      case Commit(i, id, publicationId) => CommitKeepsLog(env, run, k, i, id, publicationId);
      case _ => LogGrows(run, k, NewDraft(Proposal("", "", "", false), ""), run[k].owner);
    }
  }

  /**
   In every state of every run, each revision was made by a principal who owned the authority
   at some time before, and is logged under the name of the stage it led to.
   */
  lemma {:induction false} RunIsLogged(env: Env, run: seq<System>, k: nat)
    requires IsRun(env, run) && k < |run|
    ensures Logged(run, k)
  {
    if k > 0 {
      RunIsLogged(env, run, k - 1);
      assert Next(env, run[k - 1], run[k - 1 + 1]);
      var step :| NextBy(env, run[k - 1], step, run[k - 1 + 1]);
      StepKeepsLog(env, run, k - 1, step);
    }
  }

  // ---------------------------------------------------------------- what was checked

  /** The report was verified, on a publication of the amendment that is on file. */
  ghost predicate Reported(env: Env, s: Store, e: Evidence, compliant: bool) {
    exists p, anyCompliant ::
      && p in s.publications.Values && p.amendmentId == e.amendmentId && (compliant ==> anyCompliant)
      && env.verifiesLifecycle(LifecycleAttestation(e.amendmentId, p.id, p.policyVersion, e.revision, e.digest, anyCompliant))
  }

  /** What this piece of evidence needed to be filed had been checked. */
  ghost predicate EvidenceVouched(env: Env, s: Store, e: Evidence) {
    match e.kind
    case ImpactKind => env.isDigest(e.digest)
    case MigrationKind => env.isDigest(e.digest)
    case PublicationKind => exists version :: env.verifies(Attestation(version, e.revision, e.digest))
    case PropagationKind => Reported(env, s, e, false)
    case VerificationKind => Reported(env, s, e, true)
  }

  ghost predicate PublicationVouched(env: Env, p: Publication) {
    var attestation := Attestation(p.policyVersion, p.sourceRevision, p.authoritySetDigest);
    env.isWellFormed(attestation) && env.verifies(attestation)
  }

  ghost predicate Vouched(env: Env, s: Store) {
    && (forall e :: e in s.evidence.Values ==> EvidenceVouched(env, s, e))
    && forall p :: p in s.publications.Values ==> PublicationVouched(env, p)
  }

  /** A session works with a publication only if it is on file, for its amendment. */
  ghost predicate ReadsFiled(s: Store, w: Local) {
    w.Working? && w.publication.Some? ==> w.publication.value in s.publications.Values && w.publication.value.amendmentId == w.current.proposal.id
  }

  lemma VouchedStays(env: Env, s: Store, t: Store, e: Evidence)
    requires EvidenceVouched(env, s, e) && forall p :: p in s.publications.Values ==> p in t.publications.Values
    ensures EvidenceVouched(env, t, e)
  {
    if e.kind.PropagationKind? || e.kind.VerificationKind? {
      var p, any :|
        && p in s.publications.Values && p.amendmentId == e.amendmentId && (e.kind.VerificationKind? ==> any)
        && env.verifiesLifecycle(LifecycleAttestation(e.amendmentId, p.id, p.policyVersion, e.revision, e.digest, any));
      assert p in t.publications.Values;
    }
  }

  /** What a ready command files has been checked. */
  lemma FiledIsVouched(env: Env, s: Store, w: Local, principal: string, id: string, publicationId: string)
    requires w.Working? && ReadyToCommit(env, w) && ReadsFiled(s, w)
    ensures FiledEvidence(principal, w, id).Some? ==> EvidenceVouched(env, s, FiledEvidence(principal, w, id).value)
    ensures FiledPublication(principal, w, publicationId).Some? ==> PublicationVouched(env, FiledPublication(principal, w, publicationId).value)
  {
    match w.command {
      case PublishLaw(a) => assert env.verifies(Attestation(a.policyVersion, a.sourceRevision, a.authoritySetDigest));
      case PropagateLaw(a) => ReportIsVouched(env, s, w, a, PropagationKind, principal, id);
      case VerifyLaw(a) => ReportIsVouched(env, s, w, a, VerificationKind, principal, id);
      case _ =>
    }
  }

  lemma ReportIsVouched(env: Env, s: Store, w: Local, a: LifecycleAttestation, kind: EvidenceKind, principal: string,
                        id: string)
    requires w.Working? && w.publication.Some? && ReadsFiled(s, w) && MatchesPublication(a, w.current, w.publication.value)
    requires env.verifiesLifecycle(a) && (kind.VerificationKind? ==> a.allCompliant)
    ensures Reported(env, s, Evidence(id, w.current.proposal.id, kind, a.revision, a.digest, principal), kind.VerificationKind?)
  {
    var p := w.publication.value;
    assert a == LifecycleAttestation(w.current.proposal.id, p.id, p.policyVersion, a.revision, a.digest, a.allCompliant);
    assert p in s.publications.Values && env.verifiesLifecycle(LifecycleAttestation(w.current.proposal.id, p.id, p.policyVersion, a.revision, a.digest, a.allCompliant));
  }

  lemma FilesStayVouched(env: Env, s: Store, t: Store, e: Option<Evidence>, p: Option<Publication>)
    requires Vouched(env, s) && FilesEvidence(s, t, e) && FilesPublication(s, t, p)
    requires (e.Some? ==> EvidenceVouched(env, s, e.value)) && (p.Some? ==> PublicationVouched(env, p.value))
    ensures Vouched(env, t) && forall q :: q in s.publications.Values ==> q in t.publications.Values
  {
    forall q | q in s.publications.Values ensures q in t.publications.Values {
      var k :| k in s.publications && s.publications[k] == q;
      assert k in t.publications && t.publications[k] == q;
    }
    forall x | x in t.evidence.Values ensures EvidenceVouched(env, t, x) {
      var k :| k in t.evidence && t.evidence[k] == x;
      if e.Some? && k == e.value.id {
        VouchedStays(env, s, t, x);
      } else {
        assert s.evidence[k] == x;
        VouchedStays(env, s, t, x);
      }
    }
    forall x | x in t.publications.Values ensures PublicationVouched(env, x) {
      var k :| k in t.publications && t.publications[k] == x;
      if !(p.Some? && k == p.value.id) {
        assert s.publications[k] == x;
      }
    }
  }

  ghost predicate AllVouched(env: Env, y: System) {
    Vouched(env, y.store) && forall i :: i in y.sessions ==> ReadsFiled(y.store, y.sessions[i].local)
  }

  lemma CommitVouches(env: Env, y: System, i: nat, id: string, publicationId: string, z: System)
    requires AllVouched(env, y) && CommitStep(env, y, i, id, publicationId, z)
    ensures AllVouched(env, z)
  {
    var session := y.sessions[i];
    var w := session.local;
    var next := CanonicalNext(w.current, Requested(w, id).value);
    RequestedMoves(env, w, id);
    LeadsToTarget(w, id, next);
    if Transact(y.store, y.owner, session.principal, w, next, id, publicationId).Ok? {
      var r := TransactFiles(y.store, y.owner, session.principal, w, next, id, publicationId);
      FiledIsVouched(env, y.store, w, session.principal, id, publicationId);
      FilesStayVouched(env, y.store, z.store, FiledEvidence(session.principal, w, id), FiledPublication(session.principal, w, publicationId));
    }
  }

  lemma StepVouches(env: Env, y: System, step: Step, z: System)
    requires AllVouched(env, y) && NextBy(env, y, step, z)
    ensures AllVouched(env, z)
  {
    if step.Commit? {
      CommitVouches(env, y, step.i, step.id, step.publicationId, z);
    }
  }

  /** In every state of every run, whatever is on file had passed the check it needed. */
  lemma {:induction false} RunIsVouched(env: Env, run: seq<System>, k: nat)
    requires IsRun(env, run) && k < |run|
    ensures AllVouched(env, run[k])
  {
    if k > 0 {
      RunIsVouched(env, run, k - 1);
      assert Next(env, run[k - 1], run[k - 1 + 1]);
      var step :| NextBy(env, run[k - 1], step, run[k - 1 + 1]);
      StepVouches(env, run[k - 1], step, run[k]);
    }
  }
}
