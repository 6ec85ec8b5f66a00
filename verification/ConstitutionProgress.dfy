/**
 The amendment protocol can be carried through: from every state of every run in which an
 amendment is a draft for a version not yet published, the owner can make it law and see
 it verified, whether or not it requires a migration.
 */
module ConstitutionProgress {
  import opened Wrappers
  import opened Amendment
  import opened Sets
  import opened ConstitutionStore
  import opened ConstitutionProtocol
  import opened ConstitutionSafety

  // ---------------------------------------------------------------- runs grow step by step

  ghost function Last(run: seq<System>): System
    requires run != []
  {
    run[|run| - 1]
  }

  lemma OneStep(env: Env, run: seq<System>, step: Step, z: System)
    requires IsRun(env, run) && NextBy(env, Last(run), step, z)
    ensures IsRun(env, run + [z]) && Last(run + [z]) == z
  {
    var longer := run + [z];
    forall k | 0 <= k < |longer| - 1 ensures Next(env, longer[k], longer[k + 1]) {
      if k < |run| - 1 {
        assert Next(env, run[k], run[k + 1]);
      }
    }
  }

  // ---------------------------------------------------------------- decisions are made once

  /** A decision is on file only for an amendment past ratification readiness. */
  ghost predicate DecisionsFollow(s: Store) {
    forall d :: d in s.decisions.Values ==> d.amendmentId in s.amendments && s.amendments[d.amendmentId].stage.Rank() >= 5
  }

  lemma CommitFollows(env: Env, s: Store, owner: string, principal: string, w: Local, id: string, publicationId: string)
    requires StoreOk(Legal(), s) && LocalOk(s, w) && w.Working? && ReadyToCommit(env, w) && Tidy(id)
    requires Requested(w, id).Ok? && DecisionsFollow(s)
    ensures DecisionsFollow(After(s, Transact(s, owner, principal, w, CanonicalNext(w.current, Requested(w, id).value), id, publicationId)))
  {
    var next := CanonicalNext(w.current, Requested(w, id).value);
    RequestedMoves(env, w, id);
    var r := Transact(s, owner, principal, w, next, id, publicationId);
    if r.Ok? {
      var revision := TransactFiles(s, owner, principal, w, next, id, publicationId);
      assert HistoryOk(Legal(), s, w.current.proposal.id);
      StillCurrent(Legal(), s, w.current);
      DecisionsAfter(s, r.value, w, FiledDecision(principal, w, id), next, id);
    }
  }

  lemma DecisionsAfter(s: Store, t: Store, w: Local, d: Option<Decision>, next: Record, id: string)
    requires w.Working? && Moves(w, id, next) && DecisionsFollow(s) && FilesDecision(s, t, d)
    requires t.amendments == s.amendments[w.current.proposal.id := next] && w.current.proposal.id in s.amendments
    requires s.amendments[w.current.proposal.id] == w.current
    requires d.Some? ==> w.command.Decide? && d.value.amendmentId == w.current.proposal.id
    ensures DecisionsFollow(t)
  {
    forall x | x in t.decisions.Values ensures x.amendmentId in t.amendments && t.amendments[x.amendmentId].stage.Rank() >= 5 {
      var k :| k in t.decisions && t.decisions[k] == x;
      if d.Some? && k == d.value.id {
        assert x == d.value;
      } else {
        assert s.decisions[k] == x;
      }
    }
  }

  lemma StepFollows(env: Env, y: System, step: Step, z: System)
    requires Inv(Legal(), y) && NextBy(env, y, step, z) && DecisionsFollow(y.store)
    ensures DecisionsFollow(z.store)
  {
    if step.Commit? {
      CommitFollows(env, y.store, y.owner, y.sessions[step.i].principal, y.sessions[step.i].local, step.id, step.publicationId);
    }
  }

  lemma {:induction false} RunFollows(env: Env, run: seq<System>, k: nat)
    requires IsRun(env, run) && k < |run|
    ensures Inv(Legal(), run[k]) && DecisionsFollow(run[k].store)
  {
    if k == 0 {
      InitOk(Legal(), run[0]);
    } else {
      RunFollows(env, run, k - 1);
      assert Next(env, run[k - 1], run[k - 1 + 1]);
      var step :| NextBy(env, run[k - 1], step, run[k]);
      StepKeeps(env, run[k - 1], step, run[k]);
      StepFollows(env, run[k - 1], step, run[k]);
    }
  }

  // ---------------------------------------------------------------- one command, start to end

  lemma BeginCommand(env: Env, run: seq<System>, i: nat, id: string, command: Command) returns (longer: seq<System>)
    requires IsRun(env, run) && i in Last(run).sessions && Last(run).sessions[i] == Session(Last(run).owner, Idle)
    requires id in Last(run).store.amendments
    ensures IsRun(env, longer) && run <= longer
    ensures Last(longer) == WithLocal(Last(run), i, Working(command, Last(run).store.amendments[id], false, None, false, None))
  {
    var y := Last(run);
    var z := WithLocal(y, i, Working(command, y.store.amendments[id], false, None, false, None));
    OneStep(env, run, Begin(i, id, y.store.amendments[id].recordVersion, command), z);
    longer := run + [z];
  }

  /** The store is as before, and the session has this much done. */
  ghost predicate Reached(env: Env, run: seq<System>, y: System, i: nat, w: Local) {
    && IsRun(env, run) && i in y.sessions && Last(run) == WithLocal(y, i, w)
  }

  /** The evidence of an amendment as a list. */
  lemma EvidenceListed(s: Store, id: string) returns (listed: seq<Evidence>)
    ensures ListsEvidence(s, id, listed)
  {
    var mine := set e | e in s.evidence.Values && e.amendmentId == id;
    listed := ListOf(mine);
  }

  lemma {:induction false} ListOf<T>(s: set<T>) returns (list: seq<T>)
    ensures forall x :: x in list <==> x in s
    decreases s
  {
    if s == {} {
      list := [];
    } else {
      var x :| x in s;
      list := ListOf(s - {x});
      list := list + [x];
    }
  }

  lemma {:induction false} FirstOfFinds(listed: seq<Evidence>, ids: seq<string>, kind: EvidenceKind, e: Evidence)
    requires e in listed && e.id in ids && e.kind == kind
    requires forall x :: x in listed && x.id in ids ==> x == e
    ensures FirstOf(listed, ids, kind) == Some(e)
  {
    if !(listed[0].id in ids && listed[0].kind == kind) {
      FirstOfFinds(listed[1..], ids, kind, e);
    }
  }

  /** Both reviews are on file at this revision, the migration under this digest. */
  ghost predicate ReviewedAt(s: Store, a: Record, revision: string, digest: string) {
    && OnFile(s, a.proposal.id, a.impactEvidenceIds, ImpactKind) && OnFile(s, a.proposal.id, a.migrationEvidenceIds, MigrationKind)
    && s.evidence[a.impactEvidenceIds[0]].revision == revision
    && s.evidence[a.migrationEvidenceIds[0]].revision == revision && s.evidence[a.migrationEvidenceIds[0]].digest == digest
  }

  lemma SealFound(env: Env, s: Store, a: Record, listed: seq<Evidence>, revision: string, digest: string)
    requires forall k :: k in s.evidence ==> s.evidence[k].id == k
    requires ListsEvidence(s, a.proposal.id, listed) && ReviewedAt(s, a, revision, digest)
    requires env.isRevision(revision) && env.isDigest(digest)
    ensures ReviewedCandidate(env, a, listed) == Some(s.evidence[a.migrationEvidenceIds[0]])
  {
    var impact, migration := s.evidence[a.impactEvidenceIds[0]], s.evidence[a.migrationEvidenceIds[0]];
    assert impact in s.evidence.Values && migration in s.evidence.Values;
    FirstOfFinds(listed, a.impactEvidenceIds, ImpactKind, impact);
    FirstOfFinds(listed, a.migrationEvidenceIds, MigrationKind, migration);
  }

  /** The session reads the seal of its amendment. */
  lemma ReadTheSeal(env: Env, run: seq<System>, y: System, i: nat, w: Local, revision: string, digest: string)
    returns (longer: seq<System>)
    requires Reached(env, run, y, i, w) && w.Working? && ReviewedAt(y.store, w.current, revision, digest)
    requires forall k :: k in y.store.evidence ==> y.store.evidence[k].id == k
    requires env.isRevision(revision) && env.isDigest(digest)
    ensures Reached(env, longer, y, i, w.(seal := Some(y.store.evidence[w.current.migrationEvidenceIds[0]]))) && run <= longer
  {
    var listed := EvidenceListed(y.store, w.current.proposal.id);
    SealFound(env, y.store, w.current, listed, revision, digest);
    var z := WithLocal(y, i, w.(seal := Some(y.store.evidence[w.current.migrationEvidenceIds[0]])));
    assert z == WithLocal(Last(run), i, w.(seal := Some(y.store.evidence[w.current.migrationEvidenceIds[0]])));
    OneStep(env, run, ReadSeal(i, listed), z);
    longer := run + [z];
  }

  // ---------------------------------------------------------------- the commit goes through

  /** The id is a new one. */
  ghost predicate New(s: Store, id: string) {
    Tidy(id) && id !in s.evidence && id !in s.decisions
  }

  /** Nothing is published under this id, for this amendment, or for this version. */
  ghost predicate Unpublished(s: Store, a: Record, publicationId: string) {
    && publicationId !in s.publications
    && forall q :: q in s.publications.Values ==> q.amendmentId != a.proposal.id && q.policyVersion != a.proposal.targetPolicyVersion
  }

  lemma NotDecided(s: Store, a: Record, d: Decision)
    requires DecisionsFollow(s) && a.proposal.id in s.amendments && s.amendments[a.proposal.id] == a && a.stage.RatificationReady?
    requires d.amendmentId == a.proposal.id && d.id !in s.decisions
    ensures !DecisionTaken(s, d)
  {
    forall x | x in s.decisions.Values ensures x.amendmentId != d.amendmentId {
      assert x.amendmentId in s.amendments && s.amendments[x.amendmentId].stage.Rank() >= 5;
    }
  }

  lemma GoesWhenFree(s: Store, owner: string, w: Local, next: Record, id: string, publicationId: string)
    requires w.Working? && DecisionsFollow(s) && New(s, id)
    requires w.current.proposal.id in s.amendments && s.amendments[w.current.proposal.id] == w.current
    requires next.proposal == w.current.proposal && next.recordVersion == w.current.recordVersion + 1 && !RevisionTaken(s, next)
    requires w.command.Decide? ==> w.current.stage.RatificationReady?
    requires w.command.PublishLaw? ==>
      && ValidRatification(s, owner, w.current) && Unpublished(s, w.current, publicationId)
      && w.command.attestation.policyVersion == w.current.proposal.targetPolicyVersion
      && next.publicationEvidenceId == Some(id) && next.ratificationDecisionId == w.current.ratificationDecisionId
    ensures Transact(s, owner, owner, w, next, id, publicationId).Ok?
  {
    match w.command {
      case Decide(verdict) =>
        NotDecided(s, w.current, Decision(id, w.current.proposal.id, w.current.recordVersion, owner, verdict));
      case PublishLaw(_) =>
        assert !PublicationTaken(s, PublicationFor(owner, w, publicationId));
      case _ =>
    }
  }

  lemma TransactGoes(env: Env, s: Store, owner: string, w: Local, id: string, publicationId: string)
    requires StoreOk(Legal(), s) && DecisionsFollow(s) && w.Working? && New(s, id) && ReadyToCommit(env, w)
    requires w.current.proposal.id in s.amendments && s.amendments[w.current.proposal.id] == w.current
    requires Requested(w, id).Ok?
    requires w.command.PublishLaw? ==> ValidRatification(s, owner, w.current) && Unpublished(s, w.current, publicationId)
    ensures Transact(s, owner, owner, w, CanonicalNext(w.current, Requested(w, id).value), id, publicationId).Ok?
  {
    var next := CanonicalNext(w.current, Requested(w, id).value);
    RequestedMoves(env, w, id);
    NextIsFree(s, w.current, next.recordVersion);
    GoesWhenFree(s, owner, w, next, id, publicationId);
  }

  lemma NextIsFree(s: Store, a: Record, version: int)
    requires StoreOk(Legal(), s) && a.proposal.id in s.amendments && s.amendments[a.proposal.id] == a && version == a.recordVersion + 1
    ensures (a.proposal.id, version) !in s.revisions
  {
    assert HistoryOk(Legal(), s, a.proposal.id);
  }

  /** What a commit that goes through leaves: the next record, and the rows filed with it. */
  ghost predicate Filed(s: Store, t: Store, owner: string, w: Local, id: string, publicationId: string, next: Record)
    requires w.Working?
  {
    && Moves(w, id, next) && t.amendments == s.amendments[w.current.proposal.id := next]
    && FilesEvidence(s, t, FiledEvidence(owner, w, id)) && FilesDecision(s, t, FiledDecision(owner, w, id))
    && FilesPublication(s, t, FiledPublication(owner, w, publicationId))
  }

  lemma CommitFiles(env: Env, s: Store, owner: string, w: Local, id: string, publicationId: string)
    requires StoreOk(Legal(), s) && w.Working? && Tidy(id) && ReadyToCommit(env, w) && Requested(w, id).Ok?
    requires w.current.proposal.id in s.amendments && s.amendments[w.current.proposal.id] == w.current
    requires Transact(s, owner, owner, w, CanonicalNext(w.current, Requested(w, id).value), id, publicationId).Ok?
    ensures var next := CanonicalNext(w.current, Requested(w, id).value);
            Filed(s, Transact(s, owner, owner, w, next, id, publicationId).value, owner, w, id, publicationId, next)
  {
    var next := CanonicalNext(w.current, Requested(w, id).value);
    RequestedMoves(env, w, id);
    var r := TransactFiles(s, owner, owner, w, next, id, publicationId);
  }

  // ---------------------------------------------------------------- stage by stage

  /** A run in whose last state the owner's session is free and the amendment stands as this record. */
  ghost predicate Standing(env: Env, run: seq<System>, i: nat, a: Record) {
    && IsRun(env, run)
    && var y := Last(run);
       && i in y.sessions && y.sessions[i] == Session(y.owner, Idle)
       && a.proposal.id in y.store.amendments && y.store.amendments[a.proposal.id] == a
  }

  lemma CommitsWhenFree(env: Env, run: seq<System>, y: System, i: nat, w: Local, id: string, publicationId: string)
    returns (longer: seq<System>)
    requires Reached(env, run, y, i, w) && w.Working? && y.sessions[i] == Session(y.owner, Idle)
    requires Tidy(id) && ReadyToCommit(env, w) && Requested(w, id).Ok?
    requires Transact(y.store, y.owner, y.owner, w, CanonicalNext(w.current, Requested(w, id).value), id, publicationId).Ok?
    ensures IsRun(env, longer) && run <= longer
    ensures var next := CanonicalNext(w.current, Requested(w, id).value);
            Last(longer) == y.(store := Transact(y.store, y.owner, y.owner, w, next, id, publicationId).value)
  {
    var next := CanonicalNext(w.current, Requested(w, id).value);
    var r := Transact(y.store, y.owner, y.owner, w, next, id, publicationId);
    var x := Last(run);
    assert x.sessions[i] == Session(y.owner, w) && x.store == y.store && x.owner == y.owner;
    var z := WithLocal(x.(store := After(y.store, r)), i, Idle);
    assert z.sessions == y.sessions;
    OneStep(env, run, Commit(i, id, publicationId), z);
    longer := run + [z];
  }

  lemma Commits(env: Env, run: seq<System>, y: System, i: nat, w: Local, id: string, publicationId: string)
    returns (longer: seq<System>, next: Record)
    requires Reached(env, run, y, i, w) && w.Working? && y.sessions[i] == Session(y.owner, Idle)
    requires StoreOk(Legal(), y.store) && DecisionsFollow(y.store)
    requires w.current.proposal.id in y.store.amendments && y.store.amendments[w.current.proposal.id] == w.current
    requires New(y.store, id) && ReadyToCommit(env, w) && Requested(w, id).Ok?
    requires w.command.PublishLaw? ==> ValidRatification(y.store, y.owner, w.current) && Unpublished(y.store, w.current, publicationId)
    ensures Standing(env, longer, i, next) && run <= longer && Last(longer).owner == y.owner
    ensures Filed(y.store, Last(longer).store, y.owner, w, id, publicationId, next)
  {
    next := CanonicalNext(w.current, Requested(w, id).value);
    TransactGoes(env, y.store, y.owner, w, id, publicationId);
    CommitFiles(env, y.store, y.owner, w, id, publicationId);
    longer := CommitsWhenFree(env, run, y, i, w, id, publicationId);
  }

  lemma StandingOk(env: Env, run: seq<System>, i: nat, a: Record)
    requires Standing(env, run, i, a)
    ensures StoreOk(Legal(), Last(run).store) && DecisionsFollow(Last(run).store)
    ensures RecordOk(Last(run).store, a)
  {
    RunFollows(env, run, |run| - 1);
  }

  /** Evidence is filed under a new id and nothing else changes but the record. */
  ghost predicate OnlyFiles(s: Store, t: Store, a: Record, b: Record, id: string, e: Evidence) {
    && b.proposal == a.proposal && t.amendments == s.amendments[a.proposal.id := b]
    && id !in s.evidence && t.evidence == s.evidence[id := e] && t.decisions == s.decisions && t.publications == s.publications
  }

  /** From draft, one piece of impact evidence leads on. */
  lemma ReviewImpact(env: Env, run: seq<System>, i: nat, a: Record, id: string, revision: string, digest: string)
    returns (longer: seq<System>, b: Record)
    requires Standing(env, run, i, a) && a.stage.Draft? && New(Last(run).store, id) && env.isDigest(digest)
    ensures Standing(env, longer, i, b) && run <= longer && Last(longer).owner == Last(run).owner
    ensures b.stage.ImpactReviewed? && b.impactEvidenceIds == [id]
    ensures OnlyFiles(Last(run).store, Last(longer).store, a, b, id, Evidence(id, a.proposal.id, ImpactKind, revision, digest, Last(run).owner))
  {
    var y := Last(run);
    StandingOk(env, run, i, a);
    longer := BeginCommand(env, run, i, a.proposal.id, RecordEvidence(ImpactKind, revision, digest));
    var w := Working(RecordEvidence(ImpactKind, revision, digest), a, false, None, false, None);
    CleanOne(id);
    var before := longer;
    longer, b := Commits(env, before, y, i, w, id, "");
  }

  /** Then one piece of migration evidence. */
  lemma PlanMigration(env: Env, run: seq<System>, i: nat, a: Record, id: string, revision: string, digest: string)
    returns (longer: seq<System>, b: Record)
    requires Standing(env, run, i, a) && a.stage.ImpactReviewed? && New(Last(run).store, id) && env.isDigest(digest)
    ensures Standing(env, longer, i, b) && run <= longer && Last(longer).owner == Last(run).owner
    ensures b.stage.MigrationReady? && b.impactEvidenceIds == a.impactEvidenceIds && b.migrationEvidenceIds == [id]
    ensures OnlyFiles(Last(run).store, Last(longer).store, a, b, id, Evidence(id, a.proposal.id, MigrationKind, revision, digest, Last(run).owner))
  {
    var y := Last(run);
    StandingOk(env, run, i, a);
    longer := BeginCommand(env, run, i, a.proposal.id, RecordEvidence(MigrationKind, revision, digest));
    var w := Working(RecordEvidence(MigrationKind, revision, digest), a, false, None, false, None);
    CleanOne(id);
    var before := longer;
    longer, b := Commits(env, before, y, i, w, id, "");
  }

  /** With both reviews at one revision, ratification opens. */
  lemma OpenForRatification(env: Env, run: seq<System>, i: nat, a: Record, id: string, revision: string, digest: string)
    returns (longer: seq<System>, b: Record)
    requires Standing(env, run, i, a) && a.stage.MigrationReady? && New(Last(run).store, id)
    requires ReviewedAt(Last(run).store, a, revision, digest) && env.isRevision(revision) && env.isDigest(digest)
    ensures Standing(env, longer, i, b) && run <= longer && Last(longer).owner == Last(run).owner
    ensures b.proposal == a.proposal && b.stage.RatificationReady? && ReviewedAt(Last(longer).store, b, revision, digest)
    ensures Last(longer).store == Last(run).store.(amendments := Last(longer).store.amendments, revisions := Last(longer).store.revisions)
  {
    var y := Last(run);
    StandingOk(env, run, i, a);
    longer := BeginCommand(env, run, i, a.proposal.id, Command.OpenRatification);
    var w := Working(Command.OpenRatification, a, false, None, false, None);
    var begun := longer;
    longer := ReadTheSeal(env, begun, y, i, w, revision, digest);
    var read := longer;
    longer, b := Commits(env, read, y, i, w.(seal := Some(y.store.evidence[a.migrationEvidenceIds[0]])), id, "");
  }

  /** The owner approves. */
  lemma ApproveIt(env: Env, run: seq<System>, i: nat, a: Record, id: string, revision: string, digest: string)
    returns (longer: seq<System>, b: Record)
    requires Standing(env, run, i, a) && a.stage.RatificationReady? && New(Last(run).store, id)
    requires ReviewedAt(Last(run).store, a, revision, digest) && env.isRevision(revision) && env.isDigest(digest)
    ensures Standing(env, longer, i, b) && run <= longer && Last(longer).owner == Last(run).owner
    ensures b.proposal == a.proposal && ReviewedAt(Last(longer).store, b, revision, digest)
    ensures ValidRatification(Last(longer).store, Last(longer).owner, b)
    ensures Last(longer).store.evidence == Last(run).store.evidence && Last(longer).store.publications == Last(run).store.publications
    ensures Last(longer).store.decisions.Keys == Last(run).store.decisions.Keys + {id}
  {
    var y := Last(run);
    StandingOk(env, run, i, a);
    longer := BeginCommand(env, run, i, a.proposal.id, Decide(Approve));
    var w := Working(Decide(Approve), a, false, None, false, None);
    var begun := longer;
    longer := ReadTheSeal(env, begun, y, i, w, revision, digest);
    var read := longer;
    ApprovalGoes(env, w.(seal := Some(y.store.evidence[a.migrationEvidenceIds[0]])), id);
    longer, b := Commits(env, read, y, i, w.(seal := Some(y.store.evidence[a.migrationEvidenceIds[0]])), id, "");
  }

  lemma ApprovalGoes(env: Env, w: Local, id: string)
    requires w.Working? && w.command == Decide(Approve) && w.seal.Some? && w.current.stage.RatificationReady? && Tidy(id)
    ensures ReadyToCommit(env, w) && Requested(w, id).Ok?
  {
  }

  lemma CheckTheApproval(env: Env, run: seq<System>, y: System, i: nat, w: Local) returns (longer: seq<System>)
    requires Reached(env, run, y, i, w) && w.Working? && ValidRatification(y.store, y.owner, w.current)
    ensures Reached(env, longer, y, i, w.(approved := true)) && run <= longer
  {
    var z := WithLocal(y, i, w.(approved := true));
    assert z == WithLocal(Last(run), i, w.(approved := true));
    OneStep(env, run, CheckApproval(i), z);
    longer := run + [z];
  }

  lemma CheckOnceMore(env: Env, run: seq<System>, y: System, i: nat, w: Local) returns (longer: seq<System>)
    requires Reached(env, run, y, i, w) && w.Working? && w.approved && w.seal.Some? && y.sessions[i].principal == y.owner
    requires w.current.proposal.id in y.store.amendments && y.store.amendments[w.current.proposal.id] == w.current
    requires ValidRatification(y.store, y.owner, w.current)
    ensures Reached(env, longer, y, i, w.(rechecked := true)) && run <= longer
  {
    var z := WithLocal(y, i, w.(rechecked := true));
    assert z == WithLocal(Last(run), i, w.(rechecked := true));
    OneStep(env, run, Recheck(i), z);
    longer := run + [z];
  }

  lemma ReadThePublication(env: Env, run: seq<System>, y: System, i: nat, w: Local, p: Publication)
    returns (longer: seq<System>)
    requires Reached(env, run, y, i, w) && w.Working? && p in y.store.publications.Values && p.amendmentId == w.current.proposal.id
    ensures Reached(env, longer, y, i, w.(publication := Some(p))) && run <= longer
  {
    var z := WithLocal(y, i, w.(publication := Some(p)));
    assert z == WithLocal(Last(run), i, w.(publication := Some(p)));
    OneStep(env, run, ReadPublication(i, p), z);
    longer := run + [z];
  }

  /** The publication of the amendment's target version is on file. */
  ghost predicate PublishedAs(s: Store, a: Record, p: Publication) {
    p in s.publications.Values && p.amendmentId == a.proposal.id && p.policyVersion == a.proposal.targetPolicyVersion
  }

  /** The verifier accepts the publication of this source as the amendment's target version. */
  ghost predicate Attests(env: Env, a: Record, revision: string, digest: string) {
    var attestation := Attestation(a.proposal.targetPolicyVersion, revision, digest);
    env.isRevision(revision) && env.isDigest(digest) && env.isWellFormed(attestation) && env.verifies(attestation)
  }

  lemma PublishGoes(env: Env, w: Local, seal: Evidence, id: string)
    requires w.Working? && w.approved && w.seal == Some(seal) && w.rechecked && w.current.stage.Ratified? && Tidy(id)
    requires Attests(env, w.current, seal.revision, seal.digest)
    requires w.command == PublishLaw(Attestation(w.current.proposal.targetPolicyVersion, seal.revision, seal.digest))
    ensures ReadyToCommit(env, w) && Requested(w, id).Ok?
  {
    CleanOne(id);
  }

  /** The reads and checks before a publication. */
  lemma PrepareToPublish(env: Env, run: seq<System>, i: nat, a: Record, revision: string, digest: string)
    returns (longer: seq<System>, w: Local)
    requires Standing(env, run, i, a) && ValidRatification(Last(run).store, Last(run).owner, a)
    requires ReviewedAt(Last(run).store, a, revision, digest) && Attests(env, a, revision, digest)
    ensures Reached(env, longer, Last(run), i, w) && run <= longer
    ensures w == Working(PublishLaw(Attestation(a.proposal.targetPolicyVersion, revision, digest)), a, true,
                         Some(Last(run).store.evidence[a.migrationEvidenceIds[0]]), true, None)
  {
    var y := Last(run);
    StandingOk(env, run, i, a);
    var command := PublishLaw(Attestation(a.proposal.targetPolicyVersion, revision, digest));
    var seal := y.store.evidence[a.migrationEvidenceIds[0]];
    var begun := BeginCommand(env, run, i, a.proposal.id, command);
    var approved := CheckTheApproval(env, begun, y, i, Working(command, a, false, None, false, None));
    var sealed := ReadTheSeal(env, approved, y, i, Working(command, a, true, None, false, None), revision, digest);
    w := Working(command, a, true, Some(seal), true, None);
    longer := CheckOnceMore(env, sealed, y, i, Working(command, a, true, Some(seal), false, None));
  }

  /** The owner publishes. */
  lemma PublishIt(env: Env, run: seq<System>, i: nat, a: Record, id: string, publicationId: string, revision: string,
                  digest: string)
    returns (longer: seq<System>, b: Record, p: Publication)
    requires Standing(env, run, i, a) && New(Last(run).store, id) && Unpublished(Last(run).store, a, publicationId)
    requires ValidRatification(Last(run).store, Last(run).owner, a)
    requires ReviewedAt(Last(run).store, a, revision, digest) && Attests(env, a, revision, digest)
    ensures Standing(env, longer, i, b) && run <= longer && Last(longer).owner == Last(run).owner
    ensures b.proposal == a.proposal && b.stage.Published? && p.id == publicationId && PublishedAs(Last(longer).store, b, p)
    ensures Last(longer).store.evidence.Keys == Last(run).store.evidence.Keys + {id}
    ensures Last(longer).store.decisions == Last(run).store.decisions
  {
    var y := Last(run);
    StandingOk(env, run, i, a);
    var checked, ready := PrepareToPublish(env, run, i, a, revision, digest);
    PublishGoes(env, ready, y.store.evidence[a.migrationEvidenceIds[0]], id);
    longer, b := Commits(env, checked, y, i, ready, id, publicationId);
    p := PublicationFor(y.owner, ready, publicationId);
    PublicationFiled(y.store, Last(longer).store, y.owner, ready, id, publicationId, b);
  }

  lemma PublicationFiled(s: Store, t: Store, owner: string, w: Local, id: string, publicationId: string, b: Record)
    requires w.Working? && w.command.PublishLaw? && Filed(s, t, owner, w, id, publicationId, b)
    requires w.command.attestation.policyVersion == w.current.proposal.targetPolicyVersion
    ensures b.proposal == w.current.proposal && b.stage.Published?
    ensures PublishedAs(t, b, PublicationFor(owner, w, publicationId))
    ensures t.evidence.Keys == s.evidence.Keys + {id} && t.decisions == s.decisions
  {
    assert t.publications[publicationId] == PublicationFor(owner, w, publicationId);
  }

  /** The verifier accepts this report on the publication of the amendment. */
  ghost predicate Reports(env: Env, a: Record, publicationId: string, revision: string, digest: string) {
    env.verifiesLifecycle(LifecycleAttestation(a.proposal.id, publicationId, a.proposal.targetPolicyVersion, revision, digest, true))
  }

  /** The report of a command is on the publication of its amendment. */
  ghost predicate ReportsOn(env: Env, w: Local, report: LifecycleAttestation, p: Publication)
    requires w.Working?
  {
    && (w.command == PropagateLaw(report) || w.command == VerifyLaw(report)) && w.publication == Some(p)
    && MatchesPublication(report, w.current, p) && report.allCompliant && env.verifiesLifecycle(report)
  }

  lemma LawHasEvidence(s: Store, a: Record)
    requires RecordOk(s, a) && a.stage.Published?
    ensures a.publicationEvidenceId.Some?
  {
  }

  lemma ReportGoes(env: Env, w: Local, report: LifecycleAttestation, p: Publication, id: string)
    requires w.Working? && ReportsOn(env, w, report, p) && Tidy(id)
    requires w.command.PropagateLaw? ==> w.current.stage.Published? && w.current.publicationEvidenceId.Some?
    requires w.command.VerifyLaw? ==> w.current.stage.Propagating? && w.current.propagationEvidenceIds != []
    ensures ReadyToCommit(env, w) && Requested(w, id).Ok?
  {
    CleanOne(id);
  }

  /** A report is filed, and the publication stays. */
  lemma FilesReport(env: Env, run: seq<System>, i: nat, a: Record, id: string, command: Command,
                    report: LifecycleAttestation, p: Publication)
    returns (longer: seq<System>, b: Record)
    requires Standing(env, run, i, a) && New(Last(run).store, id) && PublishedAs(Last(run).store, a, p)
    requires ReportsOn(env, Working(command, a, false, None, false, Some(p)), report, p)
    requires command.PropagateLaw? ==> a.stage.Published? && a.publicationEvidenceId.Some?
    requires command.VerifyLaw? ==> a.stage.Propagating? && a.propagationEvidenceIds != []
    ensures Standing(env, longer, i, b) && run <= longer && Last(longer).owner == Last(run).owner
    ensures Filed(Last(run).store, Last(longer).store, Last(run).owner, Working(command, a, false, None, false, Some(p)), id, "", b)
  {
    var y := Last(run);
    var w := Working(command, a, false, None, false, None);
    StandingOk(env, run, i, a);
    var begun := BeginCommand(env, run, i, a.proposal.id, command);
    var read := ReadThePublication(env, begun, y, i, w, p);
    ReportGoes(env, w.(publication := Some(p)), report, p, id);
    longer, b := Commits(env, read, y, i, w.(publication := Some(p)), id, "");
  }

  lemma Propagate(env: Env, run: seq<System>, i: nat, a: Record, id: string, p: Publication, revision: string,
                  digest: string)
    returns (longer: seq<System>, b: Record)
    requires Standing(env, run, i, a) && a.stage.Published? && New(Last(run).store, id) && PublishedAs(Last(run).store, a, p)
    requires Reports(env, a, p.id, revision, digest)
    ensures Standing(env, longer, i, b) && run <= longer && Last(longer).owner == Last(run).owner
    ensures b.proposal == a.proposal && b.stage.Propagating? && b.propagationEvidenceIds == [id] && PublishedAs(Last(longer).store, b, p)
    ensures Last(longer).store.evidence.Keys == Last(run).store.evidence.Keys + {id}
    ensures Last(longer).store.decisions == Last(run).store.decisions
  {
    var report := LifecycleAttestation(a.proposal.id, p.id, a.proposal.targetPolicyVersion, revision, digest, true);
    StandingOk(env, run, i, a);
    LawHasEvidence(Last(run).store, a);
    longer, b := FilesReport(env, run, i, a, id, PropagateLaw(report), report, p);
  }

  lemma VerifyIt(env: Env, run: seq<System>, i: nat, a: Record, id: string, p: Publication, revision: string, digest: string)
    returns (longer: seq<System>, b: Record)
    requires Standing(env, run, i, a) && a.stage.Propagating? && a.propagationEvidenceIds != []
    requires New(Last(run).store, id) && PublishedAs(Last(run).store, a, p) && Reports(env, a, p.id, revision, digest)
    ensures Standing(env, longer, i, b) && run <= longer && b.proposal == a.proposal && b.stage.Verified?
  {
    var report := LifecycleAttestation(a.proposal.id, p.id, a.proposal.targetPolicyVersion, revision, digest, true);
    longer, b := FilesReport(env, run, i, a, id, VerifyLaw(report), report, p);
  }

  // ---------------------------------------------------------------- the whole way

  /** Ids for everything that is filed on the way. */
  datatype Ids = Ids(
    impact: string, migration: string, opening: string, decision: string, publication: string, propagation: string,
    verification: string, law: string)

  ghost predicate VersionFree(s: Store, version: string) {
    forall q :: q in s.publications.Values ==> q.policyVersion != version
  }

  lemma DraftIsUnpublished(env: Env, run: seq<System>, i: nat, a: Record, publicationId: string)
    requires Standing(env, run, i, a) && a.stage.Draft?
    requires VersionFree(Last(run).store, a.proposal.targetPolicyVersion) && publicationId !in Last(run).store.publications
    ensures Unpublished(Last(run).store, a, publicationId)
  {
    StandingOk(env, run, i, a);
  }

  function Filings(ids: Ids): seq<string> {
    [ids.impact, ids.migration, ids.opening, ids.decision, ids.publication, ids.propagation, ids.verification]
  }

  ghost predicate AllNew(s: Store, ids: Ids) {
    Distinct(Filings(ids)) && forall id :: id in Filings(ids) ==> New(s, id)
  }

  /** A later id is new, and none of the earlier ones. */
  lemma NewIds(s: Store, ids: Ids, k: nat)
    requires AllNew(s, ids) && k < 7
    ensures New(s, Filings(ids)[k]) && forall j :: 0 <= j < k ==> Filings(ids)[j] != Filings(ids)[k]
  {
    assert Filings(ids)[k] in Filings(ids);
  }

  /** From draft to ratified. */
  lemma DraftIsRatified(env: Env, run: seq<System>, i: nat, a: Record, ids: Ids, revision: string, digest: string)
    returns (longer: seq<System>, b: Record)
    requires Standing(env, run, i, a) && a.stage.Draft? && AllNew(Last(run).store, ids)
    requires env.isRevision(revision) && env.isDigest(digest)
    ensures Standing(env, longer, i, b) && run <= longer && b.proposal == a.proposal
    ensures ValidRatification(Last(longer).store, Last(longer).owner, b) && ReviewedAt(Last(longer).store, b, revision, digest)
    ensures Last(longer).store.publications == Last(run).store.publications
    ensures New(Last(longer).store, ids.publication) && New(Last(longer).store, ids.propagation) && New(Last(longer).store, ids.verification)
  {
    var s := Last(run).store;
    NewIds(s, ids, 0);
    NewIds(s, ids, 1);
    NewIds(s, ids, 2);
    NewIds(s, ids, 3);
    NewIds(s, ids, 4);
    NewIds(s, ids, 5);
    NewIds(s, ids, 6);
    var reviewed, b1 := ReviewImpact(env, run, i, a, ids.impact, revision, digest);
    var planned, b2 := PlanMigration(env, reviewed, i, b1, ids.migration, revision, digest);
    var readied, b3 := OpenForRatification(env, planned, i, b2, ids.opening, revision, digest);
    longer, b := ApproveIt(env, readied, i, b3, ids.decision, revision, digest);
  }

  /**
   From every state of every run in which an amendment is a draft and nothing is published
   for its target version, whether or not it requires a migration: with new ids and a source
   the verifiers accept, the owner can make it law and have it verified.
   */
  lemma DraftCanBecomeLaw(env: Env, run: seq<System>, i: nat, a: Record, ids: Ids, revision: string, digest: string)
    returns (longer: seq<System>)
    requires Standing(env, run, i, a) && a.stage.Draft? && AllNew(Last(run).store, ids)
    requires VersionFree(Last(run).store, a.proposal.targetPolicyVersion) && ids.law !in Last(run).store.publications
    requires Attests(env, a, revision, digest) && Reports(env, a, ids.law, revision, digest)
    ensures IsRun(env, longer) && run <= longer
    ensures a.proposal.id in Last(longer).store.amendments && Last(longer).store.amendments[a.proposal.id].stage.Verified?
    ensures Last(longer).store.amendments[a.proposal.id].proposal == a.proposal
  {
    DraftIsUnpublished(env, run, i, a, ids.law);
    NewIds(Last(run).store, ids, 5);
    NewIds(Last(run).store, ids, 6);
    assert Filings(ids)[4] == ids.publication && Filings(ids)[5] == ids.propagation;
    var ratified, b := DraftIsRatified(env, run, i, a, ids, revision, digest);
    var published, c, p := PublishIt(env, ratified, i, b, ids.publication, ids.law, revision, digest);
    var propagated, d := Propagate(env, published, i, c, ids.propagation, p, revision, digest);
    var e;
    longer, e := VerifyIt(env, propagated, i, d, ids.verification, p, revision, digest);
  }

  /** From an empty store: any proposal of the owner can become law. */
  lemma ProposalCanBecomeLaw(env: Env, owner: string, proposal: Proposal, ids: Ids, revision: string, digest: string)
    returns (run: seq<System>)
    requires AllNew(Store(map[], map[], map[], map[], map[]), ids)
    requires Attests(env, NewDraft(proposal, owner), revision, digest) && Reports(env, NewDraft(proposal, owner), ids.law, revision, digest)
    ensures IsRun(env, run) && run[0].store == Store(map[], map[], map[], map[], map[])
    ensures proposal.id in Last(run).store.amendments && Last(run).store.amendments[proposal.id].stage.Verified?
    ensures Last(run).store.amendments[proposal.id].proposal == proposal
  {
    var start := System(owner, Store(map[], map[], map[], map[], map[]), map[0 := Session(owner, Idle)]);
    var draft := NewDraft(proposal, owner);
    var z := start.(store := After(start.store, CreateAmendment(start.store, draft)));
    OneStep(env, [start], CreateDraft(0, proposal), z);
    run := DraftCanBecomeLaw(env, [start] + [z], 0, draft, ids, revision, digest);
    assert ([start] + [z])[0] == start;
  }
}
