/** What holds in every state of every run of the amendment protocol. */
module ConstitutionSafety {
  import opened Wrappers
  import opened Amendment
  import opened ConstitutionStore
  import opened ConstitutionProtocol

  /** A relation between successive records. The runs keep it whatever it is, as long as each commit does. */
  type Relation = (Record, Record) -> bool

  // ---------------------------------------------------------------- one amendment

  predicate PastDraft(stage: Stage) {
    !stage.Draft?
  }

  predicate PastImpact(stage: Stage) {
    !stage.Draft? && !stage.ImpactReviewed?
  }

  predicate PastMigration(stage: Stage) {
    PastImpact(stage) && !stage.MigrationReady?
  }

  predicate Approved(stage: Stage) {
    stage.Ratified? || IsLaw(stage)
  }

  predicate IsLaw(stage: Stage) {
    stage.Published? || stage.Propagating? || stage.Verified?
  }

  /** The one id in the list names evidence of this kind, filed for this amendment. */
  ghost predicate OnFile(s: Store, amendmentId: string, ids: seq<string>, kind: EvidenceKind) {
    && |ids| == 1 && ids[0] in s.evidence
    && s.evidence[ids[0]].kind == kind && s.evidence[ids[0]].amendmentId == amendmentId
  }

  /** The reviews an amendment has behind it are on file, from ratification on at one revision. */
  ghost predicate ReviewsOnFile(s: Store, a: Record) {
    && (PastDraft(a.stage) ==> OnFile(s, a.proposal.id, a.impactEvidenceIds, ImpactKind))
    && (PastImpact(a.stage) ==> OnFile(s, a.proposal.id, a.migrationEvidenceIds, MigrationKind))
    && (PastMigration(a.stage) ==>
          s.evidence[a.impactEvidenceIds[0]].revision == s.evidence[a.migrationEvidenceIds[0]].revision)
  }

  /** An approved or rejected amendment has its decision on file, made on the record at rank 4. */
  ghost predicate DecisionOnFile(s: Store, a: Record) {
    Approved(a.stage) || a.stage.Rejected? ==>
      && a.ratificationDecisionId.Some? && a.ratificationDecisionId.value in s.decisions
      && var d := s.decisions[a.ratificationDecisionId.value];
         && d.amendmentId == a.proposal.id && d.amendmentRecordVersion == RatificationReady.Rank()
         && (d.verdict.Approve? <==> Approved(a.stage))
  }

  /** The decision on the amendment was made by this principal. */
  ghost predicate DecidedBy(s: Store, a: Record, principal: string) {
    && a.ratificationDecisionId.Some? && a.ratificationDecisionId.value in s.decisions
    && s.decisions[a.ratificationDecisionId.value].reviewer == principal
  }

  /** The publication of an amendment: of its target version, at the sealed revision and digest, by who approved it. */
  ghost predicate Publishes(s: Store, p: Publication, a: Record) {
    && p.amendmentId == a.proposal.id
    && p.amendmentRecordVersion == Ratified.Rank()
    && p.policyVersion == a.proposal.targetPolicyVersion
    && OnFile(s, a.proposal.id, a.migrationEvidenceIds, MigrationKind)
    && p.sourceRevision == s.evidence[a.migrationEvidenceIds[0]].revision
    && p.authoritySetDigest == s.evidence[a.migrationEvidenceIds[0]].digest
    && a.publicationEvidenceId.Some?
    && OnFile(s, a.proposal.id, [a.publicationEvidenceId.value], PublicationKind)
    && p.sourceRevision == s.evidence[a.publicationEvidenceId.value].revision
    && p.authoritySetDigest == s.evidence[a.publicationEvidenceId.value].digest
    && DecidedBy(s, a, p.publishedBy)
  }

  ghost predicate PublicationOnFile(s: Store, a: Record) {
    if IsLaw(a.stage) then exists p :: p in s.publications.Values && Publishes(s, p, a)
    else forall p :: p in s.publications.Values ==> p.amendmentId != a.proposal.id
  }

  ghost predicate RecordOk(s: Store, a: Record) {
    && a.recordVersion == a.stage.Rank()
    && ReviewsOnFile(s, a) && DecisionOnFile(s, a) && PublicationOnFile(s, a)
  }

  // ---------------------------------------------------------------- the whole store

  /** Version `v` of an amendment comes from the version before by a legal transition. */
  ghost predicate LegalStep(legal: Relation, s: Store, id: string, v: int)
    requires (id, v - 1) in s.revisions && (id, v) in s.revisions
  {
    legal(s.revisions[(id, v - 1)].document, s.revisions[(id, v)].document)
  }

  /** The revisions of an amendment are versions 1 to n, each one legal transition from the one before. */
  ghost predicate HistoryOk(legal: Relation, s: Store, id: string)
    requires id in s.amendments
  {
    var n := s.amendments[id].recordVersion;
    && s.amendments[id].proposal.id == id && 1 <= n
    && (forall v :: (id, v) in s.revisions <==> 1 <= v <= n)
    && (forall v :: 1 <= v <= n ==> s.revisions[(id, v)].document.recordVersion == v)
    && (forall v :: 1 <= v <= n ==> s.revisions[(id, v)].document.stage.Rank() == v)
    && (forall v :: 1 <= v <= n ==> s.revisions[(id, v)].document.proposal == s.amendments[id].proposal)
    && s.revisions[(id, 1)].document.stage.Draft?
    && s.revisions[(id, n)].document == s.amendments[id]
    && forall v :: 2 <= v <= n ==> LegalStep(legal, s, id, v)
  }

  ghost predicate PublicationsDiffer(s: Store) {
    && (forall k :: k in s.publications ==> s.publications[k].id == k)
    && forall p, q :: p in s.publications.Values && q in s.publications.Values ==>
         (p.amendmentId == q.amendmentId || p.policyVersion == q.policyVersion ==> p == q)
  }

  ghost predicate StoreOk(legal: Relation, s: Store) {
    && (forall id, v :: (id, v) in s.revisions ==> id in s.amendments)
    && (forall id :: id in s.amendments ==> HistoryOk(legal, s, id) && RecordOk(s, s.amendments[id]))
    && (forall k :: k in s.evidence ==> s.evidence[k].id == k)
    && (forall p :: p in s.publications.Values ==> p.amendmentId in s.amendments)
    && PublicationsDiffer(s)
  }

  /** What a session has read was in the store when it read it, and the record is still in the log. */
  ghost predicate LocalOk(s: Store, w: Local) {
    w.Working? ==>
      && (w.current.proposal.id, w.current.recordVersion) in s.revisions
      && s.revisions[(w.current.proposal.id, w.current.recordVersion)].document == w.current
      && (w.seal.Some? ==> SealOk(s, w.current, w.seal.value))
  }

  ghost predicate SealOk(s: Store, current: Record, seal: Evidence) {
    && seal.id in current.migrationEvidenceIds && seal.id in s.evidence && s.evidence[seal.id] == seal
    && exists i :: i in current.impactEvidenceIds && i in s.evidence && s.evidence[i].revision == seal.revision
  }

  ghost predicate Inv(legal: Relation, y: System) {
    StoreOk(legal, y.store) && forall i :: i in y.sessions ==> LocalOk(y.store, y.sessions[i].local)
  }

  /** Nothing on file is ever changed or removed. */
  ghost predicate Extends(s: Store, t: Store) {
    && (forall k :: k in s.revisions ==> k in t.revisions && t.revisions[k] == s.revisions[k])
    && (forall k :: k in s.evidence ==> k in t.evidence && t.evidence[k] == s.evidence[k])
    && (forall k :: k in s.decisions ==> k in t.decisions && t.decisions[k] == s.decisions[k])
    && (forall k :: k in s.publications ==> k in t.publications && t.publications[k] == s.publications[k])
  }

  // ---------------------------------------------------------------- what a committed transaction does

  /** One amendment moved one legal step on; files only grew, and only this amendment may have been published. */
  ghost predicate Advances(legal: Relation, s: Store, t: Store, a: Record, next: Record) {
    && a.proposal.id in s.amendments && s.amendments[a.proposal.id] == a
    && next.proposal == a.proposal && next.recordVersion == a.recordVersion + 1 && legal(a, next)
    && t.amendments == s.amendments[a.proposal.id := next]
    && (a.proposal.id, next.recordVersion) !in s.revisions
    && (exists r: Revision :: r.document == next && t.revisions == s.revisions[(a.proposal.id, next.recordVersion) := r])
    && Extends(s, t)
    && (forall k :: k in t.evidence ==> t.evidence[k].id == k)
    && (forall p :: p in t.publications.Values ==> p in s.publications.Values || p.amendmentId == a.proposal.id)
    && PublicationsDiffer(t)
  }

  /** The part of an advance that concerns the revisions. */
  ghost predicate AddsRevision(s: Store, t: Store, a: Record, next: Record) {
    && (forall id, v :: (id, v) in t.revisions <==> (id, v) in s.revisions || (id == a.proposal.id && v == next.recordVersion))
    && (forall k :: k in s.revisions ==> k in t.revisions && t.revisions[k] == s.revisions[k])
    && (a.proposal.id, next.recordVersion) in t.revisions
    && t.revisions[(a.proposal.id, next.recordVersion)].document == next
  }

  lemma AdvanceAddsRevision(legal: Relation, s: Store, t: Store, a: Record, next: Record)
    requires Advances(legal, s, t, a, next)
    ensures AddsRevision(s, t, a, next)
  {
  }

  lemma OthersHistory(legal: Relation, s: Store, t: Store, a: Record, next: Record, id: string)
    requires id in s.amendments && HistoryOk(legal, s, id) && id != a.proposal.id
    requires AddsRevision(s, t, a, next) && id in t.amendments && t.amendments[id] == s.amendments[id]
    ensures HistoryOk(legal, t, id)
  {
    var n := s.amendments[id].recordVersion;
    forall v | 1 <= v <= n ensures (id, v) in s.revisions && t.revisions[(id, v)] == s.revisions[(id, v)] {
    }
    forall v | 2 <= v <= n ensures LegalStep(legal, t, id, v) {
      assert LegalStep(legal, s, id, v);
    }
  }

  lemma OthersRecord(s: Store, t: Store, a: Record, other: Record)
    requires RecordOk(s, other) && Extends(s, t) && other.proposal.id != a.proposal.id
    requires forall p :: p in t.publications.Values ==> p in s.publications.Values || p.amendmentId == a.proposal.id
    ensures RecordOk(t, other)
  {
    if IsLaw(other.stage) {
      var p :| p in s.publications.Values && Publishes(s, p, other);
      var k :| k in s.publications && s.publications[k] == p;
      assert t.publications[k] == p;
      assert Publishes(t, p, other);
    }
  }

  lemma HistoryGrows(legal: Relation, s: Store, t: Store, a: Record, next: Record)
    requires a.proposal.id in s.amendments && s.amendments[a.proposal.id] == a && HistoryOk(legal, s, a.proposal.id)
    requires next.proposal == a.proposal && next.recordVersion == a.recordVersion + 1 && legal(a, next)
    requires next.recordVersion == next.stage.Rank()
    requires AddsRevision(s, t, a, next) && a.proposal.id in t.amendments && t.amendments[a.proposal.id] == next
    ensures HistoryOk(legal, t, a.proposal.id)
  {
    var id, n := a.proposal.id, a.recordVersion;
    forall v | 1 <= v <= n ensures (id, v) in s.revisions && t.revisions[(id, v)] == s.revisions[(id, v)] {
    }
    forall v | 2 <= v <= n ensures LegalStep(legal, t, id, v) {
      assert LegalStep(legal, s, id, v);
    }
  }

  lemma StoreAdvances(legal: Relation, s: Store, t: Store, a: Record, next: Record)
    requires StoreOk(legal, s) && Advances(legal, s, t, a, next) && RecordOk(t, next)
    ensures StoreOk(legal, t)
  {
    AdvanceAddsRevision(legal, s, t, a, next);
    forall id | id in t.amendments ensures HistoryOk(legal, t, id) && RecordOk(t, t.amendments[id]) {
      assert HistoryOk(legal, s, id) && RecordOk(s, s.amendments[id]);
      if id == a.proposal.id {
        HistoryGrows(legal, s, t, a, next);
      } else {
        OthersHistory(legal, s, t, a, next, id);
        OthersRecord(s, t, a, s.amendments[id]);
      }
    }
  }

  lemma LocalStays(s: Store, t: Store, w: Local)
    requires LocalOk(s, w) && Extends(s, t)
    ensures LocalOk(t, w)
  {
  }

  // ---------------------------------------------------------------- the commands

  /** What a command makes of the record it read: the next stage, and the new id where it belongs. */
  ghost predicate Moves(w: Local, id: string, next: Record)
    requires w.Working?
  {
    var at := w.current.(recordVersion := w.current.recordVersion + 1);
    match w.command
    case RecordEvidence(kind, _, _) =>
      if kind.ImpactKind? then w.current.stage.Draft? && next == at.(stage := ImpactReviewed, impactEvidenceIds := [id])
      else w.current.stage.ImpactReviewed? && next == at.(stage := MigrationReady, migrationEvidenceIds := [id])
    case OpenRatification => w.current.stage.MigrationReady? && next == at.(stage := RatificationReady)
    case Decide(verdict) =>
      && w.current.stage.RatificationReady?
      && next == at.(stage := if verdict.Approve? then Ratified else Rejected, ratificationDecisionId := Some(id))
    case PublishLaw(_) => w.current.stage.Ratified? && next == at.(stage := Published, publicationEvidenceId := Some(id))
    case PropagateLaw(_) => w.current.stage.Published? && next == at.(stage := Propagating, propagationEvidenceIds := [id])
    case VerifyLaw(_) => w.current.stage.Propagating? && next == at.(stage := Verified, verificationEvidenceIds := [id])
  }

  lemma RequestedMoves(env: Env, w: Local, id: string)
    requires w.Working? && Tidy(id) && ReadyToCommit(env, w) && Requested(w, id).Ok?
    ensures Moves(w, id, CanonicalNext(w.current, Requested(w, id).value))
    ensures LegalNext(w.current, CanonicalNext(w.current, Requested(w, id).value))
  {
    CleanOne(id);
  }

  /** The record that is in the store, and the revision that replaces it there. */
  ghost predicate Replaces(legal: Relation, s: Store, t: Store, a: Record, r: Revision) {
    && a.proposal.id in s.amendments && s.amendments[a.proposal.id] == a
    && r.document.proposal == a.proposal && r.document.recordVersion == a.recordVersion + 1 && legal(a, r.document)
    && (a.proposal.id, r.document.recordVersion) !in s.revisions
    && t.amendments == s.amendments[a.proposal.id := r.document]
    && t.revisions == s.revisions[(a.proposal.id, r.document.recordVersion) := r]
  }

  /** What is filed with it, under ids not used before. */
  ghost predicate FilesEvidence(s: Store, t: Store, e: Option<Evidence>) {
    match e
    case None => t.evidence == s.evidence
    case Some(e) => e.id !in s.evidence && t.evidence == s.evidence[e.id := e]
  }

  ghost predicate FilesDecision(s: Store, t: Store, d: Option<Decision>) {
    match d
    case None => t.decisions == s.decisions
    case Some(d) => d.id !in s.decisions && t.decisions == s.decisions[d.id := d]
  }

  ghost predicate FilesPublication(s: Store, t: Store, p: Option<Publication>) {
    match p
    case None => t.publications == s.publications
    case Some(p) => !PublicationTaken(s, p) && t.publications == s.publications[p.id := p]
  }

  lemma PublicationsGrow(s: Store, t: Store, p: Option<Publication>)
    requires PublicationsDiffer(s) && FilesPublication(s, t, p)
    ensures PublicationsDiffer(t)
    ensures forall q :: q in t.publications.Values ==> q in s.publications.Values || p == Some(q)
    ensures forall k :: k in s.publications ==> k in t.publications && t.publications[k] == s.publications[k]
  {
    if p.Some? {
      forall q | q in t.publications.Values ensures q in s.publications.Values || p == Some(q) {
        var k :| k in t.publications && t.publications[k] == q;
        if k != p.value.id {
          assert s.publications[k] == q;
        }
      }
    }
  }

  lemma ReplacesAdvances(legal: Relation, s: Store, t: Store, a: Record, r: Revision, e: Option<Evidence>,
                         d: Option<Decision>, p: Option<Publication>)
    requires PublicationsDiffer(s) && forall k :: k in s.evidence ==> s.evidence[k].id == k
    requires Replaces(legal, s, t, a, r)
    requires FilesEvidence(s, t, e) && FilesDecision(s, t, d) && FilesPublication(s, t, p)
    requires p.Some? ==> p.value.amendmentId == a.proposal.id
    ensures Advances(legal, s, t, a, r.document)
  {
    PublicationsGrow(s, t, p);
  }

  /** The record after a stage's evidence is on file. */
  lemma StageRecordOk(s: Store, t: Store, w: Local, id: string, evidence: Evidence, next: Record)
    requires w.Working? && w.command.RecordEvidence? && RecordOk(s, w.current)
    requires w.command.kind.ImpactKind? || w.command.kind.MigrationKind?
    requires Moves(w, id, next) && Extends(s, t) && t.publications == s.publications
    requires id in t.evidence && t.evidence[id] == evidence
    requires evidence.kind == w.command.kind && evidence.amendmentId == next.proposal.id
    ensures RecordOk(t, next)
  {
  }

  /** The record after an edge that leaves the stage evidence and the publication alone. */
  lemma LifecycleRecordOk(s: Store, t: Store, w: Local, id: string, next: Record)
    requires w.Working? && (w.command.PropagateLaw? || w.command.VerifyLaw?) && RecordOk(s, w.current)
    requires Moves(w, id, next) && Extends(s, t) && t.publications == s.publications
    ensures RecordOk(t, next)
  {
    LifecycleKeepsReviews(s, t, w, id, next);
    LifecycleKeepsPublication(s, t, w, id, next);
  }

  lemma LifecycleKeepsReviews(s: Store, t: Store, w: Local, id: string, next: Record)
    requires w.Working? && (w.command.PropagateLaw? || w.command.VerifyLaw?)
    requires ReviewsOnFile(s, w.current) && DecisionOnFile(s, w.current)
    requires Moves(w, id, next) && Extends(s, t)
    ensures ReviewsOnFile(t, next) && DecisionOnFile(t, next)
  {
  }

  lemma LifecycleKeepsPublication(s: Store, t: Store, w: Local, id: string, next: Record)
    requires w.Working? && (w.command.PropagateLaw? || w.command.VerifyLaw?) && PublicationOnFile(s, w.current)
    requires Moves(w, id, next) && Extends(s, t) && t.publications == s.publications
    ensures PublicationOnFile(t, next)
  {
    var p :| p in s.publications.Values && Publishes(s, p, w.current);
    assert Publishes(t, p, next);
  }

  /** The seal a session read is the migration evidence of its record, at the revision of the impact evidence. */
  lemma SealIsMigration(s: Store, current: Record, seal: Evidence)
    requires ReviewsOnFile(s, current) && PastImpact(current.stage) && SealOk(s, current, seal)
    ensures s.evidence[current.migrationEvidenceIds[0]] == seal
    ensures s.evidence[current.impactEvidenceIds[0]].revision == seal.revision
  {
    var i :| i in current.impactEvidenceIds && i in s.evidence && s.evidence[i].revision == seal.revision;
    assert i == current.impactEvidenceIds[0];
    assert seal.id == current.migrationEvidenceIds[0];
  }

  lemma OpenRecordOk(s: Store, t: Store, w: Local, id: string, next: Record)
    requires w.Working? && w.command.OpenRatification? && RecordOk(s, w.current)
    requires w.seal.Some? && SealOk(s, w.current, w.seal.value)
    requires Moves(w, id, next) && Extends(s, t) && t.publications == s.publications
    ensures RecordOk(t, next)
  {
    SealIsMigration(s, w.current, w.seal.value);
  }

  lemma DecisionRecordOk(s: Store, t: Store, w: Local, id: string, decision: Decision, next: Record)
    requires w.Working? && w.command.Decide? && RecordOk(s, w.current)
    requires Moves(w, id, next) && Extends(s, t) && t.publications == s.publications
    requires id in t.decisions && t.decisions[id] == decision
    requires decision == Decision(id, w.current.proposal.id, w.current.recordVersion, decision.reviewer, w.command.verdict)
    ensures RecordOk(t, next)
  {
  }

  lemma PublicationRecordOk(s: Store, t: Store, w: Local, id: string, evidence: Evidence, p: Publication, next: Record)
    requires w.Working? && w.command.PublishLaw? && RecordOk(s, w.current)
    requires w.seal.Some? && SealOk(s, w.current, w.seal.value) && MatchesSeal(w.command.attestation, w.seal.value)
    requires w.command.attestation.policyVersion == w.current.proposal.targetPolicyVersion
    requires Moves(w, id, next) && Extends(s, t)
    requires id in t.evidence && t.evidence[id] == evidence && evidence == EvidenceFor(evidence.recordedBy, w, id)
    requires p in t.publications.Values && p == PublicationFor(p.publishedBy, w, p.id) && DecidedBy(s, w.current, p.publishedBy)
    ensures RecordOk(t, next)
  {
    SealIsMigration(s, w.current, w.seal.value);
    assert Publishes(t, p, next);
  }

  // ---------------------------------------------------------------- a commit

  /** What is filed by a command, and the revision it adds. */
  function FiledEvidence(principal: string, w: Local, id: string): Option<Evidence>
    requires w.Working?
  {
    if w.command.OpenRatification? || w.command.Decide? then None else Some(EvidenceFor(principal, w, id))
  }

  function FiledDecision(principal: string, w: Local, id: string): Option<Decision>
    requires w.Working?
  {
    if w.command.Decide? then Some(Decision(id, w.current.proposal.id, w.current.recordVersion, principal, w.command.verdict))
    else None
  }

  function FiledPublication(principal: string, w: Local, id: string): Option<Publication>
    requires w.Working?
  {
    if w.command.PublishLaw? then Some(PublicationFor(principal, w, id)) else None
  }

  /** What a transaction that is carried out has done. */
  ghost predicate CarriedOut(s: Store, t: Store, a: Record, r: Revision, e: Option<Evidence>, d: Option<Decision>,
                             p: Option<Publication>) {
    && IsCurrent(s, a.proposal.id, r.document.recordVersion - 1)
    && (s.amendments[a.proposal.id] == a ==> Replaces((x, y) => true, s, t, a, r))
    && FilesEvidence(s, t, e) && FilesDecision(s, t, d) && FilesPublication(s, t, p)
  }

  lemma UpdateCarriedOut(s: Store, a: Record, next: Record, actor: string, action: string)
    requires next.proposal == a.proposal && UpdateAmendment(s, next, a.recordVersion, actor, action).Ok?
    ensures CarriedOut(s, UpdateAmendment(s, next, a.recordVersion, actor, action).value, a, Revision(actor, action, next), None, None, None)
  {
  }

  lemma EvidenceCarriedOut(s: Store, e: Evidence, a: Record, next: Record, actor: string, action: string)
    requires next.proposal == a.proposal && AppendEvidenceAndUpdate(s, e, next, a.recordVersion, actor, action).Ok?
    ensures CarriedOut(s, AppendEvidenceAndUpdate(s, e, next, a.recordVersion, actor, action).value, a,
                       Revision(actor, action, next), Some(e), None, None)
  {
  }

  lemma DecisionCarriedOut(s: Store, d: Decision, a: Record, next: Record)
    requires next.proposal == a.proposal && AppendDecisionAndUpdate(s, d, next, a.recordVersion).Ok?
    ensures CarriedOut(s, AppendDecisionAndUpdate(s, d, next, a.recordVersion).value, a,
                       Revision(d.reviewer, if d.verdict.Approve? then "AMENDMENT_RATIFIED" else "AMENDMENT_REJECTED", next),
                       None, Some(d), None)
  {
  }

  lemma PublicationCarriedOut(s: Store, owner: string, p: Publication, e: Evidence, a: Record, next: Record)
    requires next.proposal == a.proposal && AppendPublicationAndUpdate(s, owner, p, e, next, a.recordVersion).Ok?
    ensures CarriedOut(s, AppendPublicationAndUpdate(s, owner, p, e, next, a.recordVersion).value, a,
                       Revision(p.publishedBy, "CONSTITUTION_PUBLISHED", next), Some(e), None, Some(p))
  {
  }

  /** A transaction that is carried out replaces the current record and files what goes with it. */
  lemma TransactFiles(s: Store, owner: string, principal: string, w: Local, next: Record, id: string,
                      publicationId: string) returns (r: Revision)
    requires w.Working? && Transact(s, owner, principal, w, next, id, publicationId).Ok?
    requires next.proposal == w.current.proposal
    ensures r.document == next
    ensures CarriedOut(s, Transact(s, owner, principal, w, next, id, publicationId).value, w.current, r, FiledEvidence(principal, w, id),
                       FiledDecision(principal, w, id), FiledPublication(principal, w, publicationId))
  {
    match w.command {
      case RecordEvidence(kind, _, _) =>
        var action := if kind.ImpactKind? then "IMPACT_REVIEW_COMPLETED" else "MIGRATION_PLAN_COMPLETED";
        EvidenceCarriedOut(s, EvidenceFor(principal, w, id), w.current, next, principal, action);
        r := Revision(principal, action, next);
      case OpenRatification =>
        UpdateCarriedOut(s, w.current, next, principal, "RATIFICATION_OPENED");
        r := Revision(principal, "RATIFICATION_OPENED", next);
      case Decide(verdict) =>
        DecisionCarriedOut(s, FiledDecision(principal, w, id).value, w.current, next);
        r := Revision(principal, if verdict.Approve? then "AMENDMENT_RATIFIED" else "AMENDMENT_REJECTED", next);
      case PublishLaw(_) =>
        PublicationCarriedOut(s, owner, PublicationFor(principal, w, publicationId), EvidenceFor(principal, w, id), w.current, next);
        r := Revision(principal, "CONSTITUTION_PUBLISHED", next);
      case PropagateLaw(_) =>
        EvidenceCarriedOut(s, EvidenceFor(principal, w, id), w.current, next, principal, "CONSTITUTION_PROPAGATION_STARTED");
        r := Revision(principal, "CONSTITUTION_PROPAGATION_STARTED", next);
      case VerifyLaw(_) =>
        EvidenceCarriedOut(s, EvidenceFor(principal, w, id), w.current, next, principal, "CONSTITUTION_VERIFIED");
        r := Revision(principal, "CONSTITUTION_VERIFIED", next);
    }
  }

  /** The record a session read is the stored one if its version still is: versions are never used twice. */
  lemma StillCurrent(legal: Relation, s: Store, current: Record)
    requires IsCurrent(s, current.proposal.id, current.recordVersion) && HistoryOk(legal, s, current.proposal.id)
    requires (current.proposal.id, current.recordVersion) in s.revisions
    requires s.revisions[(current.proposal.id, current.recordVersion)].document == current
    ensures s.amendments[current.proposal.id] == current
  {
  }

  /** A publication is carried out for the principal who approved the amendment only. */
  lemma PublisherDecided(s: Store, owner: string, principal: string, w: Local, next: Record, id: string,
                         publicationId: string)
    requires w.Working? && Moves(w, id, next) && Transact(s, owner, principal, w, next, id, publicationId).Ok?
    ensures w.command.PublishLaw? ==> DecidedBy(s, w.current, principal)
  {
    if w.command.PublishLaw? {
      assert ApprovalStands(s, owner, PublicationFor(principal, w, publicationId), next, w.current.recordVersion);
    }
  }

  lemma NextRecordOk(env: Env, s: Store, t: Store, principal: string, w: Local, id: string, publicationId: string,
                     next: Record)
    requires w.Working? && ReadyToCommit(env, w) && RecordOk(s, w.current) && Moves(w, id, next)
    requires w.seal.Some? ==> SealOk(s, w.current, w.seal.value)
    requires w.command.PublishLaw? ==> DecidedBy(s, w.current, principal)
    requires Extends(s, t)
    requires FilesEvidence(s, t, FiledEvidence(principal, w, id))
    requires FilesDecision(s, t, FiledDecision(principal, w, id))
    requires FilesPublication(s, t, FiledPublication(principal, w, publicationId))
    ensures RecordOk(t, next)
  {
    match w.command {
      case RecordEvidence(_, _, _) => StageRecordOk(s, t, w, id, EvidenceFor(principal, w, id), next);
      case OpenRatification => OpenRecordOk(s, t, w, id, next);
      case Decide(verdict) =>
        DecisionRecordOk(s, t, w, id, Decision(id, w.current.proposal.id, w.current.recordVersion, principal, verdict), next);
      case PublishLaw(_) =>
        var p := PublicationFor(principal, w, publicationId);
        assert t.publications[publicationId] == p;
        PublicationRecordOk(s, t, w, id, EvidenceFor(principal, w, id), p, next);
      case PropagateLaw(_) => LifecycleRecordOk(s, t, w, id, next);
      case VerifyLaw(_) => LifecycleRecordOk(s, t, w, id, next);
    }
  }

  lemma CarriedOutKeeps(env: Env, legal: Relation, s: Store, t: Store, principal: string, w: Local, r: Revision,
                        id: string, publicationId: string)
    requires StoreOk(legal, s) && LocalOk(s, w) && w.Working? && ReadyToCommit(env, w)
    requires Moves(w, id, r.document) && legal(w.current, r.document)
    requires w.command.PublishLaw? ==> DecidedBy(s, w.current, principal)
    requires CarriedOut(s, t, w.current, r, FiledEvidence(principal, w, id), FiledDecision(principal, w, id),
                        FiledPublication(principal, w, publicationId))
    ensures StoreOk(legal, t) && Extends(s, t)
  {
    assert HistoryOk(legal, s, w.current.proposal.id) && RecordOk(s, s.amendments[w.current.proposal.id]);
    StillCurrent(legal, s, w.current);
    ReplacesAdvances(legal, s, t, w.current, r, FiledEvidence(principal, w, id), FiledDecision(principal, w, id),
                     FiledPublication(principal, w, publicationId));
    NextRecordOk(env, s, t, principal, w, id, publicationId, r.document);
    StoreAdvances(legal, s, t, w.current, r.document);
  }

  /** Carried out or refused, a commit keeps the store in order and only adds to the files. */
  lemma CommitKeeps(env: Env, legal: Relation, s: Store, owner: string, principal: string, w: Local, next: Record,
                    id: string, publicationId: string)
    requires StoreOk(legal, s) && LocalOk(s, w) && w.Working? && ReadyToCommit(env, w)
    requires Moves(w, id, next) && legal(w.current, next)
    ensures var t := After(s, Transact(s, owner, principal, w, next, id, publicationId));
            StoreOk(legal, t) && Extends(s, t)
  {
    if Transact(s, owner, principal, w, next, id, publicationId).Ok? {
      var t := Transact(s, owner, principal, w, next, id, publicationId).value;
      var r := TransactFiles(s, owner, principal, w, next, id, publicationId);
      PublisherDecided(s, owner, principal, w, next, id, publicationId);
      CarriedOutKeeps(env, legal, s, t, principal, w, r, id, publicationId);
    }
  }

  // ---------------------------------------------------------------- the other steps

  lemma {:induction false} FirstOfMeans(listed: seq<Evidence>, ids: seq<string>, kind: EvidenceKind)
    ensures var r := FirstOf(listed, ids, kind);
            r.Some? ==> r.value in listed && r.value.id in ids && r.value.kind == kind
  {
    if listed != [] {
      FirstOfMeans(listed[1..], ids, kind);
    }
  }

  lemma SealRead(env: Env, legal: Relation, s: Store, current: Record, listed: seq<Evidence>)
    requires StoreOk(legal, s) && ListsEvidence(s, current.proposal.id, listed)
    requires ReviewedCandidate(env, current, listed).Some?
    ensures SealOk(s, current, ReviewedCandidate(env, current, listed).value)
  {
    FirstOfMeans(listed, current.impactEvidenceIds, ImpactKind);
    FirstOfMeans(listed, current.migrationEvidenceIds, MigrationKind);
    var impact := FirstOf(listed, current.impactEvidenceIds, ImpactKind).value;
    var seal := FirstOf(listed, current.migrationEvidenceIds, MigrationKind).value;
    var i :| i in s.evidence && s.evidence[i] == impact;
    var m :| m in s.evidence && s.evidence[m] == seal;
    assert s.evidence[impact.id].revision == seal.revision;
  }

  /** Creation adds the first revision of one amendment. */
  lemma CreateAddsRevision(s: Store, t: Store, draft: Record)
    requires CreateAmendment(s, draft) == Ok(t)
    ensures AddsRevision(s, t, draft, draft) && Extends(s, t)
  {
  }

  lemma CreateKeepsOther(legal: Relation, s: Store, t: Store, draft: Record, id: string)
    requires id in s.amendments && id != draft.proposal.id && HistoryOk(legal, s, id) && RecordOk(s, s.amendments[id])
    requires CreateAmendment(s, draft) == Ok(t)
    ensures HistoryOk(legal, t, id) && RecordOk(t, t.amendments[id])
  {
    CreateAddsRevision(s, t, draft);
    OthersHistory(legal, s, t, draft, draft, id);
    OthersRecord(s, t, draft, s.amendments[id]);
  }

  lemma CreateKeeps(legal: Relation, s: Store, proposal: Proposal, principal: string)
    requires StoreOk(legal, s)
    ensures var t := After(s, CreateAmendment(s, NewDraft(proposal, principal)));
            StoreOk(legal, t) && Extends(s, t)
  {
    var draft := NewDraft(proposal, principal);
    var r := CreateAmendment(s, draft);
    if r.Ok? {
      var t := r.value;
      forall id | id in t.amendments ensures HistoryOk(legal, t, id) && RecordOk(t, t.amendments[id]) {
        if id == proposal.id {
          assert forall v :: (id, v) !in s.revisions;
          assert t.revisions[(id, 1)].document == draft;
        } else {
          assert HistoryOk(legal, s, id) && RecordOk(s, s.amendments[id]);
          CreateKeepsOther(legal, s, t, draft, id);
        }
      }
    }
  }

  // ---------------------------------------------------------------- every run

  ghost function Legal(): Relation {
    (a, b) => LegalNext(a, b)
  }

  lemma InitOk(legal: Relation, y: System)
    requires Init(y)
    ensures Inv(legal, y)
  {
  }

  lemma SameStoreKeeps(legal: Relation, y: System, i: nat, local: Local)
    requires Inv(legal, y) && i in y.sessions && LocalOk(y.store, local)
    ensures Inv(legal, WithLocal(y, i, local))
  {
  }

  lemma GrownStoreKeeps(legal: Relation, y: System, t: Store)
    requires Inv(legal, y) && StoreOk(legal, t) && Extends(y.store, t)
    ensures Inv(legal, y.(store := t))
  {
    forall i | i in y.sessions ensures LocalOk(t, y.sessions[i].local) {
      LocalStays(y.store, t, y.sessions[i].local);
    }
  }

  lemma CommitStepKeeps(env: Env, y: System, i: nat, id: string, publicationId: string, z: System)
    requires Inv(Legal(), y) && CommitStep(env, y, i, id, publicationId, z)
    ensures Inv(Legal(), z) && Extends(y.store, z.store)
  {
    var session := y.sessions[i];
    var w := session.local;
    var next := CanonicalNext(w.current, Requested(w, id).value);
    RequestedMoves(env, w, id);
    CommitKeeps(env, Legal(), y.store, y.owner, session.principal, w, next, id, publicationId);
    var t := After(y.store, Transact(y.store, y.owner, session.principal, w, next, id, publicationId));
    GrownStoreKeeps(Legal(), y, t);
    SameStoreKeeps(Legal(), y.(store := t), i, Idle);
  }

  /** Every step of every session keeps the invariant and never changes what is on file. */
  lemma StepKeeps(env: Env, y: System, step: Step, z: System)
    requires Inv(Legal(), y) && NextBy(env, y, step, z)
    ensures Inv(Legal(), z) && Extends(y.store, z.store)
  {
    match step {
      case CreateDraft(i, proposal) =>
        CreateKeeps(Legal(), y.store, proposal, y.sessions[i].principal);
        GrownStoreKeeps(Legal(), y, z.store);
      case Begin(i, id, expected, command) =>
        assert HistoryOk(Legal(), y.store, id);
        SameStoreKeeps(Legal(), y, i, z.sessions[i].local);
      case CheckApproval(i) => SameStoreKeeps(Legal(), y, i, z.sessions[i].local);
      case ReadSeal(i, listed) =>
        SealRead(env, Legal(), y.store, y.sessions[i].local.current, listed);
        SameStoreKeeps(Legal(), y, i, z.sessions[i].local);
      case Recheck(i) => SameStoreKeeps(Legal(), y, i, z.sessions[i].local);
      case ReadPublication(i, p) => SameStoreKeeps(Legal(), y, i, z.sessions[i].local);
      case Commit(i, id, publicationId) => CommitStepKeeps(env, y, i, id, publicationId, z);
      case Abandon(i) => SameStoreKeeps(Legal(), y, i, Idle);
      case OwnerChanges(owner) =>
    }
  }

  lemma {:induction false} RunKeeps(env: Env, run: seq<System>, k: nat)
    requires IsRun(env, run) && k < |run|
    ensures Inv(Legal(), run[k])
  {
    if k == 0 {
      InitOk(Legal(), run[0]);
    } else {
      RunKeeps(env, run, k - 1);
      assert Next(env, run[k - 1], run[k - 1 + 1]);
      var step :| NextBy(env, run[k - 1], step, run[k]);
      StepKeeps(env, run[k - 1], step, run[k]);
    }
  }

  // ---------------------------------------------------------------- main results

  lemma RunStore(env: Env, run: seq<System>, k: nat, id: string)
    requires IsRun(env, run) && k < |run| && id in run[k].store.amendments
    ensures var s := run[k].store;
            HistoryOk(Legal(), s, id) && RecordOk(s, s.amendments[id]) && s.amendments[id].proposal.id == id && PublicationsDiffer(s)
  {
    RunKeeps(env, run, k);
    assert HistoryOk(Legal(), run[k].store, id);
  }

  /**
   In every state of every interleaving, an amendment's revisions are exactly the versions
   1 to n, without gap or fork: they start at a draft, end at the stored record, each has the
   version its stage has, and each comes from the one before by one legal transition. There
   are at most eight.
   */
  lemma RevisionsFormOneChain(env: Env, run: seq<System>, k: nat, id: string)
    requires IsRun(env, run) && k < |run| && id in run[k].store.amendments
    ensures HistoryOk(Legal(), run[k].store, id)
    ensures var a := run[k].store.amendments[id]; a.recordVersion == a.stage.Rank() <= 8
  {
    RunStore(env, run, k, id);
  }

  /** What proves the stages up to version `v` is the same in both records. */
  ghost predicate SameProofs(a: Record, b: Record, v: int) {
    && (v >= 2 ==> b.impactEvidenceIds == a.impactEvidenceIds)
    && (v >= 3 ==> b.migrationEvidenceIds == a.migrationEvidenceIds)
    && (v >= 5 ==> b.ratificationDecisionId == a.ratificationDecisionId)
    && (v >= 6 ==> b.publicationEvidenceId == a.publicationEvidenceId)
    && (v >= 7 ==> b.propagationEvidenceIds == a.propagationEvidenceIds)
    && (v >= 8 ==> b.verificationEvidenceIds == a.verificationEvidenceIds)
  }

  lemma {:induction false} ProofsStandIn(s: Store, id: string, v: int, w: int)
    requires id in s.amendments && HistoryOk(Legal(), s, id) && 1 <= v <= w <= s.amendments[id].recordVersion
    ensures SameProofs(s.revisions[(id, v)].document, s.revisions[(id, w)].document, v)
    ensures v >= 2 ==> HoldsProof(s.revisions[(id, v)].document)
    decreases w
  {
    if v >= 2 {
      assert LegalStep(Legal(), s, id, v);
      EachStageIsProvedOnce(s.revisions[(id, v - 1)].document, s.revisions[(id, v)].document);
    }
    if v < w {
      ProofsStandIn(s, id, v, w - 1);
      assert LegalStep(Legal(), s, id, w);
      EachStageIsProvedOnce(s.revisions[(id, w - 1)].document, s.revisions[(id, w)].document);
    }
  }

  /**
   In every state of every interleaving, each revision holds the proof of its stage, and no
   later revision rewrites the proof of an earlier stage.
   */
  lemma ProofsStand(env: Env, run: seq<System>, k: nat, id: string, v: int, w: int)
    requires IsRun(env, run) && k < |run| && id in run[k].store.amendments
    requires (id, v) in run[k].store.revisions && (id, w) in run[k].store.revisions && v <= w
    ensures var s := run[k].store;
            && SameProofs(s.revisions[(id, v)].document, s.revisions[(id, w)].document, v)
            && (v >= 2 ==> HoldsProof(s.revisions[(id, v)].document))
  {
    RunStore(env, run, k, id);
    ProofsStandIn(run[k].store, id, v, w);
  }

  /**
   The publication of an amendment that is law: the only one, at the revision both reviews
   were made at, after an approval of exactly the record before the one published, and by
   the principal who gave it.
   */
  ghost predicate SealedBy(s: Store, a: Record, p: Publication) {
    && p in s.publications.Values && Publishes(s, p, a)
    && (forall q :: q in s.publications.Values && q.amendmentId == a.proposal.id ==> q == p)
    && OnFile(s, a.proposal.id, a.impactEvidenceIds, ImpactKind)
    && s.evidence[a.impactEvidenceIds[0]].revision == p.sourceRevision
    && a.ratificationDecisionId.Some? && a.ratificationDecisionId.value in s.decisions
    && var d := s.decisions[a.ratificationDecisionId.value];
       && d.verdict.Approve? && d.amendmentId == a.proposal.id && d.amendmentRecordVersion == p.amendmentRecordVersion - 1
       && d.reviewer == p.publishedBy
  }

  lemma SealOfLaw(s: Store, a: Record)
    requires RecordOk(s, a) && PublicationsDiffer(s) && IsLaw(a.stage)
    ensures exists p :: SealedBy(s, a, p)
  {
    var p :| p in s.publications.Values && Publishes(s, p, a);
    forall q | q in s.publications.Values && q.amendmentId == a.proposal.id ensures q == p {
      assert q.amendmentId == p.amendmentId;
    }
    assert SealedBy(s, a, p);
  }

  /** In every state of every interleaving, an amendment that is law has exactly one publication, and it is the sealed one. */
  lemma LawIsSealed(env: Env, run: seq<System>, k: nat, id: string)
    requires IsRun(env, run) && k < |run| && id in run[k].store.amendments && IsLaw(run[k].store.amendments[id].stage)
    ensures exists p :: SealedBy(run[k].store, run[k].store.amendments[id], p)
  {
    RunStore(env, run, k, id);
    SealOfLaw(run[k].store, run[k].store.amendments[id]);
  }

  lemma LawsDiffer(s: Store, a: Record, b: Record)
    requires RecordOk(s, a) && RecordOk(s, b) && PublicationsDiffer(s) && IsLaw(a.stage) && IsLaw(b.stage)
    requires a.proposal.targetPolicyVersion == b.proposal.targetPolicyVersion
    ensures a.proposal.id == b.proposal.id
  {
    var p :| p in s.publications.Values && Publishes(s, p, a);
    var q :| q in s.publications.Values && Publishes(s, q, b);
  }

  /** No two amendments ever become law for one policy version. */
  lemma OneLawPerVersion(env: Env, run: seq<System>, k: nat, id: string, other: string)
    requires IsRun(env, run) && k < |run| && id in run[k].store.amendments && other in run[k].store.amendments
    requires var s := run[k].store;
             && IsLaw(s.amendments[id].stage) && IsLaw(s.amendments[other].stage)
             && s.amendments[id].proposal.targetPolicyVersion == s.amendments[other].proposal.targetPolicyVersion
    ensures id == other
  {
    RunStore(env, run, k, id);
    RunStore(env, run, k, other);
    LawsDiffer(run[k].store, run[k].store.amendments[id], run[k].store.amendments[other]);
  }

  /** Revisions, evidence, decisions and publications once on file stay on file, unchanged. */
  lemma {:induction false} FilesOnlyGrow(env: Env, run: seq<System>, j: nat, k: nat)
    requires IsRun(env, run) && j <= k < |run|
    ensures Extends(run[j].store, run[k].store)
  {
    if j < k {
      FilesOnlyGrow(env, run, j, k - 1);
      RunKeeps(env, run, k - 1);
      assert Next(env, run[k - 1], run[k - 1 + 1]);
      var step :| NextBy(env, run[k - 1], step, run[k]);
      StepKeeps(env, run[k - 1], step, run[k]);
    }
  }
}
