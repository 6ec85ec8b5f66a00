/**
 The stored amendments with their revisions, evidence, decisions and publications, and
 the repository's transactions on them. A transaction happens whole or not at all.
 */
module ConstitutionStore {
  import opened Wrappers
  import opened Amendment

  datatype EvidenceKind = ImpactKind | MigrationKind | PublicationKind | PropagationKind | VerificationKind

  datatype Evidence = Evidence(id: string, amendmentId: string, kind: EvidenceKind, revision: string, digest: string, recordedBy: string)

  datatype Verdict = Approve | Refuse

  /** An authenticated user's decision on one exact record of an amendment. */
  datatype Decision = Decision(id: string, amendmentId: string, amendmentRecordVersion: int, reviewer: string, verdict: Verdict)

  datatype Publication = Publication(
    id: string, amendmentId: string, amendmentRecordVersion: int, policyVersion: string,
    publishedBy: string, sourceRevision: string, authoritySetDigest: string)

  datatype Revision = Revision(actor: string, action: string, document: Record)

  /**
   The tables. Amendments, evidence, decisions and publications are keyed by id, revisions
   by amendment and record version.
   */
  datatype Store = Store(
    amendments: map<string, Record>,
    revisions: map<(string, int), Revision>,
    evidence: map<string, Evidence>,
    decisions: map<string, Decision>,
    publications: map<string, Publication>)

  datatype StoreError =
    | NotANewDraft | NotNextVersion | ForeignRecord | WrongBinding | Stale | AuthorityRevoked | UniqueViolation

  // ---------------------------------------------------------------- transactions

  /** The row is replaced only if it still has the version the caller read. */
  predicate IsCurrent(s: Store, id: string, version: int) {
    id in s.amendments && s.amendments[id].recordVersion == version
  }

  function Replaced(s: Store, record: Record, actor: string, action: string): Store {
    var id := record.proposal.id;
    s.(amendments := s.amendments[id := record],
       revisions := s.revisions[(id, record.recordVersion) := Revision(actor, action, record)])
  }

  predicate RevisionTaken(s: Store, record: Record) {
    (record.proposal.id, record.recordVersion) in s.revisions
  }

  function CreateAmendment(s: Store, record: Record): Result<Store, StoreError> {
    if record.recordVersion != 1 || !record.stage.Draft? then Err(NotANewDraft)
    else if record.proposal.id in s.amendments || RevisionTaken(s, record) then Err(UniqueViolation)
    else Ok(Replaced(s, record, record.proposedByActorId, "AMENDMENT_CREATED"))
  }

  function UpdateAmendment(s: Store, record: Record, expected: int, actor: string,
                           action: string): Result<Store, StoreError> {
    if record.recordVersion != expected + 1 then Err(NotNextVersion)
    else if !IsCurrent(s, record.proposal.id, expected) then Err(Stale)
    else if RevisionTaken(s, record) then Err(UniqueViolation)
    else Ok(Replaced(s, record, actor, action))
  }

  function AppendEvidenceAndUpdate(s: Store, evidence: Evidence, record: Record, expected: int, actor: string,
                                   action: string):
    Result<Store, StoreError>
  {
    if record.recordVersion != expected + 1 then Err(NotNextVersion)
    else if evidence.amendmentId != record.proposal.id then Err(ForeignRecord)
    else if !IsCurrent(s, record.proposal.id, expected) then Err(Stale)
    else if evidence.id in s.evidence || RevisionTaken(s, record) then Err(UniqueViolation)
    else Ok(Replaced(s, record, actor, action).(evidence := s.evidence[evidence.id := evidence]))
  }

  predicate DecisionTaken(s: Store, decision: Decision) {
    decision.id in s.decisions ||
    exists d | d in s.decisions.Values ::
      d.amendmentId == decision.amendmentId && d.amendmentRecordVersion == decision.amendmentRecordVersion
  }

  function AppendDecisionAndUpdate(s: Store, decision: Decision, record: Record, expected: int): Result<Store, StoreError> {
    if record.recordVersion != expected + 1 then Err(NotNextVersion)
    else if decision.amendmentId != record.proposal.id then Err(ForeignRecord)
    else if decision.amendmentRecordVersion != expected then Err(WrongBinding)
    else if !IsCurrent(s, record.proposal.id, expected) then Err(Stale)
    else if DecisionTaken(s, decision) || RevisionTaken(s, record) then Err(UniqueViolation)
    else
      Ok(Replaced(s, record, decision.reviewer, if decision.verdict.Approve? then "AMENDMENT_RATIFIED" else "AMENDMENT_REJECTED")
         .(decisions := s.decisions[decision.id := decision]))
  }

  predicate PublicationTaken(s: Store, p: Publication) {
    p.id in s.publications ||
    exists q | q in s.publications.Values :: q.amendmentId == p.amendmentId || q.policyVersion == p.policyVersion
  }

  /** The approval still stands: the owner publishes, and the same owner approved the record before this one. */
  predicate ApprovalStands(s: Store, owner: string, p: Publication, record: Record, expected: int) {
    && p.publishedBy == owner
    && record.ratificationDecisionId.Some? && record.ratificationDecisionId.value in s.decisions
    && var d := s.decisions[record.ratificationDecisionId.value];
       && d.reviewer == owner && d.amendmentId == record.proposal.id
       && d.amendmentRecordVersion == expected - 1 && d.verdict.Approve?
  }

  /** The owner of the constitutional authority is read, and held, inside the transaction. */
  function AppendPublicationAndUpdate(s: Store, owner: string, p: Publication, evidence: Evidence, record: Record,
                                      expected: int):
    Result<Store, StoreError>
  {
    if record.recordVersion != expected + 1 then Err(NotNextVersion)
    else if p.amendmentId != record.proposal.id || evidence.amendmentId != record.proposal.id then Err(ForeignRecord)
    else if p.amendmentRecordVersion != expected || !evidence.kind.PublicationKind?
            || record.publicationEvidenceId != Some(evidence.id) then Err(WrongBinding)
    else if !ApprovalStands(s, owner, p, record, expected) then Err(AuthorityRevoked)
    else if !IsCurrent(s, record.proposal.id, expected) || !s.amendments[record.proposal.id].stage.Ratified? then Err(Stale)
    else if evidence.id in s.evidence || PublicationTaken(s, p) || RevisionTaken(s, record) then Err(UniqueViolation)
    else Ok(Replaced(s, record, p.publishedBy, "CONSTITUTION_PUBLISHED")
            .(evidence := s.evidence[evidence.id := evidence], publications := s.publications[p.id := p]))
  }

  /** A decision is stored exactly once for a version of an amendment, while that version is current, with the next record. */
  lemma DecisionStoredExactly(s: Store, d: Decision, record: Record, expected: int)
    ensures AppendDecisionAndUpdate(s, d, record, expected).Ok? <==>
      && d.amendmentId == record.proposal.id && d.amendmentRecordVersion == expected == record.recordVersion - 1
      && record.proposal.id in s.amendments && s.amendments[record.proposal.id].recordVersion == expected
      && d.id !in s.decisions && (record.proposal.id, record.recordVersion) !in s.revisions
      && forall other :: other in s.decisions.Values && other.amendmentId == d.amendmentId ==> other.amendmentRecordVersion != expected
  {
  }

  /** The decision is an approval, by this principal, of this version of the amendment. */
  ghost predicate Approves(d: Decision, principal: string, amendmentId: string, version: int) {
    d.verdict.Approve? && d.reviewer == principal && d.amendmentId == amendmentId && d.amendmentRecordVersion == version
  }

  /**
   Whatever a caller hands over, a publication is stored exactly for a ratified amendment that is
   current, by the owner, on the owner's approval of the version before, with its own evidence,
   and if neither the amendment nor the policy version has one.
   */
  lemma PublicationStoredExactly(s: Store, owner: string, p: Publication, e: Evidence, record: Record, expected: int)
    ensures AppendPublicationAndUpdate(s, owner, p, e, record, expected).Ok? <==>
      && p.amendmentId == e.amendmentId == record.proposal.id && p.amendmentRecordVersion == expected == record.recordVersion - 1
      && e.kind.PublicationKind? && record.publicationEvidenceId == Some(e.id) && p.publishedBy == owner
      && record.ratificationDecisionId.Some? && record.ratificationDecisionId.value in s.decisions
      && Approves(s.decisions[record.ratificationDecisionId.value], owner, record.proposal.id, expected - 1)
      && record.proposal.id in s.amendments && s.amendments[record.proposal.id].recordVersion == expected
      && s.amendments[record.proposal.id].stage.Ratified?
      && e.id !in s.evidence && p.id !in s.publications && (record.proposal.id, record.recordVersion) !in s.revisions
      && forall q :: q in s.publications.Values ==> q.amendmentId != p.amendmentId && q.policyVersion != p.policyVersion
  {
  }

  // ---------------------------------------------------------------- the repository

  /** The new state of a store after a transaction: unchanged if it was refused. */
  function After(s: Store, r: Result<Store, StoreError>): Store {
    if r.Ok? then r.value else s
  }

  class Repository {
    var amendments: map<string, Record>
    var revisions: map<(string, int), Revision>
    var evidence: map<string, Evidence>
    var decisions: map<string, Decision>
    var publications: map<string, Publication>

    ghost function View(): Store
      reads this
    {
      Store(amendments, revisions, evidence, decisions, publications)
    }

    constructor ()
      ensures View() == Store(map[], map[], map[], map[], map[])
    {
      amendments, revisions, evidence, decisions, publications := map[], map[], map[], map[], map[];
    }

    method Create(record: Record) returns (error: Option<StoreError>)
      modifies this
      ensures var r := CreateAmendment(old(View()), record);
              View() == After(old(View()), r) && error == (if r.Ok? then None else Some(r.error))
    {
      if record.recordVersion != 1 || !record.stage.Draft? {
        return Some(NotANewDraft);
      }
      var id := record.proposal.id;
      if id in amendments || (id, 1) in revisions {
        return Some(UniqueViolation);
      }
      amendments := amendments[id := record];
      revisions := revisions[(id, 1) := Revision(record.proposedByActorId, "AMENDMENT_CREATED", record)];
      return None;
    }

    /** `updateMany` under the expected version, then the revision row. */
    method CompareAndSwap(record: Record, expected: int, actor: string, action: string) returns (error: Option<StoreError>)
      requires record.recordVersion == expected + 1
      modifies this`amendments, this`revisions
      ensures var r := UpdateAmendment(old(View()), record, expected, actor, action);
              View() == After(old(View()), r) && error == (if r.Ok? then None else Some(r.error))
    {
      var id := record.proposal.id;
      if id !in amendments || amendments[id].recordVersion != expected {
        return Some(Stale);
      }
      if (id, record.recordVersion) in revisions {
        return Some(UniqueViolation);
      }
      amendments := amendments[id := record];
      revisions := revisions[(id, record.recordVersion) := Revision(actor, action, record)];
      return None;
    }

    method Update(record: Record, expected: int, actor: string, action: string) returns (error: Option<StoreError>)
      modifies this
      ensures var r := UpdateAmendment(old(View()), record, expected, actor, action);
              View() == After(old(View()), r) && error == (if r.Ok? then None else Some(r.error))
    {
      if record.recordVersion != expected + 1 {
        return Some(NotNextVersion);
      }
      error := CompareAndSwap(record, expected, actor, action);
    }

    method AppendEvidence(item: Evidence, record: Record, expected: int, actor: string, action: string)
      returns (error: Option<StoreError>)
      modifies this
      ensures var r := AppendEvidenceAndUpdate(old(View()), item, record, expected, actor, action);
              View() == After(old(View()), r) && error == (if r.Ok? then None else Some(r.error))
    {
      if record.recordVersion != expected + 1 {
        return Some(NotNextVersion);
      }
      if item.amendmentId != record.proposal.id {
        return Some(ForeignRecord);
      }
      if item.id in evidence && record.proposal.id in amendments && amendments[record.proposal.id].recordVersion == expected {
        return Some(UniqueViolation);
      }
      error := CompareAndSwap(record, expected, actor, action);
      if error.None? {
        evidence := evidence[item.id := item];
      }
    }

    method AppendDecision(decision: Decision, record: Record, expected: int) returns (error: Option<StoreError>)
      modifies this
      ensures var r := AppendDecisionAndUpdate(old(View()), decision, record, expected);
              View() == After(old(View()), r) && error == (if r.Ok? then None else Some(r.error))
    {
      if record.recordVersion != expected + 1 {
        return Some(NotNextVersion);
      }
      if decision.amendmentId != record.proposal.id {
        return Some(ForeignRecord);
      }
      if decision.amendmentRecordVersion != expected {
        return Some(WrongBinding);
      }
      var before := Store(amendments, revisions, evidence, decisions, publications);
      if DecisionTaken(before, decision) && IsCurrent(before, record.proposal.id, expected) {
        return Some(UniqueViolation);
      }
      error := CompareAndSwap(record, expected, decision.reviewer,
                              if decision.verdict.Approve? then "AMENDMENT_RATIFIED" else "AMENDMENT_REJECTED");
      if error.None? {
        decisions := decisions[decision.id := decision];
      }
    }

    method AppendPublication(owner: string, p: Publication, item: Evidence, record: Record, expected: int)
      returns (error: Option<StoreError>)
      modifies this
      ensures var r := AppendPublicationAndUpdate(old(View()), owner, p, item, record, expected);
              View() == After(old(View()), r) && error == (if r.Ok? then None else Some(r.error))
    {
      if record.recordVersion != expected + 1 {
        return Some(NotNextVersion);
      }
      var id := record.proposal.id;
      if p.amendmentId != id || item.amendmentId != id {
        return Some(ForeignRecord);
      }
      if p.amendmentRecordVersion != expected || !item.kind.PublicationKind? || record.publicationEvidenceId != Some(item.id) {
        return Some(WrongBinding);
      }
      var before := Store(amendments, revisions, evidence, decisions, publications);
      if !ApprovalStands(before, owner, p, record, expected) {
        return Some(AuthorityRevoked);
      }
      if id !in amendments || amendments[id].recordVersion != expected || !amendments[id].stage.Ratified? {
        return Some(Stale);
      }
      if item.id in evidence || PublicationTaken(before, p) {
        return Some(UniqueViolation);
      }
      error := CompareAndSwap(record, expected, p.publishedBy, "CONSTITUTION_PUBLISHED");
      if error.None? {
        evidence := evidence[item.id := item];
        publications := publications[p.id := p];
      }
    }
  }
}
