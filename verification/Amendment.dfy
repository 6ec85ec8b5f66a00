/** A constitutional amendment and the transitions it may make. */
module Amendment {
  import opened Wrappers
  import opened Ordering
  import opened Text
  import opened Sets

  datatype Stage =
    | Draft | ImpactReviewed | MigrationReady | RatificationReady
    | Ratified | Published | Propagating | Verified | Rejected
  {
    /** How many records of the amendment there are when it is at this stage. */
    function Rank(): nat {
      match this
      case Draft => 1
      case ImpactReviewed => 2
      case MigrationReady => 3
      case RatificationReady => 4
      case Ratified => 5
      case Rejected => 5
      case Published => 6
      case Propagating => 7
      case Verified => 8
    }
  }

  datatype Proposal = Proposal(id: string, basePolicyVersion: string, targetPolicyVersion: string, migrationRequired: bool)

  datatype Record = Record(
    proposal: Proposal, stage: Stage,
    impactEvidenceIds: seq<string>, migrationEvidenceIds: seq<string>,
    ratificationDecisionId: Option<string>, publicationEvidenceId: Option<string>,
    propagationEvidenceIds: seq<string>, verificationEvidenceIds: seq<string>,
    proposedByActorId: string, recordVersion: int)

  datatype Action =
    | CompleteImpactReview | CompleteMigrationPlan | OpenRatification | Ratify | Reject
    | Publish | BeginPropagation | Verify

  datatype Refusal = RejectPublished | Immutable | WrongStage | NoEvidence | NoDecision

  function Cleaned(ids: seq<string>, kept: seq<string>): seq<string> {
    if ids == [] then kept
    else
      var id := Trim(ids[0]);
      Cleaned(ids[1..], if id == "" || id in kept then kept else kept + [id])
  }

  /** Trimmed, without blanks or repetitions, sorted. */
  function CleanIds(ids: seq<string>): seq<string> {
    Sort(Cleaned(ids, []), ByCodeUnit)
  }

  function Transition(current: Record, action: Action, evidenceIds: seq<string>,
                      decisionId: Option<string>): Result<Record, Refusal> {
    var ids := CleanIds(evidenceIds);
    var decision := if decisionId.Some? then Trim(decisionId.value) else "";
    if current.stage.Published? && action.Reject? then Err(RejectPublished)
    else if current.stage.Verified? then Err(Immutable)
    else
      match action
      case CompleteImpactReview =>
        if !current.stage.Draft? then Err(WrongStage)
        else if ids == [] then Err(NoEvidence)
        else Ok(current.(stage := ImpactReviewed, impactEvidenceIds := ids))
      case CompleteMigrationPlan =>
        if !current.stage.ImpactReviewed? then Err(WrongStage)
        else if current.proposal.migrationRequired && ids == [] then Err(NoEvidence)
        else Ok(current.(stage := MigrationReady, migrationEvidenceIds := ids))
      case OpenRatification =>
        if !current.stage.MigrationReady? then Err(WrongStage)
        else Ok(current.(stage := RatificationReady))
      case Ratify =>
        if !current.stage.RatificationReady? then Err(WrongStage)
        else if decision == "" then Err(NoDecision)
        else Ok(current.(stage := Ratified, ratificationDecisionId := Some(decision)))
      case Reject =>
        if current.stage !in {Draft, ImpactReviewed, MigrationReady, RatificationReady} then Err(WrongStage)
        else if decision == "" then Err(NoDecision)
        else Ok(current.(stage := Rejected, ratificationDecisionId := Some(decision)))
      case Publish =>
        if !current.stage.Ratified? then Err(WrongStage)
        else if ids == [] then Err(NoEvidence)
        else Ok(current.(stage := Published, publicationEvidenceId := Some(ids[0])))
      case BeginPropagation =>
        if !current.stage.Published? then Err(WrongStage)
        else Ok(current.(stage := Propagating, propagationEvidenceIds := ids))
      case Verify =>
        if !current.stage.Propagating? then Err(WrongStage)
        else if ids == [] then Err(NoEvidence)
        else Ok(current.(stage := Verified, verificationEvidenceIds := ids))
  }

  /** The record as stored next: one version further. */
  function CanonicalNext(current: Record, next: Record): Record {
    next.(proposedByActorId := current.proposedByActorId, recordVersion := current.recordVersion + 1)
  }

  /** One legal transition leads from one stored record to the next. */
  ghost predicate LegalNext(current: Record, next: Record) {
    exists action, ids, decision ::
      var r := Transition(current, action, ids, decision);
      r.Ok? && next == CanonicalNext(current, r.value)
  }

  /** An id as the program makes them: no blanks at its ends, and not empty. */
  ghost predicate Tidy(id: string) {
    id != "" && Trim(id) == id
  }

  lemma CleanOne(id: string)
    requires Tidy(id)
    ensures CleanIds([id]) == [id]
  {
    assert [id][1..] == [];
    assert Cleaned([id], []) == [id];
  }

  /** The stages in their order, and the way out before ratification. */
  predicate Follows(a: Stage, b: Stage) {
    if b.Rejected? then a in {Draft, ImpactReviewed, MigrationReady, RatificationReady}
    else !a.Rejected? && b.Rank() == a.Rank() + 1
  }

  /** The record differs from the one before only in its stage, its version and the proof of its stage. */
  ghost predicate WritesOwnProof(current: Record, next: Record) {
    && next.proposal == current.proposal && next.proposedByActorId == current.proposedByActorId
    && (next.impactEvidenceIds == current.impactEvidenceIds || next.stage.ImpactReviewed?)
    && (next.migrationEvidenceIds == current.migrationEvidenceIds || next.stage.MigrationReady?)
    && (next.ratificationDecisionId == current.ratificationDecisionId || next.stage.Ratified? || next.stage.Rejected?)
    && (next.publicationEvidenceId == current.publicationEvidenceId || next.stage.Published?)
    && (next.propagationEvidenceIds == current.propagationEvidenceIds || next.stage.Propagating?)
    && (next.verificationEvidenceIds == current.verificationEvidenceIds || next.stage.Verified?)
  }

  /** The proof of the stage is there where the stage demands one. */
  ghost predicate HoldsProof(next: Record) {
    && (next.stage.ImpactReviewed? ==> next.impactEvidenceIds != [])
    && (next.stage.MigrationReady? && next.proposal.migrationRequired ==> next.migrationEvidenceIds != [])
    && (next.stage.Ratified? || next.stage.Rejected? ==> next.ratificationDecisionId.Some?)
    && (next.stage.Published? ==> next.publicationEvidenceId.Some?)
    && (next.stage.Verified? ==> next.verificationEvidenceIds != [])
  }

  lemma TransitionWritesOwnProof(current: Record, action: Action, ids: seq<string>, decision: Option<string>)
    requires Transition(current, action, ids, decision).Ok?
    ensures WritesOwnProof(current, CanonicalNext(current, Transition(current, action, ids, decision).value))
  {
  }

  lemma TransitionHoldsProof(current: Record, action: Action, ids: seq<string>, decision: Option<string>)
    requires Transition(current, action, ids, decision).Ok?
    ensures var next := CanonicalNext(current, Transition(current, action, ids, decision).value);
            HoldsProof(next) && Follows(current.stage, next.stage)
  {
  }

  /**
   A legal transition goes one stage on, or out; it writes what its own stage proves and
   leaves the proposal, its author and the proofs of all other stages as they were.
   */
  lemma EachStageIsProvedOnce(current: Record, next: Record)
    requires LegalNext(current, next)
    ensures Follows(current.stage, next.stage) && next.recordVersion == current.recordVersion + 1
    ensures WritesOwnProof(current, next) && HoldsProof(next)
  {
    var action, ids, decision :|
      var r := Transition(current, action, ids, decision);
      r.Ok? && next == CanonicalNext(current, r.value);
    TransitionWritesOwnProof(current, action, ids, decision);
    TransitionHoldsProof(current, action, ids, decision);
  }

  // ---------------------------------------------------------------- exactly which transitions are made

  /** One of the ids, trimmed. */
  ghost predicate IsGiven(ids: seq<string>, id: string) {
    exists given :: given in ids && Trim(given) == id
  }

  lemma {:induction false} CleanedMeans(ids: seq<string>, kept: seq<string>)
    requires Distinct(kept)
    ensures Distinct(Cleaned(ids, kept))
    ensures forall id :: id in Cleaned(ids, kept) <==> id in kept || (id != "" && IsGiven(ids, id))
  {
    if ids != [] {
      var id := Trim(ids[0]);
      CleanedMeans(ids[1..], if id == "" || id in kept then kept else kept + [id]);
      forall x ensures IsGiven(ids, x) <==> x == id || IsGiven(ids[1..], x) {
        assert ids == [ids[0]] + ids[1..];
      }
    }
  }

  /** The ids kept are the given ones trimmed, without the blank ones, each once, in the order of code units. */
  lemma CleanIdsMean(ids: seq<string>)
    ensures forall id :: id in CleanIds(ids) <==> id != "" && IsGiven(ids, id)
    ensures Distinct(CleanIds(ids)) && IsSorted(CleanIds(ids), ByCodeUnit)
  {
    CleanedMeans(ids, []);
    ByCodeUnitIsOrder();
    SortKeepsElements(Cleaned(ids, []), ByCodeUnit);
    SortKeepsDifferent(Cleaned(ids, []), ByCodeUnit);
    SortSorts(Cleaned(ids, []), ByCodeUnit);
  }

  lemma NoIdsKept(ids: seq<string>)
    ensures CleanIds(ids) != [] <==> NamesEvidence(ids)
  {
    CleanIdsMean(ids);
    if CleanIds(ids) != [] {
      assert CleanIds(ids)[0] in CleanIds(ids);
    }
    if given :| given in ids && Trim(given) != "" {
      assert IsGiven(ids, Trim(given));
    }
  }

  /** The action that leads to a stage. */
  function ActionTo(stage: Stage): Action
    requires !stage.Draft?
  {
    match stage
    case ImpactReviewed => CompleteImpactReview
    case MigrationReady => CompleteMigrationPlan
    case RatificationReady => OpenRatification
    case Ratified => Ratify
    case Rejected => Reject
    case Published => Publish
    case Propagating => BeginPropagation
    case Verified => Verify
  }

  /** Some evidence is named that is not blank. */
  ghost predicate NamesEvidence(ids: seq<string>) {
    exists given :: given in ids && Trim(given) != ""
  }

  ghost predicate NamesDecision(decision: Option<string>) {
    decision.Some? && Trim(decision.value) != ""
  }

  /** What a stage demands is there: evidence, or evidence if a migration is required, or a decision, or nothing. */
  ghost predicate Supplies(current: Record, stage: Stage, ids: seq<string>, decision: Option<string>) {
    && (stage in {ImpactReviewed, Published, Verified} ==> NamesEvidence(ids))
    && (stage == MigrationReady && current.proposal.migrationRequired ==> NamesEvidence(ids))
    && (stage in {Ratified, Rejected} ==> NamesDecision(decision))
  }

  /** The record at the stage, with its proof written down. */
  ghost predicate Reaches(current: Record, stage: Stage, ids: seq<string>, decision: Option<string>, next: Record) {
    && next.stage == stage && next.recordVersion == current.recordVersion && WritesOwnProof(current, next)
    && (stage.ImpactReviewed? ==> next.impactEvidenceIds == CleanIds(ids))
    && (stage.MigrationReady? ==> next.migrationEvidenceIds == CleanIds(ids))
    && (stage.Ratified? || stage.Rejected? ==> decision.Some? && next.ratificationDecisionId == Some(Trim(decision.value)))
    && (stage.Published? ==> CleanIds(ids) != [] && next.publicationEvidenceId == Some(CleanIds(ids)[0]))
    && (stage.Propagating? ==> next.propagationEvidenceIds == CleanIds(ids))
    && (stage.Verified? ==> next.verificationEvidenceIds == CleanIds(ids))
  }

  /** The reason why the action that leads to a stage is refused. */
  ghost function WhyNot(current: Record, stage: Stage): Refusal {
    if current.stage.Verified? then Immutable
    else if current.stage.Published? && stage.Rejected? then RejectPublished
    else if !Follows(current.stage, stage) then WrongStage
    else if stage in {Ratified, Rejected} then NoDecision
    else NoEvidence
  }

  /**
   The action that leads to a stage is accepted exactly when the stage follows and what it
   demands is supplied. Then the record is at the stage and holds what was supplied;
   otherwise the refusal says which of the two it was.
   */
  lemma TransitionsExactly(current: Record, stage: Stage, ids: seq<string>, decision: Option<string>)
    requires !stage.Draft?
    ensures var r := Transition(current, ActionTo(stage), ids, decision);
      && (r.Ok? <==> Follows(current.stage, stage) && Supplies(current, stage, ids, decision))
      && (r.Ok? ==> Reaches(current, stage, ids, decision, r.value))
      && (r.Err? ==> r.error == WhyNot(current, stage))
  {
    NoIdsKept(ids);
  }
}
