/**
 The bounded execution loop: at most so many attempts, each recorded before the next is
 considered, stopped by success, by a repeated failure, by an unusable report, by the
 token budget, or by the world having moved on.
 */
module Execution {
  import opened Wrappers
  import opened Paths

  datatype Grant = Grant(allowedPaths: seq<string>, maxAttempts: nat, maxFiles: nat, maxTokenEstimate: nat) {
    /** The bounds a grant must be within to be verified at all. */
    predicate WithinBounds() {
      && 1 <= maxAttempts <= 5 && 1 <= maxFiles <= 30 && 1 <= maxTokenEstimate <= 30000
      && 1 <= |allowedPaths| <= 30 && forall k :: 0 <= k < |allowedPaths| ==> ValidPath(allowedPaths[k])
    }
  }

  datatype Outcome = Succeeded | Failed | InvalidResult | RunnerError

  datatype AttemptRecord = AttemptRecord(
    attempt: int, outcome: Outcome, observationDigest: Option<string>,
    evidenceReferences: seq<string>, filesTouched: seq<string>, tokensUsed: int)

  /** What a runner hands back; it may be anything. */
  datatype AttemptResult = AttemptResult(
    success: bool, observationDigest: string, evidenceReferences: seq<string>, filesTouched: seq<string>, tokensUsed: int)

  datatype RunnerOutcome = Throws | Malformed | Returns(result: AttemptResult)

  /** What one turn of the loop meets: the clock, the source check, the runner, the journal. */
  datatype Turn = Turn(expired: bool, sourceCurrent: bool, runner: RunnerOutcome, journalAccepts: bool)

  datatype Status = SubmittedForVerification | Stopped | NeedsNewEvidence

  // ---------------------------------------------------------------- one attempt

  predicate ValidResult(result: AttemptResult, grant: Grant) {
    && IsDigest(result.observationDigest)
    && 0 < |result.evidenceReferences| <= 30
    && (forall k :: 0 <= k < |result.evidenceReferences| ==> IsReference(result.evidenceReferences[k]))
    && |result.filesTouched| <= grant.maxFiles
    && (forall k :: 0 <= k < |result.filesTouched| ==>
          ValidPath(result.filesTouched[k]) && InScope(result.filesTouched[k], grant.allowedPaths))
    && 0 <= result.tokensUsed <= grant.maxTokenEstimate
  }

  function Unverified(attempt: int, outcome: Outcome): AttemptRecord {
    AttemptRecord(attempt, outcome, None, [], [], 0)
  }

  /** The record of an attempt that was offered the tokens left. */
  function RecordOf(grant: Grant, attempt: int, left: int, runner: RunnerOutcome): AttemptRecord {
    match runner
    case Throws => Unverified(attempt, RunnerError)
    case Malformed => Unverified(attempt, InvalidResult)
    case Returns(result) =>
      if !ValidResult(result, grant) || result.tokensUsed > left then Unverified(attempt, InvalidResult)
      else AttemptRecord(attempt, if result.success then Succeeded else Failed, Some(result.observationDigest),
                         result.evidenceReferences, result.filesTouched, result.tokensUsed)
  }

  function TokensUsed(attempts: seq<AttemptRecord>): int {
    if attempts == [] then 0 else TokensUsed(attempts[..|attempts| - 1]) + attempts[|attempts| - 1].tokensUsed
  }

  predicate FailedBefore(attempts: seq<AttemptRecord>, digest: Option<string>) {
    exists k :: 0 <= k < |attempts| && attempts[k].outcome.Failed? && attempts[k].observationDigest == digest
  }

  /** The tokens the attempts leave. */
  function Left(grant: Grant, attempts: seq<AttemptRecord>): int {
    grant.maxTokenEstimate - TokensUsed(attempts)
  }

  /** Whether a recorded attempt ends the run, and how. */
  function Verdict(grant: Grant, attempts: seq<AttemptRecord>, record: AttemptRecord): Option<Status> {
    match record.outcome
    case RunnerError => Some(Stopped)
    case InvalidResult => Some(Stopped)
    case Succeeded => Some(SubmittedForVerification)
    case Failed =>
      if FailedBefore(attempts, record.observationDigest) then Some(NeedsNewEvidence)
      else if TokensUsed(attempts) + record.tokensUsed >= grant.maxTokenEstimate then Some(Stopped)
      else None
  }

  // ---------------------------------------------------------------- the whole run

  /**
   How a run ends: with a report, or because the journal refused a record. `offers` are the
   token budgets the runner was called with, one for each call.
   */
  datatype End = Reported(status: Status, attempts: seq<AttemptRecord>, offers: seq<int>)
               | JournalFailed(attempts: seq<AttemptRecord>, offers: seq<int>)

  function Loop(grant: Grant, turns: seq<Turn>, attempts: seq<AttemptRecord>, offers: seq<int>): End
    requires |turns| >= grant.maxAttempts
    decreases grant.maxAttempts - |attempts|
  {
    var i := |attempts| + 1;
    if i > grant.maxAttempts then Reported(Stopped, attempts, offers)
    else
      var turn := turns[i - 1];
      if turn.expired || !turn.sourceCurrent then Reported(Stopped, attempts, offers)
      else
        var left := grant.maxTokenEstimate - TokensUsed(attempts);
        var record := RecordOf(grant, i, left, turn.runner);
        if !turn.journalAccepts then JournalFailed(attempts, offers + [left])
        else
          var verdict := Verdict(grant, attempts, record);
          if verdict.Some? then Reported(verdict.value, attempts + [record], offers + [left])
          else Loop(grant, turns, attempts + [record], offers + [left])
  }

  function Run(grant: Grant, turns: seq<Turn>): End
    requires |turns| >= grant.maxAttempts
  {
    Loop(grant, turns, [], [])
  }

  /** A turn whose record is journaled. */
  lemma {:induction false} RecordedTurn(grant: Grant, turns: seq<Turn>, before: seq<AttemptRecord>, offers: seq<int>,
                                        record: AttemptRecord)
    requires |before| < grant.maxAttempts <= |turns| && record == RecordOf(grant, |before| + 1, Left(grant, before), turns[|before|].runner)
    requires !turns[|before|].expired && turns[|before|].sourceCurrent && turns[|before|].journalAccepts
    ensures Loop(grant, turns, before, offers) ==
      if Verdict(grant, before, record).None? then Loop(grant, turns, before + [record], offers + [Left(grant, before)])
      else Reported(Verdict(grant, before, record).value, before + [record], offers + [Left(grant, before)])
  {
  }

  // ---------------------------------------------------------------- what the journal accepts

  /** The journal's own check of a record. */
  predicate AcceptableObservation(r: AttemptRecord) {
    && 1 <= r.attempt <= 5 && 0 <= r.tokensUsed <= 30000
    && (r.observationDigest.Some? ==> IsDigest(r.observationDigest.value))
    && |r.evidenceReferences| <= 30 && |r.filesTouched| <= 30
    && (forall k :: 0 <= k < |r.evidenceReferences| ==> IsReference(r.evidenceReferences[k]))
    && (forall k :: 0 <= k < |r.filesTouched| ==> FilePath(r.filesTouched[k]))
    && (r.outcome.Succeeded? || r.outcome.Failed? ==> r.observationDigest.Some? && r.evidenceReferences != [])
    && (r.outcome.RunnerError? || r.outcome.InvalidResult? ==>
          r.observationDigest.None? && r.evidenceReferences == [] && r.filesTouched == [] && r.tokensUsed == 0)
  }

  /** Every record the loop can make passes the journal's check. */
  lemma RecordsAreAcceptable(grant: Grant, attempt: int, left: int, runner: RunnerOutcome)
    requires grant.WithinBounds() && 1 <= attempt <= grant.maxAttempts
    ensures AcceptableObservation(RecordOf(grant, attempt, left, runner))
  {
    var r := RecordOf(grant, attempt, left, runner);
    forall k | 0 <= k < |r.filesTouched| ensures FilePath(r.filesTouched[k]) {
      PathChecksAgree(r.filesTouched[k]);
    }
  }

  /** Some bounded run can make the record. */
  ghost predicate CanBeMade(r: AttemptRecord) {
    exists grant: Grant, left, runner ::
      grant.WithinBounds() && 1 <= r.attempt <= grant.maxAttempts && r == RecordOf(grant, r.attempt, left, runner)
  }

  lemma InOwnScope(paths: seq<string>, k: nat)
    requires k < |paths|
    ensures InScope(paths[k], paths)
  {
  }

  /** A record with a digest can be made under a grant for the files it touched. */
  lemma ReportCanBeMade(r: AttemptRecord)
    requires AcceptableObservation(r) && (r.outcome.Succeeded? || r.outcome.Failed?)
    ensures CanBeMade(r)
  {
    var paths := if r.filesTouched == [] then ["aa"] else r.filesTouched;
    var grant := Grant(paths, 5, 30, 30000);
    var result := AttemptResult(r.outcome.Succeeded?, r.observationDigest.value, r.evidenceReferences, r.filesTouched, r.tokensUsed);
    TwoLetters();
    forall k | 0 <= k < |paths| ensures ValidPath(paths[k]) {
      PathChecksAgree(paths[k]);
    }
    forall k | 0 <= k < |r.filesTouched| ensures InScope(r.filesTouched[k], paths) {
      InOwnScope(paths, k);
    }
    assert r == RecordOf(grant, r.attempt, 30000, Returns(result));
  }

  lemma TwoLetters()
    ensures FilePath("aa")
  {
    PlainPath("aa");
  }

  /** The journal accepts exactly the records that some bounded run can make. */
  lemma AcceptableExactly(r: AttemptRecord)
    ensures AcceptableObservation(r) <==> CanBeMade(r)
  {
    if AcceptableObservation(r) {
      if r.outcome.RunnerError? || r.outcome.InvalidResult? {
        TwoLetters();
        PathChecksAgree("aa");
        var grant := Grant(["aa"], 5, 30, 30000);
        assert grant.WithinBounds();
        assert r == RecordOf(grant, r.attempt, 0, if r.outcome.RunnerError? then Throws else Malformed);
      } else {
        ReportCanBeMade(r);
      }
    }
    if CanBeMade(r) {
      var grant: Grant, left, runner :|
        grant.WithinBounds() && 1 <= r.attempt <= grant.maxAttempts && r == RecordOf(grant, r.attempt, left, runner);
      RecordsAreAcceptable(grant, r.attempt, left, runner);
    }
  }

  // ---------------------------------------------------------------- the laws of a run

  /** Attempts after which the loop may go on: all failed, with different digests, tokens left. */
  ghost predicate Underway(grant: Grant, attempts: seq<AttemptRecord>) {
    && Numbered(attempts) && |attempts| <= grant.maxAttempts
    && (forall k :: 0 <= k < |attempts| ==> attempts[k].outcome.Failed? && AcceptableObservation(attempts[k]))
    && DifferentFailures(attempts)
    && TokensUsed(attempts) < grant.maxTokenEstimate
  }

  ghost predicate Unfinished(grant: Grant, attempts: seq<AttemptRecord>, offers: seq<int>) {
    Underway(grant, attempts) && OffersRemainder(grant, attempts, offers) && |offers| == |attempts|
  }

  ghost predicate Numbered(attempts: seq<AttemptRecord>) {
    forall k :: 0 <= k < |attempts| ==> attempts[k].attempt == k + 1
  }

  /** No two failures show the same observation. */
  ghost predicate DifferentFailures(attempts: seq<AttemptRecord>) {
    forall j, k :: 0 <= j < k < |attempts| && attempts[j].outcome.Failed? && attempts[k].outcome.Failed? ==>
      attempts[j].observationDigest != attempts[k].observationDigest
  }

  /** Each call was offered exactly the tokens the recorded attempts before it had left, and some were left. */
  ghost predicate OffersRemainder(grant: Grant, attempts: seq<AttemptRecord>, offers: seq<int>) {
    |offers| <= |attempts| + 1 &&
    forall k :: 0 <= k < |offers| ==> offers[k] == grant.maxTokenEstimate - TokensUsed(attempts[..k]) && offers[k] > 0
  }

  /** Attempts a journal may hold: numbered from 1, all but the last failed, within the grant. */
  ghost predicate Sound(grant: Grant, attempts: seq<AttemptRecord>) {
    && Numbered(attempts) && |attempts| <= grant.maxAttempts
    && (forall k :: 0 <= k < |attempts| - 1 ==> attempts[k].outcome.Failed?)
    && (forall k :: 0 <= k < |attempts| ==> AcceptableObservation(attempts[k]))
    && TokensUsed(attempts) <= grant.maxTokenEstimate
  }

  /** What holds of every run, however it ends. */
  ghost predicate Lawful(grant: Grant, end: End) {
    var attempts := end.attempts;
    && Sound(grant, attempts) && |attempts| <= |end.offers| <= grant.maxAttempts
    && (|end.offers| == |attempts| || (end.JournalFailed? && |end.offers| == |attempts| + 1))
    && OffersRemainder(grant, attempts, end.offers)
    && (end.Reported? ==>
          && (end.status.SubmittedForVerification? <==> attempts != [] && attempts[|attempts| - 1].outcome.Succeeded?)
          && (end.status.NeedsNewEvidence? <==> !DifferentFailures(attempts)))
    && (end.JournalFailed? ==> Underway(grant, attempts))
  }

  lemma TokensSnoc(attempts: seq<AttemptRecord>, r: AttemptRecord)
    ensures TokensUsed(attempts + [r]) == TokensUsed(attempts) + r.tokensUsed
  {
    assert (attempts + [r])[..|attempts|] == attempts;
  }

  lemma OfferNext(grant: Grant, attempts: seq<AttemptRecord>, offers: seq<int>)
    requires OffersRemainder(grant, attempts, offers) && |offers| == |attempts| && TokensUsed(attempts) < grant.maxTokenEstimate
    ensures OffersRemainder(grant, attempts, offers + [grant.maxTokenEstimate - TokensUsed(attempts)])
    ensures forall r :: OffersRemainder(grant, attempts + [r], offers + [grant.maxTokenEstimate - TokensUsed(attempts)])
  {
    var grown := offers + [grant.maxTokenEstimate - TokensUsed(attempts)];
    assert attempts[..|attempts|] == attempts;
    forall r ensures OffersRemainder(grant, attempts + [r], grown) {
      forall k | 0 <= k < |grown| ensures (attempts + [r])[..k] == attempts[..k] {
      }
    }
  }

  /** A failure repeats an earlier one exactly when the verdict asks for new evidence. */
  lemma RepeatsWhenAsked(grant: Grant, attempts: seq<AttemptRecord>, record: AttemptRecord)
    requires DifferentFailures(attempts)
    ensures DifferentFailures(attempts + [record]) <==> !(record.outcome.Failed? && FailedBefore(attempts, record.observationDigest))
  {
    var all := attempts + [record];
    if record.outcome.Failed? && FailedBefore(attempts, record.observationDigest) {
      var k :| 0 <= k < |attempts| && attempts[k].outcome.Failed? && attempts[k].observationDigest == record.observationDigest;
      assert all[k] == attempts[k] && all[|attempts|] == record;
    }
  }

  /** What a record made by the loop promises its successor. */
  ghost predicate NextRecord(grant: Grant, attempts: seq<AttemptRecord>, record: AttemptRecord) {
    && record.attempt == |attempts| + 1 && AcceptableObservation(record)
    && record.tokensUsed <= grant.maxTokenEstimate - TokensUsed(attempts)
  }

  lemma RecordIsNext(grant: Grant, attempts: seq<AttemptRecord>, runner: RunnerOutcome)
    requires grant.WithinBounds() && |attempts| < grant.maxAttempts && TokensUsed(attempts) < grant.maxTokenEstimate
    ensures NextRecord(grant, attempts,
                       RecordOf(grant, |attempts| + 1, grant.maxTokenEstimate - TokensUsed(attempts), runner))
  {
    RecordsAreAcceptable(grant, |attempts| + 1, grant.maxTokenEstimate - TokensUsed(attempts), runner);
  }

  lemma RecordedIsSound(grant: Grant, attempts: seq<AttemptRecord>, record: AttemptRecord)
    requires Underway(grant, attempts) && |attempts| < grant.maxAttempts && NextRecord(grant, attempts, record)
    ensures Sound(grant, attempts + [record])
  {
    TokensSnoc(attempts, record);
  }

  lemma ContinuingIsUnderway(grant: Grant, attempts: seq<AttemptRecord>, record: AttemptRecord)
    requires Underway(grant, attempts) && |attempts| < grant.maxAttempts && NextRecord(grant, attempts, record)
    requires Verdict(grant, attempts, record).None?
    ensures Underway(grant, attempts + [record])
  {
    TokensSnoc(attempts, record);
    RepeatsWhenAsked(grant, attempts, record);
  }

  lemma StoppingIsLawful(grant: Grant, attempts: seq<AttemptRecord>, offers: seq<int>)
    requires Unfinished(grant, attempts, offers)
    ensures Lawful(grant, Reported(Stopped, attempts, offers))
  {
  }

  lemma RefusalIsLawful(grant: Grant, attempts: seq<AttemptRecord>, offers: seq<int>, grown: seq<int>)
    requires Unfinished(grant, attempts, offers) && |attempts| < grant.maxAttempts
    requires grown == offers + [grant.maxTokenEstimate - TokensUsed(attempts)]
    ensures Lawful(grant, JournalFailed(attempts, grown))
  {
    OfferNext(grant, attempts, offers);
  }

  lemma EndingIsLawful(grant: Grant, attempts: seq<AttemptRecord>, offers: seq<int>, record: AttemptRecord,
                       grown: seq<int>, status: Status)
    requires Unfinished(grant, attempts, offers) && |attempts| < grant.maxAttempts && NextRecord(grant, attempts, record)
    requires grown == offers + [grant.maxTokenEstimate - TokensUsed(attempts)]
    requires Verdict(grant, attempts, record) == Some(status)
    ensures Lawful(grant, Reported(status, attempts + [record], grown))
  {
    OfferNext(grant, attempts, offers);
    RecordedIsSound(grant, attempts, record);
    RepeatsWhenAsked(grant, attempts, record);
  }

  lemma ContinuingIsUnfinished(grant: Grant, attempts: seq<AttemptRecord>, offers: seq<int>, record: AttemptRecord,
                               grown: seq<int>)
    requires Unfinished(grant, attempts, offers) && |attempts| < grant.maxAttempts && NextRecord(grant, attempts, record)
    requires grown == offers + [grant.maxTokenEstimate - TokensUsed(attempts)]
    requires Verdict(grant, attempts, record).None?
    ensures Unfinished(grant, attempts + [record], grown)
  {
    OfferNext(grant, attempts, offers);
    ContinuingIsUnderway(grant, attempts, record);
  }

  lemma {:induction false} LoopIsLawful(grant: Grant, turns: seq<Turn>, attempts: seq<AttemptRecord>, offers: seq<int>)
    requires grant.WithinBounds() && |turns| >= grant.maxAttempts && Unfinished(grant, attempts, offers)
    ensures Lawful(grant, Loop(grant, turns, attempts, offers))
    decreases grant.maxAttempts - |attempts|
  {
    var i := |attempts| + 1;
    if i > grant.maxAttempts || turns[i - 1].expired || !turns[i - 1].sourceCurrent {
      StoppingIsLawful(grant, attempts, offers);
      assert Loop(grant, turns, attempts, offers) == Reported(Stopped, attempts, offers);
    } else {
      var left := grant.maxTokenEstimate - TokensUsed(attempts);
      var record := RecordOf(grant, i, left, turns[i - 1].runner);
      RecordIsNext(grant, attempts, turns[i - 1].runner);
      if !turns[i - 1].journalAccepts {
        RefusalIsLawful(grant, attempts, offers, offers + [left]);
        assert Loop(grant, turns, attempts, offers) == JournalFailed(attempts, offers + [left]);
      } else if Verdict(grant, attempts, record).None? {
        ContinuingIsUnfinished(grant, attempts, offers, record, offers + [left]);
        LoopIsLawful(grant, turns, attempts + [record], offers + [left]);
        assert Loop(grant, turns, attempts, offers) == Loop(grant, turns, attempts + [record], offers + [left]);
      } else {
        var status := Verdict(grant, attempts, record).value;
        EndingIsLawful(grant, attempts, offers, record, offers + [left], status);
        assert Loop(grant, turns, attempts, offers) == Reported(status, attempts + [record], offers + [left]);
      }
    }
  }

  /** Every run keeps the laws, whatever the clock, the source, the runner and the journal do. */
  lemma RunIsLawful(grant: Grant, turns: seq<Turn>)
    requires grant.WithinBounds() && |turns| >= grant.maxAttempts
    ensures Lawful(grant, Run(grant, turns))
  {
    LoopIsLawful(grant, turns, [], []);
  }

  // ---------------------------------------------------------------- when the loop calls, and why it stops

  /** What can stop a run that neither succeeded nor repeated itself. */
  ghost predicate HasReason(grant: Grant, turns: seq<Turn>, attempts: seq<AttemptRecord>)
    requires |turns| >= grant.maxAttempts
  {
    || |attempts| >= grant.maxAttempts
    || turns[|attempts|].expired || !turns[|attempts|].sourceCurrent
    || TokensUsed(attempts) >= grant.maxTokenEstimate
    || (attempts != [] && (attempts[|attempts| - 1].outcome.RunnerError? || attempts[|attempts| - 1].outcome.InvalidResult?))
  }

  /** Every call was made in a turn that found the grant unexpired and the source current. */
  ghost predicate CalledFresh(turns: seq<Turn>, offers: seq<int>) {
    |offers| <= |turns| && forall k :: 0 <= k < |offers| ==> !turns[k].expired && turns[k].sourceCurrent
  }

  lemma {:induction false} LoopIsCautious(grant: Grant, turns: seq<Turn>, attempts: seq<AttemptRecord>, offers: seq<int>)
    requires |turns| >= grant.maxAttempts && |offers| == |attempts| <= grant.maxAttempts && CalledFresh(turns, offers)
    ensures var end := Loop(grant, turns, attempts, offers);
      CalledFresh(turns, end.offers) && (end == Reported(Stopped, end.attempts, end.offers) ==> HasReason(grant, turns, end.attempts))
    decreases grant.maxAttempts - |attempts|, 1
  {
    var i := |attempts| + 1;
    if i <= grant.maxAttempts && !turns[i - 1].expired && turns[i - 1].sourceCurrent {
      if turns[i - 1].journalAccepts {
        var record := RecordOf(grant, i, Left(grant, attempts), turns[i - 1].runner);
        RecordedTurn(grant, turns, attempts, offers, record);
        RecordedIsCautious(grant, turns, attempts, offers + [Left(grant, attempts)], record);
      }
    }
  }

  /** The same, once the attempt of the turn is recorded. */
  lemma {:induction false} RecordedIsCautious(grant: Grant, turns: seq<Turn>, attempts: seq<AttemptRecord>,
                                              offers: seq<int>, record: AttemptRecord)
    requires |turns| >= grant.maxAttempts && |offers| == |attempts| + 1 <= grant.maxAttempts && CalledFresh(turns, offers)
    ensures var verdict, grown := Verdict(grant, attempts, record), attempts + [record];
      var end := if verdict.None? then Loop(grant, turns, grown, offers) else Reported(verdict.value, grown, offers);
      CalledFresh(turns, end.offers) && (end == Reported(Stopped, end.attempts, end.offers) ==> HasReason(grant, turns, end.attempts))
    decreases grant.maxAttempts - |attempts|, 0
  {
    if Verdict(grant, attempts, record).None? {
      LoopIsCautious(grant, turns, attempts + [record], offers);
    } else if Verdict(grant, attempts, record) == Some(Stopped) {
      StopHasReason(grant, turns, attempts, record);
    }
  }

  lemma StopHasReason(grant: Grant, turns: seq<Turn>, attempts: seq<AttemptRecord>, record: AttemptRecord)
    requires |turns| >= grant.maxAttempts && Verdict(grant, attempts, record) == Some(Stopped)
    ensures HasReason(grant, turns, attempts + [record])
  {
    TokensSnoc(attempts, record);
  }

  /** The runner is called only with an unexpired grant and a current source, and no run stops without a reason. */
  lemma RunIsCautious(grant: Grant, turns: seq<Turn>)
    requires |turns| >= grant.maxAttempts
    ensures var end := Run(grant, turns);
      CalledFresh(turns, end.offers) && (end == Reported(Stopped, end.attempts, end.offers) ==> HasReason(grant, turns, end.attempts))
  {
    LoopIsCautious(grant, turns, [], []);
  }

  // ---------------------------------------------------------------- what the records say of the runner

  /** The runner answered, its report is valid, and it used no more than it was offered. */
  ghost predicate Usable(grant: Grant, offer: int, runner: RunnerOutcome) {
    runner.Returns? && ValidResult(runner.result, grant) && runner.result.tokensUsed <= offer
  }

  /** A record says of a call what the runner said: a usable report as it was given, anything else as what it was. */
  ghost predicate Tells(grant: Grant, offer: int, runner: RunnerOutcome, record: AttemptRecord) {
    && (record.outcome.Succeeded? <==> Usable(grant, offer, runner) && runner.result.success)
    && (record.outcome.Failed? <==> Usable(grant, offer, runner) && !runner.result.success)
    && (record.outcome.RunnerError? <==> runner.Throws?)
    && (Usable(grant, offer, runner) ==>
          && record.observationDigest == Some(runner.result.observationDigest)
          && record.evidenceReferences == runner.result.evidenceReferences
          && record.filesTouched == runner.result.filesTouched && record.tokensUsed == runner.result.tokensUsed)
    && (!Usable(grant, offer, runner) ==>
          && record.observationDigest.None? && record.evidenceReferences == [] && record.filesTouched == []
          && record.tokensUsed == 0)
  }

  /** No more files than granted, each one of the allowed paths or below one. */
  ghost predicate Confined(grant: Grant, record: AttemptRecord) {
    && |record.filesTouched| <= grant.maxFiles
    && forall k :: 0 <= k < |record.filesTouched| ==> InScope(record.filesTouched[k], grant.allowedPaths)
  }

  /** Each attempt was journaled and tells what the runner answered in its turn. */
  ghost predicate TellsAll(grant: Grant, turns: seq<Turn>, attempts: seq<AttemptRecord>, offers: seq<int>) {
    && |attempts| <= |turns| && |attempts| <= |offers|
    && forall k :: 0 <= k < |attempts| ==>
         turns[k].journalAccepts && Tells(grant, offers[k], turns[k].runner, attempts[k]) && Confined(grant, attempts[k])
  }

  /**
   The attempts tell what the runner answered; a run is submitted exactly when the last answer
   was a usable success, and breaks off exactly where the journal refuses a record.
   */
  ghost predicate Truthful(grant: Grant, turns: seq<Turn>, end: End) {
    var n := |end.attempts|;
    && TellsAll(grant, turns, end.attempts, end.offers)
    && (end.Reported? ==>
          (end.status.SubmittedForVerification? <==>
             n > 0 && Usable(grant, end.offers[n - 1], turns[n - 1].runner) && turns[n - 1].runner.result.success))
    && (end.JournalFailed? ==> n < |turns| && !turns[n].journalAccepts)
  }

  lemma RecordTells(grant: Grant, attempt: int, left: int, runner: RunnerOutcome)
    ensures Tells(grant, left, runner, RecordOf(grant, attempt, left, runner))
    ensures Confined(grant, RecordOf(grant, attempt, left, runner))
  {
  }

  lemma TellsNext(grant: Grant, turns: seq<Turn>, attempts: seq<AttemptRecord>, offers: seq<int>, record: AttemptRecord,
                  left: int)
    requires TellsAll(grant, turns, attempts, offers) && |offers| == |attempts| < |turns|
    requires turns[|attempts|].journalAccepts && Tells(grant, left, turns[|attempts|].runner, record) && Confined(grant, record)
    ensures TellsAll(grant, turns, attempts + [record], offers + [left])
  {
  }

  lemma {:induction false} LoopIsTruthful(grant: Grant, turns: seq<Turn>, attempts: seq<AttemptRecord>, offers: seq<int>)
    requires |turns| >= grant.maxAttempts && |offers| == |attempts| && TellsAll(grant, turns, attempts, offers)
    requires attempts != [] ==> attempts[|attempts| - 1].outcome.Failed?
    ensures Truthful(grant, turns, Loop(grant, turns, attempts, offers))
    decreases grant.maxAttempts - |attempts|
  {
    var i := |attempts|;
    if i < grant.maxAttempts && !turns[i].expired && turns[i].sourceCurrent && turns[i].journalAccepts {
      var left := Left(grant, attempts);
      var record := RecordOf(grant, i + 1, left, turns[i].runner);
      RecordTells(grant, i + 1, left, turns[i].runner);
      RecordedTurn(grant, turns, attempts, offers, record);
      TellsNext(grant, turns, attempts, offers, record, left);
      if Verdict(grant, attempts, record).None? {
        LoopIsTruthful(grant, turns, attempts + [record], offers + [left]);
      }
    }
  }

  /** Every run tells the truth of the runner, whatever the clock, the source, the runner and the journal do. */
  lemma RunIsTruthful(grant: Grant, turns: seq<Turn>)
    requires |turns| >= grant.maxAttempts
    ensures Truthful(grant, turns, Run(grant, turns))
  {
    LoopIsTruthful(grant, turns, [], []);
  }
}
