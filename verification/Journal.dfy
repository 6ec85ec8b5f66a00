/**
 The durable journal of workflow executions: one claim for each request, ever, and the
 recorded attempts of claimed requests.
 */
module Journal {
  import opened Wrappers
  import opened Paths
  import opened Execution

  type Rows = map<(string, int), AttemptRecord>

  datatype Fault = InvalidRequest | InvalidExpiry | InvalidObservation | DatabaseFailure

  /** The rows of a request in ascending order of attempt, up to an attempt number. */
  function Recorded(rows: Rows, request: string, upTo: nat): seq<AttemptRecord> {
    if upTo == 0 then []
    else Recorded(rows, request, upTo - 1) + (if (request, upTo) in rows then [rows[(request, upTo)]] else [])
  }

  /** The rows of a request are exactly these attempts, numbered from 1 without a gap. */
  ghost predicate RowsAre(rows: Rows, request: string, attempts: seq<AttemptRecord>) {
    && (forall a :: (request, a) in rows <==> 1 <= a <= |attempts|)
    && forall a :: 1 <= a <= |attempts| ==> rows[(request, a)] == attempts[a - 1]
  }

  /** Only rows of this request may differ. */
  ghost predicate OthersKept(before: Rows, after: Rows, request: string) {
    forall key: (string, int) :: key.0 != request ==>
      ((key in after) <==> (key in before)) && (key in after ==> after[key] == before[key])
  }

  lemma {:induction false} RecordedUpTo(rows: Rows, request: string, attempts: seq<AttemptRecord>, upTo: nat)
    requires RowsAre(rows, request, attempts)
    ensures Recorded(rows, request, upTo) == if upTo <= |attempts| then attempts[..upTo] else attempts
  {
    if upTo > 0 {
      RecordedUpTo(rows, request, attempts, upTo - 1);
      assert (request, upTo) in rows <==> upTo <= |attempts|;
      if upTo <= |attempts| {
        assert attempts[..upTo] == attempts[..upTo - 1] + [attempts[upTo - 1]];
      } else if upTo == |attempts| + 1 {
        assert attempts[..|attempts|] == attempts;
      }
    }
  }

  /** A row for the next attempt extends the rows of its request and no other's. */
  lemma NextRow(rows: Rows, request: string, attempts: seq<AttemptRecord>, r: AttemptRecord, other: string,
                others: seq<AttemptRecord>)
    requires RowsAre(rows, request, attempts)
    ensures RowsAre(rows[(request, |attempts| + 1) := r], request, attempts + [r])
    ensures other != request && RowsAre(rows, other, others) ==> RowsAre(rows[(request, |attempts| + 1) := r], other, others)
  {
  }

  /** Every row stands under its own attempt number and passed the check. */
  ghost predicate ValidRows(rows: Rows) {
    forall key :: key in rows ==> key.1 == rows[key].attempt && AcceptableObservation(rows[key])
  }

  /** Reading up to an attempt misses no row below it, adds none, and keeps the order. */
  lemma {:induction false} RecordedIsComplete(rows: Rows, request: string, upTo: nat)
    requires ValidRows(rows)
    ensures forall a :: 1 <= a <= upTo && (request, a) in rows ==> rows[(request, a)] in Recorded(rows, request, upTo)
    ensures forall r :: r in Recorded(rows, request, upTo) ==>
      1 <= r.attempt <= upTo && (request, r.attempt) in rows && rows[(request, r.attempt)] == r
    ensures forall j, k :: 0 <= j < k < |Recorded(rows, request, upTo)| ==>
      Recorded(rows, request, upTo)[j].attempt < Recorded(rows, request, upTo)[k].attempt
  {
    if upTo > 0 {
      RecordedIsComplete(rows, request, upTo - 1);
      var before, all := Recorded(rows, request, upTo - 1), Recorded(rows, request, upTo);
      assert forall r :: r in before ==> r in all;
      forall j, k | 0 <= j < k < |all| ensures all[j].attempt < all[k].attempt {
        assert all[j] == before[j] && before[j] in before;
      }
    }
  }

  class ExecutionJournal {
    var claims: map<string, int>
    var observations: Rows

    /** Every row belongs to a claim. */
    ghost predicate Valid()
      reads this
    {
      ValidRows(observations) && forall key :: key in observations ==> key.0 in claims
    }

    constructor ()
      ensures Valid() && claims == map[] && observations == map[]
    {
      claims, observations := map[], map[];
    }

    /** Claims a request once: the unique insert answers a second claim with false, whoever makes it. */
    method Claim(request: string, expiresAt: Option<int>, now: int, databaseUp: bool) returns (r: Result<bool, Fault>)
      requires Valid()
      modifies this
      ensures Valid() && observations == old(observations)
      ensures r == if !IsDigest(request) then Err(InvalidRequest)
                   else if expiresAt.None? || expiresAt.value <= now then Err(InvalidExpiry)
                   else if !databaseUp then Err(DatabaseFailure)
                   else Ok(request !in old(claims))
      ensures claims == if r == Ok(true) then old(claims)[request := expiresAt.value] else old(claims)
    {
      if !IsDigest(request) { return Err(InvalidRequest); }
      if expiresAt.None? || expiresAt.value <= now { return Err(InvalidExpiry); }
      if !databaseUp { return Err(DatabaseFailure); }
      if request in claims { return Ok(false); }
      claims := claims[request := expiresAt.value];
      r := Ok(true);
    }

    /** Appends one attempt of a claimed request; the composite key forbids a second row for it. */
    method Append(request: string, observation: AttemptRecord, databaseUp: bool) returns (r: Result<(), Fault>)
      requires Valid()
      modifies this
      ensures Valid() && claims == old(claims)
      ensures r.Ok? <==> IsDigest(request) && AcceptableObservation(observation) && databaseUp
                              && request in claims && (request, observation.attempt) !in old(observations)
      ensures observations == if r.Ok? then old(observations)[(request, observation.attempt) := observation] else old(observations)
    {
      if !IsDigest(request) { return Err(InvalidRequest); }
      if !AcceptableObservation(observation) { return Err(InvalidObservation); }
      var key := (request, observation.attempt);
      if !databaseUp || request !in claims || key in observations { return Err(DatabaseFailure); }
      observations := observations[key := observation];
      r := Ok(());
    }

    /** Reads a request back for audit: all its rows, none of another request's, in order. */
    method Read(request: string) returns (claimed: bool, attempts: seq<AttemptRecord>)
      requires Valid()
      ensures claimed <==> request in claims
      ensures attempts == Recorded(observations, request, 5)
      ensures forall key :: key in observations && key.0 == request ==> observations[key] in attempts
      ensures forall r :: r in attempts ==> (request, r.attempt) in observations && observations[(request, r.attempt)] == r
    {
      RecordedIsComplete(observations, request, 5);
      claimed, attempts := request in claims, [];
      if claimed {
        for attempt := 1 to 6
          invariant attempts == Recorded(observations, request, attempt - 1)
        {
          if (request, attempt) in observations {
            attempts := attempts + [observations[(request, attempt)]];
          }
        }
      } else {
        NothingRecorded(observations, request, 5);
      }
    }
  }

  lemma {:induction false} NothingRecorded(rows: Rows, request: string, upTo: nat)
    requires forall a :: (request, a) !in rows
    ensures Recorded(rows, request, upTo) == []
  {
    if upTo > 0 {
      NothingRecorded(rows, request, upTo - 1);
    }
  }

  // ---------------------------------------------------------------- the loop, in place

  datatype Refusal = SourceMoved | ClaimFailed(fault: Fault) | Replayed

  /** One call of the runner, recorded before anything is decided on it. */
  method Attempt(journal: ExecutionJournal, grant: Grant, request: string, left: int, turn: Turn,
                 ghost attempts: seq<AttemptRecord>, i: nat)
    returns (record: AttemptRecord, appended: bool)
    requires journal.Valid() && grant.WithinBounds() && IsDigest(request) && request in journal.claims
    requires i == |attempts| + 1 <= grant.maxAttempts && RowsAre(journal.observations, request, attempts)
    modifies journal
    ensures journal.Valid() && journal.claims == old(journal.claims)
    ensures record == RecordOf(grant, i, left, turn.runner) && appended == turn.journalAccepts
    ensures RowsAre(journal.observations, request, if appended then attempts + [record] else attempts)
    ensures OthersKept(old(journal.observations), journal.observations, request)
  {
    record := RecordOf(grant, i, left, turn.runner);
    RecordsAreAcceptable(grant, i, left, turn.runner);
    NextRow(journal.observations, request, attempts, record, "", []);
    var r := journal.Append(request, record, turn.journalAccepts);
    appended := r.Ok?;
  }

  /** The attempts of a request this process has just claimed. */
  method DriveAttempts(journal: ExecutionJournal, grant: Grant, request: string, turns: seq<Turn>) returns (end: End)
    requires journal.Valid() && grant.WithinBounds() && |turns| >= grant.maxAttempts
    requires IsDigest(request) && request in journal.claims && RowsAre(journal.observations, request, [])
    modifies journal
    ensures journal.Valid() && journal.claims == old(journal.claims)
    ensures end == Run(grant, turns)
    ensures RowsAre(journal.observations, request, end.attempts)
    ensures OthersKept(old(journal.observations), journal.observations, request)
  {
    var attempts, offers: seq<int> := [], [];
    var fingerprints: set<Option<string>> := {};
    var totalTokens := 0;
    for i := 1 to grant.maxAttempts + 1
      invariant journal.Valid() && journal.claims == old(journal.claims) && i == |attempts| + 1 == |offers| + 1
      invariant forall d :: d in fingerprints <==> FailedBefore(attempts, d)
      invariant totalTokens == TokensUsed(attempts)
      invariant RowsAre(journal.observations, request, attempts)
      invariant OthersKept(old(journal.observations), journal.observations, request)
      invariant Run(grant, turns) == Loop(grant, turns, attempts, offers)
    {
      var turn := turns[i - 1];
      if turn.expired || !turn.sourceCurrent { return Reported(Stopped, attempts, offers); }
      var left := grant.maxTokenEstimate - totalTokens;
      offers := offers + [left];
      var record, appended := Attempt(journal, grant, request, left, turn, attempts, i);
      if !appended { return JournalFailed(attempts, offers); }
      ghost var before := attempts;
      RecordedTurn(grant, turns, attempts, offers[..i - 1], record);
      assert offers == offers[..i - 1] + [left];
      attempts := attempts + [record];
      match record.outcome {
        case RunnerError => return Reported(Stopped, attempts, offers);
        case InvalidResult => return Reported(Stopped, attempts, offers);
        case Succeeded => return Reported(SubmittedForVerification, attempts, offers);
        case Failed =>
          totalTokens := totalTokens + record.tokensUsed;
          if record.observationDigest in fingerprints { return Reported(NeedsNewEvidence, attempts, offers); }
          FailedSnoc(before, record);
          TokensSnoc(before, record);
          fingerprints := fingerprints + {record.observationDigest};
          if totalTokens >= grant.maxTokenEstimate { return Reported(Stopped, attempts, offers); }
      }
    }
    end := Reported(Stopped, attempts, offers);
  }

  lemma FailedSnoc(attempts: seq<AttemptRecord>, record: AttemptRecord)
    requires record.outcome.Failed?
    ensures forall d :: FailedBefore(attempts + [record], d) <==> FailedBefore(attempts, d) || d == record.observationDigest
  {
    var all := attempts + [record];
    assert all[|attempts|] == record;
    forall d | FailedBefore(attempts, d) ensures FailedBefore(all, d) {
      var k :| 0 <= k < |attempts| && attempts[k].outcome.Failed? && attempts[k].observationDigest == d;
      assert all[k] == attempts[k];
    }
  }

  /** What follows the checks of an execution: the claim, then the loop; `turns` is what the loop meets. */
  method ClaimAndDrive(journal: ExecutionJournal, grant: Grant, request: string, expiresAt: Option<int>, now: int,
                       sourceCurrent: bool, databaseUp: bool, turns: seq<Turn>)
    returns (r: Result<End, Refusal>)
    requires journal.Valid() && IsDigest(request) && grant.WithinBounds() && |turns| >= grant.maxAttempts
    modifies journal
    ensures journal.Valid()
    ensures r.Ok? ==> request !in old(journal.claims) && r.value == Run(grant, turns)
    ensures r.Ok? ==> RowsAre(journal.observations, request, r.value.attempts) && Truthful(grant, turns, r.value)
    ensures r.Err? ==> journal.observations == old(journal.observations) && journal.claims == old(journal.claims)
    ensures r.Ok? <==> sourceCurrent && databaseUp && expiresAt.Some? && expiresAt.value > now && request !in old(journal.claims)
    ensures OthersKept(old(journal.observations), journal.observations, request)
    ensures journal.claims.Keys == old(journal.claims.Keys) + if r.Ok? then {request} else {}
  {
    if !sourceCurrent { return Err(SourceMoved); }
    var locked := journal.Claim(request, expiresAt, now, databaseUp);
    if locked.Err? { return Err(ClaimFailed(locked.error)); }
    if !locked.value { return Err(Replayed); }
    var end := DriveAttempts(journal, grant, request, turns);
    RunIsTruthful(grant, turns);
    r := Ok(end);
  }
}
