/**
 The interleaved protocol carries out single runs: whatever processes do to each other and
 wherever they crash, what the journal holds of a request, and how often its runner was
 called, is what one run of the bounded loop leaves behind.
 */
module ExecutionRefinement {
  import opened Execution
  import opened Journal
  import opened ExecutionProtocol

  // ---------------------------------------------------------------- attempts that a run leaves behind

  /** No attempt ended the loop. */
  ghost predicate Continues(grant: Grant, attempts: seq<AttemptRecord>, count: int)
    requires count <= |attempts|
  {
    forall k :: 0 <= k < count ==> Verdict(grant, attempts[..k], attempts[k]).None?
  }

  ghost predicate Records(grant: Grant, attempts: seq<AttemptRecord>, answers: seq<RunnerOutcome>)
    requires |attempts| <= |answers|
  {
    forall k :: 0 <= k < |attempts| ==> attempts[k] == RecordOf(grant, k + 1, Left(grant, attempts[..k]), answers[k])
  }

  /** Each attempt records the answer of its call; all calls but the last were recorded and ended nothing. */
  ghost predicate Follows(grant: Grant, attempts: seq<AttemptRecord>, answers: seq<RunnerOutcome>) {
    && |attempts| <= |answers| <= |attempts| + 1 && |answers| <= grant.maxAttempts
    && Records(grant, attempts, answers)
    && Continues(grant, attempts, |answers| - 1)
  }

  /** Turns in which the calls get these answers, the first are recorded, and then the grant expires. */
  function TurnsOf(answers: seq<RunnerOutcome>, recorded: nat, count: nat): (turns: seq<Turn>)
    ensures |turns| == count
  {
    seq(count, k requires 0 <= k < count =>
      if k < |answers| then Turn(false, true, answers[k], k < recorded) else Turn(true, true, Throws, true))
  }

  /** The turn after the recorded ones: its call is not recorded, or there is none. */
  lemma {:induction false} LastTurn(grant: Grant, attempts: seq<AttemptRecord>, answers: seq<RunnerOutcome>,
                                    offers: seq<int>)
    requires |attempts| <= |answers| <= |attempts| + 1 && |answers| <= grant.maxAttempts && |offers| == |attempts|
    ensures var end := Loop(grant, TurnsOf(answers, |attempts|, grant.maxAttempts), attempts, offers);
            end.attempts == attempts && |end.offers| == |answers|
  {
  }

  /** From the attempt before the next one on, the loop over these turns makes the remaining attempts. */
  lemma {:induction false} LoopFollows(grant: Grant, attempts: seq<AttemptRecord>, answers: seq<RunnerOutcome>, k: nat,
                                       offers: seq<int>)
    requires Follows(grant, attempts, answers) && k <= |attempts| && |offers| == k
    ensures var end := Loop(grant, TurnsOf(answers, |attempts|, grant.maxAttempts), attempts[..k], offers);
            end.attempts == attempts && |end.offers| == |answers|
    decreases |attempts| - k
  {
    var turns := TurnsOf(answers, |attempts|, grant.maxAttempts);
    if k == |attempts| {
      assert attempts[..k] == attempts;
      LastTurn(grant, attempts, answers, offers);
    } else {
      RecordedTurn(grant, turns, attempts[..k], offers, attempts[k]);
      assert attempts[..k] + [attempts[k]] == attempts[..k + 1];
      if Verdict(grant, attempts[..k], attempts[k]).None? {
        LoopFollows(grant, attempts, answers, k + 1, offers + [Left(grant, attempts[..k])]);
      } else {
        assert attempts[..k + 1] == attempts;
      }
    }
  }

  /** Attempts that follow the answers are the attempts of a run. */
  lemma FollowsIsRun(grant: Grant, attempts: seq<AttemptRecord>, answers: seq<RunnerOutcome>)
    requires Follows(grant, attempts, answers)
    ensures var end := Run(grant, TurnsOf(answers, |attempts|, grant.maxAttempts));
            end.attempts == attempts && |end.offers| == |answers|
  {
    assert attempts[..0] == [];
    LoopFollows(grant, attempts, answers, 0, []);
  }

  /** The attempts of that run tell its answers. */
  lemma AnswersAreTold(grant: Grant, attempts: seq<AttemptRecord>, answers: seq<RunnerOutcome>)
    requires Follows(grant, attempts, answers)
    ensures var end := Run(grant, TurnsOf(answers, |attempts|, grant.maxAttempts));
            |end.offers| >= |attempts| &&
            forall k :: 0 <= k < |attempts| ==> Tells(grant, end.offers[k], answers[k], attempts[k]) && Confined(grant, attempts[k])
  {
    var turns := TurnsOf(answers, |attempts|, grant.maxAttempts);
    FollowsIsRun(grant, attempts, answers);
    RunIsTruthful(grant, turns);
    assert forall k :: 0 <= k < |attempts| ==> turns[k].runner == answers[k];
  }

  // ---------------------------------------------------------------- what the protocol keeps of the answers

  /** The answers of the runner so far, request by request. */
  type Answers = string -> seq<RunnerOutcome>

  /** A process that goes on has met no verdict; one that holds a record made it of the last answer. */
  ghost predicate ProcessFollows(p: Process, answers: Answers) {
    match p
    case Deciding(grant, _, attempts) => Continues(grant, attempts, |attempts|)
    case Holding(grant, request, attempts, record) =>
      && Continues(grant, attempts, |attempts|) && |answers(request)| == |attempts| + 1
      && record == RecordOf(grant, |attempts| + 1, Left(grant, attempts), answers(request)[|attempts|])
    case _ => true
  }

  ghost predicate Traced(s: System, journaled: string -> seq<AttemptRecord>, answers: Answers) {
    && (forall r :: |answers(r)| == s.Calls(r))
    && (forall r :: r in s.claims ==> Follows(s.claims[r], journaled(r), answers(r)))
    && (forall id :: id in s.processes ==> ProcessFollows(s.processes[id], answers))
  }

  function AnswersAfter(s: System, action: Action, answers: Answers): Answers {
    if action.Call? && action.id in s.processes && s.processes[action.id].Deciding? then
      var request := s.processes[action.id].request;
      r => if r == request then answers(r) + [action.runner] else answers(r)
    else answers
  }

  /** A step that moves one process and nothing else. */
  lemma MoveTraces(s: System, id: nat, p: Process, t: System, journaled: string -> seq<AttemptRecord>, answers: Answers)
    requires Traced(s, journaled, answers) && t == s.(processes := s.processes[id := p]) && ProcessFollows(p, answers)
    ensures Traced(t, journaled, answers)
  {
    forall r ensures |answers(r)| == t.Calls(r) {
      assert |answers(r)| == s.Calls(r);
    }
  }

  lemma ClaimTraces(s: System, id: nat, t: System, journaled: string -> seq<AttemptRecord>, answers: Answers)
    requires Inv(s, journaled) && Traced(s, journaled, answers)
    requires id in s.processes && s.processes[id].Authorized? && s.processes[id].request !in s.claims && Step(s, Claim(id), t)
    ensures Traced(t, journaled, answers)
  {
    var p := s.processes[id];
    assert RequestKept(s, p.request, journaled(p.request)) && ProcessKept(s, p, journaled);
    forall r ensures |answers(r)| == t.Calls(r) {
      assert |answers(r)| == s.Calls(r);
    }
    assert |answers(p.request)| == s.Calls(p.request);
    forall r | r in t.claims ensures Follows(t.claims[r], journaled(r), answers(r)) {
      assert r != p.request ==> r in s.claims && Follows(s.claims[r], journaled(r), answers(r));
    }
  }

  /** Only the driver of a request holds a record of it. */
  lemma OthersFollow(s: System, id: nat, other: nat, answers: Answers, after: Answers)
    requires OneDriver(s.processes) && id in s.processes && other in s.processes && other != id
    requires s.processes[id].Deciding? && ProcessFollows(s.processes[other], answers)
    requires forall r :: r != s.processes[id].request ==> after(r) == answers(r)
    ensures ProcessFollows(s.processes[other], after)
  {
    var request := s.processes[id].request;
    assert s.processes[id].Drives(request);
    assert !s.processes[other].Drives(request);
  }

  /** One more answer, after attempts that ended nothing. */
  lemma FollowsAnswer(grant: Grant, attempts: seq<AttemptRecord>, answers: seq<RunnerOutcome>, runner: RunnerOutcome)
    requires Follows(grant, attempts, answers) && |answers| == |attempts| < grant.maxAttempts
    requires Continues(grant, attempts, |attempts|)
    ensures Follows(grant, attempts, answers + [runner])
  {
  }

  lemma CallCounts(s: System, id: nat, runner: RunnerOutcome, t: System, answers: Answers)
    requires Step(s, Call(id, runner), t) && forall r :: |answers(r)| == s.Calls(r)
    ensures forall r :: |AnswersAfter(s, Call(id, runner), answers)(r)| == t.Calls(r)
  {
    forall r ensures |AnswersAfter(s, Call(id, runner), answers)(r)| == t.Calls(r) {
      assert |answers(r)| == s.Calls(r);
    }
  }

  lemma CallFollows(s: System, id: nat, runner: RunnerOutcome, t: System, journaled: string -> seq<AttemptRecord>,
                    answers: Answers, r: string)
    requires Step(s, Call(id, runner), t) && r in s.claims && Follows(s.claims[r], journaled(r), answers(r))
    requires ProcessKept(s, s.processes[id], journaled) && ProcessFollows(s.processes[id], answers)
    requires |answers(r)| == s.Calls(r)
    ensures Follows(t.claims[r], journaled(r), AnswersAfter(s, Call(id, runner), answers)(r))
  {
    var p := s.processes[id];
    if r == p.request {
      FollowsAnswer(p.grant, p.attempts, answers(r), runner);
    }
  }

  lemma CallTraces(s: System, id: nat, runner: RunnerOutcome, t: System, journaled: string -> seq<AttemptRecord>,
                   answers: Answers)
    requires Inv(s, journaled) && Traced(s, journaled, answers) && Step(s, Call(id, runner), t)
    ensures Traced(t, journaled, AnswersAfter(s, Call(id, runner), answers))
  {
    var p, after := s.processes[id], AnswersAfter(s, Call(id, runner), answers);
    assert ProcessKept(s, p, journaled) && ProcessFollows(p, answers);
    CallCounts(s, id, runner, t, answers);
    forall r | r in t.claims ensures Follows(t.claims[r], journaled(r), after(r)) {
      assert Follows(s.claims[r], journaled(r), answers(r)) && |answers(r)| == s.Calls(r);
      CallFollows(s, id, runner, t, journaled, answers, r);
    }
    CallOthersFollow(s, id, runner, t, answers);
    assert ProcessFollows(t.processes[id], after);
  }

  lemma CallOthersFollow(s: System, id: nat, runner: RunnerOutcome, t: System, answers: Answers)
    requires OneDriver(s.processes) && Step(s, Call(id, runner), t)
    requires forall other :: other in s.processes ==> ProcessFollows(s.processes[other], answers)
    ensures forall other :: other in t.processes && other != id ==>
      ProcessFollows(t.processes[other], AnswersAfter(s, Call(id, runner), answers))
  {
    var after := AnswersAfter(s, Call(id, runner), answers);
    forall other | other in t.processes && other != id ensures ProcessFollows(t.processes[other], after) {
      assert ProcessFollows(s.processes[other], answers);
      OthersFollow(s, id, other, answers, after);
    }
  }

  /** What holds of each row and the rows before it still does with one row more, if it holds of that row. */
  lemma RowsGrow(attempts: seq<AttemptRecord>, record: AttemptRecord, good: (seq<AttemptRecord>, AttemptRecord) -> bool)
    requires forall k :: 0 <= k < |attempts| ==> good(attempts[..k], attempts[k])
    ensures forall k :: 0 <= k < |attempts| ==> good((attempts + [record])[..k], (attempts + [record])[k])
    ensures good(attempts, record) ==>
              forall k :: 0 <= k < |attempts + [record]| ==> good((attempts + [record])[..k], (attempts + [record])[k])
  {
    var grown := attempts + [record];
    forall k | 0 <= k <= |attempts| ensures grown[..k] == attempts[..k] {
    }
    assert attempts[..|attempts|] == attempts;
  }

  lemma {:induction false} ContinuesGrown(grant: Grant, attempts: seq<AttemptRecord>, record: AttemptRecord)
    requires Continues(grant, attempts, |attempts|)
    ensures Continues(grant, attempts + [record], |attempts|)
    ensures Verdict(grant, attempts, record).None? ==> Continues(grant, attempts + [record], |attempts| + 1)
  {
    RowsGrow(attempts, record, (before: seq<AttemptRecord>, row: AttemptRecord) => Verdict(grant, before, row).None?);
  }

  lemma {:induction false} RecordsGrown(grant: Grant, attempts: seq<AttemptRecord>, answers: seq<RunnerOutcome>,
                                        record: AttemptRecord)
    requires |attempts| < |answers| && Records(grant, attempts, answers)
    requires record == RecordOf(grant, |attempts| + 1, Left(grant, attempts), answers[|attempts|])
    ensures Records(grant, attempts + [record], answers)
  {
    RowsGrow(attempts, record, (before: seq<AttemptRecord>, row: AttemptRecord) =>
      |before| < |answers| && row == RecordOf(grant, |before| + 1, Left(grant, before), answers[|before|]));
  }

  /** The last answer is recorded. */
  lemma {:induction false} FollowsRecord(grant: Grant, attempts: seq<AttemptRecord>, answers: seq<RunnerOutcome>,
                                         record: AttemptRecord)
    requires Follows(grant, attempts, answers) && |answers| == |attempts| + 1 && Continues(grant, attempts, |attempts|)
    requires record == RecordOf(grant, |attempts| + 1, Left(grant, attempts), answers[|attempts|])
    ensures Follows(grant, attempts + [record], answers)
    ensures Verdict(grant, attempts, record).None? ==> Continues(grant, attempts + [record], |attempts| + 1)
  {
    ContinuesGrown(grant, attempts, record);
    RecordsGrown(grant, attempts, answers, record);
  }

  lemma AppendFollows(s: System, request: string, record: AttemptRecord, journaled: string -> seq<AttemptRecord>,
                      answers: Answers)
    requires forall r :: r in s.claims ==> Follows(s.claims[r], journaled(r), answers(r))
    requires request in s.claims ==> Follows(s.claims[request], journaled(request) + [record], answers(request))
    ensures forall r :: r in s.claims ==> Follows(s.claims[r], Extended(journaled, request, record)(r), answers(r))
  {
  }

  lemma AppendTraces(s: System, id: nat, survives: bool, t: System, journaled: string -> seq<AttemptRecord>,
                     answers: Answers)
    requires Inv(s, journaled) && Traced(s, journaled, answers) && id in s.processes && s.processes[id].Holding?
    requires Step(s, Append(id, survives), t) && MayInsert(s, s.processes[id].request, s.processes[id].record)
    ensures Traced(t, JournaledAfter(s, Append(id, survives), journaled), answers)
  {
    var p, after := s.processes[id], JournaledAfter(s, Append(id, survives), journaled);
    assert ProcessKept(s, p, journaled) && ProcessFollows(p, answers);
    assert Follows(p.grant, p.attempts, answers(p.request));
    FollowsRecord(p.grant, p.attempts, answers(p.request), p.record);
    forall r ensures |answers(r)| == t.Calls(r) {
      assert |answers(r)| == s.Calls(r);
    }
    AppendFollows(s, p.request, p.record, journaled, answers);
    forall other | other in t.processes ensures ProcessFollows(t.processes[other], answers) {
      if other != id {
        assert ProcessFollows(s.processes[other], answers);
      }
    }
  }

  /** The key of the next row is free and the record passes the check. */
  lemma AlwaysInserts(s: System, id: nat, journaled: string -> seq<AttemptRecord>)
    requires Inv(s, journaled) && id in s.processes && s.processes[id].Holding?
    ensures MayInsert(s, s.processes[id].request, s.processes[id].record)
  {
    var p := s.processes[id];
    assert ProcessKept(s, p, journaled) && RequestKept(s, p.request, journaled(p.request));
  }

  lemma StepTraces(s: System, action: Action, t: System, journaled: string -> seq<AttemptRecord>, answers: Answers)
    requires Inv(s, journaled) && Traced(s, journaled, answers) && Step(s, action, t)
    ensures Traced(t, JournaledAfter(s, action, journaled), AnswersAfter(s, action, answers))
  {
    var id := action.id;
    match action {
      case Start(_, grant, request) => MoveTraces(s, id, Authorized(grant, request), t, journaled, answers);
      case Claim(_) =>
        if s.processes[id].request in s.claims {
          MoveTraces(s, id, Refused, t, journaled, answers);
        } else {
          ClaimTraces(s, id, t, journaled, answers);
        }
      case Stop(_) => MoveTraces(s, id, Over(s.processes[id].request), t, journaled, answers);
      case Call(_, runner) => CallTraces(s, id, runner, t, journaled, answers);
      case Append(_, survives) =>
        AlwaysInserts(s, id, journaled);
        AppendTraces(s, id, survives, t, journaled, answers);
      case Crash(_) => MoveTraces(s, id, Crashed(s.processes[id]), t, journaled, answers);
    }
  }

  /** What the runner answered in the calls for each request, in their order. */
  function AnswersIn(states: seq<System>, actions: seq<Action>): Answers
    requires |states| == |actions| + 1
    decreases |actions|
  {
    if actions == [] then (_: string) => []
    else
      var n := |actions| - 1;
      AnswersAfter(states[n], actions[n], AnswersIn(states[..n + 1], actions[..n]))
  }

  lemma {:induction false} RunTraces(states: seq<System>, actions: seq<Action>)
    returns (journaled: string -> seq<AttemptRecord>)
    requires IsRun(states, actions)
    ensures Inv(states[|actions|], journaled) && Traced(states[|actions|], journaled, AnswersIn(states, actions))
    decreases |actions|
  {
    if actions == [] {
      journaled := _ => [];
      assert forall r :: RequestKept(INITIAL, r, journaled(r));
    } else {
      var n := |actions| - 1;
      var before := RunTraces(states[..n + 1], actions[..n]);
      assert states[..n + 1][n] == states[n];
      StepKeeps(states[n], actions[n], states[n + 1], before);
      StepTraces(states[n], actions[n], states[n + 1], before, AnswersIn(states[..n + 1], actions[..n]));
      journaled := JournaledAfter(states[n], actions[n], before);
    }
  }

  /**
   In every state of every interleaving, the journal holds of a claimed request exactly the
   attempts of one run of the loop under its grant, in which the runner gave the answers it
   gave, and was called as often as it was; and each attempt tells what it answered.
   */
  lemma EveryRequestIsOneRun(states: seq<System>, actions: seq<Action>, request: string)
    requires IsRun(states, actions) && request in states[|actions|].claims
    ensures var s := states[|actions|];
      var grant, attempts, answers := s.claims[request], Recorded(s.rows, request, 5), AnswersIn(states, actions)(request);
      var end := Run(grant, TurnsOf(answers, |attempts|, grant.maxAttempts));
      && end.attempts == attempts && |attempts| <= |end.offers| == s.Calls(request) == |answers|
      && forall k :: 0 <= k < |attempts| ==> Tells(grant, end.offers[k], answers[k], attempts[k]) && Confined(grant, attempts[k])
  {
    var journaled := RunTraces(states, actions);
    var s := states[|actions|];
    assert RequestKept(s, request, journaled(request));
    RecordedUpTo(s.rows, request, journaled(request), 5);
    assert |journaled(request)| == 5 ==> journaled(request)[..5] == journaled(request);
    var answers := AnswersIn(states, actions)(request);
    assert |AnswersIn(states, actions)(request)| == s.Calls(request);
    FollowsIsRun(s.claims[request], journaled(request), answers);
    AnswersAreTold(s.claims[request], journaled(request), answers);
  }
}
