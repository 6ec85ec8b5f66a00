/**
 Concurrent executions over one journal: any number of processes, grants and requests, any
 interleaving of their steps, and a crash of any process between any two steps.
 */
module ExecutionProtocol {
  import opened Execution
  import opened Journal

  /** A process holds what the code keeps in local variables; only the journal is shared. */
  datatype Process =
    | Authorized(grant: Grant, request: string)
    | Deciding(grant: Grant, request: string, attempts: seq<AttemptRecord>)
    | Holding(grant: Grant, request: string, attempts: seq<AttemptRecord>, record: AttemptRecord)
    | Over(request: string)
    | Refused
  {
    /** The process has passed its claim: it drives, or has driven, the loop of its request. */
    predicate Drives(r: string) {
      (Deciding? || Holding? || Over?) && request == r
    }
  }

  /**
   `claims` remembers the grant whose claim was accepted, and `calls` counts the calls of the
   runner for each request; neither is read by any step except for the presence of a claim.
   */
  datatype System = System(claims: map<string, Grant>, rows: Rows, calls: map<string, nat>, processes: map<nat, Process>) {
    function Calls(request: string): nat {
      if request in calls then calls[request] else 0
    }
  }

  datatype Action =
    | Start(id: nat, grant: Grant, request: string)
    | Claim(id: nat)
    | Stop(id: nat)
    | Call(id: nat, runner: RunnerOutcome)
    | Append(id: nat, survives: bool)
    | Crash(id: nat)

  /** The insert of an observation: its check, the foreign key and the composite key. */
  predicate MayInsert(s: System, request: string, record: AttemptRecord) {
    AcceptableObservation(record) && request in s.claims && (request, record.attempt) !in s.rows
  }

  /** One step of one process. `Stop` stands for expiry, a moved source and exhausted attempts alike. */
  ghost predicate Step(s: System, action: Action, t: System) {
    var id := action.id;
    match action
    case Start(_, grant, request) =>
      id !in s.processes && grant.WithinBounds() && t == s.(processes := s.processes[id := Authorized(grant, request)])
    case Claim(_) =>
      && id in s.processes && s.processes[id].Authorized?
      && var p := s.processes[id];
         if p.request in s.claims then t == s.(processes := s.processes[id := Refused])
         else t == s.(claims := s.claims[p.request := p.grant],
                      processes := s.processes[id := Deciding(p.grant, p.request, [])])
    case Stop(_) =>
      id in s.processes && s.processes[id].Deciding? && t == s.(processes := s.processes[id := Over(s.processes[id].request)])
    case Call(_, runner) =>
      && id in s.processes && s.processes[id].Deciding?
      && var p := s.processes[id];
         && |p.attempts| < p.grant.maxAttempts
         && var record := RecordOf(p.grant, |p.attempts| + 1, p.grant.maxTokenEstimate - TokensUsed(p.attempts), runner);
            t == s.(calls := s.calls[p.request := s.Calls(p.request) + 1],
                    processes := s.processes[id := Holding(p.grant, p.request, p.attempts, record)])
    case Append(_, survives) =>
      && id in s.processes && s.processes[id].Holding?
      && var p := s.processes[id];
         if !MayInsert(s, p.request, p.record) then t == s.(processes := s.processes[id := Over(p.request)])
         else t == s.(rows := s.rows[(p.request, p.record.attempt) := p.record],
                      processes := s.processes[id := AfterAppend(p, survives)])
    case Crash(_) =>
      id in s.processes && t == s.(processes := s.processes[id := Crashed(s.processes[id])])
  }

  /** Where an appended record leaves its process; it may also die with the row written. */
  function AfterAppend(p: Process, survives: bool): Process
    requires p.Holding?
  {
    if survives && Verdict(p.grant, p.attempts, p.record).None? then Deciding(p.grant, p.request, p.attempts + [p.record])
    else Over(p.request)
  }

  function Crashed(p: Process): Process {
    if p.Authorized? || p.Refused? then Refused else Over(p.request)
  }

  const INITIAL := System(map[], map[], map[], map[])

  ghost predicate IsRun(states: seq<System>, actions: seq<Action>) {
    && |states| == |actions| + 1 && states[0] == INITIAL
    && forall k :: 0 <= k < |actions| ==> Step(states[k], actions[k], states[k + 1])
  }

  // ---------------------------------------------------------------- the invariant

  /** One request: its rows, and how often its runner was called. */
  ghost predicate RequestKept(s: System, request: string, attempts: seq<AttemptRecord>) {
    && RowsAre(s.rows, request, attempts)
    && (request !in s.claims ==> attempts == [] && s.Calls(request) == 0)
    && (request in s.claims ==>
          && s.claims[request].WithinBounds() && Sound(s.claims[request], attempts)
          && |attempts| <= s.Calls(request) <= |attempts| + 1 && s.Calls(request) <= s.claims[request].maxAttempts)
  }

  /** One process: its local attempts are the journaled ones. */
  ghost predicate ProcessKept(s: System, p: Process, journaled: string -> seq<AttemptRecord>) {
    match p
    case Authorized(grant, _) => grant.WithinBounds()
    case Deciding(grant, request, attempts) =>
      && request in s.claims && s.claims[request] == grant && attempts == journaled(request)
      && Underway(grant, attempts) && s.Calls(request) == |attempts|
    case Holding(grant, request, attempts, record) =>
      && request in s.claims && s.claims[request] == grant && attempts == journaled(request)
      && Underway(grant, attempts) && s.Calls(request) == |attempts| + 1
      && |attempts| < grant.maxAttempts && NextRecord(grant, attempts, record)
    case Over(request) => request in s.claims
    case Refused => true
  }

  /** No two processes drive the loop of one request. */
  ghost predicate OneDriver(processes: map<nat, Process>) {
    forall i, j, r :: i in processes && j in processes && processes[i].Drives(r) && processes[j].Drives(r) ==> i == j
  }

  ghost predicate Inv(s: System, journaled: string -> seq<AttemptRecord>) {
    && (forall r :: RequestKept(s, r, journaled(r)))
    && (forall id :: id in s.processes ==> ProcessKept(s, s.processes[id], journaled))
    && OneDriver(s.processes)
  }

  // ---------------------------------------------------------------- every step keeps it

  /** A step that moves one process and neither the journal nor the counts. */
  lemma MoveKeeps(s: System, id: nat, p: Process, t: System, journaled: string -> seq<AttemptRecord>)
    requires Inv(s, journaled) && t == s.(processes := s.processes[id := p])
    requires ProcessKept(s, p, journaled)
    requires forall r :: p.Drives(r) ==> id in s.processes && s.processes[id].Drives(r)
    ensures Inv(t, journaled)
  {
    forall r ensures RequestKept(t, r, journaled(r)) {
      assert RequestKept(s, r, journaled(r));
    }
    forall other | other in t.processes ensures ProcessKept(t, t.processes[other], journaled) {
      assert other != id ==> ProcessKept(s, s.processes[other], journaled);
    }
  }

  /** Before the claim of a request no process drives it. */
  lemma UnclaimedHasNoDriver(s: System, request: string, journaled: string -> seq<AttemptRecord>)
    requires Inv(s, journaled) && request !in s.claims
    ensures forall id :: id in s.processes ==> !s.processes[id].Drives(request)
  {
    forall id | id in s.processes ensures !s.processes[id].Drives(request) {
      assert ProcessKept(s, s.processes[id], journaled);
    }
  }

  lemma ClaimKeeps(s: System, id: nat, t: System, journaled: string -> seq<AttemptRecord>)
    requires Inv(s, journaled) && id in s.processes && s.processes[id].Authorized? && s.processes[id].request !in s.claims
    requires Step(s, Claim(id), t)
    ensures Inv(t, journaled)
  {
    var p := s.processes[id];
    UnclaimedHasNoDriver(s, p.request, journaled);
    assert ProcessKept(s, p, journaled);
    forall r ensures RequestKept(t, r, journaled(r)) {
      assert RequestKept(s, r, journaled(r));
    }
    assert RequestKept(s, p.request, journaled(p.request));
    forall other | other in t.processes ensures ProcessKept(t, t.processes[other], journaled) {
      assert other != id ==> ProcessKept(s, s.processes[other], journaled);
    }
  }

  /** A process of another request is untouched by what a driver does. */
  lemma OtherProcessKept(s: System, t: System, p: Process, request: string, journaled: string -> seq<AttemptRecord>,
                         after: string -> seq<AttemptRecord>)
    requires ProcessKept(s, p, journaled) && !p.Drives(request)
    requires t.claims == s.claims && forall r :: r != request ==> t.Calls(r) == s.Calls(r) && after(r) == journaled(r)
    ensures ProcessKept(t, p, after)
  {
  }

  /** So all processes but the driver are. */
  lemma OthersKept(s: System, t: System, id: nat, request: string, journaled: string -> seq<AttemptRecord>,
                   after: string -> seq<AttemptRecord>)
    requires OneDriver(s.processes) && forall i :: i in s.processes ==> ProcessKept(s, s.processes[i], journaled)
    requires id in s.processes && s.processes[id].Drives(request)
    requires id in t.processes && t.processes == s.processes[id := t.processes[id]]
    requires t.claims == s.claims && forall r :: r != request ==> t.Calls(r) == s.Calls(r) && after(r) == journaled(r)
    ensures forall other :: other in t.processes && other != id ==> ProcessKept(t, t.processes[other], after)
  {
    forall other | other in t.processes && other != id ensures ProcessKept(t, t.processes[other], after) {
      OtherProcessKept(s, t, s.processes[other], request, journaled, after);
    }
  }

  lemma CallKeepsRequest(s: System, request: string, t: System, r: string, attempts: seq<AttemptRecord>)
    requires RequestKept(s, r, attempts) && request in s.claims
    requires t.claims == s.claims && t.rows == s.rows && t.calls == s.calls[request := s.Calls(request) + 1]
    requires r == request ==> s.Calls(r) == |attempts| < s.claims[r].maxAttempts
    ensures RequestKept(t, r, attempts)
  {
  }

  lemma AppendKeepsRequest(s: System, request: string, own: seq<AttemptRecord>, record: AttemptRecord, t: System,
                           r: string, attempts: seq<AttemptRecord>)
    requires RequestKept(s, r, attempts) && RowsAre(s.rows, request, own) && request in s.claims
    requires t.claims == s.claims && t.calls == s.calls && t.rows == s.rows[(request, |own| + 1) := record]
    requires r == request ==> attempts == own && Sound(s.claims[r], own + [record]) && s.Calls(r) == |own| + 1
    ensures RequestKept(t, r, if r == request then own + [record] else attempts)
  {
    NextRow(s.rows, request, own, record, r, attempts);
  }

  lemma CallKeepsRequests(s: System, request: string, t: System, journaled: string -> seq<AttemptRecord>)
    requires request in s.claims && forall r :: RequestKept(s, r, journaled(r))
    requires t.claims == s.claims && t.rows == s.rows && t.calls == s.calls[request := s.Calls(request) + 1]
    requires s.Calls(request) == |journaled(request)| < s.claims[request].maxAttempts
    ensures forall r :: RequestKept(t, r, journaled(r))
  {
    forall r ensures RequestKept(t, r, journaled(r)) {
      CallKeepsRequest(s, request, t, r, journaled(r));
    }
  }

  lemma AppendKeepsRequests(s: System, request: string, record: AttemptRecord, t: System,
                            journaled: string -> seq<AttemptRecord>)
    requires request in s.claims && forall r :: RequestKept(s, r, journaled(r))
    requires t.claims == s.claims && t.calls == s.calls && t.rows == s.rows[(request, |journaled(request)| + 1) := record]
    requires Sound(s.claims[request], journaled(request) + [record]) && s.Calls(request) == |journaled(request)| + 1
    ensures forall r :: RequestKept(t, r, Extended(journaled, request, record)(r))
  {
    forall r ensures RequestKept(t, r, Extended(journaled, request, record)(r)) {
      assert RequestKept(s, request, journaled(request));
      AppendKeepsRequest(s, request, journaled(request), record, t, r, journaled(r));
    }
  }

  /** A process that drives no other request than before. */
  lemma OneDriverKept(processes: map<nat, Process>, id: nat, p: Process)
    requires OneDriver(processes) && id in processes && forall r :: p.Drives(r) ==> processes[id].Drives(r)
    ensures OneDriver(processes[id := p])
  {
  }

  /** The driver holds the next record of its loop. */
  lemma CallerKept(s: System, p: Process, record: AttemptRecord, t: System, journaled: string -> seq<AttemptRecord>)
    requires p.Deciding? && ProcessKept(s, p, journaled) && |p.attempts| < p.grant.maxAttempts
    requires NextRecord(p.grant, p.attempts, record)
    requires t.claims == s.claims && t.Calls(p.request) == s.Calls(p.request) + 1
    ensures ProcessKept(t, Holding(p.grant, p.request, p.attempts, record), journaled)
  {
  }

  lemma RecordingKeeps(s: System, id: nat, record: AttemptRecord, t: System, journaled: string -> seq<AttemptRecord>)
    requires Inv(s, journaled) && id in s.processes && s.processes[id].Deciding?
    requires var p := s.processes[id];
      && |p.attempts| < p.grant.maxAttempts && NextRecord(p.grant, p.attempts, record)
      && t == s.(calls := s.calls[p.request := s.Calls(p.request) + 1],
                 processes := s.processes[id := Holding(p.grant, p.request, p.attempts, record)])
    ensures Inv(t, journaled)
  {
    var p := s.processes[id];
    assert ProcessKept(s, p, journaled) && p.Drives(p.request);
    CallerKept(s, p, record, t, journaled);
    CallKeepsRequests(s, p.request, t, journaled);
    OneDriverKept(s.processes, id, t.processes[id]);
    OthersKept(s, t, id, p.request, journaled, journaled);
  }

  lemma CallKeeps(s: System, id: nat, runner: RunnerOutcome, t: System, journaled: string -> seq<AttemptRecord>)
    requires Inv(s, journaled) && Step(s, Call(id, runner), t)
    ensures Inv(t, journaled)
  {
    var p := s.processes[id];
    assert ProcessKept(s, p, journaled) && RequestKept(s, p.request, journaled(p.request));
    RecordIsNext(p.grant, p.attempts, runner);
    RecordingKeeps(s, id, t.processes[id].record, t, journaled);
  }

  /** The journaled attempts after a row for the next attempt of a request. */
  function Extended(journaled: string -> seq<AttemptRecord>, request: string,
                    record: AttemptRecord): string -> seq<AttemptRecord> {
    r => if r == request then journaled(r) + [record] else journaled(r)
  }

  lemma AppendKeeps(s: System, id: nat, survives: bool, t: System, journaled: string -> seq<AttemptRecord>)
    requires Inv(s, journaled) && id in s.processes && s.processes[id].Holding?
    requires Step(s, Append(id, survives), t)
    ensures Inv(t, Extended(journaled, s.processes[id].request, s.processes[id].record))
  {
    var p := s.processes[id];
    var after := Extended(journaled, p.request, p.record);
    assert ProcessKept(s, p, journaled) && p.Drives(p.request);
    assert RequestKept(s, p.request, journaled(p.request));
    assert MayInsert(s, p.request, p.record);
    RecordedIsSound(p.grant, p.attempts, p.record);
    if Verdict(p.grant, p.attempts, p.record).None? {
      ContinuingIsUnderway(p.grant, p.attempts, p.record);
    }
    AppendKeepsRequests(s, p.request, p.record, t, journaled);
    OneDriverKept(s.processes, id, t.processes[id]);
    OthersKept(s, t, id, p.request, journaled, after);
    assert ProcessKept(t, t.processes[id], after);
  }

  /** The journaled attempts after a step: only an append adds to them. */
  function JournaledAfter(s: System, action: Action, journaled: string -> seq<AttemptRecord>): string -> seq<AttemptRecord> {
    if action.Append? && action.id in s.processes && s.processes[action.id].Holding? then
      Extended(journaled, s.processes[action.id].request, s.processes[action.id].record)
    else journaled
  }

  lemma StepKeeps(s: System, action: Action, t: System, journaled: string -> seq<AttemptRecord>)
    requires Inv(s, journaled) && Step(s, action, t)
    ensures Inv(t, JournaledAfter(s, action, journaled))
  {
    var id := action.id;
    match action {
      case Start(_, grant, request) => MoveKeeps(s, id, Authorized(grant, request), t, journaled);
      case Claim(_) =>
        if s.processes[id].request in s.claims {
          MoveKeeps(s, id, Refused, t, journaled);
        } else {
          ClaimKeeps(s, id, t, journaled);
        }
      case Stop(_) =>
        assert ProcessKept(s, s.processes[id], journaled);
        MoveKeeps(s, id, Over(s.processes[id].request), t, journaled);
      case Call(_, runner) => CallKeeps(s, id, runner, t, journaled);
      case Append(_, survives) =>
        AppendKeeps(s, id, survives, t, journaled);
      case Crash(_) =>
        assert ProcessKept(s, s.processes[id], journaled);
        MoveKeeps(s, id, Crashed(s.processes[id]), t, journaled);
    }
  }

  lemma {:induction false} RunKeeps(states: seq<System>, actions: seq<Action>)
    returns (journaled: string -> seq<AttemptRecord>)
    requires IsRun(states, actions)
    ensures Inv(states[|actions|], journaled)
    decreases |actions|
  {
    if actions == [] {
      journaled := _ => [];
      assert forall r :: RequestKept(INITIAL, r, journaled(r));
    } else {
      var n := |actions| - 1;
      var before := RunKeeps(states[..n + 1], actions[..n]);
      StepKeeps(states[n], actions[n], states[n + 1], before);
      journaled := JournaledAfter(states[n], actions[n], before);
    }
  }

  // ---------------------------------------------------------------- what a reader of the journal may conclude

  /**
   Whatever processes ran, interleaved and crashed: at most one drove the loop of a request;
   an audit reads attempts 1..k without a gap, all but the last failed, within the granted
   tokens; and the runner was called k or k + 1 times, never more often than granted.
   */
  lemma OneGrantDrivesOneLoop(states: seq<System>, actions: seq<Action>, request: string)
    requires IsRun(states, actions)
    ensures var s := states[|actions|]; var attempts := Recorded(s.rows, request, 5);
      && (forall i, j :: i in s.processes && j in s.processes && s.processes[i].Drives(request) && s.processes[j].Drives(request) ==> i == j)
      && RowsAre(s.rows, request, attempts)
      && |attempts| <= s.Calls(request) <= |attempts| + 1
      && (request in s.claims ==> Sound(s.claims[request], attempts) && s.Calls(request) <= s.claims[request].maxAttempts)
      && (request !in s.claims ==> s.Calls(request) == 0)
  {
    var journaled := RunKeeps(states, actions);
    var s := states[|actions|];
    assert RequestKept(s, request, journaled(request));
    RecordedUpTo(s.rows, request, journaled(request), 5);
    assert |journaled(request)| == 5 ==> journaled(request)[..5] == journaled(request);
  }
}
