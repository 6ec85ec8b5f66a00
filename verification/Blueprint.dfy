/**
 From templates to a resolved blueprint, and what a resolution promises: exactly when it
 succeeds, that the order of the supplied templates plays no part, and that neither a
 further template nor the catalog's delegate can weaken what another template requires.
 */
module Blueprint {
  import opened Wrappers
  import opened Ordering
  import opened Templates
  import opened Merge
  import opened Sets
  import opened Closure
  import Cycles
  import opened Graphs
  import opened Fingerprint
  import opened Resolver

  /** What resolution takes from its surroundings. */
  datatype Env = Env(
    collate: Collation,
    wellShaped: Template -> bool,        // the schema version, id and version patterns
    conflictId: Conflict -> string,      // a digest of the conflict
    conditionText: Condition -> string,  // the JSON text of a condition
    digest: Fingerprinted -> string)     // a digest of the normal form of the input

  const SCHEMA := "1.0.0"

  datatype ResolveError = UnsupportedProfile | MalformedTemplate | DuplicateTemplate | UnexplainedActivation

  datatype Resolved = Resolved(id: string, row: Row)

  datatype Activated = Activated(id: string, version: Version, layer: Layer)

  /** Why something is required: by which source, and for what reason. */
  datatype Rationale = Rationale(targetId: string, sourceId: string, reason: string)

  datatype Blueprint = Blueprint(
    activated: seq<Activated>, requirements: seq<Resolved>,
    requiredModules: seq<string>, requiredGates: seq<string>, dependencyEdges: seq<(string, string)>,
    rationale: seq<Rationale>)

  datatype Outcome = Success(blueprint: Blueprint) | Conflicted(conflicts: seq<Conflict>)

  datatype Resolution = Resolution(projectId: string, fingerprint: string, outcome: Outcome)

  // ---------------------------------------------------------------- the steps

  /** The first fault met, template by template: its shape, then an id seen before. */
  function FirstFault(env: Env, templates: seq<Template>, seen: set<string>): Option<ResolveError> {
    if templates == [] then None
    else if !env.wellShaped(templates[0]) then Some(MalformedTemplate)
    else if templates[0].id in seen then Some(DuplicateTemplate)
    else FirstFault(env, templates[1..], seen + {templates[0].id})
  }

  ghost predicate HasDuplicate(templates: seq<Template>) {
    exists i, j :: 0 <= i < j < |templates| && templates[i].id == templates[j].id
  }

  predicate IsIdCharacter(c: char) {
    'A' <= c <= 'Z' || 'a' <= c <= 'z' || '0' <= c <= '9' || c in "._:-"
  }

  /** A project id made into part of a template id. */
  function Hyphenated(id: string): (r: string)
    ensures |r| == |id|
  {
    seq(|id|, i requires 0 <= i < |id| => if IsIdCharacter(id[i]) then id[i] else '-')
  }

  /** The project's own requirements, as one more template. */
  function Additions(profile: Profile, requirements: seq<Requirement>): seq<Template> {
    if requirements == [] then []
    else [Template("template:project-addition:" + Hyphenated(profile.projectId), Version(1, 0, 0, "", "1.0.0"),
                   ProjectAddition, None, requirements)]
  }

  function Active(profile: Profile, templates: seq<Template>): seq<Template> {
    if templates == [] then []
    else (if IsActive(profile, templates[0]) then [templates[0]] else []) + Active(profile, templates[1..])
  }

  /** All templates in canonical order, active or not. */
  function Supplied(env: Env, profile: Profile, templates: seq<Template>, additions: seq<Requirement>): seq<Template> {
    Canonical(env.collate, templates, Additions(profile, additions))
  }

  /** The templates that take part, in the order they are merged. */
  function Participants(env: Env, profile: Profile, templates: seq<Template>, additions: seq<Requirement>): seq<Template> {
    Active(profile, Supplied(env, profile, templates, additions))
  }

  /** What the fingerprint is taken of: the profile and all templates in normal form. */
  function NormalInput(env: Env, profile: Profile, templates: seq<Template>, additions: seq<Requirement>): Fingerprinted {
    Fingerprinted(profile, NormalTemplates(env.collate, env.conditionText, Supplied(env, profile, templates, additions)))
  }

  predicate SourceLe(collate: Collation, a: Source, b: Source) {
    if a.layer != b.layer then a.layer.Rank() < b.layer.Rank()
    else if !TiesOn(collate, a.sourceId, b.sourceId) then collate(a.sourceId, b.sourceId)
    else VersionLe(collate, a.version, b.version)
  }

  function Freeze(collate: Collation, row: Row): Row {
    row.(tags := Sort(row.tags, ByCodeUnit), dependsOn := Sort(row.dependsOn, ByCodeUnit),
         sources := Sort(row.sources, (a: Source, b: Source) => SourceLe(collate, a, b)))
  }

  function FreezeAll(collate: Collation, table: Table, keys: seq<string>): seq<Resolved>
    requires forall id :: id in keys ==> id in table.rows
  {
    if keys == [] then []
    else [Resolved(keys[0], Freeze(collate, table.rows[keys[0]]))] + FreezeAll(collate, table, keys[1..])
  }

  function RequiredOfKind(requirements: seq<Resolved>, kind: Kind): seq<string> {
    if requirements == [] then []
    else (if requirements[0].row.kind == kind && requirements[0].row.required then [requirements[0].id] else [])
         + RequiredOfKind(requirements[1..], kind)
  }

  function EdgesFrom(id: string, deps: seq<string>): seq<(string, string)> {
    if deps == [] then [] else [(id, deps[0])] + EdgesFrom(id, deps[1..])
  }

  function EdgesOf(requirements: seq<Resolved>): seq<(string, string)> {
    if requirements == [] then []
    else (if requirements[0].row.kind.Module? && requirements[0].row.required
          then EdgesFrom(requirements[0].id, requirements[0].row.dependsOn) else [])
         + EdgesOf(requirements[1..])
  }

  predicate PairLe(collate: Collation, a: (string, string), b: (string, string)) {
    if !TiesOn(collate, a.0, b.0) then collate(a.0, b.0) else collate(a.1, b.1)
  }

  predicate ConflictLe(env: Env, a: Conflict, b: Conflict) {
    if !TiesOn(env.collate, a.targetId, b.targetId) then env.collate(a.targetId, b.targetId)
    else if !TiesOn(env.collate, a.field, b.field) then env.collate(a.field, b.field)
    else env.collate(env.conflictId(a), env.conflictId(b))
  }

  function Reasons(id: string, sources: seq<Source>): (r: seq<Rationale>)
    ensures |r| == |sources|
  {
    seq(|sources|, i requires 0 <= i < |sources| => Rationale(id, sources[i].sourceId, sources[i].reason))
  }

  /** One entry for each source of each required item. */
  function RationaleOf(requirements: seq<Resolved>): seq<Rationale> {
    if requirements == [] then []
    else (if requirements[0].row.required then Reasons(requirements[0].id, requirements[0].row.sources) else [])
         + RationaleOf(requirements[1..])
  }

  predicate RationaleLe(collate: Collation, a: Rationale, b: Rationale) {
    if !TiesOn(collate, a.targetId, b.targetId) then collate(a.targetId, b.targetId)
    else if !TiesOn(collate, a.sourceId, b.sourceId) then collate(a.sourceId, b.sourceId)
    else collate(a.reason, b.reason)
  }

  function Taken(participants: seq<Template>): (r: seq<Activated>)
    ensures |r| == |participants|
  {
    seq(|participants|, i requires 0 <= i < |participants| =>
      Activated(participants[i].id, participants[i].version, participants[i].layer))
  }

  function ReadBlueprint(collate: Collation, participants: seq<Template>, table: Table): Blueprint
    requires forall id :: id in table.keys ==> id in table.rows
  {
    var requirements := Sort(FreezeAll(collate, table, table.keys), (a: Resolved, b: Resolved) => collate(a.id, b.id));
    Blueprint(Taken(participants), requirements, RequiredOfKind(requirements, Module), RequiredOfKind(requirements, Gate),
              Sort(EdgesOf(requirements), (a: (string, string), b: (string, string)) => PairLe(collate, a, b)),
              Sort(RationaleOf(requirements), (a: Rationale, b: Rationale) => RationaleLe(collate, a, b)))
  }

  /** The table and all conflicts found, before the verdict. */
  function Assemble(collate: Collation, participants: seq<Template>): State {
    var closed := DependencyClosure(MergeAll(Inputs(collate, participants)));
    State(closed.table, closed.conflicts + Cycles.CycleConflicts(closed.table))
  }

  function ResolveParticipants(env: Env, participants: seq<Template>): Outcome {
    var end := Assemble(env.collate, participants);
    if end.conflicts != [] then
      Conflicted(Sort(end.conflicts, (a: Conflict, b: Conflict) => ConflictLe(env, a, b)))
    else
      assert forall id :: id in end.table.keys ==> id in end.table.rows by { AssembleIsWellFormed(env.collate, participants); }
      Success(ReadBlueprint(env.collate, participants, end.table))
  }

  function Resolve(env: Env, profile: Profile, templates: seq<Template>,
                   additions: seq<Requirement>): Result<Resolution, ResolveError> {
    var fault := FirstFault(env, templates, {});
    if profile.schemaVersion != SCHEMA then Err(UnsupportedProfile)
    else if fault.Some? then Err(fault.value)
    else if exists k :: 0 <= k < |templates| && !Explained(templates[k]) then Err(UnexplainedActivation)
    else
      Ok(Resolution(profile.projectId, env.digest(NormalInput(env, profile, templates, additions)),
                    ResolveParticipants(env, Participants(env, profile, templates, additions))))
  }

  predicate ResolvesTo(env: Env, profile: Profile, templates: seq<Template>, additions: seq<Requirement>, b: Blueprint) {
    var r := Resolve(env, profile, templates, additions);
    r.Ok? && r.value.outcome == Success(b)
  }

  lemma ClosedFacts(inputs: seq<Input>)
    ensures var merged := MergeAll(inputs);
            var closed := DependencyClosure(merged);
            && WellFormed(merged.table) && Closes(merged.table, closed.table) && WellFormed(closed.table)
  {
    MergeMeans(inputs);
    ClosureMeans(MergeAll(inputs));
    var a, b := MergeAll(inputs).table, DependencyClosure(MergeAll(inputs)).table;
    forall id | id in b.rows ensures Distinct(b.rows[id].tags) && Distinct(b.rows[id].dependsOn) {
      assert SameButRequired(a.rows[id], b.rows[id]);
    }
  }

  lemma AssembleIsWellFormed(collate: Collation, participants: seq<Template>)
    ensures WellFormed(Assemble(collate, participants).table)
  {
    ClosedFacts(Inputs(collate, participants));
  }

  // ---------------------------------------------------------------- the program

  /** Template by template: its shape, then whether its id was seen before. */
  method CheckTemplates(env: Env, templates: seq<Template>) returns (fault: Option<ResolveError>)
    ensures fault == FirstFault(env, templates, {})
  {
    var seen, i := {}, 0;
    assert templates[0..] == templates;
    while i < |templates|
      invariant 0 <= i <= |templates|
      invariant FirstFault(env, templates, {}) == FirstFault(env, templates[i..], seen)
    {
      assert templates[i..][1..] == templates[i + 1..];
      if !env.wellShaped(templates[i]) {
        return Some(MalformedTemplate);
      }
      if templates[i].id in seen {
        return Some(DuplicateTemplate);
      }
      seen := seen + {templates[i].id};
      i := i + 1;
    }
    fault := None;
  }

  /** The working state of the templates that take part: merged, closed, searched for cycles. */
  method ResolveTaking(env: Env, participants: seq<Template>) returns (outcome: Outcome)
    ensures outcome == ResolveParticipants(env, participants)
  {
    var working := new Requirements();
    working.MergeTemplates(env.collate, participants);
    working.CloseDependencies();
    var table := Table(working.keys, working.rows);
    AssembleIsWellFormed(env.collate, participants);
    var search := new CycleSearch();
    search.VisitAll(Cycles.RequiredGraph(table), Sort(RequiredModules(table, table.keys), ByCodeUnit));
    var conflicts := working.conflicts + search.conflicts;
    if conflicts != [] {
      return Conflicted(Sort(conflicts, (a: Conflict, b: Conflict) => ConflictLe(env, a, b)));
    }
    return Success(ReadBlueprint(env.collate, participants, table));
  }

  method ResolveBlueprint(env: Env, profile: Profile, templates: seq<Template>, additions: seq<Requirement>)
    returns (r: Result<Resolution, ResolveError>)
    ensures r == Resolve(env, profile, templates, additions)
  {
    if profile.schemaVersion != SCHEMA {
      return Err(UnsupportedProfile);
    }
    var fault := CheckTemplates(env, templates);
    if fault.Some? {
      return Err(fault.value);
    }
    var fingerprint := env.digest(NormalInput(env, profile, templates, additions));
    if exists k :: 0 <= k < |templates| && !Explained(templates[k]) {
      return Err(UnexplainedActivation);
    }
    var participants := Participants(env, profile, templates, additions);
    var outcome := ResolveTaking(env, participants);
    return Ok(Resolution(profile.projectId, fingerprint, outcome));
  }

  // ---------------------------------------------------------------- order of supply

  lemma DuplicatesForgetOrder(a: seq<Template>, b: seq<Template>)
    requires multiset(a) == multiset(b)
    ensures HasDuplicate(a) <==> HasDuplicate(b)
  {
    if HasDuplicate(a) {
      DuplicateCarries(a, b);
    }
    if HasDuplicate(b) {
      DuplicateCarries(b, a);
    }
  }

  lemma DuplicateCarries(a: seq<Template>, b: seq<Template>)
    requires multiset(a) == multiset(b) && HasDuplicate(a)
    ensures HasDuplicate(b)
  {
    var i, j :| 0 <= i < j < |a| && a[i].id == a[j].id;
    if a[i] == a[j] {
      CountedTwice(a, i, j);
      TwicePresent(b, a[i]);
    } else {
      SameElement(a, b, a[i]);
      SameElement(a, b, a[j]);
      var k :| 0 <= k < |b| && b[k] == a[i];
      var l :| 0 <= l < |b| && b[l] == a[j];
      assert k != l;
      assert HasDuplicate(b) by {
        if k < l { assert b[k].id == b[l].id; } else { assert b[l].id == b[k].id; }
      }
    }
  }

  lemma {:induction false} TwicePresent(s: seq<Template>, x: Template)
    requires multiset(s)[x] >= 2
    ensures exists i, j :: 0 <= i < j < |s| && s[i] == x && s[j] == x
  {
    assert s == [s[0]] + s[1..];
    if s[0] == x {
      assert multiset(s[1..])[x] >= 1;
      assert x in s[1..];
      var j :| 0 <= j < |s| - 1 && s[1..][j] == x;
      assert s[0] == x && s[j + 1] == x;
    } else {
      TwicePresent(s[1..], x);
      var i, j :| 0 <= i < j < |s| - 1 && s[1..][i] == x && s[1..][j] == x;
      assert s[i + 1] == x && s[j + 1] == x;
    }
  }

  lemma {:induction false} FaultsAre(env: Env, templates: seq<Template>, seen: set<string>)
    ensures FirstFault(env, templates, seen).None? <==>
              && (forall k :: 0 <= k < |templates| ==> env.wellShaped(templates[k]) && templates[k].id !in seen)
              && !HasDuplicate(templates)
  {
    if templates != [] {
      var rest := templates[1..];
      FaultsAre(env, rest, seen + {templates[0].id});
      if HasDuplicate(rest) {
        var i, j :| 0 <= i < j < |rest| && rest[i].id == rest[j].id;
        assert templates[i + 1].id == templates[j + 1].id;
      }
      if HasDuplicate(templates) {
        var i, j :| 0 <= i < j < |templates| && templates[i].id == templates[j].id;
        assert templates[j] == rest[j - 1];
        if i > 0 {
          assert rest[i - 1].id == rest[j - 1].id;
        }
      }
      forall k | 1 <= k < |templates| ensures templates[k] == rest[k - 1] {
      }
    }
  }

  /**
   The whole result, fingerprint, rationale and conflicts included, is the same in whatever
   order the templates are supplied. Only which fault of a faulty input is named depends on it.
   */
  lemma ResolveForgetsOrder(env: Env, profile: Profile, a: seq<Template>, b: seq<Template>, additions: seq<Requirement>)
    requires IsTotalOrder(env.collate) && multiset(a) == multiset(b)
    ensures Resolve(env, profile, a, additions).Err? <==> Resolve(env, profile, b, additions).Err?
    ensures Resolve(env, profile, a, additions).Ok? ==> Resolve(env, profile, a, additions) == Resolve(env, profile, b, additions)
  {
    forall t ensures t in a <==> t in b {
      SameElement(a, b, t);
    }
    DuplicatesForgetOrder(a, b);
    FaultsAre(env, a, {});
    FaultsAre(env, b, {});
    if !HasDuplicate(a) {
      CanonicalForgetsOrder(env.collate, a, b, Additions(profile, additions));
    }
    SomeForgetsOrder(a, b, t => env.wellShaped(t));
    SomeForgetsOrder(a, b, t => Explained(t));
  }

  lemma SomeForgetsOrder(a: seq<Template>, b: seq<Template>, p: Template -> bool)
    requires forall t :: t in a <==> t in b
    ensures (exists k :: 0 <= k < |a| && !p(a[k])) <==> (exists k :: 0 <= k < |b| && !p(b[k]))
  {
    if k :| 0 <= k < |a| && !p(a[k]) {
      assert a[k] in b;
    }
    if k :| 0 <= k < |b| && !p(b[k]) {
      assert b[k] in a;
    }
  }

  // ---------------------------------------------------------------- when resolution succeeds

  lemma EdgesAgree(state: State, a: string, b: string)
    requires WellFormed(state.table)
    ensures Edge(Cycles.RequiredGraph(DependencyClosure(state).table), a, b)
      <==> Edge(ModuleGraph(state.table), a, b) && Needed(state.table, a) && Needed(state.table, b)
  {
    ClosureMeans(state);
    var closed := DependencyClosure(state).table;
    assert IsRequiredModule(closed, a) <==> Needed(state.table, a);
    assert IsRequiredModule(closed, b) <==> Needed(state.table, b);
    if a in state.table.rows {
      assert SameButRequired(state.table.rows[a], closed.rows[a]);
      SortKeepsElements(closed.rows[a].dependsOn, ByCodeUnit);
    }
    if b in state.table.rows {
      assert SameButRequired(state.table.rows[b], closed.rows[b]);
    }
  }

  /** Every vertex a needed module leads to is needed. */
  lemma {:induction false} NeededAlong(table: Table, w: seq<string>, i: nat)
    requires IsWalk(ModuleGraph(table), w) && Needed(table, w[0]) && i < |w|
    ensures Needed(table, w[i])
  {
    if i > 0 {
      NeededAlong(table, w, i - 1);
      var g := ModuleGraph(table);
      var root :| IsRequiredModule(table, root) && Reaches(g, root, w[i - 1]);
      assert Edge(g, w[i - 1], w[i - 1 + 1]);
      ReachesThenEdge(g, root, w[i - 1], w[i]);
    }
  }

  lemma CyclesAgree(state: State, w: seq<string>)
    requires WellFormed(state.table)
    ensures IsCycle(Cycles.RequiredGraph(DependencyClosure(state).table), w)
      <==> IsCycle(ModuleGraph(state.table), w) && Needed(state.table, w[0])
  {
    var g, h := ModuleGraph(state.table), Cycles.RequiredGraph(DependencyClosure(state).table);
    if IsCycle(h, w) {
      forall i | 0 <= i < |w| - 1 ensures Edge(g, w[i], w[i + 1]) && Needed(state.table, w[i]) {
        EdgesAgree(state, w[i], w[i + 1]);
      }
      assert Edge(g, w[0], w[0 + 1]);
    }
    if IsCycle(g, w) && Needed(state.table, w[0]) {
      forall i | 0 <= i < |w| - 1 ensures Edge(h, w[i], w[i + 1]) {
        NeededAlong(state.table, w, i);
        NeededAlong(state.table, w, i + 1);
        EdgesAgree(state, w[i], w[i + 1]);
      }
      assert Edge(h, w[0], w[0 + 1]);
    }
  }

  /** No two inputs clash, no needed module has an unknown dependency, no needed module depends on itself. */
  ghost predicate Sound(inputs: seq<Input>) {
    && Compatible(inputs)
    && var table := MergeAll(inputs).table;
    && (forall id, dep :: !Dangles(table, NeededModules(table), id, dep))
    && (forall w :: IsCycle(ModuleGraph(table), w) ==> !Needed(table, w[0]))
  }

  lemma ClosureConflictsAre(state: State)
    requires WellFormed(state.table)
    ensures DependencyClosure(state).conflicts == []
      <==> state.conflicts == [] && forall id, dep :: !Dangles(state.table, NeededModules(state.table), id, dep)
  {
    ClosureMeans(state);
    var conflicts := DependencyClosure(state).conflicts;
    var reports := conflicts[|state.conflicts|..];
    assert conflicts == state.conflicts + reports;
    NothingReported(reports, state.table, NeededModules(state.table));
  }

  lemma ConflictsAre(inputs: seq<Input>)
    ensures var closed := DependencyClosure(MergeAll(inputs));
            closed.conflicts + Cycles.CycleConflicts(closed.table) == [] <==> Sound(inputs)
  {
    var merged := MergeAll(inputs);
    MergeMeans(inputs);
    ClosureConflictsAre(merged);
    ClosedFacts(inputs);
    Cycles.CyclesAreFound(DependencyClosure(merged).table);
    AcyclicWhereNeeded(merged);
  }

  lemma NothingReported(reports: seq<Conflict>, table: Table, modules: set<string>)
    requires ReportsExactly(reports, table, modules)
    ensures reports == [] <==> forall id, dep :: !Dangles(table, modules, id, dep)
  {
    if reports != [] {
      assert reports[0] in reports;
    }
  }

  lemma AcyclicWhereNeeded(state: State)
    requires WellFormed(state.table)
    ensures Acyclic(Cycles.RequiredGraph(DependencyClosure(state).table))
      <==> forall w :: IsCycle(ModuleGraph(state.table), w) ==> !Needed(state.table, w[0])
  {
    var g, h := ModuleGraph(state.table), Cycles.RequiredGraph(DependencyClosure(state).table);
    forall w ensures IsCycle(h, w) <==> IsCycle(g, w) && Needed(state.table, w[0]) {
      CyclesAgree(state, w);
    }
  }

  /** Resolution succeeds exactly when the inputs are sound. */
  lemma SucceedsExactly(env: Env, participants: seq<Template>)
    ensures ResolveParticipants(env, participants).Success? <==> Sound(Inputs(env.collate, participants))
  {
    ConflictsAre(Inputs(env.collate, participants));
  }
}
