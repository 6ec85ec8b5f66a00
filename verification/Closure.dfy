/**
 Dependency closure over modules. A worklist makes required every module that a required
 module depends on, and reports each dependency that is no known module once.
 */
module Closure {
  import opened Ordering
  import opened Templates
  import opened Merge
  import opened Sets
  import opened Graphs

  const RESOLVER_VERSION := Version(1, 0, 0, "", "1.0.0")

  predicate IsModule(table: Table, id: string) {
    id in table.rows && table.rows[id].kind.Module?
  }

  predicate IsRequiredModule(table: Table, id: string) {
    IsModule(table, id) && table.rows[id].required
  }

  // ---------------------------------------------------------------- the worklist

  function RequiredModules(table: Table, keys: seq<string>): seq<string> {
    if keys == [] then []
    else (if IsRequiredModule(table, keys[0]) then [keys[0]] else []) + RequiredModules(table, keys[1..])
  }

  /** The source of a module that another one needs. */
  function TransitiveSource(neededBy: string): Source {
    Source(neededBy, Constitution, RESOLVER_VERSION, "Required transitively by " + neededBy)
  }

  function Require(table: Table, id: string, neededBy: string): Table
    requires id in table.rows
  {
    var row := table.rows[id];
    if row.required then table
    else
      table.(rows := table.rows[id := row.(required := true, sources := row.sources + [TransitiveSource(neededBy)])])
  }

  function Missing(table: Table, id: string, dep: string): Conflict
    requires id in table.rows
  {
    MakeConflict(MissingDependency, id, "dependsOn", SourceIds(table.rows[id].sources), [dep])
  }

  /** The queue and the state, while the dependencies of one module are looked at. */
  datatype Work = Work(queue: seq<string>, state: State)

  function VisitOne(id: string, dep: string, work: Work): (w: Work)
    requires id in work.state.table.rows
    ensures w.state.table.rows.Keys == work.state.table.rows.Keys
  {
    var state := work.state;
    if !IsModule(state.table, dep) then
      work.(state := state.(conflicts := state.conflicts + [Missing(state.table, id, dep)]))
    else
      Work(work.queue + [dep], state.(table := Require(state.table, dep, id)))
  }

  function VisitDependencies(id: string, deps: seq<string>, work: Work): (w: Work)
    requires id in work.state.table.rows
    ensures w.state.table.rows.Keys == work.state.table.rows.Keys
    decreases deps
  {
    if deps == [] then work else VisitDependencies(id, deps[1..], VisitOne(id, deps[0], work))
  }

  /** Unvisited rows first, then the length of the queue. */
  function Close(work: Work, visited: set<string>): State
    decreases work.state.table.rows.Keys - visited, |work.queue|
  {
    if work.queue == [] then work.state
    else
      var id := work.queue[0];
      var rest := work.(queue := work.queue[1..]);
      var table := work.state.table;
      if id in visited then Close(rest, visited)
      else if !IsModule(table, id) then Close(rest, visited + {id})
      else
        assert id in table.rows.Keys - visited;
        Close(VisitDependencies(id, Sort(table.rows[id].dependsOn, ByCodeUnit), rest), visited + {id})
  }

  function DependencyClosure(state: State): State {
    Close(Work(RequiredModules(state.table, state.table.keys), state), {})
  }

  // ---------------------------------------------------------------- its meaning

  /** Modules, with an edge to each module they depend on. */
  ghost function ModuleGraph(table: Table): Graph {
    map id | id in table.rows && table.rows[id].kind.Module? :: table.rows[id].dependsOn
  }

  /** A module some module required at the start leads to. */
  ghost predicate Needed(table: Table, id: string) {
    exists root :: IsRequiredModule(table, root) && Reaches(ModuleGraph(table), root, id)
  }

  /** One more source, naming the module that needs this one. */
  ghost predicate GainsSource(a: seq<Source>, b: seq<Source>) {
    exists neededBy :: b == a + [TransitiveSource(neededBy)]
  }

  /** The same requirement, but for whether it is required and by whom. */
  ghost predicate SameButRequired(a: Row, b: Row) {
    && a.kind == b.kind && a.depth == b.depth && a.tags == b.tags && a.dependsOn == b.dependsOn
    && a.constraint == b.constraint
    && (a.required ==> b.required)
    && (a.kind.Gate? ==> a == b)
    && (if a.required == b.required then b.sources == a.sources else GainsSource(a.sources, b.sources))
  }

  ghost predicate Closes(before: Table, after: Table) {
    && after.keys == before.keys && after.rows.Keys == before.rows.Keys
    && forall id :: id in before.rows ==> SameButRequired(before.rows[id], after.rows[id])
  }

  ghost predicate Reports(c: Conflict, id: string, dep: string) {
    c.kind == MissingDependency && c.targetId == id && c.field == "dependsOn" && c.values == [dep]
  }

  /** Two conflicts for one target and one dependency. */
  ghost predicate Repeats(a: Conflict, b: Conflict) {
    a.targetId == b.targetId && a.values == b.values
  }

  /** A dependency of one of these modules that is no module. */
  ghost predicate Dangles(table: Table, modules: set<string>, id: string, dep: string) {
    id in modules && id in table.rows && dep in table.rows[id].dependsOn && !IsModule(table, dep)
  }

  /** Every report names a dangling dependency of these modules. */
  ghost predicate ReportsOnly(reports: seq<Conflict>, table: Table, modules: set<string>) {
    forall c :: c in reports ==>
      |c.values| == 1 && Reports(c, c.targetId, c.values[0]) && Dangles(table, modules, c.targetId, c.values[0])
  }

  /** Every dangling dependency of these modules is reported. */
  ghost predicate ReportsAll(reports: seq<Conflict>, table: Table, modules: set<string>) {
    forall id, dep :: Dangles(table, modules, id, dep) ==> exists c :: c in reports && Reports(c, id, dep)
  }

  ghost predicate NoRepeats(reports: seq<Conflict>) {
    forall j, k :: 0 <= j < k < |reports| ==> !Repeats(reports[j], reports[k])
  }

  /** The reports name exactly the dangling dependencies of these modules, each once. */
  ghost predicate ReportsExactly(reports: seq<Conflict>, table: Table, modules: set<string>) {
    ReportsOnly(reports, table, modules) && ReportsAll(reports, table, modules) && NoRepeats(reports)
  }

  /** What holds of the worklist between two steps. */
  ghost predicate Consistent(before: State, work: Work, visited: set<string>) {
    && var table := work.state.table;
    && Closes(before.table, table)
    && (forall id :: id in work.queue ==> IsRequiredModule(table, id))
    && (forall id :: id in visited ==> IsRequiredModule(table, id))
    && (forall id :: IsRequiredModule(table, id) ==> (id in visited || id in work.queue) && Needed(before.table, id))
    && (forall id, dep :: id in visited && Edge(ModuleGraph(before.table), id, dep) ==> IsRequiredModule(table, dep))
    && |before.conflicts| <= |work.state.conflicts|
    && work.state.conflicts[..|before.conflicts|] == before.conflicts
    && ReportsExactly(work.state.conflicts[|before.conflicts|..], before.table, visited)
  }

  lemma {:induction false} RequiredModulesAre(table: Table, keys: seq<string>)
    ensures forall id :: id in RequiredModules(table, keys) <==> id in keys && IsRequiredModule(table, id)
  {
    if keys != [] {
      RequiredModulesAre(table, keys[1..]);
    }
  }

  lemma {:induction false} InsertDistinct(x: string, s: seq<string>)
    requires Distinct(s) && x !in s
    ensures Distinct(Insert(x, s, ByCodeUnit))
  {
    if s == [] || ByCodeUnit(x, s[0]) {
    } else {
      var rest := Insert(x, s[1..], ByCodeUnit);
      InsertDistinct(x, s[1..]);
      InsertPermutes(x, s[1..], ByCodeUnit);
      forall j | 0 <= j < |rest| ensures rest[j] != s[0] {
        assert rest[j] in multiset(rest);
        assert rest[j] == x || rest[j] in s[1..];
      }
      assert Distinct([s[0]] + rest);
    }
  }

  lemma {:induction false} SortDistinct(s: seq<string>)
    requires Distinct(s)
    ensures Distinct(Sort(s, ByCodeUnit))
  {
    if s != [] {
      SortDistinct(s[1..]);
      SortKeepsElements(s[1..], ByCodeUnit);
      InsertDistinct(s[0], Sort(s[1..], ByCodeUnit));
    }
  }

  lemma Start(state: State)
    requires WellFormed(state.table)
    ensures Consistent(state, Work(RequiredModules(state.table, state.table.keys), state), {})
  {
    RequiredModulesAre(state.table, state.table.keys);
    assert state.conflicts[|state.conflicts|..] == [];
    forall id | IsRequiredModule(state.table, id) ensures Needed(state.table, id) {
      ReachesSelf(ModuleGraph(state.table), id);
    }
  }

  // ---------------------------------------------------------------- one module's dependencies

  /** The listed dependencies that are no modules, in order. */
  function NoModules(table: Table, deps: seq<string>): seq<string> {
    if deps == [] then []
    else (if IsModule(table, deps[0]) then [] else [deps[0]]) + NoModules(table, deps[1..])
  }

  lemma {:induction false} NoModulesAre(table: Table, deps: seq<string>)
    ensures forall dep :: dep in NoModules(table, deps) <==> dep in deps && !IsModule(table, dep)
    ensures Distinct(deps) ==> Distinct(NoModules(table, deps))
  {
    if deps != [] {
      NoModulesAre(table, deps[1..]);
    }
  }

  lemma {:induction false} NoModulesSame(a: Table, b: Table, deps: seq<string>)
    requires Closes(a, b)
    ensures NoModules(a, deps) == NoModules(b, deps)
  {
    if deps != [] {
      NoModulesSame(a, b, deps[1..]);
    }
  }

  lemma ClosesTransitive(a: Table, b: Table, c: Table)
    requires Closes(a, b) && Closes(b, c)
    ensures Closes(a, c)
  {
    forall id | id in a.rows ensures SameButRequired(a.rows[id], c.rows[id]) {
      assert SameButRequired(a.rows[id], b.rows[id]) && SameButRequired(b.rows[id], c.rows[id]);
    }
  }

  /** What one visit adds: the listed modules become required and are queued, the others are reported. */
  ghost predicate Visits(id: string, deps: seq<string>, work: Work, w: Work) {
    && var was, now := work.state.table, w.state.table;
    && Closes(was, now)
    && (forall m :: IsRequiredModule(now, m) <==> IsRequiredModule(was, m) || (m in deps && IsModule(was, m)))
    && (forall q :: q in w.queue <==> q in work.queue || (q in deps && IsModule(was, q)))
    && Reported(id, work.state.conflicts, w.state.conflicts, NoModules(was, deps))
  }

  /** After what was reported before, one report for each of these. */
  ghost predicate Reported(id: string, was: seq<Conflict>, now: seq<Conflict>, missing: seq<string>) {
    && |now| == |was| + |missing| && now[..|was|] == was
    && forall k :: 0 <= k < |missing| ==> Reports(now[|was| + k], id, missing[k])
  }

  lemma VisitOneMeans(id: string, dep: string, work: Work)
    requires id in work.state.table.rows
    ensures Visits(id, [dep], work, VisitOne(id, dep, work))
  {
    assert Sort([dep], ByCodeUnit) == [dep];
    assert [dep][1..] == [];
  }

  lemma {:induction false} VisitMeans(id: string, deps: seq<string>, work: Work)
    requires id in work.state.table.rows
    ensures Visits(id, deps, work, VisitDependencies(id, deps, work))
  {
    if deps == [] {
    } else {
      var next := VisitOne(id, deps[0], work);
      VisitOneMeans(id, deps[0], work);
      VisitMeans(id, deps[1..], next);
      VisitThenVisit(id, deps, work, next, VisitDependencies(id, deps, work));
    }
  }

  lemma NoModulesCons(table: Table, deps: seq<string>)
    requires deps != []
    ensures NoModules(table, deps) == NoModules(table, [deps[0]]) + NoModules(table, deps[1..])
  {
    assert [deps[0]][1..] == [];
    assert NoModules(table, []) == [];
  }

  lemma VisitThenVisit(id: string, deps: seq<string>, work: Work, next: Work, w: Work)
    requires deps != [] && Visits(id, [deps[0]], work, next) && Visits(id, deps[1..], next, w)
    ensures Visits(id, deps, work, w)
  {
    var table := work.state.table;
    ClosesTransitive(table, next.state.table, w.state.table);
    NoModulesSame(table, next.state.table, deps[1..]);
    NoModulesCons(table, deps);
    var first, rest := NoModules(table, [deps[0]]), NoModules(table, deps[1..]);
    ReportsJoin(id, work.state.conflicts, next.state.conflicts, w.state.conflicts, first, rest);
  }

  /** Reports of one visit after another are the reports of both. */
  lemma ReportsJoin(id: string, was: seq<Conflict>, mid: seq<Conflict>, now: seq<Conflict>, first: seq<string>,
                    rest: seq<string>)
    requires Reported(id, was, mid, first) && Reported(id, mid, now, rest)
    ensures Reported(id, was, now, first + rest)
  {
    assert now[..|was|] == mid[..|was|];
    forall k | 0 <= k < |first + rest| ensures Reports(now[|was| + k], id, (first + rest)[k]) {
      if k < |first| {
        assert now[|was| + k] == mid[|was| + k];
      } else {
        assert Reports(now[|mid| + (k - |first|)], id, rest[k - |first|]);
      }
    }
  }

  // ---------------------------------------------------------------- one step of the worklist

  /** The reports of one visit, for these missing dependencies. */
  ghost predicate TailReports(tail: seq<Conflict>, id: string, missing: seq<string>) {
    |tail| == |missing| && forall k :: 0 <= k < |tail| ==> Reports(tail[k], id, missing[k])
  }

  lemma ReportsGrow(reports: seq<Conflict>, tail: seq<Conflict>, table: Table, modules: set<string>, id: string,
                    missing: seq<string>)
    requires ReportsExactly(reports, table, modules) && id !in modules && id in table.rows
    requires Distinct(missing) && TailReports(tail, id, missing)
    requires forall dep :: dep in missing <==> dep in table.rows[id].dependsOn && !IsModule(table, dep)
    ensures ReportsExactly(reports + tail, table, modules + {id})
  {
    var all := reports + tail;
    var grown := modules + {id};
    forall c | c in all
      ensures |c.values| == 1 && Reports(c, c.targetId, c.values[0]) && Dangles(table, grown, c.targetId, c.values[0])
    {
      if c in reports {
        assert Dangles(table, modules, c.targetId, c.values[0]);
      } else {
        var k :| 0 <= k < |tail| && tail[k] == c;
        assert missing[k] in missing;
      }
    }
    forall i, dep | Dangles(table, grown, i, dep) ensures exists c :: c in all && Reports(c, i, dep) {
      if i in modules {
        assert Dangles(table, modules, i, dep);
        var c :| c in reports && Reports(c, i, dep);
        assert c in all;
      } else {
        var k :| 0 <= k < |missing| && missing[k] == dep;
        assert tail[k] in all;
      }
    }
    NoRepeatsGrow(reports, tail, table, modules, id, missing);
  }

  lemma NoRepeatsGrow(reports: seq<Conflict>, tail: seq<Conflict>, table: Table, modules: set<string>, id: string,
                      missing: seq<string>)
    requires ReportsOnly(reports, table, modules) && NoRepeats(reports) && id !in modules
    requires Distinct(missing) && TailReports(tail, id, missing)
    ensures NoRepeats(reports + tail)
  {
    var all := reports + tail;
    forall j, k | 0 <= j < k < |all| ensures !Repeats(all[j], all[k]) {
      if j < |reports| <= k {
        assert reports[j] in reports;
        assert all[k] == tail[k - |reports|];
      } else if |reports| <= j {
        assert all[j] == tail[j - |reports|] && all[k] == tail[k - |reports|];
        assert missing[j - |reports|] != missing[k - |reports|];
      }
    }
  }

  lemma SkipStep(before: State, work: Work, visited: set<string>)
    requires Consistent(before, work, visited) && work.queue != [] && work.queue[0] in visited
    ensures Consistent(before, work.(queue := work.queue[1..]), visited)
  {
    forall id | IsRequiredModule(work.state.table, id) ensures id in visited || id in work.queue[1..] {
    }
  }

  lemma VisitStep(before: State, work: Work, visited: set<string>)
    requires WellFormed(before.table)
    requires Consistent(before, work, visited) && work.queue != [] && work.queue[0] !in visited
    ensures var id := work.queue[0];
            && IsModule(work.state.table, id)
            && Consistent(before, VisitDependencies(id, Sort(work.state.table.rows[id].dependsOn, ByCodeUnit),
                                                    work.(queue := work.queue[1..])), visited + {id})
  {
    var id := work.queue[0];
    var rest := work.(queue := work.queue[1..]);
    var table := work.state.table;
    var deps := Sort(table.rows[id].dependsOn, ByCodeUnit);
    var w := VisitDependencies(id, deps, rest);
    SortKeepsElements(table.rows[id].dependsOn, ByCodeUnit);
    SortDistinct(table.rows[id].dependsOn);
    VisitMeans(id, deps, rest);
    ClosesTransitive(before.table, table, w.state.table);
    VisitKeepsNeeded(before, work, visited, w);
    VisitKeepsReports(before, work.state, visited, w.state, id);
    forall m | IsRequiredModule(w.state.table, m) ensures m in visited + {id} || m in w.queue {
      if IsRequiredModule(table, m) {
        assert m in visited || m == id || m in rest.queue;
      }
    }
    forall v, dep | v in visited + {id} && Edge(ModuleGraph(before.table), v, dep)
      ensures IsRequiredModule(w.state.table, dep)
    {
      if v in visited {
        assert IsRequiredModule(table, dep);
      } else {
        assert dep in deps && IsModule(table, dep);
      }
    }
  }

  lemma VisitKeepsNeeded(before: State, work: Work, visited: set<string>, w: Work)
    requires Consistent(before, work, visited) && work.queue != []
    requires var id := work.queue[0];
             && IsModule(work.state.table, id)
             && Visits(id, Sort(work.state.table.rows[id].dependsOn, ByCodeUnit), work.(queue := work.queue[1..]), w)
    ensures forall m :: IsRequiredModule(w.state.table, m) ==> Needed(before.table, m)
  {
    var id := work.queue[0];
    var table := work.state.table;
    SortKeepsElements(table.rows[id].dependsOn, ByCodeUnit);
    var g := ModuleGraph(before.table);
    var root :| IsRequiredModule(before.table, root) && Reaches(g, root, id);
    forall m | IsRequiredModule(w.state.table, m) ensures Needed(before.table, m) {
      if !IsRequiredModule(table, m) {
        assert Edge(g, id, m);
        ReachesThenEdge(g, root, id, m);
      }
    }
  }

  lemma Spliced(a: seq<Conflict>, b: seq<Conflict>, c: seq<Conflict>)
    requires |a| <= |b| <= |c| && b[..|a|] == a && c[..|b|] == b
    ensures c[..|a|] == a && c[|a|..] == b[|a|..] + c[|b|..]
  {
    assert c[..|a|] == c[..|b|][..|a|];
    assert c == b + c[|b|..];
  }

  lemma MissingOf(before: Table, table: Table, id: string) returns (missing: seq<string>)
    requires WellFormed(before) && Closes(before, table) && id in before.rows
    ensures missing == NoModules(table, Sort(table.rows[id].dependsOn, ByCodeUnit))
    ensures Distinct(missing)
    ensures forall dep :: dep in missing <==> dep in before.rows[id].dependsOn && !IsModule(before, dep)
  {
    var listed := before.rows[id].dependsOn;
    var deps := Sort(listed, ByCodeUnit);
    assert SameButRequired(before.rows[id], table.rows[id]);
    SortKeepsElements(listed, ByCodeUnit);
    SortDistinct(listed);
    NoModulesSame(before, table, deps);
    NoModulesAre(before, deps);
    missing := NoModules(before, deps);
  }

  lemma VisitKeepsReports(before: State, was: State, visited: set<string>, now: State, id: string)
    requires WellFormed(before.table) && Closes(before.table, was.table) && id !in visited && id in was.table.rows
    requires |before.conflicts| <= |was.conflicts| && was.conflicts[..|before.conflicts|] == before.conflicts
    requires ReportsExactly(was.conflicts[|before.conflicts|..], before.table, visited)
    requires Reported(id, was.conflicts, now.conflicts, NoModules(was.table, Sort(was.table.rows[id].dependsOn, ByCodeUnit)))
    ensures |before.conflicts| <= |now.conflicts| && now.conflicts[..|before.conflicts|] == before.conflicts
    ensures ReportsExactly(now.conflicts[|before.conflicts|..], before.table, visited + {id})
  {
    var missing := MissingOf(before.table, was.table, id);
    SplicedReports(before.conflicts, was.conflicts, now.conflicts, before.table, visited, id, missing);
  }

  /** One visit's reports after those of the modules visited before. */
  lemma SplicedReports(was: seq<Conflict>, mid: seq<Conflict>, now: seq<Conflict>, table: Table, visited: set<string>,
                       id: string, missing: seq<string>)
    requires |was| <= |mid| && mid[..|was|] == was && ReportsExactly(mid[|was|..], table, visited)
    requires id !in visited && id in table.rows && Distinct(missing)
    requires forall dep :: dep in missing <==> dep in table.rows[id].dependsOn && !IsModule(table, dep)
    requires Reported(id, mid, now, missing)
    ensures |was| <= |now| && now[..|was|] == was && ReportsExactly(now[|was|..], table, visited + {id})
  {
    var reports, tail := mid[|was|..], now[|mid|..];
    forall k | 0 <= k < |missing| ensures Reports(tail[k], id, missing[k]) {
      assert tail[k] == now[|mid| + k];
    }
    ReportsGrow(reports, tail, table, visited, id, missing);
    Spliced(was, mid, now);
  }

  /** The worklist ends with the required modules visited and closed under dependency. */
  lemma {:induction false} CloseMeans(before: State, work: Work, visited: set<string>) returns (modules: set<string>)
    requires WellFormed(before.table) && Consistent(before, work, visited)
    ensures Consistent(before, Work([], Close(work, visited)), modules)
    decreases work.state.table.rows.Keys - visited, |work.queue|
  {
    if work.queue == [] {
      assert work == Work([], work.state);
      modules := visited;
    } else if work.queue[0] in visited {
      SkipStep(before, work, visited);
      modules := CloseMeans(before, work.(queue := work.queue[1..]), visited);
    } else {
      var id := work.queue[0];
      VisitStep(before, work, visited);
      assert id in work.state.table.rows.Keys - visited;
      modules := CloseMeans(before, VisitDependencies(id, Sort(work.state.table.rows[id].dependsOn, ByCodeUnit),
                                                      work.(queue := work.queue[1..])), visited + {id});
    }
  }

  // ---------------------------------------------------------------- main result

  ghost function NeededModules(table: Table): set<string> {
    set id | id in table.rows && Needed(table, id)
  }

  lemma NeededIsVisited(state: State, closed: State, modules: set<string>, id: string)
    requires Consistent(state, Work([], closed), modules) && Needed(state.table, id)
    ensures id in modules
  {
    var g := ModuleGraph(state.table);
    var root :| IsRequiredModule(state.table, root) && Reaches(g, root, id);
    var w :| WalkBetween(g, w, root, id);
    assert SameButRequired(state.table.rows[root], closed.table.rows[root]);
    assert IsRequiredModule(closed.table, root);
    forall a, b | a in modules && Edge(g, a, b) ensures b in modules {
      assert IsRequiredModule(closed.table, b);
    }
    ClosedUnderWalk(g, w, modules);
  }

  lemma VisitedAreNeeded(state: State, closed: State, modules: set<string>)
    requires Consistent(state, Work([], closed), modules)
    ensures modules == NeededModules(state.table)
    ensures forall id :: IsRequiredModule(closed.table, id) <==> Needed(state.table, id)
  {
    forall id ensures id in modules <==> Needed(state.table, id) && id in state.table.rows {
      if Needed(state.table, id) {
        NeededIsVisited(state, closed, modules, id);
      }
      if id in modules {
        assert IsRequiredModule(closed.table, id);
      }
    }
    forall id ensures IsRequiredModule(closed.table, id) <==> Needed(state.table, id) {
      if Needed(state.table, id) {
        NeededIsVisited(state, closed, modules, id);
      }
    }
  }

  /**
   After closure a module is required exactly when a module required before leads to it,
   gates are untouched, and the new conflicts name every dependency of a required module
   that is no module, each exactly once.
   */
  lemma ClosureMeans(state: State)
    requires WellFormed(state.table)
    ensures var closed := DependencyClosure(state);
            && Closes(state.table, closed.table)
            && (forall id :: IsRequiredModule(closed.table, id) <==> Needed(state.table, id))
            && |state.conflicts| <= |closed.conflicts|
            && closed.conflicts[..|state.conflicts|] == state.conflicts
            && ReportsExactly(closed.conflicts[|state.conflicts|..], state.table, NeededModules(state.table))
  {
    Start(state);
    var modules := CloseMeans(state, Work(RequiredModules(state.table, state.table.keys), state), {});
    VisitedAreNeeded(state, DependencyClosure(state), modules);
  }
}
