/**
 Dependency cycles among required modules: a depth-first search with three marks that
 reports each cycle it closes. It reports nothing exactly when the graph has no cycle,
 and every report is a real cycle.
 */
module Cycles {
  import opened Ordering
  import opened Merge
  import opened Sets
  import opened Closure
  import opened Graphs

  /** Required modules, each with its dependencies in the order they are searched. */
  function RequiredGraph(table: Table): Graph {
    map id | id in table.rows && table.rows[id].kind.Module? && table.rows[id].required ::
      Sort(table.rows[id].dependsOn, ByCodeUnit)
  }

  datatype Mark = Visiting | Done

  datatype Search = Search(marks: map<string, Mark>, stack: seq<string>, conflicts: seq<Conflict>, seen: set<string>)

  const START := Search(map[], [], [], {})

  function IndexOf(s: seq<string>, x: string): (i: nat)
    ensures i <= |s|
    ensures x in s ==> i < |s| && s[i] == x
  {
    if s == [] || s[0] == x then 0 else 1 + IndexOf(s[1..], x)
  }

  function JoinWith(separator: string, s: seq<string>): string {
    if s == [] then "" else if |s| == 1 then s[0] else s[0] + separator + JoinWith(separator, s[1..])
  }

  /** The search came back to a vertex of its own path. */
  function Report(id: string, s: Search): Search {
    var cycle := s.stack[IndexOf(s.stack, id)..] + [id];
    var normalized := Sort(AddAll([], cycle), ByCodeUnit);
    var key := JoinWith("|", normalized);
    if key in s.seen then s
    else s.(seen := s.seen + {key},
            conflicts := s.conflicts + [MakeConflict(DependencyCycle, id, "dependsOn", normalized, cycle)])
  }

  function Visit(g: Graph, id: string, s: Search): (r: Search)
    requires id in g
    ensures s.marks.Keys <= r.marks.Keys
    decreases g.Keys - s.marks.Keys, 0, 0
  {
    if id in s.marks then
      if s.marks[id].Done? then s else Report(id, s)
    else
      assert id in g.Keys - s.marks.Keys;
      var inside := VisitAll(g, g[id], s.(marks := s.marks[id := Visiting], stack := s.stack + [id]));
      inside.(marks := inside.marks[id := Done],
              stack := if inside.stack == [] then [] else inside.stack[..|inside.stack| - 1])
  }

  /** Visits those of the ids that are vertices. */
  function VisitAll(g: Graph, ids: seq<string>, s: Search): (r: Search)
    ensures s.marks.Keys <= r.marks.Keys
    decreases g.Keys - s.marks.Keys, 1, |ids|
  {
    if ids == [] then s
    else if ids[0] in g then VisitAll(g, ids[1..], Visit(g, ids[0], s))
    else VisitAll(g, ids[1..], s)
  }

  function CycleConflicts(table: Table): seq<Conflict> {
    var required := Sort(RequiredModules(table, table.keys), ByCodeUnit);
    VisitAll(RequiredGraph(table), required, START).conflicts
  }

  // ---------------------------------------------------------------- its meaning

  /** The conflict's sources are the vertices of this cycle, which starts and ends at its target. */
  ghost predicate NamesCycle(g: Graph, c: Conflict, w: seq<string>) {
    && IsCycle(g, w) && Distinct(w[..|w| - 1])
    && c.kind == DependencyCycle && c.targetId == w[0]
    && (forall v :: v in c.sources <==> v in w)
    && multiset(c.values) == multiset(w)
  }

  ghost predicate Genuine(g: Graph, c: Conflict) {
    exists w :: NamesCycle(g, c, w)
  }

  /** The stack is a path of distinct vertices, all of them and no others being visited. */
  ghost predicate StackIsPath(g: Graph, s: Search) {
    && Distinct(s.stack)
    && (forall v :: v in s.stack ==> v in g)
    && (forall i :: 0 <= i < |s.stack| - 1 ==> Edge(g, s.stack[i], s.stack[i + 1]))
    && (forall v :: v in s.marks ==> v in g && (s.marks[v].Visiting? <==> v in s.stack))
    && (forall v :: v in s.stack ==> v in s.marks)
  }

  /** What holds between two steps; `order` lists the finished vertices while there is no conflict. */
  ghost predicate Consistent(g: Graph, s: Search, order: seq<string>) {
    && StackIsPath(g, s)
    && (forall c :: c in s.conflicts ==> Genuine(g, c))
    && (s.seen != {} ==> s.conflicts != [])
    && (s.conflicts == [] ==>
          && Topological(g, order)
          && forall v :: v in order <==> v in s.marks && s.marks[v].Done?)
  }

  /** The search never forgets. */
  ghost predicate Extends(s: Search, r: Search) {
    && r.stack == s.stack
    && (forall v :: v in s.marks ==> v in r.marks && r.marks[v] == s.marks[v])
    && (r.conflicts == [] ==> s.conflicts == [])
  }

  lemma StackClosesCycle(g: Graph, id: string, s: Search)
    requires StackIsPath(g, s) && id in s.stack && Edge(g, s.stack[|s.stack| - 1], id)
    ensures var w := s.stack[IndexOf(s.stack, id)..] + [id];
            IsCycle(g, w) && Distinct(w[..|w| - 1]) && w[0] == id
  {
    PathClosesCycle(g, s.stack, IndexOf(s.stack, id), id);
  }

  /** A path of distinct vertices with an edge back to one of them. */
  lemma PathClosesCycle(g: Graph, stack: seq<string>, start: nat, id: string)
    requires Distinct(stack) && (forall i :: 0 <= i < |stack| - 1 ==> Edge(g, stack[i], stack[i + 1]))
    requires start < |stack| && stack[start] == id && Edge(g, stack[|stack| - 1], id)
    ensures var w := stack[start..] + [id];
            IsCycle(g, w) && Distinct(w[..|w| - 1]) && w[0] == id
  {
    var path := stack[start..];
    var cycle := path + [id];
    forall i | 0 <= i < |cycle| - 1 ensures Edge(g, cycle[i], cycle[i + 1]) {
      if i < |path| - 1 {
        assert Edge(g, stack[start + i], stack[start + i + 1]);
      }
    }
    assert cycle[..|cycle| - 1] == path;
  }

  lemma ConflictOfWalk(id: string, w: seq<string>)
    ensures var c := MakeConflict(DependencyCycle, id, "dependsOn", Sort(AddAll([], w), ByCodeUnit), w);
            && (forall v :: v in c.sources <==> v in w)
            && multiset(c.values) == multiset(w)
  {
    AddAllMeans([], w);
    SortKeepsElements(AddAll([], w), ByCodeUnit);
    SortKeepsElements(Sort(AddAll([], w), ByCodeUnit), ByCodeUnit);
    SortPermutes(w, ByCodeUnit);
  }

  lemma ReportIsGenuine(g: Graph, id: string, s: Search)
    requires StackIsPath(g, s) && id in s.stack && Edge(g, s.stack[|s.stack| - 1], id)
    ensures var w := s.stack[IndexOf(s.stack, id)..] + [id];
            Genuine(g, MakeConflict(DependencyCycle, id, "dependsOn", Sort(AddAll([], w), ByCodeUnit), w))
  {
    var w := s.stack[IndexOf(s.stack, id)..] + [id];
    StackClosesCycle(g, id, s);
    ConflictOfWalk(id, w);
    assert NamesCycle(g, MakeConflict(DependencyCycle, id, "dependsOn", Sort(AddAll([], w), ByCodeUnit), w), w);
  }

  lemma ReportStep(g: Graph, id: string, s: Search, order: seq<string>)
    requires Consistent(g, s, order) && id in s.stack && Edge(g, s.stack[|s.stack| - 1], id)
    ensures Consistent(g, Report(id, s), order) && Extends(s, Report(id, s)) && Report(id, s).conflicts != []
  {
    ReportIsGenuine(g, id, s);
  }

  lemma EnterStep(g: Graph, id: string, s: Search, order: seq<string>)
    requires Consistent(g, s, order) && id in g && id !in s.marks
    requires s.stack != [] ==> Edge(g, s.stack[|s.stack| - 1], id)
    ensures Consistent(g, s.(marks := s.marks[id := Visiting], stack := s.stack + [id]), order)
  {
    var stack := s.stack + [id];
    forall i | 0 <= i < |stack| - 1 ensures Edge(g, stack[i], stack[i + 1]) {
      if i < |s.stack| - 1 {
        assert Edge(g, s.stack[i], s.stack[i + 1]);
      }
    }
  }

  lemma LeaveStep(g: Graph, id: string, s: Search, inside: Search, order: seq<string>)
    requires StackIsPath(g, s) && id in g && id !in s.marks
    requires Consistent(g, inside, order)
    requires Extends(s.(marks := s.marks[id := Visiting], stack := s.stack + [id]), inside)
    requires inside.conflicts == [] ==> forall b :: Edge(g, id, b) ==> b in inside.marks && inside.marks[b].Done?
    ensures var r := inside.(marks := inside.marks[id := Done], stack := inside.stack[..|inside.stack| - 1]);
            Consistent(g, r, order + [id]) && Extends(s, r)
  {
    var r := inside.(marks := inside.marks[id := Done], stack := inside.stack[..|inside.stack| - 1]);
    assert r.stack == s.stack;
    assert inside.stack == s.stack + [id];
    if inside.conflicts == [] {
      var grown := order + [id];
      forall i, b | 0 <= i < |grown| && Edge(g, grown[i], b) ensures b in grown[..i] {
        if i < |order| {
          assert grown[..i] == order[..i];
        } else {
          assert grown[..i] == order;
        }
      }
    }
  }

  lemma {:induction false} VisitMeans(g: Graph, id: string, s: Search, order: seq<string>) returns (order': seq<string>)
    requires Consistent(g, s, order) && id in g
    requires s.stack != [] ==> Edge(g, s.stack[|s.stack| - 1], id)
    ensures Finished(g, id, s, Visit(g, id, s), order')
    decreases g.Keys - s.marks.Keys, 0, 1
  {
    if id in s.marks {
      order' := order;
      if s.marks[id].Visiting? {
        ReportStep(g, id, s, order);
      }
    } else {
      order' := VisitNewMeans(g, id, s, order);
    }
  }

  /** The search of one vertex is over: it is done, or there is a conflict. */
  ghost predicate Finished(g: Graph, id: string, s: Search, r: Search, order: seq<string>) {
    && Consistent(g, r, order) && Extends(s, r)
    && (r.conflicts == [] ==> id in r.marks && r.marks[id].Done?)
  }

  lemma {:induction false} VisitNewMeans(g: Graph, id: string, s: Search, order: seq<string>) returns (order': seq<string>)
    requires Consistent(g, s, order) && id in g && id !in s.marks
    requires s.stack != [] ==> Edge(g, s.stack[|s.stack| - 1], id)
    ensures Finished(g, id, s, Visit(g, id, s), order')
    decreases g.Keys - s.marks.Keys, 0, 0
  {
    var entered := s.(marks := s.marks[id := Visiting], stack := s.stack + [id]);
    EnterStep(g, id, s, order);
    assert id in g.Keys - s.marks.Keys;
    var inner := VisitAllMeans(g, id, g[id], entered, order);
    LeaveStep(g, id, s, VisitAll(g, g[id], entered), inner);
    order' := inner + [id];
  }

  /** The successors of the vertex on top of the stack. */
  lemma {:induction false} VisitAllMeans(g: Graph, top: string, ids: seq<string>, s: Search, order: seq<string>)
    returns (order': seq<string>)
    requires Consistent(g, s, order) && s.stack != [] && s.stack[|s.stack| - 1] == top
    requires forall b :: b in ids ==> b in g[top]
    ensures var r := VisitAll(g, ids, s);
            && Consistent(g, r, order') && Extends(s, r)
            && (r.conflicts == [] ==> forall b :: b in ids && b in g ==> b in r.marks && r.marks[b].Done?)
    decreases g.Keys - s.marks.Keys, 1, |ids|
  {
    order' := order;
    if ids != [] {
      if ids[0] in g {
        assert Edge(g, top, ids[0]);
        order' := VisitMeans(g, ids[0], s, order);
        order' := VisitAllMeans(g, top, ids[1..], Visit(g, ids[0], s), order');
      } else {
        order' := VisitAllMeans(g, top, ids[1..], s, order);
      }
    }
  }

  /** The roots of the search, from an empty stack. */
  lemma {:induction false} VisitRootsMeans(g: Graph, ids: seq<string>, s: Search, order: seq<string>)
    returns (order': seq<string>)
    requires Consistent(g, s, order) && s.stack == [] && forall b :: b in ids ==> b in g
    ensures var r := VisitAll(g, ids, s);
            && Consistent(g, r, order') && Extends(s, r)
            && (r.conflicts == [] ==> forall b :: b in ids ==> b in r.marks && r.marks[b].Done?)
    decreases |ids|
  {
    order' := order;
    if ids != [] {
      order' := VisitMeans(g, ids[0], s, order);
      order' := VisitRootsMeans(g, ids[1..], Visit(g, ids[0], s), order');
    }
  }

  lemma SearchMeans(g: Graph, roots: seq<string>)
    requires forall v :: v in g <==> v in roots
    ensures VisitAll(g, roots, START).conflicts == [] <==> Acyclic(g)
    ensures forall c :: c in VisitAll(g, roots, START).conflicts ==> Genuine(g, c)
  {
    var order := VisitRootsMeans(g, roots, START, []);
    var r := VisitAll(g, roots, START);
    if r.conflicts == [] {
      assert forall v :: v in g ==> v in order;
      TopologicalIsAcyclic(g, order);
    } else {
      assert Genuine(g, r.conflicts[0]);
      var w :| NamesCycle(g, r.conflicts[0], w);
    }
  }

  /** A conflict is reported exactly when the required modules depend on each other in a circle, and it names one. */
  lemma CyclesAreFound(table: Table)
    requires WellFormed(table)
    ensures CycleConflicts(table) == [] <==> Acyclic(RequiredGraph(table))
    ensures forall c :: c in CycleConflicts(table) ==> Genuine(RequiredGraph(table), c)
  {
    var roots := RequiredModules(table, table.keys);
    RequiredModulesAre(table, table.keys);
    SortKeepsElements(roots, ByCodeUnit);
    SearchMeans(RequiredGraph(table), Sort(roots, ByCodeUnit));
  }
}
