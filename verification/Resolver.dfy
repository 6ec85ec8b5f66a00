/**
 Blueprint resolution: canonical order, merge, dependency closure, cycle search, and the
 blueprint read off the result. The classes hold the working state that the program
 updates in place; each of their methods is proved to compute the function its contract names.
 */
module Resolver {
  import opened Wrappers
  import opened Ordering
  import opened Templates
  import opened Merge
  import opened Sets
  import opened Closure
  import Cycles
  import opened Graphs

  // ---------------------------------------------------------------- the working state

  /** From this place on, the inputs are one template's requirements in sorted order. */
  ghost predicate EndsWithTemplate(all: seq<Input>, base: nat, template: Template, sorted: seq<Requirement>) {
    |all| == base + |sorted| && forall j :: 0 <= j < |sorted| ==> all[base + j] == Input(template, sorted[j])
  }

  /** The state once so many of the template's requirements are merged. */
  ghost function MergedUpTo(all: seq<Input>, base: nat, j: nat): State
    requires base + j <= |all|
  {
    MergeAll(all[..base + j])
  }

  lemma MergeNext(all: seq<Input>, base: nat, template: Template, sorted: seq<Requirement>, j: nat)
    requires EndsWithTemplate(all, base, template, sorted) && j < |sorted|
    ensures MergedUpTo(all, base, j + 1) == MergeOne(MergedUpTo(all, base, j), template, sorted[j])
  {
    assert all[base + j] == Input(template, sorted[j]);
    assert all[..base + j + 1][..base + j] == all[..base + j];
  }

  lemma AllMerged(all: seq<Input>, base: nat, j: nat)
    requires base + j == |all|
    ensures MergedUpTo(all, base, j) == MergeAll(all)
  {
    assert all[..base + j] == all;
  }

  class Requirements {
    var keys: seq<string>
    var rows: map<string, Row>
    var conflicts: seq<Conflict>

    ghost function View(): State
      reads this
    {
      State(Table(keys, rows), conflicts)
    }

    constructor ()
      ensures View() == EMPTY
    {
      keys, rows, conflicts := [], map[], [];
    }

    method MergeRequirement(template: Template, r: Requirement)
      modifies this
      ensures View() == MergeOne(old(View()), template, r)
    {
      if r.id !in rows {
        keys := keys + [r.id];
        rows := rows[r.id := FirstRow(template, r)];
        return;
      }
      var existing := rows[r.id];
      var sources := SourceIds(existing.sources) + [template.id];
      if existing.kind != r.kind {
        conflicts := conflicts + [MakeConflict(IncompatibleValue, r.id, "kind", sources, [existing.kind.Name(), r.kind.Name()])];
        return;
      }
      var constraint := existing.constraint;
      if existing.constraint.Some? && r.constraint.Some? && existing.constraint.value != r.constraint.value {
        conflicts := conflicts +
          [MakeConflict(IncompatibleValue, r.id, "constraint", sources, [existing.constraint.value, r.constraint.value])];
      } else if existing.constraint.None? && r.constraint.Some? {
        constraint := r.constraint;
      }
      rows := rows[r.id := existing.(
        required := existing.required || r.IsRequired(),
        depth := MaxDepth(existing.depth, r.DepthOrBasic()),
        tags := AddAll(existing.tags, r.tags),
        dependsOn := AddAll(existing.dependsOn, r.dependsOn),
        constraint := constraint,
        sources := existing.sources + [SourceOf(template, r)])];
    }

    /** The requirements of one template, in sorted order. */
    method MergeSorted(template: Template, sorted: seq<Requirement>, ghost all: seq<Input>, ghost base: nat)
      requires EndsWithTemplate(all, base, template, sorted)
      requires View() == MergeAll(all[..base])
      modifies this
      ensures View() == MergeAll(all)
    {
      for j := 0 to |sorted|
        invariant View() == MergedUpTo(all, base, j)
      {
        MergeNext(all, base, template, sorted, j);
        MergeRequirement(template, sorted[j]);
      }
      AllMerged(all, base, |sorted|);
    }

    method MergeTemplates(collate: Collation, activated: seq<Template>)
      requires View() == EMPTY
      modifies this
      ensures View() == MergeAll(Inputs(collate, activated))
    {
      var i := 0;
      assert activated[..0] == [];
      while i < |activated|
        invariant 0 <= i <= |activated|
        invariant View() == MergeAll(Inputs(collate, activated[..i]))
      {
        ghost var before, added := Inputs(collate, activated[..i]), InputsOf(collate, activated[i]);
        assert (before + added)[..|before|] == before;
        MergeSorted(activated[i], Sort(activated[i].requirements, RequirementOrder(collate)), before + added, |before|);
        assert activated[..i + 1][..i] == activated[..i];
        i := i + 1;
      }
      assert activated[..i] == activated;
    }

    /** The dependencies of one module, in sorted order. */
    method VisitRequirement(id: string, queue: seq<string>) returns (queue': seq<string>)
      requires id in rows
      modifies this
      ensures Work(queue', View()) ==
              VisitDependencies(id, Sort(old(rows)[id].dependsOn, ByCodeUnit), Work(queue, old(View())))
    {
      var deps := Sort(rows[id].dependsOn, ByCodeUnit);
      queue' := queue;
      var i := 0;
      ghost var goal := VisitDependencies(id, deps, Work(queue, View()));
      assert deps[0..] == deps;
      while i < |deps|
        invariant 0 <= i <= |deps| && id in rows
        invariant VisitDependencies(id, deps[i..], Work(queue', View())) == goal
      {
        var dep := deps[i];
        assert deps[i..][1..] == deps[i + 1..];
        if dep !in rows || !rows[dep].kind.Module? {
          conflicts := conflicts + [MakeConflict(MissingDependency, id, "dependsOn", SourceIds(rows[id].sources), [dep])];
        } else {
          if !rows[dep].required {
            rows := rows[dep := rows[dep].(required := true, sources := rows[dep].sources + [TransitiveSource(id)])];
          }
          queue' := queue' + [dep];
        }
        i := i + 1;
      }
    }

    method CloseDependencies()
      modifies this
      ensures View() == DependencyClosure(old(View()))
    {
      var queue := RequiredModules(Table(keys, rows), keys);
      var visited: set<string> := {};
      ghost var goal := DependencyClosure(View());
      while queue != []
        invariant Close(Work(queue, View()), visited) == goal
        decreases rows.Keys - visited, |queue|
      {
        var id := queue[0];
        ghost var work := Work(queue, View());
        queue := queue[1..];
        if id !in visited {
          visited := visited + {id};
          if id in rows && rows[id].kind.Module? {
            queue := VisitRequirement(id, queue);
          }
        }
      }
    }
  }

  class CycleSearch {
    var marks: map<string, Cycles.Mark>
    var stack: seq<string>
    var conflicts: seq<Conflict>
    var seen: set<string>

    ghost function View(): Cycles.Search
      reads this
    {
      Cycles.Search(marks, stack, conflicts, seen)
    }

    constructor ()
      ensures View() == Cycles.START
    {
      marks, stack, conflicts, seen := map[], [], [], {};
    }

    method Visit(g: Graph, id: string)
      requires id in g
      modifies this
      ensures View() == Cycles.Visit(g, id, old(View()))
      decreases g.Keys - marks.Keys, 0, 0
    {
      if id in marks {
        if marks[id].Visiting? {
          var cycle := stack[Cycles.IndexOf(stack, id)..] + [id];
          var normalized := Sort(AddAll([], cycle), ByCodeUnit);
          var key := Cycles.JoinWith("|", normalized);
          if key !in seen {
            seen := seen + {key};
            conflicts := conflicts + [MakeConflict(DependencyCycle, id, "dependsOn", normalized, cycle)];
          }
        }
        return;
      }
      assert id in g.Keys - marks.Keys;
      marks := marks[id := Cycles.Visiting];
      stack := stack + [id];
      VisitAll(g, g[id]);
      stack := if stack == [] then [] else stack[..|stack| - 1];
      marks := marks[id := Cycles.Done];
    }

    method VisitAll(g: Graph, ids: seq<string>)
      modifies this
      ensures View() == Cycles.VisitAll(g, ids, old(View()))
      decreases g.Keys - marks.Keys, 1, |ids|
    {
      var i := 0;
      assert ids[0..] == ids;
      while i < |ids|
        invariant 0 <= i <= |ids|
        invariant old(marks.Keys) <= marks.Keys
        invariant Cycles.VisitAll(g, ids[i..], View()) == Cycles.VisitAll(g, ids, old(View()))
      {
        assert ids[i..][1..] == ids[i + 1..];
        if ids[i] in g {
          Visit(g, ids[i]);
        }
        i := i + 1;
      }
    }
  }
}
