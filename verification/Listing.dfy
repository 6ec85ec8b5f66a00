/**
 What a resolved blueprint lists: each requirement once, the required modules and gates, and
 an edge for each dependency of a required module, all in the order of their ids.
 */
module Listing {
  import opened Wrappers
  import opened Ordering
  import opened Sets
  import opened Templates
  import opened Merge
  import opened Closure
  import Cycles
  import opened Fingerprint
  import opened Blueprint
  import opened Authority

  // ---------------------------------------------------------------- edges

  lemma {:induction false} EdgesFromAre(id: string, deps: seq<string>)
    ensures forall e :: e in EdgesFrom(id, deps) <==> e.0 == id && e.1 in deps
    ensures Distinct(deps) ==> Distinct(EdgesFrom(id, deps))
  {
    if deps != [] {
      EdgesFromAre(id, deps[1..]);
    }
  }

  /** The resolved requirement is a required module that depends on the end of the edge. */
  ghost predicate GivesEdge(q: Resolved, e: (string, string)) {
    q.row.kind.Module? && q.row.required && e.0 == q.id && e.1 in q.row.dependsOn
  }

  ghost predicate IdsDiffer(requirements: seq<Resolved>) {
    forall i, j :: 0 <= i < j < |requirements| ==> requirements[i].id != requirements[j].id
  }

  lemma {:induction false} EdgesOfAre(requirements: seq<Resolved>)
    ensures forall e :: e in EdgesOf(requirements) <==> exists q :: q in requirements && GivesEdge(q, e)
  {
    if requirements != [] {
      var first, rest := requirements[0], requirements[1..];
      EdgesOfAre(rest);
      EdgesFromAre(first.id, first.row.dependsOn);
      forall e ensures e in EdgesOf(requirements) <==> exists q :: q in requirements && GivesEdge(q, e) {
        if e in EdgesOf(rest) {
          var q :| q in rest && GivesEdge(q, e);
          assert q in requirements;
        } else if e in EdgesOf(requirements) {
          assert first in requirements && GivesEdge(first, e);
        }
        if q :| q in requirements && GivesEdge(q, e) {
          assert q == first || q in rest;
        }
      }
    }
  }

  lemma {:induction false} EdgesOfDiffer(requirements: seq<Resolved>)
    requires IdsDiffer(requirements) && forall q :: q in requirements ==> Distinct(q.row.dependsOn)
    ensures Distinct(EdgesOf(requirements))
  {
    if requirements != [] {
      var first, rest := requirements[0], requirements[1..];
      EdgesOfDiffer(rest);
      EdgesOfAre(rest);
      EdgesFromAre(first.id, first.row.dependsOn);
      forall e | e in EdgesOf(rest) ensures e !in EdgesFrom(first.id, first.row.dependsOn) {
        var q :| q in rest && GivesEdge(q, e);
        var k :| 0 <= k < |rest| && rest[k] == q;
        assert requirements[k + 1] == q;
      }
    }
  }

  lemma PairsOrdered(collate: Collation)
    requires IsTotalOrder(collate)
    ensures IsTotalPreorder((a: (string, string), b: (string, string)) => PairLe(collate, a, b))
  {
  }

  // ---------------------------------------------------------------- requirements

  lemma {:induction false} FrozenIds(collate: Collation, table: Table, keys: seq<string>)
    requires forall id :: id in keys ==> id in table.rows
    ensures |FreezeAll(collate, table, keys)| == |keys|
    ensures forall k :: 0 <= k < |keys| ==> FreezeAll(collate, table, keys)[k] == Resolved(keys[k], Freeze(collate, table.rows[keys[k]]))
  {
    if keys != [] {
      FrozenIds(collate, table, keys[1..]);
    }
  }

  lemma {:induction false} RequiredInOrder(requirements: seq<Resolved>, kind: Kind, collate: Collation)
    requires IsTotalOrder(collate) && IdsDiffer(requirements)
    requires forall i, j :: 0 <= i < j < |requirements| ==> collate(requirements[i].id, requirements[j].id)
    ensures IsSorted(RequiredOfKind(requirements, kind), collate) && Distinct(RequiredOfKind(requirements, kind))
  {
    if requirements != [] {
      var first, rest := requirements[0], requirements[1..];
      RequiredInOrder(rest, kind, collate);
      RequiredOfKindAre(rest, kind);
      forall id | id in RequiredOfKind(rest, kind) ensures collate(first.id, id) && first.id != id {
        var q :| q in rest && q.id == id && q.row.kind == kind && q.row.required;
        var k :| 0 <= k < |rest| && rest[k] == q;
        assert requirements[k + 1] == q;
      }
    }
  }

  // ---------------------------------------------------------------- the lists of a blueprint

  /** The row of its id, with its tags and dependencies each once and sorted. */
  ghost predicate RowListed(table: Table, q: Resolved) {
    && q.id in table.rows && SameContent(table.rows[q.id], q.row)
    && Distinct(q.row.tags) && IsSorted(q.row.tags, ByCodeUnit)
    && Distinct(q.row.dependsOn) && IsSorted(q.row.dependsOn, ByCodeUnit)
    && multiset(q.row.sources) == multiset(table.rows[q.id].sources)
  }

  /** A smaller number, the first that differs; or a preview of the same numbers, which the release follows. */
  ghost predicate Older(a: Version, b: Version, collate: Collation) {
    || a.major < b.major
    || (a.major == b.major && a.minor < b.minor)
    || (a.major == b.major && a.minor == b.minor && a.patch < b.patch)
    || (a.major == b.major && a.minor == b.minor && a.patch == b.patch && a.pre != ""
        && (b.pre == "" || (a.pre != b.pre && collate(a.pre, b.pre))))
  }

  lemma OldestFirst(collate: Collation, a: Version, b: Version)
    requires IsTotalOrder(collate) && VersionLe(collate, a, b)
    ensures !Older(b, a, collate)
  {
  }

  /** In the order of authority; within a layer by id, and of one id the older version first. */
  ghost predicate InOrder(a: Source, b: Source, collate: Collation) {
    && a.layer.Rank() <= b.layer.Rank()
    && (a.layer == b.layer ==> collate(a.sourceId, b.sourceId))
    && (a.layer == b.layer && a.sourceId == b.sourceId ==> !Older(b.version, a.version, collate))
  }

  ghost predicate SourcesInOrder(sources: seq<Source>, collate: Collation) {
    forall i, j :: 0 <= i < j < |sources| ==> InOrder(sources[i], sources[j], collate)
  }

  lemma SourcesFollow(collate: Collation, a: Source, b: Source)
    requires IsTotalOrder(collate) && SourceLe(collate, a, b)
    ensures InOrder(a, b, collate)
  {
    if a.layer == b.layer && a.sourceId == b.sourceId {
      OldestFirst(collate, a.version, b.version);
    }
  }

  lemma SourcesOrdered(collate: Collation)
    requires IsTotalOrder(collate)
    ensures IsTotalPreorder((a: Source, b: Source) => SourceLe(collate, a, b))
  {
    forall a: Source, b: Source, c: Source
      ensures SourceLe(collate, a, b) || SourceLe(collate, b, a)
      ensures SourceLe(collate, a, b) && SourceLe(collate, b, c) ==> SourceLe(collate, a, c)
    {
      VersionOrder(collate, a.version, b.version, c.version);
    }
  }

  lemma FrozenSources(collate: Collation, row: Row)
    requires IsTotalOrder(collate)
    ensures SourcesInOrder(Freeze(collate, row).sources, collate)
    ensures multiset(Freeze(collate, row).sources) == multiset(row.sources)
  {
    var le := (a: Source, b: Source) => SourceLe(collate, a, b);
    SourcesOrdered(collate);
    SortSorts(row.sources, le);
    SortPermutes(row.sources, le);
    var sources := Freeze(collate, row).sources;
    forall i, j | 0 <= i < j < |sources| ensures InOrder(sources[i], sources[j], collate) {
      assert le(sources[i], sources[j]);
      SourcesFollow(collate, sources[i], sources[j]);
    }
  }

  /** The resolved requirements: one for each row of the table, in the order of their ids. */
  ghost predicate ListsRows(b: Blueprint, table: Table, collate: Collation) {
    && HoldsRows(b.requirements, table, collate)
    && forall i, j :: 0 <= i < j < |b.requirements| ==> collate(b.requirements[i].id, b.requirements[j].id)
  }

  ghost predicate HoldsRows(requirements: seq<Resolved>, table: Table, collate: Collation) {
    && IdsDiffer(requirements)
    && (forall id :: id in table.rows <==> exists q :: q in requirements && q.id == id)
    && (forall q :: q in requirements ==> RowListed(table, q) && SourcesInOrder(q.row.sources, collate))
  }

  /** The ids of the required items of one kind, each once and in order. */
  ghost predicate ListsRequired(ids: seq<string>, b: Blueprint, kind: Kind, collate: Collation) {
    && Distinct(ids) && IsSorted(ids, collate)
    && forall id :: id in ids <==> exists q :: q in b.requirements && q.id == id && q.row.kind == kind && q.row.required
  }

  /** An edge from each required module to each of its dependencies, once, by the first end and then by the second. */
  ghost predicate ListsEdges(b: Blueprint, collate: Collation) {
    var edges := b.dependencyEdges;
    && Distinct(edges)
    && (forall v, w :: (v, w) in edges <==> v in b.requiredModules && exists q :: q in b.requirements && q.id == v && w in q.row.dependsOn)
    && forall i, j :: 0 <= i < j < |edges| ==>
         collate(edges[i].0, edges[j].0) && (edges[i].0 == edges[j].0 ==> collate(edges[i].1, edges[j].1))
  }

  /** The rationale by what is required, then by its source, then by the reason. */
  ghost predicate RationaleInOrder(rationale: seq<Rationale>, collate: Collation) {
    forall i, j :: 0 <= i < j < |rationale| ==>
      && collate(rationale[i].targetId, rationale[j].targetId)
      && (rationale[i].targetId == rationale[j].targetId ==>
            && collate(rationale[i].sourceId, rationale[j].sourceId)
            && (rationale[i].sourceId == rationale[j].sourceId ==> collate(rationale[i].reason, rationale[j].reason)))
  }

  lemma RationaleSorted(rationale: seq<Rationale>, collate: Collation)
    requires IsTotalOrder(collate)
    ensures RationaleInOrder(Sort(rationale, (a: Rationale, b: Rationale) => RationaleLe(collate, a, b)), collate)
  {
    var le := (a: Rationale, b: Rationale) => RationaleLe(collate, a, b);
    var sorted := Sort(rationale, le);
    assert IsTotalPreorder(le);
    SortSorts(rationale, le);
    forall i, j | 0 <= i < j < |sorted| ensures le(sorted[i], sorted[j]) {
    }
  }

  /** The templates that took part, in the order they were merged. */
  ghost predicate ListsTemplates(b: Blueprint, participants: seq<Template>) {
    && |b.activated| == |participants|
    && forall k :: 0 <= k < |participants| ==>
         && b.activated[k].id == participants[k].id && b.activated[k].version == participants[k].version
         && b.activated[k].layer == participants[k].layer
  }

  lemma FrozenRow(collate: Collation, row: Row)
    requires Distinct(row.tags) && Distinct(row.dependsOn)
    ensures var frozen := Freeze(collate, row);
      && SameContent(row, frozen)
      && Distinct(frozen.tags) && IsSorted(frozen.tags, ByCodeUnit)
      && Distinct(frozen.dependsOn) && IsSorted(frozen.dependsOn, ByCodeUnit)
  {
    FreezeKeeps(collate, row);
    ByCodeUnitIsOrder();
    SortSorts(row.tags, ByCodeUnit);
    SortSorts(row.dependsOn, ByCodeUnit);
    SortKeepsDifferent(row.tags, ByCodeUnit);
    SortKeepsDifferent(row.dependsOn, ByCodeUnit);
  }

  lemma IdsOrdered(collate: Collation)
    requires IsTotalPreorder(collate)
    ensures IsTotalPreorder((a: Resolved, b: Resolved) => collate(a.id, b.id))
  {
    var le := (a: Resolved, b: Resolved) => collate(a.id, b.id);
    forall a, b ensures le(a, b) || le(b, a) {
      assert collate(a.id, b.id) || collate(b.id, a.id);
    }
    forall a, b, c | le(a, b) && le(b, c) ensures le(a, c) {
      assert collate(a.id, b.id) && collate(b.id, c.id);
    }
  }

  /** Sorted by their ids, requirements under different ids stay so and come in the order of their ids. */
  lemma SortedByIds(requirements: seq<Resolved>, collate: Collation)
    requires IsTotalOrder(collate) && IdsDiffer(requirements)
    ensures var sorted := Sort(requirements, (a: Resolved, b: Resolved) => collate(a.id, b.id));
      && IdsDiffer(sorted) && (forall q :: q in sorted <==> q in requirements)
      && forall i, j :: 0 <= i < j < |sorted| ==> collate(sorted[i].id, sorted[j].id)
  {
    var le := (a: Resolved, b: Resolved) => collate(a.id, b.id);
    var sorted := Sort(requirements, le);
    SortKeepsElements(requirements, le);
    IdsOrdered(collate);
    SortSorts(requirements, le);
    SortKeepsDifferent(requirements, le);
    forall i, j | 0 <= i < j < |sorted| ensures sorted[i].id != sorted[j].id {
      if sorted[i].id == sorted[j].id {
        OneForId(requirements, sorted[i], sorted[j]);
      }
    }
  }

  lemma FrozenListed(collate: Collation, table: Table, q: Resolved)
    requires IsTotalOrder(collate) && q.id in table.rows && q.row == Freeze(collate, table.rows[q.id])
    requires Distinct(table.rows[q.id].tags) && Distinct(table.rows[q.id].dependsOn)
    ensures RowListed(table, q) && SourcesInOrder(q.row.sources, collate)
  {
    FrozenRow(collate, table.rows[q.id]);
    FrozenSources(collate, table.rows[q.id]);
  }

  lemma RowsListed(collate: Collation, participants: seq<Template>, table: Table)
    requires IsTotalOrder(collate) && WellFormed(table)
    ensures ListsRows(ReadBlueprint(collate, participants, table), table, collate)
  {
    var frozen := FreezeAll(collate, table, table.keys);
    FrozenRows(collate, table);
    SortedByIds(frozen, collate);
    RowsStay(frozen, Sort(frozen, (a: Resolved, b: Resolved) => collate(a.id, b.id)), table, collate);
  }

  lemma RowsStay(a: seq<Resolved>, b: seq<Resolved>, table: Table, collate: Collation)
    requires HoldsRows(a, table, collate) && IdsDiffer(b) && forall q :: q in b <==> q in a
    ensures HoldsRows(b, table, collate)
  {
    forall id ensures id in table.rows <==> exists q :: q in b && q.id == id {
      if id in table.rows {
        var q :| q in a && q.id == id;
        assert q in b;
      }
    }
  }

  lemma FrozenRows(collate: Collation, table: Table)
    requires IsTotalOrder(collate) && WellFormed(table)
    ensures HoldsRows(FreezeAll(collate, table, table.keys), table, collate)
  {
    var frozen := FreezeAll(collate, table, table.keys);
    FrozenIds(collate, table, table.keys);
    FrozenAre(collate, table, table.keys);
    forall q | q in frozen ensures RowListed(table, q) && SourcesInOrder(q.row.sources, collate) {
      FrozenListed(collate, table, q);
    }
    forall id | id in table.rows ensures exists q :: q in frozen && q.id == id {
      assert Resolved(id, Freeze(collate, table.rows[id])) in frozen;
    }
  }

  lemma RequiredListed(b: Blueprint, table: Table, kind: Kind, collate: Collation)
    requires IsTotalOrder(collate) && ListsRows(b, table, collate)
    ensures ListsRequired(RequiredOfKind(b.requirements, kind), b, kind, collate)
  {
    RequiredInOrder(b.requirements, kind, collate);
    RequiredOfKindAre(b.requirements, kind);
  }

  lemma EdgesListed(b: Blueprint, collate: Collation)
    requires IsTotalOrder(collate) && IdsDiffer(b.requirements) && ListsRequired(b.requiredModules, b, Module, collate)
    requires forall q :: q in b.requirements ==> Distinct(q.row.dependsOn)
    requires b.dependencyEdges == Sort(EdgesOf(b.requirements), (a: (string, string), b: (string, string)) => PairLe(collate, a, b))
    ensures ListsEdges(b, collate)
  {
    var le := (a: (string, string), b: (string, string)) => PairLe(collate, a, b);
    PairsOrdered(collate);
    EdgesOfAre(b.requirements);
    EdgesOfDiffer(b.requirements);
    SortKeepsElements(EdgesOf(b.requirements), le);
    SortKeepsDifferent(EdgesOf(b.requirements), le);
    SortSorts(EdgesOf(b.requirements), le);
    forall v, w ensures (v, w) in b.dependencyEdges <==> v in b.requiredModules && exists q :: q in b.requirements && q.id == v && w in q.row.dependsOn {
      EdgeListed(b, v, w);
    }
  }

  lemma EdgeListed(b: Blueprint, v: string, w: string)
    requires IdsDiffer(b.requirements)
    requires forall id :: id in b.requiredModules <==> exists q :: q in b.requirements && q.id == id && q.row.kind.Module? && q.row.required
    ensures (exists q :: q in b.requirements && GivesEdge(q, (v, w))) <==>
            v in b.requiredModules && exists q :: q in b.requirements && q.id == v && w in q.row.dependsOn
  {
    if v in b.requiredModules && exists q :: q in b.requirements && q.id == v && w in q.row.dependsOn {
      var p :| p in b.requirements && p.id == v && p.row.kind.Module? && p.row.required;
      var q :| q in b.requirements && q.id == v && w in q.row.dependsOn;
      OneForId(b.requirements, p, q);
      assert GivesEdge(q, (v, w));
    }
  }

  lemma OneForId(requirements: seq<Resolved>, p: Resolved, q: Resolved)
    requires IdsDiffer(requirements) && p in requirements && q in requirements && p.id == q.id
    ensures p == q
  {
    var i :| 0 <= i < |requirements| && requirements[i] == p;
    var j :| 0 <= j < |requirements| && requirements[j] == q;
  }

  ghost predicate Lists(b: Blueprint, participants: seq<Template>, table: Table, collate: Collation) {
    && ListsTemplates(b, participants) && ListsRows(b, table, collate)
    && ListsRequired(b.requiredModules, b, Module, collate) && ListsRequired(b.requiredGates, b, Gate, collate)
    && ListsEdges(b, collate) && RationaleInOrder(b.rationale, collate)
  }

  lemma ReadingLists(collate: Collation, participants: seq<Template>, table: Table)
    requires IsTotalOrder(collate) && WellFormed(table)
    ensures Lists(ReadBlueprint(collate, participants, table), participants, table, collate)
  {
    var b := ReadBlueprint(collate, participants, table);
    RowsListed(collate, participants, table);
    RequiredListed(b, table, Module, collate);
    RequiredListed(b, table, Gate, collate);
    EdgesListed(b, collate);
    RationaleSorted(RationaleOf(b.requirements), collate);
  }

  /** What every successful resolution lists. */
  lemma BlueprintLists(env: Env, profile: Profile, templates: seq<Template>, additions: seq<Requirement>, b: Blueprint)
    requires IsTotalOrder(env.collate) && ResolvesTo(env, profile, templates, additions, b)
    ensures var participants := Participants(env, profile, templates, additions);
            Lists(b, participants, Assemble(env.collate, participants).table, env.collate)
  {
    ResolvedIsRead(env, profile, templates, additions, b);
    var participants := Participants(env, profile, templates, additions);
    AssembleIsWellFormed(env.collate, participants);
    ReadingLists(env.collate, participants, Assemble(env.collate, participants).table);
  }

  lemma ResolvedIsRead(env: Env, profile: Profile, templates: seq<Template>, additions: seq<Requirement>, b: Blueprint)
    requires ResolvesTo(env, profile, templates, additions, b)
    ensures var participants := Participants(env, profile, templates, additions);
            WellFormed(Assemble(env.collate, participants).table) && b == ReadBlueprint(env.collate, participants, Assemble(env.collate, participants).table)
  {
    AssembleIsWellFormed(env.collate, Participants(env, profile, templates, additions));
  }

  // ---------------------------------------------------------------- what a refusal says

  /** What a conflict of a refused resolution says is so. */
  ghost predicate IsTrue(c: Conflict, inputs: seq<Input>) {
    var merged, closed := MergeAll(inputs).table, DependencyClosure(MergeAll(inputs)).table;
    match c.kind
    case IncompatibleValue => IsReal(inputs, c)
    case MissingDependency => |c.values| == 1 && Reports(c, c.targetId, c.values[0]) && Dangles(merged, NeededModules(merged), c.targetId, c.values[0])
    case DependencyCycle => Cycles.Genuine(Cycles.RequiredGraph(closed), c)
  }

  /**
   Every conflict of a refused resolution is there for a reason: two inputs with the values it
   lists, a needed module with a dependency that is no module, or a cycle of required modules.
   */
  lemma RefusalIsTrue(env: Env, participants: seq<Template>)
    requires ResolveParticipants(env, participants).Conflicted?
    ensures ResolveParticipants(env, participants).conflicts != []
    ensures forall c :: c in ResolveParticipants(env, participants).conflicts ==> IsTrue(c, Inputs(env.collate, participants))
    ensures IsTotalOrder(env.collate) ==> ConflictsInOrder(ResolveParticipants(env, participants).conflicts, env.collate)
  {
    var inputs := Inputs(env.collate, participants);
    var end := Assemble(env.collate, participants);
    if IsTotalOrder(env.collate) {
      ConflictsSorted(env, end.conflicts);
    }
    SortKeepsElements(end.conflicts, (a: Conflict, b: Conflict) => ConflictLe(env, a, b));
    forall c | c in end.conflicts ensures IsTrue(c, inputs) {
      FoundIsTrue(inputs, c);
    }
  }

  /** By their target, and for one target by their field. */
  ghost predicate ConflictsInOrder(conflicts: seq<Conflict>, collate: Collation) {
    forall i, j :: 0 <= i < j < |conflicts| ==>
      && collate(conflicts[i].targetId, conflicts[j].targetId)
      && (conflicts[i].targetId == conflicts[j].targetId ==> collate(conflicts[i].field, conflicts[j].field))
  }

  lemma ConflictsSorted(env: Env, conflicts: seq<Conflict>)
    requires IsTotalOrder(env.collate)
    ensures ConflictsInOrder(Sort(conflicts, (a: Conflict, b: Conflict) => ConflictLe(env, a, b)), env.collate)
  {
    var le := (a: Conflict, b: Conflict) => ConflictLe(env, a, b);
    var sorted := Sort(conflicts, le);
    assert IsTotalPreorder(le);
    SortSorts(conflicts, le);
    forall i, j | 0 <= i < j < |sorted|
      ensures env.collate(sorted[i].targetId, sorted[j].targetId)
      ensures sorted[i].targetId == sorted[j].targetId ==> env.collate(sorted[i].field, sorted[j].field)
    {
      assert le(sorted[i], sorted[j]);
    }
  }

  lemma FoundIsTrue(inputs: seq<Input>, c: Conflict)
    requires c in DependencyClosure(MergeAll(inputs)).conflicts + Cycles.CycleConflicts(DependencyClosure(MergeAll(inputs)).table)
    ensures IsTrue(c, inputs)
  {
    var merged, closed := MergeAll(inputs), DependencyClosure(MergeAll(inputs));
    ClosedFacts(inputs);
    if c in Cycles.CycleConflicts(closed.table) {
      Cycles.CyclesAreFound(closed.table);
    } else {
      ConflictsAreReal(inputs);
      ClosureMeans(merged);
      var n := |merged.conflicts|;
      assert closed.conflicts == closed.conflicts[..n] + closed.conflicts[n..];
    }
  }

  // ---------------------------------------------------------------- which templates take part

  /** The profile has the field, as the one text, or with it among its texts. */
  ghost predicate Holds(profile: Profile, condition: Condition) {
    && condition.field in profile.fields
    && (condition.operator.Equals? ==> profile.fields[condition.field] == Text(condition.value))
    && (condition.operator.Includes? ==>
          profile.fields[condition.field].Texts? && exists text :: text in profile.fields[condition.field].texts && text == condition.value)
  }

  /** Unconditional, or every condition holds. */
  ghost predicate Applies(profile: Profile, t: Template) {
    t.activation.None? || forall condition :: condition in t.activation.value.all ==> Holds(profile, condition)
  }

  lemma AppliesExactly(profile: Profile, t: Template)
    ensures IsActive(profile, t) <==> Applies(profile, t)
  {
    if t.activation.Some? {
      var all := t.activation.value.all;
      forall k | 0 <= k < |all| ensures ConditionMatches(profile, all[k]) <==> Holds(profile, all[k]) {
        ConditionHolds(profile, all[k]);
      }
      if Applies(profile, t) {
        forall k | 0 <= k < |all| ensures ConditionMatches(profile, all[k]) {
          assert all[k] in all;
        }
      }
    }
  }

  lemma ConditionHolds(profile: Profile, condition: Condition)
    ensures ConditionMatches(profile, condition) <==> Holds(profile, condition)
  {
  }

  /** A letter, a digit or one of `._:-`. */
  ghost predicate MayStay(c: char) {
    'a' <= c <= 'z' || 'A' <= c <= 'Z' || '0' <= c <= '9' || c == '.' || c == '_' || c == ':' || c == '-'
  }

  /**
   The project's own requirements form one unconditional template of the last layer, named after
   the project with every other character replaced by a hyphen; without any there is none.
   */
  lemma AdditionsAre(profile: Profile, additions: seq<Requirement>)
    ensures var added := Additions(profile, additions);
      && |added| == (if additions == [] then 0 else 1)
      && forall t :: t in added ==>
           && t.requirements == additions && t.layer.ProjectAddition? && t.activation.None?
           && t.version == Version(1, 0, 0, "", "1.0.0")
           && exists name :: t.id == "template:project-addition:" + name && |name| == |profile.projectId|
                && forall k :: 0 <= k < |name| ==> name[k] == if MayStay(profile.projectId[k]) then profile.projectId[k] else '-'
  {
    var name := Hyphenated(profile.projectId);
    forall k | 0 <= k < |name| ensures name[k] == if MayStay(profile.projectId[k]) then profile.projectId[k] else '-' {
    }
  }

  lemma {:induction false} ActiveInOrder(profile: Profile, templates: seq<Template>, le: Order<Template>)
    requires IsSorted(templates, le)
    ensures IsSorted(Active(profile, templates), le)
  {
    if templates != [] {
      ActiveInOrder(profile, templates[1..], le);
      ActiveAre(profile, templates[1..]);
      forall t | t in Active(profile, templates[1..]) ensures le(templates[0], t) {
        var k :| 0 <= k < |templates[1..]| && templates[1..][k] == t;
        assert templates[k + 1] == t;
      }
    }
  }

  /** In the order of authority; within a layer by id, and of one id the older version first. */
  ghost predicate Follows(a: Template, b: Template, collate: Collation) {
    && a.layer.Rank() <= b.layer.Rank()
    && (a.layer == b.layer ==> collate(a.id, b.id))
    && (a.layer == b.layer && a.id == b.id ==> !Older(b.version, a.version, collate))
  }

  ghost predicate InAuthorityOrder(templates: seq<Template>, collate: Collation) {
    forall i, j :: 0 <= i < j < |templates| ==> Follows(templates[i], templates[j], collate)
  }

  lemma SortedByAuthority(templates: seq<Template>, collate: Collation)
    requires IsTotalOrder(collate) && IsSorted(templates, TemplateOrder(collate))
    ensures InAuthorityOrder(templates, collate)
  {
    var le := TemplateOrder(collate);
    forall i, j | 0 <= i < j < |templates| ensures Follows(templates[i], templates[j], collate) {
      assert le(templates[i], templates[j]);
      LaterFollows(collate, templates[i], templates[j]);
    }
  }

  lemma LaterFollows(collate: Collation, a: Template, b: Template)
    requires IsTotalOrder(collate) && TemplateLe(collate, a, b)
    ensures Follows(a, b, collate)
  {
    if a.layer == b.layer && a.id == b.id {
      OldestFirst(collate, a.version, b.version);
    }
  }

  /** Exactly the templates that apply take part, the project's own additions among them, in the order of authority. */
  lemma ParticipantsExactly(env: Env, profile: Profile, templates: seq<Template>, additions: seq<Requirement>)
    requires IsTotalOrder(env.collate)
    ensures var participants := Participants(env, profile, templates, additions);
      && InAuthorityOrder(participants, env.collate)
      && forall t :: t in participants <==> (t in templates || t in Additions(profile, additions)) && Applies(profile, t)
  {
    var le := TemplateOrder(env.collate);
    var supplied := Supplied(env, profile, templates, additions);
    TemplateOrderIsTotal(env.collate);
    SortSorts(templates + Additions(profile, additions), le);
    SortKeepsElements(templates + Additions(profile, additions), le);
    ActiveInOrder(profile, supplied, le);
    SortedByAuthority(Active(profile, supplied), env.collate);
    ActiveAre(profile, supplied);
    forall t ensures IsActive(profile, t) <==> Applies(profile, t) {
      AppliesExactly(profile, t);
    }
  }
}
