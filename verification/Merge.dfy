/**
 Merging template requirements into one table. The merge keeps the first kind and the
 first constraint it meets and reports what disagrees; its result nevertheless depends
 only on which requirements were merged, not on their order.
 */
module Merge {
  import opened Wrappers
  import opened Ordering
  import opened Templates
  import opened Sets
  import opened Text
  import opened Bags

  datatype Source = Source(sourceId: string, layer: Layer, version: Version, reason: string)

  /** A requirement being assembled. Tags and dependencies are sets kept in insertion order. */
  datatype Row = Row(
    kind: Kind, required: bool, depth: Depth, tags: seq<string>, dependsOn: seq<string>,
    constraint: Option<string>, sources: seq<Source>)

  /** A map with its keys in insertion order. */
  datatype Table = Table(keys: seq<string>, rows: map<string, Row>)

  datatype ConflictKind = IncompatibleValue | MissingDependency | DependencyCycle

  datatype Conflict = Conflict(kind: ConflictKind, targetId: string, field: string, sources: seq<string>, values: seq<string>)

  /** The two lists are stored sorted. */
  function MakeConflict(kind: ConflictKind, targetId: string, field: string, sources: seq<string>,
                        values: seq<string>): Conflict {
    Conflict(kind, targetId, field, Sort(sources, ByCodeUnit), Sort(values, ByCodeUnit))
  }

  datatype State = State(table: Table, conflicts: seq<Conflict>)

  const EMPTY := State(Table([], map[]), [])

  // ---------------------------------------------------------------- one requirement

  function MaxDepth(current: Depth, incoming: Depth): Depth {
    if incoming.Rank() > current.Rank() then incoming else current
  }

  function SourceIds(sources: seq<Source>): (ids: seq<string>)
    ensures |ids| == |sources|
  {
    seq(|sources|, i requires 0 <= i < |sources| => sources[i].sourceId)
  }

  /** A requirement's own description, or where it comes from. */
  function ReasonFor(template: Template, r: Requirement): string {
    if r.description.Some? && !IsBlank(r.description.value) then Trim(r.description.value)
    else template.layer.Name() + " requirement from " + template.id + "@" + template.version.text
  }

  function SourceOf(template: Template, r: Requirement): Source {
    Source(template.id, template.layer, template.version, ReasonFor(template, r))
  }

  function FirstRow(template: Template, r: Requirement): Row {
    Row(r.kind, r.IsRequired(), r.DepthOrBasic(), AddAll([], r.tags), AddAll([], r.dependsOn), r.constraint, [SourceOf(template, r)])
  }

  function MergedRow(row: Row, template: Template, r: Requirement): Row {
    row.(
      required := row.required || r.IsRequired(),
      depth := MaxDepth(row.depth, r.DepthOrBasic()),
      tags := AddAll(row.tags, r.tags),
      dependsOn := AddAll(row.dependsOn, r.dependsOn),
      constraint := if row.constraint.None? then r.constraint else row.constraint,
      sources := row.sources + [SourceOf(template, r)])
  }

  predicate ConstraintsClash(a: Option<string>, b: Option<string>) {
    a.Some? && b.Some? && a.value != b.value
  }

  function MergeOne(state: State, template: Template, r: Requirement): State {
    var table := state.table;
    if r.id !in table.rows then
      State(Table(table.keys + [r.id], table.rows[r.id := FirstRow(template, r)]), state.conflicts)
    else
      var row := table.rows[r.id];
      var sources := SourceIds(row.sources) + [template.id];
      if row.kind != r.kind then
        var clash := MakeConflict(IncompatibleValue, r.id, "kind", sources, [row.kind.Name(), r.kind.Name()]);
        State(table, state.conflicts + [clash])
      else
        var clashes :=
          if ConstraintsClash(row.constraint, r.constraint) then
            [MakeConflict(IncompatibleValue, r.id, "constraint", sources, [row.constraint.value, r.constraint.value])]
          else [];
        State(Table(table.keys, table.rows[r.id := MergedRow(row, template, r)]), state.conflicts + clashes)
  }

  // ---------------------------------------------------------------- all requirements, in order

  datatype Input = Input(template: Template, requirement: Requirement)

  /** A template's requirements in the order they are merged. */
  function InputsOf(collate: Collation, template: Template): seq<Input> {
    var sorted := Sort(template.requirements, RequirementOrder(collate));
    seq(|sorted|, i requires 0 <= i < |sorted| => Input(template, sorted[i]))
  }

  function Inputs(collate: Collation, templates: seq<Template>): seq<Input> {
    if templates == [] then []
    else Inputs(collate, templates[..|templates| - 1]) + InputsOf(collate, templates[|templates| - 1])
  }

  function MergeAll(inputs: seq<Input>): State {
    if inputs == [] then EMPTY
    else
      var last := inputs[|inputs| - 1];
      MergeOne(MergeAll(inputs[..|inputs| - 1]), last.template, last.requirement)
  }

  // ---------------------------------------------------------------- what the merge means

  predicate SameId(a: Input, b: Input) {
    a.requirement.id == b.requirement.id
  }

  /** Two inputs for one id agree: one kind, and no two different constraints. */
  predicate Agree(a: Input, b: Input) {
    SameId(a, b) ==>
      && a.requirement.kind == b.requirement.kind
      && !ConstraintsClash(a.requirement.constraint, b.requirement.constraint)
  }

  ghost predicate Compatible(inputs: seq<Input>) {
    forall a, b :: a in inputs && b in inputs ==> Agree(a, b)
  }

  ghost predicate ForId(inputs: seq<Input>, id: string, x: Input) {
    x in inputs && x.requirement.id == id
  }

  /** The sources of an id's inputs, in the order of the inputs. */
  function SourcesFor(inputs: seq<Input>, id: string): seq<Source> {
    if inputs == [] then []
    else
      var last := inputs[|inputs| - 1];
      SourcesFor(inputs[..|inputs| - 1], id)
      + if last.requirement.id == id then [SourceOf(last.template, last.requirement)] else []
  }

  /** The row of an id says of its inputs: the one kind, whether any requires it, the greatest depth, the unions, the sources. */
  ghost predicate Summarises(row: Row, inputs: seq<Input>, id: string) {
    && (forall x :: ForId(inputs, id, x) ==> x.requirement.kind == row.kind)
    && (row.required <==> exists x :: ForId(inputs, id, x) && x.requirement.IsRequired())
    && (forall x :: ForId(inputs, id, x) ==> x.requirement.DepthOrBasic().Rank() <= row.depth.Rank())
    && (exists x :: ForId(inputs, id, x) && x.requirement.DepthOrBasic() == row.depth)
    && (forall tag :: tag in row.tags <==> exists x :: ForId(inputs, id, x) && tag in x.requirement.tags)
    && (forall dep :: dep in row.dependsOn <==> exists x :: ForId(inputs, id, x) && dep in x.requirement.dependsOn)
    && (forall x :: ForId(inputs, id, x) && x.requirement.constraint.Some? ==> row.constraint == x.requirement.constraint)
    && (row.constraint.Some? ==> exists x :: ForId(inputs, id, x) && x.requirement.constraint == row.constraint)
    && row.sources == SourcesFor(inputs, id)
  }

  ghost predicate WellFormed(table: Table) {
    && Distinct(table.keys)
    && (forall id :: id in table.keys <==> id in table.rows)
    && (forall id :: id in table.rows ==> Distinct(table.rows[id].tags) && Distinct(table.rows[id].dependsOn))
  }

  /** The table holds exactly the ids of the inputs, each summarised. */
  ghost predicate Means(table: Table, inputs: seq<Input>) {
    && (forall id :: id in table.rows <==> exists x :: ForId(inputs, id, x))
    && (forall id :: id in table.rows ==> Summarises(table.rows[id], inputs, id))
  }

  lemma ForIdSnoc(inputs: seq<Input>, last: Input, id: string, x: Input)
    ensures ForId(inputs + [last], id, x) <==> ForId(inputs, id, x) || (x == last && last.requirement.id == id)
  {
  }

  lemma SourcesSnoc(inputs: seq<Input>, last: Input, id: string)
    ensures SourcesFor(inputs + [last], id)
            == SourcesFor(inputs, id) + if last.requirement.id == id then [SourceOf(last.template, last.requirement)] else []
  {
    assert (inputs + [last])[..|inputs|] == inputs;
  }

  /** The sources are those of the inputs for the id. */
  lemma {:induction false} SourcesAre(inputs: seq<Input>, id: string)
    ensures forall s :: s in SourcesFor(inputs, id) <==>
              exists x :: ForId(inputs, id, x) && s == SourceOf(x.template, x.requirement)
  {
    if inputs != [] {
      var rest, last := inputs[..|inputs| - 1], inputs[|inputs| - 1];
      SourcesAre(rest, id);
      assert inputs == rest + [last];
      forall s ensures s in SourcesFor(inputs, id) <==> exists x :: ForId(inputs, id, x) && s == SourceOf(x.template, x.requirement) {
        if s in SourcesFor(rest, id) {
          var x :| ForId(rest, id, x) && s == SourceOf(x.template, x.requirement);
          assert ForId(inputs, id, x);
        } else if s in SourcesFor(inputs, id) {
          assert ForId(inputs, id, last);
        }
        if x :| ForId(inputs, id, x) && s == SourceOf(x.template, x.requirement) {
          ForIdSnoc(rest, last, id, x);
          assert x != last ==> ForId(rest, id, x);
        }
      }
    }
  }

  lemma FirstRowSummarises(inputs: seq<Input>, last: Input)
    requires forall x :: !ForId(inputs, last.requirement.id, x)
    ensures Summarises(FirstRow(last.template, last.requirement), inputs + [last], last.requirement.id)
  {
    var id := last.requirement.id;
    var all := inputs + [last];
    SourcesSnoc(inputs, last, id);
    NoSourcesYet(inputs, id);
    forall x ensures ForId(all, id, x) <==> x == last {
      ForIdSnoc(inputs, last, id, x);
    }
    OnlyInputSummarised(all, last);
  }

  lemma OnlyInputSummarised(inputs: seq<Input>, only: Input)
    requires forall x :: ForId(inputs, only.requirement.id, x) <==> x == only
    requires SourcesFor(inputs, only.requirement.id) == [SourceOf(only.template, only.requirement)]
    ensures Summarises(FirstRow(only.template, only.requirement), inputs, only.requirement.id)
  {
    AddAllMeans([], only.requirement.tags);
    AddAllMeans([], only.requirement.dependsOn);
    assert ForId(inputs, only.requirement.id, only);
  }

  lemma {:induction false} NoSourcesYet(inputs: seq<Input>, id: string)
    requires forall x :: !ForId(inputs, id, x)
    ensures SourcesFor(inputs, id) == []
  {
    if inputs != [] {
      var rest, last := inputs[..|inputs| - 1], inputs[|inputs| - 1];
      assert inputs == rest + [last];
      assert !ForId(inputs, id, last);
      forall x ensures !ForId(rest, id, x) {
        ForIdSnoc(rest, last, id, x);
      }
      NoSourcesYet(rest, id);
    }
  }

  lemma MergedRowSummarises(row: Row, inputs: seq<Input>, last: Input)
    requires Summarises(row, inputs, last.requirement.id)
    requires row.kind == last.requirement.kind && !ConstraintsClash(row.constraint, last.requirement.constraint)
    ensures Summarises(MergedRow(row, last.template, last.requirement), inputs + [last], last.requirement.id)
  {
    var id := last.requirement.id;
    var all := inputs + [last];
    var merged := MergedRow(row, last.template, last.requirement);
    AddAllMeans(row.tags, last.requirement.tags);
    AddAllMeans(row.dependsOn, last.requirement.dependsOn);
    SourcesSnoc(inputs, last, id);
    forall x ensures ForId(all, id, x) <==> ForId(inputs, id, x) || x == last {
      ForIdSnoc(inputs, last, id, x);
    }
    assert ForId(all, id, last);
    assert exists x :: ForId(all, id, x) && x.requirement.DepthOrBasic() == merged.depth by {
      var x :| ForId(inputs, id, x) && x.requirement.DepthOrBasic() == row.depth;
      assert ForId(all, id, x);
    }
    assert merged.constraint.Some? ==> exists x :: ForId(all, id, x) && x.requirement.constraint == merged.constraint by {
      if row.constraint.Some? {
        var x :| ForId(inputs, id, x) && x.requirement.constraint == row.constraint;
        assert ForId(all, id, x);
      }
    }
  }

  lemma OtherRowSummarises(row: Row, inputs: seq<Input>, last: Input, id: string)
    requires Summarises(row, inputs, id) && id != last.requirement.id
    ensures Summarises(row, inputs + [last], id)
  {
    SourcesSnoc(inputs, last, id);
    forall x ensures ForId(inputs + [last], id, x) <==> ForId(inputs, id, x) {
      ForIdSnoc(inputs, last, id, x);
    }
  }

  /** A further input agrees with all before it exactly when it agrees with their summary. */
  lemma AgreesWithSummary(row: Row, inputs: seq<Input>, last: Input)
    requires Compatible(inputs) && Summarises(row, inputs, last.requirement.id)
    ensures Compatible(inputs + [last]) <==>
              row.kind == last.requirement.kind && !ConstraintsClash(row.constraint, last.requirement.constraint)
  {
    var id := last.requirement.id;
    var all := inputs + [last];
    assert last in all;
    if Compatible(all) {
      var x :| ForId(inputs, id, x) && x.requirement.DepthOrBasic() == row.depth;
      assert x in all && Agree(x, last);
      if row.constraint.Some? {
        var y :| ForId(inputs, id, y) && y.requirement.constraint == row.constraint;
        assert y in all && Agree(y, last);
      }
    }
    if row.kind == last.requirement.kind && !ConstraintsClash(row.constraint, last.requirement.constraint) {
      forall a, b | a in all && b in all ensures Agree(a, b) {
        if a in inputs && b in inputs {
        } else if a in inputs && a.requirement.id == id {
          assert ForId(inputs, id, a);
        } else if b in inputs && b.requirement.id == id {
          assert ForId(inputs, id, b);
        }
      }
    }
  }

  lemma CompatiblePrefix(inputs: seq<Input>, last: Input)
    requires Compatible(inputs + [last])
    ensures Compatible(inputs)
  {
    forall a, b | a in inputs && b in inputs ensures Agree(a, b) {
      assert a in inputs + [last] && b in inputs + [last];
    }
  }

  /** A conflict arises exactly when some id has two kinds or two different constraints. */
  lemma {:induction false} MergeMeans(inputs: seq<Input>)
    ensures WellFormed(MergeAll(inputs).table)
    ensures MergeAll(inputs).conflicts == [] <==> Compatible(inputs)
    ensures Compatible(inputs) ==> Means(MergeAll(inputs).table, inputs)
  {
    if inputs != [] {
      var last := inputs[|inputs| - 1];
      var before := inputs[..|inputs| - 1];
      assert inputs == before + [last];
      MergeMeans(before);
      MergeKeepsForm(MergeAll(before), last.template, last.requirement);
      if Compatible(inputs) {
        CompatiblePrefix(before, last);
      }
      if Compatible(before) {
        MergeStep(before, last);
      }
    }
  }

  lemma MergeKeepsForm(state: State, template: Template, r: Requirement)
    requires WellFormed(state.table)
    ensures WellFormed(MergeOne(state, template, r).table)
    ensures |MergeOne(state, template, r).conflicts| >= |state.conflicts|
  {
    AddAllMeans([], r.tags);
    AddAllMeans([], r.dependsOn);
    if r.id in state.table.rows {
      AddAllMeans(state.table.rows[r.id].tags, r.tags);
      AddAllMeans(state.table.rows[r.id].dependsOn, r.dependsOn);
    }
  }

  lemma MergeStep(before: seq<Input>, last: Input)
    requires Compatible(before) && Means(MergeAll(before).table, before)
    requires MergeAll(before).conflicts == []
    ensures var state := MergeOne(MergeAll(before), last.template, last.requirement);
            && (state.conflicts == [] <==> Compatible(before + [last]))
            && (Compatible(before + [last]) ==> Means(state.table, before + [last]))
  {
    var id := last.requirement.id;
    var all := before + [last];
    var state := MergeAll(before);
    var merged := MergeOne(state, last.template, last.requirement);
    if id in state.table.rows {
      AgreesWithSummary(state.table.rows[id], before, last);
    } else {
      forall a, b | a in all && b in all ensures Agree(a, b) {
        assert !ForId(before, id, a) && !ForId(before, id, b);
      }
    }
    if Compatible(all) {
      forall other ensures other in merged.table.rows <==> exists x :: ForId(all, other, x) {
        IdsAfter(before, last, other);
      }
      forall other | other in merged.table.rows ensures Summarises(merged.table.rows[other], all, other) {
        if other != id {
          OtherRowSummarises(state.table.rows[other], before, last, other);
        } else if id in state.table.rows {
          MergedRowSummarises(state.table.rows[id], before, last);
        } else {
          FirstRowSummarises(before, last);
        }
      }
    }
  }

  lemma IdsAfter(before: seq<Input>, last: Input, id: string)
    ensures (exists x :: ForId(before + [last], id, x)) <==> (exists x :: ForId(before, id, x)) || last.requirement.id == id
  {
    var all := before + [last];
    if last.requirement.id == id {
      assert ForId(all, id, last);
    }
    if x :| ForId(before, id, x) {
      assert ForId(all, id, x);
    }
    if x :| ForId(all, id, x) {
      ForIdSnoc(before, last, id, x);
    }
  }

  // ---------------------------------------------------------------- which ids are reported

  function Only(inputs: seq<Input>, id: string): seq<Input> {
    if inputs == [] then []
    else
      var last := inputs[|inputs| - 1];
      Only(inputs[..|inputs| - 1], id) + if last.requirement.id == id then [last] else []
  }

  function ConflictsAt(conflicts: seq<Conflict>, id: string): seq<Conflict> {
    if conflicts == [] then []
    else
      var last := conflicts[|conflicts| - 1];
      ConflictsAt(conflicts[..|conflicts| - 1], id) + if last.targetId == id then [last] else []
  }

  lemma {:induction false} OnlyMeans(inputs: seq<Input>, id: string)
    ensures forall x :: x in Only(inputs, id) <==> ForId(inputs, id, x)
  {
    if inputs != [] {
      var rest, last := inputs[..|inputs| - 1], inputs[|inputs| - 1];
      OnlyMeans(rest, id);
      assert inputs == rest + [last];
      forall x ensures x in Only(inputs, id) <==> ForId(inputs, id, x) {
        ForIdSnoc(rest, last, id, x);
      }
    }
  }

  lemma {:induction false} ConflictsAtMeans(conflicts: seq<Conflict>, id: string)
    ensures ConflictsAt(conflicts, id) != [] <==> exists c :: c in conflicts && c.targetId == id
  {
    if conflicts != [] {
      var rest, last := conflicts[..|conflicts| - 1], conflicts[|conflicts| - 1];
      ConflictsAtMeans(rest, id);
      assert conflicts == rest + [last];
    }
  }

  /** A step reports at most its own id, as a value conflict. */
  lemma StepReports(state: State, template: Template, r: Requirement, id: string)
    ensures var after := MergeOne(state, template, r).conflicts;
            && (after == state.conflicts || exists c: Conflict :: after == state.conflicts + [c] && c.kind.IncompatibleValue? && c.targetId == r.id)
            && (r.id != id ==> ConflictsAt(after, id) == ConflictsAt(state.conflicts, id))
  {
    var after := MergeOne(state, template, r).conflicts;
    if after != state.conflicts {
      assert after[..|after| - 1] == state.conflicts;
    }
  }

  /** Merging for one id is not touched by the inputs for others. */
  ghost predicate AlikeAt(all: State, alone: State, id: string) {
    && (id in all.table.rows <==> id in alone.table.rows)
    && (id in all.table.rows ==> all.table.rows[id] == alone.table.rows[id])
    && ConflictsAt(all.conflicts, id) == alone.conflicts
  }

  lemma StepAlike(all: State, alone: State, template: Template, r: Requirement)
    requires AlikeAt(all, alone, r.id)
    ensures AlikeAt(MergeOne(all, template, r), MergeOne(alone, template, r), r.id)
  {
    var after := MergeOne(all, template, r).conflicts;
    if after != all.conflicts {
      assert after[..|after| - 1] == all.conflicts;
    }
  }

  lemma {:induction false} MergedAlone(inputs: seq<Input>, id: string)
    ensures AlikeAt(MergeAll(inputs), MergeAll(Only(inputs, id)), id)
  {
    if inputs != [] {
      var rest, last := inputs[..|inputs| - 1], inputs[|inputs| - 1];
      MergedAlone(rest, id);
      if last.requirement.id == id {
        assert Only(inputs, id)[..|Only(inputs, id)| - 1] == Only(rest, id);
        StepAlike(MergeAll(rest), MergeAll(Only(rest, id)), last.template, last.requirement);
      } else {
        StepReports(MergeAll(rest), last.template, last.requirement, id);
        assert Only(inputs, id) == Only(rest, id);
      }
    }
  }

  lemma {:induction false} OnlyValueConflicts(inputs: seq<Input>)
    ensures forall c :: c in MergeAll(inputs).conflicts ==> c.kind.IncompatibleValue?
  {
    if inputs != [] {
      var rest, last := inputs[..|inputs| - 1], inputs[|inputs| - 1];
      OnlyValueConflicts(rest);
      StepReports(MergeAll(rest), last.template, last.requirement, last.requirement.id);
    }
  }

  /** Two inputs for the id disagree. */
  ghost predicate Clashes(inputs: seq<Input>, id: string) {
    exists a, b :: ForId(inputs, id, a) && ForId(inputs, id, b) && !Agree(a, b)
  }

  /** The ids reported are exactly those whose inputs clash. */
  lemma ClashesAreReported(inputs: seq<Input>, id: string)
    ensures (exists c :: c in MergeAll(inputs).conflicts && c.targetId == id) <==> Clashes(inputs, id)
    ensures forall c :: c in MergeAll(inputs).conflicts ==> c.kind.IncompatibleValue?
  {
    OnlyValueConflicts(inputs);
    MergedAlone(inputs, id);
    ConflictsAtMeans(MergeAll(inputs).conflicts, id);
    MergeMeans(Only(inputs, id));
    OnlyMeans(inputs, id);
    AloneClashes(inputs, id);
  }

  lemma AloneClashes(inputs: seq<Input>, id: string)
    requires forall x :: x in Only(inputs, id) <==> ForId(inputs, id, x)
    ensures Compatible(Only(inputs, id)) <==> !Clashes(inputs, id)
  {
    var alone := Only(inputs, id);
    if !Compatible(alone) {
      var a, b :| a in alone && b in alone && !Agree(a, b);
      assert ForId(inputs, id, a) && ForId(inputs, id, b);
    }
    if Clashes(inputs, id) {
      var a, b :| ForId(inputs, id, a) && ForId(inputs, id, b) && !Agree(a, b);
      assert a in alone && b in alone;
    }
  }

  // ---------------------------------------------------------------- what a conflict says

  /** The row took its kind from an input for the id, its constraint from one of that kind, and its sources from such inputs. */
  ghost predicate Rooted(row: Row, inputs: seq<Input>, id: string) {
    && (exists x :: ForId(inputs, id, x) && x.requirement.kind == row.kind)
    && (row.constraint.Some? ==> exists x :: ForId(inputs, id, x) && x.requirement.kind == row.kind && x.requirement.constraint == row.constraint)
    && forall s :: s in row.sources ==> IsSource(inputs, id, s.sourceId)
  }

  ghost predicate IsSource(inputs: seq<Input>, id: string, templateId: string) {
    exists x :: ForId(inputs, id, x) && x.template.id == templateId
  }

  /** Two inputs for the id are of these kinds. */
  ghost predicate KindsClash(inputs: seq<Input>, id: string, values: seq<string>) {
    exists x, y :: ForId(inputs, id, x) && ForId(inputs, id, y) && x.requirement.kind != y.requirement.kind
      && values == Sort([x.requirement.kind.Name(), y.requirement.kind.Name()], ByCodeUnit)
  }

  /** Two inputs for the id, of one kind, have these constraints. */
  ghost predicate ValuesClash(inputs: seq<Input>, id: string, values: seq<string>) {
    exists x, y :: ForId(inputs, id, x) && ForId(inputs, id, y) && x.requirement.kind == y.requirement.kind
      && ConstraintsClash(x.requirement.constraint, y.requirement.constraint)
      && values == Sort([x.requirement.constraint.value, y.requirement.constraint.value], ByCodeUnit)
  }

  /** What a conflict says is so: the field, the two values, and the templates they come from. */
  ghost predicate IsReal(inputs: seq<Input>, c: Conflict) {
    && c.kind.IncompatibleValue? && c.field in {"kind", "constraint"}
    && (c.field == "kind" ==> KindsClash(inputs, c.targetId, c.values))
    && (c.field == "constraint" ==> ValuesClash(inputs, c.targetId, c.values))
    && |c.sources| >= 2 && forall s :: s in c.sources ==> IsSource(inputs, c.targetId, s)
  }

  lemma RootedStays(row: Row, inputs: seq<Input>, last: Input, id: string)
    requires Rooted(row, inputs, id)
    ensures Rooted(row, inputs + [last], id)
  {
    forall x | ForId(inputs, id, x) ensures ForId(inputs + [last], id, x) {
    }
    forall s | s in row.sources ensures IsSource(inputs + [last], id, s.sourceId) {
      var x :| ForId(inputs, id, x) && x.template.id == s.sourceId;
      assert ForId(inputs + [last], id, x);
    }
  }

  lemma RealStays(inputs: seq<Input>, last: Input, c: Conflict)
    requires IsReal(inputs, c)
    ensures IsReal(inputs + [last], c)
  {
    forall x | ForId(inputs, c.targetId, x) ensures ForId(inputs + [last], c.targetId, x) {
    }
    forall s | s in c.sources ensures IsSource(inputs + [last], c.targetId, s) {
      var x :| ForId(inputs, c.targetId, x) && x.template.id == s;
      assert ForId(inputs + [last], c.targetId, x);
    }
  }

  lemma FirstRooted(inputs: seq<Input>, last: Input)
    ensures Rooted(FirstRow(last.template, last.requirement), inputs + [last], last.requirement.id)
  {
    assert ForId(inputs + [last], last.requirement.id, last);
  }

  lemma MergedRooted(row: Row, inputs: seq<Input>, last: Input)
    requires Rooted(row, inputs, last.requirement.id) && row.kind == last.requirement.kind
    ensures Rooted(MergedRow(row, last.template, last.requirement), inputs + [last], last.requirement.id)
  {
    RootedStays(row, inputs, last, last.requirement.id);
    assert ForId(inputs + [last], last.requirement.id, last);
  }

  lemma ListedSources(row: Row, inputs: seq<Input>, last: Input)
    requires Rooted(row, inputs, last.requirement.id) && row.sources != []
    ensures var listed := Sort(SourceIds(row.sources) + [last.template.id], ByCodeUnit);
            |listed| >= 2 && forall s :: s in listed ==> IsSource(inputs + [last], last.requirement.id, s)
  {
    var ids := SourceIds(row.sources) + [last.template.id];
    RootedStays(row, inputs, last, last.requirement.id);
    SortKeepsElements(ids, ByCodeUnit);
    forall s | s in ids ensures IsSource(inputs + [last], last.requirement.id, s) {
      if k :| 0 <= k < |row.sources| && row.sources[k].sourceId == s {
        assert row.sources[k] in row.sources;
      } else {
        assert ForId(inputs + [last], last.requirement.id, last) && s == last.template.id;
      }
    }
  }

  /** A kind that differs from the row's differs from that of an input. */
  lemma KindClashIsReal(row: Row, inputs: seq<Input>, last: Input)
    requires Rooted(row, inputs, last.requirement.id) && row.sources != [] && row.kind != last.requirement.kind
    ensures IsReal(inputs + [last], MakeConflict(IncompatibleValue, last.requirement.id, "kind", SourceIds(row.sources) + [last.template.id],
                                                 [row.kind.Name(), last.requirement.kind.Name()]))
  {
    ListedSources(row, inputs, last);
    var x :| ForId(inputs, last.requirement.id, x) && x.requirement.kind == row.kind;
    assert ForId(inputs + [last], last.requirement.id, x) && ForId(inputs + [last], last.requirement.id, last);
  }

  lemma ConstraintClashIsReal(row: Row, inputs: seq<Input>, last: Input)
    requires Rooted(row, inputs, last.requirement.id) && row.sources != [] && row.kind == last.requirement.kind
    requires ConstraintsClash(row.constraint, last.requirement.constraint)
    ensures IsReal(inputs + [last], MakeConflict(IncompatibleValue, last.requirement.id, "constraint", SourceIds(row.sources) + [last.template.id],
                                                 [row.constraint.value, last.requirement.constraint.value]))
  {
    ListedSources(row, inputs, last);
    var x :| ForId(inputs, last.requirement.id, x) && x.requirement.kind == row.kind && x.requirement.constraint == row.constraint;
    assert ForId(inputs + [last], last.requirement.id, x) && ForId(inputs + [last], last.requirement.id, last);
  }

  /** What holds of the merge of some inputs. */
  ghost predicate WellFounded(state: State, inputs: seq<Input>) {
    && (forall id :: id in state.table.rows ==> Rooted(state.table.rows[id], inputs, id) && state.table.rows[id].sources != [])
    && forall c :: c in state.conflicts ==> IsReal(inputs, c)
  }

  lemma StepIsWellFounded(state: State, inputs: seq<Input>, last: Input)
    requires WellFounded(state, inputs)
    ensures WellFounded(MergeOne(state, last.template, last.requirement), inputs + [last])
  {
    var id, after := last.requirement.id, MergeOne(state, last.template, last.requirement);
    forall other | other in after.table.rows ensures Rooted(after.table.rows[other], inputs + [last], other) && after.table.rows[other].sources != [] {
      if other != id || (id in state.table.rows && state.table.rows[id].kind != last.requirement.kind) {
        RootedStays(state.table.rows[other], inputs, last, other);
      } else if id in state.table.rows {
        MergedRooted(state.table.rows[id], inputs, last);
      } else {
        FirstRooted(inputs, last);
      }
    }
    forall c | c in state.conflicts ensures IsReal(inputs + [last], c) {
      RealStays(inputs, last, c);
    }
    if id in state.table.rows {
      if state.table.rows[id].kind != last.requirement.kind {
        KindClashIsReal(state.table.rows[id], inputs, last);
      } else if ConstraintsClash(state.table.rows[id].constraint, last.requirement.constraint) {
        ConstraintClashIsReal(state.table.rows[id], inputs, last);
      }
    }
  }

  /** Every conflict says what is so: two inputs for its id with the values it lists, and their templates. */
  lemma {:induction false} ConflictsAreReal(inputs: seq<Input>)
    ensures WellFounded(MergeAll(inputs), inputs)
  {
    if inputs != [] {
      var rest, last := inputs[..|inputs| - 1], inputs[|inputs| - 1];
      assert inputs == rest + [last];
      ConflictsAreReal(rest);
      StepIsWellFounded(MergeAll(rest), rest, last);
    }
  }

  // ---------------------------------------------------------------- order plays no part

  /** Two rows that hold the same things. */
  ghost predicate SameContent(a: Row, b: Row) {
    && a.kind == b.kind && a.required == b.required && a.depth == b.depth && a.constraint == b.constraint
    && (forall tag :: tag in a.tags <==> tag in b.tags)
    && (forall dep :: dep in a.dependsOn <==> dep in b.dependsOn)
    && (forall s :: s in a.sources <==> s in b.sources)
  }

  /** What a row must hold is settled by the set of inputs. */
  lemma SummaryIsUnique(a: Row, b: Row, inputs: seq<Input>, others: seq<Input>, id: string)
    requires Summarises(a, inputs, id) && Summarises(b, others, id)
    requires forall x :: x in inputs <==> x in others
    ensures SameContent(a, b)
  {
    forall x ensures ForId(inputs, id, x) <==> ForId(others, id, x) {
    }
    var x :| ForId(inputs, id, x) && x.requirement.DepthOrBasic() == a.depth;
    var y :| ForId(others, id, y) && y.requirement.DepthOrBasic() == b.depth;
    assert a.depth.Rank() == b.depth.Rank();
    SourcesAre(inputs, id);
    SourcesAre(others, id);
    assert a.constraint == b.constraint by {
      if a.constraint.Some? {
        var z :| ForId(inputs, id, z) && z.requirement.constraint == a.constraint;
        assert ForId(others, id, z);
      }
      if b.constraint.Some? {
        var z :| ForId(others, id, z) && z.requirement.constraint == b.constraint;
        assert ForId(inputs, id, z);
      }
    }
  }

  /** Merged in any order, and with any repetition, the same requirements give the same verdict and the same rows. */
  lemma MergeForgetsOrder(inputs: seq<Input>, others: seq<Input>)
    requires forall x :: x in inputs <==> x in others
    ensures MergeAll(inputs).conflicts == [] <==> MergeAll(others).conflicts == []
    ensures MergeAll(inputs).conflicts == [] ==>
              && MergeAll(inputs).table.rows.Keys == MergeAll(others).table.rows.Keys
              && forall id :: id in MergeAll(inputs).table.rows ==>
                   SameContent(MergeAll(inputs).table.rows[id], MergeAll(others).table.rows[id])
  {
    MergeMeans(inputs);
    MergeMeans(others);
    assert Compatible(inputs) <==> Compatible(others);
    if Compatible(inputs) {
      var a, b := MergeAll(inputs).table.rows, MergeAll(others).table.rows;
      forall id ensures id in a <==> id in b {
        if id in a {
          var x :| ForId(inputs, id, x);
          assert ForId(others, id, x);
        }
        if id in b {
          var x :| ForId(others, id, x);
          assert ForId(inputs, id, x);
        }
      }
      forall id | id in a ensures SameContent(a[id], b[id]) {
        SummaryIsUnique(a[id], b[id], inputs, others, id);
      }
    }
  }

  /** The sources as a bag: one for each input of the id. */
  lemma {:induction false} SourcesGathered(inputs: seq<Input>, id: string)
    ensures multiset(SourcesFor(inputs, id)) == Gather(inputs, x => SourceIn(x, id))
  {
    if inputs != [] {
      SourcesGathered(inputs[..|inputs| - 1], id);
    }
  }

  function SourceIn(x: Input, id: string): multiset<Source> {
    if x.requirement.id == id then multiset{SourceOf(x.template, x.requirement)} else multiset{}
  }

  /** The sources of a merged row. */
  lemma RowSources(inputs: seq<Input>, id: string)
    requires Compatible(inputs) && id in MergeAll(inputs).table.rows
    ensures multiset(MergeAll(inputs).table.rows[id].sources) == Gather(inputs, x => SourceIn(x, id))
  {
    MergeMeans(inputs);
    SourcesGathered(inputs, id);
  }

  /** Merged in any order, every row has the same sources, each as often. */
  lemma SourcesForgetOrder(inputs: seq<Input>, others: seq<Input>, id: string)
    requires multiset(inputs) == multiset(others) && Compatible(inputs) && id in MergeAll(inputs).table.rows
    ensures id in MergeAll(others).table.rows
    ensures multiset(MergeAll(inputs).table.rows[id].sources) == multiset(MergeAll(others).table.rows[id].sources)
  {
    SameInputs(inputs, others);
    RowSources(inputs, id);
    RowSources(others, id);
    GatherForgetsOrder(inputs, others, x => SourceIn(x, id));
  }

  lemma SameInputs(inputs: seq<Input>, others: seq<Input>)
    requires multiset(inputs) == multiset(others) && Compatible(inputs)
    ensures Compatible(others) && MergeAll(inputs).table.rows.Keys == MergeAll(others).table.rows.Keys
  {
    forall x ensures x in inputs <==> x in others {
      SameElement(inputs, others, x);
    }
    MergeMeans(inputs);
    MergeForgetsOrder(inputs, others);
  }
}
