/**
 What no later template can take away. A successful resolution honours every requirement
 of every template that took part; a further template only adds; and the locked catalog
 always supplies the Constitution, so its requirements are a floor.
 */
module Authority {
  import opened Wrappers
  import opened Ordering
  import opened Templates
  import opened Merge
  import opened Closure
  import opened Graphs
  import opened Blueprint

  // ---------------------------------------------------------------- reading a blueprint

  lemma {:induction false} FrozenAre(collate: Collation, table: Table, keys: seq<string>)
    requires forall id :: id in keys ==> id in table.rows
    ensures forall q :: q in FreezeAll(collate, table, keys) <==> q.id in keys && q.row == Freeze(collate, table.rows[q.id])
  {
    if keys != [] {
      FrozenAre(collate, table, keys[1..]);
    }
  }

  lemma {:induction false} RequiredOfKindAre(requirements: seq<Resolved>, kind: Kind)
    ensures forall id :: id in RequiredOfKind(requirements, kind)
              <==> exists q :: q in requirements && q.id == id && q.row.kind == kind && q.row.required
  {
    if requirements != [] {
      RequiredOfKindAre(requirements[1..], kind);
      forall id ensures id in RequiredOfKind(requirements, kind)
                  <==> exists q :: q in requirements && q.id == id && q.row.kind == kind && q.row.required {
        if id in RequiredOfKind(requirements[1..], kind) {
          var q :| q in requirements[1..] && q.id == id && q.row.kind == kind && q.row.required;
          assert q in requirements;
        }
        assert requirements[0] in requirements;
      }
    }
  }

  lemma RequirementsAre(collate: Collation, participants: seq<Template>, table: Table, id: string)
    requires WellFormed(table)
    ensures var requirements := ReadBlueprint(collate, participants, table).requirements;
            && (id in table.rows ==> Resolved(id, Freeze(collate, table.rows[id])) in requirements)
            && forall q :: q in requirements && q.id == id ==> id in table.rows && q.row == Freeze(collate, table.rows[id])
  {
    FrozenAre(collate, table, table.keys);
    SortKeepsElements(FreezeAll(collate, table, table.keys), (a: Resolved, b: Resolved) => collate(a.id, b.id));
  }

  /** A resolved requirement is the frozen row of its id. */
  lemma RowsRead(env: Env, participants: seq<Template>, id: string)
    requires ResolveParticipants(env, participants).Success?
    ensures var table := Assemble(env.collate, participants).table;
            var b := ResolveParticipants(env, participants).blueprint;
            && (id in table.rows ==> Resolved(id, Freeze(env.collate, table.rows[id])) in b.requirements)
            && forall q :: q in b.requirements && q.id == id ==> id in table.rows && q.row == Freeze(env.collate, table.rows[id])
  {
    AssembleIsWellFormed(env.collate, participants);
    RequirementsAre(env.collate, participants, Assemble(env.collate, participants).table, id);
  }

  lemma FreezeKeeps(collate: Collation, row: Row)
    ensures SameContent(row, Freeze(collate, row))
  {
    SortKeepsElements(row.tags, ByCodeUnit);
    SortKeepsElements(row.dependsOn, ByCodeUnit);
    SortKeepsElements(row.sources, (a: Source, b: Source) => SourceLe(collate, a, b));
  }

  // ---------------------------------------------------------------- nothing is weakened

  /** The row is at least as demanding as another one. */
  ghost predicate AtLeast(row: Row, kind: Kind, required: bool, depth: Depth, tags: seq<string>, deps: seq<string>,
                          constraint: Option<string>) {
    && row.kind == kind
    && (required ==> row.required)
    && depth.Rank() <= row.depth.Rank()
    && (forall tag :: tag in tags ==> tag in row.tags)
    && (forall dep :: dep in deps ==> dep in row.dependsOn)
    && (constraint.Some? ==> row.constraint == constraint)
  }

  ghost predicate Honours(row: Row, r: Requirement) {
    AtLeast(row, r.kind, r.IsRequired(), r.DepthOrBasic(), r.tags, r.dependsOn, r.constraint)
  }

  ghost predicate Covers(row: Row, other: Row) {
    AtLeast(row, other.kind, other.required, other.depth, other.tags, other.dependsOn, other.constraint)
  }

  lemma {:induction false} InputOf(collate: Collation, participants: seq<Template>, t: Template, r: Requirement)
    requires t in participants && r in t.requirements
    ensures Input(t, r) in Inputs(collate, participants)
  {
    var last := participants[|participants| - 1];
    if t == last {
      var sorted := Sort(t.requirements, RequirementOrder(collate));
      SortKeepsElements(t.requirements, RequirementOrder(collate));
      var i :| 0 <= i < |sorted| && sorted[i] == r;
      assert InputsOf(collate, t)[i] == Input(t, r);
    } else {
      InputOf(collate, participants[..|participants| - 1], t, r);
    }
  }

  lemma {:induction false} InputComes(collate: Collation, participants: seq<Template>, x: Input)
    requires x in Inputs(collate, participants)
    ensures x.template in participants && x.requirement in x.template.requirements
  {
    if participants != [] {
      var last := participants[|participants| - 1];
      if x in InputsOf(collate, last) {
        var sorted := Sort(last.requirements, RequirementOrder(collate));
        SortKeepsElements(last.requirements, RequirementOrder(collate));
        assert x.requirement in sorted;
      } else {
        InputComes(collate, participants[..|participants| - 1], x);
      }
    }
  }

  /** The closed row of an id is its merged row, perhaps made required. */
  lemma ClosedRow(env: Env, participants: seq<Template>, id: string)
    requires ResolveParticipants(env, participants).Success?
    ensures var inputs := Inputs(env.collate, participants);
            var merged, closed := MergeAll(inputs).table, Assemble(env.collate, participants).table;
            && Means(merged, inputs) && Compatible(inputs)
            && closed.rows.Keys == merged.rows.Keys
            && (id in merged.rows ==> SameButRequired(merged.rows[id], closed.rows[id]))
            && (IsRequiredModule(closed, id) <==> Needed(merged, id))
  {
    var inputs := Inputs(env.collate, participants);
    SucceedsExactly(env, participants);
    MergeMeans(inputs);
    ClosureMeans(MergeAll(inputs));
  }

  /** A summary of inputs, made required or not, and frozen, honours each of them. */
  lemma FrozenHonours(collate: Collation, merged: Row, closed: Row, inputs: seq<Input>, t: Template, r: Requirement)
    requires Summarises(merged, inputs, r.id) && ForId(inputs, r.id, Input(t, r)) && SameButRequired(merged, closed)
    ensures Honours(Freeze(collate, closed), r)
  {
    assert Honours(merged, r);
    FreezeKeeps(collate, closed);
  }

  /** A successful resolution honours every requirement of every template that took part. */
  lemma EveryRequirementHonoured(env: Env, participants: seq<Template>, t: Template, r: Requirement)
    requires ResolveParticipants(env, participants).Success?
    requires t in participants && r in t.requirements
    ensures var b := ResolveParticipants(env, participants).blueprint;
            && (exists q :: q in b.requirements && q.id == r.id && Honours(q.row, r))
            && (r.IsRequired() && r.kind.Module? ==> r.id in b.requiredModules)
            && (r.IsRequired() && r.kind.Gate? ==> r.id in b.requiredGates)
  {
    var inputs := Inputs(env.collate, participants);
    var merged, closed := MergeAll(inputs).table, Assemble(env.collate, participants).table;
    InputOf(env.collate, participants, t, r);
    ClosedRow(env, participants, r.id);
    assert ForId(inputs, r.id, Input(t, r));
    FrozenHonours(env.collate, merged.rows[r.id], closed.rows[r.id], inputs, t, r);
    RowsRead(env, participants, r.id);
    var q := Resolved(r.id, Freeze(env.collate, closed.rows[r.id]));
    var b := ResolveParticipants(env, participants).blueprint;
    RequiredOfKindAre(b.requirements, Module);
    RequiredOfKindAre(b.requirements, Gate);
  }

  lemma RowsGrow(a: Row, b: Row, inputs: seq<Input>, more: seq<Input>, id: string)
    requires Summarises(a, inputs, id) && Summarises(b, more, id)
    requires forall x :: x in inputs ==> x in more
    ensures Covers(b, a)
  {
    forall x | ForId(inputs, id, x) ensures ForId(more, id, x) {
    }
    var x :| ForId(inputs, id, x) && x.requirement.DepthOrBasic() == a.depth;
    if a.constraint.Some? {
      var y :| ForId(inputs, id, y) && y.requirement.constraint == a.constraint;
      assert ForId(more, id, y);
    }
    if a.required {
      var y :| ForId(inputs, id, y) && y.requirement.IsRequired();
      assert ForId(more, id, y);
    }
  }

  lemma TablesGrow(inputs: seq<Input>, more: seq<Input>, id: string)
    requires Compatible(inputs) && Compatible(more) && forall x :: x in inputs ==> x in more
    requires id in MergeAll(inputs).table.rows
    ensures id in MergeAll(more).table.rows
    ensures Covers(MergeAll(more).table.rows[id], MergeAll(inputs).table.rows[id])
  {
    MergeMeans(inputs);
    MergeMeans(more);
    var x :| ForId(inputs, id, x);
    assert ForId(more, id, x);
    RowsGrow(MergeAll(inputs).table.rows[id], MergeAll(more).table.rows[id], inputs, more, id);
  }

  /** The table of more inputs covers the table of fewer, row by row. */
  ghost predicate TableCovers(b: Table, a: Table) {
    forall id :: id in a.rows ==> id in b.rows && Covers(b.rows[id], a.rows[id])
  }

  lemma EdgeGrows(a: Table, b: Table, v: string, w: string)
    requires TableCovers(b, a) && Edge(ModuleGraph(a), v, w)
    ensures Edge(ModuleGraph(b), v, w)
  {
    assert Covers(b.rows[v], a.rows[v]) && Covers(b.rows[w], a.rows[w]);
  }

  lemma WalkGrows(a: Table, b: Table, w: seq<string>)
    requires TableCovers(b, a) && IsWalk(ModuleGraph(a), w)
    ensures IsWalk(ModuleGraph(b), w)
  {
    forall i | 0 <= i < |w| - 1 ensures Edge(ModuleGraph(b), w[i], w[i + 1]) {
      assert Edge(ModuleGraph(a), w[i], w[i + 1]);
      EdgeGrows(a, b, w[i], w[i + 1]);
    }
    assert Covers(b.rows[w[0]], a.rows[w[0]]);
  }

  /** A module needed before is needed with more inputs. */
  lemma NeedGrows(a: Table, b: Table, id: string)
    requires TableCovers(b, a) && Needed(a, id)
    ensures Needed(b, id)
  {
    var root :| IsRequiredModule(a, root) && Reaches(ModuleGraph(a), root, id);
    var w :| WalkBetween(ModuleGraph(a), w, root, id);
    WalkGrows(a, b, w);
    assert Covers(b.rows[root], a.rows[root]);
    assert WalkBetween(ModuleGraph(b), w, root, id);
    assert Reaches(ModuleGraph(b), root, id);
  }

  /**
   Taking more templates into a resolution that still succeeds never drops a requirement,
   never makes one optional, shallower, less tagged or less dependent, and never changes a
   constraint that was set.
   */
  lemma MoreTemplatesOnlyAdd(env: Env, fewer: seq<Template>, more: seq<Template>, q: Resolved)
    requires ResolveParticipants(env, fewer).Success? && ResolveParticipants(env, more).Success?
    requires forall t :: t in fewer ==> t in more
    requires q in ResolveParticipants(env, fewer).blueprint.requirements
    ensures exists q' :: q' in ResolveParticipants(env, more).blueprint.requirements && q'.id == q.id && Covers(q'.row, q.row)
  {
    var id := q.id;
    var a, b := Inputs(env.collate, fewer), Inputs(env.collate, more);
    forall x | x in a ensures x in b {
      InputComes(env.collate, fewer, x);
      InputOf(env.collate, more, x.template, x.requirement);
    }
    RowsRead(env, fewer, id);
    ClosedRow(env, fewer, id);
    ClosedRow(env, more, id);
    TablesGrow(a, b, id);
    var was, now := Assemble(env.collate, fewer).table.rows[id], Assemble(env.collate, more).table.rows[id];
    if was.kind.Module? && was.required {
      forall i | i in MergeAll(a).table.rows
        ensures i in MergeAll(b).table.rows && Covers(MergeAll(b).table.rows[i], MergeAll(a).table.rows[i])
      {
        TablesGrow(a, b, i);
      }
      NeedGrows(MergeAll(a).table, MergeAll(b).table, id);
    }
    assert Covers(now, was);
    FreezeKeeps(env.collate, was);
    FreezeKeeps(env.collate, now);
    RowsRead(env, more, id);
    assert Covers(Freeze(env.collate, now), q.row);
  }

  /** In particular no required module and no required gate is lost. */
  lemma RequiredSetsGrow(env: Env, fewer: seq<Template>, more: seq<Template>)
    requires ResolveParticipants(env, fewer).Success? && ResolveParticipants(env, more).Success?
    requires forall t :: t in fewer ==> t in more
    ensures var a, b := ResolveParticipants(env, fewer).blueprint, ResolveParticipants(env, more).blueprint;
            && (forall id :: id in a.requiredModules ==> id in b.requiredModules)
            && (forall id :: id in a.requiredGates ==> id in b.requiredGates)
  {
    var a, b := ResolveParticipants(env, fewer).blueprint, ResolveParticipants(env, more).blueprint;
    forall kind: Kind, id | id in RequiredOfKind(a.requirements, kind) ensures id in RequiredOfKind(b.requirements, kind) {
      RequiredOfKindAre(a.requirements, kind);
      RequiredOfKindAre(b.requirements, kind);
      var q :| q in a.requirements && q.id == id && q.row.kind == kind && q.row.required;
      MoreTemplatesOnlyAdd(env, fewer, more, q);
    }
  }

  // ---------------------------------------------------------------- the locked catalog

  /** What the catalog's constructor demands of the Constitution it is given. */
  predicate Lockable(constitution: Template) {
    constitution.layer == Constitution && constitution.activation.None?
  }

  datatype CatalogError = ConstitutionReplaced

  function FirstWithId(templates: seq<Template>, id: string): Option<Template> {
    if templates == [] then None
    else if templates[0].id == id then Some(templates[0])
    else FirstWithId(templates[1..], id)
  }

  function WithoutId(templates: seq<Template>, id: string): seq<Template> {
    if templates == [] then []
    else (if templates[0].id == id then [] else [templates[0]]) + WithoutId(templates[1..], id)
  }

  function Snapshot(constitution: Template, delegated: seq<Template>): Result<seq<Template>, CatalogError> {
    var supplied := FirstWithId(delegated, constitution.id);
    if supplied.Some? && supplied.value != constitution then Err(ConstitutionReplaced)
    else Ok([constitution] + WithoutId(delegated, constitution.id))
  }

  lemma {:induction false} ActiveAre(profile: Profile, templates: seq<Template>)
    ensures forall t :: t in Active(profile, templates) <==> t in templates && IsActive(profile, t)
  {
    if templates != [] {
      ActiveAre(profile, templates[1..]);
    }
  }

  lemma ParticipantsAre(env: Env, profile: Profile, templates: seq<Template>, additions: seq<Requirement>)
    ensures forall t :: t in Participants(env, profile, templates, additions)
              <==> (t in templates || t in Additions(profile, additions)) && IsActive(profile, t)
  {
    var all := templates + Additions(profile, additions);
    ActiveAre(profile, Supplied(env, profile, templates, additions));
    SortKeepsElements(all, TemplateOrder(env.collate));
  }

  /**
   Through the locked catalog, whatever the delegate supplies and the project adds, a
   successful resolution honours every requirement of the Constitution.
   */
  lemma ConstitutionIsFloor(env: Env, profile: Profile, constitution: Template, delegated: seq<Template>,
                            additions: seq<Requirement>, b: Blueprint, r: Requirement)
    requires Lockable(constitution) && r in constitution.requirements
    requires Snapshot(constitution, delegated).Ok?
    requires ResolvesTo(env, profile, Snapshot(constitution, delegated).value, additions, b)
    ensures exists q :: q in b.requirements && q.id == r.id && Honours(q.row, r)
    ensures r.IsRequired() && r.kind.Module? ==> r.id in b.requiredModules
    ensures r.IsRequired() && r.kind.Gate? ==> r.id in b.requiredGates
  {
    var templates := Snapshot(constitution, delegated).value;
    ParticipantsAre(env, profile, templates, additions);
    assert constitution in templates;
    EveryRequirementHonoured(env, Participants(env, profile, templates, additions), constitution, r);
  }

  /** Adding one more template to the supply, where both resolutions succeed, only adds. */
  lemma FurtherTemplateOnlyAdds(env: Env, profile: Profile, templates: seq<Template>, further: Template,
                                additions: seq<Requirement>, a: Blueprint, b: Blueprint)
    requires ResolvesTo(env, profile, templates, additions, a)
    requires ResolvesTo(env, profile, templates + [further], additions, b)
    ensures forall q :: q in a.requirements ==> exists q' :: q' in b.requirements && q'.id == q.id && Covers(q'.row, q.row)
    ensures forall id :: id in a.requiredModules ==> id in b.requiredModules
    ensures forall id :: id in a.requiredGates ==> id in b.requiredGates
  {
    var fewer := Participants(env, profile, templates, additions);
    var more := Participants(env, profile, templates + [further], additions);
    ParticipantsAre(env, profile, templates, additions);
    ParticipantsAre(env, profile, templates + [further], additions);
    RequiredSetsGrow(env, fewer, more);
    forall q | q in a.requirements ensures exists q' :: q' in b.requirements && q'.id == q.id && Covers(q'.row, q.row) {
      MoreTemplatesOnlyAdd(env, fewer, more, q);
    }
  }
}
