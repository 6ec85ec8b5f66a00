/**
 Why a blueprint requires what it requires. Every entry of the rationale comes from a
 requirement that took part or from a required module that depends on the item, every such
 requirement has its entry, and nothing is required without one.
 */
module Explanation {
  import opened Ordering
  import opened Templates
  import opened Merge
  import opened Closure
  import opened Blueprint
  import opened Authority

  // ---------------------------------------------------------------- sources that closure adds

  /** A required module lists this one. */
  ghost predicate NeededBy(before: Table, after: Table, id: string, n: string) {
    IsRequiredModule(after, n) && n in before.rows && id in before.rows[n].dependsOn
  }

  /** The sources are those from before closure, or one more that names a module which needs the item. */
  ghost predicate Accounted(before: Table, after: Table, id: string, was: seq<Source>, now: seq<Source>) {
    now == was || exists n :: NeededBy(before, after, id, n) && now == was + [TransitiveSource(n)]
  }

  ghost predicate AllAccounted(before: Table, after: Table) {
    forall id :: id in before.rows && id in after.rows ==>
      Accounted(before, after, id, before.rows[id].sources, after.rows[id].sources)
  }

  /** What holds between two steps of the closure. */
  ghost predicate Honest(before: Table, work: Work) {
    && Closes(before, work.state.table) && AllAccounted(before, work.state.table)
    && forall q :: q in work.queue ==> IsRequiredModule(work.state.table, q)
  }

  lemma StillAccounted(before: Table, table: Table, after: Table, id: string, was: seq<Source>, now: seq<Source>)
    requires Accounted(before, table, id, was, now)
    requires forall m :: IsRequiredModule(table, m) ==> IsRequiredModule(after, m)
    ensures Accounted(before, after, id, was, now)
  {
    if now != was {
      var n :| NeededBy(before, table, id, n) && now == was + [TransitiveSource(n)];
      assert NeededBy(before, after, id, n);
    }
  }

  lemma RequireAccounts(before: Table, table: Table, id: string, dep: string)
    requires Closes(before, table) && AllAccounted(before, table)
    requires IsRequiredModule(table, id) && id in before.rows && dep in before.rows[id].dependsOn && IsModule(table, dep)
    requires forall m :: IsRequiredModule(table, m) ==> IsRequiredModule(Require(table, dep, id), m)
    ensures AllAccounted(before, Require(table, dep, id))
  {
    var after := Require(table, dep, id);
    forall i | i in before.rows && i in after.rows
      ensures Accounted(before, after, i, before.rows[i].sources, after.rows[i].sources)
    {
      if i == dep && !table.rows[dep].required {
        assert SameButRequired(before.rows[dep], table.rows[dep]);
        assert NeededBy(before, after, dep, id);
      } else {
        StillAccounted(before, table, after, i, before.rows[i].sources, table.rows[i].sources);
      }
    }
  }

  lemma VisitOneAccounts(before: Table, id: string, dep: string, work: Work)
    requires Honest(before, work) && IsRequiredModule(work.state.table, id)
    requires id in before.rows && dep in before.rows[id].dependsOn
    ensures Honest(before, VisitOne(id, dep, work)) && IsRequiredModule(VisitOne(id, dep, work).state.table, id)
  {
    VisitOneMeans(id, dep, work);
    ClosesTransitive(before, work.state.table, VisitOne(id, dep, work).state.table);
    if IsModule(work.state.table, dep) {
      RequireAccounts(before, work.state.table, id, dep);
    }
  }

  lemma {:induction false} VisitAccounts(before: Table, id: string, deps: seq<string>, work: Work)
    requires Honest(before, work) && IsRequiredModule(work.state.table, id)
    requires id in before.rows && forall dep :: dep in deps ==> dep in before.rows[id].dependsOn
    ensures Honest(before, VisitDependencies(id, deps, work))
  {
    if deps != [] {
      VisitOneAccounts(before, id, deps[0], work);
      VisitAccounts(before, id, deps[1..], VisitOne(id, deps[0], work));
    }
  }

  lemma {:induction false} CloseAccounts(before: Table, work: Work, visited: set<string>)
    requires Honest(before, work)
    ensures AllAccounted(before, Close(work, visited).table)
    decreases work.state.table.rows.Keys - visited, |work.queue|
  {
    if work.queue != [] {
      var id := work.queue[0];
      var rest := work.(queue := work.queue[1..]);
      if id in visited {
        CloseAccounts(before, rest, visited);
      } else {
        assert IsRequiredModule(work.state.table, id);
        var deps := Sort(work.state.table.rows[id].dependsOn, ByCodeUnit);
        SortKeepsElements(work.state.table.rows[id].dependsOn, ByCodeUnit);
        assert SameButRequired(before.rows[id], work.state.table.rows[id]);
        VisitAccounts(before, id, deps, rest);
        assert id in work.state.table.rows.Keys - visited;
        CloseAccounts(before, VisitDependencies(id, deps, rest), visited + {id});
      }
    }
  }

  lemma ClosureAccounts(state: State)
    ensures AllAccounted(state.table, DependencyClosure(state).table)
  {
    RequiredModulesAre(state.table, state.table.keys);
    CloseAccounts(state.table, Work(RequiredModules(state.table, state.table.keys), state), {});
  }

  // ---------------------------------------------------------------- reading the rationale

  ghost predicate Gives(q: Resolved, s: Source, x: Rationale) {
    q.row.required && s in q.row.sources && x == Rationale(q.id, s.sourceId, s.reason)
  }

  lemma {:induction false} RationaleOfAre(requirements: seq<Resolved>)
    ensures forall x :: x in RationaleOf(requirements) <==> exists q, s :: q in requirements && Gives(q, s, x)
  {
    if requirements != [] {
      var first, rest := requirements[0], requirements[1..];
      RationaleOfAre(rest);
      forall x ensures x in RationaleOf(requirements) <==> exists q, s :: q in requirements && Gives(q, s, x) {
        if x in RationaleOf(rest) {
          var q, s :| q in rest && Gives(q, s, x);
          assert q in requirements;
        } else if x in RationaleOf(requirements) {
          var reasons := Reasons(first.id, first.row.sources);
          var i :| 0 <= i < |reasons| && reasons[i] == x;
          assert Gives(first, first.row.sources[i], x);
        }
        if q, s :| q in requirements && Gives(q, s, x) {
          if q in rest {
          } else {
            var i :| 0 <= i < |q.row.sources| && q.row.sources[i] == s;
            assert Reasons(q.id, q.row.sources)[i] == x;
          }
        }
      }
    }
  }

  /** Entries stem from the sources of the closed rows. */
  lemma RationaleAre(env: Env, participants: seq<Template>, x: Rationale)
    requires ResolveParticipants(env, participants).Success?
    ensures var rows := Assemble(env.collate, participants).table.rows;
            x in ResolveParticipants(env, participants).blueprint.rationale <==>
              && x.targetId in rows && rows[x.targetId].required
              && exists s :: s in rows[x.targetId].sources && x == Rationale(x.targetId, s.sourceId, s.reason)
  {
    var b := ResolveParticipants(env, participants).blueprint;
    var rows := Assemble(env.collate, participants).table.rows;
    RationaleOfAre(b.requirements);
    SortKeepsElements(RationaleOf(b.requirements), (p: Rationale, q: Rationale) => RationaleLe(env.collate, p, q));
    RowsRead(env, participants, x.targetId);
    if x in b.rationale {
      var q, s :| q in b.requirements && Gives(q, s, x);
      FreezeKeeps(env.collate, rows[q.id]);
    }
    if x.targetId in rows && rows[x.targetId].required {
      FreezeKeeps(env.collate, rows[x.targetId]);
      if s :| s in rows[x.targetId].sources && x == Rationale(x.targetId, s.sourceId, s.reason) {
        assert Gives(Resolved(x.targetId, Freeze(env.collate, rows[x.targetId])), s, x);
      }
    }
  }

  /** The entry states a requirement of a template that took part. */
  ghost predicate States(x: Rationale, t: Template, r: Requirement) {
    r in t.requirements && x == Rationale(r.id, t.id, ReasonFor(t, r))
  }

  ghost predicate FromTemplate(participants: seq<Template>, x: Rationale) {
    exists t, r :: t in participants && States(x, t, r)
  }

  /** The entry names a required module that depends on the item. */
  ghost predicate FromDependant(b: Blueprint, x: Rationale) {
    && x.reason == "Required transitively by " + x.sourceId && x.sourceId in b.requiredModules
    && exists q :: q in b.requirements && q.id == x.sourceId && x.targetId in q.row.dependsOn
  }

  ghost predicate IsRequired(b: Blueprint, id: string) {
    id in b.requiredModules || id in b.requiredGates
  }

  lemma RequiredAre(env: Env, participants: seq<Template>, id: string)
    requires ResolveParticipants(env, participants).Success?
    ensures var rows := Assemble(env.collate, participants).table.rows;
            var b := ResolveParticipants(env, participants).blueprint;
            && (id in b.requiredModules <==> id in rows && rows[id].required && rows[id].kind.Module?)
            && (IsRequired(b, id) <==> id in rows && rows[id].required)
  {
    var b := ResolveParticipants(env, participants).blueprint;
    RowsRead(env, participants, id);
    RequiredOfKindAre(b.requirements, Module);
    RequiredOfKindAre(b.requirements, Gate);
    var rows := Assemble(env.collate, participants).table.rows;
    if id in rows && rows[id].required {
      var q := Resolved(id, Freeze(env.collate, rows[id]));
      assert q in b.requirements && q.row.kind == rows[id].kind;
    }
  }

  /** Every requirement that took part, of an item that ends up required, is in the rationale with its reason. */
  lemma EveryRequirementExplained(env: Env, participants: seq<Template>, t: Template, r: Requirement)
    requires ResolveParticipants(env, participants).Success?
    requires t in participants && r in t.requirements
    ensures var b := ResolveParticipants(env, participants).blueprint;
            IsRequired(b, r.id) <==> Rationale(r.id, t.id, ReasonFor(t, r)) in b.rationale
  {
    var inputs := Inputs(env.collate, participants);
    var x := Rationale(r.id, t.id, ReasonFor(t, r));
    RequiredAre(env, participants, r.id);
    RationaleAre(env, participants, x);
    ClosedRow(env, participants, r.id);
    InputOf(env.collate, participants, t, r);
    SourcesAre(inputs, r.id);
    assert ForId(inputs, r.id, Input(t, r));
    assert SourceOf(t, r) in MergeAll(inputs).table.rows[r.id].sources;
    assert SourceOf(t, r) in Assemble(env.collate, participants).table.rows[r.id].sources;
  }

  lemma NamesDependant(env: Env, participants: seq<Template>, x: Rationale, n: string)
    requires ResolveParticipants(env, participants).Success?
    requires NeededBy(MergeAll(Inputs(env.collate, participants)).table, Assemble(env.collate, participants).table, x.targetId, n)
    requires x.sourceId == n && x.reason == TransitiveSource(n).reason
    ensures FromDependant(ResolveParticipants(env, participants).blueprint, x)
  {
    var closed := Assemble(env.collate, participants).table;
    RequiredAre(env, participants, n);
    ClosedRow(env, participants, n);
    RowsRead(env, participants, n);
    FreezeKeeps(env.collate, closed.rows[n]);
    var q := Resolved(n, Freeze(env.collate, closed.rows[n]));
    assert x.targetId in q.row.dependsOn;
  }

  lemma NamesRequirement(env: Env, participants: seq<Template>, x: Rationale, s: Source)
    requires s in SourcesFor(Inputs(env.collate, participants), x.targetId)
    requires x == Rationale(x.targetId, s.sourceId, s.reason)
    ensures FromTemplate(participants, x)
  {
    var inputs := Inputs(env.collate, participants);
    SourcesAre(inputs, x.targetId);
    var y :| ForId(inputs, x.targetId, y) && s == SourceOf(y.template, y.requirement);
    InputComes(env.collate, participants, y);
    assert States(x, y.template, y.requirement);
  }

  /** The sources of a resolved item: those of its inputs, and perhaps a module that needs it. */
  lemma ClosedSources(env: Env, participants: seq<Template>, id: string)
    requires ResolveParticipants(env, participants).Success?
    requires id in Assemble(env.collate, participants).table.rows
    ensures var inputs, closed := Inputs(env.collate, participants), Assemble(env.collate, participants).table;
            Accounted(MergeAll(inputs).table, closed, id, SourcesFor(inputs, id), closed.rows[id].sources)
  {
    var inputs := Inputs(env.collate, participants);
    ClosedRow(env, participants, id);
    ClosureAccounts(MergeAll(inputs));
    assert Summarises(MergeAll(inputs).table.rows[id], inputs, id);
  }

  lemma SourceIsReal(env: Env, participants: seq<Template>, x: Rationale, s: Source, was: seq<Source>, now: seq<Source>)
    requires ResolveParticipants(env, participants).Success?
    requires was == SourcesFor(Inputs(env.collate, participants), x.targetId)
    requires Accounted(MergeAll(Inputs(env.collate, participants)).table, Assemble(env.collate, participants).table,
                       x.targetId, was, now)
    requires s in now && x == Rationale(x.targetId, s.sourceId, s.reason)
    ensures FromTemplate(participants, x) || FromDependant(ResolveParticipants(env, participants).blueprint, x)
  {
    if s in was {
      NamesRequirement(env, participants, x, s);
    } else {
      var n :| NeededBy(MergeAll(Inputs(env.collate, participants)).table, Assemble(env.collate, participants).table, x.targetId, n)
               && now == was + [TransitiveSource(n)];
      NamesDependant(env, participants, x, n);
    }
  }

  /** Every entry of the rationale is of a required item and states a requirement or names a dependant. */
  lemma EveryReasonIsReal(env: Env, participants: seq<Template>, x: Rationale)
    requires ResolveParticipants(env, participants).Success?
    requires x in ResolveParticipants(env, participants).blueprint.rationale
    ensures IsRequired(ResolveParticipants(env, participants).blueprint, x.targetId)
    ensures FromTemplate(participants, x) || FromDependant(ResolveParticipants(env, participants).blueprint, x)
  {
    RequiredAre(env, participants, x.targetId);
    RationaleAre(env, participants, x);
    ClosedSources(env, participants, x.targetId);
    var now := Assemble(env.collate, participants).table.rows[x.targetId].sources;
    var s :| s in now && x == Rationale(x.targetId, s.sourceId, s.reason);
    SourceIsReal(env, participants, x, s, SourcesFor(Inputs(env.collate, participants), x.targetId), now);
  }

  /** A requirement that took part demands the item. */
  ghost predicate Demanded(participants: seq<Template>, x: Rationale) {
    exists t, r :: t in participants && States(x, t, r) && r.IsRequired()
  }

  /** Nothing is required without a reason: some requirement demands it, or the rationale names a module that needs it. */
  lemma NothingWithoutReason(env: Env, participants: seq<Template>, id: string) returns (x: Rationale)
    requires ResolveParticipants(env, participants).Success?
    requires IsRequired(ResolveParticipants(env, participants).blueprint, id)
    ensures x in ResolveParticipants(env, participants).blueprint.rationale && x.targetId == id
    ensures Demanded(participants, x) || FromDependant(ResolveParticipants(env, participants).blueprint, x)
  {
    RequiredAre(env, participants, id);
    ClosedRow(env, participants, id);
    if MergeAll(Inputs(env.collate, participants)).table.rows[id].required {
      x := WasDemanded(env, participants, id);
    } else {
      x := BecameRequired(env, participants, id);
    }
  }

  lemma WasDemanded(env: Env, participants: seq<Template>, id: string) returns (x: Rationale)
    requires ResolveParticipants(env, participants).Success?
    requires IsRequired(ResolveParticipants(env, participants).blueprint, id)
    requires id in MergeAll(Inputs(env.collate, participants)).table.rows
    requires MergeAll(Inputs(env.collate, participants)).table.rows[id].required
    ensures x in ResolveParticipants(env, participants).blueprint.rationale && x.targetId == id
    ensures Demanded(participants, x)
  {
    var inputs := Inputs(env.collate, participants);
    ClosedRow(env, participants, id);
    assert Summarises(MergeAll(inputs).table.rows[id], inputs, id);
    var y :| ForId(inputs, id, y) && y.requirement.IsRequired();
    InputComes(env.collate, participants, y);
    EveryRequirementExplained(env, participants, y.template, y.requirement);
    x := Rationale(id, y.template.id, ReasonFor(y.template, y.requirement));
    assert States(x, y.template, y.requirement);
  }

  lemma BecameRequired(env: Env, participants: seq<Template>, id: string) returns (x: Rationale)
    requires ResolveParticipants(env, participants).Success?
    requires IsRequired(ResolveParticipants(env, participants).blueprint, id)
    requires id in MergeAll(Inputs(env.collate, participants)).table.rows
    requires !MergeAll(Inputs(env.collate, participants)).table.rows[id].required
    ensures x in ResolveParticipants(env, participants).blueprint.rationale && x.targetId == id
    ensures FromDependant(ResolveParticipants(env, participants).blueprint, x)
  {
    var merged, closed := MergeAll(Inputs(env.collate, participants)).table, Assemble(env.collate, participants).table;
    RequiredAre(env, participants, id);
    ClosedRow(env, participants, id);
    var was, now := merged.rows[id].sources, closed.rows[id].sources;
    assert SameButRequired(merged.rows[id], closed.rows[id]);
    assert GainsSource(was, now);
    ClosureAccounts(MergeAll(Inputs(env.collate, participants)));
    assert Accounted(merged, closed, id, was, now);
    var n :| NeededBy(merged, closed, id, n) && now == was + [TransitiveSource(n)];
    x := Rationale(id, n, TransitiveSource(n).reason);
    assert TransitiveSource(n) in now;
    RationaleAre(env, participants, x);
    NamesDependant(env, participants, x, n);
  }
}
