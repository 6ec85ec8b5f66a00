/**
 What a fingerprint stands for. Resolving the templates in normal form gives the same
 result as resolving them as supplied, so two inputs of one fingerprint have one result.
 */
module Determinism {
  import opened Wrappers
  import opened Ordering
  import opened Sets
  import opened Templates
  import opened Fingerprint
  import opened Merge
  import opened Closure
  import Cycles
  import opened Blueprint

  // ---------------------------------------------------------------- rows that differ in order alone

  /** Two lists without repetitions of the same strings. */
  ghost predicate SameSet(a: seq<string>, b: seq<string>) {
    Distinct(a) && Distinct(b) && forall x :: x in a <==> x in b
  }

  lemma {:induction false} OnceEach(s: seq<string>, x: string)
    requires Distinct(s)
    ensures multiset(s)[x] == if x in s then 1 else 0
  {
    if s != [] {
      assert s == [s[0]] + s[1..];
      OnceEach(s[1..], x);
    }
  }

  lemma SortSameSet(a: seq<string>, b: seq<string>)
    requires SameSet(a, b)
    ensures Sort(a, ByCodeUnit) == Sort(b, ByCodeUnit)
  {
    forall x ensures multiset(a)[x] == multiset(b)[x] {
      OnceEach(a, x);
      OnceEach(b, x);
    }
    assert multiset(a) == multiset(b);
    ByCodeUnitIsOrder();
    SortForgetsOrder(a, b, ByCodeUnit);
  }

  lemma AddSameSet(a: seq<string>, b: seq<string>, xs: seq<string>, ys: seq<string>)
    requires SameSet(a, b) && forall x :: x in xs <==> x in ys
    ensures SameSet(AddAll(a, xs), AddAll(b, ys))
  {
    AddAllMeans(a, xs);
    AddAllMeans(b, ys);
  }

  /** Rows that differ only in the order of tags and dependencies. */
  ghost predicate Alike(a: Row, b: Row) {
    && b == a.(tags := b.tags, dependsOn := b.dependsOn)
    && SameSet(a.tags, b.tags) && SameSet(a.dependsOn, b.dependsOn)
  }

  ghost predicate AlikeTables(a: Table, b: Table) {
    && a.keys == b.keys && a.rows.Keys == b.rows.Keys
    && forall id :: id in a.rows ==> Alike(a.rows[id], b.rows[id])
  }

  ghost predicate AlikeStates(a: State, b: State) {
    AlikeTables(a.table, b.table) && a.conflicts == b.conflicts
  }

  /** Inputs that state the same, from templates of one name. */
  ghost predicate AlikeInputs(a: Input, b: Input) {
    && a.template.id == b.template.id && SourceOf(a.template, a.requirement) == SourceOf(b.template, b.requirement)
    && SameRequirement(a.requirement, b.requirement)
  }

  // ---------------------------------------------------------------- merge, closure and cycles

  lemma MergeOneAlike(s: State, t: State, a: Input, b: Input)
    requires AlikeStates(s, t) && AlikeInputs(a, b)
    ensures AlikeStates(MergeOne(s, a.template, a.requirement), MergeOne(t, b.template, b.requirement))
  {
    forall x ensures x in a.requirement.tags <==> x in b.requirement.tags {
      SameElement(a.requirement.tags, b.requirement.tags, x);
    }
    forall x ensures x in a.requirement.dependsOn <==> x in b.requirement.dependsOn {
      SameElement(a.requirement.dependsOn, b.requirement.dependsOn, x);
    }
    AddSameSet([], [], a.requirement.tags, b.requirement.tags);
    AddSameSet([], [], a.requirement.dependsOn, b.requirement.dependsOn);
    var id := a.requirement.id;
    if id in s.table.rows {
      var p, q := s.table.rows[id], t.table.rows[id];
      assert Alike(p, q);
      AddSameSet(p.tags, q.tags, a.requirement.tags, b.requirement.tags);
      AddSameSet(p.dependsOn, q.dependsOn, a.requirement.dependsOn, b.requirement.dependsOn);
    }
  }

  lemma {:induction false} MergeAlike(a: seq<Input>, b: seq<Input>)
    requires |a| == |b| && forall i :: 0 <= i < |a| ==> AlikeInputs(a[i], b[i])
    ensures AlikeStates(MergeAll(a), MergeAll(b))
  {
    if a != [] {
      var n := |a| - 1;
      MergeAlike(a[..n], b[..n]);
      MergeOneAlike(MergeAll(a[..n]), MergeAll(b[..n]), a[n], b[n]);
    }
  }

  ghost predicate AlikeWork(v: Work, w: Work) {
    v.queue == w.queue && AlikeStates(v.state, w.state)
  }

  lemma VisitOneAlike(id: string, dep: string, v: Work, w: Work)
    requires AlikeWork(v, w) && id in v.state.table.rows
    ensures AlikeWork(VisitOne(id, dep, v), VisitOne(id, dep, w))
  {
    assert Alike(v.state.table.rows[id], w.state.table.rows[id]);
    if dep in v.state.table.rows {
      assert Alike(v.state.table.rows[dep], w.state.table.rows[dep]);
    }
  }

  lemma {:induction false} VisitAlike(id: string, deps: seq<string>, v: Work, w: Work)
    requires AlikeWork(v, w) && id in v.state.table.rows
    ensures AlikeWork(VisitDependencies(id, deps, v), VisitDependencies(id, deps, w))
  {
    if deps != [] {
      VisitOneAlike(id, deps[0], v, w);
      VisitAlike(id, deps[1..], VisitOne(id, deps[0], v), VisitOne(id, deps[0], w));
    }
  }

  lemma {:induction false} CloseAlike(v: Work, w: Work, visited: set<string>)
    requires AlikeWork(v, w)
    ensures AlikeStates(Close(v, visited), Close(w, visited))
    decreases v.state.table.rows.Keys - visited, |v.queue|
  {
    if v.queue != [] {
      var id := v.queue[0];
      var p, q := v.(queue := v.queue[1..]), w.(queue := w.queue[1..]);
      if id in visited {
        CloseAlike(p, q, visited);
      } else if id !in v.state.table.rows || v.state.table.rows[id].kind.Gate? {
        assert id in v.state.table.rows ==> Alike(v.state.table.rows[id], w.state.table.rows[id]);
        SkippedShrinks(v.state.table.rows.Keys, visited, id);
        CloseAlike(p, q, visited + {id});
      } else {
        assert Alike(v.state.table.rows[id], w.state.table.rows[id]);
        SortSameSet(v.state.table.rows[id].dependsOn, w.state.table.rows[id].dependsOn);
        var deps := Sort(v.state.table.rows[id].dependsOn, ByCodeUnit);
        VisitAlike(id, deps, p, q);
        assert id in v.state.table.rows.Keys - visited;
        CloseAlike(VisitDependencies(id, deps, p), VisitDependencies(id, deps, q), visited + {id});
      }
    }
  }

  lemma SkippedShrinks(keys: set<string>, visited: set<string>, id: string)
    ensures keys - (visited + {id}) <= keys - visited
  {
  }

  lemma {:induction false} RequiredAlike(a: Table, b: Table, keys: seq<string>)
    requires AlikeTables(a, b)
    ensures RequiredModules(a, keys) == RequiredModules(b, keys)
  {
    if keys != [] {
      RequiredAlike(a, b, keys[1..]);
      assert keys[0] in a.rows ==> Alike(a.rows[keys[0]], b.rows[keys[0]]);
    }
  }

  lemma ClosureAlike(a: State, b: State)
    requires AlikeStates(a, b)
    ensures AlikeStates(DependencyClosure(a), DependencyClosure(b))
  {
    RequiredAlike(a.table, b.table, a.table.keys);
    CloseAlike(Work(RequiredModules(a.table, a.table.keys), a), Work(RequiredModules(b.table, b.table.keys), b), {});
  }

  lemma CyclesAlike(a: Table, b: Table)
    requires AlikeTables(a, b)
    ensures Cycles.CycleConflicts(a) == Cycles.CycleConflicts(b)
  {
    RequiredAlike(a, b, a.keys);
    forall id | id in a.rows
      ensures a.rows[id].kind == b.rows[id].kind && a.rows[id].required == b.rows[id].required
      ensures Sort(a.rows[id].dependsOn, ByCodeUnit) == Sort(b.rows[id].dependsOn, ByCodeUnit)
    {
      assert Alike(a.rows[id], b.rows[id]);
      SortSameSet(a.rows[id].dependsOn, b.rows[id].dependsOn);
    }
    assert Cycles.RequiredGraph(a) == Cycles.RequiredGraph(b);
  }

  lemma {:induction false} FrozenAlike(collate: Collation, a: Table, b: Table, keys: seq<string>)
    requires AlikeTables(a, b) && forall id :: id in keys ==> id in a.rows
    ensures FreezeAll(collate, a, keys) == FreezeAll(collate, b, keys)
  {
    if keys != [] {
      var p, q := a.rows[keys[0]], b.rows[keys[0]];
      assert Alike(p, q);
      SortSameSet(p.tags, q.tags);
      SortSameSet(p.dependsOn, q.dependsOn);
      FrozenAlike(collate, a, b, keys[1..]);
    }
  }

  // ---------------------------------------------------------------- inputs in normal form

  /** Sorting by keys that a function leaves alone commutes with applying it. */
  lemma {:induction false} InsertMapped<T(!new)>(x: T, s: seq<T>, f: T -> T, le: Order<T>)
    requires forall a, b :: le(f(a), f(b)) == le(a, b)
    ensures Mapped(Insert(x, s, le), f) == Insert(f(x), Mapped(s, f), le)
  {
    if s == [] || le(x, s[0]) {
      assert Mapped([x] + s, f) == [f(x)] + Mapped(s, f);
    } else {
      var rest := Insert(x, s[1..], le);
      InsertMapped(x, s[1..], f, le);
      assert Mapped(s, f)[1..] == Mapped(s[1..], f);
      assert Mapped([s[0]] + rest, f) == [f(s[0])] + Mapped(rest, f);
    }
  }

  lemma {:induction false} SortMapped<T(!new)>(s: seq<T>, f: T -> T, le: Order<T>)
    requires forall a, b :: le(f(a), f(b)) == le(a, b)
    ensures Mapped(Sort(s, le), f) == Sort(Mapped(s, f), le)
  {
    if s != [] {
      SortMapped(s[1..], f, le);
      assert Mapped(s, f)[1..] == Mapped(s[1..], f);
      InsertMapped(s[0], Sort(s[1..], le), f, le);
    }
  }

  lemma SortNormal(s: seq<Requirement>, collate: Collation)
    ensures NormalRequirements(Sort(s, RequirementOrder(collate))) == Sort(NormalRequirements(s), RequirementOrder(collate))
  {
    var le := RequirementOrder(collate);
    SortMapped(s, NormalRequirement, le);
    assert NormalRequirements(s) == Mapped(s, NormalRequirement);
    assert NormalRequirements(Sort(s, le)) == Mapped(Sort(s, le), NormalRequirement);
  }

  lemma SortNormalTwice(s: seq<Requirement>, collate: Collation)
    requires IsTotalPreorder(collate)
    ensures Sort(Sort(NormalRequirements(s), RequirementOrder(collate)), RequirementOrder(collate))
            == NormalRequirements(Sort(s, RequirementOrder(collate)))
  {
    RequirementOrderIsTotal(collate);
    SortSorts(NormalRequirements(s), RequirementOrder(collate));
    SortOfSorted(Sort(NormalRequirements(s), RequirementOrder(collate)), RequirementOrder(collate));
    SortNormal(s, collate);
  }

  /** The normal form of a requirement says the same and gives the same reason. */
  lemma NormalIsAlike(t: Template, u: Template, r: Requirement)
    requires t.id == u.id && t.layer == u.layer && t.version == u.version
    ensures AlikeInputs(Input(t, r), Input(u, NormalRequirement(r)))
  {
    SortPermutes(r.tags, ByCodeUnit);
    SortPermutes(r.dependsOn, ByCodeUnit);
  }

  lemma InputsOfAlike(collate: Collation, textOf: Condition -> string, t: Template)
    requires IsTotalPreorder(collate)
    ensures var a, b := InputsOf(collate, t), InputsOf(collate, NormalTemplate(collate, textOf, t));
            |a| == |b| && forall i :: 0 <= i < |a| ==> AlikeInputs(a[i], b[i])
  {
    var a, b := InputsOf(collate, t), InputsOf(collate, NormalTemplate(collate, textOf, t));
    SortNormalTwice(t.requirements, collate);
    forall i | 0 <= i < |a| ensures AlikeInputs(a[i], b[i]) {
      NormalIsAlike(t, NormalTemplate(collate, textOf, t), a[i].requirement);
    }
  }

  lemma {:induction false} InputsAlike(collate: Collation, textOf: Condition -> string, ts: seq<Template>)
    requires IsTotalPreorder(collate)
    ensures var a, b := Inputs(collate, ts), Inputs(collate, NormalTemplates(collate, textOf, ts));
            |a| == |b| && forall i :: 0 <= i < |a| ==> AlikeInputs(a[i], b[i])
  {
    if ts != [] {
      var n := |ts| - 1;
      var us := NormalTemplates(collate, textOf, ts);
      InputsAlike(collate, textOf, ts[..n]);
      assert us[..n] == NormalTemplates(collate, textOf, ts[..n]);
      InputsOfAlike(collate, textOf, ts[n]);
    }
  }

  /** Conditions in another order activate the same. */
  lemma NormalIsActive(profile: Profile, collate: Collation, textOf: Condition -> string, t: Template)
    ensures IsActive(profile, t) <==> IsActive(profile, NormalTemplate(collate, textOf, t))
  {
    if t.activation.Some? {
      var all, sorted := t.activation.value.all, Sort(t.activation.value.all, ConditionOrder(collate, textOf));
      SortKeepsElements(all, ConditionOrder(collate, textOf));
      assert (forall c :: c in all ==> ConditionMatches(profile, c)) <==> forall c :: c in sorted ==> ConditionMatches(profile, c);
      assert forall k :: 0 <= k < |all| ==> all[k] in all;
      assert forall k :: 0 <= k < |sorted| ==> sorted[k] in sorted;
    }
  }

  lemma {:induction false} ActiveAlike(profile: Profile, collate: Collation, textOf: Condition -> string, ts: seq<Template>)
    ensures Active(profile, NormalTemplates(collate, textOf, ts)) == NormalTemplates(collate, textOf, Active(profile, ts))
  {
    if ts != [] {
      ActiveAlike(profile, collate, textOf, ts[1..]);
      NormalIsActive(profile, collate, textOf, ts[0]);
      NormalCons(collate, textOf, ts[0], ts[1..]);
      NormalCons(collate, textOf, ts[0], Active(profile, ts[1..]));
      assert ts == [ts[0]] + ts[1..];
      ActiveCons(profile, ts[0], ts[1..]);
      ActiveCons(profile, NormalTemplate(collate, textOf, ts[0]), NormalTemplates(collate, textOf, ts[1..]));
    }
  }

  lemma NormalCons(collate: Collation, textOf: Condition -> string, t: Template, ts: seq<Template>)
    ensures NormalTemplates(collate, textOf, [t] + ts) == [NormalTemplate(collate, textOf, t)] + NormalTemplates(collate, textOf, ts)
  {
  }

  lemma ActiveCons(profile: Profile, t: Template, ts: seq<Template>)
    ensures Active(profile, [t] + ts) == if IsActive(profile, t) then [t] + Active(profile, ts) else Active(profile, ts)
  {
    assert ([t] + ts)[1..] == ts;
  }

  // ---------------------------------------------------------------- one fingerprint, one result

  lemma AssembleAlike(collate: Collation, a: seq<Template>, b: seq<Template>)
    requires var p, q := Inputs(collate, a), Inputs(collate, b);
             |p| == |q| && forall i :: 0 <= i < |p| ==> AlikeInputs(p[i], q[i])
    ensures AlikeStates(Assemble(collate, a), Assemble(collate, b))
  {
    var p, q := MergeAll(Inputs(collate, a)), MergeAll(Inputs(collate, b));
    MergeAlike(Inputs(collate, a), Inputs(collate, b));
    ClosureAlike(p, q);
    CyclesAlike(DependencyClosure(p).table, DependencyClosure(q).table);
  }

  /** Resolving templates in normal form gives the same result, conflicts and rationale included. */
  lemma NormalResolvesAlike(env: Env, participants: seq<Template>)
    requires IsTotalPreorder(env.collate)
    ensures ResolveParticipants(env, NormalTemplates(env.collate, env.conditionText, participants))
            == ResolveParticipants(env, participants)
  {
    var normal := NormalTemplates(env.collate, env.conditionText, participants);
    InputsAlike(env.collate, env.conditionText, participants);
    AssembleAlike(env.collate, participants, normal);
    AssembleIsWellFormed(env.collate, participants);
    var a, b := Assemble(env.collate, participants).table, Assemble(env.collate, normal).table;
    FrozenAlike(env.collate, a, b, a.keys);
    assert Taken(normal) == Taken(participants);
  }

  lemma NormalTakesSame(env: Env, ts: seq<Template>)
    ensures Taken(NormalTemplates(env.collate, env.conditionText, ts)) == Taken(ts)
  {
  }

  lemma SameNormalSameResult(env: Env, p: Profile, ts: seq<Template>, more: seq<Requirement>, q: Profile,
                             us: seq<Template>, bs: seq<Requirement>)
    requires IsTotalPreorder(env.collate) && NormalInput(env, p, ts, more) == NormalInput(env, q, us, bs)
    requires Resolve(env, p, ts, more).Ok? && Resolve(env, q, us, bs).Ok?
    ensures Resolve(env, p, ts, more) == Resolve(env, q, us, bs)
    ensures Taken(Supplied(env, p, ts, more)) == Taken(Supplied(env, q, us, bs))
  {
    ActiveAlike(p, env.collate, env.conditionText, Supplied(env, p, ts, more));
    ActiveAlike(p, env.collate, env.conditionText, Supplied(env, q, us, bs));
    NormalResolvesAlike(env, Participants(env, p, ts, more));
    NormalResolvesAlike(env, Participants(env, q, us, bs));
    NormalTakesSame(env, Supplied(env, p, ts, more));
    NormalTakesSame(env, Supplied(env, q, us, bs));
  }

  /**
   Two inputs have one fingerprint exactly when their normal forms agree; they then supply
   the same versions of the same templates and have one result.
   */
  lemma FingerprintDetermines(env: Env, p: Profile, ts: seq<Template>, more: seq<Requirement>, q: Profile,
                              us: seq<Template>, bs: seq<Requirement>)
    requires IsTotalPreorder(env.collate) && Injective(env.digest)
    requires Resolve(env, p, ts, more).Ok? && Resolve(env, q, us, bs).Ok?
    ensures var a, b := Resolve(env, p, ts, more).value, Resolve(env, q, us, bs).value;
            && (a.fingerprint == b.fingerprint <==> NormalInput(env, p, ts, more) == NormalInput(env, q, us, bs))
            && (a.fingerprint == b.fingerprint ==> a == b && Taken(Supplied(env, p, ts, more)) == Taken(Supplied(env, q, us, bs)))
  {
    if NormalInput(env, p, ts, more) == NormalInput(env, q, us, bs) {
      SameNormalSameResult(env, p, ts, more, q, us, bs);
    }
  }
}
