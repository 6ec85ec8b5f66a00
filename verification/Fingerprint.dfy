/**
 What the fingerprint of a resolution is taken of: the profile and the templates in normal
 form. The form forgets the order of tags, dependencies, requirements and conditions.
 */
module Fingerprint {
  import opened Wrappers
  import opened Ordering
  import opened Templates

  datatype Fingerprinted = Fingerprinted(profile: Profile, templates: seq<Template>)

  /** Defaults written out, lists sorted. */
  function NormalRequirement(r: Requirement): Requirement {
    Requirement(r.id, r.kind, Some(r.IsRequired()), Some(r.DepthOrBasic()), Sort(r.tags, ByCodeUnit),
                Sort(r.dependsOn, ByCodeUnit), r.constraint, Some(if r.description.None? then "" else r.description.value))
  }

  function NormalRequirements(requirements: seq<Requirement>): (r: seq<Requirement>)
    ensures |r| == |requirements| && forall k :: 0 <= k < |r| ==> r[k] == NormalRequirement(requirements[k])
  {
    seq(|requirements|, k requires 0 <= k < |requirements| => NormalRequirement(requirements[k]))
  }

  /** `textOf` is the JSON text of a condition. */
  function ConditionOrder(collate: Collation, textOf: Condition -> string): Order<Condition> {
    (a: Condition, b: Condition) => collate(textOf(a), textOf(b))
  }

  function NormalActivation(collate: Collation, textOf: Condition -> string,
                            activation: Option<Activation>): Option<Activation> {
    match activation
    case None => None
    case Some(a) => Some(a.(all := Sort(a.all, ConditionOrder(collate, textOf))))
  }

  function NormalTemplate(collate: Collation, textOf: Condition -> string, t: Template): Template {
    t.(activation := NormalActivation(collate, textOf, t.activation),
       requirements := Sort(NormalRequirements(t.requirements), RequirementOrder(collate)))
  }

  function NormalTemplates(collate: Collation, textOf: Condition -> string, templates: seq<Template>): (r: seq<Template>)
    ensures |r| == |templates|
  {
    seq(|templates|, k requires 0 <= k < |templates| => NormalTemplate(collate, textOf, templates[k]))
  }

  // ---------------------------------------------------------------- what the form forgets

  /** The requirements state the same: defaults made explicit or not, tags and dependencies in any order. */
  ghost predicate SameRequirement(a: Requirement, b: Requirement) {
    && a.id == b.id && a.kind == b.kind && a.IsRequired() == b.IsRequired() && a.DepthOrBasic() == b.DepthOrBasic()
    && multiset(a.tags) == multiset(b.tags) && multiset(a.dependsOn) == multiset(b.dependsOn) && a.constraint == b.constraint
    && (if a.description.None? then "" else a.description.value) == (if b.description.None? then "" else b.description.value)
  }

  /** Requirements have one normal form exactly when they state the same. */
  lemma SameRequirementExactly(a: Requirement, b: Requirement)
    ensures NormalRequirement(a) == NormalRequirement(b) <==> SameRequirement(a, b)
  {
    ByCodeUnitIsOrder();
    SortPermutes(a.tags, ByCodeUnit);
    SortPermutes(b.tags, ByCodeUnit);
    SortPermutes(a.dependsOn, ByCodeUnit);
    SortPermutes(b.dependsOn, ByCodeUnit);
    if SameRequirement(a, b) {
      SortForgetsOrder(a.tags, b.tags, ByCodeUnit);
      SortForgetsOrder(a.dependsOn, b.dependsOn, ByCodeUnit);
    }
  }

  /** No template states two requirements of one id and kind. */
  ghost predicate OneOfAKind(requirements: seq<Requirement>) {
    forall i, j :: 0 <= i < j < |requirements| ==>
      requirements[i].id != requirements[j].id || requirements[i].kind != requirements[j].kind
  }

  lemma RequirementOrderIsTotal(collate: Collation)
    requires IsTotalPreorder(collate)
    ensures IsTotalPreorder(RequirementOrder(collate))
  {
    forall a: Requirement, b: Requirement, c: Requirement
      ensures RequirementLe(collate, a, b) || RequirementLe(collate, b, a)
      ensures RequirementLe(collate, a, b) && RequirementLe(collate, b, c) ==> RequirementLe(collate, a, c)
    {
    }
  }

  /** Templates that differ only in the order of requirements and conditions have one normal form. */
  lemma NormalForgetsOrder(collate: Collation, textOf: Condition -> string, t: Template, u: Template)
    requires IsTotalOrder(collate) && forall a, b :: textOf(a) == textOf(b) ==> a == b
    requires u == t.(requirements := u.requirements, activation := u.activation) && OneOfAKind(t.requirements)
    requires multiset(NormalRequirements(t.requirements)) == multiset(NormalRequirements(u.requirements))
    requires t.activation.Some? == u.activation.Some?
    requires t.activation.Some? ==>
      && t.activation.value.explanation == u.activation.value.explanation
      && multiset(t.activation.value.all) == multiset(u.activation.value.all)
    ensures NormalTemplate(collate, textOf, t) == NormalTemplate(collate, textOf, u)
  {
    RequirementOrderIsTotal(collate);
    var a, b, le := NormalRequirements(t.requirements), NormalRequirements(u.requirements), RequirementOrder(collate);
    forall i, j | 0 <= i < |a| && 0 <= j < |a| && le(a[i], a[j]) && le(a[j], a[i]) ensures a[i] == a[j] {
      assert a[i].id == a[j].id && a[i].kind == a[j].kind;
      assert a[i].id == t.requirements[i].id && a[j].id == t.requirements[j].id;
    }
    SortForgetsOrder(a, b, le);
    if t.activation.Some? {
      ConditionOrderIsTotal(collate, textOf);
      SortForgetsOrder(t.activation.value.all, u.activation.value.all, ConditionOrder(collate, textOf));
    }
  }

  lemma ConditionOrderIsTotal(collate: Collation, textOf: Condition -> string)
    requires IsTotalOrder(collate) && forall a, b :: textOf(a) == textOf(b) ==> a == b
    ensures IsTotalOrder(ConditionOrder(collate, textOf))
  {
    var le := ConditionOrder(collate, textOf);
    forall a, b ensures (le(a, b) || le(b, a)) && (le(a, b) && le(b, a) ==> a == b) {
      assert collate(textOf(a), textOf(b)) || collate(textOf(b), textOf(a));
    }
    forall a, b, c | le(a, b) && le(b, c) ensures le(a, c) {
      assert collate(textOf(a), textOf(b)) && collate(textOf(b), textOf(c));
    }
  }
}
