/**
 Blueprint templates and their canonical order: by authority layer, then by id, then by
 version. Ids are compared by the locale's collation, which is a parameter here.
 */
module Templates {
  import opened Wrappers
  import opened Ordering
  import opened Text

  datatype Layer = Constitution | BlueprintLevel | ProjectType | DomainCapability | ProjectAddition {
    function Rank(): nat {
      match this
      case Constitution => 0
      case BlueprintLevel => 1
      case ProjectType => 2
      case DomainCapability => 3
      case ProjectAddition => 4
    }

    function Name(): string {
      match this
      case Constitution => "constitution"
      case BlueprintLevel => "blueprint-level"
      case ProjectType => "project-type"
      case DomainCapability => "domain-capability"
      case ProjectAddition => "project-addition"
    }
  }

  datatype Kind = Module | Gate {
    function Name(): string {
      if Module? then "module" else "gate"
    }
  }

  datatype Depth = Basic | Standard | Advanced | Critical {
    function Rank(): nat {
      match this
      case Basic => 0
      case Standard => 1
      case Advanced => 2
      case Critical => 3
    }
  }

  /** A requirement as a template states it; what is left out has a default. */
  datatype Requirement = Requirement(
    id: string, kind: Kind, required: Option<bool>, depth: Option<Depth>,
    tags: seq<string>, dependsOn: seq<string>, constraint: Option<string>, description: Option<string>)
  {
    predicate IsRequired() {
      required.None? || required.value
    }

    function DepthOrBasic(): Depth {
      if depth.None? then Basic else depth.value
    }
  }

  /** A semantic version as parsed, and as written; no pre-release is the empty text. */
  datatype Version = Version(major: nat, minor: nat, patch: nat, pre: string, text: string)

  datatype Field =
    | Level | Type | DataSensitivity | Persistence | Authentication | Authorization
    | OfflineRequirement | AiUse | ExtensibilityRequirement | ExpectedLifetime | ExternalIntegrations

  datatype FieldValue = Text(text: string) | Texts(texts: seq<string>)

  /** A project profile: the fields an activation may read, and the text of all that resolution does not read. */
  datatype Profile = Profile(schemaVersion: string, projectId: string, fields: map<Field, FieldValue>, rest: string)

  datatype Operator = Equals | Includes

  datatype Condition = Condition(field: Field, operator: Operator, value: string)

  datatype Activation = Activation(all: seq<Condition>, explanation: string)

  datatype Template = Template(
    id: string, version: Version, layer: Layer, activation: Option<Activation>, requirements: seq<Requirement>)

  /** The layers from the highest authority down, and the depths from the least up. */
  const LAYERS: seq<Layer> := [Constitution, BlueprintLevel, ProjectType, DomainCapability, ProjectAddition]
  const DEPTHS: seq<Depth> := [Basic, Standard, Advanced, Critical]

  lemma RanksArePlaces(layer: Layer, depth: Depth)
    ensures layer.Rank() < |LAYERS| && LAYERS[layer.Rank()] == layer
    ensures depth.Rank() < |DEPTHS| && DEPTHS[depth.Rank()] == depth
  {
  }

  // ---------------------------------------------------------------- activation

  predicate ConditionMatches(profile: Profile, condition: Condition) {
    && condition.field in profile.fields
    && match (condition.operator, profile.fields[condition.field])
       case (Equals, Text(text)) => text == condition.value
       case (Includes, Texts(texts)) => condition.value in texts
       case _ => false
  }

  /** A conditional template must explain itself, whether or not its conditions hold. */
  predicate Explained(template: Template) {
    template.activation.Some? ==> !IsBlank(template.activation.value.explanation)
  }

  predicate IsActive(profile: Profile, template: Template) {
    template.activation.None? ||
    forall k :: 0 <= k < |template.activation.value.all| ==> ConditionMatches(profile, template.activation.value.all[k])
  }

  // ---------------------------------------------------------------- canonical order

  /** `localeCompare`, as the order it induces. */
  type Collation = Order<string>

  predicate TiesOn(collate: Collation, a: string, b: string) {
    collate(a, b) && collate(b, a)
  }

  predicate VersionLe(collate: Collation, a: Version, b: Version) {
    if a.major != b.major then a.major < b.major
    else if a.minor != b.minor then a.minor < b.minor
    else if a.patch != b.patch then a.patch < b.patch
    else if a.pre == b.pre then true
    else if a.pre == "" then false
    else if b.pre == "" then true
    else collate(a.pre, b.pre)
  }

  predicate TemplateLe(collate: Collation, a: Template, b: Template) {
    if a.layer != b.layer then a.layer.Rank() < b.layer.Rank()
    else if !TiesOn(collate, a.id, b.id) then collate(a.id, b.id)
    else VersionLe(collate, a.version, b.version)
  }

  function TemplateOrder(collate: Collation): Order<Template> {
    (a: Template, b: Template) => TemplateLe(collate, a, b)
  }

  /** Within a template: by id, then "gate" before "module". */
  predicate RequirementLe(collate: Collation, a: Requirement, b: Requirement) {
    if !TiesOn(collate, a.id, b.id) then collate(a.id, b.id)
    else collate(a.kind.Name(), b.kind.Name())
  }

  function RequirementOrder(collate: Collation): Order<Requirement> {
    (a: Requirement, b: Requirement) => RequirementLe(collate, a, b)
  }

  lemma VersionOrder(collate: Collation, a: Version, b: Version, c: Version)
    requires IsTotalPreorder(collate)
    ensures VersionLe(collate, a, b) || VersionLe(collate, b, a)
    ensures VersionLe(collate, a, b) && VersionLe(collate, b, c) ==> VersionLe(collate, a, c)
  {
  }

  lemma TemplateOrderIsTotal(collate: Collation)
    requires IsTotalPreorder(collate)
    ensures IsTotalPreorder(TemplateOrder(collate))
  {
    forall a: Template, b: Template, c: Template
      ensures TemplateLe(collate, a, b) || TemplateLe(collate, b, a)
      ensures TemplateLe(collate, a, b) && TemplateLe(collate, b, c) ==> TemplateLe(collate, a, c)
    {
      VersionOrder(collate, a.version, b.version, c.version);
    }
  }

  /** The templates in canonical order, a project's own additions supplied last. */
  function Canonical(collate: Collation, supplied: seq<Template>, additions: seq<Template>): seq<Template> {
    Sort(supplied + additions, TemplateOrder(collate))
  }

  ghost predicate UniqueIds(templates: seq<Template>) {
    forall i, j :: 0 <= i < j < |templates| ==> templates[i].id != templates[j].id
  }

  /** Puts an element after the last one it is not below. */
  function InsertLast<T>(x: T, s: seq<T>, le: Order<T>): seq<T> {
    if s == [] || !le(s[0], x) then [x] + s
    else [s[0]] + InsertLast(x, s[1..], le)
  }

  lemma {:induction false} InsertsCommute<T(!new)>(a: T, x: T, s: seq<T>, le: Order<T>)
    requires IsTotalPreorder(le)
    ensures InsertLast(x, Insert(a, s, le), le) == Insert(a, InsertLast(x, s, le), le)
  {
    if s != [] {
      InsertsCommute(a, x, s[1..], le);
      assert ([a] + s)[1..] == s && ([x] + s)[1..] == s;
      assert ([s[0]] + Insert(a, s[1..], le))[1..] == Insert(a, s[1..], le);
      assert ([s[0]] + InsertLast(x, s[1..], le))[1..] == InsertLast(x, s[1..], le);
    }
  }

  /** Sorting a list with one more element at its end inserts that element last among its equals. */
  lemma {:induction false} SortWithLast<T(!new)>(s: seq<T>, x: T, le: Order<T>)
    requires IsTotalPreorder(le)
    ensures Sort(s + [x], le) == InsertLast(x, Sort(s, le), le)
  {
    if s == [] {
      assert s + [x] == [x] && [x][1..] == [];
    } else {
      SortWithLast(s[1..], x, le);
      assert (s + [x])[1..] == s[1..] + [x];
      InsertsCommute(s[0], x, Sort(s[1..], le), le);
    }
  }

  lemma UniqueIdsAreStrict(collate: Collation, templates: seq<Template>)
    requires IsTotalOrder(collate) && UniqueIds(templates)
    ensures IsStrictOn(templates, TemplateOrder(collate))
  {
  }

  /** The canonical order does not depend on the order in which templates were supplied. */
  lemma CanonicalForgetsOrder(collate: Collation, a: seq<Template>, b: seq<Template>, additions: seq<Template>)
    requires IsTotalOrder(collate) && UniqueIds(a) && multiset(a) == multiset(b) && |additions| <= 1
    ensures Canonical(collate, a, additions) == Canonical(collate, b, additions)
  {
    var le := TemplateOrder(collate);
    TemplateOrderIsTotal(collate);
    UniqueIdsAreStrict(collate, a);
    SortForgetsOrder(a, b, le);
    if |additions| == 1 {
      assert additions == [additions[0]];
      SortWithLast(a, additions[0], le);
      SortWithLast(b, additions[0], le);
    } else {
      assert a + additions == a && b + additions == b;
    }
  }
}
