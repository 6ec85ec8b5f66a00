/** Canonical backups: what is exported, what verifies, and what a restore would bring back. */
module Portability {
  import opened Wrappers
  import opened Text
  import opened Ordering
  import opened Sets
  import opened StableJson

  /** The profile or the blueprint of a project. */
  datatype Root = Root(projectId: string, rest: seq<Field>)

  /** A record of a list; `owner` is its project, or its gate if it is gate evidence. */
  datatype Item = Item(id: string, owner: string, rest: seq<Field>)

  datatype State = State(
    profile: Root, blueprint: Root, workPackages: seq<Item>, qualityGates: seq<Item>, gateEvidence: seq<Item>,
    architectureDecisions: seq<Item>, risks: seq<Item>, technicalDebt: seq<Item>, releases: seq<Item>, lessons: seq<Item>)
  {
    /** The lists whose records name their project, in the order they are checked. */
    function ProjectRecords(): seq<Item> {
      workPackages + qualityGates + architectureDecisions + risks + technicalDebt + releases + lessons
    }
  }

  datatype Fault =
    | ForeignBlueprint | ForeignRecord(id: string) | UnknownGate(id: string, gateId: string)
    | NoExportTime | NoSourceRevision
    | UnsupportedKind | UnsupportedSchema | ContradictoryProject | IntegrityFailed

  const KIND := "blueprint-os-canonical-backup"
  const SCHEMA := "1.0.0"

  datatype Envelope = Envelope(
    kind: string, schemaVersion: string, projectId: string, exportedAt: string, sourceRevision: string,
    payloadHash: string, payload: State)

  datatype Preview = Preview(projectId: string, sourceRevision: string, payloadHash: string, recordCounts: seq<nat>, state: State)

  // ---------------------------------------------------------------- identity

  function FirstForeign(items: seq<Item>, projectId: string): Option<Fault> {
    if items == [] then None
    else if items[0].owner != projectId then Some(ForeignRecord(items[0].id))
    else FirstForeign(items[1..], projectId)
  }

  predicate HasId(items: seq<Item>, id: string) {
    exists k :: 0 <= k < |items| && items[k].id == id
  }

  function FirstStray(evidence: seq<Item>, gates: seq<Item>): Option<Fault> {
    if evidence == [] then None
    else if !HasId(gates, evidence[0].owner) then Some(UnknownGate(evidence[0].id, evidence[0].owner))
    else FirstStray(evidence[1..], gates)
  }

  /** The first thing that contradicts the project of the profile. */
  function IdentityFault(s: State): Option<Fault> {
    if s.blueprint.projectId != s.profile.projectId then Some(ForeignBlueprint)
    else
      var foreign := FirstForeign(s.ProjectRecords(), s.profile.projectId);
      if foreign.Some? then foreign else FirstStray(s.gateEvidence, s.qualityGates)
  }

  /** Everything belongs to the project of the profile. */
  ghost predicate Consistent(s: State) {
    && s.blueprint.projectId == s.profile.projectId
    && (forall i :: i in s.ProjectRecords() ==> i.owner == s.profile.projectId)
    && forall e :: e in s.gateEvidence ==> HasId(s.qualityGates, e.owner)
  }

  lemma {:induction false} NoForeign(items: seq<Item>, projectId: string)
    ensures FirstForeign(items, projectId).None? <==> forall i :: i in items ==> i.owner == projectId
  {
    if items != [] {
      NoForeign(items[1..], projectId);
      assert items == [items[0]] + items[1..];
    }
  }

  lemma {:induction false} NoStray(evidence: seq<Item>, gates: seq<Item>)
    ensures FirstStray(evidence, gates).None? <==> forall e :: e in evidence ==> HasId(gates, e.owner)
  {
    if evidence != [] {
      NoStray(evidence[1..], gates);
      assert evidence == [evidence[0]] + evidence[1..];
    }
  }

  lemma FaultlessExactly(s: State)
    ensures IdentityFault(s).None? <==> Consistent(s)
  {
    NoForeign(s.ProjectRecords(), s.profile.projectId);
    NoStray(s.gateEvidence, s.qualityGates);
  }

  // ---------------------------------------------------------------- normal form

  function ById(collate: Order<string>): Order<Item> {
    (a: Item, b: Item) => collate(a.id, b.id)
  }

  function SortById(items: seq<Item>, collate: Order<string>): seq<Item> {
    Sort(items, ById(collate))
  }

  /** Every list in the order of its ids. */
  function Normal(s: State, collate: Order<string>): State {
    State(s.profile, s.blueprint, SortById(s.workPackages, collate), SortById(s.qualityGates, collate),
          SortById(s.gateEvidence, collate), SortById(s.architectureDecisions, collate), SortById(s.risks, collate),
          SortById(s.technicalDebt, collate), SortById(s.releases, collate), SortById(s.lessons, collate))
  }

  function ItemJson(i: Item, ownerKey: string): Json {
    Object([Field("id", Scalar(i.id)), Field(ownerKey, Scalar(i.owner))] + i.rest)
  }

  function ItemsJson(items: seq<Item>, ownerKey: string): Json {
    List(seq(|items|, k requires 0 <= k < |items| => ItemJson(items[k], ownerKey)))
  }

  function RootJson(r: Root): Json {
    Object([Field("projectId", Scalar(r.projectId))] + r.rest)
  }

  function StateJson(s: State): Json {
    Object([
      Field("profile", RootJson(s.profile)), Field("blueprint", RootJson(s.blueprint)),
      Field("workPackages", ItemsJson(s.workPackages, "projectId")), Field("qualityGates", ItemsJson(s.qualityGates, "projectId")),
      Field("gateEvidence", ItemsJson(s.gateEvidence, "gateId")),
      Field("architectureDecisions", ItemsJson(s.architectureDecisions, "projectId")), Field("risks", ItemsJson(s.risks, "projectId")),
      Field("technicalDebt", ItemsJson(s.technicalDebt, "projectId")), Field("releases", ItemsJson(s.releases, "projectId")),
      Field("lessons", ItemsJson(s.lessons, "projectId"))])
  }

  /** What a hash is taken of. */
  function Digested(s: State, collate: Order<string>): Json {
    Stable(StateJson(s), collate)
  }

  // ---------------------------------------------------------------- backup, verification, preview

  /** `seal` is the digest of the text of a value. */
  function HashOf(s: State, collate: Order<string>, seal: Json -> string): string {
    "sha256:" + seal(Digested(s, collate))
  }

  function CreateBackup(s: State, exportedAt: string, sourceRevision: string, collate: Order<string>,
                        seal: Json -> string): Result<Envelope, Fault> {
    if IsBlank(exportedAt) then Err(NoExportTime)
    else if IsBlank(sourceRevision) then Err(NoSourceRevision)
    else
      match IdentityFault(s)
      case Some(f) => Err(f)
      case None =>
        var payload := Normal(s, collate);
        Ok(Envelope(KIND, SCHEMA, payload.profile.projectId, Trim(exportedAt), Trim(sourceRevision), HashOf(payload, collate, seal), payload))
  }

  function VerifyBackup(e: Envelope, collate: Order<string>, seal: Json -> string): Option<Fault> {
    if e.kind != KIND then Some(UnsupportedKind)
    else if e.schemaVersion != SCHEMA then Some(UnsupportedSchema)
    else if e.projectId != e.payload.profile.projectId then Some(ContradictoryProject)
    else
      var f := IdentityFault(e.payload);
      if f.Some? then f
      else if e.payloadHash != HashOf(Normal(e.payload, collate), collate, seal) then Some(IntegrityFailed)
      else None
  }

  function Counts(s: State): seq<nat> {
    [1, 1, |s.workPackages|, |s.qualityGates|, |s.gateEvidence|, |s.architectureDecisions|, |s.risks|, |s.technicalDebt|, |s.releases|, |s.lessons|]
  }

  function RestorePreview(e: Envelope, collate: Order<string>, seal: Json -> string): Result<Preview, Fault> {
    match VerifyBackup(e, collate, seal)
    case Some(f) => Err(f)
    case None =>
      var state := Normal(e.payload, collate);
      Ok(Preview(e.projectId, e.sourceRevision, e.payloadHash, Counts(state), state))
  }

  // ---------------------------------------------------------------- the normal form is one

  lemma ByIdIsPreorder(collate: Order<string>)
    requires IsTotalPreorder(collate)
    ensures IsTotalPreorder(ById(collate))
  {
    var le := ById(collate);
    forall a, b ensures le(a, b) || le(b, a) {
      assert collate(a.id, b.id) || collate(b.id, a.id);
    }
    forall a, b, c | le(a, b) && le(b, c) ensures le(a, c) {
      assert collate(a.id, b.id) && collate(b.id, c.id);
    }
  }

  lemma SortByIdTwice(items: seq<Item>, collate: Order<string>)
    requires IsTotalPreorder(collate)
    ensures SortById(SortById(items, collate), collate) == SortById(items, collate)
  {
    ByIdIsPreorder(collate);
    SortSorts(items, ById(collate));
    SortOfSorted(SortById(items, collate), ById(collate));
  }

  /** A normal state is its own normal form. */
  lemma NormalTwice(s: State, collate: Order<string>)
    requires IsTotalPreorder(collate)
    ensures Normal(Normal(s, collate), collate) == Normal(s, collate)
  {
    SortByIdTwice(s.workPackages, collate);
    SortByIdTwice(s.qualityGates, collate);
    SortByIdTwice(s.gateEvidence, collate);
    SortByIdTwice(s.architectureDecisions, collate);
    SortByIdTwice(s.risks, collate);
    SortByIdTwice(s.technicalDebt, collate);
    SortByIdTwice(s.releases, collate);
    SortByIdTwice(s.lessons, collate);
  }

  /** The normal form holds the same records. */
  lemma NormalKeepsRecords(s: State, collate: Order<string>)
    ensures forall i :: i in Normal(s, collate).ProjectRecords() <==> i in s.ProjectRecords()
    ensures forall e :: e in Normal(s, collate).gateEvidence <==> e in s.gateEvidence
    ensures forall g :: g in Normal(s, collate).qualityGates <==> g in s.qualityGates
  {
    var le := ById(collate);
    SortKeepsElements(s.workPackages, le);
    SortKeepsElements(s.qualityGates, le);
    SortKeepsElements(s.gateEvidence, le);
    SortKeepsElements(s.architectureDecisions, le);
    SortKeepsElements(s.risks, le);
    SortKeepsElements(s.technicalDebt, le);
    SortKeepsElements(s.releases, le);
    SortKeepsElements(s.lessons, le);
  }

  lemma NormalIsConsistent(s: State, collate: Order<string>)
    ensures Consistent(Normal(s, collate)) <==> Consistent(s)
  {
    NormalKeepsRecords(s, collate);
    SameIds(s.qualityGates, Normal(s, collate).qualityGates);
  }

  lemma SameIds(a: seq<Item>, b: seq<Item>)
    requires forall g :: g in a <==> g in b
    ensures forall id :: HasId(a, id) <==> HasId(b, id)
  {
    forall id ensures HasId(a, id) <==> HasId(b, id) {
      if HasId(a, id) {
        var k :| 0 <= k < |a| && a[k].id == id;
        assert a[k] in b;
      }
      if HasId(b, id) {
        var k :| 0 <= k < |b| && b[k].id == id;
        assert b[k] in a;
      }
    }
  }

  // ---------------------------------------------------------------- the round trip

  /** A backup is made exactly of consistent states, and comes back as the state's normal form. */
  lemma BackupRoundTrip(s: State, exportedAt: string, sourceRevision: string, collate: Order<string>, seal: Json -> string)
    requires IsTotalPreorder(collate)
    ensures CreateBackup(s, exportedAt, sourceRevision, collate, seal).Ok? <==>
            !IsBlank(exportedAt) && !IsBlank(sourceRevision) && Consistent(s)
    ensures CreateBackup(s, exportedAt, sourceRevision, collate, seal).Ok? ==>
      var e := CreateBackup(s, exportedAt, sourceRevision, collate, seal).value;
      && e.kind == KIND && e.schemaVersion == SCHEMA && e.projectId == s.profile.projectId
      && e.exportedAt == Trim(exportedAt) && e.sourceRevision == Trim(sourceRevision) && e.payload == Normal(s, collate)
      && VerifyBackup(e, collate, seal) == None
      && RestorePreview(e, collate, seal)
         == Ok(Preview(s.profile.projectId, Trim(sourceRevision), e.payloadHash, Counts(s), Normal(s, collate)))
  {
    FaultlessExactly(s);
    FaultlessExactly(Normal(s, collate));
    NormalIsConsistent(s, collate);
    NormalTwice(s, collate);
  }

  /** The same records, in the order of their ids. */
  ghost predicate Arranged(given: seq<Item>, listed: seq<Item>, collate: Order<string>) {
    multiset(listed) == multiset(given) && forall i, j :: 0 <= i < j < |listed| ==> collate(listed[i].id, listed[j].id)
  }

  lemma SortArranges(items: seq<Item>, collate: Order<string>)
    requires IsTotalPreorder(collate)
    ensures Arranged(items, SortById(items, collate), collate)
  {
    ByIdIsPreorder(collate);
    SortPermutes(items, ById(collate));
    SortSorts(items, ById(collate));
  }

  ghost predicate ArrangedState(given: State, shown: State, collate: Order<string>) {
    && shown.profile == given.profile && shown.blueprint == given.blueprint
    && Arranged(given.workPackages, shown.workPackages, collate) && Arranged(given.qualityGates, shown.qualityGates, collate)
    && Arranged(given.gateEvidence, shown.gateEvidence, collate)
    && Arranged(given.architectureDecisions, shown.architectureDecisions, collate)
    && Arranged(given.risks, shown.risks, collate) && Arranged(given.technicalDebt, shown.technicalDebt, collate)
    && Arranged(given.releases, shown.releases, collate) && Arranged(given.lessons, shown.lessons, collate)
  }

  /** A preview shows the records of the backup list by list, each list in the order of its ids, and counts them. */
  lemma PreviewIsArranged(e: Envelope, collate: Order<string>, seal: Json -> string)
    requires IsTotalPreorder(collate) && RestorePreview(e, collate, seal).Ok?
    ensures var p := RestorePreview(e, collate, seal).value;
      && p.projectId == e.projectId && p.sourceRevision == e.sourceRevision && p.payloadHash == e.payloadHash
      && ArrangedState(e.payload, p.state, collate)
      && p.recordCounts == [1, 1, |e.payload.workPackages|, |e.payload.qualityGates|, |e.payload.gateEvidence|,
                            |e.payload.architectureDecisions|, |e.payload.risks|, |e.payload.technicalDebt|,
                            |e.payload.releases|, |e.payload.lessons|]
  {
    var s := e.payload;
    SortArranges(s.workPackages, collate);
    SortArranges(s.qualityGates, collate);
    SortArranges(s.gateEvidence, collate);
    SortArranges(s.architectureDecisions, collate);
    SortArranges(s.risks, collate);
    SortArranges(s.technicalDebt, collate);
    SortArranges(s.releases, collate);
    SortArranges(s.lessons, collate);
  }

  /** The lists hold the same records under distinct ids, in any order. */
  ghost predicate Reordered(a: seq<Item>, b: seq<Item>) {
    multiset(a) == multiset(b) && forall i, j :: 0 <= i < j < |a| ==> a[i].id != a[j].id
  }

  ghost predicate ReorderedState(s: State, t: State) {
    && s.profile == t.profile && s.blueprint == t.blueprint
    && Reordered(s.workPackages, t.workPackages) && Reordered(s.qualityGates, t.qualityGates)
    && Reordered(s.gateEvidence, t.gateEvidence) && Reordered(s.architectureDecisions, t.architectureDecisions)
    && Reordered(s.risks, t.risks) && Reordered(s.technicalDebt, t.technicalDebt)
    && Reordered(s.releases, t.releases) && Reordered(s.lessons, t.lessons)
  }

  lemma SortByIdForgetsOrder(a: seq<Item>, b: seq<Item>, collate: Order<string>)
    requires IsTotalOrder(collate) && Reordered(a, b)
    ensures SortById(a, collate) == SortById(b, collate)
  {
    ByIdIsPreorder(collate);
    var le := ById(collate);
    forall i, j | 0 <= i < |a| && 0 <= j < |a| && le(a[i], a[j]) && le(a[j], a[i]) ensures a[i] == a[j] {
      assert a[i].id == a[j].id;
    }
    SortForgetsOrder(a, b, le);
  }

  /** The hash of a backup does not depend on the order of records. */
  lemma HashForgetsOrder(s: State, t: State, collate: Order<string>, seal: Json -> string)
    requires IsTotalOrder(collate) && ReorderedState(s, t)
    ensures Normal(s, collate) == Normal(t, collate)
    ensures HashOf(Normal(s, collate), collate, seal) == HashOf(Normal(t, collate), collate, seal)
  {
    SortByIdForgetsOrder(s.workPackages, t.workPackages, collate);
    SortByIdForgetsOrder(s.qualityGates, t.qualityGates, collate);
    SortByIdForgetsOrder(s.gateEvidence, t.gateEvidence, collate);
    SortByIdForgetsOrder(s.architectureDecisions, t.architectureDecisions, collate);
    SortByIdForgetsOrder(s.risks, t.risks, collate);
    SortByIdForgetsOrder(s.technicalDebt, t.technicalDebt, collate);
    SortByIdForgetsOrder(s.releases, t.releases, collate);
    SortByIdForgetsOrder(s.lessons, t.lessons, collate);
  }

  // ---------------------------------------------------------------- the same content, record by record

  ghost predicate SameRoot(a: Root, b: Root) {
    a.projectId == b.projectId && SameValue(Object(a.rest), Object(b.rest))
  }

  ghost predicate SameItem(a: Item, b: Item) {
    a.id == b.id && a.owner == b.owner && SameValue(Object(a.rest), Object(b.rest))
  }

  ghost predicate SameItems(a: seq<Item>, b: seq<Item>) {
    |a| == |b| && forall k :: 0 <= k < |a| ==> SameItem(a[k], b[k])
  }

  /** The states hold the same records in the same places, up to the order of fields within a record. */
  ghost predicate SameState(s: State, t: State) {
    && SameRoot(s.profile, t.profile) && SameRoot(s.blueprint, t.blueprint)
    && SameItems(s.workPackages, t.workPackages) && SameItems(s.qualityGates, t.qualityGates)
    && SameItems(s.gateEvidence, t.gateEvidence) && SameItems(s.architectureDecisions, t.architectureDecisions)
    && SameItems(s.risks, t.risks) && SameItems(s.technicalDebt, t.technicalDebt)
    && SameItems(s.releases, t.releases) && SameItems(s.lessons, t.lessons)
  }

  lemma SameItemExactly(a: Item, b: Item, ownerKey: string)
    requires AllDistinct(ItemJson(a, ownerKey)) && AllDistinct(ItemJson(b, ownerKey))
    ensures SameValue(ItemJson(a, ownerKey), ItemJson(b, ownerKey)) <==> SameItem(a, b)
  {
    var idA, ownerA := Field("id", Scalar(a.id)), Field(ownerKey, Scalar(a.owner));
    var idB, ownerB := Field("id", Scalar(b.id)), Field(ownerKey, Scalar(b.owner));
    assert [idA, ownerA] + a.rest == [idA] + ([ownerA] + a.rest);
    assert [idB, ownerB] + b.rest == [idB] + ([ownerB] + b.rest);
    LeadingField(idA, [ownerA] + a.rest, idB, [ownerB] + b.rest);
    LeadingField(ownerA, a.rest, ownerB, b.rest);
  }

  lemma SameItemsExactly(a: seq<Item>, b: seq<Item>, ownerKey: string)
    requires AllDistinct(ItemsJson(a, ownerKey)) && AllDistinct(ItemsJson(b, ownerKey))
    ensures SameValue(ItemsJson(a, ownerKey), ItemsJson(b, ownerKey)) <==> SameItems(a, b)
  {
    var v, w := ItemsJson(a, ownerKey), ItemsJson(b, ownerKey);
    if |a| == |b| {
      forall k | 0 <= k < |a| ensures SameValue(v.items[k], w.items[k]) <==> SameItem(a[k], b[k]) {
        assert AllDistinct(v.items[k]) && AllDistinct(w.items[k]);
        SameItemExactly(a[k], b[k], ownerKey);
      }
    }
  }

  lemma SameRootExactly(a: Root, b: Root)
    requires AllDistinct(RootJson(a)) && AllDistinct(RootJson(b))
    ensures SameValue(RootJson(a), RootJson(b)) <==> SameRoot(a, b)
  {
    LeadingField(Field("projectId", Scalar(a.projectId)), a.rest, Field("projectId", Scalar(b.projectId)), b.rest);
  }

  /** The parts of a state's value. */
  lemma PartsDistinct(s: State)
    requires AllDistinct(StateJson(s))
    ensures AllDistinct(RootJson(s.profile)) && AllDistinct(RootJson(s.blueprint))
    ensures AllDistinct(ItemsJson(s.workPackages, "projectId")) && AllDistinct(ItemsJson(s.qualityGates, "projectId"))
    ensures AllDistinct(ItemsJson(s.gateEvidence, "gateId")) && AllDistinct(ItemsJson(s.architectureDecisions, "projectId"))
    ensures AllDistinct(ItemsJson(s.risks, "projectId")) && AllDistinct(ItemsJson(s.technicalDebt, "projectId"))
    ensures AllDistinct(ItemsJson(s.releases, "projectId")) && AllDistinct(ItemsJson(s.lessons, "projectId"))
  {
    var fields := StateJson(s).fields;
    assert AllDistinct(fields[0].value) && AllDistinct(fields[1].value) && AllDistinct(fields[2].value);
    assert AllDistinct(fields[3].value) && AllDistinct(fields[4].value) && AllDistinct(fields[5].value);
    assert AllDistinct(fields[6].value) && AllDistinct(fields[7].value) && AllDistinct(fields[8].value);
    assert AllDistinct(fields[9].value);
  }

  /** A relation between the parts of two states. */
  ghost predicate ByParts(s: State, t: State, same: (Json, Json) -> bool) {
    && same(RootJson(s.profile), RootJson(t.profile)) && same(RootJson(s.blueprint), RootJson(t.blueprint))
    && same(ItemsJson(s.workPackages, "projectId"), ItemsJson(t.workPackages, "projectId"))
    && same(ItemsJson(s.qualityGates, "projectId"), ItemsJson(t.qualityGates, "projectId"))
    && same(ItemsJson(s.gateEvidence, "gateId"), ItemsJson(t.gateEvidence, "gateId"))
    && same(ItemsJson(s.architectureDecisions, "projectId"), ItemsJson(t.architectureDecisions, "projectId"))
    && same(ItemsJson(s.risks, "projectId"), ItemsJson(t.risks, "projectId"))
    && same(ItemsJson(s.technicalDebt, "projectId"), ItemsJson(t.technicalDebt, "projectId"))
    && same(ItemsJson(s.releases, "projectId"), ItemsJson(t.releases, "projectId"))
    && same(ItemsJson(s.lessons, "projectId"), ItemsJson(t.lessons, "projectId"))
  }

  lemma FieldsByParts(s: State, t: State, a: seq<Field>, b: seq<Field>, same: (Json, Json) -> bool)
    requires StateJson(s) == Object(a) && StateJson(t) == Object(b)
    ensures |a| == |b| == 10 && forall i :: 0 <= i < 10 ==> a[i].key == b[i].key
    ensures (forall i :: 0 <= i < 10 ==> same(a[i].value, b[i].value)) <==> ByParts(s, t, same)
  {
    if forall i :: 0 <= i < 10 ==> same(a[i].value, b[i].value) {
      assert same(a[0].value, b[0].value) && same(a[1].value, b[1].value) && same(a[2].value, b[2].value);
      assert same(a[3].value, b[3].value) && same(a[4].value, b[4].value) && same(a[5].value, b[5].value);
      assert same(a[6].value, b[6].value) && same(a[7].value, b[7].value) && same(a[8].value, b[8].value);
      assert same(a[9].value, b[9].value);
    }
  }

  lemma ObjectsByFields(a: seq<Field>, b: seq<Field>, same: (Json, Json) -> bool)
    requires same == ((v, w) => SameValue(v, w))
    requires DistinctKeys(a) && |a| == |b| == 10 && forall i :: 0 <= i < 10 ==> a[i].key == b[i].key
    ensures SameValue(Object(a), Object(b)) <==> forall i :: 0 <= i < 10 ==> same(a[i].value, b[i].value)
  {
    AlignedFields(a, b);
    assert forall i :: 0 <= i < 10 ==> (same(a[i].value, b[i].value) <==> SameValue(a[i].value, b[i].value));
  }

  lemma PartsAreRecords(s: State, t: State, same: (Json, Json) -> bool)
    requires same == ((v, w) => SameValue(v, w)) && AllDistinct(StateJson(s)) && AllDistinct(StateJson(t))
    ensures ByParts(s, t, same) <==> SameState(s, t)
  {
    PartsDistinct(s);
    PartsDistinct(t);
    SameRootExactly(s.profile, t.profile);
    SameRootExactly(s.blueprint, t.blueprint);
    SameItemsExactly(s.workPackages, t.workPackages, "projectId");
    SameItemsExactly(s.qualityGates, t.qualityGates, "projectId");
    SameItemsExactly(s.gateEvidence, t.gateEvidence, "gateId");
    SameItemsExactly(s.architectureDecisions, t.architectureDecisions, "projectId");
    SameItemsExactly(s.risks, t.risks, "projectId");
    SameItemsExactly(s.technicalDebt, t.technicalDebt, "projectId");
    SameItemsExactly(s.releases, t.releases, "projectId");
    SameItemsExactly(s.lessons, t.lessons, "projectId");
  }

  /** Equal values mean equal records, and the other way round. */
  lemma SameStateExactly(s: State, t: State)
    requires AllDistinct(StateJson(s)) && AllDistinct(StateJson(t))
    ensures SameValue(StateJson(s), StateJson(t)) <==> SameState(s, t)
  {
    var same := (v, w) => SameValue(v, w);
    var a, b := StateJson(s).fields, StateJson(t).fields;
    FieldsByParts(s, t, a, b, same);
    ObjectsByFields(a, b, same);
    PartsAreRecords(s, t, same);
  }

  lemma SortedItemsDistinct(items: seq<Item>, ownerKey: string, collate: Order<string>)
    requires AllDistinct(ItemsJson(items, ownerKey))
    ensures AllDistinct(ItemsJson(SortById(items, collate), ownerKey))
  {
    var sorted := SortById(items, collate);
    SortKeepsElements(items, ById(collate));
    forall k | 0 <= k < |sorted| ensures AllDistinct(ItemJson(sorted[k], ownerKey)) {
      assert sorted[k] in items;
      var j :| 0 <= j < |items| && items[j] == sorted[k];
      assert AllDistinct(ItemsJson(items, ownerKey).items[j]);
    }
  }

  lemma NormalIsDistinct(s: State, collate: Order<string>)
    requires AllDistinct(StateJson(s))
    ensures AllDistinct(StateJson(Normal(s, collate)))
  {
    PartsDistinct(s);
    SortedItemsDistinct(s.workPackages, "projectId", collate);
    SortedItemsDistinct(s.qualityGates, "projectId", collate);
    SortedItemsDistinct(s.gateEvidence, "gateId", collate);
    SortedItemsDistinct(s.architectureDecisions, "projectId", collate);
    SortedItemsDistinct(s.risks, "projectId", collate);
    SortedItemsDistinct(s.technicalDebt, "projectId", collate);
    SortedItemsDistinct(s.releases, "projectId", collate);
    SortedItemsDistinct(s.lessons, "projectId", collate);
    var a, b := StateJson(s).fields, StateJson(Normal(s, collate)).fields;
    forall i, j | 0 <= i < j < |b| ensures b[i].key != b[j].key {
      assert a[i].key == b[i].key && a[j].key == b[j].key;
    }
  }

  // ---------------------------------------------------------------- tampering

  /** Equal digested forms are equal records. */
  lemma DigestedExactly(s: State, t: State, collate: Order<string>)
    requires IsTotalOrder(collate) && AllDistinct(StateJson(s)) && AllDistinct(StateJson(t))
    ensures Digested(s, collate) == Digested(t, collate) <==> SameState(s, t)
  {
    StableExactly(StateJson(s), StateJson(t), collate);
    SameStateExactly(s, t);
  }

  lemma HashesExactly(s: State, t: State, collate: Order<string>, seal: Json -> string)
    requires Injective(seal)
    ensures HashOf(s, collate, seal) == HashOf(t, collate, seal) <==> Digested(s, collate) == Digested(t, collate)
  {
    var a, b := Digested(s, collate), Digested(t, collate);
    assert ("sha256:" + seal(a))[7..] == seal(a) && ("sha256:" + seal(b))[7..] == seal(b);
  }

  /** The envelope of a backup, with another payload put in. */
  lemma SwappedVerifies(s: State, exportedAt: string, sourceRevision: string, other: State, collate: Order<string>,
                        seal: Json -> string)
    requires CreateBackup(s, exportedAt, sourceRevision, collate, seal).Ok?
    ensures var e := CreateBackup(s, exportedAt, sourceRevision, collate, seal).value.(payload := other);
      VerifyBackup(e, collate, seal) == None <==>
        && other.profile.projectId == s.profile.projectId && IdentityFault(other).None?
        && HashOf(Normal(other, collate), collate, seal) == HashOf(Normal(s, collate), collate, seal)
  {
  }

  /**
   Another payload in a backup's envelope verifies exactly when it is consistent, of the same
   project, and its lists hold, in the order of their ids, record by record the same ids,
   owners and content as the state that was backed up.
   */
  lemma TamperingExactly(s: State, exportedAt: string, sourceRevision: string, other: State, collate: Order<string>,
                         seal: Json -> string)
    requires IsTotalOrder(collate) && Injective(seal)
    requires AllDistinct(StateJson(s)) && AllDistinct(StateJson(other))
    requires CreateBackup(s, exportedAt, sourceRevision, collate, seal).Ok?
    ensures var e := CreateBackup(s, exportedAt, sourceRevision, collate, seal).value.(payload := other);
      VerifyBackup(e, collate, seal) == None <==>
        && other.profile.projectId == s.profile.projectId && Consistent(other)
        && SameState(Normal(other, collate), Normal(s, collate))
  {
    var a, b := Normal(other, collate), Normal(s, collate);
    SwappedVerifies(s, exportedAt, sourceRevision, other, collate, seal);
    FaultlessExactly(other);
    HashesExactly(a, b, collate, seal);
    NormalIsDistinct(s, collate);
    NormalIsDistinct(other, collate);
    DigestedExactly(a, b, collate);
  }
}
