/**
 What an accepted patch leaves of the three JSON documents it may project a new version
 into: everything but the version field, whatever the order of fields.
 */
module PatchDocuments {
  import opened Wrappers
  import opened Text
  import opened Ordering
  import opened Sets
  import opened StableJson
  import opened PatchReplay
  import PatchInverse
  import PatchLoss
  import HunkHeader

  predicate Includes(s: string, part: string) {
    exists k | 0 <= k <= |s| :: part <= s[k..]
  }

  /** The field a new version may be written to. */
  function VersionField(path: string): string {
    if Includes(path, "ecosystem") then "activePolicyVersion" else "policyVersion"
  }

  /** The version fields of the three documents, in the order of their paths. */
  const VERSION_FIELDS: seq<string> := ["policyVersion", "activePolicyVersion", "policyVersion"]

  lemma VersionFieldsAre(k: nat)
    requires FIRST_DOCUMENT <= k < |PUBLICATION_PATHS|
    ensures VersionField(PUBLICATION_PATHS[k]) == VERSION_FIELDS[k - FIRST_DOCUMENT]
  {
    AdoptionField();
    EcosystemField();
    ComplianceField();
  }

  lemma AdoptionField()
    ensures VersionField(".blueprint/constitution-adoption.json") == "policyVersion"
  {
    var path := ".blueprint/constitution-adoption.json";
    IncludesLetters(path, "ecosystem", 'y');
    assert 'y' !in path;
  }

  lemma EcosystemField()
    ensures VersionField(CONTROL + "constitution-ecosystem-snapshot.json") == "activePolicyVersion"
  {
    assert "ecosystem" <= (CONTROL + "constitution-ecosystem-snapshot.json")[21..];
  }

  lemma ComplianceField()
    ensures VersionField(CONTROL + "constitution-compliance-snapshot.json") == "policyVersion"
  {
    var name := "constitution-compliance-snapshot.json";
    IncludesLetters(CONTROL + name, "ecosystem", 'y');
    assert 'y' !in CONTROL && 'y' !in name;
  }

  lemma IncludesLetters(s: string, part: string, c: char)
    requires c in part
    ensures Includes(s, part) ==> c in s
  {
    if k :| 0 <= k <= |s| && part <= s[k..] {
      var i :| 0 <= i < |part| && part[i] == c;
      assert s[k + i] == c;
    }
  }

  function Without(fields: seq<Field>, key: string): seq<Field> {
    if fields == [] then []
    else
      var last := fields[|fields| - 1];
      Without(fields[..|fields| - 1], key) + if last.key == key then [] else [last]
  }

  /** A document without its version field, in canonical form; `parse` and `text` are `JSON.parse` and `JSON.stringify`. */
  function VersionlessBy(parse: string -> Option<Json>, text: Json -> string, collate: Order<string>): Versionless {
    (path, bytes) =>
      match parse(bytes)
      case None => None
      case Some(Scalar(_)) => None
      case Some(List(items)) => Some(text(Stable(List(items), collate)))
      case Some(Object(fields)) => Some(text(Stable(Object(Without(fields, VersionField(path))), collate)))
  }

  lemma {:induction false} WithoutMeans(fields: seq<Field>, key: string)
    ensures forall f :: f in Without(fields, key) <==> f in fields && f.key != key
    ensures DistinctKeys(fields) ==> DistinctKeys(Without(fields, key))
  {
    if fields != [] {
      var rest, last := fields[..|fields| - 1], fields[|fields| - 1];
      WithoutMeans(rest, key);
      assert fields == rest + [last];
      if DistinctKeys(fields) {
        forall f | f in Without(rest, key) ensures f.key != last.key {
          assert f in rest;
          var k :| 0 <= k < |rest| && rest[k] == f;
          assert fields[k].key != fields[|rest|].key;
        }
      }
    }
  }

  lemma WithoutDistinct(fields: seq<Field>, key: string)
    requires AllDistinct(Object(fields))
    ensures AllDistinct(Object(Without(fields, key)))
  {
    WithoutMeans(fields, key);
    var kept := Without(fields, key);
    forall i | 0 <= i < |kept| ensures AllDistinct(kept[i].value) {
      assert kept[i] in fields;
      var k :| 0 <= k < |fields| && fields[k] == kept[i];
    }
  }

  /** Both documents are arrays, or objects that agree on every field but this one, up to the order of fields. */
  ghost predicate SameDocument(a: Option<Json>, b: Option<Json>, key: string) {
    && a.Some? && b.Some?
    && ((a.value.List? && SameValue(a.value, b.value))
        || (a.value.Object? && b.value.Object?
            && SameValue(Object(Without(a.value.fields, key)), Object(Without(b.value.fields, key)))))
  }

  lemma VersionlessExactly(parse: string -> Option<Json>, text: Json -> string, collate: Order<string>, path: string,
                           x: string, y: string)
    requires IsTotalOrder(collate) && Injective(text)
    requires (parse(x).Some? ==> AllDistinct(parse(x).value)) && (parse(y).Some? ==> AllDistinct(parse(y).value))
    ensures var versionless := VersionlessBy(parse, text, collate);
            versionless(path, x).Some? && versionless(path, x) == versionless(path, y) <==>
            SameDocument(parse(x), parse(y), VersionField(path))
  {
    if parse(x).Some? && parse(y).Some? {
      DocumentsAlike(parse(x).value, parse(y).value, text, collate, VersionField(path));
    }
  }

  /** What is compared of a document. */
  function Compared(v: Json, key: string): Json {
    if v.Object? then Object(Without(v.fields, key)) else v
  }

  lemma DocumentsAlike(v: Json, w: Json, text: Json -> string, collate: Order<string>, key: string)
    requires IsTotalOrder(collate) && Injective(text) && AllDistinct(v) && AllDistinct(w)
    ensures text(Stable(Compared(v, key), collate)) == text(Stable(Compared(w, key), collate)) <==>
            SameValue(Compared(v, key), Compared(w, key))
  {
    if v.Object? {
      WithoutDistinct(v.fields, key);
    }
    if w.Object? {
      WithoutDistinct(w.fields, key);
    }
    StableExactly(Compared(v, key), Compared(w, key), collate);
  }

  ghost predicate KeysDiffer(parse: string -> Option<Json>) {
    forall bytes :: parse(bytes).Some? ==> AllDistinct(parse(bytes).value)
  }

  /** Of the document at this path, nothing changes but the version field. */
  ghost predicate DocumentStays(before: Files, after: Files, parse: string -> Option<Json>, path: string, field: string) {
    path in before && path in after && SameDocument(parse(before[path]), parse(after[path]), field)
  }

  lemma DocumentKept(before: Files, after: Files, parse: string -> Option<Json>, text: Json -> string,
                     collate: Order<string>, path: string)
    requires IsTotalOrder(collate) && Injective(text) && KeysDiffer(parse)
    ensures var versionless := VersionlessBy(parse, text, collate);
            DocumentStays(before, after, parse, path, VersionField(path)) <==>
              && path in before && path in after && versionless(path, before[path]).Some?
              && versionless(path, before[path]) == versionless(path, after[path])
  {
    if path in before && path in after {
      VersionlessExactly(parse, text, collate, path, before[path], after[path]);
    }
  }

  lemma DocumentsKept(before: Files, after: Files, parse: string -> Option<Json>, versionless: Versionless)
    requires forall path :: DocumentStays(before, after, parse, path, VersionField(path)) <==>
               && path in before && path in after && versionless(path, before[path]).Some?
               && versionless(path, before[path]) == versionless(path, after[path])
    ensures KeepsDocuments(before, after, versionless) <==>
            forall k :: FIRST_DOCUMENT <= k < |PUBLICATION_PATHS| ==>
              DocumentStays(before, after, parse, PUBLICATION_PATHS[k], VERSION_FIELDS[k - FIRST_DOCUMENT])
  {
    forall k | FIRST_DOCUMENT <= k < |PUBLICATION_PATHS|
      ensures VersionField(PUBLICATION_PATHS[k]) == VERSION_FIELDS[k - FIRST_DOCUMENT]
    {
      VersionFieldsAre(k);
    }
  }

  lemma CompleteExactly(files: Files, patch: string)
    requires Sections(HunkHeader.Parse, PatchLines(patch), files, map[]).Ok?
    ensures var result := Sections(HunkHeader.Parse, PatchLines(patch), files, map[]).value;
            |result.Keys| == |PUBLICATION_PATHS| <==> result.Keys == PatchInverse.PathSet()
  {
    var result := Sections(HunkHeader.Parse, PatchLines(patch), files, map[]).value;
    PatchInverse.SectionsStayInScope(PatchInverse.UNIFIED, PatchLines(patch), files, map[]);
    PatchLoss.PathsDiffer();
    DistinctSize(PUBLICATION_PATHS);
    if |result.Keys| == |PUBLICATION_PATHS| {
      SubsetSize(result.Keys, PatchInverse.PathSet());
    }
  }

  /**
   A patch is accepted exactly when it ends with a line break, its sections replay over all
   eight paths, and of the last three, which are documents, nothing changes but the version
   field.
   */
  lemma AcceptedExactly(files: Files, patch: string, parse: string -> Option<Json>, text: Json -> string,
                        collate: Order<string>)
    requires IsTotalOrder(collate) && Injective(text) && KeysDiffer(parse)
    ensures var sections := Sections(HunkHeader.Parse, PatchLines(patch), files, map[]);
      Replay(files, patch, VersionlessBy(parse, text, collate)).Ok? <==>
        && EndsWith(patch, [NewLine]) && sections.Ok? && sections.value.Keys == PatchInverse.PathSet()
        && forall k :: FIRST_DOCUMENT <= k < |PUBLICATION_PATHS| ==>
             DocumentStays(files, sections.value, parse, PUBLICATION_PATHS[k], VERSION_FIELDS[k - FIRST_DOCUMENT])
  {
    var sections := Sections(HunkHeader.Parse, PatchLines(patch), files, map[]);
    if sections.Ok? {
      CompleteExactly(files, patch);
      forall path
        ensures var versionless := VersionlessBy(parse, text, collate);
                DocumentStays(files, sections.value, parse, path, VersionField(path)) <==>
                  && path in files && path in sections.value && versionless(path, files[path]).Some?
                  && versionless(path, files[path]) == versionless(path, sections.value[path])
      {
        DocumentKept(files, sections.value, parse, text, collate, path);
      }
      DocumentsKept(files, sections.value, parse, VersionlessBy(parse, text, collate));
    }
  }
}
