/**
 Strict replay of the Constitution publication patch: a unified diff over eight fixed
 paths, with no offsets, no fuzz and no other path.
 */
module PatchReplay {
  import opened Wrappers
  import opened Text
  import HunkHeader

  const CONTROL := "control/"
  const APPLICATION := "packages/application/src/"

  const PUBLICATION_PATHS: seq<string> := [
    "docs/UNIVERSAL-CONSTITUTION.md", CONTROL + "universal-constitution.contract.json",
    APPLICATION + "foundation-templates.ts", APPLICATION + "constitution-authority.ts",
    CONTROL + "universal-constitution-version.json", ".blueprint/constitution-adoption.json",
    CONTROL + "constitution-ecosystem-snapshot.json", CONTROL + "constitution-compliance-snapshot.json"
  ]

  /** The paths from this position on are JSON documents that only a version field may change in. */
  const FIRST_DOCUMENT := 5

  datatype Error =
    | TrailingData | UnexpectedPath | BadFileHeader | MissingSource
    | BadHunk | SourceDrift | TargetDrift | BadEncoding | ContextMismatch | CountMismatch
    | EmptyFilePatch | IncompletePatch | RewritesEvidence

  type Files = map<string, string>

  /** Reads a hunk header line. Replay is stated for any such reader; the interpreter uses HunkHeader.Parse. */
  type Reader = string -> Option<HunkHeader.Header>

  /**
   The JSON document behind a path and its bytes, in canonical form and without its
   version field; None where the bytes are not a JSON object or array.
   */
  type Versionless = (string, string) -> Option<string>

  predicate IsFileHeader(line: string) {
    StartsWith(line, "diff --git ")
  }

  predicate IsHunkHeader(line: string) {
    StartsWith(line, "@@ ")
  }

  function FileHeader(path: string): string {
    "diff --git a/" + path + " b/" + path
  }

  /** The publication path a `diff --git` line names on both sides, if it names one. */
  function HeaderPath(line: string, paths: seq<string> := PUBLICATION_PATHS): (path: Option<string>)
    ensures path.Some? ==> path.value in paths && line == FileHeader(path.value)
    ensures path.None? ==> forall p :: p in paths ==> line != FileHeader(p)
  {
    if paths == [] then None
    else if line == FileHeader(paths[0]) then Some(paths[0])
    else HeaderPath(line, paths[1..])
  }

  predicate IsHex(s: string) {
    s != "" && forall k :: 0 <= k < |s| ==> '0' <= s[k] <= '9' || 'a' <= s[k] <= 'f'
  }

  /** `^index [a-f0-9]+\.\.[a-f0-9]+ 100644$` */
  predicate IsIndexLine(line: string) {
    exists a, b | 6 <= a <= b <= |line| ::
      && line[..6] == "index "
      && IsHex(line[6..a])
      && StartsWith(line[a..], "..")
      && a + 2 <= b
      && IsHex(line[a + 2..b])
      && line[b..] == " 100644"
  }

  // ---------------------------------------------------------------- the replay, line by line

  /** Where a hunk body ends: the unread lines, the place in the old file, the new lines so far, the counts. */
  datatype BodyEnd = BodyEnd(rest: seq<string>, cursor: nat, after: seq<string>, removed: nat, added: nat)

  function Body(lines: seq<string>, before: seq<string>, cursor: nat, after: seq<string>, removed: nat, added: nat):
    (r: Result<BodyEnd, Error>)
    requires cursor <= |before|
    ensures r.Ok? ==> |r.value.rest| <= |lines| && r.value.cursor <= |before|
  {
    if lines == [] || IsHunkHeader(lines[0]) || IsFileHeader(lines[0]) then
      Ok(BodyEnd(lines, cursor, after, removed, added))
    else
      var line := lines[0];
      if line == "" || line[0] !in " +-" then Err(BadEncoding)
      else if line[0] != '+' && (cursor >= |before| || before[cursor] != line[1..]) then Err(ContextMismatch)
      else
        var (cursor', removed') := if line[0] != '+' then (cursor + 1, removed + 1) else (cursor, removed);
        var (after', added') := if line[0] != '-' then (after + [line[1..]], added + 1) else (after, added);
        Body(lines[1..], before, cursor', after', removed', added')
  }

  datatype HunksEnd = HunksEnd(rest: seq<string>, cursor: nat, after: seq<string>, hunks: nat)

  /** One hunk under its header: the untouched lines before it, then its body. */
  function HunkAt(h: HunkHeader.Header, body: seq<string>, before: seq<string>, cursor: nat, after: seq<string>):
    (r: Result<BodyEnd, Error>)
    requires cursor <= |before|
    ensures r.Ok? ==> |r.value.rest| <= |body| && r.value.cursor <= |before|
  {
    var oldStart: int := h.oldSide.Start() - 1;
    var newStart: int := h.newSide.Start() - 1;
    if oldStart < cursor || oldStart > |before| then Err(SourceDrift)
    else
      var after' := after + before[cursor..oldStart];
      if |after'| != newStart then Err(TargetDrift)
      else
        match Body(body, before, oldStart, after', 0, 0)
        case Err(e) => Err(e)
        case Ok(end) =>
          if end.removed != h.oldSide.Count() || end.added != h.newSide.Count() then Err(CountMismatch)
          else Ok(end)
  }

  function Hunk(read: Reader, lines: seq<string>, before: seq<string>, cursor: nat,
                after: seq<string>): (r: Result<BodyEnd, Error>)
    requires lines != [] && cursor <= |before|
    ensures r.Ok? ==> |r.value.rest| < |lines| && r.value.cursor <= |before|
  {
    match read(lines[0])
    case None => Err(BadHunk)
    case Some(h) => HunkAt(h, lines[1..], before, cursor, after)
  }

  function Hunks(read: Reader, lines: seq<string>, before: seq<string>, cursor: nat, after: seq<string>, hunks: nat):
    (r: Result<HunksEnd, Error>)
    requires cursor <= |before|
    ensures r.Ok? ==> |r.value.rest| <= |lines| && r.value.cursor <= |before|
    decreases |lines|
  {
    if lines == [] || IsFileHeader(lines[0]) then Ok(HunksEnd(lines, cursor, after, hunks))
    else
      match Hunk(read, lines, before, cursor, after)
      case Err(e) => Err(e)
      case Ok(end) => Hunks(read, end.rest, before, end.cursor, end.after, hunks + 1)
  }

  datatype Section = Section(path: string, content: string, rest: seq<string>)

  /** The new lines of a file whose hunks have been replayed: what was written, then the untouched end. */
  function NewLines(before: seq<string>, end: HunksEnd): seq<string>
    requires end.cursor <= |before|
  {
    end.after + before[end.cursor..]
  }

  /** One file of the patch. */
  function FileSection(read: Reader, lines: seq<string>, files: Files, seen: set<string>): (r: Result<Section, Error>)
    requires lines != []
    ensures r.Ok? ==> |r.value.rest| < |lines|
    ensures r.Ok? ==> r.value.path in files && HeaderPath(lines[0]) == Some(r.value.path) && r.value.path !in seen
  {
    match HeaderPath(lines[0])
    case None => Err(UnexpectedPath)
    case Some(path) =>
      if path in seen then Err(UnexpectedPath)
      else if |lines| < 4 || !IsIndexLine(lines[1]) || lines[2] != "--- a/" + path || lines[3] != "+++ b/" + path then
        Err(BadFileHeader)
      else if path !in files then Err(MissingSource)
      else
        var before := Split(files[path]);
        match Hunks(read, lines[4..], before, 0, [], 0)
        case Err(e) => Err(e)
        case Ok(end) =>
          if end.hunks == 0 then Err(EmptyFilePatch)
          else Ok(Section(path, Join(NewLines(before, end)), end.rest))
  }

  function Sections(read: Reader, lines: seq<string>, files: Files, result: Files): Result<Files, Error>
    decreases |lines|
  {
    if lines == [] then Ok(result)
    else
      match FileSection(read, lines, files, result.Keys)
      case Err(e) => Err(e)
      case Ok(section) => Sections(read, section.rest, files, result[section.path := section.content])
  }

  /** Only the version field of each JSON document may differ between the two file sets. */
  predicate KeepsDocuments(before: Files, after: Files, versionless: Versionless) {
    forall k :: FIRST_DOCUMENT <= k < |PUBLICATION_PATHS| ==>
      var path := PUBLICATION_PATHS[k];
      && path in before && path in after
      && versionless(path, before[path]).Some?
      && versionless(path, before[path]) == versionless(path, after[path])
  }

  // ---------------------------------------------------------------- nothing written is taken back

  lemma {:induction false} BodyGrows(lines: seq<string>, before: seq<string>, cursor: nat, after: seq<string>,
                                     removed: nat, added: nat)
    requires cursor <= |before|
    requires Body(lines, before, cursor, after, removed, added).Ok?
    ensures after <= Body(lines, before, cursor, after, removed, added).value.after
    ensures cursor <= Body(lines, before, cursor, after, removed, added).value.cursor
  {
    if !(lines == [] || IsHunkHeader(lines[0]) || IsFileHeader(lines[0])) {
      var line := lines[0];
      var (cursor', removed') := if line[0] != '+' then (cursor + 1, removed + 1) else (cursor, removed);
      var (after', added') := if line[0] != '-' then (after + [line[1..]], added + 1) else (after, added);
      BodyGrows(lines[1..], before, cursor', after', removed', added');
    }
  }

  lemma {:induction false} HunksGrow(read: Reader, lines: seq<string>, before: seq<string>, cursor: nat,
                                     after: seq<string>, hunks: nat)
    requires cursor <= |before|
    requires Hunks(read, lines, before, cursor, after, hunks).Ok?
    ensures after <= Hunks(read, lines, before, cursor, after, hunks).value.after
    decreases |lines|
  {
    if !(lines == [] || IsFileHeader(lines[0])) {
      var end := Hunk(read, lines, before, cursor, after).value;
      HunksGrow(read, end.rest, before, end.cursor, end.after, hunks + 1);
      var oldStart := read(lines[0]).value.oldSide.Start() - 1;
      BodyGrows(lines[1..], before, oldStart, after + before[cursor..oldStart], 0, 0);
    }
  }

  /** All lines of a patch but the empty one after its last line break. */
  function PatchLines(patch: string): seq<string> {
    var lines := Split(patch);
    lines[..|lines| - 1]
  }

  function Replay(files: Files, patch: string, versionless: Versionless): Result<Files, Error> {
    if !EndsWith(patch, [NewLine]) then Err(TrailingData)
    else
      match Sections(HunkHeader.Parse, PatchLines(patch), files, map[])
      case Err(e) => Err(e)
      case Ok(result) =>
        if |result.Keys| != |PUBLICATION_PATHS| then Err(IncompletePatch)
        else if !KeepsDocuments(files, result, versionless) then Err(RewritesEvidence)
        else Ok(result)
  }

  // ---------------------------------------------------------------- the interpreter

  /** The innermost loop: the body lines of one hunk. */
  method ReplayBody(lines: seq<string>, start: nat, before: seq<string>, from: nat, prefix: seq<string>)
    returns (r: Result<BodyEnd, Error>, i: nat)
    requires start <= |lines| && from <= |before|
    ensures r == Body(lines[start..], before, from, prefix, 0, 0)
    ensures r.Ok? ==> start <= i <= |lines| && r.value.rest == lines[i..]
  {
    i := start;
    var cursor: nat, after, removed: nat, added: nat := from, prefix, 0, 0;
    while i < |lines| && !IsHunkHeader(lines[i]) && !IsFileHeader(lines[i])
      invariant start <= i <= |lines| && cursor <= |before|
      invariant Body(lines[start..], before, from, prefix, 0, 0) == Body(lines[i..], before, cursor, after, removed, added)
    {
      var line := lines[i];
      assert lines[i..][1..] == lines[i + 1..];
      i := i + 1;
      if line == "" || line[0] !in " +-" {
        return Err(BadEncoding), i;
      }
      if line[0] != '+' {
        if cursor >= |before| || before[cursor] != line[1..] {
          return Err(ContextMismatch), i;
        }
        cursor := cursor + 1;
        removed := removed + 1;
      }
      if line[0] != '-' {
        after := after + [line[1..]];
        added := added + 1;
      }
    }
    r := Ok(BodyEnd(lines[i..], cursor, after, removed, added));
  }

  /** The middle loop: all hunks of one file. */
  method ReplayHunks(read: Reader, lines: seq<string>, start: nat, before: seq<string>)
    returns (r: Result<HunksEnd, Error>, i: nat)
    requires start <= |lines|
    ensures r == Hunks(read, lines[start..], before, 0, [], 0)
    ensures r.Ok? ==> start <= i <= |lines| && r.value.rest == lines[i..]
  {
    i := start;
    var cursor: nat, after, hunks: nat := 0, [], 0;
    while i < |lines| && !IsFileHeader(lines[i])
      invariant start <= i <= |lines| && cursor <= |before|
      invariant Hunks(read, lines[start..], before, 0, [], 0) == Hunks(read, lines[i..], before, cursor, after, hunks)
    {
      ghost var hunk := Hunk(read, lines[i..], before, cursor, after);
      assert lines[i..][1..] == lines[i + 1..];
      var h := read(lines[i]);
      i := i + 1;
      if h.None? {
        return Err(BadHunk), i;
      }
      var oldStart: int := h.value.oldSide.Start() - 1;
      var newStart: int := h.value.newSide.Start() - 1;
      if oldStart < cursor || oldStart > |before| {
        return Err(SourceDrift), i;
      }
      after := after + before[cursor..oldStart];
      cursor := oldStart;
      if |after| != newStart {
        return Err(TargetDrift), i;
      }
      var body;
      body, i := ReplayBody(lines, i, before, cursor, after);
      if body.Err? {
        return Err(body.error), i;
      }
      cursor, after := body.value.cursor, body.value.after;
      if body.value.removed != h.value.oldSide.Count() || body.value.added != h.value.newSide.Count() {
        return Err(CountMismatch), i;
      }
      assert hunk == Ok(body.value);
      hunks := hunks + 1;
    }
    r := Ok(HunksEnd(lines[i..], cursor, after, hunks));
  }

  /** The outer loop: every file of the patch. */
  method ReplaySections(read: Reader, lines: seq<string>, files: Files) returns (r: Result<Files, Error>)
    ensures r == Sections(read, lines, files, map[])
  {
    var result: Files := map[];
    var i := 0;
    assert lines[0..] == lines;
    while i < |lines|
      invariant 0 <= i <= |lines|
      invariant Sections(read, lines, files, map[]) == Sections(read, lines[i..], files, result)
    {
      ghost var here := lines[i..];
      ghost var section := FileSection(read, here, files, result.Keys);
      var header := HeaderPath(lines[i]);
      if header.None? || header.value in result {
        return Err(UnexpectedPath);
      }
      var path := header.value;
      if i + 4 > |lines| || !IsIndexLine(lines[i + 1]) ||
         lines[i + 2] != "--- a/" + path || lines[i + 3] != "+++ b/" + path {
        return Err(BadFileHeader);
      }
      if path !in files {
        return Err(MissingSource);
      }
      var before := Split(files[path]);
      i := i + 4;
      assert lines[i..] == here[4..];
      var hunks;
      hunks, i := ReplayHunks(read, lines, i, before);
      if hunks.Err? {
        return Err(hunks.error);
      }
      if hunks.value.hunks == 0 {
        return Err(EmptyFilePatch);
      }
      var content := Join(hunks.value.after + before[hunks.value.cursor..]);
      assert section == Ok(Section(path, content, lines[i..]));
      result := result[path := content];
    }
    return Ok(result);
  }

  /** The whole patch: its trailing line break, its files, then the checks on the result. */
  method ApplyPublicationPatch(files: Files, patch: string, versionless: Versionless) returns (r: Result<Files, Error>)
    ensures r == Replay(files, patch, versionless)
  {
    if !EndsWith(patch, [NewLine]) {
      return Err(TrailingData);
    }
    r := ReplaySections(HunkHeader.Parse, PatchLines(patch), files);
    if r.Ok? {
      if |r.value.Keys| != |PUBLICATION_PATHS| {
        r := Err(IncompletePatch);
      } else if !KeepsDocuments(files, r.value, versionless) {
        r := Err(RewritesEvidence);
      }
    }
  }
}
