/**
 A publication patch that its reverse does not undo: over all eight paths, accepted by the
 replay, it takes the only line of the first file and leaves the others alone.
 */
module PatchLoss {
  import opened Wrappers
  import opened Text
  import HunkHeader
  import opened Numbers
  import opened PatchReplay
  import opened PatchInverse
  import opened Sets

  // ---------------------------------------------------------------- sections one after another

  lemma {:induction false} BodyBefore(rest: seq<string>, lines: seq<string>, before: seq<string>, cursor: nat,
                                      after: seq<string>, removed: nat, added: nat)
    requires EndsSection(rest) && cursor <= |before|
    requires Body(lines, before, cursor, after, removed, added).Ok?
    ensures var end := Body(lines, before, cursor, after, removed, added).value;
            Body(lines + rest, before, cursor, after, removed, added) == Ok(end.(rest := end.rest + rest))
  {
    if lines == [] {
      assert lines + rest == rest;
    } else if !(IsHunkHeader(lines[0]) || IsFileHeader(lines[0])) {
      var line := lines[0];
      var (cursor', removed') := if line[0] != '+' then (cursor + 1, removed + 1) else (cursor, removed);
      var (after', added') := if line[0] != '-' then (after + [line[1..]], added + 1) else (after, added);
      BodyBefore(rest, lines[1..], before, cursor', after', removed', added');
      assert (lines + rest)[1..] == lines[1..] + rest;
    }
  }

  lemma HunkBefore(x: Syntax, rest: seq<string>, lines: seq<string>, before: seq<string>, cursor: nat, after: seq<string>)
    requires EndsSection(rest) && lines != [] && cursor <= |before|
    requires Hunk(x.read, lines, before, cursor, after).Ok?
    ensures var end := Hunk(x.read, lines, before, cursor, after).value;
            Hunk(x.read, lines + rest, before, cursor, after) == Ok(end.(rest := end.rest + rest))
  {
    var oldStart := x.read(lines[0]).value.oldSide.Start() - 1;
    BodyBefore(rest, lines[1..], before, oldStart, after + before[cursor..oldStart], 0, 0);
    assert (lines + rest)[1..] == lines[1..] + rest;
  }

  lemma {:induction false} HunksBefore(x: Syntax, rest: seq<string>, lines: seq<string>, before: seq<string>,
                                       cursor: nat, after: seq<string>, hunks: nat)
    requires EndsSection(rest) && cursor <= |before|
    requires Hunks(x.read, lines, before, cursor, after, hunks).Ok?
    requires Hunks(x.read, lines, before, cursor, after, hunks).value.rest == []
    ensures Hunks(x.read, lines + rest, before, cursor, after, hunks)
            == Ok(Hunks(x.read, lines, before, cursor, after, hunks).value.(rest := rest))
    decreases |lines|
  {
    if lines == [] {
      assert lines + rest == rest;
    } else {
      var end := Hunk(x.read, lines, before, cursor, after).value;
      HunkBefore(x, rest, lines, before, cursor, after);
      HunksBefore(x, rest, end.rest, before, end.cursor, end.after, hunks + 1);
    }
  }

  /** The lines are the whole section of this file, with this outcome. */
  ghost predicate Rewrites(x: Syntax, lines: seq<string>, files: Files, path: string, content: string) {
    && lines != [] && IsFileHeader(lines[0])
    && FileSection(x.read, lines, files, {}) == Ok(Section(path, content, []))
  }

  /** The four header lines of this path. */
  ghost predicate HeadOf(lines: seq<string>, path: string) {
    && |lines| >= 4 && HeaderPath(lines[0]) == Some(path) && IsIndexLine(lines[1])
    && lines[2] == "--- a/" + path && lines[3] == "+++ b/" + path
  }

  lemma HeadBefore(rest: seq<string>, lines: seq<string>, path: string)
    requires HeadOf(lines, path)
    ensures HeadOf(lines + rest, path) && (lines + rest)[4..] == lines[4..] + rest
  {
    assert forall k :: 0 <= k < 4 ==> (lines + rest)[k] == lines[k];
  }

  lemma RewritesUnfold(x: Syntax, lines: seq<string>, files: Files, path: string, content: string) returns (end: HunksEnd)
    requires Rewrites(x, lines, files, path, content)
    ensures HeadOf(lines, path) && path in files
    ensures Hunks(x.read, lines[4..], Split(files[path]), 0, [], 0) == Ok(end) && end.rest == [] && end.hunks > 0
    ensures end.cursor <= |Split(files[path])| && content == Join(NewLines(Split(files[path]), end))
  {
    end := Hunks(x.read, lines[4..], Split(files[path]), 0, [], 0).value;
  }

  lemma SectionWith(x: Syntax, all: seq<string>, files: Files, seen: set<string>, path: string, end: HunksEnd)
    requires HeadOf(all, path) && path in files && path !in seen && end.hunks > 0
    requires Hunks(x.read, all[4..], Split(files[path]), 0, [], 0) == Ok(end)
    ensures FileSection(x.read, all, files, seen) == Ok(Section(path, Join(NewLines(Split(files[path]), end)), end.rest))
  {
    SectionOf(x, all, files, seen, path, end);
  }

  /** A section has the same outcome whatever follows it. */
  lemma SectionBefore(x: Syntax, rest: seq<string>, lines: seq<string>, files: Files, seen: set<string>, path: string,
                      content: string)
    requires EndsSection(rest) && Rewrites(x, lines, files, path, content) && path !in seen
    ensures FileSection(x.read, lines + rest, files, seen) == Ok(Section(path, content, rest))
  {
    var end := RewritesUnfold(x, lines, files, path, content);
    HeadBefore(rest, lines, path);
    HunksBefore(x, rest, lines[4..], Split(files[path]), 0, [], 0);
    SectionWith(x, lines + rest, files, seen, path, end.(rest := rest));
  }

  function Concat(parts: seq<seq<string>>): seq<string> {
    if parts == [] then [] else parts[0] + Concat(parts[1..])
  }

  ghost predicate AllRewrite(x: Syntax, parts: seq<seq<string>>, files: Files, paths: seq<string>, contents: Files) {
    && |parts| == |paths|
    && (forall i :: 0 <= i < |parts| ==>
          paths[i] in contents && Rewrites(x, parts[i], files, paths[i], contents[paths[i]]))
    && Distinct(paths)
  }

  lemma ConcatEnds(x: Syntax, parts: seq<seq<string>>, files: Files, paths: seq<string>, contents: Files)
    requires AllRewrite(x, parts, files, paths, contents)
    ensures EndsSection(Concat(parts))
  {
    if parts != [] {
      assert Rewrites(x, parts[0], files, paths[0], contents[paths[0]]);
    }
  }

  lemma {:induction false} SectionsInTurn(x: Syntax, parts: seq<seq<string>>, files: Files, paths: seq<string>,
                                          contents: Files, result: Files)
    requires AllRewrite(x, parts, files, paths, contents)
    requires forall p :: p in result ==> p in contents && result[p] == contents[p] && p !in paths
    requires forall p :: p in contents ==> p in result || p in paths
    ensures Sections(x.read, Concat(parts), files, result) == Ok(contents)
    decreases |parts|
  {
    if parts == [] {
      assert result == contents;
    } else {
      var path := paths[0];
      var rest := Concat(parts[1..]);
      assert AllRewrite(x, parts[1..], files, paths[1..], contents);
      ConcatEnds(x, parts[1..], files, paths[1..], contents);
      SectionBefore(x, rest, parts[0], files, result.Keys, path, contents[path]);
      SectionsInTurn(x, parts[1..], files, paths[1..], contents, result[path := contents[path]]);
    }
  }

  // ---------------------------------------------------------------- a section that changes nothing

  /** A header such as `@@ -1,1 +1,1 @@`. */
  ghost predicate KeepsOneLine(h: HunkHeader.Header) {
    && h.Valid()
    && h.oldSide.Start() == 1 && h.newSide.Start() == 1 && h.oldSide.Count() == 1 && h.newSide.Count() == 1
  }

  function KeepingSection(path: string, index: string, header: string, line: string): seq<string> {
    [FileHeader(path), index, "--- a/" + path, "+++ b/" + path] + [header, " " + line]
  }

  lemma KeepingHunk(x: Syntax, lines: seq<string>, before: seq<string>, h: HunkHeader.Header)
    requires x.Lawful() && KeepsOneLine(h)
    requires |lines| == 2 && before != [] && x.read(lines[0]) == Some(h) && lines[1] == " " + before[0]
    ensures Hunks(x.read, lines, before, 0, [], 0) == Ok(HunksEnd([], 1, [before[0]], 1))
  {
    AcceptedHeader(x, lines[0]);
    StartsWithHead(lines[1], "@@ ");
    StartsWithHead(lines[1], "diff --git ");
    var body := lines[1..];
    assert body == [lines[1]] && body[1..] == [] && lines[1][1..] == before[0];
    var kept := [before[0]];
    assert [] + kept == kept;
    assert Body([], before, 1, kept, 1, 1) == Ok(BodyEnd([], 1, kept, 1, 1));
    assert Body(body, before, 0, [], 0, 0) == Ok(BodyEnd([], 1, [before[0]], 1, 1));
    assert [] + before[0..0] == [];
    assert Hunk(x.read, lines, before, 0, []) == Ok(BodyEnd([], 1, [before[0]], 1, 1));
  }

  lemma KeepingRewrites(x: Syntax, path: string, index: string, header: string, h: HunkHeader.Header, line: string,
                        files: Files)
    requires x.Lawful() && path in PUBLICATION_PATHS && IsIndexLine(index) && IsLine(line)
    requires x.read(header) == Some(h) && KeepsOneLine(h)
    requires path in files && files[path] == line + [NewLine]
    ensures Rewrites(x, KeepingSection(path, index, header, line), files, path, line + [NewLine])
  {
    var lines := KeepingSection(path, index, header, line);
    TwoLines(line);
    assert lines[4..] == [header, " " + line];
    KeepingHunk(x, lines[4..], [line, ""], h);
    HeaderPathOf(path);
    assert NewLines([line, ""], HunksEnd([], 1, [line], 1)) == [line, ""];
    assert Join([line, ""]) == line + [NewLine] by { JoinAfterSplit(line + [NewLine]); }
    SectionOf(x, lines, files, {}, path, HunksEnd([], 1, [line], 1));
    FileHeaderStarts(path);
  }

  lemma EmptyingRewrites(x: Syntax, path: string, index: string, header: string, h: HunkHeader.Header, line: string,
                         files: Files)
    requires x.Lawful() && path in PUBLICATION_PATHS && IsIndexLine(index) && IsLine(line)
    requires x.read(header) == Some(h) && TakesTwoLines(h)
    requires path in files && files[path] == line + [NewLine]
    ensures Rewrites(x, EmptyingSection(path, index, header, line), files, path, "")
  {
    var lines := EmptyingSection(path, index, header, line);
    TwoLines(line);
    assert "-" + "" == "-";
    assert lines[4..] == [header, "-" + line, "-"];
    EmptyingHunk(x, lines[4..], [line, ""], h);
    HeaderPathOf(path);
    assert NewLines([line, ""], HunksEnd([], 2, [], 1)) == [];
    SectionOf(x, lines, files, {}, path, HunksEnd([], 2, [], 1));
    FileHeaderStarts(path);
  }

  // ---------------------------------------------------------------- the patch

  const INDEX := "index 0..0 100644"
  const LINE := "{}"
  const TEXT := "{}\n"

  lemma IndexLine()
    ensures IsIndexLine(INDEX) && IsLine(INDEX)
  {
    assert INDEX[..6] == "index ";
    assert INDEX[6..7] == "0" && INDEX[7..] == "..0 100644" && INDEX[9..10] == "0" && INDEX[10..] == " 100644";
    assert IsHex(INDEX[6..7]) && StartsWith(INDEX[7..], "..") && IsHex(INDEX[7 + 2..10]);
  }

  /** Every file is one line, the text of an empty object. */
  function Before(paths: seq<string>): Files {
    map p | p in paths :: TEXT
  }

  /** The first file is empty. */
  function After(paths: seq<string>): Files
    requires paths != []
  {
    Before(paths)[paths[0] := ""]
  }

  function Parts(paths: seq<string>, emptying: string, keeping: string): (parts: seq<seq<string>>)
    requires paths != []
    ensures |parts| == |paths|
    ensures parts[0] == EmptyingSection(paths[0], INDEX, emptying, LINE)
    ensures forall k :: 0 < k < |parts| ==> parts[k] == KeepingSection(paths[k], INDEX, keeping, LINE)
  {
    [EmptyingSection(paths[0], INDEX, emptying, LINE)]
    + seq(|paths| - 1, k requires 0 <= k < |paths| - 1 => KeepingSection(paths[k + 1], INDEX, keeping, LINE))
  }

  function PatchOf(paths: seq<string>, emptying: string, keeping: string): string
    requires paths != []
  {
    Join(Concat(Parts(paths, emptying, keeping)) + [""])
  }

  lemma PathsDiffer()
    ensures Distinct(PUBLICATION_PATHS)
  {
    assert |PUBLICATION_PATHS[0]| == 30 && |PUBLICATION_PATHS[1]| == 44 && |PUBLICATION_PATHS[2]| == 48;
    assert |PUBLICATION_PATHS[3]| == 50 && |PUBLICATION_PATHS[4]| == 43 && |PUBLICATION_PATHS[5]| == 37;
    assert |PUBLICATION_PATHS[6]| == 44 && |PUBLICATION_PATHS[7]| == 45;
    assert PUBLICATION_PATHS[1][8] == 'u' && PUBLICATION_PATHS[6][8] == 'c';
  }

  lemma FoldersAreLines()
    ensures IsLine(CONTROL) && IsLine(APPLICATION)
  {
  }

  lemma NamesAreLines()
    ensures IsLine("docs/UNIVERSAL-CONSTITUTION.md") && IsLine("foundation-templates.ts") && IsLine("constitution-authority.ts")
  {
  }

  lemma ControlNamesAreLines()
    ensures IsLine("universal-constitution.contract.json") && IsLine("universal-constitution-version.json")
  {
  }

  lemma AdoptionNameIsLine()
    ensures IsLine(".blueprint/constitution-adoption.json")
  {
  }

  lemma SnapshotNamesAreLines()
    ensures IsLine("constitution-ecosystem-snapshot.json") && IsLine("constitution-compliance-snapshot.json")
  {
  }

  lemma PathsAreLines()
    ensures forall k :: 0 <= k < |PUBLICATION_PATHS| ==> IsLine(PUBLICATION_PATHS[k])
  {
    FoldersAreLines();
    NamesAreLines();
    ControlNamesAreLines();
    AdoptionNameIsLine();
    SnapshotNamesAreLines();
  }

  lemma {:induction false} ConcatLines(parts: seq<seq<string>>)
    requires forall k :: 0 <= k < |parts| ==> AreLines(parts[k])
    ensures AreLines(Concat(parts))
  {
    if parts != [] {
      ConcatLines(parts[1..]);
    }
  }

  lemma KeepingLines(path: string, index: string, header: string, line: string)
    requires IsLine(path) && IsLine(index) && IsLine(header) && IsLine(line)
    ensures AreLines(KeepingSection(path, index, header, line))
  {
    assert IsLine(FileHeader(path)) && IsLine("--- a/" + path) && IsLine("+++ b/" + path) && IsLine(" " + line);
  }

  /** The patch is read back as the lines it was written from. */
  lemma PatchIsLines(paths: seq<string>, emptying: string, keeping: string)
    requires paths != [] && (forall k :: 0 <= k < |paths| ==> IsLine(paths[k])) && IsLine(emptying) && IsLine(keeping)
    ensures PatchLines(PatchOf(paths, emptying, keeping)) == Concat(Parts(paths, emptying, keeping))
    ensures EndsWith(PatchOf(paths, emptying, keeping), [NewLine])
  {
    var parts := Parts(paths, emptying, keeping);
    IndexLine();
    forall k | 0 <= k < |parts| ensures AreLines(parts[k]) {
      EmptyingLines(paths[k], INDEX, emptying, LINE);
      KeepingLines(paths[k], INDEX, keeping, LINE);
    }
    ConcatLines(parts);
    assert Concat(parts) != [] by { assert parts[0] != []; }
    SplitAfterJoin(Concat(parts) + [""]);
    TrailingBreak(PatchOf(paths, emptying, keeping));
  }

  /** Header lines read as the two headers that are needed. */
  ghost predicate Headers(x: Syntax, emptying: string, keeping: string) {
    && IsLine(emptying) && x.read(emptying).Some? && TakesTwoLines(x.read(emptying).value)
    && IsLine(keeping) && x.read(keeping).Some? && KeepsOneLine(x.read(keeping).value)
  }

  lemma SomeKeepingHeader() returns (k: HunkHeader.Header)
    ensures KeepsOneLine(k) && UNIFIED.read(k.Render()) == Some(k) && IsLine(k.Render())
  {
    k := HunkHeader.Header(HunkHeader.Range("1", Some("1")), HunkHeader.Range("1", Some("1")), "");
    OneDigit('1');
    HunkHeader.ParseOfRender(k);
    HunkHeader.RenderIsLine(k);
  }

  lemma SomeHeaders() returns (emptying: string, keeping: string)
    ensures Headers(UNIFIED, emptying, keeping)
  {
    var h := SomeHeaderTakesTwoLines();
    var k := SomeKeepingHeader();
    emptying, keeping := h.Render(), k.Render();
  }

  /** Different publication paths. */
  ghost predicate Proper(paths: seq<string>) {
    && paths != [] && (forall k :: 0 <= k < |paths| ==> paths[k] in PUBLICATION_PATHS)
    && Distinct(paths)
  }

  lemma PartsRewrite(x: Syntax, paths: seq<string>, emptying: string, keeping: string)
    requires x.Lawful() && Headers(x, emptying, keeping) && Proper(paths)
    ensures AllRewrite(x, Parts(paths, emptying, keeping), Before(paths), paths, After(paths))
  {
    var parts, before, after := Parts(paths, emptying, keeping), Before(paths), After(paths);
    forall k | 0 <= k < |parts| ensures paths[k] in after && Rewrites(x, parts[k], before, paths[k], after[paths[k]]) {
      assert paths[k] in paths;
      if k == 0 {
        FirstPartRewrites(x, paths[0], emptying, keeping, before);
      } else {
        OtherPartRewrites(x, paths[k], emptying, keeping, before);
      }
    }
  }

  lemma FirstPartRewrites(x: Syntax, path: string, emptying: string, keeping: string, files: Files)
    requires x.Lawful() && Headers(x, emptying, keeping) && path in PUBLICATION_PATHS
    requires path in files && files[path] == TEXT
    ensures Rewrites(x, EmptyingSection(path, INDEX, emptying, LINE), files, path, "")
  {
    IndexLine();
    assert LINE + [NewLine] == TEXT;
    EmptyingRewrites(x, path, INDEX, emptying, x.read(emptying).value, LINE, files);
  }

  lemma OtherPartRewrites(x: Syntax, path: string, emptying: string, keeping: string, files: Files)
    requires x.Lawful() && Headers(x, emptying, keeping) && path in PUBLICATION_PATHS
    requires path in files && files[path] == TEXT
    ensures Rewrites(x, KeepingSection(path, INDEX, keeping, LINE), files, path, TEXT)
  {
    IndexLine();
    assert LINE + [NewLine] == TEXT;
    KeepingRewrites(x, path, INDEX, keeping, x.read(keeping).value, LINE, files);
  }

  lemma PublicationPathsAreProper()
    ensures Proper(PUBLICATION_PATHS)
  {
    PathsDiffer();
  }

  lemma DocumentsKept(versionless: Versionless)
    requires forall p :: versionless(p, TEXT).Some?
    ensures KeepsDocuments(Before(PUBLICATION_PATHS), After(PUBLICATION_PATHS), versionless)
    ensures |After(PUBLICATION_PATHS).Keys| == |PUBLICATION_PATHS|
  {
    PublicationPathsAreProper();
    DistinctSize(PUBLICATION_PATHS);
    var before, after := Before(PUBLICATION_PATHS), After(PUBLICATION_PATHS);
    assert after.Keys == set p | p in PUBLICATION_PATHS;
    forall k | FIRST_DOCUMENT <= k < |PUBLICATION_PATHS| ensures PUBLICATION_PATHS[k] in after && after[PUBLICATION_PATHS[k]] == TEXT {
      assert PUBLICATION_PATHS[k] in PUBLICATION_PATHS;
    }
  }

  /** The patch is accepted, whatever the document reader makes of an empty object. */
  lemma PatchIsAccepted(emptying: string, keeping: string, versionless: Versionless)
    requires Headers(UNIFIED, emptying, keeping) && forall p :: versionless(p, TEXT).Some?
    ensures Replay(Before(PUBLICATION_PATHS), PatchOf(PUBLICATION_PATHS, emptying, keeping), versionless)
            == Ok(After(PUBLICATION_PATHS))
  {
    PathsAreLines();
    PatchIsLines(PUBLICATION_PATHS, emptying, keeping);
    UnifiedIsLawful();
    PublicationPathsAreProper();
    PartsRewrite(UNIFIED, PUBLICATION_PATHS, emptying, keeping);
    SectionsInTurn(UNIFIED, Parts(PUBLICATION_PATHS, emptying, keeping), Before(PUBLICATION_PATHS), PUBLICATION_PATHS,
                   After(PUBLICATION_PATHS), map[]);
    DocumentsKept(versionless);
    SectionsAreReplay(Before(PUBLICATION_PATHS), PatchOf(PUBLICATION_PATHS, emptying, keeping), versionless,
                      After(PUBLICATION_PATHS));
  }

  lemma KeepingSectionsEnd(paths: seq<string>, emptying: string, keeping: string)
    requires paths != []
    ensures EndsSection(Concat(Parts(paths, emptying, keeping)[1..]))
  {
    var tail := Parts(paths, emptying, keeping)[1..];
    if tail != [] {
      FileHeaderStarts(paths[1]);
      assert tail[0] == KeepingSection(paths[1], INDEX, keeping, LINE);
    }
  }

  lemma PatchLosesAFile(paths: seq<string>, emptying: string, keeping: string)
    requires paths != [] && paths[0] in PUBLICATION_PATHS && IsHunkHeader(emptying)
    ensures !KeepsALine(Concat(Parts(paths, emptying, keeping)), Before(paths))
  {
    var parts := Parts(paths, emptying, keeping);
    KeepingSectionsEnd(paths, emptying, keeping);
    SectionLosesLines(paths[0], emptying, Concat(parts[1..]), Before(paths));
    assert Concat(parts) == EmptyingSection(paths[0], INDEX, emptying, LINE) + Concat(parts[1..]);
  }

  lemma SectionLosesLines(path: string, emptying: string, rest: seq<string>, files: Files)
    requires path in PUBLICATION_PATHS && EndsSection(rest) && IsHunkHeader(emptying)
    requires path in files && files[path] == TEXT
    ensures !KeepsALine(EmptyingSection(path, INDEX, emptying, LINE) + rest, files)
  {
    var lines := EmptyingSection(path, INDEX, emptying, LINE) + rest;
    FileHeaderStarts(path);
    HeaderPathOf(path);
    TwoLines(LINE);
    assert LINE + [NewLine] == TEXT;
    TwoRemoved(emptying, "-" + LINE, "-", rest);
    assert lines[4..] == [emptying, "-" + LINE, "-"] + rest;
  }

  lemma TwoRemoved(header: string, first: string, second: string, rest: seq<string>)
    requires IsHunkHeader(header) && EndsSection(rest) && StartsWith(first, "-") && StartsWith(second, "-")
    ensures Added([header, first, second] + rest) == 0 && Removed([header, first, second] + rest) == 2
  {
    StartsWithHead(header, "diff --git ");
    StartsWithHead(header, "@@ ");
    RemovedLine(first, [second] + rest);
    RemovedLine(second, rest);
    var all := [header, first, second] + rest;
    assert all[1..] == [first] + ([second] + rest);
  }

  lemma RemovedLine(line: string, rest: seq<string>)
    requires StartsWith(line, "-")
    ensures Added([line] + rest) == Added(rest) && Removed([line] + rest) == Removed(rest) + 1
  {
    StartsWithHead(line, "-");
    StartsWithHead(line, "diff --git ");
    StartsWithHead(line, "@@ ");
    StartsWithHead(line, "+");
    assert ([line] + rest)[1..] == rest;
  }

  /**
   There is a whole patch, over all eight paths, that the replay accepts and whose reverse
   does not give the original files back.
   */
  lemma SomePatchIsNotUndone(versionless: Versionless) returns (files: Files, patch: string, result: Files)
    requires forall p :: versionless(p, TEXT).Some?
    ensures Replay(files, patch, versionless) == Ok(result) && files == Originals(files)
    ensures Replay(result, InvertPatch(patch), versionless) != Ok(files)
  {
    var emptying, keeping := SomeHeaders();
    files, patch := Before(PUBLICATION_PATHS), PatchOf(PUBLICATION_PATHS, emptying, keeping);
    result := After(PUBLICATION_PATHS);
    PatchIsAccepted(emptying, keeping, versionless);
    ReverseIsNot(emptying, keeping, versionless);
  }

  lemma ReverseIsNot(emptying: string, keeping: string, versionless: Versionless)
    requires Headers(UNIFIED, emptying, keeping)
    requires Replay(Before(PUBLICATION_PATHS), PatchOf(PUBLICATION_PATHS, emptying, keeping), versionless)
             == Ok(After(PUBLICATION_PATHS))
    ensures Before(PUBLICATION_PATHS) == Originals(Before(PUBLICATION_PATHS))
    ensures Replay(After(PUBLICATION_PATHS), InvertPatch(PatchOf(PUBLICATION_PATHS, emptying, keeping)), versionless)
            != Ok(Before(PUBLICATION_PATHS))
  {
    PatchLosesLines(emptying, keeping);
    InverseRestores(Before(PUBLICATION_PATHS), PatchOf(PUBLICATION_PATHS, emptying, keeping), versionless,
                    After(PUBLICATION_PATHS));
  }

  lemma PatchLosesLines(emptying: string, keeping: string)
    requires Headers(UNIFIED, emptying, keeping)
    ensures !KeepsALine(PatchLines(PatchOf(PUBLICATION_PATHS, emptying, keeping)), Before(PUBLICATION_PATHS))
  {
    PathsAreLines();
    PatchIsLines(PUBLICATION_PATHS, emptying, keeping);
    UnifiedIsLawful();
    AcceptedHeader(UNIFIED, emptying);
    PatchLosesAFile(PUBLICATION_PATHS, emptying, keeping);
  }
}
