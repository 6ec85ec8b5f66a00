/**
 What replaying a patch means, and what the reverse patch undoes.

 The reverse patch swaps the two ranges of every hunk header and the `+` and `-` marks
 of every body line. Replaying it on the result restores every original file, except
 where the patch removed every line of a file and added none: that file comes back with
 one more line break. Such a file is recognised before any replay by counting lines.
 */
module PatchInverse {
  import opened Wrappers
  import opened Text
  import HunkHeader
  import opened Numbers
  import opened PatchReplay
  import Sets

  // ---------------------------------------------------------------- the reverse patch

  /** How a hunk header line is read, and how its two ranges are swapped. */
  datatype Syntax = Syntax(read: Reader, swap: string -> string) {

    /** What the replay and its reverse need to know of a header line. */
    ghost predicate LawfulAt(line: string) {
      && (read(line).Some? ==> IsHunkHeader(line) && read(swap(line)) == Some(read(line).value.Swapped()))
      && swap(swap(line)) == line
      && (IsHunkHeader(line) ==> IsHunkHeader(swap(line)))
      && (IsLine(line) ==> IsLine(swap(line)))
    }

    ghost predicate Lawful() {
      forall line :: LawfulAt(line)
    }
  }

  const UNIFIED := Syntax(HunkHeader.Parse, HunkHeader.SwapLine)

  lemma UnifiedIsLawful()
    ensures UNIFIED.Lawful()
  {
    forall line ensures UNIFIED.LawfulAt(line) {
      UnifiedIsLawfulAt(line);
    }
  }

  lemma UnifiedIsLawfulAt(line: string)
    ensures UNIFIED.LawfulAt(line)
  {
    HunkHeader.ParseOfSwap(line);
    HunkHeader.SwapTwice(line);
    HunkHeader.SwapKeepsShape(line);
  }

  function InvertLine(swap: string -> string, line: string): string {
    if IsHunkHeader(line) then swap(line)
    else if StartsWith(line, "+") then "-" + line[1..]
    else if StartsWith(line, "-") then "+" + line[1..]
    else line
  }

  /** The four header lines of a file are the same in both directions. */
  function InvertLines(swap: string -> string, lines: seq<string>): (r: seq<string>)
    ensures |r| == |lines|
  {
    if lines == [] then []
    else if IsFileHeader(lines[0]) then
      if |lines| < 4 then lines else lines[..4] + InvertLines(swap, lines[4..])
    else [InvertLine(swap, lines[0])] + InvertLines(swap, lines[1..])
  }

  function InvertPatch(patch: string): string {
    Join(InvertLines(HunkHeader.SwapLine, PatchLines(patch)) + [""])
  }

  // ---------------------------------------------------------------- lines a patch adds and removes

  predicate EndsSection(lines: seq<string>) {
    lines == [] || IsFileHeader(lines[0])
  }

  /** Body lines of one file that stand in the new file. */
  function Added(lines: seq<string>): nat {
    if EndsSection(lines) then 0
    else Added(lines[1..]) + if IsHunkHeader(lines[0]) || StartsWith(lines[0], "-") then 0 else 1
  }

  /** Body lines of one file that stand in the old file. */
  function Removed(lines: seq<string>): nat {
    if EndsSection(lines) then 0
    else Removed(lines[1..]) + if IsHunkHeader(lines[0]) || StartsWith(lines[0], "+") then 0 else 1
  }

  /** No file of the patch loses all its lines without gaining one. */
  predicate KeepsALine(lines: seq<string>, files: Files) {
    if lines == [] then true
    else if IsFileHeader(lines[0]) && |lines| >= 4 then
      var path := HeaderPath(lines[0]);
      && (path.Some? && path.value in files ==>
            |Split(files[path.value])| + Added(lines[4..]) > Removed(lines[4..]))
      && KeepsALine(lines[4..], files)
    else KeepsALine(lines[1..], files)
  }

  // ---------------------------------------------------------------- reversing one hunk

  lemma InvertBodyLine(x: Syntax, line: string)
    requires x.Lawful()
    requires line != "" && line[0] in " +-"
    ensures var inverse := InvertLine(x.swap, line);
            && inverse != "" && inverse[0] in " +-" && inverse[1..] == line[1..]
            && !IsHunkHeader(inverse) && !IsFileHeader(inverse)
            && (inverse[0] == '+' <==> line[0] == '-') && (inverse[0] == '-' <==> line[0] == '+')
  {
    StartsWithHead(line, "@@ ");
    var inverse := InvertLine(x.swap, line);
    assert StartsWith(line, "+") <==> line[0] == '+';
    assert StartsWith(line, "-") <==> line[0] == '-';
    StartsWithHead(inverse, "@@ ");
    StartsWithHead(inverse, "diff --git ");
  }

  lemma InvertHeadOfBody(x: Syntax, lines: seq<string>)
    requires x.Lawful()
    requires lines != [] && (IsHunkHeader(lines[0]) || IsFileHeader(lines[0]))
    ensures var inverse := InvertLines(x.swap, lines);
            && inverse != []
            && (IsHunkHeader(inverse[0]) <==> IsHunkHeader(lines[0]))
            && (IsFileHeader(inverse[0]) <==> IsFileHeader(lines[0]))
  {
    assert x.LawfulAt(lines[0]);
    StartsWithHead(x.swap(lines[0]), "@@ ");
    StartsWithHead(x.swap(lines[0]), "diff --git ");
    StartsWithHead(lines[0], "@@ ");
    StartsWithHead(lines[0], "diff --git ");
  }

  /** Read backwards, a hunk body turns the new lines into the old ones. */
  lemma {:induction false} BodyReversed(x: Syntax, lines: seq<string>, before: seq<string>, cursor: nat,
                                        after: seq<string>, removed: nat, added: nat, written: seq<string>)
    requires x.Lawful()
    requires cursor <= |before| && |after| <= |written|
    requires Body(lines, before, cursor, after, removed, added).Ok?
    requires Body(lines, before, cursor, after, removed, added).value.after <= written
    ensures var end := Body(lines, before, cursor, after, removed, added).value;
            Body(InvertLines(x.swap, lines), written, |after|, before[..cursor], added, removed)
              == Ok(BodyEnd(InvertLines(x.swap, end.rest), |end.after|, before[..end.cursor], end.added, end.removed))
  {
    if lines == [] {
    } else if IsHunkHeader(lines[0]) || IsFileHeader(lines[0]) {
      InvertHeadOfBody(x, lines);
    } else {
      var line := lines[0];
      InvertBodyLine(x, line);
      var (cursor', removed') := if line[0] != '+' then (cursor + 1, removed + 1) else (cursor, removed);
      var (after', added') := if line[0] != '-' then (after + [line[1..]], added + 1) else (after, added);
      BodyGrows(lines[1..], before, cursor', after', removed', added');
      assert after' <= written;
      if line[0] != '-' {
        assert written[|after|] == after'[|after|];
      }
      if line[0] != '+' {
        assert before[..cursor] + [line[1..]] == before[..cursor'];
      }
      BodyReversed(x, lines[1..], before, cursor', after', removed', added', written);
      assert InvertLines(x.swap, lines)[1..] == InvertLines(x.swap, lines[1..]);
    }
  }

  /** The untouched lines before a hunk are the same lines on both sides. */
  lemma GapReversed(before: seq<string>, cursor: nat, oldStart: nat, after: seq<string>, written: seq<string>)
    requires cursor <= oldStart <= |before|
    requires after + before[cursor..oldStart] <= written
    ensures before[..cursor] + written[|after|..|after| + (oldStart - cursor)] == before[..oldStart]
  {
    assert written[|after|..|after| + (oldStart - cursor)] == before[cursor..oldStart];
  }

  lemma HunkAtReversed(x: Syntax, h: HunkHeader.Header, body: seq<string>, before: seq<string>, cursor: nat,
                       after: seq<string>, written: seq<string>)
    requires x.Lawful()
    requires cursor <= |before| && |after| <= |written|
    requires HunkAt(h, body, before, cursor, after).Ok?
    requires HunkAt(h, body, before, cursor, after).value.after <= written
    ensures var end := HunkAt(h, body, before, cursor, after).value;
            HunkAt(h.Swapped(), InvertLines(x.swap, body), written, |after|, before[..cursor])
              == Ok(BodyEnd(InvertLines(x.swap, end.rest), |end.after|, before[..end.cursor], end.added, end.removed))
  {
    var oldStart := h.oldSide.Start() - 1;
    var after' := after + before[cursor..oldStart];
    BodyGrows(body, before, oldStart, after', 0, 0);
    assert after' <= written;
    GapReversed(before, cursor, oldStart, after, written);
    BodyReversed(x, body, before, oldStart, after', 0, 0, written);
  }

  lemma HunkReversed(x: Syntax, lines: seq<string>, before: seq<string>, cursor: nat, after: seq<string>,
                     written: seq<string>)
    requires x.Lawful()
    requires lines != [] && !IsFileHeader(lines[0]) && cursor <= |before| && |after| <= |written|
    requires Hunk(x.read, lines, before, cursor, after).Ok?
    requires Hunk(x.read, lines, before, cursor, after).value.after <= written
    ensures var end := Hunk(x.read, lines, before, cursor, after).value;
            Hunk(x.read, InvertLines(x.swap, lines), written, |after|, before[..cursor])
              == Ok(BodyEnd(InvertLines(x.swap, end.rest), |end.after|, before[..end.cursor], end.added, end.removed))
  {
    AcceptedHeader(x, lines[0]);
    HunkAtReversed(x, x.read(lines[0]).value, lines[1..], before, cursor, after, written);
    assert InvertLines(x.swap, lines)[1..] == InvertLines(x.swap, lines[1..]);
  }

  lemma AcceptedHeader(x: Syntax, line: string)
    requires x.Lawful() && x.read(line).Some?
    ensures IsHunkHeader(line) && !IsFileHeader(line)
    ensures x.read(x.swap(line)) == Some(x.read(line).value.Swapped())
  {
    assert x.LawfulAt(line);
    StartsWithHead(line, "@@ ");
    StartsWithHead(line, "diff --git ");
  }

  /** Read backwards on any text that starts with the lines written, the hunks write the old lines. */
  lemma {:induction false} HunksReversed(x: Syntax, lines: seq<string>, before: seq<string>, cursor: nat,
                                         after: seq<string>, hunks: nat, written: seq<string>)
    requires x.Lawful()
    requires cursor <= |before| && |after| <= |written|
    requires Hunks(x.read, lines, before, cursor, after, hunks).Ok?
    requires Hunks(x.read, lines, before, cursor, after, hunks).value.after <= written
    ensures var end := Hunks(x.read, lines, before, cursor, after, hunks).value;
            Hunks(x.read, InvertLines(x.swap, lines), written, |after|, before[..cursor], hunks)
              == Ok(HunksEnd(InvertLines(x.swap, end.rest), |end.after|, before[..end.cursor], end.hunks))
    decreases |lines|
  {
    if lines == [] {
    } else if IsFileHeader(lines[0]) {
      InvertHeadOfBody(x, lines);
    } else {
      var end := Hunk(x.read, lines, before, cursor, after).value;
      HunksGrow(x.read, end.rest, before, end.cursor, end.after, hunks + 1);
      HunkReversed(x, lines, before, cursor, after, written);
      HunksReversed(x, end.rest, before, end.cursor, end.after, hunks + 1, written);
      AcceptedHeader(x, lines[0]);
      InvertHeadOfBody(x, lines);
    }
  }

  // ---------------------------------------------------------------- counting lines

  lemma {:induction false} BodyCounts(lines: seq<string>, before: seq<string>, cursor: nat, after: seq<string>,
                                      removed: nat, added: nat)
    requires cursor <= |before|
    requires Body(lines, before, cursor, after, removed, added).Ok?
    ensures var end := Body(lines, before, cursor, after, removed, added).value;
            && |end.after| == |after| + Added(lines) - Added(end.rest)
            && end.cursor == cursor + Removed(lines) - Removed(end.rest)
  {
    if !(lines == [] || IsHunkHeader(lines[0]) || IsFileHeader(lines[0])) {
      var line := lines[0];
      var (cursor', removed') := if line[0] != '+' then (cursor + 1, removed + 1) else (cursor, removed);
      var (after', added') := if line[0] != '-' then (after + [line[1..]], added + 1) else (after, added);
      BodyCounts(lines[1..], before, cursor', after', removed', added');
      assert StartsWith(line, "+") <==> line[0] == '+';
      assert StartsWith(line, "-") <==> line[0] == '-';
    }
  }

  /** A file has as many lines afterwards as before, plus those added, less those removed. */
  lemma {:induction false} LinesConserved(x: Syntax, lines: seq<string>, before: seq<string>, cursor: nat,
                                          after: seq<string>, hunks: nat)
    requires x.Lawful()
    requires cursor <= |before|
    requires Hunks(x.read, lines, before, cursor, after, hunks).Ok?
    ensures var end := Hunks(x.read, lines, before, cursor, after, hunks).value;
            |NewLines(before, end)| == |after| + |before| - cursor + Added(lines) - Removed(lines)
    decreases |lines|
  {
    if !EndsSection(lines) {
      var end := Hunk(x.read, lines, before, cursor, after).value;
      var oldStart := x.read(lines[0]).value.oldSide.Start() - 1;
      BodyCounts(lines[1..], before, oldStart, after + before[cursor..oldStart], 0, 0);
      LinesConserved(x, end.rest, before, end.cursor, end.after, hunks + 1);
      AcceptedHeader(x, lines[0]);
    } else {
      var end := Hunks(x.read, lines, before, cursor, after, hunks).value;
      assert end.rest == lines;
    }
  }

  // ---------------------------------------------------------------- whole files

  lemma {:induction false} BodyWritesLines(lines: seq<string>, before: seq<string>, cursor: nat, after: seq<string>,
                                           removed: nat, added: nat)
    requires cursor <= |before| && AreLines(lines) && AreLines(after)
    requires Body(lines, before, cursor, after, removed, added).Ok?
    ensures var end := Body(lines, before, cursor, after, removed, added).value;
            AreLines(end.after) && AreLines(end.rest)
  {
    if !(lines == [] || IsHunkHeader(lines[0]) || IsFileHeader(lines[0])) {
      var line := lines[0];
      var (cursor', removed') := if line[0] != '+' then (cursor + 1, removed + 1) else (cursor, removed);
      var (after', added') := if line[0] != '-' then (after + [line[1..]], added + 1) else (after, added);
      BodyWritesLines(lines[1..], before, cursor', after', removed', added');
    }
  }

  lemma {:induction false} HunksWriteLines(x: Syntax, lines: seq<string>, before: seq<string>, cursor: nat,
                                           after: seq<string>, hunks: nat)
    requires cursor <= |before| && AreLines(lines) && AreLines(before) && AreLines(after)
    requires Hunks(x.read, lines, before, cursor, after, hunks).Ok?
    ensures var end := Hunks(x.read, lines, before, cursor, after, hunks).value;
            AreLines(NewLines(before, end)) && AreLines(end.rest)
    decreases |lines|
  {
    if !EndsSection(lines) {
      var end := Hunk(x.read, lines, before, cursor, after).value;
      var oldStart := x.read(lines[0]).value.oldSide.Start() - 1;
      BodyWritesLines(lines[1..], before, oldStart, after + before[cursor..oldStart], 0, 0);
      HunksWriteLines(x, end.rest, before, end.cursor, end.after, hunks + 1);
    }
  }

  /** What the reverse hunks write on any text that starts with the lines the hunks wrote. */
  lemma HunksBack(x: Syntax, body: seq<string>, before: seq<string>, base: seq<string>)
    requires x.Lawful()
    requires Hunks(x.read, body, before, 0, [], 0).Ok?
    requires Hunks(x.read, body, before, 0, [], 0).value.after <= base
    ensures var end := Hunks(x.read, body, before, 0, [], 0).value;
            var back := Hunks(x.read, InvertLines(x.swap, body), base, 0, [], 0);
            && back.Ok? && back.value.rest == InvertLines(x.swap, end.rest) && back.value.hunks == end.hunks
            && NewLines(base, back.value) == before[..end.cursor] + base[|end.after|..]
  {
    assert before[..0] == [];
    HunksReversed(x, body, before, 0, [], 0, base);
  }

  /** The reverse hunks, replayed on the text that the hunks wrote. */
  lemma ContentReversed(x: Syntax, body: seq<string>, original: string)
    requires x.Lawful()
    requires AreLines(body) && Hunks(x.read, body, Split(original), 0, [], 0).Ok?
    ensures var end := Hunks(x.read, body, Split(original), 0, [], 0).value;
            var base := Split(Join(NewLines(Split(original), end)));
            var back := Hunks(x.read, InvertLines(x.swap, body), base, 0, [], 0);
            && AreLines(end.rest)
            && back.Ok? && back.value.rest == InvertLines(x.swap, end.rest) && back.value.hunks == end.hunks
            && Join(NewLines(base, back.value)) ==
               if |Split(original)| + Added(body) > Removed(body) then original else original + [NewLine]
  {
    var before := Split(original);
    var end := Hunks(x.read, body, before, 0, [], 0).value;
    var after := NewLines(before, end);
    SplitGivesLines(original);
    HunksWriteLines(x, body, before, 0, [], 0);
    LinesConserved(x, body, before, 0, [], 0);
    JoinAfterSplit(original);
    if after == [] {
      EmptiedBack(before, end);
      HunksBack(x, body, before, [""]);
    } else {
      SplitAfterJoin(after);
      HunksBack(x, body, before, after);
      KeptBack(before, end);
    }
  }

  lemma KeptBack(before: seq<string>, end: HunksEnd)
    requires end.cursor <= |before|
    ensures before[..end.cursor] + NewLines(before, end)[|end.after|..] == before
  {
  }

  lemma EmptiedBack(before: seq<string>, end: HunksEnd)
    requires end.cursor <= |before| && before != [] && NewLines(before, end) == []
    ensures end.after == []
    ensures Join(before[..end.cursor] + [""][|end.after|..]) == Join(before) + [NewLine]
  {
    assert |NewLines(before, end)| == |end.after| + (|before| - end.cursor);
    assert |end.after| == 0 && end.cursor == |before|;
    assert before[..end.cursor] == before;
    assert [""][|end.after|..] == [""];
    JoinWithEmptyLine(before);
  }

  /** The reverse of one file section, replayed on what the section wrote. */
  lemma SectionReversed(x: Syntax, lines: seq<string>, files: Files, seen: set<string>, written: Files)
    requires x.Lawful()
    requires lines != [] && AreLines(lines)
    requires FileSection(x.read, lines, files, seen).Ok?
    requires var section := FileSection(x.read, lines, files, seen).value;
             section.path in written && written[section.path] == section.content
    ensures var section := FileSection(x.read, lines, files, seen).value;
            var original := files[section.path];
            var kept := |Split(original)| + Added(lines[4..]) > Removed(lines[4..]);
            FileSection(x.read, InvertLines(x.swap, lines), written, seen)
              == Ok(Section(section.path, if kept then original else original + [NewLine], InvertLines(x.swap, section.rest)))
    ensures AreLines(FileSection(x.read, lines, files, seen).value.rest)
  {
    var section := FileSection(x.read, lines, files, seen).value;
    ContentReversed(x, lines[4..], files[section.path]);
    FileHeaderStarts(section.path);
    var inverse := InvertLines(x.swap, lines);
    assert inverse[0] == lines[0] && inverse[1] == lines[1] && inverse[2] == lines[2] && inverse[3] == lines[3];
    assert inverse[4..] == InvertLines(x.swap, lines[4..]);
  }

  lemma FileHeaderStarts(path: string)
    ensures IsFileHeader(FileHeader(path))
  {
    assert FileHeader(path) == "diff --git " + ("a/" + path + " b/" + path);
  }

  lemma {:induction false} JoinWithEmptyLine(lines: seq<string>)
    requires |lines| >= 1
    ensures Join(lines + [""]) == Join(lines) + [NewLine]
  {
    if |lines| == 1 {
      assert (lines + [""])[1..] == [""];
      assert lines[0] + [NewLine] + "" == lines[0] + [NewLine];
    } else {
      JoinWithEmptyLine(lines[1..]);
      assert (lines + [""])[1..] == lines[1..] + [""];
      assert lines[0] + [NewLine] + (Join(lines[1..]) + [NewLine]) == lines[0] + [NewLine] + Join(lines[1..]) + [NewLine];
    }
  }

  // ---------------------------------------------------------------- the whole patch

  /** A file section never touches a file that an earlier section wrote. */
  lemma {:induction false} SectionsKeep(x: Syntax, lines: seq<string>, files: Files, result: Files)
    requires result.Keys <= files.Keys
    requires Sections(x.read, lines, files, result).Ok?
    ensures var final := Sections(x.read, lines, files, result).value;
            result.Keys <= final.Keys <= files.Keys && forall p :: p in result ==> final[p] == result[p]
    decreases |lines|
  {
    if lines != [] {
      var section := FileSection(x.read, lines, files, result.Keys).value;
      SectionsKeep(x, section.rest, files, result[section.path := section.content]);
    }
  }

  lemma {:induction false} KeepsALineAcross(x: Syntax, lines: seq<string>, before: seq<string>, cursor: nat,
                                            after: seq<string>, hunks: nat, files: Files)
    requires cursor <= |before|
    requires Hunks(x.read, lines, before, cursor, after, hunks).Ok?
    ensures KeepsALine(lines, files) <==> KeepsALine(Hunks(x.read, lines, before, cursor, after, hunks).value.rest, files)
    decreases |lines|
  {
    if !EndsSection(lines) {
      var end := Hunk(x.read, lines, before, cursor, after).value;
      var oldStart := x.read(lines[0]).value.oldSide.Start() - 1;
      KeepsALineInBody(lines[1..], before, oldStart, after + before[cursor..oldStart], 0, 0, files);
      KeepsALineAcross(x, end.rest, before, end.cursor, end.after, hunks + 1, files);
    }
  }

  lemma {:induction false} KeepsALineInBody(lines: seq<string>, before: seq<string>, cursor: nat, after: seq<string>,
                                            removed: nat, added: nat, files: Files)
    requires cursor <= |before|
    requires Body(lines, before, cursor, after, removed, added).Ok?
    ensures KeepsALine(lines, files) <==> KeepsALine(Body(lines, before, cursor, after, removed, added).value.rest, files)
  {
    if !(lines == [] || IsHunkHeader(lines[0]) || IsFileHeader(lines[0])) {
      var line := lines[0];
      var (cursor', removed') := if line[0] != '+' then (cursor + 1, removed + 1) else (cursor, removed);
      var (after', added') := if line[0] != '-' then (after + [line[1..]], added + 1) else (after, added);
      KeepsALineInBody(lines[1..], before, cursor', after', removed', added', files);
    }
  }

  /** `r` brings back every file of `final` that `back` does not hold yet. */
  ghost predicate Restores(r: Files, final: Files, back: Files, files: Files) {
    forall p :: p in final && p !in back ==> p in r && p in files && r[p] == files[p]
  }

  ghost predicate Extends(r: Files, back: Files) {
    forall p :: p in back ==> p in r && r[p] == back[p]
  }

  /** The inverse of one section, then of the rest. */
  lemma InverseUnfold(x: Syntax, lines: seq<string>, files: Files, result: Files, final: Files, back: Files)
    requires x.Lawful()
    requires lines != [] && AreLines(lines) && back.Keys == result.Keys
    requires FileSection(x.read, lines, files, result.Keys).Ok?
    requires var section := FileSection(x.read, lines, files, result.Keys).value;
             section.path in final && final[section.path] == section.content
    ensures var section := FileSection(x.read, lines, files, result.Keys).value;
            var inverse := FileSection(x.read, InvertLines(x.swap, lines), final, back.Keys);
            && AreLines(section.rest)
            && inverse.Ok? && inverse.value.path == section.path
            && Sections(x.read, InvertLines(x.swap, lines), final, back)
                 == Sections(x.read, InvertLines(x.swap, section.rest), final, back[section.path := inverse.value.content])
            && (KeepsALine(lines, files) <==>
                  (inverse.value.content == files[section.path] && KeepsALine(section.rest, files)))
  {
    SectionReversed(x, lines, files, result.Keys, final);
    KeepsALineUnfold(x, lines, files, result.Keys);
    assert InvertLines(x.swap, lines) != [];
  }

  /** All sections backwards: every file comes back, some perhaps with one more line break. */
  lemma {:induction false} SectionsReversed(x: Syntax, lines: seq<string>, files: Files, result: Files, final: Files,
                                            back: Files)
    requires x.Lawful()
    requires AreLines(lines) && result.Keys <= files.Keys && back.Keys == result.Keys
    requires Sections(x.read, lines, files, result) == Ok(final)
    ensures var r := Sections(x.read, InvertLines(x.swap, lines), final, back);
            && r.Ok? && r.value.Keys == final.Keys
            && Extends(r.value, back)
            && (KeepsALine(lines, files) <==> Restores(r.value, final, back, files))
    decreases |lines|
  {
    if lines != [] {
      var section := FileSection(x.read, lines, files, result.Keys).value;
      var path := section.path;
      var result' := result[path := section.content];
      SectionsKeep(x, section.rest, files, result');
      assert final[path] == section.content;
      InverseUnfold(x, lines, files, result, final, back);
      var inverse := FileSection(x.read, InvertLines(x.swap, lines), final, back.Keys).value;
      var back' := back[path := inverse.content];
      SectionsReversed(x, section.rest, files, result', final, back');
      var r := Sections(x.read, InvertLines(x.swap, lines), final, back).value;
      assert r[path] == back'[path];
      RestoresStep(r, final, back, files, path);
    }
  }

  lemma RestoresStep(r: Files, final: Files, back: Files, files: Files, path: string)
    requires path in final && path !in back && path in r && path in files
    ensures Restores(r, final, back, files) <==> r[path] == files[path] && Restores(r, final, back[path := r[path]], files)
  {
  }

  lemma KeepsALineUnfold(x: Syntax, lines: seq<string>, files: Files, seen: set<string>)
    requires lines != [] && FileSection(x.read, lines, files, seen).Ok?
    ensures var section := FileSection(x.read, lines, files, seen).value;
            KeepsALine(lines, files) <==>
              |Split(files[section.path])| + Added(lines[4..]) > Removed(lines[4..]) && KeepsALine(section.rest, files)
  {
    var section := FileSection(x.read, lines, files, seen).value;
    FileHeaderStarts(section.path);
    KeepsALineAcross(x, lines[4..], Split(files[section.path]), 0, [], 0, files);
  }

  // ---------------------------------------------------------------- main results

  lemma InvertLinesAreLines(x: Syntax, lines: seq<string>)
    requires x.Lawful()
    requires AreLines(lines)
    ensures AreLines(InvertLines(x.swap, lines))
    decreases |lines|
  {
    if lines == [] {
    } else if IsFileHeader(lines[0]) {
      if |lines| >= 4 {
        InvertLinesAreLines(x, lines[4..]);
      }
    } else {
      assert x.LawfulAt(lines[0]);
      InvertLinesAreLines(x, lines[1..]);
      assert IsLine(InvertLine(x.swap, lines[0]));
    }
  }

  lemma InvertedPatchLines(patch: string)
    ensures EndsWith(InvertPatch(patch), [NewLine]) || PatchLines(patch) == []
    ensures PatchLines(InvertPatch(patch)) == InvertLines(HunkHeader.SwapLine, PatchLines(patch))
  {
    var lines := PatchLines(patch);
    UnifiedIsLawful();
    SplitGivesLines(patch);
    InvertLinesAreLines(UNIFIED, lines);
    SplitAfterJoin(InvertLines(HunkHeader.SwapLine, lines) + [""]);
    TrailingBreak(InvertPatch(patch));
  }

  ghost function PathSet(): set<string> {
    set p | p in PUBLICATION_PATHS
  }

  lemma {:induction false} SectionsStayInScope(x: Syntax, lines: seq<string>, files: Files, result: Files)
    requires result.Keys <= PathSet()
    requires Sections(x.read, lines, files, result).Ok?
    ensures Sections(x.read, lines, files, result).value.Keys <= PathSet()
    decreases |lines|
  {
    if lines != [] {
      var section := FileSection(x.read, lines, files, result.Keys).value;
      SectionsStayInScope(x, section.rest, files, result[section.path := section.content]);
    }
  }

  /** An accepted patch rewrites exactly the eight publication paths. */
  lemma ReplayPaths(files: Files, patch: string, versionless: Versionless)
    requires Replay(files, patch, versionless).Ok?
    ensures Replay(files, patch, versionless).value.Keys == PathSet()
    ensures PathSet() <= files.Keys
  {
    var final := Replay(files, patch, versionless).value;
    SectionsStayInScope(UNIFIED, PatchLines(patch), files, map[]);
    SectionsKeep(UNIFIED, PatchLines(patch), files, map[]);
    Sets.SetOfSeqSize(PUBLICATION_PATHS);
    Sets.SubsetSize(final.Keys, PathSet());
  }

  /** The files of the publication set. */
  ghost function Originals(files: Files): Files {
    map p | p in PathSet() && p in files :: files[p]
  }

  lemma DocumentsBack(files: Files, result: Files, versionless: Versionless)
    requires KeepsDocuments(files, result, versionless)
    ensures KeepsDocuments(result, Originals(files), versionless)
  {
    forall k | FIRST_DOCUMENT <= k < |PUBLICATION_PATHS|
      ensures PUBLICATION_PATHS[k] in Originals(files)
    {
      assert PUBLICATION_PATHS[k] in PUBLICATION_PATHS;
      assert PUBLICATION_PATHS[k] in files;
    }
  }

  lemma RestoresOriginals(back: Files, final: Files, files: Files)
    requires final.Keys == back.Keys == PathSet() <= files.Keys
    ensures Restores(back, final, map[], files) <==> back == Originals(files)
  {
    var originals := Originals(files);
    assert originals.Keys == PathSet();
    if Restores(back, final, map[], files) {
      forall p | p in back ensures back[p] == originals[p] {
        assert p in final;
      }
    }
  }

  lemma ReplayIsSections(files: Files, patch: string, versionless: Versionless, result: Files)
    requires Replay(files, patch, versionless) == Ok(result)
    ensures Sections(UNIFIED.read, PatchLines(patch), files, map[]) == Ok(result)
    ensures KeepsDocuments(files, result, versionless)
    ensures |result.Keys| == |PUBLICATION_PATHS| && PatchLines(patch) != []
  {
  }

  lemma SectionsAreReplay(files: Files, patch: string, versionless: Versionless, result: Files)
    requires EndsWith(patch, [NewLine])
    requires Sections(UNIFIED.read, PatchLines(patch), files, map[]) == Ok(result)
    requires |result.Keys| == |PUBLICATION_PATHS|
    ensures KeepsDocuments(files, result, versionless) ==> Replay(files, patch, versionless) == Ok(result)
    ensures Replay(files, patch, versionless).Ok? ==> Replay(files, patch, versionless).value == result
  {
  }

  /**
   The reverse patch is always replayed to the end on the result, and it restores every
   file exactly when no file had lost all its lines. The condition counts lines of the
   patch and of the files, before any replay.
   */
  lemma InverseRestores(files: Files, patch: string, versionless: Versionless, result: Files)
    requires Replay(files, patch, versionless) == Ok(result)
    ensures Replay(result, InvertPatch(patch), versionless) == Ok(Originals(files))
      <==> KeepsALine(PatchLines(patch), files)
  {
    var lines := PatchLines(patch);
    UnifiedIsLawful();
    SplitGivesLines(patch);
    ReplayIsSections(files, patch, versionless, result);
    ReplayPaths(files, patch, versionless);
    InvertedPatchLines(patch);
    SectionsReversed(UNIFIED, lines, files, map[], result, map[]);
    var back := Sections(UNIFIED.read, InvertLines(UNIFIED.swap, lines), result, map[]).value;
    RestoresOriginals(back, result, files);
    DocumentsBack(files, result, versionless);
    SectionsAreReplay(result, InvertPatch(patch), versionless, back);
  }

  // ---------------------------------------------------------------- reversing twice

  lemma InvertLineTwice(x: Syntax, line: string)
    requires x.Lawful()
    requires !IsFileHeader(line)
    ensures InvertLine(x.swap, InvertLine(x.swap, line)) == line && !IsFileHeader(InvertLine(x.swap, line))
  {
    var inverse := InvertLine(x.swap, line);
    StartsWithHead(line, "@@ ");
    StartsWithHead(line, "+");
    StartsWithHead(line, "-");
    StartsWithHead(inverse, "@@ ");
    StartsWithHead(inverse, "diff --git ");
    if IsHunkHeader(line) {
      assert x.LawfulAt(line);
      InvertHeadOfBody(x, [line]);
    } else if StartsWith(line, "+") || StartsWith(line, "-") {
      assert inverse[1..] == line[1..];
      assert line == [line[0]] + line[1..];
    }
  }

  lemma {:induction false} InvertLinesTwice(x: Syntax, lines: seq<string>)
    requires x.Lawful()
    ensures InvertLines(x.swap, InvertLines(x.swap, lines)) == lines
    decreases |lines|
  {
    if lines == [] {
    } else if IsFileHeader(lines[0]) {
      if |lines| >= 4 {
        InvertLinesTwice(x, lines[4..]);
        var inverse := InvertLines(x.swap, lines);
        assert inverse[..4] == lines[..4] && inverse[4..] == InvertLines(x.swap, lines[4..]);
        assert inverse[0] == lines[0];
      }
    } else {
      InvertLinesTwice(x, lines[1..]);
      InvertLineTwice(x, lines[0]);
      assert InvertLines(x.swap, lines)[1..] == InvertLines(x.swap, lines[1..]);
    }
  }

  lemma PatchOfLines(patch: string)
    requires EndsWith(patch, [NewLine])
    ensures Join(PatchLines(patch) + [""]) == patch
  {
    TrailingBreak(patch);
    assert PatchLines(patch) + [""] == Split(patch);
    JoinAfterSplit(patch);
  }

  lemma InvertPatchTwice(patch: string)
    requires EndsWith(patch, [NewLine])
    ensures InvertPatch(InvertPatch(patch)) == patch
  {
    var inverse := InvertPatch(patch);
    InvertedPatchLines(patch);
    UnifiedIsLawful();
    InvertLinesTwice(UNIFIED, PatchLines(patch));
    assert InvertLines(HunkHeader.SwapLine, PatchLines(inverse)) == PatchLines(patch);
    PatchOfLines(patch);
  }

  /** Replay and reverse replay are inverse to each other, in both directions. */
  lemma ReplayBothWays(files: Files, patch: string, versionless: Versionless, result: Files)
    requires EndsWith(patch, [NewLine])
    requires files.Keys == result.Keys == PathSet()
    ensures Replay(files, patch, versionless) == Ok(result) && KeepsALine(PatchLines(patch), files)
      <==> Replay(result, InvertPatch(patch), versionless) == Ok(files) && KeepsALine(PatchLines(InvertPatch(patch)), result)
  {
    InvertPatchTwice(patch);
    assert Originals(files) == files;
    assert Originals(result) == result;
    if Replay(files, patch, versionless) == Ok(result) {
      InverseRestores(files, patch, versionless, result);
    }
    if Replay(result, InvertPatch(patch), versionless) == Ok(files) {
      InverseRestores(result, InvertPatch(patch), versionless, files);
    }
  }

  // ---------------------------------------------------------------- the file that does not come back

  lemma FileHeaderInjective(a: string, b: string)
    requires FileHeader(a) == FileHeader(b)
    ensures a == b
  {
    var front := "diff --git a/";
    assert |FileHeader(a)| == |front| + 2 * |a| + 3;
    assert FileHeader(a) == front + (a + (" b/" + a));
    assert FileHeader(b) == front + (b + (" b/" + b));
    assert FileHeader(a)[|front|..|front| + |a|] == a;
    assert FileHeader(b)[|front|..|front| + |b|] == b;
  }

  lemma HeaderPathOf(path: string)
    requires path in PUBLICATION_PATHS
    ensures HeaderPath(FileHeader(path)) == Some(path)
  {
    var found := HeaderPath(FileHeader(path));
    if found.Some? {
      FileHeaderInjective(path, found.value);
    }
  }

  /** A header such as `@@ -1,2 +1,0 @@`: the whole of a two-line text goes, nothing comes. */
  ghost predicate TakesTwoLines(h: HunkHeader.Header) {
    && h.Valid()
    && h.oldSide.Start() == 1 && h.newSide.Start() == 1 && h.oldSide.Count() == 2 && h.newSide.Count() == 0
  }

  lemma EmptyingBody(rest: seq<string>, before: seq<string>)
    requires |rest| == |before| == 2
    requires rest[0] == "-" + before[0] && rest[1] == "-" + before[1]
    ensures Body(rest, before, 0, [], 0, 0) == Ok(BodyEnd([], 2, [], 2, 0))
    ensures Added(rest) == 0 && Removed(rest) == 2
  {
    StartsWithHead(rest[0], "@@ ");
    StartsWithHead(rest[0], "diff --git ");
    StartsWithHead(rest[1], "@@ ");
    StartsWithHead(rest[1], "diff --git ");
    StartsWithHead(rest[0], "+");
    StartsWithHead(rest[1], "+");
    var last := rest[1..];
    assert last == [rest[1]] && last[1..] == [];
    assert rest[0][1..] == before[0] && rest[1][1..] == before[1];
    assert Body([], before, 2, [], 2, 0) == Ok(BodyEnd([], 2, [], 2, 0));
    assert Body(last, before, 1, [], 1, 0) == Ok(BodyEnd([], 2, [], 2, 0));
    assert Added([]) == 0 && Removed([]) == 0;
    assert Added(last) == 0 && Removed(last) == 1;
  }

  lemma EmptyingHunk(x: Syntax, lines: seq<string>, before: seq<string>, h: HunkHeader.Header)
    requires x.Lawful()
    requires |lines| == 3 && |before| == 2 && TakesTwoLines(h) && x.read(lines[0]) == Some(h)
    requires lines[1] == "-" + before[0] && lines[2] == "-" + before[1]
    ensures Hunks(x.read, lines, before, 0, [], 0) == Ok(HunksEnd([], 2, [], 1))
    ensures Added(lines) == 0 && Removed(lines) == 2
  {
    AcceptedHeader(x, lines[0]);
    EmptyingBody(lines[1..], before);
    assert [] + before[0..0] == [];
    assert Hunk(x.read, lines, before, 0, []) == Ok(BodyEnd([], 2, [], 2, 0));
  }

  /** The section that takes away the only line of a file and the empty line after its line break. */
  function EmptyingSection(path: string, index: string, header: string, line: string): seq<string> {
    [FileHeader(path), index, "--- a/" + path, "+++ b/" + path] + [header, "-" + line, "-"]
  }

  lemma EmptyingLines(path: string, index: string, header: string, line: string)
    requires IsLine(path) && IsLine(index) && IsLine(header) && IsLine(line)
    ensures AreLines(EmptyingSection(path, index, header, line))
  {
    assert IsLine(FileHeader(path)) && IsLine("--- a/" + path) && IsLine("+++ b/" + path);
    assert IsLine("-" + line) && IsLine("-");
  }

  lemma SectionOf(x: Syntax, lines: seq<string>, files: Files, seen: set<string>, path: string, end: HunksEnd)
    requires |lines| >= 4 && path !in seen && HeaderPath(lines[0]) == Some(path) && IsIndexLine(lines[1])
    requires lines[2] == "--- a/" + path && lines[3] == "+++ b/" + path
    requires path in files && Hunks(x.read, lines[4..], Split(files[path]), 0, [], 0) == Ok(end) && end.hunks > 0
    ensures FileSection(x.read, lines, files, seen) == Ok(Section(path, Join(NewLines(Split(files[path]), end)), end.rest))
  {
  }

  lemma TwoLines(line: string)
    requires IsLine(line)
    ensures Split(line + [NewLine]) == [line, ""]
  {
    SplitAtBreak(line, "");
    assert line + [NewLine] + "" == line + [NewLine];
  }

  /** A file that loses every line comes back with one line break too many. */
  lemma EmptiedFileComesBackLonger(x: Syntax, path: string, index: string, header: string, h: HunkHeader.Header,
                                   line: string)
    requires x.Lawful()
    requires path in PUBLICATION_PATHS && IsLine(path) && IsIndexLine(index) && IsLine(index)
    requires IsLine(header) && x.read(header) == Some(h) && TakesTwoLines(h) && IsLine(line)
    ensures var text := line + [NewLine];
            var section := EmptyingSection(path, index, header, line);
            && FileSection(x.read, section, map[path := text], {}) == Ok(Section(path, "", []))
            && FileSection(x.read, InvertLines(x.swap, section), map[path := ""], {}) == Ok(Section(path, text + [NewLine], []))
  {
    var text := line + [NewLine];
    var lines := EmptyingSection(path, index, header, line);
    var files: Files := map[path := text];
    TwoLines(line);
    var hunk := lines[4..];
    assert "-" + "" == "-";
    assert hunk == [header, "-" + line, "-"];
    EmptyingHunk(x, hunk, [line, ""], h);
    HeaderPathOf(path);
    assert NewLines([line, ""], HunksEnd([], 2, [], 1)) == [];
    SectionOf(x, lines, files, {}, path, HunksEnd([], 2, [], 1));
    EmptyingLines(path, index, header, line);
    SectionReversed(x, lines, files, {}, map[path := ""]);
  }

  /** A header of the kind the example needs, as the interpreter reads it. */
  lemma SomeHeaderTakesTwoLines() returns (h: HunkHeader.Header)
    ensures TakesTwoLines(h) && UNIFIED.read(h.Render()) == Some(h) && IsLine(h.Render())
  {
    h := HunkHeader.Header(HunkHeader.Range("1", Some("2")), HunkHeader.Range("1", Some("0")), "");
    OneDigit('0');
    OneDigit('1');
    OneDigit('2');
    HunkHeader.ParseOfRender(h);
    HunkHeader.RenderIsLine(h);
  }
}
