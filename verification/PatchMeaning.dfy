/**
 What a unified diff says about an old and a new text, without a cursor: the hunks lie in
 order, the old text holds each hunk's old lines at its old place, the new text holds its
 new lines at its new place, and all other lines agree. The interpreter accepts a run of
 well-formed hunks exactly when some new text stands in this relation to the old one, and
 then it writes that text.
 */
module PatchMeaning {
  import opened Wrappers
  import HunkHeader
  import opened PatchReplay

  datatype Edit = Edit(oldStart: int, oldLines: seq<string>, newStart: int, newLines: seq<string>)

  predicate EndsBody(lines: seq<string>) {
    lines == [] || IsHunkHeader(lines[0]) || IsFileHeader(lines[0])
  }

  predicate IsMarked(line: string) {
    line != "" && line[0] in " +-"
  }

  /** The body lines at the front, every one with a mark. */
  predicate BodyMarked(lines: seq<string>) {
    EndsBody(lines) || (IsMarked(lines[0]) && BodyMarked(lines[1..]))
  }

  function AfterBody(lines: seq<string>): (rest: seq<string>)
    ensures |rest| <= |lines|
  {
    if EndsBody(lines) then lines else AfterBody(lines[1..])
  }

  /** The lines of one side of a hunk: those without the other side's mark. */
  function Side(lines: seq<string>, otherMark: char): seq<string>
    requires BodyMarked(lines)
  {
    if EndsBody(lines) then []
    else (if lines[0][0] == otherMark then [] else [lines[0][1..]]) + Side(lines[1..], otherMark)
  }

  /** A hunk whose counts are the numbers of lines it holds. */
  predicate CountsMatch(h: HunkHeader.Header, body: seq<string>) {
    && BodyMarked(body)
    && |Side(body, '+')| == h.oldSide.Count()
    && |Side(body, '-')| == h.newSide.Count()
  }

  function EditOf(h: HunkHeader.Header, body: seq<string>): Edit
    requires BodyMarked(body)
  {
    Edit(h.oldSide.Start() - 1, Side(body, '+'), h.newSide.Start() - 1, Side(body, '-'))
  }

  /** The part stands in the text at this place. */
  predicate HasAt(text: seq<string>, at: int, part: seq<string>) {
    0 <= at <= at + |part| <= |text| && text[at..at + |part|] == part
  }

  /** From these two places on, one edit and the agreement of the lines before it. */
  predicate EditLeads(before: seq<string>, written: seq<string>, e: Edit, oldAt: nat, newAt: nat)
    requires oldAt <= |before| && newAt <= |written|
  {
    && oldAt <= e.oldStart && HasAt(before, e.oldStart, e.oldLines)
    && newAt <= e.newStart && HasAt(written, e.newStart, e.newLines)
    && before[oldAt..e.oldStart] == written[newAt..e.newStart]
  }

  /** One hunk is well formed, and takes the old text to the new one from these places on. */
  ghost predicate HunkLeads(h: HunkHeader.Header, body: seq<string>, before: seq<string>, written: seq<string>,
                            oldAt: nat, newAt: nat)
    requires oldAt <= |before| && newAt <= |written|
  {
    CountsMatch(h, body) && EditLeads(before, written, EditOf(h, body), oldAt, newAt)
  }

  /** The hunks of one file are well formed, and lead from the old text to the new one from these places on. */
  ghost predicate Leads(read: Reader, lines: seq<string>, before: seq<string>, written: seq<string>, oldAt: int, newAt: int)
    decreases |lines|
  {
    && 0 <= oldAt <= |before| && 0 <= newAt <= |written|
    && if lines == [] || IsFileHeader(lines[0]) then before[oldAt..] == written[newAt..]
       else
         var h := read(lines[0]);
         && h.Some?
         && HunkLeads(h.value, lines[1..], before, written, oldAt, newAt)
         && var e := EditOf(h.value, lines[1..]);
            Leads(read, AfterBody(lines[1..]), before, written, e.oldStart + |e.oldLines|, e.newStart + |e.newLines|)
  }

  /** The body is accepted exactly when its old lines stand at the cursor, and then ends after both its sides. */
  ghost predicate BodyMeans(lines: seq<string>, before: seq<string>, cursor: nat, after: seq<string>, removed: nat,
                            added: nat, r: Result<BodyEnd, Error>)
  {
    && (r.Ok? <==> BodyMarked(lines) && HasAt(before, cursor, Side(lines, '+')))
    && (r.Ok? ==>
          r.value == BodyEnd(AfterBody(lines), cursor + |Side(lines, '+')|, after + Side(lines, '-'),
                             removed + |Side(lines, '+')|, added + |Side(lines, '-')|))
  }

  /** A new line in front moves the cursor not at all. */
  lemma AddedLineMeans(lines: seq<string>, before: seq<string>, cursor: nat, after: seq<string>, removed: nat,
                       added: nat, r: Result<BodyEnd, Error>)
    requires !EndsBody(lines) && IsMarked(lines[0]) && lines[0][0] == '+'
    requires BodyMeans(lines[1..], before, cursor, after + [lines[0][1..]], removed, added + 1, r)
    ensures BodyMeans(lines, before, cursor, after, removed, added, r)
  {
    if BodyMarked(lines) {
      assert Side(lines, '+') == Side(lines[1..], '+');
      assert after + [lines[0][1..]] + Side(lines[1..], '-') == after + Side(lines, '-');
    }
  }

  /** An old line in front, kept or not, must stand at the cursor. */
  lemma OldLineMeans(lines: seq<string>, before: seq<string>, cursor: nat, after: seq<string>, removed: nat, added: nat,
                     kept: seq<string>, r: Result<BodyEnd, Error>)
    requires !EndsBody(lines) && IsMarked(lines[0]) && lines[0][0] != '+'
    requires cursor < |before| && before[cursor] == lines[0][1..]
    requires kept == if lines[0][0] == '-' then [] else [lines[0][1..]]
    requires BodyMeans(lines[1..], before, cursor + 1, after + kept, removed + 1, added + |kept|, r)
    ensures BodyMeans(lines, before, cursor, after, removed, added, r)
  {
    if BodyMarked(lines) {
      HasAtHead(before, cursor, lines[0][1..], Side(lines[1..], '+'));
      assert Side(lines, '-') == kept + Side(lines[1..], '-');
      assert after + kept + Side(lines[1..], '-') == after + Side(lines, '-');
    }
  }

  /** Exactly when a body is accepted, and where it ends. */
  lemma {:induction false} BodyMeaning(lines: seq<string>, before: seq<string>, cursor: nat, after: seq<string>,
                                       removed: nat, added: nat)
    requires cursor <= |before|
    ensures BodyMeans(lines, before, cursor, after, removed, added, Body(lines, before, cursor, after, removed, added))
  {
    var r := Body(lines, before, cursor, after, removed, added);
    if EndsBody(lines) {
      assert after + [] == after;
    } else if IsMarked(lines[0]) {
      var text := lines[0][1..];
      if lines[0][0] == '+' {
        BodyMeaning(lines[1..], before, cursor, after + [text], removed, added + 1);
        AddedLineMeans(lines, before, cursor, after, removed, added, r);
      } else if cursor < |before| && before[cursor] == text {
        var kept := if lines[0][0] == '-' then [] else [text];
        assert after + [] == after;
        BodyMeaning(lines[1..], before, cursor + 1, after + kept, removed + 1, added + |kept|);
        OldLineMeans(lines, before, cursor, after, removed, added, kept, r);
      } else if BodyMarked(lines) {
        HasAtHead(before, cursor, text, Side(lines[1..], '+'));
      }
    }
  }

  lemma HasAtHead(text: seq<string>, at: nat, head: string, rest: seq<string>)
    ensures HasAt(text, at, [head] + rest) <==> at < |text| && text[at] == head && HasAt(text, at + 1, rest)
  {
    if at < |text| && text[at] == head && HasAt(text, at + 1, rest) {
      assert text[at..at + 1 + |rest|] == [head] + text[at + 1..at + 1 + |rest|];
    }
    if HasAt(text, at, [head] + rest) {
      var part := text[at..at + 1 + |rest|];
      assert part[0] == head;
      assert text[at + 1..at + 1 + |rest|] == part[1..] == rest;
    }
  }

  lemma HunkMeaning(h: HunkHeader.Header, body: seq<string>, before: seq<string>, cursor: nat, after: seq<string>,
                    written: seq<string>)
    requires cursor <= |before| && after <= written
    ensures HunkAt(h, body, before, cursor, after).Ok? && HunkAt(h, body, before, cursor, after).value.after <= written
      <==> HunkLeads(h, body, before, written, cursor, |after|)
  {
    var oldStart, newStart: int := h.oldSide.Start() - 1, h.newSide.Start() - 1;
    if cursor <= oldStart <= |before| && |after| + oldStart - cursor == newStart && BodyMarked(body) {
      var gap := before[cursor..oldStart];
      BodyMeaning(body, before, oldStart, after + gap, 0, 0);
      PrefixParts(written, after, gap, Side(body, '-'));
      assert EditLeads(before, written, EditOf(h, body), cursor, |after|)
        <==> && HasAt(before, oldStart, Side(body, '+'))
             && HasAt(written, |after|, gap) && HasAt(written, |after| + |gap|, Side(body, '-'));
    } else {
      if cursor <= oldStart <= |before| && |after| + oldStart - cursor == newStart {
        BodyMeaning(body, before, oldStart, after + before[cursor..oldStart], 0, 0);
      }
      assert HunkAt(h, body, before, cursor, after).Err?;
      assert !HunkLeads(h, body, before, written, cursor, |after|);
    }
  }

  lemma PrefixParts(text: seq<string>, a: seq<string>, b: seq<string>, c: seq<string>)
    requires a <= text
    ensures a + b + c <= text <==> HasAt(text, |a|, b) && HasAt(text, |a| + |b|, c)
  {
    if a + b + c <= text {
      var front := text[..|a| + |b| + |c|];
      assert front == a + b + c;
      assert text[|a|..|a| + |b|] == front[|a|..|a| + |b|] == b;
      assert text[|a| + |b|..|a| + |b| + |c|] == front[|a| + |b|..] == c;
    }
    if HasAt(text, |a|, b) && HasAt(text, |a| + |b|, c) {
      assert text[..|a| + |b| + |c|] == a + b + c;
    }
  }

  lemma HunkEnd(h: HunkHeader.Header, body: seq<string>, before: seq<string>, cursor: nat, after: seq<string>)
    requires cursor <= |before| && HunkAt(h, body, before, cursor, after).Ok?
    ensures var end := HunkAt(h, body, before, cursor, after).value;
            && BodyMarked(body)
            && end.rest == AfterBody(body)
            && end.cursor == EditOf(h, body).oldStart + |EditOf(h, body).oldLines|
            && |end.after| == EditOf(h, body).newStart + |EditOf(h, body).newLines|
  {
    var oldStart := h.oldSide.Start() - 1;
    BodyMeaning(body, before, oldStart, after + before[cursor..oldStart], 0, 0);
  }

  /** The interpreter accepts the hunks and writes this text. */
  predicate Writes(read: Reader, lines: seq<string>, before: seq<string>, cursor: nat, after: seq<string>, hunks: nat,
                   written: seq<string>)
    requires cursor <= |before|
  {
    var r := Hunks(read, lines, before, cursor, after, hunks);
    r.Ok? && NewLines(before, r.value) == written
  }

  lemma NoHunks(read: Reader, lines: seq<string>, before: seq<string>, cursor: nat, after: seq<string>, hunks: nat,
                written: seq<string>)
    requires lines == [] || IsFileHeader(lines[0])
    requires cursor <= |before| && after <= written
    ensures Writes(read, lines, before, cursor, after, hunks, written) <==> Leads(read, lines, before, written, cursor, |after|)
  {
    assert written == after + written[|after|..];
    assert (after + before[cursor..])[|after|..] == before[cursor..];
  }

  /** What follows a hunk is written only if the hunk's own lines are. */
  lemma WritesUnfold(read: Reader, lines: seq<string>, before: seq<string>, cursor: nat, after: seq<string>, hunks: nat,
                     written: seq<string>)
    requires lines != [] && !IsFileHeader(lines[0]) && cursor <= |before|
    ensures Writes(read, lines, before, cursor, after, hunks, written)
      <==> && Hunk(read, lines, before, cursor, after).Ok?
           && var end := Hunk(read, lines, before, cursor, after).value;
              end.after <= written && Writes(read, end.rest, before, end.cursor, end.after, hunks + 1, written)
  {
    if Writes(read, lines, before, cursor, after, hunks, written) {
      var end := Hunk(read, lines, before, cursor, after).value;
      HunksGrow(read, end.rest, before, end.cursor, end.after, hunks + 1);
    }
  }

  lemma LeadsAfter(read: Reader, lines: seq<string>, before: seq<string>, written: seq<string>, oldAt: nat, newAt: nat,
                   h: HunkHeader.Header, e: Edit)
    requires lines != [] && !IsFileHeader(lines[0]) && oldAt <= |before| && newAt <= |written|
    requires read(lines[0]) == Some(h) && HunkLeads(h, lines[1..], before, written, oldAt, newAt)
    requires e == EditOf(h, lines[1..])
    ensures Leads(read, lines, before, written, oldAt, newAt)
      <==> Leads(read, AfterBody(lines[1..]), before, written, e.oldStart + |e.oldLines|, e.newStart + |e.newLines|)
  {
  }

  lemma {:induction false} WritesImpliesLeads(read: Reader, lines: seq<string>, before: seq<string>, cursor: nat,
                                              after: seq<string>, hunks: nat, written: seq<string>)
    requires cursor <= |before| && after <= written
    requires Writes(read, lines, before, cursor, after, hunks, written)
    ensures Leads(read, lines, before, written, cursor, |after|)
    decreases |lines|
  {
    if lines == [] || IsFileHeader(lines[0]) {
      NoHunks(read, lines, before, cursor, after, hunks, written);
    } else {
      WritesUnfold(read, lines, before, cursor, after, hunks, written);
      var h := read(lines[0]).value;
      var end := HunkAt(h, lines[1..], before, cursor, after).value;
      HunkMeaning(h, lines[1..], before, cursor, after, written);
      HunkEnd(h, lines[1..], before, cursor, after);
      WritesImpliesLeads(read, end.rest, before, end.cursor, end.after, hunks + 1, written);
      LeadsAfter(read, lines, before, written, cursor, |after|, h, EditOf(h, lines[1..]));
    }
  }

  lemma {:induction false} LeadsImpliesWrites(read: Reader, lines: seq<string>, before: seq<string>, cursor: nat,
                                              after: seq<string>, hunks: nat, written: seq<string>)
    requires cursor <= |before| && after <= written
    requires Leads(read, lines, before, written, cursor, |after|)
    ensures Writes(read, lines, before, cursor, after, hunks, written)
    decreases |lines|
  {
    if lines == [] || IsFileHeader(lines[0]) {
      NoHunks(read, lines, before, cursor, after, hunks, written);
    } else {
      var end := LeadingHunk(read, lines, before, cursor, after, written);
      LeadsImpliesWrites(read, end.rest, before, end.cursor, end.after, hunks + 1, written);
      WritesUnfold(read, lines, before, cursor, after, hunks, written);
    }
  }

  /** Where hunks lead, the first one is accepted and the rest lead on. */
  lemma LeadingHunk(read: Reader, lines: seq<string>, before: seq<string>, cursor: nat, after: seq<string>,
                    written: seq<string>) returns (end: BodyEnd)
    requires lines != [] && !IsFileHeader(lines[0]) && cursor <= |before| && after <= written
    requires Leads(read, lines, before, written, cursor, |after|)
    ensures Hunk(read, lines, before, cursor, after) == Ok(end) && |end.rest| < |lines|
    ensures end.cursor <= |before| && end.after <= written
    ensures Leads(read, end.rest, before, written, end.cursor, |end.after|)
  {
    var h := read(lines[0]).value;
    HunkMeaning(h, lines[1..], before, cursor, after, written);
    end := HunkAt(h, lines[1..], before, cursor, after).value;
    HunkEnd(h, lines[1..], before, cursor, after);
    LeadsAfter(read, lines, before, written, cursor, |after|, h, EditOf(h, lines[1..]));
  }

  /**
   The interpreter accepts the hunks of one file and writes a text exactly when the hunks
   are well formed and lead from the old text to that text.
   */
  lemma HunksMeaning(read: Reader, lines: seq<string>, before: seq<string>, written: seq<string>)
    ensures Writes(read, lines, before, 0, [], 0, written) <==> Leads(read, lines, before, written, 0, 0)
  {
    if Writes(read, lines, before, 0, [], 0, written) {
      WritesImpliesLeads(read, lines, before, 0, [], 0, written);
    }
    if Leads(read, lines, before, written, 0, 0) {
      LeadsImpliesWrites(read, lines, before, 0, [], 0, written);
    }
  }
}
