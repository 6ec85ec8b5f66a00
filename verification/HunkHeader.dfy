/**
 The hunk header line `@@ -a,b +c,d @@ tail` of a unified diff. A line that the reader
 accepts is exactly the rendering of one header, so swapping the two ranges of an
 accepted line gives an accepted line again.
 */
module HunkHeader {
  import opened Wrappers
  import opened Text
  import opened Numbers

  /** The line terminators `.` does not match. */
  predicate IsLineTerminator(c: char) {
    c == '\n' || c == '\r' || c == '\U{2028}' || c == '\U{2029}'
  }

  /** One side of a header, as written: the count after the comma may be absent. */
  datatype Range = Range(start: string, count: Option<string>) {
    predicate Valid() {
      IsNumeral(start) && (count.Some? ==> IsNumeral(count.value))
    }

    function Start(): nat {
      Value(start)
    }

    /** An absent count means one line. */
    function Count(): nat {
      if count.None? then 1 else Value(count.value)
    }

    function Render(): string {
      start + if count.None? then "" else "," + count.value
    }
  }

  datatype Header = Header(oldSide: Range, newSide: Range, tail: string) {
    predicate Valid() {
      oldSide.Valid() && newSide.Valid() && forall k :: 0 <= k < |tail| ==> !IsLineTerminator(tail[k])
    }

    function Render(): string {
      "@@ -" + oldSide.Render() + " +" + newSide.Render() + " @@" + tail
    }

    function Swapped(): Header {
      Header(newSide, oldSide, tail)
    }
  }

  /** `(\d+)(?:,(\d+))?` at the front of a text, with the unread rest. */
  function ParseRange(s: string): Option<(Range, string)> {
    var (start, rest) := SpanDigits(s);
    if start == "" then None
    else if rest != "" && rest[0] == ',' && SpanDigits(rest[1..]).0 != "" then
      var (count, rest') := SpanDigits(rest[1..]);
      Some((Range(start, Some(count)), rest'))
    else
      Some((Range(start, None), rest))
  }

  /** `^@@ -(\d+)(?:,(\d+))? \+(\d+)(?:,(\d+))? @@.*$` */
  function Parse(line: string): Option<Header> {
    if !StartsWith(line, "@@ -") then None
    else
      match ParseRange(line[4..])
      case None => None
      case Some((oldRange, rest)) => ParseNewSide(oldRange, rest)
  }

  /** The header line from the end of its first range on. */
  function ParseNewSide(oldRange: Range, rest: string): Option<Header> {
    if !StartsWith(rest, " +") then None
    else
      match ParseRange(rest[2..])
      case None => None
      case Some((newRange, rest')) => ParseTail(oldRange, newRange, rest')
  }

  function ParseTail(oldRange: Range, newRange: Range, rest: string): Option<Header> {
    if !StartsWith(rest, " @@") || exists k :: 3 <= k < |rest| && IsLineTerminator(rest[k]) then None
    else Some(Header(oldRange, newRange, rest[3..]))
  }

  lemma ParseRangeOfRender(r: Range, rest: string)
    requires r.Valid()
    requires rest != "" && !IsDigit(rest[0]) && rest[0] != ','
    ensures ParseRange(r.Render() + rest) == Some((r, rest))
  {
    match r.count {
      case None =>
        assert r.Render() + rest == r.start + rest;
        SpanDigitsOfNumeral(r.start, rest);
      case Some(count) =>
        var after := "," + (count + rest);
        assert r.Render() + rest == r.start + after;
        SpanDigitsOfNumeral(r.start, after);
        assert after[1..] == count + rest;
        SpanDigitsOfNumeral(count, rest);
    }
  }

  lemma RenderOfParseRange(s: string)
    ensures ParseRange(s).Some? ==>
              ParseRange(s).value.0.Valid() && s == ParseRange(s).value.0.Render() + ParseRange(s).value.1
  {
    var (start, rest) := SpanDigits(s);
    SpanMeaning(s);
    if start != "" {
      if rest != "" && rest[0] == ',' && SpanDigits(rest[1..]).0 != "" {
        var (count, rest') := SpanDigits(rest[1..]);
        SpanMeaning(rest[1..]);
        assert rest == "," + rest[1..];
        assert s == start + ("," + (count + rest'));
        assert s == (start + ("," + count)) + rest';
      } else {
        assert start + "" == start;
      }
    }
  }

  lemma ParseTailMeaning(oldRange: Range, newRange: Range, tail: string)
    requires forall k :: 0 <= k < |tail| ==> !IsLineTerminator(tail[k])
    ensures ParseTail(oldRange, newRange, " @@" + tail) == Some(Header(oldRange, newRange, tail))
  {
    var rest := " @@" + tail;
    assert rest[3..] == tail;
    assert forall k :: 3 <= k < |rest| ==> rest[k] == tail[k - 3];
  }

  lemma ParseNewSideOfRender(h: Header)
    requires h.Valid()
    ensures ParseNewSide(h.oldSide, " +" + (h.newSide.Render() + (" @@" + h.tail))) == Some(h)
  {
    var rest := " +" + (h.newSide.Render() + (" @@" + h.tail));
    assert rest[2..] == h.newSide.Render() + (" @@" + h.tail);
    ParseRangeOfRender(h.newSide, " @@" + h.tail);
    ParseTailMeaning(h.oldSide, h.newSide, h.tail);
  }

  /** Reading back a rendered header gives that header. */
  lemma ParseOfRender(h: Header)
    requires h.Valid()
    ensures Parse(h.Render()) == Some(h)
  {
    var rest := " +" + (h.newSide.Render() + (" @@" + h.tail));
    RenderParts(h);
    assert h.Render()[4..] == h.oldSide.Render() + rest;
    ParseRangeOfRender(h.oldSide, rest);
    ParseNewSideOfRender(h);
  }

  lemma RenderParts(h: Header)
    ensures h.Render() == "@@ -" + (h.oldSide.Render() + (" +" + (h.newSide.Render() + (" @@" + h.tail))))
  {
  }

  lemma RenderOfParseTail(oldRange: Range, newRange: Range, rest: string)
    requires ParseTail(oldRange, newRange, rest).Some?
    ensures var h := ParseTail(oldRange, newRange, rest).value;
            && h.oldSide == oldRange && h.newSide == newRange && rest == " @@" + h.tail
            && forall k :: 0 <= k < |h.tail| ==> !IsLineTerminator(h.tail[k])
  {
    var tail := rest[3..];
    assert forall k :: 0 <= k < |tail| ==> tail[k] == rest[k + 3];
  }

  lemma RenderOfParseNewSide(oldRange: Range, rest: string)
    requires ParseNewSide(oldRange, rest).Some?
    ensures var h := ParseNewSide(oldRange, rest).value;
            && h.oldSide == oldRange && h.newSide.Valid()
            && rest == " +" + (h.newSide.Render() + (" @@" + h.tail))
            && forall k :: 0 <= k < |h.tail| ==> !IsLineTerminator(h.tail[k])
  {
    RenderOfParseRange(rest[2..]);
    var (newRange, rest') := ParseRange(rest[2..]).value;
    RenderOfParseTail(oldRange, newRange, rest');
    assert rest == " +" + rest[2..];
  }

  /** Only renderings of headers are accepted. */
  lemma RenderOfParse(line: string)
    ensures Parse(line).Some? ==> Parse(line).value.Valid() && Parse(line).value.Render() == line
  {
    if Parse(line).Some? {
      RenderOfParseRange(line[4..]);
      var (oldRange, rest) := ParseRange(line[4..]).value;
      RenderOfParseNewSide(oldRange, rest);
      assert line == "@@ -" + line[4..];
      RenderParts(Parse(line).value);
    }
  }

  /** A range in numbers: the line it starts at, and how many lines it takes if that is said; with leading zeros. */
  datatype Side = Side(startZeros: nat, start: nat, countZeros: nat, count: Option<nat>) {
    function Text(): string {
      Numeral(startZeros, start) + if count.None? then "" else "," + Numeral(countZeros, count.value)
    }
  }

  lemma SideIsRange(side: Side) returns (r: Range)
    ensures r.Valid() && r.Render() == side.Text()
    ensures r.Start() == side.start && r.Count() == if side.count.None? then 1 else side.count.value
  {
    ValueOfNumeral(side.startZeros, side.start);
    if side.count.Some? {
      ValueOfNumeral(side.countZeros, side.count.value);
    }
    r := Range(Numeral(side.startZeros, side.start),
               if side.count.None? then None else Some(Numeral(side.countZeros, side.count.value)));
  }

  /** The numbers of a header are read in decimal; a range without a count takes one line. */
  lemma NumbersAreRead(before: Side, after: Side, tail: string)
    requires forall k :: 0 <= k < |tail| ==> !IsLineTerminator(tail[k])
    ensures var h := Parse("@@ -" + before.Text() + " +" + after.Text() + " @@" + tail);
            && h.Some? && h.value.tail == tail
            && h.value.oldSide.Start() == before.start && h.value.newSide.Start() == after.start
            && (h.value.oldSide.Count() == if before.count.None? then 1 else before.count.value)
            && (h.value.newSide.Count() == if after.count.None? then 1 else after.count.value)
  {
    var oldSide := SideIsRange(before);
    var newSide := SideIsRange(after);
    ParseOfRender(Header(oldSide, newSide, tail));
  }

  /** The header line of the reverse hunk; any other line is left alone. */
  function SwapLine(line: string): string {
    match Parse(line)
    case None => line
    case Some(h) => h.Swapped().Render()
  }

  /** Swapping the ranges of an accepted line gives an accepted line, with the ranges swapped. */
  lemma ParseOfSwap(line: string)
    ensures Parse(line).None? ==> Parse(SwapLine(line)).None?
    ensures Parse(line).Some? ==> Parse(SwapLine(line)) == Some(Parse(line).value.Swapped())
  {
    RenderOfParse(line);
    if Parse(line).Some? {
      ParseOfRender(Parse(line).value.Swapped());
    }
  }

  lemma SwapTwice(line: string)
    ensures SwapLine(SwapLine(line)) == line
  {
    ParseOfSwap(line);
    RenderOfParse(line);
  }

  lemma RangeHasNoBreak(r: Range)
    requires r.Valid()
    ensures IsLine(r.Render())
  {
    assert IsLine(r.start);
  }

  lemma RenderIsLine(h: Header)
    requires h.Valid()
    ensures IsLine(h.Render()) && StartsWith(h.Render(), "@@ ")
  {
    RangeHasNoBreak(h.oldSide);
    RangeHasNoBreak(h.newSide);
    assert h.Render()[..3] == "@@ ";
  }

  lemma SwapKeepsShape(line: string)
    ensures IsLine(line) ==> IsLine(SwapLine(line))
    ensures StartsWith(line, "@@ ") ==> StartsWith(SwapLine(line), "@@ ")
    ensures Parse(line).Some? ==> StartsWith(line, "@@ ")
  {
    RenderOfParse(line);
    var parsed := Parse(line);
    if parsed.Some? {
      RenderIsLine(parsed.value);
      RenderIsLine(parsed.value.Swapped());
    }
  }
}
