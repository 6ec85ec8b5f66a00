/** Line splitting and joining, as `split("\n")` and `join("\n")` do it. */
module Text {

  const NewLine := '\n'

  /** Never empty: splitting the empty text gives one empty line. */
  function Split(s: string): (lines: seq<string>)
    ensures |lines| >= 1
  {
    if s == "" then [""]
    else
      var rest := Split(s[1..]);
      if s[0] == NewLine then [""] + rest
      else [[s[0]] + rest[0]] + rest[1..]
  }

  function Join(lines: seq<string>): string {
    if |lines| == 0 then ""
    else if |lines| == 1 then lines[0]
    else lines[0] + [NewLine] + Join(lines[1..])
  }

  predicate StartsWith(s: string, prefix: string) {
    prefix <= s
  }

  lemma StartsWithHead(s: string, prefix: string)
    requires prefix != ""
    ensures StartsWith(s, prefix) ==> s != "" && s[0] == prefix[0]
  {
  }

  predicate EndsWith(s: string, suffix: string) {
    |suffix| <= |s| && s[|s| - |suffix|..] == suffix
  }

  ghost predicate IsLine(s: string) {
    NewLine !in s
  }

  ghost predicate AreLines(lines: seq<string>) {
    forall k :: 0 <= k < |lines| ==> IsLine(lines[k])
  }

  lemma {:induction false} SplitGivesLines(s: string)
    ensures AreLines(Split(s))
  {
    if s != "" {
      SplitGivesLines(s[1..]);
    }
  }

  lemma {:induction false} JoinAfterSplit(s: string)
    ensures Join(Split(s)) == s
  {
    if s != "" {
      JoinAfterSplit(s[1..]);
      var rest := Split(s[1..]);
      if s[0] == NewLine {
        assert ([""] + rest)[1..] == rest;
        assert Join(Split(s)) == "" + [NewLine] + Join(rest);
      } else {
        assert Split(s)[1..] == rest[1..];
      }
      assert s == [s[0]] + s[1..];
    }
  }

  lemma {:induction false} SplitOneLine(s: string)
    requires IsLine(s)
    ensures Split(s) == [s]
  {
    if s != "" {
      SplitOneLine(s[1..]);
      assert [s[0]] + s[1..] == s;
    }
  }

  /** A line break always starts a new line, whatever surrounds it. */
  lemma {:induction false} SplitAtBreak(line: string, rest: string)
    requires IsLine(line)
    ensures Split(line + [NewLine] + rest) == [line] + Split(rest)
  {
    var s := line + [NewLine] + rest;
    if line == "" {
      assert s[1..] == rest;
    } else {
      SplitAtBreak(line[1..], rest);
      assert s[1..] == line[1..] + [NewLine] + rest;
      assert [line[0]] + line[1..] == line;
      assert ([line[1..]] + Split(rest))[1..] == Split(rest);
    }
  }

  lemma {:induction false} SplitAfterJoin(lines: seq<string>)
    requires |lines| >= 1 && AreLines(lines)
    ensures Split(Join(lines)) == lines
  {
    if |lines| == 1 {
      SplitOneLine(lines[0]);
      assert lines == [lines[0]];
    } else {
      SplitAfterJoin(lines[1..]);
      SplitAtBreak(lines[0], Join(lines[1..]));
      assert lines == [lines[0]] + lines[1..];
    }
  }

  /** A text ends with a line break exactly when its last line is empty and is not its only line. */
  lemma {:induction false} TrailingBreak(s: string)
    ensures EndsWith(s, [NewLine]) <==> |Split(s)| >= 2 && Split(s)[|Split(s)| - 1] == ""
  {
    if |s| >= 2 {
      TrailingBreak(s[1..]);
      assert s[1..][|s| - 2..] == s[|s| - 1..];
      if |Split(s[1..])| == 1 {
        assert Split(s[1..])[0] == s[1..] by { JoinAfterSplit(s[1..]); }
      }
    }
  }

  /** The characters `trim` removes. */
  predicate IsSpace(c: char) {
    || '\t' <= c <= '\r' || c == ' ' || c == '\U{A0}' || c == '\U{1680}' || '\U{2000}' <= c <= '\U{200A}'
    || c == '\U{2028}' || c == '\U{2029}' || c == '\U{202F}' || c == '\U{205F}' || c == '\U{3000}' || c == '\U{FEFF}'
  }

  predicate IsBlank(s: string) {
    forall k :: 0 <= k < |s| ==> IsSpace(s[k])
  }

  function Trim(s: string): (t: string)
    ensures |t| <= |s|
  {
    if s == "" then ""
    else if IsSpace(s[0]) then Trim(s[1..])
    else if IsSpace(s[|s| - 1]) then Trim(s[..|s| - 1])
    else s
  }

  /** Everything outside `s[from..to]` is spaces, and it neither starts nor ends with one. */
  ghost predicate IsTrimmed(s: string, from: nat, to: nat) {
    && from <= to <= |s| && IsBlank(s[..from]) && IsBlank(s[to..])
    && (from < to ==> !IsSpace(s[from]) && !IsSpace(s[to - 1]))
  }

  lemma SpaceBefore(s: string, from: nat, to: nat)
    requires s != "" && IsSpace(s[0]) && IsTrimmed(s[1..], from, to)
    ensures IsTrimmed(s, from + 1, to + 1) && s[from + 1..to + 1] == s[1..][from..to]
  {
    Shifted(s, 0, from);
    Shifted(s, from, to);
    Shifted(s, to, |s| - 1);
    assert s[..from + 1] == [s[0]] + s[1..from + 1];
    assert s[1..][..from] == s[1..][0..from] && s[1..][to..] == s[1..][to..|s| - 1] && s[to + 1..] == s[to + 1..|s|];
  }

  lemma Shifted(s: string, from: nat, to: nat)
    requires from <= to < |s|
    ensures s[from + 1..to + 1] == s[1..][from..to]
  {
    var a, b := s[from + 1..to + 1], s[1..][from..to];
    forall k | 0 <= k < to - from ensures a[k] == b[k] {
      assert b[k] == s[1..][from + k] == s[1 + (from + k)];
      assert a[k] == s[from + 1 + k];
    }
    assert |a| == |b|;
  }

  lemma SpaceAfter(s: string, from: nat, to: nat)
    requires s != "" && IsSpace(s[|s| - 1]) && IsTrimmed(s[..|s| - 1], from, to)
    ensures IsTrimmed(s, from, to) && s[from..to] == s[..|s| - 1][from..to]
  {
    var n := |s| - 1;
    assert s[..from] == s[..n][..from];
    assert forall k :: to <= k < n ==> s[k] == s[..n][to..][k - to];
  }

  /** Trimming takes the spaces from both ends and nothing else. */
  lemma {:induction false} TrimMeans(s: string) returns (from: nat, to: nat)
    ensures IsTrimmed(s, from, to) && Trim(s) == s[from..to]
  {
    if s == "" {
      from, to := 0, 0;
    } else if IsSpace(s[0]) {
      from, to := TrimMeans(s[1..]);
      SpaceBefore(s, from, to);
      from, to := from + 1, to + 1;
    } else if IsSpace(s[|s| - 1]) {
      from, to := TrimMeans(s[..|s| - 1]);
      SpaceAfter(s, from, to);
    } else {
      from, to := 0, |s|;
    }
  }

  function Repeat(c: char, n: nat): (s: string)
    ensures |s| == n && forall k :: 0 <= k < n ==> s[k] == c
  {
    seq(n, _ => c)
  }
}
