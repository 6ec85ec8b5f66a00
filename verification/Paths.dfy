/**
 Repository paths, evidence references and the other texts of a fixed pattern. The path
 check is written three times in the program, in three ways; they accept the same texts.
 */
module Paths {
  import opened Text

  /** `split("/")` */
  function Segments(s: string): (segments: seq<string>)
    ensures |segments| >= 1
  {
    if s == "" then [""]
    else
      var rest := Segments(s[1..]);
      if s[0] == '/' then [""] + rest else [[s[0]] + rest[0]] + rest[1..]
  }

  function JoinSegments(segments: seq<string>): string
    requires segments != []
  {
    if |segments| == 1 then segments[0] else segments[0] + "/" + JoinSegments(segments[1..])
  }

  /** The segments are the text between the slashes. */
  lemma {:induction false} SegmentsJoin(s: string)
    ensures JoinSegments(Segments(s)) == s && forall segment :: segment in Segments(s) ==> '/' !in segment
  {
    if s != "" {
      SegmentsJoin(s[1..]);
      var rest := Segments(s[1..]);
      assert s == [s[0]] + s[1..];
      if s[0] == '/' {
        assert Segments(s)[1..] == rest;
      } else {
        assert Segments(s)[1..] == rest[1..] && Segments(s)[0] == [s[0]] + rest[0];
        forall segment | segment in Segments(s) ensures '/' !in segment {
          assert segment == [s[0]] + rest[0] || segment in rest[1..];
        }
      }
    }
  }

  predicate IsPathChar(c: char) {
    'a' <= c <= 'z' || 'A' <= c <= 'Z' || '0' <= c <= '9' || c in "_./-"
  }

  predicate ProperSegments(s: string) {
    forall segment :: segment in Segments(s) ==> segment != "" && segment != "." && segment != ".."
  }

  /** The check of grants and runner results. */
  predicate ValidPath(s: string) {
    && 2 <= |s| <= 240
    && !StartsWith(s, "/") && '\\' !in s
    && (forall k :: 0 <= k < |s| ==> IsPathChar(s[k]))
    && ProperSegments(s)
  }

  /** The check of the journal, the executor and the verifier. */
  predicate FilePath(s: string) {
    && 2 <= |s| <= 240
    && (forall k :: 0 <= k < |s| ==> IsPathChar(s[k]))
    && ProperSegments(s)
  }

  /** An absolute path has an empty first segment. */
  lemma AbsoluteIsImproper(s: string)
    requires s != "" && s[0] == '/'
    ensures !ProperSegments(s)
  {
    assert Segments(s)[0] == "" && Segments(s)[0] in Segments(s);
  }

  lemma PathChecksAgree(s: string)
    ensures ValidPath(s) <==> FilePath(s)
  {
    if s != "" && s[0] == '/' {
      AbsoluteIsImproper(s);
    }
  }

  predicate AtOrBelow(path: string, scope: string) {
    path == scope || StartsWith(path, scope + "/")
  }

  /** The path is one of the scopes or lies below one. */
  predicate InScope(path: string, scopes: seq<string>) {
    exists k :: 0 <= k < |scopes| && AtOrBelow(path, scopes[k])
  }

  predicate IsHexDigit(c: char) {
    '0' <= c <= '9' || 'a' <= c <= 'f'
  }

  /** `^sha256:[a-f0-9]{64}$` */
  predicate IsDigest(s: string) {
    |s| == 71 && s[..7] == "sha256:" && forall k :: 7 <= k < 71 ==> IsHexDigit(s[k])
  }

  /** `^[a-f0-9]{40}$` */
  predicate IsSha(s: string) {
    |s| == 40 && forall k :: 0 <= k < 40 ==> IsHexDigit(s[k])
  }

  predicate IsReferenceChar(c: char) {
    'a' <= c <= 'z' || 'A' <= c <= 'Z' || '0' <= c <= '9' || c in "/:._#@-"
  }

  /** `^(?:github:|artifact:|canonical:)[a-zA-Z0-9/:._#@-]{4,300}$` */
  predicate IsReference(s: string) {
    IsReferenceAfter(s, "github:") || IsReferenceAfter(s, "artifact:") || IsReferenceAfter(s, "canonical:")
  }

  predicate IsReferenceAfter(s: string, prefix: string) {
    && StartsWith(s, prefix) && 4 <= |s| - |prefix| <= 300
    && forall k :: |prefix| <= k < |s| ==> IsReferenceChar(s[k])
  }

  predicate IsNameChar(c: char) {
    'a' <= c <= 'z' || 'A' <= c <= 'Z' || '0' <= c <= '9' || c in "_.-"
  }

  predicate IsName(s: string) {
    s != "" && forall k :: 0 <= k < |s| ==> IsNameChar(s[k])
  }

  /** `^[A-Za-z0-9_.-]+\/[A-Za-z0-9_.-]+$` */
  predicate IsRepository(s: string) {
    var parts := Segments(s);
    |parts| == 2 && IsName(parts[0]) && IsName(parts[1])
  }

  predicate IsIdChar(c: char) {
    'a' <= c <= 'z' || '0' <= c <= '9' || c == '-'
  }

  /** `^[a-z][a-z0-9-]{1,79}$` */
  predicate IsId(s: string) {
    2 <= |s| <= 80 && 'a' <= s[0] <= 'z' && forall k :: 1 <= k < |s| ==> IsIdChar(s[k])
  }

  /** `^project:[a-z][a-z0-9-]+$` */
  predicate IsProjectId(s: string) {
    && StartsWith(s, "project:") && |s| >= 10 && 'a' <= s[8] <= 'z'
    && forall k :: 9 <= k < |s| ==> IsIdChar(s[k])
  }

  lemma {:induction false} PlainSegment(s: string)
    requires '/' !in s
    ensures Segments(s) == [s]
  {
    if s != "" {
      PlainSegment(s[1..]);
      assert [s[0]] + s[1..] == s;
    }
  }

  lemma {:induction false} SegmentsAt(a: string, b: string)
    requires '/' !in a
    ensures Segments(a + "/" + b) == [a] + Segments(b)
  {
    var s := a + "/" + b;
    if a == "" {
      assert s[1..] == b;
    } else {
      SegmentsAt(a[1..], b);
      assert s[1..] == a[1..] + "/" + b;
      assert [a[0]] + a[1..] == a;
    }
  }

  /** A slash always starts a new segment. */
  lemma {:induction false} SegmentsAppend(a: string, b: string)
    ensures Segments(a + "/" + b) == Segments(a) + Segments(b)
  {
    if a == "" {
      SegmentsOf('/', b);
      assert a + "/" + b == ['/'] + b;
    } else {
      SegmentsAppend(a[1..], b);
      assert a == [a[0]] + a[1..];
      assert a + "/" + b == [a[0]] + (a[1..] + "/" + b);
      SegmentsOf(a[0], a[1..] + "/" + b);
      SegmentsOf(a[0], a[1..]);
      PutInFront(a[0], Segments(a[1..]), Segments(b));
    }
  }

  lemma PutInFront(c: char, s: seq<string>, t: seq<string>)
    requires s != []
    ensures [[c] + (s + t)[0]] + (s + t)[1..] == ([[c] + s[0]] + s[1..]) + t
    ensures [""] + (s + t) == ([""] + s) + t
  {
    assert (s + t)[1..] == s[1..] + t;
  }

  lemma ConsPrefix<T>(a: T, s: seq<T>, b: T, t: seq<T>)
    ensures [a] + s <= [b] + t <==> a == b && s <= t
  {
    if [a] + s <= [b] + t {
      assert ([a] + s)[0] == ([b] + t)[0];
      forall k | 0 <= k < |s| ensures s[k] == t[k] {
        assert ([a] + s)[k + 1] == ([b] + t)[k + 1];
      }
    }
  }

  lemma BelowCons(a: char, path: string, b: char, scope: string)
    ensures AtOrBelow([a] + path, [b] + scope) <==> a == b && AtOrBelow(path, scope)
  {
    assert ([b] + scope) + "/" == [b] + (scope + "/");
    ConsPrefix(b, scope + "/", a, path);
    if [a] + path == [b] + scope {
      assert ([a] + path)[1..] == path && ([b] + scope)[1..] == scope;
    }
  }

  lemma SegmentsOf(c: char, s: string)
    ensures Segments([c] + s) == if c == '/' then [""] + Segments(s) else [[c] + Segments(s)[0]] + Segments(s)[1..]
  {
    assert ([c] + s)[1..] == s;
  }

  lemma SameCons(c: char, path: string, scope: string)
    ensures Segments([c] + scope) <= Segments([c] + path) <==> Segments(scope) <= Segments(path)
  {
    var p, q := Segments(path), Segments(scope);
    SegmentsOf(c, path);
    SegmentsOf(c, scope);
    if c == '/' {
      ConsPrefix("", q, "", p);
    } else {
      assert p == [p[0]] + p[1..] && q == [q[0]] + q[1..];
      ConsPrefix(q[0], q[1..], p[0], p[1..]);
      ConsPrefix([c] + q[0], q[1..], [c] + p[0], p[1..]);
      assert ([c] + q[0])[1..] == q[0] && ([c] + p[0])[1..] == p[0];
    }
  }

  lemma OtherCons(a: char, path: string, b: char, scope: string)
    requires a != b
    ensures !(Segments([b] + scope) <= Segments([a] + path))
  {
    SegmentsOf(a, path);
    SegmentsOf(b, scope);
    var first, second := Segments([a] + path)[0], Segments([b] + scope)[0];
    assert a != '/' ==> first[0] == a;
    assert b != '/' ==> second[0] == b;
    assert first != second;
  }

  /** A path lies at or below another exactly when it starts with its segments. */
  lemma {:induction false} BelowExactly(path: string, scope: string)
    ensures AtOrBelow(path, scope) <==> Segments(scope) <= Segments(path)
    decreases |scope|
  {
    if scope == "" {
      if path != "" && path[0] != '/' {
        assert Segments(path)[0] != "";
      }
    } else if path == "" {
      assert Segments(scope)[0] != "" || |Segments(scope)| > 1;
    } else {
      BelowExactly(path[1..], scope[1..]);
      assert path == [path[0]] + path[1..] && scope == [scope[0]] + scope[1..];
      BelowCons(path[0], path[1..], scope[0], scope[1..]);
      if path[0] == scope[0] {
        SameCons(path[0], path[1..], scope[1..]);
      } else {
        OtherCons(path[0], path[1..], scope[0], scope[1..]);
      }
    }
  }

  lemma PlainRepository(owner: string, name: string)
    requires IsName(owner) && IsName(name)
    ensures IsRepository(owner + "/" + name)
  {
    assert '/' !in owner && '/' !in name;
    PlainSegment(name);
    SegmentsAt(owner, name);
    assert Segments(owner + "/" + name) == [owner, name];
  }

  lemma PlainPath(path: string)
    requires 3 <= |path| <= 240 || (|path| == 2 && path[0] != '.')
    requires forall k :: 0 <= k < |path| ==> IsPathChar(path[k]) && path[k] != '/'
    ensures FilePath(path)
  {
    PlainSegment(path);
  }
}
