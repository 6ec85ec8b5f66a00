/**
 The regular expressions of the program, as such, and that the checks of the model accept
 exactly the texts they match.
 */
module Patterns {
  import opened Wrappers
  import opened Numbers
  import opened Paths
  import opened Execution
  import opened Text
  import Base64
  import Inspection
  import PatchReplay
  import opened Workflow
  import opened Readiness
  import opened Sets
  import Gateway
  import Policy

  /** A text as written, or so many characters of a class, at most so many if that is said. */
  datatype Part = Literally(text: string) | Of(among: char -> bool, least: nat, most: Option<nat>) {
    ghost predicate Fits(s: string) {
      match this
      case Literally(text) => s == text
      case Of(among, least, most) => least <= |s| && (most.Some? ==> |s| <= most.value) && forall k :: 0 <= k < |s| ==> among(s[k])
    }

    /** The only length of the texts it fits. */
    ghost predicate Takes(n: nat) {
      match this
      case Literally(text) => |text| == n
      case Of(_, least, most) => least == n && most == Some(n)
    }
  }

  /** The whole text is made of the parts, one after the other. */
  ghost predicate Matches(parts: seq<Part>, s: string) {
    if parts == [] then s == ""
    else exists n :: 0 <= n <= |s| && parts[0].Fits(s[..n]) && Matches(parts[1..], s[n..])
  }

  lemma LastPart(part: Part, s: string)
    ensures Matches([part], s) <==> part.Fits(s)
  {
    assert [part][1..] == [];
    assert s[..|s|] == s;
    if Matches([part], s) {
      var n :| 0 <= n <= |s| && part.Fits(s[..n]) && Matches([part][1..], s[n..]);
      assert n == |s|;
    }
    if part.Fits(s) {
      assert part.Fits(s[..|s|]) && Matches([part][1..], s[|s|..]);
    }
  }

  /** A part of one length takes that much of the text. */
  lemma FirstPart(part: Part, n: nat, rest: seq<Part>, s: string)
    requires part.Takes(n)
    ensures Matches([part] + rest, s) <==> n <= |s| && part.Fits(s[..n]) && Matches(rest, s[n..])
  {
    var parts := [part] + rest;
    assert parts[0] == part && parts[1..] == rest;
    if Matches(parts, s) {
      var k :| 0 <= k <= |s| && parts[0].Fits(s[..k]) && Matches(parts[1..], s[k..]);
      assert k == n;
    }
  }

  // ---------------------------------------------------------------- the expressions

  const HEX: char -> bool := c => c in "0123456789abcdef"
  const DIGIT: char -> bool := c => c in "0123456789"
  const LOWER: char -> bool := c => 'a' <= c <= 'z'
  const ID: char -> bool := c => 'a' <= c <= 'z' || '0' <= c <= '9' || c == '-'
  const NAME: char -> bool := c => 'A' <= c <= 'Z' || 'a' <= c <= 'z' || '0' <= c <= '9' || c == '_' || c == '.' || c == '-'
  const REFERENCE: char -> bool :=
    c => 'a' <= c <= 'z' || 'A' <= c <= 'Z' || '0' <= c <= '9' || c == '/' || c == ':' || c == '.' || c == '_' || c == '#' || c == '@' || c == '-'
  const BASE64: char -> bool := c => 'A' <= c <= 'Z' || 'a' <= c <= 'z' || '0' <= c <= '9' || c == '+' || c == '/'
  const PATH: char -> bool := c => 'a' <= c <= 'z' || 'A' <= c <= 'Z' || '0' <= c <= '9' || c == '_' || c == '.' || c == '/' || c == '-'

  const NUMERAL: Part := Of(DIGIT, 1, None)
  const WORD: Part := Of(NAME, 1, None)

  const SHA: seq<Part> := [Of(HEX, 40, Some(40))]
  const NONCE: seq<Part> := [Of(HEX, 32, Some(64))]
  const DIGEST: seq<Part> := [Literally("sha256:")] + [Of(HEX, 64, Some(64))]
  const LOWERCASE_ID: seq<Part> := [Of(LOWER, 1, Some(1))] + [Of(ID, 1, Some(79))]
  const PROJECT_ID: seq<Part> := [Literally("project:")] + ([Of(LOWER, 1, Some(1))] + [Of(ID, 1, None)])
  const VERSION: seq<Part> := [NUMERAL] + ([Literally(".")] + ([NUMERAL] + ([Literally(".")] + [NUMERAL])))
  const REPOSITORY: seq<Part> := [WORD] + ([Literally("/")] + [WORD])
  const SIGNATURE: seq<Part> := [Of(BASE64, 86, Some(86))] + [Literally("==")]

  // ---------------------------------------------------------------- one class, one length

  lemma HexDigits(c: char)
    ensures IsHexDigit(c) <==> HEX(c)
  {
  }

  lemma Digits(c: char)
    ensures IsDigit(c) <==> DIGIT(c)
  {
  }

  /** `^[a-f0-9]{40}$` */
  lemma ShasMatch(s: string)
    ensures IsSha(s) <==> Matches(SHA, s)
  {
    LastPart(Of(HEX, 40, Some(40)), s);
    forall k | 0 <= k < |s| ensures IsHexDigit(s[k]) <==> HEX(s[k]) {
      HexDigits(s[k]);
    }
  }

  /** `^[a-f0-9]{32,64}$` */
  lemma NoncesMatch(s: string)
    ensures Gateway.IsNonce(s) <==> Matches(NONCE, s)
  {
    LastPart(Of(HEX, 32, Some(64)), s);
    forall k | 0 <= k < |s| ensures IsHexDigit(s[k]) <==> HEX(s[k]) {
      HexDigits(s[k]);
    }
  }

  /** `^sha256:[a-f0-9]{64}$` */
  lemma DigestsMatch(s: string)
    ensures IsDigest(s) <==> Matches(DIGEST, s)
  {
    FirstPart(Literally("sha256:"), 7, [Of(HEX, 64, Some(64))], s);
    if |s| >= 7 {
      var rest := s[7..];
      LastPart(Of(HEX, 64, Some(64)), rest);
      forall k | 0 <= k < |rest| ensures IsHexDigit(s[7 + k]) <==> HEX(rest[k]) {
        HexDigits(rest[k]);
      }
    }
  }

  // ---------------------------------------------------------------- parts of one length first

  /** `^[a-z][a-z0-9-]{1,79}$` */
  lemma IdsMatch(s: string)
    ensures IsId(s) <==> Matches(LOWERCASE_ID, s)
  {
    FirstPart(Of(LOWER, 1, Some(1)), 1, [Of(ID, 1, Some(79))], s);
    if |s| >= 1 {
      LastPart(Of(ID, 1, Some(79)), s[1..]);
      assert forall k :: 1 <= k < |s| ==> s[k] == s[1..][k - 1];
    }
  }

  /** `^project:[a-z][a-z0-9-]+$` */
  lemma ProjectIdsMatch(s: string)
    ensures IsProjectId(s) <==> Matches(PROJECT_ID, s)
  {
    FirstPart(Literally("project:"), 8, [Of(LOWER, 1, Some(1))] + [Of(ID, 1, None)], s);
    if |s| >= 9 {
      FirstPart(Of(LOWER, 1, Some(1)), 1, [Of(ID, 1, None)], s[8..]);
      LastPart(Of(ID, 1, None), s[8..][1..]);
      assert forall k :: 9 <= k < |s| ==> s[k] == s[8..][1..][k - 9];
    } else if |s| == 8 {
      FirstPart(Of(LOWER, 1, Some(1)), 1, [Of(ID, 1, None)], s[8..]);
    }
  }

  lemma ReferencesAfterMatch(s: string, prefix: string)
    ensures IsReferenceAfter(s, prefix) <==> Matches([Literally(prefix)] + [Of(REFERENCE, 4, Some(300))], s)
  {
    FirstPart(Literally(prefix), |prefix|, [Of(REFERENCE, 4, Some(300))], s);
    if |s| >= |prefix| {
      LastPart(Of(REFERENCE, 4, Some(300)), s[|prefix|..]);
      assert forall k :: |prefix| <= k < |s| ==> s[k] == s[|prefix|..][k - |prefix|];
    }
  }

  /** One of three prefixes, then 4 to 300 characters. */
  ghost predicate MatchesReference(s: string) {
    || Matches([Literally("github:")] + [Of(REFERENCE, 4, Some(300))], s)
    || Matches([Literally("artifact:")] + [Of(REFERENCE, 4, Some(300))], s)
    || Matches([Literally("canonical:")] + [Of(REFERENCE, 4, Some(300))], s)
  }

  /** `^(?:github:|artifact:|canonical:)[a-zA-Z0-9/:._#@-]{4,300}$` */
  lemma ReferencesMatch(s: string)
    ensures IsReference(s) <==> MatchesReference(s)
  {
    ReferencesAfterMatch(s, "github:");
    ReferencesAfterMatch(s, "artifact:");
    ReferencesAfterMatch(s, "canonical:");
  }

  /** `^[A-Za-z0-9+/]{86}==$` */
  lemma SignaturesMatch(s: string)
    ensures Base64.IsSignature(s) <==> Matches(SIGNATURE, s)
  {
    FirstPart(Of(BASE64, 86, Some(86)), 86, [Literally("==")], s);
    if |s| >= 86 {
      LastPart(Literally("=="), s[86..]);
    }
  }

  /** `^[a-zA-Z0-9_./-]+$`, from 2 to 240 characters, none of whose segments is empty or a dot segment. */
  lemma PathsMatch(s: string)
    ensures FilePath(s) <==>
      Matches([Of(PATH, 2, Some(240))], s) && "" !in Segments(s) && "." !in Segments(s) && ".." !in Segments(s)
  {
    LastPart(Of(PATH, 2, Some(240)), s);
  }

  /** Zeros stand for digits, everything else for itself. */
  ghost predicate IsLike(s: string, form: string) {
    |s| == |form| && forall k :: 0 <= k < |s| ==> if form[k] == '0' then DIGIT(s[k]) else s[k] == form[k]
  }

  /** `^\d{4}-\d\d-\d\dT\d\d:\d\d:\d\d(?:\.\d{3})?Z$` */
  lemma TimestampsMatch(s: string)
    ensures Gateway.IsTimestamp(s) <==> IsLike(s, "0000-00-00T00:00:00Z") || IsLike(s, "0000-00-00T00:00:00.000Z")
  {
    forall k | 0 <= k < |s| ensures IsDigit(s[k]) <==> DIGIT(s[k]) {
      Digits(s[k]);
    }
    if |s| == 20 {
      ShortTime(s);
    } else if |s| == 24 {
      LongTime(s);
    }
  }

  lemma ShortTime(s: string)
    requires |s| == 20 && forall k :: 0 <= k < |s| ==> (IsDigit(s[k]) <==> DIGIT(s[k]))
    ensures Gateway.IsTimestamp(s) <==> IsLike(s, "0000-00-00T00:00:00Z")
  {
  }

  lemma LongTime(s: string)
    requires |s| == 24 && forall k :: 0 <= k < |s| ==> (IsDigit(s[k]) <==> DIGIT(s[k]))
    ensures Gateway.IsTimestamp(s) <==> IsLike(s, "0000-00-00T00:00:00.000Z")
  {
  }

  // ---------------------------------------------------------------- parts of any length

  lemma Part1(part: Part, rest: seq<Part>, a: string, b: string)
    requires part.Fits(a) && Matches(rest, b)
    ensures Matches([part] + rest, a + b)
  {
    var s := a + b;
    assert ([part] + rest)[1..] == rest && s[..|a|] == a && s[|a|..] == b;
  }

  lemma Split1(part: Part, rest: seq<Part>, s: string) returns (a: string, b: string)
    requires Matches([part] + rest, s)
    ensures s == a + b && part.Fits(a) && Matches(rest, b)
  {
    var parts := [part] + rest;
    assert parts[0] == part && parts[1..] == rest;
    var n :| 0 <= n <= |s| && parts[0].Fits(s[..n]) && Matches(parts[1..], s[n..]);
    a, b := s[..n], s[n..];
  }

  lemma NumeralsMatch(s: string)
    ensures NUMERAL.Fits(s) <==> IsNumeral(s)
  {
    forall k | 0 <= k < |s| ensures IsDigit(s[k]) <==> DIGIT(s[k]) {
      Digits(s[k]);
    }
  }

  /** `^\d+\.\d+\.\d+$` */
  lemma VersionsMatch(s: string)
    ensures Policy.IsVersion(s) <==>
            Matches(VERSION, s)
  {
    var third := [NUMERAL];
    var second := [NUMERAL] + ([Literally(".")] + third);
    if Policy.IsVersion(s) {
      var a, b, c := VersionParts(s);
      NumeralsMatch(a);
      NumeralsMatch(b);
      NumeralsMatch(c);
      LastPart(NUMERAL, c);
      Part1(Literally("."), third, ".", c);
      Part1(NUMERAL, [Literally(".")] + third, b, "." + c);
      Part1(Literally("."), second, ".", b + ("." + c));
      Part1(NUMERAL, [Literally(".")] + second, a, "." + (b + ("." + c)));
    }
    if Matches([NUMERAL] + ([Literally(".")] + second), s) {
      var a, rest1 := Split1(NUMERAL, [Literally(".")] + second, s);
      var dot1, rest2 := Split1(Literally("."), second, rest1);
      var b, rest3 := Split1(NUMERAL, [Literally(".")] + third, rest2);
      var dot2, c := Split1(Literally("."), third, rest3);
      LastPart(NUMERAL, c);
      NumeralsMatch(a);
      NumeralsMatch(b);
      NumeralsMatch(c);
      Policy.ThreeNumerals(a, b, c);
    }
  }

  lemma VersionParts(s: string) returns (a: string, b: string, c: string)
    requires Policy.IsVersion(s)
    ensures IsNumeral(a) && IsNumeral(b) && IsNumeral(c) && s == a + ("." + (b + ("." + c)))
  {
    var first := SpanDigits(s);
    SpanMeaning(s);
    var second := SpanDigits(first.1[1..]);
    SpanMeaning(first.1[1..]);
    a, b, c := first.0, second.0, second.1[1..];
    assert first.1 == "." + first.1[1..] && second.1 == "." + second.1[1..];
  }

  lemma NamesMatch(s: string)
    ensures WORD.Fits(s) <==> IsName(s)
  {
  }

  /** `^[A-Za-z0-9_.-]+\/[A-Za-z0-9_.-]+$` */
  lemma RepositoriesMatch(s: string)
    ensures IsRepository(s) <==> Matches(REPOSITORY, s)
  {
    if IsRepository(s) {
      var parts := Segments(s);
      TwoSegments(s);
      NamesMatch(parts[0]);
      NamesMatch(parts[1]);
      LastPart(WORD, parts[1]);
      Part1(Literally("/"), [WORD], "/", parts[1]);
      Part1(WORD, [Literally("/")] + [WORD], parts[0], "/" + parts[1]);
    }
    if Matches(REPOSITORY, s) {
      var owner, rest := Split1(WORD, [Literally("/")] + [WORD], s);
      var slash, name := Split1(Literally("/"), [WORD], rest);
      LastPart(WORD, name);
      NamesMatch(owner);
      NamesMatch(name);
      PlainRepository(owner, name);
      assert s == owner + "/" + name;
    }
  }

  lemma TwoSegments(s: string)
    requires |Segments(s)| == 2
    ensures s == Segments(s)[0] + ("/" + Segments(s)[1])
  {
    SegmentsJoin(s);
    var parts := Segments(s);
    assert parts == [parts[0], parts[1]] && parts[1..] == [parts[1]];
    assert JoinSegments(parts) == parts[0] + "/" + JoinSegments(parts[1..]);
  }

  const HEXES: Part := Of(HEX, 1, None)

  lemma HexesMatch(s: string)
    ensures HEXES.Fits(s) <==> PatchReplay.IsHex(s)
  {
    forall k | 0 <= k < |s| ensures ('0' <= s[k] <= '9' || 'a' <= s[k] <= 'f') <==> HEX(s[k]) {
      HexDigits(s[k]);
    }
  }

  const INDEX_LINE: seq<Part> := [Literally("index ")] + ([HEXES] + ([Literally("..")] + ([HEXES] + [Literally(" 100644")])))

  /** `^index [a-f0-9]+\.\.[a-f0-9]+ 100644$` */
  lemma IndexLinesMatch(s: string)
    ensures PatchReplay.IsIndexLine(s) <==> Matches(INDEX_LINE, s)
  {
    var end := [Literally(" 100644")];
    var second := [HEXES] + end;
    var dots := [Literally("..")] + second;
    if PatchReplay.IsIndexLine(s) {
      var a, b := IndexParts(s);
      HexesMatch(a);
      HexesMatch(b);
      LastPart(Literally(" 100644"), " 100644");
      Part1(HEXES, end, b, " 100644");
      Part1(Literally(".."), second, "..", b + " 100644");
      Part1(HEXES, dots, a, ".." + (b + " 100644"));
      Part1(Literally("index "), [HEXES] + dots, "index ", a + (".." + (b + " 100644")));
    }
    if Matches(INDEX_LINE, s) {
      var index, rest1 := Split1(Literally("index "), [HEXES] + dots, s);
      var a, rest2 := Split1(HEXES, dots, rest1);
      var two, rest3 := Split1(Literally(".."), second, rest2);
      var b, rest4 := Split1(HEXES, end, rest3);
      LastPart(Literally(" 100644"), rest4);
      HexesMatch(a);
      HexesMatch(b);
      IndexFromParts(a, b);
      assert s == "index " + (a + (".." + (b + " 100644")));
    }
  }

  lemma IndexParts(s: string) returns (a: string, b: string)
    requires PatchReplay.IsIndexLine(s)
    ensures PatchReplay.IsHex(a) && PatchReplay.IsHex(b) && s == "index " + (a + (".." + (b + " 100644")))
  {
    var i, j :|
      && 6 <= i <= j <= |s| && s[..6] == "index " && PatchReplay.IsHex(s[6..i]) && StartsWith(s[i..], "..") && i + 2 <= j
      && PatchReplay.IsHex(s[i + 2..j]) && s[j..] == " 100644";
    a, b := s[6..i], s[i + 2..j];
    CutApart(s, 6, i, i + 2, j);
    StartsAt(s, i, "..");
  }

  lemma StartsAt(s: string, i: nat, part: string)
    requires i + |part| <= |s| && StartsWith(s[i..], part)
    ensures s[i..i + |part|] == part
  {
    assert s[i..][..|part|] == s[i..i + |part|];
  }

  lemma CutApart(s: string, a: nat, b: nat, c: nat, d: nat)
    requires a <= b <= c <= d <= |s|
    ensures s == s[..a] + (s[a..b] + (s[b..c] + (s[c..d] + s[d..])))
  {
  }

  lemma IndexFromParts(a: string, b: string)
    requires PatchReplay.IsHex(a) && PatchReplay.IsHex(b)
    ensures PatchReplay.IsIndexLine("index " + (a + (".." + (b + " 100644"))))
  {
    var s := "index " + (a + (".." + (b + " 100644")));
    var i, j := 6 + |a|, 8 + |a| + |b|;
    assert s[..6] == "index " && s[6..i] == a && s[i..] == ".." + (b + " 100644");
    assert s[i + 2..j] == b && s[j..] == " 100644";
  }

  // ---------------------------------------------------------------- workflows, contexts and grants

  /** The header of a workflow is checked against these expressions. */
  lemma WorkflowsMatch(m: Manifest, described: Manifest -> bool)
    ensures ProperWorkflow(m, described) <==>
      && Matches(LOWERCASE_ID, m.workflowId) && Matches(VERSION, m.workflowVersion) && m.templateId == "engineering-node@1.0.0"
      && Matches(PROJECT_ID, m.projectId) && Matches(REPOSITORY, m.repository) && Matches(VERSION, m.minimumPolicy)
      && described(m) && ProperManifest(m.nodes)
  {
    IdsMatch(m.workflowId);
    VersionsMatch(m.workflowVersion);
    ProjectIdsMatch(m.projectId);
    RepositoriesMatch(m.repository);
    VersionsMatch(m.minimumPolicy);
  }

  /** A plan is made exactly for a proper workflow, its own source, a policy that reaches its minimum, and 240 receipts at most. */
  lemma PlanMadeExactly(m: Manifest, c: Context, digest: string, supplied: seq<Supplied>, o: Oracles)
    ensures ReadinessOf(m, c, digest, supplied, o).Ok? <==>
      && ProperWorkflow(m, o.described) && c.projectId == m.projectId && c.repository == m.repository
      && Matches(SHA, c.appHead) && Matches(DIGEST, c.canonicalDigest) && Matches(VERSION, c.policyVersion)
      && Policy.Reaches(o.numbers(c.policyVersion), o.numbers(m.minimumPolicy)) && |supplied| <= 240
  {
    ShasMatch(c.appHead);
    DigestsMatch(c.canonicalDigest);
    VersionsMatch(c.policyVersion);
  }

  ghost predicate MatchesTime(s: string) {
    IsLike(s, "0000-00-00T00:00:00Z") || IsLike(s, "0000-00-00T00:00:00.000Z")
  }

  /** The texts of a grant are checked against these expressions, its numbers and paths against their bounds. */
  lemma PayloadsMatch(p: Gateway.Payload)
    ensures Gateway.PayloadShape(p) <==>
      && Matches(DIGEST, p.binding.workflowDigest) && Matches(DIGEST, p.binding.canonicalDigest) && Matches(SHA, p.binding.appHead)
      && Matches(LOWERCASE_ID, p.issuerId) && Matches(NONCE, p.nonce) && MatchesTime(p.issuedAt) && MatchesTime(p.expiresAt)
      && 1 <= p.bounds.maxAttempts <= 5 && 1 <= p.bounds.maxFiles <= 30 && 1 <= p.bounds.maxTokenEstimate <= 30000
      && 1 <= |p.bounds.allowedPaths| <= 30 && Distinct(p.bounds.allowedPaths)
      && forall path :: path in p.bounds.allowedPaths ==> FilePath(path)
  {
    DigestsMatch(p.binding.workflowDigest);
    DigestsMatch(p.binding.canonicalDigest);
    ShasMatch(p.binding.appHead);
    IdsMatch(p.issuerId);
    NoncesMatch(p.nonce);
    TimestampsMatch(p.issuedAt);
    TimestampsMatch(p.expiresAt);
    forall path ensures ValidPath(path) <==> FilePath(path) {
      PathChecksAgree(path);
    }
  }

  /** The report of a runner is checked against these expressions, and its files against the scopes, segment by segment. */
  lemma ResultsMatch(result: AttemptResult, grant: Grant)
    ensures ValidResult(result, grant) <==>
      && Matches(DIGEST, result.observationDigest) && 1 <= |result.evidenceReferences| <= 30
      && (forall r :: r in result.evidenceReferences ==> MatchesReference(r))
      && |result.filesTouched| <= grant.maxFiles
      && (forall f :: f in result.filesTouched ==>
            FilePath(f) && exists scope :: scope in grant.allowedPaths && Segments(scope) <= Segments(f))
      && 0 <= result.tokensUsed <= grant.maxTokenEstimate
  {
    DigestsMatch(result.observationDigest);
    forall r ensures IsReference(r) <==> MatchesReference(r) {
      ReferencesMatch(r);
    }
    FilesFit(result.filesTouched, grant);
  }

  lemma FilesFit(files: seq<string>, grant: Grant)
    ensures (forall k :: 0 <= k < |files| ==> ValidPath(files[k]) && InScope(files[k], grant.allowedPaths)) <==>
            (forall f :: f in files ==> FilePath(f) && exists scope :: scope in grant.allowedPaths && Segments(scope) <= Segments(f))
  {
    forall f | f in files
      ensures ValidPath(f) && InScope(f, grant.allowedPaths) <==>
              FilePath(f) && exists scope :: scope in grant.allowedPaths && Segments(scope) <= Segments(f)
    {
      PathChecksAgree(f);
      ScopeHolds(f, grant.allowedPaths);
    }
    forall k | 0 <= k < |files| ensures files[k] in files {
    }
  }

  lemma ScopeHolds(f: string, scopes: seq<string>)
    ensures InScope(f, scopes) <==> exists scope :: scope in scopes && Segments(scope) <= Segments(f)
  {
    if k :| 0 <= k < |scopes| && AtOrBelow(f, scopes[k]) {
      BelowExactly(f, scopes[k]);
      assert scopes[k] in scopes;
    }
    if scope :| scope in scopes && Segments(scope) <= Segments(f) {
      BelowExactly(f, scope);
      var k :| 0 <= k < |scopes| && scopes[k] == scope;
    }
  }

  /** An action is carried out, and verified, only if it matches these expressions and keeps these bounds. */
  lemma ActionsMatch(action: Inspection.Action, repository: string)
    ensures Inspection.ExecutableAction(action, repository) <==>
      && action.mode == "inspect-scoped" && Matches(REPOSITORY, action.repository) && action.repository == repository
      && Matches(SHA, action.appHead) && 1 <= |action.allowedPaths| <= action.maxFiles <= 30
    ensures Inspection.VerifiableAction(action) <==>
      && action.mode == "inspect-scoped" && Matches(REPOSITORY, action.repository) && Matches(SHA, action.appHead)
      && Matches(DIGEST, action.requestId) && FilePath(action.nodeId) && 1 <= |action.allowedPaths| <= action.maxFiles <= 30
      && forall path :: path in action.allowedPaths ==> FilePath(path)
  {
    RepositoriesMatch(action.repository);
    ShasMatch(action.appHead);
    DigestsMatch(action.requestId);
  }
}
