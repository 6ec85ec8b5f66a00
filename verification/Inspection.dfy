/**
 The scoped inspection of a pinned repository and its independent verification: two
 programs that read the same files in two ways and must agree on what was observed.
 */
module Inspection {
  import opened Wrappers
  import opened Paths
  import opened Text
  import opened Ordering
  import opened Execution
  import opened Bags
  import opened Sets

  const MAX_FILE_BYTES := 256000
  const MAX_TOTAL_BYTES := 512000
  const MAX_CONTENT := 341334 + 1024
  const MAX_LISTING := 100

  // ---------------------------------------------------------------- a pinned repository

  datatype Entry = MisshapenEntry | Entry(kind: string, path: string)

  /** An answer that is no listing. `size` is absent unless it is an integer, `content` unless it is base64 text. */
  datatype Payload = Payload(kind: string, path: string, size: Option<int>, content: Option<string>)

  datatype Response = Unavailable | Listing(entries: seq<Entry>) | Single(payload: Payload)

  /** The repository at one commit: a request for a path always has the same answer. */
  type World = string -> Response

  type Bytes = seq<bv8>

  /** Decoding of base64 text, the digest of bytes, and the digest of a whole record. */
  datatype Codec = Codec(decode: string -> Option<Bytes>, hash: Bytes -> string, seal: InspectionRecord -> string)

  datatype FileDigest = FileDigest(path: string, bytes: nat, sha256: string)

  datatype InspectionRecord = InspectionRecord(
    projectId: string, repository: string, appHead: string, nodeId: string, mode: string, files: seq<FileDigest>)

  datatype Action = Action(
    requestId: string, projectId: string, repository: string, appHead: string, nodeId: string, mode: string,
    allowedPaths: seq<string>, maxFiles: int, attempt: int)

  const INSPECT := "inspect-scoped"

  /** A regular file of bounded size whose contents are there: the check of one file. */
  function FileAt(world: World, codec: Codec, path: string): Option<FileDigest> {
    match world(path)
    case Single(p) =>
      if p.kind == "file" && p.path == path && p.size.Some? && 0 <= p.size.value <= MAX_FILE_BYTES
         && p.content.Some? && |p.content.value| <= MAX_CONTENT
      then
        match codec.decode(p.content.value)
        case Some(bytes) => if |bytes| == p.size.value then Some(FileDigest(path, |bytes|, codec.hash(bytes))) else None
        case None => None
      else None
    case _ => None
  }

  function SumBytes(files: seq<FileDigest>): nat {
    if files == [] then 0 else SumBytes(files[..|files| - 1]) + files[|files| - 1].bytes
  }

  predicate Has(files: seq<FileDigest>, path: string) {
    exists k :: 0 <= k < |files| && files[k].path == path
  }

  datatype Fault =
    | InvalidAction | UnsafePath | SourceUnavailable | ListingTooLarge | MalformedListing | EscapesScope
    | FileBudgetExceeded | NoBoundedFile | TotalExceeded | NothingObserved
    | InconsistentObservation | ForeignEvidence | OutOfScope | DuplicateEvidence | DigestMismatch

  // ---------------------------------------------------------------- the executor

  function LoadFile(world: World, codec: Codec, max: int, path: string,
                    files: seq<FileDigest>): Result<seq<FileDigest>, Fault> {
    if Has(files, path) then Ok(files)
    else if |files| >= max then Err(FileBudgetExceeded)
    else
      match FileAt(world, codec, path)
      case None => Err(NoBoundedFile)
      case Some(file) =>
        if SumBytes(files) + file.bytes > MAX_TOTAL_BYTES then Err(TotalExceeded) else Ok(files + [file])
  }

  /** A file listed directly below the scope. */
  predicate DirectlyBelow(scope: string, path: string) {
    FilePath(path) && StartsWith(path, scope + "/") && '/' !in path[|scope| + 1..]
  }

  /** A path directly below another has one segment more. */
  lemma DirectlyBelowExactly(scope: string, path: string)
    ensures DirectlyBelow(scope, path) <==> FilePath(path) && exists name :: Segments(path) == Segments(scope) + [name]
  {
    if DirectlyBelow(scope, path) {
      var name := path[|scope| + 1..];
      assert path == scope + "/" + name;
      SegmentsAppend(scope, name);
      PlainSegment(name);
      assert Segments(path) == Segments(scope) + [name];
    }
    if name :| Segments(path) == Segments(scope) + [name] {
      SegmentsJoin(path);
      assert Segments(path)[|Segments(path)| - 1] == name;
      SegmentsAppend(scope, name);
      PlainSegment(name);
      SegmentsJoin(scope + "/" + name);
      assert path == scope + "/" + name && path[|scope| + 1..] == name;
    }
  }

  function LoadEntries(world: World, codec: Codec, max: int, scope: string, entries: seq<Entry>,
                       files: seq<FileDigest>): Result<seq<FileDigest>, Fault>
    requires forall e :: e in entries ==> e.Entry?
  {
    if entries == [] then Ok(files)
    else if entries[0].kind != "file" then LoadEntries(world, codec, max, scope, entries[1..], files)
    else if !DirectlyBelow(scope, entries[0].path) then Err(EscapesScope)
    else
      match LoadFile(world, codec, max, entries[0].path, files)
      case Err(f) => Err(f)
      case Ok(loaded) => LoadEntries(world, codec, max, scope, entries[1..], loaded)
  }

  predicate Misshapen(entries: seq<Entry>) {
    exists e :: e in entries && e.MisshapenEntry?
  }

  function LoadScope(world: World, codec: Codec, max: int, scope: string,
                     files: seq<FileDigest>): Result<seq<FileDigest>, Fault> {
    if !FilePath(scope) then Err(UnsafePath)
    else
      match world(scope)
      case Unavailable => Err(SourceUnavailable)
      case Listing(entries) =>
        if |entries| > MAX_LISTING then Err(ListingTooLarge)
        else if Misshapen(entries) then Err(MalformedListing)
        else LoadEntries(world, codec, max, scope, entries, files)
      case Single(_) => LoadFile(world, codec, max, scope, files)
  }

  function LoadScopes(world: World, codec: Codec, max: int, scopes: seq<string>,
                      files: seq<FileDigest>): Result<seq<FileDigest>, Fault> {
    if scopes == [] then Ok(files)
    else
      match LoadScope(world, codec, max, scopes[0], files)
      case Err(f) => Err(f)
      case Ok(loaded) => LoadScopes(world, codec, max, scopes[1..], loaded)
  }

  predicate ByPath(collate: Order<string>, a: FileDigest, b: FileDigest) {
    collate(a.path, b.path)
  }

  function SortByPath(files: seq<FileDigest>, collate: Order<string>): (r: seq<FileDigest>)
    ensures |r| == |files|
  {
    Sort(files, (a, b) => ByPath(collate, a, b))
  }

  function RecordFor(action: Action, files: seq<FileDigest>): InspectionRecord {
    InspectionRecord(action.projectId, action.repository, action.appHead, action.nodeId, action.mode, files)
  }

  function EvidencePrefix(action: Action): string {
    "github:" + action.repository + "@" + action.appHead + "#"
  }

  function References(action: Action, files: seq<FileDigest>): (r: seq<string>)
    ensures |r| == |files| && forall k :: 0 <= k < |r| ==> r[k] == EvidencePrefix(action) + files[k].path
  {
    seq(|files|, k requires 0 <= k < |files| => EvidencePrefix(action) + files[k].path)
  }

  /** The report on files in their final order. */
  function ResultOf(codec: Codec, action: Action, files: seq<FileDigest>): AttemptResult {
    AttemptResult(true, codec.seal(RecordFor(action, files)), References(action, files), [], 0)
  }

  predicate ExecutableAction(action: Action, repository: string) {
    && action.mode == INSPECT && IsRepository(action.repository) && action.repository == repository && IsSha(action.appHead)
    && 1 <= action.maxFiles <= 30 && 1 <= |action.allowedPaths| <= action.maxFiles
  }

  /** The inspection of an action, as the executor bound to a repository carries it out. */
  function Execute(world: World, codec: Codec, collate: Order<string>, repository: string,
                   action: Action): Result<AttemptResult, Fault> {
    if !ExecutableAction(action, repository) then Err(InvalidAction)
    else
      match LoadScopes(world, codec, action.maxFiles, action.allowedPaths, [])
      case Err(f) => Err(f)
      case Ok(files) =>
        if files == [] then Err(NothingObserved)
        else Ok(ResultOf(codec, action, SortByPath(files, collate)))
  }

  // ---------------------------------------------------------------- the verifier

  predicate VerifiableAction(action: Action) {
    && IsDigest(action.requestId) && IsRepository(action.repository) && IsSha(action.appHead) && action.mode == INSPECT
    && FilePath(action.nodeId) && 1 <= action.maxFiles <= 30 && 1 <= |action.allowedPaths| <= action.maxFiles
    && forall k :: 0 <= k < |action.allowedPaths| ==> FilePath(action.allowedPaths[k])
  }

  predicate ConsistentObservation(action: Action, o: AttemptRecord) {
    && o.outcome == Succeeded && o.attempt == action.attempt
    && o.observationDigest.Some? && IsDigest(o.observationDigest.value)
    && o.tokensUsed == 0 && o.filesTouched == [] && 1 <= |o.evidenceReferences| <= action.maxFiles
  }

  /** The paths that references name, in their order. */
  function EvidencePaths(action: Action, references: seq<string>): Result<seq<string>, Fault> {
    if references == [] then Ok([])
    else
      match EvidencePaths(action, references[..|references| - 1])
      case Err(f) => Err(f)
      case Ok(paths) =>
        var reference, prefix := references[|references| - 1], EvidencePrefix(action);
        if !StartsWith(reference, prefix) then Err(ForeignEvidence)
        else if !FilePath(reference[|prefix|..]) || !InScope(reference[|prefix|..], action.allowedPaths) then Err(OutOfScope)
        else Ok(paths + [reference[|prefix|..]])
  }

  /** Reads the named files back. */
  function ReadBack(world: World, codec: Codec, paths: seq<string>): Result<seq<FileDigest>, Fault> {
    if paths == [] then Ok([])
    else
      match ReadBack(world, codec, paths[..|paths| - 1])
      case Err(f) => Err(f)
      case Ok(files) =>
        match FileAt(world, codec, paths[|paths| - 1])
        case None => Err(NoBoundedFile)
        case Some(file) => if SumBytes(files) + file.bytes > MAX_TOTAL_BYTES then Err(TotalExceeded) else Ok(files + [file])
  }

  /** The verification of a recorded observation; its result is the number of files read back. */
  function Verify(world: World, codec: Codec, collate: Order<string>, action: Action, o: AttemptRecord): Result<nat, Fault> {
    if !VerifiableAction(action) then Err(InvalidAction)
    else if !ConsistentObservation(action, o) then Err(InconsistentObservation)
    else
      match EvidencePaths(action, o.evidenceReferences)
      case Err(f) => Err(f)
      case Ok(paths) =>
        if !Distinct(paths) then Err(DuplicateEvidence)
        else
          match ReadBack(world, codec, paths)
          case Err(f) => Err(f)
          case Ok(files) =>
            var sorted := SortByPath(files, collate);
            if codec.seal(RecordFor(action, sorted)) != o.observationDigest.value then Err(DigestMismatch) else Ok(|sorted|)
  }

  // ---------------------------------------------------------------- what the executor gathers

  /** Files read from this world, no path twice, within the bounds. */
  ghost predicate Gathered(world: World, codec: Codec, max: int, files: seq<FileDigest>) {
    && (forall i, j :: 0 <= i < j < |files| ==> files[i].path != files[j].path)
    && (forall k :: 0 <= k < |files| ==> FileAt(world, codec, files[k].path) == Some(files[k]))
    && |files| <= max && SumBytes(files) <= MAX_TOTAL_BYTES
  }

  /** Every path is a scope or directly below one. */
  ghost predicate AllBelow(scopes: seq<string>, files: seq<FileDigest>) {
    forall k :: 0 <= k < |files| ==> FilePath(files[k].path) && InScope(files[k].path, scopes)
  }

  lemma LoadFileGathers(world: World, codec: Codec, max: int, path: string, files: seq<FileDigest>)
    requires Gathered(world, codec, max, files) && LoadFile(world, codec, max, path, files).Ok?
    ensures var r := LoadFile(world, codec, max, path, files).value;
            Gathered(world, codec, max, r) && forall p :: Has(r, p) <==> Has(files, p) || p == path
  {
    var r := LoadFile(world, codec, max, path, files).value;
    if !Has(files, path) {
      var file := FileAt(world, codec, path).value;
      assert r == files + [file] && r[..|files|] == files;
      HasSnoc(files, file);
    }
  }

  lemma HasSnoc(files: seq<FileDigest>, file: FileDigest)
    ensures forall p :: Has(files + [file], p) <==> Has(files, p) || p == file.path
  {
    var r := files + [file];
    forall p | Has(files, p) ensures Has(r, p) {
      var k :| 0 <= k < |files| && files[k].path == p;
      assert r[k].path == p;
    }
    assert r[|files|] == file;
  }

  ghost predicate Listed(entries: seq<Entry>, path: string) {
    exists e :: e in entries && e.Entry? && e.kind == "file" && e.path == path
  }

  /** The paths a scope contributes. */
  ghost predicate Wanted(world: World, scope: string, path: string) {
    match world(scope)
    case Unavailable => false
    case Listing(entries) => Listed(entries, path)
    case Single(_) => path == scope
  }

  ghost predicate WantedByAny(world: World, scopes: seq<string>, path: string) {
    exists scope :: scope in scopes && Wanted(world, scope, path)
  }

  /** A scope whose answer the executor can work with. */
  ghost predicate ProperScope(world: World, scope: string) {
    && FilePath(scope) && !world(scope).Unavailable?
    && (world(scope).Listing? ==>
          && |world(scope).entries| <= MAX_LISTING && !Misshapen(world(scope).entries)
          && forall p :: Listed(world(scope).entries, p) ==> DirectlyBelow(scope, p))
  }

  lemma {:induction false} LoadEntriesGathers(world: World, codec: Codec, max: int, scope: string, entries: seq<Entry>,
                                              files: seq<FileDigest>)
    requires Gathered(world, codec, max, files) && forall e :: e in entries ==> e.Entry?
    requires LoadEntries(world, codec, max, scope, entries, files).Ok?
    ensures var r := LoadEntries(world, codec, max, scope, entries, files).value;
      && Gathered(world, codec, max, r)
      && (forall p :: Has(r, p) <==> Has(files, p) || Listed(entries, p))
      && (forall p :: Listed(entries, p) ==> DirectlyBelow(scope, p))
  {
    if entries != [] {
      var e, rest := entries[0], entries[1..];
      assert forall p :: Listed(entries, p) <==> Listed(rest, p) || (e.kind == "file" && e.path == p);
      if e.kind == "file" {
        LoadFileGathers(world, codec, max, e.path, files);
        LoadEntriesGathers(world, codec, max, scope, rest, LoadFile(world, codec, max, e.path, files).value);
      } else {
        LoadEntriesGathers(world, codec, max, scope, rest, files);
      }
    }
  }

  lemma LoadScopeGathers(world: World, codec: Codec, max: int, scope: string, files: seq<FileDigest>)
    requires Gathered(world, codec, max, files) && LoadScope(world, codec, max, scope, files).Ok?
    ensures var r := LoadScope(world, codec, max, scope, files).value;
      && Gathered(world, codec, max, r) && ProperScope(world, scope)
      && forall p :: Has(r, p) <==> Has(files, p) || Wanted(world, scope, p)
  {
    match world(scope)
    case Listing(entries) => LoadEntriesGathers(world, codec, max, scope, entries, files);
    case Single(_) => LoadFileGathers(world, codec, max, scope, files);
    case Unavailable =>
  }

  /** A successful inspection gathers exactly the files its scopes contribute. */
  lemma {:induction false} LoadScopesGathers(world: World, codec: Codec, max: int, scopes: seq<string>,
                                             files: seq<FileDigest>)
    requires Gathered(world, codec, max, files) && LoadScopes(world, codec, max, scopes, files).Ok?
    ensures var r := LoadScopes(world, codec, max, scopes, files).value;
      && Gathered(world, codec, max, r) && (forall s :: s in scopes ==> ProperScope(world, s))
      && forall p :: Has(r, p) <==> Has(files, p) || WantedByAny(world, scopes, p)
  {
    if scopes != [] {
      var loaded := LoadScope(world, codec, max, scopes[0], files).value;
      LoadScopeGathers(world, codec, max, scopes[0], files);
      LoadScopesGathers(world, codec, max, scopes[1..], loaded);
      WantedCons(world, scopes);
    }
  }

  lemma WantedCons(world: World, scopes: seq<string>)
    requires scopes != []
    ensures forall p :: WantedByAny(world, scopes, p) <==> Wanted(world, scopes[0], p) || WantedByAny(world, scopes[1..], p)
  {
    assert scopes == [scopes[0]] + scopes[1..];
  }

  /** What a proper scope contributes lies in scope. */
  lemma WantedIsBelow(world: World, scopes: seq<string>, path: string)
    requires WantedByAny(world, scopes, path) && forall s :: s in scopes ==> ProperScope(world, s)
    ensures FilePath(path) && InScope(path, scopes)
  {
    var scope :| scope in scopes && Wanted(world, scope, path);
    var k :| 0 <= k < |scopes| && scopes[k] == scope;
    assert ProperScope(world, scope);
  }

  // ---------------------------------------------------------------- sums of bytes

  lemma {:induction false} SumConcat(a: seq<FileDigest>, b: seq<FileDigest>)
    ensures SumBytes(a + b) == SumBytes(a) + SumBytes(b)
    decreases |b|
  {
    if b == [] {
      assert a + b == a;
    } else {
      var n := |b| - 1;
      SumConcat(a, b[..n]);
      assert (a + b)[..|a| + n] == a + b[..n];
    }
  }

  lemma SumMiddle(before: seq<FileDigest>, file: FileDigest, after: seq<FileDigest>)
    ensures SumBytes((before + [file]) + after) == SumBytes(before + after) + file.bytes
  {
    SumConcat(before + [file], after);
    assert (before + [file])[..|before|] == before;
    SumConcat(before, after);
  }

  lemma SumWithout(b: seq<FileDigest>, k: nat)
    requires k < |b|
    ensures SumBytes(b) == SumBytes(b[..k] + b[k + 1..]) + b[k].bytes
  {
    SplitAt(b, k);
    SumMiddle(b[..k], b[k], b[k + 1..]);
  }

  /** Different members of a list are no more and no larger than the list. */
  lemma {:induction false} SumWithin(a: seq<FileDigest>, b: seq<FileDigest>)
    requires forall i, j :: 0 <= i < j < |a| ==> a[i] != a[j]
    requires forall k :: 0 <= k < |a| ==> a[k] in b
    ensures |a| <= |b| && SumBytes(a) <= SumBytes(b)
    decreases |a|
  {
    if a != [] {
      var n := |a| - 1;
      var k :| 0 <= k < |b| && b[k] == a[n];
      var others := b[..k] + b[k + 1..];
      forall i | 0 <= i < n ensures a[..n][i] in others {
        var j :| 0 <= j < |b| && b[j] == a[i];
        assert j != k;
        assert if j < k then others[j] == b[j] else others[j - 1] == b[j];
      }
      SumWithin(a[..n], others);
      SumWithout(b, k);
    }
  }

  // ---------------------------------------------------------------- the order of scopes does not matter

  lemma LoadFileSucceeds(world: World, codec: Codec, max: int, path: string, files: seq<FileDigest>, bound: seq<FileDigest>)
    requires Gathered(world, codec, max, files) && Gathered(world, codec, max, bound)
    requires (forall p :: Has(files, p) ==> Has(bound, p)) && Has(bound, path)
    ensures LoadFile(world, codec, max, path, files).Ok?
  {
    if !Has(files, path) {
      var k :| 0 <= k < |bound| && bound[k].path == path;
      var grown := files + [bound[k]];
      assert grown[..|files|] == files;
      forall i | 0 <= i < |grown| ensures grown[i] in bound {
        if i < |files| {
          assert Has(files, files[i].path);
          var j :| 0 <= j < |bound| && bound[j].path == files[i].path;
          assert bound[j] == files[i];
        }
      }
      SumWithin(grown, bound);
    }
  }

  lemma {:induction false} LoadEntriesSucceeds(world: World, codec: Codec, max: int, scope: string, entries: seq<Entry>,
                                               files: seq<FileDigest>, bound: seq<FileDigest>)
    requires Gathered(world, codec, max, files) && Gathered(world, codec, max, bound)
    requires forall p :: Has(files, p) ==> Has(bound, p)
    requires forall e :: e in entries ==> e.Entry?
    requires forall p :: Listed(entries, p) ==> DirectlyBelow(scope, p) && Has(bound, p)
    ensures LoadEntries(world, codec, max, scope, entries, files).Ok?
    decreases |entries|
  {
    if entries != [] {
      var e, rest := entries[0], entries[1..];
      forall p | Listed(rest, p) ensures Listed(entries, p) {
        var x :| x in rest && x.Entry? && x.kind == "file" && x.path == p;
        assert x in entries;
      }
      if e.kind == "file" {
        assert Listed(entries, e.path);
        LoadFileSucceeds(world, codec, max, e.path, files, bound);
        LoadFileGathers(world, codec, max, e.path, files);
        LoadEntriesSucceeds(world, codec, max, scope, rest, LoadFile(world, codec, max, e.path, files).value, bound);
      } else {
        LoadEntriesSucceeds(world, codec, max, scope, rest, files, bound);
      }
    }
  }

  /** Whatever stays within a successful inspection succeeds. */
  lemma {:induction false} LoadScopesSucceeds(world: World, codec: Codec, max: int, scopes: seq<string>,
                                              files: seq<FileDigest>, bound: seq<FileDigest>)
    requires Gathered(world, codec, max, files) && Gathered(world, codec, max, bound)
    requires forall p :: Has(files, p) ==> Has(bound, p)
    requires forall s :: s in scopes ==> ProperScope(world, s)
    requires forall p :: WantedByAny(world, scopes, p) ==> Has(bound, p)
    ensures LoadScopes(world, codec, max, scopes, files).Ok?
    decreases |scopes|
  {
    if scopes != [] {
      WantedCons(world, scopes);
      var scope := scopes[0];
      assert ProperScope(world, scope);
      match world(scope) {
        case Listing(entries) => LoadEntriesSucceeds(world, codec, max, scope, entries, files, bound);
        case Single(_) => LoadFileSucceeds(world, codec, max, scope, files, bound);
      }
      LoadScopeGathers(world, codec, max, scope, files);
      LoadScopesSucceeds(world, codec, max, scopes[1..], LoadScope(world, codec, max, scope, files).value, bound);
    }
  }

  /** The files read for the same paths are the same, in some order. */
  lemma SameFiles(world: World, codec: Codec, max: int, a: seq<FileDigest>, b: seq<FileDigest>)
    requires Gathered(world, codec, max, a) && Gathered(world, codec, max, b)
    requires forall p :: Has(a, p) <==> Has(b, p)
    ensures multiset(a) == multiset(b)
  {
    forall x ensures multiset(a)[x] == multiset(b)[x] {
      CountOnce(a, x);
      CountOnce(b, x);
      if x in a {
        MemberOfBoth(world, codec, max, a, b, x);
      }
      if x in b {
        MemberOfBoth(world, codec, max, b, a, x);
      }
    }
  }

  lemma MemberOfBoth(world: World, codec: Codec, max: int, a: seq<FileDigest>, b: seq<FileDigest>, x: FileDigest)
    requires Gathered(world, codec, max, a) && Gathered(world, codec, max, b)
    requires (forall p :: Has(a, p) <==> Has(b, p)) && x in a
    ensures x in b
  {
    var i :| 0 <= i < |a| && a[i] == x;
    assert Has(a, x.path);
    var j :| 0 <= j < |b| && b[j].path == x.path;
  }

  lemma SameSorted(world: World, codec: Codec, max: int, a: seq<FileDigest>, b: seq<FileDigest>, collate: Order<string>)
    requires Gathered(world, codec, max, a) && Gathered(world, codec, max, b) && IsTotalOrder(collate)
    requires forall p :: Has(a, p) <==> Has(b, p)
    ensures SortByPath(a, collate) == SortByPath(b, collate)
  {
    SameFiles(world, codec, max, a, b);
    SortForgetsOrder(a, b, (x, y) => ByPath(collate, x, y));
  }

  /** The result of an inspection depends on the set of its scopes alone, not on their order or repetition. */
  lemma ScopesForgetOrder(world: World, codec: Codec, collate: Order<string>, repository: string, action: Action,
                          scopes: seq<string>)
    requires IsTotalOrder(collate) && 1 <= |scopes| <= action.maxFiles
    requires forall s :: s in scopes <==> s in action.allowedPaths
    requires Execute(world, codec, collate, repository, action).Ok?
    ensures Execute(world, codec, collate, repository, action.(allowedPaths := scopes)) == Execute(world, codec, collate, repository, action)
  {
    var max := action.maxFiles;
    var files := LoadScopes(world, codec, max, action.allowedPaths, []).value;
    var others := SameGathering(world, codec, max, action.allowedPaths, files, scopes);
    SameSorted(world, codec, max, files, others, collate);
    var sorted := SortByPath(files, collate);
    assert References(action.(allowedPaths := scopes), sorted) == References(action, sorted);
    assert Has(files, files[0].path);
  }

  lemma SameGathering(world: World, codec: Codec, max: int, scopes: seq<string>, files: seq<FileDigest>,
                      others: seq<string>) returns (r: seq<FileDigest>)
    requires max >= 0 && LoadScopes(world, codec, max, scopes, []) == Ok(files)
    requires forall s :: s in others <==> s in scopes
    ensures LoadScopes(world, codec, max, others, []) == Ok(r)
    ensures Gathered(world, codec, max, files) && Gathered(world, codec, max, r) && forall p :: Has(r, p) <==> Has(files, p)
  {
    LoadScopesGathers(world, codec, max, scopes, []);
    LoadScopesSucceeds(world, codec, max, others, [], files);
    LoadScopesGathers(world, codec, max, others, []);
    r := LoadScopes(world, codec, max, others, []).value;
  }

  // ---------------------------------------------------------------- agreement

  function PathsOf(files: seq<FileDigest>): (paths: seq<string>)
    ensures |paths| == |files| && forall k :: 0 <= k < |paths| ==> paths[k] == files[k].path
  {
    seq(|files|, k requires 0 <= k < |files| => files[k].path)
  }

  /** The verifier reads the paths off the executor's references. */
  lemma {:induction false} PathsAreReadOff(action: Action, files: seq<FileDigest>)
    requires AllBelow(action.allowedPaths, files)
    ensures EvidencePaths(action, References(action, files)) == Ok(PathsOf(files))
    decreases |files|
  {
    if files != [] {
      var n := |files| - 1;
      var references := References(action, files);
      PathsAreReadOff(action, files[..n]);
      assert references[..n] == References(action, files[..n]);
      assert references[n][|EvidencePrefix(action)|..] == files[n].path;
      assert PathsOf(files) == PathsOf(files[..n]) + [files[n].path];
    }
  }

  /** Reading back what was gathered gives it again. */
  lemma {:induction false} ReadBackGathers(world: World, codec: Codec, files: seq<FileDigest>)
    requires forall k :: 0 <= k < |files| ==> FileAt(world, codec, files[k].path) == Some(files[k])
    requires SumBytes(files) <= MAX_TOTAL_BYTES
    ensures ReadBack(world, codec, PathsOf(files)) == Ok(files)
    decreases |files|
  {
    if files != [] {
      var n := |files| - 1;
      ReadBackGathers(world, codec, files[..n]);
      assert PathsOf(files)[..n] == PathsOf(files[..n]);
      assert files == files[..n] + [files[n]];
    }
  }

  /** Sorting keeps what was gathered. */
  lemma SortedIsGathered(world: World, codec: Codec, max: int, files: seq<FileDigest>, collate: Order<string>)
    requires Gathered(world, codec, max, files)
    ensures Gathered(world, codec, max, SortByPath(files, collate))
    ensures forall p :: Has(SortByPath(files, collate), p) <==> Has(files, p)
  {
    var le := (x, y) => ByPath(collate, x, y);
    var sorted := Sort(files, le);
    SortPermutes(files, le);
    SortKeepsElements(files, le);
    forall k | 0 <= k < |sorted| ensures FileAt(world, codec, sorted[k].path) == Some(sorted[k]) {
      assert sorted[k] in files;
    }
    forall i, j | 0 <= i < j < |sorted| ensures sorted[i].path != sorted[j].path {
      if sorted[i].path == sorted[j].path {
        assert sorted[i] == sorted[j];
        CountOnce(files, sorted[i]);
        CountedTwice(sorted, i, j);
      }
    }
    SumWithin(sorted, files);
    forall p ensures Has(sorted, p) <==> Has(files, p) {
      if Has(files, p) {
        var k :| 0 <= k < |files| && files[k].path == p;
        assert files[k] in sorted;
      }
      if Has(sorted, p) {
        var k :| 0 <= k < |sorted| && sorted[k].path == p;
        assert sorted[k] in files;
      }
    }
  }

  /** An action as a verified grant produces it. */
  predicate WellFormedAction(action: Action) {
    IsDigest(action.requestId) && FilePath(action.nodeId)
  }

  /** The observation the gateway records for a successful inspection. */
  function ObservationOf(action: Action, result: AttemptResult): AttemptRecord {
    AttemptRecord(action.attempt, Succeeded, Some(result.observationDigest), result.evidenceReferences, result.filesTouched, result.tokensUsed)
  }

  /** The sorted files behind a successful inspection. */
  function Observed(world: World, codec: Codec, collate: Order<string>, repository: string, action: Action): seq<FileDigest>
    requires Execute(world, codec, collate, repository, action).Ok?
  {
    SortByPath(LoadScopes(world, codec, action.maxFiles, action.allowedPaths, []).value, collate)
  }

  lemma ObservedMeans(world: World, codec: Codec, collate: Order<string>, repository: string, action: Action)
    requires Execute(world, codec, collate, repository, action).Ok?
    ensures var files := Observed(world, codec, collate, repository, action);
      && Gathered(world, codec, action.maxFiles, files) && AllBelow(action.allowedPaths, files) && files != []
      && (forall p :: Has(files, p) <==> WantedByAny(world, action.allowedPaths, p))
      && forall s :: s in action.allowedPaths ==> ProperScope(world, s)
  {
    var loaded := LoadScopes(world, codec, action.maxFiles, action.allowedPaths, []).value;
    LoadScopesGathers(world, codec, action.maxFiles, action.allowedPaths, []);
    SortedIsGathered(world, codec, action.maxFiles, loaded, collate);
    var files := SortByPath(loaded, collate);
    forall k | 0 <= k < |files| ensures FilePath(files[k].path) && InScope(files[k].path, action.allowedPaths) {
      assert Has(files, files[k].path);
      WantedIsBelow(world, action.allowedPaths, files[k].path);
    }
  }

  /** Whatever the executor observes, the independent verifier accepts, over exactly as many files. */
  lemma VerifierAcceptsExecutor(world: World, codec: Codec, collate: Order<string>, repository: string, action: Action)
    requires IsTotalPreorder(collate) && WellFormedAction(action) && forall r :: IsDigest(codec.seal(r))
    requires Execute(world, codec, collate, repository, action).Ok?
    ensures var result := Execute(world, codec, collate, repository, action).value;
            Verify(world, codec, collate, action, ObservationOf(action, result)) == Ok(|Observed(world, codec, collate, repository, action)|)
  {
    var files := Observed(world, codec, collate, repository, action);
    ObservedMeans(world, codec, collate, repository, action);
    SortTwice(LoadScopes(world, codec, action.maxFiles, action.allowedPaths, []).value, collate);
    forall k | 0 <= k < |action.allowedPaths| ensures FilePath(action.allowedPaths[k]) {
      assert ProperScope(world, action.allowedPaths[k]);
    }
    SortedFilesVerify(world, codec, collate, action, files);
  }

  lemma SortedFilesVerify(world: World, codec: Codec, collate: Order<string>, action: Action, files: seq<FileDigest>)
    requires VerifiableAction(action) && Gathered(world, codec, action.maxFiles, files) && AllBelow(action.allowedPaths, files)
    requires files != [] && SortByPath(files, collate) == files && IsDigest(codec.seal(RecordFor(action, files)))
    ensures Verify(world, codec, collate, action, ObservationOf(action, ResultOf(codec, action, files))) == Ok(|files|)
  {
    PathsAreReadOff(action, files);
    ReadBackGathers(world, codec, files);
  }

  lemma SortTwice(files: seq<FileDigest>, collate: Order<string>)
    requires IsTotalPreorder(collate)
    ensures SortByPath(SortByPath(files, collate), collate) == SortByPath(files, collate)
  {
    var le := (x, y) => ByPath(collate, x, y);
    SortSorts(files, le);
    SortOfSorted(Sort(files, le), le);
  }

  /**
   Whatever repository the verifier reads, if it accepts the executor's observation then every
   observed file is there unchanged: same path, same size, same digest.
   */
  lemma AcceptanceMeansUnchanged(world: World, other: World, codec: Codec, collate: Order<string>, repository: string,
                                 action: Action)
    requires IsTotalPreorder(collate) && Injective(codec.seal)
    requires Execute(world, codec, collate, repository, action).Ok?
    requires Verify(other, codec, collate, action, ObservationOf(action, Execute(world, codec, collate, repository, action).value)).Ok?
    ensures forall p :: WantedByAny(world, action.allowedPaths, p) ==> FileAt(other, codec, p).Some? && FileAt(other, codec, p) == FileAt(world, codec, p)
  {
    var files := Observed(world, codec, collate, repository, action);
    ObservedMeans(world, codec, collate, repository, action);
    PathsAreReadOff(action, files);
    var read := ReadBack(other, codec, PathsOf(files)).value;
    assert SortByPath(read, collate) == files;
    ReadBackReads(other, codec, PathsOf(files));
    FilesInBoth(world, other, codec, action.maxFiles, collate, files, read);
  }

  /** Files read in one repository that sort to those read in another are there in both. */
  lemma FilesInBoth(world: World, other: World, codec: Codec, max: int, collate: Order<string>, files: seq<FileDigest>,
                    read: seq<FileDigest>)
    requires Gathered(world, codec, max, files) && SortByPath(read, collate) == files
    requires forall f :: f in read ==> FileAt(other, codec, f.path) == Some(f)
    ensures forall p :: Has(files, p) ==> FileAt(other, codec, p).Some? && FileAt(other, codec, p) == FileAt(world, codec, p)
  {
    SortKeepsElements(read, (x, y) => ByPath(collate, x, y));
    forall p | Has(files, p)
      ensures FileAt(other, codec, p).Some? && FileAt(other, codec, p) == FileAt(world, codec, p)
    {
      var k :| 0 <= k < |files| && files[k].path == p;
      assert files[k] in read;
    }
  }

  lemma {:induction false} ReadBackReads(world: World, codec: Codec, paths: seq<string>)
    requires ReadBack(world, codec, paths).Ok?
    ensures forall f :: f in ReadBack(world, codec, paths).value ==> FileAt(world, codec, f.path) == Some(f)
    decreases |paths|
  {
    if paths != [] {
      ReadBackReads(world, codec, paths[..|paths| - 1]);
    }
  }

  // ---------------------------------------------------------------- what the gateway makes of it

  lemma {:induction false} SegmentsHoldChars(s: string, k: nat) returns (j: nat)
    requires k < |s| && s[k] != '/'
    ensures j < |Segments(s)| && s[k] in Segments(s)[j]
    decreases |s|
  {
    var rest := Segments(s[1..]);
    if k == 0 {
      j := 0;
      assert Segments(s)[0][0] == s[0];
    } else {
      var i := SegmentsHoldChars(s[1..], k - 1);
      if s[0] == '/' {
        j := i + 1;
        assert Segments(s)[j] == rest[i];
      } else {
        j := i;
        assert i > 0 ==> Segments(s)[j] == rest[i];
        assert i == 0 ==> Segments(s)[0] == [s[0]] + rest[0];
      }
    }
  }

  lemma RepositoryChars(s: string)
    requires IsRepository(s)
    ensures forall k :: 0 <= k < |s| ==> IsReferenceChar(s[k])
  {
    forall k | 0 <= k < |s| ensures IsReferenceChar(s[k]) {
      if s[k] != '/' {
        var j := SegmentsHoldChars(s, k);
        var part := Segments(s)[j];
        var i :| 0 <= i < |part| && part[i] == s[k];
        assert IsNameChar(part[i]);
      }
    }
  }

  /** An evidence reference of the executor is one to the gateway exactly when it is short enough. */
  lemma ReferenceExactly(action: Action, path: string)
    requires IsRepository(action.repository) && IsSha(action.appHead) && FilePath(path)
    ensures IsReference(EvidencePrefix(action) + path) <==> |action.repository| + 42 + |path| <= 300
  {
    RepositoryChars(action.repository);
    var r := EvidencePrefix(action) + path;
    var repository, sha := action.repository, action.appHead;
    var n := 7 + |repository|;
    assert r == "github:" + (repository + ("@" + (sha + ("#" + path))));
    forall k | 7 <= k < |r| ensures IsReferenceChar(r[k]) {
      if k < n {
        assert r[k] == repository[k - 7];
      } else if n < k < n + 41 {
        assert r[k] == sha[k - n - 1];
      } else if k > n + 41 {
        assert r[k] == path[k - n - 42] && IsPathChar(path[k - n - 42]);
      }
    }
    assert r[0] == 'g';
  }

  predicate ShortEnough(action: Action, path: string) {
    |action.repository| + 42 + |path| <= 300
  }

  lemma ResultAcceptedExactly(codec: Codec, action: Action, files: seq<FileDigest>, grant: Grant)
    requires IsRepository(action.repository) && IsSha(action.appHead) && IsDigest(codec.seal(RecordFor(action, files)))
    requires 1 <= |files| <= 30 && forall k :: 0 <= k < |files| ==> FilePath(files[k].path)
    ensures ValidResult(ResultOf(codec, action, files), grant) <==> forall k :: 0 <= k < |files| ==> ShortEnough(action, files[k].path)
  {
    var references := References(action, files);
    forall k | 0 <= k < |files| ensures IsReference(references[k]) <==> ShortEnough(action, files[k].path) {
      ReferenceExactly(action, files[k].path);
    }
    if ValidResult(ResultOf(codec, action, files), grant) {
      forall k | 0 <= k < |files| ensures ShortEnough(action, files[k].path) {
        assert IsReference(references[k]);
      }
    }
  }

  /**
   A successful inspection is taken by the gateway exactly when no reference exceeds the 300
   characters the gateway and the journal allow; the executor does not check that.
   */
  lemma GatewayAcceptsExactly(world: World, codec: Codec, collate: Order<string>, repository: string, action: Action,
                              grant: Grant)
    requires Execute(world, codec, collate, repository, action).Ok? && forall r :: IsDigest(codec.seal(r))
    ensures ValidResult(Execute(world, codec, collate, repository, action).value, grant) <==>
            forall p :: WantedByAny(world, action.allowedPaths, p) ==> ShortEnough(action, p)
  {
    var files := Observed(world, codec, collate, repository, action);
    ObservedMeans(world, codec, collate, repository, action);
    ResultAcceptedExactly(codec, action, files, grant);
    ShortAlike(world, action, files);
  }

  lemma ShortAlike(world: World, action: Action, files: seq<FileDigest>)
    requires forall p :: Has(files, p) <==> WantedByAny(world, action.allowedPaths, p)
    ensures (forall k :: 0 <= k < |files| ==> ShortEnough(action, files[k].path)) <==>
            forall p :: WantedByAny(world, action.allowedPaths, p) ==> ShortEnough(action, p)
  {
    forall k | 0 <= k < |files| ensures WantedByAny(world, action.allowedPaths, files[k].path) {
      assert Has(files, files[k].path);
    }
    forall p | WantedByAny(world, action.allowedPaths, p) ensures exists k :: 0 <= k < |files| && files[k].path == p {
      assert Has(files, p);
    }
  }

  // ---------------------------------------------------------------- exactly when the two programs succeed

  /** The files, each once and within the bounds, that these scopes contribute. */
  ghost predicate Contribute(world: World, codec: Codec, action: Action, files: seq<FileDigest>) {
    && Gathered(world, codec, action.maxFiles, files)
    && forall p :: Has(files, p) <==> WantedByAny(world, action.allowedPaths, p)
  }

  /** A report on files: their digest, a reference to each in the order of their paths, no tokens and nothing touched. */
  ghost predicate ReportsFiles(codec: Codec, collate: Order<string>, action: Action, result: AttemptResult,
                               files: seq<FileDigest>) {
    && result.success && result.filesTouched == [] && result.tokensUsed == 0
    && (forall i, j :: 0 <= i < j < |files| ==> collate(files[i].path, files[j].path))
    && result.observationDigest
       == codec.seal(InspectionRecord(action.projectId, action.repository, action.appHead, action.nodeId, action.mode, files))
    && |result.evidenceReferences| == |files|
    && forall k :: 0 <= k < |files| ==>
         result.evidenceReferences[k] == "github:" + action.repository + "@" + action.appHead + "#" + files[k].path
  }

  /**
   An inspection is carried out exactly for an executable action whose scopes are all proper and
   contribute some files within the bounds; and it reports exactly those.
   */
  lemma ExecutesExactly(world: World, codec: Codec, collate: Order<string>, repository: string, action: Action)
    requires IsTotalPreorder(collate)
    ensures var r := Execute(world, codec, collate, repository, action);
      && (r.Ok? <==>
            && ExecutableAction(action, repository) && (forall s :: s in action.allowedPaths ==> ProperScope(world, s))
            && exists files :: files != [] && Contribute(world, codec, action, files))
      && (r.Ok? ==> exists files :: Contribute(world, codec, action, files) && ReportsFiles(codec, collate, action, r.value, files))
  {
    if Execute(world, codec, collate, repository, action).Ok? {
      var files := Observed(world, codec, collate, repository, action);
      ObservedMeans(world, codec, collate, repository, action);
      ObservedSorted(world, codec, collate, repository, action);
      assert Contribute(world, codec, action, files);
    }
    if ExecutableAction(action, repository) && (forall s :: s in action.allowedPaths ==> ProperScope(world, s))
       && exists files :: files != [] && Contribute(world, codec, action, files)
    {
      var files: seq<FileDigest> :| files != [] && Contribute(world, codec, action, files);
      LoadScopesSucceeds(world, codec, action.maxFiles, action.allowedPaths, [], files);
      LoadScopesGathers(world, codec, action.maxFiles, action.allowedPaths, []);
      assert Has(files, files[0].path);
      var loaded := LoadScopes(world, codec, action.maxFiles, action.allowedPaths, []).value;
      assert Has(loaded, files[0].path);
    }
  }

  lemma ObservedSorted(world: World, codec: Codec, collate: Order<string>, repository: string, action: Action)
    requires IsTotalPreorder(collate) && Execute(world, codec, collate, repository, action).Ok?
    ensures ReportsFiles(codec, collate, action, Execute(world, codec, collate, repository, action).value,
                         Observed(world, codec, collate, repository, action))
  {
    var le := (x, y) => ByPath(collate, x, y);
    var files := Observed(world, codec, collate, repository, action);
    SortSorts(LoadScopes(world, codec, action.maxFiles, action.allowedPaths, []).value, le);
    forall i, j | 0 <= i < j < |files| ensures collate(files[i].path, files[j].path) {
      assert le(files[i], files[j]);
    }
  }

  /** The references name these paths, all proper and in scope. */
  ghost predicate NamePaths(action: Action, references: seq<string>, paths: seq<string>) {
    && |paths| == |references|
    && forall k :: 0 <= k < |paths| ==>
         && references[k] == EvidencePrefix(action) + paths[k] && FilePath(paths[k]) && InScope(paths[k], action.allowedPaths)
  }

  lemma {:induction false} PathsNamed(action: Action, references: seq<string>)
    ensures EvidencePaths(action, references).Ok? ==> NamePaths(action, references, EvidencePaths(action, references).value)
  {
    if references != [] {
      var reference, prefix := references[|references| - 1], EvidencePrefix(action);
      PathsNamed(action, references[..|references| - 1]);
      if StartsWith(reference, prefix) {
        assert reference == prefix + reference[|prefix|..];
      }
    }
  }

  lemma {:induction false} NamedPathsRead(action: Action, references: seq<string>, paths: seq<string>)
    requires NamePaths(action, references, paths)
    ensures EvidencePaths(action, references) == Ok(paths)
    decreases |references|
  {
    if references == [] {
      assert paths == [];
    } else {
      var n := |references| - 1;
      NamedPathsRead(action, references[..n], paths[..n]);
      assert (EvidencePrefix(action) + paths[n])[|EvidencePrefix(action)|..] == paths[n];
      assert paths == paths[..n] + [paths[n]];
    }
  }

  /** The files that stand at these paths. */
  ghost predicate StandAt(world: World, codec: Codec, paths: seq<string>, files: seq<FileDigest>) {
    |files| == |paths| && forall k :: 0 <= k < |paths| ==> FileAt(world, codec, paths[k]) == Some(files[k])
  }

  lemma {:induction false} ReadsBackExactly(world: World, codec: Codec, paths: seq<string>, files: seq<FileDigest>)
    ensures ReadBack(world, codec, paths) == Ok(files) <==> StandAt(world, codec, paths, files) && SumBytes(files) <= MAX_TOTAL_BYTES
    decreases |paths|
  {
    if paths == [] {
      assert files == [] <==> |files| == 0;
    } else {
      var n := |paths| - 1;
      if files == [] {
        ReadsBackSome(world, codec, paths);
      } else {
        var m := |files| - 1;
        ReadsBackExactly(world, codec, paths[..n], files[..m]);
        StandStep(world, codec, paths, files);
        ReadBackStep(world, codec, paths, files);
      }
    }
  }

  lemma StandStep(world: World, codec: Codec, paths: seq<string>, files: seq<FileDigest>)
    requires paths != [] && files != []
    ensures var n, m := |paths| - 1, |files| - 1;
      StandAt(world, codec, paths, files) <==>
        StandAt(world, codec, paths[..n], files[..m]) && FileAt(world, codec, paths[n]) == Some(files[m])
  {
  }

  lemma {:induction false} ReadBackStep(world: World, codec: Codec, paths: seq<string>, files: seq<FileDigest>)
    requires paths != [] && files != []
    ensures var n, m := |paths| - 1, |files| - 1;
      ReadBack(world, codec, paths) == Ok(files) <==>
        && ReadBack(world, codec, paths[..n]) == Ok(files[..m]) && FileAt(world, codec, paths[n]) == Some(files[m])
        && SumBytes(files[..m]) + files[m].bytes <= MAX_TOTAL_BYTES
  {
    assert files == files[..|files| - 1] + [files[|files| - 1]];
  }

  lemma {:induction false} ReadsBackSome(world: World, codec: Codec, paths: seq<string>)
    ensures ReadBack(world, codec, paths).Ok? ==> |ReadBack(world, codec, paths).value| == |paths|
  {
    if paths != [] {
      ReadsBackSome(world, codec, paths[..|paths| - 1]);
    }
  }

  /** The record is that of a successful attempt that seals these files as read now, and touches and spends nothing. */
  ghost predicate Confirms(world: World, codec: Codec, collate: Order<string>, action: Action, o: AttemptRecord,
                           paths: seq<string>, files: seq<FileDigest>) {
    && NamePaths(action, o.evidenceReferences, paths) && Distinct(paths) && 1 <= |paths| <= action.maxFiles
    && StandAt(world, codec, paths, files) && SumBytes(files) <= MAX_TOTAL_BYTES
    && var digest := codec.seal(RecordFor(action, SortByPath(files, collate)));
       IsDigest(digest) && o == AttemptRecord(action.attempt, Succeeded, Some(digest), o.evidenceReferences, [], 0)
  }

  /**
   An observation is verified exactly for a verifiable action, when it records a success and names
   different files in scope that can be read back within the bounds and have the digest it says.
   */
  lemma VerifiesExactly(world: World, codec: Codec, collate: Order<string>, action: Action, o: AttemptRecord)
    ensures Verify(world, codec, collate, action, o).Ok? <==>
      && VerifiableAction(action)
      && exists paths, files :: Confirms(world, codec, collate, action, o, paths, files)
    ensures Verify(world, codec, collate, action, o).Ok? ==> Verify(world, codec, collate, action, o).value == |o.evidenceReferences|
  {
    if Verify(world, codec, collate, action, o).Ok? {
      var paths := EvidencePaths(action, o.evidenceReferences).value;
      var files := ReadBack(world, codec, paths).value;
      PathsNamed(action, o.evidenceReferences);
      ReadsBackExactly(world, codec, paths, files);
      assert Confirms(world, codec, collate, action, o, paths, files);
    }
    if VerifiableAction(action) && exists paths, files :: Confirms(world, codec, collate, action, o, paths, files) {
      var paths, files :| Confirms(world, codec, collate, action, o, paths, files);
      NamedPathsRead(action, o.evidenceReferences, paths);
      ReadsBackExactly(world, codec, paths, files);
    }
  }

  // ---------------------------------------------------------------- an inspection the gateway refuses

  /** A repository of one file without content. */
  function EmptyFileOnly(path: string): World {
    p => if p == path then Single(Payload("file", path, Some(0), Some(""))) else Unavailable
  }

  /** The inspection of one empty file succeeds, and the gateway refuses it when the reference is too long. */
  lemma LongReferenceIsRefused(codec: Codec, collate: Order<string>, action: Action, path: string, grant: Grant)
    requires ExecutableAction(action, action.repository) && action.allowedPaths == [path] && FilePath(path)
    requires codec.decode("") == Some([]) && forall r :: IsDigest(codec.seal(r))
    requires !ShortEnough(action, path)
    ensures var r := Execute(EmptyFileOnly(path), codec, collate, action.repository, action);
            r.Ok? && !ValidResult(r.value, grant)
  {
    var world := EmptyFileOnly(path);
    var file := FileDigest(path, 0, codec.hash([]));
    assert FileAt(world, codec, path) == Some(file);
    assert SumBytes([]) == 0;
    assert LoadScope(world, codec, action.maxFiles, path, []) == Ok([] + [file]);
    assert LoadScopes(world, codec, action.maxFiles, [], [] + [file]) == Ok([] + [file]);
    assert LoadScopes(world, codec, action.maxFiles, [path], []) == Ok([] + [file]);
    assert Wanted(world, path, path) && path in action.allowedPaths;
    GatewayAcceptsExactly(world, codec, collate, action.repository, action, grant);
  }

  /** A node id as a path of one segment. */
  lemma SampleNode()
    ensures IsId("inspect") && FilePath("inspect") && IsProjectId("project:aa")
  {
    PlainPath("inspect");
  }

  /** An owner and a name of ten characters and a path of 240 make the reference too long. */
  lemma SomeLongAction() returns (action: Action, path: string)
    ensures WellFormedAction(action) && IsProjectId(action.projectId) && IsId(action.nodeId)
    ensures ExecutableAction(action, action.repository) && action.allowedPaths == [path] && FilePath(path)
    ensures !ShortEnough(action, path)
  {
    var owner, name, sha, digest := Repeat('a', 10), Repeat('b', 10), Repeat('0', 40), "sha256:" + Repeat('0', 64);
    assert IsDigest(digest);
    path := Repeat('c', 240);
    SampleNode();
    PlainRepository(owner, name);
    PlainPath(path);
    action := Action(digest, "project:aa", owner + "/" + name, sha, "inspect", INSPECT, [path], 1, 1);
  }

  /** Some proper action is carried out in some repository, and the gateway refuses its result under every grant. */
  lemma SomeInspectionIsRefused(codec: Codec, collate: Order<string>, grant: Grant) returns (world: World, action: Action)
    requires codec.decode("") == Some([]) && forall r :: IsDigest(codec.seal(r))
    ensures WellFormedAction(action) && IsProjectId(action.projectId) && IsId(action.nodeId)
    ensures var r := Execute(world, codec, collate, action.repository, action); r.Ok? && !ValidResult(r.value, grant)
  {
    var path;
    action, path := SomeLongAction();
    world := EmptyFileOnly(path);
    LongReferenceIsRefused(codec, collate, action, path, grant);
  }
}
