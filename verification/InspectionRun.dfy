/** The executor and the verifier as they run: loops over scopes, listings and references. */
module InspectionRun {
  import opened Wrappers
  import opened Paths
  import opened Ordering
  import opened Execution
  import opened Inspection
  import opened Sets

  /** What one execution accumulates. */
  class Gathering {
    var seen: set<string>
    var files: seq<FileDigest>
    var total: int

    ghost predicate Valid()
      reads this
    {
      total == SumBytes(files) && forall p :: p in seen <==> Has(files, p)
    }

    constructor ()
      ensures Valid() && files == []
    {
      seen, files, total := {}, [], 0;
    }

    /** Loads a file, from the answer already at hand if there is one. */
    method LoadFile(world: World, codec: Codec, max: int, path: string, payload: Option<Payload>)
      returns (fault: Option<Fault>)
      requires Valid() && (payload.Some? ==> world(path) == Single(payload.value))
      modifies this
      ensures Valid()
      ensures match Inspection.LoadFile(world, codec, max, path, old(files))
              case Ok(loaded) => fault == None && files == loaded
              case Err(f) => fault == Some(f) && files == old(files)
    {
      if path in seen { return None; }
      if |files| >= max { return Some(FileBudgetExceeded); }
      var answer := if payload.Some? then Single(payload.value) else world(path);
      if !answer.Single? { return Some(NoBoundedFile); }
      var candidate := answer.payload;
      if candidate.kind != "file" || candidate.path != path || candidate.size.None?
         || !(0 <= candidate.size.value <= MAX_FILE_BYTES) {
        return Some(NoBoundedFile);
      }
      var body := if candidate.content.Some? then answer else world(path);
      if !body.Single? || body.payload.kind != "file" || body.payload.path != path
         || body.payload.content.None? || |body.payload.content.value| > MAX_CONTENT {
        return Some(NoBoundedFile);
      }
      var bytes := codec.decode(body.payload.content.value);
      if bytes.None? || |bytes.value| != candidate.size.value { return Some(NoBoundedFile); }
      if total + |bytes.value| > MAX_TOTAL_BYTES { return Some(TotalExceeded); }
      var file := FileDigest(path, |bytes.value|, codec.hash(bytes.value));
      HasSnoc(files, file);
      assert (files + [file])[..|files|] == files;
      seen, files, total := seen + {path}, files + [file], total + |bytes.value|;
      fault := None;
    }

    method LoadScope(world: World, codec: Codec, max: int, scope: string) returns (fault: Option<Fault>)
      requires Valid()
      modifies this
      ensures Valid()
      ensures match Inspection.LoadScope(world, codec, max, scope, old(files))
              case Ok(loaded) => fault == None && files == loaded
              case Err(f) => fault == Some(f)
    {
      if !FilePath(scope) { return Some(UnsafePath); }
      var response := world(scope);
      match response {
        case Unavailable => return Some(SourceUnavailable);
        case Single(payload) =>
          fault := LoadFile(world, codec, max, scope, Some(payload));
          return;
        case Listing(entries) =>
          if |entries| > MAX_LISTING { return Some(ListingTooLarge); }
          if Misshapen(entries) { return Some(MalformedListing); }
          var k := 0;
          while k < |entries|
            invariant k <= |entries| && Valid()
            invariant LoadEntries(world, codec, max, scope, entries, old(files)) == LoadEntries(world, codec, max, scope, entries[k..], files)
          {
            var entry := entries[k];
            assert entry in entries;
            if entry.kind == "file" {
              if !DirectlyBelow(scope, entry.path) { return Some(EscapesScope); }
              var loading := LoadFile(world, codec, max, entry.path, None);
              if loading.Some? { return loading; }
            }
            k := k + 1;
          }
          fault := None;
      }
    }
  }

  method ExecuteAction(world: World, codec: Codec, collate: Order<string>, repository: string, action: Action)
    returns (r: Result<AttemptResult, Fault>)
    ensures r == Execute(world, codec, collate, repository, action)
  {
    if !ExecutableAction(action, repository) { return Err(InvalidAction); }
    var gathering := new Gathering();
    var k := 0;
    while k < |action.allowedPaths|
      invariant k <= |action.allowedPaths| && gathering.Valid()
      invariant LoadScopes(world, codec, action.maxFiles, action.allowedPaths, [])
                == LoadScopes(world, codec, action.maxFiles, action.allowedPaths[k..], gathering.files)
    {
      var fault := gathering.LoadScope(world, codec, action.maxFiles, action.allowedPaths[k]);
      if fault.Some? { return Err(fault.value); }
      k := k + 1;
    }
    if gathering.files == [] { return Err(NothingObserved); }
    r := Ok(ResultOf(codec, action, SortByPath(gathering.files, collate)));
  }

  method VerifyObservation(world: World, codec: Codec, collate: Order<string>, action: Action, o: AttemptRecord)
    returns (r: Result<nat, Fault>)
    ensures r == Verify(world, codec, collate, action, o)
  {
    if !VerifiableAction(action) { return Err(InvalidAction); }
    if !ConsistentObservation(action, o) { return Err(InconsistentObservation); }
    var paths := EvidencePaths(action, o.evidenceReferences);
    if paths.Err? { return Err(paths.error); }
    if !Distinct(paths.value) { return Err(DuplicateEvidence); }
    var read := ReadAll(world, codec, paths.value);
    if read.Err? { return Err(read.error); }
    var sorted := SortByPath(read.value, collate);
    if codec.seal(RecordFor(action, sorted)) != o.observationDigest.value { return Err(DigestMismatch); }
    r := Ok(|sorted|);
  }

  /** One file read back, in bounds and as long as it says. */
  method ReadFile(world: World, codec: Codec, path: string) returns (r: Option<FileDigest>)
    ensures r == FileAt(world, codec, path)
  {
    var answer := world(path);
    if !answer.Single? || answer.payload.kind != "file" || answer.payload.path != path
       || answer.payload.size.None? || !(0 <= answer.payload.size.value <= MAX_FILE_BYTES)
       || answer.payload.content.None? || |answer.payload.content.value| > MAX_CONTENT {
      return None;
    }
    var bytes := codec.decode(answer.payload.content.value);
    if bytes.None? || |bytes.value| != answer.payload.size.value { return None; }
    r := Some(FileDigest(path, |bytes.value|, codec.hash(bytes.value)));
  }

  method ReadAll(world: World, codec: Codec, paths: seq<string>) returns (r: Result<seq<FileDigest>, Fault>)
    ensures r == ReadBack(world, codec, paths)
  {
    var files: seq<FileDigest>, total := [], 0;
    for k := 0 to |paths|
      invariant ReadBack(world, codec, paths[..k]) == Ok(files) && total == SumBytes(files)
    {
      assert paths[..k + 1][..k] == paths[..k];
      var fault: Option<Fault> := None;
      var file := ReadFile(world, codec, paths[k]);
      if file.None? {
        fault := Some(NoBoundedFile);
      } else {
        total := total + file.value.bytes;
        if total > MAX_TOTAL_BYTES {
          fault := Some(TotalExceeded);
        } else {
          assert (files + [file.value])[..|files|] == files;
          files := files + [file.value];
        }
      }
      if fault.Some? {
        FaultStays(world, codec, paths, k + 1);
        return Err(fault.value);
      }
    }
    assert paths[..|paths|] == paths;
    r := Ok(files);
  }

  /** The first fault is the fault of the whole. */
  lemma {:induction false} FaultStays(world: World, codec: Codec, paths: seq<string>, k: nat)
    requires k <= |paths| && ReadBack(world, codec, paths[..k]).Err?
    ensures ReadBack(world, codec, paths) == ReadBack(world, codec, paths[..k])
    decreases |paths|
  {
    if k == |paths| {
      assert paths[..k] == paths;
    } else {
      assert paths[..|paths| - 1][..k] == paths[..k];
      FaultStays(world, codec, paths[..|paths| - 1], k);
    }
  }
}
