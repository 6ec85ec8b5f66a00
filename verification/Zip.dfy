/**
 The reader of proof archives: it finds the end of the ZIP directory, walks the directory,
 and returns the accepted entries. Every read of a number lies inside the bytes, whatever
 the bytes are: the readers below demand it and Dafny checks every call.
 */
module Zip {
  import opened Wrappers
  import opened Numbers

  type Byte = b: int | 0 <= b < 256

  type Bytes = seq<Byte>

  const MAX_ARCHIVE := 80000000
  const MAX_ENTRY := 2000000
  const MAX_COUNT := 2048
  const END_MARK := 0x06054b50
  const ENTRY_MARK := 0x02014b50
  const LOCAL_MARK := 0x04034b50

  /** Two bytes, the low one first. */
  function U16(b: Bytes, at: int): (n: nat)
    requires 0 <= at <= |b| - 2
    ensures n < 0x10000
  {
    b[at] as int + 0x100 * b[at + 1] as int
  }

  /** Four bytes, the lowest first. */
  function U32(b: Bytes, at: int): (n: nat)
    requires 0 <= at <= |b| - 4
    ensures n < 0x1_0000_0000
  {
    U16(b, at) + 0x10000 * U16(b, at + 2)
  }

  function Ascii(s: string): (b: Bytes)
    ensures |b| == |s|
  {
    seq(|s|, k requires 0 <= k < |s| => s[k] as int % 256)
  }

  const ACCEPTED := {
    Ascii("artifacts/constitution-1.3-candidate.json"), Ascii("artifacts/constitution-1.3-authority-set.json"),
    Ascii("artifacts/constitution-authority-set.json"), Ascii("artifacts/release-gate-evidence.json")
  }

  /** What is outside the reader: the digest, the checksum, inflation and parsing. */
  datatype Codec<!J> = Codec(digest: Bytes -> string, crc: Bytes -> nat, inflate: Bytes -> Option<Bytes>, parse: Bytes -> Option<J>)

  datatype Fault = DigestOrSize | UnsupportedDirectory | DirectoryBounds | InvalidEntry | EntryBounds
                 | UnsupportedEntry | LocalMismatch | ChecksumOrSize | NotParsed | DirectoryResidue

  /** Scans backwards from a position for the end mark, over the last 65557 bytes. */
  function ScanBack(b: Bytes, end: int): (r: int)
    requires end <= |b| - 22
    ensures r <= end
    ensures r >= 0 || r == end || r == -1
    decreases end
  {
    if end >= Max(0, |b| - 65557) && U32(b, end) != END_MARK then ScanBack(b, end - 1) else end
  }

  /** The directory: `end` is where it stops, `start` where it begins. */
  datatype Directory = Directory(count: nat, size: nat, start: nat, end: nat)

  predicate EndRecord(b: Bytes, end: int)
    requires end <= |b| - 22
  {
    && end >= 0 && U32(b, end) == END_MARK && end + 22 + U16(b, end + 20) == |b|
    && U16(b, end + 4) == 0 && U16(b, end + 6) == 0
  }

  function FindDirectory(b: Bytes): Result<Directory, Fault> {
    var end := ScanBack(b, |b| - 22);
    if !EndRecord(b, end) then Err(UnsupportedDirectory)
    else
      var d := Directory(U16(b, end + 10), U32(b, end + 12), U32(b, end + 16), end);
      if U16(b, end + 8) != d.count || d.count < 1 || d.count > MAX_COUNT || d.start + d.size != end then Err(DirectoryBounds) else Ok(d)
  }

  /** The fixed part of a directory entry. */
  datatype Entry = Entry(flags: nat, compression: nat, crc: nat, compressed: nat, uncompressed: nat, name: Bytes, local: nat, next: nat)

  predicate EntryFits(b: Bytes, at: nat, end: nat)
    requires end <= |b|
  {
    && at + 46 <= end
    && at + 46 + U16(b, at + 28) + U16(b, at + 30) + U16(b, at + 32) <= end
  }

  function EntryAt(b: Bytes, at: nat, end: nat): Entry
    requires end <= |b| && EntryFits(b, at, end)
  {
    var nameLength := U16(b, at + 28);
    Entry(U16(b, at + 8), U16(b, at + 10), U32(b, at + 16), U32(b, at + 20), U32(b, at + 24),
          b[at + 46..at + 46 + nameLength], U32(b, at + 42), at + 46 + nameLength + U16(b, at + 30) + U16(b, at + 32))
  }

  /** Where the data of an entry begins, by its local header. */
  function DataStart(b: Bytes, local: nat): nat
    requires local + 30 <= |b|
  {
    local + 30 + U16(b, local + 26) + U16(b, local + 28)
  }

  function LocalName(b: Bytes, local: nat): Bytes
    requires local + 30 <= |b|
  {
    Clip(b, local + 30, local + 30 + U16(b, local + 26))
  }

  /** `subarray` of a range that may run past the end. */
  function Clip(b: Bytes, from: nat, to: nat): Bytes
    requires from <= to
  {
    if from > |b| then [] else if to > |b| then b[from..] else b[from..to]
  }

  /** The decoded data of an accepted entry; its payload must end before the directory. */
  function Decode<J>(b: Bytes, codec: Codec<J>, limit: nat, e: Entry, duplicate: bool): Result<J, Fault> {
    if duplicate || e.flags % 2 == 1 || e.compression !in {0, 8} || e.uncompressed > MAX_ENTRY || e.local + 30 > |b|
       || U32(b, e.local) != LOCAL_MARK || U16(b, e.local + 8) != e.compression then Err(UnsupportedEntry)
    else
      var start := DataStart(b, e.local);
      if LocalName(b, e.local) != e.name || start + e.compressed > limit then Err(LocalMismatch)
      else
        var data := Clip(b, start, start + e.compressed);
        var decoded := if e.compression == 8 then codec.inflate(data) else Some(data);
        if decoded.None? || |decoded.value| != e.uncompressed || codec.crc(decoded.value) != e.crc then Err(ChecksumOrSize)
        else
          match codec.parse(decoded.value)
          case None => Err(NotParsed)
          case Some(json) => Ok(json)
  }

  /** How an accepted entry is decoded, given whether its name was seen before. */
  type Decoder<!J> = (Entry, bool) -> Result<J, Fault>

  /** The entries from a position on; what was read so far is `result`. */
  function ReadEntries<J>(b: Bytes, decode: Decoder<J>, left: nat, at: nat, end: nat,
                          result: map<Bytes, J>): Result<map<Bytes, J>, Fault>
    requires end <= |b|
    decreases left
  {
    if left == 0 then (if at != end then Err(DirectoryResidue) else Ok(result))
    else if at + 46 > end || U32(b, at) != ENTRY_MARK then Err(InvalidEntry)
    else if !EntryFits(b, at, end) then Err(EntryBounds)
    else
      var e := EntryAt(b, at, end);
      if e.name !in ACCEPTED then ReadEntries(b, decode, left - 1, e.next, end, result)
      else
        match decode(e, e.name in result)
        case Err(f) => Err(f)
        case Ok(json) => ReadEntries(b, decode, left - 1, e.next, end, result[e.name := json])
  }

  function DecoderOf<J>(b: Bytes, codec: Codec<J>, limit: nat): Decoder<J> {
    (e, duplicate) => Decode(b, codec, limit, e, duplicate)
  }

  function ReadArchive<J>(b: Bytes, digest: string, codec: Codec<J>): Result<map<Bytes, J>, Fault> {
    if |b| > MAX_ARCHIVE || "sha256:" + codec.digest(b) != digest then Err(DigestOrSize)
    else
      match FindDirectory(b)
      case Err(f) => Err(f)
      case Ok(d) => ReadEntries(b, DecoderOf(b, codec, d.start), d.count, d.start, d.end, map[])
  }

  // ---------------------------------------------------------------- the reader, in place

  method ReadConstitutionArtifactZip<J>(b: Bytes, digest: string, codec: Codec<J>) returns (r: Result<map<Bytes, J>, Fault>)
    ensures r == ReadArchive(b, digest, codec)
  {
    if |b| > MAX_ARCHIVE || "sha256:" + codec.digest(b) != digest { return Err(DigestOrSize); }
    var located := LocateDirectory(b);
    if located.Err? { return Err(located.error); }
    var d := located.value;
    r := WalkDirectory(b, DecoderOf(b, codec, d.end - d.size), d.count, d.start, d.end);
  }

  method LocateDirectory(b: Bytes) returns (r: Result<Directory, Fault>)
    ensures r == FindDirectory(b) && (r.Ok? ==> r.value.start + r.value.size == r.value.end <= |b|)
  {
    var end := |b| - 22;
    while end >= Max(0, |b| - 65557) && U32(b, end) != END_MARK
      invariant end <= |b| - 22 && ScanBack(b, |b| - 22) == ScanBack(b, end)
    {
      end := end - 1;
    }
    if end < 0 || U32(b, end) != END_MARK || end + 22 > |b| || end + 22 + U16(b, end + 20) != |b|
       || U16(b, end + 4) != 0 || U16(b, end + 6) != 0 {
      return Err(UnsupportedDirectory);
    }
    var count, size, position := U16(b, end + 10), U32(b, end + 12), U32(b, end + 16);
    if U16(b, end + 8) != count || count < 1 || count > MAX_COUNT || position + size != end { return Err(DirectoryBounds); }
    r := Ok(Directory(count, size, position, end));
  }

  method WalkDirectory<J>(b: Bytes, decode: Decoder<J>, count: nat, start: nat, end: nat)
    returns (r: Result<map<Bytes, J>, Fault>)
    requires end <= |b|
    ensures r == ReadEntries(b, decode, count, start, end, map[])
  {
    var position, result: map<Bytes, J> := start, map[];
    for i := 0 to count
      invariant 0 <= position
      invariant ReadEntries(b, decode, count, start, end, map[]) == ReadEntries(b, decode, count - i, position, end, result)
    {
      if position + 46 > end || U32(b, position) != ENTRY_MARK { return Err(InvalidEntry); }
      var nameLength, extra, comment := U16(b, position + 28), U16(b, position + 30), U16(b, position + 32);
      if position + 46 + nameLength + extra + comment > end { return Err(EntryBounds); }
      var entry := EntryAt(b, position, end);
      position := position + 46 + nameLength + extra + comment;
      if entry.name in ACCEPTED {
        var decoded := decode(entry, entry.name in result);
        if decoded.Err? { return Err(decoded.error); }
        result := result[entry.name := decoded.value];
      }
    }
    if position != end { return Err(DirectoryResidue); }
    r := Ok(result);
  }

  // ---------------------------------------------------------------- what a successful read means

  /** So many entries fill the directory from a position to its end exactly, one after the other. */
  predicate Tiles(b: Bytes, left: nat, at: nat, end: nat)
    requires end <= |b|
    decreases left
  {
    if left == 0 then at == end
    else EntryFits(b, at, end) && U32(b, at) == ENTRY_MARK && Tiles(b, left - 1, EntryAt(b, at, end).next, end)
  }

  /** The entries in their order. */
  function Entries(b: Bytes, left: nat, at: nat, end: nat): seq<Entry>
    requires end <= |b| && Tiles(b, left, at, end)
    decreases left
  {
    if left == 0 then [] else [EntryAt(b, at, end)] + Entries(b, left - 1, EntryAt(b, at, end).next, end)
  }

  /** The accepted entries among these. */
  function Proofs(entries: seq<Entry>): seq<Entry> {
    if entries == [] then []
    else if entries[0].name in ACCEPTED then [entries[0]] + Proofs(entries[1..])
    else Proofs(entries[1..])
  }

  /** The proofs decode one after the other, under new names. */
  predicate AllDecode<J>(decode: Decoder<J>, proofs: seq<Entry>, taken: set<Bytes>) {
    proofs == [] ||
    (decode(proofs[0], proofs[0].name in taken).Ok? && AllDecode(decode, proofs[1..], taken + {proofs[0].name}))
  }

  /** What the proofs add to a result. */
  function Added<J>(decode: Decoder<J>, proofs: seq<Entry>, result: map<Bytes, J>): map<Bytes, J>
    requires AllDecode(decode, proofs, result.Keys)
  {
    if proofs == [] then result
    else
      var json := decode(proofs[0], proofs[0].name in result).value;
      assert result[proofs[0].name := json].Keys == result.Keys + {proofs[0].name};
      Added(decode, proofs[1..], result[proofs[0].name := json])
  }

  /** The entries are read exactly when they tile the directory and every accepted one decodes. */
  lemma {:induction false} EntriesReadExactly<J>(b: Bytes, decode: Decoder<J>, left: nat, at: nat, end: nat,
                                                 result: map<Bytes, J>)
    requires end <= |b|
    ensures ReadEntries(b, decode, left, at, end, result).Ok? <==>
            Tiles(b, left, at, end) && AllDecode(decode, Proofs(Entries(b, left, at, end)), result.Keys)
    ensures ReadEntries(b, decode, left, at, end, result).Ok? ==>
            ReadEntries(b, decode, left, at, end, result).value == Added(decode, Proofs(Entries(b, left, at, end)), result)
    decreases left
  {
    if left > 0 && at + 46 <= end && U32(b, at) == ENTRY_MARK && EntryFits(b, at, end) {
      var e := EntryAt(b, at, end);
      if e.name !in ACCEPTED {
        EntriesReadExactly(b, decode, left - 1, e.next, end, result);
      } else if decode(e, e.name in result).Ok? {
        var grown := result[e.name := decode(e, e.name in result).value];
        assert grown.Keys == result.Keys + {e.name};
        EntriesReadExactly(b, decode, left - 1, e.next, end, grown);
      }
    }
  }

  ghost predicate DistinctNames(entries: seq<Entry>) {
    forall i, j :: 0 <= i < j < |entries| ==> entries[i].name != entries[j].name
  }

  ghost predicate Named(proofs: seq<Entry>, name: Bytes) {
    exists k :: 0 <= k < |proofs| && proofs[k].name == name
  }

  /** A decoder that refuses duplicates. */
  ghost predicate RefusesDuplicates<J>(decode: Decoder<J>) {
    forall e :: decode(e, true).Err?
  }

  lemma NamedCons(proofs: seq<Entry>)
    requires proofs != []
    ensures forall name :: Named(proofs, name) <==> name == proofs[0].name || Named(proofs[1..], name)
  {
    forall name | Named(proofs[1..], name) ensures Named(proofs, name) {
      var k :| 0 <= k < |proofs[1..]| && proofs[1..][k].name == name;
      assert proofs[k + 1].name == name;
    }
    forall name | Named(proofs, name) && name != proofs[0].name ensures Named(proofs[1..], name) {
      var k :| 0 <= k < |proofs| && proofs[k].name == name;
      assert proofs[1..][k - 1].name == name;
    }
  }

  lemma DistinctCons(proofs: seq<Entry>)
    requires proofs != [] && DistinctNames(proofs[1..]) && !Named(proofs[1..], proofs[0].name)
    ensures DistinctNames(proofs)
  {
    var rest := proofs[1..];
    forall i, j | 0 <= i < j < |proofs| ensures proofs[i].name != proofs[j].name {
      assert rest[j - 1] == proofs[j];
      if i > 0 {
        assert rest[i - 1].name != rest[j - 1].name;
      }
    }
  }

  /** The result holds what was there and the decoded proofs, under distinct names, and nothing else. */
  lemma {:induction false} AddedMeans<J>(decode: Decoder<J>, proofs: seq<Entry>, result: map<Bytes, J>)
    requires RefusesDuplicates(decode) && AllDecode(decode, proofs, result.Keys)
    ensures var r := Added(decode, proofs, result);
      && DistinctNames(proofs)
      && (forall name :: Named(proofs, name) ==> name !in result)
      && r.Keys == result.Keys + (set e | e in proofs :: e.name)
      && (forall name :: name in result ==> r[name] == result[name])
      && forall e :: e in proofs ==> decode(e, false) == Ok(r[e.name])
    decreases |proofs|
  {
    if proofs != [] {
      var e, rest := proofs[0], proofs[1..];
      var grown := result[e.name := decode(e, e.name in result).value];
      assert grown.Keys == result.Keys + {e.name};
      AddedMeans(decode, rest, grown);
      NamedCons(proofs);
      assert (set x | x in proofs :: x.name) == {e.name} + set x | x in rest :: x.name by {
        assert proofs == [e] + rest;
      }
      DistinctCons(proofs);
      forall x | x in proofs ensures decode(x, false) == Ok(Added(decode, proofs, result)[x.name]) {
        assert x == e || x in rest;
      }
    }
  }

  /** What a payload is: bytes between its local header and the directory, checked against both headers. */
  ghost predicate SoundPayload<J>(b: Bytes, codec: Codec<J>, limit: nat, e: Entry, json: J) {
    && e.local + 30 <= |b| && LocalName(b, e.local) == e.name && e.uncompressed <= MAX_ENTRY
    && DataStart(b, e.local) + e.compressed <= limit <= |b|
    && exists decoded: Bytes ::
         && IsPayload(codec, e, b[DataStart(b, e.local)..DataStart(b, e.local) + e.compressed], decoded)
         && |decoded| == e.uncompressed && codec.crc(decoded) == e.crc && codec.parse(decoded) == Some(json)
  }

  ghost predicate IsPayload<J>(codec: Codec<J>, e: Entry, data: Bytes, decoded: Bytes) {
    if e.compression == 8 then codec.inflate(data) == Some(decoded) else e.compression == 0 && decoded == data
  }

  lemma DecodedIsSound<J>(b: Bytes, codec: Codec<J>, limit: nat, e: Entry)
    requires limit <= |b| && Decode(b, codec, limit, e, false).Ok?
    ensures SoundPayload(b, codec, limit, e, Decode(b, codec, limit, e, false).value)
  {
    var start := DataStart(b, e.local);
    var data := b[start..start + e.compressed];
    var decoded := if e.compression == 8 then codec.inflate(data).value else data;
    assert IsPayload(codec, e, data, decoded);
  }

  /**
   A successful read, of any bytes: the directory's entries tile it exactly, the result has the
   accepted names among them and no other, and every value comes from a payload before the directory.
   */
  lemma SuccessMeans<J>(b: Bytes, digest: string, codec: Codec<J>)
    requires ReadArchive(b, digest, codec).Ok?
    ensures FindDirectory(b).Ok?
    ensures var d := FindDirectory(b).value; var r := ReadArchive(b, digest, codec).value;
      && d.start + d.size == d.end && d.end + 22 <= |b| && Tiles(b, d.count, d.start, d.end)
      && var proofs := Proofs(Entries(b, d.count, d.start, d.end));
         && DistinctNames(proofs)
         && r.Keys == (set e | e in proofs :: e.name)
         && forall e :: e in proofs ==> SoundPayload(b, codec, d.start, e, r[e.name])
  {
    DirectoryRead(b, digest, codec);
    var d := FindDirectory(b).value;
    EntriesSound(b, codec, d, ReadArchive(b, digest, codec).value);
  }

  lemma DirectoryRead<J>(b: Bytes, digest: string, codec: Codec<J>)
    requires ReadArchive(b, digest, codec).Ok?
    ensures FindDirectory(b).Ok?
    ensures var d := FindDirectory(b).value;
      && d.start + d.size == d.end && d.end + 22 <= |b|
      && ReadEntries(b, DecoderOf(b, codec, d.start), d.count, d.start, d.end, map[]) == ReadArchive(b, digest, codec)
  {
  }

  lemma EntriesSound<J>(b: Bytes, codec: Codec<J>, d: Directory, r: map<Bytes, J>)
    requires d.start + d.size == d.end <= |b|
    requires ReadEntries(b, DecoderOf(b, codec, d.start), d.count, d.start, d.end, map[]) == Ok(r)
    ensures Tiles(b, d.count, d.start, d.end)
    ensures var proofs := Proofs(Entries(b, d.count, d.start, d.end));
      && DistinctNames(proofs) && r.Keys == (set e | e in proofs :: e.name)
      && forall e :: e in proofs ==> SoundPayload(b, codec, d.start, e, r[e.name])
  {
    EntriesAdd(b, DecoderOf(b, codec, d.start), d.count, d.start, d.end, r);
    DecodedAreSound(b, codec, d.start, Proofs(Entries(b, d.count, d.start, d.end)), r);
  }

  lemma EntriesAdd<J>(b: Bytes, decode: Decoder<J>, count: nat, start: nat, end: nat, r: map<Bytes, J>)
    requires end <= |b| && RefusesDuplicates(decode) && ReadEntries(b, decode, count, start, end, map[]) == Ok(r)
    ensures Tiles(b, count, start, end)
    ensures var proofs := Proofs(Entries(b, count, start, end));
      && DistinctNames(proofs) && r.Keys == (set e | e in proofs :: e.name)
      && forall e :: e in proofs ==> decode(e, false) == Ok(r[e.name])
  {
    EntriesReadExactly(b, decode, count, start, end, map[]);
    AddedMeans(decode, Proofs(Entries(b, count, start, end)), map[]);
  }

  lemma DecodedAreSound<J>(b: Bytes, codec: Codec<J>, limit: nat, proofs: seq<Entry>, r: map<Bytes, J>)
    requires limit <= |b|
    requires forall e :: e in proofs ==> e.name in r && DecoderOf(b, codec, limit)(e, false) == Ok(r[e.name])
    ensures forall e :: e in proofs ==> SoundPayload(b, codec, limit, e, r[e.name])
  {
    forall e | e in proofs ensures SoundPayload(b, codec, limit, e, r[e.name]) {
      assert DecoderOf(b, codec, limit)(e, false) == Decode(b, codec, limit, e, false);
      DecodedIsSound(b, codec, limit, e);
    }
  }
}
