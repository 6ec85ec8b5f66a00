/**
 Archives of stored entries, laid out as sections 4.3.7 (local headers), 4.3.12 (directory)
 and 4.3.16 (end record) of the ZIP application note say, and what the reader makes of them.
 */
module ZipLayout {
  import opened Wrappers
  import opened Zip

  function LE16(n: nat): (b: Bytes)
    requires n < 0x10000
    ensures |b| == 2
  {
    [n % 0x100, n / 0x100]
  }

  function LE32(n: nat): (b: Bytes)
    requires n < 0x1_0000_0000
    ensures |b| == 4
  {
    LE16(n % 0x10000) + LE16(n / 0x10000)
  }

  /** One stored entry; the reader ignores the fields named for what they hold. */
  datatype Stored = Stored(
    name: Bytes, data: Bytes, flags: nat, versions: Bytes, stamp: Bytes, attributes: Bytes,
    localExtra: Bytes, centralExtra: Bytes, comment: Bytes)

  predicate Proper<J>(s: Stored, codec: Codec<J>) {
    && |s.name| < 0x10000 && |s.data| < 0x1_0000_0000 && s.flags < 0x10000
    && |s.versions| == 4 && |s.stamp| == 4 && |s.attributes| == 8
    && |s.localExtra| < 0x10000 && |s.centralExtra| < 0x10000 && |s.comment| < 0x10000
    && codec.crc(s.data) < 0x1_0000_0000
  }

  function LocalSizes<J>(s: Stored, codec: Codec<J>): (b: Bytes)
    requires Proper(s, codec)
    ensures |b| == 16
  {
    s.stamp + LE32(codec.crc(s.data)) + LE32(|s.data|) + LE32(|s.data|)
  }

  function LocalNames(s: Stored): Bytes
    requires |s.name| < 0x10000 && |s.localExtra| < 0x10000
  {
    LE16(|s.name|) + (LE16(|s.localExtra|) + (s.name + (s.localExtra + s.data)))
  }

  /** A local header with its data. */
  function Local<J>(s: Stored, codec: Codec<J>): Bytes
    requires Proper(s, codec)
  {
    LE32(LOCAL_MARK) + ((s.versions[2..] + LE16(s.flags)) + (LE16(0) + (LocalSizes(s, codec) + LocalNames(s))))
  }

  function CentralNames(s: Stored, offset: nat): Bytes
    requires |s.name| < 0x10000 && |s.centralExtra| < 0x10000 && |s.comment| < 0x10000 && offset < 0x1_0000_0000
  {
    LE16(|s.name|) + (LE16(|s.centralExtra|) + (LE16(|s.comment|) + (s.attributes + (LE32(offset) + (s.name + (s.centralExtra + s.comment))))))
  }

  /** A directory entry for a local header at an offset. */
  function Central<J>(s: Stored, codec: Codec<J>, offset: nat): Bytes
    requires Proper(s, codec) && offset < 0x1_0000_0000
  {
    LE32(ENTRY_MARK) + (s.versions + (LE16(s.flags) + (LE16(0) + (s.stamp + (LE32(codec.crc(s.data)) + (LE32(|s.data|) + (LE32(|s.data|)
    + CentralNames(s, offset))))))))
  }

  /** How one entry is laid out: its local header with data, and its directory entry for an offset. */
  datatype Layout = Layout(local: Stored -> Bytes, central: (Stored, nat) -> Bytes)

  function LayoutOf<J>(codec: Codec<J>): Layout {
    Layout(s => if Proper(s, codec) then Local(s, codec) else [],
           (s, offset) => if Proper(s, codec) && offset < 0x1_0000_0000 then Central(s, codec, offset) else [])
  }

  function Locals(l: Layout, entries: seq<Stored>): Bytes {
    if entries == [] then [] else l.local(entries[0]) + Locals(l, entries[1..])
  }

  function Centrals(l: Layout, entries: seq<Stored>, offset: nat): Bytes {
    if entries == [] then []
    else l.central(entries[0], offset) + Centrals(l, entries[1..], offset + |l.local(entries[0])|)
  }

  function EndOfDirectory(count: nat, size: nat, start: nat, comment: Bytes): Bytes
    requires count < 0x10000 && size < 0x1_0000_0000 && start < 0x1_0000_0000 && |comment| < 0x10000
  {
    LE32(END_MARK) + (LE16(0) + (LE16(0) + (LE16(count) + (LE16(count) + (LE32(size) + (LE32(start) + (LE16(|comment|) + comment)))))))
  }

  // ---------------------------------------------------------------- reading pieces back

  /** The piece stands at this position. */
  ghost predicate At(b: Bytes, at: int, piece: Bytes) {
    0 <= at && at + |piece| <= |b| && b[at..at + |piece|] == piece
  }

  lemma Peel(b: Bytes, at: int, x: Bytes, y: Bytes)
    requires At(b, at, x + y)
    ensures At(b, at, x) && At(b, at + |x|, y)
  {
    assert b[at..at + |x|] == (x + y)[..|x|];
    assert b[at + |x|..at + |x| + |y|] == (x + y)[|x|..];
  }

  lemma Read16(b: Bytes, at: int, n: nat)
    requires n < 0x10000 && At(b, at, LE16(n))
    ensures U16(b, at) == n
  {
    var piece := b[at..at + 2];
    assert b[at] == piece[0] && b[at + 1] == piece[1];
  }

  lemma Read32(b: Bytes, at: int, n: nat)
    requires n < 0x1_0000_0000 && At(b, at, LE32(n))
    ensures U32(b, at) == n
  {
    Peel(b, at, LE16(n % 0x10000), LE16(n / 0x10000));
    Read16(b, at, n % 0x10000);
    Read16(b, at + 2, n / 0x10000);
  }

  /** What the reader sees of a directory entry. */
  function EntryFor<J>(s: Stored, codec: Codec<J>, offset: nat, next: nat): Entry {
    Entry(s.flags, 0, codec.crc(s.data), |s.data|, |s.data|, s.name, offset, next)
  }

  lemma CentralNamesRead(b: Bytes, at: nat, s: Stored, offset: nat)
    requires |s.name| < 0x10000 && |s.centralExtra| < 0x10000 && |s.comment| < 0x10000 && |s.attributes| == 8 && offset < 0x1_0000_0000
    requires At(b, at, CentralNames(s, offset))
    ensures |CentralNames(s, offset)| == 18 + |s.name| + |s.centralExtra| + |s.comment|
    ensures U16(b, at) == |s.name| && U16(b, at + 2) == |s.centralExtra| && U16(b, at + 4) == |s.comment|
    ensures U32(b, at + 14) == offset && At(b, at + 18, s.name)
  {
    var p5 := s.name + (s.centralExtra + s.comment);
    var p4 := LE32(offset) + p5;
    var p3 := s.attributes + p4;
    var p2 := LE16(|s.comment|) + p3;
    var p1 := LE16(|s.centralExtra|) + p2;
    Peel(b, at, LE16(|s.name|), p1);
    Peel(b, at + 2, LE16(|s.centralExtra|), p2);
    Peel(b, at + 4, LE16(|s.comment|), p3);
    Peel(b, at + 6, s.attributes, p4);
    Peel(b, at + 14, LE32(offset), p5);
    Peel(b, at + 18, s.name, s.centralExtra + s.comment);
    Read16(b, at, |s.name|);
    Read16(b, at + 2, |s.centralExtra|);
    Read16(b, at + 4, |s.comment|);
    Read32(b, at + 14, offset);
  }

  lemma CentralNumbersRead<J>(b: Bytes, at: nat, s: Stored, codec: Codec<J>, offset: nat)
    requires Proper(s, codec) && offset < 0x1_0000_0000 && At(b, at, Central(s, codec, offset))
    ensures |Central(s, codec, offset)| == 28 + |CentralNames(s, offset)| && At(b, at + 28, CentralNames(s, offset))
    ensures U32(b, at) == ENTRY_MARK && U16(b, at + 8) == s.flags && U16(b, at + 10) == 0
    ensures U32(b, at + 16) == codec.crc(s.data) && U32(b, at + 20) == |s.data| && U32(b, at + 24) == |s.data|
  {
    var crc, size := LE32(codec.crc(s.data)), LE32(|s.data|);
    var p8 := size + CentralNames(s, offset);
    var p7 := size + p8;
    var p6 := crc + p7;
    var p5 := s.stamp + p6;
    var p4 := LE16(0) + p5;
    var p3 := LE16(s.flags) + p4;
    Peel(b, at, LE32(ENTRY_MARK), s.versions + p3);
    Peel(b, at + 4, s.versions, p3);
    Peel(b, at + 8, LE16(s.flags), p4);
    Peel(b, at + 10, LE16(0), p5);
    Peel(b, at + 12, s.stamp, p6);
    Peel(b, at + 16, crc, p7);
    Peel(b, at + 20, size, p8);
    Peel(b, at + 24, size, CentralNames(s, offset));
    Read32(b, at, ENTRY_MARK);
    Read16(b, at + 8, s.flags);
    Read16(b, at + 10, 0);
    Read32(b, at + 16, codec.crc(s.data));
    Read32(b, at + 20, |s.data|);
    Read32(b, at + 24, |s.data|);
  }

  lemma CentralReads<J>(b: Bytes, at: nat, s: Stored, codec: Codec<J>, offset: nat, end: nat)
    requires Proper(s, codec) && offset < 0x1_0000_0000 && At(b, at, Central(s, codec, offset))
    requires at + |Central(s, codec, offset)| <= end <= |b|
    ensures U32(b, at) == ENTRY_MARK && EntryFits(b, at, end)
    ensures EntryAt(b, at, end) == EntryFor(s, codec, offset, at + |Central(s, codec, offset)|)
  {
    CentralNumbersRead(b, at, s, codec, offset);
    CentralNamesRead(b, at + 28, s, offset);
  }

  lemma LocalNamesRead(b: Bytes, at: nat, s: Stored)
    requires |s.name| < 0x10000 && |s.localExtra| < 0x10000 && At(b, at, LocalNames(s))
    ensures |LocalNames(s)| == 4 + |s.name| + |s.localExtra| + |s.data|
    ensures U16(b, at) == |s.name| && U16(b, at + 2) == |s.localExtra|
    ensures At(b, at + 4, s.name) && At(b, at + 4 + |s.name| + |s.localExtra|, s.data)
  {
    var p3 := s.localExtra + s.data;
    var p2 := s.name + p3;
    var p1 := LE16(|s.localExtra|) + p2;
    Peel(b, at, LE16(|s.name|), p1);
    Peel(b, at + 2, LE16(|s.localExtra|), p2);
    Peel(b, at + 4, s.name, p3);
    Peel(b, at + 4 + |s.name|, s.localExtra, s.data);
    Read16(b, at, |s.name|);
    Read16(b, at + 2, |s.localExtra|);
  }

  /** Where the parts of a local header stand. */
  lemma LocalReads<J>(b: Bytes, at: nat, s: Stored, codec: Codec<J>)
    requires Proper(s, codec) && At(b, at, Local(s, codec))
    ensures |Local(s, codec)| == 30 + |s.name| + |s.localExtra| + |s.data|
    ensures U32(b, at) == LOCAL_MARK && U16(b, at + 8) == 0
    ensures U16(b, at + 26) == |s.name| && U16(b, at + 28) == |s.localExtra|
    ensures At(b, at + 30, s.name) && At(b, at + 30 + |s.name| + |s.localExtra|, s.data)
  {
    var p3 := LocalSizes(s, codec) + LocalNames(s);
    var p2 := LE16(0) + p3;
    var p1 := s.versions[2..] + LE16(s.flags);
    Peel(b, at, LE32(LOCAL_MARK), p1 + p2);
    Peel(b, at + 4, p1, p2);
    Peel(b, at + 8, LE16(0), p3);
    Peel(b, at + 10, LocalSizes(s, codec), LocalNames(s));
    Read32(b, at, LOCAL_MARK);
    Read16(b, at + 8, 0);
    LocalNamesRead(b, at + 26, s);
  }

  // ---------------------------------------------------------------- the round trip

  /** The reading of entries, without any bytes of an archive. */
  function ReadStored<J>(entries: seq<Stored>, codec: Codec<J>, result: map<Bytes, J>): Result<map<Bytes, J>, Fault> {
    if entries == [] then Ok(result)
    else
      var s := entries[0];
      if s.name !in ACCEPTED then ReadStored(entries[1..], codec, result)
      else
        match DecodeStored(s, codec, s.name in result)
        case Err(f) => Err(f)
        case Ok(json) => ReadStored(entries[1..], codec, result[s.name := json])
  }

  function DecodeStored<J>(s: Stored, codec: Codec<J>, duplicate: bool): Result<J, Fault> {
    if duplicate || s.flags % 2 == 1 || |s.data| > MAX_ENTRY then Err(UnsupportedEntry)
    else
      match codec.parse(s.data)
      case None => Err(NotParsed)
      case Some(json) => Ok(json)
  }

  lemma LocalDecodes<J>(b: Bytes, at: nat, s: Stored, codec: Codec<J>, limit: nat, next: nat, duplicate: bool)
    requires Proper(s, codec) && At(b, at, Local(s, codec)) && at + |Local(s, codec)| <= limit <= |b|
    ensures Decode(b, codec, limit, EntryFor(s, codec, at, next), duplicate) == DecodeStored(s, codec, duplicate)
  {
    LocalReads(b, at, s, codec);
  }

  /** The decoder treats what stands at this offset as the stored entry. */
  ghost predicate EntryDecodes<J(!new)>(decode: Decoder<J>, s: Stored, codec: Codec<J>, offset: nat) {
    forall next, duplicate :: decode(EntryFor(s, codec, offset, next), duplicate) == DecodeStored(s, codec, duplicate)
  }

  ghost predicate LocalsDecode<J(!new)>(decode: Decoder<J>, l: Layout, entries: seq<Stored>, codec: Codec<J>, offset: nat) {
    entries == [] ||
    (EntryDecodes(decode, entries[0], codec, offset) && LocalsDecode(decode, l, entries[1..], codec, offset + |l.local(entries[0])|))
  }

  lemma LocalEntryDecodes<J(!new)>(b: Bytes, offset: nat, s: Stored, codec: Codec<J>, limit: nat)
    requires Proper(s, codec) && At(b, offset, LayoutOf(codec).local(s)) && offset + |LayoutOf(codec).local(s)| <= limit <= |b|
    ensures EntryDecodes(DecoderOf(b, codec, limit), s, codec, offset)
  {
    forall next, duplicate
      ensures DecoderOf(b, codec, limit)(EntryFor(s, codec, offset, next), duplicate) == DecodeStored(s, codec, duplicate)
    {
      LocalDecodes(b, offset, s, codec, limit, next, duplicate);
    }
  }

  /** Wherever this layout of a local header stands before the directory, it decodes. */
  ghost predicate LocalIsRead<J(!new)>(l: Layout, b: Bytes, limit: nat, decode: Decoder<J>, codec: Codec<J>, s: Stored) {
    forall offset: nat :: At(b, offset, l.local(s)) && offset + |l.local(s)| <= limit ==> EntryDecodes(decode, s, codec, offset)
  }

  lemma {:induction false} LaidOutLocalsDecode<J(!new)>(b: Bytes, l: Layout, entries: seq<Stored>, decode: Decoder<J>,
      codec: Codec<J>, offset: nat, limit: nat)
    requires forall s :: s in entries ==> LocalIsRead(l, b, limit, decode, codec, s)
    requires At(b, offset, Locals(l, entries)) && offset + |Locals(l, entries)| <= limit
    ensures LocalsDecode(decode, l, entries, codec, offset)
    decreases |entries|
  {
    if entries != [] {
      var s, rest := entries[0], entries[1..];
      Peel(b, offset, l.local(s), Locals(l, rest));
      assert LocalIsRead(l, b, limit, decode, codec, s);
      LaidOutLocalsDecode(b, l, rest, decode, codec, offset + |l.local(s)|, limit);
    }
  }

  /** The position holds a directory entry that reads as the stored entry. */
  ghost predicate SeenAt<J>(b: Bytes, at: nat, end: nat, s: Stored, codec: Codec<J>, offset: nat, next: nat) {
    && end <= |b| && EntryFits(b, at, end) && U32(b, at) == ENTRY_MARK
    && EntryAt(b, at, end) == EntryFor(s, codec, offset, next)
  }

  /** What is seen at a position: the stored entry, for a local header at an offset, up to the next position. */
  type Sight = (nat, Stored, nat, nat) -> bool

  ghost function SightOf<J>(b: Bytes, end: nat, codec: Codec<J>): Sight {
    (at: nat, s: Stored, offset: nat, next: nat) => SeenAt(b, at, end, s, codec, offset, next)
  }

  /** Wherever its directory entry stands before the end, the stored entry is seen. */
  ghost predicate Standing(b: Bytes, end: nat, l: Layout, sight: Sight, s: Stored) {
    forall at: nat, offset: nat, next: nat ::
      At(b, at, l.central(s, offset)) && next == at + |l.central(s, offset)| <= end && offset < 0x1_0000_0000 ==>
        sight(at, s, offset, next)
  }

  lemma StandingIsSeen<J(!new)>(b: Bytes, end: nat, codec: Codec<J>, s: Stored)
    requires Proper(s, codec) && end <= |b|
    ensures Standing(b, end, LayoutOf(codec), SightOf(b, end, codec), s)
  {
    var l, sight := LayoutOf(codec), SightOf(b, end, codec);
    forall at: nat, offset: nat, next: nat
      | At(b, at, l.central(s, offset)) && next == at + |l.central(s, offset)| <= end && offset < 0x1_0000_0000
      ensures sight(at, s, offset, next)
    {
      CentralReads(b, at, s, codec, offset, end);
    }
  }

  /** The directory from a position on is seen as the entries, whose local headers start at an offset. */
  ghost predicate Seen(l: Layout, sight: Sight, entries: seq<Stored>, offset: nat, at: nat, end: nat)
    decreases |entries|
  {
    if entries == [] then at == end
    else
      var next := at + |l.central(entries[0], offset)|;
      sight(at, entries[0], offset, next) && Seen(l, sight, entries[1..], offset + |l.local(entries[0])|, next, end)
  }

  lemma {:induction false} LaidOutEntriesSeen(b: Bytes, l: Layout, sight: Sight, entries: seq<Stored>, offset: nat,
                                              at: nat, end: nat)
    requires forall s :: s in entries ==> Standing(b, end, l, sight, s)
    requires offset + |Locals(l, entries)| < 0x1_0000_0000
    requires At(b, at, Centrals(l, entries, offset)) && end == at + |Centrals(l, entries, offset)|
    ensures Seen(l, sight, entries, offset, at, end)
    decreases |entries|
  {
    if entries != [] {
      var s, rest := entries[0], entries[1..];
      var after, next := offset + |l.local(s)|, at + |l.central(s, offset)|;
      Peel(b, at, l.central(s, offset), Centrals(l, rest, after));
      assert Standing(b, end, l, sight, s);
      LaidOutEntriesSeen(b, l, sight, rest, after, next, end);
    }
  }

  /** A walk over the directory: entries left, position, result so far. */
  type Walk<!J> = (nat, nat, map<Bytes, J>) -> Result<map<Bytes, J>, Fault>

  ghost function WalkOf<J>(b: Bytes, decode: Decoder<J>, end: nat): Walk<J>
    requires end <= |b|
  {
    (left: nat, at: nat, result: map<Bytes, J>) => ReadEntries(b, decode, left, at, end, result)
  }

  /** What one turn of the walk does with a stored entry. */
  ghost function TurnOf<J>(walk: Walk<J>, left: nat, next: nat, result: map<Bytes, J>, s: Stored, codec: Codec<J>):
    Result<map<Bytes, J>, Fault>
  {
    if s.name !in ACCEPTED then walk(left, next, result)
    else
      match DecodeStored(s, codec, s.name in result)
      case Err(f) => Err(f)
      case Ok(json) => walk(left, next, result[s.name := json])
  }

  /** The walk ends at the end, and takes the entries it sees one by one. */
  ghost predicate WalksAs<J(!new)>(walk: Walk<J>, decode: Decoder<J>, codec: Codec<J>, sight: Sight, end: nat) {
    && (forall result :: walk(0, end, result) == Ok(result))
    && forall left: nat, at: nat, result, s, offset: nat, next: nat ::
         sight(at, s, offset, next) && EntryDecodes(decode, s, codec, offset) ==>
           walk(left + 1, at, result) == TurnOf(walk, left, next, result, s, codec)
  }

  lemma ReaderWalks<J(!new)>(b: Bytes, decode: Decoder<J>, codec: Codec<J>, end: nat)
    requires end <= |b|
    ensures WalksAs(WalkOf(b, decode, end), decode, codec, SightOf(b, end, codec), end)
  {
    var walk, sight := WalkOf(b, decode, end), SightOf(b, end, codec);
    forall left: nat, at: nat, result, s, offset: nat, next: nat
      | sight(at, s, offset, next) && EntryDecodes(decode, s, codec, offset)
      ensures walk(left + 1, at, result) == TurnOf(walk, left, next, result, s, codec)
    {
      assert decode(EntryFor(s, codec, offset, next), s.name in result) == DecodeStored(s, codec, s.name in result);
    }
  }

  /** Entries laid out in an archive are read as if there were no archive. */
  lemma {:induction false} SeenEntriesRead<J(!new)>(walk: Walk<J>, l: Layout, sight: Sight, entries: seq<Stored>,
      codec: Codec<J>, decode: Decoder<J>, offset: nat, at: nat, end: nat, result: map<Bytes, J>)
    requires WalksAs(walk, decode, codec, sight, end)
    requires LocalsDecode(decode, l, entries, codec, offset) && Seen(l, sight, entries, offset, at, end)
    ensures walk(|entries|, at, result) == ReadStored(entries, codec, result)
    decreases |entries|
  {
    if entries != [] {
      var s, rest := entries[0], entries[1..];
      var after, next := offset + |l.local(s)|, at + |l.central(s, offset)|;
      var read := DecodeStored(s, codec, s.name in result);
      assert walk(|rest| + 1, at, result) == TurnOf(walk, |rest|, next, result, s, codec);
      if s.name !in ACCEPTED {
        SeenEntriesRead(walk, l, sight, rest, codec, decode, after, next, end, result);
      } else if read.Ok? {
        SeenEntriesRead(walk, l, sight, rest, codec, decode, after, next, end, result[s.name := read.value]);
      }
    }
  }

  /** An archive of these entries, with a comment at its end. */
  function Archive(l: Layout, entries: seq<Stored>, comment: Bytes): Bytes
    requires |entries| < 0x10000 && |comment| < 0x10000
    requires |Locals(l, entries)| < 0x1_0000_0000 && |Centrals(l, entries, 0)| < 0x1_0000_0000
  {
    var locals, directory := Locals(l, entries), Centrals(l, entries, 0);
    locals + (directory + EndOfDirectory(|entries|, |directory|, |locals|, comment))
  }

  /** No later position looks like an end record; a comment could. */
  predicate Unmarked(b: Bytes, end: int) {
    forall k :: 0 <= k && end < k <= |b| - 22 ==> U32(b, k) != END_MARK
  }

  lemma {:induction false} ScanFinds(b: Bytes, from: int, end: int)
    requires 0 <= end <= from <= |b| - 22 && end >= |b| - 65557
    requires U32(b, end) == END_MARK && Unmarked(b, end)
    ensures ScanBack(b, from) == end
    decreases from
  {
    if from > end {
      ScanFinds(b, from - 1, end);
    }
  }

  lemma EndReads(b: Bytes, at: nat, count: nat, size: nat, start: nat, comment: Bytes)
    requires count < 0x10000 && size < 0x1_0000_0000 && start < 0x1_0000_0000 && |comment| < 0x10000
    requires At(b, at, EndOfDirectory(count, size, start, comment)) && at + |EndOfDirectory(count, size, start, comment)| == |b|
    ensures |b| == at + 22 + |comment| && EndRecord(b, at)
    ensures U16(b, at + 8) == count && U16(b, at + 10) == count && U32(b, at + 12) == size && U32(b, at + 16) == start
  {
    var p7 := LE16(|comment|) + comment;
    var p6 := LE32(start) + p7;
    var p5 := LE32(size) + p6;
    var p4 := LE16(count) + p5;
    var p3 := LE16(count) + p4;
    var p2 := LE16(0) + p3;
    var p1 := LE16(0) + p2;
    Peel(b, at, LE32(END_MARK), p1);
    Peel(b, at + 4, LE16(0), p2);
    Peel(b, at + 6, LE16(0), p3);
    Peel(b, at + 8, LE16(count), p4);
    Peel(b, at + 10, LE16(count), p5);
    Peel(b, at + 12, LE32(size), p6);
    Peel(b, at + 16, LE32(start), p7);
    Peel(b, at + 20, LE16(|comment|), comment);
    Read32(b, at, END_MARK);
    Read16(b, at + 4, 0);
    Read16(b, at + 6, 0);
    Read16(b, at + 8, count);
    Read16(b, at + 10, count);
    Read32(b, at + 12, size);
    Read32(b, at + 16, start);
    Read16(b, at + 20, |comment|);
  }

  lemma PiecesStand(b: Bytes, locals: Bytes, directory: Bytes, record: Bytes)
    requires b == locals + (directory + record)
    ensures At(b, 0, locals) && At(b, |locals|, directory) && At(b, |locals| + |directory|, record)
  {
    assert At(b, 0, locals + (directory + record));
    Peel(b, 0, locals, directory + record);
    Peel(b, |locals|, directory, record);
  }

  /** The scan goes no further back than any mark it can reach. */
  lemma {:induction false} ScanStopsAt(b: Bytes, from: int, mark: int)
    requires 0 <= mark <= from <= |b| - 22 && mark >= |b| - 65557 && U32(b, mark) == END_MARK
    ensures ScanBack(b, from) >= mark
    decreases from
  {
    if from > mark {
      ScanStopsAt(b, from - 1, mark);
    }
  }

  /** A directory whose end record stands is the one found exactly when no mark stands after it. */
  lemma FoundExactly(b: Bytes, d: Directory)
    requires 1 <= d.count <= MAX_COUNT && d.end == d.start + d.size && |b| - 65557 <= d.end <= |b| - 22
    requires EndRecord(b, d.end)
    requires U16(b, d.end + 8) == d.count && U16(b, d.end + 10) == d.count
    requires U32(b, d.end + 12) == d.size && U32(b, d.end + 16) == d.start
    ensures FindDirectory(b) == Ok(d) <==> Unmarked(b, d.end)
  {
    if Unmarked(b, d.end) {
      ScanFinds(b, |b| - 22, d.end);
    } else {
      var k :| 0 <= k && d.end < k <= |b| - 22 && U32(b, k) == END_MARK;
      ScanStopsAt(b, |b| - 22, k);
    }
  }

  /** The directory of an archive is found exactly when no mark stands after its end record begins. */
  lemma DirectoryFound(b: Bytes, d: Directory, comment: Bytes)
    requires 1 <= d.count <= MAX_COUNT && d.size < 0x1_0000_0000 && d.start < 0x1_0000_0000 && |comment| < 0x10000
    requires d.end == d.start + d.size && |b| == d.end + |EndOfDirectory(d.count, d.size, d.start, comment)|
    requires At(b, d.end, EndOfDirectory(d.count, d.size, d.start, comment))
    ensures FindDirectory(b) == Ok(d) <==> Unmarked(b, d.end)
  {
    EndReads(b, d.end, d.count, d.size, d.start, comment);
    FoundExactly(b, d);
  }

  lemma DirectoryReads<J(!new)>(b: Bytes, l: Layout, entries: seq<Stored>, codec: Codec<J>, d: Directory)
    requires l == LayoutOf(codec) && (forall s :: s in entries ==> Proper(s, codec)) && d.count == |entries| && d.end <= |b|
    requires |Locals(l, entries)| == d.start < 0x1_0000_0000 && d.end == d.start + |Centrals(l, entries, 0)|
    requires At(b, 0, Locals(l, entries)) && At(b, d.start, Centrals(l, entries, 0))
    ensures ReadEntries(b, DecoderOf(b, codec, d.start), d.count, d.start, d.end, map[]) == ReadStored(entries, codec, map[])
  {
    var decode := DecoderOf(b, codec, d.start);
    forall s | s in entries ensures LocalIsRead(l, b, d.start, decode, codec, s) {
      forall offset: nat | At(b, offset, l.local(s)) && offset + |l.local(s)| <= d.start ensures EntryDecodes(decode, s, codec, offset) {
        LocalEntryDecodes(b, offset, s, codec, d.start);
      }
    }
    LaidOutLocalsDecode(b, l, entries, decode, codec, 0, d.start);
    var sight := SightOf(b, d.end, codec);
    forall s | s in entries ensures Standing(b, d.end, l, sight, s) {
      StandingIsSeen(b, d.end, codec, s);
    }
    LaidOutEntriesSeen(b, l, sight, entries, 0, d.start, d.end);
    ReaderWalks(b, decode, codec, d.end);
    SeenEntriesRead(WalkOf(b, decode, d.end), l, sight, entries, codec, decode, 0, d.start, d.end, map[]);
  }

  lemma OnceFound<J>(b: Bytes, digest: string, codec: Codec<J>, d: Directory)
    requires |b| <= MAX_ARCHIVE && digest == "sha256:" + codec.digest(b) && FindDirectory(b) == Ok(d) && d.end <= |b|
    ensures ReadArchive(b, digest, codec) == ReadEntries(b, DecoderOf(b, codec, d.start), d.count, d.start, d.end, map[])
  {
  }

  /** The directory an archive of these entries has. */
  function DirectoryOf(l: Layout, entries: seq<Stored>): Directory {
    var locals, directory := Locals(l, entries), Centrals(l, entries, 0);
    Directory(|entries|, |directory|, |locals|, |locals| + |directory|)
  }

  lemma ArchiveStands(l: Layout, entries: seq<Stored>, comment: Bytes, b: Bytes, d: Directory)
    requires 1 <= |entries| < 0x10000 && |comment| < 0x10000 && d == DirectoryOf(l, entries)
    requires |Locals(l, entries)| < 0x1_0000_0000 && |Centrals(l, entries, 0)| < 0x1_0000_0000
    requires b == Archive(l, entries, comment)
    ensures At(b, 0, Locals(l, entries)) && At(b, d.start, Centrals(l, entries, 0))
    ensures At(b, d.end, EndOfDirectory(d.count, d.size, d.start, comment))
    ensures |b| == d.end + |EndOfDirectory(d.count, d.size, d.start, comment)| == d.end + 22 + |comment|
  {
    PiecesStand(b, Locals(l, entries), Centrals(l, entries, 0), EndOfDirectory(d.count, d.size, d.start, comment));
    EndReads(b, d.end, d.count, d.size, d.start, comment);
  }

  /**
   The reader finds the directory of an archive exactly when no end mark stands after its end
   record begins, that is, in the record's own fields or in the comment; and then reading gives
   back exactly the stored entries of accepted names, or the refusal that the first bad one
   among them earns. An archive without a comment has no such position.
   */
  lemma ArchiveReadsBack<J(!new)>(entries: seq<Stored>, codec: Codec<J>, comment: Bytes, digest: string)
    requires (forall s :: s in entries ==> Proper(s, codec)) && 1 <= |entries| <= MAX_COUNT && |comment| < 0x10000
    requires |Locals(LayoutOf(codec), entries)| < 0x1_0000_0000 && |Centrals(LayoutOf(codec), entries, 0)| < 0x1_0000_0000
    requires var b := Archive(LayoutOf(codec), entries, comment); |b| <= MAX_ARCHIVE && digest == "sha256:" + codec.digest(b)
    ensures var b, d := Archive(LayoutOf(codec), entries, comment), DirectoryOf(LayoutOf(codec), entries);
      && (FindDirectory(b) == Ok(d) <==> Unmarked(b, d.end))
      && (Unmarked(b, d.end) ==> ReadArchive(b, digest, codec) == ReadStored(entries, codec, map[]))
      && (comment == [] ==> Unmarked(b, d.end))
  {
    var l := LayoutOf(codec);
    var b, d := Archive(l, entries, comment), DirectoryOf(l, entries);
    ArchiveStands(l, entries, comment, b, d);
    DirectoryFound(b, d, comment);
    if Unmarked(b, d.end) {
      DirectoryReads(b, l, entries, codec, d);
      OnceFound(b, digest, codec, d);
    }
  }

  // ---------------------------------------------------------------- a comment that hides the directory

  /** A comment that reads as the end record of an empty directory. */
  function BogusEnd(): (comment: Bytes)
    ensures |comment| == 22
  {
    LE32(END_MARK) + Zeros()
  }

  function Zeros(): (b: Bytes)
    ensures |b| == 18 && forall k :: 0 <= k < 18 ==> b[k] == 0
  {
    seq(18, _ => 0)
  }

  /** Whatever stands before such a comment, its directory is refused. */
  lemma BogusEndIsRefused(prefix: Bytes)
    ensures FindDirectory(prefix + BogusEnd()) == Err(DirectoryBounds)
  {
    var b := prefix + BogusEnd();
    var end := |prefix|;
    assert At(b, 0, prefix + BogusEnd());
    Peel(b, 0, prefix, BogusEnd());
    Peel(b, end, LE32(END_MARK), Zeros());
    Read32(b, end, END_MARK);
    forall k | end + 4 <= k < end + 22 ensures b[k] == 0 {
      assert b[k] == b[end + 4..end + 22][k - end - 4];
    }
    assert end == |b| - 22;
  }

  /** An archive with this comment ends in it. */
  lemma EndsBogus(l: Layout, entries: seq<Stored>) returns (prefix: Bytes)
    requires |entries| < 0x10000 && |Locals(l, entries)| < 0x1_0000_0000 && |Centrals(l, entries, 0)| < 0x1_0000_0000
    ensures Archive(l, entries, BogusEnd()) == prefix + BogusEnd()
    ensures |prefix| == |Locals(l, entries)| + |Centrals(l, entries, 0)| + 22
  {
    var locals, directory := Locals(l, entries), Centrals(l, entries, 0);
    var p1 := LE32(|directory|) + (LE32(|locals|) + LE16(22));
    var record := LE32(END_MARK) + (LE16(0) + (LE16(0) + (LE16(|entries|) + (LE16(|entries|) + p1))));
    prefix := locals + (directory + record);
    assert EndOfDirectory(|entries|, |directory|, |locals|, BogusEnd()) == record + BogusEnd();
  }

  /**
   A well laid out archive that the reader refuses: one good proof of an accepted name, and a
   comment that reads as an end record. Without the comment the proof is returned.
   */
  lemma CommentHidesProof<J(!new)>(s: Stored, codec: Codec<J>)
    requires Proper(s, codec) && s.name in ACCEPTED && DecodeStored(s, codec, false).Ok?
    ensures |Locals(LayoutOf(codec), [s])| < 0x1_0000_0000 && |Centrals(LayoutOf(codec), [s], 0)| < 0x1_0000_0000
    ensures var b := Archive(LayoutOf(codec), [s], BogusEnd());
      |b| <= MAX_ARCHIVE && ReadArchive(b, "sha256:" + codec.digest(b), codec) == Err(DirectoryBounds)
    ensures var b := Archive(LayoutOf(codec), [s], []);
      ReadArchive(b, "sha256:" + codec.digest(b), codec) == Ok(map[s.name := DecodeStored(s, codec, false).value])
  {
    OneEntrySizes(s, codec);
    var prefix := EndsBogus(LayoutOf(codec), [s]);
    BogusEndIsRefused(prefix);
    PlainArchiveReads(s, codec);
  }

  lemma PlainArchiveReads<J(!new)>(s: Stored, codec: Codec<J>)
    requires Proper(s, codec) && s.name in ACCEPTED && DecodeStored(s, codec, false).Ok?
    requires |Locals(LayoutOf(codec), [s])| <= 3000000 && |Centrals(LayoutOf(codec), [s], 0)| <= 1000000
    ensures var b := Archive(LayoutOf(codec), [s], []);
      ReadArchive(b, "sha256:" + codec.digest(b), codec) == Ok(map[s.name := DecodeStored(s, codec, false).value])
  {
    var l := LayoutOf(codec);
    var b := Archive(l, [s], []);
    ArchiveStands(l, [s], [], b, DirectoryOf(l, [s]));
    ArchiveReadsBack([s], codec, [], "sha256:" + codec.digest(b));
    assert ReadStored([s][1..], codec, map[s.name := DecodeStored(s, codec, false).value])
        == Ok(map[s.name := DecodeStored(s, codec, false).value]);
  }

  lemma OneEntrySizes<J>(s: Stored, codec: Codec<J>)
    requires Proper(s, codec) && |s.data| <= MAX_ENTRY
    ensures |Locals(LayoutOf(codec), [s])| <= 3000000 && |Centrals(LayoutOf(codec), [s], 0)| <= 1000000
  {
    var local, central := Local(s, codec), Central(s, codec, 0);
    assert At(local, 0, local) && At(central, 0, central);
    LocalReads(local, 0, s, codec);
    CentralNumbersRead(central, 0, s, codec, 0);
    CentralNamesRead(central, 28, s, 0);
    assert Locals(LayoutOf(codec), [s]) == local + Locals(LayoutOf(codec), [s][1..]);
    assert Centrals(LayoutOf(codec), [s], 0) == central + Centrals(LayoutOf(codec), [s][1..], |local|);
  }

  /** The accepted names read back hold what was stored under them, when no name repeats and every proof is good. */
  lemma {:induction false} StoredReadBack<J>(entries: seq<Stored>, codec: Codec<J>, result: map<Bytes, J>)
    requires forall s :: s in entries && s.name in ACCEPTED ==> DecodeStored(s, codec, false).Ok? && s.name !in result
    requires forall i, j :: 0 <= i < j < |entries| && entries[i].name in ACCEPTED ==> entries[i].name != entries[j].name
    ensures var r := ReadStored(entries, codec, result);
      && r.Ok?
      && (forall name :: name in result ==> name in r.value && r.value[name] == result[name])
      && (forall name :: name in r.value ==> name in result || exists s :: s in entries && s.name == name && name in ACCEPTED)
      && forall s :: s in entries && s.name in ACCEPTED ==> s.name in r.value && codec.parse(s.data) == Some(r.value[s.name])
    decreases |entries|
  {
    if entries != [] {
      var s, rest := entries[0], entries[1..];
      assert entries == [s] + rest;
      forall i, j | 0 <= i < j < |rest| && rest[i].name in ACCEPTED ensures rest[i].name != rest[j].name {
        assert entries[i + 1].name != entries[j + 1].name;
      }
      if s.name in ACCEPTED {
        forall t | t in rest && t.name in ACCEPTED ensures t.name != s.name {
          var j :| 0 <= j < |rest| && rest[j] == t;
          assert entries[0].name != entries[j + 1].name;
        }
        StoredReadBack(rest, codec, result[s.name := DecodeStored(s, codec, false).value]);
      } else {
        StoredReadBack(rest, codec, result);
      }
    }
  }
}
