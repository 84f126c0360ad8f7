/** The compact MC22 metadata of an MSR2 archive (and its MC21 predecessor): printer and parser. */
module CompactMetadata {
  import opened Bytes
  import opened DedupManifest
  import opened PackedLanes
  import U = CompactUint

  const MAGIC_V1: ByteString := [77, 67, 50, 49] // "MC21"
  const MAGIC_V2: ByteString := [77, 67, 50, 50] // "MC22"
  const MAX_FRAMES_PER_LANE := 1_000_000
  const LZMA2 := 0
  const RAW := 1
  const ZSTD := 2

  /** `codecs` is empty in the MC21 form, which always means LZMA2. */
  datatype Metadata = Metadata(
    manifest: Manifest, assignments: seq<Lane>, frameCounts: seq<nat>, codecs: seq<nat>)

  // ----- The syntax: entries with modification-time deltas, chunks without redundant fields

  datatype CompactEntry = CompactEntry(
    isDirectory: bool, path: ByteString, mode: nat, mtimeDelta: int, chunkCount: nat, digest: ByteString)

  datatype CompactChunk = Fresh(size: nat, digest: ByteString) | Duplicate(source: nat)

  datatype Compact = Compact(
    kind: Kind, rootName: ByteString, frameCounts: seq<nat>, codecs: seq<nat>,
    entries: seq<CompactEntry>, chunks: seq<CompactChunk>, assignments: seq<Lane>)

  function Bit(b: bool): nat {
    if b then 1 else 0
  }

  function PrintEntry(e: CompactEntry): ByteString {
    U.Print(2 * |e.path| + Bit(e.isDirectory)) + (e.path + (U.Print(e.mode) + (U.Print(U.Zigzag(e.mtimeDelta))
    + (if e.isDirectory then [] else U.Print(e.chunkCount) + e.digest))))
  }

  predicate EntryFits(e: CompactEntry) {
    && U.Fits(2 * |e.path| + 1) && U.Fits(e.mode) && FitsSigned(e.mtimeDelta, 8)
    && if e.isDirectory then e.chunkCount == 0 && e.digest == ZERO_HASH
       else U.Fits(e.chunkCount) && |e.digest| == DIGEST_BYTES
  }

  /** The chunk count and digest of a file; a directory has neither. */
  function TakeContent(isDirectory: bool, d: ByteString): Parsed<(nat, ByteString)> {
    if isDirectory then Parsed((0, ZERO_HASH), d) else
    var (count, d) :- U.Take(d);
    var (digest, d) :- TakeBytes(d, DIGEST_BYTES);
    Parsed((count, digest), d)
  }

  function TakeEntry(d: ByteString): Parsed<CompactEntry> {
    var (descriptor, d) :- U.Take(d);
    var (path, d) :- TakeBytes(d, descriptor / 2);
    var (mode, d) :- U.Take(d);
    var (zigzag, d) :- U.Take(d);
    var (content, d) :- TakeContent(descriptor % 2 == 1, d);
    Parsed(CompactEntry(descriptor % 2 == 1, path, mode, U.Unzigzag(zigzag), content.0, content.1), d)
  }

  function PrintChunk(c: CompactChunk): ByteString {
    match c
    case Fresh(size, digest) => [0] + (U.Print(size) + digest)
    case Duplicate(source) => [1] + U.Print(source)
  }

  predicate ChunkFits(c: CompactChunk) {
    match c
    case Fresh(size, digest) => U.Fits(size) && |digest| == DIGEST_BYTES
    case Duplicate(source) => U.Fits(source)
  }

  function TakeChunk(d: ByteString): Parsed<CompactChunk> {
    var (tag, d) :- TakeBytes(d, 1);
    if tag[0] == 0 then
      var (size, d) :- U.Take(d);
      var (digest, d) :- TakeBytes(d, DIGEST_BYTES);
      Parsed(Fresh(size, digest), d)
    else if tag[0] == 1 then
      var (source, d) :- U.Take(d);
      Parsed(Duplicate(source), d)
    else Malformed
  }

  function PrintHead(h: Head): ByteString {
    (if h.modern then MAGIC_V2 else MAGIC_V1)
    + (U.Print(2 * |h.rootName| + Bit(h.kind.KindFolder?)) + (h.rootName
    + (U.Print(h.entryCount) + U.Print(h.chunkCount))))
  }

  function HeadOf(c: Compact): Head {
    Head(c.codecs != [], c.kind, c.rootName, |c.entries|, |c.chunks|)
  }

  function PrintTables(c: Compact): ByteString {
    PrintHead(HeadOf(c)) + (PrintMany(U.Print, c.frameCounts) + (PrintMany(U.Print, c.codecs)
    + (PrintMany(PrintEntry, c.entries) + PrintMany(PrintChunk, c.chunks))))
  }

  function PrintCompact(c: Compact): ByteString {
    PrintTables(c) + Pack(c.assignments)
  }

  predicate HeadFits(h: Head) {
    U.Fits(2 * |h.rootName| + 1) && U.Fits(h.entryCount) && U.Fits(h.chunkCount)
  }

  predicate CompactFits(c: Compact) {
    && HeadFits(HeadOf(c))
    && |c.frameCounts| == LANE_COUNT && (c.codecs == [] || |c.codecs| == LANE_COUNT)
    && (forall n | n in c.frameCounts :: U.Fits(n))
    && (forall n | n in c.codecs :: U.Fits(n))
    && (forall e | e in c.entries :: EntryFits(e))
    && (forall x | x in c.chunks :: ChunkFits(x))
  }

  /** The fields in front of the tables. */
  datatype Head = Head(modern: bool, kind: Kind, rootName: ByteString, entryCount: nat, chunkCount: nat)

  function TakeHead(d: ByteString): Parsed<Head> {
    var (magic, d) :- TakeBytes(d, 4);
    var (descriptor, d) :- U.Take(d);
    var (rootName, d) :- TakeBytes(d, descriptor / 2);
    var (entryCount, d) :- U.Take(d);
    var (chunkCount, d) :- U.Take(d);
    if magic == MAGIC_V1 || magic == MAGIC_V2 then
      Parsed(Head(magic == MAGIC_V2, if descriptor % 2 == 1 then KindFolder else KindFile, rootName,
                  entryCount, chunkCount), d)
    else Malformed
  }

  /** Everything up to the packed assignments, whose number the public header gives. */
  function TakeTables(d: ByteString): Parsed<Compact> {
    var (head, d) :- TakeHead(d);
    var (frameCounts, d) :- TakeMany(U.Take, d, LANE_COUNT);
    var (codecs, d) :- TakeMany(U.Take, d, if head.modern then LANE_COUNT else 0);
    var (entries, d) :- TakeMany(TakeEntry, d, head.entryCount);
    var (chunks, d) :- TakeMany(TakeChunk, d, head.chunkCount);
    Parsed(Compact(head.kind, head.rootName, frameCounts, codecs, entries, chunks, []), d)
  }

  function ReadCompact(d: ByteString, uniqueCount: nat): Result<Compact> {
    match TakeTables(d)
    case Malformed => Err
    case Parsed(c, packed) =>
      if WellPacked(packed, uniqueCount) then Ok(c.(assignments := Unpack(packed, uniqueCount))) else Err
  }

  // ----- From compact tables to a manifest and back

  function SumDeltas(entries: seq<CompactEntry>): int {
    if entries == [] then 0 else SumDeltas(entries[..|entries| - 1]) + entries[|entries| - 1].mtimeDelta
  }

  function CountFileChunks(entries: seq<CompactEntry>): nat {
    if entries == [] then 0 else CountFileChunks(entries[..|entries| - 1]) + entries[|entries| - 1].chunkCount
  }

  function BuildEntry(entries: seq<CompactEntry>, chunks: seq<ChunkRecord>, i: nat): Entry
    requires i < |entries|
  {
    var e, first := entries[i], CountFileChunks(entries[..i]);
    var end := first + e.chunkCount;
    var mtime := SumDeltas(entries[..i + 1]);
    if e.isDirectory then Entry(true, e.path, e.mode, mtime, 0, 0, 0, ZERO_HASH)
    else Entry(false, e.path, e.mode, mtime, if end <= |chunks| then SumSizes(chunks[first..end]) else 0,
               first, e.chunkCount, e.digest)
  }

  function BuildEntries(entries: seq<CompactEntry>, chunks: seq<ChunkRecord>): (r: seq<Entry>)
    ensures |r| == |entries|
  {
    seq(|entries|, i requires 0 <= i < |entries| => BuildEntry(entries, chunks, i))
  }

  function BuildChunks(chunks: seq<CompactChunk>): (r: Result<seq<ChunkRecord>>)
    ensures r.Ok? ==> |r.value| == |chunks|
  {
    if chunks == [] then Ok([]) else
    var n := |chunks| - 1;
    match BuildChunks(chunks[..n])
    case Err => Err
    case Ok(built) =>
      match chunks[n]
      case Fresh(size, digest) => Ok(built + [ChunkRecord(digest, size, n)])
      case Duplicate(source) =>
        if source < n && built[source].source == source then
          Ok(built + [ChunkRecord(built[source].digest, built[source].size, source)])
        else Err
  }

  function CompactEntryOf(entries: seq<Entry>, i: nat): CompactEntry
    requires i < |entries|
  {
    var e := entries[i];
    CompactEntry(e.isDirectory, e.path, e.mode, e.mtimeNs - (if i == 0 then 0 else entries[i - 1].mtimeNs),
                 if e.isDirectory then 0 else e.chunkCount, if e.isDirectory then ZERO_HASH else e.digest)
  }

  function CompactEntries(entries: seq<Entry>): (r: seq<CompactEntry>)
    ensures |r| == |entries|
  {
    seq(|entries|, i requires 0 <= i < |entries| => CompactEntryOf(entries, i))
  }

  function CompactChunkOf(chunks: seq<ChunkRecord>, i: nat): CompactChunk
    requires i < |chunks|
  {
    if chunks[i].source == i then Fresh(chunks[i].size, chunks[i].digest) else Duplicate(chunks[i].source)
  }

  function CompactChunks(chunks: seq<ChunkRecord>): (r: seq<CompactChunk>)
    ensures |r| == |chunks|
  {
    seq(|chunks|, i requires 0 <= i < |chunks| => CompactChunkOf(chunks, i))
  }

  function ToCompact(m: Metadata): Compact {
    Compact(m.manifest.kind, m.manifest.rootName, m.frameCounts, m.codecs,
            CompactEntries(m.manifest.entries), CompactChunks(m.manifest.chunks), m.assignments)
  }

  function Print(m: Metadata): ByteString {
    PrintCompact(ToCompact(m))
  }

  /** The size of each lane: the unique chunks assigned to it. */
  function LaneSize(chunks: seq<ChunkRecord>, assignments: seq<Lane>, lane: Lane): nat {
    if chunks == [] then 0 else
    var n := |chunks| - 1;
    var k := CountUnique(chunks[..n]);
    LaneSize(chunks[..n], assignments, lane)
    + (if chunks[n].source == n && k < |assignments| && assignments[k] == lane then chunks[n].size else 0)
  }

  lemma LaneSizeSnoc(chunks: seq<ChunkRecord>, assignments: seq<Lane>, lane: Lane, n: nat)
    requires n < |chunks|
    ensures var k := CountUnique(chunks[..n]);
            LaneSize(chunks[..n + 1], assignments, lane) == LaneSize(chunks[..n], assignments, lane)
              + (if chunks[n].source == n && k < |assignments| && assignments[k] == lane then chunks[n].size else 0)
  {
    assert chunks[..n + 1][..n] == chunks[..n];
  }

  predicate CodecOk(lane: nat, codec: nat) {
    codec == LZMA2 || codec == RAW || (lane == 2 && codec == ZSTD)
  }

  /** The metadata a reader accepts for an archive whose header gives these two numbers. */
  ghost predicate Acceptable(rules: PathRules, maxChunkSize: nat, uniqueCount: nat, m: Metadata) {
    && WellFormed(rules, Limits(maxChunkSize, uniqueCount + 1), m.manifest) && Fits(m.manifest)
    && |m.assignments| == uniqueCount
    && |m.frameCounts| == LANE_COUNT && (m.codecs == [] || |m.codecs| == LANE_COUNT)
    && (forall n | n in m.frameCounts :: n <= MAX_FRAMES_PER_LANE)
    && (forall lane | 0 <= lane < |m.codecs| :: CodecOk(lane, m.codecs[lane]))
    && (forall e | e in CompactEntries(m.manifest.entries) :: FitsSigned(e.mtimeDelta, 8))
    && (forall lane: Lane :: LaneSize(m.manifest.chunks, m.assignments, lane) == 0 <==> m.frameCounts[lane] == 0)
  }

  ghost function ParseCompact(
      rules: PathRules, maxChunkSize: nat, uniqueCount: nat, d: ByteString): Result<Metadata>
  {
    match ReadCompact(d, uniqueCount)
    case Err => Err
    case Ok(c) =>
      match BuildChunks(c.chunks)
      case Err => Err
      case Ok(chunks) =>
        var manifest := Manifest(c.kind, c.rootName, BuildEntries(c.entries, chunks), chunks);
        var m := Metadata(manifest, c.assignments, c.frameCounts, c.codecs);
        if Acceptable(rules, maxChunkSize, uniqueCount, m) then Ok(m) else Err
  }

  // ----- The tables are read back exactly

  lemma TakeContentExact(d: ByteString, isDirectory: bool, count: nat, digest: ByteString, rest: ByteString)
    ensures TakeContent(isDirectory, d) == Parsed((count, digest), rest)
            <==> if isDirectory then count == 0 && digest == ZERO_HASH && d == rest
                 else U.Fits(count) && |digest| == DIGEST_BYTES && d == U.Print(count) + digest + rest
  {
    hide U.Take, U.Print, U.Fits, TakeBytes;
    if !isDirectory {
      assert U.Print(count) + digest + rest == U.Print(count) + (digest + rest);
      U.TakeAt(d, count, digest + rest);
      TakeBytesExact(digest + rest, DIGEST_BYTES, digest, rest);
      if TakeContent(isDirectory, d) == Parsed((count, digest), rest) {
        var p := U.Take(d);
        U.TakeAt(d, count, p.rest);
        TakeBytesExact(p.rest, DIGEST_BYTES, digest, rest);
      }
    }
  }

  lemma PrintedEntryReads(e: CompactEntry, rest: ByteString)
    requires EntryFits(e)
    ensures TakeEntry(PrintEntry(e) + rest) == Parsed(e, rest)
  {
    hide U.Take, U.Print, U.Zigzag, U.Unzigzag, TakeBytes, TakeContent, FitsSigned;
    var r4 := (if e.isDirectory then [] else U.Print(e.chunkCount) + e.digest) + rest;
    var r3 := U.Print(U.Zigzag(e.mtimeDelta)) + r4;
    var r2 := U.Print(e.mode) + r3;
    var r1 := e.path + r2;
    var descriptor := 2 * |e.path| + Bit(e.isDirectory);
    var d := U.Print(descriptor) + r1;
    assert PrintEntry(e) + rest == d;
    U.TakeAt(d, descriptor, r1);
    TakeBytesExact(r1, |e.path|, e.path, r2);
    U.TakeAt(r2, e.mode, r3);
    U.ZigzagIsBijective(e.mtimeDelta, U.Zigzag(e.mtimeDelta));
    U.TakeAt(r3, U.Zigzag(e.mtimeDelta), r4);
    assert e.isDirectory ==> r4 == rest;
    TakeContentExact(r4, e.isDirectory, e.chunkCount, e.digest, rest);
  }

  lemma ReadEntryPrints(d: ByteString, e: CompactEntry, rest: ByteString)
    requires TakeEntry(d) == Parsed(e, rest)
    ensures EntryFits(e) && d == PrintEntry(e) + rest
  {
    hide U.Take, U.Print, U.Zigzag, U.Unzigzag, TakeBytes, TakeContent, FitsSigned;
    var p1 := U.Take(d);
    U.TakeAt(d, p1.value, p1.rest);
    var p2 := TakeBytes(p1.rest, p1.value / 2);
    TakeBytesExact(p1.rest, p1.value / 2, e.path, p2.rest);
    assert p1.value == 2 * |e.path| + Bit(e.isDirectory);
    var p3 := U.Take(p2.rest);
    U.TakeAt(p2.rest, e.mode, p3.rest);
    var p4 := U.Take(p3.rest);
    U.TakeAt(p3.rest, p4.value, p4.rest);
    U.ZigzagIsBijective(e.mtimeDelta, p4.value);
    TakeContentExact(p4.rest, e.isDirectory, e.chunkCount, e.digest, rest);
  }

  lemma EntriesExact()
    ensures Exact(TakeEntry, PrintEntry, EntryFits)
  {
    hide TakeEntry, PrintEntry, EntryFits;
    forall d, e, rest
      ensures TakeEntry(d) == Parsed(e, rest) <==> EntryFits(e) && d == PrintEntry(e) + rest
    {
      if TakeEntry(d) == Parsed(e, rest) {
        ReadEntryPrints(d, e, rest);
      }
      if EntryFits(e) && d == PrintEntry(e) + rest {
        PrintedEntryReads(e, rest);
      }
    }
  }

  lemma TakeChunkExact(d: ByteString, c: CompactChunk, rest: ByteString)
    ensures TakeChunk(d) == Parsed(c, rest) <==> ChunkFits(c) && d == PrintChunk(c) + rest
  {
    hide U.Take, U.Print, U.Fits;
    if TakeChunk(d) == Parsed(c, rest) {
      var p := U.Take(d[1..]);
      assert d == [d[0]] + d[1..];
      match c
      case Fresh(size, digest) =>
        U.TakeAt(d[1..], size, p.rest);
        TakeBytesExact(p.rest, DIGEST_BYTES, digest, rest);
        assert PrintChunk(c) + rest == [0] + (U.Print(size) + (digest + rest));
      case Duplicate(source) =>
        U.TakeAt(d[1..], source, rest);
        assert PrintChunk(c) + rest == [1] + (U.Print(source) + rest);
    }
    if ChunkFits(c) && d == PrintChunk(c) + rest {
      match c
      case Fresh(size, digest) =>
        assert d == [0] + (U.Print(size) + (digest + rest));
        assert d[1..] == U.Print(size) + (digest + rest);
        U.TakeAt(d[1..], size, digest + rest);
        TakeBytesExact(digest + rest, DIGEST_BYTES, digest, rest);
      case Duplicate(source) =>
        assert d == [1] + (U.Print(source) + rest);
        assert d[1..] == U.Print(source) + rest;
        U.TakeAt(d[1..], source, rest);
    }
  }

  lemma ChunksExact()
    ensures Exact(TakeChunk, PrintChunk, ChunkFits)
  {
    hide TakeChunk, PrintChunk, ChunkFits;
    forall d, c, rest
      ensures TakeChunk(d) == Parsed(c, rest) <==> ChunkFits(c) && d == PrintChunk(c) + rest
    {
      TakeChunkExact(d, c, rest);
    }
  }

  lemma TakeHeadExact(d: ByteString, h: Head, rest: ByteString)
    ensures TakeHead(d) == Parsed(h, rest) <==> HeadFits(h) && d == PrintHead(h) + rest
  {
    hide U.Take, U.Print, TakeBytes;
    var magic := if h.modern then MAGIC_V2 else MAGIC_V1;
    var descriptor := 2 * |h.rootName| + Bit(h.kind.KindFolder?);
    var r4 := U.Print(h.chunkCount) + rest;
    var r3 := U.Print(h.entryCount) + r4;
    var r2 := h.rootName + r3;
    var r1 := U.Print(descriptor) + r2;
    assert PrintHead(h) + rest == magic + r1;
    if TakeHead(d) == Parsed(h, rest) {
      var p1 := TakeBytes(d, 4);
      TakeBytesExact(d, 4, p1.value, p1.rest);
      var p2 := U.Take(p1.rest);
      U.TakeAt(p1.rest, p2.value, p2.rest);
      var p3 := TakeBytes(p2.rest, p2.value / 2);
      TakeBytesExact(p2.rest, p2.value / 2, h.rootName, p3.rest);
      assert p2.value == descriptor;
      var p4 := U.Take(p3.rest);
      U.TakeAt(p3.rest, h.entryCount, p4.rest);
      U.TakeAt(p4.rest, h.chunkCount, rest);
    }
    if HeadFits(h) && d == PrintHead(h) + rest {
      TakeBytesExact(d, 4, magic, r1);
      U.TakeAt(r1, descriptor, r2);
      TakeBytesExact(r2, |h.rootName|, h.rootName, r3);
      U.TakeAt(r3, h.entryCount, r4);
      U.TakeAt(r4, h.chunkCount, rest);
    }
  }

  lemma PrintedTablesRead(c: Compact, rest: ByteString)
    requires CompactFits(c)
    ensures TakeTables(PrintTables(c) + rest) == Parsed(c.(assignments := []), rest)
  {
    hide U.Take, U.Print, U.Fits, TakeMany, PrintMany, TakeHead, PrintHead, HeadFits, EntryFits, ChunkFits;
    var r4 := PrintMany(PrintChunk, c.chunks) + rest;
    var r3 := PrintMany(PrintEntry, c.entries) + r4;
    var r2 := PrintMany(U.Print, c.codecs) + r3;
    var r1 := PrintMany(U.Print, c.frameCounts) + r2;
    var d := PrintHead(HeadOf(c)) + r1;
    assert PrintTables(c) + rest == d;
    TakeHeadExact(d, HeadOf(c), r1);
    U.TakeExact();
    TakeManyExact(U.Take, U.Print, U.Fits, r1, c.frameCounts, r2);
    TakeManyExact(U.Take, U.Print, U.Fits, r2, c.codecs, r3);
    EntriesExact();
    TakeManyExact(TakeEntry, PrintEntry, EntryFits, r3, c.entries, r4);
    ChunksExact();
    TakeManyExact(TakeChunk, PrintChunk, ChunkFits, r4, c.chunks, rest);
  }

  lemma ReadTablesPrint(d: ByteString, c: Compact, rest: ByteString)
    requires TakeTables(d) == Parsed(c, rest)
    ensures c.assignments == [] && CompactFits(c) && d == PrintTables(c) + rest
  {
    hide U.Take, U.Print, U.Fits, TakeMany, PrintMany, TakeHead, PrintHead, HeadFits, EntryFits, ChunkFits;
    var p1 := TakeHead(d);
    TakeHeadExact(d, p1.value, p1.rest);
    var codecCount := if p1.value.modern then LANE_COUNT else 0;
    U.TakeExact();
    var p2 := TakeMany(U.Take, p1.rest, LANE_COUNT);
    TakeManyLength(U.Take, p1.rest, LANE_COUNT);
    TakeManyExact(U.Take, U.Print, U.Fits, p1.rest, c.frameCounts, p2.rest);
    var p3 := TakeMany(U.Take, p2.rest, codecCount);
    TakeManyLength(U.Take, p2.rest, codecCount);
    TakeManyExact(U.Take, U.Print, U.Fits, p2.rest, c.codecs, p3.rest);
    var p4 := TakeMany(TakeEntry, p3.rest, p1.value.entryCount);
    TakeManyLength(TakeEntry, p3.rest, p1.value.entryCount);
    EntriesExact();
    TakeManyExact(TakeEntry, PrintEntry, EntryFits, p3.rest, c.entries, p4.rest);
    TakeManyLength(TakeChunk, p4.rest, p1.value.chunkCount);
    ChunksExact();
    TakeManyExact(TakeChunk, PrintChunk, ChunkFits, p4.rest, c.chunks, rest);
    assert p1.value == HeadOf(c);
  }

  lemma ReadCompactExact(d: ByteString, n: nat, c: Compact)
    ensures ReadCompact(d, n) == Ok(c) <==> CompactFits(c) && |c.assignments| == n && d == PrintCompact(c)
  {
    hide TakeTables, PrintTables, CompactFits, Pack, Unpack, WellPacked;
    if ReadCompact(d, n) == Ok(c) {
      var p := TakeTables(d);
      ReadTablesPrint(d, p.value, p.rest);
      PackUnpack(p.rest, n);
      SameTables(p.value, c);
    }
    if CompactFits(c) && |c.assignments| == n && d == PrintCompact(c) {
      PrintedTablesRead(c, Pack(c.assignments));
      UnpackPack(c.assignments);
      assert c.(assignments := []).(assignments := c.assignments) == c;
    }
  }

  lemma SameTables(c: Compact, c': Compact)
    requires c'.(assignments := c.assignments) == c
    ensures PrintTables(c) == PrintTables(c') && (CompactFits(c) <==> CompactFits(c'))
  {
  }

  // ----- Nothing the compact form leaves out is lost

  lemma {:induction false} RebuiltChunks(chunks: seq<ChunkRecord>, limits: Limits, n: nat)
    requires n <= |chunks| && forall i | 0 <= i < n :: ChunkOk(limits, chunks, i)
    ensures BuildChunks(CompactChunks(chunks)[..n]) == Ok(chunks[..n])
    decreases n
  {
    if n > 0 {
      RebuiltChunks(chunks, limits, n - 1);
      var compact, c := CompactChunks(chunks)[..n], chunks[n - 1];
      assert compact[..n - 1] == CompactChunks(chunks)[..n - 1];
      assert compact[n - 1] == CompactChunkOf(chunks, n - 1);
      assert ChunkOk(limits, chunks, n - 1);
      assert c.source < n - 1 ==> chunks[..n - 1][c.source] == c;
      assert chunks[..n] == chunks[..n - 1] + [c];
    }
  }

  lemma {:induction false} RecompactedChunks(chunks: seq<CompactChunk>)
    requires BuildChunks(chunks).Ok?
    ensures CompactChunks(BuildChunks(chunks).value) == chunks
    decreases |chunks|
  {
    if chunks != [] {
      var n := |chunks| - 1;
      RecompactedChunks(chunks[..n]);
      var before, all := BuildChunks(chunks[..n]).value, BuildChunks(chunks).value;
      assert forall i | 0 <= i < n :: CompactChunks(all)[i] == CompactChunks(before)[i];
      assert CompactChunks(all)[n] == chunks[n];
      assert CompactChunks(all)[..n] == chunks[..n];
    }
  }

  lemma {:induction false} DeltasAddUp(entries: seq<Entry>, n: nat)
    requires n < |entries|
    ensures SumDeltas(CompactEntries(entries)[..n + 1]) == entries[n].mtimeNs
    decreases n
  {
    var compact := CompactEntries(entries)[..n + 1];
    assert compact[..n] == CompactEntries(entries)[..n];
    assert compact[n] == CompactEntryOf(entries, n);
    if n > 0 {
      DeltasAddUp(entries, n - 1);
    }
  }

  lemma {:induction false} CountsAgree(entries: seq<Entry>, n: nat)
    requires n <= |entries|
    ensures CountFileChunks(CompactEntries(entries)[..n]) == CountChunks(entries[..n])
    decreases n
  {
    if n > 0 {
      var compact := CompactEntries(entries)[..n];
      assert compact[..n - 1] == CompactEntries(entries)[..n - 1];
      assert compact[n - 1] == CompactEntryOf(entries, n - 1);
      assert entries[..n][..n - 1] == entries[..n - 1];
      CountsAgree(entries, n - 1);
    }
  }

  lemma RebuiltEntries(rules: PathRules, limits: Limits, m: Manifest)
    requires WellFormed(rules, limits, m)
    ensures BuildEntries(CompactEntries(m.entries), m.chunks) == m.entries
  {
    var compact := CompactEntries(m.entries);
    forall i | 0 <= i < |m.entries|
      ensures BuildEntry(compact, m.chunks, i) == m.entries[i]
    {
      DeltasAddUp(m.entries, i);
      CountsAgree(m.entries, i);
      assert compact[i] == CompactEntryOf(m.entries, i);
      assert EntryOk(rules, m.entries, i) && SizeOk(m.chunks, m.entries[i]);
    }
  }

  lemma RecompactedEntries(entries: seq<CompactEntry>, chunks: seq<ChunkRecord>)
    requires forall e | e in entries :: EntryFits(e)
    ensures CompactEntries(BuildEntries(entries, chunks)) == entries
  {
    var built := BuildEntries(entries, chunks);
    forall i | 0 <= i < |entries|
      ensures CompactEntryOf(built, i) == entries[i]
    {
      assert built[i] == BuildEntry(entries, chunks, i);
      assert entries[..i + 1][..i] == entries[..i];
      assert SumDeltas(entries[..i + 1]) == SumDeltas(entries[..i]) + entries[i].mtimeDelta;
      assert EntryFits(entries[i]);
      if i == 0 {
        assert SumDeltas(entries[..0]) == 0;
      } else {
        assert built[i - 1] == BuildEntry(entries, chunks, i - 1);
      }
    }
  }

  lemma AcceptableFits(rules: PathRules, maxChunkSize: nat, uniqueCount: nat, m: Metadata)
    requires Acceptable(rules, maxChunkSize, uniqueCount, m)
    ensures CompactFits(ToCompact(m))
  {
    assert Pow256(2) == 65536 && Pow256(4) == 0x1_0000_0000 && Pow256(8) == 0x1_0000_0000_0000_0000;
    hide Pow256, WellFormed;
    var c := ToCompact(m);
    forall i | 0 <= i < |c.entries|
      ensures EntryFits(c.entries[i])
    {
      assert c.entries[i] == CompactEntryOf(m.manifest.entries, i);
      assert DedupManifest.EntryFits(m.manifest.entries[i]);
      assert FitsSigned(c.entries[i].mtimeDelta, 8);
    }
    forall i | 0 <= i < |c.chunks|
      ensures ChunkFits(c.chunks[i])
    {
      assert c.chunks[i] == CompactChunkOf(m.manifest.chunks, i);
      assert DedupManifest.ChunkFits(m.manifest.chunks[i]);
    }
    assert HeadFits(HeadOf(c));
  }

  /**
   * A reader accepts exactly the printed forms of acceptable metadata and returns the manifest, lane
   * assignments, frame counts and codecs that were printed; reprinting them gives the same bytes.
   */
  lemma ParseIffPrinted(rules: PathRules, maxChunkSize: nat, uniqueCount: nat, d: ByteString, m: Metadata)
    ensures ParseCompact(rules, maxChunkSize, uniqueCount, d) == Ok(m)
            <==> Acceptable(rules, maxChunkSize, uniqueCount, m) && d == Print(m)
  {
    hide ReadCompact, PrintCompact, CompactFits, BuildChunks, BuildEntries, CompactEntries, CompactChunks;
    var limits := Limits(maxChunkSize, uniqueCount + 1);
    if ParseCompact(rules, maxChunkSize, uniqueCount, d) == Ok(m) {
      var c := ReadCompact(d, uniqueCount).value;
      ReadCompactExact(d, uniqueCount, c);
      RecompactedChunks(c.chunks);
      assert forall e | e in c.entries :: EntryFits(e) by {
        FittingEntries(c);
      }
      RecompactedEntries(c.entries, m.manifest.chunks);
      assert ToCompact(m) == c;
    }
    if Acceptable(rules, maxChunkSize, uniqueCount, m) && d == Print(m) {
      var c, chunks := ToCompact(m), m.manifest.chunks;
      AcceptableFits(rules, maxChunkSize, uniqueCount, m);
      ReadCompactExact(d, uniqueCount, c);
      RebuiltChunks(chunks, limits, |chunks|);
      assert CompactChunks(chunks)[..|chunks|] == CompactChunks(chunks) && chunks[..|chunks|] == chunks;
      RebuiltEntries(rules, limits, m.manifest);
    }
  }

  lemma FittingEntries(c: Compact)
    requires CompactFits(c)
    ensures forall e | e in c.entries :: EntryFits(e)
  {
  }
}
