/** The dedup manifest: its well-formedness, its wire format, and the parser that reads it back. */
module DedupManifest {
  import opened Bytes

  const DIGEST_BYTES := 32
  const ZERO_HASH: ByteString := [0, 0, 0, 0, 0, 0, 0, 0, 0, 0, 0, 0, 0, 0, 0, 0, 0, 0, 0, 0, 0, 0, 0, 0, 0, 0, 0, 0, 0, 0, 0, 0]
  const MAX_ENTRIES := 1_000_000
  const MAX_CHUNK_RECORDS := 16_777_215
  const CHUNK_BYTES := 44 // one printed chunk record
  const MAX_MODE := 511 // 0o777
  const MAGIC: ByteString := [77, 51, 77, 70] // "M3MF"

  datatype Kind = KindFile | KindFolder

  datatype ChunkRecord = ChunkRecord(digest: ByteString, size: nat, source: nat)

  datatype Entry = Entry(
    isDirectory: bool, path: ByteString, mode: nat, mtimeNs: int,
    size: nat, firstChunk: nat, chunkCount: nat, digest: ByteString)

  datatype Manifest = Manifest(kind: Kind, rootName: ByteString, entries: seq<Entry>, chunks: seq<ChunkRecord>)

  /**
   * The library's view of paths: which byte strings are canonical portable relative paths, how they
   * fold for the collision check, and the parent of a path, if it has one.
   */
  datatype PathRules = PathRules(
    canonical: ByteString -> bool, fold: ByteString -> ByteString, parent: ByteString -> Result<ByteString>)

  /** The header fields a manifest is checked against. */
  datatype Limits = Limits(maxChunkSize: nat, frameCount: nat)

  // ----- Well-formed manifests

  function CountChunks(entries: seq<Entry>): nat {
    if entries == [] then 0 else
    var n := |entries| - 1;
    CountChunks(entries[..n]) + (if entries[n].isDirectory then 0 else entries[n].chunkCount)
  }

  function SumSizes(chunks: seq<ChunkRecord>): nat {
    if chunks == [] then 0 else SumSizes(chunks[..|chunks| - 1]) + chunks[|chunks| - 1].size
  }

  function CountUnique(chunks: seq<ChunkRecord>): nat {
    if chunks == [] then 0 else
    var n := |chunks| - 1;
    CountUnique(chunks[..n]) + (if chunks[n].source == n then 1 else 0)
  }

  lemma CountUniqueSnoc(chunks: seq<ChunkRecord>, n: nat)
    requires n < |chunks|
    ensures CountUnique(chunks[..n + 1]) == CountUnique(chunks[..n]) + (if chunks[n].source == n then 1 else 0)
  {
    assert chunks[..n + 1][..n] == chunks[..n];
  }

  /** Everything the parser demands of entry `i` given the entries before it. */
  ghost predicate EntryOk(rules: PathRules, entries: seq<Entry>, i: nat)
    requires i < |entries|
  {
    var e := entries[i];
    && e.mode <= MAX_MODE
    && rules.canonical(e.path)
    && (forall j | 0 <= j < i :: rules.fold(entries[j].path) != rules.fold(e.path))
    && if e.isDirectory then e.size == e.firstChunk == e.chunkCount == 0 && e.digest == ZERO_HASH
       else e.firstChunk == CountChunks(entries[..i]) && (e.size == 0 <==> e.chunkCount == 0)
  }

  /** Chunk `i` is either canonical or points straight back at an identical canonical record. */
  predicate ChunkOk(limits: Limits, chunks: seq<ChunkRecord>, i: nat)
    requires i < |chunks|
  {
    var c := chunks[i];
    && 1 <= c.size <= limits.maxChunkSize
    && (c.source == i || (c.source < i && chunks[c.source] == c))
  }

  predicate SizeOk(chunks: seq<ChunkRecord>, e: Entry) {
    e.isDirectory || (e.firstChunk + e.chunkCount <= |chunks|
                      && SumSizes(chunks[e.firstChunk..e.firstChunk + e.chunkCount]) == e.size)
  }

  predicate ParentOk(rules: PathRules, entries: seq<Entry>, e: Entry) {
    match rules.parent(e.path)
    case Err => true
    case Ok(parent) => exists d | d in entries :: d.isDirectory && d.path == parent
  }

  predicate KindOk(rules: PathRules, m: Manifest) {
    match m.kind
    case KindFile => |m.entries| == 1 && !m.entries[0].isDirectory && m.entries[0].path == m.rootName
    case KindFolder => forall e | e in m.entries :: ParentOk(rules, m.entries, e)
  }

  ghost predicate WellFormed(rules: PathRules, limits: Limits, m: Manifest) {
    && |m.entries| <= MAX_ENTRIES && |m.chunks| <= MAX_CHUNK_RECORDS
    && rules.canonical(m.rootName) && SLASH !in m.rootName
    && (forall i | 0 <= i < |m.entries| :: EntryOk(rules, m.entries, i))
    && CountChunks(m.entries) == |m.chunks|
    && (forall i | 0 <= i < |m.chunks| :: ChunkOk(limits, m.chunks, i))
    && CountUnique(m.chunks) + 1 == limits.frameCount
    && (forall e | e in m.entries :: SizeOk(m.chunks, e))
    && KindOk(rules, m)
  }

  // ----- Wire format

  /** Every field fits the width it is packed into. */
  predicate EntryFits(e: Entry) {
    && |e.path| < Pow256(2) && e.mode < Pow256(4) && FitsSigned(e.mtimeNs, 8) && e.size < Pow256(8)
    && e.firstChunk < Pow256(8) && e.chunkCount < Pow256(4) && |e.digest| == DIGEST_BYTES
  }

  predicate ChunkFits(c: ChunkRecord) {
    |c.digest| == DIGEST_BYTES && c.size < Pow256(4) && c.source < Pow256(8)
  }

  predicate Fits(m: Manifest) {
    && |m.rootName| < Pow256(2) && |m.entries| < Pow256(4) && |m.chunks| < Pow256(8)
    && (forall e | e in m.entries :: EntryFits(e))
    && (forall c | c in m.chunks :: ChunkFits(c))
  }

  function EntryCode(isDirectory: bool): nat {
    if isDirectory then 2 else 1
  }

  function KindCode(kind: Kind): nat {
    match kind case KindFile => 1 case KindFolder => 2
  }

  function PrintEntry(e: Entry): ByteString {
    BigEndian(EntryCode(e.isDirectory), 1) + (BigEndian(|e.path|, 2) + (BigEndian(e.mode, 4)
    + (BigEndian(e.mtimeNs, 8) + (BigEndian(e.size, 8) + (BigEndian(e.firstChunk, 8)
    + (BigEndian(e.chunkCount, 4) + (e.digest + e.path)))))))
  }

  function PrintChunk(c: ChunkRecord): ByteString {
    c.digest + (BigEndian(c.size, 4) + BigEndian(c.source, 8))
  }

  function Print(m: Manifest): ByteString {
    MAGIC + (BigEndian(KindCode(m.kind), 1) + (BigEndian(|m.rootName|, 2) + (BigEndian(|m.entries|, 4)
    + (BigEndian(|m.chunks|, 8) + (m.rootName
    + (PrintMany(PrintEntry, m.entries) + PrintMany(PrintChunk, m.chunks)))))))
  }

  lemma {:induction false} PrintedChunksSize(chunks: seq<ChunkRecord>)
    requires forall c | c in chunks :: |c.digest| == DIGEST_BYTES
    ensures |PrintMany(PrintChunk, chunks)| == CHUNK_BYTES * |chunks|
  {
    if chunks != [] {
      PrintedChunksSize(chunks[1..]);
    }
  }

  function TakeEntry(d: ByteString): Parsed<Entry> {
    var (code, d) :- TakeUint(d, 1);
    var (pathLength, d) :- TakeUint(d, 2);
    var (mode, d) :- TakeUint(d, 4);
    var (mtimeNs, d) :- TakeSint(d, 8);
    var (size, d) :- TakeUint(d, 8);
    var (firstChunk, d) :- TakeUint(d, 8);
    var (chunkCount, d) :- TakeUint(d, 4);
    var (digest, d) :- TakeBytes(d, DIGEST_BYTES);
    var (path, d) :- TakeBytes(d, pathLength);
    if code == 1 || code == 2 then
      Parsed(Entry(code == 2, path, mode, mtimeNs, size, firstChunk, chunkCount, digest), d)
    else Malformed
  }

  function TakeChunk(d: ByteString): Parsed<ChunkRecord> {
    var (digest, d) :- TakeBytes(d, DIGEST_BYTES);
    var (size, d) :- TakeUint(d, 4);
    var (source, d) :- TakeUint(d, 8);
    Parsed(ChunkRecord(digest, size, source), d)
  }

  /** The syntax alone: a manifest and nothing after it. */
  function Read(d: ByteString): Result<Manifest> {
    match TakeManifest(d)
    case Malformed => Err
    case Parsed(m, rest) => if rest == [] then Ok(m) else Err
  }

  function TakeManifest(d: ByteString): Parsed<Manifest> {
    var (magic, d) :- TakeBytes(d, |MAGIC|);
    var (kind, d) :- TakeUint(d, 1);
    var (rootLength, d) :- TakeUint(d, 2);
    var (entryCount, d) :- TakeUint(d, 4);
    var (chunkCount, d) :- TakeUint(d, 8);
    var (rootName, d) :- TakeBytes(d, rootLength);
    var (entries, d) :- TakeMany(TakeEntry, d, entryCount);
    var (chunks, d) :- TakeMany(TakeChunk, d, chunkCount);
    if magic == MAGIC && (kind == 1 || kind == 2) then
      Parsed(Manifest(if kind == 1 then KindFile else KindFolder, rootName, entries, chunks), d)
    else Malformed
  }

  ghost function ParseManifest(rules: PathRules, limits: Limits, d: ByteString): Result<Manifest> {
    match Read(d)
    case Err => Err
    case Ok(m) => if WellFormed(rules, limits, m) then Ok(m) else Err
  }

  // ----- Printer and parser are exact inverses

  lemma PrintedEntryReads(e: Entry, rest: ByteString)
    requires EntryFits(e)
    ensures TakeEntry(PrintEntry(e) + rest) == Parsed(e, rest)
  {
    hide BigEndian, FromBigEndian, TakeUint, TakeSint, TakeBytes, FitsSigned;
    var r8 := e.path + rest;
    var r7 := e.digest + r8;
    var r6 := BigEndian(e.chunkCount, 4) + r7;
    var r5 := BigEndian(e.firstChunk, 8) + r6;
    var r4 := BigEndian(e.size, 8) + r5;
    var r3 := BigEndian(e.mtimeNs, 8) + r4;
    var r2 := BigEndian(e.mode, 4) + r3;
    var r1 := BigEndian(|e.path|, 2) + r2;
    var d := BigEndian(EntryCode(e.isDirectory), 1) + r1;
    assert PrintEntry(e) + rest == d;
    TakeUintExact(d, 1, EntryCode(e.isDirectory), r1);
    TakeUintExact(r1, 2, |e.path|, r2);
    TakeUintExact(r2, 4, e.mode, r3);
    TakeSintExact(r3, 8, e.mtimeNs, r4);
    TakeUintExact(r4, 8, e.size, r5);
    TakeUintExact(r5, 8, e.firstChunk, r6);
    TakeUintExact(r6, 4, e.chunkCount, r7);
    TakeBytesExact(r7, DIGEST_BYTES, e.digest, r8);
    TakeBytesExact(r8, |e.path|, e.path, rest);
  }

  lemma ReadEntryPrints(d: ByteString, e: Entry, rest: ByteString)
    requires TakeEntry(d) == Parsed(e, rest)
    ensures EntryFits(e) && d == PrintEntry(e) + rest
  {
    hide BigEndian, FromBigEndian, TakeUint, TakeSint, TakeBytes, FitsSigned;
    var p1 := TakeUint(d, 1);
    TakeUintExact(d, 1, p1.value, p1.rest);
    var p2 := TakeUint(p1.rest, 2);
    TakeUintExact(p1.rest, 2, |e.path|, p2.rest);
    var p3 := TakeUint(p2.rest, 4);
    TakeUintExact(p2.rest, 4, e.mode, p3.rest);
    var p4 := TakeSint(p3.rest, 8);
    TakeSintExact(p3.rest, 8, e.mtimeNs, p4.rest);
    var p5 := TakeUint(p4.rest, 8);
    TakeUintExact(p4.rest, 8, e.size, p5.rest);
    var p6 := TakeUint(p5.rest, 8);
    TakeUintExact(p5.rest, 8, e.firstChunk, p6.rest);
    var p7 := TakeUint(p6.rest, 4);
    TakeUintExact(p6.rest, 4, e.chunkCount, p7.rest);
    var p8 := TakeBytes(p7.rest, DIGEST_BYTES);
    TakeBytesExact(p7.rest, DIGEST_BYTES, e.digest, p8.rest);
    TakeBytesExact(p8.rest, p2.value, e.path, rest);
  }

  lemma EntriesExact()
    ensures Exact(TakeEntry, PrintEntry, EntryFits)
  {
    forall d, e, rest
      ensures TakeEntry(d) == Parsed(e, rest) <==> EntryFits(e) && d == PrintEntry(e) + rest
    {
      if TakeEntry(d) == Parsed(e, rest) {
        ReadEntryPrints(d, e, rest);
      }
      if EntryFits(e) && d == PrintEntry(e) + rest {
        PrintedEntryReads(e, rest);
      }
    }
  }

  lemma ChunksExact()
    ensures Exact(TakeChunk, PrintChunk, ChunkFits)
  {
    forall d, c, rest
      ensures TakeChunk(d) == Parsed(c, rest) <==> ChunkFits(c) && d == PrintChunk(c) + rest
    {
      TakeChunkExact(d, c, rest);
    }
  }

  lemma TakeChunkExact(d: ByteString, c: ChunkRecord, rest: ByteString)
    ensures TakeChunk(d) == Parsed(c, rest) <==> ChunkFits(c) && d == PrintChunk(c) + rest
  {
    hide BigEndian, FromBigEndian, TakeUint, TakeBytes;
    var r2 := BigEndian(c.source, 8) + rest;
    var r1 := BigEndian(c.size, 4) + r2;
    assert PrintChunk(c) + rest == c.digest + r1;
    if TakeChunk(d) == Parsed(c, rest) {
      var p1 := TakeBytes(d, DIGEST_BYTES);
      TakeBytesExact(d, DIGEST_BYTES, c.digest, p1.rest);
      var p2 := TakeUint(p1.rest, 4);
      TakeUintExact(p1.rest, 4, c.size, p2.rest);
      TakeUintExact(p2.rest, 8, c.source, rest);
    }
    if ChunkFits(c) && d == PrintChunk(c) + rest {
      TakeBytesExact(d, DIGEST_BYTES, c.digest, r1);
      TakeUintExact(r1, 4, c.size, r2);
      TakeUintExact(r2, 8, c.source, rest);
    }
  }

  lemma PrintedManifestReads(m: Manifest, rest: ByteString)
    requires Fits(m)
    ensures TakeManifest(Print(m) + rest) == Parsed(m, rest)
  {
    hide BigEndian, FromBigEndian, TakeUint, TakeBytes, TakeMany, PrintMany, EntryFits, ChunkFits;
    var r7 := PrintMany(PrintChunk, m.chunks) + rest;
    var r6 := PrintMany(PrintEntry, m.entries) + r7;
    var r5 := m.rootName + r6;
    var r4 := BigEndian(|m.chunks|, 8) + r5;
    var r3 := BigEndian(|m.entries|, 4) + r4;
    var r2 := BigEndian(|m.rootName|, 2) + r3;
    var r1 := BigEndian(KindCode(m.kind), 1) + r2;
    var d := MAGIC + r1;
    assert Print(m) + rest == d;
    TakeBytesExact(d, |MAGIC|, MAGIC, r1);
    TakeUintExact(r1, 1, KindCode(m.kind), r2);
    TakeUintExact(r2, 2, |m.rootName|, r3);
    TakeUintExact(r3, 4, |m.entries|, r4);
    TakeUintExact(r4, 8, |m.chunks|, r5);
    TakeBytesExact(r5, |m.rootName|, m.rootName, r6);
    EntriesExact();
    TakeManyExact(TakeEntry, PrintEntry, EntryFits, r6, m.entries, r7);
    ChunksExact();
    TakeManyExact(TakeChunk, PrintChunk, ChunkFits, r7, m.chunks, rest);
  }

  lemma ReadManifestPrints(d: ByteString, m: Manifest, rest: ByteString)
    requires TakeManifest(d) == Parsed(m, rest)
    ensures Fits(m) && d == Print(m) + rest
  {
    hide BigEndian, FromBigEndian, TakeUint, TakeBytes, TakeMany, PrintMany, EntryFits, ChunkFits;
    var p1 := TakeBytes(d, |MAGIC|);
    TakeBytesExact(d, |MAGIC|, MAGIC, p1.rest);
    var p2 := TakeUint(p1.rest, 1);
    TakeUintExact(p1.rest, 1, KindCode(m.kind), p2.rest);
    var p3 := TakeUint(p2.rest, 2);
    TakeUintExact(p2.rest, 2, p3.value, p3.rest);
    var p4 := TakeUint(p3.rest, 4);
    TakeUintExact(p3.rest, 4, p4.value, p4.rest);
    var p5 := TakeUint(p4.rest, 8);
    TakeUintExact(p4.rest, 8, p5.value, p5.rest);
    var p6 := TakeBytes(p5.rest, p3.value);
    TakeBytesExact(p5.rest, p3.value, m.rootName, p6.rest);
    var p7 := TakeMany(TakeEntry, p6.rest, p4.value);
    TakeManyLength(TakeEntry, p6.rest, p4.value);
    EntriesExact();
    TakeManyExact(TakeEntry, PrintEntry, EntryFits, p6.rest, m.entries, p7.rest);
    TakeManyLength(TakeChunk, p7.rest, p5.value);
    ChunksExact();
    TakeManyExact(TakeChunk, PrintChunk, ChunkFits, p7.rest, m.chunks, rest);
  }

  lemma ReadExact(d: ByteString, m: Manifest)
    ensures Read(d) == Ok(m) <==> Fits(m) && d == Print(m)
  {
    hide TakeManifest, Print, Fits;
    assert Print(m) + [] == Print(m);
    if Read(d) == Ok(m) {
      ReadManifestPrints(d, m, []);
    }
    if Fits(m) && d == Print(m) {
      PrintedManifestReads(m, []);
    }
  }

  /** The parser accepts exactly the printed forms of well-formed manifests, and returns what was printed. */
  lemma ParseIffPrinted(rules: PathRules, limits: Limits, d: ByteString, m: Manifest)
    ensures ParseManifest(rules, limits, d) == Ok(m)
            <==> WellFormed(rules, limits, m) && Fits(m) && d == Print(m)
  {
    hide Read, Print, Fits, WellFormed;
    ReadExact(d, m);
  }

  /** What the parser returns for a printed manifest is that manifest. */
  lemma PrintedOnce(rules: PathRules, limits: Limits, m: Manifest, m': Manifest)
    requires Fits(m)
    ensures ParseManifest(rules, limits, Print(m)) == Ok(m') ==> m' == m && WellFormed(rules, limits, m)
  {
    hide WellFormed, Print, Fits, Read;
    ReadExact(Print(m), m);
  }

  // ----- What acceptance means

  /** The file entries' ranges start where the chunks of the files before them end. */
  predicate Tiled(entries: seq<Entry>) {
    forall i | 0 <= i < |entries| && !entries[i].isDirectory :: entries[i].firstChunk == CountChunks(entries[..i])
  }

  predicate Owns(e: Entry, chunk: nat) {
    !e.isDirectory && e.firstChunk <= chunk < e.firstChunk + e.chunkCount
  }

  lemma CountChunksSnoc(entries: seq<Entry>, i: nat)
    requires i < |entries|
    ensures CountChunks(entries[..i + 1])
            == CountChunks(entries[..i]) + (if entries[i].isDirectory then 0 else entries[i].chunkCount)
  {
    assert entries[..i + 1][..i] == entries[..i];
  }

  lemma {:induction false} CountChunksMonotone(entries: seq<Entry>, i: nat, j: nat)
    requires i <= j <= |entries|
    ensures CountChunks(entries[..i]) <= CountChunks(entries[..j])
    decreases j
  {
    if i < j {
      CountChunksSnoc(entries, j - 1);
      CountChunksMonotone(entries, i, j - 1);
    }
  }

  /** Every chunk of the table belongs to exactly one file entry. */
  lemma {:induction false} OneOwner(entries: seq<Entry>, n: nat, chunk: nat) returns (k: nat)
    requires Tiled(entries) && n <= |entries| && chunk < CountChunks(entries[..n])
    ensures k < n && Owns(entries[k], chunk)
    ensures forall j | 0 <= j < |entries| && Owns(entries[j], chunk) :: j == k
    decreases n
  {
    CountChunksSnoc(entries, n - 1);
    if chunk < CountChunks(entries[..n - 1]) {
      k := OneOwner(entries, n - 1, chunk);
    } else {
      k := n - 1;
      forall j | 0 <= j < |entries| && Owns(entries[j], chunk)
        ensures j == k
      {
        if j < k {
          CountChunksSnoc(entries, j);
          CountChunksMonotone(entries, j + 1, k);
        } else if k < j {
          CountChunksMonotone(entries, k + 1, j);
        }
      }
    }
  }

  lemma {:induction false} SumSizesAppend(a: seq<ChunkRecord>, b: seq<ChunkRecord>)
    ensures SumSizes(a + b) == SumSizes(a) + SumSizes(b)
    decreases |b|
  {
    if b == [] {
      assert a + b == a;
    } else {
      assert (a + b)[..|a + b| - 1] == a + b[..|b| - 1];
      SumSizesAppend(a, b[..|b| - 1]);
    }
  }

  function TotalSize(entries: seq<Entry>): nat {
    if entries == [] then 0 else TotalSize(entries[..|entries| - 1]) + entries[|entries| - 1].size
  }

  lemma {:induction false} FileSizesAddUp(rules: PathRules, limits: Limits, m: Manifest, n: nat)
    requires WellFormed(rules, limits, m) && n <= |m.entries|
    ensures CountChunks(m.entries[..n]) <= |m.chunks|
    ensures TotalSize(m.entries[..n]) == SumSizes(m.chunks[..CountChunks(m.entries[..n])])
    decreases n
  {
    hide WellFormed, CountChunks, SumSizes;
    AllCounted(rules, limits, m);
    assert m.entries[..|m.entries|] == m.entries;
    CountChunksMonotone(m.entries, n, |m.entries|);
    if n == 0 {
      NothingAddsUp(m);
    } else {
      FileSizesAddUp(rules, limits, m, n - 1);
      CountChunksSnoc(m.entries, n - 1);
      assert m.entries[..n][..n - 1] == m.entries[..n - 1];
      var lo, hi := CountChunks(m.entries[..n - 1]), CountChunks(m.entries[..n]);
      FileRange(rules, limits, m, n - 1);
      assert m.chunks[..hi] == m.chunks[..lo] + m.chunks[lo..hi];
      SumSizesAppend(m.chunks[..lo], m.chunks[lo..hi]);
    }
  }

  lemma AllCounted(rules: PathRules, limits: Limits, m: Manifest)
    requires WellFormed(rules, limits, m)
    ensures CountChunks(m.entries) == |m.chunks|
  {
  }

  lemma NothingAddsUp(m: Manifest)
    ensures TotalSize(m.entries[..0]) == 0 && SumSizes(m.chunks[..CountChunks(m.entries[..0])]) == 0
  {
  }

  /** The chunks between the counts before and after an entry are that entry's bytes. */
  lemma FileRange(rules: PathRules, limits: Limits, m: Manifest, i: nat)
    requires WellFormed(rules, limits, m) && i < |m.entries|
    requires CountChunks(m.entries[..i + 1]) <= |m.chunks|
    requires CountChunks(m.entries[..i + 1])
             == CountChunks(m.entries[..i]) + (if m.entries[i].isDirectory then 0 else m.entries[i].chunkCount)
    ensures SumSizes(m.chunks[CountChunks(m.entries[..i])..CountChunks(m.entries[..i + 1])]) == m.entries[i].size
  {
    hide CountChunks, KindOk, ChunkOk;
    var e, lo := m.entries[i], CountChunks(m.entries[..i]);
    assert EntryOk(rules, m.entries, i) && SizeOk(m.chunks, e);
    assert m.chunks[lo..lo] == [];
  }

  predicate OwnedOnce(entries: seq<Entry>, chunk: nat) {
    exists k | 0 <= k < |entries| ::
      && Owns(entries[k], chunk)
      && forall j | 0 <= j < |entries| && Owns(entries[j], chunk) :: j == k
  }

  /** Chunk `i` points straight back at a canonical record with its digest and size. */
  predicate DirectReference(chunks: seq<ChunkRecord>, i: nat)
    requires i < |chunks|
  {
    var s := chunks[i].source;
    s <= i && chunks[s].source == s && chunks[s].digest == chunks[i].digest && chunks[s].size == chunks[i].size
  }

  /**
   * A manifest the parser accepts: every chunk has exactly one owner, no reference goes through
   * another, the unique chunks are the data frames, and the chunk sizes add up to the restored size.
   */
  lemma AcceptedManifest(rules: PathRules, limits: Limits, d: ByteString, m: Manifest)
    requires ParseManifest(rules, limits, d) == Ok(m)
    ensures forall i | 0 <= i < |m.chunks| :: DirectReference(m.chunks, i)
    ensures forall i | 0 <= i < |m.chunks| :: OwnedOnce(m.entries, i)
    ensures CountUnique(m.chunks) == limits.frameCount - 1
    ensures TotalSize(m.entries) == SumSizes(m.chunks)
  {
    hide CountChunks, SumSizes, TotalSize, CountUnique;
    assert WellFormed(rules, limits, m);
    assert m.entries[..|m.entries|] == m.entries && m.chunks[..|m.chunks|] == m.chunks;
    FileSizesAddUp(rules, limits, m, |m.entries|);
    forall i | 0 <= i < |m.chunks|
      ensures DirectReference(m.chunks, i) && OwnedOnce(m.entries, i)
    {
      assert ChunkOk(limits, m.chunks, i);
      TiledManifest(rules, limits, m);
      var k := OneOwner(m.entries, |m.entries|, i);
    }
  }

  /** What an accepted manifest names: one file, or objects with distinct paths whose parents are directories of it. */
  lemma AcceptedIsATree(rules: PathRules, limits: Limits, d: ByteString, m: Manifest)
    requires ParseManifest(rules, limits, d) == Ok(m)
    ensures rules.canonical(m.rootName) && SLASH !in m.rootName
    ensures forall e | e in m.entries :: rules.canonical(e.path) && e.mode <= 511 && |e.digest| == 32
    ensures forall j, k | 0 <= j < |m.entries| && 0 <= k < |m.entries| && j != k ::
              rules.fold(m.entries[j].path) != rules.fold(m.entries[k].path)
    ensures forall e | e in m.entries && e.isDirectory :: e.size == 0 && e.chunkCount == 0
    ensures forall e | e in m.entries && !e.isDirectory :: e.size == 0 <==> e.chunkCount == 0
    ensures m.kind == KindFile ==>
              exists e :: m.entries == [e] && !e.isDirectory && e.path == m.rootName
    ensures m.kind == KindFolder ==>
              forall e | e in m.entries && rules.parent(e.path).Ok? ::
                exists p | p in m.entries :: p.isDirectory && rules.parent(e.path) == Ok(p.path)
  {
    ParseIffPrinted(rules, limits, d, m);
    hide CountChunks, CountUnique, ChunkOk, SizeOk, Print;
    forall e | e in m.entries
      ensures rules.canonical(e.path) && e.mode <= 511 && |e.digest| == 32
      ensures e.isDirectory ==> e.size == 0 && e.chunkCount == 0
      ensures !e.isDirectory ==> (e.size == 0 <==> e.chunkCount == 0)
    {
      var i :| 0 <= i < |m.entries| && m.entries[i] == e;
      assert EntryOk(rules, m.entries, i) && EntryFits(e);
    }
    forall j, k | 0 <= j < k < |m.entries|
      ensures rules.fold(m.entries[j].path) != rules.fold(m.entries[k].path)
    {
      assert EntryOk(rules, m.entries, k);
    }
    hide EntryOk;
    if m.kind == KindFile {
      assert m.entries == [m.entries[0]];
    } else {
      forall e | e in m.entries && rules.parent(e.path).Ok?
        ensures exists p | p in m.entries :: p.isDirectory && rules.parent(e.path) == Ok(p.path)
      {
        assert ParentOk(rules, m.entries, e);
      }
    }
  }

  lemma TiledManifest(rules: PathRules, limits: Limits, m: Manifest)
    requires WellFormed(rules, limits, m)
    ensures Tiled(m.entries)
  {
    hide CountChunks, ChunkOk, SizeOk, KindOk;
    forall i | 0 <= i < |m.entries| && !m.entries[i].isDirectory
      ensures m.entries[i].firstChunk == CountChunks(m.entries[..i])
    {
      assert EntryOk(rules, m.entries, i);
    }
  }

  // ----- The parser as it runs

  function After<T>(xs: seq<T>, p: Parsed<seq<T>>): Parsed<seq<T>> {
    match p
    case Malformed => Malformed
    case Parsed(ys, rest) => Parsed(xs + ys, rest)
  }

  lemma AfterNothing<T>(p: Parsed<seq<T>>)
    ensures After([], p) == p
  {
    match p
    case Malformed =>
    case Parsed(ys, _) => assert [] + ys == ys;
  }

  /** Reading one more value moves it from the unread text to the values already read. */
  lemma ReadOneMore<T>(take: ByteString -> Parsed<T>, xs: seq<T>, d: ByteString, n: nat)
    requires n > 0
    ensures After(xs, TakeMany(take, d, n))
            == match take(d)
               case Malformed => Malformed
               case Parsed(x, rest) => After(xs + [x], TakeMany(take, rest, n - 1))
  {
    match take(d)
    case Malformed =>
    case Parsed(x, rest) =>
      match TakeMany(take, rest, n - 1)
      case Malformed =>
      case Parsed(ys, rest') =>
        assert xs + ([x] + ys) == xs + [x] + ys;
  }

  lemma ReadNoMore<T>(take: ByteString -> Parsed<T>, xs: seq<T>, d: ByteString)
    ensures After(xs, TakeMany(take, d, 0)) == Parsed(xs, d)
  {
    assert xs + [] == xs;
  }

  /** Whether an entry is in order does not depend on what comes after it. */
  lemma EntryOkIsLocal(rules: PathRules, a: seq<Entry>, b: seq<Entry>, i: nat)
    requires i < |a|
    ensures EntryOk(rules, a + b, i) <==> EntryOk(rules, a, i)
  {
    assert (a + b)[..i] == a[..i];
    assert forall j | 0 <= j <= i :: (a + b)[j] == a[j];
  }

  lemma ChunkOkIsLocal(limits: Limits, a: seq<ChunkRecord>, b: seq<ChunkRecord>, i: nat)
    requires i < |a|
    ensures ChunkOk(limits, a + b, i) <==> ChunkOk(limits, a, i)
  {
    assert forall j | 0 <= j <= i :: (a + b)[j] == a[j];
  }

  function FoldedPaths(rules: PathRules, entries: seq<Entry>): set<ByteString> {
    set e | e in entries :: rules.fold(e.path)
  }

  /** What must hold of the next entry, in terms of what the loop has accumulated. */
  lemma NextEntryOk(rules: PathRules, entries: seq<Entry>, e: Entry)
    ensures EntryOk(rules, entries + [e], |entries|)
            <==> && e.mode <= MAX_MODE && rules.canonical(e.path)
                 && rules.fold(e.path) !in FoldedPaths(rules, entries)
                 && if e.isDirectory then e.size == e.firstChunk == e.chunkCount == 0 && e.digest == ZERO_HASH
                    else e.firstChunk == CountChunks(entries) && (e.size == 0 <==> e.chunkCount == 0)
    ensures FoldedPaths(rules, entries + [e]) == FoldedPaths(rules, entries) + {rules.fold(e.path)}
    ensures CountChunks(entries + [e]) == CountChunks(entries) + (if e.isDirectory then 0 else e.chunkCount)
    ensures forall i | 0 <= i < |entries| :: EntryOk(rules, entries, i) <==> EntryOk(rules, entries + [e], i)
  {
    var all, n := entries + [e], |entries|;
    assert all[..n] == entries;
    assert forall j | 0 <= j < n :: all[j] == entries[j];
    assert forall x :: x in all <==> x in entries || x == e;
    forall i | 0 <= i < |entries|
      ensures EntryOk(rules, entries, i) <==> EntryOk(rules, all, i)
    {
      EntryOkIsLocal(rules, entries, [e], i);
    }
  }

  lemma NoEntries(rules: PathRules)
    ensures CountChunks([]) == 0 && FoldedPaths(rules, []) == {}
  {
  }

  method ReadEntries(rules: PathRules, start: ByteString, entryCount: nat)
    returns (r: Parsed<seq<Entry>>, nextChunk: nat)
    ensures r.Parsed? ==>
              && r == TakeMany(TakeEntry, start, entryCount)
              && nextChunk == CountChunks(r.value)
              && forall i | 0 <= i < |r.value| :: EntryOk(rules, r.value, i)
    ensures r.Malformed? ==>
              var whole := TakeMany(TakeEntry, start, entryCount);
              whole.Parsed? ==> exists i | 0 <= i < |whole.value| :: !EntryOk(rules, whole.value, i)
  {
    hide EntryOk, CountChunks, FoldedPaths, TakeEntry, TakeMany;
    NoEntries(rules);
    var stream, entries: seq<Entry>, collisions: set<ByteString> := start, [], {};
    nextChunk := 0;
    ghost var whole := TakeMany(TakeEntry, start, entryCount);
    AfterNothing(whole);
    for index := 0 to entryCount
      invariant |entries| == index
      invariant whole == After(entries, TakeMany(TakeEntry, stream, entryCount - index))
      invariant nextChunk == CountChunks(entries)
      invariant collisions == FoldedPaths(rules, entries)
      invariant forall i | 0 <= i < |entries| :: EntryOk(rules, entries, i)
    {
      ReadOneMore(TakeEntry, entries, stream, entryCount - index);
      var entry := TakeEntry(stream);
      if entry.Malformed? {
        return Malformed, nextChunk;
      }
      var e := entry.value;
      ghost var read := entries + [e];
      var accepted :=
        && e.mode <= MAX_MODE && rules.canonical(e.path) && rules.fold(e.path) !in collisions
        && if e.isDirectory then e.size == 0 && e.firstChunk == 0 && e.chunkCount == 0 && e.digest == ZERO_HASH
           else e.firstChunk == nextChunk && (e.size == 0) == (e.chunkCount == 0);
      NextEntryOk(rules, entries, e);
      if !accepted {
        if whole.Parsed? {
          ghost var later := TakeMany(TakeEntry, entry.rest, entryCount - index - 1).value;
          assert whole.value == read + later;
          EntryOkIsLocal(rules, read, later, index);
        }
        return Malformed, nextChunk;
      }
      collisions := collisions + {rules.fold(e.path)};
      nextChunk := nextChunk + (if e.isDirectory then 0 else e.chunkCount);
      entries, stream := entries + [e], entry.rest;
    }
    ReadNoMore(TakeEntry, entries, stream);
    r := Parsed(entries, stream);
  }

  method ReadChunks(limits: Limits, start: ByteString, chunkCount: nat)
    returns (r: Parsed<seq<ChunkRecord>>, uniqueCount: nat)
    ensures r.Parsed? ==>
              && r == TakeMany(TakeChunk, start, chunkCount)
              && uniqueCount == CountUnique(r.value)
              && forall i | 0 <= i < |r.value| :: ChunkOk(limits, r.value, i)
    ensures r.Malformed? ==>
              var whole := TakeMany(TakeChunk, start, chunkCount);
              whole.Parsed? ==> exists i | 0 <= i < |whole.value| :: !ChunkOk(limits, whole.value, i)
  {
    var stream, chunks: seq<ChunkRecord> := start, [];
    uniqueCount := 0;
    ghost var whole := TakeMany(TakeChunk, start, chunkCount);
    AfterNothing(whole);
    for index := 0 to chunkCount
      invariant |chunks| == index
      invariant whole == After(chunks, TakeMany(TakeChunk, stream, chunkCount - index))
      invariant uniqueCount == CountUnique(chunks)
      invariant forall i | 0 <= i < |chunks| :: ChunkOk(limits, chunks, i)
    {
      ReadOneMore(TakeChunk, chunks, stream, chunkCount - index);
      var chunk := TakeChunk(stream);
      if chunk.Malformed? {
        return Malformed, uniqueCount;
      }
      var c := chunk.value;
      ghost var read := chunks + [c];
      assert read[..index] == chunks && read[index] == c;
      var accepted := 1 <= c.size <= limits.maxChunkSize;
      if accepted {
        if c.source == index {
          uniqueCount := uniqueCount + 1;
        } else if c.source >= index {
          accepted := false;
        } else {
          var canonical := chunks[c.source];
          assert ChunkOk(limits, chunks, c.source);
          accepted := canonical.source == c.source && canonical.digest == c.digest && canonical.size == c.size;
        }
      }
      assert accepted <==> ChunkOk(limits, read, index);
      if !accepted {
        if whole.Parsed? {
          ghost var later := TakeMany(TakeChunk, chunk.rest, chunkCount - index - 1).value;
          assert whole.value == read + later;
          ChunkOkIsLocal(limits, read, later, index);
        }
        return Malformed, uniqueCount;
      }
      forall i | 0 <= i < index
        ensures ChunkOk(limits, read, i)
      {
        ChunkOkIsLocal(limits, chunks, [c], i);
      }
      chunks, stream := chunks + [c], chunk.rest;
    }
    ReadNoMore(TakeChunk, chunks, stream);
    r := Parsed(chunks, stream);
  }

  method ParseDedupManifest(rules: PathRules, limits: Limits, data: ByteString) returns (r: Result<Manifest>)
    ensures r == ParseManifest(rules, limits, data)
  {
    hide TakeUint, TakeBytes, TakeMany, EntryOk, ChunkOk, CountChunks, CountUnique, SumSizes;
    var magic := TakeBytes(data, |MAGIC|);
    if magic.Malformed? { return Err; }
    var kind := TakeUint(magic.rest, 1);
    if kind.Malformed? { return Err; }
    var rootLength := TakeUint(kind.rest, 2);
    if rootLength.Malformed? { return Err; }
    var entryCount := TakeUint(rootLength.rest, 4);
    if entryCount.Malformed? { return Err; }
    var chunkCount := TakeUint(entryCount.rest, 8);
    if chunkCount.Malformed? { return Err; }
    if magic.value != MAGIC || kind.value !in {1, 2} { return Err; }
    TakeManifestLengths(data);
    if entryCount.value > MAX_ENTRIES || chunkCount.value > MAX_CHUNK_RECORDS { return Err; }
    var rootName := TakeBytes(chunkCount.rest, rootLength.value);
    if rootName.Malformed? { return Err; }
    if !rules.canonical(rootName.value) || SLASH in rootName.value { return Err; }
    var entries, nextChunk := ReadEntries(rules, rootName.rest, entryCount.value);
    if entries.Malformed? { return Err; }
    if nextChunk != chunkCount.value { return Err; }
    var chunks, uniqueCount := ReadChunks(limits, entries.rest, chunkCount.value);
    if chunks.Malformed? { return Err; }
    if chunks.rest != [] || uniqueCount + 1 != limits.frameCount { return Err; }
    var m := Manifest(if kind.value == 1 then KindFile else KindFolder, rootName.value, entries.value, chunks.value);
    assert TakeManifest(data) == Parsed(m, []);
    if exists e | e in m.entries :: !SizeOk(m.chunks, e) { return Err; }
    if !KindOk(rules, m) { return Err; }
    r := Ok(m);
  }

  /** The counts at the front of a manifest are the lengths of its tables. */
  lemma TakeManifestLengths(d: ByteString)
    ensures match TakeManifest(d)
            case Malformed => true
            case Parsed(m, rest) =>
              && TakeUint(TakeUint(TakeUint(TakeBytes(d, |MAGIC|).rest, 1).rest, 2).rest, 4).value == |m.entries|
              && TakeUint(TakeUint(TakeUint(TakeUint(TakeBytes(d, |MAGIC|).rest, 1).rest, 2).rest, 4).rest, 8).value
                 == |m.chunks|
  {
    hide TakeUint, TakeBytes;
    if TakeManifest(d).Parsed? {
      var p3 := TakeUint(TakeUint(TakeBytes(d, |MAGIC|).rest, 1).rest, 2);
      var p4 := TakeUint(p3.rest, 4);
      var p5 := TakeUint(p4.rest, 8);
      var p6 := TakeBytes(p5.rest, p3.value);
      TakeManyLength(TakeEntry, p6.rest, p4.value);
      TakeManyLength(TakeChunk, TakeMany(TakeEntry, p6.rest, p4.value).rest, p5.value);
    }
  }
}
