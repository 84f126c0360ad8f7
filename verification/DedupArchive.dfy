/** Writing and restoring a framed deduplicating archive (container versions 3 to 6). */
module DedupArchive {
  import opened Bytes
  import opened DedupManifest
  import opened DedupScan
  import opened Frames
  import opened Sealing
  import Cdc
  import Modes
  import Padding

  const PREFIX_BYTES := 13

  /** The foreign parts: chunking and digests, path rules, block codecs and authenticated encryption. */
  datatype Codec = Codec(scanner: Scanner, rules: PathRules, lib: Modes.Library, aead: Cipher) {
    ghost predicate Valid() {
      scanner.Valid() && lib.Inverse() && aead.Valid()
    }
  }

  /** What one run of the encoder fixes: its options and its random bytes, the padding of each frame included. */
  datatype Settings = Settings(
    paddingSize: nat, noncePrefix: ByteString, profile: Modes.Profile,
    features: ByteString -> Modes.Features, noise: nat -> nat -> ByteString)
  {
    ghost predicate Valid() {
      |noncePrefix| == NONCE_PREFIX_BYTES && forall index, n :: |noise(index)(n)| == n
    }
  }

  datatype Archive = Archive(header: Header, body: ByteString)

  /** A restored source: its manifest and the content of every entry, empty for a directory. */
  datatype Tree = Tree(manifest: Manifest, contents: seq<ByteString>)

  /**
   * The tree is the source: the same kind, name and objects in the same order, each with its path, mode, time
   * and content, and each file with the size and digest of that content.
   */
  ghost predicate IsSource(s: Scanner, tree: Tree, source: Source) {
    var entries, items := tree.manifest.entries, source.items;
    && tree.manifest.kind == source.kind && tree.manifest.rootName == source.rootName
    && |entries| == |tree.contents| == |items|
    && (forall k | 0 <= k < |items| :: entries[k].isDirectory == items[k].isDirectory && entries[k].path == items[k].path)
    && (forall k | 0 <= k < |items| :: entries[k].mode == items[k].mode && entries[k].mtimeNs == items[k].mtimeNs)
    && (forall k | 0 <= k < |items| :: tree.contents[k] == items[k].content)
    && (forall k | 0 <= k < |items| && !items[k].isDirectory ::
          entries[k].size == |items[k].content| && entries[k].digest == s.hash(items[k].content))
  }

  // ----- The archive a run writes

  function DataPayload(c: Codec, o: Settings, occurrence: nat, chunk: ByteString): ByteString {
    var e := Modes.ChooseRoutedMode(c.lib, o.profile, o.features(chunk), chunk);
    BigEndian(occurrence, 8) + (BigEndian(|chunk|, 4) + (BigEndian(Modes.Number(e.mode) as int, 1) + e.payload))
  }

  /** One payload for each occurrence that is its own canonical record. */
  function Payloads(c: Codec, o: Settings, records: seq<ChunkRecord>, occ: seq<ByteString>): seq<ByteString>
    requires |occ| <= |records|
    decreases |occ|
  {
    if occ == [] then [] else
    var n := |occ| - 1;
    Payloads(c, o, records, occ[..n]) + (if records[n].source == n then [DataPayload(c, o, n, occ[n])] else [])
  }

  lemma {:induction false} PayloadCount(c: Codec, o: Settings, records: seq<ChunkRecord>, occ: seq<ByteString>)
    requires |occ| <= |records|
    ensures |Payloads(c, o, records, occ)| == CountUnique(records[..|occ|])
    decreases |occ|
  {
    hide DataPayload;
    if occ != [] {
      var n := |occ| - 1;
      PayloadCount(c, o, records, occ[..n]);
      CountUniqueSnoc(records, n);
    }
  }

  function DataFrameBytes(c: Codec, o: Settings, h: Header, index: nat, payload: ByteString): ByteString
    requires h.Valid() && forall index, n :: |o.noise(index)(n)| == n
  {
    WriteFrame(c.aead, h, index, DataFrame, payload, o.noise(index))
  }

  /** The data frames: payload `k` goes into frame `k + 1`. */
  function DataFrames(c: Codec, o: Settings, h: Header, payloads: seq<ByteString>): ByteString
    requires h.Valid() && forall index, n :: |o.noise(index)(n)| == n
  {
    if payloads == [] then [] else
    var n := |payloads| - 1;
    DataFrames(c, o, h, payloads[..n]) + DataFrameBytes(c, o, h, n + 1, payloads[n])
  }

  function HeaderOf(c: Codec, o: Settings, m: Manifest): Header {
    Header(c.scanner.config.maxSize, PREFIX_BYTES, o.paddingSize, o.noncePrefix, CountUnique(m.chunks) + 1)
  }

  /** The encoder's own bounds. */
  predicate Encodable(o: Settings, m: Manifest) {
    && Padding.MIN_BLOCK <= o.paddingSize <= Padding.MAX_BLOCK
    && CountUnique(m.chunks) + 1 <= MAX_FRAME_COUNT
    && Fits(m)
    && ManifestGuard(o.paddingSize, |Print(m)|)
  }

  lemma EncodableHeader(c: Codec, o: Settings, m: Manifest)
    requires c.Valid() && o.Valid() && Encodable(o, m)
    ensures HeaderOf(c, o, m).Valid()
  {
  }

  /** Every chunk takes its place in the manifest, so the bound on the manifest is a bound on all chunks. */
  lemma EncodableFitsTable(o: Settings, m: Manifest)
    requires Encodable(o, m)
    ensures CHUNK_BYTES * |m.chunks| < MAX_MANIFEST_CIPHERTEXT && |m.chunks| <= MAX_CHUNK_RECORDS
  {
    hide PrintMany;
    PrintedChunksSize(m.chunks);
  }

  function ManifestFrameBytes(c: Codec, o: Settings, m: Manifest): ByteString
    requires HeaderOf(c, o, m).Valid() && forall index, n :: |o.noise(index)(n)| == n
  {
    WriteFrame(c.aead, HeaderOf(c, o, m), 0, ManifestFrame, Print(m), o.noise(0))
  }

  /** The archive for manifest `m` when the encoder's second pass reads the chunks `occ`. */
  function ArchiveOf(c: Codec, o: Settings, m: Manifest, occ: seq<ByteString>): Archive
    requires HeaderOf(c, o, m).Valid() && (forall index, n :: |o.noise(index)(n)| == n) && |occ| == |m.chunks|
  {
    var h := HeaderOf(c, o, m);
    Archive(h, ManifestFrameBytes(c, o, m) + DataFrames(c, o, h, Payloads(c, o, m.chunks, occ)))
  }

  // ----- What the decoder makes of an archive

  function OpenPayload(c: Codec, payload: ByteString, occurrence: nat, record: ChunkRecord): Result<ByteString> {
    if |payload| < PREFIX_BYTES then Err else
    var size := FromBigEndian(payload[8..12]);
    if FromBigEndian(payload[..8]) != occurrence || size != record.size then Err else
    match Modes.GetMode(FromBigEndian(payload[12..13]))
    case Err => Err
    case Ok(mode) =>
      match Modes.Decode(c.lib, mode, payload[PREFIX_BYTES..], size)
      case Err => Err
      case Ok(chunk) => if c.scanner.hash(chunk) != record.digest then Err else Ok(chunk)
  }

  function ReadChunk(
      c: Codec, h: Header, stream: ByteString, frameIndex: nat, occurrence: nat, record: ChunkRecord): Parsed<ByteString>
    requires h.Valid()
  {
    var (payload, rest) :- ReadFrame(c.aead, h, stream, frameIndex, DataFrame);
    match OpenPayload(c, payload, occurrence, record)
    case Err => Malformed
    case Ok(chunk) => Parsed(chunk, rest)
  }

  /** Every record is canonical or points straight back at a canonical one. */
  predicate Direct(chunks: seq<ChunkRecord>) {
    forall i | 0 <= i < |chunks| :: DirectReference(chunks, i)
  }

  /** The first `n` occurrences, each read from the next frame or copied from an earlier occurrence. */
  function RestoreChunks(
      c: Codec, h: Header, chunks: seq<ChunkRecord>, start: ByteString, n: nat): (r: Parsed<seq<ByteString>>)
    requires h.Valid() && Direct(chunks) && n <= |chunks|
    ensures r.Parsed? ==> |r.value| == n
    decreases n
  {
    if n == 0 then Parsed([], start) else
    var (xs, stream) :- RestoreChunks(c, h, chunks, start, n - 1);
    assert DirectReference(chunks, n - 1);
    var record := chunks[n - 1];
    if record.source == n - 1 then
      var (chunk, rest) :- ReadChunk(c, h, stream, CountUnique(chunks[..n - 1]) + 1, n - 1, record);
      Parsed(xs + [chunk], rest)
    else Parsed(xs + [xs[record.source]], stream)
  }

  function FileContent(e: Entry, xs: seq<ByteString>): ByteString {
    if e.isDirectory || e.firstChunk + e.chunkCount > |xs| then []
    else Flatten(xs[e.firstChunk..e.firstChunk + e.chunkCount])
  }

  function Contents(entries: seq<Entry>, xs: seq<ByteString>): (r: seq<ByteString>)
    ensures |r| == |entries| && forall k | 0 <= k < |entries| :: r[k] == FileContent(entries[k], xs)
  {
    seq(|entries|, k requires 0 <= k < |entries| => FileContent(entries[k], xs))
  }

  predicate DigestOk(s: Scanner, e: Entry, xs: seq<ByteString>) {
    !e.isDirectory ==> s.hash(FileContent(e, xs)) == e.digest
  }

  ghost function RestoreTree(c: Codec, h: Header, m: Manifest, stream: ByteString): Result<Tree>
    requires h.Valid() && Direct(m.chunks)
  {
    match RestoreChunks(c, h, m.chunks, stream, |m.chunks|)
    case Malformed => Err
    case Parsed(xs, rest) =>
      if rest == [] && forall e | e in m.entries :: DigestOk(c.scanner, e, xs) then Ok(Tree(m, Contents(m.entries, xs)))
      else Err
  }

  ghost function Decoded(c: Codec, a: Archive, maxOutputSize: nat, maxFrameCount: nat): Result<Tree> {
    if !a.header.Valid() || a.header.frameCount - 1 > maxFrameCount then Err else
    match ReadFrame(c.aead, a.header, a.body, 0, ManifestFrame)
    case Malformed => Err
    case Parsed(payload, stream) =>
      var limits := Limits(a.header.maxChunkSize, a.header.frameCount);
      match ParseManifest(c.rules, limits, payload)
      case Err => Err
      case Ok(m) =>
        AcceptedManifest(c.rules, limits, payload, m);
        if TotalSize(m.entries) > maxOutputSize then Err else RestoreTree(c, a.header, m, stream)
  }

  // ----- The decoder as it runs

  lemma {:induction false} RestoreGrows(
      c: Codec, h: Header, chunks: seq<ChunkRecord>, start: ByteString, n: nat, n': nat)
    requires h.Valid() && Direct(chunks) && n <= n' <= |chunks|
    ensures var r, r' := RestoreChunks(c, h, chunks, start, n), RestoreChunks(c, h, chunks, start, n');
            r'.Parsed? ==> r.Parsed? && r.value <= r'.value
    decreases n'
  {
    hide ReadChunk;
    if n < n' {
      RestoreGrows(c, h, chunks, start, n, n' - 1);
    }
  }

  function Referenced(chunks: seq<ChunkRecord>): set<nat> {
    set i | 0 <= i < |chunks| && chunks[i].source != i :: chunks[i].source
  }

  /** The decoder's state after `n` occurrences: the next frame to read, and the cache it may look up. */
  ghost predicate Progress(
      c: Codec, h: Header, chunks: seq<ChunkRecord>, start: ByteString,
      xs: seq<ByteString>, stream: ByteString, frameIndex: nat, cache: map<nat, ByteString>)
    requires h.Valid() && Direct(chunks)
  {
    && |xs| <= |chunks|
    && RestoreChunks(c, h, chunks, start, |xs|) == Parsed(xs, stream)
    && frameIndex == CountUnique(chunks[..|xs|]) + 1
    && CacheHolds(chunks, xs, cache)
  }

  ghost predicate CacheHolds(chunks: seq<ChunkRecord>, xs: seq<ByteString>, cache: map<nat, ByteString>)
    requires |xs| <= |chunks|
  {
    forall j | 0 <= j < |xs| && chunks[j].source == j && j in Referenced(chunks) :: j in cache && cache[j] == xs[j]
  }

  /** A duplicate's source is already in the cache. */
  lemma CacheIsReady(chunks: seq<ChunkRecord>, xs: seq<ByteString>, cache: map<nat, ByteString>)
    requires Direct(chunks) && |xs| < |chunks| && CacheHolds(chunks, xs, cache) && chunks[|xs|].source != |xs|
    ensures var source := chunks[|xs|].source;
            source < |xs| && source in cache && cache[source] == xs[source]
  {
    assert DirectReference(chunks, |xs|);
  }

  lemma ProgressStep(
      c: Codec, h: Header, chunks: seq<ChunkRecord>, start: ByteString,
      xs: seq<ByteString>, stream: ByteString, frameIndex: nat, cache: map<nat, ByteString>)
    requires h.Valid() && Direct(chunks) && |xs| < |chunks|
    requires Progress(c, h, chunks, start, xs, stream, frameIndex, cache)
    ensures var n, record := |xs|, chunks[|xs|];
            if record.source == n then
              match ReadChunk(c, h, stream, frameIndex, n, record)
              case Malformed => RestoreChunks(c, h, chunks, start, |chunks|).Malformed?
              case Parsed(chunk, rest) =>
                Progress(c, h, chunks, start, xs + [chunk], rest, frameIndex + 1,
                         if n in Referenced(chunks) then cache[n := chunk] else cache)
            else record.source in cache
                 && Progress(c, h, chunks, start, xs + [cache[record.source]], stream, frameIndex, cache)
  {
    hide ReadChunk, CountUnique, Referenced;
    var n, record := |xs|, chunks[|xs|];
    CountUniqueSnoc(chunks, n);
    RestoreGrows(c, h, chunks, start, n + 1, |chunks|);
    if record.source != n {
      CacheIsReady(chunks, xs, cache);
    }
  }

  function UpTo(n: nat): seq<nat> {
    seq(n, i => i)
  }

  /** Restores one file's range; `visits` records every occurrence visited, in order. */
  method DecodeFile(
      c: Codec, h: Header, chunks: seq<ChunkRecord>, referenced: set<nat>, first: nat, count: nat,
      ghost start: ByteString, ghost before: seq<ByteString>,
      streamBefore: ByteString, frameIndexBefore: nat, cacheBefore: map<nat, ByteString>, ghost visitsBefore: seq<nat>)
    returns (ok: bool, sink: ByteString, ghost xs: seq<ByteString>,
             stream: ByteString, frameIndex: nat, cache: map<nat, ByteString>, ghost visits: seq<nat>)
    requires h.Valid() && Direct(chunks) && referenced == Referenced(chunks)
    requires |before| == first && first + count <= |chunks|
    requires Progress(c, h, chunks, start, before, streamBefore, frameIndexBefore, cacheBefore)
    requires visitsBefore == UpTo(first)
    ensures !ok ==> RestoreChunks(c, h, chunks, start, |chunks|).Malformed?
    ensures ok ==> |xs| == first + count && before <= xs && sink == Flatten(xs[first..])
    ensures ok ==> Progress(c, h, chunks, start, xs, stream, frameIndex, cache)
    ensures ok ==> visits == UpTo(first + count)
  {
    hide Progress, ReadChunk, Referenced, Flatten, RestoreChunks;
    xs, stream, frameIndex, cache, visits := before, streamBefore, frameIndexBefore, cacheBefore, visitsBefore;
    sink := [];
    NothingToFlatten(xs);
    for occurrence := first to first + count
      invariant |xs| == occurrence && before <= xs && sink == Flatten(xs[first..])
      invariant Progress(c, h, chunks, start, xs, stream, frameIndex, cache)
      invariant visits == UpTo(occurrence)
    {
      ProgressStep(c, h, chunks, start, xs, stream, frameIndex, cache);
      visits := visits + [occurrence];
      var record := chunks[occurrence];
      var chunk;
      if record.source == occurrence {
        var read := ReadChunk(c, h, stream, frameIndex, occurrence, record);
        if read.Malformed? {
          return false, sink, xs, stream, frameIndex, cache, visits;
        }
        chunk, stream := read.value, read.rest;
        frameIndex := frameIndex + 1;
        if occurrence in referenced {
          cache := cache[occurrence := chunk];
        }
      } else {
        chunk := cache[record.source];
      }
      FlattenSnoc(xs[first..], chunk);
      assert (xs + [chunk])[first..] == xs[first..] + [chunk];
      xs, sink := xs + [chunk], sink + chunk;
    }
    ok := true;
  }

  lemma NothingToFlatten(xs: seq<ByteString>)
    ensures Flatten(xs[|xs|..]) == []
  {
  }

  /**
   * The decoder visits every occurrence once, in order, and by the end of an accepted manifest has read
   * exactly the frames the header announces: its own check of the frame count cannot fail.
   */
  method DecodeDedupArchive(c: Codec, a: Archive, maxOutputSize: nat, maxFrameCount: nat)
    returns (r: Result<Tree>, ghost visits: seq<nat>, ghost framesRead: nat)
    ensures r == Decoded(c, a, maxOutputSize, maxFrameCount)
    ensures r.Ok? ==> visits == UpTo(|r.value.manifest.chunks|) && framesRead == a.header.frameCount
  {
    visits, framesRead := [], 0;
    var h := a.header;
    if !h.Valid() || h.frameCount - 1 > maxFrameCount { return Err, visits, framesRead; }
    var manifestFrame := ReadFrame(c.aead, h, a.body, 0, ManifestFrame);
    if manifestFrame.Malformed? { return Err, visits, framesRead; }
    var limits := Limits(h.maxChunkSize, h.frameCount);
    var parsed := ParseDedupManifest(c.rules, limits, manifestFrame.value);
    if parsed.Err? { return Err, visits, framesRead; }
    AcceptedManifest(c.rules, limits, manifestFrame.value, parsed.value);
    if TotalSize(parsed.value.entries) > maxOutputSize { return Err, visits, framesRead; }
    r, visits, framesRead := DecodeEntries(c, h, limits, parsed.value, manifestFrame.rest);
  }

  method DecodeEntries(c: Codec, h: Header, ghost limits: Limits, m: Manifest, start: ByteString)
    returns (r: Result<Tree>, ghost visits: seq<nat>, ghost framesRead: nat)
    requires h.Valid() && WellFormed(c.rules, limits, m) && limits.frameCount == h.frameCount && Direct(m.chunks)
    ensures r == RestoreTree(c, h, m, start)
    ensures r.Ok? ==> visits == UpTo(|m.chunks|) && framesRead == h.frameCount
  {
    hide Referenced, Flatten, RestoreChunks, CountChunks, CountUnique, WellFormed, FileContent;
    var entries, chunks := m.entries, m.chunks;
    var referenced := Referenced(chunks);
    ghost var xs: seq<ByteString> := [];
    var stream, frameIndex, cache, contents: seq<ByteString> := start, 1, map[], [];
    visits, framesRead := [], 1;
    NothingRestored(c, h, chunks, start);
    assert entries[..0] == [];
    for k := 0 to |entries|
      invariant |xs| == CountChunks(entries[..k]) && visits == UpTo(|xs|)
      invariant Progress(c, h, chunks, start, xs, stream, frameIndex, cache)
      invariant |contents| == k && forall j | 0 <= j < k :: contents[j] == FileContent(entries[j], xs)
      invariant forall j | 0 <= j < k :: InRange(entries[j], xs) && DigestOk(c.scanner, entries[j], xs)
    {
      hide Progress;
      var e := entries[k];
      ghost var before := xs;
      NextRange(c.rules, limits, m, k);
      if e.isDirectory {
        DirectoryContent(e, xs);
        contents := contents + [[]];
        continue;
      }
      var ok, sink;
      ok, sink, xs, stream, frameIndex, cache, visits :=
        DecodeFile(c, h, chunks, referenced, e.firstChunk, e.chunkCount, start, xs, stream, frameIndex, cache, visits);
      if !ok { return Err, visits, framesRead; }
      FileRestored(e, xs);
      forall j | 0 <= j < k
        ensures FileContent(entries[j], xs) == FileContent(entries[j], before) && InRange(entries[j], xs)
      {
        ContentIsLocal(entries[j], before, xs);
      }
      if c.scanner.hash(sink) != e.digest {
        DigestFailureIsFinal(c, h, m, start, e, xs);
        return Err, visits, framesRead;
      }
      contents := contents + [sink];
    }
    assert entries[..|entries|] == entries && chunks[..|chunks|] == chunks;
    AllConsumed(c.rules, limits, m);
    framesRead := frameIndex;
    if stream != [] { return Err, visits, framesRead; }
    assert contents == Contents(entries, xs);
    r := Ok(Tree(m, contents));
  }

  predicate InRange(e: Entry, xs: seq<ByteString>) {
    e.isDirectory || e.firstChunk + e.chunkCount <= |xs|
  }

  lemma NothingRestored(c: Codec, h: Header, chunks: seq<ChunkRecord>, start: ByteString)
    requires h.Valid() && Direct(chunks)
    ensures Progress(c, h, chunks, start, [], start, 1, map[])
    ensures CountChunks([]) == 0
  {
    assert chunks[..0] == [];
  }

  lemma NextRange(rules: PathRules, limits: Limits, m: Manifest, k: nat)
    requires WellFormed(rules, limits, m) && k < |m.entries|
    ensures var e, n := m.entries[k], CountChunks(m.entries[..k]);
            && CountChunks(m.entries[..k + 1]) == n + (if e.isDirectory then 0 else e.chunkCount)
            && (!e.isDirectory ==> e.firstChunk == n && n + e.chunkCount <= |m.chunks|)
  {
    hide CountChunks, KindOk, ChunkOk;
    CountChunksSnoc(m.entries, k);
    assert EntryOk(rules, m.entries, k) && SizeOk(m.chunks, m.entries[k]);
  }

  lemma AllConsumed(rules: PathRules, limits: Limits, m: Manifest)
    requires WellFormed(rules, limits, m)
    ensures CountChunks(m.entries) == |m.chunks| && CountUnique(m.chunks) + 1 == limits.frameCount
  {
  }

  lemma DirectoryContent(e: Entry, xs: seq<ByteString>)
    requires e.isDirectory
    ensures FileContent(e, xs) == []
  {
  }

  lemma FileRestored(e: Entry, xs: seq<ByteString>)
    requires !e.isDirectory && |xs| == e.firstChunk + e.chunkCount
    ensures FileContent(e, xs) == Flatten(xs[e.firstChunk..])
  {
    assert xs[e.firstChunk..e.firstChunk + e.chunkCount] == xs[e.firstChunk..];
  }

  lemma ContentIsLocal(e: Entry, xs: seq<ByteString>, xs': seq<ByteString>)
    requires InRange(e, xs) && xs <= xs'
    ensures FileContent(e, xs') == FileContent(e, xs) && InRange(e, xs')
  {
    if !e.isDirectory {
      var lo, hi := e.firstChunk, e.firstChunk + e.chunkCount;
      assert xs'[lo..hi] == xs[lo..hi];
    }
  }

  lemma DigestFailureIsFinal(c: Codec, h: Header, m: Manifest, start: ByteString, e: Entry, xs: seq<ByteString>)
    requires h.Valid() && Direct(m.chunks) && |xs| <= |m.chunks| && e in m.entries
    requires InRange(e, xs) && !DigestOk(c.scanner, e, xs)
    requires RestoreChunks(c, h, m.chunks, start, |xs|).Parsed?
    requires RestoreChunks(c, h, m.chunks, start, |xs|).value == xs
    ensures RestoreTree(c, h, m, start) == Err
  {
    hide RestoreChunks, FileContent;
    RestoreGrows(c, h, m.chunks, start, |xs|, |m.chunks|);
    var all := RestoreChunks(c, h, m.chunks, start, |m.chunks|);
    if all.Parsed? {
      ContentIsLocal(e, xs, all.value);
      assert !DigestOk(c.scanner, e, all.value);
    }
  }
}
