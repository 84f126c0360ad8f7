/** The MSR2 archive: unique chunks spooled into three lanes, each compressed as one stream and framed. */
module SolidArchive {
  import opened Bytes
  import opened DedupManifest
  import opened DedupScan
  import opened PackedLanes
  import opened SolidLanes
  import opened Padding
  import opened Sealing
  import opened DedupArchive
  import C = CompactCodec
  import F = SolidFrames
  import M = CompactMetadata

  const MAX_METADATA_CIPHERTEXT := 64 * 1024 * 1024
  const MAX_MANIFEST := 256 * 1024 * 1024
  const ENVELOPE_MAGIC: ByteString := [77, 68, 90, 49] // "MDZ1"
  const ENVELOPE_BYTES := 13
  const METADATA_CODEC := 1

  /** The public header fields that the archive depends on. */
  datatype Header = Header(
    maxChunkSize: nat, paddingSize: nat, frameSize: nat, uniqueCount: nat, noncePrefix: ByteString, metadataLength: nat)
  {
    predicate Valid() {
      && maxChunkSize <= 16 * 1024 * 1024
      && MIN_BLOCK <= paddingSize <= frameSize && F.MIN_FRAME <= frameSize <= F.MAX_FRAME
      && uniqueCount <= F.MAX_INDEX && |noncePrefix| == NONCE_PREFIX_BYTES
      && TAG_BYTES <= metadataLength <= MAX_METADATA_CIPHERTEXT
      && (metadataLength - TAG_BYTES) % paddingSize == 0
    }
  }

  /** The foreign compressors: one preferred codec for each lane, and one for the metadata. */
  datatype Compressor = Compressor(
    compress: (Lane, ByteString) -> ByteString,
    expand: (nat, Lane, ByteString, nat) -> Result<ByteString>,
    zip: ByteString -> ByteString,
    unzip: (ByteString, nat) -> Result<ByteString>)
  {
    ghost predicate Inverse() {
      && (forall lane: Lane, data {:trigger compress(lane, data)} ::
            expand(Preferred(lane), lane, compress(lane, data), |data|) == Ok(data))
      && (forall data {:trigger zip(data)} :: unzip(zip(data), |data|) == Ok(data))
    }
  }

  function Preferred(lane: Lane): nat {
    if lane == 2 then M.ZSTD else M.LZMA2
  }

  datatype SolidCodec = SolidCodec(
    scanner: Scanner, rules: PathRules, route: ByteString -> Lane, lib: Compressor, aead: F.Cipher,
    pack: Header -> ByteString)
  {
    ghost predicate Valid() {
      scanner.Valid() && lib.Inverse() && aead.Valid()
    }
  }

  datatype SolidSettings = SolidSettings(frameSize: nat, paddingSize: nat, noncePrefix: ByteString, noise: F.Noise) {
    ghost predicate Valid() {
      |noncePrefix| == NONCE_PREFIX_BYTES && F.Sized(noise)
    }

    predicate InRange() {
      F.MIN_FRAME <= frameSize <= F.MAX_FRAME && MIN_BLOCK <= paddingSize <= frameSize
    }
  }

  datatype SolidFile = SolidFile(header: Header, body: ByteString)

  // ----- Writing

  /** One lane ready for framing: the cheaper of its compressed and its raw form. */
  datatype Stored = Stored(rawSize: nat, codec: nat, payload: ByteString, frameCount: nat)

  function StoreLane(lib: Compressor, o: SolidSettings, lane: Lane, data: ByteString): Stored
    requires o.InRange()
  {
    if data == [] then Stored(0, M.LZMA2, [], 0) else
    var compressed := lib.compress(lane, data);
    var candidateStorage := F.SolidLaneFramedSize(|compressed|, o.frameSize, o.paddingSize).value;
    var rawStorage := F.SolidLaneFramedSize(|data|, o.frameSize, o.paddingSize).value;
    var raw := candidateStorage >= rawStorage;
    var payload := if raw then data else compressed;
    Stored(|data|, if raw then M.RAW else Preferred(lane), payload, (|payload| + o.frameSize - 1) / o.frameSize)
  }

  function StoreLanes(lib: Compressor, o: SolidSettings, lanes: seq<ByteString>): (r: seq<Stored>)
    requires o.InRange() && |lanes| == LANE_COUNT
    ensures |r| == LANE_COUNT && forall k: Lane :: r[k] == StoreLane(lib, o, k, lanes[k])
  {
    [StoreLane(lib, o, 0, lanes[0]), StoreLane(lib, o, 1, lanes[1]), StoreLane(lib, o, 2, lanes[2])]
  }

  function MetadataOf(manifest: Manifest, assignments: seq<Lane>, stored: seq<Stored>): M.Metadata
    requires |stored| == LANE_COUNT
  {
    M.Metadata(manifest, assignments, [stored[0].frameCount, stored[1].frameCount, stored[2].frameCount],
               [stored[0].codec, stored[1].codec, stored[2].codec])
  }

  function Envelope(lib: Compressor, text: ByteString): ByteString {
    ENVELOPE_MAGIC + (BigEndian(METADATA_CODEC, 1) + (BigEndian(|text|, 8) + lib.zip(text)))
  }

  function LaneOptions(h: Header, associated: ByteString, lane: Lane): F.Options {
    F.Options(lane, h.noncePrefix, associated, h.frameSize, h.paddingSize)
  }

  /** The frames of the lanes from `lane` on, numbered on from `index`; an empty lane has none. */
  function WriteLanes(
      c: SolidCodec, noise: F.Noise, h: Header, associated: ByteString, stored: seq<Stored>, lane: nat, index: nat)
    : Result<ByteString>
    requires F.Sized(noise) && |stored| == LANE_COUNT && lane <= LANE_COUNT && h.frameSize > 0
    decreases LANE_COUNT - lane
  {
    if lane == LANE_COUNT then Ok([])
    else if stored[lane].rawSize == 0 then WriteLanes(c, noise, h, associated, stored, lane + 1, index)
    else
      var count := |F.Split(stored[lane].payload, h.frameSize)|;
      match F.WrittenLane(c.aead, LaneOptions(h, associated, lane), noise, index, stored[lane].payload)
      case Err => Err
      case Ok(frames) =>
        if count != stored[lane].frameCount then Err else
        match WriteLanes(c, noise, h, associated, stored, lane + 1, index + count)
        case Err => Err
        case Ok(later) => Ok(frames + later)
  }

  function HeaderOf(c: SolidCodec, o: SolidSettings, uniqueCount: nat, envelopeSize: nat): Header
    requires o.InRange()
  {
    Header(c.scanner.config.maxSize, o.paddingSize, o.frameSize, uniqueCount, o.noncePrefix,
           PaddedSize(envelopeSize, o.paddingSize) + TAG_BYTES)
  }

  function MetadataCiphertext(c: SolidCodec, o: SolidSettings, h: Header, envelope: ByteString): ByteString
    requires o.InRange() && F.Sized(o.noise)
  {
    c.aead.encrypt(FrameNonce(o.noncePrefix, 0), (c.pack(h), []), PadPayload(envelope, o.paddingSize, o.noise(0)).value)
  }

  /** The bounds the writer puts on the metadata, and the widths it is packed into. */
  predicate Sealable(c: SolidCodec, meta: M.Metadata) {
    var text := M.Print(meta);
    |text| < Pow256(8) && |Envelope(c.lib, text)| <= MAX_MANIFEST && |meta.assignments| <= F.MAX_INDEX
  }

  function Seal(c: SolidCodec, o: SolidSettings, meta: M.Metadata, stored: seq<Stored>): Result<SolidFile>
    requires o.InRange() && F.Sized(o.noise) && |stored| == LANE_COUNT
  {
    if !Sealable(c, meta) then Err else
    var envelope := Envelope(c.lib, M.Print(meta));
    var h := HeaderOf(c, o, |meta.assignments|, |envelope|);
    var ciphertext := MetadataCiphertext(c, o, h, envelope);
    match WriteLanes(c, o.noise, h, c.pack(h) + c.scanner.hash(ciphertext), stored, 0, 1)
    case Err => Err
    case Ok(frames) => Ok(SolidFile(h, ciphertext + frames))
  }

  function StoredOf(c: SolidCodec, o: SolidSettings, unique: seq<ByteString>): (r: seq<Stored>)
    requires o.InRange()
    ensures |r| == LANE_COUNT
  {
    StoreLanes(c.lib, o, Partition(unique, Routed(c.route, unique)))
  }

  /** The metadata of a scanned source, for any routing of its unique chunks. */
  function SourceMetadata(c: SolidCodec, o: SolidSettings, source: Source): M.Metadata
    requires c.scanner.config.Valid() && o.InRange()
  {
    var unique := UniqueChunks(c.scanner, Occurrences(c.scanner, source.items));
    MetadataOf(ManifestOf(c.scanner, source), Routed(c.route, unique), StoredOf(c, o, unique))
  }

  function Encoded(c: SolidCodec, o: SolidSettings, source: Source): Result<SolidFile>
    requires c.scanner.config.Valid() && F.Sized(o.noise)
  {
    if !o.InRange() then Err else
    var meta := SourceMetadata(c, o, source);
    if !C.Printable(meta) then Err
    else Seal(c, o, meta, StoredOf(c, o, UniqueChunks(c.scanner, Occurrences(c.scanner, source.items))))
  }

  /** The writer: one pass over the source, then the three lanes in turn. */
  method EncodeSolidArchive(c: SolidCodec, o: SolidSettings, source: Source) returns (r: Result<SolidFile>)
    requires c.Valid() && o.Valid()
    ensures r == Encoded(c, o, source)
  {
    hide ManifestOf, UniqueChunks, Occurrences, Routed, Partition, StoreLane, F.WrittenLane, Envelope, M.Print,
         C.Printable, BigEndian, Pow256;
    if !o.InRange() { return Err; }
    var manifest, unique := ScanManifest(c.scanner, source);
    var lanes, rawSizes, assignments := SpoolUniqueChunks(c.route, unique);
    var stored := StoreLanes(c.lib, o, lanes);
    var meta := MetadataOf(manifest, assignments, stored);
    var text := C.PrintMetadata(meta);
    if text.Err? { return Err; }
    if !Sealable(c, meta) { return Err; }
    var envelope := Envelope(c.lib, text.value);
    var h := HeaderOf(c, o, |assignments|, |envelope|);
    var ciphertext := MetadataCiphertext(c, o, h, envelope);
    var frames := WriteStoredLanes(c, o.noise, h, c.pack(h) + c.scanner.hash(ciphertext), stored);
    if frames.Err? { return Err; }
    r := Ok(SolidFile(h, ciphertext + frames.value));
  }

  method WriteStoredLanes(c: SolidCodec, noise: F.Noise, h: Header, associated: ByteString, stored: seq<Stored>)
    returns (r: Result<ByteString>)
    requires F.Sized(noise) && |stored| == LANE_COUNT && h.frameSize > 0
    ensures r == WriteLanes(c, noise, h, associated, stored, 0, 1)
  {
    hide F.WrittenLane, F.Split;
    var output: ByteString, index: nat := [], 1;
    ghost var whole := WriteLanes(c, noise, h, associated, stored, 0, 1);
    if whole.Ok? {
      assert [] + whole.value == whole.value;
    }
    for lane := 0 to LANE_COUNT
      invariant whole == Appended(output, WriteLanes(c, noise, h, associated, stored, lane, index))
    {
      if stored[lane].rawSize == 0 { continue; }
      var payload := stored[lane].payload;
      var frames, frameCount, maximum := F.WritePrecompressedSolidLaneFrames(
        c.aead, LaneOptions(h, associated, lane), noise, index, payload, |payload|);
      if frames.Err? || frameCount != stored[lane].frameCount { return Err; }
      AppendedOnce(output, frames.value, WriteLanes(c, noise, h, associated, stored, lane + 1, index + frameCount));
      output, index := output + frames.value, index + frameCount;
    }
    assert output + [] == output;
    r := Ok(output);
  }

  function Appended(done: ByteString, r: Result<ByteString>): Result<ByteString> {
    match r case Err => Err case Ok(later) => Ok(done + later)
  }

  lemma AppendedOnce(done: ByteString, frames: ByteString, r: Result<ByteString>)
    ensures Appended(done + frames, r) == Appended(done, Appended(frames, r))
  {
    if r.Ok? {
      assert done + frames + r.value == done + (frames + r.value);
    }
  }

  // ----- Reading

  function OpenEnvelope(lib: Compressor, d: ByteString): Result<ByteString> {
    if |d| < ENVELOPE_BYTES || d[..4] != ENVELOPE_MAGIC || FromBigEndian(d[4..5]) != METADATA_CODEC then Err else
    var expectedSize := FromBigEndian(d[5..ENVELOPE_BYTES]);
    if expectedSize > MAX_MANIFEST then Err else lib.unzip(d[ENVELOPE_BYTES..], expectedSize)
  }

  function OpenMetadata(c: SolidCodec, h: Header, body: ByteString): Parsed<ByteString> {
    var (ciphertext, rest) :- TakeBytes(body, h.metadataLength);
    match c.aead.decrypt(FrameNonce(h.noncePrefix, 0), (c.pack(h), []), ciphertext)
    case Err => Malformed
    case Ok(padded) =>
      match UnpadPayload(padded)
      case Err => Malformed
      case Ok(envelope) =>
        match OpenEnvelope(c.lib, envelope)
        case Err => Malformed
        case Ok(text) => Parsed(text, rest)
  }

  function LaneCodec(meta: M.Metadata, lane: Lane): nat {
    if lane < |meta.codecs| then meta.codecs[lane] else M.LZMA2
  }

  /** One lane: passed through if stored raw, otherwise expanded from the frames' concatenation. */
  function ReadOneLane(
      c: SolidCodec, h: Header, associated: ByteString, lane: Lane, codec: nat, source: ByteString, index: nat,
      frameCount: nat, rawSize: nat): Parsed<ByteString>
    requires h.Valid()
  {
    var o := LaneOptions(h, associated, lane);
    if codec == M.RAW then F.ReadLane(c.aead, o, source, index, frameCount, rawSize) else
    var (pieces, rest) :- F.TakeFrames(c.aead, o, source, index, frameCount);
    match c.lib.expand(codec, lane, Flatten(pieces), rawSize)
    case Err => Malformed
    case Ok(data) => if |data| == rawSize then Parsed(data, rest) else Malformed
  }

  function ReadLanes(
      c: SolidCodec, h: Header, associated: ByteString, meta: M.Metadata, source: ByteString, lane: nat, index: nat)
    : (r: Parsed<seq<ByteString>>)
    requires h.Valid() && lane <= LANE_COUNT && |meta.frameCounts| == LANE_COUNT
    ensures r.Parsed? ==> |r.value| == LANE_COUNT - lane
    decreases LANE_COUNT - lane
  {
    if lane == LANE_COUNT then Parsed([], source)
    else if meta.frameCounts[lane] == 0 then
      var (later, rest) :- ReadLanes(c, h, associated, meta, source, lane + 1, index);
      Parsed([[]] + later, rest)
    else
      var rawSize := M.LaneSize(meta.manifest.chunks, meta.assignments, lane);
      var (data, d) :- ReadOneLane(c, h, associated, lane, LaneCodec(meta, lane), source, index,
                                   meta.frameCounts[lane], rawSize);
      var (later, rest) :- ReadLanes(c, h, associated, meta, d, lane + 1, index + meta.frameCounts[lane]);
      Parsed([data] + later, rest)
  }

  function UniqueRecords(chunks: seq<ChunkRecord>): (r: seq<ChunkRecord>)
    ensures |r| == CountUnique(chunks)
  {
    if chunks == [] then [] else
    var n := |chunks| - 1;
    UniqueRecords(chunks[..n]) + (if chunks[n].source == n then [chunks[n]] else [])
  }

  function RecordSizes(records: seq<ChunkRecord>): (r: seq<nat>)
    ensures |r| == |records| && forall i | 0 <= i < |records| :: r[i] == records[i].size
  {
    seq(|records|, i requires 0 <= i < |records| => records[i].size)
  }

  /** The unique chunk that occurrence `i` stands for. */
  function ChunkOf(chunks: seq<ChunkRecord>, merged: seq<ByteString>, i: nat): ByteString
    requires Direct(chunks) && i < |chunks|
  {
    assert DirectReference(chunks, i);
    var rank := CountUnique(chunks[..chunks[i].source]);
    if rank < |merged| then merged[rank] else []
  }

  function AllChunks(chunks: seq<ChunkRecord>, merged: seq<ByteString>): (r: seq<ByteString>)
    requires Direct(chunks)
    ensures |r| == |chunks| && forall i | 0 <= i < |chunks| :: r[i] == ChunkOf(chunks, merged, i)
  {
    seq(|chunks|, i requires 0 <= i < |chunks| => ChunkOf(chunks, merged, i))
  }

  ghost predicate ChunkDigestsOk(s: Scanner, records: seq<ChunkRecord>, merged: seq<ByteString>) {
    |merged| == |records| && forall i | 0 <= i < |merged| :: s.hash(merged[i]) == records[i].digest
  }

  ghost function RestoreTree(s: Scanner, meta: M.Metadata, lanes: seq<ByteString>): Result<Tree>
    requires Direct(meta.manifest.chunks) && |meta.assignments| == CountUnique(meta.manifest.chunks)
    requires |lanes| == LANE_COUNT
  {
    var m := meta.manifest;
    match Merge(lanes, meta.assignments, RecordSizes(UniqueRecords(m.chunks)))
    case Err => Err
    case Ok(merged) =>
      var xs := AllChunks(m.chunks, merged);
      if ChunkDigestsOk(s, UniqueRecords(m.chunks), merged) && forall e | e in m.entries :: DigestOk(s, e, xs)
      then Ok(Tree(m, Contents(m.entries, xs))) else Err
  }

  function SumFrames(meta: M.Metadata): nat
    requires |meta.frameCounts| == LANE_COUNT
  {
    meta.frameCounts[0] + meta.frameCounts[1] + meta.frameCounts[2]
  }

  lemma AcceptableIsDirect(rules: PathRules, maxChunkSize: nat, uniqueCount: nat, meta: M.Metadata)
    requires M.Acceptable(rules, maxChunkSize, uniqueCount, meta)
    ensures Direct(meta.manifest.chunks) && |meta.assignments| == CountUnique(meta.manifest.chunks)
    ensures |meta.frameCounts| == LANE_COUNT
    ensures WellFormed(rules, Limits(maxChunkSize, uniqueCount + 1), meta.manifest)
  {
    hide EntryOk, SizeOk, KindOk, CountUnique, CountChunks, M.LaneSize, Fits, M.CompactEntries;
    var chunks, limits := meta.manifest.chunks, Limits(maxChunkSize, uniqueCount + 1);
    forall i | 0 <= i < |chunks|
      ensures DirectReference(chunks, i)
    {
      assert ChunkOk(limits, chunks, i);
    }
  }

  lemma ParsedIsAcceptable(rules: PathRules, maxChunkSize: nat, uniqueCount: nat, text: ByteString)
    ensures match M.ParseCompact(rules, maxChunkSize, uniqueCount, text)
            case Err => true
            case Ok(meta) => M.Acceptable(rules, maxChunkSize, uniqueCount, meta)
  {
  }

  ghost function Decoded(c: SolidCodec, a: SolidFile, maxOutputSize: nat, maxFrameCount: nat): Result<Tree> {
    if !a.header.Valid() then Err else
    match OpenMetadata(c, a.header, a.body)
    case Malformed => Err
    case Parsed(text, source) =>
      match M.ParseCompact(c.rules, a.header.maxChunkSize, a.header.uniqueCount, text)
      case Err => Err
      case Ok(meta) =>
        ParsedIsAcceptable(c.rules, a.header.maxChunkSize, a.header.uniqueCount, text);
        AcceptableIsDirect(c.rules, a.header.maxChunkSize, a.header.uniqueCount, meta);
        if TotalSize(meta.manifest.entries) > maxOutputSize || SumFrames(meta) > maxFrameCount then Err else
        var associated := c.pack(a.header) + c.scanner.hash(a.body[..a.header.metadataLength]);
        match ReadLanes(c, a.header, associated, meta, source, 0, 1)
        case Malformed => Err
        case Parsed(lanes, rest) => if rest != [] then Err else RestoreTree(c.scanner, meta, lanes)
  }

  // ----- The reader as it runs

  method DecodeSolidArchive(c: SolidCodec, a: SolidFile, maxOutputSize: nat, maxFrameCount: nat)
    returns (r: Result<Tree>)
    ensures r == Decoded(c, a, maxOutputSize, maxFrameCount)
  {
    hide M.ParseCompact, M.Acceptable, OpenMetadata, ReadLanes, RestoreTree, Direct, WellFormed;
    var h := a.header;
    if !h.Valid() { return Err; }
    var text := OpenMetadata(c, h, a.body);
    if text.Malformed? { return Err; }
    var parsed := C.ParseMetadata(c.rules, h.maxChunkSize, h.uniqueCount, text.value);
    if parsed.Err? { return Err; }
    var meta := parsed.value;
    ParsedIsAcceptable(c.rules, h.maxChunkSize, h.uniqueCount, text.value);
    AcceptableIsDirect(c.rules, h.maxChunkSize, h.uniqueCount, meta);
    if TotalSize(meta.manifest.entries) > maxOutputSize || SumFrames(meta) > maxFrameCount { return Err; }
    MetadataIsThere(c, h, a.body);
    var associated := c.pack(h) + c.scanner.hash(a.body[..h.metadataLength]);
    var lanes := ReadStoredLanes(c, h, associated, meta, text.rest);
    if lanes.Malformed? { return Err; }
    if lanes.rest != [] { return Err; }
    r := RestoreFiles(c.scanner, Limits(h.maxChunkSize, h.uniqueCount + 1), c.rules, meta, lanes.value);
  }

  lemma MetadataIsThere(c: SolidCodec, h: Header, body: ByteString)
    requires OpenMetadata(c, h, body).Parsed?
    ensures h.metadataLength <= |body|
  {
  }

  method ReadStoredLanes(c: SolidCodec, h: Header, associated: ByteString, meta: M.Metadata, start: ByteString)
    returns (r: Parsed<seq<ByteString>>)
    requires h.Valid() && |meta.frameCounts| == LANE_COUNT && |meta.assignments| == CountUnique(meta.manifest.chunks)
    ensures r == ReadLanes(c, h, associated, meta, start, 0, 1)
  {
    hide ReadOneLane, M.LaneSize, LaneCodec, CountUnique;
    var rawSizes := C.LaneSizes(meta.manifest.chunks, meta.assignments);
    var lanes: seq<ByteString>, source, index: nat := [], start, 1;
    AfterNothing(ReadLanes(c, h, associated, meta, start, 0, 1));
    for lane := 0 to LANE_COUNT
      invariant |lanes| == lane
      invariant DedupManifest.After(lanes, ReadLanes(c, h, associated, meta, source, lane, index))
             == ReadLanes(c, h, associated, meta, start, 0, 1)
    {
      if meta.frameCounts[lane] == 0 {
        AfterOneMore(lanes, [], ReadLanes(c, h, associated, meta, source, lane + 1, index));
        lanes := lanes + [[]];
        continue;
      }
      var data := ReadOneLane(c, h, associated, lane, LaneCodec(meta, lane), source, index,
                              meta.frameCounts[lane], rawSizes[lane]);
      if data.Malformed? { return Malformed; }
      AfterOneMore(lanes, data.value, ReadLanes(c, h, associated, meta, data.rest, lane + 1, index + meta.frameCounts[lane]));
      lanes, source, index := lanes + [data.value], data.rest, index + meta.frameCounts[lane];
    }
    assert lanes + [] == lanes;
    r := Parsed(lanes, source);
  }

  lemma AfterOneMore(done: seq<ByteString>, lane: ByteString, p: Parsed<seq<ByteString>>)
    ensures DedupManifest.After(done + [lane], p)
            == match p
               case Malformed => Malformed
               case Parsed(later, rest) => Parsed(done + ([lane] + later), rest)
  {
    if p.Parsed? {
      assert done + [lane] + p.value == done + ([lane] + p.value);
    }
  }

  lemma {:induction false} UniqueRecordAt(chunks: seq<ChunkRecord>, n: nat, i: nat)
    requires i < n <= |chunks| && chunks[i].source == i
    ensures var rank := CountUnique(chunks[..i]);
            rank < |UniqueRecords(chunks[..n])| && UniqueRecords(chunks[..n])[rank] == chunks[i]
    decreases n
  {
    assert chunks[..n][..n - 1] == chunks[..n - 1];
    if i < n - 1 {
      UniqueRecordAt(chunks, n - 1, i);
    }
  }

  /** Every canonical occurrence before `n` is at its recorded place in the canonical file. */
  ghost predicate Located(
      chunks: seq<ChunkRecord>, n: nat, merged: seq<ByteString>, canonical: ByteString, locations: map<nat, (nat, nat)>)
    requires n <= |chunks|
  {
    forall i | 0 <= i < n && chunks[i].source == i ::
      && i in locations && CountUnique(chunks[..i]) < |merged|
      && locations[i].0 + locations[i].1 <= |canonical|
      && canonical[locations[i].0..locations[i].0 + locations[i].1] == merged[CountUnique(chunks[..i])]
  }

  lemma LocateOneMore(
      chunks: seq<ChunkRecord>, n: nat, merged: seq<ByteString>, canonical: ByteString, locations: map<nat, (nat, nat)>,
      chunk: ByteString)
    requires n < |chunks| && Located(chunks, n, merged, canonical, locations) && |merged| == CountUnique(chunks[..n])
    ensures if chunks[n].source == n then
              Located(chunks, n + 1, merged + [chunk], canonical + chunk, locations[n := (|canonical|, |chunk|)])
            else Located(chunks, n + 1, merged, canonical, locations)
  {
    hide CountUnique;
    var all := canonical + chunk;
    assert all[|canonical|..|canonical| + |chunk|] == chunk;
    forall i | 0 <= i < n && chunks[i].source == i
      ensures var at := locations[i]; all[at.0..at.0 + at.1] == canonical[at.0..at.0 + at.1]
    {
    }
  }

  /** What the loop over the unique records has established after `n` occurrences. */
  ghost predicate Merging(
      s: Scanner, chunks: seq<ChunkRecord>, assignments: seq<Lane>, lanes: seq<ByteString>,
      n: nat, merged: seq<ByteString>, positions: seq<nat>)
    requires |lanes| == LANE_COUNT && |assignments| == CountUnique(chunks) && n <= |chunks|
  {
    var records := UniqueRecords(chunks);
    && |positions| == LANE_COUNT && (forall k: Lane :: positions[k] <= |lanes[k]|)
    && |merged| == CountUnique(chunks[..n]) <= |assignments|
    && (forall i | 0 <= i < |merged| :: s.hash(merged[i]) == records[i].digest)
    && SolidLanes.After(merged, Merge(Unread(lanes, positions), assignments[|merged|..], RecordSizes(records)[|merged|..]))
       == Merge(lanes, assignments, RecordSizes(records))
  }

  lemma NothingMerged(s: Scanner, chunks: seq<ChunkRecord>, assignments: seq<Lane>, lanes: seq<ByteString>)
    requires |lanes| == LANE_COUNT && |assignments| == CountUnique(chunks)
    ensures Merging(s, chunks, assignments, lanes, 0, [], [0, 0, 0])
    ensures Located(chunks, 0, [], [], map[]) && CountUnique(chunks[..0]) == 0
  {
    hide Merge, Unread;
    assert chunks[..0] == [];
    NothingRead(lanes, assignments, RecordSizes(UniqueRecords(chunks)));
  }

  lemma SkipDuplicate(
      s: Scanner, chunks: seq<ChunkRecord>, assignments: seq<Lane>, lanes: seq<ByteString>,
      n: nat, merged: seq<ByteString>, positions: seq<nat>)
    requires |lanes| == LANE_COUNT && |assignments| == CountUnique(chunks) && n < |chunks| && chunks[n].source != n
    requires Merging(s, chunks, assignments, lanes, n, merged, positions)
    ensures Merging(s, chunks, assignments, lanes, n + 1, merged, positions)
  {
    hide Merge, Unread, CountUnique, UniqueRecords;
    CountUniqueSnoc(chunks, n);
  }

  lemma {:induction false} CountUniqueGrows(chunks: seq<ChunkRecord>, n: nat)
    requires n <= |chunks|
    ensures CountUnique(chunks[..n]) <= CountUnique(chunks)
    decreases |chunks| - n
  {
    if n == |chunks| {
      assert chunks[..n] == chunks;
    } else {
      CountUniqueSnoc(chunks, n);
      CountUniqueGrows(chunks, n + 1);
    }
  }

  /** Reading the next unique chunk from its lane; a short lane or a wrong digest is final. */
  lemma MergeUnique(
      s: Scanner, chunks: seq<ChunkRecord>, assignments: seq<Lane>, lanes: seq<ByteString>,
      n: nat, merged: seq<ByteString>, positions: seq<nat>)
    requires |lanes| == LANE_COUNT && |assignments| == CountUnique(chunks) && n < |chunks| && chunks[n].source == n
    requires Merging(s, chunks, assignments, lanes, n, merged, positions)
    ensures |merged| < |assignments|
    ensures var lane, record := assignments[|merged|], chunks[n];
            var end := positions[lane] + record.size;
            var whole := Merge(lanes, assignments, RecordSizes(UniqueRecords(chunks)));
            if end > |lanes[lane]| then whole == Err else
            var chunk := lanes[lane][positions[lane]..end];
            if s.hash(chunk) != record.digest then
              whole.Ok? ==> !ChunkDigestsOk(s, UniqueRecords(chunks), whole.value)
            else Merging(s, chunks, assignments, lanes, n + 1, merged + [chunk], positions[lane := end])
  {
    hide Merge, Unread, CountUnique, UniqueRecords, ChunkDigestsOk, SolidLanes.After;
    var records, k := UniqueRecords(chunks), |merged|;
    var sizes := RecordSizes(records);
    NextUniqueRecord(chunks, n);
    var lane := assignments[k];
    var end := positions[lane] + sizes[k];
    MergeOneMore(merged, lanes, positions, assignments[k..], sizes[k..]);
    assert assignments[k..][1..] == assignments[k + 1..] && sizes[k..][1..] == sizes[k + 1..];
    if end > |lanes[lane]| {
      NothingAfterErr(merged);
    } else {
      var chunk := lanes[lane][positions[lane]..end];
      if s.hash(chunk) != chunks[n].digest {
        WrongDigestIsFinal(s, records, merged, chunk,
                           Merge(Unread(lanes, positions[lane := end]), assignments[k + 1..], sizes[k + 1..]));
      }
    }
  }

  lemma NextUniqueRecord(chunks: seq<ChunkRecord>, n: nat)
    requires n < |chunks| && chunks[n].source == n
    ensures var k := CountUnique(chunks[..n]);
            && CountUnique(chunks[..n + 1]) == k + 1 <= CountUnique(chunks)
            && UniqueRecords(chunks)[k] == chunks[n]
  {
    hide CountUnique, UniqueRecords;
    CountUniqueSnoc(chunks, n);
    CountUniqueGrows(chunks, n + 1);
    UniqueRecordAt(chunks, |chunks|, n);
    assert chunks[..|chunks|] == chunks;
  }

  lemma WrongDigestIsFinal(
      s: Scanner, records: seq<ChunkRecord>, merged: seq<ByteString>, chunk: ByteString, later: Result<seq<ByteString>>)
    requires |merged| < |records| && s.hash(chunk) != records[|merged|].digest
    ensures var whole := SolidLanes.After(merged + [chunk], later); whole.Ok? ==> !ChunkDigestsOk(s, records, whole.value)
  {
    var whole := SolidLanes.After(merged + [chunk], later);
    if whole.Ok? {
      assert whole.value[|merged|] == chunk;
    }
  }

  lemma NothingAfterErr(merged: seq<ByteString>)
    ensures SolidLanes.After(merged, Err) == Err
  {
  }

  /** Reads every unique chunk from its lane and writes it to the canonical file. */
  method WriteCanonical(s: Scanner, chunks: seq<ChunkRecord>, assignments: seq<Lane>, lanes: seq<ByteString>)
    returns (ok: bool, canonical: ByteString, locations: map<nat, (nat, nat)>)
    requires |lanes| == LANE_COUNT && |assignments| == CountUnique(chunks)
    ensures var whole := Merge(lanes, assignments, RecordSizes(UniqueRecords(chunks)));
            && (ok <==> whole.Ok? && ChunkDigestsOk(s, UniqueRecords(chunks), whole.value))
            && (ok ==> Located(chunks, |chunks|, whole.value, canonical, locations))
  {
    hide Merge, Merging, Located, CountUnique, UniqueRecords;
    var positions: seq<nat>, unique: nat := [0, 0, 0], 0;
    canonical, locations := [], map[];
    ghost var merged: seq<ByteString> := [];
    NothingMerged(s, chunks, assignments, lanes);
    for sourceIndex := 0 to |chunks|
      invariant Merging(s, chunks, assignments, lanes, sourceIndex, merged, positions)
      invariant |merged| == CountUnique(chunks[..sourceIndex]) == unique
      invariant |positions| == LANE_COUNT && forall k: Lane :: positions[k] <= |lanes[k]|
      invariant Located(chunks, sourceIndex, merged, canonical, locations)
    {
      var record := chunks[sourceIndex];
      LocateOneMore(chunks, sourceIndex, merged, canonical, locations, []);
      CountUniqueSnoc(chunks, sourceIndex);
      if record.source != sourceIndex {
        SkipDuplicate(s, chunks, assignments, lanes, sourceIndex, merged, positions);
        continue;
      }
      MergeUnique(s, chunks, assignments, lanes, sourceIndex, merged, positions);
      var lane := assignments[unique];
      var end := positions[lane] + record.size;
      if end > |lanes[lane]| { return false, canonical, locations; }
      var chunk := lanes[lane][positions[lane]..end];
      if s.hash(chunk) != record.digest { return false, canonical, locations; }
      LocateOneMore(chunks, sourceIndex, merged, canonical, locations, chunk);
      locations := locations[sourceIndex := (|canonical|, |chunk|)];
      canonical, merged, unique := canonical + chunk, merged + [chunk], unique + 1;
      positions := positions[lane := end];
    }
    MergeEnds(s, chunks, assignments, lanes, merged, positions);
    if exists k: Lane :: positions[k] != |lanes[k]| { return false, canonical, locations; }
    ok := true;
  }

  lemma MergeEnds(
      s: Scanner, chunks: seq<ChunkRecord>, assignments: seq<Lane>, lanes: seq<ByteString>,
      merged: seq<ByteString>, positions: seq<nat>)
    requires |lanes| == LANE_COUNT && |assignments| == CountUnique(chunks)
    requires Merging(s, chunks, assignments, lanes, |chunks|, merged, positions)
    ensures |positions| == LANE_COUNT
    ensures Merge(lanes, assignments, RecordSizes(UniqueRecords(chunks)))
            == if forall k: Lane :: positions[k] == |lanes[k]| then Ok(merged) else Err
    ensures ChunkDigestsOk(s, UniqueRecords(chunks), merged)
  {
    hide Merge, Unread, CountUnique;
    assert chunks[..|chunks|] == chunks;
    var sizes := RecordSizes(UniqueRecords(chunks));
    assert assignments[|merged|..] == [] && sizes[|merged|..] == [];
    AllRead(merged, lanes, positions);
  }

  /** Copies every file from the canonical file and checks its digest. */
  method RestoreFiles(s: Scanner, ghost limits: Limits, ghost rules: PathRules, meta: M.Metadata, lanes: seq<ByteString>)
    returns (r: Result<Tree>)
    requires WellFormed(rules, limits, meta.manifest) && Direct(meta.manifest.chunks)
    requires |meta.assignments| == CountUnique(meta.manifest.chunks) && |lanes| == LANE_COUNT
    ensures r == RestoreTree(s, meta, lanes)
  {
    hide WellFormed, Merge, UniqueRecords, CountUnique, ChunkOf, FileContent, Direct;
    var m := meta.manifest;
    var ok, canonical, locations := WriteCanonical(s, m.chunks, meta.assignments, lanes);
    if !ok { return Err; }
    ghost var merged := Merge(lanes, meta.assignments, RecordSizes(UniqueRecords(m.chunks))).value;
    ghost var xs := AllChunks(m.chunks, merged);
    var contents: seq<ByteString> := [];
    for k := 0 to |m.entries|
      invariant |contents| == k && forall j | 0 <= j < k :: contents[j] == FileContent(m.entries[j], xs)
      invariant forall j | 0 <= j < k :: DigestOk(s, m.entries[j], xs)
    {
      hide Located;
      var e := m.entries[k];
      EntryInRange(rules, limits, m, e, xs);
      if e.isDirectory {
        contents := contents + [[]];
        continue;
      }
      var content := CopyFile(m.chunks, e, canonical, locations, merged);
      if s.hash(content) != e.digest {
        assert !DigestOk(s, e, xs);
        return Err;
      }
      contents := contents + [content];
    }
    assert contents == Contents(m.entries, xs);
    r := Ok(Tree(m, contents));
  }

  lemma EntryInRange(rules: PathRules, limits: Limits, m: Manifest, e: Entry, xs: seq<ByteString>)
    requires WellFormed(rules, limits, m) && e in m.entries
    ensures e.isDirectory ==> FileContent(e, xs) == []
    ensures !e.isDirectory ==> e.firstChunk + e.chunkCount <= |m.chunks|
  {
    assert SizeOk(m.chunks, e);
  }

  method CopyFile(
      chunks: seq<ChunkRecord>, e: Entry, canonical: ByteString, locations: map<nat, (nat, nat)>,
      ghost merged: seq<ByteString>)
    returns (output: ByteString)
    requires Direct(chunks) && !e.isDirectory && e.firstChunk + e.chunkCount <= |chunks|
    requires Located(chunks, |chunks|, merged, canonical, locations)
    ensures output == FileContent(e, AllChunks(chunks, merged))
  {
    hide Flatten, CountUnique;
    ghost var xs := AllChunks(chunks, merged);
    output := [];
    NothingToFlatten(xs[..e.firstChunk]);
    assert xs[e.firstChunk..e.firstChunk] == [] == xs[..e.firstChunk][e.firstChunk..];
    for i := e.firstChunk to e.firstChunk + e.chunkCount
      invariant output == Flatten(xs[e.firstChunk..i])
    {
      assert DirectReference(chunks, i);
      var at := locations[chunks[i].source];
      var chunk := canonical[at.0..at.0 + at.1];
      assert chunk == ChunkOf(chunks, merged, i);
      assert xs[e.firstChunk..i + 1] == xs[e.firstChunk..i] + [xs[i]];
      FlattenSnoc(xs[e.firstChunk..i], xs[i]);
      output := output + chunk;
    }
  }
}
