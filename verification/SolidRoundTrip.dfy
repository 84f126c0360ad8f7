/** Decoding an MSR2 archive restores the source it was written from. */
module SolidRoundTrip {
  import opened Bytes
  import opened DedupManifest
  import opened DedupScan
  import opened PackedLanes
  import opened SolidLanes
  import opened Padding
  import opened Sealing
  import opened SolidArchive
  import C = CompactCodec
  import D = DedupArchive
  import F = SolidFrames
  import M = CompactMetadata
  import R = DedupRoundTrip
  import U = CompactUint

  // ----- The metadata frame

  lemma EnvelopeOpens(lib: Compressor, text: ByteString)
    requires lib.Inverse() && |text| < Pow256(8)
    ensures OpenEnvelope(lib, Envelope(lib, text)) == if |text| <= MAX_MANIFEST then Ok(text) else Err
  {
    hide BigEndian, FromBigEndian, Pow256;
    var d := Envelope(lib, text);
    assert d[..4] == ENVELOPE_MAGIC;
    assert d[4..5] == BigEndian(METADATA_CODEC, 1);
    assert d[5..ENVELOPE_BYTES] == BigEndian(|text|, 8);
    assert d[ENVELOPE_BYTES..] == lib.zip(text);
    OneByte(METADATA_CODEC);
    FromBigEndianInverse(|text|, 8);
  }

  /** The header a writer emits is accepted exactly when the metadata frame is within the reader's limit. */
  lemma WrittenHeaderIsValid(c: SolidCodec, o: SolidSettings, meta: M.Metadata)
    requires c.Valid() && o.Valid() && o.InRange() && Sealable(c, meta)
    ensures var h := HeaderOf(c, o, |meta.assignments|, |Envelope(c.lib, M.Print(meta))|);
            h.Valid() <==> h.metadataLength <= MAX_METADATA_CIPHERTEXT
  {
    hide M.Print, Envelope, PaddedSize;
    PaddedSizeIsQuotient(|Envelope(c.lib, M.Print(meta))|, o.paddingSize);
  }

  lemma WrittenMetadataOpens(c: SolidCodec, o: SolidSettings, meta: M.Metadata, rest: ByteString)
    requires c.Valid() && o.Valid() && o.InRange() && Sealable(c, meta)
    ensures var envelope := Envelope(c.lib, M.Print(meta));
            var h := HeaderOf(c, o, |meta.assignments|, |envelope|);
            var ciphertext := MetadataCiphertext(c, o, h, envelope);
            && |ciphertext| == h.metadataLength
            && OpenMetadata(c, h, ciphertext + rest)
               == if |M.Print(meta)| <= MAX_MANIFEST then Parsed(M.Print(meta), rest) else Malformed
  {
    hide Pow256, PadPayload, UnpadPayload, PaddedSize, FrameNonce, M.Print, Envelope, OpenEnvelope, TakeBytes;
    var text := M.Print(meta);
    var envelope := Envelope(c.lib, text);
    var h := HeaderOf(c, o, |meta.assignments|, |envelope|);
    var ciphertext := MetadataCiphertext(c, o, h, envelope);
    EnvelopeOpens(c.lib, text);
    EnvelopeLength();
    UnpadPad(envelope, o.paddingSize, o.noise(0));
    TakeBytesExact(ciphertext + rest, h.metadataLength, ciphertext, rest);
  }

  lemma EnvelopeLength()
    ensures MAX_MANIFEST < Pow256(LENGTH_BYTES)
  {
    assert Pow256(8) == 0x1_0000_0000_0000_0000;
  }

  // ----- The lanes

  lemma StoredLaneReads(
      c: SolidCodec, o: SolidSettings, h: Header, associated: ByteString, lane: Lane, data: ByteString,
      index: nat, rest: ByteString)
    requires c.Valid() && o.Valid() && o.InRange() && h.Valid() && data != []
    requires h.frameSize == o.frameSize && h.paddingSize == o.paddingSize
    requires var s, options := StoreLane(c.lib, o, lane, data), LaneOptions(h, associated, lane);
             && F.WrittenLane(c.aead, options, o.noise, index, s.payload).Ok?
             && |F.Split(s.payload, h.frameSize)| == s.frameCount
    ensures var s, options := StoreLane(c.lib, o, lane, data), LaneOptions(h, associated, lane);
            ReadOneLane(c, h, associated, lane, s.codec,
                        F.WrittenLane(c.aead, options, o.noise, index, s.payload).value + rest,
                        index, s.frameCount, |data|)
            == Parsed(data, rest)
  {
    hide F.ReadLane, F.TakeFrames, F.Framed, F.SolidLaneFramedSize, F.Split, Flatten, F.WellCut;
    var s, options := StoreLane(c.lib, o, lane, data), LaneOptions(h, associated, lane);
    if s.codec == M.RAW {
      F.LaneRoundTrip(c.aead, options, o.noise, index, data, rest);
    } else {
      F.SplitIsWellCut(options, s.payload);
      F.FramesRoundTrip(c.aead, options, o.noise, index, F.Split(s.payload, h.frameSize), rest);
    }
  }

  /** What the reader needs to know of the metadata to read the lanes `lanes`. */
  ghost predicate Describes(meta: M.Metadata, stored: seq<Stored>, lanes: seq<ByteString>) {
    && |stored| == |lanes| == |meta.frameCounts| == |meta.codecs| == LANE_COUNT
    && forall k: Lane ::
         && meta.frameCounts[k] == stored[k].frameCount && meta.codecs[k] == stored[k].codec
         && M.LaneSize(meta.manifest.chunks, meta.assignments, k) == |lanes[k]|
  }

  lemma {:induction false} WrittenLanesRead(
      c: SolidCodec, o: SolidSettings, h: Header, associated: ByteString, meta: M.Metadata, lanes: seq<ByteString>,
      lane: nat, index: nat, rest: ByteString)
    requires c.Valid() && o.Valid() && o.InRange() && h.Valid() && |lanes| == LANE_COUNT && lane <= LANE_COUNT
    requires h.frameSize == o.frameSize && h.paddingSize == o.paddingSize
    requires Describes(meta, StoreLanes(c.lib, o, lanes), lanes)
    requires WriteLanes(c, o.noise, h, associated, StoreLanes(c.lib, o, lanes), lane, index).Ok?
    ensures ReadLanes(c, h, associated, meta,
                      WriteLanes(c, o.noise, h, associated, StoreLanes(c.lib, o, lanes), lane, index).value + rest,
                      lane, index)
            == Parsed(lanes[lane..], rest)
    decreases LANE_COUNT - lane
  {
    hide ReadOneLane, StoreLane, F.WrittenLane, F.Split, M.LaneSize;
    var stored := StoreLanes(c.lib, o, lanes);
    var written := WriteLanes(c, o.noise, h, associated, stored, lane, index).value;
    if lane == LANE_COUNT {
      assert written + rest == rest && lanes[lane..] == [];
    } else {
      EmptyLaneIsEmpty(c.lib, o, lane, lanes[lane]);
      assert lanes[lane..] == [lanes[lane]] + lanes[lane + 1..];
      if stored[lane].rawSize == 0 {
        WrittenLanesRead(c, o, h, associated, meta, lanes, lane + 1, index, rest);
      } else {
        var count := stored[lane].frameCount;
        var frames := F.WrittenLane(c.aead, LaneOptions(h, associated, lane), o.noise, index, stored[lane].payload).value;
        var later := WriteLanes(c, o.noise, h, associated, stored, lane + 1, index + count).value;
        assert (frames + later) + rest == frames + (later + rest);
        StoredLaneReads(c, o, h, associated, lane, lanes[lane], index, later + rest);
        WrittenLanesRead(c, o, h, associated, meta, lanes, lane + 1, index + count, rest);
      }
    }
  }

  lemma EmptyLaneIsEmpty(lib: Compressor, o: SolidSettings, lane: Lane, data: ByteString)
    requires o.InRange()
    ensures var s := StoreLane(lib, o, lane, data); (s.rawSize == 0 <==> data == []) && (data == [] ==> s.frameCount == 0)
  {
  }

  // ----- The metadata describes what was spooled

  lemma RecordsPrefix(s: Scanner, occ: seq<ByteString>, n: nat)
    requires n <= |occ|
    ensures Records(s, occ)[..n] == Records(s, occ[..n])
  {
    hide First;
    assert occ == occ[..n] + occ[n..];
    forall j: nat | j < n
      ensures Records(s, occ)[j] == Records(s, occ[..n])[j]
    {
      FirstIsLocal(s, occ[..n], occ[n..], j);
    }
  }

  /** The last occurrence and its record. */
  lemma ScanLast(s: Scanner, occ: seq<ByteString>)
    requires occ != []
    ensures var n, records := |occ| - 1, Records(s, occ);
            && records[..n] == Records(s, occ[..n])
            && records[n].size == |occ[n]| && records[n].digest == s.hash(occ[n])
            && UniqueChunks(s, occ) == UniqueChunks(s, occ[..n]) + (if records[n].source == n then [occ[n]] else [])
  {
    hide First;
    RecordsPrefix(s, occ, |occ| - 1);
  }

  lemma NoOccurrences(s: Scanner)
    ensures Records(s, []) == [] && UniqueChunks(s, []) == []
  {
  }

  lemma GatherNothing(lane: Lane)
    ensures Gather([], [], lane) == []
  {
  }

  /** The unique records are those of the unique chunks. */
  lemma {:induction false} UniqueRecordsOf(s: Scanner, occ: seq<ByteString>)
    ensures var unique, records := UniqueChunks(s, occ), UniqueRecords(Records(s, occ));
            && |records| == |unique|
            && forall j | 0 <= j < |unique| :: records[j].size == |unique[j]| && records[j].digest == s.hash(unique[j])
    decreases |occ|
  {
    hide UniqueChunks, Records, UniqueRecords, Record;
    if occ == [] {
      NoOccurrences(s);
      NoUniqueRecords();
    } else {
      var n, records := |occ| - 1, Records(s, occ);
      ScanLast(s, occ);
      UniqueRecordsOf(s, occ[..n]);
      UniqueRecordsSnoc(records, n);
      assert records[..n + 1] == records;
    }
  }

  lemma NoUniqueRecords()
    ensures UniqueRecords([]) == []
  {
  }

  lemma UniqueRecordsSnoc(chunks: seq<ChunkRecord>, n: nat)
    requires n < |chunks|
    ensures UniqueRecords(chunks[..n + 1])
            == UniqueRecords(chunks[..n]) + (if chunks[n].source == n then [chunks[n]] else [])
  {
    assert chunks[..n + 1][..n] == chunks[..n];
  }

  lemma {:induction false} LaneSizeIsLength(s: Scanner, occ: seq<ByteString>, assignments: seq<Lane>, lane: Lane)
    requires |UniqueChunks(s, occ)| <= |assignments|
    ensures var unique := UniqueChunks(s, occ);
            && |unique| == CountUnique(Records(s, occ))
            && M.LaneSize(Records(s, occ), assignments, lane) == |Gather(unique, assignments[..|unique|], lane)|
    decreases |occ|
  {
    hide UniqueChunks, Records, Gather, M.LaneSize, CountUnique;
    if occ == [] {
      NoOccurrences(s);
      C.NothingInLanes(assignments);
      GatherNothing(lane);
    } else {
      var n, records, unique := |occ| - 1, Records(s, occ), UniqueChunks(s, occ);
      var before := UniqueChunks(s, occ[..n]);
      ScanLast(s, occ);
      LaneSizeIsLength(s, occ[..n], assignments, lane);
      CountUniqueSnoc(records, n);
      M.LaneSizeSnoc(records, assignments, lane, n);
      assert records[..n + 1] == records;
      if records[n].source == n {
        assert assignments[..|unique|] == assignments[..|before|] + [assignments[|before|]];
        GatherSnoc(before, assignments[..|before|], occ[n], assignments[|before|], lane);
      } else {
        assert unique == before + [] == before;
      }
    }
  }

  lemma SourceIsDescribed(c: SolidCodec, o: SolidSettings, source: Source)
    requires c.Valid() && o.InRange()
    ensures var unique := UniqueChunks(c.scanner, Occurrences(c.scanner, source.items));
            var lanes := Partition(unique, Routed(c.route, unique));
            Describes(SourceMetadata(c, o, source), StoreLanes(c.lib, o, lanes), lanes)
  {
    hide Occurrences, UniqueChunks, Records, Entries, StoreLane, Gather, M.LaneSize;
    var s, occ := c.scanner, Occurrences(c.scanner, source.items);
    var unique := UniqueChunks(s, occ);
    var assignments := Routed(c.route, unique);
    assert assignments[..|unique|] == assignments;
    forall k: Lane
      ensures M.LaneSize(Records(s, occ), assignments, k) == |Gather(unique, assignments, k)|
    {
      LaneSizeIsLength(s, occ, assignments, k);
    }
  }

  // ----- The merged chunks are the occurrences

  lemma {:induction false} UniqueChunksGrow(s: Scanner, occ: seq<ByteString>, n: nat)
    requires n <= |occ|
    ensures UniqueChunks(s, occ[..n]) <= UniqueChunks(s, occ)
    decreases |occ|
  {
    hide First;
    if n == |occ| {
      assert occ[..n] == occ;
    } else {
      var last := |occ| - 1;
      UniqueChunksGrow(s, occ[..last], n);
      assert occ[..last][..n] == occ[..n];
    }
  }

  lemma UniqueChunkAt(s: Scanner, occ: seq<ByteString>, i: nat)
    requires i < |occ| && First(s, occ, i) == i
    ensures var rank := CountUnique(Records(s, occ)[..i]);
            rank < |UniqueChunks(s, occ)| && UniqueChunks(s, occ)[rank] == occ[i]
  {
    hide UniqueChunks, CountUnique;
    var upto := occ[..i + 1];
    RecordsPrefix(s, occ, i);
    UniqueIsCounted(s, occ[..i]);
    ScanLast(s, upto);
    assert upto[..i] == occ[..i] && occ == upto + occ[i + 1..];
    FirstIsLocal(s, upto, occ[i + 1..], i);
    UniqueChunksGrow(s, occ, i + 1);
  }

  lemma OccurrencesComeBack(s: Scanner, occ: seq<ByteString>)
    requires R.Distinguished(s, occ)
    ensures D.Direct(Records(s, occ)) && AllChunks(Records(s, occ), UniqueChunks(s, occ)) == occ
  {
    hide UniqueChunks, CountUnique, R.Distinguished;
    R.ScannedIsDirect(s, occ);
    var records := Records(s, occ);
    forall i | 0 <= i < |occ|
      ensures ChunkOf(records, UniqueChunks(s, occ), i) == occ[i]
    {
      var f := First(s, occ, i);
      assert records[i] == Record(s, occ, i) && First(s, occ, f) == f;
      R.SourceIsSame(s, occ, i);
      UniqueChunkAt(s, occ, f);
    }
  }

  lemma TreeComesBack(c: SolidCodec, o: SolidSettings, source: Source)
    requires c.Valid() && o.InRange() && Discovered(c.rules, source)
    requires R.Distinguished(c.scanner, Occurrences(c.scanner, source.items))
    ensures var meta := SourceMetadata(c, o, source);
            var unique := UniqueChunks(c.scanner, Occurrences(c.scanner, source.items));
            && D.Direct(meta.manifest.chunks) && |meta.assignments| == CountUnique(meta.manifest.chunks)
            && RestoreTree(c.scanner, meta, Partition(unique, meta.assignments))
               == Ok(D.Tree(meta.manifest, R.ContentsOf(source.items)))
  {
    hide Occurrences, UniqueChunks, Records, Entries, StoreLane, Partition, Merge, UniqueRecords, CountUnique, Routed,
         R.Distinguished, D.DigestOk, D.Contents, AllChunks, Discovered, D.Direct;
    var s, occ := c.scanner, Occurrences(c.scanner, source.items);
    var unique, records := UniqueChunks(s, occ), Records(s, occ);
    ScannedCounts(s, source.items);
    OccurrencesComeBack(s, occ);
    UniqueRecordsOf(s, occ);
    assert RecordSizes(UniqueRecords(records)) == Sizes(unique);
    MergePartition(unique, Routed(c.route, unique));
    R.FilesComeBack(c.rules, s, source);
  }

  // ----- The reader's view of the metadata

  lemma ScannedCompactFits(c: SolidCodec, o: SolidSettings, source: Source)
    requires c.Valid() && o.InRange() && Discovered(c.rules, source) && C.Printable(SourceMetadata(c, o, source))
    ensures M.CompactFits(M.ToCompact(SourceMetadata(c, o, source)))
  {
    hide Occurrences, UniqueChunks, Routed, StoredOf, Discovered, C.EntryPrintable, C.ChunkPrintable,
         M.EntryFits, M.ChunkFits, M.CompactEntryOf, M.CompactChunkOf;
    var meta, compact := SourceMetadata(c, o, source), M.ToCompact(SourceMetadata(c, o, source));
    DiscoveredNames(c.rules, source);
    WideEnough();
    assert forall k | 0 <= k < LANE_COUNT :: U.Fits(compact.codecs[k]) by {
      assert forall k | 0 <= k < LANE_COUNT :: M.CodecOk(k, compact.codecs[k]);
    }
    forall i: nat | i < |compact.entries|
      ensures M.EntryFits(compact.entries[i])
    {
      assert C.EntryPrintable(compact.entries[i]);
      ScannedEntryFitsCompact(c, source, i);
    }
    forall i: nat | i < |compact.chunks|
      ensures M.ChunkFits(compact.chunks[i])
    {
      assert C.ChunkPrintable(compact.chunks[i]);
      ScannedChunkFitsCompact(c, source, i);
    }
  }

  lemma WideEnough()
    ensures 2 * Pow256(2) + 1 <= U.MAX_COMPACT_UINT
  {
    assert Pow256(2) == 65536;
  }

  lemma ScannedEntryFitsCompact(c: SolidCodec, source: Source, i: nat)
    requires c.Valid() && Discovered(c.rules, source) && i < |source.items|
    requires C.EntryPrintable(M.CompactEntryOf(Entries(c.scanner, source.items), i))
    ensures M.EntryFits(M.CompactEntryOf(Entries(c.scanner, source.items), i))
  {
    hide Occurrences, FileChunks, Discovered, Pow256;
    DiscoveredNames(c.rules, source);
    WideEnough();
    assert ItemOk(c.rules, source.items[i]);
    assert Entries(c.scanner, source.items)[i] == EntryOf(c.scanner, source.items, i);
  }

  lemma ScannedChunkFitsCompact(c: SolidCodec, source: Source, i: nat)
    requires c.Valid() && i < |Occurrences(c.scanner, source.items)|
    requires C.ChunkPrintable(M.CompactChunkOf(Records(c.scanner, Occurrences(c.scanner, source.items)), i))
    ensures M.ChunkFits(M.CompactChunkOf(Records(c.scanner, Occurrences(c.scanner, source.items)), i))
  {
    hide Occurrences, First;
    var occ := Occurrences(c.scanner, source.items);
    assert Records(c.scanner, occ)[i] == Record(c.scanner, occ, i);
  }

  /** The bounds that only the reader has. */
  predicate Admissible(meta: M.Metadata) {
    |meta.manifest.chunks| <= MAX_CHUNK_RECORDS && forall n | n in meta.frameCounts :: n <= M.MAX_FRAMES_PER_LANE
  }

  ghost predicate FramesPlanned(meta: M.Metadata) {
    |meta.frameCounts| == LANE_COUNT
    && forall k: Lane :: M.LaneSize(meta.manifest.chunks, meta.assignments, k) == 0 <==> meta.frameCounts[k] == 0
  }

  lemma ScannedIsAcceptable(c: SolidCodec, o: SolidSettings, source: Source)
    requires c.Valid() && o.InRange() && Discovered(c.rules, source)
    requires C.Printable(SourceMetadata(c, o, source)) && FramesPlanned(SourceMetadata(c, o, source))
    ensures var meta := SourceMetadata(c, o, source);
            M.Acceptable(c.rules, c.scanner.config.maxSize, |meta.assignments|, meta) <==> Admissible(meta)
  {
    hide Occurrences, UniqueChunks, Routed, StoredOf, Discovered, M.LaneSize, WellFormed, Fits, FitsSigned,
         M.CompactEntries, C.ChunkPrintable, Records, Entries;
    var meta := SourceMetadata(c, o, source);
    ScannedIsWellFormed(c.rules, c.scanner, source);
    if |meta.manifest.chunks| <= MAX_CHUNK_RECORDS {
      ScannedFits(c.rules, c.scanner, source);
    }
    assert forall e | e in M.CompactEntries(meta.manifest.entries) :: FitsSigned(e.mtimeDelta, 8) by {
      assert forall e | e in M.ToCompact(meta).entries :: C.EntryPrintable(e);
    }
  }

  lemma WrittenMetadataParses(c: SolidCodec, o: SolidSettings, source: Source)
    requires c.Valid() && o.InRange() && Discovered(c.rules, source)
    requires C.Printable(SourceMetadata(c, o, source)) && FramesPlanned(SourceMetadata(c, o, source))
    ensures var meta := SourceMetadata(c, o, source);
            M.ParseCompact(c.rules, c.scanner.config.maxSize, |meta.assignments|, M.Print(meta))
            == if Admissible(meta) then Ok(meta) else Err
  {
    hide Occurrences, UniqueChunks, Routed, StoredOf, Discovered, M.LaneSize, WellFormed, Fits, M.Acceptable,
         M.CompactEntries, M.CompactChunks, M.ReadCompact, M.BuildChunks, M.BuildEntries, M.CompactFits, M.PrintCompact,
         C.Printable, FramesPlanned, Records, Entries, ChunkOk;
    var meta := SourceMetadata(c, o, source);
    var limits, chunks := Limits(c.scanner.config.maxSize, |meta.assignments| + 1), meta.manifest.chunks;
    ScannedCompactFits(c, o, source);
    ScannedIsAcceptable(c, o, source);
    M.ReadCompactExact(M.Print(meta), |meta.assignments|, M.ToCompact(meta));
    ScannedChunksOk(c.scanner, source.items, limits);
    assert chunks == Records(c.scanner, Occurrences(c.scanner, source.items));
    M.RebuiltChunks(chunks, limits, |chunks|);
    assert M.CompactChunks(chunks)[..|chunks|] == M.CompactChunks(chunks) && chunks[..|chunks|] == chunks;
    if |chunks| <= MAX_CHUNK_RECORDS {
      ScannedIsWellFormed(c.rules, c.scanner, source);
      M.RebuiltEntries(c.rules, limits, meta.manifest);
    } else {
      TooManyChunks(c.rules, limits.maxChunkSize, |meta.assignments|);
    }
  }

  lemma TooManyChunks(rules: PathRules, maxChunkSize: nat, uniqueCount: nat)
    ensures forall m: M.Metadata | |m.manifest.chunks| > MAX_CHUNK_RECORDS ::
              !M.Acceptable(rules, maxChunkSize, uniqueCount, m)
  {
  }

  // ----- The theorem

  /** If the lanes were written at all, each nonempty lane has a planned frame. */
  lemma {:induction false} WrittenIsPlanned(
      c: SolidCodec, o: SolidSettings, h: Header, associated: ByteString, lanes: seq<ByteString>, lane: nat, index: nat)
    requires o.InRange() && F.Sized(o.noise) && h.frameSize > 0 && |lanes| == LANE_COUNT && lane <= LANE_COUNT
    requires WriteLanes(c, o.noise, h, associated, StoreLanes(c.lib, o, lanes), lane, index).Ok?
    ensures forall k: Lane | lane <= k :: StoreLanes(c.lib, o, lanes)[k].frameCount == 0 <==> lanes[k] == []
    decreases LANE_COUNT - lane
  {
    hide StoreLane, F.WrittenLane, F.Split;
    if lane < LANE_COUNT {
      var stored := StoreLanes(c.lib, o, lanes);
      EmptyLaneIsEmpty(c.lib, o, lane, lanes[lane]);
      var next := if stored[lane].rawSize == 0 then index else index + |F.Split(stored[lane].payload, h.frameSize)|;
      WrittenIsPlanned(c, o, h, associated, lanes, lane + 1, next);
    }
  }

  /**
   * Whatever archive the writer produces, decoding it restores the scanned source, byte for byte, for any
   * routing of its chunks, exactly when the reader's own bounds admit the metadata and the caller's limits
   * admit the archive. The writer checks none of these bounds as strictly as the reader does.
   */
  lemma DecodeRestores(
      c: SolidCodec, o: SolidSettings, source: Source, maxOutputSize: nat, maxFrameCount: nat)
    requires c.Valid() && o.Valid() && Discovered(c.rules, source)
    requires R.Distinguished(c.scanner, Occurrences(c.scanner, source.items))
    ensures match Encoded(c, o, source)
            case Err => true
            case Ok(a) =>
              && o.InRange()
              && (var r := Decoded(c, a, maxOutputSize, maxFrameCount); r.Ok? ==> D.IsSource(c.scanner, r.value, source))
              && var meta := SourceMetadata(c, o, source);
                 Decoded(c, a, maxOutputSize, maxFrameCount)
                 == if && a.header.metadataLength <= MAX_METADATA_CIPHERTEXT
                       && |M.Print(meta)| <= MAX_MANIFEST
                       && Admissible(meta)
                       && TotalSize(meta.manifest.entries) <= maxOutputSize
                       && SumFrames(meta) <= maxFrameCount
                    then Ok(D.Tree(meta.manifest, R.ContentsOf(source.items)))
                    else Err
  {
    hide Encoded, Decoded, M.Print, Admissible, TotalSize, StoredOf, UniqueChunks, ManifestOf, Discovered, R.Distinguished,
         D.IsSource;
    R.ScannedTreeIsSource(c.scanner, source);
    if Encoded(c, o, source).Ok? {
      EncodedDecodes(c, o, source, Encoded(c, o, source).value, maxOutputSize, maxFrameCount);
    }
  }

  lemma EncodedDecodes(
      c: SolidCodec, o: SolidSettings, source: Source, a: SolidFile, maxOutputSize: nat, maxFrameCount: nat)
    requires c.Valid() && o.Valid() && Discovered(c.rules, source) && Encoded(c, o, source) == Ok(a)
    requires R.Distinguished(c.scanner, Occurrences(c.scanner, source.items))
    ensures o.InRange()
    ensures var meta := SourceMetadata(c, o, source);
            Decoded(c, a, maxOutputSize, maxFrameCount)
            == if && a.header.metadataLength <= MAX_METADATA_CIPHERTEXT
                  && |M.Print(meta)| <= MAX_MANIFEST
                  && Admissible(meta)
                  && TotalSize(meta.manifest.entries) <= maxOutputSize
                  && SumFrames(meta) <= maxFrameCount
               then Ok(D.Tree(meta.manifest, R.ContentsOf(source.items)))
               else Err
  {
    hide Occurrences, UniqueChunks, Routed, Discovered, M.LaneSize, C.Printable, M.ParseCompact, M.Print, Envelope,
         MetadataCiphertext, OpenMetadata, ReadLanes, WriteLanes, Partition, RestoreTree, R.Distinguished, D.Direct,
         StoreLanes, ManifestOf, TotalSize, Sealable, Admissible, M.Acceptable, CountUnique, PaddedSize;
    var meta := SourceMetadata(c, o, source);
    var unique := UniqueChunks(c.scanner, Occurrences(c.scanner, source.items));
    var lanes := Partition(unique, Routed(c.route, unique));
    var envelope := Envelope(c.lib, M.Print(meta));
    var h := HeaderOf(c, o, |meta.assignments|, |envelope|);
    var ciphertext := MetadataCiphertext(c, o, h, envelope);
    var associated := c.pack(h) + c.scanner.hash(ciphertext);
    var frames := WriteLanes(c, o.noise, h, associated, StoreLanes(c.lib, o, lanes), 0, 1).value;
    assert a == SolidFile(h, ciphertext + frames);
    WrittenHeaderIsValid(c, o, meta);
    WrittenMetadataOpens(c, o, meta, frames);
    assert (ciphertext + frames)[..h.metadataLength] == ciphertext;
    WrittenIsPlanned(c, o, h, associated, lanes, 0, 1);
    SourceIsDescribed(c, o, source);
    DescribedIsPlanned(meta, StoreLanes(c.lib, o, lanes), lanes);
    WrittenMetadataParses(c, o, source);
    if h.Valid() {
      assert frames + [] == frames && lanes[0..] == lanes;
      WrittenLanesRead(c, o, h, associated, meta, lanes, 0, 1, []);
      TreeComesBack(c, o, source);
    }
  }

  lemma DescribedIsPlanned(meta: M.Metadata, stored: seq<Stored>, lanes: seq<ByteString>)
    requires Describes(meta, stored, lanes) && forall k: Lane :: stored[k].frameCount == 0 <==> lanes[k] == []
    ensures FramesPlanned(meta)
  {
  }

  /** The metadata opens only under the public header that it was written for, if the cipher tells the headers apart. */
  lemma MetadataIsBound(
      c: SolidCodec, o: SolidSettings, h: Header, h': Header, envelope: ByteString, rest: ByteString)
    requires c.Valid() && o.Valid() && o.InRange() && |envelope| < Pow256(LENGTH_BYTES)
    requires h'.metadataLength == |MetadataCiphertext(c, o, h, envelope)|
    requires c.aead.Separates(FrameNonce(o.noncePrefix, 0), (c.pack(h), []), FrameNonce(h'.noncePrefix, 0), (c.pack(h'), []))
    ensures OpenMetadata(c, h', MetadataCiphertext(c, o, h, envelope) + rest).Parsed? ==> c.pack(h') == c.pack(h)
  {
    hide PadPayload, UnpadPayload, FrameNonce, OpenEnvelope, TakeBytes;
    var ciphertext := MetadataCiphertext(c, o, h, envelope);
    TakeBytesExact(ciphertext + rest, h'.metadataLength, ciphertext, rest);
  }
}
