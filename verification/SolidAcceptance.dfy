/** Which sources the MSR2 writer accepts: of those of bounded size, the ones whose recorded times can be told apart in 64 bits. */
module SolidAcceptance {
  import opened Bytes
  import opened DedupManifest
  import opened DedupScan
  import opened Sealing
  import Cdc
  import C = CompactCodec
  import DA = DedupAcceptance
  import F = SolidFrames
  import L = SolidLanes
  import M = CompactMetadata
  import P = PackedLanes
  import Padding
  import S = SolidArchive
  import SR = SolidRoundTrip
  import U = CompactUint

  /** No compressed form is empty, or more than twice its original and one KiB. */
  ghost predicate Modest(lib: S.Compressor) {
    && (forall lane: P.Lane, data: ByteString :: |lib.compress(lane, data)| <= 2 * |data| + 1024)
    && (forall lane: P.Lane, data: ByteString :: data != [] ==> lib.compress(lane, data) != [])
    && (forall data: ByteString :: |lib.zip(data)| <= 2 * |data| + 1024)
  }

  /** Storing everything as it is. */
  function Plain(): S.Compressor {
    S.Compressor((lane: P.Lane, data: ByteString) => data, (codec: nat, lane: P.Lane, data: ByteString, size: nat) => Ok(data),
                 (data: ByteString) => data, (data: ByteString, size: nat) => Ok(data))
  }

  lemma PlainIsModest()
    ensures Plain().Inverse() && Modest(Plain())
  {
  }

  // ----- The size of the metadata

  lemma {:induction false} ShortNumber(v: nat, n: nat)
    requires n > 0 && v < U.Pow128(n)
    ensures |U.Print(v)| <= n
    decreases n
  {
    if v >= 128 {
      ShortNumber(v / 128, n - 1);
    }
  }

  lemma FittingNumber(v: nat)
    requires U.Fits(v)
    ensures |U.Print(v)| <= 10
  {
    assert U.Pow128(4) == 0x1000_0000;
    assert U.Pow128(8) == 0x100_0000_0000_0000;
    assert U.Pow128(10) == 0x40_0000_0000_0000_0000;
    ShortNumber(v, 10);
  }

  lemma ThreeNumbers(numbers: seq<nat>)
    requires |numbers| == P.LANE_COUNT && forall n | n in numbers :: U.Fits(n)
    ensures |PrintMany(U.Print, numbers)| <= 30
  {
    hide U.Print;
    FittingNumber(numbers[0]);
    FittingNumber(numbers[1]);
    FittingNumber(numbers[2]);
    assert numbers == [numbers[0]] + [numbers[1]] + [numbers[2]];
    assert numbers[1..][1..] == numbers[2..] && numbers[2..][1..] == [];
    assert PrintMany(U.Print, numbers[2..]) == U.Print(numbers[2]) + PrintMany(U.Print, []);
  }

  lemma EntryTextSize(e: M.CompactEntry)
    requires C.EntryPrintable(e) && |e.digest| == DIGEST_BYTES
    ensures |M.PrintEntry(e)| <= 72 + |e.path|
  {
    hide U.Print, U.Pow128;
    FittingNumber(2 * |e.path| + M.Bit(e.isDirectory));
    FittingNumber(e.mode);
    U.ZigzagIsBijective(e.mtimeDelta, U.Zigzag(e.mtimeDelta));
    FittingNumber(U.Zigzag(e.mtimeDelta));
    if !e.isDirectory {
      FittingNumber(e.chunkCount);
    }
  }

  /** The most that the entries of these items take. */
  function EntryText(items: seq<Item>): nat {
    if items == [] then 0 else 72 + |items[0].path| + EntryText(items[1..])
  }

  /** The most that the metadata of a source with `chunks` chunks takes. */
  function MetadataText(source: Source, chunks: nat): nat {
    94 + |source.rootName| + EntryText(source.items) + 44 * chunks
  }

  lemma {:induction false} EntriesTextSize(entries: seq<M.CompactEntry>, items: seq<Item>)
    requires |entries| == |items|
    requires forall k | 0 <= k < |items| ::
               C.EntryPrintable(entries[k]) && |entries[k].digest| == DIGEST_BYTES && entries[k].path == items[k].path
    ensures |PrintMany(M.PrintEntry, entries)| <= EntryText(items)
  {
    hide M.PrintEntry, C.EntryPrintable;
    if entries != [] {
      EntryTextSize(entries[0]);
      EntriesTextSize(entries[1..], items[1..]);
    }
  }

  lemma {:induction false} ChunksTextSize(chunks: seq<M.CompactChunk>)
    requires forall x | x in chunks :: M.ChunkFits(x)
    ensures |PrintMany(M.PrintChunk, chunks)| <= 43 * |chunks|
  {
    hide U.Print, U.Pow128;
    if chunks != [] {
      assert M.ChunkFits(chunks[0]);
      match chunks[0] {
        case Fresh(size, _) => FittingNumber(size);
        case Duplicate(first) => FittingNumber(first);
      }
      ChunksTextSize(chunks[1..]);
    }
  }

  /** The head, the frame counts and the codecs take at most 94 bytes besides the root's name. */
  lemma CompactTextSize(c: M.Compact)
    requires M.CompactFits(c) && c.codecs != []
    ensures |M.PrintCompact(c)| <= 94 + |c.rootName| + |PrintMany(M.PrintEntry, c.entries)|
                                   + |PrintMany(M.PrintChunk, c.chunks)| + |c.assignments|
  {
    hide U.Print, U.Pow128, M.PrintEntry, M.PrintChunk;
    ThreeNumbers(c.frameCounts);
    ThreeNumbers(c.codecs);
    FittingNumber(2 * |c.rootName| + M.Bit(c.kind.KindFolder?));
    FittingNumber(|c.entries|);
    FittingNumber(|c.chunks|);
  }

  // ----- The lanes

  const MOST_BYTES := 0x40_0000_0000 // 256 GiB
  const MOST_FRAMES := 0x2000_0002

  lemma StoredLane(c: S.SolidCodec, o: S.SolidSettings, lane: P.Lane, data: ByteString)
    requires c.Valid() && o.Valid() && o.InRange() && Modest(c.lib) && |data| <= MOST_BYTES && data != []
    ensures var stored := S.StoreLane(c.lib, o, lane, data);
            && stored.rawSize > 0 && stored.payload != []
            && stored.frameCount == |F.Split(stored.payload, o.frameSize)| <= MOST_FRAMES
            && M.CodecOk(lane, stored.codec)
  {
    hide F.Split, F.SolidLaneFramedSize;
    var stored := S.StoreLane(c.lib, o, lane, data);
    assert stored.payload == data || stored.payload == c.lib.compress(lane, data);
    var options := F.Options(0, o.noncePrefix, [], o.frameSize, o.paddingSize);
    F.FramedExactly(c.aead, options, o.noise, 0, stored.payload);
    FewFrames(|stored.payload|, o.frameSize);
  }

  lemma FewFrames(size: nat, frameSize: nat)
    requires size <= 2 * MOST_BYTES + 1024 && F.MIN_FRAME <= frameSize
    ensures (size + frameSize - 1) / frameSize <= MOST_FRAMES
  {
    Padding.ProductsKeepOrder(F.MIN_FRAME, frameSize, MOST_FRAMES);
    Padding.OneMoreTimes(MOST_FRAMES, frameSize);
    QuotientAtMost(size + frameSize - 1, frameSize, MOST_FRAMES);
  }

  lemma QuotientAtMost(n: nat, b: nat, k: nat)
    requires 0 < b && n < (k + 1) * b
    ensures n / b <= k
  {
    if k < n / b {
      Padding.ProductsKeepOrder(k + 1, n / b, b);
    }
  }

  lemma LaneNumbers(c: S.SolidCodec, o: S.SolidSettings, lane: P.Lane, data: ByteString)
    requires c.Valid() && o.Valid() && o.InRange() && Modest(c.lib) && |data| <= MOST_BYTES
    ensures var stored := S.StoreLane(c.lib, o, lane, data);
            U.Fits(stored.frameCount) && U.Fits(stored.codec) && M.CodecOk(lane, stored.codec)
  {
    hide F.Split, F.SolidLaneFramedSize;
    if data != [] {
      StoredLane(c, o, lane, data);
    }
  }

  lemma {:induction false} LanesAreWritten(
      c: S.SolidCodec, o: S.SolidSettings, h: S.Header, associated: ByteString, lanes: seq<ByteString>, lane: nat, index: nat)
    requires c.Valid() && o.Valid() && o.InRange() && Modest(c.lib) && |lanes| == P.LANE_COUNT && lane <= P.LANE_COUNT
    requires h.frameSize == o.frameSize && h.paddingSize == o.paddingSize && h.noncePrefix == o.noncePrefix
    requires (forall k: P.Lane :: |lanes[k]| <= MOST_BYTES) && index <= 1 + lane * MOST_FRAMES
    ensures S.WriteLanes(c, o.noise, h, associated, S.StoreLanes(c.lib, o, lanes), lane, index).Ok?
    decreases P.LANE_COUNT - lane
  {
    hide S.StoreLane, F.Split, F.Framed, Modest;
    if lane < P.LANE_COUNT {
      var stored := S.StoreLanes(c.lib, o, lanes);
      if lanes[lane] == [] {
        SR.EmptyLaneIsEmpty(c.lib, o, lane, []);
        LanesAreWritten(c, o, h, associated, lanes, lane + 1, index);
      } else {
        StoredLane(c, o, lane, lanes[lane]);
        LanesAreWritten(c, o, h, associated, lanes, lane + 1, index + stored[lane].frameCount);
      }
    }
  }

  lemma {:induction false} LaneIsPart(chunks: seq<ByteString>, assignments: seq<P.Lane>, lane: P.Lane)
    requires |chunks| == |assignments|
    ensures |L.Gather(chunks, assignments, lane)| <= |Flatten(chunks)|
    decreases |chunks|
  {
    if chunks != [] {
      LaneIsPart(chunks[1..], assignments[1..], lane);
    }
  }

  lemma {:induction false} UniqueIsPart(s: Scanner, occ: seq<ByteString>)
    ensures |UniqueChunks(s, occ)| <= |occ| && |Flatten(UniqueChunks(s, occ))| <= |Flatten(occ)|
    decreases |occ|
  {
    hide Flatten, First;
    if occ != [] {
      var n := |occ| - 1;
      UniqueIsPart(s, occ[..n]);
      assert occ == occ[..n] + [occ[n]];
      FlattenSnoc(occ[..n], occ[n]);
      FlattenSnoc(UniqueChunks(s, occ[..n]), occ[n]);
      assert UniqueChunks(s, occ[..n]) + [] == UniqueChunks(s, occ[..n]);
    }
  }

  // ----- The times

  /** Each recorded time differs from the one before, and the first from zero, by a signed 64-bit number. */
  predicate TimesFit(items: seq<Item>) {
    forall k | 0 <= k < |items| :: TimeFits(items, k)
  }

  predicate TimeFits(items: seq<Item>, k: nat)
    requires k < |items|
  {
    FitsSigned(items[k].mtimeNs - (if k == 0 then 0 else items[k - 1].mtimeNs), 8)
  }

  lemma ScannedEntryFields(c: S.SolidCodec, source: Source, k: nat)
    requires c.Valid() && Discovered(c.rules, source) && k < |source.items|
    ensures var e := EntryOf(c.scanner, source.items, k);
            && e.path == source.items[k].path && e.mtimeNs == source.items[k].mtimeNs
            && |e.path| < 65536 && e.mode <= MAX_MODE && |e.digest| == DIGEST_BYTES
            && (!e.isDirectory ==> e.chunkCount <= |Occurrences(c.scanner, source.items)|)
  {
    assert Pow256(2) == 65536;
    hide Pow256, Occurrences, FileChunks, Discovered;
    DiscoveredNames(c.rules, source);
    assert ItemOk(c.rules, source.items[k]);
    FileSlice(c.scanner, source.items, k);
  }

  /** Everything but the times is in range, so the times decide. */
  lemma EntryIsPrintable(c: S.SolidCodec, source: Source, k: nat)
    requires c.Valid() && Discovered(c.rules, source) && k < |source.items|
    requires U.Fits(|Occurrences(c.scanner, source.items)|)
    ensures C.EntryPrintable(M.CompactEntryOf(Entries(c.scanner, source.items), k)) <==> TimeFits(source.items, k)
    ensures M.CompactEntryOf(Entries(c.scanner, source.items), k).path == source.items[k].path
    ensures |M.CompactEntryOf(Entries(c.scanner, source.items), k).digest| == DIGEST_BYTES
  {
    hide Occurrences, Discovered, EntryOf, FitsSigned;
    var s, items := c.scanner, source.items;
    ScannedEntryFields(c, source, k);
    assert Entries(s, items)[k] == EntryOf(s, items, k);
    if k > 0 {
      ScannedEntryFields(c, source, k - 1);
      assert Entries(s, items)[k - 1] == EntryOf(s, items, k - 1);
    }
  }

  lemma EntriesArePrintable(c: S.SolidCodec, source: Source)
    requires c.Valid() && Discovered(c.rules, source) && U.Fits(|Occurrences(c.scanner, source.items)|)
    ensures var entries := M.CompactEntries(Entries(c.scanner, source.items));
            && ((forall e | e in entries :: C.EntryPrintable(e)) <==> TimesFit(source.items))
            && (TimesFit(source.items) ==> |PrintMany(M.PrintEntry, entries)| <= EntryText(source.items))
  {
    hide Occurrences, Discovered, M.CompactEntryOf, C.EntryPrintable, TimeFits, Entries;
    var items, entries := source.items, M.CompactEntries(Entries(c.scanner, source.items));
    forall k: nat | k < |items|
      ensures C.EntryPrintable(entries[k]) <==> TimeFits(items, k)
      ensures entries[k].path == items[k].path && |entries[k].digest| == DIGEST_BYTES
    {
      EntryIsPrintable(c, source, k);
    }
    if forall e | e in entries :: C.EntryPrintable(e) {
      forall k: nat | k < |items|
        ensures TimeFits(items, k)
      {
        assert entries[k] in entries;
      }
    }
    if TimesFit(items) {
      assert forall k | 0 <= k < |items| :: C.EntryPrintable(entries[k]);
      EntriesTextSize(entries, items);
    }
  }

  lemma ChunksAreSmall(s: Scanner, source: Source)
    requires s.Valid() && U.Fits(|Occurrences(s, source.items)|)
    ensures var chunks := M.CompactChunks(Records(s, Occurrences(s, source.items)));
            && (forall x | x in chunks :: M.ChunkFits(x) && C.ChunkPrintable(x))
            && |PrintMany(M.PrintChunk, chunks)| <= 43 * |chunks|
  {
    hide Occurrences, PrintMany, First;
    var occ := Occurrences(s, source.items);
    var records := Records(s, occ);
    OccurrencesSized(s, source.items);
    forall i: nat | i < |occ|
      ensures M.ChunkFits(M.CompactChunkOf(records, i))
    {
      assert records[i] == Record(s, occ, i);
    }
    ChunksTextSize(M.CompactChunks(records));
  }

  // ----- The writer

  /** What the lanes hold. */
  lemma LanesAreBounded(c: S.SolidCodec, unique: seq<ByteString>)
    requires |Flatten(unique)| <= MOST_BYTES
    ensures forall k: P.Lane :: |L.Partition(unique, L.Routed(c.route, unique))[k]| <= MOST_BYTES
  {
    hide L.Gather, Flatten;
    forall k: P.Lane
      ensures |L.Gather(unique, L.Routed(c.route, unique), k)| <= MOST_BYTES
    {
      LaneIsPart(unique, L.Routed(c.route, unique), k);
    }
  }

  /** The writer can print the metadata exactly if the times fit. */
  lemma PrintableIffTimesFit(c: S.SolidCodec, o: S.SolidSettings, source: Source)
    requires c.Valid() && o.Valid() && o.InRange() && Modest(c.lib) && Discovered(c.rules, source)
    requires |Occurrences(c.scanner, source.items)| <= F.MAX_INDEX
    requires |Flatten(UniqueChunks(c.scanner, Occurrences(c.scanner, source.items)))| <= MOST_BYTES
    ensures C.Printable(S.SourceMetadata(c, o, source)) <==> TimesFit(source.items)
  {
    hide Occurrences, UniqueChunks, Records, Entries, S.StoreLane, L.Partition, L.Routed, C.EntryPrintable, C.ChunkPrintable,
         M.CompactEntries, M.CompactChunks, TimesFit, Modest, Flatten, Discovered, M.CodecOk;
    assert Pow256(2) == 65536;
    hide Pow256;
    var unique := UniqueChunks(c.scanner, Occurrences(c.scanner, source.items));
    var lanes := L.Partition(unique, L.Routed(c.route, unique));
    LanesAreBounded(c, unique);
    LaneNumbers(c, o, 0, lanes[0]);
    LaneNumbers(c, o, 1, lanes[1]);
    LaneNumbers(c, o, 2, lanes[2]);
    DiscoveredNames(c.rules, source);
    EntriesArePrintable(c, source);
    ChunksAreSmall(c.scanner, source);
  }

  /** Twice the metadata and the envelope around it are within the writer's bound. */
  predicate MetadataIsSmall(textSize: nat) {
    2 * textSize + 1024 + S.ENVELOPE_BYTES <= S.MAX_MANIFEST
  }

  /**
   * A discovered source whose unique content and whose metadata are small enough is written exactly if its
   * times fit.
   */
  lemma WrittenIffTimesFit(c: S.SolidCodec, o: S.SolidSettings, source: Source)
    requires c.Valid() && o.Valid() && o.InRange() && Modest(c.lib) && Discovered(c.rules, source)
    requires |Occurrences(c.scanner, source.items)| <= F.MAX_INDEX
    requires |Flatten(UniqueChunks(c.scanner, Occurrences(c.scanner, source.items)))| <= MOST_BYTES
    requires TimesFit(source.items) ==> MetadataIsSmall(|M.Print(S.SourceMetadata(c, o, source))|)
    ensures S.Encoded(c, o, source).Ok? <==> TimesFit(source.items)
  {
    PrintableIffTimesFit(c, o, source);
    hide Occurrences, UniqueChunks, Records, Entries, S.StoreLane, S.WriteLanes, M.Print, C.Printable, Padding.PaddedSize,
         L.Partition, L.Routed, S.MetadataCiphertext, TimesFit, Flatten, Discovered;
    if TimesFit(source.items) {
      var occ := Occurrences(c.scanner, source.items);
      var unique, meta := UniqueChunks(c.scanner, occ), S.SourceMetadata(c, o, source);
      var lanes := L.Partition(unique, L.Routed(c.route, unique));
      UniqueIsPart(c.scanner, occ);
      LanesAreBounded(c, unique);
      SmallIsSealable(c, meta);
      hide S.Envelope, S.Sealable, Modest;
      var h := S.HeaderOf(c, o, |unique|, |S.Envelope(c.lib, M.Print(meta))|);
      var ciphertext := S.MetadataCiphertext(c, o, h, S.Envelope(c.lib, M.Print(meta)));
      LanesAreWritten(c, o, h, c.pack(h) + c.scanner.hash(ciphertext), lanes, 0, 1);
    }
  }

  lemma SmallIsSealable(c: S.SolidCodec, meta: M.Metadata)
    requires Modest(c.lib) && MetadataIsSmall(|M.Print(meta)|) && |meta.assignments| <= F.MAX_INDEX
    ensures S.Sealable(c, meta)
  {
    hide M.Print, BigEndian;
    assert Pow256(8) == 0x1_0000_0000_0000_0000;
  }

  // ----- Bounds told from the source

  function TotalBytes(items: seq<Item>): nat {
    if items == [] then 0 else TotalBytes(items[..|items| - 1]) + |items[|items| - 1].content|
  }

  lemma {:induction false} OccurrencesAreContents(s: Scanner, items: seq<Item>)
    requires s.config.Valid()
    ensures |Flatten(Occurrences(s, items))| <= TotalBytes(items)
    decreases |items|
  {
    hide Cdc.Chunks, Flatten;
    if items == [] {
      F.NothingFlattens();
    } else {
      var n := |items| - 1;
      OccurrencesAreContents(s, items[..n]);
      FlattenAppend(Occurrences(s, items[..n]), FileChunks(s, items[n]));
      F.NothingFlattens();
      Cdc.ChunksConcatenateToInput(s.config, s.table, items[n].content);
    }
  }

  lemma MetadataTextIsBounded(c: S.SolidCodec, o: S.SolidSettings, source: Source)
    requires c.Valid() && o.Valid() && o.InRange() && Discovered(c.rules, source)
    requires |Occurrences(c.scanner, source.items)| <= F.MAX_INDEX
    requires TimesFit(source.items) && C.Printable(S.SourceMetadata(c, o, source))
    ensures |M.Print(S.SourceMetadata(c, o, source))| <= MetadataText(source, |Occurrences(c.scanner, source.items)|)
  {
    hide Occurrences, UniqueChunks, Records, Entries, S.StoredOf, M.PrintCompact, C.Printable, PrintMany, L.Routed,
         M.CompactEntries, M.CompactChunks, TimesFit, Discovered, M.CompactFits, EntryText;
    EntriesArePrintable(c, source);
    ChunksAreSmall(c.scanner, source);
    SR.ScannedCompactFits(c, o, source);
    UniqueIsPart(c.scanner, Occurrences(c.scanner, source.items));
    CompactTextSize(M.ToCompact(S.SourceMetadata(c, o, source)));
  }

  /**
   * Of the discovered sources of bounded size, whatever the routing and with any compressor that is not absurd,
   * the writer accepts exactly those whose times fit.
   */
  lemma SmallSourceIsWritten(c: S.SolidCodec, o: S.SolidSettings, source: Source)
    requires c.Valid() && o.Valid() && o.InRange() && Modest(c.lib) && Discovered(c.rules, source)
    requires TotalBytes(source.items) <= MOST_BYTES
    requires MetadataIsSmall(MetadataText(source, DA.MostChunks(source.items, c.scanner.config.minSize)))
    ensures S.Encoded(c, o, source).Ok? <==> TimesFit(source.items)
  {
    hide Occurrences, UniqueChunks, S.Encoded, S.SourceMetadata, M.Print, C.Printable, TimesFit, Flatten, Discovered, Modest,
         EntryText;
    var occ := Occurrences(c.scanner, source.items);
    DA.FewOccurrences(c.scanner, source.items);
    UniqueIsPart(c.scanner, occ);
    OccurrencesAreContents(c.scanner, source.items);
    PrintableIffTimesFit(c, o, source);
    if TimesFit(source.items) {
      MetadataTextIsBounded(c, o, source);
    }
    WrittenIffTimesFit(c, o, source);
  }
}
