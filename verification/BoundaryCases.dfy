/** Sources that an encoder accepts and its own decoder refuses: files of zero bytes, cut into many equal chunks. */
module BoundaryCases {
  import opened Bytes
  import opened DedupManifest
  import opened DedupScan
  import opened Sealing
  import Cdc
  import C = CompactCodec
  import D = DedupArchive
  import DA = DedupAcceptance
  import Frames
  import L = SolidLanes
  import M = CompactMetadata
  import Padding
  import R = DedupRoundTrip
  import S = SolidArchive
  import SA = SolidAcceptance
  import SR = SolidRoundTrip
  import U = CompactUint

  function Zeros(n: nat): (r: ByteString)
    ensures |r| == n && forall i | 0 <= i < n :: r[i] == 0
  {
    seq(n, _ => 0)
  }

  lemma ZerosSlice(n: nat, a: nat, b: nat)
    requires a <= b <= n
    ensures Zeros(n)[a..b] == Zeros(b - a)
  {
  }

  /** Where the first chunk of enough zero bytes ends. */
  function Unit(config: Cdc.ChunkingConfig, table: Cdc.Table): (u: nat)
    requires config.Valid()
    ensures 0 < u
  {
    Cdc.Cut(config, table, Zeros(config.maxSize), 0, 0)
  }

  lemma ZerosHitAlike(config: Cdc.ChunkingConfig, table: Cdc.Table, n: nat, m: nat, k: nat)
    requires config.Valid() && k <= n && k <= m
    ensures Cdc.Hit(config, table, Zeros(n), k) <==> Cdc.Hit(config, table, Zeros(m), k)
  {
    if config.minSize <= k {
      ZerosSlice(n, config.minSize - 1, k);
      ZerosSlice(m, config.minSize - 1, k);
    }
  }

  /** Every long enough run of zero bytes is cut at the same place. */
  lemma ZerosCutAlike(config: Cdc.ChunkingConfig, table: Cdc.Table, n: nat)
    requires config.Valid() && Unit(config, table) <= n
    ensures Cdc.Cut(config, table, Zeros(n), 0, 0) == Unit(config, table) <= config.maxSize
  {
    hide Cdc.Cut, Cdc.Hit, Zeros;
    var u, v := Unit(config, table), Cdc.Cut(config, table, Zeros(n), 0, 0);
    Cdc.CutIsFirstBoundary(config, table, Zeros(config.maxSize));
    Cdc.CutIsFirstBoundary(config, table, Zeros(n));
    if v < u {
      ZerosHitAlike(config, table, n, config.maxSize, v);
    } else if u < v {
      ZerosHitAlike(config, table, n, config.maxSize, u);
    }
  }

  function Copies(chunk: ByteString, k: nat): (r: seq<ByteString>)
    ensures |r| == k && forall i | 0 <= i < k :: r[i] == chunk
  {
    seq(k, _ => chunk)
  }

  lemma {:induction false} ZerosChunks(config: Cdc.ChunkingConfig, table: Cdc.Table, k: nat)
    requires config.Valid()
    ensures Cdc.Chunks(config, table, Zeros(k * Unit(config, table))) == Copies(Zeros(Unit(config, table)), k)
    decreases k
  {
    hide Cdc.Cut, Unit;
    var u := Unit(config, table);
    if k > 0 {
      Padding.OneMoreTimes(k - 1, u);
      var n := (k - 1) * u + u;
      assert n == k * u;
      ZerosCutAlike(config, table, n);
      ZerosChunks(config, table, k - 1);
      ZerosSlice(n, 0, u);
      ZerosSlice(n, u, n);
      assert Zeros(n)[..u] == Zeros(u) && Zeros(n)[u..] == Zeros((k - 1) * u);
      assert Copies(Zeros(u), k) == [Zeros(u)] + Copies(Zeros(u), k - 1);
    }
  }

  /** One file that is cut into `k` equal chunks of zero bytes. */
  function ZeroFile(s: Scanner, name: ByteString, k: nat): Source
    requires s.config.Valid()
  {
    Source(KindFile, name, [Item(false, name, 0, 0, Zeros(k * Unit(s.config, s.table)))])
  }

  lemma ZeroFileChunks(s: Scanner, name: ByteString, k: nat)
    requires s.Valid()
    ensures Occurrences(s, ZeroFile(s, name, k).items) == Copies(Zeros(Unit(s.config, s.table)), k)
  {
    hide Cdc.Chunks, Unit;
    var items := ZeroFile(s, name, k).items;
    ZerosChunks(s.config, s.table, k);
    assert items[..0] == [];
    assert Occurrences(s, items) == [] + FileChunks(s, items[0]);
  }

  /** All its chunks refer to the first one. */
  lemma {:induction false} CopiesHaveOneRecord(s: Scanner, chunk: ByteString, k: nat)
    requires k > 0
    ensures CountUnique(Records(s, Copies(chunk, k))) == 1
    ensures forall i | 0 <= i < k :: Records(s, Copies(chunk, k))[i] == ChunkRecord(s.hash(chunk), |chunk|, 0)
    ensures UniqueChunks(s, Copies(chunk, k)) == [chunk]
    decreases k
  {
    var occ, n := Copies(chunk, k), k - 1;
    var records := Records(s, occ);
    forall i | 0 <= i < k
      ensures First(s, occ, i) == 0
    {
      assert KeyOf(s, occ[0]) == KeyOf(s, occ[i]);
    }
    assert occ[..n] == Copies(chunk, n);
    assert records[..n] == Records(s, Copies(chunk, n));
    if n > 0 {
      CopiesHaveOneRecord(s, chunk, n);
    } else {
      assert records[..0] == [] && occ[..0] == [];
    }
  }

  lemma ZeroFileIsDiscovered(rules: PathRules, s: Scanner, name: ByteString, k: nat)
    requires s.Valid() && rules.canonical(name) && |name| < Pow256(2) && SLASH !in name && k <= 0x100_0000
    ensures Discovered(rules, ZeroFile(s, name, k))
  {
    hide Unit;
    assert Pow256(8) == 0x1_0000_0000_0000_0000;
    UnitIsBounded(s);
    ProductBelow(k, Unit(s.config, s.table));
  }

  lemma UnitIsBounded(s: Scanner)
    requires s.Valid()
    ensures Unit(s.config, s.table) <= s.config.maxSize <= 0x100_0000
  {
    ZerosCutAlike(s.config, s.table, Unit(s.config, s.table));
  }

  lemma ProductBelow(k: nat, u: nat)
    requires k <= 0x100_0000 && u <= 0x100_0000
    ensures k * u <= 0x1_0000_0000_0000
  {
    Padding.ProductsKeepOrder(k, 0x100_0000, u);
    assert 0x100_0000 * u <= 0x1_0000_0000_0000;
  }

  lemma CopiesAreDistinguished(s: Scanner, chunk: ByteString, k: nat)
    ensures R.Distinguished(s, Copies(chunk, k) + Copies(chunk, k))
    ensures R.Distinguished(s, Copies(chunk, k))
  {
  }

  // ----- The deduplicating archive

  lemma ZeroFileText(s: Scanner, name: ByteString, k: nat)
    requires s.Valid()
    ensures |Print(ManifestOf(s, ZeroFile(s, name, k)))| == 86 + 2 * |name| + CHUNK_BYTES * k
  {
    hide Unit, Print, Occurrences, ManifestOf;
    var source := ZeroFile(s, name, k);
    ZeroFileChunks(s, name, k);
    DA.ManifestTextIsExact(s, source);
    assert source.items[1..] == [];
    assert DA.EntryText(source.items) == DA.ENTRY_BYTES + |name| + DA.EntryText(source.items[1..]);
  }

  const TOO_MANY_AT_349 := 6_100_795

  lemma ZeroFileIsEncodable(c: D.Codec, o: D.Settings, name: ByteString)
    requires c.Valid() && o.Valid() && o.paddingSize == 349
    requires c.rules.canonical(name) && |name| == 11 && SLASH !in name
    ensures var source := ZeroFile(c.scanner, name, TOO_MANY_AT_349);
            && Discovered(c.rules, source) && D.Encodable(o, ManifestOf(c.scanner, source))
            && !Frames.ManifestReadable(349, |Print(ManifestOf(c.scanner, source))|)
  {
    hide Unit, Occurrences, Records, Entries, Discovered, Print, Fits, Frames.ManifestReadable, Copies, First;
    var s := c.scanner;
    var source := ZeroFile(s, name, TOO_MANY_AT_349);
    assert Pow256(2) == 65536;
    ZeroFileIsDiscovered(c.rules, s, name, TOO_MANY_AT_349);
    ZeroFileText(s, name, TOO_MANY_AT_349);
    ZeroFileChunks(s, name, TOO_MANY_AT_349);
    CopiesHaveOneRecord(s, Zeros(Unit(s.config, s.table)), TOO_MANY_AT_349);
    ScannedFits(c.rules, s, source);
    Frames.GuardFailsAt349();
  }

  lemma ZeroFileEncodes(c: D.Codec, o: D.Settings, name: ByteString, k: nat)
    requires c.Valid() && o.Valid() && k > 0 && D.Encodable(o, ManifestOf(c.scanner, ZeroFile(c.scanner, name, k)))
    ensures var source := ZeroFile(c.scanner, name, k);
            && R.Encoded(c, o, source, [source.items[0].content]).Ok?
            && R.Distinguished(c.scanner, Occurrences(c.scanner, source.items)
                 + Occurrences(c.scanner, R.Reread(source.items, [source.items[0].content])))
  {
    hide Unit, Occurrences, R.Unchanged, R.Distinguished, D.Encodable, ManifestOf, D.ArchiveOf;
    var source := ZeroFile(c.scanner, name, k);
    assert [source.items[0].content] == R.ContentsOf(source.items);
    DA.SteadySourceMatches(c.scanner, source);
    ZeroFileChunks(c.scanner, name, k);
    CopiesAreDistinguished(c.scanner, Zeros(Unit(c.scanner.config, c.scanner.table)), k);
  }

  /**
   * The manifest of this file passes the writer's own bound and is encoded; its reader refuses the archive,
   * whatever limits the caller allows.
   */
  lemma DedupReaderRefusesItsWriter(
      c: D.Codec, o: D.Settings, name: ByteString, maxOutputSize: nat, maxFrameCount: nat)
    requires c.Valid() && o.Valid() && o.paddingSize == 349
    requires c.rules.canonical(name) && |name| == 11 && SLASH !in name
    ensures var source := ZeroFile(c.scanner, name, TOO_MANY_AT_349);
            var r := R.Encoded(c, o, source, [source.items[0].content]);
            Discovered(c.rules, source) && r.Ok? && D.Decoded(c, r.value, maxOutputSize, maxFrameCount) == Err
  {
    hide Unit, Occurrences, Discovered, Print, R.Distinguished, D.Decoded, R.Encoded, TotalSize, CountUnique,
         Frames.ManifestReadable, D.Encodable, ManifestOf;
    var source := ZeroFile(c.scanner, name, TOO_MANY_AT_349);
    ZeroFileIsEncodable(c, o, name);
    ZeroFileEncodes(c, o, name, TOO_MANY_AT_349);
    R.DecodeRestores(c, o, source, [source.items[0].content], maxOutputSize, maxFrameCount);
  }

  // ----- The solid archive

  lemma {:induction false} BackReferences(chunks: seq<M.CompactChunk>)
    requires forall i | 0 <= i < |chunks| :: chunks[i] == M.Duplicate(0)
    ensures |PrintMany(M.PrintChunk, chunks)| == 2 * |chunks|
  {
    if chunks != [] {
      BackReferences(chunks[1..]);
      assert M.PrintChunk(chunks[0]) == [1] + U.Print(0) == [1, 0];
    }
  }

  const TOO_MANY_CHUNKS := 0x100_0000

  /** One fresh chunk, and two bytes for each back-reference to it. */
  lemma CopiesText(records: seq<ChunkRecord>, chunk: ChunkRecord)
    requires records != [] && forall i | 0 <= i < |records| :: records[i] == chunk
    requires chunk.source == 0 && U.Fits(chunk.size) && |chunk.digest| == DIGEST_BYTES
    ensures |PrintMany(M.PrintChunk, M.CompactChunks(records))| <= 41 + 2 * |records|
  {
    hide U.Print;
    var compact := M.CompactChunks(records);
    assert forall i | 1 <= i < |compact| :: compact[i] == M.Duplicate(0);
    BackReferences(compact[1..]);
    SA.FittingNumber(chunk.size);
    assert PrintMany(M.PrintChunk, compact) == M.PrintChunk(compact[0]) + PrintMany(M.PrintChunk, compact[1..]);
  }

  lemma ZeroFileRecords(s: Scanner, name: ByteString)
    requires s.Valid()
    ensures var occ := Occurrences(s, ZeroFile(s, name, TOO_MANY_CHUNKS).items);
            && |occ| == TOO_MANY_CHUNKS && |UniqueChunks(s, occ)| == 1 && |Flatten(UniqueChunks(s, occ))| <= 0x100_0000
            && |PrintMany(M.PrintChunk, M.CompactChunks(Records(s, occ)))| <= 41 + 2 * TOO_MANY_CHUNKS
  {
    hide Unit, Occurrences, First, PrintMany, M.CompactChunks;
    var unit := Zeros(Unit(s.config, s.table));
    UnitIsBounded(s);
    ZeroFileChunks(s, name, TOO_MANY_CHUNKS);
    CopiesHaveOneRecord(s, unit, TOO_MANY_CHUNKS);
    CopiesText(Records(s, Copies(unit, TOO_MANY_CHUNKS)), ChunkRecord(s.hash(unit), |unit|, 0));
    assert Flatten([unit]) == unit + Flatten([]);
  }

  lemma ZeroFileIsWritten(c: S.SolidCodec, o: S.SolidSettings, name: ByteString)
    requires c.Valid() && o.Valid() && o.InRange() && SA.Modest(c.lib)
    requires c.rules.canonical(name) && |name| < Pow256(2) && SLASH !in name
    ensures S.Encoded(c, o, ZeroFile(c.scanner, name, TOO_MANY_CHUNKS)).Ok?
  {
    assert Pow256(2) == 65536 && Pow256(8) == 0x1_0000_0000_0000_0000;
    var source := ZeroFile(c.scanner, name, TOO_MANY_CHUNKS);
    assert SA.TimesFit(source.items) && source.items[1..] == [];
    assert SA.EntryText(source.items) == 72 + |name|;
    hide Pow256, Unit, Occurrences, UniqueChunks, Records, Entries, Discovered, S.Encoded, S.StoredOf, M.PrintCompact,
         M.CompactFits, C.Printable, PrintMany, L.Routed, M.CompactEntries, M.CompactChunks, Flatten, SA.Modest, SA.TimesFit,
         SA.EntryText;
    ZeroFileIsDiscovered(c.rules, c.scanner, name, TOO_MANY_CHUNKS);
    ZeroFileRecords(c.scanner, name);
    SA.PrintableIffTimesFit(c, o, source);
    SA.EntriesArePrintable(c, source);
    SR.ScannedCompactFits(c, o, source);
    SA.CompactTextSize(M.ToCompact(S.SourceMetadata(c, o, source)));
    SA.WrittenIffTimesFit(c, o, source);
  }

  /**
   * One file of 16,777,216 equal chunks, stored with any compressor that is not absurd: the writer produces an
   * archive, and its own reader refuses the chunk table, whatever limits the caller allows.
   */
  lemma SolidReaderRefusesItsWriter(
      c: S.SolidCodec, o: S.SolidSettings, name: ByteString, maxOutputSize: nat, maxFrameCount: nat)
    requires c.Valid() && o.Valid() && o.InRange() && SA.Modest(c.lib)
    requires c.rules.canonical(name) && |name| < Pow256(2) && SLASH !in name
    ensures var source := ZeroFile(c.scanner, name, TOO_MANY_CHUNKS);
            var r := S.Encoded(c, o, source);
            Discovered(c.rules, source) && r.Ok? && S.Decoded(c, r.value, maxOutputSize, maxFrameCount) == Err
  {
    hide Unit, Occurrences, Discovered, R.Distinguished, S.Decoded, S.Encoded, TotalSize, S.StoredOf, M.PrintCompact,
         SA.Modest, Pow256, M.CompactEntries, ZeroFile, UniqueChunks;
    var source := ZeroFile(c.scanner, name, TOO_MANY_CHUNKS);
    ZeroFileIsDiscovered(c.rules, c.scanner, name, TOO_MANY_CHUNKS);
    ZeroFileChunks(c.scanner, name, TOO_MANY_CHUNKS);
    CopiesAreDistinguished(c.scanner, Zeros(Unit(c.scanner.config, c.scanner.table)), TOO_MANY_CHUNKS);
    ZeroFileIsWritten(c, o, name);
    SR.DecodeRestores(c, o, source, maxOutputSize, maxFrameCount);
  }
}
