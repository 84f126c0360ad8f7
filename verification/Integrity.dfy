/** What a reader lets through, whatever the archive's bytes are: contents that agree with the authenticated manifest. */
module Integrity {
  import opened Bytes
  import opened DedupManifest
  import opened DedupScan
  import D = DedupArchive
  import F = Frames
  import L = SolidLanes
  import M = CompactMetadata
  import Modes
  import P = PackedLanes
  import S = SolidArchive

  /** Every file has the size and the digest that the manifest gives it, and every directory is empty. */
  ghost predicate Intact(s: Scanner, tree: D.Tree) {
    && |tree.contents| == |tree.manifest.entries|
    && forall k | 0 <= k < |tree.contents| :: EntryIntact(s, tree.manifest.entries[k], tree.contents[k])
  }

  predicate EntryIntact(s: Scanner, e: Entry, content: ByteString) {
    if e.isDirectory then content == [] else |content| == e.size && s.hash(content) == e.digest
  }

  /** A block decoder never returns a block of another size than asked for. */
  ghost predicate KeepsSize(lib: Modes.Library) {
    forall m, payload, n {:trigger lib.decode(m, payload, n)} ::
      lib.decode(m, payload, n).Ok? ==> |lib.decode(m, payload, n).value| == n
  }

  /** Chunks of the recorded sizes give files of the recorded sizes. */
  lemma ContentsAreIntact(s: Scanner, m: Manifest, xs: seq<ByteString>)
    requires |xs| == |m.chunks| && forall i | 0 <= i < |xs| :: |xs[i]| == m.chunks[i].size
    requires forall e | e in m.entries :: SizeOk(m.chunks, e) && D.DigestOk(s, e, xs)
    ensures Intact(s, D.Tree(m, D.Contents(m.entries, xs)))
  {
    hide SumSizes, Flatten;
    forall k: nat | k < |m.entries|
      ensures EntryIntact(s, m.entries[k], D.FileContent(m.entries[k], xs))
    {
      var e := m.entries[k];
      assert SizeOk(m.chunks, e) && D.DigestOk(s, e, xs);
      if !e.isDirectory {
        var lo, hi := e.firstChunk, e.firstChunk + e.chunkCount;
        SizesAreLengths(m.chunks[lo..hi], xs[lo..hi]);
      }
    }
  }

  // ----- The deduplicating archive

  lemma OpenedPayload(c: D.Codec, payload: ByteString, occurrence: nat, record: ChunkRecord)
    requires KeepsSize(c.lib)
    ensures match D.OpenPayload(c, payload, occurrence, record)
            case Err => true
            case Ok(chunk) => |chunk| == record.size && c.scanner.hash(chunk) == record.digest
  {
  }

  /** Every restored occurrence has the recorded size and digest. */
  lemma {:induction false} RestoredChunks(
      c: D.Codec, h: F.Header, chunks: seq<ChunkRecord>, start: ByteString, n: nat)
    requires h.Valid() && D.Direct(chunks) && n <= |chunks| && KeepsSize(c.lib)
    ensures match D.RestoreChunks(c, h, chunks, start, n)
            case Malformed => true
            case Parsed(xs, _) =>
              |xs| == n && forall i | 0 <= i < n :: |xs[i]| == chunks[i].size && c.scanner.hash(xs[i]) == chunks[i].digest
    decreases n
  {
    hide D.OpenPayload, F.ReadFrame, CountUnique, KeepsSize;
    if n > 0 {
      RestoredChunks(c, h, chunks, start, n - 1);
      var before := D.RestoreChunks(c, h, chunks, start, n - 1);
      assert DirectReference(chunks, n - 1);
      if before.Parsed? && chunks[n - 1].source == n - 1 {
        var frame := F.ReadFrame(c.aead, h, before.rest, CountUnique(chunks[..n - 1]) + 1, F.DataFrame);
        if frame.Parsed? {
          OpenedPayload(c, frame.value, n - 1, chunks[n - 1]);
        }
      }
    }
  }

  /**
   * Whatever the archive is, the decoder returns a tree only if every file of it has the size and the digest in
   * the manifest and every check of the manifest holds, within the limits the caller gave.
   */
  lemma DedupDecodedIsIntact(c: D.Codec, a: D.Archive, maxOutputSize: nat, maxFrameCount: nat)
    requires KeepsSize(c.lib)
    ensures match D.Decoded(c, a, maxOutputSize, maxFrameCount)
            case Err => true
            case Ok(tree) =>
              && Intact(c.scanner, tree) && TotalSize(tree.manifest.entries) <= maxOutputSize
              && WellFormed(c.rules, Limits(a.header.maxChunkSize, a.header.frameCount), tree.manifest)
              && a.header.frameCount <= maxFrameCount + 1
  {
    hide F.ReadFrame, D.RestoreChunks, D.DigestOk, D.Contents, KeepsSize, TotalSize, CountUnique, CountChunks, EntryOk, ChunkOk,
         SizeOk, KindOk, Intact, D.Direct;
    if D.Decoded(c, a, maxOutputSize, maxFrameCount).Ok? {
      var first := F.ReadFrame(c.aead, a.header, a.body, 0, F.ManifestFrame);
      var limits := Limits(a.header.maxChunkSize, a.header.frameCount);
      var m := ParseManifest(c.rules, limits, first.value).value;
      ParseIffPrinted(c.rules, limits, first.value, m);
      AcceptedIsDirect(c.rules, limits, first.value, m);
      RestoredChunks(c, a.header, m.chunks, first.rest, |m.chunks|);
      ContentsAreIntact(c.scanner, m, D.RestoreChunks(c, a.header, m.chunks, first.rest, |m.chunks|).value);
    }
  }

  lemma AcceptedIsDirect(rules: PathRules, limits: Limits, d: ByteString, m: Manifest)
    requires ParseManifest(rules, limits, d) == Ok(m)
    ensures D.Direct(m.chunks)
  {
    AcceptedManifest(rules, limits, d, m);
  }

  // ----- The solid archive

  lemma {:induction false} UniqueRecordAt(chunks: seq<ChunkRecord>, i: nat)
    requires i < |chunks| && chunks[i].source == i
    ensures var rank := CountUnique(chunks[..i]);
            rank < |S.UniqueRecords(chunks)| && S.UniqueRecords(chunks)[rank] == chunks[i]
    decreases |chunks|
  {
    var n := |chunks| - 1;
    if i < n {
      UniqueRecordAt(chunks[..n], i);
      assert chunks[..n][..i] == chunks[..i];
    }
  }

  /** Merged chunks of the recorded sizes and digests give every occurrence its recorded size and digest. */
  lemma AllChunksAgree(s: Scanner, chunks: seq<ChunkRecord>, merged: seq<ByteString>)
    requires D.Direct(chunks) && S.ChunkDigestsOk(s, S.UniqueRecords(chunks), merged)
    requires L.Sizes(merged) == S.RecordSizes(S.UniqueRecords(chunks))
    ensures forall i | 0 <= i < |chunks| ::
              |S.ChunkOf(chunks, merged, i)| == chunks[i].size && s.hash(S.ChunkOf(chunks, merged, i)) == chunks[i].digest
  {
    hide CountUnique, S.UniqueRecords;
    forall i: nat | i < |chunks|
      ensures |S.ChunkOf(chunks, merged, i)| == chunks[i].size && s.hash(S.ChunkOf(chunks, merged, i)) == chunks[i].digest
    {
      assert DirectReference(chunks, i);
      var first := chunks[i].source;
      var rank := CountUnique(chunks[..first]);
      UniqueRecordAt(chunks, first);
      assert L.Sizes(merged)[rank] == S.RecordSizes(S.UniqueRecords(chunks))[rank];
    }
  }

  lemma RestoredTreeIsIntact(s: Scanner, meta: M.Metadata, lanes: seq<ByteString>)
    requires D.Direct(meta.manifest.chunks) && |meta.assignments| == CountUnique(meta.manifest.chunks)
    requires |lanes| == P.LANE_COUNT && forall e | e in meta.manifest.entries :: SizeOk(meta.manifest.chunks, e)
    ensures match S.RestoreTree(s, meta, lanes)
            case Err => true
            case Ok(tree) => tree.manifest == meta.manifest && Intact(s, tree)
  {
    hide CountUnique, D.DigestOk, D.Contents, SizeOk, Intact, L.Merge, S.UniqueRecords, D.Direct, S.ChunkOf;
    var chunks := meta.manifest.chunks;
    var sizes := S.RecordSizes(S.UniqueRecords(chunks));
    if S.RestoreTree(s, meta, lanes).Ok? {
      var merged := L.Merge(lanes, meta.assignments, sizes).value;
      L.PartitionMerge(lanes, meta.assignments, sizes);
      AllChunksAgree(s, chunks, merged);
      ContentsAreIntact(s, meta.manifest, S.AllChunks(chunks, merged));
    }
  }

  /** The same of the solid archive; here no compressor has to be trusted with sizes. */
  lemma SolidDecodedIsIntact(c: S.SolidCodec, a: S.SolidFile, maxOutputSize: nat, maxFrameCount: nat)
    ensures match S.Decoded(c, a, maxOutputSize, maxFrameCount)
            case Err => true
            case Ok(tree) =>
              && Intact(c.scanner, tree) && TotalSize(tree.manifest.entries) <= maxOutputSize
              && WellFormed(c.rules, Limits(a.header.maxChunkSize, a.header.uniqueCount + 1), tree.manifest)
  {
    hide S.OpenEnvelope, S.ReadLanes, S.RestoreTree, M.ParseCompact, M.Acceptable, TotalSize, CountUnique, CountChunks, EntryOk,
         ChunkOk, SizeOk, KindOk, Intact, D.Direct;
    if S.Decoded(c, a, maxOutputSize, maxFrameCount).Ok? {
      var text := S.OpenMetadata(c, a.header, a.body);
      var meta := M.ParseCompact(c.rules, a.header.maxChunkSize, a.header.uniqueCount, text.value).value;
      S.ParsedIsAcceptable(c.rules, a.header.maxChunkSize, a.header.uniqueCount, text.value);
      S.AcceptableIsDirect(c.rules, a.header.maxChunkSize, a.header.uniqueCount, meta);
      var associated := c.pack(a.header) + c.scanner.hash(a.body[..a.header.metadataLength]);
      RestoredTreeIsIntact(c.scanner, meta, S.ReadLanes(c, a.header, associated, meta, text.rest, 0, 1).value);
    }
  }
}
