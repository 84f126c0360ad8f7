/** The encoder's second pass, and the theorem that decoding what it wrote restores the source. */
module DedupRoundTrip {
  import opened Bytes
  import opened DedupManifest
  import opened DedupScan
  import opened Frames
  import opened Sealing
  import opened DedupArchive
  import Cdc
  import Modes
  import Padding

  /** The items as the second pass finds them: `again[k]` is what file `k` then contains. */
  function Reread(items: seq<Item>, again: seq<ByteString>): (r: seq<Item>)
    requires |again| == |items|
    ensures |r| == |items|
    ensures forall k | 0 <= k < |items| :: r[k] == items[k].(content := again[k])
  {
    seq(|items|, k requires 0 <= k < |items| => items[k].(content := again[k]))
  }

  /** The chunks read so far agree with the manifest's records. */
  ghost predicate Matches(s: Scanner, records: seq<ChunkRecord>, occ: seq<ByteString>) {
    && |occ| <= |records|
    && forall i | 0 <= i < |occ| :: KeyOf(s, occ[i]) == (records[i].digest, records[i].size)
  }

  predicate FileUnchanged(s: Scanner, e: Entry, item: Item) {
    !e.isDirectory ==> s.hash(item.content) == e.digest
  }

  /** The second pass saw the chunks and the files of the scan, as far as digests tell. */
  ghost predicate Unchanged(s: Scanner, m: Manifest, items: seq<Item>)
    requires s.config.Valid() && |items| == |m.entries|
  {
    && |Occurrences(s, items)| == |m.chunks|
    && Matches(s, m.chunks, Occurrences(s, items))
    && forall k | 0 <= k < |items| :: FileUnchanged(s, m.entries[k], items[k])
  }

  /** What the encoder has written after the chunks `occ`. */
  ghost predicate Written(
      c: Codec, o: Settings, h: Header, records: seq<ChunkRecord>, front: ByteString,
      occ: seq<ByteString>, output: ByteString, frameIndex: nat)
    requires h.Valid() && o.Valid() && |occ| <= |records|
  {
    && output == front + DataFrames(c, o, h, Payloads(c, o, records, occ))
    && frameIndex == |Payloads(c, o, records, occ)| + 1
  }

  lemma WriteOneMore(
      c: Codec, o: Settings, h: Header, records: seq<ChunkRecord>, front: ByteString,
      occ: seq<ByteString>, chunk: ByteString, output: ByteString, frameIndex: nat)
    requires h.Valid() && o.Valid() && |occ| < |records|
    requires Written(c, o, h, records, front, occ, output, frameIndex)
    ensures var n := |occ|;
            if records[n].source == n then
              Written(c, o, h, records, front, occ + [chunk],
                      output + DataFrameBytes(c, o, h, frameIndex, DataPayload(c, o, n, chunk)), frameIndex + 1)
            else Written(c, o, h, records, front, occ + [chunk], output, frameIndex)
  {
    hide DataFrameBytes, DataPayload;
    var n, all, payloads := |occ|, occ + [chunk], Payloads(c, o, records, occ);
    assert all[..n] == occ;
    if records[n].source == n {
      var payload := DataPayload(c, o, n, chunk);
      assert (payloads + [payload])[..|payloads|] == payloads;
      assert DataFrames(c, o, h, payloads + [payload])
          == DataFrames(c, o, h, payloads) + DataFrameBytes(c, o, h, frameIndex, payload);
    } else {
      assert Payloads(c, o, records, all) == payloads + [] == payloads;
    }
  }

  lemma OneMoreMatches(s: Scanner, records: seq<ChunkRecord>, occ: seq<ByteString>, chunk: ByteString)
    requires Matches(s, records, occ)
    ensures Matches(s, records, occ + [chunk])
            <==> |occ| < |records| && KeyOf(s, chunk) == (records[|occ|].digest, records[|occ|].size)
  {
    assert (occ + [chunk])[|occ|] == chunk;
    assert forall i | 0 <= i < |occ| :: (occ + [chunk])[i] == occ[i];
  }

  lemma PrefixMatches(s: Scanner, records: seq<ChunkRecord>, occ: seq<ByteString>, all: seq<ByteString>)
    requires occ <= all && Matches(s, records, all)
    ensures Matches(s, records, occ)
  {
    assert forall i | 0 <= i < |occ| :: occ[i] == all[i];
  }

  /** The second pass over one file. */
  method EncodeFile(
      c: Codec, o: Settings, h: Header, records: seq<ChunkRecord>, content: ByteString,
      ghost front: ByteString, ghost before: seq<ByteString>,
      occurrenceBefore: nat, outputBefore: ByteString, frameIndexBefore: nat)
    returns (ok: bool, occurrence: nat, output: ByteString, frameIndex: nat)
    requires c.Valid() && o.Valid() && h.Valid()
    requires Matches(c.scanner, records, before) && occurrenceBefore == |before|
    requires Written(c, o, h, records, front, before, outputBefore, frameIndexBefore)
    ensures var occ := before + Cdc.Chunks(c.scanner.config, c.scanner.table, content);
            && (ok <==> Matches(c.scanner, records, occ))
            && (ok ==> occurrence == |occ| && Written(c, o, h, records, front, occ, output, frameIndex))
  {
    hide Written, Matches, Cdc.Chunks, ReadBlocks, DataFrameBytes, DataPayload;
    ReadBlocksFlatten(content);
    var fileChunks := Cdc.IterContentDefinedChunks(c.scanner.config, c.scanner.table, ReadBlocks(content));
    ghost var occ := before;
    occurrence, output, frameIndex := occurrenceBefore, outputBefore, frameIndexBefore;
    assert before + fileChunks[..0] == before;
    MatchesBound(c.scanner, records, before);
    for j := 0 to |fileChunks|
      invariant occ == before + fileChunks[..j] && occurrence == |occ|
      invariant Matches(c.scanner, records, occ) && |occ| <= |records|
      invariant Written(c, o, h, records, front, occ, output, frameIndex)
    {
      var chunk := fileChunks[j];
      OneMoreMatches(c.scanner, records, occ, chunk);
      assert occ + [chunk] == before + fileChunks[..j + 1];
      if occurrence >= |records|
         || |chunk| != records[occurrence].size || c.scanner.hash(chunk) != records[occurrence].digest {
        assert occ + [chunk] <= before + fileChunks;
        if Matches(c.scanner, records, before + fileChunks) {
          PrefixMatches(c.scanner, records, occ + [chunk], before + fileChunks);
        }
        return false, occurrence, output, frameIndex;
      }
      MatchesBound(c.scanner, records, occ + [chunk]);
      WriteOneMore(c, o, h, records, front, occ, chunk, output, frameIndex);
      if records[occurrence].source == occurrence {
        output := output + DataFrameBytes(c, o, h, frameIndex, DataPayload(c, o, occurrence, chunk));
        frameIndex := frameIndex + 1;
      }
      occ, occurrence := occ + [chunk], occurrence + 1;
    }
    assert fileChunks[..|fileChunks|] == fileChunks;
    ok := true;
  }

  lemma MatchesBound(s: Scanner, records: seq<ChunkRecord>, occ: seq<ByteString>)
    requires Matches(s, records, occ)
    ensures |occ| <= |records|
  {
  }

  /** What the encoder produces, if it succeeds: the archive of what the second pass reads. */
  ghost function Encoded(c: Codec, o: Settings, source: Source, again: seq<ByteString>): Result<Archive>
    requires c.Valid() && o.Valid() && |again| == |source.items|
  {
    var m, items := ManifestOf(c.scanner, source), Reread(source.items, again);
    if Encodable(o, m) && Unchanged(c.scanner, m, items) then
      EncodableHeader(c, o, m);
      Ok(ArchiveOf(c, o, m, Occurrences(c.scanner, items)))
    else Err
  }

  /**
   * Scan, then read everything a second time and write it. The encoder succeeds exactly within its bounds
   * and when the second reading matches the scan; the archive holds what the second reading saw.
   */
  method EncodeDedupArchive(c: Codec, o: Settings, source: Source, again: seq<ByteString>) returns (r: Result<Archive>)
    requires c.Valid() && o.Valid() && |again| == |source.items|
    ensures r == Encoded(c, o, source, again)
  {
    hide ManifestOf, Cdc.Chunks, Encodable, Occurrences, Print, Payloads;
    if o.paddingSize < Padding.MIN_BLOCK || o.paddingSize > Padding.MAX_BLOCK {
      NotEncodable(o, ManifestOf(c.scanner, source));
      return Err;
    }
    var manifest, unique := ScanManifest(c.scanner, source);
    if !Encodable(o, manifest) { return Err; }
    EncodableHeader(c, o, manifest);
    r := EncodeEntries(c, o, source, manifest, again);
  }

  lemma NotEncodable(o: Settings, m: Manifest)
    requires o.paddingSize < Padding.MIN_BLOCK || o.paddingSize > Padding.MAX_BLOCK
    ensures !Encodable(o, m)
  {
  }

  method EncodeEntries(c: Codec, o: Settings, source: Source, manifest: Manifest, again: seq<ByteString>)
    returns (r: Result<Archive>)
    requires c.Valid() && o.Valid() && |again| == |source.items|
    requires manifest == ManifestOf(c.scanner, source) && HeaderOf(c, o, manifest).Valid()
    ensures var items := Reread(source.items, again);
            r == if Unchanged(c.scanner, manifest, items) then
                   Ok(ArchiveOf(c, o, manifest, Occurrences(c.scanner, items)))
                 else Err
  {
    hide Cdc.Chunks, Occurrences, Print, Payloads, Matches, Written, FileChunks, Records, ManifestFrameBytes;
    var s, h, records := c.scanner, HeaderOf(c, o, manifest), manifest.chunks;
    ghost var items := Reread(source.items, again);
    ghost var front := ManifestFrameBytes(c, o, manifest);
    var output, frameIndex, occurrence := ManifestFrameBytes(c, o, manifest), 1, 0;
    ghost var occ: seq<ByteString> := [];
    NothingWritten(c, o, h, records, front);
    assert items[..0] == [];
    for k := 0 to |manifest.entries|
      invariant occ == Occurrences(s, items[..k]) && occurrence == |occ|
      invariant Matches(s, records, occ) && |occ| <= |records|
      invariant Written(c, o, h, records, front, occ, output, frameIndex)
      invariant forall j | 0 <= j < k :: FileUnchanged(s, manifest.entries[j], items[j])
    {
      hide HeaderOf;
      var e := manifest.entries[k];
      assert e == EntryOf(s, source.items, k);
      OneMoreItem(s, items, k);
      OccurrencesGrow(s, items, k + 1);
      if e.isDirectory {
        DirectoryHasNoChunks(s, items[k]);
        assert occ + [] == occ;
        continue;
      }
      FileHasItsChunks(s, items[k]);
      occ := occ + FileChunks(s, items[k]);
      var ok;
      ok, occurrence, output, frameIndex :=
        EncodeFile(c, o, h, records, again[k], front, Occurrences(s, items[..k]), occurrence, output, frameIndex);
      if !ok {
        ChangedForGood(s, manifest, items, occ);
        return Err;
      }
      MatchesBound(s, records, occ);
      if s.hash(again[k]) != e.digest {
        assert !FileUnchanged(s, e, items[k]);
        return Err;
      }
    }
    assert items[..|items|] == items;
    if occurrence != |records| {
      return Err;
    }
    r := Ok(Archive(h, output));
    ArchiveWritten(c, o, manifest, occ, output, frameIndex);
  }

  lemma NothingWritten(c: Codec, o: Settings, h: Header, records: seq<ChunkRecord>, front: ByteString)
    requires c.Valid() && h.Valid() && o.Valid()
    ensures Occurrences(c.scanner, []) == [] && Matches(c.scanner, records, [])
    ensures Written(c, o, h, records, front, [], front, 1)
  {
    assert front + [] == front;
  }

  lemma DirectoryHasNoChunks(s: Scanner, item: Item)
    requires s.config.Valid() && item.isDirectory
    ensures FileChunks(s, item) == []
  {
  }

  lemma FileHasItsChunks(s: Scanner, item: Item)
    requires s.config.Valid() && !item.isDirectory
    ensures FileChunks(s, item) == Cdc.Chunks(s.config, s.table, item.content)
  {
  }

  lemma ChangedForGood(s: Scanner, m: Manifest, items: seq<Item>, occ: seq<ByteString>)
    requires s.config.Valid() && |items| == |m.entries| && occ <= Occurrences(s, items)
    requires !Matches(s, m.chunks, occ)
    ensures !Unchanged(s, m, items)
  {
    hide Occurrences, Matches;
    if Matches(s, m.chunks, Occurrences(s, items)) {
      PrefixMatches(s, m.chunks, occ, Occurrences(s, items));
    }
  }

  lemma ArchiveWritten(
      c: Codec, o: Settings, m: Manifest, occ: seq<ByteString>, output: ByteString, frameIndex: nat)
    requires c.Valid() && o.Valid() && HeaderOf(c, o, m).Valid() && |occ| == |m.chunks|
    requires Written(c, o, HeaderOf(c, o, m), m.chunks, ManifestFrameBytes(c, o, m), occ, output, frameIndex)
    ensures ArchiveOf(c, o, m, occ) == Archive(HeaderOf(c, o, m), output)
    ensures frameIndex == HeaderOf(c, o, m).frameCount
  {
    hide ManifestFrameBytes, DataFrames;
    PayloadCount(c, o, m.chunks, occ);
    assert m.chunks[..|occ|] == m.chunks;
  }

  // ----- Decoding restores what was scanned

  /** No two of these chunks share a digest and a size. */
  ghost predicate Distinguished(s: Scanner, chunks: seq<ByteString>) {
    forall a, b | a in chunks && b in chunks && KeyOf(s, a) == KeyOf(s, b) :: a == b
  }

  lemma SameChunks(s: Scanner, occ: seq<ByteString>, again: seq<ByteString>)
    requires Distinguished(s, occ + again) && |again| == |occ| && Matches(s, Records(s, occ), again)
    ensures again == occ
  {
    hide First;
    forall i | 0 <= i < |occ|
      ensures again[i] == occ[i]
    {
      assert Records(s, occ)[i] == Record(s, occ, i);
      assert occ[i] in occ + again && again[i] in occ + again;
    }
  }

  lemma OpenWrittenPayload(c: Codec, o: Settings, occurrence: nat, chunk: ByteString, record: ChunkRecord)
    requires c.Valid() && occurrence < Pow256(8) && |chunk| < Pow256(4)
    requires record.size == |chunk| && record.digest == c.scanner.hash(chunk)
    ensures OpenPayload(c, DataPayload(c, o, occurrence, chunk), occurrence, record) == Ok(chunk)
    ensures |DataPayload(c, o, occurrence, chunk)| <= PREFIX_BYTES + |chunk|
  {
    hide Pow256, BigEndian, FromBigEndian, Modes.ChooseRoutedMode, Modes.Decode;
    var e := Modes.ChooseRoutedMode(c.lib, o.profile, o.features(chunk), chunk);
    Modes.ChoicesAreGood(c.lib, o.profile, o.features(chunk), chunk);
    var payload := DataPayload(c, o, occurrence, chunk);
    assert payload[..8] == BigEndian(occurrence, 8);
    assert payload[8..12] == BigEndian(|chunk|, 4);
    assert payload[12..13] == BigEndian(Modes.Number(e.mode) as int, 1);
    assert payload[PREFIX_BYTES..] == e.payload;
    FromBigEndianInverse(occurrence, 8);
    FromBigEndianInverse(|chunk|, 4);
    OneByte(Modes.Number(e.mode));
    assert Modes.GetMode(Modes.Number(e.mode) as int) == Ok(e.mode);
  }

  /** The data frames still unread after the first `i`. */
  function FramesFrom(c: Codec, o: Settings, h: Header, payloads: seq<ByteString>, i: nat): ByteString
    requires h.Valid() && (forall index, n :: |o.noise(index)(n)| == n) && i <= |payloads|
    decreases |payloads| - i
  {
    if i == |payloads| then [] else
    DataFrameBytes(c, o, h, i + 1, payloads[i]) + FramesFrom(c, o, h, payloads, i + 1)
  }

  lemma {:induction false} FramesSplit(c: Codec, o: Settings, h: Header, payloads: seq<ByteString>, i: nat)
    requires h.Valid() && o.Valid() && i <= |payloads|
    ensures DataFrames(c, o, h, payloads[..i]) + FramesFrom(c, o, h, payloads, i) == DataFrames(c, o, h, payloads)
    decreases |payloads| - i
  {
    hide DataFrameBytes;
    if i == |payloads| {
      assert payloads[..i] == payloads;
      assert FramesFrom(c, o, h, payloads, i) == [];
    } else {
      FramesSplit(c, o, h, payloads, i + 1);
      assert payloads[..i + 1][..i] == payloads[..i];
      var done, frame := DataFrames(c, o, h, payloads[..i]), DataFrameBytes(c, o, h, i + 1, payloads[i]);
      assert (done + frame) + FramesFrom(c, o, h, payloads, i + 1)
          == done + (frame + FramesFrom(c, o, h, payloads, i + 1));
    }
  }

  lemma {:induction false} PayloadsGrow(
      c: Codec, o: Settings, records: seq<ChunkRecord>, occ: seq<ByteString>, n: nat)
    requires n <= |occ| <= |records|
    ensures Payloads(c, o, records, occ[..n]) <= Payloads(c, o, records, occ)
    decreases |occ|
  {
    hide DataPayload;
    if n == |occ| {
      assert occ[..n] == occ;
    } else {
      var last := |occ| - 1;
      PayloadsGrow(c, o, records, occ[..last], n);
      assert occ[..last][..n] == occ[..n];
    }
  }

  lemma PayloadOf(c: Codec, o: Settings, records: seq<ChunkRecord>, occ: seq<ByteString>, n: nat)
    requires n < |occ| <= |records| && records[n].source == n
    ensures var i := CountUnique(records[..n]);
            && i < |Payloads(c, o, records, occ)|
            && Payloads(c, o, records, occ)[i] == DataPayload(c, o, n, occ[n])
  {
    hide DataPayload;
    PayloadCount(c, o, records, occ[..n]);
    PayloadsGrow(c, o, records, occ, n + 1);
    assert occ[..n + 1][..n] == occ[..n];
  }

  /** The premises under which the decoder reads back what the encoder wrote. */
  ghost predicate Readable(c: Codec, o: Settings, h: Header, occ: seq<ByteString>) {
    && c.Valid() && o.Valid() && h.Valid() && h.prefixBytes == PREFIX_BYTES
    && Distinguished(c.scanner, occ) && |occ| < Pow256(8)
    && (forall chunk | chunk in occ :: |chunk| <= h.maxChunkSize)
    && h.frameCount == CountUnique(Records(c.scanner, occ)) + 1
  }

  lemma WrittenChunkReads(c: Codec, o: Settings, h: Header, occ: seq<ByteString>, n: nat)
    requires Readable(c, o, h, occ) && n < |occ|
    requires Records(c.scanner, occ)[n].source == n
    ensures var records := Records(c.scanner, occ);
            var payloads, i := Payloads(c, o, records, occ), CountUnique(records[..n]);
            && i < |payloads|
            && ReadChunk(c, h, FramesFrom(c, o, h, payloads, i), i + 1, n, records[n])
               == Parsed(occ[n], FramesFrom(c, o, h, payloads, i + 1))
  {
    hide Pow256, DataPayload, OpenPayload, ReadFrame, WriteFrame, Payloads, First, CountUnique, Distinguished, Maximum;
    SizesFit();
    var records := Records(c.scanner, occ);
    var payloads, i := Payloads(c, o, records, occ), CountUnique(records[..n]);
    PayloadOf(c, o, records, occ, n);
    PayloadCount(c, o, records, occ);
    assert records[..|occ|] == records;
    assert records[n] == Record(c.scanner, occ, n) && occ[n] in occ;
    OpenWrittenPayload(c, o, n, occ[n], records[n]);
    DataFramesAreReadable(h, |payloads[i]|);
    FrameRoundTrip(c.aead, h, i + 1, DataFrame, payloads[i], o.noise(i + 1), FramesFrom(c, o, h, payloads, i + 1));
  }

  lemma SizesFit()
    ensures MAX_FRAME_COUNT < Pow256(8) && MAX_MANIFEST_CIPHERTEXT < Pow256(4) - 8
  {
    assert Pow256(8) == 0x1_0000_0000_0000_0000 && Pow256(4) == 0x1_0000_0000;
  }

  lemma ScannedIsDirect(s: Scanner, occ: seq<ByteString>)
    ensures Direct(Records(s, occ))
  {
    forall i | 0 <= i < |occ|
      ensures DirectReference(Records(s, occ), i)
    {
      var f := First(s, occ, i);
      assert First(s, occ, f) == f;
      assert Records(s, occ)[f] == Record(s, occ, f) && Records(s, occ)[i] == Record(s, occ, i);
    }
  }

  /** After `n` occurrences the decoder holds the first `n` chunks and the frames of the others. */
  ghost predicate RestoredSoFar(c: Codec, o: Settings, h: Header, occ: seq<ByteString>, n: nat)
    requires h.Valid() && o.Valid() && n <= |occ| && Direct(Records(c.scanner, occ))
  {
    var records := Records(c.scanner, occ);
    var payloads := Payloads(c, o, records, occ);
    && CountUnique(records[..n]) <= |payloads|
    && RestoreChunks(c, h, records, DataFrames(c, o, h, payloads), n)
       == Parsed(occ[..n], FramesFrom(c, o, h, payloads, CountUnique(records[..n])))
  }

  lemma NothingRestoredYet(c: Codec, o: Settings, h: Header, occ: seq<ByteString>)
    requires h.Valid() && o.Valid() && Direct(Records(c.scanner, occ))
    ensures RestoredSoFar(c, o, h, occ, 0)
  {
    hide Payloads, DataFrameBytes, ReadChunk, FramesFrom;
    var records := Records(c.scanner, occ);
    var payloads := Payloads(c, o, records, occ);
    assert records[..0] == [] && occ[..0] == [];
    assert payloads[..0] == [] && DataFrames(c, o, h, []) == [];
    FramesSplit(c, o, h, payloads, 0);
  }

  /** A canonical record takes the next frame; a reference copies a chunk already held. */
  lemma OneMoreChunk(
      c: Codec, h: Header, chunks: seq<ChunkRecord>, start: ByteString, n: nat,
      xs: seq<ByteString>, stream: ByteString, chunk: ByteString, rest: ByteString)
    requires h.Valid() && Direct(chunks) && n < |chunks| && |xs| == n
    requires RestoreChunks(c, h, chunks, start, n) == Parsed(xs, stream)
    requires if chunks[n].source == n
             then ReadChunk(c, h, stream, CountUnique(chunks[..n]) + 1, n, chunks[n]) == Parsed(chunk, rest)
             else chunks[n].source < n && xs[chunks[n].source] == chunk && stream == rest
    ensures RestoreChunks(c, h, chunks, start, n + 1) == Parsed(xs + [chunk], rest)
  {
    hide ReadChunk, CountUnique;
  }

  lemma RestoreOneMore(c: Codec, o: Settings, h: Header, occ: seq<ByteString>, n: nat)
    requires Readable(c, o, h, occ) && n < |occ| && Direct(Records(c.scanner, occ))
    requires RestoredSoFar(c, o, h, occ, n)
    ensures RestoredSoFar(c, o, h, occ, n + 1)
  {
    hide RestoreChunks, Payloads, ReadChunk, DataFrames, FramesFrom, First, CountUnique, Distinguished;
    var records := Records(c.scanner, occ);
    var payloads := Payloads(c, o, records, occ);
    var start, i, j := DataFrames(c, o, h, payloads), CountUnique(records[..n]), CountUnique(records[..n + 1]);
    assert records[n] == Record(c.scanner, occ, n);
    assert occ[..n + 1] == occ[..n] + [occ[n]];
    CountUniqueSnoc(records, n);
    if records[n].source == n {
      WrittenChunkReads(c, o, h, occ, n);
    } else {
      SourceIsSame(c.scanner, occ, n);
    }
    OneMoreChunk(c, h, records, start, n, occ[..n], FramesFrom(c, o, h, payloads, i), occ[n],
                 FramesFrom(c, o, h, payloads, j));
  }

  lemma {:induction false} WrittenChunksRestore(c: Codec, o: Settings, h: Header, occ: seq<ByteString>, n: nat)
    requires Readable(c, o, h, occ) && n <= |occ|
    ensures Direct(Records(c.scanner, occ)) && RestoredSoFar(c, o, h, occ, n)
    decreases n
  {
    hide RestoredSoFar, Records, Distinguished;
    ScannedIsDirect(c.scanner, occ);
    if n == 0 {
      NothingRestoredYet(c, o, h, occ);
    } else {
      WrittenChunksRestore(c, o, h, occ, n - 1);
      RestoreOneMore(c, o, h, occ, n - 1);
    }
  }

  lemma SourceIsSame(s: Scanner, occ: seq<ByteString>, i: nat)
    requires Distinguished(s, occ) && i < |occ|
    ensures var f := First(s, occ, i); f <= i && occ[f] == occ[i]
  {
    var f := First(s, occ, i);
    assert occ[f] in occ && occ[i] in occ;
  }

  function ContentsOf(items: seq<Item>): (r: seq<ByteString>)
    ensures |r| == |items| && forall k | 0 <= k < |items| :: r[k] == items[k].content
  {
    seq(|items|, k requires 0 <= k < |items| => items[k].content)
  }

  lemma FileComesBack(rules: PathRules, s: Scanner, source: Source, k: nat)
    requires s.Valid() && Discovered(rules, source) && k < |source.items|
    ensures var e := EntryOf(s, source.items, k);
            FileContent(e, Occurrences(s, source.items)) == source.items[k].content
  {
    hide Occurrences, Cdc.Chunks, Flatten, Discovered;
    DiscoveredNames(rules, source);
    assert ItemOk(rules, source.items[k]);
    if !source.items[k].isDirectory {
      FileSlice(s, source.items, k);
      Cdc.ChunksConcatenateToInput(s.config, s.table, source.items[k].content);
    }
  }

  lemma FilesComeBack(rules: PathRules, s: Scanner, source: Source)
    requires s.Valid() && Discovered(rules, source)
    ensures var items := source.items;
            var entries, occ := Entries(s, items), Occurrences(s, items);
            && Contents(entries, occ) == ContentsOf(items)
            && forall e | e in entries :: DigestOk(s, e, occ)
  {
    hide Occurrences, Discovered, FileContent;
    var items := source.items;
    var entries, occ := Entries(s, items), Occurrences(s, items);
    forall k: nat | k < |items|
      ensures FileContent(entries[k], occ) == items[k].content && DigestOk(s, entries[k], occ)
    {
      FileComesBack(rules, s, source, k);
    }
  }

  lemma ScannedTreeIsSource(s: Scanner, source: Source)
    requires s.Valid()
    ensures IsSource(s, Tree(ManifestOf(s, source), ContentsOf(source.items)), source)
  {
    hide Occurrences, Records, FileChunks;
    var items := source.items;
    assert forall k | 0 <= k < |items| :: Entries(s, items)[k] == EntryOf(s, items, k);
  }

  /** Every chunk read back, no frame left over. */
  lemma ChunksComeBack(c: Codec, o: Settings, h: Header, occ: seq<ByteString>)
    requires Readable(c, o, h, occ)
    ensures var records := Records(c.scanner, occ);
            && Direct(records)
            && RestoreChunks(c, h, records, DataFrames(c, o, h, Payloads(c, o, records, occ)), |records|)
               == Parsed(occ, [])
  {
    hide Payloads, RestoreChunks, DataFrames, CountUnique, Distinguished, DataFrameBytes;
    var records := Records(c.scanner, occ);
    WrittenChunksRestore(c, o, h, occ, |occ|);
    PayloadCount(c, o, records, occ);
    assert occ[..|occ|] == occ && records[..|occ|] == records;
  }

  lemma ScannedIsReadable(c: Codec, o: Settings, source: Source)
    requires c.Valid() && o.Valid() && Encodable(o, ManifestOf(c.scanner, source))
    requires Distinguished(c.scanner, Occurrences(c.scanner, source.items))
    ensures Readable(c, o, HeaderOf(c, o, ManifestOf(c.scanner, source)), Occurrences(c.scanner, source.items))
  {
    hide Occurrences, Distinguished, Print, Pow256, CountUnique, Records;
    EncodableHeader(c, o, ManifestOf(c.scanner, source));
    OccurrencesSized(c.scanner, source.items);
  }

  lemma TreeComesBack(c: Codec, o: Settings, source: Source)
    requires c.Valid() && o.Valid() && Discovered(c.rules, source)
    requires Encodable(o, ManifestOf(c.scanner, source))
    requires Distinguished(c.scanner, Occurrences(c.scanner, source.items))
    ensures var m, occ := ManifestOf(c.scanner, source), Occurrences(c.scanner, source.items);
            var h := HeaderOf(c, o, m);
            && h.Valid() && Direct(m.chunks)
            && RestoreTree(c, h, m, DataFrames(c, o, h, Payloads(c, o, m.chunks, occ)))
               == Ok(Tree(m, ContentsOf(source.items)))
  {
    hide Occurrences, Discovered, Payloads, RestoreChunks, Distinguished, DigestOk, Contents, DataFrames, Encodable,
         Records, Entries, CountUnique;
    var m := ManifestOf(c.scanner, source);
    ScannedIsReadable(c, o, source);
    ChunksComeBack(c, o, HeaderOf(c, o, m), Occurrences(c.scanner, source.items));
    FilesComeBack(c.rules, c.scanner, source);
  }

  lemma WrittenManifestReads(c: Codec, o: Settings, source: Source, rest: ByteString)
    requires c.Valid() && o.Valid() && Encodable(o, ManifestOf(c.scanner, source))
    ensures var m := ManifestOf(c.scanner, source);
            var h := HeaderOf(c, o, m);
            && h.Valid()
            && ReadFrame(c.aead, h, ManifestFrameBytes(c, o, m) + rest, 0, ManifestFrame)
               == if ManifestReadable(o.paddingSize, |Print(m)|) then Parsed(Print(m), rest) else Malformed
  {
    hide Pow256, Print, Fits, ManifestOf, ReadFrame, WriteFrame;
    SizesFit();
    var m := ManifestOf(c.scanner, source);
    EncodableHeader(c, o, m);
    FrameRoundTrip(c.aead, HeaderOf(c, o, m), 0, ManifestFrame, Print(m), o.noise(0), rest);
  }

  /** Every manifest the encoder writes is well formed, and its printed form parses to it. */
  lemma WrittenManifestParses(c: Codec, o: Settings, source: Source)
    requires c.Valid() && Discovered(c.rules, source) && Encodable(o, ManifestOf(c.scanner, source))
    ensures var m := ManifestOf(c.scanner, source);
            var h := HeaderOf(c, o, m);
            && WellFormed(c.rules, Limits(h.maxChunkSize, h.frameCount), m)
            && ParseManifest(c.rules, Limits(h.maxChunkSize, h.frameCount), Print(m)) == Ok(m)
  {
    hide Print, Read, Fits, WellFormed, Occurrences, UniqueChunks, CountUnique, Discovered, Record, EntryOf;
    var m := ManifestOf(c.scanner, source);
    EncodableFitsTable(o, m);
    ScannedCounts(c.scanner, source.items);
    ReadExact(Print(m), m);
    ScannedIsWellFormed(c.rules, c.scanner, source);
  }

  lemma EncodedDecodes(
      c: Codec, o: Settings, source: Source, again: seq<ByteString>, maxOutputSize: nat, maxFrameCount: nat)
    requires c.Valid() && o.Valid() && Discovered(c.rules, source) && |again| == |source.items|
    requires Distinguished(c.scanner, Occurrences(c.scanner, source.items)
                                      + Occurrences(c.scanner, Reread(source.items, again)))
    ensures var m := ManifestOf(c.scanner, source);
            match Encoded(c, o, source, again)
            case Err => true
            case Ok(archive) =>
              && o.paddingSize > 0
              && Decoded(c, archive, maxOutputSize, maxFrameCount)
                 == if && ManifestReadable(o.paddingSize, |Print(m)|)
                       && TotalSize(m.entries) <= maxOutputSize
                       && CountUnique(m.chunks) <= maxFrameCount
                    then Ok(Tree(m, ContentsOf(source.items)))
                    else Err
  {
    hide Occurrences, Discovered, Payloads, Print, Fits, Matches, ReadFrame, ManifestFrameBytes, RestoreTree,
         ParseManifest, Records, Entries, CountUnique, TotalSize, FileUnchanged, WriteFrame;
    var m, occ := ManifestOf(c.scanner, source), Occurrences(c.scanner, source.items);
    var h := HeaderOf(c, o, m);
    if Encoded(c, o, source, again).Ok? {
      SameChunks(c.scanner, occ, Occurrences(c.scanner, Reread(source.items, again)));
      DistinguishedPrefix(c.scanner, occ, Occurrences(c.scanner, Reread(source.items, again)));
      hide Distinguished;
      EncodableHeader(c, o, m);
      WrittenManifestReads(c, o, source, DataFrames(c, o, h, Payloads(c, o, m.chunks, occ)));
      WrittenManifestParses(c, o, source);
      TreeComesBack(c, o, source);
    }
  }

  /**
   * Whatever archive the encoder produces, decoding it restores the scanned source, byte for byte, exactly
   * when its manifest frame is within the reader's limit and the caller's limits admit it. The encoder's own
   * bound on the manifest implies the first for most padding sizes; `GuardSuffices` says for which.
   */
  lemma DecodeRestores(
      c: Codec, o: Settings, source: Source, again: seq<ByteString>, maxOutputSize: nat, maxFrameCount: nat)
    requires c.Valid() && o.Valid() && Discovered(c.rules, source) && |again| == |source.items|
    requires Distinguished(c.scanner, Occurrences(c.scanner, source.items)
                                      + Occurrences(c.scanner, Reread(source.items, again)))
    ensures var m := ManifestOf(c.scanner, source);
            match Encoded(c, o, source, again)
            case Err => true
            case Ok(archive) =>
              && o.paddingSize > 0
              && (var r := Decoded(c, archive, maxOutputSize, maxFrameCount); r.Ok? ==> IsSource(c.scanner, r.value, source))
              && Decoded(c, archive, maxOutputSize, maxFrameCount)
                 == if && ManifestReadable(o.paddingSize, |Print(m)|)
                       && TotalSize(m.entries) <= maxOutputSize
                       && CountUnique(m.chunks) <= maxFrameCount
                    then Ok(Tree(m, ContentsOf(source.items)))
                    else Err
  {
    hide Discovered, Distinguished, Decoded, Encoded, ManifestReadable, TotalSize, CountUnique, Print, ManifestOf, IsSource;
    ScannedTreeIsSource(c.scanner, source);
    EncodedDecodes(c, o, source, again, maxOutputSize, maxFrameCount);
  }

  /** With a padding size that the manifest bound suits, nothing but the caller's limits stands in the way. */
  lemma DecodeRestoresForPadding(
      c: Codec, o: Settings, source: Source, again: seq<ByteString>, maxOutputSize: nat, maxFrameCount: nat)
    requires c.Valid() && o.Valid() && Discovered(c.rules, source) && |again| == |source.items|
    requires o.paddingSize > 0 && (MAX_MANIFEST_CIPHERTEXT - 9) % o.paddingSize > 6
    requires Distinguished(c.scanner, Occurrences(c.scanner, source.items)
                                      + Occurrences(c.scanner, Reread(source.items, again)))
    ensures var m := ManifestOf(c.scanner, source);
            match Encoded(c, o, source, again)
            case Err => true
            case Ok(archive) =>
              && (var r := Decoded(c, archive, maxOutputSize, maxFrameCount); r.Ok? ==> IsSource(c.scanner, r.value, source))
              && Decoded(c, archive, maxOutputSize, maxFrameCount)
                 == if TotalSize(m.entries) <= maxOutputSize && CountUnique(m.chunks) <= maxFrameCount
                    then Ok(Tree(m, ContentsOf(source.items)))
                    else Err
  {
    hide IsSource;
    hide Occurrences, Discovered, Distinguished, Decoded, ManifestReadable, TotalSize, CountUnique, Fits, Print, Unchanged,
         ArchiveOf, ManifestOf;
    DecodeRestores(c, o, source, again, maxOutputSize, maxFrameCount);
    if Encoded(c, o, source, again).Ok? {
      GuardSuffices(o.paddingSize);
    }
  }

  lemma DistinguishedPrefix(s: Scanner, a: seq<ByteString>, b: seq<ByteString>)
    requires Distinguished(s, a + b)
    ensures Distinguished(s, a)
  {
    forall x, y | x in a && y in a && KeyOf(s, x) == KeyOf(s, y)
      ensures x == y
    {
      assert x in a + b && y in a + b;
    }
  }
}
