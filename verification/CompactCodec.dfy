/** The loops that print and parse compact metadata, proved against the format. */
module CompactCodec {
  import opened Bytes
  import opened PackedLanes
  import opened CompactMetadata
  import D = DedupManifest
  import U = CompactUint

  // ----- Printing

  predicate EntryPrintable(e: CompactEntry) {
    && U.Fits(2 * |e.path| + Bit(e.isDirectory)) && U.Fits(e.mode) && FitsSigned(e.mtimeDelta, 8)
    && (e.isDirectory || U.Fits(e.chunkCount))
  }

  predicate ChunkPrintable(c: CompactChunk) {
    match c
    case Fresh(size, _) => U.Fits(size)
    case Duplicate(source) => U.Fits(source)
  }

  /** Every number the printer packs is in range and every codec is allowed in its lane. */
  predicate Printable(m: Metadata) {
    var c := ToCompact(m);
    && U.Fits(2 * |c.rootName| + Bit(c.kind.KindFolder?)) && U.Fits(|c.entries|) && U.Fits(|c.chunks|)
    && (forall n | n in c.frameCounts :: U.Fits(n))
    && (forall lane | 0 <= lane < |c.codecs| :: CodecOk(lane, c.codecs[lane]))
    && (forall e | e in c.entries :: EntryPrintable(e))
    && (forall x | x in c.chunks :: ChunkPrintable(x))
  }

  method EncodeCompactSint(value: int) returns (r: Result<ByteString>)
    ensures r == if FitsSigned(value, 8) then Ok(U.Print(U.Zigzag(value))) else Err
  {
    U.ZigzagIsBijective(value, U.Zigzag(value));
    if !FitsSigned(value, 8) {
      return Err;
    }
    r := U.EncodeCompactUint(U.Zigzag(value));
  }

  method PrintNumbers(numbers: seq<nat>) returns (r: Result<ByteString>)
    ensures r == if forall n | n in numbers :: U.Fits(n) then Ok(PrintMany(U.Print, numbers)) else Err
  {
    hide U.Print;
    var output: ByteString := [];
    for i := 0 to |numbers|
      invariant output == PrintMany(U.Print, numbers[..i])
      invariant forall n | n in numbers[..i] :: U.Fits(n)
    {
      var number := U.EncodeCompactUint(numbers[i]);
      if number.Err? {
        assert !U.Fits(numbers[i]);
        return Err;
      }
      assert numbers[..i + 1] == numbers[..i] + [numbers[i]];
      PrintManySnoc(U.Print, numbers[..i], numbers[i]);
      output := output + number.value;
    }
    assert numbers[..|numbers|] == numbers;
    r := Ok(output);
  }

  method PrintOneEntry(entry: D.Entry, previousMtimeNs: int) returns (r: Result<ByteString>)
    ensures var e := CompactEntry(
                entry.isDirectory, entry.path, entry.mode, entry.mtimeNs - previousMtimeNs,
                if entry.isDirectory then 0 else entry.chunkCount,
                if entry.isDirectory then D.ZERO_HASH else entry.digest);
            r == if EntryPrintable(e) then Ok(PrintEntry(e)) else Err
  {
    hide U.Print, U.Zigzag, FitsSigned;
    var descriptor := U.EncodeCompactUint(2 * |entry.path| + Bit(entry.isDirectory));
    if descriptor.Err? { return Err; }
    var mode := U.EncodeCompactUint(entry.mode);
    if mode.Err? { return Err; }
    var mtime := EncodeCompactSint(entry.mtimeNs - previousMtimeNs);
    if mtime.Err? { return Err; }
    var content: ByteString := [];
    if !entry.isDirectory {
      var count := U.EncodeCompactUint(entry.chunkCount);
      if count.Err? { return Err; }
      content := count.value + entry.digest;
    }
    r := Ok(descriptor.value + (entry.path + (mode.value + (mtime.value + content))));
  }

  lemma NothingPrinted<T>(print_: T -> ByteString)
    ensures PrintMany(print_, []) == []
  {
  }

  method PrintEntries(entries: seq<D.Entry>) returns (r: Result<ByteString>)
    ensures var c := CompactEntries(entries);
            r == if forall e | e in c :: EntryPrintable(e)
                 then Ok(PrintMany(CompactMetadata.PrintEntry, c)) else Err
  {
    hide CompactMetadata.PrintEntry, EntryPrintable, PrintMany;
    ghost var c := CompactEntries(entries);
    NothingPrinted(CompactMetadata.PrintEntry);
    var output: ByteString, previousMtimeNs := [], 0;
    for i := 0 to |entries|
      invariant output == PrintMany(CompactMetadata.PrintEntry, c[..i])
      invariant forall e | e in c[..i] :: EntryPrintable(e)
      invariant previousMtimeNs == if i == 0 then 0 else entries[i - 1].mtimeNs
    {
      assert c[i] == CompactEntryOf(entries, i);
      var entry := PrintOneEntry(entries[i], previousMtimeNs);
      if entry.Err? {
        return Err;
      }
      assert c[..i + 1] == c[..i] + [c[i]];
      PrintManySnoc(CompactMetadata.PrintEntry, c[..i], c[i]);
      previousMtimeNs := entries[i].mtimeNs;
      output := output + entry.value;
    }
    assert c[..|entries|] == c;
    r := Ok(output);
  }

  method PrintChunks(chunks: seq<D.ChunkRecord>) returns (r: Result<ByteString>)
    ensures var c := CompactChunks(chunks);
            r == if forall x | x in c :: ChunkPrintable(x)
                 then Ok(PrintMany(CompactMetadata.PrintChunk, c)) else Err
  {
    hide U.Print;
    ghost var c := CompactChunks(chunks);
    var output: ByteString := [];
    for index := 0 to |chunks|
      invariant output == PrintMany(CompactMetadata.PrintChunk, c[..index])
      invariant forall x | x in c[..index] :: ChunkPrintable(x)
    {
      var chunk := chunks[index];
      assert c[index] == CompactChunkOf(chunks, index);
      assert c[..index + 1] == c[..index] + [c[index]];
      PrintManySnoc(CompactMetadata.PrintChunk, c[..index], c[index]);
      if chunk.source == index {
        var size := U.EncodeCompactUint(chunk.size);
        if size.Err? {
          assert !ChunkPrintable(c[index]);
          return Err;
        }
        output := output + ([0] + (size.value + chunk.digest));
      } else {
        var source := U.EncodeCompactUint(chunk.source);
        if source.Err? {
          assert !ChunkPrintable(c[index]);
          return Err;
        }
        output := output + ([1] + source.value);
      }
    }
    assert c[..|chunks|] == c;
    r := Ok(output);
  }

  method PrintMetadata(m: Metadata) returns (r: Result<ByteString>)
    ensures r == if Printable(m) then Ok(CompactMetadata.Print(m)) else Err
  {
    hide U.Print, PrintMany, EntryPrintable, ChunkPrintable, CompactEntries, CompactChunks, Pack;
    ghost var c := ToCompact(m);
    var root := U.EncodeCompactUint(2 * |m.manifest.rootName| + Bit(m.manifest.kind.KindFolder?));
    if root.Err? { return Err; }
    var counts := PrintNumbers([|m.manifest.entries|, |m.manifest.chunks|]);
    if counts.Err? { return Err; }
    var frameCounts := PrintNumbers(m.frameCounts);
    if frameCounts.Err? { return Err; }
    if exists lane | 0 <= lane < |m.codecs| :: !CodecOk(lane, m.codecs[lane]) { return Err; }
    CodecsFit(m.codecs);
    var codecs := PrintNumbers(m.codecs);
    var entries := PrintEntries(m.manifest.entries);
    if entries.Err? { return Err; }
    var chunks := PrintChunks(m.manifest.chunks);
    if chunks.Err? { return Err; }
    var assignments := PackAssignments(m.assignments);
    PrintTwo(|c.entries|, |c.chunks|);
    var head := (if m.codecs == [] then MAGIC_V1 else MAGIC_V2) + (root.value + (m.manifest.rootName + counts.value));
    var tables := head + (frameCounts.value + (codecs.value + (entries.value + chunks.value)));
    r := Ok(tables + assignments[..]);
  }

  lemma CodecsFit(codecs: seq<nat>)
    requires forall lane | 0 <= lane < |codecs| :: CodecOk(lane, codecs[lane])
    ensures forall n | n in codecs :: U.Fits(n)
  {
  }

  lemma PrintTwo(a: nat, b: nat)
    ensures PrintMany(U.Print, [a, b]) == U.Print(a) + U.Print(b)
    ensures (forall n | n in [a, b] :: U.Fits(n)) <==> U.Fits(a) && U.Fits(b)
  {
    assert [a, b][1..] == [b] && [b][1..] == [];
    assert PrintMany(U.Print, [b]) == U.Print(b) + PrintMany(U.Print, []);
    assert PrintMany(U.Print, [a, b]) == U.Print(a) + PrintMany(U.Print, [b]);
    assert [a, b][0] in [a, b] && [a, b][1] in [a, b];
  }

  // ----- Parsing

  /** A number read with a maximum: the value and where it ends, or nothing acceptable is there. */
  method ReadNumber(payload: ByteString, position: nat, maximum: nat) returns (r: Result<nat>, end: nat)
    requires position <= |payload| && maximum <= U.MAX_COMPACT_UINT
    ensures position <= end <= |payload|
    ensures r.Ok? ==> U.Take(payload[position..]) == Parsed(r.value, payload[end..]) && r.value <= maximum
    ensures r.Err? ==> var p := U.Take(payload[position..]); p.Parsed? ==> p.value > maximum
  {
    hide U.Leb;
    r, end := U.DecodeCompactUint(payload, position, maximum);
  }

  method ReadBytes(payload: ByteString, position: nat, size: nat) returns (r: Result<ByteString>, end: nat)
    requires position <= |payload|
    ensures position <= end <= |payload|
    ensures r.Ok? ==> TakeBytes(payload[position..], size) == Parsed(r.value, payload[end..])
    ensures r.Err? ==> TakeBytes(payload[position..], size).Malformed?
  {
    end := position;
    if position + size > |payload| {
      return Err, end;
    }
    end := position + size;
    assert payload[position..][..size] == payload[position..end] && payload[position..][size..] == payload[end..];
    r := Ok(payload[position..end]);
  }

  /** The bounds the reader puts on one entry's own fields. */
  predicate EntryBounded(e: CompactEntry, chunkCount: nat) {
    |e.path| <= 65535 && e.mode <= D.MAX_MODE && e.chunkCount <= chunkCount
  }

  method ReadOneEntry(payload: ByteString, position: nat, chunkCount: nat)
    returns (r: Result<CompactEntry>, end: nat)
    requires position <= |payload| && chunkCount <= U.MAX_COMPACT_UINT
    ensures position <= end <= |payload|
    ensures r.Ok? ==> && TakeEntry(payload[position..]) == Parsed(r.value, payload[end..])
                      && EntryBounded(r.value, chunkCount)
    ensures r.Err? ==> var p := TakeEntry(payload[position..]); p.Parsed? ==> !EntryBounded(p.value, chunkCount)
  {
    hide U.Take, TakeBytes, U.Unzigzag;
    ghost var whole := TakeEntry(payload[position..]);
    var descriptor, path, mode, zigzag;
    descriptor, end := ReadNumber(payload, position, 131071);
    if descriptor.Err? {
      PathLength(payload[position..]);
      return Err, end;
    }
    var isDirectory := descriptor.value % 2 == 1;
    path, end := ReadBytes(payload, end, descriptor.value / 2);
    if path.Err? { return Err, end; }
    mode, end := ReadNumber(payload, end, D.MAX_MODE);
    if mode.Err? { return Err, end; }
    NoLargerNumber(payload[end..]);
    zigzag, end := ReadNumber(payload, end, U.MAX_COMPACT_UINT);
    if zigzag.Err? { return Err, end; }
    var count, digest := Ok(0), Ok(D.ZERO_HASH);
    if !isDirectory {
      count, end := ReadNumber(payload, end, chunkCount);
      if count.Err? { return Err, end; }
      digest, end := ReadBytes(payload, end, D.DIGEST_BYTES);
      if digest.Err? { return Err, end; }
    }
    PathLength(payload[position..]);
    r := Ok(CompactEntry(isDirectory, path.value, mode.value, U.Unzigzag(zigzag.value), count.value, digest.value));
  }

  /** The descriptor holds twice the path length and the directory bit. */
  lemma PathLength(d: ByteString)
    ensures TakeEntry(d).Parsed? ==>
              && U.Take(d).Parsed?
              && U.Take(d).value == 2 * |TakeEntry(d).value.path| + Bit(TakeEntry(d).value.isDirectory)
  {
    hide U.Take;
  }

  lemma NoLargerNumber(d: ByteString)
    ensures U.Take(d).Parsed? ==> U.Take(d).value <= U.MAX_COMPACT_UINT
  {
  }

  /** The bounds on entry `i` of a table: its own fields and the modification time they add up to. */
  predicate EntryAccepted(entries: seq<CompactEntry>, chunkCount: nat, i: nat)
    requires i < |entries|
  {
    EntryBounded(entries[i], chunkCount) && FitsSigned(SumDeltas(entries[..i + 1]), 8)
  }

  lemma EntryAcceptedIsLocal(a: seq<CompactEntry>, b: seq<CompactEntry>, chunkCount: nat, i: nat)
    requires i < |a|
    ensures EntryAccepted(a + b, chunkCount, i) <==> EntryAccepted(a, chunkCount, i)
  {
    assert (a + b)[..i + 1] == a[..i + 1];
  }

  lemma NextEntryAccepted(entries: seq<CompactEntry>, e: CompactEntry, chunkCount: nat)
    ensures SumDeltas(entries + [e]) == SumDeltas(entries) + e.mtimeDelta
    ensures EntryAccepted(entries + [e], chunkCount, |entries|)
            <==> EntryBounded(e, chunkCount) && FitsSigned(SumDeltas(entries) + e.mtimeDelta, 8)
    ensures forall i | 0 <= i < |entries| ::
              EntryAccepted(entries, chunkCount, i) <==> EntryAccepted(entries + [e], chunkCount, i)
  {
    var all := entries + [e];
    assert all[..|entries|] == entries && all[..|all|] == all;
    forall i | 0 <= i < |entries|
      ensures EntryAccepted(entries, chunkCount, i) <==> EntryAccepted(all, chunkCount, i)
    {
      EntryAcceptedIsLocal(entries, [e], chunkCount, i);
    }
  }

  method ReadEntries(payload: ByteString, position: nat, entryCount: nat, chunkCount: nat)
    returns (r: Result<seq<CompactEntry>>, end: nat)
    requires position <= |payload| && chunkCount <= U.MAX_COMPACT_UINT
    ensures position <= end <= |payload|
    ensures r.Ok? ==>
              && TakeMany(TakeEntry, payload[position..], entryCount) == Parsed(r.value, payload[end..])
              && forall i | 0 <= i < |r.value| :: EntryAccepted(r.value, chunkCount, i)
    ensures r.Err? ==>
              var whole := TakeMany(TakeEntry, payload[position..], entryCount);
              whole.Parsed? ==> exists i | 0 <= i < |whole.value| :: !EntryAccepted(whole.value, chunkCount, i)
  {
    hide TakeEntry, TakeMany, EntryAccepted, EntryBounded, FitsSigned, SumDeltas;
    var entries: seq<CompactEntry>, previousMtimeNs := [], 0;
    end := position;
    ghost var whole := TakeMany(TakeEntry, payload[position..], entryCount);
    D.AfterNothing(whole);
    NoDeltas();
    for index := 0 to entryCount
      invariant position <= end <= |payload| && |entries| == index
      invariant whole == D.After(entries, TakeMany(TakeEntry, payload[end..], entryCount - index))
      invariant previousMtimeNs == SumDeltas(entries)
      invariant forall i | 0 <= i < |entries| :: EntryAccepted(entries, chunkCount, i)
    {
      ghost var unread := TakeEntry(payload[end..]);
      D.ReadOneMore(TakeEntry, entries, payload[end..], entryCount - index);
      if unread.Parsed? {
        NextEntryAccepted(entries, unread.value, chunkCount);
      }
      var entry;
      entry, end := ReadOneEntry(payload, end, chunkCount);
      if entry.Err? || !FitsSigned(previousMtimeNs + entry.value.mtimeDelta, 8) {
        if unread.Parsed? && whole.Parsed? {
          ghost var later := TakeMany(TakeEntry, unread.rest, entryCount - index - 1).value;
          ghost var read := entries + [unread.value];
          assert whole.value == read + later;
          EntryAcceptedIsLocal(read, later, chunkCount, index);
        }
        return Err, end;
      }
      previousMtimeNs := previousMtimeNs + entry.value.mtimeDelta;
      entries := entries + [entry.value];
    }
    D.ReadNoMore(TakeEntry, entries, payload[end..]);
    r := Ok(entries);
  }

  lemma NoDeltas()
    ensures SumDeltas([]) == 0
  {
  }

  /** The reader's bound on one chunk's own fields. */
  predicate ChunkBounded(c: CompactChunk, maxChunkSize: nat) {
    c.Fresh? ==> 1 <= c.size <= maxChunkSize
  }

  /** The chunk table so far resolves, and every fresh chunk has an acceptable size. */
  predicate ChunksAccepted(chunks: seq<CompactChunk>, maxChunkSize: nat) {
    BuildChunks(chunks).Ok? && forall c | c in chunks :: ChunkBounded(c, maxChunkSize)
  }

  lemma {:induction false} RejectedStaysRejected(
      read: seq<CompactChunk>, later: seq<CompactChunk>, maxChunkSize: nat)
    requires !ChunksAccepted(read, maxChunkSize)
    ensures !ChunksAccepted(read + later, maxChunkSize)
    decreases |later|
  {
    if later == [] {
      assert read + later == read;
    } else {
      var n := |later| - 1;
      RejectedStaysRejected(read, later[..n], maxChunkSize);
      var all := read + later;
      assert all[..|all| - 1] == read + later[..n];
      assert forall c | c in all[..|all| - 1] :: c in all;
    }
  }

  method ReadOneChunk(payload: ByteString, position: nat, index: nat, maxChunkSize: nat)
    returns (r: Result<CompactChunk>, end: nat)
    requires position <= |payload| && maxChunkSize <= U.MAX_COMPACT_UINT && index <= D.MAX_CHUNK_RECORDS
    ensures position <= end <= |payload|
    ensures r.Ok? ==> && TakeChunk(payload[position..]) == Parsed(r.value, payload[end..])
                      && ChunkBounded(r.value, maxChunkSize)
                      && (r.value.Duplicate? ==> r.value.source < index)
    ensures r.Err? ==> var p := TakeChunk(payload[position..]); p.Parsed? ==>
              !ChunkBounded(p.value, maxChunkSize) || (p.value.Duplicate? && p.value.source >= index)
  {
    hide U.Take;
    end := position;
    var tag;
    tag, end := ReadBytes(payload, end, 1);
    if tag.Err? { return Err, end; }
    assert payload[position..][1..] == payload[end..];
    if tag.value[0] == 0 {
      var size, digest;
      size, end := ReadNumber(payload, end, maxChunkSize);
      if size.Err? || size.value == 0 { return Err, end; }
      digest, end := ReadBytes(payload, end, D.DIGEST_BYTES);
      if digest.Err? { return Err, end; }
      r := Ok(Fresh(size.value, digest.value));
    } else if tag.value[0] == 1 {
      if index == 0 { return Err, end; }
      var source;
      source, end := ReadNumber(payload, end, index - 1);
      if source.Err? { return Err, end; }
      r := Ok(Duplicate(source.value));
    } else {
      r := Err;
    }
  }

  lemma NoChunks(maxChunkSize: nat)
    ensures ChunksAccepted([], maxChunkSize) && BuildChunks([]) == Ok([]) && D.CountUnique([]) == 0
  {
  }

  method ReadChunks(payload: ByteString, position: nat, chunkCount: nat, maxChunkSize: nat)
    returns (r: Result<seq<D.ChunkRecord>>, ghost compact: seq<CompactChunk>, uniqueCount: nat, end: nat)
    requires position <= |payload| && maxChunkSize <= U.MAX_COMPACT_UINT && chunkCount <= D.MAX_CHUNK_RECORDS
    ensures position <= end <= |payload|
    ensures r.Ok? ==>
              && TakeMany(TakeChunk, payload[position..], chunkCount) == Parsed(compact, payload[end..])
              && ChunksAccepted(compact, maxChunkSize) && BuildChunks(compact) == r
              && uniqueCount == D.CountUnique(r.value)
    ensures r.Err? ==>
              var whole := TakeMany(TakeChunk, payload[position..], chunkCount);
              whole.Parsed? ==> !ChunksAccepted(whole.value, maxChunkSize)
  {
    hide TakeChunk, TakeMany, BuildChunks, ChunksAccepted, ChunkBounded, D.CountUnique;
    NoChunks(maxChunkSize);
    var chunks: seq<D.ChunkRecord> := [];
    compact, uniqueCount, end := [], 0, position;
    ghost var whole := TakeMany(TakeChunk, payload[position..], chunkCount);
    D.AfterNothing(whole);
    for index := 0 to chunkCount
      invariant position <= end <= |payload| && |compact| == |chunks| == index
      invariant whole == D.After(compact, TakeMany(TakeChunk, payload[end..], chunkCount - index))
      invariant ChunksAccepted(compact, maxChunkSize) && BuildChunks(compact) == Ok(chunks)
      invariant uniqueCount == D.CountUnique(chunks)
    {
      ghost var unread := TakeChunk(payload[end..]);
      D.ReadOneMore(TakeChunk, compact, payload[end..], chunkCount - index);
      var chunk;
      chunk, end := ReadOneChunk(payload, end, index, maxChunkSize);
      var accepted := chunk.Ok? && (chunk.value.Duplicate? ==> chunks[chunk.value.source].source == chunk.value.source);
      if unread.Parsed? {
        NextChunkAccepted(compact, chunks, unread.value, maxChunkSize);
      }
      if !accepted {
        if unread.Parsed? && whole.Parsed? {
          ghost var later := TakeMany(TakeChunk, unread.rest, chunkCount - index - 1).value;
          RejectedStaysRejected(compact + [unread.value], later, maxChunkSize);
        }
        return Err, compact, uniqueCount, end;
      }
      match chunk.value {
        case Fresh(size, digest) =>
          CountsOneMore(chunks, D.ChunkRecord(digest, size, index));
          chunks := chunks + [D.ChunkRecord(digest, size, index)];
          uniqueCount := uniqueCount + 1;
        case Duplicate(source) =>
          var canonical := chunks[source];
          CountsOneMore(chunks, D.ChunkRecord(canonical.digest, canonical.size, source));
          chunks := chunks + [D.ChunkRecord(canonical.digest, canonical.size, source)];
      }
      compact := compact + [chunk.value];
    }
    D.ReadNoMore(TakeChunk, compact, payload[end..]);
    r := Ok(chunks);
  }

  lemma NextChunkAccepted(compact: seq<CompactChunk>, chunks: seq<D.ChunkRecord>, c: CompactChunk, maxChunkSize: nat)
    requires ChunksAccepted(compact, maxChunkSize) && BuildChunks(compact) == Ok(chunks)
    ensures ChunksAccepted(compact + [c], maxChunkSize)
            <==> && ChunkBounded(c, maxChunkSize)
                 && (c.Duplicate? ==> c.source < |chunks| && chunks[c.source].source == c.source)
    ensures c.Fresh? ==> BuildChunks(compact + [c]) == Ok(chunks + [D.ChunkRecord(c.digest, c.size, |chunks|)])
    ensures c.Duplicate? && c.source < |chunks| && chunks[c.source].source == c.source ==>
              BuildChunks(compact + [c])
              == Ok(chunks + [D.ChunkRecord(chunks[c.source].digest, chunks[c.source].size, c.source)])
  {
    var all := compact + [c];
    assert all[..|compact|] == compact && all[|compact|] == c;
    assert forall x :: x in all <==> x in compact || x == c;
  }

  lemma CountsOneMore(chunks: seq<D.ChunkRecord>, d: D.ChunkRecord)
    ensures D.CountUnique(chunks + [d]) == D.CountUnique(chunks) + (if d.source == |chunks| then 1 else 0)
  {
    var all := chunks + [d];
    D.CountUniqueSnoc(all, |chunks|);
    assert all[..|chunks|] == chunks && all[..|all|] == all;
  }

  method BuildFileEntries(compact: seq<CompactEntry>, chunks: seq<D.ChunkRecord>)
    returns (r: Result<seq<D.Entry>>)
    requires forall e | e in compact && e.isDirectory :: e.chunkCount == 0
    ensures r == if CountFileChunks(compact) == |chunks| then Ok(BuildEntries(compact, chunks)) else Err
  {
    hide D.SumSizes, SumDeltas, CountFileChunks;
    var entries: seq<D.Entry>, nextChunk, mtimeNs := [], 0, 0;
    NoDeltas();
    NoFileChunks();
    for i := 0 to |compact|
      invariant nextChunk == CountFileChunks(compact[..i]) && nextChunk <= |chunks|
      invariant mtimeNs == SumDeltas(compact[..i])
      invariant |entries| == i && forall j | 0 <= j < i :: entries[j] == BuildEntry(compact, chunks, j)
    {
      var e := compact[i];
      OneMoreEntry(compact, i);
      mtimeNs := mtimeNs + e.mtimeDelta;
      if e.isDirectory {
        entries := entries + [D.Entry(true, e.path, e.mode, mtimeNs, 0, 0, 0, D.ZERO_HASH)];
        continue;
      }
      var end := nextChunk + e.chunkCount;
      if end > |chunks| {
        FileChunksOnlyGrow(compact, i + 1);
        return Err;
      }
      var size := D.SumSizes(chunks[nextChunk..end]);
      entries := entries + [D.Entry(false, e.path, e.mode, mtimeNs, size, nextChunk, e.chunkCount, e.digest)];
      nextChunk := end;
    }
    assert compact[..|compact|] == compact;
    if nextChunk != |chunks| {
      return Err;
    }
    assert entries == BuildEntries(compact, chunks);
    r := Ok(entries);
  }

  lemma NoFileChunks()
    ensures CountFileChunks([]) == 0
  {
  }

  lemma OneMoreEntry(compact: seq<CompactEntry>, i: nat)
    requires i < |compact|
    ensures CountFileChunks(compact[..i + 1]) == CountFileChunks(compact[..i]) + compact[i].chunkCount
    ensures SumDeltas(compact[..i + 1]) == SumDeltas(compact[..i]) + compact[i].mtimeDelta
  {
    assert compact[..i + 1][..i] == compact[..i];
  }

  lemma {:induction false} FileChunksOnlyGrow(compact: seq<CompactEntry>, i: nat)
    requires i <= |compact|
    ensures CountFileChunks(compact[..i]) <= CountFileChunks(compact)
    decreases |compact| - i
  {
    if i < |compact| {
      OneMoreEntry(compact, i);
      FileChunksOnlyGrow(compact, i + 1);
    } else {
      assert compact[..i] == compact;
    }
  }

  method LaneSizes(chunks: seq<D.ChunkRecord>, assignments: seq<Lane>) returns (rawSizes: seq<nat>)
    requires |assignments| == D.CountUnique(chunks)
    ensures |rawSizes| == LANE_COUNT
    ensures forall lane: Lane :: rawSizes[lane] == LaneSize(chunks, assignments, lane)
  {
    hide D.CountUnique, LaneSize;
    rawSizes := [0, 0, 0];
    var unique := 0;
    NothingInLanes(assignments);
    assert chunks[..0] == [];
    for index := 0 to |chunks|
      invariant |rawSizes| == LANE_COUNT
      invariant unique == D.CountUnique(chunks[..index]) <= |assignments|
      invariant forall lane: Lane :: rawSizes[lane] == LaneSize(chunks[..index], assignments, lane)
    {
      D.CountUniqueSnoc(chunks, index);
      UniqueOnlyGrows(chunks, index + 1);
      forall lane: Lane {
        LaneSizeSnoc(chunks, assignments, lane, index);
      }
      if chunks[index].source == index {
        var lane := assignments[unique];
        rawSizes := rawSizes[lane := rawSizes[lane] + chunks[index].size];
        unique := unique + 1;
      }
    }
    assert chunks[..|chunks|] == chunks;
  }

  lemma NothingInLanes(assignments: seq<Lane>)
    ensures D.CountUnique([]) == 0 && forall lane: Lane :: LaneSize([], assignments, lane) == 0
  {
  }

  lemma {:induction false} UniqueOnlyGrows(chunks: seq<D.ChunkRecord>, i: nat)
    requires i <= |chunks|
    ensures D.CountUnique(chunks[..i]) <= D.CountUnique(chunks)
    decreases |chunks| - i
  {
    if i < |chunks| {
      D.CountUniqueSnoc(chunks, i);
      UniqueOnlyGrows(chunks, i + 1);
    } else {
      assert chunks[..i] == chunks;
    }
  }

  predicate HeadBounded(h: Head) {
    |h.rootName| <= 65535 && h.entryCount <= D.MAX_ENTRIES && h.chunkCount <= D.MAX_CHUNK_RECORDS
  }

  method ReadHead(payload: ByteString) returns (r: Result<Head>, end: nat)
    ensures end <= |payload|
    ensures r.Ok? ==> TakeHead(payload) == Parsed(r.value, payload[end..]) && HeadBounded(r.value)
    ensures r.Err? ==> var p := TakeHead(payload); p.Parsed? ==> !HeadBounded(p.value)
  {
    hide U.Take, TakeBytes;
    assert payload[0..] == payload;
    var magic, descriptor, rootName, entryCount, chunkCount;
    magic, end := ReadBytes(payload, 0, 4);
    if magic.Err? || (magic.value != MAGIC_V1 && magic.value != MAGIC_V2) { return Err, end; }
    RootLength(payload);
    descriptor, end := ReadNumber(payload, end, 131071);
    if descriptor.Err? { return Err, end; }
    rootName, end := ReadBytes(payload, end, descriptor.value / 2);
    if rootName.Err? { return Err, end; }
    entryCount, end := ReadNumber(payload, end, D.MAX_ENTRIES);
    if entryCount.Err? { return Err, end; }
    chunkCount, end := ReadNumber(payload, end, D.MAX_CHUNK_RECORDS);
    if chunkCount.Err? { return Err, end; }
    r := Ok(Head(magic.value == MAGIC_V2, if descriptor.value % 2 == 1 then D.KindFolder else D.KindFile,
                 rootName.value, entryCount.value, chunkCount.value));
  }

  lemma RootLength(d: ByteString)
    ensures TakeHead(d).Parsed? ==>
              && TakeBytes(d, 4).Parsed? && U.Take(TakeBytes(d, 4).rest).Parsed?
              && U.Take(TakeBytes(d, 4).rest).value / 2 == |TakeHead(d).value.rootName|
    ensures TakeBytes(d, 4).Parsed? && U.Take(TakeBytes(d, 4).rest).Parsed? ==>
              var n := U.Take(TakeBytes(d, 4).rest).value;
              forall p: ByteString, rest | TakeBytes(U.Take(TakeBytes(d, 4).rest).rest, n / 2) == Parsed(p, rest) ::
                |p| == n / 2
  {
    hide U.Take;
  }

  method ReadNumbers(payload: ByteString, position: nat, n: nat, maximum: nat) returns (r: Result<seq<nat>>, end: nat)
    requires position <= |payload| && maximum <= U.MAX_COMPACT_UINT
    ensures position <= end <= |payload|
    ensures r.Ok? ==> && TakeMany(U.Take, payload[position..], n) == Parsed(r.value, payload[end..])
                      && |r.value| == n && forall x | x in r.value :: x <= maximum
    ensures r.Err? ==> var whole := TakeMany<nat>(U.Take, payload[position..], n);
                       whole.Parsed? ==> exists k | 0 <= k < |whole.value| :: whole.value[k] > maximum
  {
    hide U.Take, TakeMany;
    var numbers: seq<nat> := [];
    end := position;
    ghost var whole := TakeMany<nat>(U.Take, payload[position..], n);
    D.AfterNothing(whole);
    for i := 0 to n
      invariant position <= end <= |payload| && |numbers| == i
      invariant whole == D.After(numbers, TakeMany(U.Take, payload[end..], n - i))
      invariant forall x | x in numbers :: x <= maximum
    {
      ghost var unread := U.Take(payload[end..]);
      D.ReadOneMore(U.Take, numbers, payload[end..], n - i);
      var number;
      number, end := ReadNumber(payload, end, maximum);
      if number.Err? {
        if unread.Parsed? && whole.Parsed? {
          ghost var later := TakeMany(U.Take, unread.rest, n - i - 1).value;
          assert whole.value == numbers + [unread.value] + later;
          assert whole.value[i] == unread.value;
        }
        return Err, end;
      }
      numbers := numbers + [number.value];
    }
    D.ReadNoMore(U.Take, numbers, payload[end..]);
    r := Ok(numbers);
  }

  /** Every bound the reader checks along the way holds of metadata that is accepted in the end. */
  ghost predicate TablesBounded(c: Compact, maxChunkSize: nat, uniqueCount: nat) {
    && HeadBounded(HeadOf(c))
    && (forall k | 0 <= k < |c.frameCounts| :: c.frameCounts[k] <= MAX_FRAMES_PER_LANE)
    && (forall lane | 0 <= lane < |c.codecs| :: CodecOk(lane, c.codecs[lane]))
    && (forall i | 0 <= i < |c.entries| :: EntryAccepted(c.entries, |c.chunks|, i))
    && ChunksAccepted(c.chunks, maxChunkSize)
    && D.CountUnique(BuildChunks(c.chunks).value) == uniqueCount
    && CountFileChunks(c.entries) == |c.chunks|
  }

  lemma AcceptedIsBounded(rules: D.PathRules, maxChunkSize: nat, uniqueCount: nat, d: ByteString)
    ensures ParseCompact(rules, maxChunkSize, uniqueCount, d).Ok? ==>
              ReadCompact(d, uniqueCount).Ok? && TablesBounded(ReadCompact(d, uniqueCount).value, maxChunkSize, uniqueCount)
  {
    hide ReadCompact, BuildEntries, CompactFits, PrintCompact, ParseCompact, Acceptable, ToCompact, TablesBounded;
    if ParseCompact(rules, maxChunkSize, uniqueCount, d).Ok? {
      var m := ParseCompact(rules, maxChunkSize, uniqueCount, d).value;
      CompactMetadata.ParseIffPrinted(rules, maxChunkSize, uniqueCount, d, m);
      AcceptableFits(rules, maxChunkSize, uniqueCount, m);
      assert |ToCompact(m).assignments| == uniqueCount && CompactMetadata.Print(m) == PrintCompact(ToCompact(m)) by {
        AcceptedHead(rules, maxChunkSize, uniqueCount, m);
      }
      ReadCompactExact(d, uniqueCount, ToCompact(m));
      AcceptedTables(rules, maxChunkSize, uniqueCount, m);
    }
  }

  lemma AcceptedTables(rules: D.PathRules, maxChunkSize: nat, uniqueCount: nat, m: Metadata)
    requires Acceptable(rules, maxChunkSize, uniqueCount, m)
    ensures TablesBounded(ToCompact(m), maxChunkSize, uniqueCount)
  {
    hide Acceptable, BuildChunks, CompactEntries, CompactChunks, CountFileChunks, EntryAccepted, ChunksAccepted;
    hide D.CountUnique, D.CountChunks;
    AcceptedHead(rules, maxChunkSize, uniqueCount, m);
    var entries := m.manifest.entries;
    CountsAgree(entries, |entries|);
    assert CompactEntries(entries)[..|entries|] == CompactEntries(entries) && entries[..|entries|] == entries;
    forall i | 0 <= i < |entries|
      ensures EntryAccepted(CompactEntries(entries), |m.manifest.chunks|, i)
    {
      AcceptedEntry(rules, maxChunkSize, uniqueCount, m, i);
    }
    AcceptedChunks(rules, maxChunkSize, uniqueCount, m);
  }

  lemma AcceptedHead(rules: D.PathRules, maxChunkSize: nat, uniqueCount: nat, m: Metadata)
    requires Acceptable(rules, maxChunkSize, uniqueCount, m)
    ensures HeadBounded(HeadOf(ToCompact(m)))
    ensures |ToCompact(m).assignments| == uniqueCount && CompactMetadata.Print(m) == PrintCompact(ToCompact(m))
    ensures forall k | 0 <= k < |m.frameCounts| :: m.frameCounts[k] <= MAX_FRAMES_PER_LANE
    ensures forall lane | 0 <= lane < |m.codecs| :: CodecOk(lane, m.codecs[lane])
    ensures D.CountChunks(m.manifest.entries) == |m.manifest.chunks|
  {
    hide PrintCompact, D.EntryOk, D.ChunkOk, D.SizeOk, D.KindOk, D.CountChunks, D.CountUnique;
    assert Pow256(2) == 65536;
    assert forall k | 0 <= k < |m.frameCounts| :: m.frameCounts[k] in m.frameCounts;
  }

  lemma AcceptedEntry(rules: D.PathRules, maxChunkSize: nat, uniqueCount: nat, m: Metadata, i: nat)
    requires Acceptable(rules, maxChunkSize, uniqueCount, m) && i < |m.manifest.entries|
    ensures EntryAccepted(CompactEntries(m.manifest.entries), |m.manifest.chunks|, i)
  {
    hide D.CountUnique, D.SumSizes, D.ChunkOk;
    var entries := m.manifest.entries;
    assert Pow256(2) == 65536;
    DeltasAddUp(entries, i);
    assert CompactEntries(entries)[i] == CompactEntryOf(entries, i);
    assert D.EntryOk(rules, entries, i) && D.EntryFits(entries[i]) && D.SizeOk(m.manifest.chunks, entries[i]);
  }

  lemma AcceptedChunks(rules: D.PathRules, maxChunkSize: nat, uniqueCount: nat, m: Metadata)
    requires Acceptable(rules, maxChunkSize, uniqueCount, m)
    ensures ChunksAccepted(CompactChunks(m.manifest.chunks), maxChunkSize)
    ensures BuildChunks(CompactChunks(m.manifest.chunks)) == Ok(m.manifest.chunks)
    ensures D.CountUnique(m.manifest.chunks) == uniqueCount
  {
    hide D.CountUnique, D.SumSizes, D.EntryOk, D.SizeOk, D.KindOk, BuildChunks;
    var chunks, limits := m.manifest.chunks, D.Limits(maxChunkSize, uniqueCount + 1);
    RebuiltChunks(chunks, limits, |chunks|);
    var compact := CompactChunks(chunks);
    assert compact[..|chunks|] == compact && chunks[..|chunks|] == chunks;
    forall i | 0 <= i < |compact|
      ensures ChunkBounded(compact[i], maxChunkSize)
    {
      assert compact[i] == CompactChunkOf(chunks, i) && D.ChunkOk(limits, chunks, i);
    }
  }

  lemma TablesHead(d: ByteString)
    ensures TakeTables(d).Parsed? ==> TakeHead(d).Parsed? && HeadOf(TakeTables(d).value) == TakeHead(d).value
  {
    hide U.Take, TakeMany, TakeHead;
    if TakeTables(d).Parsed? {
      var head := TakeHead(d);
      var codecCount := if head.value.modern then LANE_COUNT else 0;
      var p2 := TakeMany(U.Take, head.rest, LANE_COUNT);
      TakeManyLength(U.Take, p2.rest, codecCount);
      var p3 := TakeMany(U.Take, p2.rest, codecCount);
      TakeManyLength(TakeEntry, p3.rest, head.value.entryCount);
      var p4 := TakeMany(TakeEntry, p3.rest, head.value.entryCount);
      TakeManyLength(TakeChunk, p4.rest, head.value.chunkCount);
    }
  }

  /** The checks that follow the tables, ending in the manifest parser's own. */
  method FinishMetadata(
      rules: D.PathRules, maxChunkSize: nat, uniqueCount: nat, head: Head, frameCounts: seq<nat>, codecs: seq<nat>,
      compact: seq<CompactEntry>, chunks: seq<D.ChunkRecord>, packed: ByteString,
      ghost tables: Compact, ghost payload: ByteString)
    returns (r: Result<Metadata>)
    requires TakeTables(payload) == Parsed(tables, packed)
    requires tables == Compact(head.kind, head.rootName, frameCounts, codecs, compact, tables.chunks, [])
    requires BuildChunks(tables.chunks) == Ok(chunks) && D.CountUnique(chunks) == uniqueCount
    requires forall e | e in tables.entries && e.isDirectory :: e.chunkCount == 0
    requires |tables.frameCounts| == LANE_COUNT && (tables.codecs == [] || |tables.codecs| == LANE_COUNT)
    requires forall n | n in tables.frameCounts :: n <= MAX_FRAMES_PER_LANE
    requires forall lane | 0 <= lane < |tables.codecs| :: CodecOk(lane, tables.codecs[lane])
    requires forall i | 0 <= i < |tables.entries| :: FitsSigned(tables.entries[i].mtimeDelta, 8)
    requires CompactEntries(BuildEntries(tables.entries, chunks)) == tables.entries
    ensures r == ParseCompact(rules, maxChunkSize, uniqueCount, payload)
  {
    hide BuildChunks, BuildEntries, CompactEntries, CountFileChunks, D.CountUnique, WellPacked, Unpack, LaneSize;
    hide D.WellFormed, D.Fits, FitsSigned, D.Print, TakeTables;
    AcceptedIsBounded(rules, maxChunkSize, uniqueCount, payload);
    if |packed| != PackedSize(uniqueCount) {
      assert !WellPacked(packed, uniqueCount) by {
        PackedLength(packed, uniqueCount);
      }
      return Err;
    }
    var assignments := UnpackAssignments(packed, uniqueCount);
    if assignments.Err? { return Err; }
    var entries := BuildFileEntries(compact, chunks);
    if entries.Err? { return Err; }
    var manifest := D.Manifest(head.kind, head.rootName, entries.value, chunks);
    if !D.Fits(manifest) { return Err; }
    var limits := D.Limits(maxChunkSize, uniqueCount + 1);
    D.ParseIffPrinted(rules, limits, D.Print(manifest), manifest);
    var checked := D.ParseDedupManifest(rules, limits, D.Print(manifest));
    if checked.Err? { return Err; }
    D.PrintedOnce(rules, limits, manifest, checked.value);
    var rawSizes := LaneSizes(chunks, assignments.value);
    var m := Metadata(checked.value, assignments.value, frameCounts, codecs);
    if exists lane | 0 <= lane < LANE_COUNT :: (rawSizes[lane] == 0) != (frameCounts[lane] == 0) { return Err; }
    r := Ok(m);
  }

  lemma PackedLength(packed: ByteString, n: nat)
    ensures WellPacked(packed, n) ==> |packed| == PackedSize(n)
  {
  }

  method ParseMetadata(rules: D.PathRules, maxChunkSize: nat, uniqueCount: nat, payload: ByteString)
    returns (r: Result<Metadata>)
    requires maxChunkSize <= U.MAX_COMPACT_UINT
    ensures r == ParseCompact(rules, maxChunkSize, uniqueCount, payload)
  {
    hide TakeHead, TakeMany, BuildChunks, BuildEntries, CountFileChunks, D.CountUnique, EntryAccepted;
    hide ChunksAccepted, WellPacked, Unpack, PackedSize, LaneSize, D.WellFormed, D.Fits;
    AcceptedIsBounded(rules, maxChunkSize, uniqueCount, payload);
    TablesHead(payload);
    var head, frameCounts, codecs, compact, chunks, unique, end;
    head, end := ReadHead(payload);
    if head.Err? { return Err; }
    frameCounts, end := ReadNumbers(payload, end, LANE_COUNT, MAX_FRAMES_PER_LANE);
    if frameCounts.Err? { return Err; }
    codecs, end := ReadNumbers(payload, end, if head.value.modern then LANE_COUNT else 0, ZSTD);
    if codecs.Err? { return Err; }
    if exists lane | 0 <= lane < |codecs.value| :: !CodecOk(lane, codecs.value[lane]) { return Err; }
    compact, end := ReadEntries(payload, end, head.value.entryCount, head.value.chunkCount);
    if compact.Err? { return Err; }
    ghost var compactChunks;
    chunks, compactChunks, unique, end := ReadChunks(payload, end, head.value.chunkCount, maxChunkSize);
    if chunks.Err? { return Err; }
    if unique != uniqueCount { return Err; }
    ghost var tables := Compact(
      head.value.kind, head.value.rootName, frameCounts.value, codecs.value, compact.value, compactChunks, []);
    TablesReady(payload, tables, chunks.value);
    r := FinishMetadata(
      rules, maxChunkSize, uniqueCount, head.value, frameCounts.value, codecs.value, compact.value, chunks.value,
      payload[end..], tables, payload);
  }

  /** What the syntax already guarantees about the tables. */
  lemma TablesReady(payload: ByteString, tables: Compact, chunks: seq<D.ChunkRecord>)
    requires TakeTables(payload).Parsed? && TakeTables(payload).value == tables
    ensures forall e | e in tables.entries && e.isDirectory :: e.chunkCount == 0
    ensures forall i | 0 <= i < |tables.entries| :: FitsSigned(tables.entries[i].mtimeDelta, 8)
    ensures CompactEntries(BuildEntries(tables.entries, chunks)) == tables.entries
  {
    hide TakeTables, PrintTables, CompactEntries, BuildEntries, CompactFits;
    ReadTablesPrint(payload, tables, TakeTables(payload).rest);
    FittingEntries(tables);
    RecompactedEntries(tables.entries, chunks);
    forall i | 0 <= i < |tables.entries|
      ensures FitsSigned(tables.entries[i].mtimeDelta, 8)
    {
      assert EntryFits(tables.entries[i]);
    }
  }
}
