/** Scanning a source into a dedup manifest: every chunk is recorded, duplicates by back-reference. */
module DedupScan {
  import opened Bytes
  import opened DedupManifest
  import Cdc

  const READ_SIZE := 65536

  /** A discovered source object; a directory has no content. */
  datatype Item = Item(isDirectory: bool, path: ByteString, mode: nat, mtimeNs: int, content: ByteString)

  datatype Source = Source(kind: Kind, rootName: ByteString, items: seq<Item>)

  /** How content is cut into chunks, and the digest function. */
  datatype Scanner = Scanner(config: Cdc.ChunkingConfig, table: Cdc.Table, hash: ByteString -> ByteString) {
    ghost predicate Valid() {
      config.Valid() && forall b :: |hash(b)| == DIGEST_BYTES
    }
  }

  type Key = (ByteString, nat)

  function KeyOf(s: Scanner, chunk: ByteString): Key {
    (s.hash(chunk), |chunk|)
  }

  function FileChunks(s: Scanner, item: Item): seq<ByteString>
    requires s.config.Valid()
  {
    if item.isDirectory then [] else Cdc.Chunks(s.config, s.table, item.content)
  }

  /** All chunks of all files, in order: the occurrences the manifest numbers. */
  function Occurrences(s: Scanner, items: seq<Item>): seq<ByteString>
    requires s.config.Valid()
  {
    if items == [] then [] else
    Occurrences(s, items[..|items| - 1]) + FileChunks(s, items[|items| - 1])
  }

  /** The first occurrence at or after `j` with the key of occurrence `i`. */
  function FirstFrom(s: Scanner, occ: seq<ByteString>, i: nat, j: nat): (r: nat)
    requires j <= i < |occ|
    ensures j <= r <= i && KeyOf(s, occ[r]) == KeyOf(s, occ[i])
    ensures forall k | j <= k < r :: KeyOf(s, occ[k]) != KeyOf(s, occ[i])
    decreases i - j
  {
    if KeyOf(s, occ[j]) == KeyOf(s, occ[i]) then j else FirstFrom(s, occ, i, j + 1)
  }

  function First(s: Scanner, occ: seq<ByteString>, i: nat): (r: nat)
    requires i < |occ|
    ensures r <= i && KeyOf(s, occ[r]) == KeyOf(s, occ[i])
    ensures forall k | 0 <= k < r :: KeyOf(s, occ[k]) != KeyOf(s, occ[i])
  {
    FirstFrom(s, occ, i, 0)
  }

  function Record(s: Scanner, occ: seq<ByteString>, i: nat): ChunkRecord
    requires i < |occ|
  {
    ChunkRecord(s.hash(occ[i]), |occ[i]|, First(s, occ, i))
  }

  function Records(s: Scanner, occ: seq<ByteString>): (r: seq<ChunkRecord>)
    ensures |r| == |occ| && forall i | 0 <= i < |occ| :: r[i] == Record(s, occ, i)
  {
    seq(|occ|, i requires 0 <= i < |occ| => Record(s, occ, i))
  }

  function EntryOf(s: Scanner, items: seq<Item>, k: nat): Entry
    requires s.config.Valid() && k < |items|
  {
    var item := items[k];
    if item.isDirectory then Entry(true, item.path, item.mode, item.mtimeNs, 0, 0, 0, ZERO_HASH)
    else Entry(false, item.path, item.mode, item.mtimeNs, |item.content|, |Occurrences(s, items[..k])|,
               |FileChunks(s, item)|, s.hash(item.content))
  }

  function Entries(s: Scanner, items: seq<Item>): (r: seq<Entry>)
    requires s.config.Valid()
    ensures |r| == |items| && forall k | 0 <= k < |items| :: r[k] == EntryOf(s, items, k)
  {
    seq(|items|, k requires 0 <= k < |items| => EntryOf(s, items, k))
  }

  function ManifestOf(s: Scanner, source: Source): Manifest
    requires s.config.Valid()
  {
    Manifest(source.kind, source.rootName, Entries(s, source.items), Records(s, Occurrences(s, source.items)))
  }

  /** The chunks stored once: those whose key had not been seen before. */
  function UniqueChunks(s: Scanner, occ: seq<ByteString>): seq<ByteString> {
    if occ == [] then [] else
    var n := |occ| - 1;
    UniqueChunks(s, occ[..n]) + (if First(s, occ, n) == n then [occ[n]] else [])
  }

  // ----- The scan as it runs

  function ReadBlocks(content: ByteString): (blocks: seq<ByteString>)
    ensures forall b | b in blocks :: b != []
    decreases |content|
  {
    if content == [] then []
    else if |content| <= READ_SIZE then [content]
    else [content[..READ_SIZE]] + ReadBlocks(content[READ_SIZE..])
  }

  lemma {:induction false} ReadBlocksFlatten(content: ByteString)
    ensures Flatten(ReadBlocks(content)) == content
    decreases |content|
  {
    if content == [] {
    } else if |content| <= READ_SIZE {
      assert Flatten([content]) == content + Flatten([]);
    } else {
      ReadBlocksFlatten(content[READ_SIZE..]);
      assert content == content[..READ_SIZE] + content[READ_SIZE..];
    }
  }

  lemma FirstIsLocal(s: Scanner, occ: seq<ByteString>, more: seq<ByteString>, i: nat)
    requires i < |occ|
    ensures First(s, occ + more, i) == First(s, occ, i)
  {
    var all := occ + more;
    assert forall k | 0 <= k < |occ| :: KeyOf(s, all[k]) == KeyOf(s, occ[k]);
  }

  lemma RecordsSnoc(s: Scanner, occ: seq<ByteString>, chunk: ByteString)
    ensures Records(s, occ + [chunk]) == Records(s, occ) + [Record(s, occ + [chunk], |occ|)]
    ensures UniqueChunks(s, occ + [chunk])
            == UniqueChunks(s, occ) + (if First(s, occ + [chunk], |occ|) == |occ| then [chunk] else [])
  {
    var all := occ + [chunk];
    assert all[..|occ|] == occ;
    forall i | 0 <= i < |occ|
      ensures Records(s, all)[i] == Records(s, occ)[i]
    {
      FirstIsLocal(s, occ, [chunk], i);
      assert all[i] == occ[i];
    }
    assert Records(s, all)[..|occ|] == Records(s, occ);
  }

  /** The dictionary maps the key of every occurrence so far to the first occurrence with that key. */
  ghost predicate Indexed(s: Scanner, occ: seq<ByteString>, canonical: map<Key, nat>) {
    && (forall i | 0 <= i < |occ| :: KeyOf(s, occ[i]) in canonical && canonical[KeyOf(s, occ[i])] == First(s, occ, i))
    && (forall key | key in canonical :: canonical[key] < |occ| && KeyOf(s, occ[canonical[key]]) == key)
  }

  lemma IndexOneMore(s: Scanner, occ: seq<ByteString>, canonical: map<Key, nat>, chunk: ByteString)
    requires Indexed(s, occ, canonical)
    ensures var key := KeyOf(s, chunk);
            var next := if key in canonical then canonical else canonical[key := |occ|];
            Indexed(s, occ + [chunk], next) && next[key] == First(s, occ + [chunk], |occ|)
  {
    var key, all := KeyOf(s, chunk), occ + [chunk];
    var next := if key in canonical then canonical else canonical[key := |occ|];
    var f := First(s, all, |occ|);
    if key in canonical {
      var c := canonical[key];
      assert all[c] == occ[c];
      assert f <= c;
      assert f < |occ| && all[f] == occ[f];
      FirstIsLocal(s, occ, [chunk], f);
      assert First(s, occ, f) == canonical[key];
    }
    assert forall k | 0 <= k < |occ| :: KeyOf(s, all[k]) == KeyOf(s, occ[k]);
    forall i | 0 <= i < |all|
      ensures KeyOf(s, all[i]) in next && next[KeyOf(s, all[i])] == First(s, all, i)
    {
      if i < |occ| {
        assert all[i] == occ[i];
        FirstIsLocal(s, occ, [chunk], i);
      }
    }
  }

  /** What the scan has accumulated after the occurrences `occ`. */
  ghost predicate Scanned(
      s: Scanner, occ: seq<ByteString>, chunks: seq<ChunkRecord>, unique: seq<ByteString>, canonical: map<Key, nat>)
  {
    chunks == Records(s, occ) && unique == UniqueChunks(s, occ) && Indexed(s, occ, canonical)
  }

  lemma ScanOneMore(
      s: Scanner, occ: seq<ByteString>, chunks: seq<ChunkRecord>, unique: seq<ByteString>,
      canonical: map<Key, nat>, chunk: ByteString)
    requires Scanned(s, occ, chunks, unique, canonical)
    ensures var key := KeyOf(s, chunk);
            var next := if key in canonical then canonical else canonical[key := |chunks|];
            Scanned(s, occ + [chunk], chunks + [ChunkRecord(s.hash(chunk), |chunk|, next[key])],
                    unique + (if next[key] == |chunks| then [chunk] else []), next)
  {
    IndexOneMore(s, occ, canonical, chunk);
    RecordsSnoc(s, occ, chunk);
    assert (occ + [chunk])[|occ|] == chunk;
  }

  /** The loop over the chunks of one file. */
  method ScanFile(
      s: Scanner, content: ByteString, chunksBefore: seq<ChunkRecord>, uniqueBefore: seq<ByteString>,
      canonicalBefore: map<Key, nat>, ghost occ: seq<ByteString>)
    returns (chunks: seq<ChunkRecord>, unique: seq<ByteString>, canonical: map<Key, nat>)
    requires s.Valid() && Scanned(s, occ, chunksBefore, uniqueBefore, canonicalBefore)
    ensures Scanned(s, occ + Cdc.Chunks(s.config, s.table, content), chunks, unique, canonical)
  {
    hide Scanned, Cdc.Chunks, ReadBlocks;
    ReadBlocksFlatten(content);
    var fileChunks := Cdc.IterContentDefinedChunks(s.config, s.table, ReadBlocks(content));
    chunks, unique, canonical := chunksBefore, uniqueBefore, canonicalBefore;
    assert occ + fileChunks[..0] == occ;
    for j := 0 to |fileChunks|
      invariant Scanned(s, occ + fileChunks[..j], chunks, unique, canonical)
    {
      var chunk := fileChunks[j];
      assert occ + fileChunks[..j + 1] == (occ + fileChunks[..j]) + [chunk];
      ScanOneMore(s, occ + fileChunks[..j], chunks, unique, canonical, chunk);
      var key := KeyOf(s, chunk);
      if key !in canonical {
        canonical := canonical[key := |chunks|];
      }
      var sourceIndex := canonical[key];
      unique := unique + (if sourceIndex == |chunks| then [chunk] else []);
      chunks := chunks + [ChunkRecord(s.hash(chunk), |chunk|, sourceIndex)];
    }
    assert fileChunks[..|fileChunks|] == fileChunks;
  }

  method ScanManifest(s: Scanner, source: Source) returns (manifest: Manifest, unique: seq<ByteString>)
    requires s.Valid()
    ensures manifest == ManifestOf(s, source)
    ensures unique == UniqueChunks(s, Occurrences(s, source.items))
  {
    hide Occurrences, Cdc.Chunks, Indexed, UniqueChunks;
    var chunks: seq<ChunkRecord>, entries: seq<Entry>, canonical: map<Key, nat> := [], [], map[];
    unique := [];
    NothingScanned(s);
    assert source.items[..0] == [];
    for fileIndex := 0 to |source.items|
      invariant Scanned(s, Occurrences(s, source.items[..fileIndex]), chunks, unique, canonical)
      invariant |entries| == fileIndex && forall k | 0 <= k < fileIndex :: entries[k] == EntryOf(s, source.items, k)
    {
      var item := source.items[fileIndex];
      ghost var before := Occurrences(s, source.items[..fileIndex]);
      OneMoreItem(s, source.items, fileIndex);
      if item.isDirectory {
        assert before + [] == before;
        entries := entries + [Entry(true, item.path, item.mode, item.mtimeNs, 0, 0, 0, ZERO_HASH)];
        continue;
      }
      var first := |chunks|;
      chunks, unique, canonical := ScanFile(s, item.content, chunks, unique, canonical, before);
      entries := entries + [Entry(false, item.path, item.mode, item.mtimeNs, |item.content|, first,
                                  |chunks| - first, s.hash(item.content))];
    }
    assert source.items[..|source.items|] == source.items;
    assert entries == Entries(s, source.items);
    manifest := Manifest(source.kind, source.rootName, entries, chunks);
  }

  lemma NothingScanned(s: Scanner)
    requires s.config.Valid()
    ensures Occurrences(s, []) == [] && Records(s, []) == [] && UniqueChunks(s, []) == []
    ensures Scanned(s, [], [], [], map[])
  {
  }

  lemma OneMoreItem(s: Scanner, items: seq<Item>, k: nat)
    requires s.config.Valid() && k < |items|
    ensures Occurrences(s, items[..k + 1]) == Occurrences(s, items[..k]) + FileChunks(s, items[k])
  {
    assert items[..k + 1][..k] == items[..k];
  }

  // ----- The manifest of a scan is accepted

  /** What discovery establishes before the scan: canonical, distinct, parented paths and bounded metadata. */
  ghost predicate Discovered(rules: PathRules, source: Source) {
    var items := source.items;
    && |items| <= MAX_ENTRIES
    && rules.canonical(source.rootName) && SLASH !in source.rootName && |source.rootName| < Pow256(2)
    && (forall k | 0 <= k < |items| :: ItemOk(rules, items[k]))
    && (forall j, k | 0 <= j < k < |items| :: rules.fold(items[j].path) != rules.fold(items[k].path))
    && match source.kind
       case KindFile => |items| == 1 && !items[0].isDirectory && items[0].path == source.rootName
       case KindFolder => forall k | 0 <= k < |items| :: HasParent(rules, items, items[k])
  }

  predicate ItemOk(rules: PathRules, item: Item) {
    && rules.canonical(item.path) && |item.path| < Pow256(2) && item.mode <= MAX_MODE
    && FitsSigned(item.mtimeNs, 8) && |item.content| < Pow256(8) && (item.isDirectory ==> item.content == [])
  }

  predicate HasParent(rules: PathRules, items: seq<Item>, item: Item) {
    match rules.parent(item.path)
    case Err => true
    case Ok(parent) => exists d | 0 <= d < |items| :: items[d].isDirectory && items[d].path == parent
  }

  lemma {:induction false} CountsFollowOccurrences(s: Scanner, items: seq<Item>, k: nat)
    requires s.config.Valid() && k <= |items|
    ensures CountChunks(Entries(s, items)[..k]) == |Occurrences(s, items[..k])|
    decreases k
  {
    if k == 0 {
      assert items[..0] == [] && Entries(s, items)[..0] == [];
    } else {
      hide Cdc.Chunks, CountChunks, Occurrences;
      CountsFollowOccurrences(s, items, k - 1);
      OneMoreItem(s, items, k - 1);
      CountChunksSnoc(Entries(s, items), k - 1);
      assert Entries(s, items)[k - 1] == EntryOf(s, items, k - 1);
    }
  }

  lemma {:induction false} OccurrencesGrow(s: Scanner, items: seq<Item>, k: nat)
    requires s.config.Valid() && k <= |items|
    ensures Occurrences(s, items[..k]) <= Occurrences(s, items)
    decreases |items| - k
  {
    if k < |items| {
      OneMoreItem(s, items, k);
      OccurrencesGrow(s, items, k + 1);
    } else {
      assert items[..k] == items;
    }
  }

  /** The slice of the occurrences that a file entry names is that file's chunks. */
  lemma FileSlice(s: Scanner, items: seq<Item>, k: nat)
    requires s.config.Valid() && k < |items|
    ensures var e, occ := EntryOf(s, items, k), Occurrences(s, items);
            !items[k].isDirectory ==>
              && e.firstChunk + e.chunkCount <= |occ|
              && occ[e.firstChunk..e.firstChunk + e.chunkCount] == FileChunks(s, items[k])
  {
    hide Cdc.Chunks;
    OneMoreItem(s, items, k);
    OccurrencesGrow(s, items, k + 1);
    var before, occ := Occurrences(s, items[..k]), Occurrences(s, items);
    var upto := before + FileChunks(s, items[k]);
    assert occ[..|upto|] == upto;
    assert upto[|before|..] == FileChunks(s, items[k]);
    assert occ[|before|..|upto|] == occ[..|upto|][|before|..];
  }

  lemma {:induction false} SizesAreLengths(chunks: seq<ChunkRecord>, parts: seq<ByteString>)
    requires |chunks| == |parts| && forall i | 0 <= i < |parts| :: chunks[i].size == |parts[i]|
    ensures SumSizes(chunks) == |Flatten(parts)|
    decreases |parts|
  {
    if parts != [] {
      var n := |parts| - 1;
      SizesAreLengths(chunks[..n], parts[..n]);
      assert parts == parts[..n] + [parts[n]];
      FlattenSnoc(parts[..n], parts[n]);
    }
  }

  lemma SliceSizes(s: Scanner, occ: seq<ByteString>, lo: nat, hi: nat)
    requires lo <= hi <= |occ|
    ensures SumSizes(Records(s, occ)[lo..hi]) == |Flatten(occ[lo..hi])|
  {
    hide SumSizes, Flatten, First;
    var records := Records(s, occ);
    assert forall i | lo <= i < hi :: records[i] == Record(s, occ, i) && records[i].size == |occ[i]|;
    SizesAreLengths(records[lo..hi], occ[lo..hi]);
  }

  lemma NoChunksIffEmpty(s: Scanner, content: ByteString)
    requires s.config.Valid()
    ensures Cdc.Chunks(s.config, s.table, content) == [] <==> content == []
  {
    hide Cdc.Chunks;
    var chunks := Cdc.Chunks(s.config, s.table, content);
    Cdc.ChunksConcatenateToInput(s.config, s.table, content);
    Cdc.ChunkSizes(s.config, s.table, content);
    if chunks != [] {
      assert Flatten(chunks) == chunks[0] + Flatten(chunks[1..]);
    }
  }

  lemma FileSizeOk(s: Scanner, items: seq<Item>, k: nat)
    requires s.config.Valid() && k < |items|
    ensures SizeOk(Records(s, Occurrences(s, items)), EntryOf(s, items, k))
    ensures !items[k].isDirectory ==> (|items[k].content| == 0 <==> EntryOf(s, items, k).chunkCount == 0)
  {
    hide Cdc.Chunks, Occurrences, SumSizes, Flatten, Record;
    if !items[k].isDirectory {
      var e := EntryOf(s, items, k);
      FileSlice(s, items, k);
      Cdc.ChunksConcatenateToInput(s.config, s.table, items[k].content);
      NoChunksIffEmpty(s, items[k].content);
      SliceSizes(s, Occurrences(s, items), e.firstChunk, e.firstChunk + e.chunkCount);
    }
  }

  lemma RecordOk(s: Scanner, occ: seq<ByteString>, limits: Limits, i: nat)
    requires i < |occ| && 1 <= |occ[i]| <= limits.maxChunkSize
    ensures ChunkOk(limits, Records(s, occ), i)
  {
    var f := First(s, occ, i);
    assert First(s, occ, f) == f;
    assert Records(s, occ)[f] == Record(s, occ, f) && Records(s, occ)[i] == Record(s, occ, i);
  }

  lemma {:induction false} OccurrencesSized(s: Scanner, items: seq<Item>)
    requires s.config.Valid()
    ensures forall c | c in Occurrences(s, items) :: 1 <= |c| <= s.config.maxSize
    decreases |items|
  {
    if items != [] {
      var n := |items| - 1;
      OccurrencesSized(s, items[..n]);
      Cdc.ChunkSizes(s.config, s.table, items[n].content);
    }
  }

  lemma {:induction false} UniqueIsCounted(s: Scanner, occ: seq<ByteString>)
    ensures CountUnique(Records(s, occ)) == |UniqueChunks(s, occ)|
    decreases |occ|
  {
    if occ != [] {
      hide UniqueChunks;
      var n := |occ| - 1;
      UniqueIsCounted(s, occ[..n]);
      RecordsSnoc(s, occ[..n], occ[n]);
      assert occ == occ[..n] + [occ[n]];
      assert Records(s, occ)[..n] == Records(s, occ[..n]);
    }
  }

  function LimitsOf(s: Scanner, source: Source): Limits
    requires s.config.Valid()
  {
    Limits(s.config.maxSize, |UniqueChunks(s, Occurrences(s, source.items))| + 1)
  }

  lemma ScannedEntryOk(rules: PathRules, s: Scanner, source: Source, k: nat)
    requires s.Valid() && Discovered(rules, source) && k < |source.items|
    ensures EntryOk(rules, Entries(s, source.items), k)
  {
    hide Occurrences, CountChunks, FileChunks;
    var items, entries := source.items, Entries(s, source.items);
    CountsFollowOccurrences(s, items, k);
    FileSizeOk(s, items, k);
    assert entries[k] == EntryOf(s, items, k) && ItemOk(rules, items[k]);
    forall j | 0 <= j < k
      ensures rules.fold(entries[j].path) != rules.fold(entries[k].path)
    {
      assert entries[j] == EntryOf(s, items, j);
    }
  }

  lemma ScannedKindOk(rules: PathRules, s: Scanner, source: Source)
    requires s.Valid() && Discovered(rules, source)
    ensures KindOk(rules, ManifestOf(s, source))
  {
    hide Occurrences, Records, FileChunks;
    var items, entries := source.items, Entries(s, source.items);
    if source.kind.KindFolder? {
      forall e | e in entries
        ensures ParentOk(rules, entries, e)
      {
        var k :| 0 <= k < |entries| && entries[k] == e;
        assert e == EntryOf(s, items, k) && HasParent(rules, items, items[k]);
        if rules.parent(e.path).Ok? {
          var d :| 0 <= d < |items| && items[d].isDirectory && items[d].path == rules.parent(e.path).value;
          assert entries[d] == EntryOf(s, items, d) && entries[d] in entries;
        }
      }
    } else {
      assert entries[0] == EntryOf(s, items, 0);
    }
  }

  lemma ScannedChunksOk(s: Scanner, items: seq<Item>, limits: Limits)
    requires s.Valid() && limits.maxChunkSize == s.config.maxSize
    ensures var chunks := Records(s, Occurrences(s, items));
            forall i | 0 <= i < |chunks| :: ChunkOk(limits, chunks, i)
  {
    hide Occurrences, ChunkOk, Record;
    var occ := Occurrences(s, items);
    OccurrencesSized(s, items);
    forall i | 0 <= i < |Records(s, occ)|
      ensures ChunkOk(limits, Records(s, occ), i)
    {
      RecordOk(s, occ, limits, i);
    }
  }

  lemma ScannedEntriesOk(rules: PathRules, s: Scanner, source: Source)
    requires s.Valid() && Discovered(rules, source)
    ensures forall k | 0 <= k < |source.items| :: EntryOk(rules, Entries(s, source.items), k)
    ensures forall e | e in Entries(s, source.items) :: SizeOk(Records(s, Occurrences(s, source.items)), e)
  {
    hide Occurrences, SizeOk, EntryOk, Discovered, EntryOf, Record;
    var items := source.items;
    forall k: nat | k < |items|
      ensures EntryOk(rules, Entries(s, items), k) && SizeOk(Records(s, Occurrences(s, items)), Entries(s, items)[k])
    {
      ScannedEntryOk(rules, s, source, k);
      FileSizeOk(s, items, k);
    }
  }

  lemma ScannedCounts(s: Scanner, items: seq<Item>)
    requires s.config.Valid()
    ensures CountChunks(Entries(s, items)) == |Occurrences(s, items)|
    ensures CountUnique(Records(s, Occurrences(s, items))) == |UniqueChunks(s, Occurrences(s, items))|
  {
    hide Occurrences, CountChunks, CountUnique, UniqueChunks, Record, EntryOf;
    CountsFollowOccurrences(s, items, |items|);
    assert Entries(s, items)[..|items|] == Entries(s, items) && items[..|items|] == items;
    UniqueIsCounted(s, Occurrences(s, items));
  }

  lemma DiscoveredNames(rules: PathRules, source: Source)
    requires Discovered(rules, source)
    ensures |source.items| <= MAX_ENTRIES && rules.canonical(source.rootName)
    ensures SLASH !in source.rootName && |source.rootName| < Pow256(2)
    ensures forall k | 0 <= k < |source.items| :: ItemOk(rules, source.items[k])
  {
  }

  /** The scan of a discovered source is accepted by the parser exactly when its chunks fit the table. */
  lemma ScannedIsWellFormed(rules: PathRules, s: Scanner, source: Source)
    requires s.Valid() && Discovered(rules, source)
    ensures WellFormed(rules, LimitsOf(s, source), ManifestOf(s, source))
            <==> |Occurrences(s, source.items)| <= MAX_CHUNK_RECORDS
  {
    hide Occurrences, UniqueChunks, CountUnique, CountChunks, EntryOk, ChunkOk, SizeOk, KindOk, Discovered, EntryOf, Record;
    DiscoveredNames(rules, source);
    ScannedCounts(s, source.items);
    ScannedKindOk(rules, s, source);
    ScannedChunksOk(s, source.items, LimitsOf(s, source));
    ScannedEntriesOk(rules, s, source);
  }

  lemma ScannedEntryFits(rules: PathRules, s: Scanner, source: Source, k: nat)
    requires s.Valid() && Discovered(rules, source) && k < |source.items|
    requires |Occurrences(s, source.items)| <= MAX_CHUNK_RECORDS
    ensures EntryFits(EntryOf(s, source.items, k))
  {
    assert Pow256(2) == 65536 && Pow256(4) == 0x1_0000_0000 && Pow256(8) == 0x1_0000_0000_0000_0000;
    hide Pow256, Occurrences, FileChunks, Discovered;
    DiscoveredNames(rules, source);
    assert ItemOk(rules, source.items[k]);
    FileSlice(s, source.items, k);
  }

  lemma ScannedFits(rules: PathRules, s: Scanner, source: Source)
    requires s.Valid() && Discovered(rules, source) && |Occurrences(s, source.items)| <= MAX_CHUNK_RECORDS
    ensures Fits(ManifestOf(s, source))
  {
    assert Pow256(2) == 65536 && Pow256(4) == 0x1_0000_0000 && Pow256(8) == 0x1_0000_0000_0000_0000;
    hide Pow256, Occurrences, EntryFits, EntryOf, Discovered, First;
    var items, occ := source.items, Occurrences(s, source.items);
    DiscoveredNames(rules, source);
    forall k: nat | k < |items|
      ensures EntryFits(Entries(s, items)[k])
    {
      ScannedEntryFits(rules, s, source, k);
    }
    OccurrencesSized(s, items);
    assert forall i | 0 <= i < |occ| :: Records(s, occ)[i] == Record(s, occ, i) && ChunkFits(Records(s, occ)[i]);
  }
}
