/** Which sources the deduplicating writer accepts, told from the source itself. */
module DedupAcceptance {
  import opened Bytes
  import opened DedupManifest
  import opened DedupScan
  import opened Frames
  import opened Sealing
  import Cdc
  import D = DedupArchive
  import Padding
  import R = DedupRoundTrip

  const HEAD_BYTES := 19 // a manifest without its names and tables
  const ENTRY_BYTES := 67 // one printed entry without its path

  function EntryText(items: seq<Item>): nat {
    if items == [] then 0 else ENTRY_BYTES + |items[0].path| + EntryText(items[1..])
  }

  /** The length of the manifest of a source that is cut into `chunks` chunks. */
  function ManifestText(source: Source, chunks: nat): nat {
    HEAD_BYTES + |source.rootName| + EntryText(source.items) + CHUNK_BYTES * chunks
  }

  lemma {:induction false} PrintedEntriesSize(entries: seq<Entry>, items: seq<Item>)
    requires |entries| == |items|
    requires forall k | 0 <= k < |items| :: entries[k].path == items[k].path && |entries[k].digest| == DIGEST_BYTES
    ensures |PrintMany(PrintEntry, entries)| == EntryText(items)
  {
    hide BigEndian;
    if entries != [] {
      PrintedEntriesSize(entries[1..], items[1..]);
    }
  }

  lemma ManifestTextIsExact(s: Scanner, source: Source)
    requires s.Valid()
    ensures |Print(ManifestOf(s, source))| == ManifestText(source, |Occurrences(s, source.items)|)
  {
    hide BigEndian, Records, Occurrences, PrintMany, FileChunks, EntryText;
    var m := ManifestOf(s, source);
    PrintedChunksSize(m.chunks) by {
      assert forall i | 0 <= i < |m.chunks| :: m.chunks[i] == Record(s, Occurrences(s, source.items), i);
    }
    PrintedEntriesSize(m.entries, source.items) by {
      assert forall k | 0 <= k < |m.entries| :: m.entries[k] == EntryOf(s, source.items, k);
    }
  }

  /** A second reading that finds the same contents matches the scan. */
  lemma SteadySourceMatches(s: Scanner, source: Source)
    requires s.Valid()
    ensures var again := R.ContentsOf(source.items);
            R.Reread(source.items, again) == source.items && R.Unchanged(s, ManifestOf(s, source), source.items)
  {
    hide Occurrences, FileChunks, First;
    var occ, items := Occurrences(s, source.items), source.items;
    assert forall i | 0 <= i < |occ| :: Records(s, occ)[i] == Record(s, occ, i);
    assert forall k | 0 <= k < |items| :: Entries(s, items)[k] == EntryOf(s, items, k);
  }

  /**
   * A discovered source that reads the same twice is written exactly if the padding size is in range and the
   * manifest, whose length its names and its number of chunks give, is within the writer's bound.
   */
  lemma SteadySourceIsWritten(c: D.Codec, o: D.Settings, source: Source)
    requires c.Valid() && o.Valid() && Discovered(c.rules, source)
    ensures R.Encoded(c, o, source, R.ContentsOf(source.items)).Ok? <==>
              && Padding.MIN_BLOCK <= o.paddingSize <= Padding.MAX_BLOCK
              && ManifestText(source, |Occurrences(c.scanner, source.items)|) + o.paddingSize + TAG_BYTES
                 <= MAX_MANIFEST_CIPHERTEXT
  {
    hide Occurrences, Discovered, Print, ManifestOf, R.Unchanged, D.ArchiveOf, EntryText, CountUnique, Fits;
    var s, occ := c.scanner, Occurrences(c.scanner, source.items);
    ManifestTextIsExact(s, source);
    SteadySourceMatches(s, source);
    UniqueAreFew(s, source);
    if |occ| <= MAX_CHUNK_RECORDS {
      ScannedFits(c.rules, s, source);
    }
  }

  lemma UniqueAreFew(s: Scanner, source: Source)
    requires s.Valid()
    ensures CountUnique(ManifestOf(s, source).chunks) <= |Occurrences(s, source.items)|
  {
    hide Occurrences, Records;
    CountUniqueIsBounded(Records(s, Occurrences(s, source.items)));
  }

  lemma {:induction false} CountUniqueIsBounded(chunks: seq<ChunkRecord>)
    ensures CountUnique(chunks) <= |chunks|
    decreases |chunks|
  {
    if chunks != [] {
      CountUniqueIsBounded(chunks[..|chunks| - 1]);
    }
  }

  // ----- How many chunks a source can have

  /** Every chunk of a file but its last has at least the minimal size. */
  function MostInFile(size: nat, minSize: nat): nat
    requires 0 < minSize
  {
    size / minSize + 1
  }

  function MostChunks(items: seq<Item>, minSize: nat): nat
    requires 0 < minSize
  {
    if items == [] then 0 else
    MostChunks(items[..|items| - 1], minSize) + MostInFile(|items[|items| - 1].content|, minSize)
  }

  lemma {:induction false} FewChunks(minSize: nat, chunks: seq<ByteString>)
    requires chunks != [] && forall i | 0 <= i < |chunks| - 1 :: minSize <= |chunks[i]|
    ensures minSize * (|chunks| - 1) <= |Flatten(chunks)|
  {
    if |chunks| > 1 {
      FewChunks(minSize, chunks[1..]);
      assert minSize * (|chunks| - 1) == minSize * (|chunks| - 2) + minSize;
    }
  }

  lemma QuotientAtLeast(n: nat, b: nat, k: nat)
    requires 0 < b && b * k <= n
    ensures k <= n / b
  {
    if n / b < k {
      Padding.ProductsKeepOrder(n / b + 1, k, b);
      Padding.OneMoreTimes(n / b, b);
    }
  }

  lemma FewChunksInFile(s: Scanner, item: Item)
    requires s.config.Valid()
    ensures |FileChunks(s, item)| <= MostInFile(|item.content|, s.config.minSize)
  {
    hide Cdc.Chunks, Flatten;
    var chunks := FileChunks(s, item);
    if |chunks| > 1 {
      Cdc.ChunkSizes(s.config, s.table, item.content);
      Cdc.ChunksConcatenateToInput(s.config, s.table, item.content);
      FewChunks(s.config.minSize, chunks);
      QuotientAtLeast(|item.content|, s.config.minSize, |chunks| - 1);
    }
  }

  lemma {:induction false} FewOccurrences(s: Scanner, items: seq<Item>)
    requires s.config.Valid()
    ensures |Occurrences(s, items)| <= MostChunks(items, s.config.minSize)
    decreases |items|
  {
    hide FileChunks;
    if items != [] {
      FewOccurrences(s, items[..|items| - 1]);
      FewChunksInFile(s, items[|items| - 1]);
    }
  }

  /** Every discovered source of bounded size that reads the same twice is written. */
  lemma SmallSourceIsWritten(c: D.Codec, o: D.Settings, source: Source)
    requires c.Valid() && o.Valid() && Discovered(c.rules, source)
    requires Padding.MIN_BLOCK <= o.paddingSize <= Padding.MAX_BLOCK
    requires ManifestText(source, MostChunks(source.items, c.scanner.config.minSize)) + o.paddingSize + TAG_BYTES
             <= MAX_MANIFEST_CIPHERTEXT
    ensures R.Encoded(c, o, source, R.ContentsOf(source.items)).Ok?
  {
    hide Occurrences, Discovered, R.Encoded, EntryText, MostChunks;
    FewOccurrences(c.scanner, source.items);
    SteadySourceIsWritten(c, o, source);
  }
}
