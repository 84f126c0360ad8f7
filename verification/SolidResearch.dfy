/** The in-memory solid-lane payload: chunk descriptors, lane sizes, and three compressed lanes. */
module SolidResearch {
  import opened Bytes
  import opened PackedLanes
  import opened SolidLanes

  const MAGIC: ByteString := [83, 76, 90, 49] // "SLZ1"
  const MAX_CHUNKS := 1_000_000
  const MAX_CHUNK_SIZE := 16 * 1024 * 1024

  /** The compressor of each lane; nothing is asked of it for an empty lane. */
  datatype LaneCodec = LaneCodec(
    compress: (Lane, ByteString) -> ByteString, decompress: (Lane, ByteString, nat) -> Result<ByteString>)
  {
    ghost predicate Inverse() {
      forall lane: Lane, data {:trigger compress(lane, data)} ::
        data != [] ==> decompress(lane, compress(lane, data), |data|) == Ok(data)
    }
  }

  function CompressLane(c: LaneCodec, lane: Lane, data: ByteString): ByteString {
    if data == [] then [] else c.compress(lane, data)
  }

  function DecompressLane(c: LaneCodec, lane: Lane, payload: ByteString, expectedSize: nat): Result<ByteString> {
    if expectedSize == 0 then if payload == [] then Ok([]) else Err
    else c.decompress(lane, payload, expectedSize)
  }

  type Pair = (nat, nat)

  function TakePair(first: nat, second: nat): ByteString -> Parsed<Pair> {
    d => var (a, d) :- TakeUint(d, first); var (b, d) :- TakeUint(d, second); Parsed((a, b), d)
  }

  function PrintPair(first: nat, second: nat): Pair -> ByteString {
    (p: Pair) => BigEndian(p.0, first) + BigEndian(p.1, second)
  }

  function PairFits(first: nat, second: nat): Pair -> bool {
    (p: Pair) => p.0 < Pow256(first) && p.1 < Pow256(second)
  }

  lemma PairsExact(first: nat, second: nat)
    ensures Exact(TakePair(first, second), PrintPair(first, second), PairFits(first, second))
  {
    forall d, p, rest
      ensures TakePair(first, second)(d) == Parsed(p, rest)
              <==> PairFits(first, second)(p) && d == PrintPair(first, second)(p) + rest
    {
      PairExact(first, second, d, p, rest);
    }
  }

  lemma PairExact(first: nat, second: nat, d: ByteString, p: Pair, rest: ByteString)
    ensures TakePair(first, second)(d) == Parsed(p, rest)
            <==> PairFits(first, second)(p) && d == PrintPair(first, second)(p) + rest
  {
    hide TakeUint, BigEndian, Pow256;
    var tail := BigEndian(p.1, second) + rest;
    assert PrintPair(first, second)(p) + rest == BigEndian(p.0, first) + tail;
    TakeUintExact(d, first, p.0, tail);
    TakeUintExact(tail, second, p.1, rest);
    if TakePair(first, second)(d) == Parsed(p, rest) {
      var q := TakeUint(d, first);
      TakeUintExact(d, first, p.0, q.rest);
      TakeUintExact(q.rest, second, p.1, rest);
    }
  }

  function Descriptors(assignments: seq<Lane>, sizes: seq<nat>): (r: seq<Pair>)
    requires |assignments| == |sizes|
    ensures |r| == |sizes| && forall i | 0 <= i < |sizes| :: r[i] == (assignments[i], sizes[i])
  {
    seq(|sizes|, i requires 0 <= i < |sizes| => (assignments[i], sizes[i]))
  }

  function Compressed(c: LaneCodec, lanes: seq<ByteString>): (r: seq<ByteString>)
    requires |lanes| == LANE_COUNT
    ensures |r| == LANE_COUNT && forall k: Lane :: r[k] == CompressLane(c, k, lanes[k])
  {
    [CompressLane(c, 0, lanes[0]), CompressLane(c, 1, lanes[1]), CompressLane(c, 2, lanes[2])]
  }

  function LaneHeaders(lanes: seq<ByteString>, compressed: seq<ByteString>): (r: seq<Pair>)
    requires |lanes| == |compressed| == LANE_COUNT
    ensures |r| == LANE_COUNT && forall k: Lane :: r[k] == (|lanes[k]|, |compressed[k]|)
  {
    [(|lanes[0]|, |compressed[0]|), (|lanes[1]|, |compressed[1]|), (|lanes[2]|, |compressed[2]|)]
  }

  function Print(c: LaneCodec, chunks: seq<ByteString>, assignments: seq<Lane>): ByteString
    requires |chunks| == |assignments|
  {
    var lanes := Partition(chunks, assignments);
    var compressed := Compressed(c, lanes);
    MAGIC + (BigEndian(|chunks|, 4)
    + (PrintMany(PrintPair(1, 4), Descriptors(assignments, Sizes(chunks)))
    + (PrintMany(PrintPair(8, 8), LaneHeaders(lanes, compressed))
    + (compressed[0] + (compressed[1] + compressed[2])))))
  }

  /** The encoder's limits, and that every lane length fits the field it is packed into. */
  predicate Encodable(c: LaneCodec, chunks: seq<ByteString>, assignments: seq<Lane>)
    requires |chunks| == |assignments|
  {
    && |chunks| <= MAX_CHUNKS && (forall x | x in chunks :: |x| <= MAX_CHUNK_SIZE)
    && forall p | p in LaneHeaders(Partition(chunks, assignments), Compressed(c, Partition(chunks, assignments))) ::
         PairFits(8, 8)(p)
  }

  /** Routes each chunk: its lane grows by its bytes, and its descriptor is its lane and its size. */
  method RouteChunks(route: ByteString -> Lane, chunks: seq<ByteString>)
    returns (lanes: seq<ByteString>, descriptors: seq<Pair>, counts: seq<nat>)
    ensures var assignments := Routed(route, chunks);
            && lanes == Partition(chunks, assignments) && descriptors == Descriptors(assignments, Sizes(chunks))
            && |counts| == LANE_COUNT && forall k: Lane :: counts[k] == multiset(assignments)[k]
  {
    hide Gather;
    lanes, descriptors, counts := [[], [], []], [], [0, 0, 0];
    ghost var assignments: seq<Lane> := [];
    NothingGathered();
    for i := 0 to |chunks|
      invariant assignments == Routed(route, chunks[..i]) && |lanes| == |counts| == LANE_COUNT
      invariant descriptors == Descriptors(assignments, Sizes(chunks[..i]))
      invariant forall k: Lane :: lanes[k] == Gather(chunks[..i], assignments, k)
      invariant forall k: Lane :: counts[k] == multiset(assignments)[k]
    {
      var chunk := chunks[i];
      var to := route(chunk);
      forall k: Lane
        ensures Gather(chunks[..i + 1], assignments + [to], k)
                == Gather(chunks[..i], assignments, k) + (if to == k then chunk else [])
      {
        GatherSnoc(chunks[..i], assignments, chunk, to, k);
        assert chunks[..i + 1] == chunks[..i] + [chunk];
      }
      lanes := lanes[to := lanes[to] + chunk];
      descriptors := descriptors + [(to, |chunk|)];
      counts := counts[to := counts[to] + 1];
      assignments := assignments + [to];
      assert assignments == Routed(route, chunks[..i + 1]);
    }
    assert chunks[..|chunks|] == chunks;
    assert lanes == Partition(chunks, assignments);
  }

  lemma NothingGathered()
    ensures forall k: Lane :: Gather([], [], k) == []
  {
  }

  method PrintDescriptors(descriptors: seq<Pair>) returns (output: ByteString)
    ensures output == PrintMany(PrintPair(1, 4), descriptors)
  {
    output := [];
    for i := 0 to |descriptors|
      invariant output == PrintMany(PrintPair(1, 4), descriptors[..i])
    {
      PrintManySnoc(PrintPair(1, 4), descriptors[..i], descriptors[i]);
      assert descriptors[..i + 1] == descriptors[..i] + [descriptors[i]];
      output := output + (BigEndian(descriptors[i].0, 1) + BigEndian(descriptors[i].1, 4));
    }
    assert descriptors[..|descriptors|] == descriptors;
  }

  /** The lane table; packing fails if a length does not fit its field. */
  method PrintLaneHeaders(lanes: seq<ByteString>, compressed: seq<ByteString>) returns (r: Result<ByteString>)
    requires |lanes| == |compressed| == LANE_COUNT
    ensures var headers := LaneHeaders(lanes, compressed);
            r == if forall p | p in headers :: PairFits(8, 8)(p) then Ok(PrintMany(PrintPair(8, 8), headers)) else Err
  {
    hide Pow256, BigEndian;
    ghost var headers := LaneHeaders(lanes, compressed);
    var output: ByteString := [];
    for lane := 0 to LANE_COUNT
      invariant output == PrintMany(PrintPair(8, 8), headers[..lane])
      invariant forall k | 0 <= k < lane :: PairFits(8, 8)(headers[k])
    {
      var raw, packed := |lanes[lane]|, |compressed[lane]|;
      assert headers[lane] == (raw, packed);
      if raw >= Pow256(8) || packed >= Pow256(8) {
        assert headers[lane] in headers && !PairFits(8, 8)(headers[lane]);
        return Err;
      }
      PrintManySnoc(PrintPair(8, 8), headers[..lane], headers[lane]);
      assert headers[..lane + 1] == headers[..lane] + [headers[lane]];
      output := output + (BigEndian(raw, 8) + BigEndian(packed, 8));
    }
    assert headers[..LANE_COUNT] == headers;
    r := Ok(output);
  }

  method AppendLanes(front: ByteString, compressed: seq<ByteString>) returns (output: ByteString)
    requires |compressed| == LANE_COUNT
    ensures output == front + (compressed[0] + (compressed[1] + compressed[2]))
  {
    hide Flatten;
    output := front;
    assert compressed[..0] == [] && Flatten<Byte>([]) == [] by {
      FlattenNothing();
    }
    for lane := 0 to LANE_COUNT
      invariant output == front + Flatten(compressed[..lane])
    {
      FlattenSnoc(compressed[..lane], compressed[lane]);
      assert compressed[..lane + 1] == compressed[..lane] + [compressed[lane]];
      output := output + compressed[lane];
    }
    FlattenThree(compressed);
  }

  lemma FlattenNothing()
    ensures Flatten<Byte>([]) == []
  {
  }

  /** The encoder as it runs; `counts` is how many chunks went to each lane. */
  method EncodeSolidChunks(c: LaneCodec, route: ByteString -> Lane, chunks: seq<ByteString>)
    returns (r: Result<ByteString>, counts: seq<nat>)
    ensures var assignments := Routed(route, chunks);
            && (r == if Encodable(c, chunks, assignments) then Ok(Print(c, chunks, assignments)) else Err)
            && (r.Ok? ==> |counts| == LANE_COUNT && forall k: Lane :: counts[k] == multiset(assignments)[k])
  {
    hide PrintMany, PrintPair, PairFits, BigEndian, Compressed, Gather, Partition, Descriptors, LaneHeaders;
    counts := [0, 0, 0];
    if |chunks| > MAX_CHUNKS || exists x | x in chunks :: |x| > MAX_CHUNK_SIZE { return Err, counts; }
    var lanes, descriptors;
    lanes, descriptors, counts := RouteChunks(route, chunks);
    var compressed := Compressed(c, lanes);
    var output := MAGIC + BigEndian(|chunks|, 4);
    var table := PrintDescriptors(descriptors);
    output := output + table;
    var headers := PrintLaneHeaders(lanes, compressed);
    if headers.Err? { return Err, counts; }
    output := output + headers.value;
    output := AppendLanes(output, compressed);
    PartsTogether(MAGIC, BigEndian(|chunks|, 4), table, headers.value, compressed[0] + (compressed[1] + compressed[2]));
    r := Ok(output);
  }

  lemma FlattenThree(parts: seq<ByteString>)
    requires |parts| == LANE_COUNT
    ensures parts[..LANE_COUNT] == parts && Flatten(parts) == parts[0] + (parts[1] + parts[2])
  {
    assert parts == [parts[0], parts[1], parts[2]];
    assert Flatten([parts[2]]) == parts[2] + Flatten([]) == parts[2];
  }

  lemma PartsTogether(a: ByteString, b: ByteString, c: ByteString, d: ByteString, e: ByteString)
    ensures ((a + b) + c + d) + e == a + (b + (c + (d + e)))
  {
  }

  // ----- Decoding

  /** The bytes of one lane according to the descriptors. */
  function LaneTotal(descriptors: seq<Pair>, lane: nat): nat {
    if descriptors == [] then 0 else
    (if descriptors[0].0 == lane then descriptors[0].1 else 0) + LaneTotal(descriptors[1..], lane)
  }

  predicate DescriptorOk(descriptors: seq<Pair>, expectedSizes: seq<nat>, i: nat)
    requires i < |descriptors| == |expectedSizes|
  {
    descriptors[i].0 < LANE_COUNT && descriptors[i].1 == expectedSizes[i] && descriptors[i].1 <= MAX_CHUNK_SIZE
  }

  function LanesOf(descriptors: seq<Pair>): (r: seq<Lane>)
    requires forall i | 0 <= i < |descriptors| :: descriptors[i].0 < LANE_COUNT
    ensures |r| == |descriptors| && forall i | 0 <= i < |r| :: r[i] == descriptors[i].0
  {
    seq(|descriptors|, i requires 0 <= i < |descriptors| => descriptors[i].0 as Lane)
  }

  /** The three lanes, each decompressed from its own stretch of the payload. */
  function DecodeLanes(c: LaneCodec, headers: seq<Pair>, d: ByteString): (r: Result<seq<ByteString>>)
    requires |headers| == LANE_COUNT
    ensures r.Ok? ==> |r.value| == LANE_COUNT
  {
    var a, b := headers[0].1, headers[0].1 + headers[1].1;
    if b + headers[2].1 != |d| then Err else
    match (DecompressLane(c, 0, d[..a], headers[0].0), DecompressLane(c, 1, d[a..b], headers[1].0),
           DecompressLane(c, 2, d[b..], headers[2].0))
    case (Ok(x), Ok(y), Ok(z)) => Ok([x, y, z])
    case _ => Err
  }

  datatype Tables = Tables(magic: ByteString, descriptors: seq<Pair>, headers: seq<Pair>)

  function TakeTables(payload: ByteString): Parsed<Tables> {
    var (magic, d) :- TakeBytes(payload, 4);
    var (count, d) :- TakeUint(d, 4);
    var (descriptors, d) :- TakeMany(TakePair(1, 4), d, count);
    var (headers, d) :- TakeMany(TakePair(8, 8), d, LANE_COUNT);
    Parsed(Tables(magic, descriptors, headers), d)
  }

  predicate Described(descriptors: seq<Pair>, expectedSizes: seq<nat>) {
    && |descriptors| == |expectedSizes| && |descriptors| <= MAX_CHUNKS
    && forall i | 0 <= i < |descriptors| :: DescriptorOk(descriptors, expectedSizes, i)
  }

  lemma DescribedLanes(descriptors: seq<Pair>, expectedSizes: seq<nat>)
    requires Described(descriptors, expectedSizes)
    ensures forall i | 0 <= i < |descriptors| :: descriptors[i].0 < LANE_COUNT
  {
    forall i | 0 <= i < |descriptors|
      ensures descriptors[i].0 < LANE_COUNT
    {
      assert DescriptorOk(descriptors, expectedSizes, i);
    }
  }

  predicate HeadersOk(t: Tables) {
    |t.headers| == LANE_COUNT && forall k: Lane :: t.headers[k].0 == LaneTotal(t.descriptors, k)
  }

  function Decode(c: LaneCodec, payload: ByteString, expectedSizes: seq<nat>): Result<seq<ByteString>> {
    match TakeTables(payload)
    case Malformed => Err
    case Parsed(t, d) =>
      if t.magic == MAGIC && Described(t.descriptors, expectedSizes) && HeadersOk(t) then
        DecodeTables(c, t, d, expectedSizes)
      else Err
  }

  function DecodeTables(c: LaneCodec, t: Tables, d: ByteString, expectedSizes: seq<nat>): Result<seq<ByteString>>
    requires Described(t.descriptors, expectedSizes) && HeadersOk(t)
  {
    DescribedLanes(t.descriptors, expectedSizes);
    match DecodeLanes(c, t.headers, d)
    case Err => Err
    case Ok(lanes) => Merge(lanes, LanesOf(t.descriptors), expectedSizes)
  }

  method DecodeSolidChunks(c: LaneCodec, payload: ByteString, expectedSizes: seq<nat>)
    returns (r: Result<seq<ByteString>>)
    ensures r == Decode(c, payload, expectedSizes)
  {
    hide TakeTables, DecodeLanes, Merge, LanesOf;
    var tables := TakeTables(payload);
    if tables.Malformed? { return Err; }
    var t := tables.value;
    if t.magic != MAGIC || |t.descriptors| != |expectedSizes| || |t.descriptors| > MAX_CHUNKS { return Err; }
    var calculated: seq<nat> := [0, 0, 0];
    for i := 0 to |expectedSizes|
      invariant |calculated| == LANE_COUNT
      invariant forall j | 0 <= j < i :: DescriptorOk(t.descriptors, expectedSizes, j)
      invariant forall k: Lane :: calculated[k] + LaneTotal(t.descriptors[i..], k) == LaneTotal(t.descriptors, k)
    {
      var lane, size := t.descriptors[i].0, t.descriptors[i].1;
      if lane >= LANE_COUNT || size != expectedSizes[i] || size > MAX_CHUNK_SIZE {
        assert !DescriptorOk(t.descriptors, expectedSizes, i);
        return Err;
      }
      assert t.descriptors[i..][1..] == t.descriptors[i + 1..];
      calculated := calculated[lane := calculated[lane] + size];
    }
    assert t.descriptors[|expectedSizes|..] == [];
    if |t.headers| != LANE_COUNT || exists k: Lane :: t.headers[k].0 != calculated[k] { return Err; }
    assert Described(t.descriptors, expectedSizes) && HeadersOk(t);
    var lanes := DecodeLanes(c, t.headers, tables.rest);
    if lanes.Err? { return Err; }
    DescribedLanes(t.descriptors, expectedSizes);
    r := MergeLanes(lanes.value, LanesOf(t.descriptors), expectedSizes);
  }

  lemma {:induction false} LaneTotalIsLength(chunks: seq<ByteString>, assignments: seq<Lane>, lane: Lane)
    requires |chunks| == |assignments|
    ensures LaneTotal(Descriptors(assignments, Sizes(chunks)), lane) == |Gather(chunks, assignments, lane)|
    decreases |chunks|
  {
    if chunks != [] {
      LaneTotalIsLength(chunks[1..], assignments[1..], lane);
      assert Descriptors(assignments, Sizes(chunks))[1..] == Descriptors(assignments[1..], Sizes(chunks[1..]));
    }
  }

  lemma PrintedTablesRead(c: LaneCodec, chunks: seq<ByteString>, assignments: seq<Lane>)
    requires |chunks| == |assignments| && Encodable(c, chunks, assignments)
    ensures var lanes := Partition(chunks, assignments);
            var compressed := Compressed(c, lanes);
            TakeTables(Print(c, chunks, assignments))
            == Parsed(Tables(MAGIC, Descriptors(assignments, Sizes(chunks)), LaneHeaders(lanes, compressed)),
                      compressed[0] + (compressed[1] + compressed[2]))
  {
    hide TakeUint, TakeBytes, TakeMany, PrintMany, BigEndian, Pow256, TakePair, PrintPair, PairFits, Compressed, Partition,
         Descriptors, LaneHeaders;
    Widths();
    var lanes := Partition(chunks, assignments);
    var compressed := Compressed(c, lanes);
    var descriptors, headers := Descriptors(assignments, Sizes(chunks)), LaneHeaders(lanes, compressed);
    DescriptorsFit(chunks, assignments);
    var r4 := compressed[0] + (compressed[1] + compressed[2]);
    var r3 := PrintMany(PrintPair(8, 8), headers) + r4;
    var r2 := PrintMany(PrintPair(1, 4), descriptors) + r3;
    var r1 := BigEndian(|chunks|, 4) + r2;
    var d := MAGIC + r1;
    assert Print(c, chunks, assignments) == d;
    TakeBytesExact(d, 4, MAGIC, r1);
    TakeUintExact(r1, 4, |chunks|, r2);
    PairsExact(1, 4);
    TakeManyExact(TakePair(1, 4), PrintPair(1, 4), PairFits(1, 4), r2, descriptors, r3);
    PairsExact(8, 8);
    TakeManyExact(TakePair(8, 8), PrintPair(8, 8), PairFits(8, 8), r3, headers, r4);
  }

  lemma DescriptorsFit(chunks: seq<ByteString>, assignments: seq<Lane>)
    requires |chunks| == |assignments| && forall x | x in chunks :: |x| <= MAX_CHUNK_SIZE
    ensures forall p | p in Descriptors(assignments, Sizes(chunks)) :: PairFits(1, 4)(p)
  {
    hide Pow256;
    Widths();
    var descriptors := Descriptors(assignments, Sizes(chunks));
    forall i | 0 <= i < |descriptors|
      ensures PairFits(1, 4)(descriptors[i])
    {
      assert |chunks[i]| <= MAX_CHUNK_SIZE;
    }
  }

  lemma Widths()
    ensures Pow256(1) == 256 && MAX_CHUNK_SIZE < Pow256(4)
  {
    assert Pow256(4) == 0x1_0000_0000;
  }

  lemma LanesDecode(c: LaneCodec, lanes: seq<ByteString>)
    requires c.Inverse() && |lanes| == LANE_COUNT
    ensures var z := Compressed(c, lanes);
            DecodeLanes(c, LaneHeaders(lanes, z), z[0] + (z[1] + z[2])) == Ok(lanes)
  {
    var z := Compressed(c, lanes);
    var d := z[0] + (z[1] + z[2]);
    var a, b := |z[0]|, |z[0]| + |z[1]|;
    assert d[..a] == z[0] && d[a..b] == z[1] && d[b..] == z[2];
    forall k: Lane
      ensures DecompressLane(c, k, z[k], |lanes[k]|) == Ok(lanes[k])
    {
    }
    assert lanes == [lanes[0], lanes[1], lanes[2]];
  }

  /** For any routing, decoding returns the chunks exactly when the expected sizes are theirs. */
  lemma DecodeEncoded(
      c: LaneCodec, route: ByteString -> Lane, chunks: seq<ByteString>, expectedSizes: seq<nat>)
    requires c.Inverse() && Encodable(c, chunks, Routed(route, chunks))
    ensures Decode(c, Print(c, chunks, Routed(route, chunks)), expectedSizes)
            == if expectedSizes == Sizes(chunks) then Ok(chunks) else Err
  {
    hide TakeTables, Print, DecodeLanes, Merge, LaneTotal, Gather, Compressed;
    var assignments := Routed(route, chunks);
    var lanes := Partition(chunks, assignments);
    var descriptors := Descriptors(assignments, Sizes(chunks));
    PrintedTablesRead(c, chunks, assignments);
    if |expectedSizes| == |chunks| {
      if expectedSizes == Sizes(chunks) {
        forall i | 0 <= i < |chunks|
          ensures DescriptorOk(descriptors, expectedSizes, i)
        {
          assert |chunks[i]| <= MAX_CHUNK_SIZE;
        }
        forall k: Lane
          ensures LaneHeaders(lanes, Compressed(c, lanes))[k].0 == LaneTotal(descriptors, k)
        {
          LaneTotalIsLength(chunks, assignments, k);
        }
        LanesDecode(c, lanes);
        assert LanesOf(descriptors) == assignments;
        MergePartition(chunks, assignments);
      } else {
        var i :| 0 <= i < |chunks| && expectedSizes[i] != Sizes(chunks)[i];
        assert !DescriptorOk(descriptors, expectedSizes, i);
      }
    }
  }
}
