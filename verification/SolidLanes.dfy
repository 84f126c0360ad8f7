/** Chunks routed into three continuous lanes, and the merge that puts them back in order. */
module SolidLanes {
  import opened Bytes
  import opened PackedLanes

  /** The bytes of one lane: the chunks assigned to it, in order. */
  function Gather(chunks: seq<ByteString>, assignments: seq<Lane>, lane: Lane): ByteString
    requires |chunks| == |assignments|
  {
    if chunks == [] then [] else
    (if assignments[0] == lane then chunks[0] else []) + Gather(chunks[1..], assignments[1..], lane)
  }

  function Partition(chunks: seq<ByteString>, assignments: seq<Lane>): (r: seq<ByteString>)
    requires |chunks| == |assignments|
    ensures |r| == LANE_COUNT && forall lane: Lane :: r[lane] == Gather(chunks, assignments, lane)
  {
    [Gather(chunks, assignments, 0), Gather(chunks, assignments, 1), Gather(chunks, assignments, 2)]
  }

  function Sizes(chunks: seq<ByteString>): (r: seq<nat>)
    ensures |r| == |chunks| && forall i | 0 <= i < |chunks| :: r[i] == |chunks[i]|
  {
    seq(|chunks|, i requires 0 <= i < |chunks| => |chunks[i]|)
  }

  /** Chunk after chunk from the front of its lane; every lane byte must be used. */
  function Merge(lanes: seq<ByteString>, assignments: seq<Lane>, sizes: seq<nat>): (r: Result<seq<ByteString>>)
    requires |lanes| == LANE_COUNT && |assignments| == |sizes|
    ensures r.Ok? ==> |r.value| == |sizes|
    decreases |sizes|
  {
    if sizes == [] then if forall lane: Lane :: lanes[lane] == [] then Ok([]) else Err
    else
      var lane, size := assignments[0], sizes[0];
      if |lanes[lane]| < size then Err else
      match Merge(lanes[lane := lanes[lane][size..]], assignments[1..], sizes[1..])
      case Err => Err
      case Ok(later) => Ok([lanes[lane][..size]] + later)
  }

  lemma PartitionOneFewer(chunks: seq<ByteString>, assignments: seq<Lane>)
    requires |chunks| == |assignments| && chunks != []
    ensures var lanes, lane := Partition(chunks, assignments), assignments[0];
            && chunks[0] <= lanes[lane]
            && lanes[lane := lanes[lane][|chunks[0]|..]] == Partition(chunks[1..], assignments[1..])
  {
    var lanes, lane, later := Partition(chunks, assignments), assignments[0], Partition(chunks[1..], assignments[1..]);
    forall k: Lane
      ensures lanes[k] == (if k == lane then chunks[0] else []) + later[k]
    {
    }
    hide Partition, Gather;
    assert forall k: Lane | k != lane :: [] + later[k] == later[k];
    assert (chunks[0] + later[lane])[|chunks[0]|..] == later[lane];
  }

  lemma NoChunks(assignments: seq<Lane>)
    requires assignments == []
    ensures forall k: Lane :: Partition([], assignments)[k] == []
  {
  }

  lemma {:induction false} MergePartition(chunks: seq<ByteString>, assignments: seq<Lane>)
    requires |chunks| == |assignments|
    ensures Merge(Partition(chunks, assignments), assignments, Sizes(chunks)) == Ok(chunks)
    decreases |chunks|
  {
    hide Gather;
    if chunks == [] {
      assert Sizes(chunks) == [];
      NoChunks(assignments);
    } else {
      assert chunks == [chunks[0]] + chunks[1..];
      var lanes, later := Partition(chunks, assignments), Partition(chunks[1..], assignments[1..]);
      var lane, size := assignments[0], |chunks[0]|;
      PartitionOneFewer(chunks, assignments);
      assert lanes[lane][..size] == chunks[0];
      assert Sizes(chunks)[1..] == Sizes(chunks[1..]);
      MergePartition(chunks[1..], assignments[1..]);
    }
  }

  lemma {:induction false} PartitionMerge(lanes: seq<ByteString>, assignments: seq<Lane>, sizes: seq<nat>)
    requires |lanes| == LANE_COUNT && |assignments| == |sizes| && Merge(lanes, assignments, sizes).Ok?
    ensures var chunks := Merge(lanes, assignments, sizes).value;
            Sizes(chunks) == sizes && Partition(chunks, assignments) == lanes
    decreases |sizes|
  {
    var chunks := Merge(lanes, assignments, sizes).value;
    if sizes == [] {
      assert forall k: Lane :: Gather(chunks, assignments, k) == lanes[k];
    } else {
      var lane, size := assignments[0], sizes[0];
      var rest := lanes[lane := lanes[lane][size..]];
      PartitionMerge(rest, assignments[1..], sizes[1..]);
      assert chunks[1..] == Merge(rest, assignments[1..], sizes[1..]).value;
      assert Sizes(chunks)[1..] == Sizes(chunks[1..]) && Sizes(chunks)[0] == size;
      forall k: Lane
        ensures Gather(chunks, assignments, k) == lanes[k]
      {
        assert Gather(chunks[1..], assignments[1..], k) == rest[k];
        if k == lane {
          assert lanes[k] == lanes[k][..size] + lanes[k][size..];
        }
      }
    }
  }

  /** Merging succeeds exactly on partitioned lanes, and gives back what was partitioned. */
  lemma MergeIffPartitioned(lanes: seq<ByteString>, assignments: seq<Lane>, sizes: seq<nat>, chunks: seq<ByteString>)
    requires |lanes| == LANE_COUNT && |assignments| == |sizes|
    ensures Merge(lanes, assignments, sizes) == Ok(chunks)
            <==> Sizes(chunks) == sizes && |chunks| == |assignments| && lanes == Partition(chunks, assignments)
  {
    hide Partition, Merge;
    if Merge(lanes, assignments, sizes) == Ok(chunks) {
      PartitionMerge(lanes, assignments, sizes);
    }
    if Sizes(chunks) == sizes && |chunks| == |assignments| && lanes == Partition(chunks, assignments) {
      MergePartition(chunks, assignments);
    }
  }

  // ----- The loops

  function Routed(route: ByteString -> Lane, chunks: seq<ByteString>): (r: seq<Lane>)
    ensures |r| == |chunks| && forall i | 0 <= i < |chunks| :: r[i] == route(chunks[i])
  {
    seq(|chunks|, i requires 0 <= i < |chunks| => route(chunks[i]))
  }

  lemma {:induction false} GatherSnoc(chunks: seq<ByteString>, assignments: seq<Lane>, chunk: ByteString, to: Lane, lane: Lane)
    requires |chunks| == |assignments|
    ensures Gather(chunks + [chunk], assignments + [to], lane)
            == Gather(chunks, assignments, lane) + (if to == lane then chunk else [])
    decreases |chunks|
  {
    if chunks == [] {
      assert (chunks + [chunk])[1..] == [] && (assignments + [to])[1..] == [];
    } else {
      assert (chunks + [chunk])[1..] == chunks[1..] + [chunk];
      assert (assignments + [to])[1..] == assignments[1..] + [to];
      GatherSnoc(chunks[1..], assignments[1..], chunk, to, lane);
      var first := if assignments[0] == lane then chunks[0] else [];
      var last := if to == lane then chunk else [];
      assert first + (Gather(chunks[1..], assignments[1..], lane) + last)
          == (first + Gather(chunks[1..], assignments[1..], lane)) + last;
    }
  }

  /** Each unique chunk, in the order discovered, is appended to the lane its content chooses. */
  method SpoolUniqueChunks(route: ByteString -> Lane, chunks: seq<ByteString>)
    returns (lanes: seq<ByteString>, rawSizes: seq<nat>, assignments: seq<Lane>)
    ensures assignments == Routed(route, chunks) && lanes == Partition(chunks, assignments)
    ensures |rawSizes| == LANE_COUNT && forall lane: Lane :: rawSizes[lane] == |lanes[lane]|
  {
    lanes, rawSizes, assignments := [[], [], []], [0, 0, 0], [];
    for i := 0 to |chunks|
      invariant assignments == Routed(route, chunks[..i]) && |lanes| == |rawSizes| == LANE_COUNT
      invariant forall lane: Lane :: lanes[lane] == Gather(chunks[..i], assignments, lane)
      invariant forall lane: Lane :: rawSizes[lane] == |lanes[lane]|
    {
      var chunk := chunks[i];
      var to := route(chunk);
      forall lane: Lane
        ensures Gather(chunks[..i + 1], assignments + [to], lane)
                == Gather(chunks[..i], assignments, lane) + (if to == lane then chunk else [])
      {
        GatherSnoc(chunks[..i], assignments, chunk, to, lane);
        assert chunks[..i + 1] == chunks[..i] + [chunk];
      }
      lanes := lanes[to := lanes[to] + chunk];
      rawSizes := rawSizes[to := rawSizes[to] + |chunk|];
      assignments := assignments + [to];
    }
    assert chunks[..|chunks|] == chunks;
    assert lanes == Partition(chunks, assignments);
  }

  /** What is left of each lane after `positions`. */
  function Unread(lanes: seq<ByteString>, positions: seq<nat>): (r: seq<ByteString>)
    requires |lanes| == |positions| == LANE_COUNT && forall k: Lane :: positions[k] <= |lanes[k]|
    ensures |r| == LANE_COUNT && forall k: Lane :: r[k] == lanes[k][positions[k]..]
  {
    [lanes[0][positions[0]..], lanes[1][positions[1]..], lanes[2][positions[2]..]]
  }

  function After(done: seq<ByteString>, r: Result<seq<ByteString>>): Result<seq<ByteString>> {
    match r case Err => Err case Ok(later) => Ok(done + later)
  }

  lemma MergeOneMore(
      done: seq<ByteString>, lanes: seq<ByteString>, positions: seq<nat>, assignments: seq<Lane>, sizes: seq<nat>)
    requires |lanes| == |positions| == LANE_COUNT && (forall k: Lane :: positions[k] <= |lanes[k]|)
    requires |assignments| == |sizes| && sizes != []
    ensures var lane, size := assignments[0], sizes[0];
            var end := positions[lane] + size;
            After(done, Merge(Unread(lanes, positions), assignments, sizes))
            == if end > |lanes[lane]| then Err else
               After(done + [lanes[lane][positions[lane]..end]],
                     Merge(Unread(lanes, positions[lane := end]), assignments[1..], sizes[1..]))
  {
    hide Unread;
    var lane, size := assignments[0], sizes[0];
    var unread, end := Unread(lanes, positions), positions[lane] + size;
    if end <= |lanes[lane]| {
      assert unread[lane][..size] == lanes[lane][positions[lane]..end];
      assert unread[lane := unread[lane][size..]] == Unread(lanes, positions[lane := end]);
      var later := Merge(Unread(lanes, positions[lane := end]), assignments[1..], sizes[1..]);
      if later.Ok? {
        assert done + ([unread[lane][..size]] + later.value) == done + [unread[lane][..size]] + later.value;
      }
    }
  }

  /** The merge with one read position per lane. */
  method MergeLanes(lanes: seq<ByteString>, assignments: seq<Lane>, sizes: seq<nat>)
    returns (r: Result<seq<ByteString>>)
    requires |lanes| == LANE_COUNT && |assignments| == |sizes|
    ensures r == Merge(lanes, assignments, sizes)
  {
    hide Unread, Merge, After;
    var positions: seq<nat>, chunks: seq<ByteString> := [0, 0, 0], [];
    NothingRead(lanes, assignments, sizes);
    for i := 0 to |sizes|
      invariant |positions| == LANE_COUNT && forall k: Lane :: positions[k] <= |lanes[k]|
      invariant After(chunks, Merge(Unread(lanes, positions), assignments[i..], sizes[i..]))
             == Merge(lanes, assignments, sizes)
    {
      MergeOneMore(chunks, lanes, positions, assignments[i..], sizes[i..]);
      assert assignments[i..][1..] == assignments[i + 1..] && sizes[i..][1..] == sizes[i + 1..];
      var lane, size := assignments[i], sizes[i];
      var start := positions[lane];
      var end := start + size;
      if end > |lanes[lane]| { return Err; }
      chunks := chunks + [lanes[lane][start..end]];
      positions := positions[lane := end];
    }
    AllRead(chunks, lanes, positions);
    if exists lane: Lane :: positions[lane] != |lanes[lane]| { return Err; }
    r := Ok(chunks);
  }

  lemma NothingRead(lanes: seq<ByteString>, assignments: seq<Lane>, sizes: seq<nat>)
    requires |lanes| == LANE_COUNT && |assignments| == |sizes|
    ensures After([], Merge(Unread(lanes, [0, 0, 0]), assignments[0..], sizes[0..])) == Merge(lanes, assignments, sizes)
  {
    hide Merge;
    assert Unread(lanes, [0, 0, 0]) == lanes && assignments[0..] == assignments && sizes[0..] == sizes;
    var merged := Merge(lanes, assignments, sizes);
    if merged.Ok? {
      assert [] + merged.value == merged.value;
    }
  }

  lemma AllRead(chunks: seq<ByteString>, lanes: seq<ByteString>, positions: seq<nat>)
    requires |lanes| == |positions| == LANE_COUNT && forall k: Lane :: positions[k] <= |lanes[k]|
    ensures After(chunks, Merge(Unread(lanes, positions), [], []))
            == if forall k: Lane :: positions[k] == |lanes[k]| then Ok(chunks) else Err
  {
    assert chunks + [] == chunks;
    forall k: Lane
      ensures Unread(lanes, positions)[k] == [] <==> positions[k] == |lanes[k]|
    {
    }
  }
}
