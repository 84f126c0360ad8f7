/** Which form of each lane a solid archive stores: the one whose frames take fewer bytes. */
module LaneStorage {
  import opened Bytes
  import opened DedupScan
  import opened PackedLanes
  import opened Sealing
  import F = SolidFrames
  import L = SolidLanes
  import M = CompactMetadata
  import S = SolidArchive

  /** The bytes that the frames of `n` payload bytes are planned to take. */
  function Planned(o: S.SolidSettings, n: nat): int
    requires o.InRange()
  {
    F.SolidLaneFramedSize(n, o.frameSize, o.paddingSize).value
  }

  /**
   * `frames` are the frames of a lane with contents `data`: of its compressed form if that is planned to take
   * fewer bytes, of the contents themselves otherwise, and `codec` says which.
   */
  ghost predicate CheaperForm(
      c: S.SolidCodec, o: S.SolidSettings, h: S.Header, associated: ByteString, lane: Lane, data: ByteString, codec: nat,
      frames: ByteString)
    requires o.InRange() && F.Sized(o.noise)
  {
    var packed := c.lib.compress(lane, data);
    var plannedRaw, plannedPacked := Planned(o, |data|), Planned(o, |packed|);
    if data == [] then frames == []
    else if plannedPacked < plannedRaw then
      && codec == (if lane == 2 then M.ZSTD else M.LZMA2) && |frames| == plannedPacked
      && exists index: nat :: F.WrittenLane(c.aead, S.LaneOptions(h, associated, lane), o.noise, index, packed) == Ok(frames)
    else
      && codec == M.RAW && |frames| == plannedRaw
      && exists index: nat :: F.WrittenLane(c.aead, S.LaneOptions(h, associated, lane), o.noise, index, data) == Ok(frames)
  }

  /** The frames of each lane from `lane` on. */
  function LaneParts(
      c: S.SolidCodec, noise: F.Noise, h: S.Header, associated: ByteString, stored: seq<S.Stored>, lane: nat, index: nat)
    : (r: seq<ByteString>)
    requires F.Sized(noise) && |stored| == LANE_COUNT && lane <= LANE_COUNT && h.frameSize > 0
    ensures |r| == LANE_COUNT - lane
    decreases LANE_COUNT - lane
  {
    if lane == LANE_COUNT then []
    else if stored[lane].rawSize == 0 then [[]] + LaneParts(c, noise, h, associated, stored, lane + 1, index)
    else
      match F.WrittenLane(c.aead, S.LaneOptions(h, associated, lane), noise, index, stored[lane].payload)
      case Err => seq(LANE_COUNT - lane, _ => [])
      case Ok(frames) =>
        [frames]
        + LaneParts(c, noise, h, associated, stored, lane + 1, index + |F.Split(stored[lane].payload, h.frameSize)|)
  }

  /** A header under which lanes are framed as planned. */
  predicate Matching(o: S.SolidSettings, h: S.Header) {
    o.InRange() && h.frameSize == o.frameSize && h.paddingSize == o.paddingSize && h.noncePrefix == o.noncePrefix
  }

  lemma StoredIsCheaper(
      c: S.SolidCodec, o: S.SolidSettings, h: S.Header, associated: ByteString, lane: Lane, data: ByteString, index: nat)
    requires c.Valid() && o.Valid() && Matching(o, h) && data != []
    ensures var stored := S.StoreLane(c.lib, o, lane, data);
            match F.WrittenLane(c.aead, S.LaneOptions(h, associated, lane), o.noise, index, stored.payload)
            case Err => true
            case Ok(frames) =>
              stored.frameCount == |F.Split(stored.payload, h.frameSize)| ==>
                CheaperForm(c, o, h, associated, lane, data, stored.codec, frames)
  {
    hide F.Framed, F.Split, F.SolidLaneFramedSize;
    var stored, options := S.StoreLane(c.lib, o, lane, data), S.LaneOptions(h, associated, lane);
    if stored.payload == [] {
      EmptyHasOneFrame(o.frameSize);
    } else {
      F.FramedExactly(c.aead, options, o.noise, index, stored.payload);
    }
  }

  lemma EmptyHasOneFrame(frameSize: nat)
    requires frameSize > 0
    ensures |F.Split([], frameSize)| == 1 && (frameSize - 1) / frameSize == 0
  {
  }

  lemma {:induction false} PartsAreCheaper(
      c: S.SolidCodec, o: S.SolidSettings, h: S.Header, associated: ByteString, lanes: seq<ByteString>, lane: nat, index: nat)
    requires c.Valid() && o.Valid() && Matching(o, h) && |lanes| == LANE_COUNT && lane <= LANE_COUNT
    ensures var stored := S.StoreLanes(c.lib, o, lanes);
            match S.WriteLanes(c, o.noise, h, associated, stored, lane, index)
            case Err => true
            case Ok(bytes) =>
              var parts := LaneParts(c, o.noise, h, associated, stored, lane, index);
              && bytes == Flatten(parts)
              && forall k: Lane | lane <= k ::
                   CheaperForm(c, o, h, associated, k, lanes[k], stored[k].codec, parts[k - lane])
    decreases LANE_COUNT - lane
  {
    hide S.StoreLane, F.WrittenLane, F.Split, CheaperForm;
    var stored := S.StoreLanes(c.lib, o, lanes);
    if lane < LANE_COUNT && S.WriteLanes(c, o.noise, h, associated, stored, lane, index).Ok? {
      var count := |F.Split(stored[lane].payload, h.frameSize)|;
      var next := if stored[lane].rawSize == 0 then index else index + count;
      var parts, later := LaneParts(c, o.noise, h, associated, stored, lane, index),
                          LaneParts(c, o.noise, h, associated, stored, lane + 1, next);
      PartsAreCheaper(c, o, h, associated, lanes, lane + 1, next);
      assert parts[1..] == later && parts == [parts[0]] + later;
      assert Flatten(parts) == parts[0] + Flatten(later);
      hide Flatten;
      LaneStarts(c, o, h, associated, lane, lanes[lane]);
      if lanes[lane] != [] {
        StoredIsCheaper(c, o, h, associated, lane, lanes[lane], index);
      }
    }
  }

  lemma LaneStarts(c: S.SolidCodec, o: S.SolidSettings, h: S.Header, associated: ByteString, lane: Lane, data: ByteString)
    requires o.InRange() && F.Sized(o.noise)
    ensures S.StoreLane(c.lib, o, lane, data).rawSize == |data|
    ensures data == [] ==> forall codec :: CheaperForm(c, o, h, associated, lane, data, codec, [])
  {
  }

  /** The archive is its sealed metadata and the frames of its lanes, each lane in its cheaper form. */
  ghost predicate StoredCheaply(
      c: S.SolidCodec, o: S.SolidSettings, a: S.SolidFile, meta: M.Metadata, lanes: seq<ByteString>, frames: seq<ByteString>)
    requires o.InRange() && F.Sized(o.noise) && |lanes| == LANE_COUNT
  {
    var sealed := S.MetadataCiphertext(c, o, a.header, S.Envelope(c.lib, M.Print(meta)));
    && |frames| == |meta.codecs| == LANE_COUNT && a.body == sealed + Flatten(frames)
    && forall k: Lane ::
         CheaperForm(c, o, a.header, c.pack(a.header) + c.scanner.hash(sealed), k, lanes[k], meta.codecs[k], frames[k])
  }

  /** What the writer spools into the three lanes. */
  function SourceLanes(c: S.SolidCodec, source: Source): (r: seq<ByteString>)
    requires c.scanner.config.Valid()
    ensures |r| == LANE_COUNT
  {
    var unique := UniqueChunks(c.scanner, Occurrences(c.scanner, source.items));
    L.Partition(unique, L.Routed(c.route, unique))
  }

  /**
   * Whatever archive the writer produces, each nonempty lane's frames take exactly the smaller of the sizes
   * planned for its contents and for their compressed form, and the metadata it seals records which it was.
   */
  lemma CheaperFormIsStored(c: S.SolidCodec, o: S.SolidSettings, source: Source) returns (frames: seq<ByteString>)
    requires c.Valid() && o.Valid()
    ensures match S.Encoded(c, o, source)
            case Err => true
            case Ok(a) => o.InRange() && StoredCheaply(c, o, a, S.SourceMetadata(c, o, source), SourceLanes(c, source), frames)
  {
    hide CheaperForm, LaneParts, S.StoreLane, S.WriteLanes, L.Partition, UniqueChunks, Occurrences, M.Print, S.Envelope,
         S.MetadataCiphertext, S.Sealable;
    frames := [];
    if S.Encoded(c, o, source).Ok? {
      var a, meta, lanes := S.Encoded(c, o, source).value, S.SourceMetadata(c, o, source), SourceLanes(c, source);
      var sealed := S.MetadataCiphertext(c, o, a.header, S.Envelope(c.lib, M.Print(meta)));
      var associated := c.pack(a.header) + c.scanner.hash(sealed);
      PartsAreCheaper(c, o, a.header, associated, lanes, 0, 1);
      frames := LaneParts(c, o.noise, a.header, associated, S.StoreLanes(c.lib, o, lanes), 0, 1);
    }
  }
}
