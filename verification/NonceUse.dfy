/** Which frames an archive seals, and that no two of them are sealed under the same nonce. */
module NonceUse {
  import opened Bytes
  import opened PackedLanes
  import opened Padding
  import opened Sealing
  import DedupManifest
  import D = DedupArchive
  import F = SolidFrames
  import Frames
  import M = CompactMetadata
  import S = SolidArchive

  predicate NoRepeats(nonces: seq<ByteString>) {
    forall i, j | 0 <= i < j < |nonces| :: nonces[i] != nonces[j]
  }

  lemma NumberedNoncesDiffer(prefix: ByteString, nonces: seq<ByteString>)
    requires |nonces| <= 0x1_0000_0000 && forall i | 0 <= i < |nonces| :: nonces[i] == FrameNonce(prefix, i)
    ensures NoRepeats(nonces)
  {
    assert Pow256(8) == 0x1_0000_0000_0000_0000;
    hide Pow256, FrameNonce;
    forall i, j | 0 <= i < j < |nonces|
      ensures nonces[i] != nonces[j]
    {
      if FrameNonce(prefix, i) == FrameNonce(prefix, j) {
        NoncesAreDistinct(prefix, i, j);
      }
    }
  }

  // ----- The deduplicating archive: the manifest, then one frame for each payload

  datatype DedupFrame = DedupFrame(nonce: ByteString, index: nat, frameType: Frames.FrameType, payload: ByteString)

  function DedupFrames(prefix: ByteString, manifest: ByteString, payloads: seq<ByteString>): (r: seq<DedupFrame>)
    ensures |r| == |payloads| + 1 && r[0] == DedupFrame(FrameNonce(prefix, 0), 0, Frames.ManifestFrame, manifest)
    ensures forall k | 0 < k < |r| :: r[k] == DedupFrame(FrameNonce(prefix, k), k, Frames.DataFrame, payloads[k - 1])
  {
    seq(|payloads| + 1, k requires 0 <= k <= |payloads| =>
      if k == 0 then DedupFrame(FrameNonce(prefix, 0), 0, Frames.ManifestFrame, manifest)
      else DedupFrame(FrameNonce(prefix, k), k, Frames.DataFrame, payloads[k - 1]))
  }

  /** One frame, sealed under the nonce it carries. */
  function SealDedupFrame(c: D.Codec, o: D.Settings, h: Frames.Header, f: DedupFrame): ByteString
    requires h.Valid() && forall index, n :: |o.noise(index)(n)| == n
  {
    var padded := PadPayload(f.payload, h.paddingSize, o.noise(f.index)).value;
    var frame := Frames.FrameHeader(f.index, f.frameType, |padded| + TAG_BYTES);
    frame + c.aead.encrypt(f.nonce, (h, frame), padded)
  }

  function WriteDedupFrames(c: D.Codec, o: D.Settings, h: Frames.Header, frames: seq<DedupFrame>): ByteString
    requires h.Valid() && forall index, n :: |o.noise(index)(n)| == n
  {
    if frames == [] then [] else
    WriteDedupFrames(c, o, h, frames[..|frames| - 1]) + SealDedupFrame(c, o, h, frames[|frames| - 1])
  }

  function DedupNonces(frames: seq<DedupFrame>): (r: seq<ByteString>)
    ensures |r| == |frames| && forall i | 0 <= i < |r| :: r[i] == frames[i].nonce
  {
    seq(|frames|, i requires 0 <= i < |frames| => frames[i].nonce)
  }

  lemma WrittenIsSealed(
      c: D.Codec, o: D.Settings, h: Frames.Header, index: nat, frameType: Frames.FrameType, payload: ByteString)
    requires h.Valid() && o.Valid()
    ensures Frames.WriteFrame(c.aead, h, index, frameType, payload, o.noise(index))
            == SealDedupFrame(c, o, h, DedupFrame(FrameNonce(h.noncePrefix, index), index, frameType, payload))
  {
  }

  lemma {:induction false} DedupBodyIsFrames(
      c: D.Codec, o: D.Settings, h: Frames.Header, manifest: ByteString, payloads: seq<ByteString>)
    requires h.Valid() && o.Valid()
    ensures WriteDedupFrames(c, o, h, DedupFrames(h.noncePrefix, manifest, payloads))
            == Frames.WriteFrame(c.aead, h, 0, Frames.ManifestFrame, manifest, o.noise(0)) + D.DataFrames(c, o, h, payloads)
    decreases |payloads|
  {
    hide Frames.WriteFrame, SealDedupFrame, FrameNonce;
    var frames := DedupFrames(h.noncePrefix, manifest, payloads);
    var front := Frames.WriteFrame(c.aead, h, 0, Frames.ManifestFrame, manifest, o.noise(0));
    var n := |payloads|;
    if n == 0 {
      WrittenIsSealed(c, o, h, 0, Frames.ManifestFrame, manifest);
      assert frames[..0] == [] && [] + front == front == front + [];
    } else {
      DedupBodyIsFrames(c, o, h, manifest, payloads[..n - 1]);
      WrittenIsSealed(c, o, h, n, Frames.DataFrame, payloads[n - 1]);
      assert frames[..n] == DedupFrames(h.noncePrefix, manifest, payloads[..n - 1]);
      var before, last := D.DataFrames(c, o, h, payloads[..n - 1]), D.DataFrameBytes(c, o, h, n, payloads[n - 1]);
      assert (front + before) + last == front + (before + last);
    }
  }

  /** The archive is its frames in order, as many as its header announces, each sealed under a nonce of its own. */
  lemma DedupNoncesNeverRepeat(c: D.Codec, o: D.Settings, m: DedupManifest.Manifest, occ: seq<ByteString>)
    requires c.Valid() && o.Valid() && D.HeaderOf(c, o, m).Valid() && |occ| == |m.chunks|
    ensures var archive := D.ArchiveOf(c, o, m, occ);
            var frames := DedupFrames(o.noncePrefix, DedupManifest.Print(m), D.Payloads(c, o, m.chunks, occ));
            && archive.body == WriteDedupFrames(c, o, archive.header, frames)
            && |frames| == archive.header.frameCount && NoRepeats(DedupNonces(frames))
  {
    hide DedupManifest.Print, D.Payloads, D.DataFrames, Frames.WriteFrame, WriteDedupFrames, NoRepeats, FrameNonce,
         DedupManifest.CountUnique;
    var payloads := D.Payloads(c, o, m.chunks, occ);
    D.PayloadCount(c, o, m.chunks, occ);
    assert m.chunks[..|occ|] == m.chunks;
    DedupBodyIsFrames(c, o, D.HeaderOf(c, o, m), DedupManifest.Print(m), payloads);
    NumberedNoncesDiffer(o.noncePrefix, DedupNonces(DedupFrames(o.noncePrefix, DedupManifest.Print(m), payloads)));
  }

  // ----- The solid archive: the metadata under index 0, then the frames of the three lanes

  datatype LaneFrame = LaneFrame(nonce: ByteString, lane: nat, index: nat, payload: ByteString, final: bool)

  predicate Numbered(prefix: ByteString, f: LaneFrame, index: nat) {
    f.index == index && f.nonce == FrameNonce(prefix, f.index)
  }

  function LaneFrames(prefix: ByteString, pieces: seq<ByteString>, lane: nat, index: nat): (r: seq<LaneFrame>)
    ensures |r| == |pieces| && forall i | 0 <= i < |r| :: Numbered(prefix, r[i], index + i) && r[i].lane == lane
  {
    if pieces == [] then [] else
    [LaneFrame(FrameNonce(prefix, index), lane, index, pieces[0], |pieces| == 1)]
    + LaneFrames(prefix, pieces[1..], lane, index + 1)
  }

  function SolidLaneFrames(prefix: ByteString, stored: seq<S.Stored>, frameSize: nat, lane: nat, index: nat): (r: seq<LaneFrame>)
    requires frameSize > 0 && |stored| == LANE_COUNT && lane <= LANE_COUNT
    ensures forall i | 0 <= i < |r| :: Numbered(prefix, r[i], index + i) && r[i].lane < LANE_COUNT
    decreases LANE_COUNT - lane
  {
    if lane == LANE_COUNT then []
    else if stored[lane].rawSize == 0 then SolidLaneFrames(prefix, stored, frameSize, lane + 1, index)
    else
      var pieces := F.Split(stored[lane].payload, frameSize);
      LaneFrames(prefix, pieces, lane, index) + SolidLaneFrames(prefix, stored, frameSize, lane + 1, index + |pieces|)
  }

  /** Frames can be written for every lane under this header. */
  ghost predicate Framable(h: S.Header, noise: F.Noise) {
    && F.Sized(noise) && |h.noncePrefix| == NONCE_PREFIX_BYTES
    && F.MIN_FRAME <= h.frameSize <= F.MAX_FRAME && MIN_BLOCK <= h.paddingSize <= h.frameSize
  }

  /** One frame, sealed under the nonce it carries. */
  function SealLaneFrame(c: S.SolidCodec, noise: F.Noise, h: S.Header, associated: ByteString, f: LaneFrame): ByteString
    requires Framable(h, noise) && f.lane < LANE_COUNT
  {
    var padded := PadPayload(f.payload, h.paddingSize, noise(f.index)).value;
    var header := F.FrameHeader(f.index, f.lane, f.final, |padded| + TAG_BYTES);
    header + c.aead.encrypt(f.nonce, (associated, header), padded)
  }

  function WriteSolidFrames(
      c: S.SolidCodec, noise: F.Noise, h: S.Header, associated: ByteString, frames: seq<LaneFrame>): ByteString
    requires Framable(h, noise) && forall f | f in frames :: f.lane < LANE_COUNT
  {
    if frames == [] then [] else
    SealLaneFrame(c, noise, h, associated, frames[0]) + WriteSolidFrames(c, noise, h, associated, frames[1..])
  }

  lemma {:induction false} WriteSolidAppend(
      c: S.SolidCodec, noise: F.Noise, h: S.Header, associated: ByteString, a: seq<LaneFrame>, b: seq<LaneFrame>)
    requires Framable(h, noise) && forall f | f in a + b :: f.lane < LANE_COUNT
    ensures (forall f | f in a :: f.lane < LANE_COUNT) && (forall f | f in b :: f.lane < LANE_COUNT)
    ensures WriteSolidFrames(c, noise, h, associated, a + b)
            == WriteSolidFrames(c, noise, h, associated, a) + WriteSolidFrames(c, noise, h, associated, b)
    decreases |a|
  {
    hide SealLaneFrame;
    assert forall f | f in a :: f in a + b;
    assert forall f | f in b :: f in a + b;
    if a == [] {
      assert a + b == b;
    } else {
      assert (a + b)[1..] == a[1..] + b;
      WriteSolidAppend(c, noise, h, associated, a[1..], b);
    }
  }

  lemma LaneFrameIsSealed(
      c: S.SolidCodec, noise: F.Noise, h: S.Header, associated: ByteString, lane: nat, index: nat, payload: ByteString,
      final: bool)
    requires Framable(h, noise) && lane < LANE_COUNT
    ensures F.Frame(c.aead, S.LaneOptions(h, associated, lane), noise, index, payload, final)
            == SealLaneFrame(c, noise, h, associated,
                             LaneFrame(FrameNonce(h.noncePrefix, index), lane, index, payload, final))
  {
  }

  lemma {:induction false} LaneIsFrames(
      c: S.SolidCodec, noise: F.Noise, h: S.Header, associated: ByteString, pieces: seq<ByteString>, lane: nat, index: nat)
    requires Framable(h, noise) && lane < LANE_COUNT
    ensures forall f | f in LaneFrames(h.noncePrefix, pieces, lane, index) :: f.lane < LANE_COUNT
    ensures F.Framed(c.aead, S.LaneOptions(h, associated, lane), noise, index, pieces)
            == WriteSolidFrames(c, noise, h, associated, LaneFrames(h.noncePrefix, pieces, lane, index))
    decreases |pieces|
  {
    hide F.Frame, SealLaneFrame;
    if pieces != [] {
      LaneIsFrames(c, noise, h, associated, pieces[1..], lane, index + 1);
      LaneFrameIsSealed(c, noise, h, associated, lane, index, pieces[0], |pieces| == 1);
      assert LaneFrames(h.noncePrefix, pieces, lane, index)[1..] == LaneFrames(h.noncePrefix, pieces[1..], lane, index + 1);
    }
  }

  lemma {:induction false} LanesAreFrames(
      c: S.SolidCodec, noise: F.Noise, h: S.Header, associated: ByteString, stored: seq<S.Stored>, lane: nat, index: nat)
    requires Framable(h, noise) && |stored| == LANE_COUNT && lane <= LANE_COUNT
    requires index <= F.MAX_INDEX + 1
    ensures var frames := SolidLaneFrames(h.noncePrefix, stored, h.frameSize, lane, index);
            && (forall f | f in frames :: f.lane < LANE_COUNT)
            && match S.WriteLanes(c, noise, h, associated, stored, lane, index)
               case Err => true
               case Ok(bytes) =>
                 bytes == WriteSolidFrames(c, noise, h, associated, frames) && index + |frames| <= F.MAX_INDEX + 1
    decreases LANE_COUNT - lane
  {
    hide F.Frame, F.Framed, F.Split, WriteSolidFrames, LaneFrames, FrameNonce, Numbered, S.LaneOptions, S.WriteLanes, F.WrittenLane;
    if lane == LANE_COUNT {
      NothingWritten(c, noise, h, associated, stored, index);
    } else if stored[lane].rawSize == 0 {
      SkippedLane(c, noise, h, associated, stored, lane, index);
      LanesAreFrames(c, noise, h, associated, stored, lane + 1, index);
    } else if S.WriteLanes(c, noise, h, associated, stored, lane, index).Ok? {
      var pieces := F.Split(stored[lane].payload, h.frameSize);
      OptionsAreValid(h, noise, associated, lane);
      OneLaneWritten(c, noise, h, associated, stored, lane, index, pieces, S.LaneOptions(h, associated, lane));
      LaneIsFrames(c, noise, h, associated, pieces, lane, index);
      LanesAreFrames(c, noise, h, associated, stored, lane + 1, index + |pieces|);
      WriteSolidAppend(c, noise, h, associated, LaneFrames(h.noncePrefix, pieces, lane, index),
                       SolidLaneFrames(h.noncePrefix, stored, h.frameSize, lane + 1, index + |pieces|));
    }
  }

  lemma NothingWritten(
      c: S.SolidCodec, noise: F.Noise, h: S.Header, associated: ByteString, stored: seq<S.Stored>, index: nat)
    requires Framable(h, noise) && |stored| == LANE_COUNT
    ensures WriteSolidFrames(c, noise, h, associated, []) == []
    ensures S.WriteLanes(c, noise, h, associated, stored, LANE_COUNT, index) == Ok([])
  {
  }

  lemma SkippedLane(
      c: S.SolidCodec, noise: F.Noise, h: S.Header, associated: ByteString, stored: seq<S.Stored>, lane: nat, index: nat)
    requires Framable(h, noise) && |stored| == LANE_COUNT && lane < LANE_COUNT && stored[lane].rawSize == 0
    ensures S.WriteLanes(c, noise, h, associated, stored, lane, index)
            == S.WriteLanes(c, noise, h, associated, stored, lane + 1, index)
  {
  }

  lemma OptionsAreValid(h: S.Header, noise: F.Noise, associated: ByteString, lane: nat)
    requires Framable(h, noise) && lane < LANE_COUNT
    ensures S.LaneOptions(h, associated, lane).Valid()
  {
  }

  lemma OneLaneWritten(
      c: S.SolidCodec, noise: F.Noise, h: S.Header, associated: ByteString, stored: seq<S.Stored>, lane: nat, index: nat,
      pieces: seq<ByteString>, o: F.Options)
    requires Framable(h, noise) && |stored| == LANE_COUNT && lane < LANE_COUNT && stored[lane].rawSize != 0
    requires pieces == F.Split(stored[lane].payload, h.frameSize) && o == S.LaneOptions(h, associated, lane) && o.Valid()
    ensures S.WriteLanes(c, noise, h, associated, stored, lane, index).Ok? ==>
              && index + |pieces| <= F.MAX_INDEX + 1
              && S.WriteLanes(c, noise, h, associated, stored, lane + 1, index + |pieces|).Ok?
              && S.WriteLanes(c, noise, h, associated, stored, lane, index).value
                 == F.Framed(c.aead, o, noise, index, pieces)
                    + S.WriteLanes(c, noise, h, associated, stored, lane + 1, index + |pieces|).value
  {
    hide F.Framed, F.Split;
  }

  /** The nonce of the metadata, then those of the lane frames. */
  function SolidNonces(metadataNonce: ByteString, frames: seq<LaneFrame>): (r: seq<ByteString>)
    ensures |r| == |frames| + 1 && r[0] == metadataNonce && forall i | 0 < i < |r| :: r[i] == frames[i - 1].nonce
  {
    [metadataNonce] + seq(|frames|, i requires 0 <= i < |frames| => frames[i].nonce)
  }

  /** The metadata's ciphertext under a given nonce. */
  function SealMetadata(
      c: S.SolidCodec, o: S.SolidSettings, h: S.Header, nonce: ByteString, envelope: ByteString): ByteString
    requires o.InRange() && F.Sized(o.noise)
  {
    c.aead.encrypt(nonce, (c.pack(h), []), PadPayload(envelope, o.paddingSize, o.noise(0)).value)
  }

  /**
   * A solid archive is its metadata, sealed under index 0, and the frames of the three lanes, numbered on from
   * 1 through all of them: no nonce is used twice.
   */
  lemma SolidNoncesNeverRepeat(c: S.SolidCodec, o: S.SolidSettings, meta: M.Metadata, stored: seq<S.Stored>)
    requires c.Valid() && o.Valid() && o.InRange() && |stored| == LANE_COUNT
    ensures match S.Seal(c, o, meta, stored)
            case Err => true
            case Ok(a) =>
              && Framable(a.header, o.noise)
              && var nonce := FrameNonce(o.noncePrefix, 0);
                 var sealed := SealMetadata(c, o, a.header, nonce, S.Envelope(c.lib, M.Print(meta)));
                 var associated := c.pack(a.header) + c.scanner.hash(sealed);
                 var frames := SolidLaneFrames(o.noncePrefix, stored, o.frameSize, 0, 1);
                 && (forall f | f in frames :: f.lane < LANE_COUNT)
                 && a.body == sealed + WriteSolidFrames(c, o.noise, a.header, associated, frames)
                 && NoRepeats(SolidNonces(nonce, frames))
  {
    hide S.Envelope, S.WriteLanes, S.Sealable, M.Print, WriteSolidFrames, SolidLaneFrames, NoRepeats, PaddedSize,
         FrameNonce, PadPayload;
    if S.Seal(c, o, meta, stored).Ok? {
      var h := S.Seal(c, o, meta, stored).value.header;
      var nonce := FrameNonce(o.noncePrefix, 0);
      var sealed := SealMetadata(c, o, h, nonce, S.Envelope(c.lib, M.Print(meta)));
      LanesAreFrames(c, o.noise, h, c.pack(h) + c.scanner.hash(sealed), stored, 0, 1);
      NumberedNoncesDiffer(o.noncePrefix, SolidNonces(nonce, SolidLaneFrames(o.noncePrefix, stored, o.frameSize, 0, 1)));
    }
  }
}
