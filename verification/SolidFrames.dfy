/** A compressed lane split into bounded authenticated frames: two writers, the size planner, and the reader. */
module SolidFrames {
  import opened Bytes
  import opened Padding
  import opened Sealing

  const LANES := 3
  const HEADER_BYTES := 10
  const MAX_INDEX := 0xFFFF_FFFF
  const FLAG_FINAL := 1
  const MIN_FRAME := 1024
  const MAX_FRAME := 16 * 1024 * 1024

  /** A frame is bound to its archive's associated data and to its own header. */
  type Associated = (ByteString, ByteString)
  type Cipher = Aead<Associated>

  datatype Options = Options(
    lane: nat, noncePrefix: ByteString, associated: ByteString, frameSize: nat, paddingSize: nat)
  {
    predicate Valid() {
      && lane < LANES && |noncePrefix| == NONCE_PREFIX_BYTES
      && MIN_FRAME <= frameSize <= MAX_FRAME
      && MIN_BLOCK <= paddingSize <= frameSize
    }
  }

  /** The random padding of each frame, by frame index. */
  type Noise = nat -> nat -> ByteString

  ghost predicate Sized(noise: Noise) {
    forall index, n :: |noise(index)(n)| == n
  }

  // ----- Frames

  function FrameHeader(index: nat, lane: nat, final: bool, ciphertextLength: nat): (r: ByteString)
    ensures |r| == HEADER_BYTES
  {
    BigEndian(index, 4)
    + (BigEndian(lane, 1) + (BigEndian(if final then FLAG_FINAL else 0, 1) + BigEndian(ciphertextLength, 4)))
  }

  function Frame(aead: Cipher, o: Options, noise: Noise, index: nat, payload: ByteString, final: bool): ByteString
    requires o.Valid() && Sized(noise)
  {
    var padded := PadPayload(payload, o.paddingSize, noise(index)).value;
    var header := FrameHeader(index, o.lane, final, |padded| + TAG_BYTES);
    header + aead.encrypt(FrameNonce(o.noncePrefix, index), (o.associated, header), padded)
  }

  /** The payloads of a lane's frames: full frames and a last one; an empty lane has one empty frame. */
  function Split(payload: ByteString, frameSize: nat): (r: seq<ByteString>)
    requires frameSize > 0
    ensures r != []
    decreases |payload|
  {
    if |payload| <= frameSize then [payload]
    else [payload[..frameSize]] + Split(payload[frameSize..], frameSize)
  }

  /** Consecutive frames from `index`, the last one flagged. */
  function Framed(aead: Cipher, o: Options, noise: Noise, index: nat, pieces: seq<ByteString>): ByteString
    requires o.Valid() && Sized(noise)
    decreases |pieces|
  {
    if pieces == [] then [] else
    Frame(aead, o, noise, index, pieces[0], |pieces| == 1) + Framed(aead, o, noise, index + 1, pieces[1..])
  }

  /** What both writers emit for one compressed lane. */
  function WrittenLane(aead: Cipher, o: Options, noise: Noise, start: int, payload: ByteString): Result<ByteString>
    requires Sized(noise)
  {
    if !o.Valid() || start < 0 || start + |Split(payload, o.frameSize)| - 1 > MAX_INDEX then Err
    else Ok(Framed(aead, o, noise, start, Split(payload, o.frameSize)))
  }

  // ----- The writers as they run

  /** `done` followed by the frames of what is still pending. */
  ghost function Outcome(
      aead: Cipher, o: Options, noise: Noise, done: ByteString, index: nat, pending: ByteString): Result<ByteString>
    requires o.Valid() && Sized(noise)
  {
    match WrittenLane(aead, o, noise, index, pending)
    case Err => Err
    case Ok(frames) => Ok(done + frames)
  }

  lemma EmitFull(aead: Cipher, o: Options, noise: Noise, done: ByteString, index: nat, pending: ByteString)
    requires o.Valid() && Sized(noise) && |pending| > o.frameSize
    ensures Outcome(aead, o, noise, done, index, pending)
            == if index > MAX_INDEX then Err else
               Outcome(aead, o, noise, done + Frame(aead, o, noise, index, pending[..o.frameSize], false),
                       index + 1, pending[o.frameSize..])
  {
    hide Frame;
    var first, later := pending[..o.frameSize], Split(pending[o.frameSize..], o.frameSize);
    assert Split(pending, o.frameSize) == [first] + later;
    assert ([first] + later)[1..] == later;
    var frame, rest := Frame(aead, o, noise, index, first, false), Framed(aead, o, noise, index + 1, later);
    assert done + (frame + rest) == (done + frame) + rest;
  }

  lemma EmitFinal(aead: Cipher, o: Options, noise: Noise, done: ByteString, index: nat, pending: ByteString)
    requires o.Valid() && Sized(noise) && |pending| <= o.frameSize
    ensures Outcome(aead, o, noise, done, index, pending)
            == if index > MAX_INDEX then Err else Ok(done + Frame(aead, o, noise, index, pending, true))
  {
    hide Frame;
    var frame := Frame(aead, o, noise, index, pending, true);
    assert Framed(aead, o, noise, index, [pending]) == frame + [] == frame;
  }

  /**
   * The incremental writer. `arrivals` are the compressor's outputs for the blocks read, `tail` its last
   * output: the frames do not depend on how the compressed stream arrives.
   */
  method WriteSolidLaneFrames(
      aead: Cipher, o: Options, noise: Noise, start: int, arrivals: seq<ByteString>, tail: ByteString)
    returns (r: Result<ByteString>, nextIndex: int)
    requires Sized(noise)
    ensures r == WrittenLane(aead, o, noise, start, Flatten(arrivals) + tail)
    ensures r.Ok? ==> nextIndex == start + |Split(Flatten(arrivals) + tail, o.frameSize)|
  {
    hide Frame, Framed, Outcome;
    nextIndex := start;
    if !o.Valid() || start < 0 || start > MAX_INDEX { return Err, nextIndex; }
    ghost var whole := Flatten(arrivals) + tail;
    var output, index, pending: ByteString := [], start, [];
    StartOfLane(aead, o, noise, start, whole);
    assert arrivals[0..] == arrivals && [] + (Flatten(arrivals) + tail) == whole;
    for k := 0 to |arrivals|
      invariant start <= index
      invariant Outcome(aead, o, noise, output, index, pending + (Flatten(arrivals[k..]) + tail))
             == WrittenLane(aead, o, noise, start, whole)
      invariant index + |Split(pending + (Flatten(arrivals[k..]) + tail), o.frameSize)|
             == start + |Split(whole, o.frameSize)|
    {
      hide WrittenLane;
      ghost var later := Flatten(arrivals[k + 1..]) + tail;
      assert pending + (Flatten(arrivals[k..]) + tail) == (pending + arrivals[k]) + later;
      pending := pending + arrivals[k];
      var ok;
      ok, output, index, pending := DrainFullFrames(aead, o, noise, output, index, pending, later);
      if !ok { return Err, index; }
    }
    assert Flatten(arrivals[|arrivals|..]) == [];
    assert pending + (Flatten(arrivals[|arrivals|..]) + tail) == pending + tail == (pending + tail) + [];
    pending := pending + tail;
    var ok;
    ok, output, index, pending := DrainFullFrames(aead, o, noise, output, index, pending, []);
    assert pending + [] == pending;
    if !ok { return Err, index; }
    EmitFinal(aead, o, noise, output, index, pending);
    if index > MAX_INDEX { return Err, index; }
    r := Ok(output + Frame(aead, o, noise, index, pending, true));
    nextIndex := index + 1;
  }

  lemma StartOfLane(aead: Cipher, o: Options, noise: Noise, start: nat, whole: ByteString)
    requires o.Valid() && Sized(noise)
    ensures Outcome(aead, o, noise, [], start, whole) == WrittenLane(aead, o, noise, start, whole)
  {
    var w := WrittenLane(aead, o, noise, start, whole);
    if w.Ok? {
      assert [] + w.value == w.value;
    }
  }

  /** The inner loop of the incremental writer; `later` is what has not arrived yet. */
  method DrainFullFrames(
      aead: Cipher, o: Options, noise: Noise, outputBefore: ByteString, indexBefore: nat, pendingBefore: ByteString,
      ghost later: ByteString)
    returns (ok: bool, output: ByteString, index: nat, pending: ByteString)
    requires o.Valid() && Sized(noise)
    ensures var before := Outcome(aead, o, noise, outputBefore, indexBefore, pendingBefore + later);
            if ok then
              && Outcome(aead, o, noise, output, index, pending + later) == before
              && |pending| <= o.frameSize && indexBefore <= index
              && index + |Split(pending + later, o.frameSize)|
                 == indexBefore + |Split(pendingBefore + later, o.frameSize)|
            else before == Err
  {
    hide Outcome, Frame;
    output, index, pending := outputBefore, indexBefore, pendingBefore;
    while |pending| > o.frameSize
      invariant indexBefore <= index
      invariant Outcome(aead, o, noise, output, index, pending + later)
             == Outcome(aead, o, noise, outputBefore, indexBefore, pendingBefore + later)
      invariant index + |Split(pending + later, o.frameSize)|
             == indexBefore + |Split(pendingBefore + later, o.frameSize)|
      decreases |pending|
    {
      EmitFull(aead, o, noise, output, index, pending + later);
      assert (pending + later)[..o.frameSize] == pending[..o.frameSize];
      assert (pending + later)[o.frameSize..] == pending[o.frameSize..] + later;
      if index > MAX_INDEX {
        return false, output, index, pending;
      }
      output := output + Frame(aead, o, noise, index, pending[..o.frameSize], false);
      index, pending := index + 1, pending[o.frameSize..];
    }
    ok := true;
  }

  /** The writer for an already compressed lane of a declared size; a short or long source is refused. */
  method WritePrecompressedSolidLaneFrames(
      aead: Cipher, o: Options, noise: Noise, start: int, source: ByteString, compressedSize: int)
    returns (r: Result<ByteString>, frameCount: int, maximumPayload: nat)
    requires Sized(noise)
    ensures r == if |source| == compressedSize then WrittenLane(aead, o, noise, start, source) else Err
    ensures r.Ok? ==> frameCount == |Split(source, o.frameSize)|
    ensures r.Ok? ==> maximumPayload == if |source| < o.frameSize then |source| else o.frameSize
  {
    hide Frame;
    frameCount, maximumPayload := 0, 0;
    if !o.Valid() || compressedSize < 0 || start < 0 || start > MAX_INDEX {
      return Err, frameCount, maximumPayload;
    }
    var output: ByteString, index, unread, remaining := [], start, source, compressedSize;
    StartOfLane(aead, o, noise, start, source);
    if remaining == 0 {
      EmitFinal(aead, o, noise, [], index, []);
      output, index := output + Frame(aead, o, noise, index, [], true), index + 1;
    }
    while remaining > 0
      invariant remaining >= 0 && start <= index
      invariant |source| == compressedSize ==> |unread| == remaining
      invariant |source| != compressedSize ==> |unread| - remaining == |source| - compressedSize
      invariant remaining == 0 && |source| == compressedSize ==>
        Ok(output) == WrittenLane(aead, o, noise, start, source) && index == start + |Split(source, o.frameSize)|
      invariant remaining > 0 && |source| == compressedSize ==>
        && Outcome(aead, o, noise, output, index, unread) == WrittenLane(aead, o, noise, start, source)
        && index + |Split(unread, o.frameSize)| == start + |Split(source, o.frameSize)|
      invariant remaining == compressedSize || compressedSize - remaining >= o.frameSize || remaining == 0
      invariant maximumPayload == var emitted := compressedSize - remaining;
                                  if emitted < o.frameSize then emitted else o.frameSize
    {
      var size := if o.frameSize < remaining then o.frameSize else remaining;
      if |unread| < size { return Err, frameCount, maximumPayload; }
      var payload := unread[..size];
      if remaining > size {
        if |source| == compressedSize {
          EmitFull(aead, o, noise, output, index, unread);
        }
      } else if |source| == compressedSize {
        assert payload == unread;
        EmitFinal(aead, o, noise, output, index, unread);
      }
      unread, remaining := unread[size..], remaining - size;
      if index > MAX_INDEX { return Err, frameCount, maximumPayload; }
      output := output + Frame(aead, o, noise, index, payload, remaining == 0);
      index := index + 1;
      maximumPayload := if maximumPayload < |payload| then |payload| else maximumPayload;
    }
    if unread != [] { return Err, frameCount, maximumPayload; }
    r, frameCount := Ok(output), index - start;
  }

  // ----- Exact sizes

  function FrameBytes(size: nat, paddingSize: nat): nat
    requires 0 < paddingSize
  {
    HEADER_BYTES + PaddedSize(size, paddingSize) + TAG_BYTES
  }

  /** The planner's arithmetic, with its errors. */
  function SolidLaneFramedSize(payloadSize: int, frameSize: nat, paddingSize: nat): Result<int> {
    if payloadSize < 0 then Err
    else if payloadSize == 0 then Ok(0)
    else if !(MIN_FRAME <= frameSize <= MAX_FRAME) || !(MIN_BLOCK <= paddingSize <= frameSize) then Err
    else
      var fullFrames, remainder := payloadSize / frameSize, payloadSize % frameSize;
      Ok(fullFrames * FrameBytes(frameSize, paddingSize)
         + (if remainder != 0 then FrameBytes(remainder, paddingSize) else 0))
  }

  lemma FrameSizeIsExact(aead: Cipher, o: Options, noise: Noise, index: nat, payload: ByteString, final: bool)
    requires aead.Valid() && o.Valid() && Sized(noise)
    ensures |Frame(aead, o, noise, index, payload, final)| == FrameBytes(|payload|, o.paddingSize)
  {
  }

  lemma OneFrameFewer(n: nat, b: nat)
    requires 0 < b < n
    ensures n / b == (n - b) / b + 1 && n % b == (n - b) % b
  {
    AddWholeBlock(n - b, b);
    QuotientIsUnique(n, b, (n - b) / b + 1, (n - b) % b);
  }

  lemma QuotientBelow(n: nat, b: nat)
    requires 0 < n <= b
    ensures if n == b then n / b == 1 && n % b == 0 else n / b == 0 && n % b == n
  {
    QuotientIsUnique(n, b, if n == b then 1 else 0, if n == b then 0 else n);
  }

  lemma FramedSizeStep(n: nat, o: Options)
    requires o.Valid() && n > 0
    ensures var size := SolidLaneFramedSize(n, o.frameSize, o.paddingSize);
            && size.Ok?
            && size.value == if n <= o.frameSize then FrameBytes(n, o.paddingSize)
                             else FrameBytes(o.frameSize, o.paddingSize)
                                  + SolidLaneFramedSize(n - o.frameSize, o.frameSize, o.paddingSize).value
  {
    hide FrameBytes;
    if n <= o.frameSize {
      QuotientBelow(n, o.frameSize);
    } else {
      OneFrameFewer(n, o.frameSize);
      var q := (n - o.frameSize) / o.frameSize;
      var each := FrameBytes(o.frameSize, o.paddingSize);
      assert (q + 1) * each == q * each + each;
    }
  }

  /** The frames of a nonempty lane take exactly the planned bytes, in exactly the planned number of frames. */
  lemma {:induction false} FramedExactly(aead: Cipher, o: Options, noise: Noise, start: nat, payload: ByteString)
    requires aead.Valid() && o.Valid() && Sized(noise) && payload != []
    ensures SolidLaneFramedSize(|payload|, o.frameSize, o.paddingSize)
            == Ok(|Framed(aead, o, noise, start, Split(payload, o.frameSize))|)
    ensures |Split(payload, o.frameSize)| == (|payload| + o.frameSize - 1) / o.frameSize
    decreases |payload|
  {
    hide Frame, FrameBytes, SolidLaneFramedSize;
    var f := o.frameSize;
    FramedSizeStep(|payload|, o);
    if |payload| <= f {
      FrameSizeIsExact(aead, o, noise, start, payload, true);
      assert Framed(aead, o, noise, start, [payload]) == Frame(aead, o, noise, start, payload, true) + [];
      QuotientIsUnique(|payload| + f - 1, f, 1, |payload| - 1);
    } else {
      var later := Split(payload[f..], f);
      assert ([payload[..f]] + later)[1..] == later;
      FrameSizeIsExact(aead, o, noise, start, payload[..f], false);
      FramedExactly(aead, o, noise, start + 1, payload[f..]);
      OneFrameFewer(|payload| + f - 1, f);
    }
  }

  /** The planner speaks of nonempty lanes only: it plans no bytes for an empty one, of which a writer makes one frame. */
  lemma EmptyLaneIsFramed(aead: Cipher, o: Options, noise: Noise, start: nat)
    requires aead.Valid() && o.Valid() && Sized(noise)
    ensures SolidLaneFramedSize(0, o.frameSize, o.paddingSize) == Ok(0)
    ensures |Framed(aead, o, noise, start, Split([], o.frameSize))| >= HEADER_BYTES + TAG_BYTES
  {
    FrameSizeIsExact(aead, o, noise, start, [], true);
    assert Framed(aead, o, noise, start, [[]]) == Frame(aead, o, noise, start, [], true) + [];
  }

  lemma PaddingIsMonotone(a: nat, b: nat, block: nat)
    requires a <= b && 0 < block
    ensures PaddedSize(a, block) <= PaddedSize(b, block)
  {
    RoundUpIsMonotone(LENGTH_BYTES + a, LENGTH_BYTES + b, block);
  }

  /** A longer lane never takes fewer bytes, so comparing planned sizes never picks the longer payload for free. */
  lemma {:induction false} FramedSizeIsMonotone(o: Options, a: nat, b: nat)
    requires o.Valid() && a <= b
    ensures SolidLaneFramedSize(a, o.frameSize, o.paddingSize).Ok?
    ensures SolidLaneFramedSize(b, o.frameSize, o.paddingSize).Ok?
    ensures SolidLaneFramedSize(a, o.frameSize, o.paddingSize).value
            <= SolidLaneFramedSize(b, o.frameSize, o.paddingSize).value
    decreases b
  {
    hide SolidLaneFramedSize, FrameBytes;
    NoBytes(o);
    if b > 0 {
      FramedSizeStep(b, o);
      if b > o.frameSize {
        FramedSizeIsMonotone(o, if a > o.frameSize then a - o.frameSize else 0, b - o.frameSize);
      }
    }
    if a > 0 {
      FramedSizeStep(a, o);
      FrameBytesAreMonotone(a, if b <= o.frameSize then b else o.frameSize, o.paddingSize);
    }
  }

  lemma NoBytes(o: Options)
    ensures SolidLaneFramedSize(0, o.frameSize, o.paddingSize) == Ok(0)
  {
  }

  lemma FrameBytesAreMonotone(a: nat, b: nat, paddingSize: nat)
    requires 0 < paddingSize
    ensures a <= b ==> FrameBytes(a, paddingSize) <= FrameBytes(b, paddingSize)
  {
    if a <= b {
      PaddingIsMonotone(a, b, paddingSize);
    }
  }

  // ----- The reader

  /** The checks on a frame's header; the result is the ciphertext length. */
  function CheckHeader(o: Options, header: ByteString, index: int, final: bool): Result<nat>
    requires o.Valid() && |header| == HEADER_BYTES
  {
    var length := FromBigEndian(header[6..]);
    if FromBigEndian(header[..4]) != index || FromBigEndian(header[4..5]) != o.lane
       || FromBigEndian(header[5..6]) != (if final then FLAG_FINAL else 0)
       || length < TAG_BYTES || length > PaddedSize(o.frameSize, o.paddingSize) + TAG_BYTES
       || (length - TAG_BYTES) % o.paddingSize != 0
    then Err else Ok(length)
  }

  predicate PayloadOk(o: Options, payload: ByteString, final: bool) {
    |payload| <= o.frameSize && (final || |payload| == o.frameSize)
  }

  function TakeFrame(aead: Cipher, o: Options, source: ByteString, index: int, final: bool): Parsed<ByteString>
    requires o.Valid()
  {
    var (header, d) :- TakeBytes(source, HEADER_BYTES);
    match CheckHeader(o, header, index, final)
    case Err => Malformed
    case Ok(length) =>
      var (ciphertext, rest) :- TakeBytes(d, length);
      OpenFrame(aead, o, header, index, final, ciphertext, rest)
  }

  function OpenFrame(
      aead: Cipher, o: Options, header: ByteString, index: int, final: bool, ciphertext: ByteString, rest: ByteString)
    : Parsed<ByteString>
  {
    match aead.decrypt(if index >= 0 then FrameNonce(o.noncePrefix, index) else [], (o.associated, header), ciphertext)
    case Err => Malformed
    case Ok(padded) =>
      match UnpadPayload(padded)
      case Err => Malformed
      case Ok(payload) => if PayloadOk(o, payload, final) then Parsed(payload, rest) else Malformed
  }

  /** The payloads of `n` consecutive frames, the last one final. */
  function TakeFrames(aead: Cipher, o: Options, source: ByteString, index: int, n: nat): (r: Parsed<seq<ByteString>>)
    requires o.Valid()
    ensures r.Parsed? ==> |r.value| == n
    decreases n
  {
    if n == 0 then Parsed([], source) else
    var (payload, d) :- TakeFrame(aead, o, source, index, n == 1);
    var (later, rest) :- TakeFrames(aead, o, d, index + 1, n - 1);
    Parsed([payload] + later, rest)
  }

  /** A lane stored as it is: what the frames hold must be exactly the expected bytes. */
  function ReadLane(
      aead: Cipher, o: Options, source: ByteString, start: int, frameCount: int, expectedSize: int): Parsed<ByteString>
  {
    if !o.Valid() || frameCount <= 0 || expectedSize < 0 then Malformed else
    var (pieces, rest) :- TakeFrames(aead, o, source, start, frameCount);
    if |Flatten(pieces)| == expectedSize then Parsed(Flatten(pieces), rest) else Malformed
  }

  /** Reading one more frame moves its payload from the source to the payloads already read. */
  lemma TakeOneMore(aead: Cipher, o: Options, pieces: seq<ByteString>, d: ByteString, index: int, n: nat)
    requires o.Valid() && n > 0
    ensures Prepend(pieces, TakeFrames(aead, o, d, index, n))
            == match TakeFrame(aead, o, d, index, n == 1)
               case Malformed => Malformed
               case Parsed(payload, rest) =>
                 Prepend(pieces + [payload], TakeFrames(aead, o, rest, index + 1, n - 1))
  {
    hide TakeFrame;
    match TakeFrame(aead, o, d, index, n == 1)
    case Malformed =>
    case Parsed(payload, rest) =>
      var later := TakeFrames(aead, o, rest, index + 1, n - 1);
      if later.Parsed? {
        assert pieces + [payload] + later.value == pieces + ([payload] + later.value);
      }
  }

  lemma TooMuch(pieces: seq<ByteString>, p: Parsed<seq<ByteString>>)
    ensures Prepend(pieces, p).Parsed? ==> |Flatten(Prepend(pieces, p).value)| >= |Flatten(pieces)|
  {
    if p.Parsed? {
      FlattenAppend(pieces, p.value);
    }
  }

  lemma NothingTaken(aead: Cipher, o: Options, pieces: seq<ByteString>, d: ByteString, index: int)
    requires o.Valid()
    ensures Prepend(pieces, TakeFrames(aead, o, d, index, 0)) == Parsed(pieces, d)
  {
    assert pieces + [] == pieces;
  }

  lemma NothingPrepended(p: Parsed<seq<ByteString>>)
    ensures Prepend([], p) == p
  {
    if p.Parsed? {
      assert [] + p.value == p.value;
    }
  }

  /** The passthrough path of the reader. */
  method ReadSolidLaneFrames(
      aead: Cipher, o: Options, source: ByteString, start: int, frameCount: int, expectedSize: int)
    returns (r: Parsed<ByteString>)
    ensures r == ReadLane(aead, o, source, start, frameCount, expectedSize)
  {
    hide TakeFrame, TakeFrames, Flatten, Prepend;
    if !o.Valid() || frameCount <= 0 || expectedSize < 0 { return Malformed; }
    var d, destination: ByteString := source, [];
    ghost var pieces: seq<ByteString> := [];
    ghost var whole := TakeFrames(aead, o, source, start, frameCount);
    NothingFlattens();
    NothingPrepended(whole);
    for offset := 0 to frameCount
      invariant |pieces| == offset && destination == Flatten(pieces) && |destination| <= expectedSize
      invariant whole == Prepend(pieces, TakeFrames(aead, o, d, start + offset, frameCount - offset))
    {
      TakeOneMore(aead, o, pieces, d, start + offset, frameCount - offset);
      var payload := TakeFrame(aead, o, d, start + offset, offset == frameCount - 1);
      if payload.Malformed? { return Malformed; }
      FlattenSnoc(pieces, payload.value);
      if |payload.value| > expectedSize - |destination| {
        TooMuch(pieces + [payload.value], TakeFrames(aead, o, payload.rest, start + offset + 1, frameCount - offset - 1));
        return Malformed;
      }
      destination, pieces, d := destination + payload.value, pieces + [payload.value], payload.rest;
    }
    NothingTaken(aead, o, pieces, d, start + frameCount);
    if |destination| != expectedSize { return Malformed; }
    r := Parsed(destination, d);
  }

  lemma NothingFlattens()
    ensures Flatten<Byte>([]) == []
  {
  }

  function Prepend(pieces: seq<ByteString>, p: Parsed<seq<ByteString>>): Parsed<seq<ByteString>> {
    match p
    case Malformed => Malformed
    case Parsed(later, rest) => Parsed(pieces + later, rest)
  }

  // ----- Reading back what was written

  lemma HeaderFields(index: nat, lane: nat, final: bool, length: nat)
    requires index <= MAX_INDEX && lane < LANES && length <= MAX_INDEX
    ensures var header := FrameHeader(index, lane, final, length);
            && FromBigEndian(header[..4]) == index && FromBigEndian(header[4..5]) == lane
            && FromBigEndian(header[5..6]) == (if final then FLAG_FINAL else 0)
            && FromBigEndian(header[6..]) == length
  {
    hide BigEndian, FromBigEndian, Pow256;
    var header, flags := FrameHeader(index, lane, final, length), if final then FLAG_FINAL else 0;
    assert header[..4] == BigEndian(index, 4);
    assert header[4..5] == BigEndian(lane, 1);
    assert header[5..6] == BigEndian(flags, 1);
    assert header[6..] == BigEndian(length, 4);
    Widths();
    FromBigEndianInverse(index, 4);
    FromBigEndianInverse(lane, 1);
    FromBigEndianInverse(flags, 1);
    FromBigEndianInverse(length, 4);
  }

  lemma Widths()
    ensures Pow256(1) == 256 && Pow256(4) == MAX_INDEX + 1
  {
  }

  lemma LengthsWiden()
    ensures MAX_FRAME < Pow256(LENGTH_BYTES)
  {
    assert Pow256(8) == 0x1_0000_0000_0000_0000;
  }

  lemma WrittenHeader(o: Options, index: nat, final: bool, payloadSize: nat)
    requires o.Valid() && index <= MAX_INDEX && payloadSize <= o.frameSize
    ensures var length := PaddedSize(payloadSize, o.paddingSize) + TAG_BYTES;
            CheckHeader(o, FrameHeader(index, o.lane, final, length), index, final) == Ok(length)
  {
    hide FrameHeader, FromBigEndian, PaddedSize;
    PaddingIsMonotone(payloadSize, o.frameSize, o.paddingSize);
    PaddedSizeIsQuotient(payloadSize, o.paddingSize);
    HeaderFields(index, o.lane, final, PaddedSize(payloadSize, o.paddingSize) + TAG_BYTES);
  }

  lemma FrameRoundTrip(
      aead: Cipher, o: Options, noise: Noise, index: nat, payload: ByteString, final: bool, rest: ByteString)
    requires aead.Valid() && o.Valid() && Sized(noise) && index <= MAX_INDEX && PayloadOk(o, payload, final)
    ensures TakeFrame(aead, o, Frame(aead, o, noise, index, payload, final) + rest, index, final)
            == Parsed(payload, rest)
  {
    hide PadPayload, UnpadPayload, FrameHeader, FrameNonce, PaddedSize, CheckHeader, Pow256, TakeBytes;
    var padded := PadPayload(payload, o.paddingSize, noise(index)).value;
    var header := FrameHeader(index, o.lane, final, |padded| + TAG_BYTES);
    var ciphertext := aead.encrypt(FrameNonce(o.noncePrefix, index), (o.associated, header), padded);
    assert Frame(aead, o, noise, index, payload, final) + rest == header + (ciphertext + rest);
    WrittenHeader(o, index, final, |payload|);
    LengthsWiden();
    UnpadPad(payload, o.paddingSize, noise(index));
    TakeBytesExact(header + (ciphertext + rest), HEADER_BYTES, header, ciphertext + rest);
    TakeBytesExact(ciphertext + rest, |ciphertext|, ciphertext, rest);
  }

  /** Pieces that can be framed and read: full ones, then a last one. */
  predicate WellCut(o: Options, pieces: seq<ByteString>) {
    forall k | 0 <= k < |pieces| :: PayloadOk(o, pieces[k], k == |pieces| - 1)
  }

  lemma {:induction false} FramesRoundTrip(
      aead: Cipher, o: Options, noise: Noise, index: nat, pieces: seq<ByteString>, rest: ByteString)
    requires aead.Valid() && o.Valid() && Sized(noise) && index + |pieces| <= MAX_INDEX + 1 && WellCut(o, pieces)
    ensures TakeFrames(aead, o, Framed(aead, o, noise, index, pieces) + rest, index, |pieces|) == Parsed(pieces, rest)
    decreases |pieces|
  {
    hide Frame, TakeFrame;
    if pieces == [] {
      assert [] + rest == rest;
    } else {
      var frame := Frame(aead, o, noise, index, pieces[0], |pieces| == 1);
      var later := Framed(aead, o, noise, index + 1, pieces[1..]);
      assert (frame + later) + rest == frame + (later + rest);
      assert [pieces[0]] + pieces[1..] == pieces;
      FrameRoundTrip(aead, o, noise, index, pieces[0], |pieces| == 1, later + rest);
      forall k | 0 <= k < |pieces[1..]|
        ensures PayloadOk(o, pieces[1..][k], k == |pieces[1..]| - 1)
      {
        assert PayloadOk(o, pieces[k + 1], k + 1 == |pieces| - 1);
      }
      FramesRoundTrip(aead, o, noise, index + 1, pieces[1..], rest);
    }
  }

  lemma {:induction false} SplitIsWellCut(o: Options, payload: ByteString)
    requires o.Valid()
    ensures WellCut(o, Split(payload, o.frameSize)) && Flatten(Split(payload, o.frameSize)) == payload
    decreases |payload|
  {
    var f := o.frameSize;
    if |payload| <= f {
      assert Flatten([payload]) == payload + Flatten([]);
    } else {
      SplitIsWellCut(o, payload[f..]);
      var later := Split(payload[f..], f);
      assert Flatten([payload[..f]] + later) == payload[..f] + Flatten(later);
    }
  }

  /** Reading back a written lane returns the payload and leaves exactly what follows it. */
  lemma LaneRoundTrip(
      aead: Cipher, o: Options, noise: Noise, start: int, payload: ByteString, rest: ByteString)
    requires aead.Valid() && Sized(noise) && WrittenLane(aead, o, noise, start, payload).Ok?
    ensures ReadLane(aead, o, WrittenLane(aead, o, noise, start, payload).value + rest,
                     start, |Split(payload, o.frameSize)|, |payload|)
            == Parsed(payload, rest)
  {
    hide Framed, TakeFrames, WellCut, Flatten;
    SplitIsWellCut(o, payload);
    FramesRoundTrip(aead, o, noise, start, Split(payload, o.frameSize), rest);
  }

  /** An instance of an empty last frame: the reader takes these two frames for one full payload; no writer emits them. */
  lemma EmptyLastFrameIsAdmitted(aead: Cipher, o: Options, noise: Noise, full: ByteString, other: Noise)
    requires aead.Valid() && o.Valid() && Sized(noise) && Sized(other) && |full| == o.frameSize
    ensures var frames := Framed(aead, o, noise, 0, [full, []]);
            && ReadLane(aead, o, frames, 0, 2, |full|) == Parsed(full, [])
            && WrittenLane(aead, o, other, 0, full) != Ok(frames)
  {
    hide Frame, TakeFrame;
    var pieces: seq<ByteString> := [full, []];
    var frames := Framed(aead, o, noise, 0, pieces);
    FramesRoundTrip(aead, o, noise, 0, pieces, []);
    assert frames + [] == frames;
    var first, last := Frame(aead, o, noise, 0, full, false), Frame(aead, o, noise, 1, [], true);
    var later: seq<ByteString> := [[]];
    assert pieces[1..] == later && later[1..] == [];
    assert Flatten(later) == [] + Flatten(later[1..]);
    assert Flatten(pieces) == full + Flatten(later) == full;
    assert Framed(aead, o, noise, 1, later) == last + Framed(aead, o, noise, 2, later[1..]);
    assert frames == first + Framed(aead, o, noise, 1, later);
    assert Framed(aead, o, other, 0, [full]) == Frame(aead, o, other, 0, full, true) + [];
    FrameSizeIsExact(aead, o, noise, 0, full, false);
    FrameSizeIsExact(aead, o, noise, 1, [], true);
    FrameSizeIsExact(aead, o, other, 0, full, true);
  }

  /** What the reader accepts is cut as the writers cut it, except that it admits an extra empty last frame. */
  lemma AcceptedIsWellCut(aead: Cipher, o: Options, source: ByteString, index: int, n: nat)
    requires o.Valid() && n > 0
    ensures match TakeFrames(aead, o, source, index, n)
            case Malformed => true
            case Parsed(pieces, _) =>
              && WellCut(o, pieces)
              && (pieces == Split(Flatten(pieces), o.frameSize) <==> n == 1 || pieces[n - 1] != [])
  {
    hide TakeFrames, Flatten, WellCut, Split;
    if TakeFrames(aead, o, source, index, n).Parsed? {
      TakenFramesAreWellCut(aead, o, source, index, n);
      CutExactly(o, TakeFrames(aead, o, source, index, n).value);
    }
  }

  lemma {:induction false} TakenFramesAreWellCut(aead: Cipher, o: Options, source: ByteString, index: int, n: nat)
    requires o.Valid()
    ensures var r := TakeFrames(aead, o, source, index, n); r.Parsed? ==> WellCut(o, r.value)
    decreases n
  {
    if n > 0 && TakeFrames(aead, o, source, index, n).Parsed? {
      var first := TakeFrame(aead, o, source, index, n == 1);
      TakenFrameIsBounded(aead, o, source, index, n == 1);
      hide TakeFrame, WellCut, PayloadOk;
      TakenFramesAreWellCut(aead, o, first.rest, index + 1, n - 1);
      WellCutCons(o, first.value, TakeFrames(aead, o, first.rest, index + 1, n - 1).value);
    }
  }

  lemma WellCutCons(o: Options, first: ByteString, later: seq<ByteString>)
    requires PayloadOk(o, first, later == []) && WellCut(o, later)
    ensures WellCut(o, [first] + later)
  {
    hide PayloadOk;
    var all := [first] + later;
    forall k | 0 <= k < |all|
      ensures PayloadOk(o, all[k], k == |all| - 1)
    {
      assert k > 0 ==> all[k] == later[k - 1] && PayloadOk(o, later[k - 1], k - 1 == |later| - 1);
    }
  }

  lemma TakenFrameIsBounded(aead: Cipher, o: Options, source: ByteString, index: int, final: bool)
    requires o.Valid()
    ensures var r := TakeFrame(aead, o, source, index, final); r.Parsed? ==> PayloadOk(o, r.value, final)
  {
  }

  lemma {:induction false} CutExactly(o: Options, pieces: seq<ByteString>)
    requires o.Valid() && pieces != [] && WellCut(o, pieces)
    ensures pieces == Split(Flatten(pieces), o.frameSize) <==> |pieces| == 1 || pieces[|pieces| - 1] != []
    decreases |pieces|
  {
    var f, whole, later := o.frameSize, Flatten(pieces), pieces[1..];
    assert PayloadOk(o, pieces[0], |pieces| == 1);
    LastPieceShows(pieces);
    if |pieces| > 1 {
      assert forall k | 0 <= k < |later| :: later[k] == pieces[k + 1] && PayloadOk(o, pieces[k + 1], k == |later| - 1);
      CutExactly(o, later);
      LastPieceShows(later);
      assert whole[..f] == pieces[0] && whole[f..] == Flatten(later);
      assert pieces == [pieces[0]] + later;
      hide Flatten;
      if |later| == 1 && later[0] == [] {
        assert Split(whole, f) == [whole];
      } else {
        ConsIsInjective(pieces[0], later, Split(Flatten(later), f));
      }
    }
  }

  lemma ConsIsInjective<T>(x: T, a: seq<T>, b: seq<T>)
    ensures [x] + a == [x] + b <==> a == b
  {
    assert ([x] + a)[1..] == a && ([x] + b)[1..] == b;
  }

  lemma LastPieceShows(pieces: seq<ByteString>)
    requires pieces != []
    ensures pieces[|pieces| - 1] != [] ==> Flatten(pieces) != []
    ensures |pieces| == 1 ==> Flatten(pieces) == pieces[0]
  {
    var n := |pieces| - 1;
    assert pieces == pieces[..n] + [pieces[n]];
    FlattenSnoc(pieces[..n], pieces[n]);
    if n == 0 {
      assert pieces[..0] == [];
    }
  }

  /**
   * A written frame is read nowhere else: if the cipher tells the two places apart, only a reader of the same
   * lane of the same archive, at the same index and equally expecting the last frame, accepts it.
   */
  lemma FrameIsBound(
      aead: Cipher, o: Options, o': Options, noise: Noise, index: nat, index': nat, payload: ByteString,
      final: bool, final': bool, rest: ByteString)
    requires aead.Valid() && o.Valid() && o'.Valid() && Sized(noise) && index <= MAX_INDEX && |payload| <= o.frameSize
    requires forall header :: aead.Separates(FrameNonce(o.noncePrefix, index), (o.associated, header),
                                             FrameNonce(o'.noncePrefix, index'), (o'.associated, header))
    ensures TakeFrame(aead, o', Frame(aead, o, noise, index, payload, final) + rest, index', final').Parsed?
            ==> && o'.lane == o.lane && o'.noncePrefix == o.noncePrefix && o'.associated == o.associated
                && index' == index && final' == final
  {
    hide UnpadPayload, FrameHeader, FrameNonce, PaddedSize, Pow256, TakeBytes, FromBigEndian;
    var padded := PadPayload(payload, o.paddingSize, noise(index)).value;
    hide PadPayload;
    var header := FrameHeader(index, o.lane, final, |padded| + TAG_BYTES);
    var nonce, nonce' := FrameNonce(o.noncePrefix, index), FrameNonce(o'.noncePrefix, index');
    var ciphertext := aead.encrypt(nonce, (o.associated, header), padded);
    assert Frame(aead, o, noise, index, payload, final) + rest == header + (ciphertext + rest);
    PaddingIsMonotone(|payload|, o.frameSize, o.paddingSize);
    HeaderFields(index, o.lane, final, |padded| + TAG_BYTES);
    TakeBytesExact(header + (ciphertext + rest), HEADER_BYTES, header, ciphertext + rest);
    TakeBytesExact(ciphertext + rest, |ciphertext|, ciphertext, rest);
    assert aead.Separates(nonce, (o.associated, header), nonce', (o'.associated, header));
    SameNonceSamePrefix(o.noncePrefix, o'.noncePrefix, index, index');
  }

  lemma SameNonceSamePrefix(a: ByteString, b: ByteString, i: nat, j: nat)
    requires |a| == |b|
    ensures FrameNonce(a, i) == FrameNonce(b, j) ==> a == b
  {
    assert FrameNonce(a, i)[..|a|] == a && FrameNonce(b, j)[..|b|] == b;
  }
}
