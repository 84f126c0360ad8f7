/** The authenticated frames that carry an archive's payloads, with their padding, nonces and limits. */
module Frames {
  import opened Bytes
  import opened Padding
  import opened Sealing

  const HEADER_BYTES := 13
  const MAX_FRAME_COUNT := 16_777_216
  const MAX_MANIFEST_CIPHERTEXT := 268_435_456
  const LIMIT_SLACK := 32

  datatype FrameType = ManifestFrame | DataFrame

  /** The public header fields that the frames depend on; `prefixBytes` is the size of a data frame's prefix. */
  datatype Header = Header(
    maxChunkSize: nat, prefixBytes: nat, paddingSize: nat, noncePrefix: ByteString, frameCount: nat)
  {
    predicate Valid() {
      && maxChunkSize <= 16 * 1024 * 1024 && prefixBytes <= 13
      && MIN_BLOCK <= paddingSize <= MAX_BLOCK
      && |noncePrefix| == NONCE_PREFIX_BYTES
      && 1 <= frameCount <= MAX_FRAME_COUNT
    }
  }

  /** What a ciphertext is bound to: the public header and the frame's own header. */
  type Associated = (Header, ByteString)

  type Cipher = Aead<Associated>

  function TypeCode(t: FrameType): nat {
    match t case ManifestFrame => 1 case DataFrame => 2
  }

  function FrameHeader(index: nat, t: FrameType, ciphertextLength: nat): (r: ByteString)
    ensures |r| == HEADER_BYTES
  {
    BigEndian(index, 8) + (BigEndian(TypeCode(t), 1) + BigEndian(ciphertextLength, 4))
  }

  function CiphertextSize(h: Header, payloadSize: nat): nat
    requires h.Valid()
  {
    PaddedSize(payloadSize, h.paddingSize) + TAG_BYTES
  }

  /** The frame a writer emits; `noise` supplies the random padding bytes. */
  function WriteFrame(
      aead: Cipher, h: Header, index: nat, t: FrameType, payload: ByteString, noise: nat -> ByteString): ByteString
    requires h.Valid() && forall n :: |noise(n)| == n
  {
    var padded := PadPayload(payload, h.paddingSize, noise).value;
    var frame := FrameHeader(index, t, |padded| + TAG_BYTES);
    frame + aead.encrypt(FrameNonce(h.noncePrefix, index), (h, frame), padded)
  }

  function Maximum(h: Header, t: FrameType): nat {
    match t
    case ManifestFrame => MAX_MANIFEST_CIPHERTEXT
    case DataFrame => h.maxChunkSize + h.paddingSize + h.prefixBytes + LIMIT_SLACK
  }

  /** The checks on a frame's header; the result is the ciphertext length. */
  function CheckHeader(h: Header, frame: ByteString, index: nat, t: FrameType): Result<nat>
    requires h.Valid() && |frame| == HEADER_BYTES
  {
    var actualIndex := FromBigEndian(frame[..8]);
    var actualType := FromBigEndian(frame[8..9]);
    var length := FromBigEndian(frame[9..]);
    if actualType !in {1, 2} || length < TAG_BYTES then Err
    else if actualIndex != index || actualType != TypeCode(t) then Err
    else if (length - TAG_BYTES) % h.paddingSize != 0 then Err
    else if length > Maximum(h, t) then Err
    else Ok(length)
  }

  function ReadFrame(aead: Cipher, h: Header, stream: ByteString, index: nat, t: FrameType): Parsed<ByteString>
    requires h.Valid()
  {
    var (frame, d) :- TakeBytes(stream, HEADER_BYTES);
    match CheckHeader(h, frame, index, t)
    case Err => Malformed
    case Ok(length) =>
      var (ciphertext, rest) :- TakeBytes(d, length);
      match aead.decrypt(FrameNonce(h.noncePrefix, index), (h, frame), ciphertext)
      case Err => Malformed
      case Ok(padded) =>
        match UnpadPayload(padded)
        case Err => Malformed
        case Ok(payload) => Parsed(payload, rest)
  }

  lemma HeaderFields(index: nat, t: FrameType, length: nat)
    requires index < Pow256(8) && length < Pow256(4)
    ensures var frame := FrameHeader(index, t, length);
            && FromBigEndian(frame[..8]) == index
            && FromBigEndian(frame[8..9]) == TypeCode(t)
            && FromBigEndian(frame[9..]) == length
  {
    var frame := FrameHeader(index, t, length);
    assert frame[..8] == BigEndian(index, 8);
    assert frame[8..9] == BigEndian(TypeCode(t), 1);
    assert frame[9..] == BigEndian(length, 4);
    assert TypeCode(t) < Pow256(1);
    hide BigEndian, FromBigEndian, Pow256;
    FromBigEndianInverse(index, 8);
    FromBigEndianInverse(TypeCode(t), 1);
    FromBigEndianInverse(length, 4);
  }

  lemma WrittenHeader(h: Header, index: nat, t: FrameType, payloadSize: nat)
    requires h.Valid() && index < Pow256(8) && CiphertextSize(h, payloadSize) < Pow256(4)
    ensures var length := CiphertextSize(h, payloadSize);
            CheckHeader(h, FrameHeader(index, t, length), index, t) == if length <= Maximum(h, t) then Ok(length) else Err
  {
    hide FromBigEndian, Maximum, FrameHeader, Pow256, PaddedSize;
    PaddedSizeIsQuotient(payloadSize, h.paddingSize);
    HeaderFields(index, t, CiphertextSize(h, payloadSize));
  }

  /**
   * Reading a written frame whose numbers fit their fields returns its payload exactly when the ciphertext
   * is within the reader's limit; every other check passes, and exactly the frame's bytes are consumed.
   */
  lemma FrameRoundTrip(
      aead: Cipher, h: Header, index: nat, t: FrameType, payload: ByteString, noise: nat -> ByteString, rest: ByteString)
    requires aead.Valid() && h.Valid() && forall n :: |noise(n)| == n
    ensures index < Pow256(8) && CiphertextSize(h, |payload|) < Pow256(4) ==>
              ReadFrame(aead, h, WriteFrame(aead, h, index, t, payload, noise) + rest, index, t)
              == if CiphertextSize(h, |payload|) <= Maximum(h, t) then Parsed(payload, rest) else Malformed
  {
    hide Pow256, ReadFrame, WriteFrame, Maximum, PaddedSize;
    if index < Pow256(8) && CiphertextSize(h, |payload|) < Pow256(4) {
      FittingFrameRoundTrip(aead, h, index, t, payload, noise, rest);
    }
  }

  lemma FittingFrameRoundTrip(
      aead: Cipher, h: Header, index: nat, t: FrameType, payload: ByteString, noise: nat -> ByteString, rest: ByteString)
    requires aead.Valid() && h.Valid() && forall n :: |noise(n)| == n
    requires index < Pow256(8) && CiphertextSize(h, |payload|) < Pow256(4)
    ensures ReadFrame(aead, h, WriteFrame(aead, h, index, t, payload, noise) + rest, index, t)
            == if CiphertextSize(h, |payload|) <= Maximum(h, t) then Parsed(payload, rest) else Malformed
  {
    hide Pow256, PadPayload, UnpadPayload, Maximum, FrameHeader, FrameNonce, PaddedSize, CheckHeader, ReadFrame;
    var padded := PadPayload(payload, h.paddingSize, noise).value;
    var frame := FrameHeader(index, t, |padded| + TAG_BYTES);
    var ciphertext := aead.encrypt(FrameNonce(h.noncePrefix, index), (h, frame), padded);
    assert WriteFrame(aead, h, index, t, payload, noise) + rest == frame + (ciphertext + rest);
    WrittenHeader(h, index, t, |payload|);
    WordsWiden();
    UnpadPad(payload, h.paddingSize, noise);
    ReadParts(aead, h, index, t, frame, ciphertext, rest);
  }

  lemma WordsWiden()
    ensures Pow256(4) < Pow256(8)
  {
    assert Pow256(4) == 0x1_0000_0000;
  }

  lemma ReadParts(
      aead: Cipher, h: Header, index: nat, t: FrameType, frame: ByteString, ciphertext: ByteString, rest: ByteString)
    requires h.Valid() && |frame| == HEADER_BYTES
    requires CheckHeader(h, frame, index, t).Ok? ==> CheckHeader(h, frame, index, t).value == |ciphertext|
    ensures ReadFrame(aead, h, frame + (ciphertext + rest), index, t)
            == if CheckHeader(h, frame, index, t) == Err then Malformed else
               match aead.decrypt(FrameNonce(h.noncePrefix, index), (h, frame), ciphertext)
               case Err => Malformed
               case Ok(padded) =>
                 match UnpadPayload(padded)
                 case Err => Malformed
                 case Ok(payload) => Parsed(payload, rest)
  {
    hide UnpadPayload, CheckHeader, FrameNonce, TakeBytes;
    TakeBytesExact(frame + (ciphertext + rest), HEADER_BYTES, frame, ciphertext + rest);
    TakeBytesExact(ciphertext + rest, |ciphertext|, ciphertext, rest);
  }

  /** A data frame of at most one chunk and its prefix is always within the reader's limit. */
  lemma DataFramesAreReadable(h: Header, payloadSize: nat)
    requires h.Valid() && payloadSize <= h.prefixBytes + h.maxChunkSize
    ensures CiphertextSize(h, payloadSize) <= Maximum(h, DataFrame)
    ensures CiphertextSize(h, payloadSize) < Pow256(4)
  {
    assert Pow256(4) == 0x1_0000_0000;
  }

  /** The writer's own bound on the manifest payload. */
  predicate ManifestGuard(paddingSize: nat, payloadSize: nat) {
    payloadSize + paddingSize + TAG_BYTES <= MAX_MANIFEST_CIPHERTEXT
  }

  predicate ManifestReadable(paddingSize: nat, payloadSize: nat)
    requires 0 < paddingSize
  {
    PaddedSize(payloadSize, paddingSize) + TAG_BYTES <= MAX_MANIFEST_CIPHERTEXT
  }

  /**
   * The guard omits the length prefix. It still keeps every manifest within the reader's limit exactly
   * for the padding sizes that have no multiple in the last bytes below that limit.
   */
  lemma GuardSuffices(paddingSize: nat)
    requires MIN_BLOCK <= paddingSize <= MAX_BLOCK
    ensures (forall n: nat | ManifestGuard(paddingSize, n) :: ManifestReadable(paddingSize, n))
            <==> (MAX_MANIFEST_CIPHERTEXT - 9) % paddingSize > 6
  {
    var top := MAX_MANIFEST_CIPHERTEXT - 9;
    if top % paddingSize > 6 {
      forall n: nat | ManifestGuard(paddingSize, n)
        ensures ManifestReadable(paddingSize, n)
      {
        GuardedManifest(paddingSize, n);
      }
    } else {
      var n := top - top % paddingSize - paddingSize - 7;
      BreakingManifest(paddingSize, n);
    }
  }

  lemma GuardedManifest(paddingSize: nat, n: nat)
    requires MIN_BLOCK <= paddingSize <= MAX_BLOCK
    requires (MAX_MANIFEST_CIPHERTEXT - 9) % paddingSize > 6 && ManifestGuard(paddingSize, n)
    ensures ManifestReadable(paddingSize, n)
  {
    var top, padded := MAX_MANIFEST_CIPHERTEXT - 9, PaddedSize(n, paddingSize);
    PaddedSizeIsQuotient(n, paddingSize);
    assert padded <= top;
    if padded > top - 7 {
      RemainderOfNear(padded, top, paddingSize);
    }
  }

  lemma RemainderOfNear(multiple: nat, n: nat, b: nat)
    requires 0 < b && multiple % b == 0 && multiple <= n < multiple + b
    ensures n % b == n - multiple
  {
    QuotientIsUnique(n, b, multiple / b, n - multiple);
  }

  lemma BreakingManifest(paddingSize: nat, n: nat)
    requires MIN_BLOCK <= paddingSize <= MAX_BLOCK
    requires var top := MAX_MANIFEST_CIPHERTEXT - 9;
             top % paddingSize <= 6 && n == top - top % paddingSize - paddingSize - 7
    ensures ManifestGuard(paddingSize, n) && !ManifestReadable(paddingSize, n)
  {
    var top := MAX_MANIFEST_CIPHERTEXT - 9;
    var multiple := top - top % paddingSize;
    QuotientIsUnique(multiple, paddingSize, top / paddingSize, 0);
    PaddedSizeIsQuotient(n, paddingSize);
    MultiplesAreSpaced(multiple, PaddedSize(n, paddingSize), paddingSize);
  }

  lemma MultiplesAreSpaced(x: nat, y: nat, b: nat)
    requires 0 < b && x % b == 0 && y % b == 0 && x - b < y < x + b
    ensures x == y
  {
    if x < y {
      RemainderOfNear(x, y, b);
    } else if y < x {
      RemainderOfNear(y, x, b);
    }
  }

  /** A manifest of this size passes the writer's guard, and its own reader refuses it. */
  lemma GuardFailsAt349()
    ensures ManifestGuard(349, 268435088) && !ManifestReadable(349, 268435088)
  {
    BreakingManifest(349, 268435088);
  }

  /**
   * A written frame is read nowhere else: if the cipher tells the two places apart, only a reader with the same
   * public header, at the same index and for the same type, accepts it.
   */
  lemma FrameIsBound(
      aead: Cipher, h: Header, h': Header, index: nat, index': nat, t: FrameType, t': FrameType,
      payload: ByteString, noise: nat -> ByteString, rest: ByteString)
    requires aead.Valid() && h.Valid() && h'.Valid() && forall n :: |noise(n)| == n
    requires index < Pow256(8) && CiphertextSize(h, |payload|) < Pow256(4)
    requires forall frame :: aead.Separates(FrameNonce(h.noncePrefix, index), (h, frame),
                                            FrameNonce(h'.noncePrefix, index'), (h', frame))
    ensures ReadFrame(aead, h', WriteFrame(aead, h, index, t, payload, noise) + rest, index', t').Parsed?
            ==> h' == h && index' == index && t' == t
  {
    hide Pow256, FrameNonce, UnpadPayload, FrameHeader, FromBigEndian, Maximum, PaddedSize;
    var padded := PadPayload(payload, h.paddingSize, noise).value;
    hide PadPayload;
    var frame := FrameHeader(index, t, |padded| + TAG_BYTES);
    var nonce, nonce' := FrameNonce(h.noncePrefix, index), FrameNonce(h'.noncePrefix, index');
    var ciphertext := aead.encrypt(nonce, (h, frame), padded);
    assert WriteFrame(aead, h, index, t, payload, noise) + rest == frame + (ciphertext + rest);
    HeaderFields(index, t, |padded| + TAG_BYTES);
    ReadParts(aead, h', index', t', frame, ciphertext, rest);
    assert aead.Separates(nonce, (h, frame), nonce', (h', frame));
  }
}
