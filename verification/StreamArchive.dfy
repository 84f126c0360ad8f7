/** The data frames of a version 2 archive: one block of one file each. */
module StreamArchive {
  import opened Bytes
  import opened Frames
  import Modes
  import Padding

  const PREFIX_BYTES := 9

  function DataPayload(lib: Modes.Library, entryIndex: nat, block: ByteString): ByteString {
    var e := Modes.ChooseBestMode(lib, block);
    BigEndian(entryIndex, 4) + (BigEndian(|block|, 4) + (BigEndian(Modes.Number(e.mode) as int, 1) + e.payload))
  }

  function OpenPayload(lib: Modes.Library, payload: ByteString, entryIndex: nat, expectedSize: nat): Result<ByteString> {
    if |payload| < PREFIX_BYTES then Err else
    var size := FromBigEndian(payload[4..8]);
    if FromBigEndian(payload[..4]) != entryIndex || size != expectedSize then Err else
    match Modes.GetMode(FromBigEndian(payload[8..9]))
    case Err => Err
    case Ok(mode) => Modes.Decode(lib, mode, payload[PREFIX_BYTES..], size)
  }

  lemma WrittenPayloadOpens(lib: Modes.Library, entryIndex: nat, block: ByteString)
    requires lib.Inverse() && entryIndex < Pow256(4) && |block| < Pow256(4)
    ensures OpenPayload(lib, DataPayload(lib, entryIndex, block), entryIndex, |block|) == Ok(block)
    ensures |DataPayload(lib, entryIndex, block)| <= PREFIX_BYTES + |block|
  {
    hide Pow256, BigEndian, FromBigEndian, Modes.ChooseBestMode, Modes.ChooseRoutedMode, Modes.Decode, Modes.Number;
    var e := Modes.ChooseBestMode(lib, block);
    Modes.ChoicesAreGood(lib, Modes.Fast, Modes.Features(0.0, 0.0), block);
    var payload := DataPayload(lib, entryIndex, block);
    assert payload[..4] == BigEndian(entryIndex, 4);
    assert payload[4..8] == BigEndian(|block|, 4);
    assert payload[8..9] == BigEndian(Modes.Number(e.mode) as int, 1);
    assert payload[PREFIX_BYTES..] == e.payload;
    FromBigEndianInverse(entryIndex, 4);
    FromBigEndianInverse(|block|, 4);
    OneByte(Modes.Number(e.mode));
    assert Modes.GetMode(Modes.Number(e.mode) as int) == Ok(e.mode);
  }

  /** Whatever its bytes, a block of at most the chunk size is always written in a frame its reader takes. */
  lemma DataFrameRoundTrip(
      lib: Modes.Library, aead: Cipher, h: Header, index: nat, entryIndex: nat, block: ByteString,
      noise: nat -> ByteString, rest: ByteString)
    requires lib.Inverse() && aead.Valid() && h.Valid() && h.prefixBytes == PREFIX_BYTES
    requires (forall n :: |noise(n)| == n) && |block| <= h.maxChunkSize
    requires index < Pow256(8) && entryIndex < Pow256(4)
    ensures var payload := DataPayload(lib, entryIndex, block);
            && ReadFrame(aead, h, WriteFrame(aead, h, index, DataFrame, payload, noise) + rest, index, DataFrame)
               == Parsed(payload, rest)
            && OpenPayload(lib, payload, entryIndex, |block|) == Ok(block)
  {
    hide Pow256, DataPayload, OpenPayload, ReadFrame, WriteFrame, Maximum;
    var payload := DataPayload(lib, entryIndex, block);
    ChunksFit(h);
    WrittenPayloadOpens(lib, entryIndex, block);
    DataFramesAreReadable(h, |payload|);
    FrameRoundTrip(aead, h, index, DataFrame, payload, noise, rest);
  }

  lemma ChunksFit(h: Header)
    requires h.Valid()
    ensures h.maxChunkSize < Pow256(4)
  {
    assert Pow256(4) == 0x1_0000_0000;
  }
}
