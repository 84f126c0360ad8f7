/** Authenticated encryption as the archives use it: a codec pair and the nonce of each frame. */
module Sealing {
  import opened Bytes

  const TAG_BYTES := 16
  const NONCE_PREFIX_BYTES := 4

  /** Authenticated encryption under one key; its arguments are a nonce, the associated data and the text. */
  datatype Aead<!A(!new)> = Aead(
    encrypt: (ByteString, A, ByteString) -> ByteString,
    decrypt: (ByteString, A, ByteString) -> Result<ByteString>)
  {
    ghost predicate Valid() {
      forall nonce, aad, text {:trigger encrypt(nonce, aad, text)} ::
        && |encrypt(nonce, aad, text)| == |text| + TAG_BYTES
        && decrypt(nonce, aad, encrypt(nonce, aad, text)) == Ok(text)
    }

    /** What is sealed under one nonce and associated data does not open under another. */
    ghost predicate Separates(nonce: ByteString, aad: A, nonce': ByteString, aad': A) {
      nonce != nonce' || aad != aad' ==>
        forall text {:trigger encrypt(nonce, aad, text)} :: decrypt(nonce', aad', encrypt(nonce, aad, text)).Err?
    }
  }

  function FrameNonce(prefix: ByteString, index: nat): ByteString {
    prefix + BigEndian(index, 8)
  }

  /** Distinct frame indices never share a nonce. */
  lemma NoncesAreDistinct(prefix: ByteString, i: nat, j: nat)
    requires i < Pow256(8) && j < Pow256(8) && FrameNonce(prefix, i) == FrameNonce(prefix, j)
    ensures i == j
  {
    hide BigEndian, Pow256;
    assert FrameNonce(prefix, i)[|prefix|..] == BigEndian(i, 8);
    assert FrameNonce(prefix, j)[|prefix|..] == BigEndian(j, 8);
    FromBigEndianInverse(i, 8);
    FromBigEndianInverse(j, 8);
  }
}
