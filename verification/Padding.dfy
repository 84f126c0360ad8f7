/** Length-bucket padding inside the authenticated plaintext. */
module Padding {
  import opened Bytes

  const LENGTH_BYTES := 8
  const MIN_BLOCK := 256
  const MAX_BLOCK := 16 * 1024 * 1024

  /** The least whole number of blocks that holds `n` bytes. */
  function RoundUp(n: nat, block: nat): (r: nat)
    requires 0 < block
    ensures n <= r < n + block
  {
    if n == 0 then 0 else if n <= block then block else block + RoundUp(n - block, block)
  }

  function PaddedSize(payloadSize: nat, blockSize: nat): (r: nat)
    requires 0 < blockSize
    ensures LENGTH_BYTES + payloadSize <= r < LENGTH_BYTES + payloadSize + blockSize
  {
    RoundUp(LENGTH_BYTES + payloadSize, blockSize)
  }

  /** Rounding up is the usual quotient formula, and leaves no remainder. */
  lemma {:induction false} RoundUpIsQuotient(n: nat, block: nat)
    requires 0 < block
    ensures RoundUp(n, block) == (n + block - 1) / block * block && RoundUp(n, block) % block == 0
    decreases n
  {
    if n == 0 {
      QuotientIsUnique(block - 1, block, 0, block - 1);
    } else if n <= block {
      QuotientIsUnique(n + block - 1, block, 1, n - 1);
      AddWholeBlock(0, block);
    } else {
      RoundUpIsQuotient(n - block, block);
      OneMoreBlock(n - 1, block, (n - 1) / block, RoundUp(n - block, block));
    }
  }

  lemma OneMoreBlock(n: nat, b: nat, q: nat, rounded: nat)
    requires 0 < b && q == n / b && rounded == q * b && rounded % b == 0
    ensures b + rounded == (n + b) / b * b && (b + rounded) % b == 0
  {
    AddWholeBlock(n, b);
    OneMoreTimes(q, b);
    AddWholeBlock(rounded, b);
  }

  lemma OneMoreTimes(q: nat, b: nat)
    ensures (q + 1) * b == q * b + b
  {
  }

  /** The padded size as the writer computes it. */
  lemma PaddedSizeIsQuotient(payloadSize: nat, blockSize: nat)
    requires 0 < blockSize
    ensures PaddedSize(payloadSize, blockSize) == (LENGTH_BYTES + payloadSize + blockSize - 1) / blockSize * blockSize
    ensures PaddedSize(payloadSize, blockSize) % blockSize == 0
  {
    RoundUpIsQuotient(LENGTH_BYTES + payloadSize, blockSize);
  }

  lemma {:induction false} RoundUpIsMonotone(a: nat, b: nat, block: nat)
    requires a <= b && 0 < block
    ensures RoundUp(a, block) <= RoundUp(b, block)
    decreases b
  {
    if b > block && a > block {
      RoundUpIsMonotone(a - block, b - block, block);
    }
  }

  lemma {:induction false} MultipleHasNoRemainder(q: nat, b: nat)
    requires 0 < b
    ensures q * b % b == 0
  {
    if q > 0 {
      MultipleHasNoRemainder(q - 1, b);
      assert q * b == (q - 1) * b + b;
      AddWholeBlock((q - 1) * b, b);
    }
  }

  lemma AddWholeBlock(n: nat, b: nat)
    requires 0 < b
    ensures (n + b) / b == n / b + 1 && (n + b) % b == n % b
  {
    OneMoreTimes(n / b, b);
    QuotientIsUnique(n + b, b, n / b + 1, n % b);
  }

  lemma QuotientIsUnique(n: nat, b: nat, q: nat, r: nat)
    requires r < b && n == q * b + r
    ensures n / b == q && n % b == r
  {
    var q' := n / b;
    if q' < q {
      ProductsKeepOrder(q' + 1, q, b);
    } else if q < q' {
      ProductsKeepOrder(q + 1, q', b);
    }
  }

  lemma DivideTwice(n: nat, b: nat, c: nat)
    requires b > 0 && c > 0
    ensures b * c > 0 && n / b / c == n / (b * c)
  {
    var q, r := n / b, n % b;
    assert n == b * q + r;
    var x, y := q / c, q % c;
    assert q == c * x + y;
    QuotientOfParts(n, b, c, x, y, r);
  }

  lemma QuotientOfParts(n: nat, b: nat, c: nat, x: nat, y: nat, r: nat)
    requires y < c && r < b && n == b * (c * x + y) + r
    ensures b * c > 0 && n / (b * c) == x
  {
    var bc := b * c;
    RemainderFits(b, c, y, r);
    Regroup(b, c, x, y);
    QuotientIsUnique(n, bc, x, b * y + r);
  }

  lemma Regroup(b: nat, c: nat, x: nat, y: nat)
    ensures b * (c * x + y) == x * (b * c) + b * y
  {
    assert b * (c * x) == x * (b * c);
  }

  lemma RemainderFits(b: nat, c: nat, y: nat, r: nat)
    requires y < c && r < b
    ensures b * y + r < b * c
  {
    ProductsKeepOrder(y + 1, c, b);
    OneMoreTimes(y, b);
  }

  lemma {:induction false} ProductsKeepOrder(x: nat, y: nat, b: nat)
    requires x <= y
    ensures x * b <= y * b
    decreases y - x
  {
    if x < y {
      ProductsKeepOrder(x + 1, y, b);
    }
  }

  function PadPayload(payload: ByteString, blockSize: nat, noise: nat -> ByteString): (r: Result<ByteString>)
    requires forall n :: |noise(n)| == n
    ensures r.Ok? <==> MIN_BLOCK <= blockSize <= MAX_BLOCK
    ensures r.Ok? ==> |r.value| == PaddedSize(|payload|, blockSize)
  {
    if blockSize < MIN_BLOCK || blockSize > MAX_BLOCK then Err else
    var envelope := LENGTH_BYTES + |payload|;
    var padded := PaddedSize(|payload|, blockSize);
    Ok(BigEndian(|payload|, LENGTH_BYTES) + payload + noise(padded - envelope))
  }

  function UnpadPayload(padded: ByteString): Result<ByteString> {
    if |padded| < LENGTH_BYTES then Err else
    var n := FromBigEndian(padded[..LENGTH_BYTES]);
    if n > |padded| - LENGTH_BYTES then Err else Ok(padded[LENGTH_BYTES..LENGTH_BYTES + n])
  }

  /** Whatever the padding bytes are, the payload comes back. */
  lemma UnpadPad(payload: ByteString, blockSize: nat, noise: nat -> ByteString)
    requires forall n :: |noise(n)| == n
    requires MIN_BLOCK <= blockSize <= MAX_BLOCK && |payload| < Pow256(LENGTH_BYTES)
    ensures UnpadPayload(PadPayload(payload, blockSize, noise).value) == Ok(payload)
  {
    var padded := PadPayload(payload, blockSize, noise).value;
    FromBigEndianInverse(|payload|, LENGTH_BYTES);
    assert padded[..LENGTH_BYTES] == BigEndian(|payload|, LENGTH_BYTES);
    assert padded[LENGTH_BYTES..LENGTH_BYTES + |payload|] == payload;
  }
}
