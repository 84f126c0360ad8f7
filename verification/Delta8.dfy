/** Wrapping byte deltas, run-length coded. */
module Delta8 {
  import opened Bytes
  import Rle

  function Plus(a: Byte, b: Byte): Byte {
    (a as int + b as int) % 256
  }

  function Minus(a: Byte, b: Byte): Byte {
    (a as int - b as int) % 256
  }

  /** Reducing a number less than one period away adds or drops one period. */
  lemma Wrap(n: int)
    requires -256 < n < 512
    ensures n % 256 == if n < 0 then n + 256 else if n < 256 then n else n - 256
  {
  }

  lemma PlusMinus(a: Byte, b: Byte)
    ensures Plus(a, Minus(b, a)) == b && Minus(Plus(a, b), a) == b
  {
    Wrap(b as int - a as int);
    Wrap(a as int + Minus(b, a) as int);
    Wrap(a as int + b as int);
    Wrap(Plus(a, b) as int - a as int);
  }

  function Deltas(block: ByteString): (r: ByteString)
    requires block != []
    ensures |r| == |block| - 1
  {
    seq(|block| - 1, i requires 0 <= i < |block| - 1 => Minus(block[i + 1], block[i]))
  }

  /** The block that starts with `first` and has the given wrapping differences. */
  function Accumulate(first: Byte, deltas: ByteString): (r: ByteString)
    ensures |r| == |deltas| + 1 && r[0] == first
    decreases |deltas|
  {
    if deltas == [] then [first] else
    var r := Accumulate(first, deltas[..|deltas| - 1]);
    r + [Plus(r[|r| - 1], deltas[|deltas| - 1])]
  }

  function Encoded(block: ByteString): ByteString {
    if block == [] then [] else block[..1] + Rle.Greedy(Deltas(block))
  }

  function Decoded(payload: ByteString, expectedSize: nat): Result<ByteString> {
    if expectedSize == 0 then (if payload == [] then Ok([]) else Err)
    else if payload == [] then Err
    else
      match Rle.Expand(payload[1..])
      case Err => Err
      case Ok(deltas) => if |deltas| == expectedSize - 1 then Ok(Accumulate(payload[0], deltas)) else Err
  }

  method Encode(block: ByteString) returns (output: ByteString)
    ensures output == Encoded(block)
  {
    if block == [] {
      return [];
    }
    var runs := Rle.Encode(Deltas(block));
    output := block[..1] + runs;
  }

  method Decode(payload: ByteString, expectedSize: nat) returns (r: Result<ByteString>)
    ensures r == Decoded(payload, expectedSize)
  {
    if expectedSize == 0 {
      return if payload != [] then Err else Ok([]);
    }
    if payload == [] {
      return Err;
    }
    var deltas := Rle.Decode(payload[1..], expectedSize - 1);
    if deltas.Err? {
      return Err;
    }
    var output := payload[..1];
    for i := 0 to |deltas.value|
      invariant output == Accumulate(payload[0], deltas.value[..i])
    {
      output := output + [Plus(output[|output| - 1], deltas.value[i])];
      assert deltas.value[..i + 1][..i] == deltas.value[..i];
    }
    assert deltas.value[..|deltas.value|] == deltas.value;
    r := Ok(output);
  }

  lemma {:induction false} AccumulateDeltas(block: ByteString)
    requires block != []
    ensures Accumulate(block[0], Deltas(block)) == block
    decreases |block|
  {
    hide Plus, Minus;
    if |block| > 1 {
      var n := |block| - 1;
      AccumulateDeltas(block[..n]);
      assert Deltas(block)[..n - 1] == Deltas(block[..n]);
      PlusMinus(block[n - 1], block[n]);
    }
  }

  lemma {:induction false} DeltasAccumulate(first: Byte, deltas: ByteString)
    ensures Deltas(Accumulate(first, deltas)) == deltas
    decreases |deltas|
  {
    hide Plus, Minus;
    if deltas != [] {
      var n := |deltas| - 1;
      var r := Accumulate(first, deltas[..n]);
      DeltasAccumulate(first, deltas[..n]);
      var all := Accumulate(first, deltas);
      assert forall i | 0 <= i < n :: Deltas(all)[i] == Deltas(r)[i];
      PlusMinus(r[n], deltas[n]);
      assert deltas == deltas[..n] + [deltas[n]];
    }
  }

  lemma DecodeEncoded(block: ByteString)
    ensures Decoded(Encoded(block), |block|) == Ok(block)
  {
    if block != [] {
      assert Encoded(block)[1..] == Rle.Greedy(Deltas(block));
      Rle.ExpandGreedy(Deltas(block));
      AccumulateDeltas(block);
    }
  }

  /** No payload that the decoder accepts for `block` is shorter than the encoder's. */
  lemma EncodedIsShortest(payload: ByteString, block: ByteString)
    requires Decoded(payload, |block|) == Ok(block)
    ensures |Encoded(block)| <= |payload|
  {
    if block != [] {
      var deltas := Rle.Expand(payload[1..]).value;
      DeltasAccumulate(payload[0], deltas);
      Rle.GreedyIsShortest(payload[1..], deltas);
    }
  }

  lemma DifferenceAt(block: ByteString, i: nat)
    requires i + 1 < |block|
    ensures (block[i] as int + Deltas(block)[i] as int) % 256 == block[i + 1] as int
  {
    PlusMinus(block[i], block[i + 1]);
  }

  /** The differences lead from each byte of the block to the next, modulo 256. */
  predicate LeadThrough(deltas: ByteString, block: ByteString) {
    && |deltas| + 1 == |block|
    && forall i | 0 <= i < |deltas| :: (block[i] as int + deltas[i] as int) % 256 == block[i + 1] as int
  }

  lemma DeltasLeadThrough(block: ByteString)
    requires block != []
    ensures LeadThrough(Deltas(block), block)
  {
    hide Minus;
    forall i | 0 <= i < |block| - 1
      ensures (block[i] as int + Deltas(block)[i] as int) % 256 == block[i + 1] as int
    {
      DifferenceAt(block, i);
    }
  }

  /** The encoder writes the first byte and runs of the differences modulo 256. */
  lemma EncodedHoldsDifferences(block: ByteString)
    requires block != []
    ensures Encoded(block) != [] && Encoded(block)[0] == block[0]
    ensures match Rle.Expand(Encoded(block)[1..])
            case Err => false
            case Ok(deltas) => LeadThrough(deltas, block)
  {
    hide Deltas, LeadThrough, Rle.Greedy, Rle.Expand;
    assert Encoded(block)[1..] == Rle.Greedy(Deltas(block));
    Rle.ExpandGreedy(Deltas(block));
    DeltasLeadThrough(block);
  }

  /** The decoder returns the payload's first byte, and then each byte plus its difference modulo 256. */
  lemma DecodedFollowsDifferences(payload: ByteString, expectedSize: nat, block: ByteString)
    requires Decoded(payload, expectedSize) == Ok(block) && block != []
    ensures payload != [] && block[0] == payload[0] && |block| == expectedSize
    ensures match Rle.Expand(payload[1..])
            case Err => false
            case Ok(deltas) => LeadThrough(deltas, block)
  {
    hide Deltas, LeadThrough, Rle.Expand;
    var deltas := Rle.Expand(payload[1..]).value;
    DeltasAccumulate(payload[0], deltas);
    DeltasLeadThrough(block);
  }
}
