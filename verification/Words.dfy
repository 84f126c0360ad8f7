/** 64-bit words: shifting by any distance, and the exclusive or of a sequence. */
module Words {

  function Once(w: bv64): bv64 {
    w << 1
  }

  function Xor(x: bv64, y: bv64): bv64 {
    x ^ y
  }

  lemma XorShifts(x: bv64, y: bv64)
    ensures Once(Xor(x, y)) == Xor(Once(x), Once(y))
  {
  }

  lemma ShiftedXor(x: bv64, y: bv64)
    ensures (x << 1) ^ y == Xor(Once(x), y)
  {
  }

  /** `w` shifted left by `k`, one position at a time. */
  function Shifted(w: bv64, k: nat): bv64 {
    if k == 0 then w else Once(Shifted(w, k - 1))
  }

  lemma {:induction false} ShiftedTwice(w: bv64, a: nat, b: nat)
    ensures Shifted(Shifted(w, a), b) == Shifted(w, a + b)
    decreases b
  {
    hide Once;
    if b > 0 {
      ShiftedTwice(w, a, b - 1);
    }
  }

  lemma ShiftedOnce(w: bv64)
    ensures Shifted(w, 1) == Once(w)
  {
    hide Once;
    assert Shifted(w, 0) == w;
  }

  /** These are the machine's own shifts; with `ShiftedTwice` they give every other one. */
  lemma ShiftedByOne(w: bv64)
    ensures Shifted(w, 1) == w << 1
  {
    hide Shifted;
    ShiftedOnce(w);
  }

  lemma ShiftedByTwo(w: bv64)
    ensures Shifted(w, 2) == w << 2
  {
    hide Shifted;
    ShiftedByOne(w);
    ShiftedByOne(w << 1);
    ShiftedTwice(w, 1, 1);
  }

  lemma ShiftedByFour(w: bv64)
    ensures Shifted(w, 4) == w << 4
  {
    hide Shifted;
    ShiftedByTwo(w);
    ShiftedByTwo(w << 2);
    ShiftedTwice(w, 2, 2);
  }

  lemma ShiftedByEight(w: bv64)
    ensures Shifted(w, 8) == w << 8
  {
    hide Shifted;
    ShiftedByFour(w);
    ShiftedByFour(w << 4);
    ShiftedTwice(w, 4, 4);
  }

  lemma ShiftedBySixteen(w: bv64)
    ensures Shifted(w, 16) == w << 16
  {
    hide Shifted;
    ShiftedByEight(w);
    ShiftedByEight(w << 8);
    ShiftedTwice(w, 8, 8);
  }

  lemma ShiftedByThirtyTwo(w: bv64)
    ensures Shifted(w, 32) == w << 32
  {
    hide Shifted;
    ShiftedBySixteen(w);
    ShiftedBySixteen(w << 16);
    ShiftedTwice(w, 16, 16);
  }

  lemma ShiftedBySixtyFour(w: bv64)
    ensures Shifted(w, 64) == 0
  {
    hide Shifted;
    ShiftedByThirtyTwo(w);
    ShiftedByThirtyTwo(w << 32);
    ShiftedTwice(w, 32, 32);
  }

  /** From 64 on nothing is left. */
  lemma {:induction false} ShiftedOut(w: bv64, k: nat)
    requires k >= 64
    ensures Shifted(w, k) == 0
    decreases k
  {
    if k == 64 {
      ShiftedBySixtyFour(w);
    } else {
      ShiftedOut(w, k - 1);
    }
  }

  function ExclusiveOr(words: seq<bv64>): bv64 {
    if words == [] then 0 else Xor(ExclusiveOr(words[..|words| - 1]), words[|words| - 1])
  }

  function Doubled(words: seq<bv64>): (r: seq<bv64>)
    ensures |r| == |words| && forall i | 0 <= i < |r| :: r[i] == Once(words[i])
  {
    seq(|words|, i requires 0 <= i < |words| => Once(words[i]))
  }

  lemma NoBits()
    ensures Once(0) == 0 && ExclusiveOr([]) == 0
  {
  }

  lemma {:induction false} ExclusiveOrDoubles(words: seq<bv64>)
    ensures ExclusiveOr(Doubled(words)) == Once(ExclusiveOr(words))
  {
    hide Once, Xor;
    if words == [] {
      NoBits();
    } else {
      var n := |words| - 1;
      ExclusiveOrDoubles(words[..n]);
      assert Doubled(words)[..n] == Doubled(words[..n]);
      XorShifts(ExclusiveOr(words[..n]), words[n]);
    }
  }
}
