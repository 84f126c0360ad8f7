/** Lane assignments packed four to a byte, two bits each, low bits first. */
module PackedLanes {
  import opened Bytes

  const LANE_COUNT := 3

  type Lane = x: int | 0 <= x < LANE_COUNT

  /** Assignment `i`, or zero past the end. */
  function At(a: seq<Lane>, i: nat): nat {
    if i < |a| then a[i] else 0
  }

  /** Byte `j` of the packed form. */
  function Quad(a: seq<Lane>, j: nat): Byte {
    At(a, 4 * j) + 4 * At(a, 4 * j + 1) + 16 * At(a, 4 * j + 2) + 64 * At(a, 4 * j + 3)
  }

  function PackedSize(n: nat): nat {
    (n + 3) / 4
  }

  function Pack(a: seq<Lane>): ByteString {
    seq(PackedSize(|a|), j requires 0 <= j => Quad(a, j))
  }

  function Weight(k: nat): nat {
    if k == 0 then 1 else if k == 1 then 4 else if k == 2 then 16 else 64
  }

  /** The two bits of `b` at position `k`. */
  function Field(b: Byte, k: nat): nat {
    b / Weight(k) % 4
  }

  /** `packed` holds `n` valid lanes, and the unused bits of its last byte are zero. */
  predicate WellPacked(packed: ByteString, n: nat) {
    && |packed| == PackedSize(n)
    && (forall i | 0 <= i < n :: Field(packed[i / 4], i % 4) < LANE_COUNT)
    && (n % 4 != 0 ==> packed[|packed| - 1] / Weight(n % 4) == 0)
  }

  function Unpack(packed: ByteString, n: nat): (a: seq<Lane>)
    requires WellPacked(packed, n)
    ensures |a| == n
  {
    seq(n, i requires 0 <= i < n => Field(packed[i / 4], i % 4))
  }

  lemma Digits(x0: nat, x1: nat, x2: nat, x3: nat)
    requires x0 < 4 && x1 < 4 && x2 < 4 && x3 < 4
    ensures var b := x0 + 4 * x1 + 16 * x2 + 64 * x3;
            && b / 4 == x1 + 4 * x2 + 16 * x3 && b / 16 == x2 + 4 * x3 && b / 64 == x3
            && b % 4 == x0 && b / 4 % 4 == x1 && b / 16 % 4 == x2 && b / 64 % 4 == x3
  {
    var b := x0 + 4 * x1 + 16 * x2 + 64 * x3;
    assert b / 4 == x1 + 4 * x2 + 16 * x3;
    assert b / 16 == x2 + 4 * x3;
    assert b / 64 == x3;
  }

  lemma FieldsOfQuad(a: seq<Lane>, j: nat)
    ensures forall k: nat | k < 4 :: Field(Quad(a, j), k) == At(a, 4 * j + k)
    ensures |a| <= 4 * j + 1 ==> Quad(a, j) / 4 == 0
    ensures |a| <= 4 * j + 2 ==> Quad(a, j) / 16 == 0
    ensures |a| <= 4 * j + 3 ==> Quad(a, j) / 64 == 0
  {
    Digits(At(a, 4 * j), At(a, 4 * j + 1), At(a, 4 * j + 2), At(a, 4 * j + 3));
  }

  lemma QuadOfFields(b: Byte)
    ensures b == Field(b, 0) + 4 * Field(b, 1) + 16 * Field(b, 2) + 64 * Field(b, 3)
    ensures b / 4 == 0 ==> Field(b, 1) == Field(b, 2) == Field(b, 3) == 0
    ensures b / 16 == 0 ==> Field(b, 2) == Field(b, 3) == 0
    ensures b / 64 == 0 ==> Field(b, 3) == 0
  {
    var q1, q2, q3: nat := b / 4, b / 16, b / 64;
    assert q2 == q1 / 4 && q3 == q2 / 4 && q3 < 4;
    assert Field(b, 0) == b - 4 * q1 && Field(b, 1) == q1 - 4 * q2 && Field(b, 2) == q2 - 4 * q3 && Field(b, 3) == q3;
  }

  lemma UnpackPack(a: seq<Lane>)
    ensures WellPacked(Pack(a), |a|) && Unpack(Pack(a), |a|) == a
  {
    hide Quad, Field;
    var packed, n := Pack(a), |a|;
    forall i | 0 <= i < n
      ensures Field(packed[i / 4], i % 4) == a[i]
    {
      FieldsOfQuad(a, i / 4);
      assert 4 * (i / 4) + i % 4 == i;
    }
    if n % 4 != 0 {
      FieldsOfQuad(a, |packed| - 1);
    }
  }

  lemma AtIsField(packed: ByteString, n: nat, j: nat, k: nat)
    requires WellPacked(packed, n) && j < |packed| && k < 4
    ensures At(Unpack(packed, n), 4 * j + k) == Field(packed[j], k)
  {
    hide Field;
    assert (4 * j + k) / 4 == j && (4 * j + k) % 4 == k;
    if n <= 4 * j + k {
      assert j == |packed| - 1 && n % 4 != 0 && n % 4 <= k;
      QuadOfFields(packed[j]);
    }
  }

  lemma QuadIsByte(packed: ByteString, n: nat, j: nat)
    requires WellPacked(packed, n) && j < |packed|
    ensures Quad(Unpack(packed, n), j) == packed[j]
  {
    hide At, Field, Unpack, WellPacked;
    AtIsField(packed, n, j, 0);
    AtIsField(packed, n, j, 1);
    AtIsField(packed, n, j, 2);
    AtIsField(packed, n, j, 3);
    QuadOfFields(packed[j]);
  }

  lemma PackUnpack(packed: ByteString, n: nat)
    requires WellPacked(packed, n)
    ensures Pack(Unpack(packed, n)) == packed
  {
    hide Quad, Unpack;
    forall j | 0 <= j < |packed|
      ensures Quad(Unpack(packed, n), j) == packed[j]
    {
      QuadIsByte(packed, n, j);
    }
  }

  /** The packing loop: each lane is added at its two bits of a zeroed buffer. */
  method PackAssignments(assignments: seq<Lane>) returns (packed: array<Byte>)
    ensures fresh(packed) && packed[..] == Pack(assignments)
  {
    packed := new Byte[PackedSize(|assignments|)](_ => 0);
    for index := 0 to |assignments|
      invariant forall j | 0 <= j < packed.Length :: packed[j] == Quad(assignments[..index], j)
    {
      QuadOfOneMore(assignments, index);
      packed[index / 4] := packed[index / 4] + assignments[index] * Weight(index % 4);
    }
    assert assignments[..|assignments|] == assignments;
  }

  lemma QuadOfOneMore(a: seq<Lane>, i: nat)
    requires i < |a|
    ensures Quad(a[..i + 1], i / 4) == Quad(a[..i], i / 4) + a[i] * Weight(i % 4)
    ensures forall j: nat | j != i / 4 :: Quad(a[..i + 1], j) == Quad(a[..i], j)
  {
    assert forall m: nat | m != i :: At(a[..i + 1], m) == At(a[..i], m);
    assert At(a[..i + 1], i) == a[i] && At(a[..i], i) == 0;
  }

  method UnpackAssignments(packed: ByteString, uniqueCount: nat) returns (r: Result<seq<Lane>>)
    requires |packed| == PackedSize(uniqueCount)
    ensures r == if WellPacked(packed, uniqueCount) then Ok(Unpack(packed, uniqueCount)) else Err
  {
    if uniqueCount % 4 != 0 && packed != [] && packed[|packed| - 1] / Weight(uniqueCount % 4) != 0 {
      return Err;
    }
    var assignments: seq<Lane> := [];
    for index := 0 to uniqueCount
      invariant |assignments| == index
      invariant forall i | 0 <= i < index :: Field(packed[i / 4], i % 4) == assignments[i]
    {
      var lane := Field(packed[index / 4], index % 4);
      if lane >= LANE_COUNT {
        return Err;
      }
      assignments := assignments + [lane];
    }
    assert assignments == Unpack(packed, uniqueCount);
    r := Ok(assignments);
  }
}
