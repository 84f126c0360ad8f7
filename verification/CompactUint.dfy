/** Minimal unsigned LEB128 integers limited to 64 bits, and zigzag signed integers over them. */
module CompactUint {
  import opened Bytes
  import opened Padding

  const MAX_COMPACT_UINT := 0xFFFF_FFFF_FFFF_FFFF

  function Print(v: nat): (r: ByteString)
    ensures r != []
  {
    if v < 128 then [v] else [128 + v % 128] + Print(v / 128)
  }

  /** Any minimal LEB128 number: the last byte of a longer form may not be zero. */
  function Leb(d: ByteString): Parsed<nat>
    decreases |d|
  {
    if d == [] then Malformed
    else if d[0] < 128 then Parsed(d[0], d[1..])
    else
      var (high, rest) :- Leb(d[1..]);
      if high == 0 then Malformed else Parsed(d[0] - 128 + 128 * high, rest)
  }

  function Take(d: ByteString): Parsed<nat> {
    var (v, rest) :- Leb(d);
    if v <= MAX_COMPACT_UINT then Parsed(v, rest) else Malformed
  }

  predicate Fits(v: nat) {
    v <= MAX_COMPACT_UINT
  }

  lemma {:induction false} PrintedReads(v: nat, rest: ByteString)
    ensures Leb(Print(v) + rest) == Parsed(v, rest)
    decreases v
  {
    var d := Print(v) + rest;
    if v < 128 {
      assert d[1..] == rest;
    } else {
      assert d[1..] == Print(v / 128) + rest;
      PrintedReads(v / 128, rest);
    }
  }

  lemma {:induction false} ReadPrints(d: ByteString)
    ensures match Leb(d) case Malformed => true case Parsed(v, rest) => d == Print(v) + rest
    decreases |d|
  {
    if d != [] && d[0] >= 128 && Leb(d).Parsed? {
      ReadPrints(d[1..]);
      var high := Leb(d[1..]).value;
      var v := Leb(d).value;
      assert v / 128 == high && v % 128 == d[0] - 128;
      assert d == [d[0]] + d[1..];
    }
  }

  function Pow128(n: nat): (r: nat)
    ensures r >= 1
  {
    if n == 0 then 1 else 128 * Pow128(n - 1)
  }

  /** The printed form has as many bytes as the number has digits in base 128. */
  lemma {:induction false} PrintedLength(v: nat)
    ensures v < Pow128(|Print(v)|) && (v > 0 ==> Pow128(|Print(v)| - 1) <= v)
    decreases v
  {
    if v < 128 {
      assert Pow128(1) == 128 * Pow128(0);
    } else {
      PrintedLength(v / 128);
    }
  }

  /** The digit of weight 128 to the `i`. */
  function Digit(v: nat, i: nat): nat {
    v / Pow128(i) % 128
  }

  lemma DigitOfRest(v: nat, i: nat)
    ensures Digit(v / 128, i) == Digit(v, i + 1)
  {
    var p := Pow128(i);
    assert Pow128(i + 1) == 128 * p;
    hide Pow128;
    DivideTwice(v, 128, p);
  }

  lemma LastDigit(v: nat)
    ensures Digit(v, 0) == v % 128
  {
    assert Pow128(0) == 1;
  }

  /** Byte `i` is digit `i`, the least significant first, with the high bit set on all bytes but the last. */
  lemma {:induction false} PrintedByte(v: nat, i: nat)
    requires i < |Print(v)|
    ensures Print(v)[i] as int == Digit(v, i) + (if i + 1 < |Print(v)| then 128 else 0)
    decreases v
  {
    hide Digit;
    LastDigit(v);
    if i > 0 {
      PrintedByte(v / 128, i - 1);
      DigitOfRest(v, i - 1);
    }
  }

  lemma TakeExact()
    ensures Exact(Take, Print, Fits)
  {
    forall d, v: nat, rest
      ensures Take(d) == Parsed(v, rest) <==> Fits(v) && d == Print(v) + rest
    {
      ReadPrints(d);
      PrintedReads(v, rest);
    }
  }

  lemma TakeAt(d: ByteString, v: nat, rest: ByteString)
    ensures Take(d) == Parsed(v, rest) <==> Fits(v) && d == Print(v) + rest
  {
    hide Take, Print, Fits;
    TakeExact();
  }

  method EncodeCompactUint(value: int) returns (r: Result<ByteString>)
    ensures r == if 0 <= value <= MAX_COMPACT_UINT then Ok(Print(value)) else Err
  {
    if !(0 <= value <= MAX_COMPACT_UINT) {
      return Err;
    }
    var output: ByteString, v: nat := [], value;
    while v >= 128
      invariant Print(value) == output + Print(v)
    {
      assert output + Print(v) == (output + [v % 128 + 128]) + Print(v / 128);
      output := output + [v % 128 + 128];
      v := v / 128;
    }
    r := Ok(output + [v]);
  }

  function Pow2(n: nat): (r: nat)
    ensures r >= 1
  {
    if n == 0 then 1 else 2 * Pow2(n - 1)
  }

  function ShiftLeft(v: nat, shift: nat): nat {
    v * Pow2(shift)
  }

  /** The number that `value` becomes once the unread high part is added at bit `shift`. */
  function Resume(value: nat, shift: nat, first: bool, tail: Parsed<nat>): Parsed<nat> {
    match tail
    case Malformed => Malformed
    case Parsed(high, rest) => if high == 0 && !first then Malformed else Parsed(value + ShiftLeft(high, shift), rest)
  }

  lemma ResumeStep(d: ByteString, value: nat, shift: nat, first: bool)
    requires d != [] && d[0] >= 128
    ensures Resume(value, shift, first, Leb(d))
            == Resume(value + ShiftLeft(d[0] % 128, shift), shift + 7, false, Leb(d[1..]))
  {
    SevenMore(shift);
    var low := d[0] % 128;
    assert low == d[0] - 128;
    if Leb(d[1..]).Parsed? && Leb(d[1..]).value != 0 {
      var high := Leb(d[1..]).value;
      Distribute(low, high, Pow2(shift));
    }
  }

  lemma Distribute(low: nat, high: nat, weight: nat)
    ensures (low + 128 * high) * weight == low * weight + high * (128 * weight)
  {
  }

  lemma ResumeLast(d: ByteString, value: nat, shift: nat, first: bool)
    ensures d == [] ==> Resume(value, shift, first, Leb(d)) == Malformed
    ensures d != [] && d[0] < 128 ==>
              Resume(value, shift, first, Leb(d))
              == if d[0] == 0 && !first then Malformed else Parsed(value + ShiftLeft(d[0], shift), d[1..])
  {
  }

  /** At bit 63 only one more bit fits, and above it none. */
  lemma NoRoom(d: ByteString, value: nat, shift: nat)
    requires shift == 70 || (shift == 63 && d != [] && d[0] % 128 > 1)
    ensures var r := Resume(value, shift, false, Leb(d)); r.Parsed? ==> r.value > MAX_COMPACT_UINT
  {
    if Resume(value, shift, false, Leb(d)).Parsed? {
      var high := Leb(d).value;
      assert high >= (if shift == 63 then 2 else 1);
      TopWeights();
      assert high * Pow2(shift) > MAX_COMPACT_UINT;
    }
  }

  method DecodeCompactUint(payload: ByteString, position: nat, maximum: nat)
    returns (r: Result<nat>, end: nat)
    requires position <= |payload| && maximum <= MAX_COMPACT_UINT
    ensures position <= end <= |payload|
    ensures r == match Leb(payload[position..])
                 case Malformed => Err
                 case Parsed(v, rest) => if v <= maximum then Ok(v) else Err
    ensures r.Ok? ==> payload[end..] == Leb(payload[position..]).rest
  {
    hide Leb, ShiftLeft;
    var value: nat, shift: nat := 0, 0;
    end := position;
    ghost var goal := Leb(payload[position..]);
    ResumeNothing(goal);
    while end < |payload| && shift <= 63
      invariant position <= end <= |payload| && shift == 7 * (end - position) && shift % 7 == 0 && shift <= 70
      invariant goal == Resume(value, shift, end == position, Leb(payload[end..]))
    {
      var byte := payload[end];
      var component := byte % 128;
      ghost var unread := payload[end..];
      assert unread[1..] == payload[end + 1..];
      if shift == 63 && component > 1 {
        NoRoom(unread, value, shift);
        return Err, end;
      }
      if byte < 128 {
        ResumeLast(unread, value, shift, end == position);
        value := value + ShiftLeft(component, shift);
        end := end + 1;
        if (end - position > 1 && component == 0) || value > maximum {
          return Err, end;
        }
        return Ok(value), end;
      }
      ResumeStep(unread, value, shift, end == position);
      value := value + ShiftLeft(component, shift);
      end := end + 1;
      shift := shift + 7;
    }
    ResumeLast(payload[end..], value, shift, end == position);
    if shift > 63 {
      NoRoom(payload[end..], value, shift);
    }
    r := Err;
  }

  lemma ResumeNothing(p: Parsed<nat>)
    ensures Resume(0, 0, true, p) == p
  {
  }

  lemma TopWeights()
    ensures Pow2(63) == 0x8000_0000_0000_0000 && Pow2(70) > MAX_COMPACT_UINT
  {
    assert Pow2(0) == 1;
    hide Pow2;
    SevenMore(0);
    SevenMore(7);
    SevenMore(14);
    SevenMore(21);
    SevenMore(28);
    SevenMore(35);
    SevenMore(42);
    SevenMore(49);
    SevenMore(56);
    SevenMore(63);
  }

  lemma SevenMore(n: nat)
    ensures Pow2(n + 7) == 128 * Pow2(n)
  {
    assert Pow2(n + 7) == 2 * Pow2(n + 6) && Pow2(n + 6) == 2 * Pow2(n + 5) && Pow2(n + 5) == 2 * Pow2(n + 4);
    assert Pow2(n + 4) == 2 * Pow2(n + 3) && Pow2(n + 3) == 2 * Pow2(n + 2) && Pow2(n + 2) == 2 * Pow2(n + 1);
  }

  // ----- Signed integers

  function Zigzag(v: int): nat {
    if v >= 0 then 2 * v else -2 * v - 1
  }

  function Unzigzag(e: nat): int {
    if e % 2 == 0 then e / 2 else -(e / 2) - 1
  }

  /** Zigzag maps the 64-bit signed range one to one onto the 64-bit unsigned range. */
  lemma ZigzagIsBijective(v: int, e: nat)
    ensures Zigzag(v) == e <==> v == Unzigzag(e)
    ensures FitsSigned(v, 8) <==> Zigzag(v) <= MAX_COMPACT_UINT
  {
    assert Pow256(8) == 0x1_0000_0000_0000_0000;
  }

  function Magnitude(v: int): nat {
    if v < 0 then -v else v
  }

  /** Zigzag orders numbers by magnitude, the negative of a pair first. */
  lemma ZigzagOrders(a: int, b: int)
    ensures Zigzag(a) < Zigzag(b) <==> Magnitude(a) < Magnitude(b) || (Magnitude(a) == Magnitude(b) && a < b)
  {
  }
}
