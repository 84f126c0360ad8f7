/** Byte strings, fixed-width big-endian integers, and parsers that return the unread rest. */
module Bytes {

  type Byte = x: int | 0 <= x < 256

  type ByteString = seq<Byte>

  const SLASH: Byte := 47

  /** The result of reading a value from the front of a byte string. */
  datatype Parsed<+T> = Malformed | Parsed(value: T, rest: ByteString) {
    predicate IsFailure() {
      Malformed?
    }

    function PropagateFailure<U>(): Parsed<U>
      requires Malformed?
    {
      Malformed
    }

    function Extract(): (T, ByteString)
      requires Parsed?
    {
      (value, rest)
    }
  }

  datatype Result<+T> = Ok(value: T) | Err

  datatype Option<+T> = None | Some(value: T)

  function Pow256(width: nat): (r: nat)
    ensures r >= 1
  {
    if width == 0 then 1 else 256 * Pow256(width - 1)
  }

  /** `struct.pack` of one big-endian field; a negative value is its two's complement. */
  function BigEndian(v: int, width: nat): (r: ByteString)
    ensures |r| == width
    decreases width
  {
    if width == 0 then [] else BigEndian(v / 256, width - 1) + [v % 256]
  }

  function FromBigEndian(s: ByteString): (r: nat)
    ensures r < Pow256(|s|)
  {
    if s == [] then 0 else 256 * FromBigEndian(s[..|s| - 1]) + s[|s| - 1]
  }

  lemma {:induction false} FromBigEndianInverse(v: nat, width: nat)
    requires v < Pow256(width)
    ensures FromBigEndian(BigEndian(v, width)) == v
  {
    if width > 0 {
      FromBigEndianInverse(v / 256, width - 1);
      assert BigEndian(v, width)[..width - 1] == BigEndian(v / 256, width - 1);
    }
  }

  lemma OneByte(b: Byte)
    ensures FromBigEndian(BigEndian(b as int, 1)) == b as int
  {
    assert Pow256(1) == 256;
    FromBigEndianInverse(b as int, 1);
  }

  lemma {:induction false} BigEndianInverse(s: ByteString)
    ensures BigEndian(FromBigEndian(s), |s|) == s
  {
    if s != [] {
      var q, b := FromBigEndian(s[..|s| - 1]), s[|s| - 1];
      assert (256 * q + b) / 256 == q && (256 * q + b) % 256 == b;
      BigEndianInverse(s[..|s| - 1]);
    }
  }

  lemma {:induction false} BigEndianWraps(v: int, width: nat)
    ensures BigEndian(v + Pow256(width), width) == BigEndian(v, width)
    decreases width
  {
    if width > 0 {
      var p := Pow256(width - 1);
      assert (v + 256 * p) / 256 == v / 256 + p && (v + 256 * p) % 256 == v % 256;
      BigEndianWraps(v / 256, width - 1);
    }
  }

  /** A signed field read back: the top half of the range is negative. */
  function Signed(v: nat, width: nat): int {
    if 2 * v < Pow256(width) then v else v - Pow256(width)
  }

  predicate FitsSigned(v: int, width: nat) {
    0 <= 2 * v + Pow256(width) && 2 * v < Pow256(width)
  }

  function TakeBytes(d: ByteString, n: nat): Parsed<ByteString> {
    if |d| < n then Malformed else Parsed(d[..n], d[n..])
  }

  function TakeUint(d: ByteString, width: nat): Parsed<nat> {
    if |d| < width then Malformed else Parsed(FromBigEndian(d[..width]), d[width..])
  }

  function TakeSint(d: ByteString, width: nat): Parsed<int> {
    var (v, rest) :- TakeUint(d, width);
    Parsed(Signed(v, width), rest)
  }

  lemma TakeBytesExact(d: ByteString, n: nat, x: ByteString, rest: ByteString)
    ensures TakeBytes(d, n) == Parsed(x, rest) <==> |x| == n && d == x + rest
  {
    if |x| == n && d == x + rest {
      assert d[..n] == x && d[n..] == rest;
    }
  }

  lemma TakeUintExact(d: ByteString, width: nat, v: nat, rest: ByteString)
    ensures TakeUint(d, width) == Parsed(v, rest)
            <==> v < Pow256(width) && d == BigEndian(v, width) + rest
  {
    if TakeUint(d, width) == Parsed(v, rest) {
      BigEndianInverse(d[..width]);
    }
    if v < Pow256(width) && d == BigEndian(v, width) + rest {
      FromBigEndianInverse(v, width);
      assert d[..width] == BigEndian(v, width) && d[width..] == rest;
    }
  }

  lemma TakeSintExact(d: ByteString, width: nat, v: int, rest: ByteString)
    ensures TakeSint(d, width) == Parsed(v, rest)
            <==> FitsSigned(v, width) && d == BigEndian(v, width) + rest
  {
    var u := if v < 0 then v + Pow256(width) else v;
    if FitsSigned(v, width) {
      TakeUintExact(d, width, u, rest);
      if v < 0 {
        BigEndianWraps(v, width);
      }
    }
  }

  /** `n` values read one after another with the same parser. */
  function TakeMany<T>(take: ByteString -> Parsed<T>, d: ByteString, n: nat): Parsed<seq<T>>
    decreases n
  {
    if n == 0 then Parsed([], d) else
    var (x, rest) :- take(d);
    var (xs, rest') :- TakeMany(take, rest, n - 1);
    Parsed([x] + xs, rest')
  }

  function PrintMany<T>(print_: T -> ByteString, xs: seq<T>): ByteString {
    if xs == [] then [] else print_(xs[0]) + PrintMany(print_, xs[1..])
  }

  lemma {:induction false} PrintManySnoc<T>(print_: T -> ByteString, xs: seq<T>, x: T)
    ensures PrintMany(print_, xs + [x]) == PrintMany(print_, xs) + print_(x)
    decreases |xs|
  {
    if xs == [] {
      assert PrintMany(print_, [x]) == print_(x) + PrintMany(print_, []);
      assert xs + [x] == [x];
    } else {
      assert (xs + [x])[1..] == xs[1..] + [x];
      PrintManySnoc(print_, xs[1..], x);
    }
  }

  /** `take` and `print_` are exact inverses on the values that satisfy `ok`. */
  ghost predicate Exact<T(!new)>(take: ByteString -> Parsed<T>, print_: T -> ByteString, ok: T -> bool) {
    forall d, x, rest :: take(d) == Parsed(x, rest) <==> ok(x) && d == print_(x) + rest
  }

  lemma {:induction false} TakeManyExact<T(!new)>(
      take: ByteString -> Parsed<T>, print_: T -> ByteString, ok: T -> bool,
      d: ByteString, xs: seq<T>, rest: ByteString)
    requires Exact(take, print_, ok)
    ensures TakeMany(take, d, |xs|) == Parsed(xs, rest)
            <==> (forall x | x in xs :: ok(x)) && d == PrintMany(print_, xs) + rest
    decreases |xs|
  {
    if xs == [] {
      assert [] + rest == rest;
    } else {
      var tail := PrintMany(print_, xs[1..]) + rest;
      assert PrintMany(print_, xs) + rest == print_(xs[0]) + tail;
      assert xs == [xs[0]] + xs[1..];
      if TakeMany(take, d, |xs|) == Parsed(xs, rest) {
        var first := take(d);
        assert first.value == xs[0] && TakeMany(take, first.rest, |xs| - 1) == Parsed(xs[1..], rest);
        TakeManyExact(take, print_, ok, first.rest, xs[1..], rest);
        assert forall x | x in xs :: x == xs[0] || x in xs[1..];
      }
      if (forall x | x in xs :: ok(x)) && d == PrintMany(print_, xs) + rest {
        assert take(d) == Parsed(xs[0], tail);
        TakeManyExact(take, print_, ok, tail, xs[1..], rest);
      }
    }
  }

  lemma {:induction false} TakeManyLength<T>(take: ByteString -> Parsed<T>, d: ByteString, n: nat)
    ensures TakeMany(take, d, n).Parsed? ==> |TakeMany(take, d, n).value| == n
    decreases n
  {
    if n > 0 && take(d).Parsed? {
      TakeManyLength(take, take(d).rest, n - 1);
    }
  }

  function Flatten<T>(parts: seq<seq<T>>): seq<T> {
    if parts == [] then [] else parts[0] + Flatten(parts[1..])
  }

  lemma {:induction false} FlattenAppend<T>(a: seq<seq<T>>, b: seq<seq<T>>)
    ensures Flatten(a + b) == Flatten(a) + Flatten(b)
    decreases |a|
  {
    if a == [] {
      assert a + b == b;
    } else {
      assert (a + b)[1..] == a[1..] + b;
      FlattenAppend(a[1..], b);
    }
  }

  lemma FlattenSnoc<T>(a: seq<seq<T>>, x: seq<T>)
    ensures Flatten(a + [x]) == Flatten(a) + x
  {
    FlattenAppend(a, [x]);
    assert Flatten([x]) == x + Flatten([]);
  }
}
