/** Content-defined chunking: the streaming Gear splitter against a byte-at-a-time one. */
module Cdc {
  import opened Bytes
  import opened Words

  const WINDOW_SIZE := 64
  const MAX_CHUNK_SIZE := 16 * 1024 * 1024

  type Table = t: seq<bv64> | |t| == 256 witness seq(256, _ => 0)

  predicate PowerOfTwo(n: nat) {
    n == 1 || (n > 1 && n % 2 == 0 && PowerOfTwo(n / 2))
  }

  /** The power of two `n` as a machine word. */
  function Word(n: nat): bv64
    requires PowerOfTwo(n)
  {
    if n == 1 then 1 else Word(n / 2) << 1
  }

  datatype ChunkingConfig = ChunkingConfig(minSize: nat, avgSize: nat, maxSize: nat) {
    predicate Valid() {
      && WINDOW_SIZE <= minSize
      && PowerOfTwo(avgSize)
      && minSize <= avgSize <= maxSize
      && maxSize <= MAX_CHUNK_SIZE
    }

    /** `avg_size - 1`, the bits a boundary decision looks at. */
    function BoundaryMask(): bv64
      requires Valid()
    {
      Word(avgSize) - 1
    }
  }

  // ----- The reference splitter: full 64-bit fingerprints, one byte at a time

  function Step(table: Table, f: bv64, b: Byte): bv64 {
    (f << 1) ^ table[b]
  }

  /** The Gear fingerprint of `s`, continued from `f`. */
  function Gear(table: Table, f: bv64, s: ByteString): bv64
    decreases |s|
  {
    if s == [] then f else Step(table, Gear(table, f, s[..|s| - 1]), s[|s| - 1])
  }

  predicate IsBoundary(config: ChunkingConfig, f: bv64)
    requires config.Valid()
  {
    Masked(f, config.BoundaryMask()) == 0
  }

  function Masked(f: bv64, mask: bv64): bv64 {
    f & mask
  }

  /** Where the chunk ends that starts at `d[0]`, once `size` of its bytes have been read. */
  function Cut(config: ChunkingConfig, table: Table, d: ByteString, size: nat, f: bv64): (n: nat)
    requires config.Valid() && size <= |d|
    ensures size <= n <= |d| && (size < |d| ==> size < n)
    decreases |d| - size
  {
    if size == |d| then size
    else if size + 1 < config.minSize then Cut(config, table, d, size + 1, f)
    else
      var g := Step(table, f, d[size]);
      if IsBoundary(config, g) || size + 1 == config.maxSize then size + 1
      else Cut(config, table, d, size + 1, g)
  }

  function Chunks(config: ChunkingConfig, table: Table, d: ByteString): seq<ByteString>
    requires config.Valid()
    decreases |d|
  {
    if d == [] then [] else
    var n := Cut(config, table, d, 0, 0);
    [d[..n]] + Chunks(config, table, d[n..])
  }

  // ----- What a cut means

  /** The first `k` bytes of a chunk may end it: its fingerprint starts at byte `minSize - 1`. */
  predicate Hit(config: ChunkingConfig, table: Table, d: ByteString, k: nat)
    requires config.Valid()
  {
    config.minSize <= k <= |d| && IsBoundary(config, Gear(table, 0, d[config.minSize - 1..k]))
  }

  /** The fingerprint the reference splitter holds after `size` bytes of a chunk. */
  function Held(config: ChunkingConfig, table: Table, d: ByteString, size: nat): bv64
    requires config.Valid() && size <= |d|
  {
    if size < config.minSize then 0 else Gear(table, 0, d[config.minSize - 1..size])
  }

  lemma {:induction false} CutFrom(config: ChunkingConfig, table: Table, d: ByteString, size: nat)
    requires config.Valid() && size <= |d| && size < config.maxSize
    requires forall k: nat | k <= size :: !Hit(config, table, d, k)
    ensures var n := Cut(config, table, d, size, Held(config, table, d, size));
            && n <= config.maxSize
            && (n == |d| || n == config.maxSize || Hit(config, table, d, n))
            && (forall k: nat | k < n :: !Hit(config, table, d, k))
    decreases |d| - size
  {
    if size < |d| {
      var f, lo := Held(config, table, d, size), config.minSize - 1;
      if lo <= size {
        var s := d[lo..size + 1];
        assert s[..|s| - 1] == d[lo..size] && s[|s| - 1] == d[size];
        assert size == lo ==> d[lo..size] == [];
        assert f == Gear(table, 0, d[lo..size]);
        assert Held(config, table, d, size + 1) == Step(table, f, d[size]);
      }
      if size + 1 < config.maxSize && !Hit(config, table, d, size + 1) {
        CutFrom(config, table, d, size + 1);
      }
    }
  }

  /** A chunk ends at the first boundary at or after the minimum, at the maximum, or with the data. */
  lemma CutIsFirstBoundary(config: ChunkingConfig, table: Table, d: ByteString)
    requires config.Valid()
    ensures var n := Cut(config, table, d, 0, 0);
            && n <= config.maxSize
            && (n == |d| || n == config.maxSize || Hit(config, table, d, n))
            && (forall k: nat | k < n :: !Hit(config, table, d, k))
            && (n < |d| ==> config.minSize <= n)
  {
    CutFrom(config, table, d, 0);
  }

  lemma {:induction false} ChunksConcatenateToInput(config: ChunkingConfig, table: Table, d: ByteString)
    requires config.Valid()
    ensures Flatten(Chunks(config, table, d)) == d
    decreases |d|
  {
    if d != [] {
      var n := Cut(config, table, d, 0, 0);
      ChunksConcatenateToInput(config, table, d[n..]);
      assert d == d[..n] + d[n..];
    }
  }

  /** Every chunk is within the maximum and not empty; only the last may be below the minimum. */
  predicate WellSized(config: ChunkingConfig, cs: seq<ByteString>) {
    && (forall c | c in cs :: 1 <= |c| <= config.maxSize)
    && (forall i | 0 <= i < |cs| - 1 :: config.minSize <= |cs[i]|)
  }

  lemma {:induction false} ChunkSizes(config: ChunkingConfig, table: Table, d: ByteString)
    requires config.Valid()
    ensures WellSized(config, Chunks(config, table, d))
    decreases |d|
  {
    if d != [] {
      var n := Cut(config, table, d, 0, 0);
      var tail := Chunks(config, table, d[n..]);
      CutIsFirstBoundary(config, table, d);
      ChunkSizes(config, table, d[n..]);
      assert WellSized(config, [d[..n]] + tail);
    }
  }

  // ----- Masking and locality

  function Log2(n: nat): nat
    requires PowerOfTwo(n)
  {
    if n == 1 then 0 else 1 + Log2(n / 2)
  }

  lemma {:induction false} WordTable(n: nat)
    requires PowerOfTwo(n) && n <= MAX_CHUNK_SIZE
    ensures (n, Log2(n), Word(n)) in {
            (1, 0, 1), (2, 1, 2), (4, 2, 4), (8, 3, 8), (16, 4, 16),
            (32, 5, 32), (64, 6, 64), (128, 7, 128), (256, 8, 256), (512, 9, 512),
            (1024, 10, 1024), (2048, 11, 2048), (4096, 12, 4096), (8192, 13, 8192), (16384, 14, 16384),
            (32768, 15, 32768), (65536, 16, 65536), (131072, 17, 131072), (262144, 18, 262144), (524288, 19, 524288),
            (1048576, 20, 1048576), (2097152, 21, 2097152), (4194304, 22, 4194304), (8388608, 23, 8388608), (16777216, 24, 16777216)}
  {
    if n > 1 {
      WordTable(n / 2);
    }
  }

  /** A run of low one bits: if a bit is set, so is the bit below it. */
  predicate LowBits(m: bv64) {
    m & (m >> 1) == m >> 1
  }

  /** Masking with `n - 1` is reduction modulo `n`, for every average size there is. */
  lemma ModuloConstants(f: bv64)
    ensures f % 64 == f & 63 && LowBits(63)
    ensures f % 128 == f & 127 && LowBits(127)
    ensures f % 256 == f & 255 && LowBits(255)
    ensures f % 512 == f & 511 && LowBits(511)
    ensures f % 1024 == f & 1023 && LowBits(1023)
    ensures f % 2048 == f & 2047 && LowBits(2047)
    ensures f % 4096 == f & 4095 && LowBits(4095)
    ensures f % 8192 == f & 8191 && LowBits(8191)
    ensures f % 16384 == f & 16383 && LowBits(16383)
    ensures f % 32768 == f & 32767 && LowBits(32767)
    ensures f % 65536 == f & 65535 && LowBits(65535)
    ensures f % 131072 == f & 131071 && LowBits(131071)
    ensures f % 262144 == f & 262143 && LowBits(262143)
    ensures f % 524288 == f & 524287 && LowBits(524287)
    ensures f % 1048576 == f & 1048575 && LowBits(1048575)
    ensures f % 2097152 == f & 2097151 && LowBits(2097151)
    ensures f % 4194304 == f & 4194303 && LowBits(4194303)
    ensures f % 8388608 == f & 8388607 && LowBits(8388607)
    ensures f % 16777216 == f & 16777215 && LowBits(16777215)
  {
  }

  lemma MaskTable(config: ChunkingConfig)
    requires config.Valid()
    ensures (config.avgSize, Log2(config.avgSize), config.BoundaryMask()) in {
            (64, 6, 63), (128, 7, 127), (256, 8, 255), (512, 9, 511), (1024, 10, 1023),
            (2048, 11, 2047), (4096, 12, 4095), (8192, 13, 8191), (16384, 14, 16383), (32768, 15, 32767),
            (65536, 16, 65535), (131072, 17, 131071), (262144, 18, 262143), (524288, 19, 524287), (1048576, 20, 1048575),
            (2097152, 21, 2097151), (4194304, 22, 4194303), (8388608, 23, 8388607), (16777216, 24, 16777215)}
  {
    WordTable(config.avgSize);
  }

  lemma MaskBits(config: ChunkingConfig)
    requires config.Valid()
    ensures BitsBelow(config.BoundaryMask(), Log2(config.avgSize))
  {
    MaskTable(config);
    BitsBelowConstants();
  }

  lemma MaskIsLowBits(config: ChunkingConfig)
    requires config.Valid()
    ensures LowBits(config.BoundaryMask())
  {
    MaskTable(config);
    ModuloConstants(0);
  }

  /** One masked step computes the masked value of the unmasked step. */
  lemma MaskedStep(f: bv64, t: bv64, m: bv64)
    requires LowBits(m)
    ensures (((f & m) << 1) ^ (t & m)) & m == ((f << 1) ^ t) & m
  {
  }

  /** All bits of `m` lie below position `n`. */
  predicate BitsBelow(m: bv64, n: nat) {
    if n == 0 then m == 0 else BitsBelow(m >> 1, n - 1)
  }

  lemma BitsBelowConstants()
    ensures BitsBelow(0, 0)
    ensures BitsBelow(1, 1)
    ensures BitsBelow(3, 2)
    ensures BitsBelow(7, 3)
    ensures BitsBelow(15, 4)
    ensures BitsBelow(31, 5)
    ensures BitsBelow(63, 6)
    ensures BitsBelow(127, 7)
    ensures BitsBelow(255, 8)
    ensures BitsBelow(511, 9)
    ensures BitsBelow(1023, 10)
    ensures BitsBelow(2047, 11)
    ensures BitsBelow(4095, 12)
    ensures BitsBelow(8191, 13)
    ensures BitsBelow(16383, 14)
    ensures BitsBelow(32767, 15)
    ensures BitsBelow(65535, 16)
    ensures BitsBelow(131071, 17)
    ensures BitsBelow(262143, 18)
    ensures BitsBelow(524287, 19)
    ensures BitsBelow(1048575, 20)
    ensures BitsBelow(2097151, 21)
    ensures BitsBelow(4194303, 22)
    ensures BitsBelow(8388607, 23)
    ensures BitsBelow(16777215, 24)
  {
  }

  predicate Agree(x: bv64, y: bv64, m: bv64) {
    Masked(x, m) == Masked(y, m)
  }

  lemma AgreeOnBoundary(config: ChunkingConfig, x: bv64, y: bv64)
    requires config.Valid() && Agree(x, y, config.BoundaryMask())
    ensures IsBoundary(config, x) <==> IsBoundary(config, y)
  {
    hide Masked, Word;
  }

  lemma StepForgets(table: Table, x: bv64, y: bv64, b: Byte, m: bv64)
    requires Agree(x, y, m >> 1)
    ensures Agree(Step(table, x, b), Step(table, y, b), m)
  {
  }

  /** After `|s|` steps the low `|s|` bits no longer depend on the starting fingerprint. */
  lemma {:induction false} GearForgets(table: Table, f: bv64, g: bv64, s: ByteString, m: bv64)
    requires BitsBelow(m, |s|)
    ensures Agree(Gear(table, f, s), Gear(table, g, s), m)
    decreases |s|
  {
    if s != [] {
      var s', b := s[..|s| - 1], s[|s| - 1];
      GearForgets(table, f, g, s', m >> 1);
      StepForgets(table, Gear(table, f, s'), Gear(table, g, s'), b, m);
    }
  }

  lemma {:induction false} GearAppend(table: Table, f: bv64, s: ByteString, t: ByteString)
    ensures Gear(table, f, s + t) == Gear(table, Gear(table, f, s), t)
    decreases |t|
  {
    if t == [] {
      assert s + t == s;
    } else {
      assert (s + t)[..|s + t| - 1] == s + t[..|t| - 1];
      GearAppend(table, f, s, t[..|t| - 1]);
    }
  }

  /** Once log2(avgSize) bytes have been scanned, only the last log2(avgSize) decide a boundary. */
  lemma BoundaryIsLocal(config: ChunkingConfig, table: Table, u: ByteString, v: ByteString)
    requires config.Valid()
    requires Log2(config.avgSize) <= |u| && Log2(config.avgSize) <= |v|
    requires u[|u| - Log2(config.avgSize)..] == v[|v| - Log2(config.avgSize)..]
    ensures IsBoundary(config, Gear(table, 0, u)) <==> IsBoundary(config, Gear(table, 0, v))
  {
    var k := Log2(config.avgSize);
    var i, j, window := |u| - k, |v| - k, u[|u| - k..];
    assert u == u[..i] + window && v == v[..j] + window;
    GearAppend(table, 0, u[..i], window);
    GearAppend(table, 0, v[..j], window);
    MaskBits(config);
    GearForgets(table, Gear(table, 0, u[..i]), Gear(table, 0, v[..j]), window, config.BoundaryMask());
    AgreeOnBoundary(config, Gear(table, 0, u), Gear(table, 0, v));
  }

  // ----- The fingerprint's value

  /** Byte `i` of `s` contributes its table entry, shifted left by its distance from the end. */
  function Contributions(table: Table, s: ByteString): (r: seq<bv64>)
    ensures |r| == |s| && forall i | 0 <= i < |s| :: r[i] == Shifted(table[s[i]], |s| - 1 - i)
  {
    seq(|s|, i requires 0 <= i < |s| => Shifted(table[s[i]], |s| - 1 - i))
  }

  /**
   * The Gear fingerprint of `s` is the exclusive or of its bytes' table entries, each shifted left by its
   * distance from the end; bytes more than 63 from the end contribute nothing.
   */
  lemma {:induction false} GearIsExclusiveOr(table: Table, s: ByteString)
    ensures Gear(table, 0, s) == ExclusiveOr(Contributions(table, s))
    ensures forall i | 0 <= i < |s| - 64 :: Contributions(table, s)[i] == 0
    decreases |s|
  {
    hide Contributions, Shifted, Doubled, Once, Xor, Step;
    forall i | 0 <= i < |s| - 64
      ensures Contributions(table, s)[i] == 0
    {
      ShiftedOut(table[s[i]], |s| - 1 - i);
    }
    if s != [] {
      var n := |s| - 1;
      var before := Contributions(table, s[..n]);
      GearIsExclusiveOr(table, s[..n]);
      ExclusiveOrDoubles(before);
      OneMoreByte(table, s);
      StepIsXor(table, Gear(table, 0, s[..n]), s[n]);
    }
  }

  lemma StepIsXor(table: Table, f: bv64, b: Byte)
    ensures Step(table, f, b) == Xor(Once(f), table[b])
  {
    hide Once, Xor;
    ShiftedXor(f, table[b]);
  }

  lemma OneMoreByte(table: Table, s: ByteString)
    requires s != []
    ensures var n := |s| - 1;
            && Contributions(table, s)[..n] == Doubled(Contributions(table, s[..n]))
            && Contributions(table, s)[n] == table[s[n]]
  {
    hide Once;
    var n := |s| - 1;
    forall i: nat | i < n
      ensures Contributions(table, s)[i] == Doubled(Contributions(table, s[..n]))[i]
    {
      OneShiftMore(table[s[i]], n - 1 - i);
    }
  }

  lemma OneShiftMore(w: bv64, k: nat)
    ensures Shifted(w, k + 1) == Once(Shifted(w, k))
  {
    hide Once;
  }

  /** A fingerprint ends a chunk exactly if it is a multiple of the average size, whichever of these that is. */
  lemma BoundaryIsMultiple(config: ChunkingConfig, f: bv64)
    requires config.Valid()
    ensures config.avgSize == 64 ==> (IsBoundary(config, f) <==> f % 64 == 0)
    ensures config.avgSize == 128 ==> (IsBoundary(config, f) <==> f % 128 == 0)
    ensures config.avgSize == 256 ==> (IsBoundary(config, f) <==> f % 256 == 0)
    ensures config.avgSize == 512 ==> (IsBoundary(config, f) <==> f % 512 == 0)
    ensures config.avgSize == 1024 ==> (IsBoundary(config, f) <==> f % 1024 == 0)
    ensures config.avgSize == 2048 ==> (IsBoundary(config, f) <==> f % 2048 == 0)
    ensures config.avgSize == 4096 ==> (IsBoundary(config, f) <==> f % 4096 == 0)
    ensures config.avgSize == 8192 ==> (IsBoundary(config, f) <==> f % 8192 == 0)
    ensures config.avgSize == 16384 ==> (IsBoundary(config, f) <==> f % 16384 == 0)
    ensures config.avgSize == 32768 ==> (IsBoundary(config, f) <==> f % 32768 == 0)
    ensures config.avgSize == 65536 ==> (IsBoundary(config, f) <==> f % 65536 == 0)
    ensures config.avgSize == 131072 ==> (IsBoundary(config, f) <==> f % 131072 == 0)
    ensures config.avgSize == 262144 ==> (IsBoundary(config, f) <==> f % 262144 == 0)
    ensures config.avgSize == 524288 ==> (IsBoundary(config, f) <==> f % 524288 == 0)
    ensures config.avgSize == 1048576 ==> (IsBoundary(config, f) <==> f % 1048576 == 0)
    ensures config.avgSize == 2097152 ==> (IsBoundary(config, f) <==> f % 2097152 == 0)
    ensures config.avgSize == 4194304 ==> (IsBoundary(config, f) <==> f % 4194304 == 0)
    ensures config.avgSize == 8388608 ==> (IsBoundary(config, f) <==> f % 8388608 == 0)
    ensures config.avgSize == 16777216 ==> (IsBoundary(config, f) <==> f % 16777216 == 0)
    ensures config.avgSize in {
              64, 128, 256, 512, 1024, 2048, 4096, 8192, 16384, 32768, 65536, 131072, 262144, 524288, 1048576, 2097152,
              4194304, 8388608, 16777216}
  {
    hide Word;
    MaskTable(config);
    ModuloConstants(f);
  }

  /** A chunk may end after `k` bytes exactly if the value of those from the last skipped byte on is a boundary. */
  lemma HitIsBoundaryValue(config: ChunkingConfig, table: Table, d: ByteString, k: nat)
    requires config.Valid()
    ensures Hit(config, table, d, k)
            <==> && config.minSize <= k <= |d|
                 && IsBoundary(config, ExclusiveOr(Contributions(table, d[config.minSize - 1..k])))
  {
    hide Gear, ExclusiveOr, Contributions, IsBoundary;
    if config.minSize <= k <= |d| {
      GearIsExclusiveOr(table, d[config.minSize - 1..k]);
    }
  }

  // ----- Recovery after an insertion or deletion

  /** If some cut falls between `a` and `s`, the chunks from there on are those of `s` alone. */
  lemma {:induction false} CutsForgetThePast(
      config: ChunkingConfig, table: Table, a: ByteString, s: ByteString, n: nat)
    requires config.Valid()
    requires n <= |Chunks(config, table, a + s)| && Flatten(Chunks(config, table, a + s)[..n]) == a
    ensures Chunks(config, table, a + s)[n..] == Chunks(config, table, s)
    decreases n
  {
    var cs := Chunks(config, table, a + s);
    if n == 0 {
      assert a + s == s;
    } else {
      var c := cs[0];
      assert cs[..n] == [c] + cs[1..][..n - 1];
      var a' := Flatten(cs[1..][..n - 1]);
      assert (a + s)[|c|..] == a' + s;
      CutsForgetThePast(config, table, a', s, n - 1);
    }
  }

  /** Two inputs that both cut just before a common suffix have identical chunks from there on. */
  lemma ChunksResynchronize(
      config: ChunkingConfig, table: Table, a: ByteString, b: ByteString, s: ByteString, n: nat, m: nat)
    requires config.Valid()
    requires n <= |Chunks(config, table, a + s)| && Flatten(Chunks(config, table, a + s)[..n]) == a
    requires m <= |Chunks(config, table, b + s)| && Flatten(Chunks(config, table, b + s)[..m]) == b
    ensures Chunks(config, table, a + s)[n..] == Chunks(config, table, b + s)[m..]
  {
    CutsForgetThePast(config, table, a, s, n);
    CutsForgetThePast(config, table, b, s, m);
  }

  // ----- The streaming splitter

  function MaskedTable(table: Table, mask: bv64): Table {
    seq(256, i requires 0 <= i < 256 => table[i] & mask)
  }

  lemma {:induction false} CutSkips(
      config: ChunkingConfig, table: Table, d: ByteString, size: nat, skip: nat, f: bv64)
    requires config.Valid() && size + skip <= |d|
    requires skip == 0 || size + skip < config.minSize
    ensures Cut(config, table, d, size, f) == Cut(config, table, d, size + skip, f)
    decreases skip
  {
    if skip > 0 {
      CutSkips(config, table, d, size + 1, skip - 1, f);
    }
  }

  /**
   * The streaming splitter agrees with the reference: `cs` have been cut from the front of the input,
   * `d` is what follows them, `size` bytes of the next chunk have been read, and the reference
   * splitter would hold a fingerprint whose masked value is `fingerprint`.
   */
  ghost predicate Scanning(
      config: ChunkingConfig, table: Table, all: ByteString, cs: seq<ByteString>,
      d: ByteString, size: nat, full: bv64, fingerprint: bv64)
    requires config.Valid()
  {
    && size <= |d| && size < config.maxSize
    && Chunks(config, table, all) == cs + Chunks(config, table, d)
    && Cut(config, table, d, 0, 0) == Cut(config, table, d, size, full)
    && fingerprint == Masked(full, config.BoundaryMask())
  }

  /** The next fingerprint as the streaming loop computes it, from masked values only. */
  function NextFingerprint(fingerprint: bv64, entry: bv64, mask: bv64): bv64 {
    ((fingerprint << 1) ^ entry) & mask
  }

  lemma NextFingerprintIsMasked(config: ChunkingConfig, table: Table, full: bv64, fingerprint: bv64, b: Byte)
    requires config.Valid() && fingerprint == Masked(full, config.BoundaryMask())
    ensures var mask := config.BoundaryMask();
            NextFingerprint(fingerprint, MaskedTable(table, mask)[b], mask) == Masked(Step(table, full, b), mask)
  {
    MaskIsLowBits(config);
    MaskedStep(full, table[b], config.BoundaryMask());
  }

  /** The innermost loop: hash `block[position..scanEnd]` until a fingerprint is zero. */
  method FindBoundary(
      config: ChunkingConfig, table: Table, masked: Table, block: ByteString, position: nat, scanEnd: nat,
      start: bv64, ghost d: ByteString, ghost size: nat, ghost fullStart: bv64)
    returns (boundaryOffset: int, fingerprint: bv64, ghost full: bv64)
    requires config.Valid() && masked == MaskedTable(table, config.BoundaryMask())
    requires position < scanEnd <= |block| && config.minSize - 1 <= size
    requires size + scanEnd - position <= config.maxSize
    requires size + scanEnd - position <= |d| && d[size..size + scanEnd - position] == block[position..scanEnd]
    requires start == Masked(fullStart, config.BoundaryMask())
    ensures boundaryOffset == -1 || position <= boundaryOffset < scanEnd
    ensures boundaryOffset != -1 ==>
              Cut(config, table, d, size, fullStart) == size + boundaryOffset - position + 1
    ensures boundaryOffset == -1 && size + scanEnd - position == config.maxSize ==>
              Cut(config, table, d, size, fullStart) == config.maxSize
    ensures boundaryOffset == -1 && size + scanEnd - position < config.maxSize ==>
              && Cut(config, table, d, size, fullStart) == Cut(config, table, d, size + scanEnd - position, full)
              && fingerprint == Masked(full, config.BoundaryMask())
  {
    hide Masked, Word, Step, NextFingerprint;
    var mask := config.BoundaryMask();
    boundaryOffset, fingerprint, full := -1, start, fullStart;
    var offset := position;
    while offset < scanEnd
      invariant position <= offset <= scanEnd
      invariant fingerprint == Masked(full, mask)
      invariant Cut(config, table, d, size, fullStart) ==
        if size + offset - position == config.maxSize then config.maxSize
        else Cut(config, table, d, size + offset - position, full)
    {
      var byte := block[offset];
      assert byte == block[position..scanEnd][offset - position];
      assert d[size + offset - position] == byte;
      NextFingerprintIsMasked(config, table, full, fingerprint, byte);
      fingerprint := NextFingerprint(fingerprint, masked[byte], mask);
      full := Step(table, full, byte);
      if fingerprint == 0 {
        boundaryOffset := offset;
        return;
      }
      offset := offset + 1;
    }
  }

  /**
   * The loop over one block. `chunk[emittedSize..]` is the input not yet returned, of which `chunkSize`
   * bytes have been scanned and the last `|block| - position` have not.
   */
  method SplitBlock(
      config: ChunkingConfig, table: Table, masked: Table, chunk: ByteString, block: ByteString, pending: nat,
      start: bv64, sofar: seq<ByteString>, ghost all: ByteString, ghost tail: ByteString, ghost fullStart: bv64)
    returns (chunks: seq<ByteString>, emittedSize: nat, chunkSize: nat, fingerprint: bv64, ghost full: bv64)
    requires config.Valid() && masked == MaskedTable(table, config.BoundaryMask())
    requires |chunk| == pending + |block| && chunk[pending..] == block
    requires Scanning(config, table, all, sofar, chunk + tail, pending, fullStart, start)
    ensures emittedSize + chunkSize == |chunk|
    ensures Scanning(config, table, all, chunks, chunk[emittedSize..] + tail, chunkSize, full, fingerprint)
  {
    hide Masked, Word, Step, NextFingerprint, MaskedTable, Cut, Chunks;
    var position := 0;
    chunks, emittedSize, chunkSize, fingerprint, full := sofar, 0, pending, start, fullStart;
    while position < |block|
      invariant 0 <= position <= |block|
      invariant emittedSize + chunkSize + |block| - position == |chunk|
      invariant Scanning(config, table, all, chunks, chunk[emittedSize..] + tail, chunkSize, full, fingerprint)
    {
      ghost var d := chunk[emittedSize..] + tail;
      var skip := Min(Max(0, config.minSize - 1 - chunkSize), |block| - position);
      CutSkips(config, table, d, chunkSize, skip, full);
      chunkSize, position := chunkSize + skip, position + skip;
      if position >= |block| {
        break;
      }
      var scanEnd := Min(|block|, position + config.maxSize - chunkSize);
      SameBytes(chunk, tail, block, emittedSize, chunkSize, position, scanEnd);
      var boundaryOffset;
      boundaryOffset, fingerprint, full := FindBoundary(
        config, table, masked, block, position, scanEnd, fingerprint, d, chunkSize, full);
      if boundaryOffset == -1 {
        chunkSize, position := chunkSize + scanEnd - position, scanEnd;
        if chunkSize < config.maxSize {
          continue;
        }
      } else {
        chunkSize, position := chunkSize + boundaryOffset - position + 1, boundaryOffset + 1;
      }
      var currentEnd := emittedSize + chunkSize;
      NextChunk(config, table, all, chunks, d, chunkSize);
      SliceOff(chunk, tail, emittedSize, chunkSize);
      chunks := chunks + [chunk[emittedSize..currentEnd]];
      emittedSize, chunkSize, fingerprint, full := currentEnd, 0, 0, 0;
    }
  }

  lemma SameBytes(
      chunk: ByteString, tail: ByteString, block: ByteString, emitted: nat, size: nat, position: nat, end: nat)
    requires position <= end <= |block| <= |chunk| && chunk[|chunk| - |block|..] == block
    requires emitted + size + |block| - position == |chunk|
    ensures size + end - position <= |chunk[emitted..] + tail|
    ensures (chunk[emitted..] + tail)[size..size + end - position] == block[position..end]
  {
    var n, lo := end - position, emitted + size;
    assert (chunk[emitted..] + tail)[size..size + n] == chunk[lo..lo + n];
    assert block[position..end] == chunk[lo..lo + n];
  }

  lemma SliceOff(chunk: ByteString, tail: ByteString, emitted: nat, size: nat)
    requires emitted + size <= |chunk|
    ensures (chunk[emitted..] + tail)[..size] == chunk[emitted..emitted + size]
    ensures (chunk[emitted..] + tail)[size..] == chunk[emitted + size..] + tail
  {
  }

  method IterContentDefinedChunks(config: ChunkingConfig, table: Table, blocks: seq<ByteString>)
    returns (chunks: seq<ByteString>)
    requires config.Valid()
    requires forall b | b in blocks :: b != []
    ensures chunks == Chunks(config, table, Flatten(blocks))
  {
    hide Masked, Word, Step, MaskedTable, Cut, Chunks;
    var masked := MaskedTable(table, config.BoundaryMask());
    var chunk: ByteString := [];
    var chunkSize: nat, fingerprint: bv64 := 0, 0;
    chunks := [];
    ghost var all, full: bv64 := Flatten(blocks), 0;
    assert blocks[0..] == blocks && [] + all == all;
    MaskedZero(config);
    for i := 0 to |blocks|
      invariant chunkSize == |chunk|
      invariant Scanning(config, table, all, chunks, chunk + Flatten(blocks[i..]), chunkSize, full, fingerprint)
    {
      ghost var tail := Flatten(blocks[i + 1..]);
      assert blocks[i..] == [blocks[i]] + blocks[i + 1..];
      assert chunk + Flatten(blocks[i..]) == (chunk + blocks[i]) + tail;
      chunk := chunk + blocks[i];
      var emittedSize;
      chunks, emittedSize, chunkSize, fingerprint, full := SplitBlock(
        config, table, masked, chunk, blocks[i], chunkSize, fingerprint, chunks, all, tail, full);
      chunk := chunk[emittedSize..];
    }
    assert chunk + Flatten(blocks[|blocks|..]) == chunk;
    if chunk != [] {
      NextChunk(config, table, all, chunks, chunk, |chunk|);
      assert chunk[..|chunk|] == chunk && chunk[|chunk|..] == [];
      chunks := chunks + [chunk];
    }
    ChunksOfNothing(config, table);
  }

  lemma ChunksOfNothing(config: ChunkingConfig, table: Table)
    requires config.Valid()
    ensures Chunks(config, table, []) == []
  {
  }

  lemma MaskedZero(config: ChunkingConfig)
    requires config.Valid()
    ensures Masked(0, config.BoundaryMask()) == 0
  {
    hide Word;
  }

  lemma NextChunk(
      config: ChunkingConfig, table: Table, all: ByteString, cs: seq<ByteString>, d: ByteString, n: nat)
    requires config.Valid() && d != [] && Cut(config, table, d, 0, 0) == n
    requires Chunks(config, table, all) == cs + Chunks(config, table, d)
    ensures Scanning(config, table, all, cs + [d[..n]], d[n..], 0, 0, 0)
  {
    assert Chunks(config, table, d) == [d[..n]] + Chunks(config, table, d[n..]);
    MaskedZero(config);
  }

  function Min(a: int, b: int): int {
    if a < b then a else b
  }

  function Max(a: int, b: int): int {
    if a < b then b else a
  }
}
