/** The fifteen sample windows of a large chunk. */
module SampleWindows {
  import opened Padding

  const WINDOWS := 15
  const WINDOW_BYTES := 277
  const EXACT_LIMIT := 8192
  const GOLDEN_STEP := 0x9E3779B97F4A7C15
  const WORD := 0x1_0000_0000_0000_0000

  /** Where region `i` of a chunk of `size` bytes begins. */
  function RegionStart(size: nat, i: nat): nat {
    i * size / WINDOWS
  }

  /** Every region of a chunk that is sampled at all has room for a window. */
  lemma RegionHasRoom(size: nat, i: nat)
    requires size >= WINDOWS * WINDOW_BYTES
    ensures RegionStart(size, i) + WINDOW_BYTES <= RegionStart(size, i + 1)
  {
    assert (i + 1) * size == i * size + size;
  }

  /** The seed's sequence after `n` steps. */
  function State(seed: nat, n: nat): nat {
    (seed + n * GOLDEN_STEP) % WORD
  }

  lemma NextState(seed: nat, n: nat)
    ensures (State(seed, n) + GOLDEN_STEP) % WORD == State(seed, n + 1)
  {
    var sum := seed + n * GOLDEN_STEP;
    var next := sum % WORD + GOLDEN_STEP;
    assert sum + GOLDEN_STEP == (sum / WORD + next / WORD) * WORD + next % WORD;
    QuotientIsUnique(sum + GOLDEN_STEP, WORD, sum / WORD + next / WORD, next % WORD);
    OneMoreTimes(n, GOLDEN_STEP);
  }

  /** In its region, window `i` starts at a place that step `i + 1` of the seed's sequence chooses. */
  function Start(seed: nat, size: nat, i: nat): (start: nat)
    requires size >= WINDOWS * WINDOW_BYTES
    ensures RegionStart(size, i) <= start <= RegionStart(size, i + 1) - WINDOW_BYTES
  {
    RegionHasRoom(size, i);
    RegionStart(size, i) + State(seed, i + 1) % (RegionStart(size, i + 1) - RegionStart(size, i) - WINDOW_BYTES + 1)
  }

  /** The windows are those the seed gives; they lie within the chunk and never overlap, whatever the seed. */
  method DeltaSampleWindowStarts(seed: nat, size: nat) returns (starts: seq<nat>)
    requires seed < WORD && size - 4 > EXACT_LIMIT
    ensures |starts| == WINDOWS && forall i | 0 <= i < WINDOWS :: starts[i] == Start(seed, size, i)
    ensures forall i | 0 <= i < WINDOWS :: starts[i] + WINDOW_BYTES <= size
    ensures forall i | 0 < i < WINDOWS :: starts[i - 1] + WINDOW_BYTES <= starts[i]
  {
    var state := seed;
    starts := [];
    assert State(seed, 0) == seed;
    for index := 0 to WINDOWS
      invariant |starts| == index && state == State(seed, index)
      invariant forall i | 0 <= i < index :: starts[i] == Start(seed, size, i)
    {
      RegionHasRoom(size, index);
      NextState(seed, index);
      var regionStart, regionEnd := RegionStart(size, index), RegionStart(size, index + 1);
      var available := regionEnd - regionStart - WINDOW_BYTES + 1;
      state := (state + GOLDEN_STEP) % WORD;
      starts := starts + [regionStart + state % available];
    }
    hide State, RegionStart;
    forall i: nat | i < WINDOWS
      ensures starts[i] + WINDOW_BYTES <= size
      ensures i > 0 ==> starts[i - 1] + WINDOW_BYTES <= starts[i]
    {
      RegionIsInside(size, i + 1);
      assert i > 0 ==> starts[i - 1] == Start(seed, size, i - 1);
    }
  }

  lemma RegionIsInside(size: nat, i: nat)
    requires i <= WINDOWS
    ensures RegionStart(size, i) <= size
  {
    assert i * size <= WINDOWS * size;
  }
}
