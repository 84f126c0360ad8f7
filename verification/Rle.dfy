/** Run-length coding with runs of 1 to 255 bytes. */
module Rle {
  import opened Bytes

  const MAX_RUN := 255

  function Repeat(b: Byte, n: nat): (s: ByteString)
    ensures |s| == n && forall i | 0 <= i < n :: s[i] == b
  {
    seq(n, _ => b)
  }

  /** The bytes a payload of (length, byte) pairs stands for; a zero length or half a pair is an error. */
  function Expand(payload: ByteString): Result<ByteString>
    decreases |payload|
  {
    if payload == [] then Ok([])
    else if |payload| == 1 || payload[0] == 0 then Err
    else
      match Expand(payload[2..])
      case Err => Err
      case Ok(rest) => Ok(Repeat(payload[1], payload[0]) + rest)
  }

  /** The longest run at the front of `block`, at least `n` and at most 255 bytes long. */
  function Run(block: ByteString, n: nat): (r: nat)
    requires 1 <= n <= MAX_RUN && n <= |block|
    ensures n <= r <= MAX_RUN && r <= |block|
    ensures r == |block| || r == MAX_RUN || block[r] != block[0]
    ensures forall i | n <= i < r :: block[i] == block[0]
    decreases |block| - n
  {
    if n < |block| && n < MAX_RUN && block[n] == block[0] then Run(block, n + 1) else n
  }

  /** The encoding that always takes the longest run. */
  function Greedy(block: ByteString): (payload: ByteString)
    ensures block == [] ==> payload == []
    decreases |block|
  {
    if block == [] then [] else
    var n := Run(block, 1);
    [n, block[0]] + Greedy(block[n..])
  }

  method Encode(block: ByteString) returns (output: ByteString)
    ensures output == Greedy(block)
  {
    hide Greedy, Run;
    if block == [] {
      return [];
    }
    output := [];
    var runByte, runLength := block[0], 1;
    assert block == Repeat(runByte, runLength) + block[1..];
    for i := 1 to |block|
      invariant 1 <= runLength <= MAX_RUN
      invariant Greedy(block) == output + Greedy(Repeat(runByte, runLength) + block[i..])
    {
      var byte := block[i];
      assert block[i..] == [byte] + block[i + 1..];
      if byte == runByte && runLength < MAX_RUN {
        assert Repeat(runByte, runLength) + block[i..] == Repeat(runByte, runLength + 1) + block[i + 1..];
        runLength := runLength + 1;
        continue;
      }
      GreedyTakesRun(runByte, runLength, block[i..]);
      assert block[i..] == Repeat(byte, 1) + block[i + 1..];
      output := output + [runLength, runByte];
      runByte, runLength := byte, 1;
    }
    GreedyTakesRun(runByte, runLength, []);
    assert Repeat(runByte, runLength) + block[|block|..] == Repeat(runByte, runLength) + [];
    output := output + [runLength, runByte];
  }

  lemma GreedyTakesRun(b: Byte, n: nat, rest: ByteString)
    requires 1 <= n <= MAX_RUN
    requires rest == [] || rest[0] != b || n == MAX_RUN
    ensures Greedy(Repeat(b, n) + rest) == [n, b] + Greedy(rest)
  {
    var s := Repeat(b, n) + rest;
    assert forall i | 0 <= i < n :: s[i] == b;
    assert rest != [] ==> s[n] == rest[0];
    assert Run(s, 1) == n;
    assert s[n..] == rest;
  }

  method Decode(payload: ByteString, expectedSize: nat) returns (r: Result<ByteString>)
    ensures r == match Expand(payload)
                 case Err => Err
                 case Ok(block) => if |block| == expectedSize then Ok(block) else Err
  {
    ExpandOfOdd(payload);
    if |payload| % 2 != 0 {
      return Err;
    }
    var output: ByteString, index := [], 0;
    assert payload[0..] == payload;
    assert match Expand(payload) case Err => true case Ok(rest) => [] + rest == rest;
    while index < |payload|
      invariant 0 <= index <= |payload| && index % 2 == 0 && |output| <= expectedSize
      invariant Expand(payload) ==
        match Expand(payload[index..]) case Err => Err case Ok(rest) => Ok(output + rest)
    {
      var runLength := payload[index];
      assert payload[index..][2..] == payload[index + 2..];
      if runLength == 0 {
        return Err;
      }
      if |output| + runLength > expectedSize {
        return Err;
      }
      ghost var before := output;
      output := output + Repeat(payload[index + 1], runLength);
      assert forall rest :: output + rest == before + (Repeat(payload[index + 1], runLength) + rest);
      index := index + 2;
    }
    assert output + [] == output;
    r := if |output| != expectedSize then Err else Ok(output);
  }

  lemma {:induction false} ExpandOfOdd(payload: ByteString)
    ensures |payload| % 2 != 0 ==> Expand(payload).Err?
    decreases |payload|
  {
    if |payload| >= 2 {
      ExpandOfOdd(payload[2..]);
    }
  }

  lemma ExpandPair(n: Byte, b: Byte, rest: ByteString)
    requires n > 0 && Expand(rest).Ok?
    ensures Expand([n, b] + rest) == Ok(Repeat(b, n) + Expand(rest).value)
  {
    assert ([n, b] + rest)[2..] == rest;
  }

  lemma RunIsRepeat(block: ByteString)
    requires block != []
    ensures block == Repeat(block[0], Run(block, 1)) + block[Run(block, 1)..]
  {
    hide Repeat;
    var n := Run(block, 1);
    hide Run;
    assert block[..n] == Repeat(block[0], n);
  }

  lemma {:induction false} ExpandGreedy(block: ByteString)
    ensures Expand(Greedy(block)) == Ok(block)
    decreases |block|
  {
    if block != [] {
      var n := Run(block, 1);
      ExpandGreedy(block[n..]);
      ExpandPair(n, block[0], Greedy(block[n..]));
      RunIsRepeat(block);
    }
  }

  /** Dropping a first byte never makes the greedy encoding longer. */
  lemma {:induction false} GreedyOfTail(block: ByteString)
    requires block != []
    ensures |Greedy(block[1..])| <= |Greedy(block)|
    decreases |block|
  {
    var n := Run(block, 1);
    if n > 1 {
      var tail := block[1..];
      var m := Run(tail, 1);
      assert forall i | 0 <= i < n - 1 :: tail[i] == block[i + 1] == block[0];
      assert m >= n - 1;
      if m == n - 1 {
        assert tail[m..] == block[n..];
      } else {
        assert n < |block| && tail[n - 1] == block[n];
        assert n == MAX_RUN && m == MAX_RUN;
        GreedyOfTail(block[n..]);
        assert tail[m..] == block[n..][1..];
      }
    }
  }

  lemma {:induction false} GreedyOfSuffix(block: ByteString, n: nat)
    requires n <= |block|
    ensures |Greedy(block[n..])| <= |Greedy(block)|
    decreases n
  {
    if n > 0 {
      GreedyOfTail(block);
      GreedyOfSuffix(block[1..], n - 1);
      assert block[1..][n - 1..] == block[n..];
    } else {
      assert block[0..] == block;
    }
  }

  lemma RunCovers(block: ByteString, k: nat)
    requires 1 <= k <= MAX_RUN && k <= |block|
    requires forall i | 0 <= i < k :: block[i] == block[0]
    ensures k <= Run(block, 1)
  {
  }

  lemma ExpandFront(payload: ByteString)
    requires payload != [] && Expand(payload).Ok?
    ensures |payload| >= 2 && payload[0] >= 1 && Expand(payload[2..]).Ok?
    ensures Expand(payload).value == Repeat(payload[1], payload[0]) + Expand(payload[2..]).value
  {
  }

  lemma ExpandNothing()
    ensures Expand([]) == Ok([])
  {
  }

  lemma GreedyLength(block: ByteString)
    requires block != []
    ensures |Greedy(block)| == 2 + |Greedy(block[Run(block, 1)..])|
  {
    hide Run;
  }

  /** No payload that expands to `block` is shorter than the greedy one. */
  lemma {:induction false} GreedyIsShortest(payload: ByteString, block: ByteString)
    requires Expand(payload) == Ok(block)
    ensures |Greedy(block)| <= |payload|
    decreases |payload|
  {
    hide Expand, Greedy, Run, Repeat;
    if payload == [] {
      ExpandNothing();
    } else {
      ExpandFront(payload);
      var k, rest := payload[0], Expand(payload[2..]).value;
      GreedyIsShortest(payload[2..], rest);
      GreedyLength(block);
      RunCovers(block, k);
      var n := Run(block, 1);
      GreedyOfSuffix(rest, n - k);
      assert rest[n - k..] == block[n..];
    }
  }

  /** Run `k` of a payload: byte `2k` is its length and byte `2k + 1` its value. */
  function RunAt(payload: ByteString, k: nat): ByteString
    requires 2 * k + 1 < |payload|
  {
    Repeat(payload[2 * k + 1], payload[2 * k])
  }

  function RunsOf(payload: ByteString): (r: seq<ByteString>)
    ensures |r| == |payload| / 2 && forall k | 0 <= k < |r| :: r[k] == RunAt(payload, k)
  {
    seq(|payload| / 2, k requires 0 <= k < |payload| / 2 => RunAt(payload, k))
  }

  predicate NoEmptyRun(payload: ByteString) {
    forall k | 0 <= k < |payload| / 2 :: RunAt(payload, k) != []
  }

  lemma RunsOfPairs(payload: ByteString)
    requires |payload| > 1
    ensures RunsOf(payload) == [Repeat(payload[1], payload[0])] + RunsOf(payload[2..])
  {
    var later := payload[2..];
    assert RunAt(payload, 0) == Repeat(payload[1], payload[0]);
    forall k | 0 <= k < |later| / 2
      ensures RunAt(later, k) == RunAt(payload, k + 1)
    {
    }
    hide RunAt, Repeat;
  }

  lemma NoEmptyRunOfPairs(payload: ByteString)
    requires |payload| > 1
    ensures NoEmptyRun(payload) <==> payload[0] > 0 && NoEmptyRun(payload[2..])
  {
    assert RunAt(payload, 0) == Repeat(payload[1], payload[0]);
    RunsOfPairs(payload);
    var runs, later := RunsOf(payload), RunsOf(payload[2..]);
    hide RunAt, RunsOf;
    assert NoEmptyRun(payload) <==> forall k | 0 <= k < |runs| :: runs[k] != [];
    assert NoEmptyRun(payload[2..]) <==> forall k | 0 <= k < |later| :: later[k] != [];
    assert forall k | 0 <= k < |later| :: runs[k + 1] == later[k];
  }

  /** A payload stands for its runs one after another, none of them empty. */
  lemma {:induction false} ExpandIsRuns(payload: ByteString)
    ensures Expand(payload).Ok? <==> |payload| % 2 == 0 && NoEmptyRun(payload)
    ensures Expand(payload).Ok? ==> Expand(payload).value == Flatten(RunsOf(payload))
    decreases |payload|
  {
    if |payload| > 1 {
      ExpandIsRuns(payload[2..]);
      RunsOfPairs(payload);
      NoEmptyRunOfPairs(payload);
      hide NoEmptyRun, RunsOf, Repeat;
    }
  }
}
