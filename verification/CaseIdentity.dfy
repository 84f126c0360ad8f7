/** Identity bytes of a measured case, and the indices sampled from the stream they seed. */
module CaseIdentity {
  import opened Bytes
  import opened Padding

  const MAX_FIELD := 0xFFFF_FFFF
  const UINT64_RANGE := 0x1_0000_0000_0000_0000
  const WORD_BYTES := 8
  const WORDS_PER_BLOCK := 4

  // ----- Length-prefixed identities

  predicate FieldsFit(fields: seq<ByteString>) {
    forall f | f in fields :: |f| <= MAX_FIELD
  }

  function Encode(fields: seq<ByteString>): ByteString {
    if fields == [] then [] else BigEndian(|fields[0]|, 4) + fields[0] + Encode(fields[1..])
  }

  /** Reads fields until the text ends. */
  function Decode(d: ByteString): Result<seq<ByteString>>
    decreases |d|
  {
    if d == [] then Ok([]) else
    match TakeUint(d, 4)
    case Malformed => Err
    case Parsed(size, d') =>
      match TakeBytes(d', size)
      case Malformed => Err
      case Parsed(field, rest) =>
        match Decode(rest)
        case Err => Err
        case Ok(fields) => Ok([field] + fields)
  }

  lemma DecodeOneField(field: ByteString, later: ByteString)
    requires |field| <= MAX_FIELD
    ensures Decode(BigEndian(|field|, 4) + field + later)
            == match Decode(later) case Err => Err case Ok(fields) => Ok([field] + fields)
  {
    hide TakeUint, TakeBytes, BigEndian, Pow256;
    var prefix := BigEndian(|field|, 4);
    var d := prefix + field + later;
    FieldWidth();
    assert d == prefix + (field + later);
    TakeUintExact(d, 4, |field|, field + later);
    TakeBytesExact(field + later, |field|, field, later);
  }

  lemma {:induction false} DecodeEncode(fields: seq<ByteString>)
    requires FieldsFit(fields)
    ensures Decode(Encode(fields)) == Ok(fields)
    decreases |fields|
  {
    hide BigEndian, Decode;
    if fields == [] {
      NothingDecodes();
    } else {
      DecodeEncode(fields[1..]);
      DecodeOneField(fields[0], Encode(fields[1..]));
      assert fields == [fields[0]] + fields[1..];
    }
  }

  lemma NothingDecodes()
    ensures Decode([]) == Ok([])
  {
  }

  lemma FieldWidth()
    ensures Pow256(4) == MAX_FIELD + 1
  {
  }

  /** Two identities with the same bytes have the same domain and the same fields. */
  lemma IdentityIsInjective(domain: ByteString, fields: seq<ByteString>, domain': ByteString, fields': seq<ByteString>)
    requires FieldsFit([domain] + fields) && FieldsFit([domain'] + fields')
    ensures Encode([domain] + fields) == Encode([domain'] + fields') ==> domain == domain' && fields == fields'
  {
    hide Encode, Decode;
    DecodeEncode([domain] + fields);
    DecodeEncode([domain'] + fields');
    assert ([domain] + fields)[0] == domain && ([domain'] + fields')[0] == domain';
    assert ([domain] + fields)[1..] == fields && ([domain'] + fields')[1..] == fields';
  }

  method LengthPrefixedIdentity(domain: ByteString, fields: seq<ByteString>) returns (r: Result<ByteString>)
    ensures r == if FieldsFit([domain] + fields) then Ok(Encode([domain] + fields)) else Err
  {
    hide Encode, BigEndian;
    var values, encoded: ByteString := [domain] + fields, [];
    NothingEncoded(values);
    for i := 0 to |values|
      invariant encoded + Encode(values[i..]) == Encode(values)
      invariant forall j | 0 <= j < i :: |values[j]| <= MAX_FIELD
    {
      var field := values[i];
      if |field| > MAX_FIELD {
        assert field in values;
        return Err;
      }
      OneFieldMore(encoded, values, i);
      encoded := encoded + BigEndian(|field|, 4) + field;
    }
    AllEncoded(encoded, values);
    r := Ok(encoded);
  }

  lemma OneFieldMore(encoded: ByteString, values: seq<ByteString>, i: nat)
    requires i < |values|
    ensures encoded + Encode(values[i..])
            == (encoded + BigEndian(|values[i]|, 4) + values[i]) + Encode(values[i + 1..])
  {
    hide BigEndian;
    var prefix, later := BigEndian(|values[i]|, 4), Encode(values[i + 1..]);
    assert values[i..][0] == values[i] && values[i..][1..] == values[i + 1..];
    assert encoded + (prefix + values[i] + later) == (encoded + prefix + values[i]) + later;
  }

  lemma AllEncoded(encoded: ByteString, values: seq<ByteString>)
    ensures encoded + Encode(values[|values|..]) == encoded
  {
    assert values[|values|..] == [] && encoded + [] == encoded;
  }

  lemma NothingEncoded(values: seq<ByteString>)
    ensures [] + Encode(values[0..]) == Encode(values)
  {
    assert values[0..] == values && [] + Encode(values) == Encode(values);
  }

  // ----- The word stream and rejection sampling

  /** `block(counter)` is the digest of the material and the counter. */
  type Stream = nat -> ByteString

  ghost predicate Blocks(block: Stream) {
    forall counter :: |block(counter)| == WORD_BYTES * WORDS_PER_BLOCK
  }

  function Word(block: Stream, k: nat): (w: nat)
    requires Blocks(block)
    ensures w < UINT64_RANGE
  {
    var b, offset := block(k / WORDS_PER_BLOCK), WORD_BYTES * (k % WORDS_PER_BLOCK);
    WordWidth();
    FromBigEndian(b[offset..offset + WORD_BYTES])
  }

  lemma WordWidth()
    ensures Pow256(WORD_BYTES) == UINT64_RANGE
  {
  }

  predicate BoundOk(bound: int) {
    0 < bound <= UINT64_RANGE
  }

  /** Words below this are accepted: the largest multiple of the bound within the word range. */
  function AcceptanceLimit(bound: nat): nat
    requires BoundOk(bound)
  {
    UINT64_RANGE - UINT64_RANGE % bound
  }

  /** The accepted words among the first `n`, reduced. */
  function Accepted(block: Stream, bound: nat, n: nat): seq<nat>
    requires Blocks(block) && BoundOk(bound)
  {
    if n == 0 then [] else
    var w := Word(block, n - 1);
    Accepted(block, bound, n - 1) + (if w < AcceptanceLimit(bound) then [w % bound] else [])
  }

  /** The first `count` accepted words, if the stream has as many. */
  function Indices(block: Stream, count: int, bound: int): Result<seq<nat>>
    requires Blocks(block)
  {
    if count < 0 || !BoundOk(bound) then Err else
    var all := Accepted(block, bound, UINT64_RANGE * WORDS_PER_BLOCK);
    if count <= |all| then Ok(all[..count]) else Err
  }

  lemma {:induction false} AcceptedGrows(block: Stream, bound: nat, n: nat, n': nat)
    requires Blocks(block) && BoundOk(bound) && n <= n'
    ensures Accepted(block, bound, n) <= Accepted(block, bound, n')
    decreases n'
  {
    hide Word, AcceptanceLimit;
    if n < n' {
      AcceptedGrows(block, bound, n, n' - 1);
    }
  }

  /** Every index is below the bound. */
  lemma {:induction false} AcceptedAreBelow(block: Stream, bound: nat, n: nat)
    requires Blocks(block) && BoundOk(bound)
    ensures forall v | v in Accepted(block, bound, n) :: v < bound
    decreases n
  {
    hide Word, AcceptanceLimit;
    if n > 0 {
      AcceptedAreBelow(block, bound, n - 1);
    }
  }

  /** The sampler: blocks in counter order, four words of each, until enough were accepted. */
  method BootstrapIndices(block: Stream, count: int, bound: int) returns (r: Result<seq<nat>>)
    requires Blocks(block)
    ensures r == Indices(block, count, bound)
  {
    hide Accepted, Word;
    if count < 0 || !BoundOk(bound) { return Err; }
    if count == 0 { return Ok([]); }
    var acceptanceLimit := AcceptanceLimit(bound);
    var result: seq<nat>, counter: nat := [], 0;
    NoneAccepted(block, bound);
    while counter < UINT64_RANGE
      invariant counter <= UINT64_RANGE && |result| < count
      invariant result == Accepted(block, bound, WORDS_PER_BLOCK * counter)
    {
      var digest := block(counter);
      for k := 0 to WORDS_PER_BLOCK
        invariant |result| < count
        invariant result == Accepted(block, bound, WORDS_PER_BLOCK * counter + k)
      {
        var word := FromBigEndian(digest[WORD_BYTES * k..WORD_BYTES * k + WORD_BYTES]);
        OneMoreWord(block, bound, counter, k);
        if word < acceptanceLimit {
          result := result + [word % bound];
          if |result| == count {
            var n := WORDS_PER_BLOCK * counter + k + 1;
            AcceptedGrows(block, bound, n, UINT64_RANGE * WORDS_PER_BLOCK);
            assert Accepted(block, bound, UINT64_RANGE * WORDS_PER_BLOCK)[..count] == result;
            return Ok(result);
          }
        }
      }
      counter := counter + 1;
    }
    r := Err;
  }

  lemma NoneAccepted(block: Stream, bound: nat)
    requires Blocks(block) && BoundOk(bound)
    ensures Accepted(block, bound, 0) == []
  {
  }

  lemma OneMoreWord(block: Stream, bound: nat, counter: nat, k: nat)
    requires Blocks(block) && BoundOk(bound) && k < WORDS_PER_BLOCK
    ensures var n, word := WORDS_PER_BLOCK * counter + k,
                           FromBigEndian(block(counter)[WORD_BYTES * k..WORD_BYTES * k + WORD_BYTES]);
            && word == Word(block, n)
            && Accepted(block, bound, n + 1)
               == Accepted(block, bound, n) + (if word < AcceptanceLimit(bound) then [word % bound] else [])
  {
    hide FromBigEndian, AcceptanceLimit;
  }

  /** A shorter request is the beginning of a longer one. */
  lemma ShorterIsPrefix(block: Stream, count: nat, longer: nat, bound: int)
    requires Blocks(block) && count <= longer && Indices(block, longer, bound).Ok?
    ensures Indices(block, count, bound) == Ok(Indices(block, longer, bound).value[..count])
  {
    hide Accepted;
    var all := Accepted(block, bound, UINT64_RANGE * WORDS_PER_BLOCK);
    assert all[..longer][..count] == all[..count];
  }

  /** The accepted words that reduce to `residue`. */
  function WordsWith(limit: nat, bound: nat, residue: nat): set<nat>
    requires bound > 0
  {
    set w: nat | 0 <= w < limit && w % bound == residue
  }

  /** Every residue has equally many accepted words, so the indices are unbiased. */
  lemma ResiduesAreEven(bound: nat, residue: nat)
    requires BoundOk(bound) && residue < bound
    ensures |WordsWith(AcceptanceLimit(bound), bound, residue)| == UINT64_RANGE / bound
  {
    var q := UINT64_RANGE / bound;
    assert AcceptanceLimit(bound) == q * bound;
    ResiduesOfMultiple(q, q * bound, bound, residue);
  }

  lemma {:induction false} ResiduesOfMultiple(q: nat, limit: nat, bound: nat, residue: nat)
    requires 0 < bound && residue < bound && limit == q * bound
    ensures |WordsWith(limit, bound, residue)| == q
    decreases q
  {
    hide WordsWith;
    if q == 0 {
      NoWords(bound, residue);
    } else {
      var before: nat := limit - bound;
      assert before == (q - 1) * bound;
      ResiduesOfMultiple(q - 1, before, bound, residue);
      MultipleHasNoRemainder(q - 1, bound);
      WordsOfNextBlock(before, bound, residue);
    }
  }

  lemma NoWords(bound: nat, residue: nat)
    requires 0 < bound
    ensures WordsWith(0, bound, residue) == {}
  {
  }

  /** The next `bound` words hold each residue once. */
  lemma WordsOfNextBlock(limit: nat, bound: nat, residue: nat)
    requires residue < bound && limit % bound == 0
    ensures |WordsWith(limit + bound, bound, residue)| == |WordsWith(limit, bound, residue)| + 1
  {
    var before := WordsWith(limit, bound, residue);
    forall w: nat | limit <= w < limit + bound
      ensures w % bound == w - limit
    {
      QuotientIsUnique(w, bound, limit / bound, w - limit);
    }
    assert WordsWith(limit + bound, bound, residue) == before + {limit + residue};
  }

  /** No larger multiple of the bound fits, so fewer than `bound` words are ever rejected. */
  lemma FewAreRejected(bound: nat)
    requires BoundOk(bound)
    ensures 0 < AcceptanceLimit(bound) <= UINT64_RANGE < AcceptanceLimit(bound) + bound
    ensures AcceptanceLimit(bound) % bound == 0
  {
    var q := UINT64_RANGE / bound;
    QuotientIsUnique(AcceptanceLimit(bound), bound, q, 0);
    if q == 0 {
      QuotientIsUnique(UINT64_RANGE, bound, 0, UINT64_RANGE % bound);
    }
  }

  lemma WordOfBlock(block: Stream, counter: nat, i: nat)
    requires Blocks(block) && i < WORDS_PER_BLOCK
    ensures BigEndian(Word(block, 4 * counter + i), 8) == block(counter)[8 * i..8 * i + 8]
  {
    hide BigEndian, FromBigEndian;
    BigEndianInverse(block(counter)[8 * i..8 * i + 8]);
  }

  /** The words are the stream: the four words of a block, big-endian, are its bytes. */
  lemma WordsAreBlocks(block: Stream, counter: nat)
    requires Blocks(block)
    ensures block(counter) == BigEndian(Word(block, 4 * counter), 8) + BigEndian(Word(block, 4 * counter + 1), 8)
                              + BigEndian(Word(block, 4 * counter + 2), 8) + BigEndian(Word(block, 4 * counter + 3), 8)
  {
    hide BigEndian, Word;
    var b := block(counter);
    WordOfBlock(block, counter, 0);
    WordOfBlock(block, counter, 1);
    WordOfBlock(block, counter, 2);
    WordOfBlock(block, counter, 3);
    assert b == b[0..8] + b[8..16] + b[16..24] + b[24..32];
  }

  /** How many of the first `n` words are accepted. */
  function CountAccepted(block: Stream, bound: nat, n: nat): nat
    requires Blocks(block) && BoundOk(bound)
  {
    if n == 0 then 0 else
    CountAccepted(block, bound, n - 1) + (if Word(block, n - 1) < AcceptanceLimit(bound) then 1 else 0)
  }

  /** Every accepted word gives one index, its remainder, at the place its rank among the accepted words says. */
  lemma {:induction false} AcceptedInOrder(block: Stream, bound: nat, k: nat, n: nat)
    requires Blocks(block) && BoundOk(bound) && k < n
    ensures var all, rank := Accepted(block, bound, n), CountAccepted(block, bound, k);
            && |all| == CountAccepted(block, bound, n)
            && (Word(block, k) < AcceptanceLimit(bound) ==> rank < |all| && all[rank] == Word(block, k) % bound)
    decreases n
  {
    hide Word, AcceptanceLimit;
    if k < n - 1 {
      AcceptedInOrder(block, bound, k, n - 1);
    } else {
      AcceptedAreCounted(block, bound, k);
    }
  }

  lemma {:induction false} AcceptedAreCounted(block: Stream, bound: nat, n: nat)
    requires Blocks(block) && BoundOk(bound)
    ensures |Accepted(block, bound, n)| == CountAccepted(block, bound, n)
  {
    hide Word, AcceptanceLimit;
    if n > 0 {
      AcceptedAreCounted(block, bound, n - 1);
    }
  }
}
