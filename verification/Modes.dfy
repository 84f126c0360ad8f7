/** The compression modes of one block and the rules that choose among them. */
module Modes {
  import opened Bytes
  import Rle
  import Delta8

  datatype ModeId = Raw | RunLength | Delta | LzSimple | ByteRans | Deflate | LzRans

  /** In the order in which candidates are tried; the position is the mode's number. */
  const ALL_MODES: seq<ModeId> := [Raw, RunLength, Delta, LzSimple, ByteRans, Deflate, LzRans]

  /** The modes whose coding is not modelled here, as one encoder and one decoder for each mode. */
  datatype Library = Library(
    encode: (ModeId, ByteString) -> ByteString,
    decode: (ModeId, ByteString, nat) -> Result<ByteString>)
  {
    ghost predicate Inverse() {
      forall m, block {:trigger encode(m, block)} :: decode(m, encode(m, block), |block|) == Ok(block)
    }
  }

  function Number(m: ModeId): (n: Byte)
    ensures n < |ALL_MODES| && ALL_MODES[n] == m
  {
    match m
    case Raw => 0
    case RunLength => 1
    case Delta => 2
    case LzSimple => 3
    case ByteRans => 4
    case Deflate => 5
    case LzRans => 6
  }

  function GetMode(n: nat): (r: Result<ModeId>)
    ensures forall m :: r == Ok(m) <==> n == Number(m)
  {
    if n < |ALL_MODES| then Ok(ALL_MODES[n]) else Err
  }

  function Encode(lib: Library, m: ModeId, block: ByteString): ByteString {
    match m
    case Raw => block
    case RunLength => Rle.Greedy(block)
    case Delta => Delta8.Encoded(block)
    case _ => lib.encode(m, block)
  }

  function Decode(lib: Library, m: ModeId, payload: ByteString, expectedSize: nat): Result<ByteString> {
    match m
    case Raw => if |payload| == expectedSize then Ok(payload) else Err
    case RunLength =>
      (match Rle.Expand(payload)
       case Err => Err
       case Ok(block) => if |block| == expectedSize then Ok(block) else Err)
    case Delta => Delta8.Decoded(payload, expectedSize)
    case _ => lib.decode(m, payload, expectedSize)
  }

  lemma DecodeEncode(lib: Library, m: ModeId, block: ByteString)
    requires lib.Inverse()
    ensures Decode(lib, m, Encode(lib, m, block), |block|) == Ok(block)
  {
    Rle.ExpandGreedy(block);
    Delta8.DecodeEncoded(block);
  }

  datatype EncodedBlock = EncodedBlock(mode: ModeId, payload: ByteString)

  /** The position of the earliest shortest encoding: what `min(..., key=len)` returns. */
  function SmallestIndex(lib: Library, modes: seq<ModeId>, block: ByteString): (i: nat)
    requires modes != []
    ensures i < |modes|
    ensures forall j | 0 <= j < |modes| :: |Encode(lib, modes[i], block)| <= |Encode(lib, modes[j], block)|
    ensures forall j | 0 <= j < i :: |Encode(lib, modes[i], block)| < |Encode(lib, modes[j], block)|
    decreases |modes|
  {
    var n := |modes| - 1;
    if n == 0 then 0 else
    var i := SmallestIndex(lib, modes[..n], block);
    if |Encode(lib, modes[n], block)| < |Encode(lib, modes[i], block)| then n else i
  }

  function Smallest(lib: Library, modes: seq<ModeId>, block: ByteString): EncodedBlock
    requires modes != []
  {
    var m := modes[SmallestIndex(lib, modes, block)];
    EncodedBlock(m, Encode(lib, m, block))
  }

  datatype Profile = Fast | Balanced | Research

  /** What the balanced profile reads off the block's statistics. */
  datatype Features = Features(smoothness: real, entropy: real)

  function CandidateModes(profile: Profile, features: Features, size: nat): (modes: set<ModeId>) {
    match profile
    case Fast => {Raw, Deflate}
    case Research => set m | m in ALL_MODES
    case Balanced =>
      {Raw, RunLength, Deflate}
      + (if features.smoothness >= 0.55 then {Delta} else {})
      + (if size >= 256 && features.entropy < 7.75 then {ByteRans} else {})
  }

  function Keep(modes: seq<ModeId>, ids: set<ModeId>): (r: seq<ModeId>)
    ensures forall m :: m in r <==> m in modes && m in ids
    decreases |modes|
  {
    if modes == [] then []
    else (if modes[0] in ids then [modes[0]] else []) + Keep(modes[1..], ids)
  }

  function ChooseBestMode(lib: Library, block: ByteString): EncodedBlock {
    Smallest(lib, ALL_MODES, block)
  }

  function ChooseRoutedMode(lib: Library, profile: Profile, features: Features, block: ByteString): EncodedBlock {
    var modes := Keep(ALL_MODES, CandidateModes(profile, features, |block|));
    assert ALL_MODES[0] in modes;
    Smallest(lib, modes, block)
  }

  /** The chosen encoding restores the block and is never longer than storing it. */
  ghost predicate GoodChoice(lib: Library, block: ByteString, e: EncodedBlock) {
    && Decode(lib, e.mode, e.payload, |block|) == Ok(block)
    && |e.payload| <= |block|
  }

  lemma SmallestIsGood(lib: Library, modes: seq<ModeId>, block: ByteString)
    requires lib.Inverse() && Raw in modes
    ensures GoodChoice(lib, block, Smallest(lib, modes, block))
  {
    var e := Smallest(lib, modes, block);
    DecodeEncode(lib, e.mode, block);
    var i :| 0 <= i < |modes| && modes[i] == Raw;
    assert |e.payload| <= |Encode(lib, modes[i], block)|;
  }

  lemma ChoicesAreGood(lib: Library, profile: Profile, features: Features, block: ByteString)
    requires lib.Inverse()
    ensures GoodChoice(lib, block, ChooseBestMode(lib, block))
    ensures GoodChoice(lib, block, ChooseRoutedMode(lib, profile, features, block))
  {
    assert ALL_MODES[0] == Raw;
    SmallestIsGood(lib, ALL_MODES, block);
    SmallestIsGood(lib, Keep(ALL_MODES, CandidateModes(profile, features, |block|)), block);
  }

  /** A routed choice is never shorter than trying every mode. */
  lemma RoutingNeverBeatsTryingAll(lib: Library, profile: Profile, features: Features, block: ByteString)
    ensures |ChooseBestMode(lib, block).payload| <= |ChooseRoutedMode(lib, profile, features, block).payload|
  {
    hide Encode, CandidateModes;
    var modes := Keep(ALL_MODES, CandidateModes(profile, features, |block|));
    var e := ChooseRoutedMode(lib, profile, features, block);
    assert e.mode in modes;
    var j :| 0 <= j < |ALL_MODES| && ALL_MODES[j] == e.mode;
    assert |ChooseBestMode(lib, block).payload| <= |Encode(lib, ALL_MODES[j], block)|;
  }

  /** When a mode is tried, mode by mode. */
  predicate Tried(m: ModeId, profile: Profile, features: Features, size: nat) {
    match m
    case Raw => true
    case Deflate => true
    case RunLength => profile != Fast
    case Delta => profile == Research || (profile == Balanced && features.smoothness >= 0.55)
    case ByteRans => profile == Research || (profile == Balanced && size >= 256 && features.entropy < 7.75)
    case LzSimple => profile == Research
    case LzRans => profile == Research
  }

  lemma CandidatesAreTried(profile: Profile, features: Features, size: nat, m: ModeId)
    ensures m in CandidateModes(profile, features, size) <==> Tried(m, profile, features, size)
    ensures m in ALL_MODES
  {
    assert ALL_MODES[Number(m)] == m;
  }

  predicate Ascending(modes: seq<ModeId>) {
    forall i, j | 0 <= i < j < |modes| :: Number(modes[i]) < Number(modes[j])
  }

  lemma {:induction false} KeepAscends(modes: seq<ModeId>, ids: set<ModeId>)
    requires Ascending(modes)
    ensures Ascending(Keep(modes, ids))
  {
    if modes != [] {
      KeepAscends(modes[1..], ids);
      var rest := Keep(modes[1..], ids);
      forall j | 0 <= j < |rest|
        ensures Number(modes[0]) < Number(rest[j])
      {
        assert rest[j] in rest;
      }
    }
  }

  lemma SmallestInOrder(lib: Library, modes: seq<ModeId>, block: ByteString, m: ModeId)
    requires Ascending(modes) && m in modes
    ensures var e := Smallest(lib, modes, block);
            && |e.payload| <= |Encode(lib, m, block)|
            && (Number(m) < Number(e.mode) ==> |e.payload| < |Encode(lib, m, block)|)
  {
    hide Encode, Number;
    var j :| 0 <= j < |modes| && modes[j] == m;
  }

  lemma SmallestIsTried(lib: Library, modes: seq<ModeId>, block: ByteString)
    requires modes != []
    ensures var e := Smallest(lib, modes, block); e.mode in modes && e.payload == Encode(lib, e.mode, block)
  {
  }

  /** The routed choice is the earliest of the shortest encodings among those tried. */
  lemma RoutedIsShortestTried(lib: Library, profile: Profile, features: Features, block: ByteString)
    ensures var e := ChooseRoutedMode(lib, profile, features, block);
            && Tried(e.mode, profile, features, |block|)
            && e.payload == Encode(lib, e.mode, block)
            && (forall m | Tried(m, profile, features, |block|) :: |e.payload| <= |Encode(lib, m, block)|)
            && (forall m | Tried(m, profile, features, |block|) && Number(m) < Number(e.mode) ::
                  |e.payload| < |Encode(lib, m, block)|)
  {
    var ids := CandidateModes(profile, features, |block|);
    CandidatesAreTried(profile, features, |block|, Raw);
    assert Raw in ids;
    assert Ascending(ALL_MODES);
    hide Encode, Number, Tried, CandidateModes, Keep, Ascending, Smallest;
    KeepAscends(ALL_MODES, ids);
    var modes := Keep(ALL_MODES, ids);
    assert Raw in modes;
    var e := ChooseRoutedMode(lib, profile, features, block);
    forall m | Tried(m, profile, features, |block|)
      ensures |e.payload| <= |Encode(lib, m, block)|
      ensures Number(m) < Number(e.mode) ==> |e.payload| < |Encode(lib, m, block)|
    {
      CandidatesAreTried(profile, features, |block|, m);
      SmallestInOrder(lib, modes, block, m);
    }
    SmallestIsTried(lib, modes, block);
    CandidatesAreTried(profile, features, |block|, e.mode);
  }
}
