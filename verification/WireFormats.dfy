/** The bytes of the formats, from the definitions that writers and readers share. */
module WireFormats {
  import opened Bytes
  import opened Padding
  import A = DedupArchive
  import C = CaseIdentity
  import D = DedupManifest
  import F = Frames
  import I = IdSet
  import L = SolidLanes
  import M = CompactMetadata
  import Modes
  import P = PackedLanes
  import R = SolidResearch
  import S = SolidArchive
  import Sealing
  import SF = SolidFrames
  import U = CompactUint
  import V = StreamArchive

  /** Byte `i` of a field is the digit of its weight in base 256, the most significant first. */
  lemma {:induction false} BigEndianByte(v: nat, width: nat, i: nat)
    requires i < width
    ensures BigEndian(v, width)[i] as int == v / Pow256(width - 1 - i) % 256
    decreases width
  {
    if i == width - 1 {
      assert Pow256(0) == 1;
    } else {
      BigEndianByte(v / 256, width - 1, i);
      DivideTwice(v, 256, Pow256(width - 2 - i));
    }
  }

  function Zeros(n: nat): (r: ByteString)
    ensures |r| == n && forall i | 0 <= i < n :: r[i] == 0
  {
    seq(n, _ => 0)
  }

  lemma {:induction false} ZeroField(width: nat)
    ensures BigEndian(0, width) == Zeros(width)
  {
    if width > 0 {
      ZeroField(width - 1);
    }
  }

  lemma TwoByteField(x: Byte, y: Byte, width: nat)
    requires width >= 2
    ensures BigEndian(256 * x as int + y as int, width) == Zeros(width - 2) + [x, y]
  {
    ZeroField(width - 2);
    QuotientIsUnique(256 * x as int + y as int, 256, x as int, y as int);
    QuotientIsUnique(x as int, 256, 0, x as int);
    assert BigEndian(x as int, width - 1) == BigEndian(0, width - 2) + [x];
  }

  /** A number of at most two bytes in the fields that the formats use. */
  lemma SmallFields(x: Byte, y: Byte)
    ensures BigEndian(y as int, 1) == [y]
    ensures BigEndian(256 * x as int + y as int, 2) == [x, y]
    ensures BigEndian(256 * x as int + y as int, 4) == [0, 0, x, y]
    ensures BigEndian(256 * x as int + y as int, 8) == [0, 0, 0, 0, 0, 0, x, y]
  {
    QuotientIsUnique(y as int, 256, 0, y as int);
    assert BigEndian(y as int, 1) == BigEndian(0, 0) + [y];
    hide BigEndian;
    TwoByteField(x, y, 2);
    TwoByteField(x, y, 4);
    TwoByteField(x, y, 8);
    assert Zeros(0) + [x, y] == [x, y];
    assert Zeros(2) + [x, y] == [0, 0, x, y];
    assert Zeros(6) + [x, y] == [0, 0, 0, 0, 0, 0, x, y];
  }

  /** Frame headers and nonces. */
  lemma Headers()
    ensures F.FrameHeader(1, F.DataFrame, 300) == [0, 0, 0, 0, 0, 0, 0, 1, 2, 0, 0, 1, 44]
    ensures F.FrameHeader(0, F.ManifestFrame, 272) == [0, 0, 0, 0, 0, 0, 0, 0, 1, 0, 0, 1, 16]
    ensures SF.FrameHeader(7, 2, true, 300) == [0, 0, 0, 7, 2, 1, 0, 0, 1, 44]
    ensures SF.FrameHeader(258, 1, false, 272) == [0, 0, 1, 2, 1, 0, 0, 0, 1, 16]
    ensures Sealing.FrameNonce([9, 8, 7, 6], 5) == [9, 8, 7, 6, 0, 0, 0, 0, 0, 0, 0, 5]
  {
    hide BigEndian;
    SmallFields(0, 0);
    SmallFields(0, 1);
    SmallFields(0, 2);
    SmallFields(0, 5);
    SmallFields(0, 7);
    SmallFields(1, 2);
    SmallFields(1, 16);
    SmallFields(1, 44);
  }

  /** What is encrypted: the length, the payload, and the noise that fills the block. */
  lemma PaddedPayload(noise: nat -> ByteString)
    requires forall n :: |noise(n)| == n
    ensures PadPayload([65, 66], 256, noise) == Ok([0, 0, 0, 0, 0, 0, 0, 2, 65, 66] + noise(246))
  {
    hide BigEndian;
    SmallFields(0, 2);
    assert PaddedSize(2, 256) == 256;
    assert BigEndian(2, 8) + [65, 66] == [0, 0, 0, 0, 0, 0, 0, 2, 65, 66];
  }

  /** The manifest of a deduplicated archive, field by field. */
  lemma FileText(d: ByteString)
    ensures D.PrintEntry(D.Entry(false, [97, 98], 1, 2, 3, 4, 5, d))
            == [1] + ([0, 2] + ([0, 0, 0, 1] + ([0, 0, 0, 0, 0, 0, 0, 2] + ([0, 0, 0, 0, 0, 0, 0, 3]
               + ([0, 0, 0, 0, 0, 0, 0, 4] + ([0, 0, 0, 5] + (d + [97, 98])))))))
  {
    hide BigEndian;
    SmallFields(0, 1);
    SmallFields(0, 2);
    SmallFields(0, 3);
    SmallFields(0, 4);
    SmallFields(0, 5);
  }

  lemma DirectoryText(d: ByteString)
    ensures D.PrintEntry(D.Entry(true, [99], 6, 7, 0, 0, 0, d))
            == [2] + ([0, 1] + ([0, 0, 0, 6] + ([0, 0, 0, 0, 0, 0, 0, 7] + ([0, 0, 0, 0, 0, 0, 0, 0]
               + ([0, 0, 0, 0, 0, 0, 0, 0] + ([0, 0, 0, 0] + (d + [99])))))))
  {
    hide BigEndian;
    SmallFields(0, 0);
    SmallFields(0, 1);
    SmallFields(0, 2);
    SmallFields(0, 6);
    SmallFields(0, 7);
  }

  lemma ChunkText(d: ByteString)
    ensures D.PrintChunk(D.ChunkRecord(d, 300, 5)) == d + ([0, 0, 1, 44] + [0, 0, 0, 0, 0, 0, 0, 5])
  {
    hide BigEndian;
    SmallFields(0, 5);
    SmallFields(1, 44);
  }

  lemma PrintPair<T>(print_: T -> ByteString, a: T, b: T)
    ensures PrintMany(print_, [a, b]) == print_(a) + print_(b)
  {
    assert [a, b][1..] == [b] && [b][1..] == [];
    assert PrintMany(print_, [b]) == print_(b) + PrintMany(print_, []);
  }

  lemma ManifestHead(a: D.Entry, b: D.Entry, c: D.ChunkRecord, e: D.ChunkRecord)
    ensures D.Print(D.Manifest(D.KindFolder, [120], [a, b], [c, e]))
            == [77, 51, 77, 70, 2, 0, 1, 0, 0, 0, 2, 0, 0, 0, 0, 0, 0, 0, 2, 120]
               + (D.PrintEntry(a) + D.PrintEntry(b)) + (D.PrintChunk(c) + D.PrintChunk(e))
    ensures D.KindCode(D.KindFile) == 1
  {
    hide BigEndian, D.PrintEntry, D.PrintChunk;
    SmallFields(0, 1);
    SmallFields(0, 2);
    PrintPair(D.PrintEntry, a, b);
    PrintPair(D.PrintChunk, c, e);
  }

  lemma SmallNumber(b: Byte)
    requires b < 128
    ensures U.Print(b as int) == [b]
  {
  }

  /** The compact metadata of an MSR2 archive, field by field; 300 takes two bytes. */
  lemma CompactText(d: ByteString)
    ensures U.Print(300) == [172, 2] && U.Zigzag(-3) == 5 && U.Zigzag(7) == 14
    ensures M.PrintEntry(M.CompactEntry(false, [98, 99], 4, -3, 6, d)) == [4, 98, 99, 4, 5, 6] + d
    ensures M.PrintEntry(M.CompactEntry(true, [98], 5, 7, 0, [])) == [3, 98, 5, 14]
    ensures M.PrintChunk(M.Fresh(8, d)) == [0, 8] + d && M.PrintChunk(M.Duplicate(9)) == [1, 9]
    ensures P.Pack([1, 2, 0, 1, 2]) == [73, 2]
  {
    assert U.Print(300) == [172] + U.Print(2);
    hide U.Print;
    SmallNumber(2);
    SmallNumber(3);
    SmallNumber(4);
    SmallNumber(5);
    SmallNumber(6);
    SmallNumber(8);
    SmallNumber(9);
    SmallNumber(14);
  }

  /** The root's descriptor and name, and the two counts, come first. */
  lemma CompactHead()
    ensures M.PrintHead(M.Head(true, D.KindFolder, [120], 2, 4)) == [77, 67, 50, 50] + ([3] + ([120] + ([2] + [4])))
    ensures M.PrintHead(M.Head(false, D.KindFile, [120], 2, 4)) == [77, 67, 50, 49] + ([2] + ([120] + ([2] + [4])))
  {
    hide U.Print;
    SmallNumber(2);
    SmallNumber(3);
    SmallNumber(4);
  }

  /** Then the frame counts, the codecs, the entries, the chunks and the packed assignments. */
  lemma CompactTables(c: M.Compact)
    requires c.frameCounts == [1, 2, 3] && c.codecs == [0, 1, 2] && c.assignments == [1, 2]
    ensures M.PrintCompact(c)
            == M.PrintHead(M.HeadOf(c)) + (([1] + [2] + [3]) + (([0] + [1] + [2])
               + (PrintMany(M.PrintEntry, c.entries) + PrintMany(M.PrintChunk, c.chunks)))) + [9]
  {
    hide U.Print, M.PrintEntry, M.PrintChunk, M.PrintHead, PrintMany;
    SmallNumber(0);
    SmallNumber(1);
    SmallNumber(2);
    SmallNumber(3);
    PrintTriple(U.Print, 1, 2, 3);
    PrintTriple(U.Print, 0, 1, 2);
    assert P.Pack([1, 2]) == [9];
  }

  lemma PrintTriple<T>(print_: T -> ByteString, a: T, b: T, c: T)
    ensures PrintMany(print_, [a, b, c]) == print_(a) + print_(b) + print_(c)
  {
    assert [a, b, c][1..] == [b, c];
    PrintPair(print_, b, c);
  }

  /** The envelope around the compressed metadata. */
  lemma EnvelopeText(lib: S.Compressor)
    ensures S.Envelope(lib, [7, 8, 9]) == [77, 68, 90, 49, 1, 0, 0, 0, 0, 0, 0, 0, 3] + lib.zip([7, 8, 9])
  {
    hide BigEndian;
    SmallFields(0, 1);
    SmallFields(0, 3);
  }

  /** What precedes a block in a data frame: its number, its size and the number of its mode. */
  lemma BlockText(c: A.Codec, o: A.Settings, lib: Modes.Library, chunk: ByteString)
    requires |chunk| == 300
    ensures var e := Modes.ChooseRoutedMode(c.lib, o.profile, o.features(chunk), chunk);
            A.DataPayload(c, o, 5, chunk)
            == [0, 0, 0, 0, 0, 0, 0, 5] + ([0, 0, 1, 44] + ([Modes.Number(e.mode)] + e.payload))
    ensures var e := Modes.ChooseBestMode(lib, chunk);
            V.DataPayload(lib, 5, chunk) == [0, 0, 0, 5] + ([0, 0, 1, 44] + ([Modes.Number(e.mode)] + e.payload))
  {
    hide BigEndian, Modes.ChooseRoutedMode, Modes.ChooseBestMode;
    SmallFields(0, 5);
    SmallFields(1, 44);
    SmallFields(0, Modes.Number(Modes.ChooseRoutedMode(c.lib, o.profile, o.features(chunk), chunk).mode));
    SmallFields(0, Modes.Number(Modes.ChooseBestMode(lib, chunk).mode));
  }

  /** A solid payload's chunk descriptor and lane header. */
  lemma PairText()
    ensures R.PrintPair(1, 4)((2, 300)) == [2] + [0, 0, 1, 44]
    ensures R.PrintPair(8, 8)((300, 5)) == [0, 0, 0, 0, 0, 0, 1, 44] + [0, 0, 0, 0, 0, 0, 0, 5]
  {
    hide BigEndian;
    SmallFields(0, 2);
    SmallFields(0, 5);
    SmallFields(1, 44);
  }

  /** The head of a solid payload of two chunks, and the order of its parts. */
  lemma SolidPayloadHead(c: R.LaneCodec, a: ByteString, b: ByteString)
    ensures var chunks: seq<ByteString>, to: seq<P.Lane> := [a, b], [2, 0];
            var packed := R.Compressed(c, L.Partition(chunks, to));
            R.Print(c, chunks, to)
            == [83, 76, 90, 49] + ([0, 0, 0, 2] + ((R.PrintPair(1, 4)((2, |a|)) + R.PrintPair(1, 4)((0, |b|)))
               + (PrintMany(R.PrintPair(8, 8), R.LaneHeaders(L.Partition(chunks, to), packed))
               + (packed[0] + (packed[1] + packed[2])))))
  {
    hide BigEndian, L.Partition, R.Compressed, R.LaneHeaders;
    SmallFields(0, 2);
    var chunks: seq<ByteString>, to: seq<P.Lane> := [a, b], [2, 0];
    assert R.Descriptors(to, L.Sizes(chunks)) == [(2, |a|), (0, |b|)];
    PrintPair<R.Pair>(R.PrintPair(1, 4), (2, |a|), (0, |b|));
  }

  /** A length-prefixed identity. */
  lemma IdentityText()
    ensures C.Encode([[9], [8, 7]]) == [0, 0, 0, 1, 9, 0, 0, 0, 2, 8, 7]
  {
    hide BigEndian;
    SmallFields(0, 1);
    SmallFields(0, 2);
    var fields: seq<ByteString> := [[9], [8, 7]];
    assert fields[1..] == [[8, 7]] && fields[1..][1..] == [];
    assert C.Encode(fields[1..]) == BigEndian(2, 4) + [8, 7] + C.Encode([]);
  }

  /** A kernel ID list. */
  lemma IdListText()
    ensures I.Format([0, 1, 2, 10]) == "0-2,10"
  {
    RunsOfExample();
    assert I.Decimal(1) == "1" && I.Decimal(10) == I.Decimal(1) + ['0'];
    assert I.Decimal(0) == "0" && I.Decimal(2) == "2";
    assert I.PrintRange((0, 2)) == "0-2" && I.PrintRange((10, 10)) == "10";
    hide I.PrintRange, I.Decimal, I.Runs;
    assert I.PrintRanges([(0, 2), (10, 10)]) == ["0-2", "10"];
    assert ["0-2", "10"][1..] == ["10"];
  }

  lemma RunsOfExample()
    ensures I.Runs([0, 1, 2, 10]) == [(0, 2), (10, 10)]
  {
    assert [0, 1, 2, 10][..3] == [0, 1, 2] && [0, 1, 2][..2] == [0, 1] && [0, 1][..1] == [0] && [0][..0] == [];
    assert I.Runs([0]) == [(0, 0)];
    assert I.Runs([0, 1]) == [(0, 1)];
    assert I.Runs([0, 1, 2]) == [(0, 2)];
  }

  /** The codec number of each lane's preferred compressor, and the numbers a reader admits there. */
  lemma LaneCodecs()
    ensures S.Preferred(0) == 0 && S.Preferred(1) == 0 && S.Preferred(2) == 2
    ensures forall codec: nat :: M.CodecOk(0, codec) <==> codec <= 1
    ensures forall codec: nat :: M.CodecOk(1, codec) <==> codec <= 1
    ensures forall codec: nat :: M.CodecOk(2, codec) <==> codec <= 2
  {
  }

  /** The number of each compression mode. */
  lemma ModeNumbers()
    ensures Modes.GetMode(0) == Ok(Modes.Raw) && Modes.GetMode(1) == Ok(Modes.RunLength)
    ensures Modes.GetMode(2) == Ok(Modes.Delta) && Modes.GetMode(3) == Ok(Modes.LzSimple)
    ensures Modes.GetMode(4) == Ok(Modes.ByteRans) && Modes.GetMode(5) == Ok(Modes.Deflate)
    ensures Modes.GetMode(6) == Ok(Modes.LzRans) && Modes.GetMode(7) == Err
  {
  }
}
