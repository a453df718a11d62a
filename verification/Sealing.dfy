/** The two seals a frame can carry: the radio's checksum and CRC (Rf.cpp) and the nested LoRa CRCs (procSx1276.cpp). */
module Sealing {
  import opened Bytes
  import opened Crc
  import opened Frames
  import opened Detection

  // ---------------------------------------------------------------- radio

  /** `CalCheckSum`: the sum of every byte but the last. */
  method CalCheckSum(f: Frame) returns (sum: bv8)
    ensures sum == ByteSum(f[..CHECK_SUM])
  {
    sum := 0;
    var size, count := FRAME_SIZE - 1, 0;
    while size - count != 0
      invariant 0 <= count <= size == CHECK_SUM && sum == ByteSum(f[..count])
      decreases size - count
    {
      assert f[..count + 1][..count] == f[..count];
      sum := Add(sum, f[count]);
      count := count + 1;
    }
  }

  /** What `sendRf` puts into the three reserved words and the checksum. */
  function Reserved(f: Frame): (g: Frame)
    ensures SameExcept(f, g, {24, 25, 26, 27, 28, 29})
  {
    var g0 := SetU16(f, RESERVE, U16(f, TIME));
    var g1 := SetU16(g0, RESERVE + 2, U16(f, TIME) + 1);
    SetU16(g1, RESERVE + 4, Run(0, g1[RESERVE..RESERVE + 4]))
  }

  function SealRf(f: Frame): Frame {
    Reserved(f)[CHECK_SUM := ByteSum(Reserved(f)[..CHECK_SUM])]
  }

  /** `isOkCheckSum`: group, checksum, and the CRC over the first two reserved words. */
  predicate OkCheckSum(f: Frame, group: bv16) {
    && U16(f, GID) == group
    && f[CHECK_SUM] == ByteSum(f[..CHECK_SUM])
    && Run(0, f[RESERVE..RESERVE + 4]) == U16(f, RESERVE + 4)
  }

  /** The radio driver's two frame registers. */
  class Radio {
    var txFrame: Frame
    var rxFrame: Frame

    constructor ()
    {
      txFrame, rxFrame := seq(FRAME_SIZE, _ => 0), seq(FRAME_SIZE, _ => 0);
    }

    /** `sendRf` up to the transmission. */
    method SendRf(f: Frame) returns (sent: Frame)
      modifies this`txFrame
      ensures txFrame == SealRf(f) && sent == txFrame
    {
      txFrame := f;
      FillReserved();
      var sum := CalCheckSum(txFrame);
      txFrame := txFrame[CHECK_SUM := sum];
      sent := txFrame;
    }

    /** The three reserved words. */
    method FillReserved()
      modifies this`txFrame
      ensures txFrame == Reserved(old(txFrame))
    {
      txFrame := SetU16(txFrame, RESERVE, U16(txFrame, TIME));
      txFrame := SetU16(txFrame, RESERVE + 2, U16(txFrame, TIME) + 1);
      var crc := GenCrc16(txFrame[RESERVE..RESERVE + 4]);
      txFrame := SetU16(txFrame, RESERVE + 4, crc);
    }

    /** `isOkCheckSum`. */
    method IsOkCheckSum(group: bv16) returns (ok: bool)
      ensures ok == OkCheckSum(rxFrame, group)
    {
      if U16(rxFrame, GID) != group {
        return false;
      }
      var sum := CalCheckSum(rxFrame);
      if rxFrame[CHECK_SUM] != sum {
        return false;
      }
      var crc := GenCrc16(rxFrame[RESERVE..RESERVE + 4]);
      if crc != U16(rxFrame, RESERVE + 4) {
        return false;
      }
      return true;
    }
  }

  /**
    The check in terms of the frame's bytes: its group, the sum of the first 31 bytes modulo 256, and a
    CRC that leaves zero over the three reserved words.
   */
  lemma OkCheckSumExactly(f: Frame, group: bv16)
    ensures OkCheckSum(f, group) <==>
            && Word(f[4], f[5]) == group
            && Number(f[31]) == Wrap8(NumberSum(f[..31]))
            && Run(0, f[24..30]) == 0
  {
    ByteSumIsSum(f[..31]);
    NumberInjective(f[31], ByteSum(f[..31]));
    WordBehind(f[24..30]);
    assert f[24..30][..4] == f[24..28];
  }

  /** A word behind a message is its CRC exactly when both together leave zero. */
  lemma WordBehind(d: seq<bv8>)
    requires |d| >= 2
    ensures Run(0, d[..|d| - 2]) == Word(d[|d| - 2], d[|d| - 1]) <==> Run(0, d) == 0
  {
    ChecksIsZero(d);
  }

  /** A sealed frame passes at every receiver of its group and at no other. */
  lemma RfSealPasses(f: Frame, group: bv16)
    ensures OkCheckSum(SealRf(f), group) <==> U16(f, GID) == group
  {
    var g := SealRf(f);
    assert g[..CHECK_SUM] == Reserved(f)[..CHECK_SUM];
    assert g[RESERVE..RESERVE + 4] == Reserved(f)[RESERVE..RESERVE + 4];
    ReservedCrc(f);
  }

  lemma ReservedCrc(f: Frame)
    ensures Run(0, Reserved(f)[RESERVE..RESERVE + 4]) == U16(Reserved(f), RESERVE + 4)
  {
    var g1 := SetU16(SetU16(f, RESERVE, U16(f, TIME)), RESERVE + 2, U16(f, TIME) + 1);
    assert Reserved(f)[RESERVE..RESERVE + 4] == g1[RESERVE..RESERVE + 4];
  }

  /** Sealing touches the reserved words and the checksum only, and stamps the time into the former. */
  lemma RfSealKeeps(f: Frame)
    ensures SameExcept(f, SealRf(f), {24, 25, 26, 27, 28, 29, 31})
    ensures U16(SealRf(f), RESERVE) == U16(f, TIME) && U16(SealRf(f), RESERVE + 2) == U16(f, TIME) + 1
  {
  }

  /** Sealing again changes nothing. */
  lemma RfSealTwice(f: Frame)
    ensures SealRf(SealRf(f)) == SealRf(f)
  {
    var g := SealRf(f);
    RfSealKeeps(f);
    assert Reserved(g) == g by {
      ReservedStable(g, f);
    }
    assert g[..CHECK_SUM] == Reserved(f)[..CHECK_SUM];
  }

  lemma ReservedStable(g: Frame, f: Frame)
    requires g == SealRf(f)
    ensures Reserved(g) == g
  {
    RfSealKeeps(f);
    ReservedCrc(f);
    assert g[RESERVE..RESERVE + 4] == Reserved(f)[RESERVE..RESERVE + 4];
    InPlace(g);
  }

  lemma InPlace(g: Frame)
    requires U16(g, RESERVE) == U16(g, TIME) && U16(g, RESERVE + 2) == U16(g, TIME) + 1
    requires U16(g, RESERVE + 4) == Run(0, g[RESERVE..RESERVE + 4])
    ensures Reserved(g) == g
  {
    WordInPlace(g, RESERVE);
    WordInPlace(g, RESERVE + 2);
    WordInPlace(g, RESERVE + 4);
  }

  /** Storing a word where it already is. */
  lemma WordInPlace(f: Frame, i: nat)
    requires i + 1 < FRAME_SIZE
    ensures SetU16(f, i, U16(f, i)) == f
  {
    PartsOfWord(f[i], f[i + 1]);
  }

  // ---------------------------------------------------------------- LoRa

  /** `sendSxFrame`: a CRC of the first 16 bytes in the time field, then one of the first 30 at the end. */
  function SealSx(f: Frame): Frame {
    var g := SetU16(f, TIME, Run(0, f[..16]));
    SetU16(g, SX_CRC, Run(0, g[..30]))
  }

  /** `SxRxCrc`. */
  predicate SxOk(f: Frame) {
    U16(f, TIME) == Run(0, f[..16]) && U16(f, SX_CRC) == Run(0, f[..30])
  }

  /** A frame in memory, changed in place. */
  class FrameBox {
    var f: Frame

    constructor (initial: Frame)
      ensures f == initial
    {
      f := initial;
    }

    /** `sendSxFrame` up to the transmission. */
    method SendSxFrame() returns (sent: Frame)
      modifies this
      ensures f == SealSx(old(f)) && sent == f
    {
      var time := GenCrc16(f[..16]);
      f := SetU16(f, TIME, time);
      var crc := GenCrc16(f[..30]);
      f := SetU16(f, SX_CRC, crc);
      sent := f;
    }

    /** `SxRxCrc`. */
    method SxRxCrc() returns (ok: bool)
      ensures ok == SxOk(f)
    {
      var time := GenCrc16(f[..16]);
      if U16(f, TIME) != time {
        return false;
      }
      var crc := GenCrc16(f[..30]);
      if U16(f, SX_CRC) != crc {
        return false;
      }
      return true;
    }
  }

  /** The nested checks in terms of the frame's bytes: a CRC that leaves zero over 18 bytes, and over all 32. */
  lemma SxOkExactly(f: Frame)
    ensures SxOk(f) <==> Run(0, f[..18]) == 0 && Run(0, f) == 0
  {
    WordBehind(f[..18]);
    WordBehind(f);
    assert f[..18][..16] == f[..16];
  }

  /** A sealed frame passes both nested checks and differs from the original in the two CRC fields only. */
  lemma SxSealPasses(f: Frame)
    ensures SxOk(SealSx(f)) && SameExcept(f, SealSx(f), {16, 17, 30, 31})
  {
    var g := SetU16(f, TIME, Run(0, f[..16]));
    var h := SealSx(f);
    assert g[..16] == f[..16] && h[..16] == g[..16] && h[..30] == g[..30];
  }

  /** A frame passes exactly when sealing it changes nothing; so sealing twice is sealing once. */
  lemma SxSealFixed(f: Frame)
    ensures SxOk(f) <==> SealSx(f) == f
    ensures SealSx(SealSx(f)) == SealSx(f)
  {
    SxOkFixed(f);
    SxSealPasses(f);
    SxOkFixed(SealSx(f));
  }

  lemma SxOkFixed(f: Frame)
    ensures SxOk(f) <==> SealSx(f) == f
  {
    SxSealPasses(f);
    if SxOk(f) {
      WordInPlace(f, TIME);
      WordInPlace(f, SX_CRC);
    }
  }

  /** A sealed frame with one to three, an odd number, or a short burst of bits flipped is refused. */
  lemma SxCorruptionRejected(f: Frame, e: seq<bv8>, k: nat)
    requires SxOk(f) && |e| == FRAME_SIZE
    requires 1 <= Ones(Bits(e)) <= 3 || Ones(Bits(e)) % 2 == 1 || Burst(Bits(e), k)
    ensures !SxOk(Xor(f, e))
  {
    if Ones(Bits(e)) % 2 == 1 {
      DetectsOddFlips(f, e);
    } else if 1 <= Ones(Bits(e)) <= 3 {
      DetectsThreeFlips(f, e);
    } else {
      DetectsBurst(f, e, k);
    }
  }
}
