/** Two 64-bit halves make one infrared frame, tagged, and guarded by `gen_crc16` (Rcu.cpp). */
module Rcu {
  import opened Bytes
  import opened Crc
  import opened Infrared

  const UT_CODE: bv8 := 0xAA
  const HALF := 8

  /** The bytes of an unsigned integer as little-endian memory holds them. */
  function ToBytes(x: nat, n: nat): (b: seq<bv8>)
    ensures |b| == n
  {
    if n == 0 then [] else [(x % 256) as bv8] + ToBytes(x / 256, n - 1)
  }

  function FromBytes(b: seq<bv8>): nat {
    if b == [] then 0 else (b[0] as nat) + 256 * FromBytes(b[1..])
  }

  lemma {:induction false} BytesRoundTrip(b: seq<bv8>)
    ensures ToBytes(FromBytes(b), |b|) == b
    decreases |b|
  {
    if b != [] {
      BytesRoundTrip(b[1..]);
      var x := FromBytes(b[1..]);
      LowByte(b[0], x);
      assert b == [b[0]] + b[1..];
    }
  }

  /** The first byte in memory is the lowest of the word. */
  lemma {:induction false} LittleEndian(b: seq<bv8>, x: bv8)
    ensures FromBytes(b + [x]) == FromBytes(b) + (x as nat) * Pow2(8 * |b|)
    decreases |b|
  {
    if b == [] {
      assert [] + [x] == [x];
    } else {
      assert (b + [x])[1..] == b[1..] + [x];
      LittleEndian(b[1..], x);
      EightMore(8 * (|b| - 1));
      Shifted(x as nat, Pow2(8 * (|b| - 1)));
    }
  }

  lemma Shifted(x: nat, p: nat)
    ensures 256 * (x * p) == x * (256 * p)
  {
  }

  /** The CRC field, low byte first, makes the frame leave the register zero. */
  lemma FrameOkIsZero(frame: seq<bv8>)
    requires |frame| == 2 * HALF
    ensures FrameOk(frame) <==> Run(0, frame) == 0
  {
    var crc := Word(frame[14], frame[15]);
    PartsOfWord(frame[14], frame[15]);
    assert frame == frame[..14] + [Lo(crc), Hi(crc)];
    Residue(0, frame[..14], crc);
  }

  lemma LowByte(b: bv8, x: nat)
    ensures ((b as nat) + 256 * x) % 256 == b as nat && ((b as nat) + 256 * x) / 256 == x
    ensures (((b as nat) + 256 * x) % 256) as bv8 == b
  {
  }

  lemma {:induction false} FromBytesFits(b: seq<bv8>)
    ensures FromBytes(b) < Pow2(8 * |b|)
    decreases |b|
  {
    if b != [] {
      FromBytesFits(b[1..]);
      EightMore(8 * (|b| - 1));
    }
  }

  /** Reassembly: waiting for a second half, the two halves, and whether a frame is ready. */
  datatype Assembler = Assembler(waiting: bool, frame: seq<bv8>, ready: bool)

  predicate FrameOk(frame: seq<bv8>)
    requires |frame| == 2 * HALF
  {
    Run(0, frame[..14]) == Word(frame[14], frame[15])
  }

  /** `returnUtRcuCode` on a decoded word; junk is what the uninitialised second half holds. */
  function Collect(s: Assembler, word: nat, junk: seq<bv8>): (r: Assembler)
    requires |s.frame| == 2 * HALF && |junk| == HALF
    ensures |r.frame| == 2 * HALF
  {
    var half := ToBytes(word, HALF);
    if half[0] == UT_CODE then s.(frame := half + junk, waiting := true)
    else if s.waiting then
      var f := s.frame[..HALF] + half;
      s.(frame := f, waiting := false, ready := s.ready || FrameOk(f))
    else s
  }

  function CollectBoth(s: Assembler, w0: nat, w1: nat, j0: seq<bv8>, j1: seq<bv8>): (r: Assembler)
    requires |s.frame| == 2 * HALF && |j0| == |j1| == HALF
    ensures |r.frame| == 2 * HALF
  {
    Collect(Collect(s, w0, j0), w1, j1)
  }

  /**
    A frame tagged 0xAA, handed over as its two halves: it is reported exactly when its second half
    does not look like another first half and its CRC field is right, and then it is that frame.
   */
  lemma FrameReported(s: Assembler, f: seq<bv8>, j0: seq<bv8>, j1: seq<bv8>)
    requires |s.frame| == |f| == 2 * HALF && |j0| == |j1| == HALF && !s.ready && f[0] == UT_CODE
    ensures var r := CollectBoth(s, FromBytes(f[..HALF]), FromBytes(f[HALF..]), j0, j1);
            && (r.ready <==> f[HALF] != UT_CODE && FrameOk(f))
            && (f[HALF] != UT_CODE ==> r.frame == f && !r.waiting)
  {
    BytesRoundTrip(f[..HALF]);
    BytesRoundTrip(f[HALF..]);
    assert f == f[..HALF] + f[HALF..];
    var s1 := Collect(s, FromBytes(f[..HALF]), j0);
    assert s1.frame[..HALF] == f[..HALF];
  }

  /** A frame once reported stays so until the flag is cleared. */
  lemma ReadyStays(s: Assembler, word: nat, junk: seq<bv8>)
    requires |s.frame| == 2 * HALF && |junk| == HALF && s.ready
    ensures Collect(s, word, junk).ready
  {
  }

  /** Reading the same second half again, as the main loop does once a frame is ready, changes nothing. */
  lemma ReadAgain(s: Assembler, f: seq<bv8>, j0: seq<bv8>, j1: seq<bv8>, j2: seq<bv8>)
    requires |s.frame| == |f| == 2 * HALF && |j0| == |j1| == |j2| == HALF && f[0] == UT_CODE && f[HALF] != UT_CODE
    ensures var w1 := FromBytes(f[HALF..]);
            var r := CollectBoth(s, FromBytes(f[..HALF]), w1, j0, j1);
            Collect(r, w1, j2) == r
  {
    BytesRoundTrip(f[..HALF]);
    BytesRoundTrip(f[HALF..]);
  }

  /** The same two words handed over n times. */
  function CollectAgain(s: Assembler, w0: nat, w1: nat, n: nat, junk: seq<bv8>): (r: Assembler)
    requires |s.frame| == 2 * HALF && |junk| == HALF
    ensures |r.frame| == 2 * HALF
  {
    if n == 0 then s else CollectBoth(CollectAgain(s, w0, w1, n - 1, junk), w0, w1, junk, junk)
  }

  /** A frame tagged 0xAA in both halves is not reported, however often it is sent. */
  lemma {:induction false} TaggedTwice(s: Assembler, f: seq<bv8>, n: nat, junk: seq<bv8>)
    requires |s.frame| == |f| == 2 * HALF && |junk| == HALF && !s.ready
    requires f[0] == UT_CODE && f[HALF] == UT_CODE
    ensures !CollectAgain(s, FromBytes(f[..HALF]), FromBytes(f[HALF..]), n, junk).ready
    decreases n
  {
    if n > 0 {
      TaggedTwice(s, f, n - 1, junk);
      BytesRoundTrip(f[..HALF]);
      BytesRoundTrip(f[HALF..]);
    }
  }

  /** There are such frames with a correct CRC. */
  lemma NeverReported(s: Assembler, n: nat, junk: seq<bv8>) returns (f: seq<bv8>)
    requires |s.frame| == 2 * HALF && |junk| == HALF && !s.ready
    ensures |f| == 2 * HALF && f[0] == UT_CODE && FrameOk(f)
    ensures !CollectAgain(s, FromBytes(f[..HALF]), FromBytes(f[HALF..]), n, junk).ready
  {
    var head: seq<bv8> := [UT_CODE, 0, 0, 0, 0, 0, 0, 0, UT_CODE, 0, 0, 0, 0, 0];
    var crc := Run(0, head);
    f := head + [Lo(crc), Hi(crc)];
    assert f[..14] == head;
    WordOfParts(crc);
    TaggedTwice(s, f, n, junk);
  }

  /**
    The whole path: each half sent by `generateUtRcuSignal` after any history, every symbol 100 to
    600 microseconds late, whatever the register held before; the word is read after each half.
   */
  lemma FrameOverTheAir(
    s: Assembler, d: Decoder, f: seq<bv8>, before: seq<nat>, ds0: seq<nat>, between: seq<nat>, ds1: seq<nat>,
    j0: seq<bv8>, j1: seq<bv8>)
    requires |s.frame| == |f| == 2 * HALF && |j0| == |j1| == HALF && !s.ready && f[0] == UT_CODE
    requires IsIdle(UT, d)
    requires Late(ds0, Symbols(UT, UT_LEAD, FromBytes(f[..HALF])), UT.width)
    requires Late(ds1, Symbols(UT, UT_LEAD, FromBytes(f[HALF..])), UT.width)
    ensures var d0 := Ticks(UT, d, before + ds0);
            var d1 := Ticks(UT, d, before + ds0 + between + ds1);
            var r := CollectBoth(s, d0.data, d1.data, j0, j1);
            && d0.flag && d1.flag
            && (r.ready <==> f[HALF] != UT_CODE && FrameOk(f))
            && (r.ready ==> r.frame == f)
  {
    ProtocolsSane();
    FromBytesFits(f[..HALF]);
    FromBytesFits(f[HALF..]);
    WordDelivered(UT, UT_LEAD, d, before, FromBytes(f[..HALF]), ds0);
    WordDelivered(UT, UT_LEAD, d, before + ds0 + between, FromBytes(f[HALF..]), ds1);
    FrameReported(s, f, j0, j1);
  }

  /** The code `generateRcuSignal` sends is what the 32-bit decoder reads, under the same lateness. */
  lemma VendorCodeDelivered(d: Decoder, before: seq<nat>, ds: seq<nat>)
    requires IsIdle(NEC, d) && Late(ds, Symbols(NEC, NEC_LEAD, VENDOR_CODE), NEC.width)
    ensures Ticks(NEC, d, before + ds).flag && Ticks(NEC, d, before + ds).data == VENDOR_CODE
  {
    ProtocolsSane();
    WordDelivered(NEC, NEC_LEAD, d, before, VENDOR_CODE, ds);
  }

  const VENDOR_CODE: nat := 0xA10C_D7D7

  // ---------------------------------------------------------------- the device

  /** `m_Rcu`, the edge timer, and the reassembly state. */
  class Remote {
    var flag: bool
    var end: bool
    var start: bool
    var timeout: nat
    var bitCount: nat
    var data32: nat
    var data64: nat
    var begin: int
    var waiting: bool
    var frame: seq<bv8>
    var ready: bool

    ghost predicate Valid()
      reads this
    {
      |frame| == 2 * HALF && data32 < NEC.modulus && data64 < UT.modulus
    }

    ghost function Decoder32(): Decoder
      reads this
    {
      Decoder(flag, end, start, timeout, bitCount, data32)
    }

    ghost function Decoder64(): Decoder
      reads this
    {
      Decoder(flag, end, start, timeout, bitCount, data64)
    }

    ghost function Halves(): Assembler
      reads this
    {
      Assembler(waiting, frame, ready)
    }

    constructor ()
      ensures Valid() && !start && flag && IsIdle(NEC, Decoder32()) && IsIdle(UT, Decoder64())
    {
      flag, end, start, timeout, bitCount, data32, data64 := true, false, false, 0, 0, 0, 0;
      begin := 0;
      waiting, frame, ready := false, seq(2 * HALF, _ => 0), false;
    }

    /** The difference of two timer readings, in a uint32_t. */
    function Elapsed(now: int): nat
      reads this
    {
      (now - begin) % 0x1_0000_0000
    }

    /** `rcuCallback`: the timer is read twice, for the end of this interval and the start of the next. */
    method RcuCallback(now: int, again: int)
      requires Valid()
      modifies this
      ensures Valid() && Decoder32() == Tick(NEC, old(Decoder32()), old(Elapsed(now)))
      ensures begin == again && Halves() == old(Halves())
      ensures data64 == old(data64)
    {
      var delta := Elapsed(now);
      begin := again;
      Edge32(delta);
    }

    method Edge32(delta: nat)
      requires Valid()
      modifies this`flag, this`end, this`start, this`timeout, this`bitCount, this`data32
      ensures Valid() && Decoder32() == Tick(NEC, old(Decoder32()), delta)
    {
      if 13430 - RANGE <= delta <= 13430 + RANGE {
        start, timeout, bitCount, data32 := true, 750, 32, 0;
      } else if start && bitCount > 0 {
        var bitOk := false;
        bitCount := bitCount - 1;
        if ONE - RANGE <= delta <= ONE + RANGE {
          data32, bitOk := SetLow(data32, true), true;
        } else if ZERO - RANGE <= delta <= ZERO + RANGE {
          data32, bitOk := SetLow(data32, false), true;
        }
        if bitOk {
          if bitCount == 0 {
            flag, start, timeout := true, false, 0;
          } else {
            data32 := Shl(data32, NEC.modulus);
          }
        } else {
          end, start, timeout, bitCount := false, false, 0, 0;
        }
      } else {
        end, start, timeout, bitCount := false, false, 0, 0;
      }
    }

    /** `rcuUtCallback`: the header resets the 32-bit register, not the one it shifts into. */
    method RcuUtCallback(now: int, again: int)
      requires Valid()
      modifies this
      ensures Valid() && Decoder64() == Tick(UT, old(Decoder64()), old(Elapsed(now)))
      ensures begin == again && Halves() == old(Halves())
      ensures data32 == if IsHeader(UT, old(Elapsed(now))) then 0 else old(data32)
    {
      var delta := Elapsed(now);
      begin := again;
      Edge64(delta);
    }

    method Edge64(delta: nat)
      requires Valid()
      modifies this`flag, this`end, this`start, this`timeout, this`bitCount, this`data32, this`data64
      ensures Valid() && Decoder64() == Tick(UT, old(Decoder64()), delta)
      ensures data32 == if IsHeader(UT, delta) then 0 else old(data32)
    {
      if 6700 - RANGE <= delta <= 6700 + RANGE {
        start, timeout, bitCount, data32 := true, 750, 64, 0;
      } else if start && bitCount > 0 {
        var bitOk := false;
        bitCount := bitCount - 1;
        if ONE - RANGE <= delta <= ONE + RANGE {
          data64, bitOk := SetLow(data64, true), true;
        } else if ZERO - RANGE <= delta <= ZERO + RANGE {
          data64, bitOk := SetLow(data64, false), true;
        }
        if bitOk {
          if bitCount == 0 {
            flag, start, timeout := true, false, 0;
          } else {
            data64 := Shl(data64, UT.modulus);
          }
        } else {
          end, start, timeout, bitCount := false, false, 0, 0;
        }
      } else {
        end, start, timeout, bitCount := false, false, 0, 0;
      }
    }

    /** `returnUtRcuCode`. */
    method ReturnUtRcuCode(junk: seq<bv8>)
      requires Valid() && |junk| == HALF
      modifies this`waiting, this`frame, this`ready
      ensures Valid() && Halves() == Collect(old(Halves()), data64, junk)
    {
      var half := ToBytes(data64, HALF);
      if half[0] == UT_CODE {
        frame := half + junk;
        waiting := true;
      } else if waiting {
        frame := frame[..HALF] + half;
        waiting := false;
        var crc := GenCrc16(frame[..14]);
        if crc == Word(frame[14], frame[15]) {
          ready := true;
        }
      }
    }
  }

  /** `generateUtRcuSignal` and `generateRcuSignal`: the symbols, most significant bit first. */
  method GenerateSignal(p: Protocol, lead: nat, word: nat) returns (symbols: seq<nat>)
    requires word < p.modulus
    ensures symbols == Symbols(p, lead, word)
  {
    symbols := [lead];
    var x: nat, n: nat := word, p.width;
    ghost var bits := TopBits(word, p.modulus, p.width);
    ghost var k := 0;
    while n > 0
      invariant k + n == p.width && x < p.modulus
      invariant bits[k..] == TopBits(x, p.modulus, n)
      invariant symbols == [lead] + BitSymbols(bits[..k])
    {
      FirstBit(bits, k);
      if 2 * x >= p.modulus {
        symbols := symbols + [MARK + ONE_SPACE];
      } else {
        symbols := symbols + [MARK + MARK];
      }
      x, n, k := Shl(x, p.modulus), n - 1, k + 1;
    }
    assert bits[..k] == bits;
    symbols := symbols + [MARK + MARK];
  }

  lemma FirstBit(bits: seq<bool>, k: nat)
    requires k < |bits|
    ensures bits[k..] == [bits[k]] + bits[k + 1..]
    ensures BitSymbols(bits[..k + 1]) == BitSymbols(bits[..k]) + [BitPeriod(bits[k])]
  {
  }
}
