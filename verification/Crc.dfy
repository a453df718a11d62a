/**
  The two CRC-16 routines that share the generator x^16 + x^15 + x^2 + 1: the augmented,
  left-shifting `gen_crc16` of UttecUtil.cpp and the reflected `ModRTU_CRC` of modBus.cpp.
 */
module Crc {
  import opened Bytes
  import opened Registers

  // ---------------------------------------------------------------- the reflected register

  function Steps(c: bv16, n: nat): bv16
    decreases n
  {
    if n == 0 then c else Steps(Step(c), n - 1)
  }

  lemma EightSteps(c: bv16)
    ensures Steps(c, 8) == Step(Step(Step(Step(Step(Step(Step(Step(c))))))))
  {
    var c3 := Step(Step(Step(c)));
    var c6 := Step(Step(Step(c3)));
    assert Steps(c, 8) == Steps(Step(c), 7) == Steps(Step(Step(c)), 6) == Steps(c3, 5);
    assert Steps(c3, 5) == Steps(Step(c3), 4) == Steps(Step(Step(c3)), 3) == Steps(c6, 2);
    assert Steps(c6, 2) == Steps(Step(c6), 1) == Step(Step(c6));
  }

  /** The register after the byte string d, started from c. */
  function Run(c: bv16, d: seq<bv8>): bv16 {
    if d == [] then c
    else Next(Run(c, d[..|d| - 1]), d[|d| - 1])
  }

  /** One message byte through the register. */
  function Next(c: bv16, x: bv8): bv16 { Steps(Plus(c, Wide(x)), 8) }

  /** One message bit through the register. */
  function Feed(c: bv16, b: bool): bv16 {
    Step(Plus(c, BitWord(b)))
  }

  /** The register after a bit string, one message bit per step. */
  function RunBits(c: bv16, s: seq<bool>): bv16 {
    if s == [] then c
    else Feed(RunBits(c, s[..|s| - 1]), s[|s| - 1])
  }

  lemma {:induction false} RunConcat(c: bv16, a: seq<bv8>, b: seq<bv8>)
    ensures Run(c, a + b) == Run(Run(c, a), b)
    decreases |b|
  {
    if b == [] {
      assert a + b == a;
    } else {
      assert (a + b)[..|a + b| - 1] == a + b[..|b| - 1];
      RunConcat(c, a, b[..|b| - 1]);
    }
  }

  lemma {:induction false} RunBitsConcat(c: bv16, a: seq<bool>, b: seq<bool>)
    ensures RunBits(c, a + b) == RunBits(RunBits(c, a), b)
    decreases |b|
  {
    if b == [] {
      assert a + b == a;
    } else {
      assert (a + b)[..|a + b| - 1] == a + b[..|b| - 1];
      RunBitsConcat(c, a, b[..|b| - 1]);
    }
  }

  // ---------------------------------------------------------------- the bytewise loop is the bitwise one

  lemma WideParts(x: bv8)
    ensures Wide(x) == Plus(BitWord(BitOf(x, 0)), Wide(x & 0xFE))
    ensures Step(Wide(x & 0xFE)) == Wide(x >> 1)
  {
    if x & 1 == 0 { } else { }
  }

  /** One step consumes the low bit of a byte added to the register and moves the rest down. */
  lemma StepByte(c: bv16, x: bv8)
    ensures Step(Plus(c, Wide(x))) == Plus(Feed(c, BitOf(x, 0)), Wide(x >> 1))
  {
    WideParts(x);
    PlusAssoc(c, BitWord(BitOf(x, 0)), Wide(x & 0xFE));
    StepLinear(Plus(c, BitWord(BitOf(x, 0))), Wide(x & 0xFE));
  }

  function LowBits(x: bv8, k: nat): (r: seq<bool>)
    ensures |r| == k
  {
    seq(k, i requires 0 <= i < k => BitOf(x, i))
  }

  function DropBits(x: bv8, k: nat): bv8
    decreases k
  {
    if k == 0 then x else DropBits(x >> 1, k - 1)
  }

  lemma {:induction false} StepsByte(c: bv16, x: bv8, k: nat)
    ensures Steps(Plus(c, Wide(x)), k) == Plus(RunBits(c, LowBits(x, k)), Wide(DropBits(x, k)))
    decreases k
  {
    if k > 0 {
      var c' := Feed(c, BitOf(x, 0));
      StepByte(c, x);
      StepsByte(c', x >> 1, k - 1);
      assert LowBits(x, k) == [BitOf(x, 0)] + LowBits(x >> 1, k - 1);
      RunBitsConcat(c, [BitOf(x, 0)], LowBits(x >> 1, k - 1));
      RunBitsOne(c, BitOf(x, 0));
    }
  }

  lemma RunBitsOne(c: bv16, b: bool)
    ensures RunBits(c, [b]) == Feed(c, b)
  {
    assert [b][..0] == [];
  }

  lemma DropByte(x: bv8)
    ensures DropBits(x, 8) == 0
  {
    assert DropBits(x, 8) == DropBits(x >> 1, 7) == DropBits(x >> 1 >> 1, 6) == DropBits(x >> 1 >> 1 >> 1, 5)
        == DropBits(x >> 1 >> 1 >> 1 >> 1, 4) == DropBits(x >> 1 >> 1 >> 1 >> 1 >> 1, 3);
  }

  lemma RunByte(c: bv16, x: bv8)
    ensures Steps(Plus(c, Wide(x)), 8) == RunBits(c, Bits([x]))
  {
    StepsByte(c, x, 8);
    DropByte(x);
    PlusZero(RunBits(c, LowBits(x, 8)));
    assert Bits([x]) == LowBits(x, 8);
  }

  lemma {:induction false} RunIsRunBits(c: bv16, d: seq<bv8>)
    ensures Run(c, d) == RunBits(c, Bits(d))
    decreases |d|
  {
    if d != [] {
      var a, x := d[..|d| - 1], d[|d| - 1];
      RunIsRunBits(c, a);
      RunByte(Run(c, a), x);
      assert d == a + [x];
      BitsConcat(a, [x]);
      RunBitsConcat(c, Bits(a), Bits([x]));
    }
  }

  // ---------------------------------------------------------------- linearity and residue

  lemma {:induction false} StepsLinear(a: bv16, b: bv16, n: nat)
    ensures Steps(Plus(a, b), n) == Plus(Steps(a, n), Steps(b, n))
    decreases n
  {
    if n > 0 {
      StepLinear(a, b);
      StepsLinear(Step(a), Step(b), n - 1);
    }
  }

  lemma NextLinear(p: bv16, q: bv16, x: bv8, y: bv8)
    ensures Next(Plus(p, q), Flip(x, y)) == Plus(Next(p, x), Next(q, y))
  {
    PlusShuffle(p, q, x, y);
    StepsLinear(Plus(p, Wide(x)), Plus(q, Wide(y)), 8);
  }

  /** The register is linear in the start value and the message together. */
  lemma {:induction false} RunLinear(c: bv16, c': bv16, a: seq<bv8>, b: seq<bv8>)
    requires |a| == |b|
    ensures Run(Plus(c, c'), Xor(a, b)) == Plus(Run(c, a), Run(c', b))
    decreases |a|
  {
    if a != [] {
      var n := |a| - 1;
      assert Xor(a, b)[..n] == Xor(a[..n], b[..n]);
      RunLinear(c, c', a[..n], b[..n]);
      NextLinear(Run(c, a[..n]), Run(c', b[..n]), a[n], b[n]);
    }
  }

  lemma {:induction false} StepsInjective(c: bv16, n: nat)
    ensures Steps(c, n) == 0 <==> c == 0
    decreases n
  {
    if n > 0 {
      StepInjective(c);
      StepsInjective(Step(c), n - 1);
    }
  }

  lemma {:induction false} StepsAdd(c: bv16, m: nat, n: nat)
    ensures Steps(c, m + n) == Steps(Steps(c, m), n)
    decreases m
  {
    if m > 0 {
      StepsAdd(Step(c), m - 1, n);
    }
  }

  /** A byte in the high half of the register comes down unchanged in eight steps. */
  lemma StepsHigh(x: bv8)
    ensures Steps(High(x), 8) == Wide(x)
  {
    var c3 := Step(Step(Step(High(x))));
    var c6 := Step(Step(Step(c3)));
    assert c3 == (x as bv16) << 5;
    assert c6 == (x as bv16) << 2;
    EightSteps(High(x));
  }

  /** Running the two bytes of a word, low byte first, adds the word and shifts sixteen times. */
  lemma RunWord(c: bv16, w: bv16)
    ensures Run(c, [Lo(w), Hi(w)]) == Steps(Plus(c, w), 16)
  {
    var p := Plus(c, Wide(Lo(w)));
    assert [Lo(w), Hi(w)][..1] == [Lo(w)] && [Lo(w)][..0] == [];
    assert Run(c, [Lo(w)]) == Steps(p, 8) by {
      assert Run(c, []) == c;
    }
    PlusWord(c, w);
    StepsLinear(p, High(Hi(w)), 8);
    StepsHigh(Hi(w));
    StepsAdd(Plus(c, w), 8, 8);
  }

  /**
    Appending a word to a message leaves a zero register exactly when the word is the CRC of the
    message: the check value of section 6.2.2 of MODBUS over Serial Line V1.02, and its uniqueness.
   */
  lemma Residue(c: bv16, d: seq<bv8>, w: bv16)
    ensures Run(c, d + [Lo(w), Hi(w)]) == 0 <==> w == Run(c, d)
  {
    RunConcat(c, d, [Lo(w), Hi(w)]);
    RunWord(Run(c, d), w);
    StepsInjective(Plus(Run(c, d), w), 16);
    PlusCancel(Run(c, d), w);
  }

  // ---------------------------------------------------------------- the augmented register

  /** The augmented register: the message bit enters at the far end, after the step. */
  function AugFeed(c: bv16, b: bool): bv16 { Plus(Step(c), TopWord(b)) }

  function Aug(c: bv16, s: seq<bool>): bv16 {
    if s == [] then c
    else AugFeed(Aug(c, s[..|s| - 1]), s[|s| - 1])
  }

  lemma StepsTop(b: bool)
    ensures Steps(TopWord(b), 16) == Feed(0, b)
  {
    if b {
      assert Steps(0x8000, 16) == Steps(0x0800, 12) == Steps(0x0080, 8) == Steps(0x0008, 4) == Step(1);
    } else {
      StepsInjective(0, 16);
    }
  }

  /** Sixteen further zero bits turn the augmented register into the direct one. */
  lemma {:induction false} AugIsRun(c: bv16, s: seq<bool>)
    ensures Steps(Aug(c, s), 16) == RunBits(Steps(c, 16), s)
    decreases |s|
  {
    if s != [] {
      var a, b := s[..|s| - 1], s[|s| - 1];
      var g := Aug(c, a);
      AugIsRun(c, a);
      StepsLinear(Step(g), TopWord(b), 16);
      StepsAdd(g, 16, 1);
      assert Steps(Step(g), 16) == Steps(g, 17);
      assert Steps(Steps(g, 16), 1) == Step(Steps(g, 16));
      StepsTop(b);
      StepLinear(Steps(g, 16), BitWord(b));
      PlusZero(BitWord(b));
    }
  }

  lemma ReverseStep(out: bv16, b: bool)
    ensures Rev(Reduce(Insert(Doubled(out), BitWord(b)), TopBit(out))) == AugFeed(Rev(out), b)
  {
    var s := Plus(Doubled(out), BitWord(b));
    InsertPlus(out, b);
    ReducePlus(s, TopBit(out));
    StepReversed(out);
    RevPlus(Doubled(out), BitWord(b));
    RevPlus(s, 0x8005);
    RevConstants(b);
    PlusSwap(Rev(Doubled(out)), TopWord(b), 0xA001);
  }

  function DataBit(x: bv8, k: nat): bv16
    requires k < 8
  {
    ((x >> k) & 1) as bv16
  }

  lemma ShiftedBit(x: bv8, k: nat)
    requires k < 8
    ensures DataBit(x, k) == BitWord(BitOf(x, k))
  {
    if k == 0 { } else if k == 1 { } else if k == 2 { } else if k == 3 { }
    else if k == 4 { } else if k == 5 { } else if k == 6 { } else { }
  }

  lemma ZeroTurn(out: bv16)
    ensures Rev(Reduce(Doubled(out), TopBit(out))) == Step(Rev(out))
  {
    ReverseStep(out, false);
    PlusZero(Step(Rev(out)));
    PlusZero(Doubled(out));
    InsertPlus(out, false);
  }

  /**
    `gen_crc16`: bits enter at the low end of a left-shifting register, sixteen zero bits follow,
    and the result is reversed. It returns what the reflected register holds when started from 0.
   */
  method GenCrc16(data: seq<bv8>) returns (crc: bv16)
    ensures crc == Run(0, data)
  {
    var out := Absorb(data);
    ghost var augmented := Rev(out);
    for i := 0 to 16
      invariant Rev(out) == Steps(augmented, i)
    {
      ZeroTurn(out);
      StepsAdd(augmented, i, 1);
      assert Steps(Steps(augmented, i), 1) == Step(Steps(augmented, i));
      var bitFlag := TopBit(out);
      out := Doubled(out);
      out := Reduce(out, bitFlag);
    }
    crc := Reverse(out);
    AugIsRun(0, Bits(data));
    StepsInjective(0, 16);
    RunIsRunBits(0, data);
  }

  /** The register, read backwards, after the first n bits of data. */
  predicate Absorbed(out: bv16, data: seq<bv8>, n: nat) {
    n <= |Bits(data)| && Rev(out) == Aug(0, Bits(data)[..n])
  }

  lemma AbsorbTurn(out: bv16, data: seq<bv8>, p: nat, k: nat)
    requires k < 8 && p < |data| && Absorbed(out, data, 8 * p + k)
    ensures Absorbed(Reduce(Insert(Doubled(out), DataBit(data[p], k)), TopBit(out)), data, 8 * p + k + 1)
  {
    BitsAt(data, p, k);
    ShiftedBit(data[p], k);
    ReverseStep(out, BitOf(data[p], k));
    var s, n := Bits(data), 8 * p + k;
    assert s[..n + 1][..n] == s[..n];
  }

  /** The first loop of `gen_crc16`. */
  method Absorb(data: seq<bv8>) returns (out: bv16)
    ensures Rev(out) == Aug(0, Bits(data))
  {
    out := 0;
    var bitsRead, pos, size := 0, 0, |data|;
    while size > 0
      invariant pos + size == |data| && 0 <= bitsRead < 8 && (size == 0 ==> bitsRead == 0)
      invariant Absorbed(out, data, 8 * pos + bitsRead)
      decreases size, 8 - bitsRead
    {
      AbsorbTurn(out, data, pos, bitsRead);
      var bitFlag := TopBit(out);
      out := Doubled(out);
      out := Insert(out, DataBit(data[pos], bitsRead));
      bitsRead := bitsRead + 1;
      if bitsRead > 7 {
        bitsRead, pos, size := 0, pos + 1, size - 1;
      }
      out := Reduce(out, bitFlag);
    }
    assert Bits(data)[..8 * |data|] == Bits(data);
  }

  /** The final loop of `gen_crc16`: mask i walks down from bit 15 while j walks up from bit 0. */
  method Reverse(out: bv16) returns (crc: bv16)
    ensures crc == Rev(out)
  {
    crc := 0;
    var i: bv32, j: bv32 := 0x8000, 1;
    PartEnds(out);
    while i != 0
      invariant Mirror(i, j) && crc == Part(out, j)
      decreases i
    {
      MirrorStep(out, i, j, crc);
      if i & (out as bv32) != 0 {
        crc := crc | ((j & 0xFFFF) as bv16);
      }
      i, j := i >> 1, j << 1;
    }
  }
}
