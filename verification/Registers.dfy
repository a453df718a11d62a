/** Sixteen-bit shift registers over GF(2): the operations of the CRC loops and their identities. */
module Registers {
  import opened Bytes

  /** Addition of polynomials over GF(2). */
  function Plus(a: bv16, b: bv16): bv16 { a ^ b }

  /** A message byte, aligned with the low end of the register. */
  function Wide(x: bv8): bv16 { x as bv16 }

  function BitWord(b: bool): bv16 { if b then 1 else 0 }

  /** One zero bit through the reflected register. */
  function Step(c: bv16): bv16 {
    if c & 1 != 0 then (c >> 1) ^ 0xA001 else c >> 1
  }

  lemma StepLinear(a: bv16, b: bv16)
    ensures Step(Plus(a, b)) == Plus(Step(a), Step(b))
  {
    if a & 1 == 0 {
      if b & 1 == 0 { assert (a ^ b) & 1 == 0; } else { assert (a ^ b) & 1 != 0; }
    } else {
      if b & 1 == 0 { assert (a ^ b) & 1 != 0; } else { assert (a ^ b) & 1 == 0; }
    }
  }

  lemma PlusAssoc(a: bv16, b: bv16, c: bv16)
    ensures Plus(Plus(a, b), c) == Plus(a, Plus(b, c))
  {
  }

  lemma PlusZero(c: bv16)
    ensures Plus(c, 0) == c && Plus(0, c) == c && Plus(c, c) == 0
  {
  }

  lemma PlusShuffle(p: bv16, q: bv16, x: bv8, y: bv8)
    ensures Plus(Plus(p, q), Wide(Flip(x, y))) == Plus(Plus(p, Wide(x)), Plus(q, Wide(y)))
  {
  }

  lemma StepInjective(c: bv16)
    ensures Step(c) == 0 <==> c == 0
  {
  }

  function High(x: bv8): bv16 { (x as bv16) << 8 }

  lemma PlusWord(c: bv16, w: bv16)
    ensures Plus(c, w) == Plus(Plus(c, Wide(Lo(w))), High(Hi(w)))
  {
    PlusAssoc(c, Wide(Lo(w)), High(Hi(w)));
    PlusParts(w);
  }

  lemma PlusParts(w: bv16)
    ensures w == Plus(Wide(Lo(w)), High(Hi(w)))
  {
  }

  lemma PlusCancel(a: bv16, b: bv16)
    ensures Plus(a, b) == 0 <==> a == b
  {
    PlusZero(b);
    if Plus(a, b) == 0 {
      PlusAssoc(a, b, b);
      PlusZero(a);
    }
  }

  /** Bit reversal of a register. */
  function Rev(c: bv16): bv16 {
    ((c & 0x0001) << 15) | ((c & 0x0002) << 13) | ((c & 0x0004) << 11) | ((c & 0x0008) << 9) |
    ((c & 0x0010) << 7) | ((c & 0x0020) << 5) | ((c & 0x0040) << 3) | ((c & 0x0080) << 1) |
    ((c & 0x0100) >> 1) | ((c & 0x0200) >> 3) | ((c & 0x0400) >> 5) | ((c & 0x0800) >> 7) |
    ((c & 0x1000) >> 9) | ((c & 0x2000) >> 11) | ((c & 0x4000) >> 13) | ((c & 0x8000) >> 15)
  }

  function TopWord(b: bool): bv16 { if b then 0x8000 else 0 }

  lemma RevShift(c: bv16)
    ensures Rev(c << 1) == Rev(c) >> 1
    ensures c >> 15 != 0 <==> Rev(c) & 1 != 0
  {
  }

  lemma RevPlus(a: bv16, b: bv16)
    ensures Rev(Plus(a, b)) == Plus(Rev(a), Rev(b))
  {
  }

  lemma InsertPlus(out: bv16, b: bool)
    ensures Insert(Doubled(out), BitWord(b)) == Plus(Doubled(out), BitWord(b))
  {
    if b {
      InsertOne(out);
    } else {
      InsertZero(Doubled(out));
    }
  }

  lemma InsertOne(x: bv16)
    ensures Insert(Doubled(x), 1) == Plus(Doubled(x), 1)
  {
  }

  lemma InsertZero(y: bv16)
    ensures Insert(y, 0) == Plus(y, 0)
  {
  }

  lemma ReducePlus(out: bv16, flag: bv16)
    ensures Reduce(out, flag) == if flag != 0 then Plus(out, 0x8005) else out
  {
  }

  lemma StepReversed(out: bv16)
    ensures Step(Rev(out)) == if TopBit(out) != 0 then Plus(Rev(Doubled(out)), 0xA001) else Rev(Doubled(out))
  {
    RevShift(out);
  }

  lemma RevConstants(b: bool)
    ensures Rev(0x8005) == 0xA001 && Rev(BitWord(b)) == TopWord(b)
  {
  }

  lemma PlusSwap(a: bv16, b: bv16, c: bv16)
    ensures Plus(Plus(a, b), c) == Plus(Plus(a, c), b)
  {
  }

  /** The pieces of one turn of the left-shifting loops, in the order the code applies them. */
  function TopBit(out: bv16): bv16 { out >> 15 }

  function Doubled(out: bv16): bv16 { out << 1 }

  function Insert(out: bv16, bit: bv16): bv16 { out | bit }

  function Reduce(out: bv16, flag: bv16): bv16 { if flag != 0 then out ^ 0x8005 else out }

  /** The pairs of masks the loop goes through. */
  predicate Mirror(i: bv32, j: bv32) {
    || (i == 0x8000 && j == 0x0001) || (i == 0x4000 && j == 0x0002) || (i == 0x2000 && j == 0x0004)
    || (i == 0x1000 && j == 0x0008) || (i == 0x0800 && j == 0x0010) || (i == 0x0400 && j == 0x0020)
    || (i == 0x0200 && j == 0x0040) || (i == 0x0100 && j == 0x0080) || (i == 0x0080 && j == 0x0100)
    || (i == 0x0040 && j == 0x0200) || (i == 0x0020 && j == 0x0400) || (i == 0x0010 && j == 0x0800)
    || (i == 0x0008 && j == 0x1000) || (i == 0x0004 && j == 0x2000) || (i == 0x0002 && j == 0x4000)
    || (i == 0x0001 && j == 0x8000) || (i == 0 && j == 0x1_0000)
  }

  /** The reversed register below mask j. */
  function Part(out: bv16, j: bv32): bv16 { Rev(out) & (((j - 1) & 0xFFFF) as bv16) }

  lemma PartEnds(out: bv16)
    ensures Part(out, 1) == 0 && Part(out, 0x1_0000) == Rev(out)
  {
  }

  lemma MirrorStep(out: bv16, i: bv32, j: bv32, crc: bv16)
    requires i != 0 && Mirror(i, j) && crc == Part(out, j)
    ensures Mirror(i >> 1, j << 1)
    ensures (if i & (out as bv32) != 0 then crc | ((j & 0xFFFF) as bv16) else crc) == Part(out, j << 1)
  {
  }
}
