/** The byte-at-a-time CRC of Flash.cpp, for the generator x^16 + x^12 + x^5 + 1. */
module FlashCrc {
  import opened Bytes
  import opened Registers
  import opened Wrappers

  /** One zero bit through the left-shifting register. */
  function LeftStep(c: bv16): bv16 {
    if c & 0x8000 != 0 then Plus(Doubled(c), 0x1021) else Doubled(c)
  }

  function LeftSteps(c: bv16, n: nat): bv16
    decreases n
  {
    if n == 0 then c else LeftSteps(LeftStep(c), n - 1)
  }

  /** Bit-by-bit CRC: each byte is added to the high end and eight steps are taken. */
  function BitCrc(c: bv16, d: seq<bv8>): bv16 {
    if d == [] then c
    else LeftSteps(Plus(BitCrc(c, d[..|d| - 1]), High(d[|d| - 1])), 8)
  }

  lemma {:induction false} BitCrcConcat(c: bv16, a: seq<bv8>, b: seq<bv8>)
    ensures BitCrc(c, a + b) == BitCrc(BitCrc(c, a), b)
    decreases |b|
  {
    if b == [] {
      assert a + b == a;
    } else {
      assert (a + b)[..|a + b| - 1] == a + b[..|b| - 1];
      BitCrcConcat(c, a, b[..|b| - 1]);
    }
  }

  lemma DoubledPlus(a: bv16, b: bv16)
    ensures Doubled(Plus(a, b)) == Plus(Doubled(a), Doubled(b))
    ensures Plus(a, b) & 0x8000 != 0 <==> (a & 0x8000 != 0) != (b & 0x8000 != 0)
  {
  }

  lemma PlusTwice(a: bv16, b: bv16, p: bv16)
    ensures Plus(Plus(a, p), Plus(b, p)) == Plus(a, b)
  {
    PlusAssoc(a, p, Plus(b, p));
    PlusUndo(b, p);
  }

  lemma PlusUndo(b: bv16, p: bv16)
    ensures Plus(p, Plus(b, p)) == b
  {
  }

  lemma LeftStepLinear(a: bv16, b: bv16)
    ensures LeftStep(Plus(a, b)) == Plus(LeftStep(a), LeftStep(b))
  {
    DoubledPlus(a, b);
    PlusTwice(Doubled(a), Doubled(b), 0x1021);
    PlusSwap(Doubled(a), Doubled(b), 0x1021);
    PlusAssoc(Doubled(a), Doubled(b), 0x1021);
  }

  lemma {:induction false} LeftStepsLinear(a: bv16, b: bv16, n: nat)
    ensures LeftSteps(Plus(a, b), n) == Plus(LeftSteps(a, n), LeftSteps(b, n))
    decreases n
  {
    if n > 0 {
      LeftStepLinear(a, b);
      LeftStepsLinear(LeftStep(a), LeftStep(b), n - 1);
    }
  }

  /** A byte in the low half only moves up. */
  lemma LowHalf(l: bv8)
    ensures LeftSteps(Wide(l), 8) == High(l)
  {
    var c3 := LeftStep(LeftStep(LeftStep(Wide(l))));
    var c6 := LeftStep(LeftStep(LeftStep(c3)));
    assert c3 == (l as bv16) << 3;
    assert c6 == (l as bv16) << 6;
    EightSteps(Wide(l));
  }

  lemma EightSteps(c: bv16)
    ensures LeftSteps(c, 8) == LeftStep(LeftStep(LeftStep(LeftStep(LeftStep(LeftStep(LeftStep(LeftStep(c))))))))
  {
    var c3 := LeftStep(LeftStep(LeftStep(c)));
    var c6 := LeftStep(LeftStep(LeftStep(c3)));
    assert LeftSteps(c, 8) == LeftSteps(LeftStep(c), 7) == LeftSteps(LeftStep(LeftStep(c)), 6) == LeftSteps(c3, 5);
    assert LeftSteps(c3, 5) == LeftSteps(LeftStep(c3), 4) == LeftSteps(LeftStep(LeftStep(c3)), 3) == LeftSteps(c6, 2);
    assert LeftSteps(c6, 2) == LeftSteps(LeftStep(c6), 1) == LeftStep(LeftStep(c6));
  }

  /** The byte's own contribution, as the shifts of the code compute it. */
  function Spread(t: bv8): bv16 {
    var u := (t ^ (t >> 4)) as bv16;
    u ^ (u << 12) ^ (u << 5)
  }

  lemma HighHalf(t: bv8)
    ensures LeftSteps(High(t), 8) == Spread(t)
  {
    EightSteps(High(t));
  }

  /** The five assignments of the loop body. */
  function Turn(c: bv16, x: bv8): bv16 {
    Fold3(Fold2(Fold1(Plus(SwapBytes(c), Wide(x)))))
  }

  function SwapBytes(c: bv16): bv16 { ((c >> 8) & 0xFF) | (c << 8) }

  function Fold1(c: bv16): bv16 { Plus(c, Down4(c)) }

  function Fold2(c: bv16): bv16 { Plus(c, Up12(c)) }

  function Fold3(c: bv16): bv16 { Plus(c, Up5(c)) }

  function Down4(c: bv16): bv16 { (c & 0xFF) >> 4 }

  function Up12(c: bv16): bv16 { (c << 8) << 4 }

  function Up5(c: bv16): bv16 { ((c & 0xFF) << 4) << 1 }

  /** What the folds add depends on the low byte alone. */
  lemma HighIgnored(l: bv8, c: bv16)
    ensures Down4(Plus(High(l), c)) == Down4(c)
    ensures Up12(Plus(High(l), c)) == Up12(c)
    ensures Up5(Plus(High(l), c)) == Up5(c)
  {
  }

  lemma Fold1KeepsHigh(l: bv8, c: bv16)
    ensures Fold1(Plus(High(l), c)) == Plus(High(l), Fold1(c))
  {
    HighIgnored(l, c);
    PlusAssoc(High(l), c, Down4(c));
  }

  lemma Fold2KeepsHigh(l: bv8, c: bv16)
    ensures Fold2(Plus(High(l), c)) == Plus(High(l), Fold2(c))
  {
    HighIgnored(l, c);
    PlusAssoc(High(l), c, Up12(c));
  }

  lemma Fold3KeepsHigh(l: bv8, c: bv16)
    ensures Fold3(Plus(High(l), c)) == Plus(High(l), Fold3(c))
  {
    HighIgnored(l, c);
    PlusAssoc(High(l), c, Up5(c));
  }

  lemma FoldWide(t: bv8)
    ensures Fold3(Fold2(Fold1(Wide(t)))) == Spread(t)
  {
  }

  lemma TurnFolds(l: bv8, t: bv8)
    ensures Fold3(Fold2(Fold1(Plus(High(l), Wide(t))))) == Plus(High(l), Spread(t))
  {
    Fold1KeepsHigh(l, Wide(t));
    Fold2KeepsHigh(l, Fold1(Wide(t)));
    Fold3KeepsHigh(l, Fold2(Fold1(Wide(t))));
    FoldWide(t);
  }

  lemma TurnEntry(c: bv16, x: bv8)
    ensures Plus(SwapBytes(c), Wide(x)) == Plus(High(Lo(c)), Wide(Flip(Hi(c), x)))
    ensures Plus(c, High(x)) == Plus(High(Flip(Hi(c), x)), Wide(Lo(c)))
  {
  }

  lemma PlusCommutes(a: bv16, b: bv16)
    ensures Plus(a, b) == Plus(b, a)
  {
  }

  lemma TurnIsEightSteps(c: bv16, x: bv8)
    ensures Turn(c, x) == LeftSteps(Plus(c, High(x)), 8)
  {
    var t := Flip(Hi(c), x);
    TurnEntry(c, x);
    TurnFolds(Lo(c), t);
    LeftStepsLinear(High(t), Wide(Lo(c)), 8);
    HighHalf(t);
    LowHalf(Lo(c));
    PlusCommutes(Spread(t), High(Lo(c)));
  }

  /** The value a computation starts from when no earlier result is handed in. */
  const INITIAL: bv16 := 0xFFFF

  function Start(prior: Option<bv16>): bv16 {
    if prior.Some? then prior.value else INITIAL
  }

  /** `ble_flash_crc16_compute`: the shift-and-xor loop computes the bit-by-bit CRC. */
  method Compute(data: seq<bv8>, prior: Option<bv16>) returns (crc: bv16)
    ensures crc == BitCrc(Start(prior), data)
  {
    crc := if prior == None then 0xFFFF else prior.value;
    for i := 0 to |data|
      invariant crc == BitCrc(Start(prior), data[..i])
    {
      assert data[..i + 1][..i] == data[..i];
      TurnIsEightSteps(crc, data[i]);
      crc := SwapBytes(crc);
      crc := Plus(crc, Wide(data[i]));
      crc := Fold1(crc);
      crc := Fold2(crc);
      crc := Fold3(crc);
    }
    assert data[..|data|] == data;
  }

  /** One byte into a register: its own contribution and that of what the register held. */
  lemma ByteIn(l: bv8, h: bv8, x: bv8)
    ensures LeftSteps(Plus(Plus(High(h), Wide(l)), High(x)), 8) == Plus(LeftSteps(High(Flip(h, x)), 8), High(l))
  {
    HighFlip(h, x, Wide(l));
    LeftStepsLinear(High(Flip(h, x)), Wide(l), 8);
    LowHalf(l);
  }

  lemma HighFlip(h: bv8, x: bv8, w: bv16)
    ensures Plus(Plus(High(h), w), High(x)) == Plus(High(Flip(h, x)), w)
  {
  }

  lemma FlipOnes(x: bv8)
    ensures Flip(0xFF, x) == !x && Flip(0, !x) == !x && Plus(High(0xFF), Wide(0xFF)) == 0xFFFF
    ensures Plus(High(0), Wide(0)) == 0
  {
  }

  lemma SecondByte(c: bv16, x: bv8)
    ensures Plus(Plus(c, High(0xFF)), High(x)) == Plus(Plus(c, High(0)), High(!x))
  {
  }

  lemma TwoBytes(c: bv16, x: bv8, y: bv8)
    ensures BitCrc(c, [x, y]) == LeftSteps(Plus(LeftSteps(Plus(c, High(x)), 8), High(y)), 8)
  {
    assert [x, y][..1] == [x] && [x][..0] == [];
    assert BitCrc(c, []) == c;
  }

  lemma FirstTwo(x: bv8, y: bv8)
    ensures BitCrc(0xFFFF, [x, y]) == BitCrc(0, [!x, !y])
  {
    FlipOnes(x);
    ByteIn(0xFF, 0xFF, x);
    ByteIn(0, 0, !x);
    SecondByte(LeftSteps(High(!x), 8), y);
    TwoBytes(0xFFFF, x, y);
    TwoBytes(0, !x, !y);
  }

  /**
    Starting from the initial value is complementing the first sixteen bits of the message and
    starting from zero.
   */
  lemma StartComplements(x: bv8, y: bv8, rest: seq<bv8>)
    ensures BitCrc(Start(None), [x, y] + rest) == BitCrc(0, [!x, !y] + rest)
  {
    FirstTwo(x, y);
    BitCrcConcat(0xFFFF, [x, y], rest);
    BitCrcConcat(0, [!x, !y], rest);
  }

  /** Handing the result over a to a computation over b gives the CRC of a followed by b. */
  lemma Resume(a: seq<bv8>, b: seq<bv8>, prior: Option<bv16>)
    ensures BitCrc(Start(Some(BitCrc(Start(prior), a))), b) == BitCrc(Start(prior), a + b)
  {
    BitCrcConcat(Start(prior), a, b);
  }
}
