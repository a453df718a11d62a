/**
  What the frame check of `gen_crc16` detects. A block is a message followed by its CRC, low byte
  first, as `send485` lays it out and `reform485toRx` checks it.
 */
module Detection {
  import opened Bytes
  import opened Registers
  import opened Crc

  /** The check of `reform485toRx`: the CRC of all but the last two bytes is the last two bytes. */
  predicate Checks(block: seq<bv8>)
    requires |block| >= 2
  {
    var n := |block| - 2;
    Run(0, block[..n]) == Word(block[n], block[n + 1])
  }

  lemma ChecksIsZero(block: seq<bv8>)
    requires |block| >= 2
    ensures Checks(block) <==> Run(0, block) == 0
  {
    var n := |block| - 2;
    var w := Word(block[n], block[n + 1]);
    PartsOfWord(block[n], block[n + 1]);
    assert block == block[..n] + [Lo(w), Hi(w)];
    Residue(0, block[..n], w);
  }

  /** An error pattern goes unnoticed exactly when it alone leaves a zero register. */
  lemma Undetected(block: seq<bv8>, e: seq<bv8>)
    requires |block| == |e| >= 2 && Checks(block)
    ensures Checks(Xor(block, e)) <==> RunBits(0, Bits(e)) == 0
  {
    ChecksIsZero(block);
    ChecksIsZero(Xor(block, e));
    PlusZero(0);
    RunLinear(0, 0, block, e);
    PlusZero(Run(0, e));
    RunIsRunBits(0, e);
  }

  // ---------------------------------------------------------------- counting flipped bits

  function Ones(s: seq<bool>): (r: nat)
    ensures r <= |s|
  {
    if s == [] then 0 else Ones(s[..|s| - 1]) + if s[|s| - 1] then 1 else 0
  }

  lemma {:induction false} OnesConcat(a: seq<bool>, b: seq<bool>)
    ensures Ones(a + b) == Ones(a) + Ones(b)
    decreases |b|
  {
    if b == [] {
      assert a + b == a;
    } else {
      assert (a + b)[..|a + b| - 1] == a + b[..|b| - 1];
      OnesConcat(a, b[..|b| - 1]);
    }
  }

  function Zeros(n: nat): (s: seq<bool>)
    ensures |s| == n
  {
    seq(n, _ => false)
  }

  lemma {:induction false} RunZeros(c: bv16, n: nat)
    ensures RunBits(c, Zeros(n)) == Steps(c, n)
    decreases n
  {
    if n > 0 {
      assert Zeros(n)[..n - 1] == Zeros(n - 1);
      RunZeros(c, n - 1);
      StepsAdd(c, n - 1, 1);
      var g := Steps(c, n - 1);
      assert Steps(g, 1) == Step(g);
      PlusZero(g);
    }
  }

  /** The first set bit of a pattern, and what follows it. */
  lemma {:induction false} FirstOne(s: seq<bool>) returns (k: nat)
    requires Ones(s) > 0
    ensures k < |s| && s[k] && s == Zeros(k) + [true] + s[k + 1..] && Ones(s[k + 1..]) == Ones(s) - 1
    decreases |s|
  {
    k := 0;
    while !s[k]
      invariant k < |s| && s[..k] == Zeros(k) && Ones(s[k..]) == Ones(s)
      decreases |s| - k
    {
      OnesSplit(s, k);
      k := k + 1;
      assert Zeros(k) == Zeros(k - 1) + [false];
    }
    OnesSplit(s, k);
    assert s == s[..k] + [s[k]] + s[k + 1..];
  }

  lemma OnesSplit(s: seq<bool>, k: nat)
    requires k < |s|
    ensures Ones(s[k..]) == Ones(s[k + 1..]) + if s[k] then 1 else 0
  {
    assert s[k..] == [s[k]] + s[k + 1..];
    OnesConcat([s[k]], s[k + 1..]);
    assert [s[k]][..0] == [];
    assert Ones([s[k]]) == if s[k] then 1 else 0;
  }

  lemma {:induction false} NoOnes(s: seq<bool>)
    requires Ones(s) == 0
    ensures s == Zeros(|s|)
    decreases |s|
  {
    if s != [] {
      NoOnes(s[..|s| - 1]);
      assert s == s[..|s| - 1] + [false] == Zeros(|s|);
    }
  }

  // ---------------------------------------------------------------- odd numbers of flips

  /** The parity of a register, as a register holding 0 or 1: fold the halves onto each other. */
  function Parity(c: bv16): bv16 { Low(Fold1(Fold2(Fold4(Fold8(c))))) }

  function Low(c: bv16): bv16 { c & 1 }

  function Fold8(c: bv16): bv16 { Plus(c, Shift8(c)) }

  function Fold4(c: bv16): bv16 { Plus(c, Shift4(c)) }

  function Fold2(c: bv16): bv16 { Plus(c, Shift2(c)) }

  function Fold1(c: bv16): bv16 { Plus(c, Shift1(c)) }

  function Shift8(c: bv16): bv16 { c >> 8 }

  function Shift4(c: bv16): bv16 { c >> 4 }

  function Shift2(c: bv16): bv16 { c >> 2 }

  function Shift1(c: bv16): bv16 { c >> 1 }

  lemma LowPlus(a: bv16, b: bv16)
    ensures Low(Plus(a, b)) == Plus(Low(a), Low(b))
  {
  }

  lemma Regroup(a: bv16, b: bv16, x: bv16, y: bv16)
    ensures Plus(Plus(a, b), Plus(x, y)) == Plus(Plus(a, x), Plus(b, y))
  {
    PlusAssoc(Plus(a, b), x, y);
    PlusSwap(a, b, x);
    PlusAssoc(Plus(a, x), b, y);
  }

  lemma Fold8Plus(a: bv16, b: bv16)
    ensures Fold8(Plus(a, b)) == Plus(Fold8(a), Fold8(b))
  {
    Shift8Plus(a, b);
    Regroup(a, b, Shift8(a), Shift8(b));
  }

  lemma Shift8Plus(a: bv16, b: bv16)
    ensures Shift8(Plus(a, b)) == Plus(Shift8(a), Shift8(b))
  {
  }

  lemma Fold4Plus(a: bv16, b: bv16)
    ensures Fold4(Plus(a, b)) == Plus(Fold4(a), Fold4(b))
  {
    Shift4Plus(a, b);
    Regroup(a, b, Shift4(a), Shift4(b));
  }

  lemma Shift4Plus(a: bv16, b: bv16)
    ensures Shift4(Plus(a, b)) == Plus(Shift4(a), Shift4(b))
  {
  }

  lemma Fold2Plus(a: bv16, b: bv16)
    ensures Fold2(Plus(a, b)) == Plus(Fold2(a), Fold2(b))
  {
    Shift2Plus(a, b);
    Regroup(a, b, Shift2(a), Shift2(b));
  }

  lemma Shift2Plus(a: bv16, b: bv16)
    ensures Shift2(Plus(a, b)) == Plus(Shift2(a), Shift2(b))
  {
  }

  lemma Fold1Plus(a: bv16, b: bv16)
    ensures Fold1(Plus(a, b)) == Plus(Fold1(a), Fold1(b))
  {
    Shift1Plus(a, b);
    Regroup(a, b, Shift1(a), Shift1(b));
  }

  lemma Shift1Plus(a: bv16, b: bv16)
    ensures Shift1(Plus(a, b)) == Plus(Shift1(a), Shift1(b))
  {
  }

  lemma ParityPlus(a: bv16, b: bv16)
    ensures Parity(Plus(a, b)) == Plus(Parity(a), Parity(b))
  {
    Fold8Plus(a, b);
    Fold4Plus(Fold8(a), Fold8(b));
    Fold2Plus(Fold4(Fold8(a)), Fold4(Fold8(b)));
    Fold1Plus(Fold2(Fold4(Fold8(a))), Fold2(Fold4(Fold8(b))));
    LowPlus(Fold1(Fold2(Fold4(Fold8(a)))), Fold1(Fold2(Fold4(Fold8(b)))));
  }

  lemma ParityConstants(b: bool)
    ensures Parity(BitWord(b)) == BitWord(b) && Parity(0) == 0
  {
  }

  function Nibble(c: bv16, mask: bv16): bv16 { c & mask }

  lemma NibbleStep(c: bv16, mask: bv16)
    requires mask == 0x000F || mask == 0x00F0 || mask == 0x0F00 || mask == 0xF000
    ensures Parity(Step(Nibble(c, mask))) == Parity(Nibble(c, mask))
  {
    if mask == 0x000F { } else if mask == 0x00F0 { } else if mask == 0x0F00 { } else { }
  }

  lemma Nibbles(c: bv16)
    ensures c == Plus(Plus(Nibble(c, 0x000F), Nibble(c, 0x00F0)), Plus(Nibble(c, 0x0F00), Nibble(c, 0xF000)))
  {
  }

  /** The generator has an even number of terms, so a step keeps the parity of the register. */
  lemma StepKeepsParity(c: bv16)
    ensures Parity(Step(c)) == Parity(c)
  {
    var n0, n1, n2, n3 := Nibble(c, 0x000F), Nibble(c, 0x00F0), Nibble(c, 0x0F00), Nibble(c, 0xF000);
    Nibbles(c);
    NibbleStep(c, 0x000F);
    NibbleStep(c, 0x00F0);
    NibbleStep(c, 0x0F00);
    NibbleStep(c, 0xF000);
    PartsKeepParity(n0, n1);
    PartsKeepParity(n2, n3);
    PartsKeepParity(Plus(n0, n1), Plus(n2, n3));
  }

  lemma PartsKeepParity(a: bv16, b: bv16)
    requires Parity(Step(a)) == Parity(a) && Parity(Step(b)) == Parity(b)
    ensures Parity(Step(Plus(a, b))) == Parity(Plus(a, b))
  {
    StepLinear(a, b);
    ParityPlus(a, b);
    ParityPlus(Step(a), Step(b));
  }

  lemma {:induction false} RunParity(s: seq<bool>)
    ensures Parity(RunBits(0, s)) == BitWord(Ones(s) % 2 == 1)
    decreases |s|
  {
    if s == [] {
      ParityConstants(false);
    } else {
      var a, b := s[..|s| - 1], s[|s| - 1];
      RunParity(a);
      var g := RunBits(0, a);
      FeedParity(g, b);
      PlusBits(Ones(a) % 2 == 1, b);
    }
  }

  lemma FeedParity(g: bv16, b: bool)
    ensures Parity(Feed(g, b)) == Plus(Parity(g), BitWord(b))
  {
    StepKeepsParity(Plus(g, BitWord(b)));
    ParityPlus(g, BitWord(b));
    ParityConstants(b);
  }

  lemma PlusBits(a: bool, b: bool)
    ensures Plus(BitWord(a), BitWord(b)) == BitWord(a != b)
  {
  }

  /** Any odd number of flipped bits is detected, in a block of any length. */
  lemma DetectsOddFlips(block: seq<bv8>, e: seq<bv8>)
    requires |block| == |e| >= 2 && Checks(block)
    requires Ones(Bits(e)) % 2 == 1
    ensures !Checks(Xor(block, e))
  {
    RunParity(Bits(e));
    ParityConstants(false);
    Undetected(block, e);
  }

  // ---------------------------------------------------------------- bursts

  lemma {:induction false} ZeroRun(n: nat)
    ensures RunBits(0, Zeros(n)) == 0
  {
    RunZeros(0, n);
    StepsInjective(0, n);
  }

  function Pack(u: seq<bool>): bv8
    requires |u| == 8
  {
    (if u[0] then 0x01 else 0) | (if u[1] then 0x02 else 0) | (if u[2] then 0x04 else 0) | (if u[3] then 0x08 else 0) |
    (if u[4] then 0x10 else 0) | (if u[5] then 0x20 else 0) | (if u[6] then 0x40 else 0) | (if u[7] then 0x80 else 0)
  }

  lemma PackBits(u: seq<bool>)
    requires |u| == 8
    ensures Bits([Pack(u)]) == u
  {
    var b := Pack(u);
    forall i | 0 <= i < 8 ensures BitOf(b, i) == u[i] {
      ShiftedBit(b, i);
      PackedBit(u, i);
    }
  }

  lemma PackedBit(u: seq<bool>, i: nat)
    requires |u| == 8 && i < 8
    ensures DataBit(Pack(u), i) == BitWord(u[i])
  {
    if i == 0 { } else if i == 1 { } else if i == 2 { } else if i == 3 { }
    else if i == 4 { } else if i == 5 { } else if i == 6 { } else { }
  }

  /** Sixteen bits fed to a zero register leave zero only if they are all zero. */
  lemma WindowNonZero(u: seq<bool>)
    requires |u| == 16
    ensures RunBits(0, u) == 0 ==> u == Zeros(16)
  {
    var lo, hi := Pack(u[..8]), Pack(u[8..]);
    var w := Word(lo, hi);
    PackBits(u[..8]);
    PackBits(u[8..]);
    PartsOfWord(lo, hi);
    BitsConcat([lo], [hi]);
    assert [lo] + [hi] == [Lo(w), Hi(w)] && u == u[..8] + u[8..];
    RunIsRunBits(0, [lo, hi]);
    RunWord(0, w);
    PlusZero(w);
    StepsInjective(w, 16);
    ZeroBytes();
  }

  lemma ZeroBytes()
    ensures Lo(0) == 0 && Hi(0) == 0 && Bits([0, 0]) == Zeros(16)
  {
    assert forall i {:induction false} :: 0 <= i < 16 ==> Bits([0, 0])[i] == BitOf(0, i % 8);
    forall i | 0 <= i < 8 ensures !BitOf(0, i) {
      ShiftedBit(0, i);
    }
  }

  /** The flipped bits all lie within sixteen consecutive positions, the first of them k. */
  ghost predicate Burst(s: seq<bool>, k: nat) {
    && (exists i :: 0 <= i < |s| && s[i])
    && (forall i :: 0 <= i < |s| && s[i] ==> k <= i < k + 16)
  }

  lemma BurstNonZero(s: seq<bool>, k: nat)
    requires |s| >= 16 && Burst(s, k)
    ensures RunBits(0, s) != 0
  {
    var j := if k + 16 <= |s| then k else |s| - 16;
    var u, rest := s[j..j + 16], |s| - j - 16;
    assert s == Zeros(j) + u + Zeros(rest);
    RunBitsConcat(0, Zeros(j) + u, Zeros(rest));
    RunBitsConcat(0, Zeros(j), u);
    ZeroRun(j);
    RunZeros(RunBits(0, u), rest);
    StepsInjective(RunBits(0, u), rest);
    WindowNonZero(u);
    var i :| 0 <= i < |s| && s[i];
    assert u[i - j] && !Zeros(16)[i - j];
  }

  /** Any burst of at most sixteen bits is detected, in a block of any length. */
  lemma DetectsBurst(block: seq<bv8>, e: seq<bv8>, k: nat)
    requires |block| == |e| >= 2 && Checks(block) && Burst(Bits(e), k)
    ensures !Checks(Xor(block, e))
  {
    BurstNonZero(Bits(e), k);
    Undetected(block, e);
  }

  // ---------------------------------------------------------------- up to three flips

  const POWERS: seq<bv16> :=
    [0x0001, 0x0002, 0x0004, 0x0008, 0x0010, 0x0020, 0x0040, 0x0080,
     0x0100, 0x0200, 0x0400, 0x0800, 0x1000, 0x2000, 0x4000, 0x8000]

  lemma PowersDouble(m: nat)
    requires m < 15
    ensures POWERS[m] < 0x8000 && POWERS[m + 1] == Doubled(POWERS[m])
  {
    if m < 4 { if m == 0 { } else if m == 1 { } else if m == 2 { } else { } }
    else if m < 8 { if m == 4 { } else if m == 5 { } else if m == 6 { } else { } }
    else if m < 12 { if m == 8 { } else if m == 9 { } else if m == 10 { } else { } }
    else { if m == 12 { } else if m == 13 { } else { } }
  }

  lemma StepDown(c: bv16, v: bv16)
    requires v < 0x8000 && Step(c) == v
    ensures c == Doubled(v)
  {
  }

  /** Within sixteen steps only a power of two reaches 1. */
  lemma {:induction false} ReachesOne(c: bv16, m: nat)
    requires m < 16 && Steps(c, m) == 1
    ensures c == POWERS[m]
    decreases m
  {
    if m > 0 {
      ReachesOne(Step(c), m - 1);
      PowersDouble(m - 1);
      StepDown(c, POWERS[m - 1]);
    }
  }

  /** The register 16 * k steps after a single set bit has entered it. */
  function Milestone(k: nat): bv16 {
    if k == 0 then 0xA001 else Sixteen(Milestone(k - 1))
  }

  function Sixteen(c: bv16): bv16 { Eight(Eight(c)) }

  function Eight(c: bv16): bv16 { Step(Step(Step(Step(Step(Step(Step(Step(c)))))))) }

  lemma {:induction false} MilestoneReached(k: nat)
    ensures Steps(0xA001, 16 * k) == Milestone(k)
    decreases k
  {
    if k > 0 {
      MilestoneReached(k - 1);
      StepsAdd(0xA001, 16 * (k - 1), 16);
      StepsAdd(Milestone(k - 1), 8, 8);
      EightSteps(Milestone(k - 1));
      EightSteps(Eight(Milestone(k - 1)));
    }
  }

  /** A register without its lowest set bit. */
  function Tail(c: bv16): bv16 { c & (c - 1) }

  lemma Milestones0()
    ensures Milestone(4) == 0xC661
    ensures forall k :: 0 <= k <= 4 ==> Tail(Milestone(k)) != 0
  {
    assert Milestone(0) == 0xA001 && Tail(0xA001) != 0;
    assert Milestone(1) == 0xE801 && Tail(0xE801) != 0;
    assert Milestone(2) == 0xDE01 && Tail(0xDE01) != 0;
    assert Milestone(3) == 0xC881 && Tail(0xC881) != 0;
    assert Milestone(4) == 0xC661 && Tail(0xC661) != 0;
  }

  lemma Milestones1()
    ensures Milestone(8) == 0xE861
    ensures forall k :: 4 <= k <= 8 ==> Tail(Milestone(k)) != 0
  {
    Milestones0();
    assert Milestone(4) == 0xC661 && Tail(0xC661) != 0;
    assert Milestone(5) == 0xC2A9 && Tail(0xC2A9) != 0;
    assert Milestone(6) == 0xC1FF && Tail(0xC1FF) != 0;
    assert Milestone(7) == 0x6080 && Tail(0x6080) != 0;
    assert Milestone(8) == 0xE861 && Tail(0xE861) != 0;
  }

  lemma Milestones2()
    ensures Milestone(12) == 0xEAAF
    ensures forall k :: 8 <= k <= 12 ==> Tail(Milestone(k)) != 0
  {
    Milestones1();
    assert Milestone(8) == 0xE861 && Tail(0xE861) != 0;
    assert Milestone(9) == 0xDE29 && Tail(0xDE29) != 0;
    assert Milestone(10) == 0xC89F && Tail(0xC89F) != 0;
    assert Milestone(11) == 0x6668 && Tail(0x6668) != 0;
    assert Milestone(12) == 0xEAAF && Tail(0xEAAF) != 0;
  }

  lemma Milestones3()
    ensures Milestone(17) == 0xD681
    ensures forall k :: 12 <= k <= 17 ==> Tail(Milestone(k)) != 0
  {
    Milestones2();
    assert Milestone(12) == 0xEAAF && Tail(0xEAAF) != 0;
    assert Milestone(13) == 0x7FFC && Tail(0x7FFC) != 0;
    assert Milestone(14) == 0xE000 && Tail(0xE000) != 0;
    assert Milestone(15) == 0x8801 && Tail(0x8801) != 0;
    assert Milestone(16) == 0xF601 && Tail(0xF601) != 0;
    assert Milestone(17) == 0xD681 && Tail(0xD681) != 0;
  }

  lemma MilestoneTail(k: nat)
    requires k < 18
    ensures Tail(Milestone(k)) != 0
  {
    Milestones0();
    Milestones1();
    Milestones2();
    Milestones3();
  }

  lemma PowerTail(m: nat)
    requires m < 16
    ensures Tail(POWERS[m]) == 0
  {
  }

  /** A single set bit does not come round to 1 again within the length of a frame. */
  lemma FrameApart(m: nat)
    requires m <= 270
    ensures Steps(0xA001, m) != 1
  {
    var k, r := m / 16, m % 16;
    MilestoneReached(k);
    StepsAdd(0xA001, 16 * k, r);
    if Steps(Milestone(k), r) == 1 {
      ReachesOne(Milestone(k), r);
      MilestoneTail(k);
      PowerTail(r);
    }
  }

  /** The shape of a two-bit pattern. */
  lemma TwoOnes(s: seq<bool>) returns (i: nat, m: nat, n: nat)
    requires Ones(s) == 2
    ensures s == Zeros(i) + [true] + Zeros(m) + [true] + Zeros(n)
  {
    i := FirstOne(s);
    var t := s[i + 1..];
    m := FirstOne(t);
    var v := t[m + 1..];
    NoOnes(v);
    n := |v|;
    assert s == Zeros(i) + [true] + t;
    assert t == Zeros(m) + [true] + Zeros(n);
  }

  lemma RunTwoOnes(i: nat, m: nat, n: nat)
    requires m <= 270
    ensures RunBits(0, Zeros(i) + [true] + Zeros(m) + [true] + Zeros(n)) != 0
  {
    RunBitsConcat(0, Zeros(i) + [true] + Zeros(m) + [true], Zeros(n));
    RunBitsConcat(0, Zeros(i) + [true] + Zeros(m), [true]);
    RunBitsConcat(0, Zeros(i) + [true], Zeros(m));
    RunBitsConcat(0, Zeros(i), [true]);
    ZeroRun(i);
    RunBitsOne(0, true);
    assert Feed(0, true) == 0xA001;
    RunZeros(0xA001, m);
    var g := Steps(0xA001, m);
    RunBitsOne(g, true);
    FrameApart(m);
    PlusCancel(g, 1);
    StepInjective(Plus(g, 1));
    RunZeros(Feed(g, true), n);
    StepsInjective(Feed(g, true), n);
  }

  /** One, two or three flipped bits are always detected in a block the size of a frame. */
  lemma DetectsThreeFlips(block: seq<bv8>, e: seq<bv8>)
    requires 2 <= |block| == |e| <= 34 && Checks(block)
    requires 1 <= Ones(Bits(e)) <= 3
    ensures !Checks(Xor(block, e))
  {
    if Ones(Bits(e)) == 2 {
      var i, m, n := TwoOnes(Bits(e));
      RunTwoOnes(i, m, n);
      Undetected(block, e);
    } else {
      DetectsOddFlips(block, e);
    }
  }

  lemma RunGenerator()
    ensures Run(0, [0x03, 0x40, 0x01]) == 0
  {
    var a: seq<bv8>, b: seq<bv8>, c: seq<bv8> := [0x03], [0x03, 0x40], [0x03, 0x40, 0x01];
    assert a[..0] == [] && b[..1] == a && c[..2] == b;
    EightSteps(Plus(0, Wide(0x03)));
    var r1 := Run(0, a);
    EightSteps(Plus(r1, Wide(0x40)));
    var r2 := Run(0, b);
    assert r2 == Wide(0x01);
    StepsInjective(0, 8);
  }

  /** Both limits are tight: the generator itself is four flips spread over seventeen bits. */
  lemma GeneratorUndetected(block: seq<bv8>)
    requires |block| == 34 && Checks(block)
    ensures Checks(Xor(block, [0x03, 0x40, 0x01] + seq(31, _ => 0)))
  {
    var g: seq<bv8> := [0x03, 0x40, 0x01];
    var z: seq<bv8> := seq(31, _ => 0);
    RunConcat(0, g, z);
    RunGenerator();
    RunZeroBytes(z);
    RunIsRunBits(0, g + z);
    Undetected(block, g + z);
  }

  lemma {:induction false} RunZeroBytes(z: seq<bv8>)
    requires forall i :: 0 <= i < |z| ==> z[i] == 0
    ensures Run(0, z) == 0
    decreases |z|
  {
    if z != [] {
      RunZeroBytes(z[..|z| - 1]);
      PlusZero(0);
      StepsInjective(0, 8);
    }
  }
}
