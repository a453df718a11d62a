/**
  The CRC as division of polynomials over GF(2). A bit string stands for a polynomial with the bit
  sent first as its highest coefficient.
 */
module Polynomials {
  import opened Bytes
  import opened Registers
  import opened Crc
  import opened Detection

  const DEGREE := 16

  /** x^16 + x^15 + x^2 + 1. */
  function Generator(): (g: seq<bool>)
    ensures |g| == DEGREE + 1
  {
    [true, true] + Zeros(12) + [true, false, true]
  }

  function Sum(s: seq<bool>, t: seq<bool>): (r: seq<bool>)
    requires |s| == |t|
    ensures |r| == |s|
  {
    seq(|s|, i requires 0 <= i < |s| => s[i] != t[i])
  }

  /** The generator times x^n, or nothing. */
  function Term(b: bool, n: nat): (r: seq<bool>)
    ensures |r| == DEGREE + 1 + n
  {
    if b then Generator() + Zeros(n) else Zeros(DEGREE + 1 + n)
  }

  /** The product of a polynomial and the generator, by long multiplication. */
  function Times(q: seq<bool>): (r: seq<bool>)
    ensures |r| == |q| + DEGREE
  {
    if q == [] then Zeros(DEGREE)
    else Sum(Term(q[0], |q| - 1), [false] + Times(q[1..]))
  }

  ghost predicate IsMultiple(s: seq<bool>) {
    exists q :: s == Times(q)
  }

  lemma FeedLinear(c: bv16, d: bv16, a: bool, b: bool)
    ensures Feed(Plus(c, d), a != b) == Plus(Feed(c, a), Feed(d, b))
  {
    PlusBits(a, b);
    Regroup(c, BitWord(a), d, BitWord(b));
    StepLinear(Plus(c, BitWord(a)), Plus(d, BitWord(b)));
  }

  lemma {:induction false} RunBitsLinear(c: bv16, d: bv16, s: seq<bool>, t: seq<bool>)
    requires |s| == |t|
    ensures RunBits(Plus(c, d), Sum(s, t)) == Plus(RunBits(c, s), RunBits(d, t))
    decreases |s|
  {
    if s != [] {
      var n := |s| - 1;
      assert Sum(s, t)[..n] == Sum(s[..n], t[..n]);
      RunBitsLinear(c, d, s[..n], t[..n]);
      FeedLinear(RunBits(c, s[..n]), RunBits(d, t[..n]), s[n], t[n]);
    }
  }

  lemma RunSum(s: seq<bool>, t: seq<bool>)
    requires |s| == |t| && RunBits(0, t) == 0
    ensures RunBits(0, Sum(s, t)) == RunBits(0, s)
  {
    PlusZero(0);
    PlusZero(RunBits(0, s));
    RunBitsLinear(0, 0, s, t);
  }

  /** A leading zero coefficient does not matter. */
  lemma RunLeadingZero(s: seq<bool>)
    ensures RunBits(0, [false] + s) == RunBits(0, s)
  {
    RunBitsConcat(0, [false], s);
    RunBitsOne(0, false);
    PlusZero(0);
    StepInjective(0);
  }

  lemma GeneratorBits()
    ensures Bits([0x03, 0x40, 0x01]) == Generator() + Zeros(7)
  {
    var d: seq<bv8> := [0x03, 0x40, 0x01];
    forall i | 0 <= i < 24 ensures Bits(d)[i] == (Generator() + Zeros(7))[i] {
      ShiftedBit(d[i / 8], i % 8);
      if i < 8 {
        LowByteBits(i);
      } else if i < 16 {
        MiddleByteBits(i - 8);
      } else {
        HighByteBits(i - 16);
      }
    }
  }

  lemma LowByteBits(k: nat)
    requires k < 8
    ensures BitOf(0x03, k) == (k == 0 || k == 1)
  {
    ShiftedBit(0x03, k);
    if k == 0 { } else if k == 1 { } else if k == 2 { } else if k == 3 { }
    else if k == 4 { } else if k == 5 { } else if k == 6 { } else { }
  }

  lemma MiddleByteBits(k: nat)
    requires k < 8
    ensures BitOf(0x40, k) == (k == 6)
  {
    ShiftedBit(0x40, k);
    if k == 0 { } else if k == 1 { } else if k == 2 { } else if k == 3 { }
    else if k == 4 { } else if k == 5 { } else if k == 6 { } else { }
  }

  lemma HighByteBits(k: nat)
    requires k < 8
    ensures BitOf(0x01, k) == (k == 0)
  {
    ShiftedBit(0x01, k);
    if k == 0 { } else if k == 1 { } else if k == 2 { } else if k == 3 { }
    else if k == 4 { } else if k == 5 { } else if k == 6 { } else { }
  }

  lemma RunTerm(b: bool, n: nat)
    ensures RunBits(0, Term(b, n)) == 0
  {
    if b {
      RunGenerator();
      RunIsRunBits(0, [0x03, 0x40, 0x01]);
      GeneratorBits();
      var g := RunBits(0, Generator());
      RunBitsConcat(0, Generator(), Zeros(7));
      RunZeros(g, 7);
      StepsInjective(g, 7);
      RunBitsConcat(0, Generator(), Zeros(n));
      ZeroRun(n);
    } else {
      ZeroRun(DEGREE + 1 + n);
    }
  }

  lemma {:induction false} MultiplesRunToZero(q: seq<bool>)
    ensures RunBits(0, Times(q)) == 0
    decreases |q|
  {
    if q == [] {
      ZeroRun(DEGREE);
    } else {
      MultiplesRunToZero(q[1..]);
      RunLeadingZero(Times(q[1..]));
      RunSum(Term(q[0], |q| - 1), [false] + Times(q[1..]));
      RunTerm(q[0], |q| - 1);
    }
  }

  /** Long division: a string that runs to zero is the generator times the quotient found on the way. */
  lemma {:induction false} Divide(s: seq<bool>) returns (q: seq<bool>)
    requires |s| >= DEGREE && RunBits(0, s) == 0
    ensures s == Times(q)
    decreases |s|
  {
    if |s| == DEGREE {
      WindowNonZero(s);
      q := [];
    } else {
      var t := Reduced(s);
      var q' := Divide(t[1..]);
      q := [s[0]] + q';
      assert q[1..] == q';
      SumTwice(s, Term(s[0], |s| - DEGREE - 1));
    }
  }

  /** One step of the division: the generator taken off at the leading coefficient. */
  lemma Reduced(s: seq<bool>) returns (t: seq<bool>)
    requires |s| > DEGREE && RunBits(0, s) == 0
    ensures t == Sum(s, Term(s[0], |s| - DEGREE - 1)) && t == [false] + t[1..] && RunBits(0, t[1..]) == 0
  {
    var term := Term(s[0], |s| - DEGREE - 1);
    t := Sum(s, term);
    RunTerm(s[0], |s| - DEGREE - 1);
    RunSum(s, term);
    assert t == [false] + t[1..];
    RunLeadingZero(t[1..]);
  }

  lemma SumTwice(s: seq<bool>, t: seq<bool>)
    requires |s| == |t|
    ensures Sum(t, Sum(s, t)) == s
  {
  }

  /** The register runs to zero exactly on the multiples of the generator. */
  lemma ZeroIsMultiple(s: seq<bool>)
    requires |s| >= DEGREE
    ensures RunBits(0, s) == 0 <==> IsMultiple(s)
  {
    if RunBits(0, s) == 0 {
      var q := Divide(s);
    }
    if IsMultiple(s) {
      var q :| s == Times(q);
      MultiplesRunToZero(q);
    }
  }

  /** A block passes the frame check exactly when its polynomial is a multiple of the generator. */
  lemma ChecksIsDivisibility(block: seq<bv8>)
    requires |block| >= 2
    ensures Checks(block) <==> IsMultiple(Bits(block))
  {
    ChecksIsZero(block);
    RunIsRunBits(0, block);
    ZeroIsMultiple(Bits(block));
  }

  /** The value `gen_crc16` computes is the one word that makes the message a multiple of the generator. */
  lemma CrcIsRemainder(d: seq<bv8>, w: bv16)
    ensures IsMultiple(Bits(d + [Lo(w), Hi(w)])) <==> w == Run(0, d)
  {
    Residue(0, d, w);
    RunIsRunBits(0, d + [Lo(w), Hi(w)]);
    ZeroIsMultiple(Bits(d + [Lo(w), Hi(w)]));
  }

  /** An error goes unnoticed exactly when the flipped bits are themselves a multiple of the generator. */
  lemma UndetectedErrors(block: seq<bv8>, e: seq<bv8>)
    requires |block| == |e| >= 2 && Checks(block)
    ensures Checks(Xor(block, e)) <==> IsMultiple(Bits(e))
  {
    Undetected(block, e);
    ZeroIsMultiple(Bits(e));
  }
}
