/** Bytes, little-endian words, bit strings, and the 8-bit sum of a byte string. */
module Bytes {

  /** The low and the high byte of a 16-bit word, as a little-endian store lays them out. */
  function Lo(w: bv16): bv8 { (w & 0xFF) as bv8 }

  function Hi(w: bv16): bv8 { (w >> 8) as bv8 }

  function Word(lo: bv8, hi: bv8): bv16 { ((hi as bv16) << 8) | (lo as bv16) }

  lemma WordOfParts(w: bv16)
    ensures Word(Lo(w), Hi(w)) == w
  {
  }

  lemma PartsOfWord(lo: bv8, hi: bv8)
    ensures Lo(Word(lo, hi)) == lo && Hi(Word(lo, hi)) == hi
  {
  }

  /** Bit k of a byte, counted from the least significant one. */
  predicate BitOf(b: bv8, k: nat) {
    if k == 0 then b & 1 != 0 else BitOf(b >> 1, k - 1)
  }

  /** The bits of a byte string in transmission order: least significant bit of each byte first. */
  function Bits(d: seq<bv8>): (r: seq<bool>)
    ensures |r| == 8 * |d|
  {
    seq(8 * |d|, i requires 0 <= i < 8 * |d| => BitOf(d[i / 8], i % 8))
  }

  lemma BitsAt(d: seq<bv8>, p: nat, k: nat)
    requires p < |d| && k < 8
    ensures 8 * p + k < |Bits(d)| && Bits(d)[8 * p + k] == BitOf(d[p], k)
  {
    assert (8 * p + k) / 8 == p && (8 * p + k) % 8 == k;
  }

  lemma BitsConcat(a: seq<bv8>, b: seq<bv8>)
    ensures Bits(a + b) == Bits(a) + Bits(b)
  {
    forall i | 0 <= i < 8 * |a + b|
      ensures Bits(a + b)[i] == (Bits(a) + Bits(b))[i]
    {
      if i >= 8 * |a| {
        assert i / 8 - |a| == (i - 8 * |a|) / 8 && i % 8 == (i - 8 * |a|) % 8;
      }
    }
  }

  function Flip(x: bv8, y: bv8): bv8 { x ^ y }

  /** Bytewise exclusive or. */
  function Xor(a: seq<bv8>, b: seq<bv8>): (r: seq<bv8>)
    requires |a| == |b|
    ensures |r| == |a|
  {
    seq(|a|, i requires 0 <= i < |a| => Flip(a[i], b[i]))
  }

  /** The sum of the bytes, in a uint8_t. */
  function ByteSum(s: seq<bv8>): bv8 {
    if s == [] then 0 else Add(ByteSum(s[..|s| - 1]), s[|s| - 1])
  }

  function Add(x: bv8, y: bv8): bv8 { x + y }

  /** A byte as a number, and arithmetic modulo 256 on numbers. */
  function Number(x: bv8): (n: nat)
    ensures n < 256
  {
    x as nat
  }

  function Wrap8(n: nat): nat { n % 256 }

  function Increment(n: nat): nat { if n == 255 then 0 else n + 1 }

  function Next8(x: bv8): bv8 { x + 1 }

  lemma WrapIncrement(m: nat, n: nat)
    ensures Wrap8(m + (n + 1)) == Increment(Wrap8(m + n))
  {
  }

  lemma NumberInjective(x: bv8, y: bv8)
    ensures Number(x) == Number(y) <==> x == y
  {
  }

  lemma NextNumber(x: bv8)
    ensures Number(Next8(x)) == Increment(Number(x))
  {
  }

  lemma AddNext(x: bv8, y: bv8)
    ensures Add(x, Next8(y)) == Next8(Add(x, y)) && Add(x, 0) == x
  {
  }

  lemma Predecessor(y: bv8) returns (p: bv8)
    requires y != 0
    ensures y == Next8(p) && Number(y) == Number(p) + 1
  {
    p := y - 1;
    NextNumber(p);
  }

  lemma AddZero(x: bv8)
    ensures Number(Add(x, 0)) == Wrap8(Number(x) + Number(0))
  {
    AddNext(x, 0);
    assert Number(0) == 0;
  }

  /** The sum z of x and p, all counted up by one. */
  lemma CountUp(x: bv8, p: bv8, z: bv8)
    requires Number(z) == Wrap8(Number(x) + Number(p))
    ensures Number(Next8(z)) == Wrap8(Number(x) + (Number(p) + 1))
  {
    NextNumber(z);
    WrapIncrement(Number(x), Number(p));
  }

  /** So addition in a uint8_t is addition modulo 256. */
  lemma {:induction false} AddIsSum(x: bv8, y: bv8)
    ensures Number(Add(x, y)) == Wrap8(Number(x) + Number(y))
    decreases Number(y)
  {
    if y == 0 {
      AddZero(x);
    } else {
      var p := Predecessor(y);
      AddIsSum(x, p);
      AddNext(x, p);
      CountUp(x, p, Add(x, p));
      assert Add(x, y) == Next8(Add(x, p));
    }
  }

  /** The sum of the bytes as a number. */
  function NumberSum(s: seq<bv8>): nat {
    if s == [] then 0 else NumberSum(s[..|s| - 1]) + Number(s[|s| - 1])
  }

  lemma WrapSum(m: nat, n: nat)
    ensures Wrap8(Wrap8(m) + n) == Wrap8(m + n)
  {
  }

  /** The uint8_t accumulator holds the sum of the bytes modulo 256. */
  lemma {:induction false} ByteSumIsSum(s: seq<bv8>)
    ensures Number(ByteSum(s)) == Wrap8(NumberSum(s))
    decreases |s|
  {
    if s != [] {
      var a, x := s[..|s| - 1], s[|s| - 1];
      ByteSumIsSum(a);
      AddIsSum(ByteSum(a), x);
      WrapSum(NumberSum(a), Number(x));
    }
  }
}
