/** The infrared decoders and the reassembly of two 64-bit halves (Rcu.cpp). */
module Infrared {
  import opened Arithmetic

  // ---------------------------------------------------------------- powers and words

  function Pow2(n: nat): (p: nat)
    ensures p >= 1 && (n > 0 ==> p % 2 == 0)
  {
    if n == 0 then 1 else 2 * Pow2(n - 1)
  }

  /** The number a bit string denotes, most significant bit first. */
  function Value(s: seq<bool>): (v: nat)
    ensures v < Pow2(|s|)
  {
    if s == [] then 0 else 2 * Value(s[..|s| - 1]) + BitNumber(s[|s| - 1])
  }

  function BitNumber(b: bool): nat { if b then 1 else 0 }

  /** x = (x & ~1) | b. */
  function SetLow(x: nat, b: bool): nat { x - x % 2 + BitNumber(b) }

  /** x <<= 1 in a register that counts modulo the given power of two: the top bit falls out. */
  function Shl(x: nat, modulus: nat): nat {
    if 2 * x >= modulus then 2 * x - modulus else 2 * x
  }

  // ---------------------------------------------------------------- the decoder

  const RANGE := 400
  const ONE := 2200
  const ZERO := 1100

  /** What tells the two decoders apart; only the 32-bit one clears its register at a header. */
  datatype Protocol = Protocol(header: nat, width: nat, modulus: nat, clears: bool)

  const NEC := Protocol(13430, 32, 0x1_0000_0000, true)
  const UT := Protocol(6700, 64, 0x1_0000_0000_0000_0000, false)

  predicate Near(d: nat, centre: nat) { centre - RANGE <= d <= centre + RANGE }

  predicate IsHeader(p: Protocol, d: nat) { Near(d, p.header) }

  predicate IsBit(d: nat) { Near(d, ONE) || Near(d, ZERO) }

  datatype Decoder = Decoder(flag: bool, end: bool, start: bool, timeout: nat, bitCount: nat, data: nat)

  /** One falling edge, d microseconds after the one before. */
  function Tick(p: Protocol, s: Decoder, d: nat): Decoder {
    if IsHeader(p, d) then
      s.(start := true, timeout := 750, bitCount := p.width, data := if p.clears then 0 else s.data)
    else if s.start && s.bitCount > 0 && IsBit(d) then
      var y := SetLow(s.data, Near(d, ONE));
      if s.bitCount == 1 then s.(data := y, flag := true, start := false, timeout := 0, bitCount := 0)
      else s.(data := Shl(y, p.modulus), bitCount := s.bitCount - 1)
    else
      s.(end := false, start := false, timeout := 0, bitCount := 0)
  }

  function Ticks(p: Protocol, s: Decoder, ds: seq<nat>): Decoder {
    if ds == [] then s else Tick(p, Ticks(p, s, ds[..|ds| - 1]), ds[|ds| - 1])
  }

  /** The protocols the firmware uses: a header is never mistaken for a bit. */
  predicate Sane(p: Protocol) { p.width > 0 && p.modulus == Pow2(p.width) && p.header > ONE + 2 * RANGE }

  lemma ProtocolsSane()
    ensures Sane(NEC) && Sane(UT)
  {
    Pow2At32();
    Pow2At64();
  }

  lemma Pow2At32()
    ensures Pow2(32) == 0x1_0000_0000
  {
    EightMore(0);
    EightMore(8);
    EightMore(16);
    EightMore(24);
  }

  lemma Pow2At64()
    ensures Pow2(64) == 0x1_0000_0000_0000_0000
  {
    Pow2At32();
    EightMore(32);
    EightMore(40);
    EightMore(48);
    EightMore(56);
  }

  lemma EightMore(n: nat)
    ensures Pow2(8 + n) == 256 * Pow2(n)
  {
    Pow2Add(8, n);
    assert Pow2(8) == 256;
  }

  /** The last j + 1 intervals are a header and j bits. */
  predicate Suffix(p: Protocol, ds: seq<nat>, j: nat) {
    && j < |ds|
    && IsHeader(p, ds[|ds| - 1 - j])
    && forall i :: |ds| - j <= i < |ds| ==> IsBit(ds[i])
  }

  /** The bits the last j intervals stand for. */
  function LastBits(ds: seq<nat>, j: nat): (s: seq<bool>)
    requires j <= |ds|
    ensures |s| == j
  {
    seq(j, i requires 0 <= i < j => Near(ds[|ds| - j + i], ONE))
  }

  lemma SuffixUnique(p: Protocol, ds: seq<nat>, j: nat, k: nat)
    requires Sane(p)
    ensures Suffix(p, ds, j) && Suffix(p, ds, k) ==> j == k
  {
  }

  lemma SuffixGrows(p: Protocol, ds: seq<nat>, d: nat, j: nat)
    ensures Suffix(p, ds + [d], j + 1) <==> Suffix(p, ds, j) && IsBit(d)
    ensures Suffix(p, ds + [d], 0) <==> IsHeader(p, d)
    ensures j <= |ds| ==> LastBits(ds + [d], j + 1) == LastBits(ds, j) + [Near(d, ONE)]
  {
    var x := ds + [d];
    assert forall i :: 0 <= i < |ds| ==> x[i] == ds[i];
    if Suffix(p, x, j + 1) {
      assert IsBit(x[|ds|]);
      forall i | |ds| - j <= i < |ds| ensures IsBit(ds[i]) {
        assert IsBit(x[i]);
      }
    }
  }

  /** The register after a header and j bits, up to the stale bits still above them. */
  ghost predicate Holds(p: Protocol, x: nat, v: nat, j: nat) {
    && x < p.modulus
    && exists m: int :: Lifts(x, v, j, m)
  }

  predicate Lifts(x: nat, v: nat, j: nat, m: int) { Above(x - x % 2, 2 * v, j + 1, m) }

  /** y is v with a multiple of a power of two on top. */
  predicate Above(y: int, v: int, j: nat, m: int) { y == v + m * Pow2(j) }

  /** The decoder as a function of the intervals so far. */
  ghost predicate Follows(p: Protocol, s: Decoder, ds: seq<nat>) {
    && s.data < p.modulus
    && (s.start ==> 1 <= s.bitCount <= p.width && Suffix(p, ds, p.width - s.bitCount)
                    && Holds(p, s.data, Value(LastBits(ds, p.width - s.bitCount)), p.width - s.bitCount))
    && (forall j :: 0 <= j < p.width && Suffix(p, ds, j) ==> s.start)
  }

  lemma {:induction false} Pow2Add(a: nat, b: nat)
    ensures Pow2(a + b) == Pow2(a) * Pow2(b)
    decreases a
  {
    if a > 0 {
      Pow2Add(a - 1, b);
    }
  }

  lemma SetLowLifts(x: nat, v: nat, j: nat, m: int, b: bool)
    requires Lifts(x, v, j, m)
    ensures Above(SetLow(x, b), 2 * v + BitNumber(b), j + 1, m)
  {
  }

  /** Shifting drops the topmost bit, which is part of the stale multiple. */
  lemma ShlLifts(n: nat, y: nat, v: nat, j: nat, m: int) returns (m': int)
    requires j < n && y < Pow2(n) && Above(y, v, j, m)
    ensures Lifts(Shl(y, Pow2(n)), v, j, m') && Shl(y, Pow2(n)) < Pow2(n)
  {
    var p, q := Pow2(j), Pow2(n - 1 - j);
    Pow2Add(n - 1 - j, j);
    ShlValue(n, y);
    if y >= Pow2(n - 1) {
      m' := m - q;
      Distribute(m, q, p);
      assert Shl(y, Pow2(n)) == 2 * v + m' * Pow2(j + 1);
    } else {
      m' := m;
      Distribute(m, 0, p);
      assert Shl(y, Pow2(n)) == 2 * v + m' * Pow2(j + 1);
    }
  }

  lemma ShlValue(n: nat, y: nat)
    requires n > 0 && y < Pow2(n)
    ensures var z := Shl(y, Pow2(n));
            z % 2 == 0 && z < Pow2(n) && z == if y >= Pow2(n - 1) then 2 * y - 2 * Pow2(n - 1) else 2 * y
  {
  }

  lemma Distribute(m: int, q: int, p: int)
    ensures (m - q) * (2 * p) == 2 * (m * p) - 2 * (q * p)
    ensures m * (2 * p) == 2 * (m * p)
  {
  }

  lemma NoMultiple(y: nat, v: nat, n: nat, m: int)
    requires y < Pow2(n) && v < Pow2(n) && Above(y, v, n, m)
    ensures y == v
  {
    Magnitude(m, Pow2(n));
  }

  lemma SetLowFits(x: nat, n: nat, b: bool)
    requires n > 0 && x < Pow2(n)
    ensures SetLow(x, b) < Pow2(n)
  {
  }

  /** The interval that completes a word. */
  predicate Completes(p: Protocol, s: Decoder, d: nat) {
    s.start && s.bitCount == 1 && !IsHeader(p, d) && IsBit(d)
  }

  lemma ValueSnoc(s: seq<bool>, b: bool)
    ensures Value(s + [b]) == 2 * Value(s) + BitNumber(b)
  {
    assert (s + [b])[..|s|] == s;
  }

  lemma HeaderStep(p: Protocol, s: Decoder, ds: seq<nat>, d: nat)
    requires Sane(p) && Follows(p, s, ds) && IsHeader(p, d)
    ensures Follows(p, Tick(p, s, d), ds + [d])
  {
    var r := Tick(p, s, d);
    SuffixGrows(p, ds, d, 0);
    assert LastBits(ds + [d], 0) == [];
    assert Lifts(r.data, 0, 0, r.data / 2);
  }

  /** A bit while a word is coming in: the next bit of the word, or its last. */
  lemma BitStep(p: Protocol, s: Decoder, ds: seq<nat>, d: nat)
    requires Sane(p) && Follows(p, s, ds) && s.start && IsBit(d)
    ensures Follows(p, Tick(p, s, d), ds + [d])
    ensures s.bitCount == 1 ==>
              Suffix(p, ds + [d], p.width) && Tick(p, s, d).data == Value(LastBits(ds + [d], p.width))
  {
    if s.bitCount == 1 {
      LastBit(p, s, ds, d);
    } else {
      NextBit(p, s, ds, d);
    }
  }

  /** The register with the bit set: the bits so far, and stale bits above them. */
  lemma TakesBit(p: Protocol, s: Decoder, ds: seq<nat>, d: nat) returns (m: int)
    requires Sane(p) && Follows(p, s, ds) && s.start && IsBit(d)
    ensures var j := p.width - s.bitCount + 1;
            && Suffix(p, ds + [d], j)
            && Above(SetLow(s.data, Near(d, ONE)), Value(LastBits(ds + [d], j)), j, m)
    ensures SetLow(s.data, Near(d, ONE)) < Pow2(p.width)
  {
    var j := p.width - s.bitCount;
    var v := Value(LastBits(ds, j));
    m :| Lifts(s.data, v, j, m);
    SuffixGrows(p, ds, d, j);
    ValueSnoc(LastBits(ds, j), Near(d, ONE));
    SetLowLifts(s.data, v, j, m, Near(d, ONE));
    SetLowFits(s.data, p.width, Near(d, ONE));
  }

  lemma LastBit(p: Protocol, s: Decoder, ds: seq<nat>, d: nat)
    requires Sane(p) && Follows(p, s, ds) && s.start && IsBit(d) && s.bitCount == 1
    ensures Follows(p, Tick(p, s, d), ds + [d])
    ensures Suffix(p, ds + [d], p.width) && Tick(p, s, d).data == Value(LastBits(ds + [d], p.width))
  {
    var m := TakesBit(p, s, ds, d);
    NoMultiple(SetLow(s.data, Near(d, ONE)), Value(LastBits(ds + [d], p.width)), p.width, m);
    NoneOpen(p, ds, d);
  }

  lemma NextBit(p: Protocol, s: Decoder, ds: seq<nat>, d: nat)
    requires Sane(p) && Follows(p, s, ds) && s.start && IsBit(d) && s.bitCount > 1
    ensures Follows(p, Tick(p, s, d), ds + [d])
  {
    var j := p.width - s.bitCount + 1;
    var y, v := SetLow(s.data, Near(d, ONE)), Value(LastBits(ds + [d], j));
    var m := TakesBit(p, s, ds, d);
    var m' := ShlLifts(p.width, y, v, j, m);
    assert Holds(p, Tick(p, s, d).data, v, j);
  }

  /** After the last bit of a word, no word is coming in. */
  lemma NoneOpen(p: Protocol, ds: seq<nat>, d: nat)
    requires Sane(p) && IsBit(d) && Suffix(p, ds, p.width - 1)
    ensures forall k :: 0 <= k < p.width ==> !Suffix(p, ds + [d], k)
  {
    forall k | 0 <= k < p.width ensures !Suffix(p, ds + [d], k) {
      if k == 0 {
        SuffixGrows(p, ds, d, 0);
      } else {
        SuffixGrows(p, ds, d, k - 1);
        SuffixUnique(p, ds, k - 1, p.width - 1);
      }
    }
  }

  /** Anything else, and bits while no word is coming in. */
  lemma IdleStep(p: Protocol, s: Decoder, ds: seq<nat>, d: nat)
    requires Sane(p) && Follows(p, s, ds) && !IsHeader(p, d) && !(s.start && IsBit(d))
    ensures Follows(p, Tick(p, s, d), ds + [d]) && !Suffix(p, ds + [d], p.width)
  {
    forall k | 0 <= k <= p.width ensures !Suffix(p, ds + [d], k) {
      if k == 0 {
        SuffixGrows(p, ds, d, 0);
      } else {
        SuffixGrows(p, ds, d, k - 1);
      }
    }
  }

  predicate IsIdle(p: Protocol, s: Decoder) { !s.start && s.data < p.modulus }

  lemma {:induction false} FollowsAll(p: Protocol, s: Decoder, ds: seq<nat>)
    requires Sane(p) && IsIdle(p, s)
    ensures Follows(p, Ticks(p, s, ds), ds)
    decreases |ds|
  {
    if ds != [] {
      var a, d := ds[..|ds| - 1], ds[|ds| - 1];
      FollowsAll(p, s, a);
      assert ds == a + [d];
      var q := Ticks(p, s, a);
      if IsHeader(p, d) {
        HeaderStep(p, q, a, d);
      } else if q.start && IsBit(d) {
        BitStep(p, q, a, d);
      } else {
        IdleStep(p, q, a, d);
      }
    }
  }

  /**
    Over any history of intervals, the next one completes a word exactly when with it the last
    width + 1 intervals are a header followed by bits, and the register then holds those bits;
    while a word is coming in, between one and width bits remain.
   */
  lemma WordComplete(p: Protocol, s: Decoder, ds: seq<nat>, d: nat)
    requires Sane(p) && IsIdle(p, s)
    ensures var q := Ticks(p, s, ds);
            && (q.start ==> 1 <= q.bitCount <= p.width)
            && (Completes(p, q, d) <==> Suffix(p, ds + [d], p.width))
            && (Completes(p, q, d) ==> Tick(p, q, d).flag && Tick(p, q, d).data == Value(LastBits(ds + [d], p.width)))
            && (!Completes(p, q, d) ==> Tick(p, q, d).flag == q.flag)
  {
    FollowsAll(p, s, ds);
    var q := Ticks(p, s, ds);
    SuffixGrows(p, ds, d, p.width - 1);
    if q.start {
      SuffixUnique(p, ds, p.width - 1, p.width - q.bitCount);
    }
    if q.start && IsBit(d) {
      BitStep(p, q, ds, d);
    }
  }

  /** The timeout and the counter are set while a word is coming in and clear otherwise; the end flag never rises. */
  lemma {:induction false} RestFollows(p: Protocol, s: Decoder, ds: seq<nat>)
    requires p.width > 0 && !s.start && s.timeout == 0 && s.bitCount == 0 && !s.end
    ensures var q := Ticks(p, s, ds);
            && q.timeout == (if q.start then 750 else 0) && !q.end
            && (if q.start then 1 <= q.bitCount <= p.width else q.bitCount == 0)
    decreases |ds|
  {
    if ds != [] {
      RestFollows(p, s, ds[..|ds| - 1]);
    }
  }

  /** From a cleared flag: it is up exactly when some prefix of the intervals ends in a whole word. */
  lemma {:induction false} FlagRaised(p: Protocol, s: Decoder, ds: seq<nat>)
    requires Sane(p) && IsIdle(p, s) && !s.flag
    ensures Ticks(p, s, ds).flag <==> exists n :: 0 <= n <= |ds| && Suffix(p, ds[..n], p.width)
    decreases |ds|
  {
    if ds == [] {
    } else {
      var k := |ds| - 1;
      var a, d := ds[..k], ds[k];
      FlagRaised(p, s, a);
      WordComplete(p, s, a, d);
      assert ds == a + [d] && ds[..k + 1] == ds;
      assert forall n :: 0 <= n <= k ==> a[..n] == ds[..n];
    }
  }

  // ---------------------------------------------------------------- the transmitter

  /** Microseconds of carrier and of silence per symbol. */
  const MARK := 350
  const ONE_SPACE := 1350
  const NEC_LEAD := 8000 + 5000
  const UT_LEAD := 4000 + 2500

  function BitPeriod(b: bool): nat { if b then MARK + ONE_SPACE else MARK + MARK }

  /** The top n bits of a register, taken off by testing the top bit and shifting left. */
  function TopBits(x: nat, modulus: nat, n: nat): (s: seq<bool>)
    ensures |s| == n
    decreases n
  {
    if n == 0 then [] else [2 * x >= modulus] + TopBits(Shl(x, modulus), modulus, n - 1)
  }

  /** The periods of a header, the bits of a word, and the closing symbol. */
  function Symbols(p: Protocol, lead: nat, x: nat): (s: seq<nat>)
    ensures |s| == p.width + 2
  {
    [lead] + BitSymbols(TopBits(x, p.modulus, p.width)) + [BitPeriod(false)]
  }

  function BitSymbols(bits: seq<bool>): (s: seq<nat>)
    ensures |s| == |bits|
  {
    seq(|bits|, i requires 0 <= i < |bits| => BitPeriod(bits[i]))
  }

  lemma {:induction false} ValueOfTail(b: bool, s: seq<bool>)
    ensures Value([b] + s) == BitNumber(b) * Pow2(|s|) + Value(s)
    decreases |s|
  {
    if s == [] {
      assert ([b] + s)[..0] == [];
    } else {
      var n := |s| - 1;
      assert ([b] + s)[..n + 1] == [b] + s[..n];
      ValueOfTail(b, s[..n]);
    }
  }

  function Rest(x: nat, modulus: nat, n: nat): nat
    decreases n
  {
    if n == 0 then x else Rest(Shl(x, modulus), modulus, n - 1)
  }

  lemma ShlSplits(x: nat, modulus: nat)
    requires x < modulus
    ensures Shl(x, modulus) < modulus && BitNumber(2 * x >= modulus) * modulus + Shl(x, modulus) == 2 * x
  {
  }

  /** n shifts move the top n bits out: together with what is left they are x times 2 to the n. */
  lemma {:induction false} TopBitsValue(x: nat, modulus: nat, n: nat)
    requires x < modulus
    ensures Value(TopBits(x, modulus, n)) * modulus + Rest(x, modulus, n) == x * Pow2(n)
    ensures Rest(x, modulus, n) < modulus
    decreases n
  {
    if n > 0 {
      var b, y := 2 * x >= modulus, Shl(x, modulus);
      ShlSplits(x, modulus);
      TopBitsValue(y, modulus, n - 1);
      ValueOfTail(b, TopBits(y, modulus, n - 1));
      Recombine(BitNumber(b), Pow2(n - 1), Value(TopBits(y, modulus, n - 1)), modulus, x, y);
    }
  }

  lemma Recombine(b: nat, q: nat, v: nat, p: nat, x: nat, y: nat)
    requires b * p + y == 2 * x
    ensures (b * q + v) * p == v * p + x * (2 * q) - y * q
  {
    assert (b * q + v) * p == b * p * q + v * p;
    assert (b * p + y) * q == b * p * q + y * q;
    assert (2 * x) * q == x * (2 * q);
  }

  /** The bits sent denote the word sent. */
  lemma SentBits(p: Protocol, x: nat)
    requires Sane(p) && x < p.modulus
    ensures Value(TopBits(x, p.modulus, p.width)) == x
  {
    TopBitsValue(x, p.modulus, p.width);
    var v := Value(TopBits(x, p.modulus, p.width));
    Apart(x, v, p.modulus);
    Magnitude(x - v, p.modulus);
  }

  lemma Apart(x: nat, v: nat, p: nat)
    ensures (x - v) * p == x * p - v * p
  {
  }

  // ---------------------------------------------------------------- one word over the air

  /** What is sent, in microseconds: the header, 1700 for a one and 700 for a zero, and one more zero. */
  lemma SymbolsExactly(p: Protocol, lead: nat, x: nat)
    ensures var s, bits := Symbols(p, lead, x), TopBits(x, p.modulus, p.width);
            && s[0] == lead && s[p.width + 1] == 700
            && forall i :: 0 <= i < p.width ==> s[1 + i] == if bits[i] then 1700 else 700
  {
  }

  /** A header clears the 32-bit register; the 64-bit one keeps what it held. */
  lemma HeaderClears(s: Decoder, d: nat)
    ensures IsHeader(NEC, d) ==> Tick(NEC, s, d).data == 0
    ensures IsHeader(UT, d) ==> Tick(UT, s, d).data == s.data
  {
  }

  /** What the receivers take for a header and for a bit, in microseconds. */
  lemma WindowsExactly(d: nat)
    ensures IsHeader(NEC, d) <==> 13030 <= d <= 13830
    ensures IsHeader(UT, d) <==> 6300 <= d <= 7100
    ensures Near(d, ONE) <==> 1800 <= d <= 2600
    ensures IsBit(d) <==> 1800 <= d <= 2600 || 700 <= d <= 1500
    ensures NEC.width == 32 && UT.width == 64
  {
  }

  /** The intervals a receiver measures: every symbol comes 100 to 600 microseconds late. */
  predicate Late(ds: seq<nat>, symbols: seq<nat>, w: nat) {
    && |ds| == w + 1 <= |symbols|
    && forall i :: 0 <= i <= w ==> symbols[i] + 100 <= ds[i] <= symbols[i] + 600
  }

  lemma LateBits(p: Protocol, lead: nat, x: nat, ds: seq<nat>)
    requires Sane(p) && p.header - RANGE - 100 <= lead <= p.header + RANGE - 600
    requires Late(ds, Symbols(p, lead, x), p.width)
    ensures Suffix(p, ds, p.width) && LastBits(ds, p.width) == TopBits(x, p.modulus, p.width)
  {
    var s := Symbols(p, lead, x);
    assert s[0] == lead;
    forall i | 0 <= i < p.width
      ensures IsBit(ds[i + 1]) && Near(ds[i + 1], ONE) == TopBits(x, p.modulus, p.width)[i]
    {
      assert s[i + 1] == BitPeriod(TopBits(x, p.modulus, p.width)[i]);
      assert s[i + 1] + 100 <= ds[i + 1] <= s[i + 1] + 600;
    }
  }

  /** A word sent in either protocol is received, after any history and whatever the register held. */
  lemma WordDelivered(p: Protocol, lead: nat, s: Decoder, history: seq<nat>, x: nat, ds: seq<nat>)
    requires Sane(p) && IsIdle(p, s) && x < p.modulus
    requires p.header - RANGE - 100 <= lead <= p.header + RANGE - 600
    requires Late(ds, Symbols(p, lead, x), p.width)
    ensures var r := Ticks(p, s, history + ds);
            r.flag && r.data == x && !r.start
  {
    var k := |ds| - 1;
    var a := history + ds[..k];
    assert history + ds == a + [ds[k]] && (a + [ds[k]])[..|a|] == a;
    LateBits(p, lead, x, ds);
    var all := history + ds;
    assert forall i :: 0 <= i < |ds| ==> all[|history| + i] == ds[i];
    assert Suffix(p, all, p.width);
    assert LastBits(all, p.width) == LastBits(ds, p.width);
    WordComplete(p, s, a, ds[k]);
    SentBits(p, x);
  }
}
