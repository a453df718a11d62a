/** Two-digit hexadecimal text, as `sprintf("%02x")` writes it and `Hex2Dec` reads it. */
module Hex {

  function HexDigit(n: bv8): bv8
    requires n < 16
  {
    if n < 10 then 0x30 + n else 0x61 + (n - 10)
  }

  /** `Hex2Dec`: any other character reads as 0x55. */
  function Hex2Dec(c: bv8): bv8 {
    if 0x30 <= c <= 0x39 then c - 0x30
    else if 0x61 <= c <= 0x66 then c - 0x61 + 10
    else if 0x41 <= c <= 0x46 then c - 0x41 + 10
    else 0x55
  }

  function HighDigit(x: bv8): bv8 { HexDigit(x >> 4) }

  function LowDigit(x: bv8): bv8 { HexDigit(x & 0x0F) }

  /** Two characters read back as one byte; the sum wraps as the code's uint8_t does. */
  function ReadPair(h: bv8, l: bv8): bv8 { Hex2Dec(h) * 16 + Hex2Dec(l) }

  function HexString(d: seq<bv8>): (s: seq<bv8>)
    ensures |s| == 2 * |d|
  {
    seq(2 * |d|, i requires 0 <= i < 2 * |d| => if i % 2 == 0 then HighDigit(d[i / 2]) else LowDigit(d[i / 2]))
  }

  function Unhex(s: seq<bv8>): (d: seq<bv8>)
    ensures |d| == |s| / 2
  {
    seq(|s| / 2, i requires 0 <= i < |s| / 2 => ReadPair(s[2 * i], s[2 * i + 1]))
  }

  /** A character has a value below 16 exactly when it is a digit or one of a-f or A-F; all others read as 0x55. */
  lemma Hex2DecExactly(c: bv8)
    ensures Hex2Dec(c) < 16 <==> (0x30 <= c <= 0x39 || 0x61 <= c <= 0x66 || 0x41 <= c <= 0x46)
    ensures Hex2Dec(c) >= 16 ==> Hex2Dec(c) == 0x55
    ensures Hex2Dec(c) < 16 ==> c == HexDigit(Hex2Dec(c)) || (c >= 0x41 && c + 0x20 == HexDigit(Hex2Dec(c)))
  {
  }

  lemma ReadPrinted(x: bv8)
    ensures ReadPair(HighDigit(x), LowDigit(x)) == x
  {
  }

  lemma PairInText(d: seq<bv8>, k: nat)
    requires k < |d|
    ensures ReadPair(HexString(d)[2 * k], HexString(d)[2 * k + 1]) == d[k]
  {
    assert (2 * k) / 2 == k && (2 * k) % 2 == 0 && (2 * k + 1) / 2 == k && (2 * k + 1) % 2 == 1;
    ReadPrinted(d[k]);
  }

  lemma UnhexPrinted(d: seq<bv8>)
    ensures Unhex(HexString(d)) == d
  {
    forall i | 0 <= i < |d| ensures Unhex(HexString(d))[i] == d[i] {
      PairInText(d, i);
    }
  }

  /** Printed text is made of the digits 0-9 and a-f only. */
  predicate IsLowerHex(c: bv8) { 0x30 <= c <= 0x39 || 0x61 <= c <= 0x66 }

  lemma DigitIsLowerHex(n: bv8)
    requires n < 16
    ensures IsLowerHex(HexDigit(n))
  {
  }

  lemma PrintedIsHex(d: seq<bv8>, i: nat)
    requires i < 2 * |d|
    ensures IsLowerHex(HexString(d)[i])
  {
    DigitIsLowerHex(d[i / 2] >> 4);
    DigitIsLowerHex(d[i / 2] & 0x0F);
  }

  lemma HexPair(d: seq<bv8>, k: nat)
    requires k < |d|
    ensures HexString(d)[..2 * k + 2] == HexString(d)[..2 * k] + [HighDigit(d[k]), LowDigit(d[k])]
  {
    assert (2 * k) / 2 == k && (2 * k) % 2 == 0 && (2 * k + 1) / 2 == k && (2 * k + 1) % 2 == 1;
  }

  /** `sprintf(buf + at, "%02x", x)`: two digits and a terminating zero. */
  method PrintHex(buf: array<bv8>, at: nat, x: bv8)
    requires at + 2 < buf.Length
    modifies buf
    ensures buf[..] == old(buf[..at]) + [HighDigit(x), LowDigit(x), 0] + old(buf[at + 3..])
  {
    buf[at], buf[at + 1], buf[at + 2] := HighDigit(x), LowDigit(x), 0;
  }

  /** The printing loops: one `sprintf` per byte, each overwriting the zero of the one before. */
  method PrintAll(buf: array<bv8>, start: nat, d: seq<bv8>)
    requires start + 2 * |d| < buf.Length
    modifies buf
    ensures buf[..start] == old(buf[..start])
    ensures buf[start..start + 2 * |d|] == HexString(d)
    ensures buf[start + 2 * |d| + 1..] == old(buf[start + 2 * |d| + 1..])
  {
    var at := start;
    for k := 0 to |d|
      invariant at == start + 2 * k
      invariant buf[..start] == old(buf[..start])
      invariant buf[start..at] == HexString(d)[..2 * k]
      invariant buf[start + 2 * |d| + 1..] == old(buf[start + 2 * |d| + 1..])
    {
      HexPair(d, k);
      ghost var before := buf[..at];
      assert before == buf[..start] + buf[start..at];
      PrintHex(buf, at, d[k]);
      assert buf[..at] == before;
      at := at + 2;
      assert buf[start..at] == before[start..] + [buf[at - 2], buf[at - 1]];
    }
  }

  /** The decoding loops: `Hex2Dec` twice per byte. */
  method ReadHex(text: seq<bv8>) returns (d: seq<bv8>)
    ensures d == Unhex(text)
  {
    var buf := new bv8[|text| / 2](_ => 0);
    for i := 0 to buf.Length
      invariant buf[..i] == Unhex(text)[..i]
    {
      var c := Hex2Dec(text[i * 2]);
      c := c * 16 + Hex2Dec(text[i * 2 + 1]);
      assert Unhex(text)[i] == ReadPair(text[2 * i], text[2 * i + 1]);
      buf[i] := c;
    }
    d := buf[..];
  }
}
