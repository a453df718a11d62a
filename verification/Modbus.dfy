/** Modbus RTU and Modbus ASCII framing (modBus.cpp). */
module Modbus {
  import opened Bytes
  import opened Registers
  import opened Crc
  import opened Detection
  import opened Hex
  import opened Wrappers

  const LENGTH := 70
  const HEAD := 72
  const COLON: bv8 := 0x3A
  const CR: bv8 := 0x0D
  const LF: bv8 := 0x0A

  // ---------------------------------------------------------------- the CRC of the line

  /** `ModRTU_CRC`. */
  method ModRtuCrc(buf: seq<bv8>) returns (crc: bv16)
    ensures crc == Run(0xFFFF, buf)
  {
    crc := 0xFFFF;
    for pos := 0 to |buf|
      invariant crc == Run(0xFFFF, buf[..pos])
    {
      assert buf[..pos + 1][..pos] == buf[..pos];
      crc := Plus(crc, Wide(buf[pos]));
      ghost var loaded := crc;
      var i := 8;
      while i != 0
        invariant 0 <= i <= 8 && crc == Steps(loaded, 8 - i)
      {
        StepsAdd(loaded, 8 - i, 1);
        assert Steps(crc, 1) == Step(crc);
        ShiftAndAdd(crc);
        if crc & 0x0001 != 0 {
          crc := crc >> 1;
          crc := Plus(crc, 0xA001);
        } else {
          crc := crc >> 1;
        }
        i := i - 1;
      }
    }
    assert buf[..|buf|] == buf;
  }

  lemma ShiftAndAdd(c: bv16)
    ensures Step(c) == if c & 0x0001 != 0 then Plus(c >> 1, 0xA001) else c >> 1
  {
  }

  /** The firmware's own CRC and the Modbus CRC of a message differ by a value its length fixes. */
  lemma CrcsDiffer(a: seq<bv8>, b: seq<bv8>)
    requires |a| == |b|
    ensures Plus(Run(0, a), Run(0xFFFF, a)) == Plus(Run(0, b), Run(0xFFFF, b))
  {
    CrcDifference(a);
    CrcDifference(b);
    assert Xor(a, a) == Xor(b, b) by {
      forall i | 0 <= i < |a| ensures Xor(a, a)[i] == Xor(b, b)[i] {
        FlipSelf(a[i]);
        FlipSelf(b[i]);
      }
    }
  }

  lemma FlipSelf(x: bv8)
    ensures Flip(x, x) == 0
  {
  }

  lemma CrcDifference(a: seq<bv8>)
    ensures Plus(Run(0, a), Run(0xFFFF, a)) == Run(0xFFFF, Xor(a, a))
  {
    RunLinear(0, 0xFFFF, a, a);
    PlusZero(0xFFFF);
  }

  // ---------------------------------------------------------------- the line state

  /** The received frame; `bytes` are slave, function and data as they lie in memory. */
  datatype Message = Message(bytes: seq<bv8>, length: nat, lengthForData: nat, lengthForLrc: nat, lrc: bv8)
  {
    predicate Valid() { |bytes| == HEAD }

    function Slave(): bv8
      requires Valid()
    {
      bytes[0]
    }

    function Function(): bv8
      requires Valid()
    {
      bytes[1]
    }

    function Data(n: nat): seq<bv8>
      requires Valid() && n <= LENGTH
    {
      bytes[2..2 + n]
    }
  }

  /** `m_status` is shared by both protocols. */
  datatype Line = Line(
    flag: bool, start: bool, count: nat,
    asciiRaw: seq<bv8>, asciiAt: int, asciiDone: bool,
    rtuRaw: seq<bv8>, rtuAt: nat, rtuDone: bool, silence: bool,
    message: Message)
  {
    predicate Valid() {
      |asciiRaw| == LENGTH && |rtuRaw| == LENGTH && message.Valid()
    }
  }

  // ---------------------------------------------------------------- RTU

  /** The line after `generateModRtu`: slave, function, data and the CRC, low byte first. */
  function RtuWire(slave: bv8, fn: bv8, data: seq<bv8>): (w: seq<bv8>)
    ensures |w| == |data| + 4
  {
    var head := [slave, fn] + data;
    head + [Lo(Run(0xFFFF, head)), Hi(Run(0xFFFF, head))]
  }

  /** An integer stored in a uint16_t. */
  function Wrap16(n: int): nat { n % 0x1_0000 }

  datatype RtuEvent = Byte(c: bv8) | Poll | Expire

  /** A character fits: the one that opens a frame rewinds the buffer first. */
  predicate RtuFits(s: Line, c: bv8) {
    (s.silence && !s.start) || s.rtuAt < LENGTH
  }

  function ParseRtu(s: Line, c: bv8): (r: Line)
    requires s.Valid() && RtuFits(s, c)
    ensures r.Valid()
  {
    if s.silence && !s.start then
      s.(flag := false, start := true, count := 1, rtuDone := false, silence := false,
         rtuRaw := s.rtuRaw[0 := c], rtuAt := 1)
    else
      s.(silence := false, rtuRaw := s.rtuRaw[s.rtuAt := c], rtuAt := s.rtuAt + 1, count := s.count + 1)
  }

  /** The check of `setModRData`: always over the first six bytes. */
  predicate RtuAccepted(raw: seq<bv8>, count: nat)
    requires |raw| == LENGTH && 2 <= count <= LENGTH
  {
    Run(0xFFFF, raw[..6]) == Word(raw[count - 2], raw[count - 1]) && raw[0] != 0
  }

  function RtuStored(s: Line): (r: Line)
    requires s.Valid() && 2 <= s.count <= LENGTH
    ensures r.Valid()
  {
    var m := s.message.(length := Wrap16(s.count - 4), bytes := s.rtuRaw[..s.count] + s.message.bytes[s.count..]);
    s.(start := false, message := m, rtuDone := s.rtuDone || RtuAccepted(s.rtuRaw, s.count))
  }

  /** `isRtuDone` with nothing to read. */
  function PollRtu(s: Line): (r: Line)
    requires s.Valid() && (s.start && s.silence ==> 2 <= s.count <= LENGTH)
    ensures r.Valid()
  {
    if s.start && s.silence then RtuStored(s) else s.(rtuDone := false)
  }

  predicate Fits(s: Line, e: RtuEvent)
    requires s.Valid()
  {
    match e
    case Byte(c) => RtuFits(s, c)
    case Poll => s.start && s.silence ==> 2 <= s.count <= LENGTH
    case Expire => true
  }

  function RtuStep(s: Line, e: RtuEvent): (r: Line)
    requires s.Valid() && Fits(s, e)
    ensures r.Valid()
  {
    match e
    case Byte(c) => ParseRtu(s, c)
    case Poll => PollRtu(s)
    case Expire => s.(silence := true)
  }

  /** The bytes among the events. */
  function Received(events: seq<RtuEvent>): seq<bv8> {
    if events == [] then []
    else
      var e := events[|events| - 1];
      Received(events[..|events| - 1]) + if e.Byte? then [e.c] else []
  }

  /** The line while a frame comes in: as many bytes as a buffer holds, the last followed by silence or not. */
  ghost predicate Collecting(s: Line, got: seq<bv8>, silent: bool) {
    && s.Valid() && s.start && s.silence == silent && !s.rtuDone && !s.flag
    && 1 <= |got| <= LENGTH && s.rtuAt == s.count == |got| && s.rtuRaw[..|got|] == got
  }

  predicate IdleRtu(s: Line) { s.Valid() && !s.start && s.silence }

  /** The line has fallen silent since the last character. */
  predicate Silent(events: seq<RtuEvent>) {
    events != [] &&
    var e := events[|events| - 1];
    e.Expire? || (e.Poll? && Silent(events[..|events| - 1]))
  }

  /** No poll finds silence behind a character: a silence that ends before it is noticed does not end a frame. */
  predicate Unbroken(events: seq<RtuEvent>) {
    events == [] ||
    var a, e := events[..|events| - 1], events[|events| - 1];
    Unbroken(a) && (e.Poll? ==> Received(a) == [] || !Silent(a))
  }

  /** The run of a list of events; one that would leave the buffer changes nothing. */
  function RtuRun(s: Line, events: seq<RtuEvent>): (r: Line)
    requires s.Valid()
    ensures r.Valid()
  {
    if events == [] then s
    else
      var q := RtuRun(s, events[..|events| - 1]);
      if Fits(q, events[|events| - 1]) then RtuStep(q, events[|events| - 1]) else q
  }

  lemma {:induction false} Collects(s: Line, events: seq<RtuEvent>)
    requires IdleRtu(s) && Unbroken(events) && |Received(events)| <= LENGTH
    ensures var r := RtuRun(s, events);
            if Received(events) == [] then IdleRtu(r) else Collecting(r, Received(events), Silent(events))
    decreases |events|
  {
    if events != [] {
      var a, e := events[..|events| - 1], events[|events| - 1];
      Collects(s, a);
      match e
      case Byte(c) => TakesByte(RtuRun(s, a), Received(a), Silent(a), c);
      case _ =>
    }
  }

  lemma TakesByte(q: Line, got: seq<bv8>, silent: bool, c: bv8)
    requires if got == [] then IdleRtu(q) else Collecting(q, got, silent)
    requires |got| < LENGTH
    ensures Fits(q, Byte(c)) && Collecting(RtuStep(q, Byte(c)), got + [c], false)
  {
    if got == [] {
      assert q.rtuRaw[0 := c][..1] == [c];
    } else {
      assert q.rtuRaw[|got| := c][..|got| + 1] == q.rtuRaw[..|got|] + [c];
    }
  }

  /** What the first poll after the silence finds: the CRC always covers the first six bytes. */
  lemma AfterSilence(s: Line, events: seq<RtuEvent>)
    requires IdleRtu(s) && Unbroken(events) && 6 <= |Received(events)| <= LENGTH
    ensures var w := Received(events);
            var r := RtuRun(s, events + [Expire, Poll]);
            && r.rtuDone == (w[0] != 0 && Run(0xFFFF, w[..6]) == Word(w[|w| - 2], w[|w| - 1]))
            && r.message.bytes[..|w|] == w && r.message.length == |w| - 4 && !r.start
  {
    Collects(s, events);
    assert events + [Expire, Poll] == events + [Expire] + [Poll];
    RtuSnoc(s, events, Expire);
    RtuSnoc(s, events + [Expire], Poll);
    PollAfter(RtuRun(s, events), Received(events), Silent(events));
  }

  lemma RtuSnoc(s: Line, events: seq<RtuEvent>, e: RtuEvent)
    requires s.Valid()
    ensures var q := RtuRun(s, events);
            RtuRun(s, events + [e]) == if Fits(q, e) then RtuStep(q, e) else q
  {
    assert (events + [e])[..|events|] == events;
  }

  /** A reported frame is reported by one poll only; the frame itself stays. */
  lemma ReportedOnce(s: Line, events: seq<RtuEvent>)
    requires IdleRtu(s) && Unbroken(events) && 6 <= |Received(events)| <= LENGTH
    ensures var r, q := RtuRun(s, events + [Expire, Poll]), RtuRun(s, events + [Expire, Poll] + [Poll]);
            q == r.(rtuDone := false)
  {
    AfterSilence(s, events);
    RtuSnoc(s, events + [Expire, Poll], Poll);
  }

  lemma PollAfter(q: Line, w: seq<bv8>, silent: bool)
    requires Collecting(q, w, silent) && 6 <= |w|
    ensures var r := PollRtu(q.(silence := true));
            && r.rtuDone == (w[0] != 0 && Run(0xFFFF, w[..6]) == Word(w[|w| - 2], w[|w| - 1]))
            && r.message.bytes[..|w|] == w && r.message.length == |w| - 4 && !r.start
            && r.message == q.message.(length := |w| - 4, bytes := w + q.message.bytes[|w|..])
  {
    assert forall i :: 0 <= i < |w| ==> q.rtuRaw[i] == q.rtuRaw[..|w|][i] == w[i];
    assert q.rtuRaw[..6] == w[..6];
  }

  /**
    Every frame of four data bytes with a non-zero slave comes through: fed to an idle line, with
    polls in between and silence at the end, it is reported with the same slave, function and data.
   */
  lemma RtuRoundTrip(s: Line, slave: bv8, fn: bv8, data: seq<bv8>, events: seq<RtuEvent>)
    requires IdleRtu(s) && slave != 0 && |data| == 4
    requires Unbroken(events) && Received(events) == RtuWire(slave, fn, data)
    ensures var r := RtuRun(s, events + [Expire, Poll]);
            && r.rtuDone && r.message.Slave() == slave && r.message.Function() == fn
            && r.message.Data(4) == data && r.message.length == 4
  {
    var head := [slave, fn] + data;
    var w := RtuWire(slave, fn, data);
    AfterSilence(s, events);
    var m := RtuRun(s, events + [Expire, Poll]).message;
    assert w[..6] == head;
    WordOfParts(Run(0xFFFF, head));
    assert m.bytes[0] == m.bytes[..|w|][0] && m.bytes[1] == m.bytes[..|w|][1];
    assert m.bytes[2..6] == m.bytes[..|w|][2..6] == data;
  }

  /**
    A reply of three data bytes, as `returnModRtu` sends for a level request, is recognised by
    another such line exactly when its CRC happens to be zero.
   */
  lemma RtuThreeBytes(s: Line, slave: bv8, fn: bv8, data: seq<bv8>, events: seq<RtuEvent>)
    requires IdleRtu(s) && slave != 0 && |data| == 3
    requires Unbroken(events) && Received(events) == RtuWire(slave, fn, data)
    ensures RtuRun(s, events + [Expire, Poll]).rtuDone <==> Run(0xFFFF, [slave, fn] + data) == 0
  {
    var head := [slave, fn] + data;
    var crc := Run(0xFFFF, head);
    AfterSilence(s, events);
    var w := RtuWire(slave, fn, data);
    assert w[..6] == head + [Lo(crc)];
    assert (head + [Lo(crc)])[..5] == head;
    WordOfParts(crc);
    HalfConsumed(crc);
  }

  /** Feeding a register its own low byte leaves its high byte. */
  lemma HalfConsumed(crc: bv16)
    ensures Next(crc, Lo(crc)) == Wide(Hi(crc))
    ensures Wide(Hi(crc)) == crc <==> crc == 0
  {
    PlusLow(crc);
    StepsHigh(Hi(crc));
  }

  lemma PlusLow(crc: bv16)
    ensures Plus(crc, Wide(Lo(crc))) == High(Hi(crc))
  {
  }

  /** The check value: a message followed by its own CRC, low byte first, has CRC 0. */
  lemma RtuResidue(slave: bv8, fn: bv8, data: seq<bv8>)
    ensures Run(0xFFFF, RtuWire(slave, fn, data)) == 0
  {
    var head := [slave, fn] + data;
    Residue(0xFFFF, head, Run(0xFFFF, head));
  }

  lemma OnesParts(x: bv8)
    ensures Plus(0xFFFF, Wide(x)) == Plus(Wide(!x), High(0xFF)) && Plus(0, Wide(!x)) == Plus(Wide(!x), High(0))
  {
  }

  lemma SecondOnes(c: bv16, y: bv8)
    ensures Plus(Plus(c, Wide(0xFF)), Wide(y)) == Plus(Plus(c, Wide(0)), Wide(!y))
  {
  }

  lemma TwoBytes(c: bv16, x: bv8, y: bv8)
    ensures Run(c, [x, y]) == Next(Next(c, x), y)
  {
    assert [x, y][..1] == [x] && [x][..0] == [];
    assert Run(c, []) == c;
  }

  lemma FirstTwo(x: bv8, y: bv8)
    ensures Run(0xFFFF, [x, y]) == Run(0, [!x, !y])
  {
    OnesParts(x);
    StepsLinear(Wide(!x), High(0xFF), 8);
    StepsLinear(Wide(!x), High(0), 8);
    StepsHigh(0xFF);
    StepsHigh(0);
    SecondOnes(Steps(Wide(!x), 8), y);
    TwoBytes(0xFFFF, x, y);
    TwoBytes(0, !x, !y);
  }

  /** Starting from 0xFFFF is complementing the first sixteen bits of the message and starting from zero. */
  lemma StartComplements(x: bv8, y: bv8, rest: seq<bv8>)
    ensures Run(0xFFFF, [x, y] + rest) == Run(0, [!x, !y] + rest)
  {
    FirstTwo(x, y);
    RunConcat(0xFFFF, [x, y], rest);
    RunConcat(0, [!x, !y], rest);
  }

  /** A frame of four data bytes is accepted exactly when the whole of it leaves the register zero. */
  lemma AcceptedIsZero(w: seq<bv8>)
    requires |w| == 8
    ensures Run(0xFFFF, w[..6]) == Word(w[6], w[7]) <==> Run(0xFFFF, w) == 0
  {
    var crc := Word(w[6], w[7]);
    PartsOfWord(w[6], w[7]);
    assert w == w[..6] + [Lo(crc), Hi(crc)];
    Residue(0xFFFF, w[..6], crc);
  }

  /** Whether flipped bits go unnoticed does not depend on the frame. */
  lemma FlippedRegister(slave: bv8, fn: bv8, data: seq<bv8>, e: seq<bv8>)
    requires |e| == |data| + 4
    ensures Run(0xFFFF, Xor(RtuWire(slave, fn, data), e)) == Run(0, e)
  {
    RtuResidue(slave, fn, data);
    PlusZero(0xFFFF);
    RunLinear(0xFFFF, 0, RtuWire(slave, fn, data), e);
    PlusZero(Run(0, e));
  }

  /** One to three, an odd number, or a burst of up to sixteen flipped bits do not leave the register zero. */
  lemma FlipsLeaveNonZero(e: seq<bv8>, k: nat)
    requires 2 <= |e| <= 34
    requires 1 <= Ones(Bits(e)) <= 3 || Ones(Bits(e)) % 2 == 1 || Burst(Bits(e), k)
    ensures Run(0, e) != 0
  {
    var zero: seq<bv8> := seq(|e|, _ => 0);
    assert Xor(zero, e) == e;
    RunZeroBytes(zero);
    ChecksIsZero(zero);
    ChecksIsZero(e);
    if Ones(Bits(e)) % 2 == 1 {
      DetectsOddFlips(zero, e);
    } else if 1 <= Ones(Bits(e)) <= 3 {
      DetectsThreeFlips(zero, e);
    } else {
      DetectsBurst(zero, e, k);
    }
  }

  /** A sent frame of four data bytes with such bits flipped is not reported. */
  lemma RtuCorruptionUnreported(
    s: Line, slave: bv8, fn: bv8, data: seq<bv8>, e: seq<bv8>, k: nat, events: seq<RtuEvent>)
    requires IdleRtu(s) && |data| == 4 && |e| == 8
    requires 1 <= Ones(Bits(e)) <= 3 || Ones(Bits(e)) % 2 == 1 || Burst(Bits(e), k)
    requires Unbroken(events) && Received(events) == Xor(RtuWire(slave, fn, data), e)
    ensures !RtuRun(s, events + [Expire, Poll]).rtuDone
  {
    var w := Received(events);
    AfterSilence(s, events);
    AcceptedIsZero(w);
    FlippedRegister(slave, fn, data, e);
    FlipsLeaveNonZero(e, k);
  }

  // ---------------------------------------------------------------- ASCII

  function Negate(x: bv8): bv8 { !x + 1 }

  /** The text the LRC covers: slave, function and data in hexadecimal. */
  function AsciiText(slave: bv8, fn: bv8, data: seq<bv8>): (t: seq<bv8>)
    ensures |t| == 2 * |data| + 4
  {
    HexString([slave, fn] + data)
  }

  /** The line after `generateModAscii`; the LRC is over the characters, not the bytes they encode. */
  function AsciiWire(slave: bv8, fn: bv8, data: seq<bv8>): (w: seq<bv8>)
    ensures |w| == 2 * |data| + 9
  {
    var text := AsciiText(slave, fn, data);
    var lrc := Negate(ByteSum(text));
    [COLON] + text + [HighDigit(lrc), LowDigit(lrc)] + [CR, LF]
  }

  predicate AsciiFits(s: Line, c: bv8)
    requires s.Valid()
  {
    if c == COLON && !s.start then true
    else if c == LF then
      s.start ==> 1 <= s.asciiAt <= LENGTH && (s.asciiRaw[s.asciiAt - 1] == CR ==> 7 <= s.count <= LENGTH)
    else s.count > LENGTH || 0 <= s.asciiAt < LENGTH
  }

  /** The two characters at index i of the text, read as one byte. */
  function PairAt(raw: seq<bv8>, i: nat): bv8
    requires i + 1 < |raw|
  {
    ReadPair(raw[i], raw[i + 1])
  }

  predicate LrcOk(raw: seq<bv8>, len: nat, lrc: bv8)
    requires len <= |raw|
  {
    Negate(ByteSum(raw[..len])) == lrc
  }

  /** The text decoded pair by pair into the frame. */
  function AsciiDecoded(s: Line, len: nat): (r: Line)
    requires s.Valid() && 4 <= len <= LENGTH - 3
    ensures r.Valid()
  {
    var length := len / 2;
    var bytes := Unhex(s.asciiRaw[..2 * length]) + s.message.bytes[length..];
    var lrc := PairAt(s.asciiRaw, 2 * length);
    s.(message := Message(bytes, length, length - 2, len, lrc))
  }

  function AsciiStored(s: Line, len: nat): (r: Line)
    requires s.Valid() && 4 <= len <= LENGTH - 3
    ensures r.Valid()
  {
    var d := AsciiDecoded(s, len);
    d.(asciiDone := d.asciiDone || (LrcOk(d.asciiRaw, len, d.message.lrc) && d.message.bytes[0] != 0))
  }

  function LineStored(s: Line): (r: Line)
    requires s.Valid() && 7 <= s.count <= LENGTH
    ensures r.Valid()
  {
    AsciiStored(s, s.count - 3).(flag := true, count := 0, start := false)
  }

  /** The line feed, with the pointer already stepped back onto the character before it. */
  function LineEnded(s: Line): (r: Line)
    requires s.Valid()
    requires s.start ==> 0 <= s.asciiAt < LENGTH && (s.asciiRaw[s.asciiAt] == CR ==> 7 <= s.count <= LENGTH)
    ensures r.Valid()
  {
    if s.start && s.asciiRaw[s.asciiAt] == CR then LineStored(s)
    else s.(flag := false, count := 0, start := false, asciiDone := false)
  }

  /** One character through `parseModAscii`. */
  function ParseAscii(s: Line, c: bv8): (r: Line)
    requires s.Valid() && AsciiFits(s, c)
    ensures r.Valid()
  {
    if c == COLON && !s.start then
      s.(asciiAt := 0, flag := false, count := 0, start := true, asciiDone := false)
    else if c == LF then
      LineEnded(s.(asciiAt := s.asciiAt - 1))
    else if s.count > LENGTH then
      s.(flag := false, count := 0, start := false, asciiDone := false)
    else
      s.(asciiRaw := s.asciiRaw[s.asciiAt := c], asciiAt := s.asciiAt + 1, count := s.count + 1)
  }

  function AsciiRun(s: Line, text: seq<bv8>): (r: Line)
    requires s.Valid()
    ensures r.Valid()
  {
    if text == [] then s
    else
      var q := AsciiRun(s, text[..|text| - 1]);
      if AsciiFits(q, text[|text| - 1]) then ParseAscii(q, text[|text| - 1]) else q
  }

  lemma {:induction false} AsciiConcat(s: Line, a: seq<bv8>, b: seq<bv8>)
    requires s.Valid()
    ensures AsciiRun(s, a + b) == AsciiRun(AsciiRun(s, a), b)
    decreases |b|
  {
    if b == [] {
      assert a + b == a;
    } else {
      assert (a + b)[..|a + b| - 1] == a + b[..|b| - 1];
      AsciiConcat(s, a, b[..|b| - 1]);
    }
  }

  /** A frame is coming in and its text so far is at the start of the buffer. */
  predicate Storing(s: Line, text: seq<bv8>) {
    && s.Valid() && s.start && !s.asciiDone && !s.flag
    && |text| <= LENGTH && s.count == s.asciiAt == |text| && s.asciiRaw[..|text|] == text
  }

  /** Characters other than line feed are stored in order; a colon inside a frame is data. */
  lemma {:induction false} AsciiStores(s: Line, text: seq<bv8>)
    requires Storing(s, []) && |text| <= LENGTH && LF !in text
    ensures Storing(AsciiRun(s, text), text)
    decreases |text|
  {
    if text != [] {
      var n := |text| - 1;
      assert forall x :: x in text[..n] ==> x in text;
      AsciiStores(s, text[..n]);
      assert text[n] in text;
      StoreOne(AsciiRun(s, text[..n]), text[..n], text[n]);
      assert text == text[..n] + [text[n]];
    }
  }

  lemma StoreOne(q: Line, text: seq<bv8>, c: bv8)
    requires Storing(q, text) && |text| < LENGTH && c != LF
    ensures AsciiFits(q, c) && Storing(ParseAscii(q, c), text + [c])
  {
    assert q.asciiRaw[|text| := c][..|text| + 1] == q.asciiRaw[..|text|] + [c];
  }

  /** The verdict on the text between colon and carriage return. */
  predicate AsciiAccepted(body: seq<bv8>)
    requires |body| >= 6
  {
    var len := |body| - 2;
    LrcOk(body, len, PairAt(body, len / 2 * 2)) && PairAt(body, 0) != 0
  }

  /** The line feed that ends a stored text. */
  lemma AsciiCloses(q: Line, body: seq<bv8>)
    requires 6 <= |body| < LENGTH && Storing(q, body + [CR])
    ensures AsciiFits(q, LF)
    ensures var r := ParseAscii(q, LF);
            var length := (|body| - 2) / 2;
            && r.asciiDone == AsciiAccepted(body) && !r.start && r.flag && r.count == 0
            && r.message.bytes[..length] == Unhex(body[..2 * length])
            && r.message.length == length && r.message.lengthForData == length - 2
            && r.message.lengthForLrc == |body| - 2 && r.message.lrc == PairAt(body, 2 * length)
  {
    var text := body + [CR];
    assert q.asciiRaw[|body|] == q.asciiRaw[..|text|][|body|] == CR;
    assert text[..|body|] == body;
    SameText(q.asciiRaw, body);
    StoredText(q.(asciiAt := q.asciiAt - 1), body);
  }

  lemma StoredText(q: Line, body: seq<bv8>)
    requires q.Valid() && 6 <= |body| < LENGTH && !q.asciiDone
    requires var len := |body| - 2;
             && q.asciiRaw[..len] == body[..len] && q.asciiRaw[..len / 2 * 2] == body[..len / 2 * 2]
             && PairAt(q.asciiRaw, len / 2 * 2) == PairAt(body, len / 2 * 2)
    ensures var len := |body| - 2;
            var r := AsciiStored(q, len);
            && r.asciiDone == AsciiAccepted(body)
            && r.message.bytes[..len / 2] == Unhex(body[..2 * (len / 2)])
            && r.message.length == len / 2 && r.message.lengthForData == len / 2 - 2
            && r.message.lengthForLrc == len && r.message.lrc == PairAt(body, 2 * (len / 2))
            && r.message.bytes[len / 2..] == q.message.bytes[len / 2..]
  {
    assert Unhex(body[..2 * ((|body| - 2) / 2)])[0] == PairAt(body, 0);
  }

  /** Any framed text on an idle line is accepted exactly when its LRC and its slave address say so. */
  lemma AsciiFramed(s: Line, body: seq<bv8>)
    requires s.Valid() && !s.start && 6 <= |body| < LENGTH && LF !in body
    ensures var r := AsciiRun(s, [COLON] + body + [CR, LF]);
            var length := (|body| - 2) / 2;
            && r.asciiDone == AsciiAccepted(body) && !r.start && r.flag && r.count == 0
            && r.message.bytes[..length] == Unhex(body[..2 * length])
            && r.message.length == length && r.message.lengthForData == length - 2
            && r.message.lengthForLrc == |body| - 2 && r.message.lrc == PairAt(body, 2 * length)
  {
    AsciiFrameRun(s, body);
    var q := AsciiRun(ParseAscii(s, COLON), body + [CR]);
    AsciiCloses(q, body);
  }

  lemma AsciiFrameRun(s: Line, body: seq<bv8>)
    requires s.Valid() && !s.start && 6 <= |body| < LENGTH && LF !in body
    ensures var q := AsciiRun(ParseAscii(s, COLON), body + [CR]);
            && Storing(q, body + [CR]) && AsciiFits(q, LF)
            && AsciiRun(s, [COLON] + body + [CR, LF]) == ParseAscii(q, LF)
  {
    var text := body + [CR];
    var r1 := ParseAscii(s, COLON);
    assert LF !in text;
    assert Storing(r1, []) by {
      assert r1.asciiRaw[..0] == [];
    }
    AsciiStores(r1, text);
    AsciiCloses(AsciiRun(r1, text), body);
    AsciiWhole(s, text);
    SameEnd(body);
  }

  lemma SameEnd(body: seq<bv8>)
    ensures [COLON] + body + [CR, LF] == [COLON] + (body + [CR]) + [LF]
  {
  }

  lemma AsciiWhole(s: Line, text: seq<bv8>)
    requires s.Valid() && !s.start && AsciiFits(AsciiRun(ParseAscii(s, COLON), text), LF)
    ensures AsciiRun(s, [COLON] + text + [LF]) == ParseAscii(AsciiRun(ParseAscii(s, COLON), text), LF)
  {
    AsciiOne(s, COLON);
    AsciiConcat(s, [COLON], text);
    AsciiConcat(s, [COLON] + text, [LF]);
    AsciiOne(AsciiRun(ParseAscii(s, COLON), text), LF);
  }

  lemma AsciiOne(s: Line, c: bv8)
    requires s.Valid() && AsciiFits(s, c)
    ensures AsciiRun(s, [c]) == ParseAscii(s, c)
  {
    assert [c][..0] == [];
  }

  /** Reading the buffer is reading the text stored at its start. */
  lemma SameText(raw: seq<bv8>, body: seq<bv8>)
    requires |raw| == LENGTH && 6 <= |body| < LENGTH && raw[..|body| + 1][..|body|] == body
    ensures var len := |body| - 2;
            && raw[..len] == body[..len] && raw[..len / 2 * 2] == body[..len / 2 * 2]
            && PairAt(raw, len / 2 * 2) == PairAt(body, len / 2 * 2)
  {
    assert raw[..|body|] == body;
    forall i | 0 <= i < |body| ensures raw[i] == body[i] {
      assert raw[..|body|][i] == body[i];
    }
  }

  lemma NoControls(d: seq<bv8>)
    ensures LF !in HexString(d)
  {
    forall i | 0 <= i < 2 * |d| ensures HexString(d)[i] != LF {
      PrintedIsHex(d, i);
    }
  }

  /** The printed bytes and their LRC. */
  function AsciiBody(head: seq<bv8>): (b: seq<bv8>)
    ensures |b| == 2 * |head| + 2
  {
    var lrc := Negate(ByteSum(HexString(head)));
    HexString(head) + [HighDigit(lrc), LowDigit(lrc)]
  }

  lemma BodyAccepted(head: seq<bv8>)
    requires |head| >= 2 && head[0] != 0
    ensures LF !in AsciiBody(head) && AsciiBody(head)[..2 * |head|] == HexString(head)
    ensures AsciiAccepted(AsciiBody(head))
  {
    var text := HexString(head);
    var lrc := Negate(ByteSum(text));
    NoControls(head);
    DigitIsLowerHex(lrc >> 4);
    DigitIsLowerHex(lrc & 0x0F);
    ReadPrinted(lrc);
    ReadPrinted(head[0]);
    assert text[0] == HighDigit(head[0]) && text[1] == LowDigit(head[0]);
    assert AsciiBody(head)[..2 * |head|] == text;
  }

  /**
    Every frame with a non-zero slave and at most thirty data bytes comes through, and the data
    length the receiver records is the length sent; its `length` field counts the address as well.
   */
  lemma AsciiRoundTrip(s: Line, slave: bv8, fn: bv8, data: seq<bv8>)
    requires s.Valid() && !s.start && slave != 0 && |data| <= 30
    ensures var r := AsciiRun(s, AsciiWire(slave, fn, data));
            && r.asciiDone && r.message.Slave() == slave && r.message.Function() == fn
            && r.message.Data(|data|) == data
            && r.message.lengthForData == |data| && r.message.length == |data| + 2
  {
    var head := [slave, fn] + data;
    HeadRoundTrip(s, head);
    WireOfHead(slave, fn, data);
    HeadFields(AsciiRun(s, AsciiWire(slave, fn, data)).message, slave, fn, data);
  }

  lemma WireOfHead(slave: bv8, fn: bv8, data: seq<bv8>)
    ensures AsciiWire(slave, fn, data) == [COLON] + AsciiBody([slave, fn] + data) + [CR, LF]
  {
  }

  /** A line feed without a carriage return before it drops the frame and leaves the last one as it was. */
  lemma AsciiDropped(s: Line, text: seq<bv8>)
    requires s.Valid() && !s.start && 0 < |text| <= LENGTH && LF !in text && text[|text| - 1] != CR
    ensures var r := AsciiRun(s, [COLON] + text + [LF]);
            !r.asciiDone && !r.start && !r.flag && r.count == 0 && r.message == s.message
  {
    var r1 := ParseAscii(s, COLON);
    assert r1.asciiRaw[..0] == [];
    AsciiStores(r1, text);
    MessageKept(r1, text);
    var q := AsciiRun(r1, text);
    assert q.asciiRaw[|text| - 1] == q.asciiRaw[..|text|][|text| - 1];
    AsciiWhole(s, text);
  }

  /** Until the line feed the last frame stays as it was. */
  lemma {:induction false} MessageKept(s: Line, text: seq<bv8>)
    requires s.Valid() && LF !in text
    ensures AsciiRun(s, text).message == s.message
    decreases |text|
  {
    if text != [] {
      var n := |text| - 1;
      assert forall x :: x in text[..n] ==> x in text;
      MessageKept(s, text[..n]);
      assert text[n] in text;
    }
  }

  /** The same for slave, function and data as one run of bytes. */
  lemma HeadRoundTrip(s: Line, head: seq<bv8>)
    requires s.Valid() && !s.start && 2 <= |head| <= 32 && head[0] != 0
    ensures var r := AsciiRun(s, [COLON] + AsciiBody(head) + [CR, LF]);
            && r.asciiDone && r.message.bytes[..|head|] == head
            && r.message.lengthForData == |head| - 2 && r.message.length == |head|
  {
    BodyAccepted(head);
    AsciiFramed(s, AsciiBody(head));
    UnhexPrinted(head);
  }

  lemma HeadFields(m: Message, slave: bv8, fn: bv8, data: seq<bv8>)
    requires m.Valid() && |data| <= LENGTH && m.bytes[..|data| + 2] == [slave, fn] + data
    ensures m.Slave() == slave && m.Function() == fn && m.Data(|data|) == data
  {
    var head := m.bytes[..|data| + 2];
    assert m.bytes[0] == head[0] && m.bytes[1] == head[1];
    assert m.bytes[2..2 + |data|] == head[2..];
  }

  lemma AddCancels(x: bv8, x': bv8, y: bv8)
    requires x != x'
    ensures Add(x, y) != Add(x', y) && Add(y, x) != Add(y, x')
  {
  }

  lemma NegateInjective(x: bv8, x': bv8)
    requires x != x'
    ensures Negate(x) != Negate(x')
  {
  }

  lemma {:induction false} SumDiffers(s: seq<bv8>, k: nat, c: bv8)
    requires k < |s| && c != s[k]
    ensures ByteSum(s[k := c]) != ByteSum(s)
    decreases |s|
  {
    var n := |s| - 1;
    if k == n {
      assert s[k := c][..n] == s[..n];
      AddCancels(c, s[k], ByteSum(s[..n]));
    } else {
      assert s[k := c][..n] == s[..n][k := c];
      SumDiffers(s[..n], k, c);
      AddCancels(ByteSum(s[..n][k := c]), ByteSum(s[..n]), s[n]);
    }
  }

  lemma NegateCompletes(x: bv8, lrc: bv8)
    ensures Negate(x) == lrc <==> Add(x, lrc) == 0
  {
  }

  lemma ZeroNumber(x: bv8)
    ensures x == 0 <==> Number(x) == 0
  {
  }

  /** The LRC is the one byte that makes the sum of the characters and itself a multiple of 256. */
  lemma LrcOkExactly(raw: seq<bv8>, len: nat, lrc: bv8)
    requires len <= |raw|
    ensures LrcOk(raw, len, lrc) <==> Wrap8(NumberSum(raw[..len]) + Number(lrc)) == 0
  {
    var sum := ByteSum(raw[..len]);
    NegateCompletes(sum, lrc);
    ZeroNumber(Add(sum, lrc));
    AddIsSum(sum, lrc);
    ByteSumIsSum(raw[..len]);
    WrapSum(NumberSum(raw[..len]), Number(lrc));
  }

  /** What is generated, character by character: colon, two digits a byte, the LRC over those, the line end. */
  lemma AsciiLayout(slave: bv8, fn: bv8, data: seq<bv8>)
    ensures LaidOut(AsciiWire(slave, fn, data), [slave, fn] + data)
  {
    var head := [slave, fn] + data;
    LineLaidOut(AsciiWire(slave, fn, data), head, Negate(ByteSum(HexString(head))));
  }

  lemma LineLaidOut(w: seq<bv8>, head: seq<bv8>, lrc: bv8)
    requires IsLine(w, head, lrc) && lrc == Negate(ByteSum(HexString(head)))
    ensures LaidOut(w, head)
  {
    LinePairs(w, head, lrc);
    LineDigits(w, head, lrc);
    LineSum(w, head, lrc);
    LineEnds(w, head, lrc);
  }

  /** The characters of a line and what they stand for. */
  predicate LaidOut(w: seq<bv8>, head: seq<bv8>) {
    var n := 2 * |head|;
    && |w| == n + 5 && w[0] == 0x3A && w[n + 3] == 0x0D && w[n + 4] == 0x0A
    && (forall k :: 0 <= k < |head| ==> ReadPair(w[1 + 2 * k], w[2 + 2 * k]) == head[k])
    && (forall i :: 1 <= i < n + 3 ==> IsLowerHex(w[i]))
    && Wrap8(NumberSum(w[1..n + 1]) + Number(ReadPair(w[n + 1], w[n + 2]))) == 0
  }

  /** A line: colon, a text, an LRC and the line end. */
  predicate IsLine(w: seq<bv8>, head: seq<bv8>, lrc: bv8) {
    w == [COLON] + HexString(head) + [HighDigit(lrc), LowDigit(lrc)] + [CR, LF]
  }

  lemma LineEnds(w: seq<bv8>, head: seq<bv8>, lrc: bv8)
    requires IsLine(w, head, lrc)
    ensures var n := 2 * |head|; |w| == n + 5 && w[0] == 0x3A && w[n + 3] == 0x0D && w[n + 4] == 0x0A
  {
  }

  lemma LinePairs(w: seq<bv8>, head: seq<bv8>, lrc: bv8)
    requires IsLine(w, head, lrc)
    ensures forall k :: 0 <= k < |head| ==> ReadPair(w[1 + 2 * k], w[2 + 2 * k]) == head[k]
  {
    forall k | 0 <= k < |head| ensures ReadPair(w[1 + 2 * k], w[2 + 2 * k]) == head[k] {
      LinePair(w, head, lrc, k);
    }
  }

  lemma LinePair(w: seq<bv8>, head: seq<bv8>, lrc: bv8, k: nat)
    requires IsLine(w, head, lrc) && k < |head|
    ensures ReadPair(w[1 + 2 * k], w[2 + 2 * k]) == head[k]
  {
    PairInText(head, k);
    assert w[1 + 2 * k] == HexString(head)[2 * k] && w[2 + 2 * k] == HexString(head)[2 * k + 1];
  }

  lemma LineDigits(w: seq<bv8>, head: seq<bv8>, lrc: bv8)
    requires IsLine(w, head, lrc)
    ensures forall i :: 1 <= i < 2 * |head| + 3 ==> IsLowerHex(w[i])
  {
    DigitIsLowerHex(lrc >> 4);
    DigitIsLowerHex(lrc & 0x0F);
    forall i | 1 <= i < 2 * |head| + 1 ensures IsLowerHex(w[i]) {
      PrintedIsHex(head, i - 1);
      assert w[i] == HexString(head)[i - 1];
    }
  }

  lemma LineSum(w: seq<bv8>, head: seq<bv8>, lrc: bv8)
    requires IsLine(w, head, lrc) && lrc == Negate(ByteSum(HexString(head)))
    ensures var n := 2 * |head|;
            Wrap8(NumberSum(w[1..n + 1]) + Number(ReadPair(w[n + 1], w[n + 2]))) == 0
  {
    var text := HexString(head);
    assert w[1..2 * |head| + 1] == text && text[..|text|] == text;
    ReadPrinted(lrc);
    LrcOkExactly(text, |text|, lrc);
  }

  /** What is sent in RTU, byte by byte. */
  lemma RtuLayout(slave: bv8, fn: bv8, data: seq<bv8>)
    ensures var w := RtuWire(slave, fn, data);
            && |w| == |data| + 4 && w[0] == slave && w[1] == fn && w[2..|data| + 2] == data
            && Run(0xFFFF, w) == 0
  {
    RtuResidue(slave, fn, data);
  }

  /** Changing any one of the characters the LRC covers makes the frame fail its check. */
  lemma AsciiDetects(body: seq<bv8>, k: nat, c: bv8)
    requires |body| >= 6 && AsciiAccepted(body) && k < (|body| - 2) / 2 * 2 && c != body[k]
    ensures !AsciiAccepted(body[k := c])
  {
    var len := |body| - 2;
    assert body[k := c][..len] == body[..len][k := c];
    SumDiffers(body[..len], k, c);
    NegateInjective(ByteSum(body[..len][k := c]), ByteSum(body[..len]));
  }

  // ---------------------------------------------------------------- the devices

  lemma RtuWireParts(w: seq<bv8>, head: seq<bv8>)
    requires |head| >= 2 && w == head + [Lo(Run(0xFFFF, head)), Hi(Run(0xFFFF, head))]
    ensures w == RtuWire(head[0], head[1], head[2..])
  {
    assert head == [head[0], head[1]] + head[2..];
  }

  lemma AsciiWireParts(w: seq<bv8>, head: seq<bv8>)
    requires |head| >= 2
    requires var lrc := Negate(ByteSum(HexString(head)));
             w == [COLON] + HexString(head) + [HighDigit(lrc), LowDigit(lrc), CR, LF]
    ensures w == AsciiWire(head[0], head[1], head[2..])
  {
    var lrc := Negate(ByteSum(HexString(head)));
    assert head == [head[0], head[1]] + head[2..];
    assert w == [COLON] + HexString(head) + [HighDigit(lrc), LowDigit(lrc)] + [CR, LF];
  }

  /** `modRtu_Frame_t`: slave, function and data are contiguous and copied as one run of bytes. */
  class ModFrame {
    const bytes: array<bv8>
    var crc: bv16
    var lrc: bv8
    var lengthForData: nat
    var length: nat
    var lengthForLrc: nat
    var lengthForCrc: nat
    var lengthForSend: nat

    constructor ()
      ensures bytes.Length == HEAD && fresh(bytes)
    {
      bytes := new bv8[HEAD](_ => 0);
      crc, lrc := 0, 0;
      lengthForData, length, lengthForLrc, lengthForCrc, lengthForSend := 0, 0, 0, 0, 0;
    }
  }

  class ModBus {
    const frame: ModFrame
    const asciiRaw: array<bv8>
    const rtuRaw: array<bv8>
    const asciiTx: array<bv8>
    const rtuTx: array<bv8>
    var flag: bool
    var start: bool
    var count: nat
    var asciiAt: int
    var asciiDone: bool
    var rtuAt: nat
    var rtuDone: bool
    var silence: bool

    ghost predicate Valid()
      reads this, frame, frame.bytes, asciiRaw, rtuRaw, asciiTx, rtuTx
    {
      && frame.bytes.Length == HEAD
      && asciiRaw.Length == rtuRaw.Length == asciiTx.Length == rtuTx.Length == LENGTH
      && frame.bytes != asciiRaw && frame.bytes != rtuRaw && frame.bytes != asciiTx && frame.bytes != rtuTx
      && asciiRaw != rtuRaw && asciiRaw != asciiTx && asciiRaw != rtuTx
      && rtuRaw != asciiTx && rtuRaw != rtuTx && asciiTx != rtuTx
    }

    ghost function State(): Line
      reads this, frame, frame.bytes, asciiRaw, rtuRaw
    {
      Line(flag, start, count, asciiRaw[..], asciiAt, asciiDone, rtuRaw[..], rtuAt, rtuDone, silence,
           Message(frame.bytes[..], frame.length, frame.lengthForData, frame.lengthForLrc, frame.lrc))
    }

    constructor ()
      ensures Valid() && State().Valid() && IdleRtu(State())
      ensures fresh(frame) && fresh(frame.bytes) && fresh(asciiRaw) && fresh(rtuRaw) && fresh(asciiTx) && fresh(rtuTx)
    {
      frame := new ModFrame();
      asciiRaw := new bv8[LENGTH](_ => 0);
      rtuRaw := new bv8[LENGTH](_ => 0);
      asciiTx := new bv8[LENGTH](_ => 0);
      rtuTx := new bv8[LENGTH](_ => 0);
      flag, start, count, asciiAt, asciiDone, rtuAt, rtuDone, silence := false, false, 0, 0, false, 0, false, true;
    }

    /** The `memcpy` of `generateModRtu`. */
    method CopyHead(src: array<bv8>, n: nat)
      requires Valid() && n <= src.Length && n <= LENGTH && src != rtuTx
      modifies rtuTx
      ensures rtuTx[..n] == src[..n]
    {
      for i := 0 to n
        invariant rtuTx[..i] == src[..i]
      {
        rtuTx[i] := src[i];
      }
    }

    /** `generateModRtu`. */
    method GenerateModRtu(p: ModFrame) returns (sent: seq<bv8>)
      requires Valid() && p.bytes.Length == HEAD && p.bytes != rtuTx && p.length + 4 <= LENGTH
      modifies rtuTx, p`lengthForCrc, p`lengthForSend, p`crc
      ensures p.lengthForCrc == p.length + 2 && p.crc == Run(0xFFFF, p.bytes[..p.length + 2])
      ensures p.lengthForSend == p.length + 4 && sent == rtuTx[..p.lengthForSend]
      ensures sent == RtuWire(p.bytes[0], p.bytes[1], p.bytes[2..p.length + 2])
    {
      p.lengthForCrc := p.length + 2;
      ghost var head := p.bytes[..p.lengthForCrc];
      CopyHead(p.bytes, p.lengthForCrc);
      p.crc := ModRtuCrc(rtuTx[..p.lengthForCrc]);
      StoreCrc(p.lengthForCrc, p.crc);
      p.lengthForSend := p.lengthForCrc + 2;
      sent := rtuTx[..p.lengthForSend];
      RtuWireParts(sent, head);
      assert head[2..] == p.bytes[2..p.length + 2];
    }

    method StoreCrc(at: nat, crc: bv16)
      requires Valid() && at + 2 <= LENGTH
      modifies rtuTx
      ensures rtuTx[..at + 2] == old(rtuTx[..at]) + [Lo(crc), Hi(crc)]
    {
      rtuTx[at], rtuTx[at + 1] := Lo(crc), Hi(crc);
    }

    /** `parseModRtu`. */
    method ParseModRtu(c: bv8)
      requires Valid() && RtuFits(State(), c)
      modifies this, rtuRaw
      ensures Valid() && State() == ParseRtu(old(State()), c)
    {
      if silence && !start {
        rtuAt := 0;
        flag, count, start, rtuDone, silence := false, 0, true, false, false;
        rtuRaw[rtuAt] := c;
        rtuAt := rtuAt + 1;
        count := count + 1;
      } else {
        silence := false;
        rtuRaw[rtuAt] := c;
        rtuAt := rtuAt + 1;
        count := count + 1;
      }
    }

    /** `timeOutRtu`: half a second without a character. */
    method TimeOutRtu()
      requires Valid()
      modifies this`silence
      ensures State() == old(State()).(silence := true)
    {
      silence := true;
    }

    method CopyRaw(len: nat)
      requires Valid() && len <= LENGTH
      modifies frame.bytes
      ensures frame.bytes[..] == rtuRaw[..len] + old(frame.bytes[len..])
    {
      for i := 0 to len
        invariant frame.bytes[..i] == rtuRaw[..i] && frame.bytes[i..] == old(frame.bytes[i..])
      {
        frame.bytes[i] := rtuRaw[i];
      }
      assert frame.bytes[..] == frame.bytes[..len] + frame.bytes[len..];
    }

    /** `setModRData`: the raw bytes overwrite the frame from its start. */
    method SetModRData()
      requires Valid() && 2 <= count <= LENGTH
      modifies this, frame, frame.bytes
      ensures Valid() && State() == RtuStored(old(State()))
    {
      start := false;
      var len: int := count;
      frame.length := Wrap16(len - 4);
      CopyRaw(len);
      assert rtuRaw[..][..len] == rtuRaw[..len] && rtuRaw[..][..6] == rtuRaw[..6];
      var crc := ModRtuCrc(rtuRaw[..6]);
      if crc == Word(rtuRaw[len - 2], rtuRaw[len - 1]) && frame.bytes[0] != 0 {
        rtuDone := true;
      }
    }

    /** `isRtuDone`, with the character that is readable, if any. */
    method IsRtuDone(input: Option<bv8>) returns (done: bool)
      requires Valid() && (input.Some? ==> RtuFits(State(), input.value))
      requires input == None && start && silence ==> 2 <= count <= LENGTH
      modifies this, frame, frame.bytes, rtuRaw
      ensures Valid() && done == rtuDone
      ensures State() == PollRtu(if input.Some? then ParseRtu(old(State()), input.value) else old(State()))
    {
      if input.Some? {
        ParseModRtu(input.value);
      }
      if start && silence {
        SetModRData();
      } else {
        rtuDone := false;
      }
      done := rtuDone;
    }

    /** `generateModAscii`: print, add up the printed characters, print the LRC and the line end. */
    method GenerateModAscii(p: ModFrame) returns (sent: seq<bv8>)
      requires Valid() && p.bytes.Length == HEAD && p.bytes != asciiTx && p.length <= 30
      modifies asciiTx, p`lengthForLrc, p`lengthForSend
      ensures p.lengthForLrc == 2 * (p.length + 2) && p.lengthForSend == p.lengthForLrc + 5
      ensures sent == asciiTx[..p.lengthForSend]
      ensures sent == AsciiWire(p.bytes[0], p.bytes[1], p.bytes[2..p.length + 2])
    {
      p.lengthForLrc := (p.length + 2) * 2;
      p.lengthForSend := p.lengthForLrc + 5;
      var head := p.bytes[..p.length + 2];
      PrintText(head);
      sent := AppendLrc(p.lengthForLrc, HexString(head));
      AsciiWireParts(sent, head);
      assert head[2..] == p.bytes[2..p.length + 2];
    }

    /** The colon and the characters the LRC covers. */
    method PrintText(head: seq<bv8>)
      requires Valid() && 2 * |head| + 1 < LENGTH
      modifies asciiTx
      ensures asciiTx[1..2 * |head| + 1] == HexString(head)
      ensures asciiTx[..2 * |head| + 1] == [COLON] + HexString(head)
    {
      asciiTx[0] := COLON;
      PrintAll(asciiTx, 1, head);
      assert asciiTx[..2 * |head| + 1] == [asciiTx[0]] + asciiTx[1..2 * |head| + 1];
    }

    /** The LRC over the n printed characters, and the line end. */
    method AppendLrc(n: nat, ghost text: seq<bv8>) returns (sent: seq<bv8>)
      requires Valid() && n + 5 < LENGTH
      requires asciiTx[1..n + 1] == text && asciiTx[..n + 1] == [COLON] + text
      modifies asciiTx
      ensures var lrc := Negate(ByteSum(text));
              sent == asciiTx[..n + 5] == [COLON] + text + [HighDigit(lrc), LowDigit(lrc), CR, LF]
    {
      var total := SumOf(asciiTx[1..n + 1]);
      total := !total;
      total := total + 1;
      PrintLrc(n + 1, total);
      sent := asciiTx[..n + 5];
    }

    /** `sprintf(ucpSend, "%02x\r\n", ucTotal)`. */
    method PrintLrc(at: nat, total: bv8)
      requires Valid() && at + 4 < LENGTH
      modifies asciiTx
      ensures asciiTx[..at + 4] == old(asciiTx[..at]) + [HighDigit(total), LowDigit(total), CR, LF]
    {
      asciiTx[at], asciiTx[at + 1] := HighDigit(total), LowDigit(total);
      asciiTx[at + 2], asciiTx[at + 3], asciiTx[at + 4] := CR, LF, 0;
    }

    /** `isLrcOk`. */
    method IsLrcOk(len: nat, lrc: bv8) returns (ok: bool)
      requires Valid() && len <= LENGTH
      ensures ok == LrcOk(asciiRaw[..], len, lrc)
    {
      var total := SumOf(asciiRaw[..len]);
      assert asciiRaw[..][..len] == asciiRaw[..len];
      total := !total;
      total := total + 1;
      ok := total == lrc;
    }

    /** The `changeAscii2Hex` calls over slave, function and data. */
    method DecodePairs(n: nat)
      requires Valid() && 2 * n <= LENGTH
      modifies frame.bytes
      ensures frame.bytes[..] == Unhex(asciiRaw[..2 * n]) + old(frame.bytes[n..])
    {
      var at := 0;
      ghost var raw := asciiRaw[..2 * n];
      for i := 0 to n
        invariant at == 2 * i
        invariant frame.bytes[..i] == Unhex(raw)[..i] && frame.bytes[i..] == old(frame.bytes[i..])
      {
        frame.bytes[i] := ReadPair(asciiRaw[at], asciiRaw[at + 1]);
        at := at + 2;
      }
      assert frame.bytes[..] == frame.bytes[..n] + frame.bytes[n..];
    }

    /** `setModAData`: pairs of characters become slave, function, data and LRC. */
    method SetModAData(len: nat)
      requires Valid() && 4 <= len <= LENGTH - 3
      modifies this`asciiDone, frame, frame.bytes
      ensures Valid() && State() == AsciiStored(old(State()), len)
    {
      DecodeLine(len);
      var ok := IsLrcOk(frame.lengthForLrc, frame.lrc);
      if ok && frame.bytes[0] != 0 {
        asciiDone := true;
      }
    }

    method DecodeLine(len: nat)
      requires Valid() && 4 <= len <= LENGTH - 3
      modifies frame, frame.bytes
      ensures Valid() && State() == AsciiDecoded(old(State()), len)
    {
      frame.lengthForLrc := len;
      frame.length := len / 2;
      frame.lengthForData := frame.length - 2;
      DecodePairs(2 + frame.lengthForData);
      var at := 2 * (2 + frame.lengthForData);
      assert asciiRaw[..][..at] == asciiRaw[..at];
      frame.lrc := ReadPair(asciiRaw[at], asciiRaw[at + 1]);
    }

    /** The line feed branch of `parseModAscii`. */
    method EndAscii()
      requires Valid() && State().Valid() && AsciiFits(State(), LF)
      modifies this, frame, frame.bytes
      ensures Valid() && State() == ParseAscii(old(State()), LF)
    {
      asciiAt := asciiAt - 1;
      CloseLine();
    }

    method CloseLine()
      requires Valid() && State().Valid()
      requires start ==> 0 <= asciiAt < LENGTH && (asciiRaw[asciiAt] == CR ==> 7 <= count <= LENGTH)
      modifies this, frame, frame.bytes
      ensures Valid() && State() == LineEnded(old(State()))
    {
      if start && asciiRaw[asciiAt] == CR {
        StoreLine();
      } else {
        flag, count, start, asciiDone := false, 0, false, false;
      }
    }

    method StoreLine()
      requires Valid() && 7 <= count <= LENGTH
      modifies this, frame, frame.bytes
      ensures Valid()
      ensures State() == LineStored(old(State()))
    {
      SetModAData(count - 3);
      SetStatus();
    }

    method SetStatus()
      requires Valid()
      modifies this`flag, this`count, this`start
      ensures Valid() && State() == old(State()).(flag := true, count := 0, start := false)
    {
      flag, count, start := true, 0, false;
    }

    /** `parseModAscii`. */
    method ParseModAscii(c: bv8) returns (done: bool)
      requires Valid() && State().Valid() && AsciiFits(State(), c)
      modifies this, frame, frame.bytes, asciiRaw
      ensures Valid() && State() == ParseAscii(old(State()), c) && done == asciiDone
    {
      if c == COLON && !start {
        asciiAt := 0;
        flag, count, start, asciiDone := false, 0, true, false;
      } else if c == LF {
        EndAscii();
      } else if count > LENGTH {
        flag, count, start, asciiDone := false, 0, false, false;
      } else {
        asciiRaw[asciiAt] := c;
        asciiAt := asciiAt + 1;
        count := count + 1;
      }
      done := asciiDone;
    }
  }

  /** The accumulating loops of both LRC computations. */
  method SumOf(s: seq<bv8>) returns (total: bv8)
    ensures total == ByteSum(s)
  {
    total := 0;
    for i := 0 to |s|
      invariant total == ByteSum(s[..i])
    {
      assert s[..i + 1][..i] == s[..i];
      total := Add(total, s[i]);
    }
    assert s[..|s|] == s;
  }
}
