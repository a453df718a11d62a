/** The RS-485 frame: '{', 68 hexadecimal digits for a frame and its CRC, '}' (rs485.cpp). */
module Rs485 {
  import opened Bytes
  import opened Crc
  import opened Frames
  import opened Detection
  import opened Hex

  const SOF: bv8 := 0x7B
  const EOF: bv8 := 0x7D
  const BODY := 68
  const FLENGTH := 70
  const BLOCK := 34

  predicate IsBrace(c: bv8) { c == SOF || c == EOF }

  /** No brace among the characters from lo up to hi. */
  predicate Clean(s: seq<bv8>, lo: nat, hi: nat)
    requires hi <= |s|
  {
    forall i :: lo <= i < hi ==> !IsBrace(s[i])
  }

  predicate BraceFree(s: seq<bv8>) { Clean(s, 0, |s|) }

  // ---------------------------------------------------------------- printer

  /** A frame followed by its CRC, low byte first. */
  function Block(f: Frame): (b: seq<bv8>)
    ensures |b| == BLOCK
  {
    f + [Lo(Run(0, f)), Hi(Run(0, f))]
  }

  /** The characters on the wire. */
  function Wire(f: Frame): (w: seq<bv8>)
    ensures |w| == FLENGTH
  {
    [SOF] + HexString(Block(f)) + [EOF]
  }

  // ---------------------------------------------------------------- receiver, as a state machine

  datatype Receiver = Receiver(flag: bool, start: bool, count: nat, data: seq<bv8>, done: bool, rx: Frame)
  {
    predicate Valid() { |data| == FLENGTH && count <= BODY + 1 }
  }

  /** The check and copy of `reform485toRx` on the first 68 characters of the buffer. */
  predicate Accepted(body: seq<bv8>)
    requires |body| == BODY
  {
    Checks(Unhex(body))
  }

  function Payload(body: seq<bv8>): Frame
    requires |body| == BODY
  {
    Unhex(body)[..FRAME_SIZE]
  }

  /** One character through `parse485Data`. */
  function Receive(s: Receiver, c: bv8): (r: Receiver)
    requires s.Valid()
    ensures r.Valid()
  {
    if c == SOF then
      s.(flag := false, count := 0, start := true, done := false)
    else if c == EOF then
      if s.start && s.count == BODY then
        var ok := Accepted(s.data[..BODY]);
        s.(done := ok, rx := if ok then Payload(s.data[..BODY]) else s.rx, flag := true, count := 0, start := false)
      else
        s.(flag := false, count := 0, start := false, done := false)
    else if s.count > BODY then
      s.(flag := false, count := 0, start := false, done := false)
    else
      s.(data := s.data[s.count := c], count := s.count + 1)
  }

  function ReceiveAll(s: Receiver, stream: seq<bv8>): (r: Receiver)
    requires s.Valid()
    ensures r.Valid()
  {
    if stream == [] then s
    else Receive(ReceiveAll(s, stream[..|stream| - 1]), stream[|stream| - 1])
  }

  lemma {:induction false} ReceiveConcat(s: Receiver, a: seq<bv8>, b: seq<bv8>)
    requires s.Valid()
    ensures ReceiveAll(s, a + b) == ReceiveAll(ReceiveAll(s, a), b)
    decreases |b|
  {
    if b == [] {
      assert a + b == a;
    } else {
      assert (a + b)[..|a + b| - 1] == a + b[..|b| - 1];
      ReceiveConcat(s, a, b[..|b| - 1]);
    }
  }

  // ---------------------------------------------------------------- exact acceptance

  /** The position just after the last brace, or 0. */
  function Tail(s: seq<bv8>): (n: nat)
    ensures n <= |s| && Clean(s, n, |s|) && (n > 0 ==> IsBrace(s[n - 1]))
  {
    if s == [] then 0
    else if IsBrace(s[|s| - 1]) then |s|
    else Tail(s[..|s| - 1])
  }

  /** The stream ends in a complete window: '{', 68 characters without braces, '}'. */
  predicate EndsInWindow(s: seq<bv8>) {
    && |s| >= FLENGTH
    && s[|s| - 1] == EOF
    && s[|s| - FLENGTH] == SOF
    && Clean(s, |s| - FLENGTH + 1, |s| - 1)
  }

  function Body(s: seq<bv8>): (b: seq<bv8>)
    requires EndsInWindow(s)
    ensures |b| == BODY
  {
    s[|s| - FLENGTH + 1..|s| - 1]
  }

  /** The stream ends in a window that passes the CRC, and at most 69 other characters after it. */
  predicate Complete(s: seq<bv8>) {
    var n := Tail(s);
    EndsInWindow(s[..n]) && Accepted(Body(s[..n])) && |s| - n <= BODY + 1
  }

  /** What the last accepted window anywhere in the stream carried. */
  function LastFrame(s: seq<bv8>, initial: Frame): Frame {
    if s == [] then initial
    else if EndsInWindow(s) && Accepted(Body(s)) then Payload(Body(s))
    else LastFrame(s[..|s| - 1], initial)
  }

  /** A window is open: the last brace is '{' and at most 69 characters follow it. */
  predicate Open(s: seq<bv8>) {
    var n := Tail(s);
    n > 0 && s[n - 1] == SOF && |s| - n <= BODY + 1
  }

  /** What everything the receiver has been fed since it was idle says of its state. */
  ghost predicate Tracks(r: Receiver, s: seq<bv8>, initial: Frame)
    requires r.Valid()
  {
    && (r.start <==> Open(s))
    && (r.done <==> Complete(s))
    && (r.start || r.done ==> r.count == |s| - Tail(s))
    && (r.start ==> r.data[..r.count] == s[Tail(s)..])
    && r.rx == LastFrame(s, initial)
  }

  /** No window is open and no frame is waiting to be taken, as after reset; the counter may stand anywhere. */
  predicate IsIdle(r: Receiver) { r.Valid() && !r.start && !r.done }

  lemma TailIs(s: seq<bv8>, n: nat)
    requires 0 < n <= |s| && IsBrace(s[n - 1]) && Clean(s, n, |s|)
    ensures Tail(s) == n
  {
    var t := Tail(s);
    assert t >= n;
  }

  lemma TailGrows(s: seq<bv8>, c: bv8)
    ensures Tail(s + [c]) == if IsBrace(c) then |s| + 1 else Tail(s)
  {
    assert (s + [c])[..|s|] == s;
  }

  /** The last 69 characters are '{' and 68 characters without braces. */
  predicate OpenInFull(s: seq<bv8>) {
    |s| > BODY && s[|s| - BODY - 1] == SOF && Clean(s, |s| - BODY, |s|)
  }

  lemma OpensInFull(s: seq<bv8>)
    ensures OpenInFull(s) <==> Open(s) && |s| - Tail(s) == BODY
  {
    if OpenInFull(s) {
      TailIs(s, |s| - BODY);
    }
  }

  lemma EndsInFull(s: seq<bv8>)
    ensures EndsInWindow(s + [EOF]) <==> OpenInFull(s)
    ensures OpenInFull(s) ==> Body(s + [EOF]) == s[|s| - BODY..]
  {
    var x := s + [EOF];
    if |s| > BODY {
      CleanPrefix(s, |s| - BODY);
      assert x[|s| - BODY - 1] == s[|s| - BODY - 1];
      assert x[|s| - BODY..|s|] == s[|s| - BODY..];
    }
  }

  lemma CleanPrefix(s: seq<bv8>, k: nat)
    ensures Clean(s + [EOF], k, |s|) <==> Clean(s, k, |s|)
  {
    var x := s + [EOF];
    assert forall i :: 0 <= i < |s| ==> x[i] == s[i];
  }

  /** '}' closes a window exactly when one is open and 68 characters have arrived since. */
  lemma Closes(s: seq<bv8>)
    ensures EndsInWindow(s + [EOF]) <==> Open(s) && |s| - Tail(s) == BODY
    ensures EndsInWindow(s + [EOF]) ==> Body(s + [EOF]) == s[Tail(s)..]
  {
    OpensInFull(s);
    EndsInFull(s);
  }

  lemma BraceStep(r: Receiver, s: seq<bv8>, c: bv8, initial: Frame)
    requires r.Valid() && Tracks(r, s, initial) && IsBrace(c)
    ensures Tracks(Receive(r, c), s + [c], initial)
  {
    var x := s + [c];
    TailGrows(s, c);
    assert x[..|x|] == x && x[..|x| - 1] == s;
    if c == EOF {
      Closes(s);
    }
  }

  lemma PlainStep(r: Receiver, s: seq<bv8>, c: bv8, initial: Frame)
    requires r.Valid() && Tracks(r, s, initial) && !IsBrace(c)
    ensures Tracks(Receive(r, c), s + [c], initial)
  {
    var x, n := s + [c], Tail(s);
    TailGrows(s, c);
    assert x[..n] == s[..n] && x[n..] == s[n..] + [c] && x[..|x| - 1] == s;
    assert !EndsInWindow(x);
    assert Open(x) <==> Open(s) && |s| - n <= BODY;
    assert Complete(x) <==> Complete(s) && |s| - n <= BODY;
    if r.start && r.count <= BODY {
      assert r.data[r.count := c][..r.count + 1] == r.data[..r.count] + [c];
    }
  }

  lemma {:induction false} Follows(r: Receiver, s: seq<bv8>)
    requires IsIdle(r)
    ensures Tracks(ReceiveAll(r, s), s, r.rx)
    decreases |s|
  {
    if s == [] {
    } else {
      var a, c := s[..|s| - 1], s[|s| - 1];
      Follows(r, a);
      assert s == a + [c];
      if IsBrace(c) {
        BraceStep(ReceiveAll(r, a), a, c, r.rx);
      } else {
        PlainStep(ReceiveAll(r, a), a, c, r.rx);
      }
    }
  }

  /** Where a counter stands that wraps after 69. */
  function Counted(n: nat): (k: nat)
    ensures k <= 69 && k <= n
  {
    if n == 0 then 0 else if Counted(n - 1) == 69 then 0 else Counted(n - 1) + 1
  }

  lemma {:induction false} CountedIsModulo(n: nat)
    ensures Counted(n) == n % 70
    decreases n
  {
    if n > 0 {
      CountedIsModulo(n - 1);
    }
  }

  lemma {:induction false} CountedStart(n: nat)
    requires n <= 69
    ensures Counted(n) == n
    decreases n
  {
    if n > 0 {
      CountedStart(n - 1);
    }
  }

  /** Behind a brace the counter counts modulo 70, what it counts is in the buffer, and the flag marks a full window. */
  predicate Counts(r: Receiver, s: seq<bv8>)
    requires r.Valid()
  {
    var n := Tail(s);
    && r.count == Counted(|s| - n)
    && r.data[..r.count] == s[|s| - r.count..]
    && (r.flag <==> EndsInWindow(s[..n]) && |s| - n <= BODY + 1)
  }

  lemma {:induction false} CountsFollow(r: Receiver, s: seq<bv8>)
    requires IsIdle(r)
    ensures Tail(s) > 0 ==> Counts(ReceiveAll(r, s), s)
    decreases |s|
  {
    if s != [] {
      var a, c := s[..|s| - 1], s[|s| - 1];
      CountsFollow(r, a);
      Follows(r, a);
      assert s == a + [c];
      TailGrows(a, c);
      if IsBrace(c) {
        BraceCounts(ReceiveAll(r, a), a, c);
      } else if Tail(a) > 0 {
        PlainCounts(ReceiveAll(r, a), a, c);
      }
    }
  }

  lemma BraceCounts(r: Receiver, s: seq<bv8>, c: bv8)
    requires r.Valid() && IsBrace(c) && (r.start <==> Open(s)) && (r.start ==> r.count == |s| - Tail(s))
    ensures Counts(Receive(r, c), s + [c])
  {
    TailGrows(s, c);
    if c == EOF {
      Closes(s);
    }
    CountsAtBrace(Receive(r, c), s + [c]);
  }

  lemma CountsAtBrace(r: Receiver, x: seq<bv8>)
    requires r.Valid() && r.count == 0 && Tail(x) == |x| && (r.flag <==> EndsInWindow(x))
    ensures Counts(r, x)
  {
    assert x[..|x|] == x;
  }

  lemma PlainCounts(r: Receiver, s: seq<bv8>, c: bv8)
    requires r.Valid() && !IsBrace(c) && Tail(s) > 0 && Counts(r, s)
    ensures Counts(Receive(r, c), s + [c])
  {
    if r.count <= BODY {
      StoresPlain(r, c);
      PlainStored(r, Receive(r, c), s, c);
    } else {
      DropsPlain(r, c);
      PlainDropped(Receive(r, c), s, c);
    }
  }

  lemma PlainStored(r: Receiver, q: Receiver, s: seq<bv8>, c: bv8)
    requires r.Valid() && !IsBrace(c) && Tail(s) > 0 && Counts(r, s) && r.count <= BODY
    requires q == r.(data := r.data[r.count := c], count := r.count + 1)
    ensures Counts(q, s + [c])
  {
    TailGrows(s, c);
    PrefixKept(s, c, Tail(s));
    TextGrows(r, s, c);
    CountsOneMore(q, s + [c], |s| - Tail(s), r.flag, EndsInWindow(s[..Tail(s)]));
  }

  lemma PlainDropped(q: Receiver, s: seq<bv8>, c: bv8)
    requires q.Valid() && !IsBrace(c) && Tail(s) > 0 && Counted(|s| - Tail(s)) == 69 && q.count == 0 && !q.flag
    ensures Counts(q, s + [c])
  {
    TailGrows(s, c);
    CountsDropped(q, s + [c], |s| - Tail(s));
  }

  lemma StoresPlain(r: Receiver, c: bv8)
    requires r.Valid() && !IsBrace(c) && r.count <= BODY
    ensures Receive(r, c) == r.(data := r.data[r.count := c], count := r.count + 1)
  {
  }

  lemma DropsPlain(r: Receiver, c: bv8)
    requires r.Valid() && !IsBrace(c) && r.count > BODY
    ensures Receive(r, c) == r.(flag := false, count := 0, start := false, done := false)
  {
  }

  lemma CountsDropped(q: Receiver, x: seq<bv8>, m: nat)
    requires q.Valid() && q.count == 0 && !q.flag && |x| - Tail(x) == m + 1 && Counted(m) == 69
    ensures Counts(q, x)
  {
    NextCount(m);
  }

  lemma PrefixKept(s: seq<bv8>, c: bv8, n: nat)
    requires n <= |s|
    ensures (s + [c])[..n] == s[..n]
  {
  }

  lemma CountsOneMore(q: Receiver, x: seq<bv8>, m: nat, flag: bool, full: bool)
    requires q.Valid() && |x| - Tail(x) == m + 1 && Counted(m) < 69 && q.count == Counted(m) + 1
    requires flag <==> full && m <= BODY + 1
    requires q.flag == flag && full == EndsInWindow(x[..Tail(x)]) && q.data[..q.count] == x[|x| - q.count..]
    ensures Counts(q, x)
  {
    NextCount(m);
    CountsAre(q, x, Tail(x), full);
  }

  lemma CountsAre(q: Receiver, x: seq<bv8>, n: nat, full: bool)
    requires q.Valid() && Tail(x) == n && full == EndsInWindow(x[..n])
    requires q.count == Counted(|x| - n) && q.data[..q.count] == x[|x| - q.count..]
    requires q.flag <==> full && |x| - n <= BODY + 1
    ensures Counts(q, x)
  {
  }

  lemma TextGrows(r: Receiver, s: seq<bv8>, c: bv8)
    requires r.Valid() && r.count <= BODY && r.count <= |s| && r.data[..r.count] == s[|s| - r.count..]
    ensures r.data[r.count := c][..r.count + 1] == (s + [c])[|s| - r.count..]
  {
    assert r.data[r.count := c][..r.count + 1] == r.data[..r.count] + [c];
  }

  /** The counter tells whether the next character is the 70th. */
  lemma NextCount(n: nat)
    ensures Counted(n + 1) == if Counted(n) == 69 then 0 else Counted(n) + 1
    ensures Counted(n) < 69 ==> (n <= 69 <==> n + 1 <= 69)
    ensures Counted(n) == 69 ==> n >= 69
  {
    if n <= 69 {
      CountedStart(n);
    }
  }

  /** p + '{' + w + '}' + t, with an accepted window w and a short tail t. */
  ghost predicate Decomposes(s: seq<bv8>, p: seq<bv8>, w: seq<bv8>, t: seq<bv8>) {
    && s == p + [SOF] + w + [EOF] + t
    && |w| == BODY && BraceFree(w) && Accepted(w)
    && BraceFree(t) && |t| <= BODY + 1
  }

  ghost predicate HasWindow(s: seq<bv8>) {
    exists p, w, t :: Decomposes(s, p, w, t)
  }

  lemma WindowParts(y: seq<bv8>, t: seq<bv8>)
    requires EndsInWindow(y) && Accepted(Body(y)) && BraceFree(t) && |t| <= BODY + 1
    ensures Decomposes(y + t, y[..|y| - FLENGTH], Body(y), t)
  {
    assert y == y[..|y| - FLENGTH] + [SOF] + Body(y) + [EOF];
  }

  lemma CompleteParts(s: seq<bv8>)
    requires Complete(s)
    ensures HasWindow(s)
  {
    var y, t := s[..Tail(s)], s[Tail(s)..];
    WindowParts(y, t);
    assert s == y + t;
  }

  lemma PartsComplete(s: seq<bv8>, p: seq<bv8>, w: seq<bv8>, t: seq<bv8>)
    requires Decomposes(s, p, w, t)
    ensures Complete(s)
  {
    var n := |p| + FLENGTH;
    assert s[n..] == t && s[n - 1] == EOF;
    assert forall i :: n <= i < |s| ==> s[i] == t[i - n];
    TailIs(s, n);
    assert s[..n] == p + [SOF] + w + [EOF];
    assert s[..n][n - FLENGTH + 1..n - 1] == w;
  }

  lemma CompleteIsWindow(s: seq<bv8>)
    ensures Complete(s) <==> HasWindow(s)
  {
    if Complete(s) {
      CompleteParts(s);
    }
    if HasWindow(s) {
      var p, w, t :| Decomposes(s, p, w, t);
      PartsComplete(s, p, w, t);
    }
  }

  /**
    From an idle receiver, after any stream: the done flag is up exactly when the stream ends in an accepted
    window and at most 69 characters without braces, and the frame register holds what the last
    accepted window carried.
   */
  lemma ExactAcceptance(r: Receiver, s: seq<bv8>)
    requires IsIdle(r)
    ensures ReceiveAll(r, s).done <==> HasWindow(s)
    ensures ReceiveAll(r, s).rx == LastFrame(s, r.rx)
  {
    Follows(r, s);
    CompleteIsWindow(s);
  }

  // ---------------------------------------------------------------- round trip and resynchronisation

  /** What is on the wire, character by character: two lower-case digits a byte, the frame first, then its CRC. */
  lemma WireLayout(f: Frame)
    ensures var w := Wire(f);
            && w[0] == 0x7B && w[69] == 0x7D
            && (forall i :: 1 <= i < 69 ==> IsLowerHex(w[i]))
            && (forall k :: 0 <= k < 32 ==> ReadPair(w[1 + 2 * k], w[2 + 2 * k]) == f[k])
            && Run(0, f + [ReadPair(w[65], w[66]), ReadPair(w[67], w[68])]) == 0
  {
    var b := Block(f);
    forall i | 1 <= i < 69 ensures IsLowerHex(Wire(f)[i]) {
      InText(b, i);
      PrintedIsHex(b, i - 1);
    }
    forall k | 0 <= k < 32 ensures ReadPair(Wire(f)[1 + 2 * k], Wire(f)[2 + 2 * k]) == f[k] {
      PairOnWire(f, k);
    }
    PairOnWire(f, 32);
    PairOnWire(f, 33);
    Residue(0, f, Run(0, f));
  }

  lemma InText(b: seq<bv8>, i: nat)
    requires 1 <= i <= 2 * |b|
    ensures ([SOF] + HexString(b) + [EOF])[i] == HexString(b)[i - 1]
  {
  }

  lemma PairOnWire(f: Frame, k: nat)
    requires k < BLOCK
    ensures ReadPair(Wire(f)[1 + 2 * k], Wire(f)[2 + 2 * k]) == Block(f)[k]
  {
    InText(Block(f), 1 + 2 * k);
    InText(Block(f), 2 + 2 * k);
    PairInText(Block(f), k);
  }

  lemma {:induction false} FillsBuffer(r: Receiver, w: seq<bv8>)
    requires r.Valid() && r.start && r.count == 0 && BraceFree(w) && |w| <= BODY + 1
    ensures var r' := ReceiveAll(r, w);
            r' == r.(count := |w|, data := r'.data) && r'.data[..|w|] == w
    decreases |w|
  {
    if w != [] {
      var n := |w| - 1;
      FillsBuffer(r, w[..n]);
      var q := ReceiveAll(r, w[..n]);
      assert q.data[n := w[n]][..n + 1] == q.data[..n] + [w[n]] == w;
    }
  }

  /** A whole window, from any state of the receiver. */
  lemma WindowOutcome(r: Receiver, w: seq<bv8>)
    requires r.Valid() && |w| == BODY && BraceFree(w)
    ensures var r' := ReceiveAll(r, [SOF] + w + [EOF]);
            && !r'.start && r'.count == 0
            && r'.done == Accepted(w)
            && r'.rx == if Accepted(w) then Payload(w) else r.rx
  {
    var r1 := Receive(r, SOF);
    assert [SOF][..0] == [] && [EOF][..0] == [];
    assert ReceiveAll(r, [SOF]) == r1;
    FillsBuffer(r1, w);
    var r2 := ReceiveAll(r1, w);
    ReceiveConcat(r, [SOF], w);
    ReceiveConcat(r, [SOF] + w, [EOF]);
    assert ReceiveAll(r2, [EOF]) == Receive(r2, EOF);
  }

  lemma BlockAccepted(f: Frame)
    ensures BraceFree(HexString(Block(f)))
    ensures Accepted(HexString(Block(f))) && Payload(HexString(Block(f))) == f
  {
    var w := HexString(Block(f));
    forall i | 0 <= i < |w| ensures !IsBrace(w[i]) {
      PrintedIsHex(Block(f), i);
    }
    UnhexPrinted(Block(f));
    WordOfParts(Run(0, f));
    assert Block(f)[..FRAME_SIZE] == f;
  }

  /** What `send485` prints for any frame is received as that frame, whatever state the receiver is in. */
  lemma RoundTrip(r: Receiver, f: Frame)
    requires r.Valid()
    ensures ReceiveAll(r, Wire(f)).done && ReceiveAll(r, Wire(f)).rx == f
    ensures IsIdle(ReceiveAll(r, Wire(f)).(done := false))
  {
    BlockAccepted(f);
    WindowOutcome(r, HexString(Block(f)));
  }

  /** The same after an arbitrary stretch of garbage. */
  lemma Resynchronises(r: Receiver, garbage: seq<bv8>, f: Frame)
    requires r.Valid()
    ensures ReceiveAll(r, garbage + Wire(f)).done && ReceiveAll(r, garbage + Wire(f)).rx == f
  {
    ReceiveConcat(r, garbage, Wire(f));
    RoundTrip(ReceiveAll(r, garbage), f);
  }

  /**
    A window that decodes to a sent block with one to three bits flipped, with an odd number of
    bits flipped, or with a burst of at most sixteen bits is rejected and leaves the frame alone.
   */
  lemma CorruptionRejected(r: Receiver, f: Frame, w: seq<bv8>, e: seq<bv8>, k: nat)
    requires r.Valid() && |w| == BODY && BraceFree(w)
    requires |e| == BLOCK && Unhex(w) == Xor(Block(f), e)
    requires 1 <= Ones(Bits(e)) <= 3 || Ones(Bits(e)) % 2 == 1 || Burst(Bits(e), k)
    ensures !ReceiveAll(r, [SOF] + w + [EOF]).done && ReceiveAll(r, [SOF] + w + [EOF]).rx == r.rx
  {
    WindowOutcome(r, w);
    BlockAccepted(f);
    UnhexPrinted(Block(f));
    if Ones(Bits(e)) % 2 == 1 {
      DetectsOddFlips(Block(f), e);
    } else if 1 <= Ones(Bits(e)) <= 3 {
      DetectsThreeFlips(Block(f), e);
    } else {
      DetectsBurst(Block(f), e, k);
    }
  }

  // ---------------------------------------------------------------- the port

  /** The first part of `send485`: copy the frame into a local buffer and store its CRC behind it. */
  method AppendCrc(f: Frame) returns (block: seq<bv8>)
    ensures block == Block(f)
  {
    var temp := new bv8[40](_ => 0);
    for i := 0 to FRAME_SIZE
      invariant temp[..i] == f[..i]
    {
      temp[i] := f[i];
    }
    assert temp[..FRAME_SIZE] == f;
    var crc := GenCrc16(temp[..FRAME_SIZE]);
    temp[FRAME_SIZE] := Lo(crc);
    temp[FRAME_SIZE + 1] := Hi(crc);
    block := temp[..BLOCK];
    assert block == f + [Lo(crc), Hi(crc)];
  }

  lemma FrameChecks(body: seq<bv8>, frame: seq<bv8>)
    requires |body| == BODY && frame == Unhex(body)
    ensures |frame| == BLOCK && Payload(body) == frame[..FRAME_SIZE]
    ensures Accepted(body) <==> Run(0, frame[..FRAME_SIZE]) == Word(frame[FRAME_SIZE], frame[FRAME_SIZE + 1])
  {
  }

  /** One device's port; `data` is both its transmit and its receive buffer. */
  class Port {
    var flag: bool
    var start: bool
    var count: nat
    const data: array<bv8>
    var done: bool
    var rx: Frame

    ghost predicate Valid()
      reads this, data
    {
      data.Length == FLENGTH && State().Valid()
    }

    ghost function State(): Receiver
      reads this, data
    {
      Receiver(flag, start, count, data[..], done, rx)
    }

    constructor ()
      ensures Valid() && IsIdle(State()) && count == 0 && fresh(data)
    {
      flag, start, count, done := false, false, 0, false;
      data := new bv8[FLENGTH](_ => 0);
      rx := seq(FRAME_SIZE, _ => 0);
    }

    /** `send485`: print into the buffer, then put out its 70 characters. */
    method Send485(f: Frame) returns (sent: seq<bv8>)
      requires Valid()
      modifies data
      ensures data[..] == Wire(f) && sent == Wire(f)
    {
      var block := AppendCrc(f);
      data[0] := SOF;
      PrintAll(data, 1, block);
      data[FLENGTH - 1] := EOF;
      sent := data[..];
      assert sent == [data[0]] + data[1..FLENGTH - 1] + [data[FLENGTH - 1]];
    }

    /** `reform485toRx` on the port's own buffer. */
    method Reform485ToRx() returns (ok: bool)
      requires Valid()
      modifies this`rx
      ensures ok == Accepted(data[..BODY])
      ensures rx == if ok then Payload(data[..BODY]) else old(rx)
    {
      var frame := ReadHex(data[..BODY]);
      FrameChecks(data[..BODY], frame);
      var sum := GenCrc16(frame[..FRAME_SIZE]);
      ok := false;
      if sum == Word(frame[FRAME_SIZE], frame[FRAME_SIZE + 1]) {
        ok := true;
        rx := frame[..FRAME_SIZE];
      }
    }

    /** `parse485Data`. */
    method Parse485Data(c: bv8) returns (ready: bool)
      requires Valid()
      modifies this, data
      ensures Valid() && State() == Receive(old(State()), c) && ready == done
    {
      if c == SOF {
        flag, count, start, done := false, 0, true, false;
      } else if c == EOF {
        if start && count == BODY {
          done := Reform485ToRx();
          flag, count, start := true, 0, false;
        } else {
          flag, count, start, done := false, 0, false, false;
        }
      } else if count > BODY {
        flag, count, start, done := false, 0, false, false;
      } else {
        data[count] := c;
        count := count + 1;
      }
      ready := done;
    }

    /** Clearing the flag keeps the port synchronised. */
    method Clear485Done()
      requires Valid()
      modifies this`done
      ensures Valid() && State() == old(State()).(done := false)
    {
      done := false;
    }
  }

  /** Two devices: everything the sender puts out is fed to the receiver, character by character. */
  method Exchange(sender: Port, receiver: Port, f: Frame)
    requires sender.Valid() && receiver.Valid() && sender != receiver && sender.data != receiver.data
    modifies sender.data, receiver, receiver.data
    ensures receiver.Valid() && receiver.done && receiver.rx == f
  {
    var wire := sender.Send485(f);
    ghost var before := receiver.State();
    for i := 0 to |wire|
      invariant receiver.Valid() && receiver.State() == ReceiveAll(before, wire[..i])
    {
      assert wire[..i + 1][..i] == wire[..i];
      var _ := receiver.Parse485Data(wire[i]);
    }
    assert wire[..|wire|] == wire;
    RoundTrip(before, f);
  }
}
