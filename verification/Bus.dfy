/**
  The main loop polling the RS-485 port (mainForSx1276.cpp), and server requests on a line that
  many devices listen to.
 */
module Bus {
  import opened Frames
  import opened Hex
  import opened Rs485
  import opened Wrappers
  import Server

  // ---------------------------------------------------------------- one device, polled

  /**
    One turn of the loop: the characters readable at that time, what the task leaves in the frame
    register, and what the device itself last sends over RS-485 before the next turn, if anything.
   */
  datatype Turn = Turn(chunk: seq<bv8>, left: Frame, sends: Option<Frame>)

  /** `is485Done` drains the line; a frame found is handed over once and the flag cleared. */
  function Taken(s: Receiver, chunk: seq<bv8>): Option<Frame>
    requires s.Valid()
  {
    var r := ReceiveAll(s, chunk);
    if r.done then Some(r.rx) else None
  }

  function AfterTurn(s: Receiver, t: Turn): (r: Receiver)
    requires s.Valid()
    ensures r.Valid()
  {
    var r := ReceiveAll(s, t.chunk);
    AfterSend(if r.done then r.(done := false, rx := t.left) else r, t.sends)
  }

  /** `send485` prints into the buffer the parser fills. */
  function AfterSend(s: Receiver, sends: Option<Frame>): (r: Receiver)
    requires s.Valid()
    ensures r.Valid()
  {
    match sends
    case None => s
    case Some(g) => s.(data := Wire(g))
  }

  function AfterTurns(s: Receiver, turns: seq<Turn>): (r: Receiver)
    requires s.Valid()
    ensures r.Valid()
  {
    if turns == [] then s
    else AfterTurn(AfterTurns(s, turns[..|turns| - 1]), turns[|turns| - 1])
  }

  /** Everything that came over the line. */
  function Stream(turns: seq<Turn>): seq<bv8> {
    if turns == [] then [] else Stream(turns[..|turns| - 1]) + turns[|turns| - 1].chunk
  }

  /** The same parser state; done flag, frame register and characters outside an open window may differ. */
  predicate InStep(a: Receiver, b: Receiver) {
    && a.Valid() && b.Valid()
    && a.flag == b.flag && a.start == b.start && a.count == b.count
    && (a.start ==> a.data[..a.count] == b.data[..b.count])
  }

  /** Clearing the flag or overwriting the frame does not disturb the parser, whatever comes next. */
  lemma {:induction false} StaysInStep(a: Receiver, b: Receiver, c: seq<bv8>)
    requires InStep(a, b) && !a.done
    ensures InStep(ReceiveAll(a, c), ReceiveAll(b, c))
    ensures ReceiveAll(a, c).done <==> ReceiveAll(b, c).done && !BraceFree(c)
    ensures ReceiveAll(a, c).done ==> ReceiveAll(a, c).rx == ReceiveAll(b, c).rx
    decreases |c|
  {
    if c != [] {
      var n := |c| - 1;
      StaysInStep(a, b, c[..n]);
      assert c == c[..n] + [c[n]];
      assert BraceFree(c) <==> BraceFree(c[..n]) && !IsBrace(c[n]);
      StepInStep(ReceiveAll(a, c[..n]), ReceiveAll(b, c[..n]), c[n]);
    }
  }

  lemma StepInStep(a: Receiver, b: Receiver, c: bv8)
    requires InStep(a, b)
    ensures var x, y := Receive(a, c), Receive(b, c);
            && InStep(x, y)
            && (IsBrace(c) ==> x.done == y.done && (x.done ==> x.rx == y.rx))
            && (!IsBrace(c) ==> x.rx == a.rx && y.rx == b.rx)
            && (!IsBrace(c) ==> if a.count > BODY then !x.done && !y.done else x.done == a.done && y.done == b.done)
  {
    if !IsBrace(c) && a.start && a.count <= BODY {
      assert a.data[a.count := c][..a.count + 1] == a.data[..a.count] + [c];
      assert b.data[b.count := c][..b.count + 1] == b.data[..b.count] + [c];
    } else if c == EOF && a.start && a.count == BODY {
      assert a.data[..BODY] == b.data[..BODY];
    }
  }

  /** Characters of an open window are in the buffer. */
  predicate MidWindow(s: seq<bv8>) { Open(s) && |s| > Tail(s) }

  /** A send leaves the device's own parser in step exactly when no character of an open window is in the buffer. */
  lemma SendKeepsStep(s: Receiver, now: Receiver, before: seq<bv8>, g: Frame)
    requires IsIdle(s) && InStep(now, ReceiveAll(s, before))
    ensures InStep(AfterSend(now, Some(g)), ReceiveAll(s, before)) <==> !MidWindow(before)
  {
    Follows(s, before);
    var r := ReceiveAll(s, before);
    if MidWindow(before) {
      assert before[Tail(before)..][0] == r.data[..r.count][0] == r.data[0];
      assert Wire(g)[..r.count][0] == SOF;
    }
  }

  /** Otherwise the closing brace judges what was sent and not what was received. */
  lemma SentTextJudged(r: Receiver, w: seq<bv8>, g: Frame)
    requires r.Valid() && |w| == BODY && BraceFree(w)
    ensures Receive(AfterSend(ReceiveAll(r, [SOF] + w), Some(g)), EOF).done <==> Accepted(Wire(g)[..BODY])
  {
    assert [SOF][..0] == [];
    assert ReceiveAll(r, [SOF]) == Receive(r, SOF);
    ReceiveConcat(r, [SOF], w);
    FillsBuffer(Receive(r, SOF), w);
  }

  /** A task that has just been handed a frame may send: no window is open then. */
  lemma TaskMaySend(s: Receiver, now: Receiver, before: seq<bv8>, chunk: seq<bv8>)
    requires IsIdle(s) && !now.done && InStep(now, ReceiveAll(s, before))
    ensures Taken(now, chunk).Some? ==> !MidWindow(before + chunk)
  {
    StaysInStep(now, ReceiveAll(s, before), chunk);
    ReceiveConcat(s, before, chunk);
    Follows(s, before + chunk);
    CompleteIsClosed(before + chunk);
  }

  lemma CompleteIsClosed(s: seq<bv8>)
    ensures Complete(s) ==> !Open(s)
  {
  }

  /** The device sends nothing while characters of an open window are in its buffer. */
  predicate Polite(turns: seq<Turn>) {
    turns == [] ||
    (Polite(turns[..|turns| - 1]) && (turns[|turns| - 1].sends.Some? ==> !MidWindow(Stream(turns))))
  }

  lemma {:induction false} TurnsFollowStream(s: Receiver, turns: seq<Turn>)
    requires IsIdle(s) && Polite(turns)
    ensures InStep(AfterTurns(s, turns), ReceiveAll(s, Stream(turns))) && !AfterTurns(s, turns).done
    decreases |turns|
  {
    if turns != [] {
      var a, t := turns[..|turns| - 1], turns[|turns| - 1];
      TurnsFollowStream(s, a);
      TurnInStep(s, AfterTurns(s, a), Stream(a), t);
    }
  }

  /** One more turn keeps the parser in step, with the flag down. */
  lemma TurnInStep(s: Receiver, now: Receiver, before: seq<bv8>, t: Turn)
    requires IsIdle(s) && !now.done && InStep(now, ReceiveAll(s, before))
    requires t.sends.Some? ==> !MidWindow(before + t.chunk)
    ensures InStep(AfterTurn(now, t), ReceiveAll(s, before + t.chunk)) && !AfterTurn(now, t).done
  {
    StaysInStep(now, ReceiveAll(s, before), t.chunk);
    ReceiveConcat(s, before, t.chunk);
    var r := ReceiveAll(now, t.chunk);
    var cleared := if r.done then r.(done := false, rx := t.left) else r;
    if t.sends.Some? {
      SendKeepsStep(s, cleared, before + t.chunk, t.sends.value);
    }
  }

  /** What the last accepted window carries is the payload of the window the stream decomposes into. */
  lemma {:induction false} LastOfParts(s: seq<bv8>, p: seq<bv8>, w: seq<bv8>, t: seq<bv8>, initial: Frame)
    requires Decomposes(s, p, w, t)
    ensures LastFrame(s, initial) == Payload(w)
    decreases |t|
  {
    if t == [] {
      assert s == p + [SOF] + w + [EOF];
      LastWindow(s, p, w, initial);
    } else {
      TailShorter(s, p, w, t);
      LastOfParts(s[..|s| - 1], p, w, t[..|t| - 1], initial);
      LastKept(s, initial);
    }
  }

  lemma LastWindow(s: seq<bv8>, p: seq<bv8>, w: seq<bv8>, initial: Frame)
    requires s == p + [SOF] + w + [EOF] && |w| == BODY && BraceFree(w) && Accepted(w)
    ensures LastFrame(s, initial) == Payload(w)
  {
    MiddlePart(p + [SOF], w, [EOF]);
    assert forall i :: 0 <= i < |w| ==> s[|p| + 1 + i] == w[i];
    assert EndsInWindow(s) && Body(s) == w;
  }

  lemma LastKept(s: seq<bv8>, initial: Frame)
    requires s != [] && !IsBrace(s[|s| - 1])
    ensures LastFrame(s, initial) == LastFrame(s[..|s| - 1], initial)
  {
  }

  lemma TailShorter(s: seq<bv8>, p: seq<bv8>, w: seq<bv8>, t: seq<bv8>)
    requires Decomposes(s, p, w, t) && t != []
    ensures !IsBrace(s[|s| - 1]) && Decomposes(s[..|s| - 1], p, w, t[..|t| - 1])
  {
    var head := p + [SOF] + w + [EOF];
    assert s[|s| - 1] == t[|t| - 1];
    PartsUpTo(head, t, |s| - 1);
  }

  /** An accepted window that carries f and whose closing brace is among the last n characters. */
  ghost predicate ClosesAmong(s: seq<bv8>, n: nat, f: Frame) {
    exists p, w, t :: Decomposes(s, p, w, t) && |t| < n && Payload(w) == f
  }

  lemma ClosingBrace(before: seq<bv8>, c: seq<bv8>, p: seq<bv8>, w: seq<bv8>, t: seq<bv8>)
    requires Decomposes(before + c, p, w, t)
    ensures BraceFree(c) <==> |c| <= |t|
  {
    var s := before + c;
    var n := |s| - |t|;
    assert s[n - 1] == EOF && s[n..] == t;
    if |t| < |c| {
      assert c[|c| - |t| - 1] == EOF;
    } else {
      assert forall i :: 0 <= i < |c| ==> c[i] == t[|t| - |c| + i];
    }
  }

  /** A parser in step with one that has seen the whole line hands over the windows that close in its chunk. */
  lemma TakenInStep(s: Receiver, now: Receiver, before: seq<bv8>, chunk: seq<bv8>, f: Frame)
    requires IsIdle(s) && !now.done && InStep(now, ReceiveAll(s, before))
    ensures Taken(now, chunk) == Some(f) <==> ClosesAmong(before + chunk, |chunk|, f)
  {
    var whole := before + chunk;
    StaysInStep(now, ReceiveAll(s, before), chunk);
    ReceiveConcat(s, before, chunk);
    ExactAcceptance(s, whole);
    if Taken(now, chunk) == Some(f) {
      var p, w, t :| Decomposes(whole, p, w, t);
      ClosingBrace(before, chunk, p, w, t);
      LastOfParts(whole, p, w, t, s.rx);
    }
    if ClosesAmong(whole, |chunk|, f) {
      var p, w, t :| Decomposes(whole, p, w, t) && |t| < |chunk| && Payload(w) == f;
      ClosingBrace(before, chunk, p, w, t);
      LastOfParts(whole, p, w, t, s.rx);
    }
  }

  /**
    However the line is cut into turns, whatever the task writes into the frame register, and whatever
    the device sends while no window is open, a turn hands over a frame exactly when an accepted window
    carrying it closes among the characters of that turn, with at most 69 characters and no brace after
    it: no window is handed over twice.
   */
  lemma TakenExactly(s: Receiver, turns: seq<Turn>, chunk: seq<bv8>, f: Frame)
    requires IsIdle(s) && Polite(turns)
    ensures Taken(AfterTurns(s, turns), chunk) == Some(f) <==> ClosesAmong(Stream(turns) + chunk, |chunk|, f)
  {
    TurnsFollowStream(s, turns);
    TakenInStep(s, AfterTurns(s, turns), Stream(turns), chunk, f);
  }

  // ---------------------------------------------------------------- one transmission, cut into polls

  /** No accepted window in the noise. */
  ghost predicate NoWindow(noise: seq<bv8>) {
    forall n :: 0 <= n <= |noise| ==> !HasWindow(noise[..n])
  }

  /** The end of a transmission: too few characters to make the parser drop the frame, none a brace. */
  predicate ShortTail(tail: seq<bv8>) { BraceFree(tail) && |tail| <= BODY + 1 }

  /** What one transmission of req puts on the line at one device. */
  ghost predicate Transmits(line: seq<bv8>, noise: seq<bv8>, req: Frame, tail: seq<bv8>) {
    line == noise + Wire(req) + tail && NoWindow(noise) && ShortTail(tail)
  }

  lemma ClosingInWindow(w: seq<bv8>, k: nat)
    requires BraceFree(w) && k <= |w|
    ensures ([SOF] + w + [EOF])[k] != EOF
  {
    assert k > 0 ==> ([SOF] + w + [EOF])[k] == w[k - 1];
  }

  /** From the request on, the one closing brace is its own. */
  lemma ClosingInLine(line: seq<bv8>, noise: seq<bv8>, req: Frame, tail: seq<bv8>, i: nat)
    requires Transmits(line, noise, req, tail) && |noise| <= i < |line|
    ensures line[i] == EOF ==> i == |noise| + FLENGTH - 1
  {
    var k := i - |noise|;
    if k >= FLENGTH {
      assert line[i] == tail[k - FLENGTH];
    } else if k < FLENGTH - 1 {
      BlockAccepted(req);
      ClosingInWindow(HexString(Block(req)), k);
    }
  }

  lemma WireInLine(line: seq<bv8>, noise: seq<bv8>, req: Frame, tail: seq<bv8>)
    requires Transmits(line, noise, req, tail)
    ensures |line| >= |noise| + FLENGTH
    ensures line[|noise| + 1..|noise| + FLENGTH - 1] == HexString(Block(req))
  {
    var text := HexString(Block(req));
    LineParts(noise, [SOF], text, [EOF], tail);
    MiddlePart(noise + [SOF], text, [EOF] + tail);
    assert line == noise + [SOF] + text + ([EOF] + tail);
  }

  lemma MiddlePart(a: seq<bv8>, b: seq<bv8>, c: seq<bv8>)
    ensures (a + b + c)[|a|..|a| + |b|] == b
  {
  }

  /** In any part of the line, the one window is that of the request. */
  lemma WindowInLine(
    line: seq<bv8>, noise: seq<bv8>, req: Frame, tail: seq<bv8>, n: nat, p: seq<bv8>, w: seq<bv8>, t: seq<bv8>)
    requires Transmits(line, noise, req, tail) && n <= |line| && Decomposes(line[..n], p, w, t)
    ensures |p| == |noise| && w == HexString(Block(req))
  {
    var c := |p| + FLENGTH;
    FirstPart(line, n, p + [SOF] + w + [EOF], t);
    assert line[c - 1] == line[..c][c - 1] == EOF;
    if c <= |noise| {
      NoWindowAhead(line, noise, req, tail, c, p, w);
    }
    ClosingInLine(line, noise, req, tail, c - 1);
    WireInLine(line, noise, req, tail);
    MiddlePart(p + [SOF], w, [EOF]);
    SliceOfPrefix(line, c, |p| + 1, c - 1);
  }

  lemma FirstPart(line: seq<bv8>, n: nat, a: seq<bv8>, b: seq<bv8>)
    requires n <= |line| && line[..n] == a + b
    ensures |a| <= n && line[..|a|] == a
  {
    assert line[..|a|] == line[..n][..|a|];
  }

  lemma SliceOfPrefix(line: seq<bv8>, n: nat, i: nat, j: nat)
    requires i <= j <= n <= |line|
    ensures line[..n][i..j] == line[i..j]
  {
  }

  lemma NoWindowAhead(
    line: seq<bv8>, noise: seq<bv8>, req: Frame, tail: seq<bv8>, c: nat, p: seq<bv8>, w: seq<bv8>)
    requires Transmits(line, noise, req, tail) && c <= |noise|
    requires |w| == BODY && BraceFree(w) && Accepted(w)
    ensures line[..c] != p + [SOF] + w + [EOF]
  {
    assert noise[..c] == line[..c];
    if noise[..c] == p + [SOF] + w + [EOF] {
      assert noise[..c] == p + [SOF] + w + [EOF] + [];
      assert Decomposes(noise[..c], p, w, []);
      assert false;
    }
  }

  /** Among the last m characters of a part of the line a frame closes exactly if the request ends there. */
  lemma ClosesInLine(line: seq<bv8>, noise: seq<bv8>, req: Frame, tail: seq<bv8>, n: nat, m: nat, f: Frame)
    requires Transmits(line, noise, req, tail) && m <= n <= |line|
    ensures ClosesAmong(line[..n], m, f) <==> f == req && n - m < |noise| + FLENGTH <= n
  {
    BlockAccepted(req);
    var end := |noise| + FLENGTH;
    if ClosesAmong(line[..n], m, f) {
      var p, w, t :| Decomposes(line[..n], p, w, t) && |t| < m && Payload(w) == f;
      WindowInLine(line, noise, req, tail, n, p, w, t);
    }
    if n - m < end <= n {
      RequestWindow(line, noise, req, tail, n);
    }
  }

  lemma RequestWindow(line: seq<bv8>, noise: seq<bv8>, req: Frame, tail: seq<bv8>, n: nat)
    requires Transmits(line, noise, req, tail) && |noise| + FLENGTH <= n <= |line|
    ensures Decomposes(line[..n], noise, HexString(Block(req)), tail[..n - |noise| - FLENGTH])
  {
    BlockAccepted(req);
    LineParts(noise, [SOF], HexString(Block(req)), [EOF], tail);
    PartsUpTo(noise + [SOF] + HexString(Block(req)) + [EOF], tail, n);
  }

  lemma LineParts(a: seq<bv8>, b: seq<bv8>, c: seq<bv8>, d: seq<bv8>, e: seq<bv8>)
    ensures a + (b + c + d) + e == a + b + c + d + e
  {
  }

  lemma PartsUpTo(a: seq<bv8>, b: seq<bv8>, n: nat)
    requires |a| <= n <= |a| + |b|
    ensures (a + b)[..n] == a + b[..n - |a|]
  {
  }

  // ---------------------------------------------------------------- many devices on the line

  datatype Device = Device(port: Receiver, node: Server.Node)

  /** One poll of a device: the characters it finds, what its monitor reads then, and what it sends before the next. */
  datatype Poll = Poll(chunk: seq<bv8>, readings: Server.Readings, sends: Option<Frame>)

  /** `rs485Task` on a frame; what commands other than a server request do is not part of this model. */
  function Task(node: Server.Node, f: Frame, m: Server.Readings): Server.Outcome {
    if f[COMMAND] == Server.SERVER_REQ then Server.Request(node, f, m) else Server.Outcome(node, f, false)
  }

  /** A device's turn on what it finds; the task works on the frame register in place. */
  function Hear(d: Device, p: Poll): Device
    requires d.port.Valid()
  {
    match Taken(d.port, p.chunk)
    case None => d.(port := AfterTurn(d.port, Turn(p.chunk, d.port.rx, p.sends)))
    case Some(f) =>
      var o := Task(d.node, f, p.readings);
      Device(AfterTurn(d.port, Turn(p.chunk, o.frame, p.sends)), o.node)
  }

  function HearAll(d: Device, polls: seq<Poll>): (r: Device)
    requires d.port.Valid()
    ensures r.port.Valid()
  {
    if polls == [] then d else Hear(HearAll(d, polls[..|polls| - 1]), polls[|polls| - 1])
  }

  /** The frames handed over, in order. */
  function HandedOver(d: Device, polls: seq<Poll>): seq<Frame>
    requires d.port.Valid()
  {
    if polls == [] then []
    else
      var a := polls[..|polls| - 1];
      match Taken(HearAll(d, a).port, polls[|polls| - 1].chunk)
      case None => HandedOver(d, a)
      case Some(f) => HandedOver(d, a) + [f]
  }

  /** The device prepares an acknowledgement in one of the polls; over RS-485 the code does not send it. */
  predicate Acknowledges(d: Device, polls: seq<Poll>)
    requires d.port.Valid()
  {
    polls != [] &&
    var a, p := polls[..|polls| - 1], polls[|polls| - 1];
    || Acknowledges(d, a)
    || (match Taken(HearAll(d, a).port, p.chunk)
        case None => false
        case Some(f) => Task(HearAll(d, a).node, f, p.readings).answered)
  }

  function Text(polls: seq<Poll>): seq<bv8> {
    if polls == [] then [] else Text(polls[..|polls| - 1]) + polls[|polls| - 1].chunk
  }

  /** The device sends nothing while characters of an open window are in its buffer. */
  predicate Courteous(polls: seq<Poll>) {
    forall i :: 0 <= i < |polls| && polls[i].sends.Some? ==> !MidWindow(Text(polls[..i + 1]))
  }

  /** The polls find a transmission of req, cut in any way, behind noise and ahead of a tail of the device's own. */
  ghost predicate Finds(polls: seq<Poll>, req: Frame) {
    Courteous(polls) && exists noise, tail :: Transmits(Text(polls), noise, req, tail)
  }

  /** Part way through the polls: the request has had its effect exactly if its last character has been found. */
  ghost predicate Heard(d: Device, polls: seq<Poll>, req: Frame, end: nat)
    requires d.port.Valid()
  {
    var r := HearAll(d, polls);
    && !r.port.done && InStep(r.port, ReceiveAll(d.port, Text(polls)))
    && HandedOver(d, polls) == (if |Text(polls)| >= end then [req] else [])
    && r.node == (if |Text(polls)| >= end then Server.NodeAfter(d.node, req) else d.node)
    && (Acknowledges(d, polls) <==> |Text(polls)| >= end && Server.Answers(d.node, req))
  }

  lemma HearsMore(
    d: Device, polls: seq<Poll>, p: Poll, line: seq<bv8>, noise: seq<bv8>, req: Frame, tail: seq<bv8>)
    requires IsIdle(d.port) && req[COMMAND] == Server.SERVER_REQ
    requires Transmits(line, noise, req, tail)
    requires |Text(polls) + p.chunk| <= |line| && Text(polls) + p.chunk == line[..|Text(polls) + p.chunk|]
    requires p.sends.Some? ==> !MidWindow(Text(polls) + p.chunk)
    requires Heard(d, polls, req, |noise| + FLENGTH)
    ensures Heard(d, polls + [p], req, |noise| + FLENGTH)
  {
    var x := polls + [p];
    assert x[..|x| - 1] == polls;
    var r, before := HearAll(d, polls), Text(polls);
    HearInStep(d, r, before, p);
    TakenInLine(d.port, r.port, before, p.chunk, line, noise, req, tail);
    Server.WhoAnswers(d.node, req, p.readings);
    Server.ReadingsOnlyReported(d.node, req, p.readings, Server.NO_READINGS);
  }

  /** A chunk of the line hands over the request exactly if it holds its last character, and nothing otherwise. */
  lemma TakenInLine(
    s: Receiver, now: Receiver, before: seq<bv8>, chunk: seq<bv8>,
    line: seq<bv8>, noise: seq<bv8>, req: Frame, tail: seq<bv8>)
    requires IsIdle(s) && !now.done && InStep(now, ReceiveAll(s, before))
    requires Transmits(line, noise, req, tail)
    requires |before + chunk| <= |line| && before + chunk == line[..|before + chunk|]
    ensures Taken(now, chunk) ==
            if |before| < |noise| + FLENGTH <= |before| + |chunk| then Some(req) else None
  {
    var n := |before + chunk|;
    match Taken(now, chunk)
    case None =>
      TakenInStep(s, now, before, chunk, req);
      ClosesInLine(line, noise, req, tail, n, |chunk|, req);
    case Some(f) =>
      TakenInStep(s, now, before, chunk, f);
      ClosesInLine(line, noise, req, tail, n, |chunk|, f);
  }

  lemma HearInStep(d: Device, r: Device, before: seq<bv8>, p: Poll)
    requires IsIdle(d.port) && !r.port.done && InStep(r.port, ReceiveAll(d.port, before))
    requires p.sends.Some? ==> !MidWindow(before + p.chunk)
    ensures InStep(Hear(r, p).port, ReceiveAll(d.port, before + p.chunk)) && !Hear(r, p).port.done
  {
    match Taken(r.port, p.chunk)
    case None => TurnInStep(d.port, r.port, before, Turn(p.chunk, r.port.rx, p.sends));
    case Some(f) => TurnInStep(d.port, r.port, before, Turn(p.chunk, Task(r.node, f, p.readings).frame, p.sends));
  }

  lemma {:induction false} HearsOnce(d: Device, polls: seq<Poll>, k: nat, noise: seq<bv8>, req: Frame, tail: seq<bv8>)
    requires IsIdle(d.port) && req[COMMAND] == Server.SERVER_REQ
    requires Transmits(Text(polls), noise, req, tail) && Courteous(polls) && k <= |polls|
    ensures Heard(d, polls[..k], req, |noise| + FLENGTH)
    decreases k
  {
    if k > 0 {
      HearsOnce(d, polls, k - 1, noise, req, tail);
      TextPrefix(polls, k);
      OnePollOff(polls, k);
      HearsMore(d, polls[..k - 1], polls[k - 1], Text(polls), noise, req, tail);
    }
  }

  lemma OnePollOff(polls: seq<Poll>, k: nat)
    requires 0 < k <= |polls| && Courteous(polls)
    ensures polls[..k] == polls[..k - 1] + [polls[k - 1]]
    ensures Text(polls[..k]) == Text(polls[..k - 1]) + polls[k - 1].chunk
    ensures polls[k - 1].sends.Some? ==> !MidWindow(Text(polls[..k]))
  {
    assert polls[..k][..k - 1] == polls[..k - 1];
    assert polls[..k - 1 + 1] == polls[..k];
  }

  lemma {:induction false} TextPrefix(polls: seq<Poll>, k: nat)
    requires k <= |polls|
    ensures |Text(polls[..k])| <= |Text(polls)| && Text(polls[..k]) == Text(polls)[..|Text(polls[..k])|]
    decreases |polls|
  {
    if k < |polls| {
      var n := |polls| - 1;
      TextPrefix(polls[..n], k);
      assert polls[..n][..k] == polls[..k];
    } else {
      assert polls[..k] == polls;
    }
  }

  /**
    However a transmission of a request is cut into polls, the device takes exactly that request, once,
    and its parser is idle again afterwards.
   */
  lemma HeardOnce(d: Device, polls: seq<Poll>, req: Frame)
    requires IsIdle(d.port) && req[COMMAND] == Server.SERVER_REQ && Finds(polls, req)
    ensures HandedOver(d, polls) == [req] && HearAll(d, polls).node == Server.NodeAfter(d.node, req)
    ensures Acknowledges(d, polls) <==> Server.Answers(d.node, req)
    ensures IsIdle(HearAll(d, polls).port)
  {
    var noise, tail :| Transmits(Text(polls), noise, req, tail);
    assert polls[..|polls|] == polls;
    HearsOnce(d, polls, |polls|, noise, req, tail);
    LineEndsIdle(d.port, Text(polls), noise, req, tail);
    WireInLine(Text(polls), noise, req, tail);
  }

  /** Behind a transmission no window is open. */
  lemma LineEndsIdle(s: Receiver, line: seq<bv8>, noise: seq<bv8>, req: Frame, tail: seq<bv8>)
    requires IsIdle(s) && Transmits(line, noise, req, tail)
    ensures !ReceiveAll(s, line).start
  {
    Follows(s, line);
    var end := |noise| + FLENGTH;
    assert line[end - 1] == EOF && line[end..] == tail;
    assert forall i :: end <= i < |line| ==> line[i] == tail[i - end];
    TailIs(line, end);
  }

  /** The request is the one frame taken, whatever the polls, exactly when the noise holds no accepted window. */
  lemma TakenOnceExactly(d: Device, noise: seq<bv8>, req: Frame)
    requires IsIdle(d.port) && req[COMMAND] == Server.SERVER_REQ
    ensures NoWindow(noise) <==>
            forall polls :: Text(polls) == noise + Wire(req) && Courteous(polls) ==> HandedOver(d, polls) == [req]
  {
    if NoWindow(noise) {
      forall polls | Text(polls) == noise + Wire(req) && Courteous(polls) ensures HandedOver(d, polls) == [req] {
        assert noise + Wire(req) == noise + Wire(req) + [];
        assert Transmits(Text(polls), noise, req, []);
        HeardOnce(d, polls, req);
      }
    } else {
      var n :| 0 <= n <= |noise| && HasWindow(noise[..n]);
      var _ := TakenTwice(d, noise, n, req);
    }
  }

  function Silent(chunk: seq<bv8>): Poll { Poll(chunk, Server.NO_READINGS, None) }

  /** A poll that falls just behind a window in the noise takes that one as well. */
  lemma TakenTwice(d: Device, noise: seq<bv8>, n: nat, req: Frame) returns (polls: seq<Poll>)
    requires IsIdle(d.port) && n <= |noise| && HasWindow(noise[..n])
    ensures Text(polls) == noise + Wire(req) && Courteous(polls) && |HandedOver(d, polls)| == 2
  {
    var p, q := Silent(noise[..n]), Silent(noise[n..] + Wire(req));
    polls := [] + [p] + [q];
    OnePollMore(d, [], p);
    OnePollMore(d, [] + [p], q);
    ExactAcceptance(d.port, noise[..n]);
    Resynchronises(HearAll(d, [] + [p]).port, noise[n..], req);
    SplitLine(noise, n, Wire(req));
  }

  lemma SplitLine(noise: seq<bv8>, n: nat, rest: seq<bv8>)
    requires n <= |noise|
    ensures [] + noise[..n] + (noise[n..] + rest) == noise + rest
  {
  }

  lemma OnePollMore(d: Device, a: seq<Poll>, p: Poll)
    requires d.port.Valid()
    ensures Text(a + [p]) == Text(a) + p.chunk
    ensures |HandedOver(d, a + [p])| == |HandedOver(d, a)| + if Taken(HearAll(d, a).port, p.chunk).Some? then 1 else 0
  {
    assert (a + [p])[..|a|] == a;
  }

  predicate Ready(ds: seq<Device>) { forall i :: 0 <= i < |ds| ==> IsIdle(ds[i].port) }

  function Nodes(ds: seq<Device>): (r: seq<Server.Node>)
    ensures |r| == |ds|
  {
    seq(|ds|, i requires 0 <= i < |ds| => ds[i].node)
  }

  /** A server request, and how each device finds it on the line. */
  datatype Round = Round(req: Frame, polls: seq<seq<Poll>>)

  ghost predicate Fits(ds: seq<Device>, x: Round) {
    && |x.polls| == |ds| && x.req[COMMAND] == Server.SERVER_REQ
    && forall i :: 0 <= i < |ds| ==> Finds(x.polls[i], x.req)
  }

  function Transmission(ds: seq<Device>, x: Round): (r: seq<Device>)
    requires (forall i :: 0 <= i < |ds| ==> ds[i].port.Valid()) && |x.polls| == |ds|
    ensures |r| == |ds| && forall i :: 0 <= i < |ds| ==> r[i].port.Valid()
  {
    seq(|ds|, i requires 0 <= i < |ds| => HearAll(ds[i], x.polls[i]))
  }

  function Rounds(ds: seq<Device>, rounds: seq<Round>): (r: seq<Device>)
    requires forall i :: 0 <= i < |ds| ==> ds[i].port.Valid()
    requires forall k :: 0 <= k < |rounds| ==> |rounds[k].polls| == |ds|
    ensures |r| == |ds| && forall i :: 0 <= i < |ds| ==> r[i].port.Valid()
  {
    if rounds == [] then ds else Transmission(Rounds(ds, rounds[..|rounds| - 1]), rounds[|rounds| - 1])
  }

  function Requests(rounds: seq<Round>): (r: seq<Frame>)
    ensures |r| == |rounds|
  {
    seq(|rounds|, k requires 0 <= k < |rounds| => rounds[k].req)
  }

  ghost predicate FitAll(ds: seq<Device>, rounds: seq<Round>) {
    forall k :: 0 <= k < |rounds| ==> Fits(ds, rounds[k])
  }

  /**
    The line refines the ideal broadcast: after any run of server requests, each found by every device
    in polls of its own, with noise of its own and readings of its own, the nodes are what they become
    when every node is handed every request once.
   */
  lemma {:induction false} LineIsBroadcast(ds: seq<Device>, rounds: seq<Round>)
    requires Ready(ds) && FitAll(ds, rounds)
    ensures Ready(Rounds(ds, rounds))
    ensures Nodes(Rounds(ds, rounds)) == Server.Serve(Nodes(ds), Requests(rounds))
    decreases |rounds|
  {
    if rounds != [] {
      var n := |rounds| - 1;
      var before, x := Rounds(ds, rounds[..n]), rounds[n];
      LineIsBroadcast(ds, rounds[..n]);
      assert Requests(rounds)[..n] == Requests(rounds[..n]);
      forall i | 0 <= i < |ds|
        ensures IsIdle(Rounds(ds, rounds)[i].port)
        ensures Nodes(Rounds(ds, rounds))[i] == Server.NodeAfter(Nodes(before)[i], x.req)
      {
        HeardOnce(before[i], x.polls[i], x.req);
      }
    }
  }

  /**
    On such a line at most one device prepares an acknowledgement of any request, the one addressed
    exactly, after any run of earlier requests that never handed out an address in use.
   */
  lemma AtMostOneOnLine(ds: seq<Device>, rounds: seq<Round>, next: Round, i: nat, j: nat)
    requires Ready(ds) && FitAll(ds, rounds) && Fits(ds, next) && i < |ds| && j < |ds|
    requires Server.Unique(Nodes(ds)) && Server.GrantsAll(Nodes(ds), Requests(rounds))
    requires Acknowledges(Rounds(ds, rounds)[i], next.polls[i]) && Acknowledges(Rounds(ds, rounds)[j], next.polls[j])
    ensures i == j && Server.Exact(next.req, Rounds(ds, rounds)[i].node.frame)
  {
    var now := Rounds(ds, rounds);
    LineIsBroadcast(ds, rounds);
    HeardOnce(now[i], next.polls[i], next.req);
    HeardOnce(now[j], next.polls[j], next.req);
    assert now[i].node == Nodes(now)[i] && now[j].node == Nodes(now)[j];
    Server.WhoAnswers(now[i].node, next.req, Server.NO_READINGS);
    Server.WhoAnswers(now[j].node, next.req, Server.NO_READINGS);
    Server.AtMostOneEver(Nodes(ds), Requests(rounds), next.req, i, j, Server.NO_READINGS, Server.NO_READINGS);
  }

  // ---------------------------------------------------------------- the loop as a program

  /** `is485Done` on the readable characters, then `clear485Done` and the hand-over. */
  method PollPort(port: Port, readable: seq<bv8>) returns (taken: Option<Frame>)
    requires port.Valid()
    modifies port, port.data
    ensures port.Valid() && taken == Taken(old(port.State()), readable)
    ensures port.State() == AfterTurn(old(port.State()), Turn(readable, port.rx, None))
  {
    ghost var before := port.State();
    for i := 0 to |readable|
      invariant port.Valid() && port.State() == ReceiveAll(before, readable[..i])
    {
      assert readable[..i + 1][..i] == readable[..i];
      var _ := port.Parse485Data(readable[i]);
    }
    assert readable[..|readable|] == readable;
    taken := None;
    if port.done {
      port.Clear485Done();
      taken := Some(port.rx);
    }
  }
}
