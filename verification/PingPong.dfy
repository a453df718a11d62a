/**
  The two-node PING/PONG role machine (Simulation/sx1276Exe_org.cpp). The main loop fills the global
  buffer, waits, and sends; the radio callbacks are interrupts and may run during the wait.
 */
module PingPong {
  const BUFFER_SIZE := 64

  const PING: seq<bv8> := [0x50, 0x49, 0x4E, 0x47]
  const PONG: seq<bv8> := [0x50, 0x4F, 0x4E, 0x47]

  datatype Mode = LowPower | Rx | RxTimeout | RxError | Tx | TxTimeout

  /**
    One station. `waiting` is the main loop between filling the buffer and `Radio.Send`;
    `listening` follows the code's own `Radio.Rx`, `Radio.Sleep` and `Radio.Send` calls.
   */
  datatype Station = Station(
    master: bool, mode: Mode, buffer: seq<bv8>, size: nat, waiting: bool, listening: bool)
  {
    predicate Valid() { |buffer| == BUFFER_SIZE && size <= BUFFER_SIZE }

    predicate Shows(msg: seq<bv8>)
      requires Valid() && |msg| == 4
    {
      buffer[..4] == msg
    }
  }

  // ---------------------------------------------------------------- callbacks

  function OnTxDone(n: Station): Station { n.(mode := Tx, listening := true) }

  function OnTxTimeout(n: Station): Station { n.(mode := TxTimeout, listening := true) }

  /** Also stores a zero behind the payload, when that is inside the buffer. */
  function OnRxTimeout(n: Station): (r: Station)
    requires n.Valid()
    ensures r.Valid()
  {
    n.(mode := RxTimeout, listening := true,
       buffer := if n.size < BUFFER_SIZE then n.buffer[n.size := 0] else n.buffer)
  }

  function OnRxError(n: Station): Station { n.(mode := RxError, listening := true) }

  function OnRxDone(n: Station, payload: seq<bv8>): (r: Station)
    requires n.Valid() && |payload| <= BUFFER_SIZE
    ensures r.Valid()
  {
    n.(mode := Rx, listening := false, size := |payload|, buffer := payload + n.buffer[|payload|..])
  }

  // ---------------------------------------------------------------- the main loop

  /** `strcpy` of a message and the counting payload behind it. */
  function Filled(msg: seq<bv8>, buffer: seq<bv8>, size: nat): (r: seq<bv8>)
    requires |msg| == 4 && |buffer| == BUFFER_SIZE && size <= BUFFER_SIZE
    ensures |r| == BUFFER_SIZE && r[..4] == msg
  {
    seq(BUFFER_SIZE, i requires 0 <= i < BUFFER_SIZE =>
      if i < 4 then msg[i] else if i < size then (i - 4) as bv8 else if i == 4 then 0 else buffer[i])
  }

  function Prepare(n: Station, msg: seq<bv8>): (r: Station)
    requires n.Valid() && |msg| == 4
    ensures r.Valid()
  {
    n.(buffer := Filled(msg, n.buffer, n.size), waiting := true)
  }

  /** An iteration of the loop up to its wait, or to its end if it does not send. */
  function Begin(n: Station): (r: Station)
    requires n.Valid()
    ensures r.Valid()
  {
    match n.mode
    case LowPower => n
    case Rx =>
      if n.size == 0 then n.(mode := LowPower)
      else if n.master && n.Shows(PONG) then Prepare(n, PING)
      else if n.Shows(PING) then Prepare(n.(master := false), PONG)
      else n.(master := true, listening := true, mode := LowPower)
    case RxTimeout =>
      if n.master then Prepare(n, PING) else n.(listening := true, mode := LowPower)
    case RxError => Prepare(n, if n.master then PING else PONG)
    case Tx => n.(listening := true, mode := LowPower)
    case TxTimeout => n.(listening := true, mode := LowPower)
  }

  /** The rest of a sending iteration, and what it puts on the air. */
  function Finish(n: Station): (r: Station)
    requires n.Valid()
    ensures r.Valid()
  {
    n.(waiting := false, listening := false, mode := LowPower)
  }

  function Sent(n: Station): (f: seq<bv8>)
    requires n.Valid()
    ensures |f| == n.size
  {
    n.buffer[..n.size]
  }

  // ---------------------------------------------------------------- the network

  datatype Who = A | B

  function Other(w: Who): Who { if w == A then B else A }

  datatype Event =
    | EBegin(who: Who) | EFinish(who: Who)
    | ETxDone(who: Who) | ETxTimeout(who: Who) | ERxTimeout(who: Who) | ERxError(who: Who)
    | EDeliver(who: Who, k: nat) | ELose(who: Who, k: nat)

  /** Both stations and, for each, the frames on their way to it. */
  datatype Net = Net(a: Station, b: Station, toA: seq<seq<bv8>>, toB: seq<seq<bv8>>)
  {
    predicate Valid() { a.Valid() && b.Valid() && AirFits(toA) && AirFits(toB) }

    function At(w: Who): Station { if w == A then a else b }

    function To(w: Who): seq<seq<bv8>> { if w == A then toA else toB }

    function With(w: Who, n: Station): Net { if w == A then this.(a := n) else this.(b := n) }

    function WithAir(w: Who, air: seq<seq<bv8>>): Net { if w == A then this.(toA := air) else this.(toB := air) }
  }

  predicate AirFits(air: seq<seq<bv8>>) { forall i :: 0 <= i < |air| ==> |air[i]| <= BUFFER_SIZE }

  function Without(air: seq<seq<bv8>>, k: nat): (r: seq<seq<bv8>>)
    requires k < |air|
    ensures AirFits(air) ==> AirFits(r)
  {
    air[..k] + air[k + 1..]
  }

  function Append(air: seq<seq<bv8>>, frame: seq<bv8>): (r: seq<seq<bv8>>)
    requires |frame| <= BUFFER_SIZE
    ensures AirFits(air) ==> AirFits(r)
  {
    air + [frame]
  }

  predicate Enabled(net: Net, e: Event) {
    match e
    case EBegin(w) => !net.At(w).waiting
    case EFinish(w) => net.At(w).waiting
    case EDeliver(w, k) => net.At(w).listening && k < |net.To(w)|
    case ELose(w, k) => k < |net.To(w)|
    case _ => true
  }

  function Step(net: Net, e: Event): (r: Net)
    requires net.Valid() && Enabled(net, e)
    ensures r.Valid()
  {
    match e
    case EBegin(w) => net.With(w, Begin(net.At(w)))
    case EFinish(w) =>
      net.With(w, Finish(net.At(w))).WithAir(Other(w), Append(net.To(Other(w)), Sent(net.At(w))))
    case ETxDone(w) => net.With(w, OnTxDone(net.At(w)))
    case ETxTimeout(w) => net.With(w, OnTxTimeout(net.At(w)))
    case ERxTimeout(w) => net.With(w, OnRxTimeout(net.At(w)))
    case ERxError(w) => net.With(w, OnRxError(net.At(w)))
    case EDeliver(w, k) => net.With(w, OnRxDone(net.At(w), net.To(w)[k])).WithAir(w, Without(net.To(w), k))
    case ELose(w, k) => net.WithAir(w, Without(net.To(w), k))
  }

  /** A run; events that cannot happen are skipped. */
  function Run(net: Net, events: seq<Event>): (r: Net)
    requires net.Valid()
    ensures r.Valid()
  {
    if events == [] then net
    else
      var q := Run(net, events[..|events| - 1]);
      if Enabled(q, events[|events| - 1]) then Step(q, events[|events| - 1]) else q
  }

  // ---------------------------------------------------------------- role stability

  function Word(master: bool): (m: seq<bv8>)
    ensures |m| == 4
  {
    if master then PING else PONG
  }

  predicate Carries(frame: seq<bv8>, msg: seq<bv8>)
    requires |msg| == 4
  {
    4 <= |frame| <= BUFFER_SIZE && frame[..4] == msg
  }

  /** The roles are as given, and everything on the air carries its sender's message. */
  predicate FramesMatch(net: Net, master: Who) {
    && net.a.master == (A == master) && net.b.master == (B == master)
    && AirMatches(net.toA, Word(A != master)) && AirMatches(net.toB, Word(B != master))
  }

  predicate AirMatches(air: seq<seq<bv8>>, msg: seq<bv8>)
    requires |msg| == 4
  {
    forall i :: 0 <= i < |air| ==> Carries(air[i], msg)
  }

  /**
    A station while this is so. `hit` says that a frame has been delivered since it filled its buffer:
    then the buffer shows the other station's message.
   */
  predicate Holds(n: Station, master: bool, hit: bool) {
    && n.Valid() && 4 <= n.size
    && if n.waiting then n.Shows(Word(if hit then !master else master))
       else !hit && (n.mode == Rx ==> n.Shows(Word(!master)))
  }

  predicate Stable(net: Net, master: Who) {
    && net.Valid() && FramesMatch(net, master)
    && Holds(net.a, A == master, false) && Holds(net.b, B == master, false)
  }

  lemma DeliveredShows(n: Station, payload: seq<bv8>, msg: seq<bv8>)
    requires n.Valid() && |msg| == 4 && Carries(payload, msg)
    ensures OnRxDone(n, payload).Shows(msg)
  {
    assert OnRxDone(n, payload).buffer[..4] == payload[..4];
  }

  lemma MessagesDiffer()
    ensures PING != PONG
  {
    assert PING[1] != PONG[1];
  }

  /** One loop iteration keeps the role and prepares the station's own message. */
  lemma BeginHolds(n: Station, master: bool)
    requires Holds(n, master, false) && !n.waiting && n.master == master
    ensures Holds(Begin(n), master, false) && Begin(n).master == master
  {
    MessagesDiffer();
  }

  /** The callbacks other than a reception leave the buffer's message alone. */
  lemma CallbackHolds(n: Station, master: bool, hit: bool)
    requires Holds(n, master, hit)
    ensures Holds(OnTxDone(n), master, hit) && Holds(OnTxTimeout(n), master, hit)
    ensures Holds(OnRxTimeout(n), master, hit) && Holds(OnRxError(n), master, hit)
  {
    assert OnRxTimeout(n).buffer[..4] == n.buffer[..4];
  }

  lemma WithoutMatches(air: seq<seq<bv8>>, k: nat, msg: seq<bv8>)
    requires k < |air| && |msg| == 4 && AirMatches(air, msg)
    ensures AirMatches(Without(air, k), msg)
  {
  }

  lemma AppendMatches(air: seq<seq<bv8>>, frame: seq<bv8>, msg: seq<bv8>)
    requires |msg| == 4 && AirMatches(air, msg)
    ensures AirMatches(air + [frame], msg) <==> Carries(frame, msg)
  {
    assert (air + [frame])[|air|] == frame;
  }

  /** Whether the buffer of the station has been overwritten since it was filled, after one more event of its own. */
  function HitAfter(n: Station, e: Event, hit: bool): bool {
    match e
    case EBegin(_) => false
    case EFinish(_) => false
    case EDeliver(_, _) => n.waiting
    case _ => hit
  }

  /** Any event but the end of a wait that was hit keeps the roles and the frames, and touches one station only. */
  lemma OwnStep(net: Net, master: Who, e: Event, hit: bool)
    requires net.Valid() && FramesMatch(net, master) && Holds(net.At(e.who), e.who == master, hit)
    requires Enabled(net, e) && !(e.EFinish? && hit)
    ensures FramesMatch(Step(net, e), master)
    ensures Holds(Step(net, e).At(e.who), e.who == master, HitAfter(net.At(e.who), e, hit))
    ensures Step(net, e).At(Other(e.who)) == net.At(Other(e.who))
  {
    var w := e.who;
    var n := net.At(w);
    match e
    case EBegin(_) => BeginHolds(n, w == master);
    case EFinish(_) =>
      SentCarries(n, Word(w == master));
      AppendMatches(net.To(Other(w)), Sent(n), Word(w == master));
    case EDeliver(_, k) =>
      DeliveredShows(n, net.To(w)[k], Word(w != master));
      WithoutMatches(net.To(w), k, Word(w != master));
    case ELose(_, k) => WithoutMatches(net.To(w), k, Word(w != master));
    case _ => CallbackHolds(n, w == master, hit);
  }

  lemma SentCarries(n: Station, msg: seq<bv8>)
    requires n.Valid() && 4 <= n.size && |msg| == 4
    ensures Carries(Sent(n), msg) <==> n.Shows(msg)
  {
    assert Sent(n)[..4] == n.buffer[..4];
  }

  /** A frame has been delivered to w since it last filled its buffer, and w has not sent yet. */
  predicate Hit(net: Net, w: Who, events: seq<Event>)
    requires net.Valid()
  {
    events != [] &&
    var a, e := events[..|events| - 1], events[|events| - 1];
    if e.who == w && Enabled(Run(net, a), e) then HitAfter(Run(net, a).At(w), e, Hit(net, w, a))
    else Hit(net, w, a)
  }

  /** The event ends a wait during which a frame was delivered. */
  predicate EndsHitWait(net: Net, events: seq<Event>, e: Event)
    requires net.Valid()
  {
    e.EFinish? && Enabled(Run(net, events), e) && Hit(net, e.who, events)
  }

  /** No wait that has ended was hit. */
  predicate Undisturbed(net: Net, events: seq<Event>)
    requires net.Valid()
  {
    events == [] ||
    var a, e := events[..|events| - 1], events[|events| - 1];
    Undisturbed(net, a) && !EndsHitWait(net, a, e)
  }

  /** What holds after an undisturbed run. */
  ghost predicate Sound(net: Net, master: Who, events: seq<Event>)
    requires net.Valid()
  {
    var q := Run(net, events);
    && FramesMatch(q, master)
    && Holds(q.a, A == master, Hit(net, A, events)) && Holds(q.b, B == master, Hit(net, B, events))
  }

  lemma {:induction false} RunSound(net: Net, master: Who, events: seq<Event>)
    requires Stable(net, master) && Undisturbed(net, events)
    ensures Sound(net, master, events)
    decreases |events|
  {
    if events != [] {
      var a, e := events[..|events| - 1], events[|events| - 1];
      RunSound(net, master, a);
      if Enabled(Run(net, a), e) {
        OwnStep(Run(net, a), master, e, Hit(net, e.who, a));
      }
    }
  }

  /** The frame a station sends after an undisturbed run is its own message exactly when its wait was not hit. */
  lemma WaitOutcome(net: Net, master: Who, w: Who, events: seq<Event>)
    requires Stable(net, master) && Undisturbed(net, events) && Run(net, events).At(w).waiting
    ensures Carries(Sent(Run(net, events).At(w)), Word(w == master)) <==> !Hit(net, w, events)
    ensures FramesMatch(Step(Run(net, events), EFinish(w)), master) <==> !Hit(net, w, events)
  {
    RunSound(net, master, events);
    var q := Run(net, events);
    MessagesDiffer();
    SentCarries(q.At(w), Word(w == master));
    AppendMatches(q.To(Other(w)), Sent(q.At(w)), Word(w == master));
  }

  /** The roles and the frames on the air have matched at every moment of the run. */
  predicate AlwaysMatch(net: Net, master: Who, events: seq<Event>)
    requires net.Valid()
  {
    FramesMatch(Run(net, events), master) && (events == [] || AlwaysMatch(net, master, events[..|events| - 1]))
  }

  /**
    Once there is one master and the frames on the air match, roles and frames stay so at every moment
    of a run, whatever is delivered, lost, garbled, completed or timed out, exactly when no wait that
    ended in the run was hit by a delivery.
   */
  lemma {:induction false} RolesStable(net: Net, master: Who, events: seq<Event>)
    requires Stable(net, master)
    ensures AlwaysMatch(net, master, events) <==> Undisturbed(net, events)
    decreases |events|
  {
    if events != [] {
      var a := events[..|events| - 1];
      RolesStable(net, master, a);
      if Undisturbed(net, a) {
        OneEventMore(net, master, events);
      }
    }
  }

  lemma OneEventMore(net: Net, master: Who, events: seq<Event>)
    requires Stable(net, master) && events != [] && Undisturbed(net, events[..|events| - 1])
    ensures FramesMatch(Run(net, events), master) <==> Undisturbed(net, events)
  {
    var a, e := events[..|events| - 1], events[|events| - 1];
    if EndsHitWait(net, a, e) {
      WaitOutcome(net, master, e.who, a);
    } else {
      RunSound(net, master, events);
    }
  }

  /** And then roles change: a PONG arriving while the master waits makes the slave a second master. */
  lemma TwoMasters(net: Net, m: Who)
    requires Stable(net, m)
    requires !net.At(m).waiting && net.At(m).listening && |net.To(m)| > 0
    requires !net.At(Other(m)).waiting && net.At(Other(m)).listening
    ensures exists events :: Run(net, events).a.master && Run(net, events).b.master
  {
    var events := WrongFrame(net, m);
    PongDelivered(net, m, events, |net.To(Other(m))|);
  }

  /** A PONG handed to a listening slave and looked at in its next turn. */
  lemma PongDelivered(net: Net, m: Who, events: seq<Event>, k: nat)
    requires net.Valid()
    requires var r := Run(net, events);
             var n := r.At(Other(m));
             && r.At(m).master && n.listening && !n.waiting && !n.master
             && k < |r.To(Other(m))| && Carries(r.To(Other(m))[k], PONG)
    ensures exists events :: Run(net, events).a.master && Run(net, events).b.master
  {
    var s := Other(m);
    var q := Run(net, events);
    DeliveredShows(q.At(s), q.To(s)[k], PONG);
    RunSnoc(net, events, EDeliver(s, k));
    var q1 := Step(q, EDeliver(s, k));
    PongMakesMaster(q1.At(s));
    RunSnoc(net, events + [EDeliver(s, k)], EBegin(s));
    var both := events + [EDeliver(s, k)] + [EBegin(s)];
    assert Run(net, both).At(s).master && Run(net, both).At(m).master;
  }

  lemma PongMakesMaster(n: Station)
    requires n.Valid() && n.mode == Rx && n.size > 0 && !n.master && n.Shows(PONG)
    ensures Begin(n).master
  {
    MessagesDiffer();
  }

  /** The master times out, prepares a PING, is handed a PONG, and sends that. */
  lemma WrongFrame(net: Net, m: Who) returns (events: seq<Event>)
    requires Stable(net, m) && !net.At(m).waiting && |net.To(m)| > 0
    ensures var r, k := Run(net, events), |net.To(Other(m))|;
            && r.At(m).master && r.At(Other(m)) == net.At(Other(m))
            && |r.To(Other(m))| == k + 1 && Carries(r.To(Other(m))[k], PONG)
  {
    var n1 := Step(net, ERxTimeout(m));
    var n2 := Step(n1, EBegin(m));
    assert n2.At(m).waiting && n2.At(m).listening && n2.To(m) == net.To(m);
    var n3 := Step(n2, EDeliver(m, 0));
    DeliveredShows(n2.At(m), n2.To(m)[0], PONG);
    SentCarries(n3.At(m), PONG);
    RunSnoc(net, [], ERxTimeout(m));
    RunSnoc(net, [] + [ERxTimeout(m)], EBegin(m));
    RunSnoc(net, [] + [ERxTimeout(m)] + [EBegin(m)], EDeliver(m, 0));
    RunSnoc(net, [] + [ERxTimeout(m)] + [EBegin(m)] + [EDeliver(m, 0)], EFinish(m));
    events := [] + [ERxTimeout(m)] + [EBegin(m)] + [EDeliver(m, 0)] + [EFinish(m)];
  }

  lemma RunSnoc(net: Net, events: seq<Event>, e: Event)
    requires net.Valid() && Enabled(Run(net, events), e)
    ensures Run(net, events + [e]) == Step(Run(net, events), e)
  {
    assert (events + [e])[..|events|] == events;
  }

  // ---------------------------------------------------------------- what each event is answered with

  /** A frame as a station fills it: its message and a payload that counts from 0. */
  predicate IsMessage(frame: seq<bv8>, msg: seq<bv8>)
    requires |msg| == 4
  {
    Carries(frame, msg) && forall i :: 4 <= i < |frame| ==> frame[i] == (i - 4) as bv8
  }

  /** Station w has put one more frame with its own word on the air and sleeps; the rest is as it was. */
  ghost predicate SentOne(net: Net, r: Net, m: Who, w: Who, size: nat)
    requires net.Valid() && r.Valid()
  {
    && (exists frame :: r.To(Other(w)) == net.To(Other(w)) + [frame] && |frame| == size
                        && IsMessage(frame, Word(w == m)))
    && Stable(r, m) && r.At(Other(w)) == net.At(Other(w))
    && !r.At(w).waiting && !r.At(w).listening && r.At(w).mode == LowPower
  }

  /** A turn that fills the buffer, and its end. */
  lemma FillAndSend(net: Net, m: Who, w: Who)
    requires Stable(net, m) && !net.At(w).waiting
    requires Begin(net.At(w)) == Prepare(net.At(w), Word(w == m))
    ensures var r := Step(Step(net, EBegin(w)), EFinish(w));
            SentOne(net, r, m, w, net.At(w).size) && r.To(w) == net.To(w)
  {
    var q := Step(net, EBegin(w));
    OwnStep(net, m, EBegin(w), false);
    OwnStep(q, m, EFinish(w), false);
    var frame := Sent(q.At(w));
    FilledIsMessage(net.At(w), Word(w == m));
    assert Step(q, EFinish(w)).To(Other(w)) == net.To(Other(w)) + [frame];
  }

  lemma FilledIsMessage(n: Station, msg: seq<bv8>)
    requires n.Valid() && 4 <= n.size && |msg| == 4
    ensures IsMessage(Sent(Prepare(n, msg)), msg) && |Sent(Prepare(n, msg))| == n.size
  {
    SentCarries(Prepare(n, msg), msg);
  }

  /** A frame handed to a listening station is answered with exactly one frame of its size, the station's own word. */
  lemma FrameAnswered(net: Net, m: Who, w: Who, k: nat)
    requires Stable(net, m) && !net.At(w).waiting && net.At(w).listening && k < |net.To(w)|
    ensures var r := Run(net, [] + [EDeliver(w, k)] + [EBegin(w)] + [EFinish(w)]);
            && SentOne(net, r, m, w, |net.To(w)[k]|)
            && r.To(w) == net.To(w)[..k] + net.To(w)[k + 1..]
  {
    var q := Step(net, EDeliver(w, k));
    OwnStep(net, m, EDeliver(w, k), false);
    DeliveredShows(net.At(w), net.To(w)[k], Word(w != m));
    MessagesDiffer();
    FillAndSend(q, m, w);
    RunThree(net, EDeliver(w, k), EBegin(w), EFinish(w));
  }

  lemma RunThree(net: Net, e1: Event, e2: Event, e3: Event)
    requires net.Valid() && Enabled(net, e1) && Enabled(Step(net, e1), e2) && Enabled(Step(Step(net, e1), e2), e3)
    ensures Run(net, [] + [e1] + [e2] + [e3]) == Step(Step(Step(net, e1), e2), e3)
  {
    RunSnoc(net, [], e1);
    RunSnoc(net, [] + [e1], e2);
    RunSnoc(net, [] + [e1] + [e2], e3);
  }

  /** A receive timeout makes the master send one PING, and the slave listen again and send nothing. */
  lemma TimeoutAnswered(net: Net, m: Who, w: Who)
    requires Stable(net, m) && !net.At(w).waiting
    ensures var r := Run(net, [] + [ERxTimeout(w)] + [EBegin(w)] + [EFinish(w)]);
            if w == m then SentOne(net, r, m, w, net.At(w).size)
            else r.toA == net.toA && r.toB == net.toB && Stable(r, m) && r.At(m) == net.At(m)
                 && !r.At(w).waiting && r.At(w).listening && r.At(w).mode == LowPower
  {
    var q := Step(net, ERxTimeout(w));
    OwnStep(net, m, ERxTimeout(w), false);
    if w == m {
      FillAndSend(q, m, w);
      RunThree(net, ERxTimeout(w), EBegin(w), EFinish(w));
    } else {
      OwnStep(q, m, EBegin(w), false);
      RunSnoc(net, [], ERxTimeout(w));
      RunSnoc(net, [] + [ERxTimeout(w)], EBegin(w));
      var x := [] + [ERxTimeout(w)] + [EBegin(w)] + [EFinish(w)];
      assert x[..2] == [] + [ERxTimeout(w)] + [EBegin(w)];
    }
  }

  /** A receive error makes each station send its own word. */
  lemma ErrorAnswered(net: Net, m: Who, w: Who)
    requires Stable(net, m) && !net.At(w).waiting
    ensures SentOne(net, Run(net, [] + [ERxError(w)] + [EBegin(w)] + [EFinish(w)]), m, w, net.At(w).size)
  {
    var q := Step(net, ERxError(w));
    OwnStep(net, m, ERxError(w), false);
    FillAndSend(q, m, w);
    RunThree(net, ERxError(w), EBegin(w), EFinish(w));
  }

  /** The end of a transmission, in time or not, makes the station listen again and send nothing. */
  lemma CompletionAnswered(net: Net, before: seq<Event>, w: Who, done: Event)
    requires net.Valid() && !Run(net, before).At(w).waiting && (done == ETxDone(w) || done == ETxTimeout(w))
    ensures var n := Run(net, before);
            Run(net, before + [done] + [EBegin(w)]) == n.With(w, n.At(w).(mode := LowPower, listening := true))
  {
    RunSnoc(net, before, done);
    RunSnoc(net, before + [done], EBegin(w));
  }

  /**
    A station whatever its role: a PING makes or keeps it slave and is answered; a frame that is neither
    a PING nor, for a master, a PONG makes or keeps it master, listening and silent; an empty one is ignored.
   */
  lemma FrameDecides(n: Station, payload: seq<bv8>)
    requires n.Valid() && |payload| <= BUFFER_SIZE && !n.waiting
    ensures var q := OnRxDone(n, payload);
            var r := Begin(q);
            && (|payload| == 0 ==> r == q.(mode := LowPower))
            && (|payload| > 0 && q.Shows(PING) ==> !r.master && r.waiting && r.Shows(PONG))
            && (|payload| > 0 && n.master && q.Shows(PONG) ==> r.master && r.waiting && r.Shows(PING))
            && (|payload| > 0 && !q.Shows(PING) && !(n.master && q.Shows(PONG)) ==>
                  r == q.(master := true, listening := true, mode := LowPower))
  {
    MessagesDiffer();
  }

  /**
    The radio as the code drives it: every callback but a reception listens again, a reception does not,
    so no second frame overwrites the first before the loop has looked at it; and the zero a receive
    timeout stores behind the payload is the one byte it changes.
   */
  lemma CallbacksListen(n: Station, payload: seq<bv8>)
    requires n.Valid() && |payload| <= BUFFER_SIZE
    ensures OnTxDone(n).listening && OnTxTimeout(n).listening && OnRxTimeout(n).listening && OnRxError(n).listening
    ensures OnTxDone(n).mode == Tx && OnTxTimeout(n).mode == TxTimeout
    ensures OnRxTimeout(n).mode == RxTimeout && OnRxError(n).mode == RxError
    ensures !OnRxDone(n, payload).listening && OnRxDone(n, payload).mode == Rx
    ensures forall i :: 0 <= i < BUFFER_SIZE ==>
              OnRxTimeout(n).buffer[i] == (if i == n.size then 0 else n.buffer[i])
    ensures forall i :: 0 <= i < BUFFER_SIZE ==>
              OnRxDone(n, payload).buffer[i] == (if i < |payload| then payload[i] else n.buffer[i])
  {
  }

  /** A turn that is not to send leaves the station listening, whatever it was doing. */
  lemma SilentTurnsListen(n: Station)
    requires n.Valid() && (n.mode == Tx || n.mode == TxTimeout || (n.mode == RxTimeout && !n.master))
    ensures Begin(n) == n.(listening := true, mode := LowPower)
  {
  }

  /** Both stations listen and one frame is on its way to w. */
  predicate InPlay(net: Net, m: Who, w: Who) {
    && Stable(net, m) && |net.To(w)| == 1 && net.To(Other(w)) == []
    && !net.a.waiting && net.a.listening && !net.b.waiting && net.b.listening
  }

  /** One exchange: the frame is answered and the answer is on its way. */
  lemma OneExchange(net: Net, m: Who, w: Who) returns (events: seq<Event>)
    requires InPlay(net, m, w)
    ensures |events| == 5 && InPlay(Run(net, events), m, Other(w))
  {
    var three := [] + [EDeliver(w, 0)] + [EBegin(w)] + [EFinish(w)];
    FrameAnswered(net, m, w, 0);
    CompletionAnswered(net, three, w, ETxDone(w));
    events := three + [ETxDone(w)] + [EBegin(w)];
    BackInPlay(net, Run(net, three), m, w);
  }

  /** The station that has answered listens again. */
  lemma BackInPlay(net: Net, r: Net, m: Who, w: Who)
    requires InPlay(net, m, w) && r.Valid() && SentOne(net, r, m, w, |net.To(w)[0]|)
    requires r.To(w) == net.To(w)[..0] + net.To(w)[1..]
    ensures InPlay(r.With(w, r.At(w).(mode := LowPower, listening := true)), m, Other(w))
  {
  }

  lemma {:induction false} RunConcat(net: Net, a: seq<Event>, b: seq<Event>)
    requires net.Valid()
    ensures Run(net, a + b) == Run(Run(net, a), b)
    decreases |b|
  {
    if b == [] {
      assert a + b == a;
    } else {
      assert (a + b)[..|a + b| - 1] == a + b[..|b| - 1];
      RunConcat(net, a, b[..|b| - 1]);
    }
  }

  /** Whose turn it is after n exchanges. */
  function TurnOf(w: Who, n: nat): Who
    decreases n
  {
    if n == 0 then w else TurnOf(Other(w), n - 1)
  }

  /** With nothing lost and nothing in a wait the exchange never stops: n frames are answered in turn, for every n. */
  lemma {:induction false} PlaysOn(net: Net, m: Who, w: Who, n: nat) returns (events: seq<Event>)
    requires InPlay(net, m, w)
    ensures |events| == 5 * n && InPlay(Run(net, events), m, TurnOf(w, n))
    decreases n
  {
    if n == 0 {
      events := [];
    } else {
      var first := OneExchange(net, m, w);
      var rest := PlaysOn(Run(net, first), m, Other(w), n - 1);
      events := first + rest;
      PlaysInTurn(net, first, rest, m, TurnOf(Other(w), n - 1));
    }
  }

  lemma PlaysInTurn(net: Net, a: seq<Event>, b: seq<Event>, m: Who, w: Who)
    requires net.Valid() && InPlay(Run(Run(net, a), b), m, w)
    ensures InPlay(Run(net, a + b), m, w)
  {
    RunConcat(net, a, b);
  }

  const FRESH := Station(true, LowPower, seq(BUFFER_SIZE, _ => 0), BUFFER_SIZE, false, true)

  const POWER_UP := Net(FRESH, FRESH, [], [])

  /** Two boards just switched on find their roles: A times out first and B answers it. */
  lemma RolesFound() returns (events: seq<Event>)
    ensures var q := Run(POWER_UP, events);
            InPlay(q, A, A)
  {
    var asked := PingSent();
    var n := Run(POWER_UP, asked);
    var n1 := Step(n, EDeliver(B, 0));
    DeliveredShows(n.b, n.toB[0], PING);
    MessagesDiffer();
    var n2 := Step(n1, EBegin(B));
    var n3 := Step(n2, EFinish(B));
    SentCarries(n2.b, PONG);
    assert n3.toA == [Sent(n2.b)];
    RunSnoc(POWER_UP, asked, EDeliver(B, 0));
    RunSnoc(POWER_UP, asked + [EDeliver(B, 0)], EBegin(B));
    RunSnoc(POWER_UP, asked + [EDeliver(B, 0)] + [EBegin(B)], EFinish(B));
    events := Listens(asked + [EDeliver(B, 0)] + [EBegin(B)] + [EFinish(B)], B);
  }

  /** A has sent a PING and listens again. */
  lemma PingSent() returns (events: seq<Event>)
    ensures var n := Run(POWER_UP, events);
            && n.b == FRESH && n.toA == [] && |n.toB| == 1 && Carries(n.toB[0], PING)
            && n.a.master && n.a.mode == LowPower && n.a.size == BUFFER_SIZE && !n.a.waiting && n.a.listening
  {
    var n1 := Step(POWER_UP, ERxTimeout(A));
    var n2 := Step(n1, EBegin(A));
    SentCarries(n2.a, PING);
    var n3 := Step(n2, EFinish(A));
    assert n3.toB == [Sent(n2.a)];
    RunSnoc(POWER_UP, [], ERxTimeout(A));
    RunSnoc(POWER_UP, [] + [ERxTimeout(A)], EBegin(A));
    RunSnoc(POWER_UP, [] + [ERxTimeout(A)] + [EBegin(A)], EFinish(A));
    events := Listens([] + [ERxTimeout(A)] + [EBegin(A)] + [EFinish(A)], A);
  }

  /** The transmission completes and the station goes back to listening; nothing else changes. */
  lemma Listens(before: seq<Event>, w: Who) returns (events: seq<Event>)
    requires !Run(POWER_UP, before).At(w).waiting
    ensures var n := Run(POWER_UP, before);
            Run(POWER_UP, events) == n.With(w, n.At(w).(mode := LowPower, listening := true))
  {
    RunSnoc(POWER_UP, before, ETxDone(w));
    RunSnoc(POWER_UP, before + [ETxDone(w)], EBegin(w));
    events := before + [ETxDone(w)] + [EBegin(w)];
  }

  /** So two masters are reachable from power-up, after the roles had been found. */
  lemma TwoMastersFromPowerUp()
    ensures exists first, second ::
              var q := Run(POWER_UP, first);
              Stable(q, A) && Run(q, second).a.master && Run(q, second).b.master
  {
    var first := RolesFound();
    TwoMasters(Run(POWER_UP, first), A);
  }

  // ---------------------------------------------------------------- the program

  /** The globals and the local `isMaster` of one board, and its radio's receive state. */
  class Board {
    var isMaster: bool
    var mode: Mode
    const buffer: array<bv8>
    var bufferSize: nat
    var waiting: bool
    var listening: bool

    ghost predicate Valid()
      reads this, buffer
    {
      buffer.Length == BUFFER_SIZE && bufferSize <= BUFFER_SIZE
    }

    ghost function State(): Station
      reads this, buffer
    {
      Station(isMaster, mode, buffer[..], bufferSize, waiting, listening)
    }

    constructor ()
      ensures Valid() && State() == FRESH
      ensures fresh(buffer)
    {
      isMaster, mode, bufferSize, waiting, listening := true, LowPower, BUFFER_SIZE, false, true;
      buffer := new bv8[BUFFER_SIZE](_ => 0);
    }

    /** `OnRxDone`. */
    method ReceiveDone(payload: seq<bv8>)
      requires Valid() && |payload| <= BUFFER_SIZE
      modifies this, buffer
      ensures Valid() && State() == OnRxDone(old(State()), payload)
    {
      listening := false;
      bufferSize := |payload|;
      for i := 0 to |payload|
        invariant buffer[..i] == payload[..i] && buffer[i..] == old(buffer[i..])
        modifies buffer
      {
        buffer[i] := payload[i];
      }
      assert buffer[..] == buffer[..|payload|] + buffer[|payload|..];
      mode := Rx;
    }

    /** `OnRxTimeout`. */
    method ReceiveTimeout()
      requires Valid()
      modifies this, buffer
      ensures Valid() && State() == OnRxTimeout(old(State()))
    {
      listening := false;
      if bufferSize < BUFFER_SIZE {
        buffer[bufferSize] := 0;
      }
      mode := RxTimeout;
      listening := true;
    }

    /** The message and its counting payload. */
    method Fill(msg: seq<bv8>)
      requires Valid() && |msg| == 4
      modifies buffer
      ensures buffer[..] == Filled(msg, old(buffer[..]), bufferSize)
    {
      buffer[0], buffer[1], buffer[2], buffer[3], buffer[4] := msg[0], msg[1], msg[2], msg[3], 0;
      ghost var want := Filled(msg, old(buffer[..]), bufferSize);
      var i := 4;
      while i < bufferSize
        invariant 4 <= i && (i <= bufferSize || i == 4)
        invariant forall k :: 0 <= k < i ==> buffer[k] == want[k]
        invariant forall k :: i <= k < BUFFER_SIZE ==> buffer[k] == if k == 4 then 0 else old(buffer[k])
      {
        buffer[i] := (i - 4) as bv8;
        i := i + 1;
      }
      assert forall k :: 0 <= k < BUFFER_SIZE ==> buffer[k] == want[k];
    }

    /** One turn of the endless loop in `testSx1276`, up to its wait. */
    method BeginTurn()
      requires Valid() && !waiting
      modifies this, buffer
      ensures Valid() && State() == Begin(old(State()))
    {
      match mode {
        case LowPower =>
        case Rx =>
          if bufferSize > 0 {
            if isMaster {
              if buffer[..4] == PONG {
                Fill(PING);
                waiting := true;
                return;
              } else if buffer[..4] == PING {
                isMaster := false;
                Fill(PONG);
                waiting := true;
                return;
              } else {
                isMaster := true;
                listening := true;
              }
            } else {
              if buffer[..4] == PING {
                Fill(PONG);
                waiting := true;
                return;
              } else {
                isMaster := true;
                listening := true;
              }
            }
          }
          mode := LowPower;
        case RxTimeout =>
          if isMaster {
            Fill(PING);
            waiting := true;
            return;
          }
          listening := true;
          mode := LowPower;
        case RxError =>
          if isMaster {
            Fill(PING);
          } else {
            Fill(PONG);
          }
          waiting := true;
        case Tx =>
          listening := true;
          mode := LowPower;
        case TxTimeout =>
          listening := true;
          mode := LowPower;
      }
    }

    /** The wait is over: `Radio.Send(Buffer, BufferSize)`. */
    method FinishTurn() returns (frame: seq<bv8>)
      requires Valid() && waiting
      modifies this
      ensures Valid() && State() == Finish(old(State())) && frame == Sent(old(State()))
    {
      frame := buffer[..bufferSize];
      waiting, listening, mode := false, false, LowPower;
    }
  }
}
