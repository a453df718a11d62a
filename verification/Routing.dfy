/**
  How a node passes server requests down and client acknowledgements up, over RS-485 (proc485.cpp),
  LoRa (procSx1276.cpp) and the short-range radio (procRf.cpp).
 */
module Routing {
  import opened Frames
  import opened Sealing
  import opened Server
  import opened Wrappers

  const RPT: bv8 := 16

  datatype Medium = Line | Air | LongRange

  /** What a node transmits, in order. */
  datatype Output = Down485(f: Frame) | Up485(f: Frame) | Radio(f: Frame) | LoRa(f: Frame) | Retune(group: bv16)

  datatype Handled = Handled(node: Node, frame: Frame, out: seq<Output>)

  // ---------------------------------------------------------------- acknowledgements

  /** The role an acknowledgement is stamped with by a node that forwards it. */
  function Stamp(my: bv8, f: Frame): Option<bv8> {
    if IsGateway(my) then if IsTx(f) then Some(GW) else None
    else if my == TX then if !IsMstOrGw(f) then Some(TX) else None
    else None
  }

  /** A node's role and the medium the acknowledgement reaches it by. */
  datatype Hop = Hop(role: bv8, via: Medium)

  /**
    One node: the frame it sends on, if any; a LoRa node seals it again, one that heard it by radio
    does not stamp it.
   */
  function Forward(h: Hop, f: Frame): Option<Frame> {
    if h.via == Air then if IsGateway(h.role) then Some(f) else None
    else
      match Stamp(h.role, f)
      case None => None
      case Some(r) => Some(if h.via == LongRange then SealSx(f[ROLE := r]) else f[ROLE := r])
  }

  /** The frame after all the hops have forwarded it in turn. */
  function Travel(f: Frame, hops: seq<Hop>): Option<Frame> {
    if hops == [] then Some(f)
    else
      match Travel(f, hops[..|hops| - 1])
      case None => None
      case Some(g) => Forward(hops[|hops| - 1], g)
  }

  predicate AllTx(hops: seq<Hop>) { forall i :: 0 <= i < |hops| ==> hops[i].role == TX }

  /** The bytes a route may change. */
  ghost predicate OnlyStamps(f: Frame, g: Frame, lora: bool) {
    SameExcept(f, g, if lora then {ROLE, 16, 17, 30, 31} else {ROLE})
  }

  predicate AnyLoRa(hops: seq<Hop>) { exists i :: 0 <= i < |hops| && hops[i].via == LongRange }

  /** The hops that stamp the acknowledgement. */
  function Stamping(hops: seq<Hop>): (r: seq<Hop>)
    ensures forall i :: 0 <= i < |r| ==> r[i].via != Air
  {
    if hops == [] then []
    else
      var a, h := Stamping(hops[..|hops| - 1]), hops[|hops| - 1];
      if h.via == Air then a else a + [h]
  }

  predicate AirByGateways(hops: seq<Hop>) {
    forall i :: 0 <= i < |hops| && hops[i].via == Air ==> IsGateway(hops[i].role)
  }

  /** Transmitters, then at most one gateway or master. */
  predicate StampRoute(role: bv8, hops: seq<Hop>) {
    hops == [] ||
    var n := |hops| - 1;
    && AllTx(hops[..n])
    && (n > 0 ==> !IsGateway(role))
    && (if IsGateway(hops[n].role) then n > 0 || role == TX else hops[n].role == TX && !IsGateway(role))
  }

  /** The routes an acknowledgement can take: by radio through gateways only, and the hops that stamp it as above. */
  predicate Route(role: bv8, hops: seq<Hop>) { AirByGateways(hops) && StampRoute(role, Stamping(hops)) }

  function StampedRole(role: bv8, hops: seq<Hop>): bv8 {
    if hops == [] then role else if IsGateway(hops[|hops| - 1].role) then GW else TX
  }

  lemma ForwardStamps(h: Hop, f: Frame)
    ensures Forward(h, f).Some? && h.via != Air ==> Forward(h, f).value[ROLE] == Stamp(h.role, f).value
    ensures Forward(h, f).Some? ==> OnlyStamps(f, Forward(h, f).value, h.via == LongRange)
    ensures Forward(h, f).Some? && h.via == LongRange ==> SxOk(Forward(h, f).value)
  {
    if h.via == LongRange && Stamp(h.role, f).Some? {
      SxSealPasses(f[ROLE := Stamp(h.role, f).value]);
    }
  }

  /** Exactly these routes carry an acknowledgement to the end; nothing but role and LoRa CRCs changes. */
  lemma {:induction false} AckRoute(f: Frame, hops: seq<Hop>)
    ensures Travel(f, hops).Some? <==> Route(f[ROLE], hops)
    ensures Travel(f, hops).Some? ==>
              && Travel(f, hops).value[ROLE] == StampedRole(f[ROLE], Stamping(hops))
              && OnlyStamps(f, Travel(f, hops).value, AnyLoRa(hops))
    decreases |hops|
  {
    if hops != [] {
      var a, h := hops[..|hops| - 1], hops[|hops| - 1];
      AckRoute(f, a);
      RouteSnoc(f[ROLE], hops);
      AnyLoRaSnoc(hops);
      if Travel(f, a).Some? {
        var g := Travel(f, a).value;
        assert Travel(f, hops) == Forward(h, g);
        ForwardExactly(h, g);
        if Forward(h, g).Some? {
          StampsAdd(f, g, Forward(h, g).value, AnyLoRa(a), h.via == LongRange);
        }
      }
    }
  }

  lemma ForwardExactly(h: Hop, g: Frame)
    ensures Forward(h, g).Some? <==> Takes(h, g[ROLE])
    ensures Forward(h, g).Some? ==>
              && OnlyStamps(g, Forward(h, g).value, h.via == LongRange)
              && Forward(h, g).value[ROLE] == RoleBehind(h, g[ROLE])
  {
    ForwardStamps(h, g);
  }

  lemma StampsAdd(f: Frame, g: Frame, h: Frame, a: bool, b: bool)
    requires OnlyStamps(f, g, a) && OnlyStamps(g, h, b)
    ensures OnlyStamps(f, h, a || b)
  {
  }

  lemma AnyLoRaSnoc(hops: seq<Hop>)
    requires hops != []
    ensures AnyLoRa(hops) <==> AnyLoRa(hops[..|hops| - 1]) || hops[|hops| - 1].via == LongRange
  {
    assert hops == hops[..|hops| - 1] + [hops[|hops| - 1]];
  }

  /** The hop forwards an acknowledgement that carries this role, and the role it carries then. */
  predicate Takes(h: Hop, now: bv8) {
    if h.via == Air then IsGateway(h.role)
    else if IsGateway(h.role) then now == TX
    else h.role == TX && !IsGateway(now)
  }

  function RoleBehind(h: Hop, now: bv8): bv8 { if h.via == Air then now else if IsGateway(h.role) then GW else TX }

  lemma RouteSnoc(role: bv8, hops: seq<Hop>)
    requires hops != []
    ensures var a, h := hops[..|hops| - 1], hops[|hops| - 1];
            var now := StampedRole(role, Stamping(a));
            && (Route(role, hops) <==> Route(role, a) && Takes(h, now))
            && StampedRole(role, Stamping(hops)) == RoleBehind(h, now)
  {
    var a, h := hops[..|hops| - 1], hops[|hops| - 1];
    assert AirByGateways(hops) <==> AirByGateways(a) && (h.via == Air ==> IsGateway(h.role)) by {
      assert hops == a + [h];
    }
    if h.via != Air {
      StampRouteSnoc(role, Stamping(a), h);
    }
  }

  /** A route grows by a transmitter or a gateway, and not beyond a gateway. */
  lemma StampRouteSnoc(role: bv8, a: seq<Hop>, h: Hop)
    ensures StampRoute(role, a + [h]) <==>
            StampRoute(role, a) && (if IsGateway(h.role) then StampedRole(role, a) == TX
                                    else h.role == TX && !IsGateway(StampedRole(role, a)))
  {
    assert (a + [h])[..|a|] == a;
    if a != [] {
      AllTxSnoc(a);
    }
  }

  lemma AllTxSnoc(a: seq<Hop>)
    requires a != []
    ensures AllTx(a) <==> AllTx(a[..|a| - 1]) && a[|a| - 1].role == TX
  {
    assert a == a[..|a| - 1] + [a[|a| - 1]];
    if AllTx(a) {
      assert a[|a| - 1].role == TX;
    }
  }

  /** At most one gateway or master stamps an acknowledgement, and it is the last to do so. */
  lemma OneGateway(f: Frame, hops: seq<Hop>, i: nat)
    requires Travel(f, hops).Some? && i < |Stamping(hops)| && IsGateway(Stamping(hops)[i].role)
    ensures i == |Stamping(hops)| - 1
  {
    AckRoute(f, hops);
    var x := Stamping(hops);
    var a := x[..|x| - 1];
    assert AllTx(a) && forall k :: 0 <= k < |a| ==> a[k] == x[k];
  }

  /**
    An acknowledgement stamped by a gateway, or sent by one, gets no further on RS-485 or LoRa along any
    route; by radio gateways and masters alone carry it on, and then unchanged.
   */
  lemma StampedEnds(f: Frame, hops: seq<Hop>)
    requires IsGateway(f[ROLE])
    ensures Travel(f, hops).Some? <==> AirByGateways(hops) && Stamping(hops) == []
    ensures Travel(f, hops).Some? ==> Travel(f, hops).value == f
  {
    AckRoute(f, hops);
    if Stamping(hops) == [] {
      UnstampedKept(f, hops);
    }
  }

  lemma {:induction false} UnstampedKept(f: Frame, hops: seq<Hop>)
    requires Stamping(hops) == []
    ensures Travel(f, hops).Some? ==> Travel(f, hops).value == f
    decreases |hops|
  {
    if hops != [] {
      UnstampedKept(f, hops[..|hops| - 1]);
    }
  }

  /** After a LoRa hop the frame passes the receiver's nested CRC check. */
  lemma LoRaHopSealed(f: Frame, hops: seq<Hop>)
    requires hops != [] && hops[|hops| - 1].via == LongRange && Travel(f, hops).Some?
    ensures SxOk(Travel(f, hops).value)
  {
    ForwardStamps(hops[|hops| - 1], Travel(f, hops[..|hops| - 1]).value);
  }

  // ---------------------------------------------------------------- requests at one node

  /** `rs485Task` on a server request; the acknowledgement is prepared but the code does not send it. */
  function Request485(node: Node, req: Frame, m: Readings): Handled {
    if IsMyAddr(req, node.frame) then
      var o := TaskServer(node, req, m);
      Handled(o.node, o.frame, [])
    else if IsMstOrGw(node.frame) then
      Handled(node, req, [Retune(U16(req, DST_GID)), Down485(req), Radio(SealRf(req))])
    else if IsTx(node.frame) then
      Handled(node, SealSx(req), [Down485(req), Radio(SealRf(req)), LoRa(SealSx(req))])
    else Handled(node, req, [])
  }

  /** `sx1276Task` on a server request. */
  function RequestSx(node: Node, req: Frame, m: Readings): Handled {
    if IsMyAddr(req, node.frame) then
      var o := TaskServer(node, req, m);
      Handled(o.node, o.frame, if o.answered then [Up485(o.frame)] else [])
    else if IsMstOrGw(node.frame) || IsTx(node.frame) then
      Handled(node, req, [Radio(SealRf(req)), Down485(req)])
    else Handled(node, req, [])
  }

  /** `resendByRfRepeater`: the repeater passes on what a transmitter, gateway or master sent, unchanged. */
  function Repeated(node: Node, req: Frame): seq<Output> {
    if node.frame[ROLE] == RPT && (IsTx(req) || IsMstOrGw(req)) then [Radio(SealRf(req))] else []
  }

  /** `returnToServer`. */
  function Returned(my: Frame, f: Frame): Output {
    if IsMstOrGw(my) then Up485(f) else Radio(SealRf(f))
  }

  /** `taskRf` on a server request. */
  function RequestRf(node: Node, req: Frame, m: Readings): Handled {
    var rep := Repeated(node, req);
    if IsMyAddr(req, node.frame) then
      var o := TaskServer(node, req, m);
      Handled(o.node, o.frame, rep + if o.answered then [Returned(o.node.frame, o.frame)] else [])
    else if IsMstOrGw(node.frame) then
      Handled(node, req, rep + [Retune(U16(req, GID)), Radio(SealRf(req)), Down485(req)])
    else if IsTx(node.frame) then Handled(node, req, rep + [Down485(req)])
    else Handled(node, req, rep)
  }

  function RequestOn(via: Medium, node: Node, req: Frame, m: Readings): Handled {
    match via
    case Line => Request485(node, req, m)
    case Air => RequestRf(node, req, m)
    case LongRange => RequestSx(node, req, m)
  }

  // ---------------------------------------------------------------- a request on its way

  /** How a request leaves a node on a medium, and what the next node gets. */
  function Sending(next: Medium, f: Frame): Output {
    match next
    case Line => Down485(f)
    case Air => Radio(SealRf(f))
    case LongRange => LoRa(SealSx(f))
  }

  function Arriving(next: Medium, f: Frame): Frame { if next == Line then f else Sending(next, f).f }

  /** A node on the way, and by which of its transmissions the request goes on. */
  datatype Stop = Stop(node: Node, next: Medium, readings: Readings)

  /** The medium the request is on behind the stops: every stop hears it on the one the stop before sends on. */
  function MediumBehind(from: Medium, stops: seq<Stop>): Medium {
    if stops == [] then from else stops[|stops| - 1].next
  }

  /** The request as it arrives behind all the stops, if every stop transmits it. */
  function Carried(from: Medium, f: Frame, stops: seq<Stop>): Option<Frame> {
    if stops == [] then Some(f)
    else
      var a, x := stops[..|stops| - 1], stops[|stops| - 1];
      match Carried(from, f, a)
      case None => None
      case Some(g) =>
        if Sending(x.next, g) in RequestOn(MediumBehind(from, a), x.node, g, x.readings).out then
          Some(Arriving(x.next, g))
        else None
  }

  /** The node passes a request on from one medium to another, judged by its role and address alone. */
  predicate Relays(my: Frame, via: Medium, next: Medium, f: Frame) {
    || (via == Air && next == Air && my[ROLE] == RPT && (IsTx(f) || IsMstOrGw(f)))
    || (!IsMyAddr(f, my)
        && match via
           case Line => IsTx(my) || (IsMstOrGw(my) && next != LongRange)
           case LongRange => (IsTx(my) || IsMstOrGw(my)) && next != LongRange
           case Air => (IsTx(my) && next == Line) || (IsMstOrGw(my) && next != LongRange))
  }

  /** Requests that differ in nothing but the seals put on them on the way. */
  ghost predicate SameRequest(f: Frame, g: Frame) {
    SameExcept(f, g, {16, 17, 24, 25, 26, 27, 28, 29, 30, 31})
  }

  lemma ArrivesSame(next: Medium, f: Frame)
    ensures SameRequest(f, Arriving(next, f))
  {
    match next
    case Line =>
    case Air => RfSealKeeps(f);
    case LongRange => SxSealPasses(f);
  }

  lemma SameRelays(my: Frame, via: Medium, next: Medium, f: Frame, g: Frame)
    requires SameRequest(f, g)
    ensures Relays(my, via, next, f) <==> Relays(my, via, next, g)
  {
  }

  /** An answer is never mistaken for a request passed on: it carries another command, and goes up or by radio. */
  lemma AnswerIsNoRequest(a: Frame, f: Frame, next: Medium)
    requires a[COMMAND] == CLIENT_ACK && f[COMMAND] == SERVER_REQ
    ensures Sending(next, f) != Radio(SealRf(a)) && Sending(next, f) != Up485(a)
  {
    RfSealKeeps(a);
    RfSealKeeps(f);
  }

  /** Exactly these nodes transmit the request. */
  lemma RelaysExactly(node: Node, via: Medium, next: Medium, f: Frame, m: Readings)
    requires f[COMMAND] == SERVER_REQ
    ensures Sending(next, f) in RequestOn(via, node, f, m).out <==> Relays(node.frame, via, next, f)
  {
    if IsMyAddr(f, node.frame) {
      AddressedRelays(node, via, next, f, m);
    } else {
      UnaddressedRelays(node, via, next, f, m);
    }
  }

  lemma AddressedRelays(node: Node, via: Medium, next: Medium, f: Frame, m: Readings)
    requires f[COMMAND] == SERVER_REQ && IsMyAddr(f, node.frame)
    ensures Sending(next, f) in RequestOn(via, node, f, m).out <==> Relays(node.frame, via, next, f)
  {
    AnswerIsSent(via, node, f, m);
    NotTheAnswer(via, node, next, f, m);
    InRepetition(node, next, f);
  }

  lemma NotTheAnswer(via: Medium, node: Node, next: Medium, f: Frame, m: Readings)
    requires f[COMMAND] == SERVER_REQ
    ensures Sending(next, f) !in AsOutput(AnswerSent(via, node, f, m))
  {
    var o := Request(node, f, m);
    if o.answered {
      AnswerIsAck(node, f, m);
      AnswerIsNoRequest(o.frame, f, next);
    }
  }

  lemma InRepetition(node: Node, next: Medium, f: Frame)
    ensures Sending(next, f) in Repeated(node, f) <==>
            next == Air && node.frame[ROLE] == RPT && (IsTx(f) || IsMstOrGw(f))
  {
  }

  lemma UnaddressedRelays(node: Node, via: Medium, next: Medium, f: Frame, m: Readings)
    requires !IsMyAddr(f, node.frame)
    ensures Sending(next, f) in RequestOn(via, node, f, m).out <==> Relays(node.frame, via, next, f)
  {
    match via
    case Line => UnaddressedOnLine(node, next, f, m);
    case Air => UnaddressedOnAir(node, next, f, m);
    case LongRange => UnaddressedOnLongRange(node, next, f, m);
  }

  lemma UnaddressedOnLine(node: Node, next: Medium, f: Frame, m: Readings)
    requires !IsMyAddr(f, node.frame)
    ensures Sending(next, f) in Request485(node, f, m).out <==> Relays(node.frame, Line, next, f)
  {
  }

  lemma UnaddressedOnAir(node: Node, next: Medium, f: Frame, m: Readings)
    requires !IsMyAddr(f, node.frame)
    ensures Sending(next, f) in RequestRf(node, f, m).out <==> Relays(node.frame, Air, next, f)
  {
  }

  lemma UnaddressedOnLongRange(node: Node, next: Medium, f: Frame, m: Readings)
    requires !IsMyAddr(f, node.frame)
    ensures Sending(next, f) in RequestSx(node, f, m).out <==> Relays(node.frame, LongRange, next, f)
  {
  }

  /** The media on which a node that is not addressed sends a request on, in order, by role and medium of arrival. */
  function RelayMedia(role: bv8, via: Medium): seq<Medium> {
    match via
    case Line => if IsGateway(role) then [Line, Air] else if role == TX then [Line, Air, LongRange] else []
    case Air => if IsGateway(role) then [Air, Line] else if role == TX then [Line] else []
    case LongRange => if IsGateway(role) || role == TX then [Air, Line] else []
  }

  function SendingAll(media: seq<Medium>, f: Frame): (r: seq<Output>)
    ensures |r| == |media|
  {
    seq(|media|, i requires 0 <= i < |media| => Sending(media[i], f))
  }

  /** A gateway tunes its radio first: to the group a request from the line is for, or a radio request is from. */
  function Tuning(role: bv8, via: Medium, f: Frame): seq<Output> {
    if !IsGateway(role) || via == LongRange then []
    else [Retune(if via == Line then U16(f, DST_GID) else U16(f, GID))]
  }

  /** Exactly what a node that is not addressed transmits, in order; it changes nothing of itself. */
  lemma UnaddressedSends(via: Medium, node: Node, f: Frame, m: Readings)
    requires !IsMyAddr(f, node.frame)
    ensures var h := RequestOn(via, node, f, m);
            var role := node.frame[ROLE];
            && h.node == node
            && h.out == (if via == Air then Repeated(node, f) else []) + Tuning(role, via, f)
                        + SendingAll(RelayMedia(role, via), f)
            && h.frame == if via == Line && role == TX then SealSx(f) else f
  {
    match via
    case Line => UnaddressedSendsLine(node, f, m);
    case Air => UnaddressedSendsAir(node, f, m);
    case LongRange => UnaddressedSendsLongRange(node, f, m);
  }

  lemma UnaddressedSendsLine(node: Node, f: Frame, m: Readings)
    requires !IsMyAddr(f, node.frame)
    ensures Request485(node, f, m).out ==
            [] + Tuning(node.frame[ROLE], Line, f) + SendingAll(RelayMedia(node.frame[ROLE], Line), f)
  {
  }

  lemma UnaddressedSendsAir(node: Node, f: Frame, m: Readings)
    requires !IsMyAddr(f, node.frame)
    ensures RequestRf(node, f, m).out ==
            Repeated(node, f) + Tuning(node.frame[ROLE], Air, f) + SendingAll(RelayMedia(node.frame[ROLE], Air), f)
  {
  }

  lemma UnaddressedSendsLongRange(node: Node, f: Frame, m: Readings)
    requires !IsMyAddr(f, node.frame)
    ensures RequestSx(node, f, m).out ==
            [] + Tuning(node.frame[ROLE], LongRange, f) + SendingAll(RelayMedia(node.frame[ROLE], LongRange), f)
  {
  }

  /** A repeater passes on, by radio, what a transmitter, gateway or master sent, and nothing else. */
  lemma RepeatsExactly(node: Node, f: Frame)
    ensures Repeated(node, f) ==
            if node.frame[1] == 16 && (f[1] == 2 || f[1] == 32 || f[1] == 64) then [Radio(SealRf(f))] else []
  {
  }

  /** One stop, judged on the request as it set out. */
  lemma StopRelays(via: Medium, f: Frame, g: Frame, x: Stop)
    requires f[COMMAND] == SERVER_REQ && SameRequest(f, g)
    ensures Sending(x.next, g) in RequestOn(via, x.node, g, x.readings).out <==> Relays(x.node.frame, via, x.next, f)
    ensures SameRequest(f, Arriving(x.next, g))
  {
    RelaysExactly(x.node, via, x.next, g, x.readings);
    SameRelays(x.node.frame, via, x.next, f, g);
    ArrivesSame(x.next, g);
    SameRequestJoins(f, g, Arriving(x.next, g));
  }

  lemma SameRequestJoins(f: Frame, g: Frame, h: Frame)
    requires SameRequest(f, g) && SameRequest(g, h)
    ensures SameRequest(f, h)
  {
  }

  /**
    A request set out on a medium arrives behind a list of stops, each hearing it on the medium the stop
    before sends on, exactly when each of them relays it, judged on the request as it set out; and it
    arrives unchanged up to seals.
   */
  lemma {:induction false} RequestRoute(from: Medium, f: Frame, stops: seq<Stop>)
    requires f[COMMAND] == SERVER_REQ
    ensures Carried(from, f, stops).Some? <==> AllRelay(from, f, stops)
    ensures Carried(from, f, stops).Some? ==> SameRequest(f, Carried(from, f, stops).value)
    decreases |stops|
  {
    if stops != [] {
      var a, x := stops[..|stops| - 1], stops[|stops| - 1];
      RequestRoute(from, f, a);
      if Carried(from, f, a).Some? {
        StopRelays(MediumBehind(from, a), f, Carried(from, f, a).value, x);
      }
    }
  }

  /** Every stop relays the request from the medium it hears it on. */
  predicate AllRelay(from: Medium, f: Frame, stops: seq<Stop>) {
    stops == [] ||
    var a, x := stops[..|stops| - 1], stops[|stops| - 1];
    AllRelay(from, f, a) && Relays(x.node.frame, MediumBehind(from, a), x.next, f)
  }

  /** At the node it is for, the request does what it would have done handed over as it set out. */
  lemma SameEffect(node: Node, f: Frame, g: Frame, m: Readings)
    requires SameRequest(f, g)
    ensures Request(node, g, m).node == Request(node, f, m).node
    ensures Answers(node, g) <==> Answers(node, f)
    ensures Request(node, f, m).answered ==> Request(node, g, m).frame == Request(node, f, m).frame
  {
    SealsUnread(f, g);
    SameNode(node, f, g, m);
    WhoAnswers(node, f, m);
    WhoAnswers(node, g, m);
  }

  /** The bytes the handlers read are none of those the seals change. */
  predicate ReadsSame(f: Frame, g: Frame) {
    && f[PID] == g[PID] && f[HIGH] == g[HIGH] && f[LOW] == g[LOW] && f[LEVEL] == g[LEVEL]
    && f[NEW_PID] == g[NEW_PID] && f[NEW_ROLE] == g[NEW_ROLE] && U16(f, NEW_GID) == U16(g, NEW_GID)
    && f[SUB_COMMAND] == g[SUB_COMMAND]
    && f[DST_PID] == g[DST_PID] && f[DST_ROLE] == g[DST_ROLE] && U16(f, DST_GID) == U16(g, DST_GID)
  }

  lemma SealsUnread(f: Frame, g: Frame)
    requires SameRequest(f, g)
    ensures ReadsSame(f, g)
  {
  }

  lemma SameNode(node: Node, f: Frame, g: Frame, m: Readings)
    requires ReadsSame(f, g)
    ensures Request(node, g, m).node == Request(node, f, m).node
    ensures Request(node, f, m).answered ==> Request(node, g, m).frame == Request(node, f, m).frame
  {
    assert Exact(f, node.frame) <==> Exact(g, node.frame);
    if f[SUB_COMMAND] == NEW_FACT_SET {
      assert Reassigned(node.frame, f) == Reassigned(node.frame, g);
    }
  }

  // ---------------------------------------------------------------- the answer on its way back

  datatype Sent = Sent(on: Medium, f: Frame)

  /** What the node sends in answer and on which medium; over RS-485 it sends none. */
  function AnswerSent(via: Medium, node: Node, req: Frame, m: Readings): Option<Sent> {
    var o := Request(node, req, m);
    if !o.answered || via == Line then None
    else if via == LongRange || IsMstOrGw(o.node.frame) then Some(Sent(Line, o.frame))
    else Some(Sent(Air, SealRf(o.frame)))
  }

  function AsOutput(a: Option<Sent>): seq<Output> {
    match a
    case None => []
    case Some(x) => [if x.on == Line then Up485(x.f) else Radio(x.f)]
  }

  /** That, and nothing else but the request itself from a repeater, is what an addressed node transmits. */
  lemma AnswerIsSent(via: Medium, node: Node, req: Frame, m: Readings)
    requires IsMyAddr(req, node.frame)
    ensures RequestOn(via, node, req, m).out ==
            (if via == Air then Repeated(node, req) else []) + AsOutput(AnswerSent(via, node, req, m))
    ensures RequestOn(via, node, req, m).node == Request(node, req, m).node
    ensures RequestOn(via, node, req, m).frame == Request(node, req, m).frame
  {
  }

  /** Each hop hears what the one before it sends: a LoRa node answers by LoRa, the others on the line. */
  predicate Linked(on: Medium, hops: seq<Hop>) {
    forall i :: 0 <= i < |hops| ==> hops[i].via == SentOn(on, hops, i)
  }

  function SentOn(on: Medium, hops: seq<Hop>, i: nat): Medium
    requires i < |hops|
  {
    if i == 0 then on else if hops[i - 1].via == LongRange then LongRange else Line
  }

  /** The medium the answer is on behind the hops. */
  function ArrivesOn(on: Medium, hops: seq<Hop>): Medium {
    if hops == [] then on else if hops[|hops| - 1].via == LongRange then LongRange else Line
  }

  /** The answer as it arrives behind the hops at a server that listens on one medium. */
  function Delivered(via: Medium, node: Node, req: Frame, m: Readings, hops: seq<Hop>, to: Medium): Option<Frame> {
    match AnswerSent(via, node, req, m)
    case None => None
    case Some(a) => if Linked(a.on, hops) && ArrivesOn(a.on, hops) == to then Travel(a.f, hops) else None
  }

  predicate AllOnLine(hops: seq<Hop>) { forall i :: 0 <= i < |hops| ==> hops[i].via == Line }

  /**
    The ways back for the answer of a node with this role to a server that listens on one medium. The
    answer of a gateway or master, and that of a node asked over LoRa, is sent on the line, that of
    another node asked by radio by radio. Nobody forwards that of a gateway or master; that of another
    node goes up the line through transmitters and at most one gateway, after one gateway has taken
    it off the radio if it was sent there.
   */
  predicate WayBack(role: bv8, via: Medium, hops: seq<Hop>, to: Medium) {
    var byAir := via == Air && !IsGateway(role);
    if hops == [] then to == if byAir then Air else Line
    else
      && to == Line && !IsGateway(role)
      && if byAir then
           hops[0].via == Air && IsGateway(hops[0].role) && AllOnLine(hops[1..]) && StampRoute(role, hops[1..])
         else
           AllOnLine(hops) && StampRoute(role, hops)
  }

  lemma {:induction false} StampingAll(hops: seq<Hop>)
    requires AllOnLine(hops)
    ensures Stamping(hops) == hops
    decreases |hops|
  {
    if hops != [] {
      StampingAll(hops[..|hops| - 1]);
    }
  }

  lemma {:induction false} StampingRest(hops: seq<Hop>)
    requires hops != [] && hops[0].via == Air && AllOnLine(hops[1..])
    ensures Stamping(hops) == hops[1..]
    decreases |hops|
  {
    var n := |hops| - 1;
    if n > 0 {
      assert hops[..n][1..] == hops[1..][..n - 1] && hops[1..][n - 1] == hops[n];
      assert AllOnLine(hops[..n][1..]);
      StampingRest(hops[..n]);
      assert hops[1..] == hops[1..][..n - 1] + [hops[n]];
    } else {
      assert hops[..0] == [];
    }
  }

  /** A linked list of hops heard first on the line stays there; heard first by radio, all but the first do. */
  lemma {:induction false} LinkedStays(on: Medium, hops: seq<Hop>, i: nat)
    requires on != LongRange && Linked(on, hops) && i < |hops|
    ensures i > 0 || on == Line ==> hops[i].via == Line
    decreases i
  {
    assert hops[i].via == SentOn(on, hops, i);
    if i > 0 {
      LinkedStays(on, hops, i - 1);
      assert hops[0].via == SentOn(on, hops, 0) == on;
    }
  }

  lemma LinkedShape(on: Medium, hops: seq<Hop>)
    requires on != LongRange && hops != []
    ensures Linked(on, hops) <==> hops[0].via == on && AllOnLine(hops[1..])
  {
    if Linked(on, hops) {
      assert hops[0].via == SentOn(on, hops, 0);
      forall i | 0 <= i < |hops[1..]| ensures hops[1..][i].via == Line {
        LinkedStays(on, hops, i + 1);
      }
    }
    if hops[0].via == on && AllOnLine(hops[1..]) {
      forall i | 0 <= i < |hops|
        ensures hops[i].via == SentOn(on, hops, i)
      {
        assert i > 0 ==> hops[1..][i - 1] == hops[i];
        assert i > 1 ==> hops[1..][i - 2] == hops[i - 1];
      }
    }
  }

  /** What the route of a sent answer comes to. */
  lemma SentRoute(a: Sent, hops: seq<Hop>, to: Medium)
    requires a.on == Line || (a.on == Air && !IsGateway(a.f[ROLE]))
    ensures Linked(a.on, hops) && ArrivesOn(a.on, hops) == to && Route(a.f[ROLE], hops) <==>
            WayBack(a.f[ROLE], if a.on == Air then Air else LongRange, hops, to)
  {
    if hops != [] {
      LinkedShape(a.on, hops);
      if hops[0].via == a.on && AllOnLine(hops[1..]) {
        LastOnLine(a.on, hops);
        if a.on == Line {
          WholeOnLine(hops);
          StampingAll(hops);
        } else {
          FirstOnAir(hops);
          StampingRest(hops);
        }
      }
    }
  }

  lemma LastOnLine(on: Medium, hops: seq<Hop>)
    requires hops != [] && on != LongRange && hops[0].via == on && AllOnLine(hops[1..])
    ensures ArrivesOn(on, hops) == Line
  {
    assert |hops| > 1 ==> hops[|hops| - 1] == hops[1..][|hops| - 2];
  }

  lemma WholeOnLine(hops: seq<Hop>)
    requires hops != [] && hops[0].via == Line && AllOnLine(hops[1..])
    ensures AllOnLine(hops)
  {
    assert hops == [hops[0]] + hops[1..];
  }

  /** Only the first of such hops hears the answer by radio. */
  lemma FirstOnAir(hops: seq<Hop>)
    requires hops != [] && AllOnLine(hops[1..])
    ensures AirByGateways(hops) <==> hops[0].via != Air || IsGateway(hops[0].role)
  {
    assert hops == [hops[0]] + hops[1..];
  }

  /** What arrives is the node's acknowledgement of the request, apart from the stamp and the seals. */
  ghost predicate IsAckOf(h: Frame, answer: Frame, sub: bv8) {
    && h[COMMAND] == CLIENT_ACK && h[SUB_COMMAND] == sub
    && h[DST_ROLE] == MST && h[DST_PID] == 0 && U16(h, DST_GID) == 0
    && SameExcept(answer, h, {ROLE, 24, 25, 26, 27, 28, 29, 31})
  }

  /** Exactly when an answer is given, over which medium, and along which hops it comes back. */
  lemma AnswerReturns(via: Medium, node: Node, req: Frame, m: Readings, hops: seq<Hop>, to: Medium)
    ensures var h := Delivered(via, node, req, m, hops, to);
            && (h.Some? <==> Answers(node, req) && via != Line && WayBack(RoleAfter(node, req), via, hops, to))
            && (h.Some? ==> IsAckOf(h.value, Request(node, req, m).frame, req[SUB_COMMAND]))
  {
    WhoAnswers(node, req, m);
    if Answers(node, req) && via != Line {
      AnswerRole(via, node, req, m);
      SentTravels(AnswerSent(via, node, req, m).value, hops, to, Request(node, req, m).frame, req[SUB_COMMAND]);
    }
  }

  lemma SentTravels(a: Sent, hops: seq<Hop>, to: Medium, answer: Frame, sub: bv8)
    requires a.on == Line || (a.on == Air && !IsGateway(a.f[ROLE]))
    requires IsAckOf(a.f, answer, sub)
    ensures Linked(a.on, hops) && ArrivesOn(a.on, hops) == to && Travel(a.f, hops).Some? <==>
            WayBack(a.f[ROLE], if a.on == Air then Air else LongRange, hops, to)
    ensures Linked(a.on, hops) && Travel(a.f, hops).Some? ==> IsAckOf(Travel(a.f, hops).value, answer, sub)
  {
    AckRoute(a.f, hops);
    SentRoute(a, hops, to);
    if Linked(a.on, hops) && hops != [] {
      LinkedShape(a.on, hops);
    }
  }

  lemma AnswerRole(via: Medium, node: Node, req: Frame, m: Readings)
    requires Request(node, req, m).answered && via != Line
    ensures var a := AnswerSent(via, node, req, m).value;
            && a.f[ROLE] == RoleAfter(node, req)
            && (a.on == Air <==> via == Air && !IsGateway(RoleAfter(node, req)))
            && IsAckOf(a.f, Request(node, req, m).frame, req[SUB_COMMAND])
  {
    var o := Request(node, req, m);
    AnswerIsAck(node, req, m);
    RfSealKeeps(o.frame);
    RoleKept(node, req, m);
  }

  lemma RoleKept(node: Node, req: Frame, m: Readings)
    requires Request(node, req, m).answered
    ensures Request(node, req, m).node.frame[ROLE] == RoleAfter(node, req)
  {
    if req[SUB_COMMAND] == NEW_FACT_SET {
      ReassignedAddress(node.frame, req);
    }
  }

  /**
    A request and its answer: out on one medium, through the stops to a node, and back through the hops
    to a server that listens on one medium.
   */
  datatype Journey = Journey(
    from: Medium, stops: seq<Stop>, node: Node, readings: Readings, hops: seq<Hop>, to: Medium)
  {
    /** The medium the node is asked on. */
    function Via(): Medium { MediumBehind(from, stops) }
  }

  function RoundTrip(f: Frame, j: Journey): Option<Frame> {
    match Carried(j.from, f, j.stops)
    case None => None
    case Some(g) => Delivered(j.Via(), j.node, g, j.readings, j.hops, j.to)
  }

  /** What the server needs to hear back, judged on the request as it set out. */
  predicate HearsBack(f: Frame, j: Journey) {
    && AllRelay(j.from, f, j.stops)
    && Answers(j.node, f) && j.Via() != Line
    && WayBack(RoleAfter(j.node, f), j.Via(), j.hops, j.to)
  }

  /**
    The server hears back exactly when every stop relays the request, the node is one that answers it and
    was not asked over RS-485, and the hops are a way back for the node's role to where the server listens.
    What it hears is the acknowledgement the node would have given to the request as it set out.
   */
  lemma ServerHearsBack(f: Frame, j: Journey)
    requires f[COMMAND] == SERVER_REQ
    ensures RoundTrip(f, j).Some? <==> HearsBack(f, j)
    ensures RoundTrip(f, j).Some? ==>
            IsAckOf(RoundTrip(f, j).value, Request(j.node, f, j.readings).frame, f[SUB_COMMAND])
  {
    RequestRoute(j.from, f, j.stops);
    if Carried(j.from, f, j.stops).Some? {
      SameAnswerReturns(f, Carried(j.from, f, j.stops).value, j);
    }
  }

  /**
    One journey that succeeds: a status request on the line, relayed by a gateway to a lamp by radio; the
    lamp answers by radio, and the gateway takes the answer back to the line.
   */
  lemma StatusByRadio(f: Frame, gateway: Node, lamp: Node, m: Readings)
    requires f[COMMAND] == SERVER_REQ && f[SUB_COMMAND] == STATUS && f[DST_PID] != 0
    requires IsGw(gateway.frame) && !IsMyAddr(f, gateway.frame)
    requires Exact(f, lamp.frame) && lamp.frame[ROLE] == RX
    ensures RoundTrip(f, Journey(Line, [Stop(gateway, Air, m)], lamp, m, [Hop(GW, Air)], Line)).Some?
  {
    var stops, hops := [Stop(gateway, Air, m)], [Hop(GW, Air)];
    assert stops[..0] == [] && hops[1..] == [];
    assert AllRelay(Line, f, stops[..0]);
    ServerHearsBack(f, Journey(Line, stops, lamp, m, hops, Line));
  }

  /** The answer to the request as it arrives, in terms of the request as it set out. */
  lemma SameAnswerReturns(f: Frame, g: Frame, j: Journey)
    requires SameRequest(f, g)
    ensures var h := Delivered(j.Via(), j.node, g, j.readings, j.hops, j.to);
            && (h.Some? <==>
                Answers(j.node, f) && j.Via() != Line && WayBack(RoleAfter(j.node, f), j.Via(), j.hops, j.to))
            && (h.Some? ==> IsAckOf(h.value, Request(j.node, f, j.readings).frame, f[SUB_COMMAND]))
  {
    SealsUnread(f, g);
    SameEffect(j.node, f, g, j.readings);
    AnswerReturns(j.Via(), j.node, g, j.readings, j.hops, j.to);
    WhoAnswers(j.node, f, j.readings);
  }

  // ---------------------------------------------------------------- the node as a program

  /** A node with its transports; `sent` is everything it has put out. */
  class Relay {
    const server: ServerNode
    var sent: seq<Output>

    constructor (s: ServerNode)
      ensures server == s && sent == []
    {
      server, sent := s, [];
    }

    /** The `edServerReq` case of `rs485Task`. */
    method On485Request(req: FrameBox, m: Readings)
      modifies this, server, req
      ensures var h := Request485(old(server.State()), old(req.f), m);
              server.State() == h.node && req.f == h.frame && sent == old(sent) + h.out
    {
      if IsMyAddr(req.f, server.frame) {
        var _ := server.Task(req, m);
        return;
      }
      if IsMstOrGw(server.frame) {
        sent := sent + [Retune(U16(req.f, DST_GID)), Down485(req.f), Radio(SealRf(req.f))];
        return;
      } else if IsTx(server.frame) {
        sent := sent + [Down485(req.f), Radio(SealRf(req.f))];
        var f := req.SendSxFrame();
        sent := sent + [LoRa(f)];
      }
    }

    /** The `edServerReq` case of `sx1276Task`. */
    method OnSxRequest(req: FrameBox, m: Readings)
      modifies this, server, req
      ensures var h := RequestSx(old(server.State()), old(req.f), m);
              server.State() == h.node && req.f == h.frame && sent == old(sent) + h.out
    {
      if IsMyAddr(req.f, server.frame) {
        var answered := server.Task(req, m);
        if answered {
          sent := sent + [Up485(req.f)];
        }
        return;
      }
      if IsMstOrGw(server.frame) {
        sent := sent + [Radio(SealRf(req.f)), Down485(req.f)];
        return;
      } else if IsTx(server.frame) {
        sent := sent + [Radio(SealRf(req.f)), Down485(req.f)];
      }
    }

    /** `resendByRfRepeater`. */
    method ResendByRfRepeater(req: Frame)
      modifies this`sent
      ensures sent == old(sent) + Repeated(server.State(), req)
    {
      if server.frame[ROLE] == RPT {
        if IsTx(req) || IsMstOrGw(req) {
          sent := sent + [Radio(SealRf(req))];
        }
      }
    }

    /** `returnToServer`. */
    method ReturnToServer(f: Frame)
      modifies this`sent
      ensures sent == old(sent) + [Returned(server.frame, f)]
    {
      if IsMstOrGw(server.frame) {
        sent := sent + [Up485(f)];
      } else {
        sent := sent + [Radio(SealRf(f))];
      }
    }

    /** A node addressed by radio. */
    method AnswerByRf(req: FrameBox, m: Readings)
      modifies this`sent, server, req
      ensures var o := TaskServer(old(server.State()), old(req.f), m);
              && server.State() == o.node && req.f == o.frame
              && sent == old(sent) + if o.answered then [Returned(o.node.frame, o.frame)] else []
    {
      var answered := server.Task(req, m);
      if answered {
        ReturnToServer(req.f);
      }
    }

    /** The `edServerReq` case of `taskRf`. */
    method OnRfRequest(req: FrameBox, m: Readings)
      modifies this, server, req
      ensures var h := RequestRf(old(server.State()), old(req.f), m);
              server.State() == h.node && req.f == h.frame && sent == old(sent) + h.out
    {
      ResendByRfRepeater(req.f);
      if IsMyAddr(req.f, server.frame) {
        AnswerByRf(req, m);
        return;
      }
      if IsMstOrGw(server.frame) {
        sent := sent + [Retune(U16(req.f, GID)), Radio(SealRf(req.f)), Down485(req.f)];
        return;
      } else if IsTx(server.frame) {
        sent := sent + [Down485(req.f)];
      }
    }

    /** The `edClientAck` case of `taskRf`: a gateway or master passes the acknowledgement up, unstamped. */
    method OnRfAck(ack: Frame)
      modifies this`sent
      ensures match Forward(Hop(server.frame[ROLE], Air), ack)
              case Some(g) => sent == old(sent) + [Up485(g)]
              case None => sent == old(sent)
    {
      if IsMstOrGw(server.frame) {
        ReturnToServer(ack);
      }
    }

    /** The `edClientAck` case of `rs485Task`. */
    method On485Ack(ack: FrameBox)
      modifies this, ack
      ensures match Forward(Hop(server.frame[ROLE], Line), old(ack.f))
              case Some(g) => ack.f == g && sent == old(sent) + [Up485(g)]
              case None => ack.f == old(ack.f) && sent == old(sent)
    {
      if IsMstOrGw(server.frame) {
        if IsTx(ack.f) {
          ack.f := ack.f[ROLE := GW];
          sent := sent + [Up485(ack.f)];
        }
        return;
      } else if IsTx(server.frame) {
        if !IsMstOrGw(ack.f) {
          ack.f := ack.f[ROLE := TX];
          sent := sent + [Up485(ack.f)];
        }
      }
    }

    /** The `edClientAck` case of `sx1276Task`. */
    method OnSxAck(ack: FrameBox)
      modifies this, ack
      ensures match Forward(Hop(server.frame[ROLE], LongRange), old(ack.f))
              case Some(g) => ack.f == g && sent == old(sent) + [LoRa(g)]
              case None => ack.f == old(ack.f) && sent == old(sent)
    {
      if IsMstOrGw(server.frame) {
        if IsTx(ack.f) {
          ack.f := ack.f[ROLE := GW];
          var g := ack.SendSxFrame();
          sent := sent + [LoRa(g)];
        }
        return;
      } else if IsTx(server.frame) {
        if !IsMstOrGw(ack.f) {
          ack.f := ack.f[ROLE := TX];
          var g := ack.SendSxFrame();
          sent := sent + [LoRa(g)];
        }
      }
    }
  }
}
