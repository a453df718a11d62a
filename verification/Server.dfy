/** Server requests at one node, and in a network of nodes (procServer.cpp, UttecUtil.cpp). */
module Server {
  import opened Frames
  import opened Bytes
  import opened Sealing

  // eCmd_t and eSubCmd_t
  const SERVER_REQ: bv8 := 100
  const CLIENT_ACK: bv8 := 101
  const POWER_READ: bv8 := 101
  const MONITORING: bv8 := 102
  const CONTROL: bv8 := 103
  const NEW_SET: bv8 := 104
  const NEW_FACT_SET: bv8 := 108
  const ALTERNATIVE: bv8 := 109
  const STATUS: bv8 := 110

  /** What the monitor reports at the time of the request. */
  datatype Readings = Readings(traffic: bv16, monitor: bv8, photo: bv16, power: bv32)

  /** The dimmer as the handlers see it, levels in percent; `direct` is the last level written out at once. */
  datatype Dimmer = Dimmer(forced: bool, target: nat, direct: nat)

  datatype Node = Node(frame: Frame, dim: Dimmer)

  datatype Outcome = Outcome(node: Node, frame: Frame, answered: bool)

  // ---------------------------------------------------------------- addressing

  /** The destination in the request is this node's address. */
  predicate Exact(req: Frame, my: Frame) {
    U16(my, GID) == U16(req, DST_GID) && my[PID] == req[DST_PID] && my[ROLE] == req[DST_ROLE]
  }

  /** The request goes to the whole group, and this node is one of its lamps. */
  predicate GroupWide(req: Frame, my: Frame) {
    U16(my, GID) == U16(req, DST_GID) && req[DST_PID] == 0 && !IsMstOrGw(my)
  }

  /** `isMyAddr`. */
  predicate IsMyAddr(req: Frame, my: Frame) { Exact(req, my) || GroupWide(req, my) }

  predicate SameAddress(a: Frame, b: Frame) {
    U16(a, GID) == U16(b, GID) && a[PID] == b[PID] && a[ROLE] == b[ROLE]
  }

  // ---------------------------------------------------------------- the handlers

  /** `setAckFrame`: the node's own frame, addressed to the master. */
  function AckFrame(my: Frame): (r: Frame)
    ensures SameExcept(my, r, {COMMAND, DST_PID, DST_ROLE, DST_GID, DST_GID + 1})
    ensures r[COMMAND] == CLIENT_ACK && r[DST_ROLE] == MST && r[DST_PID] == 0 && U16(r, DST_GID) == 0
  {
    var g: Frame := my[DST_ROLE := MST][DST_PID := 0];
    SetU16(g, DST_GID, 0)[COMMAND := CLIENT_ACK]
  }

  function Ack(my: Frame, sub: bv8): Frame { AckFrame(my)[SUB_COMMAND := sub] }

  /** Only a master or gateway answers these. */
  function AnswerAsGateway(node: Node, req: Frame, sub: bv8): Outcome {
    if IsMstOrGw(node.frame) then Outcome(node, Ack(node.frame, sub), true) else Outcome(node, req, false)
  }

  function ProcControlSub(node: Node, req: Frame): Outcome {
    var level := req[LEVEL] as nat;
    var node' :=
      if !IsMyAddr(req, node.frame) then node
      else if IsGw(node.frame) then node.(dim := node.dim.(direct := level))
      else node.(dim := node.dim.(forced := true, target := level));
    AnswerAsGateway(node', req, CONTROL)
  }

  function ProcNewSetSub(node: Node, req: Frame): Outcome {
    var node' := if IsMyAddr(req, node.frame) then node.(dim := node.dim.(forced := false)) else node;
    AnswerAsGateway(node', req, NEW_SET)
  }

  predicate Assignable(role: bv8) { role == RX || role == TX || role == SRX || role == GW }

  /** The node's frame with the address and limits the request carries in its control fields. */
  function Reassigned(my: Frame, req: Frame): Frame {
    var g: Frame := my[PID := req[NEW_PID]];
    var h: Frame := if Assignable(req[NEW_ROLE]) then g[ROLE := req[NEW_ROLE]] else g;
    SetU16(h, GID, U16(req, NEW_GID))[HIGH := req[HIGH]][LOW := req[LOW]]
  }

  function ProcNewFactSetSub(node: Node, req: Frame): Outcome {
    var node' := if IsMyAddr(req, node.frame) then node.(frame := Reassigned(node.frame, req)) else node;
    AnswerAsGateway(node', req, NEW_FACT_SET)
  }

  function ProcAltSub(node: Node, req: Frame): Outcome {
    var node' :=
      if IsMyAddr(req, node.frame) && node.frame[PID] % 2 == req[PID] % 2 then
        node.(dim := node.dim.(forced := true, target := req[LEVEL] as nat))
      else node;
    AnswerAsGateway(node', req, ALTERNATIVE)
  }

  function ProcStatus(node: Node, req: Frame, m: Readings): Outcome {
    if IsMyAddr(req, node.frame) then
      var g: Frame := SetU16(Ack(node.frame, STATUS), TRAFFIC, m.traffic)[MONITOR := m.monitor];
      Outcome(node, SetU16(g, PHOTO, m.photo), true)
    else Outcome(node, req, false)
  }

  function LowByte(w: bv32): bv8 { (w & 0xFF) as bv8 }

  function PowerByte(w: bv32, k: nat): bv8
    requires k < 4
  {
    LowByte(if k == 0 then w else if k == 1 then w >> 8 else if k == 2 then w >> 16 else w >> 24)
  }

  function WithPower(f: Frame, w: bv32): (r: Frame)
    ensures forall k :: 0 <= k < 4 ==> r[POWER + k] == PowerByte(w, k)
    ensures SameExcept(f, r, {10, 11, 12, 13})
  {
    f[POWER := PowerByte(w, 0)][POWER + 1 := PowerByte(w, 1)]
     [POWER + 2 := PowerByte(w, 2)][POWER + 3 := PowerByte(w, 3)]
  }

  function ProcPowerRead(node: Node, req: Frame, m: Readings): Outcome {
    if IsMyAddr(req, node.frame) then
      Outcome(node, WithPower(Ack(node.frame, POWER_READ), m.power), true)
    else Outcome(node, req, false)
  }

  /** `checkErrorPid`. */
  predicate ErrorPid(req: Frame) { req[DST_PID] == 0 }

  /** `isLampOk`, seen from outside: the lamp is switched off and on again. */
  function Monitored(node: Node): Node { node.(dim := node.dim.(direct := 100)) }

  /** `taskServer`. */
  function TaskServer(node: Node, req: Frame, m: Readings): Outcome {
    var sub := req[SUB_COMMAND];
    if sub == POWER_READ then
      if ErrorPid(req) then Outcome(node, req, false) else ProcPowerRead(node, req, m)
    else if sub == CONTROL then ProcControlSub(node, req)
    else if sub == NEW_SET then ProcNewSetSub(node, req)
    else if sub == NEW_FACT_SET then
      if ErrorPid(req) then Outcome(node, req, false) else ProcNewFactSetSub(node, req)
    else if sub == ALTERNATIVE then ProcAltSub(node, req)
    else if sub == MONITORING then Outcome(if ErrorPid(req) then node else Monitored(node), req, false)
    else if sub == STATUS then
      if ErrorPid(req) then Outcome(node, req, false) else ProcStatus(node, req, m)
    else Outcome(node, req, false)
  }

  /** A server request as every transport handles it: `taskServer` only behind the address test. */
  function Request(node: Node, req: Frame, m: Readings): Outcome {
    if IsMyAddr(req, node.frame) then TaskServer(node, req, m) else Outcome(node, req, false)
  }

  // ---------------------------------------------------------------- who answers

  /** The role a node has after the request has been carried out. */
  function RoleAfter(node: Node, req: Frame): bv8 {
    if req[SUB_COMMAND] == NEW_FACT_SET && Assignable(req[NEW_ROLE]) then req[NEW_ROLE] else node.frame[ROLE]
  }

  /** The requests a node answers, read off the request and the address alone. */
  predicate Answers(node: Node, req: Frame) {
    var sub := req[SUB_COMMAND];
    && Exact(req, node.frame)
    && (|| ((sub == POWER_READ || sub == STATUS) && req[DST_PID] != 0)
        || ((sub == CONTROL || sub == NEW_SET || sub == ALTERNATIVE) && IsMstOrGw(node.frame))
        || (sub == NEW_FACT_SET && req[DST_PID] != 0
            && IsGateway(RoleAfter(node, req))))
  }

  lemma WhoAnswers(node: Node, req: Frame, m: Readings)
    ensures Request(node, req, m).answered <==> Answers(node, req)
  {
    if req[SUB_COMMAND] == NEW_FACT_SET {
      ReassignedAddress(node.frame, req);
    }
  }

  lemma ReassignedAddress(my: Frame, req: Frame)
    ensures var g := Reassigned(my, req);
            && g[PID] == req[NEW_PID] && U16(g, GID) == U16(req, NEW_GID)
            && g[ROLE] == if Assignable(req[NEW_ROLE]) then req[NEW_ROLE] else my[ROLE]
  {
  }

  /** An acknowledgement of the request to the master, otherwise the node's own frame with its readings. */
  ghost predicate IsAnswer(r: Frame, my: Frame, sub: bv8) {
    && r[COMMAND] == CLIENT_ACK && r[SUB_COMMAND] == sub
    && r[DST_ROLE] == MST && r[DST_PID] == 0 && U16(r, DST_GID) == 0
    && SameAddress(r, my)
    && SameExcept(my, r, {6, 7, 10, 11, 12, 13, 14, 15, 18, 19, 20, 21})
  }

  lemma AckIsAnswer(my: Frame, sub: bv8)
    ensures IsAnswer(Ack(my, sub), my, sub) && SameExcept(my, Ack(my, sub), {14, 15, 18, 19, 20, 21})
  {
  }

  /** The status answer reports traffic, monitor and photo, low bytes first, and nothing else. */
  lemma StatusIsAnswer(node: Node, req: Frame, m: Readings)
    requires IsMyAddr(req, node.frame)
    ensures var r := ProcStatus(node, req, m).frame;
            && IsAnswer(r, node.frame, STATUS)
            && Word(r[6], r[7]) == m.traffic && r[10] == m.monitor && Word(r[12], r[13]) == m.photo
            && SameExcept(node.frame, r, {6, 7, 10, 12, 13, 14, 15, 18, 19, 20, 21})
  {
    AckIsAnswer(node.frame, STATUS);
  }

  /** Four bytes, the lowest first, as one word. */
  function Word32(a: bv8, b: bv8, c: bv8, d: bv8): bv32 {
    (a as bv32) | ((b as bv32) << 8) | ((c as bv32) << 16) | ((d as bv32) << 24)
  }

  lemma PowerBytes(w: bv32)
    ensures Word32(PowerByte(w, 0), PowerByte(w, 1), PowerByte(w, 2), PowerByte(w, 3)) == w
  {
  }

  /** The power answer reports the reading, lowest byte first, and nothing else. */
  lemma PowerIsAnswer(node: Node, req: Frame, m: Readings)
    requires IsMyAddr(req, node.frame)
    ensures var r := ProcPowerRead(node, req, m).frame;
            && IsAnswer(r, node.frame, POWER_READ)
            && Word32(r[10], r[11], r[12], r[13]) == m.power
            && SameExcept(node.frame, r, {10, 11, 12, 13, 14, 15, 18, 19, 20, 21})
  {
    AckIsAnswer(node.frame, POWER_READ);
    var r := WithPower(Ack(node.frame, POWER_READ), m.power);
    assert r[10 + 0] == PowerByte(m.power, 0) && r[10 + 1] == PowerByte(m.power, 1);
    assert r[10 + 2] == PowerByte(m.power, 2) && r[10 + 3] == PowerByte(m.power, 3);
    PowerBytes(m.power);
  }

  /** Whatever is answered is such an answer; a request not answered is left as it came. */
  lemma AnswerIsAck(node: Node, req: Frame, m: Readings)
    ensures var r := Request(node, req, m);
            if r.answered then IsAnswer(r.frame, r.node.frame, req[SUB_COMMAND]) else r.frame == req
    ensures var r := Request(node, req, m);
            r.answered && req[15] != STATUS && req[15] != POWER_READ ==>
              SameExcept(r.node.frame, r.frame, {14, 15, 18, 19, 20, 21})
  {
    var r := Request(node, req, m);
    if r.answered {
      AckIsAnswer(r.node.frame, req[SUB_COMMAND]);
      if req[SUB_COMMAND] == STATUS {
        StatusIsAnswer(node, req, m);
      } else if req[SUB_COMMAND] == POWER_READ {
        PowerIsAnswer(node, req, m);
      }
    }
  }

  /** What a node becomes does not depend on its readings. */
  lemma ReadingsOnlyReported(node: Node, req: Frame, m: Readings, m': Readings)
    ensures Request(node, req, m).node == Request(node, req, m').node
  {
  }

  // ---------------------------------------------------------------- a network

  predicate Unique(nodes: seq<Node>) {
    forall i, j :: 0 <= i < j < |nodes| ==> !SameAddress(nodes[i].frame, nodes[j].frame)
  }

  /** Every node of a network with unique addresses sees the request: at most one answers. */
  lemma AtMostOneAnswer(nodes: seq<Node>, req: Frame, i: nat, j: nat, mi: Readings, mj: Readings)
    requires Unique(nodes) && i < |nodes| && j < |nodes|
    requires Request(nodes[i], req, mi).answered && Request(nodes[j], req, mj).answered
    ensures i == j && Exact(req, nodes[i].frame)
  {
    WhoAnswers(nodes[i], req, mi);
    WhoAnswers(nodes[j], req, mj);
    assert SameAddress(nodes[i].frame, nodes[j].frame);
  }

  const NO_READINGS := Readings(0, 0, 0, 0)

  function NodeAfter(node: Node, req: Frame): Node { Request(node, req, NO_READINGS).node }

  function Broadcast(nodes: seq<Node>, req: Frame): (r: seq<Node>)
    ensures |r| == |nodes|
  {
    seq(|nodes|, i requires 0 <= i < |nodes| => NodeAfter(nodes[i], req))
  }

  /** The request is a new factory setting for exactly this node. */
  predicate Reassigns(node: Node, req: Frame) {
    req[SUB_COMMAND] == NEW_FACT_SET && req[DST_PID] != 0 && Exact(req, node.frame)
  }

  /** The stored frame after a request, through the handler's own function. */
  lemma StoredAfter(node: Node, req: Frame)
    ensures NodeAfter(node, req).frame == if Reassigns(node, req) then Reassigned(node.frame, req) else node.frame
  {
  }

  /**
    Only a new factory setting for exactly this node changes its stored frame: it takes the pid, group,
    high and low limit the request gives, the role if that is one to hand out, and keeps every other byte.
   */
  lemma AddressAfter(node: Node, req: Frame)
    ensures !Reassigns(node, req) ==> NodeAfter(node, req).frame == node.frame
    ensures Reassigns(node, req) ==>
              var my := NodeAfter(node, req).frame;
              && my[0] == req[10]
              && my[1] == (if req[11] in {1, 2, 4, 32} then req[11] else node.frame[1])
              && my[4] == req[12] && my[5] == req[13]
              && my[6] == req[6] && my[7] == req[7]
              && SameExcept(node.frame, my, {0, 1, 4, 5, 6, 7})
  {
    StoredAfter(node, req);
    if Reassigns(node, req) {
      ReassignedBytes(node.frame, req);
    }
  }

  lemma ReassignedBytes(my: Frame, req: Frame)
    ensures var g := Reassigned(my, req);
            && g[PID] == req[NEW_PID] && g[GID] == req[NEW_GID] && g[GID + 1] == req[NEW_GID + 1]
            && g[ROLE] == (if Assignable(req[NEW_ROLE]) then req[NEW_ROLE] else my[ROLE])
            && g[HIGH] == req[HIGH] && g[LOW] == req[LOW]
            && SameExcept(my, g, {PID, ROLE, GID, GID + 1, HIGH, LOW})
  {
    PartsOfWord(req[NEW_GID], req[NEW_GID + 1]);
  }

  /** The address a new factory setting hands out is held by no node but the one it is for. */
  predicate Grants(nodes: seq<Node>, req: Frame) {
    forall i, j :: 0 <= i < |nodes| && 0 <= j < |nodes| && i != j && Reassigns(nodes[i], req) ==>
      !SameAddress(Reassigned(nodes[i].frame, req), nodes[j].frame)
  }

  lemma NotBothReassigned(nodes: seq<Node>, req: Frame, i: nat, j: nat)
    requires Unique(nodes) && i < |nodes| && j < |nodes| && i != j && Reassigns(nodes[i], req)
    ensures !Reassigns(nodes[j], req)
  {
    if i < j {
      assert !SameAddress(nodes[i].frame, nodes[j].frame);
    } else {
      assert !SameAddress(nodes[j].frame, nodes[i].frame);
    }
  }

  /** The addresses of two nodes after the request. */
  lemma PairAfter(nodes: seq<Node>, req: Frame, i: nat, j: nat)
    requires Unique(nodes) && i < |nodes| && j < |nodes| && i != j && Reassigns(nodes[i], req)
    ensures SameAddress(NodeAfter(nodes[i], req).frame, NodeAfter(nodes[j], req).frame) <==>
            SameAddress(Reassigned(nodes[i].frame, req), nodes[j].frame)
  {
    NotBothReassigned(nodes, req, i, j);
    StoredAfter(nodes[i], req);
    StoredAfter(nodes[j], req);
  }

  /** Addresses stay unique after a request exactly when it hands out no address already in use. */
  lemma UniqueAfter(nodes: seq<Node>, req: Frame)
    requires Unique(nodes)
    ensures Unique(Broadcast(nodes, req)) <==> Grants(nodes, req)
  {
    var after := Broadcast(nodes, req);
    if Grants(nodes, req) {
      forall i, j | 0 <= i < j < |nodes| ensures !SameAddress(after[i].frame, after[j].frame) {
        if Reassigns(nodes[i], req) {
          PairAfter(nodes, req, i, j);
        } else if Reassigns(nodes[j], req) {
          PairAfter(nodes, req, j, i);
        } else {
          StoredAfter(nodes[i], req);
          StoredAfter(nodes[j], req);
        }
      }
    }
    if Unique(after) {
      forall i, j | 0 <= i < |nodes| && 0 <= j < |nodes| && i != j && Reassigns(nodes[i], req)
        ensures !SameAddress(Reassigned(nodes[i].frame, req), nodes[j].frame)
      {
        PairAfter(nodes, req, i, j);
        assert !SameAddress(after[if i < j then i else j].frame, after[if i < j then j else i].frame);
      }
    }
  }

  /** Two lamps of one group, and a request that gives the first the address of the second. */
  lemma AddressHandedOutTwice() returns (nodes: seq<Node>, req: Frame)
    ensures |nodes| == 2 && Unique(nodes) && !Unique(Broadcast(nodes, req))
    ensures req[COMMAND] == SERVER_REQ && req[SUB_COMMAND] == NEW_FACT_SET
  {
    var blank: Frame := seq(FRAME_SIZE, _ => 0);
    var lamp: Frame := SetU16(blank[ROLE := RX], GID, 1);
    var off := Dimmer(false, 0, 0);
    nodes := [Node(lamp[PID := 1], off), Node(lamp[PID := 2], off)];
    var to: Frame := SetU16(blank[DST_PID := 1][DST_ROLE := RX], DST_GID, 1);
    var gives: Frame := SetU16(to[NEW_PID := 2][NEW_ROLE := RX], NEW_GID, 1);
    req := gives[COMMAND := SERVER_REQ][SUB_COMMAND := NEW_FACT_SET];
    assert Exact(req, nodes[0].frame);
    assert Reassigns(nodes[0], req);
    ReassignedAddress(nodes[0].frame, req);
    assert SameAddress(Reassigned(nodes[0].frame, req), nodes[1].frame);
    UniqueAfter(nodes, req);
  }

  /** The network after a list of requests. */
  function Serve(nodes: seq<Node>, reqs: seq<Frame>): (r: seq<Node>)
    ensures |r| == |nodes|
  {
    if reqs == [] then nodes else Broadcast(Serve(nodes, reqs[..|reqs| - 1]), reqs[|reqs| - 1])
  }

  /** No request of the run hands out an address in use at that time. */
  ghost predicate GrantsAll(nodes: seq<Node>, reqs: seq<Frame>) {
    forall k :: 0 <= k < |reqs| ==> Grants(Serve(nodes, reqs[..k]), reqs[k])
  }

  /** So over any such run at most one node answers each request. */
  lemma AtMostOneEver(
    nodes: seq<Node>, reqs: seq<Frame>, next: Frame, i: nat, j: nat, mi: Readings, mj: Readings)
    requires Unique(nodes) && GrantsAll(nodes, reqs) && i < |nodes| && j < |nodes|
    requires Request(Serve(nodes, reqs)[i], next, mi).answered
    requires Request(Serve(nodes, reqs)[j], next, mj).answered
    ensures i == j
  {
    StaysUnique(nodes, reqs);
    AtMostOneAnswer(Serve(nodes, reqs), next, i, j, mi, mj);
  }

  lemma {:induction false} StaysUnique(nodes: seq<Node>, reqs: seq<Frame>)
    requires Unique(nodes) && GrantsAll(nodes, reqs)
    ensures Unique(Serve(nodes, reqs))
    decreases |reqs|
  {
    if reqs != [] {
      var n := |reqs| - 1;
      var a := reqs[..n];
      assert forall k :: 0 <= k < n ==> a[..k] == reqs[..k];
      StaysUnique(nodes, a);
      UniqueAfter(Serve(nodes, a), reqs[n]);
    }
  }

  // ---------------------------------------------------------------- the dimmer

  /** Who is addressed, byte by byte: the exact address, or every node of the group but gateways and masters. */
  lemma AddressedExactly(req: Frame, my: Frame)
    ensures IsMyAddr(req, my) <==>
            && my[4] == req[20] && my[5] == req[21]
            && (|| (my[0] == req[18] && my[1] == req[19])
                || (req[18] == 0 && my[1] != 32 && my[1] != 64))
  {
    SameWord(my[4], my[5], req[20], req[21]);
  }

  lemma SameWord(a: bv8, b: bv8, c: bv8, d: bv8)
    ensures Word(a, b) == Word(c, d) <==> a == c && b == d
  {
    PartsOfWord(a, b);
    PartsOfWord(c, d);
  }

  /** The request sets the level of this node: a control request, or an alternating one of the node's parity. */
  predicate Sets(node: Node, req: Frame) {
    && IsMyAddr(req, node.frame)
    && (|| (req[15] == CONTROL && node.frame[1] != 32)
        || (req[15] == ALTERNATIVE && node.frame[0] % 2 == req[0] % 2))
  }

  /** The request gives the level back to the sensor. */
  predicate Releases(node: Node, req: Frame) { IsMyAddr(req, node.frame) && req[15] == NEW_SET }

  /** The dimmer after any request, from the request's bytes and the node's address. */
  lemma DimmerAfter(node: Node, req: Frame, m: Readings)
    ensures var d, e := node.dim, Request(node, req, m).node.dim;
            && e.target == (if Sets(node, req) then req[8] as nat else d.target)
            && e.forced == (Sets(node, req) || (d.forced && !Releases(node, req)))
            && e.direct == (if IsMyAddr(req, node.frame) && req[15] == CONTROL && node.frame[1] == 32 then req[8] as nat
                            else if IsMyAddr(req, node.frame) && req[15] == MONITORING && req[18] != 0 then 100
                            else d.direct)
  {
  }

  /** No request from number k on sets the level of node i, as each finds it. */
  predicate NoneSets(nodes: seq<Node>, reqs: seq<Frame>, k: nat, i: nat)
    requires i < |nodes|
  {
    |reqs| <= k ||
    var a := reqs[..|reqs| - 1];
    NoneSets(nodes, a, k, i) && !Sets(Serve(nodes, a)[i], reqs[|reqs| - 1])
  }

  /** No request from number k on releases node i. */
  predicate NoneReleases(nodes: seq<Node>, reqs: seq<Frame>, k: nat, i: nat)
    requires i < |nodes|
  {
    |reqs| <= k ||
    var a := reqs[..|reqs| - 1];
    NoneReleases(nodes, a, k, i) && !Releases(Serve(nodes, a)[i], reqs[|reqs| - 1])
  }

  /** While nothing sets its level a node keeps its target, and stays forced until it is released. */
  lemma {:induction false} NeverSet(nodes: seq<Node>, reqs: seq<Frame>, i: nat)
    requires i < |nodes| && NoneSets(nodes, reqs, 0, i)
    ensures var d := Serve(nodes, reqs)[i].dim;
            && d.target == nodes[i].dim.target
            && (d.forced <==> nodes[i].dim.forced && NoneReleases(nodes, reqs, 0, i))
    decreases |reqs|
  {
    if reqs != [] {
      var a := reqs[..|reqs| - 1];
      NeverSet(nodes, a, i);
      DimmerAfter(Serve(nodes, a)[i], reqs[|reqs| - 1], NO_READINGS);
    }
  }

  /**
    Over any run of requests a node's target is the level of the last request that set it, and it is
    forced exactly if no later request has released it.
   */
  lemma {:induction false} LastSetting(nodes: seq<Node>, reqs: seq<Frame>, k: nat, i: nat)
    requires i < |nodes| && k < |reqs|
    requires Sets(Serve(nodes, reqs[..k])[i], reqs[k]) && NoneSets(nodes, reqs, k + 1, i)
    ensures var d := Serve(nodes, reqs)[i].dim;
            && d.target == reqs[k][8] as nat
            && (d.forced <==> NoneReleases(nodes, reqs, k + 1, i))
    decreases |reqs|
  {
    var n := |reqs| - 1;
    var last := Serve(nodes, reqs[..n])[i];
    DimmerAfter(last, reqs[n], NO_READINGS);
    if k < n {
      SamePrefix(reqs, n, k);
      LastSetting(nodes, reqs[..n], k, i);
    }
  }

  lemma SamePrefix(reqs: seq<Frame>, n: nat, k: nat)
    requires k <= n <= |reqs|
    ensures reqs[..n][..k] == reqs[..k]
  {
  }

  // ---------------------------------------------------------------- the node as a program

  /** The stored frame `mp_rfFrame` and the dimmer fields the handlers write. */
  class ServerNode {
    var frame: Frame
    var forced: bool
    var target: nat
    var direct: nat

    ghost function State(): Node
      reads this
    {
      Node(frame, Dimmer(forced, target, direct))
    }

    constructor (initial: Frame)
      ensures frame == initial && !forced
    {
      frame, forced, target, direct := initial, false, 0, 0;
    }

    /** The common tail: overwrite the request with an acknowledgement if this node is a gateway. */
    method Acknowledge(req: FrameBox, sub: bv8) returns (answered: bool)
      modifies req
      ensures Outcome(State(), req.f, answered) == AnswerAsGateway(State(), old(req.f), sub)
    {
      answered := false;
      if IsMstOrGw(frame) {
        SetAckFrame(req);
        req.f := req.f[SUB_COMMAND := sub];
        answered := true;
      }
    }

    /** `setAckFrame`. */
    method SetAckFrame(req: FrameBox)
      modifies req
      ensures req.f == AckFrame(frame)
    {
      req.f := frame;
      req.f := req.f[DST_ROLE := MST];
      req.f := req.f[DST_PID := 0];
      req.f := SetU16(req.f, DST_GID, 0);
      req.f := req.f[COMMAND := CLIENT_ACK];
    }

    method ControlSub(req: FrameBox) returns (answered: bool)
      modifies this, req
      ensures Outcome(State(), req.f, answered) == ProcControlSub(old(State()), old(req.f))
    {
      if IsMyAddr(req.f, frame) {
        if IsGw(frame) {
          direct := req.f[LEVEL] as nat;
        } else {
          forced, target := true, req.f[LEVEL] as nat;
        }
      }
      answered := Acknowledge(req, CONTROL);
    }

    method NewSetSub(req: FrameBox) returns (answered: bool)
      modifies this, req
      ensures Outcome(State(), req.f, answered) == ProcNewSetSub(old(State()), old(req.f))
    {
      if IsMyAddr(req.f, frame) {
        forced := false;
      }
      answered := Acknowledge(req, NEW_SET);
    }

    /** Address and role change before the test for a gateway, so a lamp made a gateway answers. */
    method NewFactSetSub(req: FrameBox) returns (answered: bool)
      modifies this, req
      ensures Outcome(State(), req.f, answered) == ProcNewFactSetSub(old(State()), old(req.f))
    {
      if IsMyAddr(req.f, frame) {
        frame := frame[PID := req.f[NEW_PID]];
        if Assignable(req.f[NEW_ROLE]) {
          frame := frame[ROLE := req.f[NEW_ROLE]];
        }
        frame := SetU16(frame, GID, U16(req.f, NEW_GID));
        frame := frame[HIGH := req.f[HIGH]];
        frame := frame[LOW := req.f[LOW]];
      }
      answered := Acknowledge(req, NEW_FACT_SET);
    }

    method AltSub(req: FrameBox) returns (answered: bool)
      modifies this, req
      ensures Outcome(State(), req.f, answered) == ProcAltSub(old(State()), old(req.f))
    {
      if IsMyAddr(req.f, frame) {
        if frame[PID] % 2 == req.f[PID] % 2 {
          forced, target := true, req.f[LEVEL] as nat;
        }
      }
      answered := Acknowledge(req, ALTERNATIVE);
    }

    method StatusSub(req: FrameBox, m: Readings) returns (answered: bool)
      modifies req
      ensures Outcome(State(), req.f, answered) == ProcStatus(State(), old(req.f), m)
    {
      answered := false;
      if IsMyAddr(req.f, frame) {
        SetAckFrame(req);
        req.f := req.f[SUB_COMMAND := STATUS];
        req.f := SetU16(req.f, TRAFFIC, m.traffic);
        req.f := req.f[MONITOR := m.monitor];
        req.f := SetU16(req.f, PHOTO, m.photo);
        answered := true;
      }
    }

    method PowerReadSub(req: FrameBox, m: Readings) returns (answered: bool)
      modifies req
      ensures Outcome(State(), req.f, answered) == ProcPowerRead(State(), old(req.f), m)
    {
      answered := false;
      if IsMyAddr(req.f, frame) {
        SetAckFrame(req);
        req.f := req.f[SUB_COMMAND := POWER_READ];
        req.f := WithPower(req.f, m.power);
        answered := true;
      }
    }

    /** `taskServer`. */
    method Task(req: FrameBox, m: Readings) returns (answered: bool)
      modifies this, req
      ensures Outcome(State(), req.f, answered) == TaskServer(old(State()), old(req.f), m)
    {
      var sub := req.f[SUB_COMMAND];
      answered := false;
      if sub == POWER_READ {
        if ErrorPid(req.f) { return; }
        answered := PowerReadSub(req, m);
      } else if sub == CONTROL {
        answered := ControlSub(req);
      } else if sub == NEW_SET {
        answered := NewSetSub(req);
      } else if sub == NEW_FACT_SET {
        if ErrorPid(req.f) { return; }
        answered := NewFactSetSub(req);
      } else if sub == ALTERNATIVE {
        answered := AltSub(req);
      } else if sub == MONITORING {
        if ErrorPid(req.f) { return; }
        direct := 0;
        direct := 100;
      } else if sub == STATUS {
        if ErrorPid(req.f) { return; }
        answered := StatusSub(req, m);
      }
    }
  }
}
