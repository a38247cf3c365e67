/**
 The whole control loop: the Raspberry Pi sends step commands (`speedcmd-sender.c`) and position
 requests (`positionreq-sender.c`), other nodes talk too, the Arduino steps and answers, the Pi decodes.
 The bus may lose frames and deliver them in any order, but delivers none twice.
 */
module StepperSystem {
  import opened IdBits
  import opened CanCodec
  import opened Mcp2515
  import opened McpChip
  import opened McpCan
  import opened StepperNode

  // ---- frames on the Pi

  /** A Linux CAN frame: identifier with flag bits 29 (error), 30 (remote) and 31 (extended). */
  datatype SocketFrame = SocketFrame(can_id: bv32, dlc: byte, data: seq<byte>)

  datatype Option<T> = None | Some(value: T)

  function ToSocket(m: Message): SocketFrame {
    SocketFrame(SocketId(m.id, m.rtr != 0, m.ext != 0), m.len, m.data)
  }

  function SocketId(id: bv32, remote: bool, extended: bool): bv32 {
    id | (if remote then 0x4000_0000 else 0) | (if extended then 0x8000_0000 else 0)
  }

  /** send_step_command, for the direction +1 or -1. */
  function StepCommand(dir: int): Message {
    Message(CANID_STEPMSG, 0, 0, 1, [if dir == 1 then 0x01 else 0x02])
  }

  /** send_rtr_motor_position. */
  function PositionRequest(): Message {
    Message(CANID_POSMSG, 0, 1, 2, [0, 0])
  }

  /** send_position. */
  function PositionReply(position: bv16): Message {
    Message(CANID_POSMSG, 0, 0, 2, PositionBytes(position))
  }

  function Join(high: byte, low: byte): bv16 {
    ((high as bv16) << 8) | (low as bv16)
  }

  /** One pass of recv_remote_response: the position in steps, if the frame carries one. */
  function RecvPosition(f: SocketFrame): Option<bv16> {
    if f.can_id & 0x2000_0000 != 0 || f.can_id & 0x4000_0000 != 0 then None
    else if f.can_id & 0x1FFF_FFFF != CANID_POSMSG || f.dlc != 2 || |f.data| < 2 then None
    else Some(Join(f.data[0], f.data[1]))
  }

  lemma PlainId(id: bv32, extended: bool)
    requires id <= 0x1FFF_FFFF
    ensures SocketId(id, false, extended) & 0x2000_0000 == 0
    ensures SocketId(id, false, extended) & 0x4000_0000 == 0
    ensures SocketId(id, false, extended) & 0x1FFF_FFFF == id
  {
  }

  lemma RemoteId(id: bv32, extended: bool)
    ensures SocketId(id, true, extended) & 0x4000_0000 != 0
  {
  }

  lemma JoinSplit(p: bv16)
    ensures Join(((p >> 8) & 0xFF) as byte, (p & 0xFF) as byte) == p
  {
  }

  /** The Pi reads back the position the Arduino put into its reply ... */
  lemma ReplyDecoded(position: bv16)
    ensures RecvPosition(ToSocket(PositionReply(position))) == Some(position)
  {
    hide SocketId, Join;
    PlainId(CANID_POSMSG, false);
    JoinSplit(position);
  }

  /** What the Pi takes a position from, and which: a plain frame with identifier 2 and two bytes, big endian. */
  lemma PositionTaken(f: SocketFrame)
    requires |f.data| >= f.dlc as nat
    ensures RecvPosition(f) != None <==>
      f.can_id & 0x6000_0000 == 0 && f.can_id & 0x1FFF_FFFF == 2 && f.dlc == 2
    ensures RecvPosition(f) != None ==> RecvPosition(f).value == TwoBytes(f.data[0], f.data[1])
  {
    hide TwoBytes, Join;
    if RecvPosition(f) != None {
      JoinValue(f.data[0], f.data[1]);
    }
  }

  lemma JoinValue(high: byte, low: byte)
    ensures Join(high, low) == TwoBytes(high, low)
  {
  }

  /** ... and takes no position from requests and from frames with another identifier. */
  lemma OthersIgnored(m: Message)
    requires m.rtr != 0 || (m.id != CANID_POSMSG && m.id <= 0x1FFF_FFFF)
    ensures RecvPosition(ToSocket(m)) == None
  {
    hide SocketId, Join;
    if m.rtr != 0 {
      RemoteId(m.id, m.ext != 0);
    } else {
      PlainId(m.id, m.ext != 0);
    }
  }

  /** What the driver puts into a transmit buffer for a reply is that reply when it is read from a receive buffer. */
  lemma ReplyOverTheWire(position: bv16, image: seq<byte>)
    requires |image| == 13 && EncodeMsg(CANID_POSMSG, 0, 0, 2, PositionBytes(position)) <= image
    ensures DecodeMsg(image) == PositionReply(position)
  {
    hide Encode, DecodeId, DecodeExt, PositionBytes, EncodeMsg;
    MessageRoundTrip(CANID_POSMSG, 0, 0, 2, PositionBytes(position), image);
    SmallId();
  }

  lemma SmallId()
    ensures AndId(CANID_POSMSG, ID11) == CANID_POSMSG
  {
  }

  // ---- the system

  /**
   A frame under way, which reply of the Arduino it is (-1: none), and the direction the user had chosen when
   it was sent as a step command (0: it is none).
   */
  datatype Wire = Wire(m: Message, reply: int, dir: int)

  /** A reply: the position in it, and how many messages the Arduino had processed by then. */
  datatype Reply = Reply(position: bv16, seen: nat)

  /** A position shown on the Pi, and the reply it came from. */
  datatype Shown = Shown(position: bv16, reply: int)

  datatype State = State(
    dir: int,                   // the direction the user chose: -1, 0 or 1
    toArduino: seq<Wire>,
    toPi: seq<Wire>,
    position: bv16,             // stepper_position
    processed: seq<Message>,    // everything the Arduino processed, in order
    steps: seq<int>,            // the directions with which these were sent
    replies: seq<Reply>,        // everything it answered
    requested: nat,             // position requests sent by the Pi
    shown: seq<Shown>           // everything the Pi displayed
  )

  datatype Action =
    | Key(c: char)                      // the user presses a key
    | SendStep                          // the real-time thread sends a step command
    | SendRequest                       // the other real-time thread asks for the position
    | OtherNode(m: Message)             // any other frame on the bus
    | ArduinoReceives(i: nat, out: bool)  // frame i reaches the Arduino; a reply may fail to get out
    | PiReceives(i: nat)
    | LostToArduino(i: nat)
    | LostToPi(i: nat)

  function Without<T>(s: seq<T>, i: nat): seq<T>
    requires i < |s|
  {
    s[..i] + s[i + 1..]
  }

  ghost predicate Enabled(s: State, a: Action) {
    match a
    case Key(_) => true
    case SendStep => s.dir == 1 || s.dir == -1
    case SendRequest => true
    case OtherNode(m) => m.id != CANID_POSMSG && m.id <= 0x1FFF_FFFF
    case ArduinoReceives(i, _) => i < |s.toArduino|
    case PiReceives(i) => i < |s.toPi|
    case LostToArduino(i) => i < |s.toArduino|
    case LostToPi(i) => i < |s.toPi|
  }

  ghost function Broadcast(s: State, m: Message, dir: int): State {
    s.(toArduino := s.toArduino + [Wire(m, -1, dir)], toPi := s.toPi + [Wire(m, -1, dir)])
  }

  ghost function Step(s: State, a: Action): State
    requires Enabled(s, a)
  {
    match a
    case Key(c) => s.(dir := if c == 'f' then 1 else if c == 'r' then -1 else if c == 's' then 0 else s.dir)
    case SendStep => Broadcast(s, StepCommand(s.dir), s.dir)
    case SendRequest => Broadcast(s, PositionRequest(), 0).(requested := s.requested + 1)
    case OtherNode(m) => Broadcast(s, m, 0)
    case ArduinoReceives(i, out) =>
      var m := s.toArduino[i].m;
      var t := s.(toArduino := Without(s.toArduino, i),
                  position := After(s.position, m), processed := s.processed + [m],
                  steps := s.steps + [s.toArduino[i].dir]);
      if IsRequest(m) && out then
        t.(replies := s.replies + [Reply(s.position, |s.processed| + 1)],
           toPi := s.toPi + [Wire(PositionReply(s.position), |s.replies|, 0)])
      else t
    case PiReceives(i) =>
      var w := s.toPi[i];
      var t := s.(toPi := Without(s.toPi, i));
      (match RecvPosition(ToSocket(w.m))
       case None => t
       case Some(p) => t.(shown := s.shown + [Shown(p, w.reply)]))
    case LostToArduino(i) => s.(toArduino := Without(s.toArduino, i))
    case LostToPi(i) => s.(toPi := Without(s.toPi, i))
  }

  ghost const START := State(0, [], [], 0, [], [], [], 0, [])

  ghost predicate Run(trace: seq<Action>, t: State) {
    if trace == [] then t == START
    else
      var last := |trace| - 1;
      exists m: State :: Run(trace[..last], m) && Enabled(m, trace[last]) && t == Step(m, trace[last])
  }

  // ---- what holds in every state

  /** Forward minus reverse step commands among the messages. */
  function Net(processed: seq<Message>): int {
    if processed == [] then 0 else Net(processed[..|processed| - 1]) + StepOf(processed[|processed| - 1])
  }

  ghost predicate Tracks(position: bv16, processed: seq<Message>) {
    position < MAX_STEPS && position as int == Net(processed) % STEPS_PER_TURN
  }

  ghost predicate ReplyOk(s: State, r: Reply) {
    && 0 < r.seen <= |s.processed|
    && IsRequest(s.processed[r.seen - 1])
    && Tracks(r.position, s.processed[..r.seen])
  }

  ghost predicate RepliesOk(s: State) {
    && (forall k :: 0 <= k < |s.replies| ==> ReplyOk(s, s.replies[k]))
    && (forall k, l :: 0 <= k < l < |s.replies| ==> s.replies[k].seen < s.replies[l].seen)
  }

  /** A frame on its way to the Pi is the one copy of an undelivered reply, or shows nothing. */
  ghost predicate WireOk(s: State, w: Wire) {
    if w.reply == -1 then RecvPosition(ToSocket(w.m)) == None
    else 0 <= w.reply < |s.replies| && w.m == PositionReply(s.replies[w.reply].position)
  }

  ghost predicate WiresOk(s: State) {
    forall i :: 0 <= i < |s.toPi| ==> WireOk(s, s.toPi[i])
  }

  ghost predicate Distinct(s: State) {
    && (forall i, j :: 0 <= i < j < |s.toPi| && s.toPi[i].reply >= 0 ==> s.toPi[i].reply != s.toPi[j].reply)
    && (forall i, j :: 0 <= i < |s.toPi| && 0 <= j < |s.shown| ==> s.toPi[i].reply != s.shown[j].reply)
    && (forall i, j :: 0 <= i < j < |s.shown| ==> s.shown[i].reply != s.shown[j].reply)
  }

  ghost predicate ShownOk(s: State) {
    forall j :: 0 <= j < |s.shown| ==>
      0 <= s.shown[j].reply < |s.replies| && s.shown[j].position == s.replies[s.shown[j].reply].position
  }

  /** Requests under way to the Arduino. */
  function Requests(wires: seq<Wire>): nat {
    if wires == [] then 0 else Requests(wires[..|wires| - 1]) + if IsRequest(wires[|wires| - 1].m) then 1 else 0
  }

  ghost predicate Inv(s: State) {
    && Tracks(s.position, s.processed)
    && RepliesOk(s) && WiresOk(s) && Distinct(s) && ShownOk(s)
    && Requests(s.toArduino) + |s.replies| <= s.requested
  }

  lemma RequestsPush(wires: seq<Wire>, w: Wire)
    ensures Requests(wires + [w]) == Requests(wires) + if IsRequest(w.m) then 1 else 0
  {
    assert (wires + [w])[..|wires|] == wires;
  }

  lemma {:induction false} RequestsConcat(a: seq<Wire>, b: seq<Wire>)
    ensures Requests(a + b) == Requests(a) + Requests(b)
  {
    if b == [] {
      assert a + b == a;
    } else {
      var u, w := b[..|b| - 1], b[|b| - 1];
      assert a + b == (a + u) + [w] && b == u + [w];
      RequestsConcat(a, u);
      RequestsPush(a + u, w);
      RequestsPush(u, w);
    }
  }

  lemma RequestsWithout(wires: seq<Wire>, i: nat)
    requires i < |wires|
    ensures Requests(Without(wires, i)) == Requests(wires) - if IsRequest(wires[i].m) then 1 else 0
  {
    hide IsRequest, Requests;
    var a, w, b := wires[..i], wires[i], wires[i + 1..];
    assert wires == (a + [w]) + b;
    RequestsConcat(a + [w], b);
    RequestsPush(a, w);
    RequestsConcat(a, b);
  }

  /** The counter follows every message. */
  lemma AfterTracks(position: bv16, processed: seq<Message>, m: Message)
    requires Tracks(position, processed)
    ensures Tracks(After(position, m), processed + [m])
  {
    hide After, StepOf, Net;
    NetPush(processed, m);
    AfterValue(position, m);
    ModAdd(Net(processed), StepOf(m));
  }

  lemma AfterValue(position: bv16, m: Message)
    requires position < MAX_STEPS
    ensures After(position, m) < MAX_STEPS
    ensures After(position, m) as int == (position as int + StepOf(m)) % STEPS_PER_TURN
  {
    hide Turn, StepOf;
    StepRange(m);
    if StepOf(m) == 1 {
      TurnIsModular(position, Fwd);
    } else if StepOf(m) == -1 {
      TurnIsModular(position, Rev);
    } else {
      InRange(position);
      Small(position as int);
    }
  }

  lemma Small(p: int)
    requires 0 <= p < STEPS_PER_TURN
    ensures p % STEPS_PER_TURN == p
  {
  }

  lemma NetPush(processed: seq<Message>, m: Message)
    ensures Net(processed + [m]) == Net(processed) + StepOf(m)
  {
    hide StepOf;
    assert (processed + [m])[..|processed|] == processed;
  }

  lemma StepRange(m: Message)
    ensures -1 <= StepOf(m) <= 1
  {
  }

  lemma ModAdd(net: int, step: int)
    ensures (net % STEPS_PER_TURN + step) % STEPS_PER_TURN == (net + step) % STEPS_PER_TURN
  {
  }

  lemma RepliesStay(s: State, t: State)
    requires RepliesOk(s) && s.processed <= t.processed && t.replies == s.replies
    ensures RepliesOk(t)
  {
    hide Tracks, IsRequest;
    forall k | 0 <= k < |t.replies|
      ensures ReplyOk(t, t.replies[k])
    {
      assert ReplyOk(s, s.replies[k]);
      assert t.processed[..t.replies[k].seen] == s.processed[..s.replies[k].seen];
    }
  }

  lemma BroadcastKeeps(s: State, m: Message, dir: int)
    requires Inv(s) && RecvPosition(ToSocket(m)) == None
    ensures var t := Broadcast(s, m, dir);
      RepliesOk(t) && WiresOk(t) && Distinct(t) && ShownOk(t) && Tracks(t.position, t.processed)
  {
    hide Tracks, RecvPosition, ToSocket, PositionReply, Requests, RepliesOk;
    RepliesStay(s, Broadcast(s, m, dir));
  }

  /** Nothing but the direction, the requests counted or a lost frame changes. */
  lemma KeyKeepsInv(s: State, c: char)
    requires Inv(s)
    ensures Inv(Step(s, Key(c)))
  {
    hide Tracks, WireOk, RepliesOk, Requests;
    var t := Step(s, Key(c));
    RepliesStay(s, t);
    WiresStay(s, t);
  }

  lemma WiresStay(s: State, t: State)
    requires WiresOk(s) && t.replies == s.replies
    requires forall i :: 0 <= i < |t.toPi| ==> t.toPi[i] in s.toPi
    ensures WiresOk(t)
  {
    hide RecvPosition, ToSocket, PositionReply;
    forall i | 0 <= i < |t.toPi|
      ensures WireOk(t, t.toPi[i])
    {
      assert WireOk(s, t.toPi[i]);
    }
  }

  /** A frame of the Pi or another node that carries no position. */
  lemma BroadcastKeepsInv(s: State, m: Message, dir: int, requested: nat)
    requires Inv(s) && RecvPosition(ToSocket(m)) == None
    requires requested == s.requested + if IsRequest(m) then 1 else 0
    ensures Inv(Broadcast(s, m, dir).(requested := requested))
  {
    hide Tracks, RecvPosition, ToSocket, PositionReply, Requests, RepliesOk, WiresOk, Distinct, ShownOk, IsRequest;
    var t := Broadcast(s, m, dir);
    BroadcastKeeps(s, m, dir);
    RequestsPush(s.toArduino, Wire(m, -1, dir));
    RequestedMatters(t, requested);
  }

  /** The count of requests sent matters to the last clause of the invariant only. */
  lemma RequestedMatters(s: State, requested: nat)
    requires Tracks(s.position, s.processed) && RepliesOk(s) && WiresOk(s) && Distinct(s) && ShownOk(s)
    requires Requests(s.toArduino) + |s.replies| <= requested
    ensures Inv(s.(requested := requested))
  {
    hide Tracks, WireOk, Requests;
    var t := s.(requested := requested);
    RepliesStay(s, t);
    WiresStay(s, t);
  }

  lemma StepCommandKeepsInv(s: State)
    requires Inv(s) && Enabled(s, SendStep)
    ensures Inv(Step(s, SendStep))
  {
    hide Inv, RecvPosition, ToSocket, SocketId;
    OthersIgnored(StepCommand(s.dir));
    BroadcastKeepsInv(s, StepCommand(s.dir), s.dir, s.requested);
    assert Step(s, SendStep) == Broadcast(s, StepCommand(s.dir), s.dir).(requested := s.requested);
  }

  lemma RequestKeepsInv(s: State)
    requires Inv(s)
    ensures Inv(Step(s, SendRequest))
  {
    hide Inv, RecvPosition, ToSocket, SocketId;
    OthersIgnored(PositionRequest());
    BroadcastKeepsInv(s, PositionRequest(), 0, s.requested + 1);
  }

  lemma OtherNodeKeepsInv(s: State, m: Message)
    requires Inv(s) && Enabled(s, OtherNode(m))
    ensures Inv(Step(s, OtherNode(m)))
  {
    hide Inv, RecvPosition, ToSocket, SocketId;
    OthersIgnored(m);
    BroadcastKeepsInv(s, m, 0, s.requested);
    assert Step(s, OtherNode(m)) == Broadcast(s, m, 0).(requested := s.requested);
  }

  lemma LostToArduinoKeepsInv(s: State, i: nat)
    requires Inv(s) && i < |s.toArduino|
    ensures Inv(Step(s, LostToArduino(i)))
  {
    hide Tracks, WireOk, RepliesOk, Requests, Without;
    var t := Step(s, LostToArduino(i));
    RepliesStay(s, t);
    WiresStay(s, t);
    RequestsWithout(s.toArduino, i);
  }

  lemma LostToPiKeepsInv(s: State, i: nat)
    requires Inv(s) && i < |s.toPi|
    ensures Inv(Step(s, LostToPi(i)))
  {
    hide Tracks, WireOk, RepliesOk, Requests;
    var t := Step(s, LostToPi(i));
    RepliesStay(s, t);
    WiresStay(s, t);
  }

  lemma PlainStepKeepsInv(s: State, a: Action)
    requires Inv(s) && Enabled(s, a) && !a.ArduinoReceives? && !a.PiReceives?
    ensures Inv(Step(s, a))
  {
    hide Inv, Step;
    match a
    case Key(c) => KeyKeepsInv(s, c);
    case SendStep => StepCommandKeepsInv(s);
    case SendRequest => RequestKeepsInv(s);
    case OtherNode(m) => OtherNodeKeepsInv(s, m);
    case LostToArduino(i) => LostToArduinoKeepsInv(s, i);
    case LostToPi(i) => LostToPiKeepsInv(s, i);
  }

  /** The Arduino processes a message and sends nothing. */
  lemma SilentKeepsInv(s: State, i: nat)
    requires Inv(s) && i < |s.toArduino|
    ensures Inv(Silent(s, i))
    ensures IsRequest(s.toArduino[i].m) ==> Requests(Silent(s, i).toArduino) + |s.replies| + 1 <= s.requested
  {
    hide Tracks, WireOk, After, IsRequest, Requests, RepliesOk, Without;
    var m, t := s.toArduino[i].m, Silent(s, i);
    RequestsWithout(s.toArduino, i);
    AfterTracks(s.position, s.processed, m);
    RepliesStay(s, t);
    WiresStay(s, t);
  }

  ghost function Silent(s: State, i: nat): State
    requires i < |s.toArduino|
  {
    var m := s.toArduino[i].m;
    s.(toArduino := Without(s.toArduino, i), position := After(s.position, m),
       processed := s.processed + [m], steps := s.steps + [s.toArduino[i].dir])
  }

  /** The reply to the request just processed goes out. */
  ghost function Answered(s: State): State {
    s.(replies := s.replies + [Reply(s.position, |s.processed|)],
       toPi := s.toPi + [Wire(PositionReply(s.position), |s.replies|, 0)])
  }

  lemma AnswerKeepsInv(s: State)
    requires Inv(s) && s.processed != [] && IsRequest(s.processed[|s.processed| - 1])
    requires Requests(s.toArduino) + |s.replies| + 1 <= s.requested
    requires forall k :: 0 <= k < |s.replies| ==> s.replies[k].seen < |s.processed|
    ensures Inv(Answered(s))
  {
    hide Tracks, RecvPosition, ToSocket, PositionReply, IsRequest, Requests;
    var t := Answered(s);
    assert s.processed[..|s.processed|] == s.processed;
    forall k | 0 <= k < |t.replies|
      ensures ReplyOk(t, t.replies[k])
    {
      if k < |s.replies| {
        assert ReplyOk(s, s.replies[k]);
      }
    }
    forall i | 0 <= i < |t.toPi|
      ensures WireOk(t, t.toPi[i])
    {
      if i < |s.toPi| {
        assert WireOk(s, s.toPi[i]);
      }
    }
    AnswerDistinct(s);
  }

  lemma AnswerDistinct(s: State)
    requires WiresOk(s) && ShownOk(s) && Distinct(s)
    ensures Distinct(Answered(s))
  {
    hide RecvPosition, ToSocket, PositionReply;
    forall i | 0 <= i < |s.toPi|
      ensures s.toPi[i].reply != |s.replies|
    {
      assert WireOk(s, s.toPi[i]);
    }
  }

  lemma ArduinoKeepsInv(s: State, a: Action)
    requires Inv(s) && Enabled(s, a) && a.ArduinoReceives?
    ensures Inv(Step(s, a))
  {
    hide Tracks, WireOk, After, Requests, Distinct, Without;
    var m, t := s.toArduino[a.i].m, Silent(s, a.i);
    SilentKeepsInv(s, a.i);
    if IsRequest(m) && a.out {
      RequestNoStep(s.position, m);
      assert forall k :: 0 <= k < |s.replies| ==> ReplyOk(s, s.replies[k]);
      AnswerKeepsInv(t);
      assert Step(s, a) == Answered(t);
    }
  }

  lemma RequestNoStep(position: bv16, m: Message)
    requires IsRequest(m)
    ensures After(position, m) == position
  {
  }

  lemma PiKeepsInv(s: State, a: Action)
    requires Inv(s) && Enabled(s, a) && a.PiReceives?
    ensures Inv(Step(s, a))
  {
    hide Tracks, RecvPosition, ToSocket, PositionReply, RepliesOk, After, IsRequest, Requests;
    var t := Step(s, a);
    var w := s.toPi[a.i];
    RepliesStay(s, t);
    assert WireOk(s, w);
    if w.reply != -1 {
      ReplyDecoded(s.replies[w.reply].position);
    }
  }

  lemma {:induction false} RunKeepsInv(trace: seq<Action>, s: State)
    requires Run(trace, s)
    ensures Inv(s)
    decreases |trace|
  {
    hide RecvPosition, PositionReply, After;
    if trace != [] {
      var last := |trace| - 1;
      var m: State :| Run(trace[..last], m) && Enabled(m, trace[last]) && s == Step(m, trace[last]);
      RunKeepsInv(trace[..last], m);
      if trace[last].ArduinoReceives? {
        ArduinoKeepsInv(m, trace[last]);
      } else if trace[last].PiReceives? {
        PiKeepsInv(m, trace[last]);
      } else {
        PlainStepKeepsInv(m, trace[last]);
      }
    }
  }

  // ---- end to end

  /** The angle the Pi displays: 1.8 degrees per full step, 8 micro-steps each. */
  function Degrees(position: bv16): real {
    (position as int) as real * 9.0 / 40.0
  }

  /**
   In every run, every displayed position is the net count of the step commands the Arduino had processed,
   modulo a turn, when it came to the position request whose reply is displayed.
   */
  lemma EndToEnd(trace: seq<Action>, s: State, j: nat) returns (seen: nat)
    requires Run(trace, s) && j < |s.shown|
    ensures 0 <= s.shown[j].reply < |s.replies| && seen == s.replies[s.shown[j].reply].seen
    ensures 0 < seen <= |s.processed| && IsRequest(s.processed[seen - 1])
    ensures s.shown[j].position as int == Net(s.processed[..seen]) % STEPS_PER_TURN
    ensures 0.0 <= Degrees(s.shown[j].position) < 360.0
    ensures Degrees(s.shown[j].position) == (s.shown[j].position as int) as real * 1.8 / 8.0
  {
    hide RecvPosition, ToSocket, PositionReply, StepOf;
    RunKeepsInv(trace, s);
    var r := s.replies[s.shown[j].reply];
    assert ReplyOk(s, r);
    seen := r.seen;
    InRange(r.position);
  }

  // ---- end to end, from what the user chose

  /** Nobody but the Pi sends step commands. */
  ghost predicate OnlyPiSteps(trace: seq<Action>) {
    forall k :: 0 <= k < |trace| && trace[k].OtherNode? ==> trace[k].m.id != 1
  }

  function Count(steps: seq<int>, dir: int): nat {
    if steps == [] then 0 else Count(steps[..|steps| - 1], dir) + if steps[|steps| - 1] == dir then 1 else 0
  }

  /** A message does what the direction it was sent with stands for. */
  ghost predicate Means(m: Message, dir: int) {
    StepOf(m) == dir && -1 <= dir <= 1
  }

  ghost predicate StepsOk(s: State) {
    && (forall i :: 0 <= i < |s.toArduino| ==> Means(s.toArduino[i].m, s.toArduino[i].dir))
    && |s.steps| == |s.processed|
    && (forall k :: 0 <= k < |s.processed| ==> Means(s.processed[k], s.steps[k]))
  }

  lemma OwnMessages(dir: int)
    requires dir == 1 || dir == -1
    ensures Means(StepCommand(dir), dir) && Means(PositionRequest(), 0)
  {
  }

  lemma OthersNoStep(m: Message)
    requires m.id != 1
    ensures Means(m, 0)
  {
  }

  lemma StepKeepsSteps(s: State, a: Action)
    requires Enabled(s, a) && StepsOk(s) && (a.OtherNode? ==> a.m.id != 1)
    ensures StepsOk(Step(s, a))
  {
    hide Means, After, IsRequest, RecvPosition, ToSocket, StepCommand, PositionRequest, PositionReply;
    OwnMessages(1);
    OwnMessages(-1);
    if a.OtherNode? {
      OthersNoStep(a.m);
    }
  }

  lemma {:induction false} RunKeepsSteps(trace: seq<Action>, s: State)
    requires Run(trace, s) && OnlyPiSteps(trace)
    ensures StepsOk(s)
    decreases |trace|
  {
    hide Step, Enabled, Means;
    if trace != [] {
      var last := |trace| - 1;
      var m: State :| Run(trace[..last], m) && Enabled(m, trace[last]) && s == Step(m, trace[last]);
      assert forall k :: 0 <= k < last ==> trace[..last][k] == trace[k];
      RunKeepsSteps(trace[..last], m);
      StepKeepsSteps(m, trace[last]);
    }
  }

  lemma {:induction false} NetIsCounts(processed: seq<Message>, steps: seq<int>)
    requires |processed| == |steps| && forall k :: 0 <= k < |processed| ==> Means(processed[k], steps[k])
    ensures Net(processed) == Count(steps, 1) - Count(steps, -1)
  {
    hide StepOf;
    if processed != [] {
      var last := |processed| - 1;
      NetIsCounts(processed[..last], steps[..last]);
      assert Means(processed[last], steps[last]);
    }
  }

  /**
   As long as nobody else sends step commands, every displayed position is the number of step commands sent
   forward less the number sent in reverse, of those the Arduino had processed when it came to the
   request whose reply is displayed, modulo a turn of 1600 steps.
   */
  lemma ForwardMinusReverse(trace: seq<Action>, s: State, j: nat) returns (seen: nat)
    requires Run(trace, s) && OnlyPiSteps(trace) && j < |s.shown|
    ensures 0 <= s.shown[j].reply < |s.replies| && seen == s.replies[s.shown[j].reply].seen
    ensures 0 < seen <= |s.processed| == |s.steps|
    ensures s.shown[j].position as int == (Count(s.steps[..seen], 1) - Count(s.steps[..seen], -1)) % 1600
  {
    hide Means, Run, Net, Count;
    seen := EndToEnd(trace, s, j);
    RunKeepsSteps(trace, s);
    NetIsCounts(s.processed[..seen], s.steps[..seen]);
  }

  lemma OnlyKeysTurn(s: State, a: Action)
    requires Enabled(s, a)
    ensures Step(s, a).dir ==
      if a == Key('f') then 1 else if a == Key('r') then -1 else if a == Key('s') then 0 else s.dir
  {
    hide After, IsRequest, RecvPosition, ToSocket, StepCommand, PositionRequest, PositionReply, Without;
  }

  /** The direction with which step commands are sent is that of the last of the keys f, r and s, and 0 before any. */
  lemma {:induction false} DirectionIsLastKey(trace: seq<Action>, s: State, k: nat)
    requires Run(trace, s) && k < |trace| && trace[k].Key? && trace[k].c in {'f', 'r', 's'}
    requires forall l :: k < l < |trace| && trace[l].Key? ==> trace[l].c !in {'f', 'r', 's'}
    ensures s.dir == if trace[k].c == 'f' then 1 else if trace[k].c == 'r' then -1 else 0
    decreases |trace|
  {
    hide Step, Enabled;
    var last := |trace| - 1;
    var m: State :| Run(trace[..last], m) && Enabled(m, trace[last]) && s == Step(m, trace[last]);
    OnlyKeysTurn(m, trace[last]);
    if k < last {
      assert forall l :: 0 <= l < last ==> trace[..last][l] == trace[l];
      DirectionIsLastKey(trace[..last], m, k);
    }
  }

  /** The direction chosen by the keys of a run, and the step commands sent in it in one direction. */
  function Chosen(trace: seq<Action>): int {
    if trace == [] then 0
    else if trace[|trace| - 1] == Key('f') then 1
    else if trace[|trace| - 1] == Key('r') then -1
    else if trace[|trace| - 1] == Key('s') then 0
    else Chosen(trace[..|trace| - 1])
  }

  function Sent(trace: seq<Action>, dir: int): nat {
    if trace == [] then 0
    else
      var before := trace[..|trace| - 1];
      Sent(before, dir) + if trace[|trace| - 1] == SendStep && Chosen(before) == dir then 1 else 0
  }

  lemma {:induction false} DirectionIsChosen(trace: seq<Action>, s: State)
    requires Run(trace, s)
    ensures s.dir == Chosen(trace)
    decreases |trace|
  {
    hide Step, Enabled;
    if trace != [] {
      var last := |trace| - 1;
      var m: State :| Run(trace[..last], m) && Enabled(m, trace[last]) && s == Step(m, trace[last]);
      DirectionIsChosen(trace[..last], m);
      OnlyKeysTurn(m, trace[last]);
    }
  }

  /** Frames under way that were sent in a direction. */
  function UnderWay(wires: seq<Wire>, dir: int): nat {
    if wires == [] then 0
    else UnderWay(wires[..|wires| - 1], dir) + if wires[|wires| - 1].dir == dir then 1 else 0
  }

  lemma UnderWayPush(wires: seq<Wire>, w: Wire, dir: int)
    ensures UnderWay(wires + [w], dir) == UnderWay(wires, dir) + if w.dir == dir then 1 else 0
  {
    assert (wires + [w])[..|wires|] == wires;
  }

  lemma {:induction false} UnderWayConcat(a: seq<Wire>, b: seq<Wire>, dir: int)
    ensures UnderWay(a + b, dir) == UnderWay(a, dir) + UnderWay(b, dir)
  {
    if b == [] {
      assert a + b == a;
    } else {
      var u, w := b[..|b| - 1], b[|b| - 1];
      assert a + b == (a + u) + [w] && b == u + [w];
      UnderWayConcat(a, u, dir);
      UnderWayPush(a + u, w, dir);
      UnderWayPush(u, w, dir);
    }
  }

  lemma UnderWayWithout(wires: seq<Wire>, i: nat, dir: int)
    requires i < |wires|
    ensures UnderWay(Without(wires, i), dir) == UnderWay(wires, dir) - if wires[i].dir == dir then 1 else 0
  {
    hide UnderWay;
    var a, w, b := wires[..i], wires[i], wires[i + 1..];
    assert wires == (a + [w]) + b;
    UnderWayConcat(a + [w], b, dir);
    UnderWayPush(a, w, dir);
    UnderWayConcat(a, b, dir);
  }

  lemma CountPush(steps: seq<int>, d: int, dir: int)
    ensures Count(steps + [d], dir) == Count(steps, dir) + if d == dir then 1 else 0
  {
    assert (steps + [d])[..|steps|] == steps;
  }

  ghost function InHand(s: State, dir: int): nat {
    Count(s.steps, dir) + UnderWay(s.toArduino, dir)
  }

  /** Only sending adds to the commands processed and under way, and only losing one takes away. */
  lemma StepInHand(s: State, a: Action, dir: int)
    requires Enabled(s, a) && dir != 0
    ensures var t := Step(s, a);
      InHand(t, dir) == InHand(s, dir) + (if a.SendStep? && s.dir == dir then 1 else 0)
        - if a.LostToArduino? && s.toArduino[a.i].dir == dir then 1 else 0
  {
    hide Count, UnderWay, After, IsRequest, RecvPosition, ToSocket, StepCommand, PositionRequest, PositionReply;
    hide Without;
    match a
    case SendStep => UnderWayPush(s.toArduino, Wire(StepCommand(s.dir), -1, s.dir), dir);
    case SendRequest => UnderWayPush(s.toArduino, Wire(PositionRequest(), -1, 0), dir);
    case OtherNode(m) => UnderWayPush(s.toArduino, Wire(m, -1, 0), dir);
    case ArduinoReceives(i, _) =>
      UnderWayWithout(s.toArduino, i, dir);
      CountPush(s.steps, s.toArduino[i].dir, dir);
    case LostToArduino(i) => UnderWayWithout(s.toArduino, i, dir);
    case _ =>
  }

  /**
   The commands processed and under way in a direction are commands sent while the user had chosen it, each
   once, and all of them if the bus loses none on the way to the Arduino.
   */
  lemma {:induction false} CommandsAccounted(trace: seq<Action>, s: State, dir: int)
    requires Run(trace, s) && dir != 0
    ensures Count(s.steps, dir) + UnderWay(s.toArduino, dir) <= Sent(trace, dir)
    ensures (forall k :: 0 <= k < |trace| ==> !trace[k].LostToArduino?) ==>
      Count(s.steps, dir) + UnderWay(s.toArduino, dir) == Sent(trace, dir)
    decreases |trace|
  {
    hide Count, UnderWay, Step, Enabled, Chosen;
    if trace != [] {
      var last := |trace| - 1;
      var m: State :| Run(trace[..last], m) && Enabled(m, trace[last]) && s == Step(m, trace[last]);
      CommandsAccounted(trace[..last], m, dir);
      DirectionIsChosen(trace[..last], m);
      StepInHand(m, trace[last], dir);
      assert forall k :: 0 <= k < last ==> trace[..last][k] == trace[k];
    } else {
      NothingSentYet(dir);
    }
  }

  lemma NothingSentYet(dir: int)
    ensures Count(START.steps, dir) == 0 && UnderWay(START.toArduino, dir) == 0
  {
  }

  /** The frames of the Pi as it hands them to its CAN socket, in numbers. */
  lemma PiFrames()
    ensures ToSocket(StepCommand(1)) == SocketFrame(0x0000_0001, 1, [0x01])
    ensures ToSocket(StepCommand(-1)) == SocketFrame(0x0000_0001, 1, [0x02])
    ensures ToSocket(PositionRequest()) == SocketFrame(0x4000_0002, 2, [0x00, 0x00])
  {
  }

  /** At any moment of any run a request, if nothing is lost, brings the current position to the display. */
  lemma RequestIsAnswered(trace: seq<Action>, s: State) returns (longer: seq<Action>, t: State)
    requires Run(trace, s)
    ensures trace <= longer && |longer| == |trace| + 3 && Run(longer, t)
    ensures t.processed == s.processed + [PositionRequest()]
    ensures |t.shown| == |s.shown| + 1 && t.shown[|s.shown|].position == s.position == t.position
  {
    hide Run, RecvPosition, ToSocket, PositionReply;
    ReplyDecoded(s.position);
    RequestNoStep(s.position, PositionRequest());
    var a := Step(s, SendRequest);
    RunNext(trace, s, SendRequest);
    var i, j := |s.toArduino|, |s.toPi| + 1;
    var b := Step(a, ArduinoReceives(i, true));
    RunNext(trace + [SendRequest], a, ArduinoReceives(i, true));
    assert b.toPi[j] == Wire(PositionReply(s.position), |s.replies|, 0);
    t := Step(b, PiReceives(j));
    RunNext(trace + [SendRequest] + [ArduinoReceives(i, true)], b, PiReceives(j));
    longer := trace + [SendRequest] + [ArduinoReceives(i, true)] + [PiReceives(j)];
  }

  lemma RunNext(trace: seq<Action>, s: State, a: Action)
    requires Run(trace, s) && Enabled(s, a)
    ensures Run(trace + [a], Step(s, a))
  {
    hide Step, Enabled;
    assert (trace + [a])[..|trace|] == trace;
  }

  /** Two displays come from different requests as the Arduino processed them. */
  lemma ShownApart(trace: seq<Action>, s: State, i: nat, j: nat)
    requires Run(trace, s) && i < j < |s.shown|
    ensures 0 <= s.shown[i].reply < |s.replies| && 0 <= s.shown[j].reply < |s.replies|
    ensures s.replies[s.shown[i].reply].seen != s.replies[s.shown[j].reply].seen
  {
    hide RecvPosition, ToSocket, PositionReply, StepOf, ReplyOk;
    RunKeepsInv(trace, s);
  }

  /** No reply is shown twice, and replies never outnumber requests. */
  lemma NeverMoreThanAsked(trace: seq<Action>, s: State)
    requires Run(trace, s)
    ensures |s.shown| <= |s.replies| <= s.requested
  {
    hide RecvPosition, ToSocket, PositionReply, StepOf;
    RunKeepsInv(trace, s);
    var origins := seq(|s.shown|, i requires 0 <= i < |s.shown| => s.shown[i].reply);
    Pigeonhole(origins, |s.replies|);
  }

  lemma {:induction false} Pigeonhole(s: seq<int>, n: nat)
    requires forall i :: 0 <= i < |s| ==> 0 <= s[i] < n
    requires forall i, j :: 0 <= i < j < |s| ==> s[i] != s[j]
    ensures |s| <= n
  {
    if s != [] {
      assert 0 <= s[0] < n;
      if i :| 0 <= i < |s| && s[i] == n - 1 {
        Pigeonhole(Without(s, i), n - 1);
      } else {
        Pigeonhole(s, n - 1);
      }
    }
  }

  // ---- the Arduino program takes the steps of the system

  /**
   One pass of the main loop is the step ArduinoReceives of the system, for whichever frame under way
   carries the message that was read.  A reply is out when the driver started a transmission; what it
   started, received unchanged, is the reply that the system puts on its way to the Pi.
   */
  method ArduinoPass(node: Stepper, buf: array<byte>, ghost s: State)
    returns (got: bool, ghost m: Message, ghost out: bool, ghost sent: Transmission)
    requires node.Valid() && buf.Length >= MAX_CHARS && s.position == node.stepper_position
    modifies node`stepper_position, node.can.chip, node.can, buf
    ensures node.Valid()
    ensures !got ==> node.stepper_position == s.position && node.can.chip.log == old(node.can.chip.log)
    ensures got ==> forall i :: 0 <= i < |s.toArduino| && s.toArduino[i].m == m ==>
      Refines(s, ArduinoReceives(i, out), node.stepper_position, sent)
    ensures got && !IsRequest(m) ==> !out && node.can.chip.log == old(node.can.chip.log)
  {
    hide Bit, TxSafe, PositionBytes, After, IsRequest, EncodeMsg, RxFull, TxDone, Keeps, Image, Stepper.Transmitted;
    hide DecodeMsg, McpCan.Valid;
    ghost var k, replied, res;
    got, k, m, replied, res, sent := node.LoopOnce(buf);
    out := replied && res != CAN_GETTXBFTIMEOUT;
    if got {
      if out {
        ReplyStarted(node, res, sent, s.position, old(node.can.chip.log));
      }
      forall i | 0 <= i < |s.toArduino| && s.toArduino[i].m == m
        ensures Refines(s, ArduinoReceives(i, out), node.stepper_position, sent)
      {
        PassRefines(s, i, out, node.stepper_position, sent);
      }
    }
  }

  /** The step leads to that counter, and appends the transmitted reply to the frames for the Pi, or nothing. */
  ghost predicate Refines(s: State, a: Action, position: bv16, sent: Transmission) {
    && a.ArduinoReceives? && Enabled(s, a)
    && var t := Step(s, a);
    && t.position == position
    && (if a.out then
          && |sent.image| == 13
          && t.toPi == s.toPi + [Wire(DecodeMsg(sent.image), |s.replies|, 0)]
          && |t.replies| == |s.replies| + 1
        else t.toPi == s.toPi && t.replies == s.replies)
  }

  lemma PassRefines(s: State, i: nat, out: bool, position: bv16, sent: Transmission)
    requires i < |s.toArduino| && position == After(s.position, s.toArduino[i].m)
    requires out ==> IsRequest(s.toArduino[i].m)
    requires out ==> |sent.image| == 13 && DecodeMsg(sent.image) == PositionReply(s.position)
    ensures Refines(s, ArduinoReceives(i, out), position, sent)
  {
    hide After, IsRequest, DecodeMsg, PositionReply;
  }

  lemma ReplyStarted(node: Stepper, res: byte, sent: Transmission, position: bv16, before: seq<Event>)
    requires res != CAN_GETTXBFTIMEOUT && node.Transmitted(res, sent, PositionBytes(position), before)
    ensures |sent.image| == 13 && DecodeMsg(sent.image) == PositionReply(position)
  {
    hide PositionBytes, EncodeMsg, DecodeMsg, PositionReply;
    ReplyOverTheWire(position, sent.image);
  }
}
