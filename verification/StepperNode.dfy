/** The Arduino of `stepper_can.ino`: a modular position counter driven by, and reported over, CAN. */
module StepperNode {
  import opened IdBits
  import opened CanCodec
  import opened Mcp2515
  import opened McpChip
  import opened McpFacts
  import opened McpCan

  const CANID_STEPMSG: bv32 := 0x01
  const CANID_POSMSG: bv32 := 0x02
  const MAX_STEPS: bv16 := 1600  // 200 full steps of 1.8 degrees, 8 micro-steps each
  const STEPS_PER_TURN: int := 1600

  datatype StepDir = Fwd | Rev

  /** The position after one step. */
  function Turn(position: bv16, dir: StepDir): bv16 {
    match dir
    case Fwd => if position == MAX_STEPS - 1 then 0 else position + 1
    case Rev => if position == 0 then MAX_STEPS - 1 else position - 1
  }

  lemma Increment(p: bv16)
    requires p < 1600
    ensures (p + 1) as int == p as int + 1
  {
  }

  lemma Decrement(p: bv16)
    requires 0 < p < 1600
    ensures (p - 1) as int == p as int - 1
  {
    var q: bv16 := p - 1;
    Increment(q);
  }

  lemma InRange(p: bv16)
    ensures p < 1600 <==> p as int < 1600
  {
  }

  lemma AtEnds(p: bv16)
    ensures p == 1599 <==> p as int == 1599
    ensures p == 0 <==> p as int == 0
  {
  }

  lemma ForwardValue(p: bv16)
    requires p < 1600
    ensures Turn(p, Fwd) < 1600
    ensures Turn(p, Fwd) as int == if p as int == 1599 then 0 else p as int + 1
  {
    AtEnds(p);
    if p != 1599 {
      Increment(p);
    }
  }

  lemma ReverseValue(p: bv16)
    requires p < 1600
    ensures Turn(p, Rev) < 1600
    ensures Turn(p, Rev) as int == if p as int == 0 then 1599 else p as int - 1
  {
    AtEnds(p);
    if p != 0 {
      Decrement(p);
    }
  }

  /** A step is an addition modulo the steps of one turn. */
  lemma TurnIsModular(position: bv16, dir: StepDir)
    requires position < MAX_STEPS
    ensures Turn(position, dir) < MAX_STEPS
    ensures Turn(position, dir) as int == (position as int + (if dir == Fwd then 1 else -1)) % STEPS_PER_TURN
  {
    hide Turn;
    InRange(position);
    match dir
    case Fwd => ForwardValue(position);
    case Rev => ReverseValue(position);
  }

  /** The payload of a position message: big endian. */
  function PositionBytes(position: bv16): (bytes: seq<byte>)
    ensures |bytes| == 2
  {
    [((position >> 8) & 0xFF) as byte, (position & 0xFF) as byte]
  }

  /** The step a received message asks for; neither the remote flag nor the frame format matters. */
  function StepOf(m: Message): int {
    if m.id == CANID_STEPMSG && m.len == 1 && |m.data| >= 1 then
      if m.data[0] == 0x01 then 1 else if m.data[0] == 0x02 then -1 else 0
    else 0
  }

  /** A remote request for the position. */
  predicate IsRequest(m: Message) {
    m.id == CANID_POSMSG && m.len == 2 && m.rtr != 0
  }

  /** The counter after a message. */
  function After(position: bv16, m: Message): bv16 {
    if StepOf(m) == 1 then Turn(position, Fwd) else if StepOf(m) == -1 then Turn(position, Rev) else position
  }

  /**
   The counter after a message, in numbers: byte 0x01 of a one-byte message with identifier 1 is a step
   forward, 0x02 a step in reverse, modulo the 1600 positions; nothing else moves it.
   */
  ghost predicate Moved(before: bv16, m: Message, after: bv16) {
    after as int ==
      if m.id == 1 && m.len == 1 && |m.data| >= 1 && m.data[0] == 0x01 then (before as int + 1) % 1600
      else if m.id == 1 && m.len == 1 && |m.data| >= 1 && m.data[0] == 0x02 then (before as int - 1) % 1600
      else before as int
  }

  lemma AfterMoves(position: bv16, m: Message)
    requires position < MAX_STEPS
    ensures Moved(position, m, After(position, m))
  {
    hide Turn;
    TurnIsModular(position, Fwd);
    TurnIsModular(position, Rev);
  }

  /** A number from its high and its low byte. */
  function TwoBytes(high: byte, low: byte): bv16 {
    (high as bv16) * 256 + (low as bv16)
  }

  lemma PositionInBytes(position: bv16)
    ensures TwoBytes(PositionBytes(position)[0], PositionBytes(position)[1]) == position
  {
  }

  /** The bytes of a position message: standard identifier 2, two data bytes, the high one first. */
  ghost predicate ShowsPosition(image: seq<byte>, position: bv16) {
    && |image| == 13 && image[..5] == [0x00, 0x40, 0x00, 0x00, 0x02]
    && TwoBytes(image[5], image[6]) == position
  }

  lemma ReplyBytes(position: bv16, image: seq<byte>)
    requires |image| == 13 && EncodeMsg(CANID_POSMSG, 0, 0, 2, PositionBytes(position)) <= image
    ensures ShowsPosition(image, position)
  {
    hide PositionBytes, Encode, Dlc, TwoBytes;
    var data := PositionBytes(position);
    PositionInBytes(position);
    HeaderBytes();
    var bytes := EncodeMsg(CANID_POSMSG, 0, 0, 2, data);
    assert forall i :: 0 <= i < 7 ==> image[i] == bytes[i];
    assert bytes[5] == data[0] && bytes[6] == data[1];
  }

  lemma HeaderBytes()
    ensures Encode(0, CANID_POSMSG).Bytes() == [0x00, 0x40, 0x00, 0x00] && Dlc(2, 0) == 0x02
  {
  }

  class Stepper {
    const can: McpCan
    var stepper_position: bv16

    ghost predicate Valid()
      reads this, can, can.chip
    {
      can.Valid() && stepper_position < MAX_STEPS
    }

    constructor ()
      ensures Valid() && stepper_position == 0 && fresh(can) && fresh(can.chip)
    {
      can := new McpCan(MODE_NORMAL);
      stepper_position := 0;
    }

    method MakeStep(dir: StepDir)
      requires stepper_position < MAX_STEPS
      modifies `stepper_position
      ensures stepper_position == Turn(old(stepper_position), dir) && stepper_position < MAX_STEPS
    {
      match dir
      case Fwd =>
        if stepper_position == MAX_STEPS - 1 {
          stepper_position := 0;
        } else {
          stepper_position := stepper_position + 1;
        }
      case Rev =>
        if stepper_position == 0 {
          stepper_position := MAX_STEPS - 1;
        } else {
          stepper_position := stepper_position - 1;
        }
    }

    /** A standard data frame with the position; whether it got out is known to the caller of sendMsgBuf only. */
    method SendPosition() returns (res: byte, ghost sent: Transmission)
      requires Valid()
      modifies can.chip, can`can_id, can`ext_flg, can`rtr
      ensures Valid() && old(can.chip.arrived) <= can.chip.arrived
      ensures Transmitted(res, sent, PositionBytes(stepper_position), old(can.chip.log))
      ensures res != CAN_GETTXBFTIMEOUT ==> ShowsPosition(sent.image, stepper_position)
    {
      hide Bit, TxSafe, Untouched, PositionBytes, Offers, OffersNone, Encode, Linked, StatusOf, ControlOf;
      var buffer := PositionBytes(stepper_position);
      res, sent := can.SendMsg(CANID_POSMSG, 0, 0, 2, buffer, true);
      if res != CAN_GETTXBFTIMEOUT {
        ReplyBytes(stepper_position, sent.image);
      }
    }

    /** The transcript of sending a position: either a timeout without any load, or one load and one start. */
    ghost predicate Transmitted(res: byte, sent: Transmission, bytes: seq<byte>, before: seq<Event>)
      reads can.chip
      requires |bytes| == 2
    {
      var polled := before + PollEvents(sent.polls);
      if res == CAN_GETTXBFTIMEOUT then can.chip.log == polled
      else
        var coded := EncodeMsg(CANID_POSMSG, 0, 0, 2, bytes);
        && coded <= sent.image && |sent.image| == 13
        && can.chip.log ==
           polled + [Loaded(sent.n, false, coded), Started(sent.n, sent.image)] + CheckEvents(sent.n, sent.checks)
    }

    /** process_can_msg, on a message as read from the driver.  Exactly a two-byte remote request is answered. */
    method ProcessCanMsg(can_id: bv32, is_remote_req: byte, buffer: array<byte>, len: byte, ghost m: Message)
      returns (ghost replied: bool, ghost res: byte, ghost sent: Transmission)
      requires Valid() && buffer.Length >= MAX_CHARS
      requires m.id == can_id && m.rtr == is_remote_req && m.len == len
      requires |m.data| == DataCount(len) && m.data <= buffer[..]
      modifies `stepper_position, can.chip, can`can_id, can`ext_flg, can`rtr
      ensures Valid() && old(can.chip.arrived) <= can.chip.arrived
      ensures stepper_position == After(old(stepper_position), m)
      ensures Moved(old(stepper_position), m, stepper_position)
      ensures replied <==> IsRequest(m)
      ensures replied <==> can_id == 2 && len == 2 && is_remote_req != 0
      ensures replied ==> Transmitted(res, sent, PositionBytes(old(stepper_position)), old(can.chip.log))
      ensures !replied ==> can.chip.log == old(can.chip.log)
    {
      hide Bit, TxSafe, PositionBytes, Turn, McpCan.Valid, Moved;
      AfterMoves(stepper_position, m);
      replied, res, sent := false, 0, NothingSent();
      if can_id == CANID_STEPMSG {
        if len != 1 {
          return;
        }
        var direction := buffer[0];
        assert direction == m.data[0];
        if direction == 0x01 {
          MakeStep(Fwd);
        } else if direction == 0x02 {
          MakeStep(Rev);
        }
      }
      if can_id == CANID_POSMSG {
        if len != 2 {
          return;
        }
        if is_remote_req == 0 {
          return;
        }
        replied := true;
        var r;
        r, sent := SendPosition();
        res := r;
      }
    }

    /**
     One pass of the main loop.  When the driver announces a message, one of the frames that arrived is
     read for the first time, the counter follows it, and exactly a position request is answered, with
     the position at that moment.
     */
    method LoopOnce(buf: array<byte>)
      returns (got: bool, ghost k: nat, ghost m: Message,
               ghost replied: bool, ghost res: byte, ghost sent: Transmission)
      requires Valid() && buf.Length >= MAX_CHARS
      modifies `stepper_position, can.chip, can, buf
      ensures Valid()
      ensures old(RxFull(can.chip.regs, 0) || RxFull(can.chip.regs, 1)) ==> got
      ensures got ==> k !in old(can.delivered) && can.delivered == old(can.delivered) + {k}
      ensures got ==> k < |can.chip.arrived| && |can.chip.arrived[k]| == 13 && m == DecodeMsg(can.chip.arrived[k])
      ensures got ==> stepper_position == After(old(stepper_position), m) && (replied <==> IsRequest(m))
      ensures got ==> Moved(old(stepper_position), m, stepper_position)
      ensures got && replied ==> Transmitted(res, sent, PositionBytes(old(stepper_position)), old(can.chip.log))
      ensures !got ==> stepper_position == old(stepper_position) && can.delivered == old(can.delivered)
      ensures !(got && replied) ==> can.chip.log == old(can.chip.log)
    {
      hide Bit, TxSafe, PositionBytes, Turn, After, IsRequest, EncodeMsg, Encode, DecodeId, DecodeExt, RxFull, TxDone;
      hide Keeps, Image, InConfig;
      got, k, m, replied, res, sent := false, 0, Message(0, 0, 0, 0, []), false, 0, NothingSent();
      var available := can.CheckReceive();
      RelyRx(old(can.chip.regs), can.chip.regs);
      if available == CAN_MSGAVAIL {
        var r, len;
        r, len, k := can.ReadMsgBuf(buf);
        if r == CAN_OK {
          got := true;
          m := DecodeMsg(can.chip.arrived[k]);
          ghost var frames := can.chip.arrived;
          replied, res, sent := ProcessCanMsg(can.can_id, can.rtr, buf, len, m);
        }
      }
    }
  }

  function NothingSent(): Transmission {
    Transmission([], 0, [], [], [], [], [])
  }
}
