/**
 The register map, the instruction bytes and the transcripts of the driver written out in numbers, as the
 data sheet of the controller and `mcp_can_dfs.h` give them.  Each lemma ties a name used elsewhere to them.
 */
module Datasheet {
  import opened IdBits
  import opened CanCodec
  import opened Mcp2515
  import opened McpChip
  import opened McpFacts
  import opened McpCan

  // ---- registers

  /** Transmit buffer n: TXBnCTRL at 0x30, 0x40 and 0x50 with TXREQ in bit 3, TXnIF in bits 2 to 4 of CANINTF (0x2C). */
  lemma TransmitBuffer(r: Regs, n: nat)
    requires |r| == REGISTERS && n < N_TXBUFFERS
    ensures TxCtrl(n) == 0x30 + 16 * n
    ensures Pending(r, n) <==> r[0x30 + 16 * n] & 0x08 != 0
    ensures TxDone(r, n) <==> r[0x2C] & (if n == 0 then 0x04 else if n == 1 then 0x08 else 0x10) != 0
    ensures Image(r, TxCtrl(n) + 1) == r[0x31 + 16 * n..0x3E + 16 * n]
  {
  }

  /** Receive buffer n: from 0x61 and 0x71, RXnIF in bits 0 and 1 of CANINTF. */
  lemma ReceiveBuffer(r: Regs, n: nat)
    requires |r| == REGISTERS && n < N_RXBUFFERS
    ensures RxCtrl(n) == 0x60 + 16 * n && RxBuf(n) == 0x61 + 16 * n
    ensures RxFull(r, n) <==> r[0x2C] & (if n == 0 then 0x01 else 0x02) != 0
    ensures Image(r, RxBuf(n)) == r[0x61 + 16 * n..0x6E + 16 * n]
  {
  }

  /** The mode in the upper three bits of CANSTAT (0x0E), and the one requested in those of CANCTRL (0x0F). */
  lemma Modes(r: Regs)
    requires |r| == REGISTERS
    ensures Mode(r) == r[0x0E] & 0xE0 && Asked(r) == r[0x0F] & 0xE0
    ensures InConfig(r) <==> r[0x0E] & 0xE0 == 0x80 && r[0x0F] & 0xE0 == 0x80
  {
  }

  /** BIT MODIFY: data where the mask is set, the old bits elsewhere. */
  lemma BitModify(b: byte, mask: byte, data: byte)
    ensures Modify(b, mask, data) & mask == data & mask
    ensures Modify(b, mask, data) & !mask == b & !mask
  {
  }

  /** READ STATUS, bit by bit. */
  lemma StatusByte(r: Regs)
    requires |r| == REGISTERS
    ensures Bit(Status(r), 0x01) <==> r[0x2C] & 0x01 != 0
    ensures Bit(Status(r), 0x02) <==> r[0x2C] & 0x02 != 0
    ensures Bit(Status(r), 0x04) <==> r[0x30] & 0x08 != 0
    ensures Bit(Status(r), 0x08) <==> r[0x2C] & 0x04 != 0
    ensures Bit(Status(r), 0x10) <==> r[0x40] & 0x08 != 0
    ensures Bit(Status(r), 0x20) <==> r[0x2C] & 0x08 != 0
    ensures Bit(Status(r), 0x40) <==> r[0x50] & 0x08 != 0
    ensures Bit(Status(r), 0x80) <==> r[0x2C] & 0x10 != 0
  {
    hide Bit, Status, Pending, TxDone, RxFull;
    StatusBits(r);
    TransmitBuffer(r, 0);
    TransmitBuffer(r, 1);
    TransmitBuffer(r, 2);
    ReceiveBuffer(r, 0);
    ReceiveBuffer(r, 1);
    assert TxStatusPending(0) == 0x04 && TxStatusPending(1) == 0x10 && TxStatusPending(2) == 0x40;
    assert RxIf(0) == 0x01 && RxIf(1) == 0x02;
  }

  /** TXREQ of transmit buffer n: bit 3 of register 0x30, 0x40 or 0x50. */
  predicate Sending(r: Regs, n: nat)
    requires |r| == REGISTERS && n < 3
  {
    r[0x30 + 16 * n] & 0x08 != 0
  }

  /** The buffer that sending picks: the lowest one below the reserved ones whose TXREQ is clear. */
  lemma LowestFree(r: Regs, reserved: nat, n: nat)
    requires |r| == REGISTERS
    ensures Offers(Status(r), reserved, n) <==>
      n + reserved < 3 && !Sending(r, n) && forall m: nat :: m < n ==> Sending(r, m)
    ensures OffersNone(Status(r), reserved) <==> forall m: nat :: m + reserved < 3 ==> Sending(r, m)
  {
    hide Bit, Status, Pending, Sending, TxStatusPending;
    var s := Status(r);
    StatusBits(r);
    forall m: nat | m < 3
      ensures Bit(s, TxStatusPending(m)) <==> Sending(r, m)
    {
      SendingIsPending(r, m);
    }
    if Offers(s, reserved, n) {
      forall m: nat | m < n
        ensures Sending(r, m)
      {
        assert Bit(s, TxStatusPending(m));
      }
    }
    if OffersNone(s, reserved) {
      forall m: nat | m + reserved < 3
        ensures Sending(r, m)
      {
        assert Bit(s, TxStatusPending(m));
      }
    }
  }

  lemma SendingIsPending(r: Regs, n: nat)
    requires |r| == REGISTERS && n < N_TXBUFFERS
    ensures Sending(r, n) <==> Pending(r, n)
  {
    TransmitBuffer(r, n);
  }

  // ---- instructions and flags

  lemma Instructions(n: nat)
    requires n < N_TXBUFFERS
    ensures TxSidhToTxLoad(0x31 + 16 * n) == LoadInstruction(n) == [0x40, 0x42, 0x44][n]
    ensures TxSidhToRts(0x31 + 16 * n) == RtsInstruction(n) == [0x81, 0x82, 0x84][n]
    ensures TxIf(n) == [0x04, 0x08, 0x10][n] && StatusToTxSidh([0x04, 0x08, 0x10][n]) == 0x31 + 16 * n
    ensures TxStatusPending(n) == [0x04, 0x10, 0x40][n]
  {
  }

  /** Six filters and two masks, four registers each. */
  lemma FilterRegisters(r: Regs, g: nat)
    requires |r| == REGISTERS && g < GROUPS
    ensures var at := [0x00, 0x04, 0x08, 0x10, 0x14, 0x18, 0x20, 0x24][g]; Group(r, g) == r[at..at + 4]
  {
  }

  /** What mcp2515_initCANBuffers writes to. */
  lemma ZeroedOnes(a: nat)
    ensures a in ZeroedRegisters() <==>
      0x30 <= a <= 0x3D || 0x40 <= a <= 0x4D || 0x50 <= a <= 0x5D || a == 0x60 || a == 0x70
  {
  }

  /** The speed and clock that `stepper_can.ino` asks for, 250 kbit/s (15) at 8 MHz (2), is supported. */
  lemma StepperSpeed()
    ensures Supported(15, 2)
  {
  }

  // ---- transcripts

  /** The five courses of mcp2515_setCANCTRL_Mode. */
  lemma ModeCourses(c: ModeChange)
    requires c.Proper()
    ensures c.seen != 0x20 || c.newmode == 0x20 ==>
      c.Events() == [ModeSeen(c.seen), WakeFlag(c.lowered), ModeAsked(c.newmode, c.reached, c.ms)]
    ensures c.seen == 0x20 && c.newmode != 0x20 && c.woke && c.intOn ==>
      c.Events() == [ModeSeen(0x20), WakeFlag(c.raised), ModeAsked(0x60, true, c.wakeMs),
                     WakeFlag(c.lowered), ModeAsked(c.newmode, c.reached, c.ms)]
    ensures c.seen == 0x20 && c.newmode != 0x20 && c.woke && !c.intOn ==>
      c.Events() == [ModeSeen(0x20), WakeInterrupt(true), WakeFlag(c.raised), ModeAsked(0x60, true, c.wakeMs),
                     WakeInterrupt(false), WakeFlag(c.lowered), ModeAsked(c.newmode, c.reached, c.ms)]
    ensures c.seen == 0x20 && c.newmode != 0x20 && !c.woke && c.intOn ==>
      c.Events() == [ModeSeen(0x20), WakeFlag(c.raised), ModeAsked(0x60, false, c.wakeMs)]
    ensures c.seen == 0x20 && c.newmode != 0x20 && !c.woke && !c.intOn ==>
      c.Events() == [ModeSeen(0x20), WakeInterrupt(true), WakeFlag(c.raised), ModeAsked(0x60, false, c.wakeMs)]
  {
    hide Bit;
  }

  /** The wake flag (bit 6 of CANINTF) as it was written, and the time limit of 200 ms. */
  lemma ModeFlags(c: ModeChange)
    requires c.Proper()
    ensures c.seen == 0x20 && c.newmode != 0x20 ==> c.raised & 0x40 != 0
    ensures c.seen == 0x20 && c.newmode != 0x20 && !c.woke ==> !c.reached && c.wakeMs > 200
    ensures c.seen != 0x20 || c.newmode == 0x20 || c.woke ==> c.lowered & 0x40 == 0 && (!c.reached ==> c.ms > 200)
  {
  }

  /** The registers after a mode change: CANSTAT, CANCTRL, and the wake-up bit of CANINTE (0x2B). */
  lemma ModeRegisters(c: ModeChange, r: Regs, t: Regs)
    requires |r| == |t| == REGISTERS && ModeEffect(c, r, t) && c.Proper()
    ensures c.intOn <==> r[0x2B] & 0x40 != 0
    ensures c.reached ==> t[0x0E] & 0xE0 == c.newmode
    ensures c.seen == 0x20 && c.newmode != 0x20 && !c.woke && !c.intOn ==> t[0x2B] == r[0x2B] | 0x40
    ensures !(c.seen == 0x20 && c.newmode != 0x20 && !c.woke && !c.intOn) ==> t[0x2B] == r[0x2B]
    ensures t[0x0F] & 0xE0 == if c.seen == 0x20 && c.newmode != 0x20 && !c.woke then 0x60 else c.newmode & 0xE0
  {
    hide Keeps;
    OrIsModify(r[0x2B]);
    Modes(t);
    assert And(0x60, 0xE0) == 0x60;
  }

  lemma OrIsModify(b: byte)
    ensures Modify(b, 0x40, 0x40) == b | 0x40
  {
  }

  /** The set-up of begin: CNF1 to CNF3, the zeroes, then CANINTE, RXB0CTRL and RXB1CTRL. */
  lemma SetUpCourse(cfg: Rate, zeroes: seq<Event>)
    ensures InitEvents(cfg, zeroes) ==
      [Modified(0x2A, 0xFF, cfg.cnf1), Modified(0x29, 0xFF, cfg.cnf2), Modified(0x28, 0xFF, cfg.cnf3)]
      + zeroes
      + [Modified(0x2B, 0xFF, 0x03), Modified(0x60, 0x64, 0x04), Modified(0x70, 0x60, 0x00)]
  {
  }

  /** One event per reading. */
  lemma Readings(polls: seq<byte>, checks: seq<byte>, n: nat, i: nat)
    ensures |PollEvents(polls)| == |polls| && |CheckEvents(n, checks)| == |checks|
    ensures i < |polls| ==> PollEvents(polls)[i] == Polled(polls[i])
    ensures i < |checks| ==> CheckEvents(n, checks)[i] == Checked(n, checks[i])
  {
  }

  /** The loops of sendMsg make 50 readings at most, and time out after 49 in vain. */
  lemma FiftyReadings(polls: seq<byte>, checks: seq<byte>, reserved: nat)
    ensures PollsRunOut(polls, reserved) <==>
      |polls| >= 49 && forall i :: 0 <= i < 49 ==> OffersNone(polls[i], reserved)
    ensures ChecksRunOut(checks) <==> |checks| >= 49 && forall i :: 0 <= i < 49 ==> checks[i] & 0x08 != 0
  {
    hide OffersNone;
  }
}
