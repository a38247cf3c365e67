/**
 The MCP2515 controller as `mcp_can.cpp` sees it over SPI: 128 registers that the chip itself may change
 between two SPI transactions.  What the chip may do is a relation on register files (`Rely`); which of
 the permitted changes happens is left open.
 */
module Mcp2515 {
  import opened IdBits
  import opened CanCodec

  // Registers
  const CANSTAT: nat := 0x0E
  const CANCTRL: nat := 0x0F
  const CANINTE: nat := 0x2B
  const CANINTF: nat := 0x2C
  const RXB0CTRL: nat := 0x60
  const RXB1CTRL: nat := 0x70
  const REGISTERS: nat := 128

  // Bits
  const TXREQ: byte := 0x08
  const WAKIF: byte := 0x40
  const MODE_MASK: byte := 0xE0
  const N_TXBUFFERS: nat := 3
  const N_RXBUFFERS: nat := 2

  // Modes, as in CANSTAT and CANCTRL
  const MODE_NORMAL: byte := 0x00
  const MODE_SLEEP: byte := 0x20
  const MODE_LISTENONLY: byte := 0x60
  const MODE_CONFIG: byte := 0x80

  predicate Bit(b: byte, mask: byte) {
    b & mask != 0
  }

  /** The effect of the BIT MODIFY instruction. */
  function Modify(b: byte, mask: byte, data: byte): byte {
    (b & !mask) | (data & mask)
  }

  function WithBit(b: byte, mask: byte): byte {
    b | mask
  }

  /** txCtrlReg. */
  function TxCtrl(n: nat): nat {
    if n == 0 then 0x30 else if n == 1 then 0x40 else 0x50
  }

  /** txIfFlag, for a buffer index. */
  function TxIf(n: nat): byte {
    if n == 0 then 0x04 else if n == 1 then 0x08 else if n == 2 then 0x10 else 0
  }

  /** txStatusPendingFlag. */
  function TxStatusPending(n: nat): byte {
    if n == 0 then 0x04 else if n == 1 then 0x10 else if n == 2 then 0x40 else 0xFF
  }

  function RxIf(n: nat): byte {
    if n == 0 then 0x01 else 0x02
  }

  function RxBuf(n: nat): nat {
    if n == 0 then 0x61 else 0x71
  }

  // ---- what the registers mean

  type Regs = seq<byte>

  predicate Pending(r: Regs, n: nat)
    requires |r| == REGISTERS && n < N_TXBUFFERS
  {
    Bit(r[TxCtrl(n)], TXREQ)
  }

  predicate TxDone(r: Regs, n: nat)
    requires |r| == REGISTERS
  {
    Bit(r[CANINTF], TxIf(n))
  }

  predicate RxFull(r: Regs, n: nat)
    requires |r| == REGISTERS
  {
    Bit(r[CANINTF], RxIf(n))
  }

  /** The mode last requested, which the chip need not be in. */
  function Asked(r: Regs): byte
    requires |r| == REGISTERS
  {
    And(r[CANCTRL], MODE_MASK)
  }

  function Mode(r: Regs): byte
    requires |r| == REGISTERS
  {
    And(r[CANSTAT], MODE_MASK)
  }

  /** The 13 bytes of a transmit or receive buffer, from SIDH to the last data byte. */
  function Image(r: Regs, at: nat): (bytes: seq<byte>)
    requires |r| == REGISTERS && at + 13 <= REGISTERS
    ensures |bytes| == 13
  {
    r[at..at + 13]
  }

  function Flag(b: bool, mask: byte): byte {
    if b then mask else 0
  }

  /** The answer to the READ STATUS instruction. */
  function Status(r: Regs): byte
    requires |r| == REGISTERS
  {
    Flag(RxFull(r, 0), 0x01) | Flag(RxFull(r, 1), 0x02)
    | Flag(Pending(r, 0), 0x04) | Flag(TxDone(r, 0), 0x08)
    | Flag(Pending(r, 1), 0x10) | Flag(TxDone(r, 1), 0x20)
    | Flag(Pending(r, 2), 0x40) | Flag(TxDone(r, 2), 0x80)
  }

  lemma FlagsOf(a: bool, b: bool, c: bool, d: bool, e: bool, f: bool, g: bool, h: bool)
    ensures var s := Flag(a, 0x01) | Flag(b, 0x02) | Flag(c, 0x04) | Flag(d, 0x08)
                   | Flag(e, 0x10) | Flag(f, 0x20) | Flag(g, 0x40) | Flag(h, 0x80);
      && (Bit(s, 0x01) <==> a) && (Bit(s, 0x02) <==> b) && (Bit(s, 0x04) <==> c) && (Bit(s, 0x08) <==> d)
      && (Bit(s, 0x10) <==> e) && (Bit(s, 0x20) <==> f) && (Bit(s, 0x40) <==> g) && (Bit(s, 0x80) <==> h)
      && (And(s, 0x54) == 0x54 <==> c && e && g)
      && (Bit(s, 0x03) <==> a || b)
  {
  }

  lemma StatusBits(r: Regs)
    requires |r| == REGISTERS
    ensures forall n :: 0 <= n < N_TXBUFFERS ==> (Bit(Status(r), TxStatusPending(n)) <==> Pending(r, n))
    ensures Bit(Status(r), 0x08) <==> TxDone(r, 0)
    ensures Bit(Status(r), 0x20) <==> TxDone(r, 1)
    ensures Bit(Status(r), 0x80) <==> TxDone(r, 2)
    ensures forall n :: 0 <= n < N_RXBUFFERS ==> (Bit(Status(r), RxIf(n)) <==> RxFull(r, n))
    ensures And(Status(r), 0x54) == 0x54 <==> Pending(r, 0) && Pending(r, 1) && Pending(r, 2)
    ensures Bit(Status(r), 0x03) <==> RxFull(r, 0) || RxFull(r, 1)
  {
    hide Bit, Flag, And, Pending, TxDone, RxFull;
    FlagsOf(RxFull(r, 0), RxFull(r, 1), Pending(r, 0), TxDone(r, 0),
            Pending(r, 1), TxDone(r, 1), Pending(r, 2), TxDone(r, 2));
  }

  // ---- what the chip may do on its own

  /**
   Transmit buffer n: a pending transmission may end, with the interrupt flag set if it was completed and
   without it if it was abandoned.  The flag is set in no other way, and the chip neither starts a
   transmission nor writes to the buffer.
   */
  predicate TxRely(r: Regs, t: Regs, n: nat)
    requires |r| == |t| == REGISTERS && n < N_TXBUFFERS
  {
    && (Pending(t, n) ==> Pending(r, n))
    && (TxDone(r, n) ==> TxDone(t, n))
    && (TxDone(t, n) && !TxDone(r, n) ==> Pending(r, n) && !Pending(t, n))
    && (!Pending(r, n) ==> t[TxCtrl(n)] == r[TxCtrl(n)])
    && Image(t, TxCtrl(n) + 1) == Image(r, TxCtrl(n) + 1)
  }

  /** Receive buffer n: a frame may arrive only while the buffer is empty. */
  predicate RxRely(r: Regs, t: Regs, n: nat)
    requires |r| == |t| == REGISTERS && n < N_RXBUFFERS
  {
    RxFull(r, n) ==> RxFull(t, n) && Image(t, RxBuf(n)) == Image(r, RxBuf(n))
  }

  /** Filters, masks and bit timing. */
  predicate IsConfig(a: nat) {
    a <= 0x0B || 0x10 <= a <= 0x1B || 0x20 <= a <= 0x2A
  }

  predicate ConfigSame(r: Regs, t: Regs)
    requires |r| == |t| == REGISTERS
  {
    && (forall a :: 0 <= a < REGISTERS && IsConfig(a) ==> t[a] == r[a])
    && And(t[RXB0CTRL], 0x64) == And(r[RXB0CTRL], 0x64)
    && And(t[RXB1CTRL], 0x60) == And(r[RXB1CTRL], 0x60)
  }

  /** Mode, control, error and wake-up registers may hold anything afterwards. */
  predicate Keeps(r: Regs, t: Regs)
    requires |r| == |t| == REGISTERS
  {
    && TxRely(r, t, 0) && TxRely(r, t, 1) && TxRely(r, t, 2)
    && RxRely(r, t, 0) && RxRely(r, t, 1)
    && ConfigSame(r, t)
  }

  /** The chip is in configuration mode, and this mode was the last one requested. */
  predicate InConfig(r: Regs)
    requires |r| == REGISTERS
  {
    Mode(r) == MODE_CONFIG == Asked(r)
  }

  /**
   The interrupt enables and the requested mode are for the driver to change, and the chip does not leave
   configuration mode unasked.
   */
  predicate Rely(r: Regs, t: Regs)
    requires |r| == |t| == REGISTERS
  {
    && Keeps(r, t)
    && t[CANINTE] == r[CANINTE] && t[CANCTRL] == r[CANCTRL]
    && (InConfig(r) ==> InConfig(t))
  }

  lemma KeepsRefl(r: Regs)
    requires |r| == REGISTERS
    ensures Keeps(r, r)
  {
    hide Bit, Image;
  }

  lemma TxRelyTrans(r: Regs, s: Regs, t: Regs, n: nat)
    requires |r| == |s| == |t| == REGISTERS && n < N_TXBUFFERS
    requires TxRely(r, s, n) && TxRely(s, t, n)
    ensures TxRely(r, t, n)
  {
    hide Bit, Image;
  }

  lemma KeepsTrans(r: Regs, s: Regs, t: Regs)
    requires |r| == |s| == |t| == REGISTERS
    requires Keeps(r, s) && Keeps(s, t)
    ensures Keeps(r, t)
  {
    hide Bit, Image, And, TxRely, RxFull;
    TxRelyTrans(r, s, t, 0);
    TxRelyTrans(r, s, t, 1);
    TxRelyTrans(r, s, t, 2);
  }

  lemma RelyRefl(r: Regs)
    requires |r| == REGISTERS
    ensures Rely(r, r)
  {
    KeepsRefl(r);
  }

  lemma RelyTrans(r: Regs, s: Regs, t: Regs)
    requires |r| == |s| == |t| == REGISTERS
    requires Rely(r, s) && Rely(s, t)
    ensures Rely(r, t)
  {
    hide Keeps, InConfig;
    KeepsTrans(r, s, t);
  }

  /** Each register file follows from the one before, by what the chip does on its own; `r` comes first. */
  ghost predicate Linked(r: Regs, files: seq<Regs>) {
    && |r| == REGISTERS
    && (forall i :: 0 <= i < |files| ==> |files[i]| == REGISTERS)
    && (forall i :: 0 <= i < |files| ==> Rely(Before(r, files, i), files[i]))
  }

  function Before(r: Regs, files: seq<Regs>, i: nat): Regs
    requires i <= |files|
  {
    if i == 0 then r else files[i - 1]
  }

  lemma LinkedPush(r: Regs, files: seq<Regs>, t: Regs)
    requires Linked(r, files) && |t| == REGISTERS
    requires Rely(Before(r, files, |files|), t)
    ensures Linked(r, files + [t])
  {
    hide Rely;
    var longer := files + [t];
    forall i | 0 <= i < |longer|
      ensures Rely(Before(r, longer, i), longer[i])
    {
      if i < |files| {
        assert Rely(Before(r, files, i), files[i]);
      }
    }
  }

  /** A pending transmission completes: the request is withdrawn and the interrupt flag set. */
  function Complete(r: Regs, n: nat): (t: Regs)
    requires |r| == REGISTERS && n < N_TXBUFFERS
    ensures |t| == REGISTERS
  {
    r[TxCtrl(n) := Modify(r[TxCtrl(n)], TXREQ, 0)][CANINTF := WithBit(r[CANINTF], TxIf(n))]
  }

  lemma WithBitOther(b: byte, mask: byte, other: byte)
    requires And(mask, other) == 0
    ensures Bit(WithBit(b, mask), other) <==> Bit(b, other)
  {
  }

  lemma CompleteFlags(r: Regs, n: nat)
    requires |r| == REGISTERS && n < N_TXBUFFERS
    ensures !Pending(Complete(r, n), n) && TxDone(Complete(r, n), n)
    ensures forall m :: 0 <= m < N_TXBUFFERS && m != n ==>
      (TxDone(Complete(r, n), m) <==> TxDone(r, m)) && (Pending(Complete(r, n), m) <==> Pending(r, m))
    ensures forall m :: 0 <= m < N_RXBUFFERS ==> (RxFull(Complete(r, n), m) <==> RxFull(r, m))
  {
    hide Bit, And, Modify, TxIf, RxIf, WithBit;
    FlagMasks();
    FlagsNotZero();
    ModifyClears(r[TxCtrl(n)], TXREQ);
    WithBitSets(r[CANINTF], TxIf(n));
    forall m | 0 <= m < N_TXBUFFERS && m != n
      ensures TxDone(Complete(r, n), m) <==> TxDone(r, m)
    {
      WithBitOther(r[CANINTF], TxIf(n), TxIf(m));
    }
    forall m | 0 <= m < N_RXBUFFERS
      ensures RxFull(Complete(r, n), m) <==> RxFull(r, m)
    {
      WithBitOther(r[CANINTF], TxIf(n), RxIf(m));
    }
  }

  lemma FlagsNotZero()
    ensures forall n :: 0 <= n < N_TXBUFFERS ==> TxIf(n) != 0
  {
  }

  lemma CompleteIsAllowed(r: Regs, n: nat)
    requires |r| == REGISTERS && n < N_TXBUFFERS && Pending(r, n)
    ensures Rely(r, Complete(r, n))
  {
    hide Bit, And, Modify, TxIf, RxIf, WithBit;
    var t := Complete(r, n);
    CompleteFlags(r, n);
    SameImage(r, t, 0x31);
    SameImage(r, t, 0x41);
    SameImage(r, t, 0x51);
    SameImage(r, t, 0x61);
    SameImage(r, t, 0x71);
  }

  // ---- the transmit invariant

  /** A set interrupt flag means the buffer is not pending. */
  predicate TxSafe(r: Regs)
    requires |r| == REGISTERS
  {
    forall n :: 0 <= n < N_TXBUFFERS && TxDone(r, n) ==> !Pending(r, n)
  }

  /** Neither pending nor flagged: the chip leaves such a buffer alone. */
  predicate Idle(r: Regs, n: nat)
    requires |r| == REGISTERS && n < N_TXBUFFERS
  {
    !Pending(r, n) && !TxDone(r, n)
  }

  lemma ChipKeepsTxSafe(r: Regs, t: Regs)
    requires |r| == |t| == REGISTERS && Keeps(r, t) && TxSafe(r)
    ensures TxSafe(t)
  {
    hide Bit, Image, RxRely, ConfigSame;
    forall n | 0 <= n < N_TXBUFFERS && TxDone(t, n)
      ensures !Pending(t, n)
    {
      assert TxRely(r, t, n);
    }
  }

  lemma ChipKeepsIdle(r: Regs, t: Regs, n: nat)
    requires |r| == |t| == REGISTERS && n < N_TXBUFFERS && Keeps(r, t) && Idle(r, n)
    ensures Idle(t, n)
  {
    hide Bit, Image, RxRely, ConfigSame;
    assert TxRely(r, t, n);
  }

  // ---- what the instructions of the driver do to the registers

  /** Bytes written from an address on, with the automatic address increment. */
  function Patch(r: Regs, at: nat, bytes: seq<byte>): (t: Regs)
    requires |r| == REGISTERS && at + |bytes| <= REGISTERS
    ensures |t| == REGISTERS
    ensures forall a :: 0 <= a < REGISTERS ==> t[a] == if at <= a < at + |bytes| then bytes[a - at] else r[a]
  {
    r[..at] + bytes + r[at + |bytes|..]
  }

  lemma ModifyOther(b: byte, mask: byte, data: byte, other: byte)
    requires And(mask, other) == 0
    ensures Bit(Modify(b, mask, data), other) <==> Bit(b, other)
  {
  }

  lemma ModifyClears(b: byte, mask: byte)
    ensures !Bit(Modify(b, mask, 0), mask)
  {
  }

  lemma WithBitSets(b: byte, mask: byte)
    requires mask != 0
    ensures Bit(WithBit(b, mask), mask)
  {
  }

  /** The flag masks of CANINTF do not overlap. */
  lemma FlagMasks()
    ensures forall n, m :: 0 <= n < N_TXBUFFERS && 0 <= m < N_TXBUFFERS && n != m ==> And(TxIf(n), TxIf(m)) == 0
    ensures forall n, m :: 0 <= n < N_TXBUFFERS && 0 <= m < N_RXBUFFERS ==> And(TxIf(n), RxIf(m)) == 0
    ensures forall n :: 0 <= n < N_TXBUFFERS ==> And(WAKIF, TxIf(n)) == 0
    ensures forall n :: 0 <= n < N_RXBUFFERS ==> And(WAKIF, RxIf(n)) == 0
    ensures forall n, m :: 0 <= n < N_RXBUFFERS && 0 <= m < N_TXBUFFERS ==> And(RxIf(n), TxIf(m)) == 0
    ensures And(RxIf(0), RxIf(1)) == 0 && And(RxIf(1), RxIf(0)) == 0
  {
  }

  /** Everything but the interrupt flags of transmit buffer n, and the flag only cleared. */
  function ClearTxFlag(r: Regs, n: nat): (t: Regs)
    requires |r| == REGISTERS
    ensures |t| == REGISTERS
  {
    r[CANINTF := Modify(r[CANINTF], TxIf(n), 0)]
  }

  lemma ClearTxFlagEffect(r: Regs, n: nat)
    requires |r| == REGISTERS && n < N_TXBUFFERS
    ensures !TxDone(ClearTxFlag(r, n), n)
    ensures forall m :: 0 <= m < N_TXBUFFERS && m != n ==> (TxDone(ClearTxFlag(r, n), m) <==> TxDone(r, m))
    ensures forall m :: 0 <= m < N_RXBUFFERS ==> (RxFull(ClearTxFlag(r, n), m) <==> RxFull(r, m))
    ensures forall m :: 0 <= m < N_TXBUFFERS ==> (Pending(ClearTxFlag(r, n), m) <==> Pending(r, m))
  {
    hide Bit, And, Modify, TxIf, RxIf;
    FlagMasks();
    var b := r[CANINTF];
    ModifyClears(b, TxIf(n));
    forall m | 0 <= m < N_TXBUFFERS && m != n
      ensures Bit(Modify(b, TxIf(n), 0), TxIf(m)) <==> Bit(b, TxIf(m))
    {
      ModifyOther(b, TxIf(n), 0, TxIf(m));
    }
    forall m | 0 <= m < N_RXBUFFERS
      ensures Bit(Modify(b, TxIf(n), 0), RxIf(m)) <==> Bit(b, RxIf(m))
    {
      ModifyOther(b, TxIf(n), 0, RxIf(m));
    }
  }

  /** Setting or clearing the wake flag is within what the chip itself may do. */
  lemma WakeFlagKeeps(r: Regs, data: byte)
    requires |r| == REGISTERS
    ensures Keeps(r, r[CANINTF := Modify(r[CANINTF], WAKIF, data)])
  {
    hide Bit, And, Modify, TxIf, RxIf, TxCtrl, RxBuf;
    FlagMasks();
    var b := r[CANINTF];
    var t := r[CANINTF := Modify(b, WAKIF, data)];
    forall n | 0 <= n < N_TXBUFFERS
      ensures TxDone(t, n) <==> TxDone(r, n)
    {
      ModifyOther(b, WAKIF, data, TxIf(n));
    }
    forall n | 0 <= n < N_RXBUFFERS
      ensures RxFull(t, n) <==> RxFull(r, n)
    {
      ModifyOther(b, WAKIF, data, RxIf(n));
    }
    SameBuffers(r, t);
  }

  /** A register file that differs in a control register only. */
  lemma ControlKeeps(r: Regs, a: nat, v: byte)
    requires |r| == REGISTERS && (a == CANCTRL || a == CANINTE)
    ensures Keeps(r, r[a := v])
  {
    hide Bit, And, TxIf, RxIf;
    SameBuffers(r, r[a := v]);
  }

  lemma SameBuffers(r: Regs, t: Regs)
    requires |r| == |t| == REGISTERS
    requires forall a :: 0 <= a < REGISTERS && a != CANINTF && a != CANINTE && a != CANCTRL ==> t[a] == r[a]
    requires forall n :: 0 <= n < N_TXBUFFERS ==> (TxDone(t, n) <==> TxDone(r, n))
    requires forall n :: 0 <= n < N_RXBUFFERS ==> (RxFull(t, n) <==> RxFull(r, n))
    ensures Keeps(r, t)
  {
    hide Bit, And, TxIf, RxIf;
    SameImage(r, t, 0x31);
    SameImage(r, t, 0x41);
    SameImage(r, t, 0x51);
    SameImage(r, t, 0x61);
    SameImage(r, t, 0x71);
  }

  lemma SameImage(r: Regs, t: Regs, at: nat)
    requires |r| == |t| == REGISTERS && at + 13 <= REGISTERS
    requires forall a :: at <= a < at + 13 ==> t[a] == r[a]
    ensures Image(t, at) == Image(r, at)
  {
  }

  /** Loading transmit buffer n changes no flag, no control register and no other buffer. */
  lemma LoadEffect(r: Regs, n: nat, bytes: seq<byte>)
    requires |r| == REGISTERS && n < N_TXBUFFERS && |bytes| <= 13
    ensures var t := Patch(r, TxCtrl(n) + 1, bytes);
      && (forall m :: 0 <= m < N_TXBUFFERS ==> t[TxCtrl(m)] == r[TxCtrl(m)])
      && t[CANINTF] == r[CANINTF] && t[CANINTE] == r[CANINTE]
      && (forall m :: 0 <= m < N_RXBUFFERS ==> Image(t, RxBuf(m)) == Image(r, RxBuf(m)))
      && ConfigSame(r, t)
      && bytes <= Image(t, TxCtrl(n) + 1)
  {
    hide Bit, And;
    var t := Patch(r, TxCtrl(n) + 1, bytes);
    SameImage(r, t, RxBuf(0));
    SameImage(r, t, RxBuf(1));
  }

  /** The request-to-send instruction for buffer n. */
  function StartSend(r: Regs, n: nat): (t: Regs)
    requires |r| == REGISTERS
    ensures |t| == REGISTERS
  {
    r[TxCtrl(n) := WithBit(r[TxCtrl(n)], TXREQ)]
  }

  lemma StartSendEffect(r: Regs, n: nat)
    requires |r| == REGISTERS && n < N_TXBUFFERS && TxSafe(r) && !TxDone(r, n)
    ensures TxSafe(StartSend(r, n)) && Pending(StartSend(r, n), n)
    ensures ConfigSame(r, StartSend(r, n)) && StartSend(r, n)[CANINTE] == r[CANINTE]
    ensures StartSend(r, n)[CANINTF] == r[CANINTF]
    ensures forall m :: 0 <= m < N_RXBUFFERS ==> Image(StartSend(r, n), RxBuf(m)) == Image(r, RxBuf(m))
  {
    hide Bit, And, WithBit, TxIf;
    WithBitSets(r[TxCtrl(n)], TXREQ);
    forall m | 0 <= m < N_TXBUFFERS && TxDone(StartSend(r, n), m)
      ensures !Pending(StartSend(r, n), m)
    {
      assert TxDone(r, m);
    }
  }

  // ---- what sending leaves alone

  predicate Untouched(r: Regs, t: Regs)
    requires |r| == |t| == REGISTERS
  {
    RxRely(r, t, 0) && RxRely(r, t, 1) && ConfigSame(r, t) && t[CANINTE] == r[CANINTE]
  }

  // ---- what writing to some registers leaves alone

  /** Registers that the chip itself never changes: filters, masks, timing, contents of transmit buffers. */
  predicate IsSteady(a: nat) {
    IsConfig(a) || 0x31 <= a < 0x3E || 0x41 <= a < 0x4E || 0x51 <= a < 0x5E
  }

  /** No transmission was started, and flags are as the chip leaves them. */
  predicate FlagsFollow(r: Regs, t: Regs)
    requires |r| == |t| == REGISTERS
  {
    forall n :: 0 <= n < N_TXBUFFERS ==>
      && (Pending(t, n) ==> Pending(r, n))
      && (TxDone(r, n) ==> TxDone(t, n))
      && (TxDone(t, n) && !TxDone(r, n) ==> Pending(r, n))
  }

  /** Whatever the driver wrote to the registers in `ws`, and the chip did meanwhile, nothing else was changed. */
  ghost predicate Apart(r: Regs, t: Regs, ws: set<nat>)
    requires |r| == |t| == REGISTERS
  {
    && (forall a :: 0 <= a < REGISTERS && IsSteady(a) && a !in ws ==> t[a] == r[a])
    && (RXB0CTRL !in ws ==> And(t[RXB0CTRL], 0x64) == And(r[RXB0CTRL], 0x64))
    && (RXB1CTRL !in ws ==> And(t[RXB1CTRL], 0x60) == And(r[RXB1CTRL], 0x60))
    && RxRely(r, t, 0) && RxRely(r, t, 1)
    && FlagsFollow(r, t)
  }

  lemma FlagsFollowTrans(r: Regs, s: Regs, t: Regs)
    requires |r| == |s| == |t| == REGISTERS && FlagsFollow(r, s) && FlagsFollow(s, t)
    ensures FlagsFollow(r, t)
  {
    hide Pending, TxDone;
  }

  lemma ApartTrans(r: Regs, s: Regs, t: Regs, ws: set<nat>)
    requires |r| == |s| == |t| == REGISTERS && Apart(r, s, ws) && Apart(s, t, ws)
    ensures Apart(r, t, ws)
  {
    hide And, RxFull, Image, FlagsFollow, IsSteady;
    FlagsFollowTrans(r, s, t);
  }

  lemma ApartWiden(r: Regs, t: Regs, ws: set<nat>, vs: set<nat>)
    requires |r| == |t| == REGISTERS && Apart(r, t, ws) && ws <= vs
    ensures Apart(r, t, vs)
  {
    hide And, RxRely, FlagsFollow, IsSteady;
  }

  lemma KeepsApart(r: Regs, t: Regs, ws: set<nat>)
    requires |r| == |t| == REGISTERS && Keeps(r, t)
    ensures Apart(r, t, ws)
  {
    hide And, RxRely, Pending, TxDone, Image;
    assert TxRely(r, t, 0) && TxRely(r, t, 1) && TxRely(r, t, 2);
    SameBytes(r, t, 0x31);
    SameBytes(r, t, 0x41);
    SameBytes(r, t, 0x51);
  }

  lemma SameBytes(r: Regs, t: Regs, at: nat)
    requires |r| == |t| == REGISTERS && at + 13 <= REGISTERS && Image(t, at) == Image(r, at)
    ensures forall a :: at <= a < at + 13 ==> t[a] == r[a]
  {
    forall a | at <= a < at + 13
      ensures t[a] == r[a]
    {
      assert Image(t, at)[a - at] == Image(r, at)[a - at];
    }
  }

  /** A write that changes registers in `ws` only, and no flag or request. */
  lemma WriteApart(r: Regs, t: Regs, ws: set<nat>)
    requires |r| == |t| == REGISTERS
    requires forall a :: 0 <= a < REGISTERS && a !in ws ==> t[a] == r[a]
    requires forall a :: a in ws ==> a != CANINTF && !(0x61 <= a < 0x6E) && !(0x71 <= a < 0x7E)
    requires forall n :: 0 <= n < N_TXBUFFERS && Pending(t, n) ==> Pending(r, n)
    ensures Apart(r, t, ws)
  {
    hide And, Bit, Image;
    SameImage(r, t, RxBuf(0));
    SameImage(r, t, RxBuf(1));
  }

  lemma UntouchedTrans(r: Regs, s: Regs, t: Regs)
    requires |r| == |s| == |t| == REGISTERS
    requires Untouched(r, s) && Untouched(s, t)
    ensures Untouched(r, t)
  {
    hide Bit, Image, And, RxFull;
  }

  lemma RelyUntouched(r: Regs, t: Regs)
    requires |r| == |t| == REGISTERS && Rely(r, t)
    ensures Untouched(r, t)
  {
    hide TxRely, RxRely, ConfigSame;
  }

  lemma ClearUntouched(r: Regs, n: nat)
    requires |r| == REGISTERS && n < N_TXBUFFERS
    ensures Untouched(r, ClearTxFlag(r, n))
  {
    hide Bit, And, Modify, TxIf;
    ClearTxFlagEffect(r, n);
    SameImage(r, ClearTxFlag(r, n), RxBuf(0));
    SameImage(r, ClearTxFlag(r, n), RxBuf(1));
  }

  /** A buffer seen not pending is still so when its flag has been cleared, and then it is idle. */
  lemma SeenFreeIsIdle(seen: Regs, mid: Regs, n: nat)
    requires |seen| == |mid| == REGISTERS && n < N_TXBUFFERS && Rely(seen, mid) && !Pending(seen, n)
    ensures Idle(ClearTxFlag(mid, n), n)
  {
    hide Bit, Modify, RxRely, ConfigSame, Image, TxIf;
    assert TxRely(seen, mid, n);
    ClearTxFlagEffect(mid, n);
  }

  lemma FlaggedIsIdle(r: Regs, mid: Regs, n: nat)
    requires |r| == |mid| == REGISTERS && n < N_TXBUFFERS && TxSafe(r) && Rely(r, mid) && TxDone(r, n)
    ensures Idle(ClearTxFlag(mid, n), n)
  {
    hide Bit, Modify, RxRely, ConfigSame, Image, TxIf;
    SeenFreeIsIdle(r, mid, n);
  }

  lemma LoadUntouched(r: Regs, n: nat, bytes: seq<byte>)
    requires |r| == REGISTERS && n < N_TXBUFFERS && |bytes| <= 13
    ensures Untouched(r, Patch(r, TxCtrl(n) + 1, bytes))
    ensures TxSafe(r) ==> TxSafe(Patch(r, TxCtrl(n) + 1, bytes))
    ensures Idle(r, n) ==> Idle(Patch(r, TxCtrl(n) + 1, bytes), n)
    ensures bytes <= Image(Patch(r, TxCtrl(n) + 1, bytes), TxCtrl(n) + 1)
  {
    hide Bit, Image, ConfigSame, Patch, TxIf, RxIf;
    LoadEffect(r, n, bytes);
    var t := Patch(r, TxCtrl(n) + 1, bytes);
    forall m | 0 <= m < N_TXBUFFERS
      ensures (Pending(t, m) <==> Pending(r, m)) && (TxDone(t, m) <==> TxDone(r, m))
    {
      assert t[TxCtrl(m)] == r[TxCtrl(m)];
    }
  }

  lemma StartUntouched(r: Regs, n: nat)
    requires |r| == REGISTERS && n < N_TXBUFFERS && TxSafe(r) && Idle(r, n)
    ensures Untouched(r, StartSend(r, n)) && TxSafe(StartSend(r, n)) && Pending(StartSend(r, n), n)
    ensures StartSend(r, n)[CANINTF] == r[CANINTF]
  {
    hide Bit, Image, ConfigSame, StartSend, TxIf, RxIf;
    StartSendEffect(r, n);
  }

  lemma ImageStable(r: Regs, t: Regs, n: nat)
    requires |r| == |t| == REGISTERS && n < N_TXBUFFERS && Rely(r, t)
    ensures Image(t, TxCtrl(n) + 1) == Image(r, TxCtrl(n) + 1)
  {
    hide Bit, RxRely, ConfigSame, Image;
    assert TxRely(r, t, n);
  }

  lemma RelyRx(r: Regs, t: Regs)
    requires |r| == |t| == REGISTERS && Rely(r, t)
    ensures RxFull(r, 0) ==> RxFull(t, 0)
    ensures RxFull(r, 1) ==> RxFull(t, 1)
  {
  }

  /** Reading receive buffer n clears its flag and leaves every other flag alone. */
  lemma ReadRxEffect(r: Regs, n: nat)
    requires |r| == REGISTERS && n < N_RXBUFFERS
    ensures var t := r[CANINTF := Modify(r[CANINTF], RxIf(n), 0)];
      && !RxFull(t, n)
      && (RxFull(t, 1 - n) <==> RxFull(r, 1 - n))
      && (forall m :: 0 <= m < N_TXBUFFERS ==> (TxDone(t, m) <==> TxDone(r, m)) && (Pending(t, m) <==> Pending(r, m)))
  {
    hide Bit, And, Modify, TxIf, RxIf;
    FlagMasks();
    var b := r[CANINTF];
    ModifyClears(b, RxIf(n));
    ModifyOther(b, RxIf(n), 0, RxIf(1 - n));
    forall m | 0 <= m < N_TXBUFFERS
      ensures Bit(Modify(b, RxIf(n), 0), TxIf(m)) <==> Bit(b, TxIf(m))
    {
      ModifyOther(b, RxIf(n), 0, TxIf(m));
    }
  }

  // ---- filters and masks: six filters, then two masks, four registers each

  const GROUPS: nat := 8

  function GroupAddress(g: nat): nat {
    if g <= 2 then 4 * g else if g <= 5 then 0x10 + 4 * (g - 3) else 0x20 + 4 * (g - 6)
  }

  function Group(r: Regs, g: nat): seq<byte>
    requires |r| == REGISTERS && g < GROUPS
  {
    r[GroupAddress(g)..GroupAddress(g) + 4]
  }

  /** The registers of a group. */
  ghost function GroupRegisters(g: nat): set<nat> {
    var at := GroupAddress(g);
    {at, at + 1, at + 2, at + 3}
  }

  lemma GroupsSame(r: Regs, t: Regs)
    requires |r| == |t| == REGISTERS && ConfigSame(r, t)
    ensures forall g :: 0 <= g < GROUPS ==> Group(t, g) == Group(r, g)
  {
    hide And;
    forall g | 0 <= g < GROUPS
      ensures Group(t, g) == Group(r, g)
    {
      var at := GroupAddress(g);
      assert forall a :: at <= a < at + 4 ==> IsConfig(a);
      assert forall i :: 0 <= i < 4 ==> Group(t, g)[i] == t[at + i] && Group(r, g)[i] == r[at + i];
    }
  }

  /** Writing one group changes no other group, and nothing outside the groups. */
  lemma GroupWrite(r: Regs, g: nat, bytes: seq<byte>)
    requires |r| == REGISTERS && g < GROUPS && |bytes| == 4
    ensures var t := Patch(r, GroupAddress(g), bytes);
      && Group(t, g) == bytes
      && (forall h :: 0 <= h < GROUPS && h != g ==> Group(t, h) == Group(r, h))
      && (forall a :: 0 <= a < REGISTERS && !IsConfig(a) ==> t[a] == r[a])
      && (forall a :: 0x28 <= a <= 0x2A ==> t[a] == r[a])
  {
    var t := Patch(r, GroupAddress(g), bytes);
    forall h | 0 <= h < GROUPS && h != g
      ensures Group(t, h) == Group(r, h)
    {
      GroupsApart(g, h);
    }
  }

  lemma GroupsApart(g: nat, h: nat)
    requires g < GROUPS && h < GROUPS && g != h
    ensures GroupAddress(g) + 4 <= GroupAddress(h) || GroupAddress(h) + 4 <= GroupAddress(g)
  {
  }

  /** Filter, mask and timing registers can be written in configuration mode only. */
  function WriteConfig(r: Regs, at: nat, bytes: seq<byte>): (t: Regs)
    requires |r| == REGISTERS && at + |bytes| <= REGISTERS
    ensures |t| == REGISTERS
  {
    if Mode(r) == MODE_CONFIG then Patch(r, at, bytes) else r
  }

  /** Everything outside the filter, mask and timing registers is as it was. */
  predicate OnlyConfig(r: Regs, t: Regs)
    requires |r| == |t| == REGISTERS
  {
    forall a :: 0 <= a < REGISTERS && !IsConfig(a) ==> t[a] == r[a]
  }

  lemma OnlyConfigSame(r: Regs, t: Regs)
    requires |r| == |t| == REGISTERS && OnlyConfig(r, t)
    ensures TxSafe(r) ==> TxSafe(t)
    ensures t[CANINTF] == r[CANINTF] && t[CANINTE] == r[CANINTE]
    ensures Image(t, RxBuf(0)) == Image(r, RxBuf(0)) && Image(t, RxBuf(1)) == Image(r, RxBuf(1))
  {
    hide Bit, Image, TxIf;
    SameImage(r, t, RxBuf(0));
    SameImage(r, t, RxBuf(1));
    forall n | 0 <= n < N_TXBUFFERS && TxSafe(r) && TxDone(t, n)
      ensures !Pending(t, n)
    {
      assert TxDone(r, n);
    }
  }

  // ---- initialisation

  /** The 14 registers of each transmit buffer, control register first. */
  predicate IsTx(a: nat) {
    0x30 <= a < 0x3E || 0x40 <= a < 0x4E || 0x50 <= a < 0x5E
  }

  /** The first k registers of transmit buffer n are zero. */
  predicate ZeroPrefix(r: Regs, n: nat, k: nat)
    requires |r| == REGISTERS && n < N_TXBUFFERS && k <= 14
  {
    forall a :: TxCtrl(n) <= a < TxCtrl(n) + k ==> r[a] == 0
  }

  lemma ZeroPrefixStays(r: Regs, t: Regs, n: nat, k: nat)
    requires |r| == |t| == REGISTERS && n < N_TXBUFFERS && k <= 14
    requires Keeps(r, t) && ZeroPrefix(r, n, k)
    ensures ZeroPrefix(t, n, k)
  {
    hide Bit, RxRely, ConfigSame, TxIf;
    ZeroNotPending();
    assert TxRely(r, t, n);
    forall a | TxCtrl(n) <= a < TxCtrl(n) + k
      ensures t[a] == 0
    {
      if a > TxCtrl(n) {
        assert Image(t, TxCtrl(n) + 1)[a - TxCtrl(n) - 1] == Image(r, TxCtrl(n) + 1)[a - TxCtrl(n) - 1];
      }
    }
  }

  lemma ZeroNotPending()
    ensures Bit(0, TXREQ) == false
  {
  }

  /** Zeroing a register of a transmit buffer: the receive side, the flags and everything else stay. */
  lemma ZeroTxEffect(r: Regs, a: nat)
    requires |r| == REGISTERS && IsTx(a) && TxSafe(r)
    ensures var t := r[a := 0];
      && TxSafe(t) && ConfigSame(r, t) && t[CANINTE] == r[CANINTE] && t[CANINTF] == r[CANINTF]
      && Image(t, RxBuf(0)) == Image(r, RxBuf(0)) && Image(t, RxBuf(1)) == Image(r, RxBuf(1))
  {
    hide Bit, And, TxIf;
    var t := r[a := 0];
    ZeroNotPending();
    SameImage(r, t, RxBuf(0));
    SameImage(r, t, RxBuf(1));
    forall n | 0 <= n < N_TXBUFFERS && TxDone(t, n)
      ensures !Pending(t, n)
    {
      assert TxDone(r, n);
    }
  }
}
