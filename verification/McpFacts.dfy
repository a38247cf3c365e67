/** Single steps of the driver, as facts about register files and bytes. */
module McpFacts {
  import opened IdBits
  import opened CanCodec
  import opened Mcp2515

  lemma RelyKeeps(r: Regs, t: Regs)
    requires |r| == |t| == REGISTERS && Rely(r, t)
    ensures Keeps(r, t)
  {
  }

  /** From the bit positions of READ STATUS to those of CANINTF. */
  function Translate(status: byte): byte {
    Flag(Bit(status, 0x08), 0x04) | Flag(Bit(status, 0x20), 0x08) | Flag(Bit(status, 0x80), 0x10)
    | Flag(Bit(status, 0x01), 0x01) | Flag(Bit(status, 0x02), 0x02)
  }

  lemma TranslatedFlags(a: bool, b: bool, c: bool, d: bool, e: bool)
    ensures var s := Flag(a, 0x04) | Flag(b, 0x08) | Flag(c, 0x10) | Flag(d, 0x01) | Flag(e, 0x02);
      && (Bit(s, 0x04) <==> a) && (Bit(s, 0x08) <==> b) && (Bit(s, 0x10) <==> c)
      && (Bit(s, 0x01) <==> d) && (Bit(s, 0x02) <==> e)
  {
  }

  lemma TranslatedBits(r: Regs)
    requires |r| == REGISTERS
    ensures forall n :: 0 <= n < N_TXBUFFERS ==> (Bit(Translate(Status(r)), TxIf(n)) <==> TxDone(r, n))
    ensures forall n :: 0 <= n < N_RXBUFFERS ==> (Bit(Translate(Status(r)), RxIf(n)) <==> RxFull(r, n))
  {
    hide Bit, Status, RxFull, TxDone, Flag;
    var s := Status(r);
    StatusBits(r);
    assert RxIf(0) == 0x01 && RxIf(1) == 0x02;
    TranslatedFlags(Bit(s, 0x08), Bit(s, 0x20), Bit(s, 0x80), Bit(s, 0x01), Bit(s, 0x02));
  }

  lemma OneFlag(status: byte, n: nat)
    requires n < N_TXBUFFERS
    ensures And(status, TxIf(n)) == if Bit(status, TxIf(n)) then TxIf(n) else 0
    ensures TxIf(n) != 0
    ensures !Bit(status, TxIf(n)) ==> Modify(status, TxIf(n), 0) == status
  {
  }

  lemma ModifiedMode(b: byte, newmode: byte)
    ensures And(Modify(b, MODE_MASK, newmode), MODE_MASK) == And(newmode, MODE_MASK)
  {
  }

  lemma ListenOnlyBits()
    ensures And(MODE_LISTENONLY, MODE_MASK) == MODE_LISTENONLY
  {
  }

  lemma SetAndClear(b: byte)
    ensures !Bit(b, WAKIF) ==> Modify(Modify(b, WAKIF, WAKIF), WAKIF, 0) == b && Modify(b, WAKIF, WAKIF) != b
  {
  }

  lemma SameFlags(r: Regs, t: Regs)
    requires |r| == |t| == REGISTERS && t[CANINTF] == r[CANINTF]
    ensures (RxFull(t, 0) <==> RxFull(r, 0)) && (RxFull(t, 1) <==> RxFull(r, 1))
  {
  }

  lemma GroupsKept(r: Regs, t: Regs)
    requires |r| == |t| == REGISTERS && Keeps(r, t)
    ensures forall h :: 0 <= h < GROUPS ==> Group(t, h) == Group(r, h)
  {
    GroupsSame(r, t);
  }

  function RxCtrl(n: nat): nat {
    if n == 0 then RXB0CTRL else RXB1CTRL
  }

  lemma RxControlEffect(r: Regs, t: Regs, n: nat)
    requires |r| == |t| == REGISTERS && n < N_RXBUFFERS && TxSafe(r)
    requires forall a :: 0 <= a < REGISTERS && a != RxCtrl(n) ==> t[a] == r[a]
    ensures TxSafe(t)
    ensures Image(t, RxBuf(0)) == Image(r, RxBuf(0)) && Image(t, RxBuf(1)) == Image(r, RxBuf(1))
  {
    hide Bit, Image, TxIf;
    SameImage(r, t, RxBuf(0));
    SameImage(r, t, RxBuf(1));
    forall m | 0 <= m < N_TXBUFFERS && TxDone(t, m)
      ensures !Pending(t, m)
    {
      assert TxDone(r, m);
    }
  }

  ghost predicate RxControlWritten(r: Regs, t: Regs, n: nat, mask: byte, data: byte)
    requires |r| == |t| == REGISTERS && n < N_RXBUFFERS
  {
    exists mid :: |mid| == REGISTERS && Rely(r, mid) && t == mid[RxCtrl(n) := Modify(mid[RxCtrl(n)], mask, data)]
  }

  /** What a write to RXBnCTRL leaves as it was, across the chip's own activity before it. */
  lemma RxControlZero(r: Regs, t: Regs, n: nat, mask: byte, data: byte)
    requires |r| == |t| == REGISTERS && n < N_RXBUFFERS
    requires RxControlWritten(r, t, n, mask, data)
    ensures forall m :: 0 <= m < N_TXBUFFERS && ZeroPrefix(r, m, 14) ==> ZeroPrefix(t, m, 14)
    ensures forall g :: 0 <= g < GROUPS ==> Group(t, g) == Group(r, g)
    ensures n == 1 ==> And(t[RXB0CTRL], 0x64) == And(r[RXB0CTRL], 0x64)
    ensures n == 0 ==> And(t[RXB1CTRL], 0x60) == And(r[RXB1CTRL], 0x60)
    ensures exists b: byte :: t[RxCtrl(n)] == Modify(b, mask, data)
  {
    hide Bit, Image, TxRely, RxFull, Modify, And;
    var mid :| |mid| == REGISTERS && Rely(r, mid) && t == mid[RxCtrl(n) := Modify(mid[RxCtrl(n)], mask, data)];
    forall m | 0 <= m < N_TXBUFFERS && ZeroPrefix(r, m, 14)
      ensures ZeroPrefix(t, m, 14)
    {
      ZeroPrefixStays(r, mid, m, 14);
    }
    GroupsSame(r, mid);
    forall g | 0 <= g < GROUPS
      ensures Group(t, g) == Group(mid, g)
    {
      SameGroup(mid, t, g);
    }
  }

  lemma SameGroup(r: Regs, t: Regs, g: nat)
    requires |r| == |t| == REGISTERS && g < GROUPS
    requires forall a :: 0 <= a < 0x30 ==> t[a] == r[a]
    ensures Group(t, g) == Group(r, g)
  {
  }

  lemma NothingZeroed(r: Regs)
    requires |r| == REGISTERS
    ensures ZeroPrefix(r, 0, 0) && ZeroPrefix(r, 1, 0) && ZeroPrefix(r, 2, 0)
  {
  }

  lemma ZeroesKept(r: Regs, t: Regs)
    requires |r| == |t| == REGISTERS && Keeps(r, t)
    ensures forall n :: 0 <= n < N_TXBUFFERS && ZeroPrefix(r, n, 14) ==> ZeroPrefix(t, n, 14)
  {
    hide Keeps, ZeroPrefix;
    forall n | 0 <= n < N_TXBUFFERS && ZeroPrefix(r, n, 14)
      ensures ZeroPrefix(t, n, 14)
    {
      ZeroPrefixStays(r, t, n, 14);
    }
  }

  lemma FullMask()
    ensures forall b: byte :: Modify(b, 0xFF, 0) == 0
    ensures And(0, 0x64) == 0 && And(0, 0x60) == 0
  {
  }

  lemma ModeBits(b: byte)
    ensures And(Modify(b, 0x64, 0x04), 0x64) == 0x04
    ensures And(Modify(b, 0x60, 0x00), 0x60) == 0
  {
  }

  lemma ReceptionKept(r: Regs, t: Regs)
    requires |r| == |t| == REGISTERS && Keeps(r, t)
    ensures And(t[RXB0CTRL], 0x64) == And(r[RXB0CTRL], 0x64)
    ensures And(t[RXB1CTRL], 0x60) == And(r[RXB1CTRL], 0x60)
  {
    hide And;
  }

  /** Masking the status with the three pending bits does not change the test of one of them. */
  lemma PendingMask(s: byte, n: nat)
    requires n < N_TXBUFFERS
    ensures Bit(And(s, 0x54), TxStatusPending(n)) <==> Bit(s, TxStatusPending(n))
  {
  }

  lemma WakeFlagKeepsRx(r: Regs, data: byte)
    requires |r| == REGISTERS
    ensures var t := r[CANINTF := Modify(r[CANINTF], WAKIF, data)];
      (RxFull(t, 0) <==> RxFull(r, 0)) && (RxFull(t, 1) <==> RxFull(r, 1))
  {
    hide Bit, And, Modify;
    FlagMasks();
    ModifyOther(r[CANINTF], WAKIF, data, RxIf(0));
    ModifyOther(r[CANINTF], WAKIF, data, RxIf(1));
  }

  lemma FlagsPersist(r: Regs, t: Regs)
    requires |r| == |t| == REGISTERS && Rely(r, t)
    ensures forall n :: 0 <= n < N_TXBUFFERS && TxDone(r, n) ==> TxDone(t, n)
  {
    hide Bit, Image, ConfigSame, RxRely;
    assert TxRely(r, t, 0) && TxRely(r, t, 1) && TxRely(r, t, 2);
  }

  lemma FlagNames()
    ensures forall n, m :: 0 <= n < N_TXBUFFERS && 0 <= m < N_TXBUFFERS && TxIf(n) == TxIf(m) ==> n == m
    ensures forall n :: 0 <= n < N_TXBUFFERS ==> TxIf(n) != 0
  {
  }

  // ---- sending by a flag the chip may no longer show

  /**
   sendMsgBuf with a status clears the flag of buffer n in the state `mid` and loads the buffer in the
   state `late`.  The buffer may still be pending then exactly when it was at the call.
   */
  lemma OverwritePossibleIff(r: Regs, n: nat)
    requires |r| == REGISTERS && n < N_TXBUFFERS
    ensures (exists mid, late :: StaleCourse(r, mid, late, n) && Pending(late, n)) <==> Pending(r, n)
  {
    hide Bit, Image, Modify, TxIf, RxRely, ConfigSame, InConfig;
    if Pending(r, n) {
      RelyRefl(r);
      RelyRefl(ClearTxFlag(r, n));
      ClearTxFlagEffect(r, n);
      assert StaleCourse(r, r, ClearTxFlag(r, n), n);
    }
    if mid, late :| StaleCourse(r, mid, late, n) && Pending(late, n) {
      ClearTxFlagEffect(mid, n);
      assert TxRely(r, mid, n) && TxRely(ClearTxFlag(mid, n), late, n);
    }
  }

  ghost predicate StaleCourse(r: Regs, mid: Regs, late: Regs, n: nat)
    requires |r| == REGISTERS
  {
    |mid| == |late| == REGISTERS && Rely(r, mid) && Rely(ClearTxFlag(mid, n), late)
  }

  /**
   The transmit invariant may be lost in the same way, and exactly in the same case: the old transmission
   completes after its flag was cleared and before the new one is started in the state `last`.
   */
  lemma FlagLostPossibleIff(r: Regs, n: nat, bytes: seq<byte>)
    requires |r| == REGISTERS && n < N_TXBUFFERS && TxSafe(r) && |bytes| <= 13
    ensures (exists mid, late, last :: UnsafeCourse(r, mid, late, last, n, bytes)) <==> Pending(r, n)
  {
    hide Bit, Image, Modify, TxIf, RxRely, ConfigSame, InConfig, StartSend, Patch, WithBit, ClearTxFlag, Complete;
    hide TxSafe;
    if Pending(r, n) {
      var late := ClearTxFlag(r, n);
      var loaded := Patch(late, TxCtrl(n) + 1, bytes);
      RelyRefl(r);
      RelyRefl(late);
      ClearTxFlagEffect(r, n);
      LoadedFlags(late, n, bytes);
      CompleteIsAllowed(loaded, n);
      CompleteFlags(loaded, n);
      StartedFlags(Complete(loaded, n), n);
      NotSafe(StartSend(Complete(loaded, n), n), n);
      assert UnsafeCourse(r, r, late, Complete(loaded, n), n, bytes);
    }
    if mid, late, last :| UnsafeCourse(r, mid, late, last, n, bytes) {
      if !Pending(r, n) {
        SeenFreeIsIdle(r, mid, n);
        ClearedSafe(r, mid, n);
        StaysSafe(ClearTxFlag(mid, n), late, n);
        LoadUntouched(late, n, bytes);
        StaysSafe(Patch(late, TxCtrl(n) + 1, bytes), last, n);
        StartUntouched(last, n);
        assert false;
      }
    }
  }

  ghost predicate UnsafeCourse(r: Regs, mid: Regs, late: Regs, last: Regs, n: nat, bytes: seq<byte>)
    requires |r| == REGISTERS && n < N_TXBUFFERS && |bytes| <= 13
  {
    && StaleCourse(r, mid, late, n)
    && |last| == REGISTERS && Rely(Patch(late, TxCtrl(n) + 1, bytes), last)
    && !TxSafe(StartSend(last, n))
  }

  lemma LoadedFlags(r: Regs, n: nat, bytes: seq<byte>)
    requires |r| == REGISTERS && n < N_TXBUFFERS && |bytes| <= 13
    ensures Pending(Patch(r, TxCtrl(n) + 1, bytes), n) <==> Pending(r, n)
  {
    hide Bit;
  }

  lemma StartedFlags(r: Regs, n: nat)
    requires |r| == REGISTERS && n < N_TXBUFFERS
    ensures Pending(StartSend(r, n), n)
    ensures TxDone(StartSend(r, n), n) <==> TxDone(r, n)
  {
    hide Bit, WithBit, TxIf;
    WithBitSets(r[TxCtrl(n)], TXREQ);
  }

  lemma NotSafe(r: Regs, n: nat)
    requires |r| == REGISTERS && n < N_TXBUFFERS && TxDone(r, n) && Pending(r, n)
    ensures !TxSafe(r)
  {
    hide Bit, TxIf;
  }

  lemma StaysSafe(r: Regs, t: Regs, n: nat)
    requires |r| == |t| == REGISTERS && n < N_TXBUFFERS && Rely(r, t) && TxSafe(r) && Idle(r, n)
    ensures TxSafe(t) && Idle(t, n)
  {
    hide Keeps, TxSafe, Idle, InConfig;
    ChipKeepsTxSafe(r, t);
    ChipKeepsIdle(r, t, n);
  }

  lemma ClearedSafe(r: Regs, mid: Regs, n: nat)
    requires |r| == |mid| == REGISTERS && n < N_TXBUFFERS && Rely(r, mid) && TxSafe(r)
    ensures TxSafe(ClearTxFlag(mid, n))
  {
    hide Bit, Keeps, InConfig, TxIf, Modify, ClearTxFlag;
    ChipKeepsTxSafe(r, mid);
    ClearTxFlagEffect(mid, n);
    forall m | 0 <= m < N_TXBUFFERS && TxDone(ClearTxFlag(mid, n), m)
      ensures !Pending(ClearTxFlag(mid, n), m)
    {
      assert m != n && TxDone(mid, m);
    }
  }

  /** All three transmissions complete. */
  lemma AllComplete(r: Regs) returns (t: Regs)
    requires |r| == REGISTERS && forall n :: 0 <= n < N_TXBUFFERS ==> Pending(r, n)
    ensures |t| == REGISTERS && Rely(r, t)
    ensures forall n :: 0 <= n < N_TXBUFFERS ==> !Pending(t, n) && TxDone(t, n)
  {
    hide Complete, Rely, Pending, TxDone;
    var s := Complete(r, 0);
    CompleteFlags(r, 0);
    CompleteIsAllowed(r, 0);
    var u := Complete(s, 1);
    CompleteFlags(s, 1);
    CompleteIsAllowed(s, 1);
    RelyTrans(r, s, u);
    t := Complete(u, 2);
    CompleteFlags(u, 2);
    CompleteIsAllowed(u, 2);
    RelyTrans(r, u, t);
  }

  /** Nothing happens for k readings, then `t` is reached. */
  lemma LateChange(r: Regs, t: Regs, k: nat)
    requires |r| == |t| == REGISTERS && Rely(r, t)
    ensures Linked(r, seq(k + 1, i => if i < k then r else t))
  {
    hide Rely;
    RelyRefl(r);
    var files := seq(k + 1, i => if i < k then r else t);
    forall i | 0 <= i < |files|
      ensures Rely(Before(r, files, i), files[i])
    {
      assert Before(r, files, i) == r;
    }
  }

  lemma FlaggedNotPending(r: Regs, n: nat)
    requires |r| == REGISTERS && n < N_TXBUFFERS && TxSafe(r) && TxDone(r, n)
    ensures !Pending(r, n)
  {
  }

  lemma StartKeepsRest(r: Regs, n: nat)
    requires |r| == REGISTERS && n < N_TXBUFFERS
    ensures Untouched(r, StartSend(r, n)) && Pending(StartSend(r, n), n)
    ensures StartSend(r, n)[CANINTF] == r[CANINTF]
  {
    hide Bit, Image, And, WithBit, TxIf, RxIf;
    WithBitSets(r[TxCtrl(n)], TXREQ);
    SameImage(r, StartSend(r, n), RxBuf(0));
    SameImage(r, StartSend(r, n), RxBuf(1));
  }

  // ---- set-up registers

  /** Writing a group of filter or mask registers leaves everything else alone. */
  lemma GroupApart(r: Regs, g: nat, bytes: seq<byte>)
    requires |r| == REGISTERS && g < GROUPS && |bytes| == 4
    ensures Apart(r, WriteConfig(r, GroupAddress(g), bytes), GroupRegisters(g))
  {
    hide Bit, And, Apart;
    var t := WriteConfig(r, GroupAddress(g), bytes);
    forall n | 0 <= n < N_TXBUFFERS && Pending(t, n)
      ensures Pending(r, n)
    {
      assert t[TxCtrl(n)] == r[TxCtrl(n)];
    }
    WriteApart(r, t, GroupRegisters(g));
  }

  /** The registers mcp2515_initCANBuffers is about: the transmit buffers and receive control. */
  ghost function ZeroedRegisters(): set<nat> {
    set a: nat | a < REGISTERS && (IsTx(a) || a == RXB0CTRL || a == RXB1CTRL)
  }

  ghost function TimingRegisters(): set<nat> {
    {0x28, 0x29, 0x2A}
  }

  /** Only registers in `ws` were written, and the interrupt enables and the requested mode are as before. */
  ghost predicate SetUp(r: Regs, t: Regs, ws: set<nat>)
    requires |r| == |t| == REGISTERS
  {
    && Apart(r, t, ws)
    && t[CANINTE] == r[CANINTE] && t[CANCTRL] == r[CANCTRL]
    && (InConfig(r) ==> InConfig(t))
  }

  lemma SetUpRefl(r: Regs, ws: set<nat>)
    requires |r| == REGISTERS
    ensures SetUp(r, r, ws)
  {
    hide Apart, InConfig;
    KeepsRefl(r);
    KeepsApart(r, r, ws);
  }

  lemma SetUpTrans(r: Regs, s: Regs, t: Regs, ws: set<nat>)
    requires |r| == |s| == |t| == REGISTERS && SetUp(r, s, ws) && SetUp(s, t, ws)
    ensures SetUp(r, t, ws)
  {
    hide Apart, InConfig;
    ApartTrans(r, s, t, ws);
  }

  lemma SetUpWiden(r: Regs, t: Regs, ws: set<nat>, vs: set<nat>)
    requires |r| == |t| == REGISTERS && SetUp(r, t, ws) && ws <= vs
    ensures SetUp(r, t, vs)
  {
    hide Apart, InConfig;
    ApartWiden(r, t, ws, vs);
  }

  /** The chip acts, then the driver writes. */
  lemma RelySetUp(r: Regs, mid: Regs, t: Regs, ws: set<nat>)
    requires |r| == |mid| == |t| == REGISTERS && Rely(r, mid) && Apart(mid, t, ws)
    requires t[CANINTE] == mid[CANINTE] && t[CANCTRL] == mid[CANCTRL] && t[CANSTAT] == mid[CANSTAT]
    ensures SetUp(r, t, ws)
  {
    hide Apart, Keeps, And;
    KeepsApart(r, mid, ws);
    ApartTrans(r, mid, t, ws);
  }

  lemma ZeroApart(r: Regs, a: nat)
    requires |r| == REGISTERS && IsTx(a)
    ensures Apart(r, r[a := 0], ZeroedRegisters())
  {
    hide Bit, And, Apart;
    ZeroNotPending();
    WriteApart(r, r[a := 0], ZeroedRegisters());
  }

  lemma RxControlApart(r: Regs, t: Regs, n: nat)
    requires |r| == |t| == REGISTERS && n < N_RXBUFFERS
    requires forall a :: 0 <= a < REGISTERS && a != RxCtrl(n) ==> t[a] == r[a]
    ensures Apart(r, t, {RxCtrl(n)})
  {
    hide Bit, And, Apart;
    WriteApart(r, t, {RxCtrl(n)});
  }

  /** Writing a bit-timing register. */
  lemma TimingWrite(r: Regs, a: nat, v: byte)
    requires |r| == REGISTERS && a in TimingRegisters()
    ensures var t := WriteConfig(r, a, [v]);
      && OnlyConfig(r, t) && Apart(r, t, TimingRegisters())
      && (forall b :: b in TimingRegisters() ==> t[b] == if b == a && Mode(r) == MODE_CONFIG then v else r[b])
  {
    hide Bit, And, Apart;
    WriteApart(r, WriteConfig(r, a, [v]), TimingRegisters());
  }

  lemma FullWrite(b: byte, v: byte)
    ensures Modify(b, 0xFF, v) == v
  {
  }

  /** A receive buffer may hold no new frame when it is read exactly when it holds none at the call. */
  lemma StaleReadPossibleIff(r: Regs, n: nat)
    requires |r| == REGISTERS && n < N_RXBUFFERS
    ensures (exists mid: Regs :: |mid| == REGISTERS && Rely(r, mid) && !RxFull(mid, n)) <==> !RxFull(r, n)
  {
    hide Bit, Image, TxRely, ConfigSame, InConfig;
    RelyRefl(r);
    assert forall mid: Regs :: |mid| == REGISTERS && Rely(r, mid) ==> RxRely(r, mid, n);
  }

  /** The wake flag after a write under its mask. */
  lemma WakeFlagWritten(b: byte, data: byte)
    ensures Bit(Modify(b, WAKIF, data), WAKIF) <==> Bit(data, WAKIF)
  {
  }

  lemma WakeFlagBits()
    ensures Bit(WAKIF, WAKIF) && !Bit(0, WAKIF)
  {
  }

  /** What leaves the timing registers out leaves them alone. */
  lemma TimingKept(r: Regs, t: Regs, ws: set<nat>)
    requires |r| == |t| == REGISTERS && Apart(r, t, ws)
    requires 0x28 !in ws && 0x29 !in ws && 0x2A !in ws
    ensures t[0x28] == r[0x28] && t[0x29] == r[0x29] && t[0x2A] == r[0x2A]
  {
    hide And, RxRely, FlagsFollow;
  }

  lemma StillSafe(r: Regs, t: Regs)
    requires |r| == |t| == REGISTERS && TxSafe(r)
    requires forall n :: 0 <= n < N_TXBUFFERS ==> (TxDone(t, n) <==> TxDone(r, n)) && (Pending(t, n) <==> Pending(r, n))
    ensures TxSafe(t)
  {
    hide TxDone, Pending;
  }

  lemma SetUpApart(r: Regs, t: Regs, ws: set<nat>)
    requires |r| == |t| == REGISTERS && SetUp(r, t, ws)
    ensures Apart(r, t, ws)
  {
  }

  lemma ReceiveImage(r: Regs, n: nat)
    requires |r| == REGISTERS && n < N_RXBUFFERS
    ensures Image(r, RxBuf(n)) == r[0x61 + 16 * n..0x6E + 16 * n]
  {
  }

  lemma StatusNames(status: byte)
    ensures Bit(status, RxIf(0)) <==> status & 0x01 != 0
    ensures Bit(status, RxIf(1)) <==> status & 0x02 != 0
    ensures status & 0x03 == 0 <==> status & 0x01 == 0 && status & 0x02 == 0
  {
  }

  lemma EitherFull(r: Regs)
    requires |r| == REGISTERS
    ensures RxFull(r, 0) || RxFull(r, 1) <==> r[0x2C] & 0x03 != 0
  {
  }
}
