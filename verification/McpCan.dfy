/** The driver class MCP_CAN of `mcp_can.cpp` and `mcp_can.h`, over a chip that acts on its own. */
module McpCan {
  import opened IdBits
  import opened CanCodec
  import opened Mcp2515
  import opened McpChip
  import opened McpFacts

  const TIMEOUTVALUE: nat := 50
  const MCP2515_OK: byte := 0
  const MCP2515_FAIL: byte := 1
  const MCP_ALLTXBUSY: byte := 2
  const CAN_OK: byte := 0
  const CAN_FAILINIT: byte := 1
  const CAN_FAILTX: byte := 2
  const CAN_MSGAVAIL: byte := 3
  const CAN_NOMSG: byte := 4
  const CAN_GETTXBFTIMEOUT: byte := 6
  const CAN_SENDMSGTIMEOUT: byte := 7


  /** txSidhToTxLoad. */
  function TxSidhToTxLoad(sidh: nat): byte {
    if sidh == 0x31 then 0x40 else if sidh == 0x41 then 0x42 else if sidh == 0x51 then 0x44 else 0
  }

  /** txSidhToRTS. */
  function TxSidhToRts(sidh: nat): byte {
    if sidh == 0x31 then 0x81 else if sidh == 0x41 then 0x82 else if sidh == 0x51 then 0x84 else 0
  }

  /** statusToTxSidh: exactly one transmit flag and nothing else. */
  function StatusToTxSidh(status: byte): nat {
    if status == 0x04 then 0x31 else if status == 0x08 then 0x41 else if status == 0x10 then 0x51 else 0
  }

  const MCP_16MHZ: byte := 1
  const MCP_8MHZ: byte := 2

  /** The (speed, clock) pairs mcp2515_configRate has timing values for. */
  predicate Supported(canSpeed: byte, clock: byte) {
    if clock == MCP_16MHZ then 1 <= canSpeed <= 18
    else clock == MCP_8MHZ && canSpeed in {1, 2, 3, 5, 7, 8, 9, 12, 13, 14, 15, 16, 18}
  }

  const MODE_TIMEOUT_MS: nat := 200

  /** millis(): an unsigned 32-bit count. */
  function Millis(micros: nat): nat {
    micros / 1000 % 0x1_0000_0000
  }

  /** `millis() - startTime` in 32-bit arithmetic. */
  function Elapsed(now: nat, startTime: nat): nat
    requires startTime < 0x1_0000_0000
  {
    (now + 0x1_0000_0000 - startTime) % 0x1_0000_0000
  }

  /** Through any wrap of the counter, up to 49 days. */
  lemma ElapsedIsTrue(start: nat, now: nat)
    requires start <= now && now / 1000 - start / 1000 < 0x1_0000_0000
    ensures Millis(start) < 0x1_0000_0000
    ensures Elapsed(Millis(now), Millis(start)) == now / 1000 - start / 1000
  {
  }

  // ---- one mode change

  /** What mcp2515_setCANCTRL_Mode saw and did. */
  datatype ModeChange = ModeChange(
    seen: byte,      // the mode at the start
    newmode: byte,
    intOn: bool,     // the wake-up interrupt was on at the start
    woke: bool,      // the manual wake-up, if one was needed, succeeded
    wakeMs: nat,     // ... after this time
    raised: byte,    // CANINTF when the wake flag had been raised
    lowered: byte,   // CANINTF when the wake flag had been cleared
    reached: bool,   // the new mode was reached
    ms: nat          // ... after this time
  )
  {
    predicate Asleep() {
      seen == MODE_SLEEP && newmode != MODE_SLEEP
    }

    /** The chip did not wake up; the new mode was not even requested. */
    predicate GaveUp() {
      Asleep() && !woke
    }

    /** The exit that leaves the wake-up interrupt switched on. */
    predicate Stuck() {
      GaveUp() && !intOn
    }

    /** Failure means that the time was up, and the wake flag was in CANINTF as it was written. */
    predicate Proper() {
      && (GaveUp() ==> !reached && wakeMs > MODE_TIMEOUT_MS)
      && (!GaveUp() && !reached ==> ms > MODE_TIMEOUT_MS)
      && (Asleep() ==> Bit(raised, WAKIF))
      && (!GaveUp() ==> !Bit(lowered, WAKIF))
    }

    function LastAsked(): byte {
      And(if GaveUp() then MODE_LISTENONLY else newmode, MODE_MASK)
    }

    function Result(): byte {
      if reached then MCP2515_OK else MCP2515_FAIL
    }

    /** Look, wake up if that is needed, clear the wake flag, ask. */
    function Events(): seq<Event> {
      [ModeSeen(seen)]
      + (if Asleep() then WakeTranscript(intOn, raised, woke, wakeMs) else [])
      + (if GaveUp() then [] else [WakeFlag(lowered), ModeAsked(newmode, reached, ms)])
    }
  }

  /** The manual wake-up, with the wake-up interrupt on or off before, and with or without success. */
  function WakeTranscript(intOn: bool, raised: byte, woke: bool, ms: nat): seq<Event> {
    (if intOn then [] else [WakeInterrupt(true)])
    + [WakeFlag(raised), ModeAsked(MODE_LISTENONLY, woke, ms)]
    + (if woke && !intOn then [WakeInterrupt(false)] else [])
  }

  /** From registers r to t: what a mode change leaves behind, whatever the chip does meanwhile. */
  ghost predicate ModeEffect(c: ModeChange, r: Regs, t: Regs)
    requires |r| == |t| == REGISTERS
  {
    && Keeps(r, t)
    && c.intOn == Bit(r[CANINTE], WAKIF)
    && t[CANINTE] == (if c.Stuck() then Modify(r[CANINTE], WAKIF, WAKIF) else r[CANINTE])
    && (c.Stuck() ==> t[CANINTE] != r[CANINTE])
    && (c.reached ==> Mode(t) == c.newmode)
    && Asked(t) == c.LastAsked()
  }

  /** sleep and wake: look at the mode, and change it unless it is the target already. */
  ghost predicate SettledIn(target: byte, seen: byte, c: ModeChange, r: Regs, t: Regs)
    requires |r| == |t| == REGISTERS
  {
    if seen == target then Keeps(r, t) && t[CANINTE] == r[CANINTE] && Mode(t) == target
    else c.newmode == target && c.Proper() && ModeEffect(c, r, t)
  }

  lemma ModeReached(c: ModeChange, r: Regs, t: Regs)
    requires |r| == |t| == REGISTERS && ModeEffect(c, r, t) && c.Proper()
    ensures Keeps(r, t)
    ensures c.reached ==> Mode(t) == c.newmode && t[CANINTE] == r[CANINTE]
  {
    hide Keeps, Bit, Modify, Mode, Asked;
  }

  lemma EnteredConfig(c: ModeChange, r: Regs, t: Regs)
    requires |r| == |t| == REGISTERS && ModeEffect(c, r, t) && c.newmode == MODE_CONFIG && c.Proper() && c.reached
    ensures InConfig(t) && t[CANINTE] == r[CANINTE]
  {
    hide Keeps, Bit, Modify;
    assert And(MODE_CONFIG, MODE_MASK) == MODE_CONFIG;
  }

  /** Stands for the way back when configuration mode was not entered. */
  function NotLeft(newmode: byte, intOn: bool): (c: ModeChange)
    ensures c.Proper() && c.newmode == newmode && c.intOn == intOn
  {
    WakeFlagBits();
    ModeChange(newmode, newmode, intOn, true, 0, 0, 0, true, 0)
  }

  // ---- one call of init_Mask or init_Filt

  /** `enter` and `leave` are the two mode changes; `known` says whether the number names the group g. */
  ghost predicate GroupCourse(known: bool, g: nat, bytes: seq<byte>, enter: ModeChange, leave: ModeChange,
                              r: Regs, t: Regs)
    requires |r| == |t| == REGISTERS && (known ==> g < GROUPS)
  {
    && enter.newmode == MODE_CONFIG && enter.Proper() && leave.Proper()
    && enter.intOn == leave.intOn == Bit(r[CANINTE], WAKIF)
    && Apart(r, t, if known then GroupRegisters(g) else {})
    && (forall h :: 0 <= h < GROUPS ==>
      Group(t, h) == (if known && enter.reached && h == g then bytes else Group(r, h)))
    && t[CANINTE] == (if enter.Stuck() || (enter.reached && leave.Stuck()) then Modify(r[CANINTE], WAKIF, WAKIF)
                      else r[CANINTE])
    && (enter.reached && leave.reached ==> Mode(t) == leave.newmode)
  }

  /** The transactions of such a call in their order: enter configuration mode, write the group, leave. */
  function GroupTranscript(known: bool, g: nat, bytes: seq<byte>, enter: ModeChange, leave: ModeChange): seq<Event> {
    enter.Events()
    + if !enter.reached then []
      else (if known then [Wrote(GroupAddress(g), bytes)] else []) + leave.Events()
  }

  /**
   Such a call in numbers: the four registers from `at` on hold the identifier if configuration mode was
   entered, no other filter, mask or timing register changed, and the write came between the mode changes.
   */
  ghost predicate WritesAt(at: nat, ext: byte, id: bv32, enter: ModeChange, leave: ModeChange,
                           r: Regs, t: Regs, before: seq<Event>, after: seq<Event>)
    requires |r| == |t| == REGISTERS && at + 4 <= REGISTERS
  {
    && (enter.reached ==> IdLaid(t[at..at + 4], ext, id))
    && (enter.reached ==> after == before + enter.Events() + [Wrote(at, t[at..at + 4])] + leave.Events())
    && (!enter.reached ==> after == before + enter.Events() && t[at..at + 4] == r[at..at + 4])
    && (forall a :: (0 <= a <= 0x0B || 0x10 <= a <= 0x1B || 0x20 <= a <= 0x2A) && !(at <= a < at + 4) ==> t[a] == r[a])
  }

  ghost predicate WritesNothing(enter: ModeChange, leave: ModeChange, r: Regs, t: Regs,
                                before: seq<Event>, after: seq<Event>)
    requires |r| == |t| == REGISTERS
  {
    && after == before + enter.Events() + (if enter.reached then leave.Events() else [])
    && (forall a :: 0 <= a <= 0x0B || 0x10 <= a <= 0x1B || 0x20 <= a <= 0x2A ==> t[a] == r[a])
  }

  lemma GroupAt(g: nat, at: nat, ext: byte, id: bv32, enter: ModeChange, leave: ModeChange,
                r: Regs, t: Regs, before: seq<Event>, after: seq<Event>)
    requires |r| == |t| == REGISTERS && g < GROUPS && at == GroupAddress(g)
    requires GroupCourse(true, g, Encode(ext, id).Bytes(), enter, leave, r, t)
    requires after == before + GroupTranscript(true, g, Encode(ext, id).Bytes(), enter, leave)
    ensures WritesAt(at, ext, id, enter, leave, r, t, before, after)
  {
    hide Encode, IdRegs.Bytes, And, Bit, Modify, ModeChange.Events, ModeChange.Proper, IdLaid, RxRely, FlagsFollow;
    hide Mode, Patch;
    EncodeLaid(ext, id);
    assert t[at..at + 4] == Group(t, g) && r[at..at + 4] == Group(r, g);
    assert GroupRegisters(g) == {at, at + 1, at + 2, at + 3};
  }

  lemma GroupNone(g: nat, bytes: seq<byte>, enter: ModeChange, leave: ModeChange,
                  r: Regs, t: Regs, before: seq<Event>, after: seq<Event>)
    requires |r| == |t| == REGISTERS
    requires GroupCourse(false, g, bytes, enter, leave, r, t)
    requires after == before + GroupTranscript(false, g, bytes, enter, leave)
    ensures WritesNothing(enter, leave, r, t, before, after)
  {
    hide And, Bit, Modify, ModeChange.Events, ModeChange.Proper, RxRely, FlagsFollow, Mode;
  }

  // ---- transcripts of sending

  function PollEvents(polls: seq<byte>): seq<Event> {
    seq(|polls|, i requires 0 <= i < |polls| => Polled(polls[i]))
  }

  function CheckEvents(n: nat, checks: seq<byte>): seq<Event> {
    seq(|checks|, i requires 0 <= i < |checks| => Checked(n, checks[i]))
  }

  /** The buffer a status reading offers: the lowest unreserved one that is not pending; none is 3. */
  ghost predicate Offers(status: byte, reserved: nat, n: nat) {
    && reserved + n < N_TXBUFFERS
    && !Bit(status, TxStatusPending(n))
    && (forall m :: 0 <= m < n ==> Bit(status, TxStatusPending(m)))
  }

  ghost predicate OffersNone(status: byte, reserved: nat) {
    forall m :: 0 <= m && m + reserved < N_TXBUFFERS ==> Bit(status, TxStatusPending(m))
  }

  /** The polling loop of sendMsg runs out: all its readings but the last one are in vain. */
  ghost predicate PollsRunOut(polls: seq<byte>, reserved: nat) {
    |polls| >= TIMEOUTVALUE - 1 && forall i :: 0 <= i < TIMEOUTVALUE - 1 ==> OffersNone(polls[i], reserved)
  }

  /** The waiting loop of sendMsg runs out in the same way. */
  ghost predicate ChecksRunOut(checks: seq<byte>) {
    |checks| >= TIMEOUTVALUE - 1 && forall i :: 0 <= i < TIMEOUTVALUE - 1 ==> Bit(checks[i], TXREQ)
  }

  /** The readings are the status of these register files. */
  ghost predicate StatusOf(polls: seq<byte>, files: seq<Regs>) {
    |polls| == |files| && forall i :: 0 <= i < |files| ==> |files[i]| == REGISTERS && polls[i] == Status(files[i])
  }

  /** The readings are the control register of transmit buffer n in these register files. */
  ghost predicate ControlOf(checks: seq<byte>, files: seq<Regs>, n: nat) {
    && |checks| == |files|
    && forall i :: 0 <= i < |files| ==> |files[i]| == REGISTERS && checks[i] == files[i][TxCtrl(n)]
  }

  /**
   What sendMsg did: status readings, the buffer chosen, what it held when it was started, readings of its
   control register; and the register files at those readings, and after the start.
   */
  datatype Transmission = Transmission(
    polls: seq<byte>,
    n: nat,
    image: seq<byte>,
    checks: seq<byte>,
    polled: seq<Regs>,
    started: Regs,
    checked: seq<Regs>
  )

  /** A call of init_Mask (mask) or init_Filt. */
  datatype AcceptCall = AcceptCall(mask: bool, num: nat, ext: byte, ulData: bv32)

  /** The register group a call writes, if any. */
  predicate Writes(c: AcceptCall, h: nat) {
    if c.mask then c.num < 2 && h == 6 + c.num else c.num < 6 && h == c.num
  }

  function CallBytes(c: AcceptCall): seq<byte> {
    Encode(c.ext, c.ulData).Bytes()
  }

  /** The two mode changes of a call. */
  datatype Course = Course(enter: ModeChange, leave: ModeChange) {
    predicate Succeeded() {
      enter.reached && leave.reached
    }
  }

  function CallOf(call: AcceptCall, c: Course): seq<Event> {
    GroupTranscript(if call.mask then call.num < 2 else call.num < 6, if call.mask then 6 + call.num else call.num,
                    CallBytes(call), c.enter, c.leave)
  }

  /** The transcript of the first |courses| calls. */
  function CallEvents(calls: seq<AcceptCall>, courses: seq<Course>): seq<Event>
    requires |courses| <= |calls|
  {
    if courses == [] then []
    else
      var last := |courses| - 1;
      CallEvents(calls, courses[..last]) + CallOf(calls[last], courses[last])
  }

  lemma {:induction false} CallEventsPrefix(calls: seq<AcceptCall>, k: nat, courses: seq<Course>)
    requires |courses| <= k <= |calls|
    ensures CallEvents(calls[..k], courses) == CallEvents(calls, courses)
  {
    hide CallOf;
    if courses != [] {
      CallEventsPrefix(calls, k, courses[..|courses| - 1]);
    }
  }

  lemma CallEventsNext(calls: seq<AcceptCall>, i: nat, courses: seq<Course>, c: Course)
    requires |courses| == i < |calls|
    ensures CallEvents(calls[..i + 1], courses + [c]) == CallEvents(calls[..i], courses) + CallOf(calls[i], c)
    ensures CallEvents(calls, courses + [c]) == CallEvents(calls[..i + 1], courses + [c])
  {
    hide CallOf;
    assert (courses + [c])[..i] == courses;
    CallEventsPrefix(calls, i, courses);
    CallEventsPrefix(calls, i + 1, courses);
    CallEventsPrefix(calls, i + 1, courses + [c]);
  }

  lemma NoCalls(calls: seq<AcceptCall>)
    ensures CallEvents(calls[..0], []) == [] && forall h: nat, initial :: LastWritten(calls[..0], h, initial) == initial
  {
  }

  lemma LastWrittenNext(calls: seq<AcceptCall>, i: nat, h: nat, initial: seq<byte>)
    requires i < |calls|
    ensures LastWritten(calls[..i + 1], h, initial) ==
      if Writes(calls[i], h) then CallBytes(calls[i]) else LastWritten(calls[..i], h, initial)
  {
    assert calls[..i + 1][..i] == calls[..i];
  }

  ghost function LastWritten(calls: seq<AcceptCall>, h: nat, initial: seq<byte>): seq<byte> {
    if calls == [] then initial
    else
      var last := calls[|calls| - 1];
      if Writes(last, h) then CallBytes(last) else LastWritten(calls[..|calls| - 1], h, initial)
  }

  /** The last mode other than SLEEP, or the initial one. */
  ghost function LastAwake(initial: byte, calls: seq<byte>): byte {
    if calls == [] then initial
    else if calls[|calls| - 1] != MODE_SLEEP then calls[|calls| - 1]
    else LastAwake(initial, calls[..|calls| - 1])
  }

  /** ... which is what it says: the last call that is not 0x20 (SLEEP), or none of them (k == -1). */
  lemma {:induction false} LastAwakeIsLast(initial: byte, calls: seq<byte>, k: int)
    requires -1 <= k < |calls| && (k >= 0 ==> calls[k] != 0x20)
    requires forall l :: k < l < |calls| ==> calls[l] == 0x20
    ensures LastAwake(initial, calls) == if k == -1 then initial else calls[k]
  {
    if k < |calls| - 1 {
      var init := calls[..|calls| - 1];
      assert forall l :: 0 <= l < |init| ==> init[l] == calls[l];
      LastAwakeIsLast(initial, init, k);
    }
  }

  class McpCan {
    const chip: Chip
    var nReservedTx: nat
    var mcpMode: byte
    var can_id: bv32
    var ext_flg: byte
    var rtr: byte

    ghost const startMode: byte        // mcpMode when the object came into being
    ghost var modeCalls: seq<byte>     // arguments of setMode so far
    ghost var delivered: set<nat>      // arrived frames handed to the caller

    /** Every arrived frame is either delivered or still in a receive buffer. */
    ghost predicate Accounted()
      reads this, chip
      requires chip.Valid()
    {
      && (forall k :: k in delivered ==> k < |chip.arrived|)
      && (forall k: nat :: k < |chip.arrived| ==> (k in delivered <==> !chip.Buffered(k)))
    }

    /** All that holds even after a pending buffer was overwritten. */
    ghost predicate Sound()
      reads this, chip
    {
      && chip.Valid() && Accounted()
      && nReservedTx < N_TXBUFFERS
      && mcpMode == LastAwake(startMode, modeCalls)
    }

    ghost predicate Valid()
      reads this, chip
    {
      Sound() && TxSafe(chip.regs)
    }

    constructor (mode: byte)
      ensures Valid() && fresh(chip) && nReservedTx == 0 && mcpMode == mode && chip.log == []
    {
      chip := new Chip();
      nReservedTx, mcpMode, can_id, ext_flg, rtr := 0, mode, 0, 0, 0;
      startMode, modeCalls, delivered := mode, [], {};
      new;
      hide Image;
      assert !Bit(0, TxIf(0)) && !Bit(0, TxIf(1)) && !Bit(0, TxIf(2)) && !Bit(0, RxIf(0)) && !Bit(0, RxIf(1));
      assert chip.regs[CANINTF] == 0;
      forall n | 0 <= n < N_TXBUFFERS
        ensures !TxDone(chip.regs, n)
      {
      }
    }

    /** As many as asked for, but one buffer always stays. */
    method ReserveTxBuffers(nTxBuf: nat)
      requires Valid()
      modifies `nReservedTx
      ensures Valid() && nReservedTx <= nTxBuf && nReservedTx + 1 <= N_TXBUFFERS
      ensures nReservedTx < nTxBuf ==> nReservedTx + 1 == N_TXBUFFERS
    {
      nReservedTx := if nTxBuf < N_TXBUFFERS then nTxBuf else N_TXBUFFERS - 1;
    }

    // ---- SPI transactions

    method Elapse()
      requires Sound()
      modifies chip`regs, chip`micros, chip`arrived, chip`serial
      ensures Sound() && Rely(old(chip.regs), chip.regs)
      ensures old(TxSafe(chip.regs)) ==> TxSafe(chip.regs)
      ensures SPI_BYTE_MICROS <= chip.micros - old(chip.micros) <= MAX_STALL_MICROS
      ensures old(chip.arrived) <= chip.arrived
    {
      hide Bit, Image, RxFull, Keeps, TxSafe, InConfig;
      chip.Elapse();
      if old(TxSafe(chip.regs)) {
        ChipKeepsTxSafe(old(chip.regs), chip.regs);
      }
    }

    method ReadRegister(address: nat) returns (v: byte)
      requires Valid() && address < REGISTERS
      modifies chip`regs, chip`micros, chip`arrived, chip`serial
      ensures Valid() && Rely(old(chip.regs), chip.regs)
      ensures old(chip.arrived) <= chip.arrived
      ensures SPI_BYTE_MICROS <= chip.micros - old(chip.micros) <= MAX_STALL_MICROS
      ensures v == chip.regs[address]
    {
      Elapse();
      v := chip.regs[address];
    }

    method ReadStatus() returns (status: byte)
      requires Valid()
      modifies chip`regs, chip`micros, chip`arrived, chip`serial
      ensures Valid() && Rely(old(chip.regs), chip.regs)
      ensures old(chip.arrived) <= chip.arrived
      ensures status == Status(chip.regs)
    {
      Elapse();
      status := Status(chip.regs);
    }

    /** mcp2515_modifyRegister of CANINTF with the flag of one transmit buffer and data 0. */
    method ClearTransmitFlag(n: nat) returns (ghost mid: Regs)
      requires Sound() && n < N_TXBUFFERS
      modifies chip`regs, chip`micros, chip`arrived, chip`serial
      ensures Sound() && (old(TxSafe(chip.regs)) ==> TxSafe(chip.regs))
      ensures old(chip.arrived) <= chip.arrived
      ensures |mid| == REGISTERS && Rely(old(chip.regs), mid) && chip.regs == ClearTxFlag(mid, n)
    {
      hide Bit, Image, Keeps, Modify, TxIf, TxDone, TxSafe, InConfig;
      Elapse();
      mid := chip.regs;
      ClearTxFlagEffect(mid, n);
      label L:
      chip.regs := ClearTxFlag(chip.regs, n);
      SameImage(mid, chip.regs, RxBuf(0));
      SameImage(mid, chip.regs, RxBuf(1));
      assert forall k: nat :: k < |chip.arrived| ==> (chip.Buffered(k) <==> old@L(chip.Buffered(k)));
      if old(TxSafe(chip.regs)) {
        ClearedSafe(old(chip.regs), mid, n);
      }
    }

    /** mcp2515_modifyRegister of CANINTF with the wake flag. */
    method ModifyWakeFlag(data: byte)
      requires Valid()
      modifies chip
      ensures Valid() && old(chip.arrived) <= chip.arrived
      ensures Keeps(old(chip.regs), chip.regs) && chip.regs[CANINTE] == old(chip.regs)[CANINTE]
      ensures Bit(chip.regs[CANINTF], WAKIF) <==> Bit(data, WAKIF)
      ensures chip.log == old(chip.log) + [WakeFlag(chip.regs[CANINTF])]
    {
      hide Bit, Image, ConfigSame, TxRely, Modify;
      Elapse();
      ghost var mid := chip.regs;
      WakeFlagKeeps(mid, data);
      WakeFlagKeepsRx(mid, data);
      WakeFlagWritten(mid[CANINTF], data);
      label L:
      chip.regs := chip.regs[CANINTF := Modify(chip.regs[CANINTF], WAKIF, data)];
      chip.log := chip.log + [WakeFlag(chip.regs[CANINTF])];
      ChipKeepsTxSafe(mid, chip.regs);
      assert forall k: nat :: k < |chip.arrived| ==> (chip.Buffered(k) <==> old@L(chip.Buffered(k)));
      KeepsTrans(old(chip.regs), mid, chip.regs);
    }

    /** mcp2515_modifyRegister or mcp2515_setRegister of CANCTRL or CANINTE: `v` is computed from the old value. */
    method WriteControl(address: nat, mask: byte, data: byte) returns (ghost mid: Regs)
      requires Valid() && (address == CANCTRL || address == CANINTE)
      modifies chip`regs, chip`micros, chip`arrived, chip`serial
      ensures Valid() && old(chip.arrived) <= chip.arrived
      ensures |mid| == REGISTERS && Rely(old(chip.regs), mid)
      ensures chip.regs == mid[address := Modify(mid[address], mask, data)]
      ensures Keeps(old(chip.regs), chip.regs)
      ensures SPI_BYTE_MICROS <= chip.micros - old(chip.micros) <= MAX_STALL_MICROS
    {
      hide Bit, Image, ConfigSame, TxRely, Modify;
      Elapse();
      mid := chip.regs;
      ControlKeeps(mid, address, Modify(mid[address], mask, data));
      label L:
      chip.regs := chip.regs[address := Modify(chip.regs[address], mask, data)];
      ChipKeepsTxSafe(mid, chip.regs);
      assert forall k: nat :: k < |chip.arrived| ==> (chip.Buffered(k) <==> old@L(chip.Buffered(k)));
      KeepsTrans(old(chip.regs), mid, chip.regs);
    }

    // ---- choosing a transmit buffer

    /** READ STATUS, recorded. */
    method Poll() returns (status: byte)
      requires Valid()
      modifies chip
      ensures Valid() && Rely(old(chip.regs), chip.regs)
      ensures old(chip.arrived) <= chip.arrived
      ensures status == Status(chip.regs) && chip.log == old(chip.log) + [Polled(status)]
    {
      hide Bit, Image, Keeps, TxSafe, Status;
      status := ReadStatus();
      chip.log := chip.log + [Polled(status)];
    }

    /** mcp2515_isTXBufFree. */
    method IsTxBufFree(iBuf: nat) returns (res: byte, txbuf_n: nat, ghost polls: seq<byte>)
      requires Valid()
      modifies chip
      ensures Valid() && Untouched(old(chip.regs), chip.regs)
      ensures chip.log == old(chip.log) + PollEvents(polls)
      ensures res == MCP2515_OK || res == MCP_ALLTXBUSY
      ensures res == MCP2515_OK <==>
        |polls| == 1 && iBuf < N_TXBUFFERS && !Bit(polls[0], TxStatusPending(iBuf))
      ensures iBuf < N_TXBUFFERS ==> |polls| == 1
      ensures res == MCP2515_OK ==> txbuf_n == TxCtrl(iBuf) + 1 && Idle(chip.regs, iBuf)
      ensures res != MCP2515_OK ==> txbuf_n == 0
    {
      hide Bit, Image, Keeps, TxSafe, Status, TxIf, Untouched, Rely, ClearTxFlag, Idle;
      txbuf_n := 0;
      polls := [];
      if iBuf >= N_TXBUFFERS {
        KeepsSelf();
        return MCP_ALLTXBUSY, 0, polls;
      }
      var status := Poll();
      polls := [status];
      StatusBits(chip.regs);
      ghost var seen := chip.regs;
      RelyUntouched(old(chip.regs), seen);
      if Bit(status, TxStatusPending(iBuf)) {
        return MCP_ALLTXBUSY, 0, polls;
      }
      txbuf_n := Claim(iBuf);
      UntouchedTrans(old(chip.regs), seen, chip.regs);
      res := MCP2515_OK;
    }

    lemma KeepsSelf()
      requires chip.Valid()
      ensures Untouched(chip.regs, chip.regs)
    {
      KeepsRefl(chip.regs);
      RelyUntouched(chip.regs, chip.regs);
    }

    /** Clear the flag of a buffer just seen free; it is idle then, and this is its SIDH address. */
    method Claim(n: nat) returns (txbuf_n: nat)
      requires Valid() && n < N_TXBUFFERS && !Pending(chip.regs, n)
      modifies chip`regs, chip`micros, chip`arrived, chip`serial
      ensures Valid() && Untouched(old(chip.regs), chip.regs)
      ensures old(chip.arrived) <= chip.arrived
      ensures txbuf_n == TxCtrl(n) + 1 && Idle(chip.regs, n)
    {
      hide Bit, Image, Keeps, TxSafe, Status, TxIf, Untouched, Rely, ClearTxFlag, Idle;
      txbuf_n := TxCtrl(n) + 1;
      ghost var mid := ClearTransmitFlag(n);
      SeenFreeIsIdle(old(chip.regs), mid, n);
      RelyUntouched(old(chip.regs), mid);
      ClearUntouched(mid, n);
      UntouchedTrans(old(chip.regs), mid, chip.regs);
    }

    /** mcp2515_getNextFreeTXBuf: the lowest unreserved buffer that the status shows free. */
    method GetNextFreeTxBuf() returns (res: byte, txbuf_n: nat, ghost status: byte, ghost n: nat, ghost seen: Regs)
      requires Valid()
      modifies chip
      ensures Valid() && Untouched(old(chip.regs), chip.regs)
      ensures old(chip.arrived) <= chip.arrived
      ensures |seen| == REGISTERS && Rely(old(chip.regs), seen) && status == Status(seen)
      ensures chip.log == old(chip.log) + [Polled(status)]
      ensures res == MCP2515_OK || res == MCP_ALLTXBUSY
      ensures res == MCP2515_OK ==>
        n < N_TXBUFFERS && Offers(status, nReservedTx, n) && txbuf_n == TxCtrl(n) + 1 && Idle(chip.regs, n)
      ensures res == MCP_ALLTXBUSY ==> OffersNone(status, nReservedTx) && txbuf_n == 0 && chip.regs == seen
    {
      hide Bit, Image, Keeps, TxSafe, Status, TxIf, Untouched, Rely, ClearTxFlag, Idle, And, TxStatusPending;
      var s := Poll();
      status, n, seen := s, 0, chip.regs;
      StatusBits(seen);
      RelyUntouched(old(chip.regs), seen);
      txbuf_n := 0;
      var pending := And(s, 0x54);
      if pending == 0x54 {
        return MCP_ALLTXBUSY, 0, s, 0, seen;
      }
      for i := 0 to N_TXBUFFERS - nReservedTx
        invariant Valid() && chip.regs == seen && chip.log == old(chip.log) + [Polled(s)] && txbuf_n == 0
        invariant old(chip.arrived) <= chip.arrived
        invariant forall m :: 0 <= m < i ==> Bit(s, TxStatusPending(m))
      {
        PendingMask(s, i);
        if !Bit(pending, TxStatusPending(i)) {
          n := i;
          txbuf_n := Claim(i);
          UntouchedTrans(old(chip.regs), seen, chip.regs);
          return MCP2515_OK, txbuf_n, s, n, seen;
        }
      }
      return MCP_ALLTXBUSY, 0, s, 0, seen;
    }

    // ---- sending

    /**
     The transcript of one transmission through buffer n: load it, pending at that moment or not, then
     request to send, with exactly these bytes at the start of the buffer.
     */
    ghost predicate SentFrom(n: nat, wasPending: bool, bytes: seq<byte>, before: seq<Event>)
      reads chip
    {
      exists image ::
        bytes <= image && |image| == 13 && chip.log == before + [Loaded(n, wasPending, bytes), Started(n, image)]
    }

    /** mcp2515_write_canMsg and mcp2515_start_transmit; `late` is the chip when the buffer is loaded. */
    method WriteCanMsg(txbuf_n: nat, id: bv32, ext: byte, rtrBit: byte, len: byte, buf: seq<byte>, ghost n: nat)
      returns (ghost late: Regs)
      requires Sound() && |buf| >= DataCount(len)
      requires n < N_TXBUFFERS && txbuf_n == TxCtrl(n) + 1
      modifies chip
      ensures Sound() && Untouched(old(chip.regs), chip.regs)
      ensures old(chip.arrived) <= chip.arrived
      ensures |late| == REGISTERS && Rely(old(chip.regs), late)
      ensures SentFrom(n, Pending(late, n), EncodeMsg(id, ext, rtrBit, len, buf), old(chip.log))
      ensures Laid(EncodeMsg(id, ext, rtrBit, len, buf), id, ext, rtrBit, len, buf)
      ensures old(TxSafe(chip.regs) && Idle(chip.regs, n)) ==> Valid() && !Pending(late, n)
      ensures Pending(chip.regs, n)
    {
      hide Bit, Image, Keeps, TxSafe, Status, TxIf, Untouched, Rely, Patch, StartSend, EncodeMsg, TxDone, Laid;
      var bytes := EncodeMsg(id, ext, rtrBit, len, buf);
      EncodeMsgLaid(id, ext, rtrBit, len, buf, bytes);
      late := LoadBuffer(txbuf_n, bytes, n);
      ghost var mid := chip.regs;
      ghost var image := StartTransmit(txbuf_n, bytes, n);
      UntouchedTrans(old(chip.regs), mid, chip.regs);
      assert chip.log == old(chip.log) + [Loaded(n, Pending(late, n), bytes), Started(n, image)];
    }

    method LoadBuffer(txbuf_n: nat, bytes: seq<byte>, ghost n: nat) returns (ghost late: Regs)
      requires Sound() && |bytes| <= 13
      requires n < N_TXBUFFERS && txbuf_n == TxCtrl(n) + 1
      modifies chip
      ensures Sound() && Untouched(old(chip.regs), chip.regs)
      ensures old(chip.arrived) <= chip.arrived
      ensures |late| == REGISTERS && Rely(old(chip.regs), late)
      ensures old(TxSafe(chip.regs) && Idle(chip.regs, n)) ==> TxSafe(chip.regs) && Idle(chip.regs, n) && Idle(late, n)
      ensures bytes <= Image(chip.regs, TxCtrl(n) + 1)
      ensures chip.log == old(chip.log) + [Loaded(n, Pending(late, n), bytes)]
    {
      hide Bit, Image, Keeps, TxSafe, Status, TxIf, Untouched, Rely, Patch, Idle;
      Elapse();
      late := chip.regs;
      RelyUntouched(old(chip.regs), late);
      LoadUntouched(late, n, bytes);
      ghost var k := chip.LoadTx(TxSidhToTxLoad(txbuf_n), bytes);
      UntouchedTrans(old(chip.regs), late, chip.regs);
      if old(TxSafe(chip.regs) && Idle(chip.regs, n)) {
        StaysSafe(old(chip.regs), late, n);
      }
    }

    method StartTransmit(txbuf_n: nat, ghost bytes: seq<byte>, ghost n: nat) returns (ghost image: seq<byte>)
      requires Sound() && n < N_TXBUFFERS && txbuf_n == TxCtrl(n) + 1
      requires bytes <= Image(chip.regs, TxCtrl(n) + 1)
      modifies chip
      ensures Sound() && Untouched(old(chip.regs), chip.regs)
      ensures old(TxSafe(chip.regs) && Idle(chip.regs, n)) ==> TxSafe(chip.regs)
      ensures Pending(chip.regs, n)
      ensures old(chip.arrived) <= chip.arrived
      ensures bytes <= image && |image| == 13 && chip.log == old(chip.log) + [Started(n, image)]
    {
      hide Bit, Image, Keeps, TxSafe, Status, TxIf, Untouched, Rely, Idle, StartSend;
      Elapse();
      ghost var mid := chip.regs;
      RelyUntouched(old(chip.regs), mid);
      ImageStable(old(chip.regs), mid, n);
      StartKeepsRest(mid, n);
      image := Image(mid, TxCtrl(n) + 1);
      ghost var k := chip.Rts(TxSidhToRts(txbuf_n));
      UntouchedTrans(old(chip.regs), mid, chip.regs);
      if old(TxSafe(chip.regs) && Idle(chip.regs, n)) {
        StaysSafe(old(chip.regs), mid, n);
        StartUntouched(mid, n);
      }
    }

    /**
     sendMsgBuf with a status flag.  `mid` is the chip when the flag is cleared, `late` when the buffer is
     loaded.  A buffer not pending at the call is loaded while idle.  One that is, because the status was
     not current, may be overwritten (`OverwritePossibleIff`), and then only `Sound` is left.
     */
    method SendMsgBufStatus(status: byte, id: bv32, ext: byte, rtrBit: byte, len: byte, buf: seq<byte>)
      returns (res: byte, ghost n: nat, ghost mid: Regs, ghost late: Regs)
      requires Valid() && |buf| >= DataCount(len)
      modifies chip
      ensures Sound() && Untouched(old(chip.regs), chip.regs)
      ensures res == CAN_OK <==> status == TxIf(0) || status == TxIf(1) || status == TxIf(2)
      ensures res == CAN_OK ==> n < N_TXBUFFERS && status == TxIf(n) && StaleCourse(old(chip.regs), mid, late, n)
      ensures res == CAN_OK ==> SentFrom(n, Pending(late, n), EncodeMsg(id, ext, rtrBit, len, buf), old(chip.log))
      ensures res == CAN_OK && !old(Pending(chip.regs, n)) ==> Valid() && !Pending(late, n)
      ensures res == CAN_OK ==> (Pending(late, n) ==> old(Pending(chip.regs, n) && !TxDone(chip.regs, n)))
      ensures res != CAN_OK ==> res == CAN_FAILTX && chip.log == old(chip.log) && chip.regs == old(chip.regs)
    {
      hide Bit, Image, Keeps, Untouched, Rely, Idle, ClearTxFlag, EncodeMsg, Status, SentFrom;
      n := if status == TxIf(0) then 0 else if status == TxIf(1) then 1 else 2;
      mid, late := chip.regs, chip.regs;
      var txbuf_n := StatusToTxSidh(status);
      if txbuf_n == 0 {
        KeepsSelf();
        return CAN_FAILTX, n, mid, late;
      }
      var i := if status == 0x04 then 0 else if status == 0x08 then 1 else 2;
      mid := ClearTransmitFlag(i);
      RelyUntouched(old(chip.regs), mid);
      ClearUntouched(mid, n);
      ghost var clear := chip.regs;
      UntouchedTrans(old(chip.regs), mid, clear);
      if !old(Pending(chip.regs, n)) {
        SeenFreeIsIdle(old(chip.regs), mid, n);
      }
      late := WriteCanMsg(txbuf_n, id, ext, rtrBit, len, buf, n);
      UntouchedTrans(old(chip.regs), clear, chip.regs);
      res := CAN_OK;
    }

    /** The documented way to sendMsgBuf: take a flag from readRxTxStatus with checkClearTxStatus, then send. */
    method SendWhenFlagged(id: bv32, ext: byte, rtrBit: byte, len: byte, buf: seq<byte>, iTxBuf: nat)
      returns (res: byte, ghost n: nat)
      requires Valid() && |buf| >= DataCount(len)
      modifies chip
      ensures Valid() && Untouched(old(chip.regs), chip.regs)
      ensures old(AnyTxDone(iTxBuf)) ==> res == CAN_OK
      ensures res == CAN_OK ==>
        n < N_TXBUFFERS && SentFrom(n, false, EncodeMsg(id, ext, rtrBit, len, buf), old(chip.log))
      ensures res != CAN_OK ==> res == CAN_FAILTX && chip.log == old(chip.log)
    {
      hide Bit, Image, Keeps, TxSafe, Untouched, Rely, Idle, ClearTxFlag, EncodeMsg, TxIf, Modify, TxDone, RxFull;
      hide StaleCourse;
      var status := ReadRxTxStatus();
      ghost var seen := chip.regs;
      RelyUntouched(old(chip.regs), seen);
      FlagsPersist(old(chip.regs), seen);
      var flag, rest;
      flag, rest, n := CheckClearTxStatus(status, iTxBuf);
      FlagNames();
      if flag != 0 {
        FlaggedNotPending(seen, n);
      }
      ghost var mid, late;
      res, n, mid, late := SendMsgBufStatus(flag, id, ext, rtrBit, len, buf);
      UntouchedTrans(old(chip.regs), seen, chip.regs);
    }

    /** A buffer the caller may use by its flag has completed. */
    ghost predicate AnyTxDone(iTxBuf: nat)
      reads this, chip
      requires |chip.regs| == REGISTERS
    {
      if iTxBuf < N_TXBUFFERS then TxDone(chip.regs, iTxBuf)
      else exists m: nat :: m + nReservedTx < N_TXBUFFERS && TxDone(chip.regs, m)
    }

    /** trySendMsgBuf: one look at the status; a buffer index below 3 asks for that very buffer. */
    method TrySendMsgBuf(id: bv32, ext: byte, rtrBit: byte, len: byte, buf: seq<byte>, iTxBuf: nat)
      returns (res: byte, ghost status: byte, ghost n: nat)
      requires Valid() && |buf| >= DataCount(len)
      modifies chip
      ensures Valid() && Untouched(old(chip.regs), chip.regs)
      ensures res == CAN_OK || res == CAN_FAILTX
      ensures res == CAN_OK ==>
        SentFrom(n, false, EncodeMsg(id, ext, rtrBit, len, buf), old(chip.log) + [Polled(status)])
      ensures res == CAN_FAILTX ==> chip.log == old(chip.log) + [Polled(status)]
      ensures iTxBuf < N_TXBUFFERS ==>
        (n == iTxBuf && (res == CAN_OK <==> !Bit(status, TxStatusPending(iTxBuf))))
      ensures iTxBuf >= N_TXBUFFERS ==>
        if res == CAN_OK then Offers(status, nReservedTx, n) else OffersNone(status, nReservedTx)
    {
      hide Bit, Image, Keeps, TxSafe, Status, TxIf, Untouched, Rely, Idle, TxStatusPending, EncodeMsg;
      hide Offers, OffersNone;
      var txbuf_n, r;
      if iTxBuf < N_TXBUFFERS {
        ghost var polls;
        r, txbuf_n, polls := IsTxBufFree(iTxBuf);
        status, n := polls[0], iTxBuf;
        assert PollEvents(polls) == [Polled(status)];
      } else {
        ghost var seen;
        r, txbuf_n, status, n, seen := GetNextFreeTxBuf();
      }
      if r != MCP2515_OK {
        return CAN_FAILTX, status, n;
      }
      OffersInRange(status, n);
      ghost var mid := chip.regs;
      ghost var late := WriteCanMsg(txbuf_n, id, ext, rtrBit, len, buf, n);
      UntouchedTrans(old(chip.regs), mid, chip.regs);
      res := CAN_OK;
    }

    lemma OffersInRange(status: byte, n: nat)
      ensures Offers(status, nReservedTx, n) ==> n < N_TXBUFFERS
    {
    }

    /** Poll until a buffer is free: at most TIMEOUTVALUE readings, each but the last in vain. */
    method AcquireBuffer()
      returns (uiTimeOut: nat, txbuf_n: nat, ghost polls: seq<byte>, ghost polled: seq<Regs>, ghost n: nat)
      requires Valid()
      modifies chip
      ensures Valid() && Untouched(old(chip.regs), chip.regs)
      ensures old(chip.arrived) <= chip.arrived
      ensures 1 <= |polls| == uiTimeOut <= TIMEOUTVALUE && chip.log == old(chip.log) + PollEvents(polls)
      ensures Linked(old(chip.regs), polled) && StatusOf(polls, polled)
      ensures forall i :: 0 <= i < |polls| - 1 ==> OffersNone(polls[i], nReservedTx)
      ensures |polls| == TIMEOUTVALUE <==> PollsRunOut(polls, nReservedTx)
      ensures |polls| < TIMEOUTVALUE ==> Offers(polls[|polls| - 1], nReservedTx, n)
      ensures Offers(polls[|polls| - 1], nReservedTx, n) ==>
        n < N_TXBUFFERS && txbuf_n == TxCtrl(n) + 1 && Idle(chip.regs, n)
      ensures Offers(polls[|polls| - 1], nReservedTx, n) || OffersNone(polls[|polls| - 1], nReservedTx)
    {
      hide Bit, Image, Keeps, TxSafe, Status, TxIf, Untouched, Rely, Idle, TxStatusPending, Offers, OffersNone, Linked;
      KeepsSelf();
      NothingPolled();
      var res := MCP_ALLTXBUSY;
      uiTimeOut, txbuf_n, polls, polled, n := 0, 0, [], [], 0;
      while res == MCP_ALLTXBUSY && uiTimeOut < TIMEOUTVALUE
        invariant |polls| == uiTimeOut <= TIMEOUTVALUE && (uiTimeOut == 0 ==> res == MCP_ALLTXBUSY)
        invariant Valid() && Untouched(old(chip.regs), chip.regs)
        invariant old(chip.arrived) <= chip.arrived
        invariant chip.log == old(chip.log) + PollEvents(polls)
        invariant Linked(old(chip.regs), polled) && StatusOf(polls, polled)
        invariant res == MCP_ALLTXBUSY ==> chip.regs == Before(old(chip.regs), polled, |polled|)
        invariant forall i :: 0 <= i < |polls| - 1 ==> OffersNone(polls[i], nReservedTx)
        invariant res == MCP_ALLTXBUSY && uiTimeOut > 0 ==> OffersNone(polls[|polls| - 1], nReservedTx)
        invariant res == MCP_ALLTXBUSY || res == MCP2515_OK
        invariant res != MCP_ALLTXBUSY ==>
          && n < N_TXBUFFERS && Offers(polls[|polls| - 1], nReservedTx, n)
          && txbuf_n == TxCtrl(n) + 1 && Idle(chip.regs, n)
        decreases TIMEOUTVALUE - uiTimeOut
      {
        ghost var before := chip.regs;
        ghost var status, seen;
        res, txbuf_n, status, n, seen := GetNextFreeTxBuf();
        UntouchedTrans(old(chip.regs), before, chip.regs);
        assert PollEvents(polls + [status]) == PollEvents(polls) + [Polled(status)];
        LinkedPush(old(chip.regs), polled, seen);
        polls, polled := polls + [status], polled + [seen];
        uiTimeOut := uiTimeOut + 1;
      }
      OffersOrNot(polls[|polls| - 1], n);
    }

    lemma NothingPolled()
      requires chip.Valid()
      ensures Linked(chip.regs, [])
    {
    }

    lemma OffersOrNot(status: byte, n: nat)
      ensures !(Offers(status, nReservedTx, n) && OffersNone(status, nReservedTx))
    {
    }

    /** The control register of a transmit buffer, recorded. */
    method CheckSent(txbuf_n: nat, ghost n: nat) returns (res1: byte)
      requires Valid() && n < N_TXBUFFERS && txbuf_n == TxCtrl(n) + 1
      modifies chip
      ensures Valid() && Rely(old(chip.regs), chip.regs)
      ensures old(chip.arrived) <= chip.arrived
      ensures res1 == chip.regs[TxCtrl(n)] && chip.log == old(chip.log) + [Checked(n, res1)]
    {
      hide Bit, Image, Keeps, TxSafe, InConfig;
      res1 := ReadRegister(txbuf_n - 1);
      chip.log := chip.log + [Checked(n, res1)];
    }

    /** Wait for the transmission to leave: at most TIMEOUTVALUE readings of the control register. */
    method AwaitSent(txbuf_n: nat, ghost n: nat)
      returns (uiTimeOut: nat, ghost checks: seq<byte>, ghost checked: seq<Regs>)
      requires Valid() && n < N_TXBUFFERS && txbuf_n == TxCtrl(n) + 1
      modifies chip
      ensures Valid() && Untouched(old(chip.regs), chip.regs)
      ensures old(chip.arrived) <= chip.arrived
      ensures 1 <= |checks| == uiTimeOut <= TIMEOUTVALUE && chip.log == old(chip.log) + CheckEvents(n, checks)
      ensures Linked(old(chip.regs), checked) && ControlOf(checks, checked, n)
      ensures forall i :: 0 <= i < |checks| - 1 ==> Bit(checks[i], TXREQ)
      ensures |checks| == TIMEOUTVALUE <==> ChecksRunOut(checks)
      ensures |checks| < TIMEOUTVALUE ==> !Bit(checks[|checks| - 1], TXREQ)
    {
      hide Bit, Image, Keeps, TxSafe, Status, TxIf, Untouched, Rely, Linked, TxDone, Pending, RxFull;
      KeepsSelf();
      NothingPolled();
      var pending := true;
      uiTimeOut, checks, checked := 0, [], [];
      while pending && uiTimeOut < TIMEOUTVALUE
        invariant |checks| == uiTimeOut <= TIMEOUTVALUE && (uiTimeOut == 0 ==> pending)
        invariant Valid() && Untouched(old(chip.regs), chip.regs)
        invariant old(chip.arrived) <= chip.arrived
        invariant chip.log == old(chip.log) + CheckEvents(n, checks)
        invariant Linked(old(chip.regs), checked) && ControlOf(checks, checked, n)
        invariant chip.regs == Before(old(chip.regs), checked, |checked|)
        invariant forall i :: 0 <= i < |checks| - 1 ==> Bit(checks[i], TXREQ)
        invariant uiTimeOut > 0 ==> (pending <==> Bit(checks[|checks| - 1], TXREQ))
        decreases TIMEOUTVALUE - uiTimeOut
      {
        ghost var before := chip.regs;
        uiTimeOut := uiTimeOut + 1;
        var res1 := CheckSent(txbuf_n, n);
        RelyUntouched(before, chip.regs);
        UntouchedTrans(old(chip.regs), before, chip.regs);
        LinkedPush(old(chip.regs), checked, chip.regs);
        assert CheckEvents(n, checks + [res1]) == CheckEvents(n, checks) + [Checked(n, res1)];
        checks, checked := checks + [res1], checked + [chip.regs];
        pending := Bit(res1, TXREQ);
      }
    }

    /**
     sendMsg.  The whole exchange is: status readings, then at most one load and one start of a single
     buffer, then readings of its control register.  CAN_GETTXBFTIMEOUT comes exactly when the first
     TIMEOUTVALUE - 1 readings offer no buffer, and CAN_SENDMSGTIMEOUT exactly when the first
     TIMEOUTVALUE - 1 checks show it pending, whatever the last ones say.
     */
    method SendMsg(id: bv32, ext: byte, rtrBit: byte, len: byte, buf: seq<byte>, wait_sent: bool)
      returns (res: byte, ghost t: Transmission)
      requires Valid() && |buf| >= DataCount(len)
      modifies chip, `can_id, `ext_flg, `rtr
      ensures Valid() && Untouched(old(chip.regs), chip.regs)
      ensures old(chip.arrived) <= chip.arrived
      ensures can_id == id && ext_flg == ext && rtr == rtrBit
      ensures 1 <= |t.polls| <= 50 && |t.checks| <= 50
      ensures Linked(old(chip.regs), t.polled) && StatusOf(t.polls, t.polled)
      ensures forall i :: 0 <= i < |t.polls| - 1 ==> OffersNone(t.polls[i], nReservedTx)
      ensures res == CAN_GETTXBFTIMEOUT <==> PollsRunOut(t.polls, nReservedTx)
      ensures res == CAN_GETTXBFTIMEOUT ==> chip.log == old(chip.log) + PollEvents(t.polls)
      ensures res == CAN_GETTXBFTIMEOUT && Offers(t.polls[|t.polls| - 1], nReservedTx, t.n) ==>
        t.n < N_TXBUFFERS && Idle(chip.regs, t.n)
      ensures res != CAN_GETTXBFTIMEOUT ==> Offers(t.polls[|t.polls| - 1], nReservedTx, t.n) && t.n < N_TXBUFFERS
      ensures res != CAN_GETTXBFTIMEOUT ==> EncodeMsg(id, ext, rtrBit, len, buf) <= t.image && |t.image| == 13
      ensures res != CAN_GETTXBFTIMEOUT ==> Laid(t.image, id, ext, rtrBit, len, buf)
      ensures res != CAN_GETTXBFTIMEOUT ==>
        chip.log == old(chip.log) + PollEvents(t.polls)
          + [Loaded(t.n, false, EncodeMsg(id, ext, rtrBit, len, buf)), Started(t.n, t.image)]
          + CheckEvents(t.n, t.checks)
      ensures !wait_sent && res != CAN_GETTXBFTIMEOUT ==> t.checks == [] && res == CAN_OK
      ensures wait_sent && res != CAN_GETTXBFTIMEOUT ==>
        && 1 <= |t.checks|
        && |t.started| == REGISTERS && Pending(t.started, t.n)
        && Linked(t.started, t.checked) && ControlOf(t.checks, t.checked, t.n)
        && (forall i :: 0 <= i < |t.checks| - 1 ==> Bit(t.checks[i], TXREQ))
        && res == (if ChecksRunOut(t.checks) then CAN_SENDMSGTIMEOUT else CAN_OK)
        && (res == CAN_OK ==> !Bit(t.checks[|t.checks| - 1], TXREQ))
    {
      hide Bit, Image, Keeps, TxSafe, Status, TxIf, Untouched, Rely, Idle, TxStatusPending, EncodeMsg;
      hide Offers, OffersNone;
      hide Linked, StatusOf, ControlOf, PollsRunOut, ChecksRunOut, Pending, TxDone, Laid;
      can_id, ext_flg, rtr := id, ext, rtrBit;
      var uiTimeOut, txbuf_n;
      ghost var polls, polled, n;
      uiTimeOut, txbuf_n, polls, polled, n := AcquireBuffer();
      t := Transmission(polls, n, [], [], polled, chip.regs, []);
      if uiTimeOut == TIMEOUTVALUE {
        return CAN_GETTXBFTIMEOUT, t;
      }
      OffersInRange(polls[|polls| - 1], n);
      ghost var mid, image, started, checks, checked := chip.regs, [], chip.regs, [], [];
      res, image, started, checks, checked := Dispatch(txbuf_n, id, ext, rtrBit, len, buf, wait_sent, n);
      t := t.(image := image, started := started, checks := checks, checked := checked);
      EncodeMsgLaid(id, ext, rtrBit, len, buf, image);
      UntouchedTrans(old(chip.regs), mid, chip.regs);
    }

    /** The part of sendMsg after a buffer was found. */
    method Dispatch(txbuf_n: nat, id: bv32, ext: byte, rtrBit: byte, len: byte, buf: seq<byte>, wait_sent: bool,
                    ghost n: nat)
      returns (res: byte, ghost image: seq<byte>,
               ghost started: Regs, ghost checks: seq<byte>, ghost checked: seq<Regs>)
      requires Valid() && |buf| >= DataCount(len)
      requires n < N_TXBUFFERS && txbuf_n == TxCtrl(n) + 1 && Idle(chip.regs, n)
      modifies chip
      ensures Valid() && Untouched(old(chip.regs), chip.regs)
      ensures old(chip.arrived) <= chip.arrived
      ensures EncodeMsg(id, ext, rtrBit, len, buf) <= image && |image| == 13 && |checks| <= TIMEOUTVALUE
      ensures chip.log == old(chip.log)
        + [Loaded(n, false, EncodeMsg(id, ext, rtrBit, len, buf)), Started(n, image)] + CheckEvents(n, checks)
      ensures !wait_sent ==> checks == [] && res == CAN_OK
      ensures wait_sent ==>
        && 1 <= |checks|
        && |started| == REGISTERS && Pending(started, n)
        && Linked(started, checked) && ControlOf(checks, checked, n)
        && (forall i :: 0 <= i < |checks| - 1 ==> Bit(checks[i], TXREQ))
        && res == (if ChecksRunOut(checks) then CAN_SENDMSGTIMEOUT else CAN_OK)
        && (res == CAN_OK ==> !Bit(checks[|checks| - 1], TXREQ))
    {
      hide Bit, Image, Keeps, TxSafe, Status, TxIf, Untouched, Rely, Idle, EncodeMsg, Linked, ControlOf, ChecksRunOut;
      ghost var late := WriteCanMsg(txbuf_n, id, ext, rtrBit, len, buf, n);
      ghost var bytes, log := EncodeMsg(id, ext, rtrBit, len, buf), chip.log;
      image :| bytes <= image && |image| == 13 && log == old(chip.log) + [Loaded(n, false, bytes), Started(n, image)];
      started, checks, checked := chip.regs, [], [];
      res := CAN_OK;
      if wait_sent {
        var uiTimeOut;
        uiTimeOut, checks, checked := AwaitSent(txbuf_n, n);
        UntouchedTrans(old(chip.regs), started, chip.regs);
        if uiTimeOut == TIMEOUTVALUE {
          return CAN_SENDMSGTIMEOUT, image, started, checks, checked;
        }
      }
    }

    // ---- receiving

    /** checkReceive: a frame waits, and will wait until it is read. */
    method CheckReceive() returns (res: byte)
      requires Valid()
      modifies chip`regs, chip`micros, chip`arrived, chip`serial
      ensures Valid() && Rely(old(chip.regs), chip.regs)
      ensures res == if RxFull(chip.regs, 0) || RxFull(chip.regs, 1) then CAN_MSGAVAIL else CAN_NOMSG
      ensures res == CAN_MSGAVAIL <==> chip.regs[0x2C] & 0x03 != 0
    {
      hide Bit, Image, Keeps, TxSafe, Status, RxFull;
      var status := ReadStatus();
      StatusBits(chip.regs);
      EitherFull(chip.regs);
      res := if Bit(status, 0x03) then CAN_MSGAVAIL else CAN_NOMSG;
    }

    /**
     READ RX BUFFER n; `mid` is the chip at that moment.  It takes the frame out of the chip if the buffer
     shows one; otherwise it hands out what the buffer still holds.
     */
    method TakeFrame(n: nat) returns (bytes: seq<byte>, ghost mid: Regs, ghost k: nat)
      requires Valid() && n < N_RXBUFFERS
      modifies chip`regs, chip`micros, chip`arrived, chip`serial, `delivered
      ensures Valid()
      ensures |mid| == REGISTERS && Rely(old(chip.regs), mid) && bytes == Image(mid, RxBuf(n))
      ensures RxFull(mid, n) ==> k !in old(delivered) && delivered == old(delivered) + {k}
      ensures RxFull(mid, n) ==> k < |chip.arrived| && bytes == chip.arrived[k]
      ensures !RxFull(mid, n) ==> delivered == old(delivered)
      ensures old(chip.arrived) <= chip.arrived
    {
      hide Bit, Keeps, TxIf, TxDone, Modify, Pending, InConfig, Image, TxSafe;
      Elapse();
      mid := chip.regs;
      ReadRxEffect(mid, n);
      k := chip.serial[n];
      bytes := chip.ReadRx(n);
      StillSafe(mid, chip.regs);
      if RxFull(mid, n) {
        delivered := delivered + {k};
      }
      SameImage(mid, chip.regs, RxBuf(0));
      SameImage(mid, chip.regs, RxBuf(1));
    }

    /** mcp2515_read_canMsg: decode the buffer, and copy the data into the caller's array in place. */
    method ReadCanMsg(n: nat, buf: array<byte>) returns (m: Message, ghost mid: Regs, ghost k: nat)
      requires Valid() && n < N_RXBUFFERS && buf.Length >= MAX_CHARS
      modifies chip`regs, chip`micros, chip`arrived, chip`serial, `delivered, buf
      ensures Valid()
      ensures |mid| == REGISTERS && Rely(old(chip.regs), mid) && m == DecodeMsg(Image(mid, RxBuf(n)))
      ensures ReadFrom(m, mid[0x61 + 16 * n..0x6E + 16 * n])
      ensures RxFull(mid, n) ==> k !in old(delivered) && delivered == old(delivered) + {k}
      ensures RxFull(mid, n) ==> k < |chip.arrived| && Image(mid, RxBuf(n)) == chip.arrived[k]
      ensures !RxFull(mid, n) ==> delivered == old(delivered)
      ensures old(chip.arrived) <= chip.arrived
      ensures buf[..] == m.data + old(buf[..])[|m.data|..]
    {
      hide Bit, Image, Keeps, TxSafe, RxFull, DecodeId, DecodeExt, Rely, ReadFrom;
      var bytes;
      bytes, mid, k := TakeFrame(n);
      m := DecodeMsg(bytes);
      DecodeMsgReads(bytes);
      ReceiveImage(mid, n);
      var count := DataCount(m.len);
      label AfterTake:
      ghost var was := buf[..];
      for i := 0 to count
        invariant forall j :: 0 <= j < buf.Length ==> buf[j] == if j < i then bytes[5 + j] else was[j]
        invariant Valid() && chip.arrived == old@AfterTake(chip.arrived) && delivered == old@AfterTake(delivered)
      {
        buf[i] := bytes[5 + i];
      }
      assert buf[..] == m.data + was[count..];
    }

    /** readRxTxStatus: receive and transmit flags in the positions of CANINTF. */
    method ReadRxTxStatus() returns (ret: byte)
      requires Valid()
      modifies chip`regs, chip`micros, chip`arrived, chip`serial
      ensures Valid() && Rely(old(chip.regs), chip.regs) && old(chip.arrived) <= chip.arrived
      ensures forall n :: 0 <= n < N_TXBUFFERS ==> (Bit(ret, TxIf(n)) <==> TxDone(chip.regs, n))
      ensures forall n :: 0 <= n < N_RXBUFFERS ==> (Bit(ret, RxIf(n)) <==> RxFull(chip.regs, n))
    {
      hide Bit, Image, Keeps, TxSafe, Status, RxFull, TxDone, Translate, TxIf, RxIf;
      var status := ReadStatus();
      TranslatedBits(chip.regs);
      ret := Translate(status);
    }

    /** checkClearTxStatus: pick a transmit flag out of a status and clear it there. */
    method CheckClearTxStatus(status: byte, iTxBuf: nat) returns (ret: byte, rest: byte, ghost n: nat)
      requires nReservedTx < N_TXBUFFERS
      ensures ret != 0 ==> n < N_TXBUFFERS && ret == TxIf(n) && Bit(status, TxIf(n)) && rest == Modify(status, ret, 0)
      ensures ret == 0 ==> rest == status
      ensures iTxBuf < N_TXBUFFERS ==> (ret != 0 <==> Bit(status, TxIf(iTxBuf))) && (ret != 0 ==> n == iTxBuf)
      ensures iTxBuf >= N_TXBUFFERS && ret != 0 ==>
        n + nReservedTx < N_TXBUFFERS && forall m :: 0 <= m < n ==> !Bit(status, TxIf(m))
      ensures iTxBuf >= N_TXBUFFERS && ret == 0 ==>
        forall m :: 0 <= m && m + nReservedTx < N_TXBUFFERS ==> !Bit(status, TxIf(m))
    {
      hide Bit, Modify;
      n := iTxBuf;
      if iTxBuf < N_TXBUFFERS {
        OneFlag(status, iTxBuf);
        ret := And(status, TxIf(iTxBuf));
        rest := Modify(status, TxIf(iTxBuf), 0);
      } else {
        ret, rest := 0, status;
        for i := 0 to N_TXBUFFERS - nReservedTx
          invariant ret == 0 && rest == status
          invariant forall m :: 0 <= m < i ==> !Bit(status, TxIf(m))
        {
          OneFlag(status, i);
          ret := And(status, TxIf(i));
          if ret != 0 {
            n := i;
            rest := Modify(status, TxIf(i), 0);
            return;
          }
        }
      }
    }

    /** The receive buffer a status names: buffer 0 before buffer 1; none is 2. */
    function NamedRx(status: byte): nat {
      if Bit(status, RxIf(0)) then 0 else if Bit(status, RxIf(1)) then 1 else 2
    }

    /**
     readMsgBufID.  It reads the buffer the status names as it is at that moment, `mid`.  The frame is one that
     arrived and is delivered for the first time exactly when the buffer is full then; otherwise it is
     whatever the buffer still holds (`StaleReadPossibleIff`).
     */
    method ReadMsgBufID(status: byte, buf: array<byte>)
      returns (res: byte, len: byte, ghost mid: Regs, ghost k: nat)
      requires Valid() && buf.Length >= MAX_CHARS
      modifies chip`regs, chip`micros, chip`arrived, chip`serial, `delivered, `can_id, `ext_flg, `rtr, buf
      ensures Valid() && old(chip.arrived) <= chip.arrived
      ensures |mid| == REGISTERS && Rely(old(chip.regs), mid)
      ensures res == if NamedRx(status) < N_RXBUFFERS then CAN_OK else CAN_NOMSG
      ensures res == CAN_OK ==> Received(Image(mid, RxBuf(NamedRx(status))), len, old(buf[..]), buf[..])
      ensures status & 0x01 != 0 ==> res == CAN_OK && Received(mid[0x61..0x6E], len, old(buf[..]), buf[..])
      ensures status & 0x01 == 0 && status & 0x02 != 0 ==>
        res == CAN_OK && Received(mid[0x71..0x7E], len, old(buf[..]), buf[..])
      ensures status & 0x03 == 0 ==> res == CAN_NOMSG
      ensures res == CAN_OK && RxFull(mid, NamedRx(status)) ==>
        && k !in old(delivered) && delivered == old(delivered) + {k}
        && k < |chip.arrived| && Image(mid, RxBuf(NamedRx(status))) == chip.arrived[k]
      ensures !(res == CAN_OK && RxFull(mid, NamedRx(status))) ==> delivered == old(delivered)
      ensures res != CAN_OK ==> len == 0 && buf[..] == old(buf[..])
    {
      hide Bit, Image, Keeps, TxSafe, RxFull, Rely, Received;
      StatusNames(status);
      ReceiveImage(chip.regs, 0);
      res, len, k, mid := CAN_OK, 0, 0, chip.regs;
      if Bit(status, 0x01) {
        len, mid, k := ReadInto(0, buf);
      } else if Bit(status, 0x02) {
        len, mid, k := ReadInto(1, buf);
      } else {
        RelyRefl(mid);
        res := CAN_NOMSG;
      }
      ReceiveImage(mid, 0);
      ReceiveImage(mid, 1);
    }

    /** Read receive buffer n into the fields of the driver and the caller's array. */
    method ReadInto(n: nat, buf: array<byte>) returns (len: byte, ghost mid: Regs, ghost k: nat)
      requires Valid() && n < N_RXBUFFERS && buf.Length >= MAX_CHARS
      modifies chip`regs, chip`micros, chip`arrived, chip`serial, `delivered, `can_id, `ext_flg, `rtr, buf
      ensures Valid() && old(chip.arrived) <= chip.arrived
      ensures |mid| == REGISTERS && Rely(old(chip.regs), mid)
      ensures Received(Image(mid, RxBuf(n)), len, old(buf[..]), buf[..])
      ensures RxFull(mid, n) ==>
        && k !in old(delivered) && delivered == old(delivered) + {k}
        && k < |chip.arrived| && Image(mid, RxBuf(n)) == chip.arrived[k]
      ensures !RxFull(mid, n) ==> delivered == old(delivered)
    {
      hide Bit, Image, Keeps, TxSafe, RxFull, DecodeMsg, Rely, ReadFrom;
      var m;
      m, mid, k := ReadCanMsg(n, buf);
      DecodeMsgReads(Image(mid, RxBuf(n)));
      rtr, ext_flg, can_id := m.rtr, m.ext, m.id;
      len := m.len;
    }

    /** The driver's fields, the length and the caller's array show the frame. */
    ghost predicate Received(frame: seq<byte>, len: byte, bufBefore: seq<byte>, bufAfter: seq<byte>)
      reads `can_id, `ext_flg, `rtr
    {
      |frame| == 13 &&
      var m := DecodeMsg(frame);
      && ReadFrom(m, frame)
      && can_id == m.id && ext_flg == m.ext && rtr == m.rtr && len == m.len
      && |m.data| <= |bufBefore| && bufAfter == m.data + bufBefore[|m.data|..]
    }

    /**
     readMsgBuf.  A frame waiting at the call is never missed, and what is read is one of the frames
     that arrived, for the first time.
     */
    method ReadMsgBuf(buf: array<byte>) returns (res: byte, len: byte, ghost k: nat)
      requires Valid() && buf.Length >= MAX_CHARS
      modifies chip`regs, chip`micros, chip`arrived, chip`serial, `delivered, `can_id, `ext_flg, `rtr, buf
      ensures Valid() && old(chip.arrived) <= chip.arrived
      ensures res == CAN_OK || res == CAN_NOMSG
      ensures old(RxFull(chip.regs, 0) || RxFull(chip.regs, 1)) ==> res == CAN_OK
      ensures res == CAN_OK ==> k !in old(delivered) && delivered == old(delivered) + {k}
      ensures res == CAN_OK ==> k < |chip.arrived| && Received(chip.arrived[k], len, old(buf[..]), buf[..])
      ensures res != CAN_OK ==> len == 0 && delivered == old(delivered) && buf[..] == old(buf[..])
    {
      hide Bit, Image, Keeps, TxSafe, RxFull, Received;
      var status := ReadRxTxStatus();
      ghost var seen, mid := chip.regs, chip.regs;
      RelyRx(old(chip.regs), seen);
      res, len, mid, k := ReadMsgBufID(status, buf);
      RelyRx(seen, mid);
    }

    // ---- operating modes

    method GetMode() returns (mode: byte)
      requires Valid()
      modifies chip
      ensures Valid() && Keeps(old(chip.regs), chip.regs) && chip.regs[CANINTE] == old(chip.regs)[CANINTE]
      ensures old(chip.arrived) <= chip.arrived
      ensures mode == Mode(chip.regs) && chip.log == old(chip.log) + [ModeSeen(mode)]
    {
      hide Bit, Image, TxRely, RxRely, ConfigSame;
      var stat := ReadRegister(CANSTAT);
      mode := And(stat, MODE_MASK);
      chip.log := chip.log + [ModeSeen(mode)];
    }

    /**
     mcp2515_requestNewMode.  It ends whatever the chip does: OK means CANSTAT showed the mode, FAIL
     means more than 200 ms went by, also when the 32-bit millisecond counter wraps in between.
     */
    method RequestNewMode(newmode: byte) returns (res: byte, ghost ms: nat)
      requires Valid()
      modifies chip
      ensures Valid() && Keeps(old(chip.regs), chip.regs) && chip.regs[CANINTE] == old(chip.regs)[CANINTE]
      ensures old(chip.arrived) <= chip.arrived
      ensures res == MCP2515_OK || res == MCP2515_FAIL
      ensures res == MCP2515_OK ==> Mode(chip.regs) == newmode
      ensures Asked(chip.regs) == And(newmode, MODE_MASK)
      ensures ms == chip.micros / 1000 - old(chip.micros) / 1000
      ensures chip.log == old(chip.log) + [ModeAsked(newmode, res == MCP2515_OK, ms)]
      ensures res == MCP2515_FAIL ==> Mode(chip.regs) != newmode && ms > MODE_TIMEOUT_MS
    {
      hide Bit, Image, TxRely, RxRely, ConfigSame, Modify, And, Millis, Elapsed, InConfig;
      ghost var start := chip.micros;
      var startTime := Millis(chip.micros);
      KeepsRefl(chip.regs);
      while true
        invariant Valid() && Keeps(old(chip.regs), chip.regs) && chip.regs[CANINTE] == old(chip.regs)[CANINTE]
        invariant chip.log == old(chip.log) && old(chip.arrived) <= chip.arrived
        invariant start <= chip.micros && chip.micros / 1000 - start / 1000 <= MODE_TIMEOUT_MS
        decreases 202_000 - (chip.micros - start)
      {
        ghost var before := chip.regs;
        ghost var mid := WriteControl(CANCTRL, MODE_MASK, newmode);
        ghost var asked := chip.regs;
        ModifiedMode(mid[CANCTRL], newmode);
        KeepsTrans(old(chip.regs), before, asked);
        var statReg := ReadRegister(CANSTAT);
        KeepsTrans(old(chip.regs), asked, chip.regs);
        ms := chip.micros / 1000 - start / 1000;
        if And(statReg, MODE_MASK) == newmode {
          chip.log := chip.log + [ModeAsked(newmode, true, ms)];
          return MCP2515_OK, ms;
        }
        ElapsedIsTrue(start, chip.micros);
        if Elapsed(Millis(chip.micros), startTime) > MODE_TIMEOUT_MS {
          chip.log := chip.log + [ModeAsked(newmode, false, ms)];
          return MCP2515_FAIL, ms;
        }
      }
    }

    /** Switch the wake-up interrupt on or off. */
    method SwitchWakeInterrupt(on: bool)
      requires Valid()
      modifies chip
      ensures Valid() && Keeps(old(chip.regs), chip.regs)
      ensures old(chip.arrived) <= chip.arrived
      ensures chip.regs[CANINTE] == Modify(old(chip.regs)[CANINTE], WAKIF, if on then WAKIF else 0)
      ensures chip.log == old(chip.log) + [WakeInterrupt(on)]
    {
      hide Bit, Image, Keeps, TxSafe, Modify;
      ghost var mid := WriteControl(CANINTE, WAKIF, if on then WAKIF else 0);
      chip.log := chip.log + [WakeInterrupt(on)];
    }

    /** Write the wake flag, then ask for a mode; `flagged` is the chip when the flag was written. */
    method FlagAndAsk(flag: byte, newmode: byte) returns (res: byte, ghost ms: nat, ghost flagged: Regs)
      requires Valid()
      modifies chip
      ensures Valid() && Keeps(old(chip.regs), chip.regs) && chip.regs[CANINTE] == old(chip.regs)[CANINTE]
      ensures old(chip.arrived) <= chip.arrived
      ensures |flagged| == REGISTERS && Keeps(old(chip.regs), flagged) && Keeps(flagged, chip.regs)
      ensures Bit(flagged[CANINTF], WAKIF) <==> Bit(flag, WAKIF)
      ensures res == MCP2515_OK || (res == MCP2515_FAIL && ms > MODE_TIMEOUT_MS)
      ensures res == MCP2515_OK ==> Mode(chip.regs) == newmode
      ensures Asked(chip.regs) == And(newmode, MODE_MASK)
      ensures chip.log == old(chip.log) + [WakeFlag(flagged[CANINTF]), ModeAsked(newmode, res == MCP2515_OK, ms)]
    {
      hide Bit, Image, Keeps, TxSafe, And, Mode, Asked;
      ModifyWakeFlag(flag);
      flagged := chip.regs;
      res, ms := RequestNewMode(newmode);
      KeepsTrans(old(chip.regs), flagged, chip.regs);
    }

    /**
     mcp2515_setCANCTRL_Mode.  Success leaves CANINTE as it was.  It ends up changed in one case only:
     the chip slept, its wake-up interrupt was off, and it did not wake in time; then the interrupt stays on.
     */
    method SetCanctrlMode(newmode: byte) returns (res: byte, ghost c: ModeChange)
      requires Valid()
      modifies chip
      ensures Valid() && old(chip.arrived) <= chip.arrived
      ensures c.newmode == newmode && c.Proper() && res == c.Result()
      ensures ModeEffect(c, old(chip.regs), chip.regs)
      ensures chip.log == old(chip.log) + c.Events()
    {
      hide Bit, Image, Modify, And, Keeps, TxSafe, Mode, Asked, WakeTranscript;
      WakeFlagBits();
      ghost var intOn := Bit(chip.regs[CANINTE], WAKIF);
      var mode := GetMode();
      ghost var awake, woke, wakeMs, stuck, raised, ms, flagged := chip.regs, true, 0, false, 0, 0, chip.regs;
      if mode == MODE_SLEEP && newmode != MODE_SLEEP {
        res, stuck, wakeMs, raised := WakeUp();
        woke := res == MCP2515_OK;
        KeepsTrans(old(chip.regs), awake, chip.regs);
        if res != MCP2515_OK {
          ListenOnlyBits();
          c := ModeChange(mode, newmode, intOn, woke, wakeMs, raised, 0, false, 0);
          return;
        }
        awake := chip.regs;
      }
      res, ms, flagged := FlagAndAsk(0, newmode);
      KeepsTrans(old(chip.regs), awake, chip.regs);
      c := ModeChange(mode, newmode, intOn, woke, wakeMs, raised, flagged[CANINTF], res == MCP2515_OK, ms);
    }

    /** The manual wake-up: enable the interrupt, raise the flag, go through LISTENONLY, restore the interrupt. */
    method WakeUp() returns (res: byte, ghost stuck: bool, ghost ms: nat, ghost raised: byte)
      requires Valid()
      modifies chip
      ensures Valid() && Keeps(old(chip.regs), chip.regs)
      ensures old(chip.arrived) <= chip.arrived
      ensures res == MCP2515_OK || (res == MCP2515_FAIL && ms > MODE_TIMEOUT_MS)
      ensures stuck <==> res == MCP2515_FAIL && !Bit(old(chip.regs)[CANINTE], WAKIF)
      ensures chip.regs[CANINTE] ==
        if stuck then Modify(old(chip.regs)[CANINTE], WAKIF, WAKIF) else old(chip.regs)[CANINTE]
      ensures stuck ==> chip.regs[CANINTE] != old(chip.regs)[CANINTE]
      ensures res != MCP2515_OK ==> Asked(chip.regs) == MODE_LISTENONLY
      ensures Bit(raised, WAKIF)
      ensures chip.log ==
        old(chip.log) + WakeTranscript(Bit(old(chip.regs)[CANINTE], WAKIF), raised, res == MCP2515_OK, ms)
    {
      hide Bit, Image, Modify, And, Keeps, TxSafe, Mode;
      SetAndClear(chip.regs[CANINTE]);
      ListenOnlyBits();
      WakeFlagBits();
      var inte := ReadRegister(CANINTE);
      var wakeIntEnabled := Bit(inte, WAKIF);
      RelyKeeps(old(chip.regs), chip.regs);
      ghost var s := chip.regs;
      if !wakeIntEnabled {
        SwitchWakeInterrupt(true);
        KeepsTrans(old(chip.regs), s, chip.regs);
        s := chip.regs;
      }
      ghost var flagged;
      res, ms, flagged := FlagAndAsk(WAKIF, MODE_LISTENONLY);
      raised := flagged[CANINTF];
      KeepsTrans(old(chip.regs), s, chip.regs);
      s := chip.regs;
      stuck := res != MCP2515_OK && !wakeIntEnabled;
      if res != MCP2515_OK {
        return;
      }
      if !wakeIntEnabled {
        SwitchWakeInterrupt(false);
        KeepsTrans(old(chip.regs), s, chip.regs);
      }
    }

    /** setMode remembers every mode but SLEEP, whether or not the chip gets there. */
    method SetMode(opMode: byte) returns (res: byte, ghost c: ModeChange)
      requires Valid()
      modifies chip, `mcpMode, `modeCalls
      ensures Valid() && old(chip.arrived) <= chip.arrived
      ensures modeCalls == old(modeCalls) + [opMode]
      ensures mcpMode == if opMode == 0x20 then old(mcpMode) else opMode
      ensures c.newmode == opMode && c.Proper() && res == c.Result()
      ensures ModeEffect(c, old(chip.regs), chip.regs)
      ensures chip.log == old(chip.log) + c.Events()
    {
      hide Bit, Image, Keeps, Modify, And;
      assert (modeCalls + [opMode])[..|modeCalls|] == modeCalls;
      if opMode != MODE_SLEEP {
        mcpMode := opMode;
      }
      modeCalls := modeCalls + [opMode];
      res, c := SetCanctrlMode(opMode);
    }

    /** It fails only when SLEEP was requested and not reached in time; CANINTE stays as it was. */
    method Sleep() returns (res: byte, ghost seen: byte, ghost c: ModeChange)
      requires Valid()
      modifies chip
      ensures Valid() && SettledIn(MODE_SLEEP, seen, c, old(chip.regs), chip.regs)
      ensures chip.log == old(chip.log) + [ModeSeen(seen)] + if seen == MODE_SLEEP then [] else c.Events()
      ensures res == CAN_OK <==> seen == MODE_SLEEP || c.reached
      ensures res == CAN_OK ==> Mode(chip.regs) == MODE_SLEEP
      ensures chip.regs[CANINTE] == old(chip.regs)[CANINTE]
    {
      hide Bit, Image, Keeps, Modify, And, Mode;
      var mode := GetMode();
      seen := mode;
      if mode == MODE_SLEEP {
        return CAN_OK, seen, NotLeft(0, false);
      }
      ghost var looked := chip.regs;
      res, c := SetCanctrlMode(MODE_SLEEP);
      KeepsTrans(old(chip.regs), looked, chip.regs);
    }

    /**
     A successful wake leaves the chip in the last mode other than SLEEP asked of setMode.  It fails only
     when that mode was requested, or the manual wake-up tried, and the time was up.
     */
    method Wake() returns (res: byte, ghost seen: byte, ghost c: ModeChange)
      requires Valid()
      modifies chip
      ensures Valid() && SettledIn(LastAwake(startMode, modeCalls), seen, c, old(chip.regs), chip.regs)
      ensures chip.log == old(chip.log) + [ModeSeen(seen)]
        + if seen == LastAwake(startMode, modeCalls) then [] else c.Events()
      ensures res == CAN_OK <==> seen == LastAwake(startMode, modeCalls) || c.reached
      ensures res == CAN_OK ==> Mode(chip.regs) == LastAwake(startMode, modeCalls)
    {
      hide Bit, Image, Keeps, Modify, And, Mode;
      var currMode := GetMode();
      seen := currMode;
      if currMode == mcpMode {
        return CAN_OK, seen, NotLeft(0, false);
      }
      ghost var looked := chip.regs;
      res, c := SetCanctrlMode(mcpMode);
      KeepsTrans(old(chip.regs), looked, chip.regs);
    }

    // ---- acceptance masks and filters

    /** mcp2515_write_id to a filter or mask register group: without effect outside configuration mode. */
    method WriteId(g: nat, ext: byte, id: bv32) returns (ghost mid: Regs)
      requires Valid() && g < GROUPS
      modifies chip
      ensures Valid() && old(chip.arrived) <= chip.arrived
      ensures |mid| == REGISTERS && Rely(old(chip.regs), mid)
      ensures chip.regs == WriteConfig(mid, GroupAddress(g), Encode(ext, id).Bytes())
      ensures chip.log == old(chip.log) + [Wrote(GroupAddress(g), Encode(ext, id).Bytes())]
    {
      hide Bit, Image, TxRely, RxRely, ConfigSame, Patch, Encode, IdRegs.Bytes, RxFull, And;
      Elapse();
      mid := chip.regs;
      var bytes := Encode(ext, id).Bytes();
      GroupWrite(mid, g, bytes);
      OnlyConfigSame(mid, Patch(mid, GroupAddress(g), bytes));
      SameFlags(mid, Patch(mid, GroupAddress(g), bytes));
      chip.regs := WriteConfig(chip.regs, GroupAddress(g), bytes);
      chip.log := chip.log + [Wrote(GroupAddress(g), bytes)];
    }

    /** The write between the two mode changes, and what it leaves alone. */
    method WriteGroup(known: bool, g: nat, ext: byte, ulData: bv32)
      requires Valid() && (known ==> g < GROUPS) && InConfig(chip.regs)
      modifies chip
      ensures Valid() && old(chip.arrived) <= chip.arrived
      ensures forall h :: 0 <= h < GROUPS ==>
        Group(chip.regs, h) == if known && h == g then Encode(ext, ulData).Bytes() else Group(old(chip.regs), h)
      ensures Apart(old(chip.regs), chip.regs, if known then GroupRegisters(g) else {})
      ensures chip.regs[CANINTE] == old(chip.regs)[CANINTE]
      ensures chip.log == old(chip.log)
        + if known then [Wrote(GroupAddress(g), Encode(ext, ulData).Bytes())] else []
    {
      hide Bit, Image, Keeps, And, Encode, IdRegs.Bytes, Group, GroupAddress, TxSafe, Apart, Patch, Mode, Asked;
      if known {
        ghost var bytes := Encode(ext, ulData).Bytes();
        ghost var mid := WriteId(g, ext, ulData);
        RelyKeeps(old(chip.regs), mid);
        GroupsKept(old(chip.regs), mid);
        GroupWrite(mid, g, bytes);
        GroupApart(mid, g, bytes);
        KeepsApart(old(chip.regs), mid, GroupRegisters(g));
        ApartTrans(old(chip.regs), mid, chip.regs, GroupRegisters(g));
      } else {
        KeepsRefl(chip.regs);
        KeepsApart(chip.regs, chip.regs, {});
      }
    }

    /**
     The common course of init_Mask and init_Filt: enter CONFIG, write the group if the number is known,
     go back to mcpMode.  The result is that of going back: an unknown number is not reported.
     */
    method InitGroup(known: bool, g: nat, ext: byte, ulData: bv32)
      returns (res: byte, ghost enter: ModeChange, ghost leave: ModeChange)
      requires Valid() && (known ==> g < GROUPS)
      modifies chip
      ensures Valid() && old(chip.arrived) <= chip.arrived
      ensures res == MCP2515_OK <==> enter.reached && leave.reached
      ensures leave.newmode == mcpMode
      ensures GroupCourse(known, g, Encode(ext, ulData).Bytes(), enter, leave, old(chip.regs), chip.regs)
      ensures chip.log == old(chip.log) + GroupTranscript(known, g, Encode(ext, ulData).Bytes(), enter, leave)
    {
      hide Bit, Image, Keeps, Modify, And, Encode, IdRegs.Bytes, Group, GroupAddress, TxSafe, Apart, Mode;
      hide ModeChange.Events, ModeChange.Proper;
      ghost var ws := if known then GroupRegisters(g) else {};
      res, enter := SetCanctrlMode(MODE_CONFIG);
      leave := NotLeft(mcpMode, enter.intOn);
      GroupsKept(old(chip.regs), chip.regs);
      KeepsApart(old(chip.regs), chip.regs, ws);
      if res > 0 {
        return;
      }
      ghost var entered := chip.regs;
      EnteredConfig(enter, old(chip.regs), entered);
      WriteGroup(known, g, ext, ulData);
      ghost var written := chip.regs;
      ApartTrans(old(chip.regs), entered, written, ws);
      res, leave := SetCanctrlMode(mcpMode);
      GroupsKept(written, chip.regs);
      KeepsApart(written, chip.regs, ws);
      ApartTrans(old(chip.regs), written, chip.regs, ws);
    }

    method InitMask(num: nat, ext: byte, ulData: bv32)
      returns (res: byte, ghost enter: ModeChange, ghost leave: ModeChange)
      requires Valid()
      modifies chip
      ensures Valid() && old(chip.arrived) <= chip.arrived
      ensures res == MCP2515_OK <==> enter.reached && leave.reached
      ensures leave.newmode == mcpMode
      ensures GroupCourse(num < 2, 6 + num, Encode(ext, ulData).Bytes(), enter, leave, old(chip.regs), chip.regs)
      ensures chip.log == old(chip.log) + GroupTranscript(num < 2, 6 + num, Encode(ext, ulData).Bytes(), enter, leave)
      ensures num < 2 ==> WritesAt(0x20 + 4 * num, ext, ulData, enter, leave, old(chip.regs), chip.regs,
                                   old(chip.log), chip.log)
      ensures num >= 2 ==> WritesNothing(enter, leave, old(chip.regs), chip.regs, old(chip.log), chip.log)
    {
      hide Bit, Image, Keeps, Modify, And, Encode, IdRegs.Bytes, Group, GroupCourse, GroupTranscript, WritesAt;
      hide WritesNothing;
      res, enter, leave := InitGroup(num < 2, 6 + num, ext, ulData);
      if num < 2 {
        GroupAt(6 + num, 0x20 + 4 * num, ext, ulData, enter, leave, old(chip.regs), chip.regs, old(chip.log), chip.log);
      } else {
        GroupNone(6 + num, Encode(ext, ulData).Bytes(), enter, leave,
                  old(chip.regs), chip.regs, old(chip.log), chip.log);
      }
    }

    method InitFilt(num: nat, ext: byte, ulData: bv32)
      returns (res: byte, ghost enter: ModeChange, ghost leave: ModeChange)
      requires Valid()
      modifies chip
      ensures Valid() && old(chip.arrived) <= chip.arrived
      ensures res == MCP2515_OK <==> enter.reached && leave.reached
      ensures leave.newmode == mcpMode
      ensures GroupCourse(num < 6, num, Encode(ext, ulData).Bytes(), enter, leave, old(chip.regs), chip.regs)
      ensures chip.log == old(chip.log) + GroupTranscript(num < 6, num, Encode(ext, ulData).Bytes(), enter, leave)
      ensures num < 3 ==> WritesAt(4 * num, ext, ulData, enter, leave, old(chip.regs), chip.regs,
                                   old(chip.log), chip.log)
      ensures 3 <= num < 6 ==> WritesAt(0x10 + 4 * (num - 3), ext, ulData, enter, leave, old(chip.regs), chip.regs,
                                        old(chip.log), chip.log)
      ensures num >= 6 ==> WritesNothing(enter, leave, old(chip.regs), chip.regs, old(chip.log), chip.log)
    {
      hide Bit, Image, Keeps, Modify, And, Encode, IdRegs.Bytes, Group, GroupCourse, GroupTranscript, WritesAt;
      hide WritesNothing;
      res, enter, leave := InitGroup(num < 6, num, ext, ulData);
      if num < 6 {
        GroupAt(num, if num < 3 then 4 * num else 0x10 + 4 * (num - 3), ext, ulData, enter, leave,
                old(chip.regs), chip.regs, old(chip.log), chip.log);
      } else {
        GroupNone(num, Encode(ext, ulData).Bytes(), enter, leave,
                  old(chip.regs), chip.regs, old(chip.log), chip.log);
      }
    }

    /**
     A sequence of calls that stops at the first failure.  `courses` are the mode changes of the calls made:
     all of them were made and succeeded if and only if the result is true, and a call not made was preceded
     by a failure.  Then each register group holds the last value written to that group.
     */
    method Configure(calls: seq<AcceptCall>) returns (ok: bool, ghost courses: seq<Course>)
      requires Valid()
      modifies chip
      ensures Valid() && |courses| <= |calls|
      ensures ok <==> |courses| == |calls| && forall i :: 0 <= i < |courses| ==> courses[i].Succeeded()
      ensures !ok ==> courses != [] && !courses[|courses| - 1].Succeeded()
      ensures forall i :: 0 <= i < |courses| - 1 ==> courses[i].Succeeded()
      ensures forall i :: 0 <= i < |courses| ==> courses[i].leave.newmode == mcpMode
      ensures chip.log == old(chip.log) + CallEvents(calls, courses)
      ensures ok ==> forall h :: 0 <= h < GROUPS ==>
        Group(chip.regs, h) == LastWritten(calls, h, Group(old(chip.regs), h))
      ensures ok && calls != [] ==> Mode(chip.regs) == mcpMode
    {
      hide Bit, Image, Encode, IdRegs.Bytes, Group, And, Mode, TxSafe, Keeps, CallOf, Writes, CallBytes, LastWritten;
      hide CallEvents;
      NoCalls(calls);
      ok, courses := true, [];
      for i := 0 to |calls|
        invariant Valid() && |courses| == i && ok
        invariant forall j :: 0 <= j < i ==> courses[j].Succeeded() && courses[j].leave.newmode == mcpMode
        invariant chip.log == old(chip.log) + CallEvents(calls[..i], courses)
        invariant forall h :: 0 <= h < GROUPS ==>
          Group(chip.regs, h) == LastWritten(calls[..i], h, Group(old(chip.regs), h))
        invariant i > 0 ==> Mode(chip.regs) == mcpMode
      {
        ghost var c;
        ok, c := MakeCall(calls[i]);
        CallEventsNext(calls, i, courses, c);
        forall h: nat | h < GROUPS
          ensures LastWritten(calls[..i + 1], h, Group(old(chip.regs), h)) ==
            if Writes(calls[i], h) then CallBytes(calls[i])
            else LastWritten(calls[..i], h, Group(old(chip.regs), h))
        {
          LastWrittenNext(calls, i, h, Group(old(chip.regs), h));
        }
        courses := courses + [c];
        if !ok {
          assert courses[i] == c;
          return;
        }
      }
      assert calls[..|calls|] == calls;
    }

    /** One call of init_Mask or init_Filt. */
    method MakeCall(call: AcceptCall) returns (ok: bool, ghost c: Course)
      requires Valid()
      modifies chip
      ensures Valid() && (ok <==> c.Succeeded()) && c.leave.newmode == mcpMode
      ensures chip.log == old(chip.log) + CallOf(call, c)
      ensures ok ==> Mode(chip.regs) == mcpMode
      ensures ok ==> forall h :: 0 <= h < GROUPS ==>
        Group(chip.regs, h) == if Writes(call, h) then CallBytes(call) else Group(old(chip.regs), h)
    {
      hide Bit, Image, Encode, IdRegs.Bytes, Group, And, Apart, Modify, Mode, ModeChange.Proper, TxSafe;
      hide GroupTranscript;
      var res;
      ghost var enter, leave;
      if call.mask {
        res, enter, leave := InitMask(call.num, call.ext, call.ulData);
      } else {
        res, enter, leave := InitFilt(call.num, call.ext, call.ulData);
      }
      c := Course(enter, leave);
      ok := res == MCP2515_OK;
    }

    // ---- initialisation

    /** mcp2515_setRegister of the next transmit register of buffer n with 0. */
    method ZeroTxRegister(n: nat, a: nat, ghost k0: nat, ghost k1: nat, ghost k2: nat)
      requires Valid() && n < N_TXBUFFERS && k0 <= 14 && k1 <= 14 && k2 <= 14
      requires ZeroPrefix(chip.regs, 0, k0) && ZeroPrefix(chip.regs, 1, k1) && ZeroPrefix(chip.regs, 2, k2)
      requires a == TxCtrl(n) + (if n == 0 then k0 else if n == 1 then k1 else k2) < TxCtrl(n) + 14
      modifies chip
      ensures Valid() && old(chip.arrived) <= chip.arrived
      ensures SetUp(old(chip.regs), chip.regs, ZeroedRegisters())
      ensures ZeroPrefix(chip.regs, 0, if n == 0 then k0 + 1 else k0)
      ensures ZeroPrefix(chip.regs, 1, if n == 1 then k1 + 1 else k1)
      ensures ZeroPrefix(chip.regs, 2, if n == 2 then k2 + 1 else k2)
      ensures chip.log == old(chip.log) + [Modified(a, 0xFF, 0)]
    {
      hide Bit, Image, TxRely, ConfigSame, Keeps, RxFull, Apart, InConfig;
      Elapse();
      ghost var mid := chip.regs;
      RelyKeeps(old(chip.regs), mid);
      ZeroPrefixStays(old(chip.regs), mid, 0, k0);
      ZeroPrefixStays(old(chip.regs), mid, 1, k1);
      ZeroPrefixStays(old(chip.regs), mid, 2, k2);
      ZeroTxEffect(mid, a);
      chip.regs := chip.regs[a := 0];
      chip.log := chip.log + [Modified(a, 0xFF, 0)];
      SameFlags(mid, chip.regs);
      ZeroApart(mid, a);
      RelySetUp(old(chip.regs), mid, chip.regs, ZeroedRegisters());
    }

    /** A receive control register, which leaves flags and received frames alone. */
    method WriteRxControl(n: nat, mask: byte, data: byte)
      requires Valid() && n < N_RXBUFFERS
      modifies chip
      ensures Valid() && old(chip.arrived) <= chip.arrived
      ensures SetUp(old(chip.regs), chip.regs, {RxCtrl(n)})
      ensures RxControlWritten(old(chip.regs), chip.regs, n, mask, data)
      ensures chip.log == old(chip.log) + [Modified(RxCtrl(n), mask, data)]
    {
      hide Bit, Image, TxRely, ConfigSame, Keeps, RxFull, Modify, Apart, InConfig;
      Elapse();
      ghost var mid := chip.regs;
      chip.regs := chip.regs[RxCtrl(n) := Modify(chip.regs[RxCtrl(n)], mask, data)];
      chip.log := chip.log + [Modified(RxCtrl(n), mask, data)];
      SameFlags(mid, chip.regs);
      RxControlEffect(mid, chip.regs, n);
      RxControlApart(mid, chip.regs, n);
      RelySetUp(old(chip.regs), mid, chip.regs, {RxCtrl(n)});
      assert chip.regs == mid[RxCtrl(n) := Modify(mid[RxCtrl(n)], mask, data)];
    }

    /**
     mcp2515_initCANBuffers.  It writes zero to each of the 42 transmit registers and the two receive
     control registers and to no other register.  They are zero afterwards (of a receive control register, the
     bits that the chip does not keep as status), and everything else is as the chip itself leaves it.
     */
    method InitCanBuffers() returns (ghost written: seq<Event>)
      requires Valid()
      modifies chip
      ensures Valid() && old(chip.arrived) <= chip.arrived
      ensures forall n :: 0 <= n < N_TXBUFFERS ==> ZeroPrefix(chip.regs, n, 14)
      ensures And(chip.regs[RXB0CTRL], 0x64) == 0 && And(chip.regs[RXB1CTRL], 0x60) == 0
      ensures SetUp(old(chip.regs), chip.regs, ZeroedRegisters())
      ensures chip.log == old(chip.log) + written
      ensures ZeroesExactly(written)
    {
      hide Bit, Image, TxRely, ConfigSame, Keeps, RxFull, Untouched, ZeroPrefix, Group, Modify, And, SetUp, TxSafe;
      hide RxControlWritten;
      NothingZeroed(chip.regs);
      SetUpRefl(chip.regs, ZeroedRegisters());
      written := [];
      var a1, a2, a3 := TxCtrl(0), TxCtrl(1), TxCtrl(2);
      for i := 0 to 14
        invariant Valid() && old(chip.arrived) <= chip.arrived
        invariant SetUp(old(chip.regs), chip.regs, ZeroedRegisters())
        invariant a1 == TxCtrl(0) + i && a2 == TxCtrl(1) + i && a3 == TxCtrl(2) + i
        invariant ZeroPrefix(chip.regs, 0, i) && ZeroPrefix(chip.regs, 1, i) && ZeroPrefix(chip.regs, 2, i)
        invariant chip.log == old(chip.log) + written && ZeroedUpTo(written, i)
      {
        ghost var r := chip.regs;
        ZeroTxRegister(0, a1, i, i, i);
        SetUpTrans(old(chip.regs), r, chip.regs, ZeroedRegisters());
        r := chip.regs;
        ZeroTxRegister(1, a2, i + 1, i, i);
        SetUpTrans(old(chip.regs), r, chip.regs, ZeroedRegisters());
        r := chip.regs;
        ZeroTxRegister(2, a3, i + 1, i + 1, i);
        SetUpTrans(old(chip.regs), r, chip.regs, ZeroedRegisters());
        ZeroedNext(written, i);
        written := written + [Modified(a1, 0xFF, 0), Modified(a2, 0xFF, 0), Modified(a3, 0xFF, 0)];
        a1, a2, a3 := a1 + 1, a2 + 1, a3 + 1;
      }
      ghost var zeroed := chip.regs;
      WriteRxControl(0, 0xFF, 0);
      RxControlZero(zeroed, chip.regs, 0, 0xFF, 0);
      SetUpWiden(zeroed, chip.regs, {RxCtrl(0)}, ZeroedRegisters());
      SetUpTrans(old(chip.regs), zeroed, chip.regs, ZeroedRegisters());
      ghost var first := chip.regs;
      WriteRxControl(1, 0xFF, 0);
      RxControlZero(first, chip.regs, 1, 0xFF, 0);
      SetUpWiden(first, chip.regs, {RxCtrl(1)}, ZeroedRegisters());
      SetUpTrans(old(chip.regs), first, chip.regs, ZeroedRegisters());
      FullMask();
      ZeroedExactly(written);
      written := written + [Modified(RXB0CTRL, 0xFF, 0), Modified(RXB1CTRL, 0xFF, 0)];
    }

    /** One of the registers CNF1 to CNF3: without effect outside configuration mode. */
    method WriteTiming(a: nat, v: byte)
      requires Valid() && a in TimingRegisters()
      modifies chip
      ensures Valid() && old(chip.arrived) <= chip.arrived
      ensures SetUp(old(chip.regs), chip.regs, TimingRegisters())
      ensures InConfig(old(chip.regs)) ==> InConfig(chip.regs) && chip.regs[a] == v
      ensures forall b :: b in TimingRegisters() && b != a ==> chip.regs[b] == old(chip.regs)[b]
      ensures chip.log == old(chip.log) + [Modified(a, 0xFF, v)]
    {
      hide Bit, Image, TxRely, RxFull, And, Apart, Patch;
      Elapse();
      ghost var mid := chip.regs;
      chip.regs := WriteConfig(chip.regs, a, [v]);
      chip.log := chip.log + [Modified(a, 0xFF, v)];
      TimingWrite(mid, a, v);
      OnlyConfigSame(mid, chip.regs);
      SameFlags(mid, chip.regs);
      RelySetUp(old(chip.regs), mid, chip.regs, TimingRegisters());
    }

    /** mcp2515_configRate: three writes for a supported pair, none for any other; `cfg` is left open. */
    method ConfigRate(canSpeed: byte, clock: byte) returns (res: byte, ghost cfg: Rate)
      requires Valid()
      modifies chip
      ensures Valid() && old(chip.arrived) <= chip.arrived
      ensures res == if Supported(canSpeed, clock) then MCP2515_OK else MCP2515_FAIL
      ensures clock == 1 ==> (res == MCP2515_OK <==> 1 <= canSpeed <= 18)
      ensures clock == 2 ==> (res == MCP2515_OK <==> canSpeed in {1, 2, 3, 5, 7, 8, 9, 12, 13, 14, 15, 16, 18})
      ensures clock != 1 && clock != 2 ==> res != MCP2515_OK
      ensures !Supported(canSpeed, clock) ==> chip.regs == old(chip.regs) && chip.log == old(chip.log)
      ensures SetUp(old(chip.regs), chip.regs, TimingRegisters())
      ensures Supported(canSpeed, clock) ==> chip.log == old(chip.log) + TimingEvents(cfg)
      ensures Supported(canSpeed, clock) && InConfig(old(chip.regs)) ==> Timing(chip.regs) == cfg
    {
      hide Bit, Image, TxRely, ConfigSame, Keeps, RxFull, SetUp, TxSafe, And, InConfig;
      cfg := Rate(0, 0, 0);
      SetUpRefl(chip.regs, TimingRegisters());
      if Supported(canSpeed, clock) {
        var cfg1: byte, cfg2: byte, cfg3: byte := *, *, *;
        cfg := Rate(cfg1, cfg2, cfg3);
        WriteTiming(CNF1, cfg1);
        ghost var s := chip.regs;
        WriteTiming(CNF2, cfg2);
        SetUpTrans(old(chip.regs), s, chip.regs, TimingRegisters());
        s := chip.regs;
        WriteTiming(CNF3, cfg3);
        SetUpTrans(old(chip.regs), s, chip.regs, TimingRegisters());
        res := MCP2515_OK;
      } else {
        res := MCP2515_FAIL;
      }
    }

    /** mcp2515_setRegister of CANINTE. */
    method WriteInterruptEnables(v: byte)
      requires Valid()
      modifies chip
      ensures Valid() && old(chip.arrived) <= chip.arrived
      ensures chip.regs[CANINTE] == v
      ensures Keeps(old(chip.regs), chip.regs)
      ensures chip.log == old(chip.log) + [Modified(CANINTE, 0xFF, v)]
    {
      hide Bit, Image, Keeps, TxSafe, Modify;
      ghost var mid := WriteControl(CANINTE, 0xFF, v);
      FullWrite(mid[CANINTE], v);
      chip.log := chip.log + [Modified(CANINTE, 0xFF, v)];
    }

    /** Receive interrupts on, both buffers take standard and extended frames, buffer 0 rolls over. */
    method EnableReceive()
      requires Valid()
      modifies chip
      ensures Valid() && old(chip.arrived) <= chip.arrived
      ensures chip.regs[CANINTE] == 0x03
      ensures And(chip.regs[RXB0CTRL], 0x64) == 0x04 && And(chip.regs[RXB1CTRL], 0x60) == 0
      ensures forall n :: 0 <= n < N_TXBUFFERS && ZeroPrefix(old(chip.regs), n, 14) ==> ZeroPrefix(chip.regs, n, 14)
      ensures Apart(old(chip.regs), chip.regs, {RXB0CTRL, RXB1CTRL})
      ensures chip.log == old(chip.log) + ReceiveEvents()
    {
      hide Bit, Image, TxRely, ConfigSame, Keeps, RxFull, Group, ZeroPrefix, Modify, And, Untouched, RxControlWritten;
      hide Apart, TxSafe;
      ghost var ws := {RXB0CTRL, RXB1CTRL};
      WriteInterruptEnables(0x03);
      ZeroesKept(old(chip.regs), chip.regs);
      ghost var enabled := chip.regs;
      KeepsApart(old(chip.regs), enabled, ws);
      WriteRxControl(0, 0x64, 0x04);
      RxControlZero(enabled, chip.regs, 0, 0x64, 0x04);
      ghost var b0: byte :| chip.regs[RXB0CTRL] == Modify(b0, 0x64, 0x04);
      ModeBits(b0);
      ghost var first := chip.regs;
      ApartWiden(enabled, first, {RxCtrl(0)}, ws);
      ApartTrans(old(chip.regs), enabled, first, ws);
      WriteRxControl(1, 0x60, 0x00);
      RxControlZero(first, chip.regs, 1, 0x60, 0x00);
      ghost var b1: byte :| chip.regs[RXB1CTRL] == Modify(b1, 0x60, 0x00);
      ModeBits(b1);
      ApartWiden(first, chip.regs, {RxCtrl(1)}, ws);
      ApartTrans(old(chip.regs), first, chip.regs, ws);
    }

    /**
     begin and mcp2515_init.  `enter` and `leave` are the two mode changes.  For a supported pair the
     call succeeds exactly when both did, and then the chip was last seen in NORMAL mode with reception
     enabled.  For any other pair it succeeds exactly when CONFIG mode was reached: the rejected speed is
     not reported, nothing is written, and the chip stays in CONFIG.
     */
    method Begin(canSpeed: byte, clock: byte)
      returns (res: byte, ghost enter: ModeChange, ghost leave: ModeChange,
               ghost cfg: Rate, ghost zeroes: seq<Event>)
      requires Valid()
      modifies this, chip
      ensures Valid() && nReservedTx == old(nReservedTx)
      ensures res == CAN_OK || res == CAN_FAILINIT
      ensures enter.newmode == MODE_CONFIG && enter.Proper() && leave.Proper()
      ensures !Supported(canSpeed, clock) ==> (res == CAN_OK <==> enter.reached)
      ensures Supported(canSpeed, clock) ==>
        leave.newmode == MODE_NORMAL && (res == CAN_OK <==> enter.reached && leave.reached)
      ensures chip.log == old(chip.log) + [WasReset] + enter.Events()
        + if enter.reached && Supported(canSpeed, clock) then InitEvents(cfg, zeroes) + leave.Events() else []
      ensures enter.reached && Supported(canSpeed, clock) ==> ZeroesExactly(zeroes)
      ensures res == CAN_OK ==> Mode(chip.regs) == if Supported(canSpeed, clock) then MODE_NORMAL else MODE_CONFIG
      ensures res == CAN_OK && Supported(canSpeed, clock) ==>
        && mcpMode == MODE_NORMAL && chip.regs[CANINTE] == 0x03
        && And(chip.regs[RXB0CTRL], 0x64) == 0x04 && And(chip.regs[RXB1CTRL], 0x60) == 0
        && Timing(chip.regs) == cfg
        && forall n :: 0 <= n < N_TXBUFFERS ==> ZeroPrefix(chip.regs, n, 14)
      ensures !Supported(canSpeed, clock) ==> mcpMode == old(mcpMode)
    {
      hide Bit, Image, TxRely, Keeps, RxFull, Group, ZeroPrefix, Modify, And, Apart, TxSafe, Mode, Asked;
      hide ModeChange.Events, ModeChange.Proper, ModeEffect, InitEvents, InConfig, ZeroesExactly, Timing;
      chip.Reset();
      delivered := {};
      ghost var blank := chip.regs;
      res, enter := SetCanctrlMode(MODE_CONFIG);
      ModeReached(enter, blank, chip.regs);
      leave, cfg, zeroes := NotLeft(MODE_NORMAL, enter.intOn), Rate(0, 0, 0), [];
      if res > 0 {
        return CAN_FAILINIT, enter, leave, cfg, zeroes;
      }
      EnteredConfig(enter, blank, chip.regs);
      var rate;
      rate, cfg := ConfigRate(canSpeed, clock);
      if rate != MCP2515_OK {
        return CAN_OK, enter, leave, cfg, zeroes;
      }
      zeroes := SetUpBuffers(cfg);
      ghost var r := chip.regs;
      res, leave := SetMode(MODE_NORMAL);
      ModeReached(leave, r, chip.regs);
      ReceptionKept(r, chip.regs);
      ZeroesKept(r, chip.regs);
      TimingStays(r, chip.regs);
      if res != MCP2515_OK {
        res := CAN_FAILINIT;
      }
    }

    /** The set-up between the bit timing and the way to NORMAL mode. */
    method SetUpBuffers(ghost cfg: Rate) returns (ghost zeroes: seq<Event>)
      requires Valid()
      modifies chip
      ensures Valid() && old(chip.arrived) <= chip.arrived
      ensures chip.regs[CANINTE] == 0x03
      ensures And(chip.regs[RXB0CTRL], 0x64) == 0x04 && And(chip.regs[RXB1CTRL], 0x60) == 0
      ensures forall n :: 0 <= n < N_TXBUFFERS ==> ZeroPrefix(chip.regs, n, 14)
      ensures Timing(chip.regs) == Timing(old(chip.regs))
      ensures ZeroesExactly(zeroes)
      ensures forall before :: old(chip.log) == before + TimingEvents(cfg) ==>
        chip.log == before + InitEvents(cfg, zeroes)
    {
      hide Bit, Image, TxRely, Keeps, RxFull, Group, ZeroPrefix, Modify, And, Apart, TxSafe, Mode, Asked, Timing;
      hide ZeroesExactly, InConfig;
      zeroes := InitCanBuffers();
      ghost var zeroed := chip.regs;
      SetUpApart(old(chip.regs), zeroed, ZeroedRegisters());
      TimingApart(old(chip.regs), zeroed, ZeroedRegisters());
      EnableReceive();
      TimingApart(zeroed, chip.regs, {RXB0CTRL, RXB1CTRL});
      forall before | old(chip.log) == before + TimingEvents(cfg)
        ensures chip.log == before + InitEvents(cfg, zeroes)
      {
        assert chip.log == before + TimingEvents(cfg) + zeroes + ReceiveEvents();
      }
    }
  }

  // ---- transcripts of initialisation

  const CNF1: nat := 0x2A
  const CNF2: nat := 0x29
  const CNF3: nat := 0x28

  /** The values of the three timing registers. */
  datatype Rate = Rate(cnf1: byte, cnf2: byte, cnf3: byte)

  function Timing(r: Regs): Rate
    requires |r| == REGISTERS
  {
    Rate(r[CNF1], r[CNF2], r[CNF3])
  }

  lemma TimingApart(r: Regs, t: Regs, ws: set<nat>)
    requires |r| == |t| == REGISTERS && Apart(r, t, ws)
    requires CNF1 !in ws && CNF2 !in ws && CNF3 !in ws
    ensures Timing(t) == Timing(r)
  {
    hide Apart;
    TimingKept(r, t, ws);
  }

  lemma TimingStays(r: Regs, t: Regs)
    requires |r| == |t| == REGISTERS && Keeps(r, t)
    ensures Timing(t) == Timing(r)
  {
    hide Apart, Keeps;
    KeepsApart(r, t, {});
    TimingApart(r, t, {});
  }

  function TimingEvents(cfg: Rate): seq<Event> {
    [Modified(CNF1, 0xFF, cfg.cnf1), Modified(CNF2, 0xFF, cfg.cnf2), Modified(CNF3, 0xFF, cfg.cnf3)]
  }

  function ReceiveEvents(): seq<Event> {
    [Modified(CANINTE, 0xFF, 0x03), Modified(RXB0CTRL, 0x64, 0x04), Modified(RXB1CTRL, 0x60, 0x00)]
  }

  /** All the writes between the two mode changes of begin. */
  function InitEvents(cfg: Rate, zeroes: seq<Event>): seq<Event> {
    TimingEvents(cfg) + zeroes + ReceiveEvents()
  }

  /** Zero was written to each of the registers mcp2515_initCANBuffers is about, and nothing else to any register. */
  ghost predicate ZeroesExactly(written: seq<Event>) {
    && (forall a :: a in ZeroedRegisters() <==> Modified(a, 0xFF, 0) in written)
    && (forall e :: e in written ==> e.Modified? && e == Modified(e.at, 0xFF, 0))
  }

  /** The first i registers of each transmit buffer, and nothing else, were written with zero. */
  ghost predicate ZeroedUpTo(written: seq<Event>, i: nat) {
    && (forall a :: ZeroedBy(a, i) <==> Modified(a, 0xFF, 0) in written)
    && (forall e :: e in written ==> e.Modified? && e == Modified(e.at, 0xFF, 0))
  }

  predicate ZeroedBy(a: nat, i: nat) {
    0x30 <= a < 0x30 + i || 0x40 <= a < 0x40 + i || 0x50 <= a < 0x50 + i
  }

  lemma ZeroedNext(written: seq<Event>, i: nat)
    requires i < 14 && ZeroedUpTo(written, i)
    ensures ZeroedUpTo(written
      + [Modified(TxCtrl(0) + i, 0xFF, 0), Modified(TxCtrl(1) + i, 0xFF, 0), Modified(TxCtrl(2) + i, 0xFF, 0)], i + 1)
  {
  }

  lemma ZeroedExactly(written: seq<Event>)
    requires ZeroedUpTo(written, 14)
    ensures ZeroesExactly(written + [Modified(RXB0CTRL, 0xFF, 0), Modified(RXB1CTRL, 0xFF, 0)])
  {
  }

  // ---- what the time limits of sendMsg miss

  /**
   With all three buffers pending, the chip may complete all transmissions just before the last reading
   of the polling loop: the loop runs out, although that reading offers a buffer whatever is reserved.
   */
  lemma LateBufferIsWasted(r: Regs, reserved: nat) returns (files: seq<Regs>, polls: seq<byte>)
    requires |r| == REGISTERS && reserved < N_TXBUFFERS
    requires forall n :: 0 <= n < N_TXBUFFERS ==> Pending(r, n)
    ensures Linked(r, files) && StatusOf(polls, files) && |polls| == TIMEOUTVALUE
    ensures PollsRunOut(polls, reserved) && Offers(polls[TIMEOUTVALUE - 1], reserved, 0)
    ensures var last := files[TIMEOUTVALUE - 1]; forall n :: 0 <= n < N_TXBUFFERS ==> TxDone(last, n)
  {
    hide Rely, Pending, TxDone, Status, Bit, TxStatusPending, Linked;
    var t := AllComplete(r);
    StatusBits(r);
    StatusBits(t);
    LateChange(r, t, TIMEOUTVALUE - 1);
    files := seq(TIMEOUTVALUE, i => if i < TIMEOUTVALUE - 1 then r else t);
    polls := seq(TIMEOUTVALUE, i => if i < TIMEOUTVALUE - 1 then Status(r) else Status(t));
  }

  /** The frame may leave just before the last check: the loop runs out, although that check shows it gone. */
  lemma LateDepartureIsMissed(r: Regs, n: nat) returns (files: seq<Regs>, checks: seq<byte>)
    requires |r| == REGISTERS && n < N_TXBUFFERS && Pending(r, n)
    ensures Linked(r, files) && ControlOf(checks, files, n) && |checks| == TIMEOUTVALUE
    ensures ChecksRunOut(checks) && !Bit(checks[TIMEOUTVALUE - 1], TXREQ)
    ensures TxDone(files[TIMEOUTVALUE - 1], n)
  {
    hide Rely, TxDone, Bit, Complete, Linked;
    var t := Complete(r, n);
    CompleteFlags(r, n);
    CompleteIsAllowed(r, n);
    LateChange(r, t, TIMEOUTVALUE - 1);
    files := seq(TIMEOUTVALUE, i => if i < TIMEOUTVALUE - 1 then r else t);
    checks := seq(TIMEOUTVALUE, i => if i < TIMEOUTVALUE - 1 then r[TxCtrl(n)] else t[TxCtrl(n)]);
  }
}
