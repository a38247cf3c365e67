/**
 The controller as an object: its registers, the clock, and ghost records of what passed over the bus.
 Before every SPI transaction `Elapse` lets time pass and the chip act on its own.
 */
module McpChip {
  import opened IdBits
  import opened CanCodec
  import opened Mcp2515

  // One SPI byte takes 16 microseconds at 500 kHz; no transaction is held up for as long as ten days.
  const SPI_BYTE_MICROS: nat := 16
  const MAX_STALL_MICROS: nat := 800_000_000_000

  /** What the driver did that matters for transmission, for the operating mode and for the set-up. */
  datatype Event =
    | Polled(status: byte)                                // READ STATUS for a free buffer
    | Loaded(n: nat, wasPending: bool, bytes: seq<byte>)  // LOAD TX BUFFER n
    | Started(n: nat, image: seq<byte>)                   // REQUEST TO SEND n, with what the buffer held
    | Checked(n: nat, ctrl: byte)                         // TXBnCTRL read while waiting for completion
    | ModeSeen(mode: byte)                                // CANSTAT read by getMode
    | WakeInterrupt(on: bool)                             // wake-up interrupt switched in CANINTE
    | WakeFlag(canintf: byte)                             // wake-up flag written in CANINTF, which then holds this
    | ModeAsked(mode: byte, reached: bool, ms: nat)       // mode requested until reached or timed out, after ms
    | WasReset                                            // RESET
    | Modified(at: nat, mask: byte, data: byte)           // one set-up register, under a mask
    | Wrote(at: nat, bytes: seq<byte>)                    // consecutive filter or mask registers

  class Chip {
    var regs: Regs
    var micros: nat
    ghost var log: seq<Event>
    ghost var arrived: seq<seq<byte>>  // every frame that got into a receive buffer, as its 13 bytes
    ghost var serial: seq<nat>         // which of them is in receive buffer 0 and 1

    ghost predicate Valid()
      reads this
    {
      && |regs| == REGISTERS && |serial| == N_RXBUFFERS
      && Holds(0) && Holds(1)
      && (RxFull(regs, 0) && RxFull(regs, 1) ==> serial[0] != serial[1])
    }

    ghost predicate Holds(n: nat)
      reads this
      requires |regs| == REGISTERS && |serial| == N_RXBUFFERS && n < N_RXBUFFERS
    {
      RxFull(regs, n) ==> serial[n] < |arrived| && arrived[serial[n]] == Image(regs, RxBuf(n))
    }

    /** Frame k waits in a receive buffer. */
    ghost predicate Buffered(k: nat)
      reads this
      requires |regs| == REGISTERS && |serial| == N_RXBUFFERS
    {
      (RxFull(regs, 0) && serial[0] == k) || (RxFull(regs, 1) && serial[1] == k)
    }

    constructor ()
      ensures regs == seq(REGISTERS, _ => 0) && log == [] && arrived == [] && Valid()
    {
      regs := seq(REGISTERS, _ => 0);
      micros := 0;
      log, arrived, serial := [], [], [0, 0];
    }

    /** Time passes, and the chip does anything it is allowed to. */
    method Elapse()
      requires Valid()
      modifies `regs, `micros, `arrived, `serial
      ensures Valid() && Rely(old(regs), regs)
      ensures SPI_BYTE_MICROS <= micros - old(micros) <= MAX_STALL_MICROS
      ensures old(arrived) <= arrived
      ensures forall k: nat :: k < |arrived| ==> (Buffered(k) <==> k >= |old(arrived)| || old(Buffered(k)))
    {
      hide Bit, And, Image, TxRely, ConfigSame;
      var d: nat := *;
      micros := micros + if SPI_BYTE_MICROS <= d <= MAX_STALL_MICROS then d else SPI_BYTE_MICROS;
      var r: Regs := *;
      if |r| == REGISTERS && Rely(regs, r) {
        if !RxFull(regs, 0) && RxFull(r, 0) {
          serial := serial[0 := |arrived|];
          arrived := arrived + [Image(r, RxBuf(0))];
        }
        if !RxFull(regs, 1) && RxFull(r, 1) {
          serial := serial[1 := |arrived|];
          arrived := arrived + [Image(r, RxBuf(1))];
        }
        regs := r;
      } else {
        KeepsRefl(regs);
      }
    }

    /**
     RESET: configuration mode, interrupts off, nothing pending; filters, masks and the contents of the
     buffers are undefined.  The account of frames starts anew.
     */
    method Reset()
      requires |regs| == REGISTERS
      modifies `regs, `log, `arrived, `serial
      ensures Valid() && arrived == [] && TxSafe(regs) && log == old(log) + [WasReset]
    {
      hide Image;
      log := log + [WasReset];
      var r: Regs := *;
      if |r| != REGISTERS {
        r := regs;
      }
      regs := r[CANSTAT := 0x80][CANCTRL := 0x87][CANINTE := 0][CANINTF := 0]
        [TxCtrl(0) := 0][TxCtrl(1) := 0][TxCtrl(2) := 0][RXB0CTRL := 0][RXB1CTRL := 0];
      arrived, serial := [], [0, 0];
      assert !Bit(0, TxIf(0)) && !Bit(0, TxIf(1)) && !Bit(0, TxIf(2)) && !Bit(0, RxIf(0)) && !Bit(0, RxIf(1));
      assert regs[CANINTF] == 0;
    }

    /** LOAD TX BUFFER: the instruction byte names the buffer. */
    method LoadTx(instruction: byte, bytes: seq<byte>) returns (ghost n: nat)
      requires Valid() && instruction in {0x40, 0x42, 0x44} && |bytes| <= 13
      modifies `regs, `log
      ensures Valid() && forall k :: Buffered(k) <==> old(Buffered(k))
      ensures instruction == LoadInstruction(n) && n < N_TXBUFFERS
      ensures regs == Patch(old(regs), TxCtrl(n) + 1, bytes)
      ensures log == old(log) + [Loaded(n, old(Pending(regs, n)), bytes)]
    {
      hide Bit, ConfigSame, And, Image;
      var i := if instruction == 0x40 then 0 else if instruction == 0x42 then 1 else 2;
      n := i;
      LoadEffect(regs, i, bytes);
      log := log + [Loaded(n, Pending(regs, n), bytes)];
      regs := Patch(regs, TxCtrl(i) + 1, bytes);
    }

    /** REQUEST TO SEND. */
    method Rts(instruction: byte) returns (ghost n: nat)
      requires Valid() && instruction in {0x81, 0x82, 0x84}
      modifies `regs, `log
      ensures Valid() && forall k :: Buffered(k) <==> old(Buffered(k))
      ensures instruction == RtsInstruction(n) && n < N_TXBUFFERS
      ensures regs == StartSend(old(regs), n)
      ensures log == old(log) + [Started(n, Image(old(regs), TxCtrl(n) + 1))]
    {
      hide Bit, Image, WithBit;
      var i := if instruction == 0x81 then 0 else if instruction == 0x82 then 1 else 2;
      n := i;
      SameImage(regs, StartSend(regs, i), RxBuf(0));
      SameImage(regs, StartSend(regs, i), RxBuf(1));
      log := log + [Started(n, Image(regs, TxCtrl(n) + 1))];
      regs := StartSend(regs, i);
    }

    /** READ RX BUFFER: hands out the 13 bytes and clears the receive flag. */
    method ReadRx(n: nat) returns (bytes: seq<byte>)
      requires Valid() && n < N_RXBUFFERS
      modifies `regs
      ensures bytes == Image(old(regs), RxBuf(n))
      ensures regs == old(regs)[CANINTF := Modify(old(regs)[CANINTF], RxIf(n), 0)]
    {
      bytes := Image(regs, RxBuf(n));
      regs := regs[CANINTF := Modify(regs[CANINTF], RxIf(n), 0)];
    }
  }

  /** txSidhToTxLoad after txCtrlReg(n) + 1. */
  function LoadInstruction(n: nat): byte {
    if n == 0 then 0x40 else if n == 1 then 0x42 else 0x44
  }

  function RtsInstruction(n: nat): byte {
    if n == 0 then 0x81 else if n == 1 then 0x82 else 0x84
  }
}
