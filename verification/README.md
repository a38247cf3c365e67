# Models and proofs for the XDP, CAN and stepper programs

Dafny models of four components of the repository, with proofs about every run of them.

* **AF_XDP frame ownership** (`xdp/xdp-04-xsk/src/xdp-xsk-user.c`). `FrameProtocol` is the life of the UMEM
  frames as a transition system: the program's own steps, and a kernel that may consume fill entries, keep
  frames and deliver packets at any moment. Frames are identified by address / frame size, because the kernel
  may return any address inside a frame and the program puts that very address back into its pool.
  `RingBuffer` is a single-producer, single-consumer ring with an array of slots and wrapping 32-bit indices.
  `ProgramOrder` puts the program's steps in program order; the kernel may act between any two of them.
  `XskSocket` is the program: the `umem_frame_addr` array, the counter, both rings, and any number of kernel
  steps before every ring or pool operation. It records everything that happens in a ghost trace, and its
  invariant says that the trace is a run in program order from the initial state of the transition system to
  the current one, so every theorem about runs holds for the code. `FrameShortage` says for which rings
  `replenish_fill_ring` comes to publish invalid frames.
* **MCP2515 driver** (`mcp_can.cpp`, `mcp_can.h`). `IdBits` and `CanCodec` are the byte formats. `Mcp2515` gives
  the registers their meaning and says what the chip may do on its own between two SPI transactions
  (a rely relation): end a pending transmission, with its flag if it was completed and without it if it was
  abandoned; fill an empty receive buffer; show any mode and any error, except that it does not leave
  configuration mode unasked. Filter, mask and timing registers take a value in configuration mode only.
  `McpChip` is the chip as an object with a clock and a log of what the driver did, `McpFacts` the effect of
  single register writes, and `McpCan` the driver class. `Datasheet` writes the register map, the instruction
  bytes and the transcripts of the driver out in numbers.
* **Stepper control over CAN** (`stepper_can.ino`, `positionreq-sender.c`, `speedcmd-sender.c`). `StepperNode` is
  the Arduino program on top of the driver class. `StepperSystem` is the whole loop of two senders, a bus that
  loses and reorders frames, the Arduino and the receiver; the Arduino program takes the steps of that system
  (`StepperSystem.ArduinoPass`). `Periodic` is the release times of the real-time threads.
* **Concurrent drop counting** (`xdp-drop_and_count-bpf.c`). `DropCount` runs the program on any number of CPUs
  beside any number of locked readers; every access to shared memory is a step of its own.

The constants of libbpf (ring sizes, frame size) are not in the repository; population, frame size and ring
sizes are parameters. libbpf is not part of the repository; its ring operations are modelled as: a free-slot count
that is not capped by the request, and for which the producer looks at the kernel's index again exactly when the
slots it knows to be free do not cover the request; an all-or-nothing reservation by the same count;
a peek of the entries known to be published, at most as many as requested, for which the consumer looks again
exactly when it knows of none. The kernel discards a
fill entry that is outside the UMEM, as the ring carries nothing else to tell a frame by.

## What the code does where the obvious claim fails

* `replenish_fill_ring` never compares the free slots with its pool. It publishes as many frames as there were free
  slots when it counted them, whatever the pool holds, or none if the pool was empty. With a pool that was not
  empty they are all real if and only if no more frames were out than a full fill ring leaves room for, counting
  invalid entries of the ring as room (`XskSocket.Socket.ReplenishFillRing`,
  `FrameProtocol.FullReserveExceedsPoolIff`), and so it is for whole runs of the receive loop
  (`XskSocket.Socket.ReceiveAndProcessPkts`). Some run of the program, in program order, publishes an invalid frame
  if and only if the fill ring has two slots or more, whatever the population, the frame size and the RX ring are
  (`FrameShortage.ShortageIff`).
* `sendMsg` reports CAN_GETTXBFTIMEOUT if and only if the first 49 status readings offer no buffer, and
  CAN_SENDMSGTIMEOUT if and only if the first 49 checks show the frame pending, whatever the 50th says
  (`McpCan.McpCan.SendMsg`). In any state with all buffers pending the chip can make the 50th reading offer a
  buffer (`McpCan.LateBufferIsWasted`), and from any pending buffer the frame can leave just before the 50th
  check (`McpCan.LateDepartureIsMissed`).
* `sendMsgBuf` with a status flag loads a buffer that is pending, if the status is no longer current. That is
  possible if and only if the buffer is pending at the call (`McpFacts.OverwritePossibleIff`), and so is the loss
  of the rule that a flagged buffer is not pending (`McpFacts.FlagLostPossibleIff`). With a flag that the chip
  still shows neither happens (`McpCan.McpCan.SendMsgBufStatus`, `McpCan.McpCan.SendWhenFlagged`).
* `readMsgBufID` with a status that is no longer current reports CAN_OK and hands out whatever the buffer holds,
  which is an arrived frame not delivered before if and only if the buffer is full when it is read
  (`McpCan.McpCan.ReadMsgBufID`). It may be read while not full if and only if it is not full at the call
  (`McpFacts.StaleReadPossibleIff`).
* `begin` succeeds for a speed that `mcp2515_configRate` rejects if and only if CONFIG mode was reached; the chip
  stays in that mode then. For a supported pair it succeeds if and only if CONFIG and then NORMAL were reached
  (`McpCan.McpCan.Begin`).
* `init_Mask` and `init_Filt` do not report an unknown number: they succeed if and only if both mode changes did,
  and for an unknown number nothing is written in between (`McpCan.McpCan.InitGroup`).
* `mcp2515_setCANCTRL_Mode` leaves CANINTE changed in one case: the chip slept, its wake-up interrupt was off, and
  it did not wake in time (`McpCan.McpCan.SetCanctrlMode`).
* A length field above 15 is not read back, and one with bit 6 set turns the message into a remote frame
  (`CanCodec.LengthSurvivesIff`).
* A configured Ethernet address with a byte above 127 never matches, because it is stored in a signed `char`
  (`DropCount.MakeDropDecision`).

## Model
| member | source | states |
|---|---|---|
| FrameProtocol.ExactlyOneOwner | xdp/xdp-04-xsk/src/xdp-xsk-user.c:116-280 | in every state of every run, whatever the kernel does in between, each frame is at exactly one position of exactly one place: pool, reserved slots, fill ring, kernel, RX entries not yet freed |
| FrameProtocol.RunKeepsInv | xdp/xdp-04-xsk/src/xdp-xsk-user.c:116-280 | the ownership invariant holds in every reachable state |
| FrameProtocol.EveryMoment | xdp/xdp-04-xsk/src/xdp-xsk-user.c:282-302 | every moment of a recorded run is itself a reachable state |
| FrameProtocol.StepKeepsInv | xdp/xdp-04-xsk/src/xdp-xsk-user.c:116-280 | each program or kernel step keeps the ownership invariant |
| FrameProtocol.InitialInv | xdp/xdp-04-xsk/src/xdp-xsk-user.c:174-177 | the freshly partitioned UMEM satisfies it |
| FrameProtocol.FrameCount | xdp/xdp-04-xsk/src/xdp-xsk-user.c:116-136 | conservation: pool, reserved slots, fill ring and frames out of the program's hands add up to the population plus the invalid entries |
| FrameProtocol.PoolNeverFull | xdp/xdp-04-xsk/src/xdp-xsk-user.c:131-136 | the assertion in the free function never fails in any run |
| FrameProtocol.FullReserveExceedsPoolIff | xdp/xdp-04-xsk/src/xdp-xsk-user.c:204-213 | whenever no batch is under way, reserving all free slots asks for more than the pool holds if and only if more than n - p frames are out, with invalid entries of the fill ring counted as room |
| FrameProtocol.RoomCoversRequest | xdp/xdp-04-xsk/src/xdp-xsk-user.c:204-213 | with at most n - p frames out the pool covers every free slot of the fill ring |
| FrameProtocol.BatchRealIff | xdp/xdp-04-xsk/src/xdp-xsk-user.c:116-129 | a batch of allocations contains an invalid frame if and only if it is larger than the pool |
| FrameProtocol.AffordableNeverInvalid | xdp/xdp-04-xsk/src/xdp-xsk-user.c:199-221 | a run in which no reservation exceeds the pool never has an invalid frame in or on the way to the fill ring |
| FrameProtocol.SpareNeverInvalid | xdp/xdp-04-xsk/src/xdp-xsk-user.c:199-221 | neither has a run in which at most n - p frames are out at every reservation |
| FrameProtocol.InFrame | xdp/xdp-04-xsk/src/xdp-xsk-user.c:268-275 | an address anywhere inside a frame identifies that frame |
| FrameProtocol.FirstFramesAt | xdp/xdp-04-xsk/src/xdp-xsk-user.c:174-177 | frame i stands at index i of the fresh pool, at address i times the frame size |
| FrameProtocol.InvalidIsNotReal | xdp/xdp-04-xsk/src/xdp-xsk-user.c:34 | UINT64_MAX lies in no frame |
| FrameShortage.InvalidIsReachable | xdp/xdp-04-xsk/src/xdp-xsk-user.c:199-221 | for every population, frame size and RX ring, and every fill ring of two slots or more, a run in program order that publishes an invalid frame |
| FrameShortage.ShortageIff | xdp/xdp-04-xsk/src/xdp-xsk-user.c:199-302 | some run in program order, with kernel steps anywhere in between, publishes an invalid frame if and only if the fill ring has more than one slot |
| FrameShortage.OneSlotIsAffordable | xdp/xdp-04-xsk/src/xdp-xsk-user.c:199-302 | with a fill ring of one slot no run in program order asks for more than the pool holds, even if the kernel acts between the count and the reservation |
| XskSocket.Socket.OneSlotStaysReal | xdp/xdp-04-xsk/src/xdp-xsk-user.c:199-302 | hence a socket with such a ring never offers the kernel an invalid frame |
| ProgramOrder.ProgramRunIsRun | xdp/xdp-04-xsk/src/xdp-xsk-user.c:179-302 | a run in program order is a run of the transition system |
| RingBuffer.WrapIsSeamless | xdp/xdp-04-xsk/src/xdp-xsk-user.c:215-217 | the slot of a position is the slot of its wrapped 32-bit index |
| RingBuffer.DistinctSlots | xdp/xdp-04-xsk/src/xdp-xsk-user.c:215-217 | positions less than a ring apart use distinct slots |
| RingBuffer.Ring.NbFree | xdp/xdp-04-xsk/src/xdp-xsk-user.c:205-206 | the free slots known to be free, not capped by the request; the view is renewed, and the count exact, exactly when they do not cover the request |
| RingBuffer.Ring.Reserve | xdp/xdp-04-xsk/src/xdp-xsk-user.c:181-183 | all or nothing, and all if the request does not exceed what was known free |
| RingBuffer.Ring.Store | xdp/xdp-04-xsk/src/xdp-xsk-user.c:191-192 | a value stored in the next reserved slot overwrites no unconsumed entry |
| RingBuffer.Ring.Submit | xdp/xdp-04-xsk/src/xdp-xsk-user.c:194 | exactly the stored values are published, in order |
| RingBuffer.Ring.Peek | xdp/xdp-04-xsk/src/xdp-xsk-user.c:254-261 | the entries known to be available, at most the requested number; the view is renewed exactly when none is known, so at least one when there is one |
| RingBuffer.Ring.Load | xdp/xdp-04-xsk/src/xdp-xsk-user.c:268-270 | the i-th peeked descriptor is the i-th oldest published entry |
| RingBuffer.Ring.Release | xdp/xdp-04-xsk/src/xdp-xsk-user.c:278-279 | the peeked entries, and no others, are handed back |
| XskSocket.Socket.constructor | xdp/xdp-04-xsk/src/xdp-xsk-user.c:148-177 | the socket starts in the initial state of the transition system, before the ring is populated |
| XskSocket.Socket.LayOut | xdp/xdp-04-xsk/src/xdp-xsk-user.c:174-177 | entry i of the pool is address i times the frame size, written out |
| XskSocket.Socket.PopulateFillRing | xdp/xdp-04-xsk/src/xdp-xsk-user.c:179-196 | the first filling publishes frames n - 1, n - 2 and so on, p of them, and leaves frame i at index i below; what exceeds the population is invalid |
| XskSocket.Socket.AllocFrame | xdp/xdp-04-xsk/src/xdp-xsk-user.c:116-129 | pops the top of the pool or returns the invalid frame; cleared slots stay cleared |
| XskSocket.Socket.FreeFrame | xdp/xdp-04-xsk/src/xdp-xsk-user.c:131-136 | pushes the frame, given room |
| XskSocket.Socket.FillAndSubmit | xdp/xdp-04-xsk/src/xdp-xsk-user.c:215-219 | the fill ring receives exactly the popped frames in pop order |
| XskSocket.Socket.ReplenishFillRing | xdp/xdp-04-xsk/src/xdp-xsk-user.c:199-221 | the retry loop ends at the first try; as many frames are published as were free slots at the counting, whatever the pool holds, none for an empty pool; they come off the top of the array downwards, and are all real exactly when few enough frames were out then |
| XskSocket.Socket.RecyclePacket | xdp/xdp-04-xsk/src/xdp-xsk-user.c:268-275 | the address of the processed descriptor goes to the top of the pool; there is room for it |
| XskSocket.Socket.ProcessPkts | xdp/xdp-04-xsk/src/xdp-xsk-user.c:250-280 | takes the packets known to wait off the RX ring in order, at most 16, and at least one if one waits; publishes exactly as many frames as were counted free, and puts the addresses of the packets on top of what that leaves |
| XskSocket.Socket.ReceiveAndProcessPkts | xdp/xdp-04-xsk/src/xdp-xsk-user.c:282-302 | the loop is a run in program order with one peek per wake-up; round by round, all that the fill ring got, the RX ring gave and the pool became; everything published is real if and only if few enough frames were out at each counting |
| XskSocket.AccountReal | xdp/xdp-04-xsk/src/xdp-xsk-user.c:250-302 | over any number of rounds, what was published is real exactly when each count was covered |
| IdBits.ExtendedId | assignments/assignment5/arduino-libraries/CAN_BUS_Shield/mcp_can.cpp:773-827 | the four bytes of an extended identifier give back its 29 bits |
| IdBits.StandardId | assignments/assignment5/arduino-libraries/CAN_BUS_Shield/mcp_can.cpp:783-827 | those of a standard identifier give back its 11 bits |
| CanCodec.IdRoundTrip | assignments/assignment5/arduino-libraries/CAN_BUS_Shield/mcp_can.cpp:767-827 | decoding an encoded identifier gives its format and its value modulo 2^29 or 2^11, for every 32-bit identifier |
| CanCodec.RegsRoundTrip | assignments/assignment5/arduino-libraries/CAN_BUS_Shield/mcp_can.cpp:767-827 | encoding a decoded identifier gives back every meaningful register bit |
| CanCodec.AcceptanceExtended | assignments/assignment5/arduino-libraries/CAN_BUS_Shield/mcp_can.cpp:773-802 | masked comparison of encoded registers is masked comparison of 29-bit identifiers |
| CanCodec.AcceptanceStandard | assignments/assignment5/arduino-libraries/CAN_BUS_Shield/mcp_can.cpp:783-802 | the same for 11-bit identifiers |
| CanCodec.MessageRoundTrip | assignments/assignment5/arduino-libraries/CAN_BUS_Shield/mcp_can.cpp:834-895 | a written message read from a buffer that starts with its bytes is the same message, for every identifier and every length up to 15 |
| CanCodec.LengthSurvivesIff | assignments/assignment5/arduino-libraries/CAN_BUS_Shield/mcp_can.cpp:839-889 | the length is read back if and only if it is at most 15; bit 6 of it reads as the remote flag |
| CanCodec.EncodeLaid | assignments/assignment5/arduino-libraries/CAN_BUS_Shield/mcp_can.cpp:767-790 | where each bit of an identifier is in SIDH, SIDL, EID8 and EID0 |
| CanCodec.EncodeMsgLaid | assignments/assignment5/arduino-libraries/CAN_BUS_Shield/mcp_can.cpp:834-860 | a buffer that starts with the bytes sent holds identifier, length, remote flag and data at their places |
| CanCodec.DecodeMsgReads | assignments/assignment5/arduino-libraries/CAN_BUS_Shield/mcp_can.cpp:866-895 | and what is read comes from those places |
| Mcp2515.StatusBits | assignments/assignment5/arduino-libraries/CAN_BUS_Shield/mcp_can_dfs.h:95-105 | each bit of the status byte means what its constant says |
| Mcp2515.ChipKeepsTxSafe | assignments/assignment5/arduino-libraries/CAN_BUS_Shield/mcp_can.cpp:918-955 | nothing the chip does makes a flagged transmit buffer pending |
| Mcp2515.ChipKeepsIdle | assignments/assignment5/arduino-libraries/CAN_BUS_Shield/mcp_can.cpp:918-955 | a buffer neither pending nor flagged stays so whatever the chip does |
| Mcp2515.SeenFreeIsIdle | assignments/assignment5/arduino-libraries/CAN_BUS_Shield/mcp_can.cpp:918-929 | after its flag is cleared, a buffer seen not pending is idle, in spite of chip activity in between |
| Mcp2515.FlaggedIsIdle | assignments/assignment5/arduino-libraries/CAN_BUS_Shield/mcp_can.cpp:1132-1142 | so is a buffer whose flag was set |
| Mcp2515.GroupWrite | assignments/assignment5/arduino-libraries/CAN_BUS_Shield/mcp_can.cpp:796-802 | writing one filter or mask touches no other |
| McpFacts.TranslatedBits | assignments/assignment5/arduino-libraries/CAN_BUS_Shield/mcp_can.cpp:1284-1292 | the translated status shows exactly the chip's transmit and receive flags |
| McpFacts.SetAndClear | assignments/assignment5/arduino-libraries/CAN_BUS_Shield/mcp_can.cpp:369-387 | switching the wake-up interrupt on and off again restores CANINTE |
| McpCan.McpCan.ReserveTxBuffers | assignments/assignment5/arduino-libraries/CAN_BUS_Shield/mcp_can.h:124 | the number asked for is reserved, or all buffers but one if that is too many |
| McpCan.McpCan.IsTxBufFree | assignments/assignment5/arduino-libraries/CAN_BUS_Shield/mcp_can.cpp:918-929 | succeeds if and only if the status shows the buffer free; the buffer is idle then |
| McpCan.McpCan.GetNextFreeTxBuf | assignments/assignment5/arduino-libraries/CAN_BUS_Shield/mcp_can.cpp:935-955 | finds the lowest unreserved buffer the status shows free, idle afterwards, or none if there is none |
| McpCan.McpCan.WriteCanMsg | assignments/assignment5/arduino-libraries/CAN_BUS_Shield/mcp_can.cpp:834-860 | loads a buffer once and starts it once, with exactly the encoded message in it, each bit at its place; an idle buffer is loaded idle |
| McpCan.McpCan.SendMsgBufStatus | assignments/assignment5/arduino-libraries/CAN_BUS_Shield/mcp_can.cpp:1132-1142 | sends if and only if the status is one transmit flag; a buffer not pending at the call is loaded idle; one that is may be overwritten, and the log says whether it was |
| McpFacts.OverwritePossibleIff | assignments/assignment5/arduino-libraries/CAN_BUS_Shield/mcp_can.cpp:1132-1142 | a buffer may be pending when it is loaded if and only if it is at the call |
| McpFacts.FlagLostPossibleIff | assignments/assignment5/arduino-libraries/CAN_BUS_Shield/mcp_can.cpp:1132-1142 | a flagged buffer may become pending if and only if the buffer is pending at the call |
| McpCan.McpCan.SendWhenFlagged | assignments/assignment5/arduino-libraries/CAN_BUS_Shield/mcp_can.cpp:1128-1142 | the documented use, flag from readRxTxStatus and checkClearTxStatus, always meets that condition |
| McpCan.McpCan.TrySendMsgBuf | assignments/assignment5/arduino-libraries/CAN_BUS_Shield/mcp_can.cpp:1148-1161 | one status reading decides; a failure loads and starts nothing |
| McpCan.McpCan.SendMsg | assignments/assignment5/arduino-libraries/CAN_BUS_Shield/mcp_can.cpp:1167-1206 | the whole transcript: bounded polls, at most one load and start into an unreserved idle buffer, with each bit of the message at its place, bounded checks; each timeout if and only if the first 49 readings of its loop are in vain |
| McpCan.LateBufferIsWasted | assignments/assignment5/arduino-libraries/CAN_BUS_Shield/mcp_can.cpp:1180-1185 | from any state with all buffers pending, a course of the chip whose readings time out although the last one offers a buffer, with all transmissions completed |
| McpCan.LateDepartureIsMissed | assignments/assignment5/arduino-libraries/CAN_BUS_Shield/mcp_can.cpp:1188-1201 | from any pending buffer, a course of the chip whose checks time out although the frame has left at the last one |
| McpCan.McpCan.CheckReceive | assignments/assignment5/arduino-libraries/CAN_BUS_Shield/mcp_can.cpp:1354-1359 | reports a message exactly when one of the two receive flags of CANINTF is set |
| McpCan.McpCan.ReadCanMsg | assignments/assignment5/arduino-libraries/CAN_BUS_Shield/mcp_can.cpp:866-895 | decodes a frame not delivered before and overwrites only its data bytes of the caller's array |
| McpCan.McpCan.ReadRxTxStatus | assignments/assignment5/arduino-libraries/CAN_BUS_Shield/mcp_can.cpp:1284-1292 | the flags of CANINTF at the reading |
| McpCan.McpCan.CheckClearTxStatus | assignments/assignment5/arduino-libraries/CAN_BUS_Shield/mcp_can.cpp:1317-1335 | picks the asked-for or the lowest unreserved flag and clears just that one |
| McpCan.McpCan.ReadMsgBufID | assignments/assignment5/arduino-libraries/CAN_BUS_Shield/mcp_can.cpp:1250-1275 | reads registers 0x61 to 0x6D if bit 0 of the status is set, else 0x71 to 0x7D if bit 1 is, as they are at that moment; fields, length and data are those of its frame, which has arrived and not been delivered before exactly when the buffer is full then |
| McpFacts.StaleReadPossibleIff | assignments/assignment5/arduino-libraries/CAN_BUS_Shield/mcp_can.cpp:1250-1275 | a buffer may be read while not full if and only if it is not full at the call |
| McpCan.McpCan.ReadMsgBuf | assignments/assignment5/arduino-libraries/CAN_BUS_Shield/mcp_can.cpp:1231-1234 | never misses a waiting frame and never delivers one twice, although frames arrive meanwhile |
| McpCan.ElapsedIsTrue | assignments/assignment5/arduino-libraries/CAN_BUS_Shield/mcp_can.cpp:402-414 | the 32-bit difference of millis() is the elapsed time through a wrap |
| McpCan.McpCan.RequestNewMode | assignments/assignment5/arduino-libraries/CAN_BUS_Shield/mcp_can.cpp:400-417 | terminates for any chip; OK only with CANSTAT in the mode, FAIL only after more than 200 ms; the mode was requested |
| McpCan.McpCan.SetCanctrlMode | assignments/assignment5/arduino-libraries/CAN_BUS_Shield/mcp_can.cpp:361-394 | success ends in the mode with CANINTE as before; CANINTE ends up changed exactly when the chip slept with its wake-up interrupt off and did not wake in time; the whole sequence of looks, wake-up steps and requests, with CANINTF as the wake flag was written |
| McpCan.McpCan.WakeUp | assignments/assignment5/arduino-libraries/CAN_BUS_Shield/mcp_can.cpp:366-388 | the wake-up interrupt is restored unless waking failed with it off; the sequence interrupt on, flag raised in CANINTF, LISTENONLY asked, interrupt off |
| McpCan.McpCan.SetMode | assignments/assignment5/arduino-libraries/CAN_BUS_Shield/mcp_can.cpp:341-346 | mcpMode is the last mode other than SLEEP given to setMode, over every call sequence, whether or not the mode change succeeds |
| McpCan.LastAwakeIsLast | assignments/assignment5/arduino-libraries/CAN_BUS_Shield/mcp_can.cpp:341-346 | the remembered mode is the last call that is not 0x20, or the initial one |
| McpCan.McpCan.Wake | assignments/assignment5/arduino-libraries/CAN_BUS_Shield/mcp_can.cpp:328-335 | nothing but a look if the chip is in that mode; otherwise exactly one mode change to it, whose failure means that the time was up; success leaves the chip in that mode |
| McpCan.McpCan.Sleep | assignments/assignment5/arduino-libraries/CAN_BUS_Shield/mcp_can.cpp:316-322 | the same for SLEEP; CANINTE always stays as it was |
| McpCan.McpCan.InitGroup | assignments/assignment5/arduino-libraries/CAN_BUS_Shield/mcp_can.cpp:1011-1125 | the common course of both: enter CONFIG, write the group if the number is known, return to mcpMode, in this order; success if and only if both mode changes succeeded, also for an unknown number; no other filter, mask, timing or buffer register changes |
| McpCan.McpCan.InitMask | assignments/assignment5/arduino-libraries/CAN_BUS_Shield/mcp_can.cpp:1011-1053 | if CONFIG was entered, masks 0 and 1 put the identifier into registers 0x20 to 0x23 and 0x24 to 0x27, between the two mode changes, and no other filter, mask or timing register changes; numbers above 1 write nothing and are not reported |
| McpCan.McpCan.InitFilt | assignments/assignment5/arduino-libraries/CAN_BUS_Shield/mcp_can.cpp:1059-1125 | the same for filters 0 to 5, in the registers from 0x00, 0x04, 0x08, 0x10, 0x14 and 0x18 on; numbers above 5 write nothing and are not reported |
| McpCan.McpCan.Configure | assignments/assignment5/arduino-libraries/CAN_BUS_Shield/mcp_can.cpp:1011-1125 | a sequence of calls succeeds if and only if all were made and both mode changes of each succeeded; then each of the eight groups holds its own last value, and the chip is in mcpMode; the transcript is that of the calls made |
| McpCan.McpCan.InitCanBuffers | assignments/assignment5/arduino-libraries/CAN_BUS_Shield/mcp_can.cpp:653-671 | writes zero to exactly the 42 transmit and two receive control registers; they are zero, and everything else is as the chip alone would leave it |
| McpCan.McpCan.ConfigRate | assignments/assignment5/arduino-libraries/CAN_BUS_Shield/mcp_can.cpp:423-647 | succeeds exactly for a supported pair, writing the three timing registers and nothing else, which then hold the values in CONFIG mode; otherwise it writes nothing |
| McpCan.McpCan.EnableReceive | assignments/assignment5/arduino-libraries/CAN_BUS_Shield/mcp_can.cpp:721-738 | receive interrupts, receive modes and rollover end up set as intended; filters, masks, timing and transmit buffers stay |
| McpCan.McpCan.Begin | assignments/assignment5/arduino-libraries/CAN_BUS_Shield/mcp_can.cpp:677-761 | success if and only if CONFIG and, for a supported pair, NORMAL were reached: a rejected speed goes unreported; the exact transcript of the set-up; success for a supported pair means the timing registers hold their values, reception and rollover are enabled and the transmit registers zero |
| Datasheet.StatusByte | assignments/assignment5/arduino-libraries/CAN_BUS_Shield/mcp_can_dfs.h:95-105 | each bit of the status byte is that bit of CANINTF or TXREQ of that buffer |
| Datasheet.LowestFree | assignments/assignment5/arduino-libraries/CAN_BUS_Shield/mcp_can.cpp:935-955 | the buffer offered is the lowest unreserved one with TXREQ clear |
| Datasheet.Instructions | assignments/assignment5/arduino-libraries/CAN_BUS_Shield/mcp_can_dfs.h:188-194 | load and request-to-send instructions and flags of each transmit buffer |
| Datasheet.FilterRegisters | assignments/assignment5/arduino-libraries/CAN_BUS_Shield/mcp_can_dfs.h:119-153 | addresses of the six filters and two masks |
| Datasheet.ModeCourses | assignments/assignment5/arduino-libraries/CAN_BUS_Shield/mcp_can.cpp:361-394 | the five possible transcripts of a mode change |
| Datasheet.ModeRegisters | assignments/assignment5/arduino-libraries/CAN_BUS_Shield/mcp_can.cpp:361-394 | CANSTAT, CANCTRL and CANINTE after a mode change |
| Datasheet.ModeFlags | assignments/assignment5/arduino-libraries/CAN_BUS_Shield/mcp_can.cpp:361-417 | the wake flag as written, and failure only after 200 ms |
| Datasheet.SetUpCourse | assignments/assignment5/arduino-libraries/CAN_BUS_Shield/mcp_can.cpp:705-741 | the set-up writes of begin in their order |
| Datasheet.FiftyReadings | assignments/assignment5/arduino-libraries/CAN_BUS_Shield/mcp_can.cpp:1176-1203 | the loops of sendMsg run out after 49 readings in vain |
| StepperNode.TurnIsModular | assignments/assignment5/src-arduino/stepper_can/stepper_can.ino:144-157 | a step is plus or minus one modulo 1600 |
| StepperNode.Stepper.MakeStep | assignments/assignment5/src-arduino/stepper_can/stepper_can.ino:110-158 | the counter moves by that step and stays below 1600 |
| StepperNode.Stepper.SendPosition | assignments/assignment5/src-arduino/stepper_can/stepper_can.ino:92-108 | at most one transmission: standard identifier 2, two bytes, the high byte of the position first |
| StepperNode.Stepper.ProcessCanMsg | assignments/assignment5/src-arduino/stepper_can/stepper_can.ino:160-203 | byte 0x01 of a one-byte message with identifier 1 steps forward and 0x02 in reverse, modulo 1600, and nothing else moves the counter; answers exactly two-byte remote requests with identifier 2 |
| StepperNode.Stepper.LoopOnce | assignments/assignment5/src-arduino/stepper_can/stepper_can.ino:213-227 | a waiting frame is read, once, and moves the counter as its bytes say; nothing else changes the counter or sends |
| StepperSystem.ReplyDecoded | assignments/assignment5/src-rpi/positionreq-sender.c:150-174 | the receiver reads back the position of a reply |
| StepperSystem.OthersIgnored | assignments/assignment5/src-rpi/positionreq-sender.c:150-166 | it takes no position from remote frames or other identifiers |
| StepperSystem.PositionTaken | assignments/assignment5/src-rpi/positionreq-sender.c:140-174 | the receiver takes a position exactly from a plain frame with identifier 2 and two bytes, high byte first |
| StepperSystem.PiFrames | assignments/assignment5/src-rpi/speedcmd-sender.c:124-133 | step commands and position requests as socket frames |
| StepperSystem.ReplyOverTheWire | assignments/assignment5/src-arduino/stepper_can/stepper_can.ino:92-108 | the transmit buffer of a reply, received unchanged, is that reply |
| StepperSystem.RunKeepsInv | assignments/assignment5/src-arduino/stepper_can/stepper_can.ino:160-229 | counter, replies, frames under way and displayed positions stay consistent in every run |
| StepperSystem.ArduinoPass | assignments/assignment5/src-arduino/stepper_can/stepper_can.ino:160-229 | one pass of the main loop is one step of the system, and the frame the driver starts is the reply of that step |
| StepperSystem.EndToEnd | assignments/assignment5/src-rpi/positionreq-sender.c:116-188 | every displayed position is forward minus reverse commands processed, modulo 1600, when the Arduino came to the request whose reply is displayed; its angle is in [0, 360) |
| StepperSystem.ForwardMinusReverse | assignments/assignment5/src-rpi/speedcmd-sender.c:105-145 | unless another node sends step commands, every displayed position is the number of commands sent forward less those sent in reverse, of those processed by then, modulo 1600 |
| StepperSystem.CommandsAccounted | assignments/assignment5/src-rpi/speedcmd-sender.c:180-186 | the commands processed and under way in a direction were sent while the user had chosen it, each once, and all of them if none is lost |
| StepperSystem.DirectionIsLastKey | assignments/assignment5/src-rpi/speedcmd-sender.c:345-360 | the direction is that of the last of the keys f, r and s |
| StepperSystem.RequestIsAnswered | assignments/assignment5/src-arduino/stepper_can/stepper_can.ino:160-203 | at any moment of any run a request brings the current position to the display if nothing is lost |
| StepperSystem.ShownApart | assignments/assignment5/src-rpi/positionreq-sender.c:116-188 | two displayed positions come from two different requests |
| StepperSystem.NeverMoreThanAsked | assignments/assignment5/src-rpi/positionreq-sender.c:63-109 | displays never outnumber replies, nor replies requests |
| Periodic.Timespec.NextCycleStart | assignments/assignment5/src-rpi/positionreq-sender.c:198-205 | advances the instant by exactly one cycle, without overflow of the 64-bit sum |
| Periodic.RtThreadRun | assignments/assignment5/src-rpi/positionreq-sender.c:224-241 | the n-th release is exactly n cycles after the start, in nanoseconds |
| DropCount.MakeDropDecision | xdp/xdp-02-drop_and_count/src/xdp-drop_and_count-bpf.c:41-61 | drops exactly the packets with 14 bytes or more whose first six are the configured address, all of them below 128 |
| DropCount.RunKeepsInv | xdp/xdp-02-drop_and_count/src/xdp-drop_and_count-bpf.c:63-115 | the invariant of locks, records, counters and readers holds in every reachable state |
| DropCount.MutualExclusion | xdp/xdp-02-drop_and_count/src/xdp-drop_and_count-bpf.c:77-85 | no two CPUs, no two readers and no CPU and reader are in the critical section of the same record |
| DropCount.CountsAgree | xdp/xdp-02-drop_and_count/src/xdp-drop_and_count-bpf.c:80-110 | modulo 2^64, what the records gained is what the global counter gained plus the CPUs between the two increments, and the global counter gained the packets of the trace that match, less those still in hand |
| DropCount.EveryMatchCounted | xdp/xdp-02-drop_and_count/src/xdp-drop_and_count-bpf.c:41-110 | the packets of the trace that match, counted by their bytes, are what the record and the global counter gained, less those still in hand; with all CPUs idle the sum of the records and the global counter grew by exactly that number modulo 2^64 |
| DropCount.MatchesCounted | xdp/xdp-02-drop_and_count/src/xdp-drop_and_count-bpf.c:41-85 | every matching packet is counted in a record or in the hands of a CPU that will count it |
| DropCount.OnlyConfigured | xdp/xdp-02-drop_and_count/src/xdp-drop_and_count-bpf.c:51-85 | only the record of the configured address ever changes |
| DropCount.StampsGrow | xdp/xdp-02-drop_and_count/src/xdp-drop_and_count-bpf.c:80-85 | the time of the last drop never decreases from any reachable state on |
| DropCount.StampsReadUnderLock | xdp/xdp-02-drop_and_count/src/xdp-drop_and_count-bpf.c:77-85 | every time stamp is what the clock showed at a moment when a CPU was inside the critical section of that record |
| DropCount.ReaderSeesAnUpdate | xdp/xdp-02-drop_and_count/src/xdp-drop_and_count-user.c:57-62 | a locked reader has copied the pair of the last completed update, or the initial one if there was none |

## Left out
- Command lines, signals, `poll`, sockets, BPF loading, thread and terminal set-up, serial output and `process_pkt`: operating system calls and printing.
- The TX and completion rings: the program never uses them. The `len` field of RX descriptors is only printed.
- The allocation failures in `configure_xsk_umem` and `xsk_configure_socket`: the model starts with both rings created.
- libbpf and the kernel: only the behaviour listed above. A kernel step between popping a frame and storing it in its slot touches neither, so it is modelled before the pair.
- McpCan.McpCan.ConfigRate: writes arbitrary bytes to the three timing registers; the table of values is not modelled.
- McpCan.McpCan.InitGroup: assumes that the chip does not leave configuration mode before another mode is requested. The filter and mask registers that the chip shows in other modes are those last written.
- McpCan.McpCan.RequestNewMode: assumes that no SPI transaction is held up for more than nine days, without which a wrap of the millisecond counter could hide the timeout.
- McpCan.McpCan.Sleep: says nothing about the chip waking up again after the last reading; neither do the other mode functions.
- `mcpPinMode`, `mcpDigitalWrite`, `mcpDigitalRead`, `enableTxInterrupt`, `clearBufferTransmitIfFlags`, `checkError`, `setSleepWakeup`, `checkClearRxStatus`: single register accesses.
- Delays and the SPI chip select; the order of SPI transactions is kept. The driver uses neither the abort request nor one-shot mode; the chip may end a transmission without its flag all the same.
- Where the chip puts the remote-request bit of a received standard frame: buffers are moved byte for byte between transmit and receive side.
- StepperSystem.EndToEnd: assumes that no other node sends identifier 2, and does not model error frames. Positions are exact rationals, not `double`.
- Periodic.RtThreadRun: `tv_sec` is unbounded.
- `update_mac_stats` with an address that has no record: the code dereferences a null pointer there, which the BPF verifier would have to refuse; arrivals need their record. The lookup of the global counter is assumed to succeed.
- `xdp_prog_main` is modelled as steps over shared state instead of a method that updates in place, because other CPUs act between its accesses; the return codes are not modelled.
- `print_stats_per_mac`: asks for the first key every time, so only the locked copy of one record is modelled.
- `assignment1`, `xdp-pass-bpf.c`, `xdp-xsk-bpf.c` and the example sketches: stubs and demonstrations.
