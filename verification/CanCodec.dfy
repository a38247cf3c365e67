/**
 The byte formats of `mcp_can.cpp`: CAN identifiers in four registers, and whole messages in a transmit
 or receive buffer (data and remote frames of the CAN Specification 2.0 Part B, sections 3.2.1, 3.2.2).
 */
module CanCodec {

  import opened IdBits

  const SIDH: nat := 0
  const SIDL: nat := 1
  const EID8: nat := 2
  const EID0: nat := 3

  const EXIDE_M: byte := 0x08
  const DLC_MASK: byte := 0x0F
  const RTR_MASK: byte := 0x40

  /** An identifier as its four register bytes. */
  datatype IdRegs = IdRegs(sidh: byte, sidl: byte, eid8: byte, eid0: byte) {
    function Bytes(): (buf: seq<byte>)
      ensures |buf| == 4
    {
      [sidh, sidl, eid8, eid0]
    }
  }

  function IdRegsOf(buf: seq<byte>): IdRegs
    requires |buf| >= 4
  {
    IdRegs(buf[SIDH], buf[SIDL], buf[EID8], buf[EID0])
  }

  /** mcp2515_id_to_buf. */
  function Encode(ext: byte, id: bv32): IdRegs {
    if ext == 1 then IdRegs(XSidh(id), XSidl(id), XEid8(id), XEid0(id)) else IdRegs(SSidh(id), SSidl(id), 0, 0)
  }

  /** The identifier part of mcp2515_read_id and mcp2515_read_canMsg. */
  function DecodeExt(r: IdRegs): byte {
    if r.sidl & EXIDE_M == EXIDE_M then 1 else 0
  }

  function DecodeId(r: IdRegs): bv32 {
    if r.sidl & EXIDE_M == EXIDE_M then ExtId(r.sidh, r.sidl, r.eid8, r.eid0) else StdId(r.sidh, r.sidl)
  }

  /** Every identifier survives, up to the bits its frame format has. */
  lemma IdRoundTrip(ext: byte, id: bv32)
    ensures DecodeExt(Encode(ext, id)) == if ext == 1 then 1 else 0
    ensures DecodeId(Encode(ext, id)) == if ext == 1 then AndId(id, ID29) else AndId(id, ID11)
  {
    hide XSidh, XSidl, XEid8, XEid0, SSidh, SSidl, StdId, ExtId;
    ExtendedId(id);
    StandardId(id);
  }

  /** Conversely, encoding what was read gives back every meaningful bit of the four registers. */
  lemma RegsRoundTrip(r: IdRegs)
    ensures Encode(DecodeExt(r), DecodeId(r)) ==
      if r.sidl & EXIDE_M == EXIDE_M then r.(sidl := r.sidl & 0xEB) else IdRegs(r.sidh, r.sidl & 0xE0, 0, 0)
  {
    hide XSidh, XSidl, XEid8, XEid0, SSidh, SSidl, StdId, ExtId;
    ExtendedBytes(r.sidh, r.sidl, r.eid8, r.eid0);
    StandardBytes(r.sidh, r.sidl);
  }

  /** Register-wise comparison under a mask, as acceptance filtering does it. */
  predicate MaskedEqual(x: IdRegs, mask: IdRegs, y: IdRegs) {
    && And(x.sidh, mask.sidh) == And(y.sidh, mask.sidh)
    && And(x.sidl, mask.sidl) == And(y.sidl, mask.sidl)
    && And(x.eid8, mask.eid8) == And(y.eid8, mask.eid8)
    && And(x.eid0, mask.eid0) == And(y.eid0, mask.eid0)
  }

  /** The encoding preserves acceptance: comparing registers is comparing identifiers. */
  lemma AcceptanceExtended(id: bv32, mask: bv32, filter: bv32)
    ensures MaskedEqual(Encode(1, id), Encode(1, mask), Encode(1, filter))
      <==> AndId(AndId(id, mask), ID29) == AndId(AndId(filter, mask), ID29)
  {
    hide And, AndId, XSidh, XSidl, XEid8, XEid0;
    ExtendedMasked(id, mask, filter);
  }

  lemma AcceptanceStandard(id: bv32, mask: bv32, filter: bv32)
    ensures MaskedEqual(Encode(0, id), Encode(0, mask), Encode(0, filter))
      <==> AndId(AndId(id, mask), ID11) == AndId(AndId(filter, mask), ID11)
  {
    hide And, AndId, SSidh, SSidl;
    StandardMasked(id, mask, filter);
  }

  // ---------------------------------------------------------------------------------------------
  // Whole messages
  // ---------------------------------------------------------------------------------------------

  const MAX_CHARS: nat := 8  // CAN_MAX_CHAR_IN_MESSAGE

  function Min(a: nat, b: nat): nat {
    if a <= b then a else b
  }

  /** The DLC register: the length, and bit 6 for a remote frame. */
  function Dlc(len: byte, rtrBit: byte): byte {
    len | (if rtrBit != 0 then RTR_MASK else 0)
  }

  /** Number of data bytes sent or read for a length field. */
  function DataCount(len: byte): nat {
    Min(len as nat, MAX_CHARS)
  }

  /** What mcp2515_write_canMsg sends after the load instruction. */
  function EncodeMsg(id: bv32, ext: byte, rtrBit: byte, len: byte, data: seq<byte>): (bytes: seq<byte>)
    requires |data| >= DataCount(len)
    ensures |bytes| == 5 + DataCount(len)
  {
    Encode(ext, id).Bytes() + [Dlc(len, rtrBit)] + data[..DataCount(len)]
  }

  datatype Message = Message(id: bv32, ext: byte, rtr: byte, len: byte, data: seq<byte>)

  /** What mcp2515_read_canMsg makes of the bytes of a buffer. */
  function DecodeMsg(bytes: seq<byte>): Message
    requires |bytes| >= 5 + MAX_CHARS
  {
    var r := IdRegsOf(bytes);
    var len := bytes[4] & DLC_MASK;
    Message(DecodeId(r), DecodeExt(r), if bytes[4] & RTR_MASK != 0 then 1 else 0, len, bytes[5..5 + DataCount(len)])
  }

  lemma DlcRoundTrip(len: byte, rtrBit: byte)
    ensures Dlc(len, rtrBit) & DLC_MASK == len & DLC_MASK
    ensures Dlc(len, rtrBit) & DLC_MASK == len <==> len <= 15
    ensures Dlc(len, rtrBit) & RTR_MASK != 0 <==> rtrBit != 0 || len & RTR_MASK != 0
  {
  }

  lemma SmallLen(len: byte)
    requires len <= 15
    ensures len & DLC_MASK == len && len & RTR_MASK == 0
  {
  }

  /**
   A message written to a transmit buffer and moved unchanged into a receive buffer is read back as it
   was sent, whatever the buffer held beyond it: the identifier up to the bits of its format, the
   remote flag, the length, and the data the length stands for.
   */
  lemma MessageRoundTrip(id: bv32, ext: byte, rtrBit: byte, len: byte, data: seq<byte>, buffer: seq<byte>)
    requires |data| >= DataCount(len) && |buffer| >= 5 + MAX_CHARS
    requires EncodeMsg(id, ext, rtrBit, len, data) <= buffer
    requires len <= 15
    ensures DecodeMsg(buffer) == Message(
      if ext == 1 then AndId(id, ID29) else AndId(id, ID11),
      if ext == 1 then 1 else 0,
      if rtrBit != 0 then 1 else 0,
      len,
      data[..DataCount(len)])
  {
    hide Encode, DecodeId, DecodeExt, Dlc;
    var bytes := EncodeMsg(id, ext, rtrBit, len, data);
    assert forall i :: 0 <= i < |bytes| ==> buffer[i] == bytes[i];
    assert IdRegsOf(buffer) == Encode(ext, id);
    IdRoundTrip(ext, id);
    DlcRoundTrip(len, rtrBit);
    SmallLen(len);
    assert buffer[4] == Dlc(len, rtrBit);
    assert buffer[..|bytes|] == bytes;
    assert bytes[5..] == data[..DataCount(len)];
    assert buffer[5..5 + DataCount(len)] == bytes[5..];
  }

  /** Exactly the lengths of at most 15 survive; a longer one can also set the remote flag. */
  lemma LengthSurvivesIff(id: bv32, ext: byte, rtrBit: byte, len: byte, data: seq<byte>, buffer: seq<byte>)
    requires |data| >= DataCount(len) && |buffer| >= 5 + MAX_CHARS
    requires EncodeMsg(id, ext, rtrBit, len, data) <= buffer
    ensures DecodeMsg(buffer).len == len <==> len <= 15
    ensures DecodeMsg(buffer).rtr != 0 <==> rtrBit != 0 || len & RTR_MASK != 0
  {
    hide Encode, DecodeId, DecodeExt, Dlc;
    var bytes := EncodeMsg(id, ext, rtrBit, len, data);
    assert buffer[4] == bytes[4] == Dlc(len, rtrBit);
    DlcRoundTrip(len, rtrBit);
  }

  // ---------------------------------------------------------------------------------------------
  // Where the bits are, as the controller's registers define it
  // ---------------------------------------------------------------------------------------------

  /** The 29 bits of an extended identifier in SIDH, SIDL, EID8 and EID0. */
  function Bits29(sidh: byte, sidl: byte, eid8: byte, eid0: byte): bv32 {
    ((sidh as bv32) << 21) | (((sidl & 0xE0) as bv32) << 13) | (((sidl & 0x03) as bv32) << 16)
    | ((eid8 as bv32) << 8) | (eid0 as bv32)
  }

  /** The 11 bits of a standard identifier in SIDH and SIDL. */
  function Bits11(sidh: byte, sidl: byte): bv32 {
    ((sidh as bv32) << 3) | ((sidl >> 5) as bv32)
  }

  /** An identifier in four register bytes; EXIDE is bit 3 of SIDL. */
  ghost predicate IdLaid(b: seq<byte>, ext: byte, id: bv32)
    requires |b| >= 4
  {
    if ext == 1 then Bits29(b[0], b[1], b[2], b[3]) == id & 0x1FFF_FFFF && b[1] & 0x08 != 0 && b[1] & 0x10 == 0
    else Bits11(b[0], b[1]) == id & 0x7FF && b[1] & 0x1F == 0 && b[2] == 0 && b[3] == 0
  }

  /** A message in a buffer: identifier, DLC with the remote flag in bit 6, at most 8 data bytes. */
  ghost predicate Laid(b: seq<byte>, id: bv32, ext: byte, rtrBit: byte, len: byte, data: seq<byte>) {
    var count := if len <= 8 then len as nat else 8;
    && |b| >= 5 + count && |data| >= count
    && IdLaid(b, ext, id)
    && b[4] == len | (if rtrBit != 0 then 0x40 else 0x00)
    && b[5..5 + count] == data[..count]
  }

  /** A message as it is read from a buffer. */
  ghost predicate ReadFrom(m: Message, b: seq<byte>)
    requires |b| == 13
  {
    && m.ext == (if b[1] & 0x08 != 0 then 1 else 0)
    && m.id == (if b[1] & 0x08 != 0 then Bits29(b[0], b[1], b[2], b[3]) else Bits11(b[0], b[1]))
    && m.rtr == (if b[4] & 0x40 != 0 then 1 else 0)
    && m.len == b[4] & 0x0F
    && m.data == b[5..5 + if m.len <= 8 then m.len as nat else 8]
  }

  lemma ExtendedLayout(id: bv32)
    ensures Bits29(XSidh(id), XSidl(id), XEid8(id), XEid0(id)) == id & 0x1FFF_FFFF
    ensures XSidl(id) & 0x08 != 0 && XSidl(id) & 0x10 == 0
  {
  }

  lemma StandardLayout(id: bv32)
    ensures Bits11(SSidh(id), SSidl(id)) == id & 0x7FF && SSidl(id) & 0x1F == 0
  {
  }

  lemma EncodeLaid(ext: byte, id: bv32)
    ensures IdLaid(Encode(ext, id).Bytes(), ext, id)
  {
    hide XSidh, XSidl, XEid8, XEid0, SSidh, SSidl, Bits29, Bits11;
    ExtendedLayout(id);
    StandardLayout(id);
  }

  lemma ExtIdBits(b: seq<byte>)
    requires |b| >= 4
    ensures ExtId(b[0], b[1], b[2], b[3]) == Bits29(b[0], b[1], b[2], b[3]) && StdId(b[0], b[1]) == Bits11(b[0], b[1])
  {
  }

  lemma SmallCount(len: byte)
    ensures DataCount(len) == if len <= 8 then len as nat else 8
  {
  }

  lemma BitOrNot(b: byte)
    ensures b & 0x08 == 0x08 <==> b & 0x08 != 0
  {
  }

  lemma IdLaidSame(a: seq<byte>, b: seq<byte>, ext: byte, id: bv32)
    requires |a| >= 4 && |b| >= 4 && a[..4] == b[..4] && IdLaid(a, ext, id)
    ensures IdLaid(b, ext, id)
  {
    hide Bits29, Bits11;
    assert a[0] == a[..4][0] && a[1] == a[..4][1] && a[2] == a[..4][2] && a[3] == a[..4][3];
  }

  /** Whatever buffer starts with the bytes sent holds the message. */
  lemma EncodeMsgLaid(id: bv32, ext: byte, rtrBit: byte, len: byte, data: seq<byte>, buffer: seq<byte>)
    requires |data| >= DataCount(len) && EncodeMsg(id, ext, rtrBit, len, data) <= buffer
    ensures Laid(buffer, id, ext, rtrBit, len, data)
  {
    hide Encode, IdLaid, IdRegs.Bytes;
    var bytes, head := EncodeMsg(id, ext, rtrBit, len, data), Encode(ext, id).Bytes();
    SmallCount(len);
    EncodeLaid(ext, id);
    assert buffer[..|bytes|] == bytes;
    assert forall i :: 0 <= i < |bytes| ==> buffer[i] == bytes[i];
    assert head[..4] == head == bytes[..4] == buffer[..4];
    IdLaidSame(head, buffer, ext, id);
    assert buffer[4] == bytes[4] == Dlc(len, rtrBit);
    assert buffer[5..|bytes|] == bytes[5..] == data[..DataCount(len)];
  }

  lemma DecodeMsgReads(b: seq<byte>)
    requires |b| == 13
    ensures ReadFrom(DecodeMsg(b), b)
  {
    hide ExtId, StdId, Bits29, Bits11;
    ExtIdBits(b);
    BitOrNot(b[1]);
    SmallCount(DecodeMsg(b).len);
  }
}
