/** The bit arithmetic of mcp2515_id_to_buf and its inverse, one register byte at a time. */
module IdBits {

  type byte = bv8

  // Named so that proofs can leave the bits alone.
  function And(x: byte, y: byte): byte {
    x & y
  }

  function AndId(x: bv32, y: bv32): bv32 {
    x & y
  }

  const ID29: bv32 := 0x1FFF_FFFF
  const ID11: bv32 := 0x7FF

  // The four bytes of an extended (X) and of a standard (S) identifier, through the 16-bit `canid`.
  function XSidh(id: bv32): byte {
    var canid: bv16 := (id >> 16) as bv16;
    ((canid >> 5) & 0xFF) as byte
  }

  function XSidl(id: bv32): byte {
    var canid: bv16 := (id >> 16) as bv16;
    (((canid & 0x03) as byte) + (((canid & 0x1C) << 3) as byte)) | 0x08
  }

  function XEid8(id: bv32): byte {
    var canid: bv16 := (id & 0xFFFF) as bv16;
    (canid >> 8) as byte
  }

  function XEid0(id: bv32): byte {
    var canid: bv16 := (id & 0xFFFF) as bv16;
    (canid & 0xFF) as byte
  }

  function SSidh(id: bv32): byte {
    var canid: bv16 := (id & 0xFFFF) as bv16;
    ((canid >> 3) & 0xFF) as byte
  }

  function SSidl(id: bv32): byte {
    var canid: bv16 := (id & 0xFFFF) as bv16;
    ((canid & 0x07) << 5) as byte
  }

  function StdId(sidh: byte, sidl: byte): bv32 {
    ((sidh as bv32) << 3) + ((sidl >> 5) as bv32)
  }

  function ExtId(sidh: byte, sidl: byte, eid8: byte, eid0: byte): bv32 {
    var id1: bv32 := (StdId(sidh, sidl) << 2) + ((sidl & 0x03) as bv32);
    var id2: bv32 := (id1 << 8) + (eid8 as bv32);
    (id2 << 8) + (eid0 as bv32)
  }

  lemma ExtendedId(id: bv32)
    ensures XSidl(id) & 0x08 == 0x08
    ensures ExtId(XSidh(id), XSidl(id), XEid8(id), XEid0(id)) == AndId(id, ID29)
  {
  }

  lemma StandardId(id: bv32)
    ensures SSidl(id) & 0x08 == 0
    ensures StdId(SSidh(id), SSidl(id)) == AndId(id, ID11)
  {
  }

  lemma ExtendedBytes(sidh: byte, sidl: byte, eid8: byte, eid0: byte)
    ensures XSidh(ExtId(sidh, sidl, eid8, eid0)) == sidh
    ensures sidl & 0x08 == 0x08 ==> XSidl(ExtId(sidh, sidl, eid8, eid0)) == sidl & 0xEB
    ensures XEid8(ExtId(sidh, sidl, eid8, eid0)) == eid8
    ensures XEid0(ExtId(sidh, sidl, eid8, eid0)) == eid0
  {
  }

  lemma StandardBytes(sidh: byte, sidl: byte)
    ensures SSidh(StdId(sidh, sidl)) == sidh
    ensures SSidl(StdId(sidh, sidl)) == sidl & 0xE0
  {
  }

  // Masking an identifier masks each byte, and the bytes depend on the bits of the format only.
  lemma ExtendedMask(id: bv32, mask: bv32)
    ensures And(XSidh(id), XSidh(mask)) == XSidh(AndId(id, mask))
    ensures And(XSidl(id), XSidl(mask)) == XSidl(AndId(id, mask))
    ensures And(XEid8(id), XEid8(mask)) == XEid8(AndId(id, mask))
    ensures And(XEid0(id), XEid0(mask)) == XEid0(AndId(id, mask))
  {
  }

  lemma ExtendedBits(id: bv32)
    ensures XSidh(id) == XSidh(AndId(id, ID29)) && XSidl(id) == XSidl(AndId(id, ID29))
    ensures XEid8(id) == XEid8(AndId(id, ID29)) && XEid0(id) == XEid0(AndId(id, ID29))
  {
  }

  lemma StandardMask(id: bv32, mask: bv32)
    ensures And(SSidh(id), SSidh(mask)) == SSidh(AndId(id, mask))
    ensures And(SSidl(id), SSidl(mask)) == SSidl(AndId(id, mask))
  {
  }

  lemma StandardBits(id: bv32)
    ensures SSidh(id) == SSidh(AndId(id, ID11)) && SSidl(id) == SSidl(AndId(id, ID11))
  {
  }

  /** Equal bytes under a mask are equal identifiers under that mask. */
  lemma ExtendedMasked(id: bv32, mask: bv32, filter: bv32)
    ensures
      && And(XSidh(id), XSidh(mask)) == And(XSidh(filter), XSidh(mask))
      && And(XSidl(id), XSidl(mask)) == And(XSidl(filter), XSidl(mask))
      && And(XEid8(id), XEid8(mask)) == And(XEid8(filter), XEid8(mask))
      && And(XEid0(id), XEid0(mask)) == And(XEid0(filter), XEid0(mask))
      <==> AndId(AndId(id, mask), ID29) == AndId(AndId(filter, mask), ID29)
  {
    hide And, AndId, XSidh, XSidl, XEid8, XEid0, ExtId;
    ExtendedMask(id, mask);
    ExtendedMask(filter, mask);
    ExtendedId(AndId(id, mask));
    ExtendedId(AndId(filter, mask));
    ExtendedBits(AndId(id, mask));
    ExtendedBits(AndId(filter, mask));
  }

  lemma StandardMasked(id: bv32, mask: bv32, filter: bv32)
    ensures
      && And(SSidh(id), SSidh(mask)) == And(SSidh(filter), SSidh(mask))
      && And(SSidl(id), SSidl(mask)) == And(SSidl(filter), SSidl(mask))
      <==> AndId(AndId(id, mask), ID11) == AndId(AndId(filter, mask), ID11)
  {
    hide And, AndId, SSidh, SSidl, StdId;
    StandardMask(id, mask);
    StandardMask(filter, mask);
    StandardId(AndId(id, mask));
    StandardId(AndId(filter, mask));
    StandardBits(AndId(id, mask));
    StandardBits(AndId(filter, mask));
  }
}
