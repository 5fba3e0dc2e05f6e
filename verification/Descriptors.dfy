/**
  The 32-byte DMA descriptor and the helpers that edit it. A descriptor's first word packs a
  16-bit magic, a reserved nibble, a 4-bit prefetch count and an 8-bit control field. The model
  keeps those four fields; the lemmas named ...Word show that the mask-and-or expressions on the
  packed 32-bit word are these field edits, for every word.
 */
module Descriptors {
  import opened Words

  const MAGIC: bv16 := 0xAD4B

  const DESC_STOPPED: bv8 := 1
  const DESC_COMPLETED: bv8 := 2
  const DESC_EOP: bv8 := 0x10

  type nibble = x: int | 0 <= x < 16

  datatype Control = Control(magic: bv16, reserved: bv4, extraAdj: nibble, flags: bv8)

  /** The packed 32-bit word. */
  function Word(c: Control): bv32 {
    Pack(c.magic, c.reserved, Bits(c.extraAdj), c.flags)
  }

  function Bits(n: nibble): bv4 { n as bv4 }

  function Pack(magic: bv16, reserved: bv4, adj: bv4, flags: bv8): bv32 {
    ((magic as bv32) << 16) | ((reserved as bv32) << 12) | ((adj as bv32) << 8) | (flags as bv32)
  }

  function Unpack(w: bv32): Control {
    Control((w >> 16) as bv16, ((w >> 12) & 0xF) as bv4, ((w >> 8) & 0xF) as nibble, (w & 0xFF) as bv8)
  }

  /** Fields and packed words are in bijection, so nothing said of the fields misses a word. */
  lemma PackUnpack(w: bv32)
    ensures Word(Unpack(w)) == w
  {
  }

  lemma UnpackPack(c: Control)
    ensures Unpack(Word(c)) == c
  {
    var Control(magic, reserved, adj, flags) := c;
    assert (adj as bv4) as int == adj;
    PackFields(magic, reserved, adj as bv4, flags);
  }

  lemma PackFields(magic: bv16, reserved: bv4, adj: bv4, flags: bv8)
    ensures var w := Pack(magic, reserved, adj, flags);
            && (w >> 16) as bv16 == magic && ((w >> 12) & 0xF) as bv4 == reserved
            && ((w >> 8) & 0xF) as bv4 == adj && (w & 0xFF) as bv8 == flags
  {
  }

  // The driver's expressions on the packed word, and what they do to its fields.

  /** xdma_desc_link with extra 0, xdma_desc_adjacent. */
  function KeepBits(w: bv32, extra: bv4): bv32 { (w & 0x0000F0FF) | 0xAD4B0000 | ((extra as bv32) << 8) }

  /** xdma_desc_control. */
  function SetBits(w: bv32, field: bv8): bv32 { (w & !0xFF) | (field as bv32) }

  /** xdma_desc_control_clear. */
  function ClearBits(w: bv32, mask: bv8): bv32 { w & !(mask as bv32) }

  /** xdma_desc_control_set. */
  function OrBits(w: bv32, mask: bv8): bv32 { w | (mask as bv32) }

  lemma KeepWord(magic: bv16, reserved: bv4, adj: bv4, flags: bv8, extra: bv4)
    ensures KeepBits(Pack(magic, reserved, adj, flags), extra) == Pack(0xAD4B, reserved, extra, flags)
  {
  }

  lemma SetWord(magic: bv16, reserved: bv4, adj: bv4, flags: bv8, field: bv8)
    ensures SetBits(Pack(magic, reserved, adj, flags), field) == Pack(magic, reserved, adj, field)
  {
  }

  lemma ClearWord(magic: bv16, reserved: bv4, adj: bv4, flags: bv8, mask: bv8)
    ensures ClearBits(Pack(magic, reserved, adj, flags), mask) == Pack(magic, reserved, adj, flags & !mask)
  {
  }

  lemma OrWord(magic: bv16, reserved: bv4, adj: bv4, flags: bv8, mask: bv8)
    ensures OrBits(Pack(magic, reserved, adj, flags), mask) == Pack(magic, reserved, adj, flags | mask)
  {
  }

  /** In memory an address is a pair of 32-bit words, see Words.SplitIsLossless. */
  datatype Desc = Desc(control: Control, bytes: nat, src: nat, dst: nat, next: nat) {
    predicate Stops() { control.flags & DESC_STOPPED != 0 }

    /** Nothing was cut off when the values were stored. */
    predicate Fits() {
      && bytes < 0x1_0000_0000 && src < 0x1_0000_0000_0000_0000 && dst < 0x1_0000_0000_0000_0000
      && next < 0x1_0000_0000_0000_0000
    }
  }

  // ----- xdma_desc_link -----

  function Link(d: Desc, second: Option<nat>): Desc {
    d.(control := d.control.(magic := MAGIC, extraAdj := 0), next := if second.Some? then second.value else 0)
  }

  // ----- xdma_desc_adjacent -----

  /** How many further descriptors fit in the 4 KB page of address next, after the one there;
      a u32, so an unaligned tail of the page wraps. */
  function MaxAdj4K(nextLo: nat): nat {
    ((0x1000 - nextLo % 0x1000) / 32 - 1) % 0x1_0000_0000
  }

  /** The prefetch count is the largest one that stays within the list, within the hardware limit of sixteen
      descriptors and within the 4 KB page of the next descriptor; the page does not matter if not even that one fits
      in it. */
  function ExtraFor(nextLo: nat, nextAdjacent: int): (extra: nibble)
    ensures nextAdjacent <= 0 ==> extra == 0
    ensures nextAdjacent > 0 && nextLo % 4096 + 32 > 4096 ==>
              extra == if nextAdjacent > 16 then 15 else nextAdjacent - 1
    ensures nextAdjacent > 0 && nextLo % 4096 + 32 <= 4096 ==>
              && extra <= nextAdjacent - 1
              && nextLo % 4096 + 32 * (extra + 1) <= 4096
              && (extra == 15 || extra == nextAdjacent - 1 || nextLo % 4096 + 32 * (extra + 2) > 4096)
  {
    if nextAdjacent <= 0 then 0
    else
      var capped := if nextAdjacent - 1 > 15 then 15 else nextAdjacent - 1;
      if capped > MaxAdj4K(nextLo) then MaxAdj4K(nextLo) else capped
  }

  function Adjacent(d: Desc, nextAdjacent: int): Desc {
    d.(control := d.control.(magic := MAGIC, extraAdj := ExtraFor(AddrLow(d.next), nextAdjacent)))
  }

  // ----- xdma_desc_control, _clear, _set -----

  function SetControl(d: Desc, field: bv8): Desc { d.(control := d.control.(flags := field)) }
  function ClearControl(d: Desc, mask: bv8): Desc { d.(control := d.control.(flags := d.control.flags & !mask)) }
  function OrControl(d: Desc, mask: bv8): Desc { d.(control := d.control.(flags := d.control.flags | mask)) }

  // ----- xdma_desc_set, xdma_desc_set_source -----

  /** Host and end-point addresses go to the sides the direction asks for. */
  function Fill(d: Desc, rcBus: nat, ep: nat, len: nat, toDev: bool): Desc {
    if toDev then d.(bytes := len, src := rcBus, dst := ep) else d.(bytes := len, src := ep, dst := rcBus)
  }

  function SetSource(d: Desc, source: nat): Desc {
    d.(src := source)
  }

  // ----- the edits are the driver's expressions on the packed word -----

  lemma LinkWord(d: Desc, second: Option<nat>)
    ensures Word(Link(d, second).control) == KeepBits(Word(d.control), 0)
  {
    hide Pack, KeepBits;
    KeepWord(d.control.magic, d.control.reserved, Bits(d.control.extraAdj), d.control.flags, 0);
  }

  lemma AdjacentWord(d: Desc, nextAdjacent: int)
    ensures Word(Adjacent(d, nextAdjacent).control)
         == KeepBits(Word(d.control), Bits(ExtraFor(AddrLow(d.next), nextAdjacent)))
  {
    hide ExtraFor, Pack, Bits, KeepBits;
    var extra := Bits(ExtraFor(AddrLow(d.next), nextAdjacent));
    KeepWord(d.control.magic, d.control.reserved, Bits(d.control.extraAdj), d.control.flags, extra);
  }

  lemma SetControlWord(d: Desc, field: bv8)
    ensures Word(SetControl(d, field).control) == SetBits(Word(d.control), field)
  {
    hide Pack, Bits, SetBits;
    SetWord(d.control.magic, d.control.reserved, Bits(d.control.extraAdj), d.control.flags, field);
  }

  lemma ClearControlWord(d: Desc, mask: bv8)
    ensures Word(ClearControl(d, mask).control) == ClearBits(Word(d.control), mask)
  {
    hide Pack, Bits, ClearBits;
    ClearWord(d.control.magic, d.control.reserved, Bits(d.control.extraAdj), d.control.flags, mask);
  }

  lemma OrControlWord(d: Desc, mask: bv8)
    ensures Word(OrControl(d, mask).control) == OrBits(Word(d.control), mask)
  {
    hide Pack, Bits, OrBits;
    OrWord(d.control.magic, d.control.reserved, Bits(d.control.extraAdj), d.control.flags, mask);
  }
}
