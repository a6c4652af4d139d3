/** RowIDs: a page number and a slot number in one C int (`storage-engine/heap.h`). */
module RowIds {

  /** v in 32-bit two's complement. */
  function Wrap(v: int): int {
    (v + 0x8000_0000) % 0x1_0000_0000 - 0x8000_0000
  }

  /** encode_rowid: (page << 16) | slot */
  function EncodeRowId(page: int, slot: nat): int
    requires slot < 65536
  {
    Wrap(page * 65536) + slot
  }

  /** decode_rowid_page: rowid >> 16, an arithmetic shift */
  function PageOf(rowId: int): int {
    rowId / 65536
  }

  /** decode_rowid_slot: rowid & 0xFFFF */
  function SlotOf(rowId: int): (slot: nat)
    ensures slot < 65536
  {
    rowId % 65536
  }

  /** The decoders undo the encoder exactly for page numbers of 16 signed bits; the slot always comes
      back. */
  lemma RowIdRoundTrip(page: int, slot: nat)
    requires slot < 65536
    ensures SlotOf(EncodeRowId(page, slot)) == slot
    ensures PageOf(EncodeRowId(page, slot)) == page <==> -32768 <= page < 32768
    ensures 0 <= page < 32768 ==> EncodeRowId(page, slot) == page * 65536 + slot
    ensures 1 <= page < 32768 ==> EncodeRowId(page, slot) > 0
  {
    var w := Wrap(page * 65536);
    var q := (page * 65536 + 0x8000_0000) / 0x1_0000_0000;
    assert w == (page - q * 65536) * 65536;
  }

  lemma RowIdInjective(p: int, s: nat, q: int, r: nat)
    requires 0 <= p < 32768 && 0 <= q < 32768 && s < 65536 && r < 65536
    requires EncodeRowId(p, s) == EncodeRowId(q, r)
    ensures p == q && s == r
  {
    RowIdRoundTrip(p, s);
    RowIdRoundTrip(q, r);
  }

  /** A RowID is a C int, whatever the page number. */
  lemma RowIdIsInt(page: int, slot: nat)
    requires slot < 65536
    ensures -0x8000_0000 <= EncodeRowId(page, slot) <= 0x7fff_ffff
  {
    var q := (page * 65536 + 0x8000_0000) / 0x1_0000_0000;
    assert Wrap(page * 65536) == (page - q * 65536) * 65536;
  }
}
