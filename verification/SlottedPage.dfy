/** The slotted page of `storage-engine/page.c`, on the 4096 bytes themselves: a header of three
    ints, a slot directory that grows upwards and rows, each behind its size, that grow downwards. */
module SlottedPages {
  import opened PoolModel
  import opened Bytes
  import opened PageModel

  const SLOT_NORMAL := 0
  const SLOT_DELETED := 1
  const SLOT_REDIRECT := 2

  // ---------------------------------------------------------------- memory

  /** The n bytes of s from position at. */
  function Chunk(s: seq<byte>, at: int, n: int): (c: seq<byte>)
    requires 0 <= at && 0 <= n && at + n <= |s|
    ensures |c| == n
  {
    s[at..at + n]
  }

  function WordAt(s: seq<byte>, at: int): (v: int)
    requires 0 <= at && at + 4 <= |s|
    ensures IsInt(v)
  {
    BytesToInt(Chunk(s, at, 4))
  }

  /** t is s with bs written over it from position at. */
  ghost predicate Overwritten(s: seq<byte>, t: seq<byte>, at: int, bs: seq<byte>)
    requires 0 <= at && at + |bs| <= |s|
  {
    && |t| == |s|
    && Chunk(t, at, |bs|) == bs
    && forall x, n {:trigger Chunk(t, x, n)} :: 0 <= x && 0 <= n && x + n <= |s| && (x + n <= at || at + |bs| <= x) ==>
         Chunk(t, x, n) == Chunk(s, x, n)
  }

  /** s with bs written over it from position at. */
  function Patched(s: seq<byte>, at: int, bs: seq<byte>): (t: seq<byte>)
    requires 0 <= at && at + |bs| <= |s|
    ensures |t| == |s|
  {
    s[..at] + bs + s[at + |bs|..]
  }

  lemma PatchedOver(s: seq<byte>, at: int, bs: seq<byte>)
    requires 0 <= at && at + |bs| <= |s|
    ensures Overwritten(s, Patched(s, at, bs), at, bs)
  {
  }

  /** memcpy into a page. */
  method CopyInto(a: array<byte>, at: int, bs: seq<byte>)
    requires 0 <= at && at + |bs| <= a.Length
    modifies a
    ensures a[..] == Patched(old(a[..]), at, bs)
    ensures Overwritten(old(a[..]), a[..], at, bs)
  {
    forall i | 0 <= i < |bs| {
      a[at + i] := bs[i];
    }
    PatchedOver(old(a[..]), at, bs);
    assert a[..] == Patched(old(a[..]), at, bs);
  }

  lemma PatchedInt(s: seq<byte>, at: int, v: int)
    requires IsInt(v) && 0 <= at && at + 4 <= |s|
    ensures var t := Patched(s, at, IntBytes(v)); Overwritten(s, t, at, IntBytes(v)) && WordAt(t, at) == v
  {
    PatchedOver(s, at, IntBytes(v));
    IntRoundTrip(v);
  }

  method StoreInt(a: array<byte>, at: int, v: int)
    requires IsInt(v) && 0 <= at && at + 4 <= a.Length
    modifies a
    ensures a[..] == Patched(old(a[..]), at, IntBytes(v))
    ensures Overwritten(old(a[..]), a[..], at, IntBytes(v)) && WordAt(a[..], at) == v
  {
    PatchedInt(a[..], at, v);
    CopyInto(a, at, IntBytes(v));
  }

  method LoadInt(a: array<byte>, at: int) returns (v: int)
    requires 0 <= at && at + 4 <= a.Length
    ensures v == WordAt(a[..], at)
  {
    v := BytesToInt(a[at..at + 4]);
  }

  // ---------------------------------------------------------------- the layout

  function NumSlots(s: PageData): int { WordAt(s, 0) }
  function FreeStart(s: PageData): int { WordAt(s, 4) }
  function FreeEnd(s: PageData): int { WordAt(s, 8) }

  function EntryAt(i: int): int { HEADER_SIZE + SLOT_SIZE * i }

  predicate InDirectory(i: int) {
    0 <= i && EntryAt(i + 1) <= PAGE_SIZE
  }

  function Offset(s: PageData, i: int): int
    requires InDirectory(i)
  {
    WordAt(s, EntryAt(i))
  }

  function State(s: PageData, i: int): byte
    requires InDirectory(i)
  {
    Chunk(s, EntryAt(i) + 4, 1)[0]
  }

  predicate HeaderOk(s: PageData) {
    && 0 <= NumSlots(s)
    && FreeStart(s) == EntryAt(NumSlots(s)) <= FreeEnd(s)
    && FreeEnd(s) + 4 * NumSlots(s) <= PAGE_SIZE
  }

  /** The row of slot i, with the size in front, lies in [FreeEnd, 4096). */
  predicate RowInside(s: PageData, i: int)
    requires InDirectory(i)
  {
    var at := Offset(s, i);
    && 0 <= FreeEnd(s) <= at <= PAGE_SIZE - 4
    && 0 <= WordAt(s, at) <= PAGE_SIZE - 4 - at
  }

  predicate SlotOk(s: PageData, i: int)
    requires InDirectory(i)
  {
    && State(s, i) <= SLOT_REDIRECT
    && (State(s, i) == SLOT_NORMAL ==> RowInside(s, i))
  }

  /** The byte just after the row of slot i. */
  function RowEnd(s: PageData, i: int): int
    requires InDirectory(i) && RowInside(s, i)
  {
    Offset(s, i) + 4 + WordAt(s, Offset(s, i))
  }

  predicate Apart(s: PageData, i: int, j: int)
    requires InDirectory(i) && InDirectory(j) && SlotOk(s, i) && SlotOk(s, j)
  {
    State(s, i) == State(s, j) == SLOT_NORMAL ==> RowEnd(s, i) <= Offset(s, j) || RowEnd(s, j) <= Offset(s, i)
  }

  /** The invariant of every page that init_page, insert_row and delete_row can produce: live rows
      are pairwise disjoint and clear of the directory. */
  ghost predicate WellFormed(s: PageData) {
    && HeaderOk(s)
    && (forall i :: 0 <= i < NumSlots(s) ==> SlotOk(s, i))
    && (forall i, j :: 0 <= i < j < NumSlots(s) ==> Apart(s, i, j))
  }

  /** What slot i reads back. */
  function SlotView(s: PageData, i: int): Slot
    requires InDirectory(i) && SlotOk(s, i)
  {
    if State(s, i) == SLOT_DELETED then Deleted
    else if State(s, i) == SLOT_REDIRECT then Redirect(Offset(s, i))
    else Normal(Chunk(s, Offset(s, i) + 4, WordAt(s, Offset(s, i))))
  }

  ghost function View(s: PageData): (p: Page)
    requires WellFormed(s)
    ensures Roomy(p) && |p.slots| == NumSlots(s) && p.freeEnd == FreeEnd(s)
    ensures forall i :: 0 <= i < NumSlots(s) ==> p.slots[i] == SlotView(s, i)
  {
    Page(seq(NumSlots(s), i requires 0 <= i < NumSlots(s) => SlotView(s, i)), FreeEnd(s))
  }

  /** Where everything lies: the number of slots at byte 0, the end of the directory at 4, the start of the
      rows at 8; the entry of slot i at 12 + 8 * i, an offset and a state; at the offset of a live row its
      size and then its bytes. */
  lemma Layout(s: PageData)
    requires WellFormed(s)
    ensures var p := View(s);
            && WordAt(s, 0) == |p.slots| && WordAt(s, 4) == 12 + 8 * |p.slots| && WordAt(s, 8) == p.freeEnd
            && forall i {:trigger p.slots[i]} :: 0 <= i < |p.slots| ==>
                 && 20 + 8 * i <= PAGE_SIZE
                 && var offset := WordAt(s, 12 + 8 * i);
                    match p.slots[i]
                    case Deleted => s[16 + 8 * i] == 1
                    case Redirect(target) => s[16 + 8 * i] == 2 && offset == target
                    case Normal(row) =>
                      && s[16 + 8 * i] == 0
                      && 0 <= offset && offset + 4 + |row| <= PAGE_SIZE
                      && WordAt(s, offset) == |row| && s[offset + 4..offset + 4 + |row|] == row
  {
    hide BytesToInt;
    forall i | 0 <= i < NumSlots(s)
      ensures InDirectory(i) && SlotOk(s, i) && State(s, i) == s[16 + 8 * i] && View(s).slots[i] == SlotView(s, i)
    {
      assert SlotOk(s, i);
    }
  }

  /** No byte of the page belongs to two live rows, and none to a live row and the directory. */
  lemma ByteOwnedOnce(s: PageData, i: int, j: int, b: int)
    requires WellFormed(s) && 0 <= i < NumSlots(s) && 0 <= j < NumSlots(s)
    requires InDirectory(i) && SlotOk(s, i) && State(s, i) == SLOT_NORMAL && Offset(s, i) <= b < RowEnd(s, i)
    ensures EntryAt(NumSlots(s)) <= b < PAGE_SIZE
    ensures InDirectory(j) && SlotOk(s, j)
    ensures State(s, j) == SLOT_NORMAL && Offset(s, j) <= b < RowEnd(s, j) ==> i == j
  {
    if i < j {
      assert Apart(s, i, j);
    } else if j < i {
      assert Apart(s, j, i);
    }
  }

  // ---------------------------------------------------------------- operations

  lemma NoSlots(s: PageData)
    requires NumSlots(s) == 0 && FreeStart(s) == HEADER_SIZE && FreeEnd(s) == PAGE_SIZE
    ensures WellFormed(s) && View(s) == EMPTY_PAGE
  {
  }

  /** The header that init_page writes. */
  function BlankHeader(): PageData {
    Patched(Patched(Patched(ZERO_PAGE, 0, IntBytes(0)), 4, IntBytes(HEADER_SIZE)), 8, IntBytes(PAGE_SIZE))
  }

  /** The first n slot entries are marked deleted. */
  function Unslotted(s: PageData, n: nat): PageData
    requires EntryAt(n) <= PAGE_SIZE
  {
    if n == 0 then s
    else Patched(Patched(Unslotted(s, n - 1), EntryAt(n - 1) + 4, [SLOT_DELETED]), EntryAt(n - 1), IntBytes(0))
  }

  /** The bytes of a page that init_page has initialised. */
  function BlankBytes(): PageData {
    Unslotted(BlankHeader(), (PAGE_SIZE - HEADER_SIZE) / SLOT_SIZE)
  }

  lemma {:induction false} UnslottedHeader(s: PageData, n: nat)
    requires EntryAt(n) <= PAGE_SIZE
    ensures var t := Unslotted(s, n);
            NumSlots(t) == NumSlots(s) && FreeStart(t) == FreeStart(s) && FreeEnd(t) == FreeEnd(s)
  {
    hide Chunk, BytesToInt, IntBytes, Patched;
    if n > 0 {
      UnslottedHeader(s, n - 1);
      PatchedOver(Unslotted(s, n - 1), EntryAt(n - 1) + 4, [SLOT_DELETED]);
      PatchedOver(Patched(Unslotted(s, n - 1), EntryAt(n - 1) + 4, [SLOT_DELETED]), EntryAt(n - 1), IntBytes(0));
    }
  }

  lemma BlankBytesMeaning()
    ensures WellFormed(BlankBytes()) && View(BlankBytes()) == EMPTY_PAGE
  {
    hide Chunk, BytesToInt, IntBytes, Patched, WellFormed, View, Unslotted;
    var s1 := Patched(ZERO_PAGE, 0, IntBytes(0));
    var s2 := Patched(s1, 4, IntBytes(HEADER_SIZE));
    PatchedInt(ZERO_PAGE, 0, 0);
    PatchedInt(s1, 4, HEADER_SIZE);
    PatchedInt(s2, 8, PAGE_SIZE);
    UnslottedHeader(BlankHeader(), (PAGE_SIZE - HEADER_SIZE) / SLOT_SIZE);
    NoSlots(BlankBytes());
  }

  /** Every slot entry that a page has room for is marked deleted, with offset 0. */
  lemma {:induction false} UnslottedEntries(s: PageData, n: nat, i: nat)
    requires i < n && EntryAt(n) <= PAGE_SIZE
    ensures var t := Unslotted(s, n);
            InDirectory(i) && Offset(t, i) == 0 && State(t, i) == SLOT_DELETED
  {
    hide Chunk, BytesToInt, IntBytes, Patched;
    var t := Unslotted(s, n - 1);
    var u := Patched(t, EntryAt(n - 1) + 4, [SLOT_DELETED]);
    PatchedOver(t, EntryAt(n - 1) + 4, [SLOT_DELETED]);
    PatchedInt(u, EntryAt(n - 1), 0);
    if i < n - 1 {
      UnslottedEntries(s, n - 1, i);
    }
  }

  /** The bytes of a new page. */
  lemma BlankLayout(i: nat)
    requires i < 510
    ensures WordAt(BlankBytes(), 0) == 0 && WordAt(BlankBytes(), 4) == 12 && WordAt(BlankBytes(), 8) == 4096
    ensures WordAt(BlankBytes(), 12 + 8 * i) == 0 && BlankBytes()[16 + 8 * i] == 1
  {
    hide WordAt, WellFormed, View, Unslotted;
    BlankBytesMeaning();
    NoSlotsWords(BlankBytes());
    UnslottedEntries(BlankHeader(), 510, i);
  }

  lemma NoSlotsWords(s: PageData)
    requires WellFormed(s) && View(s) == EMPTY_PAGE
    ensures WordAt(s, 0) == 0 && WordAt(s, 4) == 12 && WordAt(s, 8) == 4096
  {
  }

  /** init_page */
  method InitPage(a: array<byte>)
    requires a.Length == PAGE_SIZE
    modifies a
    ensures a[..] == BlankBytes() && WellFormed(a[..]) && View(a[..]) == EMPTY_PAGE
  {
    hide WordAt, IntBytes, Patched, Overwritten, WellFormed, View;
    BlankBytesMeaning();
    ClearPage(a);
    StoreInt(a, 0, 0);
    StoreInt(a, 4, HEADER_SIZE);
    StoreInt(a, 8, PAGE_SIZE);
    for i := 0 to (PAGE_SIZE - HEADER_SIZE) / SLOT_SIZE
      invariant a[..] == Unslotted(BlankHeader(), i)
    {
      CopyInto(a, EntryAt(i) + 4, [SLOT_DELETED]);
      StoreInt(a, EntryAt(i), 0);
    }
  }

  /** memset of the whole page. */
  method ClearPage(a: array<byte>)
    requires a.Length == PAGE_SIZE
    modifies a
    ensures a[..] == ZERO_PAGE
  {
    CopyInto(a, 0, Zeros(PAGE_SIZE));
    assert a[..] == ZERO_PAGE;
  }

  /** The slot search of insert_row. */
  method FindSlot(a: array<byte>) returns (slot: int)
    requires a.Length == PAGE_SIZE && WellFormed(a[..])
    ensures slot == ChosenSlot(View(a[..]).slots)
  {
    var n := LoadInt(a, 0);
    slot := 0;
    while slot < n
      invariant 0 <= slot <= n
      invariant forall j :: 0 <= j < slot ==> !View(a[..]).slots[j].Deleted?
    {
      assert State(a[..], slot) == a[EntryAt(slot) + 4];
      if a[EntryAt(slot) + 4] == SLOT_DELETED {
        assert View(a[..]).slots[slot].Deleted?;
        return;
      }
      slot := slot + 1;
    }
  }

  /** What a page t has in common with the page s that a row was inserted into. */
  ghost predicate RowAdded(s: PageData, t: PageData, slot: int, row: seq<byte>)
    requires WellFormed(s) && Fits(View(s), |row|) && InDirectory(slot)
  {
    var n, e := NumSlots(s), FreeEnd(s) - 4 - |row|;
    && NumSlots(t) == (if slot == n then n + 1 else n)
    && FreeStart(t) == EntryAt(NumSlots(t))
    && FreeEnd(t) == e
    && Offset(t, slot) == e && State(t, slot) == SLOT_NORMAL
    && WordAt(t, e) == |row| && Chunk(t, e + 4, |row|) == row
    && KeptChunks(s, t, EntryAt(slot), EntryAt(n), FreeEnd(s))
  }

  /** The directory up to byte d, but for the entry at byte e, and all rows from byte r on agree. */
  ghost predicate KeptChunks(s: seq<byte>, t: seq<byte>, e: int, d: int, r: int) {
    && |s| == |t|
    && forall x, m {:trigger Chunk(t, x, m)} ::
         0 <= m && x + m <= |s| &&
         ((HEADER_SIZE <= x && x + m <= d && (x + m <= e || e + SLOT_SIZE <= x)) || (HEADER_SIZE <= x && r <= x)) ==>
           Chunk(t, x, m) == Chunk(s, x, m)
  }

  lemma OldSlotKept(s: PageData, t: PageData, slot: int, row: seq<byte>, i: int)
    requires WellFormed(s) && Fits(View(s), |row|) && InDirectory(slot) && RowAdded(s, t, slot, row)
    requires 0 <= i < NumSlots(s) && i != slot
    ensures InDirectory(i) && SlotOk(s, i) && SlotOk(t, i) && SlotView(t, i) == SlotView(s, i)
    ensures State(s, i) == State(t, i) && Offset(t, i) == Offset(s, i)
    ensures State(s, i) == SLOT_NORMAL ==>
              FreeEnd(s) <= Offset(s, i) && WordAt(t, Offset(t, i)) == WordAt(s, Offset(s, i))
  {
    hide Chunk, BytesToInt;
    assert SlotOk(s, i);
    assert Chunk(t, EntryAt(i), 4) == Chunk(s, EntryAt(i), 4);
    assert Chunk(t, EntryAt(i) + 4, 1) == Chunk(s, EntryAt(i) + 4, 1);
    if State(s, i) == SLOT_NORMAL {
      var at := Offset(s, i);
      assert Chunk(t, at, 4) == Chunk(s, at, 4);
      assert Chunk(t, at + 4, WordAt(s, at)) == Chunk(s, at + 4, WordAt(s, at));
    }
  }

  lemma RowAddedMeaning(s: PageData, t: PageData, slot: int, row: seq<byte>)
    requires WellFormed(s) && Fits(View(s), |row|)
    requires slot == ChosenSlot(View(s).slots) && InDirectory(slot) && RowAdded(s, t, slot, row)
    ensures WellFormed(t) && View(t) == Insert(View(s), row).0
  {
    hide Chunk, WordAt, ChosenSlot;
    forall i | 0 <= i < NumSlots(t)
      ensures SlotOk(t, i)
      ensures SlotView(t, i) == if i == slot then Normal(row) else SlotView(s, i)
    {
      if i != slot {
        OldSlotKept(s, t, slot, row, i);
      }
    }
    forall i, j | 0 <= i < j < NumSlots(t)
      ensures Apart(t, i, j)
    {
      if i != slot {
        OldSlotKept(s, t, slot, row, i);
      }
      if j != slot {
        OldSlotKept(s, t, slot, row, j);
      }
      if i != slot && j != slot {
        assert Apart(s, i, j);
      }
    }
    assert View(t).slots == Insert(View(s), row).0.slots;
  }

  /** The bytes of s and t agree wherever neither [lo, hi) nor [lo', hi') is touched. */
  ghost predicate SameOutside(s: seq<byte>, t: seq<byte>, lo: int, hi: int, lo': int, hi': int) {
    && |s| == |t|
    && forall x, n {:trigger Chunk(t, x, n)} ::
         0 <= x && 0 <= n && x + n <= |s| && (x + n <= lo || hi <= x) && (x + n <= lo' || hi' <= x) ==>
           Chunk(t, x, n) == Chunk(s, x, n)
  }

  /** The new end of the free space, and the row with its size there. */
  function RowBytes(s: PageData, freeEnd: int, row: seq<byte>): PageData
    requires 12 <= freeEnd && freeEnd + 4 + |row| <= PAGE_SIZE
  {
    Patched(Patched(Patched(s, 8, IntBytes(freeEnd)), freeEnd, IntBytes(|row|)), freeEnd + 4, row)
  }

  lemma RowBytesMeaning(s: PageData, freeEnd: int, row: seq<byte>)
    requires 12 <= freeEnd && freeEnd + 4 + |row| <= PAGE_SIZE
    ensures var t := RowBytes(s, freeEnd, row);
            && FreeEnd(t) == freeEnd
            && WordAt(t, freeEnd) == |row| && Chunk(t, freeEnd + 4, |row|) == row
            && SameOutside(s, t, 8, 12, freeEnd, freeEnd + 4 + |row|)
  {
    hide Chunk, BytesToInt, IntBytes, Patched;
    var s1 := Patched(s, 8, IntBytes(freeEnd));
    var s2 := Patched(s1, freeEnd, IntBytes(|row|));
    PatchedInt(s, 8, freeEnd);
    PatchedInt(s1, freeEnd, |row|);
    PatchedOver(s2, freeEnd + 4, row);
  }

  /** Both fields of a slot entry. */
  function EntryBytes(s: PageData, slot: int, state: byte, offset: int): PageData
    requires InDirectory(slot) && IsInt(offset)
  {
    Patched(Patched(s, EntryAt(slot), IntBytes(offset)), EntryAt(slot) + 4, [state])
  }

  lemma EntryBytesMeaning(s: PageData, slot: int, state: byte, offset: int)
    requires InDirectory(slot) && IsInt(offset)
    ensures var t := EntryBytes(s, slot, state, offset);
            && State(t, slot) == state && Offset(t, slot) == offset
            && SameOutside(s, t, EntryAt(slot), EntryAt(slot) + 5, 0, 0)
  {
    hide Chunk, BytesToInt, IntBytes, Patched;
    PatchedInt(s, EntryAt(slot), offset);
    PatchedOver(Patched(s, EntryAt(slot), IntBytes(offset)), EntryAt(slot) + 4, [state]);
  }

  /** A slot more. */
  function GrownBytes(s: PageData, numSlots: int, freeStart: int): PageData
    requires IsInt(numSlots) && IsInt(freeStart)
  {
    Patched(Patched(s, 0, IntBytes(numSlots)), 4, IntBytes(freeStart))
  }

  lemma GrownBytesMeaning(s: PageData, numSlots: int, freeStart: int)
    requires IsInt(numSlots) && IsInt(freeStart)
    ensures var t := GrownBytes(s, numSlots, freeStart);
            && NumSlots(t) == numSlots && FreeStart(t) == freeStart
            && SameOutside(s, t, 0, 8, 0, 0)
  {
    hide Chunk, BytesToInt, IntBytes, Patched;
    PatchedInt(s, 0, numSlots);
    PatchedInt(Patched(s, 0, IntBytes(numSlots)), 4, freeStart);
  }

  /** Row and slot entry, for a page with n slots whose rows start at byte r. */
  lemma RowAndEntry(s: PageData, slot: int, freeEnd: int, row: seq<byte>, n: int, r: int)
    requires 0 <= slot <= n && EntryAt(n + 1) <= freeEnd && freeEnd + 4 + |row| == r <= PAGE_SIZE
    ensures var t := EntryBytes(RowBytes(s, freeEnd, row), slot, SLOT_NORMAL, freeEnd);
            && NumSlots(t) == NumSlots(s) && FreeStart(t) == FreeStart(s) && FreeEnd(t) == freeEnd
            && Offset(t, slot) == freeEnd && State(t, slot) == SLOT_NORMAL
            && WordAt(t, freeEnd) == |row| && Chunk(t, freeEnd + 4, |row|) == row
            && KeptChunks(s, t, EntryAt(slot), EntryAt(n), r)
  {
    hide Chunk, BytesToInt, RowBytes, EntryBytes;
    RowBytesMeaning(s, freeEnd, row);
    EntryBytesMeaning(RowBytes(s, freeEnd, row), slot, SLOT_NORMAL, freeEnd);
  }

  lemma RoomForRow(s: PageData, row: seq<byte>)
    requires WellFormed(s) && Fits(View(s), |row|)
    ensures HeaderOk(s) && EntryAt(NumSlots(s) + 1) <= FreeEnd(s) - 4 - |row| && FreeEnd(s) <= PAGE_SIZE
  {
  }

  /** The bytes that insert_row leaves behind. */
  ghost function StoredBytes(s: PageData, slot: int, row: seq<byte>): PageData
    requires WellFormed(s) && Fits(View(s), |row|) && 0 <= slot <= NumSlots(s)
  {
    var n, freeEnd := NumSlots(s), FreeEnd(s) - 4 - |row|;
    var t := EntryBytes(RowBytes(s, freeEnd, row), slot, SLOT_NORMAL, freeEnd);
    if slot == n then GrownBytes(t, n + 1, FreeStart(s) + SLOT_SIZE) else t
  }

  lemma StoredBytesAdded(s: PageData, slot: int, row: seq<byte>)
    requires WellFormed(s) && Fits(View(s), |row|) && 0 <= slot <= NumSlots(s)
    ensures InDirectory(slot) && RowAdded(s, StoredBytes(s, slot, row), slot, row)
  {
    hide Chunk, BytesToInt, WellFormed, View, RowBytes, EntryBytes, GrownBytes;
    RoomForRow(s, row);
    var n, freeEnd := NumSlots(s), FreeEnd(s) - 4 - |row|;
    RowAndEntry(s, slot, freeEnd, row, n, FreeEnd(s));
    if slot == n {
      GrownBytesMeaning(EntryBytes(RowBytes(s, freeEnd, row), slot, SLOT_NORMAL, freeEnd), n + 1, FreeStart(s) + SLOT_SIZE);
    }
  }

  method PutRow(a: array<byte>, freeEnd: int, row: seq<byte>)
    requires a.Length == PAGE_SIZE && 12 <= freeEnd && freeEnd + 4 + |row| <= PAGE_SIZE
    modifies a
    ensures a[..] == RowBytes(old(a[..]), freeEnd, row)
  {
    hide Patched, Overwritten, IntBytes;
    StoreInt(a, 8, freeEnd);
    StoreInt(a, freeEnd, |row|);
    CopyInto(a, freeEnd + 4, row);
  }

  method PutEntry(a: array<byte>, slot: int, state: byte, offset: int)
    requires a.Length == PAGE_SIZE && InDirectory(slot) && IsInt(offset)
    modifies a
    ensures a[..] == EntryBytes(old(a[..]), slot, state, offset)
  {
    hide Patched, Overwritten, IntBytes;
    StoreInt(a, EntryAt(slot), offset);
    CopyInto(a, EntryAt(slot) + 4, [state]);
  }

  method GrowDirectory(a: array<byte>, numSlots: int, freeStart: int)
    requires a.Length == PAGE_SIZE && IsInt(numSlots) && IsInt(freeStart)
    modifies a
    ensures a[..] == GrownBytes(old(a[..]), numSlots, freeStart)
  {
    hide Patched, Overwritten, IntBytes;
    StoreInt(a, 0, numSlots);
    StoreInt(a, 4, freeStart);
  }

  /** The writes of insert_row. */
  method StoreRow(a: array<byte>, slot: int, row: seq<byte>)
    requires a.Length == PAGE_SIZE && WellFormed(a[..]) && Fits(View(a[..]), |row|)
    requires 0 <= slot <= NumSlots(a[..])
    modifies a
    ensures a[..] == StoredBytes(old(a[..]), slot, row)
    ensures InDirectory(slot) && RowAdded(old(a[..]), a[..], slot, row)
  {
    hide Chunk, WordAt, WellFormed, View, RowBytes, EntryBytes, GrownBytes, RowAdded;
    RoomForRow(a[..], row);
    StoredBytesAdded(a[..], slot, row);
    var numSlots := LoadInt(a, 0);
    var freeStart := LoadInt(a, 4);
    var oldEnd := LoadInt(a, 8);
    var freeEnd := oldEnd - 4 - |row|;
    PutRow(a, freeEnd, row);
    PutEntry(a, slot, SLOT_NORMAL, freeEnd);
    if slot == numSlots {
      GrowDirectory(a, numSlots + 1, freeStart + SLOT_SIZE);
    }
  }

  /** The result of insert_row on bytes: the page, and the slot or -1. */
  ghost function InsertedBytes(s: PageData, row: seq<byte>): (PageData, int)
    requires WellFormed(s)
  {
    var slot := ChosenSlot(View(s).slots);
    if Fits(View(s), |row|) then (StoredBytes(s, slot, row), slot) else (s, -1)
  }

  lemma InsertedBytesMeaning(s: PageData, row: seq<byte>)
    requires WellFormed(s)
    ensures var (t, slot) := InsertedBytes(s, row); WellFormed(t) && (View(t), slot) == Insert(View(s), row)
  {
    hide StoredBytes, RowAdded, WellFormed, View;
    if Fits(View(s), |row|) {
      var slot := ChosenSlot(View(s).slots);
      StoredBytesAdded(s, slot, row);
      RowAddedMeaning(s, StoredBytes(s, slot, row), slot, row);
    }
  }

  /** insert_row */
  method InsertRow(a: array<byte>, row: seq<byte>) returns (slot: int)
    requires a.Length == PAGE_SIZE && WellFormed(a[..])
    modifies a
    ensures (a[..], slot) == InsertedBytes(old(a[..]), row)
    ensures WellFormed(a[..])
    ensures (View(a[..]), slot) == Insert(old(View(a[..])), row)
    ensures slot < 0 ==> a[..] == old(a[..])
    ensures slot >= 0 <==> old(WordAt(a[..], 8) - WordAt(a[..], 4)) >= |row| + 12
  {
    InsertedBytesMeaning(a[..], row);
    hide Chunk, RowAdded, StoredBytes;
    var totalSize := 4 + |row|;
    var freeStart := LoadInt(a, 4);
    var freeEnd := LoadInt(a, 8);
    if freeEnd - freeStart < totalSize + SLOT_SIZE {
      return -1;
    }
    slot := FindSlot(a);
    StoreRow(a, slot, row);
  }

  /** Taking the row out of slot i leaves all other slots as they are. */
  lemma EntryChanged(s: PageData, t: PageData, i: int, state: byte, offset: int)
    requires WellFormed(s) && 0 <= i < NumSlots(s)
    requires SLOT_DELETED <= state <= SLOT_REDIRECT
    requires State(t, i) == state && Offset(t, i) == offset
    requires SameOutside(s, t, EntryAt(i), EntryAt(i) + 5, 0, 0)
    ensures WellFormed(t)
    ensures View(t) == View(s).(slots := View(s).slots[i := if state == SLOT_DELETED then Deleted else Redirect(offset)])
  {
    hide Chunk, BytesToInt;
    forall j | 0 <= j < NumSlots(s) && j != i
      ensures SlotOk(t, j) && State(t, j) == State(s, j) && Offset(t, j) == Offset(s, j) && SlotView(t, j) == SlotView(s, j)
      ensures State(s, j) == SLOT_NORMAL ==> WordAt(t, Offset(t, j)) == WordAt(s, Offset(s, j))
    {
      assert SlotOk(s, j);
      assert Chunk(t, EntryAt(j), 4) == Chunk(s, EntryAt(j), 4);
      assert Chunk(t, EntryAt(j) + 4, 1) == Chunk(s, EntryAt(j) + 4, 1);
      if State(s, j) == SLOT_NORMAL {
        var at := Offset(s, j);
        assert Chunk(t, at, 4) == Chunk(s, at, 4);
        assert Chunk(t, at + 4, WordAt(s, at)) == Chunk(s, at + 4, WordAt(s, at));
      }
    }
    forall j, k | 0 <= j < k < NumSlots(t)
      ensures SlotOk(t, j) && SlotOk(t, k) && Apart(t, j, k)
    {
      if j != i && k != i {
        assert Apart(s, j, k);
      }
    }
    assert View(t).slots == View(s).slots[i := if state == SLOT_DELETED then Deleted else Redirect(offset)];
  }

  /** delete_row */
  method DeleteRow(a: array<byte>, slot: int)
    requires a.Length == PAGE_SIZE && WellFormed(a[..])
    modifies a
    ensures WellFormed(a[..]) && View(a[..]) == Delete(old(View(a[..])), slot)
  {
    var numSlots := LoadInt(a, 0);
    if slot < 0 || slot >= numSlots {
      return;
    }
    CopyInto(a, EntryAt(slot) + 4, [SLOT_DELETED]);
    EntryChanged(old(a[..]), a[..], slot, SLOT_DELETED, Offset(a[..], slot));
  }

  /** read_row: where the row of a slot starts, if the slot is not deleted.  For a REDIRECT slot that is
      its target taken for a byte offset, wherever it points. */
  method ReadRow(a: array<byte>, slot: int) returns (found: bool, at: int)
    requires a.Length == PAGE_SIZE && WellFormed(a[..])
    ensures found <==> 0 <= slot < NumSlots(a[..]) && !View(a[..]).slots[slot].Deleted?
    ensures found ==> match View(a[..]).slots[slot]
                      case Normal(row) => 4 <= at && at + |row| <= PAGE_SIZE && Chunk(a[..], at, |row|) == row
                      case Redirect(target) => at == target + 4
                      case Deleted => false
  {
    var numSlots := LoadInt(a, 0);
    if slot < 0 || slot >= numSlots {
      return false, 0;
    }
    assert SlotOk(a[..], slot);
    assert View(a[..]).slots[slot] == SlotView(a[..], slot);
    assert State(a[..], slot) == a[EntryAt(slot) + 4];
    if a[EntryAt(slot) + 4] == SLOT_DELETED {
      return false, 0;
    }
    var offset := LoadInt(a, EntryAt(slot));
    return true, offset + 4;
  }

  /** get_row_size: for a REDIRECT slot, the int at its target, which must lie in the page to be read. */
  method GetRowSize(a: array<byte>, slot: int) returns (size: int)
    requires a.Length == PAGE_SIZE && WellFormed(a[..])
    requires 0 <= slot < NumSlots(a[..]) && View(a[..]).slots[slot].Redirect? ==>
               0 <= View(a[..]).slots[slot].target <= PAGE_SIZE - 4
    ensures size == if !(0 <= slot < NumSlots(a[..])) then -1
                    else match View(a[..]).slots[slot]
                         case Normal(row) => |row|
                         case Redirect(target) => WordAt(a[..], target)
                         case Deleted => -1
  {
    var numSlots := LoadInt(a, 0);
    if slot < 0 || slot >= numSlots {
      return -1;
    }
    assert SlotOk(a[..], slot);
    assert View(a[..]).slots[slot] == SlotView(a[..], slot);
    assert State(a[..], slot) == a[EntryAt(slot) + 4];
    if a[EntryAt(slot) + 4] == SLOT_DELETED {
      return -1;
    }
    var offset := LoadInt(a, EntryAt(slot));
    size := LoadInt(a, offset);
  }

  /** get_row_size and read_row together, as every caller uses them: the row of a slot, or no bytes. */
  method CopyRow(a: array<byte>, slot: int) returns (row: seq<byte>)
    requires a.Length == PAGE_SIZE && WellFormed(a[..])
    requires 0 <= slot < NumSlots(a[..]) ==> !View(a[..]).slots[slot].Redirect?
    ensures row == if 0 <= slot < NumSlots(a[..]) && View(a[..]).slots[slot].Normal?
                   then View(a[..]).slots[slot].row else []
  {
    hide WellFormed, View;
    var size := GetRowSize(a, slot);
    var found, at := ReadRow(a, slot);
    if !found || size <= 0 {
      return [];
    }
    return a[at..at + size];
  }

  /** The state byte of a slot. */
  method ReadState(a: array<byte>, slot: int) returns (state: byte)
    requires a.Length == PAGE_SIZE && WellFormed(a[..]) && 0 <= slot < NumSlots(a[..])
    ensures state == match View(a[..]).slots[slot]
                     case Normal(_) => SLOT_NORMAL
                     case Deleted => SLOT_DELETED
                     case Redirect(_) => SLOT_REDIRECT
  {
    assert SlotOk(a[..], slot);
    assert View(a[..]).slots[slot] == SlotView(a[..], slot);
    assert State(a[..], slot) == a[EntryAt(slot) + 4];
    state := a[EntryAt(slot) + 4];
  }

  /** Where a REDIRECT slot points. */
  method ReadTarget(a: array<byte>, slot: int) returns (target: int)
    requires a.Length == PAGE_SIZE && WellFormed(a[..]) && 0 <= slot < NumSlots(a[..])
    requires View(a[..]).slots[slot].Redirect?
    ensures target == View(a[..]).slots[slot].target
  {
    assert SlotOk(a[..], slot);
    assert View(a[..]).slots[slot] == SlotView(a[..], slot);
    target := LoadInt(a, EntryAt(slot));
  }

  /** Overwriting the bytes of one row changes that row only: rows are disjoint. */
  lemma RowOverwritten(s: PageData, t: PageData, i: int, row: seq<byte>)
    requires WellFormed(s) && 0 <= i < NumSlots(s) && State(s, i) == SLOT_NORMAL && SlotOk(s, i)
    requires |row| == WordAt(s, Offset(s, i)) && Overwritten(s, t, Offset(s, i) + 4, row)
    ensures WellFormed(t) && View(t) == View(s).(slots := View(s).slots[i := Normal(row)])
  {
    hide Chunk, BytesToInt;
    var lo := Offset(s, i) + 4;
    assert NumSlots(t) == NumSlots(s) && FreeStart(t) == FreeStart(s) && FreeEnd(t) == FreeEnd(s);
    forall j | 0 <= j < NumSlots(s)
      ensures SlotOk(t, j) && State(t, j) == State(s, j) && Offset(t, j) == Offset(s, j)
      ensures State(s, j) == SLOT_NORMAL ==> WordAt(t, Offset(t, j)) == WordAt(s, Offset(s, j))
      ensures SlotView(t, j) == if j == i then Normal(row) else SlotView(s, j)
    {
      assert SlotOk(s, j);
      assert Chunk(t, EntryAt(j), 4) == Chunk(s, EntryAt(j), 4);
      assert Chunk(t, EntryAt(j) + 4, 1) == Chunk(s, EntryAt(j) + 4, 1);
      if State(s, j) == SLOT_NORMAL {
        var at := Offset(s, j);
        if j < i {
          assert Apart(s, j, i);
        } else if i < j {
          assert Apart(s, i, j);
        }
        assert Chunk(t, at, 4) == Chunk(s, at, 4);
        if j != i {
          assert Chunk(t, at + 4, WordAt(s, at)) == Chunk(s, at + 4, WordAt(s, at));
        }
      }
    }
    forall j, k | 0 <= j < k < NumSlots(t)
      ensures SlotOk(t, j) && SlotOk(t, k) && Apart(t, j, k)
    {
      assert Apart(s, j, k);
    }
    assert View(t).slots == View(s).slots[i := Normal(row)];
  }

  /** handler_update: new bytes of the same size over the row of a slot. */
  method OverwriteRow(a: array<byte>, slot: int, row: seq<byte>)
    requires a.Length == PAGE_SIZE && WellFormed(a[..]) && 0 <= slot < NumSlots(a[..])
    requires View(a[..]).slots[slot].Normal? && |View(a[..]).slots[slot].row| == |row|
    modifies a
    ensures WellFormed(a[..])
    ensures View(a[..]) == old(View(a[..])).(slots := old(View(a[..])).slots[slot := Normal(row)])
  {
    assert SlotOk(a[..], slot) && View(a[..]).slots[slot] == SlotView(a[..], slot);
    hide Chunk;
    var offset := LoadInt(a, EntryAt(slot));
    CopyInto(a, offset + 4, row);
    RowOverwritten(old(a[..]), a[..], slot, row);
  }

  /** The bytes of a page whose slot has become a redirect. */
  lemma RedirectBytes(s: PageData, slot: int, target: int)
    requires WellFormed(s) && 0 <= slot < NumSlots(s) && IsInt(target)
    ensures InDirectory(slot)
    ensures var t := EntryBytes(s, slot, SLOT_REDIRECT, target);
            WellFormed(t) && View(t) == View(s).(slots := View(s).slots[slot := Redirect(target)])
  {
    EntryBytesMeaning(s, slot, SLOT_REDIRECT, target);
    EntryChanged(s, EntryBytes(s, slot, SLOT_REDIRECT, target), slot, SLOT_REDIRECT, target);
  }

  /** handler_update: the slot now points at another row. */
  method SetRedirect(a: array<byte>, slot: int, target: int)
    requires a.Length == PAGE_SIZE && WellFormed(a[..]) && 0 <= slot < NumSlots(a[..]) && IsInt(target)
    modifies a
    ensures InDirectory(slot) && a[..] == EntryBytes(old(a[..]), slot, SLOT_REDIRECT, target)
    ensures WellFormed(a[..])
    ensures View(a[..]) == old(View(a[..])).(slots := old(View(a[..])).slots[slot := Redirect(target)])
  {
    RedirectBytes(a[..], slot, target);
    PutEntry(a, slot, SLOT_REDIRECT, target);
  }
}
