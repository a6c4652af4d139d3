/** UPDATE does not touch the index.  This is exactly when heap and index still agree after it. */
module UpdateIndex {
  import opened PoolModel
  import opened Bytes
  import opened PageModel
  import opened RowCodec
  import opened RowIds
  import opened HeapModel
  import opened HeapTheorems
  import opened HotModel

  /** Slot s of page p of u holds `slot`; every other slot that holds a row is as in t. */
  ghost predicate OneSlotChanged(t: Table, u: Table, p: int, s: int, slot: Slot) {
    && u.schema == t.schema && u.index == t.index
    && Exists(u.pages, p, s) && u.pages[p].slots[s] == slot
    && (forall q, r {:trigger Exists(u.pages, q, r)} {:trigger Exists(t.pages, q, r)} ::
          && (Exists(u.pages, q, r) <==> Exists(t.pages, q, r))
          && (Exists(t.pages, q, r) && !(q == p && r == s) ==> u.pages[q].slots[r] == t.pages[q].slots[r]))
  }

  /** New bytes in place: the key must stay the same. */
  lemma InPlaceIff(t: Table, u: Table, p: int, s: int, row: seq<byte>)
    requires Agreeing(t) && Live(t.pages, p, s) && OneSlotChanged(t, u, p, s, Normal(row))
    ensures IndexExact(u) <==> PkOf(t.schema, row) == PkOf(t.schema, RowAt(t.pages, p, s))
  {
    hide PkOf, EncodeRowId;
    var before, after := PkOf(t.schema, RowAt(t.pages, p, s)), PkOf(t.schema, row);
    forall q, r, k
      ensures HasKey(u, q, r, k) <==> if q == p && r == s then after == Some(k) else HasKey(t, q, r, k)
    {
      assert Exists(u.pages, q, r) <==> Exists(t.pages, q, r);
    }
    if before == after {
      forall q, r, k
        ensures HasKey(u, q, r, k) <==> HasKey(t, q, r, k)
      {
      }
      assert IndexExact(u);
    } else if IndexExact(u) {
      var k := if before.Some? then before.value else after.value;
      if before.Some? {
        assert HasKey(t, p, s, k);
        OwnerUnique(t, u, p, s, k);
      } else {
        assert HasKey(u, p, s, k);
        NewKeyUnnamed(t, u, p, s, k);
      }
    }
  }

  /** A key that only (p, s) had is in the index but has no row any more. */
  lemma OwnerUnique(t: Table, u: Table, p: int, s: int, k: int)
    requires Agreeing(t) && u.index == t.index && HasKey(t, p, s, k) && !HasKey(u, p, s, k)
    requires forall q, r :: HasKey(u, q, r, k) ==> HasKey(t, q, r, k)
    ensures !IndexExact(u)
  {
    if IndexExact(u) {
      var q, r :| HasKey(u, q, r, k) && NamedBy(q, r, u.index[k]);
      PrimaryKeyUnique(t, p, s, q, r, k);
    }
  }

  /** The index names only slots that were live with their key before. */
  lemma NewKeyUnnamed(t: Table, u: Table, p: int, s: int, k: int)
    requires Agreeing(t) && u.index == t.index && HasKey(u, p, s, k) && !HasKey(t, p, s, k)
    requires p < MAX_PAGES
    ensures !IndexExact(u)
  {
    if IndexExact(u) {
      var q, r :| HasKey(t, q, r, k) && NamedBy(q, r, t.index[k]);
      RowIdInjective(p, s, q, r);
    }
  }

  /** The row moves to slot r and its old slot becomes a redirect. */
  ghost predicate RowMoved(t: Table, u: Table, p: int, s: int, r: Place, row: seq<byte>) {
    && u.schema == t.schema && u.index == t.index
    && StoredAt(t.pages, row, r) && !(r.page == p && r.slot == s) && |r.pages| <= MAX_PAGES
    && Exists(r.pages, p, s)
    && u.pages == WithSlot(r.pages, p, s, Redirect(EncodeRowId(r.page, r.slot)))
  }

  lemma KeysAfterMove(t: Table, u: Table, p: int, s: int, r: Place, row: seq<byte>, q: int, x: int, k: int)
    requires RowMoved(t, u, p, s, r, row)
    ensures HasKey(u, q, x, k) <==>
              if q == r.page && x == r.slot then PkOf(t.schema, row) == Some(k)
              else !(q == p && x == s) && HasKey(t, q, x, k)
  {
    hide PkOf, EncodeRowId;
    assert Exists(u.pages, q, x) <==> Exists(r.pages, q, x);
    assert (q == r.page && x == r.slot) || (Exists(r.pages, q, x) <==> Exists(t.pages, q, x));
  }

  /** The key of the row in slot s of page p, if there is a row and it has one. */
  ghost function KeyAt(t: Table, p: int, s: int): Option<int> {
    if Live(t.pages, p, s) then PkOf(t.schema, RowAt(t.pages, p, s)) else None
  }

  /** A moved row: the index still names the redirect, so there must be no key at all. */
  lemma MovedIff(t: Table, u: Table, p: int, s: int, r: Place, row: seq<byte>)
    requires Agreeing(t) && RowMoved(t, u, p, s, r, row)
    ensures IndexExact(u) <==> PkOf(t.schema, row).None? && KeyAt(t, p, s).None?
  {
    hide PkOf, EncodeRowId, RowMoved;
    var before, after := KeyAt(t, p, s), PkOf(t.schema, row);
    MoveFacts(t, u, p, s, r, row);
    forall q, x, k
      ensures HasKey(u, q, x, k) <==>
                if q == r.page && x == r.slot then after == Some(k) else !(q == p && x == s) && HasKey(t, q, x, k)
    {
      KeysAfterMove(t, u, p, s, r, row, q, x, k);
    }
    if after.Some? {
      NewKeyUnnamed(t, u, r.page, r.slot, after.value);
    } else if before.Some? {
      assert HasKey(t, p, s, before.value);
      OwnerUnique(t, u, p, s, before.value);
    } else {
      SameKeys(t, u);
    }
  }

  lemma MoveFacts(t: Table, u: Table, p: int, s: int, r: Place, row: seq<byte>)
    requires RowMoved(t, u, p, s, r, row)
    ensures u.index == t.index && u.schema == t.schema && 1 <= r.page < MAX_PAGES
    ensures !Live(t.pages, r.page, r.slot) && !(r.page == p && r.slot == s)
  {
  }

  lemma SameKeys(t: Table, u: Table)
    requires IndexExact(t) && u.index == t.index
    requires forall q, x, k :: HasKey(u, q, x, k) <==> HasKey(t, q, x, k)
    ensures IndexExact(u)
  {
  }

  /** What an update that lands on a deleted slot does if the new row takes that very slot: the slot
      becomes a redirect to itself, and no row is added. */
  lemma SelfRedirect(t: Table, u: Table, p: int, s: int, r: Place, row: seq<byte>)
    requires Agreeing(t) && StoredAt(t.pages, row, r) && r.page == p && r.slot == s && !Live(t.pages, p, s)
    requires u.schema == t.schema && u.index == t.index && |r.pages| <= MAX_PAGES
    requires u.pages == WithSlot(r.pages, p, s, Redirect(EncodeRowId(r.page, r.slot)))
    ensures IndexExact(u)
  {
    hide PkOf, EncodeRowId;
    forall q, x, k
      ensures HasKey(u, q, x, k) <==> HasKey(t, q, x, k)
    {
      assert Exists(u.pages, q, x) <==> Exists(r.pages, q, x);
      assert (q == p && x == s) || (Exists(r.pages, q, x) <==> Exists(t.pages, q, x));
    }
    SameKeys(t, u);
  }

  lemma EmptyPageKeepsIndex(t: Table)
    requires IndexExact(t)
    ensures IndexExact(t.(pages := t.pages + [EMPTY_PAGE]))
  {
    var u := t.(pages := t.pages + [EMPTY_PAGE]);
    forall q, x, k
      ensures HasKey(u, q, x, k) <==> HasKey(t, q, x, k)
    {
    }
    SameKeys(t, u);
  }

  /** When an update that has found the slot to change leaves the index right. */
  predicate IndexSurvives(t: Table, p: int, s: int, row: seq<byte>)
    requires Exists(t.pages, p, s)
  {
    match t.pages[p].slots[s]
    case Normal(was) =>
      PkOf(t.schema, row) == PkOf(t.schema, was) && (|row| == |was| || PkOf(t.schema, row).None?)
    case Deleted =>
      PkOf(t.schema, row).None? || (Fits(t.pages[p], |row|) && ChosenSlot(t.pages[p].slots) == s)
    case Redirect(_) => true
  }

  /** Where the new row of an update goes, if not into the slot of the old one. */
  lemma RelocatedTo(pages: seq<Page>, p: int, s: int, row: seq<byte>)
    requires AllRoomy(pages) && Exists(pages, p, s)
    ensures var r := Relocate(pages, p, row);
            r.page == p && r.slot == s <==> Fits(pages[p], |row|) && ChosenSlot(pages[p].slots) == s
  {
    hide ChosenSlot;
    InsertMeaning(pages[p], row);
  }

  lemma OverwriteKeepsIndexIff(t: Table, p: int, s: int, row: seq<byte>)
    requires Agreeing(t) && Exists(t.pages, p, s) && !t.pages[p].slots[s].Redirect?
    requires |Overwrite(t.pages, p, s, row).0| <= MAX_PAGES
    ensures var (qs, answer) := Overwrite(t.pages, p, s, row);
            && (answer == Updated || answer == OutOfSpace)
            && (answer == OutOfSpace ==> IndexExact(t.(pages := qs)))
            && (answer == Updated ==> (IndexExact(t.(pages := qs)) <==> IndexSurvives(t, p, s, row)))
  {
    hide PkOf, EncodeRowId, Relocate, IndexExact, ChosenSlot;
    var was := t.pages[p].slots[s];
    var u := t.(pages := Overwrite(t.pages, p, s, row).0);
    if was.Normal? && |was.row| == |row| {
      assert OneSlotChanged(t, u, p, s, Normal(row));
      InPlaceIff(t, u, p, s, row);
    } else {
      RelocateMeaning(t.pages, p, row);
      RelocatedTo(t.pages, p, s, row);
      var r := Relocate(t.pages, p, row);
      if r.slot < 0 {
        EmptyPageKeepsIndex(t);
      } else if r.page == p && r.slot == s {
        SelfRedirect(t, u, p, s, r, row);
      } else {
        assert Exists(r.pages, p, s);
        assert RowMoved(t, u, p, s, r, row);
        MovedIff(t, u, p, s, r, row);
      }
    }
  }

  /** An UPDATE through any RowID of a table on which heap and index agree.  If it fails they still
      agree.  If it succeeds, with the slot at the end of the redirect chain, they agree if and only if
      IndexSurvives says so of that slot: a live row keeps its key and either its size or has no key;
      a deleted slot gets a row without key, or the new row lands in that very slot. */
  lemma UpdateKeepsIndexIff(t: Table, id: int, row: seq<byte>)
    requires Agreeing(t) && |HandleUpdate(t.pages, id, row).0| <= MAX_PAGES
    ensures var (qs, answer) := HandleUpdate(t.pages, id, row);
            && (answer != Updated ==> IndexExact(t.(pages := qs)))
            && (answer == Updated ==>
                  && Exists(t.pages, PageOf(id), SlotOf(id))
                  && var l := Follow(t.pages, PageOf(id), SlotOf(id), 0);
                     l.Landed? && (IndexExact(t.(pages := qs)) <==> IndexSurvives(t, l.page, l.slot, row)))
  {
    hide PageOf, SlotOf, Overwrite, IndexExact, IndexSurvives;
    var p, s := PageOf(id), SlotOf(id);
    if row != [] && p > 0 && Exists(t.pages, p, s) && !t.pages[p].slots[s].Deleted? {
      var l := Follow(t.pages, p, s, 0);
      if l.Landed? {
        OverwriteKeepsIndexIff(t, l.page, l.slot, row);
      }
    }
    assert t.(pages := t.pages) == t;
  }

  // ---------------------------------------------------------------- a key that is stored twice

  lemma InPlace(t: Table, id: int, row: seq<byte>)
    requires AllRoomy(t.pages) && Live(t.pages, PageOf(id), SlotOf(id)) && row != []
    requires |RowAt(t.pages, PageOf(id), SlotOf(id))| == |row|
    ensures HandleUpdate(t.pages, id, row) == (WithSlot(t.pages, PageOf(id), SlotOf(id), Normal(row)), Updated)
    ensures Follow(t.pages, PageOf(id), SlotOf(id), 0) == Landed(PageOf(id), SlotOf(id))
  {
    hide PageOf, SlotOf;
  }

  /** INSERT of a row with key k, UPDATE of it to key l, INSERT of another row with key l: all three
      succeed on a new table, the index still says k, and two live rows have key l. */
  lemma KeyStoredTwice(t: Table, was: seq<byte>, row: seq<byte>, k: int, l: int)
    requires Fresh(t) && k != l && PkOf(t.schema, was) == Some(k) && PkOf(t.schema, row) == Some(l)
    requires 1 <= |was| == |row| <= MAX_ROW
    ensures var (u, first) := HandleInsert(t, was);
            && first.Inserted?
            && var (qs, answer) := HandleUpdate(u.pages, first.rowId, row);
               var w := u.(pages := qs);
               && answer == Updated && w.index == map[k := first.rowId] && !IndexExact(w)
               && AllRoomy(w.pages)
               && var (v, second) := HandleInsert(w, row);
                  && second.Inserted?
                  && exists p, s, q, r :: HasKey(v, p, s, l) && HasKey(v, q, r, l) && (p, s) != (q, r)
  {
    hide PkOf, PageOf, SlotOf, EncodeRowId, IndexExact, ChosenSlot;
    FreshTable(t);
    PutRowMeaning(t.pages, was);
    InsertKeepsTable(t, was);
    var (u, first) := HandleInsert(t, was);
    assert !KeyTaken(t, was);
    assert first.Inserted?;
    var p, s := PageOf(first.rowId), SlotOf(first.rowId);
    InPlace(u, first.rowId, row);
    UpdateKeepsIndexIff(u, first.rowId, row);
    var w := u.(pages := WithSlot(u.pages, p, s, Normal(row)));
    assert !KeyTaken(w, row);
    PutRowMeaning(w.pages, row);
    var r := PutRow(w.pages, row);
    RowIdRoundTrip(r.page, r.slot);
    var v := HandleInsert(w, row).0;
    assert HasKey(v, r.page, r.slot, l);
    assert HasKey(v, p, s, l);
  }

  /** A row with the single INT column k. */
  function IntRow(k: int): seq<byte>
    requires IsInt(k)
  {
    Encode([Column(IntColumn, 4, true)], [IntBytes(k)])
  }

  lemma IntRowKey(k: int)
    requires IsInt(k)
    ensures PkOf([Column(IntColumn, 4, true)], IntRow(k)) == Some(k) && |IntRow(k)| == 5
  {
    var schema, cells := [Column(IntColumn, 4, true)], [IntBytes(k)];
    CodecRoundTrip(schema, cells);
    FastReaderAgrees(schema, IntRow(k), 0);
    IntRoundTrip(k);
    assert PkColumn(schema) == 0;
    var nulls := NullCells(cells);
    assert Fields(schema, nulls, cells, 1) == Fields(schema, nulls, cells, 0) + IntBytes(k);
  }

  /** For instance on a table with one INT column: keys 1, then 2, then 2 again. */
  lemma KeyTwoTwice()
    ensures var t := Table([Column(IntColumn, 4, true)], [EMPTY_PAGE], map[]);
            var (u, first) := HandleInsert(t, IntRow(1));
            && first.Inserted?
            && var w := u.(pages := HandleUpdate(u.pages, first.rowId, IntRow(2)).0);
               && AllRoomy(w.pages) && !IndexExact(w)
               && var (v, second) := HandleInsert(w, IntRow(2));
                  && second.Inserted?
                  && exists p, s, q, r :: HasKey(v, p, s, 2) && HasKey(v, q, r, 2) && (p, s) != (q, r)
  {
    hide IndexExact, PkOf, IntRow;
    IntRowKey(1);
    IntRowKey(2);
    KeyStoredTwice(Table([Column(IntColumn, 4, true)], [EMPTY_PAGE], map[]), IntRow(1), IntRow(2), 1, 2);
  }
}
