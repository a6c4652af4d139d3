/** UPDATE on a table that INSERT and DELETE have made, slot by slot: which RowIDs it takes, what it
    answers, and where the new row goes. */
module PlainUpdate {
  import opened PoolModel
  import opened PageModel
  import opened PageSpace
  import opened RowIds
  import opened HeapModel
  import opened HeapTheorems
  import opened HotModel

  /** All slots but (p, s) and (q, r) hold in qs what they hold in ps. */
  ghost predicate SameBut(ps: seq<Page>, qs: seq<Page>, p: int, s: int, q: int, r: int) {
    forall x, y {:trigger Exists(ps, x, y)} :: Exists(ps, x, y) && !(x == p && y == s) && !(x == q && y == r) ==>
      Exists(qs, x, y) && qs[x].slots[y] == ps[x].slots[y]
  }

  /** The row at slot s of page p has become `row`, in place, for it has the same size. */
  ghost predicate InPlace(ps: seq<Page>, qs: seq<Page>, p: int, s: int, row: seq<byte>) {
    && Live(ps, p, s) && |RowAt(ps, p, s)| == |row|
    && Live(qs, p, s) && RowAt(qs, p, s) == row
    && |qs| == |ps| && SameBut(ps, qs, p, s, p, s)
  }

  /** The slot now points to slot r of page q, which held no row and holds the new one.  Page q is the page
      of the old row if there is room on it, or else the first page that has room, or else a new one. */
  ghost predicate MovedTo(ps: seq<Page>, qs: seq<Page>, p: int, s: int, row: seq<byte>, q: int, r: int) {
    && Live(ps, p, s) && |RowAt(ps, p, s)| != |row|
    && Exists(qs, p, s) && 0 <= r < 340 && qs[p].slots[s] == Redirect(EncodeRowId(q, r))
    && Live(qs, q, r) && RowAt(qs, q, r) == row
    && (Exists(ps, q, r) ==> ps[q].slots[r].Deleted?)
    && SameBut(ps, qs, p, s, q, r)
    && |qs| == (if q < |ps| then |ps| else |ps| + 1)
    && (if Gap(ps[p]) >= |row| + 12 then q == p
        else 1 <= q <= |ps| && (q < |ps| ==> Gap(ps[q]) >= |row| + 12) && forall x :: 1 <= x < q ==> Gap(ps[x]) < |row| + 12)
  }

  /** On a table without redirects UPDATE takes the RowIDs of live rows and no others.  A payload without
      bytes is rejected, one of more than 4072 finds no space. */
  lemma UpdateMeaning(t: Table, id: int, row: seq<byte>)
    requires TableOk(t)
    ensures var (qs, answer) := HandleUpdate(t.pages, id, row);
            var p, s := PageOf(id), SlotOf(id);
            && (answer == Rejected <==> row == [])
            && (answer == NoSuchRow <==> row != [] && !Live(t.pages, p, s))
            && (answer == Updated <==> Live(t.pages, p, s) && 1 <= |row| <= 4072)
            && (answer == Rejected || answer == NoSuchRow ==> qs == t.pages)
            && (answer == OutOfSpace ==> qs == t.pages + [EMPTY_PAGE])
            && (answer == Updated ==>
                  || InPlace(t.pages, qs, p, s, row)
                  || exists q, r :: MovedTo(t.pages, qs, p, s, row, q, r))
  {
    hide PageOf, SlotOf;
    var p, s := PageOf(id), SlotOf(id);
    if Exists(t.pages, p, s) {
      assert PlainSlot(t.pages[p].slots[s]);
    }
    if row != [] && Live(t.pages, p, s) {
      LiveUpdate(t.pages, p, s, row);
    }
  }

  lemma LiveUpdate(pages: seq<Page>, p: int, s: int, row: seq<byte>)
    requires AllRoomy(pages) && Live(pages, p, s) && row != []
    ensures var (qs, answer) := Overwrite(pages, p, s, row);
            && (answer == Updated <==> |row| <= 4072 || |row| == |RowAt(pages, p, s)|)
            && (answer == Updated || answer == OutOfSpace)
            && (answer == OutOfSpace ==> qs == pages + [EMPTY_PAGE])
            && (answer == Updated ==>
                  || InPlace(pages, qs, p, s, row)
                  || exists q, r :: MovedTo(pages, qs, p, s, row, q, r))
  {
    hide EncodeRowId, Insert, PutRow;
    var (qs, answer) := Overwrite(pages, p, s, row);
    if |RowAt(pages, p, s)| == |row| {
      assert InPlace(pages, qs, p, s, row);
    } else {
      RelocateMeaning(pages, p, row);
      RoomIff(pages[p], row);
      FirstPageWithRoom(pages, row);
      Capacity(pages[p], |row|);
      var r := Relocate(pages, p, row);
      if r.slot >= 0 {
        forall x, y | Exists(pages, x, y) && !(x == p && y == s) && !(x == r.page && y == r.slot)
          ensures Exists(qs, x, y) && qs[x].slots[y] == pages[x].slots[y]
        {
          assert Exists(r.pages, x, y);
        }
        assert MovedTo(pages, qs, p, s, row, r.page, r.slot);
      }
    }
  }

  /** UPDATE by the RowID of a row that DELETE has removed changes nothing. */
  lemma DeletedRowStays(t: Table, chosen: seq<byte> -> bool, p: int, s: int, row: seq<byte>)
    requires TableOk(t) && Live(t.pages, p, s) && chosen(RowAt(t.pages, p, s)) && row != []
    ensures 0 <= s < 340
    ensures var u := HandleDelete(t, chosen).0;
            AllRoomy(u.pages) && HandleUpdate(u.pages, EncodeRowId(p, s), row) == (u.pages, NoSuchRow)
  {
    hide PageOf, SlotOf, EncodeRowId, HandleDelete, HandleUpdate;
    var u := HandleDelete(t, chosen).0;
    SlotInRange(t, p, s);
    IssuedId(p, s);
    assert PlainSlot(t.pages[p].slots[s]);
    DeleteKeepsTable(t, chosen);
    UpdateMeaning(u, EncodeRowId(p, s), row);
  }

  /** After every run of INSERT and DELETE on a new table, an UPDATE answers and does exactly that. */
  lemma UpdateAfterRun(t: Table, events: seq<Event>, u: Table, p: int, s: int, row: seq<byte>)
    requires Fresh(t) && RunsTo(t, events, u) && |u.pages| <= MAX_PAGES && Exists(u.pages, p, s)
    ensures AllRoomy(u.pages) && 0 <= s < 340
    ensures var (qs, answer) := HandleUpdate(u.pages, EncodeRowId(p, s), row);
            && (answer == Updated <==> Live(u.pages, p, s) && 1 <= |row| <= 4072)
            && (answer == Updated ==>
                  InPlace(u.pages, qs, p, s, row) || exists q, r :: MovedTo(u.pages, qs, p, s, row, q, r))
            && (answer != Updated ==> qs == u.pages || (|row| > 4072 && qs == u.pages + [EMPTY_PAGE]))
  {
    hide PageOf, SlotOf, EncodeRowId, HandleUpdate;
    NewTableRun(t, events, u);
    SlotInRange(u, p, s);
    IssuedId(p, s);
    UpdateMeaning(u, EncodeRowId(p, s), row);
  }
}
