/** Over every run of INSERT and DELETE the index is exactly the map from primary keys to the RowIDs
    of the live rows. */
module HeapTheorems {
  import opened PoolModel
  import opened PageModel
  import opened RowCodec
  import opened RowIds
  import opened HeapModel

  /** The live row at slot s of page p has an indexed key k. */
  ghost predicate HasKey(t: Table, p: int, s: int, k: int) {
    Live(t.pages, p, s) && PkOf(t.schema, RowAt(t.pages, p, s)) == Some(k)
  }

  /** Slots are numbered in 16 bits on every roomy page. */
  ghost predicate NamedBy(p: int, s: int, id: int) {
    0 <= s < 65536 && id == EncodeRowId(p, s)
  }

  ghost predicate IndexExact(t: Table) {
    && (forall p, s, k :: HasKey(t, p, s, k) ==> k in t.index && NamedBy(p, s, t.index[k]))
    && (forall k :: k in t.index ==> exists p, s :: HasKey(t, p, s, k) && NamedBy(p, s, t.index[k]))
  }

  /** Heap and index agree; slots may be redirects. */
  ghost predicate Agreeing(t: Table) {
    AllRoomy(t.pages) && |t.pages| <= MAX_PAGES && IndexExact(t)
  }

  ghost predicate TableOk(t: Table) {
    PagesOk(t.pages) && Agreeing(t)
  }

  lemma SlotInRange(t: Table, p: int, s: int)
    requires AllRoomy(t.pages) && Exists(t.pages, p, s)
    ensures 0 <= s < 340
  {
    Capacity(t.pages[p], 0);
  }

  /** Two live rows never share a primary key. */
  lemma PrimaryKeyUnique(t: Table, p: int, s: int, q: int, r: int, k: int)
    requires Agreeing(t) && HasKey(t, p, s, k) && HasKey(t, q, r, k)
    ensures p == q && s == r
  {
    RowIdInjective(p, s, q, r);
  }

  /** The RowID of a live row is positive, and decodes to where the row is. */
  lemma IssuedId(p: int, s: int)
    requires 1 <= p < MAX_PAGES && 0 <= s < 65536
    ensures EncodeRowId(p, s) > 0 && PageOf(EncodeRowId(p, s)) == p && SlotOf(EncodeRowId(p, s)) == s
  {
    RowIdRoundTrip(p, s);
  }

  /** After the check of the handler, the duplicate branch inside the heap insert cannot be taken. */
  lemma DuplicateUnreachable(t: Table, row: seq<byte>)
    requires Agreeing(t) && !KeyTaken(t, row)
    ensures var k := PkOf(t.schema, row); k.Some? ==> k.value !in t.index
  {
    var k := PkOf(t.schema, row);
    if k.Some? && k.value in t.index {
      var p, s :| HasKey(t, p, s, k.value) && NamedBy(p, s, t.index[k.value]);
      IssuedId(p, s);
    }
  }

  // ---------------------------------------------------------------- INSERT

  lemma StoredKeepsIndex(t: Table, u: Table, row: seq<byte>, r: Place)
    requires TableOk(t) && StoredAt(t.pages, row, r)
    requires u.schema == t.schema && u.pages == r.pages && |u.pages| <= MAX_PAGES
    requires var k := PkOf(t.schema, row);
             if k.None? then u.index == t.index
             else k.value !in t.index && u.index == t.index[k.value := EncodeRowId(r.page, r.slot)]
    ensures IndexExact(u)
  {
    hide PkOf, EncodeRowId;
    forall p, s, k | HasKey(u, p, s, k)
      ensures k in u.index && NamedBy(p, s, u.index[k])
    {
      if !(p == r.page && s == r.slot) {
        assert Exists(t.pages, p, s);
        assert HasKey(t, p, s, k);
      }
    }
    forall k | k in u.index
      ensures exists p, s :: HasKey(u, p, s, k) && NamedBy(p, s, u.index[k])
    {
      if PkOf(t.schema, row) == Some(k) {
        assert HasKey(u, r.page, r.slot, k) && NamedBy(r.page, r.slot, u.index[k]);
      } else {
        var p, s :| HasKey(t, p, s, k) && NamedBy(p, s, t.index[k]);
        assert Exists(t.pages, p, s) && HasKey(u, p, s, k);
      }
    }
  }

  lemma StoredKeepsPages(pages: seq<Page>, row: seq<byte>, r: Place)
    requires PagesOk(pages) && AllRoomy(r.pages) && StoredAt(pages, row, r) && 1 <= |row| <= MAX_ROW
    ensures PagesOk(r.pages)
  {
    forall p, s | Exists(r.pages, p, s)
      ensures PlainSlot(r.pages[p].slots[s])
    {
      if !(p == r.page && s == r.slot) {
        assert Exists(pages, p, s);
      }
    }
  }

  lemma EmptyPageAdded(t: Table, u: Table)
    requires TableOk(t) && u.schema == t.schema && u.pages == t.pages + [EMPTY_PAGE] && u.index == t.index
    requires |u.pages| <= MAX_PAGES
    ensures TableOk(u)
  {
    forall p, s
      ensures Exists(u.pages, p, s) <==> Exists(t.pages, p, s)
    {
    }
    forall p, s, k
      ensures HasKey(u, p, s, k) <==> HasKey(t, p, s, k)
    {
      assert Exists(u.pages, p, s) <==> Exists(t.pages, p, s);
    }
  }

  /** INSERT keeps heap and index in step and answers exactly: DUPLICATE_KEY if and only if a live row
      has the key, success if and only if there is no such row and the payload has 1 to 4072 bytes.
      On success exactly one row is added, in a slot that held none, under the RowID returned. */
  lemma InsertKeepsTable(t: Table, row: seq<byte>)
    requires TableOk(t) && |HandleInsert(t, row).0.pages| <= MAX_PAGES
    ensures var (u, answer) := HandleInsert(t, row);
            && TableOk(u) && u.schema == t.schema
            && (answer.DuplicateKey? <==> exists p, s, k :: HasKey(t, p, s, k) && PkOf(t.schema, row) == Some(k))
            && (answer.DuplicateKey? ==> u == t)
            && (answer.Inserted? <==> !answer.DuplicateKey? && 1 <= |row| <= 4072)
            && (answer.Inserted? ==>
                  && answer.rowId > 0
                  && StoredAt(t.pages, row, Place(u.pages, PageOf(answer.rowId), SlotOf(answer.rowId))))
            && (answer.Failed? ==> u.index == t.index && u.pages == if row == [] then t.pages else t.pages + [EMPTY_PAGE])
  {
    var (u, answer) := HandleInsert(t, row);
    var key := PkOf(t.schema, row);
    if KeyTaken(t, row) {
      var p, s :| HasKey(t, p, s, key.value) && NamedBy(p, s, t.index[key.value]);
    } else {
      DuplicateUnreachable(t, row);
      if row != [] {
        var r := PutRow(t.pages, row);
        PutRowMeaning(t.pages, row);
        if r.slot < 0 {
          EmptyPageAdded(t, u);
        } else {
          IssuedId(r.page, r.slot);
          StoredKeepsPages(t.pages, row, r);
          StoredKeepsIndex(t, u, row, r);
          assert Place(u.pages, PageOf(answer.rowId), SlotOf(answer.rowId)) == r;
        }
      }
    }
  }

  // ---------------------------------------------------------------- DELETE

  /** Slot s of page p was not deleted before, and now is; all other slots are as they were. */
  ghost predicate SlotGone(pages: seq<Page>, after: seq<Page>, p: int, s: int) {
    && |after| == |pages|
    && Exists(after, p, s) && after[p].slots[s].Deleted?
    && (forall q, r {:trigger Exists(after, q, r)} {:trigger Exists(pages, q, r)} ::
          && (Exists(after, q, r) <==> Exists(pages, q, r))
          && (Exists(pages, q, r) && !(q == p && r == s) ==> after[q].slots[r] == pages[q].slots[r]))
  }

  lemma GoneKeepsIndex(t: Table, u: Table, p: int, s: int)
    requires TableOk(t) && Live(t.pages, p, s) && SlotGone(t.pages, u.pages, p, s) && u.schema == t.schema
    requires var k := PkOf(t.schema, RowAt(t.pages, p, s));
             u.index == if k.Some? then t.index - {k.value} else t.index
    ensures IndexExact(u)
  {
    hide PkOf, EncodeRowId;
    var gone := PkOf(t.schema, RowAt(t.pages, p, s));
    forall q, r, k | HasKey(u, q, r, k)
      ensures k in u.index && NamedBy(q, r, u.index[k])
    {
      assert Exists(t.pages, q, r);
      assert HasKey(t, q, r, k);
      if gone == Some(k) {
        PrimaryKeyUnique(t, p, s, q, r, k);
      }
    }
    forall k | k in u.index
      ensures exists q, r :: HasKey(u, q, r, k) && NamedBy(q, r, u.index[k])
    {
      var q, r :| HasKey(t, q, r, k) && NamedBy(q, r, t.index[k]);
      assert Exists(t.pages, q, r) && HasKey(u, q, r, k);
    }
  }

  /** Deleting a live row by its RowID takes out that row and its key, and nothing else. */
  lemma DeleteRowKeepsTable(t: Table, p: int, s: int)
    requires TableOk(t) && Live(t.pages, p, s)
    ensures 0 <= s < 340
    ensures var (u, rc) := DeleteRow(t, EncodeRowId(p, s));
            rc == 0 && TableOk(u) && u.schema == t.schema && SlotGone(t.pages, u.pages, p, s)
  {
    hide PkOf, EncodeRowId, PageOf;
    SlotInRange(t, p, s);
    IssuedId(p, s);
    var u := DeleteRow(t, EncodeRowId(p, s)).0;
    assert PlainSlot(t.pages[p].slots[s]);
    assert SlotGone(t.pages, u.pages, p, s);
    GoneKeepsIndex(t, u, p, s);
    forall q, r | Exists(u.pages, q, r)
      ensures PlainSlot(u.pages[q].slots[r])
    {
      assert Exists(t.pages, q, r);
    }
  }

  ghost predicate Wanted(pages: seq<Page>, p: int, s: int, chosen: seq<byte> -> bool) {
    Live(pages, p, s) && RowAt(pages, p, s) != [] && chosen(RowAt(pages, p, s))
  }

  ghost function WantedSlots(pages: seq<Page>, chosen: seq<byte> -> bool): set<(int, int)> {
    set p: int, s: int | 0 <= p < |pages| && 0 <= s < |pages[p].slots| && Wanted(pages, p, s, chosen) :: (p, s)
  }

  lemma {:induction false} CollectSlotsMeaning(pages: seq<Page>, p: int, n: nat, chosen: seq<byte> -> bool, id: int)
    requires AllRoomy(pages) && |pages| <= MAX_PAGES && 1 <= p < |pages| && n <= |pages[p].slots|
    ensures id in CollectSlots(pages[p], p, n, chosen) <==>
              PageOf(id) == p && SlotOf(id) < n && Wanted(pages, p, SlotOf(id), chosen)
  {
    hide EncodeRowId, PageOf, SlotOf;
    if n > 0 {
      Capacity(pages[p], 0);
      CollectSlotsMeaning(pages, p, n - 1, chosen, id);
      IssuedId(p, n - 1);
      IdOfPlace(id);
    }
  }

  lemma IdOfPlace(id: int)
    ensures 0 <= PageOf(id) < MAX_PAGES ==> EncodeRowId(PageOf(id), SlotOf(id)) == id
  {
    if 0 <= PageOf(id) < MAX_PAGES {
      RowIdRoundTrip(PageOf(id), SlotOf(id));
      assert id == PageOf(id) * 65536 + SlotOf(id);
    }
  }

  /** handler_delete collects exactly the live rows that its predicate selects. */
  lemma {:induction false} CollectPagesMeaning(pages: seq<Page>, n: nat, chosen: seq<byte> -> bool, id: int)
    requires AllRoomy(pages) && 1 <= n <= |pages| <= MAX_PAGES
    ensures id in CollectPages(pages, n, chosen) <==> PageOf(id) < n && Wanted(pages, PageOf(id), SlotOf(id), chosen)
  {
    hide PageOf, SlotOf;
    if n > 1 {
      CollectPagesMeaning(pages, n - 1, chosen, id);
      CollectSlotsMeaning(pages, n - 1, |pages[n - 1].slots|, chosen, id);
    }
  }

  ghost predicate NoRepeats(ids: seq<int>) {
    forall i, j :: 0 <= i < j < |ids| ==> ids[i] != ids[j]
  }

  lemma {:induction false} SlotsNoRepeats(pages: seq<Page>, p: int, n: nat, chosen: seq<byte> -> bool)
    requires AllRoomy(pages) && |pages| <= MAX_PAGES && 1 <= p < |pages| && n <= |pages[p].slots|
    ensures NoRepeats(CollectSlots(pages[p], p, n, chosen))
  {
    hide EncodeRowId, PageOf;
    if n > 0 {
      SlotsNoRepeats(pages, p, n - 1, chosen);
      Capacity(pages[p], 0);
      CollectSlotsMeaning(pages, p, n - 1, chosen, EncodeRowId(p, n - 1));
      IssuedId(p, n - 1);
    }
  }

  lemma {:induction false} PagesNoRepeats(pages: seq<Page>, n: nat, chosen: seq<byte> -> bool)
    requires AllRoomy(pages) && 1 <= n <= |pages| <= MAX_PAGES
    ensures NoRepeats(CollectPages(pages, n, chosen))
  {
    if n > 1 {
      var a, b := CollectPages(pages, n - 1, chosen), CollectSlots(pages[n - 1], n - 1, |pages[n - 1].slots|, chosen);
      PagesNoRepeats(pages, n - 1, chosen);
      SlotsNoRepeats(pages, n - 1, |pages[n - 1].slots|, chosen);
      forall i, j | 0 <= i < |a| && 0 <= j < |b|
        ensures a[i] != b[j]
      {
        CollectPagesMeaning(pages, n - 1, chosen, a[i]);
        CollectSlotsMeaning(pages, n - 1, |pages[n - 1].slots|, chosen, b[j]);
      }
    }
  }

  /** Exactly the slots named by ids are now deleted. */
  ghost predicate RowsGone(pages: seq<Page>, after: seq<Page>, ids: seq<int>) {
    && |after| == |pages|
    && (forall p, s {:trigger Exists(after, p, s)} {:trigger Exists(pages, p, s)} ::
          && (Exists(after, p, s) <==> Exists(pages, p, s))
          && (Exists(pages, p, s) && 0 <= s < 65536 ==>
                after[p].slots[s] == if EncodeRowId(p, s) in ids then Deleted else pages[p].slots[s]))
  }

  lemma StillThere(pages: seq<Page>, mid: seq<Page>, ids: seq<int>, id: int, chosen: seq<byte> -> bool)
    requires RowsGone(pages, mid, ids) && id !in ids && |pages| <= MAX_PAGES
    requires Wanted(pages, PageOf(id), SlotOf(id), chosen)
    ensures Live(mid, PageOf(id), SlotOf(id)) && EncodeRowId(PageOf(id), SlotOf(id)) == id
  {
    hide EncodeRowId, PageOf;
    IdOfPlace(id);
  }

  /** Deleting one more of the collected rows. */
  lemma {:induction false} DeleteStep(t: Table, u: Table, done: seq<int>, id: int, chosen: seq<byte> -> bool)
    requires TableOk(t) && TableOk(u) && u.schema == t.schema && RowsGone(t.pages, u.pages, done)
    requires id !in done && Wanted(t.pages, PageOf(id), SlotOf(id), chosen)
    ensures var (w, rc) := DeleteRow(u, id);
            rc == 0 && TableOk(w) && w.schema == t.schema && RowsGone(t.pages, w.pages, done + [id])
  {
    hide EncodeRowId, PageOf, SlotOf, DeleteRow, IndexExact, RowsGone, SlotGone, Wanted, Live, PagesOk;
    TableRoomy(t);
    StillThere(t.pages, u.pages, done, id, chosen);
    DeleteRowKeepsTable(u, PageOf(id), SlotOf(id));
    RowsGoneStep(t.pages, u.pages, DeleteRow(u, id).0.pages, done, PageOf(id), SlotOf(id));
  }

  lemma {:induction false} DeleteRowsMeaning(t: Table, ids: seq<int>, n: nat, chosen: seq<byte> -> bool)
    requires TableOk(t) && n <= |ids| && NoRepeats(ids)
    requires forall id :: id in ids ==> Wanted(t.pages, PageOf(id), SlotOf(id), chosen)
    ensures var (u, count) := DeleteRows(t, ids, n);
            TableOk(u) && u.schema == t.schema && count == n && RowsGone(t.pages, u.pages, ids[..n])
  {
    hide EncodeRowId, PageOf, SlotOf, DeleteRow, TableOk, Wanted;
    if n == 0 {
      NothingGone(t.pages);
    } else {
      hide RowsGone;
      DeleteRowsMeaning(t, ids, n - 1, chosen);
      assert ids[n - 1] in ids && ids[n - 1] !in ids[..n - 1];
      DeleteStep(t, DeleteRows(t, ids, n - 1).0, ids[..n - 1], ids[n - 1], chosen);
      assert ids[..n] == ids[..n - 1] + [ids[n - 1]];
    }
  }

  lemma NothingGone(pages: seq<Page>)
    ensures RowsGone(pages, pages, [])
  {
  }

  lemma TableRoomy(t: Table)
    requires TableOk(t)
    ensures AllRoomy(t.pages)
  {
  }

  lemma RowsGoneStep(pages: seq<Page>, mid: seq<Page>, after: seq<Page>, ids: seq<int>, p: int, s: int)
    requires RowsGone(pages, mid, ids) && SlotGone(mid, after, p, s) && AllRoomy(pages)
    requires |pages| <= MAX_PAGES && 0 <= s < 340
    ensures RowsGone(pages, after, ids + [EncodeRowId(p, s)])
  {
    hide EncodeRowId;
    forall q, r | Exists(pages, q, r) && 0 <= r < 65536
      ensures after[q].slots[r] == if EncodeRowId(q, r) in ids + [EncodeRowId(p, s)] then Deleted else pages[q].slots[r]
    {
      assert Exists(mid, q, r) && Exists(after, q, r);
      if EncodeRowId(q, r) == EncodeRowId(p, s) {
        RowIdInjective(q, r, p, s);
      }
    }
  }

  /** DELETE with any predicate removes exactly the live rows that satisfy it, reports their number,
      and keeps heap and index in step. */
  lemma DeleteKeepsTable(t: Table, chosen: seq<byte> -> bool)
    requires TableOk(t)
    ensures var (u, count) := HandleDelete(t, chosen);
            && TableOk(u) && u.schema == t.schema && |u.pages| == |t.pages|
            && count == |WantedSlots(t.pages, chosen)|
            && forall p, s {:trigger Exists(t.pages, p, s)} ::
                 && (Exists(u.pages, p, s) <==> Exists(t.pages, p, s))
                 && (Exists(t.pages, p, s) ==>
                       u.pages[p].slots[s] == if Wanted(t.pages, p, s, chosen) then Deleted else t.pages[p].slots[s])
  {
    hide EncodeRowId, PageOf, SlotOf, CollectPages, DeleteRows;
    var ids := CollectPages(t.pages, |t.pages|, chosen);
    PagesNoRepeats(t.pages, |t.pages|, chosen);
    forall id | id in ids
      ensures Wanted(t.pages, PageOf(id), SlotOf(id), chosen)
    {
      CollectPagesMeaning(t.pages, |t.pages|, chosen, id);
    }
    DeleteRowsMeaning(t, ids, |ids|, chosen);
    assert ids[..|ids|] == ids;
    forall p, s | Exists(t.pages, p, s)
      ensures 0 <= s < 340
      ensures EncodeRowId(p, s) in ids <==> Wanted(t.pages, p, s, chosen)
    {
      SlotInRange(t, p, s);
      IssuedId(p, s);
      CollectPagesMeaning(t.pages, |t.pages|, chosen, EncodeRowId(p, s));
    }
    CollectedCount(t.pages, chosen);
  }

  ghost function SlotsNamed(ids: seq<int>): set<(int, int)> {
    set i: int | 0 <= i < |ids| :: (PageOf(ids[i]), SlotOf(ids[i]) as int)
  }

  lemma {:induction false} NamedSize(ids: seq<int>)
    requires NoRepeats(ids)
    ensures |SlotsNamed(ids)| == |ids|
  {
    if |ids| > 0 {
      var n := |ids| - 1;
      var last := (PageOf(ids[n]), SlotOf(ids[n]) as int);
      NamedSize(ids[..n]);
      assert SlotsNamed(ids) == SlotsNamed(ids[..n]) + {last};
      assert last !in SlotsNamed(ids[..n]) by {
        if i :| 0 <= i < n && (PageOf(ids[i]), SlotOf(ids[i]) as int) == last {
          assert ids[i] == PageOf(ids[i]) * 65536 + SlotOf(ids[i]);
          assert ids[n] == PageOf(ids[n]) * 65536 + SlotOf(ids[n]);
        }
      }
    }
  }

  /** As many RowIDs are collected as there are rows to go. */
  lemma CollectedCount(pages: seq<Page>, chosen: seq<byte> -> bool)
    requires AllRoomy(pages) && |pages| <= MAX_PAGES
    ensures |CollectPages(pages, |pages|, chosen)| == |WantedSlots(pages, chosen)|
  {
    hide EncodeRowId, PageOf, SlotOf, CollectPages;
    var ids := CollectPages(pages, |pages|, chosen);
    PagesNoRepeats(pages, |pages|, chosen);
    NamedSize(ids);
    forall p, s | (p, s) in SlotsNamed(ids)
      ensures (p, s) in WantedSlots(pages, chosen)
    {
      var i :| 0 <= i < |ids| && (PageOf(ids[i]), SlotOf(ids[i]) as int) == (p, s);
      CollectPagesMeaning(pages, |pages|, chosen, ids[i]);
    }
    forall p, s | (p, s) in WantedSlots(pages, chosen)
      ensures (p, s) in SlotsNamed(ids)
    {
      Capacity(pages[p], 0);
      IssuedId(p, s);
      CollectPagesMeaning(pages, |pages|, chosen, EncodeRowId(p, s));
      var i :| 0 <= i < |ids| && ids[i] == EncodeRowId(p, s);
    }
    assert SlotsNamed(ids) == WantedSlots(pages, chosen);
  }

  /** A RowID that names no live row deletes nothing. */
  lemma DeleteRowMisses(t: Table, id: int)
    requires TableOk(t)
    ensures !Live(t.pages, PageOf(id), SlotOf(id)) ==> DeleteRow(t, id) == (t, -1)
  {
    hide PageOf, SlotOf;
  }

  // ---------------------------------------------------------------- runs

  datatype Event = InsertEvent(row: seq<byte>) | DeleteEvent(chosen: seq<byte> -> bool)

  ghost function After(t: Table, e: Event): Table
    requires AllRoomy(t.pages)
  {
    match e
    case InsertEvent(row) => HandleInsert(t, row).0
    case DeleteEvent(chosen) => HandleDelete(t, chosen).0
  }

  ghost predicate RunsTo(t: Table, events: seq<Event>, u: Table)
    decreases |events|
  {
    if |events| == 0 then u == t
    else AllRoomy(t.pages) && RunsTo(After(t, events[0]), events[1..], u)
  }

  /** A table just created: the schema page and an empty index. */
  ghost predicate Fresh(t: Table) {
    |t.pages| == 1 && t.index == map[]
  }

  lemma FreshTable(t: Table)
    requires Fresh(t)
    ensures TableOk(t)
  {
  }

  lemma DeletePages(t: Table, ids: seq<int>, n: nat)
    requires n <= |ids|
    ensures |DeleteRows(t, ids, n).0.pages| == |t.pages|
  {
    if n > 0 {
      DeletePages(t, ids, n - 1);
    }
  }

  lemma {:induction false} PagesNeverShrink(t: Table, events: seq<Event>, u: Table)
    requires RunsTo(t, events, u)
    ensures |t.pages| <= |u.pages|
    decreases |events|
  {
    if |events| > 0 {
      match events[0] {
        case InsertEvent(row) => PutRowMeaning(t.pages, row);
        case DeleteEvent(chosen) =>
          var ids := CollectPages(t.pages, |t.pages|, chosen);
          DeletePages(t, ids, |ids|);
      }
      PagesNeverShrink(After(t, events[0]), events[1..], u);
    }
  }

  /** Every run of INSERT and DELETE, with any rows and any predicates, that stays within the pages a
      RowID can name, keeps the index equal to { primary key -> RowID } of the live rows. */
  lemma {:induction false} RunKeepsTable(t: Table, events: seq<Event>, u: Table)
    requires TableOk(t) && RunsTo(t, events, u) && |u.pages| <= MAX_PAGES
    ensures TableOk(u) && u.schema == t.schema
    decreases |events|
  {
    if |events| > 0 {
      var next := After(t, events[0]);
      PagesNeverShrink(next, events[1..], u);
      match events[0] {
        case InsertEvent(row) => InsertKeepsTable(t, row);
        case DeleteEvent(chosen) => DeleteKeepsTable(t, chosen);
      }
      RunKeepsTable(next, events[1..], u);
    }
  }

  /** In particular from a table just created: its index is always the map from keys to live rows, and
      no two live rows ever share a key. */
  lemma NewTableRun(t: Table, events: seq<Event>, u: Table)
    requires Fresh(t) && RunsTo(t, events, u) && |u.pages| <= MAX_PAGES
    ensures TableOk(u)
    ensures forall p, s, q, r, k :: HasKey(u, p, s, k) && HasKey(u, q, r, k) ==> p == q && s == r
  {
    FreshTable(t);
    RunKeepsTable(t, events, u);
    forall p, s, q, r, k | HasKey(u, p, s, k) && HasKey(u, q, r, k)
      ensures p == q && s == r
    {
      PrimaryKeyUnique(u, p, s, q, r, k);
    }
  }
}
