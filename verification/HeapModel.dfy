/** Heap file and primary key index of one table as a state machine: what INSERT and DELETE of
    `server/handlers.c` do to the pages and to the index, through `storage-engine/heap.c`.  Pages are
    seen through the buffer pool, index lookups through the map of the B+ tree. */
module HeapModel {
  import opened PoolModel
  import opened Bytes
  import opened PageModel
  import opened RowCodec
  import opened RowIds

  /** Page 0 of a table holds its schema; rows live in pages 1 and up. */
  datatype Table = Table(schema: Schema, pages: seq<Page>, index: map<int, int>)

  const MAX_PAGES := 32768   // page numbers that a RowID can hold

  /** schema_get_pk_column */
  function PkColumn(schema: Schema): (c: int)
    ensures c == -1 || 0 <= c < |schema|
    ensures c >= 0 ==> schema[c].isPrimaryKey
    ensures forall i :: 0 <= i < (if c >= 0 then c else |schema|) ==> !schema[i].isPrimaryKey
  {
    if schema == [] then -1
    else
      var n := |schema| - 1;
      var c := PkColumn(schema[..n]);
      if c >= 0 then c else if schema[n].isPrimaryKey then n else -1
  }

  /** The key under which a row is indexed, if its INT primary key can be extracted. */
  function PkOf(schema: Schema, row: seq<byte>): (k: Option<int>)
    ensures k.Some? ==> IsInt(k.value)
  {
    IntAt(schema, row, PkColumn(schema))
  }

  // ---------------------------------------------------------------- rows

  predicate Exists(pages: seq<Page>, p: int, s: int) {
    1 <= p < |pages| && 0 <= s < |pages[p].slots|
  }

  predicate Live(pages: seq<Page>, p: int, s: int) {
    Exists(pages, p, s) && pages[p].slots[s].Normal?
  }

  function RowAt(pages: seq<Page>, p: int, s: int): seq<byte>
    requires Live(pages, p, s)
  {
    pages[p].slots[s].row
  }

  predicate AllRoomy(pages: seq<Page>) {
    |pages| >= 1 && forall p :: 1 <= p < |pages| ==> Roomy(pages[p])
  }

  /** Pages of a table on which no UPDATE has run: no redirects, and no rows without bytes or too long. */
  ghost predicate PagesOk(pages: seq<Page>) {
    && AllRoomy(pages)
    && forall p, s :: Exists(pages, p, s) ==> PlainSlot(pages[p].slots[s])
  }

  /** No UPDATE has moved a row yet. */
  ghost predicate NoRedirects(pages: seq<Page>) {
    forall p, s :: Exists(pages, p, s) ==> !pages[p].slots[s].Redirect?
  }

  predicate PlainSlot(s: Slot) {
    s.Deleted? || (s.Normal? && 1 <= |s.row| <= MAX_ROW)
  }

  // ---------------------------------------------------------------- storing a row

  /** The first page from `from` on with room for n bytes, or one past the last page. */
  function FirstFit(pages: seq<Page>, n: nat, from: nat): (p: nat)
    requires from <= |pages|
    ensures from <= p <= |pages|
    ensures p < |pages| ==> Fits(pages[p], n)
    ensures forall q :: from <= q < p ==> !Fits(pages[q], n)
    decreases |pages| - from
  {
    if from == |pages| || Fits(pages[from], n) then from else FirstFit(pages, n, from + 1)
  }

  datatype Place = Place(pages: seq<Page>, page: int, slot: int)

  /** The page loop of heap_insert_bm_indexed, and the new page at its end; slot -1 on failure. */
  function PutRow(pages: seq<Page>, row: seq<byte>): Place
    requires |pages| >= 1
  {
    var p := FirstFit(pages, |row|, 1);
    if p < |pages| then
      var (page, slot) := Insert(pages[p], row);
      Place(pages[p := page], p, slot)
    else
      var (page, slot) := Insert(EMPTY_PAGE, row);
      Place(pages + [page], p, slot)
  }

  /** A row is stored exactly when it is at most 4072 bytes long.  It then occupies one slot that held
      no row, and nothing else changes but that at most one page is added.  A longer row leaves an
      empty page behind. */
  lemma PutRowMeaning(pages: seq<Page>, row: seq<byte>)
    requires AllRoomy(pages)
    ensures var r := PutRow(pages, row);
            && AllRoomy(r.pages)
            && (r.slot >= 0 <==> |row| <= 4072)
            && (r.slot < 0 ==> r.pages == pages + [EMPTY_PAGE])
            && (r.slot >= 0 ==> StoredAt(pages, row, r))
    ensures |pages| <= |PutRow(pages, row).pages| <= |pages| + 1
  {
    var p := FirstFit(pages, |row|, 1);
    Capacity(EMPTY_PAGE, |row|);
    if p < |pages| {
      InsertMeaning(pages[p], row);
      InsertKeepsRoomy(pages[p], row);
      Capacity(pages[p], |row|);
      Capacity(Insert(pages[p], row).0, |row|);
    } else {
      InsertMeaning(EMPTY_PAGE, row);
      InsertKeepsRoomy(EMPTY_PAGE, row);
    }
  }

  ghost predicate StoredAt(pages: seq<Page>, row: seq<byte>, r: Place) {
    && 0 <= r.slot < 340
    && Live(r.pages, r.page, r.slot) && RowAt(r.pages, r.page, r.slot) == row
    && (Exists(pages, r.page, r.slot) ==> pages[r.page].slots[r.slot].Deleted?)
    && (forall p, s {:trigger Exists(r.pages, p, s)} {:trigger Exists(pages, p, s)} :: !(p == r.page && s == r.slot) ==>
          && (Exists(r.pages, p, s) <==> Exists(pages, p, s))
          && (Exists(pages, p, s) ==> r.pages[p].slots[s] == pages[p].slots[s]))
  }

  /** heap_insert_bm_indexed */
  function HeapInsert(t: Table, row: seq<byte>): (Table, int)
    requires AllRoomy(t.pages)
  {
    PutRowMeaning(t.pages, row);
    if row == [] then (t, -1 as int)
    else
      var r := PutRow(t.pages, row);
      var u := t.(pages := r.pages);
      if r.slot < 0 then (u, -1 as int)
      else
        var id := EncodeRowId(r.page, r.slot);
        var k := PkOf(t.schema, row);
        if k.None? then (u, id)
        else if k.value in t.index then (u, -1 as int)
        else (u.(index := t.index[k.value := id]), id)
  }

  datatype Outcome = Inserted(rowId: int) | DuplicateKey | Failed

  /** The check of handler_insert before it stores the row. */
  predicate KeyTaken(t: Table, row: seq<byte>) {
    var k := PkOf(t.schema, row);
    k.Some? && k.value in t.index && t.index[k.value] >= 0
  }

  /** handler_insert */
  function HandleInsert(t: Table, row: seq<byte>): (Table, Outcome)
    requires AllRoomy(t.pages)
  {
    if KeyTaken(t, row) then (t, DuplicateKey)
    else
      var (u, id) := HeapInsert(t, row);
      (u, if id < 0 then Failed else Inserted(id))
  }

  // ---------------------------------------------------------------- deleting rows

  /** heap_delete_row_bm: 0 if a row was deleted, -1 if the RowID names none. */
  function DeleteRow(t: Table, id: int): (Table, int) {
    var p, s := PageOf(id), SlotOf(id);
    if id < 0 || p <= 0 || !Live(t.pages, p, s) || RowAt(t.pages, p, s) == [] then (t, -1 as int)
    else
      var k := PkOf(t.schema, RowAt(t.pages, p, s));
      (t.(pages := t.pages[p := Delete(t.pages[p], s)],
          index := if k.Some? then t.index - {k.value} else t.index), 0 as int)
  }

  predicate Selected(slot: Slot, chosen: seq<byte> -> bool) {
    slot.Normal? && slot.row != [] && chosen(slot.row)
  }

  /** The RowIDs that handler_delete collects from the first n slots of page p. */
  function CollectSlots(page: Page, p: int, n: nat, chosen: seq<byte> -> bool): seq<int>
    requires n <= |page.slots| && Roomy(page)
  {
    if n == 0 then []
    else
      var before := CollectSlots(page, p, n - 1, chosen);
      if Selected(page.slots[n - 1], chosen) then before + [EncodeRowId(p, n - 1)] else before
  }

  /** The RowIDs that handler_delete collects from the pages below n. */
  function CollectPages(pages: seq<Page>, n: nat, chosen: seq<byte> -> bool): seq<int>
    requires AllRoomy(pages) && 1 <= n <= |pages|
  {
    if n == 1 then []
    else CollectPages(pages, n - 1, chosen) + CollectSlots(pages[n - 1], n - 1, |pages[n - 1].slots|, chosen)
  }

  /** The deletion of the first n collected rows, and how many of them were there. */
  function DeleteRows(t: Table, ids: seq<int>, n: nat): (Table, nat)
    requires n <= |ids|
  {
    if n == 0 then (t, 0)
    else
      var (u, count) := DeleteRows(t, ids, n - 1);
      var (w, rc) := DeleteRow(u, ids[n - 1]);
      (w, if rc == 0 then count + 1 else count)
  }

  /** handler_delete: the new table and the reported number of rows. */
  function HandleDelete(t: Table, chosen: seq<byte> -> bool): (Table, nat)
    requires AllRoomy(t.pages)
  {
    var ids := CollectPages(t.pages, |t.pages|, chosen);
    DeleteRows(t, ids, |ids|)
  }
}
