/** What the handlers of a table do with one page and with the index: the slot loops of SCAN and DELETE,
    and the key of a row in the B+ tree (`storage-engine/heap.c`, `server/handlers.c`). */
module HeapTables {
  import opened PoolModel
  import opened PageModel
  import opened RowCodec
  import opened RowIds
  import opened HeapModel
  import HotModel
  import BTreeFile
  import SlottedPages

  /** The pages of a table as slots and rows; page 0 holds the schema and is never looked into. */
  ghost function Views(pages: seq<PageData>): (vs: seq<Page>)
    requires forall p :: 1 <= p < |pages| ==> SlottedPages.WellFormed(pages[p])
    ensures |vs| == |pages| && (vs != [] ==> vs[0] == EMPTY_PAGE)
    ensures forall p :: 1 <= p < |pages| ==> vs[p] == SlottedPages.View(pages[p])
  {
    seq(|pages|, p requires 0 <= p < |pages| => if p == 0 then EMPTY_PAGE else SlottedPages.View(pages[p]))
  }

  lemma ViewsUpdate(pages: seq<PageData>, p: int, page: PageData)
    requires 1 <= p < |pages| && forall q :: 1 <= q < |pages| ==> SlottedPages.WellFormed(pages[q])
    requires SlottedPages.WellFormed(page)
    ensures Views(pages[p := page]) == Views(pages)[p := SlottedPages.View(page)]
  {
  }

  lemma ViewsAppend(pages: seq<PageData>, page: PageData)
    requires |pages| >= 1 && forall q :: 1 <= q < |pages| ==> SlottedPages.WellFormed(pages[q])
    requires SlottedPages.WellFormed(page)
    ensures Views(pages + [page]) == Views(pages) + [SlottedPages.View(page)]
  {
  }

  lemma SlotLimit(v: Page)
    requires Roomy(v)
    ensures |v.slots| <= 340
  {
    Capacity(v, 0);
  }

  /** The slot loop of handler_delete on one page. */
  method CollectFromPage(page: array<byte>, p: int, chosen: seq<byte> -> bool) returns (ids: seq<int>)
    requires page.Length == PAGE_SIZE && SlottedPages.WellFormed(page[..])
    requires var v := SlottedPages.View(page[..]); forall s :: 0 <= s < |v.slots| ==> !v.slots[s].Redirect?
    ensures var v := SlottedPages.View(page[..]); ids == CollectSlots(v, p, |v.slots|, chosen)
  {
    hide SlottedPages.WellFormed, SlottedPages.View, SlottedPages.WordAt, EncodeRowId, Roomy;
    ghost var v := SlottedPages.View(page[..]);
    var numSlots := SlottedPages.LoadInt(page, 0);
    SlotLimit(v);
    ids := [];
    for slot := 0 to numSlots
      invariant ids == CollectSlots(v, p, slot, chosen)
    {
      var row := SlottedPages.CopyRow(page, slot);
      if row != [] && chosen(row) {
        ids := ids + [EncodeRowId(p, slot)];
      }
    }
  }

  /** The slot loop of handler_scan on one page. */
  method ScanPage(page: array<byte>, p: int) returns (rows: seq<HotModel.ScannedRow>)
    requires page.Length == PAGE_SIZE && SlottedPages.WellFormed(page[..])
    ensures var v := SlottedPages.View(page[..]); rows == HotModel.ScanSlots(v, p, |v.slots|)
  {
    hide SlottedPages.WellFormed, SlottedPages.View, SlottedPages.WordAt, EncodeRowId, Roomy;
    ghost var v := SlottedPages.View(page[..]);
    var numSlots := SlottedPages.LoadInt(page, 0);
    SlotLimit(v);
    rows := [];
    for slot := 0 to numSlots
      invariant rows == HotModel.ScanSlots(v, p, slot)
    {
      var state := SlottedPages.ReadState(page, slot);
      if state != SlottedPages.SLOT_DELETED && state != SlottedPages.SLOT_REDIRECT {
        var row := SlottedPages.CopyRow(page, slot);
        if row != [] {
          rows := rows + [HotModel.ScannedRow(EncodeRowId(p, slot), row)];
        }
      }
    }
  }

  /** schema_get_pk_column */
  method FindPkColumn(schema: Schema) returns (c: int)
    ensures c == PkColumn(schema)
  {
    for i := 0 to |schema|
      invariant forall j :: 0 <= j < i ==> !schema[j].isPrimaryKey
    {
      if schema[i].isPrimaryKey {
        return i;
      }
    }
    return -1;
  }

  /** The key of a row as heap_try_index_insert, heap_try_index_delete and handler_insert extract it. */
  method ExtractKey(schema: Schema, row: seq<byte>) returns (found: bool, key: int)
    ensures found == PkOf(schema, row).Some?
    ensures found ==> key == PkOf(schema, row).value && BTreeFile.IsKey(key)
  {
    hide IntAt;
    found, key := false, 0;
    var c := FindPkColumn(schema);
    if c < 0 || !schema[c].kind.IntColumn? {
      NoIntKey(schema, row);
      return;
    }
    var rc;
    rc, key := ExtractIntColumn(schema, row, c);
    found := rc == 0;
  }

  /** heap_try_index_insert */
  method TryIndexInsert(schema: Schema, index: BTreeFile.BTree, row: seq<byte>, rowId: int) returns (duplicate: bool)
    requires index.Valid() && index.HasRoom()
    modifies index
    ensures index.Valid()
    ensures var k := PkOf(schema, row);
            && duplicate == (k.Some? && k.value in old(index.contents))
            && index.contents == if k.Some? && !duplicate then old(index.contents)[k.value := rowId] else old(index.contents)
  {
    hide PkOf;
    var found, key := ExtractKey(schema, row);
    if !found {
      return false;
    }
    var rc := index.Insert(key, rowId);
    return rc == 1;
  }

  /** heap_try_index_delete */
  method TryIndexDelete(schema: Schema, index: BTreeFile.BTree, row: seq<byte>)
    requires index.Valid()
    modifies index
    ensures index.Valid()
    ensures var k := PkOf(schema, row);
            index.contents == if k.Some? then old(index.contents) - {k.value} else old(index.contents)
  {
    hide PkOf;
    var found, key := ExtractKey(schema, row);
    if found {
      var rc := index.Delete(key);
    }
  }

  /** One step of the specification of the redirect loop. */
  lemma FollowHop(pages: seq<Page>, p: int, s: int, hops: nat)
    requires Exists(pages, p, s) && hops <= HotModel.MAX_HOPS
    ensures var slot := pages[p].slots[s];
            HotModel.Follow(pages, p, s, hops) ==
              if !slot.Redirect? then HotModel.Landed(p, s)
              else if hops == HotModel.MAX_HOPS || !Exists(pages, PageOf(slot.target), SlotOf(slot.target)) then HotModel.Lost
              else HotModel.Follow(pages, PageOf(slot.target), SlotOf(slot.target), hops + 1)
  {
  }

  lemma PageNoRedirects(pages: seq<Page>, p: int)
    requires NoRedirects(pages) && 1 <= p < |pages|
    ensures forall s :: 0 <= s < |pages[p].slots| ==> !pages[p].slots[s].Redirect?
  {
    forall s | 0 <= s < |pages[p].slots|
      ensures !pages[p].slots[s].Redirect?
    {
      assert Exists(pages, p, s);
    }
  }

  lemma DeletionKeepsNoRedirects(t: Table, id: int)
    requires NoRedirects(t.pages)
    ensures NoRedirects(HeapModel.DeleteRow(t, id).0.pages)
    ensures Exists(t.pages, PageOf(id), SlotOf(id)) ==> !t.pages[PageOf(id)].slots[SlotOf(id)].Redirect?
  {
    hide PkOf;
    var u := HeapModel.DeleteRow(t, id).0;
    forall p, s | Exists(u.pages, p, s)
      ensures !u.pages[p].slots[s].Redirect?
    {
      assert Exists(t.pages, p, s);
    }
  }

  lemma NoIntKey(schema: Schema, row: seq<byte>)
    requires PkColumn(schema) < 0 || !schema[PkColumn(schema)].kind.IntColumn?
    ensures PkOf(schema, row).None?
  {
  }
}
