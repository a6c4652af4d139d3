/** The heap's page loops run through the real buffer manager: every page is fetched, edited in its
    frame and released before the next one, with evictions in between.  What the flat store shows
    afterwards is what the same operation does to plain pages, under every replacement policy. */
module PooledHeap {
  import opened PoolModel
  import opened BufferModel
  import opened BufferManagers
  import opened PageTables
  import opened Transparency
  import opened PageAccess
  import opened PageModel
  import opened RowCodec
  import BTreeFile
  import HeapModel
  import HeapTables
  import HotModel
  import SlottedPages

  /** The store holds exactly the pages 0 to n - 1 of the table, slotted from page 1 on. */
  ghost predicate IsTable(v: map<Key, PageData>, name: TableName, n: int) {
    && 1 <= n
    && (forall p {:trigger Key(name, p)} :: 0 <= p < n ==> Key(name, p) in v)
    && (forall p {:trigger Key(name, p)} :: n <= p ==> Key(name, p) !in v)
    && (forall p {:trigger Key(name, p)} :: 1 <= p < n ==> SlottedPages.WellFormed(v[Key(name, p)]))
  }

  ghost function TablePages(v: map<Key, PageData>, name: TableName, n: int): (ps: seq<Page>)
    requires IsTable(v, name, n)
    ensures |ps| == n && HeapModel.AllRoomy(ps) && ps[0] == EMPTY_PAGE
    ensures forall p {:trigger ps[p]} :: 1 <= p < n ==> ps[p] == SlottedPages.View(v[Key(name, p)])
  {
    HeapTables.Views(seq(n, p requires 0 <= p < n => v[Key(name, p)]))
  }

  lemma PageReplaced(v: map<Key, PageData>, name: TableName, n: int, p: int, data: PageData)
    requires IsTable(v, name, n) && 1 <= p < n && SlottedPages.WellFormed(data)
    ensures IsTable(v[Key(name, p) := data], name, n)
    ensures TablePages(v[Key(name, p) := data], name, n) == TablePages(v, name, n)[p := SlottedPages.View(data)]
  {
    hide SlottedPages.WellFormed, SlottedPages.View;
    var pages := seq(n, q requires 0 <= q < n => v[Key(name, q)]);
    var w := v[Key(name, p) := data];
    assert IsTable(w, name, n);
    assert seq(n, q requires 0 <= q < n => w[Key(name, q)]) == pages[p := data];
    HeapTables.ViewsUpdate(pages, p, data);
  }

  lemma PageAdded(v: map<Key, PageData>, name: TableName, n: int, data: PageData)
    requires IsTable(v, name, n) && SlottedPages.WellFormed(data)
    ensures IsTable(v[Key(name, n) := data], name, n + 1)
    ensures TablePages(v[Key(name, n) := data], name, n + 1) == TablePages(v, name, n) + [SlottedPages.View(data)]
  {
    hide SlottedPages.WellFormed, SlottedPages.View;
    var pages := seq(n, q requires 0 <= q < n => v[Key(name, q)]);
    var w := v[Key(name, n) := data];
    assert IsTable(w, name, n + 1);
    assert seq(n + 1, q requires 0 <= q < n + 1 => w[Key(name, q)]) == pages + [data];
    HeapTables.ViewsAppend(pages, data);
  }

  /** Between two operations: nothing is held, and the pool shows a flat store. */
  ghost predicate Serving(bm: BufferManager)
    reads bm, bm.frames, bm.table, bm.table.buckets, bm.table.model.nodes
  {
    bm.Valid() && Coherent(bm.State(), Idle)
  }

  ghost function Store(bm: BufferManager): map<Key, PageData>
    requires Serving(bm)
    reads bm, bm.frames, bm.table, bm.table.buckets, bm.table.model.nodes
  {
    View(bm.State())
  }

  /** Fetch a page, try insert_row on the bytes in its frame, and release it, dirty if the row went in. */
  method TryPage(bm: BufferManager, k: Key, row: seq<byte>) returns (slot: int, ghost data: PageData)
    requires Serving(bm) && bm.accessClock < LLONG_MAX - 1
    requires k in Store(bm) && SlottedPages.WellFormed(Store(bm)[k])
    modifies bm, bm.frames, bm.table, bm.table.buckets, bm.table.model.nodes
    ensures Serving(bm) && bm.accessClock <= old(bm.accessClock) + 1
    ensures fresh(bm.table.model.nodes - old(bm.table.model.nodes))
    ensures SlottedPages.WellFormed(data)
    ensures (SlottedPages.View(data), slot) == Insert(SlottedPages.View(old(Store(bm)[k])), row)
    ensures Store(bm) == if slot >= 0 then old(Store(bm))[k := data] else old(Store(bm))
  {
    hide BufferManager.Valid, Coherent, View, Write, SlottedPages.WellFormed, SlottedPages.View, Insert;
    var frame := Hold(bm, k);
    var bytes := bm.frames[frame].data;
    var page := new byte[PAGE_SIZE](i requires 0 <= i < PAGE_SIZE => bytes[i]);
    assert page[..] == bytes;
    slot := SlottedPages.InsertRow(page, row);
    data := page[..];
    if slot >= 0 {
      WriteTransparent(bm.State(), Holding(k, false), page[..]);
      bm.WritePage(k, frame, page[..]);
      Release(bm, k, true, true);
    } else {
      Release(bm, k, false, false);
    }
  }

  /** write_page of a page that does not exist yet. */
  method WriteNewPage(bm: BufferManager, k: Key, data: PageData)
    requires Serving(bm) && k !in Store(bm)
    modifies bm
    ensures Serving(bm) && bm.accessClock == old(bm.accessClock)
    ensures Store(bm) == old(Store(bm))[k := data]
  {
    hide PageTable.Valid, BufferManagers.Fits, NoneLaterThan;
    CachedExists(bm.State(), k);
    CreateTransparent(bm.State(), Idle, k, data);
    bm.disk := bm.disk[k := data];
  }

  /** write_page of an empty page at the end of a table. */
  method WriteEmptyPage(bm: BufferManager, k: Key) returns (ghost data: PageData)
    requires Serving(bm) && k !in Store(bm)
    modifies bm
    ensures Serving(bm) && bm.accessClock == old(bm.accessClock)
    ensures SlottedPages.WellFormed(data) && SlottedPages.View(data) == EMPTY_PAGE
    ensures Store(bm) == old(Store(bm))[k := data]
  {
    hide SlottedPages.WellFormed, SlottedPages.View, BufferManager.Valid, Coherent, View;
    var page := new byte[PAGE_SIZE];
    SlottedPages.InitPage(page);
    data := page[..];
    WriteNewPage(bm, k, page[..]);
  }

  lemma CachedExists(m: Manager, k: Key)
    requires Coherent(m, Idle)
    ensures k in m.table ==> k in m.disk
  {
    if k in m.table {
      assert Faithful(m, Idle, m.frames[m.table[k]]);
    }
  }

  /** The store of every other table is as it was. */
  ghost predicate OthersKept(v: map<Key, PageData>, w: map<Key, PageData>, name: TableName) {
    forall k: Key :: k.table != name ==> (k in w <==> k in v) && (k in v ==> w[k] == v[k])
  }

  /** The page loop of heap_insert_bm_indexed with its last resort, a new page at the end of the file. */
  method StoreRow(bm: BufferManager, name: TableName, numPages: int, row: seq<byte>)
    returns (p: int, slot: int, newNumPages: int)
    requires Serving(bm) && IsTable(Store(bm), name, numPages)
    requires bm.accessClock + numPages + 1 < LLONG_MAX
    modifies bm, bm.frames, bm.table, bm.table.buckets, bm.table.model.nodes
    ensures Serving(bm)
    ensures fresh(bm.table.model.nodes - old(bm.table.model.nodes))
    ensures IsTable(Store(bm), name, newNumPages)
    ensures HeapModel.Place(TablePages(Store(bm), name, newNumPages), p, slot)
         == HeapModel.PutRow(old(TablePages(Store(bm), name, numPages)), row)
    ensures OthersKept(old(Store(bm)), Store(bm), name)
  {
    hide Serving, Store, IsTable, TablePages, SlottedPages.WellFormed, SlottedPages.View, PageModel.Fits, Insert;
    ghost var v := Store(bm);
    ghost var pages := TablePages(v, name, numPages);
    ghost var fit := HeapModel.FirstFit(pages, |row|, 1);
    ghost var data;
    newNumPages := numPages;
    for i := 1 to numPages
      invariant Serving(bm) && bm.accessClock < old(bm.accessClock) + i
      invariant fresh(bm.table.model.nodes - old(bm.table.model.nodes))
      invariant Store(bm) == v && i <= fit
    {
      TablePage(v, name, numPages, i);
      slot, data := TryPage(bm, Key(name, i), row);
      InsertFits(pages[i], row);
      if slot >= 0 {
        PageReplaced(v, name, numPages, i, data);
        return i, slot, numPages;
      }
    }
    TablePage(v, name, numPages, numPages);
    data := WriteEmptyPage(bm, Key(name, numPages));
    PageAdded(v, name, numPages, data);
    ghost var w := Store(bm);
    newNumPages := numPages + 1;
    p := numPages;
    TablePage(w, name, newNumPages, p);
    slot, data := TryPage(bm, Key(name, p), row);
    InsertFits(EMPTY_PAGE, row);
    if slot >= 0 {
      PageReplaced(w, name, newNumPages, p, data);
      assert (pages + [EMPTY_PAGE])[p := Insert(EMPTY_PAGE, row).0] == pages + [Insert(EMPTY_PAGE, row).0];
    }
  }

  lemma InsertFits(page: Page, row: seq<byte>)
    ensures Insert(page, row).1 >= 0 <==> PageModel.Fits(page, |row|)
    ensures Insert(page, row).1 < 0 ==> Insert(page, row) == (page, -1)
  {
  }

  lemma TablePage(v: map<Key, PageData>, name: TableName, n: int, p: int)
    requires IsTable(v, name, n)
    ensures 1 <= p < n ==>
              && Key(name, p) in v && SlottedPages.WellFormed(v[Key(name, p)])
              && SlottedPages.View(v[Key(name, p)]) == TablePages(v, name, n)[p]
    ensures p >= n ==> Key(name, p) !in v
  {
    if 1 <= p < n {
      assert TablePages(v, name, n)[p] == SlottedPages.View(v[Key(name, p)]);
    }
  }

  /** delete_row on the bytes of a page, if the slot holds a row. */
  method DeleteInBytes(bytes: PageData, slot: nat) returns (row: seq<byte>, data: PageData)
    requires SlottedPages.WellFormed(bytes)
    requires var ss := SlottedPages.View(bytes).slots; slot < |ss| ==> !ss[slot].Redirect?
    ensures SlottedPages.WellFormed(data)
    ensures var v := SlottedPages.View(bytes);
            && row == (if slot < |v.slots| && v.slots[slot].Normal? then v.slots[slot].row else [])
            && (row == [] ==> data == bytes)
            && SlottedPages.View(data) == if row == [] then v else Delete(v, slot)
  {
    hide SlottedPages.WellFormed, SlottedPages.View;
    data := bytes;
    var page := new byte[PAGE_SIZE](i requires 0 <= i < PAGE_SIZE => bytes[i]);
    assert page[..] == bytes;
    row := SlottedPages.CopyRow(page, slot);
    if row != [] {
      SlottedPages.DeleteRow(page, slot);
      data := page[..];
    }
  }

  /** heap_delete_row_bm on one page: fetch it, take the row of a slot out of the index and out of the
      page, and release the page dirty, or clean if there was no row. */
  method DeleteFromPage(bm: BufferManager, schema: Schema, index: BTreeFile.BTree, k: Key, slot: nat)
    returns (row: seq<byte>, ghost data: PageData)
    requires Serving(bm) && bm.accessClock < LLONG_MAX - 1 && index.Valid()
    requires k in Store(bm) ==> SlottedPages.WellFormed(Store(bm)[k])
    requires k in Store(bm) ==>
               var ss := SlottedPages.View(Store(bm)[k]).slots; slot < |ss| ==> !ss[slot].Redirect?
    modifies bm, bm.frames, bm.table, bm.table.buckets, bm.table.model.nodes, index
    ensures Serving(bm) && fresh(bm.table.model.nodes - old(bm.table.model.nodes))
    ensures index.Valid() && bm.accessClock <= old(bm.accessClock) + 1
    ensures k !in old(Store(bm)) ==> row == []
    ensures row == [] ==> Store(bm) == old(Store(bm)) && index.contents == old(index.contents)
    ensures k in old(Store(bm)) ==>
              var v := SlottedPages.View(old(Store(bm)[k]));
              && row == (if slot < |v.slots| && v.slots[slot].Normal? then v.slots[slot].row else [])
              && (row != [] ==>
                    && SlottedPages.WellFormed(data) && SlottedPages.View(data) == Delete(v, slot)
                    && Store(bm) == old(Store(bm))[k := data]
                    && index.contents ==
                         var key := HeapModel.PkOf(schema, row);
                         if key.Some? then old(index.contents) - {key.value} else old(index.contents))
  {
    hide BufferManager.Valid, Coherent, View, Write, SlottedPages.WellFormed, SlottedPages.View, Delete, BTreeFile.BTree.Valid,
         HeapModel.PkOf;
    row, data := [], Zeros(PAGE_SIZE);
    var frame := Hold(bm, k);
    if frame < 0 {
      return;
    }
    var bytes;
    row, bytes := DeleteInBytes(bm.frames[frame].data, slot);
    if row == [] {
      Release(bm, k, false, false);
      return;
    }
    HeapTables.TryIndexDelete(schema, index, row);
    data := bytes;
    WriteTransparent(bm.State(), Holding(k, false), bytes);
    bm.WritePage(k, frame, bytes);
    Release(bm, k, true, true);
  }

  /** The slot loop of handler_scan on a page held in the pool. */
  method ScanHeld(bm: BufferManager, k: Key, p: int) returns (rows: seq<HotModel.ScannedRow>)
    requires Serving(bm) && bm.accessClock < LLONG_MAX - 1
    requires k in Store(bm) && SlottedPages.WellFormed(Store(bm)[k])
    modifies bm, bm.frames, bm.table, bm.table.buckets, bm.table.model.nodes
    ensures Serving(bm) && fresh(bm.table.model.nodes - old(bm.table.model.nodes))
    ensures Store(bm) == old(Store(bm)) && bm.accessClock <= old(bm.accessClock) + 1
    ensures var v := SlottedPages.View(old(Store(bm)[k])); rows == HotModel.ScanSlots(v, p, |v.slots|)
  {
    hide BufferManager.Valid, Coherent, View, SlottedPages.WellFormed, SlottedPages.View, HotModel.ScanSlots;
    var frame := Hold(bm, k);
    var bytes := bm.frames[frame].data;
    var page := new byte[PAGE_SIZE](i requires 0 <= i < PAGE_SIZE => bytes[i]);
    assert page[..] == bytes;
    rows := HeapTables.ScanPage(page, p);
    Release(bm, k, false, false);
  }

  /** The slot loop of handler_delete on a page held in the pool. */
  method CollectHeld(bm: BufferManager, k: Key, p: int, chosen: seq<byte> -> bool) returns (ids: seq<int>)
    requires Serving(bm) && bm.accessClock < LLONG_MAX - 1
    requires k in Store(bm) && SlottedPages.WellFormed(Store(bm)[k])
    requires var v := SlottedPages.View(Store(bm)[k]); forall s :: 0 <= s < |v.slots| ==> !v.slots[s].Redirect?
    modifies bm, bm.frames, bm.table, bm.table.buckets, bm.table.model.nodes
    ensures Serving(bm) && fresh(bm.table.model.nodes - old(bm.table.model.nodes))
    ensures Store(bm) == old(Store(bm)) && bm.accessClock <= old(bm.accessClock) + 1
    ensures var v := SlottedPages.View(old(Store(bm)[k])); ids == HeapModel.CollectSlots(v, p, |v.slots|, chosen)
  {
    hide BufferManager.Valid, Coherent, View, SlottedPages.WellFormed, SlottedPages.View, HeapModel.CollectSlots;
    var frame := Hold(bm, k);
    var bytes := bm.frames[frame].data;
    var page := new byte[PAGE_SIZE](i requires 0 <= i < PAGE_SIZE => bytes[i]);
    assert page[..] == bytes;
    ids := HeapTables.CollectFromPage(page, p, chosen);
    Release(bm, k, false, false);
  }
}
