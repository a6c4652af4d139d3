/** What HeldUpdate says about flat stores is what HotModel says about the pages of a table. */
module PooledUpdate {
  import opened PoolModel
  import opened PageModel
  import opened RowIds
  import opened HeapModel
  import opened PooledHeap
  import opened HeldUpdate
  import HotModel
  import SlottedPages

  /** The edits of an UPDATE that moves a row: insert_row, init_page, and the redirect of slot s. */
  ghost predicate EditsPages(e: Edits, row: seq<byte>, s: int) {
    hide SlottedPages.WellFormed, SlottedPages.View, Insert;
    && SlottedPages.WellFormed(e.blank) && SlottedPages.View(e.blank) == EMPTY_PAGE
    && (forall d: PageData :: SlottedPages.WellFormed(d) ==>
          var (page, slot) := Insert(SlottedPages.View(d), row);
          && e.put(d).1 == slot
          && (slot >= 0 ==> SlottedPages.WellFormed(e.put(d).0) && SlottedPages.View(e.put(d).0) == page))
    && (forall d: PageData, q: int, slot: SlotNumber :: SlottedPages.WellFormed(d) && slot >= 0 && 0 <= s < |SlottedPages.View(d).slots| ==>
          && SlottedPages.WellFormed(e.link(d, q, slot))
          && SlottedPages.View(e.link(d, q, slot)) ==
               SlottedPages.View(d).(slots := SlottedPages.View(d).slots[s := Redirect(EncodeRowId(q, slot))]))
  }

  lemma SlotSmall(d: PageData, row: seq<byte>)
    requires SlottedPages.WellFormed(d)
    ensures -1 <= SlottedPages.InsertedBytes(d, row).1 < 65536
  {
    hide SlottedPages.WellFormed, SlottedPages.View, SlottedPages.StoredBytes;
    Capacity(SlottedPages.View(d), |row|);
  }

  /** insert_row on bytes. */
  ghost function PutBytes(d: PageData, row: seq<byte>): (PageData, SlotNumber) {
    if SlottedPages.WellFormed(d) then
      SlotSmall(d, row);
      SlottedPages.InsertedBytes(d, row)
    else (d, -1)
  }

  /** The redirect write of handler_update to slot entry s of the page at a pointer, whatever it is. */
  ghost function LinkBytes(d: PageData, s: int, q: int, slot: SlotNumber): PageData {
    if SlottedPages.InDirectory(s) && slot >= 0 then
      RowIdIsInt(q, slot);
      SlottedPages.EntryBytes(d, s, SlottedPages.SLOT_REDIRECT, EncodeRowId(q, slot))
    else d
  }

  /** The edits of handler_update, on bytes. */
  ghost function PageEdits(row: seq<byte>, s: int): (e: Edits)
    ensures e.blank == SlottedPages.BlankBytes()
  {
    Edits((d: PageData) => PutBytes(d, row),
          (d: PageData, q: int, slot: SlotNumber) => LinkBytes(d, s, q, slot),
          SlottedPages.BlankBytes())
  }

  /** They mean what HotModel says of them. */
  lemma PageEditsMeaning(row: seq<byte>, s: int)
    ensures EditsPages(PageEdits(row, s), row, s)
  {
    hide SlottedPages.WellFormed, SlottedPages.View, SlottedPages.InsertedBytes, SlottedPages.EntryBytes, Insert, EncodeRowId;
    SlottedPages.BlankBytesMeaning();
    forall d: PageData | SlottedPages.WellFormed(d)
      ensures SlottedPages.InsertedBytes(d, row).1 == Insert(SlottedPages.View(d), row).1
      ensures var (t, slot) := SlottedPages.InsertedBytes(d, row);
              slot >= 0 ==> SlottedPages.WellFormed(t) && SlottedPages.View(t) == Insert(SlottedPages.View(d), row).0
    {
      SlottedPages.InsertedBytesMeaning(d, row);
    }
    forall d: PageData, q: int, slot: SlotNumber | SlottedPages.WellFormed(d) && slot >= 0 && 0 <= s < |SlottedPages.View(d).slots|
      ensures SlottedPages.WellFormed(LinkBytes(d, s, q, slot))
      ensures SlottedPages.View(LinkBytes(d, s, q, slot)) ==
                SlottedPages.View(d).(slots := SlottedPages.View(d).slots[s := Redirect(EncodeRowId(q, slot))])
    {
      RowIdIsInt(q, slot);
      SlottedPages.RedirectBytes(d, s, EncodeRowId(q, slot));
    }
  }

  /** The pages of the table after the insert ended on page q. */
  function PagesAfter(n: int, q: int): int {
    if q < n then n else n + 1
  }

  lemma {:induction false} FlatPlaceIsPutRow(v: map<Key, PageData>, name: TableName, p: int, n: int, e: Edits, row: seq<byte>, s: int)
    requires IsTable(v, name, n) && EditsPages(e, row, s)
    requires 1 <= p <= FirstFit(TablePages(v, name, n), |row|, 1)
    ensures var (w, q, slot) := FlatPlace(v, name, p, n, e);
            && IsTable(w, name, PagesAfter(n, q))
            && HeapModel.Place(TablePages(w, name, PagesAfter(n, q)), q, slot) == PutRow(TablePages(v, name, n), row)
    decreases n - p
  {
    hide IsTable, TablePages, SlottedPages.WellFormed, SlottedPages.View, PageModel.Fits, Insert;
    var pages, k := TablePages(v, name, n), Key(name, p);
    TablePage(v, name, n, p);
    if p < n {
      InsertFits(pages[p], row);
      if e.put(v[k]).1 >= 0 {
        PageReplaced(v, name, n, p, e.put(v[k]).0);
      } else {
        FlatPlaceIsPutRow(v, name, p + 1, n, e, row, s);
      }
    } else {
      PageAdded(v, name, n, e.blank);
      InsertFits(EMPTY_PAGE, row);
      if e.put(e.blank).1 >= 0 {
        PageAdded(v, name, n, e.put(e.blank).0);
        assert v[k := e.blank][k := e.put(e.blank).0] == v[k := e.put(e.blank).0];
      }
    }
  }

  /** UPDATE of a slot whose row moves to another page, on the flat store, is UPDATE on the pages of the
      table, and it is an update that HeldUpdate speaks of. */
  lemma FlatMoveIsOverwrite(v: map<Key, PageData>, name: TableName, n: int, p: int, s: int, e: Edits, row: seq<byte>)
    requires IsTable(v, name, n) && EditsPages(e, row, s)
    requires var pages := TablePages(v, name, n);
             && Exists(pages, p, s) && !pages[p].slots[s].Redirect? && Insert(pages[p], row).1 < 0
             && !(pages[p].slots[s].Normal? && |pages[p].slots[s].row| == |row|)
    ensures Scene(v, Key(name, p), 1, n, e) && Links(e, v[Key(name, p)])
    ensures var pages := TablePages(v, name, n);
            var (qs, answer) := HotModel.Overwrite(pages, p, s, row);
            var w := FlatMove(v, Key(name, p), n, e);
            && IsTable(w, name, |qs|) && TablePages(w, name, |qs|) == qs
            && (answer == HotModel.OutOfSpace <==> FlatPlace(v, name, 1, n, e).2 < 0)
            && |qs| == PagesAfter(n, FlatPlace(v, name, 1, n, e).1)
  {
    hide SlottedPages.WellFormed, SlottedPages.View, EncodeRowId, Insert, PageModel.Fits, PutRow;
    var h, pages := Key(name, p), TablePages(v, name, n);
    TablePage(v, name, n, p);
    TablePage(v, name, n, n);
    FlatPlaceIsPutRow(v, name, 1, n, e, row, s);
    FlatPlaceFails(v, h, 1, n, e);
    HotModel.RelocateMeaning(pages, p, row);
    var (w, q, slot) := FlatPlace(v, name, 1, n, e);
    if slot >= 0 {
      TablePage(w, name, PagesAfter(n, q), p);
      PageReplaced(w, name, PagesAfter(n, q), p, e.link(w[h], q, slot));
    }
  }
}
