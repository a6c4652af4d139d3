/** The steps of `handler_update` on the buffer manager object that hold one page at a time: the redirect
    loop, which releases a page before it fetches the next, and the update within a page. */
module PooledRedirects {
  import opened PoolModel
  import opened PageModel
  import opened RowIds
  import opened BufferModel
  import opened BufferManagers
  import opened Transparency
  import opened PageAccess
  import opened PooledHeap
  import HeapModel
  import HeapTables
  import HotModel
  import SlottedPages

  /** Page p of the table is held in a frame of a pool that shows v, and is the page used last. */
  ghost predicate Holds(bm: BufferManager, name: TableName, v: map<Key, PageData>, p: int, frame: int)
    reads bm, bm.frames, bm.table, bm.table.buckets, bm.table.model.nodes
  {
    var k := Key(name, p);
    && bm.Valid() && Coherent(bm.State(), Holding(k, false)) && View(bm.State()) == v
    && k in bm.table.model.contents && bm.table.model.contents[k] == frame
    && 0 <= frame < bm.frames.Length && k in v && bm.frames[frame].data == v[k]
    && JustUsed(bm.State(), frame)
  }

  /** bm_fetch_page of a page of the table, with empty hands. */
  method HoldPage(bm: BufferManager, name: TableName, p: int) returns (frame: int)
    requires Serving(bm) && bm.accessClock < LLONG_MAX - 1
    modifies bm, bm.frames, bm.table, bm.table.buckets, bm.table.model.nodes
    ensures fresh(bm.table.model.nodes - old(bm.table.model.nodes)) && bm.accessClock <= old(bm.accessClock) + 1
    ensures frame >= 0 <==> Key(name, p) in old(Store(bm))
    ensures if frame >= 0 then Holds(bm, name, old(Store(bm)), p, frame) else Serving(bm) && Store(bm) == old(Store(bm))
  {
    hide BufferManager.Valid, Coherent, View, JustUsed;
    frame := Hold(bm, Key(name, p));
  }

  method ReleasePage(bm: BufferManager, name: TableName, ghost v: map<Key, PageData>, p: int, ghost frame: int)
    requires Holds(bm, name, v, p, frame)
    modifies bm.frames
    ensures Serving(bm) && Store(bm) == v
  {
    hide BufferManager.Valid, Coherent, View, JustUsed;
    Release(bm, Key(name, p), false, false);
  }

  /** The page held gets new bytes and is released dirty. */
  method RewritePage(bm: BufferManager, name: TableName, ghost v: map<Key, PageData>, p: int, frame: int, data: PageData)
    requires Holds(bm, name, v, p, frame)
    modifies bm.frames
    ensures Serving(bm) && Store(bm) == v[Key(name, p) := data]
  {
    hide BufferManager.Valid, Coherent, View, Write, JustUsed;
    WriteTransparent(bm.State(), Holding(Key(name, p), false), data);
    bm.WritePage(Key(name, p), frame, data);
    Release(bm, Key(name, p), true, true);
  }

  /** The state and the target of a slot. */
  method LookAt(bytes: PageData, slot: int) returns (found: bool, state: int, target: int)
    requires SlottedPages.WellFormed(bytes) && slot >= 0
    ensures found <==> slot < |SlottedPages.View(bytes).slots|
    ensures found ==> match SlottedPages.View(bytes).slots[slot]
                      case Normal(_) => state == SlottedPages.SLOT_NORMAL
                      case Deleted => state == SlottedPages.SLOT_DELETED
                      case Redirect(t) => state == SlottedPages.SLOT_REDIRECT && target == t
  {
    hide SlottedPages.WellFormed, SlottedPages.View;
    var page := new byte[PAGE_SIZE](i requires 0 <= i < PAGE_SIZE => bytes[i]);
    assert page[..] == bytes;
    state, target := 0, 0;
    var numSlots := SlottedPages.LoadInt(page, 0);
    found := slot < numSlots;
    if found {
      state := SlottedPages.ReadState(page, slot);
      if state == SlottedPages.SLOT_REDIRECT {
        target := SlottedPages.ReadTarget(page, slot);
      }
    }
  }

  /** The redirect loop has come to slot `slot` of page p, which is held. */
  ghost predicate Standing(bm: BufferManager, name: TableName, n: int, v: map<Key, PageData>, p: int, slot: int, frame: int)
    reads bm, bm.frames, bm.table, bm.table.buckets, bm.table.model.nodes
  {
    IsTable(v, name, n) && Holds(bm, name, v, p, frame) && HeapModel.Exists(TablePages(v, name, n), p, slot)
  }

  /** One hop of the redirect loop: from page p to the slot that a target names. */
  method Hop(bm: BufferManager, name: TableName, ghost n: int, ghost v: map<Key, PageData>, p: int, frame: int, target: int)
    returns (ok: bool, next: int)
    requires IsTable(v, name, n) && 1 <= p < n && Holds(bm, name, v, p, frame) && bm.accessClock < LLONG_MAX - 1
    modifies bm, bm.frames, bm.table, bm.table.buckets, bm.table.model.nodes
    ensures fresh(bm.table.model.nodes - old(bm.table.model.nodes)) && bm.accessClock <= old(bm.accessClock) + 1
    ensures ok <==> HeapModel.Exists(TablePages(v, name, n), PageOf(target), SlotOf(target))
    ensures if ok then Standing(bm, name, n, v, PageOf(target), SlotOf(target), next) else Serving(bm) && Store(bm) == v
  {
    hide Holds, Serving, Store, IsTable, TablePages, SlottedPages.WellFormed, SlottedPages.View, PageOf, SlotOf;
    var q := PageOf(target);
    next := frame;
    TablePage(v, name, n, q);
    if q != p {
      ReleasePage(bm, name, v, p, frame);
      if q <= 0 {
        return false, -1;
      }
      next := HoldPage(bm, name, q);
      if next < 0 {
        return false, -1;
      }
    }
    HeldBytes(bm, name, v, q, next);
    var state, t;
    ok, state, t := LookAt(bm.frames[next].data, SlotOf(target));
    if !ok {
      ReleasePage(bm, name, v, q, next);
    }
  }

  lemma HeldBytes(bm: BufferManager, name: TableName, v: map<Key, PageData>, p: int, frame: int)
    requires Holds(bm, name, v, p, frame)
    ensures 0 <= frame < bm.frames.Length && Key(name, p) in v && bm.frames[frame].data == v[Key(name, p)]
  {
  }

  /** What the loop finds where it stands. */
  method LookHeld(bm: BufferManager, name: TableName, ghost n: int, ghost v: map<Key, PageData>, p: int, slot: int, frame: int)
    returns (redirect: bool, target: int)
    requires Standing(bm, name, n, v, p, slot, frame)
    ensures Standing(bm, name, n, v, p, slot, frame)
    ensures var s := TablePages(v, name, n)[p].slots[slot];
            redirect == s.Redirect? && (redirect ==> target == s.target)
  {
    hide BufferManager.Valid, Coherent, View, JustUsed, IsTable, TablePages, SlottedPages.WellFormed, SlottedPages.View;
    TablePage(v, name, n, p);
    var found, state;
    found, state, target := LookAt(bm.frames[frame].data, slot);
    redirect := state == SlottedPages.SLOT_REDIRECT;
  }

  /** The redirect loop of handler_update, from slot startSlot of page startPage, which is held. */
  method FollowRedirects(bm: BufferManager, name: TableName, ghost n: int, ghost v: map<Key, PageData>,
                         startPage: int, startSlot: int, startFrame: int)
    returns (landed: bool, p: int, slot: int, frame: int)
    requires Standing(bm, name, n, v, startPage, startSlot, startFrame) && bm.accessClock + 65 < LLONG_MAX
    modifies bm, bm.frames, bm.table, bm.table.buckets, bm.table.model.nodes
    ensures fresh(bm.table.model.nodes - old(bm.table.model.nodes)) && bm.accessClock <= old(bm.accessClock) + 64
    ensures HotModel.Follow(TablePages(v, name, n), startPage, startSlot, 0) ==
              if landed then HotModel.Landed(p, slot) else HotModel.Lost
    ensures if landed then Standing(bm, name, n, v, p, slot, frame) else Serving(bm) && Store(bm) == v
  {
    hide Holds, Serving, Store, IsTable, TablePages, PageOf, SlotOf, HotModel.Follow;
    ghost var pages := TablePages(v, name, n);
    p, slot, frame := startPage, startSlot, startFrame;
    var depth := 0;
    while true
      invariant depth <= HotModel.MAX_HOPS && Standing(bm, name, n, v, p, slot, frame)
      invariant fresh(bm.table.model.nodes - old(bm.table.model.nodes)) && bm.accessClock <= old(bm.accessClock) + depth
      invariant HotModel.Follow(pages, p, slot, depth) == HotModel.Follow(pages, startPage, startSlot, 0)
      decreases HotModel.MAX_HOPS - depth
    {
      HeapTables.FollowHop(pages, p, slot, depth);
      var redirect, target := LookHeld(bm, name, n, v, p, slot, frame);
      if !redirect {
        return true, p, slot, frame;
      }
      depth := depth + 1;
      if depth > HotModel.MAX_HOPS {
        ReleasePage(bm, name, v, p, frame);
        return false, 0, 0, -1;
      }
      var ok, next := Hop(bm, name, n, v, p, frame, target);
      if !ok {
        return false, 0, 0, -1;
      }
      p, slot, frame := PageOf(target), SlotOf(target), next;
    }
  }

  /** The update of a slot within its page, if the new row fits there. */
  method UpdateOnPage(bytes: PageData, p: int, s: int, row: seq<byte>) returns (done: bool, data: PageData)
    requires SlottedPages.WellFormed(bytes) && 0 <= s < |SlottedPages.View(bytes).slots|
    requires !SlottedPages.View(bytes).slots[s].Redirect?
    ensures var v := SlottedPages.View(bytes);
            var same, r := v.slots[s].Normal? && |v.slots[s].row| == |row|, Insert(v, row);
            && done == (same || r.1 >= 0)
            && (done ==>
                  && SlottedPages.WellFormed(data)
                  && r.1 < 65536 && s < |r.0.slots|
                  && SlottedPages.View(data) ==
                       if same then v.(slots := v.slots[s := Normal(row)])
                       else r.0.(slots := r.0.slots[s := Redirect(EncodeRowId(p, r.1))]))
  {
    hide SlottedPages.WellFormed, SlottedPages.View, EncodeRowId;
    ghost var v := SlottedPages.View(bytes);
    InsertMeaning(v, row);
    Capacity(v, |row|);
    data := bytes;
    var page := new byte[PAGE_SIZE](i requires 0 <= i < PAGE_SIZE => bytes[i]);
    assert page[..] == bytes;
    var size := SlottedPages.GetRowSize(page, s);
    if size == |row| {
      SlottedPages.OverwriteRow(page, s, row);
      return true, page[..];
    }
    var slot := SlottedPages.InsertRow(page, row);
    if slot < 0 {
      return false, bytes;
    }
    RowIdIsInt(p, slot);
    SlottedPages.SetRedirect(page, s, EncodeRowId(p, slot));
    return true, page[..];
  }

  /** The first half of handler_update: hold the page of the slot that a RowID leads to. */
  method FindSlot(bm: BufferManager, name: TableName, ghost n: int, ghost pages: seq<Page>, rowId: int)
    returns (landed: bool, p: int, slot: int, frame: int)
    requires Serving(bm) && IsTable(Store(bm), name, n) && pages == TablePages(Store(bm), name, n)
    requires bm.accessClock + 70 < LLONG_MAX
    modifies bm, bm.frames, bm.table, bm.table.buckets, bm.table.model.nodes
    ensures fresh(bm.table.model.nodes - old(bm.table.model.nodes)) && bm.accessClock <= old(bm.accessClock) + 65
    ensures HotModel.LandingOf(pages, rowId) == if landed then HotModel.Landed(p, slot) else HotModel.Lost
    ensures if landed then Standing(bm, name, n, old(Store(bm)), p, slot, frame)
            else Serving(bm) && Store(bm) == old(Store(bm))
  {
    hide Holds, Serving, Store, IsTable, TablePages, SlottedPages.WellFormed, SlottedPages.View, PageOf, SlotOf, HotModel.Follow;
    ghost var v := Store(bm);
    landed, p, slot, frame := false, PageOf(rowId), SlotOf(rowId), -1;
    if p <= 0 {
      return;
    }
    TablePage(v, name, n, p);
    frame := HoldPage(bm, name, p);
    if frame < 0 {
      return;
    }
    HeldBytes(bm, name, v, p, frame);
    var found, state, target := LookAt(bm.frames[frame].data, slot);
    if !found || state == SlottedPages.SLOT_DELETED {
      ReleasePage(bm, name, v, p, frame);
      return;
    }
    landed, p, slot, frame := FollowRedirects(bm, name, n, v, p, slot, frame);
  }

  /** HotModel's update, when the row stays on its page. */
  lemma WithinPage(pages: seq<Page>, p: int, s: int, row: seq<byte>)
    requires HeapModel.AllRoomy(pages) && HeapModel.Exists(pages, p, s) && !pages[p].slots[s].Redirect?
    ensures var was, r := pages[p].slots[s], Insert(pages[p], row);
            var same := was.Normal? && |was.row| == |row|;
            same || r.1 >= 0 ==>
              && r.1 < 65536 && s < |r.0.slots|
              && HotModel.Overwrite(pages, p, s, row) ==
                   (pages[p := if same then pages[p].(slots := pages[p].slots[s := Normal(row)])
                               else r.0.(slots := r.0.slots[s := Redirect(EncodeRowId(p, r.1))])], HotModel.Updated)
  {
    hide EncodeRowId, Insert, HeapModel.PutRow;
    HotModel.RelocateMeaning(pages, p, row);
    InsertMeaning(pages[p], row);
    var (page, slot) := Insert(pages[p], row);
    if slot >= 0 {
      var linked := page.(slots := page.slots[s := Redirect(EncodeRowId(p, slot))]);
      assert pages[p := page][p := linked] == pages[p := linked];
    }
  }

  /** The branches of handler_update that stay within the page held. */
  method UpdateWithin(bm: BufferManager, name: TableName, ghost n: int, ghost v: map<Key, PageData>, ghost pages: seq<Page>,
                      p: int, s: int, frame: int, row: seq<byte>)
    returns (done: bool)
    requires Standing(bm, name, n, v, p, s, frame) && pages == TablePages(v, name, n) && !pages[p].slots[s].Redirect?
    modifies bm.frames
    ensures HeapModel.Exists(pages, p, s)
    ensures done <==> (pages[p].slots[s].Normal? && |pages[p].slots[s].row| == |row|) || Insert(pages[p], row).1 >= 0
    ensures done ==>
              && Serving(bm) && IsTable(Store(bm), name, n)
              && (TablePages(Store(bm), name, n), HotModel.Updated) == HotModel.Overwrite(pages, p, s, row)
    ensures !done ==> bm.State() == old(bm.State()) && Holds(bm, name, v, p, frame)
  {
    hide BufferManager.Valid, Coherent, View, JustUsed, IsTable, TablePages, SlottedPages.WellFormed, SlottedPages.View, Insert, EncodeRowId,
         HotModel.Overwrite;
    TablePage(v, name, n, p);
    HeldBytes(bm, name, v, p, frame);
    WithinPage(pages, p, s, row);
    var data;
    done, data := UpdateOnPage(bm.frames[frame].data, p, s, row);
    if done {
      RewritePage(bm, name, v, p, frame, data);
      PageReplaced(v, name, n, p, data);
    }
  }
}
