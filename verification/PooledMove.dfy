/** The moving branch of `handler_update` on the buffer manager object: heap_insert_bm runs while a page
    is held, and the redirect is written through the old pointer.  Whatever the pool evicts, this is the
    transition that HeldUpdate speaks of, under the strategy of the pool's own policy. */
module PooledMoves {
  import opened PoolModel
  import opened EvictionPolicies
  import opened BufferModel
  import opened AccessRuns
  import opened BufferManagers
  import opened Transparency
  import opened HeldUpdate
  import opened HeldPolicies
  import opened PageModel
  import opened PooledHeap
  import opened PooledUpdate
  import HotModel
  import RowIds
  import HeapModel
  import PageAccess
  import PageTables
  import SlottedPages

  lemma SameFetch(m: Manager, k: Key, ch: Choice)
    requires Mapped(m) && PolicyChoice(m, k, ch)
    ensures FetchVia(m, k, ch) == FetchVia(m, k, PolicyPick()(m, k))
  {
  }

  /** bm_fetch_page, whatever else is held. */
  method FetchAny(bm: BufferManager, k: Key, ghost held: multiset<Key>) returns (frame: int)
    requires bm.Valid() && bm.accessClock < LLONG_MAX - 1 && Books(bm.State(), held) && k in View(bm.State())
    modifies bm, bm.frames, bm.table, bm.table.buckets, bm.table.model.nodes
    ensures bm.Valid() && fresh(bm.table.model.nodes - old(bm.table.model.nodes))
    ensures bm.accessClock <= old(bm.accessClock) + 1
    ensures (bm.State(), frame) == FetchVia(old(bm.State()), k, PolicyPick()(old(bm.State()), k))
    ensures frame >= 0 ==>
              && frame < bm.frames.Length && bm.frames[frame].data == old(View(bm.State())[k])
              && k in bm.table.model.contents && bm.table.model.contents[k] == frame
  {
    hide BufferManager.Valid, Books, View, FetchVia, PolicyPick;
    PageAccess.PoolNotEmpty(bm);
    ghost var m := bm.State();
    ghost var ch;
    frame, ch := bm.FetchPage(k);
    SameFetch(m, k, ch);
    ViewKeys(m);
    FetchBooks(m, held, k, PolicyPick()(m, k));
    FetchKeepsMapped(m, k, PolicyPick()(m, k));
    FetchClock(m, k, PolicyPick()(m, k));
  }

  /** insert_row on the page in a frame, and its release. */
  method TryRow(bm: BufferManager, k: Key, frame: int, row: seq<byte>, ghost s: int) returns (slot: int)
    requires bm.Valid() && k in bm.table.model.contents && bm.table.model.contents[k] == frame
    requires 0 <= frame < bm.frames.Length && SlottedPages.WellFormed(bm.frames[frame].data)
    modifies bm.frames
    ensures bm.Valid() && (bm.State(), slot) == Try(old(bm.State()), k, PageEdits(row, s))
  {
    hide BufferManager.Valid, Mapped, Unpin, Write, SlottedPages.WellFormed, SlottedPages.View;
    PageAccess.PoolNotEmpty(bm);
    var bytes := bm.frames[frame].data;
    var page := new byte[PAGE_SIZE](i requires 0 <= i < PAGE_SIZE => bytes[i]);
    assert page[..] == bytes;
    slot := SlottedPages.InsertRow(page, row);
    if slot >= 0 {
      bm.WritePage(k, frame, page[..]);
      var rc := bm.UnpinPage(k, true);
    } else {
      var rc := bm.UnpinPage(k, false);
    }
  }

  /** One round of the page loop of heap_insert_bm, whatever else is held. */
  method VisitPage(bm: BufferManager, k: Key, row: seq<byte>, ghost s: int, ghost held: multiset<Key>)
    returns (slot: int)
    requires bm.Valid() && bm.accessClock < LLONG_MAX - 1 && Books(bm.State(), held)
    requires k in View(bm.State()) && SlottedPages.WellFormed(View(bm.State())[k])
    modifies bm, bm.frames, bm.table, bm.table.buckets, bm.table.model.nodes
    ensures bm.Valid() && fresh(bm.table.model.nodes - old(bm.table.model.nodes))
    ensures bm.accessClock <= old(bm.accessClock) + 1
    ensures (bm.State(), slot) == Visit(old(bm.State()), k, PolicyPick()(old(bm.State()), k), PageEdits(row, s))
  {
    hide BufferManager.Valid, Books, View, FetchVia, Try, PolicyPick, SlottedPages.WellFormed;
    var frame := FetchAny(bm, k, held);
    slot := -1;
    if frame >= 0 {
      slot := TryRow(bm, k, frame, row, s);
    }
  }

  lemma FetchClock(m: Manager, k: Key, ch: Choice)
    requires Mapped(m) && Legal(m.frames, ch)
    ensures FetchVia(m, k, ch).0.clock <= m.clock + 1
  {
  }

  /** During the nested insert page h is held in frame f or has been given up. */
  ghost predicate Underway(m: Manager, h: Key, f: int) {
    StillHeld(m, h, f) || Lost(m, h)
  }

  ghost function HeldBy(m: Manager, h: Key, f: int): (held: multiset<Key>)
    requires Underway(m, h, f)
    ensures Books(m, held) && Mapped(m)
  {
    if StillHeld(m, h, f) then multiset{h} else multiset{}
  }

  lemma VisitUnderway(m: Manager, h: Key, f: int, k: Key, ch: Choice, e: Edits)
    requires Underway(m, h, f) && Legal(m.frames, ch) && |m.frames| > 0 && k in View(m) && h in View(m)
    requires e.put(View(m)[h]).1 < 0
    ensures var (n, slot) := Visit(m, k, ch, e);
            Underway(n, h, f) && (slot < 0 ==> View(n) == View(m))
  {
    hide Books, Mapped, View, Visit;
    if StillHeld(m, h, f) {
      VisitHeld(m, h, f, k, ch, e);
    } else {
      VisitLost(m, h, k, ch, e);
    }
  }

  /** write_page of the empty page behind the table. */
  method CreatePage(bm: BufferManager, k: Key)
    requires bm.Valid()
    modifies bm
    ensures bm.Valid() && bm.accessClock == old(bm.accessClock)
    ensures bm.State() == old(bm.State()).(disk := old(bm.State()).disk[k := SlottedPages.BlankBytes()])
  {
    hide PageTables.PageTable.Valid, BufferManagers.Fits, NoneLaterThan, SlottedPages.WellFormed, SlottedPages.View;
    var page := new byte[PAGE_SIZE];
    SlottedPages.InitPage(page);
    bm.disk := bm.disk[k := page[..]];
  }

  lemma HeldIsUnderway(m: Manager, h: Key, f: int, n: int, e: Edits)
    requires StillHeld(m, h, f) && Mapped(m) && Scene(View(m), h, 1, n, e)
    ensures Underway(m, h, f) && Key(h.table, n) !in View(m) && 1 <= n
  {
  }

  /** What one round of the loop, on page i, comes to. */
  lemma Round(x: Manager, h: Key, f: int, i: int, n: int, row: seq<byte>, s: int)
    requires Underway(x, h, f) && Mapped(x) && |x.frames| > 0 && 1 <= i < n && IsTable(View(x), h.table, n)
    requires Scene(View(x), h, 1, n, PageEdits(row, s))
    ensures Key(h.table, i) in View(x) && SlottedPages.WellFormed(View(x)[Key(h.table, i)])
    ensures var e, k, pick := PageEdits(row, s), Key(h.table, i), PolicyPick();
            var (y, slot) := Visit(x, k, pick(x, k), e);
            && Underway(y, h, f) && (slot < 0 ==> View(y) == View(x))
            && Place(x, h.table, i, n, e, pick) ==
                 if slot >= 0 then (y, i, slot) else Place(y, h.table, i + 1, n, e, pick)
  {
    hide Books, View, Mapped, Visit, Place, PolicyPick, PageEdits, IsTable, SlottedPages.WellFormed, Underway;
    var e, k, pick := PageEdits(row, s), Key(h.table, i), PolicyPick();
    TablePage(View(x), h.table, n, i);
    VisitUnderway(x, h, f, k, pick(x, k), e);
    PlaceStep(x, h.table, i, n, e, pick);
  }

  /** The end of heap_insert_bm: a new page. */
  method PlaceOnNewPage(bm: BufferManager, n: int, row: seq<byte>, ghost s: int, ghost h: Key, ghost f: int, name: TableName)
    returns (slot: int)
    requires bm.Valid() && bm.accessClock < LLONG_MAX - 1 && Underway(bm.State(), h, f) && Mapped(bm.State())
    requires Key(name, n) !in View(bm.State())
    modifies bm, bm.frames, bm.table, bm.table.buckets, bm.table.model.nodes
    ensures bm.Valid() && fresh(bm.table.model.nodes - old(bm.table.model.nodes))
    ensures (bm.State(), n, slot) == Place(old(bm.State()), name, n, n, PageEdits(row, s), PolicyPick())
  {
    hide BufferManager.Valid, Books, View, Mapped, Visit, Place, PolicyPick, PageEdits, Underway, SlottedPages.WellFormed;
    LastPage(bm.State(), h, f, Key(name, n));
    PlaceEnd(bm.State(), name, n, PageEdits(row, s), PolicyPick());
    CreatePage(bm, Key(name, n));
    slot := VisitPage(bm, Key(name, n), row, s, HeldBy(bm.State(), h, f));
  }

  /** heap_insert_bm while page h is held in frame f. */
  method PlaceRow(bm: BufferManager, name: TableName, n: int, row: seq<byte>, ghost s: int, ghost h: Key, ghost f: int)
    returns (p: int, slot: int)
    requires bm.Valid() && bm.accessClock + n + 1 < LLONG_MAX && StillHeld(bm.State(), h, f) && h.table == name
    requires IsTable(View(bm.State()), name, n) && Scene(View(bm.State()), h, 1, n, PageEdits(row, s))
    modifies bm, bm.frames, bm.table, bm.table.buckets, bm.table.model.nodes
    ensures bm.Valid() && fresh(bm.table.model.nodes - old(bm.table.model.nodes))
    ensures (bm.State(), p, slot) == Place(old(bm.State()), name, 1, n, PageEdits(row, s), PolicyPick())
  {
    hide BufferManager.Valid, Books, View, Mapped, Visit, Place, PolicyPick, PageEdits, IsTable, SlottedPages.WellFormed, HeldBy,
         Underway, StillHeld, Scene;
    PageAccess.PoolNotEmpty(bm);
    HeldIsUnderway(bm.State(), h, f, n, PageEdits(row, s));
    ghost var m, v, e := bm.State(), View(bm.State()), PageEdits(row, s);
    for i := 1 to n
      invariant bm.Valid() && bm.accessClock < old(bm.accessClock) + i
      invariant fresh(bm.table.model.nodes - old(bm.table.model.nodes))
      invariant Mapped(bm.State()) && Underway(bm.State(), h, f) && View(bm.State()) == v
      invariant Place(m, name, 1, n, e, PolicyPick()) == Place(bm.State(), name, i, n, e, PolicyPick())
    {
      Round(bm.State(), h, f, i, n, row, s);
      slot := VisitPage(bm, Key(name, i), row, s, HeldBy(bm.State(), h, f));
      if slot >= 0 {
        return i, slot;
      }
      PageAccess.PoolNotEmpty(bm);
    }
    p := n;
    slot := PlaceOnNewPage(bm, n, row, s, h, f, name);
  }

  lemma LastPage(m: Manager, h: Key, f: int, k: Key)
    requires Underway(m, h, f) && k !in View(m)
    ensures var y := m.(disk := m.disk[k := SlottedPages.BlankBytes()]);
            && Underway(y, h, f) && View(y) == View(m)[k := SlottedPages.BlankBytes()]
    ensures SlottedPages.WellFormed(SlottedPages.BlankBytes())
  {
    hide Books, Mapped, View, SlottedPages.WellFormed, SlottedPages.View, SlottedPages.BlankBytes;
    SlottedPages.BlankBytesMeaning();
    if StillHeld(m, h, f) {
      NewPageHeld(m, h, f, k, SlottedPages.BlankBytes());
    } else {
      NewPageLost(m, h, k, SlottedPages.BlankBytes());
    }
  }

  // ---------------------------------------------------------------- the redirect and what it all comes to

  /** A write through a pointer to frame f, whatever page is there by now. */
  method WriteThrough(bm: BufferManager, f: int, data: PageData)
    requires bm.Valid() && 0 <= f < bm.frames.Length
    modifies bm.frames
    ensures bm.Valid() && Mapped(old(bm.State())) && bm.State() == Scribble(old(bm.State()), f, data)
  {
    hide PageTables.PageTable.Valid, BufferManagers.Fits;
    bm.frames[f] := bm.frames[f].(data := data);
  }

  /** The row of slot s of page p is to move: it does not fit on its page in its new size. */
  ghost predicate MustMove(pages: seq<Page>, p: int, s: int, row: seq<byte>) {
    && HeapModel.Exists(pages, p, s) && !pages[p].slots[s].Redirect? && Insert(pages[p], row).1 < 0
    && !(pages[p].slots[s].Normal? && |pages[p].slots[s].row| == |row|)
  }

  lemma MoveScene(m: Manager, name: TableName, n: int, p: int, s: int, row: seq<byte>)
    requires Mapped(m) && IsTable(View(m), name, n) && MustMove(TablePages(View(m), name, n), p, s, row)
    ensures HeapModel.AllRoomy(TablePages(View(m), name, n))
    ensures SlottedPages.InDirectory(s)
    ensures var h, e := Key(name, p), PageEdits(row, s); Scene(View(m), h, 1, n, e) && Links(e, View(m)[h])
    ensures var e := PageEdits(row, s);
            var (qs, answer) := HotModel.Overwrite(TablePages(View(m), name, n), p, s, row);
            var w := FlatMove(View(m), Key(name, p), n, e);
            && IsTable(w, name, |qs|) && TablePages(w, name, |qs|) == qs
            && (answer == HotModel.OutOfSpace <==> FlatPlace(View(m), name, 1, n, e).2 < 0)
            && (answer != HotModel.OutOfSpace ==> answer == HotModel.Updated)
            && |qs| == PagesAfter(n, FlatPlace(View(m), name, 1, n, e).1)
  {
    hide View, Insert, IsTable, TablePages, PageEdits, SlottedPages.WellFormed, SlottedPages.View, RowIds.EncodeRowId;
    PageEditsMeaning(row, s);
    FlatMoveIsOverwrite(View(m), name, n, p, s, PageEdits(row, s), row);
    TablePage(View(m), name, n, p);
    SlotEntryInside(View(m)[Key(name, p)], s);
  }

  lemma SlotEntryInside(d: PageData, s: int)
    requires SlottedPages.WellFormed(d) && 0 <= s < |SlottedPages.View(d).slots|
    ensures SlottedPages.InDirectory(s)
  {
  }

  /** The redirect on the bytes behind the pointer. */
  method Link(bytes: PageData, s: int, q: int, slot: SlotNumber) returns (data: PageData)
    requires SlottedPages.InDirectory(s) && slot >= 0
    ensures data == LinkBytes(bytes, s, q, slot)
  {
    hide RowIds.EncodeRowId, SlottedPages.EntryBytes;
    RowIds.RowIdIsInt(q, slot);
    var page := new byte[PAGE_SIZE](i requires 0 <= i < PAGE_SIZE => bytes[i]);
    assert page[..] == bytes;
    SlottedPages.PutEntry(page, s, SlottedPages.SLOT_REDIRECT, RowIds.EncodeRowId(q, slot));
    data := page[..];
  }

  /** The moving branch of handler_update, with page p held in frame f. */
  method MoveRow(bm: BufferManager, name: TableName, n: int, p: int, s: int, f: int, row: seq<byte>)
    returns (answer: HotModel.UpdateAnswer, newNumPages: int)
    requires bm.Valid() && bm.accessClock + n + 1 < LLONG_MAX && StillHeld(bm.State(), Key(name, p), f)
    requires IsTable(View(bm.State()), name, n) && MustMove(TablePages(View(bm.State()), name, n), p, s, row)
    modifies bm, bm.frames, bm.table, bm.table.buckets, bm.table.model.nodes
    ensures bm.Valid() && fresh(bm.table.model.nodes - old(bm.table.model.nodes))
    ensures bm.State() == Move(old(bm.State()), Key(name, p), n, PageEdits(row, s), PolicyPick())
    ensures var (x, q, slot) := Place(old(bm.State()), name, 1, n, PageEdits(row, s), PolicyPick());
            && answer == (if slot < 0 then HotModel.OutOfSpace else HotModel.Updated)
            && newNumPages == PagesAfter(n, q)
  {
    hide BufferManager.Valid, Books, View, Mapped, Place, PolicyPick, IsTable, TablePages, MustMove, Unpin, Scribble, LinkBytes;
    ghost var m := bm.State();
    var h := Key(name, p);
    MoveScene(m, name, n, p, s, row);
    var q, slot := PlaceRow(bm, name, n, row, s, h, f);
    newNumPages := PagesAfter(n, q);
    if slot < 0 {
      var rc := bm.UnpinPage(h, false);
      return HotModel.OutOfSpace, newNumPages;
    }
    var data := Link(bm.frames[f].data, s, q, slot);
    WriteThrough(bm, f, data);
    var rc := bm.UnpinPage(h, true);
    return HotModel.Updated, newNumPages;
  }

  /** What a right move comes to on the pages of the table. */
  lemma RightMove(m: Manager, name: TableName, n: int, p: int, s: int, row: seq<byte>)
    requires Mapped(m) && Coherent(m, Holding(Key(name, p), false)) && Key(name, p) in m.table
    requires IsTable(View(m), name, n) && MustMove(TablePages(View(m), name, n), p, s, row)
    requires Scene(View(m), Key(name, p), 1, n, PageEdits(row, s))
    requires Right(m, Key(name, p), n, PageEdits(row, s), PolicyPick())
    ensures var r := Move(m, Key(name, p), n, PageEdits(row, s), PolicyPick());
            var (x, q, slot) := Place(m, name, 1, n, PageEdits(row, s), PolicyPick());
            && HeapModel.AllRoomy(TablePages(View(m), name, n))
            && var (qs, answer) := HotModel.Overwrite(TablePages(View(m), name, n), p, s, row);
               && Coherent(r, Idle) && IsTable(View(r), name, |qs|) && TablePages(View(r), name, |qs|) == qs
               && answer == (if slot < 0 then HotModel.OutOfSpace else HotModel.Updated)
               && |qs| == PagesAfter(n, q)
  {
    hide Coherent, Books, View, Mapped, Place, FlatPlace, FlatMove, Move, PolicyPick, PageEdits, IsTable, TablePages, MustMove, Links;
    var h, e := Key(name, p), PageEdits(row, s);
    MoveScene(m, name, n, p, s, row);
    HeldNow(m, h);
    MoveRightIff(m, h, n, e, PolicyPick());
    PlaceHeld(m, h, m.table[h], 1, n, e, PolicyPick());
  }

  /** In pool m page p of a table is held, was used last, and has no room for the new row of slot s. */
  ghost predicate Moving(m: Manager, v: map<Key, PageData>, name: TableName, n: int, p: int, s: int, row: seq<byte>) {
    && Mapped(m) && Coherent(m, Holding(Key(name, p), false)) && View(m) == v
    && Key(name, p) in m.table && JustUsed(m, m.table[Key(name, p)])
    && IsTable(v, name, n) && MustMove(TablePages(v, name, n), p, s, row)
    && Scene(v, Key(name, p), 1, n, PageEdits(row, s)) && Links(PageEdits(row, s), v[Key(name, p)])
  }

  /** From `held`, a pool that shows v and holds the page on which an update landed, the pool has come to
      `after` by moving the row. */
  ghost predicate MoveMade(held: Manager, after: Manager, v: map<Key, PageData>, name: TableName, n: int,
                           l: HotModel.Landing, row: seq<byte>) {
    && l.Landed? && Moving(held, v, name, n, l.page, l.slot, row)
    && after == Move(held, Key(name, l.page), n, PageEdits(row, l.slot), PolicyPick())
  }

  /** That was right. */
  ghost predicate MoveRight(held: Manager, v: map<Key, PageData>, name: TableName, n: int, l: HotModel.Landing, row: seq<byte>) {
    && l.Landed? && Moving(held, v, name, n, l.page, l.slot, row)
    && Right(held, Key(name, l.page), n, PageEdits(row, l.slot), PolicyPick())
  }

  /** What can be said before the move: under every policy a safe one is right; under NoCache and LRU it
      can be read off the pool whether it is. */
  lemma MoveRightBefore(held: Manager, v: map<Key, PageData>, name: TableName, n: int, l: HotModel.Landing, row: seq<byte>)
    requires l.Landed? && Moving(held, v, name, n, l.page, l.slot, row)
    ensures var h, e := Key(name, l.page), PageEdits(row, l.slot);
            && (SafeToMove(held, h, n, e) ==> MoveRight(held, v, name, n, l, row))
            && (held.policy == NoCache ==> (MoveRight(held, v, name, n, l, row) <==> NocacheSafe(held, h, n, e)))
            && (held.policy == Lru ==> (MoveRight(held, v, name, n, l, row) <==> LruSafe(held, h, n, e)))
  {
    hide View, Coherent, Mapped, PageEdits, PolicyPick, Follows, SafeToMove, NocacheSafe, LruSafe, Right, Links, IsTable,
         TablePages, MustMove, JustUsed;
    var h, e := Key(name, l.page), PageEdits(row, l.slot);
    MoveSafeIff(held, h, n, e);
    FollowsIsSound(PolicyPick());
    if held.policy == NoCache {
      NocacheMoveIff(held, h, n, e, PolicyPick());
    } else if held.policy == Lru {
      LruMoveIff(held, h, n, e, PolicyPick());
    }
  }

  lemma FollowsIsSound(pick: Strategy)
    requires Follows(pick)
    ensures Sound(pick)
  {
  }
}
