/** How the heap code uses the buffer manager: fetch a page, look at it or change it, release it before
    the next one.  Through any such access the pool is a flat store of pages. */
module PageAccess {
  import opened PoolModel
  import opened EvictionPolicies
  import opened BufferModel
  import opened BufferManagers
  import opened Transparency

  lemma PoolNotEmpty(bm: BufferManager)
    requires bm.Valid()
    ensures |bm.State().frames| > 0 && Mapped(bm.State()) && bm.State().clock >= 0
    ensures forall i :: 0 <= i < |bm.State().frames| ==> bm.State().frames[i].lastAccess <= bm.State().clock
  {
  }

  /** What a fetch with empty hands makes of the pool, and which frame the page is found in. */
  ghost predicate NowHeld(m: Manager, k: Key, n: Manager, frame: int)
    requires Mapped(m)
  {
    && Coherent(n, if frame >= 0 then Holding(k, false) else Idle)
    && View(n) == View(m)
    && n.clock <= m.clock + 1
    && (frame >= 0 <==> k in View(m))
    && (frame >= 0 ==>
          && frame < |n.frames| && n.frames[frame].data == View(m)[k] && k in n.table && n.table[k] == frame
          && JustUsed(n, frame))
  }

  lemma Fetched(m: Manager, k: Key, ch: Choice, n: Manager, frame: int)
    requires Coherent(m, Idle) && Legal(m.frames, ch) && |m.frames| > 0 && (n, frame) == FetchVia(m, k, ch)
    requires m.clock >= 0 && forall i :: 0 <= i < |m.frames| ==> m.frames[i].lastAccess <= m.clock
    ensures NowHeld(m, k, n, frame)
  {
    hide View, JustUsed;
    FetchedIsJustUsed(m, k, ch);
    FetchTransparent(m, k, ch);
    FetchKeepsMapped(m, k, ch);
  }

  method FetchHeld(bm: BufferManager, k: Key) returns (frame: int)
    requires bm.Valid() && bm.accessClock < LLONG_MAX - 1 && Coherent(bm.State(), Idle)
    modifies bm, bm.frames, bm.table, bm.table.buckets, bm.table.model.nodes
    ensures bm.Valid() && fresh(bm.table.model.nodes - old(bm.table.model.nodes))
    ensures NowHeld(old(bm.State()), k, bm.State(), frame)
  {
    PoolNotEmpty(bm);
    hide BufferManager.Valid, Coherent, NowHeld, FetchVia, EvictOutcome, JustUsed;
    ghost var m := bm.State();
    ghost var ch;
    frame, ch := bm.FetchPage(k);
    Fetched(m, k, ch, bm.State(), frame);
  }

  /** bm_fetch_page with empty hands: the caller now holds the page that the store shows. */
  method Hold(bm: BufferManager, k: Key) returns (frame: int)
    requires bm.Valid() && bm.accessClock < LLONG_MAX - 1 && Coherent(bm.State(), Idle)
    modifies bm, bm.frames, bm.table, bm.table.buckets, bm.table.model.nodes
    ensures bm.Valid() && Coherent(bm.State(), if frame >= 0 then Holding(k, false) else Idle)
    ensures fresh(bm.table.model.nodes - old(bm.table.model.nodes))
    ensures View(bm.State()) == old(View(bm.State())) && bm.accessClock <= old(bm.accessClock) + 1
    ensures frame >= 0 <==> k in View(bm.State())
    ensures frame >= 0 ==>
              && frame < bm.frames.Length && bm.frames[frame].data == View(bm.State())[k]
              && k in bm.table.model.contents && bm.table.model.contents[k] == frame && JustUsed(bm.State(), frame)
  {
    hide BufferManager.Valid, Coherent, View, JustUsed;
    frame := FetchHeld(bm, k);
  }

  /** bm_unpin_page of the page held; one that was written is released dirty. */
  method Release(bm: BufferManager, k: Key, dirty: bool, ghost wrote: bool)
    requires bm.Valid() && Coherent(bm.State(), Holding(k, wrote)) && (wrote ==> dirty)
    modifies bm.frames
    ensures bm.Valid() && Coherent(bm.State(), Idle) && View(bm.State()) == old(View(bm.State()))
  {
    PoolNotEmpty(bm);
    hide BufferManager.Valid, Coherent, View, Mapped, Unpin;
    UnpinTransparent(bm.State(), Holding(k, wrote), dirty);
    var rc := bm.UnpinPage(k, dirty);
  }

  /** Fetch a page, copy it out, and release it clean: it is the page that the store shows. */
  method ReadPage(bm: BufferManager, k: Key) returns (found: bool, page: PageData)
    requires bm.Valid() && bm.accessClock < LLONG_MAX - 1 && Coherent(bm.State(), Idle)
    modifies bm, bm.frames, bm.table, bm.table.buckets, bm.table.model.nodes
    ensures bm.Valid() && Coherent(bm.State(), Idle)
    ensures fresh(bm.table.model.nodes - old(bm.table.model.nodes))
    ensures View(bm.State()) == old(View(bm.State()))
    ensures found == (k in View(bm.State())) && (found ==> page == View(bm.State())[k])
  {
    hide BufferManager.Valid, Coherent, View;
    page := Zeros(PAGE_SIZE);
    var frame := Hold(bm, k);
    found := frame >= 0;
    if found {
      page := bm.frames[frame].data;
      Release(bm, k, false, false);
    }
  }

  /** Fetch a page, overwrite it through the pointer, and release it dirty: exactly that page changes. */
  method OverwritePage(bm: BufferManager, k: Key, page: PageData) returns (found: bool)
    requires bm.Valid() && bm.accessClock < LLONG_MAX - 1 && Coherent(bm.State(), Idle)
    modifies bm, bm.frames, bm.table, bm.table.buckets, bm.table.model.nodes
    ensures bm.Valid() && Coherent(bm.State(), Idle)
    ensures fresh(bm.table.model.nodes - old(bm.table.model.nodes))
    ensures found == (k in old(View(bm.State())))
    ensures View(bm.State()) == if found then old(View(bm.State()))[k := page] else old(View(bm.State()))
  {
    hide BufferManager.Valid, Coherent, View, Write;
    var frame := Hold(bm, k);
    found := frame >= 0;
    if found {
      WriteTransparent(bm.State(), Holding(k, false), page);
      bm.WritePage(k, frame, page);
      Release(bm, k, true, true);
    }
  }
}
