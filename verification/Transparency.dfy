/** The buffer pool is invisible: for a caller that holds at most one page at a time and marks every
    written page dirty, it behaves like a flat store of pages, under any replacement strategy. */
module Transparency {
  import opened PoolModel
  import opened EvictionPolicies
  import opened BufferModel
  import opened BufferTheorems

  /** The page the caller holds a pointer to, and whether it has written through it. */
  datatype Holder = Idle | Holding(key: Key, wrote: bool)

  /** What a reader sees: the cached copy of a page if there is one, else the disk page. */
  ghost function View(m: Manager): map<Key, PageData>
    requires Mapped(m)
  {
    map k | k in m.disk :: if k in m.table then m.frames[m.table[k]].data else m.disk[k]
  }

  /** A frame whose content is safe to drop or will be written back. */
  ghost predicate Faithful(m: Manager, h: Holder, f: Frame) {
    && f.key in m.disk
    && (f.dirty || h == Holding(f.key, true) || m.disk[f.key] == f.data)
  }

  ghost predicate PinsMatch(h: Holder, f: Frame) {
    && f.pinCount == (if h.Holding? && h.key == f.key then 1 else 0)
    && (f.pinCount == 0 ==> f.state == Occupied)
  }

  ghost predicate Coherent(m: Manager, h: Holder) {
    && Mapped(m)
    && (forall i :: 0 <= i < |m.frames| && m.frames[i].state != Free ==>
          Faithful(m, h, m.frames[i]) && PinsMatch(h, m.frames[i]))
    && (h.Holding? ==> h.key in m.table)
  }

  /** The discipline: fetch only with empty hands, write only the held page, and never release a
      written page as clean.  `g` is what the caller holds afterwards. */
  ghost predicate Disciplined(m: Manager, h: Holder, e: Event, g: Holder)
    requires Mapped(m)
  {
    match e
    case FetchEvent(k, ch) =>
      h.Idle? && Legal(m.frames, ch) && g == if FetchVia(m, k, ch).1 >= 0 then Holding(k, false) else Idle
    case WriteEvent(k, _) => h.Holding? && h.key == k && g == Holding(k, true)
    case UnpinEvent(k, dirty) => h.Holding? && h.key == k && (h.wrote ==> dirty) && g == Idle
    case CreateEvent(k, _) => g == h
  }

  // ---------------------------------------------------------------- when an eviction is harmless

  /** Evicting frame i leaves every page as it was seen if and only if the frame is marked dirty or
      still equals its disk page. */
  lemma EvictionHarmlessIff(m: Manager, i: int)
    requires Mapped(m) && 0 <= i < |m.frames| && m.frames[i].state != Free && m.frames[i].key in m.disk
    ensures Mapped(EvictFrame(m, i))
    ensures View(EvictFrame(m, i)) == View(m) <==> m.frames[i].dirty || m.disk[m.frames[i].key] == m.frames[i].data
  {
    EvictKeepsMapped(m, i);
    var n, k := EvictFrame(m, i), m.frames[i].key;
    assert View(m)[k] == m.frames[i].data;
    assert k in View(n) && View(n)[k] == n.disk[k];
    assert n.disk.Keys == m.disk.Keys;
    if m.frames[i].dirty || m.disk[k] == m.frames[i].data {
      assert View(n) == View(m);
    }
  }

  lemma EvictCoherent(m: Manager, i: int)
    requires Coherent(m, Idle) && 0 <= i < |m.frames| && m.frames[i].state != Free
    ensures Coherent(EvictFrame(m, i), Idle) && View(EvictFrame(m, i)) == View(m)
  {
    EvictKeepsMapped(m, i);
    assert Faithful(m, Idle, m.frames[i]);
    EvictionHarmlessIff(m, i);
    var n := EvictFrame(m, i);
    forall j | 0 <= j < |n.frames| && n.frames[j].state != Free
      ensures Faithful(n, Idle, n.frames[j]) && PinsMatch(Idle, n.frames[j])
    {
      assert Faithful(m, Idle, m.frames[j]) && PinsMatch(Idle, m.frames[j]);
    }
  }

  lemma ChosenCoherent(m: Manager, ch: Choice)
    requires Coherent(m, Idle) && Legal(m.frames, ch)
    ensures Coherent(Chosen(m, ch), Idle) && View(Chosen(m, ch)) == View(m)
  {
    ChosenKeepsMapped(m, ch);
    var n := Chosen(m, ch);
    forall j | 0 <= j < |n.frames|
      ensures n.frames[j].data == m.frames[j].data
      ensures n.frames[j].state != Free ==> Faithful(n, Idle, n.frames[j]) && PinsMatch(Idle, n.frames[j])
    {
      assert n.frames[j] == m.frames[j].(refBit := n.frames[j].refBit);
      assert n.frames[j].state != Free ==> Faithful(m, Idle, m.frames[j]) && PinsMatch(Idle, m.frames[j]);
    }
  }

  lemma LoadCoherent(m: Manager, i: int, k: Key)
    requires Coherent(m, Idle) && 0 <= i < |m.frames| && m.frames[i].state == Free && k !in m.table
    ensures var (n, r) := Load(m, i, k);
            && Coherent(n, if r >= 0 then Holding(k, false) else Idle)
            && View(n) == View(m)
            && (r >= 0 <==> k in m.disk)
            && (r >= 0 ==> r < |n.frames| && n.frames[r].data == View(m)[k])
  {
    LoadKeepsMapped(m, i, k);
    var (n, r) := Load(m, i, k);
    if k in m.disk {
      forall j | 0 <= j < |n.frames| && n.frames[j].state != Free
        ensures Faithful(n, Holding(k, false), n.frames[j]) && PinsMatch(Holding(k, false), n.frames[j])
      {
        if j != i {
          assert Faithful(m, Idle, m.frames[j]) && PinsMatch(Idle, m.frames[j]);
        }
      }
      assert View(n) == View(m);
    }
  }

  lemma HitCoherent(m: Manager, k: Key)
    requires Coherent(m, Idle) && k in m.table
    ensures Coherent(Hit(m, k), Holding(k, false)) && View(Hit(m, k)) == View(m)
  {
    var n := Hit(m, k);
    forall j | 0 <= j < |n.frames| && n.frames[j].state != Free
      ensures Faithful(n, Holding(k, false), n.frames[j]) && PinsMatch(Holding(k, false), n.frames[j])
    {
      assert Faithful(m, Idle, m.frames[j]) && PinsMatch(Idle, m.frames[j]);
    }
    assert View(n) == View(m);
  }

  /** A fetch with empty hands hands out exactly the page a reader of the flat store would see, fails
      only for pages that do not exist, and changes nothing anyone can see: on a hit, on a miss with
      a free frame, and on a miss that evicts. */
  lemma FetchTransparent(m: Manager, k: Key, ch: Choice)
    requires Coherent(m, Idle) && Legal(m.frames, ch) && |m.frames| > 0
    ensures var (n, r) := FetchVia(m, k, ch);
            && Coherent(n, if r >= 0 then Holding(k, false) else Idle)
            && View(n) == View(m)
            && (r >= 0 <==> k in View(m))
            && (r >= 0 ==> r < |n.frames| && n.frames[r].data == View(m)[k])
  {
    if k in m.table {
      HitCoherent(m, k);
      assert Faithful(m, Idle, m.frames[m.table[k]]);
    } else if FirstFree(m.frames) >= 0 {
      LoadCoherent(m, FirstFree(m.frames), k);
    } else {
      assert Evictable(m.frames, 0) by {
        assert m.frames[0].state != Free && PinsMatch(Idle, m.frames[0]);
      }
      ChosenCoherent(m, ch);
      assert ch.frames[ch.victim] == m.frames[ch.victim].(refBit := ch.frames[ch.victim].refBit);
      EvictCoherent(Chosen(m, ch), ch.victim);
      LoadCoherent(EvictFrame(Chosen(m, ch), ch.victim), ch.victim, k);
    }
  }

  lemma WriteTransparent(m: Manager, h: Holder, data: PageData)
    requires Coherent(m, h) && h.Holding?
    ensures Coherent(Write(m, h.key, data), Holding(h.key, true))
    ensures View(Write(m, h.key, data)) == View(m)[h.key := data]
  {
    var n, k := Write(m, h.key, data), h.key;
    forall j | 0 <= j < |n.frames| && n.frames[j].state != Free
      ensures Faithful(n, Holding(k, true), n.frames[j]) && PinsMatch(Holding(k, true), n.frames[j])
    {
      assert Faithful(m, h, m.frames[j]) && PinsMatch(h, m.frames[j]);
    }
    assert Faithful(m, h, m.frames[m.table[k]]);
    assert View(n) == View(m)[k := data];
  }

  lemma UnpinTransparent(m: Manager, h: Holder, dirty: bool)
    requires Coherent(m, h) && h.Holding? && (h.wrote ==> dirty)
    ensures var (n, rc) := Unpin(m, h.key, dirty);
            rc == 0 && Coherent(n, Idle) && View(n) == View(m)
  {
    var n, k := Unpin(m, h.key, dirty).0, h.key;
    assert PinsMatch(h, m.frames[m.table[k]]);
    forall j | 0 <= j < |n.frames| && n.frames[j].state != Free
      ensures Faithful(n, Idle, n.frames[j]) && PinsMatch(Idle, n.frames[j])
    {
      assert Faithful(m, h, m.frames[j]) && PinsMatch(h, m.frames[j]);
    }
    assert View(n) == View(m);
  }

  lemma CreateTransparent(m: Manager, h: Holder, k: Key, data: PageData)
    requires Coherent(m, h) && k !in m.disk && k !in m.table
    ensures var n := m.(disk := m.disk[k := data]);
            Coherent(n, h) && View(n) == View(m)[k := data]
  {
    var n := m.(disk := m.disk[k := data]);
    forall j | 0 <= j < |n.frames| && n.frames[j].state != Free
      ensures Faithful(n, h, n.frames[j]) && PinsMatch(h, n.frames[j])
    {
      assert Faithful(m, h, m.frames[j]) && PinsMatch(h, m.frames[j]);
    }
  }

  // ---------------------------------------------------------------- runs

  /** The flat store that the pool implements: only writes change it. */
  ghost function FlatRun(pages: map<Key, PageData>, events: seq<Event>): map<Key, PageData>
    decreases |events|
  {
    if events == [] then pages
    else FlatRun(if events[0].WriteEvent? || events[0].CreateEvent? then pages[events[0].key := events[0].data] else pages, events[1..])
  }

  ghost predicate DisciplinedRun(m: Manager, h: Holder, events: seq<Event>, n: Manager, g: Holder)
    requires Mapped(m)
    decreases |events|
  {
    if events == [] then n == m && g == h
    else
      exists h' ::
        && Disciplined(m, h, events[0], h')
        && Enabled(m, events[0])
        && DisciplinedRun(After(m, events[0]), h', events[1..], n, g)
  }

  lemma PoolSizeKept(m: Manager, e: Event)
    requires Mapped(m) && Enabled(m, e)
    ensures |After(m, e).frames| == |m.frames|
  {
  }

  lemma StepTransparent(m: Manager, h: Holder, e: Event, g: Holder)
    requires Coherent(m, h) && |m.frames| > 0 && Enabled(m, e) && Disciplined(m, h, e, g)
    ensures Coherent(After(m, e), g) && |After(m, e).frames| == |m.frames|
    ensures View(After(m, e)) == if e.WriteEvent? || e.CreateEvent? then View(m)[e.key := e.data] else View(m)
  {
    assert Mapped(m) && (h.Holding? ==> h.key in m.table);
    hide Coherent, View, Mapped, FetchVia, Unpin, Write, Legal;
    PoolSizeKept(m, e);
    match e
    case FetchEvent(k, ch) => FetchTransparent(m, k, ch);
    case WriteEvent(k, data) => WriteTransparent(m, h, data);
    case UnpinEvent(k, dirty) => UnpinTransparent(m, h, dirty);
    case CreateEvent(k, data) => CreateTransparent(m, h, k, data);
  }

  /** Over every disciplined run, under every replacement strategy and pool size, the pool shows what
      a flat store would. */
  lemma {:induction false} RunTransparent(m: Manager, h: Holder, events: seq<Event>, n: Manager, g: Holder)
    requires Coherent(m, h) && |m.frames| > 0 && DisciplinedRun(m, h, events, n, g)
    ensures Coherent(n, g) && View(n) == FlatRun(View(m), events)
    decreases |events|
  {
    if events != [] {
      var h' :| Disciplined(m, h, events[0], h') && Enabled(m, events[0])
                && DisciplinedRun(After(m, events[0]), h', events[1..], n, g);
      StepTransparent(m, h, events[0], h');
      RunTransparent(After(m, events[0]), h', events[1..], n, g);
    }
  }

  /** A pool that bm_init has just set up shows the disk, and every disciplined run from there shows what
      the same run does to a flat store that starts as the disk. */
  lemma NewPoolTransparent(m: Manager, events: seq<Event>, n: Manager, g: Holder)
    requires Initial(m) && |m.frames| > 0
    ensures Coherent(m, Idle) && View(m) == m.disk
    ensures DisciplinedRun(m, Idle, events, n, g) ==> Coherent(n, g) && View(n) == FlatRun(m.disk, events)
  {
    InitialBooks(m);
    assert View(m) == m.disk;
    if DisciplinedRun(m, Idle, events, n, g) {
      RunTransparent(m, Idle, events, n, g);
    }
  }

  // ---------------------------------------------------------------- shutdown

  lemma {:induction false} FlushedPage(m: Manager, n: nat, k: Key)
    requires Mapped(m) && n <= |m.frames|
    ensures Flushed(m.frames, m.disk, n).Keys >= m.disk.Keys
    ensures k in m.disk ==>
              Flushed(m.frames, m.disk, n)[k] ==
              if k in m.table && m.table[k] < n && m.frames[m.table[k]].dirty then m.frames[m.table[k]].data else m.disk[k]
    ensures k !in m.disk && k !in m.table ==> k !in Flushed(m.frames, m.disk, n)
  {
    if n > 0 {
      FlushedPage(m, n - 1, k);
    }
  }

  /** bm_destroy leaves on disk exactly what readers saw. */
  lemma DestroyFlushesView(m: Manager)
    requires Coherent(m, Idle)
    ensures Flushed(m.frames, m.disk, |m.frames|) == View(m)
  {
    var d := Flushed(m.frames, m.disk, |m.frames|);
    forall k
      ensures k in d <==> k in m.disk
      ensures k in m.disk ==> d[k] == View(m)[k]
    {
      FlushedPage(m, |m.frames|, k);
      if k in m.table {
        assert Faithful(m, Idle, m.frames[m.table[k]]);
      }
    }
  }

  // ---------------------------------------------------------------- a fetch while a page is held

  /** The held page could be given up without losing anything. */
  ghost predicate Saved(m: Manager, h: Key)
    requires Mapped(m) && h in m.table
  {
    var f := m.frames[m.table[h]];
    f.dirty || (h in m.disk && m.disk[h] == f.data)
  }

  /** The policy is asked and picks the frame of the held page. */
  ghost predicate PicksHeld(m: Manager, h: Key, k: Key, ch: Choice)
    requires Mapped(m) && h in m.table
  {
    k !in m.table && FirstFree(m.frames) < 0 && ch.victim == m.table[h]
  }

  lemma ChosenKeepsView(m: Manager, ch: Choice)
    requires Mapped(m) && Legal(m.frames, ch)
    ensures Mapped(Chosen(m, ch)) && View(Chosen(m, ch)) == View(m)
  {
    ChosenKeepsMapped(m, ch);
    forall k | k in m.table
      ensures ch.frames[m.table[k]].data == m.frames[m.table[k]].data
    {
      assert ch.frames[m.table[k]] == m.frames[m.table[k]].(refBit := ch.frames[m.table[k]].refBit);
    }
  }

  lemma LoadKeepsView(m: Manager, i: int, k: Key)
    requires Mapped(m) && 0 <= i < |m.frames| && m.frames[i].state == Free && k !in m.table
    ensures Mapped(Load(m, i, k).0) && View(Load(m, i, k).0) == View(m)
  {
    LoadKeepsMapped(m, i, k);
  }

  lemma HitKeepsView(m: Manager, k: Key)
    requires Mapped(m) && k in m.table
    ensures Mapped(Hit(m, k)) && View(Hit(m, k)) == View(m)
  {
    HitKeepsMapped(m, k);
  }

  /** A fetch that evicts shows the same store afterwards exactly if the victim was saved. */
  lemma EvictingFetchIff(m: Manager, k: Key, ch: Choice)
    requires Mapped(m) && Legal(m.frames, ch) && k !in m.table && FirstFree(m.frames) < 0 && ch.victim >= 0
    requires forall i :: 0 <= i < |m.frames| ==> m.frames[i].key in m.disk
    ensures 0 <= ch.victim < |m.frames| && m.frames[ch.victim].key in m.table
    ensures Mapped(FetchVia(m, k, ch).0)
    ensures View(FetchVia(m, k, ch).0) == View(m) <==> Saved(m, m.frames[ch.victim].key)
  {
    hide Load, View;
    var c, v := Chosen(m, ch), ch.victim;
    ChosenKeepsView(m, ch);
    assert c.frames[v] == m.frames[v].(refBit := c.frames[v].refBit);
    EvictionHarmlessIff(c, v);
    LoadKeepsView(EvictFrame(c, v), v, k);
  }

  /** While a page is held, any other fetch shows the same store afterwards if and only if it does not
      evict the held page, or nothing of that page is unsaved. */
  lemma HeldFetchIff(m: Manager, h: Key, wrote: bool, k: Key, ch: Choice)
    requires Coherent(m, Holding(h, wrote)) && Legal(m.frames, ch)
    ensures Mapped(FetchVia(m, k, ch).0)
    ensures View(FetchVia(m, k, ch).0) == View(m) <==> !PicksHeld(m, h, k, ch) || Saved(m, h)
  {
    hide View, Load;
    if k in m.table {
      HitKeepsView(m, k);
    } else if FirstFree(m.frames) >= 0 {
      LoadKeepsView(m, FirstFree(m.frames), k);
    } else if ch.victim < 0 {
      ChosenKeepsView(m, ch);
    } else {
      forall i | 0 <= i < |m.frames|
        ensures m.frames[i].key in m.disk
      {
        assert Faithful(m, Holding(h, wrote), m.frames[i]);
      }
      EvictingFetchIff(m, k, ch);
      assert Faithful(m, Holding(h, wrote), m.frames[ch.victim]);
      assert ch.victim == m.table[h] <==> m.frames[ch.victim].key == h;
    }
  }

  /** What a caller can check before it fetches another page: under every strategy the fetch keeps what
      the store shows if and only if the held frame is PINNED, the other page is cached, a frame is
      free, or nothing of the held page is unsaved. */
  lemma HeldFetchSafeIff(m: Manager, h: Key, wrote: bool, k: Key)
    requires Coherent(m, Holding(h, wrote))
    ensures forall ch :: Legal(m.frames, ch) ==> Mapped(FetchVia(m, k, ch).0)
    ensures (forall ch :: Legal(m.frames, ch) ==> View(FetchVia(m, k, ch).0) == View(m)) <==>
              || m.frames[m.table[h]].state == Pinned
              || k in m.table
              || FirstFree(m.frames) >= 0
              || Saved(m, h)
  {
    hide View, FetchVia, Saved;
    forall ch | Legal(m.frames, ch)
      ensures Mapped(FetchVia(m, k, ch).0)
      ensures View(FetchVia(m, k, ch).0) == View(m) <==> !PicksHeld(m, h, k, ch) || Saved(m, h)
    {
      HeldFetchIff(m, h, wrote, k, ch);
    }
    if m.frames[m.table[h]].state == Occupied {
      var ch := Choice(m.table[h], m.frames, m.policy);
      assert Evictable(m.frames, ch.victim) && Legal(m.frames, ch);
      assert PicksHeld(m, h, k, ch) <==> k !in m.table && FirstFree(m.frames) < 0;
    }
  }

  /** The holder's pointer still leads to its page. */
  ghost predicate StillIn(n: Manager, h: Key, f: int) {
    h in n.table && n.table[h] == f && 0 <= f < |n.frames| && n.frames[f].key == h
  }

  /** A fetch takes the frame away from the holder of another page exactly if the policy picks it. */
  lemma HolderKeepsFrameIff(m: Manager, h: Key, k: Key, ch: Choice)
    requires Mapped(m) && h in m.table && Legal(m.frames, ch)
    ensures StillIn(FetchVia(m, k, ch).0, h, m.table[h]) <==> !PicksHeld(m, h, k, ch)
  {
    if k !in m.table && FirstFree(m.frames) < 0 && ch.victim >= 0 {
      assert ch.frames[m.table[h]] == m.frames[m.table[h]].(refBit := ch.frames[m.table[h]].refBit);
      assert ch.frames[ch.victim] == m.frames[ch.victim].(refBit := ch.frames[ch.victim].refBit);
    }
  }

  /** What the holder can check before it fetches another page: under every strategy it keeps its frame
      if and only if that frame is PINNED, the other page is cached, or a frame is free.  That nothing is
      unsaved does not help it: its next write would go to another page. */
  lemma HolderSafeIff(m: Manager, h: Key, wrote: bool, k: Key)
    requires Coherent(m, Holding(h, wrote))
    ensures (forall ch :: Legal(m.frames, ch) ==> StillIn(FetchVia(m, k, ch).0, h, m.table[h])) <==>
              || m.frames[m.table[h]].state == Pinned
              || k in m.table
              || FirstFree(m.frames) >= 0
  {
    hide FetchVia, StillIn;
    forall ch | Legal(m.frames, ch)
      ensures StillIn(FetchVia(m, k, ch).0, h, m.table[h]) <==> !PicksHeld(m, h, k, ch)
    {
      HolderKeepsFrameIff(m, h, k, ch);
    }
    if m.frames[m.table[h]].state == Occupied {
      var ch := Choice(m.table[h], m.frames, m.policy);
      assert Evictable(m.frames, ch.victim) && Legal(m.frames, ch);
      assert PicksHeld(m, h, k, ch) <==> k !in m.table && FirstFree(m.frames) < 0;
    }
  }

  // ---------------------------------------------------------------- why the discipline is needed

  /** A page that has just been loaded is OCCUPIED although its pin count is 1, so a second fetch may
      evict it while its holder is still writing.  With one frame, fetching a, writing it and fetching
      b before the release loses the write. */
  lemma HeldPageLost(a: Key, b: Key, old': PageData, new': PageData)
    requires a != b && old' != new'
    ensures var start := Manager([EMPTY_FRAME], 0, 0, 0, 0, map[], Lru, map[a := old', b := old']);
            && Mapped(start)
            && var held := FetchVia(start, a, Choice(-1, start.frames, Lru)).0;
               && a in held.table && held.table[a] == 0 && held.frames[0].pinCount == 1
               && var written := Write(held, a, new');
                  && EvictOutcome(Lru, written.frames, Choice(0, written.frames, Lru))
                  && Mapped(written)
                  && View(written)[a] == new'
                  && var after := FetchVia(written, b, Choice(0, written.frames, Lru)).0;
                     Mapped(after) && View(after)[a] == old'
  {
    var start := Manager([EMPTY_FRAME], 0, 0, 0, 0, map[], Lru, map[a := old', b := old']);
    var held := FetchVia(start, a, Choice(-1, start.frames, Lru)).0;
    assert FirstFree(start.frames) == 0;
    var written := Write(held, a, new');
    assert written.frames == [LoadedFrame(a, new', 1)];
    assert FirstFree(written.frames) == -1;
    assert Evictable(written.frames, 0);
    FetchKeepsMapped(written, b, Choice(0, written.frames, Lru));
  }
}
