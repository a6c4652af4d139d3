/** UPDATE across the buffer pool.  When a row has to move to another page, `handler_update` keeps its
    page while `heap_insert_bm` fetches one page after another, and writes the redirect through the old
    pointer afterwards.  This module says exactly when that is safe. */
module HeldUpdate {
  import opened PoolModel
  import opened EvictionPolicies
  import opened BufferModel
  import opened BufferTheorems
  import opened AccessRuns
  import opened Transparency

  // ---------------------------------------------------------------- a pool with several pages held

  /** The content of the frame is safe to drop, and its pin count is the number of times it is held. */
  ghost predicate FrameOk(m: Manager, held: multiset<Key>, f: Frame) {
    && f.key in m.disk
    && (f.dirty || m.disk[f.key] == f.data)
    && f.pinCount == held[f.key]
    && (f.pinCount == 0 ==> f.state == Occupied)
  }

  ghost predicate Books(m: Manager, held: multiset<Key>) {
    && Mapped(m)
    && (forall k :: k in held ==> k in m.table)
    && forall i :: 0 <= i < |m.frames| && m.frames[i].state != Free ==> FrameOk(m, held, m.frames[i])
  }

  lemma BooksAreCoherent(m: Manager, h: Key)
    ensures Books(m, multiset{}) <==> Coherent(m, Idle)
    ensures Books(m, multiset{h}) <==> Coherent(m, Holding(h, false))
  {
    if Mapped(m) {
      forall i | 0 <= i < |m.frames| && m.frames[i].state != Free
        ensures FrameOk(m, multiset{}, m.frames[i]) <==> Faithful(m, Idle, m.frames[i]) && PinsMatch(Idle, m.frames[i])
        ensures FrameOk(m, multiset{h}, m.frames[i]) <==>
                  Faithful(m, Holding(h, false), m.frames[i]) && PinsMatch(Holding(h, false), m.frames[i])
      {
      }
    }
  }

  /** n is m with the frame of one cached page edited, in which the page stays. */
  ghost predicate Edited(m: Manager, n: Manager, i: int) {
    && 0 <= i < |m.frames| && m.frames[i].state != Free
    && n.table == m.table && n.disk == m.disk
    && |n.frames| == |m.frames| && (forall j :: 0 <= j < |m.frames| && j != i ==> n.frames[j] == m.frames[j])
    && n.frames[i].key == m.frames[i].key && n.frames[i].state != Free
  }

  lemma EditView(m: Manager, n: Manager, i: int)
    requires Mapped(m) && Edited(m, n, i) && m.frames[i].key in m.disk
    ensures Mapped(n) && View(n) == View(m)[m.frames[i].key := n.frames[i].data]
  {
    assert Mapped(n);
    var v, w := View(m)[m.frames[i].key := n.frames[i].data], View(n);
    assert w.Keys == v.Keys;
    forall k | k in w
      ensures w[k] == v[k]
    {
    }
  }

  lemma FrameStaysOk(m: Manager, held: multiset<Key>, n: Manager, now: multiset<Key>, f: Frame)
    requires FrameOk(m, held, f) && now[f.key] == held[f.key]
    requires f.key in n.disk && n.disk[f.key] == m.disk[f.key]
    ensures FrameOk(n, now, f)
  {
  }

  lemma FrameInDisk(m: Manager, held: multiset<Key>, i: int)
    requires Books(m, held) && 0 <= i < |m.frames| && m.frames[i].state != Free
    ensures FrameOk(m, held, m.frames[i]) && m.frames[i].key in m.disk
  {
  }

  lemma EditBooks(m: Manager, held: multiset<Key>, n: Manager, now: multiset<Key>, i: int)
    requires Books(m, held) && Edited(m, n, i) && FrameOk(n, now, n.frames[i])
    requires forall k :: k != m.frames[i].key ==> now[k] == held[k]
    ensures Books(n, now) && View(n) == View(m)[m.frames[i].key := n.frames[i].data]
  {
    EditView(m, n, i);
    hide FrameOk, View;
    forall j | 0 <= j < |n.frames| && n.frames[j].state != Free
      ensures FrameOk(n, now, n.frames[j])
    {
      if j != i {
        FrameInDisk(m, held, j);
        FrameStaysOk(m, held, n, now, m.frames[j]);
      }
    }
    forall k | k in now
      ensures k in n.table
    {
      if k != m.frames[i].key {
        assert k in held;
      }
    }
  }

  lemma HitBooks(m: Manager, held: multiset<Key>, k: Key)
    requires Books(m, held) && k in m.table
    ensures Books(Hit(m, k), held + multiset{k}) && View(Hit(m, k)) == View(m) && k in m.disk
  {
    assert FrameOk(m, held, m.frames[m.table[k]]);
    EditBooks(m, held, Hit(m, k), held + multiset{k}, m.table[k]);
    assert View(m)[k := View(m)[k]] == View(m);
  }

  lemma LoadBooks(m: Manager, held: multiset<Key>, i: int, k: Key)
    requires Books(m, held) && 0 <= i < |m.frames| && m.frames[i].state == Free && k !in m.table && k in m.disk
    ensures Books(Load(m, i, k).0, held + multiset{k}) && View(Load(m, i, k).0) == View(m)
  {
    LoadKeepsMapped(m, i, k);
    LoadKeepsView(m, i, k);
    hide View;
    var n := Load(m, i, k).0;
    forall j | 0 <= j < |n.frames| && n.frames[j].state != Free
      ensures FrameOk(n, held + multiset{k}, n.frames[j])
    {
      if j != i {
        FrameStaysOk(m, held, n, held + multiset{k}, m.frames[j]);
      }
    }
  }

  lemma ChosenBooks(m: Manager, held: multiset<Key>, ch: Choice)
    requires Books(m, held) && Legal(m.frames, ch)
    ensures Books(Chosen(m, ch), held) && View(Chosen(m, ch)) == View(m)
  {
    ChosenKeepsView(m, ch);
    var n := Chosen(m, ch);
    forall i | 0 <= i < |n.frames| && n.frames[i].state != Free
      ensures FrameOk(n, held, n.frames[i])
    {
      assert n.frames[i] == m.frames[i].(refBit := n.frames[i].refBit);
      assert FrameOk(m, held, m.frames[i]);
    }
  }

  /** An eviction takes the page away from whoever holds it. */
  lemma EvictBooks(m: Manager, held: multiset<Key>, i: int)
    requires Books(m, held) && Evictable(m.frames, i)
    ensures Books(EvictFrame(m, i), held[m.frames[i].key := 0]) && View(EvictFrame(m, i)) == View(m)
  {
    assert FrameOk(m, held, m.frames[i]);
    EvictKeepsMapped(m, i);
    EvictionHarmlessIff(m, i);
    var n := EvictFrame(m, i);
    forall j | 0 <= j < |n.frames| && n.frames[j].state != Free
      ensures FrameOk(n, held[m.frames[i].key := 0], n.frames[j])
    {
      assert FrameOk(m, held, m.frames[j]);
    }
  }

  lemma UnpinBooks(m: Manager, held: multiset<Key>, k: Key, dirty: bool)
    requires Books(m, held) && k in held
    ensures Books(Unpin(m, k, dirty).0, held - multiset{k}) && View(Unpin(m, k, dirty).0) == View(m)
  {
    assert FrameOk(m, held, m.frames[m.table[k]]);
    EditBooks(m, held, Unpin(m, k, dirty).0, held - multiset{k}, m.table[k]);
    assert View(m)[k := View(m)[k]] == View(m);
  }

  /** Write a page that is held, and release it dirty. */
  ghost function Put(m: Manager, k: Key, data: PageData): (n: Manager)
    requires Mapped(m) && k in m.table
    ensures Mapped(n)
  {
    WriteKeepsMapped(m, k, data);
    UnpinKeepsMapped(Write(m, k, data), k, true);
    Unpin(Write(m, k, data), k, true).0
  }

  lemma PutBooks(m: Manager, held: multiset<Key>, k: Key, data: PageData)
    requires Books(m, held) && k in held
    ensures Books(Put(m, k, data), held - multiset{k}) && View(Put(m, k, data)) == View(m)[k := data]
  {
    assert FrameOk(m, held, m.frames[m.table[k]]);
    EditBooks(m, held, Put(m, k, data), held - multiset{k}, m.table[k]);
  }

  lemma CachedHere(m: Manager, held: multiset<Key>, k: Key)
    requires Books(m, held)
    ensures k in m.table ==> k in m.disk
  {
    if k in m.table {
      assert FrameOk(m, held, m.frames[m.table[k]]);
    }
  }

  lemma CreateBooks(m: Manager, held: multiset<Key>, k: Key, data: PageData)
    requires Books(m, held) && k !in m.disk
    ensures var n := m.(disk := m.disk[k := data]);
            k !in m.table && Books(n, held) && View(n) == View(m)[k := data]
  {
    var n := m.(disk := m.disk[k := data]);
    CachedHere(m, held, k);
    CreateView(m, k, data);
    hide FrameOk, View;
    forall i | 0 <= i < |n.frames| && n.frames[i].state != Free
      ensures FrameOk(n, held, n.frames[i])
    {
      FrameInDisk(m, held, i);
      FrameStaysOk(m, held, n, held, m.frames[i]);
    }
  }

  lemma CreateView(m: Manager, k: Key, data: PageData)
    requires Mapped(m) && k !in m.table
    ensures View(m.(disk := m.disk[k := data])) == View(m)[k := data]
  {
  }

  /** What the holders have left once the victim is gone. */
  ghost function Left(m: Manager, held: multiset<Key>, k: Key, ch: Choice): multiset<Key>
    requires Legal(m.frames, ch)
  {
    if Asked(m, k) && ch.victim >= 0 then held[m.frames[ch.victim].key := 0] else held
  }

  /** The fetch of a page that exists. */
  lemma FetchBooks(m: Manager, held: multiset<Key>, k: Key, ch: Choice)
    requires Books(m, held) && Legal(m.frames, ch) && k in m.disk
    ensures var (n, r) := FetchVia(m, k, ch);
            && (r < 0 <==> Asked(m, k) && ch.victim < 0)
            && Books(n, if r < 0 then held else Left(m, held, k, ch) + multiset{k})
            && View(n) == View(m)
            && (r >= 0 ==> r < |n.frames| && n.table[k] == r && n.frames[r].data == View(m)[k])
  {
    hide View;
    if k in m.table {
      HitBooks(m, held, k);
      FrameShows(Hit(m, k), k);
    } else if FirstFree(m.frames) >= 0 {
      LoadBooks(m, held, FirstFree(m.frames), k);
      FrameShows(Load(m, FirstFree(m.frames), k).0, k);
    } else {
      ChosenBooks(m, held, ch);
      if ch.victim >= 0 {
        var c := Chosen(m, ch);
        assert c.frames[ch.victim] == m.frames[ch.victim].(refBit := c.frames[ch.victim].refBit);
        EvictBooks(c, held, ch.victim);
        LoadBooks(EvictFrame(c, ch.victim), Left(m, held, k, ch), ch.victim, k);
        FrameShows(Load(EvictFrame(c, ch.victim), ch.victim, k).0, k);
      }
    }
  }

  lemma FrameShows(m: Manager, k: Key)
    requires Mapped(m) && k in m.table && k in m.disk
    ensures View(m)[k] == m.frames[m.table[k]].data
  {
  }

  // ---------------------------------------------------------------- one round of the insert's page loop

  /** The result of insert_row: a slot, or -1 for no room. */
  type SlotNumber = s: int | -1 <= s < 65536

  /** insert_row and the redirect write as edits of page bytes, and the bytes of an empty page. */
  datatype Edits = Edits(put: PageData -> (PageData, SlotNumber), link: (PageData, int, SlotNumber) -> PageData, blank: PageData)

  lemma PoolKeepsSize(m: Manager, k: Key, ch: Choice)
    requires Mapped(m) && Legal(m.frames, ch)
    ensures |FetchVia(m, k, ch).0.frames| == |m.frames| && FetchVia(m, k, ch).1 < |m.frames|
  {
  }

  lemma Released(m: Manager, k: Key, data: PageData)
    requires Mapped(m) && k in m.table
    ensures Mapped(Unpin(m, k, false).0) && Unpin(m, k, false).0.table == m.table == Put(m, k, data).table
    ensures |Unpin(m, k, false).0.frames| == |m.frames| == |Put(m, k, data).frames|
  {
  }

  /** Try to insert into a page that is held, and release it. */
  ghost function Try(m: Manager, k: Key, e: Edits): (r: (Manager, SlotNumber))
    requires Mapped(m) && k in m.table
    ensures Mapped(r.0) && |r.0.frames| == |m.frames| && r.0.table == m.table
  {
    var (data, slot) := e.put(m.frames[m.table[k]].data);
    Released(m, k, data);
    if slot >= 0 then (Put(m, k, data), slot) else (Unpin(m, k, false).0, -1)
  }

  /** Fetch a page, try to insert, release it. */
  ghost function Visit(m: Manager, k: Key, ch: Choice, e: Edits): (r: (Manager, SlotNumber))
    requires Mapped(m) && Legal(m.frames, ch)
    ensures Mapped(r.0) && |r.0.frames| == |m.frames|
  {
    FetchKeepsMapped(m, k, ch);
    PoolKeepsSize(m, k, ch);
    var (x, frame) := FetchVia(m, k, ch);
    hide FetchVia;
    if frame < 0 then (x, -1) else Try(x, k, e)
  }

  ghost function FlatVisit(v: map<Key, PageData>, k: Key, e: Edits): (map<Key, PageData>, SlotNumber)
    requires k in v
  {
    var (data, slot) := e.put(v[k]);
    if slot >= 0 then (v[k := data], slot) else (v, -1)
  }

  lemma TryBooks(m: Manager, held: multiset<Key>, k: Key, e: Edits)
    requires Books(m, held + multiset{k}) && k in View(m) && m.frames[m.table[k]].data == View(m)[k]
    ensures Books(Try(m, k, e).0, held) && (View(Try(m, k, e).0), Try(m, k, e).1) == FlatVisit(View(m), k, e)
  {
    var data := e.put(m.frames[m.table[k]].data).0;
    hide Books, View, Unpin, Put;
    assert held + multiset{k} - multiset{k} == held;
    UnpinBooks(m, held + multiset{k}, k, false);
    PutBooks(m, held + multiset{k}, k, data);
  }

  lemma VisitBooks(m: Manager, held: multiset<Key>, k: Key, ch: Choice, e: Edits)
    requires Books(m, held) && Legal(m.frames, ch) && k in m.disk
    ensures k in View(m)
    ensures var (n, slot) := Visit(m, k, ch, e);
            if Asked(m, k) && ch.victim < 0 then Books(n, held) && View(n) == View(m) && slot < 0
            else Books(n, Left(m, held, k, ch)) && (View(n), slot) == FlatVisit(View(m), k, e) && k in n.table
  {
    hide View, FetchVia, Try, Left, Asked, FlatVisit;
    FetchBooks(m, held, k, ch);
    FetchKeepsMapped(m, k, ch);
    ViewKeys(m);
    var (x, frame) := FetchVia(m, k, ch);
    if frame >= 0 {
      TryBooks(x, Left(m, held, k, ch), k, e);
    }
  }

  lemma ViewKeys(m: Manager)
    requires Mapped(m)
    ensures View(m).Keys == m.disk.Keys
  {
  }

  lemma FetchKeepsFrame(m: Manager, h: Key, k: Key, ch: Choice)
    requires Mapped(m) && Legal(m.frames, ch) && h in m.table && !(Asked(m, k) && ch.victim == m.table[h])
    ensures var (n, f) := (FetchVia(m, k, ch).0, m.table[h]);
            && h in n.table && n.table[h] == f && f < |n.frames|
            && (k != h ==> n.frames[f] == m.frames[f].(refBit := n.frames[f].refBit))
  {
    var f := m.table[h];
    if Asked(m, k) {
      assert ch.frames[f] == m.frames[f].(refBit := ch.frames[f].refBit);
      if ch.victim >= 0 {
        assert ch.frames[ch.victim] == m.frames[ch.victim].(refBit := ch.frames[ch.victim].refBit);
      }
    }
  }

  lemma TryKeepsFrame(m: Manager, h: Key, k: Key, e: Edits)
    requires Mapped(m) && h in m.table && k in m.table && k != h
    ensures Try(m, k, e).0.frames[m.table[h]].dirty == m.frames[m.table[h]].dirty
    ensures Try(m, k, e).0.frames[m.table[h]].data == m.frames[m.table[h]].data
    ensures Try(m, k, e).0.frames[m.table[h]].state == m.frames[m.table[h]].state
  {
  }

  /** What a visit does to the frame of another page, or of a page that is visited while it is held. */
  lemma VisitKeepsFrame(m: Manager, h: Key, k: Key, ch: Choice, e: Edits)
    requires Mapped(m) && Legal(m.frames, ch) && h in m.table && !(Asked(m, k) && ch.victim == m.table[h])
    requires k == h ==> e.put(m.frames[m.table[h]].data).1 < 0
    ensures var (n, f) := (Visit(m, k, ch, e).0, m.table[h]);
            && h in n.table && n.table[h] == f
            && n.frames[f].dirty == m.frames[f].dirty && n.frames[f].data == m.frames[f].data
            && (k != h ==> n.frames[f].state == m.frames[f].state)
            && (k == h && m.frames[f].pinCount == 1 ==> n.frames[f].state == Pinned)
  {
    if k == h {
      assert FetchVia(m, k, ch) == (Hit(m, k), m.table[k]);
    } else {
      hide FetchVia, Try, Asked;
      FetchKeepsFrame(m, h, k, ch);
      FetchKeepsMapped(m, k, ch);
      var (x, frame) := FetchVia(m, k, ch);
      if frame >= 0 {
        TryKeepsFrame(x, h, k, e);
      }
    }
  }

  /** Which pages are cached after a visit that evicts nothing. */
  lemma VisitTable(m: Manager, k: Key, ch: Choice, e: Edits)
    requires Mapped(m) && Legal(m.frames, ch) && k in m.disk && !Asked(m, k)
    ensures Visit(m, k, ch, e).0.table == if k in m.table then m.table else m.table[k := FirstFree(m.frames)]
  {
    var (x, frame) := FetchVia(m, k, ch);
    FetchKeepsMapped(m, k, ch);
    assert x.table == if k in m.table then m.table else m.table[k := FirstFree(m.frames)];
  }

  // ---------------------------------------------------------------- the nested insert

  /** Any way of choosing victims: for each state of the pool and page asked for, a legal outcome. */
  type Strategy = (Manager, Key) -> Choice

  ghost predicate Sound(pick: Strategy) {
    forall m: Manager, k: Key :: Legal(m.frames, pick(m, k))
  }

  /** heap_insert_bm from page p on: the pool, and the page and slot of the row, slot -1 on failure.  A
      page that cannot be fetched is skipped. */
  ghost function Place(m: Manager, name: TableName, p: int, n: int, e: Edits, pick: Strategy): (r: (Manager, int, SlotNumber))
    requires Mapped(m) && Sound(pick)
    ensures Mapped(r.0) && |r.0.frames| == |m.frames|
    decreases n - p
  {
    var k := Key(name, p);
    if p < n then
      var (x, slot) := Visit(m, k, pick(m, k), e);
      if slot >= 0 then (x, p, slot) else Place(x, name, p + 1, n, e, pick)
    else
      var y := m.(disk := m.disk[k := e.blank]);
      var (x, slot) := Visit(y, k, pick(y, k), e);
      (x, p, slot)
  }

  /** The same on a flat store. */
  ghost function FlatPlace(v: map<Key, PageData>, name: TableName, p: int, n: int, e: Edits): (r: (map<Key, PageData>, int, SlotNumber))
    requires forall q {:trigger Key(name, q)} :: p <= q < n ==> Key(name, q) in v
    ensures p <= n ==> p <= r.1 <= n
    decreases n - p
  {
    var k := Key(name, p);
    if p < n then
      var (w, slot) := FlatVisit(v, k, e);
      if slot >= 0 then (w, p, slot) else FlatPlace(v, name, p + 1, n, e)
    else
      var (w, slot) := FlatVisit(v[k := e.blank], k, e);
      (w, p, slot)
  }

  /** Nobody holds h any more, and a copy of it that was fetched since is clean. */
  ghost predicate Lost(m: Manager, h: Key) {
    && Mapped(m) && Books(m, multiset{})
    && (h in m.table ==> !m.frames[m.table[h]].dirty)
  }

  ghost predicate StillHeld(m: Manager, h: Key, f: int) {
    Mapped(m) && Books(m, multiset{h}) && h in m.table && m.table[h] == f && 0 <= f < |m.frames|
  }

  /** A table of n pages, in which page h has no room. */
  ghost predicate Scene(v: map<Key, PageData>, h: Key, p: int, n: int, e: Edits) {
    && 1 <= p <= n && 1 <= h.page < n
    && (forall q {:trigger Key(h.table, q)} :: 1 <= q < n ==> Key(h.table, q) in v)
    && Key(h.table, n) !in v
    && e.put(v[h]).1 < 0
  }

  /** Only a pool of one frame has nothing to evict. */
  lemma NothingToEvict(m: Manager, held: multiset<Key>, h: Key, k: Key, ch: Choice)
    requires Books(m, held) && Legal(m.frames, ch) && |m.frames| > 0 && held <= multiset{h}
    requires Asked(m, k) && ch.victim < 0
    ensures |m.frames| == 1 && held == multiset{h}
  {
    forall i | 0 <= i < |m.frames|
      ensures m.frames[i].key == h && m.table[h] == i && h in held
    {
      assert !Evictable(m.frames, i);
      FrameInDisk(m, held, i);
      assert m.frames[i].key in held;
    }
    assert m.frames[0].key == m.frames[|m.frames| - 1].key;
  }

  /** A page fetched anew and not written is clean. */
  lemma VisitFresh(m: Manager, h: Key, k: Key, ch: Choice, e: Edits)
    requires Mapped(m) && Legal(m.frames, ch) && k in m.disk
    requires h in m.table ==> Asked(m, k) && ch.victim == m.table[h]
    requires k == h ==> FetchVia(m, k, ch).1 >= 0 ==> e.put(m.disk[h]).1 < 0
    ensures var n := Visit(m, k, ch, e).0; h in n.table ==> h == k && 0 <= n.table[h] < |n.frames| && !n.frames[n.table[h]].dirty
  {
    if Asked(m, k) && ch.victim >= 0 {
      assert ch.frames[ch.victim] == m.frames[ch.victim].(refBit := ch.frames[ch.victim].refBit);
    }
  }

  lemma VisitLost(m: Manager, h: Key, k: Key, ch: Choice, e: Edits)
    requires Lost(m, h) && Legal(m.frames, ch) && k in View(m) && |m.frames| > 0 && h in View(m)
    requires e.put(View(m)[h]).1 < 0
    ensures var (n, slot) := Visit(m, k, ch, e);
            Lost(n, h) && (View(n), slot) == FlatVisit(View(m), k, e)
  {
    if Asked(m, k) && ch.victim < 0 {
      NothingToEvict(m, multiset{}, h, k, ch);
    }
    VisitBooks(m, multiset{}, k, ch, e);
    assert Left(m, multiset{}, k, ch) == multiset{};
    if h in m.table && !(Asked(m, k) && ch.victim == m.table[h]) {
      VisitKeepsFrame(m, h, k, ch, e);
    } else {
      if k == h {
        DiskShows(m, h, ch);
      }
      VisitFresh(m, h, k, ch, e);
    }
  }

  lemma DiskShows(m: Manager, h: Key, ch: Choice)
    requires Mapped(m) && h !in m.table && h in m.disk
    ensures View(m)[h] == m.disk[h]
  {
  }

  lemma VisitHeld(m: Manager, h: Key, f: int, k: Key, ch: Choice, e: Edits)
    requires StillHeld(m, h, f) && Legal(m.frames, ch) && k in View(m) && h in View(m)
    requires e.put(View(m)[h]).1 < 0
    ensures var (n, slot) := Visit(m, k, ch, e);
            if Asked(m, k) && ch.victim < 0 then
              |m.frames| == 1 && StillHeld(n, h, f) && View(n) == View(m) && slot < 0
            else
              && (View(n), slot) == FlatVisit(View(m), k, e) && k in n.table
              && if Asked(m, k) && ch.victim == f then Lost(n, h) else StillHeld(n, h, f)
  {
    VisitBooks(m, multiset{h}, k, ch, e);
    if Asked(m, k) && ch.victim < 0 {
      NothingToEvict(m, multiset{h}, h, k, ch);
      VisitKeepsFrame(m, h, k, ch, e);
    } else if Asked(m, k) && ch.victim == f {
      assert Left(m, multiset{h}, k, ch) == multiset{};
      VisitFresh(m, h, k, ch, e);
    } else {
      assert Left(m, multiset{h}, k, ch) == multiset{h};
      VisitKeepsFrame(m, h, k, ch, e);
    }
  }

  lemma {:induction false} PlaceLost(m: Manager, h: Key, p: int, n: int, e: Edits, pick: Strategy)
    requires Lost(m, h) && |m.frames| > 0 && Sound(pick) && Scene(View(m), h, p, n, e)
    ensures var (x, q, slot) := Place(m, h.table, p, n, e, pick);
            Lost(x, h) && (View(x), q, slot) == FlatPlace(View(m), h.table, p, n, e)
    decreases n - p
  {
    hide Books, Mapped, Legal, View, Visit, FlatVisit;
    var k := Key(h.table, p);
    if p < n {
      var (x, slot) := Visit(m, k, pick(m, k), e);
      VisitLost(m, h, k, pick(m, k), e);
      FlatVisitMeaning(View(m), k, e);
      if slot < 0 {
        PlaceLost(x, h, p + 1, n, e, pick);
      }
    } else {
      var y := m.(disk := m.disk[k := e.blank]);
      NewPageLost(m, h, k, e.blank);
      VisitLost(y, h, k, pick(y, k), e);
    }
  }

  lemma FlatVisitMeaning(v: map<Key, PageData>, k: Key, e: Edits)
    requires k in v
    ensures FlatVisit(v, k, e).1 < 0 ==> FlatVisit(v, k, e) == (v, -1)
    ensures FlatVisit(v, k, e).1 < 0 <==> e.put(v[k]).1 < 0
  {
  }

  lemma NewPageLost(m: Manager, h: Key, k: Key, data: PageData)
    requires Lost(m, h) && k !in View(m)
    ensures var y := m.(disk := m.disk[k := data]); Lost(y, h) && View(y) == View(m)[k := data]
  {
    CreateBooks(m, multiset{}, k, data);
  }

  lemma NewPageHeld(m: Manager, h: Key, f: int, k: Key, data: PageData)
    requires StillHeld(m, h, f) && k !in View(m)
    ensures var y := m.(disk := m.disk[k := data]); StillHeld(y, h, f) && View(y) == View(m)[k := data]
  {
    CreateBooks(m, multiset{h}, k, data);
  }

  /** In a pool of one frame nothing can be fetched while that frame is PINNED. */
  lemma VisitStuck(m: Manager, h: Key, f: int, k: Key, ch: Choice, e: Edits)
    requires StillHeld(m, h, f) && |m.frames| == 1 && m.frames[f].state == Pinned
    requires Legal(m.frames, ch) && k in View(m) && h in View(m) && e.put(View(m)[h]).1 < 0
    ensures var (n, slot) := Visit(m, k, ch, e);
            StillHeld(n, h, f) && View(n) == View(m) && slot == -1 && n.frames[f].state == Pinned
  {
    if k != h {
      assert Asked(m, k) && ch.victim < 0;
    }
    VisitHeld(m, h, f, k, ch, e);
    VisitKeepsFrame(m, h, k, ch, e);
  }

  lemma {:induction false} PlaceStuck(m: Manager, h: Key, f: int, p: int, n: int, e: Edits, pick: Strategy)
    requires StillHeld(m, h, f) && |m.frames| == 1 && m.frames[f].state == Pinned
    requires Sound(pick) && Scene(View(m), h, p, n, e)
    ensures var (x, q, slot) := Place(m, h.table, p, n, e, pick);
            StillHeld(x, h, f) && View(x) == View(m)[Key(h.table, n) := e.blank] && q == n && slot == -1
    decreases n - p
  {
    hide Books, Mapped, Legal, View, Visit;
    var k := Key(h.table, p);
    if p < n {
      VisitStuck(m, h, f, k, pick(m, k), e);
      PlaceStuck(Visit(m, k, pick(m, k), e).0, h, f, p + 1, n, e, pick);
    } else {
      var y := m.(disk := m.disk[k := e.blank]);
      NewPageHeld(m, h, f, k, e.blank);
      VisitStuck(y, h, f, k, pick(y, k), e);
    }
  }

  lemma {:induction false} FlatPlaceFails(v: map<Key, PageData>, h: Key, p: int, n: int, e: Edits)
    requires Scene(v, h, p, n, e)
    ensures var (w, q, slot) := FlatPlace(v, h.table, p, n, e);
            && (slot < 0 ==> (w, q, slot) == (v[Key(h.table, n) := e.blank], n, -1))
            && h in w && w[h] == v[h]
    decreases n - p
  {
    if p < n && e.put(v[Key(h.table, p)]).1 < 0 {
      FlatPlaceFails(v, h, p + 1, n, e);
    }
  }

  lemma OccupiedOrPinned(m: Manager, h: Key, f: int, k: Key, ch: Choice)
    requires StillHeld(m, h, f) && Legal(m.frames, ch) && Asked(m, k) && ch.victim < 0
    ensures 0 <= f < |m.frames| && m.frames[f].state == Pinned
  {
    assert !Evictable(m.frames, f);
  }

  /** The result r of the nested insert, started with page h held in frame f of m, against the flat one. */
  ghost predicate Outcome(m: Manager, h: Key, f: int, flat: (map<Key, PageData>, int, SlotNumber), r: (Manager, int, SlotNumber))
    requires Mapped(m) && h in View(m)
  {
    && (Lost(r.0, h) || StillHeld(r.0, h, f))
    && (|m.frames| == 1 && r.2 >= 0 ==> Lost(r.0, h))
    && ((View(r.0), r.1, r.2) == flat ||
        (|m.frames| == 1 && flat.2 >= 0 && r.2 < 0 && StillHeld(r.0, h, f)
         && h in View(r.0) && View(r.0)[h] == View(m)[h]))
  }

  lemma StuckOutcome(m: Manager, h: Key, f: int, p: int, n: int, e: Edits, pick: Strategy)
    requires StillHeld(m, h, f) && |m.frames| == 1 && m.frames[f].state == Pinned
    requires Sound(pick) && Scene(View(m), h, p, n, e)
    ensures Outcome(m, h, f, FlatPlace(View(m), h.table, p, n, e), Place(m, h.table, p, n, e, pick))
  {
    hide Books, Legal, Mapped, View, Place, FlatPlace;
    PlaceStuck(m, h, f, p, n, e, pick);
    FlatPlaceFails(View(m), h, p, n, e);
  }

  /** One visit during the nested insert, of a page that is fetched. */
  lemma VisitOutcome(m: Manager, h: Key, f: int, k: Key, ch: Choice, e: Edits)
    requires StillHeld(m, h, f) && Legal(m.frames, ch) && k in View(m) && h in View(m)
    requires e.put(View(m)[h]).1 < 0 && !(Asked(m, k) && ch.victim < 0)
    ensures var (x, slot) := Visit(m, k, ch, e);
            && (View(x), slot) == FlatVisit(View(m), k, e)
            && (slot < 0 ==> View(x) == View(m) && slot == -1)
            && (Lost(x, h) || StillHeld(x, h, f))
            && (|m.frames| == 1 && slot >= 0 ==> Lost(x, h))
  {
    hide Books, Legal, Asked, View, Visit;
    VisitHeld(m, h, f, k, ch, e);
    var (x, slot) := Visit(m, k, ch, e);
    if |m.frames| == 1 && h in x.table && k in x.table {
      assert x.table[h] == x.table[k];
    }
  }

  lemma PlaceStep(m: Manager, name: TableName, p: int, n: int, e: Edits, pick: Strategy)
    requires Mapped(m) && Sound(pick) && p < n
    ensures var (x, slot) := Visit(m, Key(name, p), pick(m, Key(name, p)), e);
            Place(m, name, p, n, e, pick) == if slot >= 0 then (x, p, slot) else Place(x, name, p + 1, n, e, pick)
  {
  }

  lemma FlatPlaceStep(v: map<Key, PageData>, h: Key, p: int, n: int, e: Edits)
    requires Scene(v, h, p, n, e) && p < n
    ensures var (w, slot) := FlatVisit(v, Key(h.table, p), e);
            FlatPlace(v, h.table, p, n, e) == if slot >= 0 then (w, p, slot) else FlatPlace(v, h.table, p + 1, n, e)
  {
  }

  lemma OutcomeBefore(m: Manager, x: Manager, h: Key, f: int, flat: (map<Key, PageData>, int, SlotNumber), r: (Manager, int, SlotNumber))
    requires Mapped(m) && h in View(m) && Mapped(x) && View(x) == View(m) && |x.frames| == |m.frames|
    requires Outcome(x, h, f, flat, r) || (Lost(r.0, h) && (View(r.0), r.1, r.2) == flat)
    ensures Outcome(m, h, f, flat, r)
  {
    hide Books, View, Mapped;
  }

  /** However the nested insert runs: page h stays where it is or is given up.  The insert does to the
      store what it does to a flat one, unless the pool has a single frame and h is PINNED in it. */
  lemma {:induction false} PlaceHeld(m: Manager, h: Key, f: int, p: int, n: int, e: Edits, pick: Strategy)
    requires StillHeld(m, h, f) && Sound(pick) && Scene(View(m), h, p, n, e)
    ensures Outcome(m, h, f, FlatPlace(View(m), h.table, p, n, e), Place(m, h.table, p, n, e, pick))
    decreases n - p, 1
  {
    hide Books, Mapped, Legal, Asked, View, Visit, Place, FlatPlace, FlatVisit, Outcome;
    var k := Key(h.table, p);
    if p >= n {
      PlaceLast(m, h, f, n, e, pick);
    } else if Asked(m, k) && pick(m, k).victim < 0 {
      VisitHeld(m, h, f, k, pick(m, k), e);
      OccupiedOrPinned(m, h, f, k, pick(m, k));
      StuckOutcome(m, h, f, p, n, e, pick);
    } else {
      PlaceOn(m, h, f, p, n, e, pick);
    }
  }

  lemma {:induction false} PlaceOn(m: Manager, h: Key, f: int, p: int, n: int, e: Edits, pick: Strategy)
    requires StillHeld(m, h, f) && Sound(pick) && Scene(View(m), h, p, n, e) && p < n
    requires !(Asked(m, Key(h.table, p)) && pick(m, Key(h.table, p)).victim < 0)
    ensures Outcome(m, h, f, FlatPlace(View(m), h.table, p, n, e), Place(m, h.table, p, n, e, pick))
    decreases n - p, 0
  {
    hide Books, Mapped, Legal, Asked, View, Visit, Place, FlatPlace, FlatVisit, Outcome;
    var k := Key(h.table, p);
    var (x, slot) := Visit(m, k, pick(m, k), e);
    VisitOutcome(m, h, f, k, pick(m, k), e);
    PlaceStep(m, h.table, p, n, e, pick);
    FlatPlaceStep(View(m), h, p, n, e);
    if slot >= 0 {
      Landed(m, x, h, f, View(x), p, slot);
    } else {
      PlaceAfter(m, x, h, f, p + 1, n, e, pick);
    }
  }

  lemma {:induction false} PlaceAfter(m: Manager, x: Manager, h: Key, f: int, p: int, n: int, e: Edits, pick: Strategy)
    requires Mapped(m) && (Lost(x, h) || StillHeld(x, h, f)) && View(x) == View(m) && |x.frames| == |m.frames| > 0
    requires Sound(pick) && Scene(View(m), h, p, n, e)
    ensures Outcome(m, h, f, FlatPlace(View(m), h.table, p, n, e), Place(x, h.table, p, n, e, pick))
    decreases n - p, 2
  {
    hide Books, Mapped, View, Place, FlatPlace, Outcome;
    if Lost(x, h) {
      PlaceLost(x, h, p, n, e, pick);
    } else {
      PlaceHeld(x, h, f, p, n, e, pick);
    }
    OutcomeBefore(m, x, h, f, FlatPlace(View(m), h.table, p, n, e), Place(x, h.table, p, n, e, pick));
  }

  lemma Landed(m: Manager, x: Manager, h: Key, f: int, v: map<Key, PageData>, p: int, slot: SlotNumber)
    requires Mapped(m) && h in View(m) && slot >= 0 && Mapped(x) && View(x) == v
    requires (Lost(x, h) || StillHeld(x, h, f)) && (|m.frames| == 1 ==> Lost(x, h))
    ensures Outcome(m, h, f, (v, p, slot), (x, p, slot))
  {
  }

  lemma PlaceLast(m: Manager, h: Key, f: int, n: int, e: Edits, pick: Strategy)
    requires StillHeld(m, h, f) && Sound(pick) && Scene(View(m), h, n, n, e)
    ensures Outcome(m, h, f, FlatPlace(View(m), h.table, n, n, e), Place(m, h.table, n, n, e, pick))
  {
    hide Books, Mapped, Legal, Asked, View, Visit, FlatVisit;
    var k := Key(h.table, n);
    var y := m.(disk := m.disk[k := e.blank]);
    NewPageHeld(m, h, f, k, e.blank);
    if Asked(y, k) && pick(y, k).victim < 0 {
      VisitHeld(y, h, f, k, pick(y, k), e);
      OccupiedOrPinned(y, h, f, k, pick(y, k));
      StuckOutcome(m, h, f, n, n, e, pick);
    } else {
      VisitOutcome(y, h, f, k, pick(y, k), e);
    }
  }

  // ---------------------------------------------------------------- the whole move

  /** handler_update from the failed insert_row on: the nested insert, the redirect through the pointer
      to the frame where h was, and the release. */
  ghost function Move(m: Manager, h: Key, n: int, e: Edits, pick: Strategy): (r: Manager)
    requires Mapped(m) && h in m.table && Sound(pick)
    ensures Mapped(r)
  {
    var (x, q, slot) := Place(m, h.table, 1, n, e, pick);
    if slot < 0 then
      UnpinKeepsMapped(x, h, false);
      Unpin(x, h, false).0
    else
      var y := Scribble(x, m.table[h], e.link(x.frames[m.table[h]].data, q, slot));
      UnpinKeepsMapped(y, h, true);
      Unpin(y, h, true).0
  }

  /** A write through a pointer to a frame, whatever page the frame holds by now. */
  ghost function Scribble(m: Manager, f: int, data: PageData): (n: Manager)
    requires Mapped(m) && 0 <= f < |m.frames|
    ensures Mapped(n)
  {
    m.(frames := m.frames[f := m.frames[f].(data := data)])
  }

  ghost function FlatMove(v: map<Key, PageData>, h: Key, n: int, e: Edits): map<Key, PageData>
    requires Scene(v, h, 1, n, e)
  {
    FlatPlaceFails(v, h, 1, n, e);
    var (w, q, slot) := FlatPlace(v, h.table, 1, n, e);
    if slot < 0 then w else w[h := e.link(w[h], q, slot)]
  }

  /** The update did to the store what it does to a flat one, and nothing is held or unsaved. */
  ghost predicate Right(m: Manager, h: Key, n: int, e: Edits, pick: Strategy)
    requires Mapped(m) && h in m.table && Sound(pick) && Scene(View(m), h, 1, n, e)
  {
    var r := Move(m, h, n, e, pick);
    Coherent(r, Idle) && View(r) == FlatMove(View(m), h, n, e)
  }

  /** A write through the pointer is right while the page is held. */
  lemma ScribbleHeld(x: Manager, h: Key, f: int, data: PageData)
    requires StillHeld(x, h, f)
    ensures var r := Unpin(Scribble(x, f, data), h, true).0;
            Coherent(r, Idle) && View(r) == View(x)[h := data]
  {
    assert Scribble(x, f, data) == Write(x, h, data);
    assert multiset{h} - multiset{h} == multiset{};
    PutBooks(x, multiset{h}, h, data);
    BooksAreCoherent(Put(x, h, data), h);
  }

  /** Once the page is given up the write is not: it goes to another page, or to a copy that is not
      marked dirty. */
  lemma ScribbleLost(x: Manager, h: Key, f: int, data: PageData)
    requires Lost(x, h) && 0 <= f < |x.frames| && h in View(x)
    requires h in x.table && x.table[h] == f ==> data != View(x)[h]
    ensures var r := Unpin(Scribble(x, f, data), h, true).0;
            !(Coherent(r, Idle) && View(r)[h] != View(x)[h])
  {
    if h in x.table {
      FrameInDisk(x, multiset{}, x.table[h]);
      var r := Unpin(Scribble(x, f, data), h, true).0;
      assert r == Scribble(x, f, data);
      if x.table[h] == f {
        assert !Faithful(r, Idle, r.frames[f]);
      }
    }
  }

  /** A release that fails or is not the last word leaves the view as it was. */
  lemma ReleaseAfterFailure(x: Manager, h: Key, f: int)
    requires Lost(x, h) || StillHeld(x, h, f)
    ensures var r := Unpin(x, h, false).0; Coherent(r, Idle) && View(r) == View(x)
  {
    if Books(x, multiset{h}) {
      assert multiset{h} - multiset{h} == multiset{};
      UnpinBooks(x, multiset{h}, h, false);
    } else if h in x.table {
      FrameInDisk(x, multiset{}, x.table[h]);
    }
    BooksAreCoherent(Unpin(x, h, false).0, h);
  }

  lemma LostOrHeld(x: Manager, h: Key, f: int)
    ensures !(Lost(x, h) && StillHeld(x, h, f))
  {
    if Lost(x, h) && StillHeld(x, h, f) {
      FrameInDisk(x, multiset{}, f);
      FrameInDisk(x, multiset{h}, f);
    }
  }

  /** The redirect write changes the page. */
  ghost predicate Links(e: Edits, data: PageData) {
    forall q: int, slot: SlotNumber :: slot >= 0 ==> e.link(data, q, slot) != data
  }

  lemma DataShown(m: Manager, h: Key)
    requires Mapped(m) && h in View(m) && h in m.table
    ensures View(m)[h] == m.frames[m.table[h]].data
  {
  }

  lemma HeldNow(m: Manager, h: Key)
    requires Coherent(m, Holding(h, false))
    ensures h in m.table && StillHeld(m, h, m.table[h])
  {
    BooksAreCoherent(m, h);
  }

  /** Under any strategy, an UPDATE that moves its row to another page is right if and only if the row
      fits nowhere, or the insert succeeds and the page is still held when the redirect is written. */
  lemma MoveRightIff(m: Manager, h: Key, n: int, e: Edits, pick: Strategy)
    requires Coherent(m, Holding(h, false)) && Sound(pick) && Scene(View(m), h, 1, n, e) && Links(e, View(m)[h])
    ensures var (x, q, slot) := Place(m, h.table, 1, n, e, pick);
            Right(m, h, n, e, pick) <==>
              FlatPlace(View(m), h.table, 1, n, e).2 < 0 || (slot >= 0 && StillHeld(x, h, m.table[h]))
  {
    hide Books, Mapped, View, Place, FlatPlace, Coherent, Unpin, Scribble;
    HeldNow(m, h);
    var f := m.table[h];
    PlaceHeld(m, h, f, 1, n, e, pick);
    FlatPlaceFails(View(m), h, 1, n, e);
    var (x, q, slot) := Place(m, h.table, 1, n, e, pick);
    LostOrHeld(x, h, f);
    if h in x.table {
      DataShown(x, h);
    }
    if slot < 0 {
      ReleaseAfterFailure(x, h, f);
    } else if StillHeld(x, h, f) {
      ScribbleHeld(x, h, f, e.link(x.frames[f].data, q, slot));
    } else {
      ScribbleLost(x, h, f, e.link(x.frames[f].data, q, slot));
    }
  }

  // ---------------------------------------------------------------- what a caller can check

  /** How many of the pages from p to end - 1 are not in the pool. */
  ghost function Uncached(table: map<Key, int>, name: TableName, p: int, end: int): nat
    decreases end - p
  {
    if p >= end then 0
    else (if Key(name, p) in table then 0 else 1) + Uncached(table, name, p + 1, end)
  }

  lemma {:induction false} UncachedLater(table: map<Key, int>, name: TableName, p: int, end: int, k: Key, i: int)
    requires k.page < p
    ensures Uncached(table[k := i], name, p, end) == Uncached(table, name, p, end)
    decreases end - p
  {
    if p < end {
      UncachedLater(table, name, p + 1, end, k, i);
    }
  }

  /** The pages that the insert visits before it gets to h or stops at page q end here. */
  function Reach(h: Key, q: int): int {
    if h.page <= q then h.page else q + 1
  }

  /** Nothing can take h away from page p on: it is PINNED, or every page that is visited before h is
      cached or finds a free frame. */
  ghost predicate Safe(m: Manager, h: Key, f: int, p: int, q: int)
    requires 0 <= f < |m.frames|
  {
    || m.frames[f].state == Pinned
    || (p <= h.page && Uncached(m.table, h.table, p, Reach(h, q)) <= |m.frames| - |m.table|)
  }

  /** A safe visit leaves h where it is. */
  lemma SafeVisit(m: Manager, h: Key, f: int, p: int, q: int, ch: Choice)
    requires StillHeld(m, h, f) && Legal(m.frames, ch) && Safe(m, h, f, p, q) && p <= q
    requires Key(h.table, p) in View(m)
    ensures !(Asked(m, Key(h.table, p)) && ch.victim == f)
  {
    FreeFrameLeft(m);
  }

  /** A visit that evicts nothing either finds its page or takes a free frame. */
  lemma FrameTaken(m: Manager, h: Key, p: int, q: int, ch: Choice, e: Edits)
    requires Mapped(m) && Legal(m.frames, ch) && Key(h.table, p) in m.disk && !Asked(m, Key(h.table, p)) && p < Reach(h, q)
    ensures var (k, x) := (Key(h.table, p), Visit(m, Key(h.table, p), ch, e).0);
            && Uncached(x.table, h.table, p + 1, Reach(h, q)) - (|x.frames| - |x.table|)
            == Uncached(m.table, h.table, p, Reach(h, q)) - (|m.frames| - |m.table|)
            && |x.frames| - |x.table| == |m.frames| - |m.table| - (if k in m.table then 0 else 1)
  {
    var k := Key(h.table, p);
    VisitTable(m, k, ch, e);
    hide Visit, Mapped;
    if k !in m.table {
      UncachedLater(m.table, h.table, p + 1, Reach(h, q), k, FirstFree(m.frames));
    }
  }

  lemma SafeAfter(m: Manager, h: Key, f: int, p: int, q: int, ch: Choice, e: Edits)
    requires StillHeld(m, h, f) && Legal(m.frames, ch) && Safe(m, h, f, p, q) && p < q
    requires Key(h.table, p) in View(m) && h in View(m) && e.put(View(m)[h]).1 < 0
    ensures var x := Visit(m, Key(h.table, p), ch, e).0; Safe(x, h, f, p + 1, q)
  {
    var k := Key(h.table, p);
    SafeVisit(m, h, f, p, q, ch);
    VisitKeepsFrame(m, h, k, ch, e);
    FrameInDisk(m, multiset{h}, f);
    FreeFrameLeft(m);
    if m.frames[f].state != Pinned && p < h.page {
      FrameTaken(m, h, p, q, ch, e);
    }
  }

  lemma {:induction false} SafePlace(m: Manager, h: Key, f: int, p: int, n: int, e: Edits, pick: Strategy)
    requires StillHeld(m, h, f) && Sound(pick) && Scene(View(m), h, p, n, e) && |m.frames| >= 2
    requires Safe(m, h, f, p, FlatPlace(View(m), h.table, p, n, e).1)
    ensures StillHeld(Place(m, h.table, p, n, e, pick).0, h, f)
    decreases n - p
  {
    hide Books, Mapped, Legal, Asked, View, Visit, FlatVisit, Safe, Place, FlatPlace;
    var k, q := Key(h.table, p), FlatPlace(View(m), h.table, p, n, e).1;
    if p < n {
      var (x, slot) := Visit(m, k, pick(m, k), e);
      FlatPlaceStep(View(m), h, p, n, e);
      PlaceStep(m, h.table, p, n, e, pick);
      SafeVisit(m, h, f, p, q, pick(m, k));
      VisitHeld(m, h, f, k, pick(m, k), e);
      VisitOutcome(m, h, f, k, pick(m, k), e);
      if slot < 0 {
        SafeAfter(m, h, f, p, q, pick(m, k), e);
        SafePlace(x, h, f, p + 1, n, e, pick);
      }
    } else {
      var y := m.(disk := m.disk[k := e.blank]);
      NewPageHeld(m, h, f, k, e.blank);
      SafeLast(m, h, f, n, e);
      SafeVisit(y, h, f, n, n, pick(y, k));
      VisitHeld(y, h, f, k, pick(y, k), e);
      PlaceEnd(m, h.table, n, e, pick);
    }
  }

  lemma PlaceEnd(m: Manager, name: TableName, n: int, e: Edits, pick: Strategy)
    requires Mapped(m) && Sound(pick)
    ensures var k := Key(name, n);
            var y := m.(disk := m.disk[k := e.blank]);
            var (x, slot) := Visit(y, k, pick(y, k), e);
            Place(m, name, n, n, e, pick) == (x, n, slot)
  {
  }

  lemma SafeLast(m: Manager, h: Key, f: int, n: int, e: Edits)
    requires Mapped(m) && 0 <= f < |m.frames| && h.page < n
    requires Scene(View(m), h, n, n, e) && Safe(m, h, f, n, FlatPlace(View(m), h.table, n, n, e).1)
    ensures var y := m.(disk := m.disk[Key(h.table, n) := e.blank]); Safe(y, h, f, n, n)
  {
  }

  /** The strategy that takes frame f whenever it may. */
  ghost function Greedy(f: int): (pick: Strategy)
    ensures Sound(pick)
    ensures forall m: Manager, k: Key :: Evictable(m.frames, f) ==> pick(m, k).victim == f
  {
    (m: Manager, k: Key) => if Evictable(m.frames, f) then Choice(f, m.frames, m.policy) else AnyChoice(m)
  }

  ghost function AnyChoice(m: Manager): (ch: Choice)
    ensures Legal(m.frames, ch)
  {
    if exists i :: Evictable(m.frames, i) then
      var i :| Evictable(m.frames, i);
      Choice(i, m.frames, m.policy)
    else
      Choice(-1, m.frames, m.policy)
  }

  /** Page h has not been reached, and if one page more can be served, the insert goes on behind it. */
  lemma UnsafeEarly(m: Manager, h: Key, f: int, p: int, q: int)
    requires Mapped(m) && 0 <= f < |m.frames| && p <= h.page && p <= q && !Safe(m, h, f, p, q)
    ensures p < h.page && p < Reach(h, q)
    ensures Key(h.table, p) in m.table || FirstFree(m.frames) >= 0 ==> p < q
  {
    FreeFrameLeft(m);
    assert Uncached(m.table, h.table, p + 1, p + 1) == 0;
  }

  /** A visit that is not safe gives the greedy strategy its chance, now or later. */
  lemma UnsafeVisit(m: Manager, h: Key, f: int, p: int, q: int, ch: Choice, e: Edits)
    requires StillHeld(m, h, f) && Legal(m.frames, ch) && m.frames[f].state == Occupied
    requires p <= h.page && p <= q && !Safe(m, h, f, p, q) && Key(h.table, p) in View(m)
    ensures p < h.page && Evictable(m.frames, f)
    ensures !Asked(m, Key(h.table, p)) ==>
              var x := Visit(m, Key(h.table, p), ch, e).0;
              p < q && f < |x.frames| && x.frames[f].state == Occupied && !Safe(x, h, f, p + 1, q)
  {
    hide Mapped, Books, View, Visit, Uncached;
    ViewKeys(m);
    UnsafeEarly(m, h, f, p, q);
    if !Asked(m, Key(h.table, p)) {
      VisitKeepsFrame(m, h, Key(h.table, p), ch, e);
      FrameTaken(m, h, p, q, ch, e);
    }
  }

  /** Under the policies in `pol` the strategy takes frame f whenever it may. */
  ghost predicate Takes(pick: Strategy, f: int, pol: Policy -> bool) {
    && Sound(pick)
    && (forall m: Manager, k: Key :: pol(m.policy) && Evictable(m.frames, f) ==> pick(m, k).victim == f)
    && (forall p: Policy :: pol(p) ==> pol(Advance(p)))
  }

  lemma VisitPolicy(m: Manager, k: Key, ch: Choice, e: Edits)
    requires Mapped(m) && Legal(m.frames, ch) && k in m.disk && !Asked(m, k)
    ensures Visit(m, k, ch, e).0.policy == Advance(m.policy)
  {
  }

  /** If more pages have to be fetched before h than frames are free, such a strategy takes h away. */
  lemma {:induction false} UnsafePlace(m: Manager, h: Key, f: int, p: int, n: int, e: Edits, pick: Strategy, pol: Policy -> bool)
    requires StillHeld(m, h, f) && Scene(View(m), h, p, n, e) && Takes(pick, f, pol) && pol(m.policy)
    requires m.frames[f].state == Occupied && p <= h.page && !Safe(m, h, f, p, FlatPlace(View(m), h.table, p, n, e).1)
    ensures Lost(Place(m, h.table, p, n, e, pick).0, h)
    decreases n - p
  {
    hide Books, Mapped, Legal, Asked, View, Visit, FlatVisit, Place, FlatPlace, Safe, Advance;
    var k, q := Key(h.table, p), FlatPlace(View(m), h.table, p, n, e).1;
    var (x, slot) := Visit(m, k, pick(m, k), e);
    FlatPlaceStep(View(m), h, p, n, e);
    PlaceStep(m, h.table, p, n, e, pick);
    UnsafeVisit(m, h, f, p, q, pick(m, k), e);
    VisitOutcome(m, h, f, k, pick(m, k), e);
    VisitHeld(m, h, f, k, pick(m, k), e);
    if slot < 0 {
      if Asked(m, k) {
        PlaceLost(x, h, p + 1, n, e, pick);
      } else {
        ViewKeys(m);
        VisitPolicy(m, k, pick(m, k), e);
        UnsafePlace(x, h, f, p + 1, n, e, pick, pol);
      }
    }
  }

  /** In a pool of one frame page h is given up, or the insert fails. */
  lemma OneFrameFails(m: Manager, h: Key, f: int, n: int, e: Edits, pick: Strategy)
    requires StillHeld(m, h, f) && Sound(pick) && Scene(View(m), h, 1, n, e) && |m.frames| == 1
    ensures var (x, q, slot) := Place(m, h.table, 1, n, e, pick); !(slot >= 0 && StillHeld(x, h, f))
  {
    hide Books, Mapped, View, Place, FlatPlace;
    PlaceHeld(m, h, f, 1, n, e, pick);
    LostOrHeld(Place(m, h.table, 1, n, e, pick).0, h, f);
  }

  /** A safe update succeeds with its page still held. */
  lemma SafeSucceeds(m: Manager, h: Key, f: int, n: int, e: Edits, pick: Strategy)
    requires StillHeld(m, h, f) && Sound(pick) && Scene(View(m), h, 1, n, e) && |m.frames| >= 2
    requires var flat := FlatPlace(View(m), h.table, 1, n, e); flat.2 >= 0 && Safe(m, h, f, 1, flat.1)
    ensures var (x, q, slot) := Place(m, h.table, 1, n, e, pick); slot >= 0 && StillHeld(x, h, f)
  {
    hide Books, Mapped, View, Place, FlatPlace, Safe;
    PlaceHeld(m, h, f, 1, n, e, pick);
    SafePlace(m, h, f, 1, n, e, pick);
  }

  lemma UnsafeFails(m: Manager, h: Key, f: int, n: int, e: Edits, pick: Strategy, pol: Policy -> bool)
    requires StillHeld(m, h, f) && Scene(View(m), h, 1, n, e) && Takes(pick, f, pol) && pol(m.policy)
    requires m.frames[f].state == Occupied && !Safe(m, h, f, 1, FlatPlace(View(m), h.table, 1, n, e).1)
    ensures !StillHeld(Place(m, h.table, 1, n, e, pick).0, h, f)
  {
    hide Books, Mapped, View, Place, FlatPlace, Safe;
    UnsafePlace(m, h, f, 1, n, e, pick, pol);
    LostOrHeld(Place(m, h.table, 1, n, e, pick).0, h, f);
  }

  lemma NotPinnedOccupied(m: Manager, h: Key, f: int)
    requires StillHeld(m, h, f) && m.frames[f].state != Pinned
    ensures m.frames[f].state == Occupied
  {
  }

  /** The row fits nowhere, or the pool has at least two frames and page h is PINNED or each page that the
      insert visits before h is cached or finds a free frame. */
  ghost predicate SafeToMove(m: Manager, h: Key, n: int, e: Edits)
    requires Mapped(m) && h in m.table && Scene(View(m), h, 1, n, e)
  {
    var flat := FlatPlace(View(m), h.table, 1, n, e);
    || flat.2 < 0
    || (|m.frames| >= 2 &&
        (m.frames[m.table[h]].state == Pinned ||
         Uncached(m.table, h.table, 1, Reach(h, flat.1)) <= |m.frames| - |m.table|))
  }

  /** What a caller can check before the update: every strategy moves the row correctly if and only if
      that is safe. */
  lemma MoveSafeIff(m: Manager, h: Key, n: int, e: Edits)
    requires Coherent(m, Holding(h, false)) && Scene(View(m), h, 1, n, e) && Links(e, View(m)[h])
    ensures (forall pick: Strategy :: Sound(pick) ==> Right(m, h, n, e, pick)) <==> SafeToMove(m, h, n, e)
  {
    hide Coherent, Books, Mapped, View, Place, FlatPlace, Right, Greedy, Links;
    HeldNow(m, h);
    var flat := FlatPlace(View(m), h.table, 1, n, e);
    forall pick: Strategy | Sound(pick)
      ensures flat.2 < 0 ==> Right(m, h, n, e, pick)
      ensures |m.frames| >= 2 && flat.2 >= 0 && Safe(m, h, m.table[h], 1, flat.1) ==> Right(m, h, n, e, pick)
    {
      MoveRightIff(m, h, n, e, pick);
      if |m.frames| >= 2 && flat.2 >= 0 && Safe(m, h, m.table[h], 1, flat.1) {
        SafeSucceeds(m, h, m.table[h], n, e, pick);
      }
    }
    MoveRightIff(m, h, n, e, Greedy(m.table[h]));
    if |m.frames| == 1 {
      OneFrameFails(m, h, m.table[h], n, e, Greedy(m.table[h]));
    } else if !Safe(m, h, m.table[h], 1, flat.1) {
      NotPinnedOccupied(m, h, m.table[h]);
      UnsafeFails(m, h, m.table[h], n, e, Greedy(m.table[h]), (p: Policy) => true);
    }
  }
}
