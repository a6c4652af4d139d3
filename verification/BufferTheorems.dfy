/** Properties of every run of the buffer manager, under any replacement strategy. */
module BufferTheorems {
  import opened Sets
  import opened PoolModel
  import opened EvictionPolicies
  import opened BufferModel

  datatype Event =
    | FetchEvent(key: Key, choice: Choice)
    | UnpinEvent(key: Key, dirty: bool)
    | WriteEvent(key: Key, data: PageData)
    | CreateEvent(key: Key, data: PageData)   // write_page of a page that does not exist yet

  ghost predicate Enabled(m: Manager, e: Event) {
    match e
    case FetchEvent(_, ch) => Legal(m.frames, ch)
    case UnpinEvent(_, _) => true
    case WriteEvent(k, _) => k in m.table
    case CreateEvent(k, _) => k !in m.disk && k !in m.table
  }

  /** One step of the pool; the page table and the frames stay a bijection. */
  ghost function After(m: Manager, e: Event): (n: Manager)
    requires Mapped(m) && Enabled(m, e)
    ensures Mapped(n)
  {
    match e
    case FetchEvent(k, ch) => FetchKeepsMapped(m, k, ch); FetchVia(m, k, ch).0
    case UnpinEvent(k, dirty) => UnpinKeepsMapped(m, k, dirty); Unpin(m, k, dirty).0
    case WriteEvent(k, data) => WriteKeepsMapped(m, k, data); Write(m, k, data)
    case CreateEvent(k, data) => m.(disk := m.disk[k := data])
  }

  ghost predicate RunsTo(m: Manager, events: seq<Event>, n: Manager)
    requires Mapped(m)
    decreases |events|
  {
    if events == [] then n == m
    else Enabled(m, events[0]) && RunsTo(After(m, events[0]), events[1..], n)
  }

  /** bm_init */
  ghost predicate Initial(m: Manager) {
    && (forall i :: 0 <= i < |m.frames| ==> m.frames[i] == EMPTY_FRAME)
    && m.table == map[]
    && m.clock == m.hits == m.misses == m.evictions == 0
  }

  // ---------------------------------------------------------------- bijection and conservation

  ghost function NonFree(fs: seq<Frame>): set<int> {
    set i | 0 <= i < |fs| && fs[i].state != Free
  }

  /** The counters account for every non-free frame and every tick of the clock. */
  ghost predicate Conserved(m: Manager) {
    && |NonFree(m.frames)| == m.misses - m.evictions
    && m.clock == m.hits + m.misses
  }

  lemma SameNonFree(fs: seq<Frame>, gs: seq<Frame>)
    requires |fs| == |gs| && forall i :: 0 <= i < |fs| ==> (fs[i].state == Free <==> gs[i].state == Free)
    ensures NonFree(fs) == NonFree(gs)
  {
  }

  lemma LoadConserves(m: Manager, i: int, k: Key)
    requires Conserved(m) && 0 <= i < |m.frames| && m.frames[i].state == Free
    ensures Conserved(Load(m, i, k).0)
  {
    var n := Load(m, i, k).0;
    if k in m.disk {
      assert NonFree(n.frames) == NonFree(m.frames) + {i};
    }
  }

  lemma EvictConserves(m: Manager, i: int)
    requires Conserved(m) && 0 <= i < |m.frames| && m.frames[i].state != Free
    ensures Conserved(EvictFrame(m, i))
  {
    assert NonFree(EvictFrame(m, i).frames) == NonFree(m.frames) - {i};
  }

  lemma FetchConserves(m: Manager, k: Key, ch: Choice)
    requires Mapped(m) && Conserved(m) && Legal(m.frames, ch)
    ensures Conserved(FetchVia(m, k, ch).0)
  {
    if k in m.table {
      SameNonFree(m.frames, Hit(m, k).frames);
    } else if FirstFree(m.frames) >= 0 {
      LoadConserves(m, FirstFree(m.frames), k);
    } else {
      var n := Chosen(m, ch);
      forall i | 0 <= i < |m.frames|
        ensures n.frames[i].state == m.frames[i].state
      {
        assert ch.frames[i] == m.frames[i].(refBit := ch.frames[i].refBit);
      }
      SameNonFree(m.frames, n.frames);
      if ch.victim >= 0 {
        EvictConserves(n, ch.victim);
        LoadConserves(EvictFrame(n, ch.victim), ch.victim, k);
      }
    }
  }

  /** In every run from an initialised pool, page table and frames are a bijection, no page sits in
      two frames, and the counters are exact, also when a load fails after an eviction. */
  lemma {:induction false} RunKeepsBooks(m: Manager, events: seq<Event>, n: Manager)
    requires Mapped(m) && Conserved(m) && RunsTo(m, events, n)
    ensures Mapped(n) && Conserved(n)
    ensures |n.table| == n.misses - n.evictions
    ensures forall i, j :: 0 <= i < j < |n.frames| && n.frames[i].state != Free && n.frames[j].state != Free ==>
              n.frames[i].key != n.frames[j].key
    decreases |events|
  {
    if events == [] {
      TableSize(m);
    } else {
      match events[0] {
        case FetchEvent(k, ch) => FetchConserves(m, k, ch);
        case UnpinEvent(k, dirty) => SameNonFree(m.frames, Unpin(m, k, dirty).0.frames);
        case WriteEvent(k, data) => SameNonFree(m.frames, Write(m, k, data).frames);
        case CreateEvent(k, data) =>
      }
      RunKeepsBooks(After(m, events[0]), events[1..], n);
    }
  }

  lemma InitialBooks(m: Manager)
    requires Initial(m)
    ensures Mapped(m) && Conserved(m)
  {
    assert NonFree(m.frames) == {};
  }

  /** The page table has one entry per non-free frame. */
  lemma TableSize(m: Manager)
    requires Mapped(m)
    ensures |m.table| == |NonFree(m.frames)|
  {
    assert m.table.Values == NonFree(m.frames) by {
      forall i | i in NonFree(m.frames)
        ensures i in m.table.Values
      {
        assert m.frames[i].key in m.table.Keys;
      }
    }
    InjectiveSize(m.table);
  }

  lemma {:induction false} InjectiveSize(t: map<Key, int>)
    requires forall j, k :: j in t && k in t && t[j] == t[k] ==> j == k
    ensures |t| == |t.Values|
    decreases |t|
  {
    if |t.Keys| > 0 {
      var k := Member(t.Keys);
      var u := t - {k};
      InjectiveSize(u);
      assert t == u[k := t[k]];
      assert t.Values == u.Values + {t[k]} by {
        forall v | v in t.Values
          ensures v in u.Values + {t[k]}
        {
          var j :| j in t && t[j] == v;
          assert j == k || (j in u && u[j] == v);
        }
        assert k in t.Keys;
        forall v | v in u.Values
          ensures v in t.Values
        {
          var j :| j in u && u[j] == v;
          assert j in t && t[j] == v;
        }
      }
    }
  }

  /** A free frame is left exactly while the page table is smaller than the pool. */
  lemma FreeFrameLeft(m: Manager)
    requires Mapped(m)
    ensures |m.table| <= |m.frames|
    ensures FirstFree(m.frames) >= 0 <==> |m.table| < |m.frames|
  {
    TableSize(m);
    var all := Range(0, |m.frames|);
    SubsetSize(NonFree(m.frames), all);
    var v := FirstFree(m.frames);
    if v >= 0 {
      assert v in all && v !in NonFree(m.frames);
    } else {
      assert NonFree(m.frames) == all;
    }
  }

  /** A fetch of a page that does not exist fails and counts nothing, but if the pool is full it has given
      up a cached page first. */
  lemma AbsentPageCosts(m: Manager, k: Key, ch: Choice)
    requires Mapped(m) && Legal(m.frames, ch) && k !in m.disk && k !in m.table
    ensures var (n, r) := FetchVia(m, k, ch);
            && r == -1 && n.hits == m.hits && n.misses == m.misses && n.clock == m.clock
            && (|m.table| == |m.frames| && ch.victim >= 0 ==>
                  && 0 <= ch.victim < |m.frames| && m.frames[ch.victim].key in m.table
                  && n.evictions == m.evictions + 1 && n.table == m.table - {m.frames[ch.victim].key})
            && (|m.table| < |m.frames| || ch.victim < 0 ==> n.evictions == m.evictions && n.table == m.table)
  {
    FreeFrameLeft(m);
    if FirstFree(m.frames) < 0 && ch.victim >= 0 {
      assert ch.frames[ch.victim] == m.frames[ch.victim].(refBit := ch.frames[ch.victim].refBit);
    }
  }
}
