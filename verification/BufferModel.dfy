/** The buffer manager as a state machine on values: what `bm_fetch_page`, a write through the
    returned pointer, `bm_unpin_page` and `bm_destroy` do to frames, page table, counters, policy and
    disk (`storage-engine/buffer_manager.c`, `storage-engine/buffer_frame.c`). */
module BufferModel {
  import opened PoolModel
  import opened EvictionPolicies

  datatype Manager = Manager(
    frames: seq<Frame>, clock: int, hits: int, misses: int, evictions: int,
    table: map<Key, int>, policy: Policy, disk: map<Key, PageData>)

  // ---------------------------------------------------------------- frame edits

  /** bp_find_free_frame: the first FREE frame, or -1. */
  function FirstFree(fs: seq<Frame>): (v: int)
    ensures v == -1 ==> forall i :: 0 <= i < |fs| ==> fs[i].state != Free
    ensures v != -1 ==> 0 <= v < |fs| && fs[v].state == Free && forall i :: 0 <= i < v ==> fs[i].state != Free
  {
    if fs == [] then -1
    else
      var last := |fs| - 1;
      var v := FirstFree(fs[..last]);
      if v != -1 then v else if fs[last].state == Free then last else -1
  }

  function LoadedFrame(k: Key, data: PageData, time: int): Frame {
    Frame(k, Occupied, 1, false, true, time, data)
  }

  function PinnedFrame(f: Frame, time: int): Frame {
    f.(pinCount := f.pinCount + 1, state := Pinned, refBit := true, lastAccess := time)
  }

  function UnpinnedFrame(f: Frame, dirty: bool): Frame {
    f.(dirty := f.dirty || dirty, pinCount := f.pinCount - 1,
       state := if f.pinCount == 1 then Occupied else f.state)
  }

  // ---------------------------------------------------------------- page table and pool agree

  /** The page table maps exactly the pages of the non-free frames, each to its own frame. */
  ghost predicate Mapped(m: Manager) {
    && (forall k :: k in m.table ==>
          && 0 <= m.table[k] < |m.frames|
          && m.frames[m.table[k]].state != Free
          && m.frames[m.table[k]].key == k)
    && (forall i :: 0 <= i < |m.frames| && m.frames[i].state != Free ==>
          m.frames[i].key in m.table && m.table[m.frames[i].key] == i)
  }

  // ---------------------------------------------------------------- transitions

  /** The hit branch of bm_get_frame. */
  function Hit(m: Manager, k: Key): Manager
    requires k in m.table && 0 <= m.table[k] < |m.frames|
  {
    var i := m.table[k];
    m.(frames := m.frames[i := PinnedFrame(m.frames[i], m.clock + 1)],
       clock := m.clock + 1, hits := m.hits + 1, policy := Advance(m.policy))
  }

  /** Give up the page of frame i: out of the page table, back to disk if dirty. */
  function EvictFrame(m: Manager, i: int): Manager
    requires 0 <= i < |m.frames|
  {
    var f := m.frames[i];
    m.(frames := m.frames[i := EMPTY_FRAME],
       evictions := m.evictions + 1,
       table := m.table - {f.key},
       disk := if f.dirty then m.disk[f.key := f.data] else m.disk)
  }

  /** Steps 3 and 4 of bm_get_frame: read the page from disk into frame i. */
  function Load(m: Manager, i: int, k: Key): (Manager, int)
    requires 0 <= i < |m.frames|
  {
    if k !in m.disk then (m, -1)
    else
      (m.(frames := m.frames[i := LoadedFrame(k, m.disk[k], m.clock + 1)],
          clock := m.clock + 1, misses := m.misses + 1,
          table := m.table[k := i], policy := Advance(m.policy)), i)
  }

  /** What the evict callback has done before the victim is written back. */
  function Chosen(m: Manager, ch: Choice): Manager {
    m.(frames := ch.frames, policy := ch.policy)
  }

  /** bm_get_frame, with the outcome `ch` of the policy should it be asked. */
  function FetchVia(m: Manager, k: Key, ch: Choice): (Manager, int)
    requires k in m.table ==> 0 <= m.table[k] < |m.frames|
    requires Legal(m.frames, ch)
  {
    if k in m.table then (Hit(m, k), m.table[k])
    else if FirstFree(m.frames) >= 0 then Load(m, FirstFree(m.frames), k)
    else if ch.victim < 0 then (Chosen(m, ch), -1)
    else Load(EvictFrame(Chosen(m, ch), ch.victim), ch.victim, k)
  }

  /** bm_unpin_page */
  function Unpin(m: Manager, k: Key, dirty: bool): (Manager, int)
    requires k in m.table ==> 0 <= m.table[k] < |m.frames|
  {
    if k !in m.table then (m, -1)
    else
      var i := m.table[k];
      if m.frames[i].pinCount <= 0 then (m, -1)
      else (m.(frames := m.frames[i := UnpinnedFrame(m.frames[i], dirty)]), 0)
  }

  /** A caller overwrites the page through the pointer it got from bm_fetch_page. */
  function Write(m: Manager, k: Key, data: PageData): Manager
    requires k in m.table && 0 <= m.table[k] < |m.frames|
  {
    var i := m.table[k];
    m.(frames := m.frames[i := m.frames[i].(data := data)])
  }

  /** The flush of bm_destroy over the first n frames. */
  function Flushed(fs: seq<Frame>, disk: map<Key, PageData>, n: nat): map<Key, PageData>
    requires n <= |fs|
  {
    if n == 0 then disk
    else
      var d := Flushed(fs, disk, n - 1);
      var f := fs[n - 1];
      if f.state != Free && f.dirty then d[f.key := f.data] else d
  }

  // ---------------------------------------------------------------- every step keeps the bijection

  lemma HitKeepsMapped(m: Manager, k: Key)
    requires Mapped(m) && k in m.table
    ensures Mapped(Hit(m, k))
  {
  }

  lemma ChosenKeepsMapped(m: Manager, ch: Choice)
    requires Mapped(m) && Legal(m.frames, ch)
    ensures Mapped(Chosen(m, ch))
  {
    var n := Chosen(m, ch);
    forall k | k in n.table
      ensures 0 <= n.table[k] < |n.frames| && n.frames[n.table[k]].state != Free && n.frames[n.table[k]].key == k
    {
      var i := m.table[k];
      assert ch.frames[i] == m.frames[i].(refBit := ch.frames[i].refBit);
    }
    forall i | 0 <= i < |n.frames| && n.frames[i].state != Free
      ensures n.frames[i].key in n.table && n.table[n.frames[i].key] == i
    {
      assert ch.frames[i] == m.frames[i].(refBit := ch.frames[i].refBit);
    }
  }

  lemma EvictKeepsMapped(m: Manager, i: int)
    requires Mapped(m) && 0 <= i < |m.frames| && m.frames[i].state != Free
    ensures Mapped(EvictFrame(m, i))
  {
  }

  lemma LoadKeepsMapped(m: Manager, i: int, k: Key)
    requires Mapped(m) && 0 <= i < |m.frames| && m.frames[i].state == Free && k !in m.table
    ensures Mapped(Load(m, i, k).0)
  {
  }

  lemma FetchKeepsMapped(m: Manager, k: Key, ch: Choice)
    requires Mapped(m) && Legal(m.frames, ch)
    ensures Mapped(FetchVia(m, k, ch).0)
    ensures FetchVia(m, k, ch).1 >= 0 ==>
              k in FetchVia(m, k, ch).0.table && FetchVia(m, k, ch).0.table[k] == FetchVia(m, k, ch).1
  {
    if k !in m.table && FirstFree(m.frames) < 0 {
      ChosenKeepsMapped(m, ch);
      if ch.victim >= 0 {
        EvictingKeepsMapped(m, k, ch);
      }
    }
  }

  lemma EvictingKeepsMapped(m: Manager, k: Key, ch: Choice)
    requires Mapped(m) && Legal(m.frames, ch) && k !in m.table && ch.victim >= 0
    ensures Mapped(Load(EvictFrame(Chosen(m, ch), ch.victim), ch.victim, k).0)
  {
    ChosenKeepsMapped(m, ch);
    var n := Chosen(m, ch);
    assert ch.frames[ch.victim] == m.frames[ch.victim].(refBit := ch.frames[ch.victim].refBit);
    EvictKeepsMapped(n, ch.victim);
    LoadKeepsMapped(EvictFrame(n, ch.victim), ch.victim, k);
  }

  /** The page of frame f is the one used last. */
  ghost predicate JustUsed(m: Manager, f: int) {
    && 0 <= f < |m.frames|
    && (forall i :: 0 <= i < |m.frames| ==> m.frames[i].lastAccess <= m.clock)
    && (forall i :: 0 <= i < |m.frames| && i != f && m.frames[i].state != Free ==>
          m.frames[i].lastAccess < m.frames[f].lastAccess)
  }

  lemma FetchedIsJustUsed(m: Manager, k: Key, ch: Choice)
    requires Mapped(m) && Legal(m.frames, ch) && forall i :: 0 <= i < |m.frames| ==> m.frames[i].lastAccess <= m.clock
    requires m.clock >= 0
    ensures FetchVia(m, k, ch).1 >= 0 ==> JustUsed(FetchVia(m, k, ch).0, FetchVia(m, k, ch).1)
  {
    forall i | 0 <= i < |m.frames|
      ensures ch.frames[i] == m.frames[i].(refBit := ch.frames[i].refBit)
    {
    }
  }

  lemma UnpinKeepsMapped(m: Manager, k: Key, dirty: bool)
    requires Mapped(m)
    ensures Mapped(Unpin(m, k, dirty).0)
  {
  }

  lemma WriteKeepsMapped(m: Manager, k: Key, data: PageData)
    requires Mapped(m) && k in m.table
    ensures Mapped(Write(m, k, data))
  {
  }
}
