/** Sequential workloads: every page of a trace is fetched and released before the next one. */
module AccessRuns {
  import opened PoolModel
  import opened EvictionPolicies
  import opened BufferModel
  import opened BufferTheorems

  /** A pool between two accesses: nothing pinned. */
  ghost predicate Ready(m: Manager) {
    && Mapped(m)
    && |m.frames| > 0
    && forall i :: 0 <= i < |m.frames| && m.frames[i].state != Free ==>
         m.frames[i].state == Occupied && m.frames[i].pinCount == 0
  }

  /** Fetch and release one page. */
  ghost function Access(m: Manager, k: Key, ch: Choice): Manager
    requires Mapped(m) && Legal(m.frames, ch)
  {
    FetchKeepsMapped(m, k, ch);
    Unpin(FetchVia(m, k, ch).0, k, false).0
  }

  /** The policy is asked only on a miss without a free frame. */
  ghost predicate Asked(m: Manager, k: Key) {
    k !in m.table && FirstFree(m.frames) < 0
  }

  /** `ch` is a possible outcome of the pool's own policy for an access to k. */
  ghost predicate PolicyChoice(m: Manager, k: Key, ch: Choice) {
    Legal(m.frames, ch) && (Asked(m, k) ==> EvictOutcome(m.policy, m.frames, ch))
  }

  /** n is reached from m by serving trace[pos..] with evictions chosen in any way at all: online,
      offline or at random, as long as a frame is evicted only when none is free. */
  ghost predicate ServedBy(m: Manager, trace: seq<Key>, pos: nat, n: Manager)
    requires Mapped(m)
    decreases |trace| - pos
  {
    if pos >= |trace| then n == m
    else exists ch :: Legal(m.frames, ch) && AccessAndServe(m, trace, pos, ch, n)
  }

  ghost predicate AccessAndServe(m: Manager, trace: seq<Key>, pos: nat, ch: Choice, n: Manager)
    requires Mapped(m) && Legal(m.frames, ch) && pos < |trace|
    decreases |trace| - pos, 0
  {
    var m' := Access(m, trace[pos], ch);
    Mapped(m') && ServedBy(m', trace, pos + 1, n)
  }

  /** As ServedBy, with the pool's own policy making the choices. */
  ghost predicate ServedByPolicy(m: Manager, trace: seq<Key>, pos: nat, n: Manager)
    requires Mapped(m)
    decreases |trace| - pos
  {
    if pos >= |trace| then n == m
    else exists ch :: PolicyChoice(m, trace[pos], ch) && AccessAndServeByPolicy(m, trace, pos, ch, n)
  }

  ghost predicate AccessAndServeByPolicy(m: Manager, trace: seq<Key>, pos: nat, ch: Choice, n: Manager)
    requires Mapped(m) && Legal(m.frames, ch) && pos < |trace|
    decreases |trace| - pos, 0
  {
    var m' := Access(m, trace[pos], ch);
    Mapped(m') && ServedByPolicy(m', trace, pos + 1, n)
  }

  lemma {:induction false} PolicyRunIsRun(m: Manager, trace: seq<Key>, pos: nat, n: Manager)
    requires Mapped(m) && ServedByPolicy(m, trace, pos, n)
    ensures ServedBy(m, trace, pos, n)
    decreases |trace| - pos
  {
    if pos < |trace| {
      var ch := PolicyStep(m, trace, pos, n);
      PolicyRunIsRun(Access(m, trace[pos], ch), trace, pos + 1, n);
      assert AccessAndServe(m, trace, pos, ch, n);
    }
  }

  lemma ServedEnd(m: Manager, trace: seq<Key>, pos: nat, n: Manager)
    requires Mapped(m) && ServedBy(m, trace, pos, n) && pos >= |trace|
    ensures n == m
  {
  }

  lemma ServedStep(m: Manager, trace: seq<Key>, pos: nat, n: Manager) returns (ch: Choice)
    requires Mapped(m) && ServedBy(m, trace, pos, n) && pos < |trace|
    ensures Legal(m.frames, ch) && Mapped(Access(m, trace[pos], ch))
    ensures ServedBy(Access(m, trace[pos], ch), trace, pos + 1, n)
  {
    ch :| Legal(m.frames, ch) && AccessAndServe(m, trace, pos, ch, n);
  }

  lemma PolicyEnd(m: Manager, trace: seq<Key>, pos: nat, n: Manager)
    requires Mapped(m) && ServedByPolicy(m, trace, pos, n) && pos >= |trace|
    ensures n == m
  {
  }

  lemma PolicyStep(m: Manager, trace: seq<Key>, pos: nat, n: Manager) returns (ch: Choice)
    requires Mapped(m) && ServedByPolicy(m, trace, pos, n) && pos < |trace|
    ensures PolicyChoice(m, trace[pos], ch) && Mapped(Access(m, trace[pos], ch))
    ensures ServedByPolicy(Access(m, trace[pos], ch), trace, pos + 1, n)
  {
    ch :| PolicyChoice(m, trace[pos], ch) && AccessAndServeByPolicy(m, trace, pos, ch, n);
  }

  // ---------------------------------------------------------------- the effect of one access

  lemma UnpinReady(m: Manager, k: Key)
    requires Mapped(m) && |m.frames| > 0 && k in m.table && m.frames[m.table[k]].pinCount == 1
    requires forall i :: 0 <= i < |m.frames| && m.frames[i].state != Free && i != m.table[k] ==>
               m.frames[i].state == Occupied && m.frames[i].pinCount == 0
    ensures Ready(Unpin(m, k, false).0)
  {
    UnpinKeepsMapped(m, k, false);
  }

  lemma AccessHit(m: Manager, k: Key, ch: Choice)
    requires Ready(m) && Legal(m.frames, ch) && k in m.table
    ensures var n := Access(m, k, ch);
            && Ready(n) && n.table == m.table && n.misses == m.misses && n.hits == m.hits + 1
            && n.clock == m.clock + 1
            && n.policy == Advance(m.policy) && n.disk == m.disk
            && |n.frames| == |m.frames|
            && (forall i :: 0 <= i < |n.frames| ==>
                  n.frames[i].lastAccess == if i == m.table[k] then n.clock else m.frames[i].lastAccess)
  {
    HitKeepsMapped(m, k);
    UnpinReady(Hit(m, k), k);
  }

  lemma AccessIntoFree(m: Manager, k: Key, ch: Choice)
    requires Ready(m) && Legal(m.frames, ch) && k !in m.table && k in m.disk && FirstFree(m.frames) >= 0
    ensures var n, i := Access(m, k, ch), FirstFree(m.frames);
            && Ready(n) && n.table == m.table[k := i] && n.misses == m.misses + 1 && n.hits == m.hits
            && n.clock == m.clock + 1
            && n.policy == Advance(m.policy) && n.disk == m.disk
            && |n.frames| == |m.frames|
            && (forall j :: 0 <= j < |n.frames| ==>
                  n.frames[j].lastAccess == if j == i then n.clock else m.frames[j].lastAccess)
  {
    LoadKeepsMapped(m, FirstFree(m.frames), k);
    UnpinReady(Load(m, FirstFree(m.frames), k).0, k);
  }

  lemma AccessEvicting(m: Manager, k: Key, ch: Choice)
    requires Ready(m) && Legal(m.frames, ch) && Asked(m, k) && k in m.disk
    ensures Evictable(m.frames, ch.victim) && m.frames[ch.victim].key in m.table
    ensures var n := Access(m, k, ch);
            && Ready(n) && n.table == (m.table - {m.frames[ch.victim].key})[k := ch.victim]
            && n.misses == m.misses + 1 && n.hits == m.hits
            && n.clock == m.clock + 1
            && n.policy == Advance(ch.policy) && m.disk.Keys <= n.disk.Keys
            && |n.frames| == |m.frames|
            && (forall j :: 0 <= j < |n.frames| ==>
                  n.frames[j].lastAccess == if j == ch.victim then n.clock else m.frames[j].lastAccess)
  {
    assert Evictable(m.frames, 0);
    var c, v := Chosen(m, ch), ch.victim;
    ChosenKeepsMapped(m, ch);
    forall j | 0 <= j < |m.frames|
      ensures c.frames[j] == m.frames[j].(refBit := c.frames[j].refBit)
    {
    }
    var e := EvictFrame(c, v);
    EvictKeepsMapped(c, v);
    LoadKeepsMapped(e, v, k);
    UnpinReady(Load(e, v, k).0, k);
  }

  /** What an access to x makes of the cached pages s, giving up v if need be. */
  ghost function Served(s: set<Key>, v: Key, x: Key, cap: nat): set<Key> {
    if x in s then s else if |s| < cap then s + {x} else s - {v} + {x}
  }

  /** An access in terms of the set of cached pages. */
  lemma AccessSummary(m: Manager, k: Key, ch: Choice)
    requires Ready(m) && Legal(m.frames, ch) && k in m.disk
    ensures var n := Access(m, k, ch);
            && Mapped(n) && Ready(n)
            && |n.frames| == |m.frames|
            && m.disk.Keys <= n.disk.Keys
            && n.misses == m.misses + (if k in m.table.Keys then 0 else 1)
            && n.hits == m.hits + (if k in m.table.Keys then 1 else 0)
            && n.table.Keys == Served(m.table.Keys, EvictedKey(m, ch), k, |m.frames|)
    ensures |m.table.Keys| <= |m.frames|
    ensures k !in m.table.Keys && |m.table.Keys| >= |m.frames| ==>
              Asked(m, k) && Evictable(m.frames, ch.victim) && EvictedKey(m, ch) in m.table.Keys
  {
    hide Mapped, Access, Legal;
    FreeFrameLeft(m);
    if k in m.table {
      AccessHit(m, k, ch);
    } else if FirstFree(m.frames) >= 0 {
      AccessIntoFree(m, k, ch);
    } else {
      AccessEvicting(m, k, ch);
    }
  }

  /** The page in the frame that the choice points at. */
  ghost function EvictedKey(m: Manager, ch: Choice): Key {
    if 0 <= ch.victim < |m.frames| then m.frames[ch.victim].key else Key("", -1)
  }

  lemma InitialReady(m: Manager)
    requires Initial(m) && |m.frames| > 0
    ensures Ready(m)
  {
    InitialBooks(m);
  }

  /** Accessing a page twice in a row hits the second time under every policy, NoCache included. */
  lemma RepeatedAccessHits(m: Manager, k: Key, ch: Choice, again: Choice)
    requires Ready(m) && Legal(m.frames, ch) && k in m.disk
    requires Legal(Access(m, k, ch).frames, again)
    ensures Mapped(Access(m, k, ch))
    ensures var n := Access(m, k, ch);
            Access(n, k, again).hits == n.hits + 1 && Access(n, k, again).misses == n.misses
  {
    hide Access, Legal, FirstFree;
    AccessSummary(m, k, ch);
    AccessHit(Access(m, k, ch), k, again);
  }
}
