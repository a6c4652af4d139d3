/** The stack property of LRU: a pool of k frames always holds exactly the k most recently used pages
    of the trace, so larger pools contain smaller ones and never hit less. */
module LruStack {
  import opened Sets
  import opened PoolModel
  import opened EvictionPolicies
  import opened BufferModel
  import opened BufferTheorems
  import opened AccessRuns
  import opened Belady

  // ---------------------------------------------------------------- recency, from the trace alone

  /** The pages accessed before position pos. */
  ghost function Seen(trace: seq<Key>, pos: nat): set<Key>
    requires pos <= |trace|
  {
    Elements(trace[..pos])
  }

  /** The position of the last access to k before pos, -1 when there is none. */
  ghost function LastUse(trace: seq<Key>, pos: nat, k: Key): (t: int)
    requires pos <= |trace|
    ensures t == -1 <==> k !in Seen(trace, pos)
    ensures t != -1 ==> 0 <= t < pos && trace[t] == k
  {
    if pos == 0 then -1
    else if trace[pos - 1] == k then assert trace[..pos][pos - 1] == k; pos - 1
    else
      assert trace[..pos] == trace[..pos - 1] + [trace[pos - 1]];
      LastUse(trace, pos - 1, k)
  }

  lemma SeenStep(trace: seq<Key>, pos: nat)
    requires pos < |trace|
    ensures Seen(trace, pos + 1) == Seen(trace, pos) + {trace[pos]}
  {
    assert trace[..pos + 1] == trace[..pos] + [trace[pos]];
  }

  lemma LastUseStep(trace: seq<Key>, pos: nat, k: Key)
    requires pos < |trace|
    ensures LastUse(trace, pos + 1, k) == if k == trace[pos] then pos else LastUse(trace, pos, k)
  {
  }

  /** The pages used more recently than k. */
  ghost function Newer(trace: seq<Key>, pos: nat, k: Key): set<Key>
    requires pos <= |trace|
  {
    set y | y in Seen(trace, pos) && LastUse(trace, pos, y) > LastUse(trace, pos, k)
  }

  /** k is one of the cap most recently used pages. */
  ghost predicate AmongRecent(trace: seq<Key>, pos: nat, k: Key, cap: nat)
    requires pos <= |trace|
  {
    k in Seen(trace, pos) && |Newer(trace, pos, k)| < cap
  }

  /** The accesses from pos on that find their page among the cap most recently used ones. */
  ghost function RecentHits(trace: seq<Key>, pos: nat, cap: nat): nat
    decreases |trace| - pos
  {
    if pos >= |trace| then 0
    else (if AmongRecent(trace, pos, trace[pos], cap) then 1 else 0) + RecentHits(trace, pos + 1, cap)
  }

  lemma {:induction false} RecentHitsGrow(trace: seq<Key>, pos: nat, cap: nat, cap': nat)
    requires cap <= cap'
    ensures RecentHits(trace, pos, cap) <= RecentHits(trace, pos, cap')
    decreases |trace| - pos
  {
    if pos < |trace| {
      RecentHitsGrow(trace, pos + 1, cap, cap');
    }
  }

  // ---------------------------------------------------------------- the invariant on cached sets

  /** s is a set of at most cap pages such that every page that was used and is not in s is older than
      all of s, and was given up only because s is full. */
  ghost predicate Newest(s: set<Key>, trace: seq<Key>, pos: nat, cap: nat)
    requires pos <= |trace|
  {
    && s <= Seen(trace, pos)
    && |s| <= cap
    && (forall y :: y in Seen(trace, pos) && y !in s ==>
          |s| == cap && forall z :: z in s ==> LastUse(trace, pos, z) > LastUse(trace, pos, y))
  }

  lemma NewestIsAmongRecent(s: set<Key>, trace: seq<Key>, pos: nat, cap: nat, k: Key)
    requires pos <= |trace| && Newest(s, trace, pos, cap)
    ensures k in s <==> AmongRecent(trace, pos, k, cap)
  {
    var newer := Newer(trace, pos, k);
    if k in s {
      SubsetSize(newer, s - {k});
    } else if k in Seen(trace, pos) {
      SubsetSize(s, newer);
    }
  }

  lemma NewestSize(s: set<Key>, trace: seq<Key>, pos: nat, cap: nat)
    requires pos <= |trace| && Newest(s, trace, pos, cap)
    ensures |s| == if |Seen(trace, pos)| < cap then |Seen(trace, pos)| else cap
  {
    SubsetSize(s, Seen(trace, pos));
    if |s| < cap {
      assert s == Seen(trace, pos);
    }
  }

  lemma NewestHit(s: set<Key>, trace: seq<Key>, pos: nat, cap: nat)
    requires pos < |trace| && Newest(s, trace, pos, cap) && trace[pos] in s
    ensures Newest(s, trace, pos + 1, cap)
  {
    SeenStep(trace, pos);
  }

  lemma NewestFree(s: set<Key>, trace: seq<Key>, pos: nat, cap: nat)
    requires pos < |trace| && Newest(s, trace, pos, cap) && trace[pos] !in s && |s| < cap
    ensures Newest(s + {trace[pos]}, trace, pos + 1, cap)
  {
    SeenStep(trace, pos);
  }

  lemma NewestEvict(s: set<Key>, trace: seq<Key>, pos: nat, cap: nat, v: Key)
    requires pos < |trace| && Newest(s, trace, pos, cap) && trace[pos] !in s && |s| == cap && v in s
    requires forall z :: z in s ==> LastUse(trace, pos, v) <= LastUse(trace, pos, z)
    ensures Newest(s - {v} + {trace[pos]}, trace, pos + 1, cap)
  {
    hide LastUse, Seen;
    var x := trace[pos];
    var s' := s - {v} + {x};
    SeenStep(trace, pos);
    assert |s - {v}| == cap - 1;
    forall y, z | y in Seen(trace, pos + 1) && y !in s' && z in s'
      ensures LastUse(trace, pos + 1, z) > LastUse(trace, pos + 1, y)
    {
      LastUseStep(trace, pos, y);
      LastUseStep(trace, pos, z);
      if z != x && y == v {
        assert LastUse(trace, pos, y) != LastUse(trace, pos, z);
      }
    }
  }

  lemma NewestServed(s: set<Key>, trace: seq<Key>, pos: nat, cap: nat, v: Key)
    requires pos < |trace| && Newest(s, trace, pos, cap)
    requires trace[pos] !in s && |s| >= cap ==>
               v in s && forall z :: z in s ==> LastUse(trace, pos, v) <= LastUse(trace, pos, z)
    ensures Newest(Served(s, v, trace[pos], cap), trace, pos + 1, cap)
  {
    if trace[pos] in s {
      NewestHit(s, trace, pos, cap);
    } else if |s| < cap {
      NewestFree(s, trace, pos, cap);
    } else {
      NewestEvict(s, trace, pos, cap, v);
    }
  }

  // ---------------------------------------------------------------- the buffer manager under LRU

  /** An LRU pool that has served trace[..pos]. */
  ghost predicate LruState(m: Manager, trace: seq<Key>, pos: nat)
    requires pos <= |trace|
  {
    && Ready(m)
    && m.policy == Lru
    && m.clock == pos
    && (forall k :: k in m.table ==> m.frames[m.table[k]].lastAccess == LastUse(trace, pos, k) + 1)
    && Newest(m.table.Keys, trace, pos, |m.frames|)
  }

  lemma LruStepTimes(m: Manager, trace: seq<Key>, pos: nat, n: Manager, i: int)
    requires pos < |trace| && LruState(m, trace, pos)
    requires |n.frames| == |m.frames| && 0 <= i < |n.frames| && n.clock == m.clock + 1
    requires forall j :: 0 <= j < |n.frames| ==>
               n.frames[j].lastAccess == if j == i then n.clock else m.frames[j].lastAccess
    requires forall k :: k in n.table ==>
               0 <= n.table[k] < |n.frames| &&
               if k == trace[pos] then n.table[k] == i else k in m.table && n.table[k] == m.table[k] && m.table[k] != i
    ensures forall k :: k in n.table ==> n.frames[n.table[k]].lastAccess == LastUse(trace, pos + 1, k) + 1
  {
    forall k | k in n.table
      ensures n.frames[n.table[k]].lastAccess == LastUse(trace, pos + 1, k) + 1
    {
      LastUseStep(trace, pos, k);
    }
  }

  /** The page with the smallest last_access is the least recently used one. */
  lemma LruVictimIsOldest(m: Manager, trace: seq<Key>, pos: nat, v: int)
    requires pos <= |trace| && LruState(m, trace, pos) && LeastRecent(m.frames, v) && v != -1
    ensures forall z :: z in m.table ==> LastUse(trace, pos, m.frames[v].key) <= LastUse(trace, pos, z)
  {
    hide LastUse, Newest;
    forall z | z in m.table
      ensures LastUse(trace, pos, m.frames[v].key) <= LastUse(trace, pos, z)
    {
      assert Evictable(m.frames, m.table[z]);
    }
  }

  /** After an access every last_access is again one more than the position of the last use. */
  lemma LruKeepsTimes(m: Manager, trace: seq<Key>, pos: nat, ch: Choice)
    requires pos < |trace| && LruState(m, trace, pos) && Legal(m.frames, ch) && trace[pos] in m.disk
    ensures var n := Access(m, trace[pos], ch);
            && n.clock == pos + 1
            && forall k :: k in n.table ==>
                 0 <= n.table[k] < |n.frames| && n.frames[n.table[k]].lastAccess == LastUse(trace, pos + 1, k) + 1
  {
    hide LastUse, Newest, Seen, Access, Legal, FirstFree;
    var k := trace[pos];
    if k in m.table {
      AccessHit(m, k, ch);
      LruStepTimes(m, trace, pos, Access(m, k, ch), m.table[k]);
    } else if FirstFree(m.frames) >= 0 {
      AccessIntoFree(m, k, ch);
      LruStepTimes(m, trace, pos, Access(m, k, ch), FirstFree(m.frames));
    } else {
      AccessEvicting(m, k, ch);
      LruStepTimes(m, trace, pos, Access(m, k, ch), ch.victim);
    }
  }

  lemma LruStep(m: Manager, trace: seq<Key>, pos: nat, ch: Choice)
    requires pos < |trace| && LruState(m, trace, pos)
    requires PolicyChoice(m, trace[pos], ch) && trace[pos] in m.disk
    ensures LruState(Access(m, trace[pos], ch), trace, pos + 1)
  {
    hide LastUse, Newest, Seen, Access, Legal, FirstFree, LeastRecent, Served, Mapped;
    AccessSummary(m, trace[pos], ch);
    if trace[pos] !in m.table.Keys && |m.table.Keys| >= |m.frames| {
      LruVictimIsOldest(m, trace, pos, ch.victim);
    }
    NewestServed(m.table.Keys, trace, pos, |m.frames|, EvictedKey(m, ch));
    LruKeepsTimes(m, trace, pos, ch);
    LruKeepsPolicy(m, trace[pos], ch);
  }

  lemma LruKeepsPolicy(m: Manager, k: Key, ch: Choice)
    requires Ready(m) && m.policy == Lru && PolicyChoice(m, k, ch) && k in m.disk
    ensures Access(m, k, ch).policy == Lru
  {
    hide Access, Legal;
    if k in m.table {
      AccessHit(m, k, ch);
    } else if FirstFree(m.frames) >= 0 {
      AccessIntoFree(m, k, ch);
    } else {
      AccessEvicting(m, k, ch);
    }
  }

  lemma {:induction false} LruRun(m: Manager, trace: seq<Key>, pos: nat, n: Manager)
    requires pos <= |trace| && LruState(m, trace, pos)
    requires PagesExist(m, trace, pos) && ServedByPolicy(m, trace, pos, n)
    ensures LruState(n, trace, |trace|) && |n.frames| == |m.frames|
    ensures n.hits - m.hits == RecentHits(trace, pos, |m.frames|)
    ensures n.hits + n.misses == m.hits + m.misses + (|trace| - pos)
    decreases |trace| - pos
  {
    hide LastUse, Newest, Seen, Access, FirstFree, ServedByPolicy, EvictOutcome, Mapped, AmongRecent;
    if pos == |trace| {
      PolicyEnd(m, trace, pos, n);
    } else {
      var k := trace[pos];
      var ch := PolicyStep(m, trace, pos, n);
      var m' := Access(m, k, ch);
      AccessSummary(m, k, ch);
      LruStep(m, trace, pos, ch);
      LruRun(m', trace, pos + 1, n);
      NewestIsAmongRecent(m.table.Keys, trace, pos, |m.frames|, k);
    }
  }

  lemma InitialLru(m: Manager, trace: seq<Key>)
    requires Initial(m) && |m.frames| > 0 && m.policy == Lru
    ensures LruState(m, trace, 0)
  {
    InitialReady(m);
  }

  /** After any trace an LRU pool holds exactly the pages with fewer than |frames| more recently used
      ones, and it has hit exactly the accesses with that property. */
  lemma {:induction false} LruHoldsMostRecent(m: Manager, trace: seq<Key>, n: Manager)
    requires Initial(m) && |m.frames| > 0 && m.policy == Lru
    requires PagesExist(m, trace, 0) && Mapped(m) && ServedByPolicy(m, trace, 0, n)
    ensures forall k :: k in n.table <==> AmongRecent(trace, |trace|, k, |m.frames|)
    ensures |n.table.Keys| == if |Seen(trace, |trace|)| < |m.frames| then |Seen(trace, |trace|)| else |m.frames|
    ensures n.hits == RecentHits(trace, 0, |m.frames|) && n.misses == |trace| - n.hits
  {
    hide Newest, Seen, AmongRecent, RecentHits, ServedByPolicy, Mapped;
    InitialLru(m, trace);
    LruRun(m, trace, 0, n);
    forall k
      ensures k in n.table <==> AmongRecent(trace, |trace|, k, |m.frames|)
    {
      NewestIsAmongRecent(n.table.Keys, trace, |trace|, |m.frames|, k);
    }
    NewestSize(n.table.Keys, trace, |trace|, |m.frames|);
  }

  /** The stack property: what a smaller LRU pool holds, a larger one holds too, and more frames never
      mean fewer hits. */
  lemma {:induction false} LruIsStack(m: Manager, n: Manager, m': Manager, n': Manager, trace: seq<Key>)
    requires Initial(m) && Initial(m') && 0 < |m.frames| <= |m'.frames| && m.policy == m'.policy == Lru
    requires PagesExist(m, trace, 0) && PagesExist(m', trace, 0)
    requires Mapped(m) && ServedByPolicy(m, trace, 0, n)
    requires Mapped(m') && ServedByPolicy(m', trace, 0, n')
    ensures n.table.Keys <= n'.table.Keys
    ensures n.hits <= n'.hits && n'.misses <= n.misses
  {
    LruHoldsMostRecent(m, trace, n);
    LruHoldsMostRecent(m', trace, n');
    RecentHitsGrow(trace, 0, |m.frames|, |m'.frames|);
    forall k | k in n.table
      ensures k in n'.table
    {
      assert AmongRecent(trace, |trace|, k, |m.frames|);
    }
  }
}
