/** OPT from the trace alone: which page is in which frame after every access, ties included. */
module OptRuns {
  import opened PoolModel
  import opened EvictionPolicies
  import opened BufferModel
  import opened BufferTheorems
  import opened AccessRuns
  import opened Belady
  import opened ClockRuns

  /** The next use is the first access to the page at or after pos; INT_MAX stands for none. */
  lemma {:induction false} NextUseMeaning(trace: seq<Key>, pos: nat, k: Key)
    requires |trace| <= INT_MAX
    ensures var t := NextUse(trace, pos, k);
            && (t == INT_MAX <==> k !in (if pos <= |trace| then trace[pos..] else []))
            && (t != INT_MAX ==> pos <= t < |trace| && trace[t] == k && forall i :: pos <= i < t ==> trace[i] != k)
    decreases |trace| - pos
  {
    if pos < |trace| {
      NextUseMeaning(trace, pos + 1, k);
      assert trace[pos..] == [trace[pos]] + trace[pos + 1..];
    }
  }

  /** The frame among the first n whose page is used again last, the first of them on a tie. */
  ghost function Farthest(trace: seq<Key>, pos: nat, pages: seq<Key>, n: nat): (v: nat)
    requires 0 < n <= |pages|
    ensures v < n
    ensures forall i :: 0 <= i < n ==> NextUse(trace, pos, pages[i]) <= NextUse(trace, pos, pages[v])
    ensures forall i :: 0 <= i < v ==> NextUse(trace, pos, pages[i]) < NextUse(trace, pos, pages[v])
  {
    if n == 1 then 0
    else
      var v := Farthest(trace, pos, pages, n - 1);
      if NextUse(trace, pos, pages[n - 1]) > NextUse(trace, pos, pages[v]) then n - 1 else v
  }

  /** The pages in the frames after the first pos accesses, from an empty pool of cap frames. */
  ghost function OptPages(trace: seq<Key>, pos: nat, cap: nat): (pages: seq<Key>)
    requires pos <= |trace| && cap > 0
    ensures |pages| <= cap
  {
    if pos == 0 then []
    else
      var pages, k := OptPages(trace, pos - 1, cap), trace[pos - 1];
      if k in pages then pages
      else if |pages| < cap then pages + [k]
      else pages[Farthest(trace, pos - 1, pages, cap) := k]
  }

  ghost function OptHits(trace: seq<Key>, pos: nat, cap: nat): nat
    requires pos <= |trace| && cap > 0
  {
    if pos == 0 then 0
    else (if trace[pos - 1] in OptPages(trace, pos - 1, cap) then 1 else 0) + OptHits(trace, pos - 1, cap)
  }

  ghost predicate InFrames(m: Manager, pages: seq<Key>) {
    && Ready(m) && |pages| <= |m.frames|
    && (forall i :: 0 <= i < |pages| ==> m.frames[i].state == Occupied && m.frames[i].key == pages[i])
    && (forall i :: |pages| <= i < |m.frames| ==> m.frames[i].state == Free)
  }

  lemma FramesAndTable(m: Manager, pages: seq<Key>, k: Key)
    requires InFrames(m, pages)
    ensures k in m.table <==> k in pages
    ensures k in m.table ==> 0 <= m.table[k] < |pages| && pages[m.table[k]] == k
    ensures FirstFree(m.frames) == if |pages| < |m.frames| then |pages| else -1
  {
    if k in pages {
      var i :| 0 <= i < |pages| && pages[i] == k;
      assert m.frames[i].key == k;
    }
    if k in m.table {
      assert m.frames[m.table[k]].state != Free;
    }
    var v := FirstFree(m.frames);
    if |pages| < |m.frames| {
      assert m.frames[|pages|].state == Free;
    }
    assert v >= 0 ==> m.frames[v].state == Free;
  }

  lemma {:induction false} VictimIsFarthest(m: Manager, trace: seq<Key>, pos: nat, pages: seq<Key>, v: int)
    requires InFrames(m, pages) && |pages| == |m.frames| && FarthestUse(m.frames, trace, pos, v)
    ensures v == Farthest(trace, pos, pages, |pages|)
  {
    hide NextUse;
    assert Evictable(m.frames, 0);
    var w := Farthest(trace, pos, pages, |pages|);
    assert Evictable(m.frames, w);
  }

  lemma {:induction false} OptEvicts(m: Manager, trace: seq<Key>, pos: nat, pages: seq<Key>, ch: Choice)
    requires pos < |trace| && InFrames(m, pages) && |pages| == |m.frames| && FarthestUse(m.frames, trace, pos, ch.victim)
    requires Legal(m.frames, ch) && Asked(m, trace[pos]) && trace[pos] in m.disk
    ensures InFrames(Access(m, trace[pos], ch), pages[Farthest(trace, pos, pages, |pages|) := trace[pos]])
  {
    hide Access, Mapped, FarthestUse, NextUse, Asked, Legal;
    VictimIsFarthest(m, trace, pos, pages, ch.victim);
    EvictingFrames(m, trace[pos], ch);
    OthersKept(m, trace[pos], ch);
  }

  lemma {:induction false} OptKeeps(m: Manager, k: Key, pages: seq<Key>, ch: Choice)
    requires InFrames(m, pages) && Legal(m.frames, ch) && k in m.disk && !Asked(m, k)
    ensures InFrames(Access(m, k, ch), if k in pages then pages else pages + [k])
  {
    hide Access, Mapped, Legal;
    FramesAndTable(m, pages, k);
    if k in m.table {
      HitFrames(m, k, ch);
    } else {
      FreeFrames(m, k, ch);
    }
  }

  lemma {:induction false} OptStep(m: Manager, trace: seq<Key>, pos: nat, ch: Choice)
    requires pos < |trace| && |m.frames| > 0 && InFrames(m, OptPages(trace, pos, |m.frames|))
    requires m.policy == Opt(trace, pos) && PolicyChoice(m, trace[pos], ch) && trace[pos] in m.disk
    ensures var n := Access(m, trace[pos], ch);
            && |n.frames| == |m.frames| && InFrames(n, OptPages(trace, pos + 1, |m.frames|)) && n.policy == Opt(trace, pos + 1)
            && n.hits == m.hits + (if trace[pos] in OptPages(trace, pos, |m.frames|) then 1 else 0)
            && m.disk.Keys <= n.disk.Keys
  {
    hide InFrames, Access, Mapped, FarthestUse, Farthest, NextUse, EvictOutcome, Legal;
    var k, pages := trace[pos], OptPages(trace, pos, |m.frames|);
    PoolReady(m, pages);
    FramesAndTable(m, pages, k);
    OptAdvances(m, k, ch, trace, pos);
    AccessSummary(m, k, ch);
    if Asked(m, k) {
      OptEvicts(m, trace, pos, pages, ch);
    } else {
      OptKeeps(m, k, pages, ch);
    }
  }

  lemma PoolReady(m: Manager, pages: seq<Key>)
    requires InFrames(m, pages)
    ensures Ready(m) && |pages| <= |m.frames|
  {
  }

  lemma OthersKept(m: Manager, k: Key, ch: Choice)
    requires Legal(m.frames, ch)
    ensures |ch.frames| == |m.frames|
    ensures forall i :: 0 <= i < |m.frames| ==> ch.frames[i].key == m.frames[i].key && ch.frames[i].state == m.frames[i].state
  {
    forall i | 0 <= i < |m.frames|
      ensures ch.frames[i].key == m.frames[i].key && ch.frames[i].state == m.frames[i].state
    {
      assert ch.frames[i] == m.frames[i].(refBit := ch.frames[i].refBit);
    }
  }

  lemma {:induction false} OptRun(m: Manager, trace: seq<Key>, pos: nat, n: Manager)
    requires pos <= |trace| && |m.frames| > 0 && InFrames(m, OptPages(trace, pos, |m.frames|)) && Mapped(m)
    requires m.policy == Opt(trace, pos) && PagesExist(m, trace, pos) && ServedByPolicy(m, trace, pos, n)
    requires m.hits == OptHits(trace, pos, |m.frames|)
    ensures |n.frames| == |m.frames| && InFrames(n, OptPages(trace, |trace|, |m.frames|))
    ensures n.hits == OptHits(trace, |trace|, |m.frames|)
    decreases |trace| - pos
  {
    hide InFrames, Access, ServedByPolicy, OptPages, Mapped, PolicyChoice;
    if pos == |trace| {
      PolicyEnd(m, trace, pos, n);
    } else {
      var ch := PolicyStep(m, trace, pos, n);
      OptStep(m, trace, pos, ch);
      OptRun(Access(m, trace[pos], ch), trace, pos + 1, n);
    }
  }

  /** OPT on the trace it serves, from an empty pool: the exact page of every frame, and the exact hits. */
  lemma {:induction false} OptHoldsPages(m: Manager, trace: seq<Key>, n: Manager)
    requires Initial(m) && |m.frames| > 0 && m.policy == Opt(trace, 0)
    requires PagesExist(m, trace, 0) && Mapped(m) && ServedByPolicy(m, trace, 0, n)
    ensures var pages := OptPages(trace, |trace|, |m.frames|);
            && |n.frames| == |m.frames|
            && (forall i :: 0 <= i < |pages| ==> n.frames[i].state == Occupied && n.frames[i].key == pages[i])
            && (forall k :: k in n.table <==> k in pages)
            && n.hits == OptHits(trace, |trace|, |m.frames|)
  {
    hide ServedByPolicy, Mapped;
    InitialReady(m);
    OptRun(m, trace, 0, n);
    forall k
      ensures k in n.table <==> k in OptPages(trace, |trace|, |m.frames|)
    {
      FramesAndTable(n, OptPages(trace, |trace|, |m.frames|), k);
    }
  }
}
