/** Working set convergence: once the pool has a frame for every page of the trace, all strategies
    behave the same and nothing is ever evicted. */
module WorkingSet {
  import opened Sets
  import opened PoolModel
  import opened EvictionPolicies
  import opened BufferModel
  import opened BufferTheorems
  import opened AccessRuns
  import opened Belady
  import opened LruStack

  lemma AccessConserves(m: Manager, k: Key, ch: Choice)
    requires Mapped(m) && Conserved(m) && Legal(m.frames, ch)
    ensures Conserved(Access(m, k, ch))
  {
    FetchKeepsMapped(m, k, ch);
    FetchConserves(m, k, ch);
    var n := FetchVia(m, k, ch).0;
    SameNonFree(n.frames, Unpin(n, k, false).0.frames);
  }

  /** A pool that has missed once for every page of trace[..pos] and still holds them all. */
  ghost predicate HoldsAllSeen(m: Manager, trace: seq<Key>, pos: nat)
    requires pos <= |trace|
  {
    && Mapped(m) && Ready(m) && Conserved(m)
    && m.table.Keys == Seen(trace, pos)
    && m.misses == |Seen(trace, pos)|
    && m.clock == pos
  }

  lemma SeenGrows(trace: seq<Key>, pos: nat)
    requires pos < |trace|
    ensures Seen(trace, pos + 1) <= Seen(trace, |trace|)
  {
    forall k | k in Seen(trace, pos + 1)
      ensures k in Seen(trace, |trace|)
    {
      var i :| 0 <= i < pos + 1 && trace[..pos + 1][i] == k;
      assert trace[..|trace|][i] == k;
    }
  }

  lemma StepHoldsAll(m: Manager, trace: seq<Key>, pos: nat, ch: Choice)
    requires pos < |trace| && HoldsAllSeen(m, trace, pos) && |Seen(trace, |trace|)| <= |m.frames|
    requires Legal(m.frames, ch) && trace[pos] in m.disk
    ensures Mapped(Access(m, trace[pos], ch))
    ensures var n := Access(m, trace[pos], ch);
            HoldsAllSeen(n, trace, pos + 1) && |n.frames| == |m.frames| && m.disk.Keys <= n.disk.Keys
  {
    hide Access, Legal, Seen, Mapped, Conserved;
    var k := trace[pos];
    AccessSummary(m, k, ch);
    AccessConserves(m, k, ch);
    SeenStep(trace, pos);
    SeenGrows(trace, pos);
    SubsetSize(Seen(trace, pos + 1), Seen(trace, |trace|));
    AccessTicks(m, k, ch);
    OneMore(Seen(trace, pos), k);
    assert Access(m, k, ch).table.Keys == Seen(trace, pos + 1);
  }

  lemma OneMore(s: set<Key>, k: Key)
    ensures |s + {k}| == if k in s then |s| else |s| + 1
    ensures k in s ==> s + {k} == s
  {
    if k in s {
      assert s + {k} == s;
    }
  }

  lemma AccessTicks(m: Manager, k: Key, ch: Choice)
    requires Ready(m) && Legal(m.frames, ch) && k in m.disk
    ensures Access(m, k, ch).clock == m.clock + 1
  {
    hide Access, Legal;
    if k in m.table {
      AccessHit(m, k, ch);
    } else if FirstFree(m.frames) >= 0 {
      AccessIntoFree(m, k, ch);
    } else {
      AccessEvicting(m, k, ch);
    }
  }

  lemma {:induction false} RunHoldsAll(m: Manager, trace: seq<Key>, pos: nat, n: Manager)
    requires pos <= |trace| && HoldsAllSeen(m, trace, pos) && |Seen(trace, |trace|)| <= |m.frames|
    requires PagesExist(m, trace, pos) && ServedBy(m, trace, pos, n)
    ensures HoldsAllSeen(n, trace, |trace|)
    decreases |trace| - pos
  {
    hide Access, ServedBy, Legal, Mapped, Ready, Conserved, Seen;
    if pos == |trace| {
      ServedEnd(m, trace, pos, n);
    } else {
      var ch := ServedStep(m, trace, pos, n);
      StepHoldsAll(m, trace, pos, ch);
      RunHoldsAll(Access(m, trace[pos], ch), trace, pos + 1, n);
    }
  }

  /** With a frame for every page of the trace, every strategy misses exactly once per page, evicts
      nothing, and ends with all of them cached; more frames add nothing. */
  lemma {:induction false} WorkingSetConverges(m: Manager, trace: seq<Key>, n: Manager)
    requires Initial(m) && 0 < |m.frames| && |Seen(trace, |trace|)| <= |m.frames|
    requires PagesExist(m, trace, 0) && Mapped(m) && ServedBy(m, trace, 0, n)
    ensures n.misses == |Seen(trace, |trace|)| && n.hits == |trace| - |Seen(trace, |trace|)|
    ensures n.evictions == 0 && n.table.Keys == Seen(trace, |trace|)
  {
    InitialReady(m);
    InitialBooks(m);
    assert trace[..0] == [];
    assert Seen(trace, 0) == {};
    RunHoldsAll(m, trace, 0, n);
    TableSize(n);
    assert |n.table| == |n.table.Keys|;
  }
}
