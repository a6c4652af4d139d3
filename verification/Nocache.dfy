/** What the NoCache policy really caches.  It always evicts the first frame, so the other frames keep
    the first pages of the trace for good, and the first frame holds the latest page outside them. */
module Nocache {
  import opened Sets
  import opened PoolModel
  import opened EvictionPolicies
  import opened BufferModel
  import opened BufferTheorems
  import opened AccessRuns
  import opened Belady
  import opened LruStack

  // ---------------------------------------------------------------- the cached set, from the trace alone

  /** The pages of trace[..pos] in the order of their first access. */
  ghost function Firsts(trace: seq<Key>, pos: nat): (f: seq<Key>)
    requires pos <= |trace|
    ensures Distinct(f) && (forall k :: k in f <==> k in Seen(trace, pos))
    ensures pos > 0 ==> |f| > 0 && f[0] == trace[0]
    ensures |f| <= pos
  {
    if pos == 0 then []
    else
      SeenStep(trace, pos - 1);
      var f := Firsts(trace, pos - 1);
      if trace[pos - 1] in f then f else f + [trace[pos - 1]]
  }

  function Least(a: nat, b: nat): nat {
    if a < b then a else b
  }

  /** The second to the cap-th distinct page: once loaded, they stay. */
  ghost function Kept(trace: seq<Key>, pos: nat, cap: nat): set<Key>
    requires pos <= |trace| && cap > 0
  {
    var f := Firsts(trace, pos);
    if f == [] then {} else Elements(f[1..Least(cap, |f|)])
  }

  /** The last page of trace[..pos] outside s. */
  ghost function LastOutside(trace: seq<Key>, pos: nat, s: set<Key>): (k: Key)
    requires 0 < pos <= |trace| && trace[0] !in s
    ensures k !in s && k in Seen(trace, pos)
  {
    SeenStep(trace, pos - 1);
    if trace[pos - 1] !in s then trace[pos - 1] else LastOutside(trace, pos - 1, s)
  }

  lemma FirstNotKept(trace: seq<Key>, pos: nat, cap: nat)
    requires 0 < pos <= |trace| && cap > 0
    ensures trace[0] !in Kept(trace, pos, cap)
  {
  }

  /** The page in the first frame. */
  ghost function Newcomer(trace: seq<Key>, pos: nat, cap: nat): (k: Key)
    requires 0 < pos <= |trace| && cap > 0
    ensures k !in Kept(trace, pos, cap) && k in Seen(trace, pos)
  {
    FirstNotKept(trace, pos, cap);
    LastOutside(trace, pos, Kept(trace, pos, cap))
  }

  ghost function NocacheSet(trace: seq<Key>, pos: nat, cap: nat): set<Key>
    requires pos <= |trace| && cap > 0
  {
    if pos == 0 then {} else Kept(trace, pos, cap) + {Newcomer(trace, pos, cap)}
  }

  /** The accesses from pos on that find their page in that set. */
  ghost function NocacheHits(trace: seq<Key>, pos: nat, cap: nat): nat
    requires cap > 0
    decreases |trace| - pos
  {
    if pos >= |trace| then 0
    else (if trace[pos] in NocacheSet(trace, pos, cap) then 1 else 0) + NocacheHits(trace, pos + 1, cap)
  }

  lemma NocacheSetSize(trace: seq<Key>, pos: nat, cap: nat)
    requires pos <= |trace| && cap > 0
    ensures |NocacheSet(trace, pos, cap)| == Least(cap, |Firsts(trace, pos)|)
  {
    if pos > 0 {
      var f := Firsts(trace, pos);
      DistinctElements(f[1..Least(cap, |f|)]);
    }
  }

  /** Until the pool is full it holds everything. */
  lemma NothingGivenUp(trace: seq<Key>, pos: nat, cap: nat)
    requires pos <= |trace| && cap > 0 && |Firsts(trace, pos)| <= cap
    ensures NocacheSet(trace, pos, cap) == Seen(trace, pos)
  {
    hide Firsts, Newcomer;
    if pos > 0 {
      var f := Firsts(trace, pos);
      AllButFirst(f, Newcomer(trace, pos, cap));
      assert f[1..Least(cap, |f|)] == f[1..];
      assert Seen(trace, pos) == Elements(f);
    }
  }

  lemma AllButFirst(f: seq<Key>, k: Key)
    requires |f| > 0
    ensures k in f && k !in Elements(f[1..]) ==> Elements(f[1..]) + {k} == Elements(f)
  {
    assert f == [f[0]] + f[1..];
  }

  lemma KeptStep(trace: seq<Key>, pos: nat, cap: nat)
    requires pos < |trace| && cap > 0
    ensures Kept(trace, pos + 1, cap) ==
              if pos > 0 && trace[pos] !in Seen(trace, pos) && |Firsts(trace, pos)| < cap
              then Kept(trace, pos, cap) + {trace[pos]} else Kept(trace, pos, cap)
  {
    var f, x := Firsts(trace, pos), trace[pos];
    if x !in f && pos > 0 {
      var g := f + [x];
      assert Firsts(trace, pos + 1) == g;
      if |f| < cap {
        assert g[1..Least(cap, |g|)] == f[1..] + [x];
      } else {
        assert g[1..Least(cap, |g|)] == f[1..cap];
      }
    }
  }

  lemma {:induction false} LastOutsideIgnores(trace: seq<Key>, pos: nat, s: set<Key>, x: Key)
    requires 0 < pos <= |trace| && trace[0] !in s && x !in Seen(trace, pos)
    ensures trace[0] !in s + {x} && LastOutside(trace, pos, s + {x}) == LastOutside(trace, pos, s)
  {
    SeenStep(trace, pos - 1);
    assert trace[..pos][0] == trace[0];
    if trace[pos - 1] in s {
      LastOutsideIgnores(trace, pos - 1, s, x);
    }
  }

  /** How one access changes the set, and the page in the first frame. */
  lemma NocacheSetStep(trace: seq<Key>, pos: nat, cap: nat)
    requires pos < |trace| && cap > 0
    ensures var s, x := NocacheSet(trace, pos, cap), trace[pos];
            if pos == 0 then NocacheSet(trace, 1, cap) == {x} && Newcomer(trace, 1, cap) == x
            else
              && NocacheSet(trace, pos + 1, cap) == Served(s, Newcomer(trace, pos, cap), x, cap)
              && Newcomer(trace, pos + 1, cap) == if x in s || |s| < cap then Newcomer(trace, pos, cap) else x
  {
    hide Firsts, Kept, Seen;
    var s, x := NocacheSet(trace, pos, cap), trace[pos];
    KeptStep(trace, pos, cap);
    FirstNotKept(trace, pos + 1, cap);
    NocacheSetSize(trace, pos, cap);
    if pos == 0 {
      EmptyStart(trace, cap);
    } else {
      FirstNotKept(trace, pos, cap);
      if |s| < cap {
        NothingGivenUp(trace, pos, cap);
        if x !in s {
          LastOutsideIgnores(trace, pos, Kept(trace, pos, cap), x);
        }
      }
    }
  }

  lemma EmptyStart(trace: seq<Key>, cap: nat)
    requires 0 < |trace| && cap > 0
    ensures Kept(trace, 0, cap) == {} && Kept(trace, 1, cap) == {} && Newcomer(trace, 1, cap) == trace[0]
  {
    assert Firsts(trace, 1) == [trace[0]];
    assert Firsts(trace, 1)[1..1] == [];
  }

  // ---------------------------------------------------------------- the buffer manager under NoCache

  /** A NoCache pool that has served trace[..pos]. */
  ghost predicate NocacheState(m: Manager, trace: seq<Key>, pos: nat)
    requires pos <= |trace|
  {
    && Ready(m)
    && m.policy == NoCache
    && m.table.Keys == NocacheSet(trace, pos, |m.frames|)
    && (pos > 0 ==> Newcomer(trace, pos, |m.frames|) in m.table && m.table[Newcomer(trace, pos, |m.frames|)] == 0)
  }

  /** What an access under NoCache does to the page table: the victim is always the first frame. */
  lemma NocacheAccess(m: Manager, k: Key, ch: Choice)
    requires Ready(m) && m.policy == NoCache && PolicyChoice(m, k, ch) && k in m.disk
    ensures var n := Access(m, k, ch);
            && n.policy == NoCache
            && (k in m.table ==> n.table == m.table)
            && (k !in m.table && |m.table.Keys| < |m.frames| ==>
                  n.table == m.table[k := FirstFree(m.frames)] && (m.table.Keys == {} ==> FirstFree(m.frames) == 0))
            && (k !in m.table && |m.table.Keys| >= |m.frames| ==>
                  ch.victim == 0 && n.table == (m.table - {m.frames[0].key})[k := 0])
  {
    hide Access, Legal;
    FreeFrameLeft(m);
    if k in m.table {
      AccessHit(m, k, ch);
    } else if FirstFree(m.frames) >= 0 {
      AccessIntoFree(m, k, ch);
      if m.table.Keys == {} {
        assert m.frames[0].state == Free;
      }
    } else {
      AccessEvicting(m, k, ch);
      assert Evictable(m.frames, 0);
    }
  }

  lemma NocacheStep(m: Manager, trace: seq<Key>, pos: nat, ch: Choice)
    requires pos < |trace| && NocacheState(m, trace, pos)
    requires PolicyChoice(m, trace[pos], ch) && trace[pos] in m.disk
    ensures NocacheState(Access(m, trace[pos], ch), trace, pos + 1)
  {
    hide Access, Legal, Kept, Firsts, Newcomer, NocacheSet, EvictOutcome, Served;
    var k := trace[pos];
    AccessSummary(m, k, ch);
    NocacheAccess(m, k, ch);
    NocacheSetStep(trace, pos, |m.frames|);
    if pos == 0 {
      ColdStart(m, trace, ch);
    } else {
      assert m.frames[0].key == Newcomer(trace, pos, |m.frames|);
      ServedUnless(m.table.Keys, EvictedKey(m, ch), Newcomer(trace, pos, |m.frames|), k, |m.frames|);
    }
  }

  lemma ColdStart(m: Manager, trace: seq<Key>, ch: Choice)
    requires 0 < |trace| && NocacheState(m, trace, 0)
    ensures m.table.Keys == {}
    ensures Served(m.table.Keys, EvictedKey(m, ch), trace[0], |m.frames|) == {trace[0]}
  {
  }

  /** The page that is given up matters only if one is. */
  lemma ServedUnless(s: set<Key>, v: Key, w: Key, x: Key, cap: nat)
    ensures x in s || |s| < cap || v == w ==> Served(s, v, x, cap) == Served(s, w, x, cap)
  {
  }

  lemma {:induction false} NocacheRun(m: Manager, trace: seq<Key>, pos: nat, n: Manager)
    requires pos <= |trace| && NocacheState(m, trace, pos)
    requires PagesExist(m, trace, pos) && ServedByPolicy(m, trace, pos, n)
    ensures NocacheState(n, trace, |trace|) && |n.frames| == |m.frames|
    ensures n.hits - m.hits == NocacheHits(trace, pos, |m.frames|)
    ensures n.hits + n.misses == m.hits + m.misses + (|trace| - pos)
    decreases |trace| - pos
  {
    hide Access, FirstFree, ServedByPolicy, EvictOutcome, Mapped, Newcomer, NocacheSet;
    if pos == |trace| {
      PolicyEnd(m, trace, pos, n);
    } else {
      var k := trace[pos];
      var ch := PolicyStep(m, trace, pos, n);
      AccessSummary(m, k, ch);
      NocacheStep(m, trace, pos, ch);
      NocacheRun(Access(m, k, ch), trace, pos + 1, n);
    }
  }

  /** After any trace a NoCache pool of k frames holds exactly the second to the k-th distinct page of the
      trace and the latest page outside these, and it has hit exactly the accesses that found their page
      in that set. */
  lemma {:induction false} NocacheHoldsFirst(m: Manager, trace: seq<Key>, n: Manager)
    requires Initial(m) && |m.frames| > 0 && m.policy == NoCache
    requires PagesExist(m, trace, 0) && Mapped(m) && ServedByPolicy(m, trace, 0, n)
    ensures n.table.Keys == NocacheSet(trace, |trace|, |m.frames|)
    ensures n.hits == NocacheHits(trace, 0, |m.frames|) && n.misses == |trace| - n.hits
  {
    hide ServedByPolicy, Newcomer;
    InitialReady(m);
    NocacheRun(m, trace, 0, n);
  }

  // ---------------------------------------------------------------- when the documented hit rate of 0% is true

  /** The first cap + 1 accesses are to different pages, and every later one is to a page other than the
      one before it and other than those of trace[1..cap]. */
  ghost predicate NothingToHit(trace: seq<Key>, cap: nat)
    requires cap > 0
  {
    && Distinct(trace[..Least(cap + 1, |trace|)])
    && forall i :: cap < i < |trace| ==> trace[i] != trace[i - 1] && trace[i] !in trace[1..cap]
  }

  lemma {:induction false} DistinctFirsts(trace: seq<Key>, pos: nat)
    requires pos <= |trace| && Distinct(trace[..pos])
    ensures Firsts(trace, pos) == trace[..pos]
  {
    if pos > 0 {
      assert trace[..pos] == trace[..pos - 1] + [trace[pos - 1]];
      assert forall i :: 0 <= i < pos - 1 ==> trace[..pos][i] == trace[..pos - 1][i];
      DistinctFirsts(trace, pos - 1);
      assert trace[pos - 1] == trace[..pos][pos - 1];
    }
  }

  lemma {:induction false} FirstsPrefix(trace: seq<Key>, i: nat, j: nat)
    requires i <= j <= |trace|
    ensures Firsts(trace, i) <= Firsts(trace, j)
    decreases j - i
  {
    hide Seen, Distinct;
    if i < j {
      FirstsPrefix(trace, i, j - 1);
    }
  }

  /** If the first cap + 1 accesses differ, the kept pages are trace[1..cap] from then on. */
  lemma KeptForGood(trace: seq<Key>, pos: nat, cap: nat)
    requires 0 < cap < pos <= |trace| && Distinct(trace[..cap + 1])
    ensures Kept(trace, pos, cap) == Elements(trace[1..cap])
  {
    DistinctFirsts(trace, cap + 1);
    FirstsPrefix(trace, cap + 1, pos);
    var f := Firsts(trace, pos);
    assert f[..cap + 1] == trace[..cap + 1];
    assert f[1..cap] == f[..cap + 1][1..cap] == trace[1..cap];
  }

  lemma AfterMisses(trace: seq<Key>, pos: nat, cap: nat)
    requires 0 < cap < pos <= |trace| && Distinct(trace[..cap + 1]) && trace[pos - 1] !in trace[1..cap]
    ensures NocacheSet(trace, pos, cap) == Elements(trace[1..cap]) + {trace[pos - 1]}
  {
    KeptForGood(trace, pos, cap);
  }

  lemma BeforeFull(trace: seq<Key>, pos: nat, cap: nat)
    requires pos <= |trace| && pos <= cap && cap > 0
    ensures NocacheSet(trace, pos, cap) == Elements(trace[..pos])
  {
    NothingGivenUp(trace, pos, cap);
  }

  lemma DistinctStep(trace: seq<Key>, i: nat)
    requires i < |trace| && Distinct(trace[..i])
    ensures Distinct(trace[..i + 1]) <==> trace[i] !in Elements(trace[..i])
  {
    var a, b := trace[..i], trace[..i + 1];
    assert forall j :: 0 <= j < i ==> b[j] == a[j];
    if trace[i] in a {
      var j :| 0 <= j < i && a[j] == trace[i];
      assert b[j] == b[i];
    }
  }

  ghost predicate MissesAt(trace: seq<Key>, cap: nat, i: nat)
    requires i < |trace| && cap > 0
  {
    trace[i] !in NocacheSet(trace, i, cap)
  }

  lemma {:induction false} DistinctIfMissed(trace: seq<Key>, cap: nat, n: nat)
    requires cap > 0 && n <= |trace| && n <= cap + 1 && forall i :: 0 <= i < |trace| ==> MissesAt(trace, cap, i)
    ensures Distinct(trace[..n])
  {
    hide NocacheSet, Distinct;
    if n == 0 {
      NothingDistinct(trace);
    } else {
      DistinctIfMissed(trace, cap, n - 1);
      assert MissesAt(trace, cap, n - 1);
      BeforeFull(trace, n - 1, cap);
      DistinctStep(trace, n - 1);
    }
  }

  lemma NothingDistinct(s: seq<Key>)
    ensures Distinct(s[..0])
  {
  }

  lemma PrefixDistinct(s: seq<Key>, n: nat)
    requires Distinct(s) && n <= |s|
    ensures Distinct(s[..n])
  {
  }

  lemma NothingHitMisses(trace: seq<Key>, cap: nat, i: nat)
    requires cap > 0 && NothingToHit(trace, cap) && i < |trace|
    ensures MissesAt(trace, cap, i)
  {
    var first := trace[..Least(cap + 1, |trace|)];
    if i <= cap {
      assert trace[..i] == first[..i] && trace[..i + 1] == first[..i + 1];
      PrefixDistinct(first, i);
      PrefixDistinct(first, i + 1);
      DistinctStep(trace, i);
      BeforeFull(trace, i, cap);
    } else {
      assert first == trace[..cap + 1];
      if i - 1 == cap {
        forall j | 0 <= j < |trace[1..cap]|
          ensures trace[1..cap][j] != trace[cap]
        {
          assert first[j + 1] != first[cap];
        }
      }
      AfterMisses(trace, i, cap);
    }
  }

  lemma MissesMeanNothingToHit(trace: seq<Key>, cap: nat)
    requires cap > 0 && forall i :: 0 <= i < |trace| ==> MissesAt(trace, cap, i)
    ensures NothingToHit(trace, cap)
  {
    DistinctIfMissed(trace, cap, Least(cap + 1, |trace|));
    forall i | cap < i < |trace|
      ensures trace[i] != trace[i - 1] && trace[i] !in trace[1..cap]
    {
      assert MissesAt(trace, cap, i) && MissesAt(trace, cap, i - 1);
      KeptForGood(trace, i, cap);
      if i - 1 == cap {
        var first := trace[..cap + 1];
        forall j | 0 <= j < |trace[1..cap]|
          ensures trace[1..cap][j] != trace[cap]
        {
          assert first[j + 1] != first[cap];
        }
      } else {
        KeptForGood(trace, i - 1, cap);
      }
      AfterMisses(trace, i, cap);
    }
  }

  lemma {:induction false} NoHits(trace: seq<Key>, pos: nat, cap: nat)
    requires cap > 0
    ensures NocacheHits(trace, pos, cap) == 0 <==> forall i :: pos <= i < |trace| ==> MissesAt(trace, cap, i)
    decreases |trace| - pos
  {
    hide NocacheSet;
    if pos < |trace| {
      NoHits(trace, pos + 1, cap);
      assert MissesAt(trace, cap, pos) <==> trace[pos] !in NocacheSet(trace, pos, cap);
    }
  }

  /** The documented hit rate of 0%: a NoCache pool of k frames has no hit if and only if the first k + 1
      accesses are to different pages and no later one repeats its predecessor or one of the second to
      the k-th page. */
  lemma {:induction false} NocacheNeverHitsIff(m: Manager, trace: seq<Key>, n: Manager)
    requires Initial(m) && |m.frames| > 0 && m.policy == NoCache
    requires PagesExist(m, trace, 0) && Mapped(m) && ServedByPolicy(m, trace, 0, n)
    ensures n.hits == 0 <==> NothingToHit(trace, |m.frames|)
  {
    hide ServedByPolicy, NothingToHit, MissesAt;
    var cap := |m.frames|;
    NocacheHoldsFirst(m, trace, n);
    NoHits(trace, 0, cap);
    if n.hits == 0 {
      MissesMeanNothingToHit(trace, cap);
    }
    if NothingToHit(trace, cap) {
      forall i | 0 <= i < |trace|
        ensures MissesAt(trace, cap, i)
      {
        NothingHitMisses(trace, cap, i);
      }
    }
  }
}
