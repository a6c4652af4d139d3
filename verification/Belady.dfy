/** OPT is optimal: on its own trace no strategy that evicts only when no frame is free misses less.
    The proof works on the sets of cached pages and is then carried over to the buffer manager. */
module Belady {
  import opened Sets
  import opened PoolModel
  import opened EvictionPolicies
  import opened BufferModel
  import opened BufferTheorems
  import opened AccessRuns

  /** Some way of choosing victims serves trace[pos..] from cache s with at most c misses. */
  ghost predicate Within(s: set<Key>, trace: seq<Key>, pos: nat, cap: nat, c: int)
    decreases |trace| - pos
  {
    if pos >= |trace| then c >= 0
    else
      var x := trace[pos];
      if x in s then Within(s, trace, pos + 1, cap, c)
      else if |s| < cap then Within(s + {x}, trace, pos + 1, cap, c - 1)
      else exists v :: WithinAfter(s, v, trace, pos, cap, c)
  }

  /** As Within, when v is the page given up for trace[pos]. */
  ghost predicate WithinAfter(s: set<Key>, v: Key, trace: seq<Key>, pos: nat, cap: nat, c: int)
    requires pos < |trace|
    decreases |trace| - pos, 0
  {
    v in s && Within(s - {v} + {trace[pos]}, trace, pos + 1, cap, c - 1)
  }

  lemma WithinHit(s: set<Key>, trace: seq<Key>, pos: nat, cap: nat, c: int)
    requires pos < |trace| && trace[pos] in s
    ensures Within(s, trace, pos, cap, c) <==> Within(s, trace, pos + 1, cap, c)
  {
  }

  lemma WithinFree(s: set<Key>, trace: seq<Key>, pos: nat, cap: nat, c: int)
    requires pos < |trace| && trace[pos] !in s && |s| < cap
    ensures Within(s, trace, pos, cap, c) <==> Within(s + {trace[pos]}, trace, pos + 1, cap, c - 1)
  {
  }

  lemma WithinMiss(s: set<Key>, trace: seq<Key>, pos: nat, cap: nat, c: int) returns (v: Key)
    requires pos < |trace| && trace[pos] !in s && |s| >= cap && Within(s, trace, pos, cap, c)
    ensures v in s && Within(s - {v} + {trace[pos]}, trace, pos + 1, cap, c - 1)
  {
    v :| WithinAfter(s, v, trace, pos, cap, c);
  }

  lemma WithinEvict(s: set<Key>, v: Key, trace: seq<Key>, pos: nat, cap: nat, c: int)
    requires pos < |trace| && trace[pos] !in s && |s| >= cap
    requires v in s && Within(s - {v} + {trace[pos]}, trace, pos + 1, cap, c - 1)
    ensures Within(s, trace, pos, cap, c)
  {
    assert WithinAfter(s, v, trace, pos, cap, c);
  }

  lemma WithinEnd(s: set<Key>, trace: seq<Key>, pos: nat, cap: nat, c: int)
    requires pos >= |trace|
    ensures Within(s, trace, pos, cap, c) <==> c >= 0
  {
  }

  lemma {:induction false} WithinMonotone(s: set<Key>, trace: seq<Key>, pos: nat, cap: nat, c: int, d: int)
    requires Within(s, trace, pos, cap, c) && c <= d
    ensures Within(s, trace, pos, cap, d)
    decreases |trace| - pos
  {
    hide Within;
    if pos >= |trace| {
      WithinEnd(s, trace, pos, cap, c);
      WithinEnd(s, trace, pos, cap, d);
    } else if trace[pos] in s {
      WithinHit(s, trace, pos, cap, c);
      WithinMonotone(s, trace, pos + 1, cap, c, d);
      WithinHit(s, trace, pos, cap, d);
    } else if |s| < cap {
      WithinFree(s, trace, pos, cap, c);
      WithinMonotone(s + {trace[pos]}, trace, pos + 1, cap, c - 1, d - 1);
      WithinFree(s, trace, pos, cap, d);
    } else {
      var v := WithinMiss(s, trace, pos, cap, c);
      WithinMonotone(s - {v} + {trace[pos]}, trace, pos + 1, cap, c - 1, d - 1);
      WithinEvict(s, v, trace, pos, cap, d);
    }
  }

  /** Caching p instead of q costs at most one miss. */
  lemma {:induction false} SwapCostsOne(u: set<Key>, p: Key, q: Key, trace: seq<Key>, pos: nat, cap: nat, c: int)
    requires p !in u && q !in u && |u| + 1 == cap
    requires Within(u + {q}, trace, pos, cap, c)
    ensures Within(u + {p}, trace, pos, cap, c + 1)
    decreases |trace| - pos
  {
    hide Within;
    if pos >= |trace| || p == q {
      if pos >= |trace| {
        WithinEnd(u + {q}, trace, pos, cap, c);
        WithinEnd(u + {p}, trace, pos, cap, c + 1);
      } else {
        WithinMonotone(u + {q}, trace, pos, cap, c, c + 1);
      }
    } else {
      var x := trace[pos];
      if x in u {
        WithinHit(u + {q}, trace, pos, cap, c);
        SwapCostsOne(u, p, q, trace, pos + 1, cap, c);
        WithinHit(u + {p}, trace, pos, cap, c + 1);
      } else if x == q {
        WithinHit(u + {q}, trace, pos, cap, c);
        assert (u + {p}) - {p} + {x} == u + {q};
        WithinEvict(u + {p}, p, trace, pos, cap, c + 1);
      } else {
        var v := WithinMiss(u + {q}, trace, pos, cap, c);
        SwapAfterMiss(u, p, q, v, trace, pos, cap, c);
      }
    }
  }

  /** The case where both caches miss, or only the second does; v is the page the second gives up. */
  lemma {:induction false} SwapAfterMiss(u: set<Key>, p: Key, q: Key, v: Key, trace: seq<Key>, pos: nat, cap: nat, c: int)
    requires p !in u && q !in u && p != q && |u| + 1 == cap && pos < |trace| && trace[pos] !in u + {q}
    requires v in u + {q} && Within(u + {q} - {v} + {trace[pos]}, trace, pos + 1, cap, c - 1)
    ensures Within(u + {p}, trace, pos, cap, c + 1)
    decreases |trace| - pos, 0
  {
    hide Within;
    var x := trace[pos];
    if v == q {
      Substitute(u, q, x);
      Substitute(u, p, x);
      WithinMonotone(u + {x}, trace, pos + 1, cap, c - 1, if x == p then c + 1 else c);
      if x == p {
        WithinHit(u + {p}, trace, pos, cap, c + 1);
      } else {
        WithinEvict(u + {p}, p, trace, pos, cap, c + 1);
      }
    } else if x == p {
      var w := u - {v} + {p};
      Exchange(u, q, v, x);
      Regroup(u, v, p);
      SwapCostsOne(w, v, q, trace, pos + 1, cap, c - 1);
      WithinMonotone(u + {p}, trace, pos + 1, cap, c, c + 1);
      WithinHit(u + {p}, trace, pos, cap, c + 1);
    } else {
      var w := u - {v} + {x};
      Exchange(u, q, v, x);
      Exchange(u, p, v, x);
      SwapCostsOne(w, p, q, trace, pos + 1, cap, c - 1);
      WithinEvict(u + {p}, v, trace, pos, cap, c + 1);
    }
  }

  lemma NextUseStep(trace: seq<Key>, pos: nat, k: Key)
    requires pos < |trace| <= INT_MAX
    ensures NextUse(trace, pos, k) == pos <==> trace[pos] == k
    ensures trace[pos] != k ==> NextUse(trace, pos, k) == NextUse(trace, pos + 1, k)
  {
  }

  /** Between two caches that differ in one page, the one whose extra page is used sooner is at least
      as good. */
  lemma {:induction false} SoonerIsBetter(u: set<Key>, a: Key, b: Key, trace: seq<Key>, pos: nat, cap: nat, c: int)
    requires |trace| <= INT_MAX && a !in u && b !in u && |u| + 1 == cap
    requires NextUse(trace, pos, a) <= NextUse(trace, pos, b)
    requires Within(u + {b}, trace, pos, cap, c)
    ensures Within(u + {a}, trace, pos, cap, c)
    decreases |trace| - pos
  {
    hide Within, NextUse;
    if pos >= |trace| {
      WithinEnd(u + {b}, trace, pos, cap, c);
      WithinEnd(u + {a}, trace, pos, cap, c);
    } else if a != b {
      var x := trace[pos];
      NextUseStep(trace, pos, a);
      NextUseStep(trace, pos, b);
      if x in u {
        WithinHit(u + {b}, trace, pos, cap, c);
        SoonerIsBetter(u, a, b, trace, pos + 1, cap, c);
        WithinHit(u + {a}, trace, pos, cap, c);
      } else {
        var v := WithinMiss(u + {b}, trace, pos, cap, c);
        SoonerAfterMiss(u, a, b, v, trace, pos, cap, c);
      }
    }
  }

  /** The case where at least the second cache misses; v is the page it gives up. */
  lemma {:induction false} SoonerAfterMiss(u: set<Key>, a: Key, b: Key, v: Key, trace: seq<Key>, pos: nat, cap: nat, c: int)
    requires pos < |trace| <= INT_MAX && a !in u && b !in u && a != b && |u| + 1 == cap
    requires trace[pos] != a ==> NextUse(trace, pos + 1, a) <= NextUse(trace, pos + 1, b)
    requires trace[pos] !in u + {b}
    requires v in u + {b} && Within(u + {b} - {v} + {trace[pos]}, trace, pos + 1, cap, c - 1)
    ensures Within(u + {a}, trace, pos, cap, c)
    decreases |trace| - pos, 0
  {
    hide Within, NextUse;
    var x := trace[pos];
    if v == b {
      Substitute(u, b, x);
      Substitute(u, a, x);
      if x == a {
        WithinMonotone(u + {a}, trace, pos + 1, cap, c - 1, c);
        WithinHit(u + {a}, trace, pos, cap, c);
      } else {
        WithinEvict(u + {a}, a, trace, pos, cap, c);
      }
    } else if x == a {
      var w := u - {v} + {x};
      Exchange(u, b, v, x);
      Regroup(u, v, a);
      SwapCostsOne(w, v, b, trace, pos + 1, cap, c - 1);
      WithinHit(u + {a}, trace, pos, cap, c);
    } else {
      var w := u - {v} + {x};
      Exchange(u, b, v, x);
      Exchange(u, a, v, x);
      SoonerIsBetter(w, a, b, trace, pos + 1, cap, c - 1);
      WithinEvict(u + {a}, v, trace, pos, cap, c);
    }
  }

  /** Evicting a page whose next use is farthest away is never worse than evicting any other. */
  lemma FarthestIsBest(s: set<Key>, f: Key, trace: seq<Key>, pos: nat, cap: nat, c: int)
    requires pos < |trace| <= INT_MAX && |s| == cap && trace[pos] !in s && f in s
    requires forall v :: v in s ==> NextUse(trace, pos, v) <= NextUse(trace, pos, f)
    requires Within(s, trace, pos, cap, c)
    ensures Within(s - {f} + {trace[pos]}, trace, pos + 1, cap, c - 1)
  {
    hide Within;
    var x := trace[pos];
    var v := WithinMiss(s, trace, pos, cap, c);
    if v != f {
      var u := s - {v} - {f} + {x};
      NextUseStep(trace, pos, v);
      NextUseStep(trace, pos, f);
      assert s - {v} + {x} == u + {f} && s - {f} + {x} == u + {v};
      assert |s - {v} - {f}| == cap - 2;
      SoonerIsBetter(u, v, f, trace, pos + 1, cap, c - 1);
    }
  }

  // ---------------------------------------------------------------- the buffer manager

  ghost predicate PagesExist(m: Manager, trace: seq<Key>, pos: nat) {
    forall i :: pos <= i < |trace| ==> trace[i] in m.disk
  }

  lemma WithinServed(s: set<Key>, v: Key, trace: seq<Key>, pos: nat, cap: nat, c: int)
    requires pos < |trace| && (trace[pos] !in s && |s| >= cap ==> v in s)
    requires Within(Served(s, v, trace[pos], cap), trace, pos + 1, cap, if trace[pos] in s then c else c - 1)
    ensures Within(s, trace, pos, cap, c)
  {
    hide Within;
    if trace[pos] in s {
      WithinHit(s, trace, pos, cap, c);
    } else if |s| < cap {
      WithinFree(s, trace, pos, cap, c);
    } else {
      WithinEvict(s, v, trace, pos, cap, c);
    }
  }

  /** The misses of any run are misses that some choice of victims allows. */
  lemma {:induction false} RunIsWithin(m: Manager, trace: seq<Key>, pos: nat, n: Manager)
    requires Mapped(m) && Ready(m) && PagesExist(m, trace, pos) && ServedBy(m, trace, pos, n)
    ensures Within(m.table.Keys, trace, pos, |m.frames|, n.misses - m.misses)
    decreases |trace| - pos
  {
    hide Within, ServedBy, Legal, Access, Mapped, FirstFree, Ready, EvictedKey, Served;
    if pos >= |trace| {
      ServedEnd(m, trace, pos, n);
      WithinEnd(m.table.Keys, trace, pos, |m.frames|, 0);
    } else {
      var ch := ServedStep(m, trace, pos, n);
      AccessSummary(m, trace[pos], ch);
      RunIsWithin(Access(m, trace[pos], ch), trace, pos + 1, n);
      WithinServed(m.table.Keys, EvictedKey(m, ch), trace, pos, |m.frames|, n.misses - m.misses);
    }
  }

  /** The page that opt_evict gives up is one whose next use is farthest away. */
  lemma OptVictimIsFarthest(m: Manager, trace: seq<Key>, pos: nat, v: int)
    requires Ready(m) && FarthestUse(m.frames, trace, pos, v) && v != -1
    ensures forall k :: k in m.table ==> NextUse(trace, pos, k) <= NextUse(trace, pos, m.frames[v].key)
  {
    forall k | k in m.table
      ensures NextUse(trace, pos, k) <= NextUse(trace, pos, m.frames[v].key)
    {
      assert Evictable(m.frames, m.table[k]);
    }
  }

  /** The position of OPT moves on by one with every access, and it chooses by its trace. */
  lemma OptAdvances(m: Manager, k: Key, ch: Choice, trace: seq<Key>, pos: nat)
    requires Ready(m) && PolicyChoice(m, k, ch) && k in m.disk
    requires m.policy == Opt(trace, pos) && pos < |trace|
    ensures Access(m, k, ch).policy == Opt(trace, pos + 1)
    ensures Asked(m, k) ==> FarthestUse(m.frames, trace, pos, ch.victim)
  {
    hide Access, FarthestUse, Mapped, FirstFree;
    if k in m.table {
      AccessHit(m, k, ch);
    } else if FirstFree(m.frames) >= 0 {
      AccessIntoFree(m, k, ch);
    } else {
      AccessEvicting(m, k, ch);
    }
  }

  /** A run under OPT, whose position is always the index of the access being served, meets every
      bound that any choice of victims can meet. */
  lemma {:induction false} OptRunIsBest(m: Manager, trace: seq<Key>, pos: nat, n: Manager, c: int)
    requires Ready(m) && PagesExist(m, trace, pos) && |trace| <= INT_MAX
    requires m.policy == Opt(trace, pos) && ServedByPolicy(m, trace, pos, n)
    requires Within(m.table.Keys, trace, pos, |m.frames|, c)
    ensures n.misses - m.misses <= c
    decreases |trace| - pos
  {
    hide Within, ServedByPolicy, Legal, Access, Mapped, EvictOutcome, FarthestUse;
    if pos >= |trace| {
      WithinEnd(m.table.Keys, trace, pos, |m.frames|, c);
      PolicyEnd(m, trace, pos, n);
    } else {
      var k := trace[pos];
      var ch := PolicyStep(m, trace, pos, n);
      var m' := Access(m, k, ch);
      AccessSummary(m, k, ch);
      OptAdvances(m, k, ch, trace, pos);
      if k in m.table.Keys {
        WithinHit(m.table.Keys, trace, pos, |m.frames|, c);
        OptRunIsBest(m', trace, pos + 1, n, c);
      } else if |m.table.Keys| < |m.frames| {
        WithinFree(m.table.Keys, trace, pos, |m.frames|, c);
        OptRunIsBest(m', trace, pos + 1, n, c - 1);
      } else {
        OptVictimIsFarthest(m, trace, pos, ch.victim);
        FarthestIsBest(m.table.Keys, m.frames[ch.victim].key, trace, pos, |m.frames|, c);
        OptRunIsBest(m', trace, pos + 1, n, c - 1);
      }
    }
  }

  /** Belady's theorem for this buffer manager: from an empty pool, the run of bm_get_frame with the
      OPT policy on the very trace it serves misses no more than a run with the same number of frames
      under any other strategy, be it another policy of the server or one that knows the future. */
  lemma {:induction false} OptIsOptimal(m: Manager, n: Manager, m': Manager, n': Manager, trace: seq<Key>)
    requires Initial(m) && Initial(m') && 0 < |m.frames| == |m'.frames| && |trace| <= INT_MAX
    requires PagesExist(m, trace, 0) && PagesExist(m', trace, 0)
    requires m.policy == Opt(trace, 0)
    requires Mapped(m) && ServedByPolicy(m, trace, 0, n)
    requires Mapped(m') && ServedBy(m', trace, 0, n')
    ensures n.misses <= n'.misses
  {
    hide Within, ServedBy, ServedByPolicy;
    InitialReady(m);
    InitialReady(m');
    RunIsWithin(m', trace, 0, n');
    OptRunIsBest(m, trace, 0, n, n'.misses);
  }
}
