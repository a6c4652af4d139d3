/** Scans that repeat: round after round over one page more than the pool has frames.  LRU gives up each
    page just before it is used again and never hits; NoCache keeps all but two pages for good. */
module RepeatedScans {
  import opened Sets
  import opened PoolModel
  import opened EvictionPolicies
  import opened BufferModel
  import opened BufferTheorems
  import opened AccessRuns
  import opened Belady
  import opened LruStack
  import opened Nocache

  /** r scans of the same pages. */
  function Rounds(pages: seq<Key>, r: nat): (trace: seq<Key>)
    ensures |trace| == r * |pages|
  {
    if r == 0 then []
    else
      assert r * |pages| == |pages| + (r - 1) * |pages|;
      pages + Rounds(pages, r - 1)
  }

  lemma RoundBefore(j: nat, c: nat)
    requires j > 0
    ensures j * c == c + (j - 1) * c >= c
  {
  }

  /** Access d of round j. */
  lemma {:induction false} RoundsAt(pages: seq<Key>, r: nat, j: nat, d: nat)
    requires j < r && d < |pages|
    ensures j * |pages| + d < r * |pages| && Rounds(pages, r)[j * |pages| + d] == pages[d]
    decreases j
  {
    assert r * |pages| == |pages| + (r - 1) * |pages|;
    if j > 0 {
      RoundsAt(pages, r - 1, j - 1, d);
      assert j * |pages| == |pages| + (j - 1) * |pages|;
    }
  }

  lemma FirstRound(pages: seq<Key>, r: nat, d: nat)
    requires r > 0 && d <= |pages|
    ensures d <= |Rounds(pages, r)| && Rounds(pages, r)[..d] == pages[..d]
  {
  }

  /** Between two accesses to the same page lie accesses to all others. */
  lemma Window(pages: seq<Key>, r: nat, j: nat, d: nat)
    requires 0 < j < r && d < |pages|
    ensures var i := j * |pages| + d;
            && |pages| <= i < |Rounds(pages, r)|
            && Rounds(pages, r)[i - |pages| + 1..i] == pages[d + 1..] + pages[..d]
  {
    var c, trace := |pages|, Rounds(pages, r);
    var i := j * c + d;
    RoundsAt(pages, r, j, d);
    RoundBefore(j, c);
    var w, others := trace[i - c + 1..i], pages[d + 1..] + pages[..d];
    forall x | 0 <= x < |w|
      ensures w[x] == others[x]
    {
      if d + 1 + x < c {
        RoundsAt(pages, r, j - 1, d + 1 + x);
      } else {
        RoundsAt(pages, r, j, d + 1 + x - c);
      }
    }
  }

  lemma OthersDistinct(pages: seq<Key>, d: nat)
    requires Distinct(pages) && d < |pages|
    ensures Distinct(pages[d + 1..] + pages[..d]) && pages[d] !in pages[d + 1..] + pages[..d]
  {
  }

  // ---------------------------------------------------------------- LRU

  lemma {:induction false} LastUseBelow(trace: seq<Key>, pos: nat, k: Key, lo: nat)
    requires lo <= pos <= |trace| && k !in trace[lo..pos]
    ensures LastUse(trace, pos, k) < lo || (lo == 0 && LastUse(trace, pos, k) == -1)
    decreases pos
  {
    hide Seen;
    if lo < pos {
      assert trace[lo..pos][pos - 1 - lo] == trace[pos - 1];
      assert trace[lo..pos - 1] == trace[lo..pos][..pos - 1 - lo];
      LastUseBelow(trace, pos - 1, k, lo);
    }
  }

  lemma {:induction false} LastUseAbove(trace: seq<Key>, pos: nat, t: nat)
    requires t < pos <= |trace|
    ensures LastUse(trace, pos, trace[t]) >= t && trace[t] in Seen(trace, pos)
    decreases pos
  {
    hide Seen;
    if t < pos - 1 {
      LastUseAbove(trace, pos - 1, t);
    }
  }

  /** A page before whose next access cap others are used is not among the cap most recent ones. */
  lemma NotRecent(trace: seq<Key>, lo: nat, pos: nat, cap: nat)
    requires lo <= pos < |trace| && Distinct(trace[lo..pos]) && trace[pos] !in trace[lo..pos] && pos - lo >= cap
    ensures !AmongRecent(trace, pos, trace[pos], cap)
  {
    hide Seen, LastUse;
    var s := Elements(trace[lo..pos]);
    LastUseBelow(trace, pos, trace[pos], lo);
    forall y | y in s
      ensures y in Newer(trace, pos, trace[pos])
    {
      var x :| 0 <= x < |trace[lo..pos]| && trace[lo..pos][x] == y;
      LastUseAbove(trace, pos, lo + x);
    }
    DistinctElements(trace[lo..pos]);
    SubsetSize(s, Newer(trace, pos, trace[pos]));
  }

  lemma NotSeen(trace: seq<Key>, pos: nat, cap: nat)
    requires pos < |trace| && trace[pos] !in trace[..pos]
    ensures !AmongRecent(trace, pos, trace[pos], cap)
  {
  }

  lemma LruMisses(pages: seq<Key>, r: nat, j: nat, d: nat)
    requires Distinct(pages) && j < r && d < |pages|
    ensures var (trace, i) := (Rounds(pages, r), j * |pages| + d);
            i < |trace| && !AmongRecent(trace, i, trace[i], |pages| - 1)
  {
    hide AmongRecent, Distinct;
    var trace, i := Rounds(pages, r), j * |pages| + d;
    RoundsAt(pages, r, j, d);
    OthersDistinct(pages, d);
    if j == 0 {
      FirstRound(pages, r, d);
      NotSeen(trace, i, |pages| - 1);
    } else {
      Window(pages, r, j, d);
      NotRecent(trace, i - |pages| + 1, i, |pages| - 1);
    }
  }

  lemma SmallerFactor(j: nat, r: nat, c: nat)
    requires j * c < r * c
    ensures j < r
  {
    assert j >= r ==> (j - r) * c >= 0;
    assert (j - r) * c == j * c - r * c;
  }

  /** Every position is access d of some round j. */
  lemma Position(pages: seq<Key>, r: nat, i: nat) returns (j: nat, d: nat)
    requires pages != [] && i < r * |pages|
    ensures j < r && d < |pages| && i == j * |pages| + d
  {
    j, d := i / |pages|, i % |pages|;
    SmallerFactor(j, r, |pages|);
  }

  lemma {:induction false} NoRecentHits(pages: seq<Key>, r: nat, i: nat)
    requires Distinct(pages) && pages != []
    ensures RecentHits(Rounds(pages, r), i, |pages| - 1) == 0
    decreases r * |pages| - i
  {
    hide AmongRecent, Distinct, Rounds;
    if i < r * |pages| {
      var j, d := Position(pages, r, i);
      LruMisses(pages, r, j, d);
      NoRecentHits(pages, r, i + 1);
    }
  }

  // ---------------------------------------------------------------- NoCache

  lemma {:induction false} LastOutsideAt(trace: seq<Key>, pos: nat, s: set<Key>, t: nat)
    requires t < pos <= |trace| && trace[0] !in s && trace[t] !in s
    requires forall i :: t < i < pos ==> trace[i] in s
    ensures LastOutside(trace, pos, s) == trace[t]
    decreases pos
  {
    hide Seen;
    if t < pos - 1 {
      LastOutsideAt(trace, pos - 1, s, t);
    }
  }

  lemma FirstRoundMisses(pages: seq<Key>, r: nat, d: nat)
    requires Distinct(pages) && |pages| >= 2 && r > 0 && d < |pages|
    ensures d < |Rounds(pages, r)| && Rounds(pages, r)[d] !in NocacheSet(Rounds(pages, r), d, |pages| - 1)
  {
    hide Distinct, NocacheSet, Rounds;
    RoundsAt(pages, r, 0, d);
    assert 0 * |pages| + d == d;
    FirstRound(pages, r, d);
    OthersDistinct(pages, d);
    BeforeFull(Rounds(pages, r), d, |pages| - 1);
  }

  /** In the first round every access misses; later exactly the first and the last of each round do. */
  lemma NocacheHitAt(pages: seq<Key>, r: nat, j: nat, d: nat)
    requires Distinct(pages) && |pages| >= 2 && j < r && d < |pages|
    ensures var (trace, i) := (Rounds(pages, r), j * |pages| + d);
            i < |trace| && (trace[i] in NocacheSet(trace, i, |pages| - 1) <==> j > 0 && 0 < d < |pages| - 1)
  {
    hide Distinct, NocacheSet, Rounds;
    if j == 0 {
      FirstRoundMisses(pages, r, d);
    } else {
      LaterRoundHits(pages, r, j, d);
    }
  }

  lemma LaterRoundHits(pages: seq<Key>, r: nat, j: nat, d: nat)
    requires Distinct(pages) && |pages| >= 2 && 0 < j < r && d < |pages|
    ensures var (trace, i) := (Rounds(pages, r), j * |pages| + d);
            i < |trace| && (trace[i] in NocacheSet(trace, i, |pages| - 1) <==> 0 < d < |pages| - 1)
  {
    hide Distinct, Rounds, Kept, LastOutside, Seen;
    var c, trace := |pages|, Rounds(pages, r);
    var i := j * c + d;
    RoundsAt(pages, r, j, d);
    FirstRound(pages, r, c);
    RoundBefore(j, c);
    assert trace[..c - 1 + 1] == trace[..c] == pages;
    KeptForGood(trace, i, c - 1);
    Middle(pages, trace);
    if d == 0 {
      RoundsAt(pages, r, j - 1, c - 1);
      FirstOfRound(pages, trace, i);
    } else {
      BackToFirst(pages, r, j, d, Elements(trace[1..c - 1]));
    }
  }

  /** After the last access of a round, the page outside is the last one. */
  lemma FirstOfRound(pages: seq<Key>, trace: seq<Key>, i: nat)
    requires Distinct(pages) && 2 <= |pages| <= i < |trace| && trace[..|pages|] == pages
    requires trace[i - 1] == pages[|pages| - 1] && trace[i] == pages[0]
    ensures trace[i] !in NocacheSet(trace, i, |pages| - 1)
  {
    hide NocacheSet;
    Middle(pages, trace);
    assert trace[..|pages| - 1 + 1] == pages;
    AfterMisses(trace, i, |pages| - 1);
  }

  lemma SliceOfPrefix(s: seq<Key>, c: nat, lo: nat, hi: nat)
    requires lo <= hi <= c <= |s|
    ensures s[lo..hi] == s[..c][lo..hi]
  {
  }

  /** The pages kept are those between the first and the last. */
  lemma Middle(pages: seq<Key>, trace: seq<Key>)
    requires Distinct(pages) && 2 <= |pages| <= |trace| && trace[..|pages|] == pages
    ensures forall d :: 0 <= d < |pages| ==> (pages[d] in Elements(trace[1..|pages| - 1]) <==> 0 < d < |pages| - 1)
    ensures trace[0] == pages[0]
  {
    var c := |pages|;
    SliceOfPrefix(trace, c, 1, c - 1);
    forall d | 0 <= d < c
      ensures pages[d] in Elements(trace[1..c - 1]) <==> 0 < d < c - 1
    {
      if 0 < d < c - 1 {
        assert pages[1..c - 1][d - 1] == pages[d];
      }
    }
  }

  /** After the first access of a round, the page outside is the first one. */
  lemma BackToFirst(pages: seq<Key>, r: nat, j: nat, d: nat, s: set<Key>)
    requires |pages| >= 2 && 0 < j < r && 0 < d < |pages| && Distinct(pages)
    requires forall x :: 0 <= x < |pages| ==> (pages[x] in s <==> 0 < x < |pages| - 1)
    ensures var (trace, i) := (Rounds(pages, r), j * |pages| + d);
            && i < |trace| && trace[0] !in s && LastOutside(trace, i, s) == pages[0] != pages[d]
  {
    hide Distinct;
    var c, trace := |pages|, Rounds(pages, r);
    var i := j * c + d;
    RoundsAt(pages, r, j, d);
    RoundsAt(pages, r, j, 0);
    RoundsAt(pages, r, 0, 0);
    forall t | j * c < t < i
      ensures trace[t] in s
    {
      RoundsAt(pages, r, j, t - j * c);
    }
    LastOutsideAt(trace, i, s, j * c);
    OthersDistinct(pages, d);
    assert pages[..d][0] == pages[0];
  }

  /** The hits that access d of a round and the later ones of it are good for. */
  function HitsLeft(c: nat, j: nat, d: nat): nat
    requires c >= 2 && d <= c
  {
    if j == 0 || d == c then 0 else if d == 0 then c - 2 else c - 1 - d
  }

  lemma {:induction false} HitsInRound(pages: seq<Key>, r: nat, j: nat, d: nat)
    requires Distinct(pages) && |pages| >= 2 && j < r && d <= |pages|
    ensures NocacheHits(Rounds(pages, r), j * |pages| + d, |pages| - 1) ==
              NocacheHits(Rounds(pages, r), (j + 1) * |pages|, |pages| - 1) + HitsLeft(|pages|, j, d)
    decreases |pages| - d
  {
    hide NocacheSet, Distinct, Rounds;
    if d < |pages| {
      NocacheHitAt(pages, r, j, d);
      HitsInRound(pages, r, j, d + 1);
    } else {
      assert j * |pages| + d == (j + 1) * |pages|;
    }
  }

  lemma {:induction false} HitsFromRound(pages: seq<Key>, r: nat, j: nat)
    requires Distinct(pages) && |pages| >= 2 && 1 <= j <= r
    ensures NocacheHits(Rounds(pages, r), j * |pages|, |pages| - 1) == (r - j) * (|pages| - 2)
    decreases r - j
  {
    hide NocacheSet, Distinct;
    if j < r {
      HitsInRound(pages, r, j, 0);
      HitsFromRound(pages, r, j + 1);
      assert (r - j) * (|pages| - 2) == (r - (j + 1)) * (|pages| - 2) + (|pages| - 2);
    }
  }

  /** r scans of k + 1 pages through k frames: LRU never hits, NoCache hits (r - 1) * (k - 1) times. */
  lemma {:induction false} NocacheBeatsLru(m: Manager, n: Manager, m': Manager, n': Manager, pages: seq<Key>, r: nat)
    requires Initial(m) && Initial(m') && 0 < |m.frames| == |m'.frames| && m.policy == NoCache && m'.policy == Lru
    requires Distinct(pages) && |pages| == |m.frames| + 1 && r > 0
    requires var trace := Rounds(pages, r);
             && PagesExist(m, trace, 0) && Mapped(m) && ServedByPolicy(m, trace, 0, n)
             && PagesExist(m', trace, 0) && Mapped(m') && ServedByPolicy(m', trace, 0, n')
    ensures n.hits == (r - 1) * (|m.frames| - 1)
    ensures n'.hits == 0
  {
    hide ServedByPolicy, NocacheSet, AmongRecent, Distinct, Rounds;
    var trace := Rounds(pages, r);
    NocacheHoldsFirst(m, trace, n);
    HitsInRound(pages, r, 0, 0);
    HitsFromRound(pages, r, 1);
    assert 1 * |pages| == |pages| && 0 * |pages| + 0 == 0;
    LruHoldsMostRecent(m', trace, n');
    NoRecentHits(pages, r, 0);
  }
}
