/** Clock from the trace alone.  No reference bit is mentioned: a page is spared if it was accessed since
    the hand last went over its frame, and the victim is the first page from the hand on that was not. */
module ClockRuns {
  import opened PoolModel
  import opened EvictionPolicies
  import opened BufferModel
  import opened BufferTheorems
  import opened AccessRuns
  import opened Belady
  import opened LruStack

  // ---------------------------------------------------------------- the clock, from the trace alone

  /** The pages in the frames, where the hand is, and during which access it last went over each frame. */
  datatype Dial = Dial(pages: seq<Key>, hand: nat, passed: seq<nat>)

  ghost predicate Sound(d: Dial, pos: nat, cap: nat) {
    && |d.pages| == |d.passed| <= cap && d.hand < cap
    && forall i :: 0 <= i < |d.passed| ==> d.passed[i] <= pos
  }

  /** The page in frame i was accessed since the hand went over it. */
  ghost predicate Used(trace: seq<Key>, pos: nat, d: Dial, i: nat)
    requires pos <= |trace| && i < |d.pages| == |d.passed|
  {
    LastUse(trace, pos, d.pages[i]) >= d.passed[i]
  }

  /** How far from the hand the first frame is whose page was not used, the number of frames if there is none. */
  ghost function Spared(trace: seq<Key>, pos: nat, d: Dial, from: nat): (e: nat)
    requires pos <= |trace| && |d.pages| == |d.passed| && d.hand < |d.pages| && from <= |d.pages|
    ensures from <= e <= |d.pages|
    ensures forall x {:trigger Around(d.hand, x, |d.pages|)} :: from <= x < e ==> Used(trace, pos, d, Around(d.hand, x, |d.pages|))
    ensures e < |d.pages| ==> !Used(trace, pos, d, Around(d.hand, e, |d.pages|))
    decreases |d.pages| - from
  {
    if from == |d.pages| || !Used(trace, pos, d, Around(d.hand, from, |d.pages|)) then from
    else Spared(trace, pos, d, from + 1)
  }

  /** The frame that is given up; the one at the hand if all pages were used. */
  ghost function ClockVictim(trace: seq<Key>, pos: nat, d: Dial): (v: nat)
    requires pos <= |trace| && |d.pages| == |d.passed| && d.hand < |d.pages|
    ensures v < |d.pages|
  {
    var e := Spared(trace, pos, d, 0);
    Around(d.hand, if e < |d.pages| then e else 0, |d.pages|)
  }

  /** The hand has gone over the frames before the victim, or over all of them. */
  ghost function Passed(trace: seq<Key>, pos: nat, d: Dial): (ps: seq<nat>)
    requires pos <= |trace| && |d.pages| == |d.passed| && d.hand < |d.pages|
    ensures |ps| == |d.pages|
  {
    var n := |d.pages|;
    seq(n, i requires 0 <= i < n => if Distance(d.hand, i, n) < Spared(trace, pos, d, 0) then pos else d.passed[i])
  }

  /** One access. */
  ghost function Turn(trace: seq<Key>, pos: nat, d: Dial, cap: nat): (e: Dial)
    requires pos < |trace| && Sound(d, pos, cap)
    ensures Sound(e, pos + 1, cap)
  {
    var k := trace[pos];
    if k in d.pages then d
    else if |d.pages| < cap then Dial(d.pages + [k], d.hand, d.passed + [0])
    else
      var v := ClockVictim(trace, pos, d);
      Dial(d.pages[v := k], (v + 1) % cap, Passed(trace, pos, d))
  }

  /** The dial after the first pos accesses, from an empty pool. */
  ghost function ClockDial(trace: seq<Key>, pos: nat, cap: nat): (d: Dial)
    requires pos <= |trace| && cap > 0
    ensures Sound(d, pos, cap)
  {
    if pos == 0 then Dial([], 0, []) else Turn(trace, pos - 1, ClockDial(trace, pos - 1, cap), cap)
  }

  /** The accesses before pos that find their page. */
  ghost function ClockHits(trace: seq<Key>, pos: nat, cap: nat): nat
    requires pos <= |trace| && cap > 0
  {
    if pos == 0 then 0
    else (if trace[pos - 1] in ClockDial(trace, pos - 1, cap).pages then 1 else 0) + ClockHits(trace, pos - 1, cap)
  }

  /** The second chance: while some page has not been accessed since the hand went over its frame, none that
      has been is given up; and between the hand and the victim all have been. */
  lemma SecondChance(trace: seq<Key>, pos: nat, d: Dial)
    requires pos <= |trace| && |d.pages| == |d.passed| && d.hand < |d.pages|
    ensures var v := ClockVictim(trace, pos, d);
            && (Used(trace, pos, d, v) ==> v == d.hand && forall i :: 0 <= i < |d.pages| ==> Used(trace, pos, d, i))
            && forall i :: 0 <= i < |d.pages| && Distance(d.hand, i, |d.pages|) < Distance(d.hand, v, |d.pages|) ==> Used(trace, pos, d, i)
  {
    var e, n := Spared(trace, pos, d, 0), |d.pages|;
    forall i | 0 <= i < n && Distance(d.hand, i, n) < e
      ensures Used(trace, pos, d, i)
    {
      assert Around(d.hand, Distance(d.hand, i, n), n) == i;
    }
  }

  // ---------------------------------------------------------------- what an access does to each frame

  lemma HitFrames(m: Manager, k: Key, ch: Choice)
    requires Ready(m) && Legal(m.frames, ch) && k in m.table
    ensures var n := Access(m, k, ch);
            && Ready(n) && |n.frames| == |m.frames| && n.policy == Advance(m.policy) && n.hits == m.hits + 1
            && n.disk.Keys == m.disk.Keys
            && forall i :: 0 <= i < |m.frames| ==>
                 && n.frames[i].key == m.frames[i].key && n.frames[i].state == m.frames[i].state
                 && n.frames[i].refBit == (m.frames[i].refBit || i == m.table[k])
  {
    AccessHit(m, k, ch);
  }

  lemma FreeFrames(m: Manager, k: Key, ch: Choice)
    requires Ready(m) && Legal(m.frames, ch) && k !in m.table && k in m.disk && FirstFree(m.frames) >= 0
    ensures var n, j := Access(m, k, ch), FirstFree(m.frames);
            && Ready(n) && |n.frames| == |m.frames| && n.policy == Advance(m.policy) && n.hits == m.hits
            && n.disk.Keys == m.disk.Keys
            && n.frames[j].key == k && n.frames[j].state == Occupied && n.frames[j].refBit
            && forall i :: 0 <= i < |m.frames| && i != j ==> n.frames[i] == m.frames[i]
  {
    AccessIntoFree(m, k, ch);
  }

  lemma EvictingFrames(m: Manager, k: Key, ch: Choice)
    requires Ready(m) && Legal(m.frames, ch) && Asked(m, k) && k in m.disk
    ensures var n, v := Access(m, k, ch), ch.victim;
            && 0 <= v < |m.frames| == |n.frames| == |ch.frames|
            && Ready(n) && n.policy == Advance(ch.policy) && n.hits == m.hits && m.disk.Keys <= n.disk.Keys
            && n.frames[v].key == k && n.frames[v].state == Occupied && n.frames[v].refBit
            && forall i :: 0 <= i < |m.frames| && i != v ==> n.frames[i] == ch.frames[i]
  {
    AccessEvicting(m, k, ch);
    var x := Load(EvictFrame(Chosen(m, ch), ch.victim), ch.victim, k).0;
    assert FetchVia(m, k, ch).0 == x;
  }

  // ---------------------------------------------------------------- the pool shows the dial

  /** Frame i shows page i of the dial, and its reference bit whether that page was used. */
  ghost predicate FrameShows(f: Frame, trace: seq<Key>, pos: nat, d: Dial, i: nat)
    requires pos <= |trace| && i < |d.pages| == |d.passed|
  {
    f.state == Occupied && f.key == d.pages[i] && (f.refBit <==> Used(trace, pos, d, i))
  }

  ghost predicate Shows(m: Manager, trace: seq<Key>, pos: nat, d: Dial) {
    && pos <= |trace| && Ready(m) && Sound(d, pos, |m.frames|)
    && m.policy == Clock(d.hand, |m.frames|)
    && (forall i :: 0 <= i < |d.pages| ==> FrameShows(m.frames[i], trace, pos, d, i))
    && (forall i :: |d.pages| <= i < |m.frames| ==> m.frames[i].state == Free)
  }

  /** The page table has the pages of the dial. */
  lemma ShownPages(m: Manager, trace: seq<Key>, pos: nat, d: Dial, k: Key)
    requires Shows(m, trace, pos, d)
    ensures k in m.table <==> k in d.pages
    ensures k in m.table ==> 0 <= m.table[k] < |d.pages| && d.pages[m.table[k]] == k
    ensures FirstFree(m.frames) == if |d.pages| < |m.frames| then |d.pages| else -1
  {
    hide Used;
    if k in d.pages {
      var i :| 0 <= i < |d.pages| && d.pages[i] == k;
      assert FrameShows(m.frames[i], trace, pos, d, i);
    }
    if k in m.table {
      var i := m.table[k];
      assert m.frames[i].state != Free;
      assert FrameShows(m.frames[i], trace, pos, d, i);
    }
    forall i | 0 <= i < |d.pages|
      ensures m.frames[i].state == Occupied
    {
      assert FrameShows(m.frames[i], trace, pos, d, i);
    }
    var v := FirstFree(m.frames);
    if |d.pages| < |m.frames| {
      assert m.frames[|d.pages|].state == Free;
    }
    assert v >= 0 ==> m.frames[v].state == Free;
  }

  /** A page other than the one accessed is used or not as before. */
  lemma StaysUsed(trace: seq<Key>, pos: nat, d: Dial, i: nat, e: Dial, j: nat)
    requires pos < |trace| && i < |d.pages| == |d.passed| && j < |e.pages| == |e.passed|
    requires e.pages[j] == d.pages[i] && e.passed[j] == d.passed[i] && d.pages[i] != trace[pos]
    ensures Used(trace, pos + 1, e, j) <==> Used(trace, pos, d, i)
  {
  }

  /** The page accessed is used. */
  lemma NowUsed(trace: seq<Key>, pos: nat, e: Dial, j: nat)
    requires pos < |trace| && j < |e.pages| == |e.passed| && e.pages[j] == trace[pos] && e.passed[j] <= pos
    ensures Used(trace, pos + 1, e, j)
  {
  }

  /** A page that the hand has just gone over is not. */
  lemma NotUsed(trace: seq<Key>, pos: nat, e: Dial, j: nat)
    requires pos < |trace| && j < |e.pages| == |e.passed| && e.pages[j] != trace[pos] && e.passed[j] == pos
    ensures !Used(trace, pos + 1, e, j)
  {
  }

  lemma HitShows(m: Manager, trace: seq<Key>, pos: nat, d: Dial, ch: Choice)
    requires pos < |trace| && Shows(m, trace, pos, d) && Legal(m.frames, ch) && trace[pos] in m.table
    ensures trace[pos] in d.pages && Shows(Access(m, trace[pos], ch), trace, pos + 1, Turn(trace, pos, d, |m.frames|))
  {
    hide Used, Access, Mapped, LastUse;
    var k := trace[pos];
    HitFrames(m, k, ch);
    ShownPages(m, trace, pos, d, k);
    var n := Access(m, k, ch);
    forall i | 0 <= i < |d.pages|
      ensures FrameShows(n.frames[i], trace, pos + 1, d, i)
    {
      assert FrameShows(m.frames[i], trace, pos, d, i);
      if d.pages[i] == k {
        OneFrame(m, k, i);
        NowUsed(trace, pos, d, i);
      } else {
        StaysUsed(trace, pos, d, i, d, i);
      }
    }
  }

  lemma OneFrame(m: Manager, k: Key, i: int)
    requires Ready(m) && 0 <= i < |m.frames| && m.frames[i].state == Occupied && m.frames[i].key == k
    ensures k in m.table && m.table[k] == i
  {
  }

  lemma FreeShows(m: Manager, trace: seq<Key>, pos: nat, d: Dial, ch: Choice)
    requires pos < |trace| && Shows(m, trace, pos, d) && Legal(m.frames, ch)
    requires trace[pos] !in m.table && trace[pos] in m.disk && FirstFree(m.frames) >= 0
    ensures trace[pos] !in d.pages && Shows(Access(m, trace[pos], ch), trace, pos + 1, Turn(trace, pos, d, |m.frames|))
  {
    hide Used, Access, Mapped, LastUse;
    var k, e := trace[pos], Turn(trace, pos, d, |m.frames|);
    FreeFrames(m, k, ch);
    ShownPages(m, trace, pos, d, k);
    var n := Access(m, k, ch);
    forall i | 0 <= i < |e.pages|
      ensures FrameShows(n.frames[i], trace, pos + 1, e, i)
    {
      if i == |d.pages| {
        NowUsed(trace, pos, e, i);
      } else {
        assert FrameShows(m.frames[i], trace, pos, d, i);
        StaysUsed(trace, pos, d, i, e, i);
      }
    }
  }

  /** The outcome of clock_evict in a pool without free frames is the victim of the dial, and the bits that
      it clears are those of the frames that the hand has gone over. */
  lemma OutcomeIsVictim(m: Manager, trace: seq<Key>, pos: nat, d: Dial, ch: Choice)
    requires Shows(m, trace, pos, d) && |d.pages| == |m.frames| && EvictOutcome(m.policy, m.frames, ch)
    ensures ch.victim == ClockVictim(trace, pos, d) && |ch.frames| == |m.frames|
    ensures ch.policy == Clock((ch.victim + 1) % |m.frames|, |m.frames|)
    ensures forall i :: 0 <= i < |m.frames| ==>
              ch.frames[i] == if Distance(d.hand, i, |m.frames|) < Spared(trace, pos, d, 0) then Cleared(m.frames[i]) else m.frames[i]
  {
    hide Used, Mapped;
    var fs, n := m.frames, |m.frames|;
    forall i | 0 <= i < n
      ensures Evictable(fs, i) && (Unreferenced(fs, i) <==> !Used(trace, pos, d, i))
    {
      assert FrameShows(fs[i], trace, pos, d, i);
    }
    assert Evictable(fs, 0);
    var x :| 0 <= x < n && ClockStopsAt(fs, d.hand, x, ch.victim, ch.frames, ch.policy.hand);
    var e := Spared(trace, pos, d, 0);
    StopIsVictim(fs, d.hand, x, ch.victim, ch.frames, ch.policy.hand, e);
  }

  /** The stop of the sweep, given the distance e of the first frame without its bit. */
  lemma StopIsVictim(fs: seq<Frame>, hand: nat, x: int, v: int, gs: seq<Frame>, hand': nat, e: nat)
    requires ClockStopsAt(fs, hand, x, v, gs, hand') && e <= |fs|
    requires forall i :: 0 <= i < |fs| ==> Evictable(fs, i)
    requires forall y {:trigger Around(hand, y, |fs|)} :: 0 <= y < e ==> !Unreferenced(fs, Around(hand, y, |fs|))
    requires e < |fs| ==> Unreferenced(fs, Around(hand, e, |fs|))
    ensures |gs| == |fs| && v == Around(hand, if e < |fs| then e else 0, |fs|) && hand' == (v + 1) % |fs|
    ensures forall i :: 0 <= i < |fs| ==> gs[i] == if Distance(hand, i, |fs|) < e then Cleared(fs[i]) else fs[i]
  {
    assert v == Around(hand, x, |fs|);
    if e < |fs| {
      assert Unreferenced(fs, Around(hand, e, |fs|));
      assert x == e;
    } else {
      assert !Unreferenced(fs, v);
      assert Evictable(fs, Around(hand, 0, |fs|));
      assert x == 0;
    }
    forall i | 0 <= i < |fs|
      ensures gs[i] == if Distance(hand, i, |fs|) < e then Cleared(fs[i]) else fs[i]
    {
      assert Around(hand, Distance(hand, i, |fs|), |fs|) == i;
    }
  }

  lemma EvictShows(m: Manager, trace: seq<Key>, pos: nat, d: Dial, ch: Choice)
    requires pos < |trace| && Shows(m, trace, pos, d) && PolicyChoice(m, trace[pos], ch)
    requires Asked(m, trace[pos]) && trace[pos] in m.disk
    ensures trace[pos] !in d.pages && Shows(Access(m, trace[pos], ch), trace, pos + 1, Turn(trace, pos, d, |m.frames|))
  {
    hide Used, Access, Mapped, LastUse, EvictOutcome, Legal, Spared, Asked;
    var k, e, n := trace[pos], Turn(trace, pos, d, |m.frames|), Access(m, trace[pos], ch);
    AskedWhenFull(m, k);
    ShownPages(m, trace, pos, d, k);
    OutcomeIsVictim(m, trace, pos, d, ch);
    EvictingFrames(m, k, ch);
    forall i | 0 <= i < |e.pages|
      ensures FrameShows(n.frames[i], trace, pos + 1, e, i)
    {
      assert FrameShows(m.frames[i], trace, pos, d, i);
      if i == ch.victim {
        NowUsed(trace, pos, e, i);
      } else if Distance(d.hand, i, |m.frames|) < Spared(trace, pos, d, 0) {
        NotUsed(trace, pos, e, i);
      } else {
        StaysUsed(trace, pos, d, i, e, i);
      }
    }
  }

  lemma AskedWhenFull(m: Manager, k: Key)
    requires Asked(m, k)
    ensures k !in m.table && FirstFree(m.frames) < 0
    ensures forall ch :: PolicyChoice(m, k, ch) ==> Legal(m.frames, ch) && EvictOutcome(m.policy, m.frames, ch)
  {
  }

  /** One access: the pool goes on showing the dial, and hits exactly if the page is on it. */
  lemma ClockStep(m: Manager, trace: seq<Key>, pos: nat, d: Dial, ch: Choice)
    requires pos < |trace| && Shows(m, trace, pos, d) && PolicyChoice(m, trace[pos], ch) && trace[pos] in m.disk
    ensures var n := Access(m, trace[pos], ch);
            && Shows(n, trace, pos + 1, Turn(trace, pos, d, |m.frames|)) && |n.frames| == |m.frames|
            && n.hits == m.hits + (if trace[pos] in d.pages then 1 else 0) && m.disk.Keys <= n.disk.Keys
  {
    hide Shows, Access, Turn, EvictOutcome, Mapped;
    var k := trace[pos];
    ShownReady(m, trace, pos, d, k);
    if k in m.table {
      HitFrames(m, k, ch);
      HitShows(m, trace, pos, d, ch);
    } else if FirstFree(m.frames) >= 0 {
      FreeFrames(m, k, ch);
      FreeShows(m, trace, pos, d, ch);
    } else {
      EvictingFrames(m, k, ch);
      EvictShows(m, trace, pos, d, ch);
    }
  }

  lemma ShownReady(m: Manager, trace: seq<Key>, pos: nat, d: Dial, k: Key)
    requires Shows(m, trace, pos, d)
    ensures pos <= |trace| && Ready(m) && Sound(d, pos, |m.frames|) && (k in m.table <==> k in d.pages)
  {
    ShownPages(m, trace, pos, d, k);
  }

  lemma {:induction false} ClockRun(m: Manager, trace: seq<Key>, pos: nat, n: Manager)
    requires pos <= |trace| && |m.frames| > 0 && Shows(m, trace, pos, ClockDial(trace, pos, |m.frames|)) && Mapped(m)
    requires PagesExist(m, trace, pos) && ServedByPolicy(m, trace, pos, n)
    requires m.hits == ClockHits(trace, pos, |m.frames|)
    ensures |n.frames| == |m.frames| && Shows(n, trace, |trace|, ClockDial(trace, |trace|, |m.frames|))
    ensures n.hits == ClockHits(trace, |trace|, |m.frames|)
    decreases |trace| - pos
  {
    hide Shows, Access, ServedByPolicy, Turn, Mapped, PolicyChoice;
    if pos == |trace| {
      PolicyEnd(m, trace, pos, n);
    } else {
      var ch := PolicyStep(m, trace, pos, n);
      ClockStep(m, trace, pos, ClockDial(trace, pos, |m.frames|), ch);
      ClockRun(Access(m, trace[pos], ch), trace, pos + 1, n);
    }
  }

  /** After any trace, from an empty pool, Clock has the pages of the dial in its frames, its hand is where
      the dial's is, and it has hit exactly the accesses that found their page on the dial. */
  lemma {:induction false} ClockHoldsDial(m: Manager, trace: seq<Key>, n: Manager)
    requires Initial(m) && |m.frames| > 0 && m.policy == Clock(0, |m.frames|)
    requires PagesExist(m, trace, 0) && Mapped(m) && ServedByPolicy(m, trace, 0, n)
    ensures var d := ClockDial(trace, |trace|, |m.frames|);
            && |d.pages| <= |n.frames| == |m.frames|
            && (forall i :: 0 <= i < |d.pages| ==> n.frames[i].state == Occupied && n.frames[i].key == d.pages[i])
            && (forall k :: k in n.table <==> k in d.pages)
            && n.policy == Clock(d.hand, |m.frames|)
            && n.hits == ClockHits(trace, |trace|, |m.frames|)
  {
    hide ServedByPolicy, Mapped;
    InitialReady(m);
    ClockRun(m, trace, 0, n);
    var d := ClockDial(trace, |trace|, |m.frames|);
    forall i | 0 <= i < |d.pages|
      ensures n.frames[i].state == Occupied && n.frames[i].key == d.pages[i]
    {
      assert FrameShows(n.frames[i], trace, |trace|, d, i);
    }
    forall k
      ensures k in n.table <==> k in d.pages
    {
      ShownPages(n, trace, |trace|, d, k);
    }
  }
}
