/** The UPDATE that moves a row, under the policies of the server: for NoCache and LRU the outcome can be
    read off the pool before the update. */
module HeldPolicies {
  import opened Sets
  import opened PoolModel
  import opened EvictionPolicies
  import opened BufferModel
  import opened BufferTheorems
  import opened AccessRuns
  import opened Transparency
  import opened HeldUpdate

  /** The strategy of a pool that asks its own policy. */
  ghost predicate Follows(pick: Strategy) {
    && Sound(pick)
    && forall m: Manager, k: Key, ch: Choice {:trigger EvictOutcome(m.policy, m.frames, ch), pick(m, k)} ::
         EvictOutcome(m.policy, m.frames, ch) ==> pick(m, k) == ch
  }

  ghost function PolicyChoiceOf(m: Manager): (ch: Choice)
    ensures Legal(m.frames, ch)
    ensures forall c: Choice :: EvictOutcome(m.policy, m.frames, c) ==> ch == c
  {
    if c: Choice :| EvictOutcome(m.policy, m.frames, c) then
      PoliciesAreLegal(m.policy, m.frames, c);
      PolicyDecides(m.policy, m.frames, c);
      c
    else AnyChoice(m)
  }

  lemma PolicyDecides(p: Policy, fs: seq<Frame>, a: Choice)
    requires EvictOutcome(p, fs, a)
    ensures forall b :: EvictOutcome(p, fs, b) ==> a == b
  {
    forall b | EvictOutcome(p, fs, b)
      ensures a == b
    {
      EvictIsDeterministic(p, fs, a, b);
    }
  }

  /** There is one, whatever the policy. */
  ghost function PolicyPick(): (pick: Strategy)
    ensures Follows(pick)
  {
    (m: Manager, k: Key) => PolicyChoiceOf(m)
  }

  /** While h is held in frame f, every other frame may be evicted once none is free. */
  lemma OthersOccupied(m: Manager, h: Key, f: int, k: Key, i: int)
    requires StillHeld(m, h, f) && Asked(m, k) && 0 <= i < |m.frames| && i != f
    ensures Evictable(m.frames, i) && m.frames[i].key in m.table && m.frames[i].key != h
  {
    FrameInDisk(m, multiset{h}, i);
  }

  // ---------------------------------------------------------------- NoCache

  lemma NocachePicks(m: Manager, h: Key, f: int, k: Key, pick: Strategy)
    requires Follows(pick) && m.policy == NoCache && StillHeld(m, h, f) && Asked(m, k) && f != 0
    ensures pick(m, k) == Choice(0, m.frames, NoCache)
  {
    OthersOccupied(m, h, f, k, 0);
    assert EvictOutcome(m.policy, m.frames, Choice(0, m.frames, NoCache));
  }

  lemma NocacheTakesFirst(pick: Strategy)
    requires Follows(pick)
    ensures Takes(pick, 0, (p: Policy) => p == NoCache)
  {
    forall m: Manager, k: Key | m.policy == NoCache && Evictable(m.frames, 0)
      ensures pick(m, k).victim == 0
    {
      assert EvictOutcome(m.policy, m.frames, Choice(0, m.frames, NoCache));
    }
  }

  lemma FetchPolicyKept(m: Manager, k: Key, ch: Choice)
    requires Mapped(m) && Legal(m.frames, ch) && !m.policy.Opt? && (Asked(m, k) ==> ch.policy == m.policy)
    ensures FetchVia(m, k, ch).0.policy == m.policy
  {
  }

  lemma TryPolicyKept(m: Manager, k: Key, e: Edits)
    requires Mapped(m) && k in m.table
    ensures Try(m, k, e).0.policy == m.policy
  {
  }

  lemma VisitPolicyKept(m: Manager, k: Key, ch: Choice, e: Edits)
    requires Mapped(m) && Legal(m.frames, ch) && !m.policy.Opt? && (Asked(m, k) ==> ch.policy == m.policy)
    ensures Visit(m, k, ch, e).0.policy == m.policy
  {
    hide FetchVia, Try, Asked, Legal;
    FetchKeepsMapped(m, k, ch);
    FetchPolicyKept(m, k, ch);
    if FetchVia(m, k, ch).1 >= 0 {
      TryPolicyKept(FetchVia(m, k, ch).0, k, e);
    }
  }

  /** NoCache never gives up a frame other than the first. */
  lemma {:induction false} NocacheKeeps(m: Manager, h: Key, f: int, p: int, n: int, e: Edits, pick: Strategy)
    requires StillHeld(m, h, f) && Follows(pick) && Scene(View(m), h, p, n, e)
    requires m.policy == NoCache && f != 0
    ensures FlatPlace(View(m), h.table, p, n, e).2 >= 0 ==>
              var (x, q, slot) := Place(m, h.table, p, n, e, pick); slot >= 0 && StillHeld(x, h, f)
    decreases n - p
  {
    hide Books, Mapped, Legal, Asked, View, Visit, FlatVisit, Place, FlatPlace, EvictOutcome;
    var k := Key(h.table, p);
    var y := if p < n then m else m.(disk := m.disk[k := e.blank]);
    if p >= n {
      NewPageHeld(m, h, f, k, e.blank);
      PlaceEnd(m, h.table, n, e, pick);
    } else {
      FlatPlaceStep(View(m), h, p, n, e);
      PlaceStep(m, h.table, p, n, e, pick);
    }
    if Asked(y, k) {
      NocachePicks(y, h, f, k, pick);
    }
    var (x, slot) := Visit(y, k, pick(y, k), e);
    VisitOutcome(y, h, f, k, pick(y, k), e);
    VisitHeld(y, h, f, k, pick(y, k), e);
    VisitPolicyKept(y, k, pick(y, k), e);
    if p < n && slot < 0 {
      NocacheKeeps(x, h, f, p + 1, n, e, pick);
    } else if p >= n {
      FlatPlaceEnd(View(m), h, n, e);
    }
  }

  lemma FlatPlaceEnd(v: map<Key, PageData>, h: Key, n: int, e: Edits)
    requires Scene(v, h, n, n, e)
    ensures var k := Key(h.table, n);
            FlatPlace(v, h.table, n, n, e).2 == FlatVisit(v[k := e.blank], k, e).1
  {
  }

  /** The row fits nowhere, or the pool has two frames and page h is PINNED, or not in the first frame, or
      reached before a frame has to be taken. */
  ghost predicate NocacheSafe(m: Manager, h: Key, n: int, e: Edits)
    requires Mapped(m) && h in m.table && Scene(View(m), h, 1, n, e)
  {
    SafeToMove(m, h, n, e) || (|m.frames| >= 2 && m.table[h] != 0)
  }

  /** When the update is right under NoCache. */
  lemma NocacheMoveIff(m: Manager, h: Key, n: int, e: Edits, pick: Strategy)
    requires Coherent(m, Holding(h, false)) && Scene(View(m), h, 1, n, e) && Links(e, View(m)[h])
    requires Follows(pick) && m.policy == NoCache
    ensures Right(m, h, n, e, pick) <==> NocacheSafe(m, h, n, e)
  {
    hide Coherent, Books, Mapped, View, Place, FlatPlace, Right, Links, Takes;
    HeldNow(m, h);
    var f, flat := m.table[h], FlatPlace(View(m), h.table, 1, n, e);
    MoveRightIff(m, h, n, e, pick);
    if |m.frames| == 1 {
      OneFrameFails(m, h, f, n, e, pick);
    } else if flat.2 >= 0 {
      if Safe(m, h, f, 1, flat.1) {
        SafeSucceeds(m, h, f, n, e, pick);
      } else if f != 0 {
        NocacheKeeps(m, h, f, 1, n, e, pick);
      } else {
        NotPinnedOccupied(m, h, f);
        NocacheTakesFirst(pick);
        UnsafeFails(m, h, f, n, e, pick, (p: Policy) => p == NoCache);
      }
    }
  }

  // ---------------------------------------------------------------- LRU

  lemma {:induction false} LeastExists(fs: seq<Frame>) returns (v: int)
    ensures LeastRecent(fs, v)
  {
    if fs == [] {
      v := -1;
    } else {
      var n := |fs| - 1;
      v := LeastExists(fs[..n]);
      assert forall i :: 0 <= i < n ==> (Evictable(fs[..n], i) <==> Evictable(fs, i));
      if Evictable(fs, n) && (v == -1 || fs[n].lastAccess < fs[v].lastAccess) {
        v := n;
      }
    }
  }

  /** n is m after a successful fetch of page k into frame r and its release: only r has a new stamp. */
  ghost predicate Touched(m: Manager, k: Key, r: int, n: Manager) {
    && 0 <= r < |m.frames| == |n.frames|
    && n.clock == m.clock + 1 && n.frames[r].lastAccess == n.clock && n.frames[r].key == k && n.frames[r].state != Free
    && forall i :: 0 <= i < |m.frames| && i != r ==>
         && n.frames[i].lastAccess == m.frames[i].lastAccess && n.frames[i].key == m.frames[i].key
         && (n.frames[i].state == Free <==> m.frames[i].state == Free)
  }

  lemma FetchTouches(m: Manager, k: Key, ch: Choice)
    requires Mapped(m) && Legal(m.frames, ch) && FetchVia(m, k, ch).1 >= 0
    ensures var (n, r) := FetchVia(m, k, ch);
            && Touched(m, k, r, n)
            && n.table == (if Asked(m, k) then m.table - {m.frames[ch.victim].key} else m.table)[k := r]
            && (Asked(m, k) ==> r == ch.victim)
  {
    if Asked(m, k) {
      forall i | 0 <= i < |m.frames|
        ensures ch.frames[i] == m.frames[i].(refBit := ch.frames[i].refBit)
      {
      }
    }
  }

  lemma TryTouches(m: Manager, x: Manager, k: Key, r: int, e: Edits)
    requires Touched(m, k, r, x) && Mapped(x) && k in x.table && x.table[k] == r
    ensures Touched(m, k, r, Try(x, k, e).0)
  {
  }

  lemma VisitTouches(m: Manager, k: Key, ch: Choice, e: Edits)
    requires Mapped(m) && Legal(m.frames, ch) && FetchVia(m, k, ch).1 >= 0
    ensures var (n, r) := (Visit(m, k, ch, e).0, FetchVia(m, k, ch).1);
            && Touched(m, k, r, n)
            && n.table == (if Asked(m, k) then m.table - {m.frames[ch.victim].key} else m.table)[k := r]
            && (Asked(m, k) ==> r == ch.victim)
  {
    hide FetchVia, Try, Touched, Asked, Legal;
    FetchTouches(m, k, ch);
    FetchKeepsMapped(m, k, ch);
    TryTouches(m, FetchVia(m, k, ch).0, k, FetchVia(m, k, ch).1, e);
  }

  /** Pages 1 to p - 1 of the table. */
  ghost function Before(name: TableName, p: int): (s: set<Key>)
    ensures forall k :: k in s <==> k.table == name && 1 <= k.page < p
    ensures p >= 1 ==> |s| == p - 1
  {
    if p <= 1 then {} else Before(name, p - 1) + {Key(name, p - 1)}
  }

  /** Pages 1 to p - 1 have been visited since h was: they are cached and newer than h, and all other
      pages are older. */
  ghost predicate Since(m: Manager, h: Key, f: int, p: int) {
    && StillHeld(m, h, f) && m.policy == Lru && 1 <= p <= h.page
    && (forall i :: 0 <= i < |m.frames| ==> m.frames[i].lastAccess <= m.clock)
    && (forall k :: k in Before(h.table, p) ==> k in m.table)
    && (forall i :: 0 <= i < |m.frames| && i != f && m.frames[i].state != Free ==>
          if m.frames[i].key in Before(h.table, p) then m.frames[i].lastAccess > m.frames[f].lastAccess
          else m.frames[i].lastAccess < m.frames[f].lastAccess)
  }

  /** With p frames there is no older page left when page p is asked for. */
  lemma OlderLeft(m: Manager, h: Key, f: int, p: int, k: Key)
    requires Since(m, h, f, p) && Asked(m, k)
    ensures p <= |m.frames|
    ensures p < |m.frames| ==> exists i :: Evictable(m.frames, i) && m.frames[i].lastAccess < m.frames[f].lastAccess
    ensures p == |m.frames| ==>
              forall i :: 0 <= i < |m.frames| && i != f ==> m.frames[i].lastAccess > m.frames[f].lastAccess
  {
    FreeFrameLeft(m);
    var s := Before(h.table, p) + {h};
    SubsetSize(s, m.table.Keys);
    if p < |m.frames| {
      SubsetSize(m.table.Keys - s, m.table.Keys);
      assert |m.table.Keys - s| == |m.table.Keys| - |s|;
      var other := Member(m.table.Keys - s);
      OthersOccupied(m, h, f, k, m.table[other]);
    } else {
      forall i | 0 <= i < |m.frames| && i != f
        ensures m.frames[i].lastAccess > m.frames[f].lastAccess
      {
        OthersOccupied(m, h, f, k, i);
        assert m.frames[i].key in s;
      }
    }
  }

  /** The victim of LRU: an older page while there is one, then h. */
  lemma LruPicks(m: Manager, h: Key, f: int, p: int, k: Key, pick: Strategy)
    requires Since(m, h, f, p) && Asked(m, k) && Follows(pick)
    ensures p <= |m.frames| && pick(m, k).policy == Lru && pick(m, k).frames == m.frames
    ensures p < |m.frames| ==>
              var v := pick(m, k).victim; Evictable(m.frames, v) && m.frames[v].lastAccess < m.frames[f].lastAccess
    ensures p == |m.frames| && m.frames[f].state == Occupied ==> pick(m, k).victim == f
  {
    OlderLeft(m, h, f, p, k);
    var v := LeastExists(m.frames);
    assert EvictOutcome(m.policy, m.frames, Choice(v, m.frames, Lru));
    if m.frames[f].state == Occupied {
      assert Evictable(m.frames, f);
    }
  }

  /** From m to x page p was fetched into frame r, in the place of an older page if v >= 0. */
  ghost predicate Passed(m: Manager, h: Key, f: int, p: int, r: int, x: Manager, v: int) {
    && Since(m, h, f, p) && p < h.page && Touched(m, Key(h.table, p), r, x)
    && StillHeld(x, h, f) && x.policy == Lru
    && if v >= 0 then v < |m.frames| && m.frames[v].lastAccess < m.frames[f].lastAccess
                      && r == v && x.table == (m.table - {m.frames[v].key})[Key(h.table, p) := r]
       else x.table == m.table[Key(h.table, p) := r]
  }

  lemma PassedCached(m: Manager, h: Key, f: int, p: int, r: int, x: Manager, v: int, k: Key)
    requires Passed(m, h, f, p, r, x, v) && k in Before(h.table, p + 1)
    ensures k in x.table
  {
    hide Books;
    if k != Key(h.table, p) {
      assert k in Before(h.table, p);
      assert m.frames[m.table[k]].lastAccess > m.frames[f].lastAccess;
    }
  }

  lemma PassedStamps(m: Manager, h: Key, f: int, p: int, r: int, x: Manager, v: int, i: int)
    requires Passed(m, h, f, p, r, x, v) && 0 <= i < |x.frames|
    ensures x.frames[i].lastAccess <= x.clock
    ensures i != f && x.frames[i].state != Free ==>
              if x.frames[i].key in Before(h.table, p + 1) then x.frames[i].lastAccess > x.frames[f].lastAccess
              else x.frames[i].lastAccess < x.frames[f].lastAccess
  {
    hide Books;
    assert x.frames[f].key == h && f != r;
    if i != r && i != f && x.frames[i].state != Free {
      assert x.table[x.frames[i].key] == i;
      assert x.frames[i].key in Before(h.table, p + 1) <==> m.frames[i].key in Before(h.table, p);
    }
  }

  lemma SinceTouched(m: Manager, h: Key, f: int, p: int, r: int, x: Manager, v: int)
    requires Passed(m, h, f, p, r, x, v)
    ensures Since(x, h, f, p + 1)
  {
    hide Books, Mapped, Touched;
    forall k | k in Before(h.table, p + 1)
      ensures k in x.table
    {
      PassedCached(m, h, f, p, r, x, v, k);
    }
    forall i | 0 <= i < |x.frames|
      ensures x.frames[i].lastAccess <= x.clock
      ensures i != f && x.frames[i].state != Free ==>
                if x.frames[i].key in Before(h.table, p + 1) then x.frames[i].lastAccess > x.frames[f].lastAccess
                else x.frames[i].lastAccess < x.frames[f].lastAccess
    {
      PassedStamps(m, h, f, p, r, x, v, i);
    }
  }

  /** A visit before h that does not take h away. */
  lemma SinceVisit(m: Manager, h: Key, f: int, p: int, e: Edits, pick: Strategy)
    requires Since(m, h, f, p) && Follows(pick) && p < h.page && Key(h.table, p) in View(m) && h in View(m)
    requires e.put(View(m)[h]).1 < 0 && FetchVia(m, Key(h.table, p), pick(m, Key(h.table, p))).1 >= 0
    requires Asked(m, Key(h.table, p)) ==> p < |m.frames|
    ensures Since(Visit(m, Key(h.table, p), pick(m, Key(h.table, p)), e).0, h, f, p + 1)
  {
    hide Books, FetchVia, Visit, View, Legal, Touched, Asked, EvictOutcome;
    var k := Key(h.table, p);
    var ch := pick(m, k);
    VisitHeld(m, h, f, k, ch, e);
    VisitTouches(m, k, ch, e);
    if Asked(m, k) {
      LruPicks(m, h, f, p, k, pick);
      VisitPolicyKept(m, k, ch, e);
      SinceTouched(m, h, f, p, FetchVia(m, k, ch).1, Visit(m, k, ch, e).0, ch.victim);
    } else {
      VisitPolicyKept(m, k, ch, e);
      SinceTouched(m, h, f, p, FetchVia(m, k, ch).1, Visit(m, k, ch, e).0, -1);
    }
  }

  lemma SinceHeld(m: Manager, h: Key, f: int, p: int)
    requires Since(m, h, f, p)
    ensures StillHeld(m, h, f) && Mapped(m) && 1 <= p <= h.page && 0 <= f < |m.frames| && p <= |m.frames|
    ensures p == |m.frames| && p < h.page ==> Asked(m, Key(h.table, p))
  {
    hide Books;
    FreeFrameLeft(m);
    SubsetSize(Before(h.table, p) + {h}, m.table.Keys);
    if p == |m.frames| && p < h.page {
      assert Key(h.table, p) !in Before(h.table, p) + {h};
    }
  }

  lemma SafeAtLast(m: Manager, h: Key, f: int, q: int)
    requires Mapped(m) && 0 <= f < |m.frames|
    ensures Safe(m, h, f, h.page, q)
  {
    FreeFrameLeft(m);
  }

  lemma FetchSucceeds(m: Manager, h: Key, k: Key, ch: Choice)
    requires Books(m, multiset{h}) && Legal(m.frames, ch) && k in View(m) && (Asked(m, k) ==> ch.victim >= 0)
    ensures FetchVia(m, k, ch).1 >= 0
  {
    FetchBooks(m, multiset{h}, k, ch);
  }

  /** One visit before h: with fewer than p other pages in the pool, h has to go. */
  lemma LruVisit(m: Manager, h: Key, f: int, p: int, e: Edits, pick: Strategy)
    requires Since(m, h, f, p) && Follows(pick) && p < h.page && Key(h.table, p) in View(m) && h in View(m)
    requires e.put(View(m)[h]).1 < 0 && |m.frames| >= 2
    ensures p <= |m.frames|
    ensures p < |m.frames| ==>
              var (x, slot) := Visit(m, Key(h.table, p), pick(m, Key(h.table, p)), e);
              && (View(x), slot) == FlatVisit(View(m), Key(h.table, p), e)
              && Since(x, h, f, p + 1) && StillHeld(x, h, f) && f < |m.frames| && x.frames[f].state == m.frames[f].state
    ensures p == |m.frames| && 0 <= f < |m.frames| && m.frames[f].state == Occupied ==>
              Lost(Visit(m, Key(h.table, p), pick(m, Key(h.table, p)), e).0, h)
  {
    hide Books, Mapped, Legal, View, Visit, FlatVisit, EvictOutcome, FetchVia, Asked;
    var k := Key(h.table, p);
    SinceHeld(m, h, f, p);
    if Asked(m, k) {
      LruPicks(m, h, f, p, k, pick);
    }
    VisitHeld(m, h, f, k, pick(m, k), e);
    if p < |m.frames| {
      FetchSucceeds(m, h, k, pick(m, k));
      SinceVisit(m, h, f, p, e, pick);
      VisitKeepsFrame(m, h, k, pick(m, k), e);
    }
  }

  /** LRU takes h only after as many other pages as the pool has frames. */
  lemma {:induction false} LruKeeps(m: Manager, h: Key, f: int, p: int, n: int, e: Edits, pick: Strategy)
    requires Since(m, h, f, p) && Follows(pick) && Scene(View(m), h, p, n, e) && |m.frames| >= 2
    requires Reach(h, FlatPlace(View(m), h.table, p, n, e).1) <= |m.frames|
    ensures StillHeld(Place(m, h.table, p, n, e, pick).0, h, f)
    decreases n - p
  {
    hide Books, Mapped, Legal, View, Visit, FlatVisit, Place, FlatPlace, EvictOutcome, Since;
    SinceHeld(m, h, f, p);
    var k, q := Key(h.table, p), FlatPlace(View(m), h.table, p, n, e).1;
    if p == h.page {
      SafeAtLast(m, h, f, q);
      SafePlace(m, h, f, p, n, e, pick);
    } else {
      FlatPlaceStep(View(m), h, p, n, e);
      PlaceStep(m, h.table, p, n, e, pick);
      LruVisit(m, h, f, p, e, pick);
      FlatVisitMeaning(View(m), k, e);
      var (x, slot) := Visit(m, k, pick(m, k), e);
      if slot < 0 {
        LruKeeps(x, h, f, p + 1, n, e, pick);
      }
    }
  }

  lemma {:induction false} LruLoses(m: Manager, h: Key, f: int, p: int, n: int, e: Edits, pick: Strategy)
    requires Since(m, h, f, p) && Follows(pick) && Scene(View(m), h, p, n, e) && |m.frames| >= 2
    requires 0 <= f < |m.frames| && m.frames[f].state == Occupied
    requires Reach(h, FlatPlace(View(m), h.table, p, n, e).1) > |m.frames|
    ensures Lost(Place(m, h.table, p, n, e, pick).0, h)
    decreases n - p
  {
    hide Books, Mapped, Legal, View, Visit, FlatVisit, Place, FlatPlace, EvictOutcome, Since;
    SinceHeld(m, h, f, p);
    var k := Key(h.table, p);
    FlatPlaceStep(View(m), h, p, n, e);
    PlaceStep(m, h.table, p, n, e, pick);
    LruVisit(m, h, f, p, e, pick);
    FlatVisitMeaning(View(m), k, e);
    var (x, slot) := Visit(m, k, pick(m, k), e);
    if p < |m.frames| {
      LruLoses(x, h, f, p + 1, n, e, pick);
    } else if slot < 0 {
      LastVisit(m, h, f, k, e, pick);
      PlaceLost(x, h, p + 1, n, e, pick);
    }
  }

  lemma LastVisit(m: Manager, h: Key, f: int, k: Key, e: Edits, pick: Strategy)
    requires StillHeld(m, h, f) && Sound(pick) && |m.frames| >= 2 && k in View(m) && h in View(m)
    requires e.put(View(m)[h]).1 < 0
    ensures View(Visit(m, k, pick(m, k), e).0) == View(m) || Visit(m, k, pick(m, k), e).1 >= 0
  {
    VisitHeld(m, h, f, k, pick(m, k), e);
  }

  /** The row fits nowhere, or the pool has two frames and page h is PINNED or among the first pages, as
      many as the pool has frames, that the insert visits. */
  ghost predicate LruSafe(m: Manager, h: Key, n: int, e: Edits)
    requires Mapped(m) && h in m.table && Scene(View(m), h, 1, n, e)
  {
    var flat := FlatPlace(View(m), h.table, 1, n, e);
    || flat.2 < 0
    || (|m.frames| >= 2 && (m.frames[m.table[h]].state == Pinned || Reach(h, flat.1) <= |m.frames|))
  }

  /** When the update is right under LRU, with page h just fetched. */
  lemma LruMoveIff(m: Manager, h: Key, n: int, e: Edits, pick: Strategy)
    requires Coherent(m, Holding(h, false)) && Scene(View(m), h, 1, n, e) && Links(e, View(m)[h])
    requires Follows(pick) && m.policy == Lru && JustUsed(m, m.table[h])
    ensures Right(m, h, n, e, pick) <==> LruSafe(m, h, n, e)
  {
    hide Coherent, Books, Mapped, View, Place, FlatPlace, Right, Links;
    HeldNow(m, h);
    var f, flat := m.table[h], FlatPlace(View(m), h.table, 1, n, e);
    MoveRightIff(m, h, n, e, pick);
    PlaceHeld(m, h, f, 1, n, e, pick);
    if |m.frames| == 1 {
      OneFrameFails(m, h, f, n, e, pick);
    } else if flat.2 >= 0 {
      assert Before(h.table, 1) == {};
      if m.frames[f].state == Pinned {
        SafeSucceeds(m, h, f, n, e, pick);
      } else if Reach(h, flat.1) <= |m.frames| {
        LruKeeps(m, h, f, 1, n, e, pick);
      } else {
        NotPinnedOccupied(m, h, f);
        LruLoses(m, h, f, 1, n, e, pick);
        LostOrHeld(Place(m, h.table, 1, n, e, pick).0, h, f);
      }
    }
  }
}
