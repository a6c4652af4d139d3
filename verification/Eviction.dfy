/** The replacement policies of `storage-engine/eviction_policy.c`.  What each `evict` callback must
    choose is stated declaratively; the scan loops are proved to choose exactly that. */
module EvictionPolicies {
  import opened PoolModel

  datatype Policy =
    | NoCache
    | Clock(hand: nat, numFrames: nat)
    | Lru
    | Opt(trace: seq<Key>, pos: nat)

  /** What one call of `evict` leaves behind: the victim (or -1), the frames (Clock clears reference
      bits) and the policy's private state. */
  datatype Choice = Choice(victim: int, frames: seq<Frame>, policy: Policy)

  predicate Evictable(fs: seq<Frame>, i: int) {
    0 <= i < |fs| && fs[i].state == Occupied
  }

  predicate NoneEvictable(fs: seq<Frame>) {
    forall i :: 0 <= i < |fs| ==> !Evictable(fs, i)
  }

  // ---------------------------------------------------------------- what each policy chooses

  /** NoCache: the first OCCUPIED frame. */
  predicate FirstOccupied(fs: seq<Frame>, v: int) {
    if v == -1 then NoneEvictable(fs)
    else Evictable(fs, v) && forall i :: 0 <= i < v ==> !Evictable(fs, i)
  }

  /** LRU: an OCCUPIED frame with the smallest last_access, the first such frame on a tie. */
  predicate LeastRecent(fs: seq<Frame>, v: int) {
    if v == -1 then NoneEvictable(fs)
    else
      && Evictable(fs, v)
      && forall i :: 0 <= i < |fs| && Evictable(fs, i) ==>
           if i < v then fs[v].lastAccess < fs[i].lastAccess else fs[v].lastAccess <= fs[i].lastAccess
  }

  /** The index of the next access to k at or after pos, INT_MAX when there is none. */
  function NextUse(trace: seq<Key>, pos: nat, k: Key): (t: int)
    ensures t == INT_MAX || pos <= t < |trace|
    decreases |trace| - pos
  {
    if pos >= |trace| then INT_MAX
    else if trace[pos] == k then pos
    else NextUse(trace, pos + 1, k)
  }

  /** OPT: an OCCUPIED frame whose page is used again last, the first such frame on a tie. */
  predicate FarthestUse(fs: seq<Frame>, trace: seq<Key>, pos: nat, v: int) {
    if v == -1 then NoneEvictable(fs)
    else
      && Evictable(fs, v)
      && forall i :: 0 <= i < |fs| && Evictable(fs, i) ==>
           if i < v then NextUse(trace, pos, fs[v].key) > NextUse(trace, pos, fs[i].key)
           else NextUse(trace, pos, fs[v].key) >= NextUse(trace, pos, fs[i].key)
  }

  /** The frame d places after h in circular order. */
  function Around(h: nat, d: nat, n: nat): (i: nat)
    requires h < n && d < n
    ensures i < n
  {
    if h + d < n then h + d else h + d - n
  }

  /** How far i is ahead of h in circular order. */
  function Distance(h: nat, i: nat, n: nat): (d: nat)
    requires h < n && i < n
    ensures d < n && Around(h, d, n) == i
  {
    if i >= h then i - h else i - h + n
  }

  predicate Unreferenced(fs: seq<Frame>, i: int) {
    Evictable(fs, i) && !fs[i].refBit
  }

  /** The reference bit of frame i has been taken away if it is OCCUPIED. */
  function Cleared(f: Frame): Frame {
    if f.state == Occupied then f.(refBit := false) else f
  }

  /** Clock: the victim is the first OCCUPIED frame without reference bit in circular order from the
      hand, or else the first OCCUPIED frame at all; exactly the OCCUPIED frames passed on the way
      lose their bit, and the hand stops just after the victim. */
  predicate ClockOutcome(fs: seq<Frame>, hand: nat, v: int, fs': seq<Frame>, hand': nat) {
    && |fs'| == |fs|
    && hand < |fs|
    && if v == -1 then NoneEvictable(fs) && fs' == fs && hand' == hand
       else exists d :: 0 <= d < |fs| && ClockStopsAt(fs, hand, d, v, fs', hand')
  }

  predicate ClockStopsAt(fs: seq<Frame>, hand: nat, d: int, v: int, fs': seq<Frame>, hand': nat) {
    && |fs'| == |fs|
    && hand < |fs| && 0 <= d < |fs|
    && v == Around(hand, d, |fs|)
    && hand' == (v + 1) % |fs|
    && if Unreferenced(fs, v) then
         && (forall e :: 0 <= e < d ==> !Unreferenced(fs, Around(hand, e, |fs|)))
         && (forall e :: 0 <= e < |fs| ==>
               var i := Around(hand, e, |fs|);
               fs'[i] == if e < d then Cleared(fs[i]) else fs[i])
       else
         && Evictable(fs, v)
         && (forall i :: 0 <= i < |fs| ==> !Unreferenced(fs, i))
         && (forall e :: 0 <= e < d ==> !Evictable(fs, Around(hand, e, |fs|)))
         && (forall i :: 0 <= i < |fs| ==> fs'[i] == Cleared(fs[i]))
  }

  /** The contract of the `evict` callback. */
  predicate EvictOutcome(p: Policy, fs: seq<Frame>, ch: Choice) {
    match p
    case NoCache => FirstOccupied(fs, ch.victim) && ch.frames == fs && ch.policy == p
    case Lru => LeastRecent(fs, ch.victim) && ch.frames == fs && ch.policy == p
    case Opt(trace, pos) => FarthestUse(fs, trace, pos, ch.victim) && ch.frames == fs && ch.policy == p
    case Clock(hand, n) =>
      && n == |fs|
      && ch.policy.Clock? && ch.policy.numFrames == n
      && ClockOutcome(fs, hand, ch.victim, ch.frames, ch.policy.hand)
  }

  /** The `advance` callback: only OPT moves along its trace. */
  function Advance(p: Policy): Policy {
    if p.Opt? && p.pos < |p.trace| then p.(pos := p.pos + 1) else p
  }

  // ---------------------------------------------------------------- consequences for any policy

  predicate SameButRefBits(fs: seq<Frame>, gs: seq<Frame>) {
    && |fs| == |gs|
    && forall i :: 0 <= i < |fs| ==> gs[i] == fs[i].(refBit := gs[i].refBit)
  }

  /** A choice that any replacement strategy may make: an OCCUPIED victim whenever there is one, and
      no change to the frames other than reference bits. */
  predicate Legal(fs: seq<Frame>, ch: Choice) {
    && SameButRefBits(fs, ch.frames)
    && (if ch.victim == -1 then NoneEvictable(fs) else Evictable(fs, ch.victim))
  }

  lemma PoliciesAreLegal(p: Policy, fs: seq<Frame>, ch: Choice)
    requires EvictOutcome(p, fs, ch)
    ensures Legal(fs, ch)
  {
    if p.Clock? && ch.victim != -1 {
      var d :| 0 <= d < |fs| && ClockStopsAt(fs, p.hand, d, ch.victim, ch.frames, ch.policy.hand);
      forall i | 0 <= i < |fs|
        ensures ch.frames[i] == fs[i].(refBit := ch.frames[i].refBit)
      {
        assert Around(p.hand, Distance(p.hand, i, |fs|), |fs|) == i;
      }
    }
  }

  /** Every policy is deterministic: the contract leaves no freedom. */
  lemma EvictIsDeterministic(p: Policy, fs: seq<Frame>, a: Choice, b: Choice)
    requires EvictOutcome(p, fs, a) && EvictOutcome(p, fs, b)
    ensures a == b
  {
    if p.Clock? {
      if a.victim != -1 && b.victim != -1 {
        var d :| 0 <= d < |fs| && ClockStopsAt(fs, p.hand, d, a.victim, a.frames, a.policy.hand);
        var e :| 0 <= e < |fs| && ClockStopsAt(fs, p.hand, e, b.victim, b.frames, b.policy.hand);
        ClockStopsOnce(fs, p.hand, d, a.victim, e, b.victim, a.frames, b.frames, a.policy.hand, b.policy.hand);
      }
    }
  }

  lemma ClockStopsOnce(fs: seq<Frame>, hand: nat, d: int, v: int, e: int, w: int,
                       gs: seq<Frame>, hs: seq<Frame>, h: nat, k: nat)
    requires ClockStopsAt(fs, hand, d, v, gs, h) && ClockStopsAt(fs, hand, e, w, hs, k)
    ensures v == w && gs == hs && h == k
  {
    assert Around(hand, d, |fs|) == v && Around(hand, e, |fs|) == w;
    assert d == e;
    forall i | 0 <= i < |fs|
      ensures gs[i] == hs[i]
    {
      assert Around(hand, Distance(hand, i, |fs|), |fs|) == i;
    }
    assert gs == hs;
  }

  // ---------------------------------------------------------------- the scan loops

  /** nocache_evict */
  method NocacheEvict(frames: array<Frame>) returns (victim: int)
    ensures FirstOccupied(frames[..], victim)
  {
    for i := 0 to frames.Length
      invariant forall j :: 0 <= j < i ==> !Evictable(frames[..], j)
    {
      if frames[i].state == Occupied {
        return i;
      }
    }
    return -1;
  }

  /** lru_evict */
  method LruEvict(frames: array<Frame>) returns (victim: int)
    requires forall i :: 0 <= i < frames.Length ==> frames[i].lastAccess < LLONG_MAX
    ensures LeastRecent(frames[..], victim)
  {
    victim := -1;
    var oldest := LLONG_MAX;
    for i := 0 to frames.Length
      invariant -1 <= victim < i
      invariant victim == -1 ==> oldest == LLONG_MAX && forall j :: 0 <= j < i ==> !Evictable(frames[..], j)
      invariant victim >= 0 ==> Evictable(frames[..], victim) && oldest == frames[victim].lastAccess
      invariant victim >= 0 ==> forall j :: 0 <= j < i && Evictable(frames[..], j) ==>
                  if j < victim then oldest < frames[j].lastAccess else oldest <= frames[j].lastAccess
    {
      if frames[i].state == Occupied {
        if frames[i].lastAccess < oldest {
          oldest := frames[i].lastAccess;
          victim := i;
        }
      }
    }
  }

  /** The inner loop of opt_evict. */
  method FindNextUse(trace: seq<Key>, pos: nat, k: Key) returns (nextUse: int)
    ensures nextUse == NextUse(trace, pos, k)
  {
    var t := pos;
    while t < |trace|
      invariant pos <= t && (t <= |trace| || t == pos)
      invariant NextUse(trace, t, k) == NextUse(trace, pos, k)
    {
      if trace[t] == k {
        return t;
      }
      t := t + 1;
    }
    return INT_MAX;
  }

  /** opt_evict */
  method OptEvict(frames: array<Frame>, trace: seq<Key>, pos: nat) returns (victim: int)
    ensures FarthestUse(frames[..], trace, pos, victim)
  {
    victim := -1;
    var farthest := -1;
    for i := 0 to frames.Length
      invariant -1 <= victim < i
      invariant victim == -1 ==> farthest == -1 && forall j :: 0 <= j < i ==> !Evictable(frames[..], j)
      invariant victim >= 0 ==> Evictable(frames[..], victim) && farthest == NextUse(trace, pos, frames[victim].key)
      invariant victim >= 0 ==> forall j :: 0 <= j < i && Evictable(frames[..], j) ==>
                  if j < victim then farthest > NextUse(trace, pos, frames[j].key)
                  else farthest >= NextUse(trace, pos, frames[j].key)
    {
      if frames[i].state == Occupied {
        var nextUse := FindNextUse(trace, pos, frames[i].key);
        if nextUse > farthest {
          farthest := nextUse;
          victim := i;
        }
      }
    }
  }

  lemma ModIncrement(i: nat, n: nat)
    requires i < n
    ensures i % n == i
    ensures (i + 1) % n == if i + 1 == n then 0 else i + 1
  {
  }

  lemma FirstSweepStop(fs: seq<Frame>, gs: seq<Frame>, hand: nat, d: nat, hand': nat)
    requires |fs| == |gs| && hand < |fs| && d < |fs| && hand' == (Around(hand, d, |fs|) + 1) % |fs|
    requires Unreferenced(fs, Around(hand, d, |fs|))
    requires forall e {:trigger Around(hand, e, |fs|)} :: 0 <= e < |fs| ==>
               gs[Around(hand, e, |fs|)] == if e < d then Cleared(fs[Around(hand, e, |fs|)]) else fs[Around(hand, e, |fs|)]
    requires forall e {:trigger Around(hand, e, |fs|)} :: 0 <= e < d ==> !Unreferenced(fs, Around(hand, e, |fs|))
    ensures ClockOutcome(fs, hand, Around(hand, d, |fs|), gs, hand')
  {
    assert ClockStopsAt(fs, hand, d, Around(hand, d, |fs|), gs, hand');
  }

  lemma SecondSweepStop(fs: seq<Frame>, gs: seq<Frame>, hand: nat, d: nat, hand': nat)
    requires |fs| == |gs| && hand < |fs| && d < |fs| && hand' == (Around(hand, d, |fs|) + 1) % |fs|
    requires Evictable(fs, Around(hand, d, |fs|))
    requires forall e {:trigger Around(hand, e, |fs|)} :: 0 <= e < |fs| ==>
               gs[Around(hand, e, |fs|)] == Cleared(fs[Around(hand, e, |fs|)])
    requires forall e {:trigger Around(hand, e, |fs|)} :: 0 <= e < |fs| ==> !Unreferenced(fs, Around(hand, e, |fs|))
    requires forall e {:trigger Around(hand, e, |fs|)} :: 0 <= e < d ==> !Evictable(fs, Around(hand, e, |fs|))
    ensures ClockOutcome(fs, hand, Around(hand, d, |fs|), gs, hand')
  {
    forall i | 0 <= i < |fs|
      ensures !Unreferenced(fs, i) && gs[i] == Cleared(fs[i])
    {
      assert Around(hand, Distance(hand, i, |fs|), |fs|) == i;
    }
    assert ClockStopsAt(fs, hand, d, Around(hand, d, |fs|), gs, hand');
  }

  lemma NoStop(fs: seq<Frame>, gs: seq<Frame>, hand: nat)
    requires |fs| == |gs| && hand < |fs|
    requires forall e {:trigger Around(hand, e, |fs|)} :: 0 <= e < |fs| ==>
               gs[Around(hand, e, |fs|)] == Cleared(fs[Around(hand, e, |fs|)]) && !Evictable(fs, Around(hand, e, |fs|))
    ensures ClockOutcome(fs, hand, -1, gs, hand)
  {
    forall i | 0 <= i < |fs|
      ensures gs[i] == fs[i] && !Evictable(fs, i)
    {
      assert Around(hand, Distance(hand, i, |fs|), |fs|) == i;
    }
  }

  /** The sweep of clock_evict has passed `checked` frames, starting at the hand, without a victim: in the
      first sweep each OCCUPIED one had its bit and lost it, in the second there was none. */
  ghost predicate Swept(fs: seq<Frame>, gs: seq<Frame>, hand: nat, checked: nat) {
    && |fs| == |gs| && hand < |fs|
    && (forall e {:trigger Around(hand, e, |fs|)} :: 0 <= e < |fs| ==>
          gs[Around(hand, e, |fs|)] == if e < checked then Cleared(fs[Around(hand, e, |fs|)]) else fs[Around(hand, e, |fs|)])
    && (forall e {:trigger Around(hand, e, |fs|)} :: 0 <= e < |fs| && e < checked ==> !Unreferenced(fs, Around(hand, e, |fs|)))
    && (forall e {:trigger Around(hand, e, |fs|)} :: 0 <= e < |fs| && e < checked - |fs| ==> !Evictable(fs, Around(hand, e, |fs|)))
  }

  /** Which of the frames comes after `checked` ones. */
  function Upcoming(hand: nat, checked: nat, n: nat): (i: nat)
    requires hand < n && checked < 2 * n
    ensures i < n
  {
    Around(hand, if checked >= n then checked - n else checked, n)
  }

  lemma SweepStart(fs: seq<Frame>, hand: nat)
    requires hand < |fs|
    ensures Swept(fs, fs, hand, 0) && Upcoming(hand, 0, |fs|) == hand
  {
  }

  lemma SweepOn(fs: seq<Frame>, gs: seq<Frame>, hs: seq<Frame>, hand: nat, checked: nat)
    requires Swept(fs, gs, hand, checked) && checked < 2 * |fs|
    requires var i := Upcoming(hand, checked, |fs|); !Unreferenced(gs, i) && hs == gs[i := Cleared(gs[i])]
    ensures Swept(fs, hs, hand, checked + 1)
  {
    var d := if checked >= |fs| then checked - |fs| else checked;
    var i := Around(hand, d, |fs|);
    forall e | 0 <= e < |fs|
      ensures Around(hand, e, |fs|) == i <==> e == d
    {
    }
  }

  lemma SweepStops(fs: seq<Frame>, gs: seq<Frame>, hand: nat, checked: nat, hand': nat)
    requires Swept(fs, gs, hand, checked) && checked < 2 * |fs|
    requires var i := Upcoming(hand, checked, |fs|); Unreferenced(gs, i) && hand' == (i + 1) % |fs|
    ensures ClockOutcome(fs, hand, Upcoming(hand, checked, |fs|), gs, hand')
  {
    hide ClockOutcome;
    if checked < |fs| {
      FirstSweepStop(fs, gs, hand, checked, hand');
    } else {
      SecondSweepStop(fs, gs, hand, checked - |fs|, hand');
    }
  }

  lemma NextUpcoming(hand: nat, checked: nat, n: nat)
    requires hand < n && checked < 2 * n
    ensures (Upcoming(hand, checked, n) + 1) % n == if checked + 1 == 2 * n then hand else Upcoming(hand, checked + 1, n)
  {
    ModIncrement(Upcoming(hand, checked, n), n);
  }

  /** clock_evict: at most two sweeps. */
  method ClockEvict(frames: array<Frame>, hand: nat) returns (victim: int, newHand: nat)
    requires hand < frames.Length
    modifies frames
    ensures ClockOutcome(old(frames[..]), hand, victim, frames[..], newHand)
  {
    hide ClockOutcome, Swept, Upcoming;
    var n := frames.Length;
    ghost var fs := frames[..];
    newHand := hand;
    var checked := 0;
    SweepStart(fs, hand);
    while checked < 2 * n
      invariant 0 <= checked <= 2 * n && Swept(fs, frames[..], hand, checked)
      invariant newHand == if checked == 2 * n then hand else Upcoming(hand, checked, n)
    {
      ghost var gs := frames[..];
      var i := newHand % n;
      ModIncrement(newHand, n);
      NextUpcoming(hand, checked, n);
      newHand := (newHand + 1) % n;
      checked := checked + 1;
      if frames[i].state == Occupied {
        if frames[i].refBit {
          frames[i] := frames[i].(refBit := false);
        } else {
          victim := i;
          SweepStops(fs, gs, hand, checked - 1, newHand);
          return;
        }
      }
      SweepOn(fs, gs, frames[..], hand, checked - 1);
    }
    victim := -1;
    SweepEnds(fs, frames[..], hand);
  }

  lemma SweepEnds(fs: seq<Frame>, gs: seq<Frame>, hand: nat)
    requires Swept(fs, gs, hand, 2 * |fs|)
    ensures ClockOutcome(fs, hand, -1, gs, hand)
  {
    NoStop(fs, gs, hand);
  }

  /** Which bits a Clock eviction takes: those of the OCCUPIED frames that come before the victim from the
      hand on, or of all OCCUPIED frames if the victim still had its own.  Nothing else changes. */
  lemma ClockBits(fs: seq<Frame>, hand: nat, v: int, gs: seq<Frame>, hand': nat, i: nat)
    requires ClockOutcome(fs, hand, v, gs, hand') && 0 <= v < |fs| && i < |fs| == |gs|
    ensures gs[i] == fs[i].(refBit := gs[i].refBit)
    ensures gs[i].refBit <==>
              fs[i].refBit && !(fs[i].state == Occupied && (fs[v].refBit || Distance(hand, i, |fs|) < Distance(hand, v, |fs|)))
  {
    var d :| 0 <= d < |fs| && ClockStopsAt(fs, hand, d, v, gs, hand');
    assert Around(hand, Distance(hand, i, |fs|), |fs|) == i;
    assert Around(hand, d, |fs|) == v && Distance(hand, v, |fs|) == d;
  }
}
