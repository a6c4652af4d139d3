/** The buffer manager object of `storage-engine/buffer_manager.c` with the pool of
    `storage-engine/buffer_frame.c` it owns: arrays, counters, hash table and policy are changed in
    place, and every method is proved to make exactly the transition that BufferModel defines. */
module BufferManagers {
  import opened PoolModel
  import opened EvictionPolicies
  import opened BufferModel
  import opened PageTables
  import opened BufferTheorems
  import opened AccessRuns

  const BUFFER_POOL_MAX_FRAMES := 1024

  /** A policy object that belongs to a pool of n frames. */
  predicate Fits(p: Policy, n: int) {
    p.Clock? ==> p.numFrames == n && p.hand < n
  }

  predicate NoneLaterThan(fs: seq<Frame>, clock: int) {
    forall i :: 0 <= i < |fs| ==> fs[i].lastAccess <= clock
  }

  /** Some choice is always legal; it stands for the outcome of a policy that is not asked. */
  lemma SomeLegalChoice(fs: seq<Frame>, p: Policy) returns (ch: Choice)
    ensures Legal(fs, ch)
  {
    if i :| 0 <= i < |fs| && Evictable(fs, i) {
      ch := Choice(i, fs, p);
    } else {
      ch := Choice(-1, fs, p);
    }
  }

  lemma LoadFits(fs: seq<Frame>, i: int, k: Key, data: PageData, clock: int, p: Policy)
    requires 0 <= i < |fs| && NoneLaterThan(fs, clock) && Fits(p, |fs|)
    ensures NoneLaterThan(fs[i := LoadedFrame(k, data, clock + 1)], clock + 1) && Fits(Advance(p), |fs|)
  {
  }

  lemma OutcomeFits(p: Policy, fs: seq<Frame>, ch: Choice, clock: int)
    requires EvictOutcome(p, fs, ch) && Fits(p, |fs|) && NoneLaterThan(fs, clock) && |fs| > 0
    ensures Fits(ch.policy, |fs|) && NoneLaterThan(ch.frames, clock)
  {
    PoliciesAreLegal(p, fs, ch);
    assert NoneLaterThan(ch.frames, clock) by {
      forall i | 0 <= i < |fs|
        ensures ch.frames[i].lastAccess <= clock
      {
        assert ch.frames[i] == fs[i].(refBit := ch.frames[i].refBit);
      }
    }
    if p.Clock? && ch.victim != -1 {
      var d :| 0 <= d < |fs| && ClockStopsAt(fs, p.hand, d, ch.victim, ch.frames, ch.policy.hand);
    }
  }

  /** Serving trace[j..] from n is one way to finish serving trace[i..] from m. */
  ghost predicate LeadsTo(m: Manager, i: nat, n: Manager, trace: seq<Key>, j: nat)
    requires Mapped(m) && Mapped(n)
  {
    forall end :: ServedByPolicy(n, trace, j, end) ==> ServedByPolicy(m, trace, i, end)
  }

  lemma LeadsToStep(m: Manager, n: Manager, trace: seq<Key>, j: nat, ch: Choice)
    requires Mapped(m) && Mapped(n) && LeadsTo(m, 0, n, trace, j) && j < |trace|
    requires PolicyChoice(n, trace[j], ch) && Mapped(Access(n, trace[j], ch))
    ensures LeadsTo(m, 0, Access(n, trace[j], ch), trace, j + 1)
  {
    forall end | ServedByPolicy(Access(n, trace[j], ch), trace, j + 1, end)
      ensures ServedByPolicy(n, trace, j, end)
    {
      assert AccessAndServeByPolicy(n, trace, j, ch, end);
    }
  }

  lemma LeadsToStart(m: Manager, trace: seq<Key>)
    requires Mapped(m)
    ensures LeadsTo(m, 0, m, trace, 0)
  {
  }

  lemma LeadsToEnd(m: Manager, n: Manager, trace: seq<Key>)
    requires Mapped(m) && Mapped(n) && LeadsTo(m, 0, n, trace, |trace|)
    ensures ServedByPolicy(m, trace, 0, n)
  {
    assert ServedByPolicy(n, trace, |trace|, n);
  }

  class BufferManager {
    const frames: array<Frame>
    var accessClock: int
    var hits: int
    var misses: int
    var evictions: int
    const table: PageTable
    var policy: Policy
    var disk: map<Key, PageData>

    ghost function State(): Manager
      reads this, frames, table
    {
      Manager(frames[..], accessClock, hits, misses, evictions, table.model.contents, policy, disk)
    }

    ghost predicate Valid()
      reads this, frames, table, table.buckets, table.model.nodes
    {
      && table.Valid()
      && 0 < frames.Length <= BUFFER_POOL_MAX_FRAMES
      && Mapped(State())
      && Fits(policy, frames.Length)
      && NoneLaterThan(frames[..], accessClock)
      && 0 <= accessClock
    }

    /** bm_init and bp_init */
    constructor (numFrames: nat, policy: Policy, disk: map<Key, PageData>)
      requires 0 < numFrames <= 1024 && Fits(policy, numFrames)
      ensures Valid() && Initial(State())
      ensures frames.Length == numFrames && this.policy == policy && this.disk == disk
      ensures fresh(frames) && fresh(table) && fresh(table.buckets) && table.model.nodes == {}
    {
      hide PageTable.Valid, Mapped, NoChains, Placed;
      var t := new PageTable();
      frames := new Frame[numFrames](_ => EMPTY_FRAME);
      accessClock, hits, misses, evictions := 0, 0, 0, 0;
      table := t;
      this.policy := policy;
      this.disk := disk;
      new;
      InitialBooks(State());
    }

    /** bp_find_free_frame */
    method FindFreeFrame() returns (i: int)
      ensures i == FirstFree(frames[..])
    {
      i := 0;
      while i < frames.Length
        invariant 0 <= i <= frames.Length
        invariant forall j :: 0 <= j < i ==> frames[j].state != Free
      {
        if frames[i].state == Free {
          return;
        }
        i := i + 1;
      }
      i := -1;
    }

    /** bp_load_frame */
    method LoadFrame(i: int, k: Key, data: PageData)
      requires 0 <= i < frames.Length
      modifies frames, this`accessClock, this`misses
      ensures frames[..] == old(frames[..])[i := LoadedFrame(k, data, accessClock)]
      ensures accessClock == old(accessClock) + 1 && misses == old(misses) + 1
    {
      accessClock := accessClock + 1;
      frames[i] := Frame(k, Occupied, 1, false, true, accessClock, data);
      misses := misses + 1;
    }

    /** bp_pin_frame */
    method PinFrame(i: int)
      requires 0 <= i < frames.Length && frames[i].state != Free
      modifies frames, this`accessClock, this`hits
      ensures frames[..] == old(frames[..])[i := PinnedFrame(old(frames[i]), accessClock)]
      ensures accessClock == old(accessClock) + 1 && hits == old(hits) + 1
    {
      accessClock := accessClock + 1;
      frames[i] := frames[i].(pinCount := frames[i].pinCount + 1, state := Pinned, refBit := true,
                              lastAccess := accessClock);
      hits := hits + 1;
    }

    /** bp_unpin_frame */
    method UnpinFrame(i: int, dirty: bool) returns (rc: int)
      requires 0 <= i < frames.Length
      modifies frames
      ensures rc == if old(frames[i]).pinCount <= 0 then -1 else 0
      ensures frames[..] == if rc < 0 then old(frames[..])
                            else old(frames[..])[i := UnpinnedFrame(old(frames[i]), dirty)]
    {
      if frames[i].pinCount <= 0 {
        return -1;
      }
      if dirty {
        frames[i] := frames[i].(dirty := true);
      }
      frames[i] := frames[i].(pinCount := frames[i].pinCount - 1);
      if frames[i].pinCount == 0 {
        frames[i] := frames[i].(state := Occupied);
      }
      return 0;
    }

    /** bp_evict_frame */
    method WriteBackAndFree(i: int) returns (rc: int)
      requires 0 <= i < frames.Length
      modifies frames, this`evictions, this`disk
      ensures rc == if old(frames[i]).state == Pinned then -1 else 0
      ensures rc < 0 ==> frames[..] == old(frames[..]) && evictions == old(evictions) && disk == old(disk)
      ensures rc == 0 ==>
                && frames[..] == old(frames[..])[i := EMPTY_FRAME] && evictions == old(evictions) + 1
                && disk == if old(frames[i]).dirty then old(disk)[old(frames[i]).key := old(frames[i]).data]
                           else old(disk)
    {
      if frames[i].state == Pinned {
        return -1;
      }
      if frames[i].dirty {
        disk := disk[frames[i].key := frames[i].data];
      }
      frames[i] := EMPTY_FRAME;
      evictions := evictions + 1;
      return 0;
    }

    /** POLICY_EVICT: the pool's policy picks a victim. */
    method Evict() returns (victim: int)
      requires 0 < frames.Length && Fits(policy, frames.Length)
      requires NoneLaterThan(frames[..], accessClock) && accessClock < LLONG_MAX
      modifies frames, this`policy
      ensures EvictOutcome(old(policy), old(frames[..]), Choice(victim, frames[..], policy))
    {
      match policy
      case NoCache =>
        victim := NocacheEvict(frames);
      case Lru =>
        victim := LruEvict(frames);
      case Opt(trace, pos) =>
        victim := OptEvict(frames, trace, pos);
      case Clock(hand, n) =>
        var newHand;
        victim, newHand := ClockEvict(frames, hand);
        policy := Clock(newHand, n);
    }

    /** bm_get_frame: the hit branch. */
    method HitFrame(k: Key, i: int)
      requires Valid() && k in table.model.contents && i == table.model.contents[k] && accessClock < LLONG_MAX - 1
      modifies frames, this`accessClock, this`hits, this`policy
      ensures Valid() && State() == Hit(old(State()), k)
    {
      hide PageTable.Valid;
      HitKeepsMapped(State(), k);
      PinFrame(i);
      policy := Advance(policy);
    }

    /** bm_get_frame: give up the page of an OCCUPIED frame. */
    method EvictPage(i: int)
      requires Valid() && Evictable(frames[..], i)
      modifies this, frames, table, table.buckets, table.model.nodes
      ensures Valid() && fresh(table.model.nodes - old(table.model.nodes))
      ensures State() == EvictFrame(old(State()), i) && frames[i].state == Free
    {
      hide PageTable.Valid, Fits;
      EvictKeepsMapped(State(), i);
      var rc := table.Remove(frames[i].key);
      rc := WriteBackAndFree(i);
    }

    /** bm_get_frame: ask the policy for a victim. */
    method ChooseVictim() returns (victim: int, ghost ch: Choice)
      requires Valid() && accessClock < LLONG_MAX - 1
      modifies frames, this`policy
      ensures Valid() && State() == Chosen(old(State()), ch) && victim == ch.victim
      ensures Legal(old(frames[..]), ch) && EvictOutcome(old(policy), old(frames[..]), ch)
      ensures victim >= 0 ==> Evictable(frames[..], victim)
    {
      hide PageTable.Valid, EvictOutcome;
      ghost var m := State();
      victim := Evict();
      ch := Choice(victim, frames[..], policy);
      PoliciesAreLegal(m.policy, m.frames, ch);
      OutcomeFits(m.policy, m.frames, ch, accessClock);
      ChosenKeepsMapped(m, ch);
      assert victim >= 0 ==> ch.frames[victim] == m.frames[victim].(refBit := ch.frames[victim].refBit);
    }

    /** bm_get_frame, steps 3 and 4: load the page into a free frame and register it. */
    method LoadInto(i: int, k: Key) returns (frame: int)
      requires Valid() && 0 <= i < frames.Length && frames[i].state == Free && k !in table.model.contents
      requires accessClock < LLONG_MAX - 1
      modifies this, frames, table, table.buckets, table.model.nodes
      ensures Valid() && fresh(table.model.nodes - old(table.model.nodes))
      ensures (State(), frame) == Load(old(State()), i, k)
    {
      hide PageTable.Valid, Mapped, Fits, NoneLaterThan;
      if k !in disk {
        return -1;
      }
      LoadKeepsMapped(State(), i, k);
      LoadFits(frames[..], i, k, disk[k], accessClock, policy);
      LoadFrame(i, k, disk[k]);
      table.Insert(k, i);
      policy := Advance(policy);
      return i;
    }

    /** bm_get_frame, which is bm_fetch_page up to the address of the frame's data. */
    method FetchPage(k: Key) returns (frame: int, ghost ch: Choice)
      requires Valid() && accessClock < LLONG_MAX - 1
      modifies this, frames, table, table.buckets, table.model.nodes
      ensures Valid() && fresh(table.model.nodes - old(table.model.nodes))
      ensures PolicyChoice(old(State()), k, ch)
      ensures (State(), frame) == FetchVia(old(State()), k, ch)
    {
      hide PageTable.Valid, EvictOutcome, Legal, Fits, NoneLaterThan;
      ch := SomeLegalChoice(frames[..], policy);
      frame := table.Lookup(k);
      if frame >= 0 {
        HitFrame(k, frame);
        return;
      }
      assert k !in table.model.contents;
      frame := FindFreeFrame();
      if frame < 0 {
        frame, ch := ChooseVictim();
        if frame < 0 {
          return -1, ch;
        }
        EvictPage(frame);
      }
      frame := LoadInto(frame, k);
    }

    /** bm_unpin_page */
    method UnpinPage(k: Key, dirty: bool) returns (rc: int)
      requires Valid()
      modifies frames
      ensures Valid() && (State(), rc) == Unpin(old(State()), k, dirty)
    {
      hide PageTable.Valid, Fits;
      var frame := table.Lookup(k);
      if frame < 0 {
        return -1;
      }
      UnpinKeepsMapped(State(), k, dirty);
      rc := UnpinFrame(frame, dirty);
    }

    /** A holder of frame i overwrites its page through the pointer that bm_fetch_page returned. */
    method WritePage(k: Key, i: int, data: PageData)
      requires Valid() && k in table.model.contents && table.model.contents[k] == i
      modifies frames
      ensures Valid() && State() == Write(old(State()), k, data)
    {
      hide PageTable.Valid, Fits;
      WriteKeepsMapped(State(), k, data);
      frames[i] := frames[i].(data := data);
    }

    /** The flush loop of bm_destroy. */
    method FlushDirtyFrames()
      modifies this`disk
      ensures disk == Flushed(old(frames[..]), old(disk), frames.Length)
    {
      for i := 0 to frames.Length
        invariant disk == Flushed(frames[..], old(disk), i)
      {
        if frames[i].state != Free && frames[i].dirty {
          disk := disk[frames[i].key := frames[i].data];
        }
      }
    }

    /** bm_destroy */
    method Destroy()
      requires Valid()
      modifies this`disk, table, table.buckets
      ensures disk == Flushed(old(frames[..]), old(disk), frames.Length)
      ensures table.Valid() && table.model.contents == map[]
    {
      hide PageTable.Valid, Mapped, Flushed;
      FlushDirtyFrames();
      table.Clear();
    }

    /** Fetch one page and release it again. */
    method AccessPage(k: Key) returns (ghost ch: Choice)
      requires Valid() && accessClock < LLONG_MAX - 1
      modifies this, frames, table, table.buckets, table.model.nodes
      ensures Valid() && fresh(table.model.nodes - old(table.model.nodes))
      ensures PolicyChoice(old(State()), k, ch) && State() == Access(old(State()), k, ch)
      ensures accessClock <= old(accessClock) + 1
    {
      hide PageTable.Valid, EvictOutcome, Legal, Fits, NoneLaterThan, Mapped;
      var frame;
      frame, ch := FetchPage(k);
      var rc := UnpinPage(k, false);
    }

    /** Fetch and release one page after another, as the page loop of handler_scan does: the run is
        one of the runs that the theorems about Belady and LRU speak of. */
    method ServeTrace(trace: seq<Key>)
      requires Valid() && accessClock + |trace| < LLONG_MAX - 1
      modifies this, frames, table, table.buckets, table.model.nodes
      ensures Valid() && ServedByPolicy(old(State()), trace, 0, State())
    {
      hide PageTable.Valid, Fits, NoneLaterThan, Access, Legal, PolicyChoice, LeadsTo, Mapped, ServedByPolicy;
      ghost var start := State();
      LeadsToStart(start, trace);
      for i := 0 to |trace|
        invariant Valid() && Mapped(State()) && accessClock <= old(accessClock) + i
        invariant fresh(table.model.nodes - old(table.model.nodes))
        invariant LeadsTo(start, 0, State(), trace, i)
      {
        ghost var m := State();
        ghost var ch := AccessPage(trace[i]);
        LeadsToStep(start, m, trace, i, ch);
      }
      LeadsToEnd(start, State(), trace);
    }
  }
}
