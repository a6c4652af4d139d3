/** Each step of an insert keeps the tree well formed, up to the split that is still pending. */
module BTreeSteps {
  import opened BTreeModel

  // ---------------------------------------------------------------- sorted sequences

  lemma InsertIncreasing(s: seq<int>, at: nat, k: int)
    requires Increasing(s) && Gap(s, k, at)
    ensures Increasing(InsertAt(s, at, k))
  {
    var r := InsertAt(s, at, k);
    forall i, j | 0 <= i < j < |r|
      ensures r[i] < r[j]
    {
      assert r[i] == if i < at then s[i] else if i == at then k else s[i - 1];
      assert r[j] == if j < at then s[j] else if j == at then k else s[j - 1];
    }
  }

  /** Two leaves whose ranges share a key are the same leaf. */
  lemma LeafOfKeyUnique(t: Tree, p: int, q: int, k: int)
    requires ChainOk(t)
    requires p in t.info && p in t.store && t.store[p].Leaf? && t.info[p].lo <= k < t.info[p].hi
    requires q in t.info && q in t.store && t.store[q].Leaf? && t.info[q].lo <= k < t.info[q].hi
    ensures p == q
  {
    var i :| 0 <= i < |t.chain| && t.chain[i] == p;
    var j :| 0 <= j < |t.chain| && t.chain[j] == q;
  }

  ghost predicate IsLeaf(t: Tree, p: int) {
    p in t.info && p in t.store && t.store[p].Leaf?
  }

  /** Both trees have the same leaf pages, with the same links and the same ranges. */
  ghost predicate SameLeaves(t: Tree, u: Tree) {
    && (forall p :: IsLeaf(t, p) <==> IsLeaf(u, p))
    && (forall p :: IsLeaf(t, p) ==>
          && u.store[p].nextLeaf == t.store[p].nextLeaf
          && u.info[p].lo == t.info[p].lo
          && u.info[p].hi == t.info[p].hi)
  }

  /** The chain of the leaves does not notice a step that keeps leaves, links and ranges. */
  lemma ChainFrame(t: Tree, u: Tree)
    requires ChainOk(t) && u.chain == t.chain && SameLeaves(t, u)
    ensures ChainOk(u)
  {
    forall i | 0 <= i < |u.chain|
      ensures IsLeaf(u, u.chain[i])
      ensures u.store[u.chain[i]].nextLeaf == Successor(u.chain, i)
      ensures u.info[u.chain[i]].lo == t.info[t.chain[i]].lo && u.info[u.chain[i]].hi == t.info[t.chain[i]].hi
    {
      assert IsLeaf(t, t.chain[i]);
      assert t.store[t.chain[i]].nextLeaf == Successor(t.chain, i);
    }
    forall i | 0 <= i < |u.chain|
      ensures u.info[u.chain[i]].hi == StartAfter(u, i)
    {
      assert t.info[t.chain[i]].hi == StartAfter(t, i);
      if i + 1 < |u.chain| {
        assert IsLeaf(u, u.chain[i + 1]);
      }
    }
    forall p | IsLeaf(u, p)
      ensures p in u.chain
    {
      assert IsLeaf(t, p);
    }
  }

  // ---------------------------------------------------------------- PutLeaf

  lemma PutLeafPages(t: Tree, p: int, at: nat, k: int, r: int)
    requires DomainOk(t) && PagesOk(t, Done, 0) && p in t.info
    requires PageOk(t, Done, 0, p) && t.store[p].Leaf? && t.info[p].lo <= k < t.info[p].hi
    requires Gap(t.store[p].keys, k, at)
    ensures PagesOk(PutLeaf(t, p, at, k, r), Done, if |t.store[p].keys| < ORDER then 0 else p)
  {
    var u := PutLeaf(t, p, at, k, r);
    var over := if |t.store[p].keys| < ORDER then 0 else p;
    InsertIncreasing(t.store[p].keys, at, k);
    forall x | x in u.info
      ensures PageOk(u, Done, over, x)
    {
      assert PageOk(t, Done, 0, x);
      if x != p && u.store[x].Internal? {
        forall i | 0 <= i < |u.store[x].children|
          ensures ChildOk(u, Done, x, i)
        {
          assert ChildOk(t, Done, x, i);
        }
      }
    }
  }

  lemma PutLeafParents(t: Tree, p: int, at: nat, k: int, r: int)
    requires ParentsOk(t, Done)
    requires p in t.store && t.store[p].Leaf? && at <= |t.store[p].keys| == |t.store[p].rowIds|
    ensures ParentsOk(PutLeaf(t, p, at, k, r), Done)
  {
    var u := PutLeaf(t, p, at, k, r);
    forall x | x in u.info && x != u.root
      ensures HasParent(u, x)
    {
      assert HasParent(t, x);
    }
  }

  lemma PutLeafChain(t: Tree, p: int, at: nat, k: int, r: int)
    requires ChainOk(t)
    requires p in t.store && t.store[p].Leaf? && at <= |t.store[p].keys| == |t.store[p].rowIds|
    ensures ChainOk(PutLeaf(t, p, at, k, r))
  {
    ChainFrame(t, PutLeaf(t, p, at, k, r));
  }

  lemma PutLeafWellFormed(t: Tree, p: int, at: nat, k: int, r: int)
    requires WellFormed(t, Done, 0)
    requires p in t.info && PageOk(t, Done, 0, p) && t.store[p].Leaf? && t.info[p].lo <= k < t.info[p].hi
    requires Gap(t.store[p].keys, k, at)
    ensures WellFormed(PutLeaf(t, p, at, k, r), Done, if |t.store[p].keys| < ORDER then 0 else p)
  {
    PutLeafPages(t, p, at, k, r);
    PutLeafParents(t, p, at, k, r);
    PutLeafChain(t, p, at, k, r);
    assert PutLeaf(t, p, at, k, r).store.Keys == t.store.Keys;
  }

  lemma PutLeafEntries(t: Tree, p: int, at: nat, k: int, r: int, m: map<int, int>)
    requires EntriesInMap(t, m) && k !in m
    requires p in t.store && t.store[p].Leaf? && at <= |t.store[p].keys| == |t.store[p].rowIds|
    ensures EntriesInMap(PutLeaf(t, p, at, k, r), m[k := r])
  {
    var u, n, n' := PutLeaf(t, p, at, k, r), t.store[p], PutLeaf(t, p, at, k, r).store[p];
    forall i | 0 <= i < |n'.keys|
      ensures n'.keys[i] == if i < at then n.keys[i] else if i == at then k else n.keys[i - 1]
      ensures n'.rowIds[i] == if i < at then n.rowIds[i] else if i == at then r else n.rowIds[i - 1]
    {
    }
  }

  lemma PutLeafKeys(t: Tree, p: int, at: nat, k: int, r: int, m: map<int, int>)
    requires ChainOk(t) && MapInEntries(t, m)
    requires p in t.info && PageOk(t, Done, 0, p) && t.store[p].Leaf? && t.info[p].lo <= k < t.info[p].hi
    requires Gap(t.store[p].keys, k, at)
    ensures MapInEntries(PutLeaf(t, p, at, k, r), m[k := r])
  {
    var u, m' := PutLeaf(t, p, at, k, r), m[k := r];
    forall x, key | x in u.store && x in u.info && u.store[x].Leaf? && key in m' && u.info[x].lo <= key < u.info[x].hi
      ensures key in u.store[x].keys
    {
      if key == k {
        LeafOfKeyUnique(t, p, x, k);
        assert u.store[p].keys[at] == k;
      } else if x == p {
        var j :| 0 <= j < |t.store[p].keys| && t.store[p].keys[j] == key;
        assert u.store[p].keys[if j < at then j else j + 1] == key;
      }
    }
  }

  lemma PutLeafHolds(t: Tree, p: int, at: nat, k: int, r: int, m: map<int, int>)
    requires ChainOk(t) && Holds(t, m) && k !in m && KEY_MIN <= k < KEY_SUP
    requires p in t.info && PageOk(t, Done, 0, p) && t.store[p].Leaf? && t.info[p].lo <= k < t.info[p].hi
    requires Gap(t.store[p].keys, k, at)
    ensures Holds(PutLeaf(t, p, at, k, r), m[k := r])
  {
    PutLeafEntries(t, p, at, k, r, m);
    PutLeafKeys(t, p, at, k, r, m);
  }

  /** A key of the map lies in the leaf whose range contains it. */
  lemma AbsentKey(t: Tree, p: int, k: int, m: map<int, int>)
    requires Holds(t, m) && p in t.store && p in t.info && t.store[p].Leaf?
    requires t.info[p].lo <= k < t.info[p].hi && |t.store[p].keys| == |t.store[p].rowIds|
    ensures k in m <==> k in t.store[p].keys
    ensures forall i :: 0 <= i < |t.store[p].keys| && t.store[p].keys[i] == k ==> k in m && m[k] == t.store[p].rowIds[i]
  {
  }

  // ---------------------------------------------------------------- SplitLeaf

  ghost predicate OverfullLeaf(t: Tree, p: int) {
    p in t.info && p in t.store && t.store[p].Leaf? && |t.store[p].keys| == ORDER + 1 == |t.store[p].rowIds|
  }

  lemma SplitLeafChainShape(t: Tree, p: int, at: nat)
    requires ChainPages(t) && ChainOrder(t)
    requires DomainOk(t) && OverfullLeaf(t, p) && PageOk(t, Done, p, p)
    requires at < |t.chain| && t.chain[at] == p
    ensures var u := SplitLeaf(t, p, at);
            && ChainPages(u)
            && (forall i :: 0 <= i < |u.chain| ==>
                  u.chain[i] == if i <= at then t.chain[i] else if i == at + 1 then t.next else t.chain[i - 1])
            && (forall i :: 0 <= i < |t.chain| && i != at ==> t.chain[i] != p)
  {
    forall i | 0 <= i < |t.chain| && i != at
      ensures t.chain[i] != p
    {
      if i < at {
        assert t.info[t.chain[i]].hi <= t.info[t.chain[at]].lo;
      } else {
        assert t.info[t.chain[at]].hi <= t.info[t.chain[i]].lo;
      }
    }
  }

  lemma SplitLeafChainLinks(t: Tree, p: int, at: nat)
    requires ChainPages(t) && ChainLinks(t) && ChainOrder(t)
    requires DomainOk(t) && OverfullLeaf(t, p) && PageOk(t, Done, p, p)
    requires at < |t.chain| && t.chain[at] == p
    ensures ChainPages(SplitLeaf(t, p, at)) && ChainLinks(SplitLeaf(t, p, at))
  {
    var u, q := SplitLeaf(t, p, at), t.next;
    var ch, dh := t.chain, u.chain;
    SplitLeafChainShape(t, p, at);
    forall i | 0 <= i < |dh|
      ensures u.store[dh[i]].nextLeaf == Successor(dh, i)
      ensures u.info[dh[i]].hi == StartAfter(u, i)
    {
      var j := if i <= at then i else i - 1;
      assert t.store[ch[j]].nextLeaf == Successor(ch, j);
      assert t.info[ch[j]].hi == StartAfter(t, j);
    }
  }

  lemma SplitLeafChainOrder(t: Tree, p: int, at: nat)
    requires ChainPages(t) && ChainOrder(t)
    requires DomainOk(t) && OverfullLeaf(t, p) && PageOk(t, Done, p, p)
    requires at < |t.chain| && t.chain[at] == p
    ensures ChainPages(SplitLeaf(t, p, at)) && ChainOrder(SplitLeaf(t, p, at))
  {
    var u, q := SplitLeaf(t, p, at), t.next;
    var ch, dh := t.chain, u.chain;
    SplitLeafChainShape(t, p, at);
    assert t.store[p].keys[0] < t.store[p].keys[MID] < t.store[p].keys[ORDER];
    forall i, j | 0 <= i < j < |dh|
      ensures u.info[dh[i]].hi <= u.info[dh[j]].lo
    {
      var i', j' := if i <= at then i else i - 1, if j <= at then j else j - 1;
      assert dh[i] == if i == at + 1 then q else ch[i'];
      assert dh[j] == if j == at + 1 then q else ch[j'];
      if i' < j' {
        assert t.info[ch[i']].hi <= t.info[ch[j']].lo;
      }
    }
  }

  lemma SplitLeafChain(t: Tree, p: int, at: nat)
    requires ChainOk(t) && DomainOk(t) && OverfullLeaf(t, p) && PageOk(t, Done, p, p)
    requires at < |t.chain| && t.chain[at] == p
    ensures ChainOk(SplitLeaf(t, p, at))
  {
    var u, q := SplitLeaf(t, p, at), t.next;
    SplitLeafChainLinks(t, p, at);
    SplitLeafChainOrder(t, p, at);
    forall x | x in u.info && u.store[x].Leaf?
      ensures x in u.chain
    {
      if x == q {
        assert u.chain[at + 1] == q;
      } else {
        var i :| 0 <= i < |t.chain| && t.chain[i] == x;
        assert u.chain[if i <= at then i else i + 1] == x;
      }
    }
  }

  lemma SplitLeafPages(t: Tree, p: int, at: nat)
    requires DomainOk(t) && PagesOk(t, Done, p) && OverfullLeaf(t, p) && PageOk(t, Done, p, p)
    requires at < |t.chain| && t.chain[at] == p
    ensures PagesOk(SplitLeaf(t, p, at), Split(p, t.next), 0)
  {
    var u, q := SplitLeaf(t, p, at), t.next;
    var pend := Split(p, q);
    assert t.store[p].keys[0] < t.store[p].keys[MID];
    forall x | x in u.info
      ensures PageOk(u, pend, 0, x)
    {
      if x != p && x != q {
        assert PageOk(t, Done, p, x);
        if u.store[x].Internal? {
          forall i | 0 <= i < |u.store[x].children|
            ensures ChildOk(u, pend, x, i)
          {
            assert ChildOk(t, Done, x, i);
          }
        }
      }
    }
  }

  lemma SplitLeafParents(t: Tree, p: int, at: nat)
    requires ParentsOk(t, Done) && DomainOk(t) && OverfullLeaf(t, p)
    requires at < |t.chain| && t.chain[at] == p
    ensures ParentsOk(SplitLeaf(t, p, at), Split(p, t.next))
  {
    var u, q := SplitLeaf(t, p, at), t.next;
    forall x | x in u.info && x != u.root && x != q
      ensures HasParent(u, x)
    {
      assert HasParent(t, x);
    }
  }

  lemma SplitLeafFrame(t: Tree, p: int, at: nat)
    requires DomainOk(t) && RootOk(t, Done) && OverfullLeaf(t, p) && PageOk(t, Done, p, p) && at < |t.chain|
    ensures var u := SplitLeaf(t, p, at);
            DomainOk(u) && PendingOk(u, Split(p, t.next)) && RootOk(u, Split(p, t.next))
  {
    assert SplitLeaf(t, p, at).store.Keys == t.store.Keys + {t.next};
    assert SplitLeaf(t, p, at).info.Keys == t.info.Keys + {t.next};
  }

  lemma SplitLeafWellFormed(t: Tree, p: int, at: nat)
    requires WellFormed(t, Done, p) && OverfullLeaf(t, p) && PageOk(t, Done, p, p)
    requires at < |t.chain| && t.chain[at] == p
    ensures WellFormed(SplitLeaf(t, p, at), Split(p, t.next), 0)
  {
    SplitLeafChain(t, p, at);
    SplitLeafPages(t, p, at);
    SplitLeafParents(t, p, at);
    SplitLeafFrame(t, p, at);
  }

  lemma SplitLeafKeys(t: Tree, p: int, at: nat, m: map<int, int>)
    requires DomainOk(t) && OverfullLeaf(t, p) && PageOk(t, Done, p, p) && MapInEntries(t, m)
    requires at < |t.chain| && t.chain[at] == p
    ensures MapInEntries(SplitLeaf(t, p, at), m)
  {
    var u, q := SplitLeaf(t, p, at), t.next;
    assert forall i :: 0 <= i < |u.store[q].keys| ==> u.store[q].keys[i] == t.store[p].keys[MID + i];
    forall x, k | x in u.store && x in u.info && u.store[x].Leaf? && k in m && u.info[x].lo <= k < u.info[x].hi
      ensures k in u.store[x].keys
    {
      if x == p || x == q {
        assert k in t.store[p].keys;
        var j :| 0 <= j < |t.store[p].keys| && t.store[p].keys[j] == k;
        if x == p {
          assert u.store[p].keys[j] == k;
        } else {
          assert u.store[q].keys[j - MID] == k;
        }
      }
    }
  }

  lemma SplitLeafHolds(t: Tree, p: int, at: nat, m: map<int, int>)
    requires DomainOk(t) && OverfullLeaf(t, p) && PageOk(t, Done, p, p) && Holds(t, m)
    requires at < |t.chain| && t.chain[at] == p
    ensures Holds(SplitLeaf(t, p, at), m)
  {
    hide MapInEntries;
    SplitLeafKeys(t, p, at, m);
    var u, q := SplitLeaf(t, p, at), t.next;
    assert forall i :: 0 <= i < |u.store[q].keys| ==>
        u.store[q].keys[i] == t.store[p].keys[MID + i] && u.store[q].rowIds[i] == t.store[p].rowIds[MID + i];
    assert EntriesInMap(u, m);
  }

  // ---------------------------------------------------------------- PutChild

  /** Page p has child l in slot `at`, and l's new right sibling r is pending. */
  ghost predicate PendingAt(t: Tree, l: int, r: int, p: int, at: nat) {
    && PendingOk(t, Split(l, r))
    && p in t.info && PageOk(t, Split(l, r), 0, p) && PageOk(t, Split(l, r), 0, l) && PageOk(t, Split(l, r), 0, r)
    && p > 0
    && t.store[p].Internal?
    && at < |t.store[p].children|
    && t.store[p].children[at] == l
  }

  lemma PendingSlot(t: Tree, l: int, r: int, p: int, at: nat)
    requires PendingAt(t, l, r, p, at)
    ensures Gap(t.store[p].keys, t.info[r].lo, at)
    ensures t.info[p].lo < t.info[r].lo < t.info[p].hi
  {
    assert ChildOk(t, Split(l, r), p, at);
  }

  /** The boundaries of a node after one more separator. */
  lemma FenceInsert(keys: seq<int>, at: nat, sep: int, lo: int, hi: int, i: nat)
    requires at <= |keys| && i <= |keys| + 2
    ensures Fence(InsertAt(keys, at, sep), lo, hi, i) ==
            if i <= at then Fence(keys, lo, hi, i) else if i == at + 1 then sep else Fence(keys, lo, hi, i - 1)
  {
  }

  lemma PutChildChild(t: Tree, l: int, r: int, p: int, at: nat, i: nat)
    requires PendingAt(t, l, r, p, at)
    requires i < |t.store[p].children| + 1
    ensures ChildOk(PutChild(t, p, at, r), Done, p, i)
  {
    var pend, u := Split(l, r), PutChild(t, p, at, r);
    var keys, lo, hi := t.store[p].keys, t.info[p].lo, t.info[p].hi;
    var j := if i <= at then i else i - 1;
    assert ChildOk(t, pend, p, at) && ChildOk(t, pend, p, j);
    FenceInsert(keys, at, t.info[r].lo, lo, hi, i);
    FenceInsert(keys, at, t.info[r].lo, lo, hi, i + 1);
    assert u.store[p].children[i] == if i == at + 1 then r else t.store[p].children[j];
    if j != at {
      // another child of p cannot be l, whose range starts elsewhere
      assert Fence(keys, lo, hi, j) != Fence(keys, lo, hi, at);
    }
  }

  lemma PutChildChildren(t: Tree, l: int, r: int, p: int, at: nat)
    requires PendingAt(t, l, r, p, at)
    ensures var u := PutChild(t, p, at, r);
            forall i :: 0 <= i < |u.store[p].children| ==> ChildOk(u, Done, p, i)
  {
    forall i | 0 <= i < |t.store[p].children| + 1
      ensures ChildOk(PutChild(t, p, at, r), Done, p, i)
    {
      PutChildChild(t, l, r, p, at, i);
    }
  }

  /** A page other than the parent that takes the child stays in order. */
  lemma PutChildOther(t: Tree, l: int, r: int, p: int, at: nat, x: int)
    requires DomainOk(t) && PagesOk(t, Split(l, r), 0) && PendingAt(t, l, r, p, at)
    requires t.info[l].parent == p && x in t.info && x != p
    ensures PageOk(PutChild(t, p, at, r), Done, if |t.store[p].keys| < ORDER then 0 else p, x)
  {
    var pend, u := Split(l, r), PutChild(t, p, at, r);
    PendingSlot(t, l, r, p, at);
    assert PageOk(t, pend, 0, x);
    if u.store[x].Internal? {
      forall i | 0 <= i < |u.store[x].children|
        ensures ChildOk(u, Done, x, i)
      {
        assert ChildOk(t, pend, x, i);
      }
    }
  }

  lemma PutChildPages(t: Tree, l: int, r: int, p: int, at: nat)
    requires DomainOk(t) && PagesOk(t, Split(l, r), 0) && PendingAt(t, l, r, p, at)
    requires t.info[l].parent == p
    ensures PagesOk(PutChild(t, p, at, r), Done, if |t.store[p].keys| < ORDER then 0 else p)
  {
    var pend, u := Split(l, r), PutChild(t, p, at, r);
    var over := if |t.store[p].keys| < ORDER then 0 else p;
    PendingSlot(t, l, r, p, at);
    InsertIncreasing(t.store[p].keys, at, t.info[r].lo);
    PutChildChildren(t, l, r, p, at);
    forall x | x in u.info
      ensures PageOk(u, Done, over, x)
    {
      if x == p {
        assert PageOk(t, pend, 0, p);
      } else {
        PutChildOther(t, l, r, p, at, x);
      }
    }
  }

  lemma PutChildParents(t: Tree, l: int, r: int, p: int, at: nat)
    requires ParentsOk(t, Split(l, r)) && PendingAt(t, l, r, p, at)
    ensures ParentsOk(PutChild(t, p, at, r), Done)
  {
    var u := PutChild(t, p, at, r);
    forall x | x in u.info && x != u.root
      ensures HasParent(u, x)
    {
      if x == r {
        assert u.store[p].children[at + 1] == r;
      } else {
        assert HasParent(t, x);
        if t.info[x].parent == p {
          var i :| 0 <= i < |t.store[p].children| && t.store[p].children[i] == x;
          assert u.store[p].children[if i <= at then i else i + 1] == x;
        }
      }
    }
  }

  lemma PutChildChain(t: Tree, p: int, at: nat, r: int)
    requires ChainOk(t) && p in t.store && t.store[p].Internal? && r in t.info
    requires at <= |t.store[p].keys| && |t.store[p].children| == |t.store[p].keys| + 1
    ensures ChainOk(PutChild(t, p, at, r))
  {
    ChainFrame(t, PutChild(t, p, at, r));
  }

  lemma PutChildWellFormed(t: Tree, l: int, r: int, p: int, at: nat)
    requires WellFormed(t, Split(l, r), 0) && PendingAt(t, l, r, p, at)
    ensures WellFormed(PutChild(t, p, at, r), Done, if |t.store[p].keys| < ORDER then 0 else p)
  {
    assert ChildOk(t, Split(l, r), p, at);
    PutChildPages(t, l, r, p, at);
    PutChildParents(t, l, r, p, at);
    PutChildChain(t, p, at, r);
    assert PutChild(t, p, at, r).store.Keys == t.store.Keys;
    assert PutChild(t, p, at, r).info.Keys == t.info.Keys;
  }

  lemma PutChildHolds(t: Tree, p: int, at: nat, r: int, m: map<int, int>)
    requires Holds(t, m) && p in t.store && t.store[p].Internal? && r in t.info
    requires at <= |t.store[p].keys| && |t.store[p].children| == |t.store[p].keys| + 1
    ensures Holds(PutChild(t, p, at, r), m)
  {
  }

  // ---------------------------------------------------------------- SplitInternal

  ghost predicate OverfullInternal(t: Tree, p: int) {
    && p in t.info && p in t.store && t.store[p].Internal?
    && |t.store[p].keys| == ORDER + 1 && |t.store[p].children| == ORDER + 2
    && PageOk(t, Done, p, p)
  }

  /** Which pages change their parent in a split, and that nothing else about them does. */
  lemma SplitInternalMoved(t: Tree, p: int)
    requires DomainOk(t) && OverfullInternal(t, p)
    ensures var n, u := t.store[p], SplitInternal(t, p);
            && u.info.Keys == t.info.Keys + {t.next}
            && u.info[p] == t.info[p].(hi := n.keys[MID])
            && u.info[t.next] == Info(t.info[p].level, n.keys[MID], t.info[p].hi, 0)
            && (forall i :: 0 <= i < |n.children| ==>
                  var c := n.children[i];
                  c in t.info && c != p && u.info[c] == if i <= MID then t.info[c] else t.info[c].(parent := t.next))
            && (forall x :: x in t.info && x != p && t.info[x].parent != p ==> u.info[x] == t.info[x])
  {
    var u, q, n := SplitInternal(t, p), t.next, t.store[p];
    var moved := n.children[MID + 1..];
    forall c | c in moved
      ensures c in t.info && c != p && c != q && t.info[c].parent == p && t.info[c].lo >= n.keys[MID]
    {
      var i :| 0 <= i < |moved| && moved[i] == c;
      assert ChildOk(t, Done, p, MID + 1 + i);
    }
    forall i | 0 <= i < |n.children|
      ensures var c := n.children[i];
              c in t.info && c != p && u.info[c] == if i <= MID then t.info[c] else t.info[c].(parent := q)
    {
      assert ChildOk(t, Done, p, i);
      if i > MID {
        assert moved[i - MID - 1] == n.children[i];
      } else {
        assert t.info[n.children[i]].lo < n.keys[MID];
      }
    }
    assert u.info.Keys == t.info.Keys + {q};
  }

  lemma SplitInternalHalf(t: Tree, p: int, x: int)
    requires DomainOk(t) && OverfullInternal(t, p)
    requires x == p || x == t.next
    ensures x in SplitInternal(t, p).info && t.next in SplitInternal(t, p).info
    ensures PageOk(SplitInternal(t, p), Split(p, t.next), 0, x)
  {
    var u, q, n := SplitInternal(t, p), t.next, t.store[p];
    var pend := Split(p, q);
    SplitInternalMoved(t, p);
    forall i | 0 <= i < |u.store[x].children|
      ensures ChildOk(u, pend, x, i)
    {
      var j := if x == p then i else MID + 1 + i;
      assert ChildOk(t, Done, p, j);
      assert u.store[x].children[i] == n.children[j];
    }
  }

  lemma SplitInternalOther(t: Tree, p: int, x: int)
    requires DomainOk(t) && OverfullInternal(t, p)
    requires x in t.info && x != p && PageOk(t, Done, p, x) && (x != t.root ==> HasParent(t, x))
    ensures x in SplitInternal(t, p).info && t.next in SplitInternal(t, p).info
    ensures PageOk(SplitInternal(t, p), Split(p, t.next), 0, x)
  {
    var u, q, n := SplitInternal(t, p), t.next, t.store[p];
    SplitInternalMoved(t, p);
    assert u.info[x].lo == t.info[x].lo && u.info[x].hi == t.info[x].hi && u.info[x].level == t.info[x].level;
    if t.store[x].Internal? {
      forall i | 0 <= i < |u.store[x].children|
        ensures ChildOk(u, Split(p, q), x, i)
      {
        assert ChildOk(t, Done, x, i);
      }
    }
  }

  lemma SplitInternalPages(t: Tree, p: int)
    requires DomainOk(t) && PagesOk(t, Done, p) && ParentsOk(t, Done) && OverfullInternal(t, p)
    ensures PagesOk(SplitInternal(t, p), Split(p, t.next), 0)
  {
    var u := SplitInternal(t, p);
    SplitInternalMoved(t, p);
    forall x | x in u.info
      ensures PageOk(u, Split(p, t.next), 0, x)
    {
      if x == t.next || x == p {
        SplitInternalHalf(t, p, x);
      } else {
        SplitInternalOther(t, p, x);
      }
    }
  }

  lemma SplitInternalParents(t: Tree, p: int)
    requires DomainOk(t) && ParentsOk(t, Done) && OverfullInternal(t, p)
    ensures ParentsOk(SplitInternal(t, p), Split(p, t.next))
  {
    var u, q, n := SplitInternal(t, p), t.next, t.store[p];
    SplitInternalMoved(t, p);
    forall x | x in u.info && x != u.root && x != q
      ensures HasParent(u, x)
    {
      assert HasParent(t, x);
      if t.info[x].parent == p {
        var i :| 0 <= i < |n.children| && n.children[i] == x;
        if i > MID {
          assert u.store[q].children[i - MID - 1] == x;
        } else {
          assert u.store[p].children[i] == x;
        }
      }
    }
  }

  lemma SplitInternalChain(t: Tree, p: int)
    requires DomainOk(t) && OverfullInternal(t, p) && ChainOk(t)
    ensures ChainOk(SplitInternal(t, p))
  {
    SplitInternalMoved(t, p);
    ChainFrame(t, SplitInternal(t, p));
  }

  lemma SplitInternalFrame(t: Tree, p: int)
    requires DomainOk(t) && RootOk(t, Done) && OverfullInternal(t, p)
    ensures var u := SplitInternal(t, p);
            DomainOk(u) && PendingOk(u, Split(p, t.next)) && RootOk(u, Split(p, t.next))
  {
    SplitInternalMoved(t, p);
    assert SplitInternal(t, p).store.Keys == t.store.Keys + {t.next};
  }

  lemma SplitInternalWellFormed(t: Tree, p: int)
    requires WellFormed(t, Done, p) && OverfullInternal(t, p)
    ensures WellFormed(SplitInternal(t, p), Split(p, t.next), 0)
  {
    SplitInternalPages(t, p);
    SplitInternalParents(t, p);
    SplitInternalChain(t, p);
    SplitInternalFrame(t, p);
  }

  lemma SplitInternalHolds(t: Tree, p: int, m: map<int, int>)
    requires DomainOk(t) && OverfullInternal(t, p) && Holds(t, m)
    ensures Holds(SplitInternal(t, p), m)
  {
    SplitInternalMoved(t, p);
  }

  // ---------------------------------------------------------------- GrowRoot

  lemma GrowRootPages(t: Tree, r: int)
    requires DomainOk(t) && PagesOk(t, Split(t.root, r), 0) && PendingOk(t, Split(t.root, r)) && RootOk(t, Split(t.root, r))
    ensures PagesOk(GrowRoot(t, r), Done, 0)
  {
    var u, pend, l, top := GrowRoot(t, r), Split(t.root, r), t.root, t.next;
    assert PageOk(t, pend, 0, l) && PageOk(t, pend, 0, r);
    forall x | x in u.info
      ensures PageOk(u, Done, 0, x)
    {
      if x == top {
        assert ChildOk(u, Done, top, 0) && ChildOk(u, Done, top, 1);
      } else {
        assert PageOk(t, pend, 0, x);
        if u.store[x].Internal? {
          forall i | 0 <= i < |u.store[x].children|
            ensures ChildOk(u, Done, x, i)
          {
            assert ChildOk(t, pend, x, i);
          }
        }
      }
    }
  }

  lemma GrowRootParents(t: Tree, r: int)
    requires DomainOk(t) && ParentsOk(t, Split(t.root, r)) && PendingOk(t, Split(t.root, r))
    ensures ParentsOk(GrowRoot(t, r), Done)
  {
    var u, l, top := GrowRoot(t, r), t.root, t.next;
    forall x | x in u.info && x != u.root
      ensures HasParent(u, x)
    {
      if x == l {
        assert u.store[top].children[0] == l;
      } else if x == r {
        assert u.store[top].children[1] == r;
      } else {
        assert HasParent(t, x);
      }
    }
  }

  lemma GrowRootFrame(t: Tree, r: int)
    requires DomainOk(t) && PendingOk(t, Split(t.root, r)) && RootOk(t, Split(t.root, r)) && ChainOk(t)
    ensures DomainOk(GrowRoot(t, r)) && RootOk(GrowRoot(t, r), Done) && ChainOk(GrowRoot(t, r))
  {
    var u := GrowRoot(t, r);
    assert u.store.Keys == t.store.Keys + {t.next} && u.info.Keys == t.info.Keys + {t.next};
    ChainFrame(t, u);
  }

  lemma {:induction false} GrowRootWellFormed(t: Tree, r: int)
    requires WellFormed(t, Split(t.root, r), 0)
    ensures WellFormed(GrowRoot(t, r), Done, 0)
  {
    GrowRootPages(t, r);
    GrowRootParents(t, r);
    GrowRootFrame(t, r);
  }

  lemma GrowRootHolds(t: Tree, r: int, m: map<int, int>)
    requires DomainOk(t) && t.root in t.info && r in t.info && Holds(t, m)
    ensures Holds(GrowRoot(t, r), m)
  {
  }

  // ---------------------------------------------------------------- DropEntry and the empty tree

  lemma DropEntryPages(t: Tree, p: int, at: nat)
    requires DomainOk(t) && PagesOk(t, Done, 0) && p in t.info && PageOk(t, Done, 0, p)
    requires t.store[p].Leaf? && at < |t.store[p].keys|
    ensures PagesOk(DropEntry(t, p, at), Done, 0)
  {
    var u, n := DropEntry(t, p, at), t.store[p];
    assert forall i :: 0 <= i < |u.store[p].keys| ==> u.store[p].keys[i] == n.keys[if i < at then i else i + 1];
    forall x | x in u.info
      ensures PageOk(u, Done, 0, x)
    {
      assert PageOk(t, Done, 0, x);
      if x != p && u.store[x].Internal? {
        forall i | 0 <= i < |u.store[x].children|
          ensures ChildOk(u, Done, x, i)
        {
          assert ChildOk(t, Done, x, i);
        }
      }
    }
  }

  lemma {:induction false} DropEntryWellFormed(t: Tree, p: int, at: nat)
    requires WellFormed(t, Done, 0) && p in t.info && PageOk(t, Done, 0, p)
    requires t.store[p].Leaf? && at < |t.store[p].keys|
    ensures WellFormed(DropEntry(t, p, at), Done, 0)
  {
    var u := DropEntry(t, p, at);
    DropEntryPages(t, p, at);
    forall x | x in u.info && x != u.root
      ensures HasParent(u, x)
    {
      assert HasParent(t, x);
    }
    ChainFrame(t, u);
    assert u.store.Keys == t.store.Keys;
  }

  /** A key of one leaf is in no other leaf. */
  lemma OtherLeafLacks(t: Tree, p: int, at: nat, x: int, i: nat)
    requires DomainOk(t) && ChainOk(t) && PagesOk(t, Done, 0)
    requires p in t.info && t.store[p].Leaf? && at < |t.store[p].keys|
    requires x in t.info && x != p && t.store[x].Leaf? && i < |t.store[x].keys|
    ensures t.store[x].keys[i] != t.store[p].keys[at]
  {
    assert PageOk(t, Done, 0, x) && PageOk(t, Done, 0, p);
    if t.store[x].keys[i] == t.store[p].keys[at] {
      LeafOfKeyUnique(t, p, x, t.store[p].keys[at]);
    }
  }

  lemma DropEntryEntries(t: Tree, p: int, at: nat, m: map<int, int>)
    requires DomainOk(t) && ChainOk(t) && PagesOk(t, Done, 0) && EntriesInMap(t, m)
    requires p in t.info && PageOk(t, Done, 0, p) && t.store[p].Leaf? && at < |t.store[p].keys|
    ensures EntriesInMap(DropEntry(t, p, at), m - {t.store[p].keys[at]})
  {
    var u, n, k := DropEntry(t, p, at), t.store[p], t.store[p].keys[at];
    var n', m' := u.store[p], m - {k};
    assert |n.keys| == |n.rowIds| && Increasing(n.keys);
    hide PageOk, ChainOk, PagesOk;
    forall x, i | x in u.store && u.store[x].Leaf? && 0 <= i < |u.store[x].keys| && i < |u.store[x].rowIds|
      ensures u.store[x].keys[i] in m' && m'[u.store[x].keys[i]] == u.store[x].rowIds[i]
    {
      if x == p {
        var j := if i < at then i else i + 1;
        assert n'.keys[i] == n.keys[j] && n'.rowIds[i] == n.rowIds[j];
      } else {
        OtherLeafLacks(t, p, at, x, i);
      }
    }
  }

  lemma DropEntryKeys(t: Tree, p: int, at: nat, m: map<int, int>)
    requires MapInEntries(t, m)
    requires p in t.store && t.store[p].Leaf? && at < |t.store[p].keys| == |t.store[p].rowIds|
    ensures MapInEntries(DropEntry(t, p, at), m - {t.store[p].keys[at]})
  {
    var u, n := DropEntry(t, p, at), t.store[p];
    forall x, key | x in u.store && x in u.info && u.store[x].Leaf? && key in m - {n.keys[at]}
                      && u.info[x].lo <= key < u.info[x].hi
      ensures key in u.store[x].keys
    {
      if x == p {
        var j :| 0 <= j < |n.keys| && n.keys[j] == key;
        assert u.store[p].keys[if j < at then j else j - 1] == key;
      }
    }
  }

  lemma DropEntryHolds(t: Tree, p: int, at: nat, m: map<int, int>)
    requires DomainOk(t) && ChainOk(t) && PagesOk(t, Done, 0) && Holds(t, m)
    requires p in t.info && PageOk(t, Done, 0, p) && t.store[p].Leaf? && at < |t.store[p].keys|
    ensures t.store[p].keys[at] in m
    ensures Holds(DropEntry(t, p, at), m - {t.store[p].keys[at]})
  {
    DropEntryEntries(t, p, at, m);
    DropEntryKeys(t, p, at, m);
  }

  lemma EmptyTreeWellFormed()
    ensures WellFormed(EMPTY_TREE, Done, 0) && Holds(EMPTY_TREE, map[])
  {
    var t := EMPTY_TREE;
    assert PageOk(t, Done, 0, 1);
    assert t.info[t.chain[0]].hi == StartAfter(t, 0);
    assert t.store[t.chain[0]].nextLeaf == Successor(t.chain, 0);
  }

  // ---------------------------------------------------------------- descending

  /** The child that a descent for k enters is responsible for k, one level down. */
  lemma DescendStep(t: Tree, p: int, k: int, at: int)
    requires PagesOk(t, Done, 0) && p in t.info && PageOk(t, Done, 0, p) && t.store[p].Internal?
    requires t.info[p].lo <= k < t.info[p].hi && DescendsTo(t.store[p].keys, k, at)
    ensures var c := t.store[p].children[at];
            && c in t.info && PageOk(t, Done, 0, c)
            && t.info[c].lo <= k < t.info[c].hi
            && t.info[c].level + 1 == t.info[p].level
            && t.info[c].parent == p
  {
    assert ChildOk(t, Done, p, at);
  }
}
