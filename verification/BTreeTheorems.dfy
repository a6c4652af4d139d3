/** What a well-formed tree promises as a whole: one way down to every page, and a leaf chain that
    lists the map in key order. */
module BTreeTheorems {
  import opened Sets
  import opened BTreeModel
  import opened BTreeFile

  // ---------------------------------------------------------------- reachability

  /** Page c is the i-th child of page p. */
  ghost predicate ChildSlot(t: Tree, p: int, i: int, c: int) {
    && p in t.info && p in t.store && t.store[p].Internal?
    && 0 <= i < |t.store[p].children| && t.store[p].children[i] == c
  }

  lemma FenceInjective(keys: seq<int>, lo: int, hi: int, i: nat, j: nat)
    requires Increasing(keys) && (forall x :: 0 <= x < |keys| ==> lo < keys[x] < hi)
    requires i <= |keys| && j <= |keys| && Fence(keys, lo, hi, i) == Fence(keys, lo, hi, j)
    ensures i == j
  {
  }

  /** Every page other than the root hangs in exactly one child slot of the whole file. */
  lemma OneParentSlot(t: Tree, c: int) returns (p: int, i: nat)
    requires WellFormed(t, Done, 0) && c in t.info && c != t.root
    ensures ChildSlot(t, p, i, c)
    ensures forall q, j :: ChildSlot(t, q, j, c) ==> q == p && j == i
  {
    assert HasParent(t, c);
    p := t.info[c].parent;
    i :| 0 <= i < |t.store[p].children| && t.store[p].children[i] == c;
    var keys, up := t.store[p].keys, t.info[p];
    assert PageOk(t, Done, 0, p) && ChildOk(t, Done, p, i);
    forall q, j | ChildSlot(t, q, j, c)
      ensures q == p && j == i
    {
      assert PageOk(t, Done, 0, q) && ChildOk(t, Done, q, j);
      FenceInjective(keys, up.lo, up.hi, i, j);
    }
  }

  lemma RootHasNoSlot(t: Tree, p: int, i: nat)
    requires WellFormed(t, Done, 0) && p in t.info && t.store[p].Internal? && i < |t.store[p].children|
    ensures t.store[p].children[i] != t.root
  {
    assert PageOk(t, Done, 0, p) && ChildOk(t, Done, p, i);
  }

  /** A page hangs in a child slot exactly if it is not the root, and then in one only. */
  lemma HangsOnce(t: Tree, c: int)
    requires WellFormed(t, Done, 0) && c in t.info
    ensures (exists p, i :: ChildSlot(t, p, i, c)) <==> c != t.root
    ensures forall p, i, q, j :: ChildSlot(t, p, i, c) && ChildSlot(t, q, j, c) ==> p == q && i == j
  {
    if c == t.root {
      forall p, i
        ensures !ChildSlot(t, p, i, c)
      {
        if p in t.info && p in t.store && t.store[p].Internal? && 0 <= i < |t.store[p].children| {
          RootHasNoSlot(t, p, i);
        }
      }
    } else {
      var p, i := OneParentSlot(t, c);
    }
  }

  /** Every page is reached from the root, in as many steps as its level demands; a leaf is always
      `height - 1` steps down. */
  lemma {:induction false} PathFromRoot(t: Tree, c: int) returns (path: seq<int>)
    requires WellFormed(t, Done, 0) && c in t.info
    ensures Ancestors(t, path, c)
    ensures t.store[c].Leaf? ==> |path| == t.height - 1
    decreases t.height - t.info[c].level
  {
    assert PageOk(t, Done, 0, c);
    if c == t.root {
      path := [];
    } else {
      var p := t.info[c].parent;
      ParentIsAbove(t, 0, c);
      LevelBelowHeight(t, p);
      var up := PathFromRoot(t, p);
      path := up + [p];
      assert path[..|path| - 1] == up;
    }
  }

  /** No page lies above the root: on the top level the root is alone. */
  lemma LevelBelowHeight(t: Tree, c: int)
    requires WellFormed(t, Done, 0) && c in t.info
    ensures t.info[c].level < t.height
  {
    var top := c;
    var seen: set<int> := {};
    while top != t.root
      invariant top in t.info && t.info[c].level <= t.info[top].level
      invariant forall x :: x in seen ==> x in t.info && t.info[x].level < t.info[top].level
      decreases Range(1, t.next) - seen
    {
      ParentIsAbove(t, 0, top);
      assert top !in seen && top in Range(1, t.next);
      seen := seen + {top};
      top := t.info[top].parent;
    }
  }

  // ---------------------------------------------------------------- the leaf chain

  /** The pages met by following nextLeaf, for at most `fuel` steps. */
  function Walk(store: map<int, Node>, page: int, fuel: nat): seq<int>
    decreases fuel
  {
    if fuel == 0 || page !in store || !store[page].Leaf? then []
    else [page] + Walk(store, store[page].nextLeaf, fuel - 1)
  }

  /** The keys of the given leaves, one leaf after the other. */
  function LeafKeys(store: map<int, Node>, leaves: seq<int>): seq<int>
    requires forall i :: 0 <= i < |leaves| ==> leaves[i] in store
  {
    if leaves == [] then [] else store[leaves[0]].keys + LeafKeys(store, leaves[1..])
  }

  lemma {:induction false} WalkIsChain(t: Tree, i: nat, fuel: nat)
    requires ChainPages(t) && ChainLinks(t) && -1 !in t.store && i < |t.chain| && fuel >= |t.chain| - i
    ensures Walk(t.store, t.chain[i], fuel) == t.chain[i..]
    decreases |t.chain| - i
  {
    assert t.store[t.chain[i]].nextLeaf == Successor(t.chain, i);
    if i + 1 < |t.chain| {
      WalkIsChain(t, i + 1, fuel - 1);
    } else {
      assert Walk(t.store, -1, fuel - 1) == [];
    }
    assert t.chain[i..] == [t.chain[i]] + t.chain[i + 1..];
  }

  lemma ChainDistinct(t: Tree)
    requires DomainOk(t) && ChainOk(t) && PagesOk(t, Done, 0)
    ensures Distinct(t.chain)
    ensures |t.chain| < t.next
  {
    forall i, j | 0 <= i < j < |t.chain|
      ensures t.chain[i] != t.chain[j]
    {
      assert PageOk(t, Done, 0, t.chain[i]);
      assert t.info[t.chain[i]].hi <= t.info[t.chain[j]].lo;
    }
    DistinctElements(t.chain);
    forall p | p in Elements(t.chain)
      ensures p in Range(1, t.next)
    {
      var i :| 0 <= i < |t.chain| && t.chain[i] == p;
    }
    SubsetSize(Elements(t.chain), Range(1, t.next));
    assert 1 in t.info;
  }

  lemma {:induction false} ChainKeysSorted(t: Tree, i: nat)
    requires ChainOk(t) && PagesOk(t, Done, 0) && i < |t.chain|
    ensures forall j :: 0 <= j < |t.chain[i..]| ==> t.chain[i..][j] in t.store
    ensures Increasing(LeafKeys(t.store, t.chain[i..]))
    ensures forall k :: k in LeafKeys(t.store, t.chain[i..]) ==> t.info[t.chain[i]].lo <= k
    ensures forall k :: k in LeafKeys(t.store, t.chain[i..]) <==>
              exists p :: p in t.chain[i..] && p in t.store && k in t.store[p].keys
    decreases |t.chain| - i
  {
    var leaf := t.chain[i];
    assert PageOk(t, Done, 0, leaf);
    var here, rest := t.store[leaf].keys, t.chain[i..][1..];
    assert rest == t.chain[i + 1..];
    assert t.chain[i..][0] == leaf;
    if i + 1 < |t.chain| {
      ChainKeysSorted(t, i + 1);
      var after := LeafKeys(t.store, rest);
      assert t.info[leaf].hi <= t.info[t.chain[i + 1]].lo;
      ConcatIncreasing(here, after, t.info[leaf].hi);
    } else {
      assert LeafKeys(t.store, rest) == [];
      assert here + [] == here;
    }
    assert LeafKeys(t.store, t.chain[i..]) == here + LeafKeys(t.store, rest);
    assert t.chain[i..] == [leaf] + rest;
  }

  lemma ConcatIncreasing(a: seq<int>, b: seq<int>, mid: int)
    requires Increasing(a) && Increasing(b)
    requires forall x :: x in a ==> x < mid
    requires forall x :: x in b ==> mid <= x
    ensures Increasing(a + b)
  {
    forall i, j | 0 <= i < j < |a + b|
      ensures (a + b)[i] < (a + b)[j]
    {
      if i < |a| <= j {
        assert a[i] in a && b[j - |a|] in b;
      }
    }
  }

  /** Following nextLeaf from page 1 visits every leaf exactly once, stops, and yields the keys of the
      map in strictly increasing order. */
  lemma LeafChain(t: Tree, m: map<int, int>)
    requires WellFormed(t, Done, 0) && Holds(t, m)
    ensures var w := Walk(t.store, 1, t.next);
            && Distinct(w)
            && (forall p :: p in w <==> p in t.store && t.store[p].Leaf?)
            && |w| >= 1 && w[0] == 1 && w[|w| - 1] in t.store && t.store[w[|w| - 1]].Leaf?
            && t.store[w[|w| - 1]].nextLeaf == -1
            && (forall i :: 0 <= i < |w| ==> w[i] in t.store)
            && Increasing(LeafKeys(t.store, w))
            && (forall k :: k in LeafKeys(t.store, w) <==> k in m)
  {
    ChainDistinct(t);
    assert -1 !in t.info;
    WalkIsChain(t, 0, t.next);
    assert t.chain[0..] == t.chain;
    assert t.store[t.chain[|t.chain| - 1]].nextLeaf == Successor(t.chain, |t.chain| - 1);
    ChainKeysSorted(t, 0);
    forall k
      ensures k in LeafKeys(t.store, t.chain) <==> k in m
    {
      KeyOnChain(t, m, k);
    }
  }

  lemma KeyOnChain(t: Tree, m: map<int, int>, k: int)
    requires WellFormed(t, Done, 0) && Holds(t, m)
    ensures k in m <==> exists p :: p in t.chain && p in t.store && k in t.store[p].keys
  {
    if k in m {
      var i := LeafCovering(t, k, 0);
      LeafFacts(t, t.chain[i], k, m);
    }
    forall p | p in t.chain && p in t.store && k in t.store[p].keys
      ensures k in m
    {
      assert PageOk(t, Done, 0, p);
      var i :| 0 <= i < |t.store[p].keys| && t.store[p].keys[i] == k;
    }
  }

  lemma {:induction false} LeafCovering(t: Tree, k: int, i: nat) returns (j: nat)
    requires DomainOk(t) && ChainOk(t) && KEY_MIN <= k < KEY_SUP && i < |t.chain| && t.info[t.chain[i]].lo <= k
    ensures j < |t.chain| && t.info[t.chain[j]].lo <= k < t.info[t.chain[j]].hi
    decreases |t.chain| - i
  {
    assert t.info[t.chain[i]].hi == StartAfter(t, i);
    if k < t.info[t.chain[i]].hi {
      j := i;
    } else {
      j := LeafCovering(t, k, i + 1);
    }
  }
}
