/** Internal nodes never lose children, so the tree is wide at every level: a bound on its height. */
module BTreeHeight {
  import opened BTreeModel
  import opened Sets

  const MIN_FANOUT := 51

  function Pow(b: nat, e: nat): nat {
    if e == 0 then 1 else b * Pow(b, e - 1)
  }

  ghost function Level(t: Tree, l: int): set<int> {
    set p | p in t.info && t.info[p].level == l
  }

  ghost function Kids(t: Tree, parents: set<int>): set<int> {
    set c | c in t.info && t.info[c].parent in parents
  }

  /** A page has as many kids as child slots. */
  lemma KidsOfOne(t: Tree, p: int)
    requires PagesOk(t, Done, 0) && p in t.info && PageOk(t, Done, 0, p) && t.store[p].Internal?
    ensures |Kids(t, {p})| >= |t.store[p].children|
  {
    var cs := t.store[p].children;
    forall i, j | 0 <= i < j < |cs|
      ensures cs[i] != cs[j]
    {
      assert ChildOk(t, Done, p, i) && ChildOk(t, Done, p, j);
    }
    DistinctElements(cs);
    forall c | c in Elements(cs)
      ensures c in Kids(t, {p})
    {
      var i :| 0 <= i < |cs| && cs[i] == c;
      assert ChildOk(t, Done, p, i);
    }
    SubsetSize(Elements(cs), Kids(t, {p}));
  }

  lemma {:induction false} KidsOfMany(t: Tree, parents: set<int>)
    requires PagesOk(t, Done, 0)
    requires forall p :: p in parents ==> p in t.info && p in t.store && t.store[p].Internal? && |t.store[p].children| >= MIN_FANOUT
    ensures |Kids(t, parents)| >= MIN_FANOUT * |parents|
  {
    if |parents| > 0 {
      var p := Member(parents);
      assert PageOk(t, Done, 0, p);
      KidsOfMany(t, parents - {p});
      KidsOfOne(t, p);
      assert Kids(t, parents) == Kids(t, parents - {p}) + Kids(t, {p});
    }
  }

  lemma KidsAreOneLevelDown(t: Tree, parents: set<int>, l: nat)
    requires WellFormed(t, Done, 0) && parents <= Level(t, l + 1)
    ensures Kids(t, parents) <= Level(t, l)
  {
    forall c | c in Kids(t, parents)
      ensures c in Level(t, l)
    {
      var p := t.info[c].parent;
      assert p in t.info;
      assert HasParent(t, c);
      var i :| 0 <= i < |t.store[p].children| && t.store[p].children[i] == c;
      assert PageOk(t, Done, 0, p);
      assert ChildOk(t, Done, p, i);
    }
  }

  /** Every level below the root's children is at least 51 times as wide as the one above it. */
  lemma LevelWidth(t: Tree, l: nat)
    requires WellFormed(t, Done, 0) && l + 2 < t.height
    ensures |Level(t, l)| >= MIN_FANOUT * |Level(t, l + 1)|
  {
    forall p | p in Level(t, l + 1)
      ensures p in t.store && t.store[p].Internal? && |t.store[p].children| >= MIN_FANOUT
    {
      assert PageOk(t, Done, 0, p);
    }
    KidsOfMany(t, Level(t, l + 1));
    KidsAreOneLevelDown(t, Level(t, l + 1), l);
    SubsetSize(Kids(t, Level(t, l + 1)), Level(t, l));
  }

  lemma {:induction false} WidthFromTop(t: Tree, l: nat)
    requires WellFormed(t, Done, 0) && l + 1 < t.height
    ensures |Level(t, l)| >= 2 * Pow(MIN_FANOUT, t.height - 2 - l)
    decreases t.height - l
  {
    if l + 2 == t.height {
      assert PageOk(t, Done, 0, t.root);
      KidsOfOne(t, t.root);
      assert {t.root} <= Level(t, l + 1);
      KidsAreOneLevelDown(t, {t.root}, l);
      SubsetSize(Kids(t, {t.root}), Level(t, l));
    } else {
      WidthFromTop(t, l + 1);
      LevelWidth(t, l);
    }
  }

  /** A tree of height h >= 2 has at least 2 * 51^(h - 2) leaves, whatever has been deleted. */
  lemma LeafCount(t: Tree)
    requires WellFormed(t, Done, 0) && t.height >= 2
    ensures |Level(t, 0)| >= 2 * Pow(MIN_FANOUT, t.height - 2)
    ensures 2 * Pow(MIN_FANOUT, t.height - 2) < t.next
  {
    WidthFromTop(t, 0);
    assert 1 in t.info;
    SubsetSize(Level(t, 0), Range(1, t.next));
  }

  lemma {:induction false} PowMonotone(b: nat, e: nat, f: nat)
    requires b >= 1 && e <= f
    ensures 1 <= Pow(b, e) <= Pow(b, f)
    decreases f
  {
    if e < f {
      PowMonotone(b, e, f - 1);
      assert Pow(b, f) == b * Pow(b, f - 1);
      assert Pow(b, f - 1) >= 1;
      assert b * Pow(b, f - 1) >= 1 * Pow(b, f - 1) by {
        MulMonotone(b, Pow(b, f - 1));
      }
    } else if e > 0 {
      PowMonotone(b, e - 1, e - 1);
      MulMonotone(b, Pow(b, e - 1));
    }
  }

  lemma MulMonotone(b: nat, x: nat)
    requires b >= 1
    ensures b * x >= x
  {
  }

  /** With page numbers in a C int the tree never grows above height 7, so the ancestor stack of
      BTREE_MAX_HEIGHT entries never overflows. */
  lemma HeightBound(t: Tree)
    requires WellFormed(t, Done, 0) && t.next <= 0x8000_0000
    ensures t.height <= 7
  {
    assert Pow(MIN_FANOUT, 6) == 51 * 51 * 51 * 51 * 51 * 51;
    if t.height >= 8 {
      LeafCount(t);
      PowMonotone(MIN_FANOUT, 6, t.height - 2);
    }
  }
}
