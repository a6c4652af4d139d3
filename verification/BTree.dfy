/** The B+ tree of `storage-engine/btree.c`: node pages in a file, a meta record, and the loops that
    search, insert and delete.  Every operation is proved against the finite map `contents`. */
module BTreeFile {
  import opened BTreeModel
  import opened BTreeSteps
  import opened BTreeNodes
  import opened BTreeHeight

  const KEY_TYPE_INT := 0
  const PAGE_LIMIT := 0x8000_0000   // page numbers are C ints

  datatype Meta = Meta(root: int, nEntries: int, height: int, keyType: int, nextFree: int)

  predicate IsKey(k: int) {
    KEY_MIN <= k < KEY_SUP
  }

  // ---------------------------------------------------------------- what one page tells a loop

  lemma NodeFacts(t: Tree, pend: Pending, over: int, p: int)
    requires WellFormed(t, pend, over) && p in t.info
    ensures 1 <= p < t.next && p in t.store && PageOk(t, pend, over, p)
    ensures p != over ==> Fits(t.store[p])
    ensures Increasing(t.store[p].keys)
    ensures t.store[p].Leaf? <==> t.info[p].level == 0
  {
    assert PageOk(t, pend, over, p);
  }

  lemma RootFacts(t: Tree, pend: Pending, over: int)
    requires WellFormed(t, pend, over)
    ensures t.root in t.info && t.root >= 1
    ensures t.info[t.root].level + 1 == t.height
    ensures pend.Done? ==> t.info[t.root].lo == KEY_MIN && t.info[t.root].hi == KEY_SUP
    ensures pend.Split? ==> pend.left in t.info && pend.right in t.info && t.info[pend.right].parent == 0
  {
  }

  /** The child that a descent for k enters. */
  lemma ChildFacts(t: Tree, p: int, k: int, at: int)
    requires WellFormed(t, Done, 0) && p in t.info && p in t.store && t.store[p].Internal?
    requires t.info[p].lo <= k < t.info[p].hi && DescendsTo(t.store[p].keys, k, at)
    ensures at < |t.store[p].children|
    ensures var c := t.store[p].children[at];
            && c >= 1 && c in t.info && c != t.root
            && t.info[c].lo <= k < t.info[c].hi
            && t.info[c].level + 1 == t.info[p].level
            && t.info[c].parent == p
  {
    assert PageOk(t, Done, 0, p);
    DescendStep(t, p, k, at);
  }

  lemma LeafFacts(t: Tree, p: int, k: int, m: map<int, int>)
    requires WellFormed(t, Done, 0) && Holds(t, m)
    requires p in t.info && p in t.store && t.store[p].Leaf? && t.info[p].lo <= k < t.info[p].hi
    ensures p < t.next && |t.store[p].keys| == |t.store[p].rowIds|
    ensures k in m <==> k in t.store[p].keys
    ensures forall i :: 0 <= i < |t.store[p].keys| && t.store[p].keys[i] == k ==> k in m && m[k] == t.store[p].rowIds[i]
    ensures exists slot :: 0 <= slot < |t.chain| && t.chain[slot] == p
  {
    assert PageOk(t, Done, 0, p);
    AbsentKey(t, p, k, m);
  }

  // ---------------------------------------------------------------- the ancestor stack

  /** The pages on the way from the root to c, outermost first, are exactly those of s. */
  ghost predicate Ancestors(t: Tree, s: seq<int>, c: int)
    decreases |s|
  {
    && c in t.info
    && t.info[c].level + |s| + 1 == t.height
    && if s == [] then c == t.root
       else
         var p := s[|s| - 1];
         t.info[c].parent == p && c != t.root && Ancestors(t, s[..|s| - 1], p)
  }

  /** A path only depends on the level and the parent of the pages at and above its end. */
  lemma {:induction false} AncestorsFrame(t: Tree, u: Tree, s: seq<int>, c: int)
    requires Ancestors(t, s, c) && u.root == t.root && u.height == t.height
    requires forall x :: x in t.info && t.info[x].level >= t.info[c].level ==>
               x in u.info && u.info[x].level == t.info[x].level && u.info[x].parent == t.info[x].parent
    ensures Ancestors(u, s, c)
    decreases |s|
  {
    if s != [] {
      AncestorsFrame(t, u, s[..|s| - 1], s[|s| - 1]);
    }
  }

  lemma ParentIsAbove(t: Tree, over: int, c: int)
    requires WellFormed(t, Done, over) && c in t.info && c != t.root
    ensures t.info[c].parent in t.info && t.info[t.info[c].parent].level == t.info[c].level + 1
  {
    assert HasParent(t, c);
    var p := t.info[c].parent;
    var i :| 0 <= i < |t.store[p].children| && t.store[p].children[i] == c;
    assert PageOk(t, Done, over, p) && ChildOk(t, Done, p, i);
  }

  /** Splitting p moves only pages below p. */
  lemma AncestorsAfterSplitInternal(t: Tree, p: int, s: seq<int>)
    requires WellFormed(t, Done, p) && OverfullInternal(t, p) && Ancestors(t, s, p)
    ensures Ancestors(SplitInternal(t, p), s, p)
  {
    SplitInternalMoved(t, p);
    forall x | x in t.info && t.info[x].level >= t.info[p].level
      ensures t.info[x].parent != p
    {
      if x != t.root {
        ParentIsAbove(t, p, x);
      }
    }
    AncestorsFrame(t, SplitInternal(t, p), s, p);
  }

  // ---------------------------------------------------------------- the steps of an insert, composed

  lemma PutLeafSteps(t: Tree, p: int, at: nat, k: int, r: int, m: map<int, int>)
    requires WellFormed(t, Done, 0) && Holds(t, m) && k !in m && IsKey(k)
    requires p in t.info && p in t.store && t.store[p].Leaf? && |t.store[p].keys| < ORDER
    requires t.info[p].lo <= k < t.info[p].hi && Gap(t.store[p].keys, k, at)
    ensures |t.store[p].rowIds| == |t.store[p].keys|
    ensures WellFormed(PutLeaf(t, p, at, k, r), Done, 0) && Holds(PutLeaf(t, p, at, k, r), m[k := r])
  {
    assert PageOk(t, Done, 0, p);
    PutLeafWellFormed(t, p, at, k, r);
    PutLeafHolds(t, p, at, k, r, m);
  }

  lemma SplitLeafSteps(t: Tree, p: int, at: nat, k: int, r: int, slot: nat, m: map<int, int>, path: seq<int>)
    requires WellFormed(t, Done, 0) && Holds(t, m) && k !in m && IsKey(k)
    requires p in t.info && p in t.store && t.store[p].Leaf? && |t.store[p].keys| == ORDER
    requires t.info[p].lo <= k < t.info[p].hi && Gap(t.store[p].keys, k, at)
    requires slot < |t.chain| && t.chain[slot] == p && Ancestors(t, path, p)
    ensures |t.store[p].rowIds| == ORDER
    ensures var u := SplitLeaf(PutLeaf(t, p, at, k, r), p, slot);
            WellFormed(u, Split(p, t.next), 0) && Holds(u, m[k := r]) && Ancestors(u, path, p)
  {
    assert PageOk(t, Done, 0, p);
    var put := PutLeaf(t, p, at, k, r);
    PutLeafWellFormed(t, p, at, k, r);
    PutLeafHolds(t, p, at, k, r, m);
    NodeFacts(put, Done, p, p);
    SplitLeafSplit(put, p, slot, m[k := r]);
    RootFacts(t, Done, 0);
    SplitLeafPath(t, p, at, k, r, slot, path);
  }

  lemma SplitLeafSplit(t: Tree, p: int, slot: nat, m: map<int, int>)
    requires WellFormed(t, Done, p) && Holds(t, m) && OverfullLeaf(t, p)
    requires slot < |t.chain| && t.chain[slot] == p
    ensures WellFormed(SplitLeaf(t, p, slot), Split(p, t.next), 0) && Holds(SplitLeaf(t, p, slot), m)
  {
    NodeFacts(t, Done, p, p);
    SplitLeafWellFormed(t, p, slot);
    SplitLeafHolds(t, p, slot, m);
  }

  lemma SplitLeafPath(t: Tree, p: int, at: nat, k: int, r: int, slot: nat, path: seq<int>)
    requires DomainOk(t) && Ancestors(t, path, p)
    requires p in t.store && t.store[p].Leaf? && |t.store[p].keys| == ORDER == |t.store[p].rowIds| && at <= ORDER
    requires slot < |t.chain|
    ensures Ancestors(SplitLeaf(PutLeaf(t, p, at, k, r), p, slot), path, p)
  {
    AncestorsFrame(t, SplitLeaf(PutLeaf(t, p, at, k, r), p, slot), path, p);
  }

  /** The parent page of a split page, ready to take the pending sibling. */
  lemma PendingParent(t: Tree, l: int, r: int, p: int) returns (slot: nat)
    requires WellFormed(t, Split(l, r), 0) && l in t.info && l != t.root && p == t.info[l].parent
    ensures p in t.store && p < t.next && PendingAt(t, l, r, p, slot)
    ensures Gap(t.store[p].keys, t.info[r].lo, slot)
    ensures |t.store[p].children| == |t.store[p].keys| + 1
    ensures Fits(t.store[p]) && Increasing(t.store[p].keys)
  {
    assert HasParent(t, l);
    assert PageOk(t, Split(l, r), 0, p) && PageOk(t, Split(l, r), 0, l) && PageOk(t, Split(l, r), 0, r);
    slot :| 0 <= slot < |t.store[p].children| && t.store[p].children[slot] == l;
    PendingSlot(t, l, r, p, slot);
  }

  lemma AddChildSteps(t: Tree, l: int, r: int, p: int, slot: nat, m: map<int, int>)
    requires WellFormed(t, Split(l, r), 0) && Holds(t, m) && PendingAt(t, l, r, p, slot)
    requires |t.store[p].keys| < ORDER && |t.store[p].children| == |t.store[p].keys| + 1
    ensures WellFormed(PutChild(t, p, slot, r), Done, 0) && Holds(PutChild(t, p, slot, r), m)
  {
    PutChildWellFormed(t, l, r, p, slot);
    PutChildHolds(t, p, slot, r, m);
  }

  lemma SplitParentSteps(t: Tree, l: int, r: int, p: int, slot: nat, m: map<int, int>, path: seq<int>)
    requires WellFormed(t, Split(l, r), 0) && Holds(t, m) && PendingAt(t, l, r, p, slot)
    requires |t.store[p].keys| == ORDER && Ancestors(t, path, p) && t.info[l].parent == p
    ensures |t.store[p].children| == ORDER + 1
    ensures var u := SplitInternal(PutChild(t, p, slot, r), p);
            WellFormed(u, Split(p, t.next), 0) && Holds(u, m) && Ancestors(u, path, p)
  {
    var put := PutChild(t, p, slot, r);
    PutChildWellFormed(t, l, r, p, slot);
    PutChildHolds(t, p, slot, r, m);
    NodeFacts(put, Done, p, p);
    SplitParentPath(t, l, r, p, slot, path);
    SplitInternalWellFormed(put, p);
    SplitInternalHolds(put, p, m);
    AncestorsAfterSplitInternal(put, p, path);
  }

  lemma SplitParentPath(t: Tree, l: int, r: int, p: int, slot: nat, path: seq<int>)
    requires PendingAt(t, l, r, p, slot) && Ancestors(t, path, p)
    requires |t.store[p].children| == |t.store[p].keys| + 1
    ensures Ancestors(PutChild(t, p, slot, r), path, p)
  {
    assert ChildOk(t, Split(l, r), p, slot);
    AncestorsFrame(t, PutChild(t, p, slot, r), path, p);
  }

  class BTree {
    var pages: map<int, Node>    // the node pages of the file, from page 1
    var savedMeta: Meta          // page 0 of the file
    var meta: Meta               // the open handle's copy
    ghost var info: map<int, Info>
    ghost var chain: seq<int>
    ghost var contents: map<int, int>

    ghost function Shape(): Tree
      reads this
    {
      Tree(pages, meta.root, meta.height, meta.nextFree, info, chain)
    }

    ghost predicate Valid()
      reads this
    {
      && savedMeta == meta
      && meta.keyType == KEY_TYPE_INT
      && meta.nEntries == |contents|
      && WellFormed(Shape(), Done, 0)
      && Holds(Shape(), contents)
    }

    /** There are page numbers left for the longest cascade of splits. */
    ghost predicate HasRoom()
      reads this
    {
      meta.nextFree + 8 <= PAGE_LIMIT
    }

    /** btree_init */
    constructor ()
      ensures Valid() && HasRoom()
      ensures contents == map[]
    {
      meta := Meta(1, 0, 1, KEY_TYPE_INT, 2);
      savedMeta := Meta(1, 0, 1, KEY_TYPE_INT, 2);
      pages := map[1 := Leaf([], [], -1)];
      info, chain, contents := EMPTY_TREE.info, EMPTY_TREE.chain, map[];
      new;
      EmptyTreeWellFormed();
    }

    /** btree_read_node */
    method ReadNode(page: int) returns (node: NodeBuffer)
      requires page in pages && Fits(pages[page])
      ensures fresh(node) && fresh(node.keys) && fresh(node.children) && fresh(node.rowIds)
      ensures node.Valid() && node.Value() == pages[page]
    {
      node := new NodeBuffer(pages[page]);
    }

    /** btree_alloc_page: the page starts as zero bytes, which read back as an internal node without
        keys. */
    method AllocPage() returns (page: int)
      modifies this`pages, this`meta, this`savedMeta
      ensures page == old(meta.nextFree)
      ensures meta == old(meta).(nextFree := page + 1) && savedMeta == meta
      ensures pages == old(pages)[page := Internal([], [0])]
    {
      page := meta.nextFree;
      meta := meta.(nextFree := page + 1);
      pages := pages[page := Internal([], [0])];
      savedMeta := meta;
    }

    /** The descent of btree_search and btree_delete: the leaf responsible for key, found with exactly
        `height` page reads. */
    method FindLeaf(key: int) returns (page: int, node: NodeBuffer, ghost pageReads: nat)
      requires Valid() && IsKey(key)
      ensures pageReads == meta.height
      ensures page in info && page in pages && pages[page].Leaf? && info[page].lo <= key < info[page].hi
      ensures fresh(node) && fresh(node.keys) && fresh(node.children) && fresh(node.rowIds)
      ensures node.Valid() && node.Value() == pages[page]
    {
      hide WellFormed, Holds, PageOk;
      ghost var t := Shape();
      RootFacts(t, Done, 0);
      page, pageReads := meta.root, 0;
      while true
        invariant page in info && info[page].lo <= key < info[page].hi
        invariant pageReads + info[page].level + 1 == meta.height
        decreases info[page].level
      {
        NodeFacts(t, Done, 0, page);
        node := ReadNode(page);
        pageReads := pageReads + 1;
        if node.isLeaf {
          return;
        }
        var index := node.ChildIndex(key);
        ChildFacts(t, page, key, index);
        page := node.children[index];
      }
    }

    /** btree_search */
    method Search(key: int) returns (rowId: int)
      requires Valid() && IsKey(key)
      ensures rowId == if key in contents then contents[key] else -1
    {
      hide WellFormed, Holds, PageOk;
      RootFacts(Shape(), Done, 0);
      if meta.root <= 0 || meta.keyType != KEY_TYPE_INT {
        return -1;
      }
      var page, node, pageReads := FindLeaf(key);
      var index := node.FindKey(key);
      LeafFacts(Shape(), page, key, contents);
      return if index < node.nKeys then node.rowIds[index] else -1;
    }

    /** btree_delete: leaves may become empty, separators may become stale. */
    method Delete(key: int) returns (rc: int)
      requires Valid() && IsKey(key)
      modifies this
      ensures Valid()
      ensures rc == if key in old(contents) then 0 else -1
      ensures contents == old(contents) - {key}
      ensures meta == old(meta).(nEntries := |contents|)
    {
      hide WellFormed, Holds, PageOk;
      RootFacts(Shape(), Done, 0);
      if meta.root <= 0 || meta.keyType != KEY_TYPE_INT {
        return -1;
      }
      var page, node, pageReads := FindLeaf(key);
      var index := node.FindKey(key);
      LeafFacts(Shape(), page, key, contents);
      if index == node.nKeys {
        assert contents - {key} == contents;
        return -1;
      }
      RemoveFromLeaf(page, node, key, index);
      return 0;
    }

    /** The deleting branch: entry `index` of leaf `page` goes. */
    method RemoveFromLeaf(page: int, node: NodeBuffer, ghost key: int, index: nat)
      requires Valid() && page in info && page in pages && pages[page].Leaf?
      requires node.Valid() && node.isLeaf && node.Value() == pages[page]
      requires index < node.nKeys && node.keys[index] == key
      modifies this, node, node.keys, node.rowIds
      ensures Valid() && key in old(contents) && contents == old(contents) - {key}
      ensures meta == old(meta).(nEntries := |contents|)
    {
      hide WellFormed, Holds, PageOk, LeafWithout;
      ghost var t := Shape();
      DropEntrySteps(t, page, index, contents);
      RemovalSize(contents, key);
      node.RemoveEntry(index);
      if meta.nEntries > 0 {
        meta := meta.(nEntries := meta.nEntries - 1);
      }
      pages := pages[page := node.Value()];
      savedMeta := meta;
      contents := contents - {key};
      assert Shape() == DropEntry(t, page, index);
    }

    /** The descent of btree_insert, which also stacks the ancestors; BTREE_MAX_HEIGHT is enough. */
    method FindLeafAndPath(key: int, stack: array<int>) returns (page: int, node: NodeBuffer, depth: nat)
      requires Valid() && IsKey(key) && HasRoom() && stack.Length == MAX_HEIGHT
      modifies stack
      ensures page in info && page in pages && pages[page].Leaf? && info[page].lo <= key < info[page].hi
      ensures fresh(node) && fresh(node.keys) && fresh(node.children) && fresh(node.rowIds)
      ensures node.Valid() && node.Value() == pages[page] && Increasing(node.keys[..node.nKeys])
      ensures depth < 7 && Ancestors(Shape(), stack[..depth], page)
    {
      hide WellFormed, Holds, PageOk;
      ghost var t := Shape();
      RootFacts(t, Done, 0);
      HeightBound(t);
      page, depth := meta.root, 0;
      while true
        invariant page in info && info[page].lo <= key < info[page].hi
        invariant depth < 7 && Ancestors(t, stack[..depth], page)
        decreases info[page].level
      {
        NodeFacts(t, Done, 0, page);
        node := ReadNode(page);
        if node.isLeaf {
          return;
        }
        ghost var before := stack[..depth];
        stack[depth] := page;
        depth := depth + 1;
        assert stack[..depth][..depth - 1] == before;
        var index := node.ChildIndex(key);
        ChildFacts(t, page, key, index);
        page := node.children[index];
      }
    }

    /** btree_insert */
    method Insert(key: int, rowId: int) returns (rc: int)
      requires Valid() && IsKey(key) && HasRoom()
      modifies this
      ensures Valid()
      ensures rc == if key in old(contents) then 1 else 0
      ensures rc == 1 ==> unchanged(this)
      ensures rc == 0 ==> contents == old(contents)[key := rowId]
      ensures meta.nextFree <= old(meta.nextFree) + 8
    {
      hide WellFormed, Holds, PageOk, Gap, Ancestors;
      RootFacts(Shape(), Done, 0);
      if meta.root <= 0 || meta.keyType != KEY_TYPE_INT {
        return -1;
      }
      var stack := new int[MAX_HEIGHT];
      var page, node, depth := FindLeafAndPath(key, stack);
      var index := node.FindKey(key);
      LeafFacts(Shape(), page, key, contents);
      if index < node.nKeys {
        return 1;
      }
      if node.nKeys < ORDER {
        AddToLeaf(page, node, key, rowId);
        return 0;
      }
      var right, separator := SplitFullLeaf(page, node, key, rowId, stack[..depth]);
      PushUp(stack, depth, page, separator, right);
      meta := meta.(nEntries := meta.nEntries + 1);
      savedMeta := meta;
      return 0;
    }

    /** The easy branch of an insert: leaf `page` has room. */
    method AddToLeaf(page: int, node: NodeBuffer, key: int, rowId: int)
      requires Valid() && IsKey(key) && key !in contents
      requires page in info && page in pages && pages[page].Leaf? && info[page].lo <= key < info[page].hi
      requires node.Valid() && node.isLeaf && node.nKeys < ORDER && node.Value() == pages[page]
      requires Increasing(node.keys[..node.nKeys]) && key !in node.keys[..node.nKeys]
      modifies this, node, node.keys, node.rowIds
      ensures Valid() && contents == old(contents)[key := rowId]
      ensures meta == old(meta).(nEntries := |contents|)
    {
      hide WellFormed, Holds, PageOk, Gap, LeafWith;
      ghost var t := Shape();
      var at := node.LeafInsertSorted(key, rowId);
      PutLeafSteps(t, page, at, key, rowId, contents);
      meta := meta.(nEntries := meta.nEntries + 1);
      pages := pages[page := node.Value()];
      savedMeta := meta;
      contents := contents[key := rowId];
      assert Shape() == PutLeaf(t, page, at, key, rowId);
    }

    /** The page-splitting branch of an insert into the full leaf `page`, already read into `node`. */
    method SplitFullLeaf(page: int, node: NodeBuffer, key: int, rowId: int, ghost path: seq<int>)
      returns (right: int, separator: int)
      requires Valid() && IsKey(key) && key !in contents
      requires page in info && page in pages && pages[page].Leaf? && Ancestors(Shape(), path, page)
      requires info[page].lo <= key < info[page].hi
      requires node.Valid() && node.isLeaf && node.nKeys == ORDER && node.Value() == pages[page]
      requires Increasing(node.keys[..node.nKeys]) && key !in node.keys[..node.nKeys]
      modifies this, node, node.keys, node.rowIds
      ensures WellFormed(Shape(), Split(page, right), 0) && Ancestors(Shape(), path, page)
      ensures contents == old(contents)[key := rowId] && Holds(Shape(), contents)
      ensures right in info && separator == info[right].lo
      ensures meta == old(meta).(nextFree := old(meta.nextFree) + 1)
    {
      hide WellFormed, Holds, PageOk, Ancestors, LeafWith, LowerLeaf, UpperLeaf, Gap, Increasing;
      ghost var t := Shape();
      LeafFacts(t, page, key, contents);
      ghost var slot :| 0 <= slot < |chain| && chain[slot] == page;
      var at;
      right, separator, at := SplitLeafPages(page, node, key, rowId);
      SplitLeafSteps(t, page, at, key, rowId, slot, contents, path);
      ghost var u := SplitLeaf(PutLeaf(t, page, at, key, rowId), page, slot);
      info, chain, contents := u.info, u.chain, contents[key := rowId];
      assert pages == u.store;
    }

    /** The page writes of a leaf split. */
    method SplitLeafPages(page: int, node: NodeBuffer, key: int, rowId: int)
      returns (right: int, separator: int, at: nat)
      requires page in pages && page != meta.nextFree
      requires node.Valid() && node.isLeaf && node.nKeys == ORDER && node.Value() == pages[page]
      requires Increasing(node.keys[..node.nKeys]) && key !in node.keys[..node.nKeys]
      modifies this`pages, this`meta, this`savedMeta, node, node.keys, node.rowIds
      ensures at <= ORDER && Gap(old(pages[page]).keys, key, at)
      ensures right == old(meta.nextFree) && meta == old(meta).(nextFree := right + 1)
      ensures var n := LeafWith(old(pages[page]), at, key, rowId);
              pages == old(pages)[page := LowerLeaf(n, right)][right := UpperLeaf(n, n.nextLeaf)] && separator == n.keys[MID]
    {
      hide LeafWith;
      var rightNode;
      rightNode, at := node.SplitLeaf(key, rowId);
      right := AllocPage();
      separator := rightNode.keys[0];
      rightNode.SetNextLeaf(node.nextLeaf);
      node.SetNextLeaf(right);
      pages := pages[page := node.Value()];
      pages := pages[right := rightNode.Value()];
    }

    /** Register `right` in the parent page of its left sibling, which has a slot free. */
    method AddChild(page: int, parent: NodeBuffer, left: int, separator: int, right: int)
      requires WellFormed(Shape(), Split(left, right), 0) && Holds(Shape(), contents)
      requires left in info && right in info && left != meta.root && page == info[left].parent && separator == info[right].lo
      requires page in pages && parent.Valid() && parent.Value() == pages[page] && parent.nKeys < ORDER
      modifies this`pages, this`info, parent, parent.keys, parent.children
      ensures WellFormed(Shape(), Done, 0) && Holds(Shape(), contents)
    {
      hide WellFormed, Holds, PageOk, PendingOk, InternalWith;
      ghost var t := Shape();
      ghost var slot := PendingParent(t, left, right, page);
      AddChildSteps(t, left, right, page, slot, contents);
      var at := parent.InternalInsertSorted(separator, right);
      GapUnique(t.store[page].keys, separator, at, slot);
      pages := pages[page := parent.Value()];
      info := PutChild(t, page, slot, right).info;
      assert Shape() == PutChild(t, page, slot, right);
    }

    /** Split the full parent page of `left`, leaving its own new right sibling pending. */
    method SplitParent(page: int, parent: NodeBuffer, left: int, separator: int, right: int, ghost path: seq<int>)
      returns (newRight: int, up: int)
      requires WellFormed(Shape(), Split(left, right), 0) && Holds(Shape(), contents)
      requires left in info && right in info && left != meta.root && page == info[left].parent && separator == info[right].lo
      requires page in pages && parent.Valid() && parent.Value() == pages[page] && parent.nKeys == ORDER
      requires Ancestors(Shape(), path, page)
      modifies this`pages, this`meta, this`savedMeta, this`info, parent, parent.keys, parent.children
      ensures WellFormed(Shape(), Split(page, newRight), 0) && Holds(Shape(), contents)
      ensures Ancestors(Shape(), path, page)
      ensures newRight in info && up == info[newRight].lo
      ensures meta == old(meta).(nextFree := old(meta.nextFree) + 1)
    {
      hide WellFormed, Holds, PageOk, PendingOk, Ancestors, InternalWith, LowerInternal, UpperInternal;
      ghost var t := Shape();
      ghost var slot := PendingParent(t, left, right, page);
      SplitParentSteps(t, left, right, page, slot, contents, path);
      ghost var u := SplitInternal(PutChild(t, page, slot, right), page);
      var at;
      newRight, up, at := SplitInternalPages(page, parent, separator, right);
      GapUnique(t.store[page].keys, separator, at, slot);
      info := u.info;
      assert pages == u.store;
      RootFacts(u, Split(page, newRight), 0);
    }

    /** The page writes of an internal split. */
    method SplitInternalPages(page: int, parent: NodeBuffer, separator: int, right: int)
      returns (newRight: int, up: int, at: nat)
      requires page in pages && page != meta.nextFree
      requires parent.Valid() && !parent.isLeaf && parent.nKeys == ORDER && parent.Value() == pages[page]
      requires Increasing(parent.keys[..parent.nKeys]) && separator !in parent.keys[..parent.nKeys]
      modifies this`pages, this`meta, this`savedMeta, parent, parent.keys, parent.children
      ensures Gap(old(pages[page]).keys, separator, at)
      ensures newRight == old(meta.nextFree) && meta == old(meta).(nextFree := newRight + 1)
      ensures var n := InternalWith(old(pages[page]), at, separator, right);
              pages == old(pages)[page := LowerInternal(n)][newRight := UpperInternal(n)] && up == n.keys[MID]
    {
      hide InternalWith, LowerInternal, UpperInternal;
      var rightNode;
      rightNode, up, at := parent.SplitInternal(separator, right);
      newRight := AllocPage();
      pages := pages[page := parent.Value()];
      pages := pages[newRight := rightNode.Value()];
    }

    /** The loop of an insert that hands separators up the ancestor stack. */
    method PushUp(stack: array<int>, size: nat, leftPage: int, separatorKey: int, rightPage: int)
      requires size <= stack.Length
      requires WellFormed(Shape(), Split(leftPage, rightPage), 0) && Holds(Shape(), contents)
      requires Ancestors(Shape(), stack[..size], leftPage)
      requires rightPage in info && separatorKey == info[rightPage].lo
      modifies this`pages, this`meta, this`savedMeta, this`info
      ensures WellFormed(Shape(), Done, 0) && Holds(Shape(), contents)
      ensures meta.keyType == old(meta.keyType) && meta.nEntries == old(meta.nEntries)
      ensures meta.nextFree <= old(meta.nextFree) + size + 1
    {
      hide WellFormed, Holds, PageOk;
      var left, separator, right, depth := leftPage, separatorKey, rightPage, size;
      while depth > 0
        invariant 0 <= depth <= size
        invariant WellFormed(Shape(), Split(left, right), 0) && Holds(Shape(), contents)
        invariant Ancestors(Shape(), stack[..depth], left) && right in info && separator == info[right].lo
        invariant meta == old(meta).(nextFree := old(meta.nextFree) + size - depth)
      {
        depth := depth - 1;
        var current := stack[depth];
        assert stack[..depth + 1][..depth] == stack[..depth];
        ghost var slot := PendingParent(Shape(), left, right, current);
        var parent := ReadNode(current);
        if parent.nKeys < ORDER {
          AddChild(current, parent, left, separator, right);
          return;
        }
        var newRight, up := SplitParent(current, parent, left, separator, right, stack[..depth]);
        left, separator, right := current, up, newRight;
      }
      ghost var t := Shape();
      GrowRootSteps(t, right, contents);
      var newRoot := AllocPage();
      pages := pages[newRoot := Internal([separator], [left, right])];
      meta := meta.(root := newRoot, height := meta.height + 1);
      info := GrowRoot(t, right).info;
      assert Shape() == GrowRoot(t, right);
    }
  }

  lemma RemovalSize(m: map<int, int>, k: int)
    requires k in m
    ensures |m - {k}| == |m| - 1
  {
    assert m == (m - {k})[k := m[k]];
  }

  lemma DropEntrySteps(t: Tree, p: int, at: nat, m: map<int, int>)
    requires WellFormed(t, Done, 0) && Holds(t, m)
    requires p in t.info && p in t.store && t.store[p].Leaf? && at < |t.store[p].keys|
    ensures |t.store[p].keys| == |t.store[p].rowIds|
    ensures t.store[p].keys[at] in m
    ensures WellFormed(DropEntry(t, p, at), Done, 0) && Holds(DropEntry(t, p, at), m - {t.store[p].keys[at]})
  {
    assert PageOk(t, Done, 0, p);
    DropEntryWellFormed(t, p, at);
    DropEntryHolds(t, p, at, m);
  }

  lemma GrowRootSteps(t: Tree, r: int, m: map<int, int>)
    requires WellFormed(t, Split(t.root, r), 0) && Holds(t, m)
    ensures t.root in t.info && r in t.info
    ensures WellFormed(GrowRoot(t, r), Done, 0) && Holds(GrowRoot(t, r), m)
  {
    GrowRootWellFormed(t, r);
    GrowRootHolds(t, r, m);
  }
}
