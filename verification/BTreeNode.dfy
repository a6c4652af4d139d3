/** One B+ tree node in memory: the BTreeNode struct of `storage-engine/btree.h` with its fixed
    arrays, and the in-place edits that `storage-engine/btree.c` makes on it. */
module BTreeNodes {
  import opened BTreeModel

  ghost predicate Fits(n: Node) {
    && |n.keys| <= ORDER
    && (n.Leaf? ==> |n.rowIds| == |n.keys|)
    && (n.Internal? ==> |n.children| == |n.keys| + 1)
  }

  lemma GapUnique(keys: seq<int>, k: int, a: int, b: int)
    requires Gap(keys, k, a) && Gap(keys, k, b)
    ensures a == b
  {
    var i := if a < b then a else b;
    var _ := if i < |keys| then keys[i] else 0;
  }

  /** In a sorted node it is enough to compare with the last key below the gap. */
  lemma GapBelow(keys: seq<int>, k: int, at: nat)
    requires Increasing(keys) && k !in keys && at <= |keys|
    requires at > 0 ==> keys[at - 1] <= k
    requires forall i :: at <= i < |keys| ==> k < keys[i]
    ensures Gap(keys, k, at)
  {
    forall i | 0 <= i < at
      ensures keys[i] < k
    {
      assert i < at - 1 ==> keys[i] < keys[at - 1];
    }
  }

  lemma IsInsertAt(a: seq<int>, s: seq<int>, at: nat, x: int)
    requires |a| == |s| + 1 && at <= |s|
    requires a[at] == x
    requires forall i :: 0 <= i < at ==> a[i] == s[i]
    requires forall i {:trigger a[i]} :: at < i < |a| ==> a[i] == s[i - 1]
    ensures a == InsertAt(s, at, x)
  {
    assert a[at + 1..] == s[at..];
    assert a == a[..at] + [a[at]] + a[at + 1..];
  }

  lemma IsRemoveAt(a: seq<int>, s: seq<int>, at: nat)
    requires |a| + 1 == |s| && at < |s|
    requires forall i :: 0 <= i < at ==> a[i] == s[i]
    requires forall i {:trigger a[i]} :: at <= i < |a| ==> a[i] == s[i + 1]
    ensures a == RemoveAt(s, at)
  {
    assert a[at..] == s[at + 1..];
    assert a == a[..at] + a[at..];
  }

  /** The entries of src with x put in at position `at`: the temporary arrays of a split. */
  method WithEntry(src: array<int>, n: nat, at: nat, x: int) returns (temp: array<int>)
    requires at <= n <= src.Length
    ensures fresh(temp) && temp[..] == InsertAt(src[..n], at, x)
  {
    temp := new int[n + 1];
    var j := 0;
    for i := 0 to n + 1
      invariant j == if i <= at then i else i - 1
      invariant forall y :: 0 <= y < i ==> temp[y] == InsertAt(src[..n], at, x)[y]
    {
      if i == at {
        temp[i] := x;
      } else {
        temp[i] := src[j];
        j := j + 1;
      }
    }
  }

  /** As WithEntry, for the children of a split internal node. */
  method WithChild(src: array<int>, n: nat, at: nat, x: int) returns (temp: array<int>)
    requires at < n <= src.Length
    ensures fresh(temp) && temp[..] == InsertAt(src[..n], at + 1, x)
  {
    temp := new int[n + 1];
    for i := 0 to n + 1
      invariant forall y :: 0 <= y < i ==> temp[y] == InsertAt(src[..n], at + 1, x)[y]
    {
      if i <= at {
        temp[i] := src[i];
      } else if i == at + 1 {
        temp[i] := x;
      } else {
        temp[i] := src[i - 1];
      }
    }
  }

  /** Make room at position `from` by moving the entries from there to `to` one place up. */
  method ShiftUp(a: array<int>, from: nat, to: nat)
    requires from <= to < a.Length
    modifies a
    ensures a[..from] == old(a[..from]) && a[from + 1..to + 1] == old(a[from..to])
  {
    var i := to;
    while i > from
      invariant from <= i <= to
      invariant forall j :: 0 <= j <= i ==> a[j] == old(a[j])
      invariant forall j :: i < j <= to ==> a[j] == old(a[j - 1])
    {
      a[i] := a[i - 1];
      i := i - 1;
    }
  }

  /** Overwrite dst with `count` entries of src, and zeros after them. */
  method Refill(dst: array<int>, src: array<int>, from: nat, count: nat)
    requires dst != src && count <= dst.Length && from + count <= src.Length
    modifies dst
    ensures dst[..count] == src[..][from..from + count]
  {
    forall i | 0 <= i < dst.Length {
      dst[i] := 0;
    }
    for i := 0 to count
      invariant forall y :: 0 <= y < i ==> dst[y] == src[from + y]
    {
      dst[i] := src[from + i];
    }
  }

  /** leaf_insert_sorted on the two arrays of a leaf with n entries. */
  method InsertEntry(keys: array<int>, rowIds: array<int>, n: nat, key: int, rowId: int) returns (at: nat)
    requires keys != rowIds && n < keys.Length && n < rowIds.Length
    requires Increasing(keys[..n]) && key !in keys[..n]
    modifies keys, rowIds
    ensures Gap(old(keys[..n]), key, at)
    ensures keys[..n + 1] == InsertAt(old(keys[..n]), at, key)
    ensures rowIds[..n + 1] == InsertAt(old(rowIds[..n]), at, rowId)
  {
    ghost var before, rowsBefore := keys[..n], rowIds[..n];
    at := n;
    while at > 0 && keys[at - 1] > key
      invariant at <= n
      invariant forall i :: 0 <= i < at ==> keys[i] == before[i]
      invariant forall i :: 0 <= i < at ==> rowIds[i] == rowsBefore[i]
      invariant forall i :: at < i <= n ==> keys[i] == before[i - 1]
      invariant forall i :: at < i <= n ==> rowIds[i] == rowsBefore[i - 1]
      invariant forall i :: at <= i < n ==> key < before[i]
    {
      keys[at] := keys[at - 1];
      rowIds[at] := rowIds[at - 1];
      at := at - 1;
    }
    keys[at] := key;
    rowIds[at] := rowId;
    IsInsertAt(keys[..n + 1], before, at, key);
    IsInsertAt(rowIds[..n + 1], rowsBefore, at, rowId);
    assert at > 0 ==> before[at - 1] <= key;
    GapBelow(before, key, at);
  }

  /** The shifting part of internal_insert_sorted on the two arrays of a node with n keys. */
  method InsertChild(keys: array<int>, children: array<int>, n: nat, at: nat, key: int, rightChild: int)
    requires keys != children && at <= n < keys.Length && n + 1 < children.Length
    modifies keys, children
    ensures keys[..n + 1] == InsertAt(old(keys[..n]), at, key)
    ensures children[..n + 2] == InsertAt(old(children[..n + 1]), at + 1, rightChild)
  {
    ShiftUp(keys, at, n);
    ShiftUp(children, at + 1, n + 1);
    keys[at] := key;
    children[at + 1] := rightChild;
    assert keys[..n + 1] == keys[..at] + [keys[at]] + keys[at + 1..n + 1];
    assert children[..n + 2] == children[..at + 1] + [children[at + 1]] + children[at + 2..n + 2];
  }

  /** Close the hole left by entry `at` of a leaf with n entries. */
  method RemoveEntryAt(keys: array<int>, rowIds: array<int>, n: nat, at: nat)
    requires keys != rowIds && at < n <= keys.Length && n <= rowIds.Length
    modifies keys, rowIds
    ensures keys[..n - 1] == RemoveAt(old(keys[..n]), at)
    ensures rowIds[..n - 1] == RemoveAt(old(rowIds[..n]), at)
  {
    ghost var before, rowsBefore := keys[..n], rowIds[..n];
    var j := at;
    while j < n - 1
      invariant at <= j <= n - 1
      invariant forall i :: 0 <= i < at || j <= i < n ==> keys[i] == before[i]
      invariant forall i :: 0 <= i < at || j <= i < n ==> rowIds[i] == rowsBefore[i]
      invariant forall i :: at <= i < j ==> keys[i] == before[i + 1]
      invariant forall i :: at <= i < j ==> rowIds[i] == rowsBefore[i + 1]
    {
      keys[j] := keys[j + 1];
      rowIds[j] := rowIds[j + 1];
      j := j + 1;
    }
    keys[n - 1] := 0;
    rowIds[n - 1] := 0;
    IsRemoveAt(keys[..n - 1], before, at);
    IsRemoveAt(rowIds[..n - 1], rowsBefore, at);
  }

  /** Split the n entries of a and the new entry x: a keeps the first `keep`, b gets those from
      `from` on. */
  method SplitEntries(a: array<int>, b: array<int>, temp: array<int>, keep: nat, from: nat)
    requires a != b && a != temp && b != temp
    requires keep <= a.Length && keep <= from <= temp.Length && temp.Length - from <= b.Length
    modifies a, b
    ensures a[..keep] == temp[..][..keep]
    ensures b[..temp.Length - from] == temp[..][from..]
  {
    Refill(a, temp, 0, keep);
    Refill(b, temp, from, temp.Length - from);
  }

  class NodeBuffer {
    var isLeaf: bool
    var nKeys: nat
    var nextLeaf: int
    const keys: array<int>
    const children: array<int>
    const rowIds: array<int>

    ghost predicate Valid()
      reads this
    {
      && keys.Length == ORDER && children.Length == ORDER + 1 && rowIds.Length == ORDER
      && keys != children && keys != rowIds && children != rowIds
      && nKeys <= ORDER
    }

    /** What a reader that respects n_keys sees. */
    function Value(): Node
      requires Valid()
      reads this, keys, children, rowIds
    {
      if isLeaf then Leaf(keys[..nKeys], rowIds[..nKeys], nextLeaf)
      else Internal(keys[..nKeys], children[..nKeys + 1])
    }

    constructor (n: Node)
      requires Fits(n)
      ensures Valid() && Value() == n
      ensures fresh(keys) && fresh(children) && fresh(rowIds)
    {
      isLeaf, nKeys := n.Leaf?, |n.keys|;
      nextLeaf := if n.Leaf? then n.nextLeaf else -1;
      keys := new int[ORDER](i => if 0 <= i < |n.keys| then n.keys[i] else 0);
      children := new int[ORDER + 1](i => if n.Internal? && 0 <= i < |n.children| then n.children[i] else 0);
      rowIds := new int[ORDER](i => if n.Leaf? && 0 <= i < |n.rowIds| then n.rowIds[i] else 0);
      new;
      if n.Leaf? {
        assert keys[..nKeys] == n.keys && rowIds[..nKeys] == n.rowIds;
      } else {
        assert keys[..nKeys] == n.keys && children[..nKeys + 1] == n.children;
      }
    }

    /** The slot a descent for `key` follows. */
    method ChildIndex(key: int) returns (index: nat)
      requires Valid() && Increasing(keys[..nKeys])
      ensures DescendsTo(keys[..nKeys], key, index)
    {
      index := 0;
      while index < nKeys && key >= keys[index]
        invariant index <= nKeys
        invariant forall i :: 0 <= i < index ==> keys[i] <= key
      {
        index := index + 1;
      }
      if index < nKeys {
        assert forall i :: index < i < nKeys ==> keys[..nKeys][index] < keys[..nKeys][i];
      }
    }

    /** The slot that holds `key`, or n_keys. */
    method FindKey(key: int) returns (index: nat)
      requires Valid()
      ensures index <= nKeys
      ensures index == nKeys ==> key !in keys[..nKeys]
      ensures index < nKeys ==> keys[index] == key
    {
      index := 0;
      while index < nKeys && keys[index] != key
        invariant index <= nKeys
        invariant key !in keys[..index]
      {
        index := index + 1;
      }
    }

    /** The first slot whose key is not below `key`. */
    method InsertIndex(key: int) returns (index: nat)
      requires Valid() && Increasing(keys[..nKeys]) && key !in keys[..nKeys]
      ensures Gap(keys[..nKeys], key, index)
    {
      index := 0;
      while index < nKeys && keys[index] < key
        invariant index <= nKeys
        invariant forall i :: 0 <= i < index ==> keys[i] < key
      {
        index := index + 1;
      }
      if index < nKeys {
        assert keys[..nKeys][index] == keys[index];
        assert forall i :: index < i < nKeys ==> keys[..nKeys][index] < keys[..nKeys][i];
      }
    }

    method LeafInsertSorted(key: int, rowId: int) returns (at: nat)
      requires Valid() && isLeaf && nKeys < ORDER && Increasing(keys[..nKeys]) && key !in keys[..nKeys]
      modifies this`nKeys, keys, rowIds
      ensures Valid()
      ensures Gap(old(keys[..nKeys]), key, at)
      ensures Value() == LeafWith(old(Value()), at, key, rowId)
    {
      at := InsertEntry(keys, rowIds, nKeys, key, rowId);
      nKeys := nKeys + 1;
    }

    method InternalInsertSorted(key: int, rightChild: int) returns (at: nat)
      requires Valid() && !isLeaf && nKeys < ORDER && Increasing(keys[..nKeys]) && key !in keys[..nKeys]
      modifies this`nKeys, keys, children
      ensures Valid()
      ensures Gap(old(keys[..nKeys]), key, at)
      ensures Value() == InternalWith(old(Value()), at, key, rightChild)
    {
      at := InsertIndex(key);
      InsertChild(keys, children, nKeys, at, key, rightChild);
      nKeys := nKeys + 1;
    }

    /** Distribute a full leaf and one more entry over this node and a new right node.  The links
        are set by the caller, once the page of the right node is known. */
    method SplitLeaf(key: int, rowId: int) returns (right: NodeBuffer, at: nat)
      requires Valid() && isLeaf && nKeys == ORDER && Increasing(keys[..nKeys]) && key !in keys[..nKeys]
      modifies this`nKeys, keys, rowIds
      ensures Valid() && right.Valid()
      ensures fresh(right) && fresh(right.keys) && fresh(right.children) && fresh(right.rowIds)
      ensures Gap(old(keys[..nKeys]), key, at)
      ensures Value() == LowerLeaf(LeafWith(old(Value()), at, key, rowId), nextLeaf)
      ensures right.Value() == UpperLeaf(LeafWith(old(Value()), at, key, rowId), -1)
      ensures right.keys[0] == LeafWith(old(Value()), at, key, rowId).keys[MID]
    {
      var insertIndex := InsertIndex(key);
      at := insertIndex;
      var tempKeys := WithEntry(keys, nKeys, insertIndex, key);
      var tempRowIds := WithEntry(rowIds, nKeys, insertIndex, rowId);
      right := new NodeBuffer(Leaf([], [], -1));
      nKeys, right.nKeys := MID, ORDER + 1 - MID;
      SplitEntries(keys, right.keys, tempKeys, MID, MID);
      SplitEntries(rowIds, right.rowIds, tempRowIds, MID, MID);
    }

    /** Distribute a full internal node, one more key and the child to its right over this node and
        a new right node; the middle key `up` moves to the level above. */
    method SplitInternal(key: int, rightChild: int) returns (right: NodeBuffer, up: int, at: nat)
      requires Valid() && !isLeaf && nKeys == ORDER && Increasing(keys[..nKeys]) && key !in keys[..nKeys]
      modifies this`nKeys, keys, children
      ensures Valid() && right.Valid()
      ensures fresh(right) && fresh(right.keys) && fresh(right.children) && fresh(right.rowIds)
      ensures Gap(old(keys[..nKeys]), key, at)
      ensures Value() == LowerInternal(InternalWith(old(Value()), at, key, rightChild))
      ensures right.Value() == UpperInternal(InternalWith(old(Value()), at, key, rightChild))
      ensures up == InternalWith(old(Value()), at, key, rightChild).keys[MID]
    {
      var insertIndex := InsertIndex(key);
      at := insertIndex;
      var tempKeys := WithEntry(keys, nKeys, insertIndex, key);
      var tempChildren := WithChild(children, nKeys + 1, insertIndex, rightChild);
      right := new NodeBuffer(Internal([], [0]));
      nKeys, right.nKeys, up := MID, ORDER - MID, tempKeys[MID];
      SplitEntries(keys, right.keys, tempKeys, MID, MID + 1);
      SplitEntries(children, right.children, tempChildren, MID + 1, MID + 1);
    }

    method RemoveEntry(at: nat)
      requires Valid() && isLeaf && at < nKeys
      modifies this`nKeys, keys, rowIds
      ensures Valid()
      ensures Value() == LeafWithout(old(Value()), at)
    {
      RemoveEntryAt(keys, rowIds, nKeys, at);
      nKeys := nKeys - 1;
    }

    method SetNextLeaf(page: int)
      requires Valid() && isLeaf
      modifies this`nextLeaf
      ensures Valid() && isLeaf && old(Value()).Leaf? && Value() == old(Value()).(nextLeaf := page)
    {
      nextLeaf := page;
    }
  }
}
