/** The shape of the B+ tree file of `storage-engine/btree.c`, and the five page-level steps that
    `btree_insert` is made of.

    The file is a flat map from page numbers to nodes.  Instead of a recursive tree, every page
    carries a ghost `Info`: its level above the leaves, the half-open key range [lo, hi) it is
    responsible for, and its parent page.  All well-formedness conditions are then local to a page
    and its direct children, and a left-to-right `chain` of the leaves orders the ranges. */
module BTreeModel {

  const ORDER := 100       // BTREE_ORDER: most keys in a node
  const MID := 50          // BTREE_ORDER / 2
  const MAX_HEIGHT := 32   // BTREE_MAX_HEIGHT: size of the ancestor stack
  const KEY_MIN := -0x8000_0000
  const KEY_SUP := 0x8000_0000   // one more than the largest int key

  /** The part of a BTreeNode that its n_keys field makes meaningful. */
  datatype Node =
    | Leaf(keys: seq<int>, rowIds: seq<int>, nextLeaf: int)
    | Internal(keys: seq<int>, children: seq<int>)

  datatype Info = Info(level: nat, lo: int, hi: int, parent: int)

  datatype Tree = Tree(store: map<int, Node>, root: int, height: int, next: int,
                       info: map<int, Info>, chain: seq<int>)

  /** `Split(l, r)`: page l has been split, r is its new right sibling, and no parent knows r yet. */
  datatype Pending = Done | Split(left: int, right: int)

  // ---------------------------------------------------------------- sequences

  predicate Increasing(s: seq<int>) {
    forall i, j :: 0 <= i < j < |s| ==> s[i] < s[j]
  }

  function InsertAt<T>(s: seq<T>, at: nat, x: T): (r: seq<T>)
    requires at <= |s|
    ensures |r| == |s| + 1
  {
    s[..at] + [x] + s[at..]
  }

  function RemoveAt<T>(s: seq<T>, at: nat): seq<T>
    requires at < |s|
  {
    s[..at] + s[at + 1..]
  }

  /** `at` separates the keys below k from the keys above it; k itself is absent. */
  predicate Gap(keys: seq<int>, k: int, at: int) {
    && 0 <= at <= |keys|
    && (forall i :: 0 <= i < at ==> keys[i] < k)
    && (forall i :: at <= i < |keys| ==> k < keys[i])
  }

  /** `at` is the child slot that a descent for k takes: the number of keys not above k. */
  predicate DescendsTo(keys: seq<int>, k: int, at: int) {
    && 0 <= at <= |keys|
    && (forall i :: 0 <= i < at ==> keys[i] <= k)
    && (forall i :: at <= i < |keys| ==> k < keys[i])
  }

  // ---------------------------------------------------------------- edits of one node

  function LeafWith(n: Node, at: nat, k: int, r: int): (n': Node)
    requires n.Leaf? && at <= |n.keys| == |n.rowIds|
    ensures n'.Leaf? && |n'.keys| == |n'.rowIds| == |n.keys| + 1 && n'.nextLeaf == n.nextLeaf
  {
    Leaf(InsertAt(n.keys, at, k), InsertAt(n.rowIds, at, r), n.nextLeaf)
  }

  function LeafWithout(n: Node, at: nat): Node
    requires n.Leaf? && at < |n.keys| == |n.rowIds|
  {
    Leaf(RemoveAt(n.keys, at), RemoveAt(n.rowIds, at), n.nextLeaf)
  }

  /** The halves of an overfull leaf. */
  function LowerLeaf(n: Node, next: int): Node
    requires n.Leaf? && MID < |n.keys| == |n.rowIds|
  {
    Leaf(n.keys[..MID], n.rowIds[..MID], next)
  }

  function UpperLeaf(n: Node, next: int): Node
    requires n.Leaf? && MID < |n.keys| == |n.rowIds|
  {
    Leaf(n.keys[MID..], n.rowIds[MID..], next)
  }

  /** `c` becomes the child just after slot `at`, separated by sep. */
  function InternalWith(n: Node, at: nat, sep: int, c: int): (n': Node)
    requires n.Internal? && at <= |n.keys| && |n.children| == |n.keys| + 1
    ensures n'.Internal? && |n'.keys| == |n.keys| + 1 && |n'.children| == |n.children| + 1
  {
    Internal(InsertAt(n.keys, at, sep), InsertAt(n.children, at + 1, c))
  }

  /** The halves of an overfull internal node; key number MID goes up. */
  function LowerInternal(n: Node): Node
    requires n.Internal? && MID < |n.keys| && |n.children| == |n.keys| + 1
  {
    Internal(n.keys[..MID], n.children[..MID + 1])
  }

  function UpperInternal(n: Node): Node
    requires n.Internal? && MID < |n.keys| && |n.children| == |n.keys| + 1
  {
    Internal(n.keys[MID + 1..], n.children[MID + 1..])
  }

  /** Of the 101 entries of an overfull leaf the lower half gets the first 50; of the 101 keys and 102
      children of an overfull internal node it gets the first 50 and 51, and the upper half all behind the
      middle key. */
  lemma Halves(n: Node, next: int)
    requires if n.Leaf? then |n.keys| == |n.rowIds| == 101 else |n.keys| == 101 && |n.children| == 102
    ensures n.Leaf? ==>
              && LowerLeaf(n, next) == Leaf(n.keys[..50], n.rowIds[..50], next)
              && UpperLeaf(n, next) == Leaf(n.keys[50..], n.rowIds[50..], next)
    ensures n.Internal? ==>
              && LowerInternal(n) == Internal(n.keys[..50], n.children[..51])
              && UpperInternal(n) == Internal(n.keys[51..], n.children[51..])
  {
  }

  // ---------------------------------------------------------------- well-formed trees

  /** The i-th boundary of an internal node: lo, then its keys, then hi. */
  function Fence(keys: seq<int>, lo: int, hi: int, i: int): int {
    if i <= 0 then lo else if i > |keys| then hi else keys[i - 1]
  }

  /** The upper end of page c as its parent still sees it. */
  ghost function SeenHi(t: Tree, pend: Pending, c: int): int
    requires c in t.info
    requires pend.Split? ==> pend.right in t.info
  {
    if pend.Split? && c == pend.left then t.info[pend.right].hi else t.info[c].hi
  }

  ghost predicate ChildOk(t: Tree, pend: Pending, p: int, i: int)
    requires p in t.info && p in t.store && t.store[p].Internal?
    requires pend.Split? ==> pend.right in t.info
    requires 0 <= i < |t.store[p].children|
  {
    var keys, c, up := t.store[p].keys, t.store[p].children[i], t.info[p];
    && c in t.info
    && t.info[c].level + 1 == up.level
    && t.info[c].parent == p
    && t.info[c].lo == Fence(keys, up.lo, up.hi, i)
    && SeenHi(t, pend, c) == Fence(keys, up.lo, up.hi, i + 1)
  }

  /** `over` is a page that may hold one key too many, or 0. */
  ghost predicate PageOk(t: Tree, pend: Pending, over: int, p: int)
    requires p in t.info
    requires pend.Split? ==> pend.right in t.info
  {
    && p in t.store
    && t.info[p].lo < t.info[p].hi
    && |t.store[p].keys| <= (if p == over then ORDER + 1 else ORDER)
    && Increasing(t.store[p].keys)
    && match t.store[p]
       case Leaf(keys, rowIds, _) =>
         && t.info[p].level == 0
         && |rowIds| == |keys|
         && (forall i :: 0 <= i < |keys| ==> t.info[p].lo <= keys[i] < t.info[p].hi)
       case Internal(keys, children) =>
         && t.info[p].level >= 1
         && |children| == |keys| + 1
         && |keys| >= (if p == t.root && !(pend.Split? && p == pend.left) then 1 else MID)
         && (forall i :: 0 <= i < |keys| ==> t.info[p].lo < keys[i] < t.info[p].hi)
         && (forall i :: 0 <= i < |children| ==> ChildOk(t, pend, p, i))
  }

  ghost predicate HasParent(t: Tree, c: int)
    requires c in t.info
  {
    var p := t.info[c].parent;
    p in t.info && p in t.store && t.store[p].Internal? && c in t.store[p].children
  }

  function Successor(ch: seq<int>, i: nat): int {
    if i + 1 < |ch| then ch[i + 1] else -1
  }

  /** Where the range of the leaf after the i-th one starts. */
  ghost function StartAfter(t: Tree, i: nat): int {
    if i + 1 < |t.chain| && t.chain[i + 1] in t.info then t.info[t.chain[i + 1]].lo else KEY_SUP
  }

  ghost predicate ChainPages(t: Tree) {
    && 1 <= |t.chain|
    && t.chain[0] == 1
    && (forall i :: 0 <= i < |t.chain| ==>
          t.chain[i] in t.info && t.chain[i] in t.store && t.store[t.chain[i]].Leaf?)
    && t.info[t.chain[0]].lo == KEY_MIN
  }

  ghost predicate ChainLinks(t: Tree)
    requires ChainPages(t)
  {
    && (forall i {:trigger Successor(t.chain, i)} :: 0 <= i < |t.chain| ==>
          t.store[t.chain[i]].nextLeaf == Successor(t.chain, i))
    && (forall i {:trigger StartAfter(t, i)} :: 0 <= i < |t.chain| ==>
          t.info[t.chain[i]].hi == StartAfter(t, i))
  }

  ghost predicate ChainOrder(t: Tree)
    requires ChainPages(t)
  {
    forall i, j :: 0 <= i < j < |t.chain| ==> t.info[t.chain[i]].hi <= t.info[t.chain[j]].lo
  }

  ghost predicate ChainCovers(t: Tree) {
    forall p :: p in t.info && p in t.store && t.store[p].Leaf? ==> p in t.chain
  }

  /** The leaves from left to right: linked by nextLeaf, tiling the whole key range. */
  ghost predicate ChainOk(t: Tree) {
    ChainPages(t) && ChainLinks(t) && ChainOrder(t) && ChainCovers(t)
  }

  ghost predicate RootOk(t: Tree, pend: Pending) {
    && t.root in t.info
    && t.info[t.root].level + 1 == t.height
    && t.info[t.root].lo == KEY_MIN
    && t.info[t.root].parent == 0
    && (pend.Split? ==> pend.right in t.info)
    && SeenHi(t, pend, t.root) == KEY_SUP
  }

  ghost predicate PendingOk(t: Tree, pend: Pending) {
    pend.Split? ==>
      && pend.left in t.info
      && pend.right in t.info
      && pend.left != pend.right
      && pend.right != t.root
      && t.info[pend.left].level == t.info[pend.right].level
      && t.info[pend.left].hi == t.info[pend.right].lo
      && t.info[pend.right].parent == 0
  }

  ghost predicate DomainOk(t: Tree) {
    && (forall p :: p in t.info <==> 1 <= p < t.next)
    && t.store.Keys == t.info.Keys
  }

  ghost predicate PagesOk(t: Tree, pend: Pending, over: int) {
    && (pend.Split? ==> pend.right in t.info)
    && (forall p :: p in t.info ==> PageOk(t, pend, over, p))
  }

  ghost predicate ParentsOk(t: Tree, pend: Pending) {
    forall p :: p in t.info && p != t.root && (pend.Split? ==> p != pend.right) ==> HasParent(t, p)
  }

  ghost predicate WellFormed(t: Tree, pend: Pending, over: int) {
    && DomainOk(t)
    && PendingOk(t, pend)
    && RootOk(t, pend)
    && PagesOk(t, pend, over)
    && ParentsOk(t, pend)
    && ChainOk(t)
  }

  /** Every entry of a leaf page is an entry of m. */
  ghost predicate EntriesInMap(t: Tree, m: map<int, int>) {
    forall p, i :: p in t.store && t.store[p].Leaf? && 0 <= i < |t.store[p].keys| && i < |t.store[p].rowIds|
      ==> t.store[p].keys[i] in m && m[t.store[p].keys[i]] == t.store[p].rowIds[i]
  }

  /** Every key of m is in the leaf page responsible for it. */
  ghost predicate MapInEntries(t: Tree, m: map<int, int>) {
    forall p, k :: p in t.store && p in t.info && t.store[p].Leaf? && k in m && t.info[p].lo <= k < t.info[p].hi
      ==> k in t.store[p].keys
  }

  /** The leaf pages hold exactly the entries of m. */
  ghost predicate Holds(t: Tree, m: map<int, int>) {
    && EntriesInMap(t, m)
    && MapInEntries(t, m)
    && (forall k :: k in m ==> KEY_MIN <= k < KEY_SUP)
  }

  // ---------------------------------------------------------------- the empty tree and a delete

  const EMPTY_TREE := Tree(map[1 := Leaf([], [], -1)], 1, 1, 2, map[1 := Info(0, KEY_MIN, KEY_SUP, 0)], [1])

  function DropEntry(t: Tree, p: int, at: nat): Tree
    requires p in t.store && t.store[p].Leaf? && at < |t.store[p].keys| == |t.store[p].rowIds|
  {
    t.(store := t.store[p := LeafWithout(t.store[p], at)])
  }

  // ---------------------------------------------------------------- the steps of an insert

  function PutLeaf(t: Tree, p: int, at: nat, k: int, r: int): Tree
    requires p in t.store && t.store[p].Leaf? && at <= |t.store[p].keys| == |t.store[p].rowIds|
  {
    t.(store := t.store[p := LeafWith(t.store[p], at, k, r)])
  }

  /** Move the upper half of leaf p to a fresh page, which takes p's place before p's old successor. */
  ghost function SplitLeaf(t: Tree, p: int, at: nat): Tree
    requires p in t.store && p in t.info && t.store[p].Leaf?
    requires MID < |t.store[p].keys| == |t.store[p].rowIds|
    requires at < |t.chain|
  {
    var n, q, sep := t.store[p], t.next, t.store[p].keys[MID];
    t.(store := t.store[p := LowerLeaf(n, q)][q := UpperLeaf(n, n.nextLeaf)],
       next := q + 1,
       info := t.info[p := t.info[p].(hi := sep)][q := Info(0, sep, t.info[p].hi, 0)],
       chain := InsertAt(t.chain, at + 1, q))
  }

  /** Make `right` the child of p just after slot `at`, separated by the lower end of its range. */
  ghost function PutChild(t: Tree, p: int, at: nat, right: int): Tree
    requires p in t.store && t.store[p].Internal? && right in t.info
    requires at <= |t.store[p].keys| && |t.store[p].children| == |t.store[p].keys| + 1
  {
    t.(store := t.store[p := InternalWith(t.store[p], at, t.info[right].lo, right)],
       info := t.info[right := t.info[right].(parent := p)])
  }

  /** Move the upper half of internal page p to a fresh page; the middle key goes up. */
  ghost function SplitInternal(t: Tree, p: int): Tree
    requires p in t.store && p in t.info && t.store[p].Internal?
    requires MID < |t.store[p].keys| && |t.store[p].children| == |t.store[p].keys| + 1
  {
    var n, q, sep := t.store[p], t.next, t.store[p].keys[MID];
    var moved := n.children[MID + 1..];
    var halves := t.info[p := t.info[p].(hi := sep)][q := Info(t.info[p].level, sep, t.info[p].hi, 0)];
    t.(store := t.store[p := LowerInternal(n)][q := UpperInternal(n)],
       next := q + 1,
       info := map c | c in halves :: if c in moved then halves[c].(parent := q) else halves[c])
  }

  /** Put a fresh root above the two halves of the old one. */
  ghost function GrowRoot(t: Tree, right: int): Tree
    requires t.root in t.info && right in t.info
  {
    var top := t.next;
    t.(store := t.store[top := Internal([t.info[right].lo], [t.root, right])],
       root := top,
       height := t.height + 1,
       next := top + 1,
       info := t.info[t.root := t.info[t.root].(parent := top)][right := t.info[right].(parent := top)]
                     [top := Info(t.info[t.root].level + 1, KEY_MIN, KEY_SUP, 0)])
  }
}
