/** B+ tree nodes and the meta record as bytes of a page: 304 consecutive ints for a node, five for the
    meta record (`btree_write_node`, `btree_read_node` and their meta counterparts). */
module NodeLayout {
  import opened PoolModel
  import opened Bytes
  import opened BTreeModel
  import opened BTreeFile
  import SlottedPages

  /** The C struct, with all its array cells. */
  datatype RawNode = RawNode(kind: int, nKeys: int, keys: seq<int>, children: seq<int>, rowIds: seq<int>, nextLeaf: int)

  predicate AllInts(s: seq<int>) {
    forall i :: 0 <= i < |s| ==> IsInt(s[i])
  }

  predicate RawOk(n: RawNode) {
    && |n.keys| == |n.rowIds| == ORDER && |n.children| == ORDER + 1
    && IsInt(n.kind) && IsInt(n.nKeys) && IsInt(n.nextLeaf)
    && AllInts(n.keys) && AllInts(n.children) && AllInts(n.rowIds)
  }

  /** The ints of a node page in order. */
  function Words(n: RawNode): (ws: seq<int>)
    requires RawOk(n)
    ensures |ws| == 304 && AllInts(ws)
  {
    [n.kind, n.nKeys] + n.keys + n.children + n.rowIds + [n.nextLeaf]
  }

  /** The page starts with the given ints. */
  predicate Encodes(page: PageData, ws: seq<int>)
    requires 4 * |ws| <= PAGE_SIZE
  {
    forall i {:trigger ws[i]} :: 0 <= i < |ws| ==> SlottedPages.WordAt(page, 4 * i) == ws[i]
  }

  /** The bytes from position y on. */
  function Tail(page: PageData, y: int): seq<byte>
    requires 0 <= y <= PAGE_SIZE
  {
    page[y..PAGE_SIZE]
  }

  lemma WordsKept(s: PageData, t: PageData, at: int, bs: seq<byte>)
    requires 0 <= at && at + |bs| <= PAGE_SIZE && SlottedPages.Overwritten(s, t, at, bs)
    ensures forall x {:trigger SlottedPages.WordAt(t, x)} :: 0 <= x && x + 4 <= PAGE_SIZE && (x + 4 <= at || at + |bs| <= x) ==>
              SlottedPages.WordAt(t, x) == SlottedPages.WordAt(s, x)
    ensures forall y {:trigger Tail(t, y)} :: at + |bs| <= y <= PAGE_SIZE ==> Tail(t, y) == Tail(s, y)
  {
    forall y | at + |bs| <= y <= PAGE_SIZE
      ensures Tail(t, y) == Tail(s, y)
    {
      assert SlottedPages.Chunk(t, y, PAGE_SIZE - y) == SlottedPages.Chunk(s, y, PAGE_SIZE - y);
    }
  }

  /** memcpy of an array of ints. */
  method StoreInts(a: array<byte>, at: nat, ws: seq<int>)
    requires a.Length == PAGE_SIZE && at + 4 * |ws| <= PAGE_SIZE && AllInts(ws)
    modifies a
    ensures forall i {:trigger ws[i]} :: 0 <= i < |ws| ==> SlottedPages.WordAt(a[..], at + 4 * i) == ws[i]
    ensures forall x {:trigger SlottedPages.WordAt(a[..], x)} :: 0 <= x && x + 4 <= at ==>
              SlottedPages.WordAt(a[..], x) == old(SlottedPages.WordAt(a[..], x))
    ensures forall y {:trigger Tail(a[..], y)} :: at + 4 * |ws| <= y <= PAGE_SIZE ==> Tail(a[..], y) == old(Tail(a[..], y))
  {
    hide SlottedPages.WordAt, SlottedPages.Overwritten, IntBytes, Tail;
    for i := 0 to |ws|
      invariant forall j {:trigger ws[j]} :: 0 <= j < i ==> SlottedPages.WordAt(a[..], at + 4 * j) == ws[j]
      invariant forall x {:trigger SlottedPages.WordAt(a[..], x)} :: 0 <= x && x + 4 <= at ==>
                  SlottedPages.WordAt(a[..], x) == old(SlottedPages.WordAt(a[..], x))
      invariant forall y {:trigger Tail(a[..], y)} :: at + 4 * i <= y <= PAGE_SIZE ==> Tail(a[..], y) == old(Tail(a[..], y))
    {
      ghost var before := a[..];
      SlottedPages.StoreInt(a, at + 4 * i, ws[i]);
      WordsKept(before, a[..], at + 4 * i, IntBytes(ws[i]));
    }
  }

  /** A memcpy of ints from a page. */
  method LoadInts(page: PageData, at: nat, n: nat) returns (ws: seq<int>)
    requires at + 4 * n <= PAGE_SIZE
    ensures |ws| == n && forall i :: 0 <= i < n ==> ws[i] == SlottedPages.WordAt(page, at + 4 * i)
  {
    hide SlottedPages.WordAt;
    ws := [];
    for i := 0 to n
      invariant |ws| == i && forall j :: 0 <= j < i ==> ws[j] == SlottedPages.WordAt(page, at + 4 * j)
    {
      ws := ws + [SlottedPages.WordAt(page, at + 4 * i)];
    }
  }

  lemma ZeroTail(y: nat)
    requires y <= PAGE_SIZE
    ensures Tail(ZERO_PAGE, y) == Zeros(PAGE_SIZE - y)
  {
  }

  /** btree_write_node: the bytes behind the ints are zero. */
  method WriteNode(n: RawNode) returns (page: PageData)
    requires RawOk(n)
    ensures Encodes(page, Words(n)) && Tail(page, 1216) == Zeros(2880)
  {
    hide SlottedPages.WordAt, Tail;
    var buffer := new byte[PAGE_SIZE];
    SlottedPages.ClearPage(buffer);
    ZeroTail(1216);
    var offset := 0;
    StoreInts(buffer, offset, [n.kind, n.nKeys]);
    offset := offset + 8;
    StoreInts(buffer, offset, n.keys);
    offset := offset + 4 * ORDER;
    StoreInts(buffer, offset, n.children);
    offset := offset + 4 * (ORDER + 1);
    StoreInts(buffer, offset, n.rowIds);
    offset := offset + 4 * ORDER;
    StoreInts(buffer, offset, [n.nextLeaf]);
    page := buffer[..];
  }

  /** Where the cells of a node lie on its page. */
  lemma NodeOffsets(page: PageData, n: RawNode)
    requires RawOk(n)
    ensures Encodes(page, Words(n)) <==>
              && SlottedPages.WordAt(page, 0) == n.kind
              && SlottedPages.WordAt(page, 4) == n.nKeys
              && (forall i {:trigger n.keys[i]} :: 0 <= i < 100 ==> SlottedPages.WordAt(page, 8 + 4 * i) == n.keys[i])
              && (forall i {:trigger n.children[i]} :: 0 <= i < 101 ==> SlottedPages.WordAt(page, 408 + 4 * i) == n.children[i])
              && (forall i {:trigger n.rowIds[i]} :: 0 <= i < 100 ==> SlottedPages.WordAt(page, 812 + 4 * i) == n.rowIds[i])
              && SlottedPages.WordAt(page, 1212) == n.nextLeaf
  {
    hide SlottedPages.WordAt;
    var ws := Words(n);
    assert ws[0] == n.kind && ws[1] == n.nKeys && ws[303] == n.nextLeaf;
    assert forall i {:trigger n.keys[i]} :: 0 <= i < 100 ==> ws[2 + i] == n.keys[i];
    assert forall i {:trigger n.children[i]} :: 0 <= i < 101 ==> ws[102 + i] == n.children[i];
    assert forall i {:trigger n.rowIds[i]} :: 0 <= i < 100 ==> ws[203 + i] == n.rowIds[i];
    if Encodes(page, ws) {
      assert SlottedPages.WordAt(page, 4 * 0) == ws[0] && SlottedPages.WordAt(page, 4 * 1) == ws[1];
      assert SlottedPages.WordAt(page, 4 * 303) == ws[303];
      assert forall i {:trigger n.keys[i]} :: 0 <= i < 100 ==> SlottedPages.WordAt(page, 4 * (2 + i)) == ws[2 + i];
      assert forall i {:trigger n.children[i]} :: 0 <= i < 101 ==> SlottedPages.WordAt(page, 4 * (102 + i)) == ws[102 + i];
      assert forall i {:trigger n.rowIds[i]} :: 0 <= i < 100 ==> SlottedPages.WordAt(page, 4 * (203 + i)) == ws[203 + i];
    } else {
      var i :| 0 <= i < |ws| && SlottedPages.WordAt(page, 4 * i) != ws[i];
      CellOfWord(n, i);
    }
  }

  /** Which cell a word of the node is. */
  lemma CellOfWord(n: RawNode, i: int)
    requires RawOk(n) && 0 <= i < 304
    ensures Words(n)[i] ==
              if i == 0 then n.kind else if i == 1 then n.nKeys
              else if i < 102 then n.keys[i - 2] else if i < 203 then n.children[i - 102]
              else if i < 303 then n.rowIds[i - 203] else n.nextLeaf
  {
  }

  /** A page is the image of one node only. */
  lemma EncodingUnique(page: PageData, n: RawNode, m: RawNode)
    requires RawOk(n) && RawOk(m) && Encodes(page, Words(n)) && Encodes(page, Words(m))
    ensures n == m
  {
    hide SlottedPages.WordAt;
    var a, b := Words(n), Words(m);
    forall i | 0 <= i < 304
      ensures a[i] == b[i]
    {
    }
    assert n.keys == a[2..102] && m.keys == b[2..102];
    assert n.children == a[102..203] && m.children == b[102..203];
    assert n.rowIds == a[203..303] && m.rowIds == b[203..303];
    assert n.kind == a[0] && m.kind == b[0] && n.nKeys == a[1] && m.nKeys == b[1];
    assert n.nextLeaf == a[303] && m.nextLeaf == b[303];
  }

  /** btree_read_node: it gives back every cell of the node that the page was written from. */
  method ReadNode(page: PageData) returns (n: RawNode)
    ensures RawOk(n) && Encodes(page, Words(n))
    ensures forall m :: RawOk(m) && Encodes(page, Words(m)) ==> m == n
  {
    hide SlottedPages.WordAt;
    var head := LoadInts(page, 0, 2);
    var keys := LoadInts(page, 8, ORDER);
    var children := LoadInts(page, 408, ORDER + 1);
    var rowIds := LoadInts(page, 812, ORDER);
    var tail := LoadInts(page, 1212, 1);
    assert AllInts(head + keys + children + rowIds + tail);
    n := RawNode(head[0], head[1], keys, children, rowIds, tail[0]);
    forall m | RawOk(m) && Encodes(page, Words(m))
      ensures m == n
    {
      EncodingUnique(page, n, m);
    }
  }

  /** The fields that n_keys makes meaningful. */
  function NodeOf(n: RawNode): Node
    requires RawOk(n) && 0 <= n.nKeys <= ORDER
  {
    if n.kind == 1 then Leaf(n.keys[..n.nKeys], n.rowIds[..n.nKeys], n.nextLeaf)
    else Internal(n.keys[..n.nKeys], n.children[..n.nKeys + 1])
  }

  /** A node page in bytes: a 1 at byte 0 makes it a leaf, whose keys are at byte 8 and whose RowIDs at 812;
      any other number an internal node, with one child more than keys, from byte 408. */
  lemma NodeOnPage(page: PageData, n: RawNode)
    requires RawOk(n) && Encodes(page, Words(n)) && 0 <= SlottedPages.WordAt(page, 4) <= ORDER
    ensures n.nKeys == SlottedPages.WordAt(page, 4)
    ensures var k := SlottedPages.WordAt(page, 4);
            match NodeOf(n)
            case Leaf(keys, rowIds, next) =>
              && SlottedPages.WordAt(page, 0) == 1 && |keys| == |rowIds| == k && next == SlottedPages.WordAt(page, 1212)
              && forall i :: 0 <= i < k ==>
                   keys[i] == SlottedPages.WordAt(page, 8 + 4 * i) && rowIds[i] == SlottedPages.WordAt(page, 812 + 4 * i)
            case Internal(keys, children) =>
              && SlottedPages.WordAt(page, 0) != 1 && |keys| == k && |children| == k + 1
              && (forall i :: 0 <= i < k ==> keys[i] == SlottedPages.WordAt(page, 8 + 4 * i))
              && forall i :: 0 <= i <= k ==> children[i] == SlottedPages.WordAt(page, 408 + 4 * i)
  {
    hide SlottedPages.WordAt, Encodes, Words;
    NodeOffsets(page, n);
  }

  /** A page of zero bytes, as btree_alloc_page leaves it, reads back as an internal node without keys. */
  lemma ZeroPageNode(n: RawNode)
    requires RawOk(n) && Encodes(ZERO_PAGE, Words(n))
    ensures n.nKeys == 0 && NodeOf(n) == Internal([], [0])
  {
    var ws := Words(n);
    assert ws[0] == SlottedPages.WordAt(ZERO_PAGE, 0) == 0;
    assert ws[1] == SlottedPages.WordAt(ZERO_PAGE, 4) == 0;
    assert ws[102] == SlottedPages.WordAt(ZERO_PAGE, 408) == 0;
    assert n.children[0] == ws[102];
  }

  // ---------------------------------------------------------------- the meta record

  function MetaWords(m: Meta): (ws: seq<int>)
    ensures |ws| == 5
  {
    [m.root, m.nEntries, m.height, m.keyType, m.nextFree]
  }

  /** Where the meta record lies on page 0. */
  lemma MetaOffsets(page: PageData, m: Meta)
    ensures Encodes(page, MetaWords(m)) <==>
              && SlottedPages.WordAt(page, 0) == m.root && SlottedPages.WordAt(page, 4) == m.nEntries
              && SlottedPages.WordAt(page, 8) == m.height && SlottedPages.WordAt(page, 12) == m.keyType
              && SlottedPages.WordAt(page, 16) == m.nextFree
  {
    hide SlottedPages.WordAt;
    var ws := MetaWords(m);
    if Encodes(page, ws) {
      assert SlottedPages.WordAt(page, 4 * 0) == ws[0] && SlottedPages.WordAt(page, 4 * 1) == ws[1];
      assert SlottedPages.WordAt(page, 4 * 2) == ws[2] && SlottedPages.WordAt(page, 4 * 3) == ws[3];
      assert SlottedPages.WordAt(page, 4 * 4) == ws[4];
    }
  }

  /** btree_write_meta */
  method WriteMeta(m: Meta) returns (page: PageData)
    requires AllInts(MetaWords(m))
    ensures Encodes(page, MetaWords(m)) && Tail(page, 20) == Zeros(4076)
  {
    hide SlottedPages.WordAt, Tail;
    var buffer := new byte[PAGE_SIZE];
    SlottedPages.ClearPage(buffer);
    ZeroTail(20);
    StoreInts(buffer, 0, MetaWords(m));
    page := buffer[..];
  }

  /** btree_read_meta: it gives back the record that page 0 was written from. */
  method ReadMeta(page: PageData) returns (m: Meta)
    ensures Encodes(page, MetaWords(m))
    ensures forall n :: Encodes(page, MetaWords(n)) ==> n == m
  {
    hide SlottedPages.WordAt;
    var ws := LoadInts(page, 0, 5);
    m := Meta(ws[0], ws[1], ws[2], ws[3], ws[4]);
    forall n | Encodes(page, MetaWords(n))
      ensures n == m
    {
      var a, b := MetaWords(m), MetaWords(n);
      assert a[0] == b[0] && a[1] == b[1] && a[2] == b[2] && a[3] == b[3] && a[4] == b[4];
    }
  }
}
