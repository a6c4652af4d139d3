/** The chained hash table of `storage-engine/page_table.c`, proved against a finite map. */
module PageTables {
  import opened PoolModel

  const PT_NUM_BUCKETS := 2048

  /** The DJB2 loop over the table name, in C unsigned arithmetic. */
  function NameHash(name: string, hash: bv32): bv32 {
    if name == "" then hash
    else NameHash(name[1..], ((hash << 5) + hash) ^ ((name[0] as int % 256) as bv32))
  }

  /** pt_hash: the low bits of the name hash mixed with the page number. */
  function Hash(k: Key): (bucket: nat)
    ensures bucket < PT_NUM_BUCKETS
  {
    var mixed := NameHash(k.table, 5381) ^ (((k.page % 0x1_0000_0000) as bv32) * 2654435761);
    (mixed & 2047) as nat
  }

  class Entry {
    const key: Key
    var frame: int
    var next: Entry?

    constructor (key: Key, frame: int, next: Entry?)
      ensures this.key == key && this.frame == frame && this.next == next
    {
      this.key, this.frame, this.next := key, frame, next;
    }
  }

  /** The i-th entry of a chain, or null past its end. */
  ghost function At(c: seq<Entry>, i: int): Entry? {
    if 0 <= i < |c| then c[i] else null
  }

  /** Head is the first of a finite null-terminated list that runs through the entries of c. */
  ghost predicate Linked(c: seq<Entry>, head: Entry?, nodes: set<Entry>)
    reads nodes
  {
    head == At(c, 0) && (forall i :: 0 <= i < |c| ==> c[i] in nodes) && forall i {:trigger c[i].next} :: 0 <= i < |c| ==> c[i].next == At(c, i + 1)
  }

  /** Which entry is where: every entry sits once, in the chain of its own key's bucket, and no key
      has two entries. */
  ghost predicate Placed(chains: seq<seq<Entry>>, entryOf: map<Key, Entry>) {
    && |chains| == PT_NUM_BUCKETS
    && (forall b, i :: 0 <= b < |chains| && 0 <= i < |chains[b]| ==> InPlace(chains[b][i], b, entryOf))
    && (forall b, i, j :: 0 <= b < |chains| && 0 <= i < j < |chains[b]| ==> chains[b][i] != chains[b][j])
    && (forall k :: k in entryOf ==> entryOf[k].key == k && entryOf[k] in chains[Hash(k)])
  }

  ghost predicate InPlace(e: Entry, b: nat, entryOf: map<Key, Entry>) {
    Hash(e.key) == b && e.key in entryOf && entryOf[e.key] == e
  }

  /** No chain holds e anywhere but at position i of chain b. */
  ghost predicate OnlyAt(chains: seq<seq<Entry>>, e: Entry, b: int, i: int) {
    forall x, j :: 0 <= x < |chains| && 0 <= j < |chains[x]| && chains[x][j] == e ==> x == b && j == i
  }

  /** An entry sits in one place only. */
  lemma PlacedOnce(chains: seq<seq<Entry>>, entryOf: map<Key, Entry>, b: nat, i: nat)
    requires Placed(chains, entryOf) && b < |chains| && i < |chains[b]|
    ensures InPlace(chains[b][i], b, entryOf)
    ensures OnlyAt(chains, chains[b][i], b, i)
    ensures forall k :: k in entryOf && entryOf[k] == chains[b][i] ==> k == chains[b][i].key
  {
    assert InPlace(chains[b][i], b, entryOf);
    forall x, j | 0 <= x < |chains| && 0 <= j < |chains[x]| && chains[x][j] == chains[b][i]
      ensures x == b && j == i
    {
      assert InPlace(chains[x][j], x, entryOf);
    }
  }

  ghost function NoChains(): (cs: seq<seq<Entry>>)
    ensures |cs| == PT_NUM_BUCKETS && (forall b :: 0 <= b < |cs| ==> cs[b] == [])
    ensures Placed(cs, map[])
  {
    seq(PT_NUM_BUCKETS, _ => [])
  }

  lemma PlacedPrepend(chains: seq<seq<Entry>>, entryOf: map<Key, Entry>, b: nat, e: Entry)
    requires Placed(chains, entryOf) && b == Hash(e.key) && e.key !in entryOf
    ensures Placed(chains[b := [e] + chains[b]], entryOf[e.key := e])
  {
    hide Hash;
    var cs, es := chains[b := [e] + chains[b]], entryOf[e.key := e];
    assert cs[b][0] == e;
    forall i | 0 < i < |cs[b]|
      ensures cs[b][i] == chains[b][i - 1] && InPlace(chains[b][i - 1], b, entryOf)
    {
    }
    forall k | k in es
      ensures es[k] in cs[Hash(k)]
    {
      if k != e.key && Hash(k) == b {
        var i :| 0 <= i < |chains[b]| && chains[b][i] == entryOf[k];
        assert cs[b][i + 1] == es[k];
      }
    }
  }

  /** The chain without its i-th entry. */
  ghost function Without(c: seq<Entry>, i: nat): seq<Entry>
    requires i < |c|
  {
    c[..i] + c[i + 1..]
  }

  lemma PlacedRemove(chains: seq<seq<Entry>>, entryOf: map<Key, Entry>, b: nat, i: nat)
    requires Placed(chains, entryOf) && b < PT_NUM_BUCKETS && i < |chains[b]|
    ensures Placed(chains[b := Without(chains[b], i)], entryOf - {chains[b][i].key})
  {
    hide Hash;
    var c := chains[b];
    var cs, es := chains[b := Without(c, i)], entryOf - {c[i].key};
    assert InPlace(c[i], b, entryOf);
    assert forall j :: 0 <= j < |cs[b]| ==> cs[b][j] == c[if j < i then j else j + 1];
    forall x, j | 0 <= x < |cs| && 0 <= j < |cs[x]|
      ensures InPlace(cs[x][j], x, es)
    {
      var j' := if x == b && j >= i then j + 1 else j;
      assert cs[x][j] == chains[x][j'] && InPlace(chains[x][j'], x, entryOf);
    }
    forall k | k in es
      ensures es[k] in cs[Hash(k)]
    {
      if Hash(k) == b {
        var j :| 0 <= j < |c| && c[j] == entryOf[k];
        assert cs[b][if j < i then j else j - 1] == es[k];
      }
    }
  }

  /** The ghost view of a page table: the entries of every bucket in list order, the entry that holds
      a key, all entries, and the map they represent. */
  datatype Model = Model(chains: seq<seq<Entry>>, entryOf: map<Key, Entry>, nodes: set<Entry>, contents: map<Key, int>)

  class PageTable {
    const buckets: array<Entry?>
    var numEntries: nat
    ghost var model: Model

    ghost predicate Valid()
      reads this, buckets, model.nodes
    {
      && buckets.Length == PT_NUM_BUCKETS
      && Placed(model.chains, model.entryOf)
      && (forall k :: k in model.entryOf ==> model.entryOf[k] in model.nodes)
      && (forall b :: 0 <= b < PT_NUM_BUCKETS ==> Linked(model.chains[b], buckets[b], model.nodes))
      && model.entryOf.Keys == model.contents.Keys
      && (forall k :: k in model.entryOf ==> model.entryOf[k].frame == model.contents[k])
      && numEntries == |model.contents|
    }

    /** pt_init */
    constructor ()
      ensures Valid() && model.contents == map[] && fresh(buckets) && model.nodes == {}
    {
      hide Hash, Placed, NoChains;
      buckets := new Entry?[PT_NUM_BUCKETS](_ => null);
      numEntries := 0;
      model := Model(NoChains(), map[], {}, map[]);
    }

    /** What walking the list of k's bucket can find. */
    lemma ChainHasKey(idx: nat, k: Key)
      requires Valid() && idx == Hash(k)
      ensures k in model.contents <==> exists i :: 0 <= i < |model.chains[idx]| && model.chains[idx][i].key == k
      ensures forall i :: 0 <= i < |model.chains[idx]| && model.chains[idx][i].key == k ==> model.chains[idx][i].frame == model.contents[k]
    {
      forall i | 0 <= i < |model.chains[idx]|
        ensures InPlace(model.chains[idx][i], idx, model.entryOf)
      {
      }
    }

    /** pt_lookup */
    method Lookup(k: Key) returns (frame: int)
      requires Valid()
      ensures frame == if k in model.contents then model.contents[k] else -1
    {
      hide Hash, Placed;
      var idx := Hash(k);
      var entry := buckets[idx];
      ghost var i := 0;
      ChainHasKey(idx, k);
      ChainCount();
      assert Linked(model.chains[idx], buckets[idx], model.nodes);
      while entry != null
        invariant 0 <= i <= |model.chains[idx]|
        invariant entry == At(model.chains[idx], i)
        invariant forall j :: 0 <= j < i ==> model.chains[idx][j].key != k
        decreases |model.chains[idx]| - i
      {
        if entry.key == k {
          return entry.frame;
        }
        entry := entry.next;
        i := i + 1;
      }
      return -1;
    }

    lemma ChainCount()
      requires Valid()
      ensures |model.chains| == PT_NUM_BUCKETS
      ensures forall b, i :: 0 <= b < |model.chains| && 0 <= i < |model.chains[b]| ==> model.chains[b][i] in model.nodes
    {
      forall b, i | 0 <= b < |model.chains| && 0 <= i < |model.chains[b]|
        ensures model.chains[b][i] in model.nodes
      {
        assert InPlace(model.chains[b][i], b, model.entryOf);
      }
    }

    /** pt_insert */
    method Insert(k: Key, frame: int)
      requires Valid()
      modifies this, buckets, model.nodes
      ensures Valid() && fresh(model.nodes - old(model.nodes))
      ensures model.contents == old(model.contents)[k := frame]
    {
      hide Hash, Placed;
      var idx := Hash(k);
      var entry := buckets[idx];
      ghost var i := 0;
      ChainHasKey(idx, k);
      ChainCount();
      assert Linked(model.chains[idx], buckets[idx], model.nodes);
      while entry != null
        invariant 0 <= i <= |model.chains[idx]|
        invariant entry == At(model.chains[idx], i)
        invariant forall j :: 0 <= j < i ==> model.chains[idx][j].key != k
        invariant unchanged(this, buckets, model.nodes)
        decreases |model.chains[idx]| - i
      {
        if entry.key == k {
          Update(entry, idx, i, frame);
          return;
        }
        entry := entry.next;
        i := i + 1;
      }
      Prepend(idx, k, frame);
    }

    /** The branch of pt_insert that finds the key. */
    method Update(entry: Entry, ghost idx: nat, ghost i: nat, frame: int)
      requires Valid() && idx < |model.chains| && i < |model.chains[idx]| && model.chains[idx][i] == entry
      modifies model.nodes, this`model
      ensures Valid() && model.nodes == old(model.nodes) && model.contents == old(model.contents)[entry.key := frame]
    {
      hide Hash, Placed;
      ChainCount();
      PlacedOnce(model.chains, model.entryOf, idx, i);
      entry.frame := frame;
      model := model.(contents := model.contents[entry.key := frame]);
      forall b | 0 <= b < PT_NUM_BUCKETS
        ensures Linked(model.chains[b], buckets[b], model.nodes)
      {
        assert old(Linked(model.chains[b], buckets[b], model.nodes));
      }
    }

    /** The branch of pt_insert for a new key: a new head of its bucket. */
    method Prepend(idx: nat, k: Key, frame: int)
      requires Valid() && idx == Hash(k) && k !in model.contents
      modifies this, buckets
      ensures Valid() && fresh(model.nodes - old(model.nodes)) && model.contents == old(model.contents)[k := frame]
    {
      hide Hash, Placed;
      ChainCount();
      var newEntry := new Entry(k, frame, buckets[idx]);
      PlacedPrepend(model.chains, model.entryOf, idx, newEntry);
      buckets[idx] := newEntry;
      numEntries := numEntries + 1;
      ghost var c := model.chains[idx];
      assert old(Linked(c, buckets[idx], model.nodes));
      model := Model(model.chains[idx := [newEntry] + c], model.entryOf[k := newEntry],
                     model.nodes + {newEntry}, model.contents[k := frame]);
      assert Linked(model.chains[idx], newEntry, model.nodes);
      forall b | 0 <= b < PT_NUM_BUCKETS && b != idx
        ensures Linked(model.chains[b], buckets[b], model.nodes)
      {
        assert old(Linked(model.chains[b], buckets[b], model.nodes));
      }
    }

    /** pt_remove */
    method Remove(k: Key) returns (rc: int)
      requires Valid()
      modifies this, buckets, model.nodes
      ensures Valid() && model.nodes <= old(model.nodes)
      ensures rc == if k in old(model.contents) then 0 else -1
      ensures model.contents == old(model.contents) - {k}
    {
      hide Hash, Placed;
      var idx := Hash(k);
      var entry := buckets[idx];
      var prev: Entry? := null;
      ghost var i := 0;
      ChainHasKey(idx, k);
      ChainCount();
      assert Linked(model.chains[idx], buckets[idx], model.nodes);
      while entry != null
        invariant 0 <= i <= |model.chains[idx]|
        invariant entry == At(model.chains[idx], i) && prev == At(model.chains[idx], i - 1)
        invariant forall j :: 0 <= j < i ==> model.chains[idx][j].key != k
        invariant unchanged(this, buckets, model.nodes)
        decreases |model.chains[idx]| - i
      {
        if entry.key == k {
          Unlink(idx, prev, entry, i);
          return 0;
        }
        prev := entry;
        entry := entry.next;
        i := i + 1;
      }
      assert model.contents - {k} == model.contents;
      return -1;
    }

    /** The branch of pt_remove that relinks the bucket around entry number i. */
    method Unlink(idx: nat, prev: Entry?, entry: Entry, ghost i: nat)
      requires Valid() && idx < PT_NUM_BUCKETS && idx < |model.chains| && i < |model.chains[idx]| && model.chains[idx][i] == entry
      requires prev == At(model.chains[idx], i - 1)
      modifies this, buckets, model.nodes
      ensures Valid() && model.nodes <= old(model.nodes) && model.contents == old(model.contents) - {entry.key}
    {
      hide Hash, Placed, Linked, Without, OnlyAt;
      ghost var cs, es, k := model.chains, model.entryOf, entry.key;
      assert |cs| == PT_NUM_BUCKETS by { ChainCount(); }
      assert k in es by { PlacedOnce(cs, es, idx, i); }
      PlacedRemove(cs, es, idx, i);
      assert prev != null ==>
          prev in model.nodes && OnlyAt(cs, prev, idx, i - 1) by {
        if prev != null {
          ChainCount();
          PlacedOnce(cs, es, idx, i - 1);
        }
      }
      RemovalSize(model.contents, k);
      numEntries := numEntries - 1;
      model := Model(cs[idx := Without(cs[idx], i)], es - {k}, model.nodes, model.contents - {k});
      Relink(cs, idx, prev, entry, i);
    }

    /** The pointer writes of pt_remove. */
    method Relink(ghost cs: seq<seq<Entry>>, idx: nat, prev: Entry?, entry: Entry, ghost i: nat)
      requires idx < buckets.Length == |cs| && i < |cs[idx]| && cs[idx][i] == entry
      requires forall b :: 0 <= b < |cs| ==> Linked(cs[b], buckets[b], model.nodes)
      requires prev == At(cs[idx], i - 1)
      requires prev != null ==> OnlyAt(cs, prev, idx, i - 1)
      requires prev != null ==> prev in model.nodes
      modifies buckets, model.nodes
      ensures forall b :: 0 <= b < |cs| && b != idx ==> Linked(cs[b], buckets[b], model.nodes)
      ensures Linked(Without(cs[idx], i), buckets[idx], model.nodes)
      ensures forall e :: e in model.nodes ==> e.frame == old(e.frame)
    {
      ghost var c := cs[idx];
      assert Linked(c, buckets[idx], model.nodes);
      if prev != null {
        prev.next := entry.next;
      } else {
        buckets[idx] := entry.next;
      }
      ghost var d := Without(c, i);
      forall j | 0 <= j < |d|
        ensures d[j].next == At(d, j + 1)
      {
        assert d[j] == c[if j < i then j else j + 1];
      }
    }

    /** pt_clear */
    method Clear()
      requires Valid()
      modifies this, buckets
      ensures Valid() && model.contents == map[] && model.nodes == {}
    {
      hide Hash, Placed, NoChains;
      for i := 0 to PT_NUM_BUCKETS
        invariant buckets.Length == PT_NUM_BUCKETS
        invariant forall b :: 0 <= b < i ==> buckets[b] == null
      {
        buckets[i] := null;
      }
      numEntries := 0;
      model := Model(NoChains(), map[], {}, map[]);
    }
  }

  lemma RemovalSize(m: map<Key, int>, k: Key)
    requires k in m
    ensures |m - {k}| == |m| - 1
  {
    assert m == (m - {k})[k := m[k]];
  }
}
