/** A table with everything in place: its pages behind an evicting buffer pool, its index in the B+ tree
    file.  INSERT, DELETE and SCAN make exactly the state changes of HeapModel and HotModel, whatever
    the pool evicts in between. */
module PooledTables {
  import opened PoolModel
  import opened PageModel
  import opened RowCodec
  import opened RowIds
  import opened HeapModel
  import opened BufferModel
  import opened Transparency
  import opened HeldUpdate
  import opened HeldPolicies
  import opened PooledHeap
  import opened PooledUpdate
  import opened PooledRedirects
  import opened PooledMoves
  import opened BufferManagers
  import BTreeFile
  import HeapTables
  import HotModel
  import PageAccess
  import SlottedPages

  class PooledTable {
    const bm: BufferManager
    const schema: Schema
    const name: TableName
    const index: BTreeFile.BTree
    var numPages: int              // get_num_pages: the length of the file

    ghost predicate Valid()
      reads this, bm, bm.frames, bm.table, bm.table.buckets, bm.table.model.nodes, index
    {
      Serving(bm) && IsTable(Store(bm), name, numPages) && index.Valid()
    }

    ghost function State(): (t: Table)
      requires Valid()
      reads this, bm, bm.frames, bm.table, bm.table.buckets, bm.table.model.nodes, index
      ensures AllRoomy(t.pages) && |t.pages| == numPages
    {
      Table(schema, TablePages(Store(bm), name, numPages), index.contents)
    }

    /** A table just created: its schema page on disk, and an empty index file. */
    constructor (bm: BufferManager, schema: Schema, name: TableName, schemaPage: PageData)
      requires Serving(bm) && forall p {:trigger Key(name, p)} :: 0 <= p ==> Key(name, p) !in Store(bm)
      modifies bm
      ensures Valid() && State() == Table(schema, [EMPTY_PAGE], map[])
      ensures this.bm == bm && this.schema == schema && this.name == name && index.HasRoom() && fresh(index)
      ensures bm.accessClock == old(bm.accessClock) && OthersKept(old(Store(bm)), Store(bm), name)
    {
      hide BufferManager.Valid, Transparency.Coherent, Transparency.View, BTreeFile.BTree.Valid;
      this.bm, this.schema, this.name, numPages := bm, schema, name, 1;
      index := new BTreeFile.BTree();
      new;
      WriteNewPage(bm, Key(name, 0), schemaPage);
      assert TablePages(Store(bm), name, 1) == [EMPTY_PAGE];
    }

    /** heap_insert_bm_indexed */
    method InsertIndexed(row: seq<byte>) returns (id: int)
      requires Valid() && index.HasRoom() && bm.accessClock + numPages + 1 < LLONG_MAX
      modifies this, bm, bm.frames, bm.table, bm.table.buckets, bm.table.model.nodes, index
      ensures Valid() && fresh(bm.table.model.nodes - old(bm.table.model.nodes))
      ensures (State(), id) == HeapInsert(old(State()), row)
    {
      hide Serving, Store, IsTable, TablePages, BTreeFile.BTree.Valid, PkOf, EncodeRowId, PutRow;
      if row == [] {
        return -1;
      }
      ghost var t := State();
      PutRowMeaning(t.pages, row);
      var p, slot;
      p, slot, numPages := StoreRow(bm, name, numPages, row);
      if slot < 0 {
        return -1;
      }
      id := EncodeRowId(p, slot);
      var duplicate := HeapTables.TryIndexInsert(schema, index, row, id);
      if duplicate {
        id := -1;
      }
    }

    /** handler_insert */
    method HandleInsert(row: seq<byte>) returns (answer: Outcome)
      requires Valid() && index.HasRoom() && bm.accessClock + numPages + 1 < LLONG_MAX
      modifies this, bm, bm.frames, bm.table, bm.table.buckets, bm.table.model.nodes, index
      ensures Valid() && fresh(bm.table.model.nodes - old(bm.table.model.nodes))
      ensures (State(), answer) == HeapModel.HandleInsert(old(State()), row)
    {
      hide Serving, Store, IsTable, TablePages, BTreeFile.BTree.Valid, PkOf, HeapInsert;
      var found, key := HeapTables.ExtractKey(schema, row);
      if found {
        var rowId := index.Search(key);
        if rowId >= 0 {
          return DuplicateKey;
        }
      }
      var id := InsertIndexed(row);
      return if id < 0 then Failed else Inserted(id);
    }

    /** heap_delete_row_bm */
    method DeleteRow(id: int) returns (rc: int)
      requires Valid() && bm.accessClock < LLONG_MAX - 1
      requires Exists(State().pages, PageOf(id), SlotOf(id)) ==> !State().pages[PageOf(id)].slots[SlotOf(id)].Redirect?
      modifies bm, bm.frames, bm.table, bm.table.buckets, bm.table.model.nodes, index
      ensures Valid() && fresh(bm.table.model.nodes - old(bm.table.model.nodes))
      ensures bm.accessClock <= old(bm.accessClock) + 1
      ensures (State(), rc) == HeapModel.DeleteRow(old(State()), id)
    {
      hide Serving, Store, IsTable, TablePages, SlottedPages.WellFormed, SlottedPages.View, BTreeFile.BTree.Valid, PkOf,
           PageOf, SlotOf;
      ghost var v, pages := Store(bm), State().pages;
      var p, slot := PageOf(id), SlotOf(id);
      if id < 0 || p <= 0 {
        return -1;
      }
      TablePage(v, name, numPages, p);
      assert p < numPages && slot < |pages[p].slots| ==> Exists(pages, p, slot);
      var row;
      ghost var data;
      row, data := DeleteFromPage(bm, schema, index, Key(name, p), slot);
      if row == [] {
        return -1;
      }
      PageReplaced(v, name, numPages, p, data);
      return 0;
    }

    /** The collecting half of handler_delete. */
    method CollectRows(chosen: seq<byte> -> bool) returns (ids: seq<int>)
      requires Valid() && NoRedirects(State().pages) && bm.accessClock + numPages < LLONG_MAX
      modifies bm, bm.frames, bm.table, bm.table.buckets, bm.table.model.nodes
      ensures Valid() && fresh(bm.table.model.nodes - old(bm.table.model.nodes))
      ensures State() == old(State()) && bm.accessClock <= old(bm.accessClock) + numPages
      ensures ids == CollectPages(State().pages, |State().pages|, chosen)
    {
      hide Serving, Store, IsTable, TablePages, SlottedPages.WellFormed, SlottedPages.View, BTreeFile.BTree.Valid,
           CollectSlots, NoRedirects;
      ghost var v, t := Store(bm), State();
      ids := [];
      for p := 1 to numPages
        invariant Serving(bm) && Store(bm) == v && bm.accessClock < old(bm.accessClock) + p
        invariant fresh(bm.table.model.nodes - old(bm.table.model.nodes))
        invariant ids == CollectPages(t.pages, p, chosen)
      {
        TablePage(v, name, numPages, p);
        HeapTables.PageNoRedirects(t.pages, p);
        var found := CollectHeld(bm, Key(name, p), p, chosen);
        ids := ids + found;
      }
    }

    /** handler_delete */
    method HandleDelete(chosen: seq<byte> -> bool) returns (deleted: nat)
      requires Valid() && NoRedirects(State().pages) && bm.accessClock + 341 * numPages < LLONG_MAX
      modifies bm, bm.frames, bm.table, bm.table.buckets, bm.table.model.nodes, index
      ensures Valid() && fresh(bm.table.model.nodes - old(bm.table.model.nodes))
      ensures NoRedirects(State().pages)
      ensures (State(), deleted) == HeapModel.HandleDelete(old(State()), chosen)
    {
      hide Serving, Store, IsTable, TablePages, BTreeFile.BTree.Valid, HeapModel.DeleteRow, NoRedirects, CollectPages;
      ghost var t := State();
      var ids := CollectRows(chosen);
      CollectedCount(t.pages, |t.pages|, chosen);
      deleted := 0;
      for i := 0 to |ids|
        invariant Valid() && NoRedirects(State().pages)
        invariant fresh(bm.table.model.nodes - old(bm.table.model.nodes))
        invariant bm.accessClock <= old(bm.accessClock) + numPages + i
        invariant (State(), deleted) == DeleteRows(t, ids, i)
      {
        HeapTables.DeletionKeepsNoRedirects(State(), ids[i]);
        var rc := DeleteRow(ids[i]);
        if rc == 0 {
          deleted := deleted + 1;
        }
      }
    }

    /** handler_scan */
    method HandleScan() returns (rows: seq<HotModel.ScannedRow>)
      requires Valid() && bm.accessClock + numPages < LLONG_MAX
      modifies bm, bm.frames, bm.table, bm.table.buckets, bm.table.model.nodes
      ensures Valid() && fresh(bm.table.model.nodes - old(bm.table.model.nodes))
      ensures State() == old(State()) && rows == HotModel.ScanPages(State().pages, |State().pages|)
    {
      hide Serving, Store, IsTable, TablePages, SlottedPages.WellFormed, SlottedPages.View, BTreeFile.BTree.Valid,
           HotModel.ScanSlots;
      ghost var v, t := Store(bm), State();
      rows := [];
      for p := 1 to numPages
        invariant Serving(bm) && Store(bm) == v && bm.accessClock < old(bm.accessClock) + p
        invariant fresh(bm.table.model.nodes - old(bm.table.model.nodes))
        invariant rows == HotModel.ScanPages(t.pages, p)
      {
        TablePage(v, name, numPages, p);
        var found := ScanHeld(bm, Key(name, p), p);
        rows := rows + found;
      }
    }

    /** The moving branch of handler_update, while page p is held. */
    method MoveHeld(ghost v: map<Key, PageData>, p: int, s: int, frame: int, row: seq<byte>)
      returns (answer: HotModel.UpdateAnswer)
      requires index.Valid() && bm.Valid() && Moving(bm.State(), v, name, numPages, p, s, row)
      requires StillHeld(bm.State(), Key(name, p), frame) && bm.accessClock + numPages + 1 < LLONG_MAX
      modifies this, bm, bm.frames, bm.table, bm.table.buckets, bm.table.model.nodes
      ensures bm.Valid() && index.Valid() && index.contents == old(index.contents)
      ensures fresh(bm.table.model.nodes - old(bm.table.model.nodes))
      ensures bm.State() == Move(old(bm.State()), Key(name, p), old(numPages), PageEdits(row, s), PolicyPick())
      ensures AllRoomy(TablePages(v, name, old(numPages)))
      ensures Right(old(bm.State()), Key(name, p), old(numPages), PageEdits(row, s), PolicyPick()) ==>
                && Valid()
                && (State().pages, answer) == HotModel.Overwrite(TablePages(v, name, old(numPages)), p, s, row)
    {
      hide BufferManager.Valid, View, IsTable, TablePages, BTreeFile.BTree.Valid, JustUsed, Coherent, Right, Move, HeldUpdate.Place,
           MustMove, PageEdits, PolicyPick, Books, Mapped, Scene, Links;
      ghost var m, n := bm.State(), numPages;
      MoveScene(m, name, numPages, p, s, row);
      answer, numPages := MoveRow(bm, name, numPages, p, s, frame, row);
      if Right(m, Key(name, p), n, PageEdits(row, s), PolicyPick()) {
        RightMove(m, name, n, p, s, row);
      }
    }

    /** The second half of handler_update, with the page of the slot held. */
    method UpdateLanded(ghost v: map<Key, PageData>, p: int, slot: int, frame: int, row: seq<byte>)
      returns (answer: HotModel.UpdateAnswer, ghost moved: bool, ghost held: Manager)
      requires index.Valid() && Standing(bm, name, numPages, v, p, slot, frame) && bm.accessClock + numPages + 1 < LLONG_MAX
      requires !TablePages(v, name, numPages)[p].slots[slot].Redirect?
      modifies this, bm, bm.frames, bm.table, bm.table.buckets, bm.table.model.nodes
      ensures bm.Valid() && index.Valid() && index.contents == old(index.contents)
      ensures fresh(bm.table.model.nodes - old(bm.table.model.nodes))
      ensures moved ==> MoveMade(held, bm.State(), v, name, old(numPages), HotModel.Landed(p, slot), row)
      ensures !moved || MoveRight(held, v, name, old(numPages), HotModel.Landed(p, slot), row) ==>
                && Valid()
                && (State().pages, answer) == HotModel.Overwrite(TablePages(v, name, old(numPages)), p, slot, row)
    {
      hide BufferManager.Valid, Coherent, View, JustUsed, IsTable, TablePages, BTreeFile.BTree.Valid, HotModel.Overwrite,
           Moving, Right, Insert, Move;
      moved, held := false, bm.State();
      answer := HotModel.Updated;
      var done := UpdateWithin(bm, name, numPages, v, TablePages(v, name, numPages), p, slot, frame, row);
      if !done {
        moved, held := true, bm.State();
        NowMoving(bm, v, name, numPages, p, slot, frame, row);
        answer := MoveHeld(v, p, slot, frame, row);
      }
    }

    /** handler_update: whatever it does while it holds one page at a time is the state change of HotModel.
        If the row moves to another page, the pool makes the transition that HeldUpdate speaks of, and the
        state change is that of HotModel if this is right. */
    method HandleUpdate(rowId: int, row: seq<byte>)
      returns (answer: HotModel.UpdateAnswer, ghost moved: bool, ghost held: Manager)
      requires Valid() && bm.accessClock + numPages + 70 < LLONG_MAX
      modifies this, bm, bm.frames, bm.table, bm.table.buckets, bm.table.model.nodes
      ensures bm.Valid() && index.Valid() && fresh(bm.table.model.nodes - old(bm.table.model.nodes))
      ensures moved ==>
                MoveMade(held, bm.State(), old(Store(bm)), name, old(numPages), HotModel.LandingOf(old(State()).pages, rowId), row)
      ensures !moved || MoveRight(held, old(Store(bm)), name, old(numPages), HotModel.LandingOf(old(State()).pages, rowId), row) ==>
                && Valid()
                && (State(), answer) == Changed(old(State()), HotModel.HandleUpdate(old(State()).pages, rowId, row))
    {
      hide BufferManager.Valid, Coherent, View, Holds, IsTable, TablePages, BTreeFile.BTree.Valid, HotModel.LandingOf,
           HotModel.HandleUpdate, HotModel.Overwrite, MoveMade, MoveRight;
      ghost var v, pages := Store(bm), State().pages;
      HotModel.UpdateByLanding(pages, rowId, row);
      moved, held := false, bm.State();
      if row == [] {
        return HotModel.Rejected, moved, held;
      }
      var landed, p, slot, frame := FindSlot(bm, name, numPages, pages, rowId);
      if !landed {
        return HotModel.NoSuchRow, moved, held;
      }
      answer, moved, held := UpdateLanded(v, p, slot, frame, row);
    }
  }

  lemma NowMoving(bm: BufferManager, v: map<Key, PageData>, name: TableName, n: int, p: int, s: int, frame: int, row: seq<byte>)
    requires IsTable(v, name, n) && Holds(bm, name, v, p, frame) && MustMove(TablePages(v, name, n), p, s, row)
    ensures bm.Valid() && Moving(bm.State(), v, name, n, p, s, row) && StillHeld(bm.State(), Key(name, p), frame)
  {
    hide BufferManager.Valid, Coherent, View, JustUsed, IsTable, TablePages, MustMove, Scene, Links;
    PageAccess.PoolNotEmpty(bm);
    MoveScene(bm.State(), name, n, p, s, row);
    HeldNow(bm.State(), Key(name, p));
  }

  /** A table with its pages changed by an update. */
  function Changed(t: Table, r: (seq<Page>, HotModel.UpdateAnswer)): (Table, HotModel.UpdateAnswer) {
    (t.(pages := r.0), r.1)
  }

  lemma {:induction false} CollectedSlots(page: Page, p: int, n: nat, chosen: seq<byte> -> bool)
    requires n <= |page.slots| && Roomy(page)
    ensures |CollectSlots(page, p, n, chosen)| <= n
  {
    if n > 0 {
      CollectedSlots(page, p, n - 1, chosen);
    }
  }

  /** No more rows are collected than pages can have slots. */
  lemma {:induction false} CollectedCount(pages: seq<Page>, n: nat, chosen: seq<byte> -> bool)
    requires AllRoomy(pages) && 1 <= n <= |pages|
    ensures |CollectPages(pages, n, chosen)| <= 340 * (n - 1)
  {
    if n > 1 {
      CollectedCount(pages, n - 1, chosen);
      CollectedSlots(pages[n - 1], n - 1, |pages[n - 1].slots|, chosen);
      Capacity(pages[n - 1], 0);
    }
  }
}
