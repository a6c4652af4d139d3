/** The primary key index over runs of INSERT and UPDATE.  UPDATE does not maintain it, but while updates
    keep the keys of their rows, every entry leads to its row through the redirect chain. */
module HotIndex {
  import opened PoolModel
  import opened PageModel
  import opened RowCodec
  import opened RowIds
  import opened HeapModel
  import opened HotModel
  import opened HotTheorems

  /** Logical row i has key k. */
  ghost predicate RowHasKey(t: Table, h: History, i: int, k: int) {
    0 <= i < |h.rows| && PkOf(t.schema, h.rows[i]) == Some(k)
  }

  /** A RowID that names some allocation of logical row i. */
  ghost predicate NamesRow(h: History, id: int, i: int) {
    Named(h, id) != -1 && RowOf(h, id) == i
  }

  /** Every key of a row is in the index, every entry names an allocation of the row with its key. */
  ghost predicate IndexNames(t: Table, h: History) {
    && (forall i, k :: RowHasKey(t, h, i, k) ==> k in t.index && NamesRow(h, t.index[k], i))
    && (forall k :: k in t.index ==> exists i :: RowHasKey(t, h, i, k) && NamesRow(h, t.index[k], i))
  }

  /** No two logical rows share a key. */
  lemma KeysUnique(t: Table, h: History, i: int, j: int, k: int)
    requires IndexNames(t, h) && RowHasKey(t, h, i, k) && RowHasKey(t, h, j, k)
    ensures i == j
  {
    assert NamesRow(h, t.index[k], i) && NamesRow(h, t.index[k], j);
  }

  /** An index entry leads to its row: the redirect loop, started at the RowID it holds, lands on the live
      slot of the row with that key, unless more than 64 redirects are in between. */
  lemma EntryLeadsToRow(t: Table, h: History, k: int) returns (i: nat)
    requires HotOk(t.pages, h) && IndexNames(t, h) && k in t.index
    ensures RowHasKey(t, h, i, k) && h.tip[i] < |h.log| && 0 <= Named(h, t.index[k]) < |h.log|
    ensures var p, s, tip := PageOf(t.index[k]), SlotOf(t.index[k]), h.log[h.tip[i]];
            && Exists(t.pages, p, s)
            && Live(t.pages, tip.page, tip.slot) && RowAt(t.pages, tip.page, tip.slot) == h.rows[i]
            && Follow(t.pages, p, s, 0) ==
                 if Redirects(h, Named(h, t.index[k])) <= 64 then Landed(tip.page, tip.slot) else Lost
  {
    var j :| RowHasKey(t, h, j, k) && NamesRow(h, t.index[k], j);
    i := j;
    NamedSlot(t.pages, h, t.index[k]);
    FollowMeaning(t.pages, h, Named(h, t.index[k]), 0);
    assert TipOk(h, i);
    assert BirthOk(t.pages, h, h.tip[i]);
  }

  lemma IndexNamesPositive(t: Table, h: History)
    requires HotOk(t.pages, h) && IndexNames(t, h)
    ensures IndexPositive(t)
  {
    forall k | k in t.index
      ensures t.index[k] >= 0
    {
      var i :| RowHasKey(t, h, i, k) && NamesRow(h, t.index[k], i);
      NamedSlot(t.pages, h, t.index[k]);
      assert PageOf(t.index[k]) >= 1;
    }
  }

  /** DUPLICATE_KEY is answered exactly if a logical row has the key. */
  lemma DuplicateExact(t: Table, h: History, row: seq<byte>)
    requires HotOk(t.pages, h) && IndexNames(t, h)
    ensures AllRoomy(t.pages)
    ensures HandleInsert(t, row).1.DuplicateKey? <==>
              PkOf(t.schema, row).Some? && exists i :: RowHasKey(t, h, i, PkOf(t.schema, row).value)
  {
    hide PkOf;
    IndexNamesPositive(t, h);
  }

  /** Names survive a step. */
  lemma NamesKept(ps: seq<Page>, h: History, qs: seq<Page>, g: History, id: int, i: int)
    requires HotOk(ps, h) && HotOk(qs, g) && Extends(h, g) && NamesRow(h, id, i)
    ensures NamesRow(g, id, i)
  {
    NameKept(ps, h, qs, g, id);
  }

  lemma InsertKeepsNames(t: Table, h: History, row: seq<byte>)
    requires HotOk(t.pages, h) && IndexNames(t, h) && |HandleInsert(t, row).0.pages| <= MAX_PAGES
    ensures var (u, answer) := HandleInsert(t, row); IndexNames(u, AfterInsert(h, answer, row))
  {
    hide PkOf, HotOk, Named, RowOf;
    HotRoomy(t.pages, h);
    IndexNamesPositive(t, h);
    InsertKeepsHistory(t, h, row);
    var (u, answer) := HandleInsert(t, row);
    var g := AfterInsert(h, answer, row);
    InsertedIndex(t, row);
    if answer.Inserted? {
      NewRowNamed(g, answer.rowId, |h.log|, |h.rows|);
      NewRowKeys(t, h, u, g, row);
      forall id, i | NamesRow(h, id, i)
        ensures NamesRow(g, id, i)
      {
        NamesKept(t.pages, h, u.pages, g, id, i);
      }
      IndexGrows(t, h, u, g, PkOf(t.schema, row), answer.rowId);
    } else {
      assert u.schema == t.schema && u.index == t.index && g == h;
      SameKeysSameNames(t, h, u, g);
    }
  }

  lemma NewRowKeys(t: Table, h: History, u: Table, g: History, row: seq<byte>)
    requires u.schema == t.schema && g.rows == h.rows + [row]
    ensures forall i, k :: RowHasKey(u, g, i, k) <==>
              RowHasKey(t, h, i, k) || (i == |h.rows| && PkOf(t.schema, row) == Some(k))
  {
    hide PkOf;
  }

  lemma NewRowNamed(g: History, id: int, a: nat, i: nat)
    requires Named(g, id) == a < |g.log| && g.log[a].row == i
    ensures NamesRow(g, id, i)
  {
  }

  /** What an INSERT does to the index. */
  lemma InsertedIndex(t: Table, row: seq<byte>)
    requires AllRoomy(t.pages) && IndexPositive(t) && |HandleInsert(t, row).0.pages| <= MAX_PAGES
    ensures var (u, answer) := HandleInsert(t, row);
            var key := PkOf(t.schema, row);
            && u.schema == t.schema
            && (answer.Inserted? && key.Some? ==> key.value !in t.index && u.index == t.index[key.value := answer.rowId])
            && (!answer.Inserted? || key.None? ==> u.index == t.index)
  {
    hide PkOf, EncodeRowId;
    PutRowMeaning(t.pages, row);
    if !KeyTaken(t, row) && row != [] && PutRow(t.pages, row).slot >= 0 {
      RowIdRoundTrip(PutRow(t.pages, row).page, PutRow(t.pages, row).slot);
    }
  }

  lemma IndexGrows(t: Table, h: History, u: Table, g: History, key: Option<int>, id: int)
    requires IndexNames(t, h)
    requires u.index == if key.Some? then t.index[key.value := id] else t.index
    requires key.Some? ==> key.value !in t.index
    requires forall i, k :: RowHasKey(u, g, i, k) <==> RowHasKey(t, h, i, k) || (i == |h.rows| && key == Some(k))
    requires forall x, i :: NamesRow(h, x, i) ==> NamesRow(g, x, i)
    requires NamesRow(g, id, |h.rows|)
    ensures IndexNames(u, g)
  {
    hide NamesRow;
    forall k | k in u.index
      ensures exists i :: RowHasKey(u, g, i, k) && NamesRow(g, u.index[k], i)
    {
      if key == Some(k) {
        assert RowHasKey(u, g, |h.rows|, k);
      } else {
        var i :| RowHasKey(t, h, i, k) && NamesRow(h, t.index[k], i);
        assert RowHasKey(u, g, i, k);
      }
    }
  }

  lemma UpdateKeepsNames(t: Table, h: History, id: int, row: seq<byte>)
    requires HotOk(t.pages, h) && IndexNames(t, h) && |HandleUpdate(t.pages, id, row).0| <= MAX_PAGES
    requires HandleUpdate(t.pages, id, row).1 == Updated ==>
               RowOf(h, id) < |h.rows| && PkOf(t.schema, row) == PkOf(t.schema, h.rows[RowOf(h, id)])
    ensures IndexNames(t.(pages := HandleUpdate(t.pages, id, row).0), HistoryAfter(t, h, UpdateEvent(id, row)))
  {
    hide PkOf, HotOk, AfterUpdate;
    HotRoomy(t.pages, h);
    UpdateKeepsTable(t.pages, h, id, row);
    var u := t.(pages := HandleUpdate(t.pages, id, row).0);
    var g := HistoryAfter(t, h, UpdateEvent(id, row));
    forall i, k
      ensures RowHasKey(u, g, i, k) <==> RowHasKey(t, h, i, k)
    {
    }
    forall x, i | NamesRow(h, x, i)
      ensures NamesRow(g, x, i)
    {
      if HandleUpdate(t.pages, id, row).1 == Updated {
        NamesKept(t.pages, h, u.pages, g, x, i);
      }
    }
    SameKeysSameNames(t, h, u, g);
  }

  lemma SameKeysSameNames(t: Table, h: History, u: Table, g: History)
    requires IndexNames(t, h) && u.index == t.index
    requires forall i, k :: RowHasKey(u, g, i, k) <==> RowHasKey(t, h, i, k)
    requires forall x, i :: NamesRow(h, x, i) ==> NamesRow(g, x, i)
    ensures IndexNames(u, g)
  {
    hide NamesRow;
    forall k | k in u.index
      ensures exists i :: RowHasKey(u, g, i, k) && NamesRow(g, u.index[k], i)
    {
      var i :| RowHasKey(t, h, i, k) && NamesRow(h, t.index[k], i);
      assert RowHasKey(u, g, i, k);
    }
  }

  // ---------------------------------------------------------------- runs

  /** Every successful UPDATE of the run gives its row a payload with the key it had. */
  ghost predicate KeysKept(t: Table, events: seq<Event>, rows: seq<seq<byte>>, owner: History)
    requires AllRoomy(t.pages)
    decreases |events|
  {
    events == [] ||
    (var u, rest := After(t, events[0]), events[1..];
     match events[0]
     case InsertEvent(row) =>
       KeysKept(u, rest, if HandleInsert(t, row).1.Inserted? then rows + [row] else rows, owner)
     case UpdateEvent(id, row) =>
       var i := RowOf(owner, id);
       if HandleUpdate(t.pages, id, row).1 == Updated && i < |rows|
       then PkOf(t.schema, row) == PkOf(t.schema, rows[i]) && KeysKept(u, rest, rows[i := row], owner)
       else KeysKept(u, rest, rows, owner))
  }

  /** Every INSERT of the run answers DUPLICATE_KEY exactly if a row of the logical table has its key. */
  ghost predicate DuplicatesExact(t: Table, events: seq<Event>, rows: seq<seq<byte>>, owner: History)
    requires AllRoomy(t.pages)
    decreases |events|
  {
    events == [] ||
    (var u, rest := After(t, events[0]), events[1..];
     match events[0]
     case InsertEvent(row) =>
       var answer, key := HandleInsert(t, row).1, PkOf(t.schema, row);
       && (answer.DuplicateKey? <==> key.Some? && exists i :: 0 <= i < |rows| && PkOf(t.schema, rows[i]) == key)
       && DuplicatesExact(u, rest, if answer.Inserted? then rows + [row] else rows, owner)
     case UpdateEvent(id, row) =>
       var i := RowOf(owner, id);
       DuplicatesExact(u, rest, if HandleUpdate(t.pages, id, row).1 == Updated && i < |rows| then rows[i := row] else rows, owner))
  }

  /** Over every run of INSERT and UPDATE whose updates keep the keys, the index maps exactly the keys of
      the logical rows, each to an allocation of its row, and DUPLICATE_KEY is exact. */
  lemma {:induction false} RunKeepsNames(t: Table, h: History, events: seq<Event>)
    requires HotOk(t.pages, h) && IndexNames(t, h) && IndexPositive(t) && |Run(t, events).pages| <= MAX_PAGES
    requires KeysKept(t, events, h.rows, HistoryRun(t, h, events))
    ensures IndexNames(Run(t, events), HistoryRun(t, h, events))
    ensures DuplicatesExact(t, events, h.rows, HistoryRun(t, h, events))
    decreases |events|
  {
    hide PkOf, HotOk, IndexNames;
    HotRoomy(t.pages, h);
    if events != [] {
      var e, g := events[0], HistoryRun(t, h, events);
      var u, h' := After(t, e), HistoryAfter(t, h, e);
      StepKeepsHistory(t, h, e);
      match e {
        case InsertEvent(row) =>
          InsertKeepsHistory(t, h, row);
          InsertKeepsNames(t, h, row);
          DuplicateExact(t, h, row);
          DuplicateWitness(t, h, row);
        case UpdateEvent(id, row) =>
          UpdateKeepsTable(t.pages, h, id, row);
          if Named(h, id) != -1 {
            NameKept(t.pages, h, Run(t, events).pages, g, id);
          }
          UpdateKeepsNames(t, h, id, row);
      }
      RunKeepsNames(u, h', events[1..]);
    }
  }

  lemma DuplicateWitness(t: Table, h: History, row: seq<byte>)
    ensures PkOf(t.schema, row).Some? ==>
              ((exists i :: RowHasKey(t, h, i, PkOf(t.schema, row).value)) <==>
               (exists i :: 0 <= i < |h.rows| && PkOf(t.schema, h.rows[i]) == PkOf(t.schema, row)))
  {
    hide PkOf;
    forall i | 0 <= i < |h.rows| && PkOf(t.schema, row).Some?
      ensures RowHasKey(t, h, i, PkOf(t.schema, row).value) <==> PkOf(t.schema, h.rows[i]) == PkOf(t.schema, row)
    {
    }
  }

  /** From a table just created. */
  lemma NewTableKeepsNames(t: Table, events: seq<Event>)
    requires |t.pages| == 1 && t.index == map[] && |Run(t, events).pages| <= MAX_PAGES
    ensures HotOk(t.pages, History([], [], [], map[])) && IndexPositive(t)
    ensures var g := HistoryRun(t, History([], [], [], map[]), events);
            KeysKept(t, events, [], g) ==>
              IndexNames(Run(t, events), g) && DuplicatesExact(t, events, [], g)
  {
    FreshHistory(t);
    var h := History([], [], [], map[]);
    assert IndexNames(t, h);
    if KeysKept(t, events, [], HistoryRun(t, h, events)) {
      RunKeepsNames(t, h, events);
    }
  }
}
