/** Over every run of INSERT and UPDATE the redirect chains implement one logical table: each RowID
    leads to one live slot, and SCAN shows every inserted row once, with its latest payload. */
module HotTheorems {
  import opened Sets
  import opened PoolModel
  import opened PageModel
  import opened RowIds
  import opened HeapModel
  import opened HotModel

  /** One slot ever allocated: where it is, the row it was allocated for, and the allocation it was
      redirected to, -1 while it holds the row itself. */
  datatype Birth = Birth(page: int, slot: int, row: nat, next: int)

  /** All allocations in order, the logical rows in order of insertion, the live allocation of each
      row, and the allocation that made a slot. */
  datatype History = History(log: seq<Birth>, rows: seq<seq<byte>>, tip: seq<nat>, at: map<(int, int), nat>)

  function IdOf(b: Birth): int {
    if 0 <= b.slot < 65536 then EncodeRowId(b.page, b.slot) else -1
  }

  /** Allocation a: live with the latest payload of its row, or redirected to a later one of the row. */
  predicate BirthOk(pages: seq<Page>, h: History, a: nat)
    requires a < |h.log| && |h.tip| == |h.rows|
  {
    var b := h.log[a];
    && Exists(pages, b.page, b.slot)
    && b.row < |h.rows|
    && (b.page, b.slot) in h.at && h.at[(b.page, b.slot)] == a
    && if b.next == -1 then h.tip[b.row] == a && pages[b.page].slots[b.slot] == Normal(h.rows[b.row])
       else
         && a < b.next < |h.log| && h.log[b.next].row == b.row
         && pages[b.page].slots[b.slot] == Redirect(IdOf(h.log[b.next]))
  }

  predicate TipOk(h: History, i: nat)
    requires i < |h.rows| == |h.tip|
  {
    && h.tip[i] < |h.log| && h.log[h.tip[i]].row == i && h.log[h.tip[i]].next == -1
    && 1 <= |h.rows[i]| <= MAX_ROW
  }

  ghost predicate HotOk(pages: seq<Page>, h: History) {
    && AllRoomy(pages) && |pages| <= MAX_PAGES
    && |h.tip| == |h.rows|
    && (forall i :: 0 <= i < |h.rows| ==> TipOk(h, i))
    && (forall a :: 0 <= a < |h.log| ==> BirthOk(pages, h, a))
    && (forall p, s :: Exists(pages, p, s) ==> Recorded(h, p, s))
    && (forall p, s :: (p, s) in h.at ==> Recorded(h, p, s))
  }

  predicate Recorded(h: History, p: int, s: int) {
    && (p, s) in h.at && h.at[(p, s)] < |h.log|
    && h.log[h.at[(p, s)]].page == p && h.log[h.at[(p, s)]].slot == s
  }

  /** RowIDs keep their meaning: allocations are never moved or given to another row. */
  ghost predicate Extends(h: History, g: History) {
    && |h.log| <= |g.log| && |h.rows| <= |g.rows|
    && forall a {:trigger g.log[a]} :: 0 <= a < |h.log| ==>
         g.log[a].page == h.log[a].page && g.log[a].slot == h.log[a].slot && g.log[a].row == h.log[a].row
  }

  // ---------------------------------------------------------------- chains

  /** The number of redirects from allocation a to the live one; targets are always allocated later,
      so chains cannot be circular. */
  function Redirects(h: History, a: nat): nat
    decreases |h.log| - a
  {
    if a < |h.log| && a < h.log[a].next < |h.log| then 1 + Redirects(h, h.log[a].next) else 0
  }

  lemma BirthId(pages: seq<Page>, h: History, a: nat)
    requires HotOk(pages, h) && a < |h.log|
    ensures var b := h.log[a];
            0 <= b.slot < 340 && 1 <= b.page < MAX_PAGES
            && IdOf(b) > 0 && PageOf(IdOf(b)) == b.page && SlotOf(IdOf(b)) == b.slot
  {
    assert BirthOk(pages, h, a);
    Capacity(pages[h.log[a].page], 0);
    RowIdRoundTrip(h.log[a].page, h.log[a].slot);
  }

  /** Whatever slot of its chain an update starts from, it lands on the one live slot of the row,
      unless more than 64 redirects are in between. */
  lemma {:induction false} FollowMeaning(pages: seq<Page>, h: History, a: nat, hops: nat)
    requires HotOk(pages, h) && a < |h.log| && hops <= MAX_HOPS
    ensures Exists(pages, h.log[a].page, h.log[a].slot) && h.log[a].row < |h.rows| && h.tip[h.log[a].row] < |h.log|
    ensures var tip := h.log[h.tip[h.log[a].row]];
            Follow(pages, h.log[a].page, h.log[a].slot, hops)
            == if hops + Redirects(h, a) <= 64 then Landed(tip.page, tip.slot) else Lost
    decreases |h.log| - a
  {
    var b := h.log[a];
    assert BirthOk(pages, h, a);
    assert TipOk(h, b.row);
    if b.next != -1 {
      BirthId(pages, h, b.next);
      if hops < MAX_HOPS {
        FollowMeaning(pages, h, b.next, hops + 1);
      }
    }
  }

  // ---------------------------------------------------------------- INSERT

  /** A new row in a new slot. */
  ghost function WithRow(h: History, p: int, s: int, row: seq<byte>): History {
    History(h.log + [Birth(p, s, |h.rows|, -1)], h.rows + [row], h.tip + [|h.log|], h.at[(p, s) := |h.log|])
  }

  /** No slot is ever deleted in these runs, so a stored row always gets a new one. */
  lemma StoredInNewSlot(pages: seq<Page>, h: History, row: seq<byte>, r: Place)
    requires HotOk(pages, h) && StoredAt(pages, row, r)
    ensures !Exists(pages, r.page, r.slot)
  {
    NothingDeleted(pages, h, r.page, r.slot);
  }

  lemma NothingDeleted(pages: seq<Page>, h: History, p: int, s: int)
    requires HotOk(pages, h)
    ensures Exists(pages, p, s) ==> !pages[p].slots[s].Deleted?
  {
    if Exists(pages, p, s) {
      assert Recorded(h, p, s);
      assert BirthOk(pages, h, h.at[(p, s)]);
    }
  }

  lemma RowAddedOk(pages: seq<Page>, h: History, row: seq<byte>, r: Place)
    requires HotOk(pages, h) && StoredAt(pages, row, r) && AllRoomy(r.pages) && |r.pages| <= MAX_PAGES
    requires 1 <= |row| <= MAX_ROW
    ensures HotOk(r.pages, WithRow(h, r.page, r.slot, row))
    ensures Extends(h, WithRow(h, r.page, r.slot, row))
  {
    hide IdOf;
    var g := WithRow(h, r.page, r.slot, row);
    StoredInNewSlot(pages, h, row, r);
    forall a | 0 <= a < |g.log|
      ensures BirthOk(r.pages, g, a)
    {
      if a < |h.log| {
        assert BirthOk(pages, h, a);
        assert Exists(pages, h.log[a].page, h.log[a].slot);
      }
    }
    forall i | 0 <= i < |g.rows|
      ensures TipOk(g, i)
    {
      if i < |h.rows| {
        assert TipOk(h, i);
      }
    }
    forall p, s | Exists(r.pages, p, s)
      ensures Recorded(g, p, s)
    {
      if !(p == r.page && s == r.slot) {
        assert Exists(pages, p, s) && Recorded(h, p, s);
      }
    }
    forall p, s | (p, s) in g.at
      ensures Recorded(g, p, s)
    {
      assert (p, s) in h.at ==> Recorded(h, p, s);
    }
  }

  lemma EmptyPageOk(pages: seq<Page>, h: History)
    requires HotOk(pages, h) && |pages| < MAX_PAGES
    ensures HotOk(pages + [EMPTY_PAGE], h)
  {
    var qs := pages + [EMPTY_PAGE];
    forall p, s
      ensures Exists(qs, p, s) <==> Exists(pages, p, s)
    {
    }
    forall a | 0 <= a < |h.log|
      ensures BirthOk(qs, h, a)
    {
      assert BirthOk(pages, h, a) && Exists(qs, h.log[a].page, h.log[a].slot);
    }
  }

  // ---------------------------------------------------------------- UPDATE

  /** The live slot of row i has new bytes of the same size. */
  ghost function WithBytes(h: History, i: nat, row: seq<byte>): History
    requires i < |h.rows|
  {
    h.(rows := h.rows[i := row])
  }

  lemma OverwrittenOk(pages: seq<Page>, h: History, i: nat, row: seq<byte>)
    requires HotOk(pages, h) && i < |h.rows| && |row| == |h.rows[i]|
    ensures h.tip[i] < |h.log| && Exists(pages, h.log[h.tip[i]].page, h.log[h.tip[i]].slot)
    ensures var tip := h.log[h.tip[i]];
            HotOk(WithSlot(pages, tip.page, tip.slot, Normal(row)), WithBytes(h, i, row))
  {
    hide IdOf;
    assert TipOk(h, i);
    assert BirthOk(pages, h, h.tip[i]);
    var tip := h.log[h.tip[i]];
    var qs, g := WithSlot(pages, tip.page, tip.slot, Normal(row)), WithBytes(h, i, row);
    SlotReplaced(pages, tip.page, tip.slot, Normal(row));
    forall a | 0 <= a < |g.log|
      ensures BirthOk(qs, g, a)
    {
      assert BirthOk(pages, h, a);
    }
    forall j | 0 <= j < |g.rows|
      ensures TipOk(g, j)
    {
      assert TipOk(h, j);
    }
    forall p, s | Exists(qs, p, s)
      ensures Recorded(g, p, s)
    {
      assert Exists(pages, p, s) && Recorded(h, p, s);
    }
    forall p, s | (p, s) in g.at
      ensures Recorded(g, p, s)
    {
      assert (p, s) in h.at ==> Recorded(h, p, s);
    }
  }

  lemma SlotReplaced(pages: seq<Page>, p: int, s: int, slot: Slot)
    requires AllRoomy(pages) && Exists(pages, p, s)
    ensures var qs := WithSlot(pages, p, s, slot);
            && AllRoomy(qs) && |qs| == |pages|
            && (forall q, r {:trigger Exists(qs, q, r)} {:trigger Exists(pages, q, r)} ::
                  && (Exists(qs, q, r) <==> Exists(pages, q, r))
                  && (Exists(pages, q, r) ==>
                        qs[q].slots[r] == if q == p && r == s then slot else pages[q].slots[r]))
  {
  }

  /** The live slot of row i now points at a new one with the new bytes. */
  ghost function WithMove(h: History, i: nat, p: int, s: int, row: seq<byte>): History
    requires i < |h.rows| == |h.tip| && h.tip[i] < |h.log|
  {
    var a, n := h.tip[i], |h.log|;
    History(h.log[a := h.log[a].(next := n)] + [Birth(p, s, i, -1)],
            h.rows[i := row], h.tip[i := n], h.at[(p, s) := n])
  }

  lemma MovedOk(pages: seq<Page>, h: History, i: nat, row: seq<byte>, r: Place)
    requires HotOk(pages, h) && i < |h.rows| && h.tip[i] < |h.log|
    requires StoredAt(pages, row, r) && AllRoomy(r.pages) && |r.pages| <= MAX_PAGES && 1 <= |row| <= MAX_ROW
    ensures Exists(r.pages, h.log[h.tip[i]].page, h.log[h.tip[i]].slot)
    ensures var tip, g := h.log[h.tip[i]], WithMove(h, i, r.page, r.slot, row);
            && HotOk(WithSlot(r.pages, tip.page, tip.slot, Redirect(EncodeRowId(r.page, r.slot))), g)
            && Extends(h, g)
  {
    hide EncodeRowId;
    var t := h.tip[i];
    assert TipOk(h, i);
    assert BirthOk(pages, h, t);
    var tip, g := h.log[t], WithMove(h, i, r.page, r.slot, row);
    StoredInNewSlot(pages, h, row, r);
    assert Exists(pages, tip.page, tip.slot) && Exists(r.pages, tip.page, tip.slot);
    var target := Redirect(EncodeRowId(r.page, r.slot));
    var qs := WithSlot(r.pages, tip.page, tip.slot, target);
    SlotReplaced(r.pages, tip.page, tip.slot, target);
    forall a | 0 <= a < |g.log|
      ensures BirthOk(qs, g, a)
    {
      if a < |h.log| {
        assert BirthOk(pages, h, a);
        assert Exists(pages, h.log[a].page, h.log[a].slot) && Exists(r.pages, h.log[a].page, h.log[a].slot);
      }
    }
    forall j | 0 <= j < |g.rows|
      ensures TipOk(g, j)
    {
      assert TipOk(h, j);
    }
    forall p, s | Exists(qs, p, s)
      ensures Recorded(g, p, s)
    {
      if !(p == r.page && s == r.slot) {
        assert Exists(r.pages, p, s) && Exists(pages, p, s) && Recorded(h, p, s);
      }
    }
    forall p, s | (p, s) in g.at
      ensures Recorded(g, p, s)
    {
      assert (p, s) in h.at ==> Recorded(h, p, s);
    }
  }

  /** The allocation that a RowID names, -1 if it names none. */
  ghost function Named(h: History, id: int): int {
    if (PageOf(id), SlotOf(id)) in h.at then h.at[(PageOf(id), SlotOf(id))] else -1
  }

  /** What an update does to the history, given the pages it leaves behind. */
  ghost function AfterUpdate(h: History, id: int, row: seq<byte>, after: seq<Page>): History
    requires 0 <= Named(h, id) < |h.log| && h.log[Named(h, id)].row < |h.rows| == |h.tip|
    requires h.tip[h.log[Named(h, id)].row] < |h.log|
  {
    var i := h.log[Named(h, id)].row;
    var tip := h.log[h.tip[i]];
    if |h.rows[i]| == |row| then WithBytes(h, i, row)
    else if Exists(after, tip.page, tip.slot) && after[tip.page].slots[tip.slot].Redirect? then
      var target := after[tip.page].slots[tip.slot].target;
      WithMove(h, i, PageOf(target), SlotOf(target), row)
    else h
  }

  lemma NamedSlot(pages: seq<Page>, h: History, id: int)
    requires HotOk(pages, h)
    ensures Named(h, id) != -1 <==> Exists(pages, PageOf(id), SlotOf(id))
    ensures Named(h, id) != -1 ==>
              var a := Named(h, id);
              && a < |h.log| && h.log[a].page == PageOf(id) && h.log[a].slot == SlotOf(id)
              && h.log[a].row < |h.rows| && h.tip[h.log[a].row] < |h.log|
  {
    hide IdOf;
    var p, s := PageOf(id), SlotOf(id);
    if (p, s) in h.at {
      assert Recorded(h, p, s);
      assert BirthOk(pages, h, h.at[(p, s)]);
      assert TipOk(h, h.log[h.at[(p, s)]].row);
    }
  }

  /** Once the live slot is found, an update succeeds exactly if its payload fits a page. */
  lemma OverwriteMeaning(pages: seq<Page>, h: History, i: nat, row: seq<byte>)
    requires HotOk(pages, h) && i < |h.rows| && row != [] && h.tip[i] < |h.log|
    requires Exists(pages, h.log[h.tip[i]].page, h.log[h.tip[i]].slot)
    requires |Overwrite(pages, h.log[h.tip[i]].page, h.log[h.tip[i]].slot, row).0| <= MAX_PAGES
    ensures var tip := h.log[h.tip[i]];
            var (qs, answer) := Overwrite(pages, tip.page, tip.slot, row);
            && (answer == Updated <==> |row| <= MAX_ROW)
            && (answer == OutOfSpace <==> |row| > MAX_ROW)
            && (|h.rows[i]| == |row| ==> answer == Updated && HotOk(qs, WithBytes(h, i, row)))
            && (|h.rows[i]| != |row| && answer == Updated ==>
                  && Exists(qs, tip.page, tip.slot) && qs[tip.page].slots[tip.slot].Redirect?
                  && var target := qs[tip.page].slots[tip.slot].target;
                     var g := WithMove(h, i, PageOf(target), SlotOf(target), row);
                     HotOk(qs, g) && Extends(h, g))
            && (answer == OutOfSpace ==> qs == pages + [EMPTY_PAGE] && HotOk(qs, h))
  {
    hide PageOf, SlotOf, EncodeRowId, Relocate;
    var tip := h.log[h.tip[i]];
    assert TipOk(h, i);
    assert BirthOk(pages, h, h.tip[i]);
    if |h.rows[i]| == |row| {
      OverwrittenOk(pages, h, i, row);
    } else {
      RelocateMeaning(pages, tip.page, row);
      var r := Relocate(pages, tip.page, row);
      if r.slot < 0 {
        EmptyPageOk(pages, h);
      } else {
        assert Exists(r.pages, tip.page, tip.slot);
        SlotReplaced(r.pages, tip.page, tip.slot, Redirect(EncodeRowId(r.page, r.slot)));
        MovedOk(pages, h, i, row, r);
        RowIdRoundTrip(r.page, r.slot);
      }
    }
  }

  /** UPDATE through any RowID of a row.  It succeeds if and only if the RowID names a slot, at most 64
      redirects lead from there to the live slot, and the payload has 1 to 4072 bytes; it then changes
      the payload of that row only, and all RowIDs keep naming the rows they named. */
  lemma UpdateKeepsTable(pages: seq<Page>, h: History, id: int, row: seq<byte>)
    requires HotOk(pages, h) && |HandleUpdate(pages, id, row).0| <= MAX_PAGES
    ensures var (qs, answer) := HandleUpdate(pages, id, row);
            var a := Named(h, id);
            && (a != -1 ==> 0 <= a < |h.log| && h.log[a].row < |h.rows| && h.tip[h.log[a].row] < |h.log|)
            && (answer == Updated <==> a != -1 && Redirects(h, a) <= 64 && 1 <= |row| <= 4072)
            && (answer == Updated ==>
                  && HotOk(qs, AfterUpdate(h, id, row, qs)) && Extends(h, AfterUpdate(h, id, row, qs))
                  && AfterUpdate(h, id, row, qs).rows == h.rows[h.log[a].row := row])
            && (answer == Rejected <==> row == [])
            && (answer == NoSuchRow <==> row != [] && (a == -1 || Redirects(h, a) > 64))
            && (answer == OutOfSpace <==> a != -1 && Redirects(h, a) <= 64 && |row| > 4072)
            && (answer != Updated ==> HotOk(qs, h) && qs == if answer == OutOfSpace then pages + [EMPTY_PAGE] else pages)
  {
    hide PageOf, SlotOf, Overwrite, HotOk, BirthOk;
    NamedSlot(pages, h, id);
    var a := Named(h, id);
    if row != [] && a != -1 {
      NothingDeleted(pages, h, PageOf(id), SlotOf(id));
      FollowMeaning(pages, h, a, 0);
      if Redirects(h, a) <= MAX_HOPS {
        OverwriteMeaning(pages, h, h.log[a].row, row);
      }
    }
  }

  // ---------------------------------------------------------------- INSERT, with its index check

  /** Every RowID in the index can be told from "not found". */
  ghost predicate IndexPositive(t: Table) {
    forall k :: k in t.index ==> t.index[k] >= 0
  }

  ghost function AfterInsert(h: History, answer: Outcome, row: seq<byte>): History {
    if answer.Inserted? then WithRow(h, PageOf(answer.rowId), SlotOf(answer.rowId), row) else h
  }

  lemma InsertKeepsHistory(t: Table, h: History, row: seq<byte>)
    requires HotOk(t.pages, h) && IndexPositive(t) && |HandleInsert(t, row).0.pages| <= MAX_PAGES
    ensures var (u, answer) := HandleInsert(t, row);
            var g := AfterInsert(h, answer, row);
            && HotOk(u.pages, g) && Extends(h, g) && IndexPositive(u)
            && (answer.Inserted? ==>
                  && Named(g, answer.rowId) == |h.log|
                  && g.log[|h.log|].row == |h.rows| && g.rows == h.rows + [row])
            && (answer.Inserted? <==> !answer.DuplicateKey? && 1 <= |row| <= 4072)
  {
    hide PkOf, HotOk, PageOf, SlotOf, EncodeRowId;
    HotRoomy(t.pages, h);
    var (u, answer) := HandleInsert(t, row);
    if !KeyTaken(t, row) && row != [] {
      var r := PutRow(t.pages, row);
      PutRowMeaning(t.pages, row);
      if r.slot < 0 {
        EmptyPageOk(t.pages, h);
      } else {
        RowIdRoundTrip(r.page, r.slot);
        RowAddedOk(t.pages, h, row, r);
      }
    }
  }

  lemma HotRoomy(pages: seq<Page>, h: History)
    requires HotOk(pages, h)
    ensures AllRoomy(pages)
  {
  }

  // ---------------------------------------------------------------- runs

  datatype Event = InsertEvent(row: seq<byte>) | UpdateEvent(id: int, row: seq<byte>)

  ghost function After(t: Table, e: Event): (u: Table)
    requires AllRoomy(t.pages)
    ensures AllRoomy(u.pages) && |t.pages| <= |u.pages|
  {
    match e
    case InsertEvent(row) => PutRowMeaning(t.pages, row); HandleInsert(t, row).0
    case UpdateEvent(id, row) => UpdateRoomy(t.pages, id, row); t.(pages := HandleUpdate(t.pages, id, row).0)
  }

  lemma UpdateRoomy(pages: seq<Page>, id: int, row: seq<byte>)
    requires AllRoomy(pages)
    ensures AllRoomy(HandleUpdate(pages, id, row).0) && |pages| <= |HandleUpdate(pages, id, row).0|
  {
    if row != [] && Exists(pages, PageOf(id), SlotOf(id)) {
      var l := Follow(pages, PageOf(id), SlotOf(id), 0);
      if l.Landed? {
        RelocateMeaning(pages, l.page, row);
        SlotReplaced(pages, l.page, l.slot, Normal(row));
        var r := Relocate(pages, l.page, row);
        if r.slot >= 0 {
          assert Exists(r.pages, l.page, l.slot);
          SlotReplaced(r.pages, l.page, l.slot, Redirect(EncodeRowId(r.page, r.slot)));
        }
      }
    }
  }

  ghost function Run(t: Table, events: seq<Event>): (u: Table)
    requires AllRoomy(t.pages)
    ensures AllRoomy(u.pages) && |t.pages| <= |u.pages|
    decreases |events|
  {
    if events == [] then t else Run(After(t, events[0]), events[1..])
  }

  /** The row that a RowID belongs to. */
  ghost function RowOf(h: History, id: int): nat {
    if 0 <= Named(h, id) < |h.log| then h.log[Named(h, id)].row else 0
  }

  /** The logical table: INSERT appends a row, UPDATE replaces the row of its RowID, and what fails
      changes nothing. */
  ghost function Replay(t: Table, events: seq<Event>, rows: seq<seq<byte>>, owner: History): seq<seq<byte>>
    requires AllRoomy(t.pages)
    decreases |events|
  {
    if events == [] then rows
    else
      var u, rest := After(t, events[0]), events[1..];
      match events[0]
      case InsertEvent(row) =>
        Replay(u, rest, if HandleInsert(t, row).1.Inserted? then rows + [row] else rows, owner)
      case UpdateEvent(id, row) =>
        var i := RowOf(owner, id);
        Replay(u, rest, if HandleUpdate(t.pages, id, row).1 == Updated && i < |rows| then rows[i := row] else rows, owner)
  }

  /** The RowID that the n-th successful INSERT returned belongs to row n, for the whole run. */
  ghost predicate IssuedIdsKept(t: Table, events: seq<Event>, n: nat, owner: History)
    requires AllRoomy(t.pages)
    decreases |events|
  {
    events == [] ||
    (var u, rest := After(t, events[0]), events[1..];
     match events[0]
     case InsertEvent(row) =>
       var answer := HandleInsert(t, row).1;
       && (answer.Inserted? ==> Named(owner, answer.rowId) != -1 && RowOf(owner, answer.rowId) == n)
       && IssuedIdsKept(u, rest, if answer.Inserted? then n + 1 else n, owner)
     case UpdateEvent(_, _) => IssuedIdsKept(u, rest, n, owner))
  }

  /** An allocation that is named stays named. */
  lemma NameKept(ps: seq<Page>, h: History, qs: seq<Page>, g: History, id: int)
    requires HotOk(ps, h) && HotOk(qs, g) && Extends(h, g) && Named(h, id) != -1
    ensures Named(g, id) != -1 && RowOf(g, id) == RowOf(h, id)
  {
    NamedSlot(ps, h, id);
    var a := Named(h, id);
    assert BirthOk(qs, g, a);
    assert g.log[a].page == h.log[a].page;
  }

  lemma ExtendsTransitive(h: History, g: History, f: History)
    requires Extends(h, g) && Extends(g, f)
    ensures Extends(h, f)
  {
    forall a | 0 <= a < |h.log|
      ensures f.log[a].page == h.log[a].page && f.log[a].slot == h.log[a].slot && f.log[a].row == h.log[a].row
    {
      assert g.log[a].page == h.log[a].page && f.log[a].page == g.log[a].page;
    }
  }

  ghost function HistoryAfter(t: Table, h: History, e: Event): History
    requires HotOk(t.pages, h)
  {
    match e
    case InsertEvent(row) => AfterInsert(h, HandleInsert(t, row).1, row)
    case UpdateEvent(id, row) =>
      NamedSlot(t.pages, h, id);
      if HandleUpdate(t.pages, id, row).1 == Updated && Named(h, id) != -1
      then AfterUpdate(h, id, row, HandleUpdate(t.pages, id, row).0) else h
  }

  lemma StepKeepsHistory(t: Table, h: History, e: Event)
    requires HotOk(t.pages, h) && IndexPositive(t) && |After(t, e).pages| <= MAX_PAGES
    ensures HotOk(After(t, e).pages, HistoryAfter(t, h, e)) && IndexPositive(After(t, e))
    ensures Extends(h, HistoryAfter(t, h, e))
  {
    match e
    case InsertEvent(row) => InsertKeepsHistory(t, h, row);
    case UpdateEvent(id, row) => UpdateKeepsTable(t.pages, h, id, row);
  }

  /** The history at the end of a run. */
  ghost function HistoryRun(t: Table, h: History, events: seq<Event>): (g: History)
    requires HotOk(t.pages, h) && IndexPositive(t) && |Run(t, events).pages| <= MAX_PAGES
    ensures HotOk(Run(t, events).pages, g) && Extends(h, g)
    decreases |events|
  {
    if events == [] then h
    else
      var u, h' := After(t, events[0]), HistoryAfter(t, h, events[0]);
      StepKeepsHistory(t, h, events[0]);
      var g := HistoryRun(u, h', events[1..]);
      ExtendsTransitive(h, h', g);
      g
  }

  /** HOT update refines a plain table.  Over every run of INSERT and UPDATE that stays within the pages
      a RowID can name, in the history of the run every RowID ever returned belongs to the row it was
      returned for, every chain leads to that row's one live slot, and the live slots hold what the
      same events do to a plain list of rows. */
  lemma {:induction false} RunRefines(t: Table, h: History, events: seq<Event>)
    requires HotOk(t.pages, h) && IndexPositive(t) && |Run(t, events).pages| <= MAX_PAGES
    ensures var g := HistoryRun(t, h, events);
            && HotOk(Run(t, events).pages, g)
            && g.rows == Replay(t, events, h.rows, g)
            && IssuedIdsKept(t, events, |h.rows|, g)
    decreases |events|
  {
    hide HotOk, HandleInsert, HandleUpdate, Extends;
    HotRoomy(t.pages, h);
    if events != [] {
      var e, g := events[0], HistoryRun(t, h, events);
      var u, h' := After(t, e), HistoryAfter(t, h, e);
      StepKeepsHistory(t, h, e);
      RunRefines(u, h', events[1..]);
      match e {
        case InsertEvent(row) =>
          InsertKeepsHistory(t, h, row);
          var answer := HandleInsert(t, row).1;
          if answer.Inserted? {
            NameKept(u.pages, h', Run(t, events).pages, g, answer.rowId);
          }
        case UpdateEvent(id, row) =>
          UpdateKeepsTable(t.pages, h, id, row);
          if Named(h, id) != -1 {
            NameKept(t.pages, h, Run(t, events).pages, g, id);
          }
      }
    }
  }

  /** A table just created has the empty history. */
  lemma FreshHistory(t: Table)
    requires |t.pages| == 1 && t.index == map[]
    ensures HotOk(t.pages, History([], [], [], map[])) && IndexPositive(t)
  {
  }

  // ---------------------------------------------------------------- SCAN

  /** What SCAN reports of the live slot s of page p. */
  ghost predicate Reports(pages: seq<Page>, p: int, s: int, e: ScannedRow) {
    && Live(pages, p, s) && RowAt(pages, p, s) != [] && 0 <= s < 65536
    && e == ScannedRow(EncodeRowId(p, s), RowAt(pages, p, s))
  }

  lemma {:induction false} ScanSlotsMeaning(pages: seq<Page>, p: int, n: nat, e: ScannedRow)
    requires AllRoomy(pages) && |pages| <= MAX_PAGES && 1 <= p < |pages| && n <= |pages[p].slots|
    ensures e in ScanSlots(pages[p], p, n) <==> exists s :: 0 <= s < n && Reports(pages, p, s, e)
    ensures Distinct(ScanSlots(pages[p], p, n))
  {
    hide EncodeRowId;
    if n > 0 {
      Capacity(pages[p], 0);
      ScanSlotsMeaning(pages, p, n - 1, e);
      var slot := pages[p].slots[n - 1];
      assert Exists(pages, p, n - 1);
      if slot.Normal? && slot.row != [] {
        var last := ScannedRow(EncodeRowId(p, n - 1), slot.row);
        assert Reports(pages, p, n - 1, last);
        ScanSlotsMeaning(pages, p, n - 1, last);
        forall s | 0 <= s < n - 1 && Reports(pages, p, s, last)
          ensures false
        {
          RowIdInjective(p, s, p, n - 1);
        }
      }
    }
  }

  lemma {:induction false} ScanPagesMeaning(pages: seq<Page>, n: nat, e: ScannedRow)
    requires AllRoomy(pages) && 1 <= n <= |pages| <= MAX_PAGES
    ensures e in ScanPages(pages, n) <==> exists p, s :: p < n && Reports(pages, p, s, e)
    ensures Distinct(ScanPages(pages, n))
  {
    hide EncodeRowId;
    if n > 1 {
      var a, b := ScanPages(pages, n - 1), ScanSlots(pages[n - 1], n - 1, |pages[n - 1].slots|);
      ScanPagesMeaning(pages, n - 1, e);
      ScanSlotsMeaning(pages, n - 1, |pages[n - 1].slots|, e);
      forall i, j | 0 <= i < |a| && 0 <= j < |b|
        ensures a[i] != b[j]
      {
        ScanPagesMeaning(pages, n - 1, a[i]);
        ScanSlotsMeaning(pages, n - 1, |pages[n - 1].slots|, b[j]);
        if a[i] == b[j] {
          var p, s :| p < n - 1 && Reports(pages, p, s, a[i]);
          var r :| 0 <= r < |pages[n - 1].slots| && Reports(pages, n - 1, r, b[j]);
          RowIdInjective(p, s, n - 1, r);
        }
      }
    }
  }

  lemma {:induction false} SlotsInOrder(pages: seq<Page>, p: int, n: nat)
    requires AllRoomy(pages) && |pages| <= MAX_PAGES && 1 <= p < |pages| && n <= |pages[p].slots|
    ensures forall i :: 0 <= i < |ScanSlots(pages[p], p, n)| ==>
              p * 65536 <= ScanSlots(pages[p], p, n)[i].id < p * 65536 + n
    ensures forall i, j :: 0 <= i < j < |ScanSlots(pages[p], p, n)| ==>
              ScanSlots(pages[p], p, n)[i].id < ScanSlots(pages[p], p, n)[j].id
  {
    hide EncodeRowId;
    if n > 0 {
      Capacity(pages[p], 0);
      SlotsInOrder(pages, p, n - 1);
      RowIdRoundTrip(p, n - 1);
    }
  }

  /** SCAN goes through pages and slots in order: its RowIDs increase. */
  lemma {:induction false} ScanInOrder(pages: seq<Page>, n: nat)
    requires AllRoomy(pages) && 1 <= n <= |pages| <= MAX_PAGES
    ensures forall i :: 0 <= i < |ScanPages(pages, n)| ==> ScanPages(pages, n)[i].id < n * 65536
    ensures forall i, j :: 0 <= i < j < |ScanPages(pages, n)| ==> ScanPages(pages, n)[i].id < ScanPages(pages, n)[j].id
  {
    if n > 1 {
      Capacity(pages[n - 1], 0);
      ScanInOrder(pages, n - 1);
      SlotsInOrder(pages, n - 1, |pages[n - 1].slots|);
    }
  }

  /** What SCAN should show: every logical row under the RowID of its live slot. */
  ghost function LiveRows(h: History): (s: seq<ScannedRow>)
    requires |h.tip| == |h.rows| && forall i :: 0 <= i < |h.rows| ==> h.tip[i] < |h.log|
    ensures |s| == |h.rows|
  {
    seq(|h.rows|, i requires 0 <= i < |h.rows| => ScannedRow(IdOf(h.log[h.tip[i]]), h.rows[i]))
  }

  lemma TipReported(pages: seq<Page>, h: History, i: nat)
    requires HotOk(pages, h) && i < |h.rows|
    ensures h.tip[i] < |h.log|
    ensures Reports(pages, h.log[h.tip[i]].page, h.log[h.tip[i]].slot, ScannedRow(IdOf(h.log[h.tip[i]]), h.rows[i]))
  {
    assert TipOk(h, i);
    BirthId(pages, h, h.tip[i]);
    assert BirthOk(pages, h, h.tip[i]);
  }

  lemma ReportedIsTip(pages: seq<Page>, h: History, p: int, s: int, e: ScannedRow) returns (i: nat)
    requires HotOk(pages, h) && Reports(pages, p, s, e)
    ensures i < |h.rows| && h.tip[i] < |h.log| && e == ScannedRow(IdOf(h.log[h.tip[i]]), h.rows[i])
  {
    assert Recorded(h, p, s);
    var a := h.at[(p, s)];
    assert BirthOk(pages, h, a);
    i := h.log[a].row;
    assert TipOk(h, i);
  }

  /** SCAN shows exactly one row per logical row, with its latest payload and a RowID that leads
      straight to it. */
  lemma ScanShowsTable(pages: seq<Page>, h: History)
    requires HotOk(pages, h)
    ensures forall i :: 0 <= i < |h.rows| ==> h.tip[i] < |h.log|
    ensures var shown := ScanPages(pages, |pages|);
            && Distinct(shown) && Distinct(LiveRows(h))
            && Elements(shown) == Elements(LiveRows(h))
            && |shown| == |h.rows|
  {
    hide IdOf, ScanPages;
    forall i | 0 <= i < |h.rows|
      ensures h.tip[i] < |h.log|
    {
      TipReported(pages, h, i);
    }
    var shown, live := ScanPages(pages, |pages|), LiveRows(h);
    forall e
      ensures e in shown <==> e in live
    {
      ScanPagesMeaning(pages, |pages|, e);
      if e in shown {
        var p, s :| p < |pages| && Reports(pages, p, s, e);
        var i := ReportedIsTip(pages, h, p, s, e);
        assert live[i] == e;
      }
      if e in live {
        var i :| 0 <= i < |live| && live[i] == e;
        TipReported(pages, h, i);
      }
    }
    LiveRowsDistinct(pages, h);
    ScanPagesMeaning(pages, |pages|, ScannedRow(0, []));
    assert Elements(shown) == Elements(live);
    DistinctElements(shown);
    DistinctElements(live);
  }

  lemma LiveRowsDistinct(pages: seq<Page>, h: History)
    requires HotOk(pages, h)
    requires forall i :: 0 <= i < |h.rows| ==> h.tip[i] < |h.log|
    ensures Distinct(LiveRows(h))
  {
    forall i, j | 0 <= i < j < |h.rows|
      ensures LiveRows(h)[i] != LiveRows(h)[j]
    {
      var a, b := h.tip[i], h.tip[j];
      assert TipOk(h, i) && TipOk(h, j);
      BirthId(pages, h, a);
      BirthId(pages, h, b);
      assert BirthOk(pages, h, a) && BirthOk(pages, h, b);
    }
  }

  /** From a table just created: after any run SCAN shows one row for every successful INSERT, with its
      latest payload. */
  lemma NewTableRefines(t: Table, events: seq<Event>) returns (g: History)
    requires |t.pages| == 1 && t.index == map[] && |Run(t, events).pages| <= MAX_PAGES
    ensures HotOk(Run(t, events).pages, g) && g.rows == Replay(t, events, [], g) && IssuedIdsKept(t, events, 0, g)
    ensures forall i :: 0 <= i < |g.rows| ==> g.tip[i] < |g.log|
    ensures var pages := Run(t, events).pages;
            && Distinct(ScanPages(pages, |pages|))
            && Elements(ScanPages(pages, |pages|)) == Elements(LiveRows(g))
            && |ScanPages(pages, |pages|)| == |g.rows|
  {
    FreshHistory(t);
    g := HistoryRun(t, History([], [], [], map[]), events);
    RunRefines(t, History([], [], [], map[]), events);
    ScanShowsTable(Run(t, events).pages, g);
  }

  // ---------------------------------------------------------------- DELETE after UPDATE

  /** handler_delete asks for the size of every slot that is not deleted, and get_row_size reads it from
      the slot's offset, which for a redirect is its target: all these reads stay inside their pages. */
  ghost predicate SizesReadable(pages: seq<Page>) {
    forall p, s :: Exists(pages, p, s) && pages[p].slots[s].Redirect? ==> 0 <= pages[p].slots[s].target <= PAGE_SIZE - 4
  }

  /** A redirect points at a row that was stored later, and its RowID is no offset of a page. */
  lemma RedirectTooFar(pages: seq<Page>, h: History, p: int, s: int)
    requires HotOk(pages, h) && Exists(pages, p, s) && pages[p].slots[s].Redirect?
    ensures pages[p].slots[s].target >= 65536
  {
    assert Recorded(h, p, s);
    var a := h.at[(p, s)];
    assert BirthOk(pages, h, a);
    var b := h.log[h.log[a].next];
    assert BirthOk(pages, h, h.log[a].next);
    Capacity(pages[b.page], 0);
    RowIdRoundTrip(b.page, b.slot);
  }

  /** Over every run of INSERT and UPDATE on a new table: the DELETE that follows reads inside its pages if
      and only if no UPDATE has left a redirect. */
  lemma DeleteReadsInsideIff(t: Table, events: seq<Event>)
    requires |t.pages| == 1 && t.index == map[] && |Run(t, events).pages| <= MAX_PAGES
    ensures SizesReadable(Run(t, events).pages) <==> NoRedirects(Run(t, events).pages)
  {
    hide HotOk;
    var g := NewTableRefines(t, events);
    var pages := Run(t, events).pages;
    forall p, s | Exists(pages, p, s) && pages[p].slots[s].Redirect?
      ensures pages[p].slots[s].target >= 65536
    {
      RedirectTooFar(pages, g, p, s);
    }
  }
}
