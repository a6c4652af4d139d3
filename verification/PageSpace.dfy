/** How much fits on a slotted page, counted in bytes: a header of 12, an entry of 8 for each slot, and 4
    for the size of each row ever stored.  Deleting gives nothing back. */
module PageSpace {
  import opened PoolModel
  import opened PageModel
  import opened HeapModel

  /** The number of bytes between the slot directory and the rows. */
  function Gap(p: Page): int {
    p.freeEnd - (12 + 8 * |p.slots|)
  }

  /** insert_row finds room exactly if the gap takes the row, its size and a slot entry, needed or not. */
  lemma RoomIff(p: Page, row: seq<byte>)
    ensures Insert(p, row).1 >= 0 <==> Gap(p) >= |row| + 12
    ensures Insert(p, row).1 < 0 ==> Insert(p, row) == (p, -1)
  {
  }

  /** It takes the first deleted slot, or else a new one, and the row lies just below the others. */
  lemma PlaceTaken(p: Page, row: seq<byte>)
    requires Gap(p) >= |row| + 12
    ensures var (q, i) := Insert(p, row);
            && 0 <= i <= |p.slots| && (i < |p.slots| ==> p.slots[i].Deleted?)
            && (forall j :: 0 <= j < i ==> !p.slots[j].Deleted?)
            && q.slots == (if i < |p.slots| then p.slots[i := Normal(row)] else p.slots + [Normal(row)])
            && q.freeEnd == p.freeEnd - |row| - 4
  {
  }

  // ---------------------------------------------------------------- a new page

  /** The page after the rows have been inserted one after another, and whether all went in. */
  function InsertAll(p: Page, rows: seq<seq<byte>>): (Page, bool)
    decreases |rows|
  {
    if rows == [] then (p, true)
    else
      var (q, i) := Insert(p, rows[0]);
      if i < 0 then (q, false) else InsertAll(q, rows[1..])
  }

  /** What rows cost: their bytes, their size and their slot. */
  function Cost(rows: seq<seq<byte>>): nat {
    if rows == [] then 0 else |rows[0]| + 12 + Cost(rows[1..])
  }

  lemma {:induction false} InsertAllIff(p: Page, rows: seq<seq<byte>>)
    requires forall i :: 0 <= i < |p.slots| ==> !p.slots[i].Deleted?
    ensures InsertAll(p, rows).1 <==> rows == [] || Cost(rows) <= Gap(p)
    decreases |rows|
  {
    if rows != [] {
      RoomIff(p, rows[0]);
      if Gap(p) >= |rows[0]| + 12 {
        PlaceTaken(p, rows[0]);
        InsertAllIff(Insert(p, rows[0]).0, rows[1..]);
      }
    }
  }

  /** Rows all go into a new page if and only if they cost at most 4084 bytes. */
  lemma NewPageTakes(rows: seq<seq<byte>>)
    ensures InsertAll(EMPTY_PAGE, rows).1 <==> Cost(rows) <= 4084
  {
    InsertAllIff(EMPTY_PAGE, rows);
  }

  // ---------------------------------------------------------------- any page in use

  /** What the engine does to a page. */
  datatype Edit = InsertEdit(row: seq<byte>) | DeleteEdit(slot: int) | RewriteEdit(slot: int, row: seq<byte>) | RedirectEdit(slot: int, target: int)

  function Edited(p: Page, e: Edit): Page {
    match e
    case InsertEdit(row) => Insert(p, row).0
    case DeleteEdit(s) => Delete(p, s)
    case RewriteEdit(s, row) => if 0 <= s < |p.slots| then p.(slots := p.slots[s := Normal(row)]) else p
    case RedirectEdit(s, t) => if 0 <= s < |p.slots| then p.(slots := p.slots[s := Redirect(t)]) else p
  }

  function EditAll(p: Page, es: seq<Edit>): Page
    decreases |es|
  {
    if es == [] then p else EditAll(Edited(p, es[0]), es[1..])
  }

  /** The bytes of the rows, with their sizes, that the edits stored. */
  function Stored(p: Page, es: seq<Edit>): nat
    decreases |es|
  {
    if es == [] then 0
    else (if es[0].InsertEdit? && Insert(p, es[0].row).1 >= 0 then |es[0].row| + 4 else 0) + Stored(Edited(p, es[0]), es[1..])
  }

  lemma {:induction false} GapShrinks(p: Page, es: seq<Edit>)
    ensures EditAll(p, es).freeEnd == p.freeEnd - Stored(p, es)
    decreases |es|
  {
    if es != [] {
      if es[0].InsertEdit? {
        RoomIff(p, es[0].row);
        if Insert(p, es[0].row).1 >= 0 {
          PlaceTaken(p, es[0].row);
        }
      }
      GapShrinks(Edited(p, es[0]), es[1..]);
    }
  }

  /** After any edits of a new page, a row of n bytes goes in if and only if n + 12 is at most 4084 minus
      what all rows ever stored took and 8 for each slot there is. */
  lemma UsedPageTakes(es: seq<Edit>, row: seq<byte>)
    ensures var p := EditAll(EMPTY_PAGE, es);
            Insert(p, row).1 >= 0 <==> |row| + 12 <= 4084 - Stored(EMPTY_PAGE, es) - 8 * |p.slots|
  {
    GapShrinks(EMPTY_PAGE, es);
    RoomIff(EditAll(EMPTY_PAGE, es), row);
  }

  // ---------------------------------------------------------------- any table

  /** A row goes to the first page whose gap takes it, and to a new page only if none does. */
  lemma FirstPageWithRoom(pages: seq<Page>, row: seq<byte>)
    requires |pages| >= 1
    ensures var r := PutRow(pages, row);
            && 1 <= r.page <= |pages|
            && (r.page < |pages| ==> Gap(pages[r.page]) >= |row| + 12)
            && (forall p :: 1 <= p < r.page ==> Gap(pages[p]) < |row| + 12)
            && |r.pages| == (if r.page < |pages| then |pages| else |pages| + 1)
            && (forall p :: 0 <= p < |pages| && p != r.page ==> r.pages[p] == pages[p])
  {
  }
}
