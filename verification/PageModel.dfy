/** A slotted page as a value: what its slots hold and how much room is left. */
module PageModel {
  import opened PoolModel

  const HEADER_SIZE := 12
  const SLOT_SIZE := 8

  /** The longest row that fits an empty page, next to its size prefix and its slot. */
  const MAX_ROW := PAGE_SIZE - HEADER_SIZE - SLOT_SIZE - 4

  datatype Slot = Normal(row: seq<byte>) | Deleted | Redirect(target: int)

  datatype Page = Page(slots: seq<Slot>, freeEnd: int)

  const EMPTY_PAGE := Page([], PAGE_SIZE)

  /** The slot directory does not run into the rows, and every slot paid for a size prefix once. */
  predicate Roomy(p: Page) {
    && HEADER_SIZE + SLOT_SIZE * |p.slots| <= p.freeEnd
    && p.freeEnd + 4 * |p.slots| <= PAGE_SIZE
  }

  /** The slot that insert_row takes: the first deleted one, or else a new one. */
  function ChosenSlot(slots: seq<Slot>): (i: nat)
    ensures i <= |slots|
    ensures i < |slots| ==> slots[i].Deleted?
    ensures forall j :: 0 <= j < i ==> !slots[j].Deleted?
  {
    if slots == [] then 0
    else
      var i := ChosenSlot(slots[..|slots| - 1]);
      if i < |slots| - 1 then i else if slots[|slots| - 1].Deleted? then |slots| - 1 else |slots|
  }

  predicate Fits(p: Page, n: nat) {
    p.freeEnd - HEADER_SIZE - SLOT_SIZE * |p.slots| >= 4 + n + SLOT_SIZE
  }

  function Put(slots: seq<Slot>, i: nat, s: Slot): seq<Slot>
    requires i <= |slots|
  {
    if i == |slots| then slots + [s] else slots[i := s]
  }

  /** insert_row */
  function Insert(p: Page, row: seq<byte>): (Page, int) {
    if !Fits(p, |row|) then (p, -1 as int)
    else
      var i: int := ChosenSlot(p.slots);
      (Page(Put(p.slots, i, Normal(row)), p.freeEnd - 4 - |row|), i)
  }

  /** delete_row */
  function Delete(p: Page, i: int): Page {
    if 0 <= i < |p.slots| then p.(slots := p.slots[i := Deleted]) else p
  }

  lemma InsertKeepsRoomy(p: Page, row: seq<byte>)
    requires Roomy(p)
    ensures Roomy(Insert(p, row).0)
  {
  }

  /** What insert_row promises: the row is readable in the slot returned, every slot that was not
      deleted keeps what it holds, and a deleted slot is reused before the directory grows. */
  lemma InsertMeaning(p: Page, row: seq<byte>)
    ensures var (q, i) := Insert(p, row);
            && (i < 0 <==> !Fits(p, |row|))
            && (i < 0 ==> q == p)
            && (i >= 0 ==>
                  && i < |q.slots| && q.slots[i] == Normal(row)
                  && (i < |p.slots| ==> p.slots[i].Deleted?)
                  && |q.slots| == |p.slots| + (if exists j :: 0 <= j < |p.slots| && p.slots[j].Deleted? then 0 else 1)
                  && forall j :: 0 <= j < |p.slots| && !p.slots[j].Deleted? ==> q.slots[j] == p.slots[j])
  {
  }

  /** A row of n bytes fits a fresh page exactly when n <= MAX_ROW == 4072, and no page has more than 340 slots. */
  lemma Capacity(p: Page, n: nat)
    ensures Fits(EMPTY_PAGE, n) <==> n <= 4072
    ensures Roomy(EMPTY_PAGE)
    ensures Roomy(p) ==> |p.slots| <= 340
    ensures Fits(p, n) && Roomy(p) ==> n <= 4072
  {
  }
}
