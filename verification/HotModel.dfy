/** UPDATE and SCAN of `server/handlers.c` on the pages of one table: an update that changes the size
    of a row stores a new row and turns the old slot into a redirect (a HOT chain). */
module HotModel {
  import opened PoolModel
  import opened PageModel
  import opened RowIds
  import opened HeapModel

  const MAX_HOPS := 64

  datatype Landing = Landed(page: int, slot: int) | Lost

  /** The redirect loop of handler_update, with the number of redirects taken so far. */
  function Follow(pages: seq<Page>, p: int, s: int, hops: nat): (l: Landing)
    requires Exists(pages, p, s) && hops <= MAX_HOPS
    ensures l.Landed? ==> Exists(pages, l.page, l.slot) && !pages[l.page].slots[l.slot].Redirect?
    decreases MAX_HOPS - hops
  {
    match pages[p].slots[s]
    case Redirect(target) =>
      if hops == MAX_HOPS || !Exists(pages, PageOf(target), SlotOf(target)) then Lost
      else Follow(pages, PageOf(target), SlotOf(target), hops + 1)
    case _ => Landed(p, s)
  }

  datatype UpdateAnswer = Updated | NoSuchRow | Rejected | OutOfSpace

  function WithSlot(pages: seq<Page>, p: int, s: int, slot: Slot): seq<Page>
    requires Exists(pages, p, s)
  {
    pages[p := pages[p].(slots := pages[p].slots[s := slot])]
  }

  /** Where a row of a new size goes: to the page of the old one if it has room, or else anywhere. */
  function Relocate(pages: seq<Page>, p: int, row: seq<byte>): Place
    requires 1 <= p < |pages|
  {
    var (page, slot) := Insert(pages[p], row);
    if slot >= 0 then Place(pages[p := page], p, slot) else PutRow(pages, row)
  }

  /** handler_update, once the live slot has been found. */
  function Overwrite(pages: seq<Page>, p: int, s: int, row: seq<byte>): (seq<Page>, UpdateAnswer)
    requires AllRoomy(pages) && Exists(pages, p, s)
  {
    var old' := pages[p].slots[s];
    if old'.Normal? && |old'.row| == |row| then (WithSlot(pages, p, s, Normal(row)), Updated)
    else
      RelocateMeaning(pages, p, row);
      var r := Relocate(pages, p, row);
      if r.slot < 0 then (r.pages, OutOfSpace)
      else (WithSlot(r.pages, p, s, Redirect(EncodeRowId(r.page, r.slot))), Updated)
  }

  /** handler_update */
  function HandleUpdate(pages: seq<Page>, id: int, row: seq<byte>): (seq<Page>, UpdateAnswer)
    requires AllRoomy(pages)
  {
    var p, s := PageOf(id), SlotOf(id);
    if row == [] then (pages, Rejected)
    else if p <= 0 || !Exists(pages, p, s) || pages[p].slots[s].Deleted? then (pages, NoSuchRow)
    else
      var l := Follow(pages, p, s, 0);
      if l.Lost? then (pages, NoSuchRow) else Overwrite(pages, l.page, l.slot, row)
  }

  /** The slot at the end of the chain that a RowID names, if there is one. */
  function LandingOf(pages: seq<Page>, id: int): (l: Landing)
    ensures l.Landed? ==> Exists(pages, l.page, l.slot) && !pages[l.page].slots[l.slot].Redirect?
  {
    var p, s := PageOf(id), SlotOf(id);
    if p <= 0 || !Exists(pages, p, s) || pages[p].slots[s].Deleted? then Lost else Follow(pages, p, s, 0)
  }

  lemma UpdateByLanding(pages: seq<Page>, id: int, row: seq<byte>)
    requires AllRoomy(pages)
    ensures HandleUpdate(pages, id, row) ==
              if row == [] then (pages, Rejected)
              else match LandingOf(pages, id)
                   case Lost => (pages, NoSuchRow)
                   case Landed(p, s) => Overwrite(pages, p, s, row)
  {
  }

  lemma RelocateMeaning(pages: seq<Page>, p: int, row: seq<byte>)
    requires AllRoomy(pages) && 1 <= p < |pages|
    ensures var r := Relocate(pages, p, row);
            && AllRoomy(r.pages)
            && |pages| <= |r.pages| <= |pages| + 1
            && (r.slot >= 0 <==> |row| <= 4072)
            && (r.slot < 0 ==> r.pages == pages + [EMPTY_PAGE])
            && (r.slot >= 0 ==> StoredAt(pages, row, r))
            && forall s :: Exists(pages, p, s) ==> Exists(r.pages, p, s)
  {
    PutRowMeaning(pages, row);
    InsertMeaning(pages[p], row);
    InsertKeepsRoomy(pages[p], row);
    Capacity(pages[p], |row|);
    Capacity(Insert(pages[p], row).0, |row|);
  }

  // ---------------------------------------------------------------- SCAN

  datatype ScannedRow = ScannedRow(id: int, row: seq<byte>)

  function ScanSlots(page: Page, p: int, n: nat): seq<ScannedRow>
    requires n <= |page.slots| && Roomy(page)
  {
    if n == 0 then []
    else
      var before, slot := ScanSlots(page, p, n - 1), page.slots[n - 1];
      if slot.Normal? && slot.row != [] then before + [ScannedRow(EncodeRowId(p, n - 1), slot.row)] else before
  }

  /** The rows that handler_scan gathers from the pages below n. */
  function ScanPages(pages: seq<Page>, n: nat): seq<ScannedRow>
    requires AllRoomy(pages) && 1 <= n <= |pages|
  {
    if n == 1 then []
    else ScanPages(pages, n - 1) + ScanSlots(pages[n - 1], n - 1, |pages[n - 1].slots|)
  }
}
