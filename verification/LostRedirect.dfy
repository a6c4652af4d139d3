/** An UPDATE that loses its redirect: a table of three pages in a pool of two frames. */
module LostRedirect {
  import opened PoolModel
  import opened PageModel
  import opened EvictionPolicies
  import opened BufferModel
  import opened Transparency
  import opened HeldUpdate
  import opened HeldPolicies
  import opened PooledUpdate
  import SlottedPages

  /** A page that a single row fills. */
  ghost function FullBytes(): PageData {
    SlottedPages.BlankBytesMeaning();
    SlottedPages.InsertedBytes(SlottedPages.BlankBytes(), Zeros(MAX_ROW)).0
  }

  lemma FullPage(row: seq<byte>)
    ensures SlottedPages.WellFormed(FullBytes())
    ensures SlottedPages.View(FullBytes()).slots == [Normal(Zeros(MAX_ROW))]
    ensures Insert(SlottedPages.View(FullBytes()), row).1 == -1
  {
    hide SlottedPages.WellFormed, SlottedPages.View, SlottedPages.InsertedBytes, SlottedPages.BlankBytes;
    SlottedPages.BlankBytesMeaning();
    SlottedPages.InsertedBytesMeaning(SlottedPages.BlankBytes(), Zeros(MAX_ROW));
  }

  const Moved: seq<byte> := [1]

  /** The UPDATE gives the row in slot 0 of a full page one byte instead of 4072. */
  lemma MovedEdits()
    ensures var e := PageEdits(Moved, 0);
            && e.put(FullBytes()).1 == -1 && e.put(SlottedPages.BlankBytes()).1 == 0
            && Links(e, FullBytes())
  {
    hide SlottedPages.WellFormed, SlottedPages.View, SlottedPages.BlankBytes;
    var e := PageEdits(Moved, 0);
    PageEditsMeaning(Moved, 0);
    SlottedPages.BlankBytesMeaning();
    FullPage(Moved);
    forall q: int, slot: SlotNumber | slot >= 0
      ensures e.link(FullBytes(), q, slot) != FullBytes()
    {
      assert SlottedPages.View(e.link(FullBytes(), q, slot)).slots[0].Redirect?;
    }
  }

  const Third := Key("t", 3)
  const Other := Key("u", 1)

  /** Page 3, full, has just been loaded and is held; the other frame has a page of another table.  Page 1
      is full and page 2 is empty. */
  ghost function CrowdedPool(policy: Policy): Manager {
    Manager([LoadedFrame(Third, FullBytes(), 2), LoadedFrame(Other, SlottedPages.BlankBytes(), 1).(pinCount := 0)],
            2, 0, 2, 0, map[Third := 0, Other := 1], policy,
            map[Third := FullBytes(), Other := SlottedPages.BlankBytes(),
                Key("t", 1) := FullBytes(), Key("t", 2) := SlottedPages.BlankBytes()])
  }

  lemma CrowdedCoherent(policy: Policy)
    ensures var m := CrowdedPool(policy); Mapped(m) && Coherent(m, Holding(Third, false))
  {
    hide FullBytes, SlottedPages.BlankBytes;
  }

  lemma CrowdedView(policy: Policy)
    requires Mapped(CrowdedPool(policy))
    ensures var v := View(CrowdedPool(policy));
            && v.Keys == {Third, Other, Key("t", 1), Key("t", 2)} && v[Third] == FullBytes()
            && v[Key("t", 1)] == FullBytes() && v[Key("t", 2)] == SlottedPages.BlankBytes()
  {
    hide FullBytes, SlottedPages.BlankBytes;
  }

  lemma CrowdedPlace(v: map<Key, PageData>)
    requires v.Keys == {Third, Other, Key("t", 1), Key("t", 2)}
    requires v[Key("t", 1)] == FullBytes() && v[Key("t", 2)] == SlottedPages.BlankBytes()
    ensures var flat := FlatPlace(v, "t", 1, 4, PageEdits(Moved, 0)); flat.1 == 2 && flat.2 == 0
  {
    hide FullBytes, SlottedPages.BlankBytes, PageEdits, FlatPlace;
    MovedEdits();
    var e := PageEdits(Moved, 0);
    PlaceFrom(v, 1, e);
    PlaceFrom(v, 2, e);
  }

  lemma PlaceFrom(v: map<Key, PageData>, p: int, e: Edits)
    requires 1 <= p < 4 && v.Keys == {Third, Other, Key("t", 1), Key("t", 2)}
    ensures var (w, slot) := FlatVisit(v, Key("t", p), e);
            FlatPlace(v, "t", p, 4, e) == if slot >= 0 then (w, p, slot) else FlatPlace(v, "t", p + 1, 4, e)
  {
  }

  lemma CrowdedScene(policy: Policy)
    ensures var m, e := CrowdedPool(policy), PageEdits(Moved, 0);
            && Mapped(m) && Coherent(m, Holding(Third, false))
            && Scene(View(m), Third, 1, 4, e) && Links(e, View(m)[Third])
            && FlatPlace(View(m), "t", 1, 4, e).1 == 2 && FlatPlace(View(m), "t", 1, 4, e).2 == 0
  {
    hide FullBytes, SlottedPages.BlankBytes, PageEdits, FlatPlace, View, Mapped, Coherent, Links;
    CrowdedCoherent(policy);
    CrowdedView(policy);
    CrowdedPlace(View(CrowdedPool(policy)));
    MovedEdits();
  }

  /** Under NoCache and under LRU, page 3 is given up while the insert looks for room, and the redirect is
      not written to it. */
  lemma RedirectLost(policy: Policy, pick: Strategy)
    requires (policy == NoCache || policy == Lru) && Follows(pick)
    ensures var m, e := CrowdedPool(policy), PageEdits(Moved, 0);
            && Coherent(m, Holding(Third, false)) && Scene(View(m), Third, 1, 4, e) && Links(e, View(m)[Third])
            && FlatPlace(View(m), "t", 1, 4, e).2 >= 0
            && !Right(m, Third, 4, e, pick)
  {
    hide FullBytes, SlottedPages.BlankBytes, PageEdits, FlatPlace, View, Mapped, Coherent, Right, Links, Scene;
    var m, e := CrowdedPool(policy), PageEdits(Moved, 0);
    CrowdedScene(policy);
    if policy == NoCache {
      CrowdedUncached(m.table);
      NocacheMoveIff(m, Third, 4, e, pick);
    } else {
      LruMoveIff(m, Third, 4, e, pick);
    }
  }

  lemma CrowdedUncached(table: map<Key, int>)
    requires table.Keys == {Third, Other}
    ensures Uncached(table, "t", 1, 3) == 2 && |table| == 2
  {
    assert Uncached(table, "t", 2, 3) == 1;
    assert |table| == |table.Keys|;
  }
}
