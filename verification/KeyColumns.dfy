/** The primary key of a row is the value that the row reader finds in the first primary key column.
    DUPLICATE_KEY and the index in terms of decoded rows. */
module KeyColumns {
  import opened PoolModel
  import opened Bytes
  import opened PageModel
  import opened RowCodec
  import opened RowIds
  import opened HeapModel
  import opened HeapTheorems

  /** Column c is the primary key: the first column so marked, and an INT. */
  predicate KeyColumn(schema: Schema, c: int) {
    && 0 <= c < |schema| && schema[c].isPrimaryKey && schema[c].kind.IntColumn?
    && forall i :: 0 <= i < c ==> !schema[i].isPrimaryKey
  }

  /** What the reader finds in column c, reading no further: [] if it is NULL or the row ends before. */
  function CellAt(schema: Schema, row: seq<byte>, c: int): Cell
    requires 0 <= c < |schema|
  {
    if |row| < BitmapSize(|schema|) || DecodeUpTo(schema, row, c + 1).None? then []
    else DecodeUpTo(schema, row, c + 1).value.0[c]
  }

  /** On rows that the reader accepts this is the cell it returns. */
  lemma CellOfDecoded(schema: Schema, row: seq<byte>, c: int)
    requires 0 <= c < |schema| && Decode(schema, row).Some?
    ensures CellAt(schema, row, c) == Decode(schema, row).value.0[c]
  {
    DecodesPrefix(schema, row, c + 1, |schema|);
  }

  /** The key of a row is the number in its cell of the key column. */
  lemma KeyOfRow(schema: Schema, row: seq<byte>, c: int)
    requires KeyColumn(schema, c)
    ensures var cell := CellAt(schema, row, c);
            && (cell == [] || |cell| == 4)
            && PkOf(schema, row) == if cell == [] then None else Some(BytesToInt(cell))
  {
    hide DecodeUpTo;
    assert PkColumn(schema) == c;
    if |row| >= BitmapSize(|schema|) && DecodeUpTo(schema, row, c + 1).Some? {
      IntCellSize(schema, row, c);
    }
  }

  lemma NoKeyOfRow(schema: Schema, row: seq<byte>)
    requires forall c :: !KeyColumn(schema, c)
    ensures PkOf(schema, row) == None
  {
    assert !KeyColumn(schema, PkColumn(schema));
  }

  /** Equal keys are equal cells. */
  lemma SameKeySameCell(schema: Schema, a: seq<byte>, b: seq<byte>, c: int)
    requires KeyColumn(schema, c) && CellAt(schema, a, c) != []
    ensures PkOf(schema, a) == PkOf(schema, b) <==> CellAt(schema, a, c) == CellAt(schema, b, c)
  {
    hide CellAt, BytesToInt, PkOf;
    KeyOfRow(schema, a, c);
    KeyOfRow(schema, b, c);
    var x, y := CellAt(schema, a, c), CellAt(schema, b, c);
    BytesRoundTrip(x);
    if y != [] {
      BytesRoundTrip(y);
    }
  }

  /** Some live row has this cell in column c. */
  ghost predicate CellTaken(t: Table, c: int, cell: Cell)
    requires 0 <= c < |t.schema|
  {
    exists p, s :: Live(t.pages, p, s) && CellAt(t.schema, RowAt(t.pages, p, s), c) == cell
  }

  /** INSERT answers DUPLICATE_KEY if and only if the row has a key that a live row has in the same column. */
  lemma DuplicateIff(t: Table, row: seq<byte>, c: int)
    requires TableOk(t) && KeyColumn(t.schema, c) && |HandleInsert(t, row).0.pages| <= MAX_PAGES
    ensures HandleInsert(t, row).1.DuplicateKey? <==>
              CellAt(t.schema, row, c) != [] && CellTaken(t, c, CellAt(t.schema, row, c))
  {
    hide CellAt, PkOf, TableOk, HandleInsert;
    InsertKeepsTable(t, row);
    KeyOfRow(t.schema, row, c);
    var cell := CellAt(t.schema, row, c);
    forall p, s | Live(t.pages, p, s) && cell != []
      ensures PkOf(t.schema, row) == PkOf(t.schema, RowAt(t.pages, p, s)) <==>
                cell == CellAt(t.schema, RowAt(t.pages, p, s), c)
    {
      SameKeySameCell(t.schema, row, RowAt(t.pages, p, s), c);
    }
    if cell != [] {
      if CellTaken(t, c, cell) {
        var p, s :| Live(t.pages, p, s) && CellAt(t.schema, RowAt(t.pages, p, s), c) == cell;
        assert HasKey(t, p, s, BytesToInt(cell));
      }
      if p, s :| HasKey(t, p, s, BytesToInt(cell)) {
        assert CellAt(t.schema, RowAt(t.pages, p, s), c) == cell;
      }
    }
  }

  /** Without a key column every row is accepted and nothing is indexed. */
  lemma NoKeyNoIndex(t: Table, row: seq<byte>)
    requires TableOk(t) && |HandleInsert(t, row).0.pages| <= MAX_PAGES && forall c :: !KeyColumn(t.schema, c)
    ensures t.index == map[] && !HandleInsert(t, row).1.DuplicateKey?
  {
    hide PkOf, HandleInsert;
    InsertKeepsTable(t, row);
    NoKeyOfRow(t.schema, row);
    forall k | k in t.index
      ensures false
    {
      var p, s :| HasKey(t, p, s, k) && NamedBy(p, s, t.index[k]);
      NoKeyOfRow(t.schema, RowAt(t.pages, p, s));
    }
  }

  /** The index has exactly the numbers in column c of the live rows, each with the RowID of its row. */
  lemma IndexedCells(t: Table, c: int, k: int)
    requires TableOk(t) && KeyColumn(t.schema, c)
    ensures k in t.index <==>
              exists p, s :: Live(t.pages, p, s) && |CellAt(t.schema, RowAt(t.pages, p, s), c)| == 4
                             && BytesToInt(CellAt(t.schema, RowAt(t.pages, p, s), c)) == k
    ensures forall p, s :: Live(t.pages, p, s) && |CellAt(t.schema, RowAt(t.pages, p, s), c)| == 4
                           && BytesToInt(CellAt(t.schema, RowAt(t.pages, p, s), c)) == k && k in t.index ==>
              NamedBy(p, s, t.index[k])
  {
    hide CellAt, PkOf, BytesToInt;
    forall p, s | Live(t.pages, p, s)
      ensures var cell := CellAt(t.schema, RowAt(t.pages, p, s), c);
              HasKey(t, p, s, k) <==> |cell| == 4 && BytesToInt(cell) == k
    {
      KeyOfRow(t.schema, RowAt(t.pages, p, s), c);
    }
    if k in t.index {
      var p, s :| HasKey(t, p, s, k) && NamedBy(p, s, t.index[k]);
    }
  }

  // ---------------------------------------------------------------- rows that the reader accepts

  ghost predicate RowsDecode(t: Table) {
    forall p, s :: Live(t.pages, p, s) ==> Decode(t.schema, RowAt(t.pages, p, s)).Some?
  }

  /** Among rows that the reader accepts: a duplicate is a live row with the same value in that column. */
  lemma DecodedDuplicateIff(t: Table, row: seq<byte>, c: int)
    requires TableOk(t) && KeyColumn(t.schema, c) && |HandleInsert(t, row).0.pages| <= MAX_PAGES
    requires RowsDecode(t) && Decode(t.schema, row).Some?
    ensures HandleInsert(t, row).1.DuplicateKey? <==>
              && Decode(t.schema, row).value.0[c] != []
              && exists p, s :: Live(t.pages, p, s) &&
                                Decode(t.schema, RowAt(t.pages, p, s)).value.0[c] == Decode(t.schema, row).value.0[c]
  {
    hide CellAt, DecodeUpTo, TableOk, HandleInsert;
    DuplicateIff(t, row, c);
    CellOfDecoded(t.schema, row, c);
    forall p, s | Live(t.pages, p, s)
      ensures Decode(t.schema, RowAt(t.pages, p, s)).Some?
      ensures CellAt(t.schema, RowAt(t.pages, p, s), c) == Decode(t.schema, RowAt(t.pages, p, s)).value.0[c]
    {
      CellOfDecoded(t.schema, RowAt(t.pages, p, s), c);
    }
  }

  lemma TableRoomy(t: Table)
    requires TableOk(t)
    ensures AllRoomy(t.pages)
  {
  }

  /** After an INSERT each live row was there before or is the new one. */
  lemma LiveAfterInsert(t: Table, row: seq<byte>, p: int, s: int)
    requires TableOk(t) && AllRoomy(t.pages) && |HandleInsert(t, row).0.pages| <= MAX_PAGES
    requires Live(HandleInsert(t, row).0.pages, p, s)
    ensures var was := RowAt(HandleInsert(t, row).0.pages, p, s);
            was == row || (Live(t.pages, p, s) && RowAt(t.pages, p, s) == was)
  {
    hide TableOk, HandleInsert, HasKey;
    InsertKeepsTable(t, row);
    var (u, answer) := HandleInsert(t, row);
    if answer.Inserted? {
      assert Exists(u.pages, p, s);
    }
  }

  lemma InsertKeepsDecoding(t: Table, row: seq<byte>)
    requires TableOk(t) && RowsDecode(t) && Decode(t.schema, row).Some?
    requires AllRoomy(t.pages) && |HandleInsert(t, row).0.pages| <= MAX_PAGES
    ensures RowsDecode(HandleInsert(t, row).0)
  {
    hide Decode, TableOk, HandleInsert, HasKey, Live, RowAt;
    InsertKeepsTable(t, row);
    var u := HandleInsert(t, row).0;
    forall p, s | Live(u.pages, p, s)
      ensures Decode(u.schema, RowAt(u.pages, p, s)).Some?
    {
      LiveAfterInsert(t, row, p, s);
    }
  }

  lemma DeleteKeepsDecoding(t: Table, chosen: seq<byte> -> bool)
    requires TableOk(t) && AllRoomy(t.pages) && RowsDecode(t)
    ensures RowsDecode(HandleDelete(t, chosen).0)
  {
    hide Decode, TableOk, HandleDelete;
    DeleteKeepsTable(t, chosen);
    var u := HandleDelete(t, chosen).0;
    forall p, s | Live(u.pages, p, s)
      ensures Decode(u.schema, RowAt(u.pages, p, s)).Some?
    {
      assert Exists(t.pages, p, s) && Live(t.pages, p, s);
    }
  }

  /** The rows that the run inserts are rows that the reader accepts. */
  ghost predicate InsertsDecode(schema: Schema, events: seq<Event>) {
    forall i :: 0 <= i < |events| && events[i].InsertEvent? ==> Decode(schema, events[i].row).Some?
  }

  lemma {:induction false} RunKeepsDecoding(t: Table, events: seq<Event>, u: Table)
    requires TableOk(t) && RunsTo(t, events, u) && |u.pages| <= MAX_PAGES
    requires RowsDecode(t) && InsertsDecode(t.schema, events)
    ensures RowsDecode(u)
    decreases |events|
  {
    hide Decode, TableOk, HandleInsert, HandleDelete, RowsDecode;
    if |events| > 0 {
      TableRoomy(t);
      var next := After(t, events[0]);
      PagesNeverShrink(next, events[1..], u);
      match events[0] {
        case InsertEvent(row) =>
          InsertKeepsTable(t, row);
          InsertKeepsDecoding(t, row);
        case DeleteEvent(chosen) =>
          DeleteKeepsTable(t, chosen);
          DeleteKeepsDecoding(t, chosen);
      }
      assert forall i :: 0 <= i < |events[1..]| ==> events[1..][i] == events[i + 1];
      RunKeepsDecoding(next, events[1..], u);
    }
  }

  lemma InsertAddsAtMostOnePage(t: Table, row: seq<byte>)
    requires TableOk(t)
    ensures |HandleInsert(t, row).0.pages| <= |t.pages| + 1
  {
    PutRowMeaning(t.pages, row);
  }

  /** After every run of INSERT and DELETE on a new table, with rows that the reader accepts, the next INSERT
      is a duplicate if and only if a live row has the same value, not NULL, in the key column. */
  lemma NewTableDuplicates(t: Table, events: seq<Event>, u: Table, row: seq<byte>, c: int)
    requires Fresh(t) && RunsTo(t, events, u) && KeyColumn(t.schema, c) && |u.pages| < MAX_PAGES
    requires InsertsDecode(t.schema, events) && Decode(t.schema, row).Some?
    ensures TableOk(u) && u.schema == t.schema && RowsDecode(u)
    ensures HandleInsert(u, row).1.DuplicateKey? <==>
              && Decode(u.schema, row).value.0[c] != []
              && exists p, s :: Live(u.pages, p, s) &&
                                Decode(u.schema, RowAt(u.pages, p, s)).value.0[c] == Decode(u.schema, row).value.0[c]
  {
    hide DecodeUpTo, TableOk, HandleInsert;
    FreshTable(t);
    RunKeepsTable(t, events, u);
    RunKeepsDecoding(t, events, u);
    InsertAddsAtMostOnePage(u, row);
    DecodedDuplicateIff(u, row, c);
  }
}
