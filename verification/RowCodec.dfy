/** The row format of `storage-engine/schema.c`: a null bitmap and the non-null fields, and its four
    implementations: the C writer and reader, the fast reader of one INT column in
    `storage-engine/heap.c`, and the Python writer and reader of `sql-engine/storage_server.py`. */
module RowCodec {
  import opened PoolModel
  import opened Bytes

  datatype Option<T> = None | Some(value: T)

  datatype ColumnType = IntColumn | FloatColumn | BoolColumn | VarcharColumn

  datatype Column = Column(kind: ColumnType, maxSize: nat, isPrimaryKey: bool)

  type Schema = seq<Column>

  /** The bytes of a value as the C functions pass them, empty for NULL: four bytes for INT and FLOAT,
      one for BOOLEAN, `sizes[i]` bytes for VARCHAR. */
  type Cell = seq<byte>

  function FixedSize(kind: ColumnType): nat
    requires !kind.VarcharColumn?
  {
    if kind.BoolColumn? then 1 else 4
  }

  predicate CellFits(kind: ColumnType, c: Cell) {
    kind.VarcharColumn? || c == [] || |c| == FixedSize(kind)
  }

  predicate Typed(schema: Schema, cells: seq<Cell>) {
    |cells| == |schema| && forall i :: 0 <= i < |cells| ==> CellFits(schema[i].kind, cells[i])
  }

  // ---------------------------------------------------------------- the null bitmap

  function BitmapSize(n: nat): nat {
    (n + 7) / 8
  }

  predicate IsSet(bitmap: seq<byte>, i: nat)
    requires i / 8 < |bitmap|
  {
    TestBit(bitmap[i / 8], i % 8)
  }

  function WithBit(bitmap: seq<byte>, i: nat): seq<byte>
    requires i / 8 < |bitmap|
  {
    bitmap[i / 8 := SetBit(bitmap[i / 8], i % 8)]
  }

  /** The bitmap in which the bits of the first k columns have been filled in. */
  function Bitmap(nulls: seq<bool>, k: nat): (b: seq<byte>)
    requires k <= |nulls|
    ensures |b| == BitmapSize(|nulls|)
  {
    if k == 0 then Zeros(BitmapSize(|nulls|))
    else if nulls[k - 1] then WithBit(Bitmap(nulls, k - 1), k - 1)
    else Bitmap(nulls, k - 1)
  }

  lemma WithBitSets(bitmap: seq<byte>, k: nat, i: nat)
    requires k / 8 < |bitmap| && i / 8 < |bitmap|
    ensures IsSet(WithBit(bitmap, k), i) <==> i == k || IsSet(bitmap, i)
  {
    hide TestBit, SetBit;
    SetBitTest(bitmap[i / 8], k % 8, i % 8);
  }

  /** However many bytes the bitmap has, bit i tells whether column i is NULL. */
  lemma {:induction false} BitmapMeaning(nulls: seq<bool>, k: nat, i: nat)
    requires k <= |nulls| && i < |nulls|
    ensures IsSet(Bitmap(nulls, k), i) <==> i < k && nulls[i]
  {
    hide TestBit, IsSet, WithBit;
    if k == 0 {
      EmptyBitmap(|nulls|, i);
    } else {
      BitmapMeaning(nulls, k - 1, i);
      WithBitSets(Bitmap(nulls, k - 1), k - 1, i);
    }
  }

  lemma EmptyBitmap(n: nat, i: nat)
    requires i < n
    ensures !IsSet(Zeros(BitmapSize(n)), i)
  {
    hide TestBit;
    ZeroBits(i % 8);
  }

  // ---------------------------------------------------------------- the format

  /** A non-null value on disk. */
  function Field(kind: ColumnType, c: Cell): seq<byte> {
    if kind.VarcharColumn? then ShortBytes(|c|) + c else c
  }

  function Fields(schema: Schema, nulls: seq<bool>, cells: seq<Cell>, k: nat): (s: seq<byte>)
    requires k <= |schema| == |nulls| == |cells|
  {
    if k == 0 then []
    else if nulls[k - 1] then Fields(schema, nulls, cells, k - 1)
    else Fields(schema, nulls, cells, k - 1) + Field(schema[k - 1].kind, cells[k - 1])
  }

  function Image(schema: Schema, nulls: seq<bool>, cells: seq<Cell>): seq<byte>
    requires |schema| == |nulls| == |cells|
  {
    Bitmap(nulls, |nulls|) + Fields(schema, nulls, cells, |cells|)
  }

  function NullCells(cells: seq<Cell>): (nulls: seq<bool>)
    ensures |nulls| == |cells| && forall i :: 0 <= i < |cells| ==> nulls[i] == (cells[i] == [])
  {
    seq(|cells|, i requires 0 <= i < |cells| => cells[i] == [])
  }

  /** What row_serialize writes. */
  function Encode(schema: Schema, cells: seq<Cell>): seq<byte>
    requires |schema| == |cells|
  {
    Image(schema, NullCells(cells), cells)
  }

  /** The field of a non-null column at byte off, and the byte after it. */
  function ReadField(kind: ColumnType, buf: seq<byte>, off: nat): (r: Option<(Cell, nat)>)
    ensures r.Some? ==> off <= r.value.1 <= |buf|
    ensures r.Some? && !kind.VarcharColumn? ==> |r.value.0| == FixedSize(kind)
  {
    if kind.VarcharColumn? then
      if off + 2 > |buf| then None
      else
        var len := BytesToShort(buf[off..off + 2]);
        if off + 2 + len > |buf| then None else Some((buf[off + 2..off + 2 + len], off + 2 + len))
    else if off + FixedSize(kind) > |buf| then None
    else Some((buf[off..off + FixedSize(kind)], off + FixedSize(kind)))
  }

  /** The first k columns, and the byte after them. */
  function DecodeUpTo(schema: Schema, buf: seq<byte>, k: nat): (r: Option<(seq<Cell>, nat)>)
    requires k <= |schema| && BitmapSize(|schema|) <= |buf|
    ensures r.Some? ==> |r.value.0| == k && BitmapSize(|schema|) <= r.value.1 <= |buf|
  {
    if k == 0 then Some(([], BitmapSize(|schema|)))
    else
      var before := DecodeUpTo(schema, buf, k - 1);
      if before.None? then None
      else if IsSet(buf, k - 1) then Some((before.value.0 + [[]], before.value.1))
      else
        var f := ReadField(schema[k - 1].kind, buf, before.value.1);
        if f.None? then None else Some((before.value.0 + [f.value.0], f.value.1))
  }

  /** What row_deserialize reads: the cells and the number of bytes consumed. */
  function Decode(schema: Schema, buf: seq<byte>): (r: Option<(seq<Cell>, nat)>)
  {
    if |buf| < BitmapSize(|schema|) then None else DecodeUpTo(schema, buf, |schema|)
  }

  // ---------------------------------------------------------------- reading what was written

  /** The cells that are read back from an image: a NULL has none, and a length fits two bytes. */
  predicate Readable(schema: Schema, nulls: seq<bool>, cells: seq<Cell>) {
    && |schema| == |nulls| == |cells|
    && forall i :: 0 <= i < |schema| ==>
         if nulls[i] then cells[i] == []
         else if schema[i].kind.VarcharColumn? then |cells[i]| <= 65535
         else |cells[i]| == FixedSize(schema[i].kind)
  }

  lemma ReadsOwnField(kind: ColumnType, c: Cell, buf: seq<byte>, off: nat)
    requires if kind.VarcharColumn? then |c| <= 65535 else |c| == FixedSize(kind)
    requires off + |Field(kind, c)| <= |buf| && buf[off..off + |Field(kind, c)|] == Field(kind, c)
    ensures ReadField(kind, buf, off) == Some((c, off + |Field(kind, c)|))
  {
    hide ShortBytes, BytesToShort;
    var f := Field(kind, c);
    if kind.VarcharColumn? {
      ShortRoundTrip(|c|);
      assert f[..2] == ShortBytes(|c|) && f[2..] == c;
      assert buf[off..off + 2] == buf[off..off + |f|][..2];
      assert buf[off + 2..off + 2 + |c|] == buf[off..off + |f|][2..];
    }
  }

  lemma {:induction false} FieldsPrefix(schema: Schema, nulls: seq<bool>, cells: seq<Cell>, k: nat, n: nat)
    requires k <= n <= |schema| == |nulls| == |cells|
    ensures Fields(schema, nulls, cells, k) <= Fields(schema, nulls, cells, n)
  {
    if k < n {
      FieldsPrefix(schema, nulls, cells, k, n - 1);
    }
  }

  /** Where the field of column k lies in an image. */
  lemma FieldInImage(schema: Schema, nulls: seq<bool>, cells: seq<Cell>, k: nat)
    requires k < |schema| == |nulls| == |cells| && !nulls[k]
    ensures var image, f := Image(schema, nulls, cells), Field(schema[k].kind, cells[k]);
            var off := BitmapSize(|schema|) + |Fields(schema, nulls, cells, k)|;
            off + |f| <= |image| && image[off..off + |f|] == f
    ensures |Fields(schema, nulls, cells, k + 1)| == |Fields(schema, nulls, cells, k)| + |Field(schema[k].kind, cells[k])|
  {
    hide Bitmap, Field;
    FieldsPrefix(schema, nulls, cells, k + 1, |schema|);
  }

  lemma BitInImage(schema: Schema, nulls: seq<bool>, cells: seq<Cell>, k: nat)
    requires k < |schema| == |nulls| == |cells|
    ensures |Image(schema, nulls, cells)| >= BitmapSize(|schema|)
    ensures IsSet(Image(schema, nulls, cells), k) <==> nulls[k]
  {
    hide Bitmap, TestBit, Fields;
    BitmapMeaning(nulls, |nulls|, k);
  }

  lemma {:induction false} DecodesImage(schema: Schema, nulls: seq<bool>, cells: seq<Cell>, k: nat)
    requires Readable(schema, nulls, cells) && k <= |schema| && BitmapSize(|schema|) <= |Image(schema, nulls, cells)|
    ensures DecodeUpTo(schema, Image(schema, nulls, cells), k)
         == Some((cells[..k], BitmapSize(|schema|) + |Fields(schema, nulls, cells, k)|))
  {
    hide Image, ReadField, Field, IsSet;
    if k > 0 {
      DecodesImage(schema, nulls, cells, k - 1);
      assert cells[..k] == cells[..k - 1] + [cells[k - 1]];
      BitInImage(schema, nulls, cells, k - 1);
      if !nulls[k - 1] {
        var off := BitmapSize(|schema|) + |Fields(schema, nulls, cells, k - 1)|;
        FieldInImage(schema, nulls, cells, k - 1);
        ReadsOwnField(schema[k - 1].kind, cells[k - 1], Image(schema, nulls, cells), off);
      }
    }
  }

  lemma ImageRoundTrip(schema: Schema, nulls: seq<bool>, cells: seq<Cell>)
    requires Readable(schema, nulls, cells)
    ensures Decode(schema, Image(schema, nulls, cells)) == Some((cells, |Image(schema, nulls, cells)|))
  {
    hide Fields, DecodeUpTo, Bitmap;
    DecodesImage(schema, nulls, cells, |schema|);
    assert cells[..|schema|] == cells;
  }

  lemma {:induction false} DecodedLengths(schema: Schema, buf: seq<byte>, k: nat, i: nat)
    requires i < k <= |schema| && BitmapSize(|schema|) <= |buf| && DecodeUpTo(schema, buf, k).Some?
    ensures |DecodeUpTo(schema, buf, k).value.0[i]| <= 65535
  {
    if i < k - 1 {
      DecodedLengths(schema, buf, k - 1, i);
    }
  }

  /** No VARCHAR is longer than its two length bytes can say. */
  predicate LengthsFit(schema: Schema, cells: seq<Cell>)
    requires |schema| == |cells|
  {
    forall i :: 0 <= i < |cells| && schema[i].kind.VarcharColumn? ==> |cells[i]| <= 65535
  }

  /** row_deserialize undoes row_serialize, consuming all of its output, exactly when every VARCHAR
      length fits an unsigned short. */
  lemma CodecRoundTrip(schema: Schema, cells: seq<Cell>)
    requires Typed(schema, cells)
    ensures Decode(schema, Encode(schema, cells)) == Some((cells, |Encode(schema, cells)|)) <==> LengthsFit(schema, cells)
  {
    var buf := Encode(schema, cells);
    if LengthsFit(schema, cells) {
      ImageRoundTrip(schema, NullCells(cells), cells);
    } else {
      var i :| 0 <= i < |cells| && schema[i].kind.VarcharColumn? && |cells[i]| > 65535;
      if Decode(schema, buf).Some? {
        DecodedLengths(schema, buf, |schema|, i);
      }
    }
  }

  // ---------------------------------------------------------------- one INT column

  /** What the fast reader finds: the value of column c unless it is NULL, not an INT, or the row is
      cut off before its end. */
  function IntAt(schema: Schema, buf: seq<byte>, c: int): Option<int> {
    if !(0 <= c < |schema|) || |buf| < BitmapSize(|schema|) || !schema[c].kind.IntColumn? then None
    else
      var cells := DecodeUpTo(schema, buf, c + 1);
      if cells.None? || IsSet(buf, c) then None else Some(BytesToInt(cells.value.0[c]))
  }

  lemma {:induction false} DecodesPrefix(schema: Schema, buf: seq<byte>, k: nat, n: nat)
    requires k <= n <= |schema| && BitmapSize(|schema|) <= |buf| && DecodeUpTo(schema, buf, n).Some?
    ensures DecodeUpTo(schema, buf, k).Some?
    ensures DecodeUpTo(schema, buf, k).value.0 == DecodeUpTo(schema, buf, n).value.0[..k]
    ensures DecodeUpTo(schema, buf, k).value.1 <= DecodeUpTo(schema, buf, n).value.1
  {
    hide ReadField, IsSet;
    if k < n {
      DecodesPrefix(schema, buf, k, n - 1);
      assert DecodeUpTo(schema, buf, n).value.0[..n - 1] == DecodeUpTo(schema, buf, n - 1).value.0;
      assert DecodeUpTo(schema, buf, n - 1).value.0[..k] == DecodeUpTo(schema, buf, n).value.0[..k];
    }
  }

  lemma IntCellSize(schema: Schema, buf: seq<byte>, c: nat)
    requires c < |schema| && schema[c].kind.IntColumn? && |buf| >= BitmapSize(|schema|)
    requires DecodeUpTo(schema, buf, c + 1).Some?
    ensures var cell := DecodeUpTo(schema, buf, c + 1).value.0[c];
            |cell| == if IsSet(buf, c) then 0 else 4
  {
    hide IsSet;
  }

  /** On every row that row_deserialize accepts, the fast reader returns the value of a non-null INT
      column and fails on a NULL one. */
  lemma FastReaderAgrees(schema: Schema, buf: seq<byte>, c: nat)
    requires Decode(schema, buf).Some? && c < |schema| && schema[c].kind.IntColumn?
    ensures var cell := Decode(schema, buf).value.0[c];
            && (cell == [] || |cell| == 4)
            && IntAt(schema, buf, c) == if cell == [] then None else Some(BytesToInt(cell))
  {
    hide ReadField, BytesToInt;
    DecodesPrefix(schema, buf, c + 1, |schema|);
    IntCellSize(schema, buf, c);
    assert Decode(schema, buf).value.0[c] == DecodeUpTo(schema, buf, c + 1).value.0[c];
  }

  // ---------------------------------------------------------------- the C functions

  /** memcpy into the output buffer. */
  method CopyBytes(c: seq<byte>, out: array<byte>, at: nat)
    requires at + |c| <= out.Length
    modifies out
    ensures out[..] == old(out[..at]) + c + old(out[at + |c|..])
  {
    forall i | 0 <= i < |c| {
      out[at + i] := c[i];
    }
  }

  /** One field into the output buffer. */
  method WriteField(kind: ColumnType, c: Cell, out: array<byte>, offset: nat)
    requires offset + |Field(kind, c)| <= out.Length
    modifies out
    ensures out[..offset] == old(out[..offset])
    ensures out[offset..offset + |Field(kind, c)|] == Field(kind, c)
    ensures out[offset + |Field(kind, c)|..] == old(out[offset + |Field(kind, c)|..])
  {
    var at := offset;
    if kind.VarcharColumn? {
      CopyBytes(ShortBytes(|c|), out, at);
      at := at + 2;
    }
    CopyBytes(c, out, at);
  }

  lemma {:induction false} EncodedSize(schema: Schema, cells: seq<Cell>, k: nat)
    requires k < |schema| == |cells| && cells[k] != []
    ensures BitmapSize(|schema|) + |Fields(schema, NullCells(cells), cells, k)| + |Field(schema[k].kind, cells[k])|
            <= |Encode(schema, cells)|
  {
    hide Field;
    FieldsPrefix(schema, NullCells(cells), cells, k + 1, |schema|);
  }

  lemma SetsOneBit(s: seq<byte>, t: seq<byte>, i: nat)
    requires |s| == |t| && i / 8 < |s| && t[i / 8] == SetBit(s[i / 8], i % 8)
    requires forall j :: 0 <= j < |s| && j != i / 8 ==> t[j] == s[j]
    ensures t == WithBit(s, i)
  {
    hide SetBit;
  }

  /** row_serialize has handled the first k columns: `now` is the buffer, which was `was` at first. */
  ghost predicate Written(schema: Schema, nulls: seq<bool>, cells: seq<Cell>, was: seq<byte>, now: seq<byte>, k: nat, offset: nat)
    requires k <= |schema| == |nulls| == |cells|
  {
    var start := BitmapSize(|schema|);
    && start <= offset <= |now| == |was|
    && now[..start] == Bitmap(nulls, k)
    && now[start..offset] == Fields(schema, nulls, cells, k)
    && now[offset..] == was[offset..]
  }

  lemma NullWritten(schema: Schema, nulls: seq<bool>, cells: seq<Cell>, was: seq<byte>, s: seq<byte>, t: seq<byte>, k: nat, offset: nat)
    requires k < |schema| == |nulls| == |cells| && Written(schema, nulls, cells, was, s, k, offset) && nulls[k]
    requires var start := BitmapSize(|schema|);
             |t| == |s| && t[..start] == WithBit(s[..start], k) && t[start..] == s[start..]
    ensures Written(schema, nulls, cells, was, t, k + 1, offset)
  {
    hide WithBit, Field;
    var start := BitmapSize(|schema|);
    assert t[start..offset] == t[start..][..offset - start] && s[start..offset] == s[start..][..offset - start];
    assert t[offset..] == t[start..][offset - start..] && s[offset..] == s[start..][offset - start..];
  }

  lemma FieldWritten(schema: Schema, nulls: seq<bool>, cells: seq<Cell>, was: seq<byte>, s: seq<byte>, t: seq<byte>, k: nat, offset: nat, next: nat)
    requires k < |schema| == |nulls| == |cells| && Written(schema, nulls, cells, was, s, k, offset) && !nulls[k]
    requires offset <= next <= |t| == |s| && t[..offset] == s[..offset] && t[next..] == s[next..]
    requires t[offset..next] == Field(schema[k].kind, cells[k])
    ensures Written(schema, nulls, cells, was, t, k + 1, next)
  {
    hide WithBit, Field;
    var start := BitmapSize(|schema|);
    assert t[..start] == t[..offset][..start] && s[..start] == s[..offset][..start];
    assert t[start..offset] == t[..offset][start..] && s[start..offset] == s[..offset][start..];
    assert t[start..next] == t[start..offset] + t[offset..next];
    assert s[next..] == s[offset..][next - offset..] && was[next..] == was[offset..][next - offset..];
  }

  lemma NothingWritten(schema: Schema, nulls: seq<bool>, cells: seq<Cell>, was: seq<byte>, now: seq<byte>)
    requires var start := BitmapSize(|schema|);
             start <= |now| == |was| && now[..start] == Zeros(start) && now[start..] == was[start..]
    requires |schema| == |nulls| == |cells|
    ensures Written(schema, nulls, cells, was, now, 0, BitmapSize(|schema|))
  {
  }

  lemma WrittenSize(schema: Schema, nulls: seq<bool>, cells: seq<Cell>, was: seq<byte>, now: seq<byte>, k: nat, offset: nat)
    requires k <= |schema| == |nulls| == |cells| && Written(schema, nulls, cells, was, now, k, offset)
    ensures offset == BitmapSize(|schema|) + |Fields(schema, nulls, cells, k)| <= |now|
  {
  }

  lemma AllWritten(schema: Schema, cells: seq<Cell>, was: seq<byte>, now: seq<byte>, size: nat)
    requires |schema| == |cells| && Written(schema, NullCells(cells), cells, was, now, |schema|, size)
    ensures size <= |now| == |was| && now[..size] == Encode(schema, cells) && now[size..] == was[size..]
    ensures size == |Encode(schema, cells)|
  {
    hide Bitmap, Fields;
    assert now[..size] == now[..BitmapSize(|schema|)] + now[BitmapSize(|schema|)..size];
  }

  /** memset of the bitmap. */
  method ClearBitmap(out: array<byte>, bitmapSize: nat)
    requires bitmapSize <= out.Length
    modifies out
    ensures out[..bitmapSize] == Zeros(bitmapSize) && out[bitmapSize..] == old(out[bitmapSize..])
  {
    forall i | 0 <= i < bitmapSize {
      out[i] := 0;
    }
  }

  /** The bit of a NULL column in the output buffer. */
  method MarkNull(out: array<byte>, bitmapSize: nat, i: nat)
    requires i / 8 < bitmapSize <= out.Length
    modifies out
    ensures out[..bitmapSize] == WithBit(old(out[..bitmapSize]), i)
    ensures out[bitmapSize..] == old(out[bitmapSize..])
  {
    hide SetBit;
    out[i / 8] := SetBit(out[i / 8], i % 8);
    SetsOneBit(old(out[..bitmapSize]), out[..bitmapSize], i);
  }

  /** The arguments of row_serialize: a value that is not NULL, which is any size but 0, points to
      enough bytes for its type, or for its size if it is a VARCHAR. */
  predicate Passed(schema: Schema, values: seq<Cell>, sizes: seq<int>) {
    && |values| == |sizes| == |schema|
    && forall i :: 0 <= i < |sizes| && sizes[i] != 0 ==>
         if schema[i].kind.VarcharColumn? then 0 <= sizes[i] <= |values[i]|
         else FixedSize(schema[i].kind) <= |values[i]|
  }

  /** The bytes of column i that are to be stored. */
  function PassedCell(schema: Schema, values: seq<Cell>, sizes: seq<int>, i: nat): (c: Cell)
    requires Passed(schema, values, sizes) && i < |schema|
    ensures CellFits(schema[i].kind, c) && (c == [] <==> sizes[i] == 0)
  {
    if sizes[i] == 0 then []
    else if schema[i].kind.VarcharColumn? then values[i][..sizes[i]]
    else values[i][..FixedSize(schema[i].kind)]
  }

  function PassedCells(schema: Schema, values: seq<Cell>, sizes: seq<int>): (cells: seq<Cell>)
    requires Passed(schema, values, sizes)
    ensures Typed(schema, cells)
    ensures forall i :: 0 <= i < |cells| ==> cells[i] == PassedCell(schema, values, sizes, i)
  {
    seq(|schema|, i requires 0 <= i < |schema| => PassedCell(schema, values, sizes, i))
  }

  /** What a caller that passes these bytes and this size asks to be stored. */
  function Argument(kind: ColumnType, value: Cell, size: int): Cell
    requires size != 0 ==> if kind.VarcharColumn? then 0 <= size <= |value| else FixedSize(kind) <= |value|
  {
    if size == 0 then []
    else match kind
      case IntColumn => value[..4]
      case FloatColumn => value[..4]
      case BoolColumn => value[..1]
      case VarcharColumn => value[..size]
  }

  /** From the caller's arguments to the reader's result, if no VARCHAR is longer than 65535 bytes. */
  lemma SerializedReadsBack(schema: Schema, values: seq<Cell>, sizes: seq<int>)
    requires Passed(schema, values, sizes)
    requires forall i :: 0 <= i < |schema| && schema[i].kind.VarcharColumn? ==> sizes[i] <= 65535
    ensures var row := Encode(schema, PassedCells(schema, values, sizes));
            var back := Decode(schema, row);
            && back.Some? && back.value.1 == |row| && |back.value.0| == |schema|
            && forall i :: 0 <= i < |schema| ==> back.value.0[i] == Argument(schema[i].kind, values[i], sizes[i])
  {
    hide Decode, Encode;
    CodecRoundTrip(schema, PassedCells(schema, values, sizes));
  }

  /** row_serialize */
  method RowSerialize(schema: Schema, values: seq<Cell>, sizes: seq<int>, out: array<byte>, bufSize: nat)
    returns (rc: int, outSize: nat)
    requires Passed(schema, values, sizes) && bufSize <= out.Length
    modifies out
    ensures var cells := PassedCells(schema, values, sizes);
            && rc == (if |Encode(schema, cells)| <= bufSize then 0 else -1)
            && (rc == 0 ==>
                  && outSize == |Encode(schema, cells)|
                  && out[..outSize] == Encode(schema, cells)
                  && out[outSize..] == old(out[outSize..]))
    ensures rc == 0 && (forall i :: 0 <= i < |schema| && schema[i].kind.VarcharColumn? ==> sizes[i] <= 65535) ==>
              var back := Decode(schema, out[..outSize]);
              && back.Some? && back.value.1 == outSize && |back.value.0| == |schema|
              && forall i :: 0 <= i < |schema| ==> back.value.0[i] == Argument(schema[i].kind, values[i], sizes[i])
  {
    hide Decode, Argument;
    hide Field, WithBit, SetBit, PassedCell, Fields, Bitmap, Written;
    ghost var cells := PassedCells(schema, values, sizes);
    ghost var nulls := NullCells(cells);
    var bitmapSize := BitmapSize(|schema|);
    outSize := 0;
    if bufSize < bitmapSize {
      return -1, 0;
    }
    ghost var was := out[..];
    ClearBitmap(out, bitmapSize);
    var offset := bitmapSize;
    NothingWritten(schema, nulls, cells, was, out[..]);
    for i := 0 to |schema|
      invariant bitmapSize <= offset <= bufSize && Written(schema, nulls, cells, was, out[..], i, offset)
    {
      ghost var before := out[..];
      WrittenSize(schema, nulls, cells, was, before, i, offset);
      if sizes[i] == 0 {
        MarkNull(out, bitmapSize, i);
        NullWritten(schema, nulls, cells, was, before, out[..], i, offset);
      } else {
        var kind, cell := schema[i].kind, PassedCell(schema, values, sizes, i);
        EncodedSize(schema, cells, i);
        var next := offset + |Field(kind, cell)|;
        if next > bufSize {
          return -1, 0;
        }
        WriteField(kind, cell, out, offset);
        FieldWritten(schema, nulls, cells, was, before, out[..], i, offset, next);
        offset := next;
      }
    }
    outSize := offset;
    AllWritten(schema, cells, was, out[..], outSize);
    if forall i :: 0 <= i < |schema| && schema[i].kind.VarcharColumn? ==> sizes[i] <= 65535 {
      SerializedReadsBack(schema, values, sizes);
    }
    return 0, outSize;
  }

  /** row_deserialize */
  method RowDeserialize(schema: Schema, buf: seq<byte>, values: array<Cell>) returns (consumed: int)
    requires |schema| <= values.Length
    modifies values
    ensures consumed == if Decode(schema, buf).Some? then Decode(schema, buf).value.1 else -1
    ensures Decode(schema, buf).Some? ==> values[..|schema|] == Decode(schema, buf).value.0
  {
    hide IsSet, ReadField;
    var bitmapSize := BitmapSize(|schema|);
    if |buf| < bitmapSize {
      return -1;
    }
    var offset := bitmapSize;
    for i := 0 to |schema|
      invariant DecodeUpTo(schema, buf, i) == Some((values[..i], offset))
    {
      if IsSet(buf, i) {
        values[i] := [];
      } else {
        var field := ReadField(schema[i].kind, buf, offset);
        if field.None? {
          FailsFrom(schema, buf, i + 1);
          return -1;
        }
        values[i] := field.value.0;
        offset := field.value.1;
      }
      assert values[..i + 1] == values[..i] + [values[i]];
    }
    return offset;
  }

  lemma FailsFrom(schema: Schema, buf: seq<byte>, k: nat)
    requires k <= |schema| && BitmapSize(|schema|) <= |buf| && DecodeUpTo(schema, buf, k).None?
    ensures Decode(schema, buf).None?
  {
    if Decode(schema, buf).Some? {
      DecodesPrefix(schema, buf, k, |schema|);
    }
  }

  /** heap_extract_int_column, and its copy extract_int_column_from_row in the server. */
  method ExtractIntColumn(schema: Schema, row: seq<byte>, columnIndex: int) returns (rc: int, value: int)
    ensures rc == if IntAt(schema, row, columnIndex).Some? then 0 else -1
    ensures rc == 0 ==> value == IntAt(schema, row, columnIndex).value
  {
    hide IsSet;
    value := 0;
    if columnIndex < 0 || columnIndex >= |schema| || |row| < BitmapSize(|schema|) {
      return -1, 0;
    }
    var offset: nat := BitmapSize(|schema|);
    for i := 0 to |schema|
      invariant i <= columnIndex || !schema[columnIndex].kind.IntColumn?
      invariant i <= columnIndex ==>
                  DecodeUpTo(schema, row, i).Some? && DecodeUpTo(schema, row, i).value.1 == offset
      invariant offset <= |row|
    {
      if IsSet(row, i) {
        if i == columnIndex {
          return -1, 0;
        }
      } else {
        var kind := schema[i].kind;
        if i <= columnIndex {
          assert ReadField(kind, row, offset).None? ==> IntAt(schema, row, columnIndex).None? by {
            if ReadField(kind, row, offset).None? {
              StopsBefore(schema, row, i + 1, columnIndex);
            }
          }
        }
        if kind.VarcharColumn? {
          if offset + 2 > |row| {
            return -1, 0;
          }
          var len := BytesToShort(row[offset..offset + 2]);
          offset := offset + 2;
          if offset + len > |row| {
            return -1, 0;
          }
          offset := offset + len;
        } else {
          if offset + FixedSize(kind) > |row| {
            return -1, 0;
          }
          if kind.IntColumn? && i == columnIndex {
            return 0, BytesToInt(row[offset..offset + 4]);
          }
          offset := offset + FixedSize(kind);
        }
      }
    }
    return -1, 0;
  }

  lemma StopsBefore(schema: Schema, buf: seq<byte>, k: nat, c: nat)
    requires k <= c + 1 <= |schema| && BitmapSize(|schema|) <= |buf| && DecodeUpTo(schema, buf, k).None?
    ensures IntAt(schema, buf, c).None?
  {
    if DecodeUpTo(schema, buf, c + 1).Some? {
      DecodesPrefix(schema, buf, k, c + 1);
    }
  }
}
