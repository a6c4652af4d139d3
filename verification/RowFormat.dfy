/** The row format, byte by byte: where each column lies in a row and what its bytes are.  The readers and
    writers of RowCodec are held against it. */
module RowFormat {
  import opened PoolModel
  import opened Bytes
  import opened RowCodec

  /** Bit i of the row is 1: the least significant bit of the first byte is bit 0. */
  predicate BitOne(buf: seq<byte>, i: nat)
    requires i / 8 < |buf|
  {
    (buf[i / 8] / Pow2(i % 8)) % 2 == 1
  }

  /** Column i lies in bytes from..to and has value c, [] for NULL: a NULL has a 1 in the bitmap and no
      bytes; INT and FLOAT have four bytes, BOOLEAN has one, and a VARCHAR has its length, low byte first,
      in front. */
  predicate ColumnLies(kind: ColumnType, buf: seq<byte>, i: nat, c: Cell, from: nat, to: nat)
    requires i / 8 < |buf|
  {
    if BitOne(buf, i) then c == [] && to == from
    else
      && from <= to <= |buf|
      && match kind
         case IntColumn => to == from + 4 && buf[from..to] == c
         case FloatColumn => to == from + 4 && buf[from..to] == c
         case BoolColumn => to == from + 1 && buf[from..to] == c
         case VarcharColumn =>
           from + 2 <= to && buf[from] as int + 256 * buf[from + 1] as int == to - from - 2 && buf[from + 2..to] == c
  }

  /** The first k columns lie one after another behind the bitmap; ends[i] is where column i starts. */
  predicate ColumnsLie(schema: Schema, buf: seq<byte>, cells: seq<Cell>, ends: seq<nat>, k: nat) {
    && k <= |schema| && k <= |cells| && k < |ends|
    && ends[0] == (|schema| + 7) / 8 <= |buf|
    && forall i :: 0 <= i < k ==> ColumnLies(schema[i].kind, buf, i, cells[i], ends[i], ends[i + 1])
  }

  /** The row has these cells and its first n bytes hold them. */
  ghost predicate IsRow(schema: Schema, buf: seq<byte>, cells: seq<Cell>, n: nat) {
    |cells| == |schema| && exists ends :: ColumnsLie(schema, buf, cells, ends, |schema|) && ends[|schema|] == n
  }

  lemma SetBitIsOne(buf: seq<byte>, i: nat)
    requires i / 8 < |buf|
    ensures IsSet(buf, i) <==> BitOne(buf, i)
  {
    hide TestBit;
    TestBitMeaning(buf[i / 8], i % 8);
  }

  lemma FieldLies(kind: ColumnType, buf: seq<byte>, i: nat, c: Cell, from: nat, to: nat)
    requires i / 8 < |buf| && !BitOne(buf, i)
    ensures ReadField(kind, buf, from) == Some((c, to)) <==> ColumnLies(kind, buf, i, c, from, to)
  {
    hide BitOne;
  }

  /** What the reader decodes lies there. */
  lemma {:induction false} DecodedLies(schema: Schema, buf: seq<byte>, k: nat) returns (ends: seq<nat>)
    requires k <= |schema| && BitmapSize(|schema|) <= |buf| && DecodeUpTo(schema, buf, k).Some?
    ensures |ends| == k + 1 && ends[k] == DecodeUpTo(schema, buf, k).value.1
    ensures ColumnsLie(schema, buf, DecodeUpTo(schema, buf, k).value.0, ends, k)
  {
    hide ReadField, IsSet, ColumnLies;
    if k == 0 {
      ends := [BitmapSize(|schema|)];
    } else {
      var before, now := DecodeUpTo(schema, buf, k - 1).value, DecodeUpTo(schema, buf, k).value;
      var es := DecodedLies(schema, buf, k - 1);
      ends := es + [now.1];
      SetBitIsOne(buf, k - 1);
      ColumnDecoded(schema[k - 1].kind, buf, k - 1, now.0[k - 1], before.1, now.1);
      assert forall i :: 0 <= i < k - 1 ==> now.0[i] == before.0[i];
    }
  }

  lemma ColumnDecoded(kind: ColumnType, buf: seq<byte>, i: nat, c: Cell, from: nat, to: nat)
    requires i / 8 < |buf|
    ensures ColumnLies(kind, buf, i, c, from, to) <==>
              if BitOne(buf, i) then c == [] && to == from else ReadField(kind, buf, from) == Some((c, to))
  {
    hide ReadField, BitOne;
    if !BitOne(buf, i) {
      FieldLies(kind, buf, i, c, from, to);
    }
  }

  /** What lies there is decoded. */
  lemma {:induction false} LiesDecoded(schema: Schema, buf: seq<byte>, cells: seq<Cell>, ends: seq<nat>, k: nat)
    requires ColumnsLie(schema, buf, cells, ends, k)
    ensures DecodeUpTo(schema, buf, k) == Some((cells[..k], ends[k]))
  {
    hide ReadField, IsSet, ColumnLies;
    if k > 0 {
      LiesDecoded(schema, buf, cells, ends, k - 1);
      SetBitIsOne(buf, k - 1);
      ColumnDecoded(schema[k - 1].kind, buf, k - 1, cells[k - 1], ends[k - 1], ends[k]);
      assert cells[..k] == cells[..k - 1] + [cells[k - 1]];
    }
  }

  /** row_deserialize accepts exactly the buffers that start with a row, whatever follows it, and returns
      the cells of that row and its length. */
  lemma DecodesRows(schema: Schema, buf: seq<byte>, cells: seq<Cell>, n: nat)
    ensures Decode(schema, buf) == Some((cells, n)) <==> IsRow(schema, buf, cells, n)
  {
    hide DecodeUpTo, ColumnLies;
    if Decode(schema, buf) == Some((cells, n)) {
      var ends := DecodedLies(schema, buf, |schema|);
      assert ColumnsLie(schema, buf, cells, ends, |schema|);
    }
    if IsRow(schema, buf, cells, n) {
      var ends :| ColumnsLie(schema, buf, cells, ends, |schema|) && ends[|schema|] == n;
      LiesDecoded(schema, buf, cells, ends, |schema|);
      assert cells[..|schema|] == cells;
    }
  }

  // ---------------------------------------------------------------- the writer

  lemma {:induction false} UnusedBits(nulls: seq<bool>, k: nat, i: nat)
    requires k <= |nulls| <= i && i / 8 < BitmapSize(|nulls|)
    ensures !IsSet(Bitmap(nulls, k), i)
  {
    hide TestBit, IsSet, WithBit;
    if k == 0 {
      NoBit(BitmapSize(|nulls|), i);
    } else {
      UnusedBits(nulls, k - 1, i);
      WithBitSets(Bitmap(nulls, k - 1), k - 1, i);
    }
  }

  lemma NoBit(n: nat, i: nat)
    requires i / 8 < n
    ensures !IsSet(Zeros(n), i)
  {
    hide TestBit;
    ZeroBits(i % 8);
  }

  /** What row_serialize writes is a row of the cells and nothing else; the bitmap has a 1 exactly for
      each NULL, and the bits that no column has are 0. */
  lemma EncodesRows(schema: Schema, cells: seq<Cell>)
    requires Typed(schema, cells) && LengthsFit(schema, cells)
    ensures IsRow(schema, Encode(schema, cells), cells, |Encode(schema, cells)|)
    ensures forall i: nat :: i / 8 < (|schema| + 7) / 8 ==>
              i / 8 < |Encode(schema, cells)| && (BitOne(Encode(schema, cells), i) <==> i < |cells| && cells[i] == [])
  {
    hide Bitmap, Fields, BitOne, TestBit, IsRow, Decode;
    var row := Encode(schema, cells);
    CodecRoundTrip(schema, cells);
    DecodesRows(schema, row, cells, |row|);
    forall i: nat | i / 8 < (|schema| + 7) / 8
      ensures i / 8 < |row| && (BitOne(row, i) <==> i < |cells| && cells[i] == [])
    {
      SetBitIsOne(row, i);
      if i < |cells| {
        BitInImage(schema, NullCells(cells), cells, i);
      } else {
        UnusedBits(NullCells(cells), |cells|, i);
      }
    }
  }
}
