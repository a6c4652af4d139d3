/** The Python writer and reader of rows in `sql-engine/storage_server.py`, and what they have in
    common with the C functions. */
module PythonCodec {
  import opened PoolModel
  import opened Bytes
  import opened RowCodec
  import opened Utf8

  /** A value of a row dictionary; strings as their UTF-8 bytes, floats as their four packed bytes. */
  datatype PyValue = PyNone | PyInt(number: int) | PyFloat(packed: seq<byte>) | PyBool(truth: bool) | PyStr(utf8: seq<byte>)

  predicate Matches(kind: ColumnType, v: PyValue) {
    match v
    case PyNone => true
    case PyInt(_) => kind.IntColumn?
    case PyFloat(b) => kind.FloatColumn? && |b| == 4
    case PyBool(_) => kind.BoolColumn?
    case PyStr(s) => kind.VarcharColumn? && ValidUtf8(s)
  }

  predicate RowMatches(cols: Schema, vals: seq<PyValue>) {
    |vals| == |cols| && forall i :: 0 <= i < |vals| ==> Matches(cols[i].kind, vals[i])
  }

  /** The bytes that are stored of a string; they may end inside a character. */
  function Truncated(maxSize: nat, v: PyValue): PyValue {
    if v.PyStr? && |v.utf8| > maxSize then PyStr(v.utf8[..maxSize]) else v
  }

  /** struct.pack takes ints of 32 bits and lengths of 16 bits, and raises otherwise. */
  predicate Packs(col: Column, v: PyValue) {
    match Truncated(col.maxSize, v)
    case PyInt(n) => IsInt(n)
    case PyStr(s) => |s| <= 65535
    case _ => true
  }

  predicate AllPack(cols: Schema, vals: seq<PyValue>)
    requires |vals| == |cols|
  {
    forall i :: 0 <= i < |vals| ==> Packs(cols[i], vals[i])
  }

  /** The bytes of a value, as the C functions would hold it. */
  function CellOf(col: Column, v: PyValue): Cell
    requires Packs(col, v)
  {
    match Truncated(col.maxSize, v)
    case PyNone => []
    case PyInt(n) => IntBytes(n)
    case PyFloat(b) => b
    case PyBool(b) => [if b then 1 else 0]
    case PyStr(s) => s
  }

  function CellsOf(cols: Schema, vals: seq<PyValue>): (cells: seq<Cell>)
    requires |vals| == |cols| && AllPack(cols, vals)
    ensures |cells| == |vals| && forall i :: 0 <= i < |vals| ==> cells[i] == CellOf(cols[i], vals[i])
  {
    seq(|vals|, i requires 0 <= i < |vals| => CellOf(cols[i], vals[i]))
  }

  function NoneBits(vals: seq<PyValue>): (nulls: seq<bool>)
    ensures |nulls| == |vals| && forall i :: 0 <= i < |vals| ==> nulls[i] == vals[i].PyNone?
  {
    seq(|vals|, i requires 0 <= i < |vals| => vals[i].PyNone?)
  }

  // ---------------------------------------------------------------- writing

  /** _serialize_row: None when struct.pack raises. */
  function PyEncode(cols: Schema, vals: seq<PyValue>): Option<seq<byte>>
    requires |vals| == |cols|
  {
    if AllPack(cols, vals) then Some(Image(cols, NoneBits(vals), CellsOf(cols, vals))) else None
  }

  /** The first loop of _serialize_row. */
  method BuildBitmap(vals: seq<PyValue>) returns (bitmap: seq<byte>)
    ensures bitmap == Bitmap(NoneBits(vals), |vals|)
  {
    hide SetBit;
    bitmap := Zeros(BitmapSize(|vals|));
    for i := 0 to |vals|
      invariant bitmap == Bitmap(NoneBits(vals), i)
    {
      if vals[i].PyNone? {
        bitmap := bitmap[i / 8 := SetBit(bitmap[i / 8], i % 8)];
      }
    }
  }

  /** The bytes that one value adds to the row, None when struct.pack raises. */
  method PackValue(col: Column, v: PyValue) returns (packed: Option<seq<byte>>)
    requires Matches(col.kind, v) && !v.PyNone?
    ensures packed == if Packs(col, v) then Some(Field(col.kind, CellOf(col, v))) else None
  {
    match v {
      case PyInt(n) =>
        if !IsInt(n) {
          return None;
        }
        return Some(IntBytes(n));
      case PyFloat(b) =>
        return Some(b);
      case PyBool(b) =>
        return Some([if b then 1 else 0]);
      case PyStr(s) =>
        var encoded := s;
        if |encoded| > col.maxSize {
          encoded := encoded[..col.maxSize];
        }
        if |encoded| > 65535 {
          return None;
        }
        return Some(ShortBytes(|encoded|) + encoded);
    }
  }

  /** _serialize_row */
  method SerializeRow(cols: Schema, vals: seq<PyValue>) returns (row: Option<seq<byte>>)
    requires RowMatches(cols, vals)
    ensures row == PyEncode(cols, vals)
  {
    hide Packs, CellOf, Field, Bitmap;
    var bitmap := BuildBitmap(vals);
    var data: seq<byte> := [];
    for i := 0 to |cols|
      invariant forall j :: 0 <= j < i ==> vals[j].PyNone? || Packs(cols[j], vals[j])
      invariant AllPack(cols, vals) ==> data == Fields(cols, NoneBits(vals), CellsOf(cols, vals), i)
    {
      if !vals[i].PyNone? {
        var packed := PackValue(cols[i], vals[i]);
        if packed.None? {
          return None;
        }
        data := data + packed.value;
      }
    }
    NonesPack(cols, vals);
    return Some(bitmap + data);
  }

  lemma NonesPack(cols: Schema, vals: seq<PyValue>)
    requires |cols| == |vals| && forall j :: 0 <= j < |vals| ==> vals[j].PyNone? || Packs(cols[j], vals[j])
    ensures AllPack(cols, vals)
  {
  }

  /** Every row that Python writes is read by the C reader, with the same values (strings truncated to
      max_size) and to its last byte. */
  lemma PythonRowsReadInC(cols: Schema, vals: seq<PyValue>)
    requires RowMatches(cols, vals) && PyEncode(cols, vals).Some?
    ensures Decode(cols, PyEncode(cols, vals).value) == Some((CellsOf(cols, vals), |PyEncode(cols, vals).value|))
  {
    hide Image, Decode;
    ImageRoundTrip(cols, NoneBits(vals), CellsOf(cols, vals));
  }

  /** The C reader's cell c holds what Python was given: numbers by value, truth as 1 or 0, strings up to
      max_size bytes. */
  predicate CellHolds(col: Column, v: PyValue, c: Cell) {
    match v
    case PyNone => c == []
    case PyInt(n) => |c| == 4 && BytesToInt(c) == n
    case PyFloat(b) => c == b
    case PyBool(b) => c == [if b then 1 else 0]
    case PyStr(s) => c == if |s| <= col.maxSize then s else s[..col.maxSize]
  }

  lemma PythonCellsInC(cols: Schema, vals: seq<PyValue>)
    requires RowMatches(cols, vals) && PyEncode(cols, vals).Some?
    ensures var row := PyEncode(cols, vals).value;
            && Decode(cols, row).Some? && |Decode(cols, row).value.0| == |vals| && Decode(cols, row).value.1 == |row|
            && forall i :: 0 <= i < |vals| ==> CellHolds(cols[i], vals[i], Decode(cols, row).value.0[i])
  {
    hide Image, Decode, IntBytes, BytesToInt;
    PythonRowsReadInC(cols, vals);
    forall i | 0 <= i < |vals|
      ensures CellHolds(cols[i], vals[i], CellsOf(cols, vals)[i])
    {
      assert Matches(cols[i].kind, vals[i]) && Packs(cols[i], vals[i]);
      if vals[i].PyInt? {
        IntRoundTrip(vals[i].number);
      }
    }
  }

  /** The writer raises exactly if an int does not fit 32 bits, or a string is longer than 65535 bytes in
      a column that allows that. */
  lemma PythonRaisesIff(cols: Schema, vals: seq<PyValue>)
    requires |vals| == |cols|
    ensures PyEncode(cols, vals).None? <==>
              exists i :: 0 <= i < |vals| &&
                match vals[i]
                case PyInt(n) => n < -2147483648 || n > 2147483647
                case PyStr(s) => |s| > 65535 && cols[i].maxSize > 65535
                case _ => false
  {
    forall i | 0 <= i < |vals|
      ensures !Packs(cols[i], vals[i]) <==>
                match vals[i]
                case PyInt(n) => n < -2147483648 || n > 2147483647
                case PyStr(s) => |s| > 65535 && cols[i].maxSize > 65535
                case _ => false
    {
    }
  }

  /** A string that is empty, or empty once truncated. */
  predicate EmptyString(col: Column, v: PyValue) {
    v.PyStr? && (v.utf8 == [] || col.maxSize == 0)
  }

  lemma SameBitmaps(cols: Schema, vals: seq<PyValue>)
    requires RowMatches(cols, vals) && AllPack(cols, vals)
    ensures NoneBits(vals) == NullCells(CellsOf(cols, vals)) <==>
              forall i :: 0 <= i < |vals| ==> !EmptyString(cols[i], vals[i])
  {
    forall i | 0 <= i < |vals|
      ensures NoneBits(vals)[i] == NullCells(CellsOf(cols, vals))[i] <==> !EmptyString(cols[i], vals[i])
    {
      assert Packs(cols[i], vals[i]) && Matches(cols[i].kind, vals[i]);
    }
  }

  /** Python and C write the same bytes for the same values exactly when no string is empty: to C a
      size of 0 is NULL, to Python the empty string is not. */
  lemma WritersAgree(cols: Schema, vals: seq<PyValue>)
    requires RowMatches(cols, vals) && PyEncode(cols, vals).Some?
    ensures PyEncode(cols, vals).value == Encode(cols, CellsOf(cols, vals)) <==>
              forall i :: 0 <= i < |vals| ==> !EmptyString(cols[i], vals[i])
  {
    hide Image;
    var cells := CellsOf(cols, vals);
    SameBitmaps(cols, vals);
    if NoneBits(vals) != NullCells(cells) {
      var i :| 0 <= i < |vals| && NoneBits(vals)[i] != NullCells(cells)[i];
      BitInImage(cols, NoneBits(vals), cells, i);
      BitInImage(cols, NullCells(cells), cells, i);
    }
  }

  // ---------------------------------------------------------------- reading

  /** The value that a non-null cell stores, strings byte for byte. */
  function StoredValue(kind: ColumnType, c: Cell): PyValue
    requires !kind.VarcharColumn? ==> |c| == FixedSize(kind)
  {
    match kind
    case IntColumn => PyInt(BytesToInt(c))
    case FloatColumn => PyFloat(c)
    case BoolColumn => PyBool(c[0] != 0)
    case VarcharColumn => PyStr(c)
  }

  /** decode("utf-8", errors="replace") */
  function Shown(v: PyValue): PyValue {
    if v.PyStr? then PyStr(Replaced(v.utf8)) else v
  }

  /** What the reader makes of a non-null cell. */
  function ValueOf(kind: ColumnType, c: Cell): PyValue
    requires !kind.VarcharColumn? ==> |c| == FixedSize(kind)
  {
    Shown(StoredValue(kind, c))
  }

  function Clip(n: nat, buf: seq<byte>): nat {
    if n < |buf| then n else |buf|
  }

  /** struct.unpack_from raises past the end of the data; a slice does not, it is cut short. */
  function PyReadField(kind: ColumnType, data: seq<byte>, off: nat): Option<(PyValue, nat)> {
    if kind.VarcharColumn? then
      if off + 2 > |data| then None
      else
        var len := BytesToShort(data[off..off + 2]);
        Some((ValueOf(kind, data[off + 2..Clip(off + 2 + len, data)]), off + 2 + len))
    else if off + FixedSize(kind) > |data| then None
    else Some((ValueOf(kind, data[off..off + FixedSize(kind)]), off + FixedSize(kind)))
  }

  /** _deserialize_row over the first k columns: None when it raises. */
  function PyDecodeUpTo(cols: Schema, data: seq<byte>, k: nat): (r: Option<(seq<PyValue>, nat)>)
    requires k <= |cols|
    ensures r.Some? ==> |r.value.0| == k
  {
    if k == 0 then Some(([], BitmapSize(|cols|)))
    else
      var before := PyDecodeUpTo(cols, data, k - 1);
      if before.None? || (k - 1) / 8 >= |data| then None
      else if IsSet(data, k - 1) then Some((before.value.0 + [PyNone], before.value.1))
      else
        var f := PyReadField(cols[k - 1].kind, data, before.value.1);
        if f.None? then None else Some((before.value.0 + [f.value.0], f.value.1))
  }

  function PyDecode(cols: Schema, data: seq<byte>): Option<seq<PyValue>> {
    var r := PyDecodeUpTo(cols, data, |cols|);
    if r.None? then None else Some(r.value.0)
  }

  lemma {:induction false} PyFailsFrom(cols: Schema, data: seq<byte>, k: nat, n: nat)
    requires k <= n <= |cols| && PyDecodeUpTo(cols, data, k).None?
    ensures PyDecodeUpTo(cols, data, n).None?
  {
    hide PyReadField, IsSet;
    if k < n {
      PyFailsFrom(cols, data, k, n - 1);
    }
  }

  /** _deserialize_row */
  method DeserializeRow(cols: Schema, data: seq<byte>) returns (row: Option<seq<PyValue>>)
    ensures row == PyDecode(cols, data)
  {
    hide PyReadField, TestBit;
    var bitmapLen := BitmapSize(|cols|);
    var bitmap := data[..Clip(bitmapLen, data)];
    var offset := bitmapLen;
    var vals: seq<PyValue> := [];
    for i := 0 to |cols|
      invariant PyDecodeUpTo(cols, data, i) == Some((vals, offset))
    {
      if i / 8 >= |bitmap| {
        PyFailsFrom(cols, data, i + 1, |cols|);
        return None;
      }
      if IsSet(bitmap, i) {
        vals := vals + [PyNone];
      } else {
        var field := PyReadField(cols[i].kind, data, offset);
        if field.None? {
          PyFailsFrom(cols, data, i + 1, |cols|);
          return None;
        }
        vals := vals + [field.value.0];
        offset := field.value.1;
      }
    }
    return Some(vals);
  }

  lemma FieldReadersAgree(kind: ColumnType, buf: seq<byte>, off: nat)
    requires ReadField(kind, buf, off).Some?
    ensures var f := ReadField(kind, buf, off).value;
            && (!kind.VarcharColumn? ==> |f.0| == FixedSize(kind))
            && PyReadField(kind, buf, off) == Some((ValueOf(kind, f.0), f.1))
  {
  }

  /** On every row that the C reader accepts, the Python reader stops at the same byte and returns the
      same columns, strings after decoding. */
  lemma {:induction false} ReadersInStep(cols: Schema, buf: seq<byte>, k: nat)
    requires k <= |cols| && BitmapSize(|cols|) <= |buf| && DecodeUpTo(cols, buf, k).Some?
    ensures var c, p := DecodeUpTo(cols, buf, k), PyDecodeUpTo(cols, buf, k);
            && p.Some? && p.value.1 == c.value.1
            && forall i :: 0 <= i < k ==>
                 if IsSet(buf, i) then c.value.0[i] == [] && p.value.0[i] == PyNone
                 else (!cols[i].kind.VarcharColumn? ==> |c.value.0[i]| == FixedSize(cols[i].kind))
                      && p.value.0[i] == ValueOf(cols[i].kind, c.value.0[i])
  {
    hide IsSet, ValueOf, ReadField, PyReadField, FixedSize;
    if k > 0 {
      ReadersInStep(cols, buf, k - 1);
      if !IsSet(buf, k - 1) {
        FieldReadersAgree(cols[k - 1].kind, buf, DecodeUpTo(cols, buf, k - 1).value.1);
      }
    }
  }

  /** Column i of a row holds exactly the bytes that the C reader returned for it. */
  ghost predicate SameColumn(cols: Schema, buf: seq<byte>, cells: seq<Cell>, vals: seq<PyValue>, i: nat)
    requires i < |cols| == |cells| == |vals| && BitmapSize(|cols|) <= |buf|
  {
    if IsSet(buf, i) then cells[i] == [] && vals[i] == PyNone
    else
      && (!cols[i].kind.VarcharColumn? ==> |cells[i]| == FixedSize(cols[i].kind))
      && vals[i] == StoredValue(cols[i].kind, cells[i])
  }

  lemma ShownIsStored(v: PyValue)
    ensures Shown(v) == v <==> (v.PyStr? ==> ValidUtf8(v.utf8))
  {
    if v.PyStr? {
      ReplacedIdentity(v.utf8);
    }
  }

  /** On every row that the C reader accepts the Python reader does not raise, and it returns the same
      values if and only if every non-null VARCHAR is well-formed UTF-8. */
  lemma ReadersAgree(cols: Schema, buf: seq<byte>)
    requires Decode(cols, buf).Some?
    ensures var cells, back := Decode(cols, buf).value.0, PyDecode(cols, buf);
            && back.Some? && |back.value| == |cols|
            && ((forall i :: 0 <= i < |cols| ==> SameColumn(cols, buf, cells, back.value, i)) <==>
                (forall i :: 0 <= i < |cols| && !IsSet(buf, i) && cols[i].kind.VarcharColumn? ==> ValidUtf8(cells[i])))
  {
    hide IsSet, DecodeUpTo, PyDecodeUpTo, ValidUtf8, Replaced;
    ReadersInStep(cols, buf, |cols|);
    var cells, vals := Decode(cols, buf).value.0, PyDecode(cols, buf).value;
    forall i | 0 <= i < |cols|
      ensures SameColumn(cols, buf, cells, vals, i) <==>
                (!IsSet(buf, i) && cols[i].kind.VarcharColumn? ==> ValidUtf8(cells[i]))
    {
      if !IsSet(buf, i) {
        ShownIsStored(StoredValue(cols[i].kind, cells[i]));
      }
    }
  }

  /** A string that fits, or is cut between two characters. */
  predicate CutCleanly(col: Column, v: PyValue) {
    v.PyStr? && |v.utf8| > col.maxSize ==> !Continuation(v.utf8[col.maxSize])
  }

  lemma CleanCutIsShown(col: Column, v: PyValue)
    requires Matches(col.kind, v)
    ensures Shown(Truncated(col.maxSize, v)) == Truncated(col.maxSize, v) <==> CutCleanly(col, v)
  {
    hide ValidUtf8, Replaced;
    ShownIsStored(Truncated(col.maxSize, v));
    if v.PyStr? && |v.utf8| > col.maxSize {
      CutIsValid(v.utf8, col.maxSize);
    }
  }

  /** What Python reads back of a row it wrote. */
  lemma PythonReadsBack(cols: Schema, vals: seq<PyValue>)
    requires RowMatches(cols, vals) && PyEncode(cols, vals).Some?
    ensures var back := PyDecode(cols, PyEncode(cols, vals).value);
            && back.Some? && |back.value| == |vals|
            && forall i :: 0 <= i < |vals| ==> back.value[i] == Shown(Truncated(cols[i].maxSize, vals[i]))
  {
    hide Image, IsSet, DecodeUpTo, PyDecodeUpTo, ValidUtf8, Replaced;
    var image, cells := PyEncode(cols, vals).value, CellsOf(cols, vals);
    PythonRowsReadInC(cols, vals);
    ReadersInStep(cols, image, |cols|);
    forall i | 0 <= i < |vals|
      ensures PyDecode(cols, image).value[i] == Shown(Truncated(cols[i].maxSize, vals[i]))
    {
      BitInImage(cols, NoneBits(vals), cells, i);
      assert Matches(cols[i].kind, vals[i]) && Packs(cols[i], vals[i]);
      if vals[i].PyInt? {
        IntRoundTrip(vals[i].number);
      }
    }
  }

  /** Python reads back what it wrote, strings truncated to max_size, if and only if no string is cut
      inside a character.  Empty strings and NULLs are kept apart. */
  lemma PythonRoundTrip(cols: Schema, vals: seq<PyValue>)
    requires RowMatches(cols, vals) && PyEncode(cols, vals).Some?
    ensures var back := PyDecode(cols, PyEncode(cols, vals).value);
            && back.Some? && |back.value| == |vals|
            && ((forall i :: 0 <= i < |vals| ==>
                   back.value[i] == if vals[i].PyStr? && |vals[i].utf8| > cols[i].maxSize
                                    then PyStr(vals[i].utf8[..cols[i].maxSize]) else vals[i]) <==>
                (forall i :: 0 <= i < |vals| ==> CutCleanly(cols[i], vals[i])))
  {
    hide PyEncode, PyDecode, Shown, CutCleanly;
    PythonReadsBack(cols, vals);
    forall i | 0 <= i < |vals|
      ensures Shown(Truncated(cols[i].maxSize, vals[i])) == Truncated(cols[i].maxSize, vals[i]) <==>
                CutCleanly(cols[i], vals[i])
    {
      assert Matches(cols[i].kind, vals[i]);
      CleanCutIsShown(cols[i], vals[i]);
    }
  }

  /** The letter e with an acute accent in a VARCHAR(1): its first byte is stored, and U+FFFD comes back. */
  lemma SplitCharacter()
    ensures var cols, vals := [Column(VarcharColumn, 1, false)], [PyStr([0xC3, 0xA9])];
            && RowMatches(cols, vals) && PyEncode(cols, vals).Some?
            && PyDecode(cols, PyEncode(cols, vals).value) == Some([PyStr(REPLACEMENT)])
  {
    var cols, vals := [Column(VarcharColumn, 1, false)], [PyStr([0xC3, 0xA9])];
    assert FirstPiece([0xC3, 0xA9]) == (2, true);
    assert RowMatches(cols, vals);
    PythonReadsBack(cols, vals);
    var stored: seq<byte> := [0xC3, 0xA9][..1];
    assert stored == [0xC3] && stored[1..] == [];
    assert Replaced(stored) == REPLACEMENT;
    assert PyDecode(cols, PyEncode(cols, vals).value).value == [PyStr(REPLACEMENT)];
  }
}
