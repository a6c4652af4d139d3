/** The row format as the Python reader takes it: it checks that fixed-width values and length prefixes are
    there, and takes of a string what there is. */
module PythonFormat {
  import opened PoolModel
  import opened Bytes
  import opened RowCodec
  import opened RowFormat
  import opened PythonCodec
  import opened Utf8

  /** Column i, from byte `from`, reads as v; the next column would start at byte `to`, which for a string
      that is cut short lies behind the data. */
  ghost predicate PyColumnLies(kind: ColumnType, data: seq<byte>, i: nat, v: PyValue, from: nat, to: nat)
    requires i / 8 < |data|
  {
    if BitOne(data, i) then v == PyNone && to == from
    else match kind
      case IntColumn =>
        && to == from + 4 <= |data| && v.PyInt? && -2147483648 <= v.number <= 2147483647
        && IntBytes(v.number) == data[from..to]
      case FloatColumn => to == from + 4 <= |data| && v == PyFloat(data[from..to])
      case BoolColumn => to == from + 1 <= |data| && v == PyBool(data[from] != 0)
      case VarcharColumn =>
        && from + 2 <= |data| && to == from + 2 + data[from] as int + 256 * data[from + 1] as int
        && v == PyStr(Replaced(if to <= |data| then data[from + 2..to] else data[from + 2..]))
  }

  ghost predicate PyColumnsLie(cols: Schema, data: seq<byte>, vals: seq<PyValue>, ends: seq<nat>, k: nat) {
    && k <= |cols| && k <= |vals| && k < |ends| && ends[0] == (|cols| + 7) / 8
    && forall i :: 0 <= i < k ==> i / 8 < |data| && PyColumnLies(cols[i].kind, data, i, vals[i], ends[i], ends[i + 1])
  }

  lemma PyFieldLies(kind: ColumnType, data: seq<byte>, i: nat, v: PyValue, from: nat, to: nat)
    requires i / 8 < |data| && !BitOne(data, i)
    ensures PyReadField(kind, data, from) == Some((v, to)) <==> PyColumnLies(kind, data, i, v, from, to)
  {
    hide BitOne, Replaced, BytesToInt, IntBytes;
    if kind.IntColumn? && from + 4 <= |data| {
      BytesRoundTrip(data[from..from + 4]);
      if v.PyInt? && IsInt(v.number) {
        IntRoundTrip(v.number);
      }
    } else if kind.VarcharColumn? && from + 2 <= |data| {
      var prefix := data[from..from + 2];
      assert prefix[0] == data[from] && prefix[1] == data[from + 1];
      var end := from + 2 + BytesToShort(prefix);
      assert data[from + 2..Clip(end, data)] == if end <= |data| then data[from + 2..end] else data[from + 2..];
    }
  }

  lemma PyColumnDecoded(kind: ColumnType, data: seq<byte>, i: nat, v: PyValue, from: nat, to: nat)
    requires i / 8 < |data|
    ensures PyColumnLies(kind, data, i, v, from, to) <==>
              if BitOne(data, i) then v == PyNone && to == from else PyReadField(kind, data, from) == Some((v, to))
  {
    hide PyReadField, BitOne;
    if !BitOne(data, i) {
      PyFieldLies(kind, data, i, v, from, to);
    }
  }

  lemma {:induction false} PyDecodedLies(cols: Schema, data: seq<byte>, k: nat) returns (ends: seq<nat>)
    requires k <= |cols| && PyDecodeUpTo(cols, data, k).Some?
    ensures |ends| == k + 1 && ends[k] == PyDecodeUpTo(cols, data, k).value.1
    ensures PyColumnsLie(cols, data, PyDecodeUpTo(cols, data, k).value.0, ends, k)
  {
    hide PyReadField, IsSet, PyColumnLies;
    if k == 0 {
      ends := [BitmapSize(|cols|)];
    } else {
      var before, now := PyDecodeUpTo(cols, data, k - 1).value, PyDecodeUpTo(cols, data, k).value;
      var es := PyDecodedLies(cols, data, k - 1);
      ends := es + [now.1];
      SetBitIsOne(data, k - 1);
      PyColumnDecoded(cols[k - 1].kind, data, k - 1, now.0[k - 1], before.1, now.1);
      assert forall i :: 0 <= i < k - 1 ==> now.0[i] == before.0[i];
    }
  }

  lemma {:induction false} PyLiesDecoded(cols: Schema, data: seq<byte>, vals: seq<PyValue>, ends: seq<nat>, k: nat)
    requires PyColumnsLie(cols, data, vals, ends, k)
    ensures PyDecodeUpTo(cols, data, k) == Some((vals[..k], ends[k]))
  {
    hide PyReadField, IsSet, PyColumnLies;
    if k > 0 {
      PyLiesDecoded(cols, data, vals, ends, k - 1);
      SetBitIsOne(data, k - 1);
      PyColumnDecoded(cols[k - 1].kind, data, k - 1, vals[k - 1], ends[k - 1], ends[k]);
      assert vals[..k] == vals[..k - 1] + [vals[k - 1]];
    }
  }

  /** _deserialize_row returns these values exactly if they lie there, and raises if none do. */
  lemma PyDecodesRows(cols: Schema, data: seq<byte>, vals: seq<PyValue>)
    ensures PyDecode(cols, data) == Some(vals) <==>
              |vals| == |cols| && exists ends :: PyColumnsLie(cols, data, vals, ends, |cols|)
  {
    hide PyDecodeUpTo, PyColumnLies;
    if PyDecode(cols, data) == Some(vals) {
      var ends := PyDecodedLies(cols, data, |cols|);
      assert PyColumnsLie(cols, data, vals, ends, |cols|);
    }
    if |vals| == |cols| && exists ends :: PyColumnsLie(cols, data, vals, ends, |cols|) {
      var ends :| PyColumnsLie(cols, data, vals, ends, |cols|);
      PyLiesDecoded(cols, data, vals, ends, |cols|);
      assert vals[..|cols|] == vals;
    }
  }
}
