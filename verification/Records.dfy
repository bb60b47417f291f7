/** The row payloads of record.c: for each column a presence byte and the value. */
module Records {
  import opened Pages
  import opened Values
  import opened IndexKeys

  datatype ColumnType = IntColumn | RealColumn | TextColumn

  /** A value coerce_and_check lets into a column, its text length in 32 bits. */
  predicate Fits(col: ColumnType, v: Value) {
    match v
    case Null => true
    case Int(_) => col.IntColumn?
    case Real(_) => col.RealColumn?
    case Text(text) => col.TextColumn? && |text| < 0x1_0000_0000
  }

  predicate RowFits(cols: seq<ColumnType>, row: seq<Value>) {
    |row| == |cols| && forall i :: 0 <= i < |cols| ==> Fits(cols[i], row[i])
  }

  /** Little-endian bytes. */
  function Le(v: nat, n: nat): (s: seq<Byte>)
    ensures |s| == n
  {
    if n == 0 then [] else [v % 256] + Le(v / 256, n - 1)
  }

  function FromLe(s: seq<Byte>): nat {
    if s == [] then 0 else s[0] as int + 256 * FromLe(s[1..])
  }

  lemma {:induction false} FromLeOfLe(v: nat, n: nat)
    requires v < Pow256(n)
    ensures FromLe(Le(v, n)) == v
  {
    if n > 0 {
      FromLeOfLe(v / 256, n - 1);
    }
  }

  function Field(v: Value): seq<Byte> {
    match v
    case Null => [0]
    case Int(i) => [1] + Le(Unsign(i), 8)
    case Real(bits) => [1] + Le(bits, 8)
    case Text(text) => [1] + Le(|text|, 4) + text
  }

  function Record(row: seq<Value>): seq<Byte> {
    if row == [] then [] else Record(row[..|row| - 1]) + Field(row[|row| - 1])
  }

  lemma RecordGrows(row: seq<Value>, i: nat)
    requires i < |row|
    ensures Record(row[..i + 1]) == Record(row[..i]) + Field(row[i])
  {
    assert row[..i + 1][..i] == row[..i];
  }

  lemma {:induction false} RecordParts(row: seq<Value>, i: nat) returns (rest: seq<Byte>)
    requires i < |row|
    ensures Record(row) == Record(row[..i]) + Field(row[i]) + rest
  {
    var front := row[..|row| - 1];
    if i == |front| {
      rest := [];
    } else {
      assert front[..i] == row[..i];
      var r := RecordParts(front, i);
      rest := r + Field(row[|row| - 1]);
    }
  }

  /** record_encoded_size */
  method EncodedSize(cols: seq<ColumnType>, row: seq<Value>) returns (size: nat)
    requires RowFits(cols, row)
    ensures size == |Record(row)|
  {
    size := 0;
    for i := 0 to |cols|
      invariant size == |Record(row[..i])|
    {
      RecordGrows(row, i);
      var n := FieldSize(cols[i], row[i]);
      size := size + n;
    }
    assert row[..|cols|] == row;
  }

  method FieldSize(col: ColumnType, v: Value) returns (size: nat)
    requires Fits(col, v)
    ensures size == |Field(v)|
  {
    size := 1;
    if !v.Null? {
      match col
      case IntColumn => size := size + 8;
      case RealColumn => size := size + 8;
      case TextColumn => size := size + 4 + |v.text|;
    }
  }

  /** record_serialize, guided by the column types alone. */
  method Serialize(cols: seq<ColumnType>, row: seq<Value>) returns (out: seq<Byte>)
    requires RowFits(cols, row)
    ensures out == Record(row)
  {
    out := [];
    for i := 0 to |cols|
      invariant out == Record(row[..i])
    {
      RecordGrows(row, i);
      if row[i].Null? {
        out := out + [0];
      } else {
        match cols[i] {
          case IntColumn => out := out + ([1] + Le(Unsign(row[i].i), 8));
          case RealColumn => out := out + ([1] + Le(row[i].bits, 8));
          case TextColumn => out := out + ([1] + Le(|row[i].text|, 4) + row[i].text);
        }
      }
    }
    assert row[..|cols|] == row;
  }

  /** record_deserialize gives back the row that was serialized. */
  method Deserialize(cols: seq<ColumnType>, data: seq<Byte>, ghost row: seq<Value>) returns (out: seq<Value>)
    requires RowFits(cols, row) && data == Record(row)
    ensures out == row
  {
    var pos := 0;
    out := [];
    for i := 0 to |cols|
      invariant pos == |Record(out)| && out == row[..i]
    {
      var v;
      v, pos := NextField(cols[i], data, pos, row, out);
      out := out + [v];
    }
    assert row[..|cols|] == row;
  }

  method NextField(col: ColumnType, data: seq<Byte>, start: nat, ghost row: seq<Value>, ghost done: seq<Value>) returns (v: Value, pos: nat)
    requires |done| < |row| && done == row[..|done|] && Fits(col, row[|done|]) && data == Record(row) && start == |Record(done)|
    ensures v == row[|done|] && pos == |Record(done + [v])|
  {
    assert (done + [row[|done|]])[..|done|] == done;
    FieldOfRecord(row, |done|);
    v, pos := DeserializeField(col, data, start, row[|done|]);
  }

  method DeserializeField(col: ColumnType, data: seq<Byte>, start: nat, ghost was: Value) returns (v: Value, pos: nat)
    requires Fits(col, was) && FieldAt(data, start, was)
    ensures v == was && pos == start + |Field(was)|
  {
    Pow256Of8();
    var present := data[start];
    pos := start + 1;
    if present == 0 {
      return Null, pos;
    }
    match col
    case IntColumn =>
      FromLeOfLe(Unsign(was.i), 8);
      v, pos := Int(Resign(FromLe(data[pos..pos + 8]))), pos + 8;
    case RealColumn =>
      FromLeOfLe(was.bits, 8);
      v, pos := Real(FromLe(data[pos..pos + 8])), pos + 8;
    case TextColumn =>
      assert Pow256(4) == 0x1_0000_0000;
      FromLeOfLe(|was.text|, 4);
      var len := FromLe(data[pos..pos + 4]);
      pos := pos + 4;
      v, pos := Text(data[pos..pos + len]), pos + len;
  }

  /** The bytes from pos on are those of a value, part by part. */
  ghost predicate FieldAt(data: seq<Byte>, pos: nat, v: Value) {
    && pos + |Field(v)| <= |data|
    && data[pos] == (if v.Null? then 0 else 1)
    && match v
       case Null => true
       case Int(i) => data[pos + 1..pos + 9] == Le(Unsign(i), 8)
       case Real(bits) => data[pos + 1..pos + 9] == Le(bits, 8)
       case Text(text) => data[pos + 1..pos + 5] == Le(|text|, 4) && data[pos + 5..pos + 5 + |text|] == text
  }

  lemma FieldBytes(data: seq<Byte>, before: seq<Byte>, v: Value, rest: seq<Byte>)
    requires data == before + Field(v) + rest
    ensures FieldAt(data, |before|, v)
  {
    var f, pos := Field(v), |before|;
    assert forall k :: 0 <= k < |f| ==> data[pos + k] == f[k];
    match v
    case Null =>
    case Int(i) =>
      assert data[pos + 1..pos + 9] == f[1..9] == Le(Unsign(i), 8);
    case Real(bits) =>
      assert data[pos + 1..pos + 9] == f[1..9] == Le(bits, 8);
    case Text(text) =>
      assert data[pos + 1..pos + 5] == f[1..5] == Le(|text|, 4);
      assert data[pos + 5..pos + 5 + |text|] == f[5..] == text;
  }

  lemma FieldOfRecord(row: seq<Value>, i: nat)
    requires i < |row|
    ensures FieldAt(Record(row), |Record(row[..i])|, row[i])
  {
    var rest := RecordParts(row, i);
    FieldBytes(Record(row), Record(row[..i]), row[i], rest);
  }
}
