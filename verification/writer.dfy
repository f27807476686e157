/**
 * The encoder of cff_writer.py: type inference, the three column
 * encodings, the descriptor table, the block layout and the writer object
 * that ties them together. Each loop of the source is a method proved
 * against a specification function; the properties of those functions are
 * the lemmas.
 */
module Writer {
  import opened Results
  import opened Encoding
  import opened Format

  // ---------------------------------------------------------------- type inference

  /** The type tag of one value: bools and ints are INT32, floats FLOAT64, everything else STRING. */
  function InferType(v: Value): (dtype: Byte)
    ensures dtype == TYPE_INT32 <==> v.Bool? || v.Int?
    ensures dtype == TYPE_FLOAT64 <==> v.Float?
    ensures dtype == TYPE_STRING <==> v.Null? || v.Text? || v.Other?
  {
    match v
    case Bool(_) => TYPE_INT32
    case Int(_) => TYPE_INT32
    case Float(_) => TYPE_FLOAT64
    case _ => TYPE_STRING
  }

  /** The values inference skips: None and the empty string. */
  predicate IsBlank(v: Value)
  {
    v == Null || v == Text([])
  }

  /** The type of a column: that of its first non-blank value, STRING when there is none. */
  function ColumnType(values: seq<Value>): Byte
  {
    if values == [] then TYPE_STRING
    else if !IsBlank(values[0]) then InferType(values[0])
    else ColumnType(values[1..])
  }

  lemma {:induction false} ColumnTypeIsFirstNonBlank(values: seq<Value>, k: nat)
    requires k < |values| && !IsBlank(values[k])
    requires forall j :: 0 <= j < k ==> IsBlank(values[j])
    ensures ColumnType(values) == InferType(values[k])
  {
    if k > 0 {
      ColumnTypeIsFirstNonBlank(values[1..], k - 1);
    }
  }

  lemma {:induction false} ColumnTypeAllBlank(values: seq<Value>)
    requires forall j :: 0 <= j < |values| ==> IsBlank(values[j])
    ensures ColumnType(values) == TYPE_STRING
  {
    if values != [] {
      ColumnTypeAllBlank(values[1..]);
    }
  }

  /** The for/else scan of write: stop at the first non-blank value, default to STRING. */
  method InferColumnType(values: seq<Value>) returns (dtype: Byte)
    ensures dtype == ColumnType(values)
    ensures (forall j :: 0 <= j < |values| ==> IsBlank(values[j])) ==> dtype == TYPE_STRING
    ensures forall k :: 0 <= k < |values| && !IsBlank(values[k]) && (forall j :: 0 <= j < k ==> IsBlank(values[j]))
              ==> dtype == InferType(values[k])
  {
    for i := 0 to |values|
      invariant forall j :: 0 <= j < i ==> IsBlank(values[j])
    {
      if !IsBlank(values[i]) {
        ColumnTypeIsFirstNonBlank(values, i);
        return InferType(values[i]);
      }
    }
    ColumnTypeAllBlank(values);
    return TYPE_STRING;
  }

  // ---------------------------------------------------------------- Python's int(), float(), str()

  const ONE_BITS: F64 := 0x3FF0_0000_0000_0000   // 1.0

  /** The value of a non-empty run of ASCII digits. */
  function DigitsValue(s: Bytes): Option<nat>
  {
    if s == [] then None
    else
      var last := s[|s| - 1];
      if !(48 <= last <= 57) then None
      else if |s| == 1 then Some(last - 48)
      else match DigitsValue(s[..|s| - 1])
        case None => None
        case Some(n) => Some(10 * n + (last - 48))
  }

  /** int() of a string: an optional sign followed by decimal digits. */
  function ParseInt(s: Bytes): Option<int>
  {
    if |s| > 0 && (s[0] == 45 || s[0] == 43) then
      match DigitsValue(s[1..])
      case None => None
      case Some(n) =>
        var m: int := n;
        Some(if s[0] == 45 then -m else m)
    else DigitsValue(s)
  }

  function Digits(n: nat): Bytes
  {
    if n < 10 then [48 + n] else Digits(n / 10) + [48 + n % 10]
  }

  /** str() of an int. */
  function DecimalText(i: int): Bytes
  {
    if i < 0 then [45] + Digits(-i) else Digits(i)
  }

  /** int(v), as serialize_int32_column applies it. */
  function AsInt(host: Builtins, v: Value): Result<int, Error>
  {
    match v
    case Bool(b) => Success(if b then 1 else 0)
    case Int(i) => Success(i)
    case Float(x) =>
      (match host.intOfFloat(x)
       case Some(i) => Success(i)
       case None => Failure(InvalidValueForType(v)))
    case Text(s) =>
      (match ParseInt(s)
       case Some(i) => Success(i)
       case None => Failure(InvalidValueForType(v)))
    case _ => Failure(InvalidValueForType(v))
  }

  /** float(v), as serialize_float64_column applies it. */
  function AsFloat(host: Builtins, v: Value): Result<F64, Error>
  {
    match v
    case Bool(b) => Success(if b then ONE_BITS else 0)
    case Int(i) =>
      (match host.floatOfInt(i)
       case Some(x) => Success(x)
       case None => Failure(InvalidValueForType(v)))
    case Float(x) => Success(x)
    case Text(s) =>
      (match host.floatOfText(s)
       case Some(x) => Success(x)
       case None => Failure(InvalidValueForType(v)))
    case _ => Failure(InvalidValueForType(v))
  }

  /** str(v), as serialize_string_column applies it: None becomes "None", booleans "True"/"False". */
  function AsText(host: Builtins, v: Value): Bytes
  {
    match v
    case Null => [78, 111, 110, 101]
    case Bool(b) => if b then [84, 114, 117, 101] else [70, 97, 108, 115, 101]
    case Int(i) => DecimalText(i)
    case Float(x) => host.strOfFloat(x)
    case Text(s) => s
    case Other(r) => r
  }

  // ---------------------------------------------------------------- fixed-width columns

  predicate IsFixedWidth(dtype: Byte)
  {
    dtype == TYPE_INT32 || dtype == TYPE_FLOAT64
  }

  function CellWidth(dtype: Byte): nat
  {
    if dtype == TYPE_INT32 then 4 else 8
  }

  /** The bytes of one value of an INT32 ('<i') or FLOAT64 ('<d') column. */
  function EncodeCell(host: Builtins, dtype: Byte, v: Value): (r: Result<Bytes, Error>)
    requires IsFixedWidth(dtype)
    ensures r.Success? ==> |r.value| == CellWidth(dtype)
  {
    if dtype == TYPE_INT32 then
      var n :- AsInt(host, v);
      match PackInt32(n)
      case Some(b) => Success(b)
      case None => Failure(PackOverflow)
    else
      var bits :- AsFloat(host, v);
      Success(PackDouble(bits))
  }

  /** Each value packed by cell, one after another; the first value that fails stops the column. */
  function PackCells(cell: Value -> Result<Bytes, Error>, values: seq<Value>): Result<Bytes, Error>
    decreases |values|
  {
    if values == [] then Success([])
    else
      var front :- PackCells(cell, values[..|values| - 1]);
      var bytes :- cell(values[|values| - 1]);
      Success(front + bytes)
  }

  /** The packer of one value of a fixed-width column of type dtype. */
  function CellEncoder(host: Builtins, dtype: Byte): Value -> Result<Bytes, Error>
    requires IsFixedWidth(dtype)
  {
    v => EncodeCell(host, dtype, v)
  }

  /** An INT32 or FLOAT64 column: the packed values one after another; the first value that fails stops it. */
  function FixedWidthColumn(host: Builtins, dtype: Byte, values: seq<Value>): Result<Bytes, Error>
    requires IsFixedWidth(dtype)
  {
    PackCells(CellEncoder(host, dtype), values)
  }

  lemma {:induction false} PackCellsFailureSticks(cell: Value -> Result<Bytes, Error>, values: seq<Value>, k: nat)
    requires k <= |values| && PackCells(cell, values[..k]).Failure?
    ensures PackCells(cell, values) == PackCells(cell, values[..k])
    decreases |values| - k
  {
    if k == |values| {
      assert values[..k] == values;
    } else {
      assert values[..k + 1][..k] == values[..k];
      PackCellsFailureSticks(cell, values, k + 1);
    }
  }

  /** The packed values of a column whose every value packs. */
  function CellsOf(cell: Value -> Result<Bytes, Error>, values: seq<Value>): (cells: seq<Bytes>)
    requires forall i :: 0 <= i < |values| ==> cell(values[i]).Success?
    ensures |cells| == |values|
  {
    seq(|values|, i requires 0 <= i < |values| => cell(values[i]).value)
  }

  /** The column succeeds exactly when every value packs. */
  lemma {:induction false} PackCellsSucceeds(cell: Value -> Result<Bytes, Error>, values: seq<Value>)
    ensures PackCells(cell, values).Success? <==> (forall i :: 0 <= i < |values| ==> cell(values[i]).Success?)
    decreases |values|
  {
    if values != [] {
      var n := |values| - 1;
      var front := values[..n];
      PackCellsSucceeds(cell, front);
      assert forall i :: 0 <= i < n ==> front[i] == values[i];
    }
  }

  /** A column that succeeds is its packed values back to back. */
  lemma {:induction false} PackCellsIsConcat(cell: Value -> Result<Bytes, Error>, values: seq<Value>)
    requires PackCells(cell, values).Success?
    ensures forall i :: 0 <= i < |values| ==> cell(values[i]).Success?
    ensures PackCells(cell, values).value == Concat(CellsOf(cell, values))
    decreases |values|
  {
    PackCellsSucceeds(cell, values);
    if values != [] {
      var n := |values| - 1;
      var front := values[..n];
      PackCellsIsConcat(cell, front);
      assert CellsOf(cell, values)[..n] == CellsOf(cell, front);
    }
  }

  /** The first value that does not pack decides the error of the whole column. */
  lemma PackCellsFirstError(cell: Value -> Result<Bytes, Error>, values: seq<Value>, k: nat)
    requires k < |values|
    requires forall i :: 0 <= i < k ==> cell(values[i]).Success?
    requires cell(values[k]).Failure?
    ensures PackCells(cell, values) == Failure(cell(values[k]).error)
  {
    var front := values[..k];
    assert forall i :: 0 <= i < k ==> front[i] == values[i];
    PackCellsSucceeds(cell, front);
    assert values[..k + 1][..k] == front;
    PackCellsFailureSticks(cell, values, k + 1);
  }

  /** INT32 columns: 4 bytes per value, group i the two's complement of int(values[i]); any value outside 32 bits fails. */
  lemma Int32ColumnLayout(host: Builtins, values: seq<Value>)
    ensures FixedWidthColumn(host, TYPE_INT32, values).Success? <==>
              forall i :: 0 <= i < |values| ==>
                AsInt(host, values[i]).Success? && I32_MIN <= AsInt(host, values[i]).value < I32_LIMIT
    ensures FixedWidthColumn(host, TYPE_INT32, values).Success? ==>
              var out := FixedWidthColumn(host, TYPE_INT32, values).value;
              |out| == 4 * |values| &&
              forall i :: 0 <= i < |values| ==> AsInt(host, values[i]) == Success(UnpackInt32(out[4 * i..4 * i + 4]))
  {
    assert FixedWidthColumn(host, TYPE_INT32, values).Success? <==>
             forall i :: 0 <= i < |values| ==>
               AsInt(host, values[i]).Success? && I32_MIN <= AsInt(host, values[i]).value < I32_LIMIT
    by {
      PackCellsSucceeds(CellEncoder(host, TYPE_INT32), values);
      forall i | 0 <= i < |values|
        ensures EncodeCell(host, TYPE_INT32, values[i]).Success? <==>
                  AsInt(host, values[i]).Success? && I32_MIN <= AsInt(host, values[i]).value < I32_LIMIT
      {
      }
    }
    if FixedWidthColumn(host, TYPE_INT32, values).Success? {
      Int32Cells(host, values);
    }
  }

  lemma Int32Cells(host: Builtins, values: seq<Value>)
    requires FixedWidthColumn(host, TYPE_INT32, values).Success?
    ensures var out := FixedWidthColumn(host, TYPE_INT32, values).value;
              |out| == 4 * |values| &&
              forall i :: 0 <= i < |values| ==> AsInt(host, values[i]) == Success(UnpackInt32(out[4 * i..4 * i + 4]))
  {
    var out := FixedWidthColumn(host, TYPE_INT32, values).value;
    var cell := CellEncoder(host, TYPE_INT32);
    PackCellsIsConcat(cell, values);
    UniformConcatLength(CellsOf(cell, values), 4);
    forall i | 0 <= i < |values|
      ensures AsInt(host, values[i]) == Success(UnpackInt32(out[4 * i..4 * i + 4]))
    {
      Int32Cell(host, values, i);
    }
  }

  lemma Int32Cell(host: Builtins, values: seq<Value>, i: nat)
    requires FixedWidthColumn(host, TYPE_INT32, values).Success? && i < |values|
    ensures var out := FixedWidthColumn(host, TYPE_INT32, values).value;
              4 * i + 4 <= |out| && AsInt(host, values[i]) == Success(UnpackInt32(out[4 * i..4 * i + 4]))
  {
    var cell := CellEncoder(host, TYPE_INT32);
    PackCellsIsConcat(cell, values);
    var cells := CellsOf(cell, values);
    UniformConcatSlice(cells, 4, i);
  }

  /** FLOAT64 columns: 8 bytes per value, group i the bit pattern of float(values[i]). */
  lemma Float64ColumnLayout(host: Builtins, values: seq<Value>)
    ensures FixedWidthColumn(host, TYPE_FLOAT64, values).Success? <==>
              forall i :: 0 <= i < |values| ==> AsFloat(host, values[i]).Success?
    ensures FixedWidthColumn(host, TYPE_FLOAT64, values).Success? ==>
              var out := FixedWidthColumn(host, TYPE_FLOAT64, values).value;
              |out| == 8 * |values| &&
              forall i :: 0 <= i < |values| ==> AsFloat(host, values[i]) == Success(FromLittleEndian(out[8 * i..8 * i + 8]))
  {
    assert FixedWidthColumn(host, TYPE_FLOAT64, values).Success? <==>
             forall i :: 0 <= i < |values| ==> AsFloat(host, values[i]).Success?
    by {
      PackCellsSucceeds(CellEncoder(host, TYPE_FLOAT64), values);
      forall i | 0 <= i < |values|
        ensures EncodeCell(host, TYPE_FLOAT64, values[i]).Success? <==> AsFloat(host, values[i]).Success?
      {
      }
    }
    if FixedWidthColumn(host, TYPE_FLOAT64, values).Success? {
      Float64Cells(host, values);
    }
  }

  lemma Float64Cells(host: Builtins, values: seq<Value>)
    requires FixedWidthColumn(host, TYPE_FLOAT64, values).Success?
    ensures var out := FixedWidthColumn(host, TYPE_FLOAT64, values).value;
              |out| == 8 * |values| &&
              forall i :: 0 <= i < |values| ==> AsFloat(host, values[i]) == Success(FromLittleEndian(out[8 * i..8 * i + 8]))
  {
    var out := FixedWidthColumn(host, TYPE_FLOAT64, values).value;
    var cell := CellEncoder(host, TYPE_FLOAT64);
    PackCellsIsConcat(cell, values);
    UniformConcatLength(CellsOf(cell, values), 8);
    forall i | 0 <= i < |values|
      ensures AsFloat(host, values[i]) == Success(FromLittleEndian(out[8 * i..8 * i + 8]))
    {
      Float64Cell(host, values, i);
    }
  }

  lemma Float64Cell(host: Builtins, values: seq<Value>, i: nat)
    requires FixedWidthColumn(host, TYPE_FLOAT64, values).Success? && i < |values|
    ensures var out := FixedWidthColumn(host, TYPE_FLOAT64, values).value;
              8 * i + 8 <= |out| && AsFloat(host, values[i]) == Success(FromLittleEndian(out[8 * i..8 * i + 8]))
  {
    var cell := CellEncoder(host, TYPE_FLOAT64);
    PackCellsIsConcat(cell, values);
    var cells := CellsOf(cell, values);
    UniformConcatSlice(cells, 8, i);
    Float64CellDecodes(host, values[i]);
  }

  lemma Float64CellDecodes(host: Builtins, v: Value)
    requires EncodeCell(host, TYPE_FLOAT64, v).Success?
    ensures AsFloat(host, v) == Success(FromLittleEndian(EncodeCell(host, TYPE_FLOAT64, v).value))
  {
  }

  // ---------------------------------------------------------------- string columns

  function Texts(host: Builtins, values: seq<Value>): (texts: seq<Bytes>)
    ensures |texts| == |values|
  {
    seq(|values|, i requires 0 <= i < |values| => AsText(host, values[i]))
  }

  /** The offset table: offset k is the length of the first k strings together. */
  function Offsets(texts: seq<Bytes>): (offsets: seq<nat>)
    ensures |offsets| == |texts| + 1
  {
    seq(|texts| + 1, k requires 0 <= k <= |texts| => |Concat(texts[..k])|)
  }

  /** Each offset packed as '<I'; fails on the first offset that does not fit 32 bits. */
  function PackOffsets(offsets: seq<nat>): Result<Bytes, Error>
    decreases |offsets|
  {
    if offsets == [] then Success([])
    else
      var front :- PackOffsets(offsets[..|offsets| - 1]);
      match PackUnsigned(offsets[|offsets| - 1], 4)
      case None => Failure(PackOverflow)
      case Some(b) => Success(front + b)
  }

  /** The table packs exactly when every offset is below 2^32, and then entry i holds offset i. */
  lemma {:induction false} PackOffsetsLayout(offsets: seq<nat>)
    ensures PackOffsets(offsets).Success? <==> forall i :: 0 <= i < |offsets| ==> offsets[i] < U32_LIMIT
    ensures PackOffsets(offsets).Success? ==>
              var table := PackOffsets(offsets).value;
              |table| == 4 * |offsets| &&
              forall i :: 0 <= i < |offsets| ==> FromLittleEndian(table[4 * i..4 * i + 4]) == offsets[i]
    decreases |offsets|
  {
    Pow256Widths();
    if offsets != [] {
      var n := |offsets| - 1;
      var front := offsets[..n];
      PackOffsetsLayout(front);
      if PackOffsets(offsets).Success? {
        var t, b := PackOffsets(front).value, PackUnsigned(offsets[n], 4).value;
        forall i | 0 <= i < |offsets|
          ensures FromLittleEndian((t + b)[4 * i..4 * i + 4]) == offsets[i]
        {
          if i < n {
            assert (t + b)[4 * i..4 * i + 4] == t[4 * i..4 * i + 4];
          } else {
            assert (t + b)[4 * i..4 * i + 4] == b;
          }
        }
      }
    }
  }

  /** A STRING column: n+1 offsets, then the strings back to back. */
  function StringColumn(texts: seq<Bytes>): Result<Bytes, Error>
  {
    var table :- PackOffsets(Offsets(texts));
    Success(table + Concat(texts))
  }

  lemma OffsetsMonotone(texts: seq<Bytes>)
    ensures forall i, j :: 0 <= i <= j <= |texts| ==> Offsets(texts)[i] <= Offsets(texts)[j]
  {
    forall i, j | 0 <= i <= j <= |texts|
      ensures Offsets(texts)[i] <= Offsets(texts)[j]
    {
      ConcatPrefixLength(texts, i, j);
    }
  }

  /**
   * The offset table: offsets[0] is 0, the offsets never decrease, the last is the blob length,
   * and the blob between offsets i and i+1 is string i.
   */
  lemma OffsetsLayout(texts: seq<Bytes>)
    ensures Offsets(texts)[0] == 0 && Offsets(texts)[|texts|] == |Concat(texts)|
    ensures forall i, j :: 0 <= i <= j <= |texts| ==> Offsets(texts)[i] <= Offsets(texts)[j]
    ensures forall i :: 0 <= i < |texts| ==>
              Offsets(texts)[i] + |texts[i]| == Offsets(texts)[i + 1] && Offsets(texts)[i] + |texts[i]| <= |Concat(texts)| &&
              Concat(texts)[Offsets(texts)[i]..Offsets(texts)[i + 1]] == texts[i]
  {
    assert texts[..|texts|] == texts;
    OffsetsMonotone(texts);
    forall i | 0 <= i < |texts|
      ensures Offsets(texts)[i] + |texts[i]| == Offsets(texts)[i + 1] && Offsets(texts)[i] + |texts[i]| <= |Concat(texts)|
      ensures Concat(texts)[Offsets(texts)[i]..Offsets(texts)[i + 1]] == texts[i]
    {
      OffsetStep(texts, i);
    }
  }

  lemma OffsetStep(texts: seq<Bytes>, i: nat)
    requires i < |texts|
    ensures Offsets(texts)[i] + |texts[i]| == Offsets(texts)[i + 1] && Offsets(texts)[i] + |texts[i]| <= |Concat(texts)|
    ensures Concat(texts)[Offsets(texts)[i]..Offsets(texts)[i + 1]] == texts[i]
  {
    var front := texts[..i + 1];
    assert front[..i] == texts[..i];
    assert Concat(front) == Concat(texts[..i]) + texts[i];
    ConcatSlice(texts, i);
  }

  /**
   * The string column is 4(n+1) offset bytes then the blob, offset k decodes from bytes 4k..4k+4,
   * and it fails exactly when the blob reaches 2^32 bytes.
   */
  lemma StringColumnLayout(texts: seq<Bytes>)
    ensures StringColumn(texts).Success? <==> |Concat(texts)| < U32_LIMIT
    ensures StringColumn(texts).Success? ==>
              var out, n := StringColumn(texts).value, |texts|;
              |out| == 4 * (n + 1) + |Concat(texts)| &&
              out[4 * (n + 1)..] == Concat(texts) &&
              forall k :: 0 <= k <= n ==> FromLittleEndian(out[4 * k..4 * k + 4]) == Offsets(texts)[k]
  {
    var offsets, n := Offsets(texts), |texts|;
    assert texts[..n] == texts;
    OffsetsMonotone(texts);
    PackOffsetsLayout(offsets);
    assert (forall i :: 0 <= i < |offsets| ==> offsets[i] < U32_LIMIT) <==> offsets[n] < U32_LIMIT;
    if PackOffsets(offsets).Success? {
      var table := PackOffsets(offsets).value;
      var out := table + Concat(texts);
      assert out[4 * (n + 1)..] == Concat(texts);
      forall k | 0 <= k <= n
        ensures FromLittleEndian(out[4 * k..4 * k + 4]) == offsets[k]
      {
        assert out[4 * k..4 * k + 4] == table[4 * k..4 * k + 4];
      }
    }
  }

  /** The offset table after the first i strings: appending string i appends its end offset. */
  lemma OffsetsSnoc(texts: seq<Bytes>, i: nat)
    requires i < |texts|
    ensures Offsets(texts[..i + 1]) == Offsets(texts[..i]) + [|Concat(texts[..i + 1])|]
  {
    var a, b := Offsets(texts[..i + 1]), Offsets(texts[..i]) + [|Concat(texts[..i + 1])|];
    forall k | 0 <= k <= i + 1
      ensures a[k] == b[k]
    {
      if k <= i {
        assert texts[..i + 1][..k] == texts[..i][..k];
      } else {
        assert texts[..i + 1][..k] == texts[..i + 1];
      }
    }
  }

  lemma {:induction false} PackOffsetsFailureSticks(offsets: seq<nat>, k: nat)
    requires k <= |offsets| && PackOffsets(offsets[..k]).Failure?
    ensures PackOffsets(offsets) == PackOffsets(offsets[..k])
    decreases |offsets| - k
  {
    if k == |offsets| {
      assert offsets[..k] == offsets;
    } else {
      assert offsets[..k + 1][..k] == offsets[..k];
      PackOffsetsFailureSticks(offsets, k + 1);
    }
  }

  /** The column bytes for a type tag; a tag outside {1, 2, 3} is an error. */
  function SerializedColumn(host: Builtins, dtype: Byte, values: seq<Value>): Result<Bytes, Error>
  {
    if IsFixedWidth(dtype) then FixedWidthColumn(host, dtype, values)
    else if dtype == TYPE_STRING then StringColumn(Texts(host, values))
    else Failure(UnknownTypeTag(dtype))
  }

  // ---------------------------------------------------------------- header

  /**
   * struct.pack of an unsigned header field: PackUnsigned, with its failure turned into the writer's
   * PackOverflow error so that the header can be built with `:-`.
   */
  function Pack(n: int, k: nat): (r: Result<Bytes, Error>)
    ensures r.Success? <==> 0 <= n < Pow256(k)
    ensures r.Failure? ==> r.error == PackOverflow
    ensures r.Success? ==> |r.value| == k && FromLittleEndian(r.value) == n
  {
    match PackUnsigned(n, k)
    case Some(b) => Success(b)
    case None => Failure(PackOverflow)
  }

  /** One descriptor: u32 name length, the name, u8 tag, u64 offset, u64 compressed and u64 uncompressed size. */
  function DescriptorBytes(m: ColumnMeta): Result<Bytes, Error>
  {
    var nameLength :- Pack(|m.name|, 4);
    var dtype :- Pack(m.dtype, 1);
    var offset :- Pack(m.offset, 8);
    var compressed :- Pack(m.compressedSize, 8);
    var uncompressed :- Pack(m.uncompressedSize, 8);
    Success(nameLength + m.name + dtype + offset + compressed + uncompressed)
  }

  predicate DescriptorsFit(metas: seq<ColumnMeta>)
  {
    forall i :: 0 <= i < |metas| ==> DescriptorBytes(metas[i]).Success?
  }

  function DescriptorChunks(metas: seq<ColumnMeta>): (chunks: seq<Bytes>)
    requires DescriptorsFit(metas)
    ensures |chunks| == |metas|
  {
    seq(|metas|, i requires 0 <= i < |metas| => DescriptorBytes(metas[i]).value)
  }

  /** Appending a descriptor that packs extends the descriptor bytes by exactly that descriptor. */
  lemma DescriptorChunksSnoc(metas: seq<ColumnMeta>, i: nat)
    requires i < |metas| && DescriptorsFit(metas[..i]) && DescriptorBytes(metas[i]).Success?
    ensures DescriptorsFit(metas[..i + 1])
    ensures Concat(DescriptorChunks(metas[..i + 1])) == Concat(DescriptorChunks(metas[..i])) + DescriptorBytes(metas[i]).value
  {
    var front, next := metas[..i], metas[..i + 1];
    assert forall k :: 0 <= k < i ==> next[k] == front[k];
    assert DescriptorsFit(next);
    assert DescriptorChunks(next)[..i] == DescriptorChunks(front);
  }

  /** What write_header emits: "CFF1", u32 version, u64 row count, u32 column count, the descriptors. */
  function HeaderBytes(numRows: nat, metas: seq<ColumnMeta>): Result<Bytes, Error>
  {
    var version :- Pack(FORMAT_VERSION, 4);
    var rows :- Pack(numRows, 8);
    var count :- Pack(|metas|, 4);
    if DescriptorsFit(metas) then Success(MAGIC + version + rows + count + Concat(DescriptorChunks(metas)))
    else Failure(PackOverflow)
  }

  function DescriptorSize(m: ColumnMeta): nat
  {
    4 + |m.name| + 1 + 8 + 8 + 8
  }

  /** The header size write computes before laying out the blocks. */
  function HeaderSize(metas: seq<ColumnMeta>): nat
    decreases |metas|
  {
    if metas == [] then 4 + 4 + 8 + 4
    else HeaderSize(metas[..|metas| - 1]) + DescriptorSize(metas[|metas| - 1])
  }

  lemma {:induction false} DescriptorBytesLength(m: ColumnMeta)
    requires DescriptorBytes(m).Success?
    ensures |DescriptorBytes(m).value| == DescriptorSize(m)
  {
  }

  /** The header write_header emits is exactly as long as the size write computed for it. */
  lemma HeaderBytesLength(numRows: nat, metas: seq<ColumnMeta>)
    requires HeaderBytes(numRows, metas).Success?
    ensures |HeaderBytes(numRows, metas).value| == HeaderSize(metas)
  {
    Pow256Widths();
    DescriptorChunksLength(metas);
  }

  lemma {:induction false} DescriptorChunksLength(metas: seq<ColumnMeta>)
    requires DescriptorsFit(metas)
    ensures |Concat(DescriptorChunks(metas))| + 20 == HeaderSize(metas)
    decreases |metas|
  {
    if metas != [] {
      var n := |metas| - 1;
      var front := metas[..n];
      assert DescriptorsFit(front);
      assert DescriptorChunks(metas)[..n] == DescriptorChunks(front);
      DescriptorChunksLength(front);
      DescriptorBytesLength(metas[n]);
    }
  }

  /** The header fails only when a field does not fit its width; it starts with the fixed fields in order. */
  lemma HeaderBytesFields(numRows: nat, metas: seq<ColumnMeta>)
    ensures HeaderBytes(numRows, metas).Success? <==>
              numRows < U64_LIMIT && |metas| < U32_LIMIT && DescriptorsFit(metas)
    ensures HeaderBytes(numRows, metas).Success? ==>
              var h := HeaderBytes(numRows, metas).value;
              |h| >= 20 && h[..4] == MAGIC && FromLittleEndian(h[4..8]) == FORMAT_VERSION &&
              FromLittleEndian(h[8..16]) == numRows && FromLittleEndian(h[16..20]) == |metas| &&
              h[20..] == Concat(DescriptorChunks(metas))
  {
    Pow256Widths();
    if HeaderBytes(numRows, metas).Success? {
      var version, rows, count := Pack(FORMAT_VERSION, 4).value, Pack(numRows, 8).value, Pack(|metas|, 4).value;
      var h := MAGIC + version + rows + count + Concat(DescriptorChunks(metas));
      assert h[..4] == MAGIC;
      assert h[4..8] == version;
      assert h[8..16] == rows;
      assert h[16..20] == count;
      assert h[20..] == Concat(DescriptorChunks(metas));
    }
  }

  // ---------------------------------------------------------------- layout

  /** The compressed sizes of the first i columns together. */
  function SizesBefore(metas: seq<ColumnMeta>, i: nat): nat
    requires i <= |metas|
  {
    if i == 0 then 0 else SizesBefore(metas, i - 1) + metas[i - 1].compressedSize
  }

  /** The descriptors with block i placed at start plus the sizes of the blocks before it. */
  function Layout(metas: seq<ColumnMeta>, start: nat): (laid: seq<ColumnMeta>)
    ensures |laid| == |metas|
  {
    seq(|metas|, i requires 0 <= i < |metas| => metas[i].(offset := start + SizesBefore(metas, i)))
  }

  lemma {:induction false} SizesBeforeMonotone(metas: seq<ColumnMeta>, i: nat, j: nat)
    requires i <= j <= |metas|
    ensures SizesBefore(metas, i) <= SizesBefore(metas, j)
    decreases j - i
  {
    if i < j {
      SizesBeforeMonotone(metas, i, j - 1);
    }
  }

  /**
   * The layout only sets offsets; the first block starts at start, each next block right after the
   * previous one, and the last one ends at start plus all the sizes.
   */
  lemma LayoutContiguous(metas: seq<ColumnMeta>, start: nat)
    ensures forall i :: 0 <= i < |metas| ==> Layout(metas, start)[i].(offset := metas[i].offset) == metas[i]
    ensures |metas| > 0 ==> Layout(metas, start)[0].offset == start
    ensures forall i :: 0 <= i < |metas| - 1 ==>
              Layout(metas, start)[i + 1].offset == Layout(metas, start)[i].offset + metas[i].compressedSize
    ensures |metas| > 0 ==>
              Layout(metas, start)[|metas| - 1].offset + metas[|metas| - 1].compressedSize
                == start + SizesBefore(metas, |metas|)
  {
  }

  /** No two blocks of a layout overlap: block i ends at or before block j starts, for i < j. */
  lemma LayoutDisjoint(metas: seq<ColumnMeta>, start: nat)
    ensures forall i, j :: 0 <= i < j < |metas| ==>
              Layout(metas, start)[i].offset + metas[i].compressedSize <= Layout(metas, start)[j].offset
  {
    forall i, j | 0 <= i < j < |metas|
      ensures Layout(metas, start)[i].offset + metas[i].compressedSize <= Layout(metas, start)[j].offset
    {
      SizesBeforeMonotone(metas, i + 1, j);
    }
  }

  /** The header-size loop of write. */
  method HeaderSizeOf(metas: seq<ColumnMeta>) returns (size: nat)
    ensures size == HeaderSize(metas)
  {
    size := 4 + 4 + 8 + 4;
    for i := 0 to |metas|
      invariant size == HeaderSize(metas[..i])
    {
      assert metas[..i + 1][..i] == metas[..i];
      size := size + 4 + |metas[i].name| + 1 + 8 + 8 + 8;
    }
    assert metas[..|metas|] == metas;
  }

  /** The offset loop of write: a running sum of compressed sizes, starting at the header size. */
  method AssignOffsets(metas: seq<ColumnMeta>, headerSize: nat) returns (laid: seq<ColumnMeta>)
    ensures laid == Layout(metas, headerSize)
  {
    laid := metas;
    var currentOffset := headerSize;
    for i := 0 to |metas|
      invariant |laid| == |metas|
      invariant forall k :: 0 <= k < i ==> laid[k] == Layout(metas, headerSize)[k]
      invariant forall k :: i <= k < |metas| ==> laid[k] == metas[k]
      invariant currentOffset == headerSize + SizesBefore(metas, i)
    {
      laid := laid[i := laid[i].(offset := currentOffset)];
      currentOffset := currentOffset + laid[i].compressedSize;
    }
  }

  // ---------------------------------------------------------------- whole table

  /** `[row[name] for row in rows]`: fails with the name when some row lacks it. */
  function ColumnOf(rows: seq<Row>, name: Name): (r: Result<seq<Value>, Error>)
    ensures r.Success? <==> forall j :: 0 <= j < |rows| ==> name in Keys(rows[j])
    ensures r.Failure? ==> r.error == MissingKey(name)
    ensures r.Success? ==> |r.value| == |rows| && forall j :: 0 <= j < |rows| ==> Lookup(rows[j], name) == Some(r.value[j])
  {
    if forall j :: 0 <= j < |rows| ==> Lookup(rows[j], name).Some? then
      Success(seq(|rows|, j requires 0 <= j < |rows| => Lookup(rows[j], name).value))
    else
      Failure(MissingKey(name))
  }

  /** The columns of the given names, in order; the first name some row lacks is the error. */
  function Columns(rows: seq<Row>, names: seq<Name>): (r: Result<seq<seq<Value>>, Error>)
    ensures r.Success? ==> |r.value| == |names|
    decreases |names|
  {
    if names == [] then Success([])
    else
      var front :- Columns(rows, names[..|names| - 1]);
      var column :- ColumnOf(rows, names[|names| - 1]);
      Success(front + [column])
  }

  /** The columns succeed exactly when every name is in every row, and column k is then the values of name k. */
  lemma {:induction false} ColumnsSpec(rows: seq<Row>, names: seq<Name>)
    ensures Columns(rows, names).Success? <==> forall k :: 0 <= k < |names| ==> ColumnOf(rows, names[k]).Success?
    ensures Columns(rows, names).Success? ==>
              forall k :: 0 <= k < |names| ==> ColumnOf(rows, names[k]) == Success(Columns(rows, names).value[k])
    decreases |names|
  {
    if names != [] {
      var n := |names| - 1;
      var front := names[..n];
      ColumnsSpec(rows, front);
      assert forall k :: 0 <= k < n ==> front[k] == names[k];
    }
  }

  lemma {:induction false} ColumnsFailureSticks(rows: seq<Row>, names: seq<Name>, k: nat)
    requires k <= |names| && Columns(rows, names[..k]).Failure?
    ensures Columns(rows, names) == Columns(rows, names[..k])
    decreases |names| - k
  {
    if k == |names| {
      assert names[..k] == names;
    } else {
      assert names[..k + 1][..k] == names[..k];
      ColumnsFailureSticks(rows, names, k + 1);
    }
  }

  /** The descriptors and the compressed blocks write produces, before anything is written. */
  datatype Plan = Plan(metas: seq<ColumnMeta>, blocks: seq<Bytes>)

  /** The type write infers for each column. */
  function ColumnTypes(columns: seq<seq<Value>>): (types: seq<Byte>)
    ensures |types| == |columns|
  {
    seq(|columns|, k requires 0 <= k < |columns| => ColumnType(columns[k]))
  }

  /**
   * The serialize-and-compress loop of write: each column serialized with its type and compressed,
   * and a descriptor per column whose offset is still 0; the first column that fails is the error.
   */
  function Unplaced(host: Builtins, codec: Codec, names: seq<Name>, types: seq<Byte>, columns: seq<seq<Value>>): Result<Plan, Error>
    requires |names| == |types| == |columns|
    decreases |names|
  {
    if names == [] then Success(Plan([], []))
    else
      var n := |names| - 1;
      var front :- Unplaced(host, codec, names[..n], types[..n], columns[..n]);
      var serialized :- SerializedColumn(host, types[n], columns[n]);
      var block := codec.compress(serialized);
      Success(Plan(front.metas + [ColumnMeta(names[n], types[n], 0, |block|, |serialized|)], front.blocks + [block]))
  }

  lemma {:induction false} UnplacedFailureSticks(host: Builtins, codec: Codec, names: seq<Name>, types: seq<Byte>, columns: seq<seq<Value>>, k: nat)
    requires |names| == |types| == |columns| && k <= |names|
    requires Unplaced(host, codec, names[..k], types[..k], columns[..k]).Failure?
    ensures Unplaced(host, codec, names, types, columns) == Unplaced(host, codec, names[..k], types[..k], columns[..k])
    decreases |names| - k
  {
    if k == |names| {
      assert names[..k] == names && types[..k] == types && columns[..k] == columns;
    } else {
      assert names[..k + 1][..k] == names[..k] && types[..k + 1][..k] == types[..k] && columns[..k + 1][..k] == columns[..k];
      UnplacedFailureSticks(host, codec, names, types, columns, k + 1);
    }
  }

  function PlanTable(host: Builtins, codec: Codec, rows: seq<Row>): Result<Plan, Error>
  {
    if rows == [] then Failure(EmptyInput)
    else
      var names := Keys(rows[0]);
      var columns :- Columns(rows, names);
      var plan :- Unplaced(host, codec, names, ColumnTypes(columns), columns);
      Success(Plan(Layout(plan.metas, HeaderSize(plan.metas)), plan.blocks))
  }

  /** The bytes write puts in the file: the header, then the compressed blocks in column order. */
  function EncodeTable(host: Builtins, codec: Codec, rows: seq<Row>): Result<Bytes, Error>
  {
    var plan :- PlanTable(host, codec, rows);
    var header :- HeaderBytes(|rows|, plan.metas);
    Success(header + Concat(plan.blocks))
  }

  /**
   * write on no rows fails with EmptyInput; otherwise, when the k-th key of the first row is the
   * first key some row lacks, it fails with that key before anything is serialized.
   */
  lemma WriteInputErrors(host: Builtins, codec: Codec, rows: seq<Row>, k: nat, j: nat)
    ensures rows == [] ==> EncodeTable(host, codec, rows) == Failure(EmptyInput)
    ensures rows != [] && k < |rows[0]| && j < |rows| && Keys(rows[0])[k] !in Keys(rows[j]) &&
            (forall m, i :: 0 <= m < k && 0 <= i < |rows| ==> Keys(rows[0])[m] in Keys(rows[i])) ==>
              EncodeTable(host, codec, rows) == Failure(MissingKey(Keys(rows[0])[k]))
  {
    if rows != [] && k < |rows[0]| && j < |rows| && Keys(rows[0])[k] !in Keys(rows[j]) &&
       (forall m, i :: 0 <= m < k && 0 <= i < |rows| ==> Keys(rows[0])[m] in Keys(rows[i])) {
      var names := Keys(rows[0]);
      var front := names[..k];
      ColumnsSpec(rows, front);
      assert names[..k + 1][..k] == front;
      assert Columns(rows, names[..k + 1]) == Failure(MissingKey(names[k]));
      ColumnsFailureSticks(rows, names, k + 1);
    }
  }

  /** Descriptor meta and block describe column `column` named `name` and serialized as dtype. */
  predicate Describes(host: Builtins, codec: Codec, name: Name, dtype: Byte, column: seq<Value>, meta: ColumnMeta, block: Bytes)
  {
    && SerializedColumn(host, dtype, column).Success?
    && block == codec.compress(SerializedColumn(host, dtype, column).value)
    && meta == ColumnMeta(name, dtype, 0, |block|, |SerializedColumn(host, dtype, column).value|)
  }

  lemma {:induction false} UnplacedShape(host: Builtins, codec: Codec, names: seq<Name>, types: seq<Byte>, columns: seq<seq<Value>>)
    requires |names| == |types| == |columns|
    requires Unplaced(host, codec, names, types, columns).Success?
    ensures var p := Unplaced(host, codec, names, types, columns).value;
      |p.metas| == |p.blocks| == |names| &&
      forall k :: 0 <= k < |names| ==> Describes(host, codec, names[k], types[k], columns[k], p.metas[k], p.blocks[k])
    decreases |names|
  {
    if names != [] {
      var n := |names| - 1;
      var ns, ts, cs := names[..n], types[..n], columns[..n];
      UnplacedShape(host, codec, ns, ts, cs);
      var front := Unplaced(host, codec, ns, ts, cs).value;
      var p := Unplaced(host, codec, names, types, columns).value;
      var serialized := SerializedColumn(host, types[n], columns[n]).value;
      var block := codec.compress(serialized);
      assert p == Plan(front.metas + [ColumnMeta(names[n], types[n], 0, |block|, |serialized|)], front.blocks + [block]);
      forall k | 0 <= k < |names|
        ensures Describes(host, codec, names[k], types[k], columns[k], p.metas[k], p.blocks[k])
      {
        if k < n {
          assert p.metas[k] == front.metas[k] && p.blocks[k] == front.blocks[k];
          assert names[k] == ns[k] && types[k] == ts[k] && columns[k] == cs[k];
        }
      }
    }
  }

  /**
   * The plan has one descriptor and one block per key of the first row, in order: descriptor k
   * names column k, carries its inferred type and the sizes of its block before and after
   * compression, and block k is the compressed serialization of column k.
   */
  lemma PlanShape(host: Builtins, codec: Codec, rows: seq<Row>)
    requires PlanTable(host, codec, rows).Success?
    ensures |rows| > 0 && Columns(rows, Keys(rows[0])).Success?
    ensures var p, names, columns := PlanTable(host, codec, rows).value, Keys(rows[0]), Columns(rows, Keys(rows[0])).value;
      |p.metas| == |p.blocks| == |names| &&
      forall k :: 0 <= k < |names| ==>
        Describes(host, codec, names[k], ColumnType(columns[k]), columns[k], p.metas[k].(offset := 0), p.blocks[k])
  {
    var p, names := PlanTable(host, codec, rows).value, Keys(rows[0]);
    var columns := Columns(rows, names).value;
    var types := ColumnTypes(columns);
    var unplaced := Unplaced(host, codec, names, types, columns).value;
    UnplacedShape(host, codec, names, types, columns);
    assert p.metas == Layout(unplaced.metas, HeaderSize(unplaced.metas)) && p.blocks == unplaced.blocks;
    forall k | 0 <= k < |names|
      ensures Describes(host, codec, names[k], ColumnType(columns[k]), columns[k], p.metas[k].(offset := 0), p.blocks[k])
    {
      assert p.metas[k].(offset := 0) == unplaced.metas[k];
      assert types[k] == ColumnType(columns[k]);
    }
  }

  /** The first block starts at the header size and each block starts where the previous one ends. */
  lemma PlanOffsets(host: Builtins, codec: Codec, rows: seq<Row>)
    requires PlanTable(host, codec, rows).Success?
    ensures var p := PlanTable(host, codec, rows).value;
      |p.metas| == |p.blocks| &&
      forall k :: 0 <= k < |p.metas| ==>
        && p.metas[k].compressedSize == |p.blocks[k]|
        && p.metas[k].offset == HeaderSize(p.metas) + |Concat(p.blocks[..k])|
  {
    var p := PlanTable(host, codec, rows).value;
    var names := Keys(rows[0]);
    var columns := Columns(rows, names).value;
    var unplaced := Unplaced(host, codec, names, ColumnTypes(columns), columns).value;
    UnplacedSizes(host, codec, names, ColumnTypes(columns), columns);
    assert p.metas == Layout(unplaced.metas, HeaderSize(unplaced.metas)) && p.blocks == unplaced.blocks;
    HeaderSizeIgnoresOffsets(p.metas, unplaced.metas);
    forall k | 0 <= k < |p.metas|
      ensures p.metas[k].offset == HeaderSize(p.metas) + |Concat(p.blocks[..k])|
    {
      SizesBeforeIsConcatLength(unplaced.metas, unplaced.blocks, k);
    }
  }

  /** An unplaced plan has one descriptor and one block per column, and each descriptor records its block's size. */
  lemma {:induction false} UnplacedSizes(host: Builtins, codec: Codec, names: seq<Name>, types: seq<Byte>, columns: seq<seq<Value>>)
    requires |names| == |types| == |columns|
    requires Unplaced(host, codec, names, types, columns).Success?
    ensures var p := Unplaced(host, codec, names, types, columns).value;
      |p.metas| == |p.blocks| == |names| &&
      forall k :: 0 <= k < |names| ==> p.metas[k].compressedSize == |p.blocks[k]|
    decreases |names|
  {
    if names != [] {
      var n := |names| - 1;
      UnplacedSizes(host, codec, names[..n], types[..n], columns[..n]);
    }
  }

  lemma {:induction false} HeaderSizeIgnoresOffsets(a: seq<ColumnMeta>, b: seq<ColumnMeta>)
    requires |a| == |b| && forall i :: 0 <= i < |a| ==> a[i].name == b[i].name
    ensures HeaderSize(a) == HeaderSize(b)
    decreases |a|
  {
    if a != [] {
      HeaderSizeIgnoresOffsets(a[..|a| - 1], b[..|b| - 1]);
    }
  }

  lemma {:induction false} SizesBeforeIsConcatLength(metas: seq<ColumnMeta>, blocks: seq<Bytes>, k: nat)
    requires |metas| == |blocks| && k <= |metas|
    requires forall i :: 0 <= i < |metas| ==> metas[i].compressedSize == |blocks[i]|
    ensures SizesBefore(metas, k) == |Concat(blocks[..k])|
  {
    if k > 0 {
      SizesBeforeIsConcatLength(metas, blocks, k - 1);
      assert blocks[..k][..k - 1] == blocks[..k - 1];
    }
  }

  /**
   * The file is the header followed by the blocks: its length is the header size plus all the
   * compressed sizes, and block k sits at [offset_k, offset_k + compressed_size_k).
   */
  lemma EncodedBlocksAtOffsets(host: Builtins, codec: Codec, rows: seq<Row>)
    requires EncodeTable(host, codec, rows).Success?
    ensures PlanTable(host, codec, rows).Success?
    ensures var file, p := EncodeTable(host, codec, rows).value, PlanTable(host, codec, rows).value;
      |file| == HeaderSize(p.metas) + |Concat(p.blocks)| && BlocksAt(file, p.metas, p.blocks)
  {
    EncodeTableUnfold(host, codec, rows);
    var p := PlanTable(host, codec, rows).value;
    var header := HeaderBytes(|rows|, p.metas).value;
    var file := EncodeTable(host, codec, rows).value;
    assert file == header + Concat(p.blocks) && |p.metas| == |p.blocks| && |header| == HeaderSize(p.metas) &&
      forall k :: 0 <= k < |p.metas| ==>
        p.metas[k].compressedSize == |p.blocks[k]| && p.metas[k].offset == |header| + |Concat(p.blocks[..k])|
    by {
      HeaderBytesLength(|rows|, p.metas);
      PlanOffsets(host, codec, rows);
    }
    BlocksAfterHeader(file, header, p.metas, p.blocks);
  }

  lemma EncodeTableUnfold(host: Builtins, codec: Codec, rows: seq<Row>)
    requires EncodeTable(host, codec, rows).Success?
    ensures PlanTable(host, codec, rows).Success?
    ensures var p := PlanTable(host, codec, rows).value;
      HeaderBytes(|rows|, p.metas).Success? &&
      EncodeTable(host, codec, rows).value == HeaderBytes(|rows|, p.metas).value + Concat(p.blocks)
  {
  }

  /** Block k of the file is the bytes [offset_k, offset_k + compressed_size_k) of descriptor k. */
  predicate BlocksAt(file: Bytes, metas: seq<ColumnMeta>, blocks: seq<Bytes>)
  {
    |metas| == |blocks| &&
    forall k :: 0 <= k < |metas| ==>
      metas[k].offset + metas[k].compressedSize <= |file| &&
      file[metas[k].offset..metas[k].offset + metas[k].compressedSize] == blocks[k]
  }

  /** Blocks laid out right after a header sit at the offsets of their descriptors. */
  lemma BlocksAfterHeader(file: Bytes, header: Bytes, metas: seq<ColumnMeta>, blocks: seq<Bytes>)
    requires file == header + Concat(blocks) && |metas| == |blocks|
    requires forall k :: 0 <= k < |metas| ==>
               metas[k].compressedSize == |blocks[k]| && metas[k].offset == |header| + |Concat(blocks[..k])|
    ensures BlocksAt(file, metas, blocks)
  {
    forall k | 0 <= k < |metas|
      ensures metas[k].offset + metas[k].compressedSize <= |file|
      ensures file[metas[k].offset..metas[k].offset + metas[k].compressedSize] == blocks[k]
    {
      ConcatSlice(blocks, k);
      var start := |Concat(blocks[..k])|;
      assert file[|header| + start..|header| + start + |blocks[k]|] == Concat(blocks)[start..start + |blocks[k]|];
    }
  }

  // ---------------------------------------------------------------- write_from_columns

  /** A column-oriented table: an insertion-ordered dict from names to value lists. */
  type ColumnTable = seq<(Name, seq<Value>)>

  function ColumnNamesOf(columns: ColumnTable): (names: seq<Name>)
    ensures |names| == |columns|
  {
    seq(|columns|, k requires 0 <= k < |columns| => columns[k].0)
  }

  predicate UniformLengths(columns: ColumnTable)
  {
    forall k :: 0 <= k < |columns| ==> |columns[k].1| == |columns[0].1|
  }

  /** The rows write_from_columns hands to write: row i maps each name to its i-th value. */
  function RowsOfColumns(columns: ColumnTable): Result<seq<Row>, Error>
  {
    if columns == [] then Failure(EmptyInput)
    else if !UniformLengths(columns) then Failure(NonUniformLength)
    else
      Success(seq(|columns[0].1|, i requires 0 <= i < |columns[0].1| =>
        seq(|columns|, k requires 0 <= k < |columns| => (columns[k].0, columns[k].1[i]))))
  }

  /**
   * write_from_columns fails on no columns and on columns of different lengths; otherwise it builds
   * one row per index whose keys are the column names in order and whose value under each name is
   * that column's value at the index.
   */
  lemma RowsOfColumnsShape(columns: ColumnTable)
    ensures RowsOfColumns(columns).Success? <==> |columns| > 0 && UniformLengths(columns)
    ensures |columns| == 0 ==> RowsOfColumns(columns) == Failure(EmptyInput)
    ensures |columns| > 0 && !UniformLengths(columns) ==> RowsOfColumns(columns) == Failure(NonUniformLength)
    ensures RowsOfColumns(columns).Success? ==>
              var rows := RowsOfColumns(columns).value;
              |rows| == |columns[0].1| &&
              forall i :: 0 <= i < |rows| ==>
                Keys(rows[i]) == ColumnNamesOf(columns) &&
                (DistinctKeys(rows[i]) ==>
                   forall k :: 0 <= k < |columns| ==> Lookup(rows[i], columns[k].0) == Some(columns[k].1[i]))
  {
    if RowsOfColumns(columns).Success? {
      var rows := RowsOfColumns(columns).value;
      forall i, k | 0 <= i < |rows| && 0 <= k < |columns| && DistinctKeys(rows[i])
        ensures Lookup(rows[i], columns[k].0) == Some(columns[k].1[i])
      {
        LookupAt(rows[i], k);
      }
    }
  }

  // ---------------------------------------------------------------- the writer object

  /** `[row[name] for row in data]`, one row at a time. */
  method ColumnValues(data: seq<Row>, name: Name) returns (r: Result<seq<Value>, Error>)
    ensures r == ColumnOf(data, name)
  {
    var values: seq<Value> := [];
    for j := 0 to |data|
      invariant |values| == j
      invariant forall i :: 0 <= i < j ==> Lookup(data[i], name) == Some(values[i])
    {
      var v := Lookup(data[j], name);
      if v.None? {
        return Failure(MissingKey(name));
      }
      values := values + [v.value];
    }
    assert values == seq(|data|, j requires 0 <= j < |data| => Lookup(data[j], name).value);
    return Success(values);
  }

  class CFFWriter {
    /** The row count of the table being written; write_header emits it. */
    var numRows: nat

    constructor ()
      ensures numRows == 0
    {
      numRows := 0;
    }

    static method SerializeInt32Column(host: Builtins, values: seq<Value>) returns (r: Result<Bytes, Error>)
      ensures r == FixedWidthColumn(host, TYPE_INT32, values)
    {
      var buffer: Bytes := [];
      for i := 0 to |values|
        invariant FixedWidthColumn(host, TYPE_INT32, values[..i]) == Success(buffer)
      {
        assert values[..i + 1][..i] == values[..i];
        var packed := EncodeCell(host, TYPE_INT32, values[i]);
        if packed.Failure? {
          PackCellsFailureSticks(CellEncoder(host, TYPE_INT32), values, i + 1);
          return Failure(packed.error);
        }
        buffer := buffer + packed.value;
      }
      assert values[..|values|] == values;
      return Success(buffer);
    }

    static method SerializeFloat64Column(host: Builtins, values: seq<Value>) returns (r: Result<Bytes, Error>)
      ensures r == FixedWidthColumn(host, TYPE_FLOAT64, values)
    {
      var buffer: Bytes := [];
      for i := 0 to |values|
        invariant FixedWidthColumn(host, TYPE_FLOAT64, values[..i]) == Success(buffer)
      {
        assert values[..i + 1][..i] == values[..i];
        var packed := EncodeCell(host, TYPE_FLOAT64, values[i]);
        if packed.Failure? {
          PackCellsFailureSticks(CellEncoder(host, TYPE_FLOAT64), values, i + 1);
          return Failure(packed.error);
        }
        buffer := buffer + packed.value;
      }
      assert values[..|values|] == values;
      return Success(buffer);
    }

    static method SerializeStringColumn(host: Builtins, values: seq<Value>) returns (r: Result<Bytes, Error>)
      ensures r == StringColumn(Texts(host, values))
    {
      var offsets, stringData := CollectStrings(host, values);
      var buffer: Bytes := [];
      for k := 0 to |offsets|
        invariant PackOffsets(offsets[..k]) == Success(buffer)
      {
        assert offsets[..k + 1][..k] == offsets[..k];
        var packed := PackUnsigned(offsets[k], 4);
        if packed.None? {
          PackOffsetsFailureSticks(offsets, k + 1);
          return Failure(PackOverflow);
        }
        buffer := buffer + packed.value;
      }
      assert offsets[..|offsets|] == offsets;
      buffer := buffer + stringData;
      return Success(buffer);
    }

    /** The first loop of serialize_string_column: the strings back to back and their end offsets. */
    static method CollectStrings(host: Builtins, values: seq<Value>) returns (offsets: seq<nat>, stringData: Bytes)
      ensures offsets == Offsets(Texts(host, values)) && stringData == Concat(Texts(host, values))
    {
      ghost var texts := Texts(host, values);
      offsets := [0];
      stringData := [];
      assert texts[..0] == [];
      for i := 0 to |values|
        invariant stringData == Concat(texts[..i])
        invariant offsets == Offsets(texts[..i])
      {
        var stringBytes := AsText(host, values[i]);
        assert texts[..i + 1][..i] == texts[..i];
        stringData := stringData + stringBytes;
        OffsetsSnoc(texts, i);
        offsets := offsets + [|stringData|];
      }
      assert texts[..|values|] == texts;
    }

    static method SerializeColumn(host: Builtins, values: seq<Value>, dtype: Byte) returns (r: Result<Bytes, Error>)
      ensures r == SerializedColumn(host, dtype, values)
    {
      if dtype == TYPE_INT32 {
        r := SerializeInt32Column(host, values);
      } else if dtype == TYPE_FLOAT64 {
        r := SerializeFloat64Column(host, values);
      } else if dtype == TYPE_STRING {
        r := SerializeStringColumn(host, values);
      } else {
        r := Failure(UnknownTypeTag(dtype));
      }
    }

    /** The header, field by field, for this writer's row count. */
    method WriteHeader(metas: seq<ColumnMeta>) returns (r: Result<Bytes, Error>)
      ensures r == HeaderBytes(numRows, metas)
    {
      Pow256Widths();
      var out := MAGIC + Pack(FORMAT_VERSION, 4).value;
      var rows :- Pack(numRows, 8);
      out := out + rows;
      var count :- Pack(|metas|, 4);
      out := out + count;
      var descriptors :- WriteDescriptors(metas);
      return Success(out + descriptors);
    }

    /** The descriptor loop of write_header: every descriptor in order, or the first overflow. */
    static method WriteDescriptors(metas: seq<ColumnMeta>) returns (r: Result<Bytes, Error>)
      ensures r == if DescriptorsFit(metas) then Success(Concat(DescriptorChunks(metas))) else Failure(PackOverflow)
    {
      var out := [];
      assert metas[..0] == [];
      for i := 0 to |metas|
        invariant DescriptorsFit(metas[..i])
        invariant out == Concat(DescriptorChunks(metas[..i]))
      {
        var descriptor := WriteDescriptor(metas[i]);
        if descriptor.Failure? {
          return Failure(descriptor.error);
        }
        DescriptorChunksSnoc(metas, i);
        out := out + descriptor.value;
      }
      assert metas[..|metas|] == metas;
      return Success(out);
    }

    /** One pass of the descriptor loop of write_header. */
    static method WriteDescriptor(m: ColumnMeta) returns (r: Result<Bytes, Error>)
      ensures r == DescriptorBytes(m)
      ensures r.Failure? ==> r.error == PackOverflow
    {
      var nameLength :- Pack(|m.name|, 4);
      var out := nameLength + m.name;
      var dtype :- Pack(m.dtype, 1);
      out := out + dtype;
      var offset :- Pack(m.offset, 8);
      out := out + offset;
      var compressed :- Pack(m.compressedSize, 8);
      out := out + compressed;
      var uncompressed :- Pack(m.uncompressedSize, 8);
      out := out + uncompressed;
      return Success(out);
    }

    /** write: the whole table to bytes; on success the result is the file the source writes. */
    method Write(host: Builtins, codec: Codec, data: seq<Row>) returns (r: Result<Bytes, Error>)
      modifies this
      ensures r == EncodeTable(host, codec, data)
      ensures numRows == if data == [] then old(numRows) else |data|
    {
      if |data| == 0 {
        return Failure(EmptyInput);
      }
      numRows := |data|;
      var columnNames := Keys(data[0]);
      var columnsData, columnTypes := OrganizeColumns(data, columnNames);
      if columnsData.Failure? {
        return Failure(columnsData.error);
      }
      var plan := CompressColumns(host, codec, columnNames, columnTypes, columnsData.value);
      if plan.Failure? {
        return Failure(plan.error);
      }
      var headerSize := HeaderSizeOf(plan.value.metas);
      var columnsMetadata := AssignOffsets(plan.value.metas, headerSize);
      var compressedColumns := plan.value.blocks;
      assert PlanTable(host, codec, data) == Success(Plan(columnsMetadata, compressedColumns));

      var header := WriteHeader(columnsMetadata);
      if header.Failure? {
        return Failure(header.error);
      }
      var out := AppendBlocks(header.value, compressedColumns);
      return Success(out);
    }

    /** The block loop of write: the compressed blocks after the header, in column order. */
    static method AppendBlocks(header: Bytes, blocks: seq<Bytes>) returns (out: Bytes)
      ensures out == header + Concat(blocks)
    {
      out := header;
      for i := 0 to |blocks|
        invariant out == header + Concat(blocks[..i])
      {
        assert blocks[..i + 1][..i] == blocks[..i];
        out := out + blocks[i];
      }
      assert blocks[..|blocks|] == blocks;
    }

    /** The first loop of write: each named column's values and its inferred type. */
    static method OrganizeColumns(data: seq<Row>, names: seq<Name>) returns (r: Result<seq<seq<Value>>, Error>, types: seq<Byte>)
      ensures r == Columns(data, names)
      ensures r.Success? ==> types == ColumnTypes(r.value)
    {
      var columnsData: seq<seq<Value>> := [];
      types := [];
      for i := 0 to |names|
        invariant Columns(data, names[..i]) == Success(columnsData)
        invariant |types| == i
        invariant forall k :: 0 <= k < i ==> types[k] == ColumnType(columnsData[k])
      {
        assert names[..i + 1][..i] == names[..i];
        var colValues := ColumnValues(data, names[i]);
        if colValues.Failure? {
          ColumnsFailureSticks(data, names, i + 1);
          return Failure(colValues.error), types;
        }
        var dtype := InferColumnType(colValues.value);
        columnsData := columnsData + [colValues.value];
        types := types + [dtype];
      }
      assert names[..|names|] == names;
      return Success(columnsData), types;
    }

    /** The second loop of write: serialize and compress each column and describe it, offset still 0. */
    static method CompressColumns(host: Builtins, codec: Codec, names: seq<Name>, types: seq<Byte>, columns: seq<seq<Value>>)
      returns (r: Result<Plan, Error>)
      requires |names| == |types| == |columns|
      ensures r == Unplaced(host, codec, names, types, columns)
    {
      var compressedColumns: seq<Bytes> := [];
      var columnsMetadata: seq<ColumnMeta> := [];
      for i := 0 to |names|
        invariant Unplaced(host, codec, names[..i], types[..i], columns[..i]) == Success(Plan(columnsMetadata, compressedColumns))
      {
        assert names[..i + 1][..i] == names[..i] && types[..i + 1][..i] == types[..i] && columns[..i + 1][..i] == columns[..i];
        var uncompressedData := SerializeColumn(host, columns[i], types[i]);
        if uncompressedData.Failure? {
          UnplacedFailureSticks(host, codec, names, types, columns, i + 1);
          return Failure(uncompressedData.error);
        }
        var compressedData := codec.compress(uncompressedData.value);
        compressedColumns := compressedColumns + [compressedData];
        columnsMetadata := columnsMetadata + [ColumnMeta(names[i], types[i], 0, |compressedData|, |uncompressedData.value|)];
      }
      assert names[..|names|] == names && types[..|names|] == types && columns[..|names|] == columns;
      return Success(Plan(columnsMetadata, compressedColumns));
    }

    /** write_from_columns: check the columns, turn them into rows, and write those. */
    method WriteFromColumns(host: Builtins, codec: Codec, columns: ColumnTable) returns (r: Result<Bytes, Error>)
      modifies this
      ensures r == match RowsOfColumns(columns)
                   case Failure(e) => Failure(e)
                   case Success(rows) => EncodeTable(host, codec, rows)
      ensures numRows == if RowsOfColumns(columns).Success? then |columns[0].1| else old(numRows)
    {
      if |columns| == 0 {
        return Failure(EmptyInput);
      }
      for k := 0 to |columns|
        invariant forall j :: 0 <= j < k ==> |columns[j].1| == |columns[0].1|
      {
        if |columns[k].1| != |columns[0].1| {
          return Failure(NonUniformLength);
        }
      }
      numRows := |columns[0].1|;
      var data: seq<Row> := [];
      for i := 0 to numRows
        invariant numRows == |columns[0].1|
        invariant data == RowsOfColumns(columns).value[..i]
      {
        var row := seq(|columns|, k requires 0 <= k < |columns| => (columns[k].0, columns[k].1[i]));
        data := data + [row];
      }
      assert data == RowsOfColumns(columns).value;
      r := Write(host, codec, data);
    }
  }
}
