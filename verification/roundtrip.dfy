/**
 * What the reader makes of what the writer writes: the header parses back
 * to the row count and the descriptors written, each column deserializes
 * back to the values serialized (as their int(), float() or str()), and a
 * whole table written and read again gives back every row, provided the
 * compressor inflates what it deflated.
 */
module RoundTrip {
  import opened Results
  import opened Encoding
  import opened Format
  import opened Writer
  import opened Reader

  // ---------------------------------------------------------------- header

  /** Bytes a..b of a chunk placed at pos are bytes pos+a..pos+b of the file. */
  lemma SliceOfPlaced(file: Bytes, pos: nat, chunk: Bytes, a: nat, b: nat)
    requires pos + |chunk| <= |file| && file[pos..pos + |chunk|] == chunk
    requires a <= b <= |chunk|
    ensures file[pos + a..pos + b] == chunk[a..b]
  {
    forall j | 0 <= j < b - a
      ensures file[pos + a..pos + b][j] == chunk[a..b][j]
    {
      assert file[pos..pos + |chunk|][a + j] == file[pos + a + j];
    }
  }

  /** A one-byte field packs as the byte itself. */
  lemma PackedByte(n: Byte)
    ensures Writer.Pack(n, 1) == Success([n])
  {
    Pow256Widths();
    var b := Writer.Pack(n, 1).value;
    assert b == [b[0]] && b[1..] == [];
    assert FromLittleEndian(b) == b[0] + 256 * FromLittleEndian([]);
  }

  /** Where each field of a descriptor sits in the bytes write_header emits for it. */
  lemma DescriptorLayout(m: ColumnMeta, d: Bytes)
    requires DescriptorBytes(m) == Success(d)
    ensures var n := |m.name|;
      && |d| == n + 29
      && FromLittleEndian(d[0..4]) == n
      && d[4..4 + n] == m.name
      && d[4 + n] == m.dtype
      && FromLittleEndian(d[5 + n..13 + n]) == m.offset
      && FromLittleEndian(d[13 + n..21 + n]) == m.compressedSize
      && FromLittleEndian(d[21 + n..29 + n]) == m.uncompressedSize
  {
    Pow256Widths();
    PackedByte(m.dtype);
    var nameLength := Writer.Pack(|m.name|, 4).value;
    var offset := Writer.Pack(m.offset, 8).value;
    var compressed := Writer.Pack(m.compressedSize, 8).value;
    var uncompressed := Writer.Pack(m.uncompressedSize, 8).value;
    var n := |m.name|;
    assert d == nameLength + m.name + [m.dtype] + offset + compressed + uncompressed;
    assert d[0..4] == nameLength;
    assert d[4..4 + n] == m.name;
    assert d[5 + n..13 + n] == offset;
    assert d[13 + n..21 + n] == compressed;
    assert d[21 + n..29 + n] == uncompressed;
  }

  /** A descriptor as write_header emits it parses back to itself, the cursor landing right after it. */
  lemma DescriptorRoundTrip(file: Bytes, pos: nat, m: ColumnMeta, d: Bytes)
    requires DescriptorBytes(m) == Success(d)
    requires pos + |d| <= |file| && file[pos..pos + |d|] == d
    ensures ParseDescriptor(file, pos) == Success((m, pos + |d|))
  {
    DescriptorLayout(m, d);
    var n := |m.name|;
    SliceOfPlaced(file, pos, d, 0, 4);
    SliceOfPlaced(file, pos, d, 4, 4 + n);
    assert file[pos + 4 + n] == d[4 + n];
    SliceOfPlaced(file, pos, d, 5 + n, 13 + n);
    SliceOfPlaced(file, pos, d, 13 + n, 21 + n);
    SliceOfPlaced(file, pos, d, 21 + n, 29 + n);
  }

  lemma PrefixSnoc<T>(s: seq<T>, i: nat)
    requires i < |s|
    ensures s[..i + 1] == s[..i] + [s[i]] && s[..i + 1][..i] == s[..i]
  {
  }

  /** Descriptor j parses at positions[j], and parsing it moves the cursor to positions[j + 1]. */
  ghost predicate Chained(file: Bytes, positions: seq<nat>, metas: seq<ColumnMeta>)
  {
    |positions| == |metas| + 1 &&
    forall j :: 0 <= j < |metas| ==> ParseDescriptor(file, positions[j]) == Success((metas[j], positions[j + 1]))
  }

  /** Descriptors that parse one after the other parse together, after the i already parsed. */
  lemma {:induction false} ChainParses(file: Bytes, positions: seq<nat>, metas: seq<ColumnMeta>, i: nat)
    requires Chained(file, positions, metas) && i <= |metas|
    ensures ParseDescriptors(file, positions[i], |metas| - i, metas[..i]) == Success(metas)
    decreases |metas| - i
  {
    if i == |metas| {
      assert metas[..i] == metas;
    } else {
      ChainParses(file, positions, metas, i + 1);
      PrefixSnoc(metas, i);
    }
  }

  /** Where descriptor j of the table starts, the table itself starting at base. */
  function DescriptorPositions(base: nat, chunks: seq<Bytes>): (positions: seq<nat>)
    ensures |positions| == |chunks| + 1
  {
    seq(|chunks| + 1, j requires 0 <= j <= |chunks| => base + |Concat(chunks[..j])|)
  }

  /** chunks[j] is what write_header emits for metas[j]. */
  ghost predicate DescriptorsAre(metas: seq<ColumnMeta>, chunks: seq<Bytes>)
  {
    |chunks| == |metas| &&
    forall j {:trigger DescriptorBytes(metas[j])} :: 0 <= j < |metas| ==> DescriptorBytes(metas[j]) == Success(chunks[j])
  }

  /** The descriptor table write_header emits at base parses descriptor by descriptor. */
  lemma DescriptorsChained(file: Bytes, base: nat, metas: seq<ColumnMeta>, chunks: seq<Bytes>)
    requires DescriptorsAre(metas, chunks)
    requires base + |Concat(chunks)| <= |file| && file[base..base + |Concat(chunks)|] == Concat(chunks)
    ensures Chained(file, DescriptorPositions(base, chunks), metas)
  {
    var positions := DescriptorPositions(base, chunks);
    forall j | 0 <= j < |metas|
      ensures ParseDescriptor(file, positions[j]) == Success((metas[j], positions[j + 1]))
    {
      DescriptorAt(file, base, chunks, j);
      assert DescriptorBytes(metas[j]) == Success(chunks[j]);
      DescriptorRoundTrip(file, positions[j], metas[j], chunks[j]);
    }
  }

  /** Chunk j of a concatenation placed at base sits at base plus the length of the chunks before it. */
  lemma DescriptorAt(file: Bytes, base: nat, chunks: seq<Bytes>, j: nat)
    requires base + |Concat(chunks)| <= |file| && file[base..base + |Concat(chunks)|] == Concat(chunks)
    requires j < |chunks|
    ensures var pos := base + |Concat(chunks[..j])|;
      pos + |chunks[j]| == base + |Concat(chunks[..j + 1])| &&
      pos + |chunks[j]| <= |file| && file[pos..pos + |chunks[j]|] == chunks[j]
  {
    var before := |Concat(chunks[..j])|;
    ConcatSlice(chunks, j);
    SliceOfPlaced(file, base, Concat(chunks), before, before + |chunks[j]|);
    PrefixSnoc(chunks, j);
  }

  /** _read_header inverts write_header: whatever follows the header, it gives back the row count and every descriptor. */
  lemma HeaderRoundTrip(numRows: nat, metas: seq<ColumnMeta>, rest: Bytes)
    requires HeaderBytes(numRows, metas).Success?
    ensures ParseHeader(HeaderBytes(numRows, metas).value + rest) == Success(Header(numRows, metas))
  {
    HeaderBytesFields(numRows, metas);
    var h := HeaderBytes(numRows, metas).value;
    var file := h + rest;
    var descriptors := Concat(DescriptorChunks(metas));
    assert file[..4] == h[..4] && file[4..8] == h[4..8] && file[8..16] == h[8..16] && file[16..20] == h[16..20];
    assert file[20..20 + |descriptors|] == descriptors;
    assert DescriptorsAre(metas, DescriptorChunks(metas));
    DescriptorsChained(file, 20, metas, DescriptorChunks(metas));
    ChainParses(file, DescriptorPositions(20, DescriptorChunks(metas)), metas, 0);
    assert DescriptorChunks(metas)[..0] == [] && metas[..0] == [];
  }

  // ---------------------------------------------------------------- columns

  /** What a value comes back as once its column is written with type dtype: int(v), float(v) or str(v). */
  function StoredValue(host: Builtins, dtype: Byte, v: Value): Result<Value, Error>
  {
    if dtype == TYPE_INT32 then
      var n :- AsInt(host, v);
      Success(Int(n))
    else if dtype == TYPE_FLOAT64 then
      var x :- AsFloat(host, v);
      Success(Float(x))
    else
      Success(Text(AsText(host, v)))
  }

  /** decoded holds, index by index, what the written values come back as. */
  predicate ReadsBackAs(host: Builtins, dtype: Byte, values: seq<Value>, decoded: seq<Value>)
  {
    |decoded| == |values| &&
    forall i :: 0 <= i < |values| ==> StoredValue(host, dtype, values[i]) == Success(decoded[i])
  }

  /** _deserialize_int32_column inverts serialize_int32_column. */
  lemma Int32RoundTrip(host: Builtins, values: seq<Value>)
    requires FixedWidthColumn(host, TYPE_INT32, values).Success?
    ensures Int32Values(FixedWidthColumn(host, TYPE_INT32, values).value).Success?
    ensures ReadsBackAs(host, TYPE_INT32, values, Int32Values(FixedWidthColumn(host, TYPE_INT32, values).value).value)
  {
    var out := FixedWidthColumn(host, TYPE_INT32, values).value;
    Int32Cells(host, values);
    assert |out| % 4 == 0 && |out| / 4 == |values|;
  }

  /** _deserialize_float64_column inverts serialize_float64_column. */
  lemma Float64RoundTrip(host: Builtins, values: seq<Value>)
    requires FixedWidthColumn(host, TYPE_FLOAT64, values).Success?
    ensures Float64Values(FixedWidthColumn(host, TYPE_FLOAT64, values).value).Success?
    ensures ReadsBackAs(host, TYPE_FLOAT64, values, Float64Values(FixedWidthColumn(host, TYPE_FLOAT64, values).value).value)
  {
    var out := FixedWidthColumn(host, TYPE_FLOAT64, values).value;
    Float64Cells(host, values);
    assert |out| % 8 == 0 && |out| / 8 == |values|;
  }

  /** Entry k of the offset table _deserialize_string_column reads is offset k serialize_string_column wrote. */
  lemma OffsetEntry(texts: seq<Bytes>, k: nat)
    requires StringColumn(texts).Success? && k <= |texts|
    ensures var out, n := StringColumn(texts).value, |texts|;
      (n + 1) * 4 <= |out| && OffsetTable(out, n + 1)[k] == Offsets(texts)[k]
  {
    StringColumnLayout(texts);
  }

  /** The blob _deserialize_string_column reads is the concatenation serialize_string_column wrote. */
  lemma StringBlob(texts: seq<Bytes>)
    requires StringColumn(texts).Success?
    ensures var out, n := StringColumn(texts).value, |texts|;
      (n + 1) * 4 <= |out| && out[(n + 1) * 4..] == Concat(texts)
  {
    StringColumnLayout(texts);
  }

  /** _deserialize_string_column, with the row count as num_rows, inverts serialize_string_column. */
  lemma StringRoundTrip(host: Builtins, values: seq<Value>)
    requires StringColumn(Texts(host, values)).Success?
    ensures StringValues(|values|, StringColumn(Texts(host, values)).value).Success?
    ensures ReadsBackAs(host, TYPE_STRING, values, StringValues(|values|, StringColumn(Texts(host, values)).value).value)
  {
    var texts := Texts(host, values);
    var n := |texts|;
    var out := StringColumn(texts).value;
    StringBlob(texts);
    var offsets := OffsetTable(out, n + 1);
    var blob := out[(n + 1) * 4..];
    var decoded := StringValues(n, out).value;
    assert decoded == seq(n, i requires 0 <= i < n => Text(Slice(blob, offsets[i], offsets[i + 1])));
    forall i | 0 <= i < n
      ensures StoredValue(host, TYPE_STRING, values[i]) == Success(decoded[i])
    {
      OffsetEntry(texts, i);
      OffsetEntry(texts, i + 1);
      OffsetStep(texts, i);
      assert Slice(blob, offsets[i], offsets[i + 1]) == texts[i] == AsText(host, values[i]);
    }
  }

  /** The deserializer of a column's tag, given the row count, inverts its serializer. */
  lemma ColumnRoundTrip(host: Builtins, dtype: Byte, values: seq<Value>)
    requires SerializedColumn(host, dtype, values).Success?
    ensures DecodeColumn(|values|, dtype, SerializedColumn(host, dtype, values).value).Success?
    ensures ReadsBackAs(host, dtype, values, DecodeColumn(|values|, dtype, SerializedColumn(host, dtype, values).value).value)
  {
    if dtype == TYPE_INT32 {
      Int32RoundTrip(host, values);
    } else if dtype == TYPE_FLOAT64 {
      Float64RoundTrip(host, values);
    } else {
      StringRoundTrip(host, values);
    }
  }

  /** _read_column_data of a block the writer placed gives back the serialized column, when the codec is lossless. */
  lemma BlockRoundTrip(file: Bytes, codec: Codec, m: ColumnMeta, data: Bytes)
    requires Lossless(codec)
    requires m.offset + m.compressedSize <= |file| && file[m.offset..m.offset + m.compressedSize] == codec.compress(data)
    requires m.uncompressedSize == |data|
    ensures BlockData(file, codec, m) == Success(data)
  {
    assert codec.decompress(codec.compress(data)) == Some(data);
  }

  /** A column written by write reads back, from where its descriptor points, as its stored values. */
  lemma ColumnReadsBack(host: Builtins, codec: Codec, file: Bytes, numRows: nat, name: Name, column: seq<Value>, meta: ColumnMeta, block: Bytes)
    requires Lossless(codec) && |column| == numRows
    requires meta.offset + meta.compressedSize <= |file| && file[meta.offset..meta.offset + meta.compressedSize] == block
    requires Describes(host, codec, name, ColumnType(column), column, meta.(offset := 0), block)
    ensures ReadColumn(file, numRows, codec, meta).Success?
    ensures ReadsBackAs(host, ColumnType(column), column, ReadColumn(file, numRows, codec, meta).value)
  {
    var dtype := ColumnType(column);
    var serialized := SerializedColumn(host, dtype, column).value;
    assert meta.dtype == dtype && meta.uncompressedSize == |serialized| && meta.compressedSize == |block|;
    BlockRoundTrip(file, codec, meta, serialized);
    ColumnRoundTrip(host, dtype, column);
  }

  // ---------------------------------------------------------------- whole table

  /**
   * What write lays out for a table: descriptor k names column k and records its type and sizes,
   * block k is its compressed serialization and sits where descriptor k points, and column k holds
   * each row's value under that name.
   */
  ghost predicate TableLayout(host: Builtins, codec: Codec, file: Bytes, rows: seq<Row>, names: seq<Name>,
                              columns: seq<seq<Value>>, metas: seq<ColumnMeta>, blocks: seq<Bytes>)
  {
    && |names| == |columns| == |metas| == |blocks|
    && BlocksAt(file, metas, blocks)
    && forall k :: 0 <= k < |names| ==>
         && metas[k].name == names[k]
         && ColumnOf(rows, names[k]) == Success(columns[k])
         && Describes(host, codec, names[k], ColumnType(columns[k]), columns[k], metas[k].(offset := 0), blocks[k])
  }

  lemma TableLayoutHolds(host: Builtins, codec: Codec, rows: seq<Row>)
    requires EncodeTable(host, codec, rows).Success?
    ensures PlanTable(host, codec, rows).Success? && rows != [] && Columns(rows, Keys(rows[0])).Success?
    ensures var p := PlanTable(host, codec, rows).value;
      TableLayout(host, codec, EncodeTable(host, codec, rows).value, rows, Keys(rows[0]),
                  Columns(rows, Keys(rows[0])).value, p.metas, p.blocks)
  {
    EncodedBlocksAtOffsets(host, codec, rows);
    PlanShape(host, codec, rows);
    ColumnsSpec(rows, Keys(rows[0]));
  }

  /** Column k of a table laid out by write reads back, from where its descriptor points, as its stored values. */
  lemma WrittenColumnAt(host: Builtins, codec: Codec, file: Bytes, rows: seq<Row>, names: seq<Name>,
                        columns: seq<seq<Value>>, metas: seq<ColumnMeta>, blocks: seq<Bytes>, k: nat)
    requires Lossless(codec)
    requires TableLayout(host, codec, file, rows, names, columns, metas, blocks) && k < |names|
    ensures ReadColumn(file, |rows|, codec, metas[k]).Success?
    ensures ReadsBackAs(host, ColumnType(columns[k]), columns[k], ReadColumn(file, |rows|, codec, metas[k]).value)
  {
    assert ColumnOf(rows, names[k]) == Success(columns[k]);
    ColumnReadsBack(host, codec, file, |rows|, names[k], columns[k], metas[k], blocks[k]);
  }

  /** read_columns() with no names, on a table whose names are distinct and whose blocks all read: every column, each as its block reads. */
  lemma ReadAllColumns(file: Bytes, numRows: nat, codec: Codec, metas: seq<ColumnMeta>)
    requires forall i, j :: 0 <= i < j < |metas| ==> metas[i].name != metas[j].name
    requires forall k :: 0 <= k < |metas| ==> ReadColumn(file, numRows, codec, metas[k]).Success?
    ensures ReadColumnsOf(file, Header(numRows, metas), codec, None).Success?
    ensures var result := ReadColumnsOf(file, Header(numRows, metas), codec, None).value;
      (forall name :: name in result <==> name in ColumnNames(metas)) &&
      forall k :: 0 <= k < |metas| ==>
        metas[k].name in result && ReadColumn(file, numRows, codec, metas[k]) == Success(result[metas[k].name])
  {
    var names := ColumnNames(metas);
    assert FirstMissing(names, names) == None;
    CollectSucceeds(file, numRows, codec, metas, names);
    CollectContents(file, numRows, codec, metas, names);
    forall k | 0 <= k < |metas|
      ensures metas[k].name in names && LastOfName(metas, k)
    {
      assert names[k] == metas[k].name;
    }
  }

  /** The row loop of read over columns that all have the row count: row i holds value i of every column. */
  lemma TransposeFull(numRows: nat, columns: ColumnData)
    requires forall name :: name in columns ==> |columns[name]| == numRows
    ensures Transpose(numRows, columns).Success?
    ensures var rows := Transpose(numRows, columns).value;
      |rows| == numRows &&
      forall i :: 0 <= i < numRows ==>
        (forall name :: name in rows[i] <==> name in columns) &&
        forall name :: name in columns ==> rows[i][name] == columns[name][i]
  {
  }

  /** Row row of read() has the written row's keys, each holding what the written value comes back as. */
  ghost predicate RowReadsBack(host: Builtins, names: seq<Name>, types: seq<Byte>, written: Row, row: RowData)
    requires |names| == |types|
  {
    (forall name :: name in row <==> name in names) &&
    forall k :: 0 <= k < |names| ==>
      && names[k] in row
      && Lookup(written, names[k]).Some?
      && StoredValue(host, types[k], Lookup(written, names[k]).value) == Success(row[names[k]])
  }

  /** One cell of read(): value i of column k comes back as what row i's value under name k is stored as. */
  lemma CellReadsBack(host: Builtins, rows: seq<Row>, name: Name, column: seq<Value>, decoded: seq<Value>, i: nat)
    requires ColumnOf(rows, name) == Success(column)
    requires ReadsBackAs(host, ColumnType(column), column, decoded) && i < |rows|
    ensures Lookup(rows[i], name).Some? && i < |decoded|
    ensures StoredValue(host, ColumnType(column), Lookup(rows[i], name).value) == Success(decoded[i])
  {
    assert Lookup(rows[i], name) == Some(column[i]);
  }

  /**
   * read() over a table laid out by write, whose names are distinct: one row per row written, each
   * with exactly the written names, holding what the written value under each name comes back as.
   */
  lemma TableReadsBack(host: Builtins, codec: Codec, file: Bytes, rows: seq<Row>, names: seq<Name>,
                       columns: seq<seq<Value>>, metas: seq<ColumnMeta>, blocks: seq<Bytes>)
    requires Lossless(codec)
    requires TableLayout(host, codec, file, rows, names, columns, metas, blocks)
    requires forall i, j :: 0 <= i < j < |names| ==> names[i] != names[j]
    ensures ReadTable(file, Header(|rows|, metas), codec).Success?
    ensures var out := ReadTable(file, Header(|rows|, metas), codec).value;
      |out| == |rows| &&
      forall i :: 0 <= i < |rows| ==> RowReadsBack(host, names, ColumnTypes(columns), rows[i], out[i])
  {
    forall k | 0 <= k < |names|
      ensures ReadColumn(file, |rows|, codec, metas[k]).Success?
      ensures ReadsBackAs(host, ColumnType(columns[k]), columns[k], ReadColumn(file, |rows|, codec, metas[k]).value)
    {
      WrittenColumnAt(host, codec, file, rows, names, columns, metas, blocks, k);
    }
    assert ColumnNames(metas) == names;
    ReadAllColumns(file, |rows|, codec, metas);
    var result := ReadColumnsOf(file, Header(|rows|, metas), codec, None).value;
    forall name | name in result
      ensures |result[name]| == |rows|
    {
      var k :| 0 <= k < |names| && names[k] == name;
    }
    TransposeFull(|rows|, result);
    var out := ReadTable(file, Header(|rows|, metas), codec).value;
    var types := ColumnTypes(columns);
    forall i | 0 <= i < |rows|
      ensures RowReadsBack(host, names, types, rows[i], out[i])
    {
      forall k | 0 <= k < |names|
        ensures names[k] in out[i] && Lookup(rows[i], names[k]).Some?
        ensures StoredValue(host, types[k], Lookup(rows[i], names[k]).value) == Success(out[i][names[k]])
      {
        assert out[i][names[k]] == result[metas[k].name][i];
        CellReadsBack(host, rows, names[k], columns[k], result[metas[k].name], i);
      }
    }
  }

  /**
   * Writing a table and reading it back: the header gives back the row count and the descriptors
   * written, and read() gives one row per row written, each with the first row's keys, holding what
   * the written value under that key comes back as for the column's inferred type.
   */
  lemma WriteThenRead(host: Builtins, codec: Codec, rows: seq<Row>)
    requires Lossless(codec)
    requires EncodeTable(host, codec, rows).Success?
    requires rows != [] && DistinctKeys(rows[0])
    ensures PlanTable(host, codec, rows).Success? && Columns(rows, Keys(rows[0])).Success?
    ensures var file, metas := EncodeTable(host, codec, rows).value, PlanTable(host, codec, rows).value.metas;
      ParseHeader(file) == Success(Header(|rows|, metas)) &&
      ReadTable(file, Header(|rows|, metas), codec).Success?
    ensures var file, metas := EncodeTable(host, codec, rows).value, PlanTable(host, codec, rows).value.metas;
      var out, names := ReadTable(file, Header(|rows|, metas), codec).value, Keys(rows[0]);
      |out| == |rows| &&
      forall i :: 0 <= i < |rows| ==> RowReadsBack(host, names, ColumnTypes(Columns(rows, names).value), rows[i], out[i])
  {
    EncodeTableUnfold(host, codec, rows);
    TableLayoutHolds(host, codec, rows);
    var p := PlanTable(host, codec, rows).value;
    HeaderRoundTrip(|rows|, p.metas, Concat(p.blocks));
    var names := Keys(rows[0]);
    TableReadsBack(host, codec, EncodeTable(host, codec, rows).value, rows, names, Columns(rows, names).value, p.metas, p.blocks);
  }

  // ---------------------------------------------------------------- what comes back for each kind of value

  /** An int, a float or a string comes back unchanged from a column whose type it decided. */
  lemma InferredTypeKeepsValue(host: Builtins, v: Value)
    requires v.Int? || v.Float? || v.Text?
    ensures StoredValue(host, InferType(v), v) == Success(v)
  {
  }

  /** Booleans decide INT32 and come back as 1 and 0. */
  lemma BooleansComeBackAsIntegers(host: Builtins, values: seq<Value>)
    requires values != [] && forall i :: 0 <= i < |values| ==> values[i].Bool?
    ensures ColumnType(values) == TYPE_INT32
    ensures forall i :: 0 <= i < |values| ==> StoredValue(host, ColumnType(values), values[i]) == Success(Int(if values[i].b then 1 else 0))
  {
    ColumnTypeIsFirstNonBlank(values, 0);
  }

  /** A column of only None and '' is STRING: None comes back as "None" and '' as ''. */
  lemma BlankColumnsComeBackAsText(host: Builtins, values: seq<Value>)
    requires forall i :: 0 <= i < |values| ==> IsBlank(values[i])
    ensures ColumnType(values) == TYPE_STRING
    ensures forall i :: 0 <= i < |values| ==>
      StoredValue(host, ColumnType(values), values[i]) == Success(Text(if values[i].Null? then [78, 111, 110, 101] else []))
  {
    ColumnTypeAllBlank(values);
  }
}
