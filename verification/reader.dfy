/**
 * The decoder (cff_reader.py): parse and check the header, expose the
 * column names and the schema, read only the requested blocks (slice at
 * the offset, inflate, check the recorded size, deserialize by type) and
 * turn the columns into rows. A file is its bytes; a dict the reader
 * returns is a map, so its key order is not part of the model.
 */
module Reader {
  import opened Results
  import opened Encoding
  import opened Format

  /** What the header holds: the row count and the descriptors, in file order. */
  datatype Header = Header(numRows: nat, columns: seq<ColumnMeta>)

  /** The values read back for each requested column name. */
  type ColumnData = map<Name, seq<Value>>

  /** One row of read(): a dict from every column name to that column's value in the row. */
  type RowData = map<Name, Value>

  // ---------------------------------------------------------------- header

  /** `struct.unpack` of the unsigned k-byte little-endian field at pos; fewer than k bytes left is an error. */
  function Field(file: Bytes, pos: nat, k: nat): Result<nat, Error>
  {
    if pos + k <= |file| then Success(FromLittleEndian(file[pos..pos + k])) else Failure(Truncated)
  }

  /** `struct.unpack('<B', ...)` of the byte at pos. */
  function ByteAt(file: Bytes, pos: nat): Result<Byte, Error>
  {
    if pos < |file| then Success(file[pos]) else Failure(Truncated)
  }

  /**
   * One descriptor at pos and the position after it: u32 name length, the name, u8 tag, u64 offset,
   * u64 compressed size, u64 uncompressed size. A name cut short by the end of the file leaves
   * nothing for the tag, so the tag read is the one that fails.
   */
  function ParseDescriptor(file: Bytes, pos: nat): Result<(ColumnMeta, nat), Error>
  {
    var nameLength :- Field(file, pos, 4);
    var name := Slice(file, pos + 4, pos + 4 + nameLength);
    var cursor := pos + 4 + nameLength;
    var dtype :- ByteAt(file, cursor);
    var offset :- Field(file, cursor + 1, 8);
    var compressedSize :- Field(file, cursor + 9, 8);
    var uncompressedSize :- Field(file, cursor + 17, 8);
    Success((ColumnMeta(name, dtype, offset, compressedSize, uncompressedSize), cursor + 25))
  }

  /** count more descriptors from pos, appended to those already parsed; the first short read is the error. */
  function ParseDescriptors(file: Bytes, pos: nat, count: nat, parsed: seq<ColumnMeta>): (r: Result<seq<ColumnMeta>, Error>)
    ensures r.Success? ==> |r.value| == |parsed| + count
    ensures r.Failure? ==> r.error == Truncated
    decreases count
  {
    if count == 0 then Success(parsed)
    else
      var d :- ParseDescriptor(file, pos);
      ParseDescriptors(file, d.1, count - 1, parsed + [d.0])
  }

  /**
   * _read_header: the magic must be "CFF1" (a file shorter than 4 bytes cannot match), the u32
   * version must be 1, then the u64 row count, the u32 column count and that many descriptors.
   */
  function ParseHeader(file: Bytes): (r: Result<Header, Error>)
    ensures r == Failure(InvalidMagic) <==> |file| < 4 || file[..4] != MAGIC
    ensures |file| >= 8 && file[..4] == MAGIC && FromLittleEndian(file[4..8]) != FORMAT_VERSION ==>
              r == Failure(UnsupportedVersion(FromLittleEndian(file[4..8])))
    ensures r.Success? ==>
              && |file| >= 20 && file[..4] == MAGIC
              && FromLittleEndian(file[4..8]) == FORMAT_VERSION
              && r.value.numRows == FromLittleEndian(file[8..16])
              && |r.value.columns| == FromLittleEndian(file[16..20])
  {
    if |file| < 4 || file[..4] != MAGIC then Failure(InvalidMagic)
    else
      var version :- Field(file, 4, 4);
      if version != FORMAT_VERSION then Failure(UnsupportedVersion(version))
      else
        var numRows :- Field(file, 8, 8);
        var count :- Field(file, 16, 4);
        var columns :- ParseDescriptors(file, 20, count, []);
        Success(Header(numRows, columns))
  }

  // ---------------------------------------------------------------- schema

  const INT32_NAME: Bytes := [73, 78, 84, 51, 50]               // "INT32"
  const FLOAT64_NAME: Bytes := [70, 76, 79, 65, 84, 54, 52]     // "FLOAT64"
  const STRING_NAME: Bytes := [83, 84, 82, 73, 78, 71]          // "STRING"
  const UNKNOWN_NAME: Bytes := [85, 78, 75, 78, 79, 87, 78]     // "UNKNOWN"

  predicate IsKnownType(dtype: Byte)
  {
    dtype == TYPE_INT32 || dtype == TYPE_FLOAT64 || dtype == TYPE_STRING
  }

  /** The schema's name of a type tag. */
  function TypeName(dtype: Byte): (name: Bytes)
    ensures name == UNKNOWN_NAME <==> !IsKnownType(dtype)
  {
    if dtype == TYPE_INT32 then INT32_NAME
    else if dtype == TYPE_FLOAT64 then FLOAT64_NAME
    else if dtype == TYPE_STRING then STRING_NAME
    else UNKNOWN_NAME
  }

  /** The three known tags have three different names. */
  lemma TypeNamesDistinct(a: Byte, b: Byte)
    requires IsKnownType(a) && IsKnownType(b) && TypeName(a) == TypeName(b)
    ensures a == b
  {
  }

  /** get_schema: each descriptor's name to its type name; a later descriptor of the same name overrides. */
  function Schema(metas: seq<ColumnMeta>): map<Name, Bytes>
    decreases |metas|
  {
    if metas == [] then map[]
    else
      var n := |metas| - 1;
      Schema(metas[..n])[metas[n].name := TypeName(metas[n].dtype)]
  }

  /** Descriptor i is the last one with its name. */
  predicate LastOfName(metas: seq<ColumnMeta>, i: nat)
    requires i < |metas|
  {
    forall j :: i < j < |metas| ==> metas[j].name != metas[i].name
  }

  /** The schema has exactly the column names as keys, each mapped to the type of its last descriptor. */
  lemma SchemaLastWins(metas: seq<ColumnMeta>)
    ensures forall name :: name in Schema(metas) <==> name in ColumnNames(metas)
    ensures forall i :: 0 <= i < |metas| && LastOfName(metas, i) ==>
              metas[i].name in Schema(metas) && Schema(metas)[metas[i].name] == TypeName(metas[i].dtype)
  {
    SchemaKeys(metas);
    forall i | 0 <= i < |metas| && LastOfName(metas, i)
      ensures metas[i].name in Schema(metas) && Schema(metas)[metas[i].name] == TypeName(metas[i].dtype)
    {
      SchemaAt(metas, i);
    }
  }

  lemma {:induction false} SchemaKeys(metas: seq<ColumnMeta>)
    ensures forall name :: name in Schema(metas) <==> name in ColumnNames(metas)
    decreases |metas|
  {
    if metas != [] {
      var n := |metas| - 1;
      SchemaKeys(metas[..n]);
      assert ColumnNames(metas) == ColumnNames(metas[..n]) + [metas[n].name];
    }
  }

  lemma {:induction false} SchemaAt(metas: seq<ColumnMeta>, i: nat)
    requires i < |metas| && LastOfName(metas, i)
    ensures metas[i].name in Schema(metas) && Schema(metas)[metas[i].name] == TypeName(metas[i].dtype)
    decreases |metas|
  {
    var n := |metas| - 1;
    if i < n {
      assert LastOfName(metas[..n], i);
      SchemaAt(metas[..n], i);
    }
  }

  // ---------------------------------------------------------------- column blocks

  /**
   * _read_column_data: the bytes [offset, offset + compressed_size) (clamped to the file, as a read
   * past the end is), inflated, and checked against the recorded uncompressed size.
   */
  function BlockData(file: Bytes, codec: Codec, m: ColumnMeta): (r: Result<Bytes, Error>)
    ensures r.Success? <==>
              && codec.decompress(Slice(file, m.offset, m.offset + m.compressedSize)).Some?
              && |codec.decompress(Slice(file, m.offset, m.offset + m.compressedSize)).value| == m.uncompressedSize
    ensures r.Success? ==> codec.decompress(Slice(file, m.offset, m.offset + m.compressedSize)) == Some(r.value)
    ensures r.Failure? ==> r.error == DecompressFailed(m.name) || r.error.IntegrityMismatch?
  {
    match codec.decompress(Slice(file, m.offset, m.offset + m.compressedSize))
    case None => Failure(DecompressFailed(m.name))
    case Some(data) =>
      if |data| != m.uncompressedSize then Failure(IntegrityMismatch(m.name, m.uncompressedSize, |data|))
      else Success(data)
  }

  /** `struct.unpack('<i', ...)` of every 4 bytes; a length that is not a multiple of 4 leaves a short last group. */
  function Int32Values(data: Bytes): Result<seq<Value>, Error>
  {
    if |data| % 4 != 0 then Failure(Truncated)
    else Success(seq(|data| / 4, i requires 0 <= i < |data| / 4 => Int(UnpackInt32(data[4 * i..4 * i + 4]))))
  }

  /** The 64-bit pattern of the 8 bytes at 8 * i. */
  function DoubleAt(data: Bytes, i: nat): (bits: F64)
    requires 8 * i + 8 <= |data|
  {
    Pow256Widths();
    FromLittleEndian(data[8 * i..8 * i + 8])
  }

  /** `struct.unpack('<d', ...)` of every 8 bytes; a length that is not a multiple of 8 leaves a short last group. */
  function Float64Values(data: Bytes): Result<seq<Value>, Error>
  {
    if |data| % 8 != 0 then Failure(Truncated)
    else Success(seq(|data| / 8, i requires 0 <= i < |data| / 8 => Float(DoubleAt(data, i))))
  }

  /** The first count u32 offsets at the start of data. */
  function OffsetTable(data: Bytes, count: nat): (offsets: seq<nat>)
    requires 4 * count <= |data|
    ensures |offsets| == count
  {
    seq(count, k requires 0 <= k < count => FromLittleEndian(data[4 * k..4 * k + 4]))
  }

  /**
   * A STRING column of numRows rows: numRows+1 u32 offsets, then the blob; row i is the blob between
   * offsets i and i+1, clamped as a Python slice is. Fewer bytes than the offset table is an error.
   */
  function StringValues(numRows: nat, data: Bytes): Result<seq<Value>, Error>
  {
    var tableSize := (numRows + 1) * 4;
    if |data| < tableSize then Failure(Truncated)
    else
      var offsets := OffsetTable(data, numRows + 1);
      var blob := data[tableSize..];
      Success(seq(numRows, i requires 0 <= i < numRows => Text(Slice(blob, offsets[i], offsets[i + 1]))))
  }

  /** _deserialize_column: the deserializer of the descriptor's tag; any other tag is an error. */
  function DecodeColumn(numRows: nat, dtype: Byte, data: Bytes): Result<seq<Value>, Error>
  {
    if dtype == TYPE_INT32 then Int32Values(data)
    else if dtype == TYPE_FLOAT64 then Float64Values(data)
    else if dtype == TYPE_STRING then StringValues(numRows, data)
    else Failure(UnknownTypeTag(dtype))
  }

  /** The fixed-width deserializers give one value per full group, and the string one one per row. */
  lemma DecodedLength(numRows: nat, dtype: Byte, data: Bytes)
    requires DecodeColumn(numRows, dtype, data).Success?
    ensures IsKnownType(dtype)
    ensures dtype == TYPE_INT32 ==> 4 * |DecodeColumn(numRows, dtype, data).value| == |data|
    ensures dtype == TYPE_FLOAT64 ==> 8 * |DecodeColumn(numRows, dtype, data).value| == |data|
    ensures dtype == TYPE_STRING ==> |DecodeColumn(numRows, dtype, data).value| == numRows && 4 * (numRows + 1) <= |data|
  {
  }

  /** One column read from the file: its block inflated and checked, then deserialized. */
  function ReadColumn(file: Bytes, numRows: nat, codec: Codec, m: ColumnMeta): Result<seq<Value>, Error>
  {
    var data :- BlockData(file, codec, m);
    DecodeColumn(numRows, m.dtype, data)
  }

  // ---------------------------------------------------------------- read_columns

  /** The first requested name that is not a column name, if any. */
  function FirstMissing(requested: seq<Name>, available: seq<Name>): (r: Option<Name>)
    ensures r.None? <==> forall k :: 0 <= k < |requested| ==> requested[k] in available
    ensures r.Some? ==> r.value in requested && r.value !in available
    decreases |requested|
  {
    if requested == [] then None
    else if requested[0] !in available then Some(requested[0])
    else
      assert forall k :: 1 <= k < |requested| ==> requested[k] == requested[1..][k - 1];
      FirstMissing(requested[1..], available)
  }

  /** A missing name at k, with every earlier one present, is the one reported. */
  lemma {:induction false} FirstMissingAt(requested: seq<Name>, available: seq<Name>, k: nat)
    requires k < |requested| && requested[k] !in available
    requires forall j :: 0 <= j < k ==> requested[j] in available
    ensures FirstMissing(requested, available) == Some(requested[k])
    decreases k
  {
    if k > 0 {
      FirstMissingAt(requested[1..], available, k - 1);
    }
  }

  /**
   * The block loop of read_columns: every descriptor whose name is requested is read and
   * deserialized, in header order, and a later descriptor of the same name overrides; the
   * first descriptor that fails is the error.
   */
  function Collect(file: Bytes, numRows: nat, codec: Codec, metas: seq<ColumnMeta>, requested: seq<Name>): Result<ColumnData, Error>
    decreases |metas|
  {
    if metas == [] then Success(map[])
    else
      var n := |metas| - 1;
      var front :- Collect(file, numRows, codec, metas[..n], requested);
      if metas[n].name in requested then
        var values :- ReadColumn(file, numRows, codec, metas[n]);
        Success(front[metas[n].name := values])
      else
        Success(front)
  }

  /** read_columns: None means every column; any unknown name fails before a block is read. */
  function ReadColumnsOf(file: Bytes, h: Header, codec: Codec, columnNames: Option<seq<Name>>): Result<ColumnData, Error>
  {
    var requested := if columnNames.None? then ColumnNames(h.columns) else columnNames.value;
    match FirstMissing(requested, ColumnNames(h.columns))
    case Some(name) => Failure(ColumnNotFound(name))
    case None => Collect(file, h.numRows, codec, h.columns, requested)
  }

  lemma {:induction false} CollectFailureSticks(file: Bytes, numRows: nat, codec: Codec, metas: seq<ColumnMeta>, requested: seq<Name>, k: nat)
    requires k <= |metas| && Collect(file, numRows, codec, metas[..k], requested).Failure?
    ensures Collect(file, numRows, codec, metas, requested) == Collect(file, numRows, codec, metas[..k], requested)
    decreases |metas| - k
  {
    if k == |metas| {
      assert metas[..k] == metas;
    } else {
      assert metas[..k + 1][..k] == metas[..k];
      CollectFailureSticks(file, numRows, codec, metas, requested, k + 1);
    }
  }

  /** The requested descriptors, and only they, must read: every one of them, or the loop fails. */
  lemma {:induction false} CollectSucceeds(file: Bytes, numRows: nat, codec: Codec, metas: seq<ColumnMeta>, requested: seq<Name>)
    ensures Collect(file, numRows, codec, metas, requested).Success? <==>
              forall i :: 0 <= i < |metas| && metas[i].name in requested ==> ReadColumn(file, numRows, codec, metas[i]).Success?
    decreases |metas|
  {
    if metas != [] {
      var n := |metas| - 1;
      var front := metas[..n];
      CollectSucceeds(file, numRows, codec, front, requested);
      assert forall i :: 0 <= i < n ==> front[i] == metas[i];
    }
  }

  /**
   * A successful read has exactly the requested names that are columns as keys, and each holds
   * what the last descriptor of that name reads to.
   */
  lemma CollectContents(file: Bytes, numRows: nat, codec: Codec, metas: seq<ColumnMeta>, requested: seq<Name>)
    requires Collect(file, numRows, codec, metas, requested).Success?
    ensures forall name :: name in Collect(file, numRows, codec, metas, requested).value <==>
              name in requested && name in ColumnNames(metas)
    ensures forall i :: 0 <= i < |metas| && metas[i].name in requested && LastOfName(metas, i) ==>
              metas[i].name in Collect(file, numRows, codec, metas, requested).value &&
              ReadColumn(file, numRows, codec, metas[i]) == Success(Collect(file, numRows, codec, metas, requested).value[metas[i].name])
  {
    CollectKeys(file, numRows, codec, metas, requested);
    var result := Collect(file, numRows, codec, metas, requested).value;
    forall i | 0 <= i < |metas| && metas[i].name in requested && LastOfName(metas, i)
      ensures metas[i].name in result && ReadColumn(file, numRows, codec, metas[i]) == Success(result[metas[i].name])
    {
      CollectAt(file, numRows, codec, metas, requested, i);
    }
  }

  lemma {:induction false} CollectKeys(file: Bytes, numRows: nat, codec: Codec, metas: seq<ColumnMeta>, requested: seq<Name>)
    requires Collect(file, numRows, codec, metas, requested).Success?
    ensures forall name :: name in Collect(file, numRows, codec, metas, requested).value <==>
              name in requested && name in ColumnNames(metas)
    decreases |metas|
  {
    if metas != [] {
      var n := |metas| - 1;
      CollectKeys(file, numRows, codec, metas[..n], requested);
      assert ColumnNames(metas) == ColumnNames(metas[..n]) + [metas[n].name];
    }
  }

  lemma {:induction false} CollectAt(file: Bytes, numRows: nat, codec: Codec, metas: seq<ColumnMeta>, requested: seq<Name>, i: nat)
    requires Collect(file, numRows, codec, metas, requested).Success?
    requires i < |metas| && metas[i].name in requested && LastOfName(metas, i)
    ensures metas[i].name in Collect(file, numRows, codec, metas, requested).value
    ensures ReadColumn(file, numRows, codec, metas[i]) == Success(Collect(file, numRows, codec, metas, requested).value[metas[i].name])
    decreases |metas|
  {
    var n := |metas| - 1;
    if i < n {
      assert LastOfName(metas[..n], i);
      CollectAt(file, numRows, codec, metas[..n], requested, i);
    }
  }

  /** The requested descriptors' blocks hold the same bytes in both files. */
  predicate SameRequestedBlocks(file: Bytes, other: Bytes, metas: seq<ColumnMeta>, requested: seq<Name>)
  {
    forall i :: 0 <= i < |metas| && metas[i].name in requested ==>
      Slice(file, metas[i].offset, metas[i].offset + metas[i].compressedSize) ==
      Slice(other, metas[i].offset, metas[i].offset + metas[i].compressedSize)
  }

  /** Column pruning: reading some columns looks at no block but theirs. */
  lemma {:induction false} CollectReadsOnlyRequested(file: Bytes, other: Bytes, numRows: nat, codec: Codec, metas: seq<ColumnMeta>, requested: seq<Name>)
    requires SameRequestedBlocks(file, other, metas, requested)
    ensures Collect(file, numRows, codec, metas, requested) == Collect(other, numRows, codec, metas, requested)
    decreases |metas|
  {
    if metas != [] {
      var n := |metas| - 1;
      var front := metas[..n];
      assert SameRequestedBlocks(file, other, front, requested) by {
        forall i | 0 <= i < n && front[i].name in requested
          ensures Slice(file, front[i].offset, front[i].offset + front[i].compressedSize) ==
                  Slice(other, front[i].offset, front[i].offset + front[i].compressedSize)
        {
          assert front[i] == metas[i];
        }
      }
      CollectReadsOnlyRequested(file, other, numRows, codec, front, requested);
      var m := metas[n];
      if m.name in requested {
        assert Slice(file, m.offset, m.offset + m.compressedSize) == Slice(other, m.offset, m.offset + m.compressedSize);
        assert ReadColumn(file, numRows, codec, m) == ReadColumn(other, numRows, codec, m);
      }
    }
  }

  /** The entries of m whose keys are among names. */
  function Restrict(m: ColumnData, names: seq<Name>): (r: ColumnData)
    ensures forall name :: name in r <==> name in m && name in names
  {
    map name | name in m && name in names :: m[name]
  }

  /**
   * Reading a subset of the names gives the entries for that subset of what reading the whole set
   * gives; it succeeds whenever the whole read does.
   */
  lemma {:induction false} CollectProjection(file: Bytes, numRows: nat, codec: Codec, metas: seq<ColumnMeta>, all: seq<Name>, subset: seq<Name>)
    requires forall name :: name in subset ==> name in all
    requires Collect(file, numRows, codec, metas, all).Success?
    ensures Collect(file, numRows, codec, metas, subset) == Success(Restrict(Collect(file, numRows, codec, metas, all).value, subset))
    decreases |metas|
  {
    if metas != [] {
      var n := |metas| - 1;
      var front := metas[..n];
      CollectProjection(file, numRows, codec, front, all, subset);
      var whole := Collect(file, numRows, codec, front, all).value;
      var name := metas[n].name;
      if name in all {
        var values := ReadColumn(file, numRows, codec, metas[n]).value;
        assert Restrict(whole[name := values], subset) ==
               if name in subset then Restrict(whole, subset)[name := values] else Restrict(whole, subset);
      }
    }
  }

  /** Any requested name that is not a column fails the read with the first such name, whatever the blocks hold. */
  lemma MissingNameFailsFirst(file: Bytes, h: Header, codec: Codec, requested: seq<Name>, k: nat)
    requires k < |requested| && requested[k] !in ColumnNames(h.columns)
    requires forall j :: 0 <= j < k ==> requested[j] in ColumnNames(h.columns)
    ensures ReadColumnsOf(file, h, codec, Some(requested)) == Failure(ColumnNotFound(requested[k]))
  {
    FirstMissingAt(requested, ColumnNames(h.columns), k);
  }

  /** A read of known names has those names as keys, each holding its last descriptor's column. */
  lemma ReadColumnsContents(file: Bytes, h: Header, codec: Codec, columnNames: Option<seq<Name>>)
    requires ReadColumnsOf(file, h, codec, columnNames).Success?
    ensures var requested := if columnNames.None? then ColumnNames(h.columns) else columnNames.value;
      var result := ReadColumnsOf(file, h, codec, columnNames).value;
      (forall name :: name in result <==> name in requested) &&
      forall i :: 0 <= i < |h.columns| && h.columns[i].name in requested && LastOfName(h.columns, i) ==>
        h.columns[i].name in result && ReadColumn(file, h.numRows, codec, h.columns[i]) == Success(result[h.columns[i].name])
  {
    var requested := if columnNames.None? then ColumnNames(h.columns) else columnNames.value;
    CollectContents(file, h.numRows, codec, h.columns, requested);
  }

  /** Reading some known names gives exactly what reading every column gives for those names. */
  lemma ReadColumnsProjection(file: Bytes, h: Header, codec: Codec, subset: seq<Name>)
    requires forall name :: name in subset ==> name in ColumnNames(h.columns)
    requires ReadColumnsOf(file, h, codec, None).Success?
    ensures ReadColumnsOf(file, h, codec, Some(subset)) == Success(Restrict(ReadColumnsOf(file, h, codec, None).value, subset))
  {
    CollectProjection(file, h.numRows, codec, h.columns, ColumnNames(h.columns), subset);
  }

  // ---------------------------------------------------------------- read

  /** The row loop of read: row i maps every column name to the column's value i; a short column fails. */
  function Transpose(numRows: nat, columns: ColumnData): Result<seq<RowData>, Error>
  {
    if exists name :: name in columns && |columns[name]| < numRows then Failure(RowIndexOutOfRange)
    else Success(seq(numRows, i requires 0 <= i < numRows => map name | name in columns :: columns[name][i]))
  }

  /** read: every column, then numRows rows. */
  function ReadTable(file: Bytes, h: Header, codec: Codec): Result<seq<RowData>, Error>
  {
    var columns :- ReadColumnsOf(file, h, codec, None);
    Transpose(h.numRows, columns)
  }

  /**
   * read gives numRows rows whose keys are all the column names, and row i maps each name to value i
   * of what read_columns gives for that name, whichever known names are asked for.
   */
  lemma ReadAgreesWithReadColumns(file: Bytes, h: Header, codec: Codec, subset: seq<Name>)
    requires ReadTable(file, h, codec).Success?
    requires forall name :: name in subset ==> name in ColumnNames(h.columns)
    ensures ReadColumnsOf(file, h, codec, Some(subset)).Success?
    ensures var rows, columns := ReadTable(file, h, codec).value, ReadColumnsOf(file, h, codec, Some(subset)).value;
      |rows| == h.numRows &&
      (forall i, name :: 0 <= i < |rows| ==> (name in rows[i] <==> name in ColumnNames(h.columns))) &&
      forall name, i :: name in columns && 0 <= i < |rows| ==>
        name in rows[i] && i < |columns[name]| && rows[i][name] == columns[name][i]
  {
    var all := ReadColumnsOf(file, h, codec, None).value;
    ReadColumnsContents(file, h, codec, None);
    ReadColumnsProjection(file, h, codec, subset);
  }

  // ---------------------------------------------------------------- the reader object

  class CFFReader {
    /** The bytes of the file the reader was opened on. */
    const file: Bytes
    /** The row count from the header. */
    var numRows: nat
    /** The descriptors from the header, in file order. */
    var columnsMetadata: seq<ColumnMeta>

    /** The reader before its header is read. */
    constructor (file: Bytes)
      ensures this.file == file && numRows == 0 && columnsMetadata == []
    {
      this.file := file;
      numRows := 0;
      columnsMetadata := [];
    }

    /** What the reader holds from the header. */
    function State(): Header
      reads this
    {
      Header(numRows, columnsMetadata)
    }

    /** CFFReader(path): a reader whose header has been read, or the error reading the header raises. */
    static method Open(file: Bytes) returns (r: Result<CFFReader, Error>)
      ensures r.Success? <==> ParseHeader(file).Success?
      ensures r.Failure? ==> r.error == ParseHeader(file).error
      ensures r.Success? ==> fresh(r.value) && r.value.file == file && r.value.State() == ParseHeader(file).value
    {
      var reader := new CFFReader(file);
      var err := reader.ReadHeader();
      if err.Some? {
        return Failure(err.value);
      }
      return Success(reader);
    }

    /**
     * _read_header: the header fields read one after another, the row count stored once read and
     * the descriptors appended to the metadata once all of them are read.
     */
    method ReadHeader() returns (err: Option<Error>)
      modifies this
      ensures err.None? <==> ParseHeader(file).Success?
      ensures err.Some? ==> err.value == ParseHeader(file).error
      ensures err.None? ==> numRows == ParseHeader(file).value.numRows &&
                            columnsMetadata == old(columnsMetadata) + ParseHeader(file).value.columns
    {
      if |file| < 4 || file[..4] != MAGIC {
        return Some(InvalidMagic);
      }
      var version := Field(file, 4, 4);
      if version.Failure? {
        return Some(version.error);
      }
      if version.value != FORMAT_VERSION {
        return Some(UnsupportedVersion(version.value));
      }
      var rows := Field(file, 8, 8);
      if rows.Failure? {
        return Some(rows.error);
      }
      numRows := rows.value;
      var numColumns := Field(file, 16, 4);
      if numColumns.Failure? {
        return Some(numColumns.error);
      }
      var descriptors := ReadDescriptors(numColumns.value);
      if descriptors.Failure? {
        return Some(descriptors.error);
      }
      columnsMetadata := columnsMetadata + descriptors.value;
      return None;
    }

    /** The descriptor loop of _read_header, from the end of the fixed fields. */
    method ReadDescriptors(count: nat) returns (r: Result<seq<ColumnMeta>, Error>)
      ensures r == ParseDescriptors(file, 20, count, [])
    {
      ghost var target := ParseDescriptors(file, 20, count, []);
      var metas: seq<ColumnMeta> := [];
      var pos := 20;
      var remaining := count;
      while remaining > 0
        invariant ParseDescriptors(file, pos, remaining, metas) == target
      {
        var descriptor := ReadDescriptor(pos);
        if descriptor.Failure? {
          return Failure(descriptor.error);
        }
        metas := metas + [descriptor.value.0];
        pos := descriptor.value.1;
        remaining := remaining - 1;
      }
      return Success(metas);
    }

    /** One pass of the descriptor loop of _read_header: the descriptor at pos and the position after it. */
    method ReadDescriptor(pos: nat) returns (r: Result<(ColumnMeta, nat), Error>)
      ensures r == ParseDescriptor(file, pos)
    {
      var nameLength :- Field(file, pos, 4);
      var name := Slice(file, pos + 4, pos + 4 + nameLength);
      var cursor := pos + 4 + nameLength;
      var dtype :- ByteAt(file, cursor);
      var offset :- Field(file, cursor + 1, 8);
      var compressedSize :- Field(file, cursor + 9, 8);
      var uncompressedSize :- Field(file, cursor + 17, 8);
      return Success((ColumnMeta(name, dtype, offset, compressedSize, uncompressedSize), cursor + 25));
    }

    /** get_column_names: the name of every descriptor, in header order. */
    function GetColumnNames(): (names: seq<Name>)
      reads this
      ensures |names| == |columnsMetadata| && forall i :: 0 <= i < |names| ==> names[i] == columnsMetadata[i].name
    {
      ColumnNames(columnsMetadata)
    }

    /** get_schema: keyed by exactly the column names, each name mapped to the type of its last descriptor. */
    function GetSchema(): (schema: map<Name, Bytes>)
      reads this
      ensures forall name :: name in schema <==> name in GetColumnNames()
      ensures forall i :: 0 <= i < |columnsMetadata| && LastOfName(columnsMetadata, i) ==>
        columnsMetadata[i].name in schema && schema[columnsMetadata[i].name] == TypeName(columnsMetadata[i].dtype)
    {
      SchemaLastWins(columnsMetadata);
      Schema(columnsMetadata)
    }

    /** _deserialize_int32_column: one value per 4 bytes. */
    static method DeserializeInt32Column(data: Bytes) returns (r: Result<seq<Value>, Error>)
      ensures r == Int32Values(data)
    {
      var values: seq<Value> := [];
      var i := 0;
      while i < |data|
        invariant i == 4 * |values| && i <= |data|
        invariant forall k :: 0 <= k < |values| ==> values[k] == Int(UnpackInt32(data[4 * k..4 * k + 4]))
        decreases |data| - i
      {
        if i + 4 > |data| {
          return Failure(Truncated);
        }
        values := values + [Int(UnpackInt32(data[i..i + 4]))];
        i := i + 4;
      }
      assert |data| % 4 == 0 && |values| == |data| / 4;
      assert values == seq(|data| / 4, k requires 0 <= k < |data| / 4 => Int(UnpackInt32(data[4 * k..4 * k + 4])));
      return Success(values);
    }

    /** _deserialize_float64_column: one value per 8 bytes. */
    static method DeserializeFloat64Column(data: Bytes) returns (r: Result<seq<Value>, Error>)
      ensures r == Float64Values(data)
    {
      var values: seq<Value> := [];
      var i := 0;
      while i < |data|
        invariant i == 8 * |values| && i <= |data|
        invariant forall k :: 0 <= k < |values| ==> values[k] == Float(DoubleAt(data, k))
        decreases |data| - i
      {
        if i + 8 > |data| {
          return Failure(Truncated);
        }
        values := values + [Float(DoubleAt(data, |values|))];
        i := i + 8;
      }
      assert |data| % 8 == 0 && |values| == |data| / 8;
      assert values == seq(|data| / 8, k requires 0 <= k < |data| / 8 => Float(DoubleAt(data, k)));
      return Success(values);
    }

    /** _deserialize_string_column: the offset table for this reader's row count, then one slice per row. */
    method DeserializeStringColumn(data: Bytes) returns (r: Result<seq<Value>, Error>)
      ensures r == StringValues(numRows, data)
    {
      var n := numRows;
      var offsetArraySize := (n + 1) * 4;
      if |data| < offsetArraySize {
        return Failure(Truncated);
      }
      var stringData := data[offsetArraySize..];
      var offsets := ReadOffsets(data, n + 1);
      var values: seq<Value> := [];
      for i := 0 to |offsets| - 1
        invariant |values| == i
        invariant forall k :: 0 <= k < i ==> values[k] == Text(Slice(stringData, offsets[k], offsets[k + 1]))
      {
        values := values + [Text(Slice(stringData, offsets[i], offsets[i + 1]))];
      }
      assert values == seq(n, k requires 0 <= k < n => Text(Slice(stringData, offsets[k], offsets[k + 1])));
      return Success(values);
    }

    /** The offset loop of _deserialize_string_column. */
    static method ReadOffsets(data: Bytes, count: nat) returns (offsets: seq<nat>)
      requires 4 * count <= |data|
      ensures offsets == OffsetTable(data, count)
    {
      offsets := [];
      for k := 0 to count
        invariant offsets == OffsetTable(data, k)
      {
        offsets := offsets + [FromLittleEndian(data[4 * k..4 * k + 4])];
      }
    }

    /** _deserialize_column. */
    method DeserializeColumn(m: ColumnMeta, data: Bytes) returns (r: Result<seq<Value>, Error>)
      ensures r == DecodeColumn(numRows, m.dtype, data)
    {
      if m.dtype == TYPE_INT32 {
        r := DeserializeInt32Column(data);
      } else if m.dtype == TYPE_FLOAT64 {
        r := DeserializeFloat64Column(data);
      } else if m.dtype == TYPE_STRING {
        r := DeserializeStringColumn(data);
      } else {
        r := Failure(UnknownTypeTag(m.dtype));
      }
    }

    /** read_columns: check every requested name, then read the requested blocks in header order. */
    method ReadColumns(codec: Codec, columnNames: Option<seq<Name>>) returns (r: Result<ColumnData, Error>)
      ensures r == ReadColumnsOf(file, State(), codec, columnNames)
    {
      var available := GetColumnNames();
      var requested := if columnNames.None? then available else columnNames.value;
      for k := 0 to |requested|
        invariant forall j :: 0 <= j < k ==> requested[j] in available
      {
        if requested[k] !in available {
          FirstMissingAt(requested, available, k);
          return Failure(ColumnNotFound(requested[k]));
        }
      }
      r := CollectColumns(codec, requested);
    }

    /** The block loop of read_columns. */
    method CollectColumns(codec: Codec, requested: seq<Name>) returns (r: Result<ColumnData, Error>)
      ensures r == Collect(file, numRows, codec, columnsMetadata, requested)
    {
      var result: ColumnData := map[];
      for i := 0 to |columnsMetadata|
        invariant Collect(file, numRows, codec, columnsMetadata[..i], requested) == Success(result)
      {
        assert columnsMetadata[..i + 1][..i] == columnsMetadata[..i];
        var colMeta := columnsMetadata[i];
        if colMeta.name in requested {
          var data := BlockData(file, codec, colMeta);
          if data.Failure? {
            CollectFailureSticks(file, numRows, codec, columnsMetadata, requested, i + 1);
            return Failure(data.error);
          }
          var values := DeserializeColumn(colMeta, data.value);
          if values.Failure? {
            CollectFailureSticks(file, numRows, codec, columnsMetadata, requested, i + 1);
            return Failure(values.error);
          }
          result := result[colMeta.name := values.value];
        }
      }
      assert columnsMetadata[..|columnsMetadata|] == columnsMetadata;
      return Success(result);
    }

    /** read: every column, then one row per row index. */
    method Read(codec: Codec) returns (r: Result<seq<RowData>, Error>)
      ensures r == ReadTable(file, State(), codec)
    {
      var columnsData := ReadColumns(codec, None);
      if columnsData.Failure? {
        return Failure(columnsData.error);
      }
      var columns := columnsData.value;
      var rows: seq<RowData> := [];
      for i := 0 to numRows
        invariant forall name :: name in columns ==> |columns[name]| >= i
        invariant rows == seq(i, k requires 0 <= k < i => map name | name in columns :: columns[name][k])
      {
        if exists name :: name in columns && |columns[name]| <= i {
          return Failure(RowIndexOutOfRange);
        }
        var row := map name | name in columns :: columns[name][i];
        rows := rows + [row];
      }
      return Success(rows);
    }
  }
}
