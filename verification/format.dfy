/**
 * What the encoder and the decoder share: the magic token, the version,
 * the three type tags, the column descriptor, the values a table holds,
 * the errors either side raises, and the host facilities both call
 * (the compressor and Python's float conversions).
 */
module Format {
  import opened Results
  import opened Encoding

  /** "CFF1" in ASCII. */
  const MAGIC: Bytes := [0x43, 0x46, 0x46, 0x31]
  const FORMAT_VERSION: nat := 1

  const TYPE_INT32: Byte := 1
  const TYPE_FLOAT64: Byte := 2
  const TYPE_STRING: Byte := 3

  /** Column names and string values are their UTF-8 bytes. */
  type Name = Bytes

  /** A 64-bit float, carried as its IEEE-754 bit pattern. */
  type F64 = x: nat | x < 0x1_0000_0000_0000_0000

  /**
   * The Python values a table cell can hold. Other is an object of any other type, which int() and
   * float() reject, carried with what str() gives for it.
   */
  datatype Value =
    | Null
    | Bool(b: bool)
    | Int(i: int)
    | Float(bits: F64)
    | Text(s: Bytes)
    | Other(repr: Bytes)

  /** One column descriptor of the header. */
  datatype ColumnMeta = ColumnMeta(name: Name, dtype: Byte, offset: nat, compressedSize: nat, uncompressedSize: nat)

  datatype Error =
    | EmptyInput                                  // write/write_from_columns on no data
    | NonUniformLength                            // write_from_columns: columns of different lengths
    | MissingKey(key: Name)                       // a row lacks a key of the first row
    | InvalidValueForType(value: Value)           // int()/float() cannot convert the value
    | PackOverflow                                // struct.pack: a field outside its range
    | UnknownTypeTag(dtype: Byte)                 // serialize/deserialize of a tag outside {1, 2, 3}
    | InvalidMagic
    | UnsupportedVersion(version: nat)
    | Truncated                                   // struct.unpack on fewer bytes than the field needs
    | ColumnNotFound(name: Name)
    | DecompressFailed(column: Name)
    | IntegrityMismatch(column: Name, expected: nat, actual: nat)
    | RowIndexOutOfRange                          // read: a column shorter than the row count

  /** The block compressor (zlib at level 6 in the source); decompress fails on input it cannot inflate. */
  datatype Codec = Codec(compress: Bytes -> Bytes, decompress: Bytes -> Option<Bytes>)

  ghost predicate Lossless(codec: Codec)
  {
    forall data :: codec.decompress(codec.compress(data)) == Some(data)
  }

  /** Python's conversions that need IEEE-754 arithmetic. */
  datatype Builtins = Builtins(
    floatOfInt: int -> Option<F64>,      // float(n); None on OverflowError
    floatOfText: Bytes -> Option<F64>,   // float(s); None on ValueError
    intOfFloat: F64 -> Option<int>,      // int(x); None for infinities and NaN
    strOfFloat: F64 -> Bytes)            // str(x)

  /** A row: an insertion-ordered dict from column names to values. */
  type Row = seq<(Name, Value)>

  function Keys(row: Row): (keys: seq<Name>)
    ensures |keys| == |row|
  {
    seq(|row|, i requires 0 <= i < |row| => row[i].0)
  }

  predicate DistinctKeys(row: Row)
  {
    forall i, j :: 0 <= i < j < |row| ==> row[i].0 != row[j].0
  }

  /** `row[key]`: the value of the first entry with that key, if any. */
  function Lookup(row: Row, key: Name): (r: Option<Value>)
    ensures r.Some? <==> key in Keys(row)
  {
    if row == [] then None
    else
      assert Keys(row) == [row[0].0] + Keys(row[1..]);
      if row[0].0 == key then Some(row[0].1) else Lookup(row[1..], key)
  }

  lemma {:induction false} LookupAt(row: Row, i: nat)
    requires DistinctKeys(row) && i < |row|
    ensures Lookup(row, row[i].0) == Some(row[i].1)
  {
    if i > 0 {
      LookupAt(row[1..], i - 1);
    }
  }

  /** The column names of a descriptor table, in order. */
  function ColumnNames(metas: seq<ColumnMeta>): (names: seq<Name>)
    ensures |names| == |metas|
  {
    seq(|metas|, i requires 0 <= i < |metas| => metas[i].name)
  }
}
