# CFF: a columnar file format, modelled in Dafny

CFF stores a table column by column. The writer (`CFFWriter`) takes rows
(dicts from column names to values) or columns:

- It takes the column names from the first row.
- It infers one type per column from the first value that is neither `None` nor `''`:
  - bools and ints become INT32 (tag 1);
  - floats become FLOAT64 (tag 2);
  - everything else becomes STRING (tag 3).
- It serializes each column:
  - INT32: four bytes per value, little-endian two's complement.
  - FLOAT64: eight bytes per value, the IEEE-754 pattern.
  - STRING: `n+1` u32 offsets followed by the strings back to back.
- It compresses each column on its own.
- It computes the header size, then gives each block an absolute offset that is a running sum of compressed sizes.
- It emits:
  1. `CFF1`;
  2. a u32 version 1;
  3. a u64 row count;
  4. a u32 column count;
  5. one descriptor per column (u32 name length, name, u8 tag, u64 offset, u64 compressed size, u64 uncompressed size);
  6. the blocks.

The reader (`CFFReader`):

- It parses and checks the header: the magic and the version.
- It exposes the column names and a schema.
- `read_columns` reads only the requested blocks:
  - it slices at the offset;
  - it inflates the slice;
  - it checks the recorded size;
  - it deserializes by type tag.
- `read` turns all the columns back into rows.

The model has six modules:

| module | file | contents |
|---|---|---|
| `Results` | `results.dfy` | `Option` and `Result` |
| `Encoding` | `encoding.dfy` | `struct` packing and unpacking; chunk concatenation; Python's clamped slice |
| `Format` | `format.dfy` | what writer and reader share: constants, `Value`, `ColumnMeta`, errors, the compressor, the float conversions |
| `Writer` | `writer.dfy` | `cff_writer.py` |
| `Reader` | `reader.dfy` | `cff_reader.py` |
| `RoundTrip` | `roundtrip.dfy` | the writer and the reader together |

Files and dicts are modelled as values:

- A file is its bytes. The writer returns the bytes it would write, and the reader holds the bytes it was opened on.
- A row the writer takes is an association list, because its key order decides the column order.
- The dicts the reader returns are maps.

Each loop of the source is a `for` or `while` loop with invariants inside a method; where one source function has several loops, its method calls helper methods or holds several loops. Each method is proved equal to a specification function (`ensures r == EncodeTable(...)`), and the properties the source promises are lemmas about those functions. The two classes keep the state the source mutates:

- `CFFWriter.numRows`;
- `CFFReader.file`, `numRows` and `columnsMetadata`.

The main results:

- **`RoundTrip.HeaderRoundTrip`:** the header parser inverts the header writer.
- **`RoundTrip.ColumnRoundTrip`:** each deserializer inverts its serializer.
- **`RoundTrip.WriteThenRead`:** for any table `write` accepts and any lossless compressor:
  - reading the file back gives the row count and the descriptors;
  - it gives one row per row written;
  - each row has exactly the first row's keys;
  - each key holds `int(v)`, `float(v)` or `str(v)` of the written value v, as the column's inferred type decides (`RoundTrip.StoredValue`). So an int in a column that an earlier string made STRING comes back as its text, and a string in an INT32 column comes back as its `int()`.
  - A value comes back unchanged only when its own kind decided the column's type (`RoundTrip.InferredTypeKeepsValue`): an int in an INT32 column, a float in a FLOAT64 column, a string in a STRING column.
  - Bools decide INT32 and come back as 1/0 (`RoundTrip.BooleansComeBackAsIntegers`). A column of only `None` and `''` is STRING, and `None` comes back as `"None"` (`RoundTrip.BlankColumnsComeBackAsText`).

## Model

| member | source | states |
|---|---|---|
| Encoding.PackInt32 | cff_writer.py:61 | `'<i'` packing succeeds exactly on [-2^31, 2^31), gives 4 bytes, and unpacking them gives the value back |
| Encoding.UnpackInt32 | cff_reader.py:125 | the signed reading of 4 bytes lies in [-2^31, 2^31) |
| Encoding.UnpackThenPack | cff_reader.py:125 | every 4 bytes are the `'<i'` packing of the integer they unpack to |
| Encoding.PackUnsigned | cff_writer.py:114-135 | `'<B'`/`'<I'`/`'<Q'` packing succeeds exactly on [0, 256^k), gives k bytes that decode to the value |
| Encoding.DecodeEncode | cff_reader.py:57-79 | decoding the little-endian encoding of n gives n |
| Encoding.EncodeDecode | cff_reader.py:57-79 | encoding what k bytes decode to gives back the k bytes |
| Encoding.PackDouble | cff_writer.py:68 | `'<d'` packing gives 8 bytes that decode to the float's bit pattern |
| Encoding.ConcatSlice | cff_writer.py:214-216 | chunk i of a concatenation sits right after the first i chunks |
| Encoding.UniformConcatSlice | cff_reader.py:124-125 | in a concatenation of w-byte chunks, chunk i is bytes [w·i, w·i+w) |
| Encoding.Slice | cff_reader.py:156 | a Python slice with in-range bounds is the plain subsequence, and is never longer than its input |
| Format.Lookup | cff_writer.py:157 | `row[key]` is found exactly when the key is one of the row's keys |
| Format.LookupAt | cff_writer.py:157 | in a row with distinct keys, looking up entry i's key gives entry i's value |
| Writer.InferType | cff_writer.py:42-55 | INT32 exactly for bools and ints, FLOAT64 exactly for floats, STRING exactly for everything else |
| Writer.ColumnType | cff_writer.py:160-167 | definition: the inferred type of the first value that is neither None nor '', STRING when there is none |
| Writer.ColumnTypeIsFirstNonBlank | cff_writer.py:160-164 | a column's type is the inferred type of its first value that is neither None nor '' |
| Writer.ColumnTypeAllBlank | cff_writer.py:165-167 | a column of only None/'' values is STRING |
| Writer.InferColumnType | cff_writer.py:160-167 | the for/else scan returns the first non-blank value's type, or STRING if there is none |
| Writer.ParseInt | cff_writer.py:61 | definition: `int()` of a string, an optional sign then decimal digits; anything else is rejected |
| Writer.DecimalText | cff_writer.py:80 | definition: `str()` of an int, a minus sign then its decimal digits |
| Writer.AsInt | cff_writer.py:61 | definition: `int(v)`: bools give 1/0, ints themselves, floats and strings their conversion; None and other objects fail |
| Writer.AsFloat | cff_writer.py:68 | definition: `float(v)`: bools give 1.0/0.0, ints and strings their conversion, floats themselves; None and other objects fail |
| Writer.AsText | cff_writer.py:80 | definition: `str(v)`: None gives "None", bools "True"/"False", ints their decimal digits, strings themselves |
| Writer.FixedWidthColumn | cff_writer.py:57-69 | definition: each value packed in turn as `'<i'` or `'<d'`, the first that fails stopping the column |
| Writer.EncodeCell | cff_writer.py:57-69 | a packed INT32 value is 4 bytes and a packed FLOAT64 value 8 |
| Writer.PackCellsSucceeds | cff_writer.py:57-69 | a fixed-width column serializes exactly when every one of its values packs |
| Writer.PackCellsIsConcat | cff_writer.py:57-69 | a column that serializes is its packed values one after another |
| Writer.PackCellsFirstError | cff_writer.py:57-69 | the first value that fails to pack decides the column's error |
| Writer.PackCellsFailureSticks | cff_writer.py:59-61 | once a prefix of the values fails, the whole column fails the same way |
| Writer.Int32ColumnLayout | cff_writer.py:57-62 | an INT32 column succeeds exactly when every `int(v)` lies in 32 bits; it is then 4n bytes, group i packing `int(values[i])` |
| Writer.Int32Cells | cff_writer.py:57-62 | 4n bytes, and group i reads back as `int(values[i])` |
| Writer.Int32Cell | cff_writer.py:61 | group i of an INT32 column is the packing of value i |
| Writer.Float64ColumnLayout | cff_writer.py:64-69 | a FLOAT64 column succeeds exactly when every `float(v)` succeeds; it is then 8n bytes, group i the pattern of `float(values[i])` |
| Writer.Float64Cells | cff_writer.py:64-69 | 8n bytes, and group i decodes to the pattern of `float(values[i])` |
| Writer.Float64Cell | cff_writer.py:68 | group i of a FLOAT64 column is the packing of value i |
| Writer.Float64CellDecodes | cff_writer.py:68 | a packed float decodes to the pattern of `float(v)` |
| Writer.StringColumn | cff_writer.py:71-91 | definition: the packed offset table followed by the strings back to back |
| Writer.SerializedColumn | cff_writer.py:93-102 | definition: the INT32, FLOAT64 or STRING serialization for the tag; any other tag fails |
| Writer.OffsetsLayout | cff_writer.py:76-82 | offsets[0] = 0, the offsets never decrease, the last one is the blob length, and the blob between offsets i and i+1 is string i |
| Writer.OffsetsMonotone | cff_writer.py:79-82 | the offsets never decrease |
| Writer.OffsetStep | cff_writer.py:80-82 | offset i+1 is offset i plus the length of string i, and the blob between them is string i |
| Writer.OffsetsSnoc | cff_writer.py:81-82 | appending a string appends its end offset |
| Writer.PackOffsetsLayout | cff_writer.py:85-86 | the offset table packs exactly when every offset is below 2^32; entry i then decodes to offset i |
| Writer.PackOffsetsFailureSticks | cff_writer.py:85-86 | once an offset fails to pack, the table fails the same way |
| Writer.StringColumnLayout | cff_writer.py:71-91 | a STRING column fails exactly when the blob reaches 2^32 bytes; otherwise it is 4(n+1) + blob length bytes, entry k decodes to offset k, and the blob follows the table |
| Writer.Pack | cff_writer.py:114-135 | an unsigned header field packs exactly when it fits its width; the error is an overflow; the bytes decode to the value |
| Writer.DescriptorBytes | cff_writer.py:124-135 | definition: u32 name length, name, u8 tag, u64 offset, u64 compressed size, u64 uncompressed size; a field out of range fails |
| Writer.HeaderBytes | cff_writer.py:108-135 | definition: CFF1, u32 version, u64 row count, u32 column count, then every descriptor; a field out of range fails |
| Writer.HeaderSize | cff_writer.py:197-201 | definition: 20 plus 4 + len(name) + 1 + 24 per descriptor |
| Writer.DescriptorChunksSnoc | cff_writer.py:123-135 | each pass of the descriptor loop appends exactly that descriptor's bytes |
| Writer.DescriptorBytesLength | cff_writer.py:199-201 | a descriptor is 4 + name length + 1 + 24 bytes |
| Writer.DescriptorChunksLength | cff_writer.py:197-201 | the descriptors plus the 20 fixed bytes are exactly the computed header size |
| Writer.HeaderBytesLength | cff_writer.py:197-201 | write_header emits exactly as many bytes as write computed for the header |
| Writer.HeaderBytesFields | cff_writer.py:108-135 | the header fails only when a field does not fit its width; it starts with CFF1, version 1, the row count and the column count, followed by the descriptors |
| Writer.Layout | cff_writer.py:203-207 | definition: each descriptor with offset set to the start plus the compressed sizes before it |
| Writer.SizesBeforeMonotone | cff_writer.py:205-207 | the running sum of compressed sizes never decreases |
| Writer.LayoutContiguous | cff_writer.py:203-207 | only offsets change; the first block starts at the header size, each next block where the previous one ends, and the last ends at header size plus all sizes |
| Writer.LayoutDisjoint | cff_writer.py:203-207 | no two blocks overlap |
| Writer.HeaderSizeOf | cff_writer.py:197-201 | the header-size loop computes 20 + Σ(4 + len(name) + 1 + 24) |
| Writer.AssignOffsets | cff_writer.py:203-207 | the offset loop computes the running-sum layout |
| Writer.ColumnOf | cff_writer.py:157 | `[row[name] for row in data]` succeeds exactly when every row has the name, fails with that name otherwise, and value j is row j's |
| Writer.ColumnValues | cff_writer.py:157 | the comprehension one row at a time computes the column of that name |
| Writer.Columns | cff_writer.py:156-158 | one column per name |
| Writer.ColumnsSpec | cff_writer.py:156-158 | the columns succeed exactly when each name's column does, and column k is then name k's |
| Writer.ColumnsFailureSticks | cff_writer.py:156-158 | the first name some row lacks decides the error |
| Writer.WriteInputErrors | cff_writer.py:144-157 | write fails on no rows; otherwise, when key k of the first row is the first key some row lacks, it fails with that key |
| Writer.Unplaced | cff_writer.py:169-195 | definition: each column serialized with its type and compressed, with a descriptor of offset 0 and both sizes; the first failure stops it |
| Writer.PlanTable | cff_writer.py:144-207 | definition: no rows fail; otherwise the first row's keys, their columns and types, serialized and compressed, then laid out after the header |
| Writer.EncodeTable | cff_writer.py:137-216 | definition: the header for the planned descriptors followed by the compressed blocks in column order |
| Writer.UnplacedFailureSticks | cff_writer.py:173-183 | the first column that fails to serialize decides the error |
| Writer.UnplacedShape | cff_writer.py:173-195 | descriptor k names column k, has its type and sizes, offset 0; block k is its compressed serialization |
| Writer.UnplacedSizes | cff_writer.py:179-193 | one descriptor and one block per column, each descriptor recording its block's compressed size |
| Writer.PlanShape | cff_writer.py:150-195 | a successful plan has one descriptor and block per key of the first row, in order, each describing that column with its inferred type |
| Writer.PlanOffsets | cff_writer.py:197-207 | block k's offset is the header size plus the sizes of the blocks before it |
| Writer.HeaderSizeIgnoresOffsets | cff_writer.py:197-201 | the header size depends on the names only, not on the offsets still to be assigned |
| Writer.SizesBeforeIsConcatLength | cff_writer.py:205-207 | the running sum of sizes is the length of the blocks written before |
| Writer.EncodedBlocksAtOffsets | cff_writer.py:209-216 | the file is the header followed by the blocks; its length is header size plus all compressed sizes, and block k sits at [offset_k, offset_k + size_k) |
| Writer.BlocksAfterHeader | cff_writer.py:214-216 | blocks written after the header sit at their descriptors' offsets |
| Writer.RowsOfColumns | cff_writer.py:227-242 | definition: no columns or unequal lengths fail; otherwise row i maps each name, in order, to its column's value i |
| Writer.RowsOfColumnsShape | cff_writer.py:227-242 | fails on no columns and on unequal lengths; otherwise one row per index, keys in column order, row i holding value i of each column |
| Writer.CFFWriter.constructor | cff_writer.py:37-40 | a new writer has row count 0 |
| Writer.CFFWriter.SerializeInt32Column | cff_writer.py:57-62 | the packing loop computes the INT32 column |
| Writer.CFFWriter.SerializeFloat64Column | cff_writer.py:64-69 | the packing loop computes the FLOAT64 column |
| Writer.CFFWriter.CollectStrings | cff_writer.py:76-82 | the first loop computes the offsets and the blob |
| Writer.CFFWriter.SerializeStringColumn | cff_writer.py:71-91 | both loops together compute the STRING column |
| Writer.CFFWriter.SerializeColumn | cff_writer.py:93-102 | dispatch on the tag; any other tag fails |
| Writer.CFFWriter.WriteHeader | cff_writer.py:108-135 | the field-by-field writes produce the header for this writer's row count |
| Writer.CFFWriter.WriteDescriptors | cff_writer.py:123-135 | every descriptor in order, or an overflow |
| Writer.CFFWriter.WriteDescriptor | cff_writer.py:125-135 | one descriptor's bytes, or an overflow |
| Writer.CFFWriter.Write | cff_writer.py:137-216 | produces the table's file, or the first error, and sets the row count unless the input is empty |
| Writer.CFFWriter.AppendBlocks | cff_writer.py:215-216 | the blocks follow the header in column order |
| Writer.CFFWriter.OrganizeColumns | cff_writer.py:153-167 | each name's column and its inferred type |
| Writer.CFFWriter.CompressColumns | cff_writer.py:169-195 | serialize, compress and describe every column, stopping at the first failure |
| Writer.CFFWriter.WriteFromColumns | cff_writer.py:218-244 | rejects empty or ragged input and otherwise writes the rows the columns make |
| Reader.ParseDescriptor | cff_reader.py:69-88 | definition: the descriptor fields at the cursor, in write order, and the position after them; a short read fails |
| Reader.ParseDescriptors | cff_reader.py:68-88 | a successful parse appends exactly count descriptors, and any failure is a short read |
| Reader.ParseHeader | cff_reader.py:48-88 | fails with a bad magic exactly when the first 4 bytes are not CFF1; a wrong version fails with that version; success gives the row count and the descriptors |
| Reader.TypeName | cff_reader.py:96-97 | UNKNOWN exactly for tags outside {1, 2, 3} |
| Reader.TypeNamesDistinct | cff_reader.py:96 | the three known tags have different names |
| Reader.Schema | cff_reader.py:94-98 | definition: each descriptor's name mapped to its type name, in header order, so a later descriptor of a name overrides |
| Reader.SchemaLastWins | cff_reader.py:94-98 | the schema's keys are exactly the column names, each mapped to the type name of its last descriptor |
| Reader.SchemaKeys | cff_reader.py:97-98 | the schema's keys are exactly the column names |
| Reader.SchemaAt | cff_reader.py:97-98 | the last descriptor of a name decides that name's schema entry |
| Reader.BlockData | cff_reader.py:100-119 | succeeds exactly when the slice inflates to the recorded size; the result is the inflated slice; otherwise a decompression or size-mismatch error |
| Reader.Int32Values | cff_reader.py:121-127 | definition: the signed reading of every 4 bytes; a length not a multiple of 4 fails |
| Reader.Float64Values | cff_reader.py:129-135 | definition: the 64-bit pattern of every 8 bytes; a length not a multiple of 8 fails |
| Reader.OffsetTable | cff_reader.py:145-149 | count offsets are read |
| Reader.StringValues | cff_reader.py:137-160 | definition: num_rows+1 offsets then the blob, row i the blob between offsets i and i+1; a block shorter than the table fails |
| Reader.DecodeColumn | cff_reader.py:162-171 | definition: the deserializer of the tag; any other tag fails |
| Reader.ReadColumn | cff_reader.py:194-200 | definition: the block read and checked, then deserialized by its tag |
| Reader.DecodedLength | cff_reader.py:121-171 | a successful decode has a known tag, len/4 INT32 values, len/8 FLOAT64 values, or num_rows strings from a block holding the offset table |
| Reader.FirstMissing | cff_reader.py:186-190 | none is missing exactly when every requested name is a column; a reported name is requested and absent |
| Reader.FirstMissingAt | cff_reader.py:188-190 | the first absent name is the one reported |
| Reader.Collect | cff_reader.py:192-203 | definition: every descriptor whose name is requested read in header order, a later one of the same name overriding; the first failure stops it |
| Reader.ReadColumnsOf | cff_reader.py:173-203 | definition: None means every column name; the first unknown name fails before any block is read; otherwise the block loop |
| Reader.CollectFailureSticks | cff_reader.py:194-201 | once a requested block fails, the whole read fails the same way |
| Reader.CollectSucceeds | cff_reader.py:194-201 | the read succeeds exactly when every requested descriptor's block reads |
| Reader.CollectContents | cff_reader.py:193-203 | the keys are exactly the requested column names, each holding what its last descriptor reads to |
| Reader.CollectKeys | cff_reader.py:193-203 | the keys are exactly the requested names that are columns |
| Reader.CollectAt | cff_reader.py:195-201 | the last descriptor of a requested name decides its entry |
| Reader.CollectReadsOnlyRequested | cff_reader.py:192-197 | two files that agree on the requested blocks read the same; no other block is read |
| Reader.Restrict | cff_reader.py:192-203 | keys are the common ones |
| Reader.CollectProjection | cff_reader.py:192-203 | reading a subset of names gives that subset of what reading them all gives |
| Reader.MissingNameFailsFirst | cff_reader.py:186-190 | an unknown name fails the read with the first such name, whatever the blocks hold |
| Reader.ReadColumnsContents | cff_reader.py:173-203 | the keys are the requested names (all names for None), each holding its last descriptor's column |
| Reader.ReadColumnsProjection | cff_reader.py:173-203 | reading some known names gives exactly what reading every column gives for them |
| Reader.Transpose | cff_reader.py:215-222 | definition: row i maps every column name to that column's value i; a column shorter than num_rows fails |
| Reader.ReadTable | cff_reader.py:205-222 | definition: every column, then num_rows rows |
| Reader.ReadAgreesWithReadColumns | cff_reader.py:205-222 | read gives num_rows rows, each keyed by all column names, and `read()[i][c] == read_columns(S)[c][i]` |
| Reader.CFFReader.constructor | cff_reader.py:42-45 | a reader starts on its file with no rows and no descriptors |
| Reader.CFFReader.Open | cff_reader.py:42-46 | opening succeeds exactly when the header parses, and the reader then holds the parsed header |
| Reader.CFFReader.ReadHeader | cff_reader.py:48-88 | reading through a cursor gives the parsed header, or the error parsing raises |
| Reader.CFFReader.ReadDescriptors | cff_reader.py:68-88 | the descriptor loop parses count descriptors from byte 20 |
| Reader.CFFReader.ReadDescriptor | cff_reader.py:69-88 | one pass parses the descriptor at the cursor |
| Reader.CFFReader.GetColumnNames | cff_reader.py:90-92 | every descriptor's name, in header order |
| Reader.CFFReader.GetSchema | cff_reader.py:94-98 | keyed by exactly the column names, the last descriptor of each deciding its type name |
| Reader.CFFReader.DeserializeInt32Column | cff_reader.py:121-127 | the loop computes the INT32 values |
| Reader.CFFReader.DeserializeFloat64Column | cff_reader.py:129-135 | the loop computes the FLOAT64 values |
| Reader.CFFReader.ReadOffsets | cff_reader.py:145-149 | the loop computes the offset table |
| Reader.CFFReader.DeserializeStringColumn | cff_reader.py:137-160 | the loops compute the STRING values for this reader's row count |
| Reader.CFFReader.DeserializeColumn | cff_reader.py:162-171 | dispatch on the tag; any other tag fails |
| Reader.CFFReader.ReadColumns | cff_reader.py:173-203 | check the names, then read the requested blocks |
| Reader.CFFReader.CollectColumns | cff_reader.py:192-203 | the block loop over the descriptors |
| Reader.CFFReader.Read | cff_reader.py:205-222 | every column, then one row per row index |
| RoundTrip.PackedByte | cff_writer.py:130 | packing a byte as `'<B'` gives that byte |
| RoundTrip.DescriptorLayout | cff_writer.py:123-135 | where each field of a descriptor sits, and what it decodes to |
| RoundTrip.DescriptorRoundTrip | cff_reader.py:69-88 | parsing a written descriptor gives it back, with the cursor just past it |
| RoundTrip.ChainParses | cff_reader.py:68-88 | descriptors that parse one after another make the descriptor loop succeed with them all |
| RoundTrip.DescriptorsChained | cff_reader.py:68-88 | written descriptors parse one after another |
| RoundTrip.DescriptorAt | cff_writer.py:123-135 | descriptor j of the header sits right after the first j |
| RoundTrip.HeaderRoundTrip | cff_reader.py:48-88 | parsing a written header, followed by anything, gives back the row count and every descriptor in order |
| RoundTrip.StoredValue | cff_writer.py:93-102 | definition: what a value comes back as from a column of the tag: `int(v)`, `float(v)` or `str(v)` |
| RoundTrip.Int32RoundTrip | cff_reader.py:121-127 | deserializing a written INT32 column gives `int(v)` for every value v |
| RoundTrip.Float64RoundTrip | cff_reader.py:129-135 | deserializing a written FLOAT64 column gives `float(v)` for every value v |
| RoundTrip.OffsetEntry | cff_reader.py:147-149 | offset k read back from a written STRING column is offset k written |
| RoundTrip.StringBlob | cff_reader.py:141-143 | the bytes after the offset table are the written blob |
| RoundTrip.StringRoundTrip | cff_reader.py:137-160 | deserializing a written STRING column for its row count gives `str(v)` for every value v |
| RoundTrip.ColumnRoundTrip | cff_reader.py:162-171 | each deserializer inverts its serializer |
| RoundTrip.BlockRoundTrip | cff_reader.py:100-119 | with a lossless compressor, a written block reads back as the serialized bytes |
| RoundTrip.ColumnReadsBack | cff_reader.py:194-201 | a written column read back from its descriptor gives the stored form of every value |
| RoundTrip.TableLayoutHolds | cff_writer.py:150-216 | a written file lays out each first-row key's column, block and descriptor at its offset |
| RoundTrip.WrittenColumnAt | cff_reader.py:194-201 | column k of a written file reads back as its stored values |
| RoundTrip.ReadAllColumns | cff_reader.py:183-203 | with distinct names whose blocks all read, read_columns() gives every column |
| RoundTrip.TransposeFull | cff_reader.py:215-220 | when every column has num_rows values, row i maps every name to value i |
| RoundTrip.CellReadsBack | cff_reader.py:217-219 | cell (i, name) read back is row i's value under that name, as stored |
| RoundTrip.TableReadsBack | cff_reader.py:205-222 | read() of a written table gives one row per row written, each with the written names and their stored values |
| RoundTrip.WriteThenRead | cff_writer.py:137-216 | writing then reading gives the row count and descriptors back, and one row per written row with the first row's keys and the stored form of each value |
| RoundTrip.InferredTypeKeepsValue | cff_writer.py:42-55 | an int, a float or a string comes back unchanged from the column type it decides |
| RoundTrip.BooleansComeBackAsIntegers | cff_writer.py:44-46 | a column of bools is INT32 and comes back as 1 and 0 |
| RoundTrip.BlankColumnsComeBackAsText | cff_writer.py:165-167 | a column of only None and '' is STRING, None coming back as "None" and '' as '' |

## Left out

- zlib (levels, the DEFLATE stream) is a `Codec` parameter, a pair of functions. The reader's size check is modelled. The round-trip lemmas require the pair to be lossless.
- Python's float arithmetic is a `Builtins` parameter:
  - `float(int)` and its overflow;
  - `float(str)`;
  - `int(float)`;
  - `str(float)`.
  
  A float is carried as its 64-bit pattern.
- `int(str)` is an optional sign followed by ASCII digits. Python also accepts surrounding whitespace and `_` separators; those inputs are not modelled.
- UTF-8 encoding and decoding of names and strings are left out. Strings are their bytes, so the reader's `UnicodeDecodeError` on bytes that are not UTF-8 is not modelled.
- File I/O is not modelled:
  - the writer returns the bytes it would write;
  - the reader reads from bytes held by the object;
  - a write that fails midway leaves no partial file.
- Key order of the dicts the reader returns is not modelled, because they are maps. The writer's rows keep their order.
- `write_from_columns` ignores its `column_types` argument, and the model leaves it out.
- `info()` and `ColumnMetadata.__repr__` are display strings and are left out.
- The header loop of write is not modelled exactly:
  - `write_header` writes descriptors one by one into an open file;
  - the model builds them all first and fails before any byte is written.
- `Writer.CFFWriter.Write`: the `col_meta.offset` mutation on shared metadata objects is modelled on values. The descriptors are a sequence of datatypes that `AssignOffsets` returns with offsets set.
- `Reader.CFFReader.ReadHeader`: the source appends each descriptor as it parses it, so a header cut short inside the descriptors leaves the earlier ones appended. The model appends them only once all have parsed, and on failure its contract states only the error.
- `RoundTrip.WriteThenRead`:
  - requires a lossless compressor and distinct keys in the first row;
  - a Python dict cannot have duplicate keys, but the row model, an association list, can.
- `Writer.AsInt`: objects of other types that Python's `int()` accepts through `__int__` or `__index__` (`Decimal`, `Fraction`, numpy integers) are not represented. Every `Other` value is rejected.
- `Writer.AsFloat`: objects of other types that Python's `float()` accepts through `__float__` or `__index__` (`Decimal`, `Fraction`, numpy scalars) are not represented. Every `Other` value is rejected.
