# GPP columnar container: a verified model of the writer and reader

GPP is a small columnar file format. `gpp_writer.write_gpp_file` turns a CSV
into one file:

- a 20-byte fixed header: the magic "GPP1", the version 1, the endianness
  flag 1, two reserved bytes, the u64 row count and the u32 column count;
- one metadata record per column: a u16 name length, the name bytes, a u8
  type id, and the u64 data offset, compressed size and uncompressed size;
- the compressed column blocks, laid out back to back in header order.

The type of each column is inferred from its cells. The first of these that
accepts every cell wins: BOOL ("true"/"false" in any case, white space
stripped), INT32 (`int()`), FLOAT64 (`float()`), and STRING otherwise.
`gpp_reader.read_gpp_file` parses the header and picks the columns to read:
all of them in header order, or the requested ones in the requested order.
It then reads each column's block at its offset, inflates it, checks the
sizes and decodes it. `gpp_to_csv` writes the result back as CSV rows, and
renders a bool as "true" or "false".

The model has nine modules:

| file | module | models |
|---|---|---|
| `wire.dfy` | `Wire` | little-endian `struct.pack`/`unpack` for `<H`, `<I`, `<Q`, `<i` |
| `format.dfy` | `Format` | constants, `ColumnMeta`, `FileHeader`, decoded values, the error of each raise site, the compression pair, loop and dict combinators |
| `text.dfy` | `Text` | `strip()`, `lower()`, and the texts `int()` and `float()` accept |
| `type_inference.dfy` | `TypeInference` | `infer_column_type` |
| `column_codec.dfy` | `ColumnCodec` | the four `build_*_buffer` encoders, `build_column_buffer`, the four decoders, `decode_column_uncompressed` |
| `header_codec.dfy` | `HeaderCodec` | header size, offset assignment, header serialisation, `read_fixed_header`, `read_column_metadata`, `read_header` |
| `file_writer.dfy` | `FileWriter` | `read_csv_columns` and `write_gpp_file` |
| `file_reader.dfy` | `FileReader` | `read_gpp_file` and `gpp_to_csv` |
| `round_trip.dfy` | `RoundTrip` | writing a CSV, then reading it back or exporting it |

Each `for` loop of the Python source is a `method` with loop invariants. Its
`ensures` ties the result to a pure specification function. There are two
exceptions:

- The trial loops of `infer_column_type` (src/gpp_writer.py:49-50 and 57-58)
  only ask whether every value parses. They are the quantified predicates
  `TypeInference.AllInt` and `TypeInference.AllFloat`, as the bool trial's
  `all(...)` is `TypeInference.AllBool`.
- The list comprehension of `decode_bool_column` (src/gpp_reader.py:139) is
  the function `ColumnCodec.DecodeBoolColumn`.

The lemmas prove what the format promises about the specification functions:

- every column codec round trip;
- the header round trip, and truncation at any byte;
- the header-size formula and contiguous offsets;
- the order in which the fixed header's checks reject a file;
- the selection semantics of `read_gpp_file`;
- the whole path from CSV rows to a file and back.

zlib is a parameter: a pair of functions, with the assumption
`Format.Lossless` stated as a requirement wherever it is needed. Packing a
double is a parameter too (`packDouble`).

The reader's checks are looser than the writer's output. The model follows
the reader's code:

- The writer only ever emits the bytes 0 and 1 for a bool. The reader reads
  byte 1 as true and every other byte as false, so a corrupted byte such as 2
  decodes as false instead of failing (`ColumnCodec.BoolBytes`,
  `ColumnCodec.BoolByteTwoExample`).
- The writer's string offsets never decrease, and a corrupted offsets table
  is meant to be rejected. `decode_string_column` checks only the table's
  size and its last offset. A corrupted offset in the middle of the table is
  not detected: the row decodes as a clamped slice
  (`ColumnCodec.StringDecodeAccepts`, `ColumnCodec.NonMonotoneOffsetsExample`).
- Duplicate column names are neither rejected by the writer nor handled
  specially by the reader. The reader's dicts keep the last entry of a name
  (`FileReader.DuplicateNameReadsLastEntry`). The writer's `row_count` is the
  length of the first name's list, which is the number of data rows times the
  number of times that name repeats (`FileWriter.RowCountOfRows`).

## Model

| member | source | states |
|---|---|---|
| Wire.EncodeDecodeLE | src/gpp_reader.py:95 | Every byte string is the little-endian encoding, at its own width, of the number it decodes to. |
| Wire.PackU16 | src/gpp_writer.py:232 | `<H` gives 2 bytes that unpack to the packed value. |
| Wire.UnpackU16 | src/gpp_reader.py:75 | `<H` unpacks 2 bytes to a value below 2^16. |
| Wire.UnpackPackU16 | src/gpp_reader.py:75 | Repacking an unpacked u16 gives the same 2 bytes. |
| Wire.PackU32 | src/gpp_writer.py:225 | `<I` gives 4 bytes that unpack to the packed value. |
| Wire.UnpackU32 | src/gpp_reader.py:61 | `<I` unpacks 4 bytes to a value below 2^32. |
| Wire.UnpackPackU32 | src/gpp_reader.py:154 | Repacking an unpacked u32 gives the same 4 bytes. |
| Wire.PackU64 | src/gpp_writer.py:224 | `<Q` gives 8 bytes that unpack to the packed value. |
| Wire.UnpackU64 | src/gpp_reader.py:60 | `<Q` unpacks 8 bytes to a value below 2^64. |
| Wire.UnpackPackU64 | src/gpp_reader.py:95 | Repacking an unpacked u64 gives the same 8 bytes. |
| Wire.PackI32 | src/gpp_writer.py:73 | `<i` gives 4 bytes of two's complement that unpack to the packed value. |
| Wire.UnpackI32 | src/gpp_reader.py:122 | `<i` unpacks 4 bytes to a value in [-2^31, 2^31). |
| Wire.UnpackPackI32 | src/gpp_reader.py:122 | Repacking an unpacked int32 gives the same 4 bytes. |
| Format.MapAll | src/gpp_writer.py:71-73 | A loop whose steps may raise: it succeeds iff every step does, with one result per element in order; otherwise the error is the one raised by the first failing element. |
| Format.MapAllFirstFailure | src/gpp_writer.py:71-73 | When every element before position i succeeds and element i raises, the loop raises element i's error. |
| Format.LastWinsStep | src/gpp_reader.py:234 | Storing one more key updates the dict at that key and nowhere else. |
| Format.LastWinsLookup | src/gpp_reader.py:202 | In a dict built from a list, a key maps to the value at its last occurrence. |
| Format.LastWinsKeys | src/gpp_reader.py:202 | The dict built from a list holds exactly the listed keys. |
| Text.StripLeft | src/gpp_writer.py:40 | The result is a suffix of the input that does not start with white space, and every byte dropped is white space. |
| Text.StripRight | src/gpp_writer.py:40 | The result is a prefix of the input that does not end with white space, and every byte dropped is white space. |
| Text.SignedDigitsAreFloat | src/gpp_writer.py:47-59 | Signed digits of any length are accepted by `float()`, so every text `int()` accepts is too. |
| Text.LongDigitsAreFloatOnly | src/gpp_writer.py:48-59 | Signed digits with more than 4300 digits are refused by `int()` and accepted by `float()`. |
| TypeInference.InferColumnType | src/gpp_writer.py:31-64 | The inferred type id is one of BOOL, INT32, FLOAT64, STRING. |
| TypeInference.StringMeansSomeValueIsText | src/gpp_writer.py:42-64 | A column falls back to STRING only if some value is not bool text and some value is neither an int nor a float literal. |
| TypeInference.FloatMeansSomeValueIsNotInt | src/gpp_writer.py:47-59 | A column is FLOAT64 only if some stripped value is not an integer literal. |
| TypeInference.LoneIntegerIsInt32 | src/gpp_writer.py:42-51 | A column of one integer literal is INT32, whatever its value. |
| TypeInference.LongIntegerIsFloat64 | src/gpp_writer.py:47-59 | A column of integer texts where one has more than 4300 digits fails the int trial, passes the float trial, and is FLOAT64. |
| TypeInference.BoolTextIsNotFloat | src/gpp_writer.py:42-59 | "true" and "false", in any case and with any padding, are not float literals. |
| TypeInference.ShortTextIsNotBool | src/gpp_writer.py:43-44 | Fewer than four bytes after stripping are never bool text. |
| TypeInference.EmptyColumnIsBool | src/gpp_writer.py:44-45 | A column with no values is BOOL: `all()` of nothing holds. |
| TypeInference.BoolPairIsBool | src/gpp_writer.py:44-45 | Two bool texts make a BOOL column. |
| TypeInference.BoolExample | src/gpp_writer.py:44-45 | "true", "false" is BOOL. |
| TypeInference.Int32Example | src/gpp_writer.py:48-51 | "1", "2", "-3" is INT32. |
| TypeInference.OnePointFive | src/gpp_writer.py:48-58 | "1.5" is a float literal but not an integer literal. |
| TypeInference.Float64Example | src/gpp_writer.py:56-59 | "1.5", "2" is FLOAT64. |
| TypeInference.StringExample | src/gpp_writer.py:63-64 | "1.5", "abc" is STRING. |
| TypeInference.MixedBoolIntExample | src/gpp_writer.py:42-64 | "true", "1" is STRING: a mix of bools and numbers passes no trial. |
| ColumnCodec.Int32Cell | src/gpp_writer.py:72-73 | An encoded INT32 cell is 4 bytes. |
| ColumnCodec.BoolCell | src/gpp_writer.py:88-95 | An encoded BOOL cell is 1 byte. |
| ColumnCodec.Float64Cell | src/gpp_writer.py:80-81 | An encoded FLOAT64 cell is 8 bytes. |
| ColumnCodec.U32Cell | src/gpp_writer.py:115 | A packed string offset is 4 bytes. |
| ColumnCodec.StringOffsets | src/gpp_writer.py:104-110 | There are N+1 offsets for N values. |
| ColumnCodec.BuildInt32Buffer | src/gpp_writer.py:69-74 | The loop returns the INT32 buffer or the first cell's error. |
| ColumnCodec.BuildBoolBuffer | src/gpp_writer.py:85-96 | The loop returns the BOOL buffer or the first invalid bool value. |
| ColumnCodec.BoolCellStep | src/gpp_writer.py:88-95 | A value that is "true" or "false" appends its 1 or 0 byte, and the loop so far still agrees with the specification. |
| ColumnCodec.BoolCellRejects | src/gpp_writer.py:93-94 | A value that is neither raises "Invalid bool value" for that value as the whole buffer's result. |
| ColumnCodec.BuildFloat64Buffer | src/gpp_writer.py:77-82 | The loop returns the FLOAT64 buffer or the first cell's error. |
| ColumnCodec.BuildStringBuffer | src/gpp_writer.py:99-119 | The two loops return the offsets table followed by the data, or the first offset that does not fit a u32. |
| ColumnCodec.BuildColumnBuffer | src/gpp_writer.py:122-132 | The dispatch on the type id returns that type's buffer; any other id is an error. |
| ColumnCodec.DecodeInt32Column | src/gpp_reader.py:118-124 | Decoding succeeds iff the buffer holds exactly 4 bytes per row, fails with the INT32 size mismatch otherwise, and then yields `row_count` values. |
| ColumnCodec.DecodeFloat64Column | src/gpp_reader.py:127-133 | Decoding succeeds iff the buffer holds exactly 8 bytes per row, fails with the FLOAT64 size mismatch otherwise, and then yields `row_count` values. |
| ColumnCodec.DecodeBoolColumn | src/gpp_reader.py:136-139 | Decoding succeeds iff the buffer holds exactly one byte per row, fails with the BOOL size mismatch otherwise, and then yields `row_count` values. |
| ColumnCodec.PySlice | src/gpp_reader.py:168 | `data[start:end]` is the exact slice when the bounds are in order and in range, and empty when end <= start or start is past the end. |
| ColumnCodec.StringTable | src/gpp_reader.py:150-155 | The table has N+1 offsets. |
| ColumnCodec.DecodeStringColumn | src/gpp_reader.py:142-171 | A decoded STRING column has `row_count` values. |
| ColumnCodec.DecodeColumn | src/gpp_reader.py:174-184 | Decoding succeeds only for the four type ids, and then yields `row_count` values. |
| ColumnCodec.DecodeInt32 | src/gpp_reader.py:118-124 | The `iter_unpack` loop computes the INT32 decoding, size check included. |
| ColumnCodec.DecodeFloat64 | src/gpp_reader.py:127-133 | The `iter_unpack` loop computes the FLOAT64 decoding, size check included. |
| ColumnCodec.DecodeString | src/gpp_reader.py:142-171 | The offsets and slice loops compute the STRING decoding, with both of its checks. |
| ColumnCodec.DecodeColumnUncompressed | src/gpp_reader.py:174-184 | The dispatch computes the decoding of the type. |
| ColumnCodec.Int32BufferAccepts | src/gpp_writer.py:69-74 | INT32 encoding succeeds iff every stripped value is an integer literal within int32, and then the buffer has 4 bytes per row. |
| ColumnCodec.Int32Row | src/gpp_writer.py:72-73 | Bytes 4i..4i+4 of the buffer unpack to `int(values[i].strip())`. |
| ColumnCodec.Int32Represents | src/gpp_reader.py:122-123 | Row i of the decoded column is the integer that cell i spells. |
| ColumnCodec.Int32RoundTrip | src/gpp_reader.py:118-124 | Decoding an encoded INT32 column succeeds, and row i is the integer of value i. |
| ColumnCodec.BoolRow | src/gpp_writer.py:88-95 | Byte i of the buffer is 1 for "true" and 0 for "false". |
| ColumnCodec.BoolBufferAccepts | src/gpp_writer.py:85-96 | BOOL encoding succeeds iff every value is bool text, and then the buffer holds one 0/1 byte per row. |
| ColumnCodec.BoolRoundTrip | src/gpp_reader.py:136-139 | Decoding an encoded BOOL column succeeds, and row i is true iff value i is "true". |
| ColumnCodec.Float64Row | src/gpp_writer.py:80-81 | Bytes 8i..8i+8 of the buffer are the packed double of value i. |
| ColumnCodec.Float64BufferLayout | src/gpp_writer.py:77-82 | FLOAT64 encoding succeeds iff every stripped value is a float literal, and then row i is the packed double at bytes 8i..8i+8. |
| ColumnCodec.Float64RoundTrip | src/gpp_reader.py:127-133 | Decoding an encoded FLOAT64 column succeeds, and row i is the double of value i. |
| ColumnCodec.StringOffsetsRunningSum | src/gpp_writer.py:104-110 | offsets[0] = 0, each offset adds one value's length, and the last offset is the data length. |
| ColumnCodec.OffsetsBelowLast | src/gpp_writer.py:104-110 | No offset exceeds the last one. |
| ColumnCodec.PackedOffsets | src/gpp_writer.py:113-115 | The packed table unpacks, four bytes at a time, to the offsets. |
| ColumnCodec.StringBufferAccepts | src/gpp_writer.py:113-115 | STRING encoding succeeds iff the data is shorter than 4 GiB. |
| ColumnCodec.StringBufferLayout | src/gpp_writer.py:99-119 | The buffer is the 4(N+1)-byte table of the running offsets followed by the data. |
| ColumnCodec.StringSlice | src/gpp_reader.py:164-169 | Slicing the data at offsets i and i+1 gives value i. |
| ColumnCodec.StringRoundTrip | src/gpp_reader.py:142-171 | Decoding an encoded STRING column succeeds, and row i is value i. |
| ColumnCodec.ColumnRoundTrip | src/gpp_reader.py:174-184 | For every type, decoding the built buffer succeeds with one value per row, each representing its cell. |
| ColumnCodec.StringDecodeAccepts | src/gpp_reader.py:147-169 | STRING decoding succeeds iff the table fits and its last offset equals the data length; a row whose end offset is not after its start decodes as "". |
| ColumnCodec.BoolBytes | src/gpp_reader.py:139 | Row i of a decoded BOOL column is true exactly when byte i is 1. |
| ColumnCodec.BoolByteTwoExample | src/gpp_reader.py:139 | A byte 2, which the writer never emits, decodes as false instead of failing. |
| ColumnCodec.NonMonotoneOffsetsExample | src/gpp_reader.py:160-169 | Offsets 0, 2, 1 over one byte pass both checks and decode as that byte and "". |
| HeaderCodec.HeaderSize | src/gpp_writer.py:203-208 | The header size is at least the 20 fixed bytes. |
| HeaderCodec.ComputeHeaderSize | src/gpp_writer.py:203-208 | The loop computes 20 plus 27 plus the name length for each column. |
| HeaderCodec.LayOut | src/gpp_writer.py:211-214 | Offset assignment keeps one entry per column. |
| HeaderCodec.LayOutContiguous | src/gpp_writer.py:211-214 | The first block starts at the given start offset, each next one where the previous one ends, and only the offsets change. |
| HeaderCodec.LayOutEnd | src/gpp_writer.py:211-214 | The last block ends at the start plus the sum of the compressed sizes. |
| HeaderCodec.AssignOffsets | src/gpp_writer.py:211-214 | The running-offset loop computes the layout. |
| HeaderCodec.FixedHeaderBytes | src/gpp_writer.py:220-225 | The fixed part packs iff the row count fits u64 and the column count fits u32, and is then 20 bytes. |
| HeaderCodec.MetaRecord | src/gpp_writer.py:229-237 | A record packs iff every field fits its width, and then has 27 bytes plus the name. |
| HeaderCodec.BuildHeader | src/gpp_writer.py:217-237 | The loop builds the fixed part followed by the records, or fails at the first field that does not fit. |
| HeaderCodec.RecordsLength | src/gpp_writer.py:228-237 | The records take the sum of their sizes. |
| HeaderCodec.SerializedHeaderSize | src/gpp_writer.py:203-237 | The header emitted is exactly as long as the header size computed before it. |
| HeaderCodec.SerializeHeaderAccepts | src/gpp_writer.py:220-237 | Serialisation fails only when the row count, the column count or a record field does not fit its struct format. |
| HeaderCodec.ReadFixedHeader | src/gpp_reader.py:38-63 | The fixed header is accepted iff there are 20 bytes, the magic, version 1 and flag 1; the counts fit u64 and u32. |
| HeaderCodec.FixedHeaderRejectionOrder | src/gpp_reader.py:43-57 | The checks fail in order: too small, then magic, then version, then endianness. |
| HeaderCodec.ReservedBytesIgnored | src/gpp_reader.py:59-61 | Changing bytes 6 and 7 does not change the result. |
| HeaderCodec.FixedHeaderRoundTrip | src/gpp_reader.py:38-63 | The fixed part the writer packs reads back as its row and column counts, whatever follows. |
| HeaderCodec.ParseRecord | src/gpp_reader.py:70-105 | A parsed record consumes exactly its size and its fields fit their widths. |
| HeaderCodec.ParseColumns | src/gpp_reader.py:66-107 | Parsing `count` records yields `count` entries, and what is left is a suffix of the stream. |
| HeaderCodec.ParseColumnsStep | src/gpp_reader.py:69-105 | Reading one record moves it from the rest of the stream to the entries read. |
| HeaderCodec.ParseColumnsCons | src/gpp_reader.py:69-105 | A record followed by records that parse gives that entry in front of theirs. |
| HeaderCodec.ParseColumnsFails | src/gpp_reader.py:69-105 | The record loop stops at the first record that fails. |
| HeaderCodec.ReadColumnMetadata | src/gpp_reader.py:66-107 | The field-by-field loop computes the records, or the EOF error of the first field cut short. |
| HeaderCodec.ReadHeader | src/gpp_reader.py:110-113 | A parsed header lists as many columns as its column count, and ends within the file after the fixed part. |
| HeaderCodec.ReadHeaderOf | src/gpp_reader.py:110-113 | `read_header` is the fixed part's counts plus the records parsed after it. |
| HeaderCodec.ReadHeaderBody | src/gpp_reader.py:111-112 | The records are read from the bytes after the fixed 20. |
| HeaderCodec.SizeFields | src/gpp_reader.py:95 | The three u64 fields are bytes 0..8, 8..16 and 16..24 of the 24 read. |
| HeaderCodec.RecordRoundTrip | src/gpp_reader.py:70-105 | A record the writer packs parses back to the same entry, and leaves what follows it. |
| HeaderCodec.RecordThenRecords | src/gpp_reader.py:69-105 | A packed record in front of records that parse adds its entry in front. |
| HeaderCodec.RecordsRoundTrip | src/gpp_reader.py:66-107 | The packed records, read one after another, parse back to the entries. |
| HeaderCodec.SerializedRecordsParse | src/gpp_reader.py:66-107 | The records the writer emits parse back to the entries, whatever follows them. |
| HeaderCodec.HeaderRoundTrip | src/gpp_reader.py:110-113 | `read_header` inverts the serialisation: the same counts and entries, ending at the computed header size. |
| HeaderCodec.RecordTruncation | src/gpp_reader.py:70-93 | Each field the stream cannot supply raises its own EOF error, in field order; with 27 plus the name length bytes the record parses. |
| HeaderCodec.TruncatedRecordFails | src/gpp_reader.py:70-93 | A packed record cut anywhere before its end fails. |
| HeaderCodec.TruncatedRecordsFail | src/gpp_reader.py:66-107 | Packed records cut anywhere before their end fail. |
| HeaderCodec.TruncatedHeaderFails | src/gpp_reader.py:110-113 | A written header cut anywhere before its end fails. |
| FileWriter.AddCells | src/gpp_writer.py:160-161 | Appending a row keeps the keys of the dict. |
| FileWriter.Group | src/gpp_writer.py:155-161 | The dict of lists has one key per header name. |
| FileWriter.CsvColumns | src/gpp_writer.py:137-163 | `read_csv_columns` fails iff the CSV is empty or a data row has the wrong length; otherwise it returns the first row and the grouped data rows, keyed by the header names. |
| FileWriter.CsvColumnsErrors | src/gpp_writer.py:149-159 | An empty CSV raises "Empty CSV"; a row of another length raises "Inconsistent row length". |
| FileWriter.AppendRow | src/gpp_writer.py:160-161 | The zip loop appends each cell to its name's list. |
| FileWriter.RectangularPrefix | src/gpp_writer.py:157-159 | The rows checked so far all have the header's length. |
| FileWriter.GroupNext | src/gpp_writer.py:157-161 | One more checked row extends the grouping by that row. |
| FileWriter.ReadCsvColumns | src/gpp_writer.py:137-163 | The loop computes the grouping, or raises the first error. |
| FileWriter.AddCellsLookup | src/gpp_writer.py:160-161 | A name's list grows by the row's cells under that name. |
| FileWriter.GroupLookup | src/gpp_writer.py:155-161 | The list of each name holds the cells under that name, row after row. |
| FileWriter.CellsNamedLength | src/gpp_writer.py:160-161 | A row adds one cell per header position with that name. |
| FileWriter.ColumnCellsLength | src/gpp_writer.py:155-161 | A name repeated k times gets k cells per data row. |
| FileWriter.CellsNamedDistinct | src/gpp_writer.py:160-161 | With distinct names, a row adds exactly its j-th cell under header[j]. |
| FileWriter.CellsNamedAbsent | src/gpp_writer.py:160-161 | A name not in the header receives nothing. |
| FileWriter.DistinctColumns | src/gpp_writer.py:155-161 | With distinct names, column j is the j-th cell of every data row, in row order. |
| FileWriter.RowCountOfRows | src/gpp_writer.py:169 | `row_count` is the number of data rows times how often the first name repeats: the number of data rows when names are distinct, 0 with no columns. |
| FileWriter.EncodeColumn | src/gpp_writer.py:179-199 | A column's entry carries its name, offset 0 and the compressed length. |
| FileWriter.Named | src/gpp_writer.py:179-180 | There is one column per header name. |
| FileWriter.EncodedColumn | src/gpp_writer.py:179-199 | Entry j of the first pass encodes the column named header[j]. |
| FileWriter.EncodedColumns | src/gpp_writer.py:179-199 | Every entry carries its header name and its block's length, and two equal names have equal entries. |
| FileWriter.Lookups | src/gpp_writer.py:245-246 | There is one block per metadata entry. |
| FileWriter.EncodeAll | src/gpp_writer.py:179-199 | The first-pass loop computes the entries and blocks, or fails at the first column that does not encode. |
| FileWriter.AppendBlocks | src/gpp_writer.py:245-247 | The output grows by each entry's block, in entry order. |
| FileWriter.PlacedNamesStored | src/gpp_writer.py:245-246 | Every laid-out entry's name has a stored block. |
| FileWriter.WriteColumns | src/gpp_writer.py:169-247 | The steps after the CSV is read compute the file's bytes. |
| FileWriter.WriteGppFile | src/gpp_writer.py:166-247 | `write_gpp_file` computes the file's bytes. |
| FileWriter.InferredTypeEncodes | src/gpp_writer.py:181-184 | A column's buffer for its inferred type can fail only because a value does not fit its field. |
| FileWriter.IntegersPackOrOverflow | src/gpp_writer.py:69-74 | A column of integer literals encodes unless a value is outside int32. |
| FileWriter.OffsetsPackOrOverflow | src/gpp_writer.py:113-115 | A STRING column encodes unless an offset reaches 4 GiB. |
| FileWriter.NoRangeCheckAtInference | src/gpp_writer.py:48-51 | An integer literal of at most 4300 digits outside int32 is still inferred INT32, and its column then fails to pack. |
| FileWriter.LongIntegerEncodesAsFloat64 | src/gpp_writer.py:47-59 | A column holding an integer text of more than 4300 digits is FLOAT64, and its buffer builds. |
| FileWriter.BuffersInOrder | src/gpp_writer.py:245-246 | Looking the blocks up by the entries' names gives them back in order, because equal names have equal blocks. |
| FileWriter.SameNamesSameSize | src/gpp_writer.py:203-208 | Entries with the same names have the same record sizes, so offsets do not change the header size. |
| FileWriter.BlockAtOffset | src/gpp_writer.py:211-247 | Block j lies in the file at the offset and size its entry records. |
| FileWriter.BlocksAtOffsets | src/gpp_writer.py:211-247 | Every block lies at its entry's offset and size. |
| FileWriter.WrittenHeaderLength | src/gpp_writer.py:203-237 | The written header is as long as the header size the offsets start from. |
| FileWriter.WrittenLayout | src/gpp_writer.py:211-247 | Every block of the written file lies at the offset its entry records. |
| FileWriter.WrittenBlocks | src/gpp_writer.py:240-247 | The file is the serialized header followed by the blocks in header order. |
| FileWriter.EncodedInOrder | src/gpp_writer.py:245-246 | The blocks looked up by the laid-out entries' names are the first pass's blocks, in order. |
| FileWriter.SumIsLength | src/gpp_writer.py:211-214 | The offset of block j is the length of the blocks before it. |
| FileReader.Names | src/gpp_reader.py:206 | The names are those of the header's entries, in order. |
| FileReader.MetaByNameLookup | src/gpp_reader.py:202 | A name maps to the entry of its last occurrence. |
| FileReader.MetaByNameKeys | src/gpp_reader.py:202 | The dict holds exactly the header's names, each mapped to an entry with that name. |
| FileReader.SelectNames | src/gpp_reader.py:205-213 | No request selects the header's names. A request succeeds iff every name is known, and then selects them in the requested order. Otherwise the error is the first unknown name. |
| FileReader.ReadAt | src/gpp_reader.py:221-222 | `seek` then `read` gives the bytes at the offset, and is short iff the file ends before offset plus size. |
| FileReader.ReadColumn | src/gpp_reader.py:217-233 | A short read, a block that does not inflate and a wrong inflated size are each errors, in that order and before any decoding; otherwise the result is the decoding. |
| FileReader.BuildMetaByName | src/gpp_reader.py:202 | The dict loop computes the name-to-entry map. |
| FileReader.SelectColumns | src/gpp_reader.py:205-213 | The validation loop computes the selection. |
| FileReader.ReadOne | src/gpp_reader.py:218-233 | One iteration of the read loop computes the column read. |
| FileReader.ReadSelected | src/gpp_reader.py:215-234 | The read loop succeeds iff every name reads. It then stores each name's values, a later duplicate replacing an earlier one. Otherwise it raises the first failing column's error. |
| FileReader.ReadGppFile | src/gpp_reader.py:189-236 | `read_gpp_file` computes the names, the data and the row count, or the first error. |
| FileReader.ReadColumnsOf | src/gpp_reader.py:202-236 | The steps after `read_header` compute the result. |
| FileReader.ReadGppParts | src/gpp_reader.py:189-236 | A successful read is its header, its selected names and the dict of their values. |
| FileReader.ReadValuesLength | src/gpp_reader.py:217-234 | Every column read has `row_count` values. |
| FileReader.ReadNamedLength | src/gpp_reader.py:218-233 | A column read by name has `row_count` values. |
| FileReader.LastWinsLengths | src/gpp_reader.py:234 | A dict filled with lists of one length holds the listed names, each with a list of that length. |
| FileReader.ReadGppShape | src/gpp_reader.py:189-236 | The dict holds exactly the names read, each with `row_count` values. |
| FileReader.ReadFromParts | src/gpp_reader.py:202-236 | The names are the header's names when none are requested, each is read through its entry, and the values are stored by name. |
| FileReader.ReadThroughHeader | src/gpp_reader.py:199 | The columns are read through the header `read_header` parsed. |
| FileReader.ReadAllInHeaderOrder | src/gpp_reader.py:205-206 | With no request, the names are the header's names in header order, and the row count is the header's. |
| FileReader.ReadRequestedOrder | src/gpp_reader.py:207-213 | Requested names come back in the requested order, repeats included. |
| FileReader.UnknownColumnRejected | src/gpp_reader.py:210-212 | The first requested name missing from the header raises KeyError for that name. |
| FileReader.EmptyRequest | src/gpp_reader.py:207-215 | An empty request reads no column and still returns the header's row count. |
| FileReader.DuplicateNameReadsLastEntry | src/gpp_reader.py:202-234 | A name repeated in the header is read through its last entry. |
| FileReader.ReadAllDistinct | src/gpp_reader.py:202-236 | With distinct names and every column readable, reading all gives each name its own column's values. |
| FileReader.Render | src/gpp_reader.py:256-259 | A bool becomes the text "true" or "false" by its value; any other value is written unchanged. |
| FileReader.CsvRows | src/gpp_reader.py:251-260 | There are `row_count` rows; cell (i, j) is value i of name j, rendered. |
| FileReader.RenderRows | src/gpp_reader.py:251-260 | The two nested loops compute the rendered rows. |
| FileReader.GppToCsvFile | src/gpp_reader.py:241-260 | `gpp_to_csv` computes the header row and the rendered rows. |
| RoundTrip.ColumnOf | src/gpp_writer.py:160-161 | Column j has one cell per data row, the row's j-th cell. |
| RoundTrip.GroupedColumn | src/gpp_writer.py:155-169 | With distinct names, the list under header[j] is column j, and `row_count` is the number of data rows. |
| RoundTrip.BlockReadBack | src/gpp_reader.py:221-233 | A block the lossless compressor produced, at its entry's offset and with matching sizes, reads back as the decoding of its buffer. |
| RoundTrip.EncodedEntry | src/gpp_writer.py:179-199 | Entry j holds the inferred type, the lengths and the compressed buffer of column j. |
| RoundTrip.PlacedBlock | src/gpp_writer.py:211-247 | A laid-out block lies at its entry's offset. |
| RoundTrip.WrittenBlock | src/gpp_writer.py:179-247 | In the written file, entry j has column j's type and lengths, and its compressed buffer lies at its offset. |
| RoundTrip.BlockRepresents | src/gpp_reader.py:217-233 | A block at its entry's offset that inflates to a column's buffer reads back as values representing the cells. |
| RoundTrip.ColumnReadBack | src/gpp_reader.py:217-234 | Column j of a written file reads back as the values of column j's cells. |
| RoundTrip.HeaderReadBack | src/gpp_reader.py:110-113 | The header read from a written file is the header laid out, and its names are the CSV header. |
| RoundTrip.WrittenColumnsRepresent | src/gpp_reader.py:217-234 | Every column of a written file reads back as its CSV column. |
| RoundTrip.ReadBackByName | src/gpp_reader.py:202-236 | With distinct names, reading all columns gives every name the values of its CSV column. |
| RoundTrip.WriteThenReadAll | src/gpp_reader.py:189-236 | Reading a written file succeeds. The names are the CSV header, the row count is the number of data rows, and each column holds its cells' values under the inferred type. |
| RoundTrip.GroupedColumns | src/gpp_writer.py:157-169 | Every data row has the header's length, and `row_count` is the number of data rows, or 0 with no columns. |
| RoundTrip.ExportedCell | src/gpp_reader.py:254-259 | A decoded value, rendered, is what its cell exports as: a bool cell comes back as its stripped, lower-cased text. |
| RoundTrip.GppToCsvOf | src/gpp_reader.py:241-260 | `gpp_to_csv` renders what `read_gpp_file` returns. |
| RoundTrip.ExportRows | src/gpp_reader.py:251-260 | Rendering columns that represent the data rows exports every cell as its meaning. |
| RoundTrip.ColumnCellExported | src/gpp_reader.py:254-259 | A cell of a column, decoded and rendered, exports as its meaning under the inferred type. |
| RoundTrip.WriteThenExport | src/gpp_reader.py:241-260 | Exporting a written file gives the CSV header and one row per data row, with every cell exported as its meaning. |

## Left out

- zlib is not modelled. `compress` and `decompress` are the two functions of a `Codec` value. `Format.Lossless` (decompress inverts compress) is a requirement of the round-trip lemmas. A `zlib.error` is the `DecompressFailed` error.
- IEEE-754 doubles are not modelled. `struct.pack("<d", float(text))` is the parameter `packDouble`, and a decoded FLOAT64 value is its 8 raw bytes.
- UTF-8 encoding and decoding are the identity. Names and cells are byte strings, and invalid UTF-8 is not an error.
- `str.strip()` and `str.lower()` act on ASCII only: the ASCII white space of `str.isspace()`, and the letters A-Z.
- The grammars of `int()` and `float()` are simplified. There are no underscores, and no non-ASCII digits or white space. `float()` accepts a decimal mantissa with an optional exponent, and "inf", "infinity" and "nan" in any case.
- `int()` refuses a text of more than 4300 digits (`Text.INT_MAX_STR_DIGITS`), the default limit of CPython 3.11 and of the security releases of 3.7 to 3.10. A limit changed with `sys.set_int_max_str_digits` or `PYTHONINTMAXSTRDIGITS` is not modelled. Neither is an older interpreter without the limit, where such a text is INT32 and its column fails to pack.
- CSV parsing and writing (`csv.reader`, `csv.writer`) are not modelled. The writer starts from the parsed rows, and `gpp_to_csv` ends with the rendered rows. The `str()` text of an int or float cell is not modelled.
- Opening, reading and writing files are not modelled, and neither are the `print` calls. A file is a byte sequence. `seek` plus `read` is a clamped slice (`FileReader.ReadAt`).
- FileReader.ReadAt: an offset or size of 2^63 or more, or a size too large to allocate, probably makes Python's `seek` or `read` raise (OverflowError, ValueError or MemoryError). The model gives a short read instead, so `read_gpp_file` reports the column's EOF error.
- Offset assignment updates the `ColumnMeta` objects in place in the source. Here it produces new values (`HeaderCodec.LayOut`).
- The "String offsets count mismatch" check (src/gpp_reader.py:157-158) can never fire, because the table always unpacks to N+1 offsets. It has no error path in the model.
- cli.py, main.py and the tests are not part of this model.
- RoundTrip.WriteThenReadAll: requires distinct header names. With a repeated name, the grouped lists and `row_count` no longer match the data rows, and the source does not promise a round trip.
- RoundTrip.WriteThenExport: requires distinct header names, for the same reason.
