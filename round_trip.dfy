/** Writing a CSV and reading the file back: with distinct header names and
    a lossless compressor, read_gpp_file returns the header's names, the
    number of data rows, and for every column the values its cells encode
    under the inferred type; gpp_to_csv writes a bool cell back as its
    stripped, lower-cased text. */
module RoundTrip {
  import opened Wire
  import opened Format
  import opened Text
  import opened TypeInference
  import opened ColumnCodec
  import opened HeaderCodec
  import opened FileWriter
  import opened FileReader

  /** Column j of the data rows (the rows after the header). */
  function ColumnOf(rows: seq<seq<Bytes>>, j: nat): (cells: seq<Bytes>)
    requires |rows| > 0 && forall i :: 1 <= i < |rows| ==> j < |rows[i]|
    ensures |cells| == |rows| - 1
    ensures forall i :: 1 <= i < |rows| ==> cells[i - 1] == rows[i][j]
  {
    seq(|rows| - 1, i requires 0 <= i < |rows| - 1 => rows[i + 1][j])
  }

  /** One value per cell, each the value of its cell under the type. */
  predicate RepresentsColumn(typeId: nat, packDouble: Bytes -> Word64, cells: seq<Bytes>, values: seq<Value>)
  {
    |values| == |cells| && forall i :: 0 <= i < |cells| ==> Represents(typeId, packDouble, cells[i], values[i])
  }

  /** With distinct names, the list grouped under header[j] is column j, and
      the row count is the number of data rows. */
  lemma GroupedColumn(rows: seq<seq<Bytes>>, header: seq<Bytes>, columns: map<Bytes, seq<Bytes>>, j: nat)
    requires CsvColumns(rows) == Ok((header, columns)) && Distinct(header) && j < |header|
    ensures forall i :: 1 <= i < |rows| ==> j < |rows[i]|
    ensures header[j] in columns && columns[header[j]] == ColumnOf(rows, j)
    ensures RowCount(header, columns) == |rows| - 1
  {
    GroupLookup(header, rows[1..], header[j]);
    DistinctColumns(header, rows[1..], j);
    RowCountOfRows(rows);
  }

  /** A block read back at its offset, inflated and size-checked, decodes the
      buffer that was compressed into it. */
  lemma BlockReadBack(file: Bytes, name: Bytes, meta: ColumnMeta, block: Bytes, buffer: Bytes, rowCount: nat, codec: Codec)
    requires Lossless(codec) && block == codec.compress(buffer)
    requires meta.compressedSize == |block| && meta.uncompressedSize == |buffer|
    requires meta.dataOffset + meta.compressedSize <= |file|
    requires file[meta.dataOffset..meta.dataOffset + meta.compressedSize] == block
    ensures ReadColumn(file, name, meta, rowCount, codec) == DecodeColumn(buffer, meta.typeId, rowCount)
  {
    assert codec.decompress(codec.compress(buffer)) == Some(buffer);
  }

  /** Entry j of the first pass holds the inferred type, the lengths, and the
      compressed bytes of the column's buffer. */
  lemma EncodedEntry(header: seq<Bytes>, columns: map<Bytes, seq<Bytes>>, codec: Codec, packDouble: Bytes -> Word64,
                     encoded: seq<(ColumnMeta, Bytes)>, j: nat)
    requires forall name :: name in header ==> name in columns
    requires EncodeColumns(header, columns, codec, packDouble) == Ok(encoded) && j < |header|
    ensures var values := columns[header[j]];
      var t := InferColumnType(values);
      ColumnBuffer(values, t, packDouble).Ok? &&
      |encoded| == |header| &&
      encoded[j].1 == codec.compress(ColumnBuffer(values, t, packDouble).value) &&
      encoded[j].0 == ColumnMeta(header[j], t, 0, |encoded[j].1|, |ColumnBuffer(values, t, packDouble).value|)
  {
    EncodedColumn(header, columns, codec, packDouble, j);
  }

  /** The entry's compressedSize bytes from its dataOffset are the block. */
  predicate BlockAt(file: Bytes, meta: ColumnMeta, block: Bytes)
  {
    meta.dataOffset + meta.compressedSize <= |file| &&
    file[meta.dataOffset..meta.dataOffset + meta.compressedSize] == block
  }

  /** A block placed by a layout lies at its entry's offset. */
  lemma PlacedBlock(file: Bytes, placed: seq<ColumnMeta>, blocks: seq<Bytes>, j: nat)
    requires BlocksAt(file, placed, blocks) && j < |placed|
    ensures BlockAt(file, placed[j], blocks[j])
  {
  }

  /** Entry j of a written header holds column j's inferred type and
      lengths, and the compressed bytes of its buffer lie at its offset. */
  lemma WrittenBlock(header: seq<Bytes>, columns: map<Bytes, seq<Bytes>>, codec: Codec, packDouble: Bytes -> Word64,
                     encoded: seq<(ColumnMeta, Bytes)>, headerBytes: Bytes, j: nat, buffer: Bytes)
    requires WriteSteps(header, columns, codec, packDouble, encoded, headerBytes) && j < |header|
    requires ColumnBuffer(columns[header[j]], InferColumnType(columns[header[j]]), packDouble) == Ok(buffer)
    ensures var file := headerBytes + Concat(Blocks(encoded));
      var metas := LayOut(Metas(encoded), HeaderSize(Metas(encoded)));
      |metas| == |header| &&
      metas[j].typeId == InferColumnType(columns[header[j]]) &&
      metas[j].compressedSize == |codec.compress(buffer)| && metas[j].uncompressedSize == |buffer| &&
      BlockAt(file, metas[j], codec.compress(buffer))
  {
    EncodedEntry(header, columns, codec, packDouble, encoded, j);
    WrittenLayout(header, columns, codec, packDouble, encoded, headerBytes);
    PlacedBlock(headerBytes + Concat(Blocks(encoded)), LayOut(Metas(encoded), HeaderSize(Metas(encoded))), Blocks(encoded), j);
  }

  /** A block that lies at its entry's offset and inflates to a column's
      buffer reads back as one value per cell of that column. */
  lemma BlockRepresents(file: Bytes, name: Bytes, meta: ColumnMeta, cells: seq<Bytes>, buffer: Bytes,
                        packDouble: Bytes -> Word64, codec: Codec)
    requires Lossless(codec) && ColumnBuffer(cells, meta.typeId, packDouble) == Ok(buffer)
    requires meta.compressedSize == |codec.compress(buffer)| && meta.uncompressedSize == |buffer|
    requires BlockAt(file, meta, codec.compress(buffer))
    ensures ReadColumn(file, name, meta, |cells|, codec).Ok?
    ensures RepresentsColumn(meta.typeId, packDouble, cells, ReadColumn(file, name, meta, |cells|, codec).value)
  {
    BlockReadBack(file, name, meta, codec.compress(buffer), buffer, |cells|, codec);
    ColumnRoundTrip(cells, meta.typeId, packDouble);
  }

  /** Column j of the header reads, and reads back as the values of the
      cells of CSV column j. */
  predicate ColumnRepresents(rows: seq<seq<Bytes>>, packDouble: Bytes -> Word64, file: Bytes, header: FileHeader, codec: Codec, j: nat)
    requires |rows| > 0 && (forall i :: 1 <= i < |rows| ==> |rows[i]| == |rows[0]|)
    requires j < |header.columns| && j < |rows[0]|
  {
    var meta := header.columns[j];
    var read := ReadColumn(file, meta.name, meta, header.rowCount, codec);
    read.Ok? && RepresentsColumn(InferColumnType(ColumnOf(rows, j)), packDouble, ColumnOf(rows, j), read.value)
  }

  /** Column j of a written file reads back as the values of column j's cells. */
  lemma ColumnReadBack(rows: seq<seq<Bytes>>, codec: Codec, packDouble: Bytes -> Word64,
                       header: seq<Bytes>, columns: map<Bytes, seq<Bytes>>,
                       encoded: seq<(ColumnMeta, Bytes)>, headerBytes: Bytes, j: nat)
    requires Lossless(codec) && CsvColumns(rows) == Ok((header, columns)) && Distinct(header)
    requires WriteSteps(header, columns, codec, packDouble, encoded, headerBytes) && j < |header|
    requires forall i :: 1 <= i < |rows| ==> |rows[i]| == |rows[0]|
    ensures var metas := LayOut(Metas(encoded), HeaderSize(Metas(encoded)));
      |metas| == |header| == |rows[0]| &&
      ColumnRepresents(rows, packDouble, headerBytes + Concat(Blocks(encoded)),
        FileHeader(RowCount(header, columns), |metas|, metas), codec, j)
  {
    GroupedColumn(rows, header, columns, j);
    var values := columns[header[j]];
    EncodedEntry(header, columns, codec, packDouble, encoded, j);
    var buffer := ColumnBuffer(values, InferColumnType(values), packDouble).value;
    WrittenBlock(header, columns, codec, packDouble, encoded, headerBytes, j, buffer);
    var meta := LayOut(Metas(encoded), HeaderSize(Metas(encoded)))[j];
    BlockRepresents(headerBytes + Concat(Blocks(encoded)), meta.name, meta, values, buffer, packDouble, codec);
  }

  /** The header read back from a written file is the header that was laid out. */
  lemma HeaderReadBack(header: seq<Bytes>, columns: map<Bytes, seq<Bytes>>, codec: Codec, packDouble: Bytes -> Word64,
                       encoded: seq<(ColumnMeta, Bytes)>, headerBytes: Bytes)
    requires WriteSteps(header, columns, codec, packDouble, encoded, headerBytes)
    ensures var metas := LayOut(Metas(encoded), HeaderSize(Metas(encoded)));
      ReadHeader(headerBytes + Concat(Blocks(encoded))) ==
        Ok((FileHeader(RowCount(header, columns), |metas|, metas), HeaderSize(metas)))
    ensures Names(LayOut(Metas(encoded), HeaderSize(Metas(encoded)))) == header
  {
    var metas := LayOut(Metas(encoded), HeaderSize(Metas(encoded)));
    HeaderRoundTrip(RowCount(header, columns), metas, Concat(Blocks(encoded)));
    EncodedColumns(header, columns, codec, packDouble);
    assert Names(metas) == header;
  }

  /** The names are the CSV header and each column's values are the values
      of its cells under the type inferred for it. */
  predicate ReadsBack(rows: seq<seq<Bytes>>, packDouble: Bytes -> Word64, names: seq<Bytes>, data: map<Bytes, seq<Value>>)
  {
    |rows| > 0 && names == rows[0] &&
    forall j :: 0 <= j < |names| ==>
      (forall i :: 1 <= i < |rows| ==> j < |rows[i]|) &&
      names[j] in data &&
      RepresentsColumn(InferColumnType(ColumnOf(rows, j)), packDouble, ColumnOf(rows, j), data[names[j]])
  }

  /** Every column the header lists reads back as the matching CSV column. */
  predicate ColumnsRepresent(rows: seq<seq<Bytes>>, packDouble: Bytes -> Word64, file: Bytes, header: FileHeader, codec: Codec)
    requires |rows| > 0 && (forall i :: 1 <= i < |rows| ==> |rows[i]| == |rows[0]|) && |header.columns| == |rows[0]|
  {
    forall j :: 0 <= j < |header.columns| ==> ColumnRepresents(rows, packDouble, file, header, codec, j)
  }

  /** Each column of a written file, read at the entry the writer laid out for
      it, reads back as the CSV column. */
  lemma WrittenColumnsRepresent(rows: seq<seq<Bytes>>, codec: Codec, packDouble: Bytes -> Word64,
                                header: seq<Bytes>, columns: map<Bytes, seq<Bytes>>,
                                encoded: seq<(ColumnMeta, Bytes)>, headerBytes: Bytes)
    requires Lossless(codec) && CsvColumns(rows) == Ok((header, columns)) && Distinct(header)
    requires WriteSteps(header, columns, codec, packDouble, encoded, headerBytes)
    ensures forall i :: 1 <= i < |rows| ==> |rows[i]| == |rows[0]|
    ensures var metas := LayOut(Metas(encoded), HeaderSize(Metas(encoded)));
      |metas| == |rows[0]| &&
      ColumnsRepresent(rows, packDouble, headerBytes + Concat(Blocks(encoded)),
        FileHeader(RowCount(header, columns), |metas|, metas), codec)
  {
    GroupedColumns(rows, header, columns);
    forall j | 0 <= j < |header|
      ensures ColumnRepresents(rows, packDouble, headerBytes + Concat(Blocks(encoded)),
        FileHeader(RowCount(header, columns), |header|, LayOut(Metas(encoded), HeaderSize(Metas(encoded)))), codec, j)
    {
      ColumnReadBack(rows, codec, packDouble, header, columns, encoded, headerBytes, j);
    }
  }

  /** With distinct names, reading every column of a header whose columns
      represent the CSV columns returns them under the CSV header's names. */
  lemma ReadBackByName(rows: seq<seq<Bytes>>, packDouble: Bytes -> Word64, file: Bytes, header: FileHeader, codec: Codec)
    requires |rows| > 0 && (forall i :: 1 <= i < |rows| ==> |rows[i]| == |rows[0]|)
    requires |header.columns| == |rows[0]| && Names(header.columns) == rows[0] && Distinct(rows[0])
    requires ColumnsRepresent(rows, packDouble, file, header, codec)
    ensures ReadFrom(file, header, None, codec).Ok?
    ensures var (names, data, rowCount) := ReadFrom(file, header, None, codec).value;
      rowCount == header.rowCount && ReadsBack(rows, packDouble, names, data)
  {
    forall j | 0 <= j < |header.columns|
      ensures ReadColumn(file, header.columns[j].name, header.columns[j], header.rowCount, codec).Ok?
    {
      assert ColumnRepresents(rows, packDouble, file, header, codec, j);
    }
    ReadAllDistinct(file, header, codec);
    var (names, data, rowCount) := ReadFrom(file, header, None, codec).value;
    forall j | 0 <= j < |names|
      ensures names[j] in data &&
        RepresentsColumn(InferColumnType(ColumnOf(rows, j)), packDouble, ColumnOf(rows, j), data[names[j]])
    {
      assert ColumnRepresents(rows, packDouble, file, header, codec, j);
    }
  }

  /** write_gpp_file then read_gpp_file with no selection: the names are the
      CSV header, the row count is the number of data rows (0 when the header
      is empty), and each column's values are the values of its cells under
      the type inferred for it. */
  lemma WriteThenReadAll(rows: seq<seq<Bytes>>, codec: Codec, packDouble: Bytes -> Word64, file: Bytes)
    requires Lossless(codec) && WriteGpp(rows, codec, packDouble) == Ok(file)
    requires |rows| > 0 && Distinct(rows[0])
    ensures ReadGpp(file, None, codec).Ok?
    ensures var (names, data, rowCount) := ReadGpp(file, None, codec).value;
      rowCount == (if |rows[0]| == 0 then 0 else |rows| - 1) && ReadsBack(rows, packDouble, names, data)
  {
    var (header, columns) := CsvColumns(rows).value;
    var encoded := EncodeColumns(header, columns, codec, packDouble).value;
    var metas := LayOut(Metas(encoded), HeaderSize(Metas(encoded)));
    var headerBytes := SerializeHeader(RowCount(header, columns), metas).value;
    WrittenBlocks(header, columns, codec, packDouble, encoded, headerBytes);
    HeaderReadBack(header, columns, codec, packDouble, encoded, headerBytes);
    ReadThroughHeader(file, None, codec, FileHeader(RowCount(header, columns), |metas|, metas), HeaderSize(metas));
    GroupedColumns(rows, header, columns);
    WrittenColumnsRepresent(rows, codec, packDouble, header, columns, encoded, headerBytes);
    ReadBackByName(rows, packDouble, file, FileHeader(RowCount(header, columns), |metas|, metas), codec);
  }

  /** The data rows are as long as the header; the row count is the number of
      data rows, or 0 when the header is empty. */
  lemma GroupedColumns(rows: seq<seq<Bytes>>, header: seq<Bytes>, columns: map<Bytes, seq<Bytes>>)
    requires CsvColumns(rows) == Ok((header, columns)) && Distinct(header)
    ensures forall i :: 1 <= i < |rows| ==> |rows[i]| == |header|
    ensures RowCount(header, columns) == if |header| == 0 then 0 else |rows| - 1
  {
    RowCountOfRows(rows);
    assert Rectangular(rows[0], rows[1..]);
    forall i | 1 <= i < |rows|
      ensures |rows[i]| == |header|
    {
      assert rows[1..][i - 1] == rows[i];
    }
  }

  /** What gpp_to_csv writes for a cell of a column of the given type: the
      integer, the double's bytes, the stripped lower-cased bool text, or the
      string itself. */
  predicate Exported(typeId: nat, packDouble: Bytes -> Word64, cell: Bytes, out: Value)
  {
    if typeId == TYPE_INT32 then IsIntLiteral(Strip(cell)) && out == IntV(ParseInt(Strip(cell)))
    else if typeId == TYPE_FLOAT64 then out == FloatV(packDouble(Strip(cell)))
    else if typeId == TYPE_BOOL then out == StrV(Lower(Strip(cell)))
    else typeId == TYPE_STRING && out == StrV(cell)
  }

  /** A decoded value, rendered, is what the cell exports as; a bool cell
      comes back as its stripped, lower-cased text. */
  lemma ExportedCell(typeId: nat, packDouble: Bytes -> Word64, cell: Bytes, x: Value)
    requires Represents(typeId, packDouble, cell, x) && (typeId == TYPE_BOOL ==> IsBoolText(cell))
    ensures Exported(typeId, packDouble, cell, Render(x))
  {
  }

  /** gpp_to_csv renders what read_gpp_file returns for every column. */
  lemma GppToCsvOf(file: Bytes, codec: Codec)
    requires ReadGpp(file, None, codec).Ok?
    ensures var (names, data, rowCount) := ReadGpp(file, None, codec).value;
      (forall name :: name in names ==> name in data && |data[name]| == rowCount) &&
      GppToCsv(file, codec) == Ok((names, CsvRows(names, data, rowCount)))
  {
    ReadGppShape(file, None, codec);
  }

  /** Every exported cell is what its source cell means under its column's type. */
  predicate ExportedBody(rows: seq<seq<Bytes>>, packDouble: Bytes -> Word64, body: seq<seq<Value>>)
    requires |rows| > 0 && forall i :: 1 <= i < |rows| ==> |rows[i]| == |rows[0]|
  {
    |body| < |rows| &&
    forall i, j :: 1 <= i <= |body| && 0 <= j < |rows[0]| ==>
      j < |body[i - 1]| && Exported(InferColumnType(ColumnOf(rows, j)), packDouble, rows[i][j], body[i - 1][j])
  }

  /** Rendering columns that represent the data rows exports each cell as its meaning. */
  lemma ExportRows(rows: seq<seq<Bytes>>, packDouble: Bytes -> Word64, data: map<Bytes, seq<Value>>, rowCount: nat)
    requires |rows| > 0 && (forall i :: 1 <= i < |rows| ==> |rows[i]| == |rows[0]|) && rowCount < |rows|
    requires forall name :: name in rows[0] ==> name in data && |data[name]| == rowCount
    requires forall j :: 0 <= j < |rows[0]| ==>
      RepresentsColumn(InferColumnType(ColumnOf(rows, j)), packDouble, ColumnOf(rows, j), data[rows[0][j]])
    ensures ExportedBody(rows, packDouble, CsvRows(rows[0], data, rowCount))
  {
    var names := rows[0];
    var body := CsvRows(names, data, rowCount);
    forall i, j | 1 <= i <= |body| && 0 <= j < |names|
      ensures j < |body[i - 1]| && Exported(InferColumnType(ColumnOf(rows, j)), packDouble, rows[i][j], body[i - 1][j])
    {
      ColumnCellExported(ColumnOf(rows, j), packDouble, data[names[j]], i - 1);
    }
  }

  /** A cell of a column, decoded and rendered, exports as its meaning under
      the column's inferred type. */
  lemma ColumnCellExported(column: seq<Bytes>, packDouble: Bytes -> Word64, values: seq<Value>, k: nat)
    requires RepresentsColumn(InferColumnType(column), packDouble, column, values) && k < |column|
    ensures Exported(InferColumnType(column), packDouble, column[k], Render(values[k]))
  {
    if InferColumnType(column) == TYPE_BOOL {
      assert AllBool(column);
    }
    ExportedCell(InferColumnType(column), packDouble, column[k], values[k]);
  }

  /** write_gpp_file then gpp_to_csv: the header row is the CSV header, there
      is one row per data row (none when the header is empty), and every cell
      is exported as what its source cell means under its column's type. */
  lemma WriteThenExport(rows: seq<seq<Bytes>>, codec: Codec, packDouble: Bytes -> Word64, file: Bytes)
    requires Lossless(codec) && WriteGpp(rows, codec, packDouble) == Ok(file)
    requires |rows| > 0 && Distinct(rows[0])
    ensures forall i :: 1 <= i < |rows| ==> |rows[i]| == |rows[0]|
    ensures GppToCsv(file, codec).Ok?
    ensures var (names, body) := GppToCsv(file, codec).value;
      names == rows[0] && |body| == (if |rows[0]| == 0 then 0 else |rows| - 1) &&
      ExportedBody(rows, packDouble, body)
  {
    var (header, columns) := CsvColumns(rows).value;
    GroupedColumns(rows, header, columns);
    WriteThenReadAll(rows, codec, packDouble, file);
    GppToCsvOf(file, codec);
    var (names, data, rowCount) := ReadGpp(file, None, codec).value;
    ExportRows(rows, packDouble, data, rowCount);
  }
}
