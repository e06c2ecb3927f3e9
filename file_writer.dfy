/** CSV to GPP (gpp_writer.read_csv_columns and write_gpp_file): the CSV rows
    grouped into columns by header name, each column typed, encoded and
    compressed, the blocks laid out after the header, and the file assembled. */
module FileWriter {
  import opened Wire
  import opened Format
  import opened Text
  import opened TypeInference
  import opened ColumnCodec
  import opened HeaderCodec

  // ===== read_csv_columns =====

  /** Every data row has as many cells as the header. */
  predicate Rectangular(header: seq<Bytes>, dataRows: seq<seq<Bytes>>)
  {
    forall i :: 0 <= i < |dataRows| ==> |dataRows[i]| == |header|
  }

  /** The cells of one row that sit under a header position called `name`, left to right. */
  function CellsNamed(header: seq<Bytes>, row: seq<Bytes>, name: Bytes): seq<Bytes>
    requires |row| == |header|
  {
    if |header| == 0 then []
    else
      var n := |header| - 1;
      CellsNamed(header[..n], row[..n], name) + (if header[n] == name then [row[n]] else [])
  }

  /** What `columns[name]` holds after the rows: each row's cells under `name`, row after row. */
  function ColumnCells(header: seq<Bytes>, dataRows: seq<seq<Bytes>>, name: Bytes): seq<Bytes>
    requires Rectangular(header, dataRows)
  {
    if |dataRows| == 0 then []
    else
      var n := |dataRows| - 1;
      ColumnCells(header, dataRows[..n], name) + CellsNamed(header, dataRows[n], name)
  }

  /** One row appended to the dict of lists: each cell goes to the end of the
      list of its header name, left to right. */
  function AddCells(columns: map<Bytes, seq<Bytes>>, header: seq<Bytes>, row: seq<Bytes>): (r: map<Bytes, seq<Bytes>>)
    requires |row| == |header| && forall name :: name in header ==> name in columns
    ensures forall name :: name in r <==> name in columns
  {
    if |header| == 0 then columns
    else
      var n := |header| - 1;
      var m := AddCells(columns, header[..n], row[..n]);
      m[header[n] := m[header[n]] + [row[n]]]
  }

  /** The dict of lists after the data rows, one key per distinct header name. */
  function Group(header: seq<Bytes>, dataRows: seq<seq<Bytes>>): (r: map<Bytes, seq<Bytes>>)
    requires Rectangular(header, dataRows)
    ensures forall name :: name in r <==> name in header
  {
    if |dataRows| == 0 then map name | name in header :: []
    else
      var n := |dataRows| - 1;
      AddCells(Group(header, dataRows[..n]), header, dataRows[n])
  }

  /** The first row is the header; an empty CSV and a row of another length are errors. */
  function CsvColumns(rows: seq<seq<Bytes>>): (r: Result<(seq<Bytes>, map<Bytes, seq<Bytes>>)>)
    ensures r.Ok? ==> |rows| > 0 && r.value.0 == rows[0] && Rectangular(rows[0], rows[1..])
    ensures r.Ok? ==> forall name :: name in r.value.1 <==> name in r.value.0
    ensures r.Err? <==> |rows| == 0 || exists i :: 1 <= i < |rows| && |rows[i]| != |rows[0]|
  {
    if |rows| == 0 then Err(EmptyCsv)
    else if !Rectangular(rows[0], rows[1..]) then Err(InconsistentRowLength)
    else Ok((rows[0], Group(rows[0], rows[1..])))
  }

  lemma CsvColumnsErrors(rows: seq<seq<Bytes>>)
    ensures |rows| == 0 ==> CsvColumns(rows) == Err(EmptyCsv)
    ensures |rows| > 0 && (exists i :: 1 <= i < |rows| && |rows[i]| != |rows[0]|) ==>
      CsvColumns(rows) == Err(InconsistentRowLength)
  {
  }

  /** The inner loop of read_csv_columns: each cell of one row appended to its name's list. */
  method AppendRow(columns: map<Bytes, seq<Bytes>>, header: seq<Bytes>, row: seq<Bytes>) returns (r: map<Bytes, seq<Bytes>>)
    requires |row| == |header| && forall name :: name in header ==> name in columns
    ensures r == AddCells(columns, header, row)
  {
    r := columns;
    var j := 0;
    while j < |header|
      invariant 0 <= j <= |header|
      invariant r == AddCells(columns, header[..j], row[..j])
    {
      assert header[..j + 1][..j] == header[..j];
      assert row[..j + 1][..j] == row[..j];
      r := r[header[j] := r[header[j]] + [row[j]]];
      j := j + 1;
    }
    assert header[..j] == header && row[..j] == row;
  }

  lemma RectangularPrefix(header: seq<Bytes>, dataRows: seq<seq<Bytes>>, i: nat)
    requires i <= |dataRows| && forall k :: 0 <= k < i ==> |dataRows[k]| == |header|
    ensures Rectangular(header, dataRows[..i])
  {
  }

  /** One more data row of the right length extends the grouping by that row. */
  lemma GroupNext(header: seq<Bytes>, dataRows: seq<seq<Bytes>>, i: nat)
    requires i < |dataRows| && forall k :: 0 <= k <= i ==> |dataRows[k]| == |header|
    ensures Rectangular(header, dataRows[..i]) && Rectangular(header, dataRows[..i + 1])
    ensures Group(header, dataRows[..i + 1]) == AddCells(Group(header, dataRows[..i]), header, dataRows[i])
  {
    RectangularPrefix(header, dataRows, i);
    RectangularPrefix(header, dataRows, i + 1);
    assert dataRows[..i + 1][..i] == dataRows[..i];
  }

  method ReadCsvColumns(rows: seq<seq<Bytes>>) returns (r: Result<(seq<Bytes>, map<Bytes, seq<Bytes>>)>)
    ensures r == CsvColumns(rows)
  {
    if |rows| == 0 {
      return Err(EmptyCsv);
    }
    var header := rows[0];
    var dataRows := rows[1..];
    var columns: map<Bytes, seq<Bytes>> := map name | name in header :: [];
    var i := 0;
    RectangularPrefix(header, dataRows, 0);
    while i < |dataRows|
      invariant 0 <= i <= |dataRows|
      invariant forall k :: 0 <= k < i ==> |dataRows[k]| == |header|
      invariant Rectangular(header, dataRows[..i]) && columns == Group(header, dataRows[..i])
    {
      var row := dataRows[i];
      if |row| != |header| {
        assert |rows[i + 1]| != |rows[0]|;
        return Err(InconsistentRowLength);
      }
      GroupNext(header, dataRows, i);
      columns := AppendRow(columns, header, row);
      i := i + 1;
    }
    assert dataRows[..i] == dataRows;
    return Ok((header, columns));
  }

  lemma {:induction false} AddCellsLookup(columns: map<Bytes, seq<Bytes>>, header: seq<Bytes>, row: seq<Bytes>, name: Bytes)
    requires |row| == |header| && forall k :: k in header ==> k in columns
    requires name in columns
    ensures AddCells(columns, header, row)[name] == columns[name] + CellsNamed(header, row, name)
  {
    if |header| > 0 {
      var n := |header| - 1;
      AddCellsLookup(columns, header[..n], row[..n], name);
    }
  }

  /** The list under each header name holds the cells under that name, row after row. */
  lemma {:induction false} GroupLookup(header: seq<Bytes>, dataRows: seq<seq<Bytes>>, name: Bytes)
    requires Rectangular(header, dataRows) && name in header
    ensures Group(header, dataRows)[name] == ColumnCells(header, dataRows, name)
  {
    if |dataRows| > 0 {
      var n := |dataRows| - 1;
      GroupLookup(header, dataRows[..n], name);
      AddCellsLookup(Group(header, dataRows[..n]), header, dataRows[n], name);
    }
  }

  /** How many header positions are called `name`. */
  function Count(header: seq<Bytes>, name: Bytes): nat
  {
    if |header| == 0 then 0
    else Count(header[..|header| - 1], name) + (if header[|header| - 1] == name then 1 else 0)
  }

  lemma {:induction false} CellsNamedLength(header: seq<Bytes>, row: seq<Bytes>, name: Bytes)
    requires |row| == |header|
    ensures |CellsNamed(header, row, name)| == Count(header, name)
  {
    if |header| > 0 {
      CellsNamedLength(header[..|header| - 1], row[..|row| - 1], name);
    }
  }

  /** Each row adds one cell per header position called `name`: a name that
      appears twice collects two cells per row. */
  lemma {:induction false} ColumnCellsLength(header: seq<Bytes>, dataRows: seq<seq<Bytes>>, name: Bytes)
    requires Rectangular(header, dataRows)
    ensures |ColumnCells(header, dataRows, name)| == |dataRows| * Count(header, name)
  {
    if |dataRows| > 0 {
      var n := |dataRows| - 1;
      ColumnCellsLength(header, dataRows[..n], name);
      CellsNamedLength(header, dataRows[n], name);
      assert |dataRows| * Count(header, name) == n * Count(header, name) + Count(header, name);
    }
  }

  lemma {:induction false} CellsNamedDistinct(header: seq<Bytes>, row: seq<Bytes>, j: nat)
    requires |row| == |header| && Distinct(header) && j < |header|
    ensures CellsNamed(header, row, header[j]) == [row[j]]
  {
    var n := |header| - 1;
    if j < n {
      CellsNamedDistinct(header[..n], row[..n], j);
    } else {
      CellsNamedAbsent(header[..n], row[..n], header[j]);
    }
  }

  lemma {:induction false} CellsNamedAbsent(header: seq<Bytes>, row: seq<Bytes>, name: Bytes)
    requires |row| == |header| && name !in header
    ensures CellsNamed(header, row, name) == []
  {
    if |header| > 0 {
      var n := |header| - 1;
      CellsNamedAbsent(header[..n], row[..n], name);
    }
  }

  /** With distinct header names, column j holds the j-th cell of every data row, in row order. */
  lemma {:induction false} DistinctColumns(header: seq<Bytes>, dataRows: seq<seq<Bytes>>, j: nat)
    requires Rectangular(header, dataRows) && Distinct(header) && j < |header|
    ensures ColumnCells(header, dataRows, header[j]) == seq(|dataRows|, i requires 0 <= i < |dataRows| => dataRows[i][j])
  {
    if |dataRows| > 0 {
      var n := |dataRows| - 1;
      DistinctColumns(header, dataRows[..n], j);
      CellsNamedDistinct(header, dataRows[n], j);
      var whole := seq(|dataRows|, i requires 0 <= i < |dataRows| => dataRows[i][j]);
      var front := seq(n, i requires 0 <= i < n => dataRows[..n][i][j]);
      assert whole == front + [dataRows[n][j]];
    }
  }

  // ===== write_gpp_file =====

  /** row_count: the length of the list of the first name inserted, 0 when the header is empty. */
  function RowCount(header: seq<Bytes>, columns: map<Bytes, seq<Bytes>>): nat
    requires forall name :: name in columns <==> name in header
  {
    if |header| == 0 then 0 else |columns[header[0]]|
  }

  /** The row count is the number of data rows times how often the first name
      is repeated: exactly the number of data rows when names are distinct. */
  lemma RowCountOfRows(rows: seq<seq<Bytes>>)
    requires CsvColumns(rows).Ok?
    ensures var (header, columns) := CsvColumns(rows).value;
      |header| > 0 ==> RowCount(header, columns) == (|rows| - 1) * Count(header, header[0])
    ensures var (header, columns) := CsvColumns(rows).value;
      Distinct(header) ==> RowCount(header, columns) == if |header| == 0 then 0 else |rows| - 1
  {
    var (header, columns) := CsvColumns(rows).value;
    if |header| > 0 {
      GroupLookup(header, rows[1..], header[0]);
      ColumnCellsLength(header, rows[1..], header[0]);
      if Distinct(header) {
        DistinctColumns(header, rows[1..], 0);
      }
    }
  }

  /** One column of the first pass: type inferred, buffer built and compressed,
      metadata recorded with offset 0. */
  function EncodeColumn(name: Bytes, values: seq<Bytes>, codec: Codec, packDouble: Bytes -> Word64): (r: Result<(ColumnMeta, Bytes)>)
    ensures r.Ok? ==> r.value.0.name == name && r.value.0.dataOffset == 0 && r.value.0.compressedSize == |r.value.1|
  {
    var typeId := InferColumnType(values);
    var uncompressed :- ColumnBuffer(values, typeId, packDouble);
    var compressed := codec.compress(uncompressed);
    Ok((ColumnMeta(name, typeId, 0, |compressed|, |uncompressed|), compressed))
  }

  function EncodeWith(codec: Codec, packDouble: Bytes -> Word64): (f: ((Bytes, seq<Bytes>)) -> Result<(ColumnMeta, Bytes)>)
    ensures forall c :: f(c) == EncodeColumn(c.0, c.1, codec, packDouble)
  {
    (c: (Bytes, seq<Bytes>)) => EncodeColumn(c.0, c.1, codec, packDouble)
  }

  /** The columns in header order, each with its values. */
  function Named(header: seq<Bytes>, columns: map<Bytes, seq<Bytes>>): (cs: seq<(Bytes, seq<Bytes>)>)
    requires forall name :: name in header ==> name in columns
    ensures |cs| == |header|
  {
    seq(|header|, j requires 0 <= j < |header| => (header[j], columns[header[j]]))
  }

  function Metas(encoded: seq<(ColumnMeta, Bytes)>): (ms: seq<ColumnMeta>)
    ensures |ms| == |encoded|
  {
    seq(|encoded|, i requires 0 <= i < |encoded| => encoded[i].0)
  }

  function Blocks(encoded: seq<(ColumnMeta, Bytes)>): (bs: seq<Bytes>)
    ensures |bs| == |encoded|
  {
    seq(|encoded|, i requires 0 <= i < |encoded| => encoded[i].1)
  }

  /** The first pass over the columns, in header order. */
  function EncodeColumns(header: seq<Bytes>, columns: map<Bytes, seq<Bytes>>, codec: Codec, packDouble: Bytes -> Word64): Result<seq<(ColumnMeta, Bytes)>>
    requires forall name :: name in header ==> name in columns
  {
    MapAll(Named(header, columns), EncodeWith(codec, packDouble))
  }

  /** Entry j of the first pass encodes the column named header[j]. */
  lemma EncodedColumn(header: seq<Bytes>, columns: map<Bytes, seq<Bytes>>, codec: Codec, packDouble: Bytes -> Word64, j: nat)
    requires forall name :: name in header ==> name in columns
    requires EncodeColumns(header, columns, codec, packDouble).Ok? && j < |header|
    ensures |EncodeColumns(header, columns, codec, packDouble).value| == |header|
    ensures Ok(EncodeColumns(header, columns, codec, packDouble).value[j]) ==
      EncodeColumn(header[j], columns[header[j]], codec, packDouble)
  {
    var named := Named(header, columns);
    var encoded := EncodeColumns(header, columns, codec, packDouble).value;
    assert EncodeWith(codec, packDouble)(named[j]) == Ok(encoded[j]);
  }

  /** Each entry of the first pass carries its header name and the length of
      its block; two entries for the same name are identical. */
  lemma EncodedColumns(header: seq<Bytes>, columns: map<Bytes, seq<Bytes>>, codec: Codec, packDouble: Bytes -> Word64)
    requires forall name :: name in header ==> name in columns
    requires EncodeColumns(header, columns, codec, packDouble).Ok?
    ensures var encoded := EncodeColumns(header, columns, codec, packDouble).value;
      |encoded| == |header| &&
      (forall j :: 0 <= j < |header| ==> encoded[j].0.name == header[j] && encoded[j].0.compressedSize == |encoded[j].1|) &&
      (forall i, j :: 0 <= i < |header| && 0 <= j < |header| && header[i] == header[j] ==> encoded[i] == encoded[j])
  {
    var encoded := EncodeColumns(header, columns, codec, packDouble).value;
    forall j | 0 <= j < |header|
      ensures encoded[j].0.name == header[j] && encoded[j].0.compressedSize == |encoded[j].1|
    {
      EncodedColumn(header, columns, codec, packDouble, j);
    }
    forall i, j | 0 <= i < |header| && 0 <= j < |header| && header[i] == header[j]
      ensures encoded[i] == encoded[j]
    {
      EncodedColumn(header, columns, codec, packDouble, i);
      EncodedColumn(header, columns, codec, packDouble, j);
    }
  }

  /** compressed_buffers[meta.name] for each metadata entry, in order. */
  function Lookups(buffers: map<Bytes, Bytes>, metas: seq<ColumnMeta>): (bs: seq<Bytes>)
    requires forall k :: 0 <= k < |metas| ==> metas[k].name in buffers
    ensures |bs| == |metas|
  {
    seq(|metas|, k requires 0 <= k < |metas| => buffers[metas[k].name])
  }

  /** The bytes write_gpp_file puts in the output file for the grouped
      columns: the header, then for each metadata entry the compressed buffer
      stored under its name. */
  function FileBytes(header: seq<Bytes>, columns: map<Bytes, seq<Bytes>>, codec: Codec, packDouble: Bytes -> Word64): Result<Bytes>
    requires forall name :: name in columns <==> name in header
  {
    var encoded :- EncodeColumns(header, columns, codec, packDouble);
    var metas := LayOut(Metas(encoded), HeaderSize(Metas(encoded)));
    var headerBytes :- SerializeHeader(RowCount(header, columns), metas);
    EncodedColumns(header, columns, codec, packDouble);
    LastWinsKeys(header, Blocks(encoded));
    Ok(headerBytes + Concat(Lookups(LastWins(header, Blocks(encoded)), metas)))
  }

  /** The bytes write_gpp_file puts in the output file. */
  function WriteGpp(rows: seq<seq<Bytes>>, codec: Codec, packDouble: Bytes -> Word64): Result<Bytes>
  {
    var (header, columns) :- CsvColumns(rows);
    FileBytes(header, columns, codec, packDouble)
  }

  /** The first pass of write_gpp_file: for each header name, infer, build, compress. */
  method EncodeAll(header: seq<Bytes>, columns: map<Bytes, seq<Bytes>>, codec: Codec, packDouble: Bytes -> Word64)
    returns (r: Result<seq<(ColumnMeta, Bytes)>>)
    requires forall name :: name in header ==> name in columns
    ensures r == EncodeColumns(header, columns, codec, packDouble)
  {
    ghost var named := Named(header, columns);
    ghost var encode := EncodeWith(codec, packDouble);
    var encoded: seq<(ColumnMeta, Bytes)> := [];
    var j := 0;
    while j < |header|
      invariant 0 <= j <= |header|
      invariant MapAll(named[..j], encode) == Ok(encoded)
    {
      var name := header[j];
      var values := columns[name];
      var typeId := InferColumnType(values);
      var uncompressed := BuildColumnBuffer(values, typeId, packDouble);
      if uncompressed.Err? {
        assert encode(named[j]).Err?;
        MapAllStop(named, encode, j, encoded);
        return Err(uncompressed.error);
      }
      var compressed := codec.compress(uncompressed.value);
      var meta := ColumnMeta(name, typeId, 0, |compressed|, |uncompressed.value|);
      assert encode(named[j]) == Ok((meta, compressed));
      MapAllStep(named, encode, j, encoded);
      encoded := encoded + [(meta, compressed)];
      j := j + 1;
    }
    assert named[..j] == named;
    return Ok(encoded);
  }

  /** The second loop of write_gpp_file: the buffer of each metadata entry, in order. */
  method AppendBlocks(out: Bytes, buffers: map<Bytes, Bytes>, metas: seq<ColumnMeta>) returns (r: Bytes)
    requires forall k :: 0 <= k < |metas| ==> metas[k].name in buffers
    ensures r == out + Concat(Lookups(buffers, metas))
  {
    var written := Lookups(buffers, metas);
    r := out;
    var k := 0;
    while k < |metas|
      invariant 0 <= k <= |metas|
      invariant r == out + Concat(written[..k])
    {
      assert written[..k + 1][..k] == written[..k];
      r := r + buffers[metas[k].name];
      k := k + 1;
    }
    assert written[..k] == written;
  }

  /** Every entry laid out has its buffer stored under its name. */
  lemma PlacedNamesStored(header: seq<Bytes>, encoded: seq<(ColumnMeta, Bytes)>, start: nat)
    requires |encoded| == |header| && forall j :: 0 <= j < |header| ==> encoded[j].0.name == header[j]
    ensures forall k :: 0 <= k < |LayOut(Metas(encoded), start)| ==>
      LayOut(Metas(encoded), start)[k].name in LastWins(header, Blocks(encoded))
  {
    LastWinsKeys(header, Blocks(encoded));
    var placed := LayOut(Metas(encoded), start);
    forall k | 0 <= k < |placed|
      ensures placed[k].name in LastWins(header, Blocks(encoded))
    {
      assert placed[k].name == header[k];
    }
  }

  /** write_gpp_file after the CSV is read: first pass, header size, offsets,
      header, then the blocks. */
  method WriteColumns(header: seq<Bytes>, columns: map<Bytes, seq<Bytes>>, codec: Codec, packDouble: Bytes -> Word64) returns (r: Result<Bytes>)
    requires forall name :: name in columns <==> name in header
    ensures r == FileBytes(header, columns, codec, packDouble)
  {
    var rowCount := if |header| == 0 then 0 else |columns[header[0]]|;
    var pass := EncodeAll(header, columns, codec, packDouble);
    if pass.Err? {
      return Err(pass.error);
    }
    var encoded := pass.value;
    EncodedColumns(header, columns, codec, packDouble);
    var metas := Metas(encoded);
    var buffers := LastWins(header, Blocks(encoded));
    var headerSize := ComputeHeaderSize(metas);
    PlacedNamesStored(header, encoded, headerSize);
    var placed := AssignOffsets(metas, headerSize);
    var headerBytes := BuildHeader(rowCount, placed);
    if headerBytes.Err? {
      return Err(headerBytes.error);
    }
    var out := AppendBlocks(headerBytes.value, buffers, placed);
    return Ok(out);
  }

  /** write_gpp_file: the CSV grouped into columns, then written. */
  method WriteGppFile(rows: seq<seq<Bytes>>, codec: Codec, packDouble: Bytes -> Word64) returns (r: Result<Bytes>)
    ensures r == WriteGpp(rows, codec, packDouble)
  {
    var csv := ReadCsvColumns(rows);
    if csv.Err? {
      return Err(csv.error);
    }
    var (header, columns) := csv.value;
    r := WriteColumns(header, columns, codec, packDouble);
  }

  // ===== properties of the written file =====

  /** Whatever the inferred type, building its buffer can fail only because a
      value does not fit its field: an integer outside int32, or string data
      of 4 GiB or more. */
  lemma InferredTypeEncodes(values: seq<Bytes>, packDouble: Bytes -> Word64)
    ensures ColumnBuffer(values, InferColumnType(values), packDouble).Ok? ||
      ColumnBuffer(values, InferColumnType(values), packDouble) == Err(PackOutOfRange)
  {
    var t := InferColumnType(values);
    if t == TYPE_BOOL {
      BoolBufferAccepts(values);
    } else if t == TYPE_INT32 {
      IntegersPackOrOverflow(values);
    } else if t == TYPE_FLOAT64 {
      Float64BufferLayout(values, packDouble);
    } else {
      OffsetsPackOrOverflow(values);
    }
  }

  /** Integer literals pack unless one is outside the int32 range. */
  lemma IntegersPackOrOverflow(values: seq<Bytes>)
    requires AllInt(values)
    ensures Int32Buffer(values).Ok? || Int32Buffer(values) == Err(PackOutOfRange)
  {
    var r := MapAll(values, Int32Cell);
    if r.Err? {
      var i :| 0 <= i < |values| && Int32Cell(values[i]) == Err(r.error);
      assert IsIntLiteral(Strip(values[i]));
    }
  }

  /** String offsets pack unless one reaches 4 GiB. */
  lemma OffsetsPackOrOverflow(values: seq<Bytes>)
    ensures StringBuffer(values).Ok? || StringBuffer(values) == Err(PackOutOfRange)
  {
    var r := MapAll(StringOffsets(values), U32Cell);
    if r.Err? {
      var i :| 0 <= i < |StringOffsets(values)| && U32Cell(StringOffsets(values)[i]) == Err(r.error);
    }
  }


  /** Inference has no int32 range check: a lone integer literal of at most
      INT_MAX_STR_DIGITS digits outside the int32 range makes an INT32 column
      whose buffer cannot be built. */
  lemma NoRangeCheckAtInference(v: Bytes, packDouble: Bytes -> Word64)
    requires IsIntLiteral(Strip(v)) && !InInt32Range(ParseInt(Strip(v)))
    ensures InferColumnType([v]) == TYPE_INT32
    ensures ColumnBuffer([v], TYPE_INT32, packDouble) == Err(PackOutOfRange)
  {
    var col := [v];
    assert col[0] == v;
    LoneIntegerIsInt32(v);
    assert Int32Cell(v) == Err(PackOutOfRange);
    MapAllFirstFailure(col, Int32Cell, 0);
  }

  /** An integer text too long for `int()` turns its column into FLOAT64, and
      that column's buffer builds. */
  lemma LongIntegerEncodesAsFloat64(values: seq<Bytes>, i: nat, packDouble: Bytes -> Word64)
    requires i < |values|
    requires forall k :: 0 <= k < |values| ==> IsSignedDigits(Strip(values[k]))
    requires |DropSign(Strip(values[i]))| > INT_MAX_STR_DIGITS
    ensures InferColumnType(values) == TYPE_FLOAT64
    ensures ColumnBuffer(values, TYPE_FLOAT64, packDouble).Ok?
  {
    LongIntegerIsFloat64(values, i);
    Float64BufferLayout(values, packDouble);
    assert Float64Buffer(values, packDouble).Ok?;
  }

  /** Looking the blocks up by name gives them back in order, because two
      positions with the same name hold the same block. */
  lemma BuffersInOrder(header: seq<Bytes>, blocks: seq<Bytes>, metas: seq<ColumnMeta>)
    requires |header| == |blocks| == |metas|
    requires forall k :: 0 <= k < |metas| ==> metas[k].name == header[k]
    requires forall i, j :: 0 <= i < |header| && 0 <= j < |header| && header[i] == header[j] ==> blocks[i] == blocks[j]
    ensures forall k :: 0 <= k < |metas| ==> metas[k].name in LastWins(header, blocks)
    ensures Lookups(LastWins(header, blocks), metas) == blocks
  {
    LastWinsKeys(header, blocks);
    forall k | 0 <= k < |metas|
      ensures LastWins(header, blocks)[metas[k].name] == blocks[k]
    {
      var l := LastOccurrence(header, k);
      LastWinsLookup(header, blocks, l);
    }
  }

  lemma {:induction false} SameNamesSameSize(a: seq<ColumnMeta>, b: seq<ColumnMeta>)
    requires |a| == |b| && forall i :: 0 <= i < |a| ==> a[i].name == b[i].name
    ensures SumRecordSizes(a) == SumRecordSizes(b)
  {
    if |a| > 0 {
      SameNamesSameSize(a[..|a| - 1], b[..|b| - 1]);
    }
  }

  /** Block j of `headerBytes + Concat(blocks)` lies where LayOut puts it. */
  lemma BlockAtOffset(headerBytes: Bytes, blocks: seq<Bytes>, ms: seq<ColumnMeta>, j: nat)
    requires |ms| == |blocks| && j < |ms|
    requires forall i :: 0 <= i < |ms| ==> ms[i].compressedSize == |blocks[i]|
    ensures var placed := LayOut(ms, |headerBytes|)[j];
      placed.dataOffset + placed.compressedSize <= |headerBytes + Concat(blocks)| &&
      (headerBytes + Concat(blocks))[placed.dataOffset..placed.dataOffset + placed.compressedSize] == blocks[j]
  {
    var size := |headerBytes|;
    var file := headerBytes + Concat(blocks);
    SumIsLength(ms, blocks, j);
    ConcatBlock(blocks, j);
    var p := |Concat(blocks[..j])|;
    assert file[size + p..size + p + |blocks[j]|] == Concat(blocks)[p..p + |blocks[j]|];
  }

  /** Each block sits in `file` at the offset and size its metadata entry records. */
  predicate BlocksAt(file: Bytes, placed: seq<ColumnMeta>, blocks: seq<Bytes>)
  {
    |placed| == |blocks| &&
    forall j :: 0 <= j < |placed| ==>
      placed[j].dataOffset + placed[j].compressedSize <= |file| &&
      file[placed[j].dataOffset..placed[j].dataOffset + placed[j].compressedSize] == blocks[j]
  }

  lemma BlocksAtOffsets(headerBytes: Bytes, blocks: seq<Bytes>, ms: seq<ColumnMeta>)
    requires |ms| == |blocks|
    requires forall i :: 0 <= i < |ms| ==> ms[i].compressedSize == |blocks[i]|
    ensures BlocksAt(headerBytes + Concat(blocks), LayOut(ms, |headerBytes|), blocks)
  {
    forall j | 0 <= j < |ms|
      ensures var placed := LayOut(ms, |headerBytes|)[j];
        placed.dataOffset + placed.compressedSize <= |headerBytes + Concat(blocks)| &&
        (headerBytes + Concat(blocks))[placed.dataOffset..placed.dataOffset + placed.compressedSize] == blocks[j]
    {
      BlockAtOffset(headerBytes, blocks, ms, j);
    }
  }

  /** The intermediate results of write_gpp_file, named. */
  ghost predicate WriteSteps(header: seq<Bytes>, columns: map<Bytes, seq<Bytes>>, codec: Codec, packDouble: Bytes -> Word64,
                       encoded: seq<(ColumnMeta, Bytes)>, headerBytes: Bytes)
  {
    (forall name :: name in columns <==> name in header) &&
    EncodeColumns(header, columns, codec, packDouble) == Ok(encoded) &&
    SerializeHeader(RowCount(header, columns), LayOut(Metas(encoded), HeaderSize(Metas(encoded)))) == Ok(headerBytes)
  }

  /** The serialized header is as long as the header size the offsets start from. */
  lemma WrittenHeaderLength(header: seq<Bytes>, columns: map<Bytes, seq<Bytes>>, codec: Codec, packDouble: Bytes -> Word64,
                            encoded: seq<(ColumnMeta, Bytes)>, headerBytes: Bytes)
    requires WriteSteps(header, columns, codec, packDouble, encoded, headerBytes)
    ensures |headerBytes| == HeaderSize(Metas(encoded))
  {
    var ms := Metas(encoded);
    var metas := LayOut(ms, HeaderSize(ms));
    SerializedHeaderSize(RowCount(header, columns), metas);
    SameNamesSameSize(metas, ms);
  }

  /** Block j lies at the data offset its metadata records, right after block j - 1. */
  lemma WrittenLayout(header: seq<Bytes>, columns: map<Bytes, seq<Bytes>>, codec: Codec, packDouble: Bytes -> Word64,
                      encoded: seq<(ColumnMeta, Bytes)>, headerBytes: Bytes)
    requires WriteSteps(header, columns, codec, packDouble, encoded, headerBytes)
    ensures BlocksAt(headerBytes + Concat(Blocks(encoded)), LayOut(Metas(encoded), HeaderSize(Metas(encoded))), Blocks(encoded))
  {
    WrittenHeaderLength(header, columns, codec, packDouble, encoded, headerBytes);
    EncodedColumns(header, columns, codec, packDouble);
    BlocksAtOffsets(headerBytes, Blocks(encoded), Metas(encoded));
  }

  /** The output is the serialized header followed by the blocks in header order. */
  lemma WrittenBlocks(header: seq<Bytes>, columns: map<Bytes, seq<Bytes>>, codec: Codec, packDouble: Bytes -> Word64,
                      encoded: seq<(ColumnMeta, Bytes)>, headerBytes: Bytes)
    requires WriteSteps(header, columns, codec, packDouble, encoded, headerBytes)
    ensures FileBytes(header, columns, codec, packDouble) == Ok(headerBytes + Concat(Blocks(encoded)))
  {
    EncodedColumns(header, columns, codec, packDouble);
    EncodedInOrder(header, encoded, HeaderSize(Metas(encoded)));
  }

  /** The blocks of the first pass, looked up by the names of the laid-out
      entries, come back in header order. */
  lemma EncodedInOrder(header: seq<Bytes>, encoded: seq<(ColumnMeta, Bytes)>, start: nat)
    requires |encoded| == |header| && forall j :: 0 <= j < |header| ==> encoded[j].0.name == header[j]
    requires forall i, j :: 0 <= i < |header| && 0 <= j < |header| && header[i] == header[j] ==> encoded[i] == encoded[j]
    ensures forall k :: 0 <= k < |LayOut(Metas(encoded), start)| ==>
      LayOut(Metas(encoded), start)[k].name in LastWins(header, Blocks(encoded))
    ensures Lookups(LastWins(header, Blocks(encoded)), LayOut(Metas(encoded), start)) == Blocks(encoded)
  {
    var blocks := Blocks(encoded);
    var placed := LayOut(Metas(encoded), start);
    assert forall k :: 0 <= k < |placed| ==> placed[k].name == header[k];
    forall i, j | 0 <= i < |header| && 0 <= j < |header| && header[i] == header[j]
      ensures blocks[i] == blocks[j]
    {
      assert encoded[i] == encoded[j];
    }
    BuffersInOrder(header, blocks, placed);
  }

  lemma {:induction false} SumIsLength(ms: seq<ColumnMeta>, blocks: seq<Bytes>, j: nat)
    requires |ms| == |blocks| && j <= |ms|
    requires forall i :: 0 <= i < |ms| ==> ms[i].compressedSize == |blocks[i]|
    ensures SumCompressed(ms[..j]) == |Concat(blocks[..j])|
  {
    if j > 0 {
      SumIsLength(ms, blocks, j - 1);
      assert ms[..j][..j - 1] == ms[..j - 1];
      assert blocks[..j][..j - 1] == blocks[..j - 1];
    }
  }
}
