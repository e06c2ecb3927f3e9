/** GPP to values (gpp_reader.read_gpp_file and gpp_to_csv): the header
    parsed, the requested columns selected by name, each block read at its
    offset, decompressed, size-checked and decoded. */
module FileReader {
  import opened Wire
  import opened Format
  import opened Text
  import opened ColumnCodec
  import opened HeaderCodec

  /** The column names in header order, duplicates kept. */
  function Names(columns: seq<ColumnMeta>): (ns: seq<Bytes>)
    ensures |ns| == |columns|
    ensures forall i :: 0 <= i < |columns| ==> ns[i] == columns[i].name
  {
    seq(|columns|, i requires 0 <= i < |columns| => columns[i].name)
  }

  /** meta_by_name: a dict from name to metadata, the last entry of a name winning. */
  function MetaByName(columns: seq<ColumnMeta>): map<Bytes, ColumnMeta>
  {
    LastWins(Names(columns), columns)
  }

  /** The dict holds every header name, each under its own name, and a
      duplicated name maps to its last metadata entry. */
  lemma MetaByNameLookup(columns: seq<ColumnMeta>, k: nat)
    requires k < |columns| && forall j :: k < j < |columns| ==> columns[j].name != columns[k].name
    ensures columns[k].name in MetaByName(columns) && MetaByName(columns)[columns[k].name] == columns[k]
  {
    LastWinsLookup(Names(columns), columns, k);
  }

  lemma MetaByNameKeys(columns: seq<ColumnMeta>)
    ensures forall name :: name in MetaByName(columns) <==> name in Names(columns)
    ensures forall name :: name in MetaByName(columns) ==> MetaByName(columns)[name].name == name
  {
    LastWinsKeys(Names(columns), columns);
    forall name | name in MetaByName(columns)
      ensures MetaByName(columns)[name].name == name
    {
      var i :| 0 <= i < |Names(columns)| && Names(columns)[i] == name;
      var l := LastOccurrence(Names(columns), i);
      LastWinsLookup(Names(columns), columns, l);
    }
  }

  // ===== column selection =====

  function CheckName(metas: map<Bytes, ColumnMeta>, name: Bytes): Result<Bytes>
  {
    if name in metas then Ok(name) else Err(ColumnNotFound(name))
  }

  function CheckNameIn(metas: map<Bytes, ColumnMeta>): (f: Bytes -> Result<Bytes>)
    ensures forall name :: f(name) == CheckName(metas, name)
  {
    name => CheckName(metas, name)
  }

  /** read_names: every header name when none are requested; otherwise the
      requested names in the requested order, the first unknown one an error. */
  function SelectNames(metas: map<Bytes, ColumnMeta>, headerNames: seq<Bytes>, requested: Option<seq<Bytes>>): (r: Result<seq<Bytes>>)
    ensures requested.None? ==> r == Ok(headerNames)
    ensures requested.Some? ==> (r.Ok? <==> forall i :: 0 <= i < |requested.value| ==> requested.value[i] in metas)
    ensures requested.Some? && r.Ok? ==> r.value == requested.value
    ensures requested.Some? && r.Err? ==>
      exists i :: 0 <= i < |requested.value| && requested.value[i] !in metas &&
        r.error == ColumnNotFound(requested.value[i]) &&
        forall j :: 0 <= j < i ==> requested.value[j] in metas
  {
    match requested
    case None => Ok(headerNames)
    case Some(names) =>
      var checked := MapAll(names, CheckNameIn(metas));
      assert checked.Ok? ==> checked.value == names;
      checked
  }

  // ===== reading one column =====

  /** f.seek(offset); f.read(size): the bytes from the offset, as many as the file holds up to size. */
  function ReadAt(file: Bytes, offset: nat, size: nat): (r: Bytes)
    ensures |r| <= size
    ensures offset + size <= |file| ==> r == file[offset..offset + size]
    ensures |r| == size <==> offset + size <= |file| || size == 0
  {
    PySlice(file, offset, offset + size)
  }

  /** One iteration of the read loop: a short read, a block that does not
      inflate and a wrong uncompressed size are each reported before any
      decoding, in that order. */
  function ReadColumn(file: Bytes, name: Bytes, meta: ColumnMeta, rowCount: nat, codec: Codec): (r: Result<seq<Value>>)
    ensures |ReadAt(file, meta.dataOffset, meta.compressedSize)| != meta.compressedSize ==> r == Err(EofColumn(name))
    ensures |ReadAt(file, meta.dataOffset, meta.compressedSize)| == meta.compressedSize ==>
      var inflated := codec.decompress(ReadAt(file, meta.dataOffset, meta.compressedSize));
      (inflated.None? ==> r == Err(DecompressFailed(name))) &&
      (inflated.Some? && |inflated.value| != meta.uncompressedSize ==> r == Err(UncompressedSizeMismatch(name))) &&
      (inflated.Some? && |inflated.value| == meta.uncompressedSize ==> r == DecodeColumn(inflated.value, meta.typeId, rowCount))
  {
    var comp := ReadAt(file, meta.dataOffset, meta.compressedSize);
    if |comp| != meta.compressedSize then Err(EofColumn(name))
    else match codec.decompress(comp)
      case None => Err(DecompressFailed(name))
      case Some(uncompressed) =>
        if |uncompressed| != meta.uncompressedSize then Err(UncompressedSizeMismatch(name))
        else DecodeColumn(uncompressed, meta.typeId, rowCount)
  }

  /** meta_by_name[name] and then the read; a name missing from the dict is a KeyError. */
  function ReadNamed(file: Bytes, metas: map<Bytes, ColumnMeta>, name: Bytes, rowCount: nat, codec: Codec): Result<seq<Value>>
  {
    if name in metas then ReadColumn(file, name, metas[name], rowCount, codec)
    else Err(ColumnNotFound(name))
  }

  function ReadNamedFrom(file: Bytes, metas: map<Bytes, ColumnMeta>, rowCount: nat, codec: Codec): (f: Bytes -> Result<seq<Value>>)
    ensures forall name :: f(name) == ReadNamed(file, metas, name, rowCount, codec)
  {
    name => ReadNamed(file, metas, name, rowCount, codec)
  }

  // ===== read_gpp_file =====

  /** read_gpp_file after the header is parsed: the names to read, then each
      column read in turn and stored under its name. */
  function ReadFrom(file: Bytes, header: FileHeader, requested: Option<seq<Bytes>>, codec: Codec): Result<(seq<Bytes>, map<Bytes, seq<Value>>, nat)>
  {
    var metas := MetaByName(header.columns);
    var names :- SelectNames(metas, Names(header.columns), requested);
    var values :- MapAll(names, ReadNamedFrom(file, metas, header.rowCount, codec));
    Ok((names, LastWins(names, values), header.rowCount))
  }

  /** read_gpp_file: (read_names, result_data, row_count). */
  function ReadGpp(file: Bytes, requested: Option<seq<Bytes>>, codec: Codec): Result<(seq<Bytes>, map<Bytes, seq<Value>>, nat)>
  {
    var (header, _) :- ReadHeader(file);
    ReadFrom(file, header, requested, codec)
  }

  /** The dict loop building meta_by_name. */
  method BuildMetaByName(columns: seq<ColumnMeta>) returns (metas: map<Bytes, ColumnMeta>)
    ensures metas == MetaByName(columns)
  {
    metas := map[];
    var i := 0;
    while i < |columns|
      invariant 0 <= i <= |columns|
      invariant metas == LastWins(Names(columns)[..i], columns[..i])
    {
      assert Names(columns)[..i + 1][..i] == Names(columns)[..i];
      assert columns[..i + 1][..i] == columns[..i];
      metas := metas[columns[i].name := columns[i]];
      i := i + 1;
    }
    assert Names(columns)[..i] == Names(columns) && columns[..i] == columns;
  }

  /** The loop validating the requested names. */
  method SelectColumns(metas: map<Bytes, ColumnMeta>, headerNames: seq<Bytes>, requested: Option<seq<Bytes>>) returns (r: Result<seq<Bytes>>)
    ensures r == SelectNames(metas, headerNames, requested)
  {
    if requested.None? {
      return Ok(headerNames);
    }
    var names := requested.value;
    var readNames: seq<Bytes> := [];
    var i := 0;
    while i < |names|
      invariant 0 <= i <= |names|
      invariant readNames == names[..i]
      invariant forall j :: 0 <= j < i ==> names[j] in metas
    {
      if names[i] !in metas {
        return Err(ColumnNotFound(names[i]));
      }
      readNames := readNames + [names[i]];
      i := i + 1;
    }
    assert names[..i] == names;
    return Ok(readNames);
  }

  /** The body of the read loop for one name. */
  method ReadOne(file: Bytes, name: Bytes, meta: ColumnMeta, rowCount: nat, codec: Codec) returns (r: Result<seq<Value>>)
    ensures r == ReadColumn(file, name, meta, rowCount, codec)
  {
    var comp := ReadAt(file, meta.dataOffset, meta.compressedSize);
    if |comp| != meta.compressedSize {
      return Err(EofColumn(name));
    }
    var inflated := codec.decompress(comp);
    if inflated.None? {
      return Err(DecompressFailed(name));
    }
    var uncompressed := inflated.value;
    if |uncompressed| != meta.uncompressedSize {
      return Err(UncompressedSizeMismatch(name));
    }
    r := DecodeColumnUncompressed(uncompressed, meta.typeId, rowCount);
  }

  /** The read loop: each name in order, its values stored under it in result_data. */
  method ReadSelected(file: Bytes, metas: map<Bytes, ColumnMeta>, names: seq<Bytes>, rowCount: nat, codec: Codec)
    returns (r: Result<map<Bytes, seq<Value>>>)
    requires forall i :: 0 <= i < |names| ==> names[i] in metas
    ensures MapAll(names, ReadNamedFrom(file, metas, rowCount, codec)).Ok? <==> r.Ok?
    ensures r.Ok? ==> r.value == LastWins(names, MapAll(names, ReadNamedFrom(file, metas, rowCount, codec)).value)
    ensures r.Err? ==> r.error == MapAll(names, ReadNamedFrom(file, metas, rowCount, codec)).error
  {
    ghost var read := ReadNamedFrom(file, metas, rowCount, codec);
    ghost var values: seq<seq<Value>> := [];
    var data: map<Bytes, seq<Value>> := map[];
    var i := 0;
    while i < |names|
      invariant 0 <= i <= |names|
      invariant MapAll(names[..i], read) == Ok(values)
      invariant data == LastWins(names[..i], values)
    {
      var name := names[i];
      var column := ReadOne(file, name, metas[name], rowCount, codec);
      assert read(name) == column;
      if column.Err? {
        MapAllStop(names, read, i, values);
        return Err(column.error);
      }
      MapAllStep(names, read, i, values);
      LastWinsStep(names, values, i, column.value);
      data := data[name := column.value];
      values := values + [column.value];
      i := i + 1;
    }
    assert names[..i] == names;
    return Ok(data);
  }

  /** read_gpp_file: header, meta_by_name, read_names, then the read loop. */
  method ReadGppFile(file: Bytes, requested: Option<seq<Bytes>>, codec: Codec)
    returns (r: Result<(seq<Bytes>, map<Bytes, seq<Value>>, nat)>)
    ensures r == ReadGpp(file, requested, codec)
  {
    var fixed := ReadFixedHeader(file);
    if fixed.Err? {
      return Err(fixed.error);
    }
    var (rowCount, columnCount) := fixed.value;
    var parsed := ReadColumnMetadata(file[FIXED_HEADER_SIZE..], columnCount);
    if parsed.Err? {
      return Err(parsed.error);
    }
    r := ReadColumnsOf(file, FileHeader(rowCount, columnCount, parsed.value.0), requested, codec);
  }

  /** read_gpp_file after read_header: meta_by_name, read_names, then the read loop. */
  method ReadColumnsOf(file: Bytes, header: FileHeader, requested: Option<seq<Bytes>>, codec: Codec)
    returns (r: Result<(seq<Bytes>, map<Bytes, seq<Value>>, nat)>)
    ensures r == ReadFrom(file, header, requested, codec)
  {
    var metas := BuildMetaByName(header.columns);
    var names := SelectColumns(metas, Names(header.columns), requested);
    if names.Err? {
      return Err(names.error);
    }
    MetaByNameKeys(header.columns);
    var data := ReadSelected(file, metas, names.value, header.rowCount, codec);
    if data.Err? {
      return Err(data.error);
    }
    return Ok((names.value, data.value, header.rowCount));
  }

  // ===== what read_gpp_file promises =====

  /** The intermediate results of read_gpp_file, named. */
  ghost predicate ReadSteps(file: Bytes, requested: Option<seq<Bytes>>, codec: Codec,
                            header: FileHeader, names: seq<Bytes>, values: seq<seq<Value>>)
  {
    ReadHeader(file).Ok? && ReadHeader(file).value.0 == header &&
    SelectNames(MetaByName(header.columns), Names(header.columns), requested) == Ok(names) &&
    MapAll(names, ReadNamedFrom(file, MetaByName(header.columns), header.rowCount, codec)) == Ok(values)
  }

  lemma ReadGppParts(file: Bytes, requested: Option<seq<Bytes>>, codec: Codec)
    returns (header: FileHeader, names: seq<Bytes>, values: seq<seq<Value>>)
    requires ReadGpp(file, requested, codec).Ok?
    ensures ReadSteps(file, requested, codec, header, names, values)
    ensures ReadGpp(file, requested, codec) == Ok((names, LastWins(names, values), header.rowCount))
  {
    header := ReadHeader(file).value.0;
    names := SelectNames(MetaByName(header.columns), Names(header.columns), requested).value;
    values := MapAll(names, ReadNamedFrom(file, MetaByName(header.columns), header.rowCount, codec)).value;
  }

  /** Each value list read has one value per row. */
  lemma ReadValuesLength(file: Bytes, metas: map<Bytes, ColumnMeta>, rowCount: nat, codec: Codec,
                         names: seq<Bytes>, values: seq<seq<Value>>)
    requires MapAll(names, ReadNamedFrom(file, metas, rowCount, codec)) == Ok(values)
    ensures |values| == |names| && forall i :: 0 <= i < |values| ==> |values[i]| == rowCount
  {
    var read := ReadNamedFrom(file, metas, rowCount, codec);
    forall i | 0 <= i < |values|
      ensures |values[i]| == rowCount
    {
      assert read(names[i]) == Ok(values[i]);
      ReadNamedLength(file, metas, names[i], rowCount, codec, values[i]);
    }
  }

  lemma ReadNamedLength(file: Bytes, metas: map<Bytes, ColumnMeta>, name: Bytes, rowCount: nat, codec: Codec, values: seq<Value>)
    requires ReadNamed(file, metas, name, rowCount, codec) == Ok(values)
    ensures |values| == rowCount
  {
  }

  /** In a dict built name by name from lists of one length, every list has that length. */
  lemma LastWinsLengths(names: seq<Bytes>, values: seq<seq<Value>>, n: nat)
    requires |names| == |values| && forall i :: 0 <= i < |values| ==> |values[i]| == n
    ensures forall name :: name in LastWins(names, values) <==> name in names
    ensures forall name :: name in LastWins(names, values) ==> |LastWins(names, values)[name]| == n
  {
    LastWinsKeys(names, values);
    forall name | name in LastWins(names, values)
      ensures |LastWins(names, values)[name]| == n
    {
      var i :| 0 <= i < |names| && names[i] == name;
      var l := LastOccurrence(names, i);
      LastWinsLookup(names, values, l);
    }
  }

  /** Every name read is in the result, with one value per row. */
  lemma ReadGppShape(file: Bytes, requested: Option<seq<Bytes>>, codec: Codec)
    requires ReadGpp(file, requested, codec).Ok?
    ensures var (names, data, rowCount) := ReadGpp(file, requested, codec).value;
      (forall name :: name in data <==> name in names) &&
      forall name :: name in data ==> |data[name]| == rowCount
  {
    var header, names, values := ReadGppParts(file, requested, codec);
    ReadValuesLength(file, MetaByName(header.columns), header.rowCount, codec, names, values);
    LastWinsLengths(names, values, header.rowCount);
  }

  /** The names read_gpp_file selects and the values it reads for them. */
  lemma ReadFromParts(file: Bytes, header: FileHeader, requested: Option<seq<Bytes>>, codec: Codec)
    returns (names: seq<Bytes>, values: seq<seq<Value>>)
    requires ReadFrom(file, header, requested, codec).Ok?
    ensures requested.None? ==> names == Names(header.columns)
    ensures |values| == |names|
    ensures forall i :: 0 <= i < |names| ==>
      ReadNamedFrom(file, MetaByName(header.columns), header.rowCount, codec)(names[i]) == Ok(values[i])
    ensures ReadFrom(file, header, requested, codec) == Ok((names, LastWins(names, values), header.rowCount))
  {
    var metas := MetaByName(header.columns);
    names := SelectNames(metas, Names(header.columns), requested).value;
    values := MapAll(names, ReadNamedFrom(file, metas, header.rowCount, codec)).value;
  }

  /** read_gpp_file reads the columns through the header it parsed. */
  lemma ReadThroughHeader(file: Bytes, requested: Option<seq<Bytes>>, codec: Codec, header: FileHeader, size: nat)
    requires ReadHeader(file) == Ok((header, size))
    ensures ReadGpp(file, requested, codec) == ReadFrom(file, header, requested, codec)
  {
  }

  /** With no names requested, every column is read, in header order, and
      the row count is the header's. */
  lemma ReadAllInHeaderOrder(file: Bytes, codec: Codec)
    requires ReadGpp(file, None, codec).Ok?
    ensures ReadHeader(file).Ok?
    ensures ReadGpp(file, None, codec).value.0 == Names(ReadHeader(file).value.0.columns)
    ensures ReadGpp(file, None, codec).value.2 == ReadHeader(file).value.0.rowCount
  {
  }

  /** Requested names come back in the requested order, repeats included. */
  lemma ReadRequestedOrder(file: Bytes, requested: seq<Bytes>, codec: Codec)
    requires ReadGpp(file, Some(requested), codec).Ok?
    ensures ReadGpp(file, Some(requested), codec).value.0 == requested
  {
  }

  /** The first requested name the header does not hold is a KeyError,
      raised before any block is read. */
  lemma UnknownColumnRejected(file: Bytes, requested: seq<Bytes>, codec: Codec, i: nat)
    requires ReadHeader(file).Ok?
    requires i < |requested| && requested[i] !in Names(ReadHeader(file).value.0.columns)
    requires forall j :: 0 <= j < i ==> requested[j] in Names(ReadHeader(file).value.0.columns)
    ensures ReadGpp(file, Some(requested), codec) == Err(ColumnNotFound(requested[i]))
  {
    var columns := ReadHeader(file).value.0.columns;
    MetaByNameKeys(columns);
    MapAllFirstFailure(requested, CheckNameIn(MetaByName(columns)), i);
  }

  /** An empty request reads nothing and still reports the row count. */
  lemma EmptyRequest(file: Bytes, codec: Codec)
    requires ReadHeader(file).Ok?
    ensures ReadGpp(file, Some([]), codec) == Ok(([], map[], ReadHeader(file).value.0.rowCount))
  {
  }

  /** A name that appears twice in the header is read through its last
      metadata entry, wherever it appears in the list of names. */
  lemma DuplicateNameReadsLastEntry(file: Bytes, header: FileHeader, codec: Codec, k: nat)
    requires ReadFrom(file, header, None, codec).Ok?
    requires k < |header.columns|
    requires forall j :: k < j < |header.columns| ==> header.columns[j].name != header.columns[k].name
    ensures var name := header.columns[k].name;
      name in ReadFrom(file, header, None, codec).value.1 &&
      Ok(ReadFrom(file, header, None, codec).value.1[name]) == ReadColumn(file, name, header.columns[k], header.rowCount, codec)
  {
    var names, values := ReadFromParts(file, header, None, codec);
    MetaByNameLookup(header.columns, k);
    LastWinsLookup(names, values, k);
  }

  /** With distinct names, when every column reads, reading them all gives
      each name its own column's values. */
  lemma ReadAllDistinct(file: Bytes, header: FileHeader, codec: Codec)
    requires Distinct(Names(header.columns))
    requires forall j :: 0 <= j < |header.columns| ==>
      ReadColumn(file, header.columns[j].name, header.columns[j], header.rowCount, codec).Ok?
    ensures ReadFrom(file, header, None, codec).Ok?
    ensures var (names, data, rowCount) := ReadFrom(file, header, None, codec).value;
      names == Names(header.columns) && rowCount == header.rowCount &&
      forall j :: 0 <= j < |names| ==>
        (names[j] in data && Ok(data[names[j]]) == ReadColumn(file, names[j], header.columns[j], rowCount, codec))
  {
    var columns := header.columns;
    var names := Names(columns);
    var metas := MetaByName(columns);
    var read := ReadNamedFrom(file, metas, header.rowCount, codec);
    forall j | 0 <= j < |columns|
      ensures read(names[j]) == ReadColumn(file, names[j], columns[j], header.rowCount, codec)
    {
      assert forall k :: j < k < |columns| ==> names[k] != names[j];
      MetaByNameLookup(columns, j);
    }
    var values := MapAll(names, read).value;
    forall j | 0 <= j < |names|
      ensures names[j] in LastWins(names, values) && LastWins(names, values)[names[j]] == values[j]
    {
      LastWinsLookup(names, values, j);
    }
  }

  // ===== gpp_to_csv =====

  /** A bool becomes "true" or "false"; every other value is written as it is. */
  function Render(v: Value): (r: Value)
    ensures !r.BoolV?
    ensures v.BoolV? ==> r.StrV? && (r.s == TRUE_TEXT <==> v.b) && (r.s == FALSE_TEXT <==> !v.b)
    ensures !v.BoolV? ==> r == v
  {
    match v
    case BoolV(b) => StrV(if b then TRUE_TEXT else FALSE_TEXT)
    case _ => v
  }

  /** Row i of the CSV body: for each name, its i-th value rendered. */
  function CsvRows(names: seq<Bytes>, data: map<Bytes, seq<Value>>, rowCount: nat): (rows: seq<seq<Value>>)
    requires forall name :: name in names ==> name in data && |data[name]| == rowCount
    ensures |rows| == rowCount
    ensures forall i :: 0 <= i < rowCount ==> |rows[i]| == |names|
    ensures forall i, j :: 0 <= i < rowCount && 0 <= j < |names| ==> rows[i][j] == Render(data[names[j]][i])
  {
    seq(rowCount, i requires 0 <= i < rowCount =>
      seq(|names|, j requires 0 <= j < |names| => Render(data[names[j]][i])))
  }

  /** gpp_to_csv: the header row of names, then one rendered row per row of the file. */
  function GppToCsv(file: Bytes, codec: Codec): Result<(seq<Bytes>, seq<seq<Value>>)>
  {
    var (names, data, rowCount) :- ReadGpp(file, None, codec);
    ReadGppShape(file, None, codec);
    Ok((names, CsvRows(names, data, rowCount)))
  }

  /** The two nested loops of gpp_to_csv. */
  method RenderRows(names: seq<Bytes>, data: map<Bytes, seq<Value>>, rowCount: nat) returns (rows: seq<seq<Value>>)
    requires forall name :: name in names ==> name in data && |data[name]| == rowCount
    ensures rows == CsvRows(names, data, rowCount)
  {
    rows := [];
    var i := 0;
    while i < rowCount
      invariant 0 <= i <= rowCount
      invariant rows == CsvRows(names, data, rowCount)[..i]
    {
      var row: seq<Value> := [];
      var j := 0;
      while j < |names|
        invariant 0 <= j <= |names|
        invariant row == CsvRows(names, data, rowCount)[i][..j]
      {
        row := row + [Render(data[names[j]][i])];
        j := j + 1;
      }
      assert row == CsvRows(names, data, rowCount)[i];
      assert CsvRows(names, data, rowCount)[..i + 1] == CsvRows(names, data, rowCount)[..i] + [row];
      rows := rows + [row];
      i := i + 1;
    }
  }

  method GppToCsvFile(file: Bytes, codec: Codec) returns (r: Result<(seq<Bytes>, seq<seq<Value>>)>)
    ensures r == GppToCsv(file, codec)
  {
    var read := ReadGppFile(file, None, codec);
    if read.Err? {
      return Err(read.error);
    }
    var (names, data, rowCount) := read.value;
    ReadGppShape(file, None, codec);
    var rows := RenderRows(names, data, rowCount);
    return Ok((names, rows));
  }
}
