/** The GPP header: the 20-byte fixed part and one metadata record per column,
    as the writer sizes, lays out and serialises it and as the reader parses it
    back (gpp_writer.write_gpp_file steps 3 to 5, gpp_reader.read_fixed_header,
    read_column_metadata and read_header). */
module HeaderCodec {
  import opened Wire
  import opened Format

  // ===== sizes and offsets (writer) =====

  /** name_len (u16) + name bytes + type_id (u8) + three u64 fields. */
  function RecordSize(m: ColumnMeta): nat
  {
    2 + |m.name| + 1 + 8 + 8 + 8
  }

  function SumRecordSizes(metas: seq<ColumnMeta>): nat
  {
    if |metas| == 0 then 0 else SumRecordSizes(metas[..|metas| - 1]) + RecordSize(metas[|metas| - 1])
  }

  /** The header size the writer computes before it assigns any offset. */
  function HeaderSize(metas: seq<ColumnMeta>): (n: nat)
    ensures n >= FIXED_HEADER_SIZE
  {
    FIXED_HEADER_SIZE + SumRecordSizes(metas)
  }

  method ComputeHeaderSize(metas: seq<ColumnMeta>) returns (size: nat)
    ensures size == HeaderSize(metas)
  {
    size := 20;
    var i := 0;
    while i < |metas|
      invariant 0 <= i <= |metas|
      invariant size == FIXED_HEADER_SIZE + SumRecordSizes(metas[..i])
    {
      assert metas[..i + 1][..i] == metas[..i];
      size := size + 2 + |metas[i].name| + 1 + 8 + 8 + 8;
      i := i + 1;
    }
    assert metas[..i] == metas;
  }

  function SumCompressed(metas: seq<ColumnMeta>): nat
  {
    if |metas| == 0 then 0 else SumCompressed(metas[..|metas| - 1]) + metas[|metas| - 1].compressedSize
  }

  /** Each column's block starts where the blocks of the columns before it end,
      the first one at `start`. */
  function LayOut(metas: seq<ColumnMeta>, start: nat): (placed: seq<ColumnMeta>)
    ensures |placed| == |metas|
  {
    seq(|metas|, i requires 0 <= i < |metas| => metas[i].(dataOffset := start + SumCompressed(metas[..i])))
  }

  /** The blocks are contiguous: the first begins at `start`, each next one
      where the previous ends, and only the offsets change. */
  lemma LayOutContiguous(metas: seq<ColumnMeta>, start: nat)
    ensures |metas| > 0 ==> LayOut(metas, start)[0].dataOffset == start
    ensures forall i :: 0 <= i < |metas| - 1 ==>
      LayOut(metas, start)[i + 1].dataOffset == LayOut(metas, start)[i].dataOffset + metas[i].compressedSize
    ensures forall i :: 0 <= i < |metas| ==>
      LayOut(metas, start)[i] == metas[i].(dataOffset := LayOut(metas, start)[i].dataOffset)
  {
    var placed := LayOut(metas, start);
    forall i | 0 <= i < |metas| - 1
      ensures placed[i + 1].dataOffset == placed[i].dataOffset + metas[i].compressedSize
    {
      assert metas[..i + 1][..i] == metas[..i];
    }
  }

  /** The last block ends `SumCompressed(metas)` bytes after `start`. */
  lemma LayOutEnd(metas: seq<ColumnMeta>, start: nat)
    requires |metas| > 0
    ensures LayOut(metas, start)[|metas| - 1].dataOffset + metas[|metas| - 1].compressedSize == start + SumCompressed(metas)
  {
  }

  /** Step 4 of write_gpp_file: a running offset handed to each column in turn. */
  method AssignOffsets(metas: seq<ColumnMeta>, start: nat) returns (placed: seq<ColumnMeta>)
    ensures placed == LayOut(metas, start)
  {
    placed := metas;
    var current := start;
    var i := 0;
    while i < |metas|
      invariant 0 <= i <= |metas| && |placed| == |metas|
      invariant current == start + SumCompressed(metas[..i])
      invariant forall k :: 0 <= k < i ==> placed[k] == LayOut(metas, start)[k]
      invariant forall k :: i <= k < |metas| ==> placed[k] == metas[k]
    {
      assert metas[..i + 1][..i] == metas[..i];
      placed := placed[i := placed[i].(dataOffset := current)];
      current := current + metas[i].compressedSize;
      i := i + 1;
    }
  }

  // ===== serialisation (writer) =====

  /** Every field of a record fits the width struct.pack gives it. */
  predicate Fits(m: ColumnMeta)
  {
    |m.name| < TWO_16 && m.typeId < 256 &&
    m.dataOffset < TWO_64 && m.compressedSize < TWO_64 && m.uncompressedSize < TWO_64
  }

  /** MAGIC, version, endianness flag, two zero bytes, u64 row count, u32 column count. */
  function FixedHeaderBytes(rowCount: nat, columnCount: nat): (r: Result<Bytes>)
    ensures r.Ok? <==> rowCount < TWO_64 && columnCount < TWO_32
    ensures r.Ok? ==> |r.value| == FIXED_HEADER_SIZE
  {
    if rowCount < TWO_64 && columnCount < TWO_32 then
      Ok(MAGIC + [VERSION, ENDIANNESS_FLAG, 0, 0] + PackU64(rowCount) + PackU32(columnCount))
    else Err(PackOutOfRange)
  }

  /** One metadata record; struct.pack raises when a field does not fit. */
  function MetaRecord(m: ColumnMeta): (r: Result<Bytes>)
    ensures r.Ok? <==> Fits(m)
    ensures r.Ok? ==> |r.value| == RecordSize(m)
  {
    if Fits(m) then
      Ok(PackU16(|m.name|) + m.name + [m.typeId] +
         PackU64(m.dataOffset) + PackU64(m.compressedSize) + PackU64(m.uncompressedSize))
    else Err(PackOutOfRange)
  }

  /** Step 5 of write_gpp_file: the fixed part, then the records in column order. */
  function SerializeHeader(rowCount: nat, metas: seq<ColumnMeta>): Result<Bytes>
  {
    var fixed :- FixedHeaderBytes(rowCount, |metas|);
    var records :- MapAll(metas, MetaRecord);
    Ok(fixed + Concat(records))
  }

  method BuildHeader(rowCount: nat, metas: seq<ColumnMeta>) returns (r: Result<Bytes>)
    ensures r == SerializeHeader(rowCount, metas)
  {
    if rowCount >= TWO_64 || |metas| >= TWO_32 {
      return Err(PackOutOfRange);
    }
    var fixed := MAGIC + [VERSION, ENDIANNESS_FLAG, 0, 0] + PackU64(rowCount) + PackU32(|metas|);
    var buf: Bytes := [];
    ghost var records: seq<Bytes> := [];
    var i := 0;
    while i < |metas|
      invariant 0 <= i <= |metas|
      invariant MapAll(metas[..i], MetaRecord) == Ok(records) && buf == Concat(records)
    {
      var m := metas[i];
      if !Fits(m) {
        MapAllStop(metas, MetaRecord, i, records);
        return Err(PackOutOfRange);
      }
      var rec := PackU16(|m.name|) + m.name + [m.typeId] +
        PackU64(m.dataOffset) + PackU64(m.compressedSize) + PackU64(m.uncompressedSize);
      MapAllStep(metas, MetaRecord, i, records);
      buf := buf + rec;
      records := records + [rec];
      i := i + 1;
    }
    assert metas[..i] == metas;
    return Ok(fixed + buf);
  }

  lemma {:induction false} RecordsLength(metas: seq<ColumnMeta>, records: seq<Bytes>)
    requires MapAll(metas, MetaRecord) == Ok(records)
    ensures |Concat(records)| == SumRecordSizes(metas)
  {
    if |metas| > 0 {
      var n := |metas|;
      assert MapAll(metas[..n - 1], MetaRecord) == Ok(records[..n - 1]);
      RecordsLength(metas[..n - 1], records[..n - 1]);
      assert MetaRecord(metas[n - 1]) == Ok(records[n - 1]);
    }
  }

  /** The header the writer emits is exactly as long as the size it computed
      before assigning offsets, so the first block starts right after it. */
  lemma SerializedHeaderSize(rowCount: nat, metas: seq<ColumnMeta>)
    requires SerializeHeader(rowCount, metas).Ok?
    ensures |SerializeHeader(rowCount, metas).value| == HeaderSize(metas)
  {
    RecordsLength(metas, MapAll(metas, MetaRecord).value);
  }

  /** Serialisation fails only on a field too wide for its struct format. */
  lemma SerializeHeaderAccepts(rowCount: nat, metas: seq<ColumnMeta>)
    ensures SerializeHeader(rowCount, metas).Ok? <==>
      rowCount < TWO_64 && |metas| < TWO_32 && forall i :: 0 <= i < |metas| ==> Fits(metas[i])
  {
  }

  // ===== parsing (reader) =====

  /** read_fixed_header on the first 20 bytes of the file. */
  function ReadFixedHeader(file: Bytes): (r: Result<(nat, nat)>)
    ensures r.Ok? <==>
      |file| >= FIXED_HEADER_SIZE && file[..4] == MAGIC && file[4] == VERSION && file[5] == ENDIANNESS_FLAG
    ensures r.Ok? ==> r.value.0 < TWO_64 && r.value.1 < TWO_32
  {
    if |file| < FIXED_HEADER_SIZE then Err(FileTooSmall)
    else if file[..4] != MAGIC then Err(InvalidMagic)
    else if file[4] != VERSION then Err(UnsupportedVersion(file[4]))
    else if file[5] != ENDIANNESS_FLAG then Err(UnsupportedEndianness(file[5]))
    else Ok((UnpackU64(file[8..16]), UnpackU32(file[16..20])))
  }

  /** The checks run in order: size, then magic, then version, then endianness. */
  lemma FixedHeaderRejectionOrder(file: Bytes)
    ensures |file| < FIXED_HEADER_SIZE ==> ReadFixedHeader(file) == Err(FileTooSmall)
    ensures |file| >= FIXED_HEADER_SIZE && file[..4] != MAGIC ==> ReadFixedHeader(file) == Err(InvalidMagic)
    ensures |file| >= FIXED_HEADER_SIZE && file[..4] == MAGIC && file[4] != VERSION ==>
      ReadFixedHeader(file) == Err(UnsupportedVersion(file[4]))
    ensures |file| >= FIXED_HEADER_SIZE && file[..4] == MAGIC && file[4] == VERSION && file[5] != ENDIANNESS_FLAG ==>
      ReadFixedHeader(file) == Err(UnsupportedEndianness(file[5]))
  {
  }

  /** Bytes 6 and 7 are reserved: whatever they hold, the result is the same. */
  lemma ReservedBytesIgnored(file: Bytes, a: Byte, b: Byte)
    requires |file| >= 8
    ensures ReadFixedHeader(file[6 := a][7 := b]) == ReadFixedHeader(file)
  {
    var g := file[6 := a][7 := b];
    if |file| >= FIXED_HEADER_SIZE {
      assert g[..4] == file[..4];
      assert g[8..16] == file[8..16];
      assert g[16..20] == file[16..20];
    }
  }

  /** The fixed part the writer emits reads back as the row and column counts it holds. */
  lemma FixedHeaderRoundTrip(rowCount: nat, columnCount: nat, rest: Bytes)
    requires FixedHeaderBytes(rowCount, columnCount).Ok?
    ensures ReadFixedHeader(FixedHeaderBytes(rowCount, columnCount).value + rest) == Ok((rowCount, columnCount))
  {
    var file := FixedHeaderBytes(rowCount, columnCount).value + rest;
    assert file[..4] == MAGIC;
    assert file[8..16] == PackU64(rowCount);
    assert file[16..20] == PackU32(columnCount);
  }

  /** One metadata record read from the front of the stream `s`, with what is
      left of the stream; each short read raises its own EOF error. */
  function ParseRecord(s: Bytes): (r: Result<(ColumnMeta, Bytes)>)
    ensures r.Ok? ==> RecordSize(r.value.0) <= |s| && r.value.1 == s[RecordSize(r.value.0)..] && Fits(r.value.0)
  {
    if |s| < 2 then Err(EofNameLength)
    else
      var nameLen := UnpackU16(s[..2]);
      var s1 := s[2..];
      if |s1| < nameLen then Err(EofName)
      else
        var name := s1[..nameLen];
        var s2 := s1[nameLen..];
        if |s2| < 1 then Err(EofTypeId)
        else
          var typeId := s2[0];
          var s3 := s2[1..];
          if |s3| < 24 then Err(EofSizes)
          else
            Ok((ColumnMeta(name, typeId, UnpackU64(s3[..8]), UnpackU64(s3[8..16]), UnpackU64(s3[16..24])), s3[24..]))
  }

  /** `count` records from the front of the stream, with what is left of it. */
  function ParseColumns(s: Bytes, count: nat): (r: Result<(seq<ColumnMeta>, Bytes)>)
    ensures r.Ok? ==> |r.value.0| == count && |r.value.1| <= |s| && r.value.1 == s[|s| - |r.value.1|..]
    decreases count
  {
    if count == 0 then Ok(([], s))
    else
      var (m, rest) :- ParseRecord(s);
      var (ms, left) :- ParseColumns(rest, count - 1);
      Ok(([m] + ms, left))
  }

  /** Puts the records already read in front of the outcome of reading the rest. */
  function Prefixed(done: seq<ColumnMeta>, rest: Result<(seq<ColumnMeta>, Bytes)>): Result<(seq<ColumnMeta>, Bytes)>
  {
    if rest.Ok? then Ok((done + rest.value.0, rest.value.1)) else rest
  }

  /** Reading one more record moves it from the outcome of the rest to the records read. */
  lemma ParseColumnsStep(done: seq<ColumnMeta>, stream: Bytes, k: nat, m: ColumnMeta, rest: Bytes)
    requires k > 0 && ParseRecord(stream) == Ok((m, rest))
    ensures Prefixed(done, ParseColumns(stream, k)) == Prefixed(done + [m], ParseColumns(rest, k - 1))
  {
    var more := ParseColumns(rest, k - 1);
    if more.Ok? {
      assert done + ([m] + more.value.0) == done + [m] + more.value.0;
    }
  }

  lemma ParseColumnsCons(s: Bytes, k: nat, m: ColumnMeta, rest: Bytes, ms: seq<ColumnMeta>, left: Bytes)
    requires k > 0 && ParseRecord(s) == Ok((m, rest)) && ParseColumns(rest, k - 1) == Ok((ms, left))
    ensures ParseColumns(s, k) == Ok(([m] + ms, left))
  {
  }

  /** read_column_metadata: the record loop, reading field by field from the stream. */
  method ReadColumnMetadata(s: Bytes, count: nat) returns (r: Result<(seq<ColumnMeta>, Bytes)>)
    ensures r == ParseColumns(s, count)
  {
    var columns: seq<ColumnMeta> := [];
    var stream := s;
    var i: nat := 0;
    ghost var remaining: nat := count;
    assert ParseColumns(s, count) == Prefixed(columns, ParseColumns(stream, remaining)) by {
      var x := ParseColumns(s, count);
      if x.Ok? {
        assert columns + x.value.0 == x.value.0;
      }
    }
    while i < count
      invariant i <= count
      invariant remaining == count - i
      invariant ParseColumns(s, count) == Prefixed(columns, ParseColumns(stream, remaining))
    {
      if |stream| < 2 {
        return Err(EofNameLength);
      }
      var nameLen := UnpackU16(stream[..2]);
      var afterLen := stream[2..];
      if |afterLen| < nameLen {
        return Err(EofName);
      }
      var name := afterLen[..nameLen];
      var afterName := afterLen[nameLen..];
      if |afterName| < 1 {
        return Err(EofTypeId);
      }
      var typeId := afterName[0];
      var sizes := afterName[1..];
      if |sizes| < 24 {
        return Err(EofSizes);
      }
      var m := ColumnMeta(name, typeId, UnpackU64(sizes[..8]), UnpackU64(sizes[8..16]), UnpackU64(sizes[16..24]));
      var rest := sizes[24..];
      assert ParseRecord(stream) == Ok((m, rest));
      ghost var done, from, k := columns, stream, remaining;
      columns := columns + [m];
      stream := rest;
      i := i + 1;
      remaining := remaining - 1;
      ParseColumnsStep(done, from, k, m, stream);
    }
    assert columns + [] == columns;
    return Ok((columns, stream));
  }

  /** read_header: the fixed part, then as many records as it announces. The
      second component is the number of bytes the header occupies. */
  function ReadHeader(file: Bytes): (r: Result<(FileHeader, nat)>)
    ensures r.Ok? ==> |r.value.0.columns| == r.value.0.columnCount
    ensures r.Ok? ==> FIXED_HEADER_SIZE <= r.value.1 <= |file|
  {
    var (rowCount, columnCount) :- ReadFixedHeader(file);
    var (columns, rest) :- ParseColumns(file[FIXED_HEADER_SIZE..], columnCount);
    Ok((FileHeader(rowCount, columnCount, columns), |file| - |rest|))
  }

  // ===== round trip =====

  /** A record the writer emitted, at the front of the stream, parses back to
      its metadata and leaves exactly what follows it. */
  lemma RecordRoundTrip(m: ColumnMeta, tail: Bytes)
    requires MetaRecord(m).Ok?
    ensures ParseRecord(MetaRecord(m).value + tail) == Ok((m, tail))
  {
    var n := |m.name|;
    var len, off, comp, unc := PackU16(n), PackU64(m.dataOffset), PackU64(m.compressedSize), PackU64(m.uncompressedSize);
    var s := MetaRecord(m).value + tail;
    assert s == len + (m.name + ([m.typeId] + (off + comp + unc + tail)));
    assert s[..2] == len;
    var s1 := s[2..];
    assert s1 == m.name + ([m.typeId] + (off + comp + unc + tail));
    assert s1[..n] == m.name;
    var s2 := s1[n..];
    assert s2 == [m.typeId] + (off + comp + unc + tail);
    var s3 := s2[1..];
    assert s3 == off + comp + unc + tail;
    SizeFields(off, comp, unc, tail);
  }

  /** The three eight-byte size fields of a record, and what follows them. */
  lemma SizeFields(off: Bytes, comp: Bytes, unc: Bytes, tail: Bytes)
    requires |off| == 8 && |comp| == 8 && |unc| == 8
    ensures var s := off + comp + unc + tail;
      s[..8] == off && s[8..16] == comp && s[16..24] == unc && s[24..] == tail
  {
    var s := off + comp + unc + tail;
    assert s[..8] == off;
    assert s[8..16] == comp;
    assert s[16..24] == unc;
  }

  /** Concatenation taken from the front, the order in which the reader consumes it. */
  function ConcatFront(parts: seq<Bytes>): Bytes
  {
    if |parts| == 0 then [] else parts[0] + ConcatFront(parts[1..])
  }

  lemma {:induction false} ConcatFrontIsConcat(parts: seq<Bytes>)
    ensures ConcatFront(parts) == Concat(parts)
  {
    if |parts| > 0 {
      ConcatFrontIsConcat(parts[1..]);
      var one: seq<Bytes> := [parts[0]];
      assert parts == one + parts[1..];
      ConcatAppend(one, parts[1..]);
      assert one[..0] == [];
    }
  }

  /** The records of a list of metadata, read one after the other, parse back
      to that list and leave whatever followed them. */
  lemma {:induction false} RecordsRoundTrip(records: seq<Bytes>, metas: seq<ColumnMeta>, tail: Bytes)
    requires |records| == |metas| && forall i :: 0 <= i < |metas| ==> MetaRecord(metas[i]) == Ok(records[i])
    ensures ParseColumns(ConcatFront(records) + tail, |metas|) == Ok((metas, tail))
  {
    if |metas| > 0 {
      var more := ConcatFront(records[1..]) + tail;
      assert ConcatFront(records) + tail == records[0] + more;
      forall i | 0 <= i < |metas| - 1
        ensures MetaRecord(metas[1..][i]) == Ok(records[1..][i])
      {
        assert records[1..][i] == records[i + 1] && metas[1..][i] == metas[i + 1];
      }
      RecordsRoundTrip(records[1..], metas[1..], tail);
      RecordThenRecords(metas[0], records[0], more, metas[1..], tail);
      assert metas == [metas[0]] + metas[1..];
    }
  }

  /** One record in front of records that parse adds its metadata in front. */
  lemma RecordThenRecords(m: ColumnMeta, record: Bytes, more: Bytes, ms: seq<ColumnMeta>, tail: Bytes)
    requires MetaRecord(m) == Ok(record) && ParseColumns(more, |ms|) == Ok((ms, tail))
    ensures ParseColumns(record + more, |ms| + 1) == Ok(([m] + ms, tail))
  {
    RecordRoundTrip(m, more);
    ParseColumnsCons(record + more, |ms| + 1, m, more, ms, tail);
  }

  /** read_header on a fixed part followed by the metadata stream. */
  lemma ReadHeaderOf(fixed: Bytes, body: Bytes, rowCount: nat, columnCount: nat, columns: seq<ColumnMeta>, rest: Bytes)
    requires |fixed| == FIXED_HEADER_SIZE && ReadFixedHeader(fixed + body) == Ok((rowCount, columnCount))
    requires ParseColumns(body, columnCount) == Ok((columns, rest))
    ensures ReadHeader(fixed + body) == Ok((FileHeader(rowCount, columnCount, columns), |fixed| + |body| - |rest|))
  {
    assert (fixed + body)[FIXED_HEADER_SIZE..] == body;
  }

  /** The records the writer emits parse back to the metadata, whatever follows them. */
  lemma SerializedRecordsParse(metas: seq<ColumnMeta>, records: seq<Bytes>, rest: Bytes)
    requires |records| == |metas| && forall i :: 0 <= i < |metas| ==> MetaRecord(metas[i]) == Ok(records[i])
    ensures ParseColumns(Concat(records) + rest, |metas|) == Ok((metas, rest))
  {
    RecordsRoundTrip(records, metas, rest);
    ConcatFrontIsConcat(records);
  }

  /** read_header inverts the header serialisation: the same row count, column
      count and records, and the header read ends exactly at the size the writer
      computed, whatever follows it. */
  lemma HeaderRoundTrip(rowCount: nat, metas: seq<ColumnMeta>, rest: Bytes)
    requires SerializeHeader(rowCount, metas).Ok?
    ensures ReadHeader(SerializeHeader(rowCount, metas).value + rest) ==
      Ok((FileHeader(rowCount, |metas|, metas), HeaderSize(metas)))
  {
    var fixed := FixedHeaderBytes(rowCount, |metas|).value;
    var records := MapAll(metas, MetaRecord).value;
    var body := Concat(records) + rest;
    assert SerializeHeader(rowCount, metas).value + rest == fixed + body;
    FixedHeaderRoundTrip(rowCount, |metas|, body);
    SerializedRecordsParse(metas, records, rest);
    ReadHeaderOf(fixed, body, rowCount, |metas|, metas, rest);
    SerializedHeaderSize(rowCount, metas);
  }

  // ===== truncation =====

  /** Each field of a record that the stream cannot supply raises its own
      EOF error: the name length, the name, the type id, then the three sizes. */
  lemma RecordTruncation(s: Bytes)
    ensures |s| < 2 ==> ParseRecord(s) == Err(EofNameLength)
    ensures |s| >= 2 ==>
      var n := UnpackU16(s[..2]);
      (|s| < 2 + n ==> ParseRecord(s) == Err(EofName)) &&
      (|s| == 2 + n ==> ParseRecord(s) == Err(EofTypeId)) &&
      (3 + n <= |s| < 27 + n ==> ParseRecord(s) == Err(EofSizes)) &&
      (27 + n <= |s| ==> ParseRecord(s).Ok?)
  {
  }

  /** A record the writer emitted, cut anywhere before its end, does not parse. */
  lemma TruncatedRecordFails(m: ColumnMeta, cut: nat)
    requires MetaRecord(m).Ok? && cut < RecordSize(m)
    ensures ParseRecord(MetaRecord(m).value[..cut]).Err?
  {
    var s := MetaRecord(m).value[..cut];
    if cut >= 2 {
      assert s[..2] == PackU16(|m.name|);
    }
    RecordTruncation(s);
  }

  /** A prefix of two byte strings joined is a prefix of the first, or the
      first followed by a prefix of the second. */
  lemma PrefixOfJoin(a: Bytes, b: Bytes, cut: nat)
    requires cut <= |a| + |b|
    ensures cut <= |a| ==> (a + b)[..cut] == a[..cut]
    ensures cut >= |a| ==> (a + b)[..cut] == a + b[..cut - |a|]
  {
  }

  /** A stream of records stops at the first one that does not parse. */
  lemma ParseColumnsFails(s: Bytes, k: nat)
    requires k > 0
    requires ParseRecord(s).Err? || ParseColumns(ParseRecord(s).value.1, k - 1).Err?
    ensures ParseColumns(s, k).Err?
  {
  }

  /** Records cut anywhere before their end do not parse: some record runs
      into the end of the stream. */
  lemma {:induction false} TruncatedRecordsFail(metas: seq<ColumnMeta>, records: seq<Bytes>, cut: nat)
    requires |records| == |metas| && forall i :: 0 <= i < |metas| ==> MetaRecord(metas[i]) == Ok(records[i])
    requires cut < |ConcatFront(records)|
    ensures ParseColumns(ConcatFront(records)[..cut], |metas|).Err?
  {
    var first, more := records[0], ConcatFront(records[1..]);
    PrefixOfJoin(first, more, cut);
    if cut < |first| {
      TruncatedRecordFails(metas[0], cut);
      ParseColumnsFails(first[..cut], |metas|);
    } else {
      var tail := more[..cut - |first|];
      RecordRoundTrip(metas[0], tail);
      TruncatedRecordsFail(metas[1..], records[1..], cut - |first|);
      ParseColumnsFails(first + tail, |metas|);
    }
  }

  /** read_header on a header the writer emitted, cut anywhere before its
      end, fails: the file is too small, or a record runs into the end. */
  lemma TruncatedHeaderFails(rowCount: nat, metas: seq<ColumnMeta>, cut: nat)
    requires SerializeHeader(rowCount, metas).Ok? && cut < |SerializeHeader(rowCount, metas).value|
    ensures ReadHeader(SerializeHeader(rowCount, metas).value[..cut]).Err?
  {
    var fixed := FixedHeaderBytes(rowCount, |metas|).value;
    var records := MapAll(metas, MetaRecord).value;
    ConcatFrontIsConcat(records);
    PrefixOfJoin(fixed, ConcatFront(records), cut);
    if cut >= FIXED_HEADER_SIZE {
      var body := ConcatFront(records)[..cut - FIXED_HEADER_SIZE];
      FixedHeaderRoundTrip(rowCount, |metas|, body);
      TruncatedRecordsFail(metas, records, cut - FIXED_HEADER_SIZE);
      ReadHeaderBody(fixed, body);
    }
  }

  /** read_header parses the records from the bytes after the fixed part. */
  lemma ReadHeaderBody(fixed: Bytes, body: Bytes)
    requires |fixed| == FIXED_HEADER_SIZE
    ensures (fixed + body)[FIXED_HEADER_SIZE..] == body
  {
  }
}
