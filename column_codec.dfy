/** The per-type column layouts: the writer's build_*_buffer functions and the
    reader's decode_*_column functions, each loop as a method proved equal to a
    specification function, and the round trips that make them inverses. */
module ColumnCodec {
  import opened Wire
  import opened Format
  import opened Text

  // ===== writer: one cell =====

  /** `struct.pack("<i", int(v.strip()))`. */
  function Int32Cell(v: Bytes): (r: Result<Bytes>)
    ensures r.Ok? ==> |r.value| == 4
  {
    var t := Strip(v);
    if !IsIntLiteral(t) then Err(InvalidInt(v))
    else if !InInt32Range(ParseInt(t)) then Err(PackOutOfRange)
    else Ok(PackI32(ParseInt(t)))
  }

  /** One byte, 1 for "true" and 0 for "false" after strip() and lower(). */
  function BoolCell(v: Bytes): (r: Result<Bytes>)
    ensures r.Ok? ==> |r.value| == 1
  {
    var t := Lower(Strip(v));
    if t == TRUE_TEXT then Ok([1])
    else if t == FALSE_TEXT then Ok([0])
    else Err(InvalidBool(v))
  }

  /** `struct.pack("<d", float(v.strip()))`; the double itself comes from `packDouble`. */
  function Float64Cell(packDouble: Bytes -> Word64, v: Bytes): (r: Result<Bytes>)
    ensures r.Ok? ==> |r.value| == 8
  {
    var t := Strip(v);
    if IsFloatLiteral(t) then Ok(packDouble(t)) else Err(InvalidFloat(v))
  }

  /** Float64Cell with the double packing fixed, as the function a buffer loop applies to each value. */
  function Float64CellWith(packDouble: Bytes -> Word64): (f: Bytes -> Result<Bytes>)
    ensures forall v :: f(v) == Float64Cell(packDouble, v)
  {
    v => Float64Cell(packDouble, v)
  }

  /** `struct.pack("<I", off)`, which raises for an offset of 4 GiB or more. */
  function U32Cell(x: nat): (r: Result<Bytes>)
    ensures r.Ok? ==> |r.value| == 4
  {
    if x < TWO_32 then Ok(PackU32(x)) else Err(PackOutOfRange)
  }

  // ===== writer: buffers (specification) =====

  function Int32Buffer(values: seq<Bytes>): Result<Bytes>
  {
    var parts :- MapAll(values, Int32Cell);
    Ok(Concat(parts))
  }

  function BoolBuffer(values: seq<Bytes>): Result<Bytes>
  {
    var parts :- MapAll(values, BoolCell);
    Ok(Concat(parts))
  }

  function Float64Buffer(values: seq<Bytes>, packDouble: Bytes -> Word64): Result<Bytes>
  {
    var parts :- MapAll(values, Float64CellWith(packDouble));
    Ok(Concat(parts))
  }

  /** offsets[i] is the length of the first i values' bytes. */
  function StringOffsets(values: seq<Bytes>): (offs: seq<nat>)
    ensures |offs| == |values| + 1
  {
    seq(|values| + 1, i requires 0 <= i <= |values| => |Concat(values[..i])|)
  }

  /** The N+1 offsets as u32, then the concatenated value bytes. */
  function StringBuffer(values: seq<Bytes>): Result<Bytes>
  {
    var packed :- MapAll(StringOffsets(values), U32Cell);
    Ok(Concat(packed) + Concat(values))
  }

  /** build_column_buffer: dispatch on the type id. */
  function ColumnBuffer(values: seq<Bytes>, typeId: nat, packDouble: Bytes -> Word64): Result<Bytes>
  {
    if typeId == TYPE_INT32 then Int32Buffer(values)
    else if typeId == TYPE_FLOAT64 then Float64Buffer(values, packDouble)
    else if typeId == TYPE_BOOL then BoolBuffer(values)
    else if typeId == TYPE_STRING then StringBuffer(values)
    else Err(UnknownTypeId(typeId))
  }

  // ===== writer: buffers (the loops) =====

  method BuildInt32Buffer(values: seq<Bytes>) returns (r: Result<Bytes>)
    ensures r == Int32Buffer(values)
  {
    var buf: Bytes := [];
    ghost var parts: seq<Bytes> := [];
    var i := 0;
    while i < |values|
      invariant 0 <= i <= |values|
      invariant MapAll(values[..i], Int32Cell) == Ok(parts) && buf == Concat(parts)
    {
      var v := Strip(values[i]);
      if !IsIntLiteral(v) {
        MapAllStop(values, Int32Cell, i, parts);
        return Err(InvalidInt(values[i]));
      }
      var iv := ParseInt(v);
      if !InInt32Range(iv) {
        MapAllStop(values, Int32Cell, i, parts);
        return Err(PackOutOfRange);
      }
      MapAllStep(values, Int32Cell, i, parts);
      buf := buf + PackI32(iv);
      parts := parts + [PackI32(iv)];
      i := i + 1;
    }
    assert values[..i] == values;
    return Ok(buf);
  }

  method BuildBoolBuffer(values: seq<Bytes>) returns (r: Result<Bytes>)
    ensures r == BoolBuffer(values)
  {
    var buf: Bytes := [];
    ghost var parts: seq<Bytes> := [];
    var i := 0;
    while i < |values|
      invariant 0 <= i <= |values|
      invariant MapAll(values[..i], BoolCell) == Ok(parts) && buf == Concat(parts)
    {
      var val := Lower(Strip(values[i]));
      var b: Byte;
      if val == TRUE_TEXT {
        b := 1;
      } else if val == FALSE_TEXT {
        b := 0;
      } else {
        BoolCellRejects(values, i, parts);
        return Err(InvalidBool(values[i]));
      }
      BoolCellStep(values, i, parts, b);
      buf := buf + [b];
      parts := parts + [[b]];
      i := i + 1;
    }
    assert values[..i] == values;
    return Ok(buf);
  }

  /** One more bool cell packed: its byte is appended to the buffer. */
  lemma BoolCellStep(values: seq<Bytes>, i: nat, parts: seq<Bytes>, b: Byte)
    requires i < |values| && MapAll(values[..i], BoolCell) == Ok(parts)
    requires var val := Lower(Strip(values[i]));
      (val == TRUE_TEXT && b == 1) || (val != TRUE_TEXT && val == FALSE_TEXT && b == 0)
    ensures MapAll(values[..i + 1], BoolCell) == Ok(parts + [[b]])
    ensures Concat(parts + [[b]]) == Concat(parts) + [b]
  {
    assert BoolCell(values[i]) == Ok([b]);
    MapAllStep(values, BoolCell, i, parts);
  }

  /** A value that is neither "true" nor "false" stops the loop with its own error. */
  lemma BoolCellRejects(values: seq<Bytes>, i: nat, parts: seq<Bytes>)
    requires i < |values| && MapAll(values[..i], BoolCell) == Ok(parts)
    requires Lower(Strip(values[i])) != TRUE_TEXT && Lower(Strip(values[i])) != FALSE_TEXT
    ensures BoolBuffer(values) == Err(InvalidBool(values[i]))
  {
    MapAllStop(values, BoolCell, i, parts);
  }

  method BuildFloat64Buffer(values: seq<Bytes>, packDouble: Bytes -> Word64) returns (r: Result<Bytes>)
    ensures r == Float64Buffer(values, packDouble)
  {
    var cell := Float64CellWith(packDouble);
    var buf: Bytes := [];
    ghost var parts: seq<Bytes> := [];
    var i := 0;
    while i < |values|
      invariant 0 <= i <= |values|
      invariant MapAll(values[..i], cell) == Ok(parts) && buf == Concat(parts)
    {
      var v := Strip(values[i]);
      if !IsFloatLiteral(v) {
        MapAllStop(values, cell, i, parts);
        return Err(InvalidFloat(values[i]));
      }
      MapAllStep(values, cell, i, parts);
      buf := buf + packDouble(v);
      parts := parts + [packDouble(v)];
      i := i + 1;
    }
    assert values[..i] == values;
    return Ok(buf);
  }

  method BuildStringBuffer(values: seq<Bytes>) returns (r: Result<Bytes>)
    ensures r == StringBuffer(values)
  {
    // First loop: concatenate the values, recording the running length.
    var offsets: seq<nat> := [0];
    var data: Bytes := [];
    var i := 0;
    while i < |values|
      invariant 0 <= i <= |values|
      invariant data == Concat(values[..i])
      invariant offsets == StringOffsets(values)[..i + 1]
    {
      assert values[..i + 1][..i] == values[..i];
      data := data + values[i];
      offsets := offsets + [|data|];
      i := i + 1;
    }
    assert values[..i] == values;
    assert offsets == StringOffsets(values);
    // Second loop: pack the offsets.
    var buf: Bytes := [];
    ghost var packed: seq<Bytes> := [];
    var j := 0;
    while j < |offsets|
      invariant 0 <= j <= |offsets|
      invariant MapAll(offsets[..j], U32Cell) == Ok(packed) && buf == Concat(packed)
    {
      var off := offsets[j];
      if off >= TWO_32 {
        MapAllStop(offsets, U32Cell, j, packed);
        return Err(PackOutOfRange);
      }
      MapAllStep(offsets, U32Cell, j, packed);
      buf := buf + PackU32(off);
      packed := packed + [PackU32(off)];
      j := j + 1;
    }
    assert offsets[..j] == offsets;
    return Ok(buf + data);
  }

  method BuildColumnBuffer(values: seq<Bytes>, typeId: nat, packDouble: Bytes -> Word64) returns (r: Result<Bytes>)
    ensures r == ColumnBuffer(values, typeId, packDouble)
  {
    if typeId == TYPE_INT32 {
      r := BuildInt32Buffer(values);
    } else if typeId == TYPE_FLOAT64 {
      r := BuildFloat64Buffer(values, packDouble);
    } else if typeId == TYPE_BOOL {
      r := BuildBoolBuffer(values);
    } else if typeId == TYPE_STRING {
      r := BuildStringBuffer(values);
    } else {
      r := Err(UnknownTypeId(typeId));
    }
  }

  // ===== reader: decoders (specification) =====

  /** decode_int32_column: the buffer must hold exactly 4 bytes per row. */
  function DecodeInt32Column(buf: Bytes, rowCount: nat): (r: Result<seq<Value>>)
    ensures r.Ok? <==> |buf| == 4 * rowCount
    ensures r.Err? ==> r.error == Int32SizeMismatch
    ensures r.Ok? ==> |r.value| == rowCount
  {
    if |buf| != 4 * rowCount then Err(Int32SizeMismatch)
    else Ok(seq(rowCount, i requires 0 <= i < rowCount => IntV(UnpackI32(buf[4 * i..4 * i + 4]))))
  }

  /** decode_float64_column: the buffer must hold exactly 8 bytes per row. */
  function DecodeFloat64Column(buf: Bytes, rowCount: nat): (r: Result<seq<Value>>)
    ensures r.Ok? <==> |buf| == 8 * rowCount
    ensures r.Err? ==> r.error == Float64SizeMismatch
    ensures r.Ok? ==> |r.value| == rowCount
  {
    if |buf| != 8 * rowCount then Err(Float64SizeMismatch)
    else Ok(seq(rowCount, i requires 0 <= i < rowCount => FloatV(buf[8 * i..8 * i + 8])))
  }

  /** decode_bool_column: byte 1 is true, every other byte is false. */
  function DecodeBoolColumn(buf: Bytes, rowCount: nat): (r: Result<seq<Value>>)
    ensures r.Ok? <==> |buf| == rowCount
    ensures r.Err? ==> r.error == BoolSizeMismatch
    ensures r.Ok? ==> |r.value| == rowCount
  {
    if |buf| != rowCount then Err(BoolSizeMismatch)
    else Ok(seq(rowCount, i requires 0 <= i < rowCount => BoolV(buf[i] == 1)))
  }

  /** Python's `s[a:b]`: both ends clamped to the length, empty when b <= a. */
  function PySlice(s: Bytes, a: nat, b: nat): (r: Bytes)
    ensures a <= b <= |s| ==> r == s[a..b]
    ensures b <= a || |s| <= a ==> r == []
  {
    var lo := if a < |s| then a else |s|;
    var hi := if b < |s| then b else |s|;
    if hi <= lo then [] else s[lo..hi]
  }

  /** The u32 offsets table at the head of a STRING buffer. */
  function StringTable(buf: Bytes, rowCount: nat): (offs: seq<nat>)
    requires 4 * (rowCount + 1) <= |buf|
    ensures |offs| == rowCount + 1
  {
    seq(rowCount + 1, i requires 0 <= i <= rowCount => UnpackU32(buf[4 * i..4 * i + 4]))
  }

  function DecodeStringColumn(buf: Bytes, rowCount: nat): (r: Result<seq<Value>>)
    ensures r.Ok? ==> |r.value| == rowCount
  {
    var tableLen := 4 * (rowCount + 1);
    if |buf| < tableLen then Err(StringBufferTooSmall)
    else
      var offs := StringTable(buf, rowCount);
      var data := buf[tableLen..];
      if offs[rowCount] != |data| then Err(StringLastOffsetMismatch)
      else Ok(seq(rowCount, i requires 0 <= i < rowCount => StrV(PySlice(data, offs[i], offs[i + 1]))))
  }

  /** decode_column_uncompressed: every decoder yields exactly rowCount values. */
  function DecodeColumn(buf: Bytes, typeId: nat, rowCount: nat): (r: Result<seq<Value>>)
    ensures r.Ok? ==> |r.value| == rowCount
    ensures r.Ok? ==> typeId in {TYPE_INT32, TYPE_FLOAT64, TYPE_BOOL, TYPE_STRING}
  {
    if typeId == TYPE_INT32 then DecodeInt32Column(buf, rowCount)
    else if typeId == TYPE_FLOAT64 then DecodeFloat64Column(buf, rowCount)
    else if typeId == TYPE_BOOL then DecodeBoolColumn(buf, rowCount)
    else if typeId == TYPE_STRING then DecodeStringColumn(buf, rowCount)
    else Err(UnknownTypeId(typeId))
  }

  // ===== reader: decoders (the loops) =====

  method DecodeInt32(buf: Bytes, rowCount: nat) returns (r: Result<seq<Value>>)
    ensures r == DecodeInt32Column(buf, rowCount)
  {
    if |buf| != rowCount * 4 {
      return Err(Int32SizeMismatch);
    }
    var values: seq<Value> := [];
    var i := 0;
    while i < rowCount
      invariant 0 <= i <= rowCount
      invariant |values| == i
      invariant forall k :: 0 <= k < i ==> values[k] == IntV(UnpackI32(buf[4 * k..4 * k + 4]))
    {
      values := values + [IntV(UnpackI32(buf[4 * i..4 * i + 4]))];
      i := i + 1;
    }
    assert values == DecodeInt32Column(buf, rowCount).value;
    return Ok(values);
  }

  method DecodeFloat64(buf: Bytes, rowCount: nat) returns (r: Result<seq<Value>>)
    ensures r == DecodeFloat64Column(buf, rowCount)
  {
    if |buf| != rowCount * 8 {
      return Err(Float64SizeMismatch);
    }
    var values: seq<Value> := [];
    var i := 0;
    while i < rowCount
      invariant 0 <= i <= rowCount
      invariant |values| == i
      invariant forall k :: 0 <= k < i ==> values[k] == FloatV(buf[8 * k..8 * k + 8])
    {
      values := values + [FloatV(buf[8 * i..8 * i + 8])];
      i := i + 1;
    }
    assert values == DecodeFloat64Column(buf, rowCount).value;
    return Ok(values);
  }

  method DecodeString(buf: Bytes, rowCount: nat) returns (r: Result<seq<Value>>)
    ensures r == DecodeStringColumn(buf, rowCount)
  {
    var offsetsCount := rowCount + 1;
    var offsetsBytesLen := offsetsCount * 4;
    if |buf| < offsetsBytesLen {
      return Err(StringBufferTooSmall);
    }
    var dataBytes := buf[offsetsBytesLen..];
    var offsets: seq<nat> := [];
    var k := 0;
    while k < offsetsCount
      invariant 0 <= k <= offsetsCount
      invariant offsets == StringTable(buf, rowCount)[..k]
    {
      offsets := offsets + [UnpackU32(buf[4 * k..4 * k + 4])];
      k := k + 1;
    }
    assert offsets == StringTable(buf, rowCount);
    if offsets[rowCount] != |dataBytes| {
      return Err(StringLastOffsetMismatch);
    }
    var result: seq<Value> := [];
    var i := 0;
    while i < rowCount
      invariant 0 <= i <= rowCount
      invariant |result| == i
      invariant forall j :: 0 <= j < i ==> result[j] == StrV(PySlice(dataBytes, offsets[j], offsets[j + 1]))
    {
      result := result + [StrV(PySlice(dataBytes, offsets[i], offsets[i + 1]))];
      i := i + 1;
    }
    assert result == DecodeStringColumn(buf, rowCount).value;
    return Ok(result);
  }

  method DecodeColumnUncompressed(buf: Bytes, typeId: nat, rowCount: nat) returns (r: Result<seq<Value>>)
    ensures r == DecodeColumn(buf, typeId, rowCount)
  {
    if typeId == TYPE_INT32 {
      r := DecodeInt32(buf, rowCount);
    } else if typeId == TYPE_FLOAT64 {
      r := DecodeFloat64(buf, rowCount);
    } else if typeId == TYPE_BOOL {
      r := DecodeBoolColumn(buf, rowCount);
    } else if typeId == TYPE_STRING {
      r := DecodeString(buf, rowCount);
    } else {
      r := Err(UnknownTypeId(typeId));
    }
  }

  // ===== properties =====

  /** What a decoded value means for the cell it was written from, under each type. */
  predicate Represents(typeId: nat, packDouble: Bytes -> Word64, cell: Bytes, x: Value)
  {
    if typeId == TYPE_INT32 then IsIntLiteral(Strip(cell)) && x == IntV(ParseInt(Strip(cell)))
    else if typeId == TYPE_FLOAT64 then x == FloatV(packDouble(Strip(cell)))
    else if typeId == TYPE_BOOL then x == BoolV(Lower(Strip(cell)) == TRUE_TEXT)
    else typeId == TYPE_STRING && x == StrV(cell)
  }

  /** INT32 encoding succeeds exactly when every stripped value is an integer
      literal in [-2^31, 2^31), and then holds 4 bytes per row. */
  lemma Int32BufferAccepts(values: seq<Bytes>)
    ensures Int32Buffer(values).Ok? <==>
      forall i :: 0 <= i < |values| ==> IsIntLiteral(Strip(values[i])) && InInt32Range(ParseInt(Strip(values[i])))
    ensures Int32Buffer(values).Ok? ==> |Int32Buffer(values).value| == 4 * |values|
  {
    var r := MapAll(values, Int32Cell);
    if r.Ok? {
      ConcatUniform(r.value, 4);
    }
  }

  /** Row i of a concatenation of packed INT32 cells unpacks to the integer its cell held. */
  lemma Int32Row(values: seq<Bytes>, parts: seq<Bytes>, i: nat)
    requires |parts| == |values| && i < |values|
    requires forall k :: 0 <= k < |values| ==> Int32Cell(values[k]) == Ok(parts[k])
    ensures 4 * i + 4 <= |Concat(parts)|
    ensures IsIntLiteral(Strip(values[i])) && UnpackI32(Concat(parts)[4 * i..4 * i + 4]) == ParseInt(Strip(values[i]))
  {
    assert Int32Cell(values[i]) == Ok(parts[i]);
    ConcatChunk(parts, 4, i);
  }

  /** decode_int32_column inverts build_int32_buffer. */
  lemma Int32RoundTrip(values: seq<Bytes>, packDouble: Bytes -> Word64)
    requires Int32Buffer(values).Ok?
    ensures DecodeInt32Column(Int32Buffer(values).value, |values|).Ok?
    ensures forall i :: 0 <= i < |values| ==>
      Represents(TYPE_INT32, packDouble, values[i], DecodeInt32Column(Int32Buffer(values).value, |values|).value[i])
  {
    var parts := MapAll(values, Int32Cell).value;
    var buf := Int32Buffer(values).value;
    assert buf == Concat(parts);
    ConcatUniform(parts, 4);
    var r := DecodeInt32Column(buf, |values|);
    forall i | 0 <= i < |values|
      ensures Represents(TYPE_INT32, packDouble, values[i], r.value[i])
    {
      Int32Row(values, parts, i);
      Int32Represents(packDouble, values[i], buf, |values|, i);
    }
  }

  /** Row i of a decoded INT32 column holds the integer its cell's text spells. */
  lemma Int32Represents(packDouble: Bytes -> Word64, cell: Bytes, buf: Bytes, rowCount: nat, i: nat)
    requires i < rowCount && |buf| == 4 * rowCount
    requires IsIntLiteral(Strip(cell)) && UnpackI32(buf[4 * i..4 * i + 4]) == ParseInt(Strip(cell))
    ensures DecodeInt32Column(buf, rowCount).Ok?
    ensures Represents(TYPE_INT32, packDouble, cell, DecodeInt32Column(buf, rowCount).value[i])
  {
  }

  lemma BoolRow(values: seq<Bytes>, parts: seq<Bytes>, i: nat)
    requires |parts| == |values| && i < |values|
    requires forall k :: 0 <= k < |values| ==> BoolCell(values[k]) == Ok(parts[k])
    ensures i < |Concat(parts)|
    ensures Concat(parts)[i] == (if Lower(Strip(values[i])) == TRUE_TEXT then 1 else 0)
  {
    assert BoolCell(values[i]) == Ok(parts[i]);
    ConcatChunk(parts, 1, i);
    assert Concat(parts)[i] == Concat(parts)[i..i + 1][0];
  }

  /** BOOL encoding succeeds exactly when every value is "true" or "false" up to
      case and white space, and then holds one 0/1 byte per row. */
  lemma BoolBufferAccepts(values: seq<Bytes>)
    ensures BoolBuffer(values).Ok? <==> forall i :: 0 <= i < |values| ==> IsBoolText(values[i])
    ensures BoolBuffer(values).Ok? ==>
      |BoolBuffer(values).value| == |values| &&
      forall i :: 0 <= i < |values| ==> BoolBuffer(values).value[i] == (if Lower(Strip(values[i])) == TRUE_TEXT then 1 else 0)
  {
    var r := MapAll(values, BoolCell);
    if r.Ok? {
      var parts := r.value;
      assert BoolBuffer(values).value == Concat(parts);
      ConcatUniform(parts, 1);
      forall i | 0 <= i < |values|
        ensures Concat(parts)[i] == (if Lower(Strip(values[i])) == TRUE_TEXT then 1 else 0)
      {
        BoolRow(values, parts, i);
      }
    } else {
      var i :| 0 <= i < |values| && BoolCell(values[i]).Err?;
      assert !IsBoolText(values[i]);
    }
  }

  /** decode_bool_column inverts build_bool_buffer. */
  lemma BoolRoundTrip(values: seq<Bytes>, packDouble: Bytes -> Word64)
    requires BoolBuffer(values).Ok?
    ensures DecodeBoolColumn(BoolBuffer(values).value, |values|).Ok?
    ensures forall i :: 0 <= i < |values| ==>
      Represents(TYPE_BOOL, packDouble, values[i], DecodeBoolColumn(BoolBuffer(values).value, |values|).value[i])
  {
    BoolBufferAccepts(values);
  }

  lemma Float64Row(values: seq<Bytes>, packDouble: Bytes -> Word64, parts: seq<Bytes>, i: nat)
    requires |parts| == |values| && i < |values|
    requires forall k :: 0 <= k < |values| ==> Float64Cell(packDouble, values[k]) == Ok(parts[k])
    ensures 8 * i + 8 <= |Concat(parts)|
    ensures Concat(parts)[8 * i..8 * i + 8] == packDouble(Strip(values[i]))
  {
    forall k | 0 <= k < |parts|
      ensures |parts[k]| == 8
    {
      assert Float64Cell(packDouble, values[k]) == Ok(parts[k]);
    }
    ConcatChunk(parts, 8, i);
    assert Float64Cell(packDouble, values[i]) == Ok(parts[i]);
  }

  /** FLOAT64 encoding succeeds exactly when every stripped value is a float
      literal, and then row i is the packed double of value i at bytes 8i..8i+8. */
  lemma Float64BufferLayout(values: seq<Bytes>, packDouble: Bytes -> Word64)
    ensures Float64Buffer(values, packDouble).Ok? <==> forall i :: 0 <= i < |values| ==> IsFloatLiteral(Strip(values[i]))
    ensures Float64Buffer(values, packDouble).Ok? ==>
      |Float64Buffer(values, packDouble).value| == 8 * |values| &&
      forall i :: 0 <= i < |values| ==>
        Float64Buffer(values, packDouble).value[8 * i..8 * i + 8] == packDouble(Strip(values[i]))
  {
    var cell := Float64CellWith(packDouble);
    var r := MapAll(values, cell);
    if r.Ok? {
      var parts := r.value;
      forall k | 0 <= k < |values|
        ensures Float64Cell(packDouble, values[k]) == Ok(parts[k])
      {
        assert cell(values[k]) == Ok(parts[k]);
      }
      ConcatUniform(parts, 8);
      forall i | 0 <= i < |values|
        ensures Concat(parts)[8 * i..8 * i + 8] == packDouble(Strip(values[i]))
      {
        Float64Row(values, packDouble, parts, i);
      }
    } else {
      var i :| 0 <= i < |values| && cell(values[i]).Err?;
      assert !IsFloatLiteral(Strip(values[i]));
    }
  }

  /** decode_float64_column inverts build_float64_buffer on the eight-byte words. */
  lemma Float64RoundTrip(values: seq<Bytes>, packDouble: Bytes -> Word64)
    requires Float64Buffer(values, packDouble).Ok?
    ensures DecodeFloat64Column(Float64Buffer(values, packDouble).value, |values|).Ok?
    ensures forall i :: 0 <= i < |values| ==>
      Represents(TYPE_FLOAT64, packDouble, values[i],
        DecodeFloat64Column(Float64Buffer(values, packDouble).value, |values|).value[i])
  {
    Float64BufferLayout(values, packDouble);
  }

  lemma ConcatPrefixLength(values: seq<Bytes>, i: nat)
    requires i < |values|
    ensures |Concat(values[..i + 1])| == |Concat(values[..i])| + |values[i]|
  {
    assert values[..i + 1][..i] == values[..i];
  }

  /** offsets[0] = 0, each next offset adds the byte length of one value, and the
      last offset is the length of the data. */
  lemma StringOffsetsRunningSum(values: seq<Bytes>)
    ensures StringOffsets(values)[0] == 0
    ensures forall i :: 0 <= i < |values| ==>
      StringOffsets(values)[i + 1] == StringOffsets(values)[i] + |values[i]|
    ensures StringOffsets(values)[|values|] == |Concat(values)|
  {
    forall i | 0 <= i < |values|
      ensures StringOffsets(values)[i + 1] == StringOffsets(values)[i] + |values[i]|
    {
      ConcatPrefixLength(values, i);
    }
    assert values[..|values|] == values;
  }

  lemma {:induction false} OffsetsBelowLast(values: seq<Bytes>, i: nat)
    requires i <= |values|
    ensures StringOffsets(values)[i] <= StringOffsets(values)[|values|]
    decreases |values| - i
  {
    if i < |values| {
      StringOffsetsRunningSum(values);
      OffsetsBelowLast(values, i + 1);
    }
  }

  /** The packed u32 offsets unpack, four bytes at a time, to the offsets. */
  lemma PackedOffsets(offs: seq<nat>, packed: seq<Bytes>)
    requires |packed| == |offs|
    requires forall j :: 0 <= j < |offs| ==> U32Cell(offs[j]) == Ok(packed[j])
    ensures |Concat(packed)| == 4 * |offs|
    ensures forall k :: 0 <= k < |offs| ==> UnpackU32(Concat(packed)[4 * k..4 * k + 4]) == offs[k]
  {
    ConcatUniform(packed, 4);
    forall k | 0 <= k < |offs|
      ensures UnpackU32(Concat(packed)[4 * k..4 * k + 4]) == offs[k]
    {
      assert U32Cell(offs[k]) == Ok(packed[k]);
      ConcatChunk(packed, 4, k);
    }
  }

  /** STRING encoding fails only when the data reaches 4 GiB, the largest
      offset a u32 can hold. */
  lemma StringBufferAccepts(values: seq<Bytes>)
    ensures StringBuffer(values).Ok? <==> |Concat(values)| < TWO_32
  {
    var offs := StringOffsets(values);
    StringOffsetsRunningSum(values);
    if |Concat(values)| < TWO_32 {
      forall k | 0 <= k < |offs|
        ensures U32Cell(offs[k]).Ok?
      {
        OffsetsBelowLast(values, k);
      }
    } else {
      assert U32Cell(offs[|values|]).Err?;
    }
  }

  lemma TableThenData(table: Bytes, data: Bytes, n: nat, offs: seq<nat>)
    requires |table| == 4 * (n + 1) && |offs| == n + 1
    requires forall k :: 0 <= k <= n ==> UnpackU32(table[4 * k..4 * k + 4]) == offs[k]
    ensures StringTable(table + data, n) == offs
    ensures (table + data)[4 * (n + 1)..] == data
  {
    var buf := table + data;
    forall k | 0 <= k <= n
      ensures StringTable(buf, n)[k] == offs[k]
    {
      assert buf[4 * k..4 * k + 4] == table[4 * k..4 * k + 4];
    }
  }

  /** An encoded STRING column is the 4 * (N + 1)-byte table of the running
      offsets followed by the value bytes. */
  lemma StringBufferLayout(values: seq<Bytes>)
    requires StringBuffer(values).Ok?
    ensures |StringBuffer(values).value| == 4 * (|values| + 1) + |Concat(values)|
    ensures StringTable(StringBuffer(values).value, |values|) == StringOffsets(values)
    ensures StringBuffer(values).value[4 * (|values| + 1)..] == Concat(values)
  {
    var offs := StringOffsets(values);
    var packed := MapAll(offs, U32Cell).value;
    PackedOffsets(offs, packed);
    TableThenData(Concat(packed), Concat(values), |values|, offs);
  }

  /** Value i occupies bytes offsets[i]..offsets[i+1] of the data. */
  lemma StringSlice(values: seq<Bytes>, i: nat)
    requires i < |values|
    ensures PySlice(Concat(values), StringOffsets(values)[i], StringOffsets(values)[i + 1]) == values[i]
  {
    ConcatBlock(values, i);
    ConcatPrefixLength(values, i);
  }

  /** decode_string_column inverts build_string_buffer. */
  lemma StringRoundTrip(values: seq<Bytes>, packDouble: Bytes -> Word64)
    requires StringBuffer(values).Ok?
    ensures DecodeStringColumn(StringBuffer(values).value, |values|).Ok?
    ensures forall i :: 0 <= i < |values| ==>
      Represents(TYPE_STRING, packDouble, values[i],
        DecodeStringColumn(StringBuffer(values).value, |values|).value[i])
  {
    var buf := StringBuffer(values).value;
    var offs := StringOffsets(values);
    StringBufferLayout(values);
    StringOffsetsRunningSum(values);
    var r := DecodeStringColumn(buf, |values|);
    forall i | 0 <= i < |values|
      ensures r.value[i] == StrV(values[i])
    {
      StringSlice(values, i);
    }
  }

  /** For every type, decoding the built buffer gives back one value per row,
      each representing its cell. */
  lemma ColumnRoundTrip(values: seq<Bytes>, typeId: nat, packDouble: Bytes -> Word64)
    requires ColumnBuffer(values, typeId, packDouble).Ok?
    ensures DecodeColumn(ColumnBuffer(values, typeId, packDouble).value, typeId, |values|).Ok?
    ensures forall i :: 0 <= i < |values| ==>
      Represents(typeId, packDouble, values[i],
        DecodeColumn(ColumnBuffer(values, typeId, packDouble).value, typeId, |values|).value[i])
  {
    if typeId == TYPE_INT32 {
      Int32RoundTrip(values, packDouble);
    } else if typeId == TYPE_FLOAT64 {
      Float64RoundTrip(values, packDouble);
    } else if typeId == TYPE_BOOL {
      BoolRoundTrip(values, packDouble);
    } else {
      StringRoundTrip(values, packDouble);
    }
  }

  /** decode_string checks only the table's size and its last offset: the
      offsets need not be increasing, and a row whose end offset lies before
      its start decodes as the empty string. */
  lemma StringDecodeAccepts(buf: Bytes, rowCount: nat)
    ensures DecodeStringColumn(buf, rowCount).Ok? <==>
      4 * (rowCount + 1) <= |buf| && StringTable(buf, rowCount)[rowCount] == |buf| - 4 * (rowCount + 1)
    ensures DecodeStringColumn(buf, rowCount).Ok? ==> forall i :: 0 <= i < rowCount ==>
      StringTable(buf, rowCount)[i + 1] <= StringTable(buf, rowCount)[i] ==>
        DecodeStringColumn(buf, rowCount).value[i] == StrV([])
  {
  }

  /** Row i of a decoded BOOL column is true exactly when byte i is 1: the
      reader does not insist on 0 or 1. */
  lemma BoolBytes(buf: Bytes, i: nat)
    requires i < |buf|
    ensures DecodeBoolColumn(buf, |buf|).Ok?
    ensures DecodeBoolColumn(buf, |buf|).value[i] == BoolV(buf[i] == 1)
  {
  }

  /** A byte 2, which the writer never emits, decodes as false rather than failing. */
  lemma BoolByteTwoExample()
    ensures DecodeBoolColumn([2], 1) == Ok([BoolV(false)])
  {
    var r := DecodeBoolColumn([2], 1);
    assert r.Ok? && |r.value| == 1 && r.value[0] == BoolV(false);
    assert r.value == [BoolV(false)];
  }

  /** Two rows over one data byte with offsets 0, 2, 1: the table passes both
      checks though 2 > 1, and the rows decode as the byte and the empty string. */
  lemma NonMonotoneOffsetsExample(buf: Bytes)
    requires buf == PackU32(0) + PackU32(2) + PackU32(1) + [0x61]
    ensures DecodeStringColumn(buf, 2) == Ok([StrV([0x61]), StrV([])])
  {
    var offs := StringTable(buf, 2);
    assert buf[0..4] == PackU32(0) && buf[4..8] == PackU32(2) && buf[8..12] == PackU32(1);
    assert offs == [0, 2, 1];
    var data := buf[12..];
    assert data == [0x61];
    assert PySlice(data, 0, 2) == [0x61] && PySlice(data, 2, 1) == [];
    var rows := DecodeStringColumn(buf, 2).value;
    assert rows[0] == StrV([0x61]) && rows[1] == StrV([]);
    assert rows == [StrV([0x61]), StrV([])];
  }
}
