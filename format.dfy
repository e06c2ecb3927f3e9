/** The entities shared by the GPP writer and reader: the format constants,
    column metadata, the file header, decoded values, the errors the Python
    code raises, and the few generic combinators the codecs are built from. */
module Format {
  import opened Wire

  // ----- format constants -----

  /** The magic bytes, ASCII "GPP1". */
  const MAGIC: Bytes := [0x47, 0x50, 0x50, 0x31]
  const VERSION: Byte := 1
  /** 1 means little-endian; no other value is accepted. */
  const ENDIANNESS_FLAG: Byte := 1
  const FIXED_HEADER_SIZE: nat := 20

  const TYPE_INT32: nat := 1
  const TYPE_FLOAT64: nat := 2
  const TYPE_STRING: nat := 3
  const TYPE_BOOL: nat := 4

  // ----- entities -----

  /** One column's entry in the header. Names are UTF-8 bytes. */
  datatype ColumnMeta = ColumnMeta(
    name: Bytes,
    typeId: nat,
    dataOffset: nat,
    compressedSize: nat,
    uncompressedSize: nat)

  datatype FileHeader = FileHeader(rowCount: nat, columnCount: nat, columns: seq<ColumnMeta>)

  /** A decoded cell. A FLOAT64 cell is kept as the eight raw bytes of its double. */
  datatype Value = IntV(i: int) | FloatV(bits: Word64) | StrV(s: Bytes) | BoolV(b: bool)

  /** The exceptions the writer and reader raise, one constructor per raise site. */
  datatype Error =
    // writer: CSV grouping
    | EmptyCsv
    | InconsistentRowLength
    // writer: column builders
    | InvalidInt(cell: Bytes)
    | InvalidFloat(cell: Bytes)
    | InvalidBool(cell: Bytes)
    | UnknownTypeId(typeId: nat)
    /** struct.pack was given a value that does not fit its field. */
    | PackOutOfRange
    // reader: header
    | FileTooSmall
    | InvalidMagic
    | UnsupportedVersion(version: Byte)
    | UnsupportedEndianness(flag: Byte)
    | EofNameLength
    | EofName
    | EofTypeId
    | EofSizes
    // reader: column decoders
    | Int32SizeMismatch
    | Float64SizeMismatch
    | BoolSizeMismatch
    | StringBufferTooSmall
    | StringLastOffsetMismatch
    // reader: column selection and block reads
    | ColumnNotFound(name: Bytes)
    | EofColumn(name: Bytes)
    | DecompressFailed(name: Bytes)
    | UncompressedSizeMismatch(name: Bytes)

  datatype Option<+T> = None | Some(value: T)

  datatype Result<+T> = Ok(value: T) | Err(error: Error) {
    predicate IsFailure() { Err? }
    function PropagateFailure<U>(): Result<U> requires Err? { Err(error) }
    function Extract(): T requires Ok? { value }
  }

  /** The compression pair the writer and reader share (zlib.compress and
      zlib.decompress); decompression fails on bytes it cannot inflate. */
  datatype Codec = Codec(compress: Bytes -> Bytes, decompress: Bytes -> Option<Bytes>)

  /** Decompressing what was compressed gives it back. */
  ghost predicate Lossless(c: Codec)
  {
    forall x :: c.decompress(c.compress(x)) == Some(x)
  }

  // ----- combinators -----

  /** Applies `f` to each element in order; the first failure is the result,
      as in a Python loop whose body may raise. */
  function MapAll<T, U>(xs: seq<T>, f: T -> Result<U>): (r: Result<seq<U>>)
    ensures r.Ok? <==> forall i :: 0 <= i < |xs| ==> f(xs[i]).Ok?
    ensures r.Ok? ==> |r.value| == |xs| && forall i :: 0 <= i < |xs| ==> f(xs[i]) == Ok(r.value[i])
    ensures r.Err? ==> exists i :: 0 <= i < |xs| && f(xs[i]) == Err(r.error) && forall j :: 0 <= j < i ==> f(xs[j]).Ok?
  {
    if |xs| == 0 then Ok([])
    else
      var init :- MapAll(xs[..|xs| - 1], f);
      var last :- f(xs[|xs| - 1]);
      Ok(init + [last])
  }

  /** The element that fails first decides the error. */
  lemma MapAllFirstFailure<T, U>(xs: seq<T>, f: T -> Result<U>, i: nat)
    requires i < |xs| && f(xs[i]).Err?
    requires forall j :: 0 <= j < i ==> f(xs[j]).Ok?
    ensures MapAll(xs, f) == Err(f(xs[i]).error)
  {
    var r := MapAll(xs, f);
    var k :| 0 <= k < |xs| && f(xs[k]) == Err(r.error) && forall j :: 0 <= j < k ==> f(xs[j]).Ok?;
    assert k == i;
  }

  /** One more step of a `MapAll` loop: the prefix succeeded and so does the next element. */
  lemma MapAllStep<T, U>(xs: seq<T>, f: T -> Result<U>, i: nat, us: seq<U>)
    requires i < |xs| && MapAll(xs[..i], f) == Ok(us) && f(xs[i]).Ok?
    ensures MapAll(xs[..i + 1], f) == Ok(us + [f(xs[i]).value])
  {
    assert xs[..i + 1][..i] == xs[..i];
  }

  /** A `MapAll` loop that stops at the first failing element returns what `MapAll` does. */
  lemma MapAllStop<T, U>(xs: seq<T>, f: T -> Result<U>, i: nat, us: seq<U>)
    requires i < |xs| && MapAll(xs[..i], f) == Ok(us) && f(xs[i]).Err?
    ensures MapAll(xs, f) == Err(f(xs[i]).error)
  {
    forall j | 0 <= j < i
      ensures f(xs[j]).Ok?
    {
      assert xs[..i][j] == xs[j];
    }
    MapAllFirstFailure(xs, f, i);
  }

  /** Concatenation of byte blocks, in order. */
  function Concat(parts: seq<Bytes>): Bytes
  {
    if |parts| == 0 then [] else Concat(parts[..|parts| - 1]) + parts[|parts| - 1]
  }

  lemma {:induction false} ConcatAppend(a: seq<Bytes>, b: seq<Bytes>)
    ensures Concat(a + b) == Concat(a) + Concat(b)
  {
    if |b| == 0 {
      assert a + b == a;
    } else {
      var b' := b[..|b| - 1];
      assert (a + b)[..|a + b| - 1] == a + b';
      assert (a + b)[|a + b| - 1] == b[|b| - 1];
      calc {
        Concat(a + b);
        Concat(a + b') + b[|b| - 1];
        { ConcatAppend(a, b'); }
        Concat(a) + Concat(b') + b[|b| - 1];
        Concat(a) + Concat(b);
      }
    }
  }

  /** Block j of a concatenation starts where the first j blocks end. */
  lemma ConcatBlock(parts: seq<Bytes>, j: nat)
    requires j < |parts|
    ensures |Concat(parts[..j])| + |parts[j]| <= |Concat(parts)|
    ensures Concat(parts)[|Concat(parts[..j])|..|Concat(parts[..j])| + |parts[j]|] == parts[j]
  {
    assert parts == parts[..j] + [parts[j]] + parts[j + 1..];
    ConcatAppend(parts[..j] + [parts[j]], parts[j + 1..]);
    ConcatAppend(parts[..j], [parts[j]]);
    assert Concat([parts[j]]) == parts[j] by {
      var one: seq<Bytes> := [parts[j]];
      assert one[..0] == [];
    }
  }

  lemma {:induction false} ConcatUniform(parts: seq<Bytes>, w: nat)
    requires forall k :: 0 <= k < |parts| ==> |parts[k]| == w
    ensures |Concat(parts)| == w * |parts|
  {
    if |parts| > 0 {
      ConcatUniform(parts[..|parts| - 1], w);
      assert w * |parts| == w * (|parts| - 1) + w;
    }
  }

  /** In a concatenation of w-byte blocks, block i sits at w * i. */
  lemma ConcatChunk(parts: seq<Bytes>, w: nat, i: nat)
    requires forall k :: 0 <= k < |parts| ==> |parts[k]| == w
    requires i < |parts|
    ensures |Concat(parts)| == w * |parts|
    ensures w * i + w <= |Concat(parts)| && Concat(parts)[w * i..w * i + w] == parts[i]
  {
    ConcatUniform(parts, w);
    ConcatUniform(parts[..i], w);
    ConcatBlock(parts, i);
  }

  /** No name appears twice. */
  predicate Distinct(names: seq<Bytes>)
  {
    forall j, k :: 0 <= j < k < |names| ==> names[j] != names[k]
  }

  /** Python dict construction `{k: v for ...}`: a later duplicate key overwrites an earlier one. */
  function LastWins<V>(keys: seq<Bytes>, vals: seq<V>): map<Bytes, V>
    requires |keys| == |vals|
  {
    if |keys| == 0 then map[]
    else LastWins(keys[..|keys| - 1], vals[..|vals| - 1])[keys[|keys| - 1] := vals[|vals| - 1]]
  }

  /** Storing one more key in the dict is the update of that key. */
  lemma LastWinsStep<V>(keys: seq<Bytes>, vals: seq<V>, i: nat, v: V)
    requires i < |keys| && |vals| == i
    ensures LastWins(keys[..i + 1], vals + [v]) == LastWins(keys[..i], vals)[keys[i] := v]
  {
    assert keys[..i + 1][..i] == keys[..i];
    assert (vals + [v])[..i] == vals;
  }

  /** The dict holds exactly the listed keys, and each key maps to the value of its last occurrence. */
  lemma {:induction false} LastWinsLookup<V>(keys: seq<Bytes>, vals: seq<V>, i: nat)
    requires |keys| == |vals|
    requires i < |keys| && forall j :: i < j < |keys| ==> keys[j] != keys[i]
    ensures keys[i] in LastWins(keys, vals) && LastWins(keys, vals)[keys[i]] == vals[i]
  {
    var n := |keys|;
    if i < n - 1 {
      var ks, vs := keys[..n - 1], vals[..n - 1];
      assert ks[i] == keys[i];
      LastWinsLookup(ks, vs, i);
    }
  }

  /** The last position holding the same key as position i. */
  lemma LastOccurrence(keys: seq<Bytes>, i: nat) returns (l: nat)
    requires i < |keys|
    ensures i <= l < |keys| && keys[l] == keys[i]
    ensures forall j :: l < j < |keys| ==> keys[j] != keys[i]
    decreases |keys| - i
  {
    if exists j :: i < j < |keys| && keys[j] == keys[i] {
      var j :| i < j < |keys| && keys[j] == keys[i];
      l := LastOccurrence(keys, j);
    } else {
      l := i;
    }
  }

  lemma {:induction false} LastWinsKeys<V>(keys: seq<Bytes>, vals: seq<V>)
    requires |keys| == |vals|
    ensures forall k :: k in LastWins(keys, vals) <==> k in keys
  {
    var n := |keys|;
    if n > 0 {
      LastWinsKeys(keys[..n - 1], vals[..n - 1]);
      assert keys == keys[..n - 1] + [keys[n - 1]];
    }
  }
}
