/** Byte-level primitives of the GPP format: the little-endian integer
    layouts that Python's `struct` module produces for the format strings
    "<B", "<H", "<I", "<Q" and "<i". */
module Wire {

  type Byte = x: int | 0 <= x < 256
  type Bytes = seq<Byte>

  /** An eight-byte word: the payload of one FLOAT64 row. */
  type Word64 = s: Bytes | |s| == 8 witness [0, 0, 0, 0, 0, 0, 0, 0]

  const TWO_16: nat := 0x1_0000
  const TWO_31: nat := 0x8000_0000
  const TWO_32: nat := 0x1_0000_0000
  const TWO_64: nat := 0x1_0000_0000_0000_0000

  /** 256 to the power n: one more than the largest n-byte unsigned value. */
  function Pow256(n: nat): (r: nat)
    ensures r >= 1
    ensures n >= 1 ==> r >= 256
  {
    if n == 0 then 1 else 256 * Pow256(n - 1)
  }

  lemma Pow256Widths()
    ensures Pow256(1) == 256
    ensures Pow256(2) == TWO_16
    ensures Pow256(4) == TWO_32
    ensures Pow256(8) == TWO_64
  {
    assert Pow256(2) == 256 * Pow256(1);
    assert Pow256(4) == 256 * 256 * Pow256(2);
    assert Pow256(8) == 256 * 256 * 256 * 256 * Pow256(4);
  }

  /** Reads `bs` as an unsigned little-endian integer (least significant byte first). */
  function DecodeLE(bs: Bytes): (x: nat)
    ensures x < Pow256(|bs|)
  {
    if |bs| == 0 then 0 else bs[0] + 256 * DecodeLE(bs[1..])
  }

  /** Writes `x` as `width` little-endian bytes; `x` must fit. */
  function EncodeLE(x: nat, width: nat): (r: Bytes)
    requires x < Pow256(width)
    ensures |r| == width
    ensures DecodeLE(r) == x
  {
    if width == 0 then []
    else
      var rest := EncodeLE(x / 256, width - 1);
      assert ([x % 256] + rest)[1..] == rest;
      [x % 256] + rest
  }

  /** Every byte string of a given width is the encoding of the number it decodes to. */
  lemma {:induction false} EncodeDecodeLE(bs: Bytes)
    ensures EncodeLE(DecodeLE(bs), |bs|) == bs
  {
    if |bs| > 0 {
      var d := DecodeLE(bs[1..]);
      var x := bs[0] + 256 * d;
      assert x % 256 == bs[0] && x / 256 == d;
      EncodeDecodeLE(bs[1..]);
      assert bs == [bs[0]] + bs[1..];
    }
  }

  // ----- fixed widths, as struct.pack / struct.unpack lay them out -----

  function PackU16(x: nat): (r: Bytes)
    requires x < TWO_16
    ensures |r| == 2 && UnpackU16(r) == x
  {
    Pow256Widths();
    EncodeLE(x, 2)
  }

  function UnpackU16(bs: Bytes): (x: nat)
    requires |bs| == 2
    ensures x < TWO_16
  {
    Pow256Widths();
    DecodeLE(bs)
  }

  function PackU32(x: nat): (r: Bytes)
    requires x < TWO_32
    ensures |r| == 4 && UnpackU32(r) == x
  {
    Pow256Widths();
    EncodeLE(x, 4)
  }

  function UnpackU32(bs: Bytes): (x: nat)
    requires |bs| == 4
    ensures x < TWO_32
  {
    Pow256Widths();
    DecodeLE(bs)
  }

  function PackU64(x: nat): (r: Bytes)
    requires x < TWO_64
    ensures |r| == 8 && UnpackU64(r) == x
  {
    Pow256Widths();
    EncodeLE(x, 8)
  }

  function UnpackU64(bs: Bytes): (x: nat)
    requires |bs| == 8
    ensures x < TWO_64
  {
    Pow256Widths();
    DecodeLE(bs)
  }

  predicate InInt32Range(x: int)
  {
    -(TWO_31 as int) <= x < TWO_31
  }

  /** "<i": 32-bit two's complement, little-endian. */
  function PackI32(x: int): (r: Bytes)
    requires InInt32Range(x)
    ensures |r| == 4 && UnpackI32(r) == x
  {
    Pow256Widths();
    EncodeLE(if x < 0 then x + TWO_32 else x, 4)
  }

  function UnpackI32(bs: Bytes): (x: int)
    requires |bs| == 4
    ensures InInt32Range(x)
  {
    var u := UnpackU32(bs);
    if u >= TWO_31 then u - TWO_32 else u
  }

  /** Unpacking is injective on each width: packing what was unpacked gives back the bytes. */
  lemma UnpackPackU16(bs: Bytes)
    requires |bs| == 2
    ensures PackU16(UnpackU16(bs)) == bs
  {
    EncodeDecodeLE(bs);
  }

  lemma UnpackPackU32(bs: Bytes)
    requires |bs| == 4
    ensures PackU32(UnpackU32(bs)) == bs
  {
    EncodeDecodeLE(bs);
  }

  lemma UnpackPackU64(bs: Bytes)
    requires |bs| == 8
    ensures PackU64(UnpackU64(bs)) == bs
  {
    EncodeDecodeLE(bs);
  }

  lemma UnpackPackI32(bs: Bytes)
    requires |bs| == 4
    ensures PackI32(UnpackI32(bs)) == bs
  {
    EncodeDecodeLE(bs);
    Pow256Widths();
  }
}
