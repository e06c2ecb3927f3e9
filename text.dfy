/** Text handling of the writer on UTF-8 cell bytes: `str.strip()`,
    `str.lower()`, and the literal grammars of `int()` and `float()` in the
    simplified form this model uses (ASCII only, no underscores). */
module Text {
  import opened Wire

  /** The ASCII characters for which Python's `str.isspace()` holds. */
  predicate IsSpace(b: Byte)
  {
    b == 0x20 || 0x09 <= b <= 0x0d || 0x1c <= b <= 0x1f
  }

  function StripLeft(s: Bytes): (r: Bytes)
    ensures |r| <= |s| && r == s[|s| - |r|..]
    ensures |r| > 0 ==> !IsSpace(r[0])
    ensures forall i :: 0 <= i < |s| - |r| ==> IsSpace(s[i])
  {
    if |s| > 0 && IsSpace(s[0]) then StripLeft(s[1..]) else s
  }

  function StripRight(s: Bytes): (r: Bytes)
    ensures |r| <= |s| && r == s[..|r|]
    ensures |r| > 0 ==> !IsSpace(r[|r| - 1])
    ensures forall i :: |r| <= i < |s| ==> IsSpace(s[i])
  {
    if |s| > 0 && IsSpace(s[|s| - 1]) then StripRight(s[..|s| - 1]) else s
  }

  /** `str.strip()`: drops leading and trailing white space. */
  function Strip(s: Bytes): Bytes
  {
    StripRight(StripLeft(s))
  }

  function LowerByte(b: Byte): Byte
  {
    if 0x41 <= b <= 0x5a then b + 0x20 else b
  }

  /** `str.lower()` on ASCII letters. */
  function Lower(s: Bytes): (r: Bytes)
    ensures |r| == |s|
  {
    seq(|s|, i requires 0 <= i < |s| => LowerByte(s[i]))
  }

  const TRUE_TEXT: Bytes := [0x74, 0x72, 0x75, 0x65]         // "true"
  const FALSE_TEXT: Bytes := [0x66, 0x61, 0x6c, 0x73, 0x65]  // "false"

  /** `v.strip().lower() in {"true", "false"}`. */
  predicate IsBoolText(v: Bytes)
  {
    Lower(Strip(v)) == TRUE_TEXT || Lower(Strip(v)) == FALSE_TEXT
  }

  // ----- int() -----

  predicate IsDigit(b: Byte) { 0x30 <= b <= 0x39 }

  predicate AllDigits(s: Bytes)
  {
    forall i :: 0 <= i < |s| ==> IsDigit(s[i])
  }

  predicate IsSign(b: Byte) { b == 0x2b || b == 0x2d }

  function DropSign(s: Bytes): (r: Bytes)
    ensures |r| <= |s|
  {
    if |s| > 0 && IsSign(s[0]) then s[1..] else s
  }

  /** An optional sign and at least one digit, with no bound on their number. */
  predicate IsSignedDigits(s: Bytes)
  {
    var d := DropSign(s);
    |d| > 0 && AllDigits(d)
  }

  /** CPython's default `sys.get_int_max_str_digits()` (3.11 and the security
      releases before it): `int()` raises ValueError for a decimal text with
      more digits than this. */
  const INT_MAX_STR_DIGITS: nat := 4300

  /** A base-10 literal that `int()` accepts: signed digits, no more than
      INT_MAX_STR_DIGITS of them. */
  predicate IsIntLiteral(s: Bytes)
  {
    IsSignedDigits(s) && |DropSign(s)| <= INT_MAX_STR_DIGITS
  }

  function DigitsValue(d: Bytes): nat
    requires AllDigits(d)
  {
    if |d| == 0 then 0 else 10 * DigitsValue(d[..|d| - 1]) + (d[|d| - 1] - 0x30)
  }

  /** `int(s)` for a literal that `IsIntLiteral` accepts. */
  function ParseInt(s: Bytes): int
    requires IsIntLiteral(s)
  {
    if s[0] == 0x2d then -(DigitsValue(DropSign(s)) as int) else DigitsValue(DropSign(s))
  }

  // ----- float() -----

  /** Index of the first byte equal to `a` or `b`, or |s| when there is none. */
  function IndexOf(s: Bytes, a: Byte, b: Byte): (k: nat)
    ensures k <= |s|
    ensures k < |s| ==> s[k] == a || s[k] == b
    ensures forall i :: 0 <= i < k ==> s[i] != a && s[i] != b
  {
    if |s| == 0 || s[0] == a || s[0] == b then 0 else 1 + IndexOf(s[1..], a, b)
  }

  /** Digits with at most one decimal point and at least one digit: "1", "1.", ".5", "1.5". */
  predicate IsMantissa(m: Bytes)
  {
    var p := IndexOf(m, 0x2e, 0x2e);
    if p == |m| then |m| > 0 && AllDigits(m)
    else |m| > 1 && AllDigits(m[..p]) && AllDigits(m[p + 1..])
  }

  /** A mantissa, optionally followed by `e` or `E` and a signed integer exponent. */
  predicate IsDecimalFloat(s: Bytes)
  {
    var e := IndexOf(s, 0x65, 0x45);
    IsMantissa(s[..e]) && (e == |s| || IsSignedDigits(s[e + 1..]))
  }

  const INF_TEXT: Bytes := [0x69, 0x6e, 0x66]                                    // "inf"
  const INFINITY_TEXT: Bytes := [0x69, 0x6e, 0x66, 0x69, 0x6e, 0x69, 0x74, 0x79]  // "infinity"
  const NAN_TEXT: Bytes := [0x6e, 0x61, 0x6e]                                    // "nan"

  /** A literal that `float()` accepts: an optional sign, then a decimal float or
      one of inf, infinity, nan in any case. */
  predicate IsFloatLiteral(s: Bytes)
  {
    var b := DropSign(s);
    IsDecimalFloat(b) || Lower(b) == INF_TEXT || Lower(b) == INFINITY_TEXT || Lower(b) == NAN_TEXT
  }

  /** Signed digits of any length are a float literal. So the FLOAT64 trial
      never rejects a column that the INT32 trial accepted, and it accepts the
      integer texts too long for `int()`. */
  lemma SignedDigitsAreFloat(s: Bytes)
    requires IsSignedDigits(s)
    ensures IsFloatLiteral(s)
  {
    var b := DropSign(s);
    var e := IndexOf(b, 0x65, 0x45);
    assert e == |b|;
    assert b[..e] == b;
  }

  /** An integer text longer than INT_MAX_STR_DIGITS digits is refused by
      `int()` and accepted by `float()`. */
  lemma LongDigitsAreFloatOnly(s: Bytes)
    requires IsSignedDigits(s) && |DropSign(s)| > INT_MAX_STR_DIGITS
    ensures !IsIntLiteral(s) && IsFloatLiteral(s)
  {
    SignedDigitsAreFloat(s);
  }
}
