/** Column type inference (gpp_writer.infer_column_type): the first of
    BOOL, INT32, FLOAT64 under which every stripped value parses wins, and
    STRING is the fallback. */
module TypeInference {
  import opened Wire
  import opened Format
  import opened Text

  predicate AllBool(values: seq<Bytes>)
  {
    forall i :: 0 <= i < |values| ==> IsBoolText(values[i])
  }

  predicate AllInt(values: seq<Bytes>)
  {
    forall i :: 0 <= i < |values| ==> IsIntLiteral(Strip(values[i]))
  }

  predicate AllFloat(values: seq<Bytes>)
  {
    forall i :: 0 <= i < |values| ==> IsFloatLiteral(Strip(values[i]))
  }

  /** The inferred type id is always one of the four the format defines. */
  function InferColumnType(values: seq<Bytes>): (t: nat)
    ensures t == TYPE_BOOL || t == TYPE_INT32 || t == TYPE_FLOAT64 || t == TYPE_STRING
  {
    if AllBool(values) then TYPE_BOOL
    else if AllInt(values) then TYPE_INT32
    else if AllFloat(values) then TYPE_FLOAT64
    else TYPE_STRING
  }

  /** A column is STRING only when some value is not a bool and some value
      (possibly another one) is neither an integer nor a float literal. */
  lemma StringMeansSomeValueIsText(values: seq<Bytes>)
    requires InferColumnType(values) == TYPE_STRING
    ensures exists i :: 0 <= i < |values| && !IsBoolText(values[i])
    ensures exists i :: 0 <= i < |values| && !IsIntLiteral(Strip(values[i])) && !IsFloatLiteral(Strip(values[i]))
  {
    assert !AllFloat(values);
    var i :| 0 <= i < |values| && !IsFloatLiteral(Strip(values[i]));
    if IsIntLiteral(Strip(values[i])) {
      SignedDigitsAreFloat(Strip(values[i]));
    }
  }

  /** A column is FLOAT64 only when some value is not an integer literal: a
      column of integers is INT32 however large its values. */
  lemma FloatMeansSomeValueIsNotInt(values: seq<Bytes>)
    requires InferColumnType(values) == TYPE_FLOAT64
    ensures exists i :: 0 <= i < |values| && !IsIntLiteral(Strip(values[i]))
  {
  }

  /** A column of one integer literal is INT32, whatever its value. */
  lemma LoneIntegerIsInt32(v: Bytes)
    requires IsIntLiteral(Strip(v))
    ensures InferColumnType([v]) == TYPE_INT32
  {
    var col := [v];
    assert col[0] == v;
    SignedDigitsAreFloat(Strip(v));
    if IsBoolText(v) {
      BoolTextIsNotFloat(v);
    }
    assert !AllBool(col);
    assert AllInt(col);
  }

  /** A column of integer texts where one has more than INT_MAX_STR_DIGITS
      digits fails the int trial and passes the float trial: it is FLOAT64. */
  lemma LongIntegerIsFloat64(values: seq<Bytes>, i: nat)
    requires i < |values|
    requires forall k :: 0 <= k < |values| ==> IsSignedDigits(Strip(values[k]))
    requires |DropSign(Strip(values[i]))| > INT_MAX_STR_DIGITS
    ensures !AllInt(values) && AllFloat(values)
    ensures InferColumnType(values) == TYPE_FLOAT64
  {
    SignedDigitsAreFloat(Strip(values[i]));
    if IsBoolText(values[i]) {
      BoolTextIsNotFloat(values[i]);
    }
    assert !AllBool(values);
    assert !AllInt(values);
    forall k | 0 <= k < |values|
      ensures IsFloatLiteral(Strip(values[k]))
    {
      SignedDigitsAreFloat(Strip(values[k]));
    }
  }

  /** What `float()` accepts starts with a sign, a digit, a point, or the i/n of inf/nan. */
  lemma FloatLiteralStart(s: Bytes)
    requires IsFloatLiteral(s)
    ensures |s| > 0
    ensures IsSign(s[0]) || IsDigit(s[0]) || s[0] == 0x2e || LowerByte(s[0]) == 0x69 || LowerByte(s[0]) == 0x6e
  {
    var b := DropSign(s);
    if !(|s| > 0 && IsSign(s[0])) {
      assert b == s;
      if IsDecimalFloat(b) {
        var e := IndexOf(b, 0x65, 0x45);
        var m := b[..e];
        MantissaStart(m);
        assert m[0] == b[0];
      } else {
        assert |Lower(b)| >= 3 && Lower(b)[0] == LowerByte(b[0]);
      }
    }
  }

  lemma MantissaStart(m: Bytes)
    requires IsMantissa(m)
    ensures |m| > 0 && (IsDigit(m[0]) || m[0] == 0x2e)
  {
    var p := IndexOf(m, 0x2e, 0x2e);
    if 0 < p < |m| {
      assert m[..p][0] == m[0];
    }
  }

  /** "true" and "false", in any case, are not float literals. */
  lemma BoolTextIsNotFloat(v: Bytes)
    requires IsBoolText(v)
    ensures !IsFloatLiteral(Strip(v))
  {
    var s := Strip(v);
    assert Lower(s)[0] == LowerByte(s[0]);
    if IsFloatLiteral(s) {
      FloatLiteralStart(s);
    }
  }

  /** A value with no white space at either end is its own stripped form. */
  lemma StripUnpadded(s: Bytes)
    requires |s| > 0 ==> !IsSpace(s[0]) && !IsSpace(s[|s| - 1])
    ensures Strip(s) == s
  {
  }

  lemma LowerWithoutCapitals(s: Bytes)
    requires forall i :: 0 <= i < |s| ==> !(0x41 <= s[i] <= 0x5a)
    ensures Lower(s) == s
  {
  }

  lemma TrueTextIsBool()
    ensures IsBoolText(TRUE_TEXT)
  {
    assert Strip(TRUE_TEXT) == TRUE_TEXT by { StripUnpadded(TRUE_TEXT); }
    assert Lower(TRUE_TEXT) == TRUE_TEXT by { LowerWithoutCapitals(TRUE_TEXT); }
  }

  lemma FalseTextIsBool()
    ensures IsBoolText(FALSE_TEXT)
  {
    assert Strip(FALSE_TEXT) == FALSE_TEXT by { StripUnpadded(FALSE_TEXT); }
    assert Lower(FALSE_TEXT) == FALSE_TEXT by { LowerWithoutCapitals(FALSE_TEXT); }
  }

  /** Fewer than four bytes after stripping cannot spell "true" or "false". */
  lemma ShortTextIsNotBool(v: Bytes)
    requires |Strip(v)| < 4
    ensures !IsBoolText(v)
  {
  }

  /** An empty column is BOOL, by vacuous truth of the first trial. */
  lemma EmptyColumnIsBool()
    ensures InferColumnType([]) == TYPE_BOOL
  {
  }

  lemma BoolPairIsBool(a: Bytes, b: Bytes)
    requires IsBoolText(a) && IsBoolText(b)
    ensures InferColumnType([a, b]) == TYPE_BOOL
  {
    var col := [a, b];
    assert forall i :: 0 <= i < |col| ==> col[i] == a || col[i] == b;
    assert AllBool(col);
  }

  lemma BoolExample(col: seq<Bytes>)
    requires col == [TRUE_TEXT, FALSE_TEXT]
    ensures InferColumnType(col) == TYPE_BOOL
  {
    TrueTextIsBool();
    FalseTextIsBool();
    BoolPairIsBool(TRUE_TEXT, FALSE_TEXT);
  }

  /** "1", "2", "-3" is INT32. */
  lemma Int32Example(col: seq<Bytes>)
    requires col == [[0x31], [0x32], [0x2d, 0x33]]
    ensures InferColumnType(col) == TYPE_INT32
  {
    var one, two, minusThree := col[0], col[1], col[2];
    assert Strip(one) == one by { StripUnpadded(one); }
    assert Strip(two) == two by { StripUnpadded(two); }
    assert Strip(minusThree) == minusThree by { StripUnpadded(minusThree); }
    ShortTextIsNotBool(one);
    assert !AllBool(col) by { assert !IsBoolText(col[0]); }
    assert IsIntLiteral(one) by { assert DropSign(one) == one; }
    assert IsIntLiteral(two) by { assert DropSign(two) == two; }
    assert IsIntLiteral(minusThree) by { assert DropSign(minusThree) == [0x33]; }
    assert AllInt(col);
  }

  /** "1.5" is a float literal and not an integer literal. */
  lemma OnePointFive(v: Bytes)
    requires v == [0x31, 0x2e, 0x35]
    ensures Strip(v) == v && !IsIntLiteral(v) && IsFloatLiteral(v)
  {
    StripUnpadded(v);
    assert !IsDigit(v[1]);
    assert IndexOf(v, 0x65, 0x45) == 3;
    assert IndexOf(v, 0x2e, 0x2e) == 1;
    assert v[..3] == v;
  }

  /** "1.5", "2" is FLOAT64. */
  lemma Float64Example(col: seq<Bytes>)
    requires col == [[0x31, 0x2e, 0x35], [0x32]]
    ensures InferColumnType(col) == TYPE_FLOAT64
  {
    var onePointFive, two := col[0], col[1];
    OnePointFive(onePointFive);
    ShortTextIsNotBool(onePointFive);
    assert Strip(two) == two by { StripUnpadded(two); }
    SignedDigitsAreFloat(two);
    assert AllFloat(col);
  }

  /** "1.5", "abc" is STRING. */
  lemma StringExample(col: seq<Bytes>)
    requires col == [[0x31, 0x2e, 0x35], [0x61, 0x62, 0x63]]
    ensures InferColumnType(col) == TYPE_STRING
  {
    var onePointFive, abc := col[0], col[1];
    OnePointFive(onePointFive);
    ShortTextIsNotBool(onePointFive);
    assert Strip(abc) == abc by { StripUnpadded(abc); }
    assert !IsFloatLiteral(abc) by {
      if IsFloatLiteral(abc) {
        FloatLiteralStart(abc);
      }
    }
  }

  /** "true", "1" is STRING: bools and numbers in one column fall through to the fallback. */
  lemma MixedBoolIntExample(col: seq<Bytes>)
    requires col == [TRUE_TEXT, [0x31]]
    ensures InferColumnType(col) == TYPE_STRING
  {
    var t, one := col[0], col[1];
    assert Strip(one) == one by { StripUnpadded(one); }
    ShortTextIsNotBool(one);
    TrueTextIsBool();
    assert Strip(t) == t by { StripUnpadded(t); }
    assert !IsIntLiteral(t) by { assert !IsDigit(t[0]); }
    BoolTextIsNotFloat(t);
  }
}
