/**
 * The integer branch of `utils::numFromString`, built on `std::from_chars`
 * as ISO C++17 [utility.from.chars] defines it for integer types.
 */
module NumParse {
  import opened Results

  /** The integer type `Num` being parsed into, as its range of values; it
      is signed exactly when the range holds negative values. */
  datatype IntType = IntType(lo: int, hi: int) {
    predicate Signed() { lo < 0 }
    predicate Holds(v: int) { lo <= v <= hi }
  }

  const Int8 := IntType(-0x80, 0x7f)
  const UInt8 := IntType(0, 0xff)
  const Int32 := IntType(-0x8000_0000, 0x7fff_ffff)
  const UInt32 := IntType(0, 0xffff_ffff)
  const Int64 := IntType(-0x8000_0000_0000_0000, 0x7fff_ffff_ffff_ffff)
  const UInt64 := IntType(0, 0xffff_ffff_ffff_ffff)

  /** The `std::errc` values; `Other` stands for any code besides these. */
  datatype Errc = NoError | InvalidArgument | ResultOutOfRange | Other(code: int)

  /** A `std::from_chars_result` (`ptr` as an index into the input), with
      the value of the output argument after the call. */
  datatype FromCharsResult = FromCharsResult(ptr: nat, ec: Errc, value: int)

  const NotANumber := "String is not a number"
  const TooLarge := "Number is too large to fit"
  const UnknownError := "Unknown error"

  /** A character's value as a digit: `0`-`9`, then `a`-`z` and `A`-`Z`
      for 10 to 35; none for any other character. */
  function DigitValue(c: char): (d: Option<nat>)
    ensures d.Some? ==> d.value < 36
  {
    if '0' <= c <= '9' then Some(c as int - '0' as int)
    else if 'a' <= c <= 'z' then Some(c as int - 'a' as int + 10)
    else if 'A' <= c <= 'Z' then Some(c as int - 'A' as int + 10)
    else None
  }

  predicate IsDigit(c: char, base: int) {
    DigitValue(c).Some? && DigitValue(c).value < base
  }

  predicate AllDigits(s: string, base: int) {
    forall k :: 0 <= k < |s| ==> IsDigit(s[k], base)
  }

  /** Value of a digit string in `base`, most significant digit first. */
  function Magnitude(s: string, base: int): nat
    requires AllDigits(s, base)
  {
    if s == [] then 0
    else Magnitude(s[..|s| - 1], base) * base + DigitValue(s[|s| - 1]).value
  }

  /** Length of the run of digits in `base` that starts at index `i`. */
  function DigitRun(s: string, i: nat, base: int): (n: nat)
    requires i <= |s|
    ensures i + n <= |s|
    ensures AllDigits(s[i..i + n], base)
    ensures i + n == |s| || !IsDigit(s[i + n], base)
    decreases |s| - i
  {
    if i < |s| && IsDigit(s[i], base) then
      var rest := DigitRun(s, i + 1, base);
      assert s[i..i + 1 + rest] == [s[i]] + s[i + 1..i + 1 + rest];
      1 + rest
    else 0
  }

  /** The subject sequence of [utility.from.chars] for integer types: one
      or more digits, after a `-` only when the type is signed. */
  predicate IsNumeral(p: string, ty: IntType, base: int) {
    (|p| > 0 && AllDigits(p, base)) ||
    (ty.Signed() && |p| > 1 && p[0] == '-' && AllDigits(p[1..], base))
  }

  function NumeralValue(p: string, ty: IntType, base: int): int
    requires IsNumeral(p, ty, base)
  {
    if AllDigits(p, base) then Magnitude(p, base) else -(Magnitude(p[1..], base) as int)
  }

  /** `s[..k]` is the longest prefix of `s` that is a numeral. */
  predicate LongestNumeral(s: string, k: nat, ty: IntType, base: int) {
    k <= |s| && IsNumeral(s[..k], ty, base) &&
    forall m :: k < m <= |s| ==> !IsNumeral(s[..m], ty, base)
  }

  /** No prefix of `s` is a numeral. */
  predicate NoNumeral(s: string, ty: IntType, base: int) {
    forall m :: 0 < m <= |s| ==> !IsNumeral(s[..m], ty, base)
  }

  /** Index where the digits start: after a `-`, for a signed type only. */
  function DigitsStart(s: string, ty: IntType): nat {
    if ty.Signed() && |s| > 0 && s[0] == '-' then 1 else 0
  }

  /** A slice starting at `i` is all digits exactly when it ends within
      the run of digits at `i`. */
  lemma DigitSlice(s: string, i: nat, m: nat, base: int)
    requires i <= m <= |s|
    ensures AllDigits(s[i..m], base) <==> m <= i + DigitRun(s, i, base)
  {
    var n := DigitRun(s, i, base);
    if m <= i + n {
      forall k | 0 <= k < m - i ensures IsDigit(s[i..m][k], base) {
        assert s[i..m][k] == s[i..i + n][k];
      }
    } else {
      assert s[i..m][n] == s[i + n];
    }
  }

  /** The numeral prefixes of `s` are exactly those that end after the
      digits start and no later than the run of digits. */
  lemma NumeralPrefix(s: string, ty: IntType, base: int, m: nat)
    requires 0 < m <= |s|
    ensures var start := DigitsStart(s, ty);
            IsNumeral(s[..m], ty, base) <==> start < m <= start + DigitRun(s, start, base)
  {
    var start := DigitsStart(s, ty);
    assert s[..m] == s[0..m];
    if start == 1 {
      assert !IsDigit(s[..m][0], base);
      assert s[..m][1..] == s[1..m];
      DigitSlice(s, 1, m, base);
    } else {
      DigitSlice(s, 0, m, base);
    }
  }

  /** The value of the longest numeral prefix, read off its digits. */
  lemma NumeralValueOfPrefix(s: string, ty: IntType, base: int)
    requires DigitRun(s, DigitsStart(s, ty), base) > 0
    ensures var start := DigitsStart(s, ty);
            var end := start + DigitRun(s, start, base);
            var magnitude: int := Magnitude(s[start..end], base);
            IsNumeral(s[..end], ty, base) &&
            NumeralValue(s[..end], ty, base) == if start == 1 then -magnitude else magnitude
  {
  }

  /** `std::from_chars(first, last, value, base)` for an integer `value` of
      type `ty`, `value` being its value before the call. No leading white
      space, `+` or `0x` is accepted. With no digits the result is
      `invalid_argument` and `ptr` is `first`; otherwise `ptr` is after the
      digits, and a value outside the type gives `result_out_of_range`. On
      either error `value` is left unmodified. */
  function FromChars(s: string, ty: IntType, base: int, value: int): (res: FromCharsResult)
    requires 2 <= base <= 36
    ensures !res.ec.Other?
    ensures res.ec == InvalidArgument <==> NoNumeral(s, ty, base)
    ensures res.ec == InvalidArgument ==> res.ptr == 0 && res.value == value
    ensures res.ec != InvalidArgument ==>
              LongestNumeral(s, res.ptr, ty, base) &&
              (res.ec == NoError <==> ty.Holds(NumeralValue(s[..res.ptr], ty, base))) &&
              res.value == (if res.ec == NoError then NumeralValue(s[..res.ptr], ty, base) else value)
  {
    var start := DigitsStart(s, ty);
    var n := DigitRun(s, start, base);
    assert forall m :: 0 < m <= |s| ==> (IsNumeral(s[..m], ty, base) <==> start < m <= start + n) by {
      forall m | 0 < m <= |s| { NumeralPrefix(s, ty, base, m); }
    }
    if n == 0 then FromCharsResult(0, InvalidArgument, value)
    else
      var magnitude: int := Magnitude(s[start..start + n], base);
      var v := if start == 1 then -magnitude else magnitude;
      assert IsNumeral(s[..start + n], ty, base) && v == NumeralValue(s[..start + n], ty, base) by {
        NumeralValueOfPrefix(s, ty, base);
      }
      if ty.Holds(v) then FromCharsResult(start + n, NoError, v)
      else FromCharsResult(start + n, ResultOutOfRange, value)
  }

  /** `numFromString<Num>(str, base)` for an integer type `Num`: the result
      of `from_chars` over the whole string, whose end pointer is discarded,
      with `ec` turned into a message. `result` starts uninitialised and is
      read only on success, so its starting value is immaterial. */
  function NumFromString(str: string, ty: IntType, base: int): (r: Result<int>)
    requires 2 <= base <= 36
    ensures r.Ok? ==> ty.Holds(r.value)
    ensures r.Err? ==> r.error == NotANumber || r.error == TooLarge
  {
    var res := FromChars(str, ty, base, 0);
    match res.ec
    case NoError => Ok(res.value)
    case InvalidArgument => Err(NotANumber)
    case ResultOutOfRange => Err(TooLarge)
    case Other(_) => Err(UnknownError)
  }

  /** "String is not a number" exactly when no prefix of the string is a
      numeral. */
  lemma NotANumberIffNoNumeral(str: string, ty: IntType, base: int)
    requires 2 <= base <= 36
    ensures NumFromString(str, ty, base) == Err(NotANumber) <==> NoNumeral(str, ty, base)
  {
  }

  /** Otherwise the longest numeral prefix is read: its value when the type
      holds it, else "Number is too large to fit" (also for values below the
      type's minimum). */
  lemma ReadsLongestNumeral(str: string, ty: IntType, base: int, k: nat)
    requires 2 <= base <= 36
    requires LongestNumeral(str, k, ty, base)
    ensures var v := NumeralValue(str[..k], ty, base);
            NumFromString(str, ty, base) == if ty.Holds(v) then Ok(v) else Err(TooLarge)
  {
  }

  /** Characters after a numeral are ignored when they do not continue its
      digits. */
  lemma IgnoresTrailing(p: string, t: string, ty: IntType, base: int)
    requires 2 <= base <= 36
    requires IsNumeral(p, ty, base)
    requires t == [] || !IsDigit(t[0], base)
    ensures NumFromString(p + t, ty, base) == NumFromString(p, ty, base)
  {
    var s := p + t;
    assert s[..|p|] == p;
    assert p[..|p|] == p;
    forall m | |p| < m <= |s| ensures !IsNumeral(s[..m], ty, base) {
      assert s[..m][|p|] == t[0];
      assert s[..m][1..][|p| - 1] == t[0];
    }
    ReadsLongestNumeral(s, ty, base, |p|);
    ReadsLongestNumeral(p, ty, base, |p|);
  }

  /** The result is that of parsing the characters `from_chars` consumed,
      whatever follows them. */
  lemma DependsOnlyOnConsumedPrefix(str: string, ty: IntType, base: int)
    requires 2 <= base <= 36
    ensures var ptr := FromChars(str, ty, base, 0).ptr;
            ptr <= |str| && NumFromString(str, ty, base) == NumFromString(str[..ptr], ty, base)
  {
    var res := FromChars(str, ty, base, 0);
    if res.ec != InvalidArgument {
      var p := str[..res.ptr];
      var t := str[res.ptr..];
      assert p + t == str;
      if t != [] {
        assert t[0] == str[res.ptr];
        assert !IsDigit(t[0], base) by {
          NumeralPrefix(str, ty, base, res.ptr);
        }
      }
      IgnoresTrailing(p, t, ty, base);
    } else {
      assert NoNumeral(str[..0], ty, base);
      NotANumberIffNoNumeral(str[..0], ty, base);
    }
  }

  /** The message "Unknown error" is never produced: `from_chars` reports
      only the two errors above. */
  lemma NeverUnknownError(str: string, ty: IntType, base: int)
    requires 2 <= base <= 36
    ensures NumFromString(str, ty, base) != Err(UnknownError)
  {
  }

  /** A numeral followed by characters that do not continue it reads as
      the numeral alone. */
  lemma ReadsNumeralBeforeTrailing(p: string, t: string, ty: IntType, base: int)
    requires 2 <= base <= 36
    requires IsNumeral(p, ty, base)
    requires t == [] || !IsDigit(t[0], base)
    ensures var v := NumeralValue(p, ty, base);
            NumFromString(p + t, ty, base) == if ty.Holds(v) then Ok(v) else Err(TooLarge)
  {
    IgnoresTrailing(p, t, ty, base);
    assert p[..|p|] == p;
    ReadsLongestNumeral(p, ty, base, |p|);
  }

  lemma ExampleDecimal()
    ensures NumFromString("42", Int32, 10) == Ok(42)
  {
    assert Magnitude("4", 10) == 4 by { assert "4"[..0] == []; }
    assert Magnitude("42", 10) == 42 by { assert "42"[..1] == "4"; }
    assert "42" + [] == "42";
    ReadsNumeralBeforeTrailing("42", [], Int32, 10);
  }

  lemma ExampleTrailingIgnored()
    ensures NumFromString("12abc", Int32, 10) == Ok(12)
  {
    assert Magnitude("1", 10) == 1 by { assert "1"[..0] == []; }
    assert Magnitude("12", 10) == 12 by { assert "12"[..1] == "1"; }
    assert "12" + "abc" == "12abc";
    ReadsNumeralBeforeTrailing("12", "abc", Int32, 10);
  }

  lemma ExampleNegative()
    ensures NumFromString("-7", Int32, 10) == Ok(-7)
  {
  }

  lemma ExampleLeadingSpace()
    ensures NumFromString(" 1", Int32, 10) == Err(NotANumber)
  {
  }

  lemma ExamplePlusSign()
    ensures NumFromString("+1", Int32, 10) == Err(NotANumber)
  {
  }

  lemma ExampleMinusAlone()
    ensures NumFromString("-", Int32, 10) == Err(NotANumber)
  {
  }

  lemma ExampleMinusUnsigned()
    ensures NumFromString("-1", UInt32, 10) == Err(NotANumber)
  {
  }

  lemma ExampleAboveMax()
    ensures NumFromString("256", UInt8, 10) == Err(TooLarge)
  {
    assert Magnitude("2", 10) == 2 by { assert "2"[..0] == []; }
    assert Magnitude("25", 10) == 25 by { assert "25"[..1] == "2"; }
    assert Magnitude("256", 10) == 256 by { assert "256"[..2] == "25"; }
    assert "256" + [] == "256";
    ReadsNumeralBeforeTrailing("256", [], UInt8, 10);
  }

  lemma ExampleBelowMin()
    ensures NumFromString("-129", Int8, 10) == Err(TooLarge)
  {
    assert Magnitude("1", 10) == 1 by { assert "1"[..0] == []; }
    assert Magnitude("12", 10) == 12 by { assert "12"[..1] == "1"; }
    assert Magnitude("129", 10) == 129 by { assert "129"[..2] == "12"; }
    assert !IsDigit("-129"[0], 10) && "-129"[1..] == "129";
    assert "-129" + [] == "-129";
    ReadsNumeralBeforeTrailing("-129", [], Int8, 10);
  }

  lemma ExampleHexMixedCase()
    ensures NumFromString("fF", UInt8, 16) == Ok(255)
  {
    assert Magnitude("f", 16) == 15 by { assert "f"[..0] == []; }
    assert Magnitude("fF", 16) == 255 by { assert "fF"[..1] == "f"; }
    assert "fF" + [] == "fF";
    ReadsNumeralBeforeTrailing("fF", [], UInt8, 16);
  }

  /** `from_chars` does not accept a `0x` prefix: it reads the `0`. */
  lemma ExampleHexPrefix()
    ensures NumFromString("0x1f", Int32, 16) == Ok(0)
  {
    assert Magnitude("0", 16) == 0 by { assert "0"[..0] == []; }
    assert "0" + "x1f" == "0x1f";
    ReadsNumeralBeforeTrailing("0", "x1f", Int32, 16);
  }
}
