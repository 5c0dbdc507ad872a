/**
 * `utils::intToHex`: a value written to a string stream with `std::showbase`
 * and base 16, after a cast to `uint64_t`.
 */
module HexFormat {
  import opened Results
  import opened NumParse

  const TwoTo64: nat := 0x1_0000_0000_0000_0000

  /** `(uint64_t)i` for a value of an integer type of at most 64 bits: the
      value modulo 2^64, so a negative value becomes 2^64 plus it. */
  function ToUInt64(i: int): (u: nat)
    requires -0x8000_0000_0000_0000 <= i < TwoTo64
    ensures u < TwoTo64
    ensures 0 <= i ==> u == i
    ensures i < 0 ==> u == i + TwoTo64 && u >= 0x8000_0000_0000_0000
  {
    i % TwoTo64
  }

  /** The lower-case hexadecimal digit for `d` (`std::uppercase` is not
      set). */
  function HexDigit(d: nat): (c: char)
    requires d < 16
    ensures IsDigit(c, 16) && DigitValue(c).value == d
    ensures !('A' <= c <= 'Z')
  {
    if d < 10 then ('0' as int + d) as char else ('a' as int + d - 10) as char
  }

  /** The hexadecimal digits of `n`, most significant first, without
      leading zeros. */
  function HexDigits(n: nat): (s: string)
    ensures |s| > 0 && AllDigits(s, 16) && Magnitude(s, 16) == n
    ensures s[0] == '0' <==> n == 0
    ensures forall k :: 0 <= k < |s| ==> !('A' <= s[k] <= 'Z')
    decreases n
  {
    if n < 16 then [HexDigit(n)]
    else
      var init := HexDigits(n / 16);
      var s := init + [HexDigit(n % 16)];
      assert s[..|s| - 1] == init;
      s
  }

  function Pow16(k: nat): nat {
    if k == 0 then 1 else 16 * Pow16(k - 1)
  }

  lemma Pow16Of16()
    ensures Pow16(16) == TwoTo64
  {
    assert Pow16(1) == 0x10;
    assert Pow16(2) == 0x100;
    assert Pow16(3) == 0x1000;
    assert Pow16(4) == 0x10000;
    assert Pow16(5) == 0x100000;
    assert Pow16(6) == 0x1000000;
    assert Pow16(7) == 0x10000000;
    assert Pow16(8) == 0x100000000;
    assert Pow16(9) == 0x1000000000;
    assert Pow16(10) == 0x10000000000;
    assert Pow16(11) == 0x100000000000;
    assert Pow16(12) == 0x1000000000000;
    assert Pow16(13) == 0x10000000000000;
    assert Pow16(14) == 0x100000000000000;
    assert Pow16(15) == 0x1000000000000000;
    assert Pow16(16) == 0x10000000000000000;
  }

  /** A value below 16^k has at most k digits. */
  lemma {:induction false} HexDigitsLength(n: nat, k: nat)
    requires 0 < k && n < Pow16(k)
    ensures |HexDigits(n)| <= k
  {
    if n >= 16 {
      HexDigitsLength(n / 16, k - 1);
    }
  }

  /** `intToHex(i)`: `showbase` puts `0x` before a non-zero value but not
      before zero, which is written `0`; the digits are lower-case and
      without leading zeros, at most 16 of them. */
  function IntToHex(i: int): (s: string)
    requires -0x8000_0000_0000_0000 <= i < TwoTo64
    ensures ToUInt64(i) == 0 ==> s == "0"
    ensures ToUInt64(i) != 0 ==>
              3 <= |s| <= 18 && s[..2] == "0x" && s[2] != '0' &&
              AllDigits(s[2..], 16) && Magnitude(s[2..], 16) == ToUInt64(i)
    ensures forall k :: 2 <= k < |s| ==> !('A' <= s[k] <= 'Z')
  {
    var u := ToUInt64(i);
    if u == 0 then "0"
    else
      assert |HexDigits(u)| <= 16 by {
        Pow16Of16();
        HexDigitsLength(u, 16);
      }
      var s := "0x" + HexDigits(u);
      assert s[..2] == "0x" && s[2..] == HexDigits(u);
      s
  }

  /** Reading the digits after `0x` back in base 16 gives the unsigned
      value that was formatted. */
  lemma ReadBackAfterPrefix(i: int)
    requires -0x8000_0000_0000_0000 <= i < TwoTo64
    requires ToUInt64(i) != 0
    ensures NumFromString(IntToHex(i)[2..], UInt64, 16) == Ok(ToUInt64(i))
  {
    var digits := IntToHex(i)[2..];
    assert digits + [] == digits;
    ReadsNumeralBeforeTrailing(digits, [], UInt64, 16);
  }

  /** A negative value is formatted as its 64-bit two's complement, which
      does not fit a signed 64-bit type when read back. */
  lemma NegativeDoesNotReadBackSigned(i: int)
    requires -0x8000_0000_0000_0000 <= i < 0
    ensures NumFromString(IntToHex(i)[2..], Int64, 16) == Err(TooLarge)
  {
    var digits := IntToHex(i)[2..];
    assert digits + [] == digits;
    ReadsNumeralBeforeTrailing(digits, [], Int64, 16);
  }

  /** `x` is a digit, of value 33, only in bases 34 to 36. */
  lemma PrefixLetterIsDigit(base: int)
    ensures IsDigit('x', base) <==> base > 33
  {
  }

  /** `numFromString` does not skip the `0x` that `intToHex` writes: in any
      base up to 33, where `x` is not a digit, the whole output reads as 0
      into any type. */
  lemma WholeOutputReadsAsZero(i: int, ty: IntType, base: int)
    requires -0x8000_0000_0000_0000 <= i < TwoTo64
    requires ty.Holds(0)
    requires 2 <= base <= 33
    ensures NumFromString(IntToHex(i), ty, base) == Ok(0)
  {
    var s := IntToHex(i);
    assert Magnitude("0", base) == 0 by { assert "0"[..0] == []; }
    if ToUInt64(i) == 0 {
      assert "0" + [] == "0";
      ReadsNumeralBeforeTrailing("0", [], ty, base);
    } else {
      assert s == "0" + s[1..];
      assert s[1..][0] == 'x';
      ReadsNumeralBeforeTrailing("0", s[1..], ty, base);
    }
  }

  /** In bases 34 to 36 the `x` is read as a digit: "0x1" in base 36 is
      33 * 36 + 1. */
  lemma PrefixReadOnInBase36()
    ensures NumFromString("0x1", UInt64, 36) == Ok(1189)
  {
    assert Magnitude("0", 36) == 0 by { assert "0"[..0] == []; }
    assert Magnitude("0x", 36) == 33 by { assert "0x"[..1] == "0"; }
    assert Magnitude("0x1", 36) == 1189 by { assert "0x1"[..2] == "0x"; }
    assert "0x1" + [] == "0x1";
    ReadsNumeralBeforeTrailing("0x1", [], UInt64, 36);
  }
}
