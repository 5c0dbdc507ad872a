/**
 * The compile-time string hash `utils::hash` and the `_h` literal operators.
 *
 * A C string is modelled as a sequence of code units together with a start
 * index `h`; it must hold a NUL at or after `h`, which ends the string.
 * Code units are kept as the integer values they have after integer
 * promotion, so one definition serves both the `char` and the `wchar_t`
 * overload, whose bodies are the same.
 */
module StringHash {

  /** A narrow code unit: `char`, signed as on the x86 and x86-64 ABIs. */
  type CChar = c: int | -0x80 <= c < 0x80

  /** A wide code unit: `wchar_t` is 32-bit signed on Linux and macOS and
      16-bit unsigned on Windows; both ranges lie inside this one. */
  type WChar = c: int | -0x8000_0000 <= c < 0x8000_0000

  /** `size_t` on the 64-bit targets. */
  type SizeT = n: nat | n < 0x1_0000_0000_0000_0000

  /** The value of the empty string. */
  const Seed: bv32 := 5381

  /** A code unit converted to `unsigned int` for the exclusive-or: modulo
      2^32, so a negative unit is sign-extended. */
  function Promote(c: int): bv32 {
    (c % 0x1_0000_0000) as bv32
  }

  /** One step of the hash: multiply by 33 in `unsigned int` (wrapping
      modulo 2^32), then exclusive-or the code unit. */
  function Mix(acc: bv32, c: int): bv32 {
    (acc * 33) ^ Promote(c)
  }

  /** The C string starting at `h` is terminated. */
  predicate Terminated(str: seq<int>, h: nat) {
    h <= |str| && 0 in str[h..]
  }

  /** Index of the terminating NUL of the C string starting at `h`. */
  function FirstNul(str: seq<int>, h: nat): (n: nat)
    requires Terminated(str, h)
    ensures h <= n < |str| && str[n] == 0
    ensures forall i :: h <= i < n ==> str[i] != 0
    decreases |str| - h
  {
    if str[h] == 0 then h
    else
      assert str[h..] == [str[h]] + str[h + 1..];
      FirstNul(str, h + 1)
  }

  /** The characters of the C string starting at `h`, without the NUL. */
  function Content(str: seq<int>, h: nat): (s: seq<int>)
    requires Terminated(str, h)
    ensures 0 !in s
  {
    str[h..FirstNul(str, h)]
  }

  /** Reference definition on the characters of a string: the last
      character is mixed into 5381 first, the first character last. */
  function HashOf(s: seq<int>): bv32 {
    if s == [] then Seed else Mix(HashOf(s[1..]), s[0])
  }

  /** `utils::hash(str, h)`, both overloads: 5381 at the NUL, otherwise the
      hash of the rest times 33, exclusive-or the character at `h`. Only the
      characters up to the first NUL matter. */
  function Hash(str: seq<int>, h: nat): (r: bv32)
    requires Terminated(str, h)
    ensures str[h] == 0 ==> r == 5381
    ensures r == HashOf(Content(str, h))
    decreases |str| - h
  {
    if str[h] == 0 then Seed
    else
      assert str[h..] == [str[h]] + str[h + 1..];
      Mix(Hash(str, h + 1), str[h])
  }

  /** `operator"" _h(char const* txt, size_t)`: the compiler passes the
      characters of the literal followed by a NUL at index `len`; the length
      is not used, so an embedded NUL ends the hashed text. The 32-bit hash
      is widened to `size_t`. */
  function NarrowLiteralHash(txt: seq<CChar>, len: SizeT): (r: SizeT)
    requires len < |txt| && txt[len] == 0
    ensures assert Terminated(txt, 0) by { assert txt[0..][len] == 0; }
            r < 0x1_0000_0000 && r == HashOf(Content(txt, 0)) as int
  {
    assert txt[0..][len] == 0;
    Hash(txt, 0) as int
  }

  /** `operator"" _h(wchar_t const* txt, size_t)`, as the narrow one. */
  function WideLiteralHash(txt: seq<WChar>, len: SizeT): (r: SizeT)
    requires len < |txt| && txt[len] == 0
    ensures assert Terminated(txt, 0) by { assert txt[0..][len] == 0; }
            r < 0x1_0000_0000 && r == HashOf(Content(txt, 0)) as int
  {
    assert txt[0..][len] == 0;
    Hash(txt, 0) as int
  }

  /** For a literal with no embedded NUL, `_h` hashes exactly its `len`
      characters. */
  lemma {:induction false} LiteralHashesWholeText(txt: seq<CChar>, len: SizeT)
    requires len < |txt| && txt[len] == 0
    requires forall i :: 0 <= i < len ==> txt[i] != 0
    ensures NarrowLiteralHash(txt, len) == HashOf(txt[..len]) as int
  {
  }

  /** Characters after the terminating NUL do not change the hash. */
  lemma {:induction false} HashIgnoresAfterNul(str: seq<int>, h: nat, tail: seq<int>)
    requires Terminated(str, h)
    ensures var n := FirstNul(str, h);
            Terminated(str[..n + 1] + tail, h) &&
            Hash(str[..n + 1] + tail, h) == Hash(str, h)
  {
    var n := FirstNul(str, h);
    var other := str[..n + 1] + tail;
    assert other[h..][n - h] == 0;
    assert FirstNul(other, h) == n;
    assert Content(other, h) == Content(str, h);
  }

  /** The narrow and the wide overload agree on strings whose characters,
      up to the NUL, have the same values. */
  lemma NarrowWideAgree(narrow: seq<CChar>, i: nat, wide: seq<WChar>, j: nat)
    requires Terminated(narrow, i) && Terminated(wide, j)
    requires Content(narrow, i) == Content(wide, j)
    ensures Hash(narrow, i) == Hash(wide, j)
  {
  }

  /** A one-character C string hashes to that character mixed into 5381. */
  lemma HashOfOneUnit(c: int)
    requires c != 0
    ensures Terminated([c, 0], 0) && Hash([c, 0], 0) == Mix(Seed, c)
  {
    assert [c, 0][0..] == [c, 0];
    assert [c, 0][1..] == [0];
  }

  /** A narrow unit at or above 0x80 is negative in a signed `char` and is
      sign-extended, so `"\xE9"` and `L"\xE9"` hash differently. */
  lemma SignedCharDiffersFromWide()
    ensures Terminated([-0x17, 0], 0) && Hash([-0x17, 0], 0) == 0xfffd4a4c
    ensures Terminated([0xE9, 0], 0) && Hash([0xE9, 0], 0) == 0x2b54c
  {
    HashOfOneUnit(-0x17);
    HashOfOneUnit(0xE9);
    MixSeedSignExtended();
    MixSeedUnsigned();
  }

  lemma MixSeedSignExtended()
    ensures Mix(Seed, -0x17) == 0xfffd4a4c
  {
    assert Seed * 33 == 0x2b5a5;
    assert Promote(-0x17) == 0xffff_ffe9 by {
      assert -0x17 % 0x1_0000_0000 == 0xffff_ffe9;
    }
    assert (0x2b5a5 as bv32) ^ 0xffff_ffe9 == 0xfffd4a4c;
  }

  lemma MixSeedUnsigned()
    ensures Mix(Seed, 0xE9) == 0x2b54c
  {
    assert Seed * 33 == 0x2b5a5;
    assert Promote(0xE9) == 0xe9;
    assert (0x2b5a5 as bv32) ^ 0xe9 == 0x2b54c;
  }

  /** Classic djb2 (exclusive-or form): characters consumed left to right,
      starting from `acc`. */
  function Djb2From(acc: bv32, s: seq<int>): bv32
    decreases |s|
  {
    if s == [] then acc else Djb2From(Mix(acc, s[0]), s[1..])
  }

  function Reverse(s: seq<int>): (r: seq<int>)
    ensures |r| == |s|
  {
    if s == [] then [] else Reverse(s[1..]) + [s[0]]
  }

  lemma {:induction false} Djb2Snoc(acc: bv32, s: seq<int>, c: int)
    ensures Djb2From(acc, s + [c]) == Mix(Djb2From(acc, s), c)
    decreases |s|
  {
    if s == [] {
      assert s + [c] == [c];
      assert [c][1..] == [];
    } else {
      assert (s + [c])[1..] == s[1..] + [c];
      Djb2Snoc(Mix(acc, s[0]), s[1..], c);
    }
  }

  /** Because the recursion mixes the character at `h` after the rest, the
      hash is classic left-to-right djb2 of the reversed characters. */
  lemma {:induction false} HashOfIsDjb2OfReverse(s: seq<int>)
    ensures HashOf(s) == Djb2From(Seed, Reverse(s))
  {
    if s != [] {
      HashOfIsDjb2OfReverse(s[1..]);
      Djb2Snoc(Seed, Reverse(s[1..]), s[0]);
    }
  }

  /** Hence the hash depends on the order of the characters: "ab" and "ba"
      differ. */
  lemma HashIsOrderSensitive()
    ensures HashOf(['a' as int, 'b' as int]) == 0x596ec6
    ensures HashOf(['b' as int, 'a' as int]) == 0x596e26
  {
    HashOfTwoUnits('a' as int, 'b' as int);
    HashOfTwoUnits('b' as int, 'a' as int);
    MixedAB();
    MixedBA();
  }

  lemma HashOfTwoUnits(c: int, d: int)
    ensures HashOf([c, d]) == Mix(Mix(Seed, d), c)
  {
    assert [c, d][1..] == [d];
    assert [d][1..] == [];
    assert HashOf([d]) == Mix(HashOf([]), d);
  }

  /** 'b' first (5381 * 33 ^ 0x62 = 0x2b5c7), then 'a'. */
  lemma MixedAB()
    ensures Mix(Mix(Seed, 'b' as int), 'a' as int) == 0x596ec6
  {
    assert Promote('a' as int) == 0x61 && Promote('b' as int) == 0x62;
    assert Seed * 33 == 0x2b5a5;
    assert (0x2b5a5 as bv32) ^ 0x62 == 0x2b5c7;
    assert (0x2b5c7 as bv32) * 33 == 0x596ea7;
    assert (0x596ea7 as bv32) ^ 0x61 == 0x596ec6;
  }

  /** 'a' first (5381 * 33 ^ 0x61 = 0x2b5c4), then 'b'. */
  lemma MixedBA()
    ensures Mix(Mix(Seed, 'a' as int), 'b' as int) == 0x596e26
  {
    assert Promote('a' as int) == 0x61 && Promote('b' as int) == 0x62;
    assert Seed * 33 == 0x2b5a5;
    assert (0x2b5a5 as bv32) ^ 0x61 == 0x2b5c4;
    assert (0x2b5c4 as bv32) * 33 == 0x596e44;
    assert (0x596e44 as bv32) ^ 0x62 == 0x596e26;
  }
}
