# Geode general utilities, modelled in Dafny

This project models the small self-contained helpers of Geode's
`geode::utils` namespace (`loader/include/Geode/utils/general.hpp`) and proves what they promise:

- `utils::hash` and the `_h` literal operators: the compile-time string
  hash, 5381 at the terminating NUL, otherwise the hash of the rest times 33,
  exclusive-or the current character, in 32-bit `unsigned int` arithmetic
  (`string_hash.dfy`, module `StringHash`);
- `utils::clamp` (`clamp.dfy`, module `Clamp`);
- `utils::getOr` on a `std::variant` (`variant.dfy`, module `Variant`);
- the integer branch of `utils::numFromString`, with `std::from_chars`
  modelled after ISO C++17 [utility.from.chars] (`num_parse.dfy`, module
  `NumParse`);
- `utils::intToHex` (`hex_format.dfy`, module `HexFormat`);
- Geode's `Result<T>` as `Ok(value)` / `Err(message)` (`results.dfy`).

Modelling choices:

- A C string is a sequence of code units plus a start index `h`, and must
  hold a NUL at or after `h`. Code units are the integer values they have
  after integer promotion; converting them to `unsigned int` for the
  exclusive-or is reduction modulo 2^32, so a negative `char` is
  sign-extended. The hash accumulator is a `bv32`, so `* 33` wraps. Both
  overloads (`char` and `wchar_t`) have the same body and are modelled by
  one function, `StringHash.Hash`; the literal operators take the narrow
  (`CChar`, signed `char`) or wide (`WChar`) unit types.
- The recursion mixes the character at `h` after the rest of the string, so
  the value is classic djb2 (exclusive-or form) of the reversed characters
  (`HashOfIsDjb2OfReverse`); it is still order-sensitive.
- `clamp` compares with `<` only and tests the lower bound first. With
  `minValue > maxValue` it never returns the value itself and is not
  idempotent (`ClampReversedBounds`).
- A `std::variant` is seen from the alternative type `T` asked for: it
  holds a `T` or one of its other alternatives.
- The integer type of `numFromString<Num>` is its range `[lo, hi]`; it is
  signed exactly when `lo < 0`. `from_chars` accepts a `-` only for signed
  types, then the longest run of digits below `base` (letters in either
  case); there is no white space, `+` or `0x` prefix. The end pointer is
  discarded, so characters after the digits are ignored. A value below the
  type's minimum is also reported as "Number is too large to fit". The
  `base` must lie in 2..36, as `from_chars` requires of its callers.
- `intToHex` casts to `uint64_t` (reduction modulo 2^64) and writes with
  `std::showbase` in base 16: `0x` and lower-case digits for a non-zero
  value, and a bare `0` for zero. Because `from_chars` does not skip `0x`,
  `numFromString` in base 16 (in fact in any base up to 33) reads any
  `intToHex` output as 0; in bases 34 to 36 `x` is a digit and is read on.
  The digits after the prefix read back in base 16 as the formatted
  unsigned value.

## Model

| member | source | states |
|---|---|---|
| `StringHash.Hash` | loader/include/Geode/utils/general.hpp:55-61 | 5381 when the character at `h` is NUL; in general equal to the reference hash `HashOf` of the characters from `h` up to the first NUL, so nothing after the NUL matters |
| `StringHash.HashIgnoresAfterNul` | loader/include/Geode/utils/general.hpp:55-57 | replacing everything after the terminating NUL leaves the hash unchanged |
| `StringHash.NarrowWideAgree` | loader/include/Geode/utils/general.hpp:55-61 | the `char` and `wchar_t` overloads give the same value for strings with the same code-unit values up to the NUL |
| `StringHash.SignedCharDiffersFromWide` | loader/include/Geode/utils/general.hpp:55-61 | a signed `char` unit 0xE9 is sign-extended before the exclusive-or, so `"\xE9"` and `L"\xE9"` hash to 0xfffd4a4c and 0x2b54c |
| `StringHash.HashOfIsDjb2OfReverse` | loader/include/Geode/utils/general.hpp:56 | the hash equals left-to-right djb2 (seed 5381, times 33, exclusive-or) of the reversed characters |
| `StringHash.HashIsOrderSensitive` | loader/include/Geode/utils/general.hpp:56 | "ab" and "ba" hash to different values (0x596ec6 and 0x596e26) |
| `StringHash.NarrowLiteralHash` | loader/include/Geode/utils/general.hpp:63-65 | `"..."_h` is below 2^32 and equals the hash of the literal's characters before its first NUL; the length argument is not used |
| `StringHash.WideLiteralHash` | loader/include/Geode/utils/general.hpp:67-69 | the same for `L"..."_h` |
| `StringHash.LiteralHashesWholeText` | loader/include/Geode/utils/general.hpp:63-65 | for a literal without embedded NUL, `_h` hashes exactly its `len` characters |
| `Clamp.Clamp` | loader/include/Geode/utils/general.hpp:71-74 | the result is the value or one of the bounds; with ordered bounds it lies within them; a value within the bounds is returned unchanged |
| `Clamp.ClampIsMaxOfMin` | loader/include/Geode/utils/general.hpp:73 | with ordered bounds, clamp equals max(minValue, min(value, maxValue)) |
| `Clamp.ClampIsNearest` | loader/include/Geode/utils/general.hpp:73 | the result is no farther from the value than any point of the range |
| `Clamp.ClampIdempotent` | loader/include/Geode/utils/general.hpp:73 | with ordered bounds, clamping an already clamped value gives it back |
| `Clamp.ClampMonotone` | loader/include/Geode/utils/general.hpp:73 | with ordered bounds, clamping preserves the order of values |
| `Clamp.ClampReversedBounds` | loader/include/Geode/utils/general.hpp:73 | with minValue > maxValue the result is minValue below it and maxValue otherwise, never the value; clamp(0, 5, 3) is 5 but clamp(5, 5, 3) is 3 |
| `Variant.GetOr` | loader/include/Geode/utils/general.hpp:49-53 | the held value when the variant holds a `T`, the default otherwise |
| `Variant.GetOrAfterStore` | loader/include/Geode/utils/general.hpp:50-52 | a stored `T` is read back whatever the default |
| `Variant.GetOrDependsOnDefault` | loader/include/Geode/utils/general.hpp:50-52 | two distinct defaults give the same result exactly when the variant holds a `T` |
| `NumParse.DigitRun` | loader/include/Geode/utils/general.hpp:130 | the run of digits at an index is maximal: all digits below `base`, followed by the end or a non-digit |
| `NumParse.FromChars` | loader/include/Geode/utils/general.hpp:130 | never an error other than the two below; `invalid_argument` (with `ptr` at the start and the value unmodified) exactly when no prefix is a numeral; otherwise `ptr` ends the longest numeral prefix, and the result is success with that prefix's value exactly when the type holds it, else `result_out_of_range` with the value unmodified |
| `NumParse.NumFromString` | loader/include/Geode/utils/general.hpp:126-137 | a success value fits the target type; an error is "String is not a number" or "Number is too large to fit" |
| `NumParse.NotANumberIffNoNumeral` | loader/include/Geode/utils/general.hpp:130-134 | "String is not a number" exactly when no prefix of the input is an optional `-` (signed types only) followed by digits |
| `NumParse.ReadsLongestNumeral` | loader/include/Geode/utils/general.hpp:130-135 | otherwise the longest numeral prefix is read: `Ok` of its value when the type holds it, else "Number is too large to fit" |
| `NumParse.IgnoresTrailing` | loader/include/Geode/utils/general.hpp:130-133 | characters after a numeral that do not continue its digits do not change the result |
| `NumParse.ReadsNumeralBeforeTrailing` | loader/include/Geode/utils/general.hpp:130-135 | a numeral followed by a non-digit reads as the numeral's value, or "Number is too large to fit" |
| `NumParse.DependsOnlyOnConsumedPrefix` | loader/include/Geode/utils/general.hpp:132-133 | the result equals that of parsing only the characters `from_chars` consumed |
| `NumParse.NeverUnknownError` | loader/include/Geode/utils/general.hpp:132-136 | the "Unknown error" branch is never taken |
| `NumParse.ExampleDecimal` | loader/include/Geode/utils/general.hpp:126-137 | "42" reads as 42 |
| `NumParse.ExampleTrailingIgnored` | loader/include/Geode/utils/general.hpp:126-137 | "12abc" reads as 12 |
| `NumParse.ExampleNegative` | loader/include/Geode/utils/general.hpp:126-137 | "-7" reads as -7 into a signed type |
| `NumParse.ExampleLeadingSpace` | loader/include/Geode/utils/general.hpp:126-137 | " 1" is not a number: no white space is skipped |
| `NumParse.ExamplePlusSign` | loader/include/Geode/utils/general.hpp:126-137 | "+1" is not a number |
| `NumParse.ExampleMinusAlone` | loader/include/Geode/utils/general.hpp:126-137 | "-" is not a number |
| `NumParse.ExampleMinusUnsigned` | loader/include/Geode/utils/general.hpp:126-137 | "-1" is not a number for an unsigned type |
| `NumParse.ExampleAboveMax` | loader/include/Geode/utils/general.hpp:126-137 | "256" is too large for an 8-bit unsigned type |
| `NumParse.ExampleBelowMin` | loader/include/Geode/utils/general.hpp:126-137 | "-129" for an 8-bit signed type is also reported as too large |
| `NumParse.ExampleHexMixedCase` | loader/include/Geode/utils/general.hpp:126-137 | "fF" in base 16 reads as 255 |
| `NumParse.ExampleHexPrefix` | loader/include/Geode/utils/general.hpp:126-137 | "0x1f" in base 16 reads as 0 |
| `HexFormat.ToUInt64` | loader/include/Geode/utils/general.hpp:79 | the `uint64_t` cast keeps non-negative values and maps a negative one to 2^64 plus it, at least 2^63 |
| `HexFormat.HexDigit` | loader/include/Geode/utils/general.hpp:79 | a lower-case digit whose value in base 16 is the given one |
| `HexFormat.HexDigits` | loader/include/Geode/utils/general.hpp:79 | non-empty lower-case base-16 digits whose value is the number, with a leading zero only for zero |
| `HexFormat.HexDigitsLength` | loader/include/Geode/utils/general.hpp:79 | a number below 16^k has at most k digits |
| `HexFormat.IntToHex` | loader/include/Geode/utils/general.hpp:76-81 | "0" for a value that is 0 modulo 2^64; otherwise "0x" then 1 to 16 lower-case digits, without a leading zero, whose value is the `uint64_t` value |
| `HexFormat.ReadBackAfterPrefix` | loader/include/Geode/utils/general.hpp:76-81 | the digits after "0x" read back by `numFromString<uint64_t>` in base 16 give the formatted value |
| `HexFormat.NegativeDoesNotReadBackSigned` | loader/include/Geode/utils/general.hpp:76-81 | for a negative value those digits do not fit `int64_t`: "Number is too large to fit" |
| `HexFormat.WholeOutputReadsAsZero` | loader/include/Geode/utils/general.hpp:76-81 | in any base from 2 to 33 the whole output, prefix included, reads as 0 into any type holding 0 |
| `HexFormat.PrefixLetterIsDigit` | loader/include/Geode/utils/general.hpp:79 | the `x` of the prefix is a digit exactly in bases above 33 |
| `HexFormat.PrefixReadOnInBase36` | loader/include/Geode/utils/general.hpp:79 | in base 36, "0x1" reads as 1189 (0, 33, 1), not as 0 |

## Left out

- `loader/include/Geode/utils/file.hpp`, zip writing and reading, file watching, file dialogs and the disk reads and writes: these are declarations only; the archive backend, the OS watch primitives and the dialogs behind them are not part of this model.
- `loader/include/Geode/utils/file.hpp`, the `matjson::Serialize<ghc::filesystem::path>` conversions (lines 13-24), `readFromJson` (lines 31-38) and `writeToJson` (lines 43-47): thin wrappers over matjson and over `readJson` and `writeString`, which are only declared; matjson is not part of this model.
- The floating-point paths of `numFromString`: `strtod` and the global locale set by `setlocale` (lines 108-125), or `from_chars` on a floating-point type (line 129) when `__cpp_lib_to_chars` makes the first branch dead (line 110); floating point is not modelled.
- `numToString` (lines 90-98): stream formatting of floating-point precision.
- `toByteArray` (lines 28-34): copies an object's bytes, whose layout depends on the platform.
- `std::hash<ghc::filesystem::path>` (lines 18-23): `ghc::filesystem::hash_value` is not part of this model.
- `timePointAsString`, `clipboard::*`, `game::*`, `thread::*` (lines 140-166): clock and operating-system calls whose bodies are not present.
- `makeVisitor` and `TypeIdentity` (lines 36-47): type-level helpers with no run-time behaviour.
- `Result.hpp` is not part of this model; `Result<T>` is modelled as a value or an error message.
- StringHash.Hash: the index `h` is an `int` in the source; strings longer than `INT_MAX` and compilers' limits on constant-evaluation depth are not modelled.
- StringHash.NarrowLiteralHash: narrow units are taken as signed `char`; on targets where `char` is unsigned the units are 0..255 and are not sign-extended (`Hash` itself accepts either).
- Clamp.Clamp: modelled on integers; other types with `<` (floating point with NaN, user types) are not.
- Variant.GetOr: a variant is seen from the one alternative asked for; the other alternatives are summarised as one type.
- HexFormat.IntToHex: modelled for integer arguments of at most 64 bits; floating-point and pointer arguments to the cast are not.
