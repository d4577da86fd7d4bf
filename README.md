# HResult: a verified model of the PInvoke status-code value type

This project models `PInvoke.HResult`, the struct that wraps a Windows HRESULT
status code. The layout follows section 2.1 ("HRESULT") of the Microsoft Windows
Error Codes specification [MS-ERREF]:

- bit 31 is the severity;
- bits 16-26 are the facility;
- bits 0-15 are the facility-specific code.

The struct holds one signed 32-bit integer. The model keeps that single field
(`PInvoke.HResult`, a datatype over `Int32`) and derives every other view from it:

- the unsigned reading;
- success and failure;
- the three bitfields;
- equality and the hash code;
- the three hexadecimal renderings;
- the failure-to-exception conversion.

Files:

- `twos_complement.dfy` (module `TwosComplement`): the .NET `int` and `uint`
  ranges and the bit-preserving reinterpretation between them.
- `hex.dfy` (module `Hex`): the lowercase hexadecimal renderer of the .NET "x"
  and "x<width>" formats. It is proved against `Hex.Value`, which reads a digit
  string back into a number. The module also parses the "x<width>" format string.
- `hresult.dfy` (module `PInvoke`): the `HResult` type, its well-known values
  `S_OK`, `S_FALSE`, `E_FAIL` and `Default` (static functions, as the C# static
  fields are reached through the type), and the lemmas that relate its views.
- `hresult_tests.dfy` (module `HResultTests`): the 21 test cases of
  `HResultTests.cs`, grouped into 11 lemmas by the behaviour they pin down, each
  proved for the concrete values the cases use. `Constructors` covers Ctor_Int32
  and Ctor_UInt32. `PopularValues` covers DefaultIs0 and PopularValuesPredefined.
  `Casts` covers AsUInt32 and the four ImplicitCast/ExplicitCast cases.
  `EqualityChecks` covers EqualityChecks and EqualOperators.
  `SucceededAndFailed` covers Succeeded and Failed. `Bitfields` covers
  Severity, Facility and Code. Each remaining case has a lemma of its own;
  `DigitsOfTopBit` is a helper that spells out the rendering of 2^31.
- `wrappers.dfy` (module `Wrappers`): `Option` and `Outcome`.

The implementation file of `HResult` is not part of this model. The behaviour
modelled is the behaviour its test suite asserts, generalised to every 32-bit
value as the HRESULT layout defines it. Bit extraction is written with division
and remainder by powers of two on the unsigned value. `u / 2^31` is the
severity, `(u / 2^16) % 2^11` is `(u >> 16) & 0x7FF`, and `u % 2^16` is
`u & 0xFFFF`. `PInvoke.LayoutReconstructs` and `PInvoke.LayoutFields` prove that
these are exactly the fields of the layout.

The casts (implicit and explicit, to and from `int` and `uint`) behave the same
as the two constructors and the `AsInt32`/`AsUInt32` properties. Each is
modelled once: `HResult.FromInt32`, `HResult.FromUInt32`, `AsInt32` and `AsUInt32`.

## Model

| member | source | states |
|---|---|---|
| `TwosComplement.ToUnsigned` | src/Windows.Core.Tests/HResultTests.cs:37-44 | the unsigned reading is the unique `uint` congruent to the signed value modulo 2^32, and it is below 2^31 exactly when the signed value is not negative |
| `TwosComplement.ToSigned` | src/Windows.Core.Tests/HResultTests.cs:17-21 | the signed reading of a `uint` has the same bits, so values from 2^31 up become negative |
| `TwosComplement.SameBitsUnique` | src/Windows.Core.Tests/HResultTests.cs:37-44 | two `uint` values with the same bits modulo 2^32 are equal, so the congruence in `ToUnsigned` fixes its result |
| `TwosComplement.UnsignedRoundTrip` | src/Windows.Core.Tests/HResultTests.cs:71-77 | reading a `uint` as `int` and back restores it |
| `TwosComplement.SignedRoundTrip` | src/Windows.Core.Tests/HResultTests.cs:63-69 | reading an `int` as `uint` and back restores it |
| `TwosComplement.ToUnsignedInjective` | src/Windows.Core.Tests/HResultTests.cs:101-115 | two signed values have the same bits exactly when they are equal |
| `PInvoke.HResult.FromInt32` | src/Windows.Core.Tests/HResultTests.cs:11-15 | construction from `int` stores the value unchanged |
| `PInvoke.HResult.FromUInt32` | src/Windows.Core.Tests/HResultTests.cs:17-21 | construction from `uint` stores the same bit pattern, negative exactly when the `uint` is at least 2^31 |
| `PInvoke.HResult.S_OK` | src/Windows.Core.Tests/HResultTests.cs:29-35 | `S_OK` has signed value 0 and succeeds |
| `PInvoke.HResult.S_FALSE` | src/Windows.Core.Tests/HResultTests.cs:29-35 | `S_FALSE` has signed value 1 and succeeds |
| `PInvoke.HResult.E_FAIL` | src/Windows.Core.Tests/HResultTests.cs:29-35 | `E_FAIL` has unsigned value 0x80004005 and fails |
| `PInvoke.HResult.Default` | src/Windows.Core.Tests/HResultTests.cs:23-27 | the default struct has signed value 0 and is `S_OK` |
| `PInvoke.HResult.AsInt32` | src/Windows.Core.Tests/HResultTests.cs:63-69 | `AsInt32` and the casts to `int` have the same bits as the unsigned reading |
| `PInvoke.HResult.AsUInt32` | src/Windows.Core.Tests/HResultTests.cs:37-44 | `AsUInt32` has the same bits as the stored signed value |
| `PInvoke.Int32RoundTrip` | src/Windows.Core.Tests/HResultTests.cs:46-53 | for every `int`, construction then `AsInt32` (or the cast back to `int`) gives the value back, and `AsUInt32` is its unsigned reading |
| `PInvoke.UInt32RoundTrip` | src/Windows.Core.Tests/HResultTests.cs:55-61 | for every `uint`, construction then `AsUInt32` (or the cast back to `uint`) gives the value back |
| `PInvoke.OneBitPattern` | src/Windows.Core.Tests/HResultTests.cs:17-21 | a `uint` and an `int` build the same code exactly when they have the same bits; a `uint` below 2^31 reads back unchanged as `AsInt32` |
| `PInvoke.HResult.Succeeded` | src/Windows.Core.Tests/HResultTests.cs:139-145 | `Succeeded` holds exactly when bit 31 of the unsigned value is clear |
| `PInvoke.HResult.Failed` | src/Windows.Core.Tests/HResultTests.cs:147-153 | `Failed` holds exactly when the severity bit is 1 |
| `PInvoke.SucceededIffSeverityClear` | src/Windows.Core.Tests/HResultTests.cs:139-153 | `Succeeded` holds exactly when the severity bit is 0, and `Failed` is its negation |
| `PInvoke.HResult.Severity` | src/Windows.Core.Tests/HResultTests.cs:155-160 | `Severity` is 0 or 1, and it is 1 exactly when the signed value is negative |
| `PInvoke.HResult.Facility` | src/Windows.Core.Tests/HResultTests.cs:162-167 | `Facility` is an 11-bit number |
| `PInvoke.HResult.FacilityCode` | src/Windows.Core.Tests/HResultTests.cs:169-173 | `FacilityCode` is a 16-bit number |
| `PInvoke.LayoutReconstructs` | src/Windows.Core.Tests/HResultTests.cs:155-173 | severity, the flag bits 27-30, facility and facility code, each at its bit offset, add up to the whole unsigned value |
| `PInvoke.LayoutFields` | src/Windows.Core.Tests/HResultTests.cs:155-173 | a code assembled from in-range fields yields each field back from its accessor |
| `PInvoke.HResult.Equals` | src/Windows.Core.Tests/HResultTests.cs:101-115 | `Equals`, `IEquatable.Equals` and `==` hold exactly when the two codes are the same value, and so exactly when their unsigned readings agree |
| `PInvoke.HResult.NotEquals` | src/Windows.Core.Tests/HResultTests.cs:117-128 | `!=` holds exactly when the two codes differ |
| `PInvoke.EqualsIsEquivalence` | src/Windows.Core.Tests/HResultTests.cs:101-128 | equality is reflexive, symmetric and transitive, and `!=` is its negation |
| `PInvoke.HResult.GetHashCode` | src/Windows.Core.Tests/HResultTests.cs:94-99 | the hash code is the signed value |
| `PInvoke.HashConsistent` | src/Windows.Core.Tests/HResultTests.cs:94-99 | the hash code is the signed value, and equal codes hash equal |
| `PInvoke.HResult.ToString` | src/Windows.Core.Tests/HResultTests.cs:79-84 | `ToString()` is "0x" followed by 1 to 8 lowercase hex digits that read back as the unsigned value, with a leading zero only for the value 0, which renders as "0x0" |
| `PInvoke.HResult.ToStringFormat` | src/Windows.Core.Tests/HResultTests.cs:86-92 | under "x<width>" the rendering is lowercase hex without a prefix, reads back as the unsigned value and has exactly as many digits as the larger of the width and the shortest rendering; any other format string is outside the model |
| `PInvoke.ToStringFormatPads` | src/Windows.Core.Tests/HResultTests.cs:86-92 | for every width, "x" followed by the width in decimal renders the unsigned value zero-padded to that width |
| `PInvoke.ToStringIsPrefixedFormatX` | src/Windows.Core.Tests/HResultTests.cs:79-92 | `ToString()` is "0x" followed by exactly what the "x" format gives |
| `PInvoke.HResult.DebuggerDisplay` | src/Windows.Core.Tests/HResultTests.cs:130-137 | `DebuggerDisplay` is "0x" followed by exactly 8 lowercase hex digits that read back as the unsigned value |
| `PInvoke.HResult.ThrowOnFailure` | src/Windows.Core.Tests/HResultTests.cs:175-181 | `ThrowOnFailure` raises exactly when `Failed` holds, and the exception carries the signed code unchanged |
| `Hex.Digits` | src/Windows.Core.Tests/HResultTests.cs:79-84 | the shortest rendering is a nonempty lowercase hex string that starts with '0' only for the value 0 |
| `Hex.ValueOfDigits` | src/Windows.Core.Tests/HResultTests.cs:79-84 | reading back the shortest rendering of n gives n |
| `Hex.DigitsOfValue` | src/Windows.Core.Tests/HResultTests.cs:79-84 | every hex string without leading zeros is the shortest rendering of its value, so the rendering is a bijection |
| `Hex.DigitsLength` | src/Windows.Core.Tests/HResultTests.cs:79-84 | the shortest rendering of n fits in k digits exactly when n < 16^k |
| `Hex.FixedWidthUnique` | src/Windows.Core.Tests/HResultTests.cs:86-92 | two hex strings of the same length and value are equal |
| `Hex.Padded` | src/Windows.Core.Tests/HResultTests.cs:86-92 | the padded rendering reads back as n and has as many digits as the larger of the width and the shortest rendering, so it is never cut |
| `Hex.PaddedUnique` | src/Windows.Core.Tests/HResultTests.cs:86-92 | the padded rendering is the only hex string of that length with value n |
| `Hex.PaddedNoWidth` | src/Windows.Core.Tests/HResultTests.cs:86-92 | a width of 0 or 1 gives the shortest rendering |
| `Hex.ParseHexFormat` | src/Windows.Core.Tests/HResultTests.cs:86-92 | a format string is accepted exactly when it is 'x' followed by decimal digits, and "x" alone asks for no padding |
| `Hex.Format` | src/Windows.Core.Tests/HResultTests.cs:86-92 | an accepted format renders n in lowercase hex that reads back as n, with exactly as many digits as the larger of the requested width and the shortest rendering |
| `Hex.DecimalValueOfDigits` | src/Windows.Core.Tests/HResultTests.cs:86-92 | reading back the decimal rendering of a width gives the width |
| `Hex.ParseHexFormatWidth` | src/Windows.Core.Tests/HResultTests.cs:86-92 | for every width, "x" followed by the width in decimal is read as that width |
| `HResultTests.Constructors` | src/Windows.Core.Tests/HResultTests.cs:11-21 | 3 built from `int` or from `uint` reads back as `AsInt32` 3 |
| `HResultTests.PopularValues` | src/Windows.Core.Tests/HResultTests.cs:23-35 | the default code and `S_OK` are 0, `S_FALSE` is 1 and `E_FAIL` is unsigned 0x80004005 |
| `HResultTests.Casts` | src/Windows.Core.Tests/HResultTests.cs:37-77 | 5 survives construction and conversion back through either signedness |
| `HResultTests.ToStringFormatsNumberAsHex` | src/Windows.Core.Tests/HResultTests.cs:79-84 | 0x80000000 renders as "0x80000000" |
| `HResultTests.ToStringIsFormattable` | src/Windows.Core.Tests/HResultTests.cs:86-92 | 0x10 renders as "0010" under "x4" and as "00000010" under "x8" |
| `HResultTests.GetHashCodeReturnsValue` | src/Windows.Core.Tests/HResultTests.cs:94-99 | 3 and 4 hash to 3 and 4 |
| `HResultTests.EqualityChecks` | src/Windows.Core.Tests/HResultTests.cs:101-128 | 3 equals an independently built 3 and not 5, and `!=` answers the opposite |
| `HResultTests.DebuggerDisplayPads` | src/Windows.Core.Tests/HResultTests.cs:130-137 | 0x10 shows in the debugger as "0x00000010" |
| `HResultTests.SucceededAndFailed` | src/Windows.Core.Tests/HResultTests.cs:139-153 | `S_OK` and `S_FALSE` succeed and -1 fails |
| `HResultTests.Bitfields` | src/Windows.Core.Tests/HResultTests.cs:155-173 | the severity of 0x80000000 is 1 and of 0x7fffffff is 0; the facility of 0x7ff0000 is 0x7ff and of 0xf800ffff is 0; the code of 0xffffffff is 0xffff |
| `HResultTests.ThrowOnFailureCases` | src/Windows.Core.Tests/HResultTests.cs:175-181 | `E_FAIL` raises with its own code, and `S_OK` and `S_FALSE` return normally |

## Left out

- The COM exception is modelled only as "fails with this code" (`ComException(errorCode)`). The mapping from a code to a system message is a .NET/COM facility outside this model.
- `DebuggerDisplay` is private and the tests reach it by reflection. Here it is an ordinary function.
- Format strings are modelled only in the lowercase hexadecimal kind: "x" with an optional decimal width. Other kinds are outside the model and give `None`. This covers upper-case "X", decimal, general and custom formats, a null format string, culture and format providers, and the .NET cap on the precision digits.
- `Equals(object)` with an argument that is not an `HResult` is not modelled. The tests compare only `HResult` values.
- The `SeverityCodes` and `FacilityCodes` enumerations are not part of this model. `Severity` and `Facility` return the numbers that the enumeration members wrap.
- Named constants other than `S_OK`, `S_FALSE` and `E_FAIL` are not modelled, because they are not shown. The same goes for the comparison interfaces, which no test exercises.
- The implementation file of `HResult` is not part of this model. The model follows the behaviour its tests assert.
