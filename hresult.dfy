/**
 * The `PInvoke.HResult` value type: a status code in the HRESULT layout of
 * section 2.1 of the Microsoft Windows Error Codes specification [MS-ERREF].
 * Bit 31 is the severity, bits 16-26 the facility and bits 0-15 the
 * facility-specific code; bits 27-30 are flag bits the type does not interpret.
 * The struct stores one signed 32-bit integer and derives every view from it.
 */
module PInvoke {
  import opened TwosComplement
  import opened Wrappers
  import Hex

  /** The place values of bit 16, where the facility starts, and of bit 27, where the flag bits start. */
  const FacilityUnit: int := 0x1_0000
  const FlagsUnit: int := 0x800_0000

  /** The exception `ThrowOnFailure` raises; it carries the status code unchanged. */
  datatype ComException = ComException(errorCode: Int32)

  datatype HResult = HResult(value: Int32) {

    /** `new HResult(int)`, the implicit and the explicit cast from `int`: keeps the bits. */
    static function FromInt32(v: Int32): (h: HResult)
      ensures h.value == v
    {
      HResult(v)
    }

    /** `new HResult(uint)`, the implicit and the explicit cast from `uint`: keeps the bits, so values from 2^31 up become negative. */
    static function FromUInt32(u: UInt32): (h: HResult)
      ensures (h.value - u) % Modulus == 0
      ensures h.value < 0 <==> u >= SignBit
    {
      HResult(ToSigned(u))
    }

    /** `S_OK`: plain success. */
    static function S_OK(): (h: HResult)
      ensures h.AsInt32() == 0 && h.Succeeded()
    {
      HResult(0)
    }

    /** `S_FALSE`: the alternate, "false" success. */
    static function S_FALSE(): (h: HResult)
      ensures h.AsInt32() == 1 && h.Succeeded()
    {
      HResult(1)
    }

    /** `E_FAIL`: the generic failure, unsigned 0x80004005. */
    static function E_FAIL(): (h: HResult)
      ensures h.AsUInt32() == 0x8000_4005 && h.Failed()
    {
      FromUInt32(0x8000_4005)
    }

    /** `default(HResult)`: the zero-initialised struct, which is `S_OK`. */
    static function Default(): (h: HResult)
      ensures h.AsInt32() == 0 && h == S_OK()
    {
      HResult(0)
    }

    /** `AsInt32`, and the casts to `int`: the same bits read as signed. */
    function AsInt32(): (v: Int32)
      ensures (AsUInt32() - v) % Modulus == 0
    {
      value
    }

    /** `AsUInt32`, and the casts to `uint`: the same bits read as unsigned. */
    function AsUInt32(): (u: UInt32)
      ensures (u - value) % Modulus == 0
    {
      ToUnsigned(value)
    }

    /** `Succeeded`: the code reports success exactly when its signed value is not negative. */
    predicate Succeeded()
      ensures Succeeded() <==> AsUInt32() < SignBit
    {
      value >= 0
    }

    /** `Failed`: the code reports failure exactly when its severity bit is set. */
    predicate Failed()
      ensures Failed() <==> Severity() == 1
    {
      !Succeeded()
    }

    /** `Severity`: bit 31 of the unsigned value; 1 exactly for negative codes. */
    function Severity(): (s: nat)
      ensures s <= 1
      ensures s == 1 <==> value < 0
    {
      AsUInt32() / SignBit
    }

    /** `Facility`: bits 16-26 of the unsigned value, `(u >> 16) & 0x7FF`. */
    function Facility(): (f: nat)
      ensures f < 0x800
    {
      (AsUInt32() / FacilityUnit) % 0x800
    }

    /** `FacilityCode`: bits 0-15 of the unsigned value, `u & 0xFFFF`. */
    function FacilityCode(): (c: nat)
      ensures c < 0x1_0000
    {
      AsUInt32() % FacilityUnit
    }

    /** Bits 27-30, which no accessor exposes (helper for the layout lemmas). */
    function Flags(): (x: nat)
      ensures x < 16
    {
      (AsUInt32() / FlagsUnit) % 16
    }

    /** `Equals(HResult)`, `IEquatable<HResult>.Equals` and `operator ==`. */
    predicate Equals(other: HResult)
      ensures Equals(other) <==> this == other
      ensures Equals(other) <==> AsUInt32() == other.AsUInt32()
    {
      ToUnsignedInjective(value, other.value);
      value == other.value
    }

    /** `operator !=`. */
    predicate NotEquals(other: HResult)
      ensures NotEquals(other) <==> this != other
    {
      !Equals(other)
    }

    /** `GetHashCode`: the signed value itself. */
    function GetHashCode(): (k: Int32)
      ensures k == AsInt32()
    {
      value
    }

    /** `ToString()`: "0x" and the shortest lowercase hex rendering of the unsigned value. */
    function ToString(): (s: string)
      ensures 3 <= |s| <= 10 && s[..2] == "0x"
      ensures Hex.IsLowerHex(s[2..]) && Hex.Value(s[2..]) == AsUInt32()
      ensures s[2] == '0' <==> AsUInt32() == 0
      ensures s[2] == '0' ==> s == "0x0"
    {
      var d := Hex.Digits(AsUInt32());
      Hex.ValueOfDigits(AsUInt32());
      UInt32FitsEightDigits(AsUInt32());
      assert ("0x" + d)[2..] == d;
      "0x" + d
    }

    /** `ToString(format, provider)` with a lowercase hex format string "x" or "x<width>"; None for another kind of format string. */
    function ToStringFormat(format: string): (r: Option<string>)
      ensures r.Some? <==> Hex.ParseHexFormat(format).Some?
      ensures r.Some? ==> Hex.IsLowerHex(r.value) && Hex.Value(r.value) == AsUInt32()
      ensures r.Some? ==>
        var width := Hex.ParseHexFormat(format).value;
        var shortest := |Hex.Digits(AsUInt32())|;
        |r.value| == if width > shortest then width else shortest
    {
      Hex.Format(AsUInt32(), format)
    }

    /** The private `DebuggerDisplay` property: "0x" and exactly eight lowercase hex digits. */
    function DebuggerDisplay(): (s: string)
      ensures |s| == 10 && s[..2] == "0x"
      ensures Hex.IsLowerHex(s[2..]) && Hex.Value(s[2..]) == AsUInt32()
    {
      var d := Hex.Padded(AsUInt32(), 8);
      UInt32FitsEightDigits(AsUInt32());
      assert ("0x" + d)[2..] == d;
      "0x" + d
    }

    /** `ThrowOnFailure`: raises a COM exception carrying the code exactly when the code reports failure. */
    function ThrowOnFailure(): (r: Outcome<ComException>)
      ensures r.Fail? <==> Failed()
      ensures r.Fail? ==> r.error.errorCode == AsInt32()
    {
      if Failed() then Fail(ComException(value)) else Pass
    }
  }

  /** Every 32-bit unsigned value has a shortest hex rendering of at most eight digits. */
  lemma UInt32FitsEightDigits(u: UInt32)
    ensures |Hex.Digits(u)| <= 8
  {
    assert Hex.Pow16(8) == Modulus by {
      assert Hex.Pow16(4) == 0x1_0000 by {
        assert Hex.Pow16(2) == 0x100 by {
          assert Hex.Pow16(1) == 16;
        }
        assert Hex.Pow16(3) == 0x1000;
      }
      assert Hex.Pow16(6) == 0x100_0000 by {
        assert Hex.Pow16(5) == 0x10_0000;
      }
      assert Hex.Pow16(7) == 0x1000_0000;
    }
    Hex.DigitsLength(u, 8);
  }

  /** Constructing from an `int` and reading it back as `int` gives the same value. */
  lemma Int32RoundTrip(v: Int32)
    ensures HResult.FromInt32(v).AsInt32() == v
    ensures HResult.FromInt32(v).AsUInt32() == ToUnsigned(v)
  {
  }

  /** Constructing from a `uint` and reading it back as `uint` gives the same value. */
  lemma UInt32RoundTrip(u: UInt32)
    ensures HResult.FromUInt32(u).AsUInt32() == u
  {
  }

  /** Both constructors denote one bit pattern: a `uint` and the `int` with the same bits build the same code. */
  lemma OneBitPattern(u: UInt32, v: Int32)
    ensures HResult.FromUInt32(u) == HResult.FromInt32(v) <==> (u - v) % Modulus == 0
    ensures u < SignBit ==> HResult.FromUInt32(u).AsInt32() == u
  {
  }

  /** `Succeeded` holds exactly when the severity bit is clear, and `Failed` is its negation. */
  lemma SucceededIffSeverityClear(h: HResult)
    ensures h.Succeeded() <==> h.Severity() == 0
    ensures h.Failed() <==> !h.Succeeded()
  {
  }

  /** The severity, the flag bits, the facility and the facility code together make up the whole unsigned value. */
  lemma LayoutReconstructs(h: HResult)
    ensures h.AsUInt32()
      == h.Severity() * SignBit + h.Flags() * FlagsUnit + h.Facility() * FacilityUnit + h.FacilityCode()
  {
  }

  /** A code assembled from in-range fields yields those fields back: the accessors read exactly the fields of the layout. */
  lemma LayoutFields(severity: nat, flags: nat, facility: nat, code: nat)
    requires severity < 2 && flags < 16 && facility < 0x800 && code < 0x1_0000
    ensures var h := HResult.FromUInt32(severity * SignBit + flags * FlagsUnit + facility * FacilityUnit + code);
      && h.Severity() == severity
      && h.Flags() == flags
      && h.Facility() == facility
      && h.FacilityCode() == code
  {
  }

  /** `ToString()` is the "x" format of the unsigned value behind a "0x" prefix. */
  lemma ToStringIsPrefixedFormatX(h: HResult)
    ensures h.ToStringFormat("x") == Some(h.ToString()[2..])
  {
    assert Hex.ParseHexFormat("x") == Some(0);
    Hex.PaddedNoWidth(h.AsUInt32(), 0);
    assert ("0x" + Hex.Digits(h.AsUInt32()))[2..] == Hex.Digits(h.AsUInt32());
  }

  /** For every width, the "x<width>" format renders the unsigned value zero-padded to that width, as `Hex.Padded` does. */
  lemma ToStringFormatPads(h: HResult, width: nat)
    ensures h.ToStringFormat("x" + Hex.DecimalDigits(width)) == Some(Hex.Padded(h.AsUInt32(), width))
  {
    var r := h.ToStringFormat("x" + Hex.DecimalDigits(width));
    Hex.ParseHexFormatWidth(width);
    Hex.PaddedUnique(h.AsUInt32(), width, r.value);
  }

  /** Equal codes hash equal, and the hash is the signed value. */
  lemma HashConsistent(a: HResult, b: HResult)
    ensures a.GetHashCode() == a.AsInt32()
    ensures a.Equals(b) ==> a.GetHashCode() == b.GetHashCode()
  {
  }

  /** Equality is reflexive, symmetric and transitive, and `!=` is its negation. */
  lemma EqualsIsEquivalence(a: HResult, b: HResult, c: HResult)
    ensures a.Equals(a)
    ensures a.Equals(b) <==> b.Equals(a)
    ensures a.Equals(b) && b.Equals(c) ==> a.Equals(c)
    ensures a.NotEquals(b) <==> !a.Equals(b)
  {
  }
}
