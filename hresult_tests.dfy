/**
 * The behaviour pinned down by the `HResultTests` cases, one lemma per case,
 * proved of the model for the concrete values the cases use.
 */
module HResultTests {
  import opened TwosComplement
  import opened Wrappers
  import opened PInvoke
  import Hex

  /** Ctor_Int32 and Ctor_UInt32: 3 reads back as 3 through either constructor. */
  lemma Constructors()
    ensures HResult.FromInt32(3).AsInt32() == 3
    ensures HResult.FromUInt32(3).AsInt32() == 3
  {
  }

  /** DefaultIs0 and PopularValuesPredefined. */
  lemma PopularValues()
    ensures HResult.Default().AsInt32() == 0 && HResult.Default() == HResult.S_OK()
    ensures HResult.S_OK().AsInt32() == 0
    ensures HResult.E_FAIL().AsUInt32() == 0x8000_4005
    ensures HResult.S_FALSE().AsInt32() == 1
  {
  }

  /** AsUInt32 and the implicit and explicit casts: 5 survives each conversion and its inverse. */
  lemma Casts()
    ensures HResult.FromUInt32(5).AsUInt32() == 5
    ensures HResult.FromInt32(5).AsInt32() == 5
  {
  }

  /** ToString_FormatsNumberAsHex: 0x80000000 renders as "0x80000000". */
  lemma ToStringFormatsNumberAsHex()
    ensures HResult.FromUInt32(0x8000_0000).ToString() == "0x80000000"
  {
    var h := HResult.FromUInt32(0x8000_0000);
    UInt32RoundTrip(0x8000_0000);
    assert h.AsUInt32() == 0x8000_0000;
    DigitsOfTopBit();
    assert h.ToString() == "0x" + Hex.Digits(0x8000_0000);
  }

  /** The shortest hex rendering of 2^31, digit by digit. */
  lemma DigitsOfTopBit()
    ensures Hex.Digits(0x8000_0000) == "80000000"
  {
    assert Hex.Digits(0x8) == "8";
    assert Hex.Digits(0x80) == "80";
    assert Hex.Digits(0x800) == "800";
    assert Hex.Digits(0x8000) == "8000";
    assert Hex.Digits(0x8_0000) == "80000";
    assert Hex.Digits(0x80_0000) == "800000";
    assert Hex.Digits(0x800_0000) == "8000000";
  }

  /** ToString_IsFormattable: 0x10 under "x4" and "x8". */
  lemma ToStringIsFormattable()
    ensures HResult.FromInt32(0x10).ToStringFormat("x4") == Some("0010")
    ensures HResult.FromInt32(0x10).ToStringFormat("x8") == Some("00000010")
  {
    assert Hex.Digits(0x10) == "10";
    assert Hex.Zeros(2) + "10" == "0010";
    assert Hex.Zeros(6) + "10" == "00000010";
    assert Hex.ParseHexFormat("x4") == Some(4) by {
      assert "x4"[1..] == "4";
    }
    assert Hex.ParseHexFormat("x8") == Some(8) by {
      assert "x8"[1..] == "8";
    }
  }

  /** GetHashCodeReturnsValue. */
  lemma GetHashCodeReturnsValue()
    ensures HResult.FromInt32(3).GetHashCode() == 3
    ensures HResult.FromInt32(4).GetHashCode() == 4
  {
  }

  /** EqualityChecks and EqualOperators: 3 equals an independently built 3 and not 5. */
  lemma EqualityChecks()
    ensures HResult.FromInt32(3).Equals(HResult.FromInt32(3))
    ensures !HResult.FromInt32(3).Equals(HResult.FromInt32(5))
    ensures HResult.FromInt32(3).NotEquals(HResult.FromInt32(5))
    ensures !HResult.FromInt32(3).NotEquals(HResult.FromInt32(3))
  {
  }

  /** DebuggerDisplay: 0x10 renders as "0x00000010". */
  lemma DebuggerDisplayPads()
    ensures HResult.FromInt32(0x10).DebuggerDisplay() == "0x00000010"
  {
  }

  /** Succeeded and Failed: S_OK and S_FALSE succeed, -1 fails. */
  lemma SucceededAndFailed()
    ensures HResult.S_OK().Succeeded() && !HResult.S_OK().Failed()
    ensures HResult.S_FALSE().Succeeded() && !HResult.S_FALSE().Failed()
    ensures !HResult.FromInt32(-1).Succeeded() && HResult.FromInt32(-1).Failed()
  {
  }

  /** Severity, Facility and Code. */
  lemma Bitfields()
    ensures HResult.FromUInt32(0x8000_0000).Severity() == 1
    ensures HResult.FromInt32(0x7fff_ffff).Severity() == 0
    ensures HResult.FromInt32(0x7ff_0000).Facility() == 0x7ff
    ensures HResult.FromUInt32(0xf800_ffff).Facility() == 0
    ensures HResult.FromUInt32(0xffff_ffff).FacilityCode() == 0xffff
  {
  }

  /** ThrowOnFailure: E_FAIL raises with its code, S_OK and S_FALSE return normally. */
  lemma ThrowOnFailureCases()
    ensures HResult.E_FAIL().ThrowOnFailure() == Fail(ComException(HResult.E_FAIL().AsInt32()))
    ensures HResult.S_OK().ThrowOnFailure() == Pass
    ensures HResult.S_FALSE().ThrowOnFailure() == Pass
  {
  }
}
