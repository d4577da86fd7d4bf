/**
 * Signed and unsigned 32-bit integers, as the .NET `int` and `uint` types, and the
 * two's-complement reinterpretation between them that the C# casts
 * `unchecked((int)u)` and `unchecked((uint)v)` perform: the bit pattern is kept,
 * only its reading changes.
 */
module TwosComplement {

  const Modulus: int := 0x1_0000_0000
  const SignBit: int := 0x8000_0000

  /** A .NET `int`. */
  type Int32 = v: int | -0x8000_0000 <= v < 0x8000_0000

  /** A .NET `uint`. */
  type UInt32 = u: int | 0 <= u < 0x1_0000_0000

  /** Reads the bit pattern of a signed value as unsigned. */
  function ToUnsigned(v: Int32): (u: UInt32)
    ensures (u - v) % Modulus == 0
    ensures v >= 0 <==> u < SignBit
  {
    if v < 0 then v + Modulus else v
  }

  /** Reads the bit pattern of an unsigned value as signed: values from 2^31 up become negative. */
  function ToSigned(u: UInt32): (v: Int32)
    ensures (u - v) % Modulus == 0
    ensures v >= 0 <==> u < SignBit
  {
    if u < SignBit then u else u - Modulus
  }

  /** Two 32-bit integers denote the same bit pattern exactly when they are congruent modulo 2^32. */
  lemma SameBitsUnique(u: UInt32, u': UInt32)
    requires (u - u') % Modulus == 0
    ensures u == u'
  {
  }

  /** Reading an unsigned value as signed and back restores it. */
  lemma UnsignedRoundTrip(u: UInt32)
    ensures ToUnsigned(ToSigned(u)) == u
  {
  }

  /** Reading a signed value as unsigned and back restores it. */
  lemma SignedRoundTrip(v: Int32)
    ensures ToSigned(ToUnsigned(v)) == v
  {
  }

  /** The reinterpretation is a bijection: distinct signed values have distinct bit patterns. */
  lemma ToUnsignedInjective(v: Int32, v': Int32)
    ensures ToUnsigned(v) == ToUnsigned(v') <==> v == v'
  {
  }
}
