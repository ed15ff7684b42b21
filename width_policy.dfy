/**
 * The width policy of the literal encoder: the two targets (`TransformType` in
 * src/lib.rs), the largest code point each accepts (`max_char`) and the
 * two's-complement reinterpretation that Rust's `as i8` / `as i16` casts perform.
 */
module WidthPolicy {

  /** The two targets: a C `char` string (8-bit units) and a `wchar_t` string (16-bit units). */
  datatype TransformType = CString | CWString

  /** Number of bits in one code unit of the target. */
  function UnitBits(t: TransformType): (b: nat)
  {
    match t
    case CString => 8
    case CWString => 16
  }

  /** 2 to the power n. */
  function Pow2(n: nat): (p: nat)
    ensures p >= 1
  {
    if n == 0 then 1 else 2 * Pow2(n - 1)
  }

  /** Number of distinct values of one code unit: 2^8 or 2^16. */
  function Modulus(t: TransformType): (m: nat)
    ensures m == 0x100 || m == 0x1_0000
  {
    match t
    case CString => 0x100
    case CWString => 0x1_0000
  }

  /** The unit sizes and the moduli agree: a unit of b bits has 2^b values. */
  lemma {:induction false} ModulusIsPow2(t: TransformType)
    ensures Modulus(t) == Pow2(UnitBits(t))
  {
    assert Pow2(4) == 16;
    assert Pow2(8) == 0x100;
    assert Pow2(12) == 0x1000;
    assert Pow2(16) == 0x1_0000;
  }

  /**
   * `max_char`: the largest scalar value the target accepts, which is the
   * largest value an unsigned code unit of the target's width holds.
   */
  function MaxChar(t: TransformType): (m: nat)
    ensures m + 1 == Modulus(t)
  {
    match t
    case CString => 0xFF
    case CWString => 0xFFFF
  }

  /** The two limits: 0xFF for `char` strings and 0xFFFF for `wchar_t` strings. */
  lemma MaxCharValues()
    ensures MaxChar(CString) == 0xFF && MaxChar(CWString) == 0xFFFF
  {
  }

  /** The values of the signed unit type (`i8` or `i16`) of the target. */
  predicate InSignedRange(t: TransformType, v: int)
  {
    -(Modulus(t) / 2) <= v < Modulus(t) / 2
  }

  /**
   * Rust's `c as i8` / `c as i16` on an unsigned value: keep the low bits and
   * read them in two's complement. The result is the one value of the signed
   * unit type that is congruent to c modulo 2^bits.
   */
  function AsSigned(t: TransformType, c: nat): (v: int)
    ensures InSignedRange(t, v)
    ensures (c - v) % Modulus(t) == 0
  {
    var low := c % Modulus(t);
    if low < Modulus(t) / 2 then low else low - Modulus(t)
  }

  /**
   * Reading a signed unit back as unsigned of the same width (`v as u8` /
   * `v as u16`): the one value in [0, 2^bits) congruent to v.
   */
  function AsUnsigned(t: TransformType, v: int): (u: nat)
    requires InSignedRange(t, v)
    ensures u < Modulus(t)
    ensures (u - v) % Modulus(t) == 0
  {
    if v < 0 then v + Modulus(t) else v
  }

  /**
   * For a value the target accepts, the signed unit is the value itself below
   * the sign limit (0x80 or 0x8000) and the value minus 2^bits from there up,
   * and reading it back as unsigned gives the value again.
   */
  lemma AsSignedOfAccepted(t: TransformType, c: nat)
    requires c <= MaxChar(t)
    ensures AsSigned(t, c) == if c < Modulus(t) / 2 then c else c - Modulus(t)
    ensures AsUnsigned(t, AsSigned(t, c)) == c
  {
    assert c % Modulus(t) == c;
  }

  /** The other direction: every signed unit is the truncation of its unsigned reading. */
  lemma AsSignedOfUnsigned(t: TransformType, v: int)
    requires InSignedRange(t, v)
    ensures AsUnsigned(t, v) <= MaxChar(t)
    ensures AsSigned(t, AsUnsigned(t, v)) == v
  {
    assert AsUnsigned(t, v) % Modulus(t) == AsUnsigned(t, v);
  }

  /** Only the zero code point truncates to the zero unit, the value of the terminator. */
  lemma AsSignedZero(t: TransformType, c: nat)
    requires c <= MaxChar(t)
    ensures AsSigned(t, c) == 0 <==> c == 0
  {
    AsSignedOfAccepted(t, c);
  }
}
