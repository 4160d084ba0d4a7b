/** Digits of a Pastry node identifier.

    A digit is one radix-16 value kept in an 8-bit container: either in the
    upper four bits (as produced for the high half of a source byte) or in
    the lower four bits (as produced for the low half). Every comparison of
    digits goes through the canonical value, never the raw container. */
module Digits {

  /** An unsigned 8-bit value (Go's `byte` / `uint8`). */
  newtype Byte = x: int | 0 <= x < 256

  /** The 8-bit container of one radix-16 digit (`NodeIDDigit`). */
  type Digit = Byte

  /** The value of the upper four bits, `d >> 4`. */
  function UpperHalf(d: Digit): (v: nat)
    ensures v < 16
  {
    (d / 16) as nat
  }

  /** The value of the lower four bits, `d & 0x0f`. */
  function LowerHalf(d: Digit): (v: nat)
    ensures v < 16
  {
    (d % 16) as nat
  }

  /** The digit's canonical value: the upper half when it is nonzero,
      otherwise the lower half. */
  function Canon(d: Digit): (v: nat)
    ensures v < 16
    ensures v == 0 <==> d == 0
    ensures UpperHalf(d) != 0 ==> v == UpperHalf(d)
    ensures UpperHalf(d) == 0 ==> v == d as nat
  {
    if UpperHalf(d) != 0 then UpperHalf(d) else LowerHalf(d)
  }

  /** `NodeIDDigit.Equals`: two digits are equal when their canonical values
      are, whichever half holds the bits. Identical containers are equal; two
      digits stored in the same half are equal only when identical; a digit
      in the upper half equals one in the lower half exactly when it is that
      digit shifted up. */
  predicate Equals(d1: Digit, d2: Digit): (eq: bool)
    ensures d1 == d2 ==> eq
    ensures UpperHalf(d1) == 0 && UpperHalf(d2) == 0 ==> (eq <==> d1 == d2)
    ensures LowerHalf(d1) == 0 && LowerHalf(d2) == 0 ==> (eq <==> d1 == d2)
    ensures LowerHalf(d1) == 0 && UpperHalf(d2) == 0 && d1 != 0 ==> (eq <==> d1 as int == d2 as int * 16)
  {
    Canon(d1) == Canon(d2)
  }

  /** A digit stored in the lower half reads the same as that digit shifted
      into the upper half: `v` and `v << 4` are `Equals`. */
  lemma EqualsIgnoresHalf(v: nat)
    requires v < 16
    ensures Canon(v as Digit) == v && Canon((v * 16) as Digit) == v
    ensures Equals(v as Digit, (v * 16) as Digit)
  {
  }

  /** Equality of digits is an equivalence relation. */
  lemma EqualsIsEquivalence(d1: Digit, d2: Digit, d3: Digit)
    ensures Equals(d1, d1)
    ensures Equals(d1, d2) <==> Equals(d2, d1)
    ensures Equals(d1, d2) && Equals(d2, d3) ==> Equals(d1, d3)
  {
  }

  /** `NodeIDDigitsFromByte`: the high-half digit (`b & 0xf0`) and the
      low-half digit (`b & 0x0f`) of a byte. Their raw sum is the byte itself,
      without any 8-bit overflow, and their canonical values are the byte's
      two hexadecimal digits. */
  function DigitsFromByte(b: Byte): (pair: (Digit, Digit))
    ensures pair.0 as int + pair.1 as int == b as int
    ensures LowerHalf(pair.0) == 0 && UpperHalf(pair.1) == 0
    ensures Canon(pair.0) == b as int / 16 && Canon(pair.1) == b as int % 16
  {
    ((b / 16) * 16, b % 16)
  }

  /** The split loses nothing: two bytes with the same split are the same
      byte, and a byte is recovered from its two digits' canonical values. */
  lemma DigitsFromByteInjective(b1: Byte, b2: Byte)
    ensures DigitsFromByte(b1) == DigitsFromByte(b2) <==> b1 == b2
    ensures Canon(DigitsFromByte(b1).0) * 16 + Canon(DigitsFromByte(b1).1) == b1 as int
  {
    var p1, p2 := DigitsFromByte(b1), DigitsFromByte(b2);
    if p1 == p2 {
      assert b1 as int == p1.0 as int + p1.1 as int == p2.0 as int + p2.1 as int == b2 as int;
    }
  }
}
