/**
  The fixed-width integers of the variant: the 64-bit unsigned payload `UInt`
  that every integer kind stores, the 64-bit signed `Integer` taken by the
  signed setter, and the C++ integral conversion `T(x)` used when a stored
  payload is read back as some integral type T.
*/
module Integers {

  const UIntModulus: int := 0x1_0000_0000_0000_0000

  /** The library's `UInt`: an unsigned 64-bit integer. */
  type UInt = x: int | 0 <= x < 0x1_0000_0000_0000_0000

  /** The library's `Integer`: a signed 64-bit integer. */
  type Integer = x: int | -0x8000_0000_0000_0000 <= x < 0x8000_0000_0000_0000

  /** Bitwise complement `~x` of a 64-bit unsigned value. */
  function BitNot(x: UInt): UInt
  {
    UIntModulus - 1 - x
  }

  /** Unsigned 64-bit addition, which wraps around. */
  function WrapAdd(x: UInt, y: UInt): UInt
  {
    (x + y) % UIntModulus
  }

  /** Two's-complement negation `~x + 1` of a 64-bit unsigned value. */
  function Negate(x: UInt): (r: UInt)
    ensures (r + x) % UIntModulus == 0
    ensures x == 0 ==> r == 0
    ensures x != 0 ==> r == UIntModulus - x
  {
    WrapAdd(BitNot(x), 1)
  }

  /** The widths an integral C++ type can have. */
  datatype Width = W8 | W16 | W32 | W64 {

    /** 2 to the power of the width. */
    function Modulus(): (m: int)
      ensures m >= 256 && m % 256 == 0
      ensures UIntModulus % m == 0
    {
      match this
      case W8 => 0x100
      case W16 => 0x1_0000
      case W32 => 0x1_0000_0000
      case W64 => 0x1_0000_0000_0000_0000
    }
  }

  /** An integral C++ type T, such as `int8_t`, `unsigned int` or `long`. */
  datatype IntegralType = IntegralType(width: Width, signed: bool) {

    function Min(): int
    {
      if signed then -(width.Modulus() / 2) else 0
    }

    function Max(): int
    {
      if signed then width.Modulus() / 2 - 1 else width.Modulus() - 1
    }

    /** True when `x` is a value of type T. */
    predicate Contains(x: int)
    {
      Min() <= x <= Max()
    }
  }

  const Int64: IntegralType := IntegralType(W64, true)
  const UInt64: IntegralType := IntegralType(W64, false)

  /**
    The conversion `T(x)` of an integer to the integral type T: the value of T
    congruent to x modulo 2^width (the two's-complement reading for a signed T).
  */
  function Convert(t: IntegralType, x: int): (r: int)
    ensures t.Contains(r)
    ensures (r - x) % t.width.Modulus() == 0
  {
    var m := t.width.Modulus();
    var u := x % m;
    if t.signed && u >= m / 2 then u - m else u
  }

  /** Converting a value that T can represent leaves it unchanged. */
  lemma ConvertExact(t: IntegralType, x: int)
    requires t.Contains(x)
    ensures Convert(t, x) == x
  {
    match t.width
    case W8 =>
    case W16 =>
    case W32 =>
    case W64 =>
  }

  /** Two integers congruent modulo 2^width convert to the same value. */
  lemma ConvertCongruent(t: IntegralType, x: int, y: int)
    requires (x - y) % t.width.Modulus() == 0
    ensures Convert(t, x) == Convert(t, y)
  {
    SameRemainder(x, y, t.width.Modulus());
  }

  /** Integers whose difference is a multiple of m leave the same remainder. */
  lemma SameRemainder(x: int, y: int, m: int)
    requires m > 0 && (x - y) % m == 0
    ensures x % m == y % m
  {
    var d := (x - y) / m;
    assert x - y == m * d;
    var qx, qy := x / m, y / m;
    assert x == m * qx + x % m;
    assert y == m * qy + y % m;
    var e := d - qx + qy;
    assert x % m - y % m == m * e;
  }

  /**
    Reading `~m + 1` (computed in 64 bits) as T gives minus m modulo 2^width:
    the negation happens in 64 bits, yet the result is the one a direct
    conversion of -m would give.
  */
  lemma ConvertNegate(t: IntegralType, m: UInt)
    ensures Convert(t, Negate(m)) == Convert(t, -(m as int))
    ensures t.Contains(-(m as int)) ==> Convert(t, Negate(m)) == -(m as int)
  {
    var n: int := Negate(m);
    var neg: int := -(m as int);
    assert (n - neg) % UIntModulus == 0;
    ModulusDivides(t.width, n - neg);
    ConvertCongruent(t, n, neg);
    if t.Contains(neg) {
      ConvertExact(t, neg);
    }
  }

  /** A multiple of 2^64 is a multiple of every narrower modulus. */
  lemma ModulusDivides(w: Width, d: int)
    requires d % UIntModulus == 0
    ensures d % w.Modulus() == 0
  {
    var q := d / UIntModulus;
    assert d == q * UIntModulus;
    match w
    case W8 =>
      assert d == (q * 0x100_0000_0000_0000) * 0x100;
    case W16 =>
      assert d == (q * 0x1_0000_0000_0000) * 0x1_0000;
    case W32 =>
      assert d == (q * 0x1_0000_0000) * 0x1_0000_0000;
    case W64 =>
  }
}
