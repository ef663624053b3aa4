/** Java's 32-bit `int`: the range, two's-complement wrap-around of the
    arithmetic operators, and the bitwise `^` read through the 32-bit
    pattern of a value. */
module JavaInt {

  const TWO_32: int := 0x1_0000_0000
  const MIN_VALUE: int := -0x8000_0000
  const MAX_VALUE: int := 0x7FFF_FFFF

  /** A Java `int`. */
  newtype int32 = x: int | -0x8000_0000 <= x < 0x8000_0000

  /** Narrowing of a mathematical integer to an `int`: the unique `int`
      congruent to `x` modulo 2^32. */
  function Wrap(x: int): (r: int32)
    ensures (r as int - x) % TWO_32 == 0
    ensures MIN_VALUE <= x <= MAX_VALUE ==> r as int == x
  {
    var m := x % TWO_32;
    if m <= MAX_VALUE then m as int32 else (m - TWO_32) as int32
  }

  /** Java's unary minus `-x`. */
  function Neg(x: int32): int32 {
    Wrap(-(x as int))
  }

  /** Java's binary minus `x - y`. */
  function Sub(x: int32, y: int32): int32 {
    Wrap(x as int - y as int)
  }

  function Pow2(n: nat): (p: nat)
    ensures p >= 1
  {
    if n == 0 then 1 else 2 * Pow2(n - 1)
  }

  lemma Pow2Is32()
    ensures Pow2(32) == TWO_32
  {
    calc {
      Pow2(32);
      == { assert Pow2(8) == 256; }
      256 * Pow2(24);
      == { assert Pow2(24) == 256 * Pow2(16); assert Pow2(16) == 256 * Pow2(8); }
      TWO_32;
    }
  }

  /** The two's-complement bit pattern of an `int`, read as an unsigned
      number below 2^32. */
  function Unsigned(x: int32): (u: nat)
    ensures u < TWO_32
    ensures (u - x as int) % TWO_32 == 0
  {
    if x >= 0 then x as int else x as int + TWO_32
  }

  /** Reading a bit pattern back as an `int` gives the `int` it came from. */
  lemma WrapUnsigned(x: int32)
    ensures Wrap(Unsigned(x)) == x
  {
  }

  /** The bitwise exclusive or of the low `n` bits of `a` and `b`. */
  function XorBits(a: nat, b: nat, n: nat): (r: nat)
    ensures r < Pow2(n)
  {
    if n == 0 then 0
    else (if a % 2 != b % 2 then 1 else 0) + 2 * XorBits(a / 2, b / 2, n - 1)
  }

  /** The bitwise complement of the low `n` bits of `a`. */
  function Complement(a: nat, n: nat): nat
    requires a < Pow2(n)
  {
    Pow2(n) - 1 - a
  }

  /** Complementing one operand of an exclusive or complements its result. */
  lemma {:induction false} XorComplementRight(a: nat, b: nat, n: nat)
    requires a < Pow2(n) && b < Pow2(n)
    ensures XorBits(a, Complement(b, n), n) == Complement(XorBits(a, b, n), n)
  {
    if n > 0 {
      var c := Complement(b, n);
      assert c / 2 == Complement(b / 2, n - 1) && c % 2 != b % 2;
      XorComplementRight(a / 2, b / 2, n - 1);
    }
  }

  /** Exclusive or is symmetric. */
  lemma {:induction false} XorBitsSymmetric(a: nat, b: nat, n: nat)
    ensures XorBits(a, b, n) == XorBits(b, a, n)
  {
    if n > 0 {
      XorBitsSymmetric(a / 2, b / 2, n - 1);
    }
  }

  /** The bitwise exclusive or of two 32-bit patterns. */
  function XorBits32(a: nat, b: nat): (r: nat)
    ensures r < TWO_32
  {
    Pow2Is32();
    XorBits(a, b, 32)
  }

  /** The bitwise complement of a 32-bit pattern. */
  function Complement32(u: nat): nat
    requires u < TWO_32
  {
    TWO_32 - 1 - u
  }

  /** Complementing the right operand of a 32-bit exclusive or complements
      its result. */
  lemma XorComplement32Right(a: nat, b: nat)
    requires a < TWO_32 && b < TWO_32
    ensures XorBits32(a, Complement32(b)) == Complement32(XorBits32(a, b))
  {
    Pow2Is32();
    XorComplementRight(a, b, 32);
  }

  /** Java's `x ^ y` on `int`. */
  function Xor(x: int32, y: int32): (r: int32)
    ensures Unsigned(r) == XorBits32(Unsigned(x), Unsigned(y))
  {
    var u := XorBits32(Unsigned(x), Unsigned(y));
    var r := Wrap(u);
    assert Unsigned(r) == u by {
      assert (Unsigned(r) - u) % TWO_32 == 0;
    }
    r
  }

  /** Complementing the left operand of `^` complements every bit of the
      result. */
  lemma XorComplementLeft(x: int32, y: int32, x': int32)
    requires Unsigned(x') == Complement32(Unsigned(x))
    ensures Unsigned(Xor(x', y)) == Complement32(Unsigned(Xor(x, y)))
  {
    XorBitsSymmetric(Unsigned(x'), Unsigned(y), 32);
    XorBitsSymmetric(Unsigned(x), Unsigned(y), 32);
    XorComplement32Right(Unsigned(y), Unsigned(x));
  }

  /** Complementing the right operand of `^` complements every bit of the
      result. */
  lemma XorComplementRightInt(x: int32, y: int32, y': int32)
    requires Unsigned(y') == Complement32(Unsigned(y))
    ensures Unsigned(Xor(x, y')) == Complement32(Unsigned(Xor(x, y)))
  {
    XorComplement32Right(Unsigned(x), Unsigned(y));
  }

  /** In two's complement `-x - 1` is the bitwise complement of `x`. */
  lemma MinusOneMinusIsComplement(x: int32, y: int32)
    requires y as int == -(x as int) - 1
    ensures Unsigned(y) == Complement32(Unsigned(x))
  {
  }
}
