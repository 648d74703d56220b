/** Java's fixed-width integer types and the integer operators whose meaning
    differs from Dafny's: `/` and `%` round toward zero in Java, and a narrowing
    cast from `long` to `int` keeps the low 32 bits. */
module JavaInt {

  const INT_MAX: int := 0x7fff_ffff
  const INT_MIN: int := -0x8000_0000

  /** Java `byte` (signed 8 bits). */
  type byte = b: int | -128 <= b < 128

  /** Java `int`. */
  type int32 = x: int | -0x8000_0000 <= x < 0x8000_0000

  /** Java `long`. */
  type int64 = x: int | -0x8000_0000_0000_0000 <= x < 0x8000_0000_0000_0000

  function Abs(x: int): nat { if x < 0 then -x else x }

  /** Java's integer division: the quotient is rounded toward zero, so the
      remainder `a - q * b` is smaller than `b` in magnitude and never has the
      opposite sign of `a`. */
  function Div(a: int, b: int): (q: int)
    requires b != 0
    ensures Abs(a - q * b) < Abs(b)
    ensures a >= 0 ==> 0 <= a - q * b
    ensures a <= 0 ==> a - q * b <= 0
  {
    var n, d := Abs(a), Abs(b);
    var q := if (a >= 0) == (b > 0) then n / d else -(n / d);
    TruncatedRemainder(a, b, n, d, q);
    NaturalRemainder(n, d);
    q
  }

  /** Division of naturals leaves a remainder in 0..d-1. */
  lemma NaturalRemainder(n: nat, d: nat)
    requires d > 0
    ensures 0 <= n - (n / d) * d < d
  {
  }

  /** The remainder of a quotient rounded toward zero is the remainder of the
      magnitudes, with the sign of the dividend. */
  lemma TruncatedRemainder(a: int, b: int, n: nat, d: nat, q: int)
    requires b != 0 && n == Abs(a) && d == Abs(b)
    requires q == if (a >= 0) == (b > 0) then n / d else -(n / d)
    ensures a - q * b == (if a >= 0 then n - (n / d) * d else -(n - (n / d) * d))
  {
    var p := n / d;
    if a >= 0 && b > 0 {
    } else if a >= 0 {
      assert q * b == p * d;
    } else {
      assert q * b == -(p * d);
    }
  }

  /** Java's `%`: the remainder that goes with `Div`, so that
      `(a / b) * b + a % b == a` as the Java language requires; it takes the
      sign of `a`. */
  function Rem(a: int, b: int): (r: int)
    requires b != 0
    ensures Div(a, b) * b + r == a
    ensures Abs(r) < Abs(b)
    ensures a >= 0 ==> r >= 0
    ensures a <= 0 ==> r <= 0
  {
    a - Div(a, b) * b
  }

  /** The narrowing cast `(int) x` from `long`: keeps the low 32 bits. */
  function ToInt32(x: int): (r: int32)
    ensures (x - r) % 0x1_0000_0000 == 0
    ensures INT_MIN <= x <= INT_MAX ==> r == x
  {
    var m := x % 0x1_0000_0000;
    if m < 0x8000_0000 then m else m - 0x1_0000_0000
  }

  /** `long` arithmetic: the result keeps the low 64 bits. */
  function ToInt64(x: int): (r: int64)
    ensures (x - r) % 0x1_0000_0000_0000_0000 == 0
    ensures -0x8000_0000_0000_0000 <= x < 0x8000_0000_0000_0000 ==> r == x
  {
    var m := x % 0x1_0000_0000_0000_0000;
    if m < 0x8000_0000_0000_0000 then m else m - 0x1_0000_0000_0000_0000
  }
}
