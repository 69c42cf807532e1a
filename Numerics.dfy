/**
 * Java `int` arithmetic and its decimal rendering.
 *
 * Every counter of the lending layer (copy counts, loan counters, the sums in
 * the catalog summary) is a Java `int`: 32 bits, two's complement, and `++`,
 * `--` and `+=` wrap around silently. The model keeps these values in the
 * subset type `int32` and writes the wrap-around out with `Wrap`.
 */
module Numerics {

  const INT_MIN: int := -0x8000_0000
  const INT_MAX: int := 0x7fff_ffff
  const MODULUS: int := 0x1_0000_0000

  type int32 = x: int | -0x8000_0000 <= x <= 0x7fff_ffff

  /** The Java `int` that the mathematical value `x` becomes: `x` reduced modulo 2^32 into [INT_MIN, INT_MAX]. */
  function Wrap(x: int): (r: int32)
    ensures INT_MIN <= x <= INT_MAX ==> r == x
    ensures (x - r) % MODULUS == 0
  {
    var m := (x - INT_MIN) % MODULUS;
    assert x - (m + INT_MIN) == ((x - INT_MIN) / MODULUS) * MODULUS;
    m + INT_MIN
  }

  /** Two mathematical values that differ by a multiple of 2^32 are the same Java `int`. */
  lemma WrapCongruent(x: int, y: int)
    requires (x - y) % MODULUS == 0
    ensures Wrap(x) == Wrap(y)
  {
    var k := (x - y) / MODULUS;
    assert x - INT_MIN == (y - INT_MIN) + k * MODULUS;
    ModuloShift(y - INT_MIN, k);
  }

  lemma ModuloShift(a: int, k: int)
    ensures (a + k * MODULUS) % MODULUS == a % MODULUS
  {
    var q, r := a / MODULUS, a % MODULUS;
    assert a + k * MODULUS == (q + k) * MODULUS + r;
  }

  /** Accumulating with wrap-around at every step gives the wrapped total: `acc += x` in a loop over Java ints. */
  lemma WrapAdd(a: int, b: int)
    ensures Wrap(Wrap(a) + b) == Wrap(a + b)
  {
    assert (a - Wrap(a)) % MODULUS == 0;
    assert ((Wrap(a) + b) - (a + b)) % MODULUS == 0 by {
      var k := (a - Wrap(a)) / MODULUS;
      assert (Wrap(a) + b) - (a + b) == -(a - Wrap(a));
      assert -(a - Wrap(a)) == (-k) * MODULUS;
    }
    WrapCongruent(Wrap(a) + b, a + b);
  }

  /** Java `x + 1` on an `int`: one more, except that INT_MAX wraps to INT_MIN. */
  function Succ(x: int32): (r: int32)
    ensures x < INT_MAX ==> r == x + 1
    ensures x == INT_MAX ==> r == INT_MIN
  {
    Wrap(x + 1)
  }

  /** Java `x - 1` on an `int`: one less, except that INT_MIN wraps to INT_MAX. */
  function Pred(x: int32): (r: int32)
    ensures x > INT_MIN ==> r == x - 1
    ensures x == INT_MIN ==> r == INT_MAX
  {
    Wrap(x - 1)
  }

  /** `++` and `--` undo each other on every Java `int`, wrap-around included. */
  lemma {:induction false} SuccPred(x: int32)
    ensures Pred(Succ(x)) == x && Succ(Pred(x)) == x
  {
    if x == INT_MAX {
      assert Succ(x) == INT_MIN;
    } else if x == INT_MIN {
      assert Pred(x) == INT_MAX;
    }
  }

  /** The character of one decimal digit. */
  function DigitChar(d: nat): (c: char)
    requires d < 10
    ensures '0' <= c <= '9'
  {
    "0123456789"[d]
  }

  /** The decimal digits of a non-negative number, most significant first, without leading zeros. */
  function Digits(n: nat): (s: string)
    ensures 1 <= |s|
    ensures n >= 10 ==> 2 <= |s|
    ensures forall i :: 0 <= i < |s| ==> '0' <= s[i] <= '9'
  {
    if n < 10 then [DigitChar(n)] else Digits(n / 10) + [DigitChar(n % 10)]
  }

  /** Java's `Integer.toString` (and `StringBuilder.append(int)`, string `+` of an int): a minus sign for negatives, then the digits. */
  function Decimal(n: int): (s: string)
    ensures 1 <= |s|
    ensures '\n' !in s
  {
    if n < 0 then "-" + Digits(-n) else Digits(n)
  }

  /** A number below ten prints as its one digit. */
  lemma DecimalDigit(n: nat)
    requires n < 10
    ensures Decimal(n) == [DigitChar(n)]
  {
  }

  /** A four-digit number prints most significant digit first, with the sign in front: a publication year, say. */
  lemma YearRendering()
    ensures Decimal(1951) == "1951"
    ensures Decimal(-1951) == "-1951"
  {
    assert Digits(1) == "1";
    assert Digits(19) == "19";
    assert Digits(195) == "195";
  }

  lemma DigitCharInjective(a: nat, b: nat)
    requires a < 10 && b < 10 && DigitChar(a) == DigitChar(b)
    ensures a == b
  {
  }

  /** Different numbers have different digit strings. */
  lemma {:induction false} DigitsInjective(a: nat, b: nat)
    requires Digits(a) == Digits(b)
    ensures a == b
  {
    var s := Digits(a);
    if a < 10 && b < 10 {
      DigitCharInjective(a, b);
    } else if a >= 10 && b >= 10 {
      assert Digits(a / 10) == s[..|s| - 1] == Digits(b / 10);
      DigitsInjective(a / 10, b / 10);
      assert DigitChar(a % 10) == s[|s| - 1] == DigitChar(b % 10);
      DigitCharInjective(a % 10, b % 10);
    }
  }

  /** The decimal rendering determines the number: different ints print differently. */
  lemma DecimalInjective(a: int, b: int)
    requires Decimal(a) == Decimal(b)
    ensures a == b
  {
    assert Decimal(a)[0] == '-' <==> a < 0;
    assert Decimal(b)[0] == '-' <==> b < 0;
    if a < 0 {
      assert Digits(-a) == Decimal(a)[1..] == Digits(-b);
      DigitsInjective(-a, -b);
    } else {
      DigitsInjective(a, b);
    }
  }
}
