/** Go's built-in `int` on a 64-bit platform and the integer operators the
    client and the worker apply to it: wrap-around addition and subtraction,
    and division and remainder that truncate toward zero. */
module GoInt {

  const MinInt: int := -0x8000_0000_0000_0000
  const MaxInt: int := 0x7fff_ffff_ffff_ffff
  /** Number of distinct 64-bit values: signed arithmetic wraps modulo this. */
  const Modulus: int := 0x1_0000_0000_0000_0000

  /** A value of Go's `int`. */
  type Int = x: int | -0x8000_0000_0000_0000 <= x <= 0x7fff_ffff_ffff_ffff

  /** The 64-bit two's-complement value of the mathematical integer `x`:
      what Go's `+`, `-` and `++` leave in an `int`. */
  function Wrap(x: int): (r: Int)
    ensures (x - r) % Modulus == 0
    ensures MinInt <= x <= MaxInt ==> r == x
  {
    var m := (x - MinInt) % Modulus;
    assert x - (m + MinInt) == Modulus * ((x - MinInt) / Modulus);
    m + MinInt
  }

  /** Wrapping a value at most one modulus outside the range shifts it by
      exactly one modulus. */
  lemma {:induction false} WrapNear(x: int)
    requires MinInt - Modulus <= x <= MaxInt + Modulus
    ensures Wrap(x) == if x < MinInt then x + Modulus else if x > MaxInt then x - Modulus else x
  {
    if x < MinInt {
      DivUnique(x - MinInt, -1, x - MinInt + Modulus, Modulus);
    } else if x > MaxInt {
      DivUnique(x - MinInt, 1, x - MinInt - Modulus, Modulus);
    }
  }

  /** Two integers that agree modulo 2^64 wrap to the same `int`. */
  lemma {:induction false} WrapCongruent(x: int, y: int)
    requires (x - y) % Modulus == 0
    ensures Wrap(x) == Wrap(y)
  {
    var k := (x - y) / Modulus;
    assert x - MinInt == (y - MinInt) + k * Modulus;
    ModShift(y - MinInt, k);
  }

  lemma {:induction false} ModShift(a: int, k: int)
    ensures (a + k * Modulus) % Modulus == a % Modulus
  {
    var q := a / Modulus;
    var r := a % Modulus;
    assert a + k * Modulus == (q + k) * Modulus + r;
  }

  /** Adding to an already wrapped value and wrapping again is the same as
      wrapping the exact sum: a running Go `int` total equals the exact total
      wrapped once at the end. */
  lemma {:induction false} WrapAdd(a: int, b: int)
    ensures Wrap(Wrap(a) + b) == Wrap(a + b)
  {
    var w := Wrap(a);
    var k := (a - w) / Modulus;
    assert (a + b) - (w + b) == k * Modulus;
    ModShift(0, k);
    WrapCongruent(w + b, a + b);
  }

  /** Go's `a / b` for a positive divisor: the quotient truncated toward zero. */
  function GoDiv(a: int, b: int): (q: int)
    requires b > 0
    ensures a >= 0 ==> 0 <= q * b <= a
    ensures a < 0 ==> a <= q * b <= 0
    ensures -b < a - q * b < b
  {
    DivMod(if a >= 0 then a else -a, b);
    if a >= 0 then a / b else -((-a) / b)
  }

  /** Go's `a % b` for a positive divisor: its sign follows the dividend. */
  function GoRem(a: int, b: int): (r: int)
    requires b > 0
    ensures a == GoDiv(a, b) * b + r
    ensures a >= 0 ==> 0 <= r < b
    ensures a < 0 ==> -b < r <= 0
  {
    DivMod(if a >= 0 then a else -a, b);
    a - GoDiv(a, b) * b
  }

  /** Go's truncated `%` and Dafny's Euclidean `%` agree on divisibility, and
      on a divisible dividend the two quotients coincide. */
  lemma {:induction false} GoRemZeroIffDivides(a: int, b: int)
    requires b > 0
    ensures GoRem(a, b) == 0 <==> a % b == 0
    ensures GoRem(a, b) == 0 ==> GoDiv(a, b) == a / b
  {
    DivMod(a, b);
    if a >= 0 {
      DivMod(a, b);
    } else {
      DivMod(-a, b);
      var q := (-a) / b;
      var r := (-a) % b;
      if r == 0 {
        assert a == (-q) * b;
        DivUnique(a, -q, 0, b);
      } else {
        assert GoRem(a, b) == -r;
        assert a == (-q - 1) * b + (b - r);
        DivUnique(a, -q - 1, b - r, b);
      }
    }
  }

  /** Solver hint: Dafny's built-in Euclidean `/` and `%` on a positive
      divisor, stated so that callers can name the facts. */
  lemma DivMod(a: int, b: int)
    requires b > 0
    ensures a == (a / b) * b + a % b && 0 <= a % b < b
    ensures a >= 0 ==> a / b >= 0
  {
  }

  lemma {:induction false} DivUnique(a: int, q: int, r: int, b: int)
    requires b > 0 && 0 <= r < b && a == q * b + r
    ensures a / b == q && a % b == r
  {
    DivMod(a, b);
    var q' := a / b;
    var r' := a % b;
    if q' < q {
      MulGap(q, q', b);
    } else if q' > q {
      MulGap(q', q, b);
    }
  }

  /** Distinct multiples of `b` lie at least `b` apart. */
  lemma MulGap(x: int, y: int, b: int)
    requires b > 0 && x > y
    ensures x * b - y * b >= b
  {
    var d := x - y - 1;
    assert x * b - y * b == (d + 1) * b;
    assert (d + 1) * b == d * b + b;
    MulNonneg(d, b);
  }

  /** Multiplying by a non-negative factor keeps the order. */
  lemma MulMonotone(x: int, y: int, b: int)
    requires x >= y && b >= 0
    ensures x * b >= y * b
  {
    MulNonneg(x - y, b);
    assert x * b - y * b == (x - y) * b;
  }

  /** Solver hint: distributing one more multiple. */
  lemma MulSucc(m: int, b: int)
    ensures (m + 1) * b == m * b + b
  {
  }

  /** Solver hint: a product of non-negative factors is non-negative. */
  lemma MulNonneg(c: int, b: int)
    requires c >= 0 && b >= 0
    ensures c * b >= 0
  {
  }
}
