/** Java's 32-bit two's-complement `int`: the range, the wrap-around of `+`, `-` and `*`,
    division that truncates toward zero, and the congruence facts the vector proofs use. */
module JavaInt {

  const MinInt: int := -0x8000_0000
  const MaxInt: int := 0x7fff_ffff
  /** 2^32: two `int` results that differ by a multiple of this are the same `int`. */
  const Modulus: int := 0x1_0000_0000

  type Int32 = x: int | MinInt <= x <= MaxInt

  /** The `int` that Java stores for the mathematical value `x`. */
  function Wrap(x: int): (r: Int32)
    ensures MinInt <= x <= MaxInt ==> r == x
  {
    var m := (x - MinInt) % Modulus;
    WrapInRange(x);
    m + MinInt
  }

  lemma WrapInRange(x: int)
    ensures MinInt <= x <= MaxInt ==> (x - MinInt) % Modulus == x - MinInt
    ensures (x - ((x - MinInt) % Modulus + MinInt)) % Modulus == 0
  {
    var q := (x - MinInt) / Modulus;
    var m := (x - MinInt) % Modulus;
    assert x - MinInt == Modulus * q + m;
    assert x - (m + MinInt) == Modulus * q;
    MultipleMod(q);
  }

  /** `Modulus * q` leaves no remainder. */
  lemma MultipleMod(q: int)
    ensures (Modulus * q) % Modulus == 0
  {
    var n := Modulus * q;
    var q', r' := n / Modulus, n % Modulus;
    assert n == Modulus * q' + r' && 0 <= r' < Modulus;
    assert Modulus * (q - q') == r';
  }

  /** Two values congruent modulo 2^32 are stored as the same `int`. */
  lemma {:induction false} WrapCongruent(x: int, y: int)
    requires (x - y) % Modulus == 0
    ensures Wrap(x) == Wrap(y)
  {
    var a, b := Wrap(x), Wrap(y);
    WrapInRange(x);
    WrapInRange(y);
    // a - b is a multiple of 2^32 strictly between -2^32 and 2^32
    var k1, k2, k3 := (x - a) / Modulus, (y - b) / Modulus, (x - y) / Modulus;
    assert x - a == Modulus * k1;
    assert y - b == Modulus * k2;
    assert x - y == Modulus * k3;
    assert a - b == Modulus * (k3 - k1 + k2);
  }

  /** Congruence modulo 2^32, stated without an existential. */
  predicate Congruent(x: int, y: int) {
    (x - y) % Modulus == 0
  }

  lemma {:induction false} CongruentByMultiple(x: int, y: int, k: int)
    requires x == y + Modulus * k
    ensures Congruent(x, y)
  {
    MultipleMod(k);
  }

  lemma {:induction false} CongruentMultiple(x: int, y: int) returns (k: int)
    requires Congruent(x, y)
    ensures x == y + Modulus * k
  {
    k := (x - y) / Modulus;
  }

  lemma {:induction false} CongruentSum(a: int, b: int, c: int, d: int)
    requires Congruent(a, b) && Congruent(c, d)
    ensures Congruent(a + c, b + d) && Congruent(a - c, b - d)
  {
    var k1 := CongruentMultiple(a, b);
    var k2 := CongruentMultiple(c, d);
    CongruentByMultiple(a + c, b + d, k1 + k2);
    CongruentByMultiple(a - c, b - d, k1 - k2);
  }

  lemma {:induction false} CongruentProduct(a: int, b: int, c: int, d: int)
    requires Congruent(a, b) && Congruent(c, d)
    ensures Congruent(a * c, b * d)
  {
    var k1 := CongruentMultiple(a, b);
    var k2 := CongruentMultiple(c, d);
    calc {
      a * c;
      (b + Modulus * k1) * (d + Modulus * k2);
      b * d + Modulus * (k1 * d + b * k2 + Modulus * k1 * k2);
    }
    CongruentByMultiple(a * c, b * d, k1 * d + b * k2 + Modulus * k1 * k2);
  }

  lemma WrapIsCongruent(x: int)
    ensures Congruent(Wrap(x), x)
  {
    WrapInRange(x);
    var k := CongruentMultiple(x, Wrap(x));
    CongruentByMultiple(Wrap(x), x, -k);
  }

  lemma {:induction false} CongruentSymmetric(x: int, y: int)
    requires Congruent(x, y)
    ensures Congruent(y, x)
  {
    var k := CongruentMultiple(x, y);
    CongruentByMultiple(y, x, -k);
  }

  lemma CongruentTransitive(x: int, y: int, z: int)
    requires Congruent(x, y) && Congruent(y, z)
    ensures Congruent(x, z)
  {
    var k1 := CongruentMultiple(x, y);
    var k2 := CongruentMultiple(y, z);
    CongruentByMultiple(x, z, k1 + k2);
  }

  /** Values congruent up to sign have congruent squares. */
  lemma {:induction false} CongruentSquare(d: int, e: int)
    requires Congruent(d + e, 0)
    ensures Congruent(d * d, e * e)
  {
    var k := CongruentMultiple(d + e, 0);
    assert d == Modulus * k - e;
    assert d * d == e * e + Modulus * (Modulus * k * k - 2 * e * k);
    CongruentByMultiple(d * d, e * e, Modulus * k * k - 2 * e * k);
  }

  /** Java `a + b` on two `int`s. */
  function AddI(a: Int32, b: Int32): Int32 { Wrap(a + b) }

  /** Java `a - b` on two `int`s. */
  function SubI(a: Int32, b: Int32): Int32 { Wrap(a - b) }

  /** Java `a * b` on two `int`s. */
  function MulI(a: Int32, b: Int32): Int32 { Wrap(a * b) }

  /** Wrapping an intermediate result does not change the final wrapped value. */
  lemma {:induction false} WrapAbsorbSum(a: int, b: int)
    ensures Wrap(Wrap(a) + b) == Wrap(a + b)
  {
    WrapIsCongruent(a);
    CongruentSum(Wrap(a), a, b, b);
    WrapCongruent(Wrap(a) + b, a + b);
  }

  lemma {:induction false} WrapAbsorbProduct(a: int, b: int)
    ensures Wrap(Wrap(a) * b) == Wrap(a * b)
  {
    WrapIsCongruent(a);
    CongruentProduct(Wrap(a), a, b, b);
    WrapCongruent(Wrap(a) * b, a * b);
  }

  /** A sum or difference of two `int`s leaves the range by less than 2^32, so Java's result is
      the true value corrected by 2^32 at most once. */
  function OnceWrapped(x: int): int {
    if x > MaxInt then x - Modulus else if x < MinInt then x + Modulus else x
  }

  lemma AddSubWrapOnce(a: Int32, b: Int32)
    ensures AddI(a, b) == OnceWrapped(a + b)
    ensures SubI(a, b) == OnceWrapped(a - b)
  {
    WrapCongruent(a + b, OnceWrapped(a + b));
    WrapCongruent(a - b, OnceWrapped(a - b));
  }

  /** Wrapping the operands of a sum or difference does not change the wrapped result. */
  lemma {:induction false} WrapSum2(p: int, q: int)
    ensures Wrap(Wrap(p) + Wrap(q)) == Wrap(p + q)
    ensures Wrap(Wrap(p) - Wrap(q)) == Wrap(p - q)
  {
    WrapIsCongruent(p);
    WrapIsCongruent(q);
    CongruentSum(Wrap(p), p, Wrap(q), q);
    WrapCongruent(Wrap(p) + Wrap(q), p + q);
    WrapCongruent(Wrap(p) - Wrap(q), p - q);
  }

  /** Wrapping the factors of a product does not change the wrapped result. */
  lemma {:induction false} WrapProduct2(p: int, q: int)
    ensures Wrap(Wrap(p) * Wrap(q)) == Wrap(p * q)
  {
    WrapIsCongruent(p);
    WrapIsCongruent(q);
    CongruentProduct(Wrap(p), p, Wrap(q), q);
    WrapCongruent(Wrap(p) * Wrap(q), p * q);
  }

  /** The 32-bit sum of two squares of wrapped differences is the true sum of squares, wrapped. */
  lemma {:induction false} WrapSquares(d: int, e: int)
    ensures AddI(MulI(Wrap(d), Wrap(d)), MulI(Wrap(e), Wrap(e))) == Wrap(d * d + e * e)
  {
    WrapProduct2(d, d);
    WrapProduct2(e, e);
    WrapSum2(d * d, e * e);
  }

  lemma {:induction false} WrapSquares3(d: int, e: int, f: int)
    ensures AddI(AddI(MulI(Wrap(d), Wrap(d)), MulI(Wrap(e), Wrap(e))), MulI(Wrap(f), Wrap(f)))
         == Wrap(d * d + e * e + f * f)
  {
    WrapSquares(d, e);
    WrapProduct2(f, f);
    WrapSum2(d * d + e * e, f * f);
  }

  /** Mathematical quotient truncated toward zero, as Java's `/` on integers. */
  function TruncDiv(a: int, b: int): (q: int)
    requires b != 0
    ensures 0 <= a ==> 0 <= a - q * b < Abs(b)
    ensures a < 0 ==> -Abs(b) < a - q * b <= 0
  {
    if (a >= 0) == (b > 0) then Abs(a) / Abs(b) else -(Abs(a) / Abs(b))
  }

  function Abs(a: int): (r: int)
    ensures r >= 0
  {
    if a < 0 then -a else a
  }

  /** `q` is `a / b` truncated toward zero: the remainder has the sign of `a` and is smaller
      than `b` in magnitude. */
  predicate TruncatedQuotient(a: int, b: int, q: int) {
    (0 <= a ==> 0 <= a - q * b < Abs(b)) && (a < 0 ==> -Abs(b) < a - q * b <= 0)
  }

  lemma {:induction false} MulAtLeast(q: int, d: int)
    requires q >= 0 && d >= 1
    ensures q * d >= q
    decreases d
  {
    if d > 1 {
      MulAtLeast(q, d - 1);
      assert q * d == q * (d - 1) + q;
    }
  }

  lemma QuotientBound(n: int, d: int)
    requires n >= 0 && d >= 1
    ensures 0 <= n / d <= n
  {
    var q, r := n / d, n % d;
    assert d * q + r == n && r >= 0;
    assert q >= 0;
    MulAtLeast(q, d);
    assert d * q == q * d;
  }

  /** A quotient by at least 2 is at most half the dividend. */
  lemma QuotientHalf(n: int, d: int)
    requires n >= 0 && d >= 2
    ensures 2 * (n / d) <= n
  {
    var q := n / d;
    assert d * q + n % d == n && n % d >= 0;
    QuotientBound(n, d);
    MulAtLeast(q, d - 1);
    assert q * d == q * (d - 1) + q;
    assert d * q == q * d;
  }

  /** Except for MinInt / -1, Java's `int` division does not wrap; MinInt / -1 wraps back to
      MinInt. */
  lemma DivIExact(a: Int32, b: Int32)
    requires b != 0
    ensures !(a == MinInt && b == -1) ==> DivI(a, b) == TruncDiv(a, b) && TruncatedQuotient(a, b, DivI(a, b))
    ensures a == MinInt && b == -1 ==> DivI(a, b) == MinInt
  {
    var n, d := Abs(a), Abs(b);
    QuotientBound(n, d);
    var q := TruncDiv(a, b);
    assert q == n / d || q == -(n / d);
    if a != MinInt {
      assert n <= MaxInt;
    } else if d >= 2 {
      QuotientHalf(n, d);
    } else if b == 1 {
      assert q == a;
    } else {
      assert q == -(a as int) == Modulus + MinInt;
    }
  }

  /** Java `a / b` on two `int`s; only MinInt / -1 overflows (to MinInt). */
  function DivI(a: Int32, b: Int32): Int32
    requires b != 0
  {
    Wrap(TruncDiv(a, b))
  }

  /** Java `Math.abs` on an `int`: the negation wraps, so `Integer.MIN_VALUE` is its own
      absolute value and every other `int` gets its magnitude. */
  function AbsI(a: Int32): (r: Int32)
    ensures a != MinInt ==> r == Abs(a)
    ensures a == MinInt ==> r == MinInt
  {
    if a < 0 then Wrap(-(a as int)) else a
  }

  function Min(a: int, b: int): int { if a <= b then a else b }
  function Max(a: int, b: int): int { if a >= b then a else b }
}
