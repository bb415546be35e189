/**
 * The arithmetic of C#'s 32-bit `int` as the effect code uses it: unchecked
 * wrap-around on `+`, `-`, `*` and `<<`, a shift count masked to five bits,
 * and division that truncates toward zero.
 */
module CSharpInt {

  const MinInt32: int := -0x8000_0000
  const MaxInt32: int := 0x7FFF_FFFF
  /** The modulus of 32-bit two's-complement arithmetic. */
  const TwoTo32: int := 0x1_0000_0000

  predicate IsInt32(x: int) {
    MinInt32 <= x <= MaxInt32
  }

  /** The `int` that C# holds after an unchecked operation whose exact result is `x`. */
  function Wrap32(x: int): (r: int)
    ensures IsInt32(r)
    ensures (x - r) % TwoTo32 == 0
    ensures IsInt32(x) ==> r == x
  {
    (x - MinInt32) % TwoTo32 + MinInt32
  }

  /** Wrap32 picks the one `int` in each residue class modulo 2^32. */
  lemma Wrap32Unique(x: int, r: int)
    requires IsInt32(r)
    requires (x - r) % TwoTo32 == 0
    ensures Wrap32(x) == r
  {
    var w := Wrap32(x);
    var a, b := (x - r) / TwoTo32, (x - w) / TwoTo32;
    assert x - r == TwoTo32 * a;
    assert x - w == TwoTo32 * b;
    assert w - r == TwoTo32 * (a - b);
  }

  /** Wrapping the inner operation of a sum does not change the wrapped sum. */
  lemma Wrap32Inner(a: int, b: int)
    ensures Wrap32(a + Wrap32(b)) == Wrap32(a + b)
  {
    var w := Wrap32(b);
    var q := (b - w) / TwoTo32;
    assert b - w == TwoTo32 * q;
    var s := Wrap32(a + b);
    var t := (a + b - s) / TwoTo32;
    assert a + b - s == TwoTo32 * t;
    assert a + w - s == TwoTo32 * (t - q);
    Wrap32Unique(a + w, s);
  }

  /** `a + b` on two `int`s. */
  function Add32(a: int, b: int): int {
    Wrap32(a + b)
  }

  /** `a * b` on two `int`s. */
  function Mul32(a: int, b: int): int {
    Wrap32(a * b)
  }

  function Abs(x: int): nat {
    if x < 0 then -x else x
  }

  /** C# throws on `a / 0` and on `int.MinValue / -1`; every other quotient exists. */
  predicate DivisionDefined(a: int, b: int) {
    b != 0 && !(a == MinInt32 && b == -1)
  }

  lemma MulAtLeast(q: nat, d: nat, k: nat)
    requires k <= d
    ensures k * q <= d * q
  {
    assert d * q == k * q + (d - k) * q;
  }

  /** Euclidean division facts on naturals, the ground for TruncDiv. */
  lemma NatDivision(n: nat, d: nat)
    requires d > 0
    ensures n == d * (n / d) + n % d && 0 <= n % d < d
    ensures n / d <= n
    ensures d >= 2 ==> 2 * (n / d) <= n
  {
    var q, r := n / d, n % d;
    assert n == d * q + r;
    MulAtLeast(q, d, 1);
    if d >= 2 {
      MulAtLeast(q, d, 2);
    }
  }

  lemma ProductSigns(x: int, y: int)
    ensures (-x) * (-y) == x * y && (-x) * y == -(x * y) && x * (-y) == -(x * y)
  {
  }

  /** The truncated quotient of `a` by `b` for one choice of signs, written on magnitudes. */
  lemma TruncQuotient(a: int, b: int, q: int)
    requires b != 0
    requires q == if (a < 0) == (b < 0) then Abs(a) / Abs(b) else -(Abs(a) / Abs(b))
    ensures Abs(a - b * q) < Abs(b)
    ensures a - b * q == 0 || (a - b * q < 0 <==> a < 0)
    ensures IsInt32(a) && IsInt32(b) && DivisionDefined(a, b) ==> IsInt32(q)
  {
    var n: int, d: int := Abs(a), Abs(b);
    var q0: int := n / d;
    NatDivision(n, d);
    var p: int := d * q0;
    ProductSigns(d, q0);
    if a >= 0 && b > 0 {
      assert a - b * q == n - p;
    } else if a < 0 && b < 0 {
      assert b * q == -p;
      assert a - b * q == -(n - p);
    } else if a >= 0 {
      assert b * q == p;
      assert a - b * q == n - p;
    } else {
      assert b * q == -p;
      assert a - b * q == -(n - p);
    }
    assert d == 1 ==> q0 == n;
  }

  /**
   * `a / b` as C# computes it: the quotient truncated toward zero, so that the
   * remainder takes the sign of the dividend.
   */
  function TruncDiv(a: int, b: int): (q: int)
    requires b != 0
    ensures Abs(a - b * q) < Abs(b)
    ensures a - b * q == 0 || (a - b * q < 0 <==> a < 0)
    ensures a >= 0 && b > 0 ==> q == a / b
    ensures IsInt32(a) && IsInt32(b) && DivisionDefined(a, b) ==> IsInt32(q)
  {
    var q := if (a < 0) == (b < 0) then Abs(a) / Abs(b) else -(Abs(a) / Abs(b));
    TruncQuotient(a, b, q);
    q
  }

  function Pow2(n: nat): (p: nat)
    ensures p >= 1
  {
    if n == 0 then 1 else 2 * Pow2(n - 1)
  }

  lemma {:induction false} Pow2Add(m: nat, n: nat)
    ensures Pow2(m + n) == Pow2(m) * Pow2(n)
  {
    if n > 0 {
      Pow2Add(m, n - 1);
      assert Pow2(m + n) == 2 * Pow2(m + n - 1);
    }
  }

  lemma {:induction false} Pow2Monotone(m: nat, n: nat)
    requires m <= n
    ensures Pow2(m) <= Pow2(n)
  {
    if m < n {
      Pow2Monotone(m, n - 1);
    }
  }

  /**
   * `x << count` on an `int`: C# uses only the low five bits of the count and
   * keeps the low 32 bits of the shifted value.
   */
  function ShiftLeft32(x: int, count: int): (r: int)
    ensures IsInt32(r)
    ensures (x * Pow2(count % 32) - r) % TwoTo32 == 0
  {
    Wrap32(x * Pow2(count % 32))
  }
}
