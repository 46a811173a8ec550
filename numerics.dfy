/** Machine integers of the C# source: 32-bit `int`, 8-bit `byte`, and the
    unchecked (wrap-around) arithmetic, truncating division and narrowing
    casts that the image routines rely on. */
module Numerics {

  const IntMin: int := -0x8000_0000
  const IntMax: int := 0x7FFF_FFFF

  /** C# `int` */
  type int32 = x: int | -0x8000_0000 <= x <= 0x7FFF_FFFF

  /** C# `byte` */
  type byte = x: int | 0 <= x <= 0xFF

  function Min(a: int, b: int): (r: int)
    ensures r <= a && r <= b && (r == a || r == b)
  {
    if a <= b then a else b
  }

  function Max(a: int, b: int): (r: int)
    ensures r >= a && r >= b && (r == a || r == b)
  {
    if a >= b then a else b
  }

  function Abs(a: int): (r: nat)
    ensures r == a || r == -a
  {
    if a < 0 then -a else a
  }

  /** Unchecked two's-complement wrap-around of an exact result into `int`:
      whole multiples of 2^32 are added or taken away until the value fits. */
  function Wrap32(x: int): (r: int32)
    ensures IntMin <= x <= IntMax ==> r == x
  {
    if IntMin <= x <= IntMax then x else (x + 0x8000_0000) % 0x1_0000_0000 - 0x8000_0000
  }

  lemma WrapClosed(x: int)
    ensures Wrap32(x) == (x + 0x8000_0000) % 0x1_0000_0000 - 0x8000_0000
  {
    if IntMin <= x <= IntMax {
      ModUnique(x + 0x8000_0000, 0, x + 0x8000_0000, 0x1_0000_0000);
    }
  }

  /** Wrapping changes a value by a whole multiple of 2^32. */
  lemma WrapCongruent(x: int)
    ensures (Wrap32(x) - x) % 0x1_0000_0000 == 0
  {
    WrapClosed(x);
    var m := 0x1_0000_0000;
    var q := (x + 0x8000_0000) / m;
    assert Wrap32(x) - x == -q * m;
  }

  /** Wrapping twice is wrapping once: repeated unchecked additions agree with
      one wrap of the exact sum. */
  lemma WrapAdd(a: int, b: int)
    ensures Wrap32(Wrap32(a) + b) == Wrap32(a + b)
  {
    WrapClosed(a);
    WrapClosed(Wrap32(a) + b);
    WrapClosed(a + b);
    var m := 0x1_0000_0000;
    var k := (a + 0x8000_0000) / m;
    assert Wrap32(a) == a - k * m;
    assert (Wrap32(a) + b + 0x8000_0000) % m == (a + b + 0x8000_0000 - k * m) % m;
    ModMinusMultiple(a + b + 0x8000_0000, k, m);
  }

  lemma ModMinusMultiple(x: int, k: int, m: int)
    requires m > 0
    ensures (x - k * m) % m == x % m
  {
    var q := x / m;
    var r := x % m;
    assert x == q * m + r;
    assert x - k * m == (q - k) * m + r by {
      assert (q - k) * m == q * m - k * m;
    }
    ModUnique(x - k * m, q - k, r, m);
  }

  lemma ModUnique(y: int, q: int, r: int, m: int)
    requires m > 0 && 0 <= r < m && y == q * m + r
    ensures y % m == r
  {
    var q', r' := y / m, y % m;
    assert y == q' * m + r';
    assert (q - q') * m == r' - r by {
      assert (q - q') * m == q * m - q' * m;
    }
    if q - q' >= 1 {
      MulMonotone(q - q', m);
    } else if q - q' <= -1 {
      MulMonotone(q' - q, m);
    }
  }

  lemma MulMonotone(a: int, m: int)
    requires a >= 1 && m > 0
    ensures a * m >= m
  {
    assert a * m == (a - 1) * m + m;
    assert (a - 1) * m >= 0;
  }

  /** Quotient and remainder are determined by any decomposition `y == q * m + r`
      with `0 <= r < m`. */
  lemma DivModUnique(y: int, q: int, r: int, m: int)
    requires m > 0 && 0 <= r < m && y == q * m + r
    ensures y / m == q && y % m == r
  {
    ModUnique(y, q, r, m);
    assert (y / m) * m + r == q * m + r;
    assert (y / m - q) * m == 0 by {
      assert (y / m - q) * m == (y / m) * m - q * m;
    }
  }

  lemma MulLe(a: int, b: int, m: int)
    requires a <= b && m >= 0
    ensures a * m <= b * m
  {
    assert b * m - a * m == (b - a) * m;
  }

  lemma MulAddRight(a: int, b: int, m: int)
    ensures (a + b) * m == a * m + b * m
  {
  }

  lemma MulAssoc(a: int, b: int, m: int)
    ensures a * b * m == a * (b * m)
  {
  }

  lemma MulNonneg(a: int, b: int)
    requires a >= 0 && b >= 0
    ensures a * b >= 0
  {
  }

  lemma MulLtCancel(a: int, b: int, m: int)
    requires m > 0 && a * m < b * m
    ensures a < b
  {
  }

  lemma MulLeCancel(a: int, b: int, m: int)
    requires m > 0 && a * m <= b * m
    ensures a <= b
  {
  }

  lemma DivNonneg(r: int, m: int)
    requires r >= 0 && m > 0
    ensures r / m >= 0
  {
  }

  /** A quotient of a total that lies between `m * lo` and `m * hi` lies
      between `lo` and `hi`. */
  lemma DivWithin(r: int, m: int, lo: int, hi: int)
    requires m > 0 && m * lo <= r <= m * hi
    ensures lo <= r / m <= hi
  {
    assert lo * m <= r <= hi * m;
    var q := r / m;
    assert q * m <= r < q * m + m;
    MulAddRight(q, 1, m);
    MulLtCancel(lo, q + 1, m);
    MulLeCancel(q, hi, m);
  }

  /** C# integer division, which truncates toward zero (Dafny's `/` is Euclidean). */
  function DivTrunc(a: int, b: int): (r: int)
    requires b > 0
    ensures a >= 0 ==> r == a / b
    ensures a < 0 ==> r == -((-a) / b)
  {
    if a >= 0 then a / b else -((-a) / b)
  }

  /** The C# narrowing cast `(byte)x`: the low eight bits. */
  function ToByte(x: int): (r: byte)
    ensures 0 <= x <= 0xFF ==> r == x
    ensures (r - x) % 256 == 0
  {
    x % 256
  }
}
