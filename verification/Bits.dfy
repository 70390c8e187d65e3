/** Unsigned machine arithmetic on natural numbers: the bitwise AND that the C code uses to
    mask free-running counters, powers of two, and the remainder facts behind both. */
module Bits {
  type byte = x: int | 0 <= x < 256


  const U16: nat := 0x1_0000
  const U32: nat := 0x1_0000_0000

  function Pow2(k: nat): (r: nat)
    ensures r >= 1
  {
    if k == 0 then 1 else 2 * Pow2(k - 1)
  }

  ghost predicate IsPow2(n: nat) {
    exists k: nat :: n == Pow2(k)
  }

  /** Bitwise AND, one binary digit at a time. */
  function And(a: nat, b: nat): (r: nat)
    ensures r <= a && r <= b
  {
    if a == 0 || b == 0 then 0
    else 2 * And(a / 2, b / 2) + (if a % 2 == 1 && b % 2 == 1 then 1 else 0)
  }

  /** Subtraction in `width` values, as on an unsigned C integer. */
  function WrapSub(a: int, b: int, width: nat): (r: nat)
    requires width > 0
    ensures r < width
  {
    (a - b) % width
  }

  lemma RemHalf(x: nat, h: nat)
    requires h > 0
    ensures x % (2 * h) == 2 * ((x / 2) % h) + x % 2
  {
    var y, b := x / 2, x % 2;
    assert x == 2 * y + b;
    DivRem(y, h);
    var q, r := y / h, y % h;
    assert x == q * (2 * h) + (2 * r + b) by {
      assert q * (2 * h) == 2 * (q * h);
    }
    RemUnique(x, 2 * h, q, 2 * r + b);
  }

  lemma AndStep(a: nat, b: nat)
    requires a > 0 && b > 0
    ensures And(a, b) == 2 * And(a / 2, b / 2) + (if a % 2 == 1 && b % 2 == 1 then 1 else 0)
  {
  }

  lemma AndZero(a: nat)
    ensures And(a, 0) == 0 && And(0, a) == 0
  {
  }

  lemma Pow2Step(k: nat)
    requires k > 0
    ensures Pow2(k) == 2 * Pow2(k - 1)
  {
  }

  /** Masking with 2^k - 1 is the remainder modulo 2^k. */
  lemma {:induction false} AndMask(x: nat, k: nat)
    ensures And(x, Pow2(k) - 1) == x % Pow2(k)
  {
    if k == 0 || x == 0 {
      AndZero(x);
      AndZero(Pow2(k) - 1);
    } else {
      hide And, Pow2;
      var h := Pow2(k - 1);
      Pow2Step(k);
      var m := 2 * h - 1;
      assert m / 2 == h - 1 && m % 2 == 1;
      AndMask(x / 2, k - 1);
      RemHalf(x, h);
      AndStep(x, m);
    }
  }

  /** The test `(n & (n - 1)) == 0` accepts exactly zero and the powers of two. */
  lemma {:induction false} PowerOfTwoTest(n: nat)
    requires n > 0
    ensures And(n, n - 1) == 0 <==> IsPow2(n)
  {
    if n == 1 {
      assert Pow2(0) == 1;
    } else if n % 2 == 1 {
      assert (n - 1) / 2 == n / 2;
      AndSelf(n / 2);
      assert And(n, n - 1) != 0;
      forall k: nat ensures n != Pow2(k) {
        if k > 0 { assert Pow2(k) == 2 * Pow2(k - 1); }
      }
    } else {
      assert (n - 1) / 2 == n / 2 - 1;
      PowerOfTwoTest(n / 2);
      if IsPow2(n / 2) {
        var k: nat :| n / 2 == Pow2(k);
        assert n == Pow2(k + 1);
      }
      if IsPow2(n) {
        var k: nat :| n == Pow2(k);
        assert n / 2 == Pow2(k - 1);
      }
    }
  }

  lemma {:induction false} AndSelf(a: nat)
    ensures And(a, a) == a
  {
    if a > 0 { AndSelf(a / 2); }
  }

  lemma DivRem(x: int, n: int)
    requires n > 0
    ensures x == (x / n) * n + x % n
    ensures 0 <= x % n < n
  {
  }

  lemma MulGap(d: int, n: int)
    requires n > 0
    ensures d >= 1 ==> d * n >= n
    ensures d <= 0 ==> d * n <= 0
    ensures d <= -1 ==> d * n <= -n
  {
  }

  /** Quotient and remainder are determined by the division equation. */
  lemma RemUnique(x: int, n: int, q: int, r: int)
    requires n > 0 && 0 <= r < n && x == q * n + r
    ensures x % n == r && x / n == q
  {
    DivRem(x, n);
    var d := q - x / n;
    assert d * n == x % n - r by {
      assert q * n - (x / n) * n == (q - x / n) * n;
    }
    MulGap(d, n);
  }

  /** Reducing modulo a multiple first does not change the remainder. */
  lemma RemOfRem(x: int, n: int, m: int)
    requires n > 0 && m > 0
    ensures n * m > 0
    ensures (x % (n * m)) % n == x % n
  {
    var w := n * m;
    assert w > 0;
    DivRem(x, w);
    DivRem(x % w, n);
    var q := (x / w) * m + (x % w) / n;
    assert ((x / w) * m) * n == (x / w) * w;
    assert q * n == ((x / w) * m) * n + ((x % w) / n) * n;
    RemUnique(x, n, q, (x % w) % n);
  }

  /** Two numbers less than n apart have different remainders modulo n. */
  lemma RemApart(a: int, b: int, n: int)
    requires n > 0 && a < b < a + n
    ensures a % n != b % n
  {
    DivRem(a, n);
    DivRem(b, n);
    if a % n == b % n {
      var d := b / n - a / n;
      assert d * n == b - a by { assert (b / n - a / n) * n == (b / n) * n - (a / n) * n; }
      MulGap(d, n);
    }
  }

  /** Wrapped subtraction of wrapped operands is wrapped subtraction of the operands. */
  lemma WrapSubOfRem(a: int, b: int, width: int)
    requires width > 0
    ensures (a % width - b % width) % width == (a - b) % width
  {
    DivRem(a, width);
    DivRem(b, width);
    DivRem(a % width - b % width, width);
    var q := a / width - b / width + (a % width - b % width) / width;
    assert q * width == (a / width) * width - (b / width) * width + ((a % width - b % width) / width) * width;
    RemUnique(a - b, width, q, (a % width - b % width) % width);
  }

  /** Adding to a wrapped operand, then wrapping, wraps the sum. */
  lemma WrapAddOfRem(a: int, b: int, width: int)
    requires width > 0
    ensures (a % width + b) % width == (a + b) % width
  {
    DivRem(a, width);
    DivRem(a % width + b, width);
    var q := a / width + (a % width + b) / width;
    assert q * width == (a / width) * width + ((a % width + b) / width) * width;
    RemUnique(a + b, width, q, (a % width + b) % width);
  }

  lemma WrapSubTwice(x: int, a: int, b: int, width: nat)
    requires width > 0
    ensures WrapSub(WrapSub(x, a, width), b, width) == WrapSub(x, a + b, width)
  {
    WrapAddOfRem(x - a, 0 - b, width);
  }

  /** Every power of two up to 2^top divides 2^top. */
  lemma {:induction false} Pow2Divides(k: nat, top: nat)
    requires k <= top
    ensures Pow2(k) * Pow2(top - k) == Pow2(top)
  {
    if k > 0 {
      hide Pow2;
      Pow2Divides(k - 1, top - 1);
      Pow2Step(k);
      Pow2Step(top);
      DoubleProduct(Pow2(k - 1), Pow2(top - k), Pow2(top - 1));
    }
  }

  lemma DoubleProduct(a: nat, b: nat, c: nat)
    requires a * b == c
    ensures (2 * a) * b == 2 * c
  {
    assert (2 * a) * b == 2 * (a * b);
  }

  /** A counter stored modulo 2^top and then masked for a ring of 2^k slots lands in the same
      slot as the unbounded counter. */
  lemma MaskedCounter(c: nat, k: nat, top: nat)
    requires k <= top
    ensures And(c % Pow2(top), Pow2(k) - 1) == c % Pow2(k)
  {
    AndMask(c % Pow2(top), k);
    Pow2Divides(k, top);
    RemOfRem(c, Pow2(k), Pow2(top - k));
  }

  lemma {:induction false} Pow2Mono(k: nat, m: nat)
    requires k <= m
    ensures Pow2(k) <= Pow2(m)
  {
    if k < m { Pow2Mono(k, m - 1); }
  }

  lemma Pow2Values()
    ensures Pow2(15) == 0x8000 && Pow2(16) == U16 && Pow2(32) == U32
  {
    assert Pow2(4) == 16;
    assert Pow2(8) == 256;
    assert Pow2(12) == 4096;
    assert Pow2(15) == 0x8000;
    Pow2Divides(16, 32);
  }
}
