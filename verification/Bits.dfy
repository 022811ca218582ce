/** Arithmetic modulo powers of two. */
module Bits {

  function Pow2(w: nat): (p: nat)
    ensures p >= 1
  {
    if w == 0 then 1 else 2 * Pow2(w - 1)
  }

  lemma {:induction false} Pow2Split(a: nat, b: nat)
    ensures Pow2(a + b) == Pow2(a) * Pow2(b)
  {
    if a > 0 {
      Pow2Split(a - 1, b);
      assert Pow2(a + b) == 2 * Pow2(a - 1 + b);
      assert 2 * (Pow2(a - 1) * Pow2(b)) == Pow2(a) * Pow2(b);
    }
  }

  lemma Pow2Grows(a: nat, b: nat)
    requires a <= b
    ensures Pow2(a) <= Pow2(b)
    ensures a < b ==> 2 * Pow2(a) <= Pow2(b)
    decreases b - a
  {
  }

  /** Multiples of the modulus do not show. */
  lemma ModShift(x: int, k: int, n: int)
    requires n > 0
    ensures (x + k * n) % n == x % n
  {
    var q := x / n;
    assert x + k * n == (q + k) * n + x % n by {
      assert (q + k) * n == q * n + k * n;
    }
    ModUnique(x + k * n, q + k, x % n, n);
  }

  lemma ModUnique(x: int, q: int, r: int, n: int)
    requires n > 0 && x == q * n + r && 0 <= r < n
    ensures x % n == r
  {
    assert (x / n - q) * n == r - x % n by {
      assert x == (x / n) * n + x % n;
      assert (x / n - q) * n == (x / n) * n - q * n;
    }
    SmallMultiple(x / n - q, n);
  }

  lemma SmallMultiple(d: int, n: int)
    requires n > 0 && -n < d * n < n
    ensures d == 0
  {
  }

  lemma ModOfMod(x: int, p: int, n: int)
    requires p > 0 && n > 0 && p * n > 0
    ensures (x % (p * n)) % n == x % n
  {
    var big := p * n;
    var q := x / big;
    assert x % big == x + (-q * p) * n by {
      assert (-q * p) * n == -q * big;
    }
    ModShift(x, -q * p, n);
  }

  /** The low `w` bits of `x`, in two's complement. */
  function Low(x: int, w: nat): (r: nat)
    ensures r < Pow2(w)
  {
    x % Pow2(w)
  }

  lemma LowUnique(x: int, q: int, r: nat, w: nat)
    requires x == q * Pow2(w) + r && r < Pow2(w)
    ensures Low(x, w) == r
  {
    ModUnique(x, q, r, Pow2(w));
  }

  lemma LowShift(x: int, k: int, w: nat)
    ensures Low(x + k * Pow2(w), w) == Low(x, w)
  {
    ModShift(x, k, Pow2(w));
  }

  lemma LowOfSmall(x: nat, w: nat)
    requires x < Pow2(w)
    ensures Low(x, w) == x
  {
    LowUnique(x, 0, x, w);
  }

  /** The low bits of the low bits. */
  lemma LowOfLow(x: int, w: nat, m: nat)
    requires w <= m
    ensures Low(Low(x, m), w) == Low(x, w)
  {
    Pow2Split(m - w, w);
    ModOfMod(x, Pow2(m - w), Pow2(w));
  }

  /** The pattern `x` of `w` bits, read as two's complement. */
  function Signed(x: nat, w: nat): int {
    if w > 0 && x >= Pow2(w - 1) then x - Pow2(w) else x
  }

  // ----- equality of low bits is kept by arithmetic

  ghost predicate Congruent(a: int, b: int, w: nat) {
    Low(a, w) == Low(b, w)
  }

  lemma Quotient(a: int, b: int, w: nat) returns (k: int)
    requires Congruent(a, b, w)
    ensures a == b + k * Pow2(w)
  {
    var n := Pow2(w);
    k := a / n - b / n;
    assert a == (a / n) * n + a % n && b == (b / n) * n + b % n;
    assert k * n == (a / n) * n - (b / n) * n;
  }

  lemma CongruentSum(a: int, b: int, c: int, d: int, w: nat)
    requires Congruent(a, b, w) && Congruent(c, d, w)
    ensures Congruent(a + c, b + d, w) && Congruent(a - c, b - d, w)
  {
    hide Low, Pow2;
    var k := Quotient(a, b, w);
    var l := Quotient(c, d, w);
    var n := Pow2(w);
    assert (k + l) * n == k * n + l * n && (k - l) * n == k * n - l * n;
    assert a + c == b + d + (k + l) * n;
    assert a - c == b - d + (k - l) * n;
    LowShift(b + d, k + l, w);
    LowShift(b - d, k - l, w);
  }

  lemma CongruentTimes(a: int, b: int, c: int, w: nat)
    requires Congruent(a, b, w)
    ensures Congruent(a * c, b * c, w)
  {
    hide Low, Pow2;
    var k := Quotient(a, b, w);
    var n := Pow2(w);
    assert a * c == b * c + (k * c) * n by {
      assert (b + k * n) * c == b * c + (k * n) * c;
      assert (k * n) * c == (k * c) * n;
    }
    LowShift(b * c, k * c, w);
  }

  lemma CongruentProduct(a: int, b: int, c: int, d: int, w: nat)
    requires Congruent(a, b, w) && Congruent(c, d, w)
    ensures Congruent(a * c, b * d, w)
  {
    hide Low, Pow2;
    CongruentTimes(a, b, c, w);
    CongruentTimes(c, d, b, w);
    assert c * b == b * c && d * b == b * d;
  }

  /** Two's complement keeps the low bits and lands in the signed range. */
  lemma SignedOfLow(x: int, w: nat)
    requires w > 0
    ensures Congruent(Signed(Low(x, w), w), x, w)
    ensures 0 - Pow2(w - 1) <= Signed(Low(x, w), w) < Pow2(w - 1)
  {
    hide Low;
    LowOfLow(x, w, w);
    var l: int := Low(x, w);
    LowShift(l, -1, w);
    assert l + -1 * Pow2(w) == l - Pow2(w);
  }
}
