/**
 Bitwise operators on natural numbers, defined bit by bit, and the arithmetic facts about masks,
 shifts and disjoint unions that the word-level code of the repository relies on.
 */
module Bits {

  /** 2 to the power k. */
  function Pow2(k: nat): (r: nat)
    ensures r >= 1
  {
    if k == 0 then 1 else 2 * Pow2(k - 1)
  }

  /** The C operator `&`. */
  function And(x: nat, y: nat): (r: nat)
    ensures r <= x && r <= y
  {
    if x == 0 || y == 0 then 0
    else (if x % 2 == 1 && y % 2 == 1 then 1 else 0) + 2 * And(x / 2, y / 2)
  }

  /** The C operator `|`. */
  function Or(x: nat, y: nat): (r: nat)
    ensures r <= x + y
  {
    if x == 0 then y else if y == 0 then x
    else (if x % 2 == 1 || y % 2 == 1 then 1 else 0) + 2 * Or(x / 2, y / 2)
  }

  /** The C operator `^`. */
  function Xor(x: nat, y: nat): (r: nat)
  {
    if x == 0 then y else if y == 0 then x
    else (if x % 2 != y % 2 then 1 else 0) + 2 * Xor(x / 2, y / 2)
  }

  // ----- powers of two

  lemma {:induction false} Pow2Add(j: nat, k: nat)
    ensures Pow2(j + k) == Pow2(j) * Pow2(k)
  {
    if j > 0 {
      Pow2Add(j - 1, k);
    }
  }

  lemma {:induction false} Pow2Mono(j: nat, k: nat)
    requires j <= k
    ensures Pow2(j) <= Pow2(k)
    decreases k - j
  {
    if j < k {
      Pow2Mono(j + 1, k);
    }
  }

  /** The powers the word sizes need. */
  lemma Pow2Values()
    ensures Pow2(1) == 2 && Pow2(2) == 4 && Pow2(3) == 8 && Pow2(4) == 16
    ensures Pow2(8) == 0x100 && Pow2(9) == 0x200 && Pow2(10) == 0x400 && Pow2(12) == 0x1000
    ensures Pow2(16) == 0x1_0000 && Pow2(20) == 0x10_0000
    ensures Pow2(31) == 0x8000_0000 && Pow2(32) == 0x1_0000_0000
    ensures Pow2(63) == 0x8000_0000_0000_0000 && Pow2(64) == 0x1_0000_0000_0000_0000
  {
    assert Pow2(4) == 16;
    Pow2Add(4, 4);
    Pow2Add(1, 8);
    Pow2Add(2, 8);
    Pow2Add(4, 8);
    Pow2Add(8, 8);
    Pow2Add(4, 16);
    Pow2Add(16, 16);
    Pow2Add(32, 32);
    assert Pow2(32) == 2 * Pow2(31);
    assert Pow2(64) == 2 * Pow2(63);
  }

  // ----- division facts

  lemma MulMono(a: int, b: int, c: int)
    requires a <= b && 0 <= c
    ensures a * c <= b * c
  {
  }

  lemma MulCancel(a: int, b: int, c: int)
    requires 0 < c && a * c < b * c
    ensures a < b
  {
    if b <= a {
      MulMono(b, a, c);
    }
  }

  /** Uniqueness of quotient and remainder. */
  lemma DivUnique(n: int, d: int, q: int, r: int)
    requires d > 0 && 0 <= r < d && n == q * d + r
    ensures n / d == q && n % d == r
  {
    DivRem(n, d);
    var q' := n / d;
    assert q' * d < (q + 1) * d by { assert (q + 1) * d == q * d + d; }
    MulCancel(q', q + 1, d);
    assert q * d < (q' + 1) * d by { assert (q' + 1) * d == q' * d + d; }
    MulCancel(q, q' + 1, d);
  }

  lemma DivRem(n: int, d: int)
    requires d > 0
    ensures n == n / d * d + n % d && 0 <= n % d < d
  {
  }

  lemma DivDiv(n: nat, a: nat, b: nat)
    requires a > 0 && b > 0
    ensures a * b > 0 && n / a / b == n / (a * b)
  {
    var q, r := n / a, n % a;
    DivRem(n, a);
    var q', r' := q / b, q % b;
    DivRem(q, b);
    assert q * a == q' * (a * b) + r' * a by {
      assert (q' * b + r') * a == q' * b * a + r' * a;
      assert q' * b * a == q' * (a * b);
    }
    MulMono(r', b - 1, a);
    assert (b - 1) * a == a * b - a;
    assert a * b > 0;
    MulMono(0, r', a);
    DivUnique(n, a * b, q', r' * a + r);
  }

  lemma DivMono(m: nat, n: nat, d: nat)
    requires m <= n && d > 0
    ensures m / d <= n / d
  {
    DivRem(m, d);
    DivRem(n, d);
    assert (n / d + 1) * d == n / d * d + d;
    MulCancel(m / d, n / d + 1, d);
  }

  lemma DivLess(n: nat, d: nat, b: nat)
    requires d > 0 && n < b * d
    ensures n / d < b
  {
    DivRem(n, d);
    MulCancel(n / d, b, d);
  }

  lemma DivGeq(n: nat, d: nat, b: nat)
    requires d > 0 && n >= b * d
    ensures n / d >= b
  {
    DivRem(n, d);
    assert (n / d + 1) * d == n / d * d + d;
    MulCancel(b, n / d + 1, d);
  }

  // ----- masks and disjoint unions

  /** And with a block of k ones placed at bit j keeps exactly those bits. */
  lemma {:induction false} AndMask(x: nat, j: nat, k: nat)
    ensures And(x, (Pow2(k) - 1) * Pow2(j)) == x / Pow2(j) % Pow2(k) * Pow2(j)
  {
    if j == 0 {
      AndLow(x, k);
    } else {
      var m, p := Pow2(k) - 1, Pow2(j - 1);
      assert Pow2(j) == 2 * p;
      hide And, Pow2;
      AndMask(x / 2, j - 1, k);
      DoubleProduct(m, p);
      AndDouble(x, m * p);
      DivDiv(x, 2, p);
      DoubleProduct(x / (2 * p) % Pow2(k), p);
    }
  }

  lemma {:induction false} AndLow(x: nat, k: nat)
    ensures And(x, Pow2(k) - 1) == x % Pow2(k)
  {
    if k == 0 {
      DivUnique(x, 1, x, 0);
    } else {
      AndLow(x / 2, k - 1);
      AndLowStep(x, Pow2(k - 1));
    }
  }

  lemma AndLowStep(x: nat, p: nat)
    requires p > 0 && And(x / 2, p - 1) == x / 2 % p
    ensures And(x, 2 * p - 1) == x % (2 * p)
  {
    hide *;
    LowBitSplit(x, p);
    AndOdd(x, p - 1);
  }

  lemma AndOdd(x: nat, m: nat)
    ensures And(x, 2 * m + 1) == x % 2 + 2 * And(x / 2, m)
  {
    if x > 0 {
      assert (2 * m + 1) % 2 == 1 && (2 * m + 1) / 2 == m;
    }
  }

  lemma DoubleProduct(t: nat, p: nat)
    ensures t * (2 * p) == 2 * (t * p)
  {
  }

  lemma AndDouble(x: nat, m: nat)
    ensures And(x, 2 * m) == 2 * And(x / 2, m)
  {
    if x > 0 && m > 0 {
      assert 2 * m % 2 == 0 && 2 * m / 2 == m;
    }
  }

  lemma LowBitSplit(x: nat, p: nat)
    requires p > 0
    ensures x % (2 * p) == x % 2 + 2 * (x / 2 % p)
  {
    var q, r := x / 2 / p, x / 2 % p;
    DivRem(x / 2, p);
    assert x == q * (2 * p) + (2 * r + x % 2) by { DoubleProduct(q, p); }
    DivUnique(x, 2 * p, q, 2 * r + x % 2);
  }

  /** Or of two words whose bits do not overlap is their sum. */
  lemma {:induction false} OrDisjoint(a: nat, j: nat, b: nat)
    requires b < Pow2(j)
    ensures Or(a * Pow2(j), b) == a * Pow2(j) + b
  {
    if j > 0 {
      OrDisjoint(a, j - 1, b / 2);
      DoubleProduct(a, Pow2(j - 1));
      OrStep(a * Pow2(j - 1), b);
    }
  }

  lemma OrStep(x: nat, b: nat)
    requires Or(x, b / 2) == x + b / 2
    ensures Or(2 * x, b) == 2 * x + b
  {
    if x > 0 && b > 0 {
      assert 2 * x % 2 == 0 && 2 * x / 2 == x;
    }
  }

  /** Or-ing low bits into a word leaves the bits from j upwards alone. */
  lemma {:induction false} OrLow(a: nat, j: nat, x: nat, y: nat)
    requires x < Pow2(j) && y < Pow2(j)
    ensures Or(a * Pow2(j) + x, y) == a * Pow2(j) + Or(x, y)
  {
    hide Or;
    if j > 0 {
      OrLow(a, j - 1, x / 2, y / 2);
      DoubleProduct(a, Pow2(j - 1));
      OrLowStep(a * Pow2(j - 1), x, y);
    } else {
      OrZero(a);
      OrZero(0);
    }
  }

  lemma OrZero(x: nat)
    ensures Or(x, 0) == x
  {
  }

  lemma OrLowStep(h: nat, x: nat, y: nat)
    requires Or(h + x / 2, y / 2) == h + Or(x / 2, y / 2)
    ensures Or(2 * h + x, y) == 2 * h + Or(x, y)
  {
    hide *;
    OrHalves(2 * h + x, y);
    OrHalves(x, y);
    assert (2 * h + x) / 2 == h + x / 2;
  }

  lemma OrHalves(x: nat, y: nat)
    ensures Or(x, y) == (if x % 2 == 1 || y % 2 == 1 then 1 else 0) + 2 * Or(x / 2, y / 2)
  {
  }

  /** Xor with all ones complements. */
  lemma {:induction false} XorOnes(x: nat, k: nat)
    requires x < Pow2(k)
    ensures Xor(x, Pow2(k) - 1) == Pow2(k) - 1 - x
  {
    if k > 0 {
      XorOnes(x / 2, k - 1);
      XorOdd(x, Pow2(k - 1) - 1);
    }
  }

  lemma XorOdd(x: nat, m: nat)
    ensures Xor(x, 2 * m + 1) == 1 - x % 2 + 2 * Xor(x / 2, m)
  {
    var y := 2 * m + 1;
    assert y % 2 == 1 && y / 2 == m;
    XorHalves(x, y);
  }

  lemma XorHalves(x: nat, y: nat)
    ensures Xor(x, y) == (if x % 2 != y % 2 then 1 else 0) + 2 * Xor(x / 2, y / 2)
  {
  }

  /** x & (x - 1) is zero exactly for powers of two. */
  lemma {:induction false} AndPredZero(x: nat)
    requires x > 0
    ensures And(x, x - 1) == 0 <==> IsPow2(x)
  {
    if x == 1 {
      assert x == Pow2(0);
    } else {
      var h := x / 2;
      hide And, IsPow2;
      HalfPow2(x, h);
      if x % 2 == 0 {
        AndPredEven(h);
        AndPredZero(h);
      } else {
        AndPredOdd(h);
      }
    }
  }

  predicate IsPow2(x: nat)
  {
    exists k: nat {:trigger Pow2(k)} :: k <= x && x == Pow2(k)
  }

  lemma {:induction false} Pow2Above(k: nat)
    ensures k < Pow2(k)
  {
    if k > 0 { Pow2Above(k - 1); }
  }

  lemma HalfPow2(x: nat, h: nat)
    requires x >= 2 && h == x / 2
    ensures IsPow2(x) <==> x % 2 == 0 && IsPow2(h)
  {
    if IsPow2(x) {
      var k: nat :| k <= x && x == Pow2(k);
      var j: nat := k - 1;
      assert Pow2(k) == 2 * Pow2(j);
      Pow2Above(j);
    }
    if x % 2 == 0 && IsPow2(h) {
      var j: nat :| j <= h && h == Pow2(j);
      assert Pow2(j + 1) == 2 * Pow2(j);
    }
  }

  lemma AndPredEven(h: nat)
    requires h > 0
    ensures And(2 * h, 2 * h - 1) == 2 * And(h, h - 1)
  {
    var y := 2 * h - 1;
    assert y == 2 * (h - 1) + 1 && y / 2 == h - 1;
    assert 2 * h % 2 == 0 && 2 * h / 2 == h;
  }

  lemma AndPredOdd(h: nat)
    requires h > 0
    ensures And(2 * h + 1, 2 * h) == 2 * h
  {
    AndSelf(h);
    assert (2 * h + 1) / 2 == h && 2 * h / 2 == h;
  }

  lemma {:induction false} AndSelf(x: nat)
    ensures And(x, x) == x
  {
    if x > 0 {
      AndSelf(x / 2);
    }
  }
}
