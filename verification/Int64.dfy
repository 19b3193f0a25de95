/**
 64-bit division built from 32-bit words (abstract-machine/klib/src/int64.c).

 Machine words are integers with an explicit range; every shift has the legality condition of C
 (a count below the width) as a precondition, and wrap-around is written out with `%`.
 */
module Int64 {
  import opened Bits
  import opened Common

  const W: int := 0x1_0000_0000
  const DW: int := 0x1_0000_0000_0000_0000
  const TOP: int := 0x8000_0000_0000_0000

  type I64 = x: int | -0x8000_0000_0000_0000 <= x < 0x8000_0000_0000_0000

  function Shl32(x: U32, k: nat): U32
    requires k < 32
  {
    x * Pow2(k) % W
  }

  lemma ShrRange(x: nat, k: nat)
    ensures 0 <= x / Pow2(k) <= x
  {
    DivRange(x, Pow2(k));
  }

  lemma DivRange(x: nat, d: nat)
    requires d > 0
    ensures 0 <= x / d <= x
  {
    DivGeq(x, d, 0);
    MulMono(1, d, x);
    assert (x + 1) * d == x * d + d;
    assert d * x == x * d;
    DivLess(x, d, x + 1);
  }

  function Shr32(x: U32, k: nat): U32
    requires k < 32
  {
    ShrRange(x, k);
    x / Pow2(k)
  }

  // ---------------------------------------------------------------- counting zeros

  /** Leading zeros of a word of the given width, counted from the top one bit at a time. */
  function LeadingZeros(x: nat, width: nat): (c: nat)
    requires x < Pow2(width)
    ensures c <= width
    ensures x > 0 ==> c < width && Pow2(width - 1 - c) <= x < Pow2(width - c)
  {
    if width == 0 || x >= Pow2(width - 1) then 0 else 1 + LeadingZeros(x, width - 1)
  }

  /** Trailing zeros, counted from the bottom one bit at a time. */
  function TrailingZeros(x: nat): (c: nat)
    requires x > 0
    ensures x % Pow2(c) == 0 && x / Pow2(c) % 2 == 1
  {
    if x % 2 == 1 then
      0
    else
      var c := TrailingZeros(x / 2);
      assert x % Pow2(c + 1) == 0 && x / Pow2(c + 1) == x / 2 / Pow2(c) by {
        LowBitSplit(x, Pow2(c));
        DivDiv(x, 2, Pow2(c));
      }
      c + 1
  }

  /** The interval determines the count, so the two bounds are a full specification of clz. */
  lemma {:induction false} LeadingZerosUnique(x: nat, width: nat, c: nat)
    requires c < width && Pow2(width - 1 - c) <= x < Pow2(width - c)
    ensures x < Pow2(width) && LeadingZeros(x, width) == c
  {
    Pow2Mono(width - c, width);
    var l := LeadingZeros(x, width);
    if l < c {
      Pow2Mono(width - c, width - 1 - l);
    } else if c < l {
      Pow2Mono(width - l, width - 1 - c);
    }
  }

  /** 2^t divides x and no larger power does. */
  lemma TrailingZerosMaximal(x: nat, k: nat)
    requires x > 0
    ensures x % Pow2(k) == 0 <==> k <= TrailingZeros(x)
  {
    var t := TrailingZeros(x);
    hide TrailingZeros, Pow2;
    if k <= t {
      Pow2Add(t - k, k);
      MultipleOfFactor(x, Pow2(t - k), Pow2(k));
    } else {
      Pow2Add(k - t - 1, t + 1);
      Pow2Add(t, 1);
      Pow2Values();
      NotMultiple(x, Pow2(t), Pow2(k - t - 1), Pow2(k));
    }
  }

  lemma NotMultiple(x: nat, p: nat, a: nat, m: nat)
    requires p > 0 && a > 0 && m == a * (p * 2) && x / p % 2 == 1
    ensures m > 0 && x % m != 0
  {
    MulMono(1, a, p * 2);
    if x % m == 0 {
      MultipleOfFactor(x, a, p * 2);
      EvenQuotient(x, p);
    }
  }

  lemma MulAssoc(a: int, b: int, c: int)
    ensures a * b * c == a * (b * c)
  {
  }

  lemma MultipleOfFactor(x: nat, a: nat, b: nat)
    requires a > 0 && b > 0 && a * b > 0 && x % (a * b) == 0
    ensures x % b == 0
  {
    var y := x / (a * b);
    DivRem(x, a * b);
    MulAssoc(y, a, b);
    DivUnique(x, b, y * a, 0);
  }

  lemma EvenQuotient(x: nat, p: nat)
    requires p > 0 && x % (2 * p) == 0
    ensures x / p % 2 == 0
  {
    var y := x / (2 * p);
    DivRem(x, 2 * p);
    MulAssoc(y, 2, p);
    DivUnique(x, p, 2 * y, 0);
  }

  /** One stage of `__clzsi2`: halve the window, adding h when its upper half is empty. */
  lemma ClzStage(x: nat, h: nat, t: nat)
    requires 0 < x < Pow2(2 * h)
    requires t == if And(x, (Pow2(h) - 1) * Pow2(h)) == 0 then h else 0
    ensures 0 < x / Pow2(h - t) < Pow2(h)
    ensures LeadingZeros(x, 2 * h) == t + LeadingZeros(x / Pow2(h - t), h)
  {
    hide And, LeadingZeros;
    UpperHalf(x, h);
    if x < Pow2(h) {
      ClzLower(x, h);
      DivOne(x);
    } else {
      ClzUpper(x, h);
    }
  }

  lemma ClzLower(x: nat, h: nat)
    requires 0 < x < Pow2(h)
    ensures x < Pow2(2 * h) && LeadingZeros(x, 2 * h) == h + LeadingZeros(x, h)
  {
    hide LeadingZeros, Pow2;
    Pow2Mono(h, 2 * h);
    var c := LeadingZeros(x, h);
    LeadingZerosUnique(x, 2 * h, h + c);
  }

  lemma ClzUpper(x: nat, h: nat)
    requires Pow2(h) <= x < Pow2(2 * h) && 0 < x / Pow2(h) < Pow2(h)
    ensures LeadingZeros(x, 2 * h) == LeadingZeros(x / Pow2(h), h)
  {
    hide LeadingZeros, Pow2;
    var y := x / Pow2(h);
    var c := LeadingZeros(y, h);
    Pow2Add(h - 1 - c, h);
    Pow2Add(h - c, h);
    ScaleBounds(x, Pow2(h), Pow2(h - 1 - c), Pow2(h - c));
    LeadingZerosUnique(x, 2 * h, c);
  }

  lemma ScaleBounds(x: nat, p: nat, lo: nat, hi: nat)
    requires p > 0 && lo <= x / p < hi
    ensures lo * p <= x < hi * p
  {
    DivRem(x, p);
    MulMono(lo, x / p, p);
    MulMono(x / p + 1, hi, p);
    assert (x / p + 1) * p == x / p * p + p;
  }

  /** The stage mask selects the upper half of a 2h-bit window. */
  lemma UpperHalf(x: nat, h: nat)
    requires x < Pow2(2 * h)
    ensures And(x, (Pow2(h) - 1) * Pow2(h)) == 0 <==> x < Pow2(h)
    ensures x >= Pow2(h) ==> 0 < x / Pow2(h) < Pow2(h)
  {
    Pow2Add(h, h);
    AndMask(x, h, h);
    SquareWindow(x, Pow2(h));
  }

  lemma SquareWindow(x: nat, p: nat)
    requires 0 < p && x < p * p
    ensures 0 <= x / p < p
    ensures x / p % p * p == 0 <==> x < p
    ensures x >= p ==> 0 < x / p
  {
    DivLess(x, p, p);
    DivGeq(x, p, 0);
    var y := x / p;
    DivUnique(y, p, 0, y);
    if x < p {
      DivUnique(x, p, 0, x);
    } else {
      DivGeq(x, p, 1);
      MulMono(1, y, p);
    }
  }

  /** The stage masks of `__clzsi2`, as written in the source. */
  lemma ClzMasks()
    ensures (Pow2(16) - 1) * Pow2(16) == 0xFFFF_0000 && (Pow2(8) - 1) * Pow2(8) == 0xFF00
    ensures (Pow2(4) - 1) * Pow2(4) == 0xF0 && (Pow2(2) - 1) * Pow2(2) == 0xC
  {
    Pow2Values();
  }

  /** What the stages keep: the count so far plus the zeros left in the h-bit window. */
  ghost predicate ClzInv(a: U32, x: nat, r: nat, h: nat)
  {
    && a < Pow2(32)
    && 0 < x < Pow2(h)
    && LeadingZeros(a, 32) == r + LeadingZeros(x, h)
  }

  /** The repeated stage of `__clzsi2` on a window of 2h bits. */
  method ClzHalve(ghost a: U32, x: U32, r: nat, h: nat, mask: nat) returns (x': U32, r': nat)
    requires h < 32 && mask == (Pow2(h) - 1) * Pow2(h)
    requires ClzInv(a, x, r, 2 * h)
    ensures ClzInv(a, x', r', h)
  {
    var t := if And(x, mask) == 0 then h else 0;
    ClzStage(x, h, t);
    x' := Shr32(x, h - t);
    r' := r + t;
  }

  /** `__clzsi2`. */
  method Clz(a: U32) returns (n: U32)
    requires a != 0
    ensures n < 32 && Pow2(31 - n) <= a < Pow2(32 - n)
    ensures a < Pow2(32) && n == LeadingZeros(a, 32)
  {
    hide And, Pow2, LeadingZeros;
    Pow2Values();
    ClzMasks();
    var x, r := ClzHalve(a, a, 0, 16, 0xFFFF_0000);
    x, r := ClzHalve(a, x, r, 8, 0xFF00);
    x, r := ClzHalve(a, x, r, 4, 0xF0);
    x, r := ClzHalve(a, x, r, 2, 0xC);
    LastClzStage(x);
    var mask := if And(x, 2) == 0 then W - 1 else 0;
    n := r + And((2 - x as int) % W, mask);
  }

  lemma LastClzStage(x: nat)
    requires 0 < x < 4
    ensures And((2 - x) % W, if And(x, 2) == 0 then W - 1 else 0) == LeadingZeros(x, 2)
  {
    Pow2Values();
    if x == 1 {
      assert And(1, 2) == 0;
      AndLow(1, 32);
      assert LeadingZeros(1, 2) == 1 by { LeadingZerosUnique(1, 2, 1); }
    } else {
      assert And(x, 2) == 2 by { AndMask(x, 1, 1); }
    }
  }

  /** One stage of `__ctzsi2`: skip h bits when the low half of the window is empty. */
  lemma CtzStage(x: nat, h: nat, t: nat)
    requires x % Pow2(2 * h) != 0
    requires t == if And(x, Pow2(h) - 1) == 0 then h else 0
    ensures x > 0 && x / Pow2(t) > 0 && x / Pow2(t) % Pow2(h) != 0
    ensures TrailingZeros(x) == t + TrailingZeros(x / Pow2(t))
  {
    AndLow(x, h);
    if x % Pow2(h) == 0 {
      CtzSkip(x, h);
    } else {
      NonZero(x, Pow2(h));
      DivOne(x);
    }
  }

  lemma CtzSkip(x: nat, h: nat)
    requires x % Pow2(2 * h) != 0 && x % Pow2(h) == 0
    ensures x > 0 && x / Pow2(h) > 0 && x / Pow2(h) % Pow2(h) != 0
    ensures TrailingZeros(x) == h + TrailingZeros(x / Pow2(h))
  {
    assert x > 0 && x / Pow2(h) % Pow2(h) != 0 by {
      Pow2Add(h, h);
      SquareLow(x, Pow2(h), Pow2(2 * h));
    }
    TrailingZerosShift(x, h);
  }

  lemma DivOne(x: nat)
    ensures x / Pow2(0) == x
  {
    DivUnique(x, 1, x, 0);
  }

  lemma NonZero(x: nat, p: nat)
    requires p > 0 && x % p != 0
    ensures x > 0
  {
    DivUnique(0, p, 0, 0);
  }

  lemma TrailingZerosBound(x: nat, w: nat)
    requires 0 < x < Pow2(w)
    ensures TrailingZeros(x) < w
  {
    var c := TrailingZeros(x);
    if c >= w {
      Pow2Mono(w, c);
      DivUnique(x, Pow2(c), 0, x);
    }
  }

  lemma SquareLow(x: nat, p: nat, s: nat)
    requires p > 0 && s > 0 && s == p * p && x % p == 0 && x % s != 0
    ensures x / p % p != 0 && x > 0
  {
    DivRem(x, p);
    var y := x / p;
    if y % p == 0 {
      DivRem(y, p);
      MulAssoc(y / p, p, p);
      DivUnique(x, s, y / p, 0);
    }
  }

  lemma {:induction false} TrailingZerosShift(x: nat, h: nat)
    requires x > 0 && x % Pow2(h) == 0
    ensures x / Pow2(h) > 0 && TrailingZeros(x) == h + TrailingZeros(x / Pow2(h))
  {
    if h > 0 {
      LowBitSplit(x, Pow2(h - 1));
      DivDiv(x, 2, Pow2(h - 1));
      TrailingZerosShift(x / 2, h - 1);
    }
  }

  /** What the stages keep: the skipped bits were zero and the h-bit window is not. */
  ghost predicate CtzInv(a: U32, x: nat, r: nat, h: nat)
  {
    && a > 0
    && x > 0
    && x % Pow2(h) != 0
    && TrailingZeros(a) == r + TrailingZeros(x)
  }

  /** The repeated stage of `__ctzsi2` on a window of 2h bits. */
  method CtzHalve(ghost a: U32, x: U32, r: nat, h: nat, mask: nat) returns (x': U32, r': nat)
    requires h < 32 && mask == Pow2(h) - 1
    requires CtzInv(a, x, r, 2 * h)
    ensures CtzInv(a, x', r', h)
  {
    var t := if And(x, mask) == 0 then h else 0;
    CtzStage(x, h, t);
    x' := Shr32(x, t);
    r' := r + t;
  }

  /** `__ctzsi2`. */
  method Ctz(a: U32) returns (n: U32)
    requires a != 0
    ensures n < 32 && n == TrailingZeros(a)
    ensures a % Pow2(n) == 0 && a / Pow2(n) % 2 == 1
  {
    Pow2Values();
    var x, r := CtzHalve(a, a, 0, 16, 0x0000_FFFF);
    x, r := CtzHalve(a, x, r, 8, 0x00FF);
    x, r := CtzHalve(a, x, r, 4, 0x0F);
    x, r := CtzHalve(a, x, r, 2, 0x3);
    LastCtzStage(x);
    TrailingZerosBound(a, 32);
    x := And(x, 3);
    var mask := if And(x, 1) == 0 then W - 1 else 0;
    n := r + And((2 - x / 2) % W, mask);
  }

  lemma LastCtzStage(y: nat)
    requires y % 4 != 0
    ensures y > 0 && TrailingZeros(y) < 2
    ensures var x := And(y, 3);
            And((2 - x / 2) % W, if And(x, 1) == 0 then W - 1 else 0) == TrailingZeros(y)
  {
    hide TrailingZeros, And;
    CtzByRest(y);
    LastCtzMasks(y);
    var x := y % 4;
    assert x == 2 ==> (2 - x / 2) % W == 1;
    assert x != 2 ==> x % 2 == 1;
    assert And((2 - x / 2) % W, 0) == 0 by { AndZero((2 - x / 2) % W); }
  }

  lemma LastCtzMasks(y: nat)
    ensures And(y, 3) == y % 4 && And(y % 4, 1) == y % 4 % 2 && And(1, W - 1) == 1
  {
    Pow2Values();
    hide And, Pow2;
    AndLow(y, 2);
    AndLow(y % 4, 1);
    AndLow(1, 32);
  }

  lemma AndZero(x: nat)
    ensures And(x, 0) == 0
  {
  }

  lemma CtzByRest(y: nat)
    requires y % 4 != 0
    ensures y > 0 && TrailingZeros(y) == if y % 4 == 2 then 1 else 0
  {
    hide TrailingZeros, Pow2;
    ModFour(y, y / 2);
    CtzUnfoldTwice(y, y / 2);
  }

  lemma ModFour(y: nat, h: nat)
    requires y % 4 != 0 && h == y / 2
    ensures if y % 4 == 2 then y == 2 * h && h % 2 == 1 else y % 2 == 1
  {
    var q := y / 4;
    assert y == 4 * q + y % 4;
    assert y % 4 == 2 ==> h == 2 * q + 1;
  }

  lemma CtzUnfoldTwice(y: nat, h: nat)
    requires y > 0 && h == y / 2
    ensures y % 2 == 1 ==> TrailingZeros(y) == 0
    ensures y == 2 * h && h % 2 == 1 ==> TrailingZeros(y) == 1
  {
    hide TrailingZeros, Pow2;
    CtzUnfold(y);
    if h > 0 { CtzUnfold(h); }
  }

  lemma CtzUnfold(x: nat)
    requires x > 0
    ensures x % 2 == 1 ==> TrailingZeros(x) == 0
    ensures x % 2 == 0 ==> x / 2 > 0 && TrailingZeros(x) == 1 + TrailingZeros(x / 2)
  {
  }

  // ---------------------------------------------------------------- unsigned division

  /** The union `udwords` read as one 64-bit word. */
  function All(high: U32, low: U32): U64
  {
    high * W + low
  }

  /** sr aligns the leading bit of d with that of n: n >> (sr - 1) has the bit length of d. */
  ghost predicate Aligned(n: U64, d: U64, sr: nat, m: nat)
  {
    && 1 <= sr <= 63
    && Pow2(m) <= d < 2 * Pow2(m)
    && Pow2(m) <= n / Pow2(sr - 1) < 2 * Pow2(m)
  }

  /** One bit more of a quotient by a power of two, and of the matching remainder. */
  lemma ShiftOneLess(n: nat, k: nat)
    requires k > 0
    ensures n / Pow2(k - 1) == 2 * (n / Pow2(k)) + n / Pow2(k - 1) % 2
    ensures n % Pow2(k) == n / Pow2(k - 1) % 2 * Pow2(k - 1) + n % Pow2(k - 1)
  {
    var p := Pow2(k - 1);
    DivDiv(n, p, 2);
    assert n / p / 2 == n / Pow2(k);
    DivRem(n, p);
    var a, b := n / p / 2, n / p % 2;
    assert (2 * a + b) * p == a * (2 * p) + b * p by { DoubleProduct(a, p); }
    MulMono(b, 1, p);
    MulMono(0, b, p);
    DivUnique(n, 2 * p, a, b * p + n % p);
  }

  /** Shifting a word left by one and or-ing in a bit, with the bit that falls out on the left. */
  lemma ShlOne(x: U32, b: nat)
    requires b <= 1
    ensures Shr32(x, 31) <= 1
    ensures 2 * x + b == Shr32(x, 31) * W + Or(Shl32(x, 1), b)
    ensures 0 <= Or(Shl32(x, 1), b) < W
  {
    hide Pow2, Or;
    assert Pow2(31) == 0x8000_0000 && Pow2(1) == 2 by { Pow2Values(); }
    var top, low := x / 0x8000_0000, x % 0x8000_0000;
    assert x == top * 0x8000_0000 + low && 0 <= top <= 1;
    DivUnique(x * 2, W, top, 2 * low);
    OrDisjoint(low, 1, b);
  }

  /** The state of the shift-subtract loop with k rounds to go; `bits` are the quotient bits already in q. */
  ghost predicate LoopInv(n: U64, d: U64, sr: nat, k: nat, q: U64, r: U64, carry: nat, bits: nat)
  {
    && 0 <= k <= sr <= 63
    && carry <= 1
    && r < d
    && 2 * bits + carry < Pow2(sr - k)
    && n / Pow2(k) == (2 * bits + carry) * d + r
    && q == n % Pow2(k) * Pow2(64 - k) + bits
  }

  /** The top bit of q is the next bit of n, and doubling q keeps its shape. */
  lemma ShiftQuotient(n: U64, k: nat, q: U64, bits: nat, carry: nat)
    requires 1 <= k <= 63 && carry <= 1
    requires 2 * bits + carry < Pow2(64 - k)
    requires q == n % Pow2(k) * Pow2(64 - k) + bits
    ensures q / TOP == n / Pow2(k - 1) % 2
    ensures 2 * q + carry == q / TOP * DW + (n % Pow2(k - 1) * Pow2(65 - k) + (2 * bits + carry))
    ensures n % Pow2(k - 1) * Pow2(65 - k) + (2 * bits + carry) < DW
  {
    var p, s := Pow2(k - 1), Pow2(64 - k);
    assert Pow2(65 - k) == 2 * s && Pow2(k) == 2 * p;
    hide Pow2;
    ShiftOneLess(n, k);
    assert p * s == TOP by {
      Pow2Add(k - 1, 64 - k);
      Pow2Values();
    }
    QuotientShift(n % Pow2(k), n / p % 2, n % p, p, s, bits, carry, q);
  }

  lemma QuotientShift(m: nat, b: nat, low: nat, p: nat, s: nat, bits: nat, carry: nat, q: nat)
    requires p * s == TOP && low < p && 2 * bits + carry < s && carry <= 1
    requires m == b * p + low && q == m * s + bits
    ensures q / TOP == b
    ensures 2 * q + carry == b * DW + (low * (2 * s) + (2 * bits + carry))
    ensures low * (2 * s) + (2 * bits + carry) < DW
  {
    TopBit(b, low, p, s, bits);
    DoubleProduct(low, s);
  }

  lemma TopBit(b: nat, low: nat, p: nat, s: nat, bits: nat)
    requires p * s == TOP && low < p && bits < s
    ensures (b * p + low) * s + bits == b * TOP + (low * s + bits)
    ensures 0 <= low * s + bits < TOP
    ensures ((b * p + low) * s + bits) / TOP == b
  {
    assert (b * p + low) * s == b * (p * s) + low * s by {
      MulAssoc(b, p, s);
    }
    MulMono(low, p - 1, s);
    assert (p - 1) * s == TOP - s;
    MulMono(0, low, s);
    DivUnique(b * TOP + (low * s + bits), TOP, b, low * s + bits);
  }

  /** The sign of d - r - 1, taken from the wrapped 64-bit word, tells whether r >= d. */
  lemma CompareMask(d: U64, r: U64)
    requires 0 < d && r < 2 * d
    requires d > TOP ==> r >= TOP
    ensures (d - r - 1) % DW >= TOP <==> r >= d
  {
    if r >= d {
      assert (d - r - 1) % DW == d - r - 1 + DW;
    } else {
      assert (d - r - 1) % DW == d - r - 1;
    }
  }

  /** The branch-free compare and subtract of the loop body. */
  method CompareSubtract(d: U64, r: U64) returns (carry: U32, r': U64)
    requires 0 < d && r < 2 * d
    requires d > TOP ==> r >= TOP
    ensures carry == (if r >= d then 1 else 0) && r' == r - carry * d
  {
    CompareMask(d, r);
    MaskFacts(d);
    hide And;
    var s: U64 := if (d - r - 1) % DW >= TOP then DW - 1 else 0;
    carry := And(s, 1);
    SmallModulo(if r >= d then r - d else r);
    r' := (r - And(d, s)) % DW;
  }

  lemma SmallModulo(x: int)
    requires 0 <= x < DW
    ensures x % DW == x
  {
  }

  lemma MaskFacts(d: U64)
    ensures And(d, DW - 1) == d && And(d, 0) == 0
    ensures And(DW - 1, 1) == 1 && And(0, 1) == 0
  {
    assert And(d, 0) == 0 && And(0, 1) == 0;
    hide *;
    Pow2Values();
    AndLow(d, 64);
    AndLow(DW - 1, 1);
    DivUnique(d, DW, 0, d);
  }

  /** `r:q = ((r:q) << 1) | carry`, word by word. */
  method ShiftWords(qh: U32, ql: U32, rh: U32, rl: U32, carry: U32)
    returns (qh': U32, ql': U32, rh': U32, rl': U32)
    requires carry <= 1
    ensures 2 * All(qh, ql) + carry == Shr32(qh, 31) * DW + All(qh', ql')
    ensures 2 * All(rh, rl) + Shr32(qh, 31) == Shr32(rh, 31) * DW + All(rh', rl')
  {
    ShlOne(rl, 0);
    ShlOne(qh, 0);
    ShlOne(ql, 0);
    ShlOne(rh, Shr32(rl, 31));
    rh' := Or(Shl32(rh, 1), Shr32(rl, 31));
    ShlOne(rl, Shr32(qh, 31));
    rl' := Or(Shl32(rl, 1), Shr32(qh, 31));
    ShlOne(qh, Shr32(ql, 31));
    qh' := Or(Shl32(qh, 1), Shr32(ql, 31));
    ShlOne(ql, carry);
    ql' := Or(Shl32(ql, 1), carry);
  }

  /** One round: shift r:q left by one, shifting in the previous carry, then compare and subtract. */
  method DivRound(d: U64, qh: U32, ql: U32, rh: U32, rl: U32, carry: U32,
                  ghost n: U64, ghost sr: nat, ghost m: nat, ghost k: nat, ghost bits: nat)
    returns (qh': U32, ql': U32, rh': U32, rl': U32, carry': U32)
    requires Aligned(n, d, sr, m) && 1 <= k
    requires LoopInv(n, d, sr, k, All(qh, ql), All(rh, rl), carry, bits)
    ensures LoopInv(n, d, sr, k - 1, All(qh', ql'), All(rh', rl'), carry', 2 * bits + carry)
  {
    qh', ql', rh', rl' := ShiftWords(qh, ql, rh, rl, carry);
    ghost var r := All(rh', rl');
    RoundShifts(n, d, sr, m, k, All(qh, ql), All(rh, rl), carry, bits,
                Shr32(qh, 31), Shr32(rh, 31), All(qh', ql'), All(rh', rl'));
    var rest;
    carry', rest := CompareSubtract(d, All(rh', rl'));
    RoundDone(n, d, sr, k, 2 * bits + carry, All(qh', ql'), r, carry');
    rh', rl' := rest / W, rest % W;
  }

  /** The word-wise shift of r:q, against the invariant. */
  lemma RoundShifts(n: U64, d: U64, sr: nat, m: nat, k: nat, q: U64, r: U64, carry: nat, bits: nat,
                    bq: nat, br: nat, q': U64, r': U64)
    requires Aligned(n, d, sr, m) && 1 <= k && LoopInv(n, d, sr, k, q, r, carry, bits)
    requires 2 * q + carry == bq * DW + q' && 2 * r + bq == br * DW + r'
    ensures q' == n % Pow2(k - 1) * Pow2(65 - k) + (2 * bits + carry)
    ensures n / Pow2(k - 1) == 2 * (2 * bits + carry) * d + r'
    ensures r' < 2 * d && (d > TOP ==> r' >= TOP)
  {
    assert 2 * bits + carry < Pow2(64 - k) by { Pow2Mono(sr - k, 64 - k); }
    ShiftQuotient(n, k, q, bits, carry);
    assert bq == q / TOP;
    var b := 2 * bits + carry;
    ShiftOneLess(n, k);
    assert n / Pow2(k - 1) == 2 * (b * d) + (2 * r + bq);
    assert 0 <= n / Pow2(k - 1) <= n by { ShrRange(n, k - 1); }
    assert b * d >= 0 by { MulMono(0, b, d); }
    assert br == 0;
    assert 2 * b * d == 2 * (b * d) by { MulAssoc(2, b, d); }
    if d > TOP {
      WideDivisor(n, d, sr, m);
      assert k == 1 && bits == 0 && carry == 0 by { assert Pow2(0) == 1; }
      DivOne(n);
    }
  }

  /** A divisor above 2^63 leaves a single round, and then n is as long as d. */
  lemma WideDivisor(n: U64, d: U64, sr: nat, m: nat)
    requires Aligned(n, d, sr, m) && d > TOP
    ensures sr == 1 && n >= TOP
  {
    Pow2Values();
    if m < 63 {
      Pow2Mono(m + 1, 63);
    } else if m > 63 {
      Pow2Mono(64, m);
    }
    if sr > 1 {
      DivDiv(n, 2, Pow2(sr - 2));
      ShrRange(n / 2, sr - 2);
    } else {
      DivOne(n);
    }
  }

  lemma RoundDone(n: U64, d: U64, sr: nat, k: nat, bits: nat, q: U64, r: U64, carry: nat)
    requires 1 <= k <= sr <= 63 && bits < Pow2(sr - k)
    requires n / Pow2(k - 1) == 2 * bits * d + r && r < 2 * d
    requires q == n % Pow2(k - 1) * Pow2(65 - k) + bits
    requires carry == if r >= d then 1 else 0
    ensures LoopInv(n, d, sr, k - 1, q, r - carry * d, carry, bits)
  {
    assert (2 * bits + carry) * d == 2 * bits * d + carry * d;
  }

  /** The loop and the last shift, from any aligned start q = n << (64 - sr), r = n >> sr. */
  method DivLoop(n: U64, d: U64, qh0: U32, ql0: U32, rh0: U32, rl0: U32, sr0: nat, ghost m: nat)
    returns (q: U64, rem: U64)
    requires Aligned(n, d, sr0, m)
    requires All(rh0, rl0) == n / Pow2(sr0)
    requires All(qh0, ql0) == n % Pow2(sr0) * Pow2(64 - sr0)
    ensures q == n / d && rem == n % d
  {
    var qh, ql, rh, rl := qh0, ql0, rh0, rl0;
    var carry: U32, sr: nat := 0, sr0;
    ghost var bits: nat := 0;
    LoopStart(n, d, sr0, m, All(qh, ql), All(rh, rl));
    while sr > 0
      invariant LoopInv(n, d, sr0, sr, All(qh, ql), All(rh, rl), carry, bits)
    {
      ghost var next: nat := 2 * bits + carry;
      qh, ql, rh, rl, carry := DivRound(d, qh, ql, rh, rl, carry, n, sr0, m, sr, bits);
      bits := next;
      sr := sr - 1;
    }
    LoopEnd(n, d, sr0, All(qh, ql), All(rh, rl), carry, bits);
    LastShift(All(qh, ql), carry);
    q := Or(2 * All(qh, ql) % DW, carry);
    rem := All(rh, rl);
  }

  lemma LoopStart(n: U64, d: U64, sr: nat, m: nat, q: U64, r: U64)
    requires Aligned(n, d, sr, m)
    requires r == n / Pow2(sr) && q == n % Pow2(sr) * Pow2(64 - sr)
    ensures LoopInv(n, d, sr, sr, q, r, 0, 0)
  {
    DivDiv(n, Pow2(sr - 1), 2);
    assert Pow2(0) == 1;
    assert 0 * d == 0;
  }

  lemma LoopEnd(n: U64, d: U64, sr: nat, q: U64, r: U64, carry: nat, bits: nat)
    requires LoopInv(n, d, sr, 0, q, r, carry, bits)
    ensures carry <= 1 && 2 * q + carry == n / d && r == n % d
    ensures 2 * q + carry < DW
  {
    DivOne(n);
    assert n % Pow2(0) == 0 by { DivUnique(n, 1, n, 0); }
    var full := 2 * bits + carry;
    DivUnique(n, d, full, r);
    DivRange(n, d);
  }

  lemma LastShift(q: U64, carry: nat)
    requires carry <= 1 && 2 * q + carry < DW
    ensures Or(2 * q % DW, carry) == 2 * q + carry
  {
    assert Pow2(1) == 2;
    hide Or, Pow2;
    SmallModulo(2 * q);
    OrDisjoint(q, 1, carry);
  }

  /** Bit lengths bn >= bd of n and d give the shift bn - bd + 1. */
  lemma AlignedBy(n: U64, d: U64, bn: nat, bd: nat, sr: nat)
    requires Pow2(bn) <= n < 2 * Pow2(bn) && Pow2(bd) <= d < 2 * Pow2(bd)
    requires bd <= bn <= bd + 62 && sr == bn - bd + 1
    ensures Aligned(n, d, sr, bd)
  {
    hide Pow2;
    var p := Pow2(bn - bd);
    assert Pow2(bd) * p == Pow2(bn) by { Pow2Add(bd, bn - bd); }
    DivGeq(n, p, Pow2(bd));
    assert 2 * Pow2(bd) * p == 2 * Pow2(bn) by { MulAssoc(2, Pow2(bd), p); }
    DivLess(n, p, 2 * Pow2(bd));
  }

  lemma ShorterIsLess(n: nat, d: nat, bn: nat, bd: nat)
    requires n < 2 * Pow2(bn) && Pow2(bd) <= d && bn < bd
    ensures n < d
  {
    Pow2Mono(bn + 1, bd);
  }

  /** The bit length of a double word with a nonzero high word. */
  lemma HighLength(high: U32, low: U32, c: nat)
    requires c < 32 && Pow2(31 - c) <= high < Pow2(32 - c)
    ensures Pow2(63 - c) <= All(high, low) < 2 * Pow2(63 - c)
  {
    Pow2Values();
    Pow2Add(31 - c, 32);
    Pow2Add(32 - c, 32);
    MulMono(Pow2(31 - c), high, W);
    MulMono(high + 1, Pow2(32 - c), W);
  }

  /** n >> s and n << (64 - s) in 32-bit pieces, for a shift below the word width. */
  lemma SplitBelow(nh: U32, nl: U32, s: nat)
    requires 1 <= s <= 31
    ensures var rl := Or(Shl32(nh, 32 - s), Shr32(nl, s));
            rl < W && All(Shr32(nh, s), rl) == All(nh, nl) / Pow2(s)
    ensures All(Shl32(nl, 32 - s), 0) == All(nh, nl) % Pow2(s) * Pow2(64 - s)
    ensures All(nh, nl) % Pow2(s) == nl % Pow2(s)
  {
    var p, c := Pow2(s), Pow2(32 - s);
    assert p * c == W && c * W == Pow2(64 - s) by {
      Pow2Add(s, 32 - s);
      Pow2Add(32 - s, 32);
      Pow2Values();
    }
    HighPart(nh, p, c);
    HighPart(nl, p, c);
    PiecesBelow(nh, nl, p, c);
    OrDisjoint(nh % p, 32 - s, nl / p);
  }

  lemma PiecesBelow(nh: U32, nl: U32, p: nat, c: nat)
    requires p > 0 && p * c == W
    ensures 0 <= nl / p < c && nh % p * c + nl / p < W
    ensures nh / p * W + (nh % p * c + nl / p) == All(nh, nl) / p
    ensures nl % p * c * W == All(nh, nl) % p * (c * W)
    ensures All(nh, nl) % p == nl % p
  {
    DivRem(nh, p);
    DivRem(nl, p);
    DivLess(nl, p, c);
    DivGeq(nl, p, 0);
    var a, b, e, f := nh / p, nh % p, nl / p, nl % p;
    LowProduct(b, p, c, e);
    Regroup(a, b, e, f, p, c);
    DivUnique(All(nh, nl), p, a * W + (b * c + e), f);
    MulAssoc(f, c, W);
  }

  /** x << (32 - s) keeps the low s bits of x. */
  lemma HighPart(x: nat, p: nat, c: nat)
    requires 0 < p && 0 < c && p * c == W
    ensures x * c % W == x % p * c
  {
    DivRem(x, p);
    var a, b := x / p, x % p;
    assert x * c == a * W + b * c by {
      assert (a * p + b) * c == a * p * c + b * c;
      MulAssoc(a, p, c);
    }
    LowProduct(b, p, c, 0);
    DivUnique(x * c, W, a, b * c);
  }

  lemma LowProduct(b: nat, p: nat, c: nat, e: nat)
    requires b < p && e < c
    ensures 0 <= b * c + e < p * c
  {
    MulMono(b, p - 1, c);
    MulMono(0, b, c);
    assert (p - 1) * c == p * c - c;
  }

  lemma Regroup(a: nat, b: nat, e: nat, f: nat, p: nat, c: nat)
    requires p * c == W
    ensures (a * p + b) * W + (e * p + f) == (a * W + (b * c + e)) * p + f
  {
    assert (a * p + b) * W == a * p * W + b * W;
    assert a * p * W == a * W * p by { MulAssoc(a, p, W); MulAssoc(a, W, p); }
    assert b * W == b * c * p by { MulAssoc(b, c, p); assert c * p == p * c; }
    assert (a * W + (b * c + e)) * p == a * W * p + b * c * p + e * p;
  }

  /** The same pieces when the shift is exactly one word. */
  lemma SplitAt(nh: U32, nl: U32)
    ensures All(nh, nl) / Pow2(32) == nh && All(nh, nl) % Pow2(32) == nl
    ensures All(nl, 0) == nl * Pow2(32)
  {
    Pow2Values();
    DivUnique(All(nh, nl), W, nh, nl);
  }

  /** The same pieces for a shift above the word width. */
  lemma SplitAbove(nh: U32, nl: U32, s: nat)
    requires 33 <= s <= 63
    ensures var qh := Or(Shl32(nh, 64 - s), Shr32(nl, s - 32));
            qh < W && All(qh, Shl32(nl, 64 - s)) == All(nh, nl) % Pow2(s) * Pow2(64 - s)
    ensures All(0, Shr32(nh, s - 32)) == All(nh, nl) / Pow2(s)
  {
    var p, c := Pow2(s - 32), Pow2(64 - s);
    assert p * c == W && Pow2(s) == p * W by {
      Pow2Add(s - 32, 64 - s);
      Pow2Add(s - 32, 32);
      Pow2Values();
    }
    HighPart(nh, p, c);
    HighPart(nl, p, c);
    PiecesAbove(nh, nl, p, c);
    OrDisjoint(nh % p, 64 - s, nl / p);
  }

  lemma PiecesAbove(nh: U32, nl: U32, p: nat, c: nat)
    requires p > 0 && p * c == W
    ensures 0 <= nl / p < c && nh % p * c + nl / p < W
    ensures p * W > 0 && All(nh, nl) / (p * W) == nh / p
    ensures (nh % p * c + nl / p) * W + nl % p * c == All(nh, nl) % (p * W) * c
  {
    DivRem(nh, p);
    DivRem(nl, p);
    DivLess(nl, p, c);
    DivGeq(nl, p, 0);
    var a, b, e, f := nh / p, nh % p, nl / p, nl % p;
    LowProduct(b, p, c, e);
    LowProduct(b, p, W, nl);
    assert (a * p + b) * W == a * (p * W) + b * W by {
      assert (a * p + b) * W == a * p * W + b * W;
      MulAssoc(a, p, W);
    }
    DivUnique(All(nh, nl), p * W, a, b * W + nl);
    RegroupAbove(b, e, f, p, c, nl);
  }

  lemma RegroupAbove(b: nat, e: nat, f: nat, p: nat, c: nat, nl: nat)
    requires p * c == W && nl == e * p + f
    ensures (b * W + nl) * c == (b * c + e) * W + f * c
  {
    assert (b * W + nl) * c == b * W * c + nl * c;
    assert b * W * c == b * c * W by { MulAssoc(b, W, c); MulAssoc(b, c, W); }
    assert (e * p + f) * c == e * p * c + f * c;
    MulAssoc(e, p, c);
    assert (b * c + e) * W == b * c * W + e * W;
  }

  lemma {:induction false} TrailingZerosOfPow2(k: nat)
    ensures TrailingZeros(Pow2(k)) == k
  {
    if k > 0 {
      TrailingZerosOfPow2(k - 1);
    }
  }

  /** A divisor K:0 that is a power of two. */
  lemma HighPowerOfTwo(nh: U32, nl: U32, dh: U32, t: nat)
    requires dh > 0 && dh == Pow2(t)
    ensures nh / Pow2(t) == All(nh, nl) / All(dh, 0)
    ensures All(And(nh, dh - 1), nl) == All(nh, nl) % All(dh, 0)
  {
    AndLow(nh, t);
    DivRem(nh, dh);
    var a, b := nh / dh, nh % dh;
    LowProduct(b, dh, W, nl);
    assert All(nh, nl) == a * (dh * W) + (b * W + nl) by {
      assert (a * dh + b) * W == a * dh * W + b * W;
      MulAssoc(a, dh, W);
    }
    DivUnique(All(nh, nl), dh * W, a, b * W + nl);
  }

  /** K 0 over K 0: both low words are zero. */
  lemma HighOnly(nh: U32, dh: U32)
    requires dh > 0
    ensures nh / dh == All(nh, 0) / All(dh, 0)
    ensures nh % dh < W && All(nh % dh, 0) == All(nh, 0) % All(dh, 0)
  {
    DivRem(nh, dh);
    var a, b := nh / dh, nh % dh;
    assert nh * W == a * (dh * W) + b * W by {
      assert (a * dh + b) * W == a * dh * W + b * W;
      MulAssoc(a, dh, W);
    }
    MulMono(b + 1, dh, W);
    DivUnique(nh * W, dh * W, a, b * W);
  }

  lemma SmallOver(n: nat, d: nat)
    requires n < d
    ensures n / d == 0 && n % d == n
  {
    DivUnique(n, d, 0, n);
  }

  /** A power-of-two word has a single bit, at its count of trailing zeros. */
  lemma PowerOfTwoWord(d: U32)
    requires d > 0 && And(d, d - 1) == 0
    ensures d == Pow2(TrailingZeros(d))
  {
    AndPredZero(d);
    var k: nat :| d == Pow2(k);
    TrailingZerosOfPow2(k);
  }

  /** A word that is not a power of two is at least 3, so it has at most 30 leading zeros. */
  lemma NotPowerOfTwo(d: U32, c: nat)
    requires c < 32 && Pow2(31 - c) <= d < Pow2(32 - c)
    ensures d > 0 && (And(d, d - 1) != 0 ==> c <= 30)
  {
    if c == 31 {
      assert Pow2(0) == 1 && Pow2(1) == 2;
      assert And(1, 0) == 0;
    }
  }

  function Wrap32(x: int): U32
  {
    x % W
  }

  /** Unsigned difference of two bit counts. */
  lemma CountDifference(a: nat, b: nat)
    requires a < 64 && b < 64
    ensures Wrap32(a - b) == if a >= b then a - b else a - b + W
  {
  }

  /** What the shift count computed from two leading-zero counts means when d.high != 0. */
  lemma HighPlan(nh: U32, nl: U32, dh: U32, dl: U32, cn: nat, cd: nat, limit: nat)
    requires cn < 32 && Pow2(31 - cn) <= nh < Pow2(32 - cn)
    requires cd < 32 && Pow2(31 - cd) <= dh < Pow2(32 - cd)
    requires limit == 31 || (limit == 30 && dh > 0 && And(dh, dh - 1) != 0)
    ensures Wrap32(cd - cn) > limit ==> All(nh, nl) < All(dh, dl)
    ensures Wrap32(cd - cn) <= limit ==> Aligned(All(nh, nl), All(dh, dl), Wrap32(cd - cn) + 1, 63 - cd)
  {
    hide And, Aligned;
    NotPowerOfTwo(dh, cd);
    hide Pow2;
    CountDifference(cd, cn);
    HighLength(nh, nl, cn);
    HighLength(dh, dl, cd);
    if cd < cn {
      ShorterIsLess(All(nh, nl), All(dh, dl), 63 - cn, 63 - cd);
    } else {
      AlignedBy(All(nh, nl), All(dh, dl), 63 - cn, 63 - cd, cd - cn + 1);
    }
  }

  /** The same when d.high == 0. */
  lemma LowPlan(nh: U32, nl: U32, dl: U32, cn: nat, cd: nat)
    requires cn < 32 && Pow2(31 - cn) <= nh < Pow2(32 - cn)
    requires cd < 32 && Pow2(31 - cd) <= dl < Pow2(32 - cd)
    requires dl > 0 && And(dl, dl - 1) != 0
    ensures Aligned(All(nh, nl), dl, Wrap32(1 + 32 + cd - cn), 31 - cd)
  {
    NotPowerOfTwo(dl, cd);
    CountDifference(33 + cd, cn);
    HighLength(nh, nl, cn);
    AlignedBy(All(nh, nl), dl, 63 - cn, 31 - cd, 33 + cd - cn);
  }

  /** Sets q = n << (64 - sr) and r = n >> sr from 32-bit pieces, then runs the loop. */
  method ShiftAndDivide(nh: U32, nl: U32, d: U64, sr: nat, ghost m: nat) returns (q: U64, rem: U64)
    requires Aligned(All(nh, nl), d, sr, m)
    ensures q == All(nh, nl) / d && rem == All(nh, nl) % d
  {
    var qh: U32, ql: U32, rh: U32, rl: U32;
    if sr == 32 {
      SplitAt(nh, nl);
      qh, ql, rh, rl := nl, 0, 0, nh;
    } else if sr < 32 {
      SplitBelow(nh, nl, sr);
      ql, qh := 0, Shl32(nl, 32 - sr);
      rh, rl := Shr32(nh, sr), Or(Shl32(nh, 32 - sr), Shr32(nl, sr));
    } else {
      SplitAbove(nh, nl, sr);
      ql, qh := Shl32(nl, 64 - sr), Or(Shl32(nh, 64 - sr), Shr32(nl, sr - 32));
      rh, rl := 0, Shr32(nh, sr - 32);
    }
    q, rem := DivLoop(All(nh, nl), d, qh, ql, rh, rl, sr, m);
  }

  /** The shift count when d.high != 0; it is above the limit exactly when n is shorter than d. */
  method HighShift(nh: U32, nl: U32, dh: U32, dl: U32, limit: nat) returns (sr: U32, ghost m: nat)
    requires nh != 0 && dh != 0
    requires limit == 31 || (limit == 30 && And(dh, dh - 1) != 0)
    ensures sr > limit ==> All(nh, nl) < All(dh, dl)
    ensures sr <= limit ==> Aligned(All(nh, nl), All(dh, dl), sr + 1, m)
  {
    var cd := Clz(dh);
    var cn := Clz(nh);
    HighPlan(nh, nl, dh, dl, cn, cd, limit);
    sr, m := Wrap32(cd as int - cn), 63 - cd;
  }

  /** d.high != 0; `limit` is the largest shift count the branch accepts before it answers 0. */
  method DivideHigh(nh: U32, nl: U32, dh: U32, dl: U32, limit: nat) returns (q: U64, rem: U64)
    requires nh != 0 && dh != 0
    requires limit == 31 || (limit == 30 && And(dh, dh - 1) != 0)
    ensures q == All(nh, nl) / All(dh, dl) && rem == All(nh, nl) % All(dh, dl)
  {
    var sr, m := HighShift(nh, nl, dh, dl, limit);
    if sr > limit {
      SmallOver(All(nh, nl), All(dh, dl));
      q, rem := 0, All(nh, nl);
    } else {
      q, rem := ShiftAndDivide(nh, nl, All(dh, dl), sr + 1, m);
    }
  }

  /** The shift count when d.high == 0 and d.low is not a power of two. */
  method LowShift(nh: U32, nl: U32, dl: U32) returns (sr: U32, ghost m: nat)
    requires nh != 0 && dl != 0 && And(dl, dl - 1) != 0
    ensures Aligned(All(nh, nl), dl, sr, m)
  {
    var cd := Clz(dl);
    var cn := Clz(nh);
    LowPlan(nh, nl, dl, cn, cd);
    sr, m := Wrap32(1 + 32 + cd as int - cn), 31 - cd;
  }

  /** d.high == 0 and d.low not a power of two. */
  method DivideLow(nh: U32, nl: U32, dl: U32) returns (q: U64, rem: U64)
    requires nh != 0 && dl != 0 && And(dl, dl - 1) != 0
    ensures q == All(nh, nl) / dl && rem == All(nh, nl) % dl
  {
    var sr, m := LowShift(nh, nl, dl);
    q, rem := ShiftAndDivide(nh, nl, dl, sr, m);
  }

  /** d.high == 0 and d.low a power of two. */
  method DivideLowPowerOfTwo(nh: U32, nl: U32, dl: U32) returns (q: U64, rem: U64)
    requires nh != 0 && dl != 0 && And(dl, dl - 1) == 0
    ensures q == All(nh, nl) / dl && rem == All(nh, nl) % dl
  {
    var n := All(nh, nl);
    PowerOfTwoWord(dl);
    AndLow(nl, TrailingZeros(dl));
    rem := And(nl, dl - 1);
    if dl == 1 {
      DivUnique(n, 1, n, 0);
      DivUnique(nl, 1, nl, 0);
      return n, rem;
    }
    var sr := Ctz(dl);
    assert sr >= 1 by { assert Pow2(0) == 1; }
    SplitBelow(nh, nl, sr);
    q := All(Shr32(nh, sr), Or(Shl32(nh, 32 - sr), Shr32(nl, sr)));
  }

  /** The case split of `__udivmoddi4` on the four words. */
  method UDivModWords(nh: U32, nl: U32, dh: U32, dl: U32) returns (q: U64, rem: U64)
    requires dh != 0 || dl != 0
    ensures q == All(nh, nl) / All(dh, dl) && rem == All(nh, nl) % All(dh, dl)
  {
    if nh == 0 {
      if dh == 0 {
        DivRange(nl, dl);
        return nl / dl, nl % dl;
      }
      SmallOver(All(nh, nl), All(dh, dl));
      return 0, nl;
    }
    if dl == 0 {
      if nl == 0 {
        HighOnly(nh, dh);
        DivRange(nh, dh);
        return nh / dh, All(nh % dh, 0);
      }
      if And(dh, dh - 1) == 0 {
        PowerOfTwoWord(dh);
        var t := Ctz(dh);
        HighPowerOfTwo(nh, nl, dh, t);
        q, rem := Shr32(nh, t), All(And(nh, dh - 1), nl);
      } else {
        q, rem := DivideHigh(nh, nl, dh, dl, 30);
      }
    } else if dh == 0 {
      if And(dl, dl - 1) == 0 {
        q, rem := DivideLowPowerOfTwo(nh, nl, dl);
      } else {
        q, rem := DivideLow(nh, nl, dl);
      }
    } else {
      q, rem := DivideHigh(nh, nl, dh, dl, 31);
    }
  }

  /**
   `__udivmoddi4`: exact quotient and remainder for every 64-bit dividend and nonzero divisor.
   A zero divisor is undefined in C (section 6.5.5 of ISO C11).
   */
  method UDivMod(a: U64, b: U64) returns (q: U64, rem: U64)
    requires b != 0
    ensures q == a / b && rem == a % b
    ensures a == q * b + rem && rem < b
  {
    q, rem := UDivModWords(a / W, a % W, b / W, b % W);
    DivRem(a, b);
  }

  // ---------------------------------------------------------------- signed division

  /** Division truncating toward zero, the operator `/` of C (section 6.5.5 of ISO C11). */
  function TruncDiv(a: int, b: int): int
    requires b != 0
  {
    if a >= 0 then (if b > 0 then a / b else -(a / -b))
    else (if b > 0 then -(-a / b) else -a / -b)
  }

  /** The matching remainder, with the sign of the dividend. */
  function TruncMod(a: int, b: int): int
    requires b != 0
  {
    a - TruncDiv(a, b) * b
  }

  /** Two's-complement reinterpretation. */
  function ToUnsigned(a: int): U64
  {
    a % DW
  }

  function ToSigned(u: U64): I64
  {
    if u >= TOP then u - DW else u
  }

  function Abs(a: int): nat
  {
    if a < 0 then -a else a
  }

  /** `(x ^ s) - s` with s all ones or zero: the wrapped negation or the identity. */
  method NegateIf(x: U64, negative: bool) returns (y: U64)
    ensures y == if negative then (DW - x) % DW else x
  {
    var s: U64 := if negative then DW - 1 else 0;
    XorMask(x);
    hide Xor;
    y := (Xor(x, s) - s) % DW;
  }

  lemma XorMask(x: U64)
    ensures Xor(x, DW - 1) == DW - 1 - x && Xor(x, 0) == x
    ensures (DW - 1 - x - (DW - 1)) % DW == (DW - x) % DW
  {
    XorAllOnes(x);
    hide Xor;
    NegatedModulo(x);
  }

  lemma XorAllOnes(x: U64)
    ensures Xor(x, DW - 1) == DW - 1 - x && Xor(x, 0) == x
  {
    assert Pow2(64) == DW by { Pow2Values(); }
    hide Pow2;
    XorOnes(x, 64);
  }

  lemma NegatedModulo(x: U64)
    ensures (-(x as int)) % DW == (DW - x) % DW
  {
    if x == 0 {
      DivUnique(DW, DW, 1, 0);
    } else {
      DivUnique(-(x as int), DW, -1, DW - x);
      DivUnique(DW - x, DW, 0, DW - x);
    }
  }

  lemma NegateWraps(a: I64)
    ensures (if a < 0 then (DW - ToUnsigned(a)) % DW else ToUnsigned(a)) == Abs(a)
  {
  }

  /** Truncated division in terms of the magnitudes. */
  lemma TruncByMagnitude(a: int, b: int)
    requires b != 0
    ensures var m: int := Abs(a) / Abs(b);
            0 <= m <= Abs(a) && TruncDiv(a, b) == if (a < 0) != (b < 0) then -m else m
    ensures var r: int := Abs(a) % Abs(b);
            0 <= r < Abs(b) && TruncMod(a, b) == if a < 0 then -r else r
  {
    DivRem(Abs(a), Abs(b));
    DivRange(Abs(a), Abs(b));
    var m: int := Abs(a) / Abs(b);
    assert (-m) * (-b) == m * b && (-m) * b == -(m * b) && m * (-b) == -(m * b);
  }

  /** What section 6.5.5 asks of a quotient and a remainder. */
  predicate Truncates(a: int, b: int, q: int, r: int)
  {
    && a == q * b + r
    && (b > 0 ==> -b < r < b) && (b < 0 ==> b < r < -b)
    && (a >= 0 ==> r >= 0) && (a <= 0 ==> r <= 0)
  }

  /** The truncated quotient and the remainder obey it, and no other numbers do. */
  lemma Truncated(a: int, b: int, q: int, r: int)
    requires b != 0
    ensures Truncates(a, b, q, r) <==> q == TruncDiv(a, b) && r == TruncMod(a, b)
  {
    TruncByMagnitude(a, b);
    hide TruncDiv;
    if Truncates(a, b, q, r) {
      var qm := if (a < 0) != (b < 0) then -q else q;
      var rm := if a < 0 then -r else r;
      InMagnitudes(a, b, q, r);
      DivUnique(Abs(a), Abs(b), qm, rm);
    }
  }

  lemma InMagnitudes(a: int, b: int, q: int, r: int)
    requires b != 0 && a == q * b + r
    ensures Abs(a) == (if (a < 0) != (b < 0) then -q else q) * Abs(b) + (if a < 0 then -r else r)
  {
    assert (-q) * (-b) == q * b && (-q) * b == -(q * b) && q * (-b) == -(q * b);
  }

  /** `__divdi3`: the truncated quotient, wrapped to 64 bits. */
  method Div(a: I64, b: I64) returns (q: I64)
    requires b != 0
    ensures q == ToSigned(ToUnsigned(TruncDiv(a, b)))
    ensures q == TruncDiv(a, b) <==> !(a == -0x8000_0000_0000_0000 && b == -1)
    ensures a == -0x8000_0000_0000_0000 && b == -1 ==> q == -0x8000_0000_0000_0000
  {
    var ua := NegateIf(ToUnsigned(a), a < 0);
    var ub := NegateIf(ToUnsigned(b), b < 0);
    NegateWraps(a);
    NegateWraps(b);
    TruncByMagnitude(a, b);
    QuotientRange(a, b);
    WrapSigned(TruncDiv(a, b));
    hide TruncDiv, TruncMod, ToSigned;
    var u, rest := UDivMod(ua, ub);
    DivUnique(Abs(a), Abs(b), u, rest);
    NegateUnsigned(u, (a < 0) != (b < 0));
    var r := NegateIf(u, (a < 0) != (b < 0));
    q := ToSigned(r);
  }

  lemma NegateUnsigned(u: U64, negative: bool)
    ensures ToUnsigned(if negative then -(u as int) else u) == if negative then (DW - u) % DW else u
  {
    assert 0 < u ==> (-(u as int)) % DW == DW - u;
  }

  lemma WrapSigned(v: int)
    requires -TOP <= v <= TOP
    ensures ToUnsigned(v) == if v < 0 then DW + v else v
    ensures ToSigned(ToUnsigned(v)) == v <==> v < TOP
  {
  }

  /** The only quotient that does not fit is -2^63 / -1. */
  lemma QuotientRange(a: I64, b: I64)
    requires b != 0
    ensures -TOP <= TruncDiv(a, b) < TOP <==> !(a == -TOP && b == -1)
    ensures -TOP <= TruncDiv(a, b) <= TOP
  {
    TruncByMagnitude(a, b);
    var m := Abs(a) / Abs(b);
    if Abs(b) == 1 {
      DivUnique(Abs(a), 1, Abs(a), 0);
    } else if m > 0 {
      DivRem(Abs(a), Abs(b));
      MulMono(2, Abs(b), m);
      assert Abs(b) * m == m * Abs(b);
    }
  }

  /** Taking the sign back in 64 bits, for a magnitude below 2^63. */
  lemma SignedNegate(u: U64, negative: bool)
    requires u < TOP
    ensures ToSigned(if negative then (DW - u) % DW else u) == if negative then -(u as int) else u
  {
    assert 0 < u ==> (DW - u) % DW == DW - u;
  }

  /** `__moddi3`: the remainder with the sign of the dividend, for every divisor but zero. */
  method Mod(a: I64, b: I64) returns (r: I64)
    requires b != 0
    ensures r == TruncMod(a, b)
  {
    var ub := NegateIf(ToUnsigned(b), b < 0);
    var ua := NegateIf(ToUnsigned(a), a < 0);
    NegateWraps(a);
    NegateWraps(b);
    TruncByMagnitude(a, b);
    hide TruncMod, ToUnsigned, ToSigned;
    var q, u := UDivMod(ua, ub);
    DivUnique(Abs(a), Abs(b), q, u);
    var n := NegateIf(u, a < 0);
    SignedNegate(u, a < 0);
    r := ToSigned(n);
  }

  /** `__divmoddi4`: quotient of `__divdi3` and `a - d*b`, which agrees with `__moddi3`. */
  method DivMod(a: I64, b: I64) returns (q: I64, rem: I64)
    requires b != 0
    ensures q == ToSigned(ToUnsigned(TruncDiv(a, b))) && rem == TruncMod(a, b)
    ensures !(a == -TOP && b == -1) ==> a == q * b + rem
  {
    q := Div(a, b);
    rem := ToSigned(ToUnsigned(a - q * b));
    if a == -TOP && b == -1 {
      OverflowPair();
    } else {
      RemainderRange(a, b);
      assert q == TruncDiv(a, b);
      hide TruncDiv;
      WrapSigned(TruncMod(a, b));
    }
  }

  lemma OverflowPair()
    ensures ToSigned(ToUnsigned(TruncDiv(-TOP, -1))) == -TOP
    ensures TruncMod(-TOP, -1) == 0 == ToSigned(ToUnsigned(-TOP - -TOP * -1))
  {
    DivUnique(TOP, 1, TOP, 0);
  }

  lemma RemainderRange(a: I64, b: I64)
    requires b != 0
    ensures -TOP < TruncMod(a, b) < TOP
  {
    TruncByMagnitude(a, b);
  }

}
