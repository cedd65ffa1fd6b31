/** Division by an invariant divisor (asmlibSrc/divfixedi32.asm, divfixedi64.asm): one multiply,
    one add and two shifts replace `div`. The formulas and their exactness are stated for every
    word size n; the register code is stated for the 32-bit words it is written for. */
module InvariantDivision {
  import opened Words

  // ---------------------------------------------------------------- formulas, any word size

  /** The index of the highest set bit, which is what `bsr` finds. */
  function FloorLog2(x: nat): (k: nat)
    requires x > 0
    ensures Pow2(k) <= x < 2 * Pow2(k)
  {
    if x == 1 then 0 else 1 + FloorLog2(x / 2)
  }

  function CeilLog2(d: nat): (l: nat)
    requires d >= 1
    ensures d <= Pow2(l)
    ensures l > 0 ==> Pow2(l - 1) < d
    ensures l == 0 <==> d == 1
  {
    if d == 1 then 0 else FloorLog2(d - 1) + 1
  }

  function UnsignedMultiplier(n: nat, d: nat): (m: nat)
    requires 1 <= d < Pow2(n)
    ensures m >= 1
  {
    MulMonotone(0, Pow2(CeilLog2(d)) - d, Pow2(n));
    DivAtLeast(Pow2(n) * (Pow2(CeilLog2(d)) - d), d, 0);
    1 + Pow2(n) * (Pow2(CeilLog2(d)) - d) / d
  }

  function Shift1(d: nat): nat
    requires d >= 1
  {
    if CeilLog2(d) >= 1 then 1 else 0
  }

  function Shift2(d: nat): nat
    requires d >= 1
  {
    if CeilLog2(d) >= 1 then CeilLog2(d) - 1 else 0
  }

  /** The dividing half: high product, subtract, shift, add, shift, all in n-bit registers. */
  function DivideFixedU(n: nat, m: nat, sh1: nat, sh2: nat, x: nat): nat {
    var t := Shr(m * x, n);
    Shr(Wrap(Shr(Wrap(x - t, n), sh1) + t, n), sh2)
  }

  /** The signed multiplier before it is cut to n bits. */
  function SignedMultiplier(n: nat, d: nat): nat
    requires d >= 1
  {
    1 + Pow2(n + Shift2(d)) / d
  }

  /** Signed high multiply, add, arithmetic shift, subtract the sign, in n-bit registers. */
  function DivideFixedI(n: nat, m: nat, sh: nat, x: int): int
    requires n >= 1 && m < Pow2(n) && -(Pow2(n - 1) as int) <= x < Pow2(n - 1)
  {
    var sum := Signed(Wrap(Shr(Signed(m, n) * x, n) + x, n), n);
    var sign := if x < 0 then -1 else 0;
    Signed(Wrap(Shr(sum, sh) - sign, n), n)
  }

  /** C's integer division by a positive divisor. */
  function TruncDiv(x: int, d: nat): int
    requires d >= 1
  {
    if x >= 0 then x / d else -(-x / d)
  }

  /** The multiplier leaves room for the register: it fits n bits, and so does the quotient the
      setup code asks `div` for. */
  lemma UnsignedMultiplierFits(n: nat, d: nat)
    requires 1 <= d < Pow2(n)
    ensures CeilLog2(d) <= n
    ensures UnsignedMultiplier(n, d) < Pow2(n)
    ensures 0 <= Pow2(CeilLog2(d)) - d < d
  {
    hide CeilLog2;
    var p, l := Pow2(n), CeilLog2(d);
    if l > n { Pow2Monotone(n, l - 1); }
    if l > 0 {
      DoublePower(l);
      ScaledQuotient(p, Pow2(l) - d, d);
    } else {
      OneHasMultiplierOne(n);
    }
  }

  lemma DoublePower(l: nat)
    requires l > 0
    ensures Pow2(l) == 2 * Pow2(l - 1)
  {
  }

  lemma OneHasMultiplierOne(n: nat)
    requires 1 < Pow2(n)
    ensures UnsignedMultiplier(n, 1) == 1
  {
    hide Pow2;
    assert Pow2(CeilLog2(1)) - 1 == 0 by { FirstPower(); }
  }

  lemma FirstPower()
    ensures Pow2(0) == 1
  {
  }

  lemma UnsignedMultiplierOfOne(n: nat, d: nat)
    requires 1 <= d < Pow2(n)
    ensures CeilLog2(d) == 0 ==> UnsignedMultiplier(n, d) == 1
  {
    if d == 1 { assert Pow2(CeilLog2(d)) - d == 0; }
  }

  lemma ScaledQuotient(p: int, k: int, d: int)
    requires 2 <= d <= p && 0 <= k <= d - 2
    ensures 0 <= p * k / d <= p - 2
  {
    MulMonotone(k, d - 2, p);
    Distribute(d, -2, p);
    Distribute(p, -2, d);
    DivAtMost(p * k, d, p - 2);
    DivAtLeast(p * k, d, 0);
  }

  /** Granlund and Montgomery's bound: a multiplier `big` that exceeds pl/d by an excess too small
      to reach the next unit on x divides x exactly. */
  lemma MultiplierBound(pl: int, d: int, big: int, x: int)
    requires d > 0 && 0 <= x && pl > 0 && big >= 0
    requires pl < big * d && (big * d - pl) * x < pl
    ensures big * x / pl == x / d
  {
    var e, q, r := big * d - pl, x / d, x % d;
    DivBounds(x, d);
    Residual(pl, e, d, q, r, big);
    ProductSplit(pl, e, d, q, r, big);
    DivUnique(big * x, pl, q);
  }

  lemma ProductSplit(pl: int, e: int, d: int, q: int, r: int, big: int)
    requires big * d == pl + e
    ensures big * (q * d + r) == q * pl + (q * e + big * r)
  {
    Distribute(q * d, r, big);
    Associate(q, d, big);
    Distribute(pl, e, q);
  }

  lemma Residual(pl: int, e: int, d: int, q: int, r: int, big: int)
    requires d > 0 && q >= 0 && 0 <= r < d && e >= 1 && pl > 0 && big >= 0
    requires big * d == pl + e && e * (q * d + r) < pl
    ensures 0 <= q * e + big * r < pl
  {
    var s := q * e + big * r;
    ResidualScaled(pl, e, d, q, r, big);
    assert pl * r <= pl * d - pl by { MulMonotone(r, d - 1, pl); Distribute(d, -1, pl); }
    MulMonotone(0, q, e);
    MulMonotone(0, r, big);
    SmallerByScaling(s, pl, d);
  }

  lemma SmallerByScaling(a: int, b: int, d: int)
    requires d > 0 && a * d < b * d
    ensures a < b
  {
    if b <= a { MulMonotone(b, a, d); }
  }

  lemma ResidualScaled(pl: int, e: int, d: int, q: int, r: int, big: int)
    requires big * d == pl + e
    ensures (q * e + big * r) * d == e * (q * d + r) + pl * r
  {
    Distribute(q * e, big * r, d);
    Associate(q, e, d);
    Associate(big, r, d);
    Associate(r, big, d);
    Distribute(pl, e, r);
    Distribute(q * d, r, e);
  }

  /** The hypothesis of MultiplierBound for a multiplier 1 + floor(pl/d). */
  lemma RoundedUp(pl: int, d: int, big: int)
    requires d > 0 && big == 1 + pl / d
    ensures pl < big * d <= pl + d
  {
    DivBounds(pl, d);
    Distribute(pl / d, 1, d);
  }

  /** The excess is at most d, so it stays below p*l on any x below p when d <= l. */
  lemma ExcessSmall(p: int, l: int, d: int, e: int, x: int)
    requires 0 <= e <= d <= l && 0 <= x < p && l > 0
    ensures e * x < p * l
  {
    MulMonotone(e, l, x);
    MulMonotone(x, p - 1, l);
    Distribute(p, -1, l);
  }

  /** Unsigned division is exact for every word size, divisor and dividend, and the subtraction
      x - t never borrows. */
  lemma UnsignedDivisionExact(n: nat, d: nat, x: nat)
    requires 1 <= d < Pow2(n) && x < Pow2(n)
    ensures UnsignedMultiplier(n, d) < Pow2(n)
    ensures Shr(UnsignedMultiplier(n, d) * x, n) <= x
    ensures DivideFixedU(n, UnsignedMultiplier(n, d), Shift1(d), Shift2(d), x) == x / d
  {
    hide Shr, Wrap, Pow2, UnsignedMultiplier, CeilLog2, DivideFixedU;
    UnsignedMultiplierFits(n, d);
    UnsignedMultiplierOfOne(n, d);
    UnsignedSum(n, d, x);
    UnsignedPath(n, UnsignedMultiplier(n, d), CeilLog2(d), x);
  }

  /** The two shifts, taken in registers, compute the sum shifted by L. */
  lemma UnsignedPath(n: nat, m: nat, l: nat, x: nat)
    requires m < Pow2(n) && x < Pow2(n)
    requires l == 0 ==> m == 1
    ensures 0 <= Shr(m * x, n) <= x
    ensures DivideFixedU(n, m, if l >= 1 then 1 else 0, if l >= 1 then l - 1 else 0, x)
         == Shr(x + Shr(m * x, n), l)
  {
    hide Wrap, Pow2, Shr;
    var t := Shr(m * x, n);
    HighProductBelow(n, m, x);
    if l == 0 {
      ShrIsDiv(x, n);
      DivUnique(x, Pow2(n), 0);
    }
    PathShifts(n, t, x, l);
  }

  lemma PathShifts(n: nat, t: nat, x: nat, l: nat)
    requires t <= x < Pow2(n) && (l == 0 ==> t == 0)
    ensures Shr(Wrap(Shr(Wrap(x - t, n), if l >= 1 then 1 else 0) + t, n), if l >= 1 then l - 1 else 0) == Shr(x + t, l)
  {
    hide Wrap, Pow2;
    if l > 0 {
      assert Shr(x - t, 1) == (x - t) / 2;
      assert (x - t) / 2 + t == (x + t) / 2;
    }
  }

  lemma HighProductBelow(n: nat, m: int, x: int)
    requires 0 <= m <= Pow2(n) && 0 <= x
    ensures 0 <= Shr(m * x, n) <= x
  {
    var p := Pow2(n);
    ShrIsDiv(m * x, n);
    MulMonotone(m, p, x);
    DivAtMost(m * x, p, x);
    DivAtLeast(m * x, p, 0) by { MulMonotone(0, m, x); }
  }

  /** The identity the whole method rests on: x plus the high product, shifted right by L. */
  lemma UnsignedSum(n: nat, d: nat, x: nat)
    requires 1 <= d < Pow2(n) && x < Pow2(n)
    ensures Shr(x + Shr(UnsignedMultiplier(n, d) * x, n), CeilLog2(d)) == x / d
  {
    var p, m, l := Pow2(n), UnsignedMultiplier(n, d), CeilLog2(d);
    var big := p + m;
    BiggerMultiplier(p, Pow2(l), d);
    Pow2Sum(n, l);
    RoundedUp(p * Pow2(l), d, big);
    ExcessSmall(p, Pow2(l), d, big * d - p * Pow2(l), x);
    MultiplierBound(p * Pow2(l), d, big, x);
    HighSum(n, m, x);
    ShrShr(big * x, n, l);
    ShrIsDiv(big * x, n + l);
  }

  lemma HighSum(n: nat, m: int, x: int)
    ensures Shr((Pow2(n) + m) * x, n) == x + Shr(m * x, n)
  {
    hide *;
    var p, mx := Pow2(n), m * x;
    assert (p + m) * x == mx + x * p by { Distribute(p, m, x); }
    ShrAddMultiple(mx, n, x);
  }

  lemma BiggerMultiplier(p: int, l: int, d: int)
    requires d > 0
    ensures p + p * (l - d) / d == p * l / d
  {
    Distribute(l, -d, p);
    DivAddMultiple(p * (l - d), d, p);
  }

  /** The setup division fits its register, and for d >= 2 the stored multiplier has its top bit
      set, so `imul` reads it as a negative number. */
  lemma SignedMultiplierFits(n: nat, d: nat)
    requires n >= 1 && 1 <= d < Pow2(n - 1)
    ensures Shift2(d) < n && n >= 2
    ensures d >= 2 ==> Pow2(n - 1) < SignedMultiplier(n, d) < Pow2(n)
    ensures d == 1 ==> SignedMultiplier(n, d) == Pow2(n) + 1
    ensures d >= 2 ==> Signed(SignedMultiplier(n, d), n) < 0
  {
    var p, s, u := Pow2(n), Shift2(d), Pow2(n - 1);
    if s >= n { Pow2Monotone(n - 1, s); }
    Pow2Sum(n, s);
    assert p == 2 * u;
    if d >= 2 {
      var l := CeilLog2(d);
      assert l >= 1 && s == l - 1 && Pow2(l) == 2 * Pow2(s);
      SignedQuotientRange(u, Pow2(s), d);
    } else {
      DivUnique(p, 1, p);
    }
  }

  lemma SignedQuotientRange(u: int, s: int, d: int)
    requires s < d <= 2 * s && d < u
    ensures u <= 2 * u * s / d <= 2 * u - 2
  {
    MulMonotone(d, 2 * s, u);
    Associate(2, u, s);
    DivAtLeast(2 * u * s, d, u);
    MulMonotone(s, d - 1, u);
    Distribute(d, -1, u);
    Distribute(2 * u, -2, d);
    Associate(2, u, d);
    DivAtMost(2 * u * s, d, 2 * u - 2);
  }

  /** Signed division truncates toward zero, exactly, for every word size, divisor and dividend:
      also for d = 1, where the multiplier is cut to 1 and the most negative dividend wraps. */
  lemma SignedDivisionExact(n: nat, d: nat, x: int)
    requires n >= 1 && 1 <= d < Pow2(n - 1) && -(Pow2(n - 1) as int) <= x < Pow2(n - 1)
    ensures DivideFixedI(n, Wrap(SignedMultiplier(n, d), n), Shift2(d), x) == TruncDiv(x, d)
  {
    SignedMultiplierFits(n, d);
    SignedShifted(n, d, x);
    TruncDivRange(x, d, Pow2(n - 1));
    if d == 1 {
      WrapUnique(SignedMultiplier(n, d), n, 1, 1);
      SignedPathByOne(n, x);
    } else {
      SignedPath(n, SignedMultiplier(n, d), Shift2(d), x, TruncDiv(x, d));
    }
  }

  lemma SignedPathByOne(n: nat, x: int)
    requires n >= 2 && -(Pow2(n - 1) as int) <= x < Pow2(n - 1)
    ensures DivideFixedI(n, 1, 0, x) == x
  {
    hide Wrap;
    var sign := if x < 0 then -1 else 0;
    assert Signed(1, n) == 1 by { Pow2Monotone(1, n - 1); }
    ShrIsDiv(x, n);
    DivUnique(x, Pow2(n), sign);
    SumThenCorrect(n, x, sign);
  }

  /** With d >= 2 the register reads `big` as big - 2^n; adding x back restores the product by big. */
  lemma SignedPath(n: nat, big: nat, s: nat, x: int, q: int)
    requires n >= 1 && Pow2(n - 1) <= big < Pow2(n) && -(Pow2(n - 1) as int) <= x < Pow2(n - 1)
    requires -(Pow2(n - 1) as int) <= q < Pow2(n - 1)
    requires Shr(Shr(big * x, n), s) == q + if x < 0 then -1 else 0
    ensures DivideFixedI(n, big, s, x) == q
  {
    hide Shr, Wrap;
    HighSum(n, big - Pow2(n), x);
    HighSumFits(n, big, x);
    SignedOfWrap(Shr(big * x, n), n);
    SignedOfWrap(q, n);
  }

  /** The exact value the arithmetic shift is meant to produce. */
  lemma SignedShifted(n: nat, d: nat, x: int)
    requires n >= 1 && 1 <= d < Pow2(n - 1) && -(Pow2(n - 1) as int) <= x < Pow2(n - 1)
    ensures Shr(Shr(SignedMultiplier(n, d) * x, n), Shift2(d))
         == TruncDiv(x, d) + if x < 0 then -1 else 0
  {
    var big, s := SignedMultiplier(n, d), Shift2(d);
    Pow2Sum(n, s);
    assert d <= 2 * Pow2(s);
    RoundedUp(Pow2(n + s), d, big);
    assert Pow2(n + s) == 2 * Pow2(n - 1) * Pow2(s);
    SignedBound(Pow2(n - 1), Pow2(s), d, big, x);
    ShrShr(big * x, n, s);
    ShrIsDiv(big * x, n + s);
  }

  /** With d = 1 the sum x + sign may leave the register; taking sign back returns x anyway. */
  lemma SumThenCorrect(n: nat, x: int, sign: int)
    requires n >= 1 && -(Pow2(n - 1) as int) <= x < Pow2(n - 1)
    ensures Signed(Wrap(Signed(Wrap(x + sign, n), n) - sign, n), n) == x
  {
    hide Wrap;
    var w := Wrap(x + sign, n);
    WrapShift(w - sign, n, if w < Pow2(n - 1) then 0 else -1);
    WrapSum(x + sign, -sign, n);
    SignedOfWrap(x, n);
  }

  lemma HighSumFits(n: nat, big: nat, x: int)
    requires n >= 1 && big < Pow2(n) && -(Pow2(n - 1) as int) <= x < Pow2(n - 1)
    ensures -(Pow2(n - 1) as int) <= Shr(big * x, n) < Pow2(n - 1)
  {
    var p := Pow2(n);
    if x >= 0 {
      HighProductBelow(n, big, x);
    } else {
      ShrIsDiv(big * x, n);
      MulMonotone(big, p, -x);
      MulMonotone(x, 0, big);
      DivAtLeast(big * x, p, x);
      DivAtMost(big * x, p, 0);
    }
  }

  lemma TruncDivRange(x: int, d: nat, u: int)
    requires d >= 1 && -u <= x < u
    ensures d >= 2 ==> -u <= TruncDiv(x, d) < u
    ensures TruncDiv(x, 1) == x
  {
    var a := if x >= 0 then x else -x;
    DivUnique(a, 1, a);
    DivAtLeast(a, d, 0);
    if d >= 2 && a > 0 {
      MulMonotone(1, d, a);
      DivAtMost(a, d, a - 1) by { MulMonotone(2, d, a); Distribute(a, -1, d); }
    }
  }

  /** The signed counterpart of MultiplierBound: flooring the product overshoots the truncated
      quotient by exactly the sign. */
  lemma SignedBound(u: int, s: int, d: int, big: int, x: int)
    requires u >= 1 && s >= 1 && 1 <= d <= 2 * s && -u <= x < u && big >= 0
    requires 2 * u * s < big * d <= 2 * u * s + d
    ensures big * x / (2 * u * s) == TruncDiv(x, d) + (if x < 0 then -1 else 0)
  {
    var k := 2 * u * s;
    Associate(2, u, s);
    MulMonotone(1, s, u);
    if x >= 0 {
      ExcessSmall(u, 2 * s, d, big * d - k, x);
      MultiplierBound(k, d, big, x);
    } else {
      MulMonotone(big * d - k, 2 * s, -x);
      MulMonotone(-x, u, 2 * s);
      NegativeBound(k, d, big, -x);
    }
  }

  lemma NegativeBound(k: int, d: int, big: int, y: int)
    requires k > 0 && d > 0 && y > 0 && big >= 0
    requires k < big * d && (big * d - k) * y <= k
    ensures big * -y / k == -(y / d) - 1
  {
    var e, q, r := big * d - k, y / d, y % d;
    DivBounds(y, d);
    DivAtLeast(y, d, 0);
    MulMonotone(1, e, y);
    ResidualLax(k, e, d, q, r, big);
    ProductSplit(k, e, d, q, r, big);
    DivUnique(big * -y, k, -q - 1);
  }

  lemma ResidualLax(k: int, e: int, d: int, q: int, r: int, big: int)
    requires d > 0 && q >= 0 && 0 <= r < d && e >= 1 && k > 0 && big >= 0
    requires big * d == k + e && 0 < e * (q * d + r) <= k
    ensures 0 < q * e + big * r <= k
  {
    var s := q * e + big * r;
    ResidualScaled(k, e, d, q, r, big);
    assert 0 <= k * r <= k * d - k by { MulMonotone(r, d - 1, k); Distribute(d, -1, k); }
    MulMonotone(k + 1, if s > k then s else k + 1, d);
    Distribute(k, 1, d);
    MulMonotone(s, if s <= 0 then 0 else s, d);
  }

  // ---------------------------------------------------------------- the two word sizes in use

  /** 2^n for n = 16 and n = 32. */
  function Values(n: nat): int { if n == 16 then 0x1_0000 else 0x1_0000_0000 }

  lemma WordSizes(n: nat)
    requires n == 16 || n == 32
    ensures Pow2(n) == Values(n) == 2 * Pow2(n - 1)
  {
    hide Pow2;
    assert Pow2(8) == 0x100 by { SmallPower(); }
    Pow2Sum(8, 8);
    Pow2Sum(16, 16);
    DoublePower(n);
  }

  lemma SmallPower()
    ensures Pow2(8) == 0x100
  {
  }

  /** Division of uint16_t and of uint32_t. */
  lemma UnsignedInUse(n: nat, d: nat, x: nat)
    requires n == 16 || n == 32
    requires 1 <= d < Values(n) && x < Values(n)
    ensures d < Pow2(n) && DivideFixedU(n, UnsignedMultiplier(n, d), Shift1(d), Shift2(d), x) == x / d
  {
    hide Shr, Wrap, Pow2, UnsignedMultiplier, CeilLog2, DivideFixedU;
    WordSizes(n);
    UnsignedDivisionExact(n, d, x);
  }

  /** Division of int16_t and of int32_t. */
  lemma SignedInUse(n: nat, d: nat, x: int)
    requires n == 16 || n == 32
    requires 1 <= d < Values(n) / 2 && -Values(n) <= 2 * x < Values(n)
    ensures d < Pow2(n - 1) && -(Pow2(n - 1) as int) <= x < Pow2(n - 1)
    ensures DivideFixedI(n, Wrap(SignedMultiplier(n, d), n), Shift2(d), x) == TruncDiv(x, d)
  {
    hide Shr, Wrap, Pow2, SignedMultiplier, CeilLog2, DivideFixedI;
    WordSizes(n);
    SignedDivisionExact(n, d, x);
  }
}
