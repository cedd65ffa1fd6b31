/** Machine words as integers: powers of two, wrap-around, the two's complement reading of a
    word, and the few facts about floor division that the arithmetic kernels rest on.
    Dafny's `/` floors whenever the divisor is positive, which is how `sar` and `shr` behave. */
module Words {

  function Pow2(n: nat): (p: nat)
    ensures p >= 1
  {
    if n == 0 then 1 else 2 * Pow2(n - 1)
  }

  /** The low n bits of x, for any integer x: what an n-bit register keeps. */
  function Wrap(x: int, n: nat): (r: nat)
    ensures r < Pow2(n)
    ensures 0 <= x < Pow2(n) ==> r == x
    decreases n
  {
    if n == 0 then 0 else 2 * Wrap(x / 2, n - 1) + x % 2
  }

  /** x shifted right by k bits, keeping the sign (`sar`; `shr` when x is not negative). */
  function Shr(x: int, k: nat): (r: int)
    ensures x >= 0 <==> r >= 0
    ensures x >= 0 ==> r <= x
    ensures x < 0 ==> x <= r
    decreases k
  {
    if k == 0 then x else Shr(x / 2, k - 1)
  }

  /** The signed integer an n-bit word stands for. */
  function Signed(w: nat, n: nat): (r: int)
    requires n >= 1 && w < Pow2(n)
    ensures -(Pow2(n - 1) as int) <= r < Pow2(n - 1)
  {
    if w < Pow2(n - 1) then w else w - Pow2(n)
  }

  lemma {:induction false} Pow2Sum(a: nat, b: nat)
    ensures Pow2(a + b) == Pow2(a) * Pow2(b)
  {
    if a > 0 {
      Pow2Sum(a - 1, b);
      assert Pow2(a + b) == 2 * Pow2(a - 1 + b);
    }
  }

  lemma {:induction false} Pow2Monotone(a: nat, b: nat)
    requires a <= b
    ensures Pow2(a) <= Pow2(b)
    decreases b
  {
    if a < b { Pow2Monotone(a, b - 1); }
  }

  lemma Distribute(a: int, b: int, c: int)
    ensures (a + b) * c == a * c + b * c && c * (a + b) == c * a + c * b
  {
  }

  lemma Associate(a: int, b: int, c: int)
    ensures a * b * c == a * (b * c) && a * b * c == b * (a * c)
  {
  }

  lemma MulMonotone(a: int, b: int, d: int)
    requires a <= b && d >= 0
    ensures a * d <= b * d
  {
  }

  lemma DivBounds(x: int, d: int)
    requires d > 0
    ensures x / d * d <= x < x / d * d + d
    ensures x == x / d * d + x % d
  {
  }

  lemma DivUnique(x: int, d: int, q: int)
    requires d > 0 && q * d <= x < q * d + d
    ensures x / d == q && x % d == x - q * d
  {
    var k := x / d;
    DivBounds(x, d);
    MulMonotone(if k < q then k + 1 else q + 1, if k < q then q else if q < k then k else q + 1, d);
  }

  lemma DivAtMost(x: int, d: int, k: int)
    requires d > 0 && x < k * d + d
    ensures x / d <= k
  {
    DivBounds(x, d);
    MulMonotone(k + 1, if x / d > k then x / d else k + 1, d);
  }

  lemma DivAtLeast(x: int, d: int, k: int)
    requires d > 0 && k * d <= x
    ensures k <= x / d
  {
    DivBounds(x, d);
    MulMonotone(x / d + 1, if x / d < k then k else x / d + 1, d);
  }

  lemma DivDiv(x: int, a: int, b: int)
    requires a > 0 && b > 0
    ensures a * b > 0 && x / a / b == x / (a * b)
  {
    var y, q := x / a, x / a / b;
    DivBounds(x, a);
    DivBounds(y, b);
    MulMonotone(q * b, y, a);
    MulMonotone(y + 1, q * b + b, a);
    Associate(q, b, a);
    Distribute(q * b, b, a);
    Distribute(y, 1, a);
    DivUnique(x, a * b, q);
  }

  /** Adding a multiple of the divisor shifts the quotient and keeps the remainder. */
  lemma DivAddMultiple(x: int, d: int, k: int)
    requires d > 0
    ensures (x + k * d) / d == x / d + k && (x + k * d) % d == x % d
  {
    DivBounds(x, d);
    assert (x / d + k) * d == x / d * d + k * d;
    DivUnique(x + k * d, d, x / d + k);
  }

  lemma {:induction false} ShrIsDiv(x: int, k: nat)
    ensures Shr(x, k) == x / Pow2(k)
    decreases k
  {
    if k > 0 {
      ShrIsDiv(x / 2, k - 1);
      DivDiv(x, 2, Pow2(k - 1));
    }
  }

  lemma {:induction false} ShrShr(x: int, a: nat, b: nat)
    ensures Shr(Shr(x, a), b) == Shr(x, a + b)
    decreases a
  {
    if a > 0 { ShrShr(x / 2, a - 1, b); }
  }

  /** Adding a multiple of 2^k shifts out as that multiple. */
  lemma ShrAddMultiple(x: int, k: nat, m: int)
    ensures Shr(x + m * Pow2(k), k) == Shr(x, k) + m
  {
    ShrIsDiv(x, k);
    ShrIsDiv(x + m * Pow2(k), k);
    DivAddMultiple(x, Pow2(k), m);
  }

  lemma {:induction false} WrapIsMod(x: int, n: nat)
    ensures Wrap(x, n) == x % Pow2(n)
    decreases n
  {
    if n > 0 {
      var y, p := x / 2, Pow2(n - 1);
      WrapIsMod(y, n - 1);
      DivBounds(y, p);
      Associate(2, y / p, p);
      Associate(y / p, 2, p);
      DivUnique(x, 2 * p, y / p);
    }
  }

  /** Wrapping forgets multiples of the word range. */
  lemma WrapShift(x: int, n: nat, k: int)
    ensures Wrap(x + k * Pow2(n), n) == Wrap(x, n)
  {
    WrapIsMod(x, n);
    WrapIsMod(x + k * Pow2(n), n);
    DivAddMultiple(x, Pow2(n), k);
  }

  lemma WrapUnique(x: int, n: nat, r: nat, k: int)
    requires r < Pow2(n) && x == r + k * Pow2(n)
    ensures Wrap(x, n) == r
  {
    WrapShift(r, n, k);
  }

  /** A sum may be wrapped early or late. */
  lemma WrapSum(x: int, y: int, n: nat)
    ensures Wrap(Wrap(x, n) + y, n) == Wrap(x + y, n)
  {
    WrapIsMod(x, n);
    DivBounds(x, Pow2(n));
    WrapShift(Wrap(x, n) + y, n, x / Pow2(n));
  }

  lemma SignedOfWrap(x: int, n: nat)
    requires n >= 1 && -(Pow2(n - 1) as int) <= x < Pow2(n - 1)
    ensures Signed(Wrap(x, n), n) == x
  {
    if x < 0 { WrapUnique(x, n, x + Pow2(n), -1); }
  }
}
