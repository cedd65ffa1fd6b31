/** Division of every lane of a 128-bit vector by one divisor (asmlibSrc/divfixedv32.asm,
    divfixedv64.asm). A vector is a sequence of unsigned n-bit lanes: 8 lanes of 16 bits or 4 lanes
    of 32; a signed lane is the word's two's complement reading. `buf` is the caller's two-vector
    buffer: the broadcast multiplier, then the shift counts. */
module VectorDivision {
  import opened Words
  import opened InvariantDivision
  import opened FixedDivisor

  type Vec = seq<nat>

  ghost predicate IsVec(n: nat, v: Vec) {
    forall i | 0 <= i < |v| :: v[i] < Pow2(n)
  }

  // ---------------------------------------------------------------- one lane

  /** `psrlw`/`psrld`: a count beyond the lane clears it. */
  function Psrl(n: nat, w: nat, count: nat): nat {
    if count < n then Shr(w, count) else 0
  }

  /** `psraw`/`psrad`: a count beyond the lane leaves the sign. */
  function Psra(n: nat, w: nat, count: nat): nat
    requires n >= 1 && w < Pow2(n)
  {
    Wrap(Shr(Signed(w, n), if count < n then count else n - 1), n)
  }

  /** `pmulhw`, and edx after `imul`: the high word of a signed product. */
  function MulHigh(n: nat, a: nat, b: nat): nat
    requires n >= 1 && a < Pow2(n) && b < Pow2(n)
  {
    Wrap(Shr(Signed(a, n) * Signed(b, n), n), n)
  }

  /** psub x, high / psrl shift1 / padd / psrl shift2. */
  function FinishU(n: nat, high: nat, sh1: nat, sh2: nat, x: nat): nat {
    Psrl(n, Wrap(Psrl(n, Wrap(x - high, n), sh1) + high, n), sh2)
  }

  /** padd x / psra count / psra x, n-1 / psub. */
  function FinishI(n: nat, high: nat, count: nat, x: nat): nat
    requires n >= 1 && x < Pow2(n)
  {
    Wrap(Psra(n, Wrap(high + x, n), count) - Psra(n, x, n - 1), n)
  }

  lemma LaneUnsigned(n: nat, m: nat, sh1: nat, sh2: nat, x: nat)
    requires sh1 < n && sh2 < n
    ensures FinishU(n, Shr(m * x, n), sh1, sh2, x) == DivideFixedU(n, m, sh1, sh2, x)
  {
    hide Shr, Wrap, Pow2, FinishU;
    LaneSame(n, Shr(m * x, n), sh1, sh2, x);
  }

  lemma LaneSame(n: nat, high: nat, sh1: nat, sh2: nat, x: nat)
    requires sh1 < n && sh2 < n
    ensures FinishU(n, high, sh1, sh2, x) == Shr(Wrap(Shr(Wrap(x - high, n), sh1) + high, n), sh2)
  {
    hide Shr, Wrap, Pow2;
  }

  lemma LaneSigned(n: nat, m: nat, sh: nat, x: nat)
    requires n >= 1 && m < Pow2(n) && sh < n && x < Pow2(n)
    ensures Signed(FinishI(n, MulHigh(n, m, x), sh, x), n) == DivideFixedI(n, m, sh, Signed(x, n))
  {
    hide Shr, Wrap, Pow2, FinishI, Signed;
    LaneSteps(n, Shr(Signed(m, n) * Signed(x, n), n), sh, x);
  }

  lemma LaneSteps(n: nat, high: int, sh: nat, x: nat)
    requires n >= 1 && sh < n && x < Pow2(n)
    ensures FinishI(n, Wrap(high, n), sh, x)
         == Wrap(Shr(Signed(Wrap(high + Signed(x, n), n), n), sh) - (if Signed(x, n) < 0 then -1 else 0), n)
  {
    hide Shr, Wrap, Pow2;
    var v := Signed(x, n);
    WrapSum(high, x, n);
    WrapShift(high + v, n, if v == x then 0 else 1);
    assert Wrap(Wrap(high, n) + x, n) == Wrap(high + v, n);
    SignBit(n, v);
    WrapDifference(Shr(Signed(Wrap(high + v, n), n), sh), if v < 0 then -1 else 0, n);
  }

  lemma WrapDifference(a: int, b: int, n: nat)
    ensures Wrap(Wrap(a, n) - Wrap(b, n), n) == Wrap(a - b, n)
  {
    hide Wrap;
    WrapSum(a, -(Wrap(b, n) as int), n);
    WrapIsMod(b, n);
    DivBounds(b, Pow2(n));
    WrapShift(a - b, n, b / Pow2(n));
  }

  // ---------------------------------------------------------------- setting the divisor

  /** The broadcast multiplier and the packed counts the setup leaves in `buf`. */
  ghost predicate UnsignedReady(n: nat, k: nat, mult: Vec, counts: Vec, d: nat)
    requires 1 <= d < Pow2(n)
  {
    && mult == seq(k, _ => UnsignedMultiplier(n, d))
    && counts == [Shift1(d), Shift2(d), 0, 0]
  }

  ghost predicate SignedReady(n: nat, k: nat, mult: Vec, counts: Vec, d: nat)
    requires 1 <= d
  {
    && mult == seq(k, _ => Wrap(SignedMultiplier(n, d), n))
    && counts == [Shift2(d), 0, 0, 0]
  }

  /** The 16-bit setup computes in 32-bit registers; below they are n bits wide, which differs only
      for d = 0, where both end in the same fault.
      `shl` builds 2^L in a double-width register, or in a single one with the cmp/adc repair. */
  datatype PowerCode = DoubleWidth | Repaired

  method SetDivisorUnsignedV(n: nat, k: nat, code: PowerCode, buf: array<Vec>, d: nat) returns (fault: bool)
    requires 2 <= n <= 256 && buf.Length == 2 && d < Pow2(n)
    modifies buf
    ensures fault <==> d == 0
    ensures fault ==> buf[..] == old(buf[..])
    ensures !fault ==> UnsignedReady(n, k, buf[0], buf[1], d)
  {
    hide Wrap, NarrowPower, WidePower, Div, UnsignedMultiplier, CeilLog2;
    var ebx := Wrap(d - 1, n);
    var ecx := BitScanReverse(-1, ebx) + 1;
    var power := if code == DoubleWidth then WidePower(n, ecx) else NarrowPower(n, ecx);
    var eax := Div(n, Wrap(power - d, n), d);
    DivisionFits(n, d);
    if d > 0 {
      SetupWord(n, d);
      UnsignedMultiplierFits(n, d);
    }
    if eax.Fault? { return true; }
    var m := Wrap(eax.q + 1, n);
    var shift1 := if ecx >= 1 then 1 else 0;
    var shift2 := if ecx > 1 then (ecx - 1) % 256 else 0;
    buf[0] := seq(k, _ => m);
    buf[1] := [shift1, shift2, 0, 0];
    return false;
  }

  method SetDivisorSignedV(n: nat, k: nat, buf: array<Vec>, d: int) returns (fault: bool)
    requires 2 <= n <= 256 && buf.Length == 2 && -(Pow2(n - 1) as int) <= d < Pow2(n - 1)
    modifies buf
    ensures fault <==> d <= 0
    ensures fault ==> buf[..] == old(buf[..])
    ensures !fault ==> SignedReady(n, k, buf[0], buf[1], d)
  {
    hide Wrap, Div, CeilLog2, SignedMultiplier;
    var ecx := BitScanReverse(-1, Wrap(d - 1, n));
    if d < 0 { return true; }
    ecx := if ecx + 1 < 1 then 0 else ecx;
    var eax := 0;
    SignedSetup(n, d);
    if d != 1 {
      var q := Div(n, Wrap(Pow2(Masked(ecx, n)), n), d);
      if q.Fault? { return true; }
      eax := q.q;
    }
    var m := Wrap(eax + 1, n);
    buf[0] := seq(k, _ => m);
    buf[1] := [ecx, 0, 0, 0];
    return false;
  }

  // ---------------------------------------------------------------- 8 lanes, pmulhw / pmulhuw

  function DivideV8Unsigned(n: nat, mult: Vec, counts: Vec, x: Vec): Vec
    requires |mult| == |x| && |counts| == 4
  {
    seq(|x|, i requires 0 <= i < |x| => FinishU(n, Shr(mult[i] * x[i], n), counts[0], counts[1], x[i]))
  }

  function DivideV8Signed(n: nat, mult: Vec, counts: Vec, x: Vec): Vec
    requires n >= 1 && |mult| == |x| && |counts| == 4 && IsVec(n, mult) && IsVec(n, x)
  {
    seq(|x|, i requires 0 <= i < |x| =>
        FinishI(n, MulHigh(n, mult[i], x[i]), counts[0], x[i]))
  }

  /** Every lane is divided exactly, as the scalar code does, for unsigned words. */
  lemma EachLaneUnsigned(n: nat, d: nat, mult: Vec, counts: Vec, x: Vec, i: nat)
    requires 2 <= n && 1 <= d < Pow2(n) && UnsignedReady(n, |x|, mult, counts, d) && IsVec(n, x) && i < |x|
    ensures DivideV8Unsigned(n, mult, counts, x)[i] == x[i] / d
  {
    hide Shr, Wrap, UnsignedMultiplier, CeilLog2, FinishU, DivideFixedU;
    var m := UnsignedMultiplier(n, d);
    assert mult[i] == m;
    UnsignedMultiplierFits(n, d);
    UnsignedDivisionExact(n, d, x[i]);
    LaneUnsigned(n, m, Shift1(d), Shift2(d), x[i]);
  }

  lemma EachLaneSigned(n: nat, d: nat, mult: Vec, counts: Vec, x: Vec)
    requires 2 <= n && 1 <= d < Pow2(n - 1) && SignedReady(n, |x|, mult, counts, d) && IsVec(n, x)
    ensures IsVec(n, mult)
    ensures QuotientsOf(n, d, DivideV8Signed(n, mult, counts, x), x)
  {
    hide Shr, Wrap, SignedMultiplier, Shift2, DivideFixedI, Pow2, FinishI, MulHigh;
    var m := Wrap(SignedMultiplier(n, d), n);
    var r := DivideV8Signed(n, mult, counts, x);
    SignedMultiplierFits(n, d);
    forall i | 0 <= i < |x| ensures r[i] < Pow2(n) && Signed(r[i], n) == TruncDiv(Signed(x[i], n), d) {
      assert mult[i] == m;
      SignedDivisionExact(n, d, Signed(x[i], n));
      LaneSigned(n, m, Shift2(d), x[i]);
      FinishFits(n, MulHigh(n, m, x[i]), Shift2(d), x[i]);
    }
  }

  /** r holds, lane by lane, the signed lanes of x divided by d and truncated toward zero. */
  ghost predicate QuotientsOf(n: nat, d: nat, r: Vec, x: Vec)
    requires n >= 1 && d >= 1 && IsVec(n, x)
  {
    && |r| == |x| && IsVec(n, r)
    && forall i | 0 <= i < |x| :: Signed(r[i], n) == TruncDiv(Signed(x[i], n), d)
  }

  lemma FinishFits(n: nat, high: nat, count: nat, x: nat)
    requires n >= 1 && x < Pow2(n)
    ensures FinishI(n, high, count, x) < Pow2(n)
  {
    hide Psra, Wrap;
  }

  // ---------------------------------------------------------------- 4 lanes: even and odd products

  /** `pmuludq`/`pmuldq`: two double-width products of lanes 0 and 2, each stored as two lanes. */
  function EvenProducts(n: nat, p0: int, p2: int): Vec {
    [Wrap(p0, n), Wrap(Shr(p0, n), n), Wrap(p2, n), Wrap(Shr(p2, n), n)]
  }

  /** `psrlq n`: each double lane moves its high lane down. */
  function HighDown(v: Vec): Vec
    requires |v| == 4
  {
    [v[1], 0, v[3], 0]
  }

  /** `psllq n`: each double lane moves its low lane up. */
  function LowUp(v: Vec): Vec
    requires |v| == 4
  {
    [0, v[0], 0, v[2]]
  }

  function BitAnd(n: nat, a: nat, b: nat): nat {
    if n == 0 then 0 else 2 * BitAnd(n - 1, a / 2, b / 2) + a % 2 * (b % 2)
  }

  function BitOr(n: nat, a: nat, b: nat): nat {
    if n == 0 then 0 else 2 * BitOr(n - 1, a / 2, b / 2) + if a % 2 + b % 2 > 0 then 1 else 0
  }

  function Pand(n: nat, a: Vec, b: Vec): Vec
    requires |a| == |b|
  {
    seq(|a|, i requires 0 <= i < |a| => BitAnd(n, a[i], b[i]))
  }

  function Por(n: nat, a: Vec, b: Vec): Vec
    requires |a| == |b|
  {
    seq(|a|, i requires 0 <= i < |a| => BitOr(n, a[i], b[i]))
  }

  /** The high halves of four products from two even-lane multiplications. `q` holds the products
      of lanes 0 and 2, `r` those of lanes 1 and 3. */
  function Interleave(n: nat, q: Vec, r: Vec): Vec
    requires |q| == |r| == 4
  {
    var ones := Pow2(n) - 1;
    var mask := LowUp([ones, ones, ones, ones]);
    Por(n, HighDown(q), Pand(n, r, mask))
  }

  lemma {:induction false} BitFacts(n: nat, a: nat)
    requires a < Pow2(n)
    ensures BitAnd(n, a, Pow2(n) - 1) == a && BitAnd(n, a, 0) == 0
    ensures BitOr(n, a, 0) == a && BitOr(n, 0, a) == a
  {
    if n > 0 { BitFacts(n - 1, a / 2); }
  }

  /** The mask and the OR recombine the two multiplications into the four high halves, in order. */
  lemma InterleavesHighHalves(n: nat, p0: int, p1: int, p2: int, p3: int)
    ensures Interleave(n, EvenProducts(n, p0, p2), EvenProducts(n, p1, p3))
         == [Wrap(Shr(p0, n), n), Wrap(Shr(p1, n), n), Wrap(Shr(p2, n), n), Wrap(Shr(p3, n), n)]
  {
    hide Shr, Wrap, BitAnd, BitOr, Pow2;
    BitFacts(n, 0);
    BitFacts(n, Wrap(Shr(p0, n), n));
    BitFacts(n, Wrap(Shr(p1, n), n));
    BitFacts(n, Wrap(Shr(p2, n), n));
    BitFacts(n, Wrap(Shr(p3, n), n));
    BitFacts(n, Wrap(p1, n));
    BitFacts(n, Wrap(p3, n));
  }

  function DivideV4Unsigned(n: nat, mult: Vec, counts: Vec, x: Vec): Vec
    requires |mult| == |x| == |counts| == 4
  {
    var odd := HighDown(x);
    var high := Interleave(n, EvenProducts(n, x[0] * mult[0], x[2] * mult[2]),
                           EvenProducts(n, odd[0] * mult[0], odd[2] * mult[2]));
    seq(4, i requires 0 <= i < 4 => FinishU(n, high[i], counts[0], counts[1], x[i]))
  }

  /** The SSE4.1 version: two `pmuldq`, a mask and an OR. */
  function DivideV4SignedSSE41(n: nat, mult: Vec, counts: Vec, x: Vec): Vec
    requires n >= 1 && |mult| == |x| == |counts| == 4 && IsVec(n, mult) && IsVec(n, x)
  {
    var odd := HighDown(x);
    var m0, m2 := Signed(mult[0], n), Signed(mult[2], n);
    var high := Interleave(n, EvenProducts(n, Signed(x[0], n) * m0, Signed(x[2], n) * m2),
                           EvenProducts(n, Signed(odd[0], n) * m0, Signed(odd[2], n) * m2));
    seq(4, i requires 0 <= i < 4 => FinishI(n, high[i], counts[0], x[i]))
  }

  /** The SSE2 version: four scalar `imul`s overwrite a stack copy of x one lane at a time. For
      every multiplier and every x it computes what the 8-lane `pmulhw` form computes lane by lane. */
  method DivideV4SignedSSE2(n: nat, buf: array<Vec>, x: Vec) returns (r: Vec)
    requires n >= 1 && buf.Length == 2 && |buf[0]| == |buf[1]| == |x| == 4
    requires IsVec(n, buf[0]) && IsVec(n, x)
    ensures var m := buf[0][0]; r == DivideV8Signed(n, [m, m, m, m], buf[1], x)
  {
    hide MulHigh, FinishI, Pow2;
    var stack := new nat[4](i requires 0 <= i < 4 => x[i]);
    var ecx, counts := buf[0][0], buf[1];
    stack[0] := MulHigh(n, ecx, stack[0]);
    stack[1] := MulHigh(n, ecx, stack[1]);
    stack[2] := MulHigh(n, ecx, stack[2]);
    stack[3] := MulHigh(n, ecx, stack[3]);
    var high := stack[..];
    r := seq(4, i requires 0 <= i < 4 => FinishI(n, high[i], counts[0], x[i]));
  }

  /** The lane-interleaving SSE4.1 version equals the four-multiply version, for every broadcast
      multiplier, every count and every x, not only those the setup produces. */
  lemma VersionsAgree(n: nat, m: nat, counts: Vec, x: Vec)
    requires n >= 1 && m < Pow2(n) && |counts| == |x| == 4 && IsVec(n, x)
    ensures DivideV4SignedSSE41(n, [m, m, m, m], counts, x) == DivideV8Signed(n, [m, m, m, m], counts, x)
  {
    hide Shr, Wrap, Pow2, Interleave, FinishI, Signed;
    var s := Signed(m, n);
    InterleavesHighHalves(n, Signed(x[0], n) * s, Signed(x[1], n) * s, Signed(x[2], n) * s, Signed(x[3], n) * s);
    assert forall i | 0 <= i < 4 :: s * Signed(x[i], n) == Signed(x[i], n) * s;
  }

  lemma UnsignedInterleaveAgrees(n: nat, m: nat, counts: Vec, x: Vec)
    requires m < Pow2(n) && |counts| == |x| == 4 && IsVec(n, x)
    ensures DivideV4Unsigned(n, [m, m, m, m], counts, x) == DivideV8Unsigned(n, [m, m, m, m], counts, x)
  {
    hide Shr, Wrap, Pow2, Interleave;
    InterleavesHighHalves(n, x[0] * m, x[1] * m, x[2] * m, x[3] * m);
    forall i | 0 <= i < 4 ensures Wrap(Shr(x[i] * m, n), n) == Shr(m * x[i], n) {
      HighProductFits(n, m, x[i]);
    }
  }

  /** So the four-lane code too divides every unsigned lane exactly. */
  lemma EachOfFourUnsigned(n: nat, d: nat, mult: Vec, counts: Vec, x: Vec, i: nat)
    requires 2 <= n && 1 <= d < Pow2(n) && UnsignedReady(n, 4, mult, counts, d) && |x| == 4 && IsVec(n, x) && i < 4
    ensures DivideV4Unsigned(n, mult, counts, x)[i] == x[i] / d
  {
    hide Pow2, UnsignedMultiplier, DivideV4Unsigned, DivideV8Unsigned;
    var m := UnsignedMultiplier(n, d);
    UnsignedMultiplierFits(n, d);
    assert mult == [m, m, m, m];
    UnsignedInterleaveAgrees(n, m, counts, x);
    EachLaneUnsigned(n, d, mult, counts, x, i);
  }

  lemma HighProductFits(n: nat, m: nat, x: nat)
    requires m < Pow2(n) && x < Pow2(n)
    ensures x * m == m * x && 0 <= Shr(m * x, n) < Pow2(n)
  {
    hide Shr, Wrap, Pow2;
    HighProductBelow(n, m, x);
  }

  lemma ReadyVector(n: nat, mult: Vec, counts: Vec, d: nat)
    requires 2 <= n && 1 <= d < Pow2(n - 1) && SignedReady(n, 4, mult, counts, d)
    ensures |mult| == |counts| == 4 && mult == [mult[0], mult[0], mult[0], mult[0]]
    ensures mult[0] < Pow2(n) && IsVec(n, mult)
  {
    hide SignedMultiplier, Wrap, Pow2;
  }

  // ---------------------------------------------------------------- dispatch

  datatype Target = CpuDispatch | SSE2 | SSE41

  /** dividefixedV4i32: a code pointer that the first call overwrites. */
  class Dispatcher {
    var target: Target

    constructor ()
      ensures target == CpuDispatch
    {
      target := CpuDispatch;
    }

    /** Whatever instruction set the CPU reports and however often it is called, the result is the
        vector of quotients. */
    method Divide(n: nat, buf: array<Vec>, x: Vec, instructionSet: nat, ghost d: nat) returns (r: Vec)
      requires 2 <= n && 1 <= d < Pow2(n - 1) && buf.Length == 2 && |x| == 4 && IsVec(n, x)
      requires SignedReady(n, 4, buf[0], buf[1], d)
      modifies this
      ensures target != CpuDispatch && (old(target) != CpuDispatch ==> target == old(target))
      ensures old(target) == CpuDispatch ==> (target == SSE41 <==> instructionSet > 7)
      ensures QuotientsOf(n, d, r, x)
    {
      hide Pow2, IsVec, SignedReady, QuotientsOf, DivideV8Signed, DivideV4SignedSSE41;
      if target == CpuDispatch {
        target := if instructionSet >= 8 then SSE41 else SSE2;
      }
      ReadyVector(n, buf[0], buf[1], d);
      ghost var m := buf[0][0];
      if target == SSE41 {
        VersionsAgree(n, m, buf[1], x);
        r := DivideV4SignedSSE41(n, buf[0], buf[1], x);
      } else {
        r := DivideV4SignedSSE2(n, buf, x);
      }
      EachLaneSigned(n, d, buf[0], buf[1], x);
    }
  }
}
