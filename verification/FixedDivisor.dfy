/** The scalar entry points of asmlibSrc/divfixedi32.asm and divfixedi64.asm, instruction by
    instruction. Registers are n-bit words (n is 32 in both files; nothing below depends on it),
    the CPU masks a shift count to the register width, `div` faults on a zero divisor or on a
    quotient too big for its register. `buf` is the caller's two-word buffer. */
module FixedDivisor {
  import opened Words
  import opened InvariantDivision

  /** `bsr`: the destination keeps its value when the source is zero. */
  function BitScanReverse(dest: int, src: nat): int {
    if src == 0 then dest else FloorLog2(src)
  }

  /** `div` of hi:0 by d: the quotient, or the divide-error fault. */
  datatype Quotient = Fault | Value(q: nat)

  function Div(n: nat, hi: nat, d: nat): (r: Quotient)
    ensures d == 0 ==> r.Fault?
  {
    if d == 0 then Fault
    else
      var q := Pow2(n) * hi / d;
      DivAtLeast(Pow2(n) * hi, d, 0);
      if q < Pow2(n) then Value(q) else Fault
  }

  /** The shift count the CPU uses in an n-bit register. */
  function Masked(cl: nat, n: nat): (k: nat)
    requires n >= 1
    ensures cl < n ==> k == cl
    ensures cl == n ==> k == 0
  {
    cl % n
  }

  // ---------------------------------------------------------------- dividing

  /** Shift 1 is the low byte of the second word and shift 2 the next byte. */
  function DivideFixedUnsigned(n: nat, buf0: nat, buf1: nat, x: nat): nat
    requires n >= 1
  {
    var edx := Shr(buf0 * x, n);
    var eax := Shr(Wrap(x - edx, n), Masked(buf1 % 256, n));
    Shr(Wrap(eax + edx, n), Masked(buf1 / 256 % 256, n))
  }

  function DivideFixedSigned(n: nat, buf0: nat, buf1: nat, x: int): int
    requires n >= 1 && buf0 < Pow2(n) && -(Pow2(n - 1) as int) <= x < Pow2(n - 1)
  {
    var edx := Wrap(Shr(Signed(buf0, n) * x, n), n);
    var eax := Wrap(edx + Wrap(x, n), n);
    var shifted := Shr(Signed(eax, n), Masked(buf1 % 256, n));
    Signed(Wrap(shifted - Shr(x, n - 1), n), n)
  }

  // ---------------------------------------------------------------- unsigned setup

  /** The 32-bit code shifts 1 by cl = L, which the CPU masks, and repairs L = n with cmp/adc. */
  function NarrowPower(n: nat, l: nat): nat
    requires n >= 1
  {
    Wrap(Wrap(Pow2(Masked(l, n)), n) + (Pow2(n) - 1) + (if l < n then 1 else 0), n)
  }

  /** The 64-bit code shifts in a register twice as wide and keeps the low half. */
  function WidePower(n: nat, l: nat): nat
    requires n >= 1
  {
    Wrap(Wrap(Pow2(Masked(l, 2 * n)), 2 * n), n)
  }

  /** The cmp/adc repair agrees with the wide shift, and both give 2^L with 2^n overflowing to 0. */
  lemma OverflowFix(n: nat, l: nat)
    requires n >= 1 && l <= n
    ensures NarrowPower(n, l) == WidePower(n, l) == Wrap(Pow2(l), n)
    ensures Wrap(Pow2(l), n) == if l < n then Pow2(l) else 0
  {
    hide Wrap, Masked, Pow2;
    Pow2Strict(l, 2 * n);
    if l < n {
      Pow2Strict(l, n);
      WrapShift(Pow2(l), n, 1);
    } else {
      FirstPower();
      Pow2Strict(0, n);
      WrapShift(0, n, 1);
    }
  }

  lemma Pow2Strict(a: nat, b: nat)
    requires a < b
    ensures Pow2(a) < Pow2(b)
  {
    Pow2Monotone(a + 1, b);
    DoublePower(a + 1);
  }

  /** The tail both unsigned setups share: div, inc, store, and the two packed shift counts. */
  method StoreUnsigned(n: nat, buf: array<nat>, hi: nat, l: nat, d: nat) returns (fault: bool)
    requires buf.Length == 2 && 2 <= n <= 256 && d < Pow2(n)
    requires d > 0 ==> l == CeilLog2(d) && hi == Excess(d)
    modifies buf
    ensures fault <==> d == 0
    ensures fault ==> buf[..] == old(buf[..])
    ensures !fault ==> buf[0] < Pow2(n) && Divides(n, buf[0], buf[1], d)
  {
    hide Wrap, Div, Divides, UnsignedMultiplier, CeilLog2;
    var eax := Div(n, hi, d);
    DivisionFits(n, d);
    if eax.Fault? {
      return true;
    }
    buf[0] := Wrap(eax.q + 1, n);
    // sub ecx, 1 / setae dl / seta al / neg al / and al, cl
    var dl := if l >= 1 then 1 else 0;
    var al := if l > 1 then (l - 1) % 256 else 0;
    buf[1] := al * 256 + dl;
    DividesExactly(n, buf[0], buf[1], d);
    return false;
  }

  ghost predicate Divides(n: nat, buf0: nat, buf1: nat, d: nat)
    requires n >= 1 && d > 0
  {
    forall x: nat | x < Pow2(n) :: DivideFixedUnsigned(n, buf0, buf1, x) == x / d
  }

  lemma DivisionFits(n: nat, d: nat)
    requires n >= 1 && d < Pow2(n)
    ensures d > 0 ==> CeilLog2(d) <= n && Div(n, Excess(d), d) == Value(UnsignedMultiplier(n, d) - 1)
    ensures d > 0 ==> Wrap(UnsignedMultiplier(n, d), n) == UnsignedMultiplier(n, d)
  {
    hide Wrap;
    if d > 0 { UnsignedMultiplierFits(n, d); }
  }

  /** 2^L - d, the high half of the dividend. */
  function Excess(d: nat): nat
    requires d > 0
  {
    Pow2(CeilLog2(d)) - d
  }

  lemma DividesExactly(n: nat, buf0: nat, buf1: nat, d: nat)
    requires 2 <= n <= 256 && 0 < d < Pow2(n)
    requires buf0 == UnsignedMultiplier(n, d) && buf1 == Shift2(d) % 256 * 256 + Shift1(d)
    ensures Divides(n, buf0, buf1, d)
  {
    hide Wrap, Shr, UnsignedMultiplier, CeilLog2, DivideFixedU;
    forall x: nat | x < Pow2(n) ensures DivideFixedUnsigned(n, buf0, buf1, x) == x / d {
      UnsignedMultiplierFits(n, d);
      UnsignedDivisionExact(n, d, x);
      PackedShifts(n, Shift1(d), Shift2(d), buf0, x);
    }
  }

  lemma Unpack(sh1: nat, sh2: nat)
    requires sh1 <= 1 && sh2 < 256
    ensures (sh2 % 256 * 256 + sh1) % 256 == sh1 && (sh2 % 256 * 256 + sh1) / 256 % 256 == sh2
  {
  }

  lemma PackedShifts(n: nat, sh1: nat, sh2: nat, m: nat, x: nat)
    requires 2 <= n <= 256 && sh1 <= 1 && sh2 < n
    ensures DivideFixedUnsigned(n, m, sh2 % 256 * 256 + sh1, x) == DivideFixedU(n, m, sh1, sh2, x)
  {
    hide Wrap, Shr, Masked, Pow2;
    Unpack(sh1, sh2);
  }

  /** asmlibSrc/divfixedi32.asm: after setup, dividefixedu32 divides every x exactly; the one
      divisor it refuses is zero. */
  method SetDivisorUnsigned(n: nat, buf: array<nat>, d: nat) returns (fault: bool)
    requires buf.Length == 2 && 2 <= n <= 256 && d < Pow2(n)
    modifies buf
    ensures fault <==> d == 0
    ensures fault ==> buf[..] == old(buf[..])
    ensures !fault ==> buf[0] < Pow2(n) && Divides(n, buf[0], buf[1], d)
  {
    hide Wrap, Divides, NarrowPower, CeilLog2;
    var ebx := Wrap(d - 1, n);
    var ecx := BitScanReverse(-1, ebx) + 1;
    var edx := Wrap(NarrowPower(n, ecx) - d, n);
    if d > 0 { SetupWord(n, d); }
    fault := StoreUnsigned(n, buf, edx, ecx, d);
  }

  /** asmlibSrc/divfixedi64.asm: the same promise with the wide shift. */
  method SetDivisorUnsignedWide(n: nat, buf: array<nat>, d: nat) returns (fault: bool)
    requires buf.Length == 2 && 2 <= n <= 256 && d < Pow2(n)
    modifies buf
    ensures fault <==> d == 0
    ensures fault ==> buf[..] == old(buf[..])
    ensures !fault ==> buf[0] < Pow2(n) && Divides(n, buf[0], buf[1], d)
  {
    hide Wrap, Divides, WidePower, CeilLog2;
    var rxd := Wrap(d - 1, n);
    var ecx := BitScanReverse(-1, rxd) + 1;
    var edx := Wrap(WidePower(n, ecx) - d, n);
    if d > 0 { SetupWord(n, d); }
    fault := StoreUnsigned(n, buf, edx, ecx, d);
  }

  /** Both ways of building 2^L - d leave that very number, also when 2^L itself overflows. */
  lemma SetupWord(n: nat, d: nat)
    requires n >= 1 && 0 < d < Pow2(n)
    ensures BitScanReverse(-1, Wrap(d - 1, n)) + 1 == CeilLog2(d) <= n
    ensures Wrap(NarrowPower(n, CeilLog2(d)) - d, n) == Pow2(CeilLog2(d)) - d
    ensures Wrap(WidePower(n, CeilLog2(d)) - d, n) == Pow2(CeilLog2(d)) - d
  {
    hide Wrap, NarrowPower, WidePower;
    var l := CeilLog2(d);
    UnsignedMultiplierFits(n, d);
    OverflowFix(n, l);
    WrapSum(Pow2(l), -(d as int), n);
  }

  // ---------------------------------------------------------------- signed setup

  ghost predicate DividesSigned(n: nat, buf0: nat, buf1: nat, d: nat)
    requires n >= 1 && d > 0 && buf0 < Pow2(n)
  {
    forall x: int | -(Pow2(n - 1) as int) <= x < Pow2(n - 1) ::
      DivideFixedSigned(n, buf0, buf1, x) == TruncDiv(x, d)
  }

  /** Both files share the signed setup: every positive divisor is then divided by exactly, with
      truncation toward zero, and every other divisor faults. */
  method SetDivisorSigned(n: nat, buf: array<nat>, d: int) returns (fault: bool)
    requires buf.Length == 2 && 2 <= n <= 256 && -(Pow2(n - 1) as int) <= d < Pow2(n - 1)
    modifies buf
    ensures fault <==> d <= 0
    ensures fault ==> buf[..] == old(buf[..])
    ensures !fault ==> buf[0] < Pow2(n) && DividesSigned(n, buf[0], buf[1], d)
  {
    hide Wrap, DividesSigned, Div, CeilLog2, SignedMultiplier;
    var ebx := Wrap(d - 1, n);
    var ecx := BitScanReverse(-1, ebx);
    if d < 0 { return true; }
    // inc ecx / sub ecx, 1 / adc ecx, 0
    ecx := if ecx + 1 < 1 then 0 else ecx;
    var eax := 0;
    SignedSetup(n, d);
    if d != 1 {
      var q := Div(n, Wrap(Pow2(Masked(ecx, n)), n), d);
      if q.Fault? { return true; }
      eax := q.q;
    }
    buf[0] := Wrap(eax + 1, n);
    buf[1] := ecx;
    DividesExactlySigned(n, buf[0], buf[1], d);
    return false;
  }

  lemma SignedSetup(n: nat, d: nat)
    requires n >= 2 && d < Pow2(n - 1)
    ensures BitScanReverse(-1, Wrap(d - 1, n)) >= -1
    ensures d == 0 ==> forall hi: nat :: Div(n, hi, d).Fault?
    ensures d > 0 ==> BitScanReverse(-1, Wrap(d - 1, n)) + 1 == CeilLog2(d)
    ensures d > 0 ==> Shift2(d) < n
    ensures d > 1 ==> Div(n, Wrap(Pow2(Masked(Shift2(d), n)), n), d) == Value(SignedMultiplier(n, d) - 1)
    ensures d == 1 ==> Wrap(SignedMultiplier(n, d), n) == Wrap(1, n)
  {
    hide Wrap, Masked;
    if d > 0 {
      SignedMultiplierFits(n, d);
      Pow2Monotone(Shift2(d) + 1, n);
      Pow2Sum(n, Shift2(d));
      WrapShift(1, n, 1);
    }
  }

  lemma DividesExactlySigned(n: nat, buf0: nat, buf1: nat, d: nat)
    requires 2 <= n <= 256 && 0 < d < Pow2(n - 1)
    requires buf0 == Wrap(SignedMultiplier(n, d), n) && buf1 == Shift2(d)
    ensures DividesSigned(n, buf0, buf1, d)
  {
    hide Wrap, Shr, SignedMultiplier, Shift2, DivideFixedSigned, DivideFixedI;
    SignedMultiplierFits(n, d);
    forall x: int | -(Pow2(n - 1) as int) <= x < Pow2(n - 1)
      ensures DivideFixedSigned(n, buf0, buf1, x) == TruncDiv(x, d)
    {
      SignedDivisionExact(n, d, x);
      SameRegisters(n, buf0, buf1, x);
    }
  }

  /** The sign is taken with `sar n-1`, and the sum is wrapped one register at a time. */
  lemma SameRegisters(n: nat, m: nat, sh: nat, x: int)
    requires 1 <= n <= 256 && m < Pow2(n) && sh < n && -(Pow2(n - 1) as int) <= x < Pow2(n - 1)
    ensures DivideFixedSigned(n, m, sh, x) == DivideFixedI(n, m, sh, x)
  {
    hide Wrap, Shr, Masked, Pow2, Signed;
    var high := Shr(Signed(m, n) * x, n);
    WrapSum(high, Wrap(x, n), n);
    WrapSum(x, high, n);
    assert Wrap(Wrap(high, n) + Wrap(x, n), n) == Wrap(high + x, n);
    assert Masked(sh % 256, n) == sh;
    SignBit(n, x);
  }

  lemma SignBit(n: nat, x: int)
    requires n >= 1 && -(Pow2(n - 1) as int) <= x < Pow2(n - 1)
    ensures Shr(x, n - 1) == if x < 0 then -1 else 0
  {
    ShrIsDiv(x, n - 1);
    DivUnique(x, Pow2(n - 1), if x < 0 then -1 else 0);
  }
}
