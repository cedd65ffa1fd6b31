/** The process's code bytes, and the two routines that write and follow jumps:
    EmitJump and SkipJumps (tmemutil-3rd/src/mhook-lib/mhook.c). */
module CodeMemory {
  import opened Wrappers
  import opened X86
  import Words

  type Memory = int -> byte

  /** The byte stream a pointer sees. */
  function At(m: Memory, a: int): Stream { (i: nat) => m(a + i) }

  function Write(m: Memory, a: int, b: seq<byte>): Memory {
    (x: int) => if a <= x < a + |b| then b[x - a] else m(x)
  }

  lemma WriteTwice(m: Memory, a: int, b: seq<byte>, c: seq<byte>)
    ensures forall x: int :: Write(Write(m, a, b), a + |b|, c)(x) == Write(m, a, b + c)(x)
  {
  }

  lemma WriteThrice(m: Memory, a: int, b: seq<byte>, c: seq<byte>, d: seq<byte>)
    ensures forall x: int :: Write(Write(Write(m, a, b), a + |b|, c), a + |b| + |c|, d)(x) == Write(m, a, b + c + d)(x)
  {
  }

  /** The n bytes of v, low byte first. */
  function Bytes(v: int, n: nat): (b: seq<byte>)
    ensures |b| == n
    decreases n
  {
    if n == 0 then [] else [(v % 256) as byte] + Bytes(v / 256, n - 1)
  }

  /** The bytes b lie at offset i of the stream. */
  ghost predicate Holds(s: Stream, i: nat, b: seq<byte>) {
    forall j: nat | i <= j < i + |b| :: s(j) == b[j - i]
  }

  lemma {:induction false} LeOfBytes(s: Stream, i: nat, v: int, n: nat)
    requires Holds(s, i, Bytes(v, n))
    ensures Le(s, i, n) == v % Range(n)
    decreases n
  {
    if n > 0 {
      var b := Bytes(v, n);
      assert Bytes(v / 256, n - 1) == b[1..];
      assert s(i) == b[0];
      LeOfBytes(s, i + 1, v / 256, n - 1);
      ModBySteps(v, Range(n - 1));
    }
  }

  lemma ModBySteps(v: int, r: int)
    requires r > 0
    ensures v % (256 * r) == v % 256 + 256 * (v / 256 % r)
  {
    Words.DivBounds(v / 256, r);
    Words.Associate(v / 256 / r, 256, r);
    Words.DivUnique(v, 256 * r, v / 256 / r);
  }

  lemma LeBound(s: Stream, i: nat, n: nat)
    ensures Le(s, i, n) < Range(n)
    decreases n
  {
    if n > 0 { LeBound(s, i + 1, n - 1); }
  }

  lemma {:induction false} SameBytesSameField(s: Stream, i: nat, t: Stream, n: nat)
    requires forall j: nat | i <= j < i + n :: s(j) == t(j)
    ensures Le(s, i, n) == Le(t, i, n)
    decreases n
  {
    if n > 0 { SameBytesSameField(s, i + 1, t, n - 1); }
  }

  lemma Ranges()
    ensures Range(1) == 0x100 && Range(4) == TWO32 && Range(8) == TWO32 * TWO32
  {
    assert Range(2) == 0x1_0000;
    assert Range(3) == 0x100_0000;
    assert Range(4) == TWO32;
    assert Range(5) == TWO32 * 0x100;
    assert Range(6) == TWO32 * 0x1_0000;
    assert Range(7) == TWO32 * 0x100_0000;
  }

  /** A signed n-byte field that was written from a value in range reads back as that value. */
  lemma SignedField(s: Stream, i: nat, v: int, n: nat)
    requires Holds(s, i, Bytes(v, n))
    requires -(Range(n) as int) <= 2 * v < Range(n)
    ensures SignedLe(s, i, n) == v
  {
    LeOfBytes(s, i, v, n);
    var r := Range(n);
    if v < 0 { Words.DivUnique(v, r, -1); } else { Words.DivUnique(v, r, 0); }
  }

  // ---------------------------------------------------------------- jumps

  /** Pointers are 8 bytes on x64 and 4 on x86. */
  function PointerBytes(arch: Arch): nat { if arch.X64? then 8 else 4 }

  function Pointer(arch: Arch, m: Memory, a: int): int { Le(At(m, a), 0, PointerBytes(arch)) }

  /** A pointer sum, which wraps at the pointer width. */
  function Add(arch: Arch, a: int, d: int): int { (a + d) % Range(PointerBytes(arch)) }

  const NEAR: int := 0x7fff0000

  function Distance(a: int, b: int): nat { if a > b then a - b else b - a }

  /** Whether EmitJump uses the 5-byte form. */
  predicate IsNear(code: int, target: int) { Distance(code + 5, target) <= NEAR }

  /** The bytes EmitJump writes. */
  function JumpBytes(arch: Arch, code: int, target: int): seq<byte> {
    if IsNear(code, target) then [0xE9] + Bytes(target - (code + 5), 4)
    else [0xFF, 0x25] + Bytes(if arch.X64? then 0 else code + 6, 4) + Bytes(target, PointerBytes(arch))
  }

  /** Code bytes that can be overwritten. */
  class CodeSpace {
    var mem: Memory

    constructor (mem: Memory)
      ensures this.mem == mem
    {
      this.mem := mem;
    }

    method Store(a: int, b: seq<byte>)
      modifies this
      ensures mem == Write(old(mem), a, b)
    {
      mem := Write(mem, a, b);
    }

    /** Writes a jump from pbCode to pbJumpTo, in 5 bytes when that reaches, and returns the end. */
    method EmitJump(arch: Arch, pbCode: int, pbJumpTo: int) returns (next: int)
      modifies this
      ensures next == pbCode + |JumpBytes(arch, pbCode, pbJumpTo)|
      ensures forall x: int :: mem(x) == Write(old(mem), pbCode, JumpBytes(arch, pbCode, pbJumpTo))(x)
    {
      hide Write, Bytes;
      ghost var was := mem;
      next := pbCode;
      var pbJumpFrom := pbCode + 5;
      var cbDiff := if pbJumpFrom > pbJumpTo then pbJumpFrom - pbJumpTo else pbJumpTo - pbJumpFrom;
      if cbDiff <= 0x7fff0000 {
        Store(next, [0xE9]);
        next := next + 1;
        Store(next, Bytes(pbJumpTo - pbJumpFrom, 4));
        next := next + 4;
        WriteTwice(was, pbCode, [0xE9], Bytes(pbJumpTo - pbJumpFrom, 4));
      } else {
        Store(next, [0xFF, 0x25]);
        next := next + 2;
        Store(next, Bytes(if arch.X64? then 0 else next + 4, 4));
        next := next + 4;
        Store(next, Bytes(pbJumpTo, PointerBytes(arch)));
        next := next + PointerBytes(arch);
        ghost var field := Bytes(if arch.X64? then 0 else pbCode + 6, 4);
        WriteThrice(was, pbCode, [0xFF, 0x25], field, Bytes(pbJumpTo, PointerBytes(arch)));
      }
    }
  }

  /** Where the code at p jumps, looking through the x86 hot-patch and stack-frame idioms. */
  function JumpStep(arch: Arch, m: Memory, p: int): Option<int> {
    var q := if !arch.X64? && m(p) == 0x8B && m(p + 1) == 0xFF then p + 2 else p;
    var frame := !arch.X64? && m(q) == 0x55 && m(q + 1) == 0x8B && m(q + 2) == 0xEC && m(q + 3) == 0x5D;
    var q := if frame then q + 4 else q;
    var s := At(m, q);
    if s(0) == 0xFF && s(1) == 0x25 then
      if arch.X64? then Some(Pointer(arch, m, Add(arch, q, 6 + SignedLe(s, 2, 4))))
      else Some(Pointer(arch, m, Le(s, 2, 4)))
    else if arch.X64? && s(0) == 0x48 && s(1) == 0xFF && s(2) == 0x25 then
      Some(Pointer(arch, m, Add(arch, q, 7 + SignedLe(s, 3, 4))))
    else if s(0) == 0xE9 then Some(Add(arch, q, 5 + SignedLe(s, 1, 4)))
    else if s(0) == 0xEB then Some(Add(arch, q, 2 + SignedLe(s, 1, 1)))
    else None
  }

  /** SkipJumps on chains of at most `fuel` jumps; None for longer ones, such as cycles. */
  function SkipJumps(arch: Arch, m: Memory, p: int, fuel: nat): Option<int>
    decreases fuel
  {
    match JumpStep(arch, m, p)
    case None => Some(p)
    case Some(t) => if fuel == 0 then None else SkipJumps(arch, m, t, fuel - 1)
  }

  lemma NearJump(arch: Arch, m: Memory, p: int, t: int)
    requires IsNear(p, t) && 0 <= t < Range(PointerBytes(arch)) && Holds(At(m, p), 0, JumpBytes(arch, p, t))
    ensures m(p) == 0xE9 && Add(arch, p, 5 + SignedLe(At(m, p), 1, 4)) == t
  {
    hide Le, Bytes, Range, SignedLe;
    var s, b := At(m, p), JumpBytes(arch, p, t);
    Ranges();
    assert s(0) == b[0] && Bytes(t - (p + 5), 4) == b[1..];
    SignedField(s, 1, t - (p + 5), 4);
    Words.DivUnique(t, Range(PointerBytes(arch)), 0);
  }

  lemma FarJump(arch: Arch, m: Memory, p: int, t: int)
    requires !IsNear(p, t) && 0 <= t < Range(PointerBytes(arch)) && Holds(At(m, p), 0, JumpBytes(arch, p, t))
    requires 0 <= p && p + 14 <= Range(PointerBytes(arch))
    ensures m(p) == 0xFF && m(p + 1) == 0x25
    ensures Le(At(m, p), 2, 4) == (if arch.X64? then 0 else (p + 6) % TWO32)
    ensures Pointer(arch, m, p + 6) == t && (p + 6) % Range(PointerBytes(arch)) == p + 6
  {
    hide Le, Bytes, Range;
    var s, b := At(m, p), JumpBytes(arch, p, t);
    var v, n := if arch.X64? then 0 else p + 6, PointerBytes(arch);
    Ranges();
    assert s(0) == b[0] && s(1) == b[1];
    assert Bytes(v, 4) == b[2..6] && Bytes(t, n) == b[6..];
    LeOfBytes(s, 2, v, 4);
    forall j: nat | j < n ensures At(m, p + 6)(j) == Bytes(t, n)[j] {
      assert s(6 + j) == b[6 + j];
    }
    LeOfBytes(At(m, p + 6), 0, t, n);
    Words.DivUnique(t, Range(n), 0);
    Words.DivUnique(p + 6, Range(n), 0);
  }

  /** A jump is followed to its target, in both forms and both modes. */
  lemma EmittedJumpIsFollowed(arch: Arch, m: Memory, p: int, t: int)
    requires arch.X64? || arch.X86_32?
    requires 0 <= p && p + 14 <= Range(PointerBytes(arch)) && 0 <= t < Range(PointerBytes(arch))
    requires Holds(At(m, p), 0, JumpBytes(arch, p, t))
    ensures JumpStep(arch, m, p) == Some(t)
  {
    hide Le, JumpBytes, Range, IsNear, Holds;
    Ranges();
    if IsNear(p, t) { NearJump(arch, m, p, t); } else { FarJump(arch, m, p, t); }
  }

  // ---------------------------------------------------------------- the jumps by their bytes

  /** A pointer that the mode can hold. */
  predicate IsPointer(arch: Arch, a: int) { 0 <= a < if arch.X64? then TWO32 * TWO32 else TWO32 }

  /** EB and an offset of one byte from the end of the jump. */
  lemma ShortJump(arch: Arch, m: Memory, p: int, t: int)
    requires IsPointer(arch, t) && -0x80 <= t - (p + 2) < 0x80
    requires Holds(At(m, p), 0, [0xEB] + Bytes(t - (p + 2), 1))
    ensures JumpStep(arch, m, p) == Some(t)
  {
    hide Le, Bytes, Range, SignedLe;
    var s, b := At(m, p), [0xEB] + Bytes(t - (p + 2), 1);
    Ranges();
    assert s(0) == b[0] && Bytes(t - (p + 2), 1) == b[1..];
    SignedField(s, 1, t - (p + 2), 1);
    Words.DivUnique(t, Range(PointerBytes(arch)), 0);
  }

  /** E9 and an offset of four bytes. */
  lemma LongJump(arch: Arch, m: Memory, p: int, t: int)
    requires IsPointer(arch, t) && -0x8000_0000 <= t - (p + 5) < 0x8000_0000
    requires Holds(At(m, p), 0, [0xE9] + Bytes(t - (p + 5), 4))
    ensures JumpStep(arch, m, p) == Some(t)
  {
    hide Le, Bytes, Range, SignedLe;
    var s, b := At(m, p), [0xE9] + Bytes(t - (p + 5), 4);
    Ranges();
    assert s(0) == b[0] && Bytes(t - (p + 5), 4) == b[1..];
    SignedField(s, 1, t - (p + 5), 4);
    Words.DivUnique(t, Range(PointerBytes(arch)), 0);
  }

  /** FF 25, in 64-bit mode with the distance of the pointer from the end of the jump, behind a REX.W or not. */
  lemma IndirectJump(m: Memory, p: int, rex: bool, a: int, t: int)
    requires IsPointer(X64, t) && IsPointer(X64, a) && Holds(At(m, a), 0, Bytes(t, 8))
    requires var next := p + if rex then 7 else 6;
      && -0x8000_0000 <= a - next < 0x8000_0000
      && Holds(At(m, p), 0, (if rex then [0x48, 0xFF, 0x25] else [0xFF, 0x25]) + Bytes(a - next, 4))
    ensures JumpStep(X64, m, p) == Some(t)
  {
    hide Le, Bytes, Range, SignedLe;
    var next := p + if rex then 7 else 6;
    var s, head := At(m, p), if rex then [0x48, 0xFF, 0x25] else [0xFF, 0x25];
    var b := head + Bytes(a - next, 4);
    Ranges();
    assert s(0) == b[0] && s(1) == b[1] && (rex ==> s(2) == b[2]);
    assert Bytes(a - next, 4) == b[|head|..];
    SignedField(s, |head|, a - next, 4);
    Words.DivUnique(a, Range(8), 0);
    LeOfBytes(At(m, a), 0, t, 8);
    Words.DivUnique(t, Range(8), 0);
  }

  /** FF 25, in 32-bit mode with the pointer's address. */
  lemma IndirectJump32(m: Memory, p: int, a: int, t: int)
    requires IsPointer(X86_32, t) && IsPointer(X86_32, a) && Holds(At(m, a), 0, Bytes(t, 4))
    requires Holds(At(m, p), 0, [0xFF, 0x25] + Bytes(a, 4))
    ensures JumpStep(X86_32, m, p) == Some(t)
  {
    hide Le, Bytes, Range, SignedLe;
    var s, b := At(m, p), [0xFF, 0x25] + Bytes(a, 4);
    Ranges();
    assert s(0) == b[0] && s(1) == b[1] && Bytes(a, 4) == b[2..];
    LeOfBytes(s, 2, a, 4);
    Words.DivUnique(a, Range(4), 0);
    LeOfBytes(At(m, a), 0, t, 4);
    Words.DivUnique(t, Range(4), 0);
  }

  /** From p the code leads to q through nothing but the 32-bit idioms: mov edi, edi; then push ebp; mov ebp, esp;
      pop ebp. */
  predicate IdiomLeads(arch: Arch, m: Memory, p: int, q: int) {
    || q == p
    || (arch.X86_32? && q == p + 2 && m(p) == 0x8B && m(p + 1) == 0xFF)
    || (arch.X86_32? && q == p + 4 && m(p) == 0x55 && m(p + 1) == 0x8B && m(p + 2) == 0xEC && m(p + 3) == 0x5D)
    || (arch.X86_32? && q == p + 6 && m(p) == 0x8B && m(p + 1) == 0xFF
        && m(p + 2) == 0x55 && m(p + 3) == 0x8B && m(p + 4) == 0xEC && m(p + 5) == 0x5D)
  }

  /** One of the jumps above starts at q. */
  predicate JumpAt(arch: Arch, m: Memory, q: int) {
    || m(q) == 0xE9 || m(q) == 0xEB || (m(q) == 0xFF && m(q + 1) == 0x25)
    || (arch.X64? && m(q) == 0x48 && m(q + 1) == 0xFF && m(q + 2) == 0x25)
  }

  /** An idiom in front of a jump leads where the jump leads. */
  lemma IdiomIsSkipped(arch: Arch, m: Memory, p: int, q: int)
    requires arch.X64? || arch.X86_32?
    requires IdiomLeads(arch, m, p, q) && JumpAt(arch, m, q)
    ensures JumpStep(arch, m, p) == JumpStep(arch, m, q)
  {
    hide SignedLe, Le, Pointer, Add;
  }

  /** And there is no other jump. */
  lemma NoOtherJump(arch: Arch, m: Memory, p: int)
    requires arch.X64? || arch.X86_32?
    ensures JumpStep(arch, m, p).Some? <==> exists q :: IdiomLeads(arch, m, p, q) && JumpAt(arch, m, q)
  {
    hide SignedLe, Le, Pointer, Add;
    assert IdiomLeads(arch, m, p, p);
    if JumpStep(arch, m, p).Some? {
      var skip := if arch.X86_32? && m(p) == 0x8B && m(p + 1) == 0xFF then p + 2 else p;
      var frame := arch.X86_32? && m(skip) == 0x55 && m(skip + 1) == 0x8B && m(skip + 2) == 0xEC && m(skip + 3) == 0x5D;
      assert IdiomLeads(arch, m, p, if frame then skip + 4 else skip);
    }
  }

  /** SkipJumps undoes EmitJump: after the jump is written, following jumps from p leads wherever
      following them from its target leads. */
  lemma SkipJumpsUndoesEmitJump(arch: Arch, m: Memory, p: int, t: int, fuel: nat)
    requires arch.X64? || arch.X86_32?
    requires 0 <= p && p + 14 <= Range(PointerBytes(arch)) && 0 <= t < Range(PointerBytes(arch))
    ensures var after := Write(m, p, JumpBytes(arch, p, t));
      SkipJumps(arch, after, p, fuel + 1) == SkipJumps(arch, after, t, fuel)
  {
    EmittedJumpIsFollowed(arch, Write(m, p, JumpBytes(arch, p, t)), p, t);
  }

  /** More fuel never changes the end of a chain, so that end is a property of the code alone. */
  lemma {:induction false} FuelIrrelevant(arch: Arch, m: Memory, p: int, fuel: nat, more: nat)
    requires SkipJumps(arch, m, p, fuel).Some? && fuel <= more
    ensures SkipJumps(arch, m, p, more) == SkipJumps(arch, m, p, fuel)
    decreases fuel
  {
    match JumpStep(arch, m, p)
    case None =>
    case Some(t) => FuelIrrelevant(arch, m, t, fuel - 1, more - 1);
  }

  /** Where the chain ends no jump starts, with or without an idiom in front of it. */
  lemma {:induction false} ChainEndIsCode(arch: Arch, m: Memory, p: int, fuel: nat)
    requires arch.X64? || arch.X86_32?
    requires SkipJumps(arch, m, p, fuel).Some?
    ensures var end := SkipJumps(arch, m, p, fuel).value;
      forall q | IdiomLeads(arch, m, end, q) :: !JumpAt(arch, m, q)
    decreases fuel
  {
    hide JumpStep, JumpAt, IdiomLeads;
    match JumpStep(arch, m, p)
    case None => NoOtherJump(arch, m, p);
    case Some(t) => ChainEndIsCode(arch, m, t, fuel - 1);
  }

  /** The chain is made of jumps: a place that none starts at is its own end, and a jump's chain ends where its
      target's does. */
  lemma ChainStep(arch: Arch, m: Memory, p: int, fuel: nat)
    requires arch.X64? || arch.X86_32?
    ensures (forall q | IdiomLeads(arch, m, p, q) :: !JumpAt(arch, m, q)) ==> SkipJumps(arch, m, p, fuel) == Some(p)
    ensures JumpStep(arch, m, p).Some? ==>
      SkipJumps(arch, m, p, fuel + 1) == SkipJumps(arch, m, JumpStep(arch, m, p).value, fuel)
  {
    hide JumpStep, JumpAt, IdiomLeads;
    NoOtherJump(arch, m, p);
  }
}
