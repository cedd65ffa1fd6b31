/** Functions with known bytes, and an excerpt of the decoder's tables
    (tmemutil-3rd/src/mhook-lib/disasm_x86_tables.h): one the hook engine relocates, some it refuses, and some it
    spoils. */
module ConcreteCode {
  import opened Pointers
  import opened Wrappers
  import opened X86
  import opened CodeMemory
  import opened Processor
  import opened DecodeLocality
  import opened Relocation
  import opened Trampoline
  import opened FixupOffset

  /** The rows of push, nop, clc, the 64-bit load, the zero-extending byte load, lea, a compare, sub with an
      immediate, the fences, the jump and two returns. */
  function Row(rex: byte, opcode: seq<byte>, modrm: byte): Option<OpInfo> {
    if opcode == [0x53] then Some(OpInfo(OtherType(1), [Plain], Default64, false))
    else if opcode == [0x90] then Some(OpInfo(OtherType(2), [], Usual, false))
    else if opcode == [0xF8] then Some(OpInfo(OtherType(4), [], Usual, false))
    else if opcode == [0x8B] && RexW(rex) then Some(OpInfo(MOV, [Plain, Mem(V, E)], Usual, false))
    else if opcode == [0x0F, 0xB6] && RexW(rex) then Some(OpInfo(MOV, [Plain, Mem(B, E)], Usual, false))
    else if opcode == [0x0F, 0xAE] && Extension(modrm) >= 5 then Some(OpInfo(OtherType(3), [], Usual, false))
    else if opcode == [0xE9] then Some(OpInfo(BRANCH, [Rel(Z)], Default64, false))
    else if opcode == [0xC3] then Some(OpInfo(RET, [], Usual, false))
    else if opcode == [0xCF] then Some(OpInfo(OtherType(5), [], Usual, false))
    else if opcode == [0x3B] then Some(OpInfo(OtherType(6), [Plain, Mem(V, E)], Usual, false))
    else if opcode == [0x81] && Extension(modrm) == 5 then Some(OpInfo(OtherType(7), [Mem(V, E), Imm(Z)], Usual, false))
    else if opcode == [0x8D] then Some(OpInfo(LEA, [Plain, Mem(Other(0), M)], Usual, false))
    else None
  }

  /** lfence, mfence or sfence: extension 5 to 7 in a register ModRM. */
  predicate IsFence(modrm: byte) { Mod(modrm) == 3 && Extension(modrm) >= 5 }

  function Extension(modrm: byte): nat { (modrm / 8 % 8) as nat }

  function Rows(): Tables {
    Tables((opcode: seq<byte>) => opcode in {[0x8B], [0x3B], [0x81], [0x8D], [0x0F, 0xB6], [0x0F, 0xAE]},
           (ps: seq<byte>, rex: byte, opcode: seq<byte>, modrm: byte) => Row(rex, opcode, modrm))
  }

  lemma RowsAreRegular(s: Stream)
    ensures Regular(Rows(), X64, s)
  {
    hide ReadHeader;
  }

  /** The bytes b at p. */
  function CodeAt(p: int, b: seq<byte>): Memory { (x: int) => if p <= x < p + |b| then b[x - p] else 0 }

  // ---------------------------------------------------------------- headers

  lemma NoPrefix(s: Stream)
    requires !IsLegacyPrefix(s(0)) && !IsRex(s(0))
    ensures ReadHeader(X64, s) == Some(Header([], 0, 0))
  {
    assert Prefixes(X64, s, 0, []) == Some(([], 0));
  }

  lemma OnlyRex(s: Stream)
    requires IsRex(s(0)) && !IsLegacyPrefix(s(1))
    ensures ReadHeader(X64, s) == Some(Header([], s(0), 1))
  {
    assert Prefixes(X64, s, 0, []) == Some(([], 0));
  }

  // ---------------------------------------------------------------- moves

  lemma WalkTwo(c: Context, ops: seq<Operand>, s: Stream, start: Fields, f: Fields, g: Fields)
    requires |ops| == 2 && StepOperand(c, ops[0], s, start) == Some(f) && StepOperand(c, ops[1], s, f) == Some(g)
    ensures WalkOperands(c, ops, s, start) == Some(g)
  {
    hide StepOperand;
    assert ops[1..][1..] == [];
    assert WalkOperands(c, ops[1..], s, f) == WalkOperands(c, [], s, g);
  }

  lemma MoveOperands(s: Stream, at: nat, t: OpType)
    requires s(at) == 0x10 && s(at + 1) == s(at + 2) == s(at + 3) == 0
    ensures WalkOperands(Context(X64, 8, 8, 5), [Plain, Mem(t, E)], s, Fields(at, 0, false, 0, []))
         == Some(Fields(at + 4, 0x10, true, at, [false, true]))
  {
    hide SignedLe;
    var c := Context(X64, 8, 8, 5);
    var f, g := Fields(at, 0, false, 0, [false]), Fields(at + 4, 0x10, true, at, [false, true]);
    Sixteen(s, at);
    assert [false] + [true] == [false, true] && [] + [false] == [false];
    assert StepOperand(c, Plain, s, Fields(at, 0, false, 0, [])) == Some(f);
    assert StepOperand(c, Mem(t, E), s, f) == Some(g);
    WalkTwo(c, [Plain, Mem(t, E)], s, Fields(at, 0, false, 0, []), f, g);
  }

  lemma Sixteen(s: Stream, at: nat)
    requires s(at) == 0x10 && s(at + 1) == s(at + 2) == s(at + 3) == 0
    ensures SignedLe(s, at, 4) == 0x10
  {
    Ranges();
    assert Le(s, at + 3, 1) == 0 && Le(s, at + 2, 2) == 0 && Le(s, at + 1, 3) == 0;
  }

  /** movzx rax, byte ptr [rip + 0x10] */
  const MOVZX: seq<byte> := [0x48, 0x0F, 0xB6, 0x05, 0x10, 0, 0, 0]

  /** mov rax, qword ptr [rip + 0x10] */
  const LOAD: seq<byte> := [0x48, 0x8B, 0x05, 0x10, 0, 0, 0]

  const BASE: int := 0x40_0000

  lemma MovzxDecodes()
    ensures InsnAt(Rows(), CodeAt(BASE, MOVZX), BASE)
      == Some(Insn(8, MOV, 8, 8, Fields(8, 0x10, true, 4, [false, true])))
  {
    hide WalkOperands, ReadHeader;
    var s := At(CodeAt(BASE, MOVZX), BASE);
    OnlyRex(s);
    assert OpcodeOf(s, Header([], 0x48, 1)) == [0x0F, 0xB6];
    MoveOperands(s, 4, B);
  }

  lemma LoadDecodes()
    ensures InsnAt(Rows(), CodeAt(BASE, LOAD), BASE)
      == Some(Insn(7, MOV, 8, 8, Fields(7, 0x10, true, 3, [false, true])))
  {
    hide WalkOperands, ReadHeader;
    var s := At(CodeAt(BASE, LOAD), BASE);
    OnlyRex(s);
    assert OpcodeOf(s, Header([], 0x48, 1)) == [0x8B];
    MoveOperands(s, 3, V);
  }

  const TRAMPOLINE: int := 0x2_0000

  /** A function that starts with the byte load: the instruction is accepted for patching, its table row
      is regular and the trampoline is one the allocator may return for it, yet there it comes out
      wrong. */
  lemma MovzxIsPatchedWrongly()
    ensures InSpace(BASE, 0x10, 0) && Reachable(BASE, 8, 0x10, 0, TRAMPOLINE)
    ensures exists i :: InsnAt(Rows(), CodeAt(BASE, MOVZX), BASE) == Some(i) && Judge(i) == Patch
              && Regular(Rows(), X64, At(CodeAt(BASE, MOVZX), BASE))
              && !FixupKeeps(Rows(), CodeAt(BASE, MOVZX), BASE, i, TRAMPOLINE + CODE_OFFSET)
  {
    hide InsnAt, FixupKeeps, Regular, Rows;
    var m := CodeAt(BASE, MOVZX);
    MovzxDecodes();
    RowsAreRegular(At(m, BASE));
    var i := InsnAt(Rows(), m, BASE).value;
    LosesElsewhere(Rows(), m, BASE, i, TRAMPOLINE + CODE_OFFSET);
  }

  /** A function that starts with the 64-bit load can be hooked: one accepted instruction of seven bytes
      with one fix-up at the right place, and a window in which a trampoline may lie. */
  lemma LoadIsRelocatable()
    ensures Relocatable(Rows(), CodeAt(BASE, LOAD), BASE, 7, 1, [Rip(3, 0x10)], 0x10, 0)
    ensures InSpace(BASE, 0x10, 0) && InWindow(BASE, 0x10, 0, TRAMPOLINE)
  {
    hide InsnAt, Rows, CodeAt, Regular, Counted, InterruptReturnAt;
    var t, m := Rows(), CodeAt(BASE, LOAD);
    LoadDecodes();
    RowsAreRegular(At(m, BASE));
    LoadIsCounted();
    var i, end := InsnAt(t, m, BASE).value, BASE + 7;
    assert Accepted(t, m, end, end) && Accepted(t, m, BASE, end);
    assert Count(t, m, end, end) == 0 && Rips(t, m, BASE, end, end) == [];
    assert [Rip(3, 0x10)] + [] == [Rip(3, 0x10)];
    LimitsOfAppend([], Rip(3, 0x10));
    assert [] + [Rip(3, 0x10)] == [Rip(3, 0x10)];
    NoLimits();
  }

  lemma LoadIsCounted()
    ensures Counted(Rows(), X64, At(CodeAt(BASE, LOAD), BASE))
    ensures !InterruptReturnAt(Rows(), At(CodeAt(BASE, LOAD), BASE))
  {
    hide ReadHeader;
    var s := At(CodeAt(BASE, LOAD), BASE);
    OnlyRex(s);
    assert OpcodeOf(s, Header([], 0x48, 1)) == [0x8B];
  }

  // ---------------------------------------------------------------- lengths

  /** sub rsp, 0x100 has a 32-bit immediate although its operands have 64 bits. */
  lemma SubHasSevenBytes(s: Stream)
    requires s(0) == 0x48 && s(1) == 0x81 && s(2) == 0xEC
    ensures Decode(Rows(), X64, s).Some? && Decode(Rows(), X64, s).value.length == 7
  {
    hide ReadHeader;
    OnlyRex(s);
    assert OpcodeOf(s, Header([], 0x48, 1)) == [0x81];
    var c := Context(X64, 8, 8, 0xEC);
    assert [] + [false] == [false] && [false] + [false] == [false, false];
    assert StepOperand(c, Mem(V, E), s, Fields(3, 0, false, 0, [])) == Some(Fields(3, 0, false, 0, [false]));
    assert StepOperand(c, Imm(Z), s, Fields(3, 0, false, 0, [false])) == Some(Fields(7, 0, false, 0, [false, false]));
    WalkTwo(c, [Mem(V, E), Imm(Z)], s, Fields(3, 0, false, 0, []), Fields(3, 0, false, 0, [false]),
            Fields(7, 0, false, 0, [false, false]));
  }

  /** One legacy prefix, and then a REX byte or the opcode. */
  lemma OnePrefix(s: Stream)
    requires IsLegacyPrefix(s(0)) && !IsLegacyPrefix(s(1)) && (IsRex(s(1)) ==> !IsLegacyPrefix(s(2)))
    ensures ReadHeader(X64, s) == Some(if IsRex(s(1)) then Header([s(0)], s(1), 2) else Header([s(0)], 0, 1))
  {
    assert [] + [s(0)] == [s(0)];
    assert Prefixes(X64, s, 1, [s(0)]) == Some(([s(0)], 1));
    assert Prefixes(X64, s, 0, []) == Some(([s(0)], 1));
  }

  /** lea eax, [esp+4]: behind a 67H, in 64-bit mode, addressing has the 32-bit form with its SIB byte. */
  lemma LeaHasFiveBytes(s: Stream)
    requires s(0) == 0x67 && s(1) == 0x8D && s(2) == 0x44 && s(3) == 0x24 && s(4) == 4
    ensures Decode(Rows(), X64, s) == Some(Insn(5, LEA, 4, 4, Fields(5, 4, false, 0, [false, false])))
  {
    hide ReadHeader, WalkOperands;
    OnePrefix(s);
    assert OpcodeOf(s, Header([0x67], 0, 1)) == [0x8D];
    LeaOperands(s);
  }

  lemma LeaOperands(s: Stream)
    requires s(3) == 0x24 && s(4) == 4
    ensures WalkOperands(Context(X64, 4, 4, 0x44), [Plain, Mem(Other(0), M)], s, Fields(3, 0, false, 0, []))
         == Some(Fields(5, 4, false, 0, [false, false]))
  {
    var c := Context(X64, 4, 4, 0x44);
    var start, f := Fields(3, 0, false, 0, []), Fields(3, 0, false, 0, [false]);
    var g := Fields(5, 4, false, 0, [false, false]);
    assert Le(s, 5, 0) == 0 && Le(s, 4, 1) == 4 && Range(1) == 256;
    assert [] + [false] == [false] && [false] + [false] == [false, false];
    assert StepOperand(c, Plain, s, start) == Some(f);
    assert StepOperand(c, Mem(Other(0), M), s, f) == Some(g);
    WalkTwo(c, [Plain, Mem(Other(0), M)], s, start, f, g);
  }

  /** mov rax, gs:[rip + 0x10]: the segment override is one of the prefixes. */
  lemma GsLoadHasEightBytes(s: Stream)
    requires s(0) == 0x65 && s(1) == 0x48 && s(2) == 0x8B && s(3) == 5
    requires s(4) == 0x10 && s(5) == s(6) == s(7) == 0
    ensures Decode(Rows(), X64, s) == Some(Insn(8, MOV, 8, 8, Fields(8, 0x10, true, 4, [false, true])))
    ensures EntryOf(Rows(), X64, s).value.0.prefixes == [0x65]
  {
    hide ReadHeader, WalkOperands;
    OnePrefix(s);
    assert OpcodeOf(s, Header([0x65], 0x48, 2)) == [0x8B];
    MoveOperands(s, 4, V);
  }

  // ---------------------------------------------------------------- refused, and not refused

  /** cmp rax, qword ptr [rip + 0x10] */
  const COMPARE: seq<byte> := [0x48, 0x3B, 0x05, 0x10, 0, 0, 0]

  /** A compare with a RIP-relative operand is not moved: no hook goes in front of it. */
  lemma CompareIsRefused()
    ensures AddressField(Rows(), At(CodeAt(BASE, COMPARE), BASE)) == Some(3)
    ensures forall end :: !Usable(Rows(), CodeAt(BASE, COMPARE), BASE, JMPSIZE, end)
  {
    hide WalkOperands, ReadHeader, Usable;
    var m := CodeAt(BASE, COMPARE);
    var s := At(m, BASE);
    OnlyRex(s);
    assert OpcodeOf(s, Header([], 0x48, 1)) == [0x3B];
    MoveOperands(s, 3, V);
    assert InsnAt(Rows(), m, BASE) == Some(Insn(7, OtherType(6), 8, 8, Fields(7, 0x10, true, 3, [false, true])));
    assert Mem(V, E) in [Plain, Mem(V, E)];
    assert InsnAt(Rows(), m, BASE).value.fields.ipRel[1];
    NoLongerPrefix(Rows(), m, BASE, BASE, JMPSIZE);
  }

  /** ret; nop; nop; nop; nop */
  const RETURN: seq<byte> := [0xC3, 0x90, 0x90, 0x90, 0x90]

  /** Nothing behind a return is counted. */
  lemma ReturnIsRefused()
    ensures TransferAt(Rows(), At(CodeAt(BASE, RETURN), BASE))
    ensures forall end :: !Usable(Rows(), CodeAt(BASE, RETURN), BASE, JMPSIZE, end)
  {
    hide ReadHeader, Usable;
    var m := CodeAt(BASE, RETURN);
    NoPrefix(At(m, BASE));
    assert OpcodeOf(At(m, BASE), Header([], 0, 0)) == [0xC3];
    assert InsnAt(Rows(), m, BASE).value.itype == RET;
    NoLongerPrefix(Rows(), m, BASE, BASE, JMPSIZE);
  }

  /** iretq behind a REX.W; nop; nop; nop */
  const INTERRUPT_RETURN: seq<byte> := [0x48, 0xCF, 0x90, 0x90, 0x90]

  /** An interrupt return is counted like any other instruction, with what lies behind it. */
  lemma InterruptReturnIsAccepted()
    ensures var m := CodeAt(BASE, INTERRUPT_RETURN);
      && Usable(Rows(), m, BASE, JMPSIZE, BASE + 5) && AllCounted(Rows(), m, BASE, BASE + 5)
      && TransferAt(Rows(), At(m, BASE)) && Execute(Rows(), m, BASE, 1) == None
  {
    hide Decode, Counted, Rows, TransferAt;
    var t, m := Rows(), CodeAt(BASE, INTERRUPT_RETURN);
    ReturnDecodes(At(m, BASE));
    NopDecodes(At(m, BASE + 2));
    NopDecodes(At(m, BASE + 3));
    NopDecodes(At(m, BASE + 4));
    NopsAccepted(m, BASE);
  }

  lemma NopsAccepted(m: Memory, a: int)
    requires InsnAt(Rows(), m, a) == Some(Insn(2, OtherType(5), 8, 8, Fields(2, 0, false, 0, [])))
    requires Counted(Rows(), X64, At(m, a)) && m(a + 2) == 0x90 && m(a + 3) == 0x90 && m(a + 4) == 0x90
    ensures Accepted(Rows(), m, a, a + 5) && AllCounted(Rows(), m, a, a + 5) && Rips(Rows(), m, a, a, a + 5) == []
  {
    hide Decode, Counted, Rows;
    var t := Rows();
    NopDecodes(At(m, a + 2));
    NopDecodes(At(m, a + 3));
    NopDecodes(At(m, a + 4));
    assert Accepted(t, m, a + 4, a + 5) && AllCounted(t, m, a + 4, a + 5) && Rips(t, m, a, a + 4, a + 5) == [];
    assert Accepted(t, m, a + 3, a + 5) && AllCounted(t, m, a + 3, a + 5) && Rips(t, m, a, a + 3, a + 5) == [];
    assert Accepted(t, m, a + 2, a + 5) && AllCounted(t, m, a + 2, a + 5) && Rips(t, m, a, a + 2, a + 5) == [];
  }

  lemma ReturnDecodes(s: Stream)
    requires s(0) == 0x48 && s(1) == 0xCF
    ensures Decode(Rows(), X64, s) == Some(Insn(2, OtherType(5), 8, 8, Fields(2, 0, false, 0, [])))
    ensures Counted(Rows(), X64, s) && TransferAt(Rows(), s)
  {
    hide ReadHeader;
    OnlyRex(s);
    assert OpcodeOf(s, Header([], 0x48, 1)) == [0xCF];
  }

  // ---------------------------------------------------------------- a fence

  /** push rbx; nop; nop; sfence; ret */
  const FENCE: seq<byte> := [0x53, 0x90, 0x90, 0x0F, 0xAE, 0xF8, 0xC3]

  lemma PushDecodes(s: Stream)
    requires s(0) == 0x53
    ensures Decode(Rows(), X64, s) == Some(Insn(1, OtherType(1), 8, 8, Fields(1, 0, false, 0, [false])))
    ensures Counted(Rows(), X64, s) && !TransferAt(Rows(), s)
  {
    hide ReadHeader;
    NoPrefix(s);
    assert OpcodeOf(s, Header([], 0, 0)) == [0x53];
    assert [] + [false] == [false];
    assert WalkOperands(Context(X64, 8, 8, 0), [Plain], s, Fields(1, 0, false, 0, []))
      == Some(Fields(1, 0, false, 0, [false]));
  }

  lemma NopDecodes(s: Stream)
    requires s(0) == 0x90
    ensures Decode(Rows(), X64, s) == Some(Insn(1, OtherType(2), 8, 4, Fields(1, 0, false, 0, [])))
    ensures Counted(Rows(), X64, s) && !TransferAt(Rows(), s)
  {
    hide ReadHeader;
    NoPrefix(s);
    assert OpcodeOf(s, Header([], 0, 0)) == [0x90];
  }

  /** The decoder gives a fence two bytes; it has three. */
  lemma FenceDecodes(s: Stream)
    requires s(0) == 0x0F && s(1) == 0xAE && IsFence(s(2))
    ensures Decode(Rows(), X64, s) == Some(Insn(2, OtherType(3), 8, 4, Fields(2, 0, false, 0, [])))
    ensures TrueDecode(Rows(), X64, s) == Some(Insn(3, OtherType(3), 8, 4, Fields(3, 0, false, 0, [])))
    ensures !Counted(Rows(), X64, s) && !TransferAt(Rows(), s) && AddressField(Rows(), s) == None
  {
    hide ReadHeader;
    NoPrefix(s);
    assert OpcodeOf(s, Header([], 0, 0)) == [0x0F, 0xAE];
  }

  /** Push, two nops and a fence with this ModRM byte at a. */
  ghost predicate FenceAt(m: Memory, a: int, modrm: byte) {
    && m(a) == 0x53 && m(a + 1) == 0x90 && m(a + 2) == 0x90 && m(a + 3) == 0x0F && m(a + 4) == 0xAE && m(a + 5) == modrm
    && IsFence(modrm)
  }

  lemma FenceInsns(m: Memory, a: int, modrm: byte)
    requires FenceAt(m, a, modrm)
    ensures InsnAt(Rows(), m, a) == TrueInsnAt(Rows(), m, a)
      == Some(Insn(1, OtherType(1), 8, 8, Fields(1, 0, false, 0, [false])))
    ensures InsnAt(Rows(), m, a + 1) == TrueInsnAt(Rows(), m, a + 1)
      == Some(Insn(1, OtherType(2), 8, 4, Fields(1, 0, false, 0, [])))
    ensures InsnAt(Rows(), m, a + 2) == TrueInsnAt(Rows(), m, a + 2)
      == Some(Insn(1, OtherType(2), 8, 4, Fields(1, 0, false, 0, [])))
    ensures InsnAt(Rows(), m, a + 3) == Some(Insn(2, OtherType(3), 8, 4, Fields(2, 0, false, 0, [])))
    ensures TrueInsnAt(Rows(), m, a + 3) == Some(Insn(3, OtherType(3), 8, 4, Fields(3, 0, false, 0, [])))
    ensures Counted(Rows(), X64, At(m, a)) && Counted(Rows(), X64, At(m, a + 1)) && Counted(Rows(), X64, At(m, a + 2))
    ensures !Counted(Rows(), X64, At(m, a + 3)) && AddressField(Rows(), At(m, a + 3)) == None
    ensures !TransferAt(Rows(), At(m, a)) && !TransferAt(Rows(), At(m, a + 1)) && !TransferAt(Rows(), At(m, a + 2))
    ensures !TransferAt(Rows(), At(m, a + 3))
  {
    hide Decode, TrueDecode, Counted, Rows, TransferAt, AddressField;
    PushDecodes(At(m, a));
    NopDecodes(At(m, a + 1));
    NopDecodes(At(m, a + 2));
    LengthIsTrueIff(Rows(), X64, At(m, a));
    LengthIsTrueIff(Rows(), X64, At(m, a + 1));
    LengthIsTrueIff(Rows(), X64, At(m, a + 2));
    FenceDecodes(At(m, a + 3));
  }

  /** The scan of this function accepts five bytes without fix-ups, every instruction independent of its
      address; but it stops inside the fence. */
  lemma ScanStopsInsideFence()
    ensures var m := CodeAt(BASE, FENCE);
      && LastInsn(Rows(), m, BASE, JMPSIZE, BASE + 3, BASE + 5) && PatchData(Rows(), m, BASE, BASE + 5, [], 0, 0)
      && ShortHeaders(Rows(), m, BASE, BASE + 5)
      && AllCounted(Rows(), m, BASE, BASE + 3) && !TrueBoundary(Rows(), m, BASE, BASE + 5)
  {
    hide InsnAt, TrueInsnAt, Rows, Counted;
    var m := CodeAt(BASE, FENCE);
    FenceInsns(m, BASE, 0xF8);
    FenceAccepted(m);
    NoLimits();
    hide CodeAt;
    LastBoundaryIsTrueIff(Rows(), m, BASE, BASE + 3, BASE + 5);
  }

  lemma FenceAccepted(m: Memory)
    requires FenceAt(m, BASE, 0xF8)
    ensures Accepted(Rows(), m, BASE, BASE + 3) && AllCounted(Rows(), m, BASE, BASE + 3)
    ensures Accepted(Rows(), m, BASE, BASE + 5) && ShortHeaders(Rows(), m, BASE, BASE + 5)
    ensures Rips(Rows(), m, BASE, BASE, BASE + 5) == []
  {
    hide InsnAt, TrueInsnAt, Rows, Counted;
    FenceInsns(m, BASE, 0xF8);
    var t := Rows();
    assert Accepted(t, m, BASE + 2, BASE + 3) && Accepted(t, m, BASE + 1, BASE + 3);
    assert AllCounted(t, m, BASE + 2, BASE + 3) && AllCounted(t, m, BASE + 1, BASE + 3);
    assert Accepted(t, m, BASE + 3, BASE + 5) && Accepted(t, m, BASE + 2, BASE + 5);
    assert Accepted(t, m, BASE + 1, BASE + 5);
    assert ShortHeaders(t, m, BASE + 3, BASE + 5) && ShortHeaders(t, m, BASE + 2, BASE + 5);
    assert ShortHeaders(t, m, BASE + 1, BASE + 5);
    assert Rips(t, m, BASE, BASE + 3, BASE + 5) == [] && Rips(t, m, BASE, BASE + 2, BASE + 5) == [];
    assert Rips(t, m, BASE, BASE + 1, BASE + 5) == [];
  }

  /** Running k instructions from a ends behind a fence with this ModRM byte. */
  ghost predicate RunsIntoFence(m: Memory, a: int, k: nat, modrm: byte) {
    var r := Execute(Rows(), m, a, k);
    r.Some? && r.value.ip == a + 6 && |r.value.effects| == k && k > 0
    && r.value.effects[k - 1] == Verbatim([0x0F, 0xAE, modrm])
  }

  lemma FenceRuns(m: Memory, a: int, k: nat, modrm: byte)
    requires FenceAt(m, a, modrm) && k == 4
    ensures RunsIntoFence(m, a, k, modrm)
  {
    hide InsnAt, TrueInsnAt, TransferAt, Rows, EffectOf, AddressField, Counted;
    FenceInsns(m, a, modrm);
    var t := Rows();
    var i0, i1 := TrueInsnAt(t, m, a).value, TrueInsnAt(t, m, a + 1).value;
    var i2, i3 := TrueInsnAt(t, m, a + 2).value, TrueInsnAt(t, m, a + 3).value;
    assert EffectOf(t, m, a + 3, i3) == Verbatim([0x0F, 0xAE, modrm]) by { FenceEffect(m, a + 3, i3); }
    assert Execute(t, m, a + 6, k - 4) == Some(Run([], a + 6));
    hide Execute;
    ExecuteStep(t, m, a + 3, i3, k - 4);
    ExecuteStep(t, m, a + 2, i2, k - 3);
    ExecuteStep(t, m, a + 1, i1, k - 2);
    ExecuteStep(t, m, a, i0, k - 1);
  }

  lemma FenceEffect(m: Memory, a: int, i: Insn)
    requires m(a) == 0x0F && m(a + 1) == 0xAE && i.length == 3 && AddressField(Rows(), At(m, a)) == None
    ensures EffectOf(Rows(), m, a, i) == Verbatim([0x0F, 0xAE, m(a + 2)])
  {
    hide AddressField, Rows;
  }

  /** So relocation spoils it: wherever the trampoline lies near enough for the short jump back, its
      fourth instruction swallows that jump's opcode and is another fence than the function's. */
  lemma TrampolineSwallowsJump(copy: Memory, q: int, k: nat)
    requires Copied(CodeAt(BASE, FENCE), BASE, 5, copy, q) && IsNear(q + 5, BASE + 5) && k == 4
    ensures RunsIntoFence(CodeAt(BASE, FENCE), BASE, k, 0xF8) && RunsIntoFence(copy, q, k, 0xE9)
    ensures Execute(Rows(), copy, q, k).value.effects != Execute(Rows(), CodeAt(BASE, FENCE), BASE, k).value.effects
  {
    hide Execute, Rows;
    var m, jump := CodeAt(BASE, FENCE), JumpBytes(X64, q + 5, BASE + 5);
    assert FenceAt(m, BASE, 0xF8);
    assert jump[0] == 0xE9;
    assert FenceAt(copy, q, 0xE9) by {
      assert At(copy, q + 5)(0) == jump[0];
      assert copy(q + (BASE - BASE)) == m(BASE) && copy(q + (BASE + 1 - BASE)) == m(BASE + 1);
      assert copy(q + (BASE + 2 - BASE)) == m(BASE + 2) && copy(q + (BASE + 3 - BASE)) == m(BASE + 3);
      assert copy(q + (BASE + 4 - BASE)) == m(BASE + 4);
    }
    hide CodeAt, JumpBytes;
    FenceRuns(m, BASE, k, 0xF8);
    FenceRuns(copy, q, k, 0xE9);
  }

  // ---------------------------------------------------------------- a fence in the middle

  /** sfence; nop; ret */
  const FENCE_FIRST: seq<byte> := [0x0F, 0xAE, 0xF8, 0x90, 0xC3]

  lemma ClcDecodes(s: Stream)
    requires s(0) == 0xF8
    ensures Decode(Rows(), X64, s) == Some(Insn(1, OtherType(4), 8, 4, Fields(1, 0, false, 0, [])))
  {
    hide ReadHeader;
    NoPrefix(s);
    assert OpcodeOf(s, Header([], 0, 0)) == [0xF8];
  }

  /** Behind a fence the decoder can fall into step again: here it takes the fence's ModRM byte for a
      clc, and four bytes on it is at a true boundary although it has passed a false one. */
  lemma DecoderRegainsStep()
    ensures var m := CodeAt(BASE, FENCE_FIRST);
      && Accepted(Rows(), m, BASE, BASE + 4) && !AllCounted(Rows(), m, BASE, BASE + 4)
      && TrueBoundary(Rows(), m, BASE, BASE + 4) && !TrueBoundary(Rows(), m, BASE, BASE + 2)
  {
    hide Decode, TrueDecode, Rows, Counted;
    var t, m := Rows(), CodeAt(BASE, FENCE_FIRST);
    FenceDecodes(At(m, BASE));
    ClcDecodes(At(m, BASE + 2));
    NopDecodes(At(m, BASE + 3));
    LengthIsTrueIff(t, X64, At(m, BASE + 3));
    assert Accepted(t, m, BASE + 4, BASE + 4);
    assert Accepted(t, m, BASE + 3, BASE + 4);
    var clc := InsnAt(t, m, BASE + 2);
    assert clc.Some? && Judge(clc.value) != Stop && clc.value.length == 1;
    assert Accepted(t, m, BASE + 2, BASE + 4);
    assert TrueBoundary(t, m, BASE + 3, BASE + 4);
  }
}
