/** How long the parts of an instruction are, in the numbers of the Intel SDM, Vol. 2A, chapter 2: what the
    decoder (tmemutil-3rd/src/mhook-lib/disasm_x86.c) computes is stated here without its own tables of
    prefixes and sizes. */
module EncodingLengths {
  import opened Wrappers
  import opened X86
  import CodeMemory

  // ---------------------------------------------------------------- the header

  /** Section 2.1.1. */
  const LEGACY: set<byte> := {0xF0, 0xF2, 0xF3, 0x2E, 0x36, 0x3E, 0x26, 0x64, 0x65, 0x66, 0x67}

  /** The byte is a legacy prefix, or in 64-bit mode a REX in front of one, which counts for nothing. */
  predicate Leads(arch: Arch, s: Stream, j: nat) {
    s(j) in LEGACY || (arch.X64? && 0x40 <= s(j) <= 0x4F && s(j + 1) in LEGACY)
  }

  /** The longest run of such bytes has n. */
  ghost predicate LongestRun(arch: Arch, s: Stream, n: nat) {
    (forall j: nat | j < n :: Leads(arch, s, j)) && !Leads(arch, s, n)
  }

  /** The legacy prefixes among the first n bytes. */
  function Listed(s: Stream, n: nat): seq<byte> {
    if n == 0 then [] else Listed(s, n - 1) + if s(n - 1) in LEGACY then [s(n - 1)] else []
  }

  /** The header behind a run of n bytes: at most fifteen prefixes, a REX among them. */
  ghost predicate HeaderBehind(arch: Arch, s: Stream, n: nat, h: Header) {
    h.prefixes == Listed(s, n) &&
    if arch.X64? && 0x40 <= s(n) <= 0x4F then |h.prefixes| < 15 && h.rex == s(n) && h.opcodeAt == n + 1
    else |h.prefixes| <= 15 && h.rex == 0 && h.opcodeAt == n
  }

  /** The header the decoder reads is the one behind the longest run of prefixes; there is none when more
      than fifteen prefixes come first. */
  lemma HeaderIsLongestRun(arch: Arch, s: Stream, h: Header)
    ensures ReadHeader(arch, s) == Some(h) <==>
              exists n: nat :: LongestRun(arch, s, n) && HeaderBehind(arch, s, n, h)
  {
    hide Leads, Prefixes;
    assert Listed(s, 0) == [];
    var r := Prefixes(arch, s, 0, []);
    if r.Some? {
      PrefixesAreListed(arch, s, 0, r.value.1);
      RexRange(s(r.value.1));
      hide Listed;
      if ReadHeader(arch, s) == Some(h) {
        assert HeaderBehind(arch, s, r.value.1, h);
      }
    }
    forall n: nat | LongestRun(arch, s, n) && HeaderBehind(arch, s, n, h) ensures ReadHeader(arch, s) == Some(h) {
      PrefixesAreListed(arch, s, 0, n);
      RexRange(s(n));
    }
  }

  lemma RexRange(b: byte)
    ensures IsRex(b) <==> 0x40 <= b <= 0x4F
    ensures IsLegacyPrefix(b) <==> b in LEGACY
  {
  }

  lemma {:induction false} PrefixesAreListed(arch: Arch, s: Stream, i: nat, n: nat)
    requires |Listed(s, i)| <= 15 && forall j: nat | j < i :: Leads(arch, s, j)
    ensures var r := Prefixes(arch, s, i, Listed(s, i));
      && (r.Some? ==> LongestRun(arch, s, r.value.1) && r.value.0 == Listed(s, r.value.1) && |r.value.0| <= 15)
      && (LongestRun(arch, s, n) && |Listed(s, n)| <= 15 ==> r == Some((Listed(s, n), n)))
    decreases 15 - |Listed(s, i)|, if MisplacedRex(arch, s, i) then 1 else 0
  {
    RexRange(s(i));
    RexRange(s(i + 1));
    if LongestRun(arch, s, n) { ListedGrows(s, i, n); }
    if MisplacedRex(arch, s, i) {
      assert s(i) !in LEGACY && Leads(arch, s, i);
      assert Listed(s, i + 1) == Listed(s, i);
      PrefixesAreListed(arch, s, i + 1, n);
    } else if IsLegacyPrefix(s(i)) {
      assert Leads(arch, s, i) && Listed(s, i + 1) == Listed(s, i) + [s(i)];
      if LongestRun(arch, s, n) { ListedGrows(s, i + 1, n); }
      if |Listed(s, i)| < 15 { PrefixesAreListed(arch, s, i + 1, n); }
    } else {
      assert !Leads(arch, s, i);
    }
  }

  lemma {:induction false} ListedGrows(s: Stream, i: nat, n: nat)
    ensures i <= n ==> |Listed(s, i)| <= |Listed(s, n)|
    decreases n
  {
    if i < n { ListedGrows(s, i, n - 1); }
  }

  // ---------------------------------------------------------------- sizes

  /** 67H gives 4-byte addresses in 64-bit mode, 2-byte ones in 32-bit mode and 4-byte ones in 16-bit mode. 66H
      gives 2-byte operands, and 4-byte ones in 16-bit mode; a REX.W, 48H to 4FH, gives 8-byte operands
      whatever else there is. */
  lemma SizesOf(tables: Tables, arch: Arch, s: Stream)
    requires Decode(tables, arch, s).Some?
    ensures var (h, info) := EntryOf(tables, arch, s).value; var i := Decode(tables, arch, s).value;
      var short, wide := 0x66 in h.prefixes, 0x48 <= h.rex <= 0x4F;
      && i.addressSize == (match arch
           case X64 => if 0x67 in h.prefixes then 4 else 8
           case X86_32 => if 0x67 in h.prefixes then 2 else 4
           case X86_16 => if 0x67 in h.prefixes then 4 else 2)
      && i.operandSize == (
           if wide || (arch.X64? && (info.sizes.Always64? || (info.sizes.Default64? && !short))) then 8
           else if info.sizes.Mandatory66? then 4
           else match arch
             case X64 => if short then 2 else 4
             case X86_32 => if short then 2 else 4
             case X86_16 => if short then 4 else 2)
  {
    hide Prefixes, WalkOperands;
    var h := EntryOf(tables, arch, s).value.0;
    WideRex(h.rex);
  }

  lemma WideRex(b: byte)
    ensures b == 0 || IsRex(b) ==> (RexW(b) <==> 0x48 <= b <= 0x4F)
  {
  }

  // ---------------------------------------------------------------- operands

  /** Immediates and branch offsets of type b, w, d and q have 1, 2, 4 and 8 bytes; of type z 2, 4 and 4, of
      type v 2, 4 and 8 with operands of 2, 4 and 8 bytes. An offset without ModRM has the address size; a far
      pointer is a segment and an offset of 2 or 4 bytes. */
  lemma ImmediateLengths(c: Context, s: Stream, i: nat)
    requires c.operandSize == 2 || c.operandSize == 4 || c.operandSize == 8
    ensures OperandBytes(c, Imm(B), s, i) == OperandBytes(c, Rel(B), s, i) == Some(1)
    ensures OperandBytes(c, Imm(W), s, i) == OperandBytes(c, Rel(W), s, i) == Some(2)
    ensures OperandBytes(c, Imm(D), s, i) == OperandBytes(c, Rel(D), s, i) == Some(4)
    ensures OperandBytes(c, Imm(Q), s, i) == OperandBytes(c, Rel(Q), s, i) == Some(8)
    ensures OperandBytes(c, Imm(Z), s, i) == OperandBytes(c, Rel(Z), s, i) == Some(if c.operandSize == 2 then 2 else 4)
    ensures OperandBytes(c, Imm(V), s, i) == OperandBytes(c, Rel(V), s, i) == Some(c.operandSize)
    ensures OperandBytes(c, Far(P), s, i) == Some(if c.operandSize == 2 then 4 else 6)
    ensures OperandBytes(c, Moffs, s, i) == Some(c.addressSize) && OperandBytes(c, Plain, s, i) == Some(0)
    ensures forall n: nat :: OperandBytes(c, Imm(Other(n)), s, i) == if n in {1, 2, 4, 8} then Some(n) else None
  {
  }

  /** Tables 2-1 to 2-3: the bytes behind a ModRM byte below C0H, which names memory. From C0H on it names a
      register and nothing follows. */
  lemma MemoryLengths(c: Context, t: OpType, form: Form, s: Stream, i: nat)
    requires c.operandSize == 2 || c.operandSize == 4 || c.operandSize == 8
    ensures c.modrm < 0xC0 && c.addressSize == 2 ==> OperandBytes(c, Mem(t, form), s, i) == Some(
      if c.modrm < 0x40 then (if c.modrm % 8 == 6 then 2 else 0) else if c.modrm < 0x80 then 1 else 2)
    ensures c.modrm < 0xC0 && c.addressSize != 2 ==> OperandBytes(c, Mem(t, form), s, i) == Some(
      if c.modrm % 8 == 4 then
        (if c.modrm < 0x40 then (if s(i) % 8 == 5 then 5 else 1) else if c.modrm < 0x80 then 2 else 5)
      else if c.modrm < 0x40 then (if c.modrm % 8 == 5 then 4 else 0)
      else if c.modrm < 0x80 then 1 else 4)
    ensures c.modrm >= 0xC0 && OperandBytes(c, Mem(t, form), s, i).Some? ==>
      OperandBytes(c, Mem(t, form), s, i).value == 0
    ensures c.modrm >= 0xC0 ==> OperandBytes(c, Mem(t, M), s, i) == OperandBytes(c, Mem(P, E), s, i) == None
    ensures c.modrm >= 0xC0 ==> OperandBytes(c, Mem(t, XmmOrMmx), s, i) == Some(0)
    ensures c.modrm >= 0xC0 && t in {B, W, D, Z} ==> OperandBytes(c, Mem(t, E), s, i) == Some(0)
    ensures c.modrm >= 0xC0 && t == Q ==>
      OperandBytes(c, Mem(t, E), s, i) == if c.addressSize == 2 then None else Some(0)
    ensures c.modrm >= 0xC0 && t == V ==>
      OperandBytes(c, Mem(t, E), s, i) == if c.addressSize == 2 && c.operandSize == 8 then None else Some(0)
  {
  }

  /** The displacement is the field behind ModRM and SIB: 8 bits from 40H on, 16 or 32 from 80H on, and below
      40H only without a base register. With none it stays what it was. */
  lemma MemoryDisplacements(c: Context, t: OpType, form: Form, s: Stream, f: Fields)
    requires StepOperand(c, Mem(t, form), s, f).Some?
    ensures var d := StepOperand(c, Mem(t, form), s, f).value.displacement;
      var sib := if c.addressSize != 2 && c.modrm % 8 == 4 then 1 else 0;
      d == (
        if 0x80 <= c.modrm < 0xC0 then SignedLe(s, f.at + sib, if c.addressSize == 2 then 2 else 4)
        else if 0x40 <= c.modrm < 0x80 then SignedLe(s, f.at + sib, 1)
        else if c.modrm < 0x40 && c.addressSize == 2 && c.modrm % 8 == 6 then SignedLe(s, f.at, 2)
        else if c.modrm < 0x40 && c.addressSize != 2 && c.modrm % 8 == 5 then SignedLe(s, f.at, 4)
        else if c.modrm < 0x40 && sib == 1 && s(f.at) % 8 == 5 then SignedLe(s, f.at + 1, 4)
        else f.displacement)
  {
    hide SignedLe;
  }

  /** A branch offset is a signed displacement, an offset without ModRM an unsigned one. Other operands without
      ModRM leave it as it was. */
  lemma OtherDisplacements(c: Context, t: OpType, s: Stream, f: Fields)
    ensures var r := StepOperand(c, Rel(t), s, f);
      r.Some? ==> r.value.displacement == SignedLe(s, f.at, r.value.at - f.at) && r.value.dispAt == f.at
    ensures var r := StepOperand(c, Moffs, s, f); r.Some? && r.value.displacement == Le(s, f.at, c.addressSize)
    ensures var r := StepOperand(c, Imm(t), s, f); r.Some? ==> r.value.displacement == f.displacement
    ensures StepOperand(c, Plain, s, f).value.displacement == f.displacement
  {
    hide SignedLe, Le;
  }

  /** A far pointer is its offset and then its selector (Vol. 2A, section 3.1.1.3, ptr16:16 and ptr16:32). The
      decoder takes the first two bytes for the selector. So it has the offset right if and only if every byte
      of the operand is equal to the second next. */
  lemma FarOffsetIff(c: Context, s: Stream, f: Fields)
    requires c.operandSize == 2 || c.operandSize == 4
    ensures var n := if c.operandSize == 2 then 2 else 4;
      && StepOperand(c, Far(P), s, f).Some?
      && (StepOperand(c, Far(P), s, f).value.displacement == SignedLe(s, f.at, n) <==> Repeats(s, f.at, n))
  {
    hide Le;
    var n := if c.operandSize == 2 then 2 else 4;
    CodeMemory.LeBound(s, f.at, n);
    CodeMemory.LeBound(s, f.at + 2, n);
    EqualFields(s, f.at, n);
  }

  predicate Repeats(s: Stream, i: nat, n: nat) { forall j: nat | i <= j < i + n :: s(j) == s(j + 2) }

  lemma {:induction false} EqualFields(s: Stream, i: nat, n: nat)
    ensures Le(s, i, n) == Le(s, i + 2, n) <==> Repeats(s, i, n)
    decreases n
  {
    if n > 0 {
      EqualFields(s, i + 1, n - 1);
      var rest, next := Le(s, i + 1, n - 1), Le(s, i + 3, n - 1);
      assert Le(s, i, n) == s(i) as int + 256 * rest && Le(s, i + 2, n) == s(i + 2) as int + 256 * next;
      assert Repeats(s, i, n) <==> s(i) == s(i + 2) && Repeats(s, i + 1, n - 1);
    }
  }

  // ---------------------------------------------------------------- the whole length

  /** Where the operands end that start at i. */
  function EndOf(c: Context, ops: seq<Operand>, s: Stream, i: nat): Option<nat>
    decreases |ops|
  {
    if ops == [] then Some(i)
    else
      match OperandBytes(c, ops[0], s, i)
      case None => None
      case Some(n) => EndOf(c, ops[1..], s, i + n)
  }

  lemma {:induction false} WalkEnds(c: Context, ops: seq<Operand>, s: Stream, f: Fields)
    ensures var r := WalkOperands(c, ops, s, f);
      EndOf(c, ops, s, f.at) == if r.Some? then Some(r.value.at) else None
    decreases |ops|
  {
    hide OperandBytes;
    if ops != [] {
      match StepOperand(c, ops[0], s, f)
      case None =>
      case Some(g) => WalkEnds(c, ops[1..], s, g);
    }
  }

  /** Header, one opcode byte or two behind 0FH, the ModRM byte where it is counted, and the operands. */
  lemma LengthIsSum(tables: Tables, arch: Arch, s: Stream)
    requires Decode(tables, arch, s).Some?
    ensures var (h, info) := EntryOf(tables, arch, s).value; var i := Decode(tables, arch, s).value;
      var opcode := if s(h.opcodeAt) == 0x0F then [0x0F, s(h.opcodeAt + 1)] else [s(h.opcodeAt)];
      var at := h.opcodeAt + |opcode|;
      var modrm := if tables.hasModRM(opcode) then s(at) else 0;
      var start := if tables.hasModRM(opcode) && (info.operands != [] || info.special) then at + 1 else at;
      && info.itype == i.itype && tables.lookup(h.prefixes, h.rex, opcode, modrm) == Some(info)
      && EndOf(Context(arch, i.addressSize, i.operandSize, modrm), info.operands, s, start) == Some(i.length)
  {
    hide ReadHeader, WalkOperands, OperandSizeFor, AddressSizeOf;
    var (h, info) := EntryOf(tables, arch, s).value;
    var c := ContextOf(tables, arch, s, h, info);
    WalkEnds(c, info.operands, s, Fields(OperandsAt(tables, arch, s, h, info, false), 0, false, 0, []));
  }

  /** So an instruction with a register or memory operand and an immediate of type z, such as add, sub or cmp
      with a constant, has behind its ModRM byte the bytes that byte announces and 2, 4 or 4 more. */
  lemma MemoryAndImmediate(tables: Tables, arch: Arch, s: Stream)
    requires Decode(tables, arch, s).Some?
    requires EntryOf(tables, arch, s).value.1.operands == [Mem(V, E), Imm(Z)]
    ensures var h, i := EntryOf(tables, arch, s).value.0, Decode(tables, arch, s).value;
      var at := h.opcodeAt + if s(h.opcodeAt) == 0x0F then 2 else 1;
      var left := i.length - (at + 1) - if i.operandSize == 2 then 2 else 4;
      tables.hasModRM(OpcodeOf(s, h)) ==>
        && (s(at) >= 0xC0 ==> left == 0)
        && (0x80 <= s(at) < 0xC0 ==> left == if i.addressSize == 2 then 2 else if s(at) % 8 == 4 then 5 else 4)
        && (0x40 <= s(at) < 0x80 ==> left == if i.addressSize != 2 && s(at) % 8 == 4 then 2 else 1)
        && (s(at) < 0x40 && i.addressSize == 2 ==> left == if s(at) % 8 == 6 then 2 else 0)
        && (s(at) < 0x40 && i.addressSize != 2 && s(at) % 8 != 4 ==> left == if s(at) % 8 == 5 then 4 else 0)
        && (s(at) < 0x40 && i.addressSize != 2 && s(at) % 8 == 4 ==> left == if s(at + 1) % 8 == 5 then 5 else 1)
  {
    hide ReadHeader, WalkOperands, EndOf, OperandSizeFor, AddressSizeOf;
    LengthIsSum(tables, arch, s);
    SizesOf(tables, arch, s);
    var (h, info) := EntryOf(tables, arch, s).value;
    var i := Decode(tables, arch, s).value;
    var at := h.opcodeAt + |OpcodeOf(s, h)|;
    if tables.hasModRM(OpcodeOf(s, h)) {
      EndOfThese(Context(arch, i.addressSize, i.operandSize, s(at)), s, at + 1, i.length);
    }
  }

  lemma EndOfThese(c: Context, s: Stream, i: nat, end: nat)
    requires EndOf(c, [Mem(V, E), Imm(Z)], s, i) == Some(end)
    requires c.operandSize == 2 || c.operandSize == 4 || c.operandSize == 8
    ensures var left := end - i - if c.operandSize == 2 then 2 else 4;
      && (c.modrm >= 0xC0 ==> left == 0)
      && (0x80 <= c.modrm < 0xC0 ==> left == if c.addressSize == 2 then 2 else if c.modrm % 8 == 4 then 5 else 4)
      && (0x40 <= c.modrm < 0x80 ==> left == if c.addressSize != 2 && c.modrm % 8 == 4 then 2 else 1)
      && (c.modrm < 0x40 && c.addressSize == 2 ==> left == if c.modrm % 8 == 6 then 2 else 0)
      && (c.modrm < 0x40 && c.addressSize != 2 && c.modrm % 8 != 4 ==> left == if c.modrm % 8 == 5 then 4 else 0)
      && (c.modrm < 0x40 && c.addressSize != 2 && c.modrm % 8 == 4 ==> left == if s(i) % 8 == 5 then 5 else 1)
  {
    hide OperandBytes, EndOf;
    TwoEnd(c, Mem(V, E), Imm(Z), s, i);
    MemoryLengths(c, V, E, s, i);
    ImmediateLengths(c, s, i + OperandBytes(c, Mem(V, E), s, i).value);
  }

  /** An instruction without operands whose ModRM byte the decoder does not count ends, for the decoder, with its
      opcode; in truth behind that byte and the bytes it announces. */
  lemma UncountedLengths(tables: Tables, s: Stream)
    requires Decode(tables, X64, s).Some? && EntryOf(tables, X64, s).value.1.operands == []
    requires var (h, info) := EntryOf(tables, X64, s).value; tables.hasModRM(OpcodeOf(s, h)) && !info.special
    ensures var h := EntryOf(tables, X64, s).value.0; var at := h.opcodeAt + if s(h.opcodeAt) == 0x0F then 2 else 1;
      && Decode(tables, X64, s).value.length == at && TrueDecode(tables, X64, s).Some?
      && var more := TrueDecode(tables, X64, s).value.length - (at + 1);
      && (s(at) >= 0xC0 ==> more == 0)
      && (0x80 <= s(at) < 0xC0 ==> more == if s(at) % 8 == 4 then 5 else 4)
      && (0x40 <= s(at) < 0x80 ==> more == if s(at) % 8 == 4 then 2 else 1)
      && (s(at) < 0x40 && s(at) % 8 != 4 ==> more == if s(at) % 8 == 5 then 4 else 0)
      && (s(at) < 0x40 && s(at) % 8 == 4 ==> more == if s(at + 1) % 8 == 5 then 5 else 1)
  {
    hide ReadHeader;
  }

  lemma TwoEnd(c: Context, a: Operand, b: Operand, s: Stream, i: nat)
    ensures var n := OperandBytes(c, a, s, i);
      EndOf(c, [a, b], s, i) ==
        if n.None? || OperandBytes(c, b, s, i + n.value).None? then None
        else Some(i + n.value + OperandBytes(c, b, s, i + n.value).value)
  {
    hide OperandBytes;
    assert [a, b][1..] == [b] && [b][1..] == [];
    assert forall j: nat :: EndOf(c, [], s, j) == Some(j);
  }
}
