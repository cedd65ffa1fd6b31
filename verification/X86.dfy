/** What an x86 instruction's bytes say about its length and its displacement, as functions on the
    byte stream that starts at the instruction. The opcode tables are parameters. */
module X86 {
  import opened Wrappers

  newtype byte = x: int | 0 <= x < 256

  /** Byte i of the stream; total, so every stream is a possible input. */
  type Stream = nat -> byte

  datatype Arch = X64 | X86_32 | X86_16

  const TWO16: int := 0x1_0000
  const TWO32: int := 0x1_0000_0000

  // ---------------------------------------------------------------- little-endian fields

  function Le(s: Stream, i: nat, n: nat): nat
    decreases n
  {
    if n == 0 then 0 else s(i) as int + 256 * Le(s, i + 1, n - 1)
  }

  function Range(n: nat): (r: nat)
    ensures r >= 1
  {
    if n == 0 then 1 else 256 * Range(n - 1)
  }

  /** The n-byte two's complement field at i. */
  function SignedLe(s: Stream, i: nat, n: nat): int {
    var v := Le(s, i, n);
    if 2 * v < Range(n) then v else v - Range(n)
  }

  // ---------------------------------------------------------------- prefixes

  predicate IsLegacyPrefix(b: byte) {
    || b == 0x26 || b == 0x2E || b == 0x36 || b == 0x3E || b == 0x64 || b == 0x65
    || b == 0x66 || b == 0x67 || b == 0xF0 || b == 0xF2 || b == 0xF3
  }

  predicate IsRex(b: byte) { 0x40 <= b <= 0x4F }

  /** A REX byte in front of a legacy prefix is ignored. */
  predicate MisplacedRex(arch: Arch, s: Stream, i: nat) {
    arch.X64? && IsRex(s(i)) && IsLegacyPrefix(s(i + 1))
  }

  const MAX_PREFIXES: nat := 15

  /** The legacy prefixes in front of the opcode or REX, and where they end; None once a sixteenth
      would be stored. A skipped REX does not lengthen the list, so the measure counts it apart. */
  function Prefixes(arch: Arch, s: Stream, i: nat, ps: seq<byte>): (r: Option<(seq<byte>, nat)>)
    requires |ps| <= MAX_PREFIXES
    ensures r.Some? ==> ps <= r.value.0 && |r.value.0| <= MAX_PREFIXES && r.value.1 >= i + |r.value.0| - |ps|
    ensures r.Some? ==> !IsLegacyPrefix(s(r.value.1)) && !MisplacedRex(arch, s, r.value.1)
    ensures r.Some? ==> forall b | b in r.value.0[|ps|..] :: IsLegacyPrefix(b)
    decreases MAX_PREFIXES - |ps|, if MisplacedRex(arch, s, i) then 1 else 0
  {
    if MisplacedRex(arch, s, i) then Prefixes(arch, s, i + 1, ps)
    else if !IsLegacyPrefix(s(i)) then Some((ps, i))
    else if |ps| == MAX_PREFIXES then None
    else
      var r := Prefixes(arch, s, i + 1, ps + [s(i)]);
      assert r.Some? ==> r.value.0[|ps|..] == [s(i)] + r.value.0[|ps| + 1..];
      r
  }

  /** Everything before the opcode: legacy prefixes, the REX byte (0 if none), the opcode's offset. */
  datatype Header = Header(prefixes: seq<byte>, rex: byte, opcodeAt: nat)

  function ReadHeader(arch: Arch, s: Stream): Option<Header> {
    match Prefixes(arch, s, 0, [])
    case None => None
    case Some((ps, i)) =>
      if !(arch.X64? && IsRex(s(i))) then Some(Header(ps, 0, i))
      else if |ps| == MAX_PREFIXES then None
      else Some(Header(ps, s(i), i + 1))
  }

  // ---------------------------------------------------------------- prefix normal form

  function DefaultOperandSize(arch: Arch): nat { if arch.X86_16? then 2 else 4 }

  function DefaultAddressSize(arch: Arch): nat {
    match arch case X64 => 8 case X86_32 => 4 case X86_16 => 2
  }

  function OperandSizeOf(arch: Arch, overridden: bool): nat {
    if !overridden then DefaultOperandSize(arch) else if arch.X86_16? then 4 else 2
  }

  function AddressSizeOf(arch: Arch, overridden: bool): nat {
    if !overridden then DefaultAddressSize(arch) else if arch.X86_32? then 2 else 4
  }

  /** The last of F2 and F3, or 0. */
  function LastRepeat(ps: seq<byte>): byte {
    if ps == [] then 0
    else if ps[|ps| - 1] == 0xF2 || ps[|ps| - 1] == 0xF3 then ps[|ps| - 1]
    else LastRepeat(ps[..|ps| - 1])
  }

  /** A segment override that the mode honours: only FS and GS in 64-bit mode. */
  predicate Overrides(arch: Arch, b: byte) {
    || b == 0x64 || b == 0x65
    || (!arch.X64? && (b == 0x26 || b == 0x2E || b == 0x36 || b == 0x3E))
  }

  function LastOverride(arch: Arch, ps: seq<byte>): byte {
    if ps == [] then 0
    else if Overrides(arch, ps[|ps| - 1]) then ps[|ps| - 1]
    else LastOverride(arch, ps[..|ps| - 1])
  }

  predicate RexW(rex: byte) { rex / 8 % 2 == 1 }

  // ---------------------------------------------------------------- ModRM and SIB

  function Mod(modrm: byte): nat { (modrm / 64) as nat }
  function Rm(modrm: byte): nat { (modrm % 8) as nat }

  /** SIB and displacement bytes after ModRM, per Intel SDM Vol. 2A section 2.1.5: Table 2-1 for
      16-bit addressing, Tables 2-2 and 2-3 for 32- and 64-bit addressing. */
  function AddressingBytes(addressSize: nat, modrm: byte, sib: byte): nat {
    if Mod(modrm) == 3 then 0
    else if addressSize == 2 then
      match Mod(modrm)
      case 0 => if Rm(modrm) == 6 then 2 else 0
      case 1 => 1
      case _ => 2
    else
      var sibBytes := if Rm(modrm) == 4 then 1 else 0;
      var disp :=
        match Mod(modrm)
        case 0 => if Rm(modrm) == 5 || (Rm(modrm) == 4 && sib % 8 == 5) then 4 else 0
        case 1 => 1
        case _ => 4;
      sibBytes + disp
  }

  // ---------------------------------------------------------------- operands

  datatype OpType = B | W | D | Q | Z | V | P | Other(bytes: nat)

  datatype Form = E | M | XmmOrMmx

  datatype Operand =
    | Plain                       // registers and constants: no bytes of its own
    | Imm(t: OpType)              // AMODE_I
    | Mem(t: OpType, form: Form)  // AMODE_E, AMODE_M, AMODE_Q, AMODE_W
    | Rel(t: OpType)              // AMODE_J
    | Moffs                       // AMODE_O
    | Far(t: OpType)              // AMODE_A

  function OperandLength(t: OpType, operandSize: nat): nat {
    match t
    case B => 1
    case W => 2
    case D => 4
    case Q => 8
    case Z => if operandSize == 2 then 2 else 4
    case V => operandSize
    case P => if operandSize == 2 then 4 else 6
    case Other(n) => n
  }

  predicate Encodable(n: nat) { n == 1 || n == 2 || n == 4 || n == 8 }

  /** Registers of n bytes a ModRM register operand can name; 16-bit addressing has no 8-byte ones. */
  predicate HasRegister(addressSize: nat, n: nat) { Encodable(n) && (addressSize == 2 ==> n != 8) }

  /** The operand sizes, and the address sizes, there are. */
  type Size = n: nat | n == 2 || n == 4 || n == 8 witness 4

  /** How a row's operand size follows from prefixes and REX: as usual; 64 bits by default in 64-bit mode;
      with a 66H that belongs to the opcode; or always 64 bits there. */
  datatype SizeRule = Usual | Default64 | Mandatory66 | Always64

  /** What the tables say about an opcode once prefixes, REX and ModRM are known. */
  datatype OpInfo = OpInfo(itype: Type, operands: seq<Operand>, sizes: SizeRule, special: bool)

  function OperandSizeFor(arch: Arch, h: Header, rule: SizeRule): Size {
    var usual := if RexW(h.rex) then 8 else OperandSizeOf(arch, 0x66 in h.prefixes);
    match rule
    case Usual => usual
    case Default64 => if arch.X64? && (RexW(h.rex) || 0x66 !in h.prefixes) then 8 else usual
    case Mandatory66 => if RexW(h.rex) then 8 else 4
    case Always64 => if arch.X64? then 8 else usual
  }

  datatype Type = MOV | LEA | RET | BRANCH | BRANCHCC | CALL | CALLCC | OtherType(id: nat)

  datatype Tables = Tables(
    hasModRM: seq<byte> -> bool,
    lookup: (seq<byte>, byte, seq<byte>, byte) -> Option<OpInfo>)

  /** Whether a ModRM memory operand is IP-relative: mod 0, rm 5, in 64-bit mode. */
  predicate IsIpRelative(arch: Arch, addressSize: nat, modrm: byte) {
    arch.X64? && addressSize != 2 && Mod(modrm) == 0 && Rm(modrm) == 5
  }

  /** The mode and sizes under which the operands of one instruction are decoded. */
  datatype Context = Context(arch: Arch, addressSize: nat, operandSize: nat, modrm: byte)

  /** Progress through the operands: the offset reached, the displacement last read, whether the
      instruction is IP-relative and where its displacement field lies, and one flag per operand. */
  datatype Fields = Fields(at: nat, displacement: int, relative: bool, dispAt: nat, ipRel: seq<bool>)

  /** The bytes operand `op` occupies at offset i; None where the decoder gives up. */
  function OperandBytes(c: Context, op: Operand, s: Stream, i: nat): Option<nat> {
    match op
    case Plain => Some(0)
    case Imm(t) => if Encodable(OperandLength(t, c.operandSize)) then Some(OperandLength(t, c.operandSize)) else None
    case Rel(t) => if Encodable(OperandLength(t, c.operandSize)) then Some(OperandLength(t, c.operandSize)) else None
    case Moffs => Some(c.addressSize)
    case Far(t) =>
      var n := OperandLength(t, c.operandSize);
      if n == 4 || n == 6 then Some(n) else None
    case Mem(t, form) =>
      if Mod(c.modrm) != 3 then Some(AddressingBytes(c.addressSize, c.modrm, s(i)))
      else if form.XmmOrMmx? then Some(0)
      else if form.M? || t.P? || !HasRegister(c.addressSize, OperandLength(t, c.operandSize)) then None
      else Some(0)
  }

  /** The displacement a ModRM memory operand at offset i carries, if it carries one. */
  function MemDisplacement(c: Context, s: Stream, i: nat, previous: int): int {
    var n := AddressingBytes(c.addressSize, c.modrm, s(i));
    var sibBytes := if c.addressSize != 2 && Mod(c.modrm) != 3 && Rm(c.modrm) == 4 then 1 else 0;
    if n <= sibBytes then previous else SignedLe(s, i + sibBytes, n - sibBytes)
  }

  function StepOperand(c: Context, op: Operand, s: Stream, f: Fields): Option<Fields> {
    match OperandBytes(c, op, s, f.at)
    case None => None
    case Some(n) =>
      var g := f.(at := f.at + n);
      match op
      case Plain => Some(g.(ipRel := f.ipRel + [false]))
      case Imm(_) => Some(g.(ipRel := f.ipRel + [false]))
      case Moffs => Some(g.(ipRel := f.ipRel + [false], displacement := Le(s, f.at, n)))
      case Far(_) => Some(g.(ipRel := f.ipRel + [false], displacement := SignedLe(s, f.at + 2, n - 2)))
      case Rel(_) =>
        Some(g.(ipRel := f.ipRel + [true], displacement := SignedLe(s, f.at, n), relative := true, dispAt := f.at))
      case Mem(_, _) =>
        var ip := IsIpRelative(c.arch, c.addressSize, c.modrm);
        Some(g.(ipRel := f.ipRel + [ip], displacement := MemDisplacement(c, s, f.at, f.displacement),
                relative := f.relative || ip, dispAt := if ip then f.at else f.dispAt))
  }

  function WalkOperands(c: Context, ops: seq<Operand>, s: Stream, f: Fields): Option<Fields>
    decreases |ops|
  {
    if ops == [] then Some(f)
    else
      match StepOperand(c, ops[0], s, f)
      case None => None
      case Some(g) => WalkOperands(c, ops[1..], s, g)
  }

  // ---------------------------------------------------------------- whole instructions

  datatype Insn = Insn(length: nat, itype: Type, addressSize: nat, operandSize: nat, fields: Fields)

  /** The opcode's one or two bytes. */
  function OpcodeOf(s: Stream, h: Header): seq<byte> {
    if s(h.opcodeAt) == 0x0F then [s(h.opcodeAt), s(h.opcodeAt + 1)] else [s(h.opcodeAt)]
  }

  /** ModRM, or 0 where the opcode has none. */
  function ModRMOf(tables: Tables, s: Stream, h: Header): byte {
    var opcode := OpcodeOf(s, h);
    if tables.hasModRM(opcode) then s(h.opcodeAt + |opcode|) else 0
  }

  /** An instruction of which the decoder counts no ModRM byte although its opcode has one: without
      operands that byte is counted only for the opcodes the decoder treats specially. */
  predicate Uncounted(hasModRM: bool, info: OpInfo) { hasModRM && info.operands == [] && !info.special }

  /** Where the operands start. For an instruction whose ModRM byte the decoder leaves out, `truly`
      puts that byte and the addressing bytes behind it back. */
  function OperandsAt(tables: Tables, arch: Arch, s: Stream, h: Header, info: OpInfo, truly: bool): nat {
    var opcode := OpcodeOf(s, h);
    var at := h.opcodeAt + |opcode|;
    if !tables.hasModRM(opcode) then at
    else if !Uncounted(true, info) then at + 1
    else if truly then at + 1 + AddressingBytes(AddressSizeOf(arch, 0x67 in h.prefixes), s(at), s(at + 1))
    else at
  }

  /** Header and table entry of the instruction at the start of the stream. */
  function EntryOf(tables: Tables, arch: Arch, s: Stream): Option<(Header, OpInfo)> {
    match ReadHeader(arch, s)
    case None => None
    case Some(h) =>
      match tables.lookup(h.prefixes, h.rex, OpcodeOf(s, h), ModRMOf(tables, s, h))
      case None => None
      case Some(info) => Some((h, info))
  }

  function ContextOf(tables: Tables, arch: Arch, s: Stream, h: Header, info: OpInfo): Context {
    Context(arch, AddressSizeOf(arch, 0x67 in h.prefixes), OperandSizeFor(arch, h, info.sizes), ModRMOf(tables, s, h))
  }

  function DecodeAs(tables: Tables, arch: Arch, s: Stream, truly: bool): Option<Insn> {
    match EntryOf(tables, arch, s)
    case None => None
    case Some((h, info)) =>
      var c := ContextOf(tables, arch, s, h, info);
      var start := Fields(OperandsAt(tables, arch, s, h, info, truly), 0, false, 0, []);
      match WalkOperands(c, info.operands, s, start)
      case None => None
      case Some(f) => Some(Insn(f.at, info.itype, c.addressSize, c.operandSize, f))
  }

  /** The instruction at the start of the stream, as the decoder sees it. */
  function Decode(tables: Tables, arch: Arch, s: Stream): Option<Insn> { DecodeAs(tables, arch, s, false) }

  /** The instruction as the processor sees it: a ModRM byte belongs to it whenever its opcode has one,
      and the SIB and displacement bytes that byte announces (Intel SDM Vol. 2A, sections 2.1.3 to
      2.1.5). */
  function TrueDecode(tables: Tables, arch: Arch, s: Stream): Option<Insn> { DecodeAs(tables, arch, s, true) }
}
