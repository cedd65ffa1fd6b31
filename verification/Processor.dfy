/** What the processor does with an instruction, told from its opcode, its ModRM byte and its operands
    alone (Intel SDM Vol. 2): not from what the decoder or the scan makes of it. */
module Processor {
  import opened Pointers
  import opened Wrappers
  import opened X86
  import opened CodeMemory

  /** Jumps, loops, calls and returns, by opcode and ModRM: the opcode maps of Appendix A. */
  predicate Transfers(opcode: seq<byte>, modrm: byte) {
    if |opcode| == 1 then
      var b := opcode[0];
      || 0x70 <= b <= 0x7F || 0xE0 <= b <= 0xE3
      || b == 0xE8 || b == 0x9A || b == 0xE9 || b == 0xEA || b == 0xEB
      || b == 0xC2 || b == 0xC3 || b == 0xCA || b == 0xCB || b == 0xCF
      || (b == 0xFF && 2 <= modrm / 8 % 8 <= 5)
    else
      |opcode| == 2 && opcode[0] == 0x0F
      && (0x80 <= opcode[1] <= 0x8F || opcode[1] == 0x07 || opcode[1] == 0x35)
  }

  /** Among them iret, sysret and sysexit. */
  predicate InterruptReturn(opcode: seq<byte>) { opcode == [0xCF] || opcode == [0x0F, 0x07] || opcode == [0x0F, 0x35] }

  predicate TransferAt(tables: Tables, s: Stream) {
    match EntryOf(tables, X64, s)
    case None => false
    case Some((h, _)) => Transfers(OpcodeOf(s, h), ModRMOf(tables, s, h))
  }

  predicate InterruptReturnAt(tables: Tables, s: Stream) {
    match EntryOf(tables, X64, s)
    case None => false
    case Some((h, _)) => InterruptReturn(OpcodeOf(s, h))
  }

  /** The ModRM byte can name memory. */
  predicate HasMemoryForm(hasModRM: bool, info: OpInfo) {
    (exists op | op in info.operands :: op.Mem?) || Uncounted(hasModRM, info)
  }

  /** Where an instruction keeps the four displacement bytes of an address relative to its own end: right
      behind a ModRM byte with mod 0 and rm 5 (section 2.2.1.6). */
  function AddressField(tables: Tables, s: Stream): Option<nat> {
    match EntryOf(tables, X64, s)
    case None => None
    case Some((h, info)) =>
      var modrm := ModRMOf(tables, s, h);
      if HasMemoryForm(tables.hasModRM(OpcodeOf(s, h)), info) && modrm / 64 == 0 && modrm % 8 == 5
      then Some(h.opcodeAt + |OpcodeOf(s, h)| + 1) else None
  }

  /** The instruction at a, as the processor delimits it. */
  function TrueInsnAt(tables: Tables, m: Memory, a: int): Option<Insn> { TrueDecode(tables, X64, At(m, a)) }

  /** What one executed instruction does: if it names an address relative to its own, its bytes apart from the
      displacement field, the place of that field and the address; any other instruction is its bytes. */
  datatype Effect = Access(form: seq<byte>, field: nat, target: int) | Verbatim(form: seq<byte>)

  function Form(s: Stream, n: nat, hole: nat): seq<byte> {
    seq(n, j requires 0 <= j < n => if hole <= j < hole + 4 then 0 else s(j))
  }

  /** The address counts from the end of the instruction and is cut to 32 bits under an address-size
      prefix. */
  function EffectOf(tables: Tables, m: Memory, a: int, i: Insn): Effect {
    match AddressField(tables, At(m, a))
    case Some(d) =>
      Access(Form(At(m, a), i.length, d), d, Effective(i.addressSize, a + i.length + SignedLe(At(m, a), d, 4)))
    case None => Verbatim(Form(At(m, a), i.length, i.length))
  }

  function Effective(addressSize: nat, a: int): int { if addressSize == 8 then a % ADDRESSES else a % TWO32 }

  datatype Run = Run(effects: seq<Effect>, ip: int)

  /** `steps` instructions from a on. The near jump E9 moves the instruction pointer and does nothing else;
      where any other jump, call or return leads is not part of this model, so a run does not get past
      it. */
  function Execute(tables: Tables, m: Memory, a: int, steps: nat): Option<Run>
    decreases steps
  {
    if steps == 0 then Some(Run([], a))
    else if m(a) == 0xE9 then Execute(tables, m, Add(X64, a, 5 + SignedLe(At(m, a), 1, 4)), steps - 1)
    else if TransferAt(tables, At(m, a)) then None
    else
      match TrueInsnAt(tables, m, a)
      case None => None
      case Some(i) =>
        match Execute(tables, m, a + i.length, steps - 1)
        case None => None
        case Some(r) => Some(Run([EffectOf(tables, m, a, i)] + r.effects, r.ip))
  }
}
