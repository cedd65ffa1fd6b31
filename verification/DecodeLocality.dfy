/** What decoding an instruction depends on: its own bytes and nothing else, and of the displacement
    field of an IP-relative operand only the value. Moving an instruction rests on this. */
module DecodeLocality {
  import opened Wrappers
  import opened X86
  import opened CodeMemory
  import opened Processor

  /** What moving an instruction takes for granted of its table entry, and what every row of the
      decoder's tables satisfies. There are at most three operands; at most one carries an address, and only
      registers and constants come before one in memory; moves have no branch operand; and a jump, call
      or return has a type of its own or, as the loops, a branch operand in front. Only interrupt
      returns have neither. */
  ghost predicate RegularInfo(opcode: seq<byte>, modrm: byte, info: OpInfo) {
    && |info.operands| <= 3
    && (forall j, k | 0 <= j < k < |info.operands| :: !(Bears(info.operands[j]) && Bears(info.operands[k])))
    && (forall j, k | 0 <= j < k < |info.operands| && info.operands[k].Mem? :: info.operands[j].Plain?)
    && (info.itype.MOV? || info.itype.LEA? ==> forall op | op in info.operands :: !op.Rel?)
    && (Transfers(opcode, modrm) && FallsThrough(info.itype) ==>
          info.itype.OtherType? && (InterruptReturn(opcode) || (|info.operands| > 0 && info.operands[0].Rel?)))
  }

  /** The types of instructions that go on behind themselves, but for loops and interrupt returns. */
  predicate FallsThrough(t: Type) { t.MOV? || t.LEA? || t.OtherType? }

  /** The entry of the instruction at the start of the stream is such a one. */
  ghost predicate Regular(tables: Tables, arch: Arch, s: Stream) {
    var e := EntryOf(tables, arch, s);
    e.Some? ==> RegularInfo(OpcodeOf(s, e.value.0), ModRMOf(tables, s, e.value.0), e.value.1)
  }

  /** The decoder counts the ModRM byte of the instruction at the start of the stream, if it has one. */
  predicate Counted(tables: Tables, arch: Arch, s: Stream) {
    var e := EntryOf(tables, arch, s);
    e.Some? ==> !Uncounted(tables.hasModRM(OpcodeOf(s, e.value.0)), e.value.1)
  }

  /** The operand has a displacement or an address of its own. */
  predicate Bears(op: Operand) { op.Mem? || op.Rel? || op.Moffs? || op.Far? }

  ghost predicate OneAddress(ops: seq<Operand>) {
    forall j, k | 0 <= j < k < |ops| :: !(Bears(ops[j]) && Bears(ops[k]))
  }

  ghost predicate Agree(s: Stream, t: Stream, from: nat, to: nat) {
    forall j: nat | from <= j < to :: s(j) == t(j)
  }

  lemma {:induction false} PrefixesLocal(arch: Arch, s: Stream, t: Stream, i: nat, ps: seq<byte>)
    requires |ps| <= MAX_PREFIXES && Prefixes(arch, s, i, ps).Some?
    requires var e := Prefixes(arch, s, i, ps).value.1;
             Agree(s, t, i, e + 1) && (arch.X64? && IsRex(s(e)) ==> s(e + 1) == t(e + 1))
    ensures Prefixes(arch, t, i, ps) == Prefixes(arch, s, i, ps)
    decreases MAX_PREFIXES - |ps|, if MisplacedRex(arch, s, i) then 1 else 0
  {
    assert s(i) == t(i);
    if MisplacedRex(arch, s, i) {
      PrefixesLocal(arch, s, t, i + 1, ps);
    } else if IsLegacyPrefix(s(i)) {
      PrefixesLocal(arch, s, t, i + 1, ps + [s(i)]);
    }
  }

  lemma HeaderLocal(arch: Arch, s: Stream, t: Stream)
    requires ReadHeader(arch, s).Some? && Agree(s, t, 0, ReadHeader(arch, s).value.opcodeAt + 1)
    ensures ReadHeader(arch, t) == ReadHeader(arch, s)
  {
    PrefixesLocal(arch, s, t, 0, []);
  }

  lemma StepLocal(c: Context, op: Operand, s: Stream, t: Stream, f: Fields)
    requires StepOperand(c, op, s, f).Some? && Agree(s, t, f.at, StepOperand(c, op, s, f).value.at)
    ensures StepOperand(c, op, t, f) == StepOperand(c, op, s, f)
  {
    hide Le;
    var n := OperandBytes(c, op, s, f.at).value;
    SameField(s, t, f.at, n);
    match op
    case Mem(_, _) => SameMemory(c, s, t, f.at, f.displacement);
    case Far(_) => SameField(s, t, f.at + 2, n - 2);
    case _ =>
  }

  lemma SameField(s: Stream, t: Stream, i: nat, n: nat)
    requires Agree(s, t, i, i + n)
    ensures Le(s, i, n) == Le(t, i, n) && SignedLe(s, i, n) == SignedLe(t, i, n)
  {
    SameBytesSameField(s, i, t, n);
  }

  lemma SameMemory(c: Context, s: Stream, t: Stream, i: nat, d: int)
    requires Mod(c.modrm) != 3 ==> Agree(s, t, i, i + AddressingBytes(c.addressSize, c.modrm, s(i)))
    ensures AddressingBytes(c.addressSize, c.modrm, t(i)) == AddressingBytes(c.addressSize, c.modrm, s(i))
    ensures MemDisplacement(c, t, i, d) == MemDisplacement(c, s, i, d)
  {
    hide SignedLe;
    var n := AddressingBytes(c.addressSize, c.modrm, s(i));
    if n > 0 { assert s(i) == t(i); }
    var sibBytes := if c.addressSize != 2 && Mod(c.modrm) != 3 && Rm(c.modrm) == 4 then 1 else 0;
    if n > sibBytes { SameField(s, t, i + sibBytes, n - sibBytes); }
  }

  lemma {:induction false} WalkLocal(c: Context, ops: seq<Operand>, s: Stream, t: Stream, f: Fields)
    requires WalkOperands(c, ops, s, f).Some? && Agree(s, t, f.at, WalkOperands(c, ops, s, f).value.at)
    ensures WalkOperands(c, ops, t, f) == WalkOperands(c, ops, s, f)
    ensures WalkOperands(c, ops, s, f).value.at >= f.at
    decreases |ops|
  {
    hide StepOperand;
    if ops != [] {
      var g := StepOperand(c, ops[0], s, f).value;
      StepForward(c, ops[0], s, f);
      WalkForward(c, ops[1..], s, g);
      StepLocal(c, ops[0], s, t, f);
      WalkLocal(c, ops[1..], s, t, g);
    }
  }

  lemma StepForward(c: Context, op: Operand, s: Stream, f: Fields)
    ensures StepOperand(c, op, s, f).Some? ==> StepOperand(c, op, s, f).value.at >= f.at
  {
  }

  lemma {:induction false} WalkForward(c: Context, ops: seq<Operand>, s: Stream, f: Fields)
    ensures WalkOperands(c, ops, s, f).Some? ==> WalkOperands(c, ops, s, f).value.at >= f.at
    decreases |ops|
  {
    hide StepOperand;
    if ops != [] {
      StepForward(c, ops[0], s, f);
      var r := StepOperand(c, ops[0], s, f);
      if r.Some? { WalkForward(c, ops[1..], s, r.value); }
    }
  }

  lemma PlainStep(c: Context, op: Operand, s: Stream, t: Stream, f: Fields, d: int)
    requires !Bears(op)
    ensures StepOperand(c, op, t, f.(displacement := d)).Some? <==> StepOperand(c, op, s, f).Some?
    ensures StepOperand(c, op, s, f).Some? ==> var g := StepOperand(c, op, s, f).value;
      && StepOperand(c, op, t, f.(displacement := d)).value == g.(displacement := d)
      && g.displacement == f.displacement && g.relative == f.relative && g.dispAt == f.dispAt && g.at >= f.at
  {
  }

  /** An operand without an address reads no bytes. */
  lemma {:induction false} NoAddressNoReads(c: Context, ops: seq<Operand>, s: Stream, t: Stream, f: Fields, d: int)
    requires forall op | op in ops :: !Bears(op)
    ensures WalkOperands(c, ops, t, f.(displacement := d)).Some? <==> WalkOperands(c, ops, s, f).Some?
    ensures WalkOperands(c, ops, s, f).Some? ==>
              WalkOperands(c, ops, t, f.(displacement := d)).value
                == WalkOperands(c, ops, s, f).value.(displacement := d)
    ensures WalkOperands(c, ops, s, f).Some? ==> var r := WalkOperands(c, ops, s, f).value;
              r.displacement == f.displacement && r.relative == f.relative && r.dispAt == f.dispAt && r.at >= f.at
    decreases |ops|
  {
    hide StepOperand, Bears;
    if ops != [] {
      PlainStep(c, ops[0], s, t, f, d);
      match StepOperand(c, ops[0], s, f)
      case None =>
      case Some(g) => NoAddressNoReads(c, ops[1..], s, t, g, d);
    }
  }

  /** With an IP-relative memory operand the walk reads the four displacement bytes only. */
  lemma {:induction false} WalkIpRelative(c: Context, ops: seq<Operand>, s: Stream, t: Stream, f: Fields, k: nat)
    requires OneAddress(ops) && k < |ops| && ops[k].Mem? && IsIpRelative(c.arch, c.addressSize, c.modrm)
    requires WalkOperands(c, ops, s, f).Some?
    ensures var r := WalkOperands(c, ops, s, f).value;
      && r.relative && f.at <= r.dispAt && r.dispAt + 4 <= r.at && r.displacement == SignedLe(s, r.dispAt, 4)
      && WalkOperands(c, ops, t, f) == Some(r.(displacement := SignedLe(t, r.dispAt, 4)))
      && ((forall j | 0 <= j < k :: ops[j].Plain?) ==> r.dispAt == f.at)
    decreases |ops|
  {
    hide SignedLe;
    if k == 0 {
      var g := StepOperand(c, ops[0], s, f).value;
      assert forall op | op in ops[1..] :: !Bears(op);
      assert g.dispAt == f.at && g.at == f.at + 4 && g.displacement == SignedLe(s, f.at, 4);
      assert StepOperand(c, ops[0], t, f) == Some(g.(displacement := SignedLe(t, f.at, 4)));
      NoAddressNoReads(c, ops[1..], s, t, g, SignedLe(t, f.at, 4));
    } else {
      assert !Bears(ops[0]);
      assert StepOperand(c, ops[0], t, f) == StepOperand(c, ops[0], s, f);
      assert ops[1..][k - 1] == ops[k];
      WalkIpRelative(c, ops[1..], s, t, StepOperand(c, ops[0], s, f).value, k - 1);
    }
  }

  lemma StepFlag(c: Context, op: Operand, s: Stream, f: Fields)
    requires StepOperand(c, op, s, f).Some?
    ensures var r := StepOperand(c, op, s, f).value.ipRel;
      r == f.ipRel + [op.Rel? || (op.Mem? && IsIpRelative(c.arch, c.addressSize, c.modrm))]
    ensures var g := StepOperand(c, op, s, f).value; f.relative || g.ipRel[|f.ipRel|] ==> g.relative
  {
  }

  /** Each flag tells whether its operand is a branch or an IP-relative memory operand. */
  lemma {:induction false} WalkFlags(c: Context, ops: seq<Operand>, s: Stream, f: Fields, k: nat)
    requires WalkOperands(c, ops, s, f).Some?
    ensures var r := WalkOperands(c, ops, s, f).value;
      && |r.ipRel| == |f.ipRel| + |ops| && r.ipRel[..|f.ipRel|] == f.ipRel
      && (k < |ops| ==> (r.ipRel[|f.ipRel| + k] <==>
            ops[k].Rel? || (ops[k].Mem? && IsIpRelative(c.arch, c.addressSize, c.modrm))))
      && (f.relative || (k < |ops| && r.ipRel[|f.ipRel| + k]) ==> r.relative)
    decreases |ops|
  {
    hide StepOperand;
    if ops != [] {
      var g := StepOperand(c, ops[0], s, f).value;
      StepFlag(c, ops[0], s, f);
      WalkFlags(c, ops[1..], s, g, if k > 0 then k - 1 else 0);
      assert WalkOperands(c, ops, s, f).value.ipRel[|f.ipRel|] == g.ipRel[|f.ipRel|];
      if k > 0 && k < |ops| { assert ops[1..][k - 1] == ops[k]; }
    }
  }

  // ---------------------------------------------------------------- the true length

  /** The bytes the decoder leaves out of an uncounted instruction: ModRM and those it announces. */
  function LeftOut(tables: Tables, arch: Arch, s: Stream): nat {
    match EntryOf(tables, arch, s)
    case None => 0
    case Some((h, info)) =>
      var at := h.opcodeAt + |OpcodeOf(s, h)|;
      if Counted(tables, arch, s) then 0
      else 1 + AddressingBytes(AddressSizeOf(arch, 0x67 in h.prefixes), s(at), s(at + 1))
  }

  /** The decoder gives an instruction its true length if and only if it counts its ModRM byte, and
      otherwise the true instruction is longer by that byte and the addressing bytes it announces. Both
      decode the same streams. */
  lemma LengthIsTrueIff(tables: Tables, arch: Arch, s: Stream)
    ensures Decode(tables, arch, s).Some? <==> TrueDecode(tables, arch, s).Some?
    ensures Counted(tables, arch, s) ==> TrueDecode(tables, arch, s) == Decode(tables, arch, s)
    ensures Decode(tables, arch, s).Some? ==>
              var a, b := Decode(tables, arch, s).value.length, TrueDecode(tables, arch, s).value.length;
              (a == b <==> Counted(tables, arch, s)) && b == a + LeftOut(tables, arch, s)
  {
    hide StepOperand, ReadHeader, AddressingBytes;
  }

  /** No instruction is empty. */
  lemma LengthIsPositive(tables: Tables, arch: Arch, s: Stream)
    ensures Decode(tables, arch, s).Some? ==> Decode(tables, arch, s).value.length > 0
    ensures TrueDecode(tables, arch, s).Some? ==> TrueDecode(tables, arch, s).value.length > 0
  {
    LengthIsTrueIff(tables, arch, s);
    if Decode(tables, arch, s).Some? {
      var h, info, c, start := DecodeParts(tables, arch, s);
      WalkForward(c, info.operands, s, start);
    }
  }

  // ---------------------------------------------------------------- copies

  /** The stream's header, opcode, ModRM and table entry when it decodes. */
  ghost predicate Parts(tables: Tables, arch: Arch, s: Stream, h: Header, info: OpInfo, c: Context, start: Fields) {
    && EntryOf(tables, arch, s) == Some((h, info))
    && c == ContextOf(tables, arch, s, h, info)
    && start == Fields(OperandsAt(tables, arch, s, h, info, false), 0, false, 0, [])
  }

  lemma DecodeParts(tables: Tables, arch: Arch, s: Stream) returns (h: Header, info: OpInfo, c: Context, start: Fields)
    requires Decode(tables, arch, s).Some?
    ensures Parts(tables, arch, s, h, info, c, start)
    ensures WalkOperands(c, info.operands, s, start) == Some(Decode(tables, arch, s).value.fields)
    ensures h.opcodeAt + |OpcodeOf(s, h)| <= start.at
    ensures Counted(tables, arch, s) || info.operands != [] ==>
              (tables.hasModRM(OpcodeOf(s, h)) ==> h.opcodeAt + |OpcodeOf(s, h)| < start.at)
  {
    hide ReadHeader, WalkOperands;
    h, info := EntryOf(tables, arch, s).value.0, EntryOf(tables, arch, s).value.1;
    c := ContextOf(tables, arch, s, h, info);
    start := Fields(OperandsAt(tables, arch, s, h, info, false), 0, false, 0, []);
  }

  /** Streams that agree up to where the operands start have the same parts. */
  lemma SameParts(tables: Tables, arch: Arch, s: Stream, t: Stream, h: Header, info: OpInfo, c: Context, start: Fields)
    requires Parts(tables, arch, s, h, info, c, start) && Agree(s, t, 0, start.at)
    requires h.opcodeAt + |OpcodeOf(s, h)| <= start.at
    requires tables.hasModRM(OpcodeOf(s, h)) ==> h.opcodeAt + |OpcodeOf(s, h)| < start.at
    ensures Parts(tables, arch, t, h, info, c, start) && OpcodeOf(t, h) == OpcodeOf(s, h)
  {
    hide ReadHeader;
    HeaderLocal(arch, s, t);
    assert s(h.opcodeAt) == t(h.opcodeAt);
    if s(h.opcodeAt) == 0x0F { assert s(h.opcodeAt + 1) == t(h.opcodeAt + 1); }
    assert OpcodeOf(s, h) == OpcodeOf(t, h);
    if tables.hasModRM(OpcodeOf(s, h)) {
      var i := h.opcodeAt + |OpcodeOf(s, h)|;
      assert s(i) == t(i);
    }
  }

  /** What the processor sees of an instruction apart from the value of a displacement: whether it passes
      control on, and where its address lies. */
  ghost predicate SameNature(tables: Tables, s: Stream, t: Stream) {
    && TransferAt(tables, t) == TransferAt(tables, s) && AddressField(tables, t) == AddressField(tables, s)
    && InterruptReturnAt(tables, t) == InterruptReturnAt(tables, s)
  }

  lemma NatureOfParts(tables: Tables, s: Stream, t: Stream, h: Header, info: OpInfo, c: Context, start: Fields)
    requires Parts(tables, X64, s, h, info, c, start) && Parts(tables, X64, t, h, info, c, start)
    requires OpcodeOf(t, h) == OpcodeOf(s, h)
    ensures SameNature(tables, s, t)
  {
    hide ReadHeader, Transfers, InterruptReturn, AddressSizeOf, OperandSizeFor;
  }

  /** An instruction whose ModRM byte is counted decodes to the same fields wherever its bytes are
      copied, and the processor sees it as the decoder does. */
  lemma CopiedInstruction(tables: Tables, arch: Arch, s: Stream, t: Stream)
    requires Decode(tables, arch, s).Some? && Counted(tables, arch, s)
    requires Agree(s, t, 0, Decode(tables, arch, s).value.length)
    ensures Decode(tables, arch, t) == TrueDecode(tables, arch, t) == Decode(tables, arch, s)
    ensures Counted(tables, arch, t) && (Regular(tables, arch, s) ==> Regular(tables, arch, t))
    ensures arch.X64? ==> SameNature(tables, s, t)
  {
    hide RegularInfo, SameNature;
    var h, info, c, start := DecodeParts(tables, arch, s);
    WalkForward(c, info.operands, s, start);
    SameParts(tables, arch, s, t, h, info, c, start);
    WalkLocal(c, info.operands, s, t, start);
    LengthIsTrueIff(tables, arch, t);
    if arch.X64? { NatureOfParts(tables, s, t, h, info, c, start); }
  }

  /** An instruction the hook engine patches: a MOV or LEA with an IP-relative operand. */
  predicate Patchable(i: Insn) {
    && (i.itype.MOV? || i.itype.LEA?) && i.fields.relative && i.operandSize == 8
    && |i.fields.ipRel| == 2 && (i.fields.ipRel[1] || i.fields.ipRel[0])
  }

  ghost predicate AgreeOutside(s: Stream, t: Stream, length: nat, hole: nat) {
    forall j: nat | j < length && !(hole <= j < hole + 4) :: s(j) == t(j)
  }

  /** A patchable instruction keeps its identity with any other bytes from its displacement field on:
      it decodes to the displacement now in the field and is otherwise the same instruction. */
  lemma PatchedInstruction(tables: Tables, arch: Arch, s: Stream, t: Stream)
    requires Decode(tables, arch, s).Some? && Patchable(Decode(tables, arch, s).value) && Regular(tables, arch, s)
    requires Agree(s, t, 0, Decode(tables, arch, s).value.fields.dispAt)
    ensures var i := Decode(tables, arch, s).value; var d := i.fields.dispAt;
      && 0 < d && d + 4 <= i.length && i.fields.displacement == SignedLe(s, d, 4)
      && Decode(tables, arch, t) == Some(i.(fields := i.fields.(displacement := SignedLe(t, d, 4))))
      && Counted(tables, arch, s) && TrueDecode(tables, arch, t) == Decode(tables, arch, t) && Regular(tables, arch, t)
      && arch.X64? && AddressField(tables, s) == Some(d) && SameNature(tables, s, t)
  {
    hide SignedLe, WalkOperands, OneAddress, ReadHeader, RegularInfo, SameNature;
    var h, info, c, start := DecodeParts(tables, arch, s);
    var f := Decode(tables, arch, s).value.fields;
    WalkFlags(c, info.operands, s, start, 0);
    WalkFlags(c, info.operands, s, start, 1);
    var k := if f.ipRel[1] then 1 else 0;
    OneOf(info, OpcodeOf(s, h), c.modrm);
    assert info.operands[k] in info.operands;
    WalkIpRelative(c, info.operands, s, t, start, k);
    SameParts(tables, arch, s, t, h, info, c, start);
    LengthIsTrueIff(tables, arch, t);
    NatureOfParts(tables, s, t, h, info, c, start);
    assert AddressField(tables, s) == Some(f.dispAt);
  }

  lemma OneOf(info: OpInfo, opcode: seq<byte>, modrm: byte)
    requires RegularInfo(opcode, modrm, info)
    ensures OneAddress(info.operands)
    ensures forall j, k | 0 <= j < k < |info.operands| && info.operands[k].Mem? :: info.operands[j].Plain?
    ensures info.itype.MOV? || info.itype.LEA? ==> forall op | op in info.operands :: !op.Rel?
  {
  }

  /** The decoder's flags tell which operands count from the end of the instruction: branch operands, and
      memory operands under a ModRM byte with mod 0 and rm 5. */
  lemma FlagsOf(tables: Tables, s: Stream)
    requires Decode(tables, X64, s).Some?
    ensures var e, f := EntryOf(tables, X64, s).value, Decode(tables, X64, s).value.fields;
      var modrm := ModRMOf(tables, s, e.0);
      && |f.ipRel| == |e.1.operands|
      && forall k | 0 <= k < |f.ipRel| :: f.ipRel[k] <==>
           (e.1.operands[k].Rel? || (e.1.operands[k].Mem? && modrm / 64 == 0 && modrm % 8 == 5))
    ensures var f := Decode(tables, X64, s).value.fields; forall k | 0 <= k < |f.ipRel| && f.ipRel[k] :: f.relative
  {
    hide WalkOperands, ReadHeader;
    var h, info, c, start := DecodeParts(tables, X64, s);
    WalkFlags(c, info.operands, s, start, 0);
    forall k: nat | k < |info.operands| ensures Decode(tables, X64, s).value.fields.ipRel[k] <==>
      (info.operands[k].Rel? || (info.operands[k].Mem? && c.modrm / 64 == 0 && c.modrm % 8 == 5))
      ensures Decode(tables, X64, s).value.fields.ipRel[k] ==> Decode(tables, X64, s).value.fields.relative
    {
      WalkFlags(c, info.operands, s, start, k);
    }
  }
}
