/** X86_GetInstruction (tmemutil-3rd/src/mhook-lib/disasm_x86.c) put together: the prefix scan, the
    opcode tables, and the operands. */
module InstructionDecoding {
  import opened Wrappers
  import opened X86
  import opened PrefixScan
  import opened OperandDecoding

  /** What the decoder says of an instruction, and where its IP-relative operand is said to point. */
  datatype Decoded = Decoded(insn: Insn, targetAddress: int)

  /** The sizes the prefix scan computes, and whether a 66H prefix is in effect. */
  datatype Sized = Sized(addressSize: Size, operandSize: Size, hasOperandSize: bool)

  predicate SizedBy(z: Sized, arch: Arch, h: Header) {
    && z.addressSize == AddressSizeOf(arch, 0x67 in h.prefixes)
    && z.operandSize == (if RexW(h.rex) then 8 else OperandSizeOf(arch, 0x66 in h.prefixes))
    && (z.hasOperandSize <==> 0x66 in h.prefixes && !RexW(h.rex))
  }

  /** The header as the prefix scan leaves it behind, and the sizes. */
  method GetHeader(arch: Arch, code: Stream) returns (r: Option<Header>, z: Sized)
    ensures r == ReadHeader(arch, code)
    ensures r.Some? ==> SizedBy(z, arch, r.value)
  {
    hide ReadHeader, Instruction.RexState;
    z := Sized(8, 4, false);
    var instruction := new Instruction(arch, code);
    var ok, first := instruction.Scan();
    if !ok { return None, z; }
    ghost var h := ReadHeader(arch, code).value;
    HeaderShape(arch, code);
    SizesAreNormal(instruction, h);
    var n := instruction.prefixCount;
    var rex := if n > 0 && IsRex(instruction.prefixes[n - 1]) then instruction.prefixes[n - 1] else 0;
    LastIsRex(instruction.prefixes[..n], h);
    var prefixes := instruction.prefixes[..n - if rex != 0 then 1 else 0];
    r := Some(Header(prefixes, rex, instruction.length - 1));
    z := Sized(instruction.addressSize, instruction.operandSize, instruction.hasOperandSize);
  }

  /** The operand size once the row is known: SSE rows selected by 66H, rows that default to 64 bits
      unless a 66H is in effect, and moves of control and debug registers set it anew. */
  method AdjustOperandSize(arch: Arch, h: Header, z: Sized, rule: SizeRule) returns (operandSize: Size)
    requires SizedBy(z, arch, h)
    ensures operandSize == OperandSizeFor(arch, h, rule)
  {
    operandSize := z.operandSize;
    match rule {
      case Usual =>
      case Mandatory66 => operandSize := if RexW(h.rex) then 8 else 4;
      case Default64 => if arch.X64? && !z.hasOperandSize { operandSize := 8; }
      case Always64 => if arch.X64? { operandSize := 8; }
    }
  }

  /** With the usual rule, 64-bit operands are those of a REX.W: so every instruction the hook engine
      patches has one. */
  lemma PatchableHasRexW(tables: Tables, s: Stream)
    requires Decode(tables, X64, s).Some? && EntryOf(tables, X64, s).value.1.sizes.Usual?
    ensures Decode(tables, X64, s).value.operandSize == 8 <==> RexW(EntryOf(tables, X64, s).value.0.rex)
  {
    hide ReadHeader, WalkOperands;
  }

  /** The whole decoder computes the function the other modules reason about. For an IP-relative memory
      operand the target it reports is, modulo the operand size, the end of the instruction plus the
      displacement. `address` is where the stream lies and `delta` is VirtualAddressDelta. */
  method GetInstruction(tables: Tables, arch: Arch, code: Stream, address: int, delta: int) returns (r: Option<Decoded>)
    ensures Decode(tables, arch, code) == if r.Some? then Some(r.value.insn) else None
    ensures r.Some? && Foreseeable(tables, arch, code) ==> TargetRight(r.value, address)
  {
    hide ReadHeader, WalkOperands, PointsTo, ForeseesAll, HasMemory, IsIpRelative, AddressSizeOf, OperandSizeFor;
    var header, z := GetHeader(arch, code);
    if header.None? { return None; }
    var h := header.value;
    var at := h.opcodeAt + 1;
    var opcode := [code(h.opcodeAt)];
    if code(h.opcodeAt) == 0x0F {
      opcode := [code(h.opcodeAt), code(at)];
      at := at + 1;
    }
    var hasModRM := tables.hasModRM(opcode);
    var modrm := if hasModRM then code(at) else 0;
    var row := tables.lookup(h.prefixes, h.rex, opcode, modrm);
    if row.None? { return None; }
    if hasModRM && (row.value.operands != [] || row.value.special) {
      at := at + 1;
    }
    var operandSize := AdjustOperandSize(arch, h, z, row.value.sizes);
    var c := Context(arch, z.addressSize, operandSize, modrm);
    assert ContextOf(tables, arch, code, h, row.value) == c;
    assert OperandsAt(tables, arch, code, h, row.value, false) == at;
    r := GetOperands(row.value, c, code, at, address, delta);
  }

  /** The operands, when the row has any. */
  method GetOperands(info: OpInfo, c: Context, code: Stream, at: nat, address: int, delta: int)
    returns (r: Option<Decoded>)
    requires Sizes(c)
    ensures var w := WalkOperands(c, info.operands, code, Fields(at, 0, false, 0, []));
      (if r.Some? then Some(r.value.insn) else None)
      == (if w.Some? then Some(Insn(w.value.at, info.itype, c.addressSize, c.operandSize, w.value)) else None)
    ensures r.Some? && ForeseesAll(info.operands) && HasMemory(info.operands)
            && IsIpRelative(c.arch, c.addressSize, c.modrm) ==>
      TargetRight(r.value, address)
  {
    hide StepOperand, PointsTo, ForeseesAll, IsIpRelative;
    var decoder := new OperandDecoder(c, code, address, delta, info.operands, at);
    if info.operands != [] {
      var next := decoder.SetOperands(at);
      if next.None? { return None; }
    }
    var fields := Fields(decoder.length, decoder.displacement, decoder.relative, decoder.dispAt, decoder.ipRel);
    var insn := Insn(decoder.length, info.itype, c.addressSize, c.operandSize, fields);
    r := Some(Decoded(insn, decoder.targetAddress));
  }

  /** The target is right modulo the operand size. */
  predicate TargetRight(d: Decoded, address: int) {
    PointsTo(d.insn.operandSize, d.targetAddress, address + d.insn.length + d.insn.fields.displacement)
  }

  /** A header's prefixes are legacy prefixes and its REX is one, or 0. */
  lemma HeaderShape(arch: Arch, s: Stream)
    requires ReadHeader(arch, s).Some?
    ensures var h := ReadHeader(arch, s).value;
      (forall b | b in h.prefixes :: IsLegacyPrefix(b)) && (h.rex == 0 || IsRex(h.rex))
  {
    var r := Prefixes(arch, s, 0, []);
    assert r.value.0[0..] == r.value.0;
  }

  lemma SizesAreNormal(instruction: Instruction, h: Header)
    requires instruction.RexState(h)
    ensures instruction.addressSize == AddressSizeOf(instruction.arch, 0x67 in h.prefixes)
    ensures instruction.operandSize == (if RexW(h.rex) then 8 else OperandSizeOf(instruction.arch, 0x66 in h.prefixes))
    ensures instruction.hasOperandSize <==> 0x66 in h.prefixes && !RexW(h.rex)
  {
  }

  /** The REX byte is the last of the prefixes stored, and no legacy prefix looks like one. */
  lemma LastIsRex(stored: seq<byte>, h: Header)
    requires |stored| == |h.prefixes| + (if h.rex == 0 then 0 else 1) && stored[..|h.prefixes|] == h.prefixes
    requires h.rex != 0 ==> stored[|h.prefixes|] == h.rex && IsRex(h.rex)
    requires forall b | b in h.prefixes :: IsLegacyPrefix(b)
    ensures |stored| > 0 && IsRex(stored[|stored| - 1]) <==> h.rex != 0
  {
    if h.rex == 0 && |stored| > 0 {
      assert stored[|stored| - 1] in h.prefixes;
    }
  }

  /** The instruction has an IP-relative memory operand, and its table row is one the look-ahead of the
      decoder foresees. */
  ghost predicate Foreseeable(tables: Tables, arch: Arch, s: Stream) {
    var e := EntryOf(tables, arch, s);
    e.Some? && ForeseesAll(e.value.1.operands) && HasMemory(e.value.1.operands)
    && IsIpRelative(arch, AddressSizeOf(arch, 0x67 in e.value.0.prefixes), ModRMOf(tables, s, e.value.0))
  }
}
