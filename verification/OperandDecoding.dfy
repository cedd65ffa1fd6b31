/** SetOperands, SetModRM16, SetModRM32, SetSIB and ApplyDisplacement
    (tmemutil-3rd/src/mhook-lib/disasm_x86.c): how far each operand moves the decoder, which
    displacement it records, and where an IP-relative operand is said to point. */
module OperandDecoding {
  import opened Wrappers
  import opened X86
  import opened Pointers
  import Words

  // ---------------------------------------------------------------- target addresses

  /** 2^(8*n) for the operand sizes that occur. */
  function SizeRange(operandSize: nat): (m: nat)
    ensures m > 0
  {
    if operandSize == 8 then ADDRESSES else if operandSize == 4 then TWO32 else TWO16
  }

  /** The three widths wrap differently: 64-bit pointers, unsigned 32-bit, and 16-bit operands that C
      promotes to a signed difference. `delta` is VirtualAddressDelta. */
  function ApplyDisplacement(address: int, displacement: int, operandSize: nat, delta: int): int {
    match operandSize
    case 8 => (address + displacement) % ADDRESSES
    case 4 =>
      var pre := (address + delta) % TWO32;
      var post := (pre + displacement) % TWO32;
      (address + (post - pre) % TWO32) % ADDRESSES
    case 2 =>
      var pre := (address + delta) % TWO16;
      var post := (pre + displacement) % TWO16;
      (address + (post - pre)) % ADDRESSES
    case _ => 0
  }

  lemma RemoveMultiple(x: int, m: int, j: int)
    requires m > 0
    ensures (x - j * m) % m == x % m
  {
    Words.DivAddMultiple(x, m, -j);
  }

  /** Reducing modulo a big power first does not change the remainder by a smaller one. */
  lemma DropHigh(x: int, m: int, k: int, big: int)
    requires m > 0 && k > 0 && big == k * m
    ensures x % big % m == x % m
  {
    var q := x / big;
    assert x % big == x - q * big by { Words.DivBounds(x, big); }
    assert q * big == q * k * m by { Words.Associate(q, k, m); }
    RemoveMultiple(x, m, q * k);
  }

  /** The result is right modulo the operand size. */
  lemma ApplyDisplacementCongruent(address: int, displacement: int, operandSize: nat, delta: int)
    requires operandSize == 8 || operandSize == 4 || operandSize == 2
    ensures ApplyDisplacement(address, displacement, operandSize, delta) % SizeRange(operandSize)
         == (address + displacement) % SizeRange(operandSize)
  {
    if operandSize == 8 {
      DropHigh(address + displacement, ADDRESSES, 1, ADDRESSES);
    } else {
      var m := SizeRange(operandSize);
      var pre := (address + delta) % m;
      var post := (pre + displacement) % m;
      var step := if operandSize == 4 then (post - pre) % m else post - pre;
      DropHigh(address + step, m, ADDRESSES / m, ADDRESSES);
      SameStep(address, displacement, pre, m);
    }
  }

  lemma SameStep(address: int, displacement: int, pre: int, m: int)
    requires m > 0
    ensures var post := (pre + displacement) % m;
      && (address + (post - pre)) % m == (address + displacement) % m
      && (address + (post - pre) % m) % m == (address + displacement) % m
  {
    var x := pre + displacement;
    var post := x % m;
    Words.DivBounds(x, m);
    assert address + (post - pre) == address + displacement - x / m * m;
    RemoveMultiple(address + displacement, m, x / m);
    var step := post - pre;
    Words.DivBounds(step, m);
    assert address + step % m == address + step - step / m * m;
    RemoveMultiple(address + step, m, step / m);
  }

  /** With 32-bit operands the full 64-bit address is right exactly for forward displacements. */
  lemma ApplyDisplacementExact32(address: int, displacement: int, delta: int)
    requires -0x8000_0000 <= displacement < 0x8000_0000
    ensures ApplyDisplacement(address, displacement, 4, delta) == (address + displacement) % ADDRESSES
      <==> displacement >= 0
  {
  }

  /** The immediate size guessed in SetModRM32 from the operands behind the memory operand: the last
      of them with a recognised type wins. */
  function LookAhead(ops: seq<Operand>, k: nat, operandSize: nat, guess: nat): nat
    requires k <= |ops|
    decreases |ops| - k
  {
    if k == |ops| then guess
    else
      var next :=
        match ops[k]
        case Imm(V) => operandSize
        case Imm(Z) => if operandSize == 2 then 2 else 4
        case Imm(B) => 1
        case Imm(W) => 2
        case _ => guess;
      LookAhead(ops, k + 1, operandSize, next)
  }

  predicate Known(t: OpType) { t.B? || t.W? || t.Z? || t.V? }

  /** Nothing follows but registers and at most one immediate of a type the look-ahead knows. */
  predicate Foreseen(ops: seq<Operand>, k: nat)
    requires k <= |ops|
    decreases |ops| - k
  {
    k == |ops|
    || (ops[k].Plain? && Foreseen(ops, k + 1))
    || (ops[k].Imm? && Known(ops[k].t) && forall j | k < j < |ops| :: ops[j].Plain?)
  }

  /** Behind every memory operand only such operands follow. That is so in every row of the decoder's
      tables: there an immediate behind a memory operand has type b or z, or none of its own bytes. */
  predicate ForeseesAll(ops: seq<Operand>) { forall k: nat | k < |ops| && ops[k].Mem? :: Foreseen(ops, k + 1) }

  predicate HasMemory(ops: seq<Operand>) { exists k: nat :: k < |ops| && ops[k].Mem? }

  /** The address is right modulo the operand size. */
  predicate PointsTo(operandSize: nat, target: int, a: int) {
    target % SizeRange(operandSize) == a % SizeRange(operandSize)
  }

  /** The guess equals the bytes the remaining operands then consume. */
  lemma {:induction false} LookAheadAgrees(c: Context, ops: seq<Operand>, k: nat, s: Stream, f: Fields)
    requires k <= |ops| && Foreseen(ops, k)
    ensures var r := WalkOperands(c, ops[k..], s, f);
            r.Some? ==> r.value.at == f.at + LookAhead(ops, k, c.operandSize, 0)
    decreases |ops| - k
  {
    if k < |ops| {
      assert ops[k..][1..] == ops[k + 1..];
      match StepOperand(c, ops[k], s, f)
      case None =>
      case Some(g) =>
        if ops[k].Plain? {
          LookAheadAgrees(c, ops, k + 1, s, g);
        } else {
          LookAheadAtImmediate(ops, k, c.operandSize);
          OnlyRegisters(c, ops, k + 1, s, g, OperandLength(ops[k].t, c.operandSize));
        }
    }
  }

  lemma LookAheadAtImmediate(ops: seq<Operand>, k: nat, operandSize: nat)
    requires k < |ops| && ops[k].Imm? && Known(ops[k].t)
    ensures LookAhead(ops, k, operandSize, 0)
      == LookAhead(ops, k + 1, operandSize, OperandLength(ops[k].t, operandSize))
  {
  }

  lemma {:induction false} OnlyRegisters(c: Context, ops: seq<Operand>, k: nat, s: Stream, f: Fields, guess: nat)
    requires k <= |ops| && forall j | k <= j < |ops| :: ops[j].Plain?
    ensures var r := WalkOperands(c, ops[k..], s, f); r.Some? && r.value.at == f.at
    ensures LookAhead(ops, k, c.operandSize, guess) == guess
    decreases |ops| - k
  {
    if k < |ops| {
      assert ops[k..][1..] == ops[k + 1..];
      OnlyRegisters(c, ops, k + 1, s, StepOperand(c, ops[k], s, f).value, guess);
    }
  }

  /** Exactly which immediate types the look-ahead gets right when one immediate follows. */
  lemma LookAheadKnowsFourTypes(c: Context, op: Operand, t: OpType, s: Stream, f: Fields)
    requires Encodable(OperandLength(t, c.operandSize))
    requires c.operandSize == 2 || c.operandSize == 4 || c.operandSize == 8
    ensures var r := WalkOperands(c, [Imm(t)], s, f);
            r.Some? && (r.value.at == f.at + LookAhead([op, Imm(t)], 1, c.operandSize, 0) <==> t in {B, W, Z, V})
  {
    assert [Imm(t)][1..] == [];
    assert LookAhead([op, Imm(t)], 2, c.operandSize, 7) == 7;
  }

  /** Tables 2-2 and 2-3, case by case. */
  lemma AddressingCases(addressSize: nat, modrm: byte, sib: byte)
    requires addressSize != 2
    ensures Mod(modrm) <= 3
    ensures Mod(modrm) == 3 ==> AddressingBytes(addressSize, modrm, sib) == 0
    ensures Mod(modrm) == 0 && Rm(modrm) == 5 ==> AddressingBytes(addressSize, modrm, sib) == 4
    ensures Mod(modrm) != 3 && Rm(modrm) != 4 && !(Mod(modrm) == 0 && Rm(modrm) == 5) ==>
              AddressingBytes(addressSize, modrm, sib) == DispBytes(Mod(modrm))
    ensures Mod(modrm) != 3 && Rm(modrm) == 4 && sib % 8 != 5 ==>
              AddressingBytes(addressSize, modrm, sib) == 1 + DispBytes(Mod(modrm))
    ensures Mod(modrm) != 3 && Rm(modrm) == 4 && sib % 8 == 5 ==>
              AddressingBytes(addressSize, modrm, sib) == 1 + if Mod(modrm) == 1 then 1 else 4
  {
  }

  function DispBytes(mod: nat): nat { if mod == 0 then 0 else if mod == 1 then 1 else 4 }

  // ---------------------------------------------------------------- the decoder

  /** The instruction fields SetOperands updates. `address` is where the instruction lies and `code`
      the bytes from there on; `at` below is the C pointer Address, relative to it. */
  class OperandDecoder {
    const c: Context
    const code: Stream
    const address: int
    const delta: int
    const operands: seq<Operand>
    var length: nat
    var displacement: int
    var relative: bool
    var ipRel: seq<bool>
    var targetAddress: int
    var dispAt: nat

    constructor (c: Context, code: Stream, address: int, delta: int, operands: seq<Operand>, length: nat)
      ensures this.c == c && this.code == code && this.address == address && this.delta == delta
      ensures this.operands == operands && State() == Fields(length, 0, false, 0, [])
    {
      this.c, this.code, this.address, this.delta, this.operands := c, code, address, delta, operands;
      this.length, displacement, relative, ipRel, targetAddress, dispAt := length, 0, false, [], 0, 0;
    }

    ghost function State(): Fields
      reads this
    {
      Fields(length, displacement, relative, dispAt, ipRel)
    }

    /** 16-bit addressing. Address and Length advance together, by the bytes the SDM's Table 2-1 gives. */
    method SetModRM16(at: nat, operandLength: nat) returns (next: Option<nat>)
      requires at == length && c.addressSize == 2
      modifies this`length, this`displacement
      ensures next.Some? <==> Mod(c.modrm) != 3 || operandLength in {1, 2, 4}
      ensures next.Some? ==> next.value == length == at + AddressingBytes(2, c.modrm, code(at))
      ensures next.Some? ==> displacement == MemDisplacement(c, code, at, old(displacement))
    {
      var mod, rm := Mod(c.modrm), Rm(c.modrm);
      if mod == 3 {
        return if operandLength in {1, 2, 4} then Some(at) else None;
      } else if mod == 0 && rm == 6 {
        displacement := SignedLe(code, at, 2);
        length := length + 2;
      } else {
        match mod
        case 0 =>
        case 1 =>
          displacement := SignedLe(code, at, 1);
          length := length + 1;
        case _ =>
          displacement := SignedLe(code, at, 2);
          length := length + 2;
      }
      next := Some(length);
    }

    /** The SIB byte, and the displacement when its base field is 5. */
    method SetSIB(at: nat) returns (next: nat)
      requires at == length && c.addressSize != 2 && Mod(c.modrm) != 3 && Rm(c.modrm) == 4
      modifies this`length, this`displacement
      ensures next == length
        == at + (if code(at) % 8 == 5 then AddressingBytes(c.addressSize, c.modrm, code(at)) else 1)
      ensures displacement ==
              if code(at) % 8 == 5 then MemDisplacement(c, code, at, old(displacement)) else old(displacement)
    {
      hide SignedLe;
      AddressingCases(c.addressSize, c.modrm, code(at));
      var sib := code(at);
      length := length + 1;
      if sib % 8 == 5 {
        match Mod(c.modrm)
        case 1 =>
          displacement := SignedLe(code, at + 1, 1);
          length := length + 1;
        case _ =>
          displacement := SignedLe(code, at + 1, 4);
          length := length + 4;
      }
      next := length;
    }

    /** 32- and 64-bit addressing, by Tables 2-2 and 2-3. */
    method SetModRM32(at: nat, k: nat) returns (next: Option<nat>)
      requires at == length && k < |operands| && operands[k].Mem?
      requires c.addressSize == 2 || c.addressSize == 4 || c.addressSize == 8
      requires Mod(c.modrm) == 3 ==> operands[k].form == E
      modifies this`length, this`displacement, this`relative, this`targetAddress, this`dispAt
      ensures next.Some? ==> next.value == length == at + AddressingBytes(c.addressSize, c.modrm, code(at))
      ensures next.Some? ==> displacement == MemDisplacement(c, code, at, old(displacement))
      ensures next.Some? <==>
                Mod(c.modrm) != 3 || (Encodable(OperandLength(operands[k].t, c.operandSize))
                                      && (c.addressSize == 2 ==> OperandLength(operands[k].t, c.operandSize) != 8))
      ensures next.Some? ==> var ip := IsIpRelative(c.arch, c.addressSize, c.modrm);
        && relative == (old(relative) || ip) && dispAt == (if ip then at else old(dispAt))
        && targetAddress == (if ip
             then ApplyDisplacement(address + at + 4 + LookAhead(operands, k + 1, c.operandSize, 0),
                                    displacement, c.operandSize, delta)
             else old(targetAddress))
    {
      hide SignedLe, AddressingBytes, LookAhead, ApplyDisplacement, OperandLength;
      if c.addressSize == 2 {
        next := SetModRM16(at, OperandLength(operands[k].t, c.operandSize));
        return;
      }
      AddressingCases(c.addressSize, c.modrm, code(at));
      var mod, rm := Mod(c.modrm), Rm(c.modrm);
      if mod == 3 {
        return if Encodable(OperandLength(operands[k].t, c.operandSize)) then Some(at) else None;
      } else if mod == 0 && rm == 5 {
        displacement := SignedLe(code, at, 4);
        length := length + 4;
        if c.arch.X64? {
          relative := true;
          dispAt := at;
          var immediateSize := LookAhead(operands, k + 1, c.operandSize, 0);
          targetAddress := ApplyDisplacement(address + length + immediateSize, displacement, c.operandSize, delta);
        }
      } else if rm == 4 {
        var afterSib := SetSIB(at);
        if code(at) % 8 != 5 {
          ReadDisplacement(mod);
        }
      } else {
        ReadDisplacement(mod);
      }
      next := Some(length);
    }

    /** No displacement, an 8-bit one or a 32-bit one. */
    method ReadDisplacement(mod: nat)
      requires mod < 3
      modifies this`length, this`displacement
      ensures length == old(length) + DispBytes(mod)
      ensures displacement ==
              if mod == 0 then old(displacement) else SignedLe(code, old(length), if mod == 1 then 1 else 4)
    {
      if mod == 1 {
        displacement := SignedLe(code, length, 1);
        length := length + 1;
      } else if mod == 2 {
        displacement := SignedLe(code, length, 4);
        length := length + 4;
      }
    }

    /** AMODE_E, AMODE_M, AMODE_Q and AMODE_W. */
    method SetMemory(at: nat, k: nat) returns (next: Option<nat>)
      requires at == length && k < |operands| && operands[k].Mem? && Sizes(c)
      modifies this
      ensures next.Some? <==> StepOperand(c, operands[k], code, old(State())).Some?
      ensures next.Some? ==> next.value == length && Some(State()) == StepOperand(c, operands[k], code, old(State()))
      ensures next.Some? ==> targetAddress == Target(k, at, displacement, old(targetAddress))
    {
      hide MemDisplacement, AddressingBytes, LookAhead, ApplyDisplacement, OperandLength;
      var Mem(t, form) := operands[k];
      if Mod(c.modrm) == 3 && (form.M? || (form.E? && t.P?)) { return None; }
      if Mod(c.modrm) == 3 && form.XmmOrMmx? {
        RegisterOnly(at);
        ipRel := ipRel + [false];
        return Some(at);
      }
      RegisterOnly(at);
      next := SetModRM32(at, k);
      ipRel := ipRel + [IsIpRelative(c.arch, c.addressSize, c.modrm)];
    }

    lemma RegisterOnly(at: nat)
      ensures Mod(c.modrm) == 3 ==>
        && AddressingBytes(c.addressSize, c.modrm, code(at)) == 0
        && forall d: int :: MemDisplacement(c, code, at, d) == d
    {
    }

    /** Where the operand is said to point once `d` is its displacement. */
    ghost function Target(k: nat, at: nat, d: int, previous: int): int
      requires k < |operands|
    {
      if operands[k].Mem? && IsIpRelative(c.arch, c.addressSize, c.modrm)
      then ApplyDisplacement(address + at + 4 + LookAhead(operands, k + 1, c.operandSize, 0), d, c.operandSize, delta)
      else previous
    }

    /** One operand, as the body of the operand loop. */
    method SetOperand(at: nat, k: nat) returns (next: Option<nat>)
      requires at == length && k < |operands| && Sizes(c)
      modifies this
      ensures next.Some? <==> StepOperand(c, operands[k], code, old(State())).Some?
      ensures next.Some? ==> next.value == length && Some(State()) == StepOperand(c, operands[k], code, old(State()))
      ensures next.Some? && !operands[k].Rel? ==> targetAddress == Target(k, at, displacement, old(targetAddress))
      ensures next.Some? && operands[k].Rel? ==>
        targetAddress == ApplyDisplacement(address + length, displacement, c.operandSize, delta)
    {
      hide SignedLe, Le, ApplyDisplacement, LookAhead, MemDisplacement, AddressingBytes;
      match operands[k] {
        case Plain =>
          ipRel := ipRel + [false];
        case Imm(t) =>
          var n := OperandLength(t, c.operandSize);
          if !Encodable(n) { return None; }
          length := length + n;
          ipRel := ipRel + [false];
        case Rel(t) =>
          var n := OperandLength(t, c.operandSize);
          if !Encodable(n) { return None; }
          displacement := SignedLe(code, at, n);
          relative, dispAt, ipRel := true, at, ipRel + [true];
          length := length + n;
          targetAddress := ApplyDisplacement(address + length, displacement, c.operandSize, delta);
        case Moffs =>
          displacement := Le(code, at, c.addressSize);
          length := length + c.addressSize;
          ipRel := ipRel + [false];
        case Far(t) =>
          var n := OperandLength(t, c.operandSize);
          if n != 4 && n != 6 { return None; }
          displacement := SignedLe(code, at + 2, n - 2);
          length := length + n;
          ipRel := ipRel + [false];
        case Mem(t, form) =>
          next := SetMemory(at, k);
          return;
      }
      next := Some(length);
    }

    /** SetOperands: the operands in order. Afterwards Address is still the instruction's address plus
        Length, and an IP-relative memory operand is said to point, modulo the operand size, at the
        end of the whole instruction plus its displacement, as Intel SDM Vol. 2A section 2.2.1.6
        defines it. */
    method SetOperands(at: nat) returns (next: Option<nat>)
      requires at == length && Sizes(c)
      modifies this
      ensures next.Some? <==> WalkOperands(c, operands, code, old(State())).Some?
      ensures next.Some? ==> next.value == length && Some(State()) == WalkOperands(c, operands, code, old(State()))
      ensures next.Some? && ForeseesAll(operands) && HasMemory(operands)
              && IsIpRelative(c.arch, c.addressSize, c.modrm) ==>
        PointsTo(c.operandSize, targetAddress, address + length + displacement)
    {
      hide StepOperand, SizeRange, ApplyDisplacement, LookAhead, IsIpRelative, Foreseen, OperandLength, PointsTo;
      ghost var mem: nat := 0;
      if HasMemory(operands) { mem :| mem < |operands| && operands[mem].Mem?; }
      var k := 0;
      next := Some(at);
      ghost var afterMem := State();
      while k < |operands|
        invariant 0 <= k <= |operands| && next == Some(length)
        invariant WalkOperands(c, operands[k..], code, State()) == WalkOperands(c, operands, code, old(State()))
        invariant PointsPastEnd(mem) && k > mem ==> Announced(mem, afterMem)
        invariant PointsPastEnd(mem) && k > mem ==>
                    WalkOperands(c, operands[mem + 1..], code, afterMem)
                      == WalkOperands(c, operands, code, old(State()))
      {
        assert operands[k..][1..] == operands[k + 1..];
        ghost var before := State();
        if PointsPastEnd(mem) && k > mem { KeepsAnnouncement(mem, k, before); }
        next := SetOperand(length, k);
        if next.None? { return; }
        if k == mem && PointsPastEnd(mem) {
          afterMem := State();
          MemoryEndsAfterDisplacement(mem, before);
        }
        k := k + 1;
      }
      if PointsPastEnd(mem) { LookAheadAgrees(c, operands, mem + 1, code, afterMem); }
      Congruent(mem, afterMem);
    }

    /** Operand `mem` is IP-relative and the look-ahead foresees what follows it. */
    ghost predicate PointsPastEnd(mem: nat) {
      && mem < |operands| && operands[mem].Mem? && IsIpRelative(c.arch, c.addressSize, c.modrm)
      && Foreseen(operands, mem + 1)
    }

    /** The target recorded when the memory operand was decoded, still in place. */
    ghost predicate Announced(mem: nat, afterMem: Fields)
      requires mem < |operands|
      reads this
    {
      && displacement == afterMem.displacement
      && targetAddress == ApplyDisplacement(address + afterMem.at + LookAhead(operands, mem + 1, c.operandSize, 0),
                                            displacement, c.operandSize, delta)
    }

    lemma KeepsAnnouncement(mem: nat, k: nat, f: Fields)
      requires PointsPastEnd(mem) && mem < k < |operands|
      ensures !operands[k].Mem? && !operands[k].Rel?
      ensures var r := StepOperand(c, operands[k], code, f); r.Some? ==> r.value.displacement == f.displacement
      ensures forall at: nat, d: int, p: int :: Target(k, at, d, p) == p
    {
      ForeseenKinds(operands, mem + 1, k);
    }

    lemma MemoryEndsAfterDisplacement(mem: nat, f: Fields)
      requires PointsPastEnd(mem)
      ensures var r := StepOperand(c, operands[mem], code, f); r.Some? ==> r.value.at == f.at + 4
    {
    }

    lemma Congruent(mem: nat, afterMem: Fields)
      requires Sizes(c)
      requires PointsPastEnd(mem) ==>
        Announced(mem, afterMem) && length == afterMem.at + LookAhead(operands, mem + 1, c.operandSize, 0)
      ensures PointsPastEnd(mem) ==> PointsTo(c.operandSize, targetAddress, address + length + displacement)
    {
      if PointsPastEnd(mem) {
        ApplyDisplacementCongruent(address + length, displacement, c.operandSize, delta);
      }
    }
  }

  lemma {:induction false} ForeseenKinds(ops: seq<Operand>, k: nat, j: nat)
    requires k <= j < |ops| && Foreseen(ops, k)
    ensures ops[j].Plain? || ops[j].Imm?
    decreases j - k
  {
    if k < j && ops[k].Plain? { ForeseenKinds(ops, k + 1, j); }
  }

  predicate Sizes(c: Context) {
    && (c.addressSize == 2 || c.addressSize == 4 || c.addressSize == 8)
    && (c.operandSize == 2 || c.operandSize == 4 || c.operandSize == 8)
  }
}
