/** DisassembleAndSkip and FixupIPRelativeAddressing for x64 (tmemutil-3rd/src/mhook-lib/mhook.c),
    and what the relocated instructions do when they run. */
module Relocation {
  import opened Pointers
  import opened Wrappers
  import opened X86
  import opened CodeMemory
  import opened Processor
  import opened DecodeLocality
  import opened InstructionDecoding

  // ---------------------------------------------------------------- choosing the prefix

  /** What DisassembleAndSkip makes of a decoded instruction. */
  datatype Verdict = Stop | Copy | Patch

  predicate EndsBlock(t: Type) { t.RET? || t.BRANCH? || t.BRANCHCC? || t.CALL? || t.CALLCC? }

  function Judge(i: Insn): Verdict {
    if EndsBlock(i.itype) then Stop
    else if Patchable(i) then Patch
    else if exists k | 0 <= k < |i.fields.ipRel| && k < 3 :: i.fields.ipRel[k] then Stop
    else Copy
  }

  /** An instruction that can be moved, in the processor's terms and the table's: it goes on behind itself,
      and if it has an operand relative to its own address, that is the only address in a MOV or LEA with
      two operands of 64 bits. */
  ghost predicate CanMove(tables: Tables, s: Stream) {
    match EntryOf(tables, X64, s)
    case None => false
    case Some((h, info)) =>
      && FallsThrough(info.itype)
      && (AddressField(tables, s).Some? || (exists op | op in info.operands :: op.Rel?) ==>
            (info.itype == MOV || info.itype == LEA) && |info.operands| == 2 && OperandSizeFor(X64, h, info.sizes) == 8)
  }

  /** The scan accepts exactly these, and patches exactly those of them that name an address relative to
      their own. No other jump, call or return gets past it than interrupt returns. */
  lemma JudgeIs(tables: Tables, s: Stream)
    requires Decode(tables, X64, s).Some? && Regular(tables, X64, s) && Counted(tables, X64, s)
    ensures var i := Decode(tables, X64, s).value;
      && (Judge(i) != Stop <==> CanMove(tables, s))
      && (Judge(i) == Patch <==> CanMove(tables, s) && AddressField(tables, s).Some?)
      && (CanMove(tables, s) && TransferAt(tables, s) ==> InterruptReturnAt(tables, s))
  {
    hide ReadHeader, WalkOperands, OperandSizeFor, Transfers, InterruptReturn;
    FlagsOf(tables, s);
    var i, e := Decode(tables, X64, s).value, EntryOf(tables, X64, s).value;
    assert |e.1.operands| <= 3;
  }

  lemma PatchableIsPatch(i: Insn)
    ensures Patchable(i) <==> Judge(i) == Patch
  {
  }

  /** The instruction at a, as the decoder delimits it. */
  function InsnAt(tables: Tables, m: Memory, a: int): Option<Insn> { Decode(tables, X64, At(m, a)) }

  /** A fix-up: the offset of a 32-bit displacement in the copy, and the displacement. */
  datatype Rip = Rip(offset: nat, displacement: int)

  const MAX_RIPS: nat := 4

  /** The instructions from a to end are all accepted and end exactly there. */
  ghost predicate Accepted(tables: Tables, m: Memory, a: int, end: int)
    decreases end - a
  {
    a == end
    || (a < end && var i := InsnAt(tables, m, a);
        && i.Some? && Judge(i.value) != Stop && 0 < i.value.length && a + i.value.length <= end
        && Accepted(tables, m, a + i.value.length, end))
  }

  /** The instruction at a, where one decodes; otherwise an empty one, at which the walks below stop. */
  function TheInsn(tables: Tables, m: Memory, a: int): Insn {
    var i := InsnAt(tables, m, a);
    if i.Some? then i.value else Insn(0, OtherType(0), 8, 4, Fields(0, 0, false, 0, []))
  }

  /** The number of instructions from a to end. */
  ghost function Count(tables: Tables, m: Memory, a: int, end: int): nat
    decreases end - a
  {
    var i := TheInsn(tables, m, a);
    if a >= end || i.length == 0 then 0 else 1 + Count(tables, m, a + i.length, end)
  }

  /** They are k instructions. */
  ghost predicate Prefix(tables: Tables, m: Memory, a: int, end: int, k: nat) {
    Accepted(tables, m, a, end) && k == Count(tables, m, a, end)
  }

  /** Their ModRM bytes are counted. */
  ghost predicate AllCounted(tables: Tables, m: Memory, a: int, end: int)
    decreases end - a
  {
    a == end
    || (var i := TheInsn(tables, m, a);
        a < end && 0 < i.length && Counted(tables, X64, At(m, a)) && AllCounted(tables, m, a + i.length, end))
  }

  /** What moving them takes for granted: their table rows are regular, their ModRM bytes counted, and none
      is an interrupt return. */
  ghost predicate Movable(tables: Tables, m: Memory, a: int, end: int)
    decreases end - a
  {
    a == end
    || (var i := TheInsn(tables, m, a);
        a < end && 0 < i.length && Sound(tables, m, a) && Movable(tables, m, a + i.length, end))
  }

  ghost predicate Sound(tables: Tables, m: Memory, a: int) {
    Regular(tables, X64, At(m, a)) && Counted(tables, X64, At(m, a)) && !InterruptReturnAt(tables, At(m, a))
  }

  /** The fix-ups they need, in order, relative to the function start p. */
  ghost function Rips(tables: Tables, m: Memory, p: int, a: int, end: int): seq<Rip>
    requires p <= a
    decreases end - a
  {
    var i := TheInsn(tables, m, a);
    if a >= end || i.length == 0 then []
    else
      var rest := Rips(tables, m, p, a + i.length, end);
      if Judge(i) == Patch then [Rip(a - p + 3, i.fields.displacement)] + rest else rest
  }

  /** The displacement of a fix-up seen from the function start. */
  function Adjusted(r: Rip): int { r.displacement + r.offset - 3 }

  function LimitUp(rips: seq<Rip>): int {
    if rips == [] then 0
    else
      var up := LimitUp(rips[..|rips| - 1]);
      if Adjusted(rips[|rips| - 1]) > up then Adjusted(rips[|rips| - 1]) else up
  }

  function LimitDown(rips: seq<Rip>): int {
    if rips == [] then 0
    else
      var down := LimitDown(rips[..|rips| - 1]);
      if Adjusted(rips[|rips| - 1]) < down then Adjusted(rips[|rips| - 1]) else down
  }

  /** The limits bracket zero and every displacement seen from the function start, and no more: each is zero
      or one of these. */
  lemma {:induction false} LimitsBracket(rips: seq<Rip>)
    ensures LimitDown(rips) <= 0 <= LimitUp(rips)
    ensures forall r | r in rips :: LimitDown(rips) <= r.displacement + r.offset - 3 <= LimitUp(rips)
    ensures LimitDown(rips) < 0 ==> exists r :: r in rips && LimitDown(rips) == r.displacement + r.offset - 3
    ensures LimitUp(rips) > 0 ==> exists r :: r in rips && LimitUp(rips) == r.displacement + r.offset - 3
  {
    if rips != [] {
      LimitsBracket(rips[..|rips| - 1]);
      assert rips == rips[..|rips| - 1] + [rips[|rips| - 1]];
    }
  }

  lemma {:induction false} AcceptedStep(tables: Tables, m: Memory, p: int, a: int, b: int, i: Insn, end: int)
    requires p <= a <= b && Accepted(tables, m, a, b)
    requires InsnAt(tables, m, b) == Some(i) && Judge(i) != Stop && 0 < i.length && end == b + i.length
    ensures Accepted(tables, m, a, end) && Count(tables, m, a, end) == Count(tables, m, a, b) + 1
    ensures Rips(tables, m, p, a, end)
         == Rips(tables, m, p, a, b) + (if Judge(i) == Patch then [Rip(b - p + 3, i.fields.displacement)] else [])
    decreases b - a
  {
    hide InsnAt, Judge;
    assert Accepted(tables, m, end, end);
    if a < b {
      AcceptedStep(tables, m, p, a + InsnAt(tables, m, a).value.length, b, i, end);
    }
  }

  /** A prefix SetHook could use: long enough, accepted, with room for its fix-ups. */
  ghost predicate Usable(tables: Tables, m: Memory, p: int, minLen: nat, end: int) {
    p + minLen <= end && Accepted(tables, m, p, end) && |Rips(tables, m, p, p, end)| <= 4
  }

  /** The prefix from p to end is accepted, with exactly these fix-ups and their limits. */
  ghost predicate PatchData(tables: Tables, m: Memory, p: int, end: int, rips: seq<Rip>, up: int, down: int) {
    && p <= end && Accepted(tables, m, p, end) && rips == Rips(tables, m, p, p, end)
    && up == LimitUp(rips) && down == LimitDown(rips)
  }

  /** The accepted prefix that ends at `end` has its last instruction at b, before minLen bytes. */
  ghost predicate LastInsn(tables: Tables, m: Memory, p: int, minLen: nat, b: int, end: int) {
    p <= b < p + minLen && Accepted(tables, m, p, b)
    && InsnAt(tables, m, b).Some? && end == b + InsnAt(tables, m, b).value.length
  }

  /** Counts the bytes of whole instructions until minLen is reached, an unacceptable instruction is
      met, or a fifth fix-up would be needed; records limits and fix-ups on the way. When it reaches
      minLen, the bytes counted are exactly an accepted prefix and the fix-ups exactly its own. */
  method DisassembleAndSkip(tables: Tables, m: Memory, pFunction: int, minLen: nat)
    returns (dwRet: nat, nLimitUp: int, nLimitDown: int, rips: seq<Rip>, ghost last: int)
    ensures Accepted(tables, m, pFunction, pFunction + dwRet)
    ensures dwRet >= minLen ==> Usable(tables, m, pFunction, minLen, pFunction + dwRet)
    ensures dwRet >= minLen ==> PatchData(tables, m, pFunction, pFunction + dwRet, rips, nLimitUp, nLimitDown)
    ensures dwRet >= minLen > 0 ==> LastInsn(tables, m, pFunction, minLen, last, pFunction + dwRet)
    ensures dwRet < minLen ==> forall end :: !Usable(tables, m, pFunction, minLen, end)
  {
    hide InsnAt, Judge, LimitUp, LimitDown;
    dwRet, nLimitUp, nLimitDown, rips, last := 0, 0, 0, [], pFunction;
    NoLimits();
    while dwRet < minLen
      invariant PatchData(tables, m, pFunction, pFunction + dwRet, rips, nLimitUp, nLimitDown) && |rips| <= MAX_RIPS
      invariant dwRet > 0 ==> LastInsn(tables, m, pFunction, minLen, last, pFunction + dwRet)
      decreases minLen - dwRet
    {
      var pLoc := pFunction + dwRet;
      var pins := InstructionAt(tables, m, pLoc);
      if pins.None? || Judge(pins.value) == Stop {
        NoLongerPrefix(tables, m, pFunction, pLoc, minLen);
        return;
      }
      PositiveLength(tables, m, pLoc);
      AcceptedStep(tables, m, pFunction, pFunction, pLoc, pins.value, pLoc + pins.value.length);
      if Judge(pins.value) == Patch {
        var adjusted := pins.value.fields.displacement + (pLoc - pFunction);
        var r := Rip(dwRet + 3, pins.value.fields.displacement);
        LimitsOfAppend(rips, r);
        if |rips| == MAX_RIPS { NoLongerPrefix(tables, m, pFunction, pLoc, minLen); }
        if adjusted < nLimitDown { nLimitDown := adjusted; }
        if adjusted > nLimitUp { nLimitUp := adjusted; }
        if |rips| < MAX_RIPS {
          rips := rips + [r];
        } else {
          return;
        }
      }
      last := pLoc;
      dwRet := dwRet + pins.value.length;
    }
  }

  method InstructionAt(tables: Tables, m: Memory, a: int) returns (pins: Option<Insn>)
    ensures pins == InsnAt(tables, m, a)
  {
    hide Decode;
    var decoded := GetInstruction(tables, X64, At(m, a), a, 0);
    pins := if decoded.Some? then Some(decoded.value.insn) else None;
  }

  lemma NoLimits()
    ensures LimitUp([]) == 0 && LimitDown([]) == 0
  {
  }

  lemma LimitsOfAppend(rips: seq<Rip>, r: Rip)
    ensures LimitUp(rips + [r]) == if Adjusted(r) > LimitUp(rips) then Adjusted(r) else LimitUp(rips)
    ensures LimitDown(rips + [r]) == if Adjusted(r) < LimitDown(rips) then Adjusted(r) else LimitDown(rips)
  {
    assert (rips + [r])[..|rips|] == rips;
  }

  lemma PositiveLength(tables: Tables, m: Memory, a: int)
    ensures InsnAt(tables, m, a).Some? ==> InsnAt(tables, m, a).value.length > 0
    ensures TrueInsnAt(tables, m, a).Some? ==> TrueInsnAt(tables, m, a).value.length > 0
  {
    LengthIsPositive(tables, X64, At(m, a));
  }

  /** If the instruction at b stops the scan, or is a fix-up beyond the fourth, no accepted prefix
      with at most four fix-ups reaches past it. */
  lemma NoLongerPrefix(tables: Tables, m: Memory, p: int, b: int, minLen: nat)
    requires p <= b < p + minLen && Accepted(tables, m, p, b)
    requires var i := InsnAt(tables, m, b);
      || i.None? || Judge(i.value) == Stop
      || (Judge(i.value) == Patch && |Rips(tables, m, p, p, b)| == MAX_RIPS)
    ensures forall end :: !Usable(tables, m, p, minLen, end)
  {
    hide InsnAt, Judge;
    forall end | Usable(tables, m, p, minLen, end) ensures false {
      PrefixSplits(tables, m, p, p, b, end);
    }
  }

  /** Instruction boundaries are unique: a longer accepted stretch continues the shorter one. */
  lemma {:induction false} PrefixSplits(tables: Tables, m: Memory, p: int, a: int, b: int, end: int)
    requires p <= a <= b < end && Accepted(tables, m, a, b) && Accepted(tables, m, a, end)
    ensures Accepted(tables, m, b, end)
    ensures Rips(tables, m, p, a, end) == Rips(tables, m, p, a, b) + Rips(tables, m, p, b, end)
    decreases b - a
  {
    hide InsnAt, Judge;
    if a < b { PrefixSplits(tables, m, p, a + InsnAt(tables, m, a).value.length, b, end); }
  }

  /** The decoder delimits instructions from a to end, and all of them can be moved. */
  ghost predicate CanMoveAll(tables: Tables, m: Memory, a: int, end: int)
    decreases end - a
  {
    a == end
    || (a < end && var i := InsnAt(tables, m, a);
        && i.Some? && 0 < i.value.length && a + i.value.length <= end && CanMove(tables, At(m, a))
        && CanMoveAll(tables, m, a + i.value.length, end))
  }

  /** Where the scan comes from a, rows are regular and ModRM bytes counted. */
  ghost predicate KnownRows(tables: Tables, m: Memory, a: int, end: int) {
    forall b | a <= b < end && Accepted(tables, m, a, b) ::
      Regular(tables, X64, At(m, b)) && Counted(tables, X64, At(m, b))
  }

  /** A stretch is accepted if and only if all its instructions can be moved. */
  lemma {:induction false} AcceptedIff(tables: Tables, m: Memory, a: int, end: int)
    requires KnownRows(tables, m, a, end)
    ensures Accepted(tables, m, a, end) <==> CanMoveAll(tables, m, a, end)
    decreases end - a
  {
    hide Decode, Judge, CanMove, Regular, Counted;
    if a < end && InsnAt(tables, m, a).Some? {
      var i := InsnAt(tables, m, a).value;
      var next := a + i.length;
      assert Accepted(tables, m, a, a);
      JudgeIs(tables, At(m, a));
      PositiveLength(tables, m, a);
      if Judge(i) != Stop && next <= end {
        forall b | next <= b < end && Accepted(tables, m, next, b)
          ensures Regular(tables, X64, At(m, b)) && Counted(tables, X64, At(m, b))
        {
          assert Accepted(tables, m, a, b);
        }
        AcceptedIff(tables, m, next, end);
      }
    }
  }

  /** So no jump, call or return is accepted other than an interrupt return, and an instruction that names
      an address relative to its own only if it is a MOV or LEA with two 64-bit operands. */
  lemma AcceptedInstruction(tables: Tables, m: Memory, a: int, b: int, end: int)
    requires a <= b < end && Accepted(tables, m, a, b) && Accepted(tables, m, a, end)
    requires Regular(tables, X64, At(m, b)) && Counted(tables, X64, At(m, b))
    ensures TransferAt(tables, At(m, b)) ==> InterruptReturnAt(tables, At(m, b))
    ensures EntryOf(tables, X64, At(m, b)).Some?
    ensures AddressField(tables, At(m, b)).Some? ==>
      var (h, info) := EntryOf(tables, X64, At(m, b)).value;
      (info.itype == MOV || info.itype == LEA) && |info.operands| == 2 && OperandSizeFor(X64, h, info.sizes) == 8
  {
    hide Decode, Judge, Regular, Counted, TransferAt, InterruptReturnAt, AddressField;
    PrefixSplits(tables, m, a, a, b, end);
    JudgeIs(tables, At(m, b));
  }

  // ---------------------------------------------------------------- instruction boundaries

  /** Running on from a, the processor comes to an instruction that starts at x. */
  ghost predicate TrueBoundary(tables: Tables, m: Memory, a: int, x: int)
    decreases x - a
  {
    a == x
    || (a < x && var i := TrueInsnAt(tables, m, a);
        i.Some? && 0 < i.value.length && TrueBoundary(tables, m, a + i.value.length, x))
  }

  /** Wherever the scan may stop within an accepted prefix, whatever minimum length it is given, it stops
      on a true instruction boundary: that holds if and only if the ModRM bytes of all the prefix's
      instructions are counted. */
  lemma {:induction false} BoundariesAreTrueIff(tables: Tables, m: Memory, p: int, end: int)
    requires Accepted(tables, m, p, end)
    ensures (forall b | p <= b <= end && Accepted(tables, m, p, b) :: TrueBoundary(tables, m, p, b))
       <==> AllCounted(tables, m, p, end)
    decreases end - p
  {
    hide InsnAt, TrueInsnAt, Judge, Counted;
    if p < end {
      var next := p + InsnAt(tables, m, p).value.length;
      BoundariesAreTrueIff(tables, m, next, end);
      FirstBoundary(tables, m, p);
      assert Accepted(tables, m, next, next) && Accepted(tables, m, p, next);
      if AllCounted(tables, m, p, end) {
        forall b | p <= b <= end && Accepted(tables, m, p, b) ensures TrueBoundary(tables, m, p, b) {
          if p < b { BoundaryBehind(tables, m, p, b); }
        }
      } else if Counted(tables, X64, At(m, p)) {
        var b :| next <= b <= end && Accepted(tables, m, next, b) && !TrueBoundary(tables, m, next, b);
        assert Accepted(tables, m, p, b);
        BoundaryBehind(tables, m, p, b);
      } else {
        assert !TrueBoundary(tables, m, p, next);
      }
    }
  }

  lemma BoundaryBehind(tables: Tables, m: Memory, a: int, b: int)
    requires a < b && Accepted(tables, m, a, b) && Counted(tables, X64, At(m, a))
    ensures var next := a + InsnAt(tables, m, a).value.length;
      next <= b && Accepted(tables, m, next, b) && (TrueBoundary(tables, m, a, b) <==> TrueBoundary(tables, m, next, b))
  {
    hide InsnAt, TrueInsnAt, Judge, Counted;
    FirstBoundary(tables, m, a);
    var next := a + InsnAt(tables, m, a).value.length;
    assert Accepted(tables, m, next, b);
    assert next == a + TrueInsnAt(tables, m, a).value.length;
  }

  /** The boundary behind one instruction. */
  lemma FirstBoundary(tables: Tables, m: Memory, a: int)
    requires InsnAt(tables, m, a).Some?
    ensures TrueInsnAt(tables, m, a).Some? && InsnAt(tables, m, a).value.length > 0
    ensures Counted(tables, X64, At(m, a)) ==>
      TrueInsnAt(tables, m, a).value.length == InsnAt(tables, m, a).value.length
    ensures TrueBoundary(tables, m, a, a + InsnAt(tables, m, a).value.length) <==> Counted(tables, X64, At(m, a))
  {
    hide Decode, TrueDecode, Counted;
    LengthIsTrueIff(tables, X64, At(m, a));
    PositiveLength(tables, m, a);
  }

  /** A prefix counted up to its last instruction ends on a true boundary if and only if that one's
      ModRM byte is counted too. */
  lemma LastBoundaryIsTrueIff(tables: Tables, m: Memory, p: int, last: int, end: int)
    requires p <= last && Accepted(tables, m, p, last) && AllCounted(tables, m, p, last)
    requires InsnAt(tables, m, last).Some? && end == last + InsnAt(tables, m, last).value.length
    ensures TrueBoundary(tables, m, p, end) <==> Counted(tables, X64, At(m, last))
  {
    hide InsnAt, TrueInsnAt, Counted;
    FirstBoundary(tables, m, last);
    CountedRun(tables, m, p, last, end);
  }

  /** The processor passes the boundaries of counted instructions. */
  lemma {:induction false} CountedRun(tables: Tables, m: Memory, p: int, last: int, end: int)
    requires p <= last < end && Accepted(tables, m, p, last) && AllCounted(tables, m, p, last)
    ensures TrueBoundary(tables, m, p, end) <==> TrueBoundary(tables, m, last, end)
    decreases last - p
  {
    hide InsnAt, TrueInsnAt, Counted, Judge;
    if p < last {
      FirstBoundary(tables, m, p);
      CountedRun(tables, m, p + InsnAt(tables, m, p).value.length, last, end);
    }
  }

  // ---------------------------------------------------------------- fixing displacements

  /** The copy at q with the first k fix-ups applied: each displacement becomes d - (q - p). */
  ghost function Fixed(copy: Memory, q: int, p: int, rips: seq<Rip>): Memory {
    if rips == [] then copy
    else Fixed(Write(copy, q + rips[0].offset, Bytes(rips[0].displacement - (q - p), 4)), q, p, rips[1..])
  }

  /** Rewrites the displacements of the copy at pbNew so that they reach what they reached from
      pbOriginal. */
  method FixupIPRelativeAddressing(space: CodeSpace, pbNew: int, pbOriginal: int, rips: seq<Rip>)
    modifies space
    ensures space.mem == Fixed(old(space.mem), pbNew, pbOriginal, rips)
  {
    hide Write, Bytes;
    var diff := pbNew - pbOriginal;
    var i := 0;
    assert rips[0..] == rips;
    while i < |rips|
      invariant 0 <= i <= |rips|
      invariant Fixed(space.mem, pbNew, pbOriginal, rips[i..]) == Fixed(old(space.mem), pbNew, pbOriginal, rips)
    {
      assert rips[i..][1..] == rips[i + 1..];
      space.Store(pbNew + rips[i].offset, Bytes(rips[i].displacement - diff, 4));
      i := i + 1;
    }
  }

  // ---------------------------------------------------------------- running code

  /** m2 holds at q, in place of the instructions of m from a to end, copies with shifted
      displacements: the shape a trampoline must have. */
  ghost predicate Relocated(tables: Tables, m: Memory, a: int, end: int, m2: Memory, q: int)
    decreases end - a
  {
    a == end
    || (var i := TheInsn(tables, m, a);
        a < end && 0 < i.length && Shifted(m, a, m2, q, i) && Relocated(tables, m, a + i.length, end, m2, q + i.length))
  }

  /** m2 holds at q the bytes of the instruction i at a, its displacement shifted if it is to be patched. */
  ghost predicate Shifted(m: Memory, a: int, m2: Memory, q: int, i: Insn) {
    if Judge(i) == Patch then
      AgreeOutside(At(m, a), At(m2, q), i.length, i.fields.dispAt)
      && SignedLe(At(m2, q), i.fields.dispAt, 4) == i.fields.displacement - (q - a)
    else Agree(At(m, a), At(m2, q), 0, i.length)
  }

  lemma ExecuteStep(tables: Tables, m: Memory, a: int, i: Insn, k: nat)
    requires m(a) != 0xE9 && !TransferAt(tables, At(m, a))
    requires TrueInsnAt(tables, m, a) == Some(i) && Execute(tables, m, a + i.length, k).Some?
    ensures var r := Execute(tables, m, a + i.length, k).value;
      Execute(tables, m, a, k + 1) == Some(Run([EffectOf(tables, m, a, i)] + r.effects, r.ip))
  {
    hide TrueInsnAt, TransferAt, EffectOf;
  }

  /** k instructions run from a end at `end`, and k + more from q do the same and then what r says. */
  ghost predicate RunsAlike(tables: Tables, m: Memory, a: int, k: nat, end: int, m2: Memory, q: int, more: nat,
                            r: Run) {
    var here := Execute(tables, m, a, k);
    && here.Some? && here.value.ip == end
    && Execute(tables, m2, q, k + more) == Some(Run(here.value.effects + r.effects, r.ip))
  }

  /** Relocated instructions have the same effects one by one and end at the corresponding place. */
  lemma {:induction false} RelocatedRun(tables: Tables, m: Memory, a: int, end: int, m2: Memory, q: int, more: nat)
    requires Accepted(tables, m, a, end) && Movable(tables, m, a, end) && Relocated(tables, m, a, end, m2, q)
    requires Execute(tables, m2, q + (end - a), more).Some?
    ensures RunsAlike(tables, m, a, Count(tables, m, a, end), end,
                      m2, q, more, Execute(tables, m2, q + (end - a), more).value)
    decreases end - a
  {
    hide InsnAt, TrueInsnAt, TransferAt, Judge, EffectOf, Shifted, Sound;
    var r := Execute(tables, m2, q + (end - a), more).value;
    if a < end {
      hide Execute;
      var i := InsnAt(tables, m, a).value;
      RelocatedInsn(tables, m, a, m2, q);
      assert q + i.length + (end - (a + i.length)) == q + (end - a);
      RelocatedRun(tables, m, a + i.length, end, m2, q + i.length, more);
      OneMoreRun(tables, m, a, Count(tables, m, a + i.length, end), end, m2, q, more, r);
    } else {
      assert [] + r.effects == r.effects;
    }
  }

  lemma OneMoreRun(tables: Tables, m: Memory, a: int, k: nat, end: int, m2: Memory, q: int, more: nat, r: Run)
    requires TrueInsnAt(tables, m, a).Some? && m(a) != 0xE9 && !TransferAt(tables, At(m, a))
    requires TrueInsnAt(tables, m2, q).Some? && m2(q) != 0xE9 && !TransferAt(tables, At(m2, q))
    requires var i, j := TrueInsnAt(tables, m, a).value, TrueInsnAt(tables, m2, q).value;
      && j.length == i.length && EffectOf(tables, m2, q, j) == EffectOf(tables, m, a, i)
      && RunsAlike(tables, m, a + i.length, k, end, m2, q + i.length, more, r)
    ensures RunsAlike(tables, m, a, k + 1, end, m2, q, more, r)
  {
    hide TrueInsnAt, TransferAt, EffectOf, Execute;
    var i, j := TrueInsnAt(tables, m, a).value, TrueInsnAt(tables, m2, q).value;
    ExecuteStep(tables, m, a, i, k);
    ExecuteStep(tables, m2, q, j, k + more);
    var rest := Execute(tables, m, a + i.length, k).value.effects;
    assert [EffectOf(tables, m, a, i)] + rest + r.effects == [EffectOf(tables, m, a, i)] + (rest + r.effects);
  }

  lemma RelocatedInsn(tables: Tables, m: Memory, a: int, m2: Memory, q: int)
    requires InsnAt(tables, m, a).Some? && Judge(InsnAt(tables, m, a).value) != Stop && Sound(tables, m, a)
    requires Shifted(m, a, m2, q, InsnAt(tables, m, a).value)
    ensures TrueInsnAt(tables, m, a) == InsnAt(tables, m, a)
    ensures var i := InsnAt(tables, m, a).value;
      && TrueInsnAt(tables, m2, q).Some? && TrueInsnAt(tables, m2, q).value.length == i.length
      && EffectOf(tables, m2, q, TrueInsnAt(tables, m2, q).value) == EffectOf(tables, m, a, i)
      && m(a) != 0xE9 && m2(q) != 0xE9 && !TransferAt(tables, At(m, a)) && !TransferAt(tables, At(m2, q))
  {
    hide Decode, TrueDecode, SignedLe, Regular, Counted, TransferAt, InterruptReturnAt, AddressField, Judge;
    var s, t := At(m, a), At(m2, q);
    var i := InsnAt(tables, m, a).value;
    LengthIsTrueIff(tables, X64, s);
    PositiveLength(tables, m, a);
    JudgeIs(tables, s);
    if Judge(i) == Patch {
      PatchableIsPatch(i);
      PatchedInstruction(tables, X64, s, s);
      PatchedInstruction(tables, X64, s, t);
      assert s(0) == t(0);
    } else {
      CopiedInstruction(tables, X64, s, t);
      assert s(0) == t(0);
    }
    if s(0) == 0xE9 { JumpTransfers(tables, s); }
  }

  lemma JumpTransfers(tables: Tables, s: Stream)
    requires s(0) == 0xE9 && Decode(tables, X64, s).Some?
    ensures TransferAt(tables, s)
  {
    assert Prefixes(X64, s, 0, []) == Some(([], 0));
    assert OpcodeOf(s, Header([], 0, 0)) == [0xE9];
  }

  // ---------------------------------------------------------------- the fix-ups produce that shape

  /** The displacement field of every patchable instruction sits behind a REX byte, a one-byte
      opcode and ModRM, which is where the fix-up is written; and its new value fits 32 bits. */
  ghost predicate Fixable(tables: Tables, m: Memory, p: int, a: int, end: int, q: int)
    requires p <= a
    decreases end - a
  {
    a == end
    || (var i := TheInsn(tables, m, a);
        && a < end && 0 < i.length
        && (Judge(i) == Patch ==> i.fields.dispAt == 3 && Fits(i.fields.displacement - (q - p)))
        && Fixable(tables, m, p, a + i.length, end, q))
  }

  predicate Fits(d: int) { -0x8000_0000 <= d < 0x8000_0000 }

  /** The fix-ups of later instructions do not touch what lies before them. */
  lemma {:induction false} FixedBefore(tables: Tables, m: Memory, p: int, a: int, end: int, copy: Memory, q: int)
    requires p <= a && Accepted(tables, m, a, end)
    ensures forall x: int | x < q + (a - p) :: Fixed(copy, q, p, Rips(tables, m, p, a, end))(x) == copy(x)
    decreases end - a
  {
    hide InsnAt, Judge, Bytes;
    if a < end {
      var i := InsnAt(tables, m, a).value;
      var rest := Rips(tables, m, p, a + i.length, end);
      if Judge(i) == Patch {
        var r := Rip(a - p + 3, i.fields.displacement);
        assert ([r] + rest)[1..] == rest;
        FixedBefore(tables, m, p, a + i.length, end, Write(copy, q + r.offset, Bytes(r.displacement - (q - p), 4)), q);
      } else {
        FixedBefore(tables, m, p, a + i.length, end, copy, q);
      }
    }
  }

  /** A byte-for-byte copy of an accepted stretch, once fixed up, is a relocation of it. */
  lemma {:induction false} FixedIsRelocated(tables: Tables, m: Memory, p: int, a: int, end: int, copy: Memory, q: int)
    requires p <= a && Accepted(tables, m, a, end) && Movable(tables, m, a, end) && Fixable(tables, m, p, a, end, q)
    requires forall x: int | a <= x < end :: copy(q + (x - p)) == m(x)
    ensures Relocated(tables, m, a, end, Fixed(copy, q, p, Rips(tables, m, p, a, end)), q + (a - p))
    decreases end - a
  {
    hide InsnAt, Judge, Bytes, Shifted, Write, Sound;
    if a < end {
      var i := InsnAt(tables, m, a).value;
      var rest := Rips(tables, m, p, a + i.length, end);
      var first := copy;
      if Judge(i) == Patch {
        var r := Rip(a - p + 3, i.fields.displacement);
        assert ([r] + rest)[1..] == rest;
        first := Write(copy, q + r.offset, Bytes(r.displacement - (q - p), 4));
        PatchLength(tables, m, a);
        WriteOutside(copy, q + r.offset, Bytes(r.displacement - (q - p), 4));
      }
      var done := Fixed(first, q, p, rest);
      assert done == Fixed(copy, q, p, Rips(tables, m, p, a, end));
      FixedIsRelocated(tables, m, p, a + i.length, end, first, q);
      FixedBefore(tables, m, p, a + i.length, end, first, q);
      FirstInsn(i, m, p, a, copy, first, done, q);
    }
  }

  lemma WriteOutside(m: Memory, a: int, b: seq<byte>)
    ensures forall x: int | x < a || x >= a + |b| :: Write(m, a, b)(x) == m(x)
    ensures forall x: int | a <= x < a + |b| :: Write(m, a, b)(x) == b[x - a]
  {
  }

  lemma PatchLength(tables: Tables, m: Memory, a: int)
    requires InsnAt(tables, m, a).Some? && Judge(InsnAt(tables, m, a).value) == Patch && Sound(tables, m, a)
    ensures var i := InsnAt(tables, m, a).value; 0 < i.fields.dispAt && i.fields.dispAt + 4 <= i.length
  {
    PatchedInstruction(tables, X64, At(m, a), At(m, a));
  }

  /** The first instruction of the stretch, after its own fix-up. */
  lemma FirstInsn(i: Insn, m: Memory, p: int, a: int, copy: Memory, first: Memory, done: Memory, q: int)
    requires p <= a
    requires
      && (forall x: int | a <= x < a + i.length :: copy(q + (x - p)) == m(x))
      && (forall x: int | x < q + (a + i.length - p) :: done(x) == first(x))
      && (Judge(i) == Patch ==>
            i.fields.dispAt == 3 && i.length >= 7 && Fits(i.fields.displacement - (q - p))
            && first == Write(copy, q + (a - p + 3), Bytes(i.fields.displacement - (q - p), 4)))
      && (Judge(i) != Patch ==> first == copy)
    ensures Shifted(m, a, done, q + (a - p), i)
  {
    hide Judge, Bytes, SignedLe;
    var to := q + (a - p);
    forall j: nat | j < i.length ensures At(copy, to)(j) == At(m, a)(j) {
      assert copy(q + (a + j - p)) == m(a + j);
      assert q + (a + j - p) == to + j;
    }
    if Judge(i) == Patch {
      var d := i.fields.displacement - (q - p);
      var b := Bytes(d, 4);
      forall j: nat | 3 <= j < 7 ensures At(done, to)(j) == b[j - 3] {
        assert done(to + j) == first(to + j);
      }
      Ranges();
      SignedField(At(done, to), 3, d, 4);
    }
  }
}
