/** Where a fix-up is written (tmemutil-3rd/src/mhook-lib/mhook.c): always three bytes into the
    instruction. That is right exactly for a displacement that starts there. */
module FixupOffset {
  import opened Pointers
  import opened Wrappers
  import opened X86
  import opened CodeMemory
  import opened Processor
  import opened DecodeLocality
  import opened Relocation
  import opened Trampoline
  import Words

  /** The instruction at p, copied to q and fixed up there, has the effect it had at p. */
  ghost predicate FixupKeeps(tables: Tables, m: Memory, p: int, i: Insn, q: int) {
    var done := FixedCopy(m, p, i, q);
    var moved := TrueInsnAt(tables, done, q);
    moved.Some? && EffectOf(tables, done, q, moved.value) == EffectOf(tables, m, p, i)
  }

  function Moved(m: Memory, shift: int): Memory { (x: int) => m(x - shift) }

  /** The copy with the one fix-up DisassembleAndSkip records for it. */
  ghost function FixedCopy(m: Memory, p: int, i: Insn, q: int): Memory {
    Fixed(Moved(m, q - p), q, p, [Rip(3, i.fields.displacement)])
  }

  /** A trampoline whose window admits it and that does not overlap the instruction. */
  predicate Reachable(p: int, length: nat, up: int, down: int, tramp: int) {
    InWindow(p, up, down, tramp) && (tramp + STRUCT_SIZE <= p || p + length <= tramp)
  }

  /** The fix-up preserves a patchable instruction in every trampoline SetHook could use for it if and
      only if the displacement field starts at its fourth byte. `up` and `down` are limits for its
      displacement, such as the scan records for it. */
  lemma FixupKeepsIff(tables: Tables, m: Memory, p: int, i: Insn, up: int, down: int)
    requires InsnAt(tables, m, p) == Some(i) && Judge(i) == Patch && Regular(tables, X64, At(m, p)) && i.length <= 15
    requires InSpace(p, up, down) && down <= i.fields.displacement <= up && up - down <= 0x8000_0000
    ensures (forall tramp | Reachable(p, i.length, up, down, tramp) ::
               FixupKeeps(tables, m, p, i, tramp + CODE_OFFSET))
       <==> i.fields.dispAt == 3
  {
    hide InsnAt, Judge, FixupKeeps, Effective, SignedLe, Sound, InWindow, InSpace, Regular;
    PatchIsSound(tables, m, p);
    PatchLength(tables, m, p);
    if i.fields.dispAt == 3 {
      forall tramp | Reachable(p, i.length, up, down, tramp) ensures FixupKeeps(tables, m, p, i, tramp + CODE_OFFSET) {
        WindowSuffices(p, up, down, tramp, i.fields.displacement, 0, 0);
        KeepsAtThree(tables, m, p, i, tramp + CODE_OFFSET);
      }
    } else {
      var tramp := Room(p, i.length, up, down);
      var q := tramp + CODE_OFFSET;
      if Shows(m, p, i, q) {
        LosesElsewhere(tables, m, p, i, q);
      } else {
        NextShows(m, p, i, q);
        assert tramp + 1 + CODE_OFFSET == q + 1;
        LosesElsewhere(tables, m, p, i, q + 1);
      }
    }
  }

  /** The distance tells: the new displacement's low byte is not the instruction's fourth byte, or, when
      the field starts before that byte, the distance is no multiple of 256. */
  predicate Shows(m: Memory, p: int, i: Insn, q: int) {
    if i.fields.dispAt > 3 then (i.fields.displacement - (q - p)) % 256 != m(p + 3) as int
    else (q - p) % 256 != 0
  }

  lemma NextShows(m: Memory, p: int, i: Insn, q: int)
    requires !Shows(m, p, i, q)
    ensures Shows(m, p, i, q + 1)
  {
    DiffersByOne(i.fields.displacement - (q - p));
    DiffersByOne(q + 1 - p);
  }

  lemma DiffersByOne(a: int)
    ensures a % 256 != (a - 1) % 256
  {
  }

  /** Every window has room for two trampolines, a byte apart, away from the instruction. */
  lemma Room(p: int, length: nat, up: int, down: int) returns (tramp: int)
    requires InSpace(p, up, down) && up - down <= 0x8000_0000 && length <= 15
    ensures Reachable(p, length, up, down, tramp) && Reachable(p, length, up, down, tramp + 1)
  {
    var low := if Lower(p, up) < 0x1_0000 then 0x1_0000 else Lower(p, up) + 1;
    tramp := if low + STRUCT_SIZE + 1 <= p || p + length <= low then low else p + length;
  }

  lemma PatchIsSound(tables: Tables, m: Memory, p: int)
    requires InsnAt(tables, m, p).Some? && Judge(InsnAt(tables, m, p).value) == Patch && Regular(tables, X64, At(m, p))
    ensures Sound(tables, m, p)
  {
    hide Decode, Regular, Counted, Judge, InterruptReturnAt;
    PatchableIsPatch(InsnAt(tables, m, p).value);
    PatchedInstruction(tables, X64, At(m, p), At(m, p));
    MoveIsNoReturn(tables, At(m, p));
  }

  lemma MoveIsNoReturn(tables: Tables, s: Stream)
    requires Decode(tables, X64, s).Some? && Patchable(Decode(tables, X64, s).value) && Regular(tables, X64, s)
    ensures !InterruptReturnAt(tables, s)
  {
    hide ReadHeader, WalkOperands, OperandSizeFor;
  }

  /** A patchable instruction's displacement is its four-byte field. */
  lemma Displacement(tables: Tables, m: Memory, p: int, i: Insn)
    requires InsnAt(tables, m, p) == Some(i) && Judge(i) == Patch && Sound(tables, m, p)
    ensures i.fields.displacement == SignedLe(At(m, p), i.fields.dispAt, 4) && Fits(i.fields.displacement)
    ensures AddressField(tables, At(m, p)) == Some(i.fields.dispAt)
  {
    hide AddressField, SameNature, SignedLe, Decode, Regular, Counted;
    PatchedInstruction(tables, X64, At(m, p), At(m, p));
    FieldFits(At(m, p), i.fields.dispAt);
  }

  lemma FieldFits(s: Stream, i: nat)
    ensures Fits(SignedLe(s, i, 4)) && SignedLe(s, i, 4) % 256 == s(i) as int
  {
    hide Range;
    Ranges();
    LeBound(s, i, 4);
    var v, rest := Le(s, i, 4), Le(s, i + 1, 3);
    assert v == s(i) as int + 256 * rest;
    LowByte(v, s(i) as int, rest);
    LowByte(v, v - TWO32, 0x100_0000);
  }

  lemma FixedOnce(m: Memory, p: int, i: Insn, q: int)
    ensures FixedCopy(m, p, i, q) == Write(Moved(m, q - p), q + 3, Bytes(i.fields.displacement - (q - p), 4))
  {
    var rips := [Rip(3, i.fields.displacement)];
    assert rips[1..] == [];
    assert Fixed(Moved(m, q - p), q, p, rips)
      == Fixed(Write(Moved(m, q - p), q + 3, Bytes(i.fields.displacement - (q - p), 4)), q, p, rips[1..]);
  }

  lemma KeepsAtThree(tables: Tables, m: Memory, p: int, i: Insn, q: int)
    requires InsnAt(tables, m, p) == Some(i) && Judge(i) == Patch && Sound(tables, m, p)
    requires i.fields.dispAt == 3 && i.length >= 7 && Fits(i.fields.displacement - (q - p))
    ensures FixupKeeps(tables, m, p, i, q)
  {
    hide InsnAt, TrueInsnAt, Judge, EffectOf, Fixed, Bytes, SignedLe, Sound;
    var copy, done := Moved(m, q - p), FixedCopy(m, p, i, q);
    FixedOnce(m, p, i, q);
    FirstInsn(i, m, p, p, copy, done, done, q);
    RelocatedInsn(tables, m, p, done, q);
  }

  /** Elsewhere the fix-up changes a byte outside the field, or leaves the field's low byte as it was. So
      the instruction is spoilt at every distance that tells. */
  lemma LosesElsewhere(tables: Tables, m: Memory, p: int, i: Insn, q: int)
    requires InsnAt(tables, m, p) == Some(i) && Judge(i) == Patch && Regular(tables, X64, At(m, p))
    requires i.fields.dispAt != 3 && Shows(m, p, i, q)
    ensures !FixupKeeps(tables, m, p, i, q)
  {
    hide InsnAt, TrueInsnAt, Judge, Fixed, Effective, SignedLe, Sound, Regular, AddressField;
    PatchIsSound(tables, m, p);
    PatchLength(tables, m, p);
    Displacement(tables, m, p, i);
    if FixupKeeps(tables, m, p, i, q) {
      var done, at := FixedCopy(m, p, i, q), i.fields.dispAt;
      FixedOnce(m, p, i, q);
      var moved := TrueInsnAt(tables, done, q).value;
      var here, there := EffectOf(tables, m, p, i), EffectOf(tables, done, q, moved);
      PatchableIsPatch(i);
      assert |here.form| == i.length && |there.form| == moved.length;
      if at > 3 {
        ThirdByteShows(tables, m, p, i, done, q, moved);
      } else {
        SameHead(tables, m, p, i, done, q);
        FieldFits(At(done, q), at);
        FieldFits(At(m, p), at);
        EffectiveLowByte(i.addressSize, p + i.length + i.fields.displacement);
        EffectiveLowByte(moved.addressSize, q + i.length + moved.fields.displacement);
        SameLowByte(p + i.length, q + i.length, i.fields.displacement, moved.fields.displacement);
        assert false;
      }
    }
  }

  lemma SameLowByte(a: int, b: int, d: int, e: int)
    requires d % 256 == e % 256 && (a + d) % 256 == (b + e) % 256
    ensures (b - a) % 256 == 0
  {
    var j, k := d / 256 - e / 256, (a + d) / 256 - (b + e) / 256;
    assert d - e == 256 * j && (a + d) - (b + e) == 256 * k;
    assert b - a == 256 * (j - k);
  }

  /** With the bytes before the field unchanged, it is the same instruction with what the field now holds. */
  lemma SameHead(tables: Tables, m: Memory, p: int, i: Insn, done: Memory, q: int)
    requires InsnAt(tables, m, p) == Some(i) && Judge(i) == Patch && Sound(tables, m, p)
    requires Agree(At(m, p), At(done, q), 0, i.fields.dispAt)
    ensures TrueInsnAt(tables, done, q).Some?
    ensures TrueInsnAt(tables, done, q).value.fields.displacement == SignedLe(At(done, q), i.fields.dispAt, 4)
    ensures AddressField(tables, At(done, q)) == Some(i.fields.dispAt)
  {
    hide AddressField, Decode, TrueDecode, Regular, Counted, SignedLe;
    PatchedInstruction(tables, X64, At(m, p), At(done, q));
  }

  lemma ThirdByteShows(tables: Tables, m: Memory, p: int, i: Insn, done: Memory, q: int, moved: Insn)
    requires AddressField(tables, At(m, p)) == Some(i.fields.dispAt)
    requires i.fields.dispAt > 3 && i.length > 3 && m(p + 3) != done(q + 3)
    ensures EffectOf(tables, done, q, moved) != EffectOf(tables, m, p, i)
  {
    hide Effective, AddressField;
    var here, there := EffectOf(tables, m, p, i), EffectOf(tables, done, q, moved);
    assert here.form[3] == m(p + 3);
    if there.Access? && there.field == here.field && |there.form| == |here.form| {
      assert there.form[3] == done(q + 3);
    }
  }

  lemma EffectiveLowByte(addressSize: nat, a: int)
    ensures Effective(addressSize, a) % 256 == a % 256
  {
    var k := if addressSize == 8 then a / ADDRESSES * 0x100_0000_0000_0000 else a / TWO32 * 0x100_0000;
    LowByte(a, Effective(addressSize, a), k);
  }

  lemma LowByte(a: int, r: int, k: int)
    requires a == r + 256 * k
    ensures r % 256 == a % 256
  {
    Words.DivAddMultiple(r, 256, k);
  }
}
