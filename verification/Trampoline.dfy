/** The trampoline SetHook builds on x64 (tmemutil-3rd/src/mhook-lib/mhook.c): where it may lie, that
    everything it holds then reaches, and that running it is running the bytes it replaces. */
module Trampoline {
  import opened Pointers
  import opened Wrappers
  import opened X86
  import opened CodeMemory
  import opened Processor
  import opened DecodeLocality
  import opened Relocation
  import Words

  /** Offsets of the code buffers in the 64-bit trampoline structure, and their length. */
  const JUMP_OFFSET: int := 24
  const CODE_OFFSET: int := 56
  const MAX_CODE_BYTES: int := 32
  const JMPSIZE: nat := 5

  // ---------------------------------------------------------------- the allocation window

  /** A trampoline the allocator may return: strictly inside the bounds, and not in the first 64 KB,
      which Windows never hands out. */
  predicate InWindow(p: int, up: int, down: int, tramp: int) {
    0x1_0000 <= tramp && Lower(p, up) < tramp < Upper(p, down)
  }

  /** The function and everything its patched instructions name lie in the address space. */
  predicate InSpace(p: int, up: int, down: int) {
    down <= 0 <= up && 0 <= p + down && p + up < ADDRESSES
  }

  /** Near enough to reach, and to be reached from, everything between the limits: less than 2 GB less 64 KB below
      the upper one, and less than 2 GB less 512 KB above the lower one; above the first 64 KB and below the
      last 512 KB of the address space. */
  predicate InReach(p: int, up: int, down: int, a: int) {
    && 0x1_0000 <= a < 0xffff_ffff_fff8_0000
    && p + up - a < 0x7fff_0000 && a - (p + down) < 0x7ff8_0000
  }

  /** The window is exactly that. */
  lemma WindowIsReach(p: int, up: int, down: int, a: int)
    requires InSpace(p, up, down)
    ensures InWindow(p, up, down, a) <==> InReach(p, up, down, a)
    ensures Lower(p, up) < a < Upper(p, down) <==> InReach(p, up, down, a) || (p + up < 0x8000_0000 && 1 < a < 0x1_0000)
  {
    Words.DivUnique(p + up, ADDRESSES, 0);
    Words.DivUnique(p + down, ADDRESSES, 0);
  }

  /** The window is narrow enough: a displacement whose adjusted value is within the limits still
      fits 32 bits seen from the copy, and the jumps back and to the stub take the short form. */
  lemma WindowSuffices(p: int, up: int, down: int, tramp: int, displacement: int, start: int, n: int)
    requires InSpace(p, up, down) && InWindow(p, up, down, tramp)
    requires 0 <= start <= MAX_CODE_BYTES && down <= displacement + start <= up
    ensures Fits(displacement - (tramp + CODE_OFFSET - p))
    ensures IsNear(tramp + CODE_OFFSET + n, p + n)
    ensures IsNear(p, tramp + JUMP_OFFSET)
  {
  }

  /** Every fix-up of the accepted prefix fits. */
  lemma {:induction false} AllFixable(tables: Tables, m: Memory, p: int, a: int, end: int, up: int, down: int,
                                      tramp: int)
    requires p <= a && end <= p + MAX_CODE_BYTES && Accepted(tables, m, a, end)
    requires InSpace(p, up, down) && InWindow(p, up, down, tramp)
    requires ShortHeaders(tables, m, a, end)
    requires forall r | r in Rips(tables, m, p, a, end) :: down <= Adjusted(r) <= up
    ensures Fixable(tables, m, p, a, end, tramp + CODE_OFFSET)
    decreases end - a
  {
    hide InsnAt, Judge, InSpace, InWindow;
    if a < end {
      var i := InsnAt(tables, m, a).value;
      var rest := Rips(tables, m, p, a + i.length, end);
      if Judge(i) == Patch {
        var r := Rip(a - p + 3, i.fields.displacement);
        assert Rips(tables, m, p, a, end) == [r] + rest;
        assert ([r] + rest)[0] == r;
        assert Adjusted(r) == i.fields.displacement + (a - p);
        WindowSuffices(p, up, down, tramp, i.fields.displacement, a - p, 0);
      }
      forall r | r in rest ensures down <= Adjusted(r) <= up {
        assert r in Rips(tables, m, p, a, end);
      }
      AllFixable(tables, m, p, a + i.length, end, up, down, tramp);
    }
  }

  /** Each patched instruction has one REX byte, a one-byte opcode and ModRM before its displacement. */
  ghost predicate ShortHeaders(tables: Tables, m: Memory, a: int, end: int)
    decreases end - a
  {
    a == end
    || (var i := TheInsn(tables, m, a);
        && a < end && 0 < i.length
        && (Judge(i) == Patch ==> i.fields.dispAt == 3)
        && ShortHeaders(tables, m, a + i.length, end))
  }

  // ---------------------------------------------------------------- the patch of the API

  /** Where SetHook makes the API jump: straight to the hook, or to the stub in the trampoline. */
  function PatchTarget(p: int, hook: int, tramp: int): int {
    if Distance(p, hook) > NEAR then tramp + JUMP_OFFSET else hook
  }

  /** The API is patched with exactly five bytes unless the hook is called directly and lies below
      the API in the last five bytes of reach, where the jump's own length pushes it out. */
  lemma PatchIsFiveBytes(p: int, up: int, down: int, tramp: int, hook: int)
    requires InSpace(p, up, down) && InWindow(p, up, down, tramp)
    ensures |JumpBytes(X64, p, PatchTarget(p, hook, tramp))| == JMPSIZE
       <==> !(hook < p && NEAR - 5 < p - hook <= NEAR)
    ensures |JumpBytes(X64, p, PatchTarget(p, hook, tramp))| <= 14
  {
    WindowSuffices(p, up, down, tramp, 0, 0, 0);
  }

  // ---------------------------------------------------------------- running the trampoline

  /** What the trampoline's code buffer holds before the fix-up: the first n bytes of the function and
      a jump to the rest of it. */
  ghost predicate Copied(m: Memory, p: int, n: nat, copy: Memory, q: int) {
    && (forall x: int | p <= x < p + n :: copy(q + (x - p)) == m(x))
    && Holds(At(copy, q + n), 0, JumpBytes(X64, q + n, p + n))
  }

  /** The fix-ups stay inside the copied prefix. */
  lemma {:induction false} FixedAfter(tables: Tables, m: Memory, p: int, a: int, end: int, copy: Memory, q: int)
    requires p <= a && Accepted(tables, m, a, end) && Movable(tables, m, a, end) && ShortHeaders(tables, m, a, end)
    ensures forall x: int | x >= q + (end - p) :: Fixed(copy, q, p, Rips(tables, m, p, a, end))(x) == copy(x)
    decreases end - a
  {
    hide InsnAt, Judge, Bytes, Write, Sound;
    if a < end {
      var i := InsnAt(tables, m, a).value;
      var rest := Rips(tables, m, p, a + i.length, end);
      if Judge(i) == Patch {
        var r := Rip(a - p + 3, i.fields.displacement);
        assert ([r] + rest)[1..] == rest;
        PatchLength(tables, m, a);
        WriteOutside(copy, q + r.offset, Bytes(r.displacement - (q - p), 4));
        FixedAfter(tables, m, p, a + i.length, end, Write(copy, q + r.offset, Bytes(r.displacement - (q - p), 4)), q);
      } else {
        FixedAfter(tables, m, p, a + i.length, end, copy, q);
      }
    }
  }

  /** The first n bytes are k instructions with these fix-ups and limits, and their displacements are
      where the fix-ups expect them. */
  ghost predicate Relocatable(tables: Tables, m: Memory, p: int, n: nat, k: nat, rips: seq<Rip>, up: int, down: int) {
    && n <= MAX_CODE_BYTES && PatchData(tables, m, p, p + n, rips, up, down)
    && Prefix(tables, m, p, p + n, k) && Movable(tables, m, p, p + n) && ShortHeaders(tables, m, p, p + n)
  }

  /** Running k instructions at p, and running k and a jump at q, have the same effects and both stop
      at `end`. */
  ghost predicate RunsLike(tables: Tables, m: Memory, p: int, k: nat, end: int, m2: Memory, q: int) {
    && Execute(tables, m, p, k).Some? && Execute(tables, m, p, k).value.ip == end
    && Execute(tables, m2, q, k + 1) == Execute(tables, m, p, k)
  }

  /** Relocation preserves meaning. Running the trampoline performs the effects of the accepted
      prefix, instruction by instruction and on the same absolute addresses, and continues at the
      first byte of the function that was not copied. */
  lemma TrampolineRunsLikeOriginal(tables: Tables, m: Memory, p: int, n: nat, k: nat, rips: seq<Rip>,
                                   up: int, down: int,
                                   tramp: int, copy: Memory)
    requires Relocatable(tables, m, p, n, k, rips, up, down)
    requires 0 <= p && p + n < ADDRESSES && InSpace(p, up, down) && InWindow(p, up, down, tramp)
    requires Copied(m, p, n, copy, tramp + CODE_OFFSET)
    ensures RunsLike(tables, m, p, k, p + n, Fixed(copy, tramp + CODE_OFFSET, p, rips), tramp + CODE_OFFSET)
  {
    hide InsnAt, InWindow, InSpace, JumpBytes, EffectOf, LimitUp, LimitDown, Judge, Fixed, Rips, Execute, Sound;
    hide Movable;
    hide ShortHeaders, Accepted, Relocated;
    var q, end := tramp + CODE_OFFSET, p + n;
    var done := Fixed(copy, q, p, rips);
    FixedIsRelocated(tables, m, p, p, end, copy, q) by {
      LimitsBracket(rips);
      AllFixable(tables, m, p, p, end, up, down, tramp);
    }
    JumpBack(tables, done, p, n, up, down, tramp) by {
      FixedAfter(tables, m, p, p, end, copy, q);
      var jump := JumpBytes(X64, q + n, end);
      forall j: nat | j < |jump| ensures At(done, q + n)(j) == jump[j] {
        assert At(copy, q + n)(j) == jump[j];
      }
    }
    RelocatedRun(tables, m, p, end, done, q, 1);
    var r := Execute(tables, m, p, k).value;
    assert r.effects + [] == r.effects;
  }

  lemma JumpBack(tables: Tables, done: Memory, p: int, n: nat, up: int, down: int, tramp: int)
    requires 0 <= p && p + n < ADDRESSES && n <= MAX_CODE_BYTES
    requires InSpace(p, up, down) && InWindow(p, up, down, tramp)
    requires Holds(At(done, tramp + CODE_OFFSET + n), 0, JumpBytes(X64, tramp + CODE_OFFSET + n, p + n))
    ensures Execute(tables, done, tramp + CODE_OFFSET + n, 1) == Some(Run([], p + n))
  {
    hide InsnAt, InWindow, InSpace, JumpBytes, Holds, SignedLe, Add, IsNear, Range;
    WindowSuffices(p, up, down, tramp, 0, 0, n) by { ZeroInside(p, up, down); }
    Ranges();
    NearJump(X64, done, tramp + CODE_OFFSET + n, p + n);
  }

  lemma ZeroInside(p: int, up: int, down: int)
    requires InSpace(p, up, down)
    ensures down <= 0 <= up
  {
  }

  /** The prefix DisassembleAndSkip chooses and the jump behind it leave room in the buffer. */
  lemma BufferSuffices(tables: Tables, m: Memory, p: int, n: nat, last: int, up: int, down: int, tramp: int)
    requires LastInsn(tables, m, p, JMPSIZE, last, p + n) && InsnAt(tables, m, last).value.length <= 15
    requires InSpace(p, up, down) && InWindow(p, up, down, tramp)
    ensures n + |JumpBytes(X64, tramp + CODE_OFFSET + n, p + n)| <= 24 < MAX_CODE_BYTES
    ensures |JumpBytes(X64, tramp + JUMP_OFFSET, p)| <= 14 < MAX_CODE_BYTES
  {
    hide InsnAt, InSpace, InWindow;
    WindowSuffices(p, up, down, tramp, 0, 0, n) by { ZeroInside(p, up, down); }
  }
}
