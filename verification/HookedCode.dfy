/** Code memory with hooks in it: what every SetHook and Unhook (tmemutil-3rd/src/mhook-lib/mhook.c)
    keeps, as relations between memories. */
module HookedCode {
  import opened Pointers
  import opened Wrappers
  import opened X86
  import opened CodeMemory
  import opened Processor
  import opened DecodeLocality
  import opened Relocation
  import opened Trampoline

  /** An active hook: its trampoline's address, the hooked function, the hook function, and the bytes
      of the function that were saved. */
  datatype Active = Active(tramp: int, p: int, hook: int, saved: seq<byte>)

  /** The jump the function starts with while it is hooked. */
  function JumpOf(h: Active): seq<byte> { JumpBytes(X64, h.p, PatchTarget(h.p, h.hook, h.tramp)) }

  predicate InPatch(h: Active, x: int) { h.p <= x < h.p + |h.saved| }

  predicate InTramp(a: int, x: int) { a <= x < a + STRUCT_SIZE }

  ghost predicate Saved(orig: Memory, h: Active) {
    |JumpOf(h)| <= |h.saved| && forall x: int | InPatch(h, x) :: h.saved[x - h.p] == orig(x)
  }

  ghost predicate Patched(orig: Memory, mem: Memory, h: Active) {
    forall x: int | InPatch(h, x) :: mem(x) == if x < h.p + |JumpOf(h)| then JumpOf(h)[x - h.p] else orig(x)
  }

  ghost predicate Separate(h: Active, g: Active) { forall x: int :: !(InPatch(h, x) && InPatch(g, x)) }

  /** No active hook patches the byte. */
  ghost predicate Unpatched(hs: seq<Active>, x: int) { forall h | h in hs :: !InPatch(h, x) }

  /** Outside the trampolines, code is the original except in the active hooks' patches; these are
      disjoint, start with the hook's jump, and are saved. */
  ghost predicate Intact(orig: Memory, mem: Memory, hs: seq<Active>, heap: iset<int>) {
    && (forall h | h in hs :: Saved(orig, h) && Patched(orig, mem, h))
    && (forall h, x: int | h in hs && InPatch(h, x) :: x !in heap)
    && (forall i, j | 0 <= i < j < |hs| :: Separate(hs[i], hs[j]))
    && (forall x: int | x !in heap && Unpatched(hs, x) :: mem(x) == orig(x))
  }

  /** Writing trampolines, or getting more of them, touches no code. */
  lemma TrampolineWrite(orig: Memory, mem: Memory, hs: seq<Active>, heap: iset<int>, mem2: Memory, heap2: iset<int>)
    requires Intact(orig, mem, hs, heap) && heap <= heap2
    requires forall x: int | x !in heap2 :: mem2(x) == mem(x)
    requires forall h, x: int | h in hs && InPatch(h, x) :: x !in heap2
    ensures Intact(orig, mem2, hs, heap2)
  {
    hide Saved, JumpOf;
  }

  /** Code that is neither patched nor a trampoline is the original. */
  lemma UnpatchedIsOriginal(orig: Memory, mem: Memory, hs: seq<Active>, heap: iset<int>, h: Active)
    requires Intact(orig, mem, hs, heap) && forall x: int | InPatch(h, x) :: x !in heap
    requires forall g | g in hs :: Separate(h, g)
    ensures forall x: int | InPatch(h, x) :: mem(x) == orig(x)
  {
    forall x: int | InPatch(h, x) ensures mem(x) == orig(x) {
      forall g | g in hs ensures !InPatch(g, x) {
        assert Separate(h, g);
      }
      assert Unpatched(hs, x);
    }
  }

  /** A new hook, disjoint from the others, whose jump fits into the bytes it saved. */
  lemma InstallPatch(orig: Memory, mem: Memory, hs: seq<Active>, heap: iset<int>, h: Active, mem2: Memory)
    requires Intact(orig, mem, hs, heap) && |JumpOf(h)| <= |h.saved|
    requires forall x: int | InPatch(h, x) :: h.saved[x - h.p] == mem(x) && x !in heap
    requires forall g | g in hs :: Separate(h, g)
    requires forall x: int :: mem2(x) == Write(mem, h.p, JumpOf(h))(x)
    ensures Intact(orig, mem2, [h] + hs, heap)
  {
    hide JumpOf;
    var all := [h] + hs;
    UnpatchedIsOriginal(orig, mem, hs, heap, h);
    forall g | g in hs ensures Patched(orig, mem2, g) {
      assert Separate(h, g);
    }
    forall x: int | x !in heap && Unpatched(all, x) ensures mem2(x) == orig(x) {
      assert h in all && forall g | g in hs :: g in all;
      assert Unpatched(hs, x);
    }
  }

  /** Unhooking any one of the active hooks, in any order. */
  lemma RemovePatch(orig: Memory, mem: Memory, hs: seq<Active>, heap: iset<int>, k: nat, mem2: Memory)
    requires Intact(orig, mem, hs, heap) && k < |hs|
    requires forall x: int :: mem2(x) == Write(mem, hs[k].p, hs[k].saved)(x)
    ensures Intact(orig, mem2, hs[..k] + hs[k + 1..], heap)
  {
    hide JumpOf;
    var h, rest := hs[k], hs[..k] + hs[k + 1..];
    assert h in hs;
    forall g | g in rest ensures g in hs && Separate(h, g) {
      var i :| 0 <= i < |hs| && i != k && hs[i] == g;
      assert Separate(hs[i], hs[k]) || Separate(hs[k], hs[i]);
    }
    forall g | g in rest ensures Patched(orig, mem2, g) {
      assert Separate(h, g);
    }
    forall x: int | x !in heap && Unpatched(rest, x) ensures mem2(x) == orig(x) {
      if !InPatch(h, x) {
        forall g | g in hs ensures !InPatch(g, x) {
          assert g == h || g in rest;
        }
        assert Unpatched(hs, x);
      }
    }
  }

  /** Once every hook is gone, all code is the original. */
  lemma AllUnhooked(orig: Memory, mem: Memory, heap: iset<int>)
    requires Intact(orig, mem, [], heap)
    ensures forall x: int | x !in heap :: mem(x) == orig(x)
  {
  }

  // ---------------------------------------------------------------- every run

  /** What one call does to the code and to the list of active hooks (newest first). */
  datatype State = State(mem: Memory, hooks: seq<Active>, heap: iset<int>)

  /** Trampolines are written or allocated, away from the active patches. */
  ghost predicate ScratchStep(s: State, t: State) {
    && t.hooks == s.hooks && s.heap <= t.heap
    && (forall x: int | x !in t.heap :: t.mem(x) == s.mem(x))
    && (forall h, x: int | h in s.hooks && InPatch(h, x) :: x !in t.heap)
  }

  /** A new hook saves bytes that are disjoint from the other patches and from the trampolines, and
      writes its jump over them. */
  ghost predicate HookStep(s: State, t: State) {
    && |t.hooks| > 0 && t.hooks[1..] == s.hooks && t.heap == s.heap
    && (var h := t.hooks[0];
        && |JumpOf(h)| <= |h.saved|
        && (forall x: int | InPatch(h, x) :: h.saved[x - h.p] == s.mem(x) && x !in s.heap)
        && (forall g | g in s.hooks :: Separate(h, g))
        && (forall x: int :: t.mem(x) == Write(s.mem, h.p, JumpOf(h))(x)))
  }

  /** Some hook is taken out and its saved bytes are written back. */
  ghost predicate UnhookStep(s: State, t: State) {
    t.heap == s.heap && exists k | 0 <= k < |s.hooks| :: Removes(s, t, k)
  }

  ghost predicate Removes(s: State, t: State, k: nat)
    requires k < |s.hooks|
  {
    && t.hooks == s.hooks[..k] + s.hooks[k + 1..]
    && forall x: int :: t.mem(x) == Write(s.mem, s.hooks[k].p, s.hooks[k].saved)(x)
  }

  ghost predicate Step(s: State, t: State) { ScratchStep(s, t) || HookStep(s, t) || UnhookStep(s, t) }

  /** A call is two steps, one of which may do nothing. */
  ghost predicate Call(s: State, t: State) { exists mid: State :: Step(s, mid) && Step(mid, t) }

  ghost predicate IsRun(run: seq<State>) { forall i | 0 <= i < |run| - 1 :: Call(run[i], run[i + 1]) }

  ghost predicate Good(orig: Memory, s: State) { Intact(orig, s.mem, s.hooks, s.heap) }

  lemma StepKeepsCode(orig: Memory, s: State, t: State)
    requires Good(orig, s) && Step(s, t)
    ensures Good(orig, t)
  {
    hide Intact, Separate, JumpOf;
    if ScratchStep(s, t) {
      TrampolineWrite(orig, s.mem, s.hooks, s.heap, t.mem, t.heap);
    } else if HookStep(s, t) {
      InstallPatch(orig, s.mem, s.hooks, s.heap, t.hooks[0], t.mem);
      assert t.hooks == [t.hooks[0]] + s.hooks;
    } else {
      var k :| 0 <= k < |s.hooks| && Removes(s, t, k);
      RemovePatch(orig, s.mem, s.hooks, s.heap, k, t.mem);
    }
  }

  /** Over every run from unhooked code, whatever was hooked and unhooked in whatever order, code
      outside the trampolines is the original except in the patches of the hooks still active; when
      none is, it is the original everywhere. */
  lemma {:induction false} EveryRunKeepsCode(orig: Memory, run: seq<State>)
    requires |run| > 0 && IsRun(run) && run[0].hooks == [] && run[0].mem == orig
    ensures var s := run[|run| - 1];
      Good(orig, s) && (s.hooks == [] ==> forall x: int | x !in s.heap :: s.mem(x) == orig(x))
    decreases |run|
  {
    hide Step, Good, Call;
    if |run| == 1 {
      StartIsGood(orig, run[0]);
    } else {
      var before := run[..|run| - 1];
      EveryRunKeepsCode(orig, before);
      assert before[|before| - 1] == run[|run| - 2];
      assert Call(run[|run| - 2], run[|run| - 2 + 1]);
      CallKeepsCode(orig, run[|run| - 2], run[|run| - 1]);
    }
    if run[|run| - 1].hooks == [] { NoHooksLeft(orig, run[|run| - 1]); }
  }

  lemma StartIsGood(orig: Memory, s: State)
    requires s.hooks == [] && s.mem == orig
    ensures Good(orig, s)
  {
  }

  lemma NoHooksLeft(orig: Memory, s: State)
    requires Good(orig, s) && s.hooks == []
    ensures forall x: int | x !in s.heap :: s.mem(x) == orig(x)
  {
    AllUnhooked(orig, s.mem, s.heap);
  }

  lemma CallKeepsCode(orig: Memory, s: State, t: State)
    requires Good(orig, s) && Call(s, t)
    ensures Good(orig, t)
  {
    hide Step, Good;
    var mid: State :| Step(s, mid) && Step(mid, t);
    StepKeepsCode(orig, s, mid);
    StepKeepsCode(orig, mid, t);
  }

  // ---------------------------------------------------------------- what a short save loses

  function Slice(m: Memory, p: int, n: nat): (r: seq<byte>)
    ensures |r| == n
  {
    seq(n, i => m(p + i))
  }

  /** Writing back n saved bytes undoes a jump on all code exactly when the jump is no longer. */
  lemma UnhookRestoresIff(p: int, n: nat, jump: seq<byte>)
    ensures (forall m: Memory, x: int :: Write(Write(m, p, jump), p, Slice(m, p, n))(x) == m(x)) <==> |jump| <= n
  {
    if |jump| > n {
      var m: Memory := (x: int) => if jump[n] == 0 then 1 else 0;
      assert Write(Write(m, p, jump), p, Slice(m, p, n))(p + n) == jump[n];
    }
  }

  /** So unhooking restores every function with n saved bytes unless its hook, called directly, lies
      below it in the last five bytes of reach and fewer than the long jump's bytes were saved. */
  lemma UnhookRestores(p: int, n: nat, hook: int, tramp: int, up: int, down: int)
    requires InSpace(p, up, down) && InWindow(p, up, down, tramp) && n >= JMPSIZE
    ensures (forall m: Memory, x: int ::
      Write(Write(m, p, JumpOf(Active(tramp, p, hook, Slice(m, p, n)))), p, Slice(m, p, n))(x) == m(x))
       <==> !(hook < p && NEAR - 5 < p - hook <= NEAR && n < 14)
  {
    var jump := JumpBytes(X64, p, PatchTarget(p, hook, tramp));
    PatchIsFiveBytes(p, up, down, tramp, hook);
    assert |jump| == 5 || |jump| == 14;
    UnhookRestoresIff(p, n, jump);
    forall m: Memory, x: int
      ensures Write(Write(m, p, JumpOf(Active(tramp, p, hook, Slice(m, p, n)))), p, Slice(m, p, n))(x)
           == Write(Write(m, p, jump), p, Slice(m, p, n))(x)
    {
    }
  }

  /** A function and a hook of which this is true: five bytes are saved, the jump takes fourteen, and
      unhooking leaves nine bytes of it behind in some code. */
  lemma UnhookLeavesJump()
    ensures var p, hook, tramp := 0x1_8000_0000, 0x1_0001_0000, 0x1_7000_0000;
      && InSpace(p, 0, 0) && InWindow(p, 0, 0, tramp) && p - hook == NEAR
      && |JumpBytes(X64, p, PatchTarget(p, hook, tramp))| == 14
      && exists m: Memory, x: int ::
           Write(Write(m, p, JumpOf(Active(tramp, p, hook, Slice(m, p, 5)))), p, Slice(m, p, 5))(x) != m(x)
  {
    hide JumpBytes, Write;
    PatchIsFiveBytes(0x1_8000_0000, 0, 0, 0x1_7000_0000, 0x1_0001_0000);
    JumpLength(0x1_8000_0000, 0x1_0001_0000);
    UnhookRestores(0x1_8000_0000, 5, 0x1_0001_0000, 0x1_7000_0000, 0, 0);
  }

  // ---------------------------------------------------------------- the hook and the original

  /** The trampoline at h.tramp serves the hook: its code buffer is a relocation of the original
      function's prefix and a jump behind it, and its stub, when the API needs it, leads to the hook. */
  ghost predicate Serves(tables: Tables, orig: Memory, mem: Memory, h: Active) {
    var n, q := |h.saved|, h.tramp + CODE_OFFSET;
    && 0 <= h.p && h.p + n < ADDRESSES - 14 && 0 <= h.hook < ADDRESSES && 0 <= h.tramp < ADDRESSES - STRUCT_SIZE
    && n + JMPSIZE <= MAX_CODE_BYTES && IsNear(q + n, h.p + n)
    && Accepted(tables, orig, h.p, h.p + n) && Movable(tables, orig, h.p, h.p + n)
    && Relocated(tables, orig, h.p, h.p + n, mem, q)
    && Holds(At(mem, q + n), 0, JumpBytes(X64, q + n, h.p + n))
    && (Distance(h.p, h.hook) > NEAR ==>
          Holds(At(mem, h.tramp + JUMP_OFFSET), 0, JumpBytes(X64, h.tramp + JUMP_OFFSET, h.hook)))
  }

  /** While hooked, the function jumps to the hook function, directly or through the stub: following
      jumps from the one leads where following them from the other leads. */
  lemma HookedCallReachesHook(tables: Tables, orig: Memory, mem: Memory, h: Active, fuel: nat)
    requires Saved(orig, h) && Patched(orig, mem, h) && Serves(tables, orig, mem, h)
    ensures var jumps := if Distance(h.p, h.hook) > NEAR then 2 else 1;
      SkipJumps(X64, mem, h.p, fuel + jumps) == SkipJumps(X64, mem, h.hook, fuel)
  {
    hide JumpBytes, Accepted, Movable, Relocated, JumpStep;
    var target := PatchTarget(h.p, h.hook, h.tramp);
    Ranges();
    forall j: nat | j < |JumpOf(h)| ensures At(mem, h.p)(j) == JumpOf(h)[j] {
      assert InPatch(h, h.p + j);
    }
    EmittedJumpIsFollowed(X64, mem, h.p, target);
    if Distance(h.p, h.hook) > NEAR {
      EmittedJumpIsFollowed(X64, mem, h.tramp + JUMP_OFFSET, h.hook);
      assert SkipJumps(X64, mem, target, fuel + 1) == SkipJumps(X64, mem, h.hook, fuel);
    }
  }

  /** While hooked, calling the trampoline does what calling the function did: the same effects as its
      first instructions, and then its first byte that was not copied. */
  lemma TrampolineCallsOriginal(tables: Tables, orig: Memory, mem: Memory, h: Active, k: nat)
    requires Serves(tables, orig, mem, h) && Prefix(tables, orig, h.p, h.p + |h.saved|, k)
    ensures RunsLike(tables, orig, h.p, k, h.p + |h.saved|, mem, h.tramp + CODE_OFFSET)
  {
    hide Accepted, Movable, Relocated, JumpBytes, Execute, IsNear, SignedLe, Holds, Range, Count;
    var n, q := |h.saved|, h.tramp + CODE_OFFSET;
    OneJump(tables, mem, q + n, h.p + n);
    RelocatedRun(tables, orig, h.p, h.p + n, mem, q, 1);
    var r := Execute(tables, orig, h.p, k).value;
    assert r.effects + [] == r.effects;
  }

  lemma OneJump(tables: Tables, m: Memory, from: int, to: int)
    requires IsNear(from, to) && 0 <= to < ADDRESSES && Holds(At(m, from), 0, JumpBytes(X64, from, to))
    ensures Execute(tables, m, from, 1) == Some(Run([], to))
  {
    hide TrueInsnAt, JumpBytes, Holds, SignedLe, Add, IsNear, Range;
    Ranges();
    NearJump(X64, m, from, to);
  }

  /** Code elsewhere may change. */
  lemma ServesElsewhere(tables: Tables, orig: Memory, mem: Memory, mem2: Memory, h: Active)
    requires Serves(tables, orig, mem, h)
    requires forall x: int | InTramp(h.tramp, x) :: mem2(x) == mem(x)
    ensures Serves(tables, orig, mem2, h)
  {
    hide Accepted, Movable, Relocated, JumpBytes, IsNear;
    var n, q := |h.saved|, h.tramp + CODE_OFFSET;
    RelocatedElsewhere(tables, orig, h.p, h.p + n, mem, mem2, q);
    JumpLength(q + n, h.p + n);
    JumpLength(h.tramp + JUMP_OFFSET, h.hook);
    HoldsElsewhere(mem, mem2, q + n, JumpBytes(X64, q + n, h.p + n));
    if Distance(h.p, h.hook) > NEAR {
      HoldsElsewhere(mem, mem2, h.tramp + JUMP_OFFSET, JumpBytes(X64, h.tramp + JUMP_OFFSET, h.hook));
    }
  }

  lemma JumpLength(from: int, to: int)
    ensures |JumpBytes(X64, from, to)| == if IsNear(from, to) then JMPSIZE else 14
  {
  }

  lemma HoldsElsewhere(mem: Memory, mem2: Memory, a: int, b: seq<byte>)
    requires Holds(At(mem, a), 0, b)
    requires forall x: int | a <= x < a + |b| :: mem2(x) == mem(x)
    ensures Holds(At(mem2, a), 0, b)
  {
    forall j: nat | j < |b| ensures At(mem2, a)(j) == b[j] {
      assert At(mem, a)(j) == b[j];
    }
  }

  lemma {:induction false} RelocatedElsewhere(tables: Tables, m: Memory, a: int, end: int, m2: Memory, m3: Memory,
                                              q: int)
    requires Accepted(tables, m, a, end) && Movable(tables, m, a, end) && Relocated(tables, m, a, end, m2, q)
    requires forall x: int | q <= x < q + (end - a) :: m3(x) == m2(x)
    ensures Relocated(tables, m, a, end, m3, q)
    decreases end - a
  {
    hide InsnAt, Judge, SignedLe, Sound;
    if a < end {
      var i := InsnAt(tables, m, a).value;
      if Judge(i) == Patch {
        PatchLength(tables, m, a);
        SameField(At(m2, q), At(m3, q), i.fields.dispAt, 4);
      }
      RelocatedElsewhere(tables, m, a + i.length, end, m2, m3, q + i.length);
    }
  }

  /** The prefix is accepted, and its copy a relocation of it, by its own bytes alone. */
  lemma {:induction false} SameSource(tables: Tables, m: Memory, orig: Memory, a: int, end: int, m2: Memory, q: int)
    requires Accepted(tables, m, a, end) && Movable(tables, m, a, end) && Relocated(tables, m, a, end, m2, q)
    requires forall x: int | a <= x < end :: orig(x) == m(x)
    ensures Accepted(tables, orig, a, end) && Movable(tables, orig, a, end) && Relocated(tables, orig, a, end, m2, q)
    decreases end - a
  {
    hide InsnAt, Judge, SignedLe, Sound;
    if a < end {
      var i := InsnAt(tables, m, a).value;
      SameInsn(tables, m, orig, a);
      SameSource(tables, m, orig, a + i.length, end, m2, q + i.length);
    }
  }

  lemma SameInsn(tables: Tables, m: Memory, orig: Memory, a: int)
    requires InsnAt(tables, m, a).Some? && Sound(tables, m, a)
    requires forall x: int | a <= x < a + InsnAt(tables, m, a).value.length :: orig(x) == m(x)
    ensures InsnAt(tables, orig, a) == InsnAt(tables, m, a) && Sound(tables, orig, a)
  {
    hide Decode, TrueDecode, Regular, Counted;
    CopiedInstruction(tables, X64, At(m, a), At(orig, a));
  }

  ghost predicate AllServe(tables: Tables, orig: Memory, mem: Memory, hs: seq<Active>) {
    && (forall h | h in hs :: Serves(tables, orig, mem, h))
    && (forall i, j | 0 <= i < j < |hs| :: TrampsApart(hs[i].tramp, hs[j].tramp))
  }

  predicate TrampsApart(a: int, b: int) { a + STRUCT_SIZE <= b || b + STRUCT_SIZE <= a }

  /** What a successful SetHook has written: the hook's trampoline, and the jump into the function. */
  ghost predicate WroteHook(tables: Tables, mem: Memory, mem2: Memory, h: Active) {
    && (forall x: int | !InTramp(h.tramp, x) :: mem2(x) == Write(mem, h.p, JumpOf(h))(x))
    && Serves(tables, mem, mem2, h) && |JumpOf(h)| <= |h.saved|
    && forall x: int | InPatch(h, x) :: h.saved[x - h.p] == mem(x) && !InTramp(h.tramp, x)
  }

  /** The invariant survives it, when the hook is disjoint from everything else. */
  lemma HookInstalled(tables: Tables, orig: Memory, mem: Memory, hs: seq<Active>, heap: iset<int>, h: Active,
                      mem2: Memory)
    requires Intact(orig, mem, hs, heap) && AllServe(tables, orig, mem, hs) && WroteHook(tables, mem, mem2, h)
    requires forall x: int | InTramp(h.tramp, x) :: x in heap
    requires forall x: int | InPatch(h, x) :: x !in heap
    requires forall g | g in hs ::
      Separate(h, g) && TrampsApart(h.tramp, g.tramp) && forall x: int | InTramp(g.tramp, x) :: x in heap
    ensures Intact(orig, mem2, [h] + hs, heap) && AllServe(tables, orig, mem2, [h] + hs)
  {
    hide JumpOf, Serves, Separate, Intact;
    var mid: Memory := (x: int) => if InTramp(h.tramp, x) then mem2(x) else mem(x);
    PatchesAvoidHeap(orig, mem, hs, heap);
    TrampolineWrite(orig, mem, hs, heap, mid, heap);
    InstallPatch(orig, mid, hs, heap, h, mem2);
    UnpatchedIsOriginal(orig, mem, hs, heap, h);
    NewHookServes(tables, mem, orig, mem2, h);
    forall g | g in hs ensures Serves(tables, orig, mem2, g) {
      forall x: int | InTramp(g.tramp, x) ensures mem2(x) == mem(x) {
        assert x in heap;
        assert !InPatch(h, x) && !InTramp(h.tramp, x);
      }
      ServesElsewhere(tables, orig, mem, mem2, g);
    }
  }

  lemma PatchesAvoidHeap(orig: Memory, mem: Memory, hs: seq<Active>, heap: iset<int>)
    requires Intact(orig, mem, hs, heap)
    ensures forall h, x: int | h in hs && InPatch(h, x) :: x !in heap
  {
  }

  lemma NewHookServes(tables: Tables, mem: Memory, orig: Memory, mem2: Memory, h: Active)
    requires Serves(tables, mem, mem2, h) && forall x: int | InPatch(h, x) :: mem(x) == orig(x)
    ensures Serves(tables, orig, mem2, h)
  {
    hide Accepted, Movable, Relocated, IsNear, JumpBytes, Holds;
    SameSource(tables, mem, orig, h.p, h.p + |h.saved|, mem2, h.tramp + CODE_OFFSET);
  }

  /** A successful SetHook is a write of trampolines and a hook. */
  lemma HookIsCall(tables: Tables, orig: Memory, s: State, t: State)
    requires Good(orig, s) && Good(orig, t) && s.heap <= t.heap && |t.hooks| > 0 && t.hooks[1..] == s.hooks
    requires WroteHook(tables, s.mem, t.mem, t.hooks[0])
    requires forall x: int | InTramp(t.hooks[0].tramp, x) :: x in t.heap
    ensures Call(s, t)
  {
    hide JumpOf, Serves, Saved, Patched, Separate;
    var h := t.hooks[0];
    var mid := State((x: int) => if InTramp(h.tramp, x) then t.mem(x) else s.mem(x), s.hooks, t.heap);
    forall g | g in s.hooks ensures g in t.hooks && Separate(h, g) {
      var i :| 0 <= i < |s.hooks| && s.hooks[i] == g;
      assert t.hooks[i + 1] == g;
    }
    assert ScratchStep(s, mid);
    assert HookStep(mid, t);
    assert Step(s, mid) && Step(mid, t);
  }

  /** A successful Unhook is one removal. */
  lemma UnhookIsCall(orig: Memory, s: State, t: State, k: nat)
    requires Good(orig, t) && t.heap == s.heap && k < |s.hooks| && Removes(s, t, k)
    ensures Call(s, t)
  {
    NothingIsStep(orig, t);
    assert UnhookStep(s, t);
  }

  /** A failed call may leave new trampolines behind. */
  lemma FailureIsCall(orig: Memory, s: State, t: State)
    requires Good(orig, t) && t.mem == s.mem && t.hooks == s.hooks && s.heap <= t.heap
    ensures Call(s, t)
  {
    NothingIsStep(orig, t);
    assert ScratchStep(s, t) by { PatchesAvoidHeap(orig, t.mem, t.hooks, t.heap); }
  }

  lemma NothingIsStep(orig: Memory, t: State)
    requires Good(orig, t)
    ensures Step(t, t)
  {
    PatchesAvoidHeap(orig, t.mem, t.hooks, t.heap);
    assert ScratchStep(t, t);
  }

  /** So does a successful Unhook. */
  lemma HookRemoved(tables: Tables, orig: Memory, mem: Memory, hs: seq<Active>, heap: iset<int>, k: nat, mem2: Memory)
    requires Intact(orig, mem, hs, heap) && AllServe(tables, orig, mem, hs) && k < |hs|
    requires forall x: int :: mem2(x) == Write(mem, hs[k].p, hs[k].saved)(x)
    requires forall g, x: int | g in hs && InTramp(g.tramp, x) :: x in heap
    ensures Intact(orig, mem2, hs[..k] + hs[k + 1..], heap) && AllServe(tables, orig, mem2, hs[..k] + hs[k + 1..])
  {
    hide JumpOf, Serves, Separate, Intact;
    var h, rest := hs[k], hs[..k] + hs[k + 1..];
    PatchesAvoidHeap(orig, mem, hs, heap);
    RemovePatch(orig, mem, hs, heap, k, mem2);
    forall g | g in rest ensures Serves(tables, orig, mem2, g) {
      assert h in hs && g in hs;
      forall x: int | InTramp(g.tramp, x) ensures mem2(x) == mem(x) {
        assert x in heap;
        assert !InPatch(h, x);
      }
      ServesElsewhere(tables, orig, mem, mem2, g);
    }
  }

  /** New trampolines are allocated away from the patched code. */
  lemma HeapGrew(orig: Memory, mem: Memory, hs: seq<Active>, heap: iset<int>, heap2: iset<int>)
    requires Intact(orig, mem, hs, heap) && heap <= heap2
    requires forall x: int | x in heap2 && x !in heap :: Unpatched(hs, x)
    ensures Intact(orig, mem, hs, heap2)
  {
    hide JumpOf, Saved, Patched;
    TrampolineWrite(orig, mem, hs, heap, mem, heap2);
  }

  // ---------------------------------------------------------------- what Unhook looks up

  /** The newest active hook with this hook function: what TrampolineGet finds. */
  function Lookup(hs: seq<Active>, key: int): Option<nat> {
    if hs == [] then None
    else if hs[0].hook == key then Some(0)
    else
      match Lookup(hs[1..], key)
      case None => None
      case Some(k) => Some(k + 1)
  }

  lemma {:induction false} LookupIsNewest(hs: seq<Active>, key: int)
    ensures Lookup(hs, key).None? <==> forall h | h in hs :: h.hook != key
    ensures Lookup(hs, key).Some? ==> var k := Lookup(hs, key).value;
              k < |hs| && hs[k].hook == key && forall j | 0 <= j < k :: hs[j].hook != key
  {
    if hs != [] {
      LookupIsNewest(hs[1..], key);
      assert hs == [hs[0]] + hs[1..];
    }
  }

  /** SetHook hands back the trampoline's code, but Unhook looks for the hook function: unhooking with
      what SetHook handed back finds something if and only if that code is itself the hook function of
      some active hook. In particular it always fails while all hook functions lie outside the
      trampolines. */
  lemma ReturnedPointerFinds(hs: seq<Active>, i: nat, heap: iset<int>)
    requires i < |hs| && forall x: int | InTramp(hs[i].tramp, x) :: x in heap
    ensures Lookup(hs, hs[i].tramp + CODE_OFFSET).Some? <==> exists g :: g in hs && g.hook == hs[i].tramp + CODE_OFFSET
    ensures (forall g | g in hs :: g.hook !in heap) ==> Lookup(hs, hs[i].tramp + CODE_OFFSET).None?
  {
    LookupIsNewest(hs, hs[i].tramp + CODE_OFFSET);
    assert InTramp(hs[i].tramp, hs[i].tramp + CODE_OFFSET);
  }

  /** Unhooking with the hook function finds the newest hook that uses it, which need not be the one
      meant when two functions share a hook function. */
  lemma HookFunctionFinds(hs: seq<Active>, i: nat)
    requires i < |hs|
    ensures Lookup(hs, hs[i].hook) == Some(i) <==> forall j | 0 <= j < i :: hs[j].hook != hs[i].hook
    ensures Lookup(hs, hs[i].hook).Some?
  {
    LookupIsNewest(hs, hs[i].hook);
    assert hs[i] in hs;
  }

  /** A hooked function that Unhook does not find by the pointer SetHook returned. */
  lemma ReturnedPointerFails()
    ensures var h := Active(0x1_0000, 0x40_0000, 0x50_0000, [0x90, 0x90, 0x90, 0x90, 0x90]);
      Lookup([h], h.tramp + CODE_OFFSET) == None && Lookup([h], h.hook) == Some(0)
  {
    var h := Active(0x1_0000, 0x40_0000, 0x50_0000, [0x90, 0x90, 0x90, 0x90, 0x90]);
    assert [h][1..] == [];
  }
}
