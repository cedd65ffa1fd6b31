/** Mhook_SetHook and Mhook_Unhook for x64 (tmemutil-3rd/src/mhook-lib/mhook.c). */
module HookEngine {
  import opened Pointers
  import opened Wrappers
  import opened X86
  import opened CodeMemory
  import opened Processor
  import opened DecodeLocality
  import opened Relocation
  import opened Trampoline
  import opened HookedCode
  import BlockSearch
  import TrampolineList
  import ThreadSuspension

  type Node = TrampolineList.Trampoline

  // ---------------------------------------------------------------- what SetHook writes

  /** Everything SetHook needs of the function, the hook and the trampoline before it writes. */
  ghost predicate Writable(tables: Tables, m: Memory, p: int, n: nat, hook: int, tramp: int, rips: seq<Rip>,
                           up: int, down: int) {
    && PatchData(tables, m, p, p + n, rips, up, down)
    && Movable(tables, m, p, p + n) && ShortHeaders(tables, m, p, p + n)
    && Placement(p, n, hook, tramp, up, down)
  }

  ghost predicate Placement(p: int, n: nat, hook: int, tramp: int, up: int, down: int) {
    && JMPSIZE <= n && n + JMPSIZE <= MAX_CODE_BYTES && 0 <= p && p + n < ADDRESSES - 14 && 0 <= hook < ADDRESSES
    && InSpace(p, up, down) && InWindow(p, up, down, tramp) && tramp + STRUCT_SIZE < ADDRESSES
    && (forall x: int | p <= x < p + n :: !InTramp(tramp, x))
    && !JumpTooLong(p, n, hook)
  }

  /** The hook lies below the function in the last five bytes of reach, and too little code was saved
      for the long jump this takes. */
  predicate JumpTooLong(p: int, n: nat, hook: int) { hook < p && NEAR - 5 < p - hook <= NEAR && n < 14 }

  /** The trampoline's code buffer, and nothing else, has become a relocation of the function's first
      n bytes and a short jump to the rest. */
  ghost predicate BufferWritten(tables: Tables, m: Memory, p: int, n: nat, tramp: int, done: Memory) {
    var q := tramp + CODE_OFFSET;
    && IsNear(q + n, p + n)
    && Accepted(tables, m, p, p + n) && Relocated(tables, m, p, p + n, done, q)
    && Holds(At(done, q + n), 0, JumpBytes(X64, q + n, p + n))
    && forall x: int | !(q <= x < q + n + JMPSIZE) :: done(x) == m(x)
  }

  /** It is, after the copy, the jump back and the fix-ups. */
  lemma TrampolineWritten(tables: Tables, m: Memory, p: int, n: nat, hook: int, tramp: int, rips: seq<Rip>,
                          up: int, down: int,
                          copied: Memory, jumped: Memory, done: Memory)
    requires Writable(tables, m, p, n, hook, tramp, rips, up, down)
    requires forall x: int :: copied(x) == Write(m, tramp + CODE_OFFSET, Slice(m, p, n))(x)
    requires forall x: int ::
      jumped(x) == Write(copied, tramp + CODE_OFFSET + n, JumpBytes(X64, tramp + CODE_OFFSET + n, p + n))(x)
    requires done == Fixed(jumped, tramp + CODE_OFFSET, p, rips)
    ensures BufferWritten(tables, m, p, n, tramp, done)
  {
    hide Accepted, Movable, Relocated, Fixed, Rips, InSpace, InWindow, LimitUp, LimitDown, JumpBytes, ShortHeaders;
    hide Fixable;
    var q, end := tramp + CODE_OFFSET, p + n;
    WindowSuffices(p, up, down, tramp, 0, 0, n) by { ZeroInside(p, up, down); }
    JumpLength(q + n, end);
    LimitsBracket(rips);
    AllFixable(tables, m, p, p, end, up, down, tramp);
    FixedIsRelocated(tables, m, p, p, end, jumped, q);
    FixedAfter(tables, m, p, p, end, jumped, q);
    FixedBefore(tables, m, p, p, end, jumped, q);
    var jump := JumpBytes(X64, q + n, end);
    forall j: nat | j < |jump| ensures At(done, q + n)(j) == jump[j] {
      assert done(q + n + j) == jumped(q + n + j);
    }
  }

  /** The code with the stub, when SetHook writes one. */
  function Stubbed(done: Memory, p: int, hook: int, tramp: int): Memory {
    if Distance(p, hook) > NEAR then Write(done, tramp + JUMP_OFFSET, JumpBytes(X64, tramp + JUMP_OFFSET, hook))
    else done
  }

  /** The stub and the jump into the function complete the hook. */
  lemma HookWritten(tables: Tables, m: Memory, p: int, n: nat, hook: int, tramp: int, rips: seq<Rip>,
                    up: int, down: int,
                    done: Memory, stubbed: Memory, final: Memory)
    requires Writable(tables, m, p, n, hook, tramp, rips, up, down)
    requires BufferWritten(tables, m, p, n, tramp, done)
    requires forall x: int :: stubbed(x) == Stubbed(done, p, hook, tramp)(x)
    requires forall x: int :: final(x) == Write(stubbed, p, JumpBytes(X64, p, PatchTarget(p, hook, tramp)))(x)
    ensures WroteHook(tables, m, final, Active(tramp, p, hook, Slice(m, p, n)))
  {
    hide Accepted, Movable, Relocated, Rips, InSpace, Lower, Upper, LimitUp, LimitDown, ShortHeaders, JumpBytes;
    hide PatchTarget, IsNear;
    var h := Active(tramp, p, hook, Slice(m, p, n));
    var q := tramp + CODE_OFFSET;
    PatchIsFiveBytes(p, up, down, tramp, hook);
    JumpLength(p, PatchTarget(p, hook, tramp));
    JumpLength(q + n, p + n);
    JumpLength(tramp + JUMP_OFFSET, hook);
    forall x: int | q <= x < q + n + JMPSIZE ensures final(x) == done(x) {
      assert InTramp(tramp, x);
    }
    RelocatedElsewhere(tables, m, p, p + n, done, final, q);
    HoldsElsewhere(done, final, q + n, JumpBytes(X64, q + n, p + n));
    if Distance(p, hook) > NEAR {
      var stub := JumpBytes(X64, tramp + JUMP_OFFSET, hook);
      forall j: nat | j < |stub| ensures At(final, tramp + JUMP_OFFSET)(j) == stub[j] {
        assert InTramp(tramp, tramp + JUMP_OFFSET + j);
      }
    }
  }

  // ---------------------------------------------------------------- the engine's state

  function ActiveOf(t: Node): Active
    reads t`pSystemFunction, t`pHookFunction, t`codeUntouched
  {
    Active(t.address, t.pSystemFunction, t.pHookFunction, t.codeUntouched)
  }

  /** The active hooks in the order of the list. */
  ghost predicate Mirrors(nodes: seq<Node>, hs: seq<Active>)
    reads nodes`pSystemFunction, nodes`pHookFunction, nodes`codeUntouched, nodes`cbOverwrittenCode
  {
    |hs| == |nodes| && forall i | 0 <= i < |hs| ::
      hs[i] == ActiveOf(nodes[i]) && nodes[i].cbOverwrittenCode == |nodes[i].codeUntouched|
        && nodes[i].pSystemFunction != 0
  }

  /** All trampolines' memory. */
  ghost function HeapOf(nodes: set<Node>): iset<int> { iset x: int | InHeap(nodes, x) }

  ghost predicate InHeap(nodes: set<Node>, x: int) { exists t :: t in nodes && InTramp(t.address, x) }

  /** The byte lies in a block Windows would grant. */
  ghost predicate InGrant(os: int -> BlockSearch.Answer, size: nat, x: int) {
    exists a :: os(a) == BlockSearch.Granted && a <= x < a + size
  }

  /** Windows' answers to one SetHook: the snapshot of the threads and what it says about each, whether
      memory for their handles is to be had, what it says about each block, and whether the two pages
      can be made writable. */
  datatype Windows = Windows(
    snapshot: Option<seq<ThreadSuspension.ThreadEntry>>, threads: nat -> ThreadSuspension.ThreadAnswers,
    process: int, thread: int, memory: bool,
    granularity: nat, blocks: int -> BlockSearch.Answer, protectFunction: bool, protectTrampoline: bool)

  class Engine {
    const tables: Tables
    const space: CodeSpace
    const pool: TrampolineList.Pool
    const suspender: ThreadSuspension.Suspender
    ghost const orig: Memory
    ghost var active: seq<Active>

    constructor (tables: Tables, mem: Memory, kernel: ThreadSuspension.Kernel)
      requires ThreadSuspension.Countable(kernel.suspends)
      ensures Valid() && active == [] && orig == mem && space.mem == mem && this.tables == tables
      ensures pool.hooks == [] && pool.free == [] && pool.nodes == {} && suspender.kernel == kernel
      ensures fresh(space) && fresh(pool) && fresh(suspender)
    {
      this.tables, orig, active := tables, mem, [];
      space := new CodeSpace(mem);
      pool := new TrampolineList.Pool();
      suspender := new ThreadSuspension.Suspender(kernel);
      new;
      assert HeapOf(pool.nodes) == iset{};
    }

    /** Code is the original outside the trampolines except in the active hooks' patches, every active
        trampoline serves its hook, and the lists are in order. */
    ghost predicate CodeValid()
      reads this, space, pool, pool.hooks, pool.free
    {
      Settled(pool.hooks)
    }

    /** The same, with these nodes the active ones. */
    ghost predicate Settled(nodes: seq<Node>)
      reads this, space, pool, pool.hooks, pool.free, nodes
    {
      && pool.Valid() && Mirrors(nodes, active)
      && Intact(orig, space.mem, active, HeapOf(pool.nodes)) && AllServe(tables, orig, space.mem, active)
    }

    /** And no thread is held. */
    ghost predicate Valid()
      reads this, space, pool, pool.hooks, pool.free, suspender, suspender.kernel
    {
      CodeValid() && suspender.Idle() && ThreadSuspension.Countable(suspender.kernel.suspends)
    }

    /** The code, the active hooks and the trampolines' memory. */
    ghost function View(): State
      reads this, space, pool
    {
      State(space.mem, active, HeapOf(pool.nodes))
    }

    /** The trampoline was taken for a hook that is not written yet. */
    ghost predicate Pending(t: Node)
      reads this, space, pool, pool.hooks, pool.free
    {
      |pool.hooks| > 0 && pool.hooks[0] == t && t.pSystemFunction == 0 && Settled(pool.hooks[1..])
    }

    /** Copies the function's first bytes to the trampoline and to codeUntouched. */
    method SaveCode(t: Node, p: int, n: nat)
      requires forall x: int | p <= x < p + n :: !InTramp(t.address, x)
      requires n <= MAX_CODE_BYTES
      modifies space, t`codeUntouched
      ensures t.codeUntouched == Slice(old(space.mem), p, n)
      ensures forall x: int ::
        space.mem(x) == Write(old(space.mem), t.address + CODE_OFFSET, Slice(old(space.mem), p, n))(x)
    {
      var pbCode, i := t.address + CODE_OFFSET, 0;
      t.codeUntouched := [];
      while i < n
        invariant 0 <= i <= n && |t.codeUntouched| == i
        invariant forall j | 0 <= j < i :: t.codeUntouched[j] == old(space.mem)(p + j)
        invariant forall x: int :: space.mem(x) == Write(old(space.mem), pbCode, t.codeUntouched)(x)
      {
        var b := space.mem(p + i);
        assert !InTramp(t.address, p + i);
        space.Store(pbCode + i, [b]);
        t.codeUntouched := t.codeUntouched + [b];
        i := i + 1;
      }
    }

    /** The writes of SetHook once both pages are writable. */
    method WriteCode(t: Node, p: int, hook: int, n: nat, rips: seq<Rip>, ghost up: int, ghost down: int)
      requires Writable(tables, space.mem, p, n, hook, t.address, rips, up, down)
      modifies space, t`codeUntouched, t`cbOverwrittenCode, t`pSystemFunction, t`pHookFunction
      ensures t.pSystemFunction == p && t.pHookFunction == hook && t.cbOverwrittenCode == n == |t.codeUntouched|
      ensures WroteHook(tables, old(space.mem), space.mem, ActiveOf(t))
    {
      hide Accepted, Movable, Relocated, Fixed, Rips, InSpace, InWindow, LimitUp, LimitDown, ShortHeaders;
      hide JumpBytes, IsNear, Write, WroteHook;
      ghost var m := space.mem;
      SaveCode(t, p, n);
      ghost var copied := space.mem;
      var pbCode := space.EmitJump(X64, t.address + CODE_OFFSET + n, p + n);
      ghost var jumped := space.mem;
      FixupIPRelativeAddressing(space, t.address + CODE_OFFSET, p, rips);
      ghost var done := space.mem;
      TrampolineWritten(tables, m, p, n, hook, t.address, rips, up, down, copied, jumped, done);
      var dwDistance := if hook < p then p - hook else hook - p;
      if dwDistance > 0x7fff0000 {
        pbCode := space.EmitJump(X64, t.address + JUMP_OFFSET, hook);
        ghost var stubbed := space.mem;
        pbCode := space.EmitJump(X64, p, t.address + JUMP_OFFSET);
        HookWritten(tables, m, p, n, hook, t.address, rips, up, down, done, stubbed, space.mem);
      } else {
        pbCode := space.EmitJump(X64, p, hook);
        HookWritten(tables, m, p, n, hook, t.address, rips, up, down, done, done, space.mem);
      }
      t.cbOverwrittenCode := n;
      t.pSystemFunction := p;
      t.pHookFunction := hook;
    }

    /** What SetHook takes for granted of a function whose first instructions end at `end`: Windows
        grants blocks away from it and from patched code, nothing there is patched already, its
        instructions are regular, counted in full and encoded as the fix-up expects, and its hook is
        not in the gap. */
    ghost predicate PrefixFits(p: int, end: int, last: int, hook: int, up: int, down: int, w: Windows)
      reads this`active, space, pool`nodes, pool`free
    {
      && 0 <= p && Encoded(space.mem, p, end, last, hook, up, down)
      && Undisturbed(p, end, w)
      && pool.MayAllocate(p, Lower(p, up), Upper(p, down), w.granularity, w.blocks)
    }

    ghost predicate Encoded(m: Memory, p: int, end: int, last: int, hook: int, up: int, down: int) {
      && p < end < ADDRESSES - 14 && end - last <= 15
      && Accepted(tables, m, p, end) && Movable(tables, m, p, end) && ShortHeaders(tables, m, p, end)
      && InSpace(p, up, down) && !JumpTooLong(p, end - p, hook)
    }

    ghost predicate Undisturbed(p: int, end: int, w: Windows)
      reads this`active, pool`nodes
    {
      forall x: int | p <= x < end ::
        !InHeap(pool.nodes, x) && Unpatched(active, x) && !InGrant(w.blocks, TrampolineList.AllocSize(w.granularity), x)
    }

    ghost predicate GrantsApart(w: Windows)
      reads this`active, pool`nodes
    {
      var size := TrampolineList.AllocSize(w.granularity);
      && ADDRESSES % size == 0 && TrampolineList.GrantsFresh(w.blocks, size, pool.nodes)
      && GrantsClear(active, w.blocks, size)
    }

    /** Takes a trampoline in the window. */
    method Allocate(p: int, end: int, up: int, down: int, w: Windows) returns (t: TrampolineList.Trampoline?)
      requires CodeValid() && 0 <= p < end < ADDRESSES && GrantsApart(w) && Undisturbed(p, end, w)
      requires pool.MayAllocate(p, Lower(p, up), Upper(p, down), w.granularity, w.blocks)
      modifies pool, pool.nodes`pPrevTrampoline, pool.nodes`pNextTrampoline
      ensures t == null ==> CodeValid() && old(pool.NoRoom(p, up, down, w.granularity, w.blocks))
      ensures t != null ==> Pending(t) && t.pSystemFunction == 0 && InWindow(p, up, down, t.address)
      ensures pool.hooks == if t == null then old(pool.hooks) else [t] + old(pool.hooks)
      ensures t != null ==> t.address + STRUCT_SIZE < ADDRESSES && t in pool.nodes
      ensures Free(p, end)
      ensures t != null ==> forall x: int | p <= x < end :: !InTramp(t.address, x)
      ensures fresh(pool.nodes - old(pool.nodes)) && old(pool.nodes) <= pool.nodes
    {
      hide Intact, AllServe, Lower, Upper, HeapOf, InHeap, InGrant, Unpatched;
      hide TrampolineList.Linked, TrampolineList.LinkedBut, TrampolineList.Distinct, TrampolineList.Apart;
      hide TrampolineList.GrantsFresh;
      hide TrampolineList.Placed, TrampolineList.InRange, TrampolineList.Pool.NoRoom;
      ghost var before := pool.nodes;
      ghost var size := TrampolineList.AllocSize(w.granularity);
      assert GrantsClear(active, w.blocks, size);
      assert Undisturbed(p, end, w);
      ghost var gap;
      t, gap := pool.TrampolineAlloc(p, up, down, w.granularity, w.blocks);
      NewHeap(before, pool.nodes, w.blocks, size);
      HeapGrew(orig, space.mem, active, HeapOf(before), HeapOf(pool.nodes)) by {
        GrownApart(before, pool.nodes, w.blocks, size, active);
      }
      if t != null {
        assert pool.hooks[1..] == old(pool.hooks);
        assert t in pool.nodes;
        AddressInWindow(t, pool.nodes, p, up, down);
        NotInTrampoline(t, pool.nodes, p, end);
      }
    }

    /** No trampoline and no patch there. */
    ghost predicate Free(p: int, end: int)
      reads this`active, pool`nodes
    {
      forall x: int | p <= x < end :: !InHeap(pool.nodes, x) && Unpatched(active, x)
    }

    /** The hook goes in. */
    method Complete(t: Node, p: int, hook: int, n: nat, rips: seq<Rip>, ghost up: int, ghost down: int)
      requires Pending(t) && Writable(tables, space.mem, p, n, hook, t.address, rips, up, down) && p != 0
      requires Free(p, p + n)
      modifies space, this`active, t`codeUntouched, t`cbOverwrittenCode, t`pSystemFunction, t`pHookFunction
      ensures CodeValid()
      ensures active == [Active(t.address, p, hook, Slice(old(space.mem), p, n))] + old(active)
      ensures WroteHook(tables, old(space.mem), space.mem, active[0]) && t.pSystemFunction == p
    {
      hide Intact, AllServe, Writable, WroteHook, HeapOf, InHeap, Unpatched, Slice, TrampsApart, Free, HeapClear;
      hide TrampolineList.Distinct, TrampolineList.Apart, TrampolineList.Linked, TrampolineList.LinkedBut;
      ghost var m, hs, rest := space.mem, active, pool.hooks[1..];
      OthersApart(pool.nodes, pool.hooks, hs, t);
      WriteCode(t, p, hook, n, rips, up, down);
      TrampolineList.StillLinked(pool.hooks);
      TrampolineList.StillLinked(pool.free);
      assert Mirrors(rest, hs);
      MirrorsFront(pool.hooks, hs);
      ghost var h := ActiveOf(t);
      Completed(tables, orig, m, hs, pool.nodes, h, space.mem) by { FreeIsClear(p, p + n, h); }
      active := [h] + hs;
    }

    lemma FreeIsClear(p: int, end: int, h: Active)
      requires Free(p, end) && h.p == p && |h.saved| == end - p
      ensures forall x: int | InPatch(h, x) :: !InHeap(pool.nodes, x) && Unpatched(active, x)
    {
    }

    /** The trampoline goes back. */
    method Discard(t: Node)
      requires Pending(t)
      modifies pool, pool.nodes`pPrevTrampoline, pool.nodes`pNextTrampoline
      ensures CodeValid() && pool.hooks == old(pool.hooks[1..])
      ensures pool.free == [t] + old(pool.free) && pool.nodes == old(pool.nodes)
    {
      hide Intact, AllServe, HeapOf, TrampolineList.Linked, TrampolineList.LinkedBut, TrampolineList.Distinct;
      hide TrampolineList.Apart;
      assert TrampolineList.Without(pool.hooks, 0) == pool.hooks[1..];
      pool.TrampolineFree(t, true, 0);
    }

    lemma FitsPlacement(p: int, n: nat, last: int, hook: int, up: int, down: int, rips: seq<Rip>, m: Memory, tramp: int)
      requires PatchData(tables, m, p, p + n, rips, up, down)
      requires Encoded(m, p, p + n, last, hook, up, down) && JMPSIZE <= n && last < p + JMPSIZE && 0 <= hook < ADDRESSES
      requires InWindow(p, up, down, tramp) && tramp + STRUCT_SIZE < ADDRESSES && 0 < p
      requires forall x: int | p <= x < p + n :: !InTramp(tramp, x)
      ensures Writable(tables, m, p, n, hook, tramp, rips, up, down)
    {
    }

    /** Where SetHook follows its two arguments to. */
    ghost predicate Resolves(pFunction: int, p: int, fuel: nat)
      reads space
    {
      SkipJumps(X64, space.mem, pFunction, fuel) == Some(p)
    }

    /** Every other thread that can be kept away from these bytes is suspended. */
    ghost predicate ThreadsHeld(p: int, n: nat, w: Windows)
      reads suspender, suspender.kernel, suspender.g_hThreadHandles
    {
      && suspender.Valid()
      && suspender.held ==
         if w.snapshot.Some? && |ThreadSuspension.Others(w.snapshot.value, w.process, w.thread)| > 0 && w.memory
         then ThreadSuspension.Kept(w.snapshot.value, w.threads, w.process, w.thread, p, n) else []
    }

    /** No free trampoline is within reach, and Windows grants no block: going away from the function, below
        first, every granule was rejected before one that is out of reach or cannot be queried. */
    ghost predicate NoPlace(p: int, up: int, down: int, w: Windows)
      reads pool`free
    {
      && (forall t | t in pool.free :: !InReach(p, up, down, t.address))
      && exists z: int :: SearchEndsAt(p, up, down, TrampolineList.AllocSize(w.granularity), w.blocks, z)
    }

    lemma NoRoomIsNoPlace(p: int, end: int, last: int, hook: int, up: int, down: int, w: Windows)
      requires CodeValid() && 0 <= p && PrefixFits(p, end, last, hook, up, down, w)
      ensures pool.NoRoom(p, up, down, w.granularity, w.blocks) ==> NoPlace(p, up, down, w)
    {
      hide Lower, Upper, InSpace, InReach, InWindow, TrampolineList.SearchFails, CodeValid;
      hide ShortHeaders, Undisturbed, TrampolineList.Pool.MayAllocate;
      if pool.NoRoom(p, up, down, w.granularity, w.blocks) {
        forall t | t in pool.free ensures !InReach(p, up, down, t.address) {
          WindowIsReach(p, up, down, t.address);
        }
        FailedSearchEnds(p, up, down, TrampolineList.AllocSize(w.granularity), w.blocks);
      }
    }

    /** SetHook's part between suspending and resuming the threads. */
    method HookFunction(p: int, hook: int, n: nat, rips: seq<Rip>, up: int, down: int, ghost last: int, w: Windows)
      returns (t: TrampolineList.Trampoline?)
      requires CodeValid() && 0 < p && 0 <= hook < ADDRESSES && JMPSIZE <= n && GrantsApart(w)
      requires PatchData(tables, space.mem, p, p + n, rips, up, down) && last < p + JMPSIZE
      requires PrefixFits(p, p + n, last, hook, up, down, w) && ThreadsHeld(p, n, w)
      modifies this`active, space, pool, pool.nodes
      ensures CodeValid()
      ensures t != null ==> active == [Active(t.address, p, hook, Slice(old(space.mem), p, n))] + old(active)
      ensures t != null ==> WroteHook(tables, old(space.mem), space.mem, active[0])
      ensures t == null ==> active == old(active) && space.mem == old(space.mem) && pool.hooks == old(pool.hooks)
      ensures t == null && w.protectFunction && w.protectTrampoline ==>
        old(NoPlace(p, up, down, w))
      ensures t != null ==> w.protectFunction && w.protectTrampoline && t in pool.nodes
      ensures old(pool.nodes) <= pool.nodes && fresh(pool.nodes - old(pool.nodes))
    {
      hide CodeValid, Intact, AllServe, InSpace, InWindow, Lower, Upper, ShortHeaders, PatchData, WroteHook, Slice;
      hide JumpTooLong;
      hide ThreadsHeld, InHeap, Unpatched, InGrant, Mirrors, Free, GrantsApart, Undisturbed, Pending, Writable;
      hide NoPlace, TrampolineList.Pool.NoRoom;
      NoRoomIsNoPlace(p, p + n, last, hook, up, down, w);
      t := Allocate(p, p + n, up, down, w);
      if t != null {
        if w.protectFunction && w.protectTrampoline {
          FitsPlacement(p, n, last, hook, up, down, rips, space.mem, t.address);
          Complete(t, p, hook, n, rips, up, down);
        }
        if t.pSystemFunction == 0 {
          Discard(t);
          t := null;
        }
      }
    }

    /** Hooks a function. It succeeds only if both pages could be made writable, and then the new hook is
        in front of the active ones, its trampoline serves it, and the pointer handed back is the
        trampoline's code; otherwise no byte of memory and no pointer has changed. In both cases every
        thread is as often suspended as before. */
    method SetHook(ppSystemFunction: int, pHookFunction: int, fuel: nat, w: Windows, ghost p: int, ghost hook: int)
      returns (ok: bool, pp: int)
      requires Valid() && Resolves(ppSystemFunction, p, fuel) && Resolves(pHookFunction, hook, fuel)
      requires 0 < p && 0 <= hook < ADDRESSES && GrantsApart(w)
      requires PrefixesFit(p, hook, w)
      modifies this`active, space, pool, pool.nodes, suspender, suspender.kernel
      ensures Valid()
      ensures ok ==> |active| > 0 && active[1..] == old(active) && active[0].p == p && active[0].hook == hook
      ensures Call(old(View()), View()) && fresh(pool.nodes - old(pool.nodes))
      ensures ok ==> WroteHook(tables, old(space.mem), space.mem, active[0]) && pp == active[0].tramp + CODE_OFFSET
      ensures ok ==>
        Usable(tables, old(space.mem), p, JMPSIZE, p + |active[0].saved|) && w.protectFunction && w.protectTrampoline
      ensures !ok ==> active == old(active) && space.mem == old(space.mem) && pp == ppSystemFunction
      ensures !ok && w.protectFunction && w.protectTrampoline ==> old(Unhookable(p, w))
      ensures ThreadsAsBefore(old(suspender.kernel.suspends), old(suspender.kernel.open))
    {
      hide CodeValid, SkipJumps, PatchData, LastInsn, PrefixFits, PrefixesFit, GrantsApart, WroteHook, Slice;
      hide Usable, Accepted;
      hide Call, HeapOf, Good, NoPlace;
      ViewIsGood();
      FailureIsCall(orig, View(), View());
      ok, pp := false, ppSystemFunction;
      var pSystemFunction := SkipJumps(X64, space.mem, ppSystemFunction, fuel).value;
      var pHook := SkipJumps(X64, space.mem, pHookFunction, fuel).value;
      ghost var last;
      var dwInstructionLength, nLimitUp, nLimitDown, rips;
      dwInstructionLength, nLimitUp, nLimitDown, rips, last :=
        DisassembleAndSkip(tables, space.mem, pSystemFunction, JMPSIZE);
      if dwInstructionLength >= JMPSIZE {
        ThisPrefixFits(p, hook, w, p + dwInstructionLength, last, rips, nLimitUp, nLimitDown);
        LastIsEarly(tables, space.mem, p, last, p + dwInstructionLength);
        var pTrampoline :=
          HookSuspended(pSystemFunction, pHook, dwInstructionLength, rips, nLimitUp, nLimitDown, last, w);
        assert pTrampoline == null && w.protectFunction && w.protectTrampoline ==>
          old(PatchData(tables, space.mem, p, p + dwInstructionLength, rips, nLimitUp, nLimitDown)
              && LastInsn(tables, space.mem, p, JMPSIZE, last, p + dwInstructionLength)
              && Usable(tables, space.mem, p, JMPSIZE, p + dwInstructionLength)
              && NoPlace(p, nLimitUp, nLimitDown, w));
        if pTrampoline != null {
          ok, pp := true, pTrampoline.address + CODE_OFFSET;
        }
      }
    }

    /** What makes SetHook fail although the pages could be made writable: no first instructions that
        can be moved, or no place for a trampoline they allow. */
    ghost predicate Unhookable(p: int, w: Windows)
      reads space, pool`free
    {
      || (forall end :: !Usable(tables, space.mem, p, JMPSIZE, end))
      || (p >= 0 && exists end, last, rips, up, down ::
            && PatchData(tables, space.mem, p, end, rips, up, down)
            && LastInsn(tables, space.mem, p, JMPSIZE, last, end)
            && Usable(tables, space.mem, p, JMPSIZE, end) && NoPlace(p, up, down, w))
    }

    /** Hooks the function while the other threads are suspended. */
    method HookSuspended(p: int, hook: int, n: nat, rips: seq<Rip>, up: int, down: int, ghost last: int, w: Windows)
      returns (t: TrampolineList.Trampoline?)
      requires Valid() && 0 < p && 0 <= hook < ADDRESSES && JMPSIZE <= n && GrantsApart(w)
      requires PatchData(tables, space.mem, p, p + n, rips, up, down) && last < p + JMPSIZE
      requires PrefixFits(p, p + n, last, hook, up, down, w)
      modifies this`active, space, pool, pool.nodes, suspender, suspender.kernel
      ensures Valid() && ThreadsAsBefore(old(suspender.kernel.suspends), old(suspender.kernel.open))
      ensures t != null ==> active == [Active(t.address, p, hook, Slice(old(space.mem), p, n))] + old(active)
      ensures t != null ==> WroteHook(tables, old(space.mem), space.mem, active[0])
      ensures t == null ==> active == old(active) && space.mem == old(space.mem) && pool.hooks == old(pool.hooks)
      ensures t == null && w.protectFunction && w.protectTrampoline ==>
        old(NoPlace(p, up, down, w))
      ensures t != null ==> w.protectFunction && w.protectTrampoline
      ensures Call(old(View()), View()) && fresh(pool.nodes - old(pool.nodes))
    {
      hide CodeValid, PatchData, PrefixFits, GrantsApart, WroteHook, ThreadSuspension.Holding;
      hide ThreadSuspension.Listed, ThreadSuspension.Holdable, ThreadSuspension.Kept, ThreadSuspension.KeptLooks;
      hide ThreadSuspension.FirstAway, Call, HeapOf;
      hide NoPlace, Good, Slice;
      ghost var s := View();
      ghost var before := pool.nodes;
      ViewIsGood();
      var suspended := suspender.SuspendOtherThreads(w.snapshot, w.threads, w.process, w.thread, w.memory, p, n);
      t := HookFunction(p, hook, n, rips, up, down, last, w);
      ViewIsGood();
      HeapGrows(before, pool.nodes);
      if t == null {
        FailureIsCall(orig, s, View());
      } else {
        TrampolineInHeap(t, pool.nodes);
        HookIsCall(tables, orig, s, View());
      }
      suspender.ResumeOtherThreads();
    }

    lemma ViewIsGood()
      requires CodeValid()
      ensures Good(orig, View())
    {
    }

    /** Every thread's suspend count and the open handles are these. */
    ghost predicate ThreadsAsBefore(counts: int -> int, open: map<int, int>)
      reads suspender.kernel
    {
      suspender.kernel.open == open && forall id :: suspender.kernel.suspends(id) == counts(id)
    }

    lemma ThisPrefixFits(p: int, hook: int, w: Windows, end: int, last: int, rips: seq<Rip>, up: int, down: int)
      requires PrefixesFit(p, hook, w) && PatchData(tables, space.mem, p, end, rips, up, down)
      requires LastInsn(tables, space.mem, p, JMPSIZE, last, end) && end >= p + JMPSIZE
      ensures PrefixFits(p, end, last, hook, up, down, w)
    {
    }

    /** However the function's first instructions end, they fit. */
    ghost predicate PrefixesFit(p: int, hook: int, w: Windows)
      reads this`active, space, pool`nodes, pool`free
    {
      forall end, last, rips, up, down
        | PatchData(tables, space.mem, p, end, rips, up, down) && LastInsn(tables, space.mem, p, JMPSIZE, last, end)
          && end >= p + JMPSIZE ::
        PrefixFits(p, end, last, hook, up, down, w)
    }

    // -------------------------------------------------------------- unhooking

    /** Writes the saved bytes back. */
    method RestoreCode(t: Node)
      modifies space
      requires t.cbOverwrittenCode == |t.codeUntouched|
      ensures forall x: int :: space.mem(x) == Write(old(space.mem), t.pSystemFunction, t.codeUntouched)(x)
    {
      var pbCode, i := t.pSystemFunction, 0;
      while i < t.cbOverwrittenCode
        invariant i <= t.cbOverwrittenCode
        invariant forall x: int :: space.mem(x) == Write(old(space.mem), pbCode, t.codeUntouched[..i])(x)
      {
        space.Store(pbCode + i, [t.codeUntouched[i]]);
        i := i + 1;
      }
      assert t.codeUntouched[..i] == t.codeUntouched;
    }

    /** Takes a hook out again and abandons its trampoline. */
    method Remove(t: Node, ghost k: nat, ghost w: Windows)
      requires ThreadsHeld(t.pSystemFunction, t.cbOverwrittenCode, w)
      requires CodeValid() && k < |pool.hooks| && pool.hooks[k] == t
      modifies this`active, space, pool, pool.nodes`pPrevTrampoline, pool.nodes`pNextTrampoline
      ensures CodeValid() && k < |old(active)| && active == old(active[..k]) + old(active[k + 1..])
      ensures forall x: int :: space.mem(x) == Write(old(space.mem), old(active)[k].p, old(active)[k].saved)(x)
      ensures t.pSystemFunction == old(active)[k].p && pool.nodes == old(pool.nodes)
    {
      hide ThreadsHeld, Intact, AllServe, HeapOf, Write, InTramp, TrampolineList.Without, TrampolineList.Linked;
      hide TrampolineList.LinkedBut;
      hide TrampolineList.Distinct, TrampolineList.Apart;
      ghost var m := space.mem;
      TrampolinesInHeap(pool.nodes, pool.hooks, active);
      RestoreCode(t);
      assert active[k] == ActiveOf(t);
      HookRemoved(tables, orig, m, active, HeapOf(pool.nodes), k, space.mem);
      ghost var list := pool.hooks;
      pool.TrampolineFree(t, false, k);
      MirrorsWithout(list, active, k);
      active := active[..k] + active[k + 1..];
    }

    /** Unhooks the newest hook with this hook function, if there is one and its page can be made
        writable: then the function's bytes are back, it is handed back, and the other hooks stay as
        they are. Otherwise nothing changes. No thread stays suspended. */
    method Unhook(ppHookedFunction: int, w: Windows) returns (bRet: bool, pp: int)
      requires Valid()
      modifies this`active, space, pool, pool.nodes, suspender, suspender.kernel
      ensures Valid() && ThreadsAsBefore(old(suspender.kernel.suspends), old(suspender.kernel.open))
      ensures bRet <==> Lookup(old(active), ppHookedFunction).Some? && w.protectFunction
      ensures Call(old(View()), View()) && pool.nodes == old(pool.nodes)
      ensures bRet ==> Unhooked(old(active), old(space.mem), ppHookedFunction, pp)
      ensures !bRet ==> active == old(active) && space.mem == old(space.mem) && pp == ppHookedFunction
    {
      hide CodeValid, Lookup, Unhooked, Call, HeapOf, Good, Removes;
      ghost var s := View();
      ViewIsGood();
      FailureIsCall(orig, s, s);
      bRet, pp := false, ppHookedFunction;
      var pTrampoline, k := Find(ppHookedFunction);
      if pTrampoline != null {
        RemoveSuspended(pTrampoline, k, w);
        if w.protectFunction {
          pp, bRet := pTrampoline.pSystemFunction, true;
          IsUnhooked(s, ppHookedFunction, pp, k);
          ViewIsGood();
          UnhookIsCall(orig, s, View(), k);
        }
      }
    }

    /** Unhook's part while the other threads are suspended. */
    method RemoveSuspended(t: Node, ghost k: nat, w: Windows)
      requires Valid() && k < |pool.hooks| && pool.hooks[k] == t && k < |active|
      modifies this`active, space, pool, pool.nodes, suspender, suspender.kernel
      ensures Valid() && ThreadsAsBefore(old(suspender.kernel.suspends), old(suspender.kernel.open))
      ensures pool.nodes == old(pool.nodes)
      ensures !w.protectFunction ==> active == old(active) && space.mem == old(space.mem)
      ensures w.protectFunction ==> Removes(old(View()), View(), k) && t.pSystemFunction == old(active)[k].p
    {
      hide CodeValid, Mirrors, Write, ThreadSuspension.Holding, ThreadSuspension.FirstAway, HeapOf;
      hide ThreadSuspension.Listed, ThreadSuspension.Holdable;
      var suspended := suspender.SuspendOtherThreads(w.snapshot, w.threads, w.process, w.thread, w.memory,
                                                     t.pSystemFunction, t.cbOverwrittenCode);
      if w.protectFunction {
        Remove(t, k, w);
      }
      suspender.ResumeOtherThreads();
    }

    /** The hook Lookup names was taken out. */
    ghost predicate Unhooked(before: seq<Active>, mem: Memory, key: int, pp: int)
      reads this`active, space
    {
      var r := Lookup(before, key);
      && r.Some? && r.value < |before| && pp == before[r.value].p
      && active == before[..r.value] + before[r.value + 1..]
      && forall x: int :: space.mem(x) == Write(mem, before[r.value].p, before[r.value].saved)(x)
    }

    lemma IsUnhooked(s: State, key: int, pp: int, k: nat)
      requires k < |s.hooks| && Lookup(s.hooks, key) == Some(k) && pp == s.hooks[k].p && Removes(s, View(), k)
      ensures Unhooked(s.hooks, s.mem, key, pp)
    {
      hide Lookup;
    }

    /** TrampolineGet, in terms of the active hooks. */
    method Find(key: int) returns (t: TrampolineList.Trampoline?, ghost k: nat)
      requires CodeValid()
      ensures t == null <==> Lookup(active, key) == None
      ensures t != null ==> Lookup(active, key) == Some(k) && k < |pool.hooks| && pool.hooks[k] == t && t in pool.nodes
      ensures t != null ==> k < |active|
    {
      hide Intact, AllServe, HeapOf, Lookup, TrampolineList.Linked, TrampolineList.LinkedBut;
      hide TrampolineList.Distinct, TrampolineList.Apart;
      t, k := pool.TrampolineGet(key);
      LookupIsNewest(active, key);
      if t == null {
        forall h | h in active ensures h.hook != key {
          var i :| 0 <= i < |active| && active[i] == h;
          assert h == ActiveOf(pool.hooks[i]) && pool.hooks[i] in pool.hooks;
        }
      } else {
        assert active[k] == ActiveOf(t) && active[k] in active;
        forall j | 0 <= j < k ensures active[j].hook != key {
          assert active[j] == ActiveOf(pool.hooks[j]) && pool.hooks[j] in pool.hooks[..k];
        }
      }
    }
  }

  /** The z-th granule from the function's own is out of reach or cannot be queried; all nearer ones were
      rejected, and so was the one as far below if it lies above. */
  ghost predicate SearchEndsAt(p: int, up: int, down: int, g: nat, os: int -> BlockSearch.Answer, z: int)
    requires g > 0
  {
    var guess := p / g * g;
    && (!InReach(p, up, down, guess + z * g) || os(guess + z * g) == BlockSearch.QueryFails)
    && forall y: int | (-z < y < z || z < y < -z) || (y == -z && z > 0) :: os(guess + y * g) == BlockSearch.Rejected
  }

  lemma FailedSearchEnds(p: int, up: int, down: int, g: nat, os: int -> BlockSearch.Answer)
    requires g > 0 && 0 <= p && InSpace(p, up, down)
    requires TrampolineList.SearchFails(p, Lower(p, up), Upper(p, down), g, os)
    ensures exists z: int :: SearchEndsAt(p, up, down, g, os, z)
  {
    hide Lower, Upper, InSpace, InReach, InWindow, BlockSearch.Candidate;
    var lower, upper, guess := Lower(p, up), Upper(p, down), BlockSearch.RoundDown(p, g);
    var tried: nat :| BlockSearch.Tried(guess, g, lower, upper, os, tried)
      && BlockSearch.Ended(guess, g, lower, upper, os, tried, 0);
    var z := BlockSearch.Turn(tried);
    BlockSearch.EveryPlaceComes(guess, g, z);
    assert BlockSearch.PlaceOf(z) == tried;
    WindowIsReach(p, up, down, guess + z * g);
    forall y: int | (-z < y < z || z < y < -z) || (y == -z && z > 0) ensures os(guess + y * g) == BlockSearch.Rejected {
      BlockSearch.EveryPlaceComes(guess, g, y);
      assert BlockSearch.PlaceOf(y) < tried;
    }
    assert SearchEndsAt(p, up, down, g, os, z);
  }

  ghost predicate GrantsClear(hs: seq<Active>, os: int -> BlockSearch.Answer, size: nat) {
    forall x: int | InGrant(os, size, x) :: Unpatched(hs, x)
  }

  /** The heap holds the trampolines of these hooks and of the new one, apart from each other. */
  ghost predicate HeapClear(nodes: set<Node>, hs: seq<Active>, tramp: int) {
    && (forall x: int | InTramp(tramp, x) :: x in HeapOf(nodes))
    && (forall g | g in hs :: TrampsApart(tramp, g.tramp))
    && (forall g, x: int | g in hs && InTramp(g.tramp, x) :: x in HeapOf(nodes))
  }

  lemma Completed(tables: Tables, orig: Memory, m: Memory, hs: seq<Active>, nodes: set<Node>, h: Active, mem2: Memory)
    requires Intact(orig, m, hs, HeapOf(nodes)) && AllServe(tables, orig, m, hs) && WroteHook(tables, m, mem2, h)
    requires HeapClear(nodes, hs, h.tramp)
    requires forall x: int | InPatch(h, x) :: !InHeap(nodes, x) && Unpatched(hs, x)
    ensures Intact(orig, mem2, [h] + hs, HeapOf(nodes)) && AllServe(tables, orig, mem2, [h] + hs)
    ensures h.saved == Slice(m, h.p, |h.saved|)
  {
    hide Intact, AllServe, WroteHook, InHeap, Unpatched, Separate, TrampsApart;
    WroteSaved(tables, m, mem2, h);
    PatchesSeparate(h, hs);
    HookInstalled(tables, orig, m, hs, HeapOf(nodes), h, mem2) by {
      PatchOutsideHeap(h, nodes);
    }
  }

  lemma MirrorsFront(list: seq<Node>, hs: seq<Active>)
    requires |list| > 0 && Mirrors(list[1..], hs)
    requires list[0].cbOverwrittenCode == |list[0].codeUntouched| && list[0].pSystemFunction != 0
    ensures Mirrors(list, [ActiveOf(list[0])] + hs)
  {
    forall i | 0 < i < |list| ensures list[i] == list[1..][i - 1] {
    }
  }

  lemma OthersApart(nodes: set<Node>, list: seq<Node>, hs: seq<Active>, t: Node)
    requires TrampolineList.Apart(nodes) && TrampolineList.Distinct(list) && |list| > 0 && list[0] == t
    requires Mirrors(list[1..], hs) && forall s | s in list :: s in nodes
    ensures t !in list[1..] && HeapClear(nodes, hs, t.address)
  {
    forall g | g in hs
      ensures TrampsApart(t.address, g.tramp) && forall x: int | InTramp(g.tramp, x) :: x in HeapOf(nodes)
    {
      var i :| 0 <= i < |hs| && hs[i] == g;
      var s := list[1..][i];
      assert s == list[i + 1] && s in list && s != t;
      assert g.tramp == s.address;
    }
  }

  lemma MirrorsWithout(list: seq<Node>, hs: seq<Active>, k: nat)
    requires Mirrors(list, hs) && k < |list|
    ensures Mirrors(TrampolineList.Without(list, k), hs[..k] + hs[k + 1..])
  {
  }

  lemma HeapGrows(before: set<Node>, after: set<Node>)
    requires before <= after
    ensures HeapOf(before) <= HeapOf(after)
  {
  }

  lemma TrampolineInHeap(t: Node, nodes: set<Node>)
    requires t in nodes
    ensures forall x: int | InTramp(t.address, x) :: x in HeapOf(nodes)
  {
  }

  lemma TrampolinesInHeap(nodes: set<Node>, list: seq<Node>, hs: seq<Active>)
    requires Mirrors(list, hs) && forall s | s in list :: s in nodes
    ensures forall g, x: int | g in hs && InTramp(g.tramp, x) :: x in HeapOf(nodes)
  {
    forall g, x: int | g in hs && InTramp(g.tramp, x) ensures x in HeapOf(nodes) {
      var i :| 0 <= i < |hs| && hs[i] == g;
      assert list[i] in list && g.tramp == list[i].address;
    }
  }

  lemma WroteSaved(tables: Tables, mem: Memory, mem2: Memory, h: Active)
    requires WroteHook(tables, mem, mem2, h)
    ensures h.saved == Slice(mem, h.p, |h.saved|)
  {
    hide Serves, JumpOf, Write;
    forall k | 0 <= k < |h.saved| ensures h.saved[k] == mem(h.p + k) {
      assert InPatch(h, h.p + k);
    }
  }

  lemma PatchesSeparate(h: Active, hs: seq<Active>)
    requires forall x: int | InPatch(h, x) :: Unpatched(hs, x)
    ensures forall g | g in hs :: Separate(h, g)
  {
  }

  lemma PatchOutsideHeap(h: Active, nodes: set<Node>)
    requires forall x: int | InPatch(h, x) :: !InHeap(nodes, x)
    ensures forall x: int | InPatch(h, x) :: x !in HeapOf(nodes)
  {
  }

  lemma LastIsEarly(tables: Tables, m: Memory, p: int, last: int, end: int)
    requires LastInsn(tables, m, p, JMPSIZE, last, end)
    ensures last < p + JMPSIZE
  {
  }

  lemma AddressInWindow(t: Node, nodes: set<Node>, p: int, up: int, down: int)
    requires TrampolineList.Apart(nodes) && t in nodes && TrampolineList.InRange(t, Lower(p, up), Upper(p, down))
    ensures InWindow(p, up, down, t.address) && t.address + STRUCT_SIZE < ADDRESSES
  {
  }

  lemma NotInTrampoline(t: Node, nodes: set<Node>, p: int, end: int)
    requires t in nodes && forall x: int | p <= x < end :: !InHeap(nodes, x)
    ensures forall x: int | p <= x < end :: !InTramp(t.address, x)
  {
    forall x: int | p <= x < end ensures !InTramp(t.address, x) {
      assert !InHeap(nodes, x);
    }
  }

  lemma GrownApart(before: set<Node>, after: set<Node>, os: int -> BlockSearch.Answer, size: nat, hs: seq<Active>)
    requires before <= after && forall t | t in after - before :: TrampolineList.Placed(t, os, size)
    requires GrantsClear(hs, os, size)
    ensures forall x: int | x in HeapOf(after) && x !in HeapOf(before) :: Unpatched(hs, x)
  {
    hide InGrant, Unpatched, InHeap;
    NewHeap(before, after, os, size);
  }

  /** Bytes of new trampolines lie in granted blocks. */
  lemma NewHeap(before: set<Node>, after: set<Node>, os: int -> BlockSearch.Answer, size: nat)
    requires before <= after && forall t | t in after - before :: TrampolineList.Placed(t, os, size)
    ensures HeapOf(before) <= HeapOf(after)
    ensures forall x: int | InHeap(after, x) && !InHeap(before, x) :: InGrant(os, size, x)
  {
    forall x: int | InHeap(after, x) && !InHeap(before, x) ensures InGrant(os, size, x) {
      var t :| t in after && InTramp(t.address, x);
      assert TrampolineList.Placed(t, os, size);
      var a :| os(a) == BlockSearch.Granted && a <= t.address && t.address + STRUCT_SIZE <= a + size;
      assert a <= x < a + size;
    }
  }
}
