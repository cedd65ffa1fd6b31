/** A whole SetHook and Unhook, from an empty process to an empty process. */
module FirstHook {
  import opened Pointers
  import opened Wrappers
  import opened X86
  import opened CodeMemory
  import opened Processor
  import opened DecodeLocality
  import opened Relocation
  import opened Trampoline
  import opened HookedCode
  import opened ConcreteCode
  import opened HookEngine
  import BlockSearch
  import TrampolineList
  import ThreadSuspension

  const HOOK: int := 0x50_0000
  const GRANULE: nat := 0x1_0000
  const BLOCK: int := 0x3F_0000

  /** Windows grants the granule below the function, and nothing else. */
  function Answers(a: int): BlockSearch.Answer { if a == BLOCK then BlockSearch.Granted else BlockSearch.Rejected }

  function Calm(): Windows {
    Windows(None, (i: nat) => ThreadSuspension.ThreadAnswers(false, false, (k: nat) => None), 1, 1, false,
            GRANULE, Answers, true, true)
  }

  /** The function starting with the 64-bit load is hooked, and unhooked with its hook function: both
      succeed, and then its code is the original. */
  method HookAndUnhook() returns (hooked: bool, unhooked: bool, after: Memory)
    ensures hooked && unhooked
    ensures forall x: int | BASE <= x < BASE + JMPSIZE :: after(x) == CodeAt(BASE, LOAD)(x)
  {
    hide Engine.CodeValid, Rows, CodeAt;
    var kernel := new ThreadSuspension.Kernel();
    var engine := new Engine(Rows(), CodeAt(BASE, LOAD), kernel);
    hooked := Hook(engine);
    unhooked := Unhook(engine);
    after := engine.space.mem;
  }

  method Hook(e: Engine) returns (ok: bool)
    requires e.Valid() && New(e)
    modifies e`active, e.space, e.pool, e.pool.nodes, e.suspender, e.suspender.kernel
    ensures ok && e.Valid() && fresh(e.pool.nodes - old(e.pool.nodes))
    ensures |e.active| == 1 && e.active[0].p == BASE && e.active[0].hook == HOOK && |e.active[0].saved| >= JMPSIZE
  {
    hide Engine.CodeValid, Rows, CodeAt, Engine.Resolves, Engine.GrantsApart, Engine.PrefixesFit, Engine.Unhookable;
    hide Calm, WroteHook, Call, Engine.View, Good;
    NoJumps(e);
    GrantIsApart(e);
    LoadFits(e);
    LoadIsHookable(e);
    WindowsIsCalm();
    var pp;
    ok, pp := e.SetHook(BASE, HOOK, 0, Calm(), BASE, HOOK);
  }

  method Unhook(e: Engine) returns (ok: bool)
    requires e.Valid() && |e.active| == 1 && e.active[0].hook == HOOK
    modifies e`active, e.space, e.pool, e.pool.nodes, e.suspender, e.suspender.kernel
    ensures ok && e.Valid() && e.active == []
    ensures forall x: int | InPatch(old(e.active)[0], x) :: e.space.mem(x) == e.orig(x)
  {
    hide Engine.CodeValid, Lookup, Calm, Call, Engine.View, Saved;
    WindowsIsCalm();
    LookupIsNewest(e.active, HOOK);
    assert e.active[0] in e.active;
    ghost var h := e.active[0];
    SavedIsOriginal(e, h);
    var pp;
    ok, pp := e.Unhook(HOOK, Calm());
  }

  lemma SavedIsOriginal(e: Engine, h: Active)
    requires e.CodeValid() && h in e.active
    ensures forall x: int | InPatch(h, x) :: h.saved[x - h.p] == e.orig(x)
  {
    hide JumpOf, AllServe, Patched, Separate, Unpatched, Mirrors, HeapOf, TrampolineList.Pool.Valid;
  }

  lemma WindowsIsCalm()
    ensures Calm().protectFunction && Calm().protectTrampoline
  {
  }

  /** The engine has just been made for that code. */
  ghost predicate New(e: Engine)
    reads e, e.space, e.pool
  {
    && e.tables == Rows() && e.space.mem == CodeAt(BASE, LOAD)
    && e.active == [] && e.pool.free == [] && e.pool.nodes == {}
  }

  lemma NoJumps(e: Engine)
    requires New(e)
    ensures e.Resolves(BASE, BASE, 0) && e.Resolves(HOOK, HOOK, 0)
  {
  }

  lemma GrantIsApart(e: Engine)
    requires New(e)
    ensures e.GrantsApart(Calm())
  {
  }

  /** The only prefix a scan can choose is the load. */
  lemma OnlyPrefix(end: int, last: int, rips: seq<Rip>, up: int, down: int)
    requires PatchData(Rows(), CodeAt(BASE, LOAD), BASE, end, rips, up, down)
    requires LastInsn(Rows(), CodeAt(BASE, LOAD), BASE, JMPSIZE, last, end)
    ensures last == BASE && end == BASE + 7 && up == 0x10 && down == 0
  {
    hide InsnAt, Rows, CodeAt, LimitUp, LimitDown, Judge;
    LoadDecodes();
    LoadIsRelocatable();
  }

  lemma LoadFits(e: Engine)
    requires New(e)
    ensures e.PrefixesFit(BASE, HOOK, Calm())
  {
    hide Rows, CodeAt, PatchData, LastInsn, InSpace, InWindow;
    LoadIsRelocatable();
    forall end, last, rips, up, down
      | PatchData(e.tables, e.space.mem, BASE, end, rips, up, down)
        && LastInsn(e.tables, e.space.mem, BASE, JMPSIZE, last, end)
        && end >= BASE + JMPSIZE
      ensures e.PrefixFits(BASE, end, last, HOOK, up, down, Calm())
    {
      OnlyPrefix(end, last, rips, up, down);
      assert e.Undisturbed(BASE, end, Calm());
    }
  }

  /** Nothing can make SetHook fail. */
  lemma LoadIsHookable(e: Engine)
    requires New(e)
    ensures !e.Unhookable(BASE, Calm())
  {
    hide Rows, CodeAt, PatchData, LastInsn, Accepted;
    LoadIsRelocatable();
    forall end, last, rips, up, down
      | PatchData(e.tables, e.space.mem, BASE, end, rips, up, down)
        && LastInsn(e.tables, e.space.mem, BASE, JMPSIZE, last, end)
      ensures !e.NoPlace(BASE, up, down, Calm())
    {
      OnlyPrefix(end, last, rips, up, down);
      SearchSucceeds();
    }
    LoadIsUsable();
  }

  lemma LoadIsUsable()
    ensures Usable(Rows(), CodeAt(BASE, LOAD), BASE, JMPSIZE, BASE + 7)
  {
    hide Rows, CodeAt, InsnAt;
    LoadIsRelocatable();
  }

  lemma SearchSucceeds()
    ensures forall z: int :: !SearchEndsAt(BASE, 0x10, 0, TrampolineList.AllocSize(GRANULE), Answers, z)
  {
    forall z: int ensures !SearchEndsAt(BASE, 0x10, 0, TrampolineList.AllocSize(GRANULE), Answers, z) {
      assert BASE / GRANULE * GRANULE == BASE && BASE + -1 * GRANULE == BLOCK;
      assert InReach(BASE, 0x10, 0, BASE) && InReach(BASE, 0x10, 0, BLOCK);
      if z != 0 && z != -1 {
        assert Answers(BASE + -1 * GRANULE) != BlockSearch.Rejected;
      }
    }
  }
}
