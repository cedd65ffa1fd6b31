/** The trampoline structures and the two lists they are kept in (tmemutil-3rd/src/mhook-lib/mhook.c). */
module TrampolineList {
  import opened Pointers
  import opened BlockSearch
  import X86

  const MINALLOCSIZE: nat := 4096

  /** A trampoline at a fixed address. Its two code buffers are part of the code memory; NULL function
      pointers are 0. */
  class Trampoline {
    const address: int
    var pSystemFunction: int
    var cbOverwrittenCode: nat
    var pHookFunction: int
    var codeUntouched: seq<X86.byte>
    var pPrevTrampoline: Trampoline?
    var pNextTrampoline: Trampoline?

    constructor (address: int)
      ensures this.address == address && pSystemFunction == 0 && pHookFunction == 0
      ensures cbOverwrittenCode == 0 && codeUntouched == []
    {
      this.address := address;
      pSystemFunction, cbOverwrittenCode, pHookFunction, codeUntouched := 0, 0, 0, [];
      pPrevTrampoline, pNextTrampoline := null, null;
    }
  }

  /** The node at index i; NULL at both ends. */
  function NodeAt(list: seq<Trampoline>, i: int): Trampoline? {
    if 0 <= i < |list| then list[i] else null
  }

  ghost predicate Distinct(list: seq<Trampoline>) { forall i, j | 0 <= i < j < |list| :: list[i] != list[j] }

  /** Where the back link of the i-th node leads; that of node `gap` is missing. */
  function PrevOf(list: seq<Trampoline>, gap: nat, i: int): Trampoline? {
    if i == gap then null else NodeAt(list, i - 1)
  }

  /** The links agree with the list, in both directions, but for one back link. */
  ghost predicate LinkedBut(list: seq<Trampoline>, gap: nat)
    reads list`pPrevTrampoline, list`pNextTrampoline
  {
    forall i | 0 <= i < |list| ::
      list[i].pPrevTrampoline == PrevOf(list, gap, i) && list[i].pNextTrampoline == NodeAt(list, i + 1)
  }

  ghost predicate Linked(list: seq<Trampoline>)
    reads list`pPrevTrampoline, list`pNextTrampoline
  {
    forall i | 0 <= i < |list| ::
      list[i].pPrevTrampoline == NodeAt(list, i - 1) && list[i].pNextTrampoline == NodeAt(list, i + 1)
  }

  /** The head's back link leads nowhere anyway, so with gap 0 none is missing. */
  lemma NoGap(list: seq<Trampoline>)
    ensures Linked(list) <==> LinkedBut(list, 0)
  {
    assert forall i | 0 <= i < |list| :: PrevOf(list, 0, i) == NodeAt(list, i - 1);
  }

  /** An acyclic list with this head, doubly linked but for one back link. */
  ghost predicate IsListBut(head: Trampoline?, list: seq<Trampoline>, gap: nat)
    reads list`pPrevTrampoline, list`pNextTrampoline
  {
    head == NodeAt(list, 0) && Distinct(list) && if gap == 0 then Linked(list) else LinkedBut(list, gap)
  }

  /** A doubly linked acyclic list with this head. */
  ghost predicate IsList(head: Trampoline?, list: seq<Trampoline>)
    reads list`pPrevTrampoline, list`pNextTrampoline
  {
    IsListBut(head, list, 0)
  }

  function Without(list: seq<Trampoline>, k: nat): seq<Trampoline>
    requires k < |list|
  {
    list[..k] + list[k + 1..]
  }

  /** The links of a list that skip its k-th node. */
  ghost predicate Skips(list: seq<Trampoline>, gap: nat, k: nat)
    reads list`pPrevTrampoline, list`pNextTrampoline
  {
    forall i | 0 <= i < |list| && i != k ::
      && list[i].pPrevTrampoline == PrevOf(list, gap, if i == k + 1 then k else i)
      && list[i].pNextTrampoline == NodeAt(list, if i == k - 1 then k + 1 else i + 1)
  }

  /** A gap further back moves up. */
  function GapWithout(gap: nat): nat { if gap == 0 then 0 else gap - 1 }

  lemma WithoutAt(list: seq<Trampoline>, k: nat, i: int)
    requires k < |list| && -1 <= i < |list|
    ensures NodeAt(Without(list, k), i) == NodeAt(list, if i < k then i else i + 1)
  {
  }

  lemma Neighbours(list: seq<Trampoline>, gap: nat, k: nat, i: nat)
    requires k < |list| && i + 1 < |list| && (gap == 0 || k + 1 < gap)
    ensures i < |Without(list, k)|
    ensures var j := if i < k then i else i + 1;
      && Without(list, k)[i] == list[j]
      && PrevOf(Without(list, k), GapWithout(gap), i) == PrevOf(list, gap, if j == k + 1 then k else j)
      && NodeAt(Without(list, k), i + 1) == NodeAt(list, if j == k - 1 then k + 1 else j + 1)
  {
    WithoutAt(list, k, i - 1);
    WithoutAt(list, k, i);
    WithoutAt(list, k, i + 1);
  }

  lemma SkippedIsLinked(list: seq<Trampoline>, gap: nat, k: nat)
    requires k < |list| && Skips(list, gap, k) && (gap == 0 || k + 1 < gap)
    ensures LinkedBut(Without(list, k), GapWithout(gap))
  {
    hide Without, NodeAt, PrevOf;
    var rest := Without(list, k);
    LengthWithout(list, k);
    forall i | 0 <= i < |rest|
      ensures rest[i].pPrevTrampoline == PrevOf(rest, GapWithout(gap), i)
      ensures rest[i].pNextTrampoline == NodeAt(rest, i + 1)
    {
      Neighbours(list, gap, k, i);
    }
  }

  lemma LengthWithout(list: seq<Trampoline>, k: nat)
    requires k < |list|
    ensures |Without(list, k)| == |list| - 1
  {
  }

  lemma WithoutIsDistinct(list: seq<Trampoline>, k: nat)
    requires k < |list| && Distinct(list)
    ensures Distinct(Without(list, k)) && list[k] !in Without(list, k)
    ensures forall t | t in Without(list, k) :: t in list && t != list[k]
    ensures forall t | t in list && t != list[k] :: t in Without(list, k)
  {
    forall t | t in list && t != list[k] ensures t in Without(list, k) {
      var i :| 0 <= i < |list| && list[i] == t;
      assert Without(list, k)[if i < k then i else i - 1] == t;
    }
  }

  lemma HeadOf(list: seq<Trampoline>, k: nat)
    requires k < |list|
    ensures NodeAt(Without(list, k), 0) == if k == 0 then NodeAt(list, 1) else list[0]
  {
  }

  /** What the writes leave: the links of the list, but past the node for its two neighbours. */
  ghost predicate Bypassed(list: seq<Trampoline>, gap: nat, k: nat)
    reads list`pPrevTrampoline, list`pNextTrampoline
  {
    var before, after := NodeAt(list, k - 1), NodeAt(list, k + 1);
    forall i | 0 <= i < |list| && i != k ::
      && list[i].pPrevTrampoline == (if list[i] == after then before else PrevOf(list, gap, i))
      && list[i].pNextTrampoline == (if list[i] == before then after else NodeAt(list, i + 1))
  }

  /** As no node is in the list twice, only the neighbours skip. */
  lemma BypassedSkips(list: seq<Trampoline>, gap: nat, k: nat)
    requires k < |list| && Distinct(list) && Bypassed(list, gap, k) && (gap == 0 || k + 1 < gap)
    ensures Skips(list, gap, k)
  {
    forall i | 0 <= i < |list| && i != k
      ensures list[i].pPrevTrampoline == PrevOf(list, gap, if i == k + 1 then k else i)
      ensures list[i].pNextTrampoline == NodeAt(list, if i == k - 1 then k + 1 else i + 1)
    {
      NodeIs(list, i, k - 1);
      NodeIs(list, i, k + 1);
      PrevIs(list, gap, k);
      hide Distinct, PrevOf, NodeAt;
    }
  }

  lemma NodeIs(list: seq<Trampoline>, i: nat, j: int)
    requires Distinct(list) && i < |list|
    ensures list[i] == NodeAt(list, j) <==> i == j
  {
  }

  lemma PrevIs(list: seq<Trampoline>, gap: nat, k: nat)
    requires k < |list| && (gap == 0 || k + 1 < gap)
    ensures PrevOf(list, gap, k) == if k == 0 then null else NodeAt(list, k - 1)
  {
  }

  lemma NeighboursOf(list: seq<Trampoline>, gap: nat, k: nat)
    requires k < |list| && Distinct(list) && LinkedBut(list, gap) && (gap == 0 || k + 1 < gap)
    ensures list[k].pPrevTrampoline == NodeAt(list, k - 1) && list[k].pNextTrampoline == NodeAt(list, k + 1)
    ensures NodeAt(list, k - 1) != list[k] && (k > 0 ==> NodeAt(list, k - 1) in list)
    ensures NodeAt(list, k + 1) != list[k] && (k + 1 < |list| ==> NodeAt(list, k + 1) in list)
    ensures k == 0 ==> NodeAt(list, k - 1) == null
    ensures k + 1 == |list| ==> NodeAt(list, k + 1) == null
    ensures NodeAt(list, 0) == list[0] && (list[0] == list[k] <==> k == 0)
    ensures forall i | 0 <= i < |list| && i != k :: list[i] != list[k]
  {
  }

  /** Both neighbours skip the node. */
  method Bypass(pNode: Trampoline, ghost nodes: set<Trampoline>)
    requires pNode in nodes
    requires pNode.pPrevTrampoline != null ==> pNode.pPrevTrampoline in nodes - {pNode}
    requires pNode.pNextTrampoline != null ==> pNode.pNextTrampoline in nodes - {pNode}
    modifies nodes`pPrevTrampoline, nodes`pNextTrampoline
    ensures forall t | t in nodes ::
      t.pNextTrampoline == (if t == old(pNode.pPrevTrampoline)
        then old(pNode.pNextTrampoline) else old(t.pNextTrampoline))
    ensures forall t | t in nodes ::
      t.pPrevTrampoline == (if t == old(pNode.pNextTrampoline)
        then old(pNode.pPrevTrampoline) else old(t.pPrevTrampoline))
  {
    if pNode.pPrevTrampoline != null {
      pNode.pPrevTrampoline.pNextTrampoline := pNode.pNextTrampoline;
    }
    if pNode.pNextTrampoline != null {
      pNode.pNextTrampoline.pPrevTrampoline := pNode.pPrevTrampoline;
    }
  }

  /** The writes of ListRemove: afterwards the node's own links are NULL as well. */
  method Unlink(pListHead: Trampoline?, pNode: Trampoline, ghost list: seq<Trampoline>, ghost gap: nat, ghost k: nat)
    returns (head: Trampoline?)
    requires pListHead == NodeAt(list, 0) && Distinct(list) && LinkedBut(list, gap)
    requires k < |list| && list[k] == pNode && (gap == 0 || k + 1 < gap)
    modifies list`pPrevTrampoline, list`pNextTrampoline
    ensures Bypassed(list, gap, k) && head == (if k == 0 then NodeAt(list, 1) else list[0])
    ensures pNode.pPrevTrampoline == null && pNode.pNextTrampoline == null
  {
    hide Distinct, PrevOf, NodeAt;
    NeighboursOf(list, gap, k);
    ghost var nodes := set t | t in list;
    Bypass(pNode, nodes);
    forall i | 0 <= i < |list| && i != k
      ensures list[i].pPrevTrampoline ==
        (if list[i] == NodeAt(list, k + 1) then NodeAt(list, k - 1) else PrevOf(list, gap, i))
      ensures list[i].pNextTrampoline ==
        (if list[i] == NodeAt(list, k - 1) then NodeAt(list, k + 1) else NodeAt(list, i + 1))
    {
      assert list[i] in nodes;
    }
    head := if pListHead == pNode then pNode.pNextTrampoline else pListHead;
    pNode.pPrevTrampoline := null;
    pNode.pNextTrampoline := null;
  }

  /** Takes the k-th node out of the list; the head follows. A gap behind its successor stays. */
  method ListRemove(pListHead: Trampoline?, pNode: Trampoline, ghost list: seq<Trampoline>, ghost gap: nat,
                    ghost k: nat)
    returns (head: Trampoline?)
    requires IsListBut(pListHead, list, gap) && k < |list| && list[k] == pNode && (gap == 0 || k + 1 < gap)
    modifies list`pPrevTrampoline, list`pNextTrampoline
    ensures IsListBut(head, Without(list, k), GapWithout(gap)) && pNode !in Without(list, k)
    ensures pNode.pPrevTrampoline == null && pNode.pNextTrampoline == null
  {
    hide Without, Skips, Bypassed, Linked, LinkedBut, Distinct;
    NoGap(list);
    head := Unlink(pListHead, pNode, list, gap, k);
    BypassedSkips(list, gap, k);
    SkippedIsLinked(list, gap, k);
    NoGap(Without(list, k));
    WithoutIsDistinct(list, k);
    HeadOf(list, k);
  }

  /** Puts a node in front. */
  method ListPrepend(pListHead: Trampoline?, pNode: Trampoline, ghost list: seq<Trampoline>)
    returns (head: Trampoline?)
    requires IsList(pListHead, list) && pNode !in list
    modifies pNode`pPrevTrampoline, pNode`pNextTrampoline, list`pPrevTrampoline
    ensures head == pNode && IsList(head, [pNode] + list)
  {
    pNode.pPrevTrampoline := null;
    pNode.pNextTrampoline := pListHead;
    if pListHead != null {
      pListHead.pPrevTrampoline := pNode;
    }
    head := pNode;
  }

  lemma LinkForward(list: seq<Trampoline>, gap: nat, k: nat)
    requires k < |list| && (Linked(list) || LinkedBut(list, gap))
    ensures list[k].pNextTrampoline == NodeAt(list, k + 1)
  {
  }

  /** Links that were not written still hold. */
  twostate lemma StillLinked(list: seq<Trampoline>)
    requires old(Linked(list))
    requires forall t | t in list ::
      t.pPrevTrampoline == old(t.pPrevTrampoline) && t.pNextTrampoline == old(t.pNextTrampoline)
    ensures Linked(list)
  {
    forall i | 0 <= i < |list|
      ensures list[i].pPrevTrampoline == NodeAt(list, i - 1) && list[i].pNextTrampoline == NodeAt(list, i + 1)
    {
      assert list[i] in list;
    }
  }

  // ---------------------------------------------------------------- the pool

  ghost predicate InRange(t: Trampoline, pLower: int, pUpper: int) { pLower < t.address < pUpper }

  ghost predicate NoneInRange(list: seq<Trampoline>, pLower: int, pUpper: int) {
    forall t | t in list :: !InRange(t, pLower, pUpper)
  }

  /** Trampolines lie above the first 64 KB, and distinct ones do not overlap. */
  ghost predicate Apart(nodes: set<Trampoline>) {
    && (forall t | t in nodes :: 0x1_0000 <= t.address && t.address + STRUCT_SIZE <= ADDRESSES)
    && forall s, t | s in nodes && t in nodes && s != t ::
      s.address + STRUCT_SIZE <= t.address || t.address + STRUCT_SIZE <= s.address
  }

  /** Windows grants blocks above the first 64 KB that overlap nothing already granted. */
  ghost predicate GrantsFresh(os: int -> Answer, size: nat, nodes: set<Trampoline>) {
    && (forall a | os(a) == Granted :: 0x1_0000 <= a && a + size <= ADDRESSES)
    && forall a, t | os(a) == Granted && t in nodes :: t.address + STRUCT_SIZE <= a || a + size <= t.address
  }

  /** The trampoline lies in a block Windows grants. */
  ghost predicate Placed(t: Trampoline, os: int -> Answer, size: nat) {
    exists a :: os(a) == Granted && a <= t.address && t.address + STRUCT_SIZE <= a + size
  }

  ghost predicate InOrder(blk: seq<Trampoline>, base: int) {
    forall i | 0 <= i < |blk| :: blk[i].address == base + i * STRUCT_SIZE
  }

  /** The links of a new block in front of `rest`: its last node leads to rest, but nothing in rest
      leads back. */
  ghost predicate BlockLinked(blk: seq<Trampoline>, rest: Trampoline?)
    reads blk`pPrevTrampoline, blk`pNextTrampoline
  {
    forall i | 0 <= i < |blk| ::
      && blk[i].pPrevTrampoline == NodeAt(blk, i - 1)
      && blk[i].pNextTrampoline == (if i + 1 < |blk| then NodeAt(blk, i + 1) else rest)
  }

  /** The links of the first n nodes of a block point at their neighbours. */
  ghost predicate ChainedTo(blk: seq<Trampoline>, n: nat)
    reads blk`pPrevTrampoline, blk`pNextTrampoline
  {
    forall i | 0 <= i < n && i < |blk| ::
      blk[i].pPrevTrampoline == NodeAt(blk, i - 1) && blk[i].pNextTrampoline == NodeAt(blk, i + 1)
  }

  /** The trampolines of a fresh block, chained in front of pFreeList. */
  method ChainBlock(address: int, trampolineCount: nat, pFreeList: Trampoline?) returns (pBlock: seq<Trampoline>)
    requires trampolineCount > 1
    ensures |pBlock| == trampolineCount && fresh(pBlock) && Distinct(pBlock) && InOrder(pBlock, address)
    ensures BlockLinked(pBlock, pFreeList) && forall t | t in pBlock :: t.pSystemFunction == 0
  {
    hide InOrder, Distinct, BlockLinked, ChainedTo, NodeAt;
    pBlock := Carve(address, trampolineCount);
    pBlock[0].pPrevTrampoline := null;
    pBlock[0].pNextTrampoline := pBlock[1];
    FirstChained(pBlock);
    var s := 1;
    while s < trampolineCount
      invariant 1 <= s <= trampolineCount && ChainedTo(pBlock, s)
      invariant forall t | t in pBlock :: t.pSystemFunction == 0
    {
      SetLinks(pBlock[s], pBlock, s);
      s := s + 1;
    }
    SetRest(pBlock[trampolineCount - 1], pBlock, pFreeList);
  }

  method SetLinks(pNode: Trampoline, pBlock: seq<Trampoline>, s: nat)
    requires 0 < s < |pBlock| && pBlock[s] == pNode && Distinct(pBlock) && ChainedTo(pBlock, s)
    modifies pNode`pPrevTrampoline, pNode`pNextTrampoline
    ensures ChainedTo(pBlock, s + 1)
  {
    pNode.pPrevTrampoline := pBlock[s - 1];
    pNode.pNextTrampoline := NodeAt(pBlock, s + 1);
  }

  method SetRest(pLast: Trampoline, ghost pBlock: seq<Trampoline>, pFreeList: Trampoline?)
    requires |pBlock| > 0 && pBlock[|pBlock| - 1] == pLast && Distinct(pBlock) && ChainedTo(pBlock, |pBlock|)
    modifies pLast`pNextTrampoline
    ensures BlockLinked(pBlock, pFreeList)
  {
    hide NodeAt;
    pLast.pNextTrampoline := pFreeList;
  }

  lemma FirstChained(blk: seq<Trampoline>)
    requires |blk| > 1 && blk[0].pPrevTrampoline == null && blk[0].pNextTrampoline == blk[1]
    ensures ChainedTo(blk, 1)
  {
  }

  /** The zeroed block seen as trampolines. */
  method Carve(address: int, count: nat) returns (blk: seq<Trampoline>)
    ensures |blk| == count && fresh(blk) && Distinct(blk) && InOrder(blk, address)
    ensures forall t | t in blk :: t.pSystemFunction == 0
  {
    blk := [];
    while |blk| < count
      invariant |blk| <= count && fresh(blk) && Distinct(blk) && InOrder(blk, address)
      invariant forall t | t in blk :: t.pSystemFunction == 0
    {
      var t := new Trampoline(address + |blk| * STRUCT_SIZE);
      blk := blk + [t];
    }
  }

  lemma GrantedBlockApart(nodes: set<Trampoline>, blk: seq<Trampoline>, os: int -> Answer, base: int, size: nat)
    requires Apart(nodes) && GrantsFresh(os, size, nodes) && InOrder(blk, base) && |blk| * STRUCT_SIZE <= size
    requires os(base) == Granted
    ensures Apart(nodes + Elements(blk))
    ensures forall t | t in blk :: Placed(t, os, size)
  {
    hide Placed;
    forall t | t in blk ensures Placed(t, os, size) && 0x1_0000 <= t.address && t.address + STRUCT_SIZE <= ADDRESSES {
      InGrantedBlock(t, blk, os, base, size);
    }
    forall s, t | s in nodes + Elements(blk) && t in nodes + Elements(blk) && s != t
      ensures s.address + STRUCT_SIZE <= t.address || t.address + STRUCT_SIZE <= s.address
    {
    }
  }

  lemma InGrantedBlock(t: Trampoline, blk: seq<Trampoline>, os: int -> Answer, base: int, size: nat)
    requires InOrder(blk, base) && |blk| * STRUCT_SIZE <= size && os(base) == Granted && t in blk
    ensures Placed(t, os, size) && base <= t.address && t.address + STRUCT_SIZE <= base + size
  {
  }

  /** A block chained in front of a list lacks the back link of the old head; nothing is missing if and
      only if there was none. */
  lemma BackLinkMissing(blk: seq<Trampoline>, free: seq<Trampoline>, head: Trampoline?)
    requires |blk| > 0 && BlockLinked(blk, head) && IsList(head, free)
    ensures LinkedBut(blk + free, if free == [] then 0 else |blk|)
    ensures Linked(blk + free) <==> free == []
  {
    ChainLinked(blk, free, head);
    NoGap(blk + free);
    if free != [] { GapIsNotLinked(blk + free, |blk|); }
  }

  lemma ChainLinked(blk: seq<Trampoline>, free: seq<Trampoline>, head: Trampoline?)
    requires |blk| > 0 && BlockLinked(blk, head) && IsList(head, free)
    ensures LinkedBut(blk + free, if free == [] then 0 else |blk|)
  {
    hide Distinct;
    NoGap(free);
    var all, gap := blk + free, if free == [] then 0 else |blk|;
    forall i | 0 <= i < |all|
      ensures all[i].pPrevTrampoline == PrevOf(all, gap, i) && all[i].pNextTrampoline == NodeAt(all, i + 1)
    {
      if i < |blk| {
        assert all[i] == blk[i];
        assert NodeAt(blk, i - 1) == NodeAt(all, i - 1);
      } else {
        assert all[i] == free[i - |blk|];
        assert free[i - |blk|].pNextTrampoline == NodeAt(free, i - |blk| + 1);
      }
    }
  }

  lemma GapIsNotLinked(list: seq<Trampoline>, gap: nat)
    requires 0 < gap < |list| && LinkedBut(list, gap)
    ensures !Linked(list)
  {
    assert list[gap].pPrevTrampoline == PrevOf(list, gap, gap);
    assert PrevOf(list, 0, gap) == list[gap - 1];
  }

  /** The globals g_pHooks and g_pFreeList. Every trampoline ever allocated is in `nodes`; those in
      neither list are abandoned. */
  class Pool {
    var g_pHooks: Trampoline?
    var g_pFreeList: Trampoline?
    ghost var hooks: seq<Trampoline>
    ghost var free: seq<Trampoline>
    ghost var nodes: set<Trampoline>

    ghost predicate Partition()
      reads this`hooks, this`free, this`nodes
    {
      && (forall t | t in hooks :: t in nodes && t !in free)
      && (forall t | t in free :: t in nodes && t !in hooks)
      && Apart(nodes)
    }

    /** Two doubly linked lists without a common node, the free list but for one back link; free nodes
        have no function. */
    ghost predicate ValidBut(gap: nat)
      reads this, hooks, free
    {
      && IsList(g_pHooks, hooks) && IsListBut(g_pFreeList, free, gap) && Partition()
      && (forall t | t in free :: t.pSystemFunction == 0)
    }

    /** The same with no link missing. */
    ghost predicate Valid()
      reads this, hooks, free
    {
      ValidBut(0)
    }

    constructor ()
      ensures Valid() && hooks == [] && free == [] && nodes == {}
    {
      g_pHooks, g_pFreeList := null, null;
      hooks, free, nodes := [], [], {};
    }

    /** Takes the first free node strictly inside the range. A gap in the free list is allowed when that
        node is its head and the gap lies behind the next. */
    method FindTrampolineInRange(pLower: int, pUpper: int, ghost gap: nat)
      returns (curEntry: Trampoline?, ghost k: nat)
      requires ValidBut(gap) && (gap > 0 ==> 1 < gap && free != [] && InRange(free[0], pLower, pUpper))
      modifies this`g_pFreeList, this`free, free`pPrevTrampoline, free`pNextTrampoline
      ensures ValidBut(GapWithout(gap))
      ensures curEntry == null ==> free == old(free) && NoneInRange(free, pLower, pUpper)
      ensures curEntry != null ==> k < |old(free)| && curEntry == old(free)[k] && InRange(curEntry, pLower, pUpper)
      ensures curEntry != null ==> NoneInRange(old(free)[..k], pLower, pUpper) && free == Without(old(free), k)
      ensures curEntry != null ==> curEntry !in free
    {
      hide Linked, LinkedBut, Distinct, Apart, Without;
      curEntry, k := g_pFreeList, 0;
      while curEntry != null
        invariant ValidBut(gap) && free == old(free) && k <= |free| && curEntry == NodeAt(free, k)
        invariant NoneInRange(free[..k], pLower, pUpper) && (gap > 0 ==> k == 0)
        decreases |free| - k
      {
        if pLower < curEntry.address < pUpper {
          WithoutIsDistinct(free, k);
          g_pFreeList := ListRemove(g_pFreeList, curEntry, free, gap, k);
          free := Without(free, k);
          StillLinked(hooks);
          return;
        }
        assert free[..k + 1] == free[..k] + [curEntry];
        LinkForward(free, gap, k);
        curEntry, k := curEntry.pNextTrampoline, k + 1;
      }
      assert free[..k] == free;
    }

    /** The first hook with this hook function. */
    method TrampolineGet(pHookedFunction: int) returns (pCurrent: Trampoline?, ghost k: nat)
      requires Valid()
      ensures pCurrent == null <==> forall t | t in hooks :: t.pHookFunction != pHookedFunction
      ensures pCurrent != null ==> k < |hooks| && hooks[k] == pCurrent && pCurrent.pHookFunction == pHookedFunction
      ensures pCurrent != null ==> forall t | t in hooks[..k] :: t.pHookFunction != pHookedFunction
    {
      pCurrent, k := g_pHooks, 0;
      while pCurrent != null
        invariant k <= |hooks| && pCurrent == NodeAt(hooks, k)
        invariant forall t | t in hooks[..k] :: t.pHookFunction != pHookedFunction
        decreases |hooks| - k
      {
        if pCurrent.pHookFunction == pHookedFunction {
          return;
        }
        assert hooks[..k + 1] == hooks[..k] + [pCurrent];
        pCurrent, k := pCurrent.pNextTrampoline, k + 1;
      }
      assert hooks[..k] == hooks;
    }

    /** Takes a hook out and leaves it in neither list. */
    method Abandon(pTrampoline: Trampoline, ghost k: nat)
      requires Valid() && k < |hooks| && hooks[k] == pTrampoline
      modifies this`g_pHooks, this`hooks, hooks`pPrevTrampoline, hooks`pNextTrampoline
      ensures Valid() && hooks == Without(old(hooks), k)
      ensures pTrampoline in nodes && pTrampoline !in hooks && pTrampoline !in free
    {
      hide Linked, LinkedBut, Distinct, Apart, Without;
      WithoutIsDistinct(hooks, k);
      g_pHooks := ListRemove(g_pHooks, pTrampoline, hooks, 0, k);
      hooks := Without(hooks, k);
      StillLinked(free);
    }

    /** Takes a hook out; a never used one goes back to the free list, any other is abandoned. */
    method TrampolineFree(pTrampoline: Trampoline, bNeverUsed: bool, ghost k: nat)
      requires Valid() && k < |hooks| && hooks[k] == pTrampoline && (bNeverUsed ==> pTrampoline.pSystemFunction == 0)
      modifies this, hooks`pPrevTrampoline, hooks`pNextTrampoline, free`pPrevTrampoline
      ensures Valid() && nodes == old(nodes) && hooks == Without(old(hooks), k)
      ensures free == if bNeverUsed then [pTrampoline] + old(free) else old(free)
    {
      hide Linked, LinkedBut, Distinct, Apart, Without;
      Abandon(pTrampoline, k);
      label removed:
      if bNeverUsed {
        g_pFreeList := ListPrepend(g_pFreeList, pTrampoline, free);
        free := [pTrampoline] + free;
        StillLinked@removed(hooks);
      }
    }

    /** Allocates a block near the function and chains its trampolines in front of the free list. The
        chain is doubly linked exactly when that list was empty. */
    method BlockAlloc(pSystemFunction: nat, pbLower: nat, pbUpper: nat, dwAllocationGranularity: nat, os: int -> Answer)
      returns (pRetVal: Trampoline?, ghost blk: seq<Trampoline>, ghost tried: nat)
      requires Valid() && pSystemFunction < ADDRESSES && pbUpper <= ADDRESSES
      requires ADDRESSES % AllocSize(dwAllocationGranularity) == 0
      requires GrantsFresh(os, AllocSize(dwAllocationGranularity), nodes)
      modifies this`nodes
      ensures Valid() && fresh(blk) && nodes == old(nodes) + Elements(blk)
      ensures var g := AllocSize(dwAllocationGranularity); var guess := RoundDown(pSystemFunction, g);
        && Tried(guess, g, pbLower, pbUpper, os, tried)
        && Ended(guess, g, pbLower, pbUpper, os, tried, if pRetVal == null then 0 else pRetVal.address)
      ensures if pRetVal == null then blk == []
              else |blk| == AllocSize(dwAllocationGranularity) / STRUCT_SIZE && blk[0] == pRetVal
      ensures pRetVal == null ==> SearchFails(pSystemFunction, pbLower, pbUpper, AllocSize(dwAllocationGranularity), os)
      ensures pRetVal != null ==> pRetVal.address != 0 && os(pRetVal.address) == Granted
      ensures pRetVal != null ==> InRange(pRetVal, pbLower, pbUpper)
      ensures pRetVal != null ==> Distinct(blk) && InOrder(blk, pRetVal.address) && BlockLinked(blk, g_pFreeList)
      ensures forall t | t in blk :: t.pSystemFunction == 0 && t !in free && t !in hooks
      ensures forall t | t in blk :: Placed(t, os, AllocSize(dwAllocationGranularity))
      ensures pRetVal != null ==> LinkedBut(blk + free, if free == [] then 0 else |blk|)
      ensures pRetVal != null ==> (Linked(blk + free) <==> free == [])
    {
      hide Tried, Candidate, RoundDown, Linked, LinkedBut, Distinct, BlockLinked, Apart, GrantsFresh, Placed;
      var cAllocSize := AllocSize(dwAllocationGranularity);
      var address;
      blk, pRetVal := [], null;
      address, tried := SearchBlock(pSystemFunction, pbLower, pbUpper, cAllocSize, os);
      if address != 0 {
        var pBlock := ChainBlock(address, cAllocSize / STRUCT_SIZE, g_pFreeList);
        pRetVal, blk := pBlock[0], pBlock;
        GrantedBlockApart(nodes, blk, os, address, cAllocSize);
        nodes := nodes + Elements(blk);
        BackLinkMissing(blk, free, g_pFreeList);
      }
      assert nodes == old(nodes) + Elements(blk);
    }

    /** A block is only chained to an empty free list: the list is empty, or it serves the request, or
        no block is to be had. */
    ghost predicate MayAllocate(p: nat, lower: int, upper: int, dwAllocationGranularity: nat, os: int -> Answer)
      reads this`free
    {
      || free == [] || !NoneInRange(free, lower, upper)
      || SearchFails(p, lower, upper, AllocSize(dwAllocationGranularity), os)
    }

    /** The new block, with the old free list chained behind it, or nothing, becomes the free list. Its
        gap is where the old list begins. */
    method Refill(pSystemFunction: nat, pLower: nat, pUpper: nat, dwAllocationGranularity: nat, os: int -> Answer)
      returns (ghost blk: seq<Trampoline>, ghost gap: nat)
      requires Valid() && pSystemFunction < ADDRESSES && pUpper <= ADDRESSES
      requires ADDRESSES % AllocSize(dwAllocationGranularity) == 0
      requires GrantsFresh(os, AllocSize(dwAllocationGranularity), nodes)
      modifies this`g_pFreeList, this`free, this`nodes
      ensures ValidBut(gap) && nodes == old(nodes) + Elements(blk) && fresh(blk)
      ensures free == (if blk == [] then [] else blk + old(free)) && (g_pFreeList == null <==> blk == [])
      ensures gap == (if blk == [] || old(free) == [] then 0 else |blk|) && |blk| != 1
      ensures forall t | t in nodes - old(nodes) :: Placed(t, os, AllocSize(dwAllocationGranularity))
      ensures blk == [] <==> SearchFails(pSystemFunction, pLower, pUpper, AllocSize(dwAllocationGranularity), os)
      ensures blk != [] ==> InRange(blk[0], pLower, pUpper) && g_pFreeList == blk[0]
    {
      hide Linked, LinkedBut, Distinct, Apart, Tried, Ended, RoundDown, BlockLinked, GrantsFresh, Candidate, Placed;
      hide SearchFails, InRange;
      ghost var tried;
      ghost var before := free;
      var pRetVal;
      pRetVal, blk, tried := BlockAlloc(pSystemFunction, pLower, pUpper, dwAllocationGranularity, os);
      if SearchFails(pSystemFunction, pLower, pUpper, AllocSize(dwAllocationGranularity), os) {
        SearchEndsOneWay(pSystemFunction, pLower, pUpper, AllocSize(dwAllocationGranularity), os, tried,
                         if pRetVal == null then 0 else pRetVal.address);
      }
      gap := if pRetVal == null || before == [] then 0 else |blk|;
      g_pFreeList, free := pRetVal, if pRetVal == null then [] else blk + before;
      EmptyIsLinked();
      if pRetVal != null { ChainIsDistinct(blk, before); }
    }

    /** A free trampoline in the window around the function, from a new block if none is left. */
    method TakeTrampoline(pSystemFunction: nat, pLower: nat, pUpper: nat, dwAllocationGranularity: nat,
                          os: int -> Answer)
      returns (pTrampoline: Trampoline?, ghost gap: nat)
      requires Valid() && pSystemFunction < ADDRESSES && pUpper <= ADDRESSES
      requires ADDRESSES % AllocSize(dwAllocationGranularity) == 0
      requires GrantsFresh(os, AllocSize(dwAllocationGranularity), nodes)
      modifies this`g_pFreeList, this`free, this`nodes, free`pPrevTrampoline, free`pNextTrampoline
      ensures ValidBut(gap) && (gap > 0 ==> gap < |free|)
      ensures gap == 0 <==> old(MayAllocate(pSystemFunction, pLower, pUpper, dwAllocationGranularity, os))
      ensures old(nodes) <= nodes && fresh(nodes - old(nodes))
      ensures forall t | t in nodes - old(nodes) :: Placed(t, os, AllocSize(dwAllocationGranularity))
      ensures pTrampoline != null ==> pTrampoline in nodes && pTrampoline !in free && pTrampoline !in hooks
      ensures pTrampoline != null ==> pTrampoline.pSystemFunction == 0 && InRange(pTrampoline, pLower, pUpper)
      ensures if NoneInRange(old(free), pLower, pUpper)
              then FromBlock(old(nodes), nodes, old(free), free, pTrampoline)
              else pTrampoline != null && nodes == old(nodes) && TookFirst(old(free), free, pTrampoline, pLower, pUpper)
      ensures pTrampoline == null ==>
        SearchFails(pSystemFunction, pLower, pUpper, AllocSize(dwAllocationGranularity), os)
      ensures pTrampoline != null ==> pTrampoline in old(free) || fresh(pTrampoline)
    {
      hide Linked, LinkedBut, Distinct, Apart, Without, InRange, NoneInRange, TookFirst, GrantsFresh, Placed;
      hide SearchFails;
      ghost var k;
      ghost var was := free;
      gap := 0;
      pTrampoline, k := FindTrampolineInRange(pLower, pUpper, 0);
      if pTrampoline == null {
        ghost var blk;
        blk, gap := Refill(pSystemFunction, pLower, pUpper, dwAllocationGranularity, os);
        if blk != [] { SomeInRange(free, 0, pLower, pUpper); }
        ghost var all := free;
        pTrampoline, k := FindTrampolineInRange(pLower, pUpper, gap);
        gap := GapWithout(gap);
        if pTrampoline != null {
          HeadTaken(was, blk, all, k, pLower, pUpper);
        }
      } else {
        WithoutIsDistinct(was, k);
        TookWithin(was, k, pLower, pUpper);
      }
    }

    /** No free trampoline is in the window around the function, and no block is to be had there. */
    ghost predicate NoRoom(pSystemFunction: nat, nLimitUp: int, nLimitDown: int, dwAllocationGranularity: nat,
                           os: int -> Answer)
      reads this`free
    {
      var lower, upper := Lower(pSystemFunction, nLimitUp), Upper(pSystemFunction, nLimitDown);
      NoneInRange(free, lower, upper)
        && SearchFails(pSystemFunction, lower, upper, AllocSize(dwAllocationGranularity), os)
    }

    /** A trampoline in the window around the function: the first free one there, otherwise the first
        of a new block; it moves to the front of the hook list. When no block is to be had either,
        the free list is forgotten with all its trampolines. Both lists are doubly linked afterwards if
        and only if no block was chained in front of free trampolines; otherwise just the one back
        link is missing. */
    method TrampolineAlloc(pSystemFunction: nat, nLimitUp: int, nLimitDown: int, dwAllocationGranularity: nat,
                           os: int -> Answer)
      returns (pTrampoline: Trampoline?, ghost gap: nat)
      requires Valid() && pSystemFunction < ADDRESSES && ADDRESSES % AllocSize(dwAllocationGranularity) == 0
      requires GrantsFresh(os, AllocSize(dwAllocationGranularity), nodes)
      modifies this, hooks`pPrevTrampoline, free`pPrevTrampoline, free`pNextTrampoline
      ensures ValidBut(gap)
      ensures Valid() <==> old(MayAllocate(pSystemFunction, Lower(pSystemFunction, nLimitUp),
                                           Upper(pSystemFunction, nLimitDown), dwAllocationGranularity, os))
      ensures old(nodes) <= nodes && fresh(nodes - old(nodes))
      ensures forall t | t in nodes - old(nodes) :: Placed(t, os, AllocSize(dwAllocationGranularity))
      ensures hooks == if pTrampoline == null then old(hooks) else [pTrampoline] + old(hooks)
      ensures pTrampoline != null ==> pTrampoline.pSystemFunction == 0
      ensures pTrampoline != null ==>
        InRange(pTrampoline, Lower(pSystemFunction, nLimitUp), Upper(pSystemFunction, nLimitDown))
      ensures pTrampoline != null ==> pTrampoline in old(free) || fresh(pTrampoline)
      ensures pTrampoline == null ==> old(NoRoom(pSystemFunction, nLimitUp, nLimitDown, dwAllocationGranularity, os))
      ensures if NoneInRange(old(free), Lower(pSystemFunction, nLimitUp), Upper(pSystemFunction, nLimitDown))
              then FromBlock(old(nodes), nodes, old(free), free, pTrampoline)
              else pTrampoline != null && nodes == old(nodes)
                   && TookFirst(old(free), free, pTrampoline,
                                Lower(pSystemFunction, nLimitUp), Upper(pSystemFunction, nLimitDown))
    {
      hide TookFirst, FromBlock;
      hide ValidBut, Lower, Upper, InRange, GrantsFresh, Placed, MayAllocate, SearchFails, NoneInRange;
      var pLower, pUpper := Lower(pSystemFunction, nLimitUp), Upper(pSystemFunction, nLimitDown);
      pTrampoline, gap := TakeTrampoline(pSystemFunction, pLower, pUpper, dwAllocationGranularity, os);
      if pTrampoline != null {
        Enlist(pTrampoline, gap);
      }
      GapIsNotValid(gap);
    }

    /** Puts a trampoline that is in neither list in front of the hooks. */
    method Enlist(pTrampoline: Trampoline, ghost gap: nat)
      requires ValidBut(gap) && pTrampoline in nodes && pTrampoline !in free && pTrampoline !in hooks
      modifies this`g_pHooks, this`hooks, pTrampoline`pPrevTrampoline, pTrampoline`pNextTrampoline,
        hooks`pPrevTrampoline
      ensures ValidBut(gap) && hooks == [pTrampoline] + old(hooks)
    {
      hide Linked, Distinct, Apart, PrevOf, NodeAt;
      g_pHooks := ListPrepend(g_pHooks, pTrampoline, hooks);
      hooks := [pTrampoline] + hooks;
      if gap == 0 {
        StillLinked(free);
      } else {
        forall i | 0 <= i < |free|
          ensures free[i].pPrevTrampoline == PrevOf(free, gap, i) && free[i].pNextTrampoline == NodeAt(free, i + 1)
        {
          assert free[i] in free;
        }
      }
    }

    lemma GapIsNotValid(gap: nat)
      requires ValidBut(gap) && (gap > 0 ==> gap < |free|)
      ensures Valid() <==> gap == 0
    {
      hide Linked, LinkedBut, Distinct, Apart;
      if gap > 0 { GapIsNotLinked(free, gap); }
    }
  }

  lemma ChainIsDistinct(blk: seq<Trampoline>, free: seq<Trampoline>)
    requires Distinct(blk) && Distinct(free) && forall t | t in blk :: t !in free
    ensures Distinct(blk + free)
  {
    forall i, j | 0 <= i < j < |blk + free| ensures (blk + free)[i] != (blk + free)[j] {
      if i < |blk| <= j { assert blk[i] in blk && free[j - |blk|] in free; }
    }
  }

  /** The head of the block is the first in the range, since nothing behind it comes first. */
  lemma HeadTaken(before: seq<Trampoline>, blk: seq<Trampoline>, all: seq<Trampoline>, k: nat, pLower: int, pUpper: int)
    requires |blk| > 0 && all == blk + before && k < |all| && InRange(blk[0], pLower, pUpper)
    requires NoneInRange(all[..k], pLower, pUpper)
    ensures k == 0 && all[0] == blk[0] && Without(all, 0) == blk[1..] + before
    ensures Elements(blk) == Elements(blk[1..]) + {blk[0]}
  {
    hide NoneInRange, InRange;
    assert blk == [blk[0]] + blk[1..];
    if k > 0 { SomeInRange(all[..k], 0, pLower, pUpper); }
  }

  lemma EmptyIsLinked()
    ensures Linked([]) && Distinct([])
  {
  }

  /** t was the first of the free trampolines in the range, and the others stayed. */
  ghost predicate TookFirst(before: seq<Trampoline>, after: seq<Trampoline>, t: Trampoline, pLower: int, pUpper: int) {
    exists k: nat | k < |before| :: t == before[k] && Chosen(before, k, pLower, pUpper) && after == Without(before, k)
  }

  ghost predicate Chosen(list: seq<Trampoline>, k: nat, pLower: int, pUpper: int)
    requires k < |list|
  {
    InRange(list[k], pLower, pUpper) && NoneInRange(list[..k], pLower, pUpper)
  }

  /** t is the first of a new block, whose others are in front of what was free; or there is no block and
      nothing is free. */
  ghost predicate FromBlock(before: set<Trampoline>, after: set<Trampoline>, was: seq<Trampoline>,
                            free: seq<Trampoline>, t: Trampoline?)
  {
    if t == null then free == [] && after == before
    else
      |free| >= |was| && free[|free| - |was|..] == was
      && (var others := Elements(free[..|free| - |was|]) + {t}; after == before + others && others !! before)
  }

  lemma TookWithin(before: seq<Trampoline>, k: nat, pLower: int, pUpper: int)
    requires k < |before| && Distinct(before) && InRange(before[k], pLower, pUpper)
    requires NoneInRange(before[..k], pLower, pUpper)
    ensures TookFirst(before, Without(before, k), before[k], pLower, pUpper)
    ensures Elements(before) == Elements(Without(before, k)) + {before[k]} && !NoneInRange(before, pLower, pUpper)
  {
    hide InRange, NoneInRange, Without;
    WithoutIsDistinct(before, k);
    SomeInRange(before, k, pLower, pUpper);
    assert Chosen(before, k, pLower, pUpper);
  }

  lemma SomeInRange(list: seq<Trampoline>, k: nat, pLower: int, pUpper: int)
    requires k < |list| && InRange(list[k], pLower, pUpper)
    ensures !NoneInRange(list, pLower, pUpper)
  {
    assert list[k] in list;
  }

  /** The search for a block around the function comes back empty-handed. */
  ghost predicate SearchFails(p: nat, lower: int, upper: int, g: nat, os: int -> Answer)
    requires g > 0
  {
    exists tried: nat ::
      Tried(RoundDown(p, g), g, lower, upper, os, tried) && Ended(RoundDown(p, g), g, lower, upper, os, tried, 0)
  }

  /** The answers decide how a search ends. */
  lemma SearchEndsOneWay(p: nat, lower: int, upper: int, g: nat, os: int -> Answer, tried: nat, block: int)
    requires g > 0 && SearchFails(p, lower, upper, g, os)
    requires Tried(RoundDown(p, g), g, lower, upper, os, tried)
    requires Ended(RoundDown(p, g), g, lower, upper, os, tried, block)
    ensures block == 0
  {
    hide Candidate, RoundDown;
    var other: nat :| Tried(RoundDown(p, g), g, lower, upper, os, other)
      && Ended(RoundDown(p, g), g, lower, upper, os, other, 0);
  }

  function AllocSize(dwAllocationGranularity: nat): (r: nat)
    ensures r >= dwAllocationGranularity && r >= 4096 && (r == dwAllocationGranularity || r == 4096)
  {
    if dwAllocationGranularity > MINALLOCSIZE then dwAllocationGranularity else MINALLOCSIZE
  }

  ghost function Elements(list: seq<Trampoline>): set<Trampoline> { set t | t in list }
}
