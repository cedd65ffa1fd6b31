/** Suspending the other threads around a code write, and resuming them
    (tmemutil-3rd/src/mhook-lib/mhook.c). */
module ThreadSuspension {
  import opened Wrappers

  const NULL: int := 0
  const INVALID_HANDLE_VALUE: int := -1

  predicate GoodHandle(h: int) { h != INVALID_HANDLE_VALUE && h != NULL }

  predicate Outside(ip: int, pbCode: int, cbBytes: nat) { !(pbCode <= ip < pbCode + cbBytes) }

  /** A thread as the toolhelp snapshot lists it. */
  datatype ThreadEntry = ThreadEntry(owner: int, id: int)

  /** What Windows answers about one thread: whether it can be opened and suspended, and its
      instruction pointer, if readable, at each look. */
  datatype ThreadAnswers = ThreadAnswers(opens: bool, suspends: bool, looks: nat -> Option<int>)

  const TRIES: nat := 4

  predicate Away(look: Option<int>, pbCode: int, cbBytes: nat) { look.None? || Outside(look.value, pbCode, cbBytes) }

  /** The thread can be kept suspended: one of four looks finds it outside the range, or nothing. */
  predicate Keeps(a: ThreadAnswers, pbCode: int, cbBytes: nat) {
    a.opens && a.suspends && exists k: nat | k < TRIES :: Away(a.looks(k), pbCode, cbBytes)
  }

  /** The first look from the k-th on that finds it so. */
  function FirstAway(a: ThreadAnswers, k: nat, pbCode: int, cbBytes: nat): Option<int>
    requires k <= TRIES
    decreases TRIES - k
  {
    if k == TRIES then None
    else if Away(a.looks(k), pbCode, cbBytes) then a.looks(k)
    else FirstAway(a, k + 1, pbCode, cbBytes)
  }

  predicate IsOther(te: ThreadEntry, process: int, thread: int) { te.owner == process && te.id != thread }

  /** The process's other threads, in the snapshot's order. */
  function Others(snap: seq<ThreadEntry>, process: int, thread: int): (ids: seq<int>)
    ensures |ids| <= |snap|
  {
    if snap == [] then []
    else
      var te := snap[|snap| - 1];
      Others(snap[..|snap| - 1], process, thread) + if IsOther(te, process, thread) then [te.id] else []
  }

  /** Those of them that can be kept suspended; the answers are about the snapshot's entries. */
  function Kept(snap: seq<ThreadEntry>, answers: nat -> ThreadAnswers, process: int, thread: int, pbCode: int,
                cbBytes: nat): (ids: seq<int>)
    ensures |ids| <= |Others(snap, process, thread)|
  {
    if snap == [] then []
    else
      var n := |snap| - 1;
      Kept(snap[..n], answers, process, thread, pbCode, cbBytes)
      + if IsOther(snap[n], process, thread) && Keeps(answers(n), pbCode, cbBytes) then [snap[n].id] else []
  }

  /** For each of these the first look that let it be kept. */
  function KeptLooks(snap: seq<ThreadEntry>, answers: nat -> ThreadAnswers, process: int, thread: int,
                     pbCode: int, cbBytes: nat): (looks: seq<Option<int>>)
    ensures |looks| == |Kept(snap, answers, process, thread, pbCode, cbBytes)|
  {
    if snap == [] then []
    else
      var n := |snap| - 1;
      KeptLooks(snap[..n], answers, process, thread, pbCode, cbBytes)
      + if IsOther(snap[n], process, thread) && Keeps(answers(n), pbCode, cbBytes)
        then [FirstAway(answers(n), 0, pbCode, cbBytes)] else []
  }

  /** The i-th kept thread is some entry of the snapshot, and where it was last seen is the first away
      look among the answers about that entry: outside the range, or unreadable. */
  lemma {:induction false} KeptWhereSeen(snap: seq<ThreadEntry>, answers: nat -> ThreadAnswers,
                                         process: int, thread: int,
                                         pbCode: int, cbBytes: nat, i: nat)
    requires i < |Kept(snap, answers, process, thread, pbCode, cbBytes)|
    ensures exists j: nat ::
      && j < |snap| && IsOther(snap[j], process, thread) && Keeps(answers(j), pbCode, cbBytes)
      && Kept(snap, answers, process, thread, pbCode, cbBytes)[i] == snap[j].id
      && KeptLooks(snap, answers, process, thread, pbCode, cbBytes)[i] == FirstAway(answers(j), 0, pbCode, cbBytes)
      && Away(FirstAway(answers(j), 0, pbCode, cbBytes), pbCode, cbBytes)
  {
    hide Keeps, FirstAway, Away;
    var n := |snap| - 1;
    if i < |Kept(snap[..n], answers, process, thread, pbCode, cbBytes)| {
      KeptWhereSeen(snap[..n], answers, process, thread, pbCode, cbBytes, i);
    } else {
      FirstAwayIsAway(answers(n), pbCode, cbBytes);
      assert snap[n].id == Kept(snap, answers, process, thread, pbCode, cbBytes)[i];
    }
  }

  /** Others picks exactly the entries of this process that are not the calling thread, each once and in the
      snapshot's order: `at` says where they are. */
  ghost predicate Picks(snap: seq<ThreadEntry>, process: int, thread: int, ids: seq<int>, at: seq<nat>) {
    && |at| == |ids|
    && (forall i | 0 <= i < |at| :: at[i] < |snap| && snap[at[i]].id == ids[i])
    && (forall i, j | 0 <= i < j < |at| :: at[i] < at[j])
    && (forall k: nat :: k in at <==> k < |snap| && snap[k].owner == process && snap[k].id != thread)
  }

  lemma {:induction false} OthersArePicked(snap: seq<ThreadEntry>, process: int, thread: int) returns (at: seq<nat>)
    ensures Picks(snap, process, thread, Others(snap, process, thread), at)
  {
    if snap == [] { return []; }
    var n := |snap| - 1;
    at := OthersArePicked(snap[..n], process, thread);
    PickNext(snap, process, thread, Others(snap[..n], process, thread), at);
    if IsOther(snap[n], process, thread) { at := at + [n]; }
  }

  lemma PickNext(snap: seq<ThreadEntry>, process: int, thread: int, ids: seq<int>, at: seq<nat>)
    requires |snap| > 0 && Picks(snap[..|snap| - 1], process, thread, ids, at)
    ensures var n := |snap| - 1; var te := snap[n];
      if te.owner == process && te.id != thread then Picks(snap, process, thread, ids + [te.id], at + [n])
      else Picks(snap, process, thread, ids, at)
  {
    var n := |snap| - 1;
    var before := snap[..n];
    assert forall k: nat | k < n :: before[k] == snap[k];
    assert forall k: nat :: k in at + [n] <==> k in at || k == n;
    assert forall i | 0 <= i < |at| :: at[i] in at && at[i] < n;
  }

  /** Whose thread an id is: some entry of the snapshot's, of this process and not the calling thread's. */
  ghost predicate Listed(snap: seq<ThreadEntry>, process: int, thread: int, id: int) {
    exists k: nat :: k < |snap| && snap[k].owner == process && snap[k].id == id && id != thread
  }

  lemma OthersAreListed(snap: seq<ThreadEntry>, process: int, thread: int)
    ensures forall id :: id in Others(snap, process, thread) <==> Listed(snap, process, thread, id)
    ensures |Others(snap, process, thread)| > 0 <==> exists id :: Listed(snap, process, thread, id)
  {
    var at := OthersArePicked(snap, process, thread);
    var ids := Others(snap, process, thread);
    forall id ensures id in ids <==> Listed(snap, process, thread, id) {
      if id in ids {
        var i :| 0 <= i < |ids| && ids[i] == id;
        assert at[i] in at && snap[at[i]].id == id;
      }
      if Listed(snap, process, thread, id) {
        var k: nat :| k < |snap| && snap[k].owner == process && snap[k].id == id && id != thread;
        assert k in at;
        var i :| 0 <= i < |at| && at[i] == k;
        assert ids[i] == id;
      }
    }
    if |ids| > 0 { assert ids[0] in ids; }
  }

  /** One of the first four looks at a thread that could be opened and suspended found its instruction pointer
      below the range or from its end on, or could not read it. */
  ghost predicate SeenAway(a: ThreadAnswers, pbCode: int, cbBytes: nat) {
    a.opens && a.suspends
    && exists k: nat ::
         k < 4 && (a.looks(k) == None || a.looks(k).value < pbCode || a.looks(k).value >= pbCode + cbBytes)
  }

  lemma KeepsIsSeenAway(a: ThreadAnswers, pbCode: int, cbBytes: nat)
    ensures Keeps(a, pbCode, cbBytes) <==> SeenAway(a, pbCode, cbBytes)
  {
    if SeenAway(a, pbCode, cbBytes) {
      var k: nat :| k < 4 &&
        (a.looks(k) == None || a.looks(k).value < pbCode || a.looks(k).value >= pbCode + cbBytes);
      assert Away(a.looks(k), pbCode, cbBytes);
    }
    if Keeps(a, pbCode, cbBytes) {
      var k: nat :| k < TRIES && Away(a.looks(k), pbCode, cbBytes);
      assert k < 4 && (a.looks(k) == None || a.looks(k).value < pbCode || a.looks(k).value >= pbCode + cbBytes);
    }
  }

  /** The threads held are those listed of which one look was away. */
  ghost predicate Holdable(snap: seq<ThreadEntry>, answers: nat -> ThreadAnswers, process: int, thread: int,
                           pbCode: int, cbBytes: nat, id: int) {
    exists k: nat :: k < |snap| && snap[k].owner == process && snap[k].id == id && id != thread
      && SeenAway(answers(k), pbCode, cbBytes)
  }

  lemma {:induction false} KeptAreHoldable(snap: seq<ThreadEntry>, answers: nat -> ThreadAnswers, process: int,
                                           thread: int, pbCode: int, cbBytes: nat, id: int)
    ensures id in Kept(snap, answers, process, thread, pbCode, cbBytes)
       <==> Holdable(snap, answers, process, thread, pbCode, cbBytes, id)
  {
    hide SeenAway, Keeps;
    if snap != [] {
      var n := |snap| - 1;
      KeptAreHoldable(snap[..n], answers, process, thread, pbCode, cbBytes, id);
      KeepsIsSeenAway(answers(n), pbCode, cbBytes);
      if Holdable(snap, answers, process, thread, pbCode, cbBytes, id) {
        var k: nat :| k < |snap| && snap[k].owner == process && snap[k].id == id && id != thread
          && SeenAway(answers(k), pbCode, cbBytes);
        if k < n { assert snap[..n][k] == snap[k]; }
      }
      if Holdable(snap[..n], answers, process, thread, pbCode, cbBytes, id) {
        var k: nat :| k < n && snap[..n][k].owner == process && snap[..n][k].id == id && id != thread
          && SeenAway(answers(k), pbCode, cbBytes);
        assert snap[k] == snap[..n][k];
      }
    }
  }

  lemma FirstAwayIsAway(a: ThreadAnswers, pbCode: int, cbBytes: nat)
    ensures Away(FirstAway(a, 0, pbCode, cbBytes), pbCode, cbBytes)
  {
    LaterAway(a, 0, pbCode, cbBytes);
  }

  lemma {:induction false} LaterAway(a: ThreadAnswers, k: nat, pbCode: int, cbBytes: nat)
    requires k <= TRIES
    ensures Away(FirstAway(a, k, pbCode, cbBytes), pbCode, cbBytes)
    decreases TRIES - k
  {
    if k < TRIES { LaterAway(a, k + 1, pbCode, cbBytes); }
  }

  /** The first look that was away is the one recorded. */
  lemma FirstAwayIsFirst(a: ThreadAnswers, k: nat, pbCode: int, cbBytes: nat)
    requires k < 4 && (a.looks(k) == None || a.looks(k).value < pbCode || a.looks(k).value >= pbCode + cbBytes)
    requires forall j: nat | j < k :: a.looks(j).Some? && pbCode <= a.looks(j).value < pbCode + cbBytes
    ensures FirstAway(a, 0, pbCode, cbBytes) == a.looks(k)
  {
    EarlierLooks(a, 0, k, pbCode, cbBytes);
  }

  lemma {:induction false} EarlierLooks(a: ThreadAnswers, j: nat, k: nat, pbCode: int, cbBytes: nat)
    requires j <= k < TRIES && Away(a.looks(k), pbCode, cbBytes)
    requires forall i: nat | j <= i < k :: !Away(a.looks(i), pbCode, cbBytes)
    ensures FirstAway(a, j, pbCode, cbBytes) == a.looks(k)
    decreases k - j
  {
    if j < k { EarlierLooks(a, j + 1, k, pbCode, cbBytes); }
  }

  lemma KeptNext(snap: seq<ThreadEntry>, i: nat, answers: nat -> ThreadAnswers, process: int, thread: int, pbCode: int,
                 cbBytes: nat)
    requires i < |snap|
    ensures Kept(snap[..i + 1], answers, process, thread, pbCode, cbBytes)
         == Kept(snap[..i], answers, process, thread, pbCode, cbBytes)
            + if IsOther(snap[i], process, thread) && Keeps(answers(i), pbCode, cbBytes) then [snap[i].id] else []
    ensures KeptLooks(snap[..i + 1], answers, process, thread, pbCode, cbBytes)
         == KeptLooks(snap[..i], answers, process, thread, pbCode, cbBytes)
            + if IsOther(snap[i], process, thread) && Keeps(answers(i), pbCode, cbBytes)
              then [FirstAway(answers(i), 0, pbCode, cbBytes)] else []
  {
    hide Keeps, FirstAway;
    assert snap[..i + 1][..i] == snap[..i];
  }

  lemma OthersNext(snap: seq<ThreadEntry>, i: nat, process: int, thread: int)
    requires i < |snap|
    ensures Others(snap[..i + 1], process, thread)
         == Others(snap[..i], process, thread) + if IsOther(snap[i], process, thread) then [snap[i].id] else []
  {
    assert snap[..i + 1][..i] == snap[..i];
  }

  lemma NoOthers(snap: seq<ThreadEntry>, process: int, thread: int)
    ensures Others(snap[..0], process, thread) == []
    ensures forall a: nat -> ThreadAnswers, p: int, n: nat :: Kept(snap[..0], a, process, thread, p, n) == []
    ensures forall a: nat -> ThreadAnswers, p: int, n: nat :: KeptLooks(snap[..0], a, process, thread, p, n) == []
  {
  }

  lemma {:induction false} OthersGrow(snap: seq<ThreadEntry>, i: nat, j: nat, process: int, thread: int)
    requires i <= j <= |snap|
    ensures |Others(snap[..i], process, thread)| <= |Others(snap[..j], process, thread)|
    decreases j
  {
    if i < j {
      OthersGrow(snap, i, j - 1, process, thread);
      OthersNext(snap, j - 1, process, thread);
    }
  }

  /** What Windows keeps: a suspend count per thread, the open handles, and the threads it was asked to
      open. Resuming a thread, and suspending again a thread just resumed, succeeds. */
  class Kernel {
    var suspends: int -> int
    var open: map<int, int>
    var asked: seq<int>

    constructor ()
      ensures (forall t :: suspends(t) == 0) && open == map[] && asked == []
    {
      suspends, open, asked := (t: int) => 0, map[], [];
    }

    /** NULL or INVALID_HANDLE_VALUE when Windows refuses, otherwise some handle that is not open. */
    method OpenThread(id: int, opens: bool) returns (h: int)
      modifies this`open, this`asked
      ensures asked == old(asked) + [id] && (opens <==> h != 0 && h != -1)
      ensures if opens then h !in old(open) && open == old(open)[h := id] else open == old(open)
    {
      asked := asked + [id];
      h := *;
      if !opens {
        if GoodHandle(h) { h := NULL; }
        return;
      }
      if !GoodHandle(h) || h in open { h := Unused(); }
      open := open[h := id];
    }

    method Unused() returns (h: int)
      ensures GoodHandle(h) && h !in open
    {
      h := 1;
      while h in open
        invariant h >= 1
        decreases set k | k in open && k >= h
      {
        ghost var left := set k | k in open && k >= h;
        assert h in left;
        h := h + 1;
        assert (set k | k in open && k >= h) == left - {h - 1};
      }
    }

    /** Windows may refuse, for instance when the thread is exiting. */
    method SuspendThread(h: int, ok: bool)
      requires h in open
      modifies this`suspends
      ensures forall t :: suspends(t) == old(suspends)(t) + if ok && t == open[h] then 1 else 0
    {
      if ok { Bump(open[h], 1); }
    }

    /** Resuming a thread that is not suspended changes nothing. */
    method ResumeThread(h: int)
      requires h in open
      modifies this`suspends
      ensures forall t :: suspends(t) == old(suspends)(t) - if t == open[h] && old(suspends)(t) > 0 then 1 else 0
    {
      if suspends(open[h]) > 0 { Bump(open[h], -1); }
    }

    method Bump(id: int, change: int)
      modifies this`suspends
      ensures forall t :: suspends(t) == old(suspends)(t) + if t == id then change else 0
    {
      var before := suspends;
      suspends := (t: int) => before(t) + if t == id then change else 0;
    }

    /** Closing needs an open handle, so no handle is closed twice. */
    method CloseHandle(h: int)
      requires h in open
      modifies this`open
      ensures open == old(open) - {h}
    {
      open := open - {h};
    }
  }

  /** Suspend counts and open handles at one moment. */
  datatype Moment = Moment(counts: int -> int, handles: map<int, int>)

  /** The handles hs were opened since, one for each thread in `held`, and no other. */
  ghost predicate HandlesHeld(before: map<int, int>, hs: seq<int>, held: seq<int>, now: map<int, int>) {
    && |held| == |hs|
    && (forall i, j | 0 <= i < j < |hs| :: hs[i] != hs[j])
    && (forall i | 0 <= i < |hs| :: hs[i] !in before && hs[i] in now && now[hs[i]] == held[i])
    && (forall h | h in now :: h in hs || h in before)
    && (forall h | h in before :: h in now && now[h] == before[h])
  }

  /** Each thread's suspend count is up by the number of times it is held. */
  ghost predicate CountsHeld(before: int -> int, held: seq<int>, now: int -> int) {
    forall t :: now(t) == before(t) + multiset(held)[t]
  }

  /** Since `before`, the handles hs were opened, one for each thread in `held`, and each thread's
      suspend count is up by the number of its handles. Nothing else changed. */
  ghost predicate Holding(before: Moment, hs: seq<int>, held: seq<int>, now: Moment) {
    HandlesHeld(before.handles, hs, held, now.handles) && CountsHeld(before.counts, held, now.counts)
  }

  ghost predicate Countable(counts: int -> int) { forall t :: counts(t) >= 0 }

  lemma HoldNothing(m: Moment)
    ensures Holding(m, [], [], m)
  {
  }

  lemma HoldOneMore(before: Moment, hs: seq<int>, held: seq<int>, now: Moment, h: int, id: int, next: Moment)
    requires Holding(before, hs, held, now) && h !in now.handles && next.handles == now.handles[h := id]
    requires forall t :: next.counts(t) == now.counts(t) + if t == id then 1 else 0
    ensures Holding(before, hs + [h], held + [id], next)
  {
    hide CountsHeld, HandlesHeld;
    OpenOneMore(before.handles, hs, held, now.handles, h, id);
    CountOneMore(before.counts, held, now.counts, id, next.counts);
  }

  lemma OpenOneMore(before: map<int, int>, hs: seq<int>, held: seq<int>, now: map<int, int>, h: int, id: int)
    requires HandlesHeld(before, hs, held, now) && h !in now
    ensures HandlesHeld(before, hs + [h], held + [id], now[h := id])
  {
  }

  lemma CountOneMore(before: int -> int, held: seq<int>, now: int -> int, id: int, next: int -> int)
    requires CountsHeld(before, held, now)
    requires forall t :: next(t) == now(t) + if t == id then 1 else 0
    ensures CountsHeld(before, held + [id], next)
  {
    assert multiset(held + [id]) == multiset(held) + multiset{id};
  }

  lemma ReleaseFirst(before: Moment, hs: seq<int>, held: seq<int>, now: Moment, next: Moment)
    requires Holding(before, hs, held, now) && |hs| > 0
    requires Countable(before.counts) && next.handles == now.handles - {hs[0]}
    requires forall t :: next.counts(t) == now.counts(t) - if t == held[0] && now.counts(t) > 0 then 1 else 0
    ensures Holding(before, hs[1..], held[1..], next)
  {
    CloseFirst(before.handles, hs, held, now.handles);
    hide HandlesHeld;
    CountOneLess(before.counts, held, now.counts, next.counts);
  }

  lemma CloseFirst(before: map<int, int>, hs: seq<int>, held: seq<int>, now: map<int, int>)
    requires HandlesHeld(before, hs, held, now) && |hs| > 0
    ensures HandlesHeld(before, hs[1..], held[1..], now - {hs[0]})
  {
    var left := now - {hs[0]};
    forall h | h in left ensures h in hs[1..] || h in before {
      assert hs == [hs[0]] + hs[1..];
    }
  }

  lemma CountOneLess(before: int -> int, held: seq<int>, now: int -> int, next: int -> int)
    requires CountsHeld(before, held, now) && |held| > 0 && Countable(before)
    requires forall t :: next(t) == now(t) - if t == held[0] && now(t) > 0 then 1 else 0
    ensures CountsHeld(before, held[1..], next)
  {
    assert held == [held[0]] + held[1..];
    assert multiset(held) == multiset{held[0]} + multiset(held[1..]);
  }

  /** The first pass over the snapshot. */
  method CountThreads(te: seq<ThreadEntry>, process: int, thread: int) returns (n: nat)
    ensures n == |Others(te, process, thread)|
  {
    n := 0;
    var i := 0;
    while i < |te|
      invariant i <= |te| && n == |Others(te[..i], process, thread)|
    {
      OthersNext(te, i, process, thread);
      if te[i].owner == process && te[i].id != thread { n := n + 1; }
      i := i + 1;
    }
    assert te[..i] == te;
  }

  /** Suspends a thread unless its instruction pointer stays in the range for four looks. A good handle
      comes exactly when it can be kept, with the thread suspended once more than before; otherwise
      nothing has changed. When the context cannot be read, the thread stays suspended wherever it is. */
  method SuspendOneThread(kernel: Kernel, dwThreadId: int, pbCode: int, cbBytes: nat, a: ThreadAnswers)
    returns (hThread: int, ghost ip: Option<int>)
    requires Countable(kernel.suspends)
    modifies kernel
    ensures kernel.asked == old(kernel.asked) + [dwThreadId] && GoodHandle(hThread) == Keeps(a, pbCode, cbBytes)
    ensures if GoodHandle(hThread)
            then hThread !in old(kernel.open) && kernel.open == old(kernel.open)[hThread := dwThreadId]
            else kernel.open == old(kernel.open)
    ensures forall t ::
      kernel.suspends(t) == old(kernel.suspends)(t) + if GoodHandle(hThread) && t == dwThreadId then 1 else 0
    ensures GoodHandle(hThread) ==> ip == FirstAway(a, 0, pbCode, cbBytes)
  {
    hide Away, FirstAway;
    ip := None;
    hThread := kernel.OpenThread(dwThreadId, a.opens);
    if GoodHandle(hThread) {
      kernel.SuspendThread(hThread, a.suspends);
      if a.suspends {
        var kept;
        kept, ip := LookUntilAway(kernel, hThread, pbCode, cbBytes, a);
        if !kept { hThread := NULL; }
      } else {
        kernel.CloseHandle(hThread);
        assert kernel.open == old(kernel.open);
        hThread := NULL;
      }
    }
  }

  /** The loop of SuspendOneThread on a thread it has suspended: up to three times the thread is let
      go and suspended again; after a fourth look inside the range it is let go for good. */
  method LookUntilAway(kernel: Kernel, hThread: int, pbCode: int, cbBytes: nat, a: ThreadAnswers)
    returns (kept: bool, ghost ip: Option<int>)
    requires hThread in kernel.open && kernel.suspends(kernel.open[hThread]) > 0
    modifies kernel`open, kernel`suspends
    ensures kept <==> exists k: nat | k < TRIES :: Away(a.looks(k), pbCode, cbBytes)
    ensures kept ==> ip == FirstAway(a, 0, pbCode, cbBytes)
    ensures kernel.open == if kept then old(kernel.open) else old(kernel.open) - {hThread}
    ensures forall t ::
      kernel.suspends(t) == old(kernel.suspends)(t) - if !kept && t == old(kernel.open)[hThread] then 1 else 0
  {
    var nTries := 0;
    var ctx := a.looks(nTries);
    ip, kept := ctx, true;
    while ctx.Some?
      invariant kept && nTries < TRIES && ip == ctx == a.looks(nTries) && kernel.open == old(kernel.open)
      invariant forall k: nat | k < nTries :: !Away(a.looks(k), pbCode, cbBytes)
      invariant FirstAway(a, nTries, pbCode, cbBytes) == FirstAway(a, 0, pbCode, cbBytes)
      invariant forall t :: kernel.suspends(t) == old(kernel.suspends)(t)
      decreases TRIES - nTries
    {
      if pbCode <= ctx.value < pbCode + cbBytes {
        if nTries < 3 {
          kernel.ResumeThread(hThread);
          kernel.SuspendThread(hThread, true);
          nTries := nTries + 1;
        } else {
          kernel.ResumeThread(hThread);
          kernel.CloseHandle(hThread);
          return false, ip;
        }
      } else {
        break;
      }
      ctx := a.looks(nTries);
      ip := ctx;
    }
    assert Away(a.looks(nTries), pbCode, cbBytes);
  }

  /** The module's globals. The ghost fields keep the moment before the suspension and, for each handle
      in the list, its thread and the instruction pointer last read. */
  class Suspender {
    const kernel: Kernel
    var g_hThreadHandles: array?<int>
    var g_nThreadHandles: nat
    ghost var before: Moment
    ghost var held: seq<int>
    ghost var ips: seq<Option<int>>

    constructor (kernel: Kernel)
      ensures this.kernel == kernel && Idle()
    {
      this.kernel := kernel;
      g_hThreadHandles, g_nThreadHandles := null, 0;
      before, held, ips := Moment(t => 0, map[]), [], [];
    }

    ghost predicate Idle()
      reads this`g_hThreadHandles, this`g_nThreadHandles
    {
      g_hThreadHandles == null && g_nThreadHandles == 0
    }

    ghost function Handles(): seq<int>
      reads this`g_hThreadHandles, this`g_nThreadHandles, g_hThreadHandles
      requires g_hThreadHandles != null ==> g_nThreadHandles <= g_hThreadHandles.Length
    {
      if g_hThreadHandles == null then [] else g_hThreadHandles[..g_nThreadHandles]
    }

    ghost function Now(): Moment
      reads kernel
    {
      Moment(kernel.suspends, kernel.open)
    }

    /** The handle list is exactly what was opened since the moment before. */
    ghost predicate Valid()
      reads this, kernel, g_hThreadHandles
    {
      && (g_hThreadHandles == null ==> g_nThreadHandles == 0)
      && (g_hThreadHandles != null ==> g_nThreadHandles <= g_hThreadHandles.Length)
      && Countable(before.counts) && Holding(before, Handles(), held, Now())
    }

    /** Resumes and closes the first of the handles hs. */
    method Release(h: int, ghost hs: seq<int>, ghost tids: seq<int>)
      requires Countable(before.counts) && Holding(before, hs, tids, Now()) && |hs| > 0 && hs[0] == h
      modifies kernel`open, kernel`suspends
      ensures |tids| > 0 && Holding(before, hs[1..], tids[1..], Now())
    {
      hide Holding;
      ghost var now := Now();
      FirstIsOpen(before, hs, tids, now);
      kernel.ResumeThread(h);
      kernel.CloseHandle(h);
      ReleaseFirst(before, hs, tids, now, Now());
    }

    /** Resumes and closes every handle in the list, once each: afterwards all suspend counts and
        handles are what they were before the suspension. */
    method ResumeOtherThreads()
      requires Valid()
      modifies this`g_hThreadHandles, this`g_nThreadHandles, kernel`open, kernel`suspends
      ensures Idle()
      ensures kernel.open == before.handles && forall t :: kernel.suspends(t) == before.counts(t)
    {
      hide Holding, Handles;
      var i := 0;
      ghost var left, ids := Handles(), held;
      HandlesAre();
      while i < g_nThreadHandles
        invariant g_hThreadHandles == old(g_hThreadHandles) && g_nThreadHandles == old(g_nThreadHandles)
        invariant i <= g_nThreadHandles && |left| == g_nThreadHandles - i
        invariant forall j | 0 <= j < |left| :: g_hThreadHandles != null && left[j] == g_hThreadHandles[i + j]
        invariant Holding(before, left, ids, Now())
      {
        Release(g_hThreadHandles[i], left, ids);
        left, ids := left[1..], ids[1..];
        i := i + 1;
      }
      NothingHeld(before, ids, Now());
      g_hThreadHandles, g_nThreadHandles := null, 0;
    }

    lemma HandlesAre()
      requires g_hThreadHandles == null ==> g_nThreadHandles == 0
      requires g_hThreadHandles != null ==> g_nThreadHandles <= g_hThreadHandles.Length
      ensures |Handles()| == g_nThreadHandles
      ensures forall j | 0 <= j < g_nThreadHandles :: g_hThreadHandles != null && Handles()[j] == g_hThreadHandles[j]
    {
    }

    /** Suspends every other thread of the process it can, counting them first to size the handle list,
        which is never overrun; each is asked for once, in order. `ips` says where each was seen. It
        fails exactly when there is no snapshot, no other thread or no memory, and then nothing is left
        suspended. */
    method SuspendOtherThreads(snap: Option<seq<ThreadEntry>>, answers: nat -> ThreadAnswers, process: int, thread: int,
                               memory: bool, pbCode: int, cbBytes: nat)
      returns (bRet: bool)
      requires Idle() && Countable(kernel.suspends)
      modifies this, kernel
      ensures Valid() && before == old(Now())
      ensures bRet == (snap.Some? && |Others(snap.value, process, thread)| > 0 && memory)
      ensures kernel.asked == old(kernel.asked) + (if bRet then Others(snap.value, process, thread) else [])
      ensures held == if bRet then Kept(snap.value, answers, process, thread, pbCode, cbBytes) else []
      ensures bRet <==> snap.Some? && memory && exists id :: Listed(snap.value, process, thread, id)
      ensures bRet ==> forall id ::
        id in kernel.asked[|old(kernel.asked)|..] <==> Listed(snap.value, process, thread, id)
      ensures bRet ==> forall id ::
        id in held <==> Holdable(snap.value, answers, process, thread, pbCode, cbBytes, id)
      ensures thread !in kernel.asked[|old(kernel.asked)|..] && kernel.suspends(thread) == old(kernel.suspends(thread))
      ensures !bRet ==> Idle()
      ensures ips == if bRet then KeptLooks(snap.value, answers, process, thread, pbCode, cbBytes) else []
    {
      hide Holding;
      bRet := false;
      before, held, ips := Now(), [], [];
      HoldNothing(Now());
      assert Valid();
      if snap.Some? {
        var te := snap.value;
        var nThreadsInProcess := CountThreads(te, process, thread);
        if nThreadsInProcess > 0 && memory {
          g_hThreadHandles := new int[nThreadsInProcess](_ => 0);
          assert Handles() == [];
          FillHandles(te, answers, process, thread, pbCode, cbBytes);
          bRet := true;
        }
        OthersAreListed(te, process, thread);
      }
      if !bRet {
        ResumeOtherThreads();
        SameCounts(before, [], [], before, Now());
      } else {
        HeldAre(snap.value, answers, process, thread, pbCode, cbBytes);
      }
    }

    lemma HeldAre(te: seq<ThreadEntry>, answers: nat -> ThreadAnswers, process: int, thread: int, pbCode: int,
                  cbBytes: nat)
      requires Valid() && held == Kept(te, answers, process, thread, pbCode, cbBytes)
      ensures forall id :: id in held <==> Holdable(te, answers, process, thread, pbCode, cbBytes, id)
      ensures kernel.suspends(thread) == before.counts(thread)
    {
      hide HandlesHeld, Kept;
      forall id ensures id in held <==> Holdable(te, answers, process, thread, pbCode, cbBytes, id) {
        KeptAreHoldable(te, answers, process, thread, pbCode, cbBytes, id);
      }
      assert !Holdable(te, answers, process, thread, pbCode, cbBytes, thread);
      assert multiset(held)[thread] == 0;
    }

    /** The first n entries of the handle list are in use. */
    ghost predicate HoldsFirst(n: nat)
      reads this, kernel, g_hThreadHandles
    {
      && g_hThreadHandles != null && n <= g_hThreadHandles.Length && Countable(before.counts)
      && Holding(before, g_hThreadHandles[..n], held, Now())
    }

    /** Tries to suspend one more thread into the n-th entry. */
    method SuspendInto(n: nat, id: int, pbCode: int, cbBytes: nat, a: ThreadAnswers) returns (next: nat)
      requires HoldsFirst(n) && n < g_hThreadHandles.Length
      modifies this`held, this`ips, kernel, g_hThreadHandles
      ensures HoldsFirst(next) && next == n + if Keeps(a, pbCode, cbBytes) then 1 else 0
      ensures held == old(held) + if Keeps(a, pbCode, cbBytes) then [id] else []
      ensures ips == old(ips) + if Keeps(a, pbCode, cbBytes) then [FirstAway(a, 0, pbCode, cbBytes)] else []
      ensures kernel.asked == old(kernel.asked) + [id]
    {
      hide Holding, FirstAway, Keeps, GoodHandle;
      ghost var hs, now := g_hThreadHandles[..n], Now();
      CountsStay(before, hs, held, now);
      next := n;
      var h;
      ghost var ip;
      h, ip := SuspendOneThread(kernel, id, pbCode, cbBytes, a);
      g_hThreadHandles[n] := h;
      assert g_hThreadHandles[..n] == hs;
      if GoodHandle(h) {
        HoldOneMore(before, hs, held, now, h, id, Now());
        assert g_hThreadHandles[..n + 1] == hs + [h];
        held, ips := held + [id], ips + [ip];
        next := n + 1;
      } else {
        SameCounts(before, hs, held, now, Now());
      }
    }

    /** The second pass over the snapshot. */
    method FillHandles(te: seq<ThreadEntry>, answers: nat -> ThreadAnswers, process: int, thread: int, pbCode: int,
                       cbBytes: nat)
      requires g_hThreadHandles != null && g_hThreadHandles.Length == |Others(te, process, thread)|
      requires Valid() && g_nThreadHandles == 0 && ips == [] && held == []
      modifies this, kernel, g_hThreadHandles
      ensures Valid() && before == old(before) && g_hThreadHandles == old(g_hThreadHandles)
      ensures held == Kept(te, answers, process, thread, pbCode, cbBytes)
      ensures ips == KeptLooks(te, answers, process, thread, pbCode, cbBytes)
      ensures kernel.asked == old(kernel.asked) + Others(te, process, thread)
    {
      hide Holding, FirstAway, Others, Kept, KeptLooks, Keeps;
      var nCurrentThread, i := 0, 0;
      NoOthers(te, process, thread);
      while i < |te|
        invariant i <= |te| && nCurrentThread <= |Others(te[..i], process, thread)|
        invariant held == Kept(te[..i], answers, process, thread, pbCode, cbBytes)
        invariant ips == KeptLooks(te[..i], answers, process, thread, pbCode, cbBytes)
        invariant before == old(before) && g_hThreadHandles == old(g_hThreadHandles) && HoldsFirst(nCurrentThread)
        invariant kernel.asked == old(kernel.asked) + Others(te[..i], process, thread)
      {
        OthersNext(te, i, process, thread);
        KeptNext(te, i, answers, process, thread, pbCode, cbBytes);
        OthersGrow(te, i + 1, |te|, process, thread);
        assert te[..|te|] == te;
        if te[i].owner == process && te[i].id != thread {
          nCurrentThread := SuspendInto(nCurrentThread, te[i].id, pbCode, cbBytes, answers(i));
        }
        i := i + 1;
      }
      assert te[..i] == te;
      g_nThreadHandles := nCurrentThread;
    }
  }

  lemma FirstIsOpen(before: Moment, hs: seq<int>, held: seq<int>, now: Moment)
    requires Holding(before, hs, held, now) && |hs| > 0
    ensures |held| > 0 && hs[0] in now.handles && now.handles[hs[0]] == held[0]
  {
  }

  lemma NothingHeld(before: Moment, held: seq<int>, now: Moment)
    requires Holding(before, [], held, now)
    ensures now.handles == before.handles && forall t :: now.counts(t) == before.counts(t)
  {
    SameHandles(before.handles, held, now.handles);
  }

  lemma SameHandles(before: map<int, int>, held: seq<int>, now: map<int, int>)
    requires HandlesHeld(before, [], held, now)
    ensures now == before
  {
    forall h ensures h in now <==> h in before {
      assert h in now ==> h in [] || h in before;
    }
    assert now.Keys == before.Keys;
    assert forall h | h in now :: now[h] == before[h];
  }

  lemma CountsStay(before: Moment, hs: seq<int>, held: seq<int>, now: Moment)
    requires Holding(before, hs, held, now) && Countable(before.counts)
    ensures Countable(now.counts)
  {
  }

  lemma SameCounts(before: Moment, hs: seq<int>, held: seq<int>, now: Moment, next: Moment)
    requires Holding(before, hs, held, now) && next.handles == now.handles
    requires forall t :: next.counts(t) == now.counts(t)
    ensures Holding(before, hs, held, next)
  {
  }
}
