/** The four CPU versions of A_memcpy and their dispatcher (asmlibSrc/memcpy32.asm). */
module MemcpyVersions {
  import opened ByteMemory
  import opened Memcpy

  /** What a plain byte copy makes of memory. */
  function CopyOf(was: seq<Byte>, dest: nat, src: nat, count: nat): seq<Byte>
    requires dest + count <= |was| && src + count <= |was|
  {
    Overwrite(was, dest, was[src..src + count])
  }

  // ---------------------------------------------------------------- SSE2 and SSSE3

  /** B200, B1200: round the count down to blocks of 32, lower esi to its block boundary and jump by
      the source's misalignment. Above the cache limit both versions use the SSE2 code. */
  method CopyBlocks(mem: array<Byte>, src: nat, dest: nat, count: nat, ssse3: bool, cacheLimit: nat, ghost job: Job)
    requires job.Valid() && 32 <= count <= job.count && dest % 16 == 0
    requires src == job.src + job.count - count && dest == job.dest + job.count - count
    requires mem[..] == job.Copied(job.count - count)
    modifies mem
    ensures mem[..] == job.Copied(job.count)
  {
    hide Overwrite, Job.Copied, Loop, Whole32;
    var eax := src % 16;
    var main := Whole32(count);
    var edx := count - main;
    var esi, edi := src + main - eax, dest + main;
    var palign := ssse3 && main <= cacheLimit;
    var ecx: int := 0 - main;
    BlockSetup(job, src, dest, count, eax);
    if eax == 0 {
      CopyAligned(mem, esi, edi, ecx, edx, job);
    } else if palign {
      CopyMerging(mem, esi, edi, ecx, edx, eax, Align, job);
    } else if eax == 4 {
      CopyShuffling(mem, esi, edi, ecx, edx, eax, Shuffle4, job);
    } else if eax == 8 {
      CopyShuffling(mem, esi, edi, ecx, edx, eax, Shuffle8, job);
    } else if eax == 12 {
      CopyRotating(mem, esi, edi, ecx, edx, job);
    } else {
      CopyMerging(mem, esi, edi, ecx, edx, eax, ShiftOr, job);
    }
  }

  /** and ecx, -20H */
  function Whole32(count: nat): (main: int)
    ensures 0 <= main <= count < main + 32 && main % 32 == 0
  {
    count / 32 * 32
  }

  lemma BlockSetup(job: Job, src: nat, dest: nat, count: nat, u: nat)
    requires job.Valid() && 32 <= count <= job.count && dest % 16 == 0 && u < 16
    requires src == job.src + job.count - count && dest == job.dest + job.count - count
    ensures var main := Whole32(count);
      && 32 <= main && (dest + main) % 16 == 0 && (u == src % 16 ==> (src + main - u) % 16 == 0)
      && Loop(job, src + main - u, dest + main, 0 - main, count - main, u)
  {
    hide Whole32, Overwrite;
  }

  method MemcpySSE2(mem: array<Byte>, dest: nat, src: nat, count: nat, cacheLimit: nat)
    requires Job(mem[..], dest, src, count).Valid()
    modifies mem
    ensures mem[..] == CopyOf(old(mem[..]), dest, src, count)
  {
    hide Overwrite;
    ghost var job := Job(mem[..], dest, src, count);
    if count < 0x40 {
      Small(mem, dest, src, count, job);
    } else {
      var esi, edi, ecx := AlignDest(mem, dest, src, count, job);
      CopyBlocks(mem, esi, edi, ecx, false, cacheLimit, job);
    }
  }

  method MemcpySSSE3(mem: array<Byte>, dest: nat, src: nat, count: nat, cacheLimit: nat)
    requires Job(mem[..], dest, src, count).Valid()
    modifies mem
    ensures mem[..] == CopyOf(old(mem[..]), dest, src, count)
  {
    hide Overwrite;
    ghost var job := Job(mem[..], dest, src, count);
    if count < 0x40 {
      Small(mem, dest, src, count, job);
    } else {
      var esi, edi, ecx := AlignDest(mem, dest, src, count, job);
      CopyBlocks(mem, esi, edi, ecx, true, cacheLimit, job);
    }
  }

  // ---------------------------------------------------------------- unaligned reads

  /** H110: unaligned loads, aligned stores. */
  method CopyUnalignedReads(mem: array<Byte>, esi: int, edi: int, ecx: int, edx: nat, ghost job: Job)
    requires Loop(job, esi, edi, ecx, edx, 0) && ecx < 0
    requires mem[..] == job.Copied(job.count - edx + ecx)
    modifies mem
    ensures mem[..] == job.Copied(job.count - edx)
  {
    hide Overwrite, Job.Copied, Job.Sees, Loop;
    var c := ecx;
    LoopTurn(job, esi, edi, ecx, edx, 0);
    while c != 0
      invariant ecx <= c <= 0 && Loop(job, esi, edi, c, edx, 0)
      invariant mem[..] == job.Copied(job.count - edx + c)
      decreases -c
    {
      LoopTurn(job, esi, edi, c, edx, 0);
      ghost var k := job.count - edx + c;
      var xmm0 := GetUnaligned(mem, esi + c, job, k);
      var xmm1 := GetUnaligned(mem, esi + c + 0x10, job, k);
      PutPair(mem, edi + c, xmm0, xmm1, job, k);
      c := c + 0x20;
    }
  }

  /** H120: the last 0 to 31 bytes. */
  method FinishUnaligned(mem: array<Byte>, esi: int, edi: int, edx: nat, ghost job: Job)
    requires Loop(job, esi, edi, 0, edx, 0)
    requires mem[..] == job.Copied(job.count - edx)
    modifies mem
    ensures mem[..] == job.Copied(job.count)
  {
    hide Overwrite, Job.Copied, Job.Sees;
    var d: int := 0 - edx;
    if d == 0 { return; }
    if d <= -0x10 {
      var xmm0 := GetUnaligned(mem, esi + edx + d, job, job.count + d);
      PutAligned(mem, edi + edx + d, xmm0, job, job.count + d);
      d := d + 0x10;
    }
    Tail(mem, esi + edx, edi + edx, d, job);
  }

  /** J110: the blocks of 32 from the last to the first. `mid` is memory when the loop starts. */
  method CopyBackward(mem: array<Byte>, esi: int, edi: int, size: nat, ghost job: Job, ghost k: nat)
    requires job.Valid() && k + size <= job.count && size % 32 == 0 && edi % 16 == 0
    requires esi == job.src + k + size && edi == job.dest + k + size
    requires esi - edi >= size || edi - esi >= size
    requires mem[..] == job.Copied(k)
    modifies mem
    ensures mem[..] == job.Copied(k + size)
  {
    hide Overwrite, Job.Copied, Moved;
    ghost var mid := mem[..];
    CopiedLength(job, k);
    var ecx := size;
    var s, d := esi - ecx, edi - ecx;
    NothingMoved(mid, s, d, size);
    while ecx != 0
      invariant 0 <= ecx <= size && ecx % 32 == 0
      invariant Moved(mid, mem[..], s, d, ecx, size)
      decreases ecx
    {
      BackwardTurn(mem, s, d, ecx, size, mid);
      ecx := ecx - 0x20;
    }
    BackwardDone(job, k, size, mid, mem[..]);
  }

  /** The bytes from ecx to size have moved from s to d. */
  ghost predicate Moved(mid: seq<Byte>, now: seq<Byte>, s: nat, d: nat, ecx: nat, size: nat) {
    && ecx <= size && s + size <= |mid| && d + size <= |mid|
    && now == Overwrite(mid, d + ecx, mid[s + ecx..s + size])
  }

  lemma NothingMoved(mid: seq<Byte>, s: nat, d: nat, size: nat)
    requires s + size <= |mid| && d + size <= |mid|
    ensures Moved(mid, mid, s, d, size, size)
  {
  }

  lemma CopiedLength(job: Job, k: nat)
    requires job.Valid() && k <= job.count
    ensures |job.Copied(k)| == |job.was|
  {
  }

  method BackwardTurn(mem: array<Byte>, s: nat, d: nat, ecx: nat, size: nat, ghost mid: seq<Byte>)
    requires 32 <= ecx <= size && ecx % 32 == 0 && (d + size) % 16 == 0 && size % 32 == 0
    requires s + size <= mem.Length && d + size <= mem.Length && (s >= d + size || d >= s + size)
    requires Moved(mid, mem[..], s, d, ecx, size)
    modifies mem
    ensures Moved(mid, mem[..], s, d, ecx - 32, size)
  {
    hide Overwrite, Moved;
    ghost var now := mem[..];
    var xmm1 := mem[s + ecx - 0x20..s + ecx - 0x10];
    var xmm0 := mem[s + ecx - 0x10..s + ecx];
    assert xmm1 == now[s + ecx - 0x20..s + ecx - 0x10] && xmm0 == now[s + ecx - 0x10..s + ecx];
    AlignedBelow(d, ecx, size);
    StoreAligned(mem, d + ecx - 0x20, xmm1);
    StoreAligned(mem, d + ecx - 0x10, xmm0);
    BackwardStep(mid, now, s, d, ecx, size, xmm1, xmm0);
  }

  /** Both stores of a turn go to 16-aligned addresses. */
  lemma AlignedBelow(d: int, ecx: int, size: int)
    requires (d + size) % 16 == 0 && size % 32 == 0 && ecx % 32 == 0
    ensures (d + ecx - 0x20) % 16 == (d + ecx - 0x10) % 16 == 0
  {
    var k := (d + size) / 16 - 2 * (size / 32) + 2 * (ecx / 32);
    assert d + ecx == 16 * k;
    assert d + ecx - 0x20 == 16 * (k - 2) && d + ecx - 0x10 == 16 * (k - 1);
  }

  lemma BackwardStep(mid: seq<Byte>, now: seq<Byte>, s: nat, d: nat, ecx: nat, size: nat, a: seq<Byte>, b: seq<Byte>)
    requires 32 <= ecx && Moved(mid, now, s, d, ecx, size) && (s >= d + size || d >= s + size)
    requires a == now[s + ecx - 0x20..s + ecx - 0x10] && b == now[s + ecx - 0x10..s + ecx]
    ensures Moved(mid, Overwrite(Overwrite(now, d + ecx - 0x20, a), d + ecx - 0x10, b), s, d, ecx - 32, size)
  {
    hide Overwrite;
    var l := Overwrite(Overwrite(now, d + ecx - 0x20, a), d + ecx - 0x10, b);
    var r := Overwrite(mid, d + ecx - 32, mid[s + ecx - 32..s + size]);
    forall i | 0 <= i < |mid| ensures l[i] == r[i] {
      StillThere(mid, now, s, d, ecx, size, s + i - d);
    }
  }

  /** The part of the source that is still to be moved is as it was. */
  lemma StillThere(mid: seq<Byte>, now: seq<Byte>, s: nat, d: nat, ecx: nat, size: nat, i: int)
    requires Moved(mid, now, s, d, ecx, size) && (s >= d + size || d >= s + size)
    ensures s <= i < s + ecx ==> now[i] == mid[i]
  {
    hide Overwrite;
  }

  lemma BackwardDone(job: Job, k: nat, size: nat, mid: seq<Byte>, now: seq<Byte>)
    requires job.Valid() && k + size <= job.count && mid == job.Copied(k)
    requires Moved(mid, now, job.src + k, job.dest + k, 0, size)
    ensures now == job.Copied(k + size)
  {
    hide Overwrite, Job.Copied;
    AheadIsOriginal(job, k, size);
    var next := mid[job.src + k..job.src + k + size];
    CopiedStep(job, k, next);
  }

  /** A forward copy has not overwritten the source bytes ahead of it. */
  lemma AheadIsOriginal(job: Job, k: nat, size: nat)
    requires job.Valid() && k + size <= job.count
    ensures |job.Copied(k)| == |job.was|
    ensures job.Copied(k)[job.src + k..job.src + k + size] == job.was[job.src + k..job.src + k + size]
  {
    hide Overwrite;
    forall i | job.src + k <= i < job.src + k + size ensures job.Copied(k)[i] == job.was[i] {
    }
  }

  const WORD := 0x1_0000_0000

  /** mov eax, esi / sub eax, edi / cdq / xor eax, edx / sub eax, edx, in 32-bit registers. */
  function AbsDifference(esi: nat, edi: nat): nat {
    var eax := (esi - edi) % WORD;
    if eax < WORD / 2 then eax else WORD - eax
  }

  /** The register's idea of the distance never exceeds the true one, so a distance it finds large
      enough to copy backwards is large enough. */
  lemma DistanceIsSafe(esi: nat, edi: nat)
    requires esi <= WORD && edi <= WORD && esi != edi + WORD && edi != esi + WORD
    ensures AbsDifference(esi, edi) <= if esi > edi then esi - edi else edi - esi
  {
  }

  /** memcpyU: bits 7 to 11 of the distance decide whether the copy may run backwards, and only
      non-overlapping blocks do. */
  method MemcpyU(mem: array<Byte>, dest: nat, src: nat, count: nat)
    requires Job(mem[..], dest, src, count).Valid() && mem.Length <= WORD
    modifies mem
    ensures mem[..] == CopyOf(old(mem[..]), dest, src, count)
  {
    hide Overwrite;
    ghost var job := Job(mem[..], dest, src, count);
    if count < 0x40 {
      Small(mem, dest, src, count, job);
    } else {
      var esi, edi, edx := AlignDest(mem, dest, src, count, job);
      CopyU(mem, esi, edi, edx, job);
    }
  }

  lemma BlockDone(job: Job, esi: int, edi: int, ecx: int, edx: nat)
    requires Loop(job, esi, edi, ecx, edx, 0) && ecx <= 0
    ensures Loop(job, esi, edi, 0, edx, 0)
  {
  }

  method CopyU(mem: array<Byte>, src: nat, dest: nat, count: nat, ghost job: Job)
    requires job.Valid() && 32 <= count <= job.count && dest % 16 == 0 && mem.Length <= WORD
    requires src == job.src + job.count - count && dest == job.dest + job.count - count
    requires mem[..] == job.Copied(job.count - count)
    modifies mem
    ensures mem[..] == job.Copied(job.count)
  {
    hide Overwrite, Job.Copied, AbsDifference, Loop, Whole32;
    var main := Whole32(count);
    var edx := count - main;
    var esi, edi := src + main, dest + main;
    var ecx: int := 0 - main;
    BlockSetup(job, src, dest, count, 0);
    BlockDone(job, esi, edi, ecx, edx);
    CopiedLength(job, job.count - count);
    if esi % 16 == 0 {
      CopyAligned(mem, esi, edi, ecx, edx, job);
    } else {
      var falseDependence := (esi - edi) % WORD / 128 % 32 == 31;
      if falseDependence && AbsDifference(esi, edi) >= main {
        DistanceIsSafe(esi, edi);
        CopyBackward(mem, esi, edi, main, job, job.count - count);
      } else {
        CopyUnalignedReads(mem, esi, edi, ecx, edx, job);
      }
      FinishUnaligned(mem, esi, edi, edx, job);
    }
  }

  // ---------------------------------------------------------------- 386

  /** rep movsb / movsw / movsd: `times` moves of `size` bytes, esi and edi advancing. */
  method RepMovs(mem: array<Byte>, src: nat, dest: nat, times: nat, size: nat, ghost job: Job, ghost k: nat)
    returns (esi: nat, edi: nat)
    requires job.Valid() && k + times * size <= job.count
    requires src == job.src + k && dest == job.dest + k && mem[..] == job.Copied(k)
    modifies mem
    ensures esi == src + times * size && edi == dest + times * size && mem[..] == job.Copied(k + times * size)
  {
    hide Overwrite, Job.Copied, Job.Valid;
    esi, edi := src, dest;
    var ecx := times;
    ghost var moved := 0;
    while ecx != 0
      invariant 0 <= ecx <= times && 0 <= moved && moved + ecx * size == times * size
      invariant k + moved <= job.count && esi == src + moved && edi == dest + moved
      invariant job.Valid() && mem[..] == job.Copied(k + moved)
      decreases ecx
    {
      OneLess(ecx, size);
      Move(mem, esi, edi, size, job, k + moved);
      esi, edi, ecx, moved := esi + size, edi + size, ecx - 1, moved + size;
    }
  }

  lemma OneLess(a: nat, b: nat)
    requires a > 0
    ensures a * b == (a - 1) * b + b && (a - 1) * b >= 0
  {
  }

  method Memcpy386(mem: array<Byte>, dest: nat, src: nat, count: nat)
    requires Job(mem[..], dest, src, count).Valid()
    modifies mem
    ensures mem[..] == CopyOf(old(mem[..]), dest, src, count)
  {
    hide Overwrite, Job.Copied;
    ghost var job := Job(mem[..], dest, src, count);
    NothingCopied(job);
    var esi, edi, ecx := src, dest, count;
    if ecx >= 8 {
      if edi % 2 != 0 {
        esi, edi := RepMovs(mem, esi, edi, 1, 1, job, count - ecx);
        ecx := ecx - 1;
      }
      if edi / 2 % 2 != 0 {
        esi, edi := RepMovs(mem, esi, edi, 1, 2, job, count - ecx);
        ecx := ecx - 2;
      }
      var edx := ecx;
      esi, edi := RepMovs(mem, esi, edi, ecx / 4, 4, job, count - ecx);
      ecx := edx % 4;
    }
    esi, edi := RepMovs(mem, esi, edi, ecx, 1, job, count - ecx);
    WholeCopy(job);
  }

  lemma WholeCopy(job: Job)
    requires job.Valid()
    ensures job.Copied(job.count) == CopyOf(job.was, job.dest, job.src, job.count)
  {
  }

  // ---------------------------------------------------------------- dispatch

  datatype Version = CpuDispatch | V386 | VSSE2 | VSSSE3 | VU

  /** The dispatch pointer and the cache limit, both set on the first call. */
  class MemcpyRoutine {
    var dispatch: Version
    var cacheBypassLimit: nat

    constructor ()
      ensures dispatch == CpuDispatch && cacheBypassLimit == 0
    {
      dispatch, cacheBypassLimit := CpuDispatch, 0;
    }

    /** Half the largest cache, or 4 MB when its size is unknown; computed once. */
    method GetMemcpyCacheLimit(dataCacheSize: nat) returns (limit: nat)
      modifies this`cacheBypassLimit
      ensures limit == cacheBypassLimit != 0
      ensures old(cacheBypassLimit) != 0 ==> limit == old(cacheBypassLimit)
      ensures old(cacheBypassLimit) == 0 && dataCacheSize > 1 ==> 2 * limit <= dataCacheSize <= 2 * limit + 1
      ensures old(cacheBypassLimit) == 0 && dataCacheSize <= 1 ==> limit == 0x40_0000
    {
      if cacheBypassLimit == 0 {
        var half := dataCacheSize / 2;
        cacheBypassLimit := if half != 0 then half else 0x400000;
      }
      limit := cacheBypassLimit;
    }

    /** Whatever the CPU reports, and whatever version is in place, the call is a plain byte copy of
        disjoint ranges or of ranges whose destination starts no later. The version chosen is the latest the
        instruction set has: 4 stands for SSE2 and 6 for SSSE3. */
    method Copy(mem: array<Byte>, dest: nat, src: nat, count: nat,
                instructionSet: nat, unalignedIsFaster: bool, dataCacheSize: nat)
      requires Job(mem[..], dest, src, count).Valid() && mem.Length <= WORD
      modifies this, mem
      ensures mem[..] == CopyOf(old(mem[..]), dest, src, count)
      ensures dispatch != CpuDispatch && (old(dispatch) != CpuDispatch ==> dispatch == old(dispatch))
      ensures old(dispatch) == CpuDispatch ==>
        && (dispatch == V386 <==> instructionSet < 4) && (dispatch == VSSE2 <==> instructionSet in {4, 5})
        && (dispatch == VU <==> instructionSet > 5 && unalignedIsFaster)
    {
      if dispatch == CpuDispatch {
        var _ := GetMemcpyCacheLimit(dataCacheSize);
        dispatch :=
          if instructionSet < 4 then V386
          else if instructionSet < 6 then VSSE2
          else if !unalignedIsFaster then VSSSE3
          else VU;
      }
      match dispatch
      case V386 => Memcpy386(mem, dest, src, count);
      case VSSE2 => MemcpySSE2(mem, dest, src, count, cacheBypassLimit);
      case VSSSE3 => MemcpySSSE3(mem, dest, src, count, cacheBypassLimit);
      case VU => MemcpyU(mem, dest, src, count);
    }
  }
}
