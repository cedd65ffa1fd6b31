/** asmlibSrc/memcpy32.asm: the 386, SSE2, SSSE3 and unaligned-read versions of A_memcpy over one
    byte memory. Registers keep their names and meaning: esi and edi are moved to the end of a
    region and ecx or edx runs from minus its size up to zero. Non-temporal stores (movntdq,
    movntps) write the same bytes as ordinary ones, so both dispatch tables share this code. */
module Memcpy {
  import opened ByteMemory

  /** One copy request: memory on entry and the two ranges. Memory ends on a 16-byte boundary. */
  datatype Job = Job(was: seq<Byte>, dest: nat, src: nat, count: nat) {

    /** Both ranges exist, and they are disjoint or the destination starts no later. */
    ghost predicate Valid() {
      && dest + count <= |was| && src + count <= |was| && |was| % 16 == 0
      && (dest <= src || src + count <= dest)
    }

    /** The memory a plain byte copy of the first k bytes leaves. */
    ghost function Copied(k: nat): seq<Byte>
      requires Valid() && k <= count
    {
      Overwrite(was, dest, was[src..src + k])
    }

    /** The source bytes from k on, of which a block load must return the original values. */
    ghost predicate Sees(at: int, r: seq<Byte>, k: nat)
      requires Valid()
    {
      forall j | 0 <= j < |r| && src + k <= at + j < src + count :: r[j] == was[at + j]
    }
  }

  // ---------------------------------------------------------------- loads and stores

  /** A load of n bytes while k bytes are already copied. */
  method Get(mem: array<Byte>, at: int, n: nat, ghost job: Job, ghost k: nat) returns (r: seq<Byte>)
    requires job.Valid() && k <= job.count && mem[..] == job.Copied(k)
    requires 0 <= at && at + n <= mem.Length
    ensures |r| == n && job.Sees(at, r, k)
  {
    r := mem[at..at + n];
    assert forall j | 0 <= j < n :: r[j] == mem[..][at + j];
  }

  /** movups: 16 source bytes that are still to be copied. */
  method GetUnaligned(mem: array<Byte>, at: int, ghost job: Job, ghost k: nat) returns (r: seq<Byte>)
    requires job.Valid() && k <= job.count && mem[..] == job.Copied(k)
    requires job.src + k <= at && at + 16 <= job.src + job.count
    ensures |r| == 16 && r == job.was[at..at + 16]
  {
    r := Get(mem, at, 16, job, k);
  }

  /** movaps/movdqa: the address must be 16-aligned. Every block loaded this way must hold at least
      one byte of the source range; such a block lies inside memory even where it reaches before
      or beyond the range. */
  method GetAligned(mem: array<Byte>, at: int, ghost job: Job, ghost k: nat) returns (r: seq<Byte>)
    requires job.Valid() && k <= job.count && mem[..] == job.Copied(k)
    requires at % 16 == 0 && job.src < at + 16 && at < job.src + job.count
    ensures |r| == 16 && job.Sees(at, r, k)
  {
    r := Get(mem, at, 16, job, k);
  }

  /** A store of the next |r| bytes. */
  method Put(mem: array<Byte>, at: int, r: seq<Byte>, ghost job: Job, ghost k: nat)
    requires job.Valid() && k + |r| <= job.count && mem[..] == job.Copied(k)
    requires at == job.dest + k && r == job.was[job.src + k..job.src + k + |r|]
    modifies mem
    ensures mem[..] == job.Copied(k + |r|)
  {
    hide Overwrite, Job.Copied;
    CopiedStep(job, k, r);
    Store(mem, at, r);
  }

  lemma CopiedStep(job: Job, k: nat, r: seq<Byte>)
    requires job.Valid() && k + |r| <= job.count && r == job.was[job.src + k..job.src + k + |r|]
    ensures |job.Copied(k)| == |job.was|
    ensures Overwrite(job.Copied(k), job.dest + k, r) == job.Copied(k + |r|)
  {
    hide Overwrite;
    var l, all := Overwrite(job.Copied(k), job.dest + k, r), job.Copied(k + |r|);
    forall i | 0 <= i < |job.was| ensures l[i] == all[i] {
      assert job.dest + k <= i < job.dest + k + |r| ==> r[i - (job.dest + k)] == job.was[job.src + (i - job.dest)];
    }
  }

  method PutAligned(mem: array<Byte>, at: int, r: seq<Byte>, ghost job: Job, ghost k: nat)
    requires at % 16 == 0 && |r| == 16
    requires job.Valid() && k + 16 <= job.count && mem[..] == job.Copied(k)
    requires at == job.dest + k && r == job.was[job.src + k..job.src + k + 16]
    modifies mem
    ensures mem[..] == job.Copied(k + 16)
  {
    hide Overwrite, Job.Copied;
    CopiedStep(job, k, r);
    StoreAligned(mem, at, r);
  }

  /** Two neighbouring aligned stores. */
  method PutPair(mem: array<Byte>, at: int, a: seq<Byte>, b: seq<Byte>, ghost job: Job, ghost k: nat)
    requires at % 16 == 0 && |a| == |b| == 16
    requires job.Valid() && k + 32 <= job.count && mem[..] == job.Copied(k)
    requires at == job.dest + k && a == job.was[job.src + k..job.src + k + 16]
    requires b == job.was[job.src + k + 16..job.src + k + 32]
    modifies mem
    ensures mem[..] == job.Copied(k + 32)
  {
    hide Overwrite, Job.Copied;
    PutAligned(mem, at, a, job, k);
    PutAligned(mem, at + 0x10, b, job, k + 16);
  }

  /** Load n bytes into registers, then store them. */
  method Move(mem: array<Byte>, from: int, to: int, n: nat, ghost job: Job, ghost k: nat)
    requires job.Valid() && k + n <= job.count && mem[..] == job.Copied(k)
    requires from == job.src + k && to == job.dest + k
    modifies mem
    ensures mem[..] == job.Copied(k + n)
  {
    var r := Get(mem, from, n, job, k);
    assert r == job.was[job.src + k..job.src + k + n];
    Put(mem, to, r, job, k);
  }

  // ---------------------------------------------------------------- 128-bit register instructions

  function Psrldq(r: seq<Byte>, u: nat): seq<Byte>
    requires |r| == 16 && u <= 16
  {
    r[u..] + Repeat(0, u)
  }

  function Pslldq(r: seq<Byte>, u: nat): seq<Byte>
    requires |r| == 16 && u <= 16
  {
    Repeat(0, u) + r[..16 - u]
  }

  function Por(a: seq<Byte>, b: seq<Byte>): (r: seq<Byte>)
    requires |a| == |b|
    ensures |r| == |a|
  {
    seq(|a|, i requires 0 <= i < |a| => a[i] | b[i])
  }

  /** palignr dst, src, u: the 32 bytes dst:src shifted right by u bytes. */
  function Palignr(dst: seq<Byte>, src: seq<Byte>, u: nat): seq<Byte>
    requires |dst| == |src| == 16 && u <= 16
  {
    (src + dst)[u..u + 16]
  }

  /** Dword i of a register. */
  function Dword(r: seq<Byte>, i: nat): seq<Byte>
    requires |r| == 16 && i < 4
  {
    r[4 * i..4 * i + 4]
  }

  /** shufps r, r, imm: result dword i is the dword the i-th 2-bit field of imm selects. */
  function Shufps(r: seq<Byte>, imm: nat): (s: seq<Byte>)
    requires |r| == 16
    ensures |s| == 16
  {
    Dword(r, imm % 4) + Dword(r, imm / 4 % 4) + Dword(r, imm / 16 % 4) + Dword(r, imm / 64 % 4)
  }

  /** movss / movsd between registers: the low n bytes of a are replaced. */
  function MoveLow(a: seq<Byte>, b: seq<Byte>, n: nat): (r: seq<Byte>)
    requires |a| == |b| == 16 && n <= 16
    ensures |r| == 16
  {
    b[..n] + a[n..]
  }

  /** The 16 bytes that start u bytes into block a and end in the following block b. */
  function Window(a: seq<Byte>, b: seq<Byte>, u: nat): (r: seq<Byte>)
    requires |a| == |b| == 16 && u <= 16
    ensures |r| == 16
  {
    a[u..] + b[..u]
  }

  /** Each of the five ways the code joins two neighbouring blocks yields that window: shift and
      OR, palignr, and the shuffles for offsets 4, 8 and 12. */
  lemma JoinBlocks(a: seq<Byte>, b: seq<Byte>, u: nat)
    requires |a| == |b| == 16 && 0 < u < 16
    ensures Por(Psrldq(a, u), Pslldq(b, 16 - u)) == Window(a, b, u)
    ensures Palignr(b, a, u) == Window(a, b, u)
  {
  }

  lemma JoinByShuffle(a: seq<Byte>, b: seq<Byte>)
    requires |a| == |b| == 16
    ensures Shufps(MoveLow(a, b, 4), 0x39) == Window(a, b, 4)
    ensures Shufps(MoveLow(a, b, 8), 0x4E) == Window(a, b, 8)
  {
    hide Shufps, MoveLow, Window;
    ShuffleBy4(a, b);
    ShuffleBy8(a, b);
  }

  lemma ShuffleBy4(a: seq<Byte>, b: seq<Byte>)
    requires |a| == |b| == 16
    ensures Shufps(MoveLow(a, b, 4), 0x39) == Window(a, b, 4)
  {
  }

  lemma ShuffleBy8(a: seq<Byte>, b: seq<Byte>)
    requires |a| == |b| == 16
    ensures Shufps(MoveLow(a, b, 8), 0x4E) == Window(a, b, 8)
  {
  }

  lemma JoinByRotation(a: seq<Byte>, b: seq<Byte>)
    requires |a| == |b| == 16
    ensures MoveLow(Shufps(b, 0x93), Shufps(a, 0x93), 4) == Window(a, b, 12)
  {
  }

  // ---------------------------------------------------------------- partial blocks

  lemma NothingCopied(job: Job)
    requires job.Valid()
    ensures job.Copied(0) == job.was
  {
  }

  /** C200: the last 0 to 15 bytes, in pieces of 8, 4, 2 and 1. */
  method Tail(mem: array<Byte>, esi: int, edi: int, edx: int, ghost job: Job)
    requires job.Valid() && -16 < edx <= 0 && -edx <= job.count && mem[..] == job.Copied(job.count + edx)
    requires esi == job.src + job.count && edi == job.dest + job.count
    modifies mem
    ensures mem[..] == job.Copied(job.count)
  {
    hide Overwrite, Job.Copied;
    var d := edx;
    if d <= -8 {
      Move(mem, esi + d, edi + d, 8, job, job.count + d);
      d := d + 8;
      if d == 0 { return; }
    }
    if d <= -4 {
      Move(mem, esi + d, edi + d, 4, job, job.count + d);
      d := d + 4;
    }
    if d <= -2 {
      Move(mem, esi + d, edi + d, 2, job, job.count + d);
      d := d + 2;
    }
    if d <= -1 {
      Move(mem, esi + d, edi + d, 1, job, job.count + d);
    }
  }

  /** A100, A1000: fewer than 64 bytes, in pieces of 32, 16, 8, 4, 2 and 1; each piece is loaded
      completely before it is stored. */
  method Small(mem: array<Byte>, dest: nat, src: nat, count: nat, ghost job: Job)
    requires job == Job(mem[..], dest, src, count) && job.Valid() && count < 64
    modifies mem
    ensures mem[..] == job.Copied(count)
  {
    hide Overwrite, Job.Copied;
    NothingCopied(job);
    var esi, edi := src + count, dest + count;
    var ecx: int := 0 - count;
    if ecx <= -0x20 {
      Move(mem, esi + ecx, edi + ecx, 32, job, count + ecx);
      ecx := ecx + 0x20;
    }
    if ecx <= -0x10 {
      Move(mem, esi + ecx, edi + ecx, 16, job, count + ecx);
      ecx := ecx + 0x10;
    }
    if ecx <= -8 {
      Move(mem, esi + ecx, edi + ecx, 8, job, count + ecx);
      ecx := ecx + 8;
    }
    if ecx <= -4 {
      Move(mem, esi + ecx, edi + ecx, 4, job, count + ecx);
      ecx := ecx + 4;
      if ecx == 0 { return; }
    }
    if ecx <= -2 {
      Move(mem, esi + ecx, edi + ecx, 2, job, count + ecx);
      ecx := ecx + 2;
    }
    if ecx <= -1 {
      Move(mem, esi + ecx, edi + ecx, 1, job, count + ecx);
    }
  }

  lemma PaddingBits(e: nat)
    requires e < 16
    ensures e == e % 2 + 2 * (e / 2 % 2) + 4 * (e / 4 % 2) + 8 * (e / 8 % 2)
    ensures e % 4 == e % 2 + 2 * (e / 2 % 2)
  {
  }

  lemma Padded(dest: nat)
    ensures (dest + (16 - dest % 16) % 16) % 16 == 0
  {
  }

  /** B100, B1100, memcpyU: up to 15 bytes, in pieces of 1, 2, 4 and 8 by the bits of edx, bring the
      destination to a 16-byte boundary. */
  method AlignDest(mem: array<Byte>, dest: nat, src: nat, count: nat, ghost job: Job)
    returns (esi: nat, edi: nat, ecx: nat)
    requires job == Job(mem[..], dest, src, count) && job.Valid() && count >= 64
    modifies mem
    ensures edi % 16 == 0 && count - 16 < ecx <= count
    ensures edi == dest + (count - ecx) && esi == src + (count - ecx)
    ensures mem[..] == job.Copied(count - ecx)
  {
    hide Overwrite, Job.Copied;
    var edx := (16 - dest % 16) % 16;
    Padded(dest);
    PaddingBits(edx);
    esi, edi := CopyByBits(mem, dest, src, edx,
                           edx % 2 != 0, edx / 2 % 2 != 0, edx / 4 % 2 != 0, edx / 8 % 2 != 0, job);
    ecx := count - edx;
  }

  method CopyByBits(mem: array<Byte>, dest: nat, src: nat, edx: nat, bit0: bool, bit1: bool, bit2: bool, bit3: bool,
                    ghost job: Job)
    returns (esi: nat, edi: nat)
    requires job == Job(mem[..], dest, src, job.count) && job.Valid() && job.count >= 64
    requires edx == (if bit0 then 1 else 0) + (if bit1 then 2 else 0)
                    + (if bit2 then 4 else 0) + (if bit3 then 8 else 0)
    modifies mem
    ensures esi == src + edx && edi == dest + edx && mem[..] == job.Copied(edx)
  {
    hide Overwrite, Job.Copied;
    NothingCopied(job);
    esi, edi := src, dest;
    if bit0 || bit1 {
      if bit0 {
        Move(mem, esi, edi, 1, job, edi - dest);
        esi, edi := esi + 1, edi + 1;
      }
      if bit1 {
        Move(mem, esi, edi, 2, job, edi - dest);
        esi, edi := esi + 2, edi + 2;
      }
    }
    if bit2 {
      Move(mem, esi, edi, 4, job, edi - dest);
      esi, edi := esi + 4, edi + 4;
    }
    if bit3 {
      Move(mem, esi, edi, 8, job, edi - dest);
      esi, edi := esi + 8, edi + 8;
    }
  }

  // ---------------------------------------------------------------- main loops

  /** Entry state of every main loop: `main` bytes in blocks of 32 end at esi and edi, edx bytes
      remain after them, the destination is aligned and k0 bytes are done. For a misaligned source
      esi has been lowered by u to a block boundary. */
  ghost predicate Loop(job: Job, esi: int, edi: int, ecx: int, edx: nat, u: nat) {
    && job.Valid() && edx < 32 && u < 16
    && -ecx % 32 == 0 && -ecx + edx <= job.count
    && edi == job.dest + job.count - edx && edi % 16 == 0
    && esi == job.src + job.count - edx - u
  }

  /** What one turn of a main loop relies on, with k bytes already copied. */
  lemma LoopTurn(job: Job, esi: int, edi: int, c: int, edx: nat, u: nat)
    requires Loop(job, esi, edi, c, edx, u) && c < 0
    ensures Loop(job, esi, edi, c + 0x20, edx, u) && c + 0x20 <= 0 && job.Valid() && edx < 32
    ensures var k := job.count - edx + c;
      && 0 <= k && k + 32 <= job.count
      && esi + c == job.src + k - u && edi + c == job.dest + k
      && (esi % 16 == 0 ==> (esi + c) % 16 == (esi + c + 0x10) % 16 == (esi + c + 0x20) % 16 == 0)
      && (edi + c) % 16 == (edi + c + 0x10) % 16 == 0
  {
    StepsOf32(c);
    AlignedSteps(edi, c);
    if esi % 16 == 0 { AlignedSteps(esi, c); }
  }

  lemma StepsOf32(c: int)
    requires c < 0 && -c % 32 == 0
    ensures c + 0x20 <= 0 && -(c + 0x20) % 32 == 0
  {
  }

  lemma AlignedSteps(a: int, c: int)
    requires a % 16 == 0 && -c % 32 == 0
    ensures (a + c) % 16 == (a + c + 0x10) % 16 == (a + c + 0x20) % 16 == 0
  {
  }

  lemma WholeBlock(job: Job, r: seq<Byte>, at: int, k: nat)
    requires job.Valid() && job.src + k <= at && at + |r| <= job.src + job.count && job.Sees(at, r, k)
    ensures r == job.was[at..at + |r|]
  {
  }

  method FinishAligned(mem: array<Byte>, esi: int, edi: int, edx: nat, ghost job: Job)
    requires Loop(job, esi, edi, 0, edx, 0) && esi % 16 == 0
    requires mem[..] == job.Copied(job.count - edx)
    modifies mem
    ensures mem[..] == job.Copied(job.count)
  {
    hide Overwrite, Job.Copied, Job.Sees;
    var d: int := 0 - edx;
    if d == 0 { return; }
    if d <= -0x10 {
      var xmm0 := GetAligned(mem, esi + edx + d, job, job.count + d);
      WholeBlock(job, xmm0, esi + edx + d, job.count + d);
      PutAligned(mem, edi + edx + d, xmm0, job, job.count + d);
      d := d + 0x10;
    }
    Tail(mem, esi + edx, edi + edx, d, job);
  }

  /** C100, F100: source and destination have the same alignment. */
  method CopyAligned(mem: array<Byte>, esi: int, edi: int, ecx: int, edx: nat, ghost job: Job)
    requires Loop(job, esi, edi, ecx, edx, 0) && ecx < 0 && esi % 16 == 0
    requires mem[..] == job.Copied(job.count - edx + ecx)
    modifies mem
    ensures mem[..] == job.Copied(job.count)
  {
    hide Loop, Overwrite, Job.Copied, Job.Sees;
    LoopTurn(job, esi, edi, ecx, edx, 0);
    var c := ecx;
    while c != 0
      invariant ecx <= c <= 0 && Loop(job, esi, edi, c, edx, 0)
      invariant mem[..] == job.Copied(job.count - edx + c)
      decreases -c
    {
      LoopTurn(job, esi, edi, c, edx, 0);
      ghost var k := job.count - edx + c;
      var xmm0 := GetAligned(mem, esi + c, job, k);
      var xmm1 := GetAligned(mem, esi + c + 0x10, job, k);
      WholeBlock(job, xmm0, esi + c, k);
      WholeBlock(job, xmm1, esi + c + 0x10, k);
      PutPair(mem, edi + c, xmm0, xmm1, job, k);
      c := c + 0x20;
    }
    FinishAligned(mem, esi, edi, edx, job);
  }

  /** Block `r`, loaded from esi + c, supplies the source bytes from k on. */
  ghost predicate Supplies(job: Job, r: seq<Byte>, u: nat, k: nat)
    requires job.Valid() && u <= |r|
  {
    forall j | u <= j < |r| && k + j - u < job.count :: r[j] == job.was[job.src + k + j - u]
  }

  lemma FirstBlock(job: Job, r: seq<Byte>, at: int, u: nat, k: nat)
    requires job.Valid() && |r| == 16 && u < 16 && at == job.src + k - u && job.Sees(at, r, k)
    ensures Supplies(job, r, u, k)
  {
  }

  /** Two neighbouring blocks joined at u are the next 16 source bytes. */
  lemma WindowIsNext(job: Job, a: seq<Byte>, b: seq<Byte>, at: int, u: nat, k: nat, seen: nat)
    requires job.Valid() && |a| == |b| == 16 && 0 < u < 16 && k + 16 <= job.count && seen <= k + 16 - u
    requires Supplies(job, a, u, k) && at == job.src + k - u + 16 && job.Sees(at, b, seen)
    ensures Window(a, b, u) == job.was[job.src + k..job.src + k + 16]
    ensures Supplies(job, b, u, k + 16)
  {
  }

  /** What is left after a misaligned loop: one more joined block if 16 bytes remain, then the tail
      with esi back at the source's own alignment. */
  method FinishMisaligned(mem: array<Byte>, esi: int, edi: int, edx: nat, eax: nat, xmm0: seq<Byte>, join: Join,
                          ghost job: Job)
    requires Loop(job, esi, edi, 0, edx, eax) && 0 < eax && esi % 16 == 0 && |xmm0| == 16
    requires join.Fits(eax) && Supplies(job, xmm0, eax, job.count - edx)
    requires mem[..] == job.Copied(job.count - edx)
    modifies mem
    ensures mem[..] == job.Copied(job.count)
  {
    hide Overwrite, Job.Copied, Job.Sees, Supplies, Join.Of, Window;
    var d: int := 0 - edx;
    if d <= -0x10 {
      var xmm1 := GetAligned(mem, esi + edx + d + 0x10, job, job.count + d);
      WindowIsNext(job, xmm0, xmm1, esi + edx + d + 0x10, eax, job.count + d, job.count + d);
      var merged := join.Of(xmm0, xmm1, eax);
      PutAligned(mem, edi + edx + d, merged, job, job.count + d);
      d := d + 0x10;
    }
    Tail(mem, esi + edx + eax, edi + edx, d, job);
  }

  /** The instruction sequence that joins two blocks. */
  datatype Join = ShiftOr | Align | Shuffle4 | Shuffle8 {
    predicate Fits(u: nat) {
      && 0 < u < 16
      && (Shuffle4? ==> u == 4) && (Shuffle8? ==> u == 8)
    }

    function Of(a: seq<Byte>, b: seq<Byte>, u: nat): (r: seq<Byte>)
      requires |a| == |b| == 16 && Fits(u)
      ensures r == Window(a, b, u)
    {
      JoinBlocks(a, b, u);
      JoinByShuffle(a, b);
      match this
      case ShiftOr => Por(Psrldq(a, u), Pslldq(b, 16 - u))
      case Align => Palignr(b, a, u)
      case Shuffle4 => Shufps(MoveLow(a, b, 4), 0x39)
      case Shuffle8 => Shufps(MoveLow(a, b, 8), 0x4E)
    }
  }

  /** MOVE_UNALIGNED_SSE2 and MOVE_UNALIGNED_SSSE3: both blocks of an iteration are loaded before
      either store. */
  method CopyMerging(mem: array<Byte>, esi: int, edi: int, ecx: int, edx: nat, eax: nat, join: Join, ghost job: Job)
    requires Loop(job, esi, edi, ecx, edx, eax) && ecx < 0 && esi % 16 == 0 && join.Fits(eax)
    requires mem[..] == job.Copied(job.count - edx + ecx)
    modifies mem
    ensures mem[..] == job.Copied(job.count)
  {
    hide Loop, Overwrite, Job.Copied, Job.Sees, Supplies, Join.Of, Window;
    LoopTurn(job, esi, edi, ecx, edx, eax);
    var c := ecx;
    var xmm0 := GetAligned(mem, esi + c, job, job.count - edx + c);
    FirstBlock(job, xmm0, esi + c, eax, job.count - edx + c);
    while c != 0
      invariant ecx <= c <= 0 && Loop(job, esi, edi, c, edx, eax)
      invariant mem[..] == job.Copied(job.count - edx + c)
      invariant |xmm0| == 16 && Supplies(job, xmm0, eax, job.count - edx + c)
      decreases -c
    {
      LoopTurn(job, esi, edi, c, edx, eax);
      ghost var k := job.count - edx + c;
      var xmm1 := GetAligned(mem, esi + c + 0x10, job, k);
      var xmm2 := GetAligned(mem, esi + c + 0x20, job, k);
      WindowIsNext(job, xmm0, xmm1, esi + c + 0x10, eax, k, k);
      WindowIsNext(job, xmm1, xmm2, esi + c + 0x20, eax, k + 16, k);
      PutPair(mem, edi + c, join.Of(xmm0, xmm1, eax), join.Of(xmm1, xmm2, eax), job, k);
      xmm0 := xmm2;
      c := c + 0x20;
    }
    FinishMisaligned(mem, esi, edi, edx, eax, xmm0, join, job);
  }

  /** MOVE_UNALIGNED_SSE2_4 and _8: the second block is loaded after the first store. */
  method CopyShuffling(mem: array<Byte>, esi: int, edi: int, ecx: int, edx: nat, eax: nat, join: Join, ghost job: Job)
    requires Loop(job, esi, edi, ecx, edx, eax) && ecx < 0 && esi % 16 == 0
    requires join.Fits(eax) && (join.Shuffle4? || join.Shuffle8?)
    requires mem[..] == job.Copied(job.count - edx + ecx)
    modifies mem
    ensures mem[..] == job.Copied(job.count)
  {
    hide Loop, Overwrite, Job.Copied, Job.Sees, Supplies, Join.Of, Window;
    LoopTurn(job, esi, edi, ecx, edx, eax);
    var c := ecx;
    var xmm0 := GetAligned(mem, esi + c, job, job.count - edx + c);
    FirstBlock(job, xmm0, esi + c, eax, job.count - edx + c);
    while c != 0
      invariant ecx <= c <= 0 && Loop(job, esi, edi, c, edx, eax)
      invariant mem[..] == job.Copied(job.count - edx + c)
      invariant |xmm0| == 16 && Supplies(job, xmm0, eax, job.count - edx + c)
      decreases -c
    {
      LoopTurn(job, esi, edi, c, edx, eax);
      ghost var k := job.count - edx + c;
      var xmm1 := GetAligned(mem, esi + c + 0x10, job, k);
      WindowIsNext(job, xmm0, xmm1, esi + c + 0x10, eax, k, k);
      PutAligned(mem, edi + c, join.Of(xmm0, xmm1, eax), job, k);
      xmm0 := GetAligned(mem, esi + c + 0x20, job, k + 16);
      WindowIsNext(job, xmm1, xmm0, esi + c + 0x20, eax, k + 16, k + 16);
      PutAligned(mem, edi + c + 0x10, join.Of(xmm1, xmm0, eax), job, k + 16);
      c := c + 0x20;
    }
    FinishMisaligned(mem, esi, edi, edx, eax, xmm0, join, job);
  }

  /** MOVE_UNALIGNED_SSE2_12: blocks are rotated once when loaded, and xmm0 carries the rotated
      form from one iteration to the next. */
  method CopyRotating(mem: array<Byte>, esi: int, edi: int, ecx: int, edx: nat, ghost job: Job)
    requires Loop(job, esi, edi, ecx, edx, 12) && ecx < 0 && esi % 16 == 0
    requires mem[..] == job.Copied(job.count - edx + ecx)
    modifies mem
    ensures mem[..] == job.Copied(job.count)
  {
    hide Loop, Overwrite, Job.Copied, Job.Sees, Supplies, Shufps, MoveLow, Window;
    LoopTurn(job, esi, edi, ecx, edx, 12);
    var c := ecx;
    var loaded := GetAligned(mem, esi + c, job, job.count - edx + c);
    ghost var block := loaded;
    FirstBlock(job, block, esi + c, 12, job.count - edx + c);
    var xmm0 := Shufps(loaded, 0x93);
    while c != 0
      invariant ecx <= c <= 0 && Loop(job, esi, edi, c, edx, 12)
      invariant mem[..] == job.Copied(job.count - edx + c)
      invariant |block| == 16 && xmm0 == Shufps(block, 0x93)
      invariant Supplies(job, block, 12, job.count - edx + c)
      decreases -c
    {
      LoopTurn(job, esi, edi, c, edx, 12);
      ghost var k := job.count - edx + c;
      var xmm1 := GetAligned(mem, esi + c + 0x10, job, k);
      var xmm2 := GetAligned(mem, esi + c + 0x20, job, k);
      WindowIsNext(job, block, xmm1, esi + c + 0x10, 12, k, k);
      WindowIsNext(job, xmm1, xmm2, esi + c + 0x20, 12, k + 16, k);
      JoinByRotation(block, xmm1);
      JoinByRotation(xmm1, xmm2);
      var rotated1, rotated2 := Shufps(xmm1, 0x93), Shufps(xmm2, 0x93);
      PutPair(mem, edi + c, MoveLow(rotated1, xmm0, 4), MoveLow(rotated2, rotated1, 4), job, k);
      xmm0 := rotated2;
      block := xmm2;
      c := c + 0x20;
    }
    FinishRotating(mem, esi, edi, edx, xmm0, block, job);
  }

  method FinishRotating(mem: array<Byte>, esi: int, edi: int, edx: nat, xmm0: seq<Byte>, ghost block: seq<Byte>,
                        ghost job: Job)
    requires Loop(job, esi, edi, 0, edx, 12) && esi % 16 == 0
    requires |block| == 16 && xmm0 == Shufps(block, 0x93) && Supplies(job, block, 12, job.count - edx)
    requires mem[..] == job.Copied(job.count - edx)
    modifies mem
    ensures mem[..] == job.Copied(job.count)
  {
    hide Overwrite, Job.Copied, Job.Sees, Supplies, Shufps, MoveLow, Window;
    var d: int := 0 - edx;
    if d <= -0x10 {
      var xmm1 := GetAligned(mem, esi + edx + d + 0x10, job, job.count + d);
      WindowIsNext(job, block, xmm1, esi + edx + d + 0x10, 12, job.count + d, job.count + d);
      JoinByRotation(block, xmm1);
      PutAligned(mem, edi + edx + d, MoveLow(Shufps(xmm1, 0x93), xmm0, 4), job, job.count + d);
      d := d + 0x10;
    }
    Tail(mem, esi + edx + 12, edi + edx, d, job);
  }
}
