/** asmlibSrc/memset64.asm: A_memset fills with deliberately overlapping stores. */
module Memset {
  import opened ByteMemory

  /** Memory with n bytes of value c written from dest on. */
  function Filled(was: seq<Byte>, dest: nat, c: Byte, n: nat): seq<Byte>
    requires dest + n <= |was|
  {
    Overwrite(was, dest, Repeat(c, n))
  }

  /** A store that starts inside or right behind the filled part extends it by what sticks out. */
  method FillUp(mem: array<Byte>, at: nat, n: nat, c: Byte, ghost was: seq<Byte>, ghost dest: nat, ghost p: nat)
    requires dest <= at <= dest + p && dest + p <= |was| && at + n <= |was| == mem.Length
    requires mem[..] == Filled(was, dest, c, p)
    modifies mem
    ensures mem[..] == Filled(was, dest, c, if at + n >= dest + p then at + n - dest else p)
  {
    Store(mem, at, Repeat(c, n));
    FillsUp(was, at, n, c, dest, p);
  }

  /** The same with an aligned 16-byte store. */
  method FillBlock(mem: array<Byte>, at: nat, c: Byte, ghost was: seq<Byte>, ghost dest: nat, ghost p: nat)
    requires at % 16 == 0
    requires dest <= at <= dest + p && dest + p <= |was| && at + 16 <= |was| == mem.Length
    requires mem[..] == Filled(was, dest, c, p)
    modifies mem
    ensures mem[..] == Filled(was, dest, c, if at + 16 >= dest + p then at + 16 - dest else p)
  {
    StoreAligned(mem, at, Repeat(c, 16));
    FillsUp(was, at, 16, c, dest, p);
  }

  lemma FillsUp(was: seq<Byte>, at: nat, n: nat, c: Byte, dest: nat, p: nat)
    requires dest <= at <= dest + p && dest + p <= |was| && at + n <= |was|
    ensures Overwrite(Filled(was, dest, c, p), at, Repeat(c, n))
         == Filled(was, dest, c, if at + n >= dest + p then at + n - dest else p)
  {
  }

  /** A store right before the filled part extends it downwards. */
  method FillDown(mem: array<Byte>, at: nat, n: nat, c: Byte, ghost was: seq<Byte>, ghost end: nat)
    requires at + n <= end <= |was| == mem.Length
    requires mem[..] == Filled(was, at + n, c, end - at - n)
    modifies mem
    ensures mem[..] == Filled(was, at, c, end - at)
  {
    Store(mem, at, Repeat(c, n));
    FillsDown(was, at, n, c, end);
  }

  lemma FillsDown(was: seq<Byte>, at: nat, n: nat, c: Byte, end: nat)
    requires at + n <= end <= |was|
    ensures Overwrite(Filled(was, at + n, c, end - at - n), at, Repeat(c, n)) == Filled(was, at, c, end - at)
  {
  }

  /** The limit is half the low 32 bits of the cache size, or 4 MB when that is nothing. */
  predicate Default(limit: nat, dataCacheSize: nat) {
    var size := dataCacheSize % 0x1_0000_0000;
    if size > 1 then 2 * limit <= size <= 2 * limit + 1 else limit == 0x40_0000
  }

  class MemsetRoutine {
    var memsetCacheLimit: nat

    constructor ()
      ensures memsetCacheLimit == 0
    {
      memsetCacheLimit := 0;
    }

    /** Half the largest cache as the 32-bit eax holds it, or 4 MB when that is zero. */
    method GetMemsetCacheLimit(dataCacheSize: nat) returns (limit: nat)
      modifies this
      ensures limit == memsetCacheLimit > 0
      ensures old(memsetCacheLimit) > 0 ==> memsetCacheLimit == old(memsetCacheLimit)
      ensures old(memsetCacheLimit) == 0 ==> Default(limit, dataCacheSize)
    {
      if memsetCacheLimit == 0 {
        var eax := dataCacheSize % 0x1_0000_0000 / 2;
        memsetCacheLimit := if eax != 0 then eax else 0x400000;
      }
      limit := memsetCacheLimit;
    }

    /** Zero restores the default. */
    method SetMemsetCacheLimit(value: nat, dataCacheSize: nat)
      modifies this
      ensures memsetCacheLimit > 0 && (value > 0 ==> memsetCacheLimit == value)
      ensures value == 0 ==> Default(memsetCacheLimit, dataCacheSize)
    {
      memsetCacheLimit := value;
      if value == 0 {
        var _ := GetMemsetCacheLimit(dataCacheSize);
      }
    }

    /** Exactly [dest, dest + count) is filled, whatever the alignment, the count and the cache. */
    method Memset(mem: array<Byte>, dest: nat, c: Byte, count: nat, dataCacheSize: nat) returns (r: nat)
      requires dest + count <= mem.Length
      modifies this, mem
      ensures r == dest && mem[..] == Filled(old(mem[..]), dest, c, count)
    {
      r := dest;
      if count <= 16 {
        SmallFill(mem, dest, c, count);
        return;
      }
      hide Filled;
      ghost var was := mem[..];
      FillNothing(was, dest, c);
      FillUp(mem, dest, 8, c, was, dest, 0);
      FillUp(mem, dest + 8, 8, c, was, dest, 8);
      // M150, M500, M400: the first call finds no limit, asks for it and compares again.
      while count > memsetCacheLimit && memsetCacheLimit == 0
        invariant mem[..] == Filled(was, dest, c, 16)
        decreases memsetCacheLimit == 0
      {
        var _ := GetMemsetCacheLimit(dataCacheSize);
      }
      FillRegular(mem, dest, c, count, was);
      FillLast(mem, dest, c, count, was, Reach(dest, count));
    }
  }

  lemma FillNothing(was: seq<Byte>, at: nat, c: Byte)
    requires at <= |was|
    ensures Filled(was, at, c, 0) == was
  {
  }

  /** The four fall-through chains of the jump table: entering at Mcount runs every label below it. */
  method SmallFill(mem: array<Byte>, dest: nat, c: Byte, count: nat)
    requires count <= 16 && dest + count <= mem.Length
    modifies mem
    ensures mem[..] == Filled(old(mem[..]), dest, c, count)
  {
    hide Filled;
    ghost var was, end := mem[..], dest + count;
    FillNothing(was, end, c);
    if count % 4 == 0 {
      if count >= 16 { FillDown(mem, dest + 12, 4, c, was, end); }
      if count >= 12 { FillDown(mem, dest + 8, 4, c, was, end); }
      if count >= 8 { FillDown(mem, dest + 4, 4, c, was, end); }
      if count >= 4 { FillDown(mem, dest, 4, c, was, end); }
    } else if count % 4 == 3 || count == 1 {
      if count >= 15 { FillDown(mem, dest + 11, 4, c, was, end); }
      if count >= 11 { FillDown(mem, dest + 7, 4, c, was, end); }
      if count >= 7 { FillDown(mem, dest + 3, 4, c, was, end); }
      if count >= 3 { FillDown(mem, dest + 1, 2, c, was, end); }
      FillDown(mem, dest, 1, c, was, end);
    } else if count % 4 == 2 {
      if count >= 14 { FillDown(mem, dest + 10, 4, c, was, end); }
      if count >= 10 { FillDown(mem, dest + 6, 4, c, was, end); }
      if count >= 6 { FillDown(mem, dest + 2, 4, c, was, end); }
      FillDown(mem, dest, 2, c, was, end);
    } else {
      if count >= 13 { FillDown(mem, dest + 9, 4, c, was, end); }
      if count >= 9 { FillDown(mem, dest + 5, 4, c, was, end); }
      FillDown(mem, dest + 1, 4, c, was, end);
      FillDown(mem, dest, 1, c, was, end);
    }
  }

  /** M300, M700: the last 16 bytes, as two quadwords that may overlap the regular part. */
  method FillLast(mem: array<Byte>, dest: nat, c: Byte, count: nat, ghost was: seq<Byte>, ghost p: nat)
    requires 16 < count && count - 16 <= p <= count && dest + count <= |was| == mem.Length
    requires mem[..] == Filled(was, dest, c, p)
    modifies mem
    ensures mem[..] == Filled(was, dest, c, count)
  {
    hide Filled;
    FillUp(mem, dest + count - 0x10, 8, c, was, dest, p);
    FillUp(mem, dest + count - 8, 8, c, was, dest, if p >= count - 8 then p else count - 8);
  }

  function RegularStart(dest: nat): nat { (dest + 0x10) / 0x10 * 0x10 }

  function RegularEnd(dest: nat, count: nat): nat
    requires count > 16
  {
    (dest + count - 1) / 0x10 * 0x10
  }

  /** How many bytes from dest on are filled once the head and the regular part are stored. */
  function Reach(dest: nat, count: nat): nat
    requires count > 16
  {
    if RegularStart(dest) < RegularEnd(dest, count) then RegularEnd(dest, count) - dest else 16
  }

  /** The head, the regular part and the last 16 bytes leave no gap and go nowhere beyond. */
  lemma ReachCovers(dest: nat, count: nat)
    requires count > 16
    ensures count - 16 <= Reach(dest, count) <= count
    ensures Reach(dest, count) < count
    ensures dest < RegularStart(dest) <= dest + 16
    ensures RegularStart(dest) % 16 == 0 && RegularEnd(dest, count) % 16 == 0
  {
  }

  /** M200, M600: aligned stores through the regular part. */
  method FillRegular(mem: array<Byte>, dest: nat, c: Byte, count: nat, ghost was: seq<Byte>)
    requires count > 16 && dest + count <= |was| == mem.Length
    requires mem[..] == Filled(was, dest, c, 16)
    modifies mem
    ensures count - 16 <= Reach(dest, count) <= count
    ensures mem[..] == Filled(was, dest, c, Reach(dest, count))
  {
    hide Filled;
    var end := RegularEnd(dest, count);
    var index: int := RegularStart(dest) - end;
    ReachCovers(dest, count);
    ghost var p := 16;
    while index < 0
      invariant index % 16 == 0 && end % 16 == 0
      invariant index < 0 ==> dest <= end + index <= dest + p <= end + index + 16
      invariant index >= 0 ==> p == Reach(dest, count)
      invariant p <= count && index < 0 ==> RegularStart(dest) <= end + index
      invariant p <= count && mem[..] == Filled(was, dest, c, p)
      decreases -index
    {
      FillBlock(mem, end + index, c, was, dest, p);
      p := end + index + 16 - dest;
      index := index + 0x10;
    }
  }
}
