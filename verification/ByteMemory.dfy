/** Flat byte memory for the copying and filling kernels: an array indexed by address. */
module ByteMemory {
  type Byte = bv8

  /** s with the bytes b written from address `at` on and nothing else changed. */
  function Overwrite(s: seq<Byte>, at: nat, b: seq<Byte>): (r: seq<Byte>)
    requires at + |b| <= |s|
    ensures |r| == |s|
    ensures forall i | 0 <= i < |s| :: r[i] == if at <= i < at + |b| then b[i - at] else s[i]
  {
    s[..at] + b + s[at + |b|..]
  }

  method Store(mem: array<Byte>, at: nat, b: seq<Byte>)
    requires at + |b| <= mem.Length
    modifies mem
    ensures mem[..] == Overwrite(old(mem[..]), at, b)
  {
    forall i | 0 <= i < |b| {
      mem[at + i] := b[i];
    }
  }

  /** movaps, movdqa and their non-temporal forms: a misaligned address faults. */
  method StoreAligned(mem: array<Byte>, at: nat, b: seq<Byte>)
    requires at % 16 == 0 && |b| == 16 && at + 16 <= mem.Length
    modifies mem
    ensures mem[..] == Overwrite(old(mem[..]), at, b)
  {
    Store(mem, at, b);
  }

  function Repeat(c: Byte, n: nat): (r: seq<Byte>)
    ensures |r| == n && forall i | 0 <= i < n :: r[i] == c
  {
    seq(n, _ => c)
  }
}
