/** The prefix loop of X86_GetInstruction (tmemutil-3rd/src/mhook-lib/disasm_x86.c) on the fields
    it updates. `code` is the byte stream at the instruction's address. */
module PrefixScan {
  import opened Wrappers
  import opened X86

  datatype Segment = ES | CS | SS | DS | FS | GS

  function SegmentOf(b: byte): Segment {
    if b == 0x26 then ES else if b == 0x2E then CS else if b == 0x36 then SS
    else if b == 0x64 then FS else if b == 0x65 then GS else DS
  }

  class Instruction {
    const arch: Arch
    const code: Stream
    var length: nat
    const prefixes: array<byte>
    var prefixCount: nat
    var anomaly: bool
    var repeating: bool
    var operandSize: nat
    var addressSize: nat
    var hasOperandSize: bool
    var hasAddressSize: bool
    var hasRepeatWhileEqual: bool
    var hasRepeatWhileNotEqual: bool
    var hasSegmentOverride: bool
    var segment: Segment
    var hasLock: bool
    var rex: byte

    /** InitInstruction and X86_InitInstruction. */
    constructor (arch: Arch, code: Stream)
      ensures this.arch == arch && this.code == code && fresh(prefixes)
      ensures prefixes.Length == MAX_PREFIXES && length == 0 && prefixCount == 0 && !anomaly && rex == 0
      ensures Normal([])
    {
      this.arch, this.code := arch, code;
      length, prefixCount, anomaly, repeating, rex := 0, 0, false, false, 0;
      operandSize, addressSize := DefaultOperandSize(arch), DefaultAddressSize(arch);
      hasOperandSize, hasAddressSize, hasRepeatWhileEqual, hasRepeatWhileNotEqual := false, false, false, false;
      hasSegmentOverride, segment, hasLock := false, DS, false;
      prefixes := new byte[MAX_PREFIXES];
    }

    /** The flags as a function of the legacy prefixes read, whatever their order and number. */
    ghost predicate Normal(ps: seq<byte>)
      reads this`hasOperandSize, this`hasAddressSize, this`operandSize, this`addressSize, this`hasLock,
            this`hasRepeatWhileEqual, this`hasRepeatWhileNotEqual, this`repeating, this`hasSegmentOverride, this`segment
    {
      && SizesNormal(0x66 in ps, 0x67 in ps)
      && RepeatNormal(LastRepeat(ps))
      && SegmentNormal(LastOverride(arch, ps))
      && (hasLock <==> 0xF0 in ps)
    }

    /** Operand and address size depend only on whether 66H and 67H occur. */
    ghost predicate SizesNormal(has66: bool, has67: bool)
      reads this`hasOperandSize, this`hasAddressSize, this`operandSize, this`addressSize
    {
      && hasOperandSize == has66 && operandSize == OperandSizeOf(arch, has66)
      && hasAddressSize == has67 && addressSize == AddressSizeOf(arch, has67)
    }

    /** The two repeat flags exclude each other and follow the last repeat prefix. */
    ghost predicate RepeatNormal(last: byte)
      reads this`hasRepeatWhileEqual, this`hasRepeatWhileNotEqual, this`repeating
    {
      && hasRepeatWhileNotEqual == (last == 0xF2) && hasRepeatWhileEqual == (last == 0xF3)
      && repeating == (last == 0xF2 || last == 0xF3)
    }

    /** The last override the mode honours selects the segment. */
    ghost predicate SegmentNormal(last: byte)
      reads this`hasSegmentOverride, this`segment
    {
      hasSegmentOverride == (last != 0) && segment == if last == 0 then DS else SegmentOf(last)
    }

    /** One legacy prefix: the switch of the scan loop. */
    method Apply(opcode: byte, ghost ps: seq<byte>)
      requires IsLegacyPrefix(opcode) && Normal(ps)
      modifies this`anomaly, this`repeating, this`operandSize, this`addressSize,
               this`hasOperandSize, this`hasAddressSize, this`hasRepeatWhileEqual, this`hasRepeatWhileNotEqual,
               this`hasSegmentOverride, this`segment, this`hasLock
      ensures Normal(ps + [opcode]) && (old(anomaly) ==> anomaly)
    {
      hide SizesNormal, RepeatNormal, SegmentNormal, LastRepeat, LastOverride, OperandSizeOf, AddressSizeOf;
      LastOfAppend(arch, ps, opcode);
      if opcode == 0xF2 || opcode == 0xF3 {
        ApplyRepeat(opcode, LastRepeat(ps));
      } else if opcode == 0x66 || opcode == 0x67 {
        ApplySize(opcode, 0x66 in ps, 0x67 in ps);
      } else if opcode == 0xF0 {
        anomaly := anomaly || hasLock;
        hasLock := true;
      } else {
        ApplySegment(opcode, LastOverride(arch, ps));
      }
    }

    method ApplyRepeat(opcode: byte, ghost last: byte)
      requires (opcode == 0xF2 || opcode == 0xF3) && RepeatNormal(last)
      modifies this`anomaly, this`repeating, this`hasRepeatWhileEqual, this`hasRepeatWhileNotEqual
      ensures RepeatNormal(opcode) && (old(anomaly) ==> anomaly)
    {
      if opcode == 0xF2 {
        anomaly := anomaly || hasRepeatWhileEqual;
        repeating, hasRepeatWhileEqual, hasRepeatWhileNotEqual := true, false, true;
      } else {
        anomaly := anomaly || hasRepeatWhileNotEqual;
        repeating, hasRepeatWhileNotEqual, hasRepeatWhileEqual := true, false, true;
      }
    }

    method ApplySize(opcode: byte, ghost has66: bool, ghost has67: bool)
      requires (opcode == 0x66 || opcode == 0x67) && SizesNormal(has66, has67)
      modifies this`anomaly, this`operandSize, this`addressSize, this`hasOperandSize, this`hasAddressSize
      ensures SizesNormal(has66 || opcode == 0x66, has67 || opcode == 0x67) && (old(anomaly) ==> anomaly)
    {
      if opcode == 0x66 {
        anomaly := anomaly || hasOperandSize;
        if !hasOperandSize {
          hasOperandSize := true;
          operandSize := if operandSize == 4 then 2 else 4;
        }
      } else {
        anomaly := anomaly || hasAddressSize;
        if !hasAddressSize {
          hasAddressSize := true;
          addressSize := if addressSize == 8 then 4 else if addressSize == 4 then 2 else 4;
        }
      }
    }

    /** ES, CS, SS and DS overrides are dropped in 64-bit mode; FS and GS always count. */
    method ApplySegment(opcode: byte, ghost last: byte)
      requires opcode in [0x26, 0x2E, 0x36, 0x3E, 0x64, 0x65] && SegmentNormal(last)
      modifies this`anomaly, this`hasSegmentOverride, this`segment
      ensures SegmentNormal(if Overrides(arch, opcode) then opcode else last) && (old(anomaly) ==> anomaly)
    {
      anomaly := anomaly || hasSegmentOverride;
      if opcode == 0x64 || opcode == 0x65 || !arch.X64? {
        hasSegmentOverride, segment := true, SegmentOf(opcode);
      } else {
        anomaly := true;
      }
    }

    /** Whether the byte repeats a prefix already stored. */
    method IsDuplicate(opcode: byte) returns (found: bool)
      requires prefixCount <= prefixes.Length
      ensures found <==> opcode in prefixes[..prefixCount]
    {
      found := false;
      var i := 0;
      while i < prefixCount
        invariant i <= prefixCount && opcode !in prefixes[..i]
      {
        if prefixes[i] == opcode { return true; }
        i := i + 1;
      }
    }

    /** Records one legacy prefix, unless fifteen are stored already. */
    method Accept(opcode: byte, ghost ps: seq<byte>) returns (stored: bool)
      requires prefixes.Length == MAX_PREFIXES && prefixCount == |ps| <= MAX_PREFIXES
      requires prefixes[..prefixCount] == ps && Normal(ps) && IsLegacyPrefix(opcode) && (prefixCount > 4 ==> anomaly)
      modifies prefixes, this`prefixCount,
               this`anomaly, this`repeating, this`operandSize, this`addressSize,
               this`hasOperandSize, this`hasAddressSize, this`hasRepeatWhileEqual, this`hasRepeatWhileNotEqual,
               this`hasSegmentOverride, this`segment, this`hasLock
      ensures stored <==> |ps| < MAX_PREFIXES
      ensures stored ==> prefixCount == |ps| + 1 && prefixes[..prefixCount] == ps + [opcode]
      ensures stored ==> Normal(ps + [opcode]) && (prefixCount > 4 ==> anomaly)
    {
      hide Normal;
      if !anomaly {
        anomaly := IsDuplicate(opcode);
      }
      Apply(opcode, ps);
      if prefixCount >= 15 {
        return false;
      } else if prefixCount == 4 {
        anomaly := true;
      }
      assert anomaly || prefixCount < 4;
      prefixes[prefixCount] := opcode;
      prefixCount := prefixCount + 1;
      stored := true;
    }

    /** The prefix loop. It ends on every stream and succeeds exactly when fifteen slots suffice. */
    method ScanLegacy() returns (ok: bool, opcode: byte, ghost ps: seq<byte>)
      requires prefixes.Length == MAX_PREFIXES && length == 0 && prefixCount == 0 && !anomaly && rex == 0 && Normal([])
      modifies this, prefixes
      ensures ok <==> Prefixes(arch, code, 0, []).Some?
      ensures ok ==> length > 0 && opcode == code(length - 1) && Prefixes(arch, code, 0, []) == Some((ps, length - 1))
      ensures ok ==> prefixCount == |ps| <= MAX_PREFIXES && prefixes[..prefixCount] == ps && Normal(ps)
      ensures ok ==> rex == 0 && (prefixCount > 4 ==> anomaly)
    {
      hide Normal, IsLegacyPrefix, MisplacedRex, Prefixes;
      ps := [];
      opcode := code(0);
      while true
        invariant prefixCount == |ps| <= MAX_PREFIXES && prefixes[..prefixCount] == ps && Normal(ps)
        invariant rex == 0 && (prefixCount > 4 ==> anomaly)
        invariant Prefixes(arch, code, length, ps) == Prefixes(arch, code, 0, [])
        decreases MAX_PREFIXES - prefixCount, if MisplacedRex(arch, code, length) then 1 else 0
      {
        PrefixTurn(arch, code, length, ps);
        opcode := code(length);
        length := length + 1;
        if MisplacedRex(arch, code, length - 1) {
          anomaly := true;
          continue;
        }
        if !IsLegacyPrefix(opcode) { break; }
        var stored := Accept(opcode, ps);
        if !stored { return false, opcode, ps; }
        ps := ps + [opcode];
      }
      ok := true;
    }

    /** The scan ends on every stream, never stores past the fifteenth prefix, and succeeds exactly
        when the stream has a header; the flags are then the normal form of its prefixes. A REX.W
        overrides the operand size. */
    method Scan() returns (ok: bool, opcode: byte)
      requires prefixes.Length == MAX_PREFIXES && length == 0 && prefixCount == 0 && !anomaly && rex == 0 && Normal([])
      modifies this, prefixes
      ensures ok <==> ReadHeader(arch, code).Some?
      ensures ok ==> var h := ReadHeader(arch, code).value;
        && length == h.opcodeAt + 1 && opcode == code(h.opcodeAt)
        && prefixCount == |h.prefixes| + (if h.rex == 0 then 0 else 1) <= MAX_PREFIXES
        && prefixes[..|h.prefixes|] == h.prefixes
        && (h.rex != 0 ==> prefixes[|h.prefixes|] == h.rex)
        && RexState(h)
    {
      hide Normal, RexState, Prefixes;
      ghost var ps;
      ok, opcode, ps := ScanLegacy();
      if !ok { return; }
      NormalWithoutRex(ps, length - 1);
      if arch == X64 && IsRex(opcode) {
        if prefixCount >= 15 {
          return false, opcode;
        }
        anomaly := anomaly || prefixCount == 5;
        assert anomaly || prefixCount < 5;
        prefixes[prefixCount] := opcode;
        prefixCount := prefixCount + 1;
        ApplyRex(opcode, ps);
        opcode := code(length);
        length := length + 1;
      }
    }

    /** REX.W selects 64-bit operands; a REX of 40H alone is recorded as no REX. */
    method ApplyRex(opcode: byte, ghost ps: seq<byte>)
      requires Normal(ps) && IsRex(opcode)
      modifies this`operandSize, this`hasOperandSize, this`anomaly, this`rex
      ensures forall at: nat :: RexState(Header(ps, opcode, at))
    {
      rex := opcode;
      if RexW(rex) {
        operandSize := 8;
        hasOperandSize := false;
      } else if hasOperandSize {
        assert operandSize == OperandSizeOf(arch, true);
      } else if rex == 0x40 {
        anomaly := true;
        rex := 0;
      }
    }

    lemma NormalWithoutRex(ps: seq<byte>, at: nat)
      requires Normal(ps) && rex == 0
      ensures RexState(Header(ps, 0, at))
    {
    }

    /** The normal form once the REX byte is applied. */
    ghost predicate RexState(h: Header)
      reads this`hasOperandSize, this`hasAddressSize, this`operandSize, this`addressSize, this`hasLock, this`rex,
            this`hasRepeatWhileEqual, this`hasRepeatWhileNotEqual, this`repeating, this`hasSegmentOverride, this`segment
    {
      && operandSize == (if RexW(h.rex) then 8 else OperandSizeOf(arch, 0x66 in h.prefixes))
      && (hasOperandSize <==> 0x66 in h.prefixes && !RexW(h.rex))
      && addressSize == AddressSizeOf(arch, 0x67 in h.prefixes) && (hasAddressSize <==> 0x67 in h.prefixes)
      && RepeatNormal(LastRepeat(h.prefixes)) && SegmentNormal(LastOverride(arch, h.prefixes))
      && (hasLock <==> 0xF0 in h.prefixes)
      && rex == (if h.rex == 0x40 && 0x66 !in h.prefixes then 0 else h.rex)
    }
  }

  /** One turn of the loop, and why it makes progress: a byte behind a skipped REX is a prefix. */
  lemma PrefixTurn(arch: Arch, s: Stream, i: nat, ps: seq<byte>)
    requires |ps| <= MAX_PREFIXES
    ensures MisplacedRex(arch, s, i) ==>
              !MisplacedRex(arch, s, i + 1) && Prefixes(arch, s, i, ps) == Prefixes(arch, s, i + 1, ps)
    ensures !MisplacedRex(arch, s, i) && !IsLegacyPrefix(s(i)) ==> Prefixes(arch, s, i, ps) == Some((ps, i))
    ensures !MisplacedRex(arch, s, i) && IsLegacyPrefix(s(i)) && |ps| == MAX_PREFIXES ==>
              Prefixes(arch, s, i, ps) == None
    ensures !MisplacedRex(arch, s, i) && IsLegacyPrefix(s(i)) && |ps| < MAX_PREFIXES ==>
              Prefixes(arch, s, i, ps) == Prefixes(arch, s, i + 1, ps + [s(i)])
  {
  }

  lemma LastOfAppend(arch: Arch, ps: seq<byte>, b: byte)
    ensures LastRepeat(ps + [b]) == if b == 0xF2 || b == 0xF3 then b else LastRepeat(ps)
    ensures LastOverride(arch, ps + [b]) == if Overrides(arch, b) then b else LastOverride(arch, ps)
    ensures forall x: byte :: x in ps + [b] <==> x in ps || x == b
  {
    assert (ps + [b])[..|ps|] == ps;
  }

  // ---------------------------------------------------------------- what the flags say

  /** Of several repeat prefixes the last counts. */
  lemma {:induction false} LastRepeatAt(ps: seq<byte>, k: nat)
    requires k < |ps| && (ps[k] == 0xF2 || ps[k] == 0xF3)
    requires forall j | k < j < |ps| :: ps[j] != 0xF2 && ps[j] != 0xF3
    ensures LastRepeat(ps) == ps[k]
    decreases |ps|
  {
    if k < |ps| - 1 { LastRepeatAt(ps[..|ps| - 1], k); }
  }

  lemma {:induction false} NoRepeat(ps: seq<byte>)
    requires 0xF2 !in ps && 0xF3 !in ps
    ensures LastRepeat(ps) == 0
    decreases |ps|
  {
    if ps != [] { NoRepeat(ps[..|ps| - 1]); }
  }

  /** The bytes that select a segment in this mode. */
  function SegmentBytes(arch: Arch): set<byte> {
    if arch.X64? then {0x64, 0x65} else {0x26, 0x2E, 0x36, 0x3E, 0x64, 0x65}
  }

  lemma {:induction false} LastOverrideAt(arch: Arch, ps: seq<byte>, k: nat)
    requires k < |ps| && ps[k] in SegmentBytes(arch)
    requires forall j | k < j < |ps| :: ps[j] !in SegmentBytes(arch)
    ensures LastOverride(arch, ps) == ps[k]
    decreases |ps|
  {
    if k < |ps| - 1 { LastOverrideAt(arch, ps[..|ps| - 1], k); }
  }

  lemma {:induction false} NoOverride(arch: Arch, ps: seq<byte>)
    requires forall b | b in ps :: b !in SegmentBytes(arch)
    ensures LastOverride(arch, ps) == 0
    decreases |ps|
  {
    if ps != [] {
      assert ps[|ps| - 1] in ps;
      NoOverride(arch, ps[..|ps| - 1]);
    }
  }

  /** After the scan the segment is the one of the last override the mode honours, DS without any; F2H and F3H
      exclude each other, and the last of them counts. */
  lemma FlagsFollowPrefixes(i: Instruction, h: Header, k: nat)
    requires i.RexState(h)
    ensures i.hasLock <==> 0xF0 in h.prefixes
    ensures var ps := h.prefixes;
      && (k < |ps| && ps[k] in SegmentBytes(i.arch) && (forall j | k < j < |ps| :: ps[j] !in SegmentBytes(i.arch)) ==>
            i.hasSegmentOverride && i.segment ==
              match ps[k]
              case 0x26 => ES case 0x2E => CS case 0x36 => SS case 0x64 => FS case 0x65 => GS case _ => DS)
      && ((forall b | b in ps :: b !in SegmentBytes(i.arch)) ==> !i.hasSegmentOverride && i.segment == DS)
      && (k < |ps| && (ps[k] == 0xF2 || ps[k] == 0xF3)
          && (forall j | k < j < |ps| :: ps[j] != 0xF2 && ps[j] != 0xF3) ==>
            i.repeating && i.hasRepeatWhileNotEqual == (ps[k] == 0xF2) && i.hasRepeatWhileEqual == (ps[k] == 0xF3))
      && (0xF2 !in ps && 0xF3 !in ps ==> !i.repeating && !i.hasRepeatWhileEqual && !i.hasRepeatWhileNotEqual)
  {
    hide LastRepeat, LastOverride;
    var ps := h.prefixes;
    if k < |ps| && ps[k] in SegmentBytes(i.arch) && forall j | k < j < |ps| :: ps[j] !in SegmentBytes(i.arch) {
      LastOverrideAt(i.arch, ps, k);
    }
    if forall b | b in ps :: b !in SegmentBytes(i.arch) { NoOverride(i.arch, ps); }
    if k < |ps| && (ps[k] == 0xF2 || ps[k] == 0xF3) && forall j | k < j < |ps| :: ps[j] != 0xF2 && ps[j] != 0xF3 {
      LastRepeatAt(ps, k);
    }
    if 0xF2 !in ps && 0xF3 !in ps { NoRepeat(ps); }
  }
}
