# Models of Asmlib's kernels and of the mhook engine

Two parts of the repository promise something exact and earn it in ways that are hard to check by
reading: the arithmetic and memory kernels in `asmlibSrc`, and the function-hooking engine in
`tmemutil-3rd/src/mhook-lib` with the instruction decoder it rests on. This project models both and
proves those promises.

**Division by invariant integers** (Granlund and Montgomery, PLDI 1994). `setdivisor*` turns a divisor
into a multiplier and shift counts, `dividefixed*` divides with them. `InvariantDivision` is the
mathematics for an arbitrary word size n; `FixedDivisor` is the two scalar files register by register,
with masked shift counts, faulting `div` and wrap-around; `VectorDivision` is the vector files lane by
lane. All statements hold for every n, and are instantiated for the 16- and 32-bit code. The result is
exact for every dividend and every divisor the code accepts, and exactly the other divisors fault.

**memcpy and memset.** `Memcpy` and `MemcpyVersions` follow the four versions of `A_memcpy` block by
block, including reads of whole 16-byte blocks around a misaligned source and the backward path; all
refine one plain byte copy. A load that must be aligned has that as its precondition, together with
holding at least one source byte. `Memset` is the same for `A_memset` and its overlapping stores.

**Decoding.** `X86` says what the bytes of an instruction mean for its length and displacement, with the
opcode tables as a parameter; `PrefixScan`, `OperandDecoding` and `InstructionDecoding` are the decoder's
own step-by-step code, proved against it; `EncodingLengths` says what lengths, sizes and displacements come
out in the numbers of the Intel SDM, without the decoder's tables of prefixes and sizes; `DecodeLocality`
shows that an instruction decodes the same wherever its bytes lie, and when the decoder gives it its true
length.

**Hooking** (64-bit). `CodeMemory` writes and follows jumps. `Processor` says what an executed instruction
does, told from opcode, ModRM and operands and not from what the scan makes of it: whether it passes control
on, and the absolute address it names. `Relocation` chooses and moves a function's first instructions,
`Trampoline` shows that the allocation window makes everything in the trampoline reach, `BlockSearch` and
`TrampolineList` allocate trampolines and keep the two linked lists, `ThreadSuspension` stops and resumes
threads, and `HookEngine` puts SetHook and Unhook together over the invariant of `HookedCode`: code is the
original except where active hooks patched it, and every trampoline runs like the code it replaces. Code
runs as the processor delimits instructions, not as the decoder does. `ConcreteCode` holds functions with
known bytes, and `FirstHook` hooks and unhooks one of them from an empty process, so the hypotheses below
can all be met at once.

Hypotheses, each a precondition of the members that need it:

- The NDEBUG build: the assertion in `ListRemove` (tmemutil-3rd/src/mhook-lib/mhook.c:133) reads
  through the new head, which may be NULL.
- SetHook allocates a block only when the free list is empty (or no block is to be had):
  `TrampolineList.Pool.MayAllocate`. `BlockAlloc` never sets the old head's back link
  (tmemutil-3rd/src/mhook-lib/mhook.c:311); `TrampolineList.Pool.TrampolineAlloc`, which does not assume it,
  leaves both lists doubly linked if and only if it holds.
- The first instructions of a hooked function have their IP-relative displacement at the fourth byte
  (`Trampoline.ShortHeaders`), table rows like all of the decoder's (`DecodeLocality.Regular`) and their
  ModRM byte counted (`DecodeLocality.Counted`), and none is an interrupt return; this is asked of the scanned
  instructions only. The
  function lies with everything they name inside the address space, was not patched there before, and
  its instructions are no longer than the processor allows (`HookEngine.Engine.PrefixesFit`). Jump
  chains in front of function and hook end.
- Resuming a thread, and suspending again a thread just resumed, succeeds; other processes do not
  change suspend counts meanwhile. A thread snapshot lists the same threads in both passes.

Seven places where the code does not do what it is meant to do, each with the exact condition:

- The fix-up is written at offset 3 of the instruction. `FixupOffset.FixupKeepsIff`: right in every
  trampoline the allocator may return if and only if the displacement starts there; elsewhere it is wrong
  at every distance `FixupOffset.LosesElsewhere` names. `ConcreteCode.MovzxIsPatchedWrongly` is a `movzx`,
  which the tables file under ITYPE_MOV, spoilt in a trampoline within its window.
- SetHook hands back the trampoline's code but Unhook looks for the hook function, so
  `Mhook_Unhook` of the pointer SetHook stored, which is how tmemutil-3rd/src/safe_ex.c:446 calls it,
  succeeds only if that address is itself some active hook's function: `HookedCode.ReturnedPointerFinds`,
  `HookedCode.ReturnedPointerFails`.
- A directly called hook in the last five bytes of reach below the function takes a 14-byte jump:
  `Trampoline.PatchIsFiveBytes`; with fewer bytes saved unhooking then does not restore the code:
  `HookedCode.UnhookRestores`, and `HookedCode.UnhookLeavesJump` for such a function and hook.
- The scan is to stop at returns, but it goes past iret, sysret and sysexit, whose rows have types of their
  own (tmemutil-3rd/src/mhook-lib/disasm_x86_tables.h:400). `Relocation.AcceptedInstruction`: no other jump,
  call or return is accepted. `ConcreteCode.InterruptReturnIsAccepted` is a function that starts with one.
- Of a far pointer the decoder takes the first two bytes for the selector
  (tmemutil-3rd/src/mhook-lib/disasm_x86.c:3640-3645), where the processor has the offset.
  `EncodingLengths.FarOffsetIff`: the offset is right if and only if each of its bytes equals the second next.
- `ApplyDisplacement` with 32-bit operands gives the full address if and only if the displacement is not
  negative: `OperandDecoding.ApplyDisplacementExact32`; modulo 2^32 it is always right.
- The decoder does not count the ModRM byte of lfence, mfence and sfence
  (tmemutil-3rd/src/mhook-lib/disasm_x86_tables.h:1027-1029). `DecodeLocality.LengthIsTrueIff`: a length is
  right if and only if that byte is counted or absent, and otherwise short by it and the bytes it
  announces. `Relocation.BoundariesAreTrueIff`: the scan, which is
  to end on an instruction boundary always, does so at every minimum length if and only if that holds of
  all the prefix's instructions. `ConcreteCode.ScanStopsInsideFence` and
  `ConcreteCode.TrampolineSwallowsJump`: a function on which it stops inside an sfence, and whose
  trampoline then executes the opcode of its own jump back as the fence's ModRM byte.

## Model

| member | source | states |
|---|---|---|
| InvariantDivision.UnsignedDivisionExact | asmlibSrc/divfixedi64.asm:24-34 | multiply, subtract, shift, add, shift in n-bit registers gives floor(x/d), for every n, every 1 <= d < 2^n and every x < 2^n |
| InvariantDivision.UnsignedMultiplierFits | asmlibSrc/divfixedi64.asm:24-34 | the multiplier fits n bits and the high half of the dividend is below d, so `div` cannot overflow |
| InvariantDivision.UnsignedSum | asmlibSrc/divfixedi64.asm:24-34 | x plus its high product, shifted right by L, is floor(x/d) |
| InvariantDivision.MultiplierBound | asmlibSrc/divfixedi64.asm:24-46 | a multiplier exceeding 2^l/d by little enough divides exactly: the bound of Granlund and Montgomery |
| InvariantDivision.SignedDivisionExact | asmlibSrc/divfixedi64.asm:36-46 | the signed form gives x/d truncated toward zero, for every 1 <= d < 2^(n-1) and every n-bit signed x |
| InvariantDivision.SignedMultiplierFits | asmlibSrc/divfixedi64.asm:36-46 | cut to n bits, the signed multiplier reads as itself minus 2^n when d >= 2: a negative number |
| InvariantDivision.SignedBound | asmlibSrc/divfixedi64.asm:36-46 | the floor of the signed product, corrected by the sign, truncates toward zero |
| InvariantDivision.UnsignedInUse | asmlibSrc/divfixedv32.asm:155-217 | so division of every uint16_t and uint32_t by every nonzero divisor is exact |
| InvariantDivision.SignedInUse | asmlibSrc/divfixedv32.asm:81-142 | so division of every int16_t and int32_t by every positive divisor truncates exactly |
| FixedDivisor.OverflowFix | asmlibSrc/divfixedi32.asm:115-120 | the masked 32-bit shift repaired by cmp/adc equals the low half of the 64-bit shift: 2^L, or 0 when L = n |
| FixedDivisor.SetDivisorUnsigned | asmlibSrc/divfixedi32.asm:108-137 | faults exactly for d = 0; otherwise the buffer divides every x by d |
| FixedDivisor.SetDivisorUnsignedWide | asmlibSrc/divfixedi64.asm:125-152 | the same for the 64-bit code |
| FixedDivisor.StoreUnsigned | asmlibSrc/divfixedi64.asm:138-152 | the shared tail: div, inc, and the two shift counts packed into one word |
| FixedDivisor.DivisionFits | asmlibSrc/divfixedi64.asm:137-140 | for d > 0 the `div` neither faults nor loses bits, and inc does not wrap |
| FixedDivisor.DividesExactly | asmlibSrc/divfixedi32.asm:141-152 | the register code of dividefixedu32 on that buffer returns x / d for all x |
| FixedDivisor.SetDivisorSigned | asmlibSrc/divfixedi32.asm:57-83 | faults exactly for d <= 0; otherwise the buffer divides every signed x by d |
| FixedDivisor.DividesExactlySigned | asmlibSrc/divfixedi32.asm:89-101 | the register code of dividefixedi32 returns x / d truncated, for all signed x |
| FixedDivisor.SameRegisters | asmlibSrc/divfixedi64.asm:104-118 | masking, arithmetic shift and subtracting the sign bit compute the signed formula |
| VectorDivision.SetDivisorUnsignedV | asmlibSrc/divfixedv32.asm:155-199 | every lane gets the unsigned multiplier and counts; faults exactly for d = 0 |
| VectorDivision.SetDivisorSignedV | asmlibSrc/divfixedv32.asm:81-125 | every lane gets the signed multiplier and count; faults exactly for d <= 0 |
| VectorDivision.EachLaneUnsigned | asmlibSrc/divfixedv32.asm:207-217 | each of the eight lanes holds x[i] / d |
| VectorDivision.EachLaneSigned | asmlibSrc/divfixedv32.asm:133-142 | each lane holds x[i] / d truncated toward zero |
| VectorDivision.InterleavesHighHalves | asmlibSrc/divfixedv32.asm:300-311 | two even-lane multiplications, shifted, masked and combined, give all four high products |
| VectorDivision.VersionsAgree | asmlibSrc/divfixedv32.asm:300-355 | the SSE4.1 interleaving equals the four separate multiplications of the SSE2 code |
| VectorDivision.DivideV4SignedSSE2 | asmlibSrc/divfixedv32.asm:322-355 | the stack-array loop of multiplications gives the quotients |
| VectorDivision.UnsignedInterleaveAgrees | asmlibSrc/divfixedv64.asm:468-495 | the unsigned interleaving equals the lane-by-lane division |
| VectorDivision.EachOfFourUnsigned | asmlibSrc/divfixedv64.asm:468-495 | each of the four unsigned lanes holds x[i] / d |
| VectorDivision.Dispatcher.Divide | asmlibSrc/divfixedv32.asm:288-396 | whatever version the first call selects, the result is the vector of quotients |
| Memcpy.JoinBlocks | asmlibSrc/memcpy32.asm:634-689 | shifting two blocks by u and 16-u bytes and or-ing them, or palignr, is the 16-byte window at u |
| Memcpy.JoinByShuffle | asmlibSrc/memcpy32.asm:691-780 | movss/movsd and one shuffle make the windows at 4 and 8 |
| Memcpy.JoinByRotation | asmlibSrc/memcpy32.asm:782-825 | blocks rotated once and merged by movss make the window at 12 |
| Memcpy.WindowIsNext | asmlibSrc/memcpy32.asm:643-689 | the window over two neighbouring source blocks is the next 16 source bytes, and the second block supplies what follows |
| Memcpy.GetAligned | asmlibSrc/memcpy32.asm:210-221 | an aligned block holding at least one source byte is inside memory and shows the original source bytes from the copied part on |
| Memcpy.Small | asmlibSrc/memcpy32.asm:106-166 | counts below 64, in blocks and halving pieces, are a plain copy |
| Memcpy.AlignDest | asmlibSrc/memcpy32.asm:169-210 | the leading pieces selected by bits of -dest align the destination and are copied |
| Memcpy.Tail | asmlibSrc/memcpy32.asm:432-457 | the pieces of 8, 4, 2 and 1 copy the last 0 to 15 bytes |
| Memcpy.CopyAligned | asmlibSrc/memcpy32.asm:409-457 | the loop for equal alignment completes the copy |
| Memcpy.CopyMerging | asmlibSrc/memcpy32.asm:634-689 | the shift-merge loop, which loads ahead of its stores, completes the copy at every misalignment |
| Memcpy.CopyShuffling | asmlibSrc/memcpy32.asm:691-780 | so does the shuffling loop, which loads its second block after a store |
| Memcpy.CopyRotating | asmlibSrc/memcpy32.asm:782-825 | so does the loop carrying a rotated block from turn to turn |
| MemcpyVersions.CopyBackward | asmlibSrc/memcpy32.asm:613-627 | copying blocks last to first is a plain copy when the distance is at least the size |
| MemcpyVersions.DistanceIsSafe | asmlibSrc/memcpy32.asm:589-600 | the 32-bit absolute difference never exceeds the true distance |
| MemcpyVersions.MemcpySSE2 | asmlibSrc/memcpy32.asm:106-258 | the memory after the call is that of a plain byte copy |
| MemcpyVersions.MemcpySSSE3 | asmlibSrc/memcpy32.asm:262-407 | the same |
| MemcpyVersions.MemcpyU | asmlibSrc/memcpy32.asm:462-627 | the same, whether it runs forwards or backwards |
| MemcpyVersions.Memcpy386 | asmlibSrc/memcpy32.asm:986-1014 | the same for the string-instruction version |
| MemcpyVersions.MemcpyRoutine.Copy | asmlibSrc/memcpy32.asm:1018-1075 | whichever version the CPU selects, and whatever the cache limit, the call is a plain copy |
| MemcpyVersions.MemcpyRoutine.GetMemcpyCacheLimit | asmlibSrc/memcpy32.asm:1079-1099 | half the largest cache, or 4 MB without one; never zero and computed once |
| Memset.SmallFill | asmlibSrc/memset64.asm:70-97 | each of the 17 entry points falls through stores that fill exactly count bytes |
| Memset.ReachCovers | asmlibSrc/memset64.asm:104-144 | head, regular part and last 16 bytes leave no gap and nothing outside |
| Memset.MemsetRoutine.Memset | asmlibSrc/memset64.asm:60-194 | exactly [dest, dest+count) is filled, dest is returned, and the retry through the cache limit ends |
| Memset.MemsetRoutine.GetMemsetCacheLimit | asmlibSrc/memset64.asm:197-212 | half the largest cache, or 4 MB without one; never zero, which is what ends the retry |
| X86.Prefixes | tmemutil-3rd/src/mhook-lib/disasm_x86.c:1010-1209 | the prefix list never exceeds 15 and stops at a byte that is no prefix and no misplaced REX |
| EncodingLengths.HeaderIsLongestRun | tmemutil-3rd/src/mhook-lib/disasm_x86.c:1010-1259 | the header read is the longest run of the eleven prefix bytes, a REX in front of one skipped, and the REX behind it; none if and only if there are more than fifteen |
| EncodingLengths.SizesOf | tmemutil-3rd/src/mhook-lib/disasm_x86.c:1061-1110 | 67H gives addresses of 4 bytes in 64-bit mode, 2 in 32-bit and 4 in 16-bit mode; 66H operands of 2 bytes, in 16-bit mode 4; REX.W of 8; rows that default to 64 bits or fix the size follow |
| EncodingLengths.ImmediateLengths | tmemutil-3rd/src/mhook-lib/disasm_x86.c:3236-3288 | immediates and branch offsets of types b, w, d, q take 1, 2, 4, 8 bytes, of type z 2, 4, 4 and of type v 2, 4, 8 by operand size; an offset without ModRM the address size; a far pointer 4 or 6 |
| EncodingLengths.MemoryLengths | tmemutil-3rd/src/mhook-lib/disasm_x86.c:4118-4536 | the bytes behind each ModRM byte in 16-, 32- and 64-bit addressing, and which register operands there are |
| EncodingLengths.MemoryDisplacements | tmemutil-3rd/src/mhook-lib/disasm_x86.c:4118-4536 | which bytes behind ModRM and SIB are the displacement, and how wide |
| EncodingLengths.OtherDisplacements | tmemutil-3rd/src/mhook-lib/disasm_x86.c:3539-3630 | a branch offset is a signed displacement, an offset without ModRM an unsigned one |
| EncodingLengths.FarOffsetIff | tmemutil-3rd/src/mhook-lib/disasm_x86.c:3637-3646 | the decoder has a far pointer's offset right if and only if each of its bytes equals the second next |
| EncodingLengths.LengthIsSum | tmemutil-3rd/src/mhook-lib/disasm_x86.c:973-1828 | a decoded length is header, opcode of one byte or two behind 0FH, the ModRM byte when there are operands or the row is special, and the operands |
| EncodingLengths.MemoryAndImmediate | tmemutil-3rd/src/mhook-lib/disasm_x86.c:3275-3284 | so a row E v, I z has, behind ModRM, the bytes that byte announces and 2, 4 or 4 more |
| EncodingLengths.UncountedLengths | tmemutil-3rd/src/mhook-lib/disasm_x86.c:1819-1828 | the lengths, decoded and true, of an instruction whose ModRM byte is not counted |
| PrefixScan.FlagsFollowPrefixes | tmemutil-3rd/src/mhook-lib/disasm_x86.c:1040-1181 | the last repeat prefix and the last segment override the mode honours decide; lock is set by F0H |
| PrefixScan.PrefixTurn | tmemutil-3rd/src/mhook-lib/disasm_x86.c:1010-1029 | a skipped REX is followed by a prefix, so the lexicographic measure falls |
| PrefixScan.Instruction.Accept | tmemutil-3rd/src/mhook-lib/disasm_x86.c:1185-1202 | a prefix is stored inside Prefixes or the scan gives up; the assertion on its count holds |
| PrefixScan.Instruction.Scan | tmemutil-3rd/src/mhook-lib/disasm_x86.c:1010-1259 | ends on every byte stream, succeeds exactly when there is a header, and leaves sizes, repeat flags and segment in the normal form of its prefixes |
| OperandDecoding.OperandDecoder.SetModRM16 | tmemutil-3rd/src/mhook-lib/disasm_x86.c:4118-4242 | Address and Length advance by the bytes of Table 2-1, and the displacement read is theirs |
| OperandDecoding.OperandDecoder.SetSIB | tmemutil-3rd/src/mhook-lib/disasm_x86.c:4441-4536 | the SIB byte and, with base 5, its displacement |
| OperandDecoding.OperandDecoder.SetModRM32 | tmemutil-3rd/src/mhook-lib/disasm_x86.c:4245-4438 | Address and Length advance by the bytes of Tables 2-2 and 2-3; an IP-relative target uses the look-ahead |
| OperandDecoding.OperandDecoder.SetOperands | tmemutil-3rd/src/mhook-lib/disasm_x86.c:2534-4115 | Address stays the instruction's address plus Length; for every IP-relative memory operand of a row like the decoder's, the target is, modulo the operand size, the end of the instruction plus the displacement (Intel SDM Vol. 2A section 2.2.1.6) |
| OperandDecoding.LookAheadAgrees | tmemutil-3rd/src/mhook-lib/disasm_x86.c:4283-4347 | the guessed immediate size equals the bytes the remaining operands then consume |
| OperandDecoding.LookAheadKnowsFourTypes | tmemutil-3rd/src/mhook-lib/disasm_x86.c:4314-4343 | for one following immediate it is right if and only if the type is b, w, z or v; the rows with a memory operand use b and z only |
| OperandDecoding.ApplyDisplacementCongruent | tmemutil-3rd/src/mhook-lib/disasm_x86.c:4571-4606 | in all three widths the result is address plus displacement modulo the operand size |
| OperandDecoding.ApplyDisplacementExact32 | tmemutil-3rd/src/mhook-lib/disasm_x86.c:4588-4593 | with 32-bit operands the 64-bit result is right if and only if the displacement is not negative |
| InstructionDecoding.GetInstruction | tmemutil-3rd/src/mhook-lib/disasm_x86.c:973-1828 | scan, table lookup and operands together compute exactly the instruction the other statements are about, its operand size following from the prefixes, REX and the row; its reported IP-relative target is, modulo the operand size, the end of the instruction plus the displacement |
| InstructionDecoding.PatchableHasRexW | tmemutil-3rd/src/mhook-lib/disasm_x86.c:1236-1243 | a row with the usual size rule has 64-bit operands if and only if REX.W is set |
| DecodeLocality.LengthIsTrueIff | tmemutil-3rd/src/mhook-lib/disasm_x86.c:1819-1828 | the decoded length is the true one if and only if the opcode has no ModRM byte or it is counted; otherwise it is short by that byte and the SIB and displacement bytes it announces |
| DecodeLocality.FlagsOf | tmemutil-3rd/src/mhook-lib/disasm_x86.c:4279-4302 | the operands flagged IP-relative are the branch operands and the memory operands under a ModRM byte with mod 0 and rm 5 |
| DecodeLocality.CopiedInstruction | tmemutil-3rd/src/mhook-lib/disasm_x86.c:973-1828 | an instruction whose ModRM byte is counted decodes the same, for decoder and processor, wherever its bytes are copied |
| DecodeLocality.PatchedInstruction | tmemutil-3rd/src/mhook-lib/mhook.c:647-663 | with other bytes from its displacement field on, a patchable instruction decodes to the displacement now there and is otherwise the same; that field is the one the processor reads its address from |
| CodeMemory.CodeSpace.EmitJump | tmemutil-3rd/src/mhook-lib/mhook.c:226-255 | writes exactly the bytes of the short or the indirect jump and returns their end |
| CodeMemory.EmittedJumpIsFollowed | tmemutil-3rd/src/mhook-lib/mhook.c:187-211 | in both modes and both forms the written jump is followed to its target |
| CodeMemory.SkipJumpsUndoesEmitJump | tmemutil-3rd/src/mhook-lib/mhook.c:175-255 | after EmitJump(p, t), following jumps from p leads where following them from t leads |
| CodeMemory.FuelIrrelevant | tmemutil-3rd/src/mhook-lib/mhook.c:175-216 | the end of an acyclic chain does not depend on the depth allowed |
| CodeMemory.ShortJump | tmemutil-3rd/src/mhook-lib/mhook.c:209-211 | EB and a one-byte offset from its end lead to the target |
| CodeMemory.LongJump | tmemutil-3rd/src/mhook-lib/mhook.c:205-208 | E9 and a four-byte offset from its end lead to the target |
| CodeMemory.IndirectJump | tmemutil-3rd/src/mhook-lib/mhook.c:193-203 | in 64-bit mode FF 25, behind a REX.W or not, leads through the pointer at its offset |
| CodeMemory.IndirectJump32 | tmemutil-3rd/src/mhook-lib/mhook.c:187-192 | in 32-bit mode FF 25 leads through the pointer at its address |
| CodeMemory.IdiomIsSkipped | tmemutil-3rd/src/mhook-lib/mhook.c:178-186 | mov edi,edi, the collapsed stack frame, or both, in front of a jump lead where it leads |
| CodeMemory.NoOtherJump | tmemutil-3rd/src/mhook-lib/mhook.c:187-215 | nothing else is followed: there is a step if and only if one of these byte patterns stands there |
| CodeMemory.ChainStep | tmemutil-3rd/src/mhook-lib/mhook.c:175-216 | a place without such a pattern is its own end, and a jump's chain ends where its target's does |
| CodeMemory.ChainEndIsCode | tmemutil-3rd/src/mhook-lib/mhook.c:215 | at the address SkipJumps returns none of these byte patterns stands, with or without an idiom in front |
| Relocation.DisassembleAndSkip | tmemutil-3rd/src/mhook-lib/mhook.c:616-723 | reaching the minimum, it counted whole accepted instructions with exactly their fix-ups and limits; otherwise no usable prefix exists |
| Relocation.JudgeIs | tmemutil-3rd/src/mhook-lib/mhook.c:640-693 | an instruction is accepted if and only if its type goes on behind itself and it has no operand relative to its own address unless it is a MOV or LEA with two 64-bit operands; patched are exactly those of them that name such an address |
| Relocation.AcceptedIff | tmemutil-3rd/src/mhook-lib/mhook.c:635-717 | a stretch is accepted if and only if that holds of all its instructions |
| Relocation.AcceptedInstruction | tmemutil-3rd/src/mhook-lib/mhook.c:610-614 | in an accepted stretch no jump, call or return is found by opcode and ModRM other than interrupt returns, and an instruction naming an address relative to its own is a MOV or LEA with two 64-bit operands |
| Relocation.BoundariesAreTrueIff | tmemutil-3rd/src/mhook-lib/mhook.c:610-613 | whatever the minimum length, the scan of an accepted prefix stops on a true instruction boundary, if and only if all its instructions have their ModRM byte counted |
| Relocation.LastBoundaryIsTrueIff | tmemutil-3rd/src/mhook-lib/mhook.c:715-716 | a prefix counted up to its last instruction ends on a true boundary if and only if that one is counted too |
| Relocation.PrefixSplits | tmemutil-3rd/src/mhook-lib/mhook.c:635-717 | instruction boundaries are unique: a longer accepted prefix continues the shorter one |
| Relocation.NoLongerPrefix | tmemutil-3rd/src/mhook-lib/mhook.c:635-713 | stopping early loses nothing: no accepted prefix reaches further with at most four fix-ups |
| Relocation.LimitsBracket | tmemutil-3rd/src/mhook-lib/mhook.c:696-702 | the two limits bracket zero and every displacement seen from the function start, and each is zero or one of these |
| Relocation.FixupIPRelativeAddressing | tmemutil-3rd/src/mhook-lib/mhook.c:592-607 | every recorded displacement is rewritten to displacement minus distance, nothing else |
| Relocation.FixedIsRelocated | tmemutil-3rd/src/mhook-lib/mhook.c:592-607 | a byte-for-byte copy of an accepted prefix, once fixed up, is a relocation of it |
| Relocation.RelocatedRun | tmemutil-3rd/src/mhook-lib/mhook.c:763-775 | relocated instructions have the same effects on the same absolute addresses, one by one, and none passes control on; an effect has an address whenever the processor finds one relative to the instruction |
| Trampoline.WindowIsReach | tmemutil-3rd/src/mhook-lib/mhook.c:357-364 | the window is exactly the addresses above 64 KB less than 7FFF0000H below the upper limit and less than 7FF80000H above the lower one, short of the last 512 KB |
| Trampoline.WindowSuffices | tmemutil-3rd/src/mhook-lib/mhook.c:353-369 | anywhere strictly inside the bounds every fixed displacement fits 32 bits and the jumps back and to the stub are near |
| Trampoline.AllFixable | tmemutil-3rd/src/mhook-lib/mhook.c:695-707 | so all fix-ups of an accepted prefix fit |
| Trampoline.PatchIsFiveBytes | tmemutil-3rd/src/mhook-lib/mhook.c:777-803 | the patch of the API is five bytes if and only if the hook is not called directly from the last five bytes of reach below it |
| Trampoline.BufferSuffices | tmemutil-3rd/src/mhook-lib/mhook.c:763-771 | prefix and jump back take at most 24 of the 32 bytes |
| Trampoline.TrampolineRunsLikeOriginal | tmemutil-3rd/src/mhook-lib/mhook.c:763-775 | running the fixed-up trampoline has the effects of the copied prefix and ends at the first byte not copied |
| FixupOffset.FixupKeepsIff | tmemutil-3rd/src/mhook-lib/mhook.c:704-707 | a patchable instruction survives the fix-up in every trampoline of its window that does not overlap it if and only if its displacement is at offset 3 |
| FixupOffset.LosesElsewhere | tmemutil-3rd/src/mhook-lib/mhook.c:704-707 | with the displacement elsewhere it does not survive at any distance that changes the fourth byte, or, for a displacement before it, that is no multiple of 256 |
| ConcreteCode.MovzxIsPatchedWrongly | tmemutil-3rd/src/mhook-lib/disasm_x86_tables.h:639 | a concrete movzx is accepted for patching and comes out wrong in a trampoline within its allocation window |
| ConcreteCode.LoadIsRelocatable | tmemutil-3rd/src/mhook-lib/mhook.c:647-654 | a function starting with a 64-bit load from a RIP-relative address meets every hypothesis of the relocation, with one fix-up |
| ConcreteCode.CompareIsRefused | tmemutil-3rd/src/mhook-lib/mhook.c:666-693 | a function starting with a compare against a RIP-relative operand has no usable first instructions |
| ConcreteCode.ReturnIsRefused | tmemutil-3rd/src/mhook-lib/mhook.c:640 | nor has one starting with a return |
| ConcreteCode.InterruptReturnIsAccepted | tmemutil-3rd/src/mhook-lib/disasm_x86_tables.h:400 | one starting with an interrupt return has |
| ConcreteCode.SubHasSevenBytes | tmemutil-3rd/src/mhook-lib/disasm_x86.c:3277-3284 | sub rsp, 0x100 decodes to seven bytes |
| ConcreteCode.LeaHasFiveBytes | tmemutil-3rd/src/mhook-lib/disasm_x86.c:1098-1102 | lea eax, [esp+4] behind 67H decodes to five bytes, with its displacement |
| ConcreteCode.GsLoadHasEightBytes | tmemutil-3rd/src/mhook-lib/disasm_x86.c:1111-1181 | a load behind a GS override decodes to eight bytes |
| ConcreteCode.ScanStopsInsideFence | tmemutil-3rd/src/mhook-lib/disasm_x86_tables.h:1027-1029 | push, nop, nop, sfence: the scan accepts five bytes without fix-ups and stops inside the fence |
| ConcreteCode.DecoderRegainsStep | tmemutil-3rd/src/mhook-lib/disasm_x86_tables.h:1027-1029 | sfence, nop: after a false boundary inside the fence the decoder reaches a true one, so the condition on every instruction is about all boundaries, not the last alone |
| ConcreteCode.TrampolineSwallowsJump | tmemutil-3rd/src/mhook-lib/mhook.c:765-771 | in every trampoline of that function within reach, the fourth instruction executed is another fence, made of the jump back's opcode |
| BlockSearch.SpiralOrder | tmemutil-3rd/src/mhook-lib/mhook.c:284-319 | no place is tried twice and none before a nearer one |
| BlockSearch.EveryPlaceComes | tmemutil-3rd/src/mhook-lib/mhook.c:316-318 | every granule has its turn: the z-th below the guess is number 2z - 1, the z-th above it number 2z |
| BlockSearch.SearchBlock | tmemutil-3rd/src/mhook-lib/mhook.c:284-321 | for any bounds the search ends, after tries bounded by the window; a block is strictly inside the bounds; pointer wrap never lets it miss the end |
| BlockSearch.NothingNearer | tmemutil-3rd/src/mhook-lib/mhook.c:284-319 | every granule strictly nearer than where the search ended was in bounds and rejected |
| TrampolineList.ListRemove | tmemutil-3rd/src/mhook-lib/mhook.c:122-138 | the list without the node is linked again under the returned head, doubly, or but for the back link that was missing before; the node's links are NULL |
| TrampolineList.SkippedIsLinked | tmemutil-3rd/src/mhook-lib/mhook.c:123-134 | links that skip a node are exactly the links of the list without it |
| TrampolineList.ListPrepend | tmemutil-3rd/src/mhook-lib/mhook.c:146-153 | the list with the node in front is doubly linked |
| TrampolineList.ChainBlock | tmemutil-3rd/src/mhook-lib/mhook.c:298-311 | a new block's trampolines are linked in address order in front of the old head |
| TrampolineList.BackLinkMissing | tmemutil-3rd/src/mhook-lib/mhook.c:311 | the chain in front of a doubly linked list is doubly linked if and only if that list was empty |
| TrampolineList.Pool.FindTrampolineInRange | tmemutil-3rd/src/mhook-lib/mhook.c:329-345 | takes the first free trampoline strictly inside the range, or none is there |
| TrampolineList.Pool.BlockAlloc | tmemutil-3rd/src/mhook-lib/mhook.c:273-322 | the new trampolines lie in a granted block, overlap nothing and have no function |
| TrampolineList.Pool.TrampolineAlloc | tmemutil-3rd/src/mhook-lib/mhook.c:353-383 | keeps the partition into free, hooked and abandoned; takes the first free trampoline in the window, else one of a new block whose others go in front of what was free; it has no function yet; fails only if no free one is in the window and no block is to be had; both lists are doubly linked afterwards if and only if no block was chained in front of free trampolines |
| TrampolineList.Pool.TrampolineGet | tmemutil-3rd/src/mhook-lib/mhook.c:390-402 | the first hook with this hook function, or none has it |
| TrampolineList.Pool.TrampolineFree | tmemutil-3rd/src/mhook-lib/mhook.c:409-421 | a never used trampoline becomes free again, a used one is abandoned; both lists stay linked |
| ThreadSuspension.SuspendOneThread | tmemutil-3rd/src/mhook-lib/mhook.c:429-476 | a good handle comes exactly if the thread can be opened and suspended and one of four looks finds it outside the range or unreadable; it is then suspended once more, otherwise nothing has changed |
| ThreadSuspension.LookUntilAway | tmemutil-3rd/src/mhook-lib/mhook.c:439-468 | the loop ends after at most four looks, keeps the thread suspended exactly if one of them allows it, and otherwise has undone its suspension and closed the handle |
| ThreadSuspension.FirstAwayIsFirst | tmemutil-3rd/src/mhook-lib/mhook.c:439-467 | the look recorded is the first of the four that was away |
| ThreadSuspension.OthersArePicked | tmemutil-3rd/src/mhook-lib/mhook.c:547-577 | the threads asked for are the snapshot's entries of this process but the calling thread's, each once and in order |
| ThreadSuspension.KeptAreHoldable | tmemutil-3rd/src/mhook-lib/mhook.c:429-476 | the threads held are those of them that open and suspend and of which one of four looks is below the range, from its end on, or fails |
| ThreadSuspension.KeptWhereSeen | tmemutil-3rd/src/mhook-lib/mhook.c:439-467 | every thread kept is an entry of the snapshot, and its recorded instruction pointer is the first of Windows' answers about that entry that is outside the range or unreadable |
| ThreadSuspension.Suspender.SuspendOtherThreads | tmemutil-3rd/src/mhook-lib/mhook.c:507-587 | every other thread is asked for once and exactly those that can be kept are held, each with the look that let it be kept; the calling thread is never asked for and its suspend count stays; the handle array is never overrun and holds exactly what was opened; fails exactly without snapshot, other threads or memory, and then holds nothing |
| ThreadSuspension.Suspender.ResumeOtherThreads | tmemutil-3rd/src/mhook-lib/mhook.c:483-499 | each handle is closed once, and all suspend counts and handles are as before the suspension |
| ThreadSuspension.HoldOneMore | tmemutil-3rd/src/mhook-lib/mhook.c:550-553 | one more suspended thread keeps the balance of handles and counts |
| ThreadSuspension.ReleaseFirst | tmemutil-3rd/src/mhook-lib/mhook.c:489-493 | so does resuming and closing one |
| HookedCode.EveryRunKeepsCode | tmemutil-3rd/src/mhook-lib/mhook.c:726-884 | over every run of calls code is the original outside trampolines and active patches, and the original everywhere once no hook is left |
| HookedCode.InstallPatch | tmemutil-3rd/src/mhook-lib/mhook.c:766-803 | a disjoint hook whose jump fits the saved bytes keeps that invariant |
| HookedCode.RemovePatch | tmemutil-3rd/src/mhook-lib/mhook.c:862-865 | so does unhooking any active hook, in any order |
| HookedCode.UnhookRestoresIff | tmemutil-3rd/src/mhook-lib/mhook.c:863-865 | writing n saved bytes back undoes a jump on all code if and only if the jump has at most n bytes |
| HookedCode.UnhookRestores | tmemutil-3rd/src/mhook-lib/mhook.c:777-803 | unhooking restores the function if and only if not both a hook in the last five bytes of reach and fewer than 14 bytes saved |
| HookedCode.UnhookLeavesJump | tmemutil-3rd/src/mhook-lib/mhook.c:777-803 | a function, hook and trampoline for which the patch takes 14 bytes and five saved bytes do not restore the code |
| HookedCode.HookedCallReachesHook | tmemutil-3rd/src/mhook-lib/mhook.c:779-803 | while hooked, following jumps from the function leads where following them from the hook leads, directly or through the stub |
| HookedCode.TrampolineCallsOriginal | tmemutil-3rd/src/mhook-lib/mhook.c:763-775 | every active hook's trampoline has the effects of the original prefix and continues in the original |
| HookedCode.HookInstalled | tmemutil-3rd/src/mhook-lib/mhook.c:763-808 | what SetHook writes keeps the code invariant and every trampoline's service |
| HookedCode.HookRemoved | tmemutil-3rd/src/mhook-lib/mhook.c:862-865 | so does what Unhook writes |
| HookedCode.HookIsCall | tmemutil-3rd/src/mhook-lib/mhook.c:763-808 | a successful SetHook is a step of the run above |
| HookedCode.LookupIsNewest | tmemutil-3rd/src/mhook-lib/mhook.c:390-402 | Unhook finds the newest hook with the given hook function, or none has it |
| HookedCode.ReturnedPointerFinds | tmemutil-3rd/src/mhook-lib/mhook.c:822-825 | the pointer SetHook hands back finds a hook if and only if it is some active hook's function; never while hook functions lie outside the trampolines |
| HookedCode.HookFunctionFinds | tmemutil-3rd/src/mhook-lib/mhook.c:849 | the hook function finds this hook if and only if no newer one shares it |
| HookedCode.ReturnedPointerFails | tmemutil-3rd/src/mhook-lib/mhook.c:825-849 | a hook that the pointer handed back does not find |
| HookEngine.TrampolineWritten | tmemutil-3rd/src/mhook-lib/mhook.c:763-775 | copy, jump back and fix-ups make the code buffer a relocation and touch nothing else |
| HookEngine.HookWritten | tmemutil-3rd/src/mhook-lib/mhook.c:777-803 | with stub and patch the hook is complete, and only trampoline and patch were written |
| HookEngine.Engine.WriteCode | tmemutil-3rd/src/mhook-lib/mhook.c:763-808 | the writes of SetHook in order do that |
| HookEngine.Engine.HookFunction | tmemutil-3rd/src/mhook-lib/mhook.c:746-832 | code is written only while every thread that can be kept away is suspended; the test on pSystemFunction tells exactly whether it was written; if not, the trampoline goes back and no byte has changed |
| HookEngine.Engine.Remove | tmemutil-3rd/src/mhook-lib/mhook.c:856-874 | with the threads held, the saved bytes go back, the trampoline is abandoned and the code invariant holds for the other hooks |
| HookEngine.FailedSearchEnds | tmemutil-3rd/src/mhook-lib/mhook.c:284-321 | a failed search rejected every granule nearer than one that is out of reach, in plain distances, or cannot be queried |
| HookEngine.Engine.SetHook | tmemutil-3rd/src/mhook-lib/mhook.c:726-840 | keeps the whole invariant; success means the new hook is complete, failure that no code byte changed, because a page was not writable, no usable prefix exists, or within the distances the chosen one allows no free trampoline lies and the search away from the function met a granule out of reach before one it could have; thread suspend counts are as before |
| HookEngine.Engine.Unhook | tmemutil-3rd/src/mhook-lib/mhook.c:843-884 | succeeds exactly if the lookup does and the page is writable; then that hook is gone, its bytes are back and the rest is untouched; otherwise nothing changes |
| FirstHook.HookAndUnhook | tmemutil-3rd/src/mhook-lib/mhook.c:726-884 | from an empty process, a function starting with a RIP-relative load is hooked and then unhooked with its hook function; both succeed and its code is back |

## Left out

- Opcode tables, mnemonics, operand printing, register numbers and FPU, SSE and 3DNow operand typing: an instruction is its prefixes, opcode bytes, ModRM form, operand kinds and type; what the tables say is a parameter.
- The 3DNow suffix path, which decodes operands twice, and three-byte opcodes.
- Trampoline.TrampolineRunsLikeOriginal: does not cover a prefix with a fence in its middle behind which the decoder falls into step again (`ConcreteCode.DecoderRegainsStep`); the bytes copied are then right although the instructions seen are not.
- Relocation on 32-bit x86, where IP-relative operands are not looked at; LOOPcc is rejected only by the 64-bit checks.
- Where jumps, calls and returns lead, but for E9: a run does not get past them. Interrupts and system calls count as going on behind themselves.
- What an executed instruction does beyond its bytes and the address it names: an effect records these and nothing of registers or data.
- VirtualQuery, VirtualAlloc, VirtualProtect, the toolhelp snapshot, GetThreadContext and the thread calls: arbitrary answers under the stated hypotheses. Restoring page protection, FlushInstructionCache, thread priorities, Sleep, the critical section and closing the snapshot handle do nothing here.
- The counter g_nHooksInUse, which is only ever decremented.
- codeUntouched as part of the trampoline's own memory: it is a field, since nothing but SetHook writes it.
- BlockSearch.SearchBlock: loopCount is unbounded, because the bound it states on the tries keeps the C int from overflowing in TrampolineAlloc's window of 4 GB.
- Timing, caches, non-temporal ordering, and how the CPU type and cache size are found: the chosen version and the limit are arbitrary inputs.
- VectorDivision.DivideV4Unsigned: a vector is a sequence of n-bit lanes; the 16-byte memory layout of the buffer is not modelled.
- memmove, the other Asmlib routines, and the library's INI, file, registry, window and process plumbing.
