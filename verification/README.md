# The emulation core of Kamo64

Kamo64 is a Nintendo 64 emulator. Most of its core consists of pairs: a fast mechanism and a simple one that must
agree with it. This project models those pairs and proves that they agree, or exactly when they do.

| files | subject |
|---|---|
| `Common`, `Bits`, `ByteOrder` | pages, quotients, bitwise operators on integers, host-order and big-endian memory |
| `Tlb`, `TlbPages`, `SoftTlb`, `MmuUnit` | the TLB, which addresses its entries cover and what they answer, the two direct-mapped page caches in front of it, and the object that holds all three |
| `Timer`, `Cpu`, `CpuDevice`, `Interp` | COUNT and COMPARE, the instructions, the CPU as an object, the interpreter's step |
| `AluResults`, `MulDiv`, `BigEndian`, `Calls`, `Exceptions` | what instructions leave: bits and numbers, products and quotients, bytes in memory, calls and returns, exceptions |
| `X86`, `Emitter`, `Sra`, `EmitAlu`, `EmitBranch`, `EmitMem`, `EmitBlock`, `BlockSim` | a small x86 machine, the block compiler, and the proof that a compiled block is the interpreter |
| `VuLane`, `VuSimd`, `VuEqual`, `VuUnit`, `VuDevice`, `VuIdioms`, `VuResults` | the RSP vector unit, scalar and in 16-bit limbs, and what its instructions compute |
| `Scheduler`, `IdleSkip`, `RunLoop` | events, idle warps, and the two outer loops of the CPU |
| `Dpc`, `DpcCommands`, `Ai` | the RDP command parser, the commands it parses, and the audio DMA queue |
| `CodeCache`, `DecodeCache`, `RspMemory` | compiled blocks, decoded instructions, the RSP's decoded IMEM |
| `SpDma`, `SpDmaPlaces`, `Unaligned` | strided DMA between memories of different byte order, and unaligned loads and stores |
| `Crc32` | the ROM checksum |

Where the source computes, the model is a function. Where it updates an object or an array in place, the model is a
class or a method whose postcondition equates the new state with a function of the old one, and the properties are
lemmas about that function. Integer widths are explicit: a 64-bit register is an integer below 2^64, and every
wrap-around is a `%`.

## The main results

**A compiled block is the interpreter.** `BlockSim.BlockIsInterpreter`: for every list of operations without COP0 and
FPU operations, the instructions that `BlockCode` emits, run on the x86 machine, end in the state the interpreter
reaches in exactly as many steps as the block returns in `rax`: registers, HI/LO, the three program counters, the delay
flags, RDRAM and devices, the exception registers, COUNT and IP7, with the software TLB still coherent. It covers
blocks left early by a TLB exception or an annulled branch-likely, and the direct, software-TLB and helper path of every
load and store.

**Both vector paths are one.** `VuUnit.PathsEqual`: every program of vector instructions leaves the same registers,
accumulators, flags and divide latches on both paths, for all operands and all register aliasings.

**Chunks do not matter.** `Dpc.RunIsOneParseEach`: whatever the register writes, overflows and resets included, the
renderer gets the commands of the submitted words parsed as one stream between the points where words are thrown away;
`Dpc.RunIsOneParse` is the case where none are.

**A tick dispatches what is due.** `Scheduler.TickDispatchesDue`: whatever the callbacks schedule, every due timer is
dispatched exactly once, and a named slot fires exactly once when it is due and no callback before its turn cancels or
reschedules it, all in the order of the deadlines.

**Nothing stale is executed.** `SoftTlb.CacheIsTransparent`, `DecodeCache.FetchIsCurrent`, `RspMemory.FetchIsDecode` and
the methods of `CodeCache.CodeCache` say of all runs what a cache may not change.

**What both sides share is right.** Two mechanisms that agree could agree on a wrong value, so the definitions they share
are pinned by what they mean: `Calls.CallReturns` (a call comes back behind its delay slot),
`TlbPages.WrittenAnswers` and `TlbPages.WrittenCovers` (a written entry, in division and remainder),
`VuResults.TwoPartReciprocal` (a word's reciprocal through three instructions), `Timer.AddCountExact` (IP7 and the edge),
`DpcCommands.ParsesBack` (an encoder of RDP commands that knows no table of lengths), `VuResults.WordExtremum`,
`BigEndian.WriteIsBytes`, `AluResults.ShiftExact`, `Exceptions.LoadStoreException` and their neighbours.

## Where the code is narrower than its purpose

- TLBR copies an ASID into EntryHi and flushes nothing (src/mmu/tlb.cpp:122-133). The page caches stay coherent exactly
  when the ASID does not change: `SoftTlb.TlbrCoherentIffAsidKept`. Runs are therefore runs whose TLBRs keep it.
- MTC0 leaves bits 32 to 39 of EntryHi clear (src/cpu/cop0.cpp:121-132), and sign-extended addresses are compared in
  those bits too: an entry written with an address whose top bit is set matches nothing at all
  (`TlbPages.ShortEntryCovers`), unlike one written through DMTC0 or left by an exception (`TlbPages.EntryCovers`,
  `TlbPages.RefillCovers`).
- SRA and SRAV shift 64 bits in the interpreter and 32 in emitted code. They agree exactly when bits 32 to 31 + n equal
  bit 31: `Sra.SraAgreesIff`, `EmitAlu.ShiftAgreesIff`. `ShiftsExact` asks this of a block's shifts;
  `Sra.SignExtendedFills` gives it for every sign-extended word.
- Emitted code adds to COUNT once, at the end of the block. `Quiet` says that no interrupt becomes deliverable before;
  `BlockSim.MaskedIsQuiet` gives it when interrupts are masked at entry, `BlockSim.EnabledIsQuiet` when they are not but
  COUNT does not reach COMPARE and no device raises its line.
- A block may end with a delay slot on the next page; the interpreter translates that page's address.
  `Compiled` says that the interpreter would fetch the block's operations; `BlockSim.CompiledInPage` gives it for blocks
  within a page.
- The cheap reject of `Dynarec::invalidate_range` looks at the first page only, so it loses blocks exactly when a short
  store crosses into a page with code from a page without: `CodeCache.CheapRejectExact`.
- PI DMA wraps at the end of RDRAM but invalidates without wrapping. The decode cache stays right for all contents
  exactly when the copy does not wrap or starts on the first page: `DecodeCache.PiDmaCoherentIff`.
- A fetch at a misaligned address leaves its own bytes in the decode cache's slot of the aligned word. Fetches keep the
  cache right for all contents exactly at aligned addresses: `DecodeCache.FetchKeepsIffAligned`.
- PIPE_BUSY depends on how the command stream is cut, unlike the commands: `Dpc.PipeBusyByChunks` says when it does not.
- With no budget left an idle warp is not bounded by the budget (src/cpu/idle_skip.cpp:91): `IdleSkip.WarpLimits`. And
  when COUNT equals twice COMPARE with IP7 clear, the warp does not stop at the edge: `IdleSkip.NoEdgeInsideIff`.

## Model

| member | source | states |
|---|---|---|
| Tlb.ProbeByPage | src/mmu/tlb.cpp:145-216 | two addresses on one 4 KiB page hit the same entry and fail or succeed alike for every page mask, with physical addresses that differ as the virtual ones do |
| Tlb.WiredEntriesStay | src/mmu/tlb.cpp:77-92 | with Wired at most 31, TLBWR writes no entry below Wired |
| Tlb.RandomIndexAt | src/mmu/tlb.cpp:43-57 | the k-th of consecutive TLBWRs writes the k-th entry round the unwired ones |
| Tlb.RandomCoversUnwired | src/mmu/tlb.cpp:43-57 | any 32 - Wired consecutive TLBWRs write every unwired entry, none of them twice |
| Tlb.PairMaskBits | src/mmu/tlb.cpp:94-100 | the shift-and-or of the page mask field doubles the top bit of every pair |
| Tlb.ReadThenWriteRestores | src/mmu/tlb.cpp:77-133 | TLBR and then TLBWI at one index restores a written entry bit for bit |
| TlbPages.EntryAnswers | src/mmu/tlb.cpp:168-208 | with size = 4096 * 4^k, va / size even asks EntryLo0 and odd EntryLo1: Invalid iff its V is clear, Modification iff V is set and D clear on a store, else a hit at frame * 4096 + va % size for frames aligned to the page |
| TlbPages.EntryCovers | src/mmu/tlb.cpp:145-166 | an entry whose EntryHi was written whole covers exactly the addresses of its page pair with its ASID, or with any when both EntryLos are global |
| TlbPages.ShortEntryCovers | src/cpu/cop0.cpp:121-132 | an entry whose EntryHi was written by MTC0 covers them only when the top bit is clear, and otherwise nothing |
| TlbPages.WrittenCovers | src/mmu/tlb.cpp:77-120 | after writing EntryHi, PageMask, EntryLo0, EntryLo1 and Index and TLBWI, entry i covers exactly its page pair for its address space |
| TlbPages.WrittenAnswers | src/mmu/tlb.cpp:145-216 | after the same writes a mapped access to the pair is answered, by either caller of the page caches, by its page's EntryLo, unless a lower entry covers it |
| TlbPages.ProbeFinds | src/mmu/tlb.cpp:135-143 | TLBP after these writes finds the entry, unless a lower one covers its address |
| TlbPages.RefillCovers | src/mmu/tlb.cpp:218-234 | the EntryHi an exception leaves makes an entry of any page size that covers the address; BadVAddr is that address, Context is PTE base and va / 8192 * 16 |
| SoftTlb.ResolveByPage | src/mmu/soft_tlb.cpp:43-62 | the page of a resolved address is enough to resolve every address on it, for direct mapping and the TLB |
| SoftTlb.StepCoherent | src/mmu/soft_tlb.cpp:22-62 | every operation (fills by both callers, TLBWI, TLBWR, TLBR with the same ASID, TLBP, EntryHi, Wired and other register writes, exceptions, reset) keeps the page caches coherent and answers and changes the TLB as an MMU without them |
| SoftTlb.CacheIsTransparent | include/mmu/soft_tlb.h:32-45 | in every run, each access is answered as direct mapping or the TLB would answer it, with and without the caches |
| SoftTlb.TlbrCoherentIffAsidKept | src/mmu/tlb.cpp:122-133 | TLBR keeps every coherent MMU with these two ASIDs coherent if and only if the ASIDs are equal |
| MmuUnit.MmuUnit.LookupEntry | src/mmu/tlb.cpp:145-166 | the loop finds the lowest matching entry, or none when none matches |
| MmuUnit.MmuUnit.ProbeAddress | src/mmu/tlb.cpp:168-208 | the probe's hit, miss, invalid or modification |
| MmuUnit.MmuUnit.ResolveCached | src/mmu/soft_tlb.cpp:43-62 | answer and new page caches of a cached resolution; on failure the exception registers |
| MmuUnit.MmuUnit.WriteEntry | src/mmu/tlb.cpp:77-120 | the one entry written, Random advanced, both caches emptied, nothing else |
| MmuUnit.MmuUnit.AdvanceRandom | src/mmu/tlb.cpp:43-57 | Random goes one step round Wired..31, or round 0..63 when Wired is above 31 |
| MmuUnit.MmuUnit.ReadEntry | src/mmu/tlb.cpp:122-133 | TLBR's registers; the caches are left alone |
| MmuUnit.MmuUnit.WriteEntryHi | src/cpu/cop0.cpp:121-138 | the masked EntryHi, and caches emptied exactly when the ASID changes |
| MmuUnit.MmuUnit.Invalidate | src/mmu/soft_tlb.cpp:22-27 | the loops empty every slot of both tables and keep their pages |
| Timer.AddCountAdd | src/cpu/cpu.cpp:70-84 | advancing COUNT by a and then by b is advancing it by a + b, with IP7 set by either or by the whole, however often it wraps |
| Timer.AddCountExact | src/cpu/cpu.cpp:70-84 | COUNT moves by n modulo 2^33, and IP7 is set exactly when it was or COUNT stands on twice COMPARE anywhere from the start to the end, both included |
| Interp.MemoryCachedIsMemory | src/cpu/cached_interp.cpp:145-193 | a load or store through coherent page caches is the load or store through the TLB, and keeps them coherent |
| Interp.StepIsArch | src/cpu/cached_interp.cpp:145-193 | a step without interrupt or fetch fault executes the instruction at the program counter and adds one to COUNT |
| Calls.LinksPastTheSlot | src/cpu/cpu.cpp:149-149 | at A, JAL, JALR, BGEZAL and BLTZAL put A + 8 into their link register, taken or not, and no other branch changes a register |
| Calls.RunsTheSlotThenTheTarget | src/cpu/cpu.cpp:109-147 | after a jump or branch at A come A + 4 and then, when taken, the target (for JALR rs as it was), else A + 8; an untaken branch-likely goes to A + 8 at once |
| Calls.CallReturns | src/cpu/cpu_instruction_impl.cpp:377-391 | call, delay slot, JR to the linked register, delay slot: execution is at the target in between and at A + 8 after |
| Exceptions.LoadStoreException | src/cpu/cpu.cpp:151-213 | an access that does not translate changes no register or memory; EPC is its address, or the branch's with BD when EXL was clear; code and vector follow from the miss, the access, EXL and the region's 64-bit addressing bit |
| Exceptions.InterruptedStep | src/cpu/cached_interp.cpp:151-156 | a step with a deliverable interrupt runs the instruction at 0x80000180, with code 0 and the interrupted address in EPC |
| Exceptions.FetchException | src/cpu/cached_interp.cpp:157-168 | an instruction whose address does not translate is not executed, its address becomes BadVAddr and EPC or EPC + 4, and COUNT stays |
| AluResults.LogicExact | src/cpu/cpu_instruction_impl.cpp:341-375 | each result bit of AND, OR, XOR, NOR and the zero-extended immediate forms |
| AluResults.WordSumExact | src/cpu/cpu_instruction_impl.cpp:27-92 | 32-bit sums and differences are sign-extended words, right modulo 2^32, overflow included |
| AluResults.DoubleSumExact | src/cpu/cpu_instruction_impl.cpp:61-113 | 64-bit sums and differences are right modulo 2^64 |
| AluResults.LessExact | src/cpu/cpu_instruction_impl.cpp:306-339 | comparisons as signed or unsigned numbers; SLTIU sign-extends its immediate first |
| AluResults.LuiExact | src/cpu/cpu_instruction_impl.cpp:772-780 | LUI leaves the signed immediate times 2^16, modulo 2^64 |
| AluResults.ShiftExact | src/cpu/cpu_instruction_impl.cpp:246-304 | every result bit of every shift is the operand's bit that many places away, a zero, or for arithmetic shifts the top bit; word shifts leave sign-extended words |
| CpuDevice.R4300.StepOne | src/cpu/cached_interp.cpp:145-193 | the object's step: interrupt, fetch fault or instruction, as the interpreter's step says, in place |
| CpuDevice.R4300.ExecuteInstruction | src/cpu/cpu_instruction_impl.cpp:14-1133 | the handler of every instruction that a block may contain changes the object as that instruction is specified |
| CpuDevice.R4300.AccessMemory | src/cpu/jit/helpers.cpp:156-481 | loads and stores of every width, LWL/LWR/SWL/SWR included, with translation and exception |
| CpuDevice.R4300.TakeBranch | src/cpu/cpu.cpp:109-149 | every jump and branch: target, delay flag, annulment, link register |
| CpuDevice.R4300.RaiseException | src/cpu/cpu.cpp:151-213 | EPC, BD, cause, EXL, vector and the program counters after an exception |
| CpuDevice.R4300.Divide | src/cpu/cpu_instruction_impl.cpp:169-207 | the object's HI and LO become those that the next two lemmas describe, and nothing else changes |
| MulDiv.DivExact | src/cpu/cpu_instruction_impl.cpp:169-188 | after DIV, LO times the divisor plus HI is the dividend, HI is smaller than the divisor and has the dividend's sign; the least word over -1 gives itself and 0; over zero, HI is the dividend and LO is -1 or 1 |
| MulDiv.DivuExact | src/cpu/cpu_instruction_impl.cpp:190-207 | likewise DIVU on unsigned words, both results sign-extended; over zero, HI is the dividend and LO all ones |
| MulDiv.TruncatedIsUnique | src/cpu/cpu_instruction_impl.cpp:182-183 | no other quotient and remainder meet that description |
| MulDiv.ProductExact | src/cpu/cpu_instruction_impl.cpp:115-145 | after MULT and MULTU, HI and LO together are the whole signed or unsigned product |
| X86.RunCat | src/cpu/jit/emit_x64.cpp:131-183 | running two pieces of code is running one and then the other, forward jumps across the seam included |
| X86.Skip | src/cpu/jit/emit_x64.cpp:131-183 | a jump over code without its label executes none of it |
| Sra.SraAgreesIff | src/cpu/jit/emit_x64.cpp:304-345 | the 32-bit shift of emitted code equals the interpreter's 64-bit shift if and only if the sign fills the bits shifted in |
| Sra.SignExtendedFills | src/cpu/cpu_instruction_impl.cpp:268-284 | the sign fills them in every sign-extended word |
| EmitAlu.AluRuns | src/cpu/jit/emit_x64.cpp:242-426 | emitted register, shift and immediate arithmetic leaves the interpreter's state, given exact shifts |
| EmitAlu.ShiftAgreesIff | src/cpu/jit/emit_x64.cpp:304-369 | an emitted shift leaves the interpreter's state if and only if it is exact |
| EmitAlu.HiLoRuns | src/cpu/jit/helpers.cpp:113-154 | emitted moves, multiplications and divisions of HI and LO leave the interpreter's state |
| EmitBranch.InlineRuns | src/cpu/jit/emit_x64.cpp:428-445 | the inlined branch sets the delay flag always and the next program counter only when taken, as the helper would |
| EmitBranch.BranchRuns | src/cpu/jit/emit_x64.cpp:447-553 | every emitted jump and branch, inlined or through helpers, linking or likely, leaves the interpreter's state and the annul flag |
| EmitMem.MemRuns | src/cpu/jit/emit_x64.cpp:708-772 | every emitted load and store, on the direct, the software-TLB or the helper path, leaves the interpreter's memory, registers and exception state and reports an abort exactly when translation fails |
| EmitMem.AccessRuns | src/cpu/jit/emit_x64.cpp:615-706 | the inlined access with its address swizzles and half-swaps is the load or store of the RDRAM bytes |
| EmitMem.HelperIsMemory | src/cpu/jit/helpers.cpp:156-219 | the helpers' translation and transfer is the interpreter's load or store |
| EmitBlock.AdvanceRuns | src/cpu/jit/emit_x64.cpp:206-223 | the inlined bookkeeping retires the delay slot and advances all three program counters |
| EmitBlock.OpRuns | src/cpu/jit/emit_x64.cpp:774-948 | one operation's code does what the instruction does and nothing else |
| EmitBlock.BlockRuns | src/cpu/jit/emit_x64.cpp:131-183 | the block's code ends normally in the state of its operations up to the first exit, with COUNT advanced by the number executed, which is its result |
| Emitter.BlockEmitter.Emit | src/cpu/jit/emit_x64.cpp:131-183 | the emitter's loop appends exactly the block's code |
| BlockSim.IterateMatches | src/cpu/cached_interp.cpp:145-193 | the block's operations one by one are that many interpreter steps |
| BlockSim.CompiledInPage | src/cpu/jit/jit.cpp:197-227 | within a page, translating the first address is enough for the interpreter to fetch the block's operations |
| BlockSim.MaskedIsQuiet | src/cpu/cached_interp.cpp:151-156 | with interrupts masked at entry no interrupt is deliverable inside the block |
| BlockSim.EnabledIsQuiet | src/cpu/cached_interp.cpp:151-156 | with interrupts enabled none is deliverable inside a block no longer than the way to COMPARE, with IP7 clear and no device line raised |
| BlockSim.BlockIsInterpreter | src/cpu/jit/emit_x64.cpp:131-183 | the emitted block ends in the state of as many interpreter steps as it returns |
| VuEqual.MulfEqual | src/rcp/rsp_vector_simd.cpp:30-167 | VMULF/VMULU in limbs are the 48-bit multiplication with rounding and clamp, -32768 times itself included |
| VuEqual.MacfEqual | src/rcp/rsp_vector_simd.cpp:30-167 | VMACF/VMACU in limbs, with the carry that turns a middle limb of ones into zero, are the 48-bit accumulation |
| VuEqual.MudlEqual | src/rcp/rsp_vector_simd.cpp:30-167 | VMUDL/VMADL in limbs are the 48-bit operations with their low clamp |
| VuEqual.MudmEqual | src/rcp/rsp_vector_simd.cpp:30-167 | VMUDM/VMADM likewise, signed by unsigned, built from an unsigned product and a sign mask |
| VuEqual.MudnEqual | src/rcp/rsp_vector_simd.cpp:30-167 | VMUDN/VMADN likewise, unsigned by signed |
| VuEqual.MudhEqual | src/rcp/rsp_vector_simd.cpp:30-167 | VMUDH/VMADH likewise, into the two upper limbs |
| VuEqual.LaneEqual | src/rcp/rsp_vector_simd.cpp:169-497 | one lane of every vectorised instruction equals the scalar lane, flags and clears included |
| VuUnit.ShuffleBroadcasts | include/rcp/rsp_simd.h:26-95 | the byte shuffle of an element specifier puts into each lane the lane that the scalar broadcast reads |
| VuUnit.LoopReads | src/rcp/rsp_vector.cpp:525-1035 | the scalar loop over lanes leaves in every lane the result of the original operands, whatever registers coincide |
| VuUnit.StepEqual | src/rcp/rsp_vector_simd.cpp:169-504 | one instruction leaves the same vector unit on both paths |
| VuUnit.PathsEqual | src/rcp/rsp_vector.cpp:525-1035 | any program leaves the same vector unit on both paths |
| VuUnit.Dispatch | src/rcp/rsp_vector_simd.cpp:169-497 | the function codes that fall back to the scalar path are exactly the listed ones |
| VuDevice.Rsp.ExecuteScalar | src/rcp/rsp_vector.cpp:525-1035 | the loop over lanes, with flags cleared after comparisons and the divide latches, updates the object as specified |
| VuDevice.Rsp.ExecuteSimd | src/rcp/rsp_vector_simd.cpp:169-504 | so do the whole-vector stores of the vectorised path |
| VuDevice.Rsp.ExecuteCompute | src/rcp/rsp_vector.cpp:1037-1046 | an instruction word has the same effect whichever path the build chooses |
| VuDevice.ShuffleTable | include/rcp/rsp_simd.h:63-79 | the static table's loops build every shuffle |
| VuResults.SignedClamp | src/rcp/rsp_vector.cpp:68-75 | the signed clamp is the nearest 16-bit number |
| VuResults.LowClamp | src/rcp/rsp_vector.cpp:86-98 | the low clamp is the accumulator's low half if the accumulator is a signed 32-bit number, else 0 or all ones by its sign |
| VuResults.BroadcastIsTable | src/rcp/rsp_vector.cpp:19-27 | the lanes an element specifier reads, as a table: all, one of each pair, one of each half, one |
| VuResults.MovIsBroadcast | src/rcp/rsp_vector.cpp:150-161 | VMOV reads the lane that an ordinary instruction would read for its destination lane |
| VuResults.FieldsBack | src/rcp/rsp_vector.cpp:525-541 | an instruction word put together from its fields is taken apart into them |
| VuResults.AddLane | src/rcp/rsp_vector.cpp:678-737 | VADDC then VADD add 32-bit words: the low half modulo 2^16, the high half with the carry, saturated, flags clear |
| VuResults.SubLane | src/rcp/rsp_vector.cpp:689-757 | VSUBC then VSUB subtract them |
| VuResults.CompareLane | src/rcp/rsp_vector.cpp:774-807 | VSUBC on the low halves then VLT, VEQ, VNE or VGE on the high ones decide the signed comparison of the words, select by it and clear VCO |
| VuResults.WordExtremum | src/rcp/rsp_vector.cpp:774-919 | VSUBC, VLT or VGE and VMRG leave the minimum or maximum of two words, on both paths and with any element |
| VuResults.AbsLane | src/rcp/rsp_vector.cpp:700-722 | VABS is the sign of vs times vt, saturated |
| VuResults.CrimpLane | src/rcp/rsp_vector.cpp:889-910 | VCR clips vs to vt and its complement, with the two comparison bits |
| VuResults.FractionLane | src/rcp/rsp_vector.cpp:543-565 | VMULF leaves twice the product plus a half in the accumulator and the saturated high part in vd |
| VuResults.QuantiseLane | src/rcp/rsp_vector.cpp:581-594 | VMULQ is 16 times the product divided by 32 towards zero, saturated at multiples of 16 |
| VuResults.OddifyLane | src/rcp/rsp_vector.cpp:610-622 | VMACQ moves the accumulated level one step towards zero exactly when it is not settled, and leaves it settled |
| VuResults.RoundLane | src/rcp/rsp_vector.cpp:567-608 | VRNDP adds vt, or 2^16 times it, exactly to accumulators that are not negative, VRNDN to negative ones, and the result saturates |
| VuResults.SarLane | src/rcp/rsp_vector.cpp:759-772 | VSAR reads the high, middle or low third of the accumulator, 0 for other elements |
| VuResults.ReciprocalStep | src/rcp/rsp_vector.cpp:956-1004 | each of the six reciprocal instructions: operand, the one lane written, and the three latches after it |
| VuResults.TwoPartReciprocal | src/rcp/rsp_vector.cpp:956-1004 | VRCPH then VRCPL (or VRSQH, VRSQL) look up the whole 32-bit word and leave the result's low half, a further VRCPH its high half, on both paths |
| VuResults.OnePartReciprocal | src/rcp/rsp_vector.cpp:956-1004 | VRCP, VRSQ and an unlatched VRCPL or VRSQL look up one sign-extended half, on both paths |
| VuIdioms.ClipLane | src/rcp/rsp_vector.cpp:809-887 | VCH on high halves and VCL on low halves of any lane compare the 32-bit words and clip, with VCO and VCE clear |
| VuIdioms.ClipWords | src/rcp/rsp_vector.cpp:809-887 | the pair as instructions, on both paths and with any element: VCC.lo is S + T <= 0 when the signs differ, VCC.hi is S >= T when they agree |
| VuIdioms.MultiplyExact | src/rcp/rsp_vector.cpp:624-676 | VMUDL, VMADM, VMADN, VMADH leave exactly the product of two signed words divided by 2^16, rounded down; nothing wraps |
| VuIdioms.MultiplyWords | src/rcp/rsp_vector.cpp:624-676 | the four as instructions, on both paths and with any element, unless a result overwrites an operand that a later one reads |
| Scheduler.DispatchDecreases | src/n64_system/scheduler.cpp:37-69 | each dispatch takes exactly one due event and its callback adds none, so the loop ends |
| Scheduler.EachDueTimerOnce | src/n64_system/scheduler.cpp:71-79 | the queued timers dispatched are exactly the due ones, each once |
| Scheduler.EachSlotExact | src/n64_system/scheduler.cpp:37-69 | a named slot fires at most once in a tick, only with the event it held, and it fires if and only if that is due and no callback dispatched before its turn cancels or reschedules it |
| Scheduler.DispatchedInOrder | src/n64_system/scheduler.cpp:37-69 | deadlines do not decrease, and on ties the queue goes before the named slots |
| Scheduler.QuietIffBeforeNext | src/n64_system/scheduler.cpp:81-95 | time dispatches nothing if and only if it stops short of what cycles_until_next_event returns |
| Scheduler.TicksAdd | src/n64_system/scheduler.cpp:71-79 | tick(a); tick(b) is tick(a + b) when a stops short of the next event |
| Scheduler.TickDispatchesDue | src/n64_system/scheduler.cpp:71-79 | a tick leaves nothing due, has dispatched every timer due by then once and every due slot once unless taken away before its turn, has dispatched nothing else, and in order |
| Scheduler.TimerFiresAfter | src/n64_system/scheduler.cpp:18-35 | a timer set for n cycles is dispatched once with deadline now + n by every tick of n cycles or more, and by no shorter one |
| Scheduler.NamedFiresAfter | src/n64_system/scheduler.cpp:18-35 | a named event replaces its slot's old one and has deadline now + n; a cancelled one never fires |
| Scheduler.EventScheduler.DispatchOneDue | src/n64_system/scheduler.cpp:37-69 | one due event chosen and performed in place, or nothing done |
| Scheduler.EventScheduler.Tick | src/n64_system/scheduler.cpp:71-79 | the loop's new state; it ends because fewer events are due each time |
| Scheduler.EventScheduler.CyclesUntilNextEvent | src/n64_system/scheduler.cpp:81-95 | the distance to the nearest event, zero when one is overdue, nothing when none is set |
| IdleSkip.WarpIsUnits | src/cpu/idle_skip.cpp:81-106 | a warp of k cycles that does not pass the next event is k single cycles: COUNT, IP7, clock, events dispatched, world seen by them |
| IdleSkip.AppliedWarpIsUnits | src/cpu/idle_skip.cpp:81-106 | the applied warp is as many single cycles as it reports, and consumes that much budget |
| IdleSkip.WarpLimits | src/cpu/idle_skip.cpp:81-106 | a warp is between 4 and 2^20 cycles, reaches neither past the next event nor past COMPARE, and exceeds the budget exactly when none is left |
| IdleSkip.WarpIsLongest | src/cpu/idle_skip.cpp:81-106 | when something limits it, the warp is the largest number of cycles that the next event, COMPARE, the budget and 2^20 permit, or 0 when they do not permit 4 |
| IdleSkip.WarpToCompare | src/cpu/idle_skip.cpp:35-43 | the distance to COMPARE is the least number of cycles that brings COUNT onto the edge, and a warp that long ends with IP7 set |
| IdleSkip.NoEdgeInsideIff | src/cpu/idle_skip.cpp:35-43 | IP7 stays as it was before the warp's last cycle if and only if COUNT was not on the edge or IP7 was set |
| RunLoop.Slice.Interpret | src/cpu/cached_interp.cpp:501-543 | returns exactly the scheduler's advance, between the budget and the budget plus 2^20, and leaves budget_left at what is left |
| RunLoop.Slice.Recompile | src/cpu/jit/jit.cpp:229-486 | returns exactly the scheduler's advance, through compiled blocks, fallbacks, interrupts, aborts and warps |
| Dpc.ParseInTwo | src/rcp/dpc.cpp:155-241 | parsing a stream in two, carrying the rest, is parsing it at once |
| Dpc.RestIsIncompleteSuffix | src/rcp/dpc.cpp:155-241 | the words carried are the end of the stream, shorter than the command they begin, and under 44 |
| Dpc.ChunkingIsImmaterial | src/rcp/dpc.cpp:155-241 | however many chunks the stream comes in, the commands, the full syncs and the rest are those of the whole |
| Dpc.RunIsOneParseEach | src/rcp/dpc.cpp:31-241 | over every run of START, END and STATUS writes and resets, what was sent is one parse of the words submitted between two points where words are thrown away (an overflow, a reset), and the rest is that of the last stretch |
| Dpc.RunIsOneParse | src/rcp/dpc.cpp:65-153 | over every run of START, END and STATUS writes without overflow, what was sent is one parse of all words submitted |
| DpcCommands.ParsesBack | src/rcp/dpc.cpp:23-28 | for every list of commands, encoded as triangles of 8 edge words and 16, 16 and 4 more for shade, texture and depth, texture rectangles of 4 words and other commands of 2, the parse sends exactly those of code 8 and above in order, one full sync for each code 0x29, and leaves nothing |
| DpcCommands.CarriesTheRest | src/rcp/dpc.cpp:191-235 | with part of one more command behind them, exactly that part is carried |
| DpcCommands.SubmitsTheList | src/rcp/dpc.cpp:65-103 | START a, END b submits the words at a, a + 4, ... below b, and END c the words from b below c |
| DpcCommands.StatusExact | src/rcp/dpc.cpp:105-142 | each clear and set pair of a STATUS write, where both leave the bit alone, and each clearing bit |
| Dpc.PipeBusyAfter | src/rcp/dpc.cpp:155-241 | after a submission PIPE_BUSY and START_GCLK say that it held no full sync |
| Dpc.PipeBusyByChunks | src/rcp/dpc.cpp:155-241 | a cut leaves PIPE_BUSY as it would be without if and only if the later part has a full sync or the earlier has none |
| Dpc.CommandInterface.ParseBuffer | src/rcp/dpc.cpp:191-235 | the buffer's loop sends the complete commands and moves the incomplete one to the front |
| Dpc.CommandInterface.ProcessList | src/rcp/dpc.cpp:155-241 | registers, buffer and effects of a list: empty, overflowing or parsed |
| Dpc.CommandInterface.WriteEnd | src/rcp/dpc.cpp:65-103 | END after a latched START, or after CURRENT |
| Dpc.CommandInterface.WriteStatus | src/rcp/dpc.cpp:105-142 | every clear and set bit, and a run when freezing ends |
| Dpc.CommandInterface.Reset | src/rcp/dpc.cpp:31-40 | all registers and the partial command cleared, nothing sent |
| Ai.StepKeeps | src/mmio/ai.cpp:92-130 | every register write, tick and foreign event keeps: at most two buffers, one pending completion exactly while one plays, due at start plus duration; started buffers stay started |
| Ai.AlwaysInvariant | src/mmio/ai.cpp:205-229 | so it is in every reachable state; accepted buffers start once each, in the order accepted |
| Ai.InitialInvariant | src/mmio/ai.cpp:19-31 | an interface after reset satisfies the invariant |
| Ai.RemainingNeverGrows | src/mmio/ai.cpp:48-67 | until the next start, what AI_LENGTH reads does not grow |
| Ai.DurationIs | src/mmio/ai.cpp:33-46 | a buffer lasts length / 4 * (dacrate + 1) cycles of the 48681812 Hz clock, counted in cycles of 93750000 Hz and rounded down |
| Ai.RemainingIs | src/mmio/ai.cpp:48-67 | AI_LENGTH is the length before the start, 0 from the end on, and in between what has played is whole samples, less than one behind the proportion of the time gone |
| Ai.QueuesTheBuffer | src/mmio/ai.cpp:168-177 | DRAM_ADDR and LENGTH writes accept the buffer of those 24 and 18 bits, rounded down to 8 bytes, unless it is empty or the FIFO is full |
| Ai.AudioInterface.EnqueueDma | src/mmio/ai.cpp:117-130 | zero lengths and a full FIFO are ignored; an idle interface starts at once |
| Ai.AudioInterface.StartNextDma | src/mmio/ai.cpp:92-115 | the buffer that starts, with the page carry, its duration and its completion event |
| Ai.AudioInterface.OnDmaComplete | src/mmio/ai.cpp:205-229 | the FIFO shifts, the carry is decided, the next buffer starts |
| CodeCache.CodeCache.Lookup | src/cpu/jit/code_cache.cpp:131-144 | with the hint or without, the block the map holds at the address |
| CodeCache.CodeCache.Insert | src/cpu/jit/code_cache.cpp:151-165 | the map with the block added |
| CodeCache.CodeCache.InvalidateRange | src/cpu/jit/code_cache.cpp:180-201 | the map without exactly the blocks on overlapped pages, end of the address space included |
| CodeCache.CodeCache.DynarecInvalidateRange | src/cpu/jit/jit.cpp:140-162 | the same behind the cheap reject |
| CodeCache.CheapRejectExact | src/cpu/jit/jit.cpp:140-162 | the reject loses blocks if and only if a store of at most 8 bytes crosses from a page without code to one with |
| CodeCache.OnePageLosesNothing | src/cpu/jit/jit.cpp:140-162 | it loses nothing for a range within one page |
| CodeCache.OverlappedIsAByte | src/cpu/jit/code_cache.cpp:180-201 | an invalidated range drops an address exactly when some byte of it, below 2^32, lies on that address's page |
| CodeCache.InsertRepresents | src/cpu/jit/code_cache.cpp:151-165 | page tables with an entry set represent the map with the block added |
| CodeCache.CodeCache.AllocExec | src/cpu/jit/code_cache.cpp:86-116 | new code lies in the last slab behind everything handed out before |
| CodeCache.CodeCache.ShrinkLastAlloc | src/cpu/jit/code_cache.cpp:118-129 | shrinking gives back only bytes behind the emitted code |
| DecodeCache.StepKeeps | src/cpu/cached_interp.cpp:57-108 | aligned stores, PI and SP DMA that do not wrap, and aligned execution in RDRAM and anywhere else keep every filled entry the current word and its handler, and the hint its page |
| DecodeCache.FetchIsCurrent | src/memory/bus.cpp:331-349 | after any such run a fetch hands out the decoding of the word now in RDRAM |
| DecodeCache.FetchKeepsIffAligned | src/cpu/cached_interp.cpp:80-108 | a fetch in RDRAM keeps the cache right for all contents if and only if its address is aligned |
| DecodeCache.PiDmaCoherentIff | src/mmio/pi.cpp:126-181 | PI DMA keeps the cache right for all contents if and only if it does not wrap or starts on the first page |
| DecodeCache.InvalidatedSlots | src/cpu/cached_interp.cpp:57-79 | invalidation empties exactly the pages of the range |
| DecodeCache.InRangeIsAByte | src/cpu/cached_interp.cpp:67-79 | those are exactly the pages on which some byte of the range, below 2^32, lies |
| DecodeCache.CopyFromCartridge | src/mmio/pi.cpp:126-181 | the copy loop writes the cartridge bytes to mirrored positions, wrapping at the end of RDRAM |
| DecodeCache.DecodeCache.Invalidate | src/cpu/cached_interp.cpp:67-79 | the loop page by page is the range's invalidation |
| DecodeCache.DecodeCache.FetchDecoded | src/cpu/cached_interp.cpp:170-190 | hint, page, or read, decode and fill |
| RspMemory.StepKeeps | src/rcp/rsp.cpp:129-145 | bus writes of 8 to 64 bits, DMA with wrapping rows and reset keep every slot the decoding of its IMEM word |
| RspMemory.FetchIsDecode | src/rcp/rsp.cpp:766-782 | after any run, the slot executed is the decoding of the word at the program counter |
| RspMemory.Memories.WriteImem | src/memory/bus.cpp:374-397 | bytes and slots after a bus write |
| RspMemory.Memories.DmaRead | src/rcp/rsp.cpp:753-788 | bytes and slots after a DMA into DMEM or IMEM |
| RspMemory.Memories.DmaWrite | src/rcp/rsp.cpp:790-823 | RDRAM after a DMA out of DMEM or IMEM |
| SpDma.DmaIsPlain | src/rcp/rsp.cpp:753-788 | a DMA in copies logical bytes row by row, local addresses wrapping and zeros past RDRAM, whatever the byte orders |
| SpDma.DmaWriteIsPlain | src/rcp/rsp.cpp:790-823 | so does a DMA out, with bytes past RDRAM dropped |
| SpDma.RoundTrip | src/rcp/rsp.cpp:753-823 | rows read in without overlap and written back with the same registers leave RDRAM unchanged |
| SpDma.FromRegisters | src/rcp/rsp.cpp:753-765 | every value of the registers gives between 1 and 256 rows of at most 4 KiB, all multiples of 8 |
| SpDmaPlaces.FromFields | src/rcp/rsp.cpp:753-765 | a length register of length - 1, rows - 1 and skip, and the two address registers, describe that transfer |
| SpDmaPlaces.EveryByteRead | src/rcp/rsp.cpp:766-788 | byte j of row i of a DMA in lands i lengths + j behind the local address, modulo 4 KiB, from i strides + j behind the RDRAM address, zero past its end |
| SpDmaPlaces.OtherBytesStay | src/rcp/rsp.cpp:766-788 | no byte of local memory outside the rows changes |
| SpDmaPlaces.EveryByteWritten | src/rcp/rsp.cpp:790-823 | byte j of row i of a DMA out lands i strides + j behind the RDRAM address, from i lengths + j behind the local one |
| ByteOrder.Mirror | src/utils/byte_array.cpp:7-82 | the XOR addressing mirrors bytes and halves within their word |
| ByteOrder.SwappedIsLogical | src/utils/byte_array.cpp:108-117 | a swapped big-endian image reads back byte for byte |
| ByteOrder.ByteswapToHost | src/utils/byte_array.cpp:108-117 | the in-place loop reverses every whole word and leaves the tail |
| ByteOrder.WriteArray | src/utils/byte_array.cpp:55-82 | in-place writes of every width |
| BigEndian.ReadIsValue | src/utils/byte_array.cpp:7-53 | an aligned read of any width is the base-256 number of its logical bytes, most significant first |
| BigEndian.WriteIsBytes | src/utils/byte_array.cpp:55-82 | an aligned write of any width leaves each of the value's digits in its place and every other byte alone |
| BigEndian.LoadsTheNumber | src/cpu/cpu_instruction_impl.cpp:622-724 | a load from RDRAM leaves in rt the number in memory, sign- or zero-extended as its kind says |
| BigEndian.StoresTheBytes | src/cpu/cpu_instruction_impl.cpp:875-988 | a store to RDRAM leaves the low digits of rt at its address and changes nothing else |
| BigEndian.BusWriteIsBytes | src/memory/bus.cpp:374-397 | a narrow bus write to IMEM puts its digits in their place of the aligned word and zeros in the rest of the word |
| BigEndian.CartridgeBytes | src/mmio/pi.cpp:126-181 | a PI DMA that does not wrap leaves the cartridge's bytes at consecutive logical addresses and no other byte changed |
| Unaligned.StorePair | src/cpu/cpu_instruction_impl.cpp:909-1024 | on memory and register values, a left store at a and a right store at the unit's last byte write exactly the register's big-endian bytes at a, and no other, for words and doublewords at any a |
| Unaligned.LoadPair | src/cpu/cpu_instruction_impl.cpp:726-832 | on memory and register values, the two loads read exactly those bytes whatever the register held |
| Unaligned.StoreWordAnywhere | src/cpu/cpu_instruction_impl.cpp:909-988 | the instructions SWL a; SWR a+3 at any direct-mapped RDRAM address |
| Unaligned.LoadWordAnywhere | src/cpu/cpu_instruction_impl.cpp:726-770 | the instructions LWL a; LWR a+3, sign-extended |
| Unaligned.StoreDoubleAnywhere | src/cpu/cpu_instruction_impl.cpp:990-1024 | the instructions SDL a; SDR a+7 at any direct-mapped RDRAM address write exactly the register's eight bytes there |
| Unaligned.LoadDoubleAnywhere | src/cpu/cpu_instruction_impl.cpp:800-832 | the instructions LDL a; LDR a+7 read them |
| Crc32.TableIsBitwise | src/memory/rom.cpp:12-40 | the checksum by table is the bitwise one of section 8 of RFC 1952 |
| Crc32.ChecksumContinues | src/memory/rom.cpp:29-40 | a checksum continued over a second part is that of both parts |
| Crc32.Compute | src/memory/rom.cpp:29-40 | the loop computes it |

## Left out

- x86 encoding, calling conventions, callee-saved registers, stack adjustment and executable mappings: an instruction is
  its effect on registers, flags and cells, and a helper call loses every register the calling conventions let it lose.
- Translating MIPS code to an IR block: a block is given, and each operation means the instruction of the same name.
- COP0, FPU and BC1 operations, SYSCALL, BREAK, traps, LL/SC and the 64-bit multiplications and divisions in blocks and
  in the interpreter's step: they write registers outside the modelled state or are absent from the block compiler.
- Inlined stores and SI DMA do not invalidate cached code (src/cpu/jit/emit_x64.cpp:655-687, src/mmio/si.cpp:29-32), so
  `DecodeCache.Op` has no step for them, and a block's own stores do not change the code it was compiled from.
- `BlockSim.Compiled` and the interpreter's step take the instruction at a physical address from a function, so code that
  changes while it runs is left to the code and decode caches' own results.
- Device registers: a read outside RDRAM is an arbitrary function of all accesses so far, and so is the interrupt line.
- BEV and a BadVAddr in region 2, where the source aborts; with sign-extended 32-bit addresses the second cannot occur.
- CpuDevice.R4300.ExecuteInstruction: covers the instructions that blocks may contain, not the whole handler file.
- Unaligned.LoadDoubleAnywhere: the doubleword instructions are functions on the CPU's state; the CPU object has no
  methods for them, as no block contains them.
- RunLoop.Slice.Recompile: does not bound the time by the budget; a block may overshoot it by its own length.
- IdleSkip.WarpIsUnits: recognising an idle loop is a parameter; the claim is about the time that is skipped.
- Scheduler.DispatchedInOrder: which of several earliest queued timers goes first is the heap's choice, a parameter.
- Scheduler.TicksAdd: times are integers; the clock's wrap at 2^64 and the sentinel for an empty slot are not modelled.
- VuUnit.PathsEqual: the reciprocal tables are a parameter, the same on both paths; vector loads and stores are not
  modelled.
- RspMemory.FetchIsDecode: an instruction's decoding is its handler and word; the handlers of scalar RSP instructions are
  not modelled.
- DecodeCache.FetchIsCurrent: the array of RDRAM pages and the map of other pages are one map.
- Ai.AlwaysInvariant: what is played, the resampler and the ring buffer are not modelled.
- Dpc.RunIsOneParse: overflows and resets throw words away and are excluded here; `Dpc.RunIsOneParseEach` covers them.
- GPU plumbing, framebuffer tracking, audio and input output, configuration, logging and profiling.
