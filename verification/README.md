# M-EMU: a verified model

M-EMU emulates a RISC-V RV64IMAC system: cores with an Sv39 memory management
unit, a platform-level interrupt controller, a memory-mapped bus and a stub for
the GDB remote protocol. This project models those parts and proves that they
keep their promises. `dafny verify dfyconfig.toml` checks everything.

The standards meant below are the RISC-V Privileged Architecture (version 1.12),
the RISC-V Unprivileged ISA (20191213), the RISC-V PLIC specification and the
GDB remote serial protocol.

## Structure

- `Words`, `BitLaws`, `BitFields`, `StatusBits`: machine words and physical
  memory, what words and runs of bits are as numbers, and the two bit-field layouts
  over the one status word.
- `Sv39Walk`, `PteLayout`, `Sv39Tlb`, `Sv39Runs`, `Sv39Software`: the page-table walk
  and where its entries keep their fields in memory, the 32-slot TLB with the hash
  index in front of it, runs of both, and the software discipline under which the
  two caches cannot be seen. `Sv39Access` gives the
  uncached meaning of virtual reads, writes and fetches, `Sv39Uses` what software
  owes for one, `AccessLaws` holds whole accesses against the standard, and `Sv39Mmu`
  is the MMU as an object updated in place.
- `Privilege`, `Csr`, `TrapNesting`: traps, returns, interrupts and control
  registers, and traps nested to any depth. `CsrLaws`, `CsrMap` and `InterruptLaws`
  say what of it software sees: by register number and bit, and from the interrupt
  lines to the cause register.
- `Alu`, `Isa`, `Assembler`, `Exec`, `Atomics`, `Rvc`, `RvcExpansion`: arithmetic,
  the 32-bit decode tree and its inverse, the effect of every instruction, the
  compressed decode tree, and the proof that it abbreviates the other one.
  `AluLaws`, `DecodeLaws` and `ExecLaws` state their results in integer arithmetic:
  operations, accepted words, and what an instruction leaves in registers and memory.
- `CoreStep`, `Deeds`, `StepLaws`, `CoreRuns`: one step of the core, what a step can do,
  where it ends, and what every run keeps. `CoreUses` says what a step asks of the
  MMU, `CoreSoftware` how software meets that over runs, and `Rv64Core` is the core
  as an object updated in place over that MMU, proved equal, step by step and over
  runs, to the core without caches that the run theorems are about.
- `Plic`, `PlicController`, `PlicLaws`: arbitration, claim and completion on values,
  the controller with its arrays of words and its register map, and what reads of the
  registers show.
- `Bus`: the sorted device list and the lookup cache that is never cleared.
- `Gdb`, `GdbStub`: hexadecimal bytes, checksums, frames and the register dump.

The model works in two layers. What the source computes without changing state is
a function; what it does by updating objects is a class whose methods are proved
against such functions, and the properties over runs are lemmas about the
functions.

## Premises

These are the conditions under which the source is used, most of them assertions
in its own code.

- Addresses that are translated are canonical, and the table entries that a walk
  reads belong to some device (`rv64_sv39.hpp:216-217`, `280`).
- The discipline of the MMU theorems is on software: when an address is used,
  every translation of it loaded since the last covering fence is still the one in
  the tables. A step of the core owes this for each address that its fetch and its
  instruction translate (`CoreUses.MayStep`). `Sv39Software` states it as a rule on
  what software changed and fenced, which allows uses between a change and its
  fence, and `CoreSoftware` proves that a run of the core under the rule meets it.
- The source does not check superpage alignment, the N bit, or the D, A and U bits
  of an entry that points to a table; where the standard is compared, the exact
  condition is part of the statement. Both sides take the G bit of the leaf alone.
- Nested traps: `tsr` is 0 when code below M-mode is interrupted, and a handler
  saves and restores the epc and status registers of its own level.
- Privilege safety: the reserved mode 2 is never written to `mpp`.
- PLIC: an access stays inside the arrays of the source: the enable word, the
  context and the word of a completed id exist.
- A device is registered once, and registrations pass the conflict assertion of
  the source (`MMIOBus_Impl.hpp:50`).

Where code and documentation differ the model follows the code. The notable
places: the PLIC threshold admits an equal priority; a load by S-mode from a user
page is an access fault; exceptions are vectored like interrupts; a pending
delegated interrupt masks the others in S-mode with SIE clear; a translated write
that no device takes is a page fault; JALR clears the low bit of its offset and not
of the sum; four reserved 32-bit forms and five compressed ones are executed, not
refused; a compressed register jump clears the low bit of its target where JALR
traps.

## Model

| member | source | states |
|---|---|---|
| Sv39Walk.WalkMeetsStandard | M-EMU/modules/core/rv64/inline_impl/rv64_sv39.hpp:260-319 | The unrolled three-level walk equals the recursive algorithm of section 4.3.2 if and only if its entries lead to no valid leaf or its path has N = 0 everywhere, no D, A or U bit in an entry that points to a table, and a leaf aligned to its page size |
| Sv39Walk.ReservedPointerParts | M-EMU/modules/core/rv64/inline_impl/rv64_sv39.hpp:146-152 | A pointer entry with its reserved U bit set: the standard faults, the emulator maps the page |
| Sv39Walk.MisalignedSuperpageParts | M-EMU/modules/core/rv64/inline_impl/rv64_sv39.hpp:281-284 | A misaligned 1G leaf: the standard faults, the emulator maps it |
| Sv39Walk.StandardMappingKept | M-EMU/modules/core/rv64/inline_impl/rv64_sv39.hpp:260-319 | Whenever the standard maps an address the emulator maps it to the same leaf, with no premise on the tables |
| Sv39Walk.PhysAddrIsConcatenation | M-EMU/modules/core/rv64/inline_impl/rv64_sv39.hpp:32-36 | For an aligned leaf, page address plus in-page offset is the PPN / VPN / offset concatenation of the standard and lies below 2^56 |
| Sv39Walk.DecodedFieldsFit | M-EMU/modules/core/rv64/include/rv64_sv39_structs.h:21-37 | Every 64-bit entry decodes to PPN fields within their widths |
| PteLayout.EntryFlags | M-EMU/modules/core/rv64/include/rv64_sv39_structs.h:21-37 | With w the little-endian number of the eight bytes in memory, V, R, W, X, U, G, A and D are its bits 0 to 7 and N its bit 63 |
| PteLayout.EntryFields | M-EMU/modules/core/rv64/include/rv64_sv39_structs.h:30-36 | PPN0, PPN1 and PPN2 are bits 10 to 18, 19 to 27 and 28 to 53 of that number, the reserved field bits 54 to 60 and PBMT bits 61 and 62 |
| PteLayout.EntryPage | M-EMU/modules/core/rv64/inline_impl/rv64_sv39.hpp:181-182 | The page address of an entry in memory is w / 2^10 mod 2^44 times 2^12 |
| PteLayout.LeafFlags | M-EMU/modules/core/rv64/inline_impl/rv64_sv39.hpp:180-210 | A translation takes its page address and R, W, X, U, G, A and D from those bits of the number in memory |
| PteLayout.AddressFields | M-EMU/modules/core/rv64/include/rv64_sv39_structs.h:41-50 | The three page-number fields and the offset, each at its place, make up the low 39 bits of the virtual address |
| Sv39Walk.WalkSamePage | M-EMU/modules/core/rv64/inline_impl/rv64_sv39.hpp:260-319 | All addresses of one page, of whatever size its leaf has, walk to the same leaf |
| Sv39Tlb.InitialInv | M-EMU/modules/core/rv64/include/RV64SV39_MMU.h:66-77 | A new MMU, with arbitrary slot addresses, satisfies the invariant of both caches |
| Sv39Tlb.FillKeepsInv | M-EMU/modules/core/rv64/inline_impl/rv64_sv39.hpp:171-212 | A fill with its eviction keeps the index truthful and adds no slot that could answer beside another |
| Sv39Tlb.LookupKeepsInv | M-EMU/modules/core/rv64/inline_impl/rv64_sv39.hpp:214-323 | Every lookup keeps the invariant, whichever of index, scan and walk answers |
| Sv39Tlb.FenceKeepsInv | M-EMU/modules/core/rv64/inline_impl/rv64_sv39.hpp:124-144 | A fence keeps the invariant although the index keeps its stale keys |
| Sv39Tlb.FastPathHits | M-EMU/modules/core/rv64/inline_impl/rv64_sv39.hpp:219-242 | The three-probe fast path returns only slots that the linear scan would match, never a flushed one |
| Sv39Tlb.FastPathIsScan | M-EMU/modules/core/rv64/inline_impl/rv64_sv39.hpp:219-255 | With one match at most, the fast path and the scan return the same slot |
| Sv39Tlb.DisciplineGivesUniqueness | M-EMU/modules/core/rv64/inline_impl/rv64_sv39.hpp:243-255 | Under the fence discipline no two live slots match one address, so the assertion in the scan cannot fire, with mixed page sizes and global entries |
| Sv39Tlb.LookupIsWalk | M-EMU/modules/core/rv64/inline_impl/rv64_sv39.hpp:214-323 | A disciplined lookup is null exactly when the walk faults and otherwise carries that leaf: page size, page address and R/W/X/U/G/A/D |
| Sv39Runs.RunKeepsInv | M-EMU/modules/core/rv64/inline_impl/rv64_sv39.hpp:124-323 | Any run of lookups, address-space switches, fences and table writes, disciplined or not, keeps the cache invariant |
| Sv39Runs.CachesInvisible | M-EMU/modules/core/rv64/inline_impl/rv64_sv39.hpp:171-323 | After any run from a new MMU, a permitted use has at most one matching slot and answers what the plain walk answers |
| Sv39Runs.HistoryIgnoresCaches | M-EMU/modules/core/rv64/inline_impl/rv64_sv39.hpp:171-323 | The obligation on software depends on its own events only: two MMUs with any cache contents go through the same spaces, tables and history |
| Sv39Runs.FencePermitsUse | M-EMU/modules/core/rv64/inline_impl/rv64_sv39.hpp:124-144 | After any table change, a fence of the page in all spaces makes its use permitted |
| Sv39Runs.FenceOneSpacePermitsUse | M-EMU/modules/core/rv64/inline_impl/rv64_sv39.hpp:124-144 | A fence of one space suffices when no global translation of another space is in use for the page |
| Sv39Runs.MappingNeedsNoFence | M-EMU/modules/core/rv64/inline_impl/rv64_sv39.hpp:260-319 | Failures are not cached: an address that faults may be mapped and used with no fence, and answers the new leaf |
| Sv39Runs.UnfencedRemapShows | M-EMU/modules/core/rv64/inline_impl/rv64_sv39.hpp:171-323 | Remapping a used address without a fence is visible: the second use answers the old leaf |
| Sv39Runs.FenceDropsScope | M-EMU/modules/core/rv64/inline_impl/rv64_sv39.hpp:124-144 | After a fence no slot of that space (any for 0) still covers the address (any for 0) |
| Sv39Runs.FenceSparesOthers | M-EMU/modules/core/rv64/inline_impl/rv64_sv39.hpp:124-144 | A fence leaves every slot outside its scope as it was, and addresses cached there are answered by the same slot |
| Sv39Software.ObedientSoftwareSeesTheTables | M-EMU/modules/core/rv64/inline_impl/rv64_sv39.hpp:124-323 | The rule of software, over any run of uses, switches, table writes and fences in any order: an address is used only where no translation that was replaced since its last covering fence differs from the tables. Then every use of the run is permitted, one slot at most answers and the answer is the walk, whatever is used between a change and its fence |
| Sv39Software.MayTouchIsDisciplined | M-EMU/modules/core/rv64/inline_impl/rv64_sv39.hpp:214-323 | Where the rule allows an address, every cached translation that matches it is the one in the tables |
| Sv39Software.RuleIsExact | M-EMU/modules/core/rv64/inline_impl/rv64_sv39.hpp:214-323 | The rule asks no more than it must: it allows a use if and only if the use is safe for everything that may be cached by what software did |
| Sv39Software.RemapFencedLater | M-EMU/modules/core/rv64/inline_impl/rv64_sv39.hpp:124-144 | One page of the current space is remapped, the code that executes the fence is fetched through the MMU, then the page is fenced by its address: the run obeys the rule and leaves nothing stale |
| Sv39Software.CarefulSoftwareSeesTheTables | M-EMU/modules/core/rv64/inline_impl/rv64_sv39.hpp:171-323 | The special case of edits that are fenced before the next use: software that keeps one root per space, agrees on global leaves and so fences every changed mapping of a canonical address never sees the caches |
| Sv39Software.PageFenceSuffices | M-EMU/modules/core/rv64/inline_impl/rv64_sv39.hpp:124-144 | For an edit that changes one 4K page of one space, one fence of that page in that space covers every changed mapping |
| Sv39Software.OnePageRemapIsCareful | M-EMU/modules/core/rv64/inline_impl/rv64_sv39.hpp:124-144 | Three concrete levels of tables with one page remapped and fenced by its address meet the rules |
| Sv39Software.EditKeepsOrder | M-EMU/modules/core/rv64/inline_impl/rv64_sv39.hpp:124-144 | An edit whose own fences cover every mapping it changes leaves nothing stale |
| Sv39Access.AlignedStaysInPage | M-EMU/modules/core/rv64/inline_impl/rv64_sv39.hpp:15-20 | A size-aligned access of 1, 2, 4 or 8 bytes never reaches the cross-page branch |
| Sv39Access.ByteTargets | M-EMU/modules/core/rv64/inline_impl/rv64_sv39.hpp:32-36 | Byte i of an access inside one page is translated to the physical address of the first byte plus i, and refused as the first byte is |
| Sv39Access.ReadIsBytewise | M-EMU/modules/core/rv64/inline_impl/rv64_sv39.hpp:5-41 | A read inside one page succeeds if and only if each single-byte read does, and returns their bytes |
| Sv39Access.SplitFetchIsWhole | M-EMU/modules/core/rv64/inline_impl/rv64_sv39.hpp:43-54 | A four-byte fetch at 2 modulo 4 that lies inside one page equals the unsplit fetch |
| Sv39Access.WriteIsBytewise | M-EMU/modules/core/rv64/inline_impl/rv64_sv39.hpp:88-122 | A write inside one page succeeds if and only if its bytes can be written one at a time under one set of tables, and leaves the same memory |
| Sv39Access.PermissionsMeetStandard | M-EMU/modules/core/rv64/inline_impl/rv64_sv39.hpp:21-30 | The permission tests of loads, stores and fetches meet the standard if and only if the access is neither a load of M-mode acting as S-mode from a user page with SUM clear nor a load of an executable page under MXR |
| Sv39Access.AccessMeetsStandard | M-EMU/modules/core/rv64/inline_impl/rv64_sv39.hpp:21-36 | A mapped address is accessed at its physical address, or refused with a page fault, as the standard says, if and only if the access is none of three kinds of loads; every walk yields leaf bits the statement covers |
| AccessLaws.TargetMeetsStandard | M-EMU/modules/core/rv64/inline_impl/rv64_sv39.hpp:5-122 | Any load, store or fetch inside one page goes where the standard sends it, or faults as it says, with the test for translation, the walk and the permissions together, if and only if it is untranslated, unmapped, on a conforming path and none of three kinds of loads, or on another path and refused by its leaf |
| AccessLaws.TranslatedAsStandard | M-EMU/modules/core/rv64/inline_impl/rv64_sv39.hpp:8-14 | Addresses are translated exactly when the mode whose rights the access uses is below M and satp is not bare; MPRV does not reach fetches |
| AccessLaws.DevicesAnswer | M-EMU/modules/core/rv64/inline_impl/rv64_sv39.hpp:37-40 | Where devices stand behind every byte, reads and fetches return those bytes and a write changes them |
| AccessLaws.NoDeviceFaults | M-EMU/modules/core/rv64/inline_impl/rv64_sv39.hpp:88-122 | Where they do not, reads, fetches and untranslated writes end in an access fault, translated writes in a page fault, and memory stays |
| AccessLaws.HalvesFetch | M-EMU/modules/core/rv64/inline_impl/rv64_sv39.hpp:43-54 | A fetch at 2 modulo 4 joins two halves that are translated apart, in two pages if need be, and the fault of the lower half comes first |
| Sv39Access.SumIgnoredForMachine | M-EMU/modules/core/rv64/inline_impl/rv64_sv39.hpp:26-30 | M-mode loading as S-mode from a user page with SUM clear: permitted here only |
| Sv39Access.ExecutableNotReadable | M-EMU/modules/core/rv64/inline_impl/rv64_sv39.hpp:23-25 | S-mode loading from an executable page with MXR set: permitted by the standard only |
| Sv39Access.AccessFaultIsSum | M-EMU/modules/core/rv64/inline_impl/rv64_sv39.hpp:28-30 | The only refusal that is not a page fault is a load of S-mode from a user page with SUM clear |
| Sv39Uses.StoreKeepsWalk | M-EMU/modules/core/rv64/inline_impl/rv64_sv39.hpp:260-319 | A store outside the table entries that a walk visits leaves that walk, and the entries it visits, as they were |
| Sv39Uses.LiveWriteIsWhole | M-EMU/modules/core/rv64/src/rv64_debug.cpp:38-49 | With the tables read from the memory being written, the byte-by-byte store inside one page succeeds if and only if the whole write does and leaves the same memory, whenever each of its bytes may be used |
| Sv39Uses.ApartWriteIsWhole | M-EMU/modules/core/rv64/src/rv64_debug.cpp:38-49 | A store that stays off the entries of its own translation meets that premise at every byte, however the store goes, and so is the whole write |
| Sv39Mmu.RV64Sv39Mmu.GetTlbIndexToSwapOut | M-EMU/modules/core/rv64/inline_impl/rv64_sv39.hpp:165-169 | Returns the replacement pointer and advances it around the 32 slots |
| Sv39Mmu.RV64Sv39Mmu.WriteTlb | M-EMU/modules/core/rv64/inline_impl/rv64_sv39.hpp:171-212 | The new arrays and index are those of the value-level fill, in the slot the replacement pointer named |
| Sv39Mmu.RV64Sv39Mmu.ScanSlots | M-EMU/modules/core/rv64/inline_impl/rv64_sv39.hpp:243-255 | Finds the first matching slot, files it in the index, and meets the assertion of the loop |
| Sv39Mmu.RV64Sv39Mmu.WalkTables | M-EMU/modules/core/rv64/inline_impl/rv64_sv39.hpp:260-319 | Reads only readable entries and returns the leaf of the walk over the entries in memory, whose fields PteLayout places in the number stored there, or none |
| Sv39Mmu.RV64Sv39Mmu.GetTlbEntry | M-EMU/modules/core/rv64/inline_impl/rv64_sv39.hpp:214-323 | State and answer are those of the value-level lookup; the invariant is kept |
| Sv39Mmu.RV64Sv39Mmu.FlushTlb | M-EMU/modules/core/rv64/inline_impl/rv64_sv39.hpp:124-144 | The slots become exactly those of the value-level fence |
| Sv39Mmu.RV64Sv39Mmu.VAddrRead | M-EMU/modules/core/rv64/inline_impl/rv64_sv39.hpp:5-41 | For an address that may be used, feedback and bytes are those of the uncached virtual read; the history grows by that translation |
| Sv39Mmu.RV64Sv39Mmu.VAddrWrite | M-EMU/modules/core/rv64/inline_impl/rv64_sv39.hpp:88-122 | For an address that may be used, feedback and the new memory are those of the uncached virtual write under the tables in memory |
| Sv39Mmu.RV64Sv39Mmu.VAddrInstFetch | M-EMU/modules/core/rv64/inline_impl/rv64_sv39.hpp:43-86 | Feedback and bytes are those of the uncached fetch; the second half need be usable only if the first is fetched |
| Sv39Mmu.RV64Sv39Mmu.MemReadDebug | M-EMU/modules/core/rv64/src/rv64_debug.cpp:25-36 | The byte-at-a-time debug read agrees with the multi-byte read inside one page, despite fills and evictions between bytes |
| Sv39Mmu.RV64Sv39Mmu.MemWriteDebug | M-EMU/modules/core/rv64/src/rv64_debug.cpp:38-49 | The byte-at-a-time debug write, each byte under the tables that the bytes before it left, ends as the live byte-by-byte store does, and inside one page as the multi-byte write |
| StatusBits.UnpackOfPackM | M-EMU/modules/core/rv64/include/rv64_csr_structs.h:99-130 | The mstatus bit fields survive packing into the word and unpacking |
| StatusBits.PackOfUnpackM | M-EMU/modules/core/rv64/include/rv64_csr_structs.h:99-130 | Every word is the packing of its mstatus fields |
| StatusBits.SStoreIsMStore | M-EMU/modules/core/rv64/include/rv64_csr_structs.h:99-153 | Storing the five supervisor fields through the sstatus layout changes exactly the homonymous mstatus fields of the shared word |
| StatusBits.SStatusReadIsMasked | M-EMU/modules/core/rv64/inline_impl/rv64_privilege.hpp:158-176 | A read of sstatus is the mstatus word under a constant mask |
| Csr.SStatusRoundTrip | M-EMU/modules/core/rv64/inline_impl/rv64_privilege.hpp:158-176 | Writing back what a read of sstatus returned changes nothing |
| Csr.MStatusRoundTrip | M-EMU/modules/core/rv64/inline_impl/rv64_privilege.hpp:116-118 | Writing back what a read of mstatus returned changes nothing |
| Csr.SupervisorWritesStayInS | M-EMU/modules/core/rv64/inline_impl/rv64_privilege.hpp:287-333 | A register write permitted in S-mode leaves every M-only register, field and interrupt bit as it was |
| Csr.UserWritesNothing | M-EMU/modules/core/rv64/inline_impl/rv64_privilege.hpp:361-365 | The permission check and the write switch together let U-mode write no register |
| Csr.CsrWriteKeepsControl | M-EMU/modules/core/rv64/inline_impl/rv64_privilege.hpp:226-341 | No register write touches program counters, trap flag or privilege modes |
| Privilege.SelectedInterruptIsReal | M-EMU/modules/core/rv64/inline_impl/rv64_privilege.hpp:14-97 | With mie within its mask the interrupt chosen by preExec is one of the six, pending and enabled; never the code 24 |
| Privilege.InterruptsMeetStandard | M-EMU/modules/core/rv64/inline_impl/rv64_privilege.hpp:14-97 | The interrupt taken is that of section 3.1.9 if and only if in M-mode, or only one of delegated and other interrupts is pending, or the highest pending one is not delegated in mideleg and S-mode interrupts are enabled |
| Privilege.MachineInterruptsLead | M-EMU/modules/core/rv64/inline_impl/rv64_privilege.hpp:14-97 | With mideleg in its mask any pending M-level interrupt meets that condition: it is the highest and not delegated |
| Privilege.DelegatedGoesFirst | M-EMU/modules/core/rv64/inline_impl/rv64_privilege.hpp:38-97 | A contest: SEI delegated and SSI not, both pending in U-mode; the emulator takes SEI, the standard SSI |
| Privilege.VectorMeetsStandard | M-EMU/modules/core/rv64/inline_impl/rv64_privilege.hpp:394-414 | The trap vector is that of section 3.1.7 if and only if the mode is direct, the cause an interrupt or its code 0 |
| Privilege.ExceptionIsVectored | M-EMU/modules/core/rv64/inline_impl/rv64_privilege.hpp:394-414 | A load page fault in vectored mode lands 4 * 13 bytes past the base |
| CsrMap.NumbersRead | M-EMU/modules/core/rv64/inline_impl/rv64_privilege.hpp:99-224 | M-mode reads exactly the 32 implemented register numbers |
| CsrMap.NumbersRefused | M-EMU/modules/core/rv64/inline_impl/rv64_privilege.hpp:201-213 | A read is refused exactly at an unimplemented number, at satp in S-mode with bit 20 of mstatus set, and at cycle below M-mode unless bit 0 of both counter enables is set; otherwise it does not depend on the mode |
| CsrMap.NumbersWritten | M-EMU/modules/core/rv64/inline_impl/rv64_privilege.hpp:226-341 | A write is accepted exactly at the implemented numbers but minstret, cycle and the identification registers, and at satp under the same condition |
| CsrMap.ViewsShow | M-EMU/modules/core/rv64/inline_impl/rv64_privilege.hpp:158-213 | sstatus, sie and sip are the masked mstatus, mie and mip, and cycle is mcycle, as values read |
| CsrMap.WriteShows | M-EMU/modules/core/rv64/inline_impl/rv64_privilege.hpp:226-341 | After a write of any number, a read of its home register gives the old word with the writable bits of that number replaced, and every other register reads as before |
| CsrMap.PermissionByNumber | M-EMU/modules/core/rv64/inline_impl/rv64_privilege.hpp:361-365 | Bits 9 and 8 of a number are the lowest mode that may use it, and numbers from 0xc00 cannot be written |
| CsrMap.ResetShows | M-EMU/modules/core/rv64/src/rv64_common.cpp:33-66 | After reset mstatus reads 0xa_0000_0000, misa names RV64ACIMSU, and every other register reads 0 but the hart id and tselect |
| InterruptLaws.PendingIsAsserted | M-EMU/modules/core/rv64/inline_impl/rv64_privilege.hpp:7-10 | After sampling, bits 3, 7, 11 and 9 of mip are the software, timer and two external lines, and every other bit is as it was |
| InterruptLaws.RuleOfInterrupts | M-EMU/modules/core/rv64/inline_impl/rv64_privilege.hpp:14-97 | A step takes interrupt k if and only if k is the highest, in the order MEI, MSI, MTI, SEI, SSI, STI, of those asserted by line or mip bit, enabled and, in M-mode, not delegated, and the mode is open: MIE in M-mode, SIE in S-mode when a delegated one competes |
| InterruptLaws.InterruptShows | M-EMU/modules/core/rv64/inline_impl/rv64_privilege.hpp:14-97 | The step that takes it leaves its code under the interrupt bit in the cause register of the level entered, no trap value, the pc as epc, and the handler of that level |
| InterruptLaws.NoInterruptShows | M-EMU/modules/core/rv64/inline_impl/rv64_privilege.hpp:3-16 | A step that takes none counts a cycle and shows the sampled mip |
| InterruptLaws.NoInterruptSpares | M-EMU/modules/core/rv64/inline_impl/rv64_privilege.hpp:3-16 | And every other register reads as before |
| CsrLaws.TrapShows | M-EMU/modules/core/rv64/inline_impl/rv64_privilege.hpp:367-424 | After a trap, reads of cause, tval and epc of the level entered give the code with bit 63 for interrupts, the trap value and the old pc; the level is chosen by mideleg or medeleg as read, and the handler is the base read from tvec plus four bytes for each code in vectored mode |
| CsrLaws.TrapStatus | M-EMU/modules/core/rv64/inline_impl/rv64_privilege.hpp:398-413 | A read of mstatus then has MPIE (7) or SPIE (5) equal to the old MIE (3) or SIE (1), that bit cleared, MPP (11 and 12) or SPP (8) equal to the mode left, and all other bits as before |
| CsrLaws.TrapSpares | M-EMU/modules/core/rv64/inline_impl/rv64_privilege.hpp:367-424 | Every other register, those of the other level among them, reads as before |
| CsrLaws.MretShows | M-EMU/modules/core/rv64/inline_impl/rv64_privilege.hpp:436-447 | mret is refused below M-mode; otherwise the mode is MPP and the pc mepc as read, and mstatus has MIE equal to the old MPIE, MPIE set, MPP cleared, and MPRV (17) cleared unless MPP was M |
| CsrLaws.SretShows | M-EMU/modules/core/rv64/inline_impl/rv64_privilege.hpp:449-462 | sret is refused in U-mode and with bit 22 of mstatus set; otherwise the mode is SPP and the pc sepc, and mstatus has SIE equal to the old SPIE, SPIE set, SPP and MPRV cleared |
| CsrLaws.ReturnSpares | M-EMU/modules/core/rv64/inline_impl/rv64_privilege.hpp:436-462 | A return changes no other register |
| TrapNesting.FrameRestores | M-EMU/modules/core/rv64/inline_impl/rv64_privilege.hpp:367-462 | Whatever the causes, the nesting depth and the work of the handlers, the outermost return succeeds and restores program counter, mode and interrupt enables |
| TrapNesting.WorkSurvives | M-EMU/modules/core/rv64/inline_impl/rv64_privilege.hpp:367-462 | Handler code with any traps inside ends in its own mode and cannot have changed the machine fields of status from below M-mode |
| Alu.SignedProduct | M-EMU/modules/core/rv64/inline_impl/rv64_common.hpp:46-51 | MULH and MUL are the halves of the exact signed product |
| Alu.UnsignedProduct | M-EMU/modules/core/rv64/inline_impl/rv64_common.hpp:46-54 | MULHU and MUL are the halves of the exact unsigned product |
| Alu.MixedProduct | M-EMU/modules/core/rv64/inline_impl/rv64_common.hpp:46-57 | MULHSU and MUL are the halves of the exact signed-by-unsigned product, though the source multiplies modulo 2^128 |
| Alu.DivRem | M-EMU/modules/core/rv64/inline_impl/rv64_common.hpp:58-72 | Quotient times divisor plus remainder is the dividend modulo 2^64 on all inputs; zero divisor, overflow, remainder bound and sign as specified |
| Alu.DivuRemu | M-EMU/modules/core/rv64/inline_impl/rv64_common.hpp:63-77 | The same for unsigned division |
| Alu.DivRemWord | M-EMU/modules/core/rv64/inline_impl/rv64_common.hpp:9-82 | The same for the 32-bit signed forms |
| Alu.DivuRemuWord | M-EMU/modules/core/rv64/inline_impl/rv64_common.hpp:9-82 | The same for the 32-bit unsigned forms |
| Alu.WordFormSeesLowHalf | M-EMU/modules/core/rv64/inline_impl/rv64_common.hpp:10-13 | A word form depends on the low 32 bits of its operands only and sign-extends a 32-bit result |
| Alu.MulWordTruncates | M-EMU/modules/core/rv64/inline_impl/rv64_common.hpp:46-48 | MULW is the low half of MUL, sign-extended |
| Alu.AddWordTruncates | M-EMU/modules/core/rv64/inline_impl/rv64_common.hpp:16-18 | ADDW is the low half of ADD, sign-extended |
| Alu.SubWordTruncates | M-EMU/modules/core/rv64/inline_impl/rv64_common.hpp:19-21 | SUBW is the low half of SUB, sign-extended |
| AluLaws.SumIsModular | M-EMU/modules/core/rv64/inline_impl/rv64_common.hpp:16-18 | The sum as unsigned numbers is the sum modulo 2^64 |
| AluLaws.SubUndoesAdd | M-EMU/modules/core/rv64/inline_impl/rv64_common.hpp:16-21 | Subtraction undoes addition and addition subtraction, for all operands |
| AluLaws.ComparisonsOrder | M-EMU/modules/core/rv64/inline_impl/rv64_common.hpp:25-30 | SLT orders the signed values and SLTU the unsigned ones |
| AluLaws.LogicIsBitwise | M-EMU/modules/core/rv64/inline_impl/rv64_common.hpp:31-45 | AND, OR and XOR bit by bit, on the binary digits of the unsigned values |
| AluLaws.LeftShift | M-EMU/modules/core/rv64/inline_impl/rv64_common.hpp:22-24 | SLL multiplies by 2 to the low six bits of the operand, modulo 2^64 |
| AluLaws.RightShift | M-EMU/modules/core/rv64/inline_impl/rv64_common.hpp:34-36 | SRL is the q with q * 2^k <= a < (q + 1) * 2^k on the unsigned value |
| AluLaws.ArithmeticShift | M-EMU/modules/core/rv64/inline_impl/rv64_common.hpp:37-39 | SRA is the same q on the signed value |
| AluLaws.LeftShiftWord | M-EMU/modules/core/rv64/inline_impl/rv64_common.hpp:9-24 | SLLW on 32 bits, by the low five bits |
| AluLaws.RightShiftWord | M-EMU/modules/core/rv64/inline_impl/rv64_common.hpp:34-36 | SRLW on the unsigned 32-bit value |
| AluLaws.ArithmeticShiftWord | M-EMU/modules/core/rv64/inline_impl/rv64_common.hpp:37-39 | SRAW on the signed 32-bit value |
| ExecLaws.AmoComputes | M-EMU/modules/core/rv64/inline_impl/rv64_amo.hpp:163-190 | In all 64 bits: a swap stores the register, an addition the sum modulo 2^64, and the four comparisons the smaller or larger operand, signed or unsigned |
| ExecLaws.AmoLogicBits | M-EMU/modules/core/rv64/inline_impl/rv64_amo.hpp:170-178 | The three logical operations bit by bit |
| Atomics.OrderingMeetsStandard | M-EMU/modules/core/rv64/inline_impl/rv64_amo.hpp:179-190 | A minimum or maximum of words stores the standard word if and only if the register is a sign-extended word or lies, by a stated comparison of its low half with the loaded word, on the side that its high half puts it |
| Atomics.WideMinimumParts | M-EMU/modules/core/rv64/inline_impl/rv64_amo.hpp:179-190 | Register 0x1_0000_0005 against a loaded 6: the standard keeps 5, the emulator 6 |
| Atomics.SignExtendedMeetsStandard | M-EMU/modules/core/rv64/inline_impl/rv64_amo.hpp:179-190 | It always does when the register is sign-extended |
| Atomics.SumMeetsStandard | M-EMU/modules/core/rv64/inline_impl/rv64_amo.hpp:164-169 | Swaps and additions of words store the standard word for any register |
| Assembler.DecodeInvertsEncode | M-EMU/modules/core/rv64/src/rv64_exec.cpp:31-645 | Every RV64IMA and privileged instruction, encoded as the standard says with any ordering bits, fence fields and hint, is decoded to itself: operation, registers, width and immediate; a JALR offset loses its low bit |
| DecodeLaws.WordsOfTheSet | M-EMU/modules/core/rv64/src/rv64_exec.cpp:31-649 | A word is the encoding of an instruction if and only if the decode neither refuses it nor finds it in one of four reserved forms that it lets through: JALR with a funct3, SLLI with bit 31 set, and the trap returns and SFENCE.VMA with a stray register field |
| DecodeLaws.ReservedCompressed | M-EMU/modules/core/rv64/src/rv64_exec.cpp:646-911 | A compressed word without an expansion is refused if and only if it is not C.ADDIW, C.LWSP or C.LDSP of x0 or C.ADDI16SP or C.LUI of zero |
| DecodeLaws.SignExtends | M-EMU/modules/core/rv64/include/rv64_inst.h:8-60 | Immediates of 12, 13, 21 and 32 bits keep their value below the sign bit and set every higher bit from it on |
| Assembler.JalrTargetMeetsStandard | M-EMU/modules/core/rv64/src/rv64_exec.cpp:56-71 | The JALR target is the standard one, the low bit of the sum cleared, if and only if the base register is even |
| RvcExpansion.CompressedIsExpansion | M-EMU/modules/core/rv64/src/rv64_exec.cpp:646-911 | A legal compressed instruction changes registers, memory, traps and program counter exactly as its 32-bit expansion does through the other tree, if and only if it is not a register jump to an odd address |
| RvcExpansion.OddRegisterParts | M-EMU/modules/core/rv64/src/rv64_exec.cpp:868-885 | `c.jr` of an odd register does not act as its expansion: the low bit is cleared here and traps there |
| RvcExpansion.SignedImmediates | M-EMU/modules/core/rv64/src/rv64_exec.cpp:701-735 | The sign-extension masks of the six-bit and stack-pointer immediates give the standard immediates |
| RvcExpansion.JumpImmediate | M-EMU/modules/core/rv64/src/rv64_exec.cpp:785-795 | The jump immediate with its sign-extension mask is that of the standard |
| RvcExpansion.BranchImmediate | M-EMU/modules/core/rv64/src/rv64_exec.cpp:796-815 | The branch immediate with its sign-extension mask is that of the standard |
| CoreStep.EvenFetchFeedback | M-EMU/modules/core/rv64/src/rv64_exec.cpp:13-28 | A fetch at an even address is never refused as misaligned, so the assertion on its cause cannot fire |
| CoreStep.AlignedAccessFeedback | M-EMU/modules/core/rv64/include/RV64Core.h:129-167 | An aligned load or store is never refused as misaligned by the MMU |
| Deeds.WordDeed | M-EMU/modules/core/rv64/src/rv64_exec.cpp:29-911 | On every 32-bit word, legal or not, either tree does one of five things to the hart, raises at most one trap, never traps and reports illegal at once, and leaves x0 alone |
| CoreRuns.StepIsOneDeed | M-EMU/modules/core/rv64/src/rv64_exec.cpp:4-934 | A whole step is an interrupt or one deed: one trap at most, never with code 24 |
| CoreRuns.DeedKeepsLegal | M-EMU/modules/core/rv64/inline_impl/rv64_privilege.hpp:226-341 | No trap, return or register write can leave the legal register values |
| CoreRuns.StepKeepsSound | M-EMU/modules/core/rv64/src/rv64_exec.cpp:4-934 | Every step keeps the reserved status fields zero, uxl = sxl = 2, mie, mip, delegation and counter enables within their masks, stvec mode at most 1, satp mode 0 or 8, and x0 zero |
| CoreRuns.ResetCore | M-EMU/modules/core/rv64/src/rv64_common.cpp:33-66 | The state after reset is legal |
| CoreRuns.After | M-EMU/modules/core/rv64/src/rv64_exec.cpp:4-934 | So is the state after any run of steps, whatever instructions, interrupt lines and foreign memory writes occur |
| CoreRuns.CompressedInRun | M-EMU/modules/core/rv64/src/rv64_exec.cpp:646-911 | After any run a legal compressed instruction at an even program counter acts as its expansion |
| CoreRuns.StepIsSafe | M-EMU/modules/core/rv64/inline_impl/rv64_privilege.hpp:367-462 | A step raises the mode only in a trap that lands on the trap vector of its level; traps never lower it and reach S-mode only from U or S with the cause delegated; returns never raise it |
| CoreRuns.ReservedModeIsWritten | M-EMU/modules/core/rv64/inline_impl/rv64_privilege.hpp:228-246 | The reserved mode 2 reaches mpp only by a write of mstatus that holds it |
| CoreRuns.RunIsSafe | M-EMU/modules/core/rv64/inline_impl/rv64_privilege.hpp:3-97 | The mode is always U, S or M and every step of the run is safe, if mode 2 is never written to mpp |
| CoreRuns.SafeFromReset | M-EMU/modules/core/rv64/src/rv64_common.cpp:33-66 | In particular over every run from reset |
| StepLaws.StraightStep | M-EMU/modules/core/rv64/src/rv64_exec.cpp:912-925 | A step with no interrupt, trap or jump ends at the old pc plus 2 if the low two bits of the word are not both set and plus 4 otherwise, modulo 2^64, and counts one instruction |
| StepLaws.PlainWordsGoOn | M-EMU/modules/core/rv64/src/rv64_exec.cpp:29-911 | A word of either length that means no jump or branch does not jump |
| StepLaws.RunAdvances | M-EMU/modules/core/rv64/src/rv64_exec.cpp:912-925 | Over a run of such steps, with memory rewritten by others in between, the pc moves on by the sum of the lengths |
| StepLaws.CompressedRunAdvances | M-EMU/modules/core/rv64/src/rv64_exec.cpp:912-925 | n compressed words advance it by 2 * n |
| StepLaws.JumpStep | M-EMU/modules/core/rv64/src/rv64_exec.cpp:43-71 | A jump of either length to an even address ends at pc or register plus immediate modulo 2^64, with the address after the word in the link register and all other registers and memory as before |
| StepLaws.BranchStep | M-EMU/modules/core/rv64/src/rv64_exec.cpp:73-130 | A branch of either length ends at pc plus immediate if its condition holds and at the next word otherwise |
| StepLaws.ComputeStep | M-EMU/modules/core/rv64/src/rv64_exec.cpp:219-446 | A step of an operation of either length sets rd to the result of the arithmetic unit on its registers or register and immediate, changes nothing else, and goes on |
| StepLaws.LoadStep | M-EMU/modules/core/rv64/src/rv64_exec.cpp:131-189 | A step of an aligned load of either length sets rd to the bytes at the translated effective address, changes nothing else, and goes on |
| StepLaws.StoreStep | M-EMU/modules/core/rv64/src/rv64_exec.cpp:190-218 | A step of an aligned store of either length changes exactly those bytes, and goes on |
| StepLaws.OddTargetStep | M-EMU/modules/core/rv64/src/rv64_exec.cpp:47-126 | A jump or taken branch to an odd address ends in exception 0 with that address as its value |
| StepLaws.TrapStep | M-EMU/modules/core/rv64/src/rv64_exec.cpp:913-925 | A step whose instruction traps ends at the handler of the level entered, with the trap registers as read |
| StepLaws.IllegalStep | M-EMU/modules/core/rv64/src/rv64_exec.cpp:914-916 | A refused word ends in exception 2 with the word itself as the trap value |
| StepLaws.FetchStep | M-EMU/modules/core/rv64/src/rv64_exec.cpp:15-28 | A step that cannot fetch ends in exception 0, 12 or 1 with the pc as its value; otherwise the fetched word runs |
| StepLaws.InterruptStep | M-EMU/modules/core/rv64/src/rv64_exec.cpp:13-14 | A step that takes an interrupt runs no instruction, counts none and ends at the handler with the interrupt in the cause register |
| StepLaws.WordOfBytes | M-EMU/modules/core/rv64/src/rv64_exec.cpp:10-19 | The four bytes fetched are the instruction word, least significant byte first |
| ExecLaws.AuipcAdds | M-EMU/modules/core/rv64/src/rv64_exec.cpp:38-42 | AUIPC gives the pc plus the immediate modulo 2^64 |
| ExecLaws.ConditionsCompare | M-EMU/modules/core/rv64/src/rv64_exec.cpp:76-124 | The six branch conditions are those of SUB, SLT and SLTU and their negations |
| ExecLaws.AddressAdds | M-EMU/modules/core/rv64/src/rv64_exec.cpp:131-218 | The effective address is register plus immediate modulo 2^64 |
| ExecLaws.ExtendedIs | M-EMU/modules/core/rv64/src/rv64_exec.cpp:131-188 | A loaded register is the little-endian number of the bytes, less twice the sign bit if that is set and the load signed |
| ExecLaws.LowBytesHold | M-EMU/modules/core/rv64/src/rv64_exec.cpp:190-218 | The bytes stored are the register modulo 2 to their number of bits |
| ExecLaws.StoredThenLoaded | M-EMU/modules/core/rv64/src/rv64_exec.cpp:131-218 | A register stored and loaded back agrees with itself modulo 2 to the width and lies in the range of the load: all of it for eight bytes |
| ExecLaws.LoadShows | M-EMU/modules/core/rv64/include/RV64Core.h:129-149 | A load sets its register alone, or raises 4, 5 or 13 with the address as trap value: unaligned, access fault, page fault, and nothing else can happen |
| ExecLaws.StoreShows | M-EMU/modules/core/rv64/include/RV64Core.h:150-167 | A store writes its bytes alone, or raises 6, 7 or 15 |
| ExecLaws.LoadFrom | M-EMU/modules/core/rv64/include/RV64Core.h:129-149 | An aligned load from devices sets its register to the bytes at its target; from nowhere it raises 5 |
| ExecLaws.StoreTo | M-EMU/modules/core/rv64/include/RV64Core.h:150-167 | An aligned store to devices changes exactly the bytes at its target to the low ones of the register; to nowhere it raises 7 untranslated and 15 translated |
| ExecLaws.LoadAfterStore | M-EMU/modules/core/rv64/include/RV64Core.h:129-167 | A load that goes where a store went returns the low part of the register stored, sign- or zero-extended |
| ExecLaws.LoadReservedShows | M-EMU/modules/core/rv64/inline_impl/rv64_amo.hpp:52-94 | LR returns the sign-extended bytes and reserves the virtual address and width; where no device is it raises 7 with the reservation made |
| ExecLaws.StoreConditionalFails | M-EMU/modules/core/rv64/inline_impl/rv64_amo.hpp:96-148 | SC without a reservation of its own address and width answers 1, stores nothing and leaves no reservation |
| ExecLaws.StoreConditionalStores | M-EMU/modules/core/rv64/inline_impl/rv64_amo.hpp:96-148 | SC with it answers 0, stores the low bytes of the register and no other byte, and leaves no reservation |
| ExecLaws.StoreConditionalFaults | M-EMU/modules/core/rv64/inline_impl/rv64_amo.hpp:112-148 | SC with it where no device is raises 7 untranslated and 15 under translation |
| ExecLaws.ReservedPair | M-EMU/modules/core/rv64/inline_impl/rv64_amo.hpp:52-148 | LR, then SC to the same address: the store is done; a second SC is not |
| ExecLaws.AmoShows | M-EMU/modules/core/rv64/inline_impl/rv64_amo.hpp:6-50 | An atomic operation returns the old value, stores the low bytes of its result and no other byte, or raises 7 |
| ExecLaws.AtomicRefusals | M-EMU/modules/core/rv64/inline_impl/rv64_amo.hpp:22-39 | A refused translation raises 15, across pages 6, and for LR 7 where S-mode may not touch user memory |
| ExecLaws.CsrShows | M-EMU/modules/core/rv64/src/rv64_exec.cpp:583-639 | A CSR instruction is illegal exactly where permission, read or write is refused; otherwise rd takes the old word and the register the combined one if the instruction writes |
| ExecLaws.OperandCombines | M-EMU/modules/core/rv64/inline_impl/rv64_privilege.hpp:343-359 | Bit by bit: CSRRW writes the operand, CSRRS the union, CSRRC the old word without the operand |
| ExecLaws.CsrSources | M-EMU/modules/core/rv64/src/rv64_exec.cpp:583-639 | The operand is a whole register or a five-bit number, and only CSRRS and CSRRC with field zero do not write |
| ExecLaws.CallsShow | M-EMU/modules/core/rv64/inline_impl/rv64_privilege.hpp:426-434 | ECALL raises 8, 9 or 11 by the mode and EBREAK 3, with no trap value |
| ExecLaws.ReturnsAct | M-EMU/modules/core/rv64/src/rv64_exec.cpp:549-572 | MRET and SRET are illegal where the return is refused and otherwise act as the return laws say |
| ExecLaws.FencesAct | M-EMU/modules/core/rv64/inline_impl/rv64_privilege.hpp:464-469 | SFENCE.VMA is illegal exactly in U-mode and in S-mode with bit 20 of mstatus set, and changes no register; FENCE and WFI do nothing |
| ExecLaws.SatpFields | M-EMU/modules/core/rv64/include/rv64_structs.h:68-75 | satp is a mode below 2^4, an ASID below 2^16 and a page number below 2^44 at bits 60, 44 and 0 |
| ExecLaws.ContextShows | M-EMU/modules/core/rv64/inline_impl/rv64_sv39.hpp:5-30 | Translation sees the satp word that M-mode reads, and bits 17, 11 to 12, 18 and 19 of mstatus as MPRV, MPP, SUM and MXR |
| CoreSoftware.RuleMayUse | M-EMU/modules/core/rv64/inline_impl/rv64_sv39.hpp:214-323 | An access of the core that the rule allows, with readable tables, meets its use premise |
| CoreSoftware.StepKnows | M-EMU/modules/core/rv64/src/rv64_exec.cpp:4-934 | A step whose fetch and access obey the rule meets the premise of the step, and its stores, satp writes and fences carry the stale mappings on: every cached translation stays current or stale |
| CoreSoftware.ObedientRunMayRun | M-EMU/modules/core/rv64/src/rv64_exec.cpp:4-934 | A run of the core that obeys the rule step by step, with memory and tables written by others in between, meets the premise under which the caches are invisible |
| CoreSoftware.ObedientFromReset | M-EMU/modules/core/rv64/src/rv64_common.cpp:33-66 | From reset, with any choice of first roots, the rule is all that software owes |
| CoreUses.OffMayProceed | M-EMU/modules/core/rv64/inline_impl/rv64_sv39.hpp:5-14 | With translation off no step owes anything |
| Rv64Core.RV64Core.constructor | M-EMU/modules/core/rv64/src/rv64_common.cpp:33-66 | The fields are those of the reset state, over a new MMU with empty caches |
| Rv64Core.RV64Core.SetGpr | M-EMU/modules/core/rv64/include/RV64Core.h:125-128 | Register 0 is never written, any other is replaced |
| Rv64Core.RV64Core.RaiseTrap | M-EMU/modules/core/rv64/inline_impl/rv64_privilege.hpp:367-424 | The registers become those of the trap function, through the sstatus layout for S-mode, and later reads show cause with its interrupt bit, trap value, epc and handler of the level entered |
| Rv64Core.RV64Core.Mret | M-EMU/modules/core/rv64/inline_impl/rv64_privilege.hpp:436-447 | The registers become those of the return, or stay as they are when it is refused |
| Rv64Core.RV64Core.Sret | M-EMU/modules/core/rv64/inline_impl/rv64_privilege.hpp:449-462 | The same for the return from S-mode, through the sstatus layout |
| Rv64Core.RV64Core.PreExec | M-EMU/modules/core/rv64/inline_impl/rv64_privilege.hpp:3-97 | Samples the lines, switches the mode, and takes the first asserted and enabled interrupt exactly when the mode is open to it, as its cause register then shows |
| Rv64Core.RV64Core.WriteCsr | M-EMU/modules/core/rv64/inline_impl/rv64_privilege.hpp:226-341 | The registers become those of the write function, or stay as they are when it is refused |
| Rv64Core.RV64Core.CsrInstruction | M-EMU/modules/core/rv64/src/rv64_exec.cpp:583-639 | Registers and outcome of a CSR instruction with its permission check |
| Rv64Core.RV64Core.MemRead | M-EMU/modules/core/rv64/include/RV64Core.h:129-149 | Through the MMU with its caches: the bytes of the uncached virtual read, or one trap with the right cause |
| Rv64Core.RV64Core.MemWrite | M-EMU/modules/core/rv64/include/RV64Core.h:150-167 | Through the MMU: the memory of the uncached virtual write, or one trap with the right cause |
| Rv64Core.RV64Core.LoadReserved | M-EMU/modules/core/rv64/inline_impl/rv64_amo.hpp:52-94 | Through the MMU: registers, reservation and trap of a load-reserved |
| Rv64Core.RV64Core.StoreConditional | M-EMU/modules/core/rv64/inline_impl/rv64_amo.hpp:96-148 | Through the MMU: registers, memory, reservation and trap of a store-conditional |
| Rv64Core.RV64Core.AtomicOperation | M-EMU/modules/core/rv64/inline_impl/rv64_amo.hpp:6-50 | Through the MMU: registers, memory and trap of an atomic memory operation |
| Rv64Core.RV64Core.SfenceVma | M-EMU/modules/core/rv64/inline_impl/rv64_privilege.hpp:464-469 | Refused, or the TLB is flushed and the history forgets what the fence covers |
| Rv64Core.RV64Core.FetchWord | M-EMU/modules/core/rv64/src/rv64_exec.cpp:13-28 | The fetch through the MMU returns the word and feedback of the uncached fetch |
| Rv64Core.RV64Core.Execute | M-EMU/modules/core/rv64/src/rv64_exec.cpp:31-645 | The 32-bit tree over the MMU ends in the state and flags of the tree without caches, and in the history that the instruction defines |
| Rv64Core.RV64Core.ExecuteCompressed | M-EMU/modules/core/rv64/src/rv64_exec.cpp:646-911 | The same for the compressed tree |
| Rv64Core.RV64Core.Step | M-EMU/modules/core/rv64/src/rv64_exec.cpp:4-934 | One step of the core with its TLB and hash index is one step of the core without them, whenever the addresses it translates may be used, and leaves the history defined without the caches; without interrupt, trap or jump the pc is the old one plus the length of the word |
| Rv64Core.RV64Core.Run | M-EMU/modules/platform/default/include/DefaultPlatform.hpp:36-52 | Over any number of steps, with tables and memory rewritten by others in between, both caches stay invisible: the core ends in the state of the uncached run |
| Rv64Core.Boot | M-EMU/modules/platform/default/include/DefaultPlatform.hpp:36-77 | From power-on at the program counter of the loader: if software obeys the rule, the core with TLB and hash index ends any run in the state of the core without them |
| Rv64Core.RV64Core.DumpRegister | M-EMU/modules/core/rv64/src/rv64_debug.cpp:51-70 | The 32 general registers and the program counter, in order |
| Rv64Core.RV64Core.WriteAllRegister | M-EMU/modules/core/rv64/src/rv64_debug.cpp:72-84 | All 33 registers are written, or none when the count is wrong |
| Plic.OfferIsBest | M-EMU/modules/intc/rv_plic/include/RVPLICtrl.hpp:45-59 | The offer is the serviceable source of highest priority and lowest id; there is none exactly when no source is serviceable |
| Plic.UpdatePends | M-EMU/modules/intc/rv_plic/include/PLICIntCtrl_CEmuAdapter.h:71-74 | An update makes pending exactly the sources whose line is asserted, and withdraws none |
| Plic.PollsAreIndependent | M-EMU/modules/intc/rv_plic/include/PLICIntCtrl_CEmuAdapter.h:76-79 | A poll of one context does not disturb another |
| Plic.ClaimLasts | M-EMU/modules/intc/rv_plic/include/RVPLICtrl.hpp:102-106 | A claimed source stays claimed over any interleaving of all contexts until its completion is written |
| Plic.ClaimExcludes | M-EMU/modules/intc/rv_plic/include/RVPLICtrl.hpp:45-59 | So no poll of any context offers it meanwhile |
| Plic.StaleRegister | M-EMU/modules/intc/rv_plic/include/RVPLICtrl.hpp:102-106 | A claim read of a context returns a claimed source, before its completion, if and only if the register showed it when it was claimed and the context has not been polled since |
| Plic.StaleRegisterIsClaimedTwice | M-EMU/modules/intc/rv_plic/include/RVPLICtrl.hpp:102-106 | Such a run: exclusion holds of offers, not of claim reads |
| Plic.PendingLasts | M-EMU/modules/intc/rv_plic/include/RVPLICtrl.hpp:154-158 | A fired source stays pending until its completion |
| Plic.AssertedLineReturns | M-EMU/modules/intc/rv_plic/include/RVPLICtrl.hpp:36-38 | In any run from a completion up to the next one the source is serviceable if and only if an update saw its line asserted, no claim read returned it, and the enable, priority and threshold conditions hold |
| Plic.EarlyTakeIsStale | M-EMU/modules/intc/rv_plic/include/RVPLICtrl.hpp:102-106 | Before that update a claim read returns the completed source if and only if its context has not polled since the register showed it |
| Plic.DrainServesAll | M-EMU/modules/intc/rv_plic/include/RVPLICtrl.hpp:45-59 | Draining a context serves every serviceable source exactly once, by descending priority and ascending id; round k offers the k-th, and the poll after the last offers none |
| PlicLaws.EligibleByRegisters | M-EMU/modules/intc/rv_plic/include/RVPLICtrl.hpp:45-56 | A source takes part in the arbitration of a context exactly when the priority, threshold, pending and enable registers as read say so and it is not claimed |
| PlicLaws.FiredIsRead | M-EMU/modules/intc/rv_plic/include/RVPLICtrl.hpp:36-38 | A line that fires sets the bit of its source in the pending word that holds it, as read, and no other bit |
| PlicLaws.OfferIsRead | M-EMU/modules/intc/rv_plic/include/RVPLICtrl.hpp:45-59 | After a poll the claim register reads the offer, and reading it claims that source and no other: no context offers it then |
| PlicLaws.CompletionIsRead | M-EMU/modules/intc/rv_plic/include/RVPLICtrl.hpp:154-158 | Writing an id to the claim register of any context ends the claim and the pending bit of that source and of no other |
| PlicController.RegisterMap | M-EMU/modules/intc/rv_plic/include/RVPLICtrl.hpp:69-110 | A register answers at the address that the PLIC specification gives it if and only if it is not an enable word after the first |
| PlicController.SecondEnableWordMoves | M-EMU/modules/intc/rv_plic/include/RVPLICtrl.hpp:86-97 | The address of the second enable word names the fifth |
| PlicController.WrittenIsReadBack | M-EMU/modules/intc/rv_plic/include/RVPLICtrl.hpp:120-152 | What is written to any priority, enable word or threshold is read back |
| PlicController.RVPLICtrl.UpdateExt | M-EMU/modules/intc/rv_plic/include/RVPLICtrl.hpp:36-38 | Sets one pending bit of one word, or nothing |
| PlicController.RVPLICtrl.Arbitrate | M-EMU/modules/intc/rv_plic/include/RVPLICtrl.hpp:45-56 | The arg-max loop finds the offer |
| PlicController.RVPLICtrl.GetInt | M-EMU/modules/intc/rv_plic/include/RVPLICtrl.hpp:45-59 | The claim register takes the offer and the result says whether there is one |
| PlicController.RVPLICtrl.DoRead | M-EMU/modules/intc/rv_plic/include/RVPLICtrl.hpp:69-110 | Value and effect of a memory-mapped read of any register within the arrays, claims included |
| PlicController.RVPLICtrl.DoWrite | M-EMU/modules/intc/rv_plic/include/RVPLICtrl.hpp:120-162 | Effect of a memory-mapped write of any register within the arrays, completions included |
| PlicController.RVPLICtrl.UpdateIntState | M-EMU/modules/intc/rv_plic/include/PLICIntCtrl_CEmuAdapter.h:71-82 | The four lines of two cores are the offers of contexts 0 to 3 after all lines are sampled |
| Bus.ConflictTestIsExact | M-EMU/include/interface/MMIO_Dev.h:47-55 | Without wrap-around the conflict test passes if and only if the regions are disjoint or the new one lies strictly inside the old one |
| Bus.InnerRegionMissed | M-EMU/include/interface/MMIO_Dev.h:47-55 | Sixteen bytes inside an old region of 64K pass the test |
| Bus.SharedStartsLower | M-EMU/include/interface/MMIO_Dev.h:47-57 | Whatever the test lets through, an address shared with an old region lies in one that starts lower |
| Bus.LowestIsScan | M-EMU/modules/bus/default/include/MMIOBus_Impl.hpp:66-83 | The scan of the sorted list finds the only device that holds the address and starts lowest |
| Bus.Registered | M-EMU/modules/bus/default/include/MMIOBus_Impl.hpp:46-59 | A registration that passes the test keeps every cached answer right |
| Bus.MMIOBus.RegisterMMIODev | M-EMU/modules/bus/default/include/MMIOBus_Impl.hpp:46-59 | The list stays a sorted permutation of all registered devices and the uncleared cache stays coherent |
| Bus.MMIOBus.FindDevAccordingToAddr | M-EMU/modules/bus/default/include/MMIOBus_Impl.hpp:66-83 | Cached or not, the answer is that of a fresh scan of the current list |
| Bus.MMIOBus.Route | M-EMU/modules/bus/default/include/MMIOBus_Impl.hpp:20-44 | An access goes to that device at the offset from its base, and is refused only when no device holds the address |
| Gdb.DecodeInvertsEncode | M-EMU/src/gdb_stub/gdb_rsp.cpp:73-83 | Parsing inverts the two-digit encoding of any byte sequence |
| Gdb.EncodeInvertsDecode | M-EMU/src/gdb_stub/gdb_rsp.cpp:73-83 | Encoding a parsed text gives it back in lower case |
| Gdb.ParseByteStreamStr | M-EMU/src/gdb_stub/gdb_rsp.cpp:73-83 | The parse loop fills the buffer with the decoded bytes and leaves the rest |
| Gdb.PrintBytes | M-EMU/src/gdb_stub/GDBStub_cmds.cpp:100-107 | The print loop produces the encoding |
| Gdb.CalCheckSum | M-EMU/src/gdb_stub/gdb_rsp.cpp:30-34 | The 64-bit sum of signed characters gives the checksum of the protocol |
| Gdb.PackingAndSend | M-EMU/src/gdb_stub/GDBStub_utils.cpp:85-96 | The send buffer, built in place, is the frame of the payload |
| Gdb.FrameOfOk | M-EMU/src/gdb_stub/GDBStub_utils.cpp:85-96 | The packet of OK is $OK#9a |
| Gdb.FrameRoundTrip | M-EMU/src/gdb_stub/GDBStub_utils.cpp:21-47 | A framed payload that fits is received as sent, after any leading bytes without an end character, if and only if it holds neither frame character |
| GdbStub.GDBStub.RecvAndCheck | M-EMU/src/gdb_stub/GDBStub_utils.cpp:4-53 | The receive loop leaves the packet in the buffer with its begin and size, or fails as specified |
| GdbStub.ReadAllRegister | M-EMU/src/gdb_stub/GDBStub_cmds.cpp:7-27 | The dump is the hexadecimal little-endian text of the 33 registers |
| GdbStub.WriteAllRegister | M-EMU/src/gdb_stub/GDBStub_cmds.cpp:29-64 | The reply depends on the length of the text only: none for 33 registers, empty for a broken register, an error otherwise; without one, every register takes its eight bytes |
| GdbStub.DumpRestores | M-EMU/src/gdb_stub/GDBStub_cmds.cpp:7-64 | Replaying a dump through the write-all command restores every register exactly |

## Left out

- The references through which the MMU reads satp, status and mode: the core copies the three into the object that the MMU reads before each use, and the LR reservation is a field of the core.
- Memory accesses that only part of a device answers, and reads with side effects: an access succeeds if every byte belongs to a device and memory is a map from addresses to bytes.
- The trap that `raiseTrap` asserts away when the trap vector itself cannot be fetched (`rv64_privilege.hpp:423`), and the assertion on the mode written to mtvec (`rv64_privilege.hpp:261`): the model takes both paths without stopping.
- Atomicity between harts: the reservation is private to each MMU and the bus pair of `MMIO_Bus.h` has no caller.
- UART and CLINT devices, `DefaultPlatform`, module loading and the console: interrupt lines and memory written by others are free inputs of every step.
- Sockets, acknowledgements and retries, and the regular expressions of the GDB stub: streams, unreadable checksum digits and the debug-build switch are parameters, and texts hold hexadecimal digits as the expressions guarantee.
- The library sort of the bus: a method that returns some sorted permutation stands in for it.
- Registers of 32 bits in the interrupt controller are lists of 32 bits, and priorities are numbers below 2^32.
- PlicController.RVPLICtrl.DoRead: states nothing about accesses that index past the arrays of the source, such as the context whose number is the number of contexts, because what they yield is undefined there.
- PlicController.RVPLICtrl.DoWrite: the same, and nothing about completions of ids past the last pending word.
- Gdb.FrameRoundTrip: states nothing about leading bytes that hold an end character, because the receive loop then ends at that character.
- TrapNesting.FrameRestores: mpie, spie, mpp and spp are not restored, because the source's returns overwrite them.
