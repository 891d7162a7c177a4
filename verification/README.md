# Nightmare, proved

Nightmare is a virtual machine with signed-magnitude arithmetic, 9-bit bytes, big-endian 18-bit words and
36-bit longs stored low word first, and a segmented memory. It comes with a small kernel inside the emulator and a
two-pass assembler. This project models the parts of it that interlock and proves what they are for.

* **Memory manager and segment cache.** `Heap` is the page allocator over its tagged vector; `Kernel` states the
  segment list, the process tables, load, exec, fork and the 16-slot descriptor cache as functions; `KernelInv`,
  `KernelRun`, `Isolation` and `ObjectRefs` prove the invariant over every run and what follows from it, `Ledger` that every
  live block has its owner and every reference is accounted for; `ExecSpace` and `ForkSpace` say what address spaces exec and fork leave,
  `Reach` which operands can leave their segment, `Protection` what user code can reach. `Memory`, `LoadCopy`, `Context` and
  `KernelMachine` are the same system as it runs: vectors and arrays changed in place, tables kept in byte memory, every
  method proved equal to its function and its effect on all of memory stated.
* **Operands.** `Cpu` decodes effective addresses, `Assembler` encodes them (and has the imperative encoder), `Agreement`
  gives operand trees a meaning and proves exactly which operands keep it. `Branch` and `Literals` do the same for branches and data.
* **Stack machinery.** `Stack` and `Movm` are the single instructions, `Nesting` runs in which they nest to any depth;
  `Vectors` says where a trap goes, `Sweep` what runs of (ar)+ do,
  `Alu` is the arithmetic; `Processor` is the processor with registers and memory changed in place.
* **From source lines to memory.** `Labels`, `Layout`, `Passes` and `Placing` are the two passes, `Emission` what is
  read where a line's bytes stand; `Ranges` collects the bytes,
  `Octal` and `ObjectText` print them, `ObjectFile` parses them back, `Image` composes these, and `Program` carries a program
  through the kernel's loader: each line's bytes are in memory at the address its label denotes. `Running` carries it on
  through exec: there the process finds them, through its own descriptor, and `Executing` decodes them: each operand as its
  source means it, each branch to its target.
* **Number formats.** `Codec` underlies all of these.

Results are stated for every input, every run or every reachable state. Where the code departs from its evident intent the
model keeps the code, shows a failing input and proves exactly when the intent holds:

| the intent holds exactly when | fails on |
|---|---|
| `Agreement.AgreementExactly` | `Agreement.Misread`, `Agreement.SsmaFive` |
| `Isolation.ConfinedIff`, `Reach.OperandWrapsIff` | `Reach.PreDecrementEscapes`, `Isolation.WrapMeetsNeighbour`, `Context.WrapRun` |
| `Isolation.TransparentIff`, `Isolation.SsmaGoesStale` | `Context.StaleRun` |
| `Isolation.HeldAddress`, `Stack.JsrReaches` | `Isolation.HeldRetargets` |
| `Context.TablesKeptIff` | `Context.ContextHitsTable` |
| `LoadCopy.SegmentKeptIff` | `LoadCopy.RunSpills` |
| `Ranges.OverlapReported` | `Ranges.OverlapUnreported` |
| `Passes.BackwardStable` | `Passes.OddOriginLabel` |
| `Vectors.VectorKeptIff` | the registers it names |
| `Branch.RoundTrip`, `Passes.GuessedBranch` | `Branch.FarShort`, `Branch.GuessTooShort` |
| `Codec.SexSignedExact`, `Alu.EqualityExactly` | the numbers their conditions name |

A run of the memory manager (`KernelRun.Runs`) is any sequence of its operations in which the caller meets
`KernelRun.Enabled`: sizes that do not wrap, mmap of no process area, SSMA to the base of a process area and SSML of at
most 32, both with an empty cache, and the two
conditions on stores that the code does not test. One is that what load copies ends inside memory; outside, and with
an offset that takes the host's pointer around 64 bits, memcpy has no meaning. Inside it, load reaches no block that
was live before (`LoadCopy.LoadKeepsLive`). The other is `KernelRun.ContextClear`: the context that fork saves at ssp,
on nothing but a test that the address is not beyond the segment's end, meets no table. A fork that violates it hands
the child a table of register contents.

Every lemma carries `{:induction false}`: each induction is the one written in its body.

Where code and comments or names disagree, the code is followed:

* os.cc:269-272 drops a hole that the search found unless it reaches the end of the vector; the allocator is not first fit
  (`Heap.HoleIgnored`).
* machine.hh:34 compares a negative number with an unsigned sign bit, so negative overflow does not saturate.
* os.cc:140 tests `!smr&SU` with `SU` being the enumerator 0; the test never succeeds, so mmap refuses only slot 4.
* os.cc:450 and os.cc:491 overwrite or omit VALID although the entry is in use; a process area and an exec's stack
  have one reference more than VALID entries, which is never given back (`Ledger.LentForGood`).
* nas/nas.cc:172-176 and 324-330 let a value too large for its size suffix pass as the suffix's size.
* nas/nas.cc:1313 and 1328 take abs() of 64-bit differences. It is read as the C function, which narrows them to an int
  (`Branch.Narrowed`); with the overloads for wider integers beside it the first call would be ambiguous.
* nas/nas.cc:1308-1309 make a branch with suffix .w, .l, .a or .q 3, 5, 7 or 9 bytes long; pass 2 generates 4 and reports it.
* os.cc:356 moves ssp by `sizeof(ContextFrame)`, which counts host bytes: 196 for a frame of 98.
* object.cc reads a byte as wide as the host stores it; only the assembler keeps it to nine bits.

## Model

| member | source | states |
|---|---|---|
| `Codec.SexSigned` | machine.hh:30-59 | for every width, an integer strictly inside the signed-magnitude range encodes into the width and decodes to itself |
| `Codec.SignedSex` | machine.hh:30-59 | every pattern decodes in range, and re-encodes to itself exactly when it is not negative zero |
| `Codec.SexSignedExact` | machine.hh:30-59 | for any integer at all, decoding undoes encoding exactly when it is below the positive limit and, if negative, its magnitude lacks the sign bit: negative overflow does not saturate |
| `Codec.NasSignedInRange` | nas/nas.cc:84-87 | the assembler's encoder always fits its field and is undone by the machine's decoder exactly in range |
| `Codec.WordRoundTrip` | machine.hh:65-68 | a word store and load agree modulo 2^18 wherever the bytes lie |
| `Codec.LongRoundTrip` | machine.hh:66-69 | a long store and load agree modulo 2^36 despite the mixed byte order |
| `Heap.MallocAddsBlock` | os.cc:248-282 | kmalloc keeps the tiling into live blocks and free cells and adds exactly one block of ceil(bytes/4096) pages, above all live blocks, inside memory, never page 0; a failure changes nothing |
| `Heap.MallocFailsExactly` | os.cc:269-277 | kmalloc returns 0 exactly when the place its search settles on has no room below the end of memory |
| `Heap.HoleIgnored` | os.cc:257-272 | with a fitting interior hole kmalloc appends instead, or even fails |
| `Heap.FreeRemovesBlock` | os.cc:284-299 | kfree of a block head removes exactly that block and keeps the tiling |
| `Heap.FreeElsewhere` | os.cc:284-299 | kfree of page 0, of the inside of a block or of a free page changes nothing |
| `Heap.PlacedTiles` | os.cc:273-281 | writing a head and its back pointers above the last live cell keeps the tiling and adds that one block |
| `KernelInv.SallocInv` | os.cc:109-116 | salloc keeps the whole invariant: heap, mappings, process areas, object counts, cache |
| `KernelInv.SfreeHeap` | os.cc:118-132 | sfree of a segment that has memory takes exactly its block off the heap, of one that has none nothing, and keeps the rest of the heap invariant |
| `KernelInv.ReleaseInv` | os.cc:164-169 | dropping a table entry with its reference, freeing the segment at the last one, keeps the invariant |
| `KernelInv.AcquireInv` | os.cc:144-149 | one more reference with one more table entry keeps the invariant |
| `KernelRun.MunmapInv` | os.cc:154-171 | munmap keeps the invariant for every slot of every table |
| `KernelRun.MmapInv` | os.cc:134-152 | mmap of any segid that is not a process area keeps the invariant, also over a slot in use |
| `KernelRun.FreeSegsInv` | os.cc:173-180 | freesegs keeps the invariant |
| `KernelRun.LoadKeepsInv` | os.cc:208-230 | load's allocations and records keep the invariant, also when it stops for lack of memory; what its copying does to tables is LoadCopy.LoadKeepsTables |
| `KernelRun.ExecInv` | os.cc:442-471 | exec's changes to tables, records, heap and cache keep the invariant on every path, although it overwrites VALID in the stack's entry |
| `KernelRun.ForkSuperInv` | os.cc:482-516 | the kernel's fork keeps the invariant, whatever stale bytes the new page holds |
| `KernelRun.ForkUserInv` | os.cc:518-544 | a process's fork keeps the invariant, also when the place of the saved context faults half way; what saving it does to tables is Context.TablesKeptIff |
| `KernelRun.LookupInv` | cpu.cc:33-51 | a cached lookup keeps the invariant |
| `KernelRun.RestartInv` | cpu.cc:65-92 | reset keeps the invariant |
| `KernelRun.BootInv` | os.cc:245-246 | the empty heap with no segments satisfies the invariant |
| `Ledger.MunmapFrees` | os.cc:154-171 | munmap of a VALID entry: its segid loses exactly one reference, no other segid changes, and with the last reference exactly its block goes, otherwise none |
| `Ledger.MapUnmap` | os.cc:134-171 | mmap into an entry not in use and munmap of it leave every reference and block as they were, except that a segid without references loses its memory |
| `Ledger.LedgerAlways` | os.cc:109-180 | after every run from boot: each live block is page 0's, a raw kmalloc's, or exactly one non-empty segment's; each segid has exactly one reference per VALID entry of any table that names it, plus one if it is a process area or an exec's stack |
| `Ledger.LentForGood` | os.cc:446-450 | whatever runs next, the page of every process area and of every exec's stack stays taken: each exec costs a page for good |
| `Isolation.MappingsAlways` | os.cc:109-180 | after every run from boot in which no saved context meets a table, over all process tables: references are at least the VALID entries naming a segid; each such entry carries its base and size; every non-empty segment owns a live block of its pages, shared with no other segid |
| `Isolation.ConfinedIff` | cpu.hh:228-234 | a passed access stays inside its segment exactly when address plus length does not wrap 64 bits |
| `Isolation.AccessInOwnBlock` | cpu.hh:228-234 | an access through any usable entry of any table stays in the block of the segid it names, and in memory, unless it wraps; then it starts in the n bytes below that block |
| `Isolation.DistinctSegidsDisjoint` | cpu.hh:228-234 | accesses that do not wrap, through entries naming different segids, share no byte |
| `Isolation.WrapMeetsNeighbour` | cpu.hh:228-234 | the failing case: address 2^64-1 of a segment passes and is the last byte of a full segment below it |
| `Context.WrapRun` | cpu.hh:228-234 | a run from boot that ends in such a state: the second process area's byte 2^64-1 is the first area's last |
| `Isolation.UserNeverReachesTables` | os.cc:489-493 | in user mode no access reaches a process area, and even one that wraps reaches no segment table, for any size an instruction can have |
| `Protection.AddressTest` | cpu.cc:53-62 | an address is accepted exactly up to the end of a segment that there is, in a supervisor segment only in that mode; ePERM exactly when the mode alone is wrong, eFAULT exactly when the place is |
| `Protection.AccessTest` | cpu.hh:228-234 | an access passes exactly on the tests of length and permission and lands where Isolation.Phys has it; which fault otherwise |
| `Protection.DerefTest` | cpu.cc:417-422 | the pointer read of the memory-indirect modes needs READ on six bytes and follows the pointer stored there |
| `Protection.DerefRefused` | cpu.cc:417-422 | and faults otherwise, eFAULT for the length, eACCES for the permission |
| `Protection.ReservedFields` | cpu.cc:335-382 | exactly the field values 073 to 077 are invalid |
| `Protection.UserOperand` | cpu.cc:312-426 | every memory operand user mode decodes, through pointers in memory too, is in a segment of the table without SUPER |
| `Protection.UserMoves` | cpu.cc:560-852 | every successful user-mode call, frame, register list or operand store accesses such a segment, with the permission needed, and changes nothing else of memory |
| `Protection.UserOffAreas` | cpu.hh:228-234 | such an access stays off every segment table of every process and, unless it wraps, off every process area |
| `Protection.UserStays` | cpu.cc:593-595 | no user-mode instruction but a trap sets SU or changes ir: RTE and register lists with ir or smr fault |
| `Protection.UserCode` | cpu.cc:560-852 | any length of user code leaves every segment table as it was and stays in user mode |
| `Protection.AreaRefused` | cpu.cc:60-61 | in user mode every address in slot 4 of a process faults with ePERM |
| `Isolation.EndToEndIsolation` | cpu.cc:33-63 | after any run, any cached lookup and passed access of the running process lies in the block of the segid its table maps there, disjoint from every access through an entry naming another segid |
| `Isolation.LookupIsDirect` | cpu.cc:33-51 | under the invariant a cached lookup equals reading the table, fault included |
| `Isolation.CacheTransparent` | cpu.cc:23-51 | after every run lookups answer as the current table does |
| `Isolation.TransparentIff` | cpu.cc:33-51 | in any state, lookups agree with the table exactly when every valid slot that can be hit agrees with it |
| `Isolation.SsmaGoesStale` | cpu.cc:853-859 | after a lookup, SSMA to any other table leaves the slot answering wrongly exactly when the old entry is VALID and the new table has another descriptor there |
| `Isolation.SsmlBounds` | cpu.cc:853-859 | with an empty cache SSML lets exactly the numbers below the length be found, as the table has them |
| `Isolation.ResetForgets` | cpu.cc:65-82 | after reset nothing but the flat segment is found |
| `Isolation.HeldAddress` | cpu.hh:75-82 | an address held across later lookups keeps its descriptor exactly when the last lookup into its slot was for its own segment number |
| `Isolation.HeldAfterOne` | cpu.hh:75-82 | after one more lookup it is for the number looked up exactly when that differs and shares the slot |
| `Isolation.HeldRetargets` | cpu.hh:75-82 | the failing case: a lookup of the segment sixteen further on retargets a held address |
| `Reach.DecodedAddress` | cpu.cc:312-426 | every decoded operand's address is the sum it stands for, modulo 2^64 |
| `Reach.OperandWrapsIff` | cpu.cc:404-424 | an operand's access wraps exactly when that sum is negative by no more than its size, which (ar), (ar)+, ar:d18 and absolute operands never are |
| `Reach.PreDecrementEscapes` | cpu.cc:404-409 | the failing case: -(a0) at offset 0 in user mode passes every test and lands on the byte before its segment |
| `ExecSpace.FreeSegsClears` | os.cc:173-180 | freesegs leaves no VALID entry in the current table but the fourth, which it keeps, and touches no other table |
| `ExecSpace.MapAllInstalls` | os.cc:454-456 | mapping an object's list into slots not in use installs exactly those entries, each with its segid's base, size and flags |
| `ExecSpace.MmapOutcome` | os.cc:134-152 | mmap fails exactly without such a slot or segid, or over slot 4 if VALID, changing nothing; else the slot has the segid's base, size and flags, and no other entry changes |
| `ExecSpace.ListedAreSegments` | os.cc:213-227 | load lists no number but those of the object's non-empty segments |
| `ExecSpace.ExecAddressSpace` | os.cc:442-456 | after a successful exec the current table holds exactly the object's segments in their slots, the fresh stack in slot 0, what slot 4 held, and no other VALID entry; no other table changes, and lookups answer accordingly |
| `ExecSpace.RunAscend` | os.cc:225 | over every run each object's segment list stays in order of number, no number twice |
| `ExecSpace.ExecAfterAnyRun` | os.cc:442-456 | the same for every exec after any run from boot, with no condition on its state |
| `ForkSpace.ForkedTable` | os.cc:518-544 | a process's fork keeps every table, and makes current a new one with its own area in slot 4 and the parent's entries, no mapping writable, copy-on-write where the parent's was |
| `ForkSpace.ChildFinds` | os.cc:520-529 | the child finds the parent's segments at the same numbers, reads and executes what the parent does, and writes to no mapping |
| `ForkSpace.FirstTable` | os.cc:482-516 | the kernel's fork leaves a table in which only slot 4 can be used, whatever the page held |
| `ForkSpace.ForkFails` | os.cc:482-544 | fork fails exactly when there is no page or the place for the context faults, leaving every table as it was |
| `ForkSpace.AreaUsable` | os.cc:489-493 | the supervisor reads and writes, and does not execute, a process area through slot 4 |
| `ObjectRefs.CountsAlways` | os.cc:118-132 | after every run of load and sfree each loaded object's count is the number of segments carrying its inode, and an sfree erases it exactly when it takes the last one |
| `ObjectRefs.LoadCounts` | os.cc:208-231 | load counts what it allocated, also when memory runs out half way |
| `KernelMachine.Machine.constructor` | os.cc:63 | power-on state, satisfying the invariant |
| `KernelMachine.Machine.FindPages` | os.cc:248-272 | the search loops end (needing the tiling) at the place the specification gives |
| `KernelMachine.Machine.Kmalloc` | os.cc:248-282 | the in-place allocator equals Heap.Malloc |
| `KernelMachine.Machine.Kfree` | os.cc:284-299 | the in-place release equals Heap.Free |
| `KernelMachine.Machine.Salloc` | os.cc:109-116 | new segment record over a new block, or no memory |
| `KernelMachine.Machine.Sfree` | os.cc:118-132 | object count, block and record released together |
| `KernelMachine.Machine.InvalidateCache` | cpu.cc:23-31 | all 16 slots lose their flags and nothing else |
| `KernelMachine.Machine.Seg` | cpu.cc:33-51 | the cache array and the table in memory give what Kernel.Lookup gives |
| `KernelMachine.Machine.Unmap` | os.cc:154-171 | munmap on the table bytes equals Kernel.Munmap; nothing beside the entry is written |
| `KernelMachine.Machine.Map` | os.cc:134-152 | mmap on the table bytes equals Kernel.Mmap; nothing beside the table is written |
| `KernelMachine.Machine.Freesegs` | os.cc:173-180 | the loop over the current table equals Kernel.FreeSegs; nothing beside the table is written |
| `KernelMachine.Machine.LoadObject` | os.cc:208-230 | load equals Kernel.Load on the records, and memory becomes exactly the data runs laid over it from each new block on, wherever in memory they end; no table changes |
| `KernelMachine.Machine.Execute` | os.cc:442-456 | exec equals Kernel.Exec, and apart from the current table memory changes by exactly the object's data runs, wherever in memory they end |
| `KernelMachine.Machine.ForkKernel` | os.cc:482-516 | the kernel's fork equals Kernel.ForkSuper on the page's former bytes; of memory only the new table and the area's ssp, pid, ppid and status change, to the values stated |
| `KernelMachine.Machine.ForkProcess` | os.cc:518-544 | a process's fork: the copy loop over 32 descriptors, the area's fields, the parent's context at its ssp and the moved ssp in its area, all of memory stated; with the context clear of every table the outcome is that of Kernel.ForkUser, else the tables are what memory then reads as |
| `KernelMachine.Machine.SaveContext` | os.cc:339-359 | the frame, the two register loops and the moved ssp leave exactly the context's bytes |
| `Context.ContextRoundTrip` | os.cc:339-385 | loadctx gives back every register savectx saved, at field width |
| `Context.TablesKeptIff` | os.cc:339-359 | saving a context leaves all tables as they are, whatever the registers hold, exactly when its 98 bytes miss every table |
| `Context.FieldsRead` | os.cc:494-534 | pid, ppid and first ssp are read back from a new area, and nothing outside it or of its table is touched |
| `Context.FirstForkRun` | os.cc:482-516 | the run from boot that starts the first process |
| `Context.ContextHitsTable` | os.cc:518-544 | the failing case: after that run a fork with ssp 4:4052, reached by five forks, saves its context over the child's table |
| `Context.StaleRun` | cpu.cc:853-859 | a run from boot, with a segment mapped and looked up, after which SSMA to the other area would still find that segment where that area has none |
| `LoadCopy.LoadOnlyIff` | os.cc:222-223 | load changes nothing outside a region, for every memory, exactly when every byte it copies goes there |
| `LoadCopy.SegmentKeptIff` | os.cc:222-223 | the copies of a segment stay inside it exactly when each run with bytes ends within its size, which load does not test |
| `LoadCopy.RunSpills` | os.cc:222-223 | the failing case: a run beyond its segment lands in the object's next segment |
| `LoadCopy.LoadKeepsLive` | os.cc:208-230 | whatever the object, load leaves every byte of every block that was live before alone, kmalloc placing new blocks above them |
| `LoadCopy.LoadKeepsTables` | os.cc:208-230 | hence it changes no segment table |
| `LoadCopy.DataLoads` | os.cc:213-227 | an object whose runs lie in their segments is copied inside memory from any state |
| `LoadCopy.MaskedLoad` | os.cc:222-223 | what load writes beside a table does not depend on the table |
| `KernelMachine.Machine.UserStore` | cpu.cc:53-63 | a user-mode store, wrapping or not: the outcome is that of the tests on the table's descriptor, a fault changes no byte, a store writes its bytes at the place stated, and no table changes |
| `KernelMachine.Machine.Restart` | cpu.cc:65-82 | reset drops the table and clears the cache |
| `Memory.Filled` | os.cc:146-149 | four field stores leave exactly the descriptor stored, whatever was there, and touch its 16 bytes only |
| `Memory.Emptied` | os.cc:168-169 | munmap's two stores clear size and flags and keep base and segid |
| `Memory.TablesUpdate` | os.cc:138-149 | rewriting one descriptor changes one entry of one table, the tables not overlapping |
| `Assembler.LengthAgrees` | nas/nas.cc:139-239 | for every operand with resolved parts that ea accepts, lone address registers included, ealen is 2 plus twice its extension words |
| `Assembler.AcceptedIff` | nas/nas.cc:241-469 | the operands encoded without an error are exactly: offsets, displacements and scales constant and in range, absolute operands that are addresses, immediates constant and within 36 bits |
| `Assembler.EA.Fill` | nas/nas.cc:241-352 | the in-place encoder leaves the EA bits, extension words and errors of Assembler.Ea |
| `Assembler.EA.FillImmediate` | nas/nas.cc:317-351 | the size switch with its fall-through equals Assembler.EaImmediate |
| `Assembler.EA.FillBased` | nas/nas.cc:354-468 | the reductions of based operands equal Assembler.EaBased |
| `Agreement.AgreementHolds` | cpu.cc:312-426 | for every accepted operand outside the named families, of instructions whose size bits are written and read, not written but read, or not read at all, decoding the emitted field and extension words in any state gives the source meaning: base+offset+index*scale+disp or the memory-indirect forms, with faults and side effects |
| `Agreement.AgreementExactly` | nas/nas.cc:241-469 | an accepted operand of any of the three kinds of instruction is decoded as meant in all states if and only if it is outside those families: suffixed data registers, address registers, negative register offsets, absolute addresses beyond their fields, immediates beyond their suffix, immediates not in long form where no size bits are read, ([d18,ar]) |
| `Agreement.Misread` | nas/nas.cc:276-397 | each operand of the families has a state in which the processor reads something else |
| `Agreement.ImmediateAgrees` | nas/nas.cc:317-350 | an immediate comes back as written exactly when it fits the width its suffix or value selects |
| `Agreement.UnreadImmediate` | nas/nas.cc:1204-1217 | an immediate of SSMA, SSML or MOVM, where the processor reads no size bits, comes back as written exactly when it is in long form and fits it |
| `Agreement.SsmaFive` | nas/nas.cc:1204-1217 | SSMA #5 is accepted and decoded as register d5 |
| `Agreement.GeneralAgrees` | nas/nas.cc:426-466 | operands with a full extension word decode to base, offset, scaled index, displacement and indirection as written |
| `Agreement.ShortOffsetAgrees` | nas/nas.cc:385-392 | the 9-bit reduction keeps the meaning, direct and indirect |
| `Agreement.LongOffsetAgrees` | nas/nas.cc:393-397 | the 18-bit reduction keeps the meaning of the direct form (only of that: Agreement.Misread) |
| `Agreement.RegOffsetAgrees` | nas/nas.cc:275-285 | ar:d18 is read back when the offset is not negative (only then: Agreement.Misread) |
| `Agreement.AbsoluteAgrees` | nas/nas.cc:290-302 | segment:address comes back when both fit their fields (only then: Agreement.Misread) |
| `Agreement.SizesAgree` | cpu.cc:318-334 | the size code of each suffix makes the processor take as many bytes as a number of that suffix has, and nine bits of a register for each |
| `Cpu.SizeOfUnit` | cpu.cc:318-334 | an operand takes the bytes a number of its size has in memory, a register nine bits for each |
| `Sweep.BackAgain` | cpu.cc:449-461 | -(ar) after (ar)+ of one width designates the same bytes and leaves every register as it was |
| `Sweep.StoresLay` | cpu.cc:449-452 | numbers stored through (ar)+ one after the other lie side by side from where the register pointed, which then points behind the last; nothing else of memory changes |
| `Sweep.StoresRead` | cpu.cc:449-452 | each of them keeps its own bytes, behind those of all before it |
| `Branch.RoundTrip` | nas/nas.cc:1321-1339 | i_REL accepts exactly long branches of less than 2^26 bytes and short ones of at most 255 as an int has the distance; the processor finds the same condition, and the target address exactly for the long ones and the truly near |
| `Branch.FarShort` | nas/nas.cc:1327-1330 | the failing case: a short branch to an address 2^32 beyond its end is accepted and leads to its end |
| `Branch.GuessInRange` | nas/nas.cc:1302-1339 | for a target known in pass 1, pass 2 makes a branch to it in the length chosen there exactly when the long form reaches the target, unless the branch moved off an odd address 253 bytes above it |
| `Branch.GuessTooShort` | nas/nas.cc:1307-1317 | the failing case, for every such address; the prefix > helps |
| `Passes.GuessedBranch` | nas/nas.cc:1302-1339 | the same in any program: such a branch, its target the same in pass 2, stands at the aligned address and pass 2 completes it with a branch to its target exactly under that condition |
| `Literals.WordsReadBack` | nas/nas.cc:971-976 | each word of DW is read back as written exactly in range, wherever the data lies |
| `Literals.LongsReadBack` | nas/nas.cc:977-983 | each long of DL is read back as written exactly in range |
| `Literals.AddressesReadBack` | nas/nas.cc:1062-1081 | each DA operand is read back as segment number and offset by the segment-address reader |
| `Literals.NumbersReadBack` | nas/nas.cc:1029-1041 | each number of DB keeps sign and magnitude exactly in 9-bit range |
| `Stack.BsrRts` | cpu.cc:560-592 | RTS undoes BSR from any later state that kept a7 and the stacked bytes: a7 back, pc after the call |
| `Stack.JsrRts` | cpu.cc:828-838 | RTS undoes JSR likewise |
| `Stack.JsrReaches` | cpu.cc:828-838 | JSR goes to its operand exactly when the operand's segment and a7's do not share a cache slot, otherwise to a7's segment |
| `Stack.PeaStacks` | cpu.cc:845-852 | PEA stacks its operand under the same condition |
| `Stack.LinkUnlk` | cpu.cc:736-753 | UNLK undoes LINK whatever a7 is: a7 and the link register are back |
| `Stack.TrapRte` | cpu.cc:94-137 | RTE undoes any trap that has a vector: ccr, ir, smr, a7 and pc at frame width, ssp the frame's address |
| `Stack.FrameReads` | cpu.hh:45-52 | an exception frame's fields read back from its bytes |
| `Stack.BsrEnters` | cpu.cc:560-568 | BSR enters its destination with the address behind it stacked at the old a7 |
| `Stack.LinkFrame` | cpu.cc:736-745 | LINK stacks the link register, points it behind that, and leaves its operand's bytes between it and a7 |
| `Vectors.TrapGoes` | cpu.cc:105-130 | a trap writes exactly its frame, enters what six times its number then points to, in supervisor mode, with ir 0777 |
| `Vectors.TrapEnters` | cpu.cc:105-130 | with its frame off the vectors a trap enters the handler of its number, and every handler stays |
| `Vectors.HandlersStand` | cpu.cc:128-130 | a memory that begins with the bytes of 24 pointers has these as its handlers |
| `Vectors.VectorKeptIff` | cpu.cc:105-130 | a frame leaves the vector of its own trap alone, whatever the registers hold, exactly when its 24 bytes miss the vector's six |
| `Nesting.RunKeeps` | cpu.cc:560-606 | a run of any nesting keeps the bytes stacked before it, the tables and the size of memory |
| `Nesting.CallReturns` | cpu.cc:560-592 | in any run, to any depth, a BSR with its RTS resumes after the call with a7 back |
| `Nesting.FarCallReturns` | cpu.cc:828-838 | the same for JSR |
| `Nesting.FrameReturns` | cpu.cc:736-753 | in any run LINK with its UNLK restores a7 and the link register, whatever the body does to a7 |
| `Nesting.SaveReturns` | cpu.cc:785-827 | in any run a MOVM save and restore around a body restores the listed and the base register |
| `Nesting.TrapReturns` | cpu.cc:593-606 | in any run a trap with its RTE restores ccr, ir, smr, a7 and pc; from user mode also ssp |
| `Nesting.TrapTransparent` | cpu.cc:94-137 | with registers of frame width the interrupted context is restored exactly |
| `Nesting.RunBalanced` | cpu.cc:560-606 | a whole run of nested brackets gives back the a7 it started with |
| `Nesting.FreeRuns` | cpu.cc:560-606 | stack discipline is enough: for any nesting of calls, frames, saves and traps from either mode, a run without the overlap test, whose plain code keeps its mode and stays above the floor of its bracket and whose brackets stack at the stack pointer, is the same run with the test; its stacks stay tidy and it ends in its mode |
| `Movm.RoundTrip` | cpu.cc:785-827 | for every list of at least 4 bytes without its base register: stored by (ar)+ and loaded by -(ar), every listed register and the base register are back, no other register changes |
| `Movm.StoreWrites` | cpu.cc:811-827 | the store writes exactly the list's bytes between the old and the new base register |
| `Movm.ShortListRunsAway` | cpu.cc:456-461 | a list of one word register moves the base register by 2^32 too much |
| `Alu.AddExact` | cpu.cc:637 | ADD stores the exact sum if and only if V is clear, V is set if and only if the sum is out of range, and N and Z tell its sign |
| `Alu.SubExact` | cpu.cc:643 | SUB stores the exact difference if and only if it is in range, and N is its sign; no flag tells overflow |
| `Alu.SubDecides` | cpu.cc:643-646 | a branch after SUB decides the order of its operands as after CMP, BMI meaning less |
| `Alu.CompareDecides` | cpu.cc:570-581 | CMP followed by any branch decides the signed or unsigned order of its operands, none being negative zero |
| `Alu.EqualityExactly` | cpu.cc:643-646 | Z after CMP means equal numbers except exactly for zero compared with negative zero |
| `Alu.PatternFlags` | cpu.hh:185-195 | an unsigned result is stored modulo 2^36; C tells whether that lost anything, and otherwise Z, N and V whether the pattern is zero, has its sign bit, is negative zero |
| `Alu.ChainExact` | cpu.cc:638-639 | ADC or SBC over any number of longs gives the exact sum or difference modulo 2^(36k), the last C being the carry or borrow |
| `Processor.CPU.constructor` | cpu.cc:65-82 | the registers as reset leaves them, start address aside |
| `Processor.CPU.EffectiveAddress` | cpu.cc:312-454 | the decoder run step by step equals Cpu.Decode and leaves the stepped register only when nothing faulted |
| `Processor.CPU.Extended` | cpu.cc:385-402 | the extension word's index, offset and displacement equal Cpu.DecodeExtended |
| `Processor.CPU.Formed` | cpu.cc:406-424 | base, offset, index, pointer read and displacement in order equal Cpu.FormAddress |
| `Processor.CPU.Trap` | cpu.cc:105-137 | a trap with a vector pushes the frame and vectors as Stack.Trap says, faults included |
| `Processor.CPU.Rte` | cpu.cc:593-606 | RTE equals Stack.Rte |
| `Processor.CPU.Bsr` | cpu.cc:560-568 | BSR equals Stack.Bsr: a7 is stepped before the store is checked |
| `Processor.CPU.Jsr` | cpu.cc:828-838 | JSR equals Stack.Jsr, the lookup of a7 retargeting its operand included |
| `Processor.CPU.Pea` | cpu.cc:845-852 | PEA equals Stack.Pea |
| `Processor.CPU.Rts` | cpu.cc:587-592 | RTS equals Stack.Rts |
| `Processor.CPU.Link` | cpu.cc:736-745 | LINK equals Stack.Link |
| `Processor.CPU.Unlk` | cpu.cc:746-753 | UNLK equals Stack.Unlk |
| `Processor.CPU.MovmStore` | cpu.cc:785-827 | the mask loops that measure and store equal Movm.Save on the mask's list |
| `Processor.CPU.MovmLoad` | cpu.cc:785-810 | the mask loop that loads equals Movm.Restore on the mask's list |
| `Processor.CPU.ToRegister` | cpu.cc:609-646 | ADD, SUB, ADC, SBC and CMP leave the register and flags the arithmetic laws speak of |
| `Processor.FlagsRoundTrip` | cpu.hh:117-161 | the four flags written to ccr are the flags read, the other bits stay |
| `Labels.Resolve` | nas/nas.cc:586-608 | the search over the multimap range finds the first definition at or above, or the last below, the current address |
| `Labels.BackwardNearest` | nas/nas.cc:599-607 | with addresses never decreasing, .Nb is the nearest definition strictly below, unresolved exactly when there is none |
| `Labels.ForwardNearest` | nas/nas.cc:595-598 | with addresses never decreasing, .Nf is the nearest definition at or above, unresolved exactly when there is none |
| `Labels.BackwardAcrossPasses` | nas/nas.cc:1519-1526 | .Nb among the labels so far, before alignment, equals .Nb among all labels after it exactly when no such label lies in the padding |
| `Labels.OriginMovedBack` | nas/nas.cc:599-606 | after the origin moved back .Nb can miss the nearest definition |
| `Layout.Assembly.FirstPass` | nas/nas.cc:1501-1567 | the line loop changes segments, labels and placements as Layout.Pass1 says |
| `Layout.Assembly.FirstPassLine` | nas/nas.cc:1516-1566 | one line: own effect, alignment, label, bytes, space, segment length, in this order, with each fatal error |
| `Layout.Assembly.SecondPass` | nas/nas.cc:1569-1585 | pass 2 generates the placed lines' bytes as Layout.Pass2 says when every line completes, and no program otherwise |
| `Passes.AnyLaid` | nas/nas.cc:1501-1567 | for every program pass 1 accepts, origins moving anywhere: bytes at even addresses where required, in based segments and within their lengths unless they wrap; labels defined once, at their line's address |
| `Passes.SteadyLaid` | nas/nas.cc:1501-1567 | for programs whose addresses never move back also: bytes in order, local labels ascending |
| `Passes.NoDesync` | nas/nas.cc:1577-1579 | when an operand is the same in both passes a line that generates bytes generates as many as pass 1 counted, exactly unless it is a branch with a size suffix other than .b |
| `Passes.NeverOverlap` | nas/nas.cc:1540-1556 | lines that do not clash, in any order, give instructions that never overlap |
| `Passes.CollectableIff` | nas/nas.cc:1540-1624 | the instructions of an accepted program can be collected, each within its segment's length, exactly when its placed lines do not clash: no two of a segment share an address and none wraps |
| `Passes.Pass2Generates` | nas/nas.cc:1569-1585 | the instructions are exactly the placed lines, with their bytes, at their pass 1 addresses |
| `Passes.AssemblyLaysOut` | nas/nas.cc:1501-1585 | a completed assembly whose lines do not clash can be collected, lies within its segments, and its labels denote its bytes' addresses |
| `Passes.MovedBackAssembles` | nas/nas.cc:1501-1585 | a program whose origin moves back, accepted by both passes, with no clash |
| `Passes.SteadyNoClash` | nas/nas.cc:1540-1556 | lines of a program whose addresses never move back do not clash |
| `Passes.BackwardStable` | nas/nas.cc:1519-1526 | in any program whose addresses never move back .Nb at a line gives pass 1 and pass 2 the same answer exactly when no such label lies in the skipped byte |
| `Passes.OddOriginLabel` | nas/nas.cc:1519-1526 | the failing case: a label on an origin at an odd address is unresolved for the next line in pass 1 and found in pass 2 |
| `Passes.LabelAfterSpace` | nas/nas.cc:1554-1557 | a label on the line behind DS n stands n bytes on from the next even address |
| `Placing.ChosenNow` | nas/nas.cc:1516-1518 | the current segment is the one that the last SEG, ORG with a segment, or new segment chose, told from the lines alone |
| `Placing.PlacedIn` | nas/nas.cc:1548-1549 | every line that generates bytes is placed in the segment chosen last |
| `Placing.NextLine` | nas/nas.cc:1519-1552 | two lines in a row that generate bytes lie one directly behind the other, the second from the next even address if it has to |
| `Placing.AfterOrigin` | nas/nas.cc:1519-1552 | a line behind ORG stands at its address, or the next even one |
| `Placing.EvenLines` | nas/nas.cc:1519-1520 | every line that generates bytes but DB stands at an even address, DB where the address is |
| `Placing.Rejected` | nas/nas.cc:1516-1562 | pass 1 rejects a line exactly for a segment that there is not, code, data, space or a label without one, a name defined twice, or bytes without an origin or in an external segment |
| `Placing.LengthReached` | nas/nas.cc:1565-1566 | a segment's length is an address that was reached in it |
| `Emission.WordsRead` | nas/nas.cc:650 | words emitted one after the other are read back one after the other wherever they stand |
| `Emission.OpcodeWord` | nas/nas.cc:1187 | an opcode word shows the operand's field, its size bits and the operation apart |
| `Emission.BranchStands` | nas/nas.cc:1321-1339 | where a completed branch line's bytes stand the processor finds a branch of its condition to its target |
| `Emission.LineStands` | nas/nas.cc:1430-1443 | where an operand or register list line's bytes stand, its opcode word, extension words and mask are read in this order |
| `Emission.OperandMeans` | cpu.cc:190-426 | from the opcode word and the words behind it the processor decodes the operand as the source means it, at the size in the word |
| `Emission.ListMeans` | cpu.cc:785-786 | the same for a register list, whose mask is the next word |
| `Ranges.Segment.Place` | nas/nas.cc:1595-1623 | the walk over the list of ranges appends, joins, prepends or adds at the end as Ranges.Insert says |
| `Ranges.Collect` | nas/nas.cc:1587-1624 | the collection over all lines, one list per segment, stopping at a reported overlap |
| `Ranges.CollectExactly` | nas/nas.cc:1587-1624 | non-overlapping non-empty instructions in any order are collected without error into disjoint ranges that hold exactly their bytes, each at its address |
| `Ranges.InsertJoins` | nas/nas.cc:1597-1622 | placing a range that overlaps none adds exactly its bytes and keeps the ranges disjoint |
| `Ranges.OverlapReported` | nas/nas.cc:1598-1599 | an overlap is reported exactly when the walk reaches the range overlapped |
| `Ranges.OverlapMeans` | nas/nas.cc:1598 | for non-empty ranges the overlap test means a shared address |
| `Ranges.OverlapUnreported` | nas/nas.cc:1598-1610 | an overlap beyond the insertion point goes unreported and gives one address two bytes |
| `Octal.NumberZeros` | nas/nas.cc:1627 | a zero-padded octal numeral denotes its number |
| `Octal.ReadZeros` | object.cc:27 | the stream reads a zero-padded numeral back after any blanks and before anything but a digit |
| `Octal.ReadBlanks` | object.cc:34 | the same for blank-padded addresses |
| `ObjectText.DumpRange` | nas/nas.cc:1628-1639 | the byte loop prints the range as lines of at most 30 bytes, each with its address |
| `ObjectText.Dump` | nas/nas.cc:1626-1645 | the dump is the text of its header, data and entry lines |
| `ObjectFile.Object.Load` | object.cc:14-52 | reading line by line leaves what ObjectFile.ParseLines says |
| `ObjectFile.Object.Line` | object.cc:16-51 | one line: header, entry point, data run with its number loop, or nothing |
| `ObjectFile.RowBytes` | object.cc:36-39 | the number loop reads each byte of a row once and ends with it |
| `ObjectFile.LinesText` | object.cc:15 | lines written one after the other are the lines read |
| `ObjectFile.TextRoundTrip` | object.cc:14-52 | the dump of any printable segments parses to the same segments, data runs and entry point |
| `Image.TextImage` | object.cc:14-52 | for any non-overlapping instructions in any order the object file parses to segments with the same number, length, flags and name whose data is exactly the instructions' bytes |
| `Image.ImageRoundTrip` | os.cc:213-227 | ... and copying the data puts each instruction's bytes at its address and changes nothing else |
| `Image.OverlayCell` | os.cc:222-223 | after copying runs without two bytes for one address a cell holds its run's byte, or what it held |
| `Program.LoadPlaces` | os.cc:213-227 | a load that does not run out of memory, of an object whose runs lie in their segments, gives each segment that has a size a segid of its own, with its size, inode and flags, and its data at its offsets, later segments leaving it alone |
| `Program.LoadFiles` | os.cc:225 | the segid is filed under the segment's number unless an earlier segment of that number was |
| `Program.ProgramLoadable` | nas/nas.cc:1587-1645 | every program has an object file |
| `Program.ProgramObject` | os.cc:213-227 | and that file meets what load needs: sizes, and data inside the segments |
| `Program.ProgramInMemory` | os.cc:208-230 | a program assembled, dumped, parsed and loaded has every byte of every instruction at its address in its segment's memory |
| `Program.AssembledIsProgram` | nas/nas.cc:1501-1585 | what the two passes leave, when no lines clash, meets every condition of the image pipeline and of load |
| `Program.LineInMemory` | nas/nas.cc:1501-1645 | from source lines that do not clash, in any order: after both passes, dump, parse and load, each line's bytes are in memory at the address its label denotes |
| `Running.BytesAfterExec` | os.cc:442-456 | after exec of an object, loaded afresh or before with its data still in place, the running process finds each byte of its segments through the descriptor of the segment's number |
| `Running.LineAfterExec` | os.cc:442-456 | from source line to process: after both passes, dump, parse, load and exec, the process finds each line's bytes at the address its label denotes, through its own descriptor |
| `Executing.LinesAfterExec` | os.cc:442-456 | every placed line of a program assembled, dumped, parsed, loaded and mapped by exec is such a line of the running process |
| `Executing.LineAddress` | cpu.cc:33-63 | the processor on the process's table forms a line's address through the descriptor that exec mapped |
| `Executing.BranchInProcess` | cpu.cc:550-568 | there the processor finds, at a branch line's address in its segment, a branch of its condition to its target |
| `Executing.OperandInProcess` | cpu.cc:190-426 | and at an operand line's address in an executable segment its operation, decoding the operand as the source means it |
| `Executing.ListInProcess` | cpu.cc:785-786 | and a register list with its mask |

## Left out

* Terminal and debugger display, `main`, pty setup, `Machine::input` and `output`; file opening and inode lookup (a parsed
  object and a non-zero inode number are inputs).
* The lexer, the grammar and expression evaluation other than local labels: operand expressions arrive evaluated, so an
  operand tree's leaves are values. EQU and named-symbol lookup are not modelled; an operand is given as each pass sees it.
* Relocatable and external symbols in absolute operands, which the loader never relocates; listings, error text, debug records.
* Opcode words: a statement's opcode without its EA field and size bits is an input. Agreement is about that field, the
  size bits and the extension words, for all three things an opcode can do with size bits. The other bits of some opcodes (UNLK, MOVM direction, nas/nas.cc:1253 and 1430-1443) are not encoded
  as the processor reads them.
* Instruction fetch and opcode dispatch in `CPU::run`, `pending` and interrupt delivery; the stack steps begin with the
  instruction already decoded. They translate addresses by the current table itself, as
  `Isolation.CacheTransparent` allows for an address just looked up. An address held across another lookup of the same
  instruction keeps its meaning as `Isolation.HeldAddress` says; JSR and PEA, which hold their operand across the lookup
  of a7, are modelled with that effect. MOVM reads its mask through the code's own slot after the operand's lookup
  (cpu.cc:786); when the two segments share a slot the mask comes from the operand's segment. That case is not modelled:
  the register list is an input.
* Stores by supervisor code and by trap frames into a process area: runs are of the memory manager's own operations.
* MULU, MULS, DIVU, DIVS, shifts, rotations, bit operations and the other unary operations: their overflow behaviour is
  not settled by the code.
* The process list and the choice of process numbers, scheduling, and copy-on-write, which is flagged but never acted on.
* TRAP #14 and TRAP #15, which take no vector: the debugger switch, and the system calls other than fork and exec.
* SSMA, SSML and loadctx change the table without clearing the cache; runs contain the first two only with an empty cache.
* 64-bit wrap-around of page counts: sizes are positive and at most 2^64-4096, as `bytes == 0` writes past the vector.
* kfree in os.cc:284-299 shadows `page` and tests an unsigned size; the model uses address/4096 and a signed test.
* `Object` loading stops at data before any segment, where the source follows an unset pointer, and signs in numbers are
  not modelled; the assembler writes none.
* Strings in DB, and DS and ORG operands other than resolved numbers.
* A source line without an operation, and code before any SEG, where the source follows a null segment pointer.
- Kernel.ForkUser: states the tables, records and cache only; where the context goes and when it spares the tables is stated by KernelMachine.Machine.ForkProcess and KernelRun.ContextClear.
- KernelRun.ForkUserInv: is about those, so it holds of the code when the saved context is clear of the tables, as KernelRun.Enabled asks.
- Program.LoadPlaces: objects whose runs leave their segment are excluded, because a later segment can then change an earlier one's bytes (LoadCopy.RunSpills); no assembled program is such an object (Program.ProgramObject).
- Running.LineAfterExec: of a recurring segment number only the first segment is mapped, so it speaks of that one.
- Isolation.EndToEndIsolation: the accesses do not wrap, because one that wraps does leave its segment (Isolation.WrapMeetsNeighbour).
- Layout.Assembly.SecondPass: stops at the first line that does not complete, where the source reports further errors and still writes what it has; such output is no program.
- Movm.RoundTrip: lists of fewer than 4 bytes are excluded, because the base register then runs away (Movm.ShortListRunsAway).
- Stack.LinkUnlk: a7 as link register is excluded, because UNLK then reloads a7 from the frame it has just left.
- Passes.SteadyLaid: only programs whose addresses never move back, because after an origin that moves back bytes and labels need not be in order; what holds without that is Passes.AnyLaid.
- Passes.BackwardStable: for the same programs, because the search assumes ascending labels (Labels.OriginMovedBack).
- Isolation.DistinctSegidsDisjoint: the accesses do not wrap either, for the same reason as Isolation.EndToEndIsolation.
