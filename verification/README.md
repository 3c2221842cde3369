# Sargantana core software and memory tools: a verified model

This project models, in Dafny, the parts of the repository whose behaviour is decided by intricate code rather than by
glue, and proves what each of them is for. One module (or a few) follows one source file:

- **The free-list allocator** (`tiny-malloc.c`): `TinyMalloc` rewrites block headers and list links in memory in place,
  as the source does, and is proved against functions on the list of blocks that tile the arena (`HeapTiling`,
  `HeapSpec`, `FreeList`). `HeapLaws` proves what those functions grant and keep, `HeapRuns` what any sequence of calls
  keeps.
- **The sense-reversing barrier** (`util.h`) as a state machine over single shared-memory accesses (`Barrier`), a
  rely-guarantee rule for programs that meet at it (`Cooperative`), and on top of both the three matrix kernels that share
  scratch space (`AeMatmul`, `CeMatmul`, `DmMatmul`, with `SharedTranspose` and `Matrix`), for every interleaving.
- **Kernels without shared scratch space**: `Interleaving` is the machine of cores that never wait and make single loads
  and stores of a shared array; on it the matrix kernels (`TiledProduct`, `CkMatmul`, `BhMatmul`, `DcMatmul`) and the
  vector sums (`VectorAdd`) give the same result under every interleaving. The methods are the kernels' loops, and
  record the accesses they make; what a core reads of A, B, x and y and where it branches does not depend on C or z.
- **The SRAM composer** (`mem_generator.py`): the generated netlist as data, and its equivalence with the flat reference
  memory over all widths and traces (`Sram`).
- **The JTAG daisy chain** (`rbb_daisychain.py`): a batch executed TAP by TAP equals a lock-step chain (`DaisyChain`).
- **Page-table construction** (`translate.c`) against the address translation of section 4.3.2 of the RISC-V Privileged
  Architecture, version 1.12, for Sv32, Sv39 and Sv48 (`PageEntries`, `PageTables`, `TranslateMain`), with 64-bit
  bit-vectors and 32-bit words of memory; the walk is written out in literal bit fields and takes nothing from the
  program. `SecondEntry` is about repeated calls of `add_entry`.
- **The spin-locked buffer** (`multicore.c`) for any number of harts, including the exact effect of 32-bit wrap-around
  (`SpinLock`).
- **CRC-32** (`checksum.c`) against section 8 of RFC 1952 (`Crc32`); **file-list flattening** (`parse_filelist.py`):
  what is found in `FileList`, in which order in `FileTrace`; **printing, reading back and memory copying** (`syscalls.c`:
  `Printing`, `MemoryOps`).

Where code and comments disagree the model follows the code: `rbb_daisychain.py` says that TDO is read before every scan
(line 52) but appends the read after the scan command, and so does the model.

`DivMod` holds the little integer division the others share, `PowersOfTwo` the powers of two and the bitwise test for
them. `dafny verify dfyconfig.toml` checks everything.

Properties that turned out to hold only sometimes are stated with their exact condition: `vvadd0` covers its vector if
and only if the remainder is smaller than the chunk, `vvadd3` if and only if the cores divide its length; `atol` reads
back what `vprintfmt` prints under exactly the paddings listed; `memalign` answers NULL under exactly the condition given.
In `multicore.c` a pass keeps the alphabet if and only if its letters do not run across the 32-bit wrap-around; from
every initial state some run gets there, and then no hart ever completes a pass again. In `translate.c` a second
`add_entry` on a table makes new tables if and only if its root index is new; otherwise it takes an entry for an address,
and what is proved is that the translation then stays as it was, unless the pages it strays into are the path's own.

## Model

| member | source | states |
|---|---|---|
| `TinyMalloc.Heap.constructor` | Sargantana-based-Core/riscv-tests/debug/programs/tiny-malloc.c:129-130 | A new heap is the empty, well-formed one: no blocks, empty free list, arena end at its start. |
| `TinyMalloc.Heap.Malloc` | Sargantana-based-Core/riscv-tests/debug/programs/tiny-malloc.c:132-210 | On memory and free list in place: keeps the heap invariant (headers spell the tiling, the list links exactly the free blocks in address order) and answers as the specification function does, so from the place that MallocGrants states; no live block is touched and NULL changes no memory. |
| `TinyMalloc.Heap.Free` | Sargantana-based-Core/riscv-tests/debug/programs/tiny-malloc.c:216-272 | Keeps the invariant; the freed block merges with exactly the free neighbours it touches, and every other live block keeps its header and payload. |
| `TinyMalloc.Heap.Realloc` | Sargantana-based-Core/riscv-tests/debug/programs/tiny-malloc.c:276-311 | Keeps the invariant, copies every payload word below the smaller of old and new size, leaves every other live block as it was, and answers NULL only with all memory unchanged. |
| `TinyMalloc.Heap.Memalign` | Sargantana-based-Core/riscv-tests/debug/programs/tiny-malloc.c:336-494 | Terminates although the loop has no test; tests the alignment bitwise as the source does, keeps the invariant and every live block, and answers as the specification function does. |
| `TinyMalloc.Heap.Mallinfo` | Sargantana-based-Core/riscv-tests/debug/programs/tiny-malloc.c:515-559 | What it reads off the free list alone is right for the whole heap: used bytes are the bytes of the live blocks, free bytes and free blocks those of the tiling, keepcost the free bytes at the end. |
| `TinyMalloc.Heap.FindFit` | Sargantana-based-Core/riscv-tests/debug/programs/tiny-malloc.c:143-190 | The walk over the list stops at the first free block that is large enough, or at the last one. |
| `TinyMalloc.Heap.FindAligned` | Sargantana-based-Core/riscv-tests/debug/programs/tiny-malloc.c:358-406 | The walk of memalign stops at the first free block that still fits once a hole has made it aligned, or at the end of the list. |
| `HeapLaws.RealSizeIsBlock` | Sargantana-based-Core/riscv-tests/debug/programs/tiny-malloc.c:122-125 | For every request: the real size is whole words, holds a free-list entry, and exceeds header plus payload by less than a word beyond that minimum. |
| `HeapLaws.MallocGrants` | Sargantana-based-Core/riscv-tests/debug/programs/tiny-malloc.c:132-210 | For every well-formed heap: NULL exactly when memory is out, and then nothing changes; otherwise a new block disjoint from all live ones, large enough and wasting less than two words, and no live block is lost. If some free block is large enough, the lowest such block is used, whole if less than two words would be left of it, and the arena does not grow; if none is, the block begins at the header of the last block if that is free, and at the end of the arena if not. |
| `HeapLaws.FreeReleases` | Sargantana-based-Core/riscv-tests/debug/programs/tiny-malloc.c:216-272 | Freeing gives a well-formed, coalesced heap that has lost exactly that live block. |
| `HeapLaws.ReallocExchanges` | Sargantana-based-Core/riscv-tests/debug/programs/tiny-malloc.c:276-311 | NULL exactly when growth is needed and memory is out, with the old block intact; otherwise exactly that block is exchanged for one of the right size: in place, cut if two words or more are left, when it is large enough, and from the place where malloc would find it when it has to grow. |
| `HeapLaws.CarveGrants` | Sargantana-based-Core/riscv-tests/debug/programs/tiny-malloc.c:431-488 | An aligned block carved from a free one; the hole before it, if any, is itself a free block of the new heap. |
| `HeapLaws.MemalignAnswers` | Sargantana-based-Core/riscv-tests/debug/programs/tiny-malloc.c:336-494 | For every alignment and size: NULL exactly if the alignment is not 2^k for any k, which changes nothing, or no free block and no space at the top holds the aligned block behind its hole, which keeps every live block; any other answer is new, aligned, large enough and at most two words too large, lies behind the least hole of the first free block that holds both (at the top if none does), and what lies between the place it was taken from and the block is a free block of the new heap. |
| `PowersOfTwo.PowerOfTwoIff` | Sargantana-based-Core/riscv-tests/debug/programs/tiny-malloc.c:346-349 | Halving down to 1 accepts exactly 1, 2, 4, 8 and so on. |
| `PowersOfTwo.GuardIff` | Sargantana-based-Core/riscv-tests/debug/programs/tiny-malloc.c:346-349 | For every positive number: align & (align - 1) is 0 if and only if it is a power of two. |
| `PowersOfTwo.AndBits` | Sargantana-based-Core/riscv-tests/debug/programs/tiny-malloc.c:347 | Bit k of x & y is set if and only if it is set in both. |
| `HeapTiling.BytesConserved` | Sargantana-based-Core/riscv-tests/debug/programs/tiny-malloc.c:524-557 | Free bytes plus live bytes are the arena, which is what mallinfo assumes. |
| `HeapTiling.AddressOrder` | Sargantana-based-Core/riscv-tests/debug/programs/tiny-malloc.c:227-267 | Blocks are strictly address-ordered; two are contiguous exactly when they are neighbours in the tiling. |
| `HeapRuns.StepKeeps` | Sargantana-based-Core/riscv-tests/debug/programs/tiny-malloc.c:132-494 | Every call keeps the heap invariant and every live block it does not name. |
| `HeapRuns.RunKeepsHeap` | Sargantana-based-Core/riscv-tests/debug/programs/tiny-malloc.c:132-494 | After any legal sequence of calls the blocks tile the arena, no two free blocks touch, live blocks do not overlap, and bytes are conserved. |
| `HeapRuns.RunFromEmpty` | Sargantana-based-Core/riscv-tests/debug/programs/tiny-malloc.c:129-494 | The same for any legal sequence of calls on a new heap. |
| `HeapRuns.RunKeepsBlock` | Sargantana-based-Core/riscv-tests/debug/programs/tiny-malloc.c:132-494 | A block stays live, at its address and with its size, through any sequence of calls that does not name it. |
| `HeapRuns.RunAligns` | Sargantana-based-Core/riscv-tests/debug/programs/tiny-malloc.c:132-494 | Every block handed out is word-aligned and inside the arena. |
| `Barrier.RunKeepsInv` | Sargantana-based-Core/riscv-tests/benchmarks/common/util.h:60-78 | Any interleaving of any number of threads keeps the invariant of the barrier. |
| `Barrier.BarrierSafety` | Sargantana-based-Core/riscv-tests/benchmarks/common/util.h:60-78 | No thread leaves its k-th barrier before all have entered theirs, threads are at most one round apart, and count counts exactly the arrivals of the open round. |
| `Barrier.ReleaseNotMissed` | Sargantana-based-Core/riscv-tests/benchmarks/common/util.h:66-75 | While a thread still spins for a flip that has happened, no step of any thread flips sense again. |
| `Barrier.StepMakesProgress` | Sargantana-based-Core/riscv-tests/benchmarks/common/util.h:66-75 | Every step inside the barrier that is not spinning in vain brings the threads closer to the way out. |
| `Barrier.SomeStepEnabled` | Sargantana-based-Core/riscv-tests/benchmarks/common/util.h:66-75 | When all threads have entered a round and some have not left it, one of those inside has a step that is not spinning in vain. |
| `Barrier.RoundCompletes` | Sargantana-based-Core/riscv-tests/benchmarks/common/util.h:60-78 | From every such state a bounded schedule lets all threads out. |
| `Cooperative.OutlineHolds` | Sargantana-based-Core/riscv-tests/benchmarks/common/util.h:60-78 | For any program of n cores with a local, non-interfering proof outline over barrier phases: what each core knows holds along every interleaving. |
| `Cooperative.NoDeadlock` | Sargantana-based-Core/riscv-tests/benchmarks/common/util.h:60-78 | If moreover all cores wait equally often, some core can move until all are done. |
| `AeMatmul.ReadsAreFinal` | Sargantana-based-Core/riscv-tests/mt/ae_matmul.c:38-101 | Along every interleaving, a core that reads BB reads the final value, an element of B transposed. |
| `AeMatmul.ProductComplete` | Sargantana-based-Core/riscv-tests/mt/ae_matmul.c:38-108 | Along every interleaving, once all cores are done C is A times B. |
| `AeMatmul.KernelNeverStuck` | Sargantana-based-Core/riscv-tests/mt/ae_matmul.c:38-108 | Until then some core can move: all cores meet the barrier equally often. |
| `CeMatmul.ReadsAreFinal` | Sargantana-based-Core/riscv-tests/mt/ce_matmul.c:38-145 | Along every interleaving, a core that reads BB reads the final value, an element of B transposed. |
| `CeMatmul.ProductAdded` | Sargantana-based-Core/riscv-tests/mt/ce_matmul.c:38-156 | Along every interleaving, once all cores are done C is what it was plus A times B. |
| `CeMatmul.KernelNeverStuck` | Sargantana-based-Core/riscv-tests/mt/ce_matmul.c:38-156 | Until then some core can move. |
| `DmMatmul.CopyComplete` | Sargantana-based-Core/riscv-tests/mt/dm_matmul.c:15-27 | What the cores copy before the barrier is all of B, although all but the last copy the same part. |
| `DmMatmul.ReadsAreFinal` | Sargantana-based-Core/riscv-tests/mt/dm_matmul.c:18-168 | Along every interleaving, every element of B1 that the last core reads after the barrier is that of B. |
| `DmMatmul.ProductAdded` | Sargantana-based-Core/riscv-tests/mt/dm_matmul.c:14-191 | Along every interleaving, once all cores are done C is what it was plus A times B, the last core reading B1 and the others B. |
| `DmMatmul.KernelNeverStuck` | Sargantana-based-Core/riscv-tests/mt/dm_matmul.c:14-191 | Until then some core can move. |
| `Sram.Compose` | fakeramTile/mem_generator.py:47-180 | For all widths the generator lays out the netlist: one macro per bank and column, slices, chip selects, row register, read mux and output parts. |
| `Sram.Layout` | fakeramTile/mem_generator.py:50-52 | Of every netlist it lays out: enough banks and columns and no more ((rows - 1) * 32 < 2^addr_w <= rows * 32, the columns likewise), rows times columns macros, bank by bank, and the data bits each of them holds. |
| `Sram.OneBankMoves` | fakeramTile/mem_generator.py:72-96 | A macro whose bank is not addressed, or without chip enable, stays as it was. |
| `Sram.TracesAgree` | fakeramTile/mem_generator.py:18-180 | For all widths, contents and clocked traces the composed memory shows at every edge what the flat reference memory shows. |
| `Sram.StepCommutes` | fakeramTile/mem_generator.py:33-180 | One clock edge of the composed memory is one clock edge of the flat one. |
| `Sram.StepBit` | fakeramTile/mem_generator.py:18-39 | Bit b of word a changes only in a write to word a with bit b of the mask set, and then to bit b of the data. |
| `Sram.StepOut` | fakeramTile/mem_generator.py:18-39 | A read puts bit b of the addressed word at the output; otherwise the output stands. |
| `Sram.ReadSettlesOutput` | fakeramTile/mem_generator.py:33-180 | For every trace with a read in it: memories of equal contents show the same from that read on and end with the same contents and output, whatever their registers held at power-up and whatever was written before the read. |
| `Sram.RowSelectNamesLastRead` | fakeramTile/mem_generator.py:129-134 | After any trace the row register names the bank of the last read. |
| `Sram.PlacesDistinct` | fakeramTile/mem_generator.py:98-127 | Distinct bits of the address space lie in distinct places of distinct macros. |
| `Sram.AddressSplits` | fakeramTile/mem_generator.py:72-85 | Bank and row inside the bank name every address, and the bank exists. |
| `Sram.BitSplits` | fakeramTile/mem_generator.py:98-115 | Column slices cover every data bit. |
| `DaisyChain.BatchIsLockStep` | Sargantana-based-Core/riscv-tests/debug/rbb_daisychain.py:36-61 | For any number of TAPs and any batch, running it TAP by TAP gives the final states and replies of stepping all TAPs in lock step. |
| `DaisyChain.ScanShifts` | Sargantana-based-Core/riscv-tests/debug/rbb_daisychain.py:42-46 | In lock step a command reaches every TAP with all bits but the lowest unchanged; the lowest bit, TDI, is in a scan what the TAP before shows after it has taken the scan, and the client's own for the first TAP and for commands that are no scans. |
| `DaisyChain.ReadShows` | Sargantana-based-Core/riscv-tests/debug/rbb_daisychain.py:48-57 | A read changes no TAP, and the client gets 1 or 0, as the last TAP shows. |
| `DaisyChain.CommandBytes` | Sargantana-based-Core/riscv-tests/debug/rbb_daisychain.py:42-52 | Scans are the characters 0 to 7; R, the read, is none of them. |
| `DaisyChain.MiddleReplies` | Sargantana-based-Core/riscv-tests/debug/rbb_daisychain.py:48-57 | A TAP that is not the last answers exactly once per scan, so the replies never run out and the assertion that none is left holds. |
| `DaisyChain.OneReplyPerRead` | Sargantana-based-Core/riscv-tests/debug/rbb_daisychain.py:36-61 | The client gets one reply byte for each read. |
| `DaisyChain.BatchSplits` | Sargantana-based-Core/riscv-tests/debug/rbb_daisychain.py:36-61 | Splitting a batch anywhere changes neither replies nor final states. |
| `DaisyChain.Chain.TapExecute` | Sargantana-based-Core/riscv-tests/debug/rbb_daisychain.py:15-26 | Leaves every other TAP alone and collects one reply per read. |
| `DaisyChain.Chain.Rewrite` | Sargantana-based-Core/riscv-tests/debug/rbb_daisychain.py:39-56 | The inner loop consumes all replies and yields exactly the commands the TAP should see. |
| `DaisyChain.Chain.Execute` | Sargantana-based-Core/riscv-tests/debug/rbb_daisychain.py:36-61 | The whole batch, in place on the TAPs, is the lock-step run. |
| `PageTables.FivePages` | Sargantana-based-Core/riscv-tests/debug/programs/translate.c:73-82 | Whatever the alignment of page_buffer, get_page answers five times and would wait for ever the sixth. |
| `PageTables.PagesInside` | Sargantana-based-Core/riscv-tests/debug/programs/translate.c:73-82 | The five pages are aligned, begin in the first 4096 bytes of the buffer, follow one another and end inside it. |
| `PageTables.Program.GetPage` | Sargantana-based-Core/riscv-tests/debug/programs/translate.c:73-82 | Hands out the next aligned page of the buffer when one is left. |
| `PageTables.Program.SetupPageTable` | Sargantana-based-Core/riscv-tests/debug/programs/translate.c:104-116 | All entries of the table get their value, and no word outside the table changes. |
| `PageTables.Program.AddEntry` | Sargantana-based-Core/riscv-tests/debug/programs/translate.c:125-152 | At any level. Where the root entry is a leaf or invalid, or is itself the one to write: a chain of new tables leads to an entry for physical, all other root entries and all other memory are unchanged, and one page is used per level. Where it is anything else, such as a pointer to a table: the root is not written to, and every write goes to the page whose address the entry itself would be and to tables reached from there. |
| `PageTables.WalkChain` | Sargantana-based-Core/riscv-tests/debug/programs/translate.c:125-152 | The walk of section 4.3.2 of the RISC-V Privileged Architecture follows such a chain to physical with the offset kept, at any leaf level. |
| `PageEntries.WalkStep` | Sargantana-based-Core/riscv-tests/debug/programs/translate.c:84-123 | The walk of the architecture, which is defined with its own literal bit fields, reads the entry that entry and vpn address and goes on at the page the entry holds. |
| `PageEntries.VpnIsField` | Sargantana-based-Core/riscv-tests/debug/programs/translate.c:119-123 | vpn is, for every system and level, the field of the architecture: bits 12-21 and 22-31 for Sv32; 12-20, 21-29 and 30-38 for Sv39; these and 39-47 for Sv48. |
| `PageEntries.EntryIsFetched` | Sargantana-based-Core/riscv-tests/debug/programs/translate.c:84-92 | entry reads the four or eight little-endian bytes of the entry of the architecture. |
| `PageEntries.JoinMeans` | Sargantana-based-Core/riscv-tests/debug/programs/translate.c:125-133 | Where a leaf leads: the low 12, 21, 22, 30 or 39 bits are the address's own, the others those of the entry. |
| `PageEntries.LeafBits` | Sargantana-based-Core/riscv-tests/debug/programs/translate.c:129-134 | The entry for physical, bit by bit: all flags but G, and physical without its offset. |
| `PageEntries.TableBits` | Sargantana-based-Core/riscv-tests/debug/programs/translate.c:104-116 | The entries of a fresh table, bit by bit, for every system and level; the portion of physical is taken without shifting it. |
| `PageEntries.PointerFollowed` | Sargantana-based-Core/riscv-tests/debug/programs/translate.c:142-143 | The entry made for a new table is valid, no leaf, and leads the walk back to that table. |
| `PageEntries.LeafIsPhysical` | Sargantana-based-Core/riscv-tests/debug/programs/translate.c:131-133 | The final entry is a well-formed leaf for physical, aligned at every level. |
| `PageEntries.RootIsIdentity` | Sargantana-based-Core/riscv-tests/debug/programs/translate.c:105-116 | An entry of the root table maps each address under it to itself. |
| `PageEntries.FreshIsReplaceable` | Sargantana-based-Core/riscv-tests/debug/programs/translate.c:105-116 | A fresh table holds only readable and writable leaves, so add_entry replaces its entries and stays in its first branch below a new table. |
| `PageEntries.PointerIsNotAnAddress` | Sargantana-based-Core/riscv-tests/debug/programs/translate.c:147-149 | The branch for an existing table takes the entry itself for an address; that is the table if and only if the table is at address 0. |
| `SecondEntry.PointerGoesAstray` | Sargantana-based-Core/riscv-tests/debug/programs/translate.c:125-152 | Below a pointer to a table at any address but 0, add_entry continues in another page; as long as none of the pages it goes through is one of the tables the translation of the address reads, the address is translated as before. |
| `SecondEntry.OnlyItsIndexIsBarred` | Sargantana-based-Core/riscv-tests/debug/programs/translate.c:125-152 | After one call on a freshly filled root table, a second call below the root makes new tables if and only if its root index is another one. |
| `SecondEntry.AddTwice` | Sargantana-based-Core/riscv-tests/debug/programs/translate.c:104-152 | Two calls on a freshly filled root table: both pages are mapped if their root indices differ; if not, the first mapping stays as it was, for a page buffer above the first 8 KB of memory and unless the wrong table holds a further pointer. |
| `SecondEntry.OnePageOneTarget` | Sargantana-based-Core/riscv-tests/debug/programs/translate.c:125-152 | Where the first mapping of a page stands, a second one of the same page to another place has no effect. |
| `SecondEntry.WalkUnchanged` | Sargantana-based-Core/riscv-tests/debug/programs/translate.c:125-152 | Writes outside the tables that a translation reads do not change it. |
| `TranslateMain.SetUp` | Sargantana-based-Core/riscv-tests/debug/programs/translate.c:154-169 | The set-up of main needs no more pages than there are, and leaves satp with mode 1, 8 or 9 and the root table, and the mapping in place. |
| `TranslateMain.VirtualIs` | Sargantana-based-Core/riscv-tests/debug/programs/translate.c:158-164 | For every physical page of the buffer: virtual is physical with the bits from 28 (Sv32), 35 (Sv39) or 44 (Sv48) on flipped, the sign extension included. |
| `TranslateMain.VirtualGoesToPhysical` | Sargantana-based-Core/riscv-tests/debug/programs/translate.c:154-184 | Every address of the virtual page is translated to the same offset in physical: bits 0 to 11 stay, the others become those of physical. |
| `TranslateMain.OthersGoToThemselves` | Sargantana-based-Core/riscv-tests/debug/programs/translate.c:154-184 | Every canonical address under another root index is translated to itself (less its sign extension). |
| `TranslateMain.MappingKept` | Sargantana-based-Core/riscv-tests/debug/programs/translate.c:179-184 | Writing to the physical page changes nothing of this. |
| `TranslateMain.Run` | Sargantana-based-Core/riscv-tests/debug/programs/translate.c:154-184 | All of main: each page is seen through both addresses, so none of its four asserts fails. |
| `SpinLock.MulticoreSafety` | Sargantana-based-Core/riscv-tests/debug/programs/multicore.c:26-37 | For any number of harts and any interleaving in which every hart that starts its check has letters that do not wrap: one hart at a time between get_lock and put_lock, a rotated alphabet whenever the lock is free, and no letter check that fails. |
| `SpinLock.RunExcludes` | Sargantana-based-Core/riscv-tests/debug/programs/multicore.c:26-37 | Mutual exclusion holds along every run of any length, after a wrap-around too. |
| `SpinLock.ShortRunsAreSteady` | Sargantana-based-Core/riscv-tests/debug/programs/multicore.c:80-87 | Runs too short for a counter to reach the wrap-around meet the condition of MulticoreSafety. |
| `SpinLock.RotatedIffSteady` | Sargantana-based-Core/riscv-tests/debug/programs/multicore.c:80-83 | The letters a hart writes are a rotated alphabet if and only if they do not run across the wrap-around of its 32-bit sum. |
| `SpinLock.PassLeaves` | Sargantana-based-Core/riscv-tests/debug/programs/multicore.c:65-88 | Whatever the other harts do meanwhile, the pass of a hart that has found the alphabet ends with a rotated alphabet in the buffer if and only if its letters do not run across the wrap-around. |
| `SpinLock.PassWrites` | Sargantana-based-Core/riscv-tests/debug/programs/multicore.c:81-84 | The letters a pass leaves: at k, capitals of an odd hart and small letters of an even one, number (hart + count + k) modulo 2^32 modulo 26 of the alphabet. |
| `SpinLock.RotatedMeans` | Sargantana-based-Core/riscv-tests/debug/programs/multicore.c:75-79 | What the letter check accepts: thirty-two letters of one case, each the one after the letter before, A after Z. |
| `SpinLock.FirstFill` | Sargantana-based-Core/riscv-tests/debug/programs/multicore.c:68-73 | The buffer as the first hart fills it. |
| `SpinLock.NextPass` | Sargantana-based-Core/riscv-tests/debug/programs/multicore.c:65-88 | From a free lock and a rotated alphabet a run takes the hart through one pass, to its next count; the alphabet is still rotated if and only if that pass did not wrap. |
| `SpinLock.StartDecides` | Sargantana-based-Core/riscv-tests/debug/programs/multicore.c:65-88 | Where a check starts: if the hart is steady the invariant is kept; if not, then along every continuation its own pass is the last one ever completed. |
| `SpinLock.StoppedForEver` | Sargantana-based-Core/riscv-tests/debug/programs/multicore.c:65-88 | From a free lock over a buffer that is no rotated alphabet no hart completes a pass again, along any run. |
| `SpinLock.WrapStopsAllHarts` | Sargantana-based-Core/riscv-tests/debug/programs/multicore.c:26-88 | From every initial state of one or more harts some run reaches the wrap-around, and after it no hart ever comes to put_lock again. |
| `SpinLock.NextHartSpins` | Sargantana-based-Core/riscv-tests/debug/programs/multicore.c:65-88 | From there any hart at get_lock can be led to a letter check that it repeats for ever. |
| `SpinLock.SpinsIffNotRotated` | Sargantana-based-Core/riscv-tests/debug/programs/multicore.c:65-88 | From a free lock and a hart whose letters do not wrap, some run leaves it at a check that never passes if and only if the buffer is no rotated alphabet. |
| `SpinLock.SpinsForEver` | Sargantana-based-Core/riscv-tests/debug/programs/multicore.c:78-79 | A check that fails once fails for ever, and no other hart gets the lock. |
| `SpinLock.SomeHartMoves` | Sargantana-based-Core/riscv-tests/debug/programs/multicore.c:26-37 | As long as the invariant of MulticoreSafety holds, which is along every run without a wrap, some hart can go on. |
| `Crc32.Crc32a` | Sargantana-based-Core/riscv-tests/debug/programs/checksum.c:20-38 | For every message the bit-by-bit, left-shifting code gives the table-driven, right-shifting CRC-32 of section 8 of RFC 1952. |
| `Crc32.AddByte` | Sargantana-based-Core/riscv-tests/debug/programs/checksum.c:27-34 | Eight rounds of the inner loop are one table step on the reversed register. |
| `Crc32.ReverseBit` | Sargantana-based-Core/riscv-tests/debug/programs/checksum.c:6-13 | reverse puts bit 31 - i at bit i, for every i. |
| `Crc32.ReverseTwice` | Sargantana-based-Core/riscv-tests/debug/programs/checksum.c:6-13 | reverse is its own inverse. |
| `Crc32.ShiftReverses` | Sargantana-based-Core/riscv-tests/debug/programs/checksum.c:30-32 | A left shift with the polynomial is a right shift with its reflection, seen in the mirror. |
| `Crc32.UpdateIsShifts` | Sargantana-based-Core/riscv-tests/debug/programs/checksum.c:29-34 | A table lookup is eight single shifts. |
| `Crc32.CrcIsAffine` | Sargantana-based-Core/riscv-tests/debug/programs/checksum.c:20-38 | For messages of one length, crc(a) ^ crc(b) ^ crc(c) = crc(a ^ b ^ c). |
| `Crc32.KnownValues` | Sargantana-based-Core/riscv-tests/debug/programs/checksum.c:20-38 | The CRC of the empty message is 0, that of the characters 1 to 9 is 0xCBF43926. |
| `Crc32.FirstEntry` | Sargantana-based-Core/riscv-tests/debug/programs/checksum.c:20-38 | Entry 1 of the table is 0x77073096. |
| `FileList.ParseFilelist` | Sargantana-based-Core/parse_filelist.py:5-59 | The recursive walk over the shared visited set terminates on every include graph and answers as the specification function does, a missing file included. |
| `FileList.LineSays` | Sargantana-based-Core/parse_filelist.py:35-57 | For every text and white space around it: // and unknown options say nothing, -F and -f name a file list, +incdir+ a directory, +define+ a definition, anything else a source file, each with exactly the text behind the prefix. |
| `FileList.BlankSaysNothing` | Sargantana-based-Core/parse_filelist.py:34-36 | A line of white space says nothing. |
| `FileList.FlattenWhole` | Sargantana-based-Core/parse_filelist.py:5-59 | Succeeds exactly if every reachable file exists; then visited is exactly the reachable files, each listed once, and sources, include directories and defines are each file's own, once. |
| `FileTrace.FlattenInDepthFirstOrder` | Sargantana-based-Core/parse_filelist.py:36-59 | Whenever flattening succeeds there is a depth-first traversal of the include graph, as an event for every file opened and every line taken: each file is opened once, when a line first includes it, its lines come in order, and everything its call opens comes between two of its includer's lines. The sources, include directories and defines found are those of the lines, in the order of the traversal, and the files visited are in the order they were opened. |
| `FileTrace.TraversalUnique` | Sargantana-based-Core/parse_filelist.py:36-59 | An include graph has at most one such traversal, so the order of all entries is determined. |
| `FileList.FlattenExplores` | Sargantana-based-Core/parse_filelist.py:36-48 | What a call visits anew is reachable, exists and is listed once; a failure names a reachable file that does not exist. |
| `FileList.FlattenCloses` | Sargantana-based-Core/parse_filelist.py:36-48 | Every file visited anew leads only to visited files. |
| `FileList.FlattenCounts` | Sargantana-based-Core/parse_filelist.py:36-59 | The entries of a call are the own entries of the files it visited anew, counted. |
| `Interleaving.SumsArrive` | Sargantana-based-Core/riscv-tests/mt/ck_matmul.c:24-56 | For cores that load elements into registers and store them back with terms added, none touching an element of another: whatever the interleaving of the single accesses, in the end each element has gained what its core adds to it. |
| `Interleaving.CanFinish` | Sargantana-based-Core/riscv-tests/mt/ck_matmul.c:24-56 | From every state some schedule lets all cores finish. |
| `TiledProduct.EveryInterleaving` | Sargantana-based-Core/riscv-tests/mt/ck_matmul.c:14-60 | If each element of C belongs to one core and the accesses of each core add its terms, then every interleaving that completes leaves C plus A times B. |
| `CkMatmul.BlockRow` | Sargantana-based-Core/riscv-tests/mt/ck_matmul.c:19-56 | The circular column loop ends, having added each block of the row exactly once. |
| `CkMatmul.Matmul` | Sargantana-based-Core/riscv-tests/mt/ck_matmul.c:14-60 | A core adds all terms to exactly the elements of its block rows. |
| `CkMatmul.AllCores` | Sargantana-based-Core/riscv-tests/mt/ck_matmul.c:14-60 | All cores, one after the other in any order or with their accesses to C interleaved in any way: C is what it was plus A times B. |
| `BhMatmul.TileUp` | Sargantana-based-Core/riscv-tests/mt/bh_matmul.c:24-57 | Ascending, with running indices into B: one row by eight columns gets the terms of its half of k. |
| `BhMatmul.TileDown` | Sargantana-based-Core/riscv-tests/mt/bh_matmul.c:65-92 | Descending: the mirror image does the same. |
| `BhMatmul.Matmul` | Sargantana-based-Core/riscv-tests/mt/bh_matmul.c:14-96 | A core adds all terms to exactly the rows that are its own. |
| `BhMatmul.AllCores` | Sargantana-based-Core/riscv-tests/mt/bh_matmul.c:14-96 | All cores, any number of them, one after the other in any order or with their accesses to C interleaved in any way: C is what it was plus A times B. |
| `DcMatmul.Tile` | Sargantana-based-Core/riscv-tests/mt/dc_matmul.c:43-71 | A register block gets the sixteen terms of one block of k. |
| `DcMatmul.Naive` | Sargantana-based-Core/riscv-tests/mt/dc_matmul.c:163-166 | The element-by-element fallback adds all terms everywhere. |
| `DcMatmul.Matmul` | Sargantana-based-Core/riscv-tests/mt/dc_matmul.c:30-167 | Both passes together, in either order of the halves of k, add all terms to the core's rows. |
| `DcMatmul.AllCores` | Sargantana-based-Core/riscv-tests/mt/dc_matmul.c:30-167 | All cores, for any size, one after the other in any order or with their accesses to C interleaved in any way: C is what it was plus A times B. |
| `VectorAdd.Vvadd0` | Sargantana-based-Core/riscv-tests/mt/vvadd0.c:4-14 | A core writes sums exactly to its chunk and to the leftover indices dealt to it. |
| `VectorAdd.WrittenOnce` | Sargantana-based-Core/riscv-tests/mt/vvadd0.c:7-13 | No index is written twice, by one core or by two. |
| `VectorAdd.WriterIs` | Sargantana-based-Core/riscv-tests/mt/vvadd0.c:7-13 | Index i is written by core i / chunk if it is in the chunks, by core (i - start of the leftover) % ncores if it is in the leftover, and otherwise by none. |
| `VectorAdd.CoveredIff` | Sargantana-based-Core/riscv-tests/mt/vvadd0.c:7-13 | Every index is written if and only if n % ncores < n / ncores. |
| `VectorAdd.AllCores0` | Sargantana-based-Core/riscv-tests/mt/vvadd0.c:4-14 | All cores, one after the other in any order or with their stores interleaved in any way: exactly the indices outside the gap between chunks and leftover hold sums, and that is every index if and only if n % ncores < n / ncores. |
| `VectorAdd.Vvadd3` | Sargantana-based-Core/riscv-tests/mt/vvadd3.c:4-22 | The jump into the unrolled loop writes exactly count consecutive elements, for every count from 1 on; for a count of 0 the counter wraps and eight times 2^64 elements are written. |
| `VectorAdd.StoresItsShare` | Sargantana-based-Core/riscv-tests/mt/vvadd3.c:9-21 | A core writes as many elements as its share if and only if there are at least as many elements as cores. |
| `VectorAdd.AllCores3` | Sargantana-based-Core/riscv-tests/mt/vvadd3.c:4-22 | All cores, with their stores interleaved in any way: the chunks are summed and nothing else changes. |
| `VectorAdd.ChunksCoverIff` | Sargantana-based-Core/riscv-tests/mt/vvadd3.c:6-9 | The chunks of vvadd3 cover the vector if and only if ncores divides n. |
| `Printing.DigitsCanonical` | Sargantana-based-Core/riscv-tests/benchmarks/common/syscalls.c:169-175 | The digits stand for the number, are below the base, and none leads in vain. |
| `Printing.DigitsFit` | Sargantana-based-Core/riscv-tests/benchmarks/common/syscalls.c:166-175 | 64 entries are enough for every 64-bit number and base. |
| `Printing.DigitIs` | Sargantana-based-Core/riscv-tests/benchmarks/common/syscalls.c:178-179 | Digit d prints as character d of 0123456789abcdef. |
| `Printing.FieldShape` | Sargantana-based-Core/riscv-tests/benchmarks/common/syscalls.c:177-181 | What is printed ends with the digits, is as long as the width or the digits, whichever is more, and all before the digits is padding. |
| `Printing.Output.PrintNum` | Sargantana-based-Core/riscv-tests/benchmarks/common/syscalls.c:163-182 | Prints exactly the padding the width asks for and then the digits, without overflowing the buffer. |
| `Printing.Output.PrintSigned` | Sargantana-based-Core/riscv-tests/benchmarks/common/syscalls.c:304-311 | Prints the sign before the padding. |
| `Printing.Atol` | Sargantana-based-Core/riscv-tests/benchmarks/common/syscalls.c:471-490 | Skips spaces, takes one sign, and accumulates every further character unchecked; a step that leaves the range of long is an overflow. |
| `Printing.AtolReads` | Sargantana-based-Core/riscv-tests/benchmarks/common/syscalls.c:471-490 | Character by character: a leading space and a leading + change nothing, a leading - negates, and each further character multiplies by ten and adds. |
| `Printing.AtolOfPrinted` | Sargantana-based-Core/riscv-tests/benchmarks/common/syscalls.c:471-490 | For every number below 2^63 in size, width and padding: atol gives the number back, with no overflow on the way, if and only if there is no padding, or zeros, or spaces before an unsigned number, or the single dash before a zero. |
| `Printing.AtolReadsLong` | Sargantana-based-Core/riscv-tests/benchmarks/common/syscalls.c:471-490 | Without a width, atol gives back every number below 2^63 in size. |
| `Printing.AtolInRange` | Sargantana-based-Core/riscv-tests/benchmarks/common/syscalls.c:484-487 | While it reads the digits of a number below 2^63 the accumulator stays below 2^63. |
| `MemoryOps.Memcpy` | Sargantana-based-Core/riscv-tests/benchmarks/common/syscalls.c:386-414 | For all regions that do not overlap: exactly len bytes become the source's, whichever of the three loops does it. |
| `MemoryOps.Memset` | Sargantana-based-Core/riscv-tests/benchmarks/common/syscalls.c:416-433 | Exactly len bytes become the byte, word by word or byte by byte. |
| `MemoryOps.BytesReplicated` | Sargantana-based-Core/riscv-tests/benchmarks/common/syscalls.c:419-422 | Every byte of the replicated word is the byte, for both word sizes. |

## Left out

- TinyMalloc.Heap.Malloc: sizes and addresses are unbounded numbers, so requests for which `REAL_SIZE` or an alignment wraps around in `size_t` are not modelled, and `MALLOC_DIRECTION < 0` is not modelled.
- TinyMalloc.Heap.Realloc: memory holds a word at the address of its first byte, so the copy is stated for whole payload words, not single bytes.
- The stack limit of the allocator is fixed, with at least the minimum gap above the arena; a stack that moves is not modelled. `calloc`, `cfree`, `valloc` and `pvalloc` only call the modelled functions.
- `M_ALIGN` is the distance to the next multiple; for powers of two, the only alignments the source lets through, this is its bit expression.
- Memory ordering weaker than sequential consistency, for the barrier, the kernels and the spin lock; fences and atomic operations are single steps.
- AeMatmul.ProductComplete: needs ncores to divide lda, lda a multiple of 8 and lda * lda at most 1024, as the strides and the static array of the kernel do; elements are mathematical integers, and reads of the constant arrays A and B are not shared steps.
- CeMatmul.ProductAdded: needs lda = 32, which the kernel has built in, and column runs that hold whole tiles of eight.
- DmMatmul.ProductAdded: needs lda and lda / ncores to be multiples of 4 and lda * lda at most 1024.
- Termination of the cooperating kernels is stated as freedom from deadlock; fairness of the scheduler is not modelled.
- CkMatmul.AllCores: needs lda to be a multiple of 16.
- BhMatmul.AllCores: needs lda to be a multiple of 8.
- The accumulators of the ck and bh kernels are an array instead of eight named variables.
- Kernels whose result depends on the interleaving or that read out of bounds (cf, cm and af) have no such statement; the remaining kernels repeat the same tiles with other constants.
- The Verilog text that `mem_generator.py` writes is data here, not strings, and the 32 x 32 macro, whose source is not part of this model, is taken to behave like the flat memory at those widths. `generate_sram_wrapper_1p` and `generate_top_tile` are left out.
- TAPs are deterministic automata whose TDO can be read without changing state; sockets are left out.
- CSR writes, MPRV and permission checks of `translate.c`. Page-table memory is 32-bit words by address; reading an address is not restricted to mapped memory.
- The page buffer of `translate.c` is taken to end below 2^32 for Sv32, and below the addresses that need sign extension (2^38, 2^47) for Sv39 and Sv48.
- PageTables.Program.AddEntry: needs a page of the buffer for each level below the root, since get_page would wait for ever without one; the root is a page of the buffer. The new lower tables are not claimed to map one to one, because the source masks an address it has not shifted into the entry.
- SecondEntry.AddTwice: what a second call below a used root index does is proved for a page buffer that starts above 8 KB and a wrong table without a further pointer; otherwise the walk astray may by chance reach the path's own tables.
- Interrupts in `multicore.c`; the handler touches only its own counters.
- Crc32.Crc32a: message lengths are unbounded; from 2^31 bytes on the `int` index of the source overflows.
- Path and variable handling of the operating system are functions of the environment in `FileList`; file names are absolute, as they are when no relative base directory is given, and stripping a line removes the white space of ASCII, the separators 0x1c to 0x1f included.
- VectorAdd.Vvadd0: fewer elements than cores divide by zero in the source and are excluded.
- VectorAdd.Vvadd3: `size_t` has 64 bits, the vector at most 2^64 - 8 elements, and all elements written are in memory; with a count of 0 no real memory is that large.
- Printing.Atol: characters are those of ASCII; what C leaves undefined on overflow is one result, `Overflow`.
- Printing.Output.PrintSigned: the one number that cannot be negated, -2^63, is excluded; the other conversions of `vprintfmt` are left out.
- MemoryOps.Memcpy: overlapping regions, and the alignment test as a bit mask rather than as remainders of the word size.
- Single-loop helpers such as `verify`, `lfsr`, `strlen`, `median`, `histogram` and `rot13`, drivers, datasets, build scripts, register tables and host input and output.
