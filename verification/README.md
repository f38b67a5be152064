# A verified model of CEN64

CEN64 emulates the Nintendo 64. This project models parts of it that have a
simple meaning and a complicated implementation, and proves that the one is the
other. Each part is a module of functions and lemmas; where the source updates
objects in place, a class does so too, and its methods are proved against the
functions.

| files | what they model | what is proved |
|---|---|---|
| `RspWords.dfy`, `RspIsa.dfy`, `RspPipeline.dfy` | words and their values, the RSP's scalar instructions, and its five-stage pipeline, run back to front each cycle | every run of cycles is a run of a sequential delay-slot machine that computes on integers, whatever the stall decisions; exactly when that is the MIPS instruction set |
| `MemoryMapTree.dfy`, `MemoryMap.dfy`, `BusMap.dfy` | the bus memory map, a red-black tree in a node pool with parent links, and the table mapped into it | every insertion keeps a red-black tree in order; on ranges with ordered ends, as the table's are, a lookup is a linear scan, in logarithmic time |
| `Vr4300Bus.dfy`, `Vr4300Unaligned.dfy` | the CPU's load and store requests and the uncached path | unaligned pairs move exactly their bytes |
| `Vr4300DCache.dfy`, `Vr4300DCacheObject.dfy` | the write-back data cache, its miss handler, hit path and CACHE operations | every run refines flat memory |
| `HashTable.dfy`, `HashTableObject.dfy` | the open-addressing hash table | every sequence of operations refines a finite map; when one fails, and why |
| `Sha1.dfy`, `Sha1Object.dfy` | SHA-1 with its circular schedule, streaming and padding | the digest of FIPS 180-1; chunk independence |
| `RdpList.dfy` | the RDP's chunked command-list parser | any fragmentation executes the commands of the whole stream |
| `RdpTmem.dfy`, `RdpTmemObject.dfy` | Load_Tile into texture memory and the texel fetch | a loaded texel reads back as the image exactly when nothing overwrites it |
| `RdpCoverage.dfy` | the sub-pixel coverage of a scanline | each bit is a geometric test of its sample |
| `PiDma.dfy`, `PiDmaObject.dfy` | the PI's ROM transfer with its two hardware bugs | its closed form |
| `RspDma.dfy`, `RspDmaObject.dfy` | SP memory, its opcode cache and the RSP's DMA | the cache agrees with IMEM; the round trip is exact |
| `Rendezvous.dfy` | the two emulation threads as a state machine | no deadlock, no lost wake-up, equal cycle ratios |
| `SiCrc.dfy` | the CRC-32 and the controller pak checksum | the bitwise definition; the polynomial remainder |

Hosts are little-endian, as the byte swaps of the source assume. The
instruction decoder's table has COP2 at opcode 18, although a comment beside it
gives another bit pattern; the model follows the table.

Where the source does not do what its names or comments suggest, a lemma gives
the input and another the exact condition. The hash table's `size` does not
count the entries once the table has been resized, so a table can fill up or be
shrunk too far (`TableFillsUp`, `ShrinkOverflows`); the contracts of the
operations say exactly when they succeed. A range that sticks out on both sides
of one inserted before it is partly lost to the bus's lookup
(`OverlapHidesRange`, `PairExactly`); the bus's own table overlaps but loses
nothing. SLL, SLLV and LUI add a register or a field that an assembler leaves
zero (`MipsExactly`).

Check everything with `dafny verify dfyconfig.toml`.

## Model

| member | source | states |
|---|---|---|
| RspWords.WordOfValue | rsp/functions.c:105-624 | A 32-bit word is determined by its value, read bit by bit |
| RspWords.AddValue | rsp/functions.c:105-119 | The host's addition of words is the sum of their values modulo 2^32 |
| RspWords.SubtractValue | rsp/functions.c:124-138 | The host's subtraction is the difference modulo 2^32 |
| RspWords.ShiftLeftValue | rsp/functions.c:511-520 | A left shift by n multiplies the value by 2^n modulo 2^32 |
| RspWords.ShiftRightValue | rsp/functions.c:602-624 | A logical right shift by n divides the value by 2^n |
| RspWords.AsrValue | rsp/functions.c:576-600 | An arithmetic right shift by n is the floor of the signed value divided by 2^n |
| RspWords.CountSumValue | rsp/functions.c:516 | The count of SLL_SLLV, as the host takes it, is the sum of the register's low five bits and the field, modulo 32 |
| RspWords.LessMeans | rsp/functions.c:525-574 | The unsigned comparison compares values, and the comparison with the sign bits flipped compares signed values |
| RspIsa.DecodeEncodes | rsp/decoder.c:326-332 | Decoding any word selects an opcode whose encoding bits the word carries |
| RspIsa.SumMeets | rsp/functions.c:124-138 | The mask that negates an operand and adds its sign computes the sum or the difference of the values modulo 2^32 |
| RspIsa.OrAsSum | rsp/functions.c:145-163 | (a & b) + (a ^ b) is a \| b: the selection that AND_OR_XOR uses for OR |
| RspIsa.LogicMeets | rsp/functions.c:145-163 | The selection of AND, XOR and their sum is the operation that the opcode names |
| RspIsa.LogicImmMeets | rsp/functions.c:170-190 | The same for the immediate forms |
| RspIsa.SumImmMeets | rsp/functions.c:105-119 | The one function of ADDIU and LUI adds the signed immediate, or 2^16 times the unsigned one, to the register's value |
| RspIsa.NorMeansComplement | rsp/functions.c:498-506 | NOR is 2^32 - 1 less the value of the disjunction |
| RspIsa.ShiftMeets | rsp/functions.c:511-624 | Each shift writes its integer meaning: the product by 2^n modulo 2^32, the quotient by 2^n, or the floor of the signed quotient, where n is the field, the register modulo 32, or for SLL and SLLV their sum modulo 32 |
| RspIsa.CompareMeets | rsp/functions.c:525-574 | The four comparisons write 1 exactly when the signed or unsigned values, of the register and the other register or the extended immediate, are in order |
| RspIsa.BranchMeets | rsp/functions.c:197-276 | Each branch is taken exactly on its condition on the signed value, to the sum of the delay slot's address and the offset inside IMEM, and the linking ones write the link |
| RspIsa.JumpMeets | rsp/functions.c:348-385 | Jumps go to their target inside IMEM and write the link register they name |
| RspIsa.LoadMeets | rsp/pipeline.c:165-180 | A masked, shifted word read gives the byte, halfword or word of DMEM, extended as the opcode says, and leaves memory alone |
| RspIsa.StoreMeets | rsp/pipeline.c:165-180 | A masked word write changes exactly the bytes of the store, most significant first |
| RspIsa.AccessMeets | rsp/functions.c:308-327 | The request that INT_MEM makes is served as the reference load or store |
| RspIsa.ExecuteMeetsReference | rsp/functions.c:105-624 | Main result: every scalar instruction writes the register, memory and fetch address of a reference that computes on integers and byte by byte |
| RspIsa.MipsExactly | rsp/functions.c:511-520 | What is written is what the MIPS instruction set says, whatever rt holds, exactly when LUI's register is zero, SLL's register is 0 modulo 32 and SLLV's field is zero |
| RspPipeline.OperandIsRetired | rsp/pipeline.c:95-104 | Patching the register file and restoring it forwards the retired value of every register, and zero for register 0 |
| RspPipeline.BackEndRetires | rsp/pipeline.c:221-230 | Write-back, data fetch and execution retire exactly the pending write |
| RspPipeline.BubbleCycle | rsp/pipeline.c:42-73 | A cycle without an instruction in the execution stage makes no architectural progress, whether it stalls or not |
| RspPipeline.FrontEndRefills | rsp/pipeline.c:26-39 | The front end refills from IMEM at the next program counter, or holds its instruction behind a bubble |
| RspPipeline.FullCycle | rsp/pipeline.c:221-234 | A cycle with an instruction in the execution stage is exactly one step of the sequential (pc, next pc) machine |
| RspPipeline.CyclesRefineRun | rsp/pipeline.c:221-234 | Main result: any number of cycles from any state that satisfies the invariant is a run of the sequential delay-slot machine |
| RspPipeline.AnyStallsRefineRun | rsp/pipeline.c:42-73 | The same for a pipeline that stalls by any other sequence of decisions |
| RspPipeline.StallsDoNotChangeResults | rsp/pipeline.c:54-70 | Two runs with different stall decisions that have executed as many instructions agree on registers, DMEM and program counters |
| RspPipeline.IssueRate | rsp/pipeline.c:54-70 | No two load-use bubbles are consecutive: n cycles issue at least (n - 2) / 2 instructions |
| RspPipeline.ResetRunRefines | rsp/pipeline.c:237-239 | From a reset, n cycles leave the state of k sequential instructions with k <= n <= 2k + 2 |
| RspPipeline.RunIsMips | rsp/functions.c:511-520 | On instructions in canonical form the sequential machine is that of the MIPS instruction set, for every run |
| RspPipeline.ResetRunIsMips | rsp/pipeline.c:221-239 | From a reset, the cycles of a program in canonical form leave what the machine of the MIPS instruction set leaves |
| RspPipeline.RegisterZero | rsp/pipeline.c:95-104 | Register 0 is the constant zero: two states that differ in its storage, and in results on their way to it, stay so, issue alike and show the same registers, memory and program counters after any number of cycles |
| RspPipeline.Rsp.WbStage | rsp/pipeline.c:209-218 | In place, the stage leaves the state of its function |
| RspPipeline.Rsp.DfStage | rsp/pipeline.c:150-183 | The data fetch stage, in place on DMEM and the latch |
| RspPipeline.Rsp.ForwardAndRead | rsp/pipeline.c:95-104 | The patched register file is read and restored |
| RspPipeline.Rsp.ExStage | rsp/pipeline.c:77-113 | The execution stage, in place |
| RspPipeline.Rsp.RdStage | rsp/pipeline.c:42-74 | The register fetch stage and its stall decision, in place |
| RspPipeline.Rsp.IfStage | rsp/pipeline.c:26-39 | The fetch stage, in place |
| RspPipeline.Rsp.CycleOnce | rsp/pipeline.c:221-234 | The five stages back to front are one cycle |
| RspPipeline.Rsp.RunCycles | rsp/pipeline.c:221-234 | n cycles in place are n cycles of the function |
| MemoryMapTree.RotateCorrect | bus/memorymap.c:168-215 | A rotation of the node pool rotates the tree it represents, keeps parent links and in-order sequence, and leaves the rest of the tree alone |
| MemoryMap.Case1 | bus/memorymap.c:27-88 | A red uncle: recolouring moves the red-red conflict two levels up and keeps the black counts and the order |
| MemoryMap.Case2 | bus/memorymap.c:27-88 | An inner child: a rotation turns it into the outer case |
| MemoryMap.Case3 | bus/memorymap.c:27-88 | An outer child: recolouring and a rotation end the conflict |
| MemoryMap.FixupEnd | bus/memorymap.c:85-87 | Blackening the root completes a red-black tree: black root, no red node with a red child, equal black counts |
| MemoryMap.WalkStep | bus/memorymap.c:111-126 | Each step of the insertion walk keeps every start not greater than the new one on the left and every greater one on the right |
| MemoryMap.InsertionComplete | bus/memorymap.c:91-147 | After an insertion the pool is a map again, its in-order sequence the old one with the range after all starts not greater than its own |
| MemoryMap.SearchSound | bus/memorymap.c:150-165 | A mapping that is found contains the address, whatever the ranges |
| MemoryMap.SearchComplete | bus/memorymap.c:150-165 | When no range ends after a range that comes later in start order, every address that some range contains is found, whether or not the ranges overlap |
| MemoryMap.SearchIsLinearScan | bus/memorymap.c:150-165 | Main result: under that condition the lookup finds a range exactly when a linear scan over the inserted ranges does, and the same one when only one contains the address |
| MemoryMap.VisitsLogarithmic | bus/memorymap.c:150-165 | A lookup among n ranges visits at most 2 log2(n + 1) nodes |
| MemoryMap.Map.constructor | bus/memorymap.c:19-24 | A fresh map is empty and valid, for any capacity |
| MemoryMap.Map.RotateLeft | bus/memorymap.c:168-190 | In place, the rotation of the specification |
| MemoryMap.Map.RotateRight | bus/memorymap.c:193-215 | In place, the rotation of the specification |
| MemoryMap.Map.FixupLeft | bus/memorymap.c:32-56 | One turn of the loop for a parent on the left keeps the conflict local and moves it up or ends it |
| MemoryMap.Map.FixupRight | bus/memorymap.c:58-81 | The same for a parent on the right |
| MemoryMap.Map.Fixup | bus/memorymap.c:27-88 | The loop terminates with a red-black tree of the same order |
| MemoryMap.Map.MapAddressRange | bus/memorymap.c:91-147 | Inserting fails exactly when the pool is full, and then changes nothing; otherwise the tree is valid and holds the range at its place, and under a black parent it is the old tree with one new leaf |
| MemoryMap.Map.Resolve | bus/memorymap.c:150-165 | The lookup loop is the search of the tree, with its soundness, completeness and bound |
| MemoryMap.MapTable | bus/controller.c:88-104 | Mapping a table succeeds exactly when the pool has two nodes more than the table has entries |
| BusMap.PairExactly | bus/memorymap.c:150-165 | Of two ranges every address is found exactly when not the second starts before the first, reaches its start, and ends after it |
| BusMap.MapPair | bus/memorymap.c:91-147 | Two insertions into a fresh map give the tree of that statement |
| BusMap.OverlapHidesRange | bus/memorymap.c:150-165 | The input: [50, 60] inserted before [0, 100] makes the lookup of 70 fail, and the other order does not |
| BusMap.EntriesOrdered | bus/controller.c:44-63 | Of the 17 entries of the bus's table none ends after a later one |
| BusMap.TableIsUnambiguous | bus/controller.c:44-63 | An address is in two entries exactly when it is FlashRAM's, inside SRAM, or in the part of SRAM that runs into the cartridge |
| BusMap.TableLookup | bus/controller.c:119-133 | A lookup in any map of the table finds nothing exactly when no entry contains the address, otherwise an entry that does, and the only one outside those two regions |
| BusMap.MapBus | bus/controller.c:41-107 | bus_init succeeds, and then every address of the bus resolves so |
| Vr4300Bus.StoreWordBytes | vr4300/fault.c:283-295 | A masked word write changes exactly the bytes under the mask |
| Vr4300Bus.StoreDoubleBytes | vr4300/fault.c:283-295 | The same for a doubleword |
| Vr4300Bus.PlainRequestsFit | vr4300/functions.c:1200-1223 | The requests of plain loads and stores only involve bytes of their word |
| Vr4300Bus.DoubleRequestsFit | vr4300/functions.c:1170-1189 | The requests of LD and SD stay in their doubleword |
| Vr4300Bus.WordSidesFit | vr4300/functions.c:1269-1309 | So do those of the word sides |
| Vr4300Bus.DoubleSidesFit | vr4300/functions.c:1229-1262 | And those of the doubleword sides |
| Vr4300Unaligned.PlainLoadReads | vr4300/functions.c:1200-1223 | A load of 1, 2 or 4 bytes gives those bytes of the word, sign- or zero-extended |
| Vr4300Unaligned.PlainStoreWrites | vr4300/functions.c:1200-1223 | A store of 1, 2 or 4 bytes writes the register's low bytes and nothing else |
| Vr4300Unaligned.StoreWordPair | vr4300/functions.c:1545-1578 | SWL at a and SWR at a + 3 store exactly the four bytes at a, for every address |
| Vr4300Unaligned.StoreDoublePair | vr4300/functions.c:1506-1538 | SDL at a and SDR at a + 7 store exactly the eight bytes at a |
| Vr4300Unaligned.LoadWordPair | vr4300/functions.c:1269-1309 | LWL at a and LWR at a + 3, in either order, load the word at a, sign-extended, whatever the register held |
| Vr4300Unaligned.LoadDoublePair | vr4300/functions.c:1229-1262 | LDL at a and LDR at a + 7, in either order, load the doubleword at a |
| Vr4300Unaligned.WordPairRoundTrip | vr4300/functions.c:1269-1309 | A word stored by a pair is the word that a pair loads back, at any address |
| Vr4300DCache.HitIsUnique | vr4300/dcache.c:124-134 | A physical line sits in at most one slot, the one that a probe looks at |
| Vr4300DCache.FlushedLine | vr4300/fault.c:301-313 | A write-back puts the content of its slot in memory and changes no other line |
| Vr4300DCache.FlushAndReplace | vr4300/fault.c:301-324 | Flushing a slot and giving it a faithful or invalid content keeps coherence and flat memory |
| Vr4300DCache.FilledKeepsFlat | vr4300/fault.c:301-324 | A miss keeps flat memory, and the access hits afterwards |
| Vr4300DCache.IndexWbInvalidatedKeepsFlat | vr4300/functions.c:560-584 | The index write-back invalidate keeps flat memory and empties the slot |
| Vr4300DCache.HitWbInvalidatedKeepsFlat | vr4300/functions.c:621-646 | The hit write-back invalidate keeps flat memory, and the line no longer hits |
| Vr4300DCache.HitWrittenBackKeepsFlat | vr4300/functions.c:648-673 | The hit write-back keeps flat memory and leaves the line in memory and in the cache |
| Vr4300DCache.LoadOnHit | vr4300/pipeline.c:336-353 | The shifts of the hit path read what the uncached path reads from flat memory |
| Vr4300DCache.StoreOnHit | vr4300/pipeline.c:336-361 | The merge of the hit path changes the bytes that the uncached write changes |
| Vr4300DCache.AccessIsUncached | vr4300/pipeline.c:284-362 | A cached access, hit or miss, returns and does what the uncached access does on flat memory |
| Vr4300DCache.RunRefinesFlatMemory | vr4300/fault.c:301-324 | Main result: every run of cached accesses and write-back CACHE operations reads and leaves what flat memory gives |
| Vr4300DCache.WriteBackAllLeavesFlatMemory | vr4300/functions.c:560-584 | From an empty cache, a run and a write-back of all lines leave in RDRAM what the run does without a cache |
| Vr4300DCache.DebuggerReadsFlat | vr4300/interface.c:231-241 | The debugger's word read through the cache is flat memory's word, at every aligned address |
| Vr4300DCacheObject.AllPlaced | vr4300/fault.c:319-324 | Four words put at their swapped places in the buffer are the line in host order |
| Vr4300DCacheObject.NextWordWritten | vr4300/fault.c:307-312 | Each turn of the write-back loop writes the next word of the line in memory order |
| Vr4300DCacheObject.DCache.constructor | vr4300/dcache.c:105-106 | A zeroed cache is coherent and empty |
| Vr4300DCacheObject.DCache.Probe | vr4300/dcache.c:124-134 | The probe answers whether the slot holds the physical line |
| Vr4300DCacheObject.DCache.BusReadWord | ri/controller.c:46-53 | A word of RDRAM, big-endian |
| Vr4300DCacheObject.DCache.BusWriteWord | bus/controller.c:136-141 | A word that the bus masks and write_rdram merges into RDRAM changes exactly the bytes under the mask |
| Vr4300DCacheObject.DCache.WriteBack | vr4300/fault.c:307-312 | The word loop writes the line |
| Vr4300DCacheObject.DCache.ReadLine | vr4300/fault.c:319-324 | The word loop reads the line in host order |
| Vr4300DCacheObject.DCache.FlushSlot | vr4300/dcache.c:151-157 | Only a valid and dirty line is written back |
| Vr4300DCacheObject.DCache.MissFill | vr4300/fault.c:301-324 | The miss handler, in place |
| Vr4300DCacheObject.DCache.IndexWbInvalidate | vr4300/functions.c:560-584 | The CACHE operation, in place |
| Vr4300DCacheObject.DCache.HitWbInvalidate | vr4300/functions.c:621-646 | The CACHE operation, in place |
| Vr4300DCacheObject.DCache.HitWriteBack | vr4300/functions.c:648-673 | The CACHE operation, in place |
| Vr4300DCacheObject.DCache.AccessData | vr4300/pipeline.c:284-362 | The data cache stage in place: the program sees the uncached access on flat memory |
| HashTable.WrapIsRemainder | common/hash_table.c:16 | Masking with capacity - 1 is the remainder, because capacities are powers of two |
| HashTable.NextWraps | common/hash_table.c:16 | The next slot is the masked successor |
| HashTable.FindStops | common/hash_table.c:18-40 | Find stops at the key's slot or the first free slot of its probe path, and fails exactly on a table full of other keys |
| HashTable.FindInMap | common/hash_table.c:18-40 | On a table that stands for a map, find gives the map's entry, a free slot for a missing key, or that the table is full |
| HashTable.PutInMap | common/hash_table.c:128-138 | Writing the found slot updates the map at that key only and keeps every entry reachable |
| HashTable.RehashKeepsMap | common/hash_table.c:58-74 | Rehashing keeps the map, and succeeds exactly when the entries fit the new capacity |
| HashTable.PutAnchored | common/hash_table.c:128-138 | No probe path goes on past the slot that a put fills, so after the put that fills the table the paths still do not chase each other all the way round |
| HashTable.FoundAtHole | common/hash_table.c:141-161 | While holes are filled, an entry is found at the hole exactly when its probe path crosses it, otherwise where it is |
| HashTable.MoveKeepsFilling | common/hash_table.c:141-161 | Moving that entry leaves one hole, further on, and repairs its path |
| HashTable.FillHolesKeepsEntries | common/hash_table.c:141-161 | Whatever the table, the loop loses no entry, invents none and duplicates none |
| HashTable.LastMoveRestores | common/hash_table.c:141-161 | The turn at the anchor slot of a table that was full leaves no path across a hole |
| HashTable.FillHolesIdle | common/hash_table.c:141-161 | On a table whose entries are all reachable the loop changes nothing |
| HashTable.FillHolesRestores | common/hash_table.c:141-161 | The loop closes the hole: every remaining entry is reachable, clusters that wrap around and full tables included |
| HashTable.DeleteRemovesKey | common/hash_table.c:163-181 | Main result: deleting removes exactly that key and keeps every remaining key reachable, however full the table was |
| HashTable.DeletesFromFull | common/hash_table.c:166-170 | Sixteen new keys and one deletion delete from a full table of sixteen slots |
| HashTable.TableFillsUp | common/hash_table.c:58-74 | Because a resize leaves the size field at 0, the table fills up: 4096 new keys fit and the 4097th fails |
| HashTable.ShrinkOverflows | common/hash_table.c:166-170 | For the same reason 27 new keys and two deletions make a shrink that does not fit |
| HashTable.ExactSizeNeverFails | common/hash_table.c:121-138 | With a size field that counts the entries, neither operation fails while a slot is free |
| HashTableObject.Table.constructor | common/hash_table.c:76-85 | The smallest allowed power of two that is at least the capacity, and an empty map |
| HashTableObject.Table.FindEntry | common/hash_table.c:18-40 | The probing loop is the function, and terminates |
| HashTableObject.Table.Resize | common/hash_table.c:58-74 | The map is kept; it succeeds exactly when the entries fit; the size field restarts at 0 |
| HashTableObject.Table.Get | common/hash_table.c:102-119 | The value of the key in the map, a miss, or the failed assertion on a full table |
| HashTableObject.Table.Put | common/hash_table.c:128-138 | The second half of a set, in place |
| HashTableObject.Table.Set | common/hash_table.c:121-138 | The map updated at the key, with the exact condition under which it fails and the new counters |
| HashTableObject.Table.CheckHoles | common/hash_table.c:141-161 | The loop in place is the function, and terminates |
| HashTableObject.Table.Remove | common/hash_table.c:172-180 | The second half of a deletion, in place: always a valid table |
| HashTableObject.Table.Delete | common/hash_table.c:163-181 | The map without the key in a valid table, with the exact condition under which it fails and the new counters |
| HashTableObject.Table.Perform | common/hash_table.c:102-181 | Main result: any sequence of sets, gets and deletes fails exactly when the counters say so, and otherwise leaves and answers what a finite map does |
| Sha1.ChunkIsBytes | device/sha1.c:244-256 | A copied chunk is its bytes taken one at a time, the step on a full buffer included |
| Sha1.LoopIsAbsorb | device/sha1.c:232-257 | sha1_loop, whatever its chunks, takes the bytes one at a time |
| Sha1.StreamingIsChunkIndependent | device/sha1.c:232-257 | From any context, two calls do what one call on the whole input does |
| Sha1.PadHolds | device/sha1.c:197-229 | The padding is that of section 4 of FIPS 180-1, also when it takes an extra block |
| Sha1.StreamDigest | device/sha1.c:281-290 | Main result: init, loop and result give the FIPS 180-1 digest of every byte string |
| Sha1Object.WindowMoves | device/sha1.c:146-171 | The 16-word circular schedule always holds the last 16 words of the 80-word one, and each round uses the word of that round |
| Sha1Object.Sha1Context.constructor | device/sha1.c:185-194 | The initial chaining words and an empty buffer |
| Sha1Object.Sha1Context.SwapBytes | device/sha1.c:107-142 | The byte swaps reverse each word of the block |
| Sha1Object.Sha1Context.BlockWords | device/sha1.c:107-142 | The swapped block read in host order is the block's big-endian words |
| Sha1Object.Sha1Context.RunRounds | device/sha1.c:144-171 | The four loops compute the 80 rounds of section 7 of FIPS 180-1 |
| Sha1Object.Sha1Context.Step | device/sha1.c:100-180 | The block is compressed into the chaining words and cleared |
| Sha1Object.Sha1Context.Update | device/sha1.c:232-257 | The copying loop, in place |
| Sha1Object.Sha1Context.PadOut | device/sha1.c:197-229 | The padding, in place |
| Sha1Object.Sha1Context.Result | device/sha1.c:260-279 | The digest bytes of the padded context |
| Sha1Object.Sha1Of | device/sha1.c:281-290 | The whole computation on any byte string is the digest of the standard |
| RdpList.TriangleLength | rdp/n64video.c:6432-6450 | A triangle command has eight words, sixteen more for shade, sixteen for texture and four for depth |
| RdpList.ParseKeepsWords | rdp/n64video.c:7611-7658 | The commands executed and the words left waiting make up the stream |
| RdpList.ParseAppend | rdp/n64video.c:7611-7658 | More words after a stream are parsed together with what waited |
| RdpList.ParseInChunks | rdp/n64video.c:7618-7634 | Going back over an incomplete command at the end of a chunk and reading its words again continues the same stream |
| RdpList.RunParsesStream | rdp/n64video.c:7548-7669 | Main result: a run of calls executes the commands of the concatenated stream |
| RdpList.FragmentationDoesNotMatter | rdp/n64video.c:7548-7669 | Two runs over the same stream execute the same commands, however it is cut into calls |
| RdpList.Processor.LoadWords | rdp/n64video.c:7590-7607 | The copying loop appends the next words of the list to the buffer |
| RdpList.Processor.Execute | rdp/n64video.c:7611-7658 | The inner loop executes the complete commands of the buffer and leaves the rest |
| RdpList.Processor.RunList | rdp/n64video.c:7584-7661 | The outer loop terminates, and parses what waited together with the list |
| RdpList.Processor.ProcessList | rdp/n64video.c:7548-7669 | The call parses the list after what waited, updates the registers, and writes past the buffer exactly when the first chunk does not fit in it |
| RdpTmem.QwordIsBytes | rdp/n64video.c:5664-5724 | The eight alignment cases load the eight bytes at the pointer |
| RdpTmem.IndicesAreGroup | rdp/n64video.c:3516-3555 | The sorted bank indices are the four halfwords of one doubleword of TMEM, on even and odd lines alike |
| RdpTmem.WriteIsGroup | rdp/n64video.c:5766-5801 | The four stores, in every case of line and half, write that doubleword arranged for its line |
| RdpTmem.PlaceOfStep | rdp/n64video.c:4103-4128 | The 16-bit coordinates of a turn, wrapped or not, select the doubleword of the row and column |
| RdpTmem.StepIsGroup | rdp/n64video.c:5629-5808 | One turn of the loop writes one doubleword of TMEM, where the quad belongs |
| RdpTmem.TexelInGroup | rdp/n64video.c:2066-2074 | Where the fetch finds a texel of a quad |
| RdpTmem.TileReadsBack | rdp/n64video.c:5629-5808 | Main result: after Load_Tile every texel fetched from the tile is its halfword of the image, for any alignment |
| RdpTmem.FittingTile | rdp/n64video.c:5629-5808 | A tile whose rows fit their lines and which ends inside TMEM does not overlap itself |
| RdpTmem.NoOverlapMeansLast | rdp/n64video.c:5629-5808 | A tile does not overlap itself exactly when every quad is the last one loaded into its doubleword |
| RdpTmem.OverlapLosesTexel | rdp/n64video.c:5629-5808 | For a quad that a later one overwrites there is an image, of a width and in a place that the source can hold, whose texel is lost |
| RdpTmem.TexelReadsBackExactly | rdp/n64video.c:5629-5808 | A texel reads back from every image exactly when no later quad of its tile goes to its doubleword of TMEM |
| RdpTmemObject.TextureMemory.WalkEdges | rdp/n64video.c:6271-6425 | The edge walk gives every line of the tile its last texel and its t coordinate |
| RdpTmemObject.TextureMemory.LoadSpan | rdp/n64video.c:5629-5808 | The inner loop, in place |
| RdpTmemObject.TextureMemory.StoreQuad | rdp/n64video.c:5766-5801 | The four stores, in place |
| RdpTmemObject.TextureMemory.LoadTile | rdp/n64video.c:7332-7360 | The whole command, in place |
| RdpCoverage.LeftBits | rdp/n64video.c:7824-7829 | The left partial mask keeps the samples at or right of the edge |
| RdpCoverage.RightBits | rdp/n64video.c:7816-7822 | The right partial mask keeps the samples left of the edge |
| RdpCoverage.EdgeBits | rdp/n64video.c:7923-7932 | The edge masks, intersected when the edges share a pixel, hold the samples between the edges |
| RdpCoverage.CoverageIsGeometric | rdp/n64video.c:7891-7942 | Main result: each of a pixel's eight coverage bits is set exactly when its sub-scanline is valid and its sample lies between the edges |
| RdpCoverage.Coverage.Purge | rdp/n64video.c:7918-7921 | The loop clears the sub-scanline's samples in its range and nothing else |
| RdpCoverage.Coverage.Mark | rdp/n64video.c:7905-7940 | One sub-scanline, in place |
| RdpCoverage.Coverage.ComputeFlip | rdp/n64video.c:7831-7889 | Every pixel of a flipped span has the geometric coverage, and with edges inside the span nothing else changes |
| RdpCoverage.Coverage.ComputeNoFlip | rdp/n64video.c:7891-7942 | The same for a span that is not flipped |
| PiDma.FullBlock | pi/controller.c:169-216 | A block that is not the last ends at an aligned address, whatever the bugs of the first one left out |
| PiDma.LaterBlocks | pi/controller.c:169-216 | The blocks after the first copy the rest of the transfer, whole |
| PiDma.RomTransfer | pi/controller.c:169-216 | Main result: the closed form of a transfer of any length: a constant offset, a hole as long as the misalignment at the end of the first block, nothing else changed, and both address registers |
| PiDmaObject.PiController.RomFetch | pi/controller.c:91-101 | The bytes of the ROM, and 0xFF past its end |
| PiDmaObject.PiController.RunBlock | pi/controller.c:169-214 | One turn of the loop, in place |
| PiDmaObject.PiController.DmaWrite | pi/controller.c:152-217 | The loop terminates and leaves the closed form in RDRAM and the registers |
| RspDma.LoadAfterStore | rsp/interface.c:104-157 | A word read back from SP memory is the word written there, byte-swapped in DMEM and not in IMEM |
| RspDma.WrittenAgrees | rsp/interface.c:144-157 | Writing a word of IMEM makes the opcode cache agree with it and keeps every other agreement |
| RspDma.OpcodeCacheAgrees | rsp/interface.c:19-60 | Main result: after any run of CPU writes and DMA reads, every word of IMEM ever written is decoded in the opcode cache |
| RspDma.SpWordsDiffer | rsp/interface.c:37-58 | A transfer that fits in SP memory uses no SP address twice |
| RspDma.DmaReadArrives | rsp/interface.c:19-60 | Every word of a DMA read arrives, in DMEM and IMEM alike |
| RspDma.AlwaysApart | rsp/interface.c:70-98 | No request writes a word of RDRAM twice: rows do not run into each other and do not come round to the first |
| RspDma.DmaWriteArrives | rsp/interface.c:64-101 | Every word of a DMA write arrives, for every request |
| RspDma.DmaWriteLeavesOthers | rsp/interface.c:64-101 | A DMA write changes no word of RDRAM outside the transfer |
| RspDma.ReadThenWriteRestores | rsp/interface.c:19-101 | A DMA read and a DMA write with the same registers leave RDRAM as it was, when the rows do not overlap in SP memory |
| RspDma.RoundTripNeedsFit | rsp/interface.c:37-58 | For a transfer that overlaps itself in SP memory there are contents of RDRAM that the round trip loses |
| RspDma.RoundTripExactly | rsp/interface.c:19-101 | Main result: the round trip restores RDRAM, whatever it holds, exactly when the transfer fits in SP memory |
| RspDmaObject.RspMemory.WriteWord | rsp/interface.c:144-157 | A word written to SP memory and the opcode cache, in place |
| RspDmaObject.RspMemory.ReadWord | rsp/interface.c:104-114 | A word read from SP memory |
| RspDmaObject.RspMemory.ReadDma | rsp/interface.c:19-60 | The nested loops are the transfer, and the registers advance by its rows |
| RspDmaObject.RspMemory.WriteDma | rsp/interface.c:64-101 | The same for the other direction |
| Rendezvous.StepKeepsInv | device/device.c:200-221 | Every step of either thread keeps the invariant on the mutex, the flag, the sleeper and the counts |
| Rendezvous.QuantaStayTogether | device/device.c:194-259 | In every interleaving the finished quanta differ by at most one |
| Rendezvous.NeverBothBlocked | device/device.c:194-259 | In every reachable state a thread can step |
| Rendezvous.NoWakeUpIsLost | device/device.c:217-221 | A signal always finds the other thread asleep |
| Rendezvous.SleeperIsWoken | device/device.c:208-221 | While a thread sleeps the other is never blocked, and every step of it wakes the sleeper or brings it nearer to doing so |
| Rendezvous.MeetingMatchesSpin | device/device.c:297-314 | Main result: whenever the threads meet, every device has run as many cycles as in 3125 turns of the single-threaded loop for each meeting |
| Rendezvous.DriftIsBounded | device/device.c:200-205 | Between meetings neither thread runs more than a quantum ahead |
| SiCrc.ShiftLinear | si/cic.c:94-99 | A turn of the table loop is linear over exclusive or |
| SiCrc.TableStep | si/cic.c:107 | The table lookup is eight turns on the whole register |
| SiCrc.BitsAreShifts | si/cic.c:94-99 | Taking a byte's bits one at a time is eight turns on the register with the byte in it |
| SiCrc.ByteStep | si/cic.c:107 | The loop body takes a byte as eight bits do |
| SiCrc.FillTable | si/cic.c:91-102 | Entry n of the table is eight turns on n |
| SiCrc.SiCrc32 | si/cic.c:86-110 | The CRC-32 of section 8 of RFC 1952, of every byte string |
| SiCrc.PakDivides | si/pak.c:98-106 | The register is always a remainder of the bits so far modulo x^8 + x^7 + x^2 + 1, with the bits that left it as quotient |
| SiCrc.RemainderIsUnique | si/pak.c:98-106 | There is only one remainder |
| SiCrc.PakIsLinear | si/pak.c:93-109 | The checksum of a sum is the sum of the checksums |
| SiCrc.TakeByte | si/pak.c:99-105 | The inner loop on the byte register is eight steps of the division |
| SiCrc.ControllerPakCrc | si/pak.c:93-109 | The checksum is the remainder of the data times x^8 |

## Left out

- RSP vector unit, BREAK, CP0 moves and status writes: the vector operations are in headers that are not part of this model, and BREAK overwrites the write-back latch of the instruction before it.
- RSP DMEM accesses that run past the end of DMEM: the pipeline's claims require accesses inside it; such an access touches the first bytes of IMEM, which follows in the same array, without updating the opcode cache.
- RSP shift counts above 31: SLL and SLLV share a function whose C shift is undefined there; the model masks the count to five bits, as x86 does.
- RSP register 0's storage: the value that a branch leaves in its result latch is kept as the stale one; RspPipeline.RegisterZero shows that neither is ever seen.
- MemoryMap.Map.Resolve: needs a non-empty map, because the links of the empty map's sentinel are null pointers in the source.
- MemoryMap.SearchIsLinearScan: requires ranges with ordered ends, which BusMap.EntriesOrdered shows of the bus's table and BusMap.PairExactly shows not to be needed for every pair; which of several ranges that contain the address is found depends on the shape of the tree.
- Vr4300 TLB, segments, exceptions and interlock timing: addresses arrive translated, and only what an access reads and writes is modelled.
- Vr4300 virtual aliasing: the virtual and physical address must agree on the bits that select the slot; the source does not check it.
- Vr4300 uncached writes and DMA to a line that is in the cache: flat memory has no meaning then.
- Vr4300 CACHE operations with arbitrary contents: create dirty exclusive, set tag and hit invalidate do not keep flat memory.
- Vr4300DCache.DebuggerReadsFlat: requires an aligned address; vr4300_read_word_vaddr returns false for an unaligned one before it looks at the cache (vr4300/interface.c:197).
- HashTable: `hash_table_free` and the accessors of the two counters, one assignment each; keys are unbounded, which changes nothing as the multiplication wraps at a multiple of every capacity.
- SHA-1 on big-endian hosts: the other branch of the conditional compilation.
- RdpList.Processor: commands are recorded and not executed, list memory does not change during a call, and the pipeline does not crash; the address in RDRAM wraps inside the reading function.
- RdpTmem: tiles and images of 16-bit texels only; the other formats, Load_Block, Load_TLUT and the colour expansion of a fetched texel are not modelled.
- RdpTmem.TileReadsBack: requires that the tile does not overlap itself in TMEM, which RdpTmem.TexelReadsBackExactly shows is needed, and speaks of the first 256 rows, as the fetch takes the row modulo 256.
- RdpCoverage: how the edge walker computes the edges; a scanline's edges are inputs.
- PiDma.RomTransfer: requires that the transfer does not wrap around RDRAM or the cart's addresses; the other branches of the PI's DMA copy one buffer.
- RspDma: the write mask of `write_sp_mem` is ignored by the source and so by the model.
- RspDma.ReadThenWriteRestores: requires that the rows do not overlap in SP memory; RspDma.RoundTripExactly shows that this is needed.
- Rendezvous: thread shutdown, `longjmp` and spurious wake-ups; the condition variable's wait returns with the mutex released, as os/posix/thread.h does.
- RDP combiner, blender, depth tables, video output, audio, disk drive, controllers, GDB stub and start-up: easy members, or finite tables.
