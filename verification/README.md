# A verified model of the recompiler front end, the microcodes and the translation layer

This project models the parts of the repository whose correctness is not visible from any single
function, and proves what they do for all inputs, all runs or all interleavings.

* **The front end of the recompiler.** `MipsDecoder`, `FunctionDiscovery` and `FunctionSize` model the
  MIPS classifier, the worklist that finds function entries and the walk that sizes them. `MipsAssembler` is
  an assembler for control transfers, against which the classifier is proved in both directions, and
  `Reachability` says what is found and sized in terms of assembled instructions alone. `SymbolTable`,
  `BoundaryRepair` and `DelaySlotRepair` model the generator of the function table, the two tools that
  repair boundaries, and the loops in which they are run; `RepairLoop` is about the size file that these
  tools share.
* **The JPEG microcode.** `JpegReorder`, `JpegDequantise` and `JpegBlockLoop` (over `SpMemory`) model the
  zig-zag store table, the software-pipelined dequantisation and the in-place, prefetching, preemptible
  block loop around them, down to DMEM addresses and registers. `JpegPreemption` runs one picture over
  several tasks, with the registers that persist between them; `JpegPicture` says what the words of a
  picture header mean for its blocks.
* **The audio microcode.** `AudioFetch` models the chunked fetch of the command list.
* **The runtime translation layer.** `TextPcSet` is the lock-free set of text PCs under relaxed memory
  ordering; `TranslationFile`, `TranslationSearch`, `TranslationWidths` and `TranslationRoundTrip` are the
  writer and the loader of translations.json, `TranslationJson` and `TranslationMerge` the strict reader and
  the merge of a rebuild; `GuestMemory` and `StringCapture` are swizzled guest memory, the two scratch
  slots, the string inventory and the RAM scan.
* **The Yay0 oracle.** `Yay0` is the decompressor; `Yay0RoundTrip` is an encoder and the round trip.

Code that the repository writes as loops over mutable state is written as methods with loops or as classes
here, proved against functions and predicates, about which the lemmas then speak. `Basics` holds what the
modules share. Automatic induction is switched off on every lemma, so that proofs do not depend on what the
verifier happens to guess. `dafny verify dfyconfig.toml` checks everything.

Properties one might expect that the code does not have are stated with their exact condition, in terms of
what a caller can check beforehand, and with an input on which the code fails:

* The bisect gate of function discovery looks at a single known body. It means "strictly inside some known
  body" exactly when no known body starts strictly inside another (`BisectGateIsExact`); a nested body hides
  the rest of the outer one (`NestedBodyHides`).
* The generated table is a partition of the section exactly when every chosen function has room for one
  instruction (`TableIsPartition`); the minimum size of 4 otherwise reaches past an unaligned section end
  (`UnalignedIsOverrun`).
* The delay-slot scan falls silent exactly when every function of the first table has, at its end or in the
  room behind it, a word that needs no delay slot (`ScanFallsSilent`); a jal right before the next entry is
  listed for ever (`JalBeforeEntry`).
* A logged branch becomes internal exactly when the generator's inputs choose no function between the
  branching function and the target (`BranchBecomesInternal`, `EntryLeftInRange`).
* The merge tool and the fixer share the size file, but the generator takes the last line for an address and
  the merge tool the largest. The fixer's line lowers the minimum exactly when the function is truncated and
  ends more than one instruction below it (`FixLowersMinimum`), and a repaired branch can so be lost again
  (`BranchIsLostAgain`); the next merge pass restores the minimum (`DeriveRestoresMinimum`).
* When every load returns the current value, every lookup that ends after an add of its PC has finished
  finds it, in every interleaving (`AddedIsFound`). All accesses are relaxed, and stale loads change that: a
  lookup is then only sure to find a PC if its caller had seen the whole probe path occupied
  (`SeesAlongPath`), in particular all that the adding thread had seen (`NoMisses`). In every reachable state
  an idle thread that has not seen the path can miss the PC (`MissWithoutView`), even after the add has
  finished (`MissAfterAdd`).
* translations.json is read by searching for keys, and texts can look like keys. `Clean` is the exact condition
  on an entry (`CleanIsExact`). It differs from a condition one might guess: an ending in `"src_hex` matters in
  `src_jp`, and in the target only for the widths behind it; an ending in `"target` does no harm when the
  target is the word "target"; a target that ends in the key of one width takes the first width of the entry
  for it. A `src_jp` that is just the word "target" is loaded as the translation (`KeyWordIsLoaded`), and a
  target that is the word "fit_w" turns the one width into both (`WidthIsMistaken`).
* A rebuild reads the old file with a strict JSON reader, which refuses control characters inside texts, and
  the writer escapes only newlines and tabs. A printed file is read back exactly when its texts have no
  other ones (`ReadUndoesPrint`); if it is refused all its entries are dropped (`NothingDropped`,
  `UnreadableIsDropped`), and a second rebuild is not stable (`RebuildIsStable`).
* Of several entries with one key a rebuild keeps the first and the loader uses the last. What is loaded for a
  string that the new entries do not translate is unchanged exactly when the kept entry says what the
  deciding one says (`RebuildKeepsMap`, `RebuildChangesDoubled`).
* The entries of the file carry optional widths `orig_w` and `fit_w`, which the loader reads (`RoundTrip`), and
  a comment at src/main/diagnostics.cpp:999 says that the builder embeds the first. It prints neither: no
  translation loaded from a file as the builder prints it has a width (`PrintedWidths`), so a rebuild removes
  those that the existing file had.
* The RAM scan reports exactly the maximal runs when no qualifying run is longer than its buffer, and only
  then (`ScanIsExactIff`, `LongRunIsCut`).
* The dequantisation loop is sequential exactly for modes up to 2: a seventh matrix would be read from
  where the first, dummy store went (`SequentialExactly`, `SeventhIsLost`).
* The JPEG entry code reads the task flags only when the flag with value 2 is set; otherwise it tests a
  register that an earlier task left (`RestoreFollowsFlags`). The task that follows a yield therefore makes
  progress on every picture exactly when its flags contain both 1 and 2 (`TransparentExactly`). Any other one
  starts over and decodes blocks a second time, which is harmless exactly when that gives the same
  (`RestartIsHarmless`); there is a picture for which no outcome is right (`DecodedTwice`).

## Model
| member | source | states |
|---|---|---|
| MipsDecoder.DecodersAgree | tools/fix_truncated_delay_slots.py:16-33 | On all 32-bit words the delay-slot test accepts exactly what the classifier calls a call, branch, jump, indirect transfer or a return other than eret |
| MipsAssembler.AssembledIsClassified | tools/mips_find_functions.py:95-145 | Every branch, jump, call and return, assembled at any pc for any target in its reach, is classified as such with exactly that target |
| MipsAssembler.ClassifiedIsAssembled | tools/mips_find_functions.py:95-145 | Every word that is classified as a transfer is an assembled one with that target |
| MipsAssembler.InvalidIsReserved | tools/mips_find_functions.py:40-93 | The classifier stops at exactly the reserved encodings of MIPS III; 0 is the only nop |
| MipsAssembler.DelaySlotIsAssembled | tools/fix_truncated_delay_slots.py:16-33 | The delay-slot test accepts exactly the assembled transfers other than eret |
| FunctionDiscovery.BisectGateIsExact | tools/mips_find_functions.py:203-212 | For sorted known bodies the gate answers "strictly inside some body" at every address if and only if no body starts strictly inside another |
| FunctionDiscovery.NestedBodyHides | tools/mips_find_functions.py:203-212 | An input on which the gate differs: the end of an outer body behind a nested one |
| FunctionDiscovery.LeastIsUnique | tools/mips_find_functions.py:215-276 | Two least closed results for the same seeds are equal, so neither pop order nor set order matters |
| FunctionDiscovery.LeastIsGated | tools/mips_find_functions.py:221-234 | Every entry of the least result passed the gate, every head is aligned and in the section, every reached address is aligned valid code |
| FunctionDiscovery.LeastIsMonotone | tools/mips_find_functions.py:215-276 | More seeds find at least as much |
| FunctionDiscovery.VisitIsGood | tools/mips_find_functions.py:241-273 | Handling one instruction keeps the invariant: inside every closed result, and closed except for the worklist and the next address |
| FunctionDiscovery.AddSeed | tools/mips_find_functions.py:221-239 | Adding a gated seed keeps the invariant for the enlarged set of seeds |
| FunctionDiscovery.TakeHead | tools/mips_find_functions.py:275-276 | A head taken off the worklist is expected in every closed result |
| FunctionDiscovery.NothingLeft | tools/mips_find_functions.py:275-276 | A walk that stands on no code is over; with an empty worklist the state is the least closed result |
| FunctionDiscovery.Finder.Push | tools/mips_find_functions.py:231-234 | An address is explored and listed only if it is in the section, aligned and new |
| FunctionDiscovery.Finder.AddFunction | tools/mips_find_functions.py:221-229 | An entry is registered, explored and listed exactly if the gate lets it pass |
| FunctionDiscovery.Finder.Seed | tools/mips_find_functions.py:236-239 | Afterwards the address counts as a seed and the invariant holds |
| FunctionDiscovery.Finder.Step | tools/mips_find_functions.py:244-273 | The state changes by exactly the rules of the instruction's kind, and the path is left exactly at invalid words, returns and unconditional transfers |
| FunctionDiscovery.Finder.Walk | tools/mips_find_functions.py:241-273 | A walk keeps the invariant; the worklist grows only with the explored set |
| FunctionDiscovery.Finder.Drain | tools/mips_find_functions.py:275-276 | Terminates; the state is then the least closed result, and the unresolved sites are exactly the reached indirect jumps |
| FunctionDiscovery.Finder.SeedGaps | tools/mips_find_functions.py:298-316 | Seeds, in increasing order, exactly the uncovered addresses with a non-leaf prologue |
| FunctionDiscovery.FindSavedRa | tools/mips_find_functions.py:305-312 | Answers whether there is a k from 1 to 8 such that word k after the prologue saves ra and no word before it is jr ra |
| FunctionDiscovery.Discover | tools/mips_find_functions.py:236-319 | The whole run: least closed result of entry and known functions, exact gap seeds, and least closed result with them |
| Reachability.LeastIsReachable | tools/mips_find_functions.py:215-276 | A least closed result is what chains of assembled instructions lead to: reached addresses, functions and heads, each exactly |
| Reachability.AssembledTargetIsFound | tools/mips_find_functions.py:241-273 | A reached branch or jump assembled for an aligned target in the section makes it a head, a call for a gated entry makes it a function, and what does not stop is followed |
| Reachability.PrologueIsAssembled | tools/mips_find_functions.py:301-312 | A prologue is an assembled addiu sp,sp,-N with an assembled sw ra,X(sp) within eight words and no jr ra before it |
| FunctionDiscovery.DiscoveryIsDeterministic | tools/mips_find_functions.py:236-319 | Any two runs over the same section and known set agree in both phases, and the second phase only adds |
| FunctionSize.FuncSize | tools/mips_find_functions.py:325-357 | Terminates with the least size that covers every reachable valid instruction and the delay slot of each terminator, capped at the limit |
| FunctionSize.SizeIsUnique | tools/mips_find_functions.py:325-357 | There is only one such size |
| Reachability.SizedIsReachable | tools/mips_find_functions.py:325-357 | The sizing walk visits exactly what chains of assembled instructions inside the range lead to |
| Reachability.SizeIsExtent | tools/mips_find_functions.py:333-357 | The size ends behind the last instruction on such a chain, delay slot included, or at the limit |
| FunctionSize.VisitIsGood | tools/mips_find_functions.py:333-356 | One instruction keeps the stack-and-seen invariant |
| FunctionSize.DelaySlotsInside | tools/mips_find_functions.py:338-357 | What the later delay-slot scan looks for is already inside a sized function unless the limit or data cuts it off |
| SymbolTable.SortIsStable | tools/gen_symbols_toml.py:177 | The sort is ordered, keeps the multiset and, at each address, the first function |
| SymbolTable.DedupKeepsFirst | tools/gen_symbols_toml.py:178-183 | Removing duplicates keeps the first function at each address |
| SymbolTable.EntriesAreChosen | tools/gen_symbols_toml.py:145-183 | The listed entries strictly increase and are, address by address, the addition, else the first analysed function, if it is kept |
| SymbolTable.SizedIsTable | tools/gen_symbols_toml.py:185-197 | The sized list is the table of the specification |
| SymbolTable.TableIsUnique | tools/gen_symbols_toml.py:145-197 | The inputs determine the table; the order of the additions does not matter |
| SymbolTable.RowFits | tools/gen_symbols_toml.py:185-197 | Each row is aligned and in the section, with a positive word-multiple size that ends at or before the next entry |
| SymbolTable.TableIsPartition | tools/gen_symbols_toml.py:185-197 | The written intervals are disjoint, aligned and inside the section if and only if every function that the inputs choose has four bytes of room before the section end |
| SymbolTable.UnalignedIsOverrun | tools/gen_symbols_toml.py:185-197 | An input on which they are not: a section that ends two bytes after its last function starts |
| SymbolTable.LastWinsIsLast | tools/gen_symbols_toml.py:95-104 | The size the generator knows for an address is that of its last line, and there is one exactly if there is a line |
| SymbolTable.ListedExactly | tools/gen_symbols_toml.py:145-183 | An address is listed if and only if it is word-aligned, in the section, not dropped, and declared by an addition or an analysed function |
| SymbolTable.SizedExactly | tools/gen_symbols_toml.py:185-197 | A listed function has its declared name, and the larger of its size and its minimum, or fills up to the next entry if that is not positive or too large |
| SymbolTable.ReadFunctions | tools/gen_symbols_toml.py:145-170 | Analysed functions that pass the filters and have no addition, then the additions that pass them |
| SymbolTable.RemoveDuplicates | tools/gen_symbols_toml.py:178-183 | The loop computes the duplicate-free list |
| SymbolTable.AssignSizes | tools/gen_symbols_toml.py:185-197 | Every row gets the size of the specification, names and addresses unchanged |
| SymbolTable.Generate | tools/gen_symbols_toml.py:145-197 | Refuses exactly when no function is chosen, otherwise writes the table of the last size line per address |
| BoundaryRepair.AccumulationIsUnique | tools/derive_boundary_merges.py:58-95 | What a pass writes does not depend on the order of the pairs |
| BoundaryRepair.PassesCompose | tools/derive_boundary_merges.py:58-95 | Two passes are one pass over all pairs, so the order and split of logs does not matter |
| BoundaryRepair.PassIsIdempotent | tools/derive_boundary_merges.py:58-61 | Running again over the same log changes nothing |
| BoundaryRepair.LoadSizes | tools/derive_boundary_merges.py:74-79 | Every address with a line, and only those, gets a size that no line for it exceeds and that is on a line, or 0 |
| BoundaryRepair.LargestIsLargest | tools/derive_boundary_merges.py:74-79 | The specification used for it is the largest line for every list of lines |
| BoundaryRepair.WriteSizes | tools/derive_boundary_merges.py:109-117 | The file holds one line per address, in increasing order |
| BoundaryRepair.FileReadsBack | tools/derive_boundary_merges.py:74-117 | The written file means the same to the generator, which takes last lines, and to the next pass, which takes largest ones |
| BoundaryRepair.SearchFindsCalls | tools/derive_boundary_merges.py:50-52 | The search finds an entry if and only if four consecutive image bytes are a jal that the classifier takes for a call of it, from some pc in its region |
| BoundaryRepair.Derive | tools/derive_boundary_merges.py:62-95 | Merges, kept entries and minimum sizes are exactly those of the pairs and the files of earlier passes; entries are kept if called in that sense |
| BoundaryRepair.OnlyCalledAreChosen | tools/derive_boundary_merges.py:83-91 | With the merge list in force a function that is still chosen inside a logged range is a manual addition or a called entry |
| BoundaryRepair.BranchBecomesInternal | tools/gen_symbols_toml.py:185-197 | Through the written size file: the regenerated function contains the whole instruction at the target if and only if the inputs choose no function in the range |
| BoundaryRepair.LoggedBranchIsRepaired | tools/derive_boundary_merges.py:83-117 | The repair theorem across both tools and both files: no addition and no called entry in the range, so the branch becomes internal |
| RepairLoop.EntryLeftInRange | tools/derive_boundary_merges.py:83-117 | An input on which a called entry is kept by the merge pass, stays chosen, and keeps the branch outside |
| RepairLoop.FixLowersMinimum | tools/fix_truncated_delay_slots.py:49-68 | An appended line lowers the minimum of a function if and only if it is truncated and ends more than one instruction below it; such a function lacks the room for its minimum |
| RepairLoop.BranchIsLostAgain | tools/fix_truncated_delay_slots.py:49-68 | An input on which this makes a repaired branch external again |
| RepairLoop.DeriveRestoresMinimum | tools/derive_boundary_merges.py:74-117 | After another merge pass every function has at least the size that any line had for it |
| RepairLoop.SizedEndsWell | tools/mips_find_functions.py:325-357 | The last instruction inside a sized function needs no delay slot unless the limit, data or a terminator before it says so |
| RepairLoop.SizedAdditionStays | tools/gen_symbols_toml.py:185-197 | A sized addition with room and no larger minimum keeps its size in the table, and the delay-slot scan does not list it, with the same exceptions |
| DelaySlotRepair.Scan | tools/fix_truncated_delay_slots.py:49-59 | The scan lists exactly the truncated functions with four more bytes |
| DelaySlotRepair.RoundGrows | tools/fix_truncated_delay_slots.py:49-68 | A round grows exactly the truncated functions that have room, by one instruction, and keeps everything else |
| DelaySlotRepair.RoundSettlesAlike | tools/fix_truncated_delay_slots.py:49-68 | A round that changes the table uses up room and does not change where the rows settle; one that changes nothing has settled |
| DelaySlotRepair.SettledIsFirst | tools/fix_truncated_delay_slots.py:49-59 | A row settles at the first size whose last word needs no delay slot or whose room is used up |
| DelaySlotRepair.Repair | tools/fix_truncated_delay_slots.py:49-68 | Scan, append and regenerate terminates, in the table that the first one settles at, which further rounds keep |
| DelaySlotRepair.StuckAtNextEntry | tools/gen_symbols_toml.py:192-196 | At the fixpoint a function that still needs a delay slot ends exactly at the next entry, or at the section end |
| DelaySlotRepair.SettledRests | tools/fix_truncated_delay_slots.py:49-59 | The settled size ends on a word that needs no delay slot if and only if some size from the first one up to the room does |
| DelaySlotRepair.ScanFallsSilent | tools/fix_truncated_delay_slots.py:61-63 | The scan finds nothing at the end if and only if, in the ROM and the first table, every function has such a size |
| DelaySlotRepair.JalBeforeEntry | tools/fix_truncated_delay_slots.py:49-63 | An input on which the scan never falls silent |
| DelaySlotRepair.RepairsStay | tools/gen_symbols_toml.py:185-197 | What merging repaired survives the delay-slot loop, and gains its delay slot where there is room |
| JpegReorder.RankOfWalk | rsp/njpgdspMain.cpp:770-897 | The zig-zag walk of A.3.6 of ITU-T T.81 meets exactly 64 cells, the k-th being the one of rank k |
| JpegReorder.WalkOfRank | rsp/njpgdspMain.cpp:770-897 | Every cell is met, at its rank |
| JpegReorder.StoresFollowWalk | rsp/njpgdspMain.cpp:770-897 | The k-th of the 64 fixed store offsets is where the k-th cell of the walk lies in the transposed matrix |
| JpegReorder.StoreOfRank | rsp/njpgdspMain.cpp:770-897 | The store offsets hit every halfword of the matrix |
| JpegReorder.OrderedIsZigZag | rsp/njpgdspMain.cpp:770-897 | Coefficient k of the input is found at the k-th cell of the walk, transposed |
| JpegReorder.StoreMatrix | rsp/njpgdspMain.cpp:752-897 | One turn writes the whole ordered matrix and no other byte |
| JpegReorder.Reorder | rsp/njpgdspMain.cpp:733-907 | The do-while loop over mode + 4 matrices, also when it reads what it has written itself |
| JpegDequantise.Dequantise | rsp/njpgdspMain.cpp:555-732 | The nested pipelined loops leave the specified product of every matrix, and DMEM below the dummy store untouched |
| JpegDequantise.PipeStore | rsp/njpgdspMain.cpp:630-660 | The delayed store keeps all earlier results; the first one is a dummy |
| JpegDequantise.PipeLoad | rsp/njpgdspMain.cpp:662-697 | The look-ahead load gets the next input, or what was stored there |
| JpegDequantise.SequentialExactly | rsp/njpgdspMain.cpp:555-732 | The pipeline refines "matrix i := f(matrix i, table i)" for every f and every initial register content if and only if mode is at most 2 |
| JpegDequantise.SeventhIsLost | rsp/njpgdspMain.cpp:555-732 | For every larger mode there are an f and register contents with a wrong seventh matrix |
| JpegDequantise.DequantiseBlock | rsp/njpgdspMain.cpp:555-907 | Both loops together: the ordered products of all mode + 4 matrices, constants and tables untouched |
| JpegPicture.HeaderDescribes | rsp/njpgdspMain.cpp:225-459 | Six big-endian header words are base, count, mode and the three tables, and those only describe the picture |
| JpegPicture.MatrixHasItsTable | rsp/njpgdspMain.cpp:555-732 | Matrix i of a block is scaled with the table at header word 3 for i below mode + 2, at word 4 for i = mode + 2, at word 5 for the last one |
| JpegPicture.Geometry | rsp/njpgdspMain.cpp:400-459 | Blocks lie one behind the other and hold their mode + 4 matrices, in modes 0 and 2 exactly; they are decoded to one halfword per coefficient of the first mode + 2 |
| JpegBlockLoop.InputIntact | rsp/njpgdspMain.cpp:473-482 | With k blocks written over their input, every later input block is still what it was |
| JpegBlockLoop.WriteBlock | rsp/njpgdspMain.cpp:528-541 | Writing the next decoded block makes one step of progress and changes nothing else |
| JpegBlockLoop.WriteYieldBuffer | rsp/njpgdspMain.cpp:1676-1683 | Saving DMEM changes no progress |
| JpegBlockLoop.OutputIsUnique | rsp/njpgdspMain.cpp:460-541 | Two finished memories agree on every byte outside the yield buffer |
| JpegBlockLoop.SaveAreaReads | rsp/njpgdspMain.cpp:1661-1674 | The seven saved words read back, the tables and the output unharmed |
| JpegBlockLoop.RestoreFollowsFlags | rsp/njpgdspMain.cpp:131-200 | The flag of value 1 decides whether registers are restored, whatever r22 holds, if and only if the flag of value 2 is set |
| JpegBlockLoop.Microcode.Enter | rsp/njpgdspMain.cpp:80-224 | When a task is turned away at entry, when registers are restored, from which words, and what is left in r22 and r23 |
| JpegBlockLoop.Microcode.Begin | rsp/njpgdspMain.cpp:225-459 | A fresh task has the header's picture in its registers and the three tables in DMEM |
| JpegBlockLoop.Microcode.FirstFetch | rsp/njpgdspMain.cpp:460-511 | The first block of a run, fresh or resumed, is fetched |
| JpegBlockLoop.Microcode.DoBlock | rsp/njpgdspMain.cpp:512-1627 | The pending block is written once, this block decoded, and the next one fetched into its place before it is needed |
| JpegBlockLoop.Microcode.Dequantise | rsp/njpgdspMain.cpp:542-912 | The coefficients of the current block are ready, the counters stepped |
| JpegBlockLoop.Microcode.Prefetch | rsp/njpgdspMain.cpp:915-944 | The next input replaces the current one in DMEM without touching the coefficients |
| JpegBlockLoop.Microcode.Save | rsp/njpgdspMain.cpp:1661-1683 | The yield buffer holds all that a resumed task needs |
| JpegBlockLoop.Microcode.Yield | rsp/njpgdspMain.cpp:1647-1729 | A yielding task saves its state, still writes its pending block, and leaves 0x80 in r22 |
| JpegBlockLoop.Microcode.Blocks | rsp/njpgdspMain.cpp:460-1765 | Runs to the last block, or to the first block after which a yield is requested |
| JpegBlockLoop.Microcode.Run | rsp/njpgdspMain.cpp:80-1765 | One task with any flags: turned away with nothing changed, or restored from where the last one stopped, or started at block 0; it stops at the last block or the first requested yield |
| JpegPreemption.ContinuesExactly | rsp/njpgdspMain.cpp:460-541 | Decoding the memory as it is from the first block not done yet is the same as progress on the original picture |
| JpegPreemption.RestartIsHarmless | rsp/njpgdspMain.cpp:131-511 | After a task that starts over on b decoded blocks the memory shows progress if and only if decoding those blocks again gives what decoding them once gave |
| JpegPreemption.TransparentExactly | rsp/njpgdspMain.cpp:131-200 | After a yield whatever the next task makes of the memory is progress, for every picture, if and only if its flags contain 1 and 2 |
| JpegPreemption.DecodedTwice | rsp/njpgdspMain.cpp:131-511 | A picture of two blocks, the first one decoded: no outcome of a task that starts over shows progress on it, however far the task gets |
| JpegPreemption.NextTask | rsp/njpgdspMain.cpp:80-1765 | A task between two others decodes from where the last one stopped, or from block 0, by its flags and the r22 that persists |
| JpegPreemption.LastFreshDecides | rsp/njpgdspMain.cpp:131-511 | After any sequence of tasks the blocks decoded are those of the memory in which the last task that started over was started |
| JpegPreemption.FirstDecides | rsp/njpgdspMain.cpp:131-511 | If all tasks after the first that runs are marked as resumed, that is the memory at the very beginning, and every task that runs adds a block |
| JpegPreemption.Decode | rsp/njpgdspMain.cpp:80-1765 | Preemption for every sequence of tasks, flags and yields: the memory and the count of blocks before and after each task; if all later tasks are marked as resumed, every block ends decoded over its own start, once, no other byte outside the yield buffer changes, and as many tasks as blocks are enough |
| AudioFetch.WholeCommand | rsp/aspMain.cpp:310-343 | A command inside the list is its eight bytes there, across every refill |
| AudioFetch.LastCommand | rsp/aspMain.cpp:310-343 | What a truncated last command consists of |
| AudioFetch.WholeList | rsp/aspMain.cpp:310-400 | A list of whole commands is executed as its word pairs, all of them |
| AudioFetch.AspMain.Dma | src/main/rsp_aspmain_hook.cpp:42-47 | A fetch fills the front of the chunk buffer and leaves the rest |
| AudioFetch.AspMain.Refill | rsp/aspMain.cpp:437-521 | After a refill the counters and the buffer are those of the first command of the chunk |
| AudioFetch.AspMain.Step | rsp/aspMain.cpp:310-343 | Executes exactly the next command of the list and steps the counters |
| AudioFetch.AspMain.Next | rsp/aspMain.cpp:345-417 | Next command of the chunk, refill, or end, the end coming exactly when the list is used up |
| AudioFetch.AspMain.Run | rsp/aspMain.cpp:251-521 | Exactly ceil(size / 8) commands run, in list order; the effect is that of the flat loop |
| AudioFetch.AspMain.Task | src/main/rsp_aspmain_hook.cpp:36-56 | The same from the registers that the pre-task hook seeds |
| TextPcSet.LoadKeeps | src/main/diagnostics.cpp:737-749 | Every load, fresh or stale, keeps the invariant |
| TextPcSet.ExchangeKeeps | src/main/diagnostics.cpp:750-754 | Every compare-and-exchange keeps the invariant, won or lost |
| TextPcSet.TableIsSound | src/main/diagnostics.cpp:731-757 | In every interleaving a PC is in at most one slot, its probe prefix is full, and slots hold only added PCs |
| TextPcSet.SlotsAreFrozen | src/main/diagnostics.cpp:743-757 | An occupied slot never changes |
| TextPcSet.HomesDiffer | src/main/diagnostics.cpp:731-736 | Two PCs start at the same slot if and only if their low nine bits agree, and those of instructions at a multiple of four |
| TextPcSet.NoPhantoms | src/main/diagnostics.cpp:734-742 | No lookup finds a PC that nobody added |
| TextPcSet.InTableIsFound | src/main/diagnostics.cpp:734-742 | Without stale loads every lookup that ends while its PC is in the table finds it, even one that began before |
| TextPcSet.AddedIsFound | src/main/diagnostics.cpp:734-757 | Without stale loads every lookup that ends after an add of its PC finished, in whichever thread, finds it |
| TextPcSet.SeesAlongPath | src/main/diagnostics.cpp:734-742 | With stale loads a lookup finds a PC of the table if its caller had seen the probe path occupied |
| TextPcSet.NoMisses | src/main/diagnostics.cpp:734-757 | A lookup whose view includes that of a finished add finds the PC |
| TextPcSet.MissWithoutView | src/main/diagnostics.cpp:734-742 | Every run to a state in which an idle thread has not seen the path of a PC in the table can go on so that its next lookup misses the PC |
| TextPcSet.MissAfterAdd | src/main/diagnostics.cpp:734-757 | Five steps from the empty table: thread 0 finishes adding a PC, thread 1 looks for it and misses |
| TextPcSet.DropsNeedOverflow | src/main/diagnostics.cpp:743-757 | With at most 512 PCs no add is dropped |
| TranslationFile.JsonEscape | tools/pms_build_translations.py:113-121 | The loop computes the escaped text |
| TranslationFile.JsonReadString | src/main/diagnostics.cpp:1036-1058 | The loop computes the unescaped text and the position after the closing quote |
| TranslationFile.HexRoundTrip | src/main/diagnostics.cpp:662 | Decoding gives back the bytes that the capture prints with two digits each, in lower or upper case |
| TranslationFile.DecodeHex | src/main/diagnostics.cpp:1101-1107 | The bytes whose print the digits are, an odd last one ignored; none if there is a bad digit in a pair |
| TranslationFile.JsonReadInt | src/main/diagnostics.cpp:1062-1076 | The loops compute the integer field, with blanks, sign and every reason to give up |
| TranslationFile.LoadTranslations | src/main/diagnostics.cpp:1082-1121 | The search loop computes the specified map, targets and widths, from any text |
| TranslationSearch.CharsUndoEscape | src/main/diagnostics.cpp:1040-1057 | Unescaping undoes escaping and stops just past the closing quote |
| TranslationSearch.ReadUndoesEscape | src/main/diagnostics.cpp:1036-1058 | json_read_string undoes json_escape |
| TranslationSearch.EscapeEndsAlike | tools/pms_build_translations.py:113-121 | An escaped text ends in an escaped quote and a key exactly when the text ends in a quote and the key |
| TranslationFile.SampleLine | tools/pms_build_translations.py:171-177 | One line with escapes and widths, character by character |
| TranslationWidths.TailReads | src/main/diagnostics.cpp:1062-1115 | Behind the target of any printed item the loader finds each width, or none, by its own key, and nothing of the next entry |
| TranslationRoundTrip.WidthOnLine | src/main/diagnostics.cpp:1062-1115 | What is read for a width key on a line, also if its texts end in such a key |
| TranslationRoundTrip.NoWidth | src/main/diagnostics.cpp:1062-1115 | An entry printed without widths is loaded without widths, whatever its texts are |
| TranslationRoundTrip.LineLoads | src/main/diagnostics.cpp:1093-1120 | The loader's effect of one printed item, with any widths |
| TranslationRoundTrip.LoadUndoesPrint | src/main/diagnostics.cpp:1082-1121 | The exact map, targets and widths, that loading a printed file gives, for all items with hexadecimal keys |
| TranslationRoundTrip.CleanIsExact | src/main/diagnostics.cpp:1093-1120 | An entry has the effect intended for its captured bytes if and only if it is clean |
| TranslationRoundTrip.KeyWordIsLoaded | src/main/diagnostics.cpp:1108-1120 | An entry that is not: the key is loaded as its translation |
| TranslationRoundTrip.WidthIsMistaken | src/main/diagnostics.cpp:1062-1115 | Another one: orig_w is loaded as fit_w too |
| TranslationRoundTrip.RoundTrip | src/main/diagnostics.cpp:1082-1121 | Loading printed items of clean translations gives the hash of the captured bytes -> target, orig_w or -1, fit_w or -1 |
| TranslationRoundTrip.LastEntryWins | src/main/diagnostics.cpp:1117-1120 | Of several entries with one hash the last storable one wins |
| TranslationRoundTrip.PrintedWidths | tools/pms_build_translations.py:169-177 | No translation loaded from a printed table has a width |
| TranslationWidths.WidthReadsBack | src/main/diagnostics.cpp:1062-1076 | A number written after a width key is read, with its sign |
| TranslationJson.TextReads | tools/pms_build_translations.py:113-121 | A strict reader returns a printed text if it has no control character but newline and tab, and else refuses it |
| TranslationJson.ReadUndoesPrint | tools/pms_build_translations.py:160-177 | It returns the entries of a printed file, with or without widths, if all their texts are such, and else refuses the file |
| TranslationMerge.Merge | tools/pms_build_translations.py:154-168 | New entries first, then those of the existing file not produced again; none of them if the file is missing or refused |
| TranslationMerge.NothingReadDropped | tools/pms_build_translations.py:162-166 | No nonempty key that was read is lost |
| TranslationMerge.NothingDropped | tools/pms_build_translations.py:154-168 | No nonempty key of a printed file is lost if and only if the file can be read back, or all its keys are produced again |
| TranslationMerge.UnreadableIsDropped | tools/pms_build_translations.py:167-168 | An input on which an entry is lost: a carriage return in its text |
| TranslationMerge.RebuildIsStable | tools/pms_build_translations.py:154-168 | Rebuilding from the file just written changes nothing if and only if that file can be read back, or holds new entries only |
| TranslationMerge.MapOf | src/main/diagnostics.cpp:1117-1120 | What is loaded of a printed table for each hash is what the last entry stores that stores something for it |
| TranslationMerge.RebuildKeepsMap | tools/pms_build_translations.py:154-177 | The targets the loader has, before and after a rebuild, for the strings that the new entries do not translate are the same if and only if, for each hash, the entry kept says what the deciding one said; collisions, widths and refused files included |
| TranslationMerge.RebuildChangesDoubled | tools/pms_build_translations.py:154-177 | A file with two entries for one key: after a rebuild another translation is loaded, and its width is gone |
| GuestMemory.ScanIsExact | src/main/diagnostics.cpp:715-728 | The scan accepts a string exactly if it is 2 to 255 bytes of text before a terminator |
| GuestMemory.TextishIsEuc | src/main/diagnostics.cpp:721-722 | The bytes taken for text are exactly those that occur in EUC-JP characters, printable ASCII or a newline |
| GuestMemory.RangeIsWindow | src/main/diagnostics.cpp:157-161 | The range test accepts exactly ranges inside 0x80000000 to 0x80800000 |
| GuestMemory.SwizzleFlipsTwoBits | src/main/diagnostics.cpp:1154-1155 | The byte at an address is the one with its two low address bits flipped |
| GuestMemory.Rdram.Poke | src/main/diagnostics.cpp:1154-1155 | A swizzled write is a write to one byte of a plain array |
| GuestMemory.Rdram.WriteGuestStr | src/main/diagnostics.cpp:1151-1157 | The string and its terminator and nothing else are written, or nothing if they do not fit |
| GuestMemory.Rdram.ReadTextArg | src/main/diagnostics.cpp:709-729 | Returns exactly the text at the pointer, if there is one |
| GuestMemory.ReadsBack | src/main/diagnostics.cpp:709-729 | A written string reads back if and only if it is 2 to 255 bytes of text |
| GuestMemory.SlotsAreApart | src/main/diagnostics.cpp:1169-1171 | The two slots are 0x400 bytes apart, aligned, below the stack pointer |
| GuestMemory.SlotsAreBelowStack | src/main/diagnostics.cpp:1159-1171 | In both slots a string of up to 0x300 bytes and its terminator end well below the stack pointer |
| GuestMemory.SlotsDoNotDisturb | src/main/diagnostics.cpp:1151-1171 | Both strings survive, in either order, for arguments below 0x400 bytes |
| GuestMemory.LongArgumentClobbers | src/main/diagnostics.cpp:1151-1171 | With 0x400 bytes they do not |
| StringCapture.StringInventory.Upsert | src/main/diagnostics.cpp:669-693 | The slot search updates the entry of the key, takes the first free slot, or counts a dropped string |
| StringCapture.CaptureIsExact | src/main/diagnostics.cpp:669-693 | Over every run: distinct keys, counts plus dropped equal the nonempty strings, and each entry counts all strings of its hash |
| StringCapture.EntriesAreFirsts | src/main/diagnostics.cpp:669-693 | Over every run: the entries stand in the order in which their strings first appeared, with the bytes of that appearance, their hash, and the coordinates of the latest one; others came when the table was full |
| StringCapture.MemScan | src/main/diagnostics.cpp:944-975 | The nested loops report the scan of the specification |
| StringCapture.TakeChunk | src/main/diagnostics.cpp:961-967 | A chunk is the run up to its end or the buffer size, with its Japanese flag |
| StringCapture.HasJpIsEuc | src/main/diagnostics.cpp:961-967 | The flag says that some byte belongs to a character of more than one byte |
| StringCapture.ScanIsExactIff | src/main/diagnostics.cpp:944-975 | The report holds exactly the maximal qualifying runs if and only if none is longer than the buffer |
| StringCapture.LongRunIsCut | src/main/diagnostics.cpp:944-975 | An input on which it does not: a run of one byte more than the buffer |
| StringCapture.ReportAscends | src/main/diagnostics.cpp:944-975 | The report is in address order |
| Yay0.RegisterStep | tools/test_yay0_oracle.py:40-59 | The sign of the shift register is the next mask bit, and shifting drops it |
| Yay0.NextBit | tools/test_yay0_oracle.py:36-59 | The register with its refills delivers bit k of the mask, most significant first |
| Yay0.CopyBack | tools/test_yay0_oracle.py:52-55 | The copy loop computes the byte-serial copy, negative indices included |
| Yay0.DoOperation | tools/test_yay0_oracle.py:40-55 | The two branches of the loop body |
| Yay0.Run | tools/test_yay0_oracle.py:32-62 | A result has exactly the declared length after at most that many operations |
| Yay0.Decompress | tools/test_yay0_oracle.py:18-62 | The loop computes the run that the header starts, with its failures |
| Yay0RoundTrip.CopyIsPeriodic | tools/test_yay0_oracle.py:52-55 | The self-overlapping copy is the periodic extension of the last dist + 1 bytes |
| Yay0RoundTrip.MaskBitOfOp | tools/test_yay0_oracle.py:36-40 | Mask bit k of an encoding tells whether operation k is a literal |
| Yay0RoundTrip.OperationDecodes | tools/test_yay0_oracle.py:40-55 | Each operation consumes one mask bit, a link exactly if it is a match, and a chunk byte exactly if it is a literal or a long match |
| Yay0RoundTrip.RunsToTheEnd | tools/test_yay0_oracle.py:32-62 | From every state of an encoding the decoder reaches the end, or gives up on its limit |
| Yay0RoundTrip.RoundTrip | tools/test_yay0_oracle.py:18-62 | Decompressing an encoding returns its expansion, one step per operation, exactly when the output before the last operation is within the limit |
| Yay0RoundTrip.SampleFile | tools/test_yay0_oracle.py:8-14 | One file byte by byte: header, mask, link and chunk bytes, and what it expands to |

## Left out
- JpegBlockLoop.Microcode.Finish: the inverse transform and colour packing are an uninterpreted function of tables, mode and coefficients; whatever else they leave in DMEM behind the block and in the vector registers is arbitrary.
- JpegPreemption.Decode: the picture has at least one block, a mode of 0, 1 or 2, and a yield buffer that holds the saved registers and does not meet the blocks; the microcode relies on all of this without looking.
- JpegPreemption.Decode: a task restores registers only after some task of the picture has run, and if not all later tasks are marked as resumed, header and tables lie apart from what is written; otherwise a task would run on undefined registers or on its own output as header.
- JpegPreemption.LoadDmem: loading DMEM is the operating system's part, taken to be the yield buffer for a task with flag 1 and the constants for any other, over arbitrary bytes.
- JpegDequantise.Dequantise: the products of a matrix with its table are an uninterpreted function of the matrix, the table and the constants, and all matrices lie inside DMEM without wrap-around; DequantiseBlock leaves negative modes out, for which too few matrices are computed.
- JpegBlockLoop.Microcode.DmaRead: DMA is atomic and copies the requested bytes; alignment, the busy and semaphore polls, the watchdog and the PC trail are not modelled.
- JpegBlockLoop.Microcode.Blocks: SP_STATUS is an input, one value at entry and one per block; the recompiled file reads the register as 0.
- AudioFetch.AspMain.Step: the audio handlers are an uninterpreted function that keeps the fetch registers, the chunk buffer and the command list and takes 8 off the chunk counter.
- AudioFetch.AspMain.Task: an empty command list and an address of 0 are excluded, as the hook does nothing for them.
- TextPcSet.NoMisses: lookups of PC 0 are excluded; textpc_contains(0) answers yes at an empty slot.
- TextPcSet.Do: a view records which slots a thread has seen occupied; out-of-order execution beyond per-location coherence does not matter, as every step concerns one slot.
- TranslationFile.LoadTranslations: reading the file is not modelled; the hash of a key is an arbitrary function, collisions included.
- TranslationFile.JsonReadInt: integers are unbounded, a width of more than 31 bits does not wrap.
- TranslationRoundTrip.LoadUndoesPrint: keys consist of hexadecimal digits, as the captures produce them; texts are their UTF-8 bytes.
- TranslationMerge.Merge: lower-casing is an arbitrary function.
- TranslationMerge.RebuildKeepsMap: the existing file has the format that the tool prints, with any widths behind the targets; it compares targets, and PrintedWidths says what becomes of the widths.
- TranslationJson.ReadFile: values other than texts and integers, and \u escapes, which no printed file holds, are refused although JSON allows them.
- StringCapture.StringInventory.Upsert: the 32-bit counters do not wrap, and writing the capture to disk is not modelled.
- StringCapture.MemScan: memory is the guest's byte view of GuestMemory, and positions count from its start.
- GuestMemory.SlotsDoNotDisturb: the stack pointer has the headroom that the hooks ask for.
- FunctionDiscovery.Discover: the section has a word at every address; parsing, printing and writing the result are not modelled.
- FunctionSize.FuncSize: the entry lies below its limit, as for every function that the tool sizes.
- DelaySlotRepair.Scan: file offsets before the start of the image count as outside it.
- SymbolTable.Generate: reading the lists, renames and the entry-point warning are not modelled.
- BoundaryRepair.Derive: the pairs are taken as parsed from the log.
- Glyph drawing, width fitting, calibration and the hooks into game routines: they depend on game code outside the repository and on host floats.
- Sockets, window, launcher, renderer, crash handlers and ROM picker: input, output and user interface.
- Save-checksum repair, launcher.cfg, fold_captures.py and scan_missing_funcs.py: they are not modelled.
