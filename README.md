# Verified model of four small security-research tools

This project models, in Dafny, the computational cores of four tools:

- **cfgtool** (JITServer/cfgtool.cpp). It searches a memory snapshot of a process for pointer chains that lead from a start address to a goal address range.
  - The snapshot is a sorted list of regions. Each region is a row of 8-byte words ("locations"), and each word carries a `hops` label, an `offset` label, a pointer into the snapshot and a back-reference.
  - Start words get `hops = 0`. Goal words get the sentinel `0xfffffffe`.
  - Each round runs two passes. The offset pass lets a word inherit the hops of the word before it, at an offset 8 bytes larger, up to `maxoffset`. The pointer pass lets the target of a pointer take one hop more than its source.
  - When a goal word is reached, `printresult` walks the back-references and prints the chain from start to goal.
  - `CfgModel` holds the value model: every pass is a function from one labelling to the next, plus the invariant the passes keep and what a printed chain means.
  - `CfgTool` holds the imperative model. The record arrays are updated in place by methods, and each method is proved to agree, word by word, with the matching `CfgModel` function.
- **The MTE latency histogram** (MTETest/lib/histogram.c). It holds `HISTOGRAM_SIZE` = 100 samples plus a spare slot, a threshold, and a flag that says whether the samples are sorted. It is `Histogram.Histogram`, a class over an array.
- **The SimpleKextFuzzing loader** (SimpleKextFuzzing/loader.cpp). The model covers:
  - page rounding, with the page size as a parameter;
  - the translation of segment permissions into Mach VM protections;
  - the parser for the segment table of an exported image;
  - the parser for its symbol section, which fills the symbol map, and the lookup in that map.
  
  The encoders beside the parsers follow the exporter (SimpleKextFuzzing/segexport.py:31-53), so that round trips can be stated.
- **The rtpdump replayer** (RTPReplay/replayer.py). It splits a capture into its text header and the payloads of its records. Python slicing, `find` returning -1 and `IndexError` are modelled explicitly.

Fixed-width C arithmetic is written out where it matters:
- `uint64_t` wrap-around in `round_to_page_upper`;
- the `unsigned int` sentinels of cfgtool;
- 8-byte little-endian integers in the loader;
- 16-bit big-endian lengths in the replayer.

## Model

| member | source | states |
|---|---|---|
| CfgModel.RegionFrom | JITServer/cfgtool.cpp:62-80 | reference lookup: a region it returns contains the address (`base <= a <= base + size - 1`); `None` means no region from `i` on contains it |
| CfgModel.RegionContainingSpec | JITServer/cfgtool.cpp:62-80 | the lookup succeeds exactly when some region contains the address, and in a sorted, disjoint snapshot it returns that region |
| CfgTool.Snapshot.FindRegion | JITServer/cfgtool.cpp:62-80 | the binary search, with its `minaddress`/`maxaddress` early exits, returns exactly the reference lookup's region |
| CfgModel.LocationOf | JITServer/cfgtool.cpp:82-86 | the word found is in bounds and its 8-byte slot holds the address, so an unaligned address rounds down to its word; the result is absent exactly when no region contains the address |
| CfgTool.Snapshot.FindLocation | JITServer/cfgtool.cpp:82-86 | findlocation returns the word `LocationOf` names |
| CfgModel.PtrTargetSpec | JITServer/cfgtool.cpp:306-315 | the range test before the lookup changes nothing: a value is a pointer exactly when some region contains it, and it then names the word holding that address |
| CfgModel.PrepareSeeded | JITServer/cfgtool.cpp:299-318 | after preparation no word is live, there are no back-references, and a word has a pointer exactly when its value lies in a captured region |
| CfgTool.Snapshot.Prepare | JITServer/cfgtool.cpp:299-318 | the preparation loop leaves the arrays equal to `CfgModel.Prepare` of the snapshot |
| CfgModel.HitSpec | JITServer/cfgtool.cpp:130-150 | a word is labelled exactly when one of the visited addresses `lo + 8t < hi` lies in its 8-byte slot |
| CfgModel.TouchedSpec | JITServer/cfgtool.cpp:130-150 | markaddressrange returns true exactly when some visited address lies in a captured region |
| CfgModel.MarkGet | JITServer/cfgtool.cpp:141-143 | marking changes only `hops` and `offset`, only to the given values, and only in hit words |
| CfgModel.MarkEmpty | JITServer/cfgtool.cpp:132 | an empty range labels nothing and returns false |
| CfgTool.Snapshot.MarkAddressRange | JITServer/cfgtool.cpp:130-150 | on every range on which it returns, the nested loop (skip an unmapped word, label to the region end, stop at `maxaddress`) leaves the arrays equal to `Mark` and returns `Touched` |
| CfgModel.MarkNoWrap | JITServer/cfgtool.cpp:130-147 | on a range satisfying `MarkEnds`, every address the loop reaches, up to one word past `maxaddress`, is below `2^64`, so the `size_t` increment never wraps |
| CfgModel.MarkRangeHangs | JITServer/cfgtool.cpp:130-147 | on a non-empty range that fails `MarkEnds`, the address after any number of wrapping 8-byte steps is below `maxaddress`, so neither loop test ever ends markaddressrange |
| CfgModel.OffsetStepSpec | JITServer/cfgtool.cpp:177-184 | one step relaxes word `j+1` only when word `j` is live, `offset + 8 <= maxoffset` and word `j+1` has more hops; it then copies the hops, sets the offset to `offset + 8`, and changes no other word |
| CfgModel.OffsetPassEvolves | JITServer/cfgtool.cpp:173-186 | the offset pass changes only hops and offsets; it only lowers hops, and every word it changes is live with an offset from 8 to `maxoffset` |
| CfgModel.OffsetPassTracked | JITServer/cfgtool.cpp:173-186 | propagateoffsets keeps `Tracked` (offsets stay within `maxoffset`, a word whose run starts at a zero-hop word starts in the start range) and changes no address or value |
| CfgTool.Snapshot.PropagateOffsets | JITServer/cfgtool.cpp:173-186 | the in-place pass leaves the arrays equal to `OffsetPass` |
| CfgModel.PtrStepSpec | JITServer/cfgtool.cpp:156-168 | a source relaxes its target only when it is live and the target has more than `hops + 1`; the target then gets `hops + 1`, offset 0 and a back-reference to the source, or `0xfffffffd` if it was a pending goal; it reports exactly when the target was a pending goal |
| CfgModel.ReportedGoalRelaxedSilently | JITServer/cfgtool.cpp:158-167 | a goal already reported can still be relaxed later, and is then not reported again |
| CfgModel.PtrStepTracked | JITServer/cfgtool.cpp:156-168 | one pointer relaxation keeps `Tracked` (every pointer lands in the word it names, offsets stay within `maxoffset`, a run whose origin has zero hops starts in the start range) and changes no address or value, so the chain it prints, if any, has the properties of WalkTracked |
| CfgModel.PtrPassOk | JITServer/cfgtool.cpp:152-171 | in the pointer pass, hops never rise except at the report write; every report is sound; no goal is reported twice |
| CfgTool.Snapshot.PropagatePointers | JITServer/cfgtool.cpp:152-171 | the in-place pass leaves the arrays equal to `PtrPass` and prints the chains of its reports, in order |
| CfgModel.WalkSound | JITServer/cfgtool.cpp:98-119 | the walk terminates; its last line is the goal line (`dest` 0) for the word it started at; every line is `address + offset = address2`; every dereference lands on the next line's base; the first line's base is the address of a word with zero hops |
| CfgModel.WalkChained | JITServer/cfgtool.cpp:98-119 | the chaining of the printed lines, by induction on the hops of the walked word |
| CfgModel.WalkTracked | JITServer/cfgtool.cpp:98-119 | read against a labelling that keeps the search invariant `Tracked`: the first base is a word of the start range, no line's offset exceeds `maxoffset`, and every line but the goal line reads the word at `address2` of the snapshot, whose value points into the word `dest` |
| CfgTool.Snapshot.FillResultBuf | JITServer/cfgtool.cpp:98-119 | the back-walk loop writes the walk into the buffer goal first, and the buffer it allocates always holds the whole walk |
| CfgTool.Snapshot.PrintLines | JITServer/cfgtool.cpp:121-127 | the printing loop emits the buffered lines from the last one written back to the first |
| CfgTool.Snapshot.PrintResult | JITServer/cfgtool.cpp:88-127 | printresult prints exactly `Walk`, start first |
| CfgModel.RoundsOk | JITServer/cfgtool.cpp:336-340 | over any number of rounds, labels only improve, each printed chain is sound and ends at a goal that was pending, and no goal is printed twice |
| CfgModel.RoundTracked | JITServer/cfgtool.cpp:336-340 | one round keeps `Tracked`, and afterwards a zero-hop word whose offset can still grow by a word has a zero-hop right neighbour, which later rounds need to keep `Tracked` |
| CfgModel.RoundsTracked | JITServer/cfgtool.cpp:336-340 | over any number of rounds from the seeded labelling, every printed chain starts in the start range, keeps its offsets within `maxoffset` and follows pointers stored in the snapshot |
| CfgTool.Snapshot.RunRounds | JITServer/cfgtool.cpp:336-340 | the loop `for (i = 1; i < maxhops; i++)` runs `maxhops - 1` rounds, none when `maxhops` is 0 or 1, leaves the arrays equal to `Rounds` of that many rounds and prints their chains in order |
| CfgModel.SeedTracked | JITServer/cfgtool.cpp:299-331 | the labelling the rounds start from keeps `Tracked`, every live word has zero hops, and addresses and values are those of the snapshot |
| CfgModel.SearchErrors | JITServer/cfgtool.cpp:323-333 | the search stops with the start error exactly when no start word is mapped, and with the goal error exactly when start words are mapped but no goal word is |
| CfgModel.SearchSound | JITServer/cfgtool.cpp:299-340 | each chain a finished search prints is well formed and ends at the address of a distinct goal word, which is no longer pending; its first base is a start-range word, no offset exceeds `maxoffset`, and every line but the last reads the word at `address2` of the snapshot, whose value points into the word `dest` |
| CfgTool.Snapshot.Run | JITServer/cfgtool.cpp:299-340 | main from the preliminary analysis on prints what `Search` stands for |
| CfgTool.Analyse | JITServer/cfgtool.cpp:268-340 | reading the snapshot and running the search print what `Search` over the captured words stands for |
| CfgModel.ResultBufOverflow | JITServer/cfgtool.cpp:220 | a two-word snapshot with a direct pointer from start to goal, `maxhops` 2 and `maxoffset` 0, prints a two-line chain, which does not fit in a buffer of `maxoffset` entries |
| CfgModel.LocateWord | JITServer/cfgtool.cpp:62-86 | in a snapshot laid out as its regions, findregion and findlocation on a word's address give back that word's region and that word |
| CfgHops.CascadeSearch | JITServer/cfgtool.cpp:152-171 | a snapshot of four words, each pointing at the next, searched with `maxhops` 2 and `maxoffset` 0, prints in its one round a chain of three hops |
| CfgHops.OffsetPassAtMost | JITServer/cfgtool.cpp:173-186 | propagateoffsets never raises the largest hop count of a live word |
| CfgHops.BoundedPtrStepAtMost | JITServer/cfgtool.cpp:156-168 | in the corrected pass, a source with fewer than `limit` hops gives its target at most `limit` hops, and the chain it prints has at most `limit` hops |
| CfgHops.BoundedRoundsAtMost | JITServer/cfgtool.cpp:336-340 | after `n` corrected rounds from zero-hop start words, no live word has more than `n` hops and no printed chain more than `n` hops |
| CfgHops.BoundedSearchHops | JITServer/cfgtool.cpp:299-340 | the corrected search prints no chain of `maxhops` hops or more |
| Histogram.Histogram.Reset | MTETest/lib/histogram.c:25-28 | all `SIZE + 1` slots become zero, the flag drops, the threshold stays |
| Histogram.Histogram.Sort | MTETest/lib/histogram.c:42-48 | the flag is set either way; when already sorted nothing changes; otherwise slots `0 .. SIZE-2` are replaced by their ascending permutation, and the last sample and the spare slot are untouched |
| Histogram.SortSeq | MTETest/lib/histogram.c:44-45 | the library sort's result is ascending and a permutation of its input |
| Histogram.SortedUnique | MTETest/lib/histogram.c:30-45 | two ascending permutations of the same samples are equal, so the result does not depend on the sorting algorithm |
| Histogram.SortSeqOfSorted | MTETest/lib/histogram.c:42-48 | sorting sorted samples changes nothing |
| Histogram.Histogram.Percentile | MTETest/lib/histogram.c:50-53 | with the flag set and `p <= 100`, it reads slot `p` (`SIZE * p / 100` with `SIZE` = 100), which is inside the `SIZE + 1` array |
| Histogram.PercentileIndex | MTETest/lib/histogram.c:52 | the slot read is at most `SIZE` |
| Histogram.PercentileOrder | MTETest/lib/histogram.c:42-53 | after a sort, percentiles up to the 98th are monotone, and at most `p` sorted samples lie below the `p`-th |
| Histogram.LastSampleUnordered | MTETest/lib/histogram.c:42-53 | because the sort covers only `SIZE - 1` samples, the 99th percentile can be below the 98th after a sort |
| Histogram.Histogram.Count | MTETest/lib/histogram.c:55-63 | the count of the first `SIZE` samples below the threshold, at most `SIZE`; nothing changes |
| Histogram.CountBelowExtremes | MTETest/lib/histogram.c:55-63 | the count is full exactly when every sample is below the threshold, and zero exactly when none is |
| Histogram.CountBelowPermutation | MTETest/lib/histogram.c:55-63 | the count depends only on the multiset of samples |
| Histogram.CountAfterSort | MTETest/lib/histogram.c:42-63 | sorting leaves the threshold count unchanged |
| Histogram.Histogram.IsValid | MTETest/lib/histogram.c:65-73 | true exactly when none of the first `SIZE` samples is zero |
| KextLoader.RoundToPageLower | SimpleKextFuzzing/loader.cpp:60-63 | a multiple of the page size, at most `n`, less than a page below it, and equal to `n` exactly when `n` is aligned |
| KextLoader.RoundToPageUpper | SimpleKextFuzzing/loader.cpp:65-70 | `n` when aligned, and only then; without wrap-around, the next multiple of the page size, less than a page above `n`; when the `uint64_t` sum wraps, a value below `n` |
| KextLoader.RoundingBrackets | SimpleKextFuzzing/loader.cpp:60-70 | lower `<= n <=` upper, equal exactly when `n` is aligned, and otherwise one page apart |
| KextLoader.MachProtectionFlags | SimpleKextFuzzing/loader.cpp:74-84 | READ, WRITE and EXECUTE are set exactly when segment bits 4, 2 and 1 are, and no other bit is set |
| KextLoader.ProtectionIgnoresOtherBits | SimpleKextFuzzing/loader.cpp:74-84 | bits other than the three permission bits do not matter |
| KextLoader.ReadBack | SimpleKextFuzzing/loader.cpp:93-106 | an 8-byte little-endian read of bytes written from `x` gives `x` |
| KextLoader.WrittenBack | SimpleKextFuzzing/loader.cpp:93-106 | eight bytes are the written form of the integer read from them |
| KextLoader.ReadSegments | SimpleKextFuzzing/loader.cpp:93-106 | the count, `NoSegments` for zero, `Truncated` when the records run past the file, otherwise `numsegments` (start, end, permissions) triples in order |
| KextLoader.SegmentsRoundTrip | SimpleKextFuzzing/loader.cpp:93-106 | parsing an exported segment table gives back its segments; an empty table gives `NoSegments` |
| KextLoader.NulFromFirst | SimpleKextFuzzing/loader.cpp:171-172 | `strlen`: the NUL found is the first one from the cursor, and no NUL means none in the rest |
| KextLoader.ParseEntriesStep | SimpleKextFuzzing/loader.cpp:168-174 | an entry is an 8-byte address followed by a NUL-terminated name, and the cursor moves past the NUL |
| KextLoader.ReadSymbols | SimpleKextFuzzing/loader.cpp:157-174 | reads count and size, then exactly `nsymbols` entries, or `Truncated` when they run past the section, and builds the symbol map |
| KextLoader.SymbolsRoundTrip | SimpleKextFuzzing/loader.cpp:157-174 | parsing an exported symbol section gives back the same ordered (address, name) pairs when no name holds a NUL |
| KextLoader.ParsedIsEncoded | SimpleKextFuzzing/loader.cpp:167-174 | conversely, whatever the parser accepts is exactly `nsymbols` NUL-free entries whose encoding is the blob read |
| KextLoader.TableOfLastWins | SimpleKextFuzzing/loader.cpp:173 | a name is in the map exactly when some entry carries it, and it maps to the address of the last such entry |
| KextLoader.GetSymbolAddress | SimpleKextFuzzing/loader.cpp:51-58 | returns the stored address when the name is present, and reports absence otherwise |
| KextLoader.LookupFindsLastEntry | SimpleKextFuzzing/loader.cpp:51-58 | looking up a parsed name gives the address of its last entry |
| KextLoader.LookupMissing | SimpleKextFuzzing/loader.cpp:51-58 | a name no entry carries is absent |
| RtpReplay.FindNewline | RTPReplay/replayer.py:16 | the first newline's index, or -1 exactly when there is none |
| RtpReplay.PySlice | RTPReplay/replayer.py:17-27 | Python slicing: an in-range slice is exact, the end is clamped, a start past the end gives nothing, and `[0:-1]` drops the last byte |
| RtpReplay.NextRecord | RTPReplay/replayer.py:24-30 | the next record starts `8 + plen` bytes after this one, so the cursor rises by at least 8 |
| RtpReplay.ReplayDump | RTPReplay/replayer.py:16-31 | the loop produces the header and the packets in file order, or stops early where reading a length would raise `IndexError` |
| RtpReplay.PacketCount | RTPReplay/replayer.py:23-30 | records start inside the capture at least 8 bytes apart, which bounds the number of packets |
| RtpReplay.CutRecordHeader | RTPReplay/replayer.py:24-25 | a record header cut short before its length bytes ends the run early |
| RtpReplay.MissingNewline | RTPReplay/replayer.py:16-21 | with no newline, the header is every byte but the last, and records are read from offset 16 |
| RtpReplay.ReplayRoundTrip | RTPReplay/replayer.py:16-31 | a well-formed capture yields its header and every record's payload, in file order, one per record, and the run completes |

## Left out

- cfgtool: attaching to the process, walking its memory map and reading its memory (JITServer/cfgtool.cpp:222-288), and parsing the command line (190-218). The snapshot is an input: a sorted list of non-empty, word-granular regions with their words.
- cfgtool: the text `printf` writes. Printed chains are seqs of `Step` values.
- cfgtool: the labels of a freshly read snapshot are left uninitialised by the C code. The model gives them the "unvisited" values, which the preparation loop overwrites anyway.
- CfgTool.Snapshot.MarkAddressRange: requires `CfgModel.MarkEnds(minaddress, maxaddress)`, which excludes exactly the ranges on which the C loop never returns. These are the non-empty ranges whose `maxaddress` lies above `2^64 - 8 + minaddress % 8`, the last address below `2^64` that the loop steps through. On such a range `address += sizeof(void *)` (JITServer/cfgtool.cpp:135 and 144) wraps round to `minaddress % 8`, which is again below `maxaddress`, so markaddressrange relabels every region round and round and never returns. Example: the start range `0xffffffffffffff00`-`0xffffffffffffffff` (`CfgModel.TopRangeHangs`). `CfgModel.MarkRangeHangs` proves the hang and `CfgModel.MarkNoWrap` proves that no address wraps on the other ranges. `CfgTool.Snapshot.Run` and `CfgTool.Analyse` require the same of the start and goal ranges.
- CfgTool.Snapshot.FillResultBuf: finds the run-origin's region from the word reference, not by calling `findregion` on the address. CfgModel.LocateWord proves that the two agree in a snapshot laid out as its regions.
- cfgtool: each `struct location` is a datatype value in a slot of its region's array, not an object of its own. A `location *` is the (region, index) pair of its slot, and a field write such as `data[j].hops = ...` stores the whole updated record back into the slot. Objects per record would need a frame per record and footprints for the pointer and back-reference graph; with one array per region the frame of a pass is the set of region arrays. Two pointers to one record are two equal pairs, so no other aliasing arises.
- CfgModel.Walk: requires the labelling invariant `Wf`, which every pass is proved to keep. From it, termination of the walk is proved.
- cfgtool: the `resultbuf` allocation by `maxoffset` is reported under Findings. The model allocates the buffer per walk, with `hops + 1` lines.
- histogram: `histogram_print` and `histogram_print_full` (stderr output only). The sort is the library `qsort`, modelled by its result: the unique ascending permutation.
- Histogram.Histogram.Percentile: requires `sorted`, the C `assert`, and `p <= 100`. A larger `p` reads past the array in C, which is undefined behaviour.
- loader: `fopen`/`fread`, `mach_vm_allocate`, the breakpoint fill, copying segment contents, `mach_vm_protect`, and the TinyInst calls. The image is a byte string.
- KextLoader.ReadSegments: fewer than 8 bytes are modelled as `NoSegments`. The count then keeps its initial zero, although a partial `fread` leaves it indeterminate. Records that run past the file are `Truncated`, where the C code would keep reading garbage.
- KextLoader.ReadSymbols: takes the symbol section, the bytes after the segment contents, as its input. An entry or section that runs past the data is `Truncated`, where the C code reads out of bounds.
- KextLoader.ReadSymbols: builds the symbol map from empty. In the C code `symbol_table` is a global (SimpleKextFuzzing/loader.cpp:28) that is never cleared, so a second load would add to the map of the first; the loader reads one image per run, and the model covers that one load.
- KextLoader.GetSymbolAddress: returns `None` for a missing name. The C code prints an error and calls `exit(0)`.
- replayer: the UDP socket, `print` and `time.sleep`. The packets sent are returned as a sequence.

## Findings

The model of main (`CfgModel.Search`, `CfgTool.Snapshot.Run`) follows the code as written. Each corrected member below is proved beside it.

| source | as written | input that shows it | evidently intended | confidence | as-written member | corrected member |
|---|---|---|---|---|---|---|
| JITServer/cfgtool.cpp:220 | `resultbuf` is allocated with `maxoffset` entries. `printresult` writes one entry per line of a chain, which is `hops + 1` entries for the goal word it walks from, and `maxoffset` bounds byte offsets, not lines | one region at 0x1000 of two words, the first holding 0x1008; start 0x1000, goal 0x1008, `maxhops` 2, `maxoffset` 0: the first round prints a two-line chain into a zero-entry buffer | size the buffer by the chain, `hops + 1` entries for the goal word reached, as printresult walks it | not executed | CfgModel.ResultBufOverflow | CfgTool.Snapshot.FillResultBuf |
| JITServer/cfgtool.cpp:152-171, 336-340 | the main loop runs `maxhops - 1` rounds so as to bound a chain by `maxhops`, but propagatepointers passes hops on from words relaxed earlier in the same pass, so one round can add several hops | one region at 0x1000 of four words holding 0x1008, 0x1010, 0x1018 and 0; start [0x1000, 0x1008), goal [0x1018, 0x1020), `maxhops` 2, `maxoffset` 0: the one round prints a chain of three hops | in round `i`, only words with fewer than `i` hops pass a hop on (`if (data[j].hops >= i) continue;`), so that no chain has more hops than rounds have run | not executed | CfgHops.CascadeSearch | CfgHops.BoundedSearchHops |
