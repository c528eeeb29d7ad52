# Verified models for polyfill-glibc

polyfill-glibc edits ELF files in place so that they run against other versions of glibc. This
project models the components of it that carry real invariants, in their 64-bit native-endian form,
and proves them correct with Dafny 4.11. `dafny verify dfyconfig.toml` checks everything.

| file | component |
|---|---|
| `words.dfy` | machine words, byte order, alignment, shared arithmetic |
| `relaxation.dfy`, `retreat.dfy`, `emission.dfy`, `table_code.dfy`, `assembler.dfy` | branch relaxation and emission in the x86_64 assembler, and running the label tables it emits |
| `address_map.dfy`, `file_view.dfy` | the map from addresses to file offsets, and reading through it |
| `allocator.dfy`, `layout.dfy`, `bucket_order.dfy`, `relayout.dfy` | the bucketed allocator, laying buckets out into new segments, whole edits of several passes, rebuilding the map |
| `hash_mix.dfy`, `robin_hood.dfy`, `uuht.dfy`, `sht.dfy` | the invertible hash, Robin Hood probing, and the two tables built on it |
| `symbol_order.dfy`, `gnu_hash.dfy`, `gnu_walk.dfy`, `elf_hash.dfy`, `hash_order.dfy` | reordering dynamic symbols and rebuilding both hash tables, with the matching readers; what lookups find afterwards |
| `relr.dfy` | expansion of packed relative relocations against the aarch64 startup walker |
| `logical_immediate.dfy` | the A64 logical-immediate encoder |
| `closure.dfy` | the dependency closure of polyfill symbols |
| `string_memory.dfy`, `dyn_strings.dfy` | the dynamic string interner over the address map |

Code that works by changing arrays and fields is modelled by methods over arrays and classes, each
proved against functions on the sequences they hold; the theorems are lemmas about those functions
and about whole runs. Words are natural numbers with their 2^32 and 2^64 bounds written out, `& mask`
is a remainder by a power of two, and the bits of A64 immediates and of Bloom filter words are
sequences and sets. Hash functions of strings are arbitrary functions. A call of the program's FATAL
exit is an outcome or a result flag; FATAL exits that cannot be reached are proved unreachable.

In the x86_64 assembler's payload, a run of code bytes and the command behind it form one site; a
reloc index counts sites. The placeholder that the parser puts in front of a command is not part of
the site's code.

## Where the code and expectations differ

- With `align`, relaxation can oscillate: a function of 125 bytes of code, a `jmp` over an
  `align 256`, and its label makes the third pass move the jump left, so the assembler exits with
  "logic error ... moved left" although the positions of the second pass are a valid layout
  (`Relaxation.AlignCanMoveLeft`). This is proved impossible, and the layout minimal, where the form
  of every branch over padding is decided by the lengths of the code between it and its label, which
  can be told before the first pass (`Relaxation.SpansDecided`). For a branch over one align that is
  exact: if the lengths leave the form open, there is a function around the branch that ends in this
  exit (`Retreat.SafeExactly`). Whether a given function with an open branch does so, only its run
  tells; `Assembler.ResolveLabels` reports it exactly then.
- `u8_label_lut` accepts rcx as the register to leave the address in. The code emitted for it
  overwrites the number of the label before using it, so it leads nowhere; for every other register
  it is right (`TableCode.LooksUpExactly`).
- Reading from address 0 through a map of a single entry copies nothing and walks off the map, since
  the 64-bit length of the entry is 0 (`FileView.RoomIsLength`, `FileView.NoRoomAtZero`).
- A dynamic string is decoded by reading on in the file, but moved to a new string table by reading
  on in the address space. The two differ for a string that crosses the end of a map entry; exactly
  when they show different bytes the string is lost in the switch (`StringMemory.SurvivesExactly`).
- Rebuilding the legacy hash table of a binary that has a GNU table too takes over the order of the
  GNU table for symbols of one name, which can change what a lookup in the legacy table finds
  (`HashOrder.LookupKeptExactly`, `HashOrder.LookupCanChange`).
- Counting the symbols of a GNU hash table through the map subtracts the words of a chain that lie
  in an entry without file contents, instead of adding them (`GnuWalk.SymbolCount`,
  `GnuWalk.MiddleMiscounts`).
- String table keys of 2^32 - 8 bytes and more wrap the record's length, and `sht_intern` does not
  check; `StringTable.Sht.Intern` requires shorter keys, and the limit is exact (`StringTable.LengthLimit`).
- `uuht_set(0, 0)` and its relatives change nothing, as the pair looks like an empty slot
  (`UintTable.After` says so exactly).
- Expanding packed relocations preserves the meaning for every load bias exactly if no word is
  named twice (`Relr.ExpansionMeansExactly`): the table adds the bias as often as a word is named,
  the relocations set it once.
- The startup walker measures bits in front of the first address from absolute address 0, the
  expansion from link address 0, that is from the load bias. They agree, for any bias but 0, exactly
  for tables with no bit set before the first address (`Relr.WalkerExactly`, `Relr.WalkerMisses`).
- Reference 0 is never noted by the string interner, as it matches an empty slot. It keeps denoting
  the empty string only because string tables start with a zero byte, which the model requires.

## Model

| member | source | states |
|---|---|---|
| Relaxation.SitesNeverShrink | src/x86_64/assembler.c:1531-1625 | in a function without align, no stretch between two commands gets shorter from one relaxation pass to the next, in any run of any length |
| Relaxation.RunNeverShrinks | src/x86_64/assembler.c:1531-1625 | where every local jmp or jcc has no padding between it and its label, or its form is decided by the lengths of the code there, no pass of any run moves a position left or shortens a stretch without padding |
| Relaxation.ShortInEveryPass | src/x86_64/assembler.c:1564-1579 | a branch that the lengths let reach its label from every remainder that its stretch can start at, other such branches counted as short, is short in every pass of every run |
| Relaxation.NeverReachingIsLong | src/x86_64/assembler.c:1564-1579 | a branch that they never let reach is long from the second pass on |
| Relaxation.FormedBetween | src/x86_64/assembler.c:1546-1613 | in every pass and every layout an index lies between the nearest and the farthest place that the forms allow, counted from the remainder modulo 256 of an earlier one |
| Relaxation.NeverMovesLeft | src/x86_64/assembler.c:1617-1619 | where the lengths decide (`Relaxation.SpansDecided`), no position ever moves left, so the "moved left" exit is unreachable |
| Relaxation.RunBelowEveryLayout | src/x86_64/assembler.c:1526-1625 | where the lengths decide (`Relaxation.SpansDecided`), every pass of every run stays pointwise below every layout whose short branches reach their labels: the result is minimal |
| Relaxation.StableIsLayout | src/x86_64/assembler.c:1564-1589 | positions that a pass leaves unchanged are a layout in which every short branch reaches its label, align or not |
| Relaxation.PassesAreFew | src/x86_64/assembler.c:1531-1625 | where the lengths decide (`Relaxation.SpansDecided`), the loop ends within (number of local jmp/jcc) + 2 passes |
| Relaxation.RunIsBounded | src/x86_64/assembler.c:1531-1625 | whatever is aligned, every pass of every run stays below the all-long positions |
| Relaxation.EmissionChoosesAlike | src/x86_64/assembler.c:1571-1575 | on stable positions, emission (which measures from the short end of the operand) and relaxation choose the same form for every branch |
| Relaxation.AlignCanMoveLeft | src/x86_64/assembler.c:1593-1619 | a concrete function (125 bytes, a jmp over an align to 256) for which the third pass moves a position left, so that the source gives up although a valid layout exists |
| Retreat.SafeExactly | src/x86_64/assembler.c:1564-1619 | for a branch over one align, whatever its kind and direction, the alignment and the lengths of code before and after it: no function in which it is the only branch over padding ever moves left, if and only if the label is in reach with all the padding there can be or out of reach without any |
| Retreat.UndecidedCanRetreat | src/x86_64/assembler.c:1564-1619 | otherwise there is such a function, and a run of it whose last pass moves a position left |
| Assembler.ScanLabels | src/x86_64/assembler.c:1493-1519 | the label table holds exactly the function's name and its label definitions, each at its own command; fails exactly at the first definition of a name already defined |
| Assembler.PlaceSite | src/x86_64/assembler.c:1546-1613 | the running offset after one command is the end of the site that the pass specification gives, read off an array that holds new and old positions |
| Assembler.Pass | src/x86_64/assembler.c:1532-1624 | one pass over the array in place is the pass specification; stops at the first unresolved name or the first position that would move left |
| Assembler.Relax | src/x86_64/assembler.c:1526-1625 | the loop terminates whatever is aligned; it ends settled, at the first unresolved name, or at the first position that any pass of its run moves left; where the lengths decide it takes few passes |
| Assembler.ResolveLabels | src/x86_64/assembler.c:1492-1832 | the function as a whole: emits all code, in which every site means what its source says, each call, jump or operand that names a symbol outside has exactly one fixup of its kind, and every label table runs, or reports a defect that is there: a double definition exactly if there is one, an unresolved name exactly if there is one, "moved left" exactly if the run of the resolvable function moves left, and at that position, a label table that cannot be encoded at the positions where the run settles; the "inconsistent logic" exit is never taken |
| Assembler.SettlesOrRetreats | src/x86_64/assembler.c:1526-1625 | a function whose passes settle has no run that moves left, so which of the two happens is determined |
| Assembler.Emit | src/x86_64/assembler.c:1641-1829 | the emission pass writes exactly the bytes and fixups of every site and finds every position where relaxation left it; fails only for a label table that cannot be encoded |
| Assembler.EmitLut | src/x86_64/assembler.c:1757-1820 | the in-place arithmetic on the eight labels emits the table of the specification, or fails exactly if no shift up to 3 fits |
| Assembler.SubtractMin | src/x86_64/assembler.c:1770-1777 | subtracts the lowest label from all, in place |
| Emission.RemoveLowBit | src/x86_64/assembler.c:1457-1465 | halves all labels in place, or stops at the first odd one with exactly those before it halved |
| Emission.MaxLabel | src/x86_64/assembler.c:1447-1455 | the largest label |
| Emission.PackLabels | src/x86_64/assembler.c:1778-1785 | finds a shift and packs the distances into bytes without loss, or fails exactly if no shift up to 3 does |
| Emission.SiteBytesFillSite | src/x86_64/assembler.c:1824-1826 | the bytes emitted for a site end exactly at its relaxed position |
| Emission.SiteBytesMean | src/x86_64/assembler.c:1647-1820 | wherever a site's bytes stand, the code in front of the command is there unchanged but for a branch opcode, and decoding gives what the source says: the branch with its condition, displacements that lead to the label, indices of global names, padding that ends at the multiple and that the processor passes, table bytes that lead back to their labels |
| Emission.LocalBranchDecodes | src/x86_64/assembler.c:1679-1720 | the short and the long form of a local jmp, jcc or call decode to a branch with the same condition to the label |
| Emission.PadBytesMean | src/x86_64/assembler.c:1731-1756 | align padding is read by the processor as one no-op that ends where the padding ends, or as a jump there over no-ops or int3 |
| Emission.NopEnds | src/x86_64/assembler.c:1747-1750 | each of the nine no-ops is read, by its prefix, opcode, ModRM, SIB and displacement, as one instruction of exactly its length |
| Emission.TableFails | src/x86_64/assembler.c:1761-1785 | a label table can be encoded if and only if its names are labels and, for some shift up to 3, any two of them lie apart by a multiple of 1 << shift and by at most 255 << shift |
| Emission.LutBytesMean | src/x86_64/assembler.c:1770-1819 | min_label + (byte << addr_shift) is the label for every byte of the table, as the lea encodes it |
| TableCode.LooksUpExactly | src/x86_64/assembler.c:1786-1819 | run by the processor, the six instructions of a label table leave the address of the label whose number is in ecx in the destination register, at any load address, if and only if that register is not rcx |
| TableCode.SiteTableRuns | src/x86_64/assembler.c:1757-1820 | so every table in the output looks its labels up, unless it was asked for in rcx |
| Emission.CodeFillsPositions | src/x86_64/assembler.c:1641-1828 | the concatenated output reaches exactly the relaxed position of every site |
| Emission.CodeMeans | src/x86_64/assembler.c:1641-1828 | every site of the whole output keeps its code and means what its source says |
| Emission.RelocsAsCounted | src/x86_64/assembler.c:1530-1632 | the emission pass writes as many fixups as the relaxation pass counted when it sized the output |
| Emission.SiteFixupsMean | src/x86_64/assembler.c:1668-1727 | a site that names a symbol outside has exactly one fixup, for the place in the output where the symbol index stands, of the kind that says whether it is a call or jmp and how many bytes of immediate follow; no other site has one |
| AddressMap.CanonicalIsUnique | src/v2f.c:17-56 | two canonical entry arrays that denote the same function are equal |
| AddressMap.SpliceOverrides | src/v2f.c:45-55 | replacing the entries from itr to tail by one overrides the map on the range, and keeps it canonical |
| AddressMap.V2fMap.constructor | src/v2f.c:5-15 | a new map is one entry for all addresses |
| AddressMap.V2fMap.Lookup | src/v2f.c:58-74 | from any valid cached cursor, both walks end at the one entry that contains the address, and leave a valid cursor |
| AddressMap.V2fMap.Locate | src/v2f.c:25-32 | the entries in which the range starts and ends |
| AddressMap.V2fMap.TrimFront | src/v2f.c:33-38 | where the replaced entries start, merged with an equal neighbour |
| AddressMap.V2fMap.TrimBack | src/v2f.c:39-44 | where they end, merged with an equal neighbour, up to the sentinel that stands for 2^64 |
| AddressMap.V2fMap.Replace | src/v2f.c:45-55 | the memmove and the three stores are one splice of the entry sequence |
| AddressMap.V2fMap.SetRange | src/v2f.c:17-56 | pointwise override on [vbase, vbase + size), also up to 2^64 - 1; canonical form is kept |
| FileView.MaterialiseRange | src/erw.c:73-98 | copies out byte by byte what the map shows, zeros where it is special, across any number of entries; the result says whether one file-backed stretch sufficed; needs a second entry, an address above 0 or nothing to copy |
| FileView.RoomIsLength | src/erw.c:79 | the 64-bit difference that gives the length of an entry is that length except for a single entry read from address 0 |
| FileView.NoRoomAtZero | src/erw.c:79-94 | there the copy loop copies nothing in its first turn and goes on behind the only entry |
| HashMix.UnmixMix | src/uuht.c:14-34 | uuht_unhash(uuht_hash(k)) == k for every 32-bit k |
| HashMix.MixUnmix | src/uuht.c:14-34 | uuht_hash(uuht_unhash(h)) == h for every 32-bit h |
| HashMix.MixOfZero | src/uuht.c:14-23 | only 0 is hashed to 0 |
| RobinHood.SearchEnds | src/uuht.c:72-83 | a search cannot pass an entry: a slot less displaced than the probe is long proves absence |
| RobinHood.Reinsert | src/uuht.c:36-51 | displacing entries keeps the order and the multiset of entries, and ends in an empty slot |
| RobinHood.Rehash | src/uuht.c:53-68 | the doubled table holds the same entries in order |
| UintTable.Uuht.Contains | src/uuht.c:70-84 | answers by the map: the slot of the key, or an empty slot exactly if the key is absent |
| UintTable.Uuht.LookupOr | src/uuht.c:86-102 | answers by the map, or with the default |
| UintTable.Uuht.LookupOrSet | src/uuht.c:104-135 | enters an absent key; the contents are the map after that, and (0, 0) is never entered |
| UintTable.Uuht.Set | src/uuht.c:142-178 | overrides the key in the map and returns the old value; (0, 0) changes nothing |
| UintTable.Uuht.SetIfAbsent | src/uuht.c:180-211 | enters only an absent key; returns the old value |
| UintTable.Uuht.Clear | src/uuht.c:137-140 | the empty map in the same table |
| UintTable.Uuht.Keys | src/x86_64/polyfiller.c:550-558 | enumerating the slots and undoing the hash yields exactly the keys, each once |
| UintTable.KeysRecovered | src/uuht.c:25-34 | a key is in the map exactly if some slot's hash goes back to it |
| StringTable.RecordsDisjoint | src/sht.c:75-94 | stored records never overlap |
| StringTable.StoredSurvives | src/sht.c:75-94 | appending a record and moving the block leaves every stored key and offset as it was |
| StringTable.LengthLimit | src/sht.c:78 | the 32-bit sum gives a key the words it needs if and only if it is shorter than 2^32 - 8 bytes |
| StringTable.Sht.AddToContents | src/sht.c:75-94 | appends a record for the key with a zero value and returns its value offset |
| StringTable.Sht.Intern | src/sht.c:130-165 | equal keys get equal offsets and different keys different ones, for any hash function; the log of records grows by at most the new key |
| StringTable.Sht.Lookup | src/sht.c:172-215 | the offset of the key's record, 0 exactly if the key was never interned |
| StringTable.Sht.IterStart | src/sht.c:217-223 | the last record |
| StringTable.Sht.IterNext | src/sht.c:225-232 | the record before, found by walking the key length backwards; 0 after the first, so each entry is visited once in reverse order |
| Allocator.AllocBuckets.FindBucket | src/erw.c:376-397 | finds or appends the bucket for a category and alignment |
| Allocator.AllocBuckets.Alloc | src/erw.c:399-408 | bumps the one bucket of the category and the alignment asked for, answers with a multiple of it, and changes no other; an overflow is answered with 0 and remembered by retry |
| Allocator.AnsweredAsAsked | src/erw.c:376-408 | in terms of the category and the alignment asked for: the answer of one request is a multiple of the alignment, its bucket starts anew from there, and every bucket that differs in category or alignment is untouched |
| Allocator.ServeAllReplays | src/erw.c:376-408 | over a whole pass, each bucket sees the requests made of it and no others |
| Allocator.RetryMeansOverflow | src/erw.c:403-406 | a pass sets retry if and only if some bucket it uses ends up beyond its end |
| Allocator.ServedWithin | src/erw.c:399-408 | in a pass without retry every result is a multiple of the alignment asked for and lies inside its bucket |
| Allocator.ServedDisjoint | src/erw.c:399-408 | in a pass without retry, requests to one bucket never overlap |
| Layout.OpenAtIs | src/erw_nne.h:2460-2498 | a new segment starts on a new page, at an address congruent to its file offset modulo its alignment; the first segment could be moved to cover a new read-only one at no negative file offset |
| Layout.OpenAtIsLeast | src/erw_nne.h:2454-2498 | there is no earlier such address, but for a read-only segment beside a first segment: then file space is skipped by what the first offset would fall below 0, or address space by at most 256K if that leaves the first offset as it is |
| Layout.LayKeeps | src/erw_nne.h:2444-2524 | dealing out one bucket keeps: segments ascend and share no page, contents lie behind the original file, every bucket is aligned and inside a segment, p_filesz <= p_memsz, and read-only segments are aligned as the first one is |
| Layout.LayAllSound | src/erw_nne.h:2440-2525 | so does dealing out all buckets, and each gets the size that was asked of it |
| Layout.SpotPermissions | src/erw_nne.h:2452-2459 | every bucket in address space lies in a segment that is readable, executable if and only if the bucket is for code, and writable if and only if it is for writable data |
| Layout.SegmentsFit | src/erw_nne.h:2407-2413 | sorted buckets are laid out in at most three segments, no two with the same permissions, and never in more than there are program headers reserved |
| Layout.LayoutRelays | src/erw_nne.h:2440-2525 | a retry hands the allocator buckets that are empty, aligned, and large enough for the same requests |
| BucketOrder.SortBuckets | src/erw.c:66-71 | in order and a permutation: file space first, then read-only data, that near code, code, data, zeros, each by ascending alignment |
| BucketOrder.OneSorting | src/erw_nne.h:2417 | buckets that serve different requests have only one sorting, so it does not matter that qsort is not stable |
| BucketOrder.RoomIsMostTaken | src/erw_nne.h:2412-2531 | over a whole edit, pass after pass with the buckets sorted and laid out in between, each pass starts from untouched buckets, one per category and alignment, each exactly as large as the most that any pass before took of it |
| BucketOrder.RetryExactly | src/erw_nne.h:2598-2602 | a pass of an edit must be done again if and only if it takes more of some bucket than every pass before it |
| BucketOrder.RetryConverges | src/erw_nne.h:2440-2450 | a pass that asks every bucket for what some earlier pass asked is the last |
| BucketOrder.BucketsNeverShrink | src/erw_nne.h:2445 | no bucket gets smaller from any pass of an edit to any later one |
| Relayout.PlanIsGood | src/erw_nne.h:2419-2438 | the layout starts behind every original segment in the file and on pages that none reaches; the page is the largest power of two up to 64K that a segment is aligned to, or the guest page, and the first segment is the first in the headers |
| Relayout.Scan | src/erw_nne.h:2419-2438 | computes that plan |
| Relayout.Open | src/erw_nne.h:2454-2508 | finds the place of a new segment as the layout function does |
| Relayout.LayOut | src/erw_nne.h:2440-2525 | rewrites the buckets in place and appends the program headers that the layout function gives |
| Relayout.MapPages | src/erw_nne.h:9-20 | the three cases of fend against f_size map the segment's pages from the file as far as the file goes |
| Relayout.BuildMap | src/erw_nne.h:2-26 | the rebuilt map is canonical and shows at every address what the last segment to touch it has loaded there |
| Relayout.LastSegmentShows | src/erw_nne.h:2-26 | the last segment that has contents on the page of an address, or zeros there, decides: zero-filled behind its contents and behind the end of the file, otherwise the value that leads to where the segment lies in the file |
| Relayout.OriginalsUndisturbed | src/erw_nne.h:2-26 | new segments change the map at no address below the end of the original ones |
| Relayout.UntouchedIsUnmapped | src/erw_nne.h:2-26 | an address that no segment shares is unmapped |
| Relayout.SpotReaches | src/erw_nne.h:2419-2531 | every address of every laid out bucket leads through the rebuilt map to its own file offset in [original f_size, new f_size), or is marked zero-filled |
| Relayout.ContentsApart | src/erw_nne.h:2440-2525 | and no two such addresses share a file byte |
| Relayout.Retry | src/erw_nne.h:2407-2531 | the retry as a whole: buckets sorted and laid out in place, in at most three segments with the permissions that each bucket needs, program headers, file size, and a map with which the above holds |
| Relayout.EditPassIsGood | src/erw_nne.h:2412-2531 | every pass of an edit but the first that sets no retry is one for which the following three hold |
| Relayout.GivenReaches | src/erw.c:399-408 | end to end: every byte of every allocation in address space, made in a pass without retry, has a file byte behind the original file, or reads as zero |
| Relayout.GivenApart | src/erw.c:399-408 | different allocations never share an address, across all buckets |
| Relayout.GivenContentsApart | src/erw.c:399-408 | different allocations with contents, in file or address space, never share a file byte |
| SymbolOrder.RankOrders | src/erw_nne.h:1803-1834 | counting sort orders by group and keeps the order within a group, both directions |
| SymbolOrder.SortingPermutes | src/erw_nne.h:1803-1834 | the remap is a permutation |
| SymbolOrder.DsymsRemap | src/erw_nne.h:1683-1702 | the swap loop terminates and moves symbols, notes and versions together: new[remap[i]] == old[i] |
| SymbolOrder.SwapProgress | src/erw_nne.h:1687-1699 | each swap brings one more element home |
| SymbolOrder.RelocsRemap | src/erw_nne.h:1705-1739 | every relocation of every table with symbols follows its symbol and keeps its kind, offset and addend; exactly the tables that changed become dirty |
| SymbolOrder.RelocsDenoteSame | src/erw_nne.h:1705-1739 | after that, every relocation denotes the symbol that it denoted before, and is otherwise unchanged |
| SymbolOrder.MoveLocalsFirst | src/erw_nne.h:1849-1871 | local symbols come first afterwards, both kinds keep their order, and relocations follow; nothing changes if they came first already |
| GnuHash.ShapeIs | src/erw_nne.h:1742-1759 | a Bloom filter with the least power of two of words that is at least n/8, whose second bit is taken from above what selects the word and the first bit, up to bit 26; an odd number of buckets that is three for four symbols, or what fills the old table; the old table is reused if and only if the words suffice |
| GnuHash.CeilLog2Is | src/erw.c:168-170 | the clz formula gives the exponent of the least power of two that is not below its argument |
| GnuHash.HashCount | src/erw.c:155-166 | counts the symbols selected for hashing |
| GnuHash.CountPass | src/erw_nne.h:1784-1802 | the Bloom filter has exactly the bits that hashed symbols ask for, and the bucket counts are right |
| GnuHash.StartPass | src/erw_nne.h:1803-1819 | bucket starts are prefix sums; the total is the symbol count, so the "inconsistent logic" exit is never taken |
| GnuHash.RemapPass | src/erw_nne.h:1820-1838 | the remap is the stable sort by local, other, bucket; each chain word stands at its symbol's new index |
| GnuHash.SortedInOrder | src/erw_nne.h:1784-1838 | in terms of the symbols and their notes: unselected symbols come before selected ones, local ones of them first, selected ones come by bucket, and each part keeps its order, if and only if |
| GnuHash.OrderedLocalsFirst | src/erw_nne.h:1784-1838 | unless a local symbol is selected, all local symbols come first afterwards |
| GnuHash.EndPass | src/erw_nne.h:1839-1843 | the low bit is set exactly on the last chain word of each bucket |
| GnuHash.RebuildGnuHash | src/erw_nne.h:1741-1847 | the rebuilt table read back by the repository's readers finds exactly the selected symbols and counts all symbols; symbols, notes, versions and relocations are permuted together, into the order by locals, others and buckets |
| GnuHash.FoundIffHashed | src/erw_nne.h:1373-1412 | the reader finds a symbol at its new index if and only if it was selected |
| GnuHash.LooksUpFirst | src/erw_nne.h:1820-1843 | a lookup by name in the rebuilt table ends at the symbol that came first among those selected under the name |
| GnuHash.GnuLookupUnchanged | src/erw_nne.h:1741-1847 | if exactly the symbols are selected that the old GNU table found, every name leads to the symbol it led to, at its new index |
| GnuHash.CountIsCount | src/erw_nne.h:1157-1205 | the symbol count read back is right whenever some symbol is hashed |
| GnuHash.NullSymbolStays | src/erw_nne.h:1820-1838 | symbol 0 keeps index 0 |
| GnuHash.IsFindable | src/erw_nne.h:1383-1410 | the chain walk decides findability |
| GnuHash.GatherSymInfo | src/erw_nne.h:1373-1412 | flags exactly the findable symbols and notes how far down the chain they are |
| GnuWalk.SymbolCount | src/erw_nne.h:1157-1205 | walking buckets and chains through the map, entry by entry, counts the symbols of the table that the map shows if and only if no word of the last chain, up to its end, lies in an entry without file contents |
| GnuWalk.WalkChain | src/erw_nne.h:1184-1203 | in general it counts the words with file contents and subtracts those without, modulo 2^32 |
| GnuWalk.MaxBucket | src/erw_nne.h:1162-1183 | the largest bucket word is found whatever entries the buckets lie in |
| GnuWalk.MiddleMiscounts | src/erw_nne.h:1190-1191 | a chain of three words that is counted as one |
| ElfHash.RebuildElfHash | src/erw_nne.h:1657-1680 | every bucket's chain is the sorted list of its selected symbols, threaded through one array |
| ElfHash.BucketListIs | src/erw_nne.h:1661-1679 | a chain holds exactly the selected symbols of its bucket, each once, by non-increasing hash_distance, later symbols first where equal |
| ElfHash.ChainHasNoRepeats | src/erw_nne.h:1666-1674 | chains are acyclic |
| ElfHash.BucketsForIs | src/erw_nne.h:1615-1638 | an odd number of buckets that is three for four symbols, or in place of the old table what fills it exactly; that is done if and only if it leaves as many buckets as there were, or as many as a new table would have |
| ElfHash.GatherSymInfo | src/erw_nne.h:1344-1371 | flags exactly the symbols on the chain of their own name's bucket, with a distance that falls along the chain |
| ElfHash.RebuiltReadsBack | src/erw_nne.h:1344-1371 | reading a rebuilt table flags exactly the selected symbols |
| ElfHash.LookupUnchanged | src/erw_nne.h:1657-1680 | looking a name up in the legacy table finds the same symbol, at its new index, before reading and after rebuilding, whatever the numbers of buckets, the reordering in between and the symbols added; a new name leads to the added symbol that comes last |
| HashOrder.LookupWithBoth | src/erw_nne.h:1373-1412 | with both tables, the rebuilt legacy table leads to the symbol that came first among those the old GNU table found under the name; if there is none, to what the old legacy table led to |
| HashOrder.LookupKeptExactly | src/erw_nne.h:1402 | so a lookup in the legacy table is unchanged if and only if its symbol came first in the GNU table too, or that table found none of the name |
| HashOrder.LookupCanChange | src/erw_nne.h:1402 | two symbols of one name in opposite orders in the two tables, for which the lookup changes |
| Relr.CountRelocs | src/erw_nne.h:1017-1027 | clearing bits one by one counts exactly the relocations that will be written |
| Relr.ExpandRelr | src/erw_nne.h:1029-1066 | appends exactly the relocations of the table's targets, within the reserved room |
| Relr.ExpansionReads | src/erw_nne.h:1029-1066 | each of them has the address of its target and for its addend the bytes of the image that lie there, zero outside of the image |
| Relr.ExpansionMeans | src/erw_nne.h:986-1070 | for non-overlapping targets, applying the relocations with any load bias gives the memory that applying the table gives |
| Relr.ExpansionMeansExactly | src/erw_nne.h:1044-1066 | for aligned targets that holds for every bias if and only if no word is named twice |
| Relr.ApplyBits | src/aarch64/_init.s:35-45 | the clz loop over the reversed word patches the addresses of the word's one bits |
| Relr.ApplyTable | src/aarch64/_init.s:11-54 | for any table that is not empty, the walker patches the targets counted from absolute address 0, and nothing without a bias |
| Relr.WalkerExactly | src/aarch64/_init.s:22-53 | for every bias but 0 those are the targets that the format names if and only if no bit is set before the first address |
| Relr.WalkerMeans | src/aarch64/_init.s:11-54 | then the walker leaves the memory that the format asks for, for every bias |
| Relr.WalkerMisses | src/aarch64/_init.s:22-53 | the table of the single word 3, for which the walker patches another address |
| LogicalImmediate.EncodeIsRight | src/aarch64/assembler.c:727-740 | a nonzero result decodes to the operand, and 0 is returned if and only if the operand is no rotated run of ones replicated over elements of 2 to 64 bits; besides the three fields only the bits are set in which the opcodes for immediates differ from those for registers |
| LogicalImmediate.GuardMeans | src/aarch64/assembler.c:730 | the guard refuses exactly all zeros and all ones |
| LogicalImmediate.RotationMeans | src/aarch64/assembler.c:731-732 | after the rotation bit 0 is one and the top bit is zero |
| LogicalImmediate.SizeIsPeriod | src/aarch64/assembler.c:733-735 | leading zeros plus trailing ones never exceed a period of the rotated word |
| LogicalImmediate.EncodedPattern | src/aarch64/assembler.c:731-738 | a word that repeats with that size is the pattern its fields describe |
| LogicalImmediate.NarrowNeedsNoN | src/aarch64/assembler.c:729-739 | a 32-bit operand is never encoded with N set |
| Closure.Polyfiller.AddSymAndDeps | src/x86_64/polyfiller.c:89-143 | terminates on cyclic graphs; closed except at symbols being followed, with nothing that a closed set with the symbol would not have; fails only if no closed set exists |
| Closure.TopLevelIsLeast | src/x86_64/polyfiller.c:89-143 | a top-level call yields the least labelled set that has the symbol and what each symbol in it needs, and meets a missing implementation if and only if there is none |
| Closure.TopLevelIsReached | src/x86_64/polyfiller.c:89-143 | in terms of the relocations and renames of the symbols: a top-level call leaves each symbol with a reason if and only if a chain of needs leads to it with that reason from the symbol asked for or from one that was there, and fails if and only if one leads to a rename without an implementation |
| Closure.FlagsAreReached | src/x86_64/polyfiller.c:89-143 | the noted processor flags are those noted before and those of the functions that are there |
| Closure.Polyfiller.Add | src/x86_64/polyfiller.c:146-156 | adding a symbol for its own sake, with both reasons: exactly the symbols, reasons and flags that chains of needs lead to |
| Closure.OrderDoesNotMatter | src/x86_64/polyfiller.c:146-156 | adding two symbols in either order yields the same set and reasons |
| Closure.Polyfiller.Enter | src/x86_64/polyfiller.c:90-93 | set_if_absent and set join the reasons, and tell when nothing is new |
| DynStrings.Rehash | src/erw.c:953-975 | the doubled table holds the same entries, each before the first empty slot of its search |
| DynStrings.DynStr.AddExisting | src/erw.c:977-998 | notes the reference with its string as decoded through the map, unless it is there already; reference 0 is never noted |
| DynStrings.DynStr.BuildTable | src/erw.c:1000-1010 | every existing reference but 0 is in the table |
| DynStrings.DynStr.ReadOriginal | src/erw.c:899-916 | a reference into the original table is looked up in the map once and read on in the file, or empty where the map is special |
| DynStrings.DynStr.Search | src/erw.c:1133-1149 | what is found denotes the string, and if nothing is found no known reference but 0 does |
| DynStrings.DynStr.StartBuilding | src/erw.c:1039-1072 | the switch to a new table, empty or filled with what the map shows: a known reference denotes the same string after it if and only if it survives, and exactly those remain known; refuses if and only if more than 1K is to be copied and more than an eighth of the strings' length of it is waste |
| StringMemory.SurvivesExactly | src/erw.c:911-915 | a buffer filled from the map keeps a string if and only if the map goes on to show the bytes that the file goes on with, up to the zero |
| StringMemory.ShortSurvives | src/erw.c:911-915 | in particular every string that ends within its map entry |
| StringMemory.CutString | src/erw.c:911-915 | a string that runs over the end of its entry, and is cut |
| DynStrings.DynStr.Append | src/erw.c:1155-1170 | a new reference that denotes the string, behind bytes that stay as they are |
| DynStrings.DynStr.Encode | src/erw.c:1122-1171 | decode(encode(s)) == s; all known references go on denoting what they denoted, except that the switch to a new table gives up exactly those that do not survive it; a string already known appends nothing |
| DynStrings.SwitchKeepsLonger | src/erw.c:1061-1171 | what survives the switch is decided then: strings appended later change nothing of it |

## Left out

- Call frame bytes in the assembler's payload, and where they are written: a placeholder behind the last code byte shares their place until the next command, which the model does not have.
- The packing of a runtime fixup into one word (offset, size of the immediate, flags): fixups are records here.
- The header of an emitted function, which stores the number of its fixups and its size in 16 bits each (`head_out[1]` and `head_out[2]`, src/x86_64/assembler.c:1632-1633): the model has neither limit.
- Operand matching, instruction encoding tables and the parser: generated, and without a specification short of a full decoder.
- 32-bit and byte-swapped instantiations of the ELF code, and the DT_REL form of expanded relocations.
- The third branch of `erw_dynstr_start_building_new`, which compacts a sparse string table: it is an outcome of `Encode`, after which nothing changes, and nothing is said about its result.
- `v2f_map_init` on a map already in use, and `v2f_map_lookup_f_range`.
- Alignments of 2^31 and more in the comparison of buckets, which subtracts them as 32-bit integers.
- Layouts that do not fit below 2^64: `Relayout.Retry` requires that they do, as the source does not check.
- The bytes of the file stay as they are while strings are interned: `DynStrings.DynStr` is given the file and the map once.
- Symbol names are identities: two references to equal strings count as one name in the hash tables.
- Reading hash tables through the address map, except for the count of symbols: those readers take the table's words one by one, each by `FileView.MaterialiseRange`.
- GnuWalk.SymbolCount: requires that the buckets and the chain end before the last map entry, behind which the sentinel's base 0 ends no walk, and that no word lies in two entries, because the walk would read it as if the file went on.
- Symbol names are taken to stay as they are between reading the hash tables and rebuilding them: `ElfHash.LookupUnchanged`, `HashOrder.LookupWithBoth` and `GnuHash.GnuLookupUnchanged` say nothing of symbols renamed in between.
- Section headers, the dynamic section and where rebuilt tables are stored; `GnuHash.ShapeFor` and `ElfHash.BucketsFor` decide whether they fit in place.
- Chains and buckets that are malformed in ways that make a reader leave the table or not end: the readers require tables without them.
- Changes that following a symbol makes to the renamer itself (added renames and the nodelete flag): the renamer is held fixed.
- The aarch64 polyfiller's closure (src/aarch64/polyfiller.c:90-127), which is the same search without reasons.
- Tables of 2^32 slots or more, where the source's 32-bit masks wrap, and failures of malloc.
- Version records, note and property editing, the renamer, the tokeniser, file input and output, the command line and the runtime of relative interpreters.
- GnuHash.RebuildGnuHash: requires that symbol 0 is not selected, because a bucket that starts at 0 cannot be told from an empty one; symbol 0 is the null symbol, which is local.
- DynStrings.DynStr.Encode: does not say that encoding an empty string returns reference 0, because the source does not note that reference.
