# Morbo, modelled and verified

Morbo boots a machine over FireWire: a host pushes modules into the memory of a waiting target,
which then relocates them, inflates what is compressed, and starts the first one as an ELF image.
This project models the parts of it that carry real proof weight and proves what they promise.
`dafny verify dfyconfig.toml` checks everything.

| files | what they model |
|---|---|
| `Words`, `Digits`, `Bits`, `Bitwise`, `Memory` | machine words, digit strings, bit strings, exclusive or, flat little-endian memory |
| `QDivRem` | 64-bit division by Algorithm D of section 4.3.1 of TAOCP vol. 2, on digit arrays changed in place |
| `Huffman`, `DeflateFormat` | canonical codes and the DEFLATE format of RFC 1951, as what a stream means and which bits transmit it |
| `TinfTables`, `Tinflate`, `DeflateRoundTrip` | the inflater: bit reader, trees by counting sort, block loop, and the round trip |
| `DeflateLaws`, `GzipLaws`, `ElfLaws`, `BootLaws` | the same programs on inputs written out bit by bit, byte by byte and field by field, as the standards and header files lay them out |
| `Gzip`, `Crc32`, `Adler32`, `Crc16` | the gzip reader and three checksums |
| `X86`, `ElfLoader` | the ELF loader as a compiler to x86 code, and a processor model that runs that code byte by byte |
| `MemoryMap`, `Relocate` | the two allocators over a Multiboot memory map, and the module relocator, which calls the gzip reader |
| `StrToUll`, `Printf` | number parser and formatter, and that one undoes the other |
| `RemoteBoot`, `Handshake` | the host's plan of remote writes, and its interleaving with the polling target |

Conventions. Code that works in place is a method over arrays or objects, proved against a
specification that does not mention it. A C pointer into a buffer is an index. Arithmetic that the
source relies on to wrap is written with `Wrap32` or `Wrap64`; a variable of type `u32` or `u64`
that is assigned an exact sum is a proof that the sum does not wrap. Ghost parameters name what
the input is supposed to contain (blocks of a stream, entries of a map, pieces of a format); the
program itself never looks at them.

The `...Laws` modules tie the specifications to the outside: their statements name literal bytes,
offsets and constants instead of the functions that the programs are proved against.

Two places where the code does not do what one might expect are kept as they are. In
`mbi_find_memory` two `continue` statements do not advance the entry pointer, so that some maps
hang the loop: `MemoryMap.HighestEndsIff` says exactly which. In `__divdi3` one quotient does not
fit: `QDivRem.DivDi3` says which.

## Model

| member | source | states |
|---|---|---|
| QDivRem.MulSub | standalone/qdivrem.c:277-283 | step D4: the digits become window - qhat*v modulo B^(n+1), computed with words that wrap at 2^32, and the returned borrow tells exactly whether the difference is negative; no other digit changes |
| QDivRem.AddBack | standalone/qdivrem.c:292-297 | step D6: the digits become window + v, less B^(n+1) if there is a carry out of the window, which is dropped; no other digit changes |
| QDivRem.TrialDigit | standalone/qdivrem.c:253-270 | step D3: qhat is the greatest digit whose product with the two leading divisor digits stays within the three leading window digits, found with at most two corrections |
| QDivRem.TrialDigitNotBelow | standalone/qdivrem.c:246-270 | Theorem A of TAOCP section 4.3.1: the trial digit is never below the true digit |
| QDivRem.TrialDigitNotAbove | standalone/qdivrem.c:246-270 | Theorem B, sharpened by the second divisor digit: the trial digit is at most one above the true digit |
| QDivRem.TrialDigitIsClose | standalone/qdivrem.c:246-270 | both together: floor(w/v) <= qhat <= floor(w/v) + 1 for every normalised divisor and every window below v*B |
| QDivRem.BorrowMeansTooLarge | standalone/qdivrem.c:284-298 | step D5: there is a borrow if and only if qhat is one too large, and adding v back then gives the true remainder |
| QDivRem.DivideWindow | standalone/qdivrem.c:242-299 | one turn of the loop: the digit is the true quotient digit of the window and the window becomes the remainder, below v |
| QDivRem.ProgramD | standalone/qdivrem.c:239-300 | Program D for any n >= 2 and m >= 0: the quotient digits and the remainder left in u satisfy U = V*Q + R with R < V |
| QDivRem.Shl | standalone/qdivrem.c:109-117 | the number in the digits is multiplied by 2^sh |
| QDivRem.NormalisingShift | standalone/qdivrem.c:229-231 | the shift that brings the leading divisor digit to at least B/2, and not beyond B |
| QDivRem.Normalise | standalone/qdivrem.c:229-235 | step D1: dividend and divisor are multiplied by the same power of two, without loss |
| QDivRem.ShiftRight | standalone/qdivrem.c:308-313 | the remainder digits are divided by 2^d |
| QDivRem.Denormalise | standalone/qdivrem.c:307-317 | the 64-bit remainder is the shifted one divided by 2^d |
| QDivRem.SkipLeadingZeros | standalone/qdivrem.c:217-218 | all leading zeros of the dividend are skipped, and m never becomes negative because u >= v |
| QDivRem.DivisorDigits | standalone/qdivrem.c:183-184 | n is the number of significant divisor digits |
| QDivRem.ShortDivision | standalone/qdivrem.c:184-209 | the unrolled one-digit division gives quotient and remainder of the 64-bit dividend |
| QDivRem.LongDivision | standalone/qdivrem.c:212-321 | divisors of two to four digits: quotient and (if wanted) remainder |
| QDivRem.DivideQuads | standalone/qdivrem.c:155-321 | both paths on 64-bit operands |
| QDivRem.QDivRem | standalone/qdivrem.c:127-322 | __qdivrem: for all 64-bit u and nonzero v, the quotient is floor(u/v) and, if asked for, the remainder is u mod v |
| QDivRem.UDivDi3 | standalone/qdivrem.c:363-368 | __udivdi3 is floor division |
| QDivRem.UModDi3 | standalone/qdivrem.c:327-335 | __umoddi3 is the remainder |
| QDivRem.TruncDivRounds | standalone/qdivrem.c:341-358 | what truncating division means: |a - b*q| < |b| and the remainder has the sign of a or is 0 |
| QDivRem.DivDi3 | standalone/qdivrem.c:341-358 | __divdi3 truncates toward zero for every signed pair except (-2^63, -1), whose quotient does not fit and wraps to -2^63: exactly that pair fails |
| Bits.NumberOfLsb | standalone/tinflate.c:178-193 | reading n bits least significant first inverts packing, for every n-bit number |
| Bits.LsbOfNumber | standalone/tinflate.c:178-193 | and packing inverts reading |
| Huffman.KraftIsEnd | standalone/tinflate.c:126-151 | the canonical codes of length 15 end where the Kraft sum of the lengths says |
| Huffman.CodeFits | standalone/tinflate.c:196-213 | in a prefix-valid code every canonical code fits into its length |
| Huffman.CodewordPrefixes | standalone/tinflate.c:200-210 | each proper prefix of a codeword lies at or above the end of the codes of its length, the whole below: why the loop stops after exactly the codeword |
| Huffman.PrefixFree | standalone/tinflate.c:196-213 | no codeword is a prefix of another (section 3.2.2 of RFC 1951) |
| Huffman.CompleteDecodes | standalone/tinflate.c:196-213 | if the Kraft sum is full, every 15 bits begin with a codeword |
| Huffman.UniquelyDecodable | standalone/tinflate.c:196-213 | of two symbol lists whose codewords begin the same bit string one continues the other |
| DeflateLaws.CodesAscend | standalone/tinflate.c:126-151 | the two rules of section 3.2.2 of RFC 1951: codes of one length ascend with the symbols, and lie above the extensions of shorter codes |
| DeflateLaws.ExampleIsPrinted | standalone/tinflate.c:126-151 | the printed example: lengths 3,3,3,3,3,2,4,4 have the eight printed codes |
| DeflateLaws.FixedCodesArePrinted | standalone/tinflate.c:101-123 | the fixed codes bit by bit as section 3.2.6 of RFC 1951 prints them, for all 288 and 32 symbols |
| Huffman.CompleteSplits | standalone/tinflate.c:196-213 | a complete code splits every bit string into codewords up to fewer than 15 bits |
| Huffman.PlaceSorts | standalone/tinflate.c:139-150 | the places in trans are ordered by (length, symbol) |
| Huffman.PlaceBound | standalone/tinflate.c:139-150 | places lie among the used symbols, so no index leaves the table |
| Huffman.PlaceOnto | standalone/tinflate.c:139-150 | and every such table entry belongs to a used symbol |
| TinfTables.CountLengths | standalone/tinflate.c:131-137 | the table holds, for each length, how many symbols have it, unused symbols not counted |
| TinfTables.Offsets | standalone/tinflate.c:139-144 | the offsets are the numbers of shorter used symbols |
| TinfTables.BuildTree | standalone/tinflate.c:126-151 | the tree built from any lengths of at most 15 is the sorted table of their canonical code |
| TinfTables.BuildFixedLit | standalone/tinflate.c:105-115 | the hand-built literal tree is that of the fixed lengths of section 3.2.6 of RFC 1951 |
| TinfTables.BuildFixedDist | standalone/tinflate.c:117-122 | likewise the distance tree |
| TinfTables.BuildFixedTrees | standalone/tinflate.c:101-123 | both at once, each the tree that tinf_build_tree would build |
| TinfTables.BuildBitsBase | standalone/tinflate.c:84-98 | extra bits i/delta - 1 and bases that sum the sizes of the codes before |
| TinfTables.BuildLengthTable | standalone/tinflate.c:392-404 | the generated length table, with its special last entry, is that of the format |
| TinfTables.BuildDistTable | standalone/tinflate.c:392-404 | the generated distance table is that of the format |
| TinfTables.Tables.constructor | standalone/tinflate.c:392-404 | tinf_init makes all static tables ready |
| DeflateFormat.LengthExtraIsPrinted | standalone/tinflate.c:64-70 | the extra bits of length codes as section 3.2.5 of RFC 1951 prints them |
| DeflateFormat.DistExtraIsPrinted | standalone/tinflate.c:64-70 | the extra bits of distance codes as printed |
| DeflateFormat.LengthBaseIsPrinted | standalone/tinflate.c:64-70 | the first length of each code as printed |
| DeflateFormat.DistBaseIsPrinted | standalone/tinflate.c:64-70 | the first distance of codes 0 to 19 as printed |
| DeflateFormat.LongDistBaseIsPrinted | standalone/tinflate.c:64-70 | the first distance of codes 20 to 29 as printed |
| DeflateFormat.ClIndexIsTable | standalone/tinflate.c:72-77 | the order of the code length code lengths, in closed form, is the table's |
| DeflateFormat.CopyBackRepeats | standalone/tinflate.c:329-333 | byte i of a match is the byte that lies i mod dist into the last dist bytes, overlap or not |
| Tinflate.FixedComplete | standalone/tinflate.c:101-123 | both fixed codes are complete |
| Tinflate.Data.GetBit | standalone/tinflate.c:158-175 | one bit is taken from the front of the unread bits, across byte boundaries |
| Tinflate.Data.ReadBits | standalone/tinflate.c:178-193 | num bits are taken and give their number plus base, from any bit position |
| Tinflate.Data.DecodeSymbol | standalone/tinflate.c:196-213 | where the codeword of s stands, the result is s and exactly len(s) bits are taken, for every prefix-valid code |
| Tinflate.Data.DecodeAny | standalone/tinflate.c:196-213 | for a complete code the decoder ends within 15 bits on every bit string, with a used symbol whose codeword it has taken |
| Tinflate.Data.ReadClLengths | standalone/tinflate.c:232-241 | the lengths of the code length code are read back from their transmission order |
| Tinflate.Data.ReadRun | standalone/tinflate.c:249-281 | one run of code lengths, on the bits ahead (section 3.2.7 of RFC 1951): the codeword of s < 16 appends s; that of 16 and two bits x, 3 + x copies of the last length; of 17 and three bits, 3 + x zeros; of 18 and seven bits, 11 + x zeros; exactly those bits are taken |
| Tinflate.Data.ReadCounts | standalone/tinflate.c:223-230 | five, five and four bits give HLIT + 257, HDIST + 1 and HCLEN + 4 |
| Tinflate.Data.ReadRuns | standalone/tinflate.c:247-282 | any legal list of runs, across the boundary of the two codes, gives the concatenated lengths |
| Tinflate.Data.DecodeTrees | standalone/tinflate.c:216-287 | for every well-formed header exactly its bits are taken and the two trees are those of the two length vectors |
| Tinflate.Data.CopyMatch | standalone/tinflate.c:329-335 | the overlapping copy in place appends the match and leaves the rest of the buffer alone |
| Tinflate.Data.InflateTurn | standalone/tinflate.c:301-336 | one turn on the bits ahead: the codeword of a byte appends it, that of 256 ends the block, and above that extra bits, distance codeword and its extra bits append the match of that length at that distance; exactly those bits are taken |
| Tinflate.Data.InflateItem | standalone/tinflate.c:301-336 | one literal or match is decoded and emitted, or the end of the block found |
| Tinflate.Data.InflateBlockData | standalone/tinflate.c:294-338 | all items of a block are expanded; destLen grows by what was written |
| Tinflate.Data.InflateUncompressedBlock | standalone/tinflate.c:341-368 | a stored block is copied if and only if its length check holds, from the byte after the bit buffer on |
| Tinflate.Data.InflateStoredBlock | standalone/tinflate.c:341-368 | the same for a stored block as the format describes it, padding included |
| Tinflate.Data.InflateFixedBlock | standalone/tinflate.c:371-375 | a block with the fixed codes is expanded |
| Tinflate.Data.InflateDynamicBlock | standalone/tinflate.c:378-385 | a block with dynamic codes is expanded |
| Tinflate.Data.InflateBody | standalone/tinflate.c:433-452 | the block type selects the inflater; reserved types and failed length checks are rejected |
| Tinflate.Data.InflateBlock | standalone/tinflate.c:427-452 | one turn of the block loop consumes one block and keeps the rest of the stream ahead |
| Tinflate.Data.InflateStream | standalone/tinflate.c:422-456 | the loop stops after the final block, or at the first block to reject |
| Tinflate.Uncompress | standalone/tinflate.c:407-457 | tinf_uncompress: for every stream of stored, fixed and dynamic blocks (section 3.2.3 of RFC 1951) the output is exactly its expansion, destLen its length, nothing before or beyond is written, and the result is TINF_OK if and only if no block had to be rejected |
| DeflateLaws.StoredBlockIs | standalone/tinflate.c:427-452 | the bits of a stored block: final bit, type 00, padding, length, complement, data |
| DeflateLaws.FixedBlockIs | standalone/tinflate.c:427-452 | those of a block with fixed codes: final bit, type 01, items |
| DeflateLaws.DynamicBlockIs | standalone/tinflate.c:427-452 | those of a block with dynamic codes: final bit, type 10, the three counts, the code length code, the code lengths, items |
| DeflateLaws.ReservedBlockIs | standalone/tinflate.c:427-452 | those of the reserved type 11 |
| DeflateLaws.ClBitsAre | standalone/tinflate.c:72-77 | three bits for each length of the code length code, in the printed order 16, 17, 18, 0, 8, 7, ... |
| DeflateLaws.StoredDecodes | standalone/tinflate.c:341-368 | any bytes 1, length, complement, data come out as the data, whatever the five padding bits are |
| DeflateLaws.Rejects | standalone/tinflate.c:341-368 | a source that begins with the reserved type, or with a stored block whose second length is not the complement of the first, is refused, and nothing is written |
| DeflateLaws.LiteralsDecode | standalone/tinflate.c:294-338 | the printed codes of any bytes, behind the bits 1, 1, 0 and before seven zeros, come out as those bytes |
| DeflateRoundTrip.LengthHasCode | standalone/tinflate.c:314-327 | every length 3..258 has a symbol and extra bits that the tables decode back |
| DeflateRoundTrip.DistHasCode | standalone/tinflate.c:314-327 | every distance 1..32768 has a symbol and extra bits that the tables decode back |
| DeflateRoundTrip.EncodeIsStream | standalone/tinflate.c:407-457 | the encoder's bytes for a legal token list begin with a stream of one fixed block that is well formed, accepted, and expands to what the tokens expand to |
| DeflateRoundTrip.RoundTrip | standalone/tinflate.c:407-457 | decode(encode(tokens)) = expand(tokens): on any source that begins with the encoder's bytes for a legal token list, tinf_uncompress returns TINF_OK and the expansion of the tokens |
| Memory.CopyMemory | standalone/memcpy.c:5-12 | memory after a copy between disjoint blocks, or of a block onto itself |
| Memory.LittleEndian | standalone/elf.c:31-37 | halves, words and quads are little-endian, and the bytes of a word are stored so |
| X86.RunMovsb | standalone/elf.c:52-53 | what REP MOVSB does, one byte per step, if it overwrites neither its source nor itself |
| X86.RunStosb | standalone/elf.c:54-57 | what REP STOSB of a zero does, one byte per step |
| ElfLoader.ByteOut | standalone/elf.c:23-29 | one byte at the code pointer, which moves on |
| ElfLoader.GenMov | standalone/elf.c:31-37 | five bytes that the processor model reads as mov reg, imm32 |
| ElfLoader.GenJmpEdx | standalone/elf.c:39-43 | the two bytes of jmp edx |
| ElfLoader.GenElfSegment | standalone/elf.c:45-58 | the 24 bytes for a segment, in order, and nothing else changed |
| ElfLoader.GenHeader | standalone/elf.c:90-96 | one program header: nothing, or the code for its segment, with 32-bit address arithmetic and truncation |
| ElfLoader.GenSegments | standalone/elf.c:83-96 | the code for exactly the PT_LOAD headers, in order, for both ELF classes |
| ElfLoader.GenLoader | standalone/elf.c:85-113 | the whole program: segments, EAX, EDX, jump |
| ElfLoader.TakeModule | standalone/elf.c:70-77 | the first module leaves the list and its command line becomes the kernel's; no other field changes |
| ElfLoader.OrCmdline | standalone/elf.c:77 | setting the command line flag |
| ElfLoader.StartImage | standalone/elf.c:79-114 | the header checks in their order decide between each failing assertion and the jump |
| ElfLoader.StartModule | standalone/elf.c:60-118 | start_module after the relocation: no module, a failing assertion, or the jump to the generated code |
| ElfLoader.LoadAllKeeps | standalone/elf.c:90-96 | loading changes neither the image nor the generated code |
| ElfLoader.LastSegmentDecides | standalone/elf.c:90-96 | what the loaded memory holds at each address: the last segment that covers it decides, all else is unchanged |
| ElfLoader.RunSegment | standalone/elf.c:45-58 | running the code of one segment loads it |
| ElfLoader.CodeLoadsImage | standalone/elf.c:83-114 | compiler correctness: for every list of segments that miss image and code, the generated code reaches the entry point with EAX = 0x2BADB002, EBX untouched, and memory that of loading all segments |
| ElfLoader.HandsOff | standalone/elf.c:83-114 | the same from the state in which start_module jumps |
| ElfLaws.EhMeans | standalone/include/elf.h:87-121 | where the bytes of struct eh or eh64 stand, the loader reads exactly the fields e_type, e_machine, e_version, e_entry, e_phoff, e_phentsize and e_phnum, for all field values |
| ElfLaws.PhMeans | standalone/include/elf.h:125-147 | where the bytes of struct ph or ph64 stand, the loader takes p_type, and loads to p_paddr from start + p_offset, p_filesz bytes, then p_memsz - p_filesz zeros |
| ElfLaws.GeneratesHeader | standalone/elf.c:90-96 | for a file that stands in memory field by field, one turn adds BF p_paddr BE start+p_offset B9 p_filesz F3 A4 B9 p_memsz-p_filesz F3 AA for a header of type 1, and nothing for another |
| ElfLaws.StartsFile | standalone/elf.c:79-114 | a file is refused exactly unless it is an executable for the i386 or x86-64 with headers of the usual size; then the code of all its headers and its entry point stands at 0x7C00 and is entered with EAX 0, EDX 0x7C00, EBX the boot information |
| ElfLaws.RefusesImage | standalone/elf.c:79-81 | anything that does not begin with 7F 45 4C 46 and class 1 or 2 is refused |
| ElfLaws.FileRuns | standalone/elf.c:83-114 | that code reaches e_entry with EAX 0x2BADB002 and EBX unchanged, all segments of type 1 loaded in order |
| BootLaws.ListsMean | include/mbi.h:35-49 | the module list and the memory map are where the words of struct mbi say, and there is a module to start if bit 3 of the flags is set and the count is not 0 |
| BootLaws.ModMeans | include/mbi.h:52-58 | the words of struct module are start, end, command line |
| BootLaws.TakesModule | standalone/elf.c:70-77 | on those words: bit 2 is set, the command line is that of the module, the count is one less, the list starts 16 bytes later, all else is kept |
| MemoryMap.ScanIsLoop | standalone/mbi.c:24-57 | the verdict on a map is that of the loop with its two non-advancing continues: an end within |map|+1 turns, or no end ever |
| MemoryMap.Rounding | standalone/mbi.c:28-34 | what page rounding leaves of an entry |
| MemoryMap.HighestEndsIff | standalone/mbi.c:24-57 | the search for the highest block ends if and only if no entry vanishes under rounding and the fitting entries come in ascending order |
| MemoryMap.HighestIsGreatest | standalone/mbi.c:24-59 | when it ends it finds the greatest start at which the length fits into a rounded available entry below the limit, and nothing exactly when there is no such start |
| MemoryMap.AscendingFindsGreatest | standalone/mbi.c:11-60 | for ascending disjoint maps without vanishing entries it always ends, with that result |
| MemoryMap.LowestIsFirst | standalone/mbi.c:24-52 | with highest false it stops at the first fitting entry, reached if and only if no entry before vanishes |
| MemoryMap.SmallEntryLoops | standalone/mbi.c:31 | a map on which the first continue hangs the loop |
| MemoryMap.DescendingLoops | standalone/mbi.c:39-40 | a map on which the second continue hangs the loop |
| MemoryMap.EqualEntriesEnd | standalone/mbi.c:39-40 | two entries with equal starts do not hang it: only a strictly higher earlier start does |
| MemoryMap.VanishesIff | standalone/mbi.c:28-31 | an entry vanishes if and only if it holds no page boundary, its end included |
| MemoryMap.RoomIsPages | standalone/mbi.c:28-37 | there is room at t if and only if the bytes from t on lie below the limit and between two page boundaries inside an entry of type 1 |
| MemoryMap.FitsIff | standalone/mbi.c:36-50 | an entry fits if and only if there is room in it, and the start that is tried is the greatest with room |
| MemoryMap.FindMemory | standalone/mbi.c:11-60 | mbi_find_memory on the map in memory, wherever the loop ends |
| BootLaws.FindsHighest | standalone/mbi.c:11-60 | mbi_find_memory on a map of memory_map_t entries, byte for byte: for ascending disjoint regions it finds the highest start with len bytes below the limit inside whole pages of a region of type 1, and nothing exactly when there is none |
| MemoryMap.FindUsable | standalone/mbi.c:71-93 | the first entry from which the request can be cut, if any |
| MemoryMap.ShortenEntry | standalone/mbi.c:83-86 | the entry's length words are rewritten, all else kept |
| MemoryMap.EntryShortened | standalone/mbi.c:83-86 | the list stays well formed with one entry shortened |
| MemoryMap.UsableIff | standalone/mbi.c:75-80 | the test of an entry holds if and only if some aligned t above its start leaves len bytes up to its end, below 4 GB, and the cut is at the greatest such t |
| MemoryMap.AllocProtected | standalone/mbi.c:64-96 | mbi_alloc_protected_memory, on addresses: the request is served from the first entry that has an aligned start for it, at the greatest such start, and the entry then ends there; the assertion fails exactly when no entry has one; of all memory only the eight length bytes of the entry change |
| BootLaws.Allocates | standalone/mbi.c:64-96 | the same on a map of memory_map_t entries byte for byte, with the two length words after the call |
| MemoryMap.AllocAll | standalone/mbi.c:64-96 | a run of calls on memory: map and results are those of the same run on the list of entries, it ends early exactly at a request that no entry can serve, and nothing outside the map changes |
| MemoryMap.GrantsAreAligned | standalone/mbi.c:67-88 | a served request is aligned, large enough and below 4 GB |
| MemoryMap.RunsKeep | standalone/mbi.c:64-96 | after any run of allocations (as AllocAll makes them on memory) each entry and what was cut from it make up the original entry, entries stay nonempty, and regions of one entry do not overlap |
| MemoryMap.AllocationsAreSafe | standalone/mbi.c:64-96 | in a disjoint map no address is handed out twice, none that is handed out is still listed, all were available |
| Relocate.StrLen | standalone/strlen.c:5-11 | the number of bytes before the terminator |
| Relocate.AddSize | standalone/mbi.c:144-148 | the running size grows by the pages of the module, in 32-bit arithmetic |
| Relocate.GzipInfo | standalone/mbi.c:103-110 | gzip_info: the size that the gzip reader promises, for exactly the modules whose header it accepts |
| Relocate.Survey | standalone/mbi.c:135-149 | the first pass measures every module, compressed ones by the gzip query, and the page-rounded running size is the sum of the rounded sizes |
| Relocate.CheckOverlap | standalone/mbi.c:156-168 | the check passes if and only if all modules end at or below the target |
| Relocate.InflatePayload | standalone/mbi.c:177-183 | the gzip reader writes the expansion of the member to its place in memory, and the assertion holds exactly if the member is sound |
| Relocate.PlacePayload | standalone/mbi.c:174-188 | a module is copied, or inflated by the gzip reader, to its place, and fails exactly if the member is not sound |
| Relocate.PlaceModule | standalone/mbi.c:173-195 | module, descriptor and command line of one module, nothing else changed |
| Relocate.MoveAll | standalone/mbi.c:173-195 | all modules placed, with descriptors and command lines, and nothing else written; it succeeds exactly if every member to be inflated is sound |
| Relocate.MoveTo | standalone/mbi.c:154-203 | the decision between moving, keeping and halting for a given block |
| Relocate.RelocateModules | standalone/mbi.c:118-204 | mbi_relocate_modules, gzip reader included: modules move to the highest start at which their pages fit below phys_max; if they do not move, there is no such start, or some module ends above it, or a member is not sound; a failed inflation, or a module to inflate that cannot be moved, halts; otherwise memory is unchanged |
| Relocate.ModulesInOrder | standalone/mbi.c:173-195 | the places are in order, disjoint, multiples of 0x1000 apart, with less than a page between one module and the next, and fill the block exactly |
| Relocate.ModuleMoved | standalone/mbi.c:176-195 | every module has its new contents at its new place and its command line right behind |
| Relocate.ModuleNotes | standalone/mbi.c:137-142 | what is noted of a module: its length, that of its command line with the terminator, and the promised size if it is to be inflated |
| Relocate.CommandLineMoved | standalone/mbi.c:192-194 | the command line stands, terminator included, where the moved descriptor says |
| Relocate.ModuleInflated | standalone/mbi.c:118-204 | with decompression every module whose gzip header is intact ends as the DEFLATE expansion of its data, of the length stored in the member, with checked CRC; every other module keeps its bytes |
| Relocate.HaltsIff | standalone/mbi.c:118-204 | the call halts if and only if decompression is asked for and some module has an intact gzip header while the modules cannot be moved or the member is not sound |
| Relocate.SecondOverlap | standalone/mbi.c:157-168 | after a relocation the overlap check fires, unless the only module is empty |
| Relocate.RelocateTwice | standalone/mbi.c:118-204 | a second call with uncompress false changes nothing |
| Gzip.SkipExtra | standalone/tinfgzip.c:78-84 | the extra field is skipped |
| Gzip.SkipString | standalone/tinfgzip.c:86-90 | a zero-terminated field is skipped |
| Gzip.SkipHeader | standalone/tinfgzip.c:73-102 | all optional fields are skipped, and the header CRC accepted exactly when it matches |
| Gzip.Query | standalone/tinfgzip.c:49-114 | the size query gives the stored length, or an error exactly for a bad start or header CRC, whatever the data are |
| Gzip.Uncompress | standalone/tinfgzip.c:49-136 | the member is accepted exactly if header, blocks, length and CRC are right, and then the output is the expansion, of the length the query gave; once the header is accepted the expansion is written even if a later check fails, and nothing else is |
| GzipLaws.SkipsHeader | standalone/tinfgzip.c:73-102 | on literal bytes: for flags of any sum of 2, 4, 8, 16 (and 1) the data start at 10, plus 2 + |x| for 4, |name| + 1 for 8, |comment| + 1 for 16 and 2 for 2, in that order; a wrong header CRC is refused |
| GzipLaws.QueryAnswers | standalone/tinfgzip.c:104-114 | the query answers with the last four bytes, little-endian |
| GzipLaws.Refuses | standalone/tinfgzip.c:60-71 | a source whose first bytes are not 1F 8B 08 and flags below 0x20 is refused |
| GzipLaws.MemberDecodes | standalone/tinfgzip.c:49-136 | a whole member byte for byte: it is accepted exactly if header CRC, length and CRC in the trailer are right, and comes out as its expansion |
| Adler32.LargestBlock | standalone/adler32.c:42 | 5552 is exactly the largest block for which the sums stay below 2^32 |
| Adler32.BoundIsReached | standalone/adler32.c:56-69 | the bound is reached, by bytes 0xFF from the largest reduced sums |
| Adler32.AddByte | standalone/adler32.c:58 | one byte: no overflow inside a block, and the sums stay congruent to those reduced at every byte |
| Adler32.AddSixteen | standalone/adler32.c:56-67 | the unrolled sixteen bytes |
| Adler32.AddBlock | standalone/adler32.c:53-72 | one block, reduced once, agrees with reducing at every byte |
| Adler32.Adler32 | standalone/adler32.c:44-78 | tinf_adler32 is the checksum of section 2.2 of RFC 1950 for every byte string |
| Adler32.AdlerClosed | standalone/adler32.c:44-78 | in closed form: 1 plus all bytes in the low half, n plus each byte times the number of bytes from it to the end in the high half, both modulo 65521 |
| Crc32.TableEntry | standalone/crc32.c:41-46 | each table entry is what four bit steps make of its index |
| Crc32.BitStepsLinear | standalone/crc32.c:59-60 | bit steps are linear over exclusive or |
| Crc32.NibbleIsFourBits | standalone/crc32.c:59-60 | a table step is four bit steps, for every register |
| Crc32.Crc32 | standalone/crc32.c:48-64 | tinf_crc32 is the reflected CRC with polynomial 0xEDB88320 one bit at a time (section 8 of RFC 1952), for every byte string |
| Crc32.CrcComplements | standalone/crc32.c:50-63 | the register starts with 32 ones and is complemented at the end |
| Crc32.PolynomialIsPrinted | standalone/crc32.c:41-46 | entry 0x80 of the byte table is the polynomial 0xEDB88320 of RFC 1952 |
| Crc32.ByteTableIsEightBits | standalone/crc32.c:56-61 | so is the byte-table code that RFC 1952 prints |
| Crc32.RegisterConcat | standalone/crc32.c:56-61 | the running state composes over concatenation |
| Crc32.BurstDetected | standalone/crc32.c:48-64 | a change confined to four consecutive bytes changes the CRC |
| Crc16.NibbleIsFourBits | standalone/crc16.c:15-16 | a nibble step is four bit steps on the low 16 bits, whatever stands in the unmasked bits above |
| Crc16.Crc16Step | standalone/crc16.c:9-20 | a quadlet goes through the register most significant bit first |
| Crc16.Crc16 | standalone/crc16.c:23-32 | crc16 is that register after all quadlets |
| Crc16.CrcIsRemainder | standalone/crc16.c:23-32 | which is a remainder of the message times x^16 modulo x^16+x^12+x^5+1, as a polynomial division |
| Crc16.RemainderUnique | standalone/crc16.c:23-32 | and there is only one such remainder |
| Crc16.CrcLinear | standalone/crc16.c:23-32 | the CRC is linear over exclusive or of messages of equal length |
| Crc16.CrcAppended | standalone/crc16.c:23-32 | a message with its CRC in the top half of one more quadlet has CRC 0 |
| StrToUll.SkipSpaces | standalone/strtoull.c:56-59 | leading spaces are skipped, and nothing else |
| StrToUll.ParseHead | standalone/strtoull.c:56-78 | sign, hexadecimal prefix (only before a hexadecimal digit) and base |
| StrToUll.CutoffTest | standalone/strtoull.c:83-96 | the cutoff test is the test whether one more digit leaves 64 bits |
| StrToUll.TakeDigit | standalone/strtoull.c:96-102 | one digit: the value, or overflow, which stays |
| StrToUll.ScanDigits | standalone/strtoull.c:79-103 | the longest run of digits of the base, its value or overflow |
| StrToUll.StrToUll | standalone/strtoull.c:44-116 | strtoull: value capped at 2^64-1, negated modulo 2^64 only without overflow, 0 without digits or for a bad base, and the end pointer |
| StrToUll.ParsesNumeral | standalone/strtoull.c:44-116 | digit strings: behind 0x or 0X (base 0 or 16) the digits are hexadecimal, with base 0 octal if the first is 0 and decimal otherwise, else of the base asked for; the value is their number, capped at 2^64-1, and 2^64 minus it behind a minus sign |
| StrToUll.ParsesNothing | standalone/strtoull.c:44-116 | spaces, a sign and no digit, or a base that does not exist, give value 0 and end 0 |
| Printf.BuildDecimal | standalone/printf.c:80-83 | the buffer holds the decimal digits in reverse, in at most 64 places |
| Printf.BuildHex | standalone/printf.c:98-101 | the buffer holds the hexadecimal digits in reverse |
| Printf.DumpBuffer | standalone/printf.c:84-89 | zeros up to the width, then the digits in order |
| Printf.Convert | standalone/printf.c:66-102 | one conversion prints its argument |
| Printf.VPrintf | standalone/printf.c:29-110 | the state machine prints every format made of characters and conversions piece by piece, with width the last digit and length the number of l's |
| Printf.ConversionMeans | standalone/printf.c:66-102 | c prints a character, s a string, d and u decimal, p and x hexadecimal, from a 64-bit argument behind two l's |
| Printf.FlagsMean | standalone/printf.c:60-65 | a later digit replaces the width, each l counts, anything else is ignored |
| Printf.TextIsPlain | standalone/printf.c:80-101 | numbers are printed with the characters 0-9 and a-f, without needless leading zeros |
| Printf.ParsePrinted | standalone/printf.c:74-103 | what a number prints as, with any width, parses as that number, in base 10 and 16 |
| Printf.PrintAndParse | standalone/strtoull.c:44-116 | strtoull of what vprintf prints for %Nllu and %Nllx is the number, with the end pointer behind it |
| RemoteBoot.PushModules | boot/morbo.py:74-87 | each file goes to the load address of its turn, which is page aligned after each or set explicitly |
| RemoteBoot.PushedAscend | boot/morbo.py:76-87 | without explicit addresses the modules are in order and do not overlap |
| RemoteBoot.PushedWhere | boot/morbo.py:54-87 | each file starts at 0x1000000 if it comes first, at a right behind the address a, or else at the next page boundary behind the file before |
| RemoteBoot.BuildTable | boot/morbo.py:92-99 | rows and command lines as laid out, or the error that a number does not fit 32 bits |
| RemoteBoot.TableDescribes | boot/morbo.py:96-99 | where the table stands, row i gives the bounds of module i and the address of command line i |
| RemoteBoot.Boot | boot/morbo.py:53-99 | all writes before the boot information is touched, in order |
| Handshake.CutStores | boot/morbo.py:83 | a write has the same effect however it is cut into packets |
| Handshake.AllStand | boot/morbo.py:83-99 | writes to disjoint regions all stand in the end |
| Handshake.UpdateKeepsCount | boot/morbo.py:101-104 | the 28-byte read-modify-write carries 0 for the count, in every packet |
| Handshake.ClearNothing | standalone/morbo.c:142 | the target's store of 0 over 0 changes nothing |
| Handshake.RunInv | boot/morbo.py:76-109 | the invariant of the handshake, in every state of every interleaving |
| Handshake.ReleasedInPlace | standalone/morbo.c:136-146 | the target leaves its loop only when modules, table, command lines, bit 3 of the flags, table address and count are in place, and the other flags and the words from 4 to 20 are those before the run |
| Handshake.CanRelease | standalone/morbo.c:136-146 | and from every initial state with a module some run gets there |

## Left out

- Division by zero in `__qdivrem`, which traps on purpose (standalone/qdivrem.c:141-149).
- Digit bases other than 2^16: the code has no other; the length of the operands is general.
- `__qdivrem`, the block inflaters and the relocator are split into more methods than the source has functions; each is a consecutive piece of the function it names.
- Malformed DEFLATE apart from what the decoder rejects (reserved block type, stored length check): the code checks nothing else, so well-formed streams are a precondition. Codes may be incomplete as long as they are prefix-valid.
- Reading beyond the source: `sourceLen` is never looked at (standalone/tinflate.c:407-457), so the stream has to lie in the source. Source and destination are different buffers.
- Tinflate.Uncompress: takes the stream as a sequence that cannot change, because nothing writes to it.
- Gzip.Uncompress: asks for room for the whole expansion, because nothing limits what is written (standalone/tinfgzip.c:125).
- Relocate.RelocateModules: a module that begins like a gzip member has a header, and if it is inflated, well-formed data whose expansion ends inside memory even where it is longer than promised; what memory holds after a halt is unspecified.
- Relocate.RelocateModules: asks for at least one module (its caller sees to that), a total size below 2^32, and tables and command lines outside the target block; the code checks none of these.
- ElfLoader.StartModule: starts after the call of the relocator and asks for program headers inside the image; the code has no bounds checks. The target and source ranges of segments must miss each other only for the theorem about running the code.
- X86: only the five instruction forms that are generated, with the direction flag clear and flat segments; interrupts and timing are not part of this model.
- MemoryMap.FindMemory: the map entries end below the last page of the 64-bit address space where the greatest start is claimed, and the length is not 0 (the callers never ask for 0 bytes).
- MemoryMap.AllocProtected: the shift count is below 32; standalone/acpi.c:73 passes 0x1000, which C leaves undefined.
- Printf.VPrintf: arguments match their conversions, as `va_arg` demands; `%c` arguments are characters. Output devices are a sequence.
- RemoteBoot.Boot: configuration files, identification of the target (`is_morbo`) and messages on the console are not part of this model.
- Handshake.ReleasedInPlace: safety only. The target's store of 0 (standalone/morbo.c:142) may come after the count of a fast host and then the target waits for ever. The 4-byte write of the count is one packet.
- OHCI and PCI access, serial output, timers, ACPI patching, zlib headers, option parsing: hardware access or glue.
