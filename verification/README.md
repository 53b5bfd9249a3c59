# A verified model of the JudgeDuck kernel's core

JudgeDuck OS runs one user program at a time on bare hardware and reports what it did, how long it took and
what it printed. This project models its four cores in Dafny and proves what they are for:

- **DuckCache** (`Arena`, `CacheState`, `DuckCache`, `CacheHistory`, `Digest`): a content-addressed store in one
  arena of 4 KiB pages. Chains of pages, a free chain through the same pages, three parallel arrays sorted by
  digest, least-recently-used eviction and compaction. The class refines a bounded map from digests to bytes,
  over every history of loads and stores.
- **Paging and program loading** (`PhysicalPages`, `PageWalk`, `PageTables`, `EntryBits`, `Mapping`,
  `UserAccess`; `PageFlags`, `AddressSpace`, `UserMemory`; `ElfLayout`, `ElfLoad`, `ElfRun`, `ElfImage`): the table
  allocator, the construction of the
  4-level tables and what they translate for every address, the recursive mapping and the flag changes made through
  it, the lazy clearing of memory between programs, and the loader's wrapping checks. A program is any strategy from
  the bytes it has read so far to its next access. The main result is isolation: whatever ran before, a program
  makes the same accesses and reports a function of its own job; what that function is follows from the bytes of
  its file and its inputs, and the tables in memory let user code reach the program's pages and nothing else.
- **ducknet** (`TimeArith`, `Checksum`, `Wire`, `ByteSplice`, `NetBuffer`, `Pending`, `SlotTable`, `Ipv4`):
  64-bit scaling without wide products, the Internet checksum, headers written, swapped and read in place, and
  the bitmap queue of packets waiting for address resolution.
- **Protocols on top** (`JudgeState`, `Judger`, `JudgerCaches`; `Rings`, `Link`): requests, retransmission and the
  buffer frame of the judger, its sessions with two real caches, the e1000 descriptor rings between driver and
  card, and the way of a datagram through stack, ring and wire to a receiver.

Machine words are `u8` to `u64` (module `Words`) with every wrap-around written out, or bit vectors where the
source works on bits. Objects of the source are classes over real arrays; each method is proved against a
function or state machine on values, and the lemmas are about those. Inputs from outside (clock values, address
lookups, what a user program does, performance counters, what the card does) are arguments.

Where the code does not do what one would expect of it, the model keeps the code and a lemma says exactly when
it does:

- `mul_div` is `a * b / d` modulo 2^64 exactly when the product of the two remainders fits 64 bits
  (`TimeArith.MulDivExact`). All conversions into ticks are therefore exact (`TimeArith.ToTicksExact`). Back from
  ticks a clock is read exactly at all times if and only if the product of the largest remainders fits; that
  covers 18 GHz for nanoseconds, and a clock of 2^40 + 1 Hz is misread (`TimeArith.FromTicksExact`,
  `TimeArith.ClockExact`, `TimeArith.FromTicksInexact`).
- The loader's test on a segment's file range lets through a range whose end wraps around past 2^64, and nothing
  else that is wrong (`ElfLayout.SegmentTest`, `ElfLayout.SegmentMissed`). Such a segment ends so high that the
  checks after it refuse the file, so all checks together are exact (`ElfLayout.Validate`).
- `ducknet_udp_send` accepts payloads of up to 1472 bytes, but the card's driver refuses every frame of more than
  1500 bytes, so payloads of more than 1458 bytes never reach the wire (`Link.LongRefused`, `Link.Deliver`).
- `load_cache` and `store_cache` do not check their range in the buffer. The operations stay inside it unless a load
  finds its object, or a store has to keep its bytes, with a range that leaves it (`JudgerCaches.InsideExact`,
  `JudgerCaches.RunSession`).
- `init_page_table_break` looks only at as many huge pages as are registered, counted from address 0, so it finds
  no break when the page that completes the reserve lies higher (`PhysicalPages.Pages.InitBreak`,
  `PhysicalPages.BreakMissed`).
- After the buffer was changed, a request is judged anew unless its sequence number is 2^64-1, the mark of the
  cleared result (`JudgeState.MutationForcesRerun`).
- The judger's overflow test on the memory limit catches an overflowing product exactly when the limit, split into
  q multiples of 2^54 KiB and r KiB, has 1023 r < q 2^54 (`JudgeState.OverflowTest`, `JudgeState.OverflowMissed`).
  What it misses does no harm to 64-bit programs: the loader refuses such a limit, so every request judged without
  an error ran under exactly the limit it asked for (`JudgeState.LimitNeverWrong`).
- A reply is independent of the last result exactly when the request was run to its end; any other reply to a new
  request carries the last result's fields with the new error (`JudgeState.FreshExactly`), so that a request refused
  for its time limit returns the counters and sizes of the run before it (`JudgeState.StaleReply`).

Assumptions: time stamps given to the cache are not 0 (the source's mark of a removed entry), object lengths
given to a cache alone do not overflow the rounding to pages (in the judger's sessions they may),
`n_max_objects` is at least 1; the card moves its heads only up to the published tails and delivers no more than a
buffer holds; accessed and dirty bits are exact.

## Model

| member | source | states |
|---|---|---|
| DuckCache.LinkPages | kern/duck_cache.cpp:70-88 | linking the arena page by page gives one null-terminated free chain through all pages, a coherent empty cache |
| DuckCache.ArenaFitsAllocation | kern/duck_cache.cpp:44-88 | although the last page may lie behind the requested size, the arena ends inside the allocation, which comes in huge pages |
| DuckCache.TablesFit | kern/duck_cache.cpp:56-67 | the four index arrays lie page-aligned one behind the other in front of the arena, each with room for all objects, and waste less than four pages |
| DuckCache.ArenaReaches | kern/duck_cache.cpp:68-88 | the arena has exactly the pages it takes to reach the end of the cache, at least two; there is none exactly where init gives up |
| DuckCache.Cache.constructor | kern/duck_cache.cpp:44-96 | a new cache stands for the empty map and has all its pages free |
| Digest.CmpDigest | kern/duck_cache.cpp:98-105 | the comparison is the lexicographic order on four words: negative, zero and positive exactly for less, equal, greater |
| Digest.DigestFromHex | kern/duck_cache.cpp:17-42 | accepts a text of any length exactly when its first 64 characters are hex digits; nibble i of word w is then the place of character 16 w + i among the sixteen digits, capitals counting as small letters |
| Digest.HexValueIs | kern/duck_cache.cpp:26-34 | a character has a value exactly if it is one of the 22 digits, and its value is its place in the list |
| Digest.DigestOfHexInjective | kern/duck_cache.cpp:17-42 | two texts give the same digest exactly when they are equal with the capital digits replaced by small ones |
| DuckCache.LowerBound | kern/duck_cache.cpp:114 | binary search gives the first index not below the value |
| DuckCache.UpperBound | kern/duck_cache.cpp:115 | binary search gives the first index above the value |
| DuckCache.FindSlot | kern/duck_cache.cpp:107-128 | two binary searches on the hash and the bucket scan return exactly the lower bound of the digest in the whole index, and whether it is there |
| DuckCache.Cache.Find | kern/duck_cache.cpp:107-128 | found if and only if the map holds the digest; the index splits the sorted digests |
| DuckCache.CopyOut | kern/duck_cache.cpp:144-150 | walking a chain copies exactly the bytes stored on it, cut off at the length, to the destination and nowhere else |
| DuckCache.CopyIn | kern/duck_cache.cpp:255-268 | writing along the free chain stores the bytes page by page, changes nothing outside the free pages, and ends at the rest of the free chain, also for length 0 and exact multiples of a page |
| DuckCache.Cache.Load | kern/duck_cache.cpp:130-153 | succeeds if and only if the map holds an object of exactly that length, copies its bytes to the destination, touches only its time stamp |
| DuckCache.Cache.ReleaseObject | kern/duck_cache.cpp:192-208 | an evicted object's whole chain goes on top of the free chain; all other chains and bytes stay |
| DuckCache.SortByTime | kern/duck_cache.cpp:181-187 | the ids become a permutation in least-recently-used order |
| DuckCache.Cache.Evict | kern/duck_cache.cpp:180-238 | removes the shortest least-recently-used prefix that meets the page need and the slot need, keeps every other object, and ends with enough room |
| DuckCache.Compact | kern/duck_cache.cpp:221-232 | compacting in place leaves exactly the live entries of the three arrays, in order |
| DuckCache.Cache.Defrag | kern/duck_cache.cpp:220-235 | after compaction the cache is coherent again for the same map |
| DuckCache.Cache.InsertEntry | kern/duck_cache.cpp:240-253 | the three arrays get the entry at the index, everything behind it moves up by one |
| DuckCache.Cache.MakeRoom | kern/duck_cache.cpp:173-238 | afterwards there is a free slot and enough free pages, and the digest is still absent, so the assertion never fires |
| DuckCache.Cache.Store | kern/duck_cache.cpp:161-271 | succeeds if and only if the object is present or fits the arena; a new object is added after exactly one minimal eviction, page counts balance |
| Arena.NPagesCovers | kern/duck_cache.cpp:168-195 | the number of pages is the least positive number that holds the bytes |
| Arena.ReleaseWellFormed | kern/duck_cache.cpp:202-208 | relinking an evicted chain onto the free chain keeps all chains disjoint, null-terminated and covering the arena |
| Arena.AcquireWellFormed | kern/duck_cache.cpp:250-268 | taking a prefix of the free chain for an object keeps the same |
| Arena.AllFree | kern/duck_cache.cpp:189-235 | with no object left, every page is on the free chain |
| Arena.Conservation | kern/duck_cache.cpp:76-88 | free pages and the pages of all chains add up to the arena, in every well-formed arena |
| CacheState.EvictedCoherent | kern/duck_cache.cpp:191-208 | one eviction step keeps the cache coherent for the map without that object |
| CacheState.DefraggedCoherent | kern/duck_cache.cpp:220-232 | dropping removed entries keeps the index strictly sorted with matching hashes and metadata |
| CacheState.StoredCoherent | kern/duck_cache.cpp:240-268 | insertion at the lower bound keeps it so, and no survivor's bytes change |
| CacheState.InsertIndex | kern/duck_cache.cpp:240-247 | inserting at the lower bound keeps the digests strictly sorted with obj_hash equal to their first word |
| CacheHistory.Replay | kern/duck_cache.cpp:107-271 | every sequence of loads and stores on a fresh cache is a history of the bounded map |
| CacheHistory.Provenance | kern/duck_cache.cpp:130-271 | whatever a map entry holds was given by one earlier store and never evicted or overwritten since |
| CacheHistory.LoadReturnsStored | kern/duck_cache.cpp:130-271 | a load that hits returns exactly the bytes of that store |
| CacheHistory.CacheConservation | kern/duck_cache.cpp:76-88 | free pages and the pages of the stored objects, computed from their lengths, add up to the arena in every coherent state |
| CacheHistory.Capacity | kern/duck_cache.cpp:161-271 | in every history the object limit and the page balance hold after every operation |
| CacheHistory.EvictionUnique | kern/duck_cache.cpp:180-218 | with distinct time stamps the victims of a store are determined |
| CacheHistory.OldestGoes | kern/duck_cache.cpp:173-218 | an object goes only in a store of something new for which pages or slots do not suffice, and none that stays was used before one that goes |
| CacheHistory.NoPressureNoLoss | kern/duck_cache.cpp:161-271 | at every point of every history the cache holds everything ever stored, as first stored, if and only if that fits its pages and slots; loads and repeated stores count for nothing |
| PhysicalPages.Pages.Register | lib/memory.cpp:221-234 | exactly the named huge page becomes registered, unless it lies in the kernel's 4 MiB; the counter is the number of registered pages |
| PhysicalPages.Pages.InitBreak | lib/memory.cpp:115-136 | the break is behind the huge page that completes the reserve, found exactly when that page's number is below the number of registered pages |
| PhysicalPages.BreakMissed | lib/memory.cpp:115-136 | 100 huge pages at 2 GiB: enough memory, and no break is found |
| PhysicalPages.Pages.Alloc | lib/memory.cpp:49-59 | inside the reserve the skip loop ends, the pages handed out are the 4 KiB pages of the registered huge pages in order, and the assertion holds |
| PhysicalPages.TablesApart | lib/memory.cpp:49-59 | different allocations share no word |
| PhysicalPages.ReserveSuffices | lib/memory.cpp:115-132 | the reserve is enough for all tables the construction makes, for every number and pattern of registered pages |
| PhysicalPages.ReserveIs | lib/memory.cpp:118-124 | the reserve is the least number of huge pages for n + 6 tables and one for each started 512 of n |
| PageWalk.RecursiveMapping | lib/memory.cpp:96-98 | with the top table in its own slot 511, translating the address of get_P1 yields the level-1 entry reached by the four indices |
| PageWalk.EntryDecides | lib/memory.cpp:79-98 | and that entry is the one that decides where the address itself goes |
| PageWalk.ShiftedIndices | lib/memory.cpp:79-98 | the four indices of that address are 511 and the upper three indices of the original, its offset the level-1 index |
| PageWalk.GetP1Bits | lib/memory.cpp:96-98 | the bit expression equals the arithmetic one, for every 64-bit address |
| PageTables.Builder.Create | lib/memory.cpp:68-77 | returns the table an entry points to, allocating and linking a zeroed one exactly when there is none |
| PageTables.Builder.BuildKernel | lib/memory.cpp:138-172 | the recursive slot, the remapping and the kernel mapping are in memory as described by Built with no user page |
| PageTables.Builder.MapUser | lib/memory.cpp:179-199 | one registered huge page becomes the next one of the user range; all earlier mappings stay |
| PageTables.Builder.Build | lib/memory.cpp:174-202 | every registered huge page from the break on is mapped, in order, and vaddr_break is their end |
| PageTables.StoreHolds | lib/memory.cpp:68-70 | writing one entry changes that entry of that table and no other table |
| Mapping.InitPageTables | lib/memory.cpp:204-210 | if a break is found, the whole construction ends with all tables in memory below the break, ready for changes of flags |
| Mapping.KernelIdentity | lib/memory.cpp:154-169 | addresses below 4 MiB translate to themselves |
| Mapping.UserMapped | lib/memory.cpp:179-199 | each address of the user range translates to its offset in the k-th registered huge page from the break on |
| Mapping.NothingBeyond | lib/memory.cpp:174-202 | from vaddr_break to 512 GiB every address faults |
| Mapping.NothingElse | lib/memory.cpp:138-172 | and so does everything between 512 GiB and the remapping |
| Mapping.Remapped | lib/memory.cpp:149-153 | the remapping reaches every physical address below 512 GiB at its fixed offset |
| Mapping.UserApart | lib/memory.cpp:138-202 | translation is injective below 512 GiB, and no user address reaches the kernel's memory or a page table |
| Mapping.UserEntries | lib/memory.cpp:96-98 | through get_P1 every level-1 entry of the user range is reached and is the one the construction wrote |
| Mapping.FreshEntries | lib/memory.cpp:190-194 | the entry that get_P1 reaches after the construction is, bit by bit, a kernel page marked as written: what UserMemory starts from |
| Mapping.FlagsKeepMapping | lib/memory.cpp:244-333 | after any number of flag changes, writing the result of one more through get_P1 of a user address leaves the translation of every address as the construction made it, and changes that page's entry alone |
| EntryBits.OrIsEntry | lib/memory.cpp:138-199 | the or of a page-aligned address and flags, on bits, is their sum as a number in memory |
| EntryBits.ClearFlagsAgree | lib/memory.cpp:36-41 | clearing flags on numbers, as the construction does, is clearing them on bits |
| EntryBits.OpKeepsTarget | lib/memory.cpp:244-333 | no flag operation makes a present entry absent or moves it to another frame, as the page walk reads it |
| EntryBits.AttrByBits | lib/memory.cpp:22-34 | present, writable, user, dirty, marked and not executable are bits 0, 1, 2, 6, 9 and 63 |
| UserAccess.KernelWords | lib/memory.cpp:149-169 | the last entries of the remapping and of the kernel's 4 MiB, word by word: the address plus 0xe3 and 0x63 |
| UserAccess.UserReach | lib/memory.cpp:138-202 | after any flag changes, user code gets through all entries on the way to an address if and only if it is in the user range and its page's entry lets the access through; so nothing of the kernel's 4 MiB, the recursive slot or the remapping is reached, whatever the access |
| UserAccess.WalkIsAllowed | lib/memory.cpp:138-333 | while a program runs, the walk through the tables in memory lets an access through if and only if the program's image allows it |
| PageFlags.ClearPageFlagsBits | lib/memory.cpp:36-41 | bits 9 to 62, with the frame and the DUCK_WRITTEN mark, survive; all other bits go |
| PageFlags.OpMeaning | lib/memory.cpp:244-333 | each bit formula on an entry is the named change of its permissions, dirty bit and mark, and keeps the frame |
| AddressSpace.LazyClearing | lib/memory.cpp:389-402 | if every page with a nonzero byte is marked, clearing only marked pages zeroes the whole range |
| AddressSpace.LoadedIdle | lib/memory.cpp:364-402 | a loaded memory has every page with a nonzero byte marked again |
| UserMemory.Memory.UpdateFlags | lib/memory.cpp:244-333 | a page loop changes exactly the entries of its range |
| UserMemory.Memory.Store | lib/elf.cpp:206-232 | a kernel write changes its bytes and marks its pages accessed and dirty |
| UserMemory.Memory.ClearDuckWrittenPages | lib/memory.cpp:389-402 | marked pages of the range become zero and lose the mark, others stay |
| UserMemory.Memory.CountDirtyPages | lib/memory.cpp:336-348 | the number of dirty entries in the range |
| ElfLayout.RoundUp64Exact | inc/utils.hpp:12-15 | the wrapping round_up followed by its overflow test is the true one |
| ElfLayout.AllocateExact | lib/elf.cpp:127-133 | the two wrapping tests of one region allocation pass if and only if it fits 64 bits in true integers |
| ElfLayout.SegmentPassesExact | lib/elf.cpp:77-94 | every segment in order passes the wrapping checks, and of those that end within the largest memory no other does |
| ElfLayout.SegmentTest | lib/elf.cpp:77-94 | the wrapping checks pass exactly for segments in order and for those whose file range wraps around; the latter end beyond any memory |
| ElfLayout.SegmentMissed | lib/elf.cpp:77-79 | 2^64-1 bytes from offset 1 of a file of 120 bytes pass, and the file is refused by the later checks |
| ElfLayout.CheckSegments | lib/elf.cpp:70-99 | the loop accepts exactly the files all of whose loadable segments pass, and computes the least and greatest address |
| ElfLayout.PlanRegions | lib/elf.cpp:123-183 | the seven regions are planned exactly when they fit 64 bits, and as the layout in true integers |
| ElfLayout.Validate | lib/elf.cpp:46-184 | all checks together pass if and only if the file is acceptable in true integers |
| ElfLayout.AcceptedLayout | lib/elf.cpp:66-184 | then every segment lies in the file and below the stack page, and all regions lie below vaddr_break |
| ElfLayout.LayoutPlaced | lib/elf.cpp:123-184 | the regions are page-aligned, consecutive, disjoint and large enough |
| ElfLoad.CopySegments | lib/elf.cpp:198-214 | copying the segments in order leaves the overlay of their file contents |
| ElfLoad.LoadRegions | lib/elf.cpp:216-247 | inputs, file image and random bytes are in place, read-only and marked |
| ElfLoad.PushStack | lib/elf.cpp:267-319 | duckinfo and the words below it are on the last page before the limit, which is marked |
| ElfLoad.GrantSegments | lib/elf.cpp:321-340 | page permissions are those of the segments in order |
| ElfLoad.LoadElf64 | lib/elf.cpp:42-359 | loads if and only if acceptable; then every byte and permission of the region, the entry address and the stack pointer are a function of the job alone, and a refused file changes nothing |
| ElfLoad.LastSegmentDecides | lib/elf.cpp:321-340 | a page's write and execute permissions are those of the last segment that covers it |
| ElfLoad.SpecialPerms | lib/elf.cpp:216-247 | stdin, IB, image and random pages are read-only, output pages writable, none of them executable |
| ElfImage.HeaderIs | lib/elf.cpp:46-68 | which bytes the file header of an acceptable file has, and that its table of program headers is placed and sized below the file's length |
| ElfImage.PermsFromFile | lib/elf.cpp:321-340 | from the file's bytes alone: if header i is the last whose segment touches a page, the page is executable exactly if bit 0, and writable exactly if bit 1, of byte 4 of that header is set |
| ElfImage.BytesFromFile | lib/elf.cpp:198-214 | from the file's bytes alone: byte k of segment i in memory is the byte at its file offset plus k, if no later segment's file part lies over it |
| ElfImage.ZeroElsewhere | lib/elf.cpp:187-214 | every other byte below the stack page is zero |
| ElfImage.InputsIn | lib/elf.cpp:216-284 | where the fields of duckinfo point lie stdin, IB, OB as given or cleared, and zeroed output buffers of the sizes the fields say |
| ElfImage.FileImageIn | lib/elf.cpp:232-247 | the first page of the file and the sixteen fixed bytes for AT_RANDOM are in place |
| ElfImage.StackIs | lib/elf.cpp:286-319 | the 34 words from rsp on: argument count, ends of arguments and environment, and the auxiliary vector, each value behind its tag |
| ElfRun.AccessMemory | lib/memory.cpp:244-333 | an access of the program is let through exactly when its image allows it, reads the byte of its image, and what it changes is recorded in the entry |
| ElfRun.RunEnds | lib/elf.cpp:722 | after the run, transferring dirty bits to marks makes memory fit for the next load |
| ElfRun.Run | lib/elf.cpp:688-753 | the accesses made, the reported pages and the outputs are a function of the job and the program's strategy, outputs cut off at their limits |
| ElfImage.AccessesAre | lib/elf.cpp:688-722 | each access of a run is what the program does after the answers to those before, where an answer is the byte last written there or the first one; and the run ends early only at an access its pages forbid |
| ElfImage.EndBytes | lib/elf.cpp:688-722 | after the run every byte is the one the program wrote there last, or still the first one |
| ElfImage.OutputsFrom | lib/elf.cpp:732-753 | of the buffers duckinfo pointed to, as many bytes are reported as the program left in the size fields, at most the limits; of OB everything |
| ElfImage.MemoryIsWritten | lib/elf.cpp:722-731 | the reported memory is 4 KiB for every page the program has written |
| ElfRun.Serve | lib/elf.cpp:187-247 | isolation: over every sequence of jobs, each program, acting on every byte it reads, makes the accesses and reports what it would on its own |
| TimeArith.MulDivExact | ducknet/lib/utils.cpp:28-34 | mul_div is the true quotient modulo 2^64 if and only if the product of the remainders fits 64 bits |
| TimeArith.MulDivSmall | ducknet/lib/utils.cpp:28-34 | which it does for every divisor up to 2^32 |
| TimeArith.ToTicksExact | ducknet/lib/utils.cpp:36-46 | adding nanoseconds, microseconds or milliseconds scales exactly, for every clock and time |
| TimeArith.FromTicksExact | ducknet/lib/utils.cpp:52-62 | reading a time is exact if and only if the product of the two remainders fits 64 bits |
| TimeArith.ClockExact | ducknet/lib/utils.cpp:52-62 | a clock is read exactly at all times if and only if the product of the largest remainders fits 64 bits, which covers every rate whose product with the units of a second fits |
| TimeArith.FromTicksInexact | ducknet/lib/utils.cpp:52-54 | on a clock of 2^40+1 Hz, 2^40 ticks read as 10144255 ns instead of 999999999 |
| TimeArith.TimeRoundTrip | ducknet/lib/utils.cpp:36-62 | for every clock whose rate times the units a second fits 64 bits: to ticks and back loses at most one unit with at least one tick a unit, and nothing exactly when the ticks come out even |
| Checksum.ChecksumSum | ducknet/lib/utils.cpp:68-82 | the 32-bit sum of the words, which cannot wrap below 2^17 bytes; an odd last byte counts for itself |
| Checksum.Checksum | ducknet/lib/utils.cpp:84-92 | the fold loop ends in the complement of the one's complement sum |
| Checksum.FoldStep | ducknet/lib/utils.cpp:87-89 | one fold keeps the residue mod 65535, does not make a sum zero, and gets smaller |
| Checksum.ChecksumVerifies | ducknet/lib/utils.cpp:84-92 | stored in a zeroed field at an even offset, the checksum makes region and start sum fold to all ones, for odd lengths too |
| Checksum.WordChangeDetected | ducknet/lib/utils.cpp:84-92 | exactly which changes of one word a verifying region hides |
| NetBuffer.FillIpHeader | ducknet/lib/ipv4.cpp:69-83 | fields assigned in host order, swapped in place and checksummed are the header in network order |
| NetBuffer.IpHton | ducknet/lib/ipv4.cpp:45-54 | swaps the version nibbles and the five fields in place and leaves the rest of the buffer |
| NetBuffer.BuildPacket | ducknet/lib/ipv4.cpp:56-88 | refuses bad lengths without a change; otherwise writes the frame behind the destination address and nothing else |
| NetBuffer.BuildSegment | ducknet/lib/udp.cpp:26-51 | the datagram with its checksum over pseudo header, header and payload |
| NetBuffer.EtherHandle | ducknet/lib/ether.cpp:48-68 | swapping and reading in place gives what the bytes on the wire say; a frame the hook refuses is turned away |
| NetBuffer.IpHandle | ducknet/lib/ipv4.cpp:165-190 | version, header length, total length, fragment flags and destination are checked as on the wire; a packet the hook refuses is turned away |
| NetBuffer.UdpHandle | ducknet/lib/udp.cpp:60-69 | source and destination port, length and payload as on the wire; too short is refused |
| NetBuffer.SameMac | ducknet/lib/ether.cpp:38-42 | comparing 32 and 16 bits compares the six bytes |
| NetBuffer.RoundTrip | ducknet/lib/udp.cpp:19-69 | built in one host's buffers and received in another's, with any padding and any hooks that let it pass, the frame is accepted and delivers the sender's address, both ports and exactly the payload |
| Wire.IpChecksumVerifies | ducknet/lib/ipv4.cpp:80-83 | the outgoing header adds up to all ones |
| Wire.UdpChecksumVerifies | ducknet/lib/udp.cpp:33-51 | so do pseudo header and datagram |
| Wire.FramePlaces | ducknet/lib/ipv4.cpp:56-88 | the frame of a datagram: destination and sender address, type, IPv4 header and datagram, each at its offset |
| Wire.HeaderBytes | ducknet/lib/ipv4.cpp:56-88 | the IPv4 header byte by byte: version and length, identification, flags, time to live, protocol and both addresses |
| Wire.SegmentBytes | ducknet/lib/udp.cpp:26-51 | the datagram byte by byte: both ports, its length and the payload |
| Wire.FrameMeaning | ducknet/lib/ether.cpp:48-68 | byte by byte which frames go to ARP, which to IPv4, and that all others are turned away |
| Wire.PacketMeaning | ducknet/lib/ipv4.cpp:165-190 | byte by byte which packets go to ICMP with what length, which to UDP with what, and that all others are turned away: other versions, options, fragments, cut-off packets, other addresses |
| Pending.EachPacketOnce | ducknet/lib/ipv4.cpp:107-163 | in every run an accepted packet waits in exactly one slot or left exactly once: handed over unchanged behind the destination address, or dropped after its expiry |
| Pending.SlotFate | ducknet/lib/ipv4.cpp:136-163 | a slot in use changes exactly in an ungated sweep when its packet has expired or its address is known; nothing else reuses it |
| Pending.StepKeeps | ducknet/lib/ipv4.cpp:107-163 | every send and idle step keeps tickets, slots and log in balance |
| Pending.FrameSource | ducknet/lib/ipv4.cpp:107-163 | every frame of a run is exactly what one accepted send put together, behind the address found for its destination at the send or, if it was unknown then, in a later sweep |
| Pending.KnownSent | ducknet/lib/ipv4.cpp:107-117 | every send of a fitting length to a known address has its frame, behind that address, among the frames of the run |
| Pending.SendKnown | ducknet/lib/ipv4.cpp:107-117 | such a send adds one frame to the address found, with the sender's address, the protocol and the payload in place, and queues nothing |
| Pending.SendUnknown | ducknet/lib/ipv4.cpp:118-134 | a send to an unknown address asks for it, and with room and a fitting length queues one packet for that destination in the lowest free slot; otherwise nothing else changes |
| Pending.SendRefused | ducknet/lib/ipv4.cpp:110-113 | a send to a known address with a length that does not fit changes nothing |
| Pending.IdleGate | ducknet/lib/ipv4.cpp:136-163 | a sweep takes place exactly on the 1024th call or after more than a ten-thousandth of a second, and frees exactly the slots whose packet has expired or whose address is known |
| Pending.ExpiryIsFiveSeconds | ducknet/lib/ipv4.cpp:131 | without wrap-around of the clock a packet expires five seconds after it was queued |
| SlotTable.LowerBitIndex | ducknet/lib/ipv4.cpp:90-96 | the unbounded loop ends on every nonzero word, at its lowest set bit |
| SlotTable.Stored | ducknet/lib/ipv4.cpp:126-133 | filling a slot and clearing its bit keeps the bitmap the set of free slots and every other packet's bytes |
| SlotTable.Released | ducknet/lib/ipv4.cpp:146-157 | so does setting the bit and writing into the released packet |
| Ipv4.Stack.constructor | ducknet/lib/ipv4.cpp:30-43 | all slots free |
| Ipv4.Stack.FindFree | ducknet/lib/ipv4.cpp:98-105 | the lowest free slot, or -1 when there is none |
| Ipv4.Stack.Send | ducknet/lib/ipv4.cpp:107-134 | sends at once to the address found, or asks for the address and queues or refuses as the state machine says, with its result |
| Ipv4.SendResultIs | ducknet/lib/ipv4.cpp:107-134 | the caller is told what the link layer says of a frame sent at once, 0 for a packet queued, and -1 for a bad length or a full table |
| Ipv4.Stack.SettleSlot | ducknet/lib/ipv4.cpp:144-160 | one slot of the sweep: dropped, handed over, or kept and its address asked for again |
| Ipv4.Stack.Idle | ducknet/lib/ipv4.cpp:136-163 | the gate of 1024 calls or 0.1 ms, and the sweep over all slots with its frames and address queries |
| Ipv4.Stack.UdpSend | ducknet/lib/udp.cpp:19-54 | refuses bad lengths, otherwise sends the datagram with its checksum |
| Ipv4.Replay | ducknet/lib/ipv4.cpp:30-163 | over every run the IPv4 frames given to the link layer and the addresses asked for are those of the state machine |
| Ipv4.Exchange | ducknet/lib/ipv4.cpp:30-190 | every frame a sender gives to its link layer in any run goes to the address found for one of the sent datagrams at the send or a later tick, and received with any padding delivers its sender, ports and payload to the hosts it is for and is turned away by others; and every datagram to a known address has its frame |
| Judger.IsValidBuffer | kern/judger.cpp:258-260 | the range lies in the buffer, in true integers |
| Judger.CheckOverlap | kern/judger.cpp:262-264 | for ranges in the buffer the wrapping test is the true one |
| Judger.CheckBuffers | kern/judger.cpp:266-274 | accepts exactly pairwise non-overlapping ranges inside the buffer |
| Judger.Service.constructor | kern/judger.cpp:53-73 | a zeroed buffer and a cleared result, no request judged |
| Judger.Service.ClearJudgeResult | kern/judger.cpp:53-64 | clears the last result once |
| Judger.Service.ClearBuffer | kern/judger.cpp:142-151 | zeroes the range and clears the result, or changes nothing |
| Judger.Service.ReadBuffer | kern/judger.cpp:153-160 | the bytes of the range if it lies in the buffer |
| Judger.Service.WriteBuffer | kern/judger.cpp:162-170 | stores the bytes and clears the result, or changes nothing |
| Judger.Service.CopyBuffer | kern/judger.cpp:172-184 | copies between disjoint ranges; the wrapping overlap test accepts nothing it should not |
| Judger.Service.CompareBuffer | kern/judger.cpp:186-196 | tells whether two ranges hold the same bytes |
| Judger.Service.LoadedFromCache | kern/judger.cpp:211-216 | a hit leaves its bytes in the buffer and clears the last result |
| Judger.Service.LoadAndRun | lib/elf.cpp:667-753 | load and run of the image in the buffer, on real memory, as a function of request, buffer and behaviour |
| Judger.Service.Judge | kern/judger.cpp:276-375 | one request does what the state machine says; a repeat gets the last result; after a run the two verdicts and the counters are those of Verdict |
| JudgeState.Verdict | kern/judger.cpp:325-371 | the answer to a new request that ran to its end: too late for a time over the limit or trap 32, a runtime error for any other end than trap 255, the limit reported for a late run, all else as measured, and the statistics |
| JudgeState.ErrorIs | kern/judger.cpp:287-323 | exactly when a new request is answered with which error: the limit's product, ranges inside the buffer and pairwise apart, a time limit of 1 to 500000000000 ns, and an image that loads |
| JudgeState.OverlapIs | kern/judger.cpp:262-264 | two ranges overlap if they share a byte, or one is empty and lies strictly inside the other |
| JudgeState.JobIs | kern/judger.cpp:302-314 | which ranges of the buffer a program is given as image, stdin, IB and OB, and its limits |
| JudgerCaches.CachedService.constructor | kern/judger.cpp:115-125 | two empty caches of the sizes given, beside the service |
| JudgerCaches.CachedService.LoadCache | kern/judger.cpp:200-219 | a valid digest in a known cache with an object of exactly that length: its bytes go to the buffer, the last result is cleared, the object is stamped; otherwise nothing changes |
| JudgerCaches.CachedService.StoreCache | kern/judger.cpp:222-235 | a valid digest and a known cache: one store of the range's bytes into that cache and nothing else; otherwise nothing changes |
| JudgerCaches.InsideExact | kern/judger.cpp:207-210 | with addresses that wrap around, every byte of a range lies in the buffer exactly when the range is empty or ends in the buffer |
| JudgerCaches.NPages64Exact | kern/duck_cache.cpp:167-171 | the page count of a store may wrap around for lengths near 2^64; a store that stays inside the buffer goes by the true one |
| JudgerCaches.RunSession | kern/judger.cpp:138-375 | every session of buffer operations, requests, loads and stores on real memory goes through the state machine's steps, until an operation would leave the buffer |
| JudgerCaches.SessionRuns | kern/judger.cpp:138-375 | what the buffer and the verdicts go through in such a session is a history of JudgeState, so its theorems hold there |
| JudgerCaches.StoreThenLoad | kern/judger.cpp:200-235 | after a store that took its bytes from the buffer, as long as the object is not evicted, a load succeeds exactly for the stored length and puts the same bytes back, whatever happens in between |
| JudgerCaches.LoadRestores | kern/judger.cpp:200-235 | every load that succeeds puts back the bytes that one earlier store into the same cache read from the buffer |
| JudgerCaches.OtherCache | kern/judger.cpp:200-235 | an operation on one cache leaves the other alone, any other name leaves both, and a store leaves buffer and verdict |
| JudgeState.JudgeFrame | kern/judger.cpp:355-363 | whatever the program does, only bytes of the requested stdout, stderr and OB ranges change, stdout and stderr only as far as output is reported |
| JudgeState.CopyOutFrame | kern/judger.cpp:355-363 | byte by byte what the three ranges and everything else hold afterwards |
| JudgeState.VerdictIsFresh | kern/judger.cpp:276-375 | a finished run's verdict and outputs do not depend on earlier requests nor on the rest of the buffer |
| JudgeState.RepeatsChangeNothing | kern/judger.cpp:276-285 | any number of repeats and failed operations after an answered request changes nothing and gives the same reply |
| JudgeState.MutationForcesRerun | kern/judger.cpp:53-64 | after a successful change of the buffer a request is judged anew if and only if its number is not 2^64-1 |
| JudgeState.OverflowMissed | kern/judger.cpp:288-290 | a limit whose product overflows and passes the test; the request is refused all the same, by the loader |
| JudgeState.LimitNeverWrong | kern/judger.cpp:288-330 | a request for a 64-bit image judged without an error was judged under exactly the limit it asked for |
| JudgeState.FreshExactly | kern/judger.cpp:276-375 | the reply to a new request is independent of the last result if and only if the request was run to its end; otherwise it is the last result with the new error |
| JudgeState.StaleReply | kern/judger.cpp:248-256 | after any finished run, an empty request with time limit 0 is answered with that run's counters and sizes |
| JudgeState.OverflowTest | kern/judger.cpp:288-290 | exactly which limits the test refuses, which overflow, and where the two differ |
| Rings.TxRing.Send | lib/e1000.cpp:248-281 | refuses only bad sizes or a really full ring despite the stale head; otherwise appends the packet, and touches no slot the card may still read |
| Rings.TxRing.Flush | lib/e1000.cpp:283-290 | publishes everything taken so far |
| Rings.TxRing.CardTransmits | lib/e1000.cpp:248-290 | the card sends the packets in order, each as it was taken |
| Rings.RxRing.Receive | lib/e1000.cpp:292-314 | returns the next delivered packet with its length, or -1 if there is none |
| Rings.RxRing.CardDelivers | lib/e1000.cpp:292-314 | the card fills only slots the driver has read and given back |
| Rings.TxSchedule | lib/e1000.cpp:248-290 | under every interleaving a send is refused exactly for its size or a really full ring, the wire carries the first so many accepted packets, and after a flush and enough card steps all of them |
| Rings.RxSchedule | lib/e1000.cpp:292-314 | under every interleaving the card finds no room exactly when all slots but one are filled or not given back, the driver hands out the first so many delivered packets, and finally all of them |
| Link.LongRefused | lib/e1000.cpp:248-259 | the card refuses the frame of a datagram exactly when its payload is longer than 1458 bytes or the ring is full |
| Link.Deliver | ducknet/lib/phy.cpp:25-33 | from datagrams through stack, ring and wire to a receiver, under every interleaving with the card: every datagram to a known address has its frame, exactly the refused frames are missing on the wire, and every frame on it arrives at the address found for a datagram that was sent, of at most 1458 bytes |

## Left out

- load_elf32 and the run of 32-bit images: their result is an argument of a request; its image page is placed outside the cleared region by the source.
- Pages mapped with other flags (`map_region_cache_disabled`), `allocate_virtual_memory` and its callers: the model starts from the vaddr_break that is left.
- The ARP table, its ordering and the frames it sends for the queries it is asked: the lookup is an argument of each send and sweep.
- ICMP replies, the phy layer's own flush timing, and what the link layer does with a frame.
- Packet hooks: represented by what they return; a hook that changes the packet is not modelled.
- `ducknet_parse_ipv4`, text commands, logging, statistics output, device initialisation, interrupts and assembly.
- ElfRun.Run: counters, times and memory_kb_accessed are taken from the processor as arguments; only the dirty page count is modelled.
- ElfRun.Serve: a program is stopped after a given number of accesses, standing for the timer.
- JudgeState.LimitNeverWrong: says nothing about 32-bit images, whose loader is not modelled.
- Judger.Service.constructor: the choice of the buffer's size is not modelled; the buffer is an argument.
- Judger.Service.LoadAndRun: the result of a 32-bit image is an argument.
- Judger.Service.Judge: the result of a 32-bit image and the counters are arguments.
- JudgerCaches.RunSession: the same of its requests; what an operation does that leaves the buffer is not modelled.
- JudgerCaches.CachedService.constructor: the sizes of the caches are arguments.
- Link.Deliver: frames of ARP and ICMP between those of the run, and the packet hook of the phy layer, are not modelled.
- Ipv4.Replay: frames that ARP sends on its own through the same link layer are not among its frames.
- PageTables.Builder.FillPages: the three stores that build one entry (with the user flag, without it, with the mark) are one store of the final value.
- PageWalk.Translate: access rights and canonical form of addresses are the subject of UserAccess; cached translations are not modelled.
- DuckCache.SortByTime: an in-place insertion sort stands for std::sort; equal time stamps may come out in another order.
- UserMemory.Memory: one entry per 4 KiB page of the user range; the tables behind the entries are the subject of Mapping and UserAccess.
- Rings: memory ordering between processor and card, and the fields of a descriptor other than status and length.
