# SceLibcPosix: verified model of the core

SceLibcPosix is the POSIX layer of a C library for a handheld console. This project models six of its
parts in Dafny and proves what they promise. Kernel calls, allocations and file reads are parameters of
the model; 32-bit wrap-around is written out wherever an address or a length can wrap.

**Memory manager** (`Regions`, `Reservations`, `MemoryManager`, `Mapping`). A fixed array of 256 regions is
edited in place. `Regions` gives the table its meaning, a map from addresses to owner and protection, and
proves what cutting, inserting, resizing and protecting do to that map. `Reservations` replays a log of kernel
reservations; a log that frees something not live, or reserves a range still taken, is rejected. The class
`Manager` holds the array and proves every operation against these. Its `Valid()` says: at most 256 entries,
sorted, disjoint, non-empty, page aligned, inside the pool when kubridge is absent, the live reservations
exactly those the table refers to and every entry inside its own reservation. Mapping, protecting, mmap and the
tear-down keep it on every input, and so does every call that fails. The other calls carry the exact condition
in their contracts: `Unmap` and munmap keep it if and only if nothing was removed, or the end of the range does
not wrap and no page is cut in two; `Resize` if and only if it fails or the new length neither rounds to zero nor
passes the top; mremap as the one of these that it ends in. `Mapping` adds mmap, mremap and munmap.

**Descriptor table** (`Descriptors`, `DescriptorTable`). Every table function runs under one mutex, so a
program is an interleaving of atomic steps. `Descriptors` is that state machine, with the multiset of grabs not
yet dropped and a log of opens and closes; the main results are about every state of every interleaving, and an
effect lemma per step fixes its answer and everything it changes. The class `FdTable` proves that the functions on the two arrays take exactly these steps.

**IPv6 text** (`Inet6Text`, `Inet6Grammar`, `Inet6`, `Ipv4Text`). The printer and parser of section 2.2 of RFC
4291, with the choices of section 4 of RFC 5952, and the proof that parsing what was printed gives the address
back. `Inet6Grammar` says, without the loops, which text every address gets and what every text stands for, put
together from its pieces between colons. The IPv4 helpers are foreign; `Faithful` says what is asked of them and
`Ipv4Text` shows that such helpers exist.

**Paths** (`PathText`, `Paths`, `WorkingDirectory`). In-place buffer editing is proved equal to folding the
components of the path on a stack, for every text and length, and the byte that the code reads behind its work
buffer is proved not to matter; from that follow the laws of slash, dot, dot-dot and name on texts, idempotence, composition, and that a run of relative chdir
calls ends where one chdir to the joined path ends exactly when the joined text fits.

**Environment** (`EnvText`, `Environment`). A pointer array and a table of owned strings refine a finite map
from names to values; only strings that setenv allocated are ever freed, each once, and putenv leaves a freed
one behind exactly when it is given such a string.

**Word-at-a-time strings** (`Words`, `WordStrings`). The zero-byte test is exact, and the functions built on it
copy and find exactly what their byte-by-byte definitions say, for every alignment.

Where the code does not do what it promises, the model keeps the code, a `...Witness` lemma gives an input, and
an if-and-only-if says when the promise is met:

| promise | exact condition | inputs that break it |
|---|---|---|
| unmapping removes its range | `UnmapExact` | `UnmapWrapWitness`, `UnmapFullWitness` |
| a range is reported as mapped only if it is | `MappedExact`, `MappedExactAligned` | `MappedWrapWitness` |
| protections are tracked page by page | `ProtectedPerPage` | `ProtectStraddleWitness`, `ProtectWrapWitness` |
| a resize keeps the table valid | `ResizedWellFormed`, `Manager.Resize` | `ResizeZeroWitness` |
| a move takes the old range away | `MovedExact` | `MoveWrapWitness` |
| a move carries the first bytes | `CopyExact`, with `CopyApart` and `CopyBelowTop` | `MoveOverlapWitness` |
| counts equal the references | `RunSafe`, `CloseKeeps`, `Dup2FailedClose` | `LostCloseWitness` |
| a double colon keeps what follows it | `DoubleColonKeeps` | `EmptyGapWitness` |
| a path is placed as resolved | `PlacedExact`, `BareDrive` | `OverlongWitness` |
| a walk ends where one chdir ends | `WalkIsOneStep` | `LongWalkWitness` |
| putenv leaves no dangling pointer | `Env.Putenv` | `PutenvOwnedWitness` |

## Model

| member | source | states |
|---|---|---|
| Regions.PageAlign | src/internal/vitamman.h:10-11 | rounding up to a page; lengths in the last page wrap to zero |
| Regions.CutAllAt | src/internal/vitamman.c:276-314 | cutting [s, e) out of any table removes exactly those addresses from the page map and keeps owner and protection of all others |
| Regions.CutAllWellFormed | src/internal/vitamman.c:276-314 | what is left after a cut that halves no page is again sorted, disjoint, non-empty and page aligned |
| Regions.CutAllUnaligned | src/internal/vitamman.c:296-302 | a cut inside a page leaves an entry that is not page aligned |
| Regions.UnmapExact | src/internal/vitamman.c:264-319 | with the 32-bit end, an unmap removes exactly its range if and only if nothing is mapped from its start on, or its end does not wrap and no split meets a full table |
| Regions.UnmapWrapWitness | src/internal/vitamman.c:271-280 | an unmap whose end wraps leaves its range mapped |
| Regions.UnmapFullWitness | src/internal/vitamman.c:304-308 | taking a page out of the middle of an entry of a full table removes nothing |
| Regions.InsertedWellFormed | src/internal/vitamman.c:126-141 | inserting a region that meets no entry keeps the table sorted and disjoint |
| Regions.InsertedAt | src/internal/vitamman.c:126-141 | the insertion adds exactly the addresses of the region to the page map |
| Regions.ProtectedAt | src/internal/vitamman.c:400-406 | protecting never changes what is mapped or who owns it |
| Regions.ProtectedPerPage | src/internal/vitamman.c:396-406 | for every length: protections are tracked page by page if and only if no entry of another protection straddles an end of the range or, when the 32-bit end wraps, every entry met has that protection already |
| Regions.ProtectStraddleWitness | src/internal/vitamman.c:404-405 | protecting one page in the middle of an entry records nothing |
| Regions.ProtectWrapWitness | src/internal/vitamman.c:401-405 | protecting up to the top of the address space records nothing, although the entry lies wholly inside |
| Regions.MappedExact | src/internal/vitamman.c:423-433 | the answer for the wrapped end is the answer for the true end if and only if the end does not wrap, or it wraps into the page of an unaligned, unmapped start |
| Regions.MappedExactAligned | src/internal/vitamman.c:423-433 | for a page-aligned start, if and only if the end does not wrap |
| Regions.MappedWrapWitness | src/internal/vitamman.c:424-426 | a range whose end wraps to zero counts as mapped with an empty table |
| Regions.ResizedAt | src/internal/vitamman.c:351-383 | a new length changes the page map only between the old and the new end |
| Regions.ResizedWellFormed | src/internal/vitamman.c:351-383 | a resize keeps the table well formed if and only if the new length is not zero and does not pass the top |
| Regions.ResizeZeroWitness | src/internal/vitamman.c:342-360 | a length that rounds to zero shrinks a mapping to an empty entry |
| Regions.InsertedThenCut | src/mman/mmap.c:47-52 | unmapping what was just mapped gives the very same table back |
| Reservations.ReserveThenFree | src/internal/vitamman.c:230-240 | a reservation given back at once leaves the ledger as it was |
| Reservations.AccountsInserted | src/internal/vitamman.c:225-241 | a recorded reservation is live and covers its entry |
| Reservations.AccountsReplaced | src/internal/vitamman.c:293-310 | cutting an entry into fragments frees nothing while some entry keeps the reservation |
| Reservations.AccountsRemoved | src/internal/vitamman.c:293-295 | dropping the last fragment frees its reservation, which was live |
| Reservations.FreedOncePerReservation | src/internal/vitamman.c:83-91 | in a legal log a reservation is freed only after it was made, and again only after it was made again |
| MemoryManager.Manager.constructor | src/internal/vitamman.c:61-70 | starts with an empty table and no reservation |
| MemoryManager.Manager.Find | src/internal/vitamman.c:117-124 | finds the entry that holds an address exactly when the address is mapped |
| MemoryManager.Manager.Insert | src/internal/vitamman.c:126-141 | shifts in place to the sorted insertion; fails only on a full table, unchanged |
| MemoryManager.Manager.Remove | src/internal/vitamman.c:143-147 | closes the gap of one entry |
| MemoryManager.Manager.Release | src/internal/vitamman.c:149-157 | frees a reservation exactly when no entry refers to it |
| MemoryManager.Manager.PoolInit | src/internal/vitamman.c:159-179 | the pool is set up once |
| MemoryManager.Manager.PoolAlloc | src/internal/vitamman.c:181-201 | exact first fit: the lowest pool address where the length meets no entry, zero only if there is none, for every 32-bit length |
| MemoryManager.Manager.MapReserved | src/internal/vitamman.c:223-241 | reserve, commit and record; a failure leaves table and ledger as they were |
| MemoryManager.Manager.MapPooled | src/internal/vitamman.c:242-257 | records the first fit, or leaves the table alone |
| MemoryManager.Manager.Map | src/internal/vitamman.c:203-262 | succeeds exactly when `CanMap` says; then the page map gains exactly the new range; each error code has its condition |
| MemoryManager.Manager.UnmapStep | src/internal/vitamman.c:276-311 | one round of the loop: what was cut, what is left, and when a split ends it |
| MemoryManager.Manager.UnmapRange | src/internal/vitamman.c:276-318 | the delete-while-iterating loop ends and leaves the cut table, or the old one when a split meets a full table |
| MemoryManager.Manager.Unmap | src/internal/vitamman.c:264-319 | for every start and length: the exact new table; result 0 exactly when something was removed; reservations stay accounted for; valid if and only if nothing was removed, or the end does not wrap and no page is cut in two |
| MemoryManager.Manager.ProtOf | src/internal/vitamman.c:321-334 | the recorded protection, or minus one |
| MemoryManager.Manager.GrowEntry | src/internal/vitamman.c:364-383 | grows in place exactly when the room behind is free and inside the pool, and zeroes it |
| MemoryManager.Manager.Resize | src/internal/vitamman.c:336-388 | succeeds exactly when the entry can take the length where it is; the table stays valid if and only if the call fails or the new length neither rounds to zero nor passes the top |
| MemoryManager.Manager.Protect | src/internal/vitamman.c:390-413 | entries wholly inside take the protection, nothing else changes, the result is the kernel's; the exact condition for tracking page by page |
| MemoryManager.Manager.MappedRange | src/internal/vitamman.c:415-437 | the hopping walk ends and answers 1 exactly when every address up to the wrapped page end is mapped |
| MemoryManager.Manager.Fini | src/internal/vitamman.c:72-104 | frees every live reservation exactly once, although fragments share them |
| Mapping.Fill | src/mman/mmap.c:44-57 | for every sequence of short reads: file bytes, then zeros to the page end; succeeds exactly when no read of that sequence fails |
| Mapping.MapFilled | src/mman/mmap.c:35-64 | the new range holds file or zeros with the requested protection; any failure gives the old table back |
| Mapping.Mmap | src/mman/mmap.c:9-65 | succeeds exactly under the stated arguments, kernel answers and reads |
| Mapping.MovedRemaps | src/mman/mremap.c:50-62 | map, protect, unmap: the page map after a move, including the old range kept when its split is given up |
| Mapping.MovedExact | src/mman/mremap.c:50-62 | the move takes exactly the old range away if and only if its end does not wrap and its split is not given up |
| Mapping.MovedWrapped | src/mman/mremap.c:62 | the unmap of a wrapped old range leaves its start mapped, and leaves overlapping entries exactly when it splits |
| Mapping.MoveWrapWitness | src/mman/mremap.c:33-62 | a request that passes every check; the old range stays and two entries of the new table overlap |
| Mapping.CopyExact | src/mman/mremap.c:56-57 | the copy carries the bytes, whatever memcpy does on overlapping operands, if and only if its operands are apart |
| Mapping.CopyApart | src/mman/mremap.c:50-57 | bytes that were mapped are apart from the new range |
| Mapping.CopyBelowTop | src/mman/mremap.c:33-57 | the checks ensure it for every old range that ends below the top |
| Mapping.MoveOverlapWitness | src/mman/mremap.c:56-57 | the same request makes memcpy's operands overlap by a page, and a copy from the front loses the second page |
| Mapping.ResizedRemaps | src/mman/mremap.c:39-42 | the page map after a resize in place |
| Mapping.Move | src/mman/mremap.c:49-65 | for every old and new length: a move copies the first min(old, new) bytes, carries them when the operands are apart, which they are for an old range below the top or mapped bytes, and leaves that table; valid exactly when no wrapped unmap split an entry; a failure changes nothing |
| Mapping.Mremap | src/mman/mremap.c:10-66 | for every 32-bit request: failure changes no region and no byte; success maps the new range with the old start's protection, touches no byte outside it and keeps the first min(old, new) bytes, in place below the top, moved when the copy's operands are apart; exact conditions for each error, for in place and moved, for the old range going away and for the table staying valid |
| Mapping.Munmap | src/mman/munmap.c:7-20 | the exact condition under which exactly the range is lost, and under which the table stays valid |
| Descriptors.InitialInv | src/internal/vitadescriptor.c:28-64 | the initial table satisfies the invariant with exact counts; exactly the three standard descriptors are open, one on each of three slots |
| Descriptors.OpenKeeps | src/internal/vitadescriptor.c:86-109 | open keeps the invariant and hands out only a slot that nobody refers to |
| Descriptors.OpenEffect | src/internal/vitadescriptor.c:86-109 | open answers -1 exactly when no descriptor from 3 on or no slot is free, and changes nothing; otherwise it answers the lowest free descriptor, which now holds the lowest unused slot with that handle and count one; nothing else changes |
| Descriptors.CloseKeeps | src/internal/vitadescriptor.c:111-124 | close keeps counts at least the references; they are exact afterwards if and only if they were and no failed close is taken for success |
| Descriptors.CloseEffect | src/internal/vitadescriptor.c:111-124 | close answers -1 exactly for an invalid descriptor or a last close whose error is reported; otherwise the descriptor is empty; the slot loses one count, is zeroed by a successful last close and kept by a failed one; nothing else changes |
| Descriptors.DupKeeps | src/internal/vitadescriptor.c:126-147 | dup keeps the invariant and exactness |
| Descriptors.DupEffect | src/internal/vitadescriptor.c:126-147 | dup answers -1 exactly when the descriptor is invalid or none from the minimum, at least 3, on is free, and changes nothing; otherwise the lowest such one is answered and shares the slot of fd, whose count grows by one; nothing else changes |
| Descriptors.Dup2Keeps | src/internal/vitadescriptor.c:149-171 | dup2 likewise, through the release of the new descriptor |
| Descriptors.GrabKeeps | src/internal/vitadescriptor.c:181-194 | a grab adds one reference and one count |
| Descriptors.GrabEffect | src/internal/vitadescriptor.c:181-194 | a grab answers the slot of a valid descriptor, adds one count and one grab to it and changes nothing else |
| Descriptors.DropKeeps | src/internal/vitadescriptor.c:196-247 | a drop keeps the invariant; counts are exact afterwards if and only if they were and it is not a failed last close |
| Descriptors.DropEffect | src/internal/vitadescriptor.c:196-247 | a drop answers zero, or the error of a failed last close with its sign turned; the slot loses one count, is zeroed by a successful last close and kept by a failed one |
| Descriptors.RunSafe | src/internal/vitadescriptor.c:86-247 | in every interleaving every count is at least the descriptors and grabs on its slot, equal to them if and only if no close was lost so far, and the log of opens and closes is legal |
| Descriptors.RunOpensUnreferenced | src/internal/vitadescriptor.c:92-103 | at any point of any run an opened slot had no reference |
| Descriptors.RunNoCloseWhileShared | src/internal/vitadescriptor.c:199-241 | in every interleaving no close is tried while anyone else refers to the slot |
| Descriptors.NoCloseWhileShared | src/internal/vitadescriptor.c:199-241 | a legal log has no such close |
| Descriptors.RunClosedOncePerOpen | src/internal/vitadescriptor.c:199-240 | in every interleaving, between two closes of a slot, the first successful, it was opened again |
| Descriptors.ClosedOncePerOpen | src/internal/vitadescriptor.c:199-240 | the same of every legal log |
| Descriptors.Dup2Rejects | src/unistd/dup2.c:4-21 | an invalid or out-of-range descriptor answers -1, equal ones answer themselves; nothing changes |
| Descriptors.Dup2Effect | src/internal/vitadescriptor.c:149-171 | the complete effect on distinct descriptors: -1 and nothing but the log changed exactly when the close of newfd reports an error; otherwise newfd shares oldfd's slot, counts move by one, the old object is closed exactly on its last reference, never the shared one |
| Descriptors.Dup2FailedClose | src/internal/vitadescriptor.c:160-166 | a failed close leaves the table unchanged if and only if its translated error is reported |
| Descriptors.LostClose | src/internal/vitadescriptor.c:117-120 | a failed close taken for success empties the descriptor and leaves its slot counted with no holder |
| Descriptors.LostCloseWitness | src/internal/vitadescriptor.c:234-237 | the kernel error 0x80010000 is such a close |
| DescriptorTable.FdTable.constructor | src/internal/vitadescriptor.c:28-48 | builds the initial table |
| DescriptorTable.FdTable.Acquire | src/internal/vitadescriptor.c:86-109 | the nested scan takes the lowest free descriptor and slot, as the open step does |
| DescriptorTable.FdTable.FdDrop | src/internal/vitadescriptor.c:196-247 | the drop step on the arrays, with its return code |
| DescriptorTable.FdTable.Release | src/internal/vitadescriptor.c:111-124 | the close step on the arrays |
| DescriptorTable.FdTable.Duplicate | src/internal/vitadescriptor.c:126-147 | the dup step on the arrays |
| DescriptorTable.FdTable.Duplicate2 | src/unistd/dup2.c:4-21 | the dup2 step on the arrays, with the range check |
| DescriptorTable.FdTable.GrabFd | src/internal/vitadescriptor.c:181-194 | the grab step on the arrays |
| DescriptorTable.FdTable.DropGrabbed | src/internal/vitadescriptor.c:196-247 | the drop of a grab on the arrays |
| Inet6Text.ElisionIsFirstLongest | src/network/inet_ntop.c:67-95 | the elided run is the first of the longest runs of at least two zero groups, or none exists |
| Inet6Text.PrintFits | src/network/inet_ntop.c:50 | text and terminator fit the 46-byte buffer |
| Inet6Text.ScanTail | src/network/inet_pton.c:61-107 | the parser reads the groups behind the elided run back |
| Inet6Text.ScanBefore | src/network/inet_pton.c:61-107 | the parser reads the groups before the run back and marks the gap |
| Inet6Text.ScanEmbedded | src/network/inet_pton.c:99-104 | an embedded IPv4 address is read back |
| Inet6Text.ParseFrom | src/network/inet_pton.c:40-138 | whatever zero run is elided, the text parses back to the groups |
| Inet6Text.RoundTrip | src/network/inet_ntop.c:62-146 | parsing the printed text of any address succeeds and gives the same sixteen bytes |
| Inet6Grammar.PrintExact | src/network/inet_ntop.c:62-146 | the text of every address: ::ffff: and an IPv4 text for mapped ones, :: and an IPv4 text for compatible ones, otherwise the groups around the elided run |
| Inet6Grammar.PrintEmbedded | src/network/inet_ntop.c:117-124 | the same by bytes, for every four last bytes |
| Inet6Grammar.PrintDots | src/network/inet_ntop.c:117-124 | a dot is printed if and only if the address is mapped or compatible |
| Inet6Grammar.HexExact | src/network/inet_ntop.c:126-127 | a group is written in lower case, without leading zeros, and has its value |
| Inet6Grammar.DigitTable | src/network/inet_pton.c:41-65 | a digit of either case has its place in the table as value, and nothing else is a digit |
| Inet6Grammar.ParseExact | src/network/inet_pton.c:40-138 | what every text stands for: at most one gap, groups of at most 0xffff in any number of digits, an IPv4 text at the end, eight groups or a gap, nothing behind a single leading colon; a single trailing colon is let through |
| Inet6Grammar.EveryText | src/network/inet_pton.c:61-107 | every text falls into the pieces that ParseExact speaks of |
| Inet6Text.DoubleColonKeeps | src/network/inet_pton.c:117-137 | every text with a double colon keeps what stands before it, and keeps what stands behind it if and only if fewer than sixteen bytes were written or those behind are all zero |
| Inet6Text.EmptyGapWitness | src/network/inet_pton.c:122-128 | 1:2:3:4::5:6:7:8 is taken and loses its second half |
| Ipv4Text.FaithfulExists | src/network/inet_ntop.c:34-40 | IPv4 helpers as the model asks for exist |
| Inet6.PackGroups | src/network/inet_ntop.c:62-65 | the loop packs bytes into groups |
| Inet6.FindElision | src/network/inet_ntop.c:67-95 | the loop finds the run to elide |
| Inet6.FormatGroup | src/network/inet_ntop.c:102-127 | one round writes what the group contributes, within the buffer |
| Inet6.InetNtop6 | src/network/inet_ntop.c:42-146 | the text, or ENOSPC exactly when it does not fit; the text parses back |
| Inet6.ScanSource | src/network/inet_pton.c:57-115 | the scanning loop writes what the scan defines |
| Inet6.ShiftTail | src/network/inet_pton.c:117-131 | the in-place shift from the back |
| Inet6.InetPton6 | src/network/inet_pton.c:40-138 | the parse; any printed text gives its address |
| PathText.ResolveIdempotent | src/internal/vitafs.c:73-152 | resolving a resolved path changes nothing |
| PathText.ResolveComposes | src/internal/vitafs.c:73-152 | resolving the first part beforehand changes nothing |
| PathText.ResolveShortens | src/internal/vitafs.c:112-143 | an absolute path never gets longer |
| PathText.ResolveSame | src/internal/vitafs.c:117-122 | a last slash or dot changes nothing; alone they, the empty text and dot-dot are the root |
| PathText.ResolveDown | src/internal/vitafs.c:135-139 | a last name is put behind what stands before it |
| PathText.ResolveUp | src/internal/vitafs.c:122-134 | dot-dot takes back exactly the name before it, and stays at the root |
| PathText.ResolveAround | src/internal/vitafs.c:122-134 | a name and dot-dot in the middle may be left out |
| PathText.FoldRender | src/internal/vitafs.c:119-139 | a rendered stack of components reads back as itself |
| Paths.NextPart | src/internal/vitafs.c:96-110 | takes the first component off the work buffer; reads at most one byte behind it, which it never writes and which does not matter; fails exactly when the count does not fit the token |
| Paths.ApplyPart | src/internal/vitafs.c:111-143 | a component acts on the result buffer as on the stack; fails exactly without room for its slash or itself, with what fits left in the buffer |
| Paths.PopPart | src/internal/vitafs.c:128-133 | dot-dot strips the last component |
| Paths.ProgressStep | src/internal/vitafs.c:95-144 | stack and rest of the path fold to the same stack after every round, within the length |
| Paths.ResolveLoop | src/internal/vitafs.c:95-144 | the loop ends by itself with the folded stack in the buffer; no guard for the length fires on a path shorter than PATH_MAX |
| Paths.ResolvePath | src/internal/vitafs.c:73-152 | every text, with or without a first slash: shorter than PATH_MAX with that slash it is resolved; at exactly PATH_MAX it fails if and only if no component is empty, dot or dot-dot, and the buffer holds what fits either way; longer it fails with the root, or nothing, in the buffer |
| Paths.ProgressFull | src/internal/vitafs.c:111-143 | room runs out only on the last component of such a text of exactly PATH_MAX |
| WorkingDirectory.GetDrive | src/internal/vitafs.c:53-63 | the length of the drive prefix |
| WorkingDirectory.DriveExact | src/internal/vitafs.c:53-63 | there is a drive if and only if only lower-case letters and digits stand before a first colon, where it ends |
| WorkingDirectory.OwnDrive | src/internal/vitafs.c:178-192 | a path with its own drive stands for the resolved rest under that drive, whatever the current directory is |
| WorkingDirectory.AbsolutePath | src/internal/vitafs.c:193-206 | an absolute path stands for itself, resolved, under the drive of the current directory, as it does with that drive written out |
| WorkingDirectory.Directory.RealPath | src/internal/vitafs.c:155-232 | the absolute path with drive, and each error |
| WorkingDirectory.Directory.ChangeDir | src/unistd/chdir.c:11-35 | the current directory changes only to a directory the path resolves to |
| WorkingDirectory.RelativeStep | src/internal/vitafs.c:207-223 | a relative path folds its components onto those of the current directory |
| WorkingDirectory.WalkIsOneStep | src/unistd/chdir.c:20-34 | a run of successful relative chdir calls ends where one chdir to the joined path ends if and only if the joined text fits; otherwise the one chdir is ENAMETOOLONG |
| WorkingDirectory.WalkWitness | src/unistd/chdir.c:20-34 | such a run exists: into a directory and out again |
| WorkingDirectory.LongWalkWitness | src/internal/vitafs.c:210-230 | a run that succeeds although its joined path is refused |
| WorkingDirectory.ChdirKeeps | src/unistd/chdir.c:20-34 | every successful chdir on a safe path leaves a drive with a resolved path |
| WorkingDirectory.InitialCwd | src/internal/vitafs.c:65-70 | the default directory is of that form |
| WorkingDirectory.PlacedExact | src/internal/vitafs.c:181-206 | a text is placed as resolved if and only if the result fits behind the drive and the text with its first slash is at most PATH_MAX or resolves to the root; a longer one becomes the root, or the drive alone |
| WorkingDirectory.BareDrive | src/internal/vitafs.c:178-196 | behind a drive the first slash may be left out if and only if the text fits with it |
| WorkingDirectory.OverlongWitness | src/internal/vitafs.c:183-188 | texts that become the root and the drive alone |
| EnvText.PutLookup | src/env/setenv.c:29-48 | after a put the name has the new value and every other name its old one |
| EnvText.WithoutLookup | src/env/unsetenv.c:19-30 | after a removal the name is absent however often it was defined, every other name unchanged |
| Environment.Env.RmAdd | src/env/setenv.c:7-25 | the ownership table: what is freed, and what is tracked exactly: the new string if and only if the table can grow, has a hole or lets a string go |
| Environment.Env.Replace | src/env/putenv.c:14-20 | replaces the first definition and frees what stood there if it was owned; keeps the environment valid if and only if the new string is not tracked already |
| Environment.Env.Grow | src/env/putenv.c:22-38 | the handover of the array |
| Environment.Env.PutEntry | src/env/putenv.c:11-45 | puts an entry, or leaves the environment alone and frees the new string; exactly what is freed and what is tracked |
| Environment.Env.Putenv | src/env/putenv.c:49-54 | for any string: the caller's string goes in itself; a text without '=' is an unsetenv; the environment stays valid if and only if the string is not an assignment that setenv allocated and still tracks |
| Environment.PutenvOwnedWitness | src/env/putenv.c:14-20 | setenv, then putenv of the string it made: the environment points to freed memory |
| Environment.Env.Setenv | src/env/setenv.c:29-48 | succeeds if and only if the name is valid and it is defined and kept, or the allocations it needs succeed; refines a map update; a failure changes nothing; exactly what is freed and tracked, so that nothing is lost while everything is tracked |
| Environment.Env.Compact | src/env/unsetenv.c:19-30 | the two-pointer loop keeps the other entries in order and frees the owned ones it drops |
| Environment.Env.Unsetenv | src/env/unsetenv.c:13-32 | refines a map removal; frees exactly the tracked definitions |
| Environment.Env.Getenv | src/env/getenv.c:7-14 | the value of the first definition |
| Environment.Env.Clearenv | src/env/clearenv.c:9-16 | empties the environment and frees every tracked string |
| Words.HasZeroWord | src/string/strlcpy.c:6-9 | the zero-byte test is non-zero exactly when a byte is zero |
| Words.HasByteWord | src/string/memccpy.c:23-26 | the test after exclusive or finds exactly the byte looked for |
| WordStrings.NoHit | src/string/memccpy.c:25-26 | the test on the next word tells whether the scan stops inside it |
| WordStrings.CopyNextWord | src/string/strlcpy.c:26-28 | a word is copied exactly when it lies before the stop |
| WordStrings.StrLCpy | src/string/strlcpy.c:11-39 | what fits is copied and terminated, nothing else changes, the result is the source length, for every alignment and size |
| WordStrings.StrLCat | src/string/strlcat.c:4-9 | appends what fits, or nothing when there is no terminator within the size |
| WordStrings.MemCCpy | src/string/memccpy.c:10-34 | copies up to and including the first c, or n bytes |
| WordStrings.StpCpy | src/string/stpcpy.c:10-31 | copies the string and its terminator and returns the terminator's address |
| WordStrings.StrChrNul | src/string/strchrnul.c:12-31 | the first c or the terminator |

## Left out

- Decommit calls and the contents of decommitted or freshly committed memory; the table is what is claimed (src/internal/vitamman.c:290-291).
- `__mman_discard`, `__mman_sync`, msync, madvise, mincore and locking calls: their effects are foreign.
- Mapping.Mremap: a protection with its top bit set counts as unmapped, as in the code. memcpy is foreign: on overlapping operands, and on bytes past the top, it is taken to leave any bytes in its destination and nothing else. Nothing is claimed about the bytes behind the copy after a move or of a growth past the top, and a read of memory that is not mapped is not modelled as a fault.
- Mapping.Mmap: errno of a failed read is one code, EREAD.
- The mutexes: each function is one step. dup2 on two equal descriptors returns with its mutex held (src/internal/vitadescriptor.c:155-157).
- The handles of the three standard streams, taken as 0, 1 and 2, and the errno values of the descriptor calls.
- `_free_fd`, `__descriptor_ref_count`, pipe, socket and accept; open's acquire and install are one step.
- Descriptors.DropKeeps: the socket error table is a parameter; its result may be any number.
- Inet6Text.RoundTrip: asks of the foreign IPv4 helpers that they invert each other on dotted decimal of at most fifteen characters.
- Paths.ResolvePath: requires, for a text without a first slash, that the byte before the result buffer, which the code then reads, is not a slash (src/internal/vitafs.c:111). PATH_MAX is taken as 1024; its header is not part of this model.
- WorkingDirectory.Directory.RealPath: requires the same of that byte, and a joined length with its slash that is not exactly PATH_MAX, on which the code writes one byte past `full_path` (src/internal/vitafs.c:210-213).
- WorkingDirectory.Directory.ChangeDir: requires what RealPath does.
- WorkingDirectory.ChdirKeeps: requires what RealPath does of the length.
- WorkingDirectory.WalkIsOneStep: leaves out the joined length with its slash of exactly PATH_MAX, as RealPath does.
- Environment.Env.Putenv: a caller that replaces `environ` itself, or changes a string it put there, is not modelled.
- Environment.Env.Compact: the array is a sequence that the loop overwrites in place and then cuts.
- WordStrings.StrLCpy: source and destination do not overlap, and memory is readable to the end of its last word, as the word loop needs.
- Thin wrappers over system calls, error tables, locale, time, directory streams and start-up code: one branch or one call each.
