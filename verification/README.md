# Verified models of the m1n1 boot loader's stateful cores

m1n1 is a bare-metal boot loader for Apple Silicon. Most of it is register plumbing, but it holds a number of
cores whose correctness is a property of whole runs: a shared-memory ring, two kinds of translation tables, an
address allocator, a console fan-out, an NVMe queue and its lifecycle, a power-domain graph, an edit of the
device tree, and the hand-off of variables between boot stages. This project models those cores in Dafny and
proves them against simple specifications: a queue, a flat page map, a set of free pages, a byte stream, the
ancestors in a graph, a list of variables.

`dafny verify dfyconfig.toml` checks everything.

## How the model is laid out

| module | models | specification it is proved against |
|---|---|---|
| `Wrappers`, `Sequences` | an optional value; a stretch of a sequence replaced | |
| `Align` | rounding to a block | multiples |
| `AfkRing` | the record ring of `src/afk.c` | a queue of records, under every interleaving of producer and consumer steps |
| `Descriptors`, `TableWalk`, `TableTree`, `PageTables` | `mmu_map` of `src/memory.c`, 16K pages | a flat page map; a TLB that may hold whatever entry it saw, with its level, since the last invalidation |
| `IovaList`, `IovaDomain` | the allocator of `src/iova.c` | the set of free addresses; free and outstanding ranges partition the domain |
| `DartPte`, `DartTables`, `DartSpec`, `Dart` | the IOMMU tables of `src/dart.c` | a partial map from pages to pages, with the slots that have a table |
| `Console` | the console of `src/iodev.c` | one byte stream, and an account for each device |
| `NvmeQueue`, `NvmeLifecycle` | `src/nvme.c` | completions in posting order; memory the controller may still use |
| `PmgrTopology`, `PmgrSpec`, `Pmgr` | `src/pmgr.c` | ancestors in the parent graph; the walk, the snapshot and the rollback as functions of the registers and what they settle in |
| `Scanout` | the specifier-list edit of `src/kboot.c` | a list of whole specifiers, filtered |
| `Handoff` | `src/chainload.c` writing, `src/payload.c` scanning | a list of name/value pairs |

Objects that the source updates in place are classes with an invariant `Valid()`; each of their methods states
the whole new state in terms of the old one through a specification function or predicate. For each core there
is a specification of a whole run: a fold of one step over a script of calls (`After` and `Play`, `ReaderAfter` of the
console, `FlatMap` of the page tables, `NodeCall` of the power domains), with everything the code cannot control (what `memalign` grants, what a device
has to post, what a console device takes of each offer, what a power register settles in) as part of the script. A
method called `Run` creates the object, performs the script, and returns exactly what the specification says; lemmas
about the specification then state what holds of every run.

## Where the code falls short of what one might expect

Each of these is proved with the exact condition, or for every input of the failing kind.

- `AfkRing.EmptyRingRefuses`: an empty ring can refuse a record of more than half its size, because the
  record would have to lie on one side of the pointers.
- `PageTables.Mmu.Map`, `PageTables.PhasesRemap`, `PageTables.FaultsUnderLink`: a valid target with the type bit set
  makes every block that `mmu_map` writes a link to its target. For targets outside the heap the call does what it is
  asked exactly when it writes no block, and otherwise exactly the pages under such blocks fault.
- `PageTables.BelowImageExactly`, `PageTables.BlockBelowImage`: RAM below the image is meant to be mapped in pages only.
  A whole block of it is nevertheless mapped as a block exactly if the range has its first multiple of a block below RAM.
- `IovaList.ReserveExact`, `IovaDomain.ReservingNothingFreesPageZero`: a reservation whose end wraps around 2^64 is accepted if its start is free, and
  then damages the list; without wrap-around it always does what it promises. Reserving zero bytes at address 0
  is such a call: the size underflows, and page 0 ends up on the free list.
- `IovaList.FreeGoodExactly`, `IovaList.FreedTwice`: freeing a range of which a byte is free leaves overlapping blocks.
- `IovaDomain.ReserveReachesRequest`: address and size are rounded separately, so a misaligned range may not
  be covered to its end.
- `IovaDomain.AllocTakesWhatIsAsked`, `IovaDomain.AllocOfEverything`: a size in the last page of the 64-bit range rounds to 0; the allocation
  succeeds and takes nothing.
- `DartSpec.UnmapsExactly`, `DartSpec.UnmapMissesLaterRoot`: a page under root 1 to 3 is not unmapped; the page with
  its low bits under root 0 is cleared instead, or a null pointer is followed.
- `DartSpec.RollbackExactly`, `DartSpec.RollbackMissesLaterRoot`: a map that fails part way restores every translation
  exactly when it does not get beyond root 0, that is, when a page up to the first one of a later root is not vacant or
  cannot get a table.
- `Dart.WindowFreeExactly`, `Dart.FindsMappedPage`: the search for a free window takes a page mapped to physical
  page 0 for a free one.
- `Dart.WindowTranslates`, `Dart.SearchYieldsNull`: on Gen3 the address that the range search returns translates only if bits 36 and
  37 of the window base are clear.
- `Pmgr.Unit.EnableSaved`, `Pmgr.LosesAutoEnable`: the rollback restores the target of every register, but exactly
  the registers written by the walk or by the rollback have lost their auto-enable bit.

## Model

| member | source | states |
|---|---|---|
| Align.AlignUpIsRound | src/utils.h:23-23 | rounding up by counting blocks is the rounding of the alignment macro |
| AfkRing.HeaderDecodes | src/afk.c:34-40 | the four little-endian words read from a header are magic, size, channel and type as written |
| AfkRing.HeaderLayout | src/afk.c:34-40 | a small header byte by byte |
| AfkRing.RbInit | src/afk.c:192-227 | a block size is adopted exactly when the region splits into three power-of-two blocks and a data area of whole blocks with both pointers aligned inside it |
| AfkRing.SmallestRing | src/afk.c:192-227 | a ring of four blocks of 64 bytes is adopted |
| AfkRing.EmptyIffPointersMeet | src/afk.c:317-317 | unread records exist exactly when the two pointers differ |
| AfkRing.OldestRecord | src/afk.c:342-372 | at the read pointer lies the oldest record's header, and its payload behind it or, when it does not fit, the whole record again at the bottom: the reader's wrap decision is the sender's |
| AfkRing.DropOldest | src/afk.c:437-454 | advancing over the oldest record never passes the end of the data area and leaves the other unread records in place |
| AfkRing.RoomSurvivesDrop | src/afk.c:386-394 | room found by the sender is not lost when the reader moves its pointer meanwhile |
| AfkRing.PlaceRecord | src/afk.c:396-414 | a record placed where there is room overwrites no unread byte, the ring then holds the unread records followed by it, and the new write pointer never equals the read pointer |
| AfkRing.RoomIsNecessary | src/afk.c:386-394 | there is room exactly when placing the record would not make the ring look empty, overwrite an unread byte or overwrite the header just written: a refusal is never needless and never missing |
| AfkRing.EmptyRingTakesHalf | src/afk.c:386-394 | an empty ring takes every record of at most half its size |
| AfkRing.HalfIsAccepted | src/afk.c:374-418 | begun, filled and published on an empty ring anywhere, every record that fits into whole blocks of at most half the ring is accepted |
| AfkRing.EmptyRingRefuses | src/afk.c:386-394 | exactly when an empty ring refuses a record, with an example |
| AfkRing.FillKeeps | src/afk.c:396-414 | writing header and payload before publishing keeps the ring invariant, whatever the reader has done since the room test |
| AfkRing.MoveKeeps | src/afk.c:358-366 | the reader's jump to the bottom keeps the invariant in every state of the sender |
| AfkRing.LookKeeps | src/afk.c:342-372 | when data is ready every test the receiver makes passes and it settles on the oldest record |
| AfkRing.AckKeeps | src/afk.c:437-454 | the assertion of the acknowledge step holds and the invariant survives it in every state of the sender |
| AfkRing.Ring.constructor | src/afk.c:192-227 | a ring of accepted geometry starts empty and consistent |
| AfkRing.Ring.TxBegin | src/afk.c:374-394 | a send goes on exactly when header and payload are no larger than the data area and the record, rounded up to the least number of whole blocks that holds it, does no such harm; a refusal changes nothing |
| AfkRing.Ring.TxFill | src/afk.c:396-414 | the record is in memory, not yet visible, the unread records are untouched, and the next write pointer is fixed, header and payload lying where the reader looks for them |
| AfkRing.Ring.Place | src/afk.c:396-414 | header, duplicate header, payload and next write pointer as specified |
| AfkRing.Ring.TxPublish | src/afk.c:416-418 | the record joins the end of the queue and the pointers differ |
| AfkRing.Ring.Rx | src/afk.c:342-372 | a receive with data ready never fails, yields the oldest unread record with channel, type, size and payload unchanged, and moves the read pointer exactly when the record lies at the bottom |
| AfkRing.Ring.RxAck | src/afk.c:437-454 | the oldest record, and only it, leaves the queue, and the read pointer moves over it |
| AfkRing.NothingLostOrReordered | src/afk.c:342-454 | over every script what was accepted is what was received followed by what is pending, and only records that fit and were sent are accepted |
| AfkRing.Run | src/afk.c:342-454 | for every interleaving of sender and receiver steps the ring of bytes accepts and yields exactly what the queue does: a send is accepted exactly when there was room and it was published, what is received is a prefix of that, and draining yields the rest |
| Descriptors.PackRoundTrip | src/memory.h:21-34 | the fields of a descriptor survive packing into 64 bits and unpacking |
| Descriptors.PackAdd | src/memory.c:314-314 | advancing a descriptor by pages is 64-bit addition on the packed word |
| Descriptors.AddWithin | src/memory.c:310-315 | inside an aligned block the addition does not carry into the attribute bits |
| TableWalk.CachedIsCurrentOrBroken | src/memory.c:222-258 | after any log that breaks before it makes, what a TLB may hold, with the level it came from, is current or belongs to an entry invalidated since the last flush |
| TableWalk.TlbNeverConflicts | src/memory.c:222-258 | at every moment of such a log no TLB holds an entry that conflicts with the tables in target, attributes or size (section D5.10.1 of the Arm Architecture Reference Manual DDI 0487G) |
| TableTree.StoreEffect | src/memory.c:372-388 | storing a leaf changes the walk of exactly the pages under the entry |
| TableTree.LinkEffect | src/memory.c:299-323 | hanging a table below an entry makes its entries serve exactly the pages under that entry |
| TableTree.CutEffect | src/memory.c:325-344 | replacing a table by a block and freeing the table changes exactly the pages under the entry |
| TableTree.StoreKeepsTree | src/memory.c:372-388 | a stored leaf keeps the tables a tree |
| TableTree.LinkKeepsTree | src/memory.c:299-323 | a table hung below an entry keeps the tables a tree |
| TableTree.CutKeepsTree | src/memory.c:325-344 | a table cut off and freed keeps the tables a tree |
| PageTables.SplitBlock | src/memory.c:310-315 | the split loop lays out the parts of a block with its attributes, one after the other |
| PageTables.PartsTranslate | src/memory.c:357-362 | a page under a split entry translates as it did under the block |
| PageTables.LinkKeepsTranslation | src/memory.c:299-370 | replacing an empty entry or a block by a table of its parts moves no translation |
| PageTables.StorePage | src/memory.c:372-388 | a page descriptor remaps exactly one page |
| PageTables.StoreBlock | src/memory.c:325-344 | a block descriptor remaps exactly the pages of one block |
| PageTables.CutBlock | src/memory.c:325-344 | the same when the block replaces a table |
| PageTables.SplitNeedsBreak | src/memory.c:310-321 | replacing a live block at once by a table of its parts moves no translation but conflicts with what a TLB may hold |
| PageTables.RemapsThen | src/memory.c:402-461 | remapping a stretch and then the next one is remapping both with one continued target |
| PageTables.RoundsOnEven | src/memory.c:397-402 | on even numbers the alignment macros applied to a mask round to whole blocks |
| PageTables.Phases | src/memory.c:397-461 | pages up to the boundary, then whole blocks that start aligned, then pages, add up to the range |
| PageTables.BlocksAreOwn | src/memory.c:397-431 | the block phase covers exactly the blocks that lie in the range on targets that start a block and are not kept in pages below the image |
| PageTables.BelowImageExactly | src/memory.c:398-401 | a block of RAM below the image is mapped as a block exactly if the first multiple of a block in the range lies below RAM, although all of it is meant to be in pages |
| PageTables.BlockBelowImage | src/memory.c:398-401 | a range with such a block |
| PageTables.LaidOutInPhases | src/memory.c:402-461 | from the layout of the phases to that of each page |
| PageTables.NowAlready | src/memory.c:372-388 | pages that got their target by page entries are there already for the next call |
| PageTables.LiveStore | src/memory.c:230-258 | a live store of a new value, through an invalid entry if the old one was valid and with a flush after each store, is break before make and leaves nothing broken |
| PageTables.LiveAlloc | src/memory.c:307-321 | filling a table that nothing points to yet is unobservable |
| PageTables.Mmu.constructor | src/memory.c:466-471 | an empty root translates nothing |
| PageTables.Mmu.Enable | src/memory.c:679-717 | switching on starts an empty observable log over the tables as they are; switching on again changes nothing |
| PageTables.Mmu.WriteDescriptor | src/memory.c:230-258 | the entry is stored, directly and unlogged with the MMU off; with it on the log grows by exactly break, flush, make, flush, without the break for an invalid entry and not at all for an equal one |
| PageTables.Mmu.Descend | src/memory.c:260-276 | the table one level down exists afterwards, no translation moved, and the log only grew; nothing at all happens if the table was there |
| PageTables.Mmu.GetL1 | src/memory.c:260-276 | the L1 table of an address, created if need be, no translation moved, the log only grew; nothing at all happens if it was there |
| PageTables.Mmu.GetL2 | src/memory.c:299-323 | the L2 table of an address, with an L1 block split if need be, no translation moved, the log only grew; nothing at all happens if it was there |
| PageTables.Mmu.GetL3 | src/memory.c:346-370 | the L3 table of an address, with an L2 block split if need be, no translation moved, the log only grew; nothing at all happens if it was there |
| PageTables.Mmu.MapL3 | src/memory.c:372-388 | exactly the pages of the range get the target, continued page by page, and the log only grew; a valid target is then mapped by page entries, what was laid out below stays as it was, and nothing is written if every page was there already |
| PageTables.Mmu.MapPage | src/memory.c:380-387 | one page written, or nothing if it is there already |
| PageTables.Mmu.MapL2 | src/memory.c:325-344 | exactly the blocks of the range get the target, or nothing if the target is valid with the type bit set; only with the MMU off and clear of the read-only window; the pages of a valid block are then mapped by the block |
| PageTables.Mmu.MapBlock | src/memory.c:333-343 | one block written, with the table it replaces freed; what was laid out below stays as it was |
| PageTables.Mmu.MapBlocks | src/memory.c:433-456 | the block phase remaps its range, in pages where a block would overlap the read-only window, and with nothing under blocks that are written as links; each block is laid out as a block or in pages accordingly |
| PageTables.Mmu.MapPhases | src/memory.c:402-461 | pages, blocks, pages: the whole range is remapped and the tables stay a tree if no link is written; for targets outside the heap it is remapped only then, and exactly the pages under links fault; where pages and where blocks lie |
| PageTables.Mmu.Map | src/memory.c:390-464 | misaligned calls change nothing; all others make every page of the range translate to its target with the given attributes and leave every other page as it was, unless a link is written for a block; for targets outside the heap that is exactly when the call fails to do so, and the effect on every page is stated; a valid page is mapped by a block exactly if the MMU is off, its block lies in the range on a target that starts a block, is not kept in pages below the image, and is clear of the read-only window; with the MMU on a call for what is there already writes nothing, and after a call it is there |
| PageTables.PhasesRemap | src/memory.c:331-343 | the effect of the phases is the one asked for exactly when no block is valid, clear of the window and marked with the type bit |
| PageTables.Unveiled | src/memory.c:331-343 | a walk through a link that leads out of the heap faults, every other walk does not notice it |
| PageTables.FaultsUnderLink | src/memory.c:390-464 | fresh tables on which a successful 32M call leaves all its pages faulting |
| PageTables.NoBlockOverWindow | src/memory.c:433-456 | a page that translates into the read-only window ends in a page entry |
| PageTables.Run | src/memory.c:222-492 | over every sequence of map and unmap calls, with the MMU switched on anywhere, up to a call that writes a link for a block: the tables are the flat map of the calls and nothing in the window is under a block; the observable log starts from the flat map at the moment of switching on and divides into stretches that lead to the flat map after each later call; every store of it breaks before it makes, no TLB ever conflicts, and no block is written; and what the call that wrote a link did |
| IovaList.GoodSplice | src/iova.c:95-132 | replacing a stretch of the list by blocks that fit between its neighbours keeps it sorted, disjoint, non-empty, aligned and inside the domain |
| IovaList.AllocTakesLowestFit | src/iova.c:143-174 | the result starts the lowest block that is large enough, 0 exactly if none is, and the list stays good |
| IovaList.AllocFreeSet | src/iova.c:143-174 | exactly the allocated range leaves the free set and all of it was free |
| IovaList.ReserveKeepsGood | src/iova.c:71-141 | a reservation without wrap-around keeps the list good and lies inside the domain |
| IovaList.ReserveFreeSet | src/iova.c:71-141 | exactly the reserved range leaves the free set and all of it was free |
| IovaList.ReserveExact | src/iova.c:91-124 | a reservation does what it promises, success or failure, exactly when its end does not wrap, its start is not free, or it is refused for want of memory |
| IovaList.ReserveSucceedsExactly | src/iova.c:71-141 | a reservation succeeds exactly when a free block holds it with a byte to spare at its end, and there is memory for another block or it starts the block |
| IovaList.FreeReturnsExactly | src/iova.c:176-236 | freeing returns exactly when the list is empty or some free block starts at or above the range's end |
| IovaList.FreeKeepsGood | src/iova.c:176-236 | freeing a range clear of the free blocks keeps the list good through every way of merging |
| IovaList.FreeGoodExactly | src/iova.c:176-236 | freeing a range of the domain keeps the list good exactly when no byte of the range is free |
| IovaList.FreedTwice | src/iova.c:213-228 | a page freed twice is listed twice |
| IovaList.FreeCases | src/iova.c:195-233 | inside a domain below 2^64 nothing wraps: the range is inserted, joined above, or joined above and below |
| IovaList.FreeFreeSet | src/iova.c:176-236 | exactly the freed range joins the free set |
| IovaDomain.Init | src/iova.c:20-51 | a domain is refused exactly when base or limit is misaligned, it would be empty, or memory is short; otherwise its free list is one block |
| IovaDomain.Domain.constructor | src/iova.c:42-48 | the free list is the whole domain without page 0 |
| IovaDomain.Domain.Alloc | src/iova.c:143-174 | the linked list and the result are those of the first-fit function |
| IovaDomain.Domain.Reserve | src/iova.c:71-141 | the linked list and the result are exactly those of the reservation function in 64-bit arithmetic, with and without memory for another block; for whole pages it succeeds exactly when a free block holds the range with a byte to spare at its end, and there is memory for another block or it starts the block |
| IovaDomain.Domain.TakeFrom | src/iova.c:91-132 | the block that holds the start is cut as specified, which needs memory only in the middle; the branches for a whole block or a tail are unreachable |
| IovaDomain.AdjustedTight | src/iova.c:73-79 | what a reservation is rounded to: whole pages, less than one page more at either end, off page 0 |
| IovaDomain.Domain.Free | src/iova.c:176-236 | for any range the linked list is that of the freeing function in 64-bit arithmetic and the panic happens exactly where that function says; the list stays good for a range of the domain that is not free |
| IovaDomain.Domain.Merge | src/iova.c:196-212 | the range is joined to the block above and, if they meet, to the one below |
| IovaDomain.Domain.Insert | src/iova.c:213-228 | a new block is linked in between the two cursors |
| IovaDomain.Domain.Unlink | src/iova.c:150-159 | a block is unlinked at the cursor |
| IovaDomain.Domain.Split | src/iova.c:118-131 | a block is cut short and a new one follows it |
| IovaDomain.PageUpHonest | src/iova.c:145-145 | rounding a size up is honest exactly for sizes below the last page of the 64-bit range |
| IovaDomain.TakeKeepsPartition | src/iova.c:71-174 | a range leaving the free set keeps free and outstanding ranges a partition of the domain |
| IovaDomain.GiveKeepsPartition | src/iova.c:176-236 | an outstanding range joining the free set keeps the partition |
| IovaDomain.CarveKeepsPartition | src/iova.c:176-236 | an outstanding range counted in pieces, of which one is to be freed, keeps the partition |
| IovaDomain.OutstandingIsFreeable | src/iova.c:176-236 | an outstanding range lies in the domain and clear of every free block |
| IovaDomain.AlwaysKept | src/iova.c:20-236 | over every run of allocations, reservations and frees of whole pages of outstanding ranges, up to an accepted reservation whose end wraps, the list stays sorted, disjoint, non-empty and inside the domain, and free plus outstanding is exactly the domain |
| IovaDomain.PanicsExactly | src/iova.c:195-235 | freeing pages of an outstanding range panics exactly when there are free blocks and all of them start below the end of those pages |
| IovaDomain.Perform | src/iova.c:71-236 | one call on the linked list does what the list functions say |
| IovaDomain.Run | src/iova.c:20-236 | after every run the linked list, the ranges handed out and the end by a panic or an accepted wrapping reservation are exactly those of the list functions over the calls, and free plus outstanding is exactly the domain unless a reservation wrapped |
| IovaDomain.AllocTakesWhatIsAsked | src/iova.c:143-174 | a successful allocation takes all bytes asked for exactly when the size does not round to 0 |
| IovaDomain.AllocOfEverything | src/iova.c:143-174 | the whole address space asked for from one free page: the call succeeds and the page stays free |
| IovaDomain.ReserveReachesRequest | src/iova.c:73-79 | the rounded range starts at or before the request exactly outside page 0, and reaches its end exactly when the address is no further into its page than the size falls short of whole pages, or when nothing is asked for in page 0 |
| IovaDomain.ReservingNothingFreesPageZero | src/iova.c:76-81 | reserving nothing at 0 makes page 0 free |
| DartPte.FieldOr | src/dart.c:673-675 | the address field of a bitwise or is the or of the address fields |
| DartPte.LeafDecodes | src/dart.c:673-675 | a leaf is valid and decodes to the page cut to the field, or-ed with caller flags that fall into it |
| DartPte.TableDecodes | src/dart.c:650-652 | a table entry decodes to the table's page |
| DartPte.RoundTrip | src/dart.c:53-60 | encoding then decoding is the identity exactly on the pages the field can hold, in all four formats |
| DartTables.LeafStored | src/dart.c:657-678 | storing one entry of an L2 table changes the translation of exactly one page |
| DartTables.TableHung | src/dart.c:644-654 | a new empty table changes no translation |
| DartTables.TableDropped | src/dart.c:766-773 | dropping a table without valid entries changes no translation |
| DartSpec.UnmapsExactly | src/dart.c:715-726 | unmapping a page without following a null pointer unmaps it exactly when it lies under root 0 or was not mapped |
| DartSpec.UnmapMissesLaterRoot | src/dart.c:717-725 | the first page of root 1, mapped and unmapped, stays mapped |
| DartSpec.MapUpEffect | src/dart.c:695-704 | pages mapped one after the other get exactly their targets and nothing else moves |
| DartSpec.MapsExactly | src/dart.c:695-704 | all pages get mapped exactly when all are vacant and the missing tables can be had |
| DartSpec.MapsFirst | src/dart.c:695-704 | the number of pages mapped before one fails is the number that are vacant and can get a table, one after the other |
| DartSpec.MemorySuffices | src/dart.c:644-654 | with roots in place and a good answer of the allocator for each page every page gets its table |
| DartSpec.UnmapUpEffect | src/dart.c:738-743 | unmapping a range under any root clears exactly the pages of root 0 that have the low bits of a page of the range with a table |
| DartSpec.UnmapsRange | src/dart.c:738-743 | under root 0 exactly the range is unmapped and nothing goes wrong |
| DartSpec.RolledBack | src/dart.c:698-701 | unmapping what was mapped over vacant pages restores every translation |
| DartSpec.RollbackExactly | src/dart.c:698-701 | a map that fails part way restores every translation exactly when some page, up to the first one of a later root, lies outside the range, is not vacant or cannot get a table |
| DartSpec.RollbackMissesLaterRoot | src/dart.c:698-701 | two pages of root 1 of which the second is mapped: the call fails and the first stays mapped |
| DartSpec.FreesExactly | src/dart.c:748-774 | under root 0 exactly the named table is dropped, exactly when no page under it is mapped, and no translation moves |
| DartSpec.StepExact | src/dart.c:680-774 | one call under root 0: a map succeeds exactly when unlocked, aligned, vacant and with tables to be had, and then adds exactly its pages, otherwise nothing; unmap removes exactly its range; freeing tables moves nothing |
| DartSpec.RunsExactly | src/dart.c:680-774 | over every run under root 0 every call does exactly that |
| Dart.Dev.constructor | src/dart.c:630-636 | empty tables translate nothing |
| Dart.Dev.Memalign | src/dart.c:644-646 | a page not in use that the address field can hold, whenever the allocator grants one |
| Dart.Dev.GetL2 | src/dart.c:630-655 | the table of a slot, asked for if it is not there, and no translation moved |
| Dart.Dev.MapPage | src/dart.c:657-678 | the tables show the flat map with exactly this page added, or the failure and its cause |
| Dart.Dev.MapPages | src/dart.c:695-704 | the tables show the pages mapped up to the first that fails, and how many |
| Dart.Dev.MapFlags | src/dart.c:680-708 | result and tables of a whole map call, with its rollback, on any range under any root; after a successful call with representable targets every byte of the range translates to its own physical byte |
| Dart.Dev.UnmapPage | src/dart.c:715-726 | the tables show the flat map without the page of root 0 that has the low bits, or a null pointer is followed |
| Dart.Dev.Unmap | src/dart.c:728-746 | result and tables of a whole unmap call on any range under any root; under root 0 it succeeds and no byte of the range translates afterwards |
| Dart.Dev.UnmapPages | src/dart.c:738-743 | the tables show the flat map after its loop, or a null pointer is followed |
| Dart.Dev.FreeL2 | src/dart.c:748-774 | exactly an empty table is dropped; under a later root the table of root 0 is freed in use, or a null pointer is followed, exactly as specified |
| Dart.Dev.Translate | src/dart.c:776-814 | null if the page is not mapped; otherwise the page of the result is the one it is mapped to and the offset in the page is that of the address |
| Dart.Dev.Contiguous | src/dart.c:876-883 | decides whether all pages from an address on translate to the physical range |
| Dart.Dev.SearchTable | src/dart.c:869-889 | the least match in one L2 table, if any |
| Dart.Dev.SearchRoot | src/dart.c:864-890 | the least match under one root, if any |
| Dart.Dev.SearchRange | src/dart.c:855-893 | the error value if the request is misaligned, empty or wraps, or if from no page on every byte of the physical range is hit by the byte at the same distance; otherwise the least such page with the window bits |
| Dart.Dev.SearchPages | src/dart.c:859-892 | the least page from which on the translations match page by page, if any |
| Dart.MatchesBytes | src/dart.c:876-883 | a match page by page is a match byte by byte |
| Dart.Dev.FindIova | src/dart.c:895-923 | the error value if no window of null translations lies at or above the start within the 36-bit space above the base, and otherwise the least one, in spite of the skip-ahead |
| Dart.AddrParts | src/dart.c:809-813 | page and offset of a translated address |
| Dart.BytesMapped | src/dart.c:680-708 | every byte of a range that was mapped translates to its own physical byte |
| Dart.BytesUnmapped | src/dart.c:728-746 | no byte of a range under root 0 that was unmapped translates |
| Dart.NullIsVacant | src/dart.c:908-911 | a null translation means an unmapped page or one mapped to physical page 0 |
| Dart.WindowFreeExactly | src/dart.c:908-915 | a window of null translations is unmapped exactly when no page of it is mapped to physical page 0 |
| Dart.FindsMappedPage | src/dart.c:895-923 | a device on which the search yields a page that is mapped |
| Dart.WindowTranslates | src/dart.c:885-886 | with the window bits added an address still translates exactly when bits 36 and 37 of the base are clear or it did not translate anyway |
| Dart.SearchYieldsNull | src/dart.c:884-887 | a Gen3 device on which the address found does not translate |
| Dart.Run | src/dart.c:630-774 | over every run of map, unmap and table-free calls under any root, whatever the allocator grants, results and translations are those of the flat map, up to a call that follows a null pointer or frees a table in use |
| Console.TurnInOrder | src/iodev.c:223-270 | a device's turn keeps its account in order, without duplication, every position taken or counted as lost |
| Console.TurnLosesWhatIsGone | src/iodev.c:236-237 | a ready console loses exactly what has left the history since it was last served and goes on with the oldest byte it does not have |
| Console.ThreeOffers | src/iodev.c:240-267 | two offers cover the history and one the new bytes |
| Console.WillingGetsAll | src/iodev.c:236-267 | a device that takes something of every offer is at the end of the stream after its turn, however the history is cut into blocks |
| Console.CompleteIffNothingLost | src/iodev.c:223-270 | a device has the stream since its rewind in full exactly when nothing was counted as lost |
| Console.BlockIsStream | src/iodev.c:241-246 | a block of the history that does not run over the buffer's end is a stretch of the stream |
| Console.OverlayRetains | src/iodev.c:280-287 | a block written at the write position keeps the buffer the last 8192 bytes of the stream |
| Console.Console.Flush | src/iodev.c:240-252 | the history is offered in stream order, block by block, up to the first offer of which the device takes nothing |
| Console.Console.SendHistory | src/iodev.c:236-267 | the history and then the new bytes are offered in stream order, block by block, up to the first offer of which the device takes nothing |
| Console.Console.SendNew | src/iodev.c:254-267 | the new bytes are offered in stream order up to the first offer of which the device takes nothing |
| Console.Console.Serve | src/iodev.c:224-269 | one device's read position and output are its turn on the stream with its replies |
| Console.Console.Store | src/iodev.c:272-287 | the buffer holds the last 8192 bytes, also after writes longer than the buffer |
| Console.Console.Write | src/iodev.c:199-292 | every device has had exactly its turn and the stream has grown by the data |
| Console.Console.Rewind | src/iodev.c:323-334 | one device's account starts anew at the start of the history, the others are untouched |
| Console.RunsInOrder | src/iodev.c:199-334 | in every run every device gets the stream in order and without duplication between rewinds |
| Console.NothingLostExactly | src/iodev.c:199-334 | since its last rewind a device has lost a byte exactly when its backlog exceeded the history on a turn, or it was no console when there was a byte to get |
| Console.WillingLosesNothing | src/iodev.c:199-334 | over every run a console that never refuses has every byte since the history at its last rewind, and after a write all of the stream |
| Console.RewindReplays | src/iodev.c:323-334 | a rewind and a write to a console that never refuses send exactly the last 8192 bytes of the stream and then the new ones |
| Console.Run | src/iodev.c:199-334 | over every run of writes, rewinds and changes of use, with any replies of the devices, each device's position and output are exactly the account of its turns, and the buffer holds the last 8192 bytes |
| NvmeQueue.PostKeepsHolds | src/nvme.c:186-195 | each slot holds the last completion posted to it with its phase |
| NvmeQueue.PhaseTellsNew | src/nvme.c:300-302 | the entry at the head has the expected phase exactly when it is posted and not consumed, and then it is the next one (section 4.6 of the NVM Express Base Specification 1.4) |
| NvmeQueue.HeadAndPhase | src/nvme.c:317-322 | the head is the number consumed modulo 64 and the phase its parity around the queue |
| NvmeQueue.TimesOutExactly | src/nvme.c:293-329 | the polling loop times out exactly when it never polls, or nothing is pending and the device has nothing to post on any pass |
| NvmeQueue.ReadsAndWrites | src/nvme.c:271-281 | direction, length and both addresses of the DMA descriptor for reads, writes and commands without data |
| NvmeQueue.TakesNext | src/nvme.c:293-329 | the loop takes the first completion not yet consumed, among those posted before and those the device has before the time is up |
| NvmeQueue.ExecExactly | src/nvme.c:253-345 | a command succeeds exactly when that completion exists with its tag and without error; the queue fails exactly when there is none or the tag is wrong |
| NvmeQueue.Queue.constructor | src/nvme.c:174-195 | a new queue has nothing posted, head 0 and phase 1 |
| NvmeQueue.Queue.Post | src/nvme.c:298-302 | the device's side: one completion more, in order |
| NvmeQueue.Queue.Poll | src/nvme.c:295-329 | a pass takes the next posted completion exactly if there is one |
| NvmeQueue.Queue.PostAll | src/nvme.c:298-302 | the device posts what it has, in order, until the queue is full |
| NvmeQueue.Queue.Await | src/nvme.c:293-329 | the loop takes the next completion on the first pass that has one |
| NvmeQueue.Queue.Exec | src/nvme.c:253-345 | a failed queue submits nothing; otherwise one command goes out, the next completion is taken if the device has one in time, the queue fails exactly on timeout or wrong tag, and the outcome is that of the completion; command and DMA descriptor are in the slot as submitted |
| NvmeQueue.AlwaysOrderly | src/nvme.c:253-345 | over every run the i-th command is answered by the i-th completion; after a timeout or a wrong tag no command is ever submitted again and all fail |
| NvmeQueue.Run | src/nvme.c:253-345 | state and outcomes of every run are exactly what the completions of the device say, and orderly |
| NvmeLifecycle.Nvme.Acquire | src/nvme.c:358-445 | which queues an attempt holds at each early exit |
| NvmeLifecycle.Nvme.TakeDrivers | src/nvme.c:447-483 | which drivers it holds at each later exit, adopted or not |
| NvmeLifecycle.Nvme.Start | src/nvme.c:447-543 | the exit, and both queues made known to the controller exactly when its set-up is reached |
| NvmeLifecycle.Nvme.Unwind | src/nvme.c:545-595 | everything is kept and the latch set exactly in an adopted session that reached the controller or when a post-M4 coprocessor still runs; otherwise the halt and everything taken given back in the opposite order |
| NvmeLifecycle.Nvme.GiveAll | src/nvme.c:567-580 | from any label on exactly what was taken before it is given back |
| NvmeLifecycle.Nvme.Init | src/nvme.c:347-596 | result, latch and everything observable of an attempt as specified |
| NvmeLifecycle.Nvme.Shutdown | src/nvme.c:654-727 | result and everything observable of a shutdown as specified; the post-M4 kind gives nothing back |
| NvmeLifecycle.AttemptSafe | src/nvme.c:485-595 | in a post-M4 attempt a queue made known to the controller is given back only after the coprocessor was seen stopped and only if the session was not adopted |
| NvmeLifecycle.AlwaysSafe | src/nvme.c:347-727 | the same over every run of calls |
| NvmeLifecycle.LatchStays | src/nvme.c:349-352 | once the latch is set it stays, nothing is taken or given any more, and every later init and shutdown returns false |
| NvmeLifecycle.InitSucceedsExactly | src/nvme.c:347-543 | an attempt succeeds exactly when every step of it does; an adopted session is asked only for its health |
| NvmeLifecycle.LatchesExactly | src/nvme.c:545-595 | a failed attempt asks for a reboot exactly on the post-M4 kind, when it had reached an adopted session or had a driver of its own and the coprocessor runs; exactly then or on success the queues are kept |
| NvmeLifecycle.AttemptExactly | src/nvme.c:358-595 | what an attempt takes, makes known to the controller and gives back, resource by resource |
| NvmeLifecycle.HaltsFirst | src/nvme.c:545-580 | nothing is given back before the post-M4 coprocessor was seen stopped, or the earlier one that was booted put to sleep |
| NvmeLifecycle.ShutdownExactly | src/nvme.c:654-727 | when a shutdown succeeds, and that the earlier kind sleeps before everything is given back in the opposite order |
| NvmeLifecycle.InitResults | src/nvme.c:347-596 | over every run an init returns true exactly when nothing latched and it is up or every step succeeds |
| NvmeLifecycle.Run | src/nvme.c:347-727 | results, latch and trace of every run are exactly those specified for what the world answers, and on the post-M4 kind the trace is safe |
| PmgrTopology.Find | src/pmgr.c:125-137 | the device with the id, none exactly if no device has it |
| PmgrTopology.ValidateParents | src/pmgr.c:187-205 | decides walkability, and leaves the shared ancestor array as it was below its depth |
| PmgrTopology.ValidateTopology | src/pmgr.c:207-228 | accepts exactly topologies with non-zero unique ids, walkable devices and resolved registers |
| PmgrTopology.NoWayBack | src/pmgr.c:187-205 | from a walkable device no way leads back to it or to its path |
| PmgrTopology.SoundIsAcyclic | src/pmgr.c:207-228 | after validation the graph is acyclic, every ancestor defined and less than 32 steps away |
| PmgrTopology.WalkableExactly | src/pmgr.c:187-205 | the recursive check passes exactly when every ancestor is defined and less than 32 steps away along every way |
| PmgrTopology.SoundExactly | src/pmgr.c:207-228 | validation accepts exactly unique non-zero ids, bounded walks that find every ancestor, and registers for all devices that are not virtual |
| Pmgr.GuardedExactly | src/pmgr.c:161-175 | protected are exactly the registers of guarded devices, on every die |
| Pmgr.Unit.SetMode | src/pmgr.c:95-115 | a protected register is never written, any other gets the target and loses its auto-enable bit, and success is the mode it settles in |
| Pmgr.Unit.SetDevice | src/pmgr.c:230-242 | one device's register on one die is asked for a mode, the request is recorded with the outcome that the register dictates, and exactly a written register loses its auto-enable bit |
| Pmgr.Unit.EnableRecursive | src/pmgr.c:244-283 | only the device and its ancestors are asked, each after all its ancestors got there on the same die in the same walk, and on success all of them are in the mode; on a walkable device it fails only because a register did not follow |
| Pmgr.Unit.EnableParents | src/pmgr.c:265-275 | the same for the loop over the parents |
| Pmgr.Unit.PowerEnable | src/pmgr.c:285-295 | in a validated topology it never fails on a lookup, an address or the depth |
| Pmgr.Unit.SaveParents | src/pmgr.c:323-349 | each register of the device and its ancestors is saved once with its target; in a validated topology only a full snapshot makes it fail |
| Pmgr.Unit.SaveAncestors | src/pmgr.c:323-349 | the same for the loop over the parents |
| Pmgr.Unit.RestoreOne | src/pmgr.c:354-361 | one register has its saved target, and is written only if it was not there |
| Pmgr.Unit.RestoreModes | src/pmgr.c:351-363 | every saved target is back, protected and unsaved registers are untouched, and exactly the registers written lost their auto-enable bit |
| Pmgr.Unit.EnableGates | src/pmgr.c:384-401 | all gates are tried, and each has everything above it switched or a device above it that did not follow; only their unprotected registers change; on success everything above them was switched and is active; on a validated topology it fails exactly when a register did not follow; the registers and the requests are exactly those of the walks in order |
| Pmgr.Unit.SaveGates | src/pmgr.c:371-377 | every register that enabling the gates can write is in the snapshot, and no other; on a validated topology it fails exactly when there are more than 64 |
| Pmgr.Unit.RollBack | src/pmgr.c:378-381 | after gates that failed every target is what it was before the call, and registers that are protected or not in the snapshot are untouched |
| Pmgr.Unit.EnableSaved | src/pmgr.c:365-382 | on failure every register's target is what it was; registers that are protected or not above a gate are untouched; the auto-enable bit is kept exactly by registers that had none or were not written, and lost by all unprotected ones above the gates on success; what changed is in the snapshot; on success every device above a gate was switched and nothing was restored, and otherwise the rollback follows all requests; in a validated topology it fails exactly on a 65th register or one that does not follow; registers, requests and result are exactly those specified; registers are given back only if this call wrote them or they had not come to rest before it, and each before those of its device's ancestors |
| Pmgr.RolledBackAt | src/pmgr.c:351-382 | one register, saved or not, protected or not, through a failed enable and the rollback |
| Pmgr.SaveAllOrder | src/pmgr.c:323-377 | if no two devices share a register, each is saved behind those of its device's ancestors |
| Pmgr.GiveAllBackOrder | src/pmgr.c:351-363 | the snapshot is given back from its end to its start, leaving out what is there already |
| Pmgr.RollbackDescends | src/pmgr.c:351-382 | so each register is given back before those of its device's ancestors |
| Pmgr.EnableNode | src/pmgr.c:207-401 | from validation to a node's gates, on any registers and whatever they settle in: result, registers and requests are exactly those specified; all active and switched or all targets unchanged, each device asked after its ancestors on its die, each gate switched or failed at a device above it, every outcome as the registers dictate, what stays untouched, exactly which auto-enable bits are lost, and exactly when it fails; guarded devices keep their registers on every die; the rollback gives back only what the call wrote or what had not come to rest, each register before those of its device's ancestors |
| Pmgr.FollowersNeverFail | src/pmgr.c:95-115 | no request fails if written registers follow and the protected ones above the gates are active |
| Pmgr.EnableWilling | src/pmgr.c:365-382 | with such registers, in a validated topology, enabling a node fails exactly when its gates have more than 64 registers above them |
| Pmgr.NotCrowded | src/pmgr.c:323-349 | a snapshot that holds every register above the gates shows that there are at most 64 |
| Pmgr.LosesAutoEnable | src/pmgr.c:105-106 | a device whose register loses its auto-enable bit whatever it settles in; the call succeeds exactly when the register follows |
| Pmgr.OneAnswer | src/pmgr.c:230-242 | one device is enabled exactly when its register follows the first request |
| Scanout.TuplesOfFlatten | src/kboot.c:2759-2772 | cutting a joined list of whole specifiers gives them back, so no argument cell is taken for a provider |
| Scanout.FlattenOfTuples | src/kboot.c:2797-2803 | a list that can be cut is the join of whole specifiers |
| Scanout.SpecifierWidth | src/kboot.c:2759-2772 | a specifier is one cell wider than the first node with its phandle says, and when it is turned down |
| Scanout.KeepExactly | src/kboot.c:2820-2833 | what is kept are whole specifiers of other providers, each as often as before |
| Scanout.KeepConcat | src/kboot.c:2820-2833 | keeping looks at one specifier at a time and leaves the order alone |
| Scanout.GoneExactly | src/kboot.c:2797-2803 | withdrawn are exactly the providers that the external list names |
| Scanout.LosesExactly | src/kboot.c:2820-2843 | a master's list changes exactly when it names one of them, and is then the other specifiers |
| Scanout.LosersCount | src/kboot.c:2834-2839 | the number of changes is the number of masters that name one of them |
| Scanout.RewrittenReadsAsKept | src/kboot.c:2820-2857 | the rewritten list reads back as exactly the kept specifiers |
| Scanout.Fdt.ReadProviders | src/kboot.c:2797-2803 | the external providers, or failure exactly when the list cannot be cut |
| Scanout.Fdt.Retain | src/kboot.c:2820-2833 | the join of the kept specifiers, or failure exactly when the list cannot be cut |
| Scanout.Fdt.CollectEdits | src/kboot.c:2807-2843 | edits that turn every master's list into the kept one; without library failures it fails exactly on an unreadable list or a ninth change |
| Scanout.Fdt.Commit | src/kboot.c:2844-2863 | all edits or none |
| Scanout.Fdt.Withdraw | src/kboot.c:2776-2864 | success rewrites each master's list to the old specifiers minus the external providers' and nothing else; failure changes nothing; success exactly on what the code can handle unless a library call fails |
| Scanout.WithdrawFrom | src/kboot.c:2776-2864 | the same for every tree, as a function of its nodes |
| Handoff.CheckVarAtLine | src/payload.c:190-231 | at a written line the variable found is the one written exactly when name and value are within the limits and the value has no newline |
| Handoff.CheckVarShape | src/payload.c:190-203 | whatever is found as a variable is a line in memory, within the limits |
| Handoff.PayloadsStop | src/payload.c:240-269 | which payload magics stop the scan |
| Handoff.EndsAs | src/payload.c:270-280 | where no payload and no variable is, four zeros end the scan, a SEP firmware is known by its tag, and all else is unknown |
| Handoff.LinesScanBack | src/payload.c:270-275 | written lines scan back to the variables in order and the scan stops at the zeros |
| Handoff.OnlyScannableComeBack | src/payload.c:190-275 | a list that comes back was within the limits and no payload magic stood in the way |
| Handoff.HandoffExact | src/payload.c:190-329 | the scan yields the written list and stops at the zeros exactly when every variable is within the limits without newline in its value and no line looks like another payload |
| Handoff.Measure | src/chainload.c:43-51 | the block size, or failure exactly when a 64-bit sum would overflow |
| Handoff.WriteLines | src/chainload.c:108-116 | image and lines are written one behind the other into zeroed memory |
| Handoff.WriteImage | src/chainload.c:107-116 | image, one line for each variable, and at least four zeros up to a multiple of 16K; refused exactly when the image is empty or the size overflows |
| Handoff.TakeVar | src/payload.c:190-231 | the variable at a place, with exactly its newline overwritten |
| Handoff.Scan | src/payload.c:324-329 | the in-place scan yields what the memory held before it, and leaves each variable found as a C string and everything else as it was |
| Handoff.HandOver | src/chainload.c:43-116 | writing in one stage and scanning in the next, with anything behind the block, gives the same list exactly under the condition of HandoffExact on the memory that the inputs determine |

## Left out

- MMIO, barriers, cache maintenance, interrupts and time: hardware answers are arbitrary inputs, a timeout is the end of a list of polls.
- The 4K-page configuration of `mmu_map` with its L1 blocks, secondary-CPU set-up, switching the MMU off again, and the alias mapping through which live entries are written.
- PageTables.Mmu.Map: requires the range to lie in the 48-bit space, as the source asserts on the way down; where a link is written for a block and its target lies in the heap, nothing is said of the translations.
- PageTables.Run: a run ends with a call with the MMU off that writes a link for a block, after which the tables are no tree any more.
- Allocation failure in `mmu_pt_get_l1/l2/l3`: the source does not check it; a new table is any page not in use.
- A peer of the ring that writes malformed headers, EPIC messages and service matching, and a failing `rtkit_send` after the write pointer is published.
- AfkRing.Ring.Rx: requires data to be ready, which its callers establish at src/afk.c:317 and src/afk.c:464.
- The out-of-memory panics of `iova_free`.
- IovaDomain.Run: a run ends with an accepted reservation whose end wraps around 2^64, and frees only whole pages of one outstanding range at a time; IovaList.ReserveExact and IovaList.FreeGoodExactly say what other calls do.
- `iovad_shutdown` beyond `dart_free_l2`.
- What a DART does after a null pointer was followed or a table freed in use: a run ends there.
- Dart.Dev.FindIova: requires that none of the sums it computes of base, window, address and length leaves 64 bits; beyond that the loop of the source starts again at low addresses and need not end.
- `dart_search`, `dart_setup_pt_region`, stream set-up and TLB invalidation of the DART.
- The console's bypass for secondary CPUs and nested calls, its lock, and wrap-around of the 64-bit stream positions.
- In the NVMe lifecycle the outcome of the admin commands is an input; NvmeQueue says what a command does.
- The earlier NVMe kind's memory safety: the results of sleep and reset are ignored by the source, so nothing is claimed.
- Powering down (mode 0, children first), and hardware that changes a register nobody wrote; a register write leaves all other registers alone.
- The ADT and FDT libraries: a tree is a list of nodes with the properties in question, and library failures are arbitrary.
- Payloads other than variables (the scan stops there), what `check_var` does with each name, and images that carry payloads of their own before the variables.
- The rest of `chainload_image` (placement of the firmware block, the stub); memory behind the written block is arbitrary.
- Decompression, display, GPU, USB, PCIe, SMP and the per-chip tables.
