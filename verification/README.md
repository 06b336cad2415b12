# The kernel memory stack and the uACPI engines, in Dafny

This project models the memory management of the kernel and the self-contained
algorithms of its ACPI interpreter, and proves what they promise. Verify it with
`dafny verify dfyconfig.toml` (Dafny 4.11).

The imperative C code stays imperative: bitmaps, page tables, the slot bitmap and the
mapping records, the heap's pool of bytes, object stores, digit buffers and field
regions are classes or arrays that methods update in place. Each such method is proved
against a specification on values (the list of heap blocks, the leaf words of the page
tables, the sequence behind a two-part array, the bits of a buffer), and the lemmas say
what those specifications are worth over whole runs. Protocols between threads or
machines are state machines, one step for each access to shared state.

## How the pieces fit

* `Machine`, `Words`, `Bitmaps`: 64-bit words, little-endian bytes and the zero-padding
  copy, byte-packed bit arrays.
* `Pmm`: the physical page allocator. Its state is a sequence of booleans seen through
  the bitmap; the free counter is the number of clear bits in every state.
* `PageTables`: the hardware walk of four-level paging with 4 KiB and 2 MiB leaves
  (Intel SDM Volume 3A, section 4.5) as a pure function of physical memory, and the claim that
  the tables form a tree: an injective placement of tree nodes on pages. On a tree the
  walk equals one lookup by page number.
* `Vmm`: the editor of those tables. A table taken from the page allocator is free, tables
  in the tree are used, so a new table is never one already in the tree; mapping
  and unmapping are then the update and removal of one key, exactly for the addresses
  above the boot gigabyte.
* `AcpiWindow`: the window allocator above both. In every state the used slots are the
  disjoint union of the records' intervals, free slots have no leaf and used ones have the
  leaf of the record's request. `AcpiWindow.Startup` builds this from the
  multiboot memory map, and `AcpiWindow.Run` keeps it over any sequence of calls.
* `HeapBlocks`, `Heap`, `HeapRuns`, `HeapClient`: the first-fit heap, whose headers live as
  bytes in the very pool they describe and tile it exactly in every state; the block list it
  represents; its fragmentation over whole runs; and the heap as its callers see it, a map
  from live pointers to independent byte strings.
* `ObjectRefs`: the weighted reference counts of reference chains. In every state each live
  object's count is its outside handles plus the counts of the reference objects pointing at
  it. The proof moves a debt along the chain: while a walk is under way exactly one object is
  off balance.
* `GlobalLock`, `RwLock`: the firmware lock as an interleaving of OS, firmware and SCI
  handler steps, and the reader/writer lock with any number of threads; safety over every
  run, and what each party can still reach from there.
* `Namespace`, `NamespaceLinks`, `NamespaceWalk`, `NamespaceStops`, `NamespacePath`,
  `NamespaceScopes`: the pointer-linked tree and its shape, relinking, the iterative walk and
  how its callbacks end it, names, paths and lookup, and what relative paths find.
* `HeldMutexes`: the held-mutex array with its inline and dynamic parts, and the Acquire
  and Release operators.
* `IntStrings`: the integer formatter, the integer parser and the conversions between
  them.
* `BitSpans`, `FieldUnits`: copying of bit spans at any misalignment, buffer fields, and
  field units over a plain memory region (Field operator, section 19.6 of ACPI 6.5).

## What the proofs found

* `entry_table` never looks at the PS bit, so in the first GiB it takes a 2 MiB leaf for a
  table (`Vmm.LeafMistakenForTable`). There `map_page` and `unmap_page` store into the first
  page under that leaf, which may be data or even a live table, and the translation they
  were asked for does not come about; at the leaf of address 0, which reads as NULL,
  `unmap_page` does nothing and `map_page`, with a page below 8 MiB free, replaces the whole
  2 MiB leaf by a table with one page. An accepted call updates or removes exactly one
  translation and keeps other used memory if and only if its address is outside the first
  GiB and, for `map_page`, no more tables are missing on its way than pages below 8 MiB are
  free before the call (`Vmm.Editor.MapPage`, `Vmm.Editor.UnmapPage`). The ACPI code never
  passes others.
* `canonical_address` looks only at bits 63:48. It accepts, beside the canonical addresses,
  exactly those whose bit 47 differs from the equal bits above it
  (`PageTables.CanonicalGap`). Leaves are therefore keyed by bits 47:12 of the address.
* A `map_page` that fails for want of pages changes no translation, but it leaves empty
  tables hooked into the tree, and uses up every page below 8 MiB, exactly when one was free
  before it (`Vmm.Editor.MapPage`).
* `mapping_was_installed` does not test the present bit. For the non-zero physical
  addresses it is called with it answers exactly whether the page is present and maps there.
* A shrinking `realloc` that cuts a tail off in front of a free block leaves two free
  neighbours, and no other operation does (`HeapRuns.StepKeepsNoNeighbours`). A request can
  then be refused although a gap between live blocks holds it (`HeapRuns.ShrinkThenRefuse` is
  such a run). In every state that happens if and only if first fit fails on the chain and
  would succeed on the chain swept by `coalesce_all` (`HeapRuns.RefusedExactly`,
  `HeapClient.Client.Malloc`); never, in particular, when no shrink has cut in front of a free
  block since the last `free` that released a block.
* The interpreter looks a new name up before it evaluates the operands and installs the node
  afterwards without looking again. A name installed in between gives two siblings of one
  name (`NamespaceLinks.NestedCreation`); an installation keeps names distinct if and only if
  the name is still free (`NamespaceLinks.InstallNames`).
* `uacpi_namespace_node_resolve` takes a NULL parent for the root, but its search above goes
  through that NULL parent. `uacpi_namespace_node_resolve_from_aml_namepath` passes its scope
  on as it is, so an empty namespace, no scope and one name are enough
  (`NamespacePath.NullScope`). It happens if and only if the search was asked for without a
  parent and the path is a single segment without prefix that the root has no child for
  (`NamespacePath.NullReadExactly`).
* In the namespace walk the flag `matches` keeps its value when a node has no object, because
  `uacpi_namespace_node_is_one_of` returns an error without writing it and the walk does not
  look at that error. A node without an object is then treated like the node before it. That
  causes a call that does not match (`NamespaceWalk.StaleVisit`), and it causes matching nodes
  to be missed when the stale flag makes the walk prune (`NamespaceWalk.MissedVisit`). The
  calls are exactly the filtered tour if and only if no node without an object is met with
  the flag set where there is a callback to call or, for a temporary node that the walk must
  skip, where there are calls to make below it (`NamespaceWalk.WalkIsTourExactly`); the flag
  is set there exactly when a typed node that matches comes before with nothing but
  objectless nodes in between (`NamespaceWalk.LitFromMatch`). On trees whose nodes all have
  objects the walk is the filtered tour.
* Zero-padded text does not always parse back: the parser takes leading zeros for an octal
  prefix, so a decimal number of 8 or more and any hexadecimal one are read wrongly or
  refused. `IntStrings.FormatRoundTrip` has the exact condition.
* The parser reports success for every text that is a 64-bit number but for its last
  character, whether that is of no use or makes the number overflow, and for no other text
  that is not one (`IntStrings.AcceptsExactly`, and `IntStrings.AcceptsBadLast` for a concrete
  text). A string too long for 64 bits yields 2^64-1. With a minus sign the saturated value
  wraps to 1 (`IntStrings.LongDigitsSaturate`).

## Model

| member | source | states |
|---|---|---|
| Bitmaps.SetBit | kernel/mm/pmm.c:22-25 | sets one bit and no other |
| Bitmaps.ClearBit | kernel/mm/pmm.c:31-34 | clears one bit and no other |
| Bitmaps.TestBit | kernel/mm/pmm.c:40-43 | reads exactly the bit of that page |
| Bitmaps.CountAfterUpdate | kernel/mm/pmm.c:86-100 | changing one bit changes the number of clear bits by what it must |
| Pmm.RegionPages | kernel/mm/pmm.c:66-135 | an added region covers exactly the whole pages inside it, a reserved one exactly the pages it touches, when the rounding does not wrap |
| Pmm.Allocator.constructor | kernel/mm/pmm.c:51-60 | at first every page is used and the counter is zero |
| Pmm.Allocator.AddRegion | kernel/mm/pmm.c:66-101 | exactly the region's pages become free; the counter stays the number of clear bits |
| Pmm.Allocator.ReserveRegion | kernel/mm/pmm.c:107-135 | exactly the region's pages become used; the counter does not underflow |
| Pmm.Allocator.AllocPage | kernel/mm/pmm.c:143-163 | the lowest free page, never page 0; fails only when no other page below 64 GiB is free |
| Pmm.Allocator.AllocPageLow | kernel/mm/pmm.c:216-232 | the lowest free page below page 2048, never page 0; it fails exactly when no such page is left, and else leaves one fewer |
| Pmm.Allocator.AllocBelow | kernel/mm/pmm.c:143-163 | the lowest free page below the limit, and the counter one less |
| Pmm.Allocator.FreePage | kernel/mm/pmm.c:169-192 | frees that page, ignoring misaligned and out-of-range addresses and pages already free |
| Pmm.Boot | kernel/main.c:85-127 | after the boot-time adds and the kernel reservation the free pages are exactly those some available entry frees, below 64 GiB and not touching the kernel image; an entry frees the whole pages inside it, or what its wrapped bounds enclose |
| PageTables.TableEntryFields | kernel/mm/vmm.c:54-58 | a table entry is present, not a large page and points at its table |
| PageTables.BootLeafFields | kernel/mm/vmm.c:127-132 | a boot entry is a present 2 MiB leaf for its identity address |
| PageTables.LeafEntry | kernel/mm/vmm.c:167-168 | a leaf entry is present, keeps the caller's flags and points at the physical page |
| PageTables.SameIndices | kernel/mm/vmm.c:157-160 | two addresses share all four indices exactly when they agree on bits 47:12 |
| PageTables.CanonicalGap | kernel/mm/vmm.c:26-30 | the check accepts the canonical addresses and exactly those whose bit 47 differs from the equal bits above it |
| PageTables.VpnFromIndices | kernel/mm/vmm.c:157-160 | the four indices are the digits of bits 47:12 |
| PageTables.LookupOnTree | kernel/mm/vmm.c:109-196 | on a tree of tables the four-level hardware walk is one leaf lookup |
| PageTables.WalkOnTree | kernel/mm/vmm.c:109-196 | translation on a tree: identity in the boot gigabyte, elsewhere the leaf word of the page |
| PageTables.UniqueParent | kernel/mm/vmm.c:76-87 | every table page but the root has exactly one parent entry |
| PageTables.HookKeepsTree | kernel/mm/vmm.c:76-87 | a free page hooked into an empty slot leaves a tree |
| PageTables.HookKeepsLeaves | kernel/mm/vmm.c:76-87 | hooking in an empty table changes no leaf |
| PageTables.SetLeaf | kernel/mm/vmm.c:167-168 | storing one leaf word changes the leaf of that page alone, for every address |
| PageTables.BootPagesShareLeaves | kernel/mm/vmm.c:127-132 | no memory differs from that of a valid state by the translation of one 4 KiB page of the boot gigabyte alone |
| PageTables.SplitEffect | kernel/mm/vmm.c:76-87 | a table hooked in place of the first boot leaf takes the first 2 MiB away but for one page and leaves all other walks |
| Vmm.LeafMistakenForTable | kernel/mm/vmm.c:47-52 | any present, low, non-null entry is taken for a table, and where the MMU follows it to a 2 MiB leaf exactly when its PS bit is set |
| Vmm.BootTree | kernel/mm/vmm.c:109-137 | the static tables form a tree |
| Vmm.BootWalk | kernel/mm/vmm.c:109-137 | with only them the walk is the identity on the first GiB and nothing elsewhere |
| Vmm.OutsideTree | kernel/mm/vmm.c:60-74 | writing a page outside the tree changes no leaf |
| Vmm.SlotRead | kernel/mm/vmm.c:47-52 | in every slot of the tree `entry_table` finds the child the tree has, and in a boot leaf the first page it maps |
| Vmm.BootPathRead | kernel/mm/vmm.c:157-165 | in the first GiB the three reads lead through the boot tables to the first page under the 2 MiB leaf, or NULL at address 0 |
| Vmm.HookEffect | kernel/mm/vmm.c:76-87 | hooking grows the tree by one free page and keeps every leaf |
| Vmm.Editor.constructor | kernel/mm/vmm.c:15-19 | the state before paging is set up |
| Vmm.Editor.PagingInit | kernel/mm/vmm.c:109-137 | afterwards the walk is exactly the identity on the first GiB; a second call changes nothing |
| Vmm.Editor.AllocateTable | kernel/mm/vmm.c:60-74 | a zeroed page that was free and low enough to be addressed, with one fewer left; null exactly when none was |
| Vmm.Editor.HookNewTable | kernel/mm/vmm.c:76-87 | the new table becomes a child and the tree stays one, for one page; in the slot of a boot leaf it replaces that leaf; null exactly without a low page |
| Vmm.Editor.NextTable | kernel/mm/vmm.c:76-87 | the child table, made for one page when missing; outside the boot directory no leaf changes; null exactly when it is missing and no low page is left |
| Vmm.Editor.TablePath | kernel/mm/vmm.c:157-165 | the last-level table of an address, for as many pages as tables were missing; null exactly when fewer are left, with every leaf unchanged and tables left behind exactly when there was a page for one; in the first GiB the page under the boot leaf |
| Vmm.Editor.WriteLeaf | kernel/mm/vmm.c:167-169 | on a table of the tree one key of the leaf map is set; on a page outside it no leaf changes |
| Vmm.Editor.MapPage | kernel/mm/vmm.c:139-170 | for every address: sets one key, or refuses and changes nothing, or lacks pages and changes no leaf, each decided by the state before; in the first GiB the stray store or the split leaf; a one-key update that keeps used memory if and only if the address is outside the first GiB and at least as many low pages are free as tables are missing |
| Vmm.Editor.UnmapPage | kernel/mm/vmm.c:172-196 | for every address: removes one key and no other; in the first GiB a stray store or nothing; a one-key removal that keeps used memory if and only if the address is outside the first GiB |
| Vmm.Editor.GetPageTable | kernel/mm/vmm.c:198-214 | the table the tree places there, or null; in the first GiB the page under the boot leaf |
| Vmm.Editor.WalkIsLeaf | kernel/mm/vmm.c:109-196 | in every state the hardware walk is the leaf map |
| AcpiWindow.Window.ReserveSlots | kernel/acpi/kernel_apis.c:40-64 | the first run of free slots long enough; fails only when there is none |
| AcpiWindow.Window.ReleaseSlots | kernel/acpi/kernel_apis.c:66-76 | frees exactly that run, or nothing when it leaves the window |
| AcpiWindow.Window.ReserveMappingRecord | kernel/acpi/kernel_apis.c:78-88 | the first unused record, or none when all 256 are in use |
| AcpiWindow.Window.FindMapping | kernel/acpi/kernel_apis.c:90-102 | a record with that base and size, or none when there is none |
| AcpiWindow.Window.MappingWasInstalled | kernel/acpi/kernel_apis.c:104-117 | for a non-zero physical address outside the first GiB: true exactly when the page is present and maps there, though the present bit is not tested; the answer for all other addresses |
| AcpiWindow.OpenRecord | kernel/acpi/kernel_apis.c:150-177 | a new record over free slots keeps used slots the disjoint union of the records |
| AcpiWindow.CloseRecord | kernel/acpi/kernel_apis.c:218-228 | closing a record keeps it too |
| AcpiWindow.Window.constructor | kernel/acpi/kernel_apis.c:10-23 | the empty window is valid |
| AcpiWindow.Window.MapPages | kernel/acpi/kernel_apis.c:155-172 | maps every page of the run, or leaves every leaf as it was; it succeeds exactly when the addresses fit in 52 bits and enough low pages are free for the tables the run lacks |
| AcpiWindow.RunStep | kernel/mm/vmm.c:76-87 | the tables a run of slots lacks are those a shorter run lacks and those its next slot still lacks then |
| AcpiWindow.OnlyRun | kernel/acpi/kernel_apis.c:40-64 | the first run of free slots is the only candidate, so its missing tables decide |
| AcpiWindow.Window.Rollback | kernel/acpi/kernel_apis.c:164-168 | removes the pages mapped so far and nothing else |
| AcpiWindow.Window.MapRun | kernel/acpi/kernel_apis.c:150-172 | a record, a run of slots and its translations together, or none of them |
| AcpiWindow.PageCount | kernel/acpi/kernel_apis.c:138-148 | nothing if and only if offset plus length plus 4095 leaves 64 bits; else the least number of pages that holds the bytes |
| AcpiWindow.Window.RefusedMeans | kernel/acpi/kernel_apis.c:138-152 | outside the identity map a request is refused if and only if its length wraps or exceeds 16384 pages, or the pages it spans cannot be mapped |
| AcpiWindow.Window.CannotMapMeans | kernel/acpi/kernel_apis.c:150-172 | pages cannot be mapped if and only if all 256 records are live, no stretch of the window that long is clear of all live mappings, the physical range passes 2^52, or the first such stretch lacks more tables than there are low pages |
| AcpiWindow.Window.KernelMap | kernel/acpi/kernel_apis.c:119-179 | success: every byte asked for translates, through a record of the least number of pages that holds them, and no other live mapping changes; failure: slots, records and translations as before; and which of the two, from the state before the call: below 1 GiB never a failure, beyond it for the length alone exactly when rounding it wraps or takes more than 16384 pages, and else exactly when that number of pages cannot be mapped |
| AcpiWindow.Window.KernelUnmap | kernel/acpi/kernel_apis.c:184-229 | closes the record whose base is the address rounded down to 4096 and whose page count is the least that holds the bytes, if there is one, and changes nothing if there is none |
| AcpiWindow.Window.UnmapPages | kernel/acpi/kernel_apis.c:223-224 | removes the leaves of that run alone |
| AcpiWindow.Window.LiveHonoured | kernel/acpi/kernel_apis.c:119-229 | in every state each live mapping translates va+i to addr+i for all i below len |
| AcpiWindow.Window.IdentityHonoured | kernel/acpi/kernel_apis.c:134-136 | so do the addresses handed out without a window |
| AcpiWindow.Window.BaseNotZero | kernel/acpi/kernel_apis.c:134-163 | the installation test is only used for non-zero physical pages |
| AcpiWindow.Window.MapThenUnmap | kernel/acpi/kernel_apis.c:119-229 | mapping and unmapping is the identity on slots, records and translations |
| AcpiWindow.Run | kernel/acpi/kernel_apis.c:119-229 | after any sequence of map and unmap calls every live mapping translates |
| AcpiWindow.Startup | kernel/main.c:85-127 | from the memory map: page allocator, reserved kernel image, boot tables and window together reach the invariant |
| Heap.AlignSize | kernel/lib/std/stdlib.c:19-27 | the next multiple of 8, zero for zero and for sizes that would wrap |
| Heap.Allocator.constructor | kernel/lib/std/stdlib.c:8-14 | the unused heap |
| Heap.Allocator.AllocatorInit | kernel/lib/std/stdlib.c:29-39 | the pool becomes one free block, once |
| Heap.Allocator.SplitBlock | kernel/lib/std/stdlib.c:41-56 | the block keeps at least the size and less than 32 bytes more, and what is cut off becomes a free block; live payloads keep their bytes |
| Heap.Allocator.CoalesceAll | kernel/lib/std/stdlib.c:62-73 | every run of free blocks becomes one; live payloads keep their bytes |
| HeapBlocks.CoalescedHasNoNeighbours | kernel/lib/std/stdlib.c:62-73 | after it no two adjacent blocks are free |
| HeapBlocks.CoalescedKeepsLive | kernel/lib/std/stdlib.c:62-73 | the live blocks are the same before and after |
| HeapBlocks.NoGapFits | kernel/lib/std/stdlib.c:87-97 | without free neighbours, when no free block is large enough no gap between live blocks can hold a header and the size |
| HeapBlocks.CoalescedTiles | kernel/lib/std/stdlib.c:62-73 | the sweep keeps the tiling |
| HeapBlocks.SweptIsFixed | kernel/lib/std/stdlib.c:62-73 | it leaves a chain alone if and only if no two neighbours are free |
| Heap.Allocator.Malloc | kernel/lib/std/stdlib.c:75-98 | first fit, a block of at least the aligned size and less than 32 bytes more; null exactly when the size is unusable or nothing fits, and then no gap is large enough unless free blocks are adjacent; other payloads keep their bytes |
| Heap.Allocator.Free | kernel/lib/std/stdlib.c:104-121 | releases one block and merges; null, free blocks and headers that still read free are left alone, so that freeing twice is without effect; other payloads keep their bytes |
| HeapBlocks.DeadKept | kernel/lib/std/stdlib.c:62-73 | merging leaves the headers it swallows reading free |
| Heap.Allocator.Realloc | kernel/lib/std/stdlib.c:123-182 | null and nothing lost, or room for the new size holding the first min(old, new) bytes, in place or at the first fit; as malloc for null and as free for size 0 |
| Heap.Allocator.Resize | kernel/lib/std/stdlib.c:138-181 | shrinking, absorbing and moving refine one function on the block list |
| Heap.Allocator.Calloc | kernel/lib/std/stdlib.c:184-208 | as malloc of the product, refusing products that wrap; the memory is zero |
| Heap.Allocator.PoolLayout | kernel/lib/std/stdlib.c:29-121 | headers and sizes sum to the pool, payloads are aligned and blocks disjoint |
| HeapBlocks.ExactTiling | kernel/lib/std/stdlib.c:29-121 | the chain of headers tiles its extent exactly |
| HeapBlocks.ReplaceTiles | kernel/lib/std/stdlib.c:41-182 | replacing blocks by blocks of the same extent keeps the tiling |
| HeapRuns.ReleaseLeavesNoNeighbours | kernel/lib/std/stdlib.c:104-121 | a free that releases a block leaves no adjacent free blocks |
| HeapRuns.AllocationKeepsNoNeighbours | kernel/lib/std/stdlib.c:75-98 | an allocation creates none |
| HeapRuns.GrowthKeepsNoNeighbours | kernel/lib/std/stdlib.c:155-181 | a growing realloc creates none, in place or moving |
| HeapRuns.ShrinkNeighbours | kernel/lib/std/stdlib.c:150-153 | a shrinking realloc leaves none exactly when it does not split in front of a free block |
| HeapRuns.StepKeepsNoNeighbours | kernel/lib/std/stdlib.c:75-208 | one operation on a chain without free neighbours leaves free neighbours if and only if it is a shrink that cuts in front of a free block |
| HeapRuns.RunLeavesNoNeighbours | kernel/lib/std/stdlib.c:75-208 | over any run there are no free neighbours as long as no shrink has cut in front of a free block since the last free that released a block, or the start |
| HeapRuns.SweptWithoutResize | kernel/lib/std/stdlib.c:75-121 | runs without realloc are such runs |
| HeapRuns.RoomExactly | kernel/lib/std/stdlib.c:62-98 | on every chain a gap holds a header and the size if and only if first fit succeeds on the swept chain |
| HeapRuns.RefusedExactly | kernel/lib/std/stdlib.c:87-97 | a request is refused although a gap holds it if and only if first fit fails and would succeed after a sweep; never without free neighbours |
| HeapRuns.ShrinkThenRefuse | kernel/lib/std/stdlib.c:150-153 | a run of malloc and shrinking realloc that leaves free neighbours, and a request refused although a gap holds it, which a sweep would have met |
| HeapClient.Client.Malloc | kernel/lib/std/stdlib.c:75-98 | null exactly when the size is unusable or no free block has room; refused although a gap holds it exactly when a sweep before the scan would have met it; else a byte string under a pointer nobody held. Over the strings alone: where a stretch of the pool clear of them holds it, it is met, unless the chain is fragmented after a cut |
| HeapClient.Client.Calloc | kernel/lib/std/stdlib.c:184-208 | the same for the product, and all zeros |
| HeapClient.Client.Realloc | kernel/lib/std/stdlib.c:123-182 | null exactly when the size is unusable or neither the block, its free neighbour nor another block has room, with all byte strings intact; else that byte string cut or extended under its new pointer and all others intact; in place when it does not grow or the space behind is clear of strings, and met when a clear stretch holds it, unless free blocks are neighbours |
| HeapClient.Client.Free | kernel/lib/std/stdlib.c:104-121 | that byte string is gone and all others intact |
| HeapClient.Client.Write | kernel/lib/std/stdlib.c:29-121 | an owner's store changes its own byte string and no header or other string |
| HeapClient.Client.Apart | kernel/lib/std/stdlib.c:29-121 | live byte strings are at least a header apart |
| HeapClient.Client.TightBlocks | kernel/lib/std/stdlib.c:41-182 | in every state the block behind a string has its length rounded up to 8, and less than 32 bytes more |
| HeapClient.Client.VacantIsRoom | kernel/lib/std/stdlib.c:29-182 | in every state a stretch of the pool clear of the strings lies in a gap between live blocks |
| HeapClient.Client.NothingHeld | kernel/lib/std/stdlib.c:29-121 | with no string held and no free neighbours the pool is one free block again |
| HeapClient.Client.GrowsInPlace | kernel/lib/std/stdlib.c:155-166 | a realloc stays in place when the pool behind the pointer is clear of other strings as far as it goes |
| HeapClient.Client.StaysInPlace | kernel/lib/std/stdlib.c:150-153 | and when it asks for no more than there was |
| HeapClient.Client.Placed | kernel/lib/std/stdlib.c:29-121 | each is aligned, behind its header and inside the pool |
| HeapClient.Client.FitsExactly | kernel/lib/std/stdlib.c:75-208 | in every state a request that some gap has room for is refused exactly when the chain is fragmented, which without a recent cut it is not |
| HeapClient.Client.AlwaysFaithful | kernel/lib/std/stdlib.c:29-182 | in every state every live pointer reads as its owner left it |
| HeapClient.Client.AlwaysSeparate | kernel/lib/std/stdlib.c:29-182 | and every live byte string is aligned and inside the pool, and any two are apart |
| HeapClient.Run | kernel/lib/std/stdlib.c:29-208 | over any run of the operations on live pointers all of this holds, and no free blocks are neighbours unless a shrink has cut since the last sweep; with nothing held the whole pool is then one free block |
| ObjectRefs.Store.BuggedShareable | external/uacpi/source/shareable.c:15-23 | a count of zero is frozen and reported, others untouched |
| ObjectRefs.Store.ShareableRef | external/uacpi/source/shareable.c:31-39 | one more and the count before returned, or the bugged marker for a count of zero or one already marked |
| ObjectRefs.Store.ShareableUnref | external/uacpi/source/shareable.c:41-49 | one less and the count before returned, or the bugged marker likewise |
| ObjectRefs.Store.ObjectRef | external/uacpi/source/types.c:734-744 | one handle more on the object, one count more on every object of its chain |
| ObjectRefs.Store.FreeChain | external/uacpi/source/types.c:746-760 | frees exactly the live objects whose count is zero |
| ObjectRefs.Store.DropCounts | external/uacpi/source/types.c:762-777 | one count less on every object of the chain, the books balanced |
| ObjectRefs.Store.ObjectUnref | external/uacpi/source/types.c:762-784 | one handle less, and exactly the chain objects that reach zero are freed, a prefix of the chain |
| ObjectRefs.Store.CreateObject | external/uacpi/source/types.c:327-349 | a new object with count one and one handle, or nothing without memory |
| ObjectRefs.Store.AttachChild | external/uacpi/source/types.c:950-964 | the child's chain gains the parent's count, and the books balance without an extra handle |
| ObjectRefs.Store.DetachChild | external/uacpi/source/types.c:966-980 | the chain loses the parent's count, and what reaches zero is freed, a prefix of the chain |
| ObjectRefs.Store.CreateInternalReference | external/uacpi/source/types.c:1471-1484 | a reference to the child with one handle of its own |
| ObjectRefs.MoveDebt | external/uacpi/source/types.c:734-784 | adjusting the object the walk is at moves the imbalance to the next one |
| ObjectRefs.CountsGrow | external/uacpi/source/types.c:734-784 | counts never go down along a chain |
| ObjectRefs.FreedIsPrefix | external/uacpi/source/types.c:746-784 | what a release of any number of counts frees is a prefix of the chain |
| ObjectRefs.LowCountsFirst | external/uacpi/source/types.c:746-784 | the objects of a chain with at most d counts come before all others |
| ObjectRefs.Link | external/uacpi/source/types.c:950-964 | a new link keeps chains acyclic and leaves exactly the parent's count owed |
| ObjectRefs.Unlink | external/uacpi/source/types.c:966-980 | removing one leaves exactly that surplus |
| ObjectRefs.ZerosOnChain | external/uacpi/source/types.c:762-784 | counts reach zero only on the chain, and only if the first one does |
| ObjectRefs.NoLeak | external/uacpi/source/types.c:734-980 | once no handle is held on a live object, no object is live |
| ObjectRefs.Run | external/uacpi/source/types.c:734-980 | over any run of creating, referencing, unreferencing, attaching and detaching the counts balance, and once all handles are given up nothing is live |
| GlobalLock.WordFacts | external/uacpi/source/mutex.c:21-54 | acquiring owns and marks pending exactly when it was owned; releasing clears both; other bits stay |
| GlobalLock.InvOnRuns | external/uacpi/source/mutex.c:21-117 | the invariant holds in every interleaving, and the other bits of the lock word never change |
| GlobalLock.MutualExclusion | external/uacpi/source/mutex.c:21-117 | OS and firmware never both own the lock |
| GlobalLock.NoLostWakeup | external/uacpi/source/mutex.c:56-117 | while the OS waits, the firmware owns the lock with pending set, or a notification is in flight, or the event is signalled |
| GlobalLock.RescueStep | external/uacpi/source/mutex.c:56-104 | from every waiting state some step brings the wake-up closer |
| GlobalLock.WaitCanEnd | external/uacpi/source/mutex.c:56-104 | so from every reachable waiting state the wait can end |
| GlobalLock.SciKeepsInv | external/uacpi/source/event.c:2136-2161 | the release handler's steps keep the invariant |
| GlobalLock.NoSpuriousEvents | external/uacpi/source/event.c:2136-2161 | at most one event is pending at any time, and only for a waiter |
| GlobalLock.AttemptsAreRefusals | external/uacpi/source/mutex.c:56-91 | over every interleaving the attempt counter of an acquire is the number of exchanges of that acquire that found the lock owned, and stays below 65535 up to the last |
| GlobalLock.GivesUpAtLast | external/uacpi/source/mutex.c:79-98 | the OS gives up only after 65535 attempts of that acquire found the lock owned |
| GlobalLock.OwnedThenWaits | external/uacpi/source/mutex.c:73-89 | an earlier attempt that finds it owned goes on to the wait, with the flag and the pending bit set |
| GlobalLock.AWait | external/uacpi/source/mutex.c:56-89 | a run from the start that does wait |
| GlobalLock.AskingCanOwn | external/uacpi/source/mutex.c:65-94 | an OS that asks for the lock and was not refused since can come to own it |
| GlobalLock.WaitCanOwn | external/uacpi/source/mutex.c:65-94 | from every reachable wait some continuation ends with the OS owning the lock |
| RwLock.StepKeepsInv | external/uacpi/source/mutex.c:354-395 | every step of every thread keeps the invariant |
| RwLock.InvOnRuns | external/uacpi/source/mutex.c:354-395 | so does every run |
| RwLock.CountAfterStep | external/uacpi/source/mutex.c:354-385 | the number of counted readers follows one thread's step |
| RwLock.Exclusion | external/uacpi/source/mutex.c:354-395 | never a writer together with a reader or another writer |
| RwLock.CounterIsExact | external/uacpi/source/mutex.c:354-385 | with `read_mutex` free, `num_readers` is the number of readers inside, positive exactly when the group holds `write_mutex` |
| RwLock.WriterEntersExactly | external/uacpi/source/mutex.c:387-390 | a waiting writer gets in at its next step if and only if no reader and no writer is inside and no last reader has still to let go |
| RwLock.ReaderEntersExactly | external/uacpi/source/mutex.c:354-370 | a waiting reader gets in by its own steps if and only if no thread is in a section of `read_mutex` and no writer is inside |
| RwLock.AllCanLeave | external/uacpi/source/mutex.c:354-395 | no deadlock: from every reachable state all threads can leave, without a host error |
| RwLock.EveryoneCanEnter | external/uacpi/source/mutex.c:354-395 | after every run any one thread can still come to hold the lock, as a writer or as a reader |
| Namespace.LinkedUnique | external/uacpi/source/namespace.c:299-326 | the links determine the shape |
| Namespace.MemberLinked | external/uacpi/source/namespace.c:299-326 | every node's child list is well linked, and only the root lacks a parent |
| NamespaceLinks.NamespaceTree.Install | external/uacpi/source/namespace.c:299-326 | the node becomes the last child, everything else stays, and the result is a tree without sharing; dangling nodes are refused |
| NamespaceLinks.NamespaceTree.Uninstall | external/uacpi/source/namespace.c:349-444 | exactly that node leaves the tree, unless it has children, is dangling or is not linked; the result is a tree |
| NamespaceLinks.NamespaceTree.HookLast | external/uacpi/source/namespace.c:313-324 | the pointer updates append to a well-linked list |
| NamespaceLinks.NamespaceTree.UnhookPeer | external/uacpi/source/namespace.c:421-438 | the pointer update drops one peer of a well-linked list |
| NamespaceLinks.NamespaceTree.Reserve | external/uacpi/source/interpreter.c:586-606 | the lookup before the operands: refused exactly when a sibling has the name, else a node with its parent in no list |
| NamespaceLinks.NamespaceTree.InstallReserved | external/uacpi/source/interpreter.c:640-656 | the installation after the operands: last child, everything else stays, and names stay distinct if and only if the name is still free |
| NamespaceLinks.NamespaceTree.Apply | external/uacpi/source/interpreter.c:586-656 | one step of any interleaving keeps the tree, and keeps names valid and distinct if and only if it is no installation next to a sibling of the same name |
| NamespaceLinks.Relinked | external/uacpi/source/namespace.c:299-444 | replacing one child list keeps the whole a tree with exactly the expected nodes |
| NamespaceLinks.InstallNames | external/uacpi/source/namespace.c:299-326 | names stay valid and distinct if and only if the new siblings lack the name |
| NamespaceLinks.UninstallKeepsNames | external/uacpi/source/namespace.c:349-444 | removal keeps them |
| NamespaceLinks.TidyDistinct | external/uacpi/source/namespace.c:299-444 | no node occurs twice |
| NamespaceLinks.Build | external/uacpi/source/namespace.c:299-444 | over any interleaving of lookups, installations and removals the result is a tree, with valid names distinct among siblings as long as every installation found its name free |
| NamespaceLinks.NestedCreation | external/uacpi/source/interpreter.c:586-656 | the run of a nested creation that gives the root two children of one name |
| NamespaceWalk.VisitNode | external/uacpi/source/namespace.c:869-900 | one visit: type filter, callback and decision, against the step of the recursive walk |
| NamespaceWalk.ForEachChild | external/uacpi/source/namespace.c:834-936 | terminates and equals the recursive walk, for every callback, type mask, depth limit and tree; over the calls and the callbacks alone: only the last call can have been answered Break, or out of range on the way down, and the status is an error exactly in the second case |
| NamespaceWalk.WalkIsTour | external/uacpi/source/namespace.c:834-936 | on trees whose nodes all have objects the calls are the filtered tour |
| NamespaceWalk.WalkIsTourExactly | external/uacpi/source/namespace.c:834-936 | on every tree: the calls are the filtered tour if and only if no node without an object is reached with the flag set where there is a callback to call or, for a skipped temporary node, calls to make below |
| NamespaceWalk.LitFromMatch | external/uacpi/source/namespace.c:869-900 | the flag is set at such a node exactly when a matching typed node comes before it with only objectless nodes in between |
| NamespaceWalk.MissedVisit | external/uacpi/source/namespace.c:869-900 | a tree where the stale flag makes the walk miss a matching node |
| NamespaceWalk.TourOrders | external/uacpi/source/namespace.c:834-936 | descending calls in pre-order, ascending calls in post-order |
| NamespaceWalk.TourStaysInside | external/uacpi/source/namespace.c:834-936 | calls only for nodes of the subtree within the depth limit that pass the filters |
| NamespaceWalk.EachOnce | external/uacpi/source/namespace.c:834-936 | each node at most once in each direction |
| NamespaceWalk.FullWalk | external/uacpi/source/namespace.c:834-936 | without filters and pruning every node is called once in each direction there is a callback for |
| NamespaceWalk.StaleFlag | external/uacpi/source/namespace.c:869-900 | a node without an object is called exactly when the previous node matched |
| NamespaceWalk.CallsMatchExactly | external/uacpi/source/namespace.c:834-936 | every call is for a matching node if and only if the stale flag causes no call |
| NamespaceWalk.StaleVisit | external/uacpi/source/namespace.c:869-900 | a tree where the stale flag causes a call that does not match |
| NamespaceWalk.WalkStopsWhenTold | external/uacpi/source/namespace.c:881-929 | the same of the recursive walk, for callbacks that may answer anything at any time |
| NamespaceStops.UpToMeans | external/uacpi/source/namespace.c:889-929 | the prefix of a tour that ends with the first call whose answer ends the walk |
| NamespaceStops.EndedWalk | external/uacpi/source/namespace.c:834-936 | for callbacks that decide by node and depth, Break included: wherever the walk never ended would be the tour, the calls are that prefix of the tour, and the walk runs through exactly when no answer in the tour ends it |
| NamespaceStops.EndedTour | external/uacpi/source/namespace.c:834-936 | so on trees whose nodes all have objects |
| NamespaceStops.OnceWalk | external/uacpi/source/namespace.c:834-936 | for any callbacks whatever no node is called twice in one direction |
| NamespaceStops.AnyWalk | external/uacpi/source/namespace.c:834-936 | for any callbacks whatever, with a memory too: on such trees the calls are that prefix of the tour decided by the answers given |
| NamespacePath.FindSubNode | external/uacpi/source/namespace.c:446-466 | the first child of that name, or none when none has it |
| NamespacePath.SegmentToName | external/uacpi/source/namespace.c:468-489 | four characters, underscores from the first dot or the end on, and the rest of the text |
| NamespacePath.WholeSegment | external/uacpi/source/namespace.c:468-489 | a name without dots is read whole |
| NamespacePath.ReadPrefix | external/uacpi/source/namespace.c:517-561 | backslash and carets move the start as specified, wrong mixtures are refused |
| NamespacePath.FindAbove | external/uacpi/source/namespace.c:581-589 | the nearest ancestor scope that has the name |
| NamespacePath.NodeResolve | external/uacpi/source/namespace.c:491-621 | lookup equals its specification on every text, start and tree, reading through a NULL parent included |
| NamespacePath.NullReadExactly | external/uacpi/source/namespace.c:577-589 | that happens if and only if the search above is asked for without a parent and the text is one segment without prefix that the root has no child for |
| NamespacePath.NullScope | external/uacpi/source/namespace.c:634-643 | such an input: the empty namespace, no scope and one name |
| NamespacePath.NodeDepth | external/uacpi/source/namespace.c:1015-1025 | the number of nodes on the way to the root |
| NamespacePath.GenerateAbsolutePath | external/uacpi/source/namespace.c:1034-1072 | a buffer of exactly the computed size holding the path and a NUL |
| NamespacePath.WriteBackwards | external/uacpi/source/namespace.c:1057-1071 | writing from the end fills it with no gap and no overrun |
| NamespacePath.DescendFollows | external/uacpi/source/namespace.c:563-593 | a spelt path leads to its node |
| NamespacePath.AbsolutePathResolves | external/uacpi/source/namespace.c:491-621 | resolving a node's absolute path from any start gives that node, or is denied for a temporary one |
| NamespacePath.EveryNodeResolves | external/uacpi/source/namespace.c:491-621 | every node of the tree has such a path |
| NamespacePath.PathRoundTrip | external/uacpi/source/namespace.c:1034-1072 | generating and resolving, end to end through the buffer, from every start, NULL included |
| NamespaceScopes.CaretsClimb | external/uacpi/source/namespace.c:517-561 | a caret moves to the parent, and beyond the root, or before a backslash, it is refused |
| NamespaceScopes.CaretsResolve | external/uacpi/source/namespace.c:517-593 | k carets before a text without prefix resolve as that text from the k-th ancestor with no search above; more carets than ancestors are a bad path |
| NamespaceScopes.RelativePath | external/uacpi/source/namespace.c:491-621 | from any node, carets up to a common ancestor and the names spelt down from there resolve to the node |
| NamespaceScopes.NearestScope | external/uacpi/source/namespace.c:577-589 | a single segment finds the nearest scope, from the start outwards, that has the name |
| NamespaceScopes.NoScope | external/uacpi/source/namespace.c:577-593 | and nothing when no scope has it |
| NamespaceScopes.SearchOnlySingle | external/uacpi/source/namespace.c:577-579 | for every other text the search above changes no answer |
| HeldMutexes.HeldArray.At | external/uacpi/include/uacpi/internal/dynamic_array.h:139-148 | element k of the sequence, or nothing |
| HeldMutexes.HeldArray.Last | external/uacpi/include/uacpi/internal/dynamic_array.h:179-183 | the last element, or nothing when empty |
| HeldMutexes.HeldArray.Pop | external/uacpi/include/uacpi/internal/dynamic_array.h:164-171 | drops the last element |
| HeldMutexes.HeldArray.Push | external/uacpi/source/interpreter.c:113-126 | appends, or without memory changes nothing |
| HeldMutexes.HeldArray.Grow | external/uacpi/include/uacpi/internal/dynamic_array.h:28-78 | more room, the same elements |
| HeldMutexes.HeldArray.RemoveIdx | external/uacpi/source/interpreter.c:128-178 | deletes one element of the sequence, across both storages |
| HeldMutexes.LastIndex | external/uacpi/source/interpreter.c:215-234 | where the backwards search stops: the last occurrence, or none when there is none |
| HeldMutexes.AcquireKeepsOrder | external/uacpi/source/interpreter.c:3679-3719 | Acquire keeps the array sorted by level and the current level right |
| HeldMutexes.ReleaseKeepsOrder | external/uacpi/source/interpreter.c:3721-3748 | so do Release, even of a mutex that is not the last, and a forced release |
| HeldMutexes.RunsKeepOrder | external/uacpi/source/interpreter.c:3679-3748 | and every run of the two |
| HeldMutexes.ReleaseUndoesAcquire | external/uacpi/source/interpreter.c:3679-3748 | releasing right after a first acquire restores the context |
| HeldMutexes.AcquireRefusedExactly | external/uacpi/source/interpreter.c:3679-3719 | with the native acquire and the memory granted an Acquire is without effect if and only if a mutex of a higher level is held or 65535 acquisitions of this one are open |
| HeldMutexes.ReleaseRefusedExactly | external/uacpi/source/interpreter.c:185-207 | a Release of a held mutex is without effect if and only if one of a higher level is held |
| HeldMutexes.NestedUse | external/uacpi/source/interpreter.c:185-245 | n acquires and k releases of a free mutex: 65535 acquires count, each release takes one back, the last one restores the context and further ones change nothing |
| HeldMutexes.Context.Acquire | external/uacpi/source/interpreter.c:3679-3719 | the operator refines its specification, with its result and its failures |
| HeldMutexes.Context.Release | external/uacpi/source/interpreter.c:3721-3748 | the operator refines its specification |
| HeldMutexes.Context.RemoveAndRelease | external/uacpi/source/interpreter.c:185-245 | wrong level, recursive, forced, last and searched-for releases, and a failure changes nothing |
| HeldMutexes.Context.ReleaseAll | external/uacpi/source/interpreter.c:6132-6143 | the end of an execution context: the array is empty, every mutex it held is given up, and no other changes |
| HeldMutexes.Context.FindHeld | external/uacpi/source/interpreter.c:226-234 | the last occurrence |
| Words.MemcpyZerout | external/uacpi/source/stdlib.c:112-122 | the source cut or padded with zeros, nothing outside the destination |
| Words.WordRoundTrip | external/uacpi/source/interpreter.c:2682-2687 | a word survives being stored as little-endian bytes |
| Words.EightBytes | external/uacpi/source/interpreter.c:2682-2687 | the first byte of a word is the least significant |
| IntStrings.OverflowTest | external/uacpi/source/utilities.c:277-281 | the wrap-around test detects overflow exactly |
| IntStrings.StringToInteger | external/uacpi/source/utilities.c:233-295 | value and status for every text and base: spaces, sign, prefix, exact below 2^64 and saturating from there |
| IntStrings.Cursor.ReadPrefix | external/uacpi/source/utilities.c:245-258 | the sign and the base the prefix asks for |
| IntStrings.Cursor.ReadDigits | external/uacpi/source/utilities.c:260-292 | the digit loop against the number the whole run of digits denotes |
| IntStrings.NumOfDigits | external/uacpi/source/stdlib.c:322-335 | the printed digits denote the number, with no leading zero |
| IntStrings.WordDigits | external/uacpi/source/stdlib.c:297-335 | 64 bits fit the 32-character digit buffer in every base from 8 on |
| IntStrings.WriteDigits | external/uacpi/source/stdlib.c:322-335 | the backward loop leaves the digits at the end of the buffer |
| IntStrings.WriteNumeral | external/uacpi/source/stdlib.c:322-352 | with a lone zero and the prefix of the alternate form |
| IntStrings.Output.WriteOne | external/uacpi/source/stdlib.c:248-254 | one character more, kept when it fits |
| IntStrings.Output.WriteMany | external/uacpi/source/stdlib.c:256-272 | as many characters as fit are kept, all are counted |
| IntStrings.Output.WritePadding | external/uacpi/source/stdlib.c:282-295 | fills up to the minimal width |
| IntStrings.Output.WriteInteger | external/uacpi/source/stdlib.c:299-361 | the whole conversion: sign, padding on either side, numeral |
| IntStrings.FormatOne | external/uacpi/source/stdlib.c:499-680 | the text and a NUL, cut to the buffer, and the full length returned |
| IntStrings.IntegerToString | external/uacpi/source/interpreter.c:2700-2731 | an exactly sized NUL-terminated string; the intermediate buffer is never overrun |
| IntStrings.IntegerStringRoundTrip | external/uacpi/source/interpreter.c:2672-2731 | every 64-bit integer survives the way to a decimal or hexadecimal string and back |
| IntStrings.FormatRoundTrip | external/uacpi/source/stdlib.c:299-361 | so does every conversion whose text announces its base, signed ones as the same bit pattern, if and only if its padding is nothing, spaces with no visible sign before them, or zeros in front of an octal numeral or a decimal digit below 8 |
| IntStrings.LongDigitsSaturate | external/uacpi/source/utilities.c:277-294 | longer digit strings give 2^64-1 and an error, negative ones 1 |
| IntStrings.AcceptsExactly | external/uacpi/source/utilities.c:260-292 | the status is OK if and only if the text is a 64-bit number, up to its end or a NUL, or is one but for its last character |
| IntStrings.AcceptsBadLast | external/uacpi/source/utilities.c:260-292 | a text with a stray last character that is accepted, and refused one character earlier |
| IntStrings.WhitespaceSkipped | external/uacpi/source/utilities.c:243 | the six white-space characters in front do not matter |
| IntStrings.NothingElseSkipped | external/uacpi/source/utilities.c:243-292 | and after any other character in front that is no sign or digit the value is 0 |
| IntStrings.ObjectToInteger | external/uacpi/source/interpreter.c:2672-2698 | integers as they are, the first eight bytes of a buffer in rising significance, strings through the parser, others zero |
| IntStrings.StringObjectKeepsInteger | external/uacpi/source/interpreter.c:2672-2731 | the round trip through a string object |
| BitSpans.FetchByte | external/uacpi/source/io.c:68-81 | the next source bits, across a byte boundary, zeros beyond the last |
| BitSpans.DepositByte | external/uacpi/source/io.c:83-90 | up to eight bits stored at any position, all other bits kept |
| BitSpans.BitCopy | external/uacpi/source/io.c:48-95 | destination bits become the source bits cut or zero-extended, at any misalignment, and no other bit changes; no byte outside the spans is touched |
| BitSpans.SpliceUnique | external/uacpi/source/io.c:48-176 | that determines every byte, so all paths meeting it agree |
| BitSpans.CutMisalignedTail | external/uacpi/source/io.c:16-26 | clears the bits above the field in the last byte alone |
| BitSpans.ReadBufferField | external/uacpi/source/io.c:97-128 | aligned and misaligned reads give the field zero-extended to bytes |
| BitSpans.WriteBufferField | external/uacpi/source/io.c:130-176 | aligned and misaligned writes change the field's bits alone |
| BitSpans.WriteAligned | external/uacpi/source/io.c:152-173 | the aligned path meets the specification of the bit copy |
| BitSpans.BufferFieldRoundTrip | external/uacpi/source/io.c:97-176 | write then read gives the value cut or zero-extended |
| BitSpans.DisjointFieldsIndependent | external/uacpi/source/io.c:148-176 | writing a field never changes a disjoint one |
| FieldUnits.NewField | external/uacpi/source/interpreter.c:1780-1814 | the offsets computed for an access type denote exactly the requested bit, the access width is the one each type asks for, and the update rule is kept |
| FieldUnits.AccessRead | external/uacpi/source/opregion.c:853-913 | one unit as a 64-bit word; out of bounds fails |
| FieldUnits.AccessWrite | external/uacpi/source/opregion.c:853-913 | one unit stored, nothing else; out of bounds fails and changes nothing |
| FieldUnits.WriteUnit | external/uacpi/source/io.c:614-652 | one round: field bits from the source, the rest of the unit by the update rule |
| FieldUnits.WriteFieldUnit | external/uacpi/source/io.c:591-660 | every unit in order until one fails; exactly which failures stop it and what is written by then |
| FieldUnits.ReadMisaligned | external/uacpi/source/io.c:476-528 | the field zero-extended, access by access; fails exactly when an access leaves the region |
| FieldUnits.ReadSimple | external/uacpi/source/io.c:562-581 | the single-access path meets the same specification |
| FieldUnits.ReadFieldUnit | external/uacpi/source/io.c:530-589 | both paths alike |
| FieldUnits.FieldRoundTrip | external/uacpi/source/io.c:476-660 | write then read gives the value cut or zero-extended to the field and the destination |
| FieldUnits.StoreAndLoad | external/uacpi/source/io.c:476-660 | the two operations one after the other: both succeed when the region holds every unit and the rule is defined, and the value comes back |
| FieldUnits.AroundTheField | external/uacpi/source/io.c:619-657 | other bits: kept under Preserve; ones or zeros in the touched units under the other rules, kept elsewhere |
| FieldUnits.WidthLeavesNoTrace | external/uacpi/source/io.c:591-660 | under Preserve the access width does not show in the region |

## Left out

- Vmm.Editor.MapPage: after a call in the first GiB that overwrites a live table or splits the boot leaf the state is described but no longer Valid, and later calls are not covered. Only bits 47:12 of an address select its leaf; that the hardware refuses non-canonical addresses is not modelled.
- TLB flushes, CR3 loads and the page-fault handler are no-ops on the modelled state.
- Pmm.Allocator.FreePage: freeing a page the caller does not own is not prevented, as in the code.
- Pmm.RegionPages: regions whose rounding wraps past 2^64 are excluded; AddRegion, ReserveRegion and Boot's map entries are specified for them too.
- Heap.Allocator.Free: a pointer must denote the header of a block, or a header in the pool that still reads free, as one that was merged away does until its bytes are overwritten.
- Heap.Allocator.Realloc: a pointer must denote the header of a block.
- HeapClient.Client: callers are sequential and write only inside the size they asked for.
- ObjectRefs.Store.ObjectRef: counts stay below 2^32-1, and the path that marks a whole chain as bugged is not followed.
- ObjectRefs.Store.FreeChain: only the fact of freeing is modelled, not the storage released with an object, nor package contents.
- ObjectRefs.Store.DetachChild: counts are sound in every state, so the early return for a parent marked as bugged is not taken.
- ObjectRefs.Store.AttachChild: the parent is a reference object without a child, and no cycle is closed; the callers that first assign another object are not part of the model.
- GlobalLock: the sequence-number interface, hardware without a global lock, and native mutexes around the acquisition are left out; the lock word is a number with its two flag bits.
- GlobalLock.WaitCanEnd: says that a wait can end, and GlobalLock.WaitCanOwn that the lock can then be had, not that a scheduler lets it.
- RwLock.EveryoneCanEnter: says that a thread can get in, not that a scheduler lets it; readers that keep coming can hold a writer off.
- RwLock.Exclusion: mutexes follow the host interface contract; the single-threaded stubs of this kernel are not used.
- NamespaceWalk.ForEachChild: callbacks see the trace so far, the node and the depth, and do not change the tree; the locking variants and reference counting of nodes are left out.
- NamespaceWalk.EachOnce: stated for callbacks that decide by node and depth and never answer Break, on trees whose nodes have objects; NamespaceStops has the others, and NamespaceWalk.WalkIsTourExactly says for which other trees the walk is the tour too.
- NamespaceLinks.NamespaceTree.InstallReserved: the parent is still in the tree; installing below a parent uninstalled in between, and the failure to note a temporary node, are not covered.
- NamespaceLinks.NamespaceTree.Uninstall: the memory of an uninstalled node is not reclaimed, and region handlers of its object are left out.
- NamespacePath.NodeResolve: text is a sequence of characters with its length; what follows a read through NULL is not modelled.
- HeldMutexes.Context.Acquire: timeouts, the firmware lock taken along with the global-lock mutex and serialized methods are left out; whether the native acquire succeeds is a parameter.
- IntStrings.FormatOne: the format string itself is not parsed; a conversion is given as its parsed form. Precision and other conversions are left out.
- BitSpans.BitCopy: overlapping buffers are excluded, as no caller has them.
- FieldUnits.AccessRead: the region is plain memory that is mapped; attaching a handler and the errors of handlers are left out.
- FieldUnits.AccessWrite: likewise.
- FieldUnits.WriteFieldUnit: index, bank, GPIO, serial, IPMI and PRM fields, region handlers and the locks around a transaction are left out; the region is plain memory.
- FieldUnits.ReadFieldUnit: bit positions are unbounded, so the 32-bit arithmetic on lengths near 2^32 does not wrap.
- Memory for new strings, records and nodes is a parameter of the operation.
- Console, timers, descriptor tables, ports, the AML interpreter loop, table loading, sleep states and resources are not part of this model.
