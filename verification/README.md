# A proved model of the dynamic loader's core

This project models, in Dafny 4.11, the parts of the loader where state, arithmetic and concurrency are hard to get
right, and proves what they are for. `dafny verify dfyconfig.toml` checks everything.

| files | what they model |
|---|---|
| `Usize`, `Bytes`, `Sequences` | 64-bit words with checked, saturating, wrapping and bitwise operations; bytes and little-endian numbers; lists without repetition |
| `TlsLayout`, `TlsState`, `TlsInvariant`, `TlsRegister`, `TlsPublish`, `TlsSlots`, `TlsThreads`, `TlsRuns`, `TlsTheorems`, `TlsLookups`, `TlsRoom`, `TlsAddresses`, `TlsSetUp`, `TlsBlocks`, `TlsOutcomes` | the TLS runtime as a state machine: module tables, the static arena, thread storage byte by byte, DTVs and heap blocks; its invariant, one step at a time and over whole runs; which lookups have an address, how long storage stays large enough, what a static module's address leads to in each thread, that threads stay set up, and the exact sizes, alignments and outcomes |
| `TlsRuntime` | the same runtime as an object with the source's mutable tables, each method proved equal to the state machine's step |
| `AbstractLock`, `CondvarLock`, `FutexLock` | the re-entrant loader lock, both implementations as transition systems over any number of threads, each refining one abstract lock and each letting its owner in again |
| `LinkMaps`, `DebugList`, `StartupList`, `RtldStartup` | the doubly linked list of link maps: the debugger's list, the startup search list, and the start of a process, where both write the same links |
| `InitialStack`, `DirectInvocation` | the process stack: parsing it, moving it down in place, patching the auxiliary vector, and the option scan that decides how far |
| `LdCache`, `LdCacheFiles`, `Utf8` | the `ld.so.cache` file: opening it, decoding names, flags and paths, and the lookup; small files byte by byte; which bytes are UTF-8 |
| `Leases`, `Registry` | who owns each acquisition of a loaded module: C handles, Rust handles, snapshots, pins and thread destructors |
| `SelfReloc`, `RelocImage` | the loader's own relocation: parsing the dynamic section and applying RELATIVE entries, down to the words of memory |

The TLS proofs work on values: each operation is a function from state to state (`TlsState`), `TlsInvariant.Inv` is kept
by every operation (`TlsRuns.StepKeeps`), and the theorems in `TlsTheorems` speak of every reachable state or every
run. The class in `TlsRuntime` is what the source looks like, with loops, swap-removal and assignments; its contracts
say that it does exactly what those functions do. The registry is done the other way round: `Registry.Manager` keeps a
class invariant whose parts and consequences are lemmas about values in `Leases`.

What the environment supplies is a parameter of each operation and is named in `TlsRuns.Enabled`: fresh addresses from
the allocator, and the caller's duties (an image no longer than its module, a place for a module added at a caller-chosen
offset). One of its conditions is nobody's duty: storage must have room for the current layout when it is initialised.
Storage the runtime lays out has it at once (`TlsThreads.StorageMatchesStaticInfo`) and may lose it later, which a caller
cannot prevent; `TlsRoom` says exactly when (see Findings). A run stops being described where the source would write
outside the storage. Memory is sequentially consistent.

## Findings

- `static_module_end` returns nothing exactly when no representable end exists; the early additions lose no answer, and
  its last correction is never taken (`TlsLayout.StaticModuleEndExact`, `TlsLayout.StaticModuleEndCorrectionIsDead`).
- A lookup of a dynamic module that is registered but not yet published allocates a block and loses it, and that is the
  only way a lookup loses one (`TlsTheorems.LookupLeaksExactly`). It happens in every reachable state in which a module is
  registered and looked up at once (`TlsLookups.LookupBeforePublishLeaks`, `TlsLookups.LeakIsReachable`).
- Ids are not reused and a DTV has 64 entries: a published dynamic module has an address in an initialised thread if and
  only if its id is at most 64 (`TlsLookups.AddressExactly`), so once 64 modules have been registered, no dynamic module
  registered later ever has an address in any thread, even if the earlier ones are gone
  (`TlsLookups.LateModulesHaveNoAddress`). Any number of modules can be reached (`TlsLookups.CrowdReachable`), and so is a
  published module of one byte without an address (`TlsLookups.NoAddressIsReachable`).
- The static layout grows with every static registration and never shrinks (`TlsRoom.RunUsedGrows`), while a thread's
  storage keeps the size it was laid out with, and the static size is told to the C library once, without surplus.
  Initialising the storage again with `_dl_allocate_tls_init` stays inside it if and only if the distance down to the
  current rseq area is at most that size (`TlsRoom.RoomExactly`); nothing in the source looks, and room once lost does not
  come back (`TlsRoom.RoomStaysLost`). It is lost when one thread is started and then one module of 4096 bytes registered
  (`TlsRoom.RoomIsLost`).
- The place of the rseq area is told to the C library once too. Later initialisations mark exactly that place if and only
  if the used space has not grown into it, and then no block touches it (`TlsRoom.ReportedAreaExactly`); otherwise a block
  can lie on it (`TlsRoom.ReportedAreaIsTaken`).
- A lookup of a live static module is never refused in a thread that has storage. What is at the address depends on the
  thread: the initial thread has the published image there whenever it was published, any other one if the module was
  published when the thread was initialised, and in both it stays (`TlsAddresses.InitialThreadServes`,
  `TlsAddresses.StartedThreadServes`, `TlsAddresses.RunServes`). Publishing writes no other thread: one that started before
  has the image if and only if its bytes happened to be the image already (`TlsAddresses.LatePublicationExactly`), and the
  address can lie below its storage altogether (`TlsAddresses.AddressOutside`).
- A block allocated for a module in a thread is aligned as the module asks, rounded up to a power of two, except that an
  alignment above 2^63 is taken for 1 (`TlsBlocks.DynamicLayoutExactly`). No operation but a lookup can lose a block
  (`TlsOutcomes.OnlyLookupsLose`), and no DTV is ever lost (`TlsSetUp.NoDtvLost`). When the kernel refuses the initial
  thread pointer, the arena and its DTV stay allocated and the next static registration makes new ones
  (`TlsSetUp.EnsureAreaSetsUp`).
- Freeing a thread's blocks before its DTV would leave dangling entries exactly when its current DTV has an entry for a
  dynamic block; `_dl_deallocate_tls` does it in the safe order (`TlsThreads.FreeingBlocksFirstDangles`).
- Both locks let their owner in again: a thread that holds guards never waits for the lock, and one that asks for another
  guard gets it by its own steps, after the inner mutex's holder has let go in the condvar lock
  (`CondvarLock.HolderNeverWaits`, `CondvarLock.HolderGetsGuard`, `FutexLock.HolderGetsGuard`).
- The futex lock can leave a waiter asleep on a free lock with nobody left to wake it. A step does that if and only if it is
  a wait on the value 0, of a free lock, with no other thread about to look at the owner or to wake someone
  (`FutexLock.StrandsExactly`). It takes a lost compare-exchange: a run without one strands nobody
  (`FutexLock.WonRunStrandsNobody`), and a run of two threads with one does (`FutexLock.StrandedIsReachable`). The condvar
  lock has no such run (`CondvarLock.NoLostWakeup`).
- At the start of a process the debugger is stopped on a broken list. The loader and the main program are appended first,
  the loader's links are then cleared where it stands, and from there on no sequence of nodes is the list: all stops but
  the first four are on a broken list, so all are on a well-formed one exactly when the program has no dependency
  (`RtldStartup.StartProcess`). Linking the search list afterwards does not mend the loader's own record, which still
  starts at the loader instead of the main program: a list that starts at a relinked node is well formed exactly when that
  node is the first one and the tail the last (`LinkMaps.LinkedOnlyAs`). The list published to the debugger starts at the
  main program, and is well formed up to the loader's tail exactly when the module loaded last is also last in the search
  list. Later appends, and drops of anything but the loader itself, keep it so (`DebugList.CustomDebug.Add`,
  `DebugList.CustomDebug.Drop`). Without any
  dependency it is not: the tail is then the main program, and the next append takes the loader off the published list
  (`RtldStartup.AloneIsNotFormed`).
- The initial search list puts the main program first and the dynamic linker second exactly when the main program does
  not itself pass for the dynamic linker (`StartupList.StartupOrder`).
- The cache lookup needs byte-wise order. In a cache ordered by version number, as `10`, `9`, `1`, every name decodes and
  yet the entry for `10` is not found (`LdCacheFiles.NumberedIsMissed`).
- A failed self-relocation leaves the entries before the first bad run applied (`SelfReloc.BootstrapMemory.ApplyRelas`).

## Model

| member | source | states |
|---|---|---|
| Usize.MaskRoundsDown | rtld/impl/src/tls.rs:334-339 | clearing the low bits with a power-of-two mask is rounding down by division, for every word and every power of two |
| Usize.MaskIsRemainder | rtld/impl/src/tls.rs:341-342 | and with `align - 1` is the remainder by `align`, for every power of two |
| Usize.NextPow2 | rtld/impl/src/tls.rs:188-192 | `checked_next_power_of_two` gives the least power of two not below its argument, or nothing when that does not fit a word |
| TlsLayout.AlignUpExact | rtld/impl/src/tls.rs:334-339 | `align_up` gives the least multiple of a power of two not below the value, and nothing exactly when none fits a word |
| TlsLayout.FirstByte | rtld/impl/src/tls.rs:341-342 | the masked wrapping negation is the one residue below `align` that is congruent to `-vaddr` |
| TlsLayout.StaticModuleEndExact | rtld/impl/src/tls.rs:341-351 | the end is the least word at or above `used + memsz` congruent to `-vaddr`, and it is missing exactly when no such word exists |
| TlsLayout.StaticModuleEndCorrectionIsDead | rtld/impl/src/tls.rs:346-348 | the final `end < min_end` correction is never taken |
| TlsInvariant.InitialInv | rtld/impl/src/tls.rs:92-138 | the empty tables satisfy the invariant |
| TlsRegister.RegisterDynamicKeeps | rtld/impl/src/tls.rs:140-155 | registering a dynamic module keeps tables, layout, memory and published contents in order |
| TlsRegister.RegisterStaticKeeps | rtld/impl/src/tls.rs:180-214 | registering a static module, the arena's first use included, keeps the invariant on success and on every failure path |
| TlsRegister.AddStaticKeeps | rtld/impl/src/tls.rs:216-228 | adding a module at a caller-chosen offset keeps the invariant; the placed blocks stay as they are |
| TlsRegister.UnregisterKeeps | src/runtime/rtld.rs:312-319 | unregistering keeps the resolver's list, the module table and the static list in agreement |
| TlsPublish.WrittenHolds | rtld/impl/src/tls.rs:526-542 | writing one module's image leaves it as image then zeros, and every other placed block's bytes as they were |
| TlsPublish.RseqKeepsHeld | rtld/impl/src/tls.rs:544-556 | marking the rseq area disturbs no placed block |
| TlsPublish.RseqWritten | rtld/impl/src/tls.rs:544-556 | after marking, the current rseq area holds exactly the "registration failed" pattern |
| TlsPublish.RepublishReplaces | rtld/impl/src/tls.rs:273-290 | publishing a live static module replaces its own list entry in place and touches no other |
| TlsPublish.PublishedInv | rtld/impl/src/tls.rs:266-299 | publishing a static module keeps the whole invariant |
| TlsThreads.InitWrites | rtld/impl/src/tls.rs:455-467 | initialising any thread's storage that has room for the current layout, again or for the first time, sets its control block, its DTV, every placed published block and the rseq area, changes no other thread, and keeps the invariant |
| TlsSlots.ModulesSlots | rtld/impl/src/tls.rs:461-463 | from an empty DTV the loop over the static list sets exactly the entries of the published modules, each to its block's address with nothing to free |
| TlsSlots.InitSlots | rtld/impl/src/tls.rs:455-467 | after initialisation the entry of every id from 1 to 64 is the block of the published static module with that id, and unset if there is none, whatever the DTV held before |
| TlsSlots.PublishSlot | rtld/impl/src/tls.rs:526-542 | publishing a static module sets its own entry in the initial thread's DTV, if it has one, and writes no other word of it |
| TlsThreads.GetAddrKeeps | rtld/impl/src/tls.rs:385-440 | a lookup, with its lazy allocation and every early return, keeps the invariant |
| TlsThreads.AllocateStorageKeeps | rtld/impl/src/tls.rs:503-524 | allocating storage keeps the invariant |
| TlsThreads.StorageMatchesStaticInfo | rtld/impl/src/tls.rs:56-81 | whenever storage is allocated, its size and alignment are the ones `static_info` reports, and the current layout fits below the thread pointer |
| TlsThreads.AllocatedTpAligned | rtld/impl/src/tls.rs:503-524 | the thread pointer of allocated storage is aligned for every placed module, so every block starts congruent to its `p_vaddr` |
| TlsThreads.DlDeallocateKeeps | rtld/impl/src/symbols/tls.rs:23-27 | dropping the DTV and then the blocks keeps the invariant, for every thread and either flag |
| TlsThreads.FreeingBlocksFirstDangles | rtld/impl/src/symbols/tls.rs:23-27 | with the DTV still in place, freeing the blocks keeps memory sound if and only if the thread holds no dynamic entry |
| TlsRuns.PublishKeeps | src/runtime/rtld.rs:300-310 | publishing a live module succeeds; publishing an unknown or dead id is reported and changes nothing; both keep the invariant |
| TlsRuns.StepKeeps | rtld/impl/src/tls.rs:140-556 | every operation, in any order, keeps the invariant |
| TlsTheorems.ReachableInv | rtld/impl/src/tls.rs:140-556 | the invariant holds in every reachable state |
| TlsTheorems.LayoutSound | rtld/impl/src/tls.rs:180-214 | in every reachable state placed blocks are pairwise disjoint and inside `[tp - used, tp)`, and the rseq area fits the arena below them and overlaps none |
| TlsTheorems.BlockAddressCongruent | rtld/impl/src/tls.rs:341-351 | each placed block starts congruent to `p_vaddr` for every thread pointer so aligned, and in the page-aligned arena for alignments up to 4096 |
| TlsTheorems.FailedRegistration | rtld/impl/src/tls.rs:180-228 | a failed registration leaves the used space, all three tables and the placements unchanged |
| TlsTheorems.ThreeTablesAgree | src/runtime/rtld.rs:277-319 | in every reachable state the resolver lists exactly the live modules with their own offsets, and the static list exactly the live static ones, each once |
| TlsTheorems.PublishTables | rtld/impl/src/tls.rs:230-313 | the whole outcome of publishing, slot by slot: what changes in each table and which error is returned |
| TlsTheorems.PublishLive | rtld/impl/src/tls.rs:230-247 | publishing a live module never reports a mismatch, and the insert-if-missing branch is never taken |
| TlsTheorems.PublishWrites | rtld/impl/src/tls.rs:266-299 | after a static publish the initial thread's rseq area holds its pattern, its DTV the module's entry with all others unchanged, and the block its image then zeros |
| TlsTheorems.StepTableGrows | rtld/impl/src/tls.rs:147-178 | no operation shrinks the module table, revives an emptied slot or changes a module's kind |
| TlsTheorems.RunTableGrows | rtld/impl/src/tls.rs:147-178 | nor does any run |
| TlsTheorems.IdsNeverReused | rtld/impl/src/tls.rs:147-155 | an id registered anywhere later in a run is above every id the table had before |
| TlsTheorems.PublishedBlockPersists | rtld/impl/src/tls.rs:266-299 | a published placed block still holds its image then zeros at the end of every run that does not publish or unregister it again |
| TlsTheorems.NoDanglingDtv | rtld/impl/src/glibc/v2_39/tls.rs:39-59 | in every reachable state a DTV entry that owns a block points to a live block recorded for that thread, also after its module is unregistered; every set entry of a dynamic module owns one, and one of a static module is the block's own address |
| TlsTheorems.DtvLayoutRecomputed | rtld/impl/src/glibc/v2_39/tls.rs:61-94 | the layout recomputed from the length word when a DTV is freed is the one it was allocated with, since no write reaches that word |
| TlsTheorems.StepKeepsValue | rtld/impl/src/tls.rs:385-501 | no operation that leaves a thread alone changes its entry, its record or its block |
| TlsTheorems.RunKeepsValue | rtld/impl/src/tls.rs:385-501 | nor does any run of them |
| TlsTheorems.GetAddrDynamic | rtld/impl/src/tls.rs:385-440 | a first access yields a new block holding image then zeros and enters it in the DTV, a later one the entry; otherwise the result is null and no entry changes; which of them is decided exactly |
| TlsTheorems.AddressStableOnceSet | rtld/impl/src/tls.rs:396-398 | once an entry is set, every later lookup in a run without a reset returns the same block and changes nothing |
| TlsTheorems.AddressStable | rtld/impl/src/tls.rs:32-46 | between resets, all lookups of a live dynamic module after the first successful one agree, whatever offset they add |
| TlsTheorems.LookupLeaksExactly | rtld/impl/src/tls.rs:412-419 | a lookup loses a block if and only if it is the first access to a module that is registered but not published |
| TlsTheorems.NewThreadStorage | rtld/impl/src/symbols/tls.rs:13-40 | storage from `_dl_allocate_tls` has the reported size and alignment and a thread pointer aligned for every module |
| TlsTheorems.NewThreadContents | rtld/impl/src/tls.rs:442-467 | a new thread starts with its control block set, the DTV entries of the published static modules and no others, every placed published block as image then zeros, and the rseq pattern, all inside the allocation |
| TlsLookups.LookupBeforePublishLeaks | rtld/impl/src/tls.rs:406-419 | in every reachable state, a dynamic module registered and looked up before it is published loses one block |
| TlsLookups.LeakIsReachable | rtld/impl/src/tls.rs:406-419 | such a state exists: one thread, one module of one byte |
| TlsLookups.NoEntryNoAddress | rtld/impl/src/glibc/v2_39/tls.rs:96-112 | a dynamic module whose id is past the DTV's entries has a null address in every thread, and no entry or record changes |
| TlsLookups.AddressExactly | rtld/impl/src/glibc/v2_39/tls.rs:96-112 | in an initialised thread a published dynamic module with a representable layout has an address if and only if its id is at most 64 |
| TlsLookups.CrowdReachable | rtld/impl/src/tls.rs:147-155 | for every number of ids a word can hold there is a reachable state with that many modules and an initialised thread |
| TlsLookups.NoAddressIsReachable | rtld/impl/src/tls.rs:406-440 | a reachable state with a published module of one byte that has no address in an initialised thread |
| TlsLookups.LateModulesHaveNoAddress | rtld/impl/src/glibc/v2_39/tls.rs:96-112 | after 64 registrations, no dynamic module registered later in any run has an address at any later time |
| TlsRoom.WritesInsideExactly | rtld/impl/src/tls.rs:455-467 | what initialising a thread writes, blocks and rseq area, stays inside a storage size if and only if the distance down to the rseq area does |
| TlsRoom.RunUsedGrows | rtld/impl/src/tls.rs:180-214 | over every run the used space and the largest alignment never shrink and the initial thread stays the same, whatever is unregistered |
| TlsRoom.StepKeepsStorage | rtld/impl/src/tls.rs:442-556 | storage that is not withdrawn keeps its size, and every byte unless the operation initialises that thread or publishes and it is the initial one |
| TlsRoom.RunKeepsStorage | rtld/impl/src/tls.rs:442-556 | it keeps its size over every run |
| TlsRoom.RoomExactly | rtld/impl/src/tls.rs:455-467 | storage laid out in one state can be initialised within itself after any later run if and only if the layout of that later state needs no more than the size it was laid out with |
| TlsRoom.RoomStaysLost | rtld/impl/src/tls.rs:455-467 | a size that is too small for the layout stays too small in every later state |
| TlsRoom.RoomIsLost | rtld/impl/src/tls.rs:455-467 | a reachable state in which storage the runtime laid out itself, and still has on record, is too small |
| TlsRoom.ReportedAreaExactly | rtld/impl/src/bootstrap/mod.rs:42-48 | an rseq area told to the C library in one state is the one later initialisations mark if and only if the used space has not grown into it, and then no placed block touches it |
| TlsRoom.ReportedAreaIsTaken | rtld/impl/src/bootstrap/mod.rs:42-48 | a reachable state in which a placed block lies on the area told at the start |
| TlsAddresses.ServesExactly | rtld/impl/src/tls.rs:377-383 | in every thread with storage the lookup of a live static module answers its place below the thread pointer and changes nothing; it leads to the image then zeros if and only if the module is published and those bytes are there |
| TlsAddresses.InitialThreadServes | rtld/impl/src/tls.rs:377-383 | in the initial thread it does so for every published placed module, whenever it was published |
| TlsAddresses.StartedThreadServes | rtld/impl/src/tls.rs:455-467 | in a thread just initialised it does so for every placed module published by then |
| TlsAddresses.NewThreadServes | rtld/impl/src/tls.rs:442-453 | the same when the runtime lays the storage out, within the allocation |
| TlsAddresses.RunServes | rtld/impl/src/tls.rs:377-383 | and goes on to, over every run that leaves the module published as it is and the thread's storage in place |
| TlsAddresses.LatePublicationExactly | rtld/impl/src/tls.rs:266-299 | publishing changes no byte of a thread that started earlier, so there the address leads to the image if and only if it happened to be there before |
| TlsAddresses.AddressOutside | rtld/impl/src/tls.rs:377-383 | a reachable state in which a published static module's address in an earlier thread lies below the thread's allocation |
| TlsSetUp.EnsureAreaSetsUp | rtld/impl/src/tls.rs:315-332 | the first static registration zeroes an arena of 1 MiB under the thread pointer it is granted, whose control block points to itself, to both guards and to an empty DTV of 64 entries; it becomes the initial area exactly if the kernel installs the pointer, and nothing else in memory changes |
| TlsSetUp.InitialThreadSetUp | rtld/impl/src/tls.rs:180-186 | so registering the first static module leaves the initial thread set up, whether or not the module finds a place, and fails if the pointer is refused |
| TlsSetUp.StepKeepsTcb | rtld/impl/src/glibc/v2_39/tls.rs:21-81 | no operation writes a thread's control block but its initialisation and its end |
| TlsSetUp.RunKeepsSetUp | rtld/impl/src/glibc/v2_39/tls.rs:21-81 | a thread that is set up stays so over every run that does not end it |
| TlsSetUp.SetUpResolves | rtld/impl/src/tls.rs:385-440 | in a thread that is set up every published dynamic module with an id up to 64 and a representable layout has an address |
| TlsSetUp.InitialThreadResolves | rtld/impl/src/tls.rs:315-332 | so has it in the initial thread, from the first static registration to the end of every run that does not end that thread |
| TlsSetUp.StartedThreadResolves | rtld/impl/src/tls.rs:455-467 | and in every other thread, from its initialisation on |
| TlsSetUp.InitReplacesDtv | rtld/impl/src/glibc/v2_39/tls.rs:21-37 | initialising a thread frees its old DTV, adds the new one, and leaves every other DTV with its owner |
| TlsSetUp.NoDtvLost | rtld/impl/src/glibc/v2_39/tls.rs:61-81 | in every reachable state each DTV is some thread's current one |
| TlsBlocks.MakeLayoutExactly | rtld/impl/src/tls.rs:412-413 | a layout is representable if and only if its alignment is a power of two and its size, rounded up to it, is at most `isize::MAX` |
| TlsBlocks.DynamicLayoutExactly | rtld/impl/src/tls.rs:412-413 | a dynamic block's layout has the module's size, or one byte, and the least power of two not below the alignment asked for, or 1 above 2^63; it exists if and only if that is representable |
| TlsBlocks.LayoutAligns | rtld/impl/src/tls.rs:412-417 | an address aligned as the layout asks is aligned for the module |
| TlsBlocks.AddressAligned | rtld/impl/src/tls.rs:396-403 | when the allocator aligns as asked, a first lookup and every later one up to the thread's reset answer with a block aligned for the module |
| TlsOutcomes.RegisterDynamicExactly | rtld/impl/src/tls.rs:140-155 | a dynamic registration succeeds if and only if an id is left, and then enters the module under the next id in the table and in the resolver's list |
| TlsOutcomes.RegisterAtExactly | rtld/impl/src/tls.rs:216-228 | so does one at a chosen offset, which enters the module at that offset in all three tables |
| TlsOutcomes.PlaceStaticExactly | rtld/impl/src/tls.rs:193-213 | placing succeeds if and only if an id is left and some end congruent to `-vaddr` leaves room for the rseq area in the arena; the least such end is taken |
| TlsOutcomes.RegisterStaticExactly | rtld/impl/src/tls.rs:180-214 | the same for a whole static registration, which also needs the area and an alignment up to 2^63 |
| TlsOutcomes.DlDeallocateExactly | rtld/impl/src/symbols/tls.rs:23-27 | a release takes the thread's DTV, blocks and records, its storage and the record of it exactly if asked and laid out by the runtime, and nothing of any other thread |
| TlsOutcomes.DeallocateLosesNothing | rtld/impl/src/tls.rs:490-501 | a release loses no block |
| TlsOutcomes.OnlyLookupsLose | rtld/impl/src/tls.rs:406-419 | no operation but a lookup changes which blocks are lost |
| TlsOutcomes.StorageLayoutExactly | rtld/impl/src/tls.rs:503-515 | a thread's storage is aligned to the largest placed alignment and at least 64, with the thread pointer at the least multiple of it that leaves room for the static layout, and the control block above |
| TlsOutcomes.StaticInfoExactly | rtld/impl/src/tls.rs:56-81 | the reported alignment is the same and the reported size the size of such storage, or 0 if and only if no word can hold it |
| TlsOutcomes.AllocateStorageExactly | rtld/impl/src/tls.rs:503-524 | laying out storage zeroes it, records it once and touches nothing else |
| TlsOutcomes.ImageThenZerosExactly | rtld/impl/src/tls.rs:526-542 | what a block holds is the image's bytes and then zeros |
| TlsOutcomes.PatternSaysFailed | rtld/impl/src/tls.rs:544-556 | the rseq pattern is 32 bytes with the CPU number -2 at byte 4 and zeros elsewhere |
| TlsRuntime.Runtime.constructor | rtld/impl/src/tls.rs:92-138 | the runtime starts empty and valid |
| TlsRuntime.Runtime.FreeBlock | rtld/impl/src/tls.rs:490-501 | a heap block is freed only while live and with the layout it was allocated with |
| TlsRuntime.Runtime.FreeDtv | rtld/impl/src/glibc/v2_39/tls.rs:70-74 | a DTV is freed only while live and with a recomputed layout equal to its own |
| TlsRuntime.Runtime.DtvEntryIndex | rtld/impl/src/glibc/v2_39/tls.rs:96-112 | the bounds check on the length word yields the entry of the id or none |
| TlsRuntime.Runtime.DtvValue | rtld/impl/src/glibc/v2_39/tls.rs:39-43 | reads the entry of the thread's own DTV, null counting as unset |
| TlsRuntime.Runtime.SetDtvValue | rtld/impl/src/glibc/v2_39/tls.rs:45-59 | writes both words of that entry and nothing else, or reports failure and writes nothing |
| TlsRuntime.Runtime.DeallocateTcb | rtld/impl/src/glibc/v2_39/tls.rs:61-81 | frees the thread's DTV and clears the pointer |
| TlsRuntime.Runtime.InitTcb | rtld/impl/src/glibc/v2_39/tls.rs:21-37 | replaces the DTV by a fresh one and sets the control block |
| TlsRuntime.Runtime.EnsureArea | rtld/impl/src/tls.rs:315-332 | sets up the initial arena once, its thread pointer installed or the failure reported |
| TlsRuntime.Runtime.RegisterStatic | rtld/impl/src/tls.rs:180-214 | the table updates of a static registration are the state machine's, on every path |
| TlsRuntime.Runtime.Register | src/runtime/rtld.rs:277-298 | dispatches on the request, records the module with its offset, and keeps the invariant |
| TlsRuntime.Runtime.InitStaticModule | rtld/impl/src/tls.rs:526-542 | copies image and zeros below the thread pointer and sets the DTV entry |
| TlsRuntime.Runtime.InitRseq | rtld/impl/src/tls.rs:544-556 | writes the rseq pattern at the current distance |
| TlsRuntime.Runtime.RepublishStatic | rtld/impl/src/tls.rs:273-290 | the search over the static list replaces the module's entry, or would append it |
| TlsRuntime.Runtime.Publish | src/runtime/rtld.rs:300-310 | finds the recorded offset, publishes, and keeps the invariant |
| TlsRuntime.Runtime.Unregister | src/runtime/rtld.rs:312-319 | removes the module from all three tables by retaining the others, and keeps the invariant |
| TlsRuntime.Runtime.AllocateDynamic | rtld/impl/src/tls.rs:406-440 | each early return frees the block or not as the source does, and only success records it |
| TlsRuntime.Runtime.GetAddr | rtld/impl/src/tls.rs:32-46 | the answer and the new state of a lookup are the state machine's |
| TlsRuntime.Runtime.AllocateStorage | rtld/impl/src/tls.rs:503-524 | new storage is zeroed, laid out as computed and recorded once |
| TlsRuntime.Runtime.InitStatics | rtld/impl/src/tls.rs:461-464 | the loop over the static list initialises every module in order and then the rseq area |
| TlsRuntime.Runtime.AllocateTls | rtld/impl/src/tls.rs:442-453 | allocation followed by initialisation keeps the invariant |
| TlsRuntime.Runtime.AllocateTlsInit | rtld/impl/src/symbols/tls.rs:18-21 | re-initialisation with a fresh DTV, of storage that has room for the current layout, is the state machine's step and keeps the invariant |
| TlsRuntime.Runtime.FreeDynamicBlocks | rtld/impl/src/tls.rs:490-501 | swap-removal ends, frees every block of the thread exactly once with its own layout, and keeps the multiset of all others |
| TlsRuntime.Runtime.Deallocate | rtld/impl/src/tls.rs:469-488 | frees the blocks, and the storage record only when asked and found |
| TlsRuntime.Runtime.DeallocateTls | rtld/impl/src/symbols/tls.rs:23-27 | DTV first, blocks second, and the invariant kept |
| AbstractLock.DepthIsBalance | src/registry/loader_lock.rs:1-1 | along every run of the abstract lock a thread's depth is its acquisitions less its releases |
| CondvarLock.MutualExclusion | src/registry/loader_lock.rs:38-70 | with any number of threads and any interleaving, one thread at most holds guards, it is the owner, and at every moment the depth is the owner's guards, plus one while a guard is being returned or dropped |
| CondvarLock.NoLostWakeup | src/registry/loader_lock.rs:41-46 | whenever the lock is free and the mutex available while a thread sleeps, an awakened thread has yet to look at the owner and can do so now, newcomers included |
| CondvarLock.NoLostWakeupUnderMutex | src/registry/loader_lock.rs:58-70 | with the mutex held, its holder or an awakened thread carries the pending wakeup |
| CondvarLock.UnlockIsBalanced | src/registry/loader_lock.rs:58-65 | the owner assertion and the checked decrement in `unlock` never fail |
| CondvarLock.RunRefines | src/registry/loader_lock.rs:38-70 | every run is a run of the abstract re-entrant lock |
| CondvarLock.HolderNeverWaits | src/registry/loader_lock.rs:38-46 | in every reachable state a thread that holds guards neither sleeps nor comes from a wait |
| CondvarLock.Gets | src/registry/loader_lock.rs:38-56 | a thread anywhere in `lock` whose lock and mutex are free or its own returns with one guard more by its own steps, and nothing else has changed |
| CondvarLock.FreeLockTaken | src/registry/loader_lock.rs:38-56 | so does a thread that calls `lock` on a free lock |
| CondvarLock.MutexLetGo | src/registry/loader_lock.rs:38-65 | whoever holds the inner mutex lets go of it by its own steps, changing nothing of any other thread but a wakeup |
| CondvarLock.HolderGetsGuard | src/registry/loader_lock.rs:38-56 | from every reachable state a holder that is in `lock` or calls it can go on to return with one guard more, whatever the others are doing |
| CondvarLock.UnlockReturns | src/registry/loader_lock.rs:58-70 | `unlock` returns by its own steps with one guard less; the last one frees the lock and wakes one sleeper if there is any |
| FutexLock.MutualExclusion | src/registry/loader_lock.rs:121-161 | over every interleaving of the single atomic accesses, one thread at most holds guards, and the depth is its guard count outside the two hand-over windows, which are named exactly |
| FutexLock.ReleaseIsOutermost | src/registry/loader_lock.rs:151-160 | the owner is cleared exactly by the thread that dropped its outermost guard, and the depth never wraps |
| FutexLock.RunRefines | src/registry/loader_lock.rs:121-161 | every run is a run of the abstract re-entrant lock |
| FutexLock.HolderNeverWaits | src/registry/loader_lock.rs:121-149 | in every reachable state a thread that holds guards neither sleeps nor is about to |
| FutexLock.Gets | src/registry/loader_lock.rs:121-149 | a thread in `lock` that need not wait returns with one guard more by its own steps, and nothing else has changed |
| FutexLock.HolderGetsGuard | src/registry/loader_lock.rs:121-149 | from every reachable state a holder that is in `lock` or calls it returns with one guard more by its own steps |
| FutexLock.FreeLockTaken | src/registry/loader_lock.rs:121-149 | so does a thread that calls `lock` on a free lock |
| FutexLock.UnlockReturns | src/registry/loader_lock.rs:151-161 | `unlock` returns by its own steps with one guard less; the last one frees the lock and wakes one sleeper if there is any |
| FutexLock.StrandsExactly | src/registry/loader_lock.rs:133-142 | from every reachable state, a step leaves threads stranded if and only if it waits on the value 0, on a free lock, with nobody else about to look at the owner or to wake |
| FutexLock.WonRunStrandsNobody | src/registry/loader_lock.rs:133-142 | a run in which no compare-exchange is lost never strands anyone |
| FutexLock.StrandedRunHasStep | src/registry/loader_lock.rs:133-142 | every run that ends stranded contains such a step |
| FutexLock.StrandedIsReachable | src/registry/loader_lock.rs:121-161 | two threads can reach a state in which one sleeps on a free lock with nobody left to wake it |
| LinkMaps.LinkedIsTwoWalks | src/runtime/debug.rs:35-116 | the link fields form the list if and only if the walk along `l_next` visits the nodes in order and the walk along `l_prev` from the tail in reverse, both ending |
| LinkMaps.CutAtHead | rtld/impl/src/bootstrap/startup.rs:212-216 | no list starts at a node without a successor and ends at another |
| LinkMaps.LinkedOnlyAs | rtld/impl/src/bootstrap/publish.rs:128-143 | once nodes are linked in an order, a list that starts at one of them is well formed if and only if it is that order, from its first node to its last |
| DebugList.CustomDebug.InitHost | src/runtime/host.rs:192-204 | taking over a host's list finds its last node as the tail |
| DebugList.CustomDebug.CallDebugState | src/runtime/debug.rs:118-122 | each stop records the state, the nodes and whether the links form their list |
| DebugList.CustomDebug.Add | src/runtime/debug.rs:35-72 | whatever the links say, every field an append writes and the two stops; a well-formed list stays one, with the node at its end; without a debugger nothing changes |
| DebugList.CustomDebug.Append | src/runtime/debug.rs:53-66 | the pointer surgery of an append, the empty list included, extends the list and the tail by one node |
| DebugList.CustomDebug.Drop | src/runtime/debug.rs:74-116 | whatever the links say, a node that is not linked changes nothing and for a linked one the fields that change; a well-formed list loses exactly that node, the others keeping their order, and stays well formed if and only if the debug record leads to its first node and no other |
| DebugList.CustomDebug.DropFollowsNoNull | src/runtime/debug.rs:90-112 | on a well-formed list no drop follows a null link |
| DebugList.CustomDebug.Unlink | src/runtime/debug.rs:90-112 | each of the four cases of head and tail, on any links, and the well-formed list without the node |
| DebugList.CustomDebug.Detach | rtld/impl/src/bootstrap/startup.rs:212-216 | clearing a listed node's links leaves a well-formed list if and only if it is the only node |
| DebugList.CustomDebug.Relink | rtld/impl/src/bootstrap/publish.rs:96-126 | after linking the search list, the published list is well formed if and only if it starts at the first map and the tail is the last, and so is the debug record's own if it starts there too |
| StartupList.StartupState | src/runtime/rtld.rs:145-191 | the list is the scope's maps without the dynamic linker, which goes to second place, with the last `libc.so.6` remembered; an empty scope or a root without a map is the error |
| StartupList.StartupMembers | src/runtime/rtld.rs:161-184 | every map of a scope of distinct maps that is not at the dynamic linker's load address occurs once, the dynamic linker exactly once, and no other map at its address |
| StartupList.NonRtldInOrder | src/runtime/rtld.rs:161-179 | entries keep the scope's order |
| StartupList.StartupOrder | src/runtime/rtld.rs:175-184 | the list is main, dynamic linker, dependencies if and only if main does not itself pass for the dynamic linker |
| StartupList.StartupInScopeOrder | src/runtime/rtld.rs:161-179 | of two entries that are not the dynamic linker the first comes from an earlier module of the scope |
| StartupList.LibcMapExactly | src/runtime/rtld.rs:168-170 | the C library's map is the one of the last native module of that name, and null if and only if there is none |
| StartupList.LinkLoadedObjects | rtld/impl/src/bootstrap/publish.rs:128-143 | the loop over the array links exactly that chain, forward and backward |
| StartupList.LinkStartup | rtld/impl/src/bootstrap/publish.rs:110-121 | building and linking together give a chain from main through the dynamic linker to the dependencies, and its reverse |
| RtldStartup.AppendFirst | rtld/impl/src/bootstrap/startup.rs:98-141 | the loader and the main program are appended with well-formed stops, and clearing the loader's links then leaves no list at all |
| RtldStartup.AppendDependencies | rtld/impl/src/bootstrap/startup.rs:217-221 | every dependency is appended and stopped at while no list is there |
| RtldStartup.StartProcess | rtld/impl/src/bootstrap/startup.rs:205-233 | over the whole start, which stops are on a well-formed list, when the published list is one, and that the loader's own record never leads to one again |
| RtldStartup.AloneIsNotFormed | rtld/impl/src/bootstrap/publish.rs:96-126 | without dependencies the list is main and loader, but the tail stays at main |
| InitialStack.HoldsUnique | rtld/impl/src/bootstrap/stack.rs:104-125 | the words of a stack say one thing only: arguments, environment and auxiliary vector are determined |
| InitialStack.ParseAuxv | rtld/impl/src/bootstrap/stack.rs:165-192 | every field is the value of the last entry with its tag, or 0 |
| InitialStack.LastExactly | rtld/impl/src/bootstrap/stack.rs:165-192 | the value taken for a kind is the one of its last entry, and 0 if it does not occur |
| InitialStack.FieldsByNumber | rtld/impl/src/bootstrap/stack.rs:165-192 | which field each kind goes to, by number |
| InitialStack.Parse | rtld/impl/src/bootstrap/stack.rs:104-125 | parsing a well-formed stack finds its counts, positions and auxiliary values |
| InitialStack.MoveDown | rtld/impl/src/bootstrap/stack.rs:136-139 | the overlapping copy, lowest word first, moves every word before it is overwritten and touches nothing else |
| InitialStack.RewriteForProgram | rtld/impl/src/bootstrap/stack.rs:127-162 | the moved stack is well formed with the program's arguments, its head replaced when chosen, the same environment and vector, the returned positions being what a parse finds and `exec_path` the original argument |
| InitialStack.PatchAuxv | rtld/impl/src/bootstrap/stack.rs:194-223 | exactly the values of the patched tags change, entry by entry; kinds, length, terminator and all other words stay |
| InitialStack.PatchedParse | rtld/impl/src/bootstrap/stack.rs:165-223 | parsing the patched vector is parsing the original with the five fields replaced exactly where their tags occur, duplicates included |
| InitialStack.ExecNamePatched | rtld/impl/src/bootstrap/stack.rs:194-223 | the entry for the name the program was started under is replaced where there is one |
| DirectInvocation.HandleDirectInvocation | rtld/impl/src/cli.rs:62-141 | the loop over the arguments ends as the scan specified, for every argument vector |
| DirectInvocation.ScanSkips | rtld/impl/src/cli.rs:98-117 | well-spelled options are stepped over whatever their values look like, the last `--argv0` winning |
| DirectInvocation.ScanStarted | rtld/impl/src/cli.rs:125-135 | what a successful scan stepped over was a sequence of well-spelled options |
| DirectInvocation.StartExact | rtld/impl/src/cli.rs:62-141 | a program is started if and only if the command line is well-spelled options followed by a word that is not an option, and then with that index and name |
| DirectInvocation.OutcomeExactly | rtld/impl/src/cli.rs:62-141 | each way of ending, a missing value and an unknown option included, happens if and only if the command line is well-spelled options followed by the word that asks for it |
| DirectInvocation.StartDirectly | rtld/impl/src/bootstrap/startup.rs:77-81 | reading the stack, scanning and moving down, then reading again finds the program's own view; leaving the process changes nothing |
| DirectInvocation.DirectArguments | rtld/impl/src/bootstrap/startup.rs:77-81 | a command line of options, program and arguments starts the program with exactly those arguments, its name replaced if chosen, environment and vector unchanged |
| LdCache.CmpEqual | src/dlopen/ld_cache.rs:96-102 | byte-wise comparison is equality exactly on equal names |
| LdCache.LessTransitive | src/dlopen/ld_cache.rs:96-102 | byte-wise order is transitive |
| LdCache.CmpLessExactly | src/dlopen/ld_cache.rs:96-102 | one string is less than another if and only if they agree up to a place where the first ends or has the smaller byte |
| Utf8.ValidExactly | src/dlopen/ld_cache.rs:195-202 | the bytes accepted as a string are exactly the UTF-8 encodings of sequences of characters |
| LdCache.ExtractExactly | src/dlopen/ld_cache.rs:195-202 | extracting finds the bytes up to the next zero or the end of the file, if they are UTF-8, and nothing else |
| LdCache.NameExactly | src/dlopen/ld_cache.rs:131-150 | an entry's name is the string counted from the header if it could be a name, and otherwise the one counted from the string table |
| LdCache.PathExactly | src/dlopen/ld_cache.rs:152-169 | and its path likewise, the one from the header if it starts with a slash |
| LdCache.FlagsExactly | src/dlopen/ld_cache.rs:171-192 | an entry passes if and only if the low byte of its flags is 3 and the two architecture bits are not both clear |
| LdCache.FindMagic | src/dlopen/ld_cache.rs:37-42 | the first window holding the magic, or none if there is none |
| LdCache.OpensExactly | src/dlopen/ld_cache.rs:33-68 | a file opens if and only if the header and all entries after its first magic fit, and then every entry read below `nlibs` is in bounds |
| LdCache.DirectionFound | src/dlopen/ld_cache.rs:75-79 | comparing the first and last names finds a direction the table is sorted in, equal ends included |
| LdCache.FirstUsableMeans | src/dlopen/ld_cache.rs:112-121 | the linear scan it is measured against finds the first entry with the name, passing flags and a path, or says there is none |
| LdCache.RunIsAll | src/dlopen/ld_cache.rs:105-113 | in a sorted table a name does not occur outside its run |
| LdCache.ScanRun | src/dlopen/ld_cache.rs:105-123 | from any hit inside a run, walking back and scanning forward gives the linear scan's answer |
| LdCache.Lookup | src/dlopen/ld_cache.rs:70-129 | for every cache whose names decode and are sorted in either direction the lookup is the linear scan; for every other cache a path still comes from an entry with the name, passing flags; and on every cache the answer is what scanning the run around the entry hit by halving gives |
| LdCacheFiles.NumberedIsMissed | src/dlopen/ld_cache.rs:70-129 | a file that opens, all names decoding, in the order of version numbers, in which a usable entry is not found under its name |
| LdCacheFiles.ForeignEntriesSkipped | src/dlopen/ld_cache.rs:105-121 | a file with three entries of one name, the first for another architecture and the second of another type: the lookup gives the third one's path |
| Leases.ReleaseOk | src/registry/manager.rs:478-485 | releasing a lease keeps the context in order and takes exactly the unloaded modules off it |
| Leases.ReleaseExactly | src/registry/manager.rs:478-485 | a release takes its lease and the unloaded modules, and leaves every other module's link map, flags and scope, every other acquisition and every pin |
| Leases.KeptInOrder | src/registry/manager.rs:478-485 | what stays loaded stays in load order |
| Leases.OpenThenClose | src/registry/manager.rs:254-279 | opening a handle and closing it gives the same lease back and restores the table: last in, first out |
| Leases.OtherHandlesKept | src/registry/manager.rs:254-279 | an open or a close changes no other handle |
| Leases.RegisterPuts | src/registry/manager.rs:254-268 | an open puts its lease into the table and no other |
| Leases.CloseTakes | src/registry/manager.rs:270-279 | a close takes one lease on the handle's module out of the table and no other |
| Leases.RegisterKeeps | src/registry/manager.rs:254-268 | a C open hands the lease from its holder to the handle, every other owner keeping theirs |
| Leases.CloseKeeps | src/registry/manager.rs:270-279 | a valid close gives up one lease, and every other acquisition keeps its one owner through the unload |
| Leases.DropKeeps | src/registry/manager.rs:55-66 | dropping a Rust-side lease does the same |
| Leases.FlagsKeep | src/registry/manager.rs:451-476 | setting NODELETE the first time pins the module, so a module that must stay is always pinned |
| Leases.PinsOnce | src/registry/manager.rs:451-476 | setting NODELETE pins the module with one new acquisition the first time, and otherwise pins nothing |
| Leases.FirstLibraryStays | src/registry/manager.rs:254-279 | over any run, the library a handle stands for is the one of the first open since the handle was last not open |
| Leases.RecallsStep | src/registry/manager.rs:254-279 | every call keeps what the table recalls: each handle's depth, and the library of its first open |
| Leases.NodeleteStays | src/registry/manager.rs:416-424 | a module that must stay is never unloaded |
| Leases.LeaseCount | src/registry/manager.rs:254-279 | the acquisitions of a module are its handle's opens less closes, plus those held elsewhere, plus its pins |
| Registry.Manager.AcquireModule | src/registry/manager.rs:389-391 | acquires a committed module once more, for a named owner, and nothing else |
| Registry.Manager.OpenModule | src/registry/manager.rs:383-387 | opens exactly the committed modules |
| Registry.Manager.Promote | src/registry/manager.rs:451-476 | flags only grow, GLOBAL enters the global scope, and NODELETE pins once |
| Registry.Manager.OpenExisting | src/registry/manager.rs:350-354 | promotes and opens the named module, or changes nothing |
| Registry.Manager.RegisterHandle | src/registry/manager.rs:254-268 | first and later opens of a handle, ownership of the lease moving from the caller to the table |
| Registry.Manager.HandleGoodExactly | src/registry/manager.rs:254-279 | in every state of the manager, whatever calls led to it, a handle is good if and only if its opens exceed its valid closes |
| Registry.Manager.ReleaseHandle | src/registry/manager.rs:270-279 | succeeds exactly on a handle opened more often than validly closed before, releasing one lease; any other handle changes nothing |
| Registry.Manager.DropLease | src/registry/manager.rs:55-66 | releases exactly the dropped lease |
| Registry.Manager.LibrarySnapshot | src/registry/manager.rs:369-381 | one new lease for every native module, in load order |
| Registry.NativeExactly | src/registry/manager.rs:369-381 | the snapshot's modules are exactly the native ones among those loaded, each once |
| Registry.NativeInOrder | src/registry/manager.rs:369-381 | in load order |
| Registry.Manager.OpenLoad | src/registry/manager.rs:407-438 | appends the new modules to the load order, counts them, sets their flags, pins them if they must stay, and gives one lease on the root |
| Registry.Manager.RegisterLoaded | src/registry/manager.rs:282-315 | a preloaded object is committed, counted and pinned for good |
| Registry.Manager.RegisterThreadDestructor | src/registry/cxa.rs:22-52 | the destructor owns a lease on the module at its address until it runs; a refusal gives it back |
| Registry.Manager.RunThreadDestructor | src/registry/cxa.rs:16-20 | running gives back exactly its own lease, on a module still loaded |
| Bytes.BytesRoundTrip | src/dlopen/ld_cache.rs:136-140 | reading the little-endian bytes of a number gives the number |
| SelfReloc.Parse | rtld/impl/src/bootstrap/self_reloc.rs:58-112 | parsing gives the last value of each tag, validated, if and only if the section ends within 4096 entries with nothing forbidden before; zero entry sizes are ignored |
| SelfReloc.CanPassThrough | rtld/impl/src/bootstrap/self_reloc.rs:159-163 | true if and only if there is no section, or it ends properly with empty tables and nothing to run |
| RelocImage.LastValueMeans | rtld/impl/src/bootstrap/self_reloc.rs:70-95 | the value taken for a tag is the one of its last entry that counts, and the default if there is none |
| RelocImage.DynReads | rtld/impl/src/bootstrap/self_reloc.rs:71-73 | tag and value written at an entry's place are read back as that entry |
| RelocImage.SectionDescribes | rtld/impl/src/bootstrap/self_reloc.rs:58-112 | a section of table entries, in words of memory and by the numbers of their tags, describes those tables |
| RelocImage.TagsThatMatter | rtld/impl/src/bootstrap/self_reloc.rs:80-108 | which entries are forbidden and which mean something to run, by number |
| RelocImage.RelaReads | rtld/impl/src/bootstrap/self_reloc.rs:121-126 | offset, info and addend written at a record's place are read back as that entry, its kind the low half of info |
| RelocImage.SplitExactly | rtld/impl/src/bootstrap/self_reloc.rs:128-128 | the runs are the only ones free of NONE entries that give the entries back when joined with one NONE between each two |
| SelfReloc.SegmentsInOrder | rtld/impl/src/bootstrap/self_reloc.rs:128-139 | applying the runs between NONE entries one after another equals applying every RELATIVE entry in order |
| SelfReloc.SegmentsApplicable | rtld/impl/src/bootstrap/self_reloc.rs:132-134 | the check made on each run is that every entry is NONE or RELATIVE |
| SelfReloc.BootstrapMemory.RelocateRelative | rtld/impl/src/bootstrap/self_reloc.rs:135-135 | an accepted run writes base plus addend at base plus offset for each entry in order |
| SelfReloc.BootstrapMemory.ApplyRelas | rtld/impl/src/bootstrap/self_reloc.rs:118-139 | succeeds if and only if every entry is NONE or RELATIVE and no run is refused, with memory as if applied one by one; a failure leaves exactly the earlier runs applied |
| SelfReloc.BootstrapMemory.Relocate | rtld/impl/src/bootstrap/self_reloc.rs:154-157 | the exact condition for success from the dynamic section on, and the memory it leaves: without RELR entries, for each RELATIVE record that no later one overlaps the word at base plus its first word is base plus its third, and every word no record asks for is as it was |
| SelfReloc.WordsAreRelocated | rtld/impl/src/bootstrap/self_reloc.rs:118-139 | the same of the tables: what is applied is what the three words of each record say |
| SelfReloc.AppliedValue | rtld/impl/src/bootstrap/self_reloc.rs:118-139 | a RELATIVE entry that no later one overlaps leaves base plus addend in memory |
| SelfReloc.Untouched | rtld/impl/src/bootstrap/self_reloc.rs:118-139 | a word that no entry overlaps keeps its value |
| SelfReloc.ReadWritten | rtld/impl/src/bootstrap/self_reloc.rs:199-206 | a word written byte by byte at any address, wrap-around included, reads back |

## Left out

- The external `elf_loader` crate: linking, symbol resolution, load order, rollback, lazy binding. The registry sees its context as committed modules with counted acquisitions; which unowned modules a release unloads is any choice it makes. What its `relocate_relative` does to entries it accepts is taken from the psABI; which runs it refuses, and what it leaves then, are parameters.
- RELR decoding: `relocate_relr` is a parameter of `SelfReloc.BootstrapMemory.Relocate`.
- DebugList.CustomDebug.Drop: keeping the list well formed is promised only from a well-formed list; in a process that this loader starts, startup writes the same links, and `RtldStartup` says exactly what is left of the list then.
- SelfReloc.BootstrapMemory.ApplyRelas: takes the entries as read before the first write; a relocation aimed at the table itself is not modelled.
- System calls, mapping, reading files, assembly entry points, symbol versions, and what the program does to its own TLS between calls.
- The allocator answers with fresh addresses and never fails: the source aborts on failure. A dynamic registration's, a DTV's and a storage's address is a parameter.
- An image source yields the same bytes every time it is asked, or fails every time.
- The runtime's mutexes: each operation is one step, as the locks make it for one table at a time; interleavings of two threads inside one operation are not modelled.
- The loader locks are transition systems, one step for each atomic access, mutex or futex call, and not methods. Weak memory orderings and starvation are left out, and for the futex lock so is any promise of a wakeup, which it does not keep.
- TlsTheorems.LayoutSound: covers the blocks placed by `register_static_module`; a module added at an offset of the caller's choosing is the caller's responsibility, as in the source, which moves no bound for it.
- TlsThreads.InitWrites: says nothing of storage without room for the current layout, whether the C library handed it in or the runtime laid it out before the layout grew; the source does not check and writes below it, and memory outside thread storage is not modelled. `TlsRoom.RoomExactly` says when that is.
- TlsRuntime.Runtime.AllocateTlsInit: the same.
- `get_addr_soft`, program-header queries on the auxiliary vector, aliases, `next_find` and other symbol searches: reads without state of their own.
- Parsing of option strings is at the level of C strings, and the file checks behind `--verify` and `--list` are only named as ways of leaving.
- glibc structure layouts, tunables, `dlerror`, `dladdr`, `dl_find_object`, memory copy routines and printing.
- Counters of loads and unloads are unbounded numbers; they count one for each module and cannot overflow 64 bits in practice.
