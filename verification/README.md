# A verified model of the JOS kernel, library and file server

Dafny 4.11. `dafny verify --verification-time-limit 0 --warn-contradictory-assumptions dfyconfig.toml` checks every module.

The project models the parts of JOS whose correctness is not visible in any one function:
memory management with its reference counts, copy-on-write fork, the big-lock multi-CPU
kernel with its scheduler and IPC, the user page-fault upcall, the file server with its
block cache and open-file table, pipes, and two small algorithms (the spawn stack and the
stab search). Table sizes such as the page-table fan-out, the number of environments on the
scheduler, `NDIRECT`, `NINDIRECT`, the block size and `PIPEBUFSIZ` are parameters. Only the
two id schemes, which are about particular bit widths, use the source's own constants.

## How it is organised

| modules | what they are |
|---|---|
| `Options`, `Errors`, `Counting`, `Arith`, `Addresses`, `FreeList` | options; error codes; how many keys carry a value; division; user addresses taken apart; linked free lists |
| `Vm`, `VmRuns` | the state `kern/pmap.c` maintains, flattened to sites that name frames, and runs over it |
| `PageTables`, `Pmap`, `PageInit`, `EnvVm`, `PageSyscalls` | the code over physical memory: two-level tables, `pp_ref`, `pp_link`, `page_free_list` |
| `Cow`, `Fork`, `ForkLoop`, `CowRuns` | copy-on-write against eager copying; `pgfault`, `duppage` and `fork` as code; runs of that code are runs of the copy-on-write machine |
| `Kernel`, `KernelInv`, `Sched`, `Smp`, `Traps`, `IpcPages`, `EnvIds` | environments, traps, IPC and the scheduler; round robin; all CPUs interleaved; who stops and starts whom; IPC over memory; env ids |
| `Machine`, `Upcall` | a small x86 with byte memory; the fault frame and the return sequence |
| `FsSpec`, `FsDisk`, `BlockCache`, `FsMeta`, `FileServer`, `FileIo`, `OpenFiles` | block ownership, the disk that shows it, the cache, which calls succeed or panic through it, the code, file ids |
| `PipeRing`, `PipeRefs`, `InitStack`, `StabSearch` | the ring buffer, end-of-pipe detection, argv packing, symbol search |

Code that updates things in place is a class or a method over mutable fields, proved against a
state function. The kernel on several CPUs, and pipes, are step systems: each position names
the next load, store or system call, and any CPU or environment may take the next step.

## Where the code does less than it promises

Each of these is stated as an exact condition, or with a concrete failing state, and the code is modelled as it is.

- `pp_ref` is 16 bits wide: `page_insert` keeps the counts exact if and only if the count does not wrap or the same frame is inserted again (`Vm.InsertIsUpdate`).
- `page_free` has no double-free check: it keeps the invariant if and only if the frame is not free already (`Vm.GiveInvIff`); otherwise the links run in a circle and no list fits them (`Pmap.PhysMem.PageFree`).
- `sys_page_alloc` takes a frame before it looks at the environment id: a frame is lost if and only if the id is bad and memory is not exhausted (`VmRuns.StepKeepsInv`). It also returns `E_INVAL` and `E_NO_MEM` without a minus sign, on which the system call stub panics.
- `page_init` reaches the memory beyond the I/O hole if and only if the last base page is itself on the list (`PageInit.InitialInv`).
- `sys_page_alloc` accepts flags that `duppage` and `pgfault` do not preserve: a page both `PTE_SHARE` and `PTE_COW` stays shared over a store exactly if the store changes nothing or the page is writable (`Cow.StoreSharedIff`), and `duppage` keeps a page without `PTE_U` hidden from the child exactly if it is shared (`Cow.DupKeepsAccessIff`).
- A store by the parent between the two system calls of `duppage` leaks to the child, or is lost (`Cow.StoreBetweenCalls`).
- `env_destroy` of an environment that is already `ENV_DYING` frees it under the CPU that runs it (`KernelInv.DestroyKeepsIff`, `KernelInv.DestroyDyingBreaks`), and `sys_env_set_status` is safe exactly on the targets named in `KernelInv.SetStatusKeepsIff` (`KernelInv.SetStatusBreaks` breaks it).
- The page-fault upcall loses `eip` when the fault happens with `esp` exactly `UXSTACKTOP`, unless `eip` happens to be the address of the word below (`Upcall.TopFaultRestoresIff`, `Upcall.TopOfStackLosesEip`).
- `file_get_block` compares an unsigned number with zero, so on a full disk the error code is stored in the file's slot and `diskaddr` panics: what is stored is sound if and only if that did not happen (`FileServer.Server.FileGetBlock`). Fresh data blocks are not cleared, so holes have no specified content.
- `bc_pgfault` passes the fault address unrounded to `sys_page_map`, so a first touch of a block away from its first byte is a panic. Every file operation goes through the cache: with no page table missing, a read or write is stopped by it if and only if it starts in the middle of a block, or of the indirect block, that is not cached (`FsMeta.ScanFaultsIff`, `FileIo.FileRead`, `FileIo.FileWrite`); a file cannot be cut inside an uncached indirect block (`FileServer.Server.FileSetSize`).
- `flush_block` reads `uvpt` where there may be no page table. `alloc_block` calls it on the block it has just marked in use, so that panic also loses the block (`FsMeta.WalkOutcome`, `FsMeta.FollowOutcome`); `fs_sync` completes only under the condition in `BlockCache.Server.FsSync`.
- `fork` and `spawn` share a descriptor's Fd page before its data page. While one is under way, `_pipeisclosed` can say "closed" although the other end is open (`PipeRefs.ForkMidwayFoolsCheck`); `PipeRefs.ClosedMeans` says exactly when the answer is right.
- `init_stack` checks its lowest address after 32-bit wrap-around, so an argument list longer than everything below the page passes the check (`InitStack.InitStack`, `InitStack.LongArgumentStrays`).
- `stab_binsearch` overshoots when stabs sit both at `addr` and at `addr + 1` (`StabSearch.GapNeeded`).
- `sys_ipc_try_send` reports a permission without having mapped a page exactly when a page is offered, with a non-zero permission, to a receiver at address NULL (`IpcPages.PermTellsTransferIff`, `IpcPages.PermWithoutPage`). `ipc_recv(NULL)` makes such a receiver, because its test of `pg` has no effect (`IpcPages.LibRecvPermIff`).
- `sys_ipc_recv` does not record an address at or above `UTOP`, so a receiver that asks for no page is sent one at the address recorded before, exactly when that is not NULL and the sender offers a page (`IpcPages.StaleAddressIff`, `IpcPages.PageAtStaleAddress`). `env_alloc` does not clear it either, so it may be that of an earlier environment in the slot (`IpcPages.StaleFromPredecessorIff`).

## Model

| member | source | states |
|---|---|---|
| `Vm.DropKeepsInv` | lab/kern/pmap.c:452-457 | clearing a site that nothing hangs off keeps every count exact, tables private and the free list sound, and loses no frame |
| `Vm.TakeKeepsInv` | lab/kern/pmap.c:396-415 | the frame `page_alloc` takes was unnamed with count 0; the invariant holds after, and exactly that frame is in flight |
| `Vm.GiveInvIff` | lab/kern/pmap.c:421-446 | `page_free` keeps the invariant if and only if the frame is not free already |
| `Vm.AddInvIff` | lab/inc/memlayout.h:187 | one more reference keeps the counts exact if and only if the 16-bit count does not wrap |
| `Vm.NewTableKeepsInv` | lab/kern/pmap.c:505-528 | a free frame given to a new table keeps the invariant and no frame is lost |
| `Vm.MapInvIff` | lab/kern/pmap.c:604-622 | mapping below the walk: exact counts if and only if the same frame returns or the count does not wrap |
| `Vm.InsertIsUpdate` | lab/kern/pmap.c:595-622 | `page_insert` is an update of the flat map at one page and nowhere else; exact condition for exact counts |
| `Vm.InsertKeepsUsers` | lab/kern/pmap.c:595-622 | inserting into an empty slot, or the same frame again, frees nothing |
| `VmRuns.DropsKeepInv` | lab/kern/env.c:470-496 | any order of clearing sites, children first, keeps the invariant and loses no frame |
| `VmRuns.EnvFreeExact` | lab/kern/env.c:453-501 | `env_free` lowers each count by exactly the environment's own references and frees exactly the frames only it referenced |
| `VmRuns.AllocAndMapKeepsInv` | lab/kern/syscall.c:217-260 | `sys_page_alloc` keeps the counts; it loses a frame if and only if the id is bad and memory is not exhausted |
| `VmRuns.PageMapKeepsInv` | lab/kern/syscall.c:278-340 | `sys_page_map` keeps the counts if and only if it fails, maps the same frame again, or the 16-bit count does not wrap; then no frame is lost |
| `VmRuns.StepKeepsInv` | lab/kern/syscall.c:217-371 | each operation keeps the invariant if and only if no 16-bit count wraps; then the exact condition under which a frame is lost |
| `VmRuns.ReachableInv` | lab/kern/pmap.c:396-678 | in every reachable state counts are exact, tables private, the free list sound; no frame lost unless an id was bad |
| `VmRuns.StepGrantsNoWrite` | lab/kern/syscall.c:278-340 | no operation makes a frame writable that nobody could write, unless it was free |
| `VmRuns.ReadOnlyStays` | lab/kern/syscall.c:278-340 | over every run a frame that nobody can write stays so until it is freed |
| `PageTables.TranslateIsFlat` | lab/kern/pmap.c:1032-1044 | the two-level walk computes the flat map, for every environment and user page |
| `PageTables.UserMayIsFlat` | lab/kern/pmap.c:482-528 | the hardware's test of a user access, over both levels, allows exactly what the page's recorded flags say |
| `PageTables.StorePresent` | lab/kern/pmap.c:617-621 | writing a present entry changes the represented map at that site only |
| `PageTables.StoreAbsent` | lab/kern/pmap.c:672-677 | clearing an entry removes exactly that site |
| `PageTables.StoreData` | lab/kern/pmap.c:408-412 | writing a user page or an unnamed frame changes no mapping |
| `PageTables.StoreTable` | lab/kern/pmap.c:517-524 | installing a cleared table adds exactly that site |
| `Pmap.PhysMem.constructor` | lab/kern/pmap.c:310-382 | an allocator with a threaded free list and no environment is a valid state |
| `Pmap.PhysMem.PageAlloc` | lab/kern/pmap.c:396-415 | the head of the free list, cleared if asked, or NULL exactly when there is none |
| `Pmap.PhysMem.PageFree` | lab/kern/pmap.c:421-446 | refuses a referenced frame, pushes any other; the list stays a list if and only if the frame was not on it |
| `Pmap.PhysMem.PageDecref` | lab/kern/pmap.c:452-457 | 16-bit decrement, and free at zero, with the same condition on the list |
| `Pmap.PhysMem.PgdirWalk` | lab/kern/pmap.c:482-528 | the table, or NULL exactly when it is absent and cannot or must not be made; user data untouched |
| `Pmap.PhysMem.PageLookup` | lab/kern/pmap.c:636-649 | is lookup in the flat map |
| `Pmap.PhysMem.PageRemove` | lab/kern/pmap.c:667-678 | removes one page; only its table's frame is written; no frame is lost |
| `Pmap.PhysMem.MapInto` | lab/kern/pmap.c:604-622 | same frame, other frame or nothing before: the new state is `Map` of the old, one row written |
| `Pmap.PhysMem.PageInsert` | lab/kern/pmap.c:595-622 | the new state is `Insert` of the old; on E_NO_MEM, which is exactly a failed walk, nothing changed; user data kept |
| `Pmap.PhysMem.EnvSetupVm` | lab/kern/env.c:171-211 | a fresh directory holding the kernel's entries and the self-map; fails exactly when memory is exhausted |
| `FreeList.ChainAppend` | lab/kern/pmap.c:352-378 | linking a slot behind the last one extends the list by exactly that slot |
| `FreeList.CycleHasNoList` | lab/kern/pmap.c:421-446 | a slot pushed while on the list leaves links that no list fits |
| `PageInit.LinkLow` | lab/kern/pmap.c:349-369 | the base-memory loop threads exactly the base pages other than 0 and the MP entry page, in order |
| `PageInit.LinkHigh` | lab/kern/pmap.c:371-378 | the second loop appends the pages beyond the kernel, if the last base page is on the list |
| `PageInit.InitialInv` | lab/kern/pmap.c:310-382 | the state left meets the invariant; every usable frame is on the list if and only if the join worked or there is nothing to join |
| `PageInit.PageInit` | lab/kern/pmap.c:310-382 | `page_init` builds a valid allocator with exactly that free list and those counts |
| `EnvVm.EnvFree` | lab/kern/env.c:453-501 | the nested unmapping loops clear every site of the environment, children first, and no other |
| `PageSyscalls.SysPageAlloc` | lab/kern/syscall.c:217-260 | the exact result code, signs included; success exactly when the arguments pass and enough frames are free; then one cleared, singly referenced page is added; otherwise no mapping changes |
| `PageSyscalls.SysPageMap` | lab/kern/syscall.c:278-340 | the exact result code; on success one flat update, on failure nothing changed |
| `PageSyscalls.SysPageUnmap` | lab/kern/syscall.c:349-371 | the exact result code; removes exactly one page from the flat map |
| `PageSyscalls.PermRejectedIff` | lab/kern/syscall.c:237-239 | the model's permission test is the source's test on the word's bits |
| `PageSyscalls.UserStore` | lab/kern/pmap.c:482-528 | a user store goes through exactly when the two-level hardware test lets it; it changes one word of one frame and can never reach a page table |
| `Cow.StepKeepsLazyInv` | lab/lib/fork.c:14-114 | every step keeps: a frame mapped twice is shared both times or writable neither time |
| `Cow.StepKeeps` | lab/lib/fork.c:14-114 | each copy-on-write step is matched by one step of eager copying |
| `Cow.CowRefinesEager` | lab/lib/fork.c:14-189 | over every interleaving, every environment sees in every page what eager copying would show; shared pages stay common |
| `Cow.EagerStart` | lab/user/dumbfork.c:25-79 | every state with the invariant has an eager counterpart to start from |
| `Cow.StoreBetweenCalls` | lab/lib/fork.c:97-106 | duppage is its two calls; a store between them is harmless if and only if it changes nothing |
| `Cow.StoreSharedIff` | lab/lib/fork.c:14-61 | when a store to a shared page shows through its other mapping |
| `Cow.DupKeepsAccessIff` | lab/lib/fork.c:74-114 | when duppage leaves parent and child the access the parent had |
| `Fork.Duppage` | lab/lib/fork.c:74-114 | fails, with nothing changed, exactly when the child's table cannot be made; otherwise the flat map is that of `DupPage`, whatever the child had there, and contents are kept |
| `Fork.Pgfault` | lab/lib/fork.c:14-61 | succeeds exactly on a user-accessible copy-on-write page with room; then the page is a private writable copy, PFTEMP is unmapped and all other pages are untouched |
| `ForkLoop.ForkedAt` | lab/lib/fork.c:155-169 | page by page: what the loop maps in the child, changes in the parent, and leaves alone |
| `ForkLoop.ForkPages` | lab/lib/fork.c:155-169 | the loop maps every present page in range with duppage's flags, keeps all contents, and stops only when memory is exhausted |
| `ForkLoop.ForkChild` | lab/lib/fork.c:132-189 | the loop and the child's own cleared exception stack; failure only with at most one frame free |
| `ForkLoop.ForkViews` | lab/lib/fork.c:132-189 | after fork both see what the parent saw; private pages writable in neither, shared pages the same frame |
| `ForkLoop.ForkKeepsLazyInv` | lab/lib/fork.c:132-189 | the loop keeps the copy-on-write invariant |
| `CowRuns.Perform` | lab/lib/fork.c:14-114 | a store, a page duplication, an allocation or an unmap by the code is the copy-on-write machine's step for that act; it fails, with no mapping and no page changed, if and only if a frame it needs is missing or a count would wrap |
| `CowRuns.RunActs` | lab/lib/fork.c:14-114 | every run of the code over memory is the machine's run on the same acts, up to the first that cannot be done, and memory holds its last state |
| `CowRuns.ActsRelated` | lab/lib/fork.c:14-189 | the machine's run on a list of acts stays related to eager copying doing the same acts, which does not look at the machine |
| `CowRuns.MemoryIsEager` | lab/lib/fork.c:14-189 | so after any run of the code memory holds, for every page of every environment and for no other, what eager copying makes of the same acts |
| `KernelInv.SchedYieldKeeps` | lab/kern/sched.c:11-58 | what sched_yield runs was on no CPU, or on this one |
| `KernelInv.ReturnKeeps` | lab/kern/trap.c:316-324 | the end of trap() re-establishes the invariant |
| `KernelInv.DestroyKeepsIff` | lab/kern/env.c:508-525 | destroying another environment is safe if and only if it is not already dying |
| `KernelInv.DestroyDyingBreaks` | lab/kern/env.c:508-525 | a state with two CPUs in which a second destroy breaks the invariant |
| `KernelInv.SetStatusKeepsIff` | lab/kern/syscall.c:113-140 | sys_env_set_status is safe if and only if the target is the caller, or on no CPU and not a receiver being made runnable |
| `KernelInv.SetStatusBreaks` | lab/kern/syscall.c:113-140 | a state with two CPUs in which setting a child's status breaks the invariant |
| `KernelInv.SendKeeps` | lab/kern/syscall.c:411-472 | a send, whatever memory says to its page, keeps every environment's mailbox consistent |
| `KernelInv.DispatchKeeps` | lab/kern/trap.c:197-324 | every trap leaves a state from which the scheduler restores the invariant |
| `Smp.StepKeeps` | lab/kern/spinlock.c:60-120 | every step of every CPU keeps lock, positions and environments consistent |
| `Smp.ReachableInv` | lab/kern/trap.c:266-324 | the invariant in every reachable state |
| `Smp.BootInv` | lab/kern/init.c:51-56 | it holds before any CPU has taken the lock |
| `Smp.MutualExclusion` | lab/kern/spinlock.c:60-120 | at most one CPU in the kernel; "already holding", "spin_unlock" and assert(curenv) unreachable |
| `Smp.OneCpuPerEnv` | lab/kern/env.c:508-594 | with the lock free, an environment is running or dying if and only if exactly one CPU has it |
| `Smp.ExactlyOnce` | lab/lib/ipc.c:22-71 | what receives returned is the sequence of successful sends, short of at most one delivered message |
| `Smp.MessageStable` | lab/kern/syscall.c:485-508 | no step of any CPU changes a delivered message, its sender or its permission before it is read |
| `Smp.SendExact` | lab/kern/syscall.c:411-472 | a failed send changes no environment; a successful one the message fields of its target only; success exactly when the target is blocked in receive and memory accepts the page, if one is asked for |
| `IpcPages.Envs.TrySend` | lab/kern/syscall.c:411-472 | on every error environments, mappings and memory are unchanged; on success exactly one page_insert at the receiver's address, or none; the exact code |
| `IpcPages.SendPage` | lab/kern/syscall.c:428-459 | each test on the page and what it leaves alone; the receiver's page becomes the sender's frame and no other page changes |
| `IpcPages.Envs.Recv` | lab/kern/syscall.c:485-508 | fails exactly for an unaligned user address, with nothing changed; otherwise the caller and nobody else waits, with its last message intact, at the address given or, if none below UTOP was, at the one recorded before |
| `IpcPages.PermTellsTransferIff` | lab/kern/syscall.c:382-387 | env_ipc_perm is perm if a page was transferred and 0 otherwise, if and only if none was offered with a non-zero permission to a receiver at NULL |
| `IpcPages.StaleAddressIff` | lab/kern/syscall.c:478-500 | when a receiver that asked for no page is sent one, and where |
| `IpcPages.StaleFromPredecessorIff` | lab/kern/env.c:221-284 | the same for the first receive of a new environment, from what its slot held before |
| `IpcPages.LibRecvPermIff` | lab/lib/ipc.c:5-50 | for pg below UTOP, ipc_recv's promise about *perm_store holds if and only if pg is not NULL or no page is offered |
| `IpcPages.PermWithoutPage` | lab/kern/syscall.c:451-459 | from any booted memory with five free frames, system calls after which a permission is reported to an environment that has no page |
| `IpcPages.PageAtStaleAddress` | lab/kern/syscall.c:485-508 | from any booted memory with five free frames, system calls after which an environment that asked for no page has the sender's at an old address |
| `Addresses.SplitIs` | lab/kern/syscall.c:428-433 | the tests against UTOP, the page size and NULL can be made on the parts of an address, and nothing is lost |
| `Sched.FindRunnable` | lab/kern/sched.c:32-57 | the loop finds the first runnable slot going round from the current one, or none |
| `Sched.PassedOverIsNearer` | lab/kern/sched.c:32-57 | a runnable slot that is passed over comes strictly nearer |
| `Sched.BoundedWaiting` | lab/kern/sched.c:32-57 | of NENV consecutive picks one picks an environment that stays runnable until picked |
| `Sched.SchedYieldExact` | lab/kern/sched.c:11-58 | sched_yield runs the runnable environment next round, goes on with its own, or halts, each exactly when; who is switched out is runnable and nothing else changes |
| `Sched.ReturnExact` | lab/kern/trap.c:316-324 | the end of trap() goes on with the environment if it is running, and otherwise is sched_yield |
| `Sched.SchedKeepsReady` | lab/kern/env.c:568-594 | however the kernel is left, every environment is runnable or running after exactly if it was before, its record otherwise unchanged |
| `Sched.YieldsWithinTurn` | lab/kern/sched.c:32-57 | bounded waiting stated of sched_yield itself |
| `Sched.RestartsAtZero` | lab/kern/sched.c:32-57 | a CPU without an environment picks the lowest runnable slot, whoever waited longer |
| `Traps.ResolvesIff` | lab/kern/env.c:75-109 | envid2env finds the environment that has the id, wherever it is; with permission checked, the caller and its children only |
| `Traps.ExoforkMakesChild` | lab/kern/env.c:221-284 | the new environment has its id, is the caller's child, cannot run yet and has received nothing; the caller can name it; no other record changes |
| `Traps.StepKeepsIds` | lab/kern/env.c:235-239 | over every step of every CPU ids stay those of their slots, so no two environments in use share one |
| `Traps.DestroyEnds` | lab/kern/env.c:508-525 | who is destroyed is freed, or a zombie if another CPU has it; the caller gives up its CPU only if it ends itself; no other record changes |
| `Traps.ZombieReaped` | lab/kern/trap.c:266-324 | the next trap of the CPU that has a zombie frees it, whatever the trap is for |
| `Traps.StepReady` | lab/kern/trap.c:197-324 | over every step of every CPU an environment can run after it exactly if it could before, but for traps that stop, start or create it |
| `Traps.TickSwitches` | lab/kern/trap.c:197-324 | a clock tick gives the CPU to the runnable environment next round |
| `Traps.YieldsIff` | lab/kern/trap.c:197-324 | which traps go on to sched_yield: a tick, a blocking receive, and what ends the environment itself |
| `Traps.LoadsReturnMessage` | lab/lib/ipc.c:22-50 | after a send the receiver's two loads return its sender and value, once |
| `EnvIds.KthIdIs` | lab/kern/env.c:235-239 | the k-th id of a slot in closed form, positive, carrying its slot, through the 32-bit wrap |
| `EnvIds.IdsRepeatIff` | lab/kern/env.c:235-239 | two ids are equal if and only if same slot and a multiple of 2^19 - 1 uses apart |
| `EnvIds.HandleResolvesIff` | lab/kern/env.c:75-109 | what an old id resolves to after any later history |
| `EnvIds.StaleHandleRejected` | lab/kern/env.c:75-109 | a dead environment's id is rejected until 2^19 - 1 more uses of its slot |
| `EnvIds.EnvTab.constructor` | lab/kern/env.c:117-138 | env_init's free list runs through all slots in order |
| `EnvIds.EnvTab.EnvAlloc` | lab/kern/env.c:221-284 | the head slot and its next id, or the error, and the exact new table |
| `EnvIds.EnvTab.EnvFree` | lab/kern/env.c:497-500 | the slot heads the free list and keeps its id |
| `Upcall.ReturnRestores` | lab/lib/pfentry.S:34-96 | the instruction sequence brings back every register, the flags and esp, and eip except in one named case |
| `Upcall.BodyKeeps` | lab/kern/trap.c:380-427 | a handler, nested faults and all, leaves its frame and everything above it as they were |
| `Upcall.HandlerSees` | lab/kern/trap.c:380-427 | the handler starts at the upcall with the frame on its stack, whose first two words are the fault address and the error code, and still are after any nested faults |
| `Upcall.NestedFaultRestores` | lab/kern/trap.c:380-427 | a fault on the exception stack, at any depth, restores the whole state and overwrites no live outer frame |
| `Upcall.TopFaultRestoresIff` | lab/lib/pfentry.S:34-96 | a fault on the ordinary stack restores the state if and only if esp was not UXSTACKTOP, or eip was the address of the word below it; off the page only the word below esp changes |
| `Upcall.TopOfStackLosesEip` | lab/lib/pfentry.S:34-96 | a fault with esp at UXSTACKTOP resumes at the address of the word below |
| `Upcall.NestingFitsIff` | lab/kern/trap.c:380-427 | faults nest exactly as deep as frames with their scratch words fit the page |
| `FsSpec.ClaimKeeps` | lab/fs/fs.c:57-79 | giving a free block to an empty slot keeps single ownership and the set of lost blocks |
| `FsSpec.ReleaseKeeps` | lab/fs/fs.c:425-438 | so does giving a block back |
| `FsSpec.ResizeKeepsIff` | lab/fs/fs.c:468-476 | a new size is consistent if and only if no slot beyond it is in use |
| `FsDisk.WriteEntry` | lab/fs/fs.c:146-180 | storing an indirect entry changes the represented ownership at that slot only |
| `FsDisk.NewIndirect` | lab/fs/fs.c:158-172 | a cleared block becomes an indirect block with no entries |
| `FsSpec.LoseOne` | lab/fs/fs.c:70-76 | a block marked in use that no slot gets keeps single ownership and is the one block lost |
| `FsMeta.WalkOutcome` | lab/fs/fs.c:146-180 | file_block_walk's errors and its panic in flush_block, each if and only if a condition on the state before |
| `FsMeta.FollowOutcome` | lab/fs/fs.c:190-206 | the panics of reading and filling a slot: in bc_pgfault, in diskaddr, in flush_block, each if and only if |
| `FsMeta.TurnFaults` | lab/fs/bc.c:29-72 | one block of a transfer: it faults only if misaligned, and misaligned it gets no further |
| `FsMeta.ScanEnds` | lab/fs/fs.c:370-421 | how a whole transfer can end, and the block under no page table that a panic in flush_block names |
| `FsMeta.ScanFaultsIff` | lab/fs/fs.c:370-421 | with no table missing, the cache stops a transfer if and only if it starts misaligned, and otherwise only a full disk does |
| `FsMeta.MidBlockFaults` | lab/fs/bc.c:29-72 | a write inside the first block of a new file panics unless the block it is given happens to be cached |
| `FileServer.Server.Access` | lab/fs/bc.c:29-72 | a load or store through the cache goes through if and only if the block is cached, or in use and touched first at byte 0; then it is cached; otherwise nothing changed |
| `FileServer.CacheBehind` | lab/fs/bc.c:29-102 | in every sound state the blocks, the bitmap and the cached pages are what a run of the cache's operations leads to, and the stores alone make the contents |
| `FileServer.Server.AllocBlock` | lab/fs/fs.c:57-79 | the first free block, -E_NO_DISK, or the panic in flush_block, as the state decides |
| `FileServer.Server.FileBlockWalk` | lab/fs/fs.c:146-180 | the slot of a file block or the exact failure; allocates at most the indirect block; existing blocks untouched |
| `FileServer.Server.FileGetBlock` | lab/fs/fs.c:190-206 | the block, each error and each panic as the state decides; what is stored is sound if and only if diskaddr did not panic, and then no assignment of blocks fits it |
| `FileServer.Server.FileFreeBlock` | lab/fs/fs.c:425-438 | drops exactly that slot, with the walk's code; panics, with nothing changed, exactly at an uncached indirect block's inside |
| `FileServer.Server.FileTruncateBlocks` | lab/fs/fs.c:449-465 | drops exactly the slots beyond the new size, the indirect block included; the exact panic |
| `FileServer.Server.FileSetSize` | lab/fs/fs.c:468-476 | the new size and exactly the slots it needs; the exact panic, with nothing changed; single ownership and lost blocks unchanged |
| `FileServer.NothingFits` | lab/fs/fs.c:200-205 | a slot holding a number beyond the disk fits no assignment of blocks to slots |
| `FileIo.FileRead` | lab/fs/fs.c:370-392 | returns the stored bytes, no more than asked for, none beyond the end and fewer than asked for only at the end; ends as the transfer over its blocks does; with no table missing, exactly when the cache stops it, and otherwise only a full disk |
| `FileIo.FileWrite` | lab/fs/fs.c:399-421 | the range holds the data, the size is extended as needed, every other allocated byte of every file is unchanged; ends as for a read |
| `FileIo.TransferFaultsIff` | lab/fs/fs.c:370-421 | the same for every offset and count within MAXFILESIZE |
| `FileIo.WrittenReadsBack` | lab/fs/fs.c:370-421 | a later read of the range is the data, through any growth in between |
| `FileIo.WriteThenRead` | lab/fs/fs.c:370-421 | the two calls in sequence round-trip when neither is stopped |
| `FileIo.ServeOne` | lab/fs/fs.c:370-476 | one request is answered as pread, pwrite or ftruncate would, or ends in the error or panic that its blocks decide |
| `FileIo.Serve` | lab/fs/fs.c:370-476 | over every run each request is so answered from the state the one before left; the ownership invariant holds and the lost blocks are the same ones; exactly a panic ends the run, and which panic says whether the state is sound and which block is lost |
| `BlockCache.StepRefines` | lab/fs/bc.c:29-102 | fault-in, write-back and eviction of clean pages do not show; a store shows as one block update |
| `BlockCache.StepExact` | lab/fs/bc.c:29-102 | which page comes, goes, is dirtied or cleaned, and which disk block is written, by each operation |
| `BlockCache.CacheIsTransparent` | lab/fs/bc.c:29-102 | over every run the cache stands for the array that the stores alone produce |
| `BlockCache.UnmapKeepsViewIff` | lab/fs/bc.c:29-102 | unmapping changes the view if and only if the page differs from its disk block |
| `BlockCache.TableOfIs` | lab/fs/bc.c:14-18 | a page table covers consecutive blocks |
| `BlockCache.Server.BcPgfault` | lab/fs/bc.c:29-72 | exactly when the handler panics, for want of a frame included; otherwise the block is cached, clean, and the view unchanged |
| `BlockCache.Server.FlushBlock` | lab/fs/bc.c:81-102 | exactly when it panics, diskaddr's test included; otherwise the disk block equals the view, the page is clean and no other block changed |
| `BlockCache.Server.FsSync` | lab/fs/fs.c:501-507 | completes if and only if no block panics; then the disk equals the view, which has not changed |
| `OpenFiles.OpenTab.constructor` | lab/fs/serv.c:51-61 | serve_init's loop gives slot i the id i |
| `OpenFiles.OpenTab.OpenfileAlloc` | lab/fs/serv.c:64-84 | the search loop is the function `Open` of the table |
| `OpenFiles.OpenExact` | lab/fs/serv.c:64-84 | fails for want of a slot exactly if every slot is held; otherwise the first free one gets its next id and no other changes; memory is needed only for a slot never used |
| `OpenFiles.OpenTab.OpenfileLookup` | lab/fs/serv.c:87-97 | looking at one slot finds the slot that carries the id and is mapped by a client, wherever in the table it is |
| `OpenFiles.LookupFinds` | lab/fs/serv.c:87-97 | no two slots can carry one id, so the residue decides |
| `OpenFiles.NeverReissuedWhileHeld` | lab/fs/serv.c:64-84 | a slot that a client maps is never issued again |
| `OpenFiles.OpenShareDrop` | lab/fs/serv.c:64-97 | an id resolves from a client's first mapping until its last unmapping, and then the slot is free again |
| `OpenFiles.FileIdResolvesIff` | lab/fs/serv.c:64-97 | what an issued id resolves to after any history; it resolves throughout while a client holds it |
| `OpenFiles.IssuedId` | lab/fs/serv.c:64-84 | the id names its slot, and is non-negative exactly in the first half of each cycle of 2^22 issues |
| `PipeRing.ReadKeeps` | lab/lib/pipe.c:104-137 | each load, store and increment of the reader keeps the ring's invariant |
| `PipeRing.WriteKeeps` | lab/lib/pipe.c:139-172 | and each of the writer's |
| `PipeRing.EmptyPipe` | lab/lib/pipe.c:28-73 | a new pipe meets the ring's invariant |
| `PipeRing.PipeIsFifo` | lab/lib/pipe.c:104-172 | in every interleaving positions stay within PIPEBUFSIZ and bytes read are a prefix of bytes written |
| `PipeRing.ReadTakes` | lab/lib/pipe.c:104-137 | a reader left alone takes the oldest byte if there is one, and otherwise gives up |
| `PipeRing.WriteAdds` | lab/lib/pipe.c:139-172 | a writer left alone adds its byte if there is room, and otherwise gives up |
| `PipeRefs.StepKeeps` | lab/lib/fd.c:100-201 | pipe, close, dup, fork, giving up a fork, exit, destroy and the check, preempted anywhere, keep an end's Fd page and the pipe page paired both ways, outside a child being filled or left half filled and a close or dup half done |
| `PipeRefs.StartInv` | lab/lib/pipe.c:28-73 | a system with nothing mapped is a start |
| `PipeRefs.FirstPipe` | lab/lib/pipe.c:28-73 | a pipe's two ends are open once each and its page is mapped twice |
| `PipeRefs.OpenThenClose` | lab/lib/fd.c:100-159 | opening a file takes a descriptor and closing it leaves all as before |
| `PipeRefs.Balance` | lab/lib/pipe.c:75-89 | the exact balance between references to the pipe page and to its two ends |
| `PipeRefs.ClosedMeans` | lab/lib/pipe.c:75-89 | "closed" is right if and only if missing and spare pipe pages are equally many; with no fork under way it is right |
| `PipeRefs.OpenMeans` | lab/lib/pipe.c:75-89 | "open", with no fork under way, counts the other end's descriptors and the spare pipe pages of half-done closes and dups |
| `PipeRefs.SettledAnswer` | lab/lib/pipe.c:75-89 | with nothing half done the answer is "closed" if and only if the other end has no descriptor |
| `PipeRefs.CloseLetsGo` | lab/lib/pipe.c:185-190 | a close of an end unmaps both its pages and nothing else |
| `PipeRefs.DupShares` | lab/lib/fd.c:173-201 | dup gives the new descriptor the pages of the old one and changes nothing else |
| `PipeRefs.ForkCopies` | lab/lib/fork.c:155-169 | a finished fork has given the child every descriptor, page for page |
| `PipeRefs.PipeCountsSound` | lab/lib/pipe.c:75-89 | in every reachable state with no fork under way the pipe page outnumbers its ends and "closed" means the other end is gone; with nothing half done the answer is exactly right |
| `PipeRefs.ForkMidwayFoolsCheck` | lab/lib/fork.c:155-169 | a run in which a half-done fork makes the check say "closed" with a reader open |
| `InitStack.InitStack` | lab/lib/spawn.c:185-246 | refuses, packs or strays, each with its exact condition; a packed page unpacks from init_esp to argc and every string, and the rest stays zero |
| `InitStack.FilledUnpacks` | lab/lib/spawn.c:235-246 | following child addresses through a filled page recovers the arguments |
| `InitStack.LowestAt` | lab/lib/spawn.c:199-212 | the address checked is the top less what is needed, in 32-bit arithmetic |
| `InitStack.LongArgumentStrays` | lab/lib/spawn.c:209-212 | an argument as long as everything below the top of the page passes the check |
| `StabSearch.MovedKeeps` | lab/kern/kdebug.c:65-91 | one turn of the search keeps what it knows about both sides |
| `StabSearch.MovedProgresses` | lab/kern/kdebug.c:65-91 | every turn narrows the range, except a hit at l, which cannot happen twice running |
| `StabSearch.StabBinsearch` | lab/kern/kdebug.c:59-103 | ends on every table; the right edge and the last stab at or below addr, and the answers when there is none |
| `StabSearch.GapNeeded` | lab/kern/kdebug.c:84-90 | with stabs at addr and addr + 1 the search ends beyond addr |

## Left out

- Devices, boot, GDT and IDT set-up, `mem_init`'s fixed mappings, `mpconfig.c`: hardware tables and I/O; `ide_read` and `ide_write` are atomic block copies.
- TLB contents: translation reads the tables; `env_run` reloads `cr3` before user code runs again.
- `load_icode`, `map_segment`, `copy_shared_pages` beyond its mapping order, printing, the shell and user programs: easier members or thin callers.
- Directories and path lookup (`dir_lookup`, `walk_path`, `file_create`): loops over file contents that add no new invariant.
- Crash consistency: `alloc_block` flushes the data block rather than the bitmap block, so no ordering is claimed.
- The starting disk image: a consistent volume is assumed to begin with.
- Smp.SendExact: on several CPUs a send carries memory's answer about its page as a label, so that the results hold for every answer; `IpcPages.Envs.TrySend` computes it from memory.
- Permission words are the 12 low bits; `sys_page_map` and `sys_ipc_try_send` do not mask higher ones.
- The kernel on several CPUs is modelled as steps on values rather than as a class, because any CPU may take the next step; aliasing between CPUs is the shared value itself.
- Smp.StepKeeps: supposes the hypotheses named in `KernelInv.Polite`: environments are destroyed and have their status set only as the exact conditions of those two calls allow, and a program does not receive again before it has read the last message.
- Upcall.TopFaultRestoresIff: supposes that the word below the trap-time esp is writable, which the source leaves to the user.
- Cow.CowRefinesEager: leaves out pages without PTE_U and pages both PTE_SHARE and PTE_COW, of which it is false; `Cow.DupKeepsAccessIff` and `Cow.StoreSharedIff` say exactly how.
- ForkLoop.ForkChild: supposes that no frame's 16-bit count wraps during the loop.
- PipeRing.PipeIsFifo: positions are unbounded, so it says nothing once 2^31 bytes have passed.
- PipeRefs.PipeCountsSound: one CPU; on several, `env_runs` does not reveal a change made elsewhere. Each pipe is looked at alone, and a new one is made when none of its pages is mapped. `pipe` and `open` are single steps.
- PipeRefs.StepKeeps: a child that is being filled is destroyed by the parent that fills it only, which `envid2env` permits to nobody else.
- InitStack.InitStack: supposes that the total size is below 2^32, and an allocated page; the system calls after the packing are `PageSyscalls`.
- StabSearch.StabBinsearch: the condition on addr + 1 is sufficient and not necessary, since whether the second stab is met depends on the order of probes.
- FileServer.Server.Access: supposes that a frame can be had for a cache page, and that the bitmap and the File record are cached, as `check_bitmap` and the path lookup leave them on a disk with one bitmap block.
- FileIo.FileRead: where a free block lies under no page table the ending is given block by block (`FsMeta.Scan`), not in closed form.
- FileServer.Server.FileBlockWalk: allocates only for blocks below the file's size, as its callers do.
- FileServer.Server.FileGetBlock: called only for blocks below the file's size, as its callers do.
- FileIo.FileWrite: File records are kept apart from the data blocks of the directory that holds them, so the change of a record is not also a change of that directory's bytes.
- Sizes and offsets of files are unbounded naturals; negative `off_t` values are not modelled.
