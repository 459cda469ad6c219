# Verified models of the kernel's core algorithms

Dafny models of the parts of this x86_64 kernel that hold algorithms rather than device plumbing, with proofs of the properties they are written for. Code that updates state in place is modelled by classes and methods with the same loops, branches and constants; each method is proved against a function or predicate on values, and the long-range properties are proved about those.

| file | models |
|---|---|
| `Bootmem.dfy` (with `Bits.dfy`) | the boot allocator: page bitmap and bump pointer |
| `PageTable.dfy`, `Ept.dfy` | four-level page tables as trees in physical memory; mapping and walking extended page tables |
| `NestedEpt.dfy`, `VcpuMmu.dfy`, `StaleShadow.dfy` | nested paging: the walk of L1's tables through L0's, and the shadow tables that compose the two |
| `GuestMemory.dfy` | memory zones of a guest, and copies in and out of them |
| `VmxRun.dfy` | the run loop over vmcs01, vmcs02 and the shadow VMCS |
| `Vmcs12.dfy` | the field table of the vmcs12 and its copies to and from the shadow VMCS |
| `Scheduler.dfy`, `RunQueues.dfy`, `Fairness.dfy` | the scheduler as functions on values: one queue, several CPUs, and fairness |
| `List.dfy`, `TaskKernel.dfy` | intrusive circular lists at pointer level, and the scheduler code over them |
| `Paging.dfy` | demand paging with a private lower half for each task |
| `TransferRing.dfy`, `EventRing.dfy`, `CommandRing.dfy` (with `Laps.dfy`) | the three xHCI rings with a concurrent controller |
| `Framebuffer.dfy` | the overlapping two-dimensional copy |
| `Irq.dfy` | bitmap regions and interrupt vectors |

`dafny verify dfyconfig.toml` checks all files together.

## How the model reads the code

- Physical addresses, frames and lengths are unbounded integers where the code cannot overflow them. Where wrap-around, truncation or sign matters it is written out: 64-bit ends of ranges, `Decrement` and `Unsigned` for counters, `LowInt` for `min_len`, the signed remaining length of `map_guest_memory`, the casts of `vmcs12_write_any`.
- `kmalloc` has no `return` statement (mm/mm.c:96-99) and is read as returning the allocator's result; `nested_vmx_reflect_vmexit`, `read_guest_memory_gpa` and `write_guest_memory_gpa` (vmx.c:539-557) have none on success and are read as returning 0. Where the code would write through a NULL from the allocator, a method reports `ok == false`, keeps its invariants, and promises that this happens only when the allocator has nothing to give (`Bootmem.Exhausted`, `Bootmem.Refuses`).
- A word of a page table is its frame number and its twelve flag bits. The frame number includes bits 52 to 63 of the word, as the code's masks do, which clear the low bits only; the processor gives these bits other meanings, so what is said about its walks is for entries without them. The same guest memory appears as words in the paging modules and as bytes in `GuestMemory`; the two views are not connected.
- Locks are not modelled: the critical section of `migrate_task` is one step.
- A 16-byte write of an xHCI block is one step, and so is one fetch by the controller, which follows sections 4.9.2 to 4.9.4 of the xHCI specification.
- Inline assembly, VMREAD and VMWRITE appear through their effect on the current VMCS, the launch states and a field map. The outcome of a VM entry, the events a controller produces, the CPUs that are online and the contents of an uninitialized local are parameters.

## Where the code departs from its intent

- 2 MB pages: the software walks take the base from the entry one level too high. For the walks of the kernel's own extended tables (mmu.c:132, 186) the exact condition for agreement with the processor is `Ept.WalkAgreesWithHardware`; the trees built here hold 4 KB pages only, as all callers map them. For the walks of tables a guest keeps (mmu.c:73 for its ordinary tables, 257 for L1's extended tables) it is `NestedEpt.GuestWalkAgreesWithArchitecture`; L1 may well use 2 MB pages, so soundness of the shadow is also stated against the walk of the architecture, which excepts exactly the misread pages (`VcpuMemory.SoundPageIsRight`).
- INVEPT returns before it invalidates anything (nested.c:266-267), and nothing else rebuilds the shadow when L1 changes its tables or its EPT pointer. The shadow stays sound exactly until an event redirects a page it translates (`VcpuMemory.RunIsSound`). Which stores do is a question that can be answered before the store: none that spares the entries on the walks of shadowed pages, or their frame, presence and large-page bit; every one that clears the presence of such an entry; and at a lowest-level entry exactly those for which the host does not map the two L1 pages alike (`VcpuMemory.LowestStoreStalesExactly`). `StaleShadow.Demonstrate` runs the code into a stale shadow.
- `nested_vmx_handle_ept_volation` maps pages for L2 with all permissions (nested.c:1031). That is what L1's tables say exactly if no entry on their walk lacks one (`NestedEpt.AllPermittedExactly`).
- `arch_init_mm` takes CR3 for an address (task.c:98-102), although `switch_mm` puts the task's number into its low twelve bits (tlb.c:8). The new lower half is empty exactly if the 2 KB from there on are zero (`Paging.TaggedCopyIsExact`, `Paging.ShiftedCopyIsExact`); with a tag of 1 to 2048 it is not (`Paging.TagSpoilsCopy`). The callers in the kernel run before the first switch, when the tag is 0.
- The structure `vmcs12` does not have the offsets its comments state (vmcs12.h:222-367): its header is eight bytes, so every member lies eight bytes further. The model follows the structure.
- The last loop of `copy_shadow_to_vmcs12` walks the 64-bit list with the length of the natural-width one (nested.c:937-938). It is left out, so EXIT_QUALIFICATION and GUEST_LINEAR_ADDRESS are not copied back (`Vmcs12.CopiesAreComplete`). Of the host state L1 writes with shadowing on only seven fields come back (`Vmcs12.NestedVcpu.CopyHostFromShadow`). Nine encodings are sent to the shadow although the structure has no member for them, with the value of the field before (`Vmcs12.StaleFields`, `Vmcs12.StaleValue`).
- `nested_vmx_vmexit` takes the exit qualification as 32 bits (nested.c:1035), so L1 learns it exactly if it is below 2 to the 32.
- `migrate_task` moves the list entry but not `length` (kernel/task.c:109-111); `RunQueues.LengthsConserved` says how far each length is off.
- `address_check` lets user faults through exactly where it should refuse them (fault.c:91-103).
- `pick_next_task` never returns if all that runs has priority zero and counter zero; `Scheduler.PickEndsExactly` is the exact condition, which the methods require wherever they call it.
- The command ring's link has no toggle flag and its cycle bit never changes; it works because each command is followed by a zeroed block before the doorbell rings.

## Model

| member | source | states |
|---|---|---|
| `BootMemory.Bootmem.constructor` | mm/bootmem.c:141-166 | after `bootmem_init` a page is free if and only if it lies above 16 MB and the memory map offers it: an accepted type-1 range covers it, or the map is empty and it is below 4 GB |
| `BootMemory.RangeOffersItsPages` | mm/bootmem.c:141-166 | a type-1 range that begins on a page and ends below 64 GB offers exactly the pages it has bytes in |
| `BootMemory.Bootmem.SetArea` | mm/bootmem.c:47-54 | exactly the pages the loop visits become used |
| `BootMemory.Bootmem.ClearArea` | mm/bootmem.c:56-63 | exactly the pages the loop visits become free; a range whose 64-bit end wraps frees nothing |
| `BootMemory.Bootmem.FindFree` | mm/bootmem.c:66-83 | first fit and completeness: the lowest page that starts a free run of ceil(size/4096)+1 pages below 64 GB, and no result exactly if there is no such run |
| `BootMemory.Bootmem.TakeRun` | mm/bootmem.c:85-120 | the run handed out was free, is the first fit, and exactly the pages the block touches become used |
| `BootMemory.Bootmem.ValidAfterFreshBlock` | mm/bootmem.c:85-132 | a block on fresh pages, with the bump page moved there or given up, overlaps no block handed out before |
| `BootMemory.Bootmem.ValidAfterBump` | mm/bootmem.c:114-116 | a block cut from the rest of the bump page overlaps no block handed out before, because the bump page is marked used |
| `BootMemory.DisjointIfNoSharedPage` | mm/bootmem.c:47-54 | the page bitmap is enough to keep blocks apart: non-empty blocks without a common page are disjoint |
| `BootMemory.Bootmem.Alloc` | mm/bootmem.c:85-132 | which branch serves a request, where the block lies, and how much of its page stays for the next one, for every size including zero; the branch at lines 100-104 is shown unreachable |
| `BootMemory.Bootmem.AllocAll` | mm/bootmem.c:85-132 | over any run of requests all blocks granted are pairwise disjoint, 64-byte aligned, page aligned from 4 KB on, below 64 GB and never in the reserved 16 MB; sub-page blocks are packed in the sense below |
| `BootMemory.SmallBlocksPack` | mm/bootmem.c:99-126 | in any run a sub-page block that fits behind the one before it begins less than 64 bytes after its end, unless that one had a page of its own because the rest of the page before was too small |
| `BootMemory.SmallBlocksShare` | mm/bootmem.c:99-126 | sub-page requests in a row that together fit a page, with up to 63 bytes of slack each, share one |
| `PageTable.IndicesNamePage` | arch/x86_64/kvm/vmx/mmu.c:93-145 | two page numbers are told apart by the four table indices if and only if they differ in their low 36 bits |
| `PageTable.NoSharing` | arch/x86_64/kvm/vmx/vmx.c:421-490 | in a well-formed tree no two entries link the same table |
| `PageTable.AddTable` | arch/x86_64/kvm/vmx/vmx.c:443-478 | linking a fresh zeroed table into an empty entry keeps the tree well formed and changes no translation |
| `PageTable.SetLeaf` | arch/x86_64/kvm/vmx/vmx.c:480-487 | writing a lowest-level entry changes the translation of its own page and of no other |
| `PageTable.WalkIsLeaf` | arch/x86_64/kvm/vmx/mmu.c:147-199 | in a well-formed tree the processor reads the lowest-level entry |
| `PageTable.TreeFrame` | arch/x86_64/kvm/vmx/vmx.c:421-490 | a tree and its translations depend on the words of its own tables alone |
| `Ept.WalkAgreesWithHardware` | arch/x86_64/kvm/vmx/mmu.c:147-199 | the software walk and the processor's walk agree if and only if the walk does not end at a 2 MB page whose base differs from that of the entry one level up |
| `Ept.WalkMisreads2M` | arch/x86_64/kvm/vmx/mmu.c:186 | a concrete table on which the software walk gets a 2 MB page wrong |
| `Ept.NewPage` | mm/mm.c:96-99 | a page frame from the allocator was free before and lies above the reserved 16 MB; there is none if and only if no two adjacent pages are free |
| `Ept.EnsureTables` | arch/x86_64/kvm/vmx/vmx.c:443-480 | the descent allocates missing tables, keeps every translation, and reaches the lowest table of the page unless no two adjacent pages are free |
| `Ept.EptMapPage` | arch/x86_64/kvm/vmx/vmx.c:421-490 | the lowest-level entry of every page afterwards: the new one for the mapped page, the old one for all others; the tree stays well formed and grows by at most three fresh frames, which are all that the allocator hands out; it fails only when no two adjacent pages are free |
| `Ept.MappedWalk` | arch/x86_64/kvm/vmx/mmu.c:93-145 | after mapping, the walk of every address on that page gives `hpa` plus the page offset and every other address walks as before |
| `Ept.MapGuestMemory` | arch/x86_64/kvm/vmx/vmx.c:492-514 | the lowest-level entry of every page after the loop has mapped so many pages, which are all of the length, in 64-bit arithmetic, unless no two adjacent pages are free |
| `Ept.RangeLeafIsContiguous` | arch/x86_64/kvm/vmx/vmx.c:492-514 | the loop maps each page of the range to the matching host page, one after the other, and no other page |
| `NestedEpt.CompositeIsPerPage` | arch/x86_64/kvm/vmx/mmu.c:202-275 | page numbers that agree in 36 bits have the same nested translation |
| `NestedEpt.GuestWalkAgreesWithArchitecture` | arch/x86_64/kvm/vmx/mmu.c:202-275 | the software walk of tables in guest memory agrees with the walk the architecture defines if and only if it does not end at a 2 MB page whose base differs from that of the entry one level up |
| `NestedEpt.GuestWalkMisreads2M` | arch/x86_64/kvm/vmx/mmu.c:257 | a concrete L1 table on which the software walk gets a 2 MB page wrong |
| `NestedEpt.CompositeAgreesWithArchitecture` | arch/x86_64/kvm/vmx/nested.c:1008-1033 | what the nested fault handler computes is what the architecture means if and only if the host maps the L1 page found and the L1 page meant alike, as it does off the misread 2 MB pages |
| `NestedEpt.NestedWalkSurvives` | arch/x86_64/kvm/vmx/mmu.c:202-275 | a successful nested walk depends only on the entries it reads, and of these only on the frame, the presence and the large-page bit |
| `NestedEpt.CompositeSurvives` | arch/x86_64/kvm/vmx/nested.c:1008-1033 | a composite translation survives every change of memory that only adds host translations and spares the L1 entries on its way |
| `NestedEpt.RedirectsExactly` | arch/x86_64/kvm/vmx/mmu.c:202-275 | a store that leaves the host's tables alone changes exactly those composite translations whose walk, made before the store with the new value in its place, ends elsewhere |
| `NestedEpt.SparedPage` | arch/x86_64/kvm/vmx/mmu.c:202-275 | among them is no page that is not walked through the entry, and none at all if frame, presence and large-page bit stay |
| `NestedEpt.AbsentEntryRedirects` | arch/x86_64/kvm/vmx/mmu.c:202-275 | among them is every page that is walked through the entry, at whatever level, if the new entry is not present |
| `NestedEpt.LowestEntryRedirects` | arch/x86_64/kvm/vmx/mmu.c:202-275 | for the lowest-level entry of a page: it is spared if and only if the new entry is present and the host maps the L1 page it names like the one before |
| `NestedEpt.AllPermittedExactly` | arch/x86_64/kvm/vmx/mmu.c:202-275 | L1's tables permit L2 everything on a page if and only if no entry on its walk lacks a permission |
| `VcpuMemory.HostMapped` | arch/x86_64/kvm/vmx/vmx.c:930-951 | an EPT fault of L1 keeps both trees well formed and apart, keeps every host translation, and keeps the shadow sound |
| `VcpuMemory.ShadowMapped` | arch/x86_64/kvm/vmx/nested.c:1008-1033 | a nested EPT fault keeps the same, and the shadow gets no translation but the host walk of the L1 walk |
| `VcpuMemory.ShadowCreated` | arch/x86_64/kvm/vmx/nested.c:561-565 | a new top table for the vmcs02 is an empty, sound shadow, and changes no host translation |
| `VcpuMemory.GuestStored` | arch/x86_64/kvm/vmx/nested.c:1008-1033 | a store by a guest into its memory changes no translation of host or shadow, and keeps a sound shadow sound if and only if it redirects no page the shadow translates |
| `VcpuMemory.SparedStores` | arch/x86_64/kvm/vmx/nested.c:1008-1033 | stores that hit no entry a shadowed page is walked through spare the shadow, and so do those that leave frame, presence and large-page bit of the entry |
| `VcpuMemory.ClearedEntryStales` | arch/x86_64/kvm/vmx/nested.c:1008-1033 | a store that clears the presence of an entry a shadowed page is walked through never does |
| `VcpuMemory.LowestStoreIsExact` | arch/x86_64/kvm/vmx/nested.c:1008-1033 | after a store to the lowest-level entry of a shadowed page the shadow is right for it if and only if the new entry is present and the host maps the L1 page it names like the one before |
| `VcpuMemory.LowestStoreStalesExactly` | arch/x86_64/kvm/vmx/nested.c:1008-1033 | the same for the whole shadow, for an entry that is a lowest-level one wherever shadowed pages are walked through it |
| `VcpuMemory.SoundPageIsRight` | arch/x86_64/kvm/vmx/nested.c:1008-1033 | in a sound state a shadowed page goes to the host walk of the architecture's walk of L1's tables, unless L1's walk ends at a misread 2 MB page; and the exact condition for those |
| `VcpuMemory.RunIsSound` | arch/x86_64/kvm/vmx/nested.c:1008-1033 | over every run of host faults, nested faults, stores of both guests, entries of L2, changes of L1's EPT pointer and INVEPTs: the shadow is sound all along if and only if no event redirects a page it translates, and then it is right for the processor too; host translations are only added |
| `VcpuMemory.FaultsKeepSound` | arch/x86_64/kvm/vmx/vmx.c:930-951 | in particular after any host and nested faults, entries of L2 and INVEPTs in any order |
| `VcpuMemory.VcpuMmu.SetCtrlState` | arch/x86_64/kvm/vmx/nested.c:500-565 | the result is -1 if and only if the host lacks a translation for one of the addresses the vmcs12 names, and then nothing changes; otherwise vmcs02 has a top table afterwards, a new and empty one on first use |
| `VcpuMemory.VcpuMmu.HandleHostViolation` | arch/x86_64/kvm/vmx/vmx.c:930-951 | the handler maps the faulting page to a fresh frame, readable, writable, executable and write-back, and keeps the invariants; it fails only when no two adjacent pages are free |
| `VcpuMemory.VcpuMmu.HandleNestedViolation` | arch/x86_64/kvm/vmx/nested.c:1008-1033 | the handler returns 1 exactly if L1 or the host has no translation, and otherwise the shadow translates the page to the composite of the two walks, as write-back memory, unless no two adjacent pages are free; the shadow permits everything, which is what L1 permits if and only if no entry of L1's walk lacks a permission |
| `VcpuMemory.VcpuMmu.Run` | arch/x86_64/kvm/vmx/nested.c:1008-1033 | the code performs a run in the sense above, which ends early only when memory runs out or a nested fault cannot be answered, is sound all along if and only if no event of it redirects a shadowed page, and takes at most four frames for an event |
| `StaleShadow.RemapLeavesShadowStale` | arch/x86_64/kvm/vmx/nested.c:245-267 | every run of a script from an empty machine, in which L1 maps a page for L2, maps it elsewhere, and executes INVEPT: the shadow is sound up to the second mapping and stale after the INVEPT, with L2's page at the old frame |
| `StaleShadow.Demonstrate` | arch/x86_64/kvm/vmx/nested.c:245-267 | the code itself gets there from `bootmem_init` on 4 GB of memory, without running out of it |
| `GuestMemory.ZoneBuilt` | arch/x86_64/kvm/vmx/vmx.c:516-537 | mapping a block where nothing was mapped adds one contiguous zone and changes no translation outside it |
| `GuestMemory.WriteIsExact` | arch/x86_64/kvm/vmx/vmx.c:549-557 | a write of any length inside a zone, though only its first address is translated, sets exactly the named guest bytes |
| `GuestMemory.ReadIsExact` | arch/x86_64/kvm/vmx/vmx.c:539-547 | a read of any length inside a zone returns the guest bytes in order |
| `GuestMemory.RoundTrip` | arch/x86_64/kvm/vmx/vmx.c:539-557 | a write followed by a read of any part of it returns the bytes written |
| `GuestMemory.ZonesKept` | arch/x86_64/kvm/vmx/vmx.c:516-537 | a new zone leaves the zones already in use as they were |
| `GuestMemory.GuestRam.AllocGuestMemory` | arch/x86_64/kvm/vmx/vmx.c:516-537 | success gives a cleared contiguous zone of the rounded size, readable, writable, executable and write-back, and keeps the others; -1 changes nothing and means that the allocator refused one of the two blocks; if memory runs out in the middle, the pages before that point are mapped and no other |
| `VmxRun.Processor.Enter` | arch/x86_64/kvm/vmx/vmx.c:1426-1452 | VMLAUNCH needs a clear and VMRESUME a launched current VMCS, what each outcome does to the launch state (Intel SDM Vol. 3C, section 24.11.3), and every attempt is recorded |
| `VmxRun.Vcpu.constructor` | arch/x86_64/kvm/vmx/vmx.c:49-81 | initialization leaves vmcs01 current and clear |
| `VmxRun.Vcpu.CopyToShadow` | arch/x86_64/kvm/vmx/nested.c:785-863 | where the VMCS pointer ends up, also when no VMCS was current and the reload of the stored pointer fails |
| `VmxRun.Vcpu.NestedVmxRun` | arch/x86_64/kvm/vmx/nested.c:1093-1104 | entering L2 makes vmcs02 current and clear, with shadowing on or off |
| `VmxRun.Vcpu.NestedVmxVmexit` | arch/x86_64/kvm/vmx/nested.c:1035-1061 | leaving L2 makes vmcs01 current and clear, whatever the shadow copies did to the pointer |
| `VmxRun.Vcpu.VmExitHandler` | arch/x86_64/kvm/vmx/vmx.c:1058-1229 | by exit reasons: from L2 only external interrupts and EPT violations keep L2 running, and everything else goes to L1, which learns the reason and the low half of the qualification; from L1 only VMLAUNCH and VMRESUME lead to L2; which exits end the loop; L1's VMPTRLD and nothing else changes the shadow VMCS; with shadowing on L2's entry copies the shadow back, and its exit copies host state back and the vmcs12 there; the discipline between `state`, `guest_mode`, the current VMCS and the launch states is kept |
| `VmxRun.ExitsByReason` | arch/x86_64/kvm/vmx/nested.c:1064-1091 | the same for the functions runs are described with: who runs next and what the host keeps, by exit reason |
| `VmxRun.EndsByReason` | arch/x86_64/kvm/vmx/vmx.c:1426-1452 | an attempt ends the loop if and only if the entry fails, or L1 has an exception or a triple fault, or L2 has an EPT violation without translation |
| `VmxRun.FollowsByReason` | arch/x86_64/kvm/vmx/vmx.c:1426-1452 | over a run: each round is for the one of L1 and L2 that the exit before calls for, and an EPT violation of L2 ends it if and only if it finds no translation |
| `VmxRun.Vcpu.Run` | arch/x86_64/kvm/vmx/vmx.c:1426-1452 | over every run the entries the processor recorded follow each other as the exits say, each on vmcs02 in guest mode and else on vmcs01, by VMLAUNCH if and only if that VMCS is clear, save one after a failed L1 launch, which ends the run; it ends exactly with a failed entry, a hang or an untranslated nested fault |
| `Vmcs12.FieldAtPlace` | arch/x86_64/kvm/vmx/vmcs12.c:12-156 | field encodings and places in `struct vmcs12` determine each other |
| `Vmcs12.SlotsAreDisjoint` | arch/x86_64/kvm/vmx/vmcs12.h:25-187 | two members of `struct vmcs12` never share a byte |
| `Vmcs12.RotationIsSum` | arch/x86_64/kvm/vmx/vmcs12.c:5 | the rotation made of two shifts is the sum of two products |
| `Vmcs12.RotationIsInjective` | arch/x86_64/kvm/vmx/vmcs12.c:5 | the ROL16 index loses nothing of the encoding |
| `Vmcs12.TableIsExact` | arch/x86_64/kvm/vmx/vmcs12.c:7-156 | in whatever order the initializers are listed, none overwrites another and each index holds the offset of its field |
| `Vmcs12.FieldToOffsetIsExact` | arch/x86_64/kvm/vmx/vmcs12.h:375-392 | the lookup finds every member at its offset and refuses every other 64-bit number |
| `Vmcs12.WriteThenRead` | arch/x86_64/kvm/vmx/vmcs12.h:403-459 | a value written is read back, cut to the width of the field |
| `Vmcs12.WriteLeavesOthers` | arch/x86_64/kvm/vmx/vmcs12.h:433-459 | a write leaves all other fields alone |
| `Vmcs12.HighReadsUpperHalf` | arch/x86_64/kvm/vmx/vmcs12.c:8-10 | the HIGH encoding of a 64-bit field reads its upper 32 bits |
| `Vmcs12.HighWritesUpperHalf` | arch/x86_64/kvm/vmx/vmcs12.h:432-459 | a write to the odd encoding sets the upper 32 bits and keeps the lower ones |
| `Vmcs12.CutByEncoding` | arch/x86_64/kvm/vmx/vmcs12.h:441-457 | the width of a field in bits, by bits 13 and 14 of its encoding |
| `Vmcs12.PlaceOfFieldAt` | arch/x86_64/kvm/vmx/vmcs12.h:222-367 | every place of every group of the structure belongs to a field, so the groups have no gaps |
| `Vmcs12.ToShadowIsExact` | arch/x86_64/kvm/vmx/nested.c:785-863 | every field the table knows and the processor accepts arrives in the shadow VMCS; other fields of the shadow keep their values |
| `Vmcs12.StaleValue` | arch/x86_64/kvm/vmx/nested.c:795-799 | a field absent from the table receives the value of the last field before it that is present |
| `Vmcs12.FromShadowIsExact` | arch/x86_64/kvm/vmx/nested.c:865-935 | every field listed comes back with the shadow's value, and fields not listed keep theirs |
| `Vmcs12.FromShadowKeepsExactly` | arch/x86_64/kvm/vmx/nested.c:865-935 | the copy back changes no byte of the vmcs12 if and only if the shadow agrees with it on the listed fields |
| `Vmcs12.ShadowRoundTrip` | arch/x86_64/kvm/vmx/nested.c:785-935 | copying to the shadow and back leaves the vmcs12 byte for byte as it was, for the lists of nested.c |
| `Vmcs12.NestedVcpu.Read` | arch/x86_64/kvm/vmx/vmcs12.h:403-431 | the read through the table yields the field's bytes as a little-endian number, or nothing |
| `Vmcs12.NestedVcpu.Write` | arch/x86_64/kvm/vmx/vmcs12.h:433-459 | the write through the table stores exactly the bytes of the field |
| `Vmcs12.NestedVcpu.CopyToShadow` | arch/x86_64/kvm/vmx/nested.c:785-863 | the loops copy every member that is not host state, if the processor accepts it, and touch neither host state nor upper halves; a field that is no member gets the value of the one before |
| `Vmcs12.NestedVcpu.CopyFromShadow` | arch/x86_64/kvm/vmx/nested.c:865-936 | the loops before the last bring back every member that is not host state, cut to its width, but for EXIT_QUALIFICATION and GUEST_LINEAR_ADDRESS, and leave all others |
| `Vmcs12.NestedVcpu.CopyHostFromShadow` | arch/x86_64/kvm/vmx/nested.c:946-961 | of the host state RIP, RSP, CR0, CR3, CR4 and the bases of GDTR and IDTR come back, and nothing else |
| `Vmcs12.CopiesAreComplete` | arch/x86_64/kvm/vmx/nested.c:298-498 | what the lists hold, by encoding: of the members of the structure exactly those that are not host state go there, and exactly these but two come back |
| `Vmcs12.StaleFields` | arch/x86_64/kvm/vmx/nested.c:298-498 | exactly nine encodings go there without being members |
| `Scheduler.CandidateIsLastMaximum` | kernel/task.c:127-133 | a scan settles on the last running entry with the largest counter, compared unsigned |
| `Scheduler.SpentMeansAllSpent` | kernel/task.c:135-142 | another pass is made if and only if something runs and all that runs has counter zero |
| `Scheduler.PickEndsExactly` | kernel/task.c:126-145 | the `goto` loop ends, after at most one refill, if and only if nothing runs or some running entry has counter or priority left |
| `Scheduler.PickLoopsForever` | kernel/task.c:126-142 | otherwise every further pass finds the same queue |
| `Scheduler.PickIsRight` | kernel/task.c:119-145 | the choice is nothing if and only if nothing runs; otherwise it runs and its counter is not zero |
| `Scheduler.ScheduleIsRight` | kernel/task.c:171-185 | the idle task becomes current if and only if nothing runs |
| `Scheduler.UnsignedIsModular` | kernel/task.c:123-130 | counters are compared modulo 2 to the 64, so negative ones are large |
| `Scheduler.TickCountsDown` | kernel/task.c:214-224 | before a refill each tick uses up exactly one of the ticks that are left and charges at most the current entry, by one |
| `Scheduler.TickRefills` | kernel/task.c:135-142 | with none left the next tick refills every running entry at once |
| `Scheduler.YieldWithoutRefill` | kernel/task.c:171-185 | a voluntary call before a refill leaves the counters alone and makes nobody wait longer |
| `Scheduler.DoAllKeepsSane` | kernel/task.c:119-224 | counters of what runs stay between 0 and `prio` in any mix of ticks and voluntary calls |
| `Scheduler.RefillComes` | kernel/task.c:214-224 | from any sane state the refill comes after exactly as many ticks as the counters say |
| `Scheduler.EpochsRepeat` | kernel/task.c:119-145 | with ticks alone an epoch lasts exactly the sum of `prio + 1` over what runs, and then everything is as it was |
| `Scheduler.ChargedItsPriority` | kernel/task.c:119-224 | from one refill to the next, in any mix of ticks and voluntary calls, everything that runs is charged exactly `prio` ticks |
| `Scheduler.NoStarvation` | kernel/task.c:119-224 | in any mix of ticks and voluntary calls, from any sane state, everything that runs is current before two epochs of ticks are over |
| `RunQueues.MinLoadIsLeast` | kernel/task.c:59-75 | while online lengths are below 2 to the 32, and at most one is 2 to the 31 or more, the first online CPU with the shortest queue; CPU 0 if none is online |
| `RunQueues.ChoiceIsLeastInRuns` | kernel/task.c:59-96 | in every run with fewer than 2 to the 32 tasks a creation with -1 puts the new task on the first online CPU with the shortest queue |
| `RunQueues.CreationIsExact` | kernel/task.c:42-96 | a new task runs, has its priority as counter, and is last on the queue of the CPU asked for, or with -1 of the least loaded one, whose length counts it; nothing else changes |
| `RunQueues.MoveIsExact` | kernel/task.c:99-117 | a migrated task leaves its queue, where the others stay in order, and is last on the other one; lengths, current tasks, counters and states stay |
| `RunQueues.ScheduleIsExact` | kernel/task.c:171-185 | the idle task is current if and only if nothing on the queue runs; otherwise a running task of the queue is that has as much counter as any, and some |
| `RunQueues.ScheduleRefillsExactly` | kernel/task.c:136-140 | counters change if and only if something on the queue runs and all of that has none left: then each of these, and no other, gets its priority |
| `RunQueues.TickIsExact` | kernel/task.c:214-224 | a tick takes one from the counter of the current task, if that has any, and otherwise schedules |
| `RunQueues.ChoiceFailsAtTheBound` | kernel/task.c:62-69 | a run of the model with exactly 2 to the 32 tasks, more than 64 GB of memory hold, after which the truncated comparison picks the longer queue |
| `RunQueues.StepKeepsWellFormed` | kernel/task.c:77-117 | no event loses an entry, puts one on two queues, or leaves `cpu` naming another queue |
| `RunQueues.LengthsConserved` | kernel/task.c:77-117 | over any run the lengths add up to the number of tasks created, and each is off by exactly the net migrations away from its queue |
| `RunQueues.NoMovesNoDepartures` | kernel/task.c:99-117 | without migrations every length stays right |
| `RunQueues.KilledForever` | kernel/task.c:163-185 | in any run of ticks, yields, exits, creations and migrations a CPU that does not run a killed task never runs it again |
| `RunQueues.ExitLeavesTheCpu` | kernel/task.c:163-169 | the exiting task is off its CPU at once |
| `RunQueues.RefillEachIsAll` | kernel/task.c:136-140 | the refill loop over the list refills each running entry of the queue once and nothing else |
| `Fairness.InterleavingProjects` | kernel/task.c:214-224 | however the ticks and voluntary calls of several CPUs interleave, each queue sees its own only and behaves as a single queue |
| `Fairness.EveryTaskRuns` | kernel/task.c:119-224 | on several CPUs, once a CPU has ticked for two epochs, with voluntary calls or not, every running task of its queue has been current there |
| `Fairness.QueuesStaySane` | kernel/task.c:119-224 | on every CPU the counters of running tasks stay between 0 and `prio` |
| `Fairness.EveryTaskGetsItsPriority` | kernel/task.c:119-224 | on every CPU, from one refill of its queue to the next, each running task is charged exactly `prio` ticks |
| `Fairness.CreateKeepsSane` | kernel/task.c:42-57 | tasks created with a positive priority satisfy the premise of fairness |
| `TaskKernel.Kernel.Scan` | kernel/task.c:127-133 | the loop over list pointers returns the candidate of the queue, or what the candidate was before |
| `TaskKernel.Kernel.RefillAll` | kernel/task.c:136-140 | the second loop over list pointers performs the refill |
| `TaskKernel.Kernel.PickNextTask` | kernel/task.c:119-145 | the code with its `goto` picks as specified and leaves the counters as specified |
| `TaskKernel.Kernel.Schedule` | kernel/task.c:171-185 | makes the best running task of the queue current, or the idle task if and only if nothing runs, and refills as specified |
| `TaskKernel.Kernel.TimerTick` | kernel/task.c:214-224 | does what the specification of a tick says, whether it is charged to the current task or schedules |
| `TaskKernel.Kernel.TaskExit` | kernel/task.c:163-169 | marks the task killed and schedules |
| `TaskKernel.Kernel.CpuMinLoad` | kernel/task.c:59-75 | computes the specified choice of CPU |
| `TaskKernel.Kernel.CreateTask` | kernel/task.c:77-96 | links the new task at the end of the list of the CPU asked for, or with -1 of the least loaded one while lengths can be compared; all lists stay well formed |
| `TaskKernel.Kernel.MigrateTask` | kernel/task.c:99-117 | moves the list node between two circular lists and sets `cpu`; `length` stays |
| `TaskKernel.Kernel.Run` | kernel/task.c:77-224 | over any run the linked structures represent exactly the state the specification reaches |
| `List.TestsCount` | include/list.h:193-248 | the pointer tests for empty, singular and last count entries |
| `List.AddTail` | include/list.h:93-96 | a node is appended to the circular list |
| `List.Add` | include/list.h:79-82 | a node is put at the front |
| `List.Del` | include/list.h:125-130 | a node is taken out and poisoned |
| `List.MoveTail` | include/list.h:181-186 | a node moves to the back of another list, or of the same one |
| `List.Move` | include/list.h:170-174 | likewise to the front |
| `List.RotateLeft` | include/list.h:231-239 | the first entry becomes the last |
| `List.CutPosition` | include/list.h:276-288 | the entries up to the given one move to the other head, in order |
| `List.Splice` | include/list.h:309-314 | all entries of one list go to the front of another |
| `List.SpliceTail` | include/list.h:321-326 | all entries of one list go to the back of another |
| `List.SpliceTailInit` | include/list.h:352-359 | and the donor is empty afterwards |
| `Paging.HardwareFindsEntry` | arch/x86_64/mm/fault.c:8-88 | the processor finds a lower-half page of a task where its lowest-level entry says |
| `Paging.EntryDecides` | arch/x86_64/mm/fault.c:38-76 | the tables on the way let everything through, so presence, write and user access of a lower-half page are what its lowest-level entry says |
| `Paging.FramesAreExclusive` | arch/x86_64/mm/fault.c:80-85 | no frame is mapped twice, in one task or in two |
| `Paging.TableAdded` | arch/x86_64/mm/fault.c:38-76 | a new table changes no translation of any task |
| `Paging.PageAdded` | arch/x86_64/mm/fault.c:80-85 | a demand fault maps exactly its page, to a zeroed frame of its own, in exactly its task |
| `Paging.TaskAdded` | arch/x86_64/kernel/task.c:98-102 | a task whose top-level table was copied from an empty lower half starts with an empty lower half of its own |
| `Paging.UpperWalkIsShared` | arch/x86_64/kernel/task.c:98-102 | through a table copied from a page-aligned CR3 the processor translates every page of the kernel's half as through the original |
| `Paging.WordIsItsBytes` | arch/x86_64/kernel/task.c:101 | a copied word that lies across two entries of the source consists of the eight bytes from its address on |
| `Paging.CopiedLinkIsShared` | arch/x86_64/kernel/task.c:98-102 | why that premise is needed: after a copy of a lower half that has a table for a page, a fault of the one task on it gives the other the same translation |
| `Paging.TaggedCopyIsExact` | arch/x86_64/kernel/task.c:98-102 | which copies have an empty lower half when CR3 carries a tag that is no multiple of 8: if and only if the rest of the entry it points into, the 255 entries after it and the first bytes of the next are zero |
| `Paging.ShiftedCopyIsExact` | arch/x86_64/kernel/task.c:98-102 | for a tag that is a multiple of 8: if and only if the 256 entries from the tag on are zero |
| `Paging.TagSpoilsCopy` | arch/x86_64/mm/tlb.c:5-9 | so every tag from 1 to 2048 puts parts of kernel entries into the lower half of the new task once the first kernel entry is present |
| `Paging.AddressCheckRefuses` | arch/x86_64/mm/fault.c:91-103 | as written the check refuses user faults exactly below the kernel's half |
| `Paging.TaskMemory.ArchInitMm` | arch/x86_64/kernel/task.c:98-102 | for any value of CR3, tag included, whose copy has an empty lower half: all 512 entries of the new table are the words from CR3 on, the new lower half is empty, and all others translate as before; it fails if and only if no two adjacent pages are free |
| `Paging.TaskMemory.AllocNewPage` | arch/x86_64/mm/fault.c:8-88 | an unmapped page gets a zeroed frame, open to the user if and only if the user asked and writable unless read-only; a mapped one is left alone, and no other translation of any task changes; it fails only when no two adjacent pages are free |
| `Paging.TaskMemory.PageFaultMm` | arch/x86_64/mm/fault.c:105-120 | a refused fault kills the task and changes no translation; any other one is served, writable and for whom it was, unless no two adjacent pages are free |
| `Paging.RunKeepsEntries` | arch/x86_64/mm/fault.c:105-120 | isolation over any run of creations and faults: a lower-half page never changes its translation once it has one, and gets one by a fault of its own task on that page only |
| `Paging.RunKeepsUpper` | arch/x86_64/mm/fault.c:105-120 | over any run every task keeps its top-level table and all entries of its upper half |
| `Paging.TaskMemory.Run` | arch/x86_64/mm/fault.c:105-120 | the code performs such a run, which ends early only when memory runs out or an event is not possible |
| `TransferRing.ControlKeepsFifo` | drivers/usb/xhci.c:251-281 | the controller consumes the oldest block if one is outstanding, after following the link at the end of a lap, and stops exactly when nothing is left to do |
| `TransferRing.RunIsFifo` | drivers/usb/xhci.c:251-281 | for any interleaving of the driver's writes and the controller's steps, over any number of laps, what is consumed is a prefix of what was inserted, in order and once each |
| `TransferRing.ControllerDrains` | drivers/usb/xhci.c:251-281 | everything outstanding is consumed, one block a step and one step for the link |
| `TransferRing.InsertIsSafeExactly` | drivers/usb/xhci.c:251-281 | an insertion keeps the queue in order if and only if fewer than 255 blocks are outstanding; one more and the controller is stuck |
| `TransferRing.PlacesDiffer` | drivers/usb/xhci.c:1008-1025 | the address in a completion names one outstanding block |
| `TransferRing.Endpoint.InsertTransferTrb` | drivers/usb/xhci.c:251-281 | the code performs the one or two writes, with any number of controller steps in between, and returns the place of the block |
| `EventRing.CheckIsExact` | drivers/usb/xhci.c:1111-1122 | the cycle bit at the driver's place matches if and only if an event waits there, and it is the oldest |
| `EventRing.ProduceKeepsFifo` | drivers/usb/xhci.c:1233-1244 | a controller that respects the dequeue pointer never overwrites an event that is not handled |
| `EventRing.EarlyExitLosesNothing` | drivers/usb/xhci.c:1110 | when the loop gives up early all events are handled and the controller may produce no more |
| `EventRing.Driver.Interrupt` | drivers/usb/xhci.c:1092-1138 | the loop terminates and leaves the ring in exactly the state in which every event produced before its last look is handled, in order and once, with the dequeue pointer behind it and inside the segment |
| `EventRing.RunHandlesInOrder` | drivers/usb/xhci.c:1092-1138 | over any sequence of events and interrupts what is handled is a prefix of what was produced, and each interrupt handles all that was there before it |
| `EventRing.Driver.Run` | drivers/usb/xhci.c:1092-1138 | the code performs such a sequence |
| `CommandRing.InsertKeepsFifo` | drivers/usb/xhci.c:3-26 | all writes stay inside the ring, and the queue stays in order while there is room: fewer than 254 commands outstanding, or 254 and none of this lap executed |
| `CommandRing.InsertIsSafeExactly` | drivers/usb/xhci.c:3-26 | that room is exact: without it the insertion breaks the queue, and the controller stops for good before a command that is not executed, or executes the new one in place of an old one |
| `CommandRing.OneAtATime` | drivers/usb/xhci.c:111-242 | if everything before is completed, an insertion and the doorbell make the controller run exactly that one command and stop |
| `CommandRing.RunIsFifo` | drivers/usb/xhci.c:3-26 | in any run commands are executed in order and once each, although the cycle bit never toggles |
| `CommandRing.StaleCommandNeedsTheDoorbell` | drivers/usb/xhci.c:21-24 | the zeroing after the write is safe because the controller waits: without the doorbell a stale command would run exactly if there is one in the next place |
| `CommandRing.Host.InsertCommand` | drivers/usb/xhci.c:3-26 | the code performs the insertion |
| `CommandRing.Host.Doorbell` | drivers/usb/xhci.c:122-124 | the controller executes all that is inserted and stops |
| `Framebuffer.CopyRowForward` | drivers/video/fbdev/boot_fb.c:31-33 | a row copied from left to right gets the pixels its source had before |
| `Framebuffer.CopyRowBackward` | drivers/video/fbdev/boot_fb.c:39-41 | a row copied from right to left gets the pixels its source had before |
| `Framebuffer.CopyArea` | drivers/video/fbdev/boot_fb.c:22-60 | every pixel after the copy, in all four direction cases, for every two rectangles on the screen |
| `Framebuffer.DestinationShowsSource` | drivers/video/fbdev/boot_fb.c:22-60 | the destination shows what the source showed before the copy |
| `Framebuffer.OthersUntouched` | drivers/video/fbdev/boot_fb.c:22-60 | every pixel outside the destination is as it was |
| `Irq.Bitmap.FindFreeRegion` | include/bitmap.h:60-79 | the lowest free region of the size asked for; nothing if and only if there is none; always nothing for zero bits |
| `Irq.Bitmap.AllocateBits` | include/bitmap.h:81-91 | the lowest free region is claimed and no other bit changes |
| `Irq.FreeRegionIsApart` | include/bitmap.h:81-91 | a claimed region was held by nobody, and the number of set bits grows by its size |
| `Irq.Cpu.Alloc` | kernel/irq.c:4-21 | a grant gets the lowest vectors in a row that nobody holds, all other grants keep theirs, and `irq_nr` moves with the number of set bits |
| `Irq.Cpu.Free` | kernel/irq.c:42-56 | the vector has no holder afterwards, in use before or not, and `irq_nr` is off by one for each call that freed a vector not in use |
| `Irq.Cpu.Run` | kernel/irq.c:4-56 | any sequence of calls is a run on the holders of the vectors, and `irq_nr` moves exactly with the vectors in use less the misused calls |
| `Irq.GrantsKeepVectors` | kernel/irq.c:4-56 | in any run a grant keeps its vectors until they are freed, so no two live grants share one |
| `Irq.AllocIrqsCpu` | kernel/irq.c:4-21 | the CPU with the number asked for grants its lowest free vectors in a row and counts them, and all others, or all on failure, are left alone |
| `Irq.FreeIrqOfCpu` | kernel/irq.c:42-56 | the vector is freed at the CPU with that number, and the result says whether there is one |
| `Irq.LeastLoaded` | kernel/irq.c:58-74 | the first CPU with the smallest counter |
| `Irq.LeastLoadedHasRoom` | kernel/irq.c:58-74 | the counters are a sound guide: the least loaded CPU has a free vector if and only if some CPU has one |

## Left out

- Ept.EptMapPage: models the 4 KB case only; the 1 GB and 2 MB cases of `ept_map_page` have no callers.
- VcpuMemory.VcpuMmu.Run: does not promise a sound shadow after an event that redirects a shadowed page, because the code does not act upon INVEPT or a new EPT pointer; see `StaleShadow.RemapLeavesShadowStale`.
- VcpuMemory.VcpuMmu.SetCtrlState: models lines 500 to 565; the fields copied to vmcs02, the addresses translated after the top table is made, and the revision written for a linked VMCS, which for the translations is a store like any other, are left out.
- VmxRun.Vcpu.VmExitHandler: models the exits that touch VMCS pointers, `state` or `guest_mode`; the register effects of the other handlers are left out.
- Vmcs12.ShadowRoundTrip: needs a processor that accepts VMWRITE to the fields that come back; `Vmcs12.FromShadowKeepsExactly` gives the exact condition otherwise.
- Vmcs12.RotationIsInjective: is stated for the rotation on integers, as a sum of two products; `Vmcs12.RotationIsSum` shows that the shifts of 16-bit words give the same sum.
- Paging.TaskMemory.ArchInitMm: requires a copy with an empty lower half, since a task that shares tables or has kernel entries there is outside the invariant; the copied upper half is taken as it is.
- Paging.TaskMemory.PageFaultMm: models faults on lower-half addresses; the kernel's half is shared by all tasks on purpose.
- Paging.TaskMemory.AllocNewPage: models 4 KB pages without the execute-disable bit, which no caller sets.
- TaskKernel.Kernel.PickNextTask: requires that the `goto` loop ends; where it does not the code hangs.
- TaskKernel.Kernel.Schedule: models the change of `rq->current`; the switch of stacks and address spaces is assembly.
- Fairness.EveryTaskRuns: holds for a fixed set of tasks; creations, exits and migrations change what an epoch is.
- RunQueues.ChoiceIsLeastInRuns: holds below 2 to the 32 tasks; from there on the truncation of lengths shows, as in `RunQueues.ChoiceFailsAtTheBound`.
- CommandRing.InsertKeepsFifo: the insertion is one step for the controller, which is idle until the doorbell.
- EventRing.Driver.Interrupt: the handlers of single events are abstract. Those that wait for a command only read the ring (xhci.c:27-108), so what the controller produces meanwhile counts as arrived before the next look; their search is not part of this model.
- Irq.AllocIrqsCpu: takes the CPUs as one sequence, in the order the nested lists of nodes and CPUs visit them, with different numbers.
- Irq.LeastLoadedHasRoom: assumes bitmaps of one size and as many misused calls of `free_irq` on each CPU, since those make the counters wrong.
- `bitmap_find_free` and `bitmap_allocate_bits_aligned` with an alignment above 1 do not do what they are named for.
- `bootmem_free`, which the kernel declares unsupported.
- The meaning of the bits above the frame number in table entries: execute-disable, and what a guest's processor ignores.
- `boot_fb_fillrect` and `boot_fb_imageblit`, which copy without overlap.
- Device enumeration, descriptors, mass storage, PCI, GPU, Ethernet, IOMMU, ACPI, NUMA and console code.
