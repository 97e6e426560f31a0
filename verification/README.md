# Verification of the boot path

A Dafny model of the parts of Pocketboot that decide what boots and what it may overwrite, with
proofs that hold for every input or every run. `dafny verify dfyconfig.toml` checks the project.
Modules follow the source files; a loop or an object that changes step by step is a method or a class
proved against a function, and the laws are lemmas about that function.

- **Flattened devicetree and kexec hand-off** (`src/kexec.rs`). `Bytes`, `Tokens`, `Tree`, `Dtb` and
  `Contract` model the format of the Devicetree Specification v0.4, sections 5.2 to 5.5, as a lossless
  token stream whose meaning is an event stream whose parse is a tree. On that, `Chosen`, `Memory` and
  `Reserved` show that the streaming rewriters and the one-pass scanner are what a reading of the tree
  says. `Nodes`, `Psci`, `SpinTable`, `SpinGraft`, `SpinBlob` and `SpinCode` treat the spin-table contract,
  whose output must satisfy the contract again; `SpinWitness` and `BlobWitness` have inputs for which it does
  not. `Fits` and `SpinFits` say when the printer, the rewriters and the graft return.
- **Placement** (`mod arm64` of `src/kexec.rs`). `Ranges` and `Placement` show that the search over range
  lists is exact for sets of addresses; `Arm64` composes it with the devicetree part, so that what the
  destination tree reserves is never overwritten; `PlanFits` says when there is a plan.
- **Second-stage preboot shim** (`pocketpreboot/src/fdt.rs`, `msm8916.rs`). `PrebootFdt` is the reader,
  `Msm8916`, `Msm8916Stream`, `Msm8916Again` and `Msm8916Blob` the streaming patcher and its idempotence,
  `Msm8916Cpus` what the next stage finds in the patched tree and `Msm8916Read` its loops on the bytes;
  `PrebootWitness` has the blobs that fail a condition. `Handoff` is what both stages share.
- **Display** (`src/ui.rs`). `Damage` is the pending damage of one buffer, `Display` the three scan-out
  buffers that cache one heap image, over whole runs.
- **A/B slots** (`src/ab_slots.rs`). `Gpt` is loading and the crash-consistent commit (UEFI Specification,
  section 5.3), `AbSlots` the pair updates, `SlotCommit` both together; `DiskWitness` and `SlotWitness` are
  concrete disks.
- **ADB** (`src/adb.rs`). `AdbSync` is the sync parser and sender, `AdbFlow` the output credit as a state
  machine whose steps interleave in any order.
- **RAM trace** (`pocketpreboot/src/ram_trace.rs`, `tools/preboot_ram_trace.py`). `RamTrace` is the writer,
  the decoder and the recovery theorem.
- **What it means in names and bytes.** Many of these laws relate two functions that share definitions. The
  modules whose names end in `Meaning`, with `Paths`, say the same of the results in literal property names,
  paths, byte offsets and constants: `FormatMeaning` and `TreeMeaning` for the format, `ReservedMeaning`,
  `ChosenMeaning` and `MemoryMeaning` for the rewriters, `WordMeaning`, `DomainMeaning`, `ProviderMeaning`,
  `TwiceMeaning`, `SpinMeaning`, `ContractMeaning`, `AcceptMeaning` and `GraftMeaning` for the spin-table graft,
  `PlanMeaning` for the placement, `PatchMeaning`, `VisitMeaning` and `ReaderMeaning` for the shim,
  `GptMeaning` and `SlotMeaning` for the slots, `SyncMeaning` for the sync service, and `TraceMeaning`.

## Properties that hold conditionally

In these places the code does not have the property one would first write down. Each is proved with its
exact condition, and where that can fail a concrete input shows it.

| property | exact condition | input that fails it |
|---|---|---|
| a graft keeps the spin-table contract (`SpinGraft.GraftKeepsContract`) | no CPU is a PSCI or idle node, /cpus is not idle, and every reservation that claims the contract and is not removed as idle has one tuple | `SpinWitness.ContractLostToPsciCpu`, `SpinWitness.ContractLostToEmptyTuple`, `BlobWitness.RefusedToEmptyTuple` |
| grafting again is byte-identical (`SpinBlob.GraftPageAgain`, `SpinBlob.GraftSpinTableAgain`) | no CPU is a PSCI or idle node, /cpus is not idle, and the providers of the power domains that CPUs keep are not removed as idle | `BlobWitness.RefusedToPsciCpu`, `BlobWitness.RefusedToIdleProvider` |
| grafting the output with itself as live blob is byte-identical (`SpinBlob.GraftSpinTableSelf`) | both conditions above together, or no CPU was kept at all | `BlobWitness.RefusedToEmptyTuple` |
| `patch_fdt` is idempotent (`Msm8916Blob.PatchFdtTwice`) | the strings block is empty, ends in NUL, or holds the five names | `PrebootWitness.SecondPatchDiffers` |
| the patched tree is accepted as resident (`Msm8916Cpus.ResidentAfterPatch`, `Msm8916Read.ResidentInPatchedBlob`) | no PSCI node is or contains a CPU or the reservation | `PrebootWitness.ResidentCpusLost` |
| `find_path` answers what the tree says (`PrebootFdt.LookupAnswered`) | the path is not "/", or the block starts with the root | `PrebootWitness.RootBehindNop` |
| sync input is independent of how it is split (`AdbSync.SplitsAgreeExactly`) | no byte follows a message whose foreign id comes up while receiving | `AdbSync.ForeignIdDependsOnSplit` |
| drawing may go on after a failed submission (`Display.AfterFailedFlip`) | nothing had been posted before; the program stops instead | `Display.VisibleAfterFailedFlip` |
| choosing a slot succeeds in the loop of one disk with equal tables (`AbSlots.SetActiveSucceeds`) | boot, if it is a pair of this disk, has slot metadata | `SlotWitness.NoSlotChosen` |

## Model

| member | source | states |
|---|---|---|
| Contract.ReadContractTree | src/kexec.rs:1741-1811 | the token loop with its node stack, and the single root, computes the parse of the resolved token stream, errors included |
| Tree.ParseExact | src/kexec.rs:1741-1811 | the parser returns `t` exactly when the event stream is that of `t` and `t` is well formed: unnamed root, unique sibling and property names, depth at most 64 |
| TreeMeaning.TreeIs | src/kexec.rs:1741-1811 | well formed in so many words: the root has no name, no path is 64 long, and nowhere does a property or a child repeat |
| Contract.TreeOfExact | src/kexec.rs:1741-1811 | a structure and a strings block denote `t` if and only if the tokens up to `FDT_END` resolve to the events of the well-formed tree `t` |
| Tokens.EncodedIsTokens | src/kexec.rs:2522-2528 | a token sequence that is written, padding included, is read back token by token, whatever stands before and after it |
| Tokens.TokensAreEncoded | src/kexec.rs:2576-2597 | conversely, a block that reads as some tokens starts with the encoding of exactly these tokens and of `FDT_END` |
| FormatMeaning.TokenBytes | src/kexec.rs:2515-2528 | the bytes of each token: the five big-endian codes 1, 2, 3, 4 and 9, length before name offset, a NUL behind a name, and less than four bytes of padding |
| Dtb.InternString | src/kexec.rs:2530-2547 | the scan of the strings block reuses the first whole string equal to the name, or appends it; the offset must fit 32 bits |
| Dtb.EnsureStringMeaning | src/kexec.rs:2530-2547 | interning only appends, and the offset returned names the string |
| Dtb.WriteNodeMeaning | src/kexec.rs:1727-1738 | the printed tokens resolve, under a strings block that only grew, to the events of the node |
| Dtb.ReadReserveMap | src/kexec.rs:1895-1914 | the reservation map up to and including its terminating zero entry |
| Dtb.ReadReserveMapRanges | src/kexec.rs:1916-1940 | the non-empty entries of the map, in order; overflow and a missing terminator are errors |
| Dtb.MapMoves | src/kexec.rs:1895-1914 | a terminated map reserves the same ranges at whatever offset of whatever blob it is copied to |
| Contract.BuiltBlocks | src/kexec.rs:2442-2486 | the header of a built blob parses, and its blocks and format fields are the ones it was built from |
| FormatMeaning.HeaderBytes | src/kexec.rs:1846-1892 | the header byte by byte: accepted exactly with magic d0 0d fe ed, 40 bytes and blocks inside the total size, and where each number stands |
| FormatMeaning.BuiltHeader | src/kexec.rs:2442-2486 | a built blob starts with the magic, has its own length as size and the map at 40, and keeps version, compatible version and boot CPU of the blob it comes from |
| Contract.RoundTrip | src/kexec.rs:1813-1824 | printing a tree and parsing the blob gives the tree back, with the reservation map and the boot CPU; for every well-formed tree with NUL-free names that fits a blob |
| Fits.PrintReturns | src/kexec.rs:1813-1824 | printing returns if and only if the blob, its size computed from the tree, fits 32 bits; so the round trip holds for exactly these trees |
| Nodes.GetSetProp | src/kexec.rs:1696-1702 | after `set` the name has the value and every other name what it had |
| Nodes.GetRemoveProp | src/kexec.rs:1704-1706 | after `remove` the name is gone and every other name has what it had |
| SpinCode.ContractNode.SetProperty | src/kexec.rs:1696-1702 | the in-place update replaces the first property of that name, or appends one, and changes nothing else |
| SpinCode.ContractNode.RemoveProperty | src/kexec.rs:1704-1706 | the in-place `retain` drops the properties of that name and no others |
| Reserved.ReadReg | src/kexec.rs:2037-2071 | the tuples of a `reg` value for one or two cells each; empty tuples are dropped, overflow and a torn tuple are errors |
| Reserved.ReadNodeRanges | src/kexec.rs:1942-2035 | the one-pass scanner with its name stack and optional cells computes the fold of its per-token steps |
| Reserved.ScanIsTreeReading | src/kexec.rs:1942-2035 | on every accepted tree the one-pass scanner gives what a reading of the tree gives: the `reg` of every enabled direct child of /reserved-memory, in its cells; errors agree too |
| Reserved.ReadReservedRanges | src/kexec.rs:1826-1843 | the ranges of the map followed by those of the nodes |
| Reserved.ReservedRangesAreTree | src/kexec.rs:1826-1843 | for every blob that parses, `reserved_ranges` is the map plus the tree reading |
| ReservedMeaning.EnabledSpellings | src/kexec.rs:2089-2092 | a status enables a node exactly when it is one of the four byte strings ok, okay, ok NUL, okay NUL |
| ReservedMeaning.TreeReservedMeaning | src/kexec.rs:1942-2071 | an address is reserved by the tree if and only if a child of /reserved-memory without status, or with one of these four, has a tuple of its reg that contains it, in the cells of /reserved-memory or of the root |
| ReservedMeaning.TreeReturns | src/kexec.rs:1942-2071 | the reading succeeds exactly when cell counts have four bytes and are one or two, and every reg of an enabled child is whole tuples that stay below 2^64 |
| ReservedMeaning.MapMeaning | src/kexec.rs:1916-1940 | an address is reserved by the map if and only if an entry before the first zero entry contains it |
| ReservedMeaning.ReservedRangesMeaning | src/kexec.rs:1826-1843 | for every blob that parses the ranges cover exactly these addresses, from the map at the offset in bytes 16 to 20 and from the tree |
| ReservedMeaning.OkayReserved | src/kexec.rs:2089-2092 | concrete node with status okay NUL: its page is reserved, and nothing else |
| Chosen.PatchStructureBlock | src/kexec.rs:2094-2182 | the streaming loop writes exactly the tokens of the rewriting function, or fails with it |
| Chosen.PatchSimulates | src/kexec.rs:2094-2182 | token rewriting and event rewriting agree under the grown strings block |
| Chosen.PatchTreeEvents | src/kexec.rs:2094-2182 | on every accepted tree the streaming rewriter computes a tree rewrite: /chosen gets the managed properties in front of its unmanaged ones, or a new last /chosen is appended |
| Chosen.UnmanagedMeaning | src/kexec.rs:2488-2493 | the properties kept are exactly those with no managed name, without duplicates |
| Chosen.PatchChosen | src/kexec.rs:1204-1234 | the method returns the blob of the specification, or fails with it |
| Chosen.PatchedWf | src/kexec.rs:1204-1234 | the rewritten tree is again one the parser accepts |
| Chosen.PatchKeepsReserved | src/kexec.rs:1204-1234 | the tree reading of reserved memory does not change |
| Chosen.PatchChosenMeaning | src/kexec.rs:1204-1234 | for every blob that parses, the result parses to the tree with /chosen patched and nothing else changed, and `reserved_ranges` is unchanged |
| ChosenMeaning.PatchedBlobMeaning | src/kexec.rs:2421-2440 | for every blob that parses, in the parsed result linux,initrd-start and linux,initrd-end are the big-endian start and end of the initrd, or neither is there; bootargs is the command line with a NUL, or absent when it is empty; linux,booted-from-kexec is empty; every other property of /chosen, every other node, version and boot CPU are what they were |
| Fits.PatchReturns | src/kexec.rs:1204-1234 | for a blob that parses, the call returns if and only if the reservation map is terminated and the new blob fits 32 bits |
| Memory.CopyNodeSubtree | src/kexec.rs:2326-2382 | copies the tokens of one subtree, re-interning each property name, and stops right after it |
| Memory.SkipNodeSubtree | src/kexec.rs:2384-2413 | stops right after the subtree |
| Memory.CopyMeaning | src/kexec.rs:2326-2382 | the copied tokens mean, under the grown strings block, what the originals meant |
| Memory.ExtractMemoryFragments | src/kexec.rs:2184-2246 | collects the copied memory subtrees of the live tree |
| Memory.ExtractRoot | src/kexec.rs:2184-2246 | on the events of a tree these are exactly the memory children of the root, in order |
| Memory.GraftMemoryStructure | src/kexec.rs:2248-2324 | the streaming loop drops memory children of the root and inserts the fragments before the first other child, or at the end of the root |
| Memory.GraftRoot | src/kexec.rs:2248-2324 | on the events of a tree this is the tree rewrite: live memory subtrees first, then every other child unchanged and in order |
| Memory.GraftMemory | src/kexec.rs:1236-1274 | the method returns the blob of the specification, or fails with it |
| Memory.GraftMemoryMeaning | src/kexec.rs:1236-1274 | the result parses to the supplied tree without its memory nodes and with the live ones first; the reservation map is the same bytes and `reserved_ranges` is unchanged |
| MemoryMeaning.GraftedBlobMeaning | src/kexec.rs:1236-1274 | child by child: first the live children named memory or memory@..., then the supplied ones that are not, each at its position; version and boot CPU are the supplied ones |
| MemoryMeaning.NoMemoryRefused | src/kexec.rs:1236-1274 | a live tree without a child of such a name is refused |
| Memory.GraftKeepsReserved | src/kexec.rs:1236-1274 | moving memory nodes does not change what the tree reserves |
| Fits.GraftReturns | src/kexec.rs:1236-1274 | for two blobs that parse and leave room for one another, the call returns if and only if the map is terminated and the live tree has a memory node |
| SpinCode.CpuNodes | src/kexec.rs:1353-1378 | the map has exactly the MPIDRs of the enabled CPUs as keys and points each to its node; duplicates and invalid affinities fail |
| SpinCode.CheckLive | src/kexec.rs:1380-1448 | recognises the contract of a live blob, and the further checks on the live side |
| SpinCode.ValidateMap | src/kexec.rs:1338-1351 | an entry that overlaps the page must be the page; tells whether it is there |
| SpinCode.CheckParking | src/kexec.rs:1497-1527 | the loop over the reservations: every one that concerns the page must be the page, once |
| SpinCode.GraftParkingReservation | src/kexec.rs:1472-1538 | the reservation is found, or /reserved-memory and the page node are created |
| SpinGraft.ParkingResult | src/kexec.rs:1472-1538 | afterwards exactly one reservation claims the contract, and it is the page |
| SpinGraft.ParkingAgain | src/kexec.rs:1472-1538 | doing it again changes nothing |
| AcceptMeaning.ParkingMeaning | src/kexec.rs:1472-1538 | succeeds exactly when the cells agree, /reserved-memory is enabled and one-to-one, and its children leave the page alone or exactly one is the page; the node that is added is named spin-table@ with the address in hexadecimal and has these three properties, and everything else stays |
| SpinGraft.EncodedReg | src/kexec.rs:1540-1546 | the `reg` written for the page decodes to the page |
| SpinCode.PowerDomainProviders | src/kexec.rs:1560-1592 | the recursive visit lists the providers of the tree in document order and fails on a repeated phandle |
| ProviderMeaning.ProvidersMeaning | src/kexec.rs:1560-1592 | the list has exactly the nodes with a cell count and a phandle, by path, and says of each whether a PSCI node is on the way |
| TwiceMeaning.ProvidersReturn | src/kexec.rs:1560-1592 | the providers can be listed exactly when each count and phandle has four bytes, no phandle is 0 or all ones, and no two paths have one phandle |
| SpinCode.ReadTuples | src/kexec.rs:1604-1625 | the loop over the tuples of `power-domains` keeps exactly the tuples of providers that are not under PSCI |
| SpinCode.RetainNames | src/kexec.rs:1626-1644 | the names kept are those at the indices of the tuples kept, when there are as many names as tuples |
| SpinCode.ContractNode.RemovePsciCpuDomains | src/kexec.rs:1594-1655 | the node after the call: filtered domains and names, or both gone; unchanged on failure |
| DomainMeaning.RemovedMeaning | src/kexec.rs:1594-1655 | tuple by tuple: a tuple of a provider outside PSCI stays, at the position that is the number of such tuples before it, and at this position of power-domain-names stands the name it had; nothing else is left |
| AcceptMeaning.DomainsReturn | src/kexec.rs:1594-1655 | the call succeeds exactly when the domains are tuples of listed providers and there are as many names, if any |
| Psci.TuplesAgain | src/kexec.rs:1594-1655 | filtering what was filtered keeps all of it, exactly when the providers still referred to are known |
| Psci.RemoveDomainsAgain | src/kexec.rs:1594-1655 | the same for the two properties of a CPU: the node comes back unchanged, or the call is refused |
| Psci.DisableTwice | src/kexec.rs:1657-1669 | disabling PSCI twice is disabling it once |
| Psci.DisabledGet | src/kexec.rs:1657-1669 | on a node that stays, nothing but the status of a PSCI node changes |
| SpinTable.EditCpuGet | src/kexec.rs:1313-1322 | an edited CPU has the spin-table method and its own release slot, no idle states, and otherwise only its power domains may differ |
| SpinTable.EditCpuAgain | src/kexec.rs:1313-1322 | editing an edited CPU again changes nothing or is refused |
| WordMeaning.ItemMeaning | src/kexec.rs:1716-1719 | a compatible value contains a string exactly when the string stands at its front or behind a NUL, and before a NUL or the end |
| SpinMeaning.DisabledMeaning | src/kexec.rs:1657-1669 | by paths: the children that are idle states are gone with all below them, PSCI nodes have status disabled NUL, and every other property stays |
| SpinMeaning.EditedMeaning | src/kexec.rs:1309-1322 | by paths: an enabled child of /cpus with device_type cpu has enable-method spin-table NUL, the release address base + 0x400 + 0x80 times its affinity, no cpu-idle-states and the domains left; every other node is what it was |
| SpinCode.EditCpuNodes | src/kexec.rs:1307-1322 | the loop edits exactly the enabled CPUs, each for its own MPIDR, in their order |
| SpinCode.GraftTargetTree | src/kexec.rs:1307-1324 | the destination tree after CPUs, PSCI and the page are dealt with |
| SpinCode.GraftReserveMap | src/kexec.rs:1326-1334 | the page is appended to the reservation map before its terminator unless it is there |
| SpinCode.GraftSpinTableBlob | src/kexec.rs:1287-1336 | the whole function on blobs: unchanged without a live contract, the specification otherwise |
| SpinGraft.GraftKeepsContract | src/kexec.rs:1287-1336 | the grafted tree carries the contract for the same page if and only if no CPU was lost to PSCI removal and every reservation claiming the contract has a single tuple; CPU order, MPIDRs and slots base+0x400+mpidr*0x80 are kept whenever no CPU is lost |
| SpinGraft.GraftCheckedAgain | src/kexec.rs:1287-1336 | grafting the grafted tree again, with the check of the four CPUs, gives the same tree if and only if no CPU was lost and the providers its CPUs still refer to survived the removal of idle states; otherwise it is refused |
| SpinBlob.GraftMapMeaning | src/kexec.rs:1326-1334 | the new map reserves what the old one reserved, plus the page if it was missing |
| SpinBlob.GraftedBlobContract | src/kexec.rs:1287-1336 | the same on blobs: the output is a live contract for the same page exactly under that condition, and its map reserves the page |
| SpinBlob.GraftPageAgain | src/kexec.rs:1287-1336 | for every successful graft: grafting the output again is byte-identical if and only if no CPU was lost and the providers were kept, and is refused otherwise |
| SpinBlob.GraftSpinTableAgain | src/kexec.rs:1287-1336 | the same for the whole function with the live blob again |
| SpinBlob.GraftSpinTableSelf | src/kexec.rs:1287-1336 | the output as its own live blob: unchanged if and only if no CPU at all was kept, or all were, every reservation claiming the contract has one tuple, and the providers were kept; refused otherwise |
| ContractMeaning.SpinTableMeaning | src/kexec.rs:1380-1448 | a tree carries the contract exactly when one child of /reserved-memory claims it and owns the page, the enabled CPUs have affinities 0 to 3, and each waits in its slot |
| GraftMeaning.LiveMeaning | src/kexec.rs:1288-1302 | the live blob hands on a page exactly when a CPU waits in a spin table, its tree carries the contract, bytes 28 to 32 are 0, and neither reservations nor map dispute the page; and nothing exactly when no CPU speaks of a spin table |
| GraftMeaning.AcceptedMeaning | src/kexec.rs:1287-1336 | for a blob that is not very large: the destination is accepted exactly when bytes 28 to 32 are 0, its CPUs are 0 to 3, providers and domains are good, and tree and map take the page |
| GraftMeaning.GraftedBlobMeaning | src/kexec.rs:1287-1336 | the whole result by paths: every node that no idle state is above is there with the properties the graft gives it, the page is reserved once by the tree and is in the map, and header fields are those of the destination |
| SpinFits.GraftPageReturns | src/kexec.rs:1287-1336 | for a blob that is not very large: the graft returns if and only if boot CPU 0 is handed on, the tree has the four CPUs and takes the contract, and the map takes the page |
| SpinWitness.ContractLostToPsciCpu | src/kexec.rs:1657-1669 | concrete tree: a CPU that is itself a PSCI node is disabled, and the grafted tree is no contract |
| SpinWitness.ContractLostToEmptyTuple | src/kexec.rs:1472-1538 | concrete tree: a page reservation with an additional empty tuple is accepted by the graft and rejected by the contract |
| SpinWitness.SecondGraftRefused | src/kexec.rs:1594-1655 | concrete tree: a provider that is an idle state is removed, and the second graft is refused |
| SpinWitness.SecondGraftRefusedToPsciCpu | src/kexec.rs:1657-1669 | concrete tree: all providers are kept, a CPU that is a PSCI node is lost, and the second graft is refused |
| BlobWitness.RefusedToPsciCpu | src/kexec.rs:1287-1336 | the same tree as a blob, with a live blob that carries the contract: the first call returns, the second is refused |
| BlobWitness.RefusedToIdleProvider | src/kexec.rs:1287-1336 | the tree of `SecondGraftRefused` as a blob: the second call is refused |
| BlobWitness.RefusedToEmptyTuple | src/kexec.rs:1287-1336 | the tree of `ContractLostToEmptyTuple` as a blob: the output is no live contract, and is refused as its own live blob |
| BlobWitness.GraftedToItself | src/kexec.rs:1287-1336 | concrete blobs on which the second call gives the same bytes, with the live blob and with the output itself |
| Ranges.AddRange | src/kexec.rs:810-825 | set union: the result is ordered with gaps and covers exactly the old addresses and the new range |
| Ranges.SubtractRange | src/kexec.rs:827-846 | set difference; ordered gaps are kept |
| Ranges.ParseIomem | src/kexec.rs:783-800 | the list is ordered with gaps and covers exactly the addresses that the lines, read in order, leave usable |
| Ranges.AlignUpLeast | src/kexec.rs:912-916 | the least multiple not below the value, and none only when no 64-bit one exists |
| Ranges.SearchRange | src/kexec.rs:867-883 | the loop that advances the candidate past conflicts: terminates, skips only conflicting candidates, and says which of three ways it ended |
| Ranges.FindRegion | src/kexec.rs:848-887 | the lowest aligned conflict-free address in bounds, and none only when none exists, also when 64-bit overflow ends the search early |
| Placement.BlockInOneRange | src/kexec.rs:810-825 | a block of free memory never straddles two ranges of the list |
| Placement.FreeRanges | src/kexec.rs:591-600 | the list that is searched covers exactly the usable RAM that the devicetree does not reserve |
| Placement.FindLowest | src/kexec.rs:848-887 | on that list the search finds the lowest placement in free memory |
| Arm64.Load | src/kexec.rs:570-721 | `load` up to the system call computes the plan: each segment at the lowest place the arm64 boot rules allow given the earlier ones |
| Arm64.PlanIsSafe | src/kexec.rs:570-721 | every plan is safe and bootable: segments page-aligned, pairwise disjoint, in free RAM; kernel at its 2 MiB text offset, initrd in the 32 GiB window, DTB within one 2 MiB block |
| Arm64.PlanKeepsReserved | src/kexec.rs:570-721 | no segment touches what the map or the /reserved-memory subtree reserves; the DTB handed over parses to the given tree with only /chosen patched, naming the initrd where it was placed, and reserves the same ranges |
| PlanMeaning.ImageMeaning | src/kexec.rs:724-746 | the header is accepted exactly with 64 bytes and 41 52 4d 64 at 56; text offset and size are the little-endian words at 8 and 16, or 0x80000 and 16 MiB or the file size when the size is 0 |
| PlanMeaning.HeaderMeaning | src/kexec.rs:724-746 | the same for a header that is written out, offset before size |
| PlanMeaning.RamMeaning | src/kexec.rs:783-800 | an address is RAM exactly when some System RAM line contains it and no later line of another name does |
| PlanMeaning.LoadMeaning | src/kexec.rs:570-721 | every plan byte by byte: the kernel whole pages at the lowest 2 MiB boundary plus its text offset, initrd, devicetree and trampoline at the lowest places behind it, only in RAM that neither map nor tree reserves, the initrd named in /chosen by where it is, and both trampoline slots |
| PlanFits.PlanExists | src/kexec.rs:570-721 | `load` finds a plan whenever free memory has a block, aligned to 2 MiB, with room for all segments one behind the other, and the devicetree fits 2 MiB; with an initrd the block ends below 32 GiB. The greedy search never runs out of places it has taken itself |
| Arm64.TrampolineSlots | src/kexec.rs:889-910 | the two slots read back the kernel entry and the DTB address and no other byte of the code changes |
| Damage.MergeLaws | src/ui.rs:2179-2201 | a merge covers both rectangles, stays in every frame that holds both, and is no larger than the two together |
| Damage.MergeExact | src/ui.rs:2179-2201 | two rectangles are merged exactly when the smallest rectangle around both has no more pixels than the two together, and into that one |
| Damage.PushCoalesced | src/ui.rs:2284-2300 | terminates; nothing covered is lost, frame and total area do not grow, the new rectangle merges with none of the others, at most 64 rectangles, and failure only when the list is full |
| Damage.BoxClipped | src/ui.rs:2302-2312 | a clipped box covers exactly the pixels of the box inside the frame |
| Damage.FromPhysicalRegion | src/ui.rs:2222-2256 | every pixel of the frame in the region is pending; clean exactly when an old buffer is kept and the region misses the frame; a full copy of an old buffer takes more than 64 boxes, and the rectangles have no more pixels than the boxes |
| Damage.Accumulate | src/ui.rs:2258-2281 | everything pending before or newly damaged is pending after; rectangles become a full copy only beyond 64 of them, and the total of their pixels does not grow |
| Display.CopyPixels | src/ui.rs:2796-2899 | copies the whole frame or exactly the pending pixels, padding untouched; fails exactly on bad geometry or a rectangle outside the frame, which accumulated damage never has |
| Display.CostMeaning | src/ui.rs:2796-2899 | rectangles are copied as a full frame exactly when they have at least as many pixels as the frame |
| Display.CopyRects | src/ui.rs:2858-2888 | the row loops: exactly the pixels of the rectangles |
| Display.KmsBuffer.constructor | src/ui.rs:2142-2163 | a new buffer has everything pending |
| Display.KmsDisplay.Paint | src/ui.rs:1261-1275 | the heap image changes where the region says, and every buffer notes the damage |
| Display.KmsDisplay.Render | src/ui.rs:1256-1344 | afterwards the back buffer equals the heap image on all visible pixels; a failure keeps the invariant of all three buffers; up to 64 rectangles with fewer pixels than the frame, boxes of the region included, are not copied as a full frame |
| Display.KmsDisplay.WaitForPageFlip | src/ui.rs:1413-1509 | returns exactly when a flip event of this controller was read; then the flip is over |
| Display.KmsDisplay.Present | src/ui.rs:1346-1411 | rotates the buffers; the new back buffer is neither on screen nor queued, also when submission fails |
| Display.KmsDisplay.Draw | src/ui.rs:1234-1254 | the buffer handed over shows the whole image, and no visible or queued buffer was written |
| Display.KmsDisplay.SeedValidation | src/ui.rs:1168-1191 | all three buffers are to be copied in full |
| Display.KmsDisplay.ForceFullCopy | src/ui.rs:1193-1195 | the buffer is to be copied in full |
| Display.KmsDisplay.Run | src/ui.rs:1234-1509 | every run of flips, waits, draws and forced copies keeps: each buffer equals the heap image outside its pending damage, and the back buffer is hidden |
| Display.AlwaysHidden | src/ui.rs:1346-1509 | however presents and vertical blanks interleave, the buffer about to be drawn is neither on screen nor queued |
| Display.PresentHidesBack | src/ui.rs:1346-1411 | one present keeps the back buffer hidden, also when it fails, and a successful one keeps the invariant of the rotation |
| Display.AfterFailedFlip | src/ui.rs:1346-1411 | going on after a failed submission is safe exactly when nothing had been posted yet |
| Display.VisibleAfterFailedFlip | src/ui.rs:1346-1411 | concrete run: one frame from the first screen, a failed page flip, and the next present makes the visible buffer the back buffer |
| PrebootFdt.ReadToken | pocketpreboot/src/fdt.rs:325-365 | on a well-formed token the reader sees its kind and name and moves exactly behind it |
| PrebootFdt.SkipNodeSubtree | pocketpreboot/src/fdt.rs:644-673 | from the start of any encoded node to just after its end |
| PrebootFdt.Subnodes.Next | pocketpreboot/src/fdt.rs:325-365 | successive calls give exactly the children, in order, then nothing |
| PrebootFdt.CountPathComponents | pocketpreboot/src/fdt.rs:704-720 | the number of components; empty ones are an error |
| PrebootFdt.ComponentAt | pocketpreboot/src/fdt.rs:722-739 | the component at an index, none past the last |
| PrebootFdt.ComponentsOfJoined | pocketpreboot/src/fdt.rs:722-739 | a path joined from plain names has exactly these components |
| PrebootFdt.FindIsLookup | pocketpreboot/src/fdt.rs:137-196 | the one-pass search over the events of any tree of depth at most 32 finds the node the tree lookup finds, and misses exactly when there is none |
| TreeMeaning.ReaderDepth | pocketpreboot/src/fdt.rs:137-196 | the depth that the search goes through: no path is 32 long |
| PrebootFdt.FindPath | pocketpreboot/src/fdt.rs:137-196 | on a block that encodes such a tree: the start of the first node the names lead to, `NotFound` when there is none, and an error for empty components; for the path / the node the block starts with, and `BadToken` when it starts with a NOP |
| PrebootFdt.LookupAnswered | pocketpreboot/src/fdt.rs:137-145 | the answer is the tree lookup if and only if the path is not /, or the block starts with the root |
| PrebootWitness.RootBehindNop | pocketpreboot/src/fdt.rs:137-145 | concrete block: a root behind a NOP, which / does not find |
| Msm8916.FilterPowerDomains | pocketpreboot/src/msm8916.rs:897-968 | the loop over tuples and names with its two fixed buffers computes the filter at equal indices, with the 256 and 512 byte limits |
| Msm8916.FilteredTwice | pocketpreboot/src/msm8916.rs:897-968 | filtering what was filtered changes nothing |
| PatchMeaning.FilterMeaning | pocketpreboot/src/msm8916.rs:897-968 | tuple by tuple and name by name: what is kept, at which position, with which name |
| WordMeaning.ListMeaning | pocketpreboot/src/fdt.rs:546-559 | a string list contains a string exactly when it stands at the front or behind a NUL and before a NUL |
| Msm8916Stream.PatchStructure | pocketpreboot/src/msm8916.rs:1101-1210 | the loop over tokens with its context stack writes exactly the rewritten tokens, or fails with the specification |
| Msm8916Stream.StreamIsTreeRewrite | pocketpreboot/src/msm8916.rs:1101-1210 | on every tree the stream succeeds exactly when the recursive rewrite does, and means the rewritten tree: CPUs lose five properties and gain the spin-table ones, PSCI subtrees and idle states get status "disabled", all else is unchanged and in order |
| PatchMeaning.PatchedTreeMeaning | pocketpreboot/src/msm8916.rs:1101-1210 | by paths and names: below a child of /cpus/idle-states and below a PSCI node status is disabled NUL, each /cpus child named cpu has the spin-table method, its slot and the domains left and no cpu-idle-states, /cpus/idle-states has no entry-method, and every other property of every node stays, in order |
| PatchMeaning.PatchedTreeReturns | pocketpreboot/src/msm8916.rs:1101-1210 | a tree whose providers can be listed is accepted exactly when no path is 32 long and every CPU has a number and good domains |
| Msm8916Again.PatchAgain | pocketpreboot/src/msm8916.rs:1101-1210 | patching a patched stream gives the same stream |
| Msm8916Blob.Visit | pocketpreboot/src/msm8916.rs:840-877 | the recursion over node offsets lists the power-domain providers of the tree |
| Msm8916Blob.VisitPatched | pocketpreboot/src/msm8916.rs:839-888 | patching changes no provider |
| VisitMeaning.ProvidersMeaning | pocketpreboot/src/msm8916.rs:839-888 | the list has exactly the nodes with a cell count and a phandle, by path, and says of each whether a PSCI node is on the way |
| VisitMeaning.ProvidersReturn | pocketpreboot/src/msm8916.rs:839-888 | the providers can be listed exactly when each count has four bytes, no phandle is 0 or all ones or repeats, no path is 32 long, and there are at most 64 |
| Msm8916Blob.PatchStrings | pocketpreboot/src/msm8916.rs:983-1026 | the five names are looked up in the old block or appended |
| Msm8916Blob.InternMeaning | pocketpreboot/src/msm8916.rs:983-1026 | every offset names its string, even when the old block ends inside a string |
| Msm8916Blob.PatchFdt | pocketpreboot/src/msm8916.rs:1051-1099 | the whole function on a blob that has a tree |
| Msm8916Blob.PatchedFdtMeaning | pocketpreboot/src/msm8916.rs:1051-1099 | the output has the rewritten tree, the same reservation map and the same boot CPU |
| VisitMeaning.PatchedBlobMeaning | pocketpreboot/src/msm8916.rs:1051-1099 | the same for the blob: every node by path, the providers, the map, and version and boot CPU of the input, within the capacity |
| VisitMeaning.PrebootHeader | pocketpreboot/src/fdt.rs:274-313 | the header that this stage accepts, number by number |
| Msm8916Blob.PatchFdtTwice | pocketpreboot/src/msm8916.rs:1051-1099 | patching the output again gives the same bytes if and only if the strings block of the input was empty, ended in NUL, or already held the five names |
| PrebootWitness.SecondPatchDiffers | pocketpreboot/src/msm8916.rs:1051-1099 | concrete blob whose strings block ends inside a string: the second run gives other bytes |
| Msm8916Cpus.TableAfterPatch | pocketpreboot/src/msm8916.rs:397-439 | on trees, which the loops of `Msm8916Read.ReadSpinTable` read: the reservation is found in the patched tree, at the same address, exactly when no PSCI node is or contains it |
| Msm8916Cpus.ResidentAfterPatch | pocketpreboot/src/msm8916.rs:558-634 | on trees, which the loops of `Msm8916Read.ReadCpus` read: for an accepted tree, the patched tree is accepted as `Resident` with the same four CPUs if and only if no PSCI node is or contains a CPU or the reservation |
| Msm8916Read.ReadSpinTable | pocketpreboot/src/msm8916.rs:397-439 | the loops of the reader over the children of /reserved-memory and their properties compute the tree function |
| ReaderMeaning.FindMeaning | pocketpreboot/src/msm8916.rs:397-439 | the table is found exactly when one child of /reserved-memory is meant to be it, by name or compatible, and is an enabled, unmapped page below 4 GiB |
| Msm8916Read.ReadPhandle | pocketpreboot/src/fdt.rs:223-248 | the token loop finds the first node, in document order, that has the phandle |
| ReaderMeaning.PhandleMeaning | pocketpreboot/src/fdt.rs:223-248 | the node found is at the first path, in document order, whose node has the phandle; nothing is found only when no node has it |
| Msm8916Read.ReadCpus | pocketpreboot/src/msm8916.rs:558-634 | the loop over the children of /cpus, with its look-ups by path and phandle, computes the tree function |
| ReaderMeaning.CollectMeaning | pocketpreboot/src/msm8916.rs:558-634 | four CPUs are listed exactly when the children of /cpus named cpu with device_type cpu are four, with different numbers below 4, all waiting in their slots of the table or all with their power controller |
| Msm8916Read.ResidentInPatchedBlob | pocketpreboot/src/msm8916.rs:558-634 | on blobs: the patched blob has a tree that the reader can read, and the four CPUs are found in it, resident, if and only if no PSCI node is or contains a CPU or the reservation |
| ReaderMeaning.ResidentMeaning | pocketpreboot/src/msm8916.rs:558-634 | the CPUs that the next stage finds in the patched tree, in the same terms |
| Msm8916Read.PatchAndCollect | pocketpreboot/src/msm8916.rs:1051-1099 | patching a blob and then reading its CPUs, as the next stage does |
| PrebootWitness.ResidentCpusLost | pocketpreboot/src/msm8916.rs:558-634 | concrete tree with a PSCI /cpus node: accepted and patched, and the patched tree is rejected |
| Gpt.Crc32Ieee | src/ab_slots.rs:856-866 | the bit loop with its mask computes CRC-32 |
| GptMeaning.CheckValue | src/ab_slots.rs:856-866 | the check value of CRC-32: cbf43926 for the nine digits, 0 for nothing |
| GptMeaning.CrcStep | src/ab_slots.rs:856-866 | for every content the next byte goes into the low end of the register, which is divided eight times by the reflected polynomial |
| GptMeaning.HeaderMeaning | src/ab_slots.rs:579-624 | a header is accepted exactly with EFI PART, a size of 92 to the block, its checksum over itself with bytes 16 to 20 zero, blocks on the disk, ordered usable blocks and entries of at least 128 bytes; and which field stands where |
| GptMeaning.LoadMeaning | src/ab_slots.rs:370-412 | a disk loads exactly when block 1 has a good header and table, so has the backup that bytes 32 to 40 name, and both have one shape |
| Gpt.UpdatedParses | src/ab_slots.rs:776-784 | an updated header parses to the same fields with the checksum of the new table |
| GptMeaning.UpdateMeaning | src/ab_slots.rs:772-784 | an update changes bytes 88 to 92 and 16 to 20, to the little-endian checksums of the table and of the header, and no other byte |
| Gpt.WriteAllAt | src/ab_slots.rs:818-828 | whatever amounts the device takes, the disk is torn inside this write at most, and success means all is written |
| Gpt.Commit | src/ab_slots.rs:513-560 | four ordered writes; at any point, also inside a write, the disk is in a crash state of them |
| Gpt.CrashConsistent | src/ab_slots.rs:513-560 | when writes reach the disk in the order they are issued: in every crash state one copy, header and table, is whole: the old backup, or the new primary |
| Gpt.CrashBetweenCopies | src/ab_slots.rs:513-560 | the same whatever the device does to the two writes of one copy, as long as the backup copy comes after the primary |
| Gpt.OrderedIsBetween | src/ab_slots.rs:513-560 | a device that keeps the order of all four writes keeps the order of the copies |
| Gpt.HeaderAlone | src/ab_slots.rs:370-412 | a new header in front of the old table is read if and only if both tables have the same checksum |
| Gpt.HeadersAlone | src/ab_slots.rs:513-560 | a device that reorders the copies can lose both: with the two new headers in front of the two old tables no copy is readable unless the checksums agree |
| Gpt.CommitThenLoad | src/ab_slots.rs:370-412 | after all four writes `load` accepts the disk and returns the written tables |
| GptMeaning.CommitMeaning | src/ab_slots.rs:513-560 | the finished disk, place by place: both tables where the headers say, both header blocks updated |
| GptMeaning.CommitKeeps | src/ab_slots.rs:513-560 | every byte outside of these four places is what it was |
| DiskWitness.DiskCommits | src/ab_slots.rs:513-560 | concrete disks on which a commit of any tables meets the premises of the crash and reload lemmas |
| AbSlots.UpdatedEntry | src/ab_slots.rs:692-705 | only the type GUID and the attribute byte change, and the entry reports the slot it was set to |
| AbSlots.PairLaws | src/ab_slots.rs:663-690 | the pair reports the target, its two GUIDs are permuted, every other byte is kept |
| SlotMeaning.PairMeaning | src/ab_slots.rs:446-498 | the bytes of a pair: when bit 2 of byte 54 is set in one, the chosen entry gets 0x0f there and the GUID that was active, the other loses the bit and gets the other GUID, and no other byte changes; otherwise nothing does |
| AbSlots.PairTwice | src/ab_slots.rs:663-690 | setting the same slot again changes nothing |
| AbSlots.FindEntryIndex | src/ab_slots.rs:718-728 | the loop over the table bytes finds the first used entry of that name; an unreadable name before it is an error |
| SlotMeaning.FindMeaning | src/ab_slots.rs:718-728 | an entry is found exactly when it is the first with a GUID that is not zero and with this name, the little-endian letters from byte 56 up to a zero, and every used entry before it can be read |
| AbSlots.UpdateSlotEntry | src/ab_slots.rs:692-705 | in place: this entry is updated and every other entry keeps its bytes |
| AbSlots.UpdatePairInPlace | src/ab_slots.rs:663-690 | in place: the two entries, or nothing on failure |
| AbSlots.SlotDisk.SetPair | src/ab_slots.rs:446-498 | in place on both tables: updated, skipped without metadata, or failed |
| AbSlots.SlotDisk.SetAll | src/ab_slots.rs:176-200 | the loop over the pairs of one disk, xbl excepted, on both tables in place; the flag returned says whether some pair was updated, which is when the disk is committed |
| AbSlots.SlotPairsExact | src/ab_slots.rs:414-426 | the pairs are, without duplicates, exactly the bases of which both names are found |
| AbSlots.SetActiveEffect | src/ab_slots.rs:176-200 | every pair gets its result and no other entry changes, in whatever order the pairs come |
| AbSlots.EffectOnPair | src/ab_slots.rs:176-200 | every pair but xbl that had metadata reports the target; GUIDs are permuted within the pair |
| AbSlots.ChooseSlot | src/ab_slots.rs:176-200 | equal tables stay equal, and choosing the slot again changes nothing |
| AbSlots.EffectTwice | src/ab_slots.rs:176-200 | the effect is idempotent |
| AbSlots.EffectThereAndBack | src/ab_slots.rs:176-200 | one slot, the other, then the first again: every GUID is back |
| AbSlots.SetActiveSucceeds | src/ab_slots.rs:176-200 | on equal tables the loop of one disk fails exactly when boot is a pair of it and lacks slot metadata |
| SlotWitness.NoSlotChosen | src/ab_slots.rs:186-192 | concrete table: boot_a and boot_b without slot metadata, for which the loop fails |
| AbSlots.ChangesExactly | src/ab_slots.rs:176-200 | the disk is committed if and only if some pair other than xbl had metadata; otherwise the tables are unchanged |
| SlotMeaning.ChoiceMeaning | src/ab_slots.rs:176-200 | a slot chosen on equal tables, in bytes: when it fails, which pairs are switched, that every other entry stays, and when the disk is written |
| SlotCommit.NeverHalfSwitched | src/ab_slots.rs:176-200 | at every crash point of the commit after the loop, some copy is whole and has all pairs as they were, or all pairs switched |
| SlotCommit.SwitchedAfterCommit | src/ab_slots.rs:176-200 | after the whole commit `load` finds both tables with all pairs switched |
| SlotMeaning.SwitchedDisk | src/ab_slots.rs:176-200 | after the whole commit the disk loads with exactly these bytes in both tables |
| AdbSync.SyncSession.WriteInput | src/adb.rs:799-802 | appends and processes until no message is complete; the new state is that of the specification |
| AdbSync.SyncSession.ProcessIdle | src/adb.rs:837-855 | one request, or nothing while it is incomplete |
| SyncMeaning.RequestMeaning | src/adb.rs:893-995 | what each request does to an idle session: the bytes of the answer to STAT and LIST, the file for RECV, the path before the last comma and the decimal mode of SEND with directories by 0x4000 and links by 0xa000, nothing for QUIT and FAIL for anything else |
| SyncMeaning.WaitMeaning | src/adb.rs:837-891 | a session waits exactly while its buffer holds no whole message |
| AdbSync.SyncSession.ProcessSend | src/adb.rs:857-891 | one DATA or DONE message, or nothing; a foreign id fails and clears the buffer |
| SyncMeaning.DataMeaning | src/adb.rs:997-1019 | what DATA does to a transfer: the write and its failure, a directory, a transfer that has failed |
| SyncMeaning.DoneMeaning | src/adb.rs:1021-1049 | what DONE does, with the modification time in place of a length: OKAY with four zero bytes, or FAIL |
| AdbSync.InputSplit | src/adb.rs:799-891 | processing a stream in two parts or at once agrees, except behind a foreign id |
| AdbSync.ChunkIndependence | src/adb.rs:799-891 | without a foreign id while receiving, which suffices, any split gives the same responses, file actions, state and leftover bytes |
| AdbSync.SplitsAgreeExactly | src/adb.rs:799-891 | every split of a stream gives what one call gives if and only if no byte follows a message with a foreign id |
| AdbSync.ForeignIdDependsOnSplit | src/adb.rs:857-891 | concrete stream: behind a foreign id the answers depend on the split |
| AdbSync.SendSyncFile | src/adb.rs:1253-1311 | whatever the reads return, and wherever credit ends: the payloads fit the packet size, chunks hold 1 to 65536 bytes, and together are the DATA...DONE stream of the content, or the data read so far and FAIL when the file cannot be opened or read, or data only when cut off |
| SyncMeaning.PacketMeaning | src/adb.rs:1640-1703 | the packets byte by byte |
| SyncMeaning.StreamMeaning | src/adb.rs:1253-1311 | the stream of a file is one DATA message per chunk, in order, and DONE with zero |
| AdbSync.FileRoundTrip | src/adb.rs:1253-1311 | that stream, however split, fed to a receiving session rebuilds the file, answers OKAY and leaves the session idle |
| AdbFlow.OutputFlow.AllowOneWrite | src/adb.rs:1107-1116 | credit is given unless closed; at most one |
| AdbFlow.OutputFlow.TryTake | src/adb.rs:1118-1134 | takes the credit, is refused when closed, or keeps waiting |
| AdbFlow.OutputFlow.Close | src/adb.rs:1136-1147 | only the first closer is told that it won |
| AdbFlow.StepKeepsInv | src/adb.rs:1086-1184 | every step of server, output thread, host and closers keeps the invariant |
| AdbFlow.CreditProtocol | src/adb.rs:1086-1184 | for every interleaving: no A_WRTE before the opening A_OKAY, at most one more A_WRTE than host A_OKAYs, at most one closer wins and it alone sends A_CLSE |
| AdbFlow.OkayIsUsable | src/adb.rs:1086-1184 | the bound is reached: an acknowledgement for an open, listed stream lets one more A_WRTE out |
| AdbFlow.CloserIsHeard | src/adb.rs:1136-1147 | the A_CLSE of whoever closed first goes out, and closing again sends nothing |
| AdbFlow.NothingAfterClose | src/adb.rs:1118-1134 | for every interleaving after a close only the credit already taken can be written |
| RamTrace.Trace.SetStage | pocketpreboot/src/ram_trace.rs:17-27 | the stage of all three copies, bytes 8 to 16; every other byte stays |
| RamTrace.Trace.WriteByte | pocketpreboot/src/ram_trace.rs:30-48 | one more byte in all three copies with its running checksum, until 3968 are stored; no other byte of the page changes but the length and the checksum |
| RamTrace.Trace.WriteText | pocketpreboot/src/ram_trace.rs:30-48 | after any bytes all copies record exactly the first 3968, and whatever is lost afterwards, with no bit wrong in two copies, decoding gives this text and stage or the ambiguity error; the other header fields stay |
| RamTrace.WrittenRecords | pocketpreboot/src/ram_trace.rs:30-48 | the length, the text and the running FNV-1a checksum agree after every byte |
| TraceMeaning.PageMeaning | pocketpreboot/src/ram_trace.rs:1-8 | the page in offsets: PBTRACE1, the stage at 8, the length at 16, the checksum at 72, the text at 128 |
| TraceMeaning.ChecksumMeaning | pocketpreboot/src/ram_trace.rs:30-48 | the checksum is 64-bit FNV-1a, one byte at a time |
| RamTrace.DecodeTrace | tools/preboot_ram_trace.py:29-66 | the loop over majority, copies and OR computes the decoder |
| TraceMeaning.DecodeMeaning | tools/preboot_ram_trace.py:29-66 | the decoder in the same offsets: the text of the first of majority, copies and union that holds one, when all that hold one agree, and otherwise which error |
| RamTrace.Recovery | tools/preboot_ram_trace.py:29-66 | if no bit of header or text is wrong in two copies, the result is the recorded text, by majority, unless another candidate holds a different valid text, and then it is the ambiguity error |
| RamTrace.HeldIsRecoverable | tools/preboot_ram_trace.py:29-66 | the same for three copies that agree on the header and the text, against every loss that spoils each bit in at most one copy |
| RamTrace.CleanDecode | tools/preboot_ram_trace.py:29-66 | three intact copies decode to their text |

## Left out

- Machine integers: `usize` is unbounded, so overflow checks on it never fail; `u32` and `u64` are bounded and every overflow check on them is modelled.
- Error kinds: every `io::Error` and every error of the patcher is one `InvalidData`, without its message; only the errors of the preboot reader keep their kind, and a method that fails leaves its buffers unspecified where the caller discards them.
- Padding cut off by the end of a structure block: slices that the source would panic on are errors in the model.
- SpinCode.ContractNode: the properties of one node are changed in place; the list of children is rebuilt as a value, so aliasing between nodes is not modelled. `BTreeMap` keeps the CPUs in MPIDR order, the model edits them in document order; the edits touch different nodes, so the result is the same.
- Chosen.PatchChosenMeaning: the command line is shorter than 2^32-1 bytes, as every DTB property is.
- Contract.RoundTrip, Chosen.PatchChosenMeaning, Memory.GraftMemoryMeaning: stated for calls that return; `Fits` says when they do, exactly for the first two, for `graft_memory` under a bound on the sizes of both blobs.
- PlanFits.PlanExists: one large block suffices; that several small ones may do as well is not stated.
- Arm64.Load: reading and splitting the text of /proc/iomem into lines, the kexec system call, and the decompression of the kernel are not modelled; the trampoline's machine code is a parameter with its two slots.
- Display: a pixel is one value, so pixel formats, casts and alignment are left out; the validation shadows, statistics and timing too. The renderer is its stated contract: it changes only pixels of the region it reports, or everything in a new buffer.
- Display.KmsDisplay.Present: the controller is the buffer on screen and the one queued; a vertical blank may come at any moment. A failed submission ends the run, as in the caller.
- PrebootFdt.FindPath: stated for blocks that encode a tree; what the reader answers on malformed blocks is left open, except that it terminates.
- Msm8916Blob.PatchFdt: says nothing about blobs whose structure block encodes no tree, except that bad headers fail.
- Msm8916Read.ReadCpus: stated for blocks that encode a tree of depth at most 32; the table lies below 4 GiB. Validation of firmware memory, of the resident descriptor and of parked CPUs touches hardware.
- AbSlots: partition names are sequences of UTF-16 code units; the order of the pairs is any order, where the source has a sorted set. Finding disks in sysfs, the loop over several disks and the failure when no disk has a boot pair are left out.
- Gpt.CrashConsistent: the four writes reach the disk in the order they are issued, although the source syncs only once, after the last; `Gpt.CrashBetweenCopies` needs only the order of the two copies, and `Gpt.HeadersAlone` shows that without it both copies can be lost. A write that is cut short leaves, byte by byte, old or new content in its own region and nothing elsewhere; the four regions are disjoint and the backup header is where the primary says.
- AdbSync: the file system is a parameter whose answers may depend on everything asked before; the texts of failures, a closed response channel and partial writes to a file are left out.
- AdbFlow: packet framing, credit of several streams at once, and the A_CLSE that answers a mismatched id, which does not go through the flow.
- RamTrace.Recovery: the initial header is a hypothesis (`Records`); header fields other than stage, length and checksum, and the JSON output, are left out.
- Hardware bring-up, USB, mounts, processes, battery, input devices, the boot menu, boot-entry parsing, PE and zboot images, frame-rate statistics: no property across functions is at stake there.
