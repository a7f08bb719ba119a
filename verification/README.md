# NPU DRA kubelet plugin: a verified model

A Dafny 4.11 model of the state machine behind the Rebellions DRA kubelet
plugin (`cmd/npu-kubelet-plugin`) and proofs about it. `dafny verify dfyconfig.toml` checks everything.

The plugin's `DeviceState` joins two machines:

* **Discovery.** Each tick reads a fallible PCI sysfs, decides whether
  `rbln-smi` is worth running, and either commits one whole inventory or keeps
  the old one. A read answers `Ok`, `Absent` or `Err`, and the code treats the
  last two differently. The three sysfs phases of a scan (passthrough read,
  candidate count, native read) are three unrelated snapshots, so every
  rebinding in between is covered.
* **Claim lifecycle.** Prepare and Unprepare move a claim through three stores
  (checkpoint, CDI specs, KubeVirt metadata tree) in a fixed order with a
  partial rollback. Every effect is one step that happens or fails, as a fault
  schedule says; a crash is a schedule that fails every remaining effect,
  followed by a restart. Writing an owner marker takes two such steps, so it
  can be interrupted and leave any part of the UID.

## How the project is laid out

| file | content |
|---|---|
| `Text.dfy`, `Sysfs.dfy`, `Devices.dfy` | strings and numerals, sysfs reads, devices and DeviceClass selectors |
| `Sriov.dfy`, `Discovery.dfy`, `Snapshot.dfy` | SR-IOV probing and names, the enumerations, the whole-inventory swap |
| `Validation.dfy`, `ScanGuarantees.dfy` | the live re-check and the promises of a scan |
| `RsdGroup.dfy` | the RSD membership check |
| `Storage.dfy`, `Metadata.dfy`, `Preparation.dfy` | the stores and their effects, the metadata tree, Prepare and Unprepare as store transformations |
| `DeviceState.dfy`, `Driver.dfy` | the class whose methods refine those transformations, the RPC batches and the scan loop |
| `ClaimGuarantees.dfy`, `PreparedShape.dfy` | the promises of one Prepare or Unprepare |
| `FreshPrepare.dfy` | exactly when a claim is prepared afresh, and what its devices get |
| `Runs.dfy`, `RunGuarantees.dfy` | the invariant over all runs, and the promises over whole runs |

Code that loops or updates fields in the plugin is a method here, proved equal
to a specification function; the theorems are lemmas about those functions.

## Findings

* `claimMetadataOwnership` documents that a directory left by an interrupted
  write is adopted. The code adopts a directory whose marker is missing or
  unreadable; a marker that holds only a part of the UID blocks the claim
  (`OwnershipDecision`). A Prepare whose marker write is interrupted leaves such a directory, and
  its rollback succeeds without removing it (`InterruptedPrepareTears`). The claim is then refused
  as if another claim held the directory, in every later attempt without failing effects
  (`TornClaimStaysBlocked`). In every run this is the only way to that error (`ConflictOnlyWhenTorn`).
* A marker read that fails during cleanup is skipped silently, so an Unprepare
  can report success and leave a directory that stays until the claim is prepared
  and unprepared again (`UnprepareCanLeak`).
  Exactly such directories stay behind (`UnprepareLeavesExactlyMissed`).
* After a failed Unprepare, a Prepare of the same claim is answered from the
  checkpoint; the spec is gone by then exactly if the Unprepare got past
  removing it (`ReplayAfterPartialUnprepare`).
* Claim isolation needs UID directories free of other claims' markers: a
  foreign marker that cannot be read is overwritten (`AdoptionIsolatesExactly`). No run ever puts a foreign marker there (`MetadataIsAccountedFor`).
* The `rbln-smi` gate asks more of a function than the native enumeration does. A closed
  gate hides a device exactly when some publishable function is not listed, has no
  readable Rebellions vendor, or has a VF count of its own (`GateHidesExactly`);
  this does happen (`GateNeedsReadableVendor`), but not on a well-formed sysfs (`GateIsSound`).

## Assumptions

* `WellFormed` sysfs, where a lemma asks for it: addresses are listed once and in lower
  case, natively bound functions are listed and have a readable Rebellions
  vendor, virtual functions have no `sriov_numvfs`.
* `IsSmiInventory`: `rbln-smi` names are distinct, do not start with `vfio-` and
  do not end in `-vf1` or `-vf4`.
* `IsClaim`: a UID has 36 characters and no blanks, and a claim's own results name distinct devices.
* `IsFresh`: a run starts on a node without checkpoint, CDI specs or UID-layout
  directories; name-keyed metadata directories with any markers may exist.
* The checkpoint reads back what was last written or fails; removing a missing CDI spec succeeds.
* The answers of sysfs, `rbln-smi`, the RSD library, the toolkit's runtime and
  RDS specs, the appearance of device nodes, the order in which Go ranges over a map
  and how much of a marker an interrupted write leaves are parameters.

## Model

| member | source | states |
|---|---|---|
| Sysfs.AddressParts | cmd/npu-kubelet-plugin/pci_sysfs.go:64 | an address is domain, bus, device and a function from 0 to 7 |
| Sysfs.AddressFromParts | cmd/npu-kubelet-plugin/pci_sysfs.go:64 | and every such string is an address |
| Sriov.LayoutFoundExactly | cmd/npu-kubelet-plugin/sriov.go:37-77 | exactly which layout a function has: a virtual function carries the VF count of the function its parent link names, any other its own |
| Sriov.LayoutUnsupportedExactly | cmd/npu-kubelet-plugin/sriov.go:37-77 | exactly when a layout was read but is not supported |
| Sriov.LayoutFailsExactly | cmd/npu-kubelet-plugin/sriov.go:37-77 | exactly when a layout cannot be determined |
| Sriov.GroupExactly | cmd/npu-kubelet-plugin/vfio.go:176-196 | exactly which IOMMU group is exclusive to a function, and when that cannot be determined |
| Sriov.NamesSpelledOut | cmd/npu-kubelet-plugin/sriov.go:91-105 | mode and name of each supported layout |
| Sriov.ProbeDegrades | cmd/npu-kubelet-plugin/sriov.go:34-77 | failing reads never change a layout, they only withdraw it |
| Sriov.GroupDegrades | cmd/npu-kubelet-plugin/vfio.go:178-196 | the same for the IOMMU group |
| Sriov.VfioNameIdentity | cmd/npu-kubelet-plugin/vfio.go:162-164 | passthrough names are equal exactly when the addresses agree up to case and the partition modes agree |
| Sriov.SuffixInjective | cmd/npu-kubelet-plugin/sriov.go:98-105 | a repartition of the same base never reuses a name |
| Sriov.ModeDeterminesCount | cmd/npu-kubelet-plugin/sriov.go:91-96 | the partition mode determines VF-ness and the VF count |
| Discovery.EnumerateVfioDevices | cmd/npu-kubelet-plugin/vfio.go:58-160 | publishes every usable listed function in order, or fails because one required read failed |
| Discovery.CountNativeCandidates | cmd/npu-kubelet-plugin/scan.go:197-238 | fails exactly when a listed function cannot be decided, otherwise counts the listed, natively bound Rebellions functions without VFs of their own |
| Discovery.CandidateExactly | cmd/npu-kubelet-plugin/scan.go:208-237 | exactly which functions are counted, skipped, and failed on |
| Discovery.PublishedInOrder | cmd/npu-kubelet-plugin/vfio.go:67-158 | an enumeration lists every publishable function once, in order |
| Discovery.CountIsCardinality | cmd/npu-kubelet-plugin/scan.go:208-237 | the count is the number of distinct candidate functions |
| Discovery.NpuDevicesFromInventory | cmd/npu-kubelet-plugin/state.go:671-760 | publishes every usable inventory entry in order, or fails because one required read failed |
| Snapshot.Rescanned | cmd/npu-kubelet-plugin/scan.go:47-57 | index and published resources keep agreeing with the two device lists |
| Snapshot.Started | cmd/npu-kubelet-plugin/state.go:90-188 | startup leaves a coherent inventory even with one kind missing |
| Snapshot.StartedExactly | cmd/npu-kubelet-plugin/state.go:102-188 | startup publishes each kind that could be enumerated and nothing of the other; rbln-smi is asked unless the count is zero |
| Snapshot.RescannedExactly | cmd/npu-kubelet-plugin/scan.go:58-163 | a failed scan changes only the failure flags, a successful one publishes its pair |
| Snapshot.KnownExactly | cmd/npu-kubelet-plugin/scan.go:62-73 | the known addresses are exactly the own and parent addresses of the inventory |
| Snapshot.IndexIsLast | cmd/npu-kubelet-plugin/state.go:207-228 | the index holds the last device of each name |
| Snapshot.DeviceNameDelta | cmd/npu-kubelet-plugin/state.go:236-265 | added, removed and changed names are exactly the differences by name |
| Validation.PublishedVfioIsUsable | cmd/npu-kubelet-plugin/validate_device.go:11-56 | on a well-formed sysfs a published passthrough device passes the live check |
| Validation.PublishedNativeIsUsable | cmd/npu-kubelet-plugin/validate_device.go:11-56 | on a well-formed sysfs a published native device passes the live check |
| Validation.UsableVfioIsRediscovered | cmd/npu-kubelet-plugin/validate_device.go:14-56 | while its class is unchanged, a published passthrough device passes the live check exactly when it is rediscovered with the same name, mode, VF count, parent and IOMMU group |
| Validation.UsableNativeIsRediscovered | cmd/npu-kubelet-plugin/validate_device.go:14-56 | a published native device passes exactly when it is rediscovered as the same partition and its vendor is readable and Rebellions |
| Validation.ScannedDevicesHaveOneClass | deployments/helm/k8s-dra-driver-npu/templates/deviceclass-npu-vf.yaml:1-12 | every device any scan publishes is selected by exactly one of the six DeviceClasses |
| Validation.PublishedVfioExactly | cmd/npu-kubelet-plugin/vfio.go:125-151 | name, attributes, class and IOMMU group of a published passthrough device, read off sysfs |
| Validation.PublishedNativeExactly | cmd/npu-kubelet-plugin/state.go:701-742 | name, node, attributes and class of a published native device, read off sysfs |
| ScanGuarantees.VfioPublishedExactly | cmd/npu-kubelet-plugin/vfio.go:61-160 | the exact condition under which a function is published for passthrough |
| ScanGuarantees.VfioAbortsExactly | cmd/npu-kubelet-plugin/vfio.go:76-123 | the exact condition under which a function aborts the passthrough enumeration; absent and failed reads differ |
| ScanGuarantees.NativePublishedExactly | cmd/npu-kubelet-plugin/state.go:677-742 | the exact condition under which an inventory entry is published |
| ScanGuarantees.NativeAbortsExactly | cmd/npu-kubelet-plugin/state.go:677-700 | the exact condition under which an inventory entry aborts the native enumeration |
| ScanGuarantees.PassthroughGroupsAreExclusive | cmd/npu-kubelet-plugin/vfio.go:176-196 | no two passthrough devices of one scan share an IOMMU group |
| ScanGuarantees.ScannedNamesDistinct | cmd/npu-kubelet-plugin/sriov.go:98-105 | no two devices of one scan share a name |
| ScanGuarantees.ReadFailuresKeepInventory | cmd/npu-kubelet-plugin/scan.go:54-149 | if later reads answer as in the scan the inventory shows, or fail, a scan fails and changes nothing or commits the same devices, and this premise holds again |
| ScanGuarantees.ClosedGateHidesNothing | cmd/npu-kubelet-plugin/scan.go:197-203 | no candidate on a well-formed sysfs means no inventory entry could be published |
| ScanGuarantees.GateIsSound | cmd/npu-kubelet-plugin/scan.go:91-114 | the gated scan commits what the ungated scan would, and differs from it only where the ungated one fails behind a closed gate |
| ScanGuarantees.PublishedIsCandidateExactly | cmd/npu-kubelet-plugin/scan.go:208-237 | a publishable function is a candidate exactly when its vendor reads as Rebellions and it has no VFs of its own |
| ScanGuarantees.GateHidesExactly | cmd/npu-kubelet-plugin/scan.go:197-238 | a closed gate hides a device exactly when a publishable function is unlisted or no candidate |
| ScanGuarantees.GateNeedsReadableVendor | cmd/npu-kubelet-plugin/state.go:677-692 | a sysfs on which the gate does hide a device |
| ScanGuarantees.NoFunctionPublishedTwice | cmd/npu-kubelet-plugin/scan.go:116-127 | after a successful scan no PCI function appears twice |
| ScanGuarantees.GateExactly | cmd/npu-kubelet-plugin/scan.go:91-114 | exactly when the gate fails, and when rbln-smi is asked |
| ScanGuarantees.VfioDevicesExactly | cmd/npu-kubelet-plugin/vfio.go:58-160 | exactly when the passthrough enumeration succeeds, and which devices it has |
| ScanGuarantees.NativeDevicesExactly | cmd/npu-kubelet-plugin/state.go:671-760 | exactly when the native enumeration succeeds, and which devices it has |
| ScanGuarantees.ScanCommitsExactly | cmd/npu-kubelet-plugin/scan.go:58-149 | exactly when a scan commits, and which pair |
| ScanGuarantees.PassthroughNodeNeedsNoSmi | cmd/npu-kubelet-plugin/scan.go:91-114 | without a natively bound function the passthrough list is committed whatever rbln-smi answers |
| ScanGuarantees.StaleNameIsGone | cmd/npu-kubelet-plugin/sriov.go:98-105 | the old passthrough name of a repartitioned function is not in the inventory |
| ScanGuarantees.StaleNativeNameIsGone | cmd/npu-kubelet-plugin/sriov.go:98-105 | the old native name of a repartitioned function is not in the inventory |
| RsdGroup.ValidateRSDMembership | cmd/npu-kubelet-plugin/rsd_group.go:66-94 | succeeds exactly for a canonical private group that reports the requested addresses, up to case, each once; the group then has as many members as distinct addresses were requested |
| RsdGroup.HasExactMembers | cmd/npu-kubelet-plugin/rsd_group.go:72-93 | the two loops accept exactly the exact groups |
| RsdGroup.ExactMembersCounted | cmd/npu-kubelet-plugin/rsd_group.go:79-93 | exact membership means every requested address is reported once, up to case, and no other is |
| RsdGroup.CanonicalNumber | cmd/npu-kubelet-plugin/rsd_group.go:67-71 | the parse and print guard accepts exactly the canonical decimals of positive machine integers |
| Storage.CreateClaimSpecFile | cmd/npu-kubelet-plugin/cdi.go:214-260 | writes one CDI device per prepared device, named by claim and device and injecting its edits |
| Metadata.KubevirtMetadataMounts | cmd/npu-kubelet-plugin/kubevirt_metadata.go:99-110 | one mount per lookup directory, all from the claim's own file |
| Metadata.MountsExactly | cmd/npu-kubelet-plugin/kubevirt_metadata.go:70-110 | the mounts spelled out: by claim name, and by the pod's own claim name if it has one |
| Metadata.MainRequestExactly | cmd/npu-kubelet-plugin/kubevirt_metadata.go:87-93 | a "main/sub" request is filed under its main request, any other under itself |
| Metadata.OwnershipDecision | cmd/npu-kubelet-plugin/kubevirt_metadata.go:172-190 | exactly when a directory can be claimed |
| Metadata.GroupByRequest | cmd/npu-kubelet-plugin/kubevirt_metadata.go:118-135 | groups the devices by main request |
| Metadata.FileListsRequest | cmd/npu-kubelet-plugin/kubevirt_metadata.go:118-135 | a request's file lists the devices allocated to that main request, each once, in allocation order, with pool and attributes |
| Metadata.RequestsExactly | cmd/npu-kubelet-plugin/kubevirt_metadata.go:118-135 | there is a file for a request exactly if some result belongs in it |
| Metadata.PublishFile | cmd/npu-kubelet-plugin/kubevirt_metadata.go:141-168 | writes one file and disturbs no other file or directory |
| Metadata.PublishFiles | cmd/npu-kubelet-plugin/kubevirt_metadata.go:141-169 | on success every request has its file, in any range order |
| Metadata.WriteKubeVirtMetadata | cmd/npu-kubelet-plugin/kubevirt_metadata.go:112-170 | ownership first, then the files |
| Metadata.CleanDirs | cmd/npu-kubelet-plugin/kubevirt_metadata.go:208-220 | removes only what the claim owns and misses only unreadable markers |
| Metadata.Cleanup | cmd/npu-kubelet-plugin/kubevirt_metadata.go:192-223 | on success the claim still owns only directories it could not read; without failing effects, none |
| Metadata.RemoveKubeVirtMetadataForClaim | cmd/npu-kubelet-plugin/kubevirt_metadata.go:192-223 | the directory scan computes that cleanup |
| Preparation.CreateGroup | cmd/npu-kubelet-plugin/state.go:438-451 | touches nothing but the common spec and the request log; exactly when a group is requested and answered |
| Preparation.OwnInOrder | cmd/npu-kubelet-plugin/state.go:401-418 | the own results are this driver's results, each once, in order |
| Preparation.VfioContainerNodes | cmd/npu-kubelet-plugin/vfio.go:211-234 | both vfio nodes, when both are present |
| Preparation.PrepareDevices | cmd/npu-kubelet-plugin/state.go:394-507 | changes no store but the common spec, and succeeds only if every own result is in the inventory, on this node and live |
| DeviceState.DeviceState.constructor | cmd/npu-kubelet-plugin/state.go:90-188 | builds the startup inventory |
| DeviceState.DeviceState.SyncCheckpoint | cmd/npu-kubelet-plugin/state.go:190-204 | creates the checkpoint unless it exists |
| Preparation.EnsureCheckpointExactly | cmd/npu-kubelet-plugin/state.go:190-204 | after startup there is a checkpoint, with the claims recorded before |
| DeviceState.DeviceState.RebuildResources | cmd/npu-kubelet-plugin/state.go:207-228 | makes index and resources agree with the lists |
| DeviceState.DeviceState.KnownFromInventory | cmd/npu-kubelet-plugin/scan.go:62-73 | collects the own and parent addresses of the inventory |
| DeviceState.DeviceState.RescanDevices | cmd/npu-kubelet-plugin/scan.go:58-163 | replaces the inventory by the scan's pair or keeps it, and reports whether it changed |
| DeviceState.HasDistinctBuses | cmd/npu-kubelet-plugin/scan.go:118-127 | the duplicate check decides distinctness up to case |
| DeviceState.DeviceState.ClaimHasVfioDevice | cmd/npu-kubelet-plugin/state.go:332-346 | whether any own result is a passthrough device |
| DeviceState.DeviceState.AdmitResults | cmd/npu-kubelet-plugin/state.go:401-418 | succeeds exactly if all own results are in the inventory, on this node and live, and returns them |
| DeviceState.DeviceState.CollectBuses | cmd/npu-kubelet-plugin/state.go:420-432 | the addresses of the native results in order |
| DeviceState.DeviceState.BuildDevices | cmd/npu-kubelet-plugin/state.go:462-506 | the flag-driven loop builds the devices that positions describe |
| DeviceState.DeviceState.PrepareDevices | cmd/npu-kubelet-plugin/state.go:394-507 | refines the prepareDevices transformation |
| DeviceState.DeviceState.RollbackKubeVirtMetadata | cmd/npu-kubelet-plugin/state.go:320-330 | cleans up, and records a failure instead of returning it |
| DeviceState.DeviceState.Prepare | cmd/npu-kubelet-plugin/state.go:267-318 | refines the Prepare transformation of the stores |
| DeviceState.DeviceState.Unprepare | cmd/npu-kubelet-plugin/state.go:348-392 | refines the Unprepare transformation of the stores |
| ClaimGuarantees.CommitEffect | cmd/npu-kubelet-plugin/state.go:293-317 | what a commit leaves on success, and after each failure and rollback |
| ClaimGuarantees.ConflictExactly | cmd/npu-kubelet-plugin/kubevirt_metadata.go:175-190 | on a tree in order a claim is refused its own directory exactly when the marker is torn |
| ClaimGuarantees.InterruptedPrepareTears | cmd/npu-kubelet-plugin/kubevirt_metadata.go:186-188 | a Prepare whose marker write is interrupted fails and leaves a torn directory exactly if part of the UID is missing |
| ClaimGuarantees.TornBlocks | cmd/npu-kubelet-plugin/kubevirt_metadata.go:213-216 | a torn directory survives a successful cleanup and the claim is refused it |
| ClaimGuarantees.PrepareIsolates | cmd/npu-kubelet-plugin/state.go:267-330 | on every exit path other claims keep entry, spec and directories |
| ClaimGuarantees.UnprepareIsolates | cmd/npu-kubelet-plugin/state.go:348-392 | the same for Unprepare |
| ClaimGuarantees.AdoptionIsolatesExactly | cmd/npu-kubelet-plugin/kubevirt_metadata.go:172-190 | taking ownership isolates another claim, whatever effects fail, exactly when that claim does not own the directory |
| ClaimGuarantees.RejectedPrepareTouchesNothing | cmd/npu-kubelet-plugin/state.go:401-418 | a failed lookup, pool or live check touches no store and requests no group |
| ClaimGuarantees.FreshSuccessIsAdmitted | cmd/npu-kubelet-plugin/state.go:401-418 | a claim prepared afresh has only devices in the inventory, on this node and live |
| ClaimGuarantees.FailedPrepareIsContained | cmd/npu-kubelet-plugin/state.go:288-316 | a failed Prepare keeps the checkpoint, and the claim's spec unless the checkpoint write is the failing step |
| ClaimGuarantees.ReplayIsExact | cmd/npu-kubelet-plugin/state.go:273-286 | a checkpointed claim is answered from the checkpoint without any effect |
| ClaimGuarantees.UnprepareConverges | cmd/npu-kubelet-plugin/state.go:348-392 | from any state one Unprepare without failing effects removes everything, and a second changes nothing |
| ClaimGuarantees.UnprepareOfUnrecorded | cmd/npu-kubelet-plugin/state.go:348-362 | Unprepare of a claim that is not on record, or is without devices, changes nothing |
| ClaimGuarantees.UnprepareLeavesExactlyMissed | cmd/npu-kubelet-plugin/kubevirt_metadata.go:208-220 | a successful Unprepare leaves owned exactly the directories whose marker this call could not read, whatever was missed before |
| ClaimGuarantees.UnprepareCanLeak | cmd/npu-kubelet-plugin/kubevirt_metadata.go:213-216 | such a directory exists and stays |
| ClaimGuarantees.ReplayAfterPartialUnprepare | cmd/npu-kubelet-plugin/state.go:376-386 | after a failed Unprepare a Prepare is replayed, without a spec exactly if reading the checkpoint and removing the spec succeeded |
| PreparedShape.RsdRequestCanonical | cmd/npu-kubelet-plugin/state.go:420-445 | permuted allocation results give the identical, sorted RSD request |
| PreparedShape.RequestCounted | cmd/npu-kubelet-plugin/state.go:420-435 | the request holds each native result's published address, as often as allocated, and nothing else |
| PreparedShape.GroupsRequested | cmd/npu-kubelet-plugin/state.go:434-451 | at most one group is requested, for exactly that sequence |
| PreparedShape.OneDevicePerResult | cmd/npu-kubelet-plugin/state.go:494-503 | one prepared device per own result, in order |
| PreparedShape.RdsLandsOnce | cmd/npu-kubelet-plugin/state.go:487-492 | the RDS nodes land on exactly the first native device |
| PreparedShape.PassthroughOnly | cmd/npu-kubelet-plugin/state.go:438 | a passthrough-only claim touches no store before its commit |
| PreparedShape.MountsLandOnce | cmd/npu-kubelet-plugin/state.go:462-479 | a main request's mounts land on exactly the first passthrough device allocated to it or to one of its subrequests |
| PreparedShape.ContainerPathsDistinct | cmd/npu-kubelet-plugin/kubevirt_metadata.go:73-110 | all mount targets of a claim are distinct |
| FreshPrepare.PreparedExactly | cmd/npu-kubelet-plugin/state.go:394-507 | exactly when the devices of a claim can be prepared, if no effect fails |
| FreshPrepare.FreshPrepareExactly | cmd/npu-kubelet-plugin/state.go:267-318 | exactly when a claim not on record is prepared, if no effect fails |
| FreshPrepare.FreshSuccessIsLogged | cmd/npu-kubelet-plugin/state.go:434-451 | a successful fresh Prepare records its answer and requests the canonical group if there are native devices |
| FreshPrepare.PreparedDeviceExactly | cmd/npu-kubelet-plugin/state.go:462-503 | the device nodes, CDI ids, mounts and RDS nodes each result gets |
| Runs.DefinedNamesResolve | cmd/npu-kubelet-plugin/cdi.go:271-283 | every CDI name defined by the driver resolves to exactly one device |
| Runs.FreshPrepareIsIntact | cmd/npu-kubelet-plugin/state.go:288-317 | a fresh Prepare leaves a spec that injects exactly the prepared edits, its ids and its mounted files |
| Runs.PrepareInv | cmd/npu-kubelet-plugin/state.go:267-318 | Prepare keeps the store invariant on every exit path |
| Runs.UnprepareInv | cmd/npu-kubelet-plugin/state.go:348-392 | Unprepare keeps the store invariant on every exit path |
| Runs.AnyOpsRun | cmd/npu-kubelet-plugin/state.go:71-88 | every sequence of operations is a run from every fresh node |
| Runs.StepInv | cmd/npu-kubelet-plugin/state.go:71-88 | every operation keeps the whole invariant |
| Runs.RunInv | cmd/npu-kubelet-plugin/state.go:71-88 | the invariant holds at every point of every run |
| RunGuarantees.RecordedClaimsAreUsable | cmd/npu-kubelet-plugin/state.go:293-318 | in every run a checkpointed claim not yet unprepared has its spec with each device defined once and injecting its edits, resolving ids and existing mount sources |
| RunGuarantees.MetadataIsAccountedFor | cmd/npu-kubelet-plugin/kubevirt_metadata.go:192-223 | in every run UID directories are unmarked, torn by an interrupted write, or marked by their own claim, which is checkpointed or on record |
| RunGuarantees.OwnersAreRecorded | cmd/npu-kubelet-plugin/state.go:293-330 | in every run, a claim without a failed rollback or a missed marker owns its UID directory only if it is checkpointed |
| RunGuarantees.ConflictOnlyWhenTorn | cmd/npu-kubelet-plugin/kubevirt_metadata.go:175-190 | in every run the conflict arises for the UID layout exactly when the marker is torn, and it is torn only by an interrupted marker write |
| RunGuarantees.TornClaimStaysBlocked | cmd/npu-kubelet-plugin/kubevirt_metadata.go:172-190 | once torn, a marker stays torn while no effect fails and every passthrough Prepare of the claim fails |
| RunGuarantees.HealthyRunLeaksNothing | cmd/npu-kubelet-plugin/state.go:293-316 | without failing effects every owner in the UID layout is a checkpointed claim and no marker is torn |
| RunGuarantees.PrepareIsIdempotent | cmd/npu-kubelet-plugin/state.go:273-286 | whatever runs in between, a second Prepare returns the identical list, without effect, unless the driver is down or cannot read the checkpoint |
| RunGuarantees.InventoryIsLastScan | cmd/npu-kubelet-plugin/scan.go:47-57 | the inventory is the pair of the last successful scan, with no function twice |
| RunGuarantees.StaleAllocationIsRejected | cmd/npu-kubelet-plugin/state.go:407-410 | a claim for the old name of a repartitioned passthrough function is rejected without effect |
| RunGuarantees.StaleNativeAllocationIsRejected | cmd/npu-kubelet-plugin/state.go:407-410 | a claim for the old name of a repartitioned native device is rejected without effect |
| Driver.PrepareResourceClaims | cmd/npu-kubelet-plugin/driver.go:141-156 | every claim of a batch is attempted in order and answered |
| Driver.BatchAnswersEach | cmd/npu-kubelet-plugin/driver.go:149-155 | with distinct UIDs each claim finds its own answer |
| Driver.BatchAnswerIsRecorded | cmd/npu-kubelet-plugin/driver.go:149-155 | a claim answered with devices is checkpointed with them when the batch ends, whatever its neighbours did |
| Driver.UnprepareResourceClaims | cmd/npu-kubelet-plugin/driver.go:194-205 | every claim is attempted in order and gets its own answer; a claim reported as done is no longer checkpointed |
| Driver.HealthyBatchIsDone | cmd/npu-kubelet-plugin/driver.go:194-205 | without failing effects every claim of a batch is reported as done |
| Driver.RunDeviceScan | cmd/npu-kubelet-plugin/driver.go:102-131 | publishes exactly the changed inventories of successful scans |
| Driver.PublishedIsCurrent | cmd/npu-kubelet-plugin/driver.go:102-131 | while publications succeed, the last published resources are the inventory |
| Driver.FailingTicksKeepInventory | cmd/npu-kubelet-plugin/scan.go:54-149 | over any number of ticks whose reads only fail, the inventory keeps every name and identity attribute in order |
| Driver.FailedPublicationStays | cmd/npu-kubelet-plugin/driver.go:126-129 | a failed publication is not retried until the inventory changes again |

## Left out

- The lists of skipped devices, the scan-duration flag and all log records: they do not influence the state.
- Descriptive attributes (NUMA node, PCIe root, product, memory, firmware): carried as one opaque string.
- Unicode case folding and trimming: modelled on ASCII, which covers PCI addresses, vendor ids and claim UIDs.
- `filepath.Join` and `filepath.Base`: metadata paths are structured values and sysfs links are given by their base name.
- Sysfs changes within one phase of a scan: each phase reads one snapshot, different phases read unrelated ones.
- Torn writes of the temporary metadata file: it is renamed only after a complete write and nothing else reads it. CDI specs and the checkpoint are written atomically by their libraries.
- Plain files among the metadata directories, which the cleanup skips.
- The error of a native device without a bus address in `prepareDevices`: the live check has already rejected such a device.
- The polling in `waitForDeviceNode`, the execution of `rbln-smi` and of the RSD library, the parsing of the toolkit's specs: parameters of a call.
- The answers of Prepare carry the container edits as well; the RPC drops them.
- Validation.UsableNativeIsRediscovered: compares the function's rediscovery from the same inventory entry, because `rbln-smi` may drop it for reasons sysfs does not show.
- The webhook, health check, registration, checkpoint checksum and command line.
