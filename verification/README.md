# FoxLab: model and proofs

FoxLab edits a virtual lab (VMs, containers, switches, uplinks, direct links, disks, layout), keeps it in a
file, runs shell sessions in terminal tabs and draws the lab on a character grid. This project models the
parts of it whose correctness is a matter of state and arithmetic, and proves what they promise.

- **The lab and its rules** (`LabModel`, `LabRules`, `ManagedNames`, `ManagedNameForms`, `Validation`, `SampleLab`). A lab is a value; the rules a
  saved lab obeys are stated declaratively, and once more in plain words without lookups. The validation loops, with their tables and problem lists, report nothing
  exactly on the labs that meet the rules.
- **Editing** (`Lookup`, `NetworkLinks`, `NicConnections`, `DirectLinks`, `Disks`, `DiskRules`, `DiskEditing`,
  `Renaming`, `Relabelling`, `RenameEffects`, `Deletes`, `DeleteEffects`, `Creates`, `CreateEffects`,
  `NameEffects`, `DiskOutcomes`, `CreateOutcomes`, `NetworkOutcomes`, `DeleteOutcomes`, `Editing`, `FailingCases`). Each operation is a method on the loaded lab whose contract is a function from labs to labs, or
  a refusal that has written nothing. About the functions it is proved, in terms of the lab alone, when they
  succeed, what they change and what they leave alone (the four `Outcomes` modules), and that every run of operations keeps every rule.
- **Transactions** (`Snapshots`, `Transactions`, `EditingSessions`). The same lab as it lies in memory, with slices over backing
  arrays, maps and records behind references; snapshots, arbitrary scripts of in-place writes, and saving and
  loading that may fail.
- **Terminal tabs** (`TabManager`, `TabSessions`, `TabProgress`, `WakePipe`). The critical sections as methods; the protocol
  between the user interface and the session workers, and the wake-up pipe, as interleaved steps: nothing is lost or closed
  twice, and shells can come to run and to an end.
- **Addresses** (`ByteOrder`, `NatAllocator`, `NatSlots`). Host numbers handed out by separate calls that never see each other.
- **Byte machines** (`Numerals`, `TextForms`, `OscFilter`, `OscTitles`, `RepeatedFiltering`, `KeyDecoding`, `KeyTable`, `KeyCuts`, `KeyInput`,
  `KeyDelivery`, `MouseInput`). The filter for
  operating-system commands (control strings, section 5.6 of ECMA-48), the key decoder (control sequences,
  section 5.4 of ECMA-48; UTF-8, section 4 of RFC 3629) with its carry-over buffer, and mouse reports.
- **Routes** (`RouteGrid`, `RouteSearch`, `RoutePorts`, `RouteShapes`, `RoutePlanner`, `RouteChoice`, `RouteCache`, `LabDrawing`,
  `DrawnLab`). The orthogonal route planner, which edges it draws and along which route, and the cache keyed by text.
- **Capabilities** (`Capabilities`, `CapabilityNames`). Switching a container capability on or off.

In-place code is modelled by methods and classes whose contracts tie the new state to a function of the old;
the theorems are lemmas about those functions. Hashes are uninterpreted functions, path resolution is any
idempotent function without empty results, and the outcome of a file operation is a parameter.

## Where the code does not do what it reports

- `resolveDiskTarget` with an empty reference that two or more unnamed workloads match returns an empty
  destination and no error. `DiskLayerCreateAndAttach` then reports an attached layer that is not attached,
  and `DetachDisk` reports a detachment that changed nothing, in exactly that case
  (`Disks.EmptyDestinationExactly`, `DiskEditing.LayerLeftUnattached`, `DiskEditing.DetachOfNothing`; inputs in
  `FailingCases.LayerForNobody` and `FailingCases.DetachFromNobody`). The only caller of
  `DiskLayerCreateAndAttach` (internal/topologyui/disk_actions.go:120) passes the id of a drawn node, which is never
  empty, so that half is reachable through the service method alone. `DetachDisk` gets an empty reference from the
  command line when the workload is a quoted blank (internal/topologyui/disk_command_args.go:62).
- `ContainerCapabilitySet` given a name with a doubled `CAP_` prefix to disable reports a change that leaves the
  capability effective (`Capabilities.SwitchingHasEffectExactly`; input in
  `Capabilities.DoubledPrefixDisablesNothing`).
- `SwitchDelete` of a switch that a DHCP service uses always fails in its commit
  (`Editing.CommitRejectsExactly`; input in `FailingCases.DeletingSwitchStrandsDhcp`).
- Creating or renaming a switch or an uplink passes every check of the operation and fails in its commit exactly if
  another switch or uplink has the bridge name already; ids that differ only in '-', '_' and case always share one,
  whatever the hashes (`Editing.CommitRejectsExactly`, `ManagedNames.TwinsShareBridge`; "lan-1" beside "lan1" in
  `FailingCases.LanIsRejected`). The name the generator offers can be such a name: "switch-1" beside "switch1"
  (`FailingCases.GeneratedNameIsRejected`).
- `DiskMerge` and `DiskDelete` report a failure although the disk has gone for good, exactly when everything
  succeeds but removing the file that was moved aside (`Disks.DiskMerge`, `Disks.DiskDelete`; inputs in
  `FailingCases.DeletionReportedFailed` and `FailingCases.MergeReportedFailed`). A merge whose file cannot be moved
  reports a failure with the lab as it was, though the base image has taken in the layer
  (`FailingCases.MergeStoppedHalfway`).
- When a save succeeds and the load after it fails, memory goes back to the old lab while the file holds the
  new one (`Transactions.Session.Mutate`; input in `FailingCases.FileAheadOfMemory`).

## Model

| member | source | states |
|---|---|---|
| Validation.Validate | internal/lab/validate.go:15-197 | the problem list of the validating loops is empty if and only if the lab meets every declarative rule, different names of the runtime included |
| LabRules.RulesInWords | internal/lab/validate.go:15-197 | those rules, stated with lookups, hold exactly if they hold in plain words: what each reference, interface, link, service, disk and position needs there to be, and what no two may share |
| ManagedNames.ValidateManagedNames | internal/lab/validate.go:241-279 | the registering loops report no collision exactly if domains, containers and bridges have different names up to case |
| ManagedNames.NamesOkExactly | internal/lab/validate.go:241-279 | on unique ids that is so exactly if no two switches or uplinks share a bridge and no names with hash digits meet |
| ManagedNames.DomainsAreApart | internal/lab/names.go:12-14 | domain names never collide on unique ids |
| ManagedNames.ContainersAreApartExactly | internal/lab/names.go:28-36 | container names collide only where one of the two is hashed |
| ManagedNames.LinkBridgesAreOther | internal/lab/names.go:38-47 | whatever the hashes, a direct link never has the bridge name of a switch or an uplink |
| ManagedNames.TwinsShareBridge | internal/lab/names.go:65-84 | whatever the hashes, ids that agree up to case without '-' and '_' get one bridge name |
| ManagedNames.ShortBridgesMeetExactly | internal/lab/names.go:65-84 | and where the names are not truncated, only those do |
| ManagedNameForms.BridgeIsNamed | internal/lab/names.go:64-84 | a bridge is named "fl", "foxlab" and the ids of lab and node in lower case without separators, or, where that is longer than thirteen characters, its first seven and a hash |
| ManagedNameForms.BridgeNamesFit | internal/lab/names.go:64-84 | with hashes of six digits a bridge name has at most fifteen characters |
| ManagedNameForms.LinkBridgeHasNoDirection | internal/lab/names.go:38-47 | a direct link has the same bridge whichever end is written first |
| ManagedNameForms.ContainerNamesAreTaken | internal/lab/names.go:28-36 | every container name is one the runtime takes, and is the managed name exactly where that is one |
| Validation.ValidateIdentities | internal/lab/validate.go:217-239 | the table of case-folded references finds a problem exactly if some node's id or name is malformed or shared |
| Validation.ValidateNetworkLinks | internal/lab/validate_network.go:5-58 | no problem exactly if all link endpoints exist, differ, are unconnected and are linked once |
| Validation.EndKeyInjective | internal/lab/names.go:60-62 | the textual endpoint key determines the endpoint of a workload, whatever characters its id has |
| Validation.ValidateDisks | internal/lab/validate_disks.go:5-96 | on unique identities, no problem exactly if layers rest on base disks, a workload has at most one disk and its path agrees |
| Validation.ValidateDhcp | internal/lab/validate_dhcp.go:51-105 | no problem exactly if DHCP services have one interface on a NAT switch of their own and no direct link |
| Validation.ValidateSwitches | internal/lab/validate.go:25-75 | no problem exactly if switch modes are known, MACNAT bridges have an uplink and uplink references exist |
| Validation.ValidateNics | internal/lab/validate.go:98-118 | no problem exactly if every interface names at most one of an existing switch and an existing uplink |
| Validation.ValidateLayout | internal/lab/validate_network.go:60-106 | no problem exactly if positions and layout links name existing nodes, whatever order the positions are visited in |
| SampleLab.SampleIsValid | internal/lab/validate.go:15-197 | a lab using links, layers, DHCP and layout together meets every rule, so the rules are consistent |
| Lookup.ResolveNode | internal/lab/lookup.go:39-91 | candidates of every allowed kind, or of all, are compared by id and then by name; the single match is found, or none or several are reported |
| Lookup.AmongIsNeverAmbiguous | internal/lab/lookup.go:39-91 | on a valid lab and a non-empty text, whatever kinds are allowed, the answer is the one node of such a kind that answers to the text, and never ambiguous |
| Lookup.ResolveOne | internal/topology/identity.go:245-265 | resolution within one kind, as the editing operations use it |
| Lookup.OneKindIsResolve | internal/topology/identity.go:245-265 | resolution within one kind is the general one with that kind alone allowed |
| Lookup.ResolveAgreesWithFirstMatch | internal/topology/service.go:117-173 | on a valid lab a non-empty text is never ambiguous and resolves to the node the first-match lookups find |
| Lookup.EmptyTextMatchesUnnamed | internal/lab/lookup.go:67-91 | the empty text resolves exactly if a single node has no name |
| Lookup.NextNodeName | internal/topology/identity.go:10-17 | the unbounded search stops within 2n+1 numbers at the least one whose name folds to no id or name |
| Lookup.NumberedFoldsApart | internal/topology/identity.go:10-17 | different numbers give names that differ even up to case |
| NetworkLinks.RemoveNetworkLinksForEndpoint | internal/topology/network_links.go:257-266 | the links left are the other ones, in order, and nothing else of the lab changes; that the source reuses the old backing array is covered by Snapshots.EditSlice |
| NetworkLinks.RemoveNetworkLinksForDeletedNic | internal/topology/network_links.go:279-305 | links of the deleted interface go, later interfaces of the workload shift down in every link |
| NetworkLinks.InReindexed | internal/topology/network_links.go:279-305 | the new links are exactly the old ones read through the renumbering |
| NetworkOutcomes.RenumberInOrder | internal/topology/network_links.go:279-292 | the links left keep their order |
| NetworkOutcomes.FilterByEndpoint | internal/topology/network_links.go:257-266 | so do those left when the links of an interface go |
| NetworkOutcomes.FilterByNode | internal/topology/network_links.go:268-277 | and those left when the links of a workload go |
| NetworkLinks.UpIsBijective | internal/topology/network_links.go:294-305 | the renumbering is a bijection onto the endpoints other than the deleted one |
| NetworkLinks.DeleteWorkloadNic | internal/topology/nics.go:82-112 | the operation computes the deletion or refuses without writing |
| NetworkOutcomes.DeletesNicExactly | internal/topology/nics.go:203-236 | an interface is deleted exactly if the reference leads to a workload that is no DHCP service and has one of this number |
| NetworkLinks.DeletionKeepsWiring | internal/topology/nics.go:203-236 | two interfaces are linked afterwards exactly if the interfaces they were are linked before, also within one workload |
| NetworkLinks.DeletionKeepsInterfaces | internal/topology/nics.go:82-112 | every surviving interface, under its new number, is the interface it was, and there are no others |
| NetworkLinks.DeletionKeepsLinks | internal/topology/network_links.go:279-292 | all direct-link rules survive an interface deletion |
| NetworkLinks.DeletionKeepsValid | internal/topology/nics.go:203-236 | an interface deletion keeps every rule of a valid lab |
| NicConnections.ConnectWorkloadNic | internal/topology/nics.go:145-201 | the operation computes the connection or refuses without writing, with the extra conditions on DHCP services |
| NicConnections.ConnectIsLocal | internal/topology/nics.go:38-80 | one interface gets the resolved attachment and loses its link; every other interface and link is as before |
| NetworkOutcomes.ConnectsExactly | internal/topology/nics.go:145-201 | with a target that leads to a switch or an uplink, a switch first, an existing interface is connected exactly unless it is that of a DHCP service and the switch does not suit, has another service, or a MAC is given; the MAC is kept unless one is given |
| NetworkOutcomes.ConnectRefuses | internal/topology/nics.go:238-260 | a target that leads nowhere is refused |
| NicConnections.ConnectKeepsValid | internal/topology/nics.go:145-201 | connecting keeps every rule, also when a DHCP service moves to another switch |
| NicConnections.AddWorkloadNic | internal/topology/nics.go:114-143 | the operation appends an interface or refuses without writing |
| NicConnections.AddIsLocal | internal/topology/nics.go:10-36 | the new interface is unattached, unlinked and last; all others are as before |
| NetworkOutcomes.AddsExactly | internal/topology/nics.go:114-143 | an interface is added exactly if the reference leads to a workload that is no DHCP service |
| NicConnections.AddKeepsValid | internal/topology/nics.go:114-143 | adding an interface keeps every rule |
| DirectLinks.ConnectDirectNic | internal/topology/network_links.go:10-87 | the operation links the two interfaces or refuses without writing; its late error returns are never taken |
| DirectLinks.ConnectDirectWiring | internal/topology/network_links.go:10-87 | afterwards the two are linked to each other and to nothing else, and links of other interfaces are as before |
| NetworkOutcomes.LinksExactly | internal/topology/network_links.go:10-87 | a direct link is made exactly if there are two ends: the interfaces named, or an unattached source and the first unattached other interface of the target |
| NetworkOutcomes.LinkedEnds | internal/topology/network_links.go:10-87 | those two are then linked to each other alone and attached to nothing, with their MACs, and every other interface and link is as before |
| DirectLinks.ConnectDirectKeepsValid | internal/topology/network_links.go:10-87 | linking directly keeps every rule |
| DirectLinks.DisconnectWorkloadNic | internal/topology/network_links.go:89-123 | the operation takes the interface off the network or refuses without writing |
| DirectLinks.DisconnectIsLocal | internal/topology/network_links.go:183-209 | exactly one interface loses its attachment and its link |
| NetworkOutcomes.DisconnectsExactly | internal/topology/network_links.go:89-123 | an interface is taken off exactly if it was named, exists and is not that of a DHCP service; it keeps its MAC |
| DirectLinks.DisconnectKeepsValid | internal/topology/network_links.go:183-209 | disconnecting keeps every rule |
| DirectLinks.FirstAvailableDirectNic | internal/topology/network_links.go:211-246 | the interface found is free, unlinked and not the source, no earlier one is, and finding none means there is none |
| Disks.EmptyDestinationExactly | internal/topology/disk_lookup.go:82-88 | the empty destination comes out exactly for an empty reference matched by two or more unnamed workloads |
| Disks.DetachActiveDisk | internal/topology/disk_activation.go:88-134 | the loops release every disk of the workload and clear its path |
| Disks.DiskCreate | internal/topology/disks.go:148-232 | the operation computes the lab with the new disk or refuses without writing |
| Disks.DiskAttach | internal/topology/disks.go:234-271 | the operation computes the attachment for base, layer and data disks or refuses without writing |
| Disks.Activate | internal/topology/disk_activation.go:5-86 | vacating, marking the disk and setting the path amount to placing the disk |
| Disks.DiskLayerCreate | internal/topology/disks.go:342-397 | the operation appends a layer on an existing base or refuses without writing |
| Disks.DiskLayerCreateAndAttach | internal/topology/disks.go:273-340 | the operation appends the layer to the resolved destination or refuses without writing |
| Disks.DiskDetach | internal/topology/disks.go:399-438 | the operation computes the detachment or refuses without writing; which disk that is, and when it refuses, is stated by DiskOutcomes.DetachesExactly |
| Disks.DiskMerge | internal/topology/disks.go:440-484 | the layer disappears and its workload loses the path, or nothing is changed; the base image may have taken in the layer either way, and after the commit success is reported exactly if the moved file could be removed too |
| Disks.DiskRename | internal/topology/disks.go:559-590 | the entry and the layers on it are renamed in place, or the operation refuses without writing |
| Disks.DiskDelete | internal/topology/disks.go:599-635 | the disk is removed, or refused while attached or while layers rest on it; after the commit success is reported exactly if the moved file could be removed too |
| DiskEditing.CreateKeepsValid | internal/topology/disks.go:148-232 | creating a disk, attached or not, keeps every rule |
| DiskEditing.AttachKeepsValid | internal/topology/disks.go:234-271 | attaching keeps every rule: one disk per workload, agreeing paths, no data disk on a VM |
| DiskEditing.CreateLayerKeepsValid | internal/topology/disks.go:342-397 | creating a layer keeps every rule |
| DiskEditing.CreateLayerAndAttachKeepsValid | internal/topology/disks.go:273-340 | creating and attaching a layer keeps every rule |
| DiskEditing.DetachKeepsValid | internal/topology/disks.go:399-438 | detaching keeps every rule |
| DiskEditing.MergeKeepsValid | internal/topology/disks.go:592-597 | merging a layer keeps every rule |
| DiskEditing.RenameKeepsValid | internal/topology/disks.go:559-590 | renaming a disk keeps every rule |
| DiskEditing.DeleteKeepsValid | internal/topology/disks.go:599-635 | deleting a disk keeps every rule |
| DiskEditing.RenameRelabels | internal/topology/disks.go:577-585 | on a valid lab renaming one entry and the references to a base relabels the whole list uniformly |
| DiskEditing.RenamingBackRestores | internal/topology/disks.go:559-590 | renaming a disk and back restores the lab exactly |
| DiskEditing.DetachUndoesAttach | internal/topology/disk_activation.go:5-96 | after an attach the workload has exactly that disk and other workloads theirs; detaching leaves it vacant |
| DiskEditing.NewDiskRecords | internal/topology/disks.go:209-223 | a disk created on a workload releases what was there, sets its path and changes no other workload |
| DiskOutcomes.CreatesExactly | internal/topology/disks.go:148-232 | a disk is created exactly under a well-formed unused id and, where a workload is named, if the name leads to one that is no DHCP service; it is last, alone on that workload, the path follows, and nothing else changes |
| DiskOutcomes.AttachesExactly | internal/topology/disks.go:234-271 | an existing disk is attached exactly if the reference leads to such a workload, no other workload has the disk, and it is no data disk for a VM; it is then alone there and otherwise as it was |
| DiskOutcomes.LayersExactly | internal/topology/disks.go:273-397 | a layer is created exactly on an existing base disk under a well-formed unused id, and attached where the reference leads |
| DiskOutcomes.DetachesExactly | internal/topology/disks.go:399-438 | with a reference that leads to a workload a detachment succeeds exactly if some disk attached to it has the id asked for, or rests on it, or none was asked for; that one disk is released, the path cleared, and every other disk and path is as before |
| DiskOutcomes.DetachInfersType | internal/topology/disk_lookup.go:67-80 | a type left open is that of the one kind of workload the reference leads to |
| DiskOutcomes.DetachRefuses | internal/topology/disk_lookup.go:82-114 | an unknown type and a reference that leads to no workload, or to a DHCP service, are refused |
| DiskOutcomes.MergesExactly | internal/topology/disks.go:440-484 | a disk is merged exactly if it is a layer and its workload, if any, is off line; it alone disappears and that workload alone loses its path |
| DiskOutcomes.RenamesExactly | internal/topology/disks.go:559-590 | a disk is renamed exactly to a well-formed unused id; the layers on it follow and nothing else changes |
| DiskOutcomes.DeletesExactly | internal/topology/disks.go:599-635 | a disk is deleted exactly if it is attached to nothing and no layer rests on it; it alone disappears |
| DiskOutcomes.UnknownDisk | internal/topology/disk_lookup.go:16-26 | an id that no disk has is refused by all of them |
| DiskEditing.LayerLeftUnattached | internal/topology/disks.go:273-340 | a successful create-and-attach leaves the layer unattached exactly for the ambiguous empty reference |
| DiskEditing.DetachOfNothing | internal/topology/disks.go:399-438 | a successful detach changes nothing exactly for the ambiguous empty reference |
| FailingCases.LayerForNobody | internal/topology/disk_lookup.go:82-88 | on a valid lab with two unnamed VMs a layer is created and attached to nothing, with success |
| FailingCases.DetachFromNobody | internal/topology/disk_lookup.go:82-88 | on that lab a detachment succeeds and changes nothing |
| FailingCases.NamedReferencesAreServed | internal/topology/disks.go:273-340 | with a reference that is not empty a created layer is attached and a successful detach changes the lab |
| FailingCases.DeletingSwitchStrandsDhcp | internal/topology/switches.go:202-243 | a valid lab with a DHCP service whose switch deletion reaches the commit and is invalid |
| FailingCases.TwinSwitchIsRejected | internal/lab/validate.go:241-279 | beside any switch, creating one whose id differs only in '-' and '_' reaches the commit and is rejected, for every lab name and every hash |
| FailingCases.LanIsRejected | internal/lab/lab_test.go:140-153 | so is "lan-1" beside "lan1" |
| FailingCases.GeneratedNameIsRejected | internal/topology/service.go:179-181 | and so is the first generated name beside "switch1", although no node has it |
| FailingCases.DeletionReportedFailed | internal/topology/disks.go:599-635 | on a valid lab a disk is deleted and a failure reported |
| FailingCases.MergeReportedFailed | internal/topology/disks.go:440-484 | on a valid lab a layer is merged and a failure reported |
| FailingCases.MergeStoppedHalfway | internal/topology/disks.go:465-471 | the layer's contents are in the base, the lab is as before, and a failure is reported |
| FailingCases.FileAheadOfMemory | internal/lab/session.go:64-90 | a mutation after which the file holds the edited lab and memory the old one |
| Renaming.RenameNodeId | internal/topology/identity.go:63-120 | the operation renames the node and its references in place, or refuses having written nothing |
| Renaming.RewriteNodeReferences | internal/topology/identity.go:151-212 | the loops rewrite every reference of the node's kind and nothing else |
| Renaming.ExistingNodeName | internal/topology/identity.go:19-44 | the four scans find a node other than the given one that the name matches up to case and name the first kind that has one; the empty name is never taken |
| Renaming.ClearRedundantNodeName | internal/topology/identity.go:122-149 | names equal to the id are dropped, others kept |
| DeleteOutcomes.OwnIdDropsName | internal/topology/identity.go:122-149 | renaming a node to its own id drops a name equal to the id and changes nothing else |
| CreateOutcomes.RenamesExactly | internal/topology/identity.go:63-120 | a node is renamed exactly to its own id, or to a well-formed name that no other node has as id or name up to case |
| Relabelling.RenameIsRelabel | internal/topology/identity.go:151-243 | on a valid lab the kind-by-kind rewriting is one uniform substitution of the id everywhere |
| Relabelling.ReferencesFollow | internal/topology/identity.go:151-212 | under the substitution every reference leads to the node it led to |
| RenameEffects.RenameKeepsValid | internal/topology/identity.go:63-120 | a successful rename keeps every rule other than that of bridge names |
| NameEffects.RenamedBridges | internal/lab/validate.go:262-268 | after a rename the bridges are apart exactly if the node is no switch or uplink or its new bridge name is not borne by another |
| RenameEffects.RenamingBackRestores | internal/topology/identity.go:63-149 | renaming back always succeeds, and restores the lab exactly if and only if the node had no name |
| Deletes.DeleteWorkload | internal/topology/workloads.go:174-202 | deletion and cleanup of a VM or container, or a refusal without writing |
| Deletes.DeleteSwitch | internal/topology/switches.go:202-243 | deletion and cleanup of a switch, or a refusal without writing |
| Deletes.DeleteUplink | internal/topology/externals.go:99-155 | deletion and cleanup of an uplink on switches, interfaces and layout, or a refusal without writing |
| Deletes.SwitchDisconnectExternal | internal/topology/switches.go:105-158 | uplinks are taken off the one switch, or the operation refuses without writing |
| DeleteEffects.DeletedIsForgotten | internal/topology/externals.go:99-155 | after a deletion nothing anywhere refers to the node |
| DeleteOutcomes.DeletesNodeExactly | internal/topology/workloads.go:377-405 | a node is deleted exactly if the reference leads to one; part by part, what referred to it goes and everything else is as before, in order |
| DeleteEffects.DeleteValidExactly | internal/topology/switches.go:202-243 | a deletion keeps every rule if and only if it is not that of a switch a DHCP service uses |
| DeleteEffects.LosesFind | internal/topology/workloads.go:187-194 | every other node is still found, in the same order |
| DeleteEffects.WorkloadAtAfter | internal/topology/workloads.go:377-405 | every other workload is found exactly as it was |
| DeleteEffects.CutUplinkIs | internal/topology/externals.go:119-133 | a switch loses exactly the deleted uplink |
| DeleteEffects.NarrowedSwitch | internal/topology/switches.go:135-151 | a switch whose uplinks were narrowed stays well formed: MACNAT bridging never lacks an uplink |
| NetworkOutcomes.ModesAfterUplinkDeletion | internal/topology/externals.go:119-133 | deleting an uplink turns exactly the MACNAT bridges that had no other uplink into plain bridges and leaves every other mode alone |
| NetworkOutcomes.TakesUplinksExactly | internal/topology/switches.go:105-158 | uplinks are taken off a switch exactly if it has some and the one named, if any, is among them; losing the last one ends MACNAT bridging |
| DeleteEffects.DisconnectedUplinks | internal/topology/switches.go:105-158 | the switch keeps exactly the other uplinks, and every other switch is unchanged |
| DeleteEffects.DisconnectExternalKeepsValid | internal/topology/switches.go:105-158 | taking uplinks off a switch keeps every rule |
| Creates.WorkloadCreate | internal/topology/workloads.go:12-85 | the operation computes the lab with the new workload or refuses without writing; name, disk, interface and MAC are stated by CreateOutcomes.CreatesWorkloadExactly |
| Creates.SwitchCreate | internal/topology/switches.go:5-42 | the new switch with its uplink, or a refusal without writing |
| Creates.ExternalCreate | internal/topology/externals.go:5-41 | the new uplink, or a refusal without writing |
| Creates.DhcpCreate | internal/topology/dhcp.go:10-66 | the new DHCP service on the requested or first compatible switch, or a refusal without writing |
| CreateOutcomes.CreatesWorkloadExactly | internal/topology/workloads.go:204-268 | a VM or container is created exactly if the name is free, each reference given leads somewhere and not both are given; it is the last of its kind with that name and disk, and one interface on the switch or uplink named, or else on the first switch if there is one, with the MAC asked for on a container and none on a VM |
| CreateOutcomes.CreatesSwitchExactly | internal/topology/switches.go:5-42 | a switch is created exactly if the name is free, the mode known, an uplink named exists and MACNAT bridging has one; the mode is bridge unless given |
| CreateOutcomes.CreatesExternalExactly | internal/topology/externals.go:5-41 | an uplink is created exactly if the name is free and the mode known; the mode is nat unless given |
| CreateOutcomes.CreatesDhcpExactly | internal/topology/dhcp.go:10-66 | a DHCP service is created exactly if the name is free and the switch named, or else the first NAT switch without a MACNAT uplink, is such a switch and has no service; it has one interface on that switch |
| CreateOutcomes.RefusedExactly | internal/topology/identity.go:19-61 | a name is refused exactly where a node bearing it would break the rule on identities |
| CreateEffects.CreateWorkloadKeepsValid | internal/topology/workloads.go:204-268 | creating a workload keeps every rule |
| CreateEffects.CreateSwitchKeepsValid | internal/topology/switches.go:5-42 | creating a switch keeps every rule other than that of bridge names, for which NameEffects.GainedBridges has the exact condition |
| CreateEffects.CreateExternalKeepsValid | internal/topology/externals.go:5-41 | creating an uplink keeps every rule other than that of bridge names, for which NameEffects.GainedBridges has the exact condition |
| NameEffects.GainedBridges | internal/lab/validate.go:262-268 | with one node more the bridges stay apart exactly if it is no switch or uplink or its bridge name is not borne yet |
| NameEffects.LostBridges | internal/topology/switches.go:202-243 | with one node less the bridges stay apart |
| CreateEffects.CreateDhcpKeepsValid | internal/topology/dhcp.go:10-66 | creating a DHCP service keeps every rule, also that of one service per switch |
| CreateEffects.GainsFind | internal/topology/workloads.go:64-79 | the new node is found, and every other node is found where it was |
| Editing.CommitRejectsExactly | internal/topology/transaction.go:18-27 | what an operation on a saved lab hands to its commit is rejected exactly if it deletes a switch under a DHCP service, takes a bridge name that another switch or uplink bears, or makes hashed names that meet |
| Editing.RulesBreakExactly | internal/lab/validate.go:15-197 | the rules on the lab itself break exactly by deleting a switch under a DHCP service |
| Editing.OpNames | internal/lab/validate.go:241-279 | bridge names are kept apart by every operation but the creating and renaming ones that take one, and names with hash digits can meet only after the operations that make some |
| Editing.RunKeepsValid | internal/topology/transaction.go:18-52 | every run of operations in any order keeps every rule, different names of the runtime included |
| Snapshots.Clone | internal/lab/clone.go:3-72 | the snapshot says what the original says and shares no memory with anything that existed |
| Snapshots.CloneContainers | internal/lab/clone.go:36-50 | containers are copied with their own command, environment, capability lists and interfaces |
| Snapshots.EditSlice | internal/lab/clone.go:3-18 | element writes, moves, reslicing and appending change the contents as the value operation does, in place or in fresh memory |
| Transactions.RunScript | internal/topology/transaction.go:36-52 | any script of in-place writes stays within the lab's own and fresh memory, and one of writes to lists without references, positions and new node lists writes exactly the values it says, whatever memory the lab shares |
| Transactions.Session.SaveFile | internal/lab/io.go:46-69 | saving works on a copy, runs the validating loops on it, and changes the file completely or not at all |
| Transactions.Session.SaveAndReload | internal/lab/session.go:64-90 | exactly when it succeeds, what the file and memory hold afterwards, and that the revision moves |
| Transactions.Session.Mutate | internal/topology/transaction.go:14-52 | a failed mutation leaves the lab in memory as it was; the file changes only if the save succeeded |
| Transactions.Session.Run | internal/topology/transaction.go:14-52 | every lab a session ever holds meets every declarative rule, whatever is edited and whichever file operation fails |
| EditingSessions.CommitRejectsExactly | internal/topology/transaction.go:18-27 | in a session the commit of an operation fails validation exactly in the three families of Editing.CommitRejectsExactly |
| EditingSessions.Perform | internal/topology/transaction.go:36-52 | an operation carried out by in-place writes succeeds exactly if save and load do and the commit is not rejected; memory then holds the computed lab, and otherwise the old one |
| EditingSessions.EveryValueHasScript | internal/topology/transaction.go:36-52 | from any lab value every other one of the same name is reached by a script of writes whose effect is definite |
| EditingSessions.OperationHasScript | internal/topology/transaction.go:36-52 | every operation that computes a lab has a script that performs it, for every storable filling of the remaining fields |
| TabManager.Manager.SetTabSession | internal/topologyui/tabs.go:405-422 | a session is installed exactly if the tab is present, the generation current and nothing is closing |
| TabManager.Manager.FinishTabSession | internal/topologyui/tabs.go:424-450 | only the current generation vacates its tab, and the session is handed to exactly that caller |
| TabManager.Manager.CommitStart | internal/topologyui/tabs.go:344-395 | a start goes ahead exactly if the tab is present, current and nothing is closing |
| TabManager.Manager.CloseTab | internal/topologyui/tabs.go:836-876 | the operation computes the list without the tab, hands its session over, and quits at the last tab; what the list is then is stated by TabManager.ClosedTab and TabManager.CloseActiveMovesOn |
| TabManager.Manager.RestartActiveTab | internal/topologyui/tabs.go:878-911 | the shell tab gets a new generation and its old session is handed over |
| TabManager.Manager.CloseTabs | internal/topologyui/tabs.go:174-206 | every tab is retired and all their sessions are handed over in order |
| TabManager.Manager.OpenShellTab | internal/topologyui/tabs.go:289-330 | an existing tab is activated or one new tab appended and activated |
| TabManager.Manager.NextTab | internal/topologyui/tabs.go:815-827 | the active index moves cyclically |
| TabManager.CyclicIndexInRange | internal/topologyui/tabs.go:815-827 | for every step, also a large or negative one, the index stays in range |
| TabManager.CloseOtherKeepsActive | internal/topologyui/tabs.go:836-876 | closing another tab keeps the same tab active |
| TabManager.CloseActiveMovesOn | internal/topologyui/tabs.go:836-876 | after closing the active tab the one that followed it is active, or the new last one if it was the last |
| TabManager.ClosedTab | internal/topologyui/tabs.go:836-876 | the order is the old one without the tab, every other record is unchanged, and the closed tab holds no session |
| TabManager.SingleSteps | internal/topologyui/tabs.go:815-827 | one step forwards leads to the next tab and from the last to the first, one step back the other way |
| TabManager.StepsAddUp | internal/topologyui/tabs.go:815-827 | steps add up |
| TabManager.OpenedTab | internal/topologyui/tabs.go:289-330 | the active tab then bears the key; it is new exactly if no open tab bore it, and every other tab keeps its place and record |
| TabManager.FinishedTab | internal/topologyui/tabs.go:424-450 | the end of a current session marks its own tab alone, as unread unless it is the active one |
| TabManager.RetiredTabs | internal/topologyui/tabs.go:174-206 | closing all tabs vacates and outdates exactly the open ones and collects exactly their sessions, in order |
| TabSessions.ActKeepsInv | internal/topologyui/tabs.go:344-450 | the protocol invariant survives every step of the user interface and of any worker |
| TabSessions.InstalledSessionIsCurrent | internal/topologyui/tabs.go:405-422 | in every interleaving an installed session is open and belongs to its tab's one current worker |
| TabSessions.StaleWorkerChangesNothing | internal/topologyui/tabs.go:397-450 | a worker of an old generation never changes a tab |
| TabSessions.NothingInstalledAfterClosing | internal/topologyui/tabs.go:174-206 | once the tabs are closing no session is installed, ever after |
| TabSessions.EndedSessionIsClosed | internal/topologyui/tabs.go:424-450 | the session of a worker that has ended is closed, or held by exactly one actor about to close it |
| TabSessions.ClosedAtMostOnce | internal/topologyui/tabs.go:174-206 | no session is closed twice |
| TabSessions.QuietMeansClosed | internal/topologyui/tabs.go:836-911 | when all workers have ended and nothing is being closed, every session was closed exactly once |
| TabProgress.WorkerComesToServe | internal/topologyui/tabs.go:344-422 | from every state of the protocol a current worker can open its backend and install its session |
| TabProgress.OpenedShellComesToRun | internal/topologyui/tabs.go:289-422 | a shell that is not open can be opened, becomes the active tab and comes to run an open session |
| TabProgress.RestartedShellComesToRun | internal/topologyui/tabs.go:878-911 | a restarted shell has its old session closed and comes to run another |
| TabProgress.EndedSessionComesToBeClosed | internal/topologyui/tabs.go:424-450 | a session that ends by itself is closed by its worker and its tab shows that it has exited |
| TabProgress.QuittingStops | internal/topologyui/tabs.go:174-206 | quitting comes to a stop with every installed session closed |
| WakePipe.InvAlways | internal/topologyui/tabs.go:208-230 | in every interleaving with any number of notifiers a full channel has a wake-up on its way |
| WakePipe.NoLostWakeup | internal/topologyui/tabs.go:143-172 | a loop about to poll with an update waiting is woken by a byte there or about to be written |
| WakePipe.WokenLoopTakesTheToken | internal/topologyui/app.go:175-222 | a woken loop takes the update before it polls again |
| WakePipe.SwappedDrainsLoseAWakeup | internal/topologyui/keys.go:240-250 | draining in the other order would lose a wake-up |
| WakePipe.TokensAreConserved | internal/topologyui/tabs.go:208-230 | updates sent are updates received plus the one in the channel |
| WakePipe.WakesAreBounded | internal/topologyui/tabs.go:208-230 | wake-up bytes in the pipe or on their way are at most the updates sent, and one for the start |
| NatAllocator.NatContainerHost | internal/hostnet/nat.go:70-114 | the loops compute the host that the set of endpoints determines, or fail |
| NatAllocator.EndpointKeyInjective | internal/hostnet/nat.go:116-118 | an endpoint key determines id and index, whatever characters the id has |
| NatAllocator.FreeSlotIsProbed | internal/hostnet/nat.go:99-113 | cyclic probing finds a free slot while there is one, so the fallback is unreachable |
| NatAllocator.ClaimsAreDistinct | internal/hostnet/nat.go:70-114 | the claims of all keys in order are pairwise different and in range |
| NatAllocator.HostsDiffer | internal/hostnet/nat.go:70-114 | for any pool within the slots, different endpoints get different hosts in the range |
| NatAllocator.SeparateCallsAgree | internal/hostnet/nat.go:56-114 | separate calls for different interfaces of one lab return different hosts in 20 to 20+slots-1 |
| NatAllocator.FailsExactlyWhenOverfull | internal/hostnet/nat.go:89-92 | a call fails exactly if there are more endpoints than slots |
| NatAllocator.OrderDoesNotMatter | internal/hostnet/nat.go:70-98 | the order of the containers is irrelevant |
| NatAllocator.SwitchAddressesDoNotClash | internal/hostnet/nat.go:51-68 | on a switch the addresses differ, lie in .20 to .99 and avoid the gateway's and the DHCP server's |
| TextForms.AddressIs | internal/hostnet/nat.go:56-68 | the address is that of the host in the network 172.31.N.0/24 of the switch, and host 2 for its DHCP service |
| TextForms.LessExactly | internal/hostnet/nat.go:70-114 | keys are ordered by their first different byte, the shorter first where one begins the other |
| NatSlots.HostIsNearest | internal/hostnet/nat.go:70-114 | an interface has the host its hash asks for, or the nearest after it, cyclically, that no interface with a lesser key has |
| NatSlots.AloneAsHashed | internal/hostnet/nat.go:70-114 | alone on its network it has the host its hash asks for, counted from 20 |
| OscFilter.TerminalBuffer.SanitizeOutput | internal/topologyui/terminal_buffer.go:104-149 | the filter with its fast path equals one run of the byte automaton |
| OscFilter.ValidOscIsNumberedCommand | internal/topologyui/terminal_buffer.go:151-177 | the validator accepts exactly ESC ] digits, optional text after a semicolon, terminator |
| OscFilter.RunKeepsConsistent | internal/topologyui/terminal_buffer.go:104-149 | the buffer stays within 65536 bytes and no flag survives outside a command |
| OscFilter.ChunkingIsIrrelevant | internal/topologyui/terminal_buffer.go:75-149 | however the output is cut into chunks, the result is that of the whole stream |
| OscFilter.ParseSpellsInput | internal/topologyui/terminal_buffer.go:104-149 | the reference grammar divides every stream without loss |
| OscFilter.FilterMeetsGrammar | internal/topologyui/terminal_buffer.go:104-149 | the output is exactly the plain bytes and the complete valid commands, in order |
| OscFilter.EscapeFreeIsIdentity | internal/topologyui/terminal_buffer.go:104-109 | output without an escape byte passes unchanged |
| OscFilter.NotIdempotent | internal/topologyui/terminal_buffer.go:104-149 | a stream for which filtering twice is not filtering once |
| OscTitles.TitlesPassWithinLimit | internal/topologyui/terminal_buffer.go:104-177 | a numbered command with a text passes whole if it has at most 65536 bytes, and not at all otherwise |
| RepeatedFiltering.PassesUnchangedExactly | internal/topologyui/terminal_buffer.go:104-149 | a stream passes unchanged exactly if every command in it is complete, numbered and within the limit and no escape byte is pending |
| RepeatedFiltering.IdempotentExactly | internal/topologyui/terminal_buffer.go:104-149 | filtering twice is filtering once exactly if, among the segments the first pass keeps, no escape byte comes last and one directly before a bracket opens a command that the first closing segment completes and the validator accepts |
| RepeatedFiltering.SettledExactly | internal/topologyui/terminal_buffer.go:104-177 | spelled out and read again, kept segments lose nothing exactly under that condition; a reopened command ends with a whole segment |
| RepeatedFiltering.UnopenedIsIdempotent | internal/topologyui/terminal_buffer.go:128-141 | no kept escape byte last or directly before a kept bracket suffices |
| RepeatedFiltering.UndroppedIsIdempotentExactly | internal/topologyui/terminal_buffer.go:104-149 | where every complete command is kept, filtering twice is filtering once exactly if the kept segments do not end in an escape byte |
| RepeatedFiltering.UnclosedIsUnsettled | internal/topologyui/terminal_buffer.go:104-149 | an escape byte left before a bracket that nothing closes is always lost in the second pass |
| KeyDecoding.CompleteInputBytes | internal/topologyui/keys.go:122-177 | the scan computes the length of the complete prefix |
| KeyDecoding.RuneIsStable | internal/topologyui/keys.go:122-131 | a rune judged complete decodes the same whatever bytes follow |
| KeyDecoding.ScanningIsChunkIndependent | internal/topologyui/keys.go:111-177 | scanning in pieces with carry-over finds the boundary of scanning at once |
| KeyDecoding.DecodeKeyEvents | internal/topologyui/keys.go:341-382 | the loop computes the event sequence; which key each sequence and byte means is stated by the rows of KeyTable |
| KeyDecoding.EventsSpellInput | internal/topologyui/keys.go:341-486 | the raw bytes of the events are the input, each event from at least one byte |
| KeyDecoding.DecodingDependsOnTheCut | internal/topologyui/keys.go:362-366 | a carriage return and a line feed are one key or two depending on the chunk |
| KeyTable.ArrowKeys | internal/topologyui/keys.go:388-403 | whatever follows and in either mode, ESC [ with A, B, C, D is up, down, right, left, and with 1;2 before the letter the shifted key |
| KeyTable.PageKeys | internal/topologyui/keys.go:404-427 | so are home, end, delete, the page keys, shifted too, focus gained and lost, and ESC with a colon |
| KeyTable.AltKeys | internal/topologyui/keys.go:428-431 | ESC with 1 to 9, g, t or T is that key with alt |
| KeyTable.PasteMarkers | internal/topologyui/keys.go:341-352 | the two paste markers are themselves |
| KeyTable.EscapeKey | internal/topologyui/keys.go:432-438 | an escape byte alone, or before a byte it goes with to no key, is the escape key |
| KeyTable.UnknownSequence | internal/topologyui/keys.go:384-486 | any other control sequence is passed on raw up to its final byte |
| KeyTable.ModeKeys | internal/topologyui/keys.go:488-509 | j, k, h, l and the blank are themselves in command mode and down, up, left, right and space otherwise |
| KeyTable.PrintingKeys | internal/topologyui/keys.go:488-530 | every other printing byte is itself |
| KeyTable.ControlKeys | internal/topologyui/keys.go:510-522 | tab, line feed, the two backspaces and the three control keys with a name have theirs |
| KeyTable.OtherControls | internal/topologyui/keys.go:523-525 | every other control byte but the escape is named by its number |
| KeyTable.ReturnKey | internal/topologyui/keys.go:362-366 | a carriage return is enter and takes a line feed with it |
| KeyTable.CharacterKeys | internal/topologyui/keys.go:367-380 | every character beyond ASCII, from its UTF-8 bytes, is its own key |
| KeyTable.StrayByte | internal/topologyui/keys.go:367-371 | a byte beyond ASCII that starts no character is passed on raw, alone |
| KeyTable.AwaitedCanComplete | internal/topologyui/keys.go:122-177 | whatever input is held back, some bytes complete it |
| KeyCuts.GrowsExactly | internal/topologyui/keys.go:341-486 | the first event of any bytes comes out differently when more bytes follow exactly under an explicit condition on the two: return and line feed, an unfinished rune, escape or sequence, or a mouse report without M that finds one later |
| KeyCuts.CutsAgreeExactly | internal/topologyui/keys.go:341-382 | for any bytes and any cut the two parts decode to the events of the whole exactly if no event of the first part meets that condition |
| KeyCuts.CalmCutsAgreeExactly | internal/topologyui/keys.go:111-177 | a complete chunk without doubled escape bytes, ESC O before a return and overlong mouse reports decodes apart as together exactly unless it ends in a return and a line feed follows |
| KeyCuts.EscapeFreeCutsAgreeExactly | internal/topologyui/keys.go:362-366 | the same for every complete chunk without an escape byte |
| KeyCuts.DoubledEscapeDisagrees | internal/topologyui/keys.go:428-436 | two escape bytes are complete input, and the second one goes on into what follows |
| KeyCuts.OverrunningMouseDisagrees | internal/topologyui/keys.go:442-450 | a complete mouse sequence with another final byte swallows what follows up to an M |
| KeyInput.CoalesceShellKeyEvents | internal/topologyui/keys.go:179-223 | the merging loops compute the merge of paste blocks, global keys and raw runs |
| KeyInput.CoalescingKeepsRaws | internal/topologyui/keys.go:179-223 | merging changes no byte and leaves no event empty |
| KeyInput.KeyReader.ReadAppKey | internal/topologyui/keys.go:19-86 | a call pops, flushes or reads and hands out the first event, queueing the others with their bytes |
| KeyInput.StepKeepsBytes | internal/topologyui/keys.go:19-120 | no call loses, invents or reorders a byte |
| KeyInput.BytesAreConserved | internal/topologyui/keys.go:19-120 | over a whole run bytes read are bytes handed out, then queued, then carried over |
| KeyInput.ExpiryEmptiesBuffer | internal/topologyui/keys.go:19-86 | an expired wait with nothing queued leaves no byte carried over |
| KeyInput.BufferDependsOnStream | internal/topologyui/keys.go:111-177 | the carry-over buffer depends on the stream read, not on how it was cut |
| KeyDelivery.GlobalKeysReachTheProgram | internal/topologyui/keys.go:179-233 | outside a paste every global key comes out as an event of its own, behind the bytes that were before it |
| KeyDelivery.PasteIsOneBlock | internal/topologyui/keys.go:179-208 | a paste up to its end marker comes out as one block, and what follows is merged by itself |
| KeyDelivery.OpenPasteIsOneBlock | internal/topologyui/keys.go:179-208 | so does a paste whose end marker has not come |
| KeyDelivery.RunIsOneBlock | internal/topologyui/keys.go:209-223 | a run of other keys comes out as one block of its bytes |
| KeyDelivery.SwitchStopsMerging | internal/topologyui/keys.go:225-227 | what follows a key that may take the keyboard away is left as it is |
| KeyDelivery.CallsHandOutInOrder | internal/topologyui/keys.go:19-86 | a call hands out the first event there is, with its key and bytes, and keeps the others in order |
| KeyDecoding.FinalTakesAll | internal/topologyui/keys.go:111-177 | a final flush empties the buffer |
| MouseInput.SgrRoundTrip | internal/topologyui/terminal_buffer.go:206-239 | for every event, decoding and parsing a printed report gives kind, column and button back and the row less one, exactly if bit 32 is clear and the column not maximal |
| MouseInput.DecodedIsForwardable | internal/topologyui/keys.go:442-468 | whatever bytes come in, a decoded report parses to an event with bit 32 clear and a column below the maximum |
| MouseInput.ForwardedRoundTrips | internal/topologyui/tabs.go:616-650 | every event the program forwards to a guest therefore comes back with the same kind, column and button and the row less one |
| MouseInput.SentExactly | internal/topologyui/terminal_buffer.go:206-228 | a report is sent exactly for an event right of the left edge and below the tab bar, of a kind the guest asked for |
| MouseInput.ParsedKey | internal/topologyui/input_mouse.go:21-43 | parsing a mouse key gives back the numbers and kind it was built from |
| TextForms.AtoiReads | internal/topologyui/keys.go:456-461 | digits with or without a sign are read as their value where that is a machine integer |
| TextForms.AtoiRefuses | internal/topologyui/keys.go:456-461 | nothing else is read as a number |
| MouseInput.DecodedMouseKey | internal/topologyui/keys.go:442-468 | the decoder's key for a printed report |
| RouteGrid.PathCellsFromWaypoints | internal/topologyui/route_planner.go:262-284 | the loops end, by Manhattan distance, with the cells of the path or none |
| RouteGrid.PathIsChain | internal/topologyui/route_planner.go:262-284 | a path runs from first to last waypoint in unit steps |
| RouteShapes.PathIsStraight | internal/topologyui/route_planner.go:262-284 | there is a path exactly if each waypoint is level with the next; it passes them all and is no longer than the way between them |
| RouteGrid.ReservedExactly | internal/topologyui/route_planner.go:481-488 | reserving adds exactly the lines along the route, in both directions |
| RouteGrid.ReservingKeepsSymmetry | internal/topologyui/route_draw.go:60-73 | whatever is reserved, every line out of a cell is a line into its neighbour |
| RouteGrid.ReservedCells | internal/topologyui/route_planner.go:481-488 | two or more cells are all occupied by reserving them, a single cell is not |
| RouteSearch.SimplePath | internal/topologyui/route_planner.go:174-203 | the search computes the best candidate over all waypoint sets |
| RouteSearch.BestOfIsCheapest | internal/topologyui/route_planner.go:174-203 | the result is a clear candidate and none is cheaper |
| RouteSearch.BestPathIsClear | internal/topologyui/route_planner.go:297-304 | a found path is a chain from start to goal, in bounds, outside nodes, and free if strict |
| RouteSearch.RelaxedPathIsNoWorse | internal/topologyui/route_planner.go:306-331 | allowing occupied cells never loses a path and never costs more |
| RouteShapes.WaypointSetsAre | internal/topologyui/route_planner.go:174-225 | the waypoint sets are straight on, round either corner, and over to a lane halfway or sixteen columns or four rows out from an end |
| RouteShapes.CostIsCounted | internal/topologyui/route_planner.go:306-342 | a path costs 10 a step, 18 a turn, 160 more for each end the turn is close to, 25 for each cell beside a node, 90 for each occupied cell crossed, and 18 for arriving the wrong way |
| RoutePorts.PlanRouteWithOptions | internal/topologyui/route_planner.go:150-172 | the search computes the best route over all ranked port pairs |
| RoutePorts.PlanIsCheapest | internal/topologyui/route_planner.go:150-203 | no candidate port pair and waypoint set gives a cheaper clear path |
| RoutePorts.RelaxedRouteIsNoWorse | internal/topologyui/route_planner.go:146-172 | the relaxed plan exists whenever the strict one does and costs no more |
| RoutePorts.KeptPortsAreBest | internal/topologyui/route_planner.go:381-423 | truncation to twelve ports drops none that precedes a kept one |
| RouteShapes.PortsAre | internal/topologyui/route_planner.go:381-423 | the ports are those between the corners of each side that open inside the bounds, ranked by side, alignment and place |
| RouteShapes.CandidatesAre | internal/topologyui/route_planner.go:381-423 | the candidates are all of them, or twelve where there are more, in order of rank |
| RouteShapes.SidesAre | internal/topologyui/route_planner.go:425-451 | the side that faces the other node is free, the one behind costs 75, and the others 35 or 28 |
| RoutePlanner.Planner.PlanVisibleRoutes | internal/topologyui/route_planner.go:26-72 | the loop computes the plan edge by edge in order of priority; which edges are drawn, and along which route, is stated by RouteChoice.PlansExactly |
| RouteChoice.FindsBest | internal/topologyui/route_planner.go:150-172 | a route is found exactly if some pair of candidate ports has a clear path through some waypoint set, and then none is cheaper, or as cheap and preferred by length, ports or place |
| RouteChoice.InViewExactly | internal/topologyui/route_planner.go:48-64 | an edge with both ends in view gets a route exactly if there is a strict one or, between workloads, a relaxed one: a best strict one, unless between workloads there is none or, for a further link of one source, a best relaxed one is shorter |
| RouteChoice.PartlyExactly | internal/topologyui/route_planner.go:74-120 | an edge with one end in view gets the straight ray from the side that faces the hidden end to the edge of the view exactly if that has two cells or more, in view and outside every node |
| RouteChoice.InViewMeansACell | internal/topologyui/render_draw.go:33-42 | a node is in view exactly if a cell of it is |
| RouteChoice.DrawsExactly | internal/topologyui/route_planner.go:33-70 | an edge with a missing end, or with both out of view, gets none |
| RouteChoice.PlansExactly | internal/topologyui/route_planner.go:26-72 | the routes planned are those of the edges in order of priority, those of one priority in the order given, each drawn along a best route that the ones before leave it or left out exactly where there is none |
| RouteChoice.PriorityIsLexicographic | internal/topologyui/route_planner.go:128-140 | on drawings of less than ten thousand rows and edges of less than a hundred cells, links between workloads come last, then what is higher up, flatter and narrower comes first |
| RoutePlanner.Planner.Reserve | internal/topologyui/route_planner.go:481-488 | the loop adds the masks of the route |
| RoutePlanner.ReverseRoutePoints | internal/topologyui/route_planner.go:122-126 | the cells are reversed in place |
| RoutePlanner.PlanIsSound | internal/topologyui/route_planner.go:26-105 | every route is a chain in bounds outside nodes; strict routes avoid earlier routes of two or more cells; masks stay symmetric |
| RoutePlanner.NodeOrderDoesNotMatter | internal/topologyui/route_planner.go:453-479 | the plan does not depend on the order of the node rectangles |
| RouteCache.WriteModel | internal/topologyui/route_cache.go:47-65 | the writing loops produce the key text of the model |
| RouteCache.KeyDecodes | internal/topologyui/route_cache.go:18-65 | for texts free of the separators a key determines everything planning looks at |
| RouteCache.EqualKeysEqualPlans | internal/topologyui/render.go:42-49 | equal keys mean equal routes, whatever order the node rectangles are iterated in |
| LabDrawing.DrawingIsClean | internal/topologyui/model.go:47-190 | the drawing of every lab that meets the rules is free of the separators |
| DrawnLab.EdgesAre | internal/topologyui/model.go:47-190 | the edges of a valid lab are its direct links, the attachments of all its interfaces and the uplinks of its switches, and no others |
| DrawnLab.PlacedWhere | internal/topologyui/model.go:47-190 | a node is drawn in the column and row it was placed in, and one without a place in its default place |
| DrawnLab.WorkloadKeysAre | internal/topologyui/route_planner.go:142-144 | the keys of VMs and containers, and no others, count as those of workloads |
| LabDrawing.EqualKeysEqualRoutes | internal/topologyui/route_cache.go:18-65 | so for the drawings of any two valid labs equal keys mean equal routes |
| DrawnLab.LaidOut | internal/topologyui/render_draw.go:13-24 | the rectangles a lab is laid out in are those of its nodes, each at its place moved by pane and panning, 16 by 4 cells or 18 by 5 for an uplink, and no others |
| DrawnLab.PaneLeavesPanel | internal/topologyui/render.go:115-129 | the drawing area is the view, less a panel of about a third where the view is wide and high enough; the least width never comes to bear |
| RouteCache.Cache.Routes | internal/topologyui/app.go:403-423 | the cached routes are those planned afresh |
| Capabilities.EffectiveCapabilities | internal/lab/capabilities.go:96-115 | the listing is ascending and consists of defaults plus additions minus drops |
| CapabilityNames.SupportedAreLinux | internal/lab/capabilities.go:9-51 | the names accepted are exactly those of the capabilities numbered in capabilities(7), up to case and one prefix |
| CapabilityNames.DefaultsAre | internal/lab/capabilities.go:53-68 | a container without lists of its own has the capabilities of the mask a80425fb |
| Capabilities.Container.CapabilitySet | internal/topology/container_capabilities.go:5-43 | the operation computes the lists handed to the commit, or changes nothing |
| Capabilities.NormalizeCapabilities | internal/lab/capabilities.go:127-143 | the stored list is ascending, has no blank and no repetition, and consists of exactly the normalised names |
| Capabilities.ValidateCapabilities | internal/lab/capabilities.go:145-170 | no problem exactly if every name is supported and none is both added and dropped |
| Capabilities.CommitAcceptsExactly | internal/topology/container_capabilities.go:46-48 | the commit refuses exactly the enabling of a dropped capability by a name with a doubled prefix |
| Capabilities.SwitchingHasEffectExactly | internal/topology/container_capabilities.go:5-53 | after a successful change the named capability is effective exactly if enabled and all others as before, exactly if the name had at most one prefix or was to be enabled |
| Capabilities.DoubledPrefixDisablesNothing | internal/lab/capabilities.go:86-89 | a name with a doubled prefix whose disabling is reported and leaves the capability effective |
| Capabilities.SwitchingKeepsDisjoint | internal/topology/container_capabilities.go:33-48 | after every successful change additions and drops are disjoint and the lists are accepted again |
| Capabilities.SettingBackRestores | internal/topology/container_capabilities.go:5-53 | setting a capability and setting it back restores the effective set |
| Capabilities.NormalIsIdempotentExactly | internal/lab/capabilities.go:86-89 | normalising twice is normalising once exactly if no prefix is left |

## Left out

- Trimming of blanks (`Normalize`, `TrimSpace`), case folding beyond ASCII and nil against empty slices: identifiers are taken as trimmed text, and a nil slice equals an empty one.
- Fields that no modelled rule reads (memory, CPUs, images, disk sizes and formats, mount paths, MAC syntax, desired state): they take part in snapshots as one text and in nothing else.
- Hash values: the six digits of truncated bridge names, the eight of direct links and the sixteen of long or irregular container names are uninterpreted functions, so whether two such names meet is a condition of `Editing.CommitRejectsExactly` on the computed lab and not decided further.
- `UpdateVM`, `UpdateContainer`, `UpdateSwitch`, `UpdateExternal`: they reach valid labs only because the commit validates; their rename step is `Renaming.RenameNodeId`, and their writes are scripts of `Transactions.Session.Mutate`.
- `ResizeDisk` saves a second time after a failed command, without a guarantee if that save fails; `DiskImport` and disk files are foreign.
- DirectLinks.ConnectDirectNic: requires unique identities, which every lab of a session has; so do the other members that look a resolved id up again by id or name.
- Transactions.RunScript: for writes to single nodes within their lists and one level down (interfaces, commands, environments, capability lists, uplink lists, remarks) it says where a script writes, not what, because the edited lab may share such memory. What each slice edit writes is stated by Snapshots.EditSlice.
- Transactions.Session.Run: the rules Validate has for the remaining fields are one uninterpreted condition, checked beside the modelled rules.
- Disks.DiskMerge: whether the workload is offline is a parameter, because it is reported by the runtime; the outcomes of the image command, the move, the commit and the removal are parameters too, as in Disks.DiskDelete.
- Validation.Validate: the wording and the order of the problems are not modelled, only whether there are any.
- TabSessions.InstalledSessionIsCurrent: sessions are closed by tab actors only; the in-memory pipe session that closes itself is used by no tab.
- Terminal emulation, kitty key encoding, bracketed-paste replies, timers and polling: libraries or the operating system; an expired wait is an input of `KeyInput.KeyReader.ReadAppKey`.
- MouseInput.SgrRoundTrip: the legacy encoding that limits coordinates is not modelled.
- KeyInput.KeyReader.ReadAppKey: the translation of letters to movement keys in the editor happens after it.
- LabDrawing.DrawingIsClean: captions, details and runtime state of drawn nodes take part in no key and are left out; the order sorting leaves the nodes in is arbitrary.
- RouteCache.Cache.Routes: the reuse of routes while a node is moved or the view is panned is excluded.
- RoutePlanner.Planner.PlanVisibleRoutes: coordinates are unbounded integers; sorting is a stable insertion sort.
- NatAllocator.NatContainerHost: the hash is any function; two switches may still share an address prefix.
- The YAML format, the reconciler, libvirt and containerd, drawing, menus, palette and inspector.
