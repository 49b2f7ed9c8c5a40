# Model of the nova-ve lab backend

A Dafny model of the parts of the nova-ve backend that keep labs, host and files
consistent, with proofs about it. `dafny verify dfyconfig.toml` checks the project.

nova-ve keeps each lab in a lab.json file: nodes, networks and links. A link between
two nodes is stored as two half-links over a hidden ("implicit") network. Services
change the file under a file lock, guard each (lab, node, interface) with an in-process
lock, attach running nodes to host bridges, hand out addresses, and share NAT-Cloud
subnets between labs.

| modules | what they model |
|---|---|
| `LabModel`, `LinkSpec`, `NetworkSpec`, `LabRuns` | lab.json as a state machine over link and network requests |
| `LinkService`, `NetworkService`, `IdempotencyCache` | the services that update the file and host in place, loop by loop, proved against those functions |
| `HostSpec` | bridges and runtime attachments, and the rollback of a failed attach |
| `RuntimeMutex`, `LockOrder`, `DeleteRace` | the interface locks and the interleavings of their callers |
| `RepairSpec`, `Repair` | the repair script's fixpoint |
| `Cidr`, `CloudModel`, `CloudRuns`, `Ipam`, `CloudInventory`, `CloudService` | NAT-Clouds of all labs: subnets, references, free-lists |
| `LegacyTopology` | reading and writing lab.json, and the older view derived from links |
| `PairedTemplate` | the check of a paired template against what instantiation looks up |
| `MacRegistry` | the index of planned MAC addresses |
| `Hypervisor`, `TelnetFilter` | two byte-stream parsers |
| `HostNames`, `WsHub` | kernel object names and sweeps; the event ring |
| `Collections`, `Text` | set, map and text facts they share |

Functions over values say what an operation does; the classes and methods run the
loops of the source and are proved equal to them; the lemmas state what the functions
keep. Network answers, lock timeouts, attach failures and host errors are parameters.
Automatic induction is off in every lemma: each induction is written out in its body.

## Where the code falls short of its own description

Each item has a lemma with the exact condition.

- Links between two networks are checked for the first network only, so the invariant
  depends on the second (`LabRuns.StepKeepsInvIff`).
- A link from an interface to itself is stopped only by the second acquire of the same
  lock timing out (`RuntimeMutex.IdleRequestContendsIff`).
- An error of the attach pass that is neither a runtime nor a host error, such as
  contention on the node lock, rolls back lab.json but not the host
  (`HostSpec.FailedCreateRestoresIff`, `HostSpec.ContentionLeavesTrace`).
- A delete that fails between releasing its address and writing lab.json leaves the
  address recorded; tried again, it frees an address that may be another link's by then.
  On one event loop this is the only way (`DeleteRace.OnOneLoopIff`). Were the bodies of
  several calls to run on several threads, a reused link id would be another
  (`DeleteRace.NeverStolenIff`).
- A shared cloud id of white space only is stored, makes a reference to nothing, and
  takes its subnet out of the overlap check (`CloudRuns.StepKeepsInvIff`,
  `CloudRuns.BlankIsReissued`).
- A cloud can be shared once: the row of the first reference makes it unsafe for reuse
  (`CloudRuns.ReferenceAcceptedIff`).
- A gateway configured inside the static range can be handed out (`Ipam.GatewayIff`).
- Preflight of a paired template lets non-dictionary children, links to an empty id and
  shadowed ids pass (`PairedTemplate.AcceptedResolvesIff`).
- A MAC claim is forgotten when another lab takes the key and drops it
  (`MacRegistry.RegisteredIff`, `MacRegistry.ClaimLost`).
- The comment on veth names gives a bound that is too large, and some names that may be
  made are never swept (`HostNames.DocumentedBound`, `HostNames.NeverSwept`). The sweeps
  also list names whose deletion was refused, though their comments say "successfully
  deleted" (`HostNames.ReturnedGoneIff`, `HostNames.Host.Run`).
- Were a cloud id to occur twice among the owners, a later record of it would hide an
  earlier one from the overlap marking (`CloudInventory.MarkedIff`,
  `CloudInventory.HiddenIff`); the modelled operations never store one twice.
- A client may give an entry of the older topology an id; when it is the id that the
  place of another entry has, the file gets two links with one id
  (`LegacyTopology.MadeDistinctIff`, `LegacyTopology.GivenIdClashes`).
- The derived count of a network with id 0 differs from the service's count
  (`LegacyTopology.DerivedCountIff`), and a caller that empties the links but keeps the
  derived topology writes them back (`LegacyTopology.EmptyingLinks`).
- The repair loop's result can depend on dictionary order when an implicit network with
  more than two ends is joined to another implicit one: it does exactly when some order
  spares such a network (`RepairSpec.DependsIffSpares`, `RepairSpec.DependsIffRescued`).

## Model

| member | source | states |
|---|---|---|
| LabRuns.ReachableInv | backend/app/services/link_service.py:479-575 | After any sequence of create_link (not between two networks), delete_link, create_network, delete_network and patch_network from the empty lab: each implicit network has exactly two link ends, every network a link names is on file, no (node, interface) is wired twice, link ids are distinct |
| LabRuns.StepKeepsInvIff | backend/app/services/link_service.py:433-593 | One request keeps that invariant if and only if it changes nothing or is not a network-to-network link whose unchecked second network is missing or implicit |
| LabRuns.RunKeepsInv | backend/app/services/network_service.py:960-1018 | The invariant is kept along every run of requests, network-to-network links included as long as their second network is an ordinary one on file |
| LabRuns.NoNetworkPairIsServed | backend/app/services/link_service.py:545-553 | Runs without network-to-network requests are all of that kind, in every state they pass through |
| LabRuns.LinkRequestIs | backend/app/services/link_service.py:356-616 | A link request of these runs does to the file what create_link does to it on any host; one between an interface and itself, which never gets its locks, does nothing |
| LabRuns.StepDoes | backend/app/services/link_service.py:1412-1497 | A request the host does not carry out changes nothing; a link that is made joins what was asked for, a deleted one is gone, networks come, go and change exactly when their request is served |
| LabRuns.CompensationRestores | backend/app/routers/labs.py:1103-1129 | Creating any list of node-to-node links and deleting only the returned first halves, last first, gives back the links in their order and the networks exactly |
| LabRuns.CompensatedRun | backend/app/routers/labs.py:1103-1129 | As a run of the service: the requests of the loop make two halves each, and followed by the compensation they lead back to the file the run started from |
| LinkSpec.SuffixOfPrinted | backend/app/services/link_service.py:124-132 | A printed lnk_NNN id, padded or longer than three digits, reads back as its number |
| LinkSpec.NextLinkIdIsFresh | backend/app/services/link_service.py:124-132 | The next id differs from every id in the file, whatever shapes those have |
| Collections.NextKey | backend/app/services/link_service.py:135-143 | The next network id, one above the largest, is positive and unused |
| LinkSpec.FreshIdUnused | backend/app/services/link_service.py:135-143 | No link of a file without dangling ends names the next network id, although ids are reused |
| LinkSpec.PairKeyIgnoresOrder | backend/app/services/link_utils.py:13-24 | Two requests have the same pair key if and only if they name the same two ends, in either order |
| LinkSpec.NoConflictMeans | backend/app/services/link_service.py:437-472 | A request passes the duplicate checks if and only if neither of its interfaces is wired by any link and no link joins its two ends in either order |
| LinkSpec.CreatedLinks | backend/app/services/link_service.py:495-560 | The links that are made stand at the end of the list, carry the style asked for, and join each interface to a new network, or the two ends as given onto the network that is answered |
| LinkSpec.JoinNodesKeepsInv | backend/app/services/link_service.py:495-543 | A node-to-node link with its two halves over a new hidden network keeps the invariant |
| LinkSpec.JoinNetworkKeepsInv | backend/app/services/link_service.py:545-593 | A link onto a network keeps the invariant; an implicit network stops being implicit at its third end |
| LinkSpec.FirstExtraLinkPromotes | backend/app/services/link_service.py:562-575 | In a sound file the first link made onto an implicit network makes it explicit, visible and named, keeping a name it had; an explicit network and all others stay as they are |
| LinkSpec.InadmissibleBreaksInv | backend/app/services/link_service.py:545-593 | A link from an interface to itself, or to a second network that is missing or implicit, breaks the invariant if it is made |
| LinkSpec.CreateKeepsInvIff | backend/app/services/link_service.py:433-593 | A link that is made keeps the invariant if and only if the request joins two different interfaces, an interface and a network, or two networks of which the second is ordinary |
| LinkSpec.DeleteKeepsInv | backend/app/services/link_service.py:1412-1497 | Deleting any link, present or not, keeps the invariant |
| LinkSpec.DeleteOrdinary | backend/app/services/link_service.py:1429-1436 | A link on ordinary networks goes alone |
| LinkSpec.DeleteHalf | backend/app/services/link_service.py:1438-1497 | Deleting one half of an implicit bridge removes exactly the other half and the network as well |
| LinkSpec.DeleteIs | backend/app/services/link_service.py:1412-1497 | In a sound file deleting takes out exactly the link and, if it is on an implicit network, the other half and that network; everything else stays |
| LinkSpec.HalfLeavesSibling | backend/app/services/link_service.py:1443-1485 | Taking one half out leaves exactly one end, the sibling, and taking that out leaves none |
| LinkSpec.ReturnedHalf | backend/app/services/link_service.py:495-516 | The returned half is the first with its id and stands right before its sibling at the end of the list |
| LinkSpec.CreateThenDelete | backend/app/services/link_service.py:1412-1497 | Deleting the returned half of a new node-to-node link restores the file if and only if no stale link names the new network id |
| LabModel.RefcountIsCount | backend/app/services/link_service.py:76-83 | For an id other than 0 the service's count is the number of link ends on the network |
| NetworkSpec.CreateNetworkKeepsInv | backend/app/services/network_service.py:809-872 | A created network keeps the topology invariant |
| NetworkSpec.DeleteNetworkKeepsInv | backend/app/services/network_service.py:960-1018 | A network is deleted only when explicit and unreferenced, so the invariant is kept |
| NetworkSpec.PatchNetworkKeepsInv | backend/app/services/network_service.py:1303-1375 | A patch, promotion by naming included, keeps the invariant |
| NetworkSpec.PatchPromotesIff | backend/app/services/network_service.py:1303-1385 | A patch promotes exactly an implicit network given a name that is not blank, under that name and visible; a new name of an explicit network is not in use; nothing else of the lab changes |
| NetworkSpec.PatchedFields | backend/app/services/network_service.py:1299-1376 | After a patch each field that is given has the value given, and each other field is as it was, but that promotion makes the network visible |
| NetworkSpec.PatchServedIff | backend/app/services/network_service.py:1290-1372 | A patch goes through if and only if the network is there and the patch neither un-names a visible network, nor takes another visible network's name, nor touches what only the service may set; 404, 409 and 422 say which |
| NetworkSpec.NameTakenIff | backend/app/services/network_service.py:272-300 | A name is in use if and only if it is not blank and another visible network has it, outer white space and case aside |
| NetworkSpec.NetworkServedIff | backend/app/services/network_service.py:744-960 | A network is made if and only if it has a name nothing visible has, its configuration fits its kind, and its bridge comes up or is the host's own |
| NetworkSpec.NetworkRefusal | backend/app/services/network_service.py:744-960 | The error of a refused create, in the order of the checks |
| NetworkSpec.NewNetworkIs | backend/app/services/network_service.py:809-872 | A new network has the stripped name, the kind asked for or linux_bridge, is visible and explicit, stands under a new id, and nothing else changes |
| NetworkSpec.DeleteServedIff | backend/app/services/network_service.py:960-1018 | A network with an id other than 0 goes if and only if it is there, explicit, on no link and lent to nobody; 404 or 409 otherwise |
| NetworkService.ScanName | backend/app/services/network_service.py:272-300 | The scan finds a name in use if and only if some other visible network bears it, ignoring case and outer white space |
| NetworkService.CreateNetwork | backend/app/services/network_service.py:744-960 | Refuses, in this order, a malformed CIDR, an empty name, a used name, a NAT-Cloud or bridge-cloud configuration with its own code; else adds one network under a new id; a failed provisioning leaves the file as it was |
| NetworkService.DeleteNetwork | backend/app/services/network_service.py:960-1018 | 404 for a missing or implicit network, 409 while a link or another record uses it, else exactly that record goes |
| NetworkService.PatchNetwork | backend/app/services/network_service.py:1282-1385 | Refuses un-naming, used names, bridge_cloud transitions, host_bridge and service-managed fields; naming an implicit network promotes it; otherwise only the patched fields change |
| LinkService.ScanNextLinkId | backend/app/services/link_service.py:124-132 | The loop yields the id that NextLinkIdIsFresh is about |
| LinkService.ScanNextNetworkId | backend/app/services/link_service.py:135-143 | The loop yields the id FreshIdUnused is about, in whatever order keys are visited |
| LinkService.FindConflict | backend/app/services/link_service.py:443-472 | The loop reports the first conflicting link and its kind |
| LinkService.LinkReferencesEndpoint | backend/app/services/link_service.py:86-121 | True if and only if some link wires that interface to that network |
| LinkService.LinkService.DeleteLinkLocked | backend/app/services/link_service.py:1412-1497 | The in-place removal, cascade and collection leave exactly the file DeleteKeepsInv and CreateThenDelete speak of; a missing link changes nothing |
| LinkService.LinkService.CreateLinkLocked | backend/app/services/link_service.py:401-616 | The mutation, the attach pass and the write-back leave exactly the file and host that CreateIff speaks of |
| LinkService.LinkService.CreateUnderLocks | backend/app/services/link_service.py:382-399 | Every way out gives back every lock taken, and on contention neither file nor host changes |
| LinkService.LinkService.CreateLink | backend/app/services/link_service.py:312-399 | A cached key replays the first answer with nothing else changed; otherwise the call contends if and only if a lock is held or both ends are one interface; after every reply the cache is that of ReplayIsAnswer and RetryIsReplayed, so a contended, refused or failed request leaves it as it was |
| LinkService.LinkService.CacheGet | backend/app/services/link_service.py:272-279 | A hit returns the stored answer and makes it the newest; no key never hits |
| LinkService.LinkService.CacheSet | backend/app/services/link_service.py:281-298 | Stores the answer as newest and drops the oldest beyond 1024 |
| IdempotencyCache.AnswerSurvives | backend/app/services/link_service.py:272-298 | A cached answer is still there, unchanged, after any uses of other keys as long as fewer than 1024 distinct ones are newer |
| IdempotencyCache.StoredIsNewest | backend/app/services/link_service.py:281-298 | Right after it is stored an answer is present and no key is newer |
| IdempotencyCache.TrimKeeps | backend/app/services/link_service.py:297-298 | Trimming brings the cache to 1024 entries and never drops a key overtaken by fewer |
| IdempotencyCache.ReplayIsAnswer | backend/app/services/link_service.py:312-399 | After any run of calls, an answer that can be replayed is that of a call with the same key that was carried out to the end, and every later call with the key had it |
| IdempotencyCache.FailureIsRetried | backend/app/services/link_service.py:389-399 | While every call with a key was contended, refused or failed on the host, the next one is not answered from the cache |
| IdempotencyCache.RetryIsReplayed | backend/app/services/link_service.py:272-298 | A call that is carried out is replayed to its retries, unchanged, while fewer than 1024 other keys have been used since |
| HostSpec.HealedIff | backend/app/services/link_service.py:840-893 | Healing detaches exactly the targets that are plugged into another network, are not declared there by any link, and let themselves be detached; no other attachment and no bridge changes |
| HostSpec.CreateIff | backend/app/services/link_service.py:601-893 | From any state of the host: a create_link that passes the checks on the file succeeds if and only if none of its interfaces runs, or the bridge is there or can be made and every running interface can be attached, and detached first where it is plugged in elsewhere; it then plugs in exactly those. Otherwise links and networks are put back, and the host if and only if the failing pass leaves no trace |
| HostSpec.FailedPassRestoresIff | backend/app/services/link_service.py:801-1020 | From any state of the host: the pass fails if and only if the bridge is missing and not to be had, or some target is refused or stays plugged in elsewhere; failing leaves bridges and attachments as before if and only if the bridge is not to be had, or nothing was healed and the first refusal is an error the pass handles with no target before it plugged in already, or is another error with the bridge there and every target before it plugged in already |
| HostSpec.FailedCreateRestoresIff | backend/app/services/link_service.py:601-616 | From a host that agrees with lab.json: create_link fails if and only if the bridge is not to be had or some attach is refused; it always restores links and networks, and the host if and only if the bridge is not to be had, the first refusal is an error the pass handles, or the very first target meets another error with the bridge there |
| HostSpec.ContentionLeavesTrace | backend/app/services/link_service.py:896-955 | Whenever two running interfaces are joined and the second attach meets an error the pass does not handle, lab.json is restored but the first interface and the bridge stay, declared by no link |
| HostSpec.SuccessfulCreateAgrees | backend/app/services/link_service.py:896-945 | After a successful create host and lab.json agree if and only if every attachment of another interface is declared, so always when they agreed before |
| HostSpec.PassPlugs | backend/app/services/link_service.py:896-945 | A successful pass plugs exactly the targets into the network, wherever they were plugged in, over a bridge that is there, and changes no other attachment |
| LinkService.HealTargets | backend/app/services/link_service.py:840-893 | The loop over the targets leaves the host that HealedIff speaks of |
| LinkService.HotAttach | backend/app/services/link_service.py:677-1020 | The loops over targets, with their rollback, do exactly what the pass FailedPassRestoresIff speaks of |
| LinkService.SweepFailedPass | backend/app/services/link_service.py:946-1018 | The rollback unplugs exactly the interfaces already attached and removes the bridge only if this call added it |
| RuntimeMutex.NodeKeys | backend/app/services/link_service.py:356-366 | The keys of a request are those of its node ends, once each, sorted |
| RuntimeMutex.CanTakeAllIff | backend/app/services/runtime_mutex.py:127-136 | Taking keys one after another succeeds if and only if none is held and none is asked for twice, because the locks are not re-entrant |
| RuntimeMutex.IdleRequestContendsIff | backend/app/services/runtime_mutex.py:198-213 | On an idle registry a request waits in vain if and only if both its ends are the same interface |
| RuntimeMutex.RuntimeMutexRegistry.TryAcquire | backend/app/services/runtime_mutex.py:127-136 | A lock made on first use is granted if and only if nobody holds it |
| RuntimeMutex.RuntimeMutexRegistry.IsHeld | backend/app/services/runtime_mutex.py:246-261 | True if and only if the key is held; a key never used is not |
| RuntimeMutex.RuntimeMutexRegistry.AcquireAll | backend/app/services/link_service.py:382-387 | All keys or none: on the first refusal the ones already taken are given back |
| RuntimeMutex.RuntimeMutexRegistry.ReleaseFirst | backend/app/services/runtime_mutex.py:174-217 | Leaving the scopes gives back exactly the keys taken |
| LockOrder.MutualExclusion | backend/app/services/runtime_mutex.py:174-217 | In every interleaving of any number of callers no two hold the same key |
| LockOrder.ReleasedOrComplete | backend/app/services/link_service.py:382-399 | A caller that is gone, however it ended, owns no key; one inside owns all the keys it asked for |
| LockOrder.AcyclicIff | backend/app/services/link_service.py:364-366 | With sorted keys no interleaving ever reaches a circle of waiting callers if and only if no caller asks for a key twice |
| LockOrder.RequestsAcyclicIff | backend/app/services/link_service.py:356-387 | For create_link and delete_link requests: never a circle if and only if no request joins an interface to itself |
| LockOrder.SomeoneMoves | backend/app/services/link_service.py:364-387 | Without timeouts, and with distinct keys, some caller can always take a step until all are gone |
| LockOrder.EverybodyLeaves | backend/app/services/link_service.py:364-399 | Without timeouts, and with distinct keys, no run takes more steps than the keys allow, and one that cannot go on has left nobody waiting, inside or with a lock |
| LockOrder.OutMeansServed | backend/app/services/link_service.py:382-399 | A caller on its way out was inside, with all its locks, unless its wait ran out |
| DeleteRace.StepKeepsInv | backend/app/services/link_service.py:1391-1497 | Under the policies in which nothing is stolen every step, deletes cascading to the other half included, keeps: a caller past its wait owns its lock, recorded addresses are reserved in the name of their links, and what a body read is still so, or (on threads) has gone with its other half |
| DeleteRace.LookIsCurrentOnOneLoop | backend/app/services/link_service.py:1229-1436 | On one event loop, ids reused or not, the re-probed record is the stored one until the write, and its address is still its own until the release |
| DeleteRace.LookIsCurrentOnThreads | backend/app/services/link_service.py:1229-1497 | With bodies interleaving but no reused id, the body holds the lock of the link it read, and that link is as it was read or has gone with its other half; the address about to be freed is its own either way |
| DeleteRace.NeverStolenIff | backend/app/services/link_service.py:1391-1497 | No run of deletes, creates, promotions and address assignments ever frees an address that is another link's if and only if no call fails between its release and its write, and bodies do not both interleave and meet a reused id |
| DeleteRace.OnOneLoopIff | backend/app/services/link_service.py:1391-1420 | On one event loop, with ids reused as the code does: if and only if no call fails between its release and its write |
| DeleteRace.ReuseSteals | backend/app/services/link_service.py:1148-1160 | If bodies interleave, a run in which the id of a deleted link is reused while another delete waits, and that delete, working on a stopped node's link, frees a third link's address |
| DeleteRace.LateFailureSteals | backend/app/services/link_service.py:1391-1420 | A run, also on one event loop, in which a delete fails between release and write, the address goes to another link, and the retried delete frees it again |
| DeleteRace.RemovedOnce | backend/app/services/link_service.py:1412-1485 | Under every policy each link is removed at most once, by its own delete or by that of its other half, and is not on file afterwards; halves of a bridge always stand on file together |
| DeleteRace.RemovedTakesPair | backend/app/services/link_service.py:1443-1485 | Deleting either half of a bridge takes out both halves and nothing else |
| RepairSpec.RepairIsSound | backend/scripts/repair_orphan_bridges.py:75-154 | For every lab: afterwards each interface has at most one link end, every implicit network has refcount 2, and kept plus removed links (and the number of networks) equal the input |
| RepairSpec.RepairRestoresInv | backend/scripts/repair_orphan_bridges.py:75-154 | From a lab with positive network ids, distinct link ids, no dangling ends and network-to-network links only between ordinary networks, the repair gives a lab with the whole topology invariant |
| RepairSpec.DropThenRepair | backend/app/routers/labs.py:1482-1503 | Any set of links may be dropped from a lab with the invariant, as deleting a node does, and a repair gives the invariant back |
| RepairSpec.RepairIdentity | backend/scripts/repair_orphan_bridges.py:75-154 | A lab that is already sound is returned unchanged |
| RepairSpec.RepairIdempotent | backend/scripts/repair_orphan_bridges.py:75-154 | A second repair removes nothing, whatever order the networks are visited in |
| RepairSpec.RepairKeepsReachable | backend/scripts/repair_orphan_bridges.py:75-154 | Every state that keeps the topology invariant, so every reachable one, is returned unchanged |
| RepairSpec.DeduplicatedOnePerInterface | backend/scripts/repair_orphan_bridges.py:85-110 | Pass 1 leaves one link end per interface at most, on a newest link by the numeric id order |
| RepairSpec.SettleLeavesNoOrphans | backend/scripts/repair_orphan_bridges.py:115-147 | The while loop terminates, and then no implicit network has a count other than 2 |
| RepairSpec.SettleConserves | backend/scripts/repair_orphan_bridges.py:115-147 | The loop only moves links and networks to the removed lists |
| RepairSpec.SettleIsOneFilter | backend/scripts/repair_orphan_bridges.py:115-147 | When no link joins two implicit networks, and 0 is no network id, the loop is a single filter by the counts it started from, in every visiting order |
| RepairSpec.SettleIsOneFilterIff | backend/scripts/repair_orphan_bridges.py:115-147 | When no implicit network with more than two ends is joined to another implicit one, the loop is that single filter if and only if no orphan is joined to an implicit network that has its two ends |
| RepairSpec.DependsIffSpares | backend/scripts/repair_orphan_bridges.py:115-147 | For every file: two visiting orders leave different networks if and only if some order leaves an orphan of the start on file |
| RepairSpec.DependsIffRescued | backend/scripts/repair_orphan_bridges.py:115-147 | When, after networks with fewer than two ends are taken out until none is left, none with more than two is joined to another implicit one: the order matters if and only if some network that had too many ends then has two |
| RepairSpec.OrderMatters | backend/scripts/repair_orphan_bridges.py:115-147 | A file of three links and two networks that different visiting orders repair differently |
| Repair.RepairFile | backend/scripts/repair_orphan_bridges.py:75-154 | The script's passes leave the file that RepairIsSound and RepairIdentity speak of and report what they took out |
| Repair.GroupByInterface | backend/scripts/repair_orphan_bridges.py:85-89 | The dictionary holds, for every interface, its links once for each end |
| Repair.DuplicateIds | backend/scripts/repair_orphan_bridges.py:90-100 | The ids to drop are those of some interface's links other than its newest |
| Repair.OnePass | backend/scripts/repair_orphan_bridges.py:115-147 | One pass does what SettleLeavesNoOrphans speaks of and reports a change if and only if a network went |
| Cidr.ContainsIsRange | backend/app/services/network_service.py:180-183 | An address is in a network if and only if it lies between the network and the broadcast address |
| Cidr.OverlapsIff | backend/app/services/network_service.py:145-147 | The four-corner overlap test holds if and only if some address is in both networks (RFC 4632, section 3.1) |
| Cidr.OverlapsNested | backend/app/services/network_service.py:145-148 | Overlapping networks are nested: the longer prefix lies wholly inside the other |
| Cidr.LowestFreeIsLeast | backend/app/services/network_service.py:141-152 | The automatic choice is a block of the pool overlapping nothing in use; none lower is free, and it fails only when none is left |
| Cidr.AllocateCidr | backend/app/services/network_service.py:141-152 | The loop over the pool's blocks makes the choice LowestFreeIsLeast speaks of |
| Cidr.AnyOverlap | backend/app/services/network_service.py:145-148 | The scan reports a hit if and only if some network in use overlaps the candidate |
| CloudModel.CloudIdUnique | backend/app/services/cloud_inventory_service.py:99-100 | A cloud id tells its lab id and network id, colons in the lab id included |
| CloudModel.NormalizeIff | backend/app/services/network_service.py:155-220 | A request is granted if and only if there is a subnet it is for (the given one, free and at least a /24, or the lowest free /24 of the pool) and its addresses fit that subnet; the result keeps all the rules; without addresses of its own it is refused only when there is no such subnet |
| CloudModel.AddressesChecked | backend/app/services/network_service.py:177-205 | Gateway and DHCP range are accepted if and only if readable, the gateway strictly inside, and the range inside, ordered and past offset 99; the defaults always are |
| CloudModel.Defaults | backend/app/services/network_service.py:175-220 | Given addresses are stored as given; left out, the gateway is the first address of the subnet, the DHCP range starts at offset 100 and ends before the broadcast address |
| CloudRuns.ReachableInv | backend/app/services/network_service.py:763-817 | After any run of create and delete of labs and networks and of allocate and release, in all labs, without blank shared ids: every reference names an existing owner and shows its configuration, owners' subnets are disjoint, every free-list is increasing and within its window, and no cloud is referred to twice |
| CloudRuns.StepKeepsInvIff | backend/app/services/network_service.py:776-787 | One step keeps all this if and only if it does not store a shared cloud id of white space only |
| CloudRuns.RunKeepsInv | backend/app/services/cloud_inventory_service.py:126-165 | The invariant is kept along runs from any host that has it |
| CloudRuns.StepDoes | backend/app/services/network_service.py:744-1280 | What each request of a run does to the host, and that nothing else changes: a lab comes or goes, a record comes or goes, an address is taken or given back, exactly when the request is served |
| CloudRuns.CreatedIs | backend/app/services/network_service.py:744-872 | One more record under an id nothing has; a reference shows its owner's configuration, and a network that is no cloud keeps the CIDR it was given |
| CloudRuns.DropKeepsInv | backend/app/services/network_service.py:980-1014 | Deleting a network strands no reference and keeps the rest, although ids are reused |
| CloudRuns.DroppedIs | backend/app/services/network_service.py:960-1018 | A network is deleted if and only if it is there, on no link, and no cloud that is referred to; exactly that record goes |
| CloudRuns.DropLabKeepsInv | backend/app/services/lab_service.py:529-545 | Deleting a lab strands no reference from another lab |
| CloudRuns.LabDroppedIs | backend/app/services/lab_service.py:529-545 | A lab is deleted if and only if no other lab refers to a cloud of it; exactly that lab goes |
| CloudRuns.NewOwnerDisjoint | backend/app/services/network_service.py:783-788 | A new owner's subnet overlaps no listed owner's, in any lab |
| CloudRuns.NewOwnerIs | backend/app/services/network_service.py:744-872 | A new cloud stands under a new id with its addresses as given or defaulted, first_offset 2 and nothing reserved |
| CloudRuns.ConfigurationStays | backend/app/services/network_service.py:1108-1280 | As long as a record is on file, no run of requests changes anything of it but its free-list |
| CloudRuns.DefaultGatewayIsSafe | backend/app/services/network_service.py:175-183 | A cloud made without a gateway never hands its gateway out, in any run it survives and through whichever record the address is asked for |
| CloudRuns.DisjointRun | backend/app/services/network_service.py:763-788 | Listed owners' subnets stay pairwise disjoint along every run, blank shared ids included |
| CloudRuns.ReferenceAcceptedIff | backend/app/services/network_service.py:223-248 | A shared cloud is accepted if and only if its owner exists and nothing refers to it yet |
| CloudRuns.BlankIsReissued | backend/app/services/network_service.py:776-788 | The subnet of a record stored with a blank shared id is given to the next owner created elsewhere |
| CloudRuns.OneFreeList | backend/app/services/network_service.py:1083-1106 | Owner and references lead to the same record's free-list |
| CloudRuns.AddressStepIs | backend/app/services/network_service.py:1108-1280 | An allocation adds exactly the address it returns to the record the row leads to, a release takes exactly its address out, and no other record changes |
| CloudRuns.TargetIs | backend/app/services/network_service.py:1083-1106 | A row leads to itself, unless it names a cloud; then to that cloud's owner, 409 without one |
| CloudRuns.AddressesApart | backend/app/services/network_service.py:1108-1198 | No address is reserved in two owners' free-lists |
| CloudRuns.AllocationIsFresh | backend/app/services/network_service.py:1108-1198 | An allocation through owner or reference fails if and only if the window is full; else it returns the least unreserved address, reserved in no cloud, above the .1 address, below the DHCP range and the broadcast address |
| CloudInventory.MarkedIff | backend/app/services/cloud_inventory_service.py:168-192 | For every list, ids repeated or not: the incremental marking marks an id if and only if some record of it is unreadable, or overlaps another record and no readable record between the two has the id of the earlier one |
| CloudInventory.MarkedWhenDistinct | backend/app/services/cloud_inventory_service.py:168-192 | With one record for each cloud id, an owner is marked if and only if its CIDR is unreadable or overlaps some other owner's |
| CloudInventory.HiddenIff | backend/app/services/cloud_inventory_service.py:186-192 | An overlapping owner stays unmarked if and only if no record of its id is unreadable and, for every overlap of every record of its id, a readable record between the two has the id of the earlier one |
| CloudInventory.SameIdHides | backend/app/services/cloud_inventory_service.py:186-192 | A family of lists of three in which that condition holds: the second record of an id hides the first from a third, overlapping owner |
| CloudInventory.MarkCollisions | backend/app/services/cloud_inventory_service.py:168-192 | The nested loops mark exactly what MarkedIff and HiddenIff speak of |
| CloudInventory.CloudRefs | backend/app/services/cloud_inventory_service.py:126-165 | The scan lists every NAT-Cloud record of every lab once and nothing else |
| CloudService.ListColliding | backend/app/services/cloud_inventory_service.py:168-197 | An owner's id is marked if and only if its network overlaps some other owner's |
| CloudService.AnyUnsafe | backend/app/services/network_service.py:231-237 | The check refuses an id if and only if a row with it is a reference or a colliding owner |
| CloudService.CollectOwnerCidrs | backend/app/services/cloud_inventory_service.py:222-238 | Exactly the owners' networks, of all labs |
| CloudService.FindCloudOwner | backend/app/services/cloud_inventory_service.py:241-247 | The owner with the id, or none if and only if there is none |
| CloudService.AnyReference | backend/app/services/cloud_inventory_service.py:250-255 | True if and only if some lab refers to the cloud |
| CloudService.AnyBlocker | backend/app/services/cloud_inventory_service.py:258-284 | True if and only if a lab outside the scope refers to an owner inside it |
| CloudService.NormalizeConfig | backend/app/services/network_service.py:155-220 | The method gives the verdict and configuration NormalizeIff speaks of |
| CloudService.LabFiles.CreateNetwork | backend/app/services/network_service.py:744-960 | The files afterwards are those of one step of ReachableInv's runs; the id is new, and a failed provisioning changes nothing |
| CloudService.LabFiles.DeleteNetwork | backend/app/services/network_service.py:960-1018 | The files afterwards are those of the step DropKeepsInv speaks of; 404 and 409 change nothing |
| CloudService.LabFiles.DeleteLab | backend/app/services/lab_service.py:529-545 | Refused if and only if a lab outside refers to one of its owners; else exactly that lab goes |
| CloudService.LabFiles.IpamTarget | backend/app/services/network_service.py:1083-1106 | The record itself, or the owner its shared id names, or 404 or 409 |
| CloudService.LabFiles.AllocateIp | backend/app/services/network_service.py:1108-1198 | Returns and stores what AllocationIsFresh speaks of; every error leaves all files unchanged |
| CloudService.LabFiles.ReleaseIp | backend/app/services/network_service.py:1200-1280 | True if and only if the address was reserved; the owner's list loses it and nothing else changes |
| Ipam.AllocateOne | backend/app/services/network_service.py:1146-1192 | For any free-list in order: the least address of the window that is not reserved, none if and only if the window is full, and exactly that address is added, the list staying increasing |
| Ipam.ReleaseOne | backend/app/services/network_service.py:1258-1280 | Exactly that address is removed, the list staying increasing |
| Ipam.AllocateThenRelease | backend/app/services/network_service.py:1108-1280 | Releasing what was just allocated restores the record exactly |
| Ipam.SetSorted | backend/app/services/network_service.py:1187-1191 | Sorting the set of entries gives a strictly increasing list of the same addresses, whatever was stored |
| Ipam.CloudWindow | backend/app/services/network_service.py:1162-1170 | A cloud's window is offsets 2 to 99: never the network or broadcast address, the .1 address or the DHCP range |
| Ipam.GatewayIff | backend/app/services/network_service.py:175-183 | The configured gateway's own address can be handed out if and only if its offset is between 2 and 99 |
| Ipam.ChooseAddress | backend/app/services/network_service.py:1146-1178 | The search loop returns the address AllocateOne speaks of |
| LegacyTopology.WriteReadWrite | backend/app/services/lab_service.py:547-585 | For all data, what the writer makes of it is read and written back identically, unless its schema is not the current one |
| LegacyTopology.ReadShows | backend/app/services/lab_service.py:547-559 | Reading a file of the current schema adds the entries of its links, for every interface with one link at most the network it is joined to, and for every network but 0 the number of its ends, and changes nothing else |
| LegacyTopology.WrittenKeys | backend/app/services/lab_service.py:572-585 | The writer fills in schema 2, links, viewport and defaults where they are missing, sets schema_version to 2, strips the derived fields and keeps the rest |
| LegacyTopology.WriterMakesIff | backend/app/services/lab_service.py:561-585 | The writer makes exactly the files with every default key present, the current schema_version and none of the derived fields, and leaves such a file unchanged |
| LegacyTopology.AddedFieldsStay | backend/app/services/lab_service.py:389-429 | Data read from a file with links, its topology, interface networks and counts changed at will, is written back as that same file |
| LegacyTopology.EmptyingLinks | backend/app/services/lab_service.py:572-573 | Emptying the links persists if the topology is dropped; if it is left in, every convertible link is written back |
| LegacyTopology.ThereAndBack | backend/app/services/lab_service.py:316-377 | Links to the older topology and back keep, in order, the two ends and label, color and width of every convertible link, and lose every other |
| LegacyTopology.EndsFromEntries | backend/app/services/lab_service.py:316-377 | Each entry that names a network and a node, or two nodes, becomes exactly one end on that network, and nothing else does |
| LegacyTopology.MadeConvertible | backend/app/services/lab_service.py:316-377 | Whatever the topology, the links made from it go to the older form and back without loss |
| LegacyTopology.LinkOfEntry | backend/app/services/lab_service.py:316-377 | An entry becomes a link if and only if it names two nodes, or a network and a node; the link runs from the first node it names to its network or the other node, has the id the entry gives or else one numbered after its place, and the entry's label, color and width |
| LegacyTopology.NodeIdIs | backend/app/services/lab_service.py:329-336 | A text names a node if and only if it is node and digits that read as its id |
| LegacyTopology.IntTextReads | backend/app/services/lab_service.py:114-122 | An id printed into an entry reads back, sign included |
| LegacyTopology.EntryOfLink | backend/app/services/lab_service.py:103-161 | A link has an entry if and only if it has a node end; the entry names its two ends, a node first, and carries its label, color and width |
| LegacyTopology.MadeFrom | backend/app/services/lab_service.py:316-377 | Every entry that becomes a link becomes exactly one, in the order of the entries |
| LegacyTopology.MadeDistinctIff | backend/app/services/lab_service.py:338 | The links made from a topology have distinct ids if and only if no two of its entries give one id, or one the id that the other's place has |
| LegacyTopology.MadeDistinct | backend/app/services/lab_service.py:338 | They always have when no entry gives an id |
| LegacyTopology.GivenIdClashes | backend/app/services/lab_service.py:338 | Two entries of which the first gives lnk_002 make two links with that id |
| LegacyTopology.WrittenDistinctIff | backend/app/services/lab_service.py:571-573 | The links of a written file have distinct ids if and only if theirs were distinct or, made from the topology, no two entries claim one id |
| LegacyTopology.LosslessIff | backend/app/services/lab_service.py:103-161 | Nothing is lost if and only if every link joins nodes with ids of 0 or more to each other or to a network other than 0 |
| LegacyTopology.InterfaceNetworkIff | backend/app/services/lab_service.py:164-196 | For an interface with one link at most, the derived id names a network if and only if a link joins them |
| LegacyTopology.DerivedCountIff | backend/app/services/lab_service.py:199-216 | The derived count equals the service's count if and only if the id is not 0, or no link end reads as 0 |
| LegacyTopology.DeriveTopology | backend/app/services/lab_service.py:103-161 | The loop yields the topology ThereAndBack speaks of |
| LegacyTopology.TopologyToLinks | backend/app/services/lab_service.py:316-377 | The loop yields the links ThereAndBack, MadeFrom and MadeDistinctIff speak of |
| LegacyTopology.DeriveCounts | backend/app/services/lab_service.py:199-216 | The counting loop stores the number of link ends on each network, 0 for id 0 |
| LegacyTopology.DeriveInterfaces | backend/app/services/lab_service.py:164-196 | The loops store, for each interface, the network of the last link that has one |
| PairedTemplate.AcceptedResolvesIff | backend/app/services/template_service.py:165-229 | Every accepted template resolves at instantiation if and only if every child is a dictionary with readable scalars, every link names its children, and any child without an id that takes over a linked id has the linked interface too; ids may repeat |
| PairedTemplate.AcceptedIff | backend/app/services/template_service.py:165-229 | A template passes the check if and only if every dictionary child that no later one with its id replaces has readable numbers, valid capabilities and a naming block that passes, and every link end names such a child and one of its predicted interfaces |
| PairedTemplate.NamingIff | backend/app/services/template_service.py:805-885 | A naming block passes if and only if it has either a text format with {n}, {slot} or {port} in it, or a list of names, at least one and none blank |
| PairedTemplate.ResolvesIff | backend/app/routers/labs.py:1007-1100 | Instantiation goes through if and only if every child is a dictionary with readable numbers, and every link end names an id under which the last child filed has the interface |
| PairedTemplate.EndResolvesIff | backend/app/routers/labs.py:1082-1100 | A link end known to the check is found at instantiation if and only if whoever takes its id over has the interface |
| PairedTemplate.MadeIs | backend/app/routers/labs.py:1016-1034 | The node filed under an id is the child the check keeps, unless a later child without an id gets the generated id |
| PairedTemplate.AcceptedResolves | backend/app/routers/labs.py:1078-1100 | With distinct non-empty ids on children that are all dictionaries, an accepted template resolves |
| PairedTemplate.ShadowedFails | backend/app/routers/labs.py:1007-1034 | An accepted template that does not resolve: a child without an id takes over another child's id |
| PairedTemplate.PredictionIff | backend/app/services/template_service.py:56-118 | Predicted and built interface names agree if and only if the format is absent or non-blank text, or the explicit list names every position; null, booleans and numbers as formats make them differ |
| PairedTemplate.RenderList | backend/app/services/template_service.py:782-802 | For every format, cut at its commas: blank pieces do not count; of the others, without outer white space, the fixed ones go to one interface each, in order, and the last is filled in with numbers counted from there; without any the name is empty |
| PairedTemplate.FilledMeans | backend/app/services/template_service.py:788-802 | In an item of text and placeholders in any order every {n} and {slot} becomes the number counted from 0, every {port} from 1, and the text between them stays |
| PairedTemplate.DefaultsAreFormats | backend/app/services/template_service.py:48-53 | The names used without a format are those of Gi{port} for qemu and eth{n} otherwise |
| PairedTemplate.DefaultNames | backend/app/services/template_service.py:48-53 | Without a naming block there are as many names as interfaces, none for a number below 1, and they are Gi1, Gi2, ... or eth0, eth1, ... |
| PairedTemplate.KindStable | backend/app/services/template_service.py:34-45 | The kind is always one of the four, normalizing it again changes nothing, and any but qemu is what was written up to case and outer white space |
| PairedTemplate.KindIs | backend/app/services/template_service.py:34-45 | The kind is the one of the four that is written, up to case and outer white space, and qemu when none is |
| PairedTemplate.PredictNames | backend/app/services/template_service.py:56-118 | The loops yield the predicted names PredictionIff speaks of |
| PairedTemplate.BuildNames | backend/app/routers/labs.py:856-881 | The loops yield the built names PredictionIff speaks of |
| PairedTemplate.ResolveIndex | backend/app/routers/labs.py:813-830 | The first interface with the name, none if and only if no interface has it |
| PairedTemplate.Validate | backend/app/services/template_service.py:165-229 | The check's loops accept exactly the templates AcceptedResolves speaks of |
| PairedTemplate.Instantiate | backend/app/routers/labs.py:1007-1100 | The node and link phases find everything exactly for the templates that resolve |
| MacRegistry.RegisteredIff | backend/app/services/mac_registry.py:68-127 | After any run of recomputes an address is registered if and only if the last recompute that claimed it is still the latest of its lab, and then with the owner that recompute gave |
| MacRegistry.EveryEntryJustified | backend/app/services/mac_registry.py:68-127 | Every entry is in the scan of its owner lab's latest data, with the same owner |
| MacRegistry.OwnEntriesAreScan | backend/app/services/mac_registry.py:68-127 | Right after a recompute the lab's own entries are exactly its scan |
| MacRegistry.OthersKept | backend/app/services/mac_registry.py:122-127 | Another lab's entry survives a recompute, changed if and only if the recomputed lab claims the same key |
| MacRegistry.ClaimLost | backend/app/services/mac_registry.py:122-127 | A claim can be missing while its lab still makes it, after another lab took the key and dropped it |
| MacRegistry.ScanIff | backend/app/services/mac_registry.py:80-120 | The scan holds a key if and only if some link claims it, with a claimant of this lab |
| MacRegistry.LastClaimCounts | backend/app/services/mac_registry.py:120-121 | Of several links claiming a key in one lab the last one gives the owner |
| MacRegistry.OneAddressIff | backend/app/services/mac_registry.py:39-40 | Two texts are one address if and only if, outer white space aside, they have one length and agree letter by letter up to case |
| MacRegistry.ClaimIff | backend/app/services/mac_registry.py:80-120 | A link claims an address if and only if it joins an interface of the lab to the network, in either order, and the interface has that planned address, not blank |
| MacRegistry.SpellingsCollide | backend/app/services/mac_registry.py:42-66 | After a lab is recomputed, and until it is again or another lab takes the address, every spelling of an address it plans collides with the interface it is planned for, whoever else asks |
| MacRegistry.SuggestionFreeIff | backend/app/services/mac_registry.py:147-174 | The suggested address collides with nobody if and only if any of the 2^24 is free |
| MacRegistry.TextOfTail | backend/app/services/mac_registry.py:166-173 | Only the last 24 bits of the start matter |
| MacRegistry.TextReads | backend/app/services/mac_registry.py:166-173 | The text is 50:00:00 and three more octets, which read back as the last 24 bits of the number |
| MacRegistry.TextIsNormal | backend/app/services/mac_registry.py:39-40 | A suggested address is in the form that addresses are compared in |
| MacRegistry.TailsDiffer | backend/app/services/mac_registry.py:170-173 | The 2^24 tails print as different addresses |
| MacRegistry.Registry.RecomputeForLab | backend/app/services/mac_registry.py:68-127 | Scan, eviction and update leave the entries that RegisteredIff speaks of |
| MacRegistry.Registry.CheckCollision | backend/app/services/mac_registry.py:42-66 | The answer is the one SpellingsCollide speaks of: the registered owner if and only if there is one and it is not the caller; never for an empty address |
| MacRegistry.Registry.SuggestMac | backend/app/services/mac_registry.py:147-174 | The first address in cyclic order from the start that is not registered on the network, the all-zero tail only when every one is |
| Hypervisor.RequestsInOrder | backend/app/services/runtime/dynamips.py:207-238 | On any concatenation of well-formed replies the i-th request gets the i-th reply's code and lines, and what follows the last is untouched |
| Hypervisor.ParseOfEncode | backend/app/services/runtime/dynamips.py:207-238 | One request takes exactly one reply off the stream, refused or not |
| Hypervisor.ThreeDigits | backend/app/services/runtime/dynamips.py:221-224 | A code below 1000 is printed as three digits and reads back |
| Hypervisor.NoReplyIff | backend/app/services/runtime/dynamips.py:185-238 | On any stream: a reply is garbled if and only if the line after those with a dash is no reply line, which is taken off the stream; it is cut off if and only if the stream ends first, and then every later request is cut off too |
| Hypervisor.FlatUpToEmpty | backend/app/services/runtime/dynamips.py:185-205 | The stream is the chunks in order up to an empty one |
| Hypervisor.Client.ReadLine | backend/app/services/runtime/dynamips.py:185-205 | The line and the remaining stream are those of the whole stream, however it is cut into chunks; a close before a line end loses nothing buffered |
| Hypervisor.Client.Request | backend/app/services/runtime/dynamips.py:207-238 | The outcome and the stream left are those ParseOfEncode speaks of, however the stream is cut |
| HostNames.BridgeNameUnique | backend/app/services/host_net.py:148-159 | A bridge name tells its hash and network id |
| Text.ValueOfHex | backend/app/services/host_net.py:148-159 | A number printed in enough hexadecimal digits reads back |
| HostNames.IfaceNameUnique | backend/app/services/host_net.py:162-198 | A TAP or veth name tells its hash, node, interface and kind |
| HostNames.LastLetterTells | backend/app/services/host_net.py:162-198 | A name ends in h exactly for the host end of a veth pair, in p exactly for its peer, and in a digit exactly for a TAP |
| HostNames.BridgeFitsIff | backend/app/services/host_net.py:148-159 | The asserted length holds if and only if the network id is below 100000 |
| HostNames.IfaceFitsIff | backend/app/services/host_net.py:162-198 | It holds if and only if node and interface have at most five digits together for a TAP, four for a veth end |
| HostNames.DocumentedBound | backend/app/services/host_net.py:162-198 | Up to node 999 and interface 99 it holds for every TAP, and for a veth end if and only if node is at most 99 or interface at most 9 |
| HostNames.IfaceMatchesIff | backend/app/services/host_net.py:714-718 | A made interface name matches the sweep pattern if and only if node is at most 999 and interface at most 99 |
| HostNames.BridgeMatchesIff | backend/app/services/host_net.py:714-718 | A made bridge name matches if and only if the network id is below 100000 |
| HostNames.BridgePatternIff | backend/app/services/host_net.py:716 | A text matches the bridge pattern if and only if it is nove, the print of some hash, n and one to five digits |
| HostNames.IfacePatternIff | backend/app/services/host_net.py:718 | A text matches the interface pattern if and only if it is nve, the print of some hash, d, one to three digits, i, one or two digits, and nothing, h or p |
| HostNames.NeverSwept | backend/app/services/host_net.py:714-718 | The TAP of node 1000 may be made but matches no sweep |
| HostNames.NodeSweepIff | backend/app/services/host_net.py:745-775 | The node sweep takes an interface if and only if it is of that hash and that node, within the pattern |
| HostNames.LabSweepIff | backend/app/services/host_net.py:778-807 | The lab sweep takes an interface if and only if it is of that hash, within the pattern |
| HostNames.OrphanIff | backend/app/services/host_net.py:810-889 | The orphan sweeps take a made object if and only if no known lab has its hash, within the pattern |
| HostNames.PatternsApart | backend/app/services/host_net.py:714-718 | No name is both a bridge's and an interface's |
| HostNames.ReturnedGoneIff | backend/app/services/host_net.py:745-889 | Every name a sweep returns is gone from the host if and only if it is refused the deletion of no listed name that is there and that it takes |
| HostNames.Host.Run | backend/app/services/host_net.py:745-889 | A sweep deletes the listed names it is meant for and touches nothing else; names whose deletion is refused stay, and are returned too |
| WsHub.ReplayExact | backend/app/services/ws_hub.py:83-110 | A client that has seen 1 to n events gets exactly the ones it missed, in order, or is told to start over if and only if one of them was evicted |
| WsHub.ReplayAhead | backend/app/services/ws_hub.py:83-110 | A client that claims more than was published gets nothing and is not told |
| WsHub.ReplayFromNothing | backend/app/services/ws_hub.py:99-101 | A new client is sent the whole history if and only if nothing was evicted, and is never told to start over |
| WsHub.PushKeepsRing | backend/app/services/ws_hub.py:38-51 | Appending to a full or partly full ring leaves exactly the last k events |
| WsHub.RingContiguous | backend/app/services/ws_hub.py:38-51 | The ring has min(n, k) events with consecutive numbers up to n |
| WsHub.Hub.Publish | backend/app/services/ws_hub.py:38-70 | The event gets the next number and joins the history; the ring stays its last k events; dead sockets, and only those, are dropped; other labs are untouched |
| WsHub.Hub.Subscribe | backend/app/services/ws_hub.py:72-75 | Adds one socket to one lab |
| WsHub.Hub.Unsubscribe | backend/app/services/ws_hub.py:77-81 | Removes one socket from one lab |
| WsHub.Hub.ReplaySince | backend/app/services/ws_hub.py:83-110 | The answer ReplayExact, ReplayAhead and ReplayFromNothing speak of, for what was published to the lab |
| WsHub.Hub.HeadSeq | backend/app/services/ws_hub.py:112-117 | The number of events published to the lab |
| TelnetFilter.DataComesOut | backend/app/services/runtime/iol.py:191-225 | From data with IAC doubled and complete commands in between (RFC 854), exactly the data comes out and the filter is in its data state |
| TelnetFilter.DataComesOutOfChunks | backend/app/services/runtime/iol.py:191-225 | The same for every chunking of those bytes |
| TelnetFilter.AnyChunking | backend/app/services/runtime/iol.py:191-225 | Output and state depend on the bytes alone, not on how they are cut, from any state |
| TelnetFilter.ReadyIff | backend/app/services/runtime/iol.py:191-225 | The filter is in its data state if and only if what it was fed is data with complete commands |
| TelnetFilter.Filter.Feed | backend/app/services/runtime/iol.py:191-225 | The loop's output and state are those DataComesOut and AnyChunking speak of |

## Left out

- Entries of lab.json that are not of the expected shape (non-dictionaries, ids that are not numbers, unparsable addresses in `used_ips`): the code skips or rejects them one by one.
- `delete_node`, `PUT /topology` and PATCH of a NAT-Cloud's `config` or `type`: the code does not keep the invariants through them. What a repair after `delete_node` gives back is `RepairSpec.DropThenRepair`.
- Display names of promoted bridges may repeat, because promotion does not check them; uniqueness of names is therefore not stated.
- Host and runtime attachments of the half that a delete cascades to, and an address it records: the reconcile passes take care of the first, nothing of the second.
- The reconcile passes after a create or delete, generation stamps, and how Docker and QEMU attach or detach: an attach is one step that works or fails and cleans up after itself. The detach of a stale attachment works or fails with an error that is logged; any other error there is not modelled. The steps of a rollback (`bridge_del`, `try_link_del`) are taken to succeed; `try_bridge_del` and `try_link_del` only log a failure.
- The rollback of a QEMU interface as it runs inside a booting node; only the rollback of the link service is modelled.
- `RuntimeMutex` waits: a bounded wait is granted or not; its length, the executor hop and the node-scoped lock are not modelled.
- Deadlock with the lab lock: paired creation takes it before the interface locks and the other callers after, so no claim is made across both kinds of lock.
- `DeleteRace`: every link has one node end, as stored links with a runtime attachment have. `Assign` is what `runtime.ip` is for and is not wired yet: nothing in the application calls `_allocate_ip` or writes `runtime.ip` on a link, and the delete path only reads it (link_service.py:1245). What a step that raises leaves behind inside one read, write or detach is not modelled. Without its flag `parallel` the bodies of calls are not interrupted, because `_delete_link_locked` awaits nothing between its second look and its write and the routers call it on one event loop; with it they interleave, as they would if the service were called from several threads.
- `CloudRuns` takes each operation as one step under the host-wide lock; concurrent creates outside it and the cleanup of NAT runtime are not modelled. Name clashes are in `NetworkSpec` only.
- `CloudRuns.ReferenceAcceptedIff` and `CloudService.FindCloudOwner` rest on distinct lab ids, which are UUIDs; a lab file copied by hand could break that.
- RepairSpec.DependsIffRescued: says nothing about files in which, after the networks with too few ends are out, one with too many is still joined to another implicit one, because which of them goes first is then itself a choice; `RepairSpec.DependsIffSpares` covers those.
- NetworkService.CreateNetwork: the checks of a configuration are answers of a parameter, because NAT-Cloud configuration is modelled in `CloudModel` and the host bridge is looked up on the host; an ownership conflict of the bridge counts as failed provisioning.
- NetworkService.PatchNetwork: left, top, icon and the content of `config` are not in the record, because no property here reads them.
- LinkService.LinkService.CreateLinkLocked: generation stamps and the reconcile pass are not in it, because they belong to the runtime service.
- CloudService.LabFiles.CreateNetwork: name clashes are in `NetworkService.CreateNetwork` only, and cleaning the NAT runtime up is left to the host.
- MacRegistry.Registry.SuggestMac: the start is any number, because reading it out of a base address is a library call.
- `LegacyTopology`: link metrics, entry ids that are not text, and the textual order of dictionary keys; node names in the view are copied and not modelled.
- `PairedTemplate`: `interface_naming.format` given as a list or a dictionary, which the check and the payload treat differently; the content of extras and images.
- `Hypervisor` and `Text`: characters are ASCII; Unicode digits, white space and decoding errors are not modelled.
- `HostNames`: the hash is a number below 0x10000; that two labs may share one is outside the model.
- `WsHub`: delivery to sockets and the gap between replaying and subscribing.
- `dedup_links`, the v1 migration and schema fixes: variants of what is here.
- Routing, authentication, database, frontend, privileged helper, subprocesses and sockets: input and output only.
