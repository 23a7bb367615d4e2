# Jerboa, verified

A Dafny model of the algorithms and protocols inside Jerboa, a unikernel engine written in Go,
with proofs of what they promise. `dafny verify dfyconfig.toml` checks everything.

| area | files | source |
|---|---|---|
| gossip membership | `Membership`, `ClusterNode`, `ClusterRuns` | internal/cluster/cluster.go |
| subnets and addresses | `Ipv4`, `NextIp`, `AddressText`, `AddressPool`, `NetworkStore` (with `Bytes`, `Decimals`) | internal/network/store.go |
| VM.Run and its rollback | `RunServer` | internal/apiserver/server.go |
| compose start order | `StartOrder`, `ComposeSort` (with `StringOrder`, `StringSeqs`) | internal/compose/graph.go |
| image manifests | `TupleText`, `ManifestTree`, `ManifestText`, `ManifestNodes`, `ManifestExact`, `ManifestEntries`, `ManifestBuild` | internal/image/builder.go |
| container paths and library closures | `GuestPaths`, `LinkResolve`, `LibraryClosure`, `Preflight` (with `Trails`) | internal/package/fromdocker.go, internal/preflight/preflight.go |
| framed streams | `Framing` | internal/api/framing.go, internal/apiserver/imagebuild.go |
| port forwarder | `Forwarder` | internal/network/forwarder.go |
| link copies and images | `LinkCopies`, `ImageStore` | internal/package/ops_store.go, internal/image/store.go |

State that the program changes in place is a class here (member cells shared between a node and
its table, the network and image stores, the server, the frame reader and writer, the tree
walker, the manifest nodes). Its methods are proved against functions on values, and the laws of
those functions are proved beside them. The gossip cluster and the port forwarder are step
systems, and their laws hold of every run under every interleaving.

Some promises hold only under a condition. The program is modelled as it is, and the condition is
proved to be exact:

- A /0 network hands out its own network address and its gateway once the index passes 2^32, and
  its addresses do not always increase; every longer prefix never does
  (`AddressPool.WrapsExactlyOnZero`). The address search ends except on a /0 network with every
  address held (`AddressPool.SearchEnds`), which a run can reach (`AddressPool.ZeroPrefixFills`).
- Allocation fails exactly when the next index has left the subnet (`AddressPool.FailsExactly`):
  released addresses below it are not found again.
- VM.Run gives an address back on failure unless the client spelled it with a colon, since releasing
  compares text (`RunServer.Server.HandleRun`, `AddressText.PrintedExactly`, with a call that leaks in
  `RunServer.LeakingRun`).
- Chunks come back from the framed stream exactly up to 64 MiB (`Framing.ChunkFitsExactly`), and
  reads deliver nothing but payload exactly for the buffer lengths in `Framing.SafeExactly`.
- A manifest can be built exactly when no entry lies below a file placed before it
  (`ManifestEntries.BuiltFailsExactly`), and it says what was meant exactly when no host path left
  in the tree has a quote or a backslash, no argument, variable or value is empty, and the size is
  one word (`ManifestExact.ManifestReadsExactly`, `ManifestEntries.PrintableExactly`), because host
  paths and the size are printed raw and empty words are printed as nothing.
- Distinct links that name no file give the same copies in every order exactly when no two names
  that could become files lie one above the other (`LinkCopies.OrderFreeExactly`, with two orders
  that differ in `LinkCopies.OrderMatters`).
- A link in a container leads where path.Join puts its target, unless the target is relative and climbs
  out of the directory of the link, such as ../lib/x: then the upward steps are lost and the walk goes on
  inside that directory (`LinkResolve.TargetExactly`, `LinkResolve.ClimbIsLost`).
- Closing the port forwarder needs nothing from the network except where the guest neither reads nor
  sends on a connection, because Close closes clients and not backends. Where the program is stuck
  is exact (`Forwarder.StuckExactly`), and so is which calls can get there
  (`Forwarder.CloseHangsExactly`, with a run that does in `Forwarder.BlockedRun`).
- After a gossip exchange two nodes agree on a third member exactly when the one that asked has not
  meanwhile learnt of a higher class (`Membership.ExchangeAgreesExactly`).

## Model

| member | source | states |
|---|---|---|
| `Membership.MergeIsJoin` | internal/cluster/cluster.go:403-446 | After merging any batch, the status class of each non-local member is the least upper bound, under absent < suspect < alive < {dead, left}, of its old class and the classes of all valid entries for it |
| `Membership.MergeIsPointwise` | internal/cluster/cluster.go:403-446 | A merge of whole tables acts on each member separately, through the entries that name it |
| `Membership.MergeOrderFree` | internal/cluster/cluster.go:403-446 | The resulting class does not depend on the order or repetition of entries |
| `Membership.MergeAppend` | internal/cluster/cluster.go:403-446 | Merging two batches one after the other is merging their concatenation |
| `Membership.MergesCommute` | internal/cluster/cluster.go:403-446 | Two batches give the same classes in either order |
| `Membership.LastTerminalWins` | internal/cluster/cluster.go:403-446 | If any valid entry says dead or left, the member ends with exactly the last such status |
| `Membership.MergeIdempotent` | internal/cluster/cluster.go:403-446 | Merging the same batch twice gives the same table, every field included, as merging it once |
| `Membership.LastSeenNeverDecreases` | internal/cluster/cluster.go:403-446 | No merge drops a member or moves its last-seen time back |
| `Membership.FoldTimes` | internal/cluster/cluster.go:437-441 | The last-seen time ends at or after the old one and the time of every valid live entry |
| `Membership.MergeNewest` | internal/cluster/cluster.go:403-446 | After a merge a member has the address and load it had, or those some valid entry tells, with the time that goes with them; no live entry is newer, and at an unchanged time nothing changes |
| `Membership.SweepSays` | internal/cluster/cluster.go:373-390 | A sweep makes every other member that is not dead or left and silent beyond the dead timeout dead, every alive one silent beyond the suspect timeout suspect, and changes nothing else |
| `Membership.HearingSays` | internal/cluster/cluster.go:280-286 | Hearing from a member sets its time, in a gossip clears a suspicion of it, and touches no one else |
| `Membership.LocalSays` | internal/cluster/cluster.go:225-401 | A failed gossip suspects the other alive members at the address; leaving and updating set the named fields of the local member; each touches nothing else |
| `Membership.EntryCarries` | internal/cluster/cluster.go:448-462 | A listed member arrives elsewhere field by field, its time cut to whole seconds |
| `Membership.HostPortExactly` | internal/cluster/cluster.go:50-62 | A text reads as host and port exactly when it is host:port without further colons or brackets, or [host]:port; a valid address has neither empty |
| `Membership.MergeKeepsForm` | internal/cluster/cluster.go:403-416 | A merge never touches the entry of the local node, and every record stays filed under its own ID |
| `Membership.MergeListing` | internal/cluster/cluster.go:403-446 | Merging a full table listing leaves every third member with the status computed from just the two old statuses |
| `Membership.ExchangeAgreesExactly` | internal/cluster/cluster.go:307-358 | After push, merge, full reply and merge into whatever table the asking node has by then, both hold the same status for a third member exactly when its class there is not above the one the reply tells |
| `Membership.ExchangeAgrees` | internal/cluster/cluster.go:307-358 | So if nothing happens to the asking node in between, they agree on every third member, whatever they held before |
| `ClusterNode.Member.constructor` | internal/cluster/cluster.go:28-36 | A new member cell holds exactly the given record |
| `ClusterNode.SwimCluster.constructor` | internal/cluster/cluster.go:141-163 | A new node knows only itself, alive, with the 15 s and 30 s timeouts |
| `ClusterNode.SwimCluster.MergeEntries` | internal/cluster/cluster.go:403-446 | The loop over shared member cells computes the table merge; the local cell stays the one filed under its ID |
| `ClusterNode.SwimCluster.MergeOne` | internal/cluster/cluster.go:405-445 | One entry: skipped, added as a new cell, or merged into the one cell it names |
| `ClusterNode.SwimCluster.MergeInto` | internal/cluster/cluster.go:432-444 | Updating one existing cell in place is the record merge |
| `ClusterNode.SwimCluster.ToEntries` | internal/cluster/cluster.go:448-462 | In whatever map order, the listing holds one entry for each member and nothing else |
| `ClusterNode.SwimCluster.HandleGossip` | internal/cluster/cluster.go:274-292 | Merge, then hear from the sender; the reply lists the resulting table |
| `ClusterNode.SwimCluster.HearFrom` | internal/cluster/cluster.go:280-286 | The sender is seen now, and a suspicion of it is cleared; no other cell changes |
| `ClusterNode.SwimCluster.FinishGossip` | internal/cluster/cluster.go:347-357 | The reply is merged and the replier is seen now |
| `ClusterNode.SwimCluster.CheckSuspicions` | internal/cluster/cluster.go:373-390 | Every non-local cell, in any map order, takes the timeout steps alive to suspect to dead; no other cell changes |
| `ClusterNode.SwimCluster.SweepMember` | internal/cluster/cluster.go:381-388 | The two timeout steps on one cell, in order |
| `ClusterNode.SwimCluster.MarkSuspect` | internal/cluster/cluster.go:392-401 | Exactly the non-local alive members at the address become suspect |
| `ClusterNode.SwimCluster.Leave` | internal/cluster/cluster.go:225-235 | The local member, through both of its references, becomes left; nothing else changes |
| `ClusterNode.SwimCluster.UpdateLocal` | internal/cluster/cluster.go:259-272 | Only the local record changes, to the given load and time |
| `ClusterRuns.MergeOrigin` | internal/cluster/cluster.go:403-446 | A status that a merge changes is one that some entry of the batch carries, and never the local one |
| `ClusterRuns.StepOrigin` | internal/cluster/cluster.go:373-446 | A node newly holds dead or left only by hearing it, by leaving itself, or by its own sweep past the timeout |
| `ClusterRuns.StepKeeps` | internal/cluster/cluster.go:225-446 | No event drops an ID, revives a dead or left member, or changes the local status except Leave |
| `ClusterRuns.RunIsSound` | internal/cluster/cluster.go:141-446 | In every run with delayed, repeated, reordered or lost payloads, every table stays well formed |
| `ClusterRuns.ClaimOrigin` | internal/cluster/cluster.go:225-446 | A claim of dead or left that is new anywhere, in a table or in flight, comes from a sweep or from that member leaving |
| `ClusterRuns.LeftOnlyByLeaving` | internal/cluster/cluster.go:225-235 | In every run, left is claimed of X, in any table or payload, only after X called Leave |
| `ClusterRuns.DeadOnlyByTimeout` | internal/cluster/cluster.go:373-390 | In every run, dead is claimed of X only after some sweep found X silent beyond the dead timeout |
| `ClusterRuns.TimeoutKills` | internal/cluster/cluster.go:373-390 | And a sweep that finds X silent that long does declare X dead |
| `ClusterRuns.HearingTells` | internal/cluster/cluster.go:274-357 | Hearing a payload is merging it; a gossip and a reply note when the other node was seen, and only the gossip clears a suspicion of it |
| `ClusterRuns.FailureSuspects` | internal/cluster/cluster.go:392-401 | A gossip that fails makes exactly the other alive members at the address suspect |
| `ClusterRuns.SentStays` | internal/cluster/cluster.go:274-357 | A payload once sent can be heard ever after |
| `ClusterRuns.TerminalSpreads` | internal/cluster/cluster.go:274-446 | In every run dead or left reaches each node that hears a gossip from one that holds it, however late, and stays there |
| `ClusterRuns.TerminalIsForever` | internal/cluster/cluster.go:403-446 | In every run no table drops a member, and a member once dead or left there stays so |
| `ClusterRuns.LeaversKnowIt` | internal/cluster/cluster.go:225-235 | Whenever left is claimed of X anywhere, X holds left of itself |
| `Ipv4.MaskedIs` | internal/network/store.go:455-457 | A byte under a CIDR mask is the byte rounded down to its unit |
| `Ipv4.AgreeIsDivision` | internal/network/store.go:455-457 | Two addresses agree under a mask exactly when their numbers share the leading bits |
| `Ipv4.AlignedIsMultiple` | internal/network/store.go:516-528 | A masked address is a multiple of its block size |
| `Ipv4.ContainsIsRange` | internal/network/store.go:455-457 | A subnet contains exactly the numbers from its address up to its size |
| `Ipv4.OverlapIsSharing` | internal/network/store.go:455-457 | subnetsOverlap is true exactly when some address lies in both |
| `NextIp.Next` | internal/network/store.go:555-566 | The byte loop gives the carry-free sum, or nothing when it lies outside the subnet |
| `NextIp.AddExact` | internal/network/store.go:555-566 | For byte strings of any length, the carry-free sum stays under an aligned prefix exactly for indexes below the block size, and there it is exact |
| `NextIp.NextIsExact` | internal/network/store.go:555-566 | For every aligned prefix and index below 2^32, the sum is in the subnet exactly when index < 2^(32-prefix), and then it is base + index |
| `NextIp.NextIsInjective` | internal/network/store.go:555-566 | Two indexes below 2^32 that give the same address are the same |
| `NextIp.OffsetOf` | internal/network/store.go:555-566 | Every address of the subnet is the one nextIP gives for its offset |
| `NextIp.AddWraps` | internal/network/store.go:555-566 | Indexes that differ by 2^32 give the same bytes |
| `NextIp.NetworkOrBroadcast` | internal/network/store.go:276-290 | True exactly for the first and the last address of the block |
| `NextIp.BroadcastIsLast` | internal/network/store.go:282-289 | base OR the inverted mask is the last address of the block, for byte strings of any length |
| `AddressText.PrintReads` | internal/network/store.go:234-253 | Every address reads back from the dotted quad it prints as |
| `AddressText.PrintIsInjective` | internal/network/store.go:253-258 | So comparing printed texts is comparing addresses |
| `AddressText.QuadExactly` | internal/network/store.go:234-253 | A dotted quad reads as an address exactly when it is what the address prints as, so leading zeros and other spellings are refused |
| `AddressText.PrintedExactly` | internal/network/store.go:234-258 | A text that reads as an address is the printed one exactly when it has no colon |
| `AddressText.MappedReads` | internal/network/store.go:234-253 | Every address also reads back from its IPv4-mapped IPv6 spelling, which is not what it prints as; without the ffff that is no address |
| `AddressText.HexMappedReads` | internal/network/store.go:234-237 | And from the spelling with two hexadecimal groups at the end |
| `AddressPool.SearchEnds` | internal/network/store.go:320-331 | The search loop ends exactly when the prefix is at least /1 or some address is free |
| `AddressPool.StopIsInRange` | internal/network/store.go:320-331 | On /1 to /32 the search stops within the subnet or just past it, and past it exactly when it fails |
| `AddressPool.WithoutKeeps` | internal/network/store.go:363-370 | Releasing removes exactly the one text from a list without duplicates, and nothing when the text is not in it |
| `AddressPool.StepKeepsSound` | internal/network/store.go:226-379 | Every allocate, reserve and release keeps the pool sound and never moves the next index back |
| `AddressPool.RunIsSound` | internal/network/store.go:226-379 | Over any run of any network the list has no duplicates and holds printed texts only; on /1 to /32 the next index stays in range, and the last address is held only once no index is left |
| `AddressPool.NextGrows` | internal/network/store.go:292-344 | The next index never decreases over a run of any network |
| `AddressPool.DynamicIsFree` | internal/network/store.go:292-344 | Every address handed out dynamically, in any run of any network, lies in the subnet and was free |
| `AddressPool.DynamicIsUsable` | internal/network/store.go:292-344 | On /1 to /32 it is base plus index and neither the network address nor the gateway, whatever was released before |
| `AddressPool.GatewayIndex` | internal/network/store.go:516-528 | No index from 2 up gives the gateway, also where the gateway lies outside the subnet |
| `AddressPool.DynamicIncreases` | internal/network/store.go:292-344 | On /1 to /32 dynamic addresses strictly increase over a run, so none is handed out twice even after release |
| `AddressPool.FailsExactly` | internal/network/store.go:320-335 | At every point of every run, allocation fails exactly when the prefix is at least /1 and the next index has reached the size of the subnet |
| `AddressPool.FailsAt` | internal/network/store.go:320-335 | The same for every sound pool |
| `AddressPool.AllocationSays` | internal/network/store.go:292-344 | An allocation succeeds exactly when the next index is inside the subnet, with the first address from there on that is not held |
| `AddressPool.ReserveExactly` | internal/network/store.go:226-270 | A reservation is refused exactly for text that is no address, a number outside the subnet, the first or last number of it, or an address held; each has its own answer |
| `AddressPool.ZeroPrefixWraps` | internal/network/store.go:292-344 | A run of a /0 network hands out the address numbered 2, then its network address, then its gateway |
| `AddressPool.WrapsExactlyOnZero` | internal/network/store.go:292-344 | Some run hands out the network address, some run hands out the gateway, and addresses do not always increase: each exactly on /0 |
| `AddressPool.ZeroPrefixFills` | internal/network/store.go:320-331 | A run of a /0 network reaches a pool with every address held, whose search never ends |
| `NetworkStore.BridgeName` | internal/network/store.go:41-48 | A bridge name is the prefix and the network name if that fits 15 characters, else the prefix and the first digits of the digest |
| `NetworkStore.NameIsComponent` | internal/naming/naming.go:50-75 | A valid name is one path component, so the directory of a network lies directly in that of the store |
| `NetworkStore.MaskIsValid` | internal/network/store.go:516-528 | A parsed CIDR becomes an aligned subnet that contains the given address |
| `NetworkStore.CandidateIsValid` | internal/network/store.go:530-553 | Each of the 256 candidate subnets is aligned |
| `NetworkStore.BlockedOrApart` | internal/network/store.go:455-468 | A subnet overlaps no network exactly when it shares no address with any |
| `NetworkStore.OverlappingSubnet` | internal/network/store.go:461-468 | Names a network that overlaps, and none exactly when none does |
| `NetworkStore.AllocateSubnet` | internal/network/store.go:530-553 | Gives the first /24 of 10.100.0.0/16 apart from all networks, and fails only when all 256 overlap one |
| `NetworkStore.PoolChangeIsGood` | internal/network/store.go:226-379 | Changing one address list keeps all subnets disjoint and all bridges distinct |
| `NetworkStore.AdditionIsGood` | internal/network/store.go:77-157 | Adding a network apart from the rest, with an unused bridge, keeps them so |
| `NetworkStore.Store.constructor` | internal/network/store.go:70-75 | A new store holds no network |
| `NetworkStore.Store.BridgeHolder` | internal/network/store.go:470-488 | Finds another network with the bridge, and none exactly when none has it |
| `NetworkStore.Store.ChooseSubnet` | internal/network/store.go:107-124 | The chosen subnet is aligned and apart from all others; each error has its exact condition |
| `NetworkStore.Store.Create` | internal/network/store.go:77-157 | Adds one fresh network and nothing else, with the given subnet or the first free /24, or changes nothing; each of the six failures has its exact condition; subnets stay disjoint, bridges distinct and address lists sound |
| `NetworkStore.Store.Remove` | internal/network/store.go:187-219 | Removes exactly the named network |
| `NetworkStore.Store.ReserveIP` | internal/network/store.go:226-272 | Stores what the parsed address prints as, or changes nothing and gives the first failing check |
| `NetworkStore.Store.Failure` | internal/network/store.go:234-261 | The checks, in order: parses, in the subnet, not network or broadcast, not allocated |
| `NetworkStore.Store.AllocateIP` | internal/network/store.go:292-344 | Hands out the first free address from the next index and advances past it; fails, and changes nothing, exactly when the next index has left the subnet |
| `NetworkStore.Store.Search` | internal/network/store.go:320-331 | Stops at the first index from the next one on that is free or outside the subnet |
| `NetworkStore.Store.ReleaseIP` | internal/network/store.go:346-379 | Removes the text if it is in the list, without parsing it; otherwise nothing changes |
| `NetworkStore.Store.RemoveFirst` | internal/network/store.go:363-370 | Removes the first occurrence |
| `RunServer.Server.constructor` | internal/apiserver/server.go:121-128 | A new server has no VM |
| `RunServer.Server.CreateUnique` | internal/apiserver/server.go:82-94 | Registers the VM unless its non-empty name is in use or creation fails |
| `RunServer.Server.HandleRun` | internal/apiserver/server.go:365-531 | Each of the eight failures and success has its exact condition; a registered VM has what was asked for, on a managed network with the asked or else the first free address, which the network gains; no two VMs of a network share one; a call that registers none leaves the allocated addresses as it found them exactly unless it reserved one in a spelling with a colon, and then that one stays allocated |
| `RunServer.Server.Assign` | internal/apiserver/server.go:397-432 | Allocates or reserves on a known network, passes an explicit address through on an unknown one; each failure has its exact condition and changes nothing |
| `RunServer.Server.Allocate` | internal/apiserver/server.go:410-416 | The daemon gains the first free address, or none exactly when the next index has left the subnet |
| `RunServer.Server.ReserveText` | internal/apiserver/server.go:417-421 | The daemon gains exactly the address it asked for, or learns why not |
| `RunServer.Server.Register` | internal/apiserver/server.go:500-523 | Create, start and roll back: a VM stays exactly on success or failed cleanup |
| `RunServer.Server.Rollback` | internal/apiserver/server.go:504-508 | Releasing restores the addresses exactly when the text is what its address prints as, and otherwise changes nothing |
| `RunServer.Server.Undo` | internal/apiserver/server.go:511-521 | Roll back after a failed start, under the same condition |
| `RunServer.Server.HandleRemove` | internal/apiserver/server.go:687-696 | Removing a VM leaves the other VMs their addresses |
| `RunServer.Server.HandleNetworkCreate` | internal/apiserver/server.go:1015-1025 | Adding a network keeps every VM its address |
| `RunServer.Server.HandleAllocateIP` | internal/apiserver/server.go:1079-1091 | An address allocated by hand is the first free one and held by no VM |
| `RunServer.StillOwned` | internal/apiserver/server.go:397-432 | A growing address list keeps every VM its own address |
| `RunServer.NowOwned` | internal/apiserver/server.go:500-523 | A VM registered with a just-reserved address shares it with none |
| `AddressPool.LastOut` | internal/network/store.go:363-370 | Releasing the text added last restores the list, order included |
| `RunServer.ReleaseUndoes` | internal/apiserver/server.go:504-508 | Releasing what was reserved undoes the reservation exactly when the text is the printed one |
| `RunServer.LeakingRun` | internal/apiserver/server.go:417-511 | A call with ::ffff:10.0.0.5 on a /24, whose creation fails, leaves 10.0.0.5 allocated and no VM |
| `StartOrder.CompleteGreedyStarts` | internal/compose/graph.go:10-52 | An order that always takes the least ready service and takes all is a start order |
| `StartOrder.GreedyTakesServices` | internal/compose/graph.go:32-50 | Such an order repeats nothing and is complete exactly when it is as long as the service map |
| `StartOrder.GreedyIsLeast` | internal/compose/graph.go:10-52 | It is lexicographically least among all start orders |
| `StartOrder.LexAntisymmetric` | internal/compose/graph.go:10-52 | So there is only one such order |
| `StringOrder.LessExactly` | internal/compose/graph.go:24-50 | The order of names is that of dictionaries: the smaller character at the first difference, and a text before its extensions |
| `StartOrder.CycleMeansNone` | internal/compose/graph.go:48-50 | With a cycle there is no start order |
| `StartOrder.StartsOnlyIfAcyclic` | internal/compose/graph.go:10-52 | A start order exists only if all dependencies are services and there is no cycle |
| `StartOrder.StuckHasCycle` | internal/compose/graph.go:48-50 | If nothing is ready before all services are taken, the graph has a cycle |
| `StartOrder.StuckIsAnswer` | internal/compose/graph.go:10-52 | The length test at the end gives the right answer |
| `StartOrder.SameStartOrders` | internal/compose/graph.go:10-52 | Start orders do not depend on repeated or reordered depends_on entries |
| `StartOrder.AnswerIsUnique` | internal/compose/graph.go:10-52 | Neither does the answer, nor on map order: two right answers for the same dependencies are equal |
| `ComposeSort.BuildGraph` | internal/compose/graph.go:11-22 | In any map order, each counter is the number of depends_on entries and dependents lists each entry once |
| `ComposeSort.AddService` | internal/compose/graph.go:17-22 | The same, one service at a time |
| `ComposeSort.Roots` | internal/compose/graph.go:24-30 | The first queue is the services without dependencies, least first |
| `ComposeSort.Tell` | internal/compose/graph.go:37-44 | Counting down the dependents of a taken service makes the queue exactly the services now ready |
| `ComposeSort.GreedyIsClosed` | internal/compose/graph.go:32-47 | A taken service has no dependency left to count |
| `ComposeSort.TakeNext` | internal/compose/graph.go:32-36 | Taking the least ready service keeps the order greedy |
| `ComposeSort.TopologicalSort` | internal/compose/graph.go:10-52 | Succeeds exactly when all dependencies are services and the graph is acyclic, and then returns the least start order |
| `TupleText.Quote` | internal/image/builder.go:422-431 | The quoting loop writes the escaped text in quotes |
| `TupleText.WriteName` | internal/image/builder.go:418-432 | A name is written as its quoting rule says |
| `TupleText.WriteValue` | internal/image/builder.go:441-455 | A value is written as its quoting rule says |
| `TupleText.UnquoteEscaped` | internal/image/builder.go:422-431 | Reading an escaped string to its closing quote gives the string back |
| `TupleText.NameReads` | internal/image/builder.go:412-432 | Any non-empty name, quoted or not, reads back before a terminator |
| `TupleText.ValueReads` | internal/image/builder.go:434-455 | Any non-empty value, quoted or not, reads back before a terminator |
| `ManifestTree.InsertFailsUnderFile` | internal/image/builder.go:377-405 | An insert hits a nil child map exactly when a proper prefix of its path is a file |
| `ManifestTree.InsertedFileExactly` | internal/image/builder.go:377-391 | The files after an insert, exactly: the new one at its path, none below it, and elsewhere the files there were |
| `ManifestTree.InsertedDirKeepsFiles` | internal/image/builder.go:393-405 | An inserted directory path exists, and the files are exactly those there were |
| `ManifestNodes.ManifestNode.Insert` | internal/image/builder.go:377-391 | On linked nodes changed in place: the file insert on tree values, failing exactly where that fails |
| `ManifestNodes.ManifestNode.MakeDir` | internal/image/builder.go:393-405 | The same for directories |
| `ManifestNodes.ManifestNode.EnsureChild` | internal/image/builder.go:385-388 | An absent child becomes an empty directory, a present one stays |
| `ManifestNodes.ManifestNode.InsertBelow` | internal/image/builder.go:385-389 | Going on below a child changes that child as the insert on tree values does, and nothing else |
| `ManifestNodes.ManifestNode.MakeDirBelow` | internal/image/builder.go:399-404 | The same for directories |
| `ManifestNodes.ManifestNode.Attach` | internal/image/builder.go:383-386 | Hanging a separate tree under a name changes that child only |
| `ManifestNodes.ManifestNode.WriteChildren` | internal/image/builder.go:460-491 | The printer appends exactly the text of the tree the nodes stand for |
| `ManifestNodes.ManifestNode.WriteKeys` | internal/image/builder.go:467-490 | One entry per key, in the given order |
| `ManifestNodes.ManifestNode.WriteEntry` | internal/image/builder.go:468-489 | One entry: indent, name, colon, node |
| `ManifestNodes.ManifestNode.WriteNode` | internal/image/builder.go:472-489 | A file as its host tuple, a directory as a nested children scope |
| `ManifestNodes.SortKeys` | internal/image/builder.go:461-465 | Keys collected in any map order and sorted are the same list |
| `ManifestText.SortGivesKeys` | internal/image/builder.go:461-465 | Sorting any listing of a set gives the one sorted listing |
| `ManifestText.SortedListingIsUnique` | internal/image/builder.go:465-465 | Two sorted listings of a set are equal |
| `ManifestText.NodeTail` | internal/image/builder.go:460-491 | What follows a node in the text is appended unchanged |
| `ManifestText.NodeReads` | internal/image/builder.go:460-491 | The text of a node reads as its tuple and leaves what follows |
| `ManifestText.NodeComesBack` | internal/image/builder.go:460-491 | The tuple of a node determines the node |
| `ManifestText.NodeRoundTrip` | internal/image/builder.go:460-491 | Printing any printable node and reading it gives the node back |
| `ManifestText.ManifestReads` | internal/image/builder.go:296-338 | The whole manifest reads as the tuple of tree, program, arguments, environment and size |
| `ManifestText.PairsTell` | internal/image/builder.go:296-329 | That tuple tells the program, the program and the arguments under their numbers, each variable with its value in ascending order, and the size if there is one |
| `ManifestText.TreeComesBack` | internal/image/builder.go:256-338 | A printable tree comes back from the manifest text, whatever its names |
| `ManifestText.VolumeRoundTrip` | internal/image/builder.go:345-365 | The same for a volume manifest |
| `ManifestExact.RawWordIsClean` | internal/image/builder.go:475-479 | Whatever follows it, raw text that reads as itself has no quote and no backslash |
| `ManifestExact.NodeReadsExactly` | internal/image/builder.go:460-491 | A node reads as its tuple exactly when no host path below it has a quote or a backslash |
| `ManifestExact.SectionsWrong` | internal/image/builder.go:299-329 | An empty argument, variable or value, or a size that is not one word, is never read back as it was meant |
| `ManifestExact.WordWrong` | internal/image/builder.go:327-329 | A size with a terminal in it or a quote in front is read as something else |
| `ManifestExact.ManifestReadsExactly` | internal/image/builder.go:296-338 | The manifest says what the configuration says exactly when the host paths are clean, nothing in the settings is empty and the size is one word |
| `ManifestExact.VolumeReadsExactly` | internal/image/builder.go:345-365 | The same for a volume manifest |
| `ManifestExact.BuiltIsNamed` | internal/image/builder.go:278-294 | No tree built from package entries has an empty name or host path |
| `ManifestEntries.FilesExactly` | internal/image/builder.go:278-294 | The files of a built tree are exactly the file entries that no later file entry covers, with their host paths |
| `ManifestEntries.FilesArrive` | internal/image/builder.go:278-294 | So every such entry is at its path in the tree |
| `ManifestEntries.BuiltFailsExactly` | internal/image/builder.go:278-294 | Building fails exactly when some entry lies below a file that an earlier entry placed |
| `ManifestEntries.LastCover` | internal/image/builder.go:377-391 | Of the file entries at or above a path, the last one survives |
| `ManifestEntries.PrintableIsClean` | internal/image/builder.go:475-479 | A tree can be printed exactly when no file in it has a quote or a backslash in its host path |
| `ManifestEntries.PrintableExactly` | internal/image/builder.go:278-294 | A built tree can be printed exactly when the host paths of the surviving entries are clean |
| `ManifestEntries.BelowAFile` | internal/image/builder.go:377-391 | A file at a followed by one at a/b cannot be placed |
| `ManifestEntries.AboveAFile` | internal/image/builder.go:377-391 | A file at a/b followed by one at a is dropped without an error |
| `ManifestBuild.BuildTree` | internal/image/builder.go:275-294 | The loop over package entries builds the tree of the entries, and fails exactly when some entry lies below a file placed before it |
| `ManifestBuild.WriteArguments` | internal/image/builder.go:299-310 | Arguments are written with numbers from 0, or not at all when there are none |
| `ManifestBuild.WriteEnvironment` | internal/image/builder.go:311-325 | The environment is written sorted by key |
| `ManifestBuild.WriteProgram` | internal/image/builder.go:296-299 | The text up to the program line is a prefix of the manifest, whatever sections follow |
| `ManifestBuild.WriteManifest` | internal/image/builder.go:296-338 | The text appended piece by piece is the manifest text |
| `ManifestBuild.ProgramHasPath` | internal/image/builder.go:262-275 | The program path is never empty, and the reference with a leading slash names the same place |
| `ManifestBuild.FieldsOfNames` | internal/image/builder.go:377-391 | Names joined by slashes are the components of the path, with or without a leading slash |
| `ManifestBuild.ProgramIs` | internal/image/builder.go:262-275 | The program is at the cleaned program path, or at program when that is the root |
| `ManifestBuild.ProgramArrives` | internal/image/builder.go:291-294 | The program the manifest names is a file of the tree it carries, with the host path of the binary |
| `ManifestBuild.AllArrive` | internal/image/builder.go:278-294 | The built tree carries every surviving file |
| `ManifestBuild.BuildManifest` | internal/image/builder.go:256-338 | There is a text exactly when no entry lies below an earlier file; it says the configuration exactly when the surviving host paths are clean, no argument, variable or value is empty and the size is one word; then it tells the program as the cleaned program path or /program, the arguments, the variables and the size, and the tree read from it has every surviving file and the binary at the program path |
| `ManifestBuild.BuildVolumeManifest` | internal/image/builder.go:345-365 | The same for a volume, which names no program |
| `GuestPaths.SplitAbsNames` | internal/package/fromdocker.go:259-266 | A cleaned path splits into names that are neither empty, . nor .. |
| `GuestPaths.SplitRooted` | internal/package/fromdocker.go:259-266 | Joining names under the root and splitting gives the names back |
| `GuestPaths.SplitAbsStep` | internal/package/fromdocker.go:259-266 | After a path, a name goes down, nothing or a dot stays, and two dots go up, at the root nowhere; a leading slash changes nothing |
| `GuestPaths.BaseIs` | internal/preflight/preflight.go:75-108 | The base name is the last component, also before trailing slashes |
| `LinkResolve.Resolve` | internal/package/fromdocker.go:193-257 | The loop over work, out and hops ends on every index, link cycles included, with the result of the walk |
| `LinkResolve.WalkEndsReal` | internal/package/fromdocker.go:193-257 | From any sound position, a successful walk ends at a regular file with no link among its prefixes |
| `LinkResolve.ResolveEndsReal` | internal/package/fromdocker.go:193-257 | A resolved path is a regular file and no prefix of it is a link |
| `LinkResolve.RealResolves` | internal/package/fromdocker.go:193-257 | Every such path resolves to itself |
| `LinkResolve.ResolveIsIdempotent` | internal/package/fromdocker.go:193-257 | Resolving a result again returns it |
| `LinkResolve.CircleIsEndless` | internal/package/fromdocker.go:193-257 | From any link of such a circle, and with anything still to come, the walk runs into the hop bound |
| `LinkResolve.LoopIsRefused` | internal/package/fromdocker.go:221-226 | Any path through a link of a circle of links, of whatever length, is refused for too many hops |
| `LinkResolve.BoundOnlyRefuses` | internal/package/fromdocker.go:221-226 | The hop bound changes no answer other than refusing: with more hops allowed the result is the same |
| `LinkResolve.LinkLeads` | internal/package/fromdocker.go:222-237 | A link is followed to its target, relative ones in the directory of the link and absolute ones from the root, with the rest of the path after it |
| `LinkResolve.ChainResolves` | internal/package/fromdocker.go:222-237 | A chain of links to a file is followed exactly up to 40 of them |
| `LinkResolve.TargetExactly` | internal/package/fromdocker.go:228-232 | The walk goes on where path.Join of directory and target leads exactly unless a relative target climbs out of the directory of its link |
| `LinkResolve.ClimbIsLost` | internal/package/fromdocker.go:228-232 | A link to ../t is followed to t beside the link |
| `LinkResolve.RefusedExactly` | internal/package/fromdocker.go:207-256 | Without a link on the way, a missing file is not found, a directory is no file, and nothing lies below a file |
| `LibraryClosure.Add` | internal/package/fromdocker.go:327-335 | A candidate that resolves to a new path is added once, to result, seen set and queue |
| `LibraryClosure.Probe` | internal/package/fromdocker.go:346-351 | The first directory in search order that has the library |
| `LibraryClosure.FirstInExactly` | internal/package/fromdocker.go:346-351 | The candidate is in the first directory in which the name resolves |
| `LibraryClosure.SearchesInOrder` | internal/package/fromdocker.go:340-341 | The directories of the run path come first, in order, expanded by the directory of the file, then the nine default ones |
| `LibraryClosure.TriedIn` | internal/package/fromdocker.go:347-348 | In a directory the name below it is tried |
| `LibraryClosure.OriginExpands` | internal/package/fromdocker.go:413-421 | $ORIGIN and ${ORIGIN} stand for the directory of the file; other directories stay as they are |
| `LibraryClosure.NeedsExactly` | internal/package/fromdocker.go:337-352 | A file needs its interpreter, the libraries it names by path, and the others in the first directory that has them |
| `LibraryClosure.AddNeeded` | internal/package/fromdocker.go:341-352 | One needed library is followed along the search order |
| `LibraryClosure.Visit` | internal/package/fromdocker.go:318-352 | Visiting a file adds everything it needs and keeps what was found |
| `Trails.ReachNext` | internal/package/fromdocker.go:304-355 | Reachability extends over one more edge |
| `Trails.ClosedHoldsAll` | internal/package/fromdocker.go:304-355 | A set closed under the edges that holds the starts holds everything reachable |
| `LibraryClosure.SearchIsClosure` | internal/package/fromdocker.go:304-355 | A finished search is exactly the closure |
| `LibraryClosure.ElfClosure` | internal/package/fromdocker.go:304-355 | Ends and returns, program first and without duplicates, exactly the paths reachable over interpreter and needed-library edges; fails exactly when the program does not resolve |
| `Preflight.NewGuestTree` | internal/preflight/preflight.go:75-94 | Both indexes describe exactly the files |
| `Preflight.LookupFinds` | internal/preflight/preflight.go:98-108 | A lookup succeeds exactly when some file supplies the path or its base name |
| `Preflight.LookupPicks` | internal/preflight/preflight.go:98-108 | Of several files it picks the last with the path, or else the first with the base name |
| `Preflight.KeyIs` | internal/preflight/preflight.go:75-96 | A guest path counts the same with and without a leading slash, and without one the base name of the host path counts |
| `Preflight.LibraryNeeds` | internal/preflight/preflight.go:209-237 | What a reached library needs is reached |
| `Preflight.Image.NextInUniverse` | internal/preflight/preflight.go:209-237 | Only finitely many names can ever be visited |
| `Preflight.Walker.WalkNeeded` | internal/preflight/preflight.go:209-237 | The recursion over shared maps ends on cyclic graphs, visits everything it is given and all that follows, and never rewrites an entry |
| `Preflight.MissingLibraries` | internal/preflight/preflight.go:166-168 | missing holds exactly the reachable names the image cannot supply, each with a file that needs it |
| `Framing.HeaderRoundTrip` | internal/api/framing.go:33-46 | Four header bytes read back as the length modulo 2^32 |
| `Framing.DecodeFrames` | internal/api/framing.go:33-98 | Any chunks up to 64 MiB decode to their concatenation, whatever follows |
| `Framing.DecodeEncode` | internal/api/framing.go:33-98 | With the terminator, decoding ends there and leaves the rest of the stream |
| `Framing.OnlyFramesDecode` | internal/api/framing.go:64-98 | And a stream that is read to its end begins with frames of at most 64 MiB and the terminator, so a cut or broken one never is |
| `Framing.ChunkFitsExactly` | internal/api/framing.go:13-98 | A chunk comes back exactly when it is at most 64 MiB |
| `Framing.PayloadIsShort` | internal/api/framing.go:69-98 | Framing costs at least four bytes, and eight with any payload |
| `Framing.SafeExactly` | internal/api/framing.go:88-91 | Reads with buffers of a length deliver nothing but payload, on any stream, exactly when the length is below 2^32 or its low 32 bits exceed 64 MiB |
| `Framing.Overruns` | internal/api/framing.go:88-93 | For any other length there is a stream of which a read delivers one byte too many, and the remaining count wraps |
| `Framing.StepDelivers` | internal/api/framing.go:69-98 | With a safe length, whatever the stream does, a read delivers the beginning of what is to come and leaves the rest; EOF exactly at the terminator, failure only when all that can be had is delivered |
| `Framing.PayloadDelivers` | internal/api/framing.go:88-97 | The same inside a frame |
| `Framing.Stream.Read` | internal/api/framing.go:92-92 | The underlying reader: any short read, the end reported with the last bytes or after them, no byte lost or invented |
| `Framing.Stream.ReadHeader` | internal/api/framing.go:77-80 | A full header is read or the stream is at its end |
| `Framing.FrameReader.Read` | internal/api/framing.go:69-98 | For every buffer length, the wrap of the 32-bit count included, one read is the step whose laws are SafeExactly and StepDelivers |
| `Framing.FrameReader.ReadPayload` | internal/api/framing.go:88-97 | The same inside a frame |
| `Framing.ReadAll` | internal/api/framing.go:69-98 | Draining the reader with any safe buffers yields exactly the decoded payload, succeeds exactly at the terminator, and stops just past it |
| `Framing.FrameWriter.Write` | internal/api/framing.go:33-46 | A write appends one frame, an empty one nothing |
| `Framing.FrameWriter.Close` | internal/api/framing.go:50-56 | Close appends the terminator |
| `Framing.WriteAll` | internal/api/framing.go:33-56 | Writing chunks and closing is the encoding |
| `Framing.FirstByte` | internal/api/framing.go:13-46 | A frame stream begins with a byte of at most 4, which is not whitespace |
| `Framing.SkipLeadingWhitespace` | internal/apiserver/imagebuild.go:533-544 | Skips exactly the leading JSON whitespace |
| `Framing.Transfer` | internal/apiserver/server.go:255-257 | Chunks written after any whitespace and before any bytes come back whole, with the stream just past the terminator |
| `LinkCopies.Pass` | internal/package/ops_store.go:539-554 | On every input a pass leaves the tree and the waiting links of the one-link rule applied in order, and progresses exactly when it shortens the list |
| `LinkCopies.MaterializeLinks` | internal/package/ops_store.go:536-577 | Ends and leaves the fixpoint of the passes on every input; for distinct links that name no file, every new file is explained by a chain of links that are files by then and none lies above another; without a conflict a name becomes a file exactly when a clean chain leads from it, with the contents at its end |
| `LinkCopies.HandledIsSound` | internal/package/ops_store.go:544-553 | Whatever is copied next, old entries stay, new files are explained and none lies above another |
| `LinkCopies.CopyIsExplained` | internal/package/ops_store.go:544-553 | A copied link put before the chain of its target is a chain with no link above another |
| `LinkCopies.EveryOrderIsSound` | internal/package/ops_store.go:536-577 | The same of the final tree, in every order of the links |
| `LinkCopies.ChainsAgree` | internal/package/ops_store.go:536-577 | A name leads along one chain only |
| `LinkCopies.StillFits` | internal/package/ops_store.go:580-600 | Without a conflict, what has been copied is never in the way of a name with a clean chain |
| `LinkCopies.SweepDeals` | internal/package/ops_store.go:539-554 | So a pass makes the name a file, or leaves its link waiting |
| `LinkCopies.AllReached` | internal/package/ops_store.go:555-573 | When no pass can progress, every name with a clean chain is a file |
| `LinkCopies.FinalIsOutcome` | internal/package/ops_store.go:536-577 | Without a conflict the final tree is the outcome |
| `LinkCopies.OutcomeIsUnique` | internal/package/ops_store.go:536-577 | There is one outcome for a set of links |
| `LinkCopies.SomeOrderCopies` | internal/package/ops_store.go:536-577 | Every name with a clean chain becomes a file in some order of the links |
| `LinkCopies.ConflictShows` | internal/package/ops_store.go:536-577 | With a conflict two orders end in different trees |
| `LinkCopies.OrderFreeExactly` | internal/package/ops_store.go:536-577 | For distinct links that name no file, all orders end in the same tree exactly when no two names with clean chains lie one above the other |
| `LinkCopies.OrderMatters` | internal/package/ops_store.go:536-577 | Links at a and a/b to one file: the whole run copies whichever comes first |
| `LinkCopies.FileIsOverwritten` | internal/package/ops_store.go:580-600 | A link that names a file overwrites its contents and keeps its mode; one to itself empties it |
| `LinkCopies.AboveIsPrefix` | internal/package/ops_store.go:580-600 | One path is above another exactly when its names are the first of the other |
| `ImageStore.ByShaIs` | internal/image/store.go:225-237 | Prefix lookup finds a digest exactly when it is the only one that matches, in any map order |
| `ImageStore.LookupIsNamed` | internal/image/store.go:204-223 | What a lookup finds is named by some reference |
| `ImageStore.RemoveKeepsNamed` | internal/image/store.go:148-193 | A removal keeps the directory of every reference that remains |
| `ImageStore.StepKeepsSound` | internal/image/store.go:52-193 | Put and Remove keep every reference naming a directory whose manifest digest and disk hash match its address |
| `ImageStore.RunIsSound` | internal/image/store.go:52-193 | So does every sequence of them |
| `ImageStore.FoundMeansIntact` | internal/image/store.go:105-120 | After every sequence with well-formed manifests, what can be looked up resolves, to the manifest and disk of its address |
| `ImageStore.PutThenResolve` | internal/image/store.go:52-120 | A reference resolves to what was just put under it |
| `ImageStore.LookupExactly` | internal/image/store.go:204-237 | A reference is looked up as it is, else with the tag latest, else as the beginning of exactly one digest |
| `ImageStore.ResolveExactly` | internal/image/store.go:105-120 | It resolves to the manifest there exactly when that is valid and names the directory as its digest |
| `ImageStore.PutExactly` | internal/image/store.go:52-82 | A put sets one reference and one directory and leaves all others alone |
| `ImageStore.RemoveExactly` | internal/image/store.go:148-193 | A removal takes the named reference, or all that name the one digest, and the directories nothing names any more; all else stays |
| `ImageStore.RefsExactly` | internal/image/store.go:39-193 | After any run a reference is there exactly when some put under it was followed by no other and by no removal that takes it, and it names the digest of that put |
| `ImageStore.ContentsExactly` | internal/image/store.go:39-193 | And behind it are the disk and the manifest of the last put of that digest |
| `ImageStore.Store.PutDisk` | internal/image/store.go:52-83 | put adds the directory and the reference and returns the stamped manifest |
| `ImageStore.Store.FindBySha` | internal/image/store.go:225-237 | The loop with a running match computes the unique prefix match |
| `ImageStore.Store.ResolveRef` | internal/image/store.go:204-223 | Exact reference, then :latest, then digest prefix |
| `ImageStore.Store.Resolve` | internal/image/store.go:105-120 | The manifest of the digest the lookup picks, if it is valid and matches |
| `ImageStore.Store.Get` | internal/image/store.go:86-99 | The disk it returns hashes to the manifest digest |
| `ImageStore.Store.DropDigest` | internal/image/store.go:174-178 | Drops exactly the references to a digest |
| `ImageStore.Store.Remove` | internal/image/store.go:148-193 | Removes the digest the lookup picks: one reference by name or all by digest, and the directory only if no reference is left |
| `Forwarder.StepKeepsInv` | internal/network/forwarder.go:75-158 | Every atomic step of every loop, worker, copy and closer keeps the invariant: the wait count is live loops plus live workers |
| `Forwarder.RunKeepsInv` | internal/network/forwarder.go:75-158 | So does every interleaving |
| `Forwarder.LoopAccepts` | internal/network/forwarder.go:77-84 | Accepting a connection keeps it, with the connection held by that loop alone |
| `Forwarder.LoopHandsOver` | internal/network/forwarder.go:84-99 | So does handing a connection to a worker or refusing it |
| `Forwarder.LoopDrops` | internal/network/forwarder.go:75-100 | A loop that lets go leaves every other loop its connection |
| `Forwarder.WorkerMoves` | internal/network/forwarder.go:104-130 | So does every move of a live worker |
| `Forwarder.NoLateRegistration` | internal/network/forwarder.go:84-92 | Once closed is set no step registers a connection |
| `Forwarder.NeverRegisteredLate` | internal/network/forwarder.go:84-92 | In every run, every connection registered after closed is set was registered before |
| `Forwarder.NeverAcceptsLate` | internal/network/forwarder.go:75-158 | In every run, no connection is accepted once the first Close waits |
| `Forwarder.ZeroMeansQuiet` | internal/network/forwarder.go:133-158 | The wait count is zero exactly when no loop or worker is left and every socket is closed |
| `Forwarder.CloseIsComplete` | internal/network/forwarder.go:133-158 | When the first Close returns, in any run, nothing is left running and every accepted connection is closed |
| `Forwarder.StuckExactly` | internal/network/forwarder.go:103-158 | While Close runs, some step that needs nothing from the network is enabled exactly unless Close waits for nothing but connections with one copy in a write to the guest and the other in a read from it |
| `Forwarder.NeverStuck` | internal/network/forwarder.go:103-158 | In every other state of a running Close, such a step |
| `Forwarder.StepUsesWork` | internal/network/forwarder.go:75-158 | From the moment Close begins every step of anyone uses up work, accepting further connections included, except that passing on data while the client is open leaves it as it is; once Close waits there is no exception |
| `Forwarder.ShutdownTerminates` | internal/network/forwarder.go:133-158 | So under every schedule a run from the begin of Close has at most that many steps besides passing on data, and a run from the moment Close waits at most that many in all; it ends with Close returned, with a step the program takes by itself, or waiting for blocked connections alone |
| `Forwarder.NoneComes` | internal/network/forwarder.go:75-158 | After Close has begun no connection becomes one that may still come to be blocked |
| `Forwarder.NeverHangs` | internal/network/forwarder.go:103-158 | So without one at the start, no run comes to wait for blocked connections alone |
| `Forwarder.StaysBlocked` | internal/network/forwarder.go:103-158 | Nothing the program does by itself frees a blocked connection, since Close does not close backends |
| `Forwarder.GetsStuck` | internal/network/forwarder.go:103-158 | From a connection that may still come to be blocked, a run to where Close waits for blocked ones alone |
| `Forwarder.CloseHangsExactly` | internal/network/forwarder.go:133-158 | Close can come to wait for the guest alone exactly when, as it is called, some registered connection is yet to be dialled or is being copied with its client open, or is caught between a write to the guest and a read from it |
| `Forwarder.BlockedRun` | internal/network/forwarder.go:103-158 | A whole run in which a client sent data that the guest does not read, and Close waits for it |
| `Forwarder.QuietIsFinal` | internal/network/forwarder.go:133-158 | After that nothing ever moves again |

## Left out

- `NetworkStore.Store.AllocateIP`: requires a searchable pool, because otherwise the search never ends; `AddressPool.SearchEnds` gives the exact condition.
- `NetworkStore.Store.Search`: requires the same, for the same reason.
- `RunServer.Server.Allocate`: requires the same, for the same reason.
- `RunServer.Server.Assign`: requires the same where it allocates.
- `RunServer.Server.HandleAllocateIP`: requires the same of a known network.
- `RunServer.Server.HandleRun`: requires the same where it allocates, is one atomic step, and leaves explicit ReleaseIP calls, network removal, VM.Start and restarts out of its runs.
- `Framing.Transfer`: requires safe buffer lengths, because others overrun the frame (`Framing.Overruns`); `Framing.SafeExactly` gives the exact lengths.
- `Framing.ReadAll`: requires the same, for the same reason.
- `Framing.Stream.Read`: a reader that returns no bytes and no error for a non-empty buffer is not modelled.
- `LinkCopies.MaterializeLinks`: of links that repeat a path or name a file already there it says only what the passes compute; directories are those above recorded entries, and a failed copy is taken to leave the tree as it was.
- `ManifestBuild.BuildManifest`: takes entries with guest path and absolute host path filled in.
- `ManifestNodes.ManifestNode.Insert`: walks down by recursion where the program moves a cursor; on failure the nodes already added are not described, since the program stops there.
- `ManifestText.ManifestReads`: the reader is the one the comments in builder.go describe; the kernel's own parser is not part of this model.
- `ImageStore.RunIsSound`: directories that no reference names any more, left by re-tagging, are allowed.
- `ClusterRuns.LeftOnlyByLeaving`: only the nodes of the cluster send payloads; without a cluster token the gossip endpoint takes payloads from anyone, and one that claims left of a member is believed.
- `ClusterRuns.DeadOnlyByTimeout`: the same of a claim of dead.
- `Forwarder.CloseIsComplete`: opening a listener, counting it and starting its loop are one step; a second Close, which returns at once, takes no step.
- Locks of the stores and servers: each store operation is one step.
- Integer width of NextIndex and of lengths other than the frame header: unbounded here.
- IPv6 and IPv4-mapped CIDR subnets.
- SHA-256: any function to 64 hexadecimal digits.
- ELF and tar parsing: the needed, interpreter and run-path data and the tar index are given as functions.
- Clocks and tickers: `now` is a parameter.
- File, JSON, TOML, YAML and SQLite encoding, fsync and rename: stores are their in-memory contents and writes succeed.
- Windows path separators and invalid UTF-8 in names.
- VM state transitions, hypervisors, HTTP, DNS, TAP devices, signing, the command line, metrics and logs.
