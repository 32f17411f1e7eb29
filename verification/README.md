# Protocols and data structures of the early Docker ecosystem, in Dafny

This project models the parts of docker, libchan, blockade and docker-registry
that are hard to get right, and proves what they guarantee. The
modules below follow the components of the programs; code that changes state in
place is modelled by classes and loops whose contracts tie the new state to
functions of the old one, and the lemmas about those functions carry the
results over whole runs. The command
`dafny verify dfyconfig.toml` checks the whole project.

| files | component |
|---|---|
| `Cidr` | IPv4 blocks, the 32-bit address arithmetic, choice of the bridge network |
| `IpAllocator`, `NetworkRun` | the address allocator goroutine, and every interleaving of the calls to it |
| `Network` | port allocators, port mapper, interfaces, `allocateNetwork` |
| `ImageGraph`, `ImagePrune` | the image forest, and the recursive deletion of images |
| `Digraph`, `DependencyOrder`, `PushOrder` | layered topological sorting, its two implementations, and the push list of a repository |
| `Pipe` | the in-memory pipe of libchan, under every interleaving |
| `TruncIndex` | look-up of ids by a unique prefix |
| `Netstring` | the encoding of maps of string lists, and messages |
| `UnixFrames` | framing over a fragmented byte stream, with file descriptors |
| `PacketFilter`, `Partition`, `Blockade` | compiling a partition of containers into filter chains, and clearing it |
| `RegistryUpload` | the upload requests of the registry |
| `Rearrange`, `TarSum` | the archive checksum, streaming and batch |

`Text` has decimal numbers, `Find` and `Option`, and `Words` 32-bit numbers as
four octets, both shared by the others.

## How the code is modelled

- Concurrency is a state machine over atomic steps. The allocator goroutine
  hands out one offer at a time, and `Allocate` may receive twice, with other
  calls in between. The pipe's steps are the stretches of code between two
  points where the mutex is released.
- Whatever the system decides is a nondeterministic choice: which part of a
  buffer a read or a write transfers, whether an iptables command or a proxy
  succeeds, the iteration order of maps and sets, the buffer sizes of a client.
- Integer widths are explicit. `int32` is a subset type, so the allocator's
  arithmetic is proved not to overflow; `networkSize`, `makeHeader` and the
  netstring length field wrap around as Go's conversions do.
- Hash functions are a parameter, JSON is a record, a suffix array is the set of
  positions where a pattern occurs, an archive is a list of headers and bodies.

## What does not hold, and exactly when it does

- **One address for two interfaces.** The allocator may have made its offer
  before a ghost container reserved that very address, and `Allocate` guards
  against the first address of the block only. The schedule up to the first call
  decides (`NetworkRun.DistinctIffNotOvertaken`, for every run): live addresses
  stay distinct exactly if no ghost that is registered between the goroutine's
  first search and the first call, that call an `Allocate`, has the address found,
  other than the guarded one. So it is enough that the goroutine searches before
  any ghost is registered and the bridge is not on the first address
  (`PromptScanIsSafe`), or that it searches after the last ghost
  (`LateScanIsSafe`). Two runs that fail: `ScanBetweenGhostsDuplicates`, if the
  bridge is on neither of the first two addresses, and
  `BridgeOnGuardedDuplicates`, if it is on the first. For one call of
  `allocateNetwork`: it gives no address twice if the pending offer is not outdated,
  or, for a ghost, if no interface has that address
  (`Network.NetworkManager.AllocateNetwork`).
- **`networkSize`** is the number of addresses exactly from prefix length 2 on
  (`Cidr.SizeIsCount`); the model of the allocator takes prefixes /2 to /30.
- **`Graph.Register`** does not look at the parent; the store stays a forest
  exactly if the parent is empty or present (`ImageGraph.RegisterKeepsForest`).
- **The pipe's nil result** implies delivery, but not the other way round. A send
  returned nil exactly if its message was received and it never went through its
  loop with the message still in the slot and only the write side closed
  (`Pipe.NilIffDelivered`); `Pipe.DeliveredWithError` is a run that delivers a
  message and reports an error.
- **`decodeString`** panics on some inputs instead of returning an error: exactly
  on a length field from 2^63 - 1 up that still fits 64 bits
  (`Netstring.DecodePanicsIff`).
- **`makeHeader`** converts the length to 32 bits before it compares it, so from
  2^32 bytes on it may accept a payload and announce a shorter one; it is
  faithful exactly up to 0x7fffffff bytes (`UnixFrames.HeaderFaithfulIff`).
- **`TruncIndex.Delete`** refuses a registered id that another id extends, and
  `Fountain`-fed port allocation does not return while every port of the range is
  taken (`Network.PortAllocator.Acquire`, result `Spins`).
- **Port mappings** are those of the ports in use and of the ports whose iptables
  rule could not be deleted when that was last tried (`stuck` in
  `Network.PortMapper`). If no deletion ever failed, the ports in use, mapped and
  proxied are the same (`Network.MappingsMatch`).
- **Registry ancestry.** Uploading JSON again while an image is unfinished may
  change its parent, and the ancestry of its children is not written again. An
  accepted upload keeps all ancestries right exactly if the image is new, or names
  the same parent as before, or is nobody's parent and does not become its own
  (`RegistryUpload.AncestryKeptIffHarmless`, and over runs
  `AlwaysOkIffHarmless`).
- **A finished image's checksum** is set or dropped by an upload that is then
  refused (`RegistryUpload.RefusedUploadSetsChecksum`). It stays the same exactly
  as long as no JSON request for the image, described and with a valid header or
  none, names another (`ChecksumKeptIff`, and over runs `ChecksumAlwaysKeptIff`).
- **A finished image's layer.** A checksum request finishes an image without a
  layer exactly if the image is unfinished and the checksum is valid and one of
  the client's session, where it may be that of another image's layer
  (`RegistryUpload.LayersKeptIff`, over runs `AlwaysHasLayersIff`;
  `FinishedWithoutLayer` is such a run).
- **`TruncIndex.Get`** with an empty query panics exactly on an index to which
  nothing was added (`TruncIndex.TruncIndex.Get`).
- **An undefined variable.** A body that is no JSON makes `put_image_json` read a
  variable it never set: a server error, not the intended refusal. The model
  follows the code.
- **Both tarsum programs** hash the same text for an entry with the same header
  exactly if its body is empty or the batch program can extract it
  (`TarSum.SameTextIff`).

## Model

| member | source | states |
|---|---|---|
| `Cidr.IntIpRoundTrip` | github.com/dotcloud/docker/network.go:50-59 | ipToInt and intToIP are mutual inverses, for addresses on both sides of 127.255.255.255 |
| `Words.BigEndianRoundTrip` | github.com/dotcloud/docker/network.go:50-59 | a 32-bit number and its four octets, most significant first, determine each other |
| `Cidr.BlockIsInterval` | github.com/dotcloud/docker/network.go:26-34 | for a contiguous mask, the addresses equal under the mask are exactly those from the first to the last of networkRange |
| `Cidr.BlockCount` | github.com/dotcloud/docker/network.go:26-34 | a block of prefix length n has 2^(32-n) addresses, contiguous also after the conversion to int32 |
| `Cidr.NetworkRange` | github.com/dotcloud/docker/network.go:26-34 | the loop over the octets gives the first and last address of the block |
| `Cidr.NetworkSize` | github.com/dotcloud/docker/network.go:62-69 | the inverted mask as a number, plus one, in wrapping 32-bit arithmetic |
| `Cidr.SizeIsCount` | github.com/dotcloud/docker/network.go:62-69 | that number is the size of the block exactly for prefixes /2 and longer |
| `Cidr.OverlapIsSharing` | github.com/dotcloud/docker/network.go:37-47 | networkOverlaps holds exactly if the blocks have an address in common |
| `Cidr.CheckRouteOverlaps` | github.com/dotcloud/docker/network.go:96-122 | accepts exactly if every line is readable and no listed network shares an address with the bridge; otherwise the first offending line gives the error |
| `Cidr.ChooseBridge` | github.com/dotcloud/docker/network.go:127-167 | the first candidate that is free of all routes, unless the route table cannot be printed before it is reached; no candidate exactly if none is free |
| `IpAllocator.ScanFinds` | github.com/dotcloud/docker/network.go:410-435 | one round of the search offers an error exactly if every usable address is taken, and otherwise a usable free address with the next search right behind it |
| `IpAllocator.ScanIsFirst` | github.com/dotcloud/docker/network.go:410-435 | the address offered is the first usable free one from the position on |
| `IpAllocator.TakeStaysFresh` | github.com/dotcloud/docker/network.go:438-439 | after an offer is received it is in use, and the next offer agrees with the addresses in use |
| `IpAllocator.PutStaysFresh` | github.com/dotcloud/docker/network.go:440-457 | after a release the address is free, and the next offer agrees with the addresses in use |
| `IpAllocator.ReleaseKeepsCandidate` | github.com/dotcloud/docker/network.go:409-459 | a release while a free candidate is pending leaves the candidate unchanged |
| `IpAllocator.ReleaseAfterExhaustion` | github.com/dotcloud/docker/network.go:409-459 | after exhaustion the next offer is the released address |
| `IpAllocator.ServedIs` | github.com/dotcloud/docker/network.go:632-663 | what a call of Allocate gets: unless the offer is outdated, a usable address that was free and is in use from then on, and a failure exactly if only the guarded address was left |
| `IpAllocator.RangeOfBlock` | github.com/dotcloud/docker/network.go:401-408 | for prefixes /2 to /30 the candidates are the addresses strictly between network and broadcast, without overflow |
| `IpAllocator.IPAllocator.constructor` | github.com/dotcloud/docker/network.go:470-481 | the range comes from the bridge's network, the search starts at position 1 and nothing is in use |
| `IpAllocator.IPAllocator.Search` | github.com/dotcloud/docker/network.go:410-435 | the loop with its wrapping position makes the offer that the specification of one round makes |
| `IpAllocator.IPAllocator.Acquire` | github.com/dotcloud/docker/network.go:437-439 | hands out the pending offer and prepares the next |
| `IpAllocator.IPAllocator.Release` | github.com/dotcloud/docker/network.go:440-457 | frees the address and moves the search position as the code does |
| `IpAllocator.IPAllocator.Reserve` | github.com/dotcloud/docker/container.go:876-877 | a ghost's address is entered without the goroutine: the offer stays as it was |
| `NetworkRun.StepKeepsSafe` | github.com/dotcloud/docker/network.go:389-468 | every step but a stale receive keeps live addresses distinct, in range and in use, and accounts for every address in use |
| `NetworkRun.StaleReceiveDuplicates` | github.com/dotcloud/docker/network.go:632-663 | a stale receive gives a live ghost's address to a second interface |
| `NetworkRun.DistinctIffNeverStale` | github.com/dotcloud/docker/network.go:632-663 | in any run, no two live interfaces ever share an address exactly if no receive is stale; then only the guarded address and the bridge's own can be in use without an owner |
| `NetworkRun.DistinctIffNotOvertaken` | github.com/dotcloud/docker/network.go:632-663 | in any run, no two live interfaces ever share an address exactly if no ghost registered between the first search and the first call, that call an Allocate, has the address found, other than the guarded one |
| `NetworkRun.PromptScanIsSafe` | github.com/dotcloud/docker/network.go:632-663 | if the goroutine searches first and the bridge is not on the guarded address, the workaround in Allocate is sufficient in every run |
| `NetworkRun.LateScanIsSafe` | github.com/dotcloud/docker/container.go:867-878 | if all ghosts are registered before the first search, addresses stay distinct in every run |
| `NetworkRun.ReceivesAreServed` | github.com/dotcloud/docker/network.go:632-663 | a call of Allocate that nothing interrupts is, as steps of a run, the call that the class serves |
| `NetworkRun.OffersWithoutGhosts` | github.com/dotcloud/docker/network.go:401-459 | without ghosts an offer carries an error exactly if every usable address is in use, and a clean offer is usable, free and nobody's |
| `NetworkRun.ScanBetweenGhostsDuplicates` | github.com/dotcloud/docker/container.go:867-878 | a run that gives one address to two interfaces, for a bridge on neither of the first two addresses: the search falls between two ghosts |
| `NetworkRun.BridgeOnGuardedDuplicates` | github.com/dotcloud/docker/network.go:632-663 | a run that does so with the bridge on the guarded address |
| `Network.GhostSpecRoundTrip` | github.com/dotcloud/docker/network.go:539-591 | the specification a ghost's mapping is turned back into parses to that mapping, for all 16-bit ports |
| `Network.ParseNatForms` | github.com/dotcloud/docker/network.go:539-591 | each form of a specification: tcp unless udp is named, an empty frontend is the backend port, none at all is any port |
| `Network.WithProtocol` | github.com/dotcloud/docker/network.go:546-556 | what is behind the slash decides the protocol; any but tcp and udp is refused |
| `Network.ParseNatBounds` | github.com/dotcloud/docker/network.go:558-588 | ports beyond 16 bits are refused |
| `Network.TwoColonsRefused` | github.com/dotcloud/docker/network.go:558-588 | so is a second colon |
| `Network.PortAllocator.AcquireGiven` | github.com/dotcloud/docker/network.go:359-377 | a given port is taken if free and refused if in use |
| `Network.PortAllocator.Acquire` | github.com/dotcloud/docker/network.go:336-377 | port 0 gets the first free port of [49153, 65535) that the fountain delivers, within one cycle, and does not return exactly if all are taken; the fountain goes on behind the port delivered |
| `Network.PortAllocator.Release` | github.com/dotcloud/docker/network.go:351-357 | the port is free again, the others as before |
| `Network.PortMapper.Map` | github.com/dotcloud/docker/network.go:260-291 | on success mapping and proxy are there; each failure leaves nothing, or a mapping whose rule could not be deleted again, and only a failed deletion adds such a mapping |
| `Network.PortMapper.Unmap` | github.com/dotcloud/docker/network.go:293-322 | an unmapped port is an error; otherwise the proxy goes, and the mapping goes if its rule could be deleted |
| `Network.NetworkManager.constructor` | github.com/dotcloud/docker/network.go:665-712 | a new manager has no interface, no port, no failed deletion and an allocator that has searched once, with an offer that is up to date |
| `Network.NetworkManager.Allocate` | github.com/dotcloud/docker/network.go:632-663 | receives an address, and another one if it is the guarded one: what `IpAllocator.ServedIs` speaks of |
| `Network.NetworkManager.AcquireAndMap` | github.com/dotcloud/docker/network.go:494-531 | takes a port nobody owns and forwards it to the backend port of the address, or leaves every port as it was; no other forwarding changes |
| `Network.NetworkManager.AllocateNetwork` | github.com/dotcloud/docker/container.go:854-912 | all ports served on an interface of its own; a ghost has its own address, any other the next one offered, which is usable and was free unless the offer was outdated; so addresses stay distinct unless an offer is outdated or a ghost's address taken; a failure leaves the ports and interfaces as they were, and the addresses but for the guarded and the bridge's; mappings stick only where a deletion failed |
| `Network.NetworkManager.ConnectPorts` | github.com/dotcloud/docker/container.go:896-905 | all ports of the specifications, or none and the interface released |
| `Network.NetworkInterface.AllocatePort` | github.com/dotcloud/docker/network.go:494-531 | a port that serves the specification is added to the interface's own and forwarded to the backend port of the interface's address, or nothing changes; other ports are forwarded as before |
| `Network.NetworkInterface.AllocatePorts` | github.com/dotcloud/docker/container.go:896-905 | the loop serves every specification and touches no other interface's ports or forwarding |
| `Network.NetworkInterface.Release` | github.com/dotcloud/docker/network.go:594-615 | every port and the address are given back, all other interfaces keep theirs with their forwarding, the next offer is up to date, and mappings stick only where a deletion failed |
| `Network.NetworkInterface.ReleasePort` | github.com/dotcloud/docker/network.go:594-615 | one port is unmapped and freed, the ports in use stay exactly the owned ones |
| `Network.MappingsMatch` | github.com/dotcloud/docker/network.go:594-615 | if no deletion ever failed, the ports in use, mapped and proxied are the same, and the disjoint union of the live interfaces' frontends |
| `Network.ForwardsTo` | github.com/dotcloud/docker/network.go:494-531 | in every valid state each port of a live interface is forwarded to the interface's address and the port's backend |
| `Network.BalancedAdd` | github.com/dotcloud/docker/network.go:494-531 | taking a free port keeps the ports in use the disjoint union of the interfaces' ports |
| `Network.BalancedRemove` | github.com/dotcloud/docker/network.go:594-615 | so does giving back all the ports of an interface |
| `Network.BalancedOwner` | github.com/dotcloud/docker/network.go:484-491 | the interfaces' ports determine which ports are in use and whose they are |
| `ImageGraph.UpAfter` | github.com/dotcloud/docker/image.go:276-290 | removing images with all their children leaves every remaining image's walk up as it was |
| `ImageGraph.UnderChain` | github.com/dotcloud/docker/image.go:276-290 | two ancestors of an image are one above the other |
| `ImageGraph.RegisterKeepsForest` | github.com/dotcloud/docker/graph.go:120-143 | registering keeps the store a forest without dangling parents exactly if the parent is empty or present |
| `ImageGraph.DoomedDownClosed` | github.com/dotcloud/docker/server.go:996-1037 | what is doomed is removed with all its children |
| `ImageGraph.DoomedFromChild` | github.com/dotcloud/docker/server.go:996-1037 | below an untagged image, doom from a child is doom from the image |
| `ImageGraph.DoomedAfter` | github.com/dotcloud/docker/server.go:996-1037 | what earlier siblings lost does not change what is doomed in a later sibling's subtree |
| `ImagePrune.DoomedByChildren` | github.com/dotcloud/docker/server.go:1001-1035 | what is doomed is what is doomed from the children, and the image itself if nothing tagged is below it |
| `ImagePrune.PrunedStops` | github.com/dotcloud/docker/server.go:1039-1052 | pruning stops at an image with something tagged below it or without a parent |
| `ImagePrune.PrunedGoesOn` | github.com/dotcloud/docker/server.go:1039-1052 | otherwise it removes the whole subtree and goes on from the parent in what is left |
| `ImagePrune.ClimbStops` | github.com/dotcloud/docker/server.go:1039-1052 | the climb ends with a reference at an image with something tagged below it, with an error at a missing parent, and without one at the top |
| `ImagePrune.ClimbGoesOn` | github.com/dotcloud/docker/server.go:1039-1052 | otherwise its result is that of the climb from the parent in what is left |
| `ImagePrune.PruningIsSafe` | github.com/dotcloud/docker/server.go:1073-1093 | afterwards every tag resolves, no parent dangles, and what is left has its whole ancestry |
| `ImagePrune.Server.ByParent` | github.com/dotcloud/docker/graph.go:309-323 | lists the children of every image, each once |
| `ImagePrune.Server.Heads` | github.com/dotcloud/docker/graph.go:327-341 | the images that are nobody's parent |
| `ImagePrune.Server.Untag` | github.com/dotcloud/docker/tags.go:133-157 | removes one tag or a whole repository; only an unknown tag is an error, and then nothing changes |
| `ImagePrune.Server.DeleteImageAndChildren` | github.com/dotcloud/docker/server.go:996-1037 | removes exactly the images under id with nothing tagged between or below, lists each once and children first, reports a reference exactly if a tagged image is under id, and terminates |
| `ImagePrune.Server.DeleteImageParents` | github.com/dotcloud/docker/server.go:1039-1052 | does so from a parent upwards, and ends with a reference exactly if something tagged is below one of the ancestors |
| `ImagePrune.Server.DeleteUpwards` | github.com/dotcloud/docker/server.go:1083-1090 | an image's subtree and then its ancestors, as far as nothing tagged is below; the error is exactly the one the climb ends with |
| `ImagePrune.Server.DeleteImage` | github.com/dotcloud/docker/server.go:1073-1093 | untags, and prunes exactly if no tag is left on the image; a reference is never an error, a missing parent exactly if the climb reaches one; a well-formed store stays well-formed, and there only an unknown tag is an error |
| `ImagePrune.Server.Register` | github.com/dotcloud/docker/graph.go:120-143 | refuses an invalid or known id, and keeps a well-formed store so exactly if the parent is empty or present |
| `ImagePrune.Server.SetTag` | github.com/dotcloud/docker/tags.go:159-188 | sets one tag and no other, to images of the store only |
| `Digraph.RoundIsLevel` | github.com/dotcloud/docker/utils/utils.go:961-1014 | a node's round is one more than the greatest round of its dependencies, 0 without any |
| `Digraph.CycleNeverDone` | github.com/dotcloud/docker/utils/utils.go:961-1014 | no node on a cycle is ever processed |
| `Digraph.AllDoneNoCycle` | github.com/dotcloud/docker/utils/utils.go:961-1014 | if all nodes are processed there is no cycle |
| `Digraph.StuckHasCycle` | github.com/dotcloud/docker/utils/utils.go:1001-1005 | a round without progress means a cycle |
| `DependencyOrder.DependencyGraph.NewNode` | github.com/dotcloud/docker/utils/utils.go:922-932 | adds a node without dependencies, or leaves a known one alone |
| `DependencyOrder.DependencyGraph.AddDependency` | github.com/dotcloud/docker/utils/utils.go:934-949 | refuses unknown nodes and loops of one node, and otherwise adds one dependency |
| `DependencyOrder.DependencyGraph.GenerateTraversalMap` | github.com/dotcloud/docker/utils/utils.go:961-1014 | succeeds exactly on an acyclic graph, with the rounds of the levels |
| `DependencyOrder.DependencyGraph.Available` | github.com/dotcloud/docker/utils/utils.go:967-999 | one pass finds exactly the nodes whose dependencies are all processed, so the degree shortcuts change nothing |
| `DependencyOrder.TraversalPartitions` | github.com/dotcloud/docker/utils/utils.go:961-1014 | every node is in exactly one round, after all its dependencies and right after one of them |
| `DependencyOrder.Resolve` | github.com/dcm-oss/blockade/blockade/config.py:116-149 | reports an unknown link exactly if there is one, a circle exactly if all links are known and there is one, and otherwise orders all containers after their links |
| `DependencyOrder.ResolveRound` | github.com/dcm-oss/blockade/blockade/config.py:122-142 | one round finds exactly the containers whose links are all resolved, whatever the order of the scan |
| `PushOrder.WalkHistory` | github.com/dotcloud/docker/image.go:276-290 | visits exactly the ancestors of the start, adds each to the graph and labels it with the tag |
| `PushOrder.LinkParent` | github.com/dotcloud/docker/server.go:689-697 | adds the parent and the dependency on it, or nothing if there is no parent |
| `PushOrder.MirrorIsAcyclic` | github.com/dotcloud/docker/server.go:674-717 | the graph of the parent links has no cycle |
| `PushOrder.CollectImages` | github.com/dotcloud/docker/server.go:675-700 | collects exactly the tagged images and their ancestors, and fails exactly if a tag refers to a missing image |
| `PushOrder.RoundsArePushList` | github.com/dotcloud/docker/server.go:702-716 | looking the rounds up gives every needed image once, in a later round than its parent |
| `PushOrder.GetImageList` | github.com/dotcloud/docker/server.go:674-717 | the push list has every ancestor once, parents before children |
| `Pipe.StepKeepsInv` | github.com/docker/libchan/inmem.go:28-122 | every step of every call keeps the pipe's invariant: order, ownership of the slot, results, no lost wakeup |
| `Pipe.EveryRun` | github.com/docker/libchan/inmem.go:28-122 | so whatever the interleaving, messages are received in write-lock order, each at most once, and nil means delivered |
| `Pipe.SendLeavesIffTaken` | github.com/docker/libchan/inmem.go:28-53 | psend leaves its loop with an empty slot exactly if a reader took its message |
| `Pipe.NothingReceivedAfterReturn` | github.com/docker/libchan/inmem.go:28-53 | what a returned send left behind is never received later, and its result never changes |
| `Pipe.NothingReceivedAfterClose` | github.com/docker/libchan/inmem.go:102-111 | after rclose nothing is received |
| `Pipe.NilIffDelivered` | github.com/docker/libchan/inmem.go:28-53 | a send returned nil exactly if its message was received and no pass of its loop found the message still there with only the write side closed; with the write side open, nil is delivery |
| `Pipe.ErrorOfSend` | github.com/docker/libchan/inmem.go:28-53 | a send whose message was not received returns the error of the closed read side; one whose message was received returns nil, or that the pipe is closed, and that only if the write side is |
| `Pipe.AfterCloseWrite` | github.com/docker/libchan/inmem.go:113-122 | behind a close of the write side a reader gets the message that waits, and otherwise the error given, by default the end of the stream |
| `Pipe.AfterCloseRead` | github.com/docker/libchan/inmem.go:102-111 | behind a close of the read side a reader gets that the pipe is closed, and a sender whose message was not received the error given, by default that the pipe is closed |
| `Pipe.DeliveredWithError` | github.com/docker/libchan/inmem.go:113-122 | a run in which a message is received and its sender told that the pipe is closed |
| `Pipe.SignalledAndLeaves` | github.com/docker/libchan/inmem.go:28-86 | a waiting reader or writer whose exit condition holds has been signalled, and leaves when it wakes |
| `Pipe.NeverBothAsleep` | github.com/docker/libchan/inmem.go:28-86 | reader and writer never both wait unsignalled, and an arriving reader takes the waiting writer's message at once |
| `Pipe.InMemoryPipe.LockWrite` | github.com/docker/libchan/inmem.go:30-31 | taking the write lock fixes the message's place in the order |
| `Pipe.InMemoryPipe.EnterSend` | github.com/docker/libchan/inmem.go:34-53 | fills the slot, signals the reader and tests the loop condition, as one step |
| `Pipe.InMemoryPipe.WakeSend` | github.com/docker/libchan/inmem.go:38-53 | a woken writer goes through the loop once more |
| `Pipe.InMemoryPipe.SendLoop` | github.com/docker/libchan/inmem.go:38-52 | from the loop test to the wait or the return |
| `Pipe.InMemoryPipe.LockRead` | github.com/docker/libchan/inmem.go:64-66 | at most one reader at a time |
| `Pipe.InMemoryPipe.ReceiveLoop` | github.com/docker/libchan/inmem.go:64-86 | returns the message in the slot or the error of a closed side, or waits; an error takes nothing from the slot |
| `Pipe.InMemoryPipe.CloseRead` | github.com/docker/libchan/inmem.go:102-111 | records the error and signals both sides |
| `Pipe.InMemoryPipe.CloseWrite` | github.com/docker/libchan/inmem.go:113-122 | records the error and signals both sides |
| `Pipe.ReceiveFrom` | github.com/docker/libchan/inmem.go:176-197 | relays the messages up to the first error in order, with nil exactly for the end of the stream |
| `TruncIndex.OccursAtTokens` | github.com/dotcloud/docker/utils/utils.go:331-343 | a space and a prefix occur exactly in front of the ids that have the prefix, runs of spaces included |
| `TruncIndex.FullIds` | github.com/dotcloud/docker/graph.go:69-73 | with ids of one length, looking up a full id is looking up a set |
| `TruncIndex.RenderDelete` | github.com/dotcloud/docker/utils/utils.go:358-370 | cutting an id out of the bytes leaves the other ids where look-ups find them |
| `TruncIndex.TruncIndex.Add` | github.com/dotcloud/docker/utils/utils.go:345-356 | adds an id exactly if it has no space and is new |
| `TruncIndex.TruncIndex.Lookup` | github.com/dotcloud/docker/utils/utils.go:372-381 | the bounds of the only id with the prefix, an error exactly if there is not exactly one; what an empty query and one with a space give |
| `TruncIndex.TruncIndex.Get` | github.com/dotcloud/docker/utils/utils.go:383-390 | returns an id exactly if it is the only one with the prefix; a query with a space gives its first word if it occurs once; the empty query panics on an index without ids and finds nothing otherwise |
| `TruncIndex.TruncIndex.Delete` | github.com/dotcloud/docker/utils/utils.go:358-370 | removes exactly id if no other id extends it, and changes nothing otherwise |
| `Netstring.DecodeStringAccepts` | github.com/docker/libchan/data/data.go:89-108 | accepts exactly a decimal length, a colon, that many bytes and a comma |
| `Netstring.StringEncoded` | github.com/docker/libchan/data/data.go:22-24 | a string is spelled with its length in decimal without needless zeros, a colon, its bytes and a comma |
| `Netstring.ListEncoded` | github.com/docker/libchan/data/data.go:31-37 | a list is its strings one behind the other, as a string |
| `Netstring.DecodeStringsAccepts` | github.com/docker/libchan/data/data.go:72-87 | a list is read exactly if it is netstrings one behind the other to the end, and as their strings |
| `Netstring.StringRoundTrip` | github.com/docker/libchan/data/data.go:22-24 | decoding gives the string back and consumes its encoding, whatever follows |
| `Netstring.DecodePanicsIff` | github.com/docker/libchan/data/data.go:89-108 | panics exactly on a length field from 2^63 - 1 up that fits 64 bits |
| `Netstring.ListRoundTrip` | github.com/docker/libchan/data/data.go:31-37 | the same for lists |
| `Netstring.HeaderRoundTrip` | github.com/docker/libchan/data/data.go:110-119 | the encoded header is accepted |
| `Netstring.HeaderRequired` | github.com/docker/libchan/data/data.go:110-119 | nothing is decoded unless the first three characters are a number 0 |
| `Netstring.MapRoundTrip` | github.com/docker/libchan/data/data.go:43-68 | every map comes back, in whatever order it was iterated |
| `Netstring.EncodingIsInjective` | github.com/docker/libchan/data/data.go:9-16 | two maps with one encoding are equal |
| `Netstring.WriteList` | github.com/docker/libchan/data/data.go:31-37 | the loop writes the netstring of the concatenated netstrings |
| `Netstring.Encode` | github.com/docker/libchan/data/data.go:9-16 | "000;" and every entry, in some order of the keys; the result decodes to the map |
| `Netstring.ReadList` | github.com/docker/libchan/data/data.go:72-87 | the loop over the shrinking input decodes as specified, errors and panics included |
| `Netstring.Decode` | github.com/docker/libchan/data/data.go:43-68 | the same for maps |
| `Netstring.Get` | github.com/docker/libchan/data/message.go:63-73 | the list of a key of the encoded map, empty without the key and for what is no message |
| `Netstring.UpdateMessage` | github.com/docker/libchan/data/message.go:30-61 | the result encodes the updated map; Set and Del panic on what is no message, Add returns it unchanged |
| `Netstring.UpdateLaws` | github.com/docker/libchan/data/message.go:30-61 | an update changes its own key as it says and no other, and the result is a message again |
| `UnixFrames.HeaderFaithfulIff` | github.com/docker/libchan/unix/unix.go:35-61 | parseHeader inverts makeHeader exactly up to 0x7fffffff bytes |
| `UnixFrames.HeaderOctets` | github.com/docker/libchan/unix/unix.go:46-61 | the four octets: the length, most significant first, with the highest bit set exactly for a descriptor |
| `UnixFrames.FrontFrame` | github.com/docker/libchan/unix/unix.go:169-211 | where the first message's header, payload and descriptor are on the wire |
| `UnixFrames.UnixConn.WriteAll` | github.com/docker/libchan/unix/unix.go:193-208 | the loop over short writes sends all bytes in order |
| `UnixFrames.UnixConn.Send` | github.com/docker/libchan/unix/unix.go:169-211 | puts one message on the wire behind the others, or nothing if it is refused |
| `UnixFrames.UnixConn.ReceiveUnix` | github.com/docker/libchan/unix/unix.go:154-167 | one read moves a nonempty part of the wire into the buffer, with at most one descriptor pending |
| `UnixFrames.UnixConn.Fill` | github.com/docker/libchan/unix/unix.go:118-127 | reading until the buffer is full takes exactly its length, whatever the fragments |
| `UnixFrames.UnixConn.Receive` | github.com/docker/libchan/unix/unix.go:108-152 | returns the next message with its own descriptor, or the end of the stream |
| `UnixFrames.Exchange` | github.com/docker/libchan/unix/unix.go:108-211 | any messages arrive as they were sent, in order, whatever the fragments on both sides |
| `PacketFilter.EvalIgnoresUnreferenced` | github.com/dcm-oss/blockade/blockade/net.py:219-238 | chains nothing jumps to do not change what happens to a packet |
| `PacketFilter.EvalDrops` | github.com/dcm-oss/blockade/blockade/net.py:219-238 | a chain of drops drops exactly what one of them matches |
| `PacketFilter.EvalJumps` | github.com/dcm-oss/blockade/blockade/net.py:219-238 | jumps into such chains drop a packet or leave it to the rules behind them |
| `PacketFilter.Iptables.NewChain` | github.com/dcm-oss/blockade/blockade/net.py:201-207 | creates an empty chain, or fails if it exists |
| `PacketFilter.Iptables.Insert` | github.com/dcm-oss/blockade/blockade/net.py:182-198 | the new rule becomes the first of its chain |
| `PacketFilter.Iptables.InsertForward` | github.com/dcm-oss/blockade/blockade/net.py:182-198 | the same for FORWARD |
| `PacketFilter.Iptables.DeleteForwardAt` | github.com/dcm-oss/blockade/blockade/net.py:137-150 | removes the rule at a position |
| `PacketFilter.Iptables.Flush` | github.com/dcm-oss/blockade/blockade/net.py:164-179 | empties a chain |
| `PacketFilter.Iptables.DeleteChain` | github.com/dcm-oss/blockade/blockade/net.py:164-179 | succeeds exactly on an empty chain nothing jumps to |
| `PacketFilter.Iptables.DeleteForwardRules` | github.com/dcm-oss/blockade/blockade/net.py:137-150 | deleting by position from the last to the first is filtering, the other rules in their order |
| `Partition.ParseChainName` | github.com/dcm-oss/blockade/blockade/net.py:65-76 | a chain name is read back by its own blockade with its index, and by no other |
| `Partition.ChainsKept` | github.com/dcm-oss/blockade/blockade/net.py:219-238 | compiling leaves all other chains as they are |
| `Partition.ChainsOwn` | github.com/dcm-oss/blockade/blockade/net.py:219-238 | each partition's chain has the drops for all other partitions |
| `Partition.DropsOthersMatch` | github.com/dcm-oss/blockade/blockade/net.py:225-233 | that chain drops exactly what goes to another partition |
| `Partition.JumpsAllAre` | github.com/dcm-oss/blockade/blockade/net.py:235-238 | FORWARD gets exactly the jumps from each container into its own partition's chain |
| `Partition.PartitionSeparates` | github.com/dcm-oss/blockade/blockade/net.py:219-238 | whatever the tables held before, a packet is dropped if it goes from one partition to another, and otherwise fares as before |
| `Partition.ClearUndoes` | github.com/dcm-oss/blockade/blockade/net.py:209-216 | clearing gives back exactly the tables from before the partition |
| `Blockade.ClearedIsForeign` | github.com/dcm-oss/blockade/blockade/net.py:209-216 | after clearing, nothing of the blockade is left |
| `Blockade.PartitionedIsClearable` | github.com/dcm-oss/blockade/blockade/net.py:219-238 | any partition in force can be cleared |
| `Blockade.BlockadeNetwork.DeleteBlockadeChains` | github.com/dcm-oss/blockade/blockade/net.py:164-179 | removes exactly the blockade's chains; it succeeds if nothing jumps to them, and not if another chain does |
| `Blockade.BlockadeNetwork.Clear` | github.com/dcm-oss/blockade/blockade/net.py:209-216 | jumps first and chains then, so that no chain is removed while referenced |
| `Blockade.BlockadeNetwork.InsertDrops` | github.com/dcm-oss/blockade/blockade/net.py:230-233 | one partition's addresses are dropped in front of the chain |
| `Blockade.BlockadeNetwork.InsertJumps` | github.com/dcm-oss/blockade/blockade/net.py:235-238 | one jump for each container, failing exactly on one without an address |
| `Blockade.BlockadeNetwork.PartitionOne` | github.com/dcm-oss/blockade/blockade/net.py:222-238 | one partition's chain and jumps, failing exactly on an existing chain or a missing address |
| `Blockade.BlockadeNetwork.PartitionContainers` | github.com/dcm-oss/blockade/blockade/net.py:219-238 | compiles all partitions, nothing for one or none |
| `Blockade.BlockadeNetwork.Repartition` | github.com/dcm-oss/blockade/blockade/net.py:57-59 | the same tables whatever partition was in force before; on clearable tables it fails exactly if several partitions have a container without an address |
| `Blockade.BlockadeNetwork.GetSourceChains` | github.com/dcm-oss/blockade/blockade/net.py:112-134 | reads the indices off the jumps of FORWARD |
| `Blockade.SourceChainsOfPartition` | github.com/dcm-oss/blockade/blockade/net.py:112-134 | maps an address to an index exactly if it belongs to that partition, counted from 1 |
| `Blockade.ExpandPartitions` | github.com/dcm-oss/blockade/blockade/core.py:243-274 | refuses unknown names and overlaps exactly when there are some, and otherwise adds one partition for the names left over, exactly if there are any |
| `Blockade.SeparatedByGroups` | github.com/dcm-oss/blockade/blockade/core.py:190-201 | the compiled partitions separate two containers exactly if no group has both |
| `Blockade.SeparatedIffApart` | github.com/dcm-oss/blockade/blockade/core.py:190-201 | the compiled partitions separate exactly the packets between running containers of different groups |
| `Blockade.CompiledKeepsApart` | github.com/dcm-oss/blockade/blockade/core.py:190-201 | a packet is dropped if it goes between running containers that no group has both of, and any other packet fares as in the cleared tables |
| `Blockade.Blockade.Partition` | github.com/dcm-oss/blockade/blockade/core.py:190-201 | validates, expands and compiles, with that effect on every packet; a refused partition leaves the tables alone; on clearable tables it fails exactly if there are several groups and a container without an address |
| `Blockade.Blockade.Join` | github.com/dcm-oss/blockade/blockade/core.py:203-205 | the tables as without any partition, failing only where another chain jumps to one of the blockade |
| `RegistryUpload.MarkedIff` | github.com/dotcloud/docker-registry/registry/images.py:65-134 | an image is marked by an accepted upload of its JSON, and the mark goes exactly when the stored checksum is among those computed from its layer, or a valid checksum is sent that is one of the session |
| `RegistryUpload.FinishedOnlyBy` | github.com/dotcloud/docker-registry/registry/images.py:65-134 | over every sequence of requests an image stays unfinished up to such a request, and is finished somewhere exactly if there is one |
| `RegistryUpload.SumIs` | github.com/dotcloud/docker-registry/registry/images.py:113-235 | the stored checksum is that of the last JSON request that got as far as its header, or of the last checksum request that was looked into, refused or not |
| `RegistryUpload.LayerIs` | github.com/dotcloud/docker-registry/registry/images.py:65-110 | the stored layer is the last one sent while the image was unfinished or had none, whether its checksum matched or not |
| `RegistryUpload.SessionIs` | github.com/dotcloud/docker-registry/registry/images.py:86-104 | a client's session has the sums of the last layer it sent for an image without a checksum |
| `RegistryUpload.DoneIff` | github.com/dotcloud/docker-registry/registry/images.py:65-241 | a request succeeds exactly if it is an accepted description, a matching checksum, or a layer that matches the stored checksum, if there is one |
| `RegistryUpload.RefusedAs` | github.com/dotcloud/docker-registry/registry/images.py:65-241 | exactly which requests are answered with not found, and which with a conflict |
| `RegistryUpload.CompleteIsFinal` | github.com/dotcloud/docker-registry/registry/images.py:21-28 | a finished image stays finished under every sequence of requests, with its JSON, its ancestry and, once present, its layer |
| `RegistryUpload.ServeKeepsComplete` | github.com/dotcloud/docker-registry/registry/images.py:65-134 | one request does not touch a finished image |
| `RegistryUpload.RefusedUploadSetsChecksum` | github.com/dotcloud/docker-registry/registry/images.py:213-235 | an upload refused for a finished image has already stored its header, or dropped the old checksum without one |
| `RegistryUpload.ChecksumKeptIff` | github.com/dotcloud/docker-registry/registry/images.py:194-235 | no other request changes a finished image's checksum: it is kept exactly if no such request names another |
| `RegistryUpload.ChecksumAlwaysKeptIff` | github.com/dotcloud/docker-registry/registry/images.py:194-235 | the same over every sequence of requests, as a condition on the requests alone |
| `RegistryUpload.LayersKeptIff` | github.com/dotcloud/docker-registry/registry/images.py:113-134 | a request leaves finished images with their layers exactly unless it is a checksum request for an unfinished image without one, valid and known to the session |
| `RegistryUpload.AlwaysHasLayersIff` | github.com/dotcloud/docker-registry/registry/images.py:113-134 | the same over every sequence of requests |
| `RegistryUpload.FinishedWithoutLayer` | github.com/dotcloud/docker-registry/registry/images.py:113-134 | a run in which the sums of one image's layer finish another image |
| `RegistryUpload.ServeKeepsAncestry` | github.com/dotcloud/docker-registry/registry/images.py:169-177 | every image has an ancestry, so the only server error is a body that does not parse |
| `RegistryUpload.AncestryKeptIffHarmless` | github.com/dotcloud/docker-registry/registry/images.py:203-241 | an accepted upload keeps ancestry(i) = [i] + ancestry(parent(i)) for all images exactly if the image is new, keeps its parent, or is nobody's parent |
| `RegistryUpload.AlwaysOkIffHarmless` | github.com/dotcloud/docker-registry/registry/images.py:203-241 | the same over every sequence of requests |
| `RegistryUpload.OneParentIsHarmless` | github.com/dotcloud/docker-registry/registry/images.py:203-241 | uploads that always name the same parent are harmless |
| `RegistryUpload.AncestrySuffix` | github.com/dotcloud/docker-registry/registry/images.py:169-177 | every suffix of an ancestry is the ancestry of its first image |
| `RegistryUpload.AncestryIsThePath` | github.com/dotcloud/docker-registry/registry/images.py:169-177 | then an ancestry starts with its image, names nobody twice, goes from child to parent and ends at an image without a parent |
| `RegistryUpload.Registry.StoreChecksum` | github.com/dotcloud/docker-registry/registry/images.py:194-200 | stores a checksum exactly if it has two parts |
| `RegistryUpload.ValidChecksumIff` | github.com/dotcloud/docker-registry/registry/images.py:194-200 | two parts are exactly one colon |
| `RegistryUpload.Registry.GenerateAncestry` | github.com/dotcloud/docker-registry/registry/images.py:169-177 | the image in front of its parent's ancestry, failing exactly if there is none |
| `RegistryUpload.Registry.HandlePutJson` | github.com/dotcloud/docker-registry/registry/images.py:203-241 | the handler writes and answers as the request specification says |
| `RegistryUpload.Registry.HandlePutLayer` | github.com/dotcloud/docker-registry/registry/images.py:65-110 | the same for layers, with the comparison of the stored checksum |
| `RegistryUpload.Registry.HandlePutChecksum` | github.com/dotcloud/docker-registry/registry/images.py:113-134 | the same for checksums |
| `TarSum.OrderIndependent` | github.com/dotcloud/docker/utils/tarsum.go:145-158 | the checksum does not depend on the order of the entries, for any hash function |
| `TarSum.SameChecksumSameEntries` | github.com/dotcloud/docker/utils/tarsum.go:145-158 | equal checksums mean the same entries, unless two of the strings hashed have one digest |
| `TarSum.ChecksumIs` | github.com/dotcloud/docker/utils/tarsum.go:145-158 | what is hashed is the extra bytes and the digests in ascending byte order, one behind the other |
| `TarSum.LeqIff` | github.com/dotcloud/docker/utils/tarsum.go:146 | the order is that of the bytes: a string is not after another exactly if it is a prefix of it or has the smaller byte where they first differ |
| `TarSum.HeaderSpelled` | github.com/dotcloud/docker/utils/tarsum.go:38-61 | the text of a header in full: twelve names, each in front of its value |
| `TarSum.ItoaIs` | github.com/dotcloud/docker/utils/tarsum.go:38-61 | numbers are spelled in decimal, with a minus sign only below zero and no needless zeros |
| `TarSum.SortStrings` | github.com/dotcloud/docker/utils/tarsum.go:146 | the strings in ascending byte order, each as often as before, whatever the algorithm |
| `TarSum.TarReader.Read` | github.com/dotcloud/docker/vendor/src/github.com/dotcloud/tar/reader.go:377-393 | some nonempty next part of the entry's body, the end of file exactly when it is used up |
| `TarSum.TarReader.Next` | github.com/dotcloud/docker/vendor/src/github.com/dotcloud/tar/reader.go:43-54 | on to the next entry, or the end of the archive |
| `TarSum.TarSum.EncodeHeader` | github.com/dotcloud/docker/utils/tarsum.go:38-61 | feeds the twelve fields, each with its name, to the hash |
| `TarSum.TarSum.Read` | github.com/dotcloud/docker/utils/tarsum.go:63-143 | keeps the digests of the entries passed and the hash of what was read of the current one, for any buffer size; nonempty buffers bring the end nearer, and the end of file comes only after the archive is used up |
| `TarSum.TarSum.EndOfEntry` | github.com/dotcloud/docker/utils/tarsum.go:83-92 | the digest of the entry that was read is added, none at the very beginning |
| `TarSum.TarSum.NextHeader` | github.com/dotcloud/docker/utils/tarsum.go:94-119 | the hash has the next header, or the stream is finished with all digests |
| `TarSum.TarSum.ReadAll` | github.com/dotcloud/docker/utils/tarsum.go:63-143 | a client that reads to the end terminates and leaves the stream finished, with any nonempty buffers |
| `TarSum.TarSum.Sum` | github.com/dotcloud/docker/utils/tarsum.go:145-158 | hashes the extra bytes and the digests in ascending byte order |
| `TarSum.StreamingSum` | github.com/dotcloud/docker/utils/tarsum.go:63-158 | reading an archive through in any pieces gives the checksum of its entries |
| `TarSum.MemberHeader` | github.com/dotcloud/docker-registry/lib/checksums.py:34-42 | spells the same fields, with a slash behind the name of a directory |
| `TarSum.NormalisedName` | github.com/dotcloud/docker-registry/lib/checksums.py:34-42 | the slash is added exactly to a directory whose name has none at its end, and nothing else changes |
| `TarSum.Sha256File` | github.com/dotcloud/docker-registry/lib/checksums.py:11-20 | reading in pieces gives the digest of the whole |
| `TarSum.ComputeTarsum` | github.com/dotcloud/docker-registry/lib/checksums.py:27-65 | the checksum of the members |
| `TarSum.SameTextIff` | github.com/dotcloud/docker-registry/lib/checksums.py:43-51 | for an entry with one header, both programs hash the same text exactly if it is empty or can be extracted |
| `TarSum.StreamingIsBatch` | github.com/dotcloud/docker-registry/lib/checksums.py:27-65 | then both programs give one checksum, whatever the order of the entries |
| `Rearrange.MapPermutes` | github.com/dotcloud/docker/utils/tarsum.go:145-158 | rearranged entries have rearranged digests |
| `Rearrange.MapReflects` | github.com/dotcloud/docker/utils/tarsum.go:145-158 | and conversely, if no two of them have one digest |
| `Rearrange.SortedUnique` | github.com/dotcloud/docker/utils/tarsum.go:146 | there is one way to sort |

## Left out

- Network.NetworkManager.Allocate: a disabled manager, and the gateway and mask of the interface, which are only copied.
- IpAllocator.RangeOfBlock: blocks /0, /1, /31 and /32, on which the allocator has no usable range.
- IpAllocator.IPAllocator.Release: an address outside the block, which would put the search position outside its range; with ghosts in the block none is ever held.
- NetworkRun.StepKeepsSafe: ghosts with an address outside the block, and ghosts registered after the first call; a search is one step.
- Network.NetworkManager.AllocateNetwork: a ghost with an address outside the block; a call that waits for a port for ever (`Pending`) keeps the ports and the address it has; the container's own settings fields are not modelled.
- Network.PortMapper.Map: the user-space proxies themselves; the tcp and udp halves are one map with the protocol in the key; the iptables commands and proxies are a choice of success or failure.
- ImagePrune.Server.DeleteImage: the guess of the repository name before the untag step (github.com/dotcloud/docker/server.go:1057-1072), and `ImageDelete` without automatic pruning.
- ImagePrune.Server.DeleteImageAndChildren: image directories on disk, and `TagStore.DeleteAll`, which finds no tag where it is called, because the image has none.
- ImagePrune.Server.Untag: the store file is written and read by one process, so `Reload` and `Save` change nothing.
- ImageGraph.UpAfter: `getParentsSize`, which only adds sizes along the same walk, and truncated ids, because `Graph.Get` is called with full ids (see `TruncIndex.FullIds`).
- PushOrder.GetImageList: `DependencyGraph.Exists`, which would only add an easy member.
- Pipe.EveryRun: the message count of `SendTo`, nested receivers and the attachments of messages; a message is its payload.
- Pipe.StepKeepsInv: fairness of the scheduler; what is proved is that nobody waits unsignalled without reason.
- Netstring.StringRoundTrip: strings of 2^63 - 1 bytes and more, which no Go string has.
- UnixFrames.UnixConn.Receive: an operating-system error in the middle of a message, and closing surplus descriptors; the wire carries each descriptor with the first byte of its header.
- PacketFilter.EvalJumps: other tables and built-in chains than FORWARD in the filter table, and the text of iptables' output beyond chain names and source addresses.
- Blockade.Blockade.Partition: two running containers with one address; which rules are left when clearing fails; loading the state file and asking Docker for the running containers; they are a parameter.
- RegistryUpload.Registry.HandlePutLayer: the layer's bytes and how its sums are computed (a parameter); a request is one step, and two requests do not interleave.
- RegistryUpload.Registry.HandlePutJson: parent names that are no text, and the check against the session's image list, which is a parameter.
- TarSum.TarSum.Read: malformed archives, the compressed output itself (only how many bytes wait), and failing writers.
- TarSum.TarReader.Next: the extended headers that rename the entry behind them; an entry has its final header.
- TarSum.ComputeTarsum: how Python's tarfile reads an archive, and time stamps with fractions; a member has whole numbers.
- TarSum.SortStrings: the sorting algorithms of the two libraries; any sorted rearrangement may be returned.
- `SendTo`, HTTP routing, registry clients, command lines, container start and streams, other web and configuration code: input and output without an invariant of its own.
