# PathWeaver in Dafny

PathWeaver is a controller for an SD-WAN of WireGuard links. Nodes enrol under a parent, so
they form a control tree; the controller keeps nodes, links and endpoint rows in a database,
compiles them into one desired state per node, and rolls out releases along the tree. This
project models that behaviour and proves properties of it that no single function states.

| module | models |
|---|---|
| `Prelude`, `Sorting`, `Model` | options, sequences, sorted lists; nodes, links, endpoint rows, compiled states |
| `Walks`, `ControlTree` | walks and simple paths; parent maps, ancestors, depth, uniqueness of tree paths |
| `Topology`, `ShortestHop` | `internal/topology/graph.go`: link scans, the bounded tree walk, breadth-first search |
| `Routing` | `internal/routing/compile.go`: AllowedIPs and routes of every node |
| `Delivery`, `Partition`, `Agreement` | what the separately compiled states say together; how AllowedIPs divide the tree; that the two searches agree |
| `Netd`, `DataPlane` | `internal/netd`: device texts, device reconciliation, routes, applying a state |
| `Forwarding`, `Shortcuts` | what the installed devices and routes do with packets, and what a link outside the tree does to them |
| `UpdateRun`, `UpdateSafety`, `UpdateCompletion`, `UpdateHandlers` | the release orchestrator as a transition system, its invariant and measure, endless executions, and the handlers and agent that drive it |
| `Overlay`, `Enrolment`, `Tables`, `Repair`, `Store`, `StoreShape`, `StoreSafety` | address and port allocation, requests, the database with its handlers, what every sequence of operations keeps |
| `Handshake`, `Network`, `Connectivity` | who dials whom; from the store to the compiled graph; who reaches whom |
| `RateLimit`, `Dedup` | the sliding-window limiter and the expiring seen-set against their full histories |
| `Witnesses`, `DeepTrees` | inputs at which the limits of the main theorems show: colliding names, a port with two owners, a network without addresses; trees that are too deep |

Methods carry the loops and in-place updates of the Go code and are proved against
specification functions or relations on snapshots; lemmas about those relations give the
properties. The main results:

* **Delivery.** Whenever the controller offers a first hop from one node to another, the compiled
  states carry packets along the unique simple tree path, each receiver accepting the sender on the
  very link the sender used, if and only if the destination is at most 1025 levels deep. Over the
  devices and routes that the daemons install, packets arrive if and only if, besides, the link of
  every edge is at both ends the last configured one of its interface name. No run leaves the path,
  so none loops, and there is no other way for a packet to arrive.
* **Partition.** A node's AllowedIPs are disjoint; a child link holds that child's subtree, the
  parent link everything outside the node's own subtree, every other link nothing. In the compiled
  states a link outside the tree changes nothing else; at a node it leaves all other devices alone
  exactly if its interface name is new there, or empty, or a later link keeps it.
* **Two searches, one answer.** Breadth-first search is exact; on a backbone of one link per
  tree edge it returns what the tree walk returns.
* **Updates.** Under any interleaving of polls, reports, deletions, clock ticks and crashes,
  installs are granted one at a time in non-increasing depth order, never to a controller; every
  run ends within a bound; with finitely many crashes a started job is completed and stays so.
* **Store.** Every sequence of operations keeps one controller at the root of a forest, no
  dangling rows, distinct overlay addresses, one owner per (node, port), ports that are UDP ports,
  names derived from ids, and both rows of every link. One repair pass normalises all links, and
  after publishing the two devices of every configured link have their dialling roles; no two
  devices of a node listen on one port.
* **Together.** Once published and applied, a store in order connects every node with every other
  if and only if no node is more than 1025 levels deep and every node's first enabled link to its
  parent is at both ends the last one towards a peer with the same four-character prefix. From
  bootstrap on, until an enrolment lacks a port or a link is disabled or deleted, the links are
  there; peers whose ids differ in four characters are enough for the rest.

Behaviour of the code that the proofs bring out:

* The tree walk allows 1025 edges above each end, the stored depth only 1000: `NodeDepth` fails
  beyond that and the job row keeps 0, so deepest-first order is leaf-first exactly on trees of
  depth at most 1000 (`UpdateSafety.DepthOrderIffShallow`, `DeepTrees.DeepNodeSortsLast`).
* A packet can have a first hop and a destination below level 1025 and still be lost, because the
  destination's own walk fails and it accepts nobody (`DeepTrees.DeepDestinationIsLost`,
  `DeepTrees.DeepDestinationGetsNothing`).
* Interface names keep four characters of each id and nothing makes them unique. The second of two
  children with one prefix takes the parent's device from the first, and no packet passes between
  the first and its parent any more, in either direction (`Connectivity.SecondChildTakesDevice`,
  `Connectivity.FirstChildUnreachable`, `Witnesses.DeployCollision`).
* The daemon takes its routes from the AllowedIPs and skips table 0 (internal/netd/netd.go:188-192);
  in a store in order table 0 names the same interfaces (`Connectivity.RouteDeviceIsInterface`).
* A completed install is overwritten with `InstallFailed` if, when the wait's guard is next tested,
  the deadline has passed, and only then (`UpdateHandlers.LateAnswerOverwritten`, and over all
  interleavings `UpdateHandlers.AnswerKeptIff`).
* When setting a device's configuration fails, the old fingerprint stays; going back to the old
  configuration is then skipped and the device keeps whatever the failed call left
  (`Netd.RevertAfterFailedUpdate`).
* The overlay allocator never tries hosts outside the block of its base address; a prefix longer
  than 16 whose low half is not zero offers no address, except a /32 ending in 1
  (`Overlay.CandidatesExact`; 10.0.1.0/24 in `Witnesses.NoAddressOffered`).
* Link creation does not check that the initiator is one of the two ends; naming a third node
  leaves a malformed row and can give one port two owners (`StoreSafety.CreateKeepsDbExactly`,
  `StoreSafety.ForeignInitiatorClash`; an input in `Witnesses.ForeignInitiator`).
* Enrolment inserts the node before it asks for a port, so a full pool leaves an unlinked node
  (`Store.LinkOutcome`); a failed allocation may still have cut the port pool.
* `SignatureInvalid` and `RolledBack` end the wait for prefetch, and are then overwritten with
  `DownloadFailed` (`UpdateHandlers.MarkedIffNotKept`).
* The documentation lists the neighbour's own address among the AllowedIPs of every peer
  (docs/WIREGUARD.md:50); the code, which the model follows, leaves links outside the tree empty.
* `nodePublicAdvertise` skips only the exact type `lan`, `nodeHasPublicDialable` any spelling of it;
  `Repair.TestsDifferIff` says at which nodes the two disagree.

## Model

| member | source | states |
|---|---|---|
| `ControlTree.SimplePathUnique` | internal/topology/graph.go:173-212 | two nodes of a rooted tree are joined by at most one simple path |
| `ControlTree.NoCycle` | internal/storage/nodes.go:204-221 | a node that reaches a root is not its own proper ancestor |
| `ControlTree.AncDepth` | internal/storage/nodes.go:204-221 | the k-th ancestor exists exactly up to the depth, and is k levels higher |
| `ControlTree.PathDepth` | internal/topology/graph.go:173-212 | no node on a tree path is deeper than the deeper end; going down, none is deeper than the destination |
| `Topology.FirstLinkIsFirst` | internal/topology/graph.go:215-228 | the link chosen between two nodes is the enabled one with the least list position, and exists exactly if any is enabled |
| `Topology.FirstLinkSymmetric` | internal/topology/graph.go:215-228 | both ends choose the same link |
| `Topology.HasDirectLink` | internal/topology/graph.go:42-52 | true exactly for pairs joined by an enabled link |
| `Topology.LinkToward` | internal/topology/graph.go:215-228 | the first enabled link with the local interface name, failing exactly when the pair is not joined |
| `Topology.ValidatePath` | internal/topology/graph.go:54-73 | no error exactly for simple paths of at least two nodes over enabled links; otherwise the error belongs to the first bad hop |
| `Topology.GoodHopsAreSimple` | internal/topology/graph.go:54-73 | the hop-by-hop checks add up to the path being simple and linked |
| `Topology.ControlTreePath` | internal/topology/graph.go:173-212 | ends on every parent map, cyclic ones too; succeeds exactly when the source's root is at most 1025 edges up and some common ancestor at most 1025 above the destination; then returns the only simple path |
| `Topology.JoinedChains` | internal/topology/graph.go:196-211 | the upward chain to the lowest common ancestor followed by the downward chain is a simple path |
| `Topology.RoutableHasPath` | internal/topology/graph.go:173-212 | the walk's success condition implies a simple tree path |
| `Topology.ControlNextHop` | internal/topology/graph.go:145-170 | the second node of the tree path over the first enabled link, provided every edge of the path is linked |
| `ShortestHop.EnabledAdj` | internal/topology/graph.go:82-97 | the map lists for each node one neighbour per enabled link end, in list order |
| `ShortestHop.NeighborsAreLinks` | internal/topology/graph.go:82-97 | neighbours are exactly the ends of enabled links, self-loops and parallel links included |
| `ShortestHop.CompleteBelow` | internal/topology/graph.go:116-139 | the search has met every node up to its current level, on shortest walks |
| `ShortestHop.NextHop` | internal/topology/graph.go:107-141 | succeeds exactly for two different non-empty nodes that are connected; the hop is a link from the source that starts a shortest walk |
| `Agreement.FirstHopIsCloser` | internal/topology/graph.go:107-141 | the returned peer is joined to the source by an enabled link and is one step closer to the destination |
| `Agreement.SearchEqualsTreeWalk` | internal/topology/graph.go:107-170 | with one enabled link per tree edge and depth at most 1025, breadth-first search and the tree walk return the same peer, interface, link and success flag |
| `Routing.AppendUniqueCIDR` | internal/routing/compile.go:162-173 | adds a non-empty element once, keeps the others and their order |
| `Routing.AppendOverlayRoute` | internal/routing/compile.go:175-194 | adds a destination to table 0 once; other tables stay as they were |
| `Routing.LinkConfig` | internal/routing/compile.go:61-115 | the branch-by-branch interface equals the declarative one: first endpoint row of the node, then the listener defaults |
| `Routing.ConfigureLinks` | internal/routing/compile.go:53-120 | one interface per enabled or pending incident link, in link order, indexed by link id |
| `Routing.CompileNode` | internal/routing/compile.go:33-146 | an address is in the AllowedIPs of a link exactly if the control hop towards its node uses that link; routes are the first ones per destination |
| `Routing.Compile` | internal/routing/compile.go:19-149 | every node, and nothing else, gets its compiled state |
| `Routing.AddRouteTo` | internal/routing/compile.go:123-138 | one more node: its address joins the AllowedIPs of the hop's link and table 0, or nothing changes without a hop |
| `Routing.HopIsIncident` | internal/routing/compile.go:131-134 | the hop's link always has an interface, so the lookup that would skip a route never fails |
| `Sorting.SortAscends` | internal/routing/compile.go:140-142 | lists without repetitions come out strictly ascending |
| `Sorting.AscendingIsUnique` | internal/routing/compile.go:140-142 | a sorted list is determined by its elements |
| `Routing.CompiledOnce` | internal/routing/compile.go:19-149 | a node has exactly one compiled list of interfaces, AllowedIPs in order included |
| `Delivery.AllowedIffHop` | internal/routing/compile.go:123-138 | with distinct addresses, an interface holds a node's address exactly if it is the hop to that node |
| `Delivery.RouteIsHop` | internal/routing/compile.go:123-138 | table 0 routes a node's address to a device exactly if the hop to it uses that device |
| `Delivery.HopForwards` | internal/routing/compile.go:123-138 | in the compiled state, one link holds a destination, and table 0 routes it over that link's own interface name |
| `Delivery.HopAlongPath` | internal/topology/graph.go:145-170 | a linked simple path between two nodes at most 1025 deep determines the control hop |
| `Delivery.HopsFromInside` | internal/topology/graph.go:145-212 | every node inside a path chooses the path's next node towards the destination and its previous one towards the source |
| `Delivery.Delivery` | internal/routing/compile.go:122-138 | if the first hop exists, all compiled states along the unique path carry the packet and every receiver's state accepts its source on the same link, exactly when the destination is at most 1025 deep |
| `Delivery.LastHopShallow` | internal/topology/graph.go:180-188 | delivery implies the depth bound |
| `Delivery.RunsAreOnPath` | internal/routing/compile.go:122-138 | any sequence of table lookups from the source stays on the path and ends at the destination: no loop, no visit twice |
| `Delivery.StopsAtDestination` | internal/routing/compile.go:124-126 | the destination forwards its own address nowhere |
| `Partition.RouteIffReaches` | internal/routing/compile.go:122-138 | in a shallow forest a node is routed exactly if the enabled tree path to it is complete |
| `Partition.SubtreePartition` | internal/routing/compile.go:116-138 | a first child link holds exactly the reachable nodes of that subtree, the first parent link those outside the node's own subtree, all other links nothing |
| `Partition.AllowedIPsDisjoint` | internal/routing/compile.go:116-138 | an address is in the AllowedIPs of at most one link, and is some other node's |
| `Shortcuts.ShortcutSameHop` | internal/topology/graph.go:145-228 | a link between nodes that are not parent and child changes no control hop, wherever it stands in the list |
| `Shortcuts.ShortcutsChangeNothing` | internal/routing/compile.go:116-138 | in the compiled states such a link changes no route and no AllowedIPs of any other link, and gets none itself |
| `UpdateSafety.InvStep` | internal/controller/policy_handlers.go:429-686 | every orchestrator step, report, deletion, tick, crash and start keeps the run invariant |
| `UpdateSafety.ReachableInv` | internal/controller/policy_handlers.go:429-686 | the invariant holds in every reachable state |
| `UpdateSafety.InstallIsLeafFirst` | internal/controller/policy_handlers.go:521-578 | whatever node InstallNodeID names is the target whose turn it is, no controller, and the only one that can be told to install; every descendant of it in the job has already had its turn |
| `UpdateSafety.GrantsDescend` | internal/controller/policy_handlers.go:521-578 | grants follow the list: no node twice, never deeper again, never a controller |
| `UpdateSafety.SettledWasTerminal` | internal/controller/policy_handlers.go:528-572 | a turn ends only on a terminal status, or by setting one |
| `UpdateSafety.AllTurnsSettled` | internal/controller/policy_handlers.go:521-608 | when the install loop is over every other target's status was terminal in its turn |
| `UpdateSafety.DepthOrderIffShallow` | internal/storage/nodes.go:204-221 | stored depths put each node below its parent if and only if no node is more than 1000 deep |
| `UpdateSafety.RoundsAreBounded` | internal/controller/policy_handlers.go:458-569 | at most 300 prefetch rounds, and 300 rounds for each grant |
| `UpdateSafety.RankDecreases` | internal/controller/policy_handlers.go:429-629 | each orchestrator step lowers a bounded measure |
| `UpdateSafety.BoundedRun` | internal/controller/policy_handlers.go:429-686 | whatever agents do, the number of steps is at most one full run, plus one for every crash |
| `UpdateSafety.NeverStuck` | internal/controller/policy_handlers.go:429-686 | a step is possible until the orchestrator is idle, and then no job is running and none is active |
| `UpdateSafety.StartedStaysStarted` | internal/controller/policy_handlers.go:608-686 | a started job is never unstarted, so an idle orchestrator has completed it |
| `UpdateCompletion.StartedJobCompletes` | internal/controller/policy_handlers.go:429-686 | in every endless execution with finitely many crashes and an orchestrator that is not starved, a started job is completed at some instant and from then on |
| `UpdateHandlers.Server.CreateUpdate` | internal/controller/policy_handlers.go:391-395 | one waiting row per node, at the depth NodeDepth gives or 0 |
| `UpdateHandlers.NewJobIsInitial` | internal/controller/policy_handlers.go:391-395 | these rows are what the transition system starts from |
| `UpdateSafety.CrashRecovery` | internal/controller/policy_handlers.go:646-686 | a restart after any crash closes the job if all rows are terminal, and otherwise runs it again from the rows |
| `UpdateSafety.SelfRestartDoesNotRerun` | internal/controller/policy_handlers.go:608-628 | the restart a run asks for finds its job completed |
| `UpdateSafety.ListingExists` | internal/storage/policies.go:427-446 | every set of rows has a deepest-first listing |
| `UpdateHandlers.OrderByDepth` | internal/storage/policies.go:427-446 | each row once, deepest first |
| `UpdateHandlers.Server.ListUpdateTargets` | internal/storage/policies.go:427-446 | the rows of one job, each once, deepest first |
| `UpdateHandlers.Server.UpdateTargetStatus` | internal/storage/policies.go:461-465 | one row's status; nothing else changes |
| `UpdateHandlers.Server.HandleAgentUpdate` | internal/controller/bootstrap.go:366-417 | no job, no reply; prefetch to every node; install exactly to the current grantee while staged or installing |
| `UpdateHandlers.Server.HandleAgentUpdateReport` | internal/controller/bootstrap.go:419-447 | the report step of the transition system: the node's row in that job, and the memory of the job if it is active |
| `UpdateHandlers.Server.SetUpdateNodeStatus` | internal/controller/policy_handlers.go:631-643 | the status step of the transition system |
| `UpdateHandlers.Agent.PollUpdate` | internal/agent/agent.go:270-319 | up to two reports per reply, in order, each of which may be lost, the second telling how it ended; a restart only after a completed install |
| `UpdateHandlers.Agent.ReportUpdate` | internal/agent/agent.go:387-397 | one report, or none if the post fails |
| `UpdateHandlers.ReportAnswers` | internal/controller/bootstrap.go:437-443 | the last report of a grantee answers its grant |
| `UpdateHandlers.AnsweredGrantEnds` | internal/controller/policy_handlers.go:556-577 | an answered grant is not offered again and ends within three steps of the orchestrator, whatever else happens in between |
| `UpdateHandlers.LateAnswerOverwritten` | internal/controller/policy_handlers.go:556-572 | at the guard of the wait, an answer survives the next two steps if and only if the deadline has not passed; otherwise row and memory say InstallFailed |
| `UpdateHandlers.AnswerKeptIff` | internal/controller/policy_handlers.go:556-577 | under any interleaving, when the grant is about to be withdrawn a completed or rolled back install still has the status its node reported if and only if the guard was never tested after the deadline; otherwise it is InstallFailed |
| `UpdateHandlers.MarkedIffNotKept` | internal/controller/policy_handlers.go:488-508 | the pass after prefetch sets DownloadFailed exactly for targets that are no controller and whose status is not kept; of the statuses that end the wait these are SignatureInvalid and RolledBack |
| `Overlay.ContainsIff` | internal/storage/nodes.go:131-138 | a candidate lies in the network exactly if it is in the block of the base address |
| `Overlay.CandidatesExact` | internal/storage/nodes.go:131-138 | the loop's candidates are exactly a first part, with its exact length, before the first one outside |
| `Overlay.CountOfAlignedNetwork` | internal/storage/nodes.go:131-138 | for a base ending in two zero octets and prefix p at least 16, candidate i lies in the network exactly if i is at most 2^(32-p)-1, and there are min(65533, 2^(32-p)-1) of them |
| `Overlay.CandidatesDiffer` | internal/storage/nodes.go:131-139 | different candidates are written differently, so they are that many addresses |
| `Overlay.DottedDiffer` | internal/storage/nodes.go:139 | dotted-decimal text determines the four octets |
| `Overlay.RoomLeft` | internal/storage/nodes.go:113-145 | with fewer addresses in use than candidates the pool is not exhausted |
| `Overlay.AllocateOverlayIPv4` | internal/storage/nodes.go:113-145 | the least unused candidate; fails exactly when all are taken or the network is not IPv4 |
| `Tables.EnrollKeepsTree` | internal/controller/bootstrap.go:209-225 | a new node below an existing one keeps a single root and every node below it |
| `Tables.DeleteKeepsTree` | internal/storage/nodes.go:254-379 | so does removing a childless node that is not the controller |
| `Tables.AddLinkKeepsPorts` | internal/storage/links.go:137-181 | ports unused at their nodes keep ownership unique |
| `Tables.GrowKeepsPorts` | internal/storage/links.go:137-181 | claims of one link on ports nobody used keep ownership unique |
| `Tables.UsedIffOwned` | internal/storage/links.go:149-175 | the two queries find exactly the owned ports |
| `Tables.DropKeepsEndpoints` | internal/storage/links.go:104-118 | removing links with their rows leaves no endpoint without a link |
| `Store.Controller.Bootstrap` | internal/controller/bootstrap.go:450-505 | the first row is the controller with the first candidate address; fails exactly when the network offers none |
| `Store.Controller.NodeDepth` | internal/storage/nodes.go:204-221 | the true number of edges when at most 1000, otherwise an error and 0 |
| `Store.Controller.AllocateWGPort` | internal/storage/links.go:137-181 | the least free port of the pool, which at a node nobody can dial is first cut to its first port; fails exactly when the pool so cut is full |
| `Store.Controller.CollectPorts` | internal/storage/links.go:149-175 | listener ports of link rows and positive ports of endpoint rows at the node |
| `Store.Controller.Enroll` | internal/controller/bootstrap.go:64-269 | each refusal has its own reason, the first failing check deciding, and changes nothing; otherwise one node row with the least address, the requested keys and pool, and a one-way link dialled by the child on the least free port of the parent's pool, cut to one port unless the parent is public, missing exactly when that pool is full |
| `Store.EnrollOutcomeIsStep` | internal/controller/bootstrap.go:97-269 | every outcome is one of the table steps the run theorem covers |
| `Store.EnrollHasRoom` | internal/controller/bootstrap.go:111-115 | no enrolment is refused for want of an address while there are fewer nodes than candidates |
| `Enrolment.LanPoolIsOnePort` | internal/controller/bootstrap.go:165-207 | a node that is not public gets a pool of one port, range start before listen port before default |
| `Enrolment.BroughtKeysAreUsable` | internal/controller/bootstrap.go:121-136 | keys that a request brings are non-empty and different |
| `Store.Controller.CheckLink` | internal/controller/nodes_handlers.go:221-254 | each refusal with its exact reason; otherwise the listener and the address its peer will dial |
| `Store.Controller.PlanPorts` | internal/controller/nodes_handlers.go:255-266 | least free ports for the listener and, if asked, the initiator, each from a pool cut to one port unless the node is public; fails only when one of these pools is full |
| `Store.Controller.PlanEndpoints` | internal/controller/nodes_handlers.go:286-318 | the dialling and the listening row, whichever end initiates |
| `Store.Controller.CreateLink` | internal/controller/nodes_handlers.go:208-324 | each refusal has its own reason and writes no link; otherwise the requested link and its two rows, on ports drawn from pools cut to one port at nodes that are not public |
| `Store.Controller.UpdateLink` | internal/controller/nodes_handlers.go:335-383 | the flags of one link, refused exactly when a bidirectional link lacks a dialable side or the link is missing |
| `Store.Controller.DeleteLink` | internal/storage/links.go:104-118 | the link and all its endpoint rows, nothing else |
| `Store.Controller.DeleteNode` | internal/storage/nodes.go:306-379 | succeeds exactly for a childless node that is not the controller, and removes it with all its links and their rows |
| `Store.Controller.RepairLink` | internal/controller/policy_handlers.go:223-312 | one link's rows take their repaired shape; a port is drawn, from the pool as cut, only for a sustainable bidirectional link whose initiator has none |
| `Repair.TestsDifferIff` | internal/controller/policy_handlers.go:204-215 | a node with a public address has one to advertise; the two tests differ exactly at nodes all of whose dialable addresses have some spelling of "lan" as type, one of them another than "lan" |
| `Store.Controller.RepairLinkEndpoints` | internal/controller/policy_handlers.go:218-313 | that, for every link in order |
| `Store.Controller.PublishConfig` | internal/controller/policy_handlers.go:179-203 | after the repair pass every node has its compiled state; states of removed nodes stay |
| `StoreSafety.DeleteKeepsTables` | internal/storage/nodes.go:306-379 | tables stay in order and nothing names the removed node |
| `StoreSafety.EnrollKeepsDb` | internal/controller/bootstrap.go:209-269 | enrolment keeps tree, references, addresses and port ownership |
| `StoreSafety.CreateKeepsDb` | internal/controller/nodes_handlers.go:208-318 | creating a link between two different nodes, one of them the initiator, keeps them |
| `StoreSafety.CreateKeepsDbExactly` | internal/controller/nodes_handlers.go:208-318 | and only then |
| `StoreSafety.ForeignInitiatorClash` | internal/controller/nodes_handlers.go:286-318 | a third node as initiator gives a port of the first end a second owner whenever it had one |
| `StoreSafety.FlagsKeepTables` | internal/storage/links.go:95-129 | changing flags keeps the tables in order |
| `StoreSafety.RepairStepKeeps` | internal/controller/policy_handlers.go:223-312 | repairing a link keeps the tables, leaves it in shape unless allocation failed, does nothing if it was in shape, and leaves other links in shape |
| `StoreSafety.RepairPassKeeps` | internal/controller/policy_handlers.go:218-313 | the same of a whole pass |
| `StoreSafety.RepairIsIdempotent` | internal/controller/policy_handlers.go:218-313 | after a pass without failed allocation, a second pass changes nothing |
| `StoreSafety.OpKeepsStore` | internal/storage/links.go:137-181 | each operation keeps the store invariant |
| `StoreShape.EnrollKeepsShape` | internal/controller/bootstrap.go:233-269 | an enrolment link has a UDP port, names from the two ids, and both rows |
| `StoreShape.CreateKeepsShape` | internal/controller/nodes_handlers.go:255-318 | so has a requested link |
| `StoreSafety.StoreRunKeeps` | internal/storage/links.go:137-181 | over every sequence of enrol, create, toggle, repair, delete link and delete node: forest, references, addresses, port ownership, port ranges, interface names and both rows of every link |
| `StoreSafety.DepthIsRootAt` | internal/storage/nodes.go:204-221 | walking parent columns and counting ancestors in the parent map agree |
| `StoreSafety.StoredDepthIsNodeDepth` | internal/controller/policy_handlers.go:357-399 | the depth a job row stores is the one the leaf-first theorem speaks of |
| `Netd.BuildUAPI` | internal/netd/wg_userspace.go:131-175 | private key, port if any, replace peers, peer key, distinct addresses, then endpoint and keepalive if dialling; errors in their order |
| `Netd.AllowedLinesExact` | internal/netd/wg_userspace.go:149-160 | compiled addresses come out one line each, in order |
| `Netd.CompiledAddressIsCanonical` | internal/routing/compile.go:151-160 | what the compiler writes, the device code neither trims nor extends |
| `Netd.DeviceAllowsCompiled` | docs/WIREGUARD.md:50 | the device gets exactly the compiled AllowedIPs, one line each |
| `Netd.Manager.CloseAll` | internal/netd/wg_userspace.go:37-44 | no device is left |
| `Netd.Manager.CloseUnwanted` | internal/netd/wg_userspace.go:59-66 | exactly the devices nobody wants are closed |
| `Netd.Manager.Ensure` | internal/netd/wg_userspace.go:74-106 | untouched if its fingerprint matches, else running the new text, else the old fingerprint or no device |
| `Netd.Manager.Reconcile` | internal/netd/wg_userspace.go:47-109 | for any map order and any failures: live devices are within the wanted ones, on success exactly those with their fingerprints; every recorded fingerprint was set successfully; a converged manager does nothing |
| `Netd.SuccessRunsWanted` | internal/netd/wg_userspace.go:74-83 | after success a device runs its wanted text, except exactly when it was skipped after an earlier failed update |
| `Netd.CleanStaysClean` | internal/netd/wg_userspace.go:47-109 | if every device ran its recorded text before, it does after |
| `Netd.RevertAfterFailedUpdate` | internal/netd/wg_userspace.go:74-83 | a failed update followed by a return to the old text leaves the device as the failure left it |
| `Handshake.RowFound` | internal/routing/compile.go:78-102 | at each end the compiler finds the row of that end's role |
| `Handshake.CompiledInterface` | internal/routing/compile.go:53-120 | every interface of a compiled node belongs to one of its links |
| `Handshake.TextOf` | internal/netd/wg_userspace.go:131-175 | how a configuration's port, endpoint and keepalive show in the text |
| `Handshake.HandshakeRoles` | docs/WIREGUARD.md:7-36 | after repair the initiator dials with keepalive 25 and the listener waits on its port, or, for a sustainable bidirectional link, both dial and listen; the missing-endpoint error never occurs |
| `Handshake.PublishedRoles` | internal/controller/policy_handlers.go:179-203 | after publishing without a failed allocation, every enabled or pending link of a store in order has an interface at both ends and their texts have these roles |
| `Handshake.InterfacePortOwned` | internal/routing/compile.go:78-113 | a positive port of a compiled interface is owned by its link at that node |
| `Handshake.ListenPortsDiffer` | internal/storage/links.go:137-181 | in a store in order no two interfaces of a compiled node have the same positive listen port |
| `Handshake.DevicesListenApart` | internal/netd/wg_userspace.go:131-145 | so the texts of two different wanted devices of a node never tell both to listen on one port |
| `Network.StoredGraph` | internal/topology/graph.go:18-40 | a store in order gives the compiler a well-formed, addressed graph |
| `Network.BackboneRoutes` | internal/topology/graph.go:145-212 | in such a store, with every node linked to its parent, any two nodes at most 1025 deep have a hop |
| `Network.EnrollKeepsBackbone` | internal/controller/bootstrap.go:209-269 | an enrolment that finds a port leaves every node, the new one too, linked to its parent |
| `Network.DeleteKeepsBackbone` | internal/storage/nodes.go:306-379 | removing a node takes no other node's link to its parent |
| `Network.BackboneStaysUp` | internal/controller/bootstrap.go:209-269 | over every sequence of operations without an enrolment short of a port, a disabled or a deleted link, every node stays linked to its parent |
| `DataPlane.Daemon.Apply` | internal/netd/netd.go:142-202 | devices are reconciled first; only on success one route per address of every named interface, a later one replacing an earlier |
| `DataPlane.ApplyApplies` | internal/netd/netd.go:142-202 | a successful apply leaves the node in the state the forwarding theorems speak of, whatever routes were there before |
| `DataPlane.CanBeApplied` | internal/netd/netd.go:142-202 | every state whose device texts can be built has devices and routes with which it is applied |
| `DataPlane.RouteOver` | internal/netd/netd.go:159-181 | the route to an address held by one interface is over that interface |
| `DataPlane.HasDeviceIff` | internal/netd/wg_userspace.go:51-57 | a link has a device exactly if it is the last of the links configured at the node that have its interface name |
| `DataPlane.DeviceAdmits` | internal/netd/wg_userspace.go:131-175 | the device of a link admits exactly the addresses compiled for it |
| `Forwarding.SendsIffHop` | internal/netd/netd.go:142-202 | a node sends packets for an address over exactly the control hop's link, if and only if that link has a device |
| `Forwarding.AcceptsIffHop` | internal/netd/netd.go:142-202 | a node accepts packets from an address over exactly the link of its own hop to it, if and only if that link has a device |
| `Forwarding.DeliveryOverDevices` | internal/netd/netd.go:142-202 | the devices and routes along the tree path deliver exactly if the destination is at most 1025 deep and on every edge the chosen link is at both ends the last configured one of its interface name |
| `Forwarding.DeviceRunsAreOnPath` | internal/netd/netd.go:142-202 | whatever the devices do with a packet, after i hops it is at the path's node i |
| `Forwarding.DeliveringWalkIsPath` | internal/netd/netd.go:142-202 | any walk along which the devices carry a packet from source to destination is the linked tree path |
| `Forwarding.Deploy` | internal/netd/netd.go:142-202 | every well-formed graph whose keys decode can be compiled and applied at all nodes, whatever else the decoder refuses |
| `Shortcuts.ShortcutInserts` | internal/routing/compile.go:53-142 | a shortcut inserts its own empty interface at its place and changes no other, list order included |
| `Shortcuts.ShortcutLeavesDevices` | internal/netd/wg_userspace.go:51-57 | it leaves the wanted configurations of all devices as they were exactly if it is not configured at the node, or its name is empty, new, or kept by a later interface |
| `Shortcuts.DeviceUntouched` | internal/netd/wg_userspace.go:68-107 | devices with unchanged configuration are not touched by the next reconcile |
| `Connectivity.NameOfInterface` | internal/storage/links.go:209-222 | in a store in order every interface is named after its node and its peer |
| `Model.InterfaceNamesDiffer` | internal/storage/links.go:209-222 | names at one node differ exactly where the peers' four-character prefixes do |
| `Connectivity.RouteDeviceIsInterface` | internal/routing/compile.go:135-137 | table 0 names the interface that holds the address |
| `Connectivity.LastOfNameIff` | internal/storage/links.go:209-222 | the name condition, in terms of ids |
| `Connectivity.ConnectsIff` | internal/netd/netd.go:142-202 | packets get from one node to another, by whatever way, exactly if the tree path between them is linked, neither end is more than 1025 deep, and every edge has its devices |
| `Connectivity.AllConnectIff` | internal/controller/policy_handlers.go:179-203 | published and applied, a store in order connects every node with every other if and only if no node is more than 1025 deep and every first enabled parent link is at both ends the last one towards its peer's prefix |
| `Connectivity.GrownNetworkDelivers` | internal/controller/policy_handlers.go:179-203 | from bootstrap on, without an enrolment short of a port, a disabled or a deleted link: everyone reaches everyone exactly if the tree is clear of such names, in particular if peers differ in four characters |
| `Connectivity.SecondChildTakesDevice` | internal/controller/bootstrap.go:245-269 | enrolling two children with one prefix under a parent leaves the first one's link without a device there |
| `Connectivity.FirstChildUnreachable` | internal/netd/netd.go:142-202 | then nothing the nodes apply carries a packet from that child to its parent or back, by any way |
| `Witnesses.NamesCollide` | internal/storage/links.go:209-222 | with ids "bbbb-1" and "bbbb-2" under "aaaa-1" the store is in order and the backbone is up, but no packet passes between "bbbb-1" and its parent in either direction |
| `Witnesses.DeployCollision` | internal/netd/wg_userspace.go:116-129 | and for a decoder that accepts six given 32-byte keys, such configurations exist and are applied at all three nodes |
| `Witnesses.ForeignInitiator` | internal/controller/nodes_handlers.go:208-318 | a request between "aaaa-1" and "cccc-1", to be initiated by "bbbb-1", passes every check and gives port 51820 of "aaaa-1" a second owner |
| `Witnesses.NoAddressOffered` | internal/storage/nodes.go:113-145 | 10.0.1.0/24 offers no address even to the first node, although it contains candidate 257, that is 10.0.1.1 |
| `DeepTrees.DeepDestinationIsLost` | internal/topology/graph.go:173-212 | a source at depth 1 and a destination 1025 edges below it: a hop is offered and the tree path is linked, but the compiled states do not carry packets along it |
| `DeepTrees.DeepDestinationGetsNothing` | internal/netd/netd.go:142-202 | nor do the devices deliver to that destination, from any node along any walk |
| `DeepTrees.DeployChain` | internal/netd/netd.go:142-202 | although the whole chain can be compiled and applied |
| `DeepTrees.DeepNodeSortsLast` | internal/storage/nodes.go:204-221 | a node 1001 deep is stored with depth 0 below a parent stored with 1000 |
| `RateLimit.RateLimiter.Allow` | internal/security/crypto.go:227-245 | accepts exactly when fewer than max calls of the whole history fall in the window, though only a pruned list is kept |
| `RateLimit.PrunedCount` | internal/security/crypto.go:231-237 | counting the pruned list is counting the history |
| `RateLimit.SpacedNext` | internal/security/crypto.go:238-244 | an accepted call comes at least a window after the one max places earlier |
| `RateLimit.NoIntervalExceedsTheLimit` | internal/security/crypto.go:227-245 | no interval (a, a+window] holds more than max accepted calls of a key |
| `Dedup.Deduper.Seen` | internal/relay/relay.go:41-55 | a duplicate exactly when the id was accepted at most ttl ago |
| `Dedup.Deduper.Prune` | internal/relay/relay.go:45-49 | drops exactly the expired entries, in any order |
| `Dedup.WindowIsNotRefreshed` | internal/relay/relay.go:50-54 | duplicates do not extend the window of the stored acceptance |

## Left out

- Delivery.Delivery: speaks of compiled states, where links are known by id; so do Delivery.HopForwards and Shortcuts.ShortcutsChangeNothing. Interface names come in with Forwarding.DeliveryOverDevices and Shortcuts.ShortcutLeavesDevices.
- Forwarding.DeliveryOverDevices: takes the two devices of a link to reach each other, as PublishedRoles arranges; sessions, firewalls and the underlay are not modelled.
- DataPlane.Daemon.Apply: route commands are taken to succeed (the code only logs their failure); rules and tables other than the main one are left out.
- UpdateSafety.BoundedRun: counts orchestrator steps per run and crash; a new start of another job is not part of one run, and two runs at once (the start handler has no busy check) are not modelled.
- StoreSafety.StoreRunKeeps: link creations in a run name two different nodes and one of them as initiator, which the handler does not check; what happens otherwise is CreateKeepsDbExactly. The configured default port and the controller's pool are taken to be UDP ports, and both endpoint inserts of a new link to succeed.
- StoreSafety.RepairIsIdempotent: speaks of passes without failed allocation.
- Netd.Manager.Reconcile: fingerprints are the texts themselves, that is, the hash is taken to be injective; operating-system and device calls are steps that may fail.
- RateLimit.RateLimiter.Allow: takes the clock as a non-decreasing argument; so does Deduper.Seen.
- The orchestrator's loop is a transition system rather than one method, because reports, deletions, ticks and crashes interleave with its steps; each lock region, database write, listing and sleep is one step, handlers and the job start are atomic, setUpdateNodeStatus is one step.
- The rollback handler, release fetching, staging and activation, broadcasts: the install and fetch results are arbitrary.
- SQL text, transactions, discarded write errors and row order among equal keys: tables are sequences and maps, listings with equal depth come in any order.
- Changing a node's ports or adding an address after enrolment: not among the operations of the run theorem.
- The two halves of a handler that writes rows and then publishes are separate methods, and may interleave with other operations.
- Endpoints are (host, port) pairs, so splitting one always succeeds; public dialability is an arbitrary predicate; name resolution and key decoding are arbitrary functions that may fail.
- The sealed hash of a node state, its generation and forwarding settings.
- Marking enrolment tokens as used, key generation and encryption, JSON, HTTP status codes, sessions, the web panel, the WebSocket hub, shell scripts.
- Traffic policies and their storage, revisions, rollout states, audit log: flat records without relations between them.
- IPv6 addresses, interface creation, DNS, firewall and forwarding settings.
- Relay messages beyond the seen-set: the hop counter and envelope encoding.
