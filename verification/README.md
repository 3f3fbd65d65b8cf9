# olsrd: a verified model of the routing core

olsrd is a mesh routing daemon for OLSR (RFC 3626) with link-quality
extensions. Nodes flood link-state messages, keep a database of the mesh, run
Dijkstra's algorithm over it and install the result as kernel routes. This
project models that core in Dafny and proves what each part is for, up to one
statement from the neighbour table to the kernel (`Routing.Recalculate`): an
installed route goes out over the link to the first node of a walk that is
cheapest among all walks to all nodes advertising the prefix. On a default
route the cost of the present gateway counts scaled in that comparison. Its
metric is the length of that walk.

| files | subject |
|---|---|
| `Spf`, `Seeding`, `LinkCost` | shortest paths with a candidate tree re-keyed in place; our own edges and next hops; the default link cost |
| `TcSet` | link-state database: edges, inverse pointers, reference counts, frees |
| `IpOrder`, `TcBorder`, `LqTc`, `NetOut` | LQ_TC messages cut into fragments, border flags and revocation ranges |
| `RawOrder`, `RawTc` | the same ranges on a little-endian IPv4 host |
| `TcWindow`, `TcInput` | admission of TC messages and their effect on an originator's edges |
| `Election`, `Rib`, `Routing` | best paths, routing table, kernel routes, and the whole routing run |
| `TimerWheel` | the 1024-slot timer wheel against a plain table of deadlines |
| `DupSet`, `Flooding` | duplicate detection and flooding runs of a whole mesh |
| `TwoHop`, `LqMpr` | one-hop and two-hop tables, selection of multipoint relays |
| `HelloCodec`, `HelloWriter`, `Mantissa` | LQ_HELLO bytes, their fragmentation, and validity times |

Conventions: pointers are handles into pools, search trees are maps or ordered
sequences, linked lists are sequences, machine integers are `nat` with the
wrap-around written out. Clocks, random numbers, kernel results, the configuration and
the contents of the link set come in as parameters. Sending appends to a trace; the kernel is a map.

## Where the code departs from what it is meant to do

Each of these is a lemma, with the exact condition under which the intended property holds.

- The outermost borders of a fragmented advertisement are written with the size of a pointer, not of an
  address (`tc_set.c:748` and `761`). Revocation over all fragments is exact if and only if every stale neighbour that is not
  advertised lies between the two borders (`TcInput.AdvertisementExact`). With pointers as wide as an address only the
  all-one address can escape (`TcInput.WidePointerExact`); with IPv6 and 8-byte pointers a stale edge stays
  (`TcInput.NarrowPointerKeepsStale`).
- A border flag is expanded unchecked. The byte it leads to is one of the address if and only if the flag is between 1 and
  8 times the address length (`TcBorder.FlagInsideExactly`), so a zero flag beside another one is not.
- IPv4 addresses are compared as host integers (`ipcalc.h:68-71`), while border flags look at bytes in network order. On a
  little-endian host a rebuilt border separates its two addresses exactly under the condition of `RawOrder.RawCutSeparates`;
  `RawOrder.RawCutFails` is an input that breaks it. All ranges of an advertisement hold their own addresses exactly if every
  cut meets that condition and the list does not end with the all-one address (`RawTc.AllHoldOwnExactly`). No listed
  address ever lies in the range of an earlier fragment (`RawTc.ListedNotSwept`), so edges and costs are the advertised ones all
  the same (`RawTc.RawAdvertisementExact`).
- Our own edges are stored under a neighbour's main address, but deleting a link removes the edge under the address of the
  neighbour's interface (`link_set.c:361-376`). If that was the last link and the addresses differ, the edge is orphaned: it stays
  while the neighbour is gone (`Seeding.OwnEdges.DeleteLink`). All next hops of a run are right if and only if a walk cheaper than
  the edge leads to each usable orphan; a node for which there is none is listed without a next hop
  (`Seeding.NextHopsExactly`), and a prefix that only such nodes advertise has no route (`Routing.Recalculate`).
  `Seeding.OrphanRun` and `Seeding.HarmlessRun` are inputs for both cases.
- A new edge of ours gets no link quality, so it is broken in its first run (`olsr_spf.c:415-425`). Its cost is right exactly if it was
  there before or its link is broken (`Seeding.OwnCostExactly`).
- Linking a neighbour and a two-hop node changes a timer that does not exist yet (`process_package.c:272`), so a new pair has no expiry
  timer. Over any run of HELLOs it has one exactly from the second listing on (`TwoHop.TimerRun`); listed once, it stays until the
  neighbour or the node goes.
- The message that creates an entry of the duplicate set is not recorded in it. Over any run its first repetition is accepted
  exactly if the newest number is less than 32 ahead of it or it counts as a restart (`DupSet.CreatorUnrecorded`). So a node forwards
  that message a second time exactly if that holds when it first comes again (`Flooding.CreatorAgain`), and never a third time
  (`Flooding.CreatorAtMostTwice`).
- When a kernel route is deleted before its replacement is added and the addition fails, the entry still records the old route.
  If the old next hop is elected again nothing is queued and the route stays missing (`Rib.RefusedRouteLost`); the
  record stays true in all other cases and only in those (`Rib.RecordKept`).
- A new TC edge keeps the cost of a cleared link quality until the next message refreshes it (`tc_set.c:645-647`): its cost is right
  exactly if its link is broken (`TcInput.NewEdgeCost`).
- A denied address in a TC message is skipped without the four quality bytes behind it, so everything behind it is read out of step
  (`TcInput.DeniedShifts`). A body of allowed addresses is read back as written (`TcInput.ParseEncoded`).
- The comparison of sequence numbers at a distance of exactly half the circle prefers the smaller number (`TcWindow.SeqGreaterIsAhead`).
- The relay computation reports a change if and only if a neighbour becomes a relay (`LqMpr.MprSet.Calculate`). The loss of a relay
  alone goes unreported (`LqMpr.LossUnreported`).
- A timer armed with an interval of zero is due at once, and only such a one (`TimerWheel.DueAtOnceExactly`); the
  guarantees of a walk need that no callback arms one.
- Encoding a decoded validity time gives the same byte back only for the bytes of `Mantissa.Survives` (`Mantissa.ByteRoundTrip`).

## Model

| member | source | states |
|---|---|---|
| Spf.SpfRun.constructor | Olsrd/src/olsr_spf.c:341-377 | before the run all costs are broken except our own, which is 0, the candidate tree holds only us, and the run's invariant holds |
| Spf.SpfRun.Improve | Olsrd/src/olsr_spf.c:242-257 | a cheaper path re-keys the candidate tree (deleting a node only while it is on it) and pulls up next hop and hop count |
| Spf.SpfRun.Relax | Olsrd/src/olsr_spf.c:184-268 | after exploring all edges of the cheapest candidate every usable edge of it is relaxed and the invariant holds |
| Spf.SpfRun.RunFull | Olsrd/src/olsr_spf.c:283-300 | the invariant holds at the end, and every node is on the path list once, in order of cost, exactly if a walk over two-way unbroken edges reaches it; its cost is the least over all walks, else broken; one least-cost walk explains cost, hops and next hop of every node if and only if each usable edge of ours to a node without a seed is beaten by a cheaper walk |
| Spf.CandInsertOrdered | Olsrd/src/olsr_spf.c:102-116 | inserting behind equal keys keeps the candidate tree ordered and free of duplicates and moves no other node |
| Spf.CandDeleteOrdered | Olsrd/src/olsr_spf.c:124-137 | deleting a candidate keeps the order of the others |
| Spf.RekeyOrdered | Olsrd/src/olsr_spf.c:244-251 | delete, lower the key, insert again: the tree is ordered by the new keys |
| Spf.HeadIsCheapest | Olsrd/src/olsr_spf.c:169-174 | the extracted head costs no more than any candidate, so its cost is final |
| Spf.SumFits | Olsrd/src/olsr_spf.c:225-229 | the sum computed for the cheapest candidate and one more edge stays below the 32-bit limit |
| Spf.ImprovedShape | Olsrd/src/olsr_spf.c:242-251 | the trees and the cost fields agree after a cheaper path was taken |
| Spf.ImprovedWitnessed | Olsrd/src/olsr_spf.c:242-257 | every finite cost still belongs to a walk whose length modulo 256 is the hop count |
| Spf.ImprovedFirstHops | Olsrd/src/olsr_spf.c:253-257 | every reached node whose walk starts with a seeded node still carries that seed, and one reached by a single edge its own |
| Spf.ImprovedHops | Olsrd/src/olsr_spf.c:242-257 | so do the facts about our own edges: each far node costs less than the edge or is reached by one edge |
| Spf.MovedHops | Olsrd/src/olsr_spf.c:293-298 | exploring ourselves first establishes those facts |
| Spf.ImprovedRelaxed | Olsrd/src/olsr_spf.c:201-267 | edges relaxed earlier stay relaxed |
| Spf.MovedInv | Olsrd/src/olsr_spf.c:293-298 | moving the explored node to the path list keeps the invariant of the loop |
| Spf.InitialInv | Olsrd/src/olsr_spf.c:348-377 | the invariant holds before the first round |
| Spf.ClosedBoundsWalks | Olsrd/src/olsr_spf.c:184-300 | once every listed node is relaxed, no walk of any length undercuts a listed cost |
| Spf.FinishedIsShortest | Olsrd/src/olsr_spf.c:283-300 | with an empty candidate tree the costs are the least walk costs and the list is complete |
| Spf.FinishedAgrees | Olsrd/src/olsr_spf.c:382-430 | all next hops are right if and only if each usable edge of ours to a node without a seed is beaten |
| Spf.SeededAgrees | Olsrd/src/olsr_spf.c:382-430 | so they are right if every usable edge of ours leads to a seeded node |
| Spf.FinishedHops | Olsrd/src/olsr_spf.c:242-257 | whatever is seeded, a node whose walk starts with a seeded node carries that seed and all next hops are seeds |
| Spf.UnbeatenUnrouted | Olsrd/src/olsr_spf.c:242-257 | a node behind an unbeaten edge without a seed is listed without a next hop |
| Spf.BeatenSeeds | Olsrd/src/olsr_spf.c:242-257 | if such edges are beaten, every least-cost walk starts with a seeded node |
| Spf.BoundedCostsFit | Olsrd/src/olsr_spf.c:225-229 | a bound on edge costs times the node count below 2^32 - 1 rules out overflow of path sums |
| Seeding.OwnEdges.Seed | Olsrd/src/olsr_spf.c:379-430 | the neighbour loop keeps an edge exactly for symmetric neighbours with a best link that is not lost, and seeds those that have an edge back with that link; edges to others stay as they are |
| Seeding.OwnCostExactly | Olsrd/src/olsr_spf.c:412-425 | the edge of a neighbour has the cost of its link exactly if it was there before; a new one is not used in its first run |
| Seeding.SeededExactly | Olsrd/src/olsr_spf.c:379-430 | every usable edge of ours leads to a seeded node if and only if there is no orphan, a usable own edge to a node outside the neighbour table |
| Seeding.AnchoredSeeds | Olsrd/src/olsr_spf.c:379-430 | so it does while every own edge leads to a neighbour table entry |
| Seeding.OwnEdges.DeleteLink | Olsrd/src/link_set.c:361-376 | deleting a link leaves an edge outside the neighbour table exactly if it was there before or it was the last link, to another interface of a neighbour we have an edge to |
| Seeding.OrphansAreUnseeded | Olsrd/src/olsr_spf.c:379-430 | the orphans are exactly the usable edges of ours to nodes without a seed |
| Seeding.NextHopsExactly | Olsrd/src/olsr_spf.c:379-430 | all next hops of the run are right if and only if a cheaper walk leads to each orphan, and an orphan without one is listed without a next hop |
| Seeding.OrphanMisroutes | Olsrd/src/link_set.c:361-376 | for such an edge of cost 1 beside a neighbour of cost 10 every finished run gives the orphan no next hop, and the neighbour cost 2 with a link that only walks of cost 10 and more start with |
| Seeding.OrphanRun | Olsrd/src/link_set.c:361-376 | that is what deleting the link, the neighbour loop and the shortest-path run do, from two neighbours on |
| Seeding.OrphanHarmless | Olsrd/src/link_set.c:361-376 | with the two costs exchanged an orphan does no harm |
| Seeding.HarmlessRun | Olsrd/src/olsr_spf.c:283-300 | a run on that input |
| LinkCost.CostRange | Olsrd/src/lq_plugin_default_ff.c:277-294 | a link is broken exactly if one quality is below 25; any other cost is between 1024 and 106536 |
| LinkCost.CostExact | Olsrd/src/lq_plugin_default_ff.c:277-294 | the cost of a usable link is 255 * 255 * 1024 divided by the product of its two qualities, rounded down |
| LinkCost.DefaultCostsFit | Olsrd/src/lq_plugin_default_ff.c:277-294 | with these costs path sums cannot overflow in a mesh of up to 40314 nodes |
| TcSet.InverseMutual | Olsrd/src/tc_set.c:438-505 | an edge has an inverse pointer exactly if the opposite edge is stored, and the two point at each other |
| TcSet.ShownInverseExact | Olsrd/src/tc_set.c:438-534 | the graph the database shows meets the inverse condition the shortest-path run relies on |
| TcSet.AddEdgeGood | Olsrd/src/tc_set.c:438-505 | adding an edge keeps inverse pointers, reference counts and trees consistent |
| TcSet.DeleteEdgeGood | Olsrd/src/tc_set.c:512-534 | deleting an edge keeps them consistent |
| TcSet.NewEntryGood | Olsrd/src/tc_set.c:135-179 | a new entry with one reference keeps them consistent |
| TcSet.DropEntryGood | Olsrd/src/tc_set.c:279-314 | dropping an entry without edges keeps them consistent |
| TcSet.PrefixGood | Olsrd/src/routing_table.c:260-286 | a prefix together with its reference keeps them consistent |
| TcSet.Lsdb.LockEntry | Olsrd/src/tc_set.c:251-254 | one more reference on that entry alone |
| TcSet.Lsdb.UnlockEntry | Olsrd/src/tc_set.c:260-272 | one reference less; the block is given back exactly when none is left |
| TcSet.Lsdb.AddEdge | Olsrd/src/tc_set.c:438-505 | the new edge is stored with its owner, destination and cost and connected both ways; all other edges keep theirs; the database stays consistent |
| TcSet.Lsdb.ConnectInverse | Olsrd/src/tc_set.c:467-488 | an edge and its stored inverse point at each other, all other edges are unchanged |
| TcSet.Lsdb.DeleteEdge | Olsrd/src/tc_set.c:512-534 | the edge is gone and freed once, its inverse no longer points at it, all other edges keep owner, destination and cost; the database stays consistent |
| TcSet.Lsdb.InsertPrefix | Olsrd/src/routing_table.c:524-577 | a new prefix of legal length takes one reference; a known or too long one changes nothing |
| TcSet.Lsdb.DeletePrefix | Olsrd/src/routing_table.c:350-372 | a prefix gives its reference back |
| TcSet.Lsdb.AddEntry | Olsrd/src/tc_set.c:135-179 | an entry with its own prefix joins the tree; nothing happens without a main address; nothing is freed |
| TcSet.Lsdb.DeleteAllEdges | Olsrd/src/tc_set.c:297-300 | the edges of one entry are gone and freed, no other block is |
| TcSet.Lsdb.EmptySubtrees | Olsrd/src/tc_set.c:292-304 | the same for both subtrees |
| TcSet.Lsdb.DeleteEntry | Olsrd/src/tc_set.c:279-314 | the entry leaves with all its edges and prefixes; freed are exactly the entry, once, and those edges; all other edges keep owner, destination and cost |
| TcBorder.CalculateBorderFlag | Olsrd/src/lq_packet.c:484-510 | the shifting loops compute the position of the highest differing bit |
| TcBorder.FindBit | Olsrd/src/lq_packet.c:500-506 | the moving mask stops at the highest differing bit of two bytes |
| TcBorder.FlagInsideExactly | Olsrd/src/tc_set.c:750-757 | the byte a flag leads to is one of the address exactly for flags from 1 to 8 times its length |
| TcBorder.RebuildInPlace | Olsrd/src/tc_set.c:750-758 | the byte-wise expansion of an inner flag |
| TcBorder.FillInPlace | Olsrd/src/tc_set.c:747-762 | an end flag overwrites as many bytes as a pointer has |
| TcBorder.CalculateTcBorder | Olsrd/src/tc_set.c:741-774 | both borders are rebuilt unless both flags are zero, when nothing changes |
| TcBorder.TopDiffSplits | Olsrd/src/lq_packet.c:484-510 | at that bit the smaller byte has 0, the larger has 1, and all bits above agree |
| TcBorder.CutMeets | Olsrd/src/tc_set.c:741-774 | for any two addresses in order the flag rebuilds to the same border from both, above the one and not above the other |
| TcBorder.EndLowerBelow | Olsrd/src/tc_set.c:747-749 | the lower end border never excludes the first address |
| TcBorder.EndUpperAbove | Olsrd/src/tc_set.c:760-762 | the upper end border is above the last address exactly if an overwritten byte was not 0xff |
| TcBorder.EndBordersCover | Olsrd/src/tc_set.c:747-762 | with wide pointers the end borders span all addresses but the all-one address |
| TcBorder.EndLowerIsBottom | Olsrd/src/tc_set.c:747-749 | the lower end border is the lowest address exactly if all bytes behind the pointer size are zero |
| RawOrder.RawCutSeparates | Olsrd/src/ipcalc.h:68-71 | in little-endian raw order the border separates two addresses exactly under a condition on their bytes |
| RawOrder.RawCutAscending | Olsrd/src/ipcalc.h:68-71 | for addresses ascending in network order it does so exactly if the first one is zero behind the cut |
| RawOrder.RawCutDescending | Olsrd/src/ipcalc.h:68-71 | for descending ones it never does |
| RawOrder.RawCutNotAbove | Olsrd/src/ipcalc.h:68-71 | in either case the border is not above the later address |
| RawOrder.RawCutFails | Olsrd/src/ipcalc.h:68-71 | 10.0.0.2 and 10.0.1.3 are an input for which it fails |
| RawTc.RawTotal | Olsrd/src/ipcalc.h:68-71 | the raw order is irreflexive, asymmetric and total |
| RawTc.RawTransitive | Olsrd/src/ipcalc.h:68-71 | and transitive |
| RawTc.BorderFromBoth | Olsrd/src/tc_set.c:741-774 | both fragments at a cut rebuild the same border |
| RawTc.RawRangesCover | Olsrd/src/tc_set.c:572-608 | every address but the all-one address is in some range whether or not the cuts separate |
| RawTc.LowAlways | Olsrd/src/tc_set.c:741-774 | no border is above the address behind it |
| RawTc.ListedNotSwept | Olsrd/src/tc_set.c:572-608 | no listed address lies in the range of an earlier fragment |
| RawTc.RawDeleteRevoked | Olsrd/src/tc_set.c:572-608 | the walk over an edge tree in raw order removes exactly the older edges inside the range although it stops at the upper border |
| RawTc.AllHoldOwnExactly | Olsrd/src/tc_set.c:572-608 | all ranges hold their own addresses if and only if every cut meets the condition and the last address is not the all-one address |
| RawTc.RawProcessEffect | Olsrd/src/tc_set.c:897-937 | after k fragments the listed neighbours are fresh, with the advertised cost if they were there before, and exactly the other edges in the ranges are gone |
| RawTc.RawAdvertisementExact | Olsrd/src/tc_set.c:787-959 | after a whole advertisement the edges are the advertised ones if and only if no stale edge to the all-one address is left, and old ones carry their advertised cost |
| NetOut.NetBuf.Push | Olsrd/src/net_olsr.c:225-241 | a message that fits is appended to the trace, one that does not is refused and changes nothing |
| NetOut.NetBuf.Output | Olsrd/src/net_olsr.c:335-424 | what is pending is sent in order and the queue is empty; nothing is lost or repeated |
| LqTc.InsertSorted | Olsrd/src/lq_packet.c:241-260 | insertion keeps the neighbour list strictly increasing and adds exactly one entry |
| LqTc.CreateLqTc | Olsrd/src/lq_packet.c:151-267 | the list holds exactly the symmetric neighbours with an unbroken best link that the TC redundancy asks for, strictly increasing |
| LqTc.PushAndSend | Olsrd/src/lq_packet.c:577-593 | a full fragment is pushed and sent |
| LqTc.SerializeLqTc | Olsrd/src/lq_packet.c:513-615 | the fragments are a cut of the list with matching border flags, every push fits, an empty list gives one empty message |
| LqTc.CutIsChained | Olsrd/src/lq_packet.c:513-615 | in a cut of an increasing list fragments are increasing and follow each other |
| LqTc.BordersMeet | Olsrd/src/lq_packet.c:572-576 | the upper border of a fragment equals the lower border of the next and lies between them |
| LqTc.FragmentBracketed | Olsrd/src/tc_set.c:741-774 | lower border, first and last address are in order, and the upper border is above except for a last fragment with no room above |
| LqTc.RangeHoldsOwn | Olsrd/src/tc_set.c:572-608 | each half-open range holds its own fragment's addresses |
| LqTc.RangesAscend | Olsrd/src/tc_set.c:572-608 | later ranges start at or above the end of earlier ones |
| LqTc.RangesDisjoint | Olsrd/src/tc_set.c:572-608 | no address is in two ranges |
| LqTc.RangesCover | Olsrd/src/tc_set.c:572-608 | every address between the outer borders is in some range |
| TcWindow.SeqGreaterIsAhead | Olsrd/src/olsr_protocol.h:164-166 | greater means ahead by less than half the circle, or by exactly half for the smaller number |
| TcWindow.InRangeLowExact | Olsrd/src/tc_set.c:95-106 | the test is membership in a half-open 16-bit circular interval |
| TcWindow.InRangeHighExact | Olsrd/src/tc_set.c:112-126 | the same for the interval closed above |
| TcWindow.WindowsExact | Olsrd/src/tc_set.c:843-889 | the forward and old windows in steps around the circle |
| TcWindow.RefusedRemembers | Olsrd/src/tc_set.c:843-889 | over any run of refused messages the state counts the old ones and remembers the last implausible number |
| TcWindow.AdmittedExactly | Olsrd/src/tc_set.c:843-889 | after any such run a message is admitted if and only if it is in the forward window, or old after 32 ignored old ones, or implausible after an implausible one with another number |
| TcWindow.AdmittedInRun | Olsrd/src/tc_set.c:843-889 | in any run of arrivals, from whatever fields, a message is admitted if and only if the originator has no edges or, counted in steps from the message admitted last, it is up to 8192 numbers and less than 1024 ANSNs ahead, or late with 32 late ones ignored since, or stray with a stray one of another number refused since |
| TcWindow.GateTold | Olsrd/src/tc_set.c:843-889 | the fields always tell what came since the message admitted last |
| TcInput.RefreshAllEffect | Olsrd/src/tc_set.c:620-679 | every listed neighbour is stored with the message's ANSN and quality and nothing else changes |
| TcInput.NewEdgeCost | Olsrd/src/tc_set.c:635-669 | a new edge is broken until refreshed again, which is right exactly if its link is broken |
| TcInput.DeleteRevoked | Olsrd/src/tc_set.c:572-608 | the walk removes exactly the older edges inside the range although it stops at the upper border |
| TcInput.ParseEncoded | Olsrd/src/tc_set.c:897-909 | a written body is read back as the neighbours that were written |
| TcInput.EncodedSize | Olsrd/src/lq_packet.c:595-607 | a neighbour takes its address and four bytes |
| TcInput.EncodedAt | Olsrd/src/lq_packet.c:595-607 | neighbour i lies at i times that size: address, both qualities, two zeros |
| TcInput.SentFits | Olsrd/src/lq_packet.c:513-615 | the bytes of every fragment fit the buffer behind its headers |
| TcInput.ParseKeeps | Olsrd/src/tc_set.c:897-909 | reading a body removes no edge |
| TcInput.DeniedShifts | Olsrd/src/tc_set.c:620-650 | behind a denied unknown neighbour the quality is read as the next address |
| TcInput.TcNode.AdmitMsg | Olsrd/src/tc_set.c:843-889 | an originator without edges admits everything, otherwise the windows decide; an admitted message is stored and clears the counter and the stray mark |
| TcInput.TcNode.ReadBody | Olsrd/src/tc_set.c:897-909 | the cursor loop over a body refreshes the edges it names and fails exactly where it would leave the packet |
| TcInput.TcNode.InputTc | Olsrd/src/tc_set.c:787-959 | a refused message changes no edge; an admitted one refreshes, then revokes inside its borders; without borders no edge goes and the collection timer runs; an empty one with both end flags leaves no edge |
| TcInput.TcNode.CollectGarbage | Olsrd/src/tc_set.c:394-409 | when that timer fires exactly the edges older than the stored ANSN go |
| TcInput.CollectionExact | Olsrd/src/tc_set.c:542-562 | after an advertisement without borders and the collection the edges are the listed ones |
| TcInput.TcNode.ReceiveAdvertisement | Olsrd/src/tc_set.c:787-959 | all fragments of one advertisement in order are admitted and processed |
| TcInput.ForwardAdmitted | Olsrd/src/tc_set.c:843-889 | a message in the forward window is admitted whatever was refused before |
| TcInput.NextIsForward | Olsrd/src/tc_set.c:843-889 | the next fragment with the same ANSN is in the forward window |
| TcInput.ProcessEffect | Olsrd/src/tc_set.c:897-937 | one fragment removes exactly the older edges inside its range and stores its own neighbours |
| TcInput.ProcessAllEffect | Olsrd/src/tc_set.c:897-937 | after k fragments exactly the neighbours of those fragments are fresh and exactly the older edges in their ranges are gone |
| TcInput.SweptExactly | Olsrd/src/tc_set.c:572-608 | all ranges together are the space between the outer borders |
| TcInput.AdvertisementExact | Olsrd/src/tc_set.c:787-959 | after a whole advertisement the edge set equals the advertised set if and only if each other old neighbour lies between the outer borders |
| TcInput.WidePointerExact | Olsrd/src/tc_set.c:741-774 | with wide pointers this fails only for a stale all-one address |
| TcInput.NarrowPointerKeepsStale | Olsrd/src/tc_set.c:747-749 | an IPv6 input with 8-byte pointers for which a stale edge survives |
| Election.BetterTotal | Olsrd/src/routing_table.c:436-469 | the path comparison is irreflexive, asymmetric and total on distinct originators |
| Election.BetterTransitive | Olsrd/src/routing_table.c:436-469 | and transitive, for a fixed gateway |
| Election.BetterBeats | Olsrd/src/routing_table.c:436-469 | a path is better exactly if its weight is lower, or equal with fewer hops, or both are equal and its address comes first bytewise; the weight is the cost, scaled and rounded down for the present gateway |
| Election.BestUnique | Olsrd/src/routing_table.c:486-507 | a path better than all others is unique |
| Election.ElectBest | Olsrd/src/routing_table.c:486-507 | the elected path beats every other one in that sense, in whatever order the walk visits them |
| Election.GatewayHysteresis | Olsrd/src/routing_table.c:436-469 | another path replaces a present gateway only at no more than the scaled cost |
| Election.GatewayKept | Olsrd/src/routing_table.c:436-469 | the gateway stays while all others cost more than that |
| Election.ScaleShrinks | Olsrd/src/routing_table.c:438-444 | a threshold of at most one never makes the gateway look worse |
| Rib.RecordKept | Olsrd/src/process_routes.c:196-272 | an entry's record of the kernel stays true if and only if its route was not deleted and then refused |
| Rib.InstalledExactly | Olsrd/src/process_routes.c:317-355 | the kernel holds the best route exactly if nothing changed or the addition succeeded |
| Rib.RefusedRouteLost | Olsrd/src/process_routes.c:239-272 | a deleted and refused route that is elected again is never put back |
| Rib.WantedExact | Olsrd/src/olsr_spf.c:450-495 | the path made for a prefix and originator is that of the one list entry offering it |
| Rib.WantedOffered | Olsrd/src/olsr_spf.c:450-495 | no path is made without such an entry |
| Rib.QueuedChanged | Olsrd/src/process_routes.c:340-351 | queued routes differ from the kernel's, the others do not |
| Rib.SweepExact | Olsrd/src/process_routes.c:281-309 | the sweep keeps exactly the paths with this run's version |
| Rib.SweepRecords | Olsrd/src/process_routes.c:317-338 | the sweep leaves the record true and flushes prefixes without paths |
| Rib.QueueSettles | Olsrd/src/process_routes.c:239-272 | working off the queue keeps paths and elections and installs every route not refused |
| Rib.CurrentIsWanted | Olsrd/src/olsr_spf.c:450-495 | after the path list was taken in, the paths of this version are the wanted ones |
| Rib.DefaultRouteHysteresis | Olsrd/src/routing_table.c:486-507 | over a whole run a lone default route leaves a present gateway only for a cost at most its scaled cost |
| Rib.RouteTable.BumpVersion | Olsrd/src/routing_table.c:89-92 | no stored path carries the new version, across wrap-around too |
| Rib.RouteTable.OfferPrefix | Olsrd/src/routing_table.c:212-344 | insert or refresh: that one path becomes current unless the prefix is too long; all else stays |
| Rib.RouteTable.OfferNode | Olsrd/src/olsr_spf.c:452-494 | all prefixes of a node with a next hop are offered, none otherwise |
| Rib.RouteTable.OfferAll | Olsrd/src/olsr_spf.c:450-495 | after the list every path is the wanted one or as before |
| Rib.RouteTable.DeletePath | Olsrd/src/routing_table.c:350-372 | that one path is gone and is no longer the current gateway |
| Rib.RouteTable.DeleteOutdated | Olsrd/src/process_routes.c:281-309 | the walk that deletes while walking leaves exactly the paths of this version |
| Rib.RouteTable.EnqueueRt | Olsrd/src/process_routes.c:131-151 | each route is queued once, routes to next hops ahead of all others |
| Rib.RouteTable.UpdateRoute | Olsrd/src/process_routes.c:324-352 | one prefix is swept, then flushed, or elected and queued if it changed; a default route makes its elected path the gateway; no other prefix is touched |
| Rib.RouteTable.UpdateRib | Olsrd/src/process_routes.c:317-355 | the same for all prefixes; each best path is the unique minimum |
| Rib.RouteTable.ChangeRoute | Olsrd/src/process_routes.c:248-270 | delete if asked to, add, and record on success |
| Rib.RouteTable.ChangeKernel | Olsrd/src/process_routes.c:239-272 | the queue is empty, queued routes were changed, the others untouched |
| Rib.RouteTable.RoutingRun | Olsrd/src/olsr_spf.c:346-511 | paths are exactly the prefixes of legal length of reached nodes with a next hop; kernel routes carry next hop and metric of the path that beats all others, for all kernel calls that succeed; a route the kernel has already is left alone; the gateway is the elected path of a default route |
| Rib.GatewayNext | Olsrd/src/routing_table.c:505-507 | the gateway is always the elected path of a default route already visited, if there is one |
| Rib.SameRouteLeft | Olsrd/src/process_routes.c:340-351 | a route that the kernel has already is neither queued nor touched |
| Rib.RouteTable.DeleteAll | Olsrd/src/process_routes.c:118-125 | table and kernel keep nothing but routes whose deletion failed |
| Routing.OnListIff | Olsrd/src/olsr_spf.c:283-300 | a node is on the path list exactly if a walk leads to it |
| Routing.WantedIffRoutable | Olsrd/src/olsr_spf.c:450-495 | a prefix gets a path exactly if some other node that a walk reaches advertises it with a legal length |
| Routing.BestRoutesWell | Olsrd/src/routing_table.c:486-507 | the installed route starts a walk that weighs least over all walks to all advertisers, the present gateway of a default route being weighed by its scaled cost; its metric is the length of that walk modulo 256, or 2 for flat metrics |
| Routing.CalculateRoutes | Olsrd/src/olsr_spf.c:312-511 | from next hops of neighbours to the kernel: routable prefixes are installed over the first link of such a walk if each edge of ours without a seed is beaten; others are not in the kernel, nor is what only nodes behind unbeaten ones advertise, and the next run may start |
| Routing.StrandedNotOffered | Olsrd/src/olsr_spf.c:450-495 | what only nodes behind unbeaten edges without a seed advertise gets no path |
| Routing.Recalculate | Olsrd/src/olsr_spf.c:379-511 | the same from the neighbour table on: right if a cheaper walk leads to each orphan, and no route to what only unbeaten orphans advertise |
| TimerWheel.ScaledBound | Olsrd/src/scheduler.c:511-532 | the scaled random number never exceeds the jitter |
| TimerWheel.JitterRange | Olsrd/src/scheduler.c:511-532 | a deadline lies strictly in the future, at most the given percentage early |
| TimerWheel.ScaledFull | Olsrd/src/scheduler.c:511-532 | the largest random number stands for the whole jitter, below 46341 ms |
| TimerWheel.JitterReached | Olsrd/src/scheduler.c:511-532 | so both ends of that range are reached |
| TimerWheel.TimedOutExact | Olsrd/src/scheduler.c:156-163 | within half the clock range, timed out means not in the future |
| TimerWheel.ActKeeps | Olsrd/src/scheduler.c:771-907 | no start, stop or change with an interval of at least 1 ms makes a timer overdue |
| TimerWheel.DueAtOnceExactly | Olsrd/src/scheduler.c:771-880 | a started or changed timer is due at once exactly if its interval is zero |
| TimerWheel.FireKeeps | Olsrd/src/scheduler.c:606-634 | a fired timer is not overdue any more and nothing becomes overdue |
| TimerWheel.ArmedIs | Olsrd/src/scheduler.c:771-880 | an armed timer is due in its interval and has it as period exactly if it is periodic |
| TimerWheel.ActsLeave | Olsrd/src/scheduler.c:614-615 | a callback leaves alone the timers it does not stop or change |
| TimerWheel.ActsStopped | Olsrd/src/scheduler.c:822-847 | a timer it stops is gone |
| TimerWheel.ActsChanged | Olsrd/src/scheduler.c:854-880 | a timer it changes last runs as changed |
| TimerWheel.ActsStarted | Olsrd/src/scheduler.c:771-815 | a timer it starts runs under a new handle |
| TimerWheel.ReplayOutcome | Olsrd/src/scheduler.c:606-634 | of the timers no callback touches, fired periodic ones run on with the same period and percentage, due within a period; fired one-shot ones are gone; the others are as before |
| TimerWheel.ReplayStopped | Olsrd/src/scheduler.c:606-634 | a timer that any callback stopped is gone, whether it fired or not |
| TimerWheel.AllVisited | Olsrd/src/scheduler.c:570-660 | walking up to now, or all 1024 slots, reaches the slot of every clock since the last run |
| TimerWheel.Wheel.Advance | Olsrd/src/scheduler.c:465-479 | the clock moves on between walks and the wheel stays consistent |
| TimerWheel.Wheel.StartTimer | Olsrd/src/scheduler.c:771-815 | the wheel refines adding a deadline; the new timer is due in its interval, which is its period exactly if periodic |
| TimerWheel.Wheel.StopTimer | Olsrd/src/scheduler.c:822-847 | the wheel refines removing one, even from the list being walked |
| TimerWheel.Wheel.ChangeTimer | Olsrd/src/scheduler.c:854-880 | the wheel refines moving one; the same holds of the changed timer |
| TimerWheel.Wheel.SetTimer | Olsrd/src/scheduler.c:887-907 | stop, start or change: afterwards the one timer is gone or due within the interval, all others are as before |
| TimerWheel.Wheel.RunCallback | Olsrd/src/scheduler.c:614-615 | any sequence of starts, stops and changes by a callback is refined |
| TimerWheel.Wheel.FireTimer | Olsrd/src/scheduler.c:606-634 | calling back, then re-arming or stopping, even if the callback stopped its own timer |
| TimerWheel.Wheel.WalkSlot | Olsrd/src/scheduler.c:585-640 | no overdue timer of the slot is left behind, no other is fired |
| TimerWheel.Wheel.WalkTimers | Olsrd/src/scheduler.c:570-660 | a walk fires only timers that were overdue at its start, each once, and leaves none overdue however far it slipped; a timer no callback touches fires exactly if it was overdue, and then runs on if periodic and is gone if not |
| DupSet.DiffExact | Olsrd/src/duplicate_set.c:102-113 | within half the circle the 16-bit difference is the true one |
| DupSet.ReceiveTracks | Olsrd/src/duplicate_set.c:116-193 | the shifted bitmap refines the set of numbers accepted since creation or restart |
| DupSet.HeardStays | Olsrd/src/duplicate_set.c:64-193 | over any run with cleanups a number that was heard stays refused, and recorded if it was accepted, until a restart |
| DupSet.NeverTwice | Olsrd/src/duplicate_set.c:64-193 | over any run with cleanups a number that was heard is not accepted later without a restart |
| DupSet.CreatorUnrecorded | Olsrd/src/duplicate_set.c:64-193 | over any run with cleanups the first repetition of the creating number is accepted exactly if the newest is less than 32 ahead or it counts as a restart |
| DupSet.FirstTimeExactly | Olsrd/src/duplicate_set.c:116-193 | a number heard for the first time is accepted exactly if it is in the window or counts as a restart |
| DupSet.AcceptedHeard | Olsrd/src/duplicate_set.c:116-193 | only numbers that were heard are in the accepted set |
| DupSet.CreatorAtOnce | Olsrd/src/duplicate_set.c:73-86 | repeated at once the creating number is accepted |
| DupSet.CounterCounts | Olsrd/src/duplicate_set.c:158-173 | since the last cleanup the latest messages, as many as the counter says, were all too low; only a start value above zero can add to them |
| DupSet.RestartNeedsRun | Olsrd/src/duplicate_set.c:159-171 | without a cleanup a restart ends a run of 17 too low messages |
| DupSet.RestartNeedsThree | Olsrd/src/duplicate_set.c:64-173 | wherever the cleanups fall, a restart ends at least three too low messages in a row |
| DupSet.RestartAfterCleanup | Olsrd/src/duplicate_set.c:64-71 | after a cleanup the third one restarts, and no earlier one |
| DupSet.DuplicateSet.IsDuplicate | Olsrd/src/duplicate_set.c:116-193 | the table refines one entry per originator, never shortens its validity and leaves the others alone |
| DupSet.DuplicateSet.Cleanup | Olsrd/src/duplicate_set.c:64-71 | only the counter of that originator is set |
| Flooding.EntryStep | Olsrd/src/olsr.c:312-408 | what one event does to one node's entry for one originator |
| Flooding.ForwardsExactly | Olsrd/src/olsr.c:312-408 | a node forwards a copy exactly if its sender selected it, it is no duplicate, its TTL is at least 2 and does not take it beyond 255 hops |
| Flooding.DeliverAir | Olsrd/src/olsr.c:358-405 | a forward puts exactly that copy into the air, with one TTL less and one hop more; any other delivery puts nothing |
| Flooding.AirExactly | Olsrd/src/olsr.c:312-408 | in every run a copy is in the air exactly if it was at the start, its originator sent it or a node forwarded it |
| Flooding.FloodingRun | Olsrd/src/olsr.c:312-408 | in every run hop count plus TTL of each copy is the originator's TTL, and no copy was forwarded more than TTL - 1 times |
| Flooding.EntryFollows | Olsrd/src/olsr.c:312-408 | a node's entry follows the numbers and the cleanups that reached it |
| Flooding.ForwardIsAccepted | Olsrd/src/olsr.c:312-408 | a checked message is forwarded if and only if the duplicate set accepts it and its TTL is not used up |
| Flooding.ForwardOnce | Olsrd/src/olsr.c:312-408 | in any run with cleanups a node whose entry does not expire and that checked a message does not forward it later unless the entry restarts |
| Flooding.CreatorForwards | Olsrd/src/olsr.c:312-408 | the message that creates an entry is forwarded unless its TTL is used up and leaves no record of itself |
| Flooding.CreatorAgain | Olsrd/src/olsr.c:312-408 | when it first comes again it is forwarded exactly if its TTL is not used up and the newest number is less than 32 ahead |
| Flooding.CreatorAtMostTwice | Olsrd/src/olsr.c:312-408 | after that it is not forwarded again |
| Flooding.SendsOnIsStep | Olsrd/src/olsr.c:312-408 | what one node sends on is what the delivery puts into the air of the whole mesh |
| Flooding.Forwardable | Olsrd/src/olsr.c:312-358 | the tests in their order: a copy goes out only from a symmetric neighbour that selected us, if it is new and its TTL is not used up |
| Flooding.ForwardMessage | Olsrd/src/olsr.c:312-408 | the same, and it is the step of the mesh; entries of other originators are untouched |
| TwoHop.InTableIffLinked | Olsrd/src/neighbor_table.c:71-97 | a two-hop node is in the table exactly while some neighbour's list names it |
| TwoHop.RelayListsOk | Olsrd/src/lq_mpr.c:114-145 | relay selection finds every connector in the neighbour table, once per node |
| TwoHop.JoinGood | Olsrd/src/process_package.c:252-282 | linking a pair keeps the lists mirrored and the counts right |
| TwoHop.PartGood | Olsrd/src/neighbor_table.c:357-373 | so does taking a pair apart, freeing the node at count zero |
| TwoHop.PartEffect | Olsrd/src/neighbor_table.c:357-373 | exactly that pair is gone and no other cost changes |
| TwoHop.LeastExact | Olsrd/src/process_package.c:177-240 | the cost kept from a message is the least 32-bit sum of first hop and offered cost, or that of a broken link |
| TwoHop.LeastIsCheapest | Olsrd/src/process_package.c:213-232 | while no sum leaves 32 bits it is the least plain sum |
| TwoHop.TimerRun | Olsrd/src/process_package.c:99-104 | over any run of HELLOs of a neighbour a new node is linked from its first listing on and its expiry timer runs exactly from the second on |
| TwoHop.NeighborTables.constructor | Olsrd/src/neighbor_table.c:57-64 | empty tables meet the invariant |
| TwoHop.NeighborTables.InsertNeighbour | Olsrd/src/neighbor_table.c:232-266 | a new neighbour comes with an empty list, a known one keeps its own; no link changes |
| TwoHop.NeighborTables.DeleteNeighborPointer | Olsrd/src/two_hop_neighbor_table.c:77-94 | the unlinking walk removes all entries of the neighbour and keeps the others in order |
| TwoHop.NeighborTables.DelNbr2List | Olsrd/src/neighbor_table.c:71-97 | the list entry goes with its timer; the two-hop node goes exactly if its count is below one |
| TwoHop.NeighborTables.Expire | Olsrd/src/neighbor_table.c:357-373 | one pair is gone on both sides; the invariant holds |
| TwoHop.NeighborTables.DeleteNeighbour | Olsrd/src/neighbor_table.c:177-222 | all pairs of the neighbour are gone and no others |
| TwoHop.NeighborTables.DeleteNeighbor2Pointer | Olsrd/src/neighbor_table.c:107-121 | the node leaves one neighbour's list and is not freed on the way |
| TwoHop.NeighborTables.DeleteTwoHop | Olsrd/src/two_hop_neighbor_table.c:103-123 | all pairs of the node are gone and no others; it is freed once |
| TwoHop.NeighborTables.Take | Olsrd/src/process_package.c:99-160 | a listed node is linked without a timer, or its cost cleared and its timer set |
| TwoHop.NeighborTables.Improve | Olsrd/src/process_package.c:206-238 | a cheaper offer replaces the cost |
| TwoHop.NeighborTables.LinkListed | Olsrd/src/process_package.c:74-163 | the first pass links exactly the symmetric listed nodes that are not us, and sets the timers of exactly those linked before or listed twice |
| TwoHop.NeighborTables.CostListed | Olsrd/src/process_package.c:165-242 | the second pass gives each the least offered cost |
| TwoHop.NeighborTables.ProcessHello | Olsrd/src/process_package.c:74-242 | both passes together: a listed node costs the least sum of our link to the neighbour and an offered cost; pairs and timers of other neighbours and unlisted nodes are untouched |
| LqMpr.CheapestUnique | Olsrd/src/lq_mpr.c:134-163 | only one set has the size of the coverage and comes before all other eligible connectors |
| LqMpr.CheapestIsSelected | Olsrd/src/lq_mpr.c:134-163 | the cheapest eligible connector is always in it |
| LqMpr.CoverageMet | Olsrd/src/lq_mpr.c:134-163 | relays among the eligible connectors number the coverage, or are all of them |
| LqMpr.EligibleUseful | Olsrd/src/lq_mpr.c:88-125 | with the cost of the direct link as bound the eligible connectors are the symmetric ones with an unbroken path cheaper than the direct link, if there is one |
| LqMpr.MprSet.Reset | Olsrd/src/lq_mpr.c:60-83 | old flags are remembered and only symmetric neighbours that always relay are kept |
| LqMpr.MprSet.ClearSkips | Olsrd/src/lq_mpr.c:129-132 | all connectors of the node become selectable, nothing else changes |
| LqMpr.MprSet.FindBest | Olsrd/src/lq_mpr.c:138-145 | the first of the cheapest symmetric connectors not yet picked |
| LqMpr.MprSet.Select | Olsrd/src/lq_mpr.c:150-156 | that neighbour becomes a relay; a change is reported exactly if some relay is new |
| LqMpr.MprSet.CoverNode | Olsrd/src/lq_mpr.c:126-163 | the greedy rounds pick exactly the cheapest eligible connectors up to the coverage |
| LqMpr.MprSet.ServeNode | Olsrd/src/lq_mpr.c:88-164 | the same with the direct link as bound; a node whose direct link no connector undercuts gets none |
| LqMpr.MprSet.Calculate | Olsrd/src/lq_mpr.c:51-165 | a neighbour is a relay if and only if it is symmetric and always relays or was picked for some two-hop node; changes means a new relay |
| LqMpr.LossUnreported | Olsrd/src/lq_mpr.c:60-83 | an input where a relay is lost and no change is reported |
| HelloCodec.CreateLinkCode | Olsrd/src/olsr_protocol.h:174-178 | neighbour type and link type are extracted again from the link code |
| HelloCodec.LinkCodeDigits | Olsrd/src/olsr_protocol.h:174-178 | link type and neighbour type are the last two digits of the code to base 4 |
| HelloCodec.EntryAt | Olsrd/src/lq_packet.c:453-459 | entry i of a block lies at i times the entry size: address, both qualities, two zeros |
| HelloCodec.BlockAt | Olsrd/src/lq_packet.c:444-468 | a block lies behind the blocks before it: link code, zero, its size in network order, entries |
| HelloCodec.MessageLayout | Olsrd/src/lq_packet.c:290-320 | every header field by byte position; the size field is the length of the message |
| HelloCodec.ReadWrittenEntries | Olsrd/src/process_package.c:354-365 | the inner loop reads back all entries of a block and stops behind them |
| HelloCodec.ReadWrittenBlock | Olsrd/src/process_package.c:344-366 | a block is read completely and nothing behind it |
| HelloCodec.HelloRoundTrip | Olsrd/src/process_package.c:314-368 | reading a written message gives back its length, every header field and every neighbour, whatever follows it in the packet |
| HelloCodec.DeserializeBlock | Olsrd/src/process_package.c:353-365 | the inner loop, failing exactly where a read would leave the packet |
| HelloCodec.Deserialize | Olsrd/src/process_package.c:314-368 | both loops over a moving pointer |
| HelloWriter.GroupingKeeps | Olsrd/src/lq_packet.c:392-401 | grouping by neighbour type and link type loses and repeats no neighbour except hidden ones |
| HelloWriter.Closing | Olsrd/src/lq_packet.c:464-468 | writing the size into an open info header completes the block |
| HelloWriter.FragReads | Olsrd/src/lq_packet.c:472-480 | every message is at most a buffer long and is read back whole |
| HelloWriter.HelloDelivered | Olsrd/src/lq_packet.c:323-481 | the receiver of all messages has every neighbour with a place in them exactly once |
| HelloWriter.EstimateCovers | Olsrd/src/lq_packet.c:364-386 | the estimate is at least what will be written |
| HelloWriter.ExpectedSize | Olsrd/src/lq_packet.c:364-381 | the nested loops count all entries once and one header per non-empty group |
| HelloWriter.HelloBuffer.CloseInfo | Olsrd/src/lq_packet.c:464-468 | the open header gets its exact size |
| HelloWriter.HelloBuffer.PushMessage | Olsrd/src/lq_packet.c:472-480 | the message has its exact size and the push succeeds |
| HelloWriter.HelloBuffer.Flush | Olsrd/src/lq_packet.c:418-443 | a full buffer is sent and writing starts again with nothing lost |
| HelloWriter.HelloBuffer.OpenInfo | Olsrd/src/lq_packet.c:444-452 | a new block is open behind complete ones |
| HelloWriter.HelloBuffer.AppendEntry | Olsrd/src/lq_packet.c:453-459 | the open block has one entry more |
| HelloWriter.HelloBuffer.AddEntry | Olsrd/src/lq_packet.c:403-461 | one neighbour more is written, without a flush if it fits |
| HelloWriter.HelloBuffer.MakeRoom | Olsrd/src/lq_packet.c:356-386 | afterwards there is room for one entry, and for the whole message if an empty buffer has it |
| HelloWriter.HelloBuffer.WriteGroup | Olsrd/src/lq_packet.c:395-468 | one group is written in list order |
| HelloWriter.HelloBuffer.Serialize | Olsrd/src/lq_packet.c:323-481 | the messages hold exactly the grouped neighbours, all pushes fit, and a HELLO that fits an empty buffer goes out as one message |
| Mantissa.FindExponent | Olsrd/src/mantissa.c:74-84 | the search finds the exponent whose interval holds the time |
| Mantissa.ReltimeToMe | Olsrd/src/mantissa.c:59-129 | the byte's step holds the time; both ends saturate |
| Mantissa.EncodesUnique | Olsrd/src/mantissa.c:59-129 | that property determines the byte |
| Mantissa.DecodeExact | Olsrd/src/mantissa.c:167-176 | both branches of the decoder are one rounded-down formula |
| Mantissa.RoundTripLoss | Olsrd/src/mantissa.c:59-176 | from 125 ms below 4096000 ms decoding an encoded time never exceeds it and loses at most a sixteenth and 1 ms |
| Mantissa.RoundTripEnds | Olsrd/src/mantissa.c:59-176 | shorter times become 66 ms, longer ones 3968000 ms |
| Mantissa.RoundTripMonotone | Olsrd/src/mantissa.c:59-176 | decoding an encoded time is monotone for all times |
| Mantissa.ByteRoundTrip | Olsrd/src/mantissa.c:59-176 | encoding a decoded byte gives it back exactly for the listed bytes |

## Left out

- Sockets, the scheduler's polling, netlink and ioctl calls, tunnels, plugins, configuration, logging: I/O.
- Balancing of AVL trees, the pointers of doubly linked lists, hash buckets: trees are maps or ordered sequences, lists are sequences.
- Recycling of memory blocks: handles are never reused, so a freed block cannot come back under an old pointer.
- Olsrd/src/mpr.c and Olsrd/src/build_msg.c: the variants without link quality.
- MID aliases and the merging of neighbours in Olsrd/src/mid_set.c: addresses are main addresses.
- `olsr_delete_interface_routes` and the skipping of link-local IPv6 destinations: outside the agreement of table and kernel.
- Routing.Recalculate: the graph with our edges as the neighbour loop leaves them is a parameter; it is not read from the database model of `TcSet`.
- The flush of all routes when there is no main address (Olsrd/src/olsr_spf.c:362-372).
- What an empty TC removes besides the originator's edges: aliases and networks (Olsrd/src/tc_set.c:947-956); its cleanup of the duplicate set is an event of `Flooding`.
- Spf.SpfRun.RunFull: assumes that path sums of walks no longer than the node count stay below 2^32 - 1; `LinkCost.DefaultCostsFit` gives it for default costs.
- TimerWheel.Wheel.WalkTimers: no wrap of the millisecond clock, and callbacks arm no timer, periodic or not, with an interval of zero.
- TimerWheel.Wheel.WalkSlot: the same.
- TimerWheel.ActKeeps: the interval of an armed timer is at least 1 ms; `TimerWheel.DueAtOnceExactly` says what happens otherwise.
- TimerWheel.FireKeeps: the same for all actions of a callback.
- The second-hop cost and the saved path cost of a two-hop link (Olsrd/src/process_package.c:229-232), which are written and never read.
- TwoHop.TimerRun: a run of HELLOs of one neighbour; the removal of links between them is stated by the methods of `TwoHop.NeighborTables`.
- DupSet.NeverTwice: sequence numbers within 2^15 - 1 of the newest; expiry of entries by time is an event of `Flooding` only.
- TcInput.TcNode.ReceiveAdvertisement: no advertised address is on the deny list, where the code would skip the address but not its link quality.
- TcInput.TcNode.InputTc: border flags are zero together or expandable, as the writer makes them; what other flags overwrite is not modelled.
- TcBorder.CalculateTcBorder: the same, and so for `TcBorder.RebuildInPlace`.
- TcBorder.RebuildInPlace: the flag leads to a byte of the address, which is `ValidFlag` by `TcBorder.FlagInsideExactly`.
- Flooding.ForwardMessage: interfaces in mesh mode only.
- LqTc.SerializeLqTc: fragments carry their entries and flags, not the bytes of the message header.
- Rib.RouteTable.RoutingRun: the elected default route is stated against the earlier gateway only if there is a single default prefix; with several, a path is the minimum with or without the favour.
- HelloWriter.HelloBuffer.Serialize: requires room for the headers and one entry in an empty buffer of less than 64 kB.
