# babeld, modelled in Dafny

babeld is a routing daemon: it floods distances to destinations between neighbours, selects a loop-free route to each
of them, and installs the selected routes in the kernel. This project models the parts of it that carry an argument,
and proves the arguments. `dafny verify dfyconfig.toml` checks everything.

| file | what it models |
|---|---|
| `Common.dfy`, `Feasibility.dfy` | machine integers, sequence numbers on a circle, the feasibility condition and the two ways to compose a metric |
| `Network.dfy`, `StepEffects.dfy`, `LoopFreedom.dfy`, `RevivalLoop.dfy` | N routers exchanging updates for one source, as a state machine; what each step changes; loop freedom over all runs, and the run that breaks it |
| `Lex.dfy`, `SourceTable.dfy` | comparison functions as lexicographic orders; the sorted array of sources with its binary search, compaction, feasibility distances and route counts, and the maps that it stands for |
| `Rib.dfy`, `RouteSelection.dfy`, `Retraction.dfy`, `RouteTable.dfy` | the table of routes: slots in order, lists with the installed route at the head, route selection that re-enters itself, walks along lists that it reorders, streams |
| `Refinement.dfy` | the operations of that table are steps of the state machine |
| `Prefix.dfy`, `SourceSpecific.dfy`, `KernelTable.dfy`, `SeenPrefixes.dfy` | prefixes as bit strings, as bytes and as they are compared; a kernel table that is searched source first and must behave like a routing table that is searched destination first; the two families |
| `Wire.dfy`, `RoundTrip.dfy`, `UpdateBuffer.dfy`, `UpdateFlush.dfy` | the update format with its compression across messages, the output buffer with the updates that are due and flushes within flushes, the parser, and which buffered updates are sent |
| `Rules.dfy`, `PolicyRouting.dfy`, `RouteFiling.dfy`, `KernelRoutes.dfy` | the policy rules that choose a kernel table by source address; rules, tables and conflict entries put together; how every write keeps them together; from installing a route to forwarding a packet |
| `LinkMetric.dfy` | smoothing, round-trip times and link costs |
| `Resend.dfy` | the list of requests and updates to be sent again, and its timer |

## What is assumed

- Loop freedom: link costs are at least 1 (`LinkCost.CostBounds` says when they are), the sequence numbers that are
  still compared lie in a window of 2^15, source entries do not go stale (SOURCE_GC_TIME), and a router has one next
  hop per neighbour. Losing, duplicating and reordering messages are steps of the model. Split horizon is a step not
  taken. Randomised smoothing, the filters and local routes are free choices of each step. The kernel accepts every
  change of metric: where it refuses one, route.c:589-591 returns without storing the metric of an update whose
  sequence number route.c:949 has stored already. (`RouteTable.Table.Store` does model the refusal.) Under these
  assumptions the operations of the route table are steps of the network model (`Refinement.UpdateModels` and the others).
- The comment at route.c:928-931 says that an unfeasible update from the same source is ignored; the code stores it
  (route.c:945-971). Where the stored row is finite that does no harm. Where it is retracted and installed (and
  route.c:1084-1085 installs retracted rows) the update revives it, and a loop can form: `RevivalLoop.RevivalLoops`.
  The model follows the code. `LoopFreedom.NeverLoops` is for runs without such a revival.
  `LoopFreedom.StepLoopsExactly` says exactly when a step closes a loop, `LoopFreedom.OrderedExactly` which revivals
  break the order. Once a router is stranded without a loop, an old message may close one too;
  `LoopFreedom.RunTurnsBackExactly` covers those runs.
- The kernel does what it is asked in `KernelTable.dfy` and `Rules.dfy`; adding a route replaces the entry for its
  zone (kernel_netlink.c:1146-1148). In `RouteTable.dfy` it may refuse any request to install, switch or
  change the metric of a route: its answers are an arbitrary sequence, and each contract says how many are used.
- `prefix_cmp` compares prefixes correctly only if the shorter length is a multiple of 8, and calls every IPv6 prefix
  disjoint from every mapped IPv4 one (`Prefix.PrefixCmpExactly`, `Prefix.FamiliesAreDisjoint`). On whole bytes it is
  the order of the bits behind a flag for the family (`SeenPrefixes.SeenIsCompare`), and `KernelTable.dfy` works on
  any such strings. In IPv6 these are the prefixes themselves. In IPv4 they are not: a route that is not
  source-specific has the source ::/0, which contains no IPv4 source. `FamilyKernel` says what follows. `Rules.dfy`
  works on bytes and says where whole bytes are needed.
- A packet is a destination and a source, given by any strings of bits; `KernelRoutes.Family.Forwards` is about sources
  that are addresses.
- An update, encoded by itself, fits into the output buffer. 78 bytes hold any (message.c:1141); interface.c:352-362
  allows less on tiny links. Prefixes given to `really_send_update` are normalised, and the source prefix of a
  non-specific route is all zeroes.
- No two sources differ in their source prefix length only. `source_compare` cannot tell such sources apart, and
  `SourceTable.Table.FindSource` says exactly when the source it returns is the one that was asked for;
  `RouteTable.Table.UpdateRoute` starts from a source with the right key. The maps of `RouteTable.Table` are what
  `SourceTable.Table` holds: its `Entries` and `Counts`, on which both say the same of each operation.
- Routing tables and the rules: the main table is not one of the ten that are numbered for source prefixes, these end
  before 255 (configuration.c:903) and the main table is not 255, and no install filter names a table. Table 255 is the
  kernel's local table, which it searches before all rules.
- Fewer than 65535 routes point to one source, as the assertion at source.c:180 demands.

## What the code does not do

- It can loop: see above, and `LoopFreedom.StepLoopsExactly`.
- `kuninstall_route` overlooks the holder of a zone if that is a non-specific route, because `conflict_solution` scans
  source-specific routes only; the kernel table then lacks exactly that entry, and misroutes
  (`KernelTable.RouteInstaller.KUninstallRoute`, `KernelTable.MissingMisroutes`, `KernelTable.ForwardsExactly`).
- In IPv4, `conflicts` does not see that a non-specific route to a smaller destination conflicts with a source-specific
  route to a larger one (`SeenPrefixes.ConflictsExactly`), so their conflict is never solved in the kernel. All packets
  are forwarded right if and only if no two such routes are left undecided (`FamilyKernel.ForwardsV4Exactly`); with a
  route to 10.1.0.0/16 and a default route from 10.2.0.0/16 they are not (`FamilyKernel.MixedV4Misroutes`).
- Two disjoint source prefixes whose length is not whole bytes can share a routing table
  (`RuleOrder.UnalignedPrefixesShare`).
- With ten rules in force, the next source prefix gets no table (rule.c:62-66, rule.c:196-200;
  `RouteFiling.TenSourcePrefixes`). `find_table` then returns -1, which disambiguation.c:218-269 passes on and
  kernel_netlink.c:1159 stores in an unsigned char: the route goes to table 255, the local one
  (`RouteFiling.Routes.Write`), and takes all packets to its destination, whatever their source
  (`PolicyRouting.StrayTakesAll`).
- `retract_neighbour_routes` may leave a route of the neighbour unretracted, and installed: route selection moves it to
  the head of the list that is walked, behind the walk (`RouteTable.Table.RetractSlot`, `Retraction.StaysBehind`). It
  takes a neighbour with two next hops for one prefix pair.
- A resend that is recorded again by an older request may never be sent (`Resend.ForgottenResend`). A request that is
  answered by its own resending has its number of tries, an unsigned char, counted down from 0; in the first 65 seconds
  of the clock, which starts with the machine (kernel.c:60-65), it may be sent 255 more times
  (`Resend.AnsweredIsOver`, `Resend.RearmedWhen`).
- Link costs can wrap once no Hello was heard for 40 seconds (`LinkCost.LateExactly`, `LinkCost.LateCostWraps`), and
  so can averages of round-trip times (`RoundTripTime.AverageExactly`, `RoundTripTime.StableExactly`).
- The product in `route_smoothed_metric` can overflow a 32-bit int, which C leaves undefined: with a half-life of two
  seconds, when a retracted route comes back, say at a metric of 96 (`Smoothing.OverflowsExactly`). If it wraps, the
  step has the wrong sign, but the unsigned short it is added to ends up right (`Smoothing.StoredStaysBetween`).
- A one-second step of `route_smoothed_metric` would overshoot with a half-life of one second
  (`Smoothing.OneSecondOvershoots`), but then the loop over half-lives leaves no second for it.

## Model

| member | source | states |
|---|---|---|
| Seqno.CompareInWindow | util.h:71-78 | `seqno_compare` on 16-bit numbers is the order of the unbounded numbers they came from, at any distance up to 2^15 |
| Seqno.WindowIsHalfTheCircle | util.h:71-78 | that agreement holds on a window of a given width if and only if the width is at most 2^15: at distance 2^15 each number counts as newer than the other |
| Feasibility.FeasibleIsBetter | route.c:674-691 | an update of a source that is not stale is feasible if and only if it is a retraction or its unbounded distance is strictly better than the feasibility distance |
| Feasibility.AdvertisedIsBest | source.c:192-210 | recording an advertisement keeps the better of the stored pair and the advertised one, and invents no third |
| RouteMetric.StrictIncrease | route.h:58-74 | with a link cost of at least 1, both composed metrics strictly exceed the neighbour's metric unless they are infinite, and retractions stay retractions |
| RouteMetric.MetricExactly | route.h:58-63 | the metric is the sum of what the neighbour pays, the link and the filter, below infinity, and infinite exactly if that sum is |
| RouteMetric.NonInterferingExactly | route.h:65-74 | without interference the link counts for its share of 256, rounded, but for at least 1 in all; with a factor of 256 it is the plain metric |
| LoopFreedom.ConsiderKeeps | route.c:1063-1107 | whatever is or is not installed, the router's own order (each installed finite route descends in distance) survives a consideration |
| LoopFreedom.UpdateRouteKeeps | route.c:866-1030 | receiving an update keeps the order of the router and its feasibility distance, unless it revives a retracted route through a neighbour that is not closer |
| LoopFreedom.AnnounceKeeps | message.c:1361-1406 | after sending, everything ever sent by a router is still backed by its own feasibility distance |
| LoopFreedom.FlushKeeps | route.c:266-319 | dropping a route and installing a replacement keeps the invariant of the whole network |
| LoopFreedom.RetractNeighbourKeeps | route.c:1109-1128 | retracting a route of a lost neighbour keeps the invariant of the whole network |
| LoopFreedom.ExpireKeeps | route.c:799-811 | retracting an expired route under the next sequence number keeps the invariant of the whole network |
| LoopFreedom.StepKeeps | route.c:866-1107 | every step of any router but a revival keeps: sent distances are backed, and an installed finite route leads to a strictly better distance |
| StepEffects.UpdateReceived | route.c:906-1028 | what a router makes of an update: its row holds the number, metric and costs announced, whatever the distance; a new row is added if and only if the update is finite, and an improvement or unfeasible ones are kept; the source is created, at infinity, if it is missing; which row is installed then, by the sums of the costs and by the distance; no other row and no other router changes |
| StepEffects.WithdrawnHopIsGone | route.c:266-319 | what a step takes away: after a neighbour's own retraction, the retraction of its routes, their expiry or their loss, the router does not forward through that neighbour, whatever was installed; the row is unreachable, or gone after a loss; nothing else changes |
| StepEffects.RetractionPicks | route.c:1109-1210 | the retracted row in full, under the number of the source increased by one if it expired (route.c:799-811), and which row is installed then |
| StepEffects.FlushPicks | route.c:1212-1235 | if the route that is gone was installed, the best row that is left takes over, if there is one and no local route has priority; otherwise nothing changes |
| StepEffects.CostPicks | route.c:812-824 | a change of cost changes that of the row, and which row is installed then |
| StepEffects.Announces | message.c:1361-1416 | exactly one message goes out unless the filter refuses it: the installed row with its number and the metric packets pay over it, raised by the filter, or a retraction if there is none; the recorded distance becomes the better one of itself and what is announced |
| StepEffects.OthersSend | message.c:1581-1586 | the origin announces its present number, and raises it by one; a lost message is gone; no router changes |
| StepEffects.AlwaysPossible | route.c:866-1107 | no step is held back: any message may be received over any link that costs at least 1, and any route change, expire or be lost, at any time |
| LoopFreedom.StepKeepsOrderExactly | route.c:945-971 | a step keeps the order along next hops if and only if it is not a revival by a neighbour whose distance is no better, over which no cheaper feasible route takes over (route.c:1185-1210) |
| LoopFreedom.PathDescends | route.c:674-691 | along any path of next hops the feasibility distance strictly improves from its first router to its last |
| LoopFreedom.OrderImpliesLoopFree | route.c:674-691 | an ordered network has no forwarding loop of any length |
| LoopFreedom.LoopsThroughHop | route.c:542-575 | giving one router another next hop closes a loop, of any length, if and only if that next hop already leads back to the router |
| LoopFreedom.UpstreamIsNotCloser | route.c:674-691 | a router whose packets come through another one has no better distance than that one |
| LoopFreedom.StepLoopsExactly | route.c:945-971 | a step of any router closes a loop if and only if it revives a retracted route through a neighbour that already forwards back to the router, and no cheaper feasible route takes over: a condition on the state before the step |
| LoopFreedom.RunKeeps | route.c:866-1107 | the invariant holds after every run from an empty network, under any loss, duplication and reordering |
| LoopFreedom.NeverLoops | route.c:866-1107 | N routers exchanging updates for one source never form a forwarding loop, in any state of any run in which no unfeasible update revives a retracted installed route |
| LoopFreedom.OrderedExactly | route.c:928-971 | over whole runs, the distance improves along every next hop in every state if and only if no step of the run strands a router |
| LoopFreedom.RunLoopsExactly | route.c:928-971 | over whole runs, as long as no step has stranded a router there is no loop, and the next step closes one if and only if it is a revival as above |
| LoopFreedom.StepTurnsBackExactly | route.c:866-1107 | in any state without a loop, reached how ever, a step closes one if and only if it gives some router a next hop that already leads back to that router |
| LoopFreedom.RunTurnsBackExactly | route.c:866-1107 | a run, stranded routers and worn-out sequence numbers included, is without a loop in all its states if and only if no step of it does that |
| RevivalLoop.RevivalLoops | route.c:1084-1085 | for every pair of link costs f < g, a run of ten legal steps that ends in a loop of two routers: a retracted route is installed, then revived by an unfeasible update (route.c:945-971) |
| SourceOrder.CompareIsVectorOrder | source.c:39-76 | `source_compare` is the lexicographic order of (id, plen, prefix, source prefix), hence a total preorder |
| SourceOrder.ConfusesExactly | source.c:39-76 | two keys are one entry to the table if and only if they agree on everything but the source prefix length |
| SourceHistory.StoresTheBest | source.c:192-210 | after any run of advertisements in a window of 2^15, the stored pair is the best of those heard since the entry was last found stale |
| SourceHistory.NeverWorsens | source.c:192-210 | without a gap of SOURCE_GC_TIME the stored pair is the best of the initial pair and all finite advertisements, and a later pair is at least as good as an earlier one |
| SourceHistory.StaleFrom | source.c:203-203 | an entry is stale once more than two hundred seconds have passed since it was written, and stays so until it is |
| SourceHistory.FreshOnceWritten | source.c:192-210 | a finite advertisement makes an entry fresh, and replaces a stale pair whatever it says; an infinite one changes nothing |
| SourceMaps.SurvivesExactly | source.c:223-226 | a source goes if and only if no route points to it and more than two hundred seconds have passed |
| SourceMaps.ClampedExactly | source.c:219-221 | a time that lies ahead becomes the present, the pair stays |
| SourceTable.Source.Update | source.c:192-210 | `update_source` on the object is the transition whose runs are characterised in `SourceHistory`; infinite metrics leave it alone |
| SourceTable.Table.RetainSource | source.c:177-183 | in the table seen as a map, the count of exactly this source is one more, and no stored pair changes |
| SourceTable.Table.ReleaseSource | source.c:185-190 | the count of exactly this source is one less, and no stored pair changes |
| SourceTable.Table.UpdateSource | source.c:192-210 | the stored pair of exactly this source makes its transition, and no count changes |
| SourceTable.Table.FindSourceSlot | source.c:78-109 | binary search returns the index of the key if it is there, otherwise the place where it belongs in the order |
| Lex.SlotUnique | source.c:78-109 | the place that a failed search returns is the only one that keeps the table sorted, and the key is nowhere in it |
| SourceTable.Table.Insert | source.c:162-172 | the entry is spliced in at its place, whether or not the array had to grow |
| SourceTable.Table.FindSource | source.c:131-175 | returns the stored source or creates an unreachable one in order; the source returned has the requested key if and only if no stored source differs from it in the source prefix length only, and in that case the table, seen as a map, is as before but for a missing key, which is added with a count of 0 |
| SourceTable.Table.Compact | source.c:212-237 | the in-place loop leaves exactly the marked sources, in order, and empties the rest of the array |
| SourceTable.Table.ExpireSources | source.c:212-237 | a source survives if and only if a route points to it or it was heard of within SOURCE_GC_TIME; order is kept, clocks that ran ahead are clamped; pairs and counts are exactly those of the survivors |
| SourceMaps.ExpiredMaps | source.c:212-237 | a list that was swept holds, as a map, exactly the surviving entries of the map it held before |
| RouteTable.Table.ReferencedExactly | source.c:177-190 | in a valid route table a source has a positive count if and only if some route points to it |
| RouteTable.Table.ExpireSources | source.c:212-237 | sweeping the sources keeps the route table valid: no route is left with a source that is gone, whatever its age, and every count is still the number of routes |
| RouteOrder.RouteCompareIsVectorOrder | route.c:78-125 | `route_compare` is the lexicographic order of a vector that starts with a flag for source-specific pairs, hence a total preorder |
| RouteOrder.SlotIsPair | route.c:78-125 | two prefix pairs share a slot if and only if they are equal, the source prefix of a non-specific pair aside |
| RouteOrder.SpecificFirst | route.c:85-90 | nothing that precedes a source-specific pair is non-specific |
| Rib.RoutesApart | route.c:72-74 | in a table that satisfies the invariant, a prefix pair, neighbour and next hop determine the route, and a prefix pair determines the installed route |
| Rib.SwitchSlot | route.c:479-495 | marking a route as installed, unmarking the old one and relinking it at the head keeps the invariant, and changes no more than the two flags |
| RouteTable.Table.FindRouteSlot | route.c:127-160 | binary search returns the slot of the prefix pair; if it fails no route of the table has that pair |
| RouteTable.Table.FindRoute | route.c:162-182 | returns the route of a prefix pair, neighbour and next hop if and only if there is one |
| RouteTable.Table.FindInstalledRoute | route.c:184-194 | returns the installed route of a prefix pair if and only if there is one, although it looks at the head of the list only |
| RouteTable.Table.InsertRoute | route.c:223-257 | adds exactly the route, in a new slot or at the end of its list, and keeps the table invariant |
| RouteTable.Table.MoveInstalledRoute | route.c:479-495 | the list is as before but for the route, which is at its head |
| RouteTable.Table.InstallRoute | route.c:497-527 | the kernel is asked if and only if nothing is installed for the prefix pair; the route becomes the one installed route if and only if it agrees; no other slot changes |
| RouteTable.Table.UninstallRoute | route.c:529-540 | clears exactly the flag of the route and keeps the table invariant |
| RouteTable.Table.SwitchRoutes | route.c:542-575 | hands the prefix pair over to the new route if the kernel agrees, and otherwise changes nothing |
| RouteTable.Table.FindBestRoute | route.c:752-797 | returns an acceptable route of least smoothed metric if and only if there is an acceptable one; said of the times, keys and neighbours of the routes |
| RouteTable.Table.ConsiderRoute | route.c:1058-1107 | the kernel is asked if and only if the route may be installed and nothing is, or it is reachable, and the installed one is unreachable, or no cheaper and strictly less smooth: so a switch away from a reachable route lowers the smoothed metric and never raises the metric; the table changes if and only if the kernel agrees |
| Selection.SwitchImproves | route.c:1058-1098 | no switch makes a reachable metric worse, and a switch cannot be undone by considering the old route again at the same metrics |
| Selection.PreferredMeans | route.c:1058-1098 | when a route takes over, in terms of the metrics: if nothing else is installed; or if it is reachable, and the installed one is unreachable, or no cheaper and strictly less smooth |
| Selection.FeasibleMeans | route.c:674-691 | a route is feasible if and only if it is a retraction, strictly better than the distance of its source, or that is stale |
| Selection.WelcomeMeans | route.c:674-691 | an update is feasible if its source is not known, or if the route that holds it is |
| Selection.SmoothedMeans | route.c:714-750 | the smoothed metric is the metric unless smoothing is on, the route is reachable, and the two are at least 4 apart |
| Selection.BestMeans | route.c:752-797 | the best route has not expired, is feasible if that is asked for, avoids the neighbour that is to be avoided, and no other such route is smoother; there is none if and only if there is no such route |
| RouteTable.Table.RouteLost | route.c:1212-1235 | when nothing is installed, the kernel is asked if and only if an acceptable feasible route is left and none of our own shadows it, and it is asked for the best one |
| RouteTable.Table.RouteChanged | route.c:1185-1210 | which route takes over: the best feasible one if the changed route is installed and dearer, the changed one itself if it is not installed; the kernel is asked if and only if it is preferred, the table changes if and only if the kernel agrees, and no prefix pair loses its installed route |
| RouteTable.Table.FlushRoute | route.c:266-319 | removes exactly the route, releases its source, offers the best remaining route if and only if it was installed, one is left and none of our own shadows it, and leaves all slots before its own untouched |
| RouteTable.Table.FlushMatching | route.c:341-384 | the flush loop ends and leaves exactly the unmatched routes, although each flush may drop the slot, shift the table and reorder the list |
| RouteTable.Table.FlushNeighbourRoutes | route.c:341-361 | exactly the routes of other neighbours remain, and every route count is right |
| RouteTable.Table.FlushInterfaceRoutes | route.c:363-384 | exactly the routes of other interfaces (or, for v4only, with other than mapped next hops) remain |
| RouteTable.Table.FlushAllRoutes | route.c:321-339 | empties the table from the end, and every source is left with a route count of 0; nothing is installed on the way |
| RouteTable.Table.GiveUp | route.c:932-943 | an unfeasible update from another source uninstalls the route, and nothing else does |
| RouteTable.Table.Store | route.c:920-981 | the update is stored in place of the old route with every field as announced; the metric is the old one only if the kernel refused the new one for a route that stays installed, and it is asked only if the metric in the kernel differs; which route is installed afterwards, as for UpdateRoute |
| RouteTable.Table.Refresh | route.c:920-981 | in addition every source's route count is right again, although the new source is retained before and the old released after selection runs |
| RouteTable.Table.Learn | route.c:982-1028 | an unknown route is stored if and only if it is finite and feasible or unfeasible routes are kept |
| RouteTable.Table.UpdateRoute | route.c:865-1030 | an update is not stored if and only if it is refused, or the route is unknown and it is a retraction or an unfeasible update that is not kept, and then no route changes; a stored one takes the place of the one route with its prefix pair, neighbour and next hop, with exactly these fields; the routes and their flags are then exactly those of one selection: the best feasible route is offered if the route is installed or was given up, the route itself otherwise, the kernel is asked if and only if it wins, and it is switched to if and only if the kernel agrees; the invariant and all route counts are kept |
| Selection.NewRouteIsDearer | route.c:1000-1009 | a route that a first update creates costs what its neighbour pays, the link and the filter, which is more if the link costs anything |
| Selection.LearnedIsHeldBack | route.c:1009-1009 | with smoothing on, a route that was just learned does not displace a reachable one whose smoothed metric is at most half of infinity less 3, whatever its own metric |
| RouteTable.Table.HoldTimeExactly | route.c:879-879 | a route is held for six announced intervals, at least 15 seconds |
| Selection.ToKernelExactly | route.c:466-477 | the metric given to the kernel, infinite if the route is unreachable, and different for two reachable metrics only if it reflects them |
| Selection.NeverRefused | route.c:577-608 | the kernel refuses no metric of a route that it does not have, and none that is the same to it |
| Refinement.ChangedModels | route.c:1185-1210 | the route table refines the network model: seen as the rows of a router, the routes of one prefix pair with one route for each neighbour after route_changed are those that the model has, for every outcome with which the kernel agrees |
| Refinement.LostModels | route.c:1212-1235 | the same for route_lost |
| Refinement.UpdateModels | route.c:906-981 | the same for an update of a known route: what RouteTable.Table.UpdateRoute promises is a step of the model |
| Refinement.LearnModels | route.c:982-1028 | the same for an update that creates a route |
| Refinement.RetractModels | route.c:1109-1128 | the same for one step of the walk that retracts the routes of a neighbour |
| Refinement.FlushModels | route.c:266-319 | the same for flush_route |
| RouteTable.Table.Reconsider | route.c:970-977 | of the two selections that follow an update, the one for the route does nothing if the route was given up, so that they amount to the one of UpdateRoute |
| Selection.SelectionKeeps | route.c:1185-1235 | such a selection touches no other prefix pair; where something was installed and not given up, something still is, with a metric that is no worse unless nothing reachable was installed |
| Selection.StaysOut | route.c:1072-1074 | no such selection installs a route that is not feasible |
| RouteTable.Table.RetractSlot | route.c:1114-1127 | the walk along a list that each step may reorder, ahead of it or behind: it ends, and leaves no route of the neighbour unretracted if the head of the list is not an installed route of the neighbour; if it is, then exactly that route, if the kernel refuses, and the route that selection switches to, if it is one of the neighbour |
| Retraction.RetractedIsRecosted | route.c:610-616 | retracting a route is changing its metric to infinity, smoothed metric included |
| RouteTable.Table.RetractNeighbourRoutes | route.c:1109-1128 | exactly the routes of the neighbour are retracted but for those, which are for prefix pairs with an installed route of the neighbour; nothing else changes but flags, and all counts stay right |
| Retraction.StaysBehind | route.c:1109-1128 | a second route of the neighbour for the prefix pair of its installed one is switched to, and not retracted, whenever it is the best one left and the kernel agrees |
| Selection.StreamsExactly | route.c:405-458 | a stream of installed routes, or of installed source-specific routes, contains each of them exactly once |
| RouteTable.Table.StreamNext | route.c:426-445 | each call yields the next element of that stream, and the source-specific one may stop at the first slot that is not |
| RouteTable.Table.Stream | route.c:399-464 | walking a stream to its end yields exactly the installed (source-specific) routes, no prefix pair twice |
| SourceSpecific.HolderShape | disambiguation.c:48-90 | who should hold an unoccupied zone: the deepest route with the zone's destination, if a route with the zone's source is wider |
| SourceSpecific.HolderUnique | disambiguation.c:48-76 | no zone has two rightful holders, although `rt_cmp` calls unrelated routes equal |
| SourceSpecific.InterIsIntersection | disambiguation.c:102-134 | inter gives exactly the packets that match both routes, and nothing exactly if there are none |
| SourceSpecific.ConflictsMeans | disambiguation.c:78-89 | two routes conflict exactly if each is strictly more specific than the other in one respect |
| SourceSpecific.MirrorUnique | disambiguation.c:102-208 | the installed set determines the kernel table |
| SourceSpecific.WinnersAgree | disambiguation.c:48-132 | the kernel's winner for a packet is the routing table's winner |
| SourceSpecific.KernelForwardsAsRib | disambiguation.c:48-208 | for every packet, source-first longest-match lookup in the kernel table with one entry per unsolved conflict zone returns exactly the route of destination-first lookup in the installed routes |
| KernelTable.RouteInstaller.MinConflict | disambiguation.c:143-168 | returns the least of the partners with which a route conflicts over a zone, if there is one |
| KernelTable.RouteInstaller.ConflictSolution | disambiguation.c:170-208 | the double loop returns the source-specific holder of a zone if it has one |
| KernelTable.RouteInstaller.SolutionIsHolder | disambiguation.c:170-208 | its answer is the rightful holder if and only if the holder is not one of the non-specific routes that the loop never looks at |
| KernelTable.RouteInstaller.InstallConflict | disambiguation.c:296-310 | one round deals with exactly the zones that the scanned route represents, touches at most one, and makes none worse |
| KernelTable.RouteInstaller.UninstallConflict | disambiguation.c:364-378 | the same for the set without the removed route |
| KernelTable.RouteInstaller.SwitchConflict | disambiguation.c:409-421 | one round hands over exactly the zone that the old route held and the scanned route represents |
| KernelTable.RouteInstaller.KInstallRoute | disambiguation.c:270-328 | from any kernel table that lacks at most overlooked entries: every zone that agreed with the table computed from scratch still does, for the set with the route, nothing else goes missing, and exactly the zones that changed were written, each once |
| KernelTable.RouteInstaller.KUninstallRoute | disambiguation.c:330-382 | the same for the set without the route, but for its own zone, which ends up right if and only if its new holder is not overlooked, and without an entry otherwise |
| KernelTable.RouteInstaller.KSwitchRoutes | disambiguation.c:384-426 | the same for the switched set, with no exception |
| KernelTable.RouteInstaller.KChangeRouteMetric | disambiguation.c:428-474 | the same for a route whose metric changes |
| KernelTable.RouteInstaller.InstallRoute | route.c:497-527 | installing keeps the kernel table free of wrong entries, and complete if it was; a second route to the same zone is refused |
| KernelTable.RouteInstaller.UninstallRoute | route.c:529-540 | uninstalling keeps the kernel table free of wrong entries whatever happened before, and leaves it complete if and only if the new holder of the zone is not overlooked |
| KernelTable.RouteInstaller.SwitchRoutes | route.c:542-575 | switching keeps the kernel table free of wrong entries, and complete if it was |
| KernelTable.MissingMisroutes | disambiguation.c:170-208 | every overlooked zone without an entry is misrouted: from and to just its prefixes the routing table gives its holder, the kernel something else |
| KernelTable.ForwardsExactly | disambiguation.c:48-208 | a kernel table that lacks at most overlooked entries forwards as the routing table says, for all destinations and sources, if and only if it lacks none |
| KernelTable.OverlookedMisroutes | disambiguation.c:179-181 | a concrete pair of routes with such a zone |
| SeenPrefixes.SeenIsCompare | util.h:333-362 | on whole bytes, for any two families, `prefix_cmp` is the order of the bits behind a flag for the family |
| SeenPrefixes.BytesAreSeen | disambiguation.c:48-132 | `conflicts`, `rt_cmp` and `inter`, computed on bytes with `prefix_cmp`, are those of the model on such strings, in both families |
| SeenPrefixes.ConflictsExactly | disambiguation.c:77-90 | `conflicts` is right about two routes of one family if and only if it is not the case that they are IPv4 and exactly one is not source-specific, with the strictly more specific destination |
| FamilyKernel.PairIsSeen | disambiguation.c:91-100 | the strings of a pair of prefixes are those of its bits, behind the flags |
| FamilyKernel.SeenHolder | disambiguation.c:170-208 | who holds a zone as the code sees it is who should hold it, but for a non-specific route that wins a conflict in IPv4 |
| FamilyKernel.OverlookedExactly | disambiguation.c:170-208 | some zone is held by a non-specific route if and only if such a route and a source-specific one with a wider destination are installed, with nothing source-specific to decide between them |
| FamilyKernel.ForwardsV6Exactly | disambiguation.c:48-208 | in IPv6 the kernel forwards as the routing table says if and only if it lacks no overlooked entry |
| FamilyKernel.ForwardsV4Exactly | disambiguation.c:48-208 | in IPv4 it does, after any operations, if and only if no two such routes are installed: a condition on the installed routes alone |
| FamilyKernel.UndecidedMisroutes | disambiguation.c:77-90 | for any two such routes in IPv4, the packets that go wrong |
| FamilyKernel.MixedV4Misroutes | util.h:339-340 | a route to 10.1.0.0/16 from anywhere and a default route for packets from 10.2.0.0/16: the conflict is not seen, and packets from the latter network to the former follow the default route |
| PolicyRouting.LongestMatch | disambiguation.c:218-254 | the lookup in one table returns the entry with the longest matching destination, if and only if one matches |
| PolicyRouting.PolicyIsSourceFirst | rule.c:47-50 | with the rules in order and each entry filed in the table of its source prefix (disambiguation.c:218-240), trying the rules by priority, and falling through tables without a match, is the source-first lookup |
| PolicyRouting.PacketsFollowTheRib | disambiguation.c:218-254 | rules, tables and conflict entries together forward every packet exactly as destination-first lookup in the installed routes says, when the entries are filed as `RouteFiling.Routes` keeps them, mirror the installed routes, and none strayed into the local table |
| PolicyRouting.StrayTakesAll | disambiguation.c:218-240 | a route that strayed into the local table takes all packets to its destination, whatever their source, but for those to a longer destination there |
| RouteFiling.OneTable | rule.c:178-202 | with the rules in order and each with its own number, source prefixes and routing tables determine one another |
| RouteFiling.RulesAdded | rule.c:178-202 | a new rule, of either family, leaves everything that was filed where it belongs |
| RouteFiling.RouteWritten | disambiguation.c:218-228 | an entry written to the table of its source prefix overwrites that of its zone and no other, and all remain filed |
| RouteFiling.RouteDeleted | disambiguation.c:230-240 | an entry removed from the table of its source prefix is that of its zone and no other |
| RouteFiling.Routes.Write | disambiguation.c:218-254 | add_route and chg_route, with find_table: if and only if the source prefix has a rule or one is left (or is empty), the zone gets the route and all stays filed; otherwise the route goes to the local table; what this does to the number of rules, and for which source prefixes there are some |
| RouteFiling.Routes.Delete | disambiguation.c:230-240 | del_route, with find_table: under the same condition the zone loses its route and all stays filed, otherwise an entry of the local table goes |
| RouteFiling.AskedTwice | rule.c:50-66 | the rules after two requests are those after one for both sets of source prefixes, and they suffice for both if and only if they suffice for one after the other |
| RouteFiling.EnoughForFewer | rule.c:50-66 | rules that suffice for some source prefixes suffice for fewer |
| RouteFiling.TenSourcePrefixes | rule.c:50-66 | over any sequence of requests from both families, from no rules on, a table is found for every source prefix if and only if at most ten different ones are asked for in all |
| RouteFiling.Routes.RulesMade | rule.c:178-202 | what one family has filed stays filed when the other makes rules |
| KernelRoutes.AddressBits | rule.c:149-176 | a source prefix of whole bytes has an address that find_table is called with |
| KernelRoutes.Family.Install | route.c:497-527 | install_route down to the routing tables: all writes of the installer are filed, and while no table number was missing the kernel has exactly what the installer wrote; exactly the zones that changed are written, with source prefixes of these routes, and no table number is missing if and only if none was before and the rules that are left suffice for the new ones among these source prefixes |
| KernelRoutes.Family.Uninstall | route.c:529-540 | the same for uninstall_route; in IPv6 the kernel stays complete if and only if no holder is overlooked |
| KernelRoutes.Family.Switch | route.c:542-575 | the same for switch_routes |
| KernelRoutes.Family.OtherFamily | rule.c:178-202 | an operation on IPv4 routes keeps all of this for IPv6, and the other way round, although they share the rules |
| KernelRoutes.Family.Forwards | disambiguation.c:218-254 | end to end, with nothing assumed of the kernel: after any of these operations, as long as no table number was missing, local table, rules, tables and conflict entries forward every packet as destination-first lookup in the installed routes says, in IPv4 if no two installed routes are undecided, in IPv6 if nothing is missing |
| Prefix.InPrefixIsMembership | util.c:207-227 | `in_prefix` decides whether the bits of the prefix begin those of the address |
| Prefix.NormalizeIsCanonical | util.c:229-247 | normalising keeps the prefix and gives equal bytes to equal prefixes only |
| Prefix.AlignedIsCompare | util.h:333-362 | on whole bytes and within a family `prefix_cmp` is the order of prefixes, whatever lies behind the addresses in memory |
| Prefix.PrefixCmpExactly | util.h:345-351 | for two lengths `prefix_cmp` is the order of prefixes, on all addresses of a family, if and only if the shorter length is a multiple of 8 |
| Prefix.UnalignedLooksAt | util.h:345-351 | which bits the comparison looks at instead, on other lengths: those of the byte behind the partial one, as many as are missing to a whole byte |
| Prefix.FamiliesAreDisjoint | util.h:339-340 | across families its answer is right exactly when the prefixes are disjoint |
| Wire.ReservationSuffices | message.c:1140-1141 | the reserved space covers the next-hop, router-id and update TLVs of any single update |
| Wire.ReservationIsTight | message.c:1140-1141 | a source-specific IPv6 update with 20 channels and a new router-id needs all 78 bytes |
| Wire.HeaderLayout | message.c:1193-1212 | the first twelve bytes of an update TLV, as section 4.4.9 of RFC 6126 lays them out: type, length, encoding, flags or source length, length, omitted bytes, interval, number, metric |
| Wire.ContentLayout | message.c:1213-1225 | the rest of it: the prefix without what is omitted, the source prefix, and sub-TLV 2 with the channels |
| Wire.OmitExactly | message.c:1166-1170 | as many whole bytes are omitted as the prefix shares with the remembered one, none of an IPv4 prefix |
| Wire.FlagBits | message.c:1171-1186 | flag 0x80 if and only if later prefixes may be compressed against this one, flag 0x40 if and only if its low half is the router-id that the receiver needs |
| Wire.OtherParts | message.c:1143-1192 | the next hop and router-id TLVs are there if and only if the receiver needs them, in the layout of sections 4.4.7 and 4.4.8 of RFC 6126 |
| Wire.NetworkPrefixAccepts | message.c:60-120 | which compressed prefixes are accepted, for every encoding, length, omission and default prefix |
| Wire.NetworkPrefixExactly | message.c:60-120 | what an accepted prefix is, byte by byte: omitted bytes come from the default prefix, the others were sent, all beyond the length are zero; and how many bytes were used |
| Wire.NextHopParsed | message.c:415-440 | the next hop after any NH TLV: an address in one of four encodings, or all next hops are forgotten |
| Wire.UpdateUndecoded | message.c:446-470 | an update that is truncated or not decodable teaches nothing, and makes the default prefixes forgotten if it was to set one or that cannot be told |
| Wire.NoDefault | message.c:455-465 | bytes cannot be omitted without a default prefix of the family |
| Wire.UpdateDecoded | message.c:470-530 | any update that is decoded sets the default prefix and router-id that its flags say, and teaches exactly the record of its fields, or a retraction of everything, or nothing without a router-id or IPv4 next hop |
| Wire.SpecificDecoded | message.c:573-644 | the same for source-specific updates, which never change the state of the parser |
| Wire.SubTlvsStep | message.c:122-172 | the sub-TLVs one by one: padding, channels, of which 20 are kept, unknown ones and truncated ones |
| Wire.NoSubTlvs | message.c:130-140 | the channels of an update without sub-TLVs |
| RoundTrip.UpdateParses | message.c:443-531 | from any state of the receiver that agrees with the sender, the update TLV yields exactly the update that was meant (plain or source-specific, message.c:573-645) |
| RoundTrip.UpdateUnderstood | message.c:1143-1230 | the TLVs of one update, with everything elided that the sender elides, are understood, and sender and receiver agree again |
| RoundTrip.PacketRoundTrip | message.c:1143-1230 | for any sequence of updates and other messages in a packet, parsing the encoding yields the meant updates in order, with router-id, prefixes, seqno, metric, next hop and channels restored |
| UpdateBuffer.Interface.FlushBuf | message.c:814-862 | a flush first writes every update that is due, which may flush again, then sends what is buffered as a packet and forgets the compression state with it; the history grows by exactly what flushupdates sends |
| UpdateBuffer.Interface.EnsureSpace | message.c:893-898 | there is room for the requested bytes afterwards, or at least the buffer is empty, after a flush if and only if there was none; the history grows by exactly what that flush sends |
| UpdateBuffer.Interface.FlushUpdates | message.c:1279-1425 | through all flushes on the way, the history grows by exactly the updates for what was due, in the order of sending, nothing is due afterwards, and the recursion ends |
| UpdateBuffer.Interface.BufferUpdate | message.c:1438-1475 | the prefix pair becomes due; what was due is flushed first if and only if the array is full, and a new array is allocated if there is none |
| UpdateBuffer.MadeExactly | message.c:1320-1425 | the update that the lookups give for a prefix pair is among the items that a flush writes exactly as often as UpdateFlush.FlushUpdates says, once for a route however often it was buffered |
| UpdateBuffer.Interface.SharedBytes | message.c:1166-1170 | the loop counts the leading bytes that the prefix shares with the remembered one, and no more than the length allows |
| UpdateBuffer.Interface.SendOther | message.c:900-960 | any other message joins the history of the interface, after what the flush for its space sends |
| UpdateBuffer.Interface.ReallySendUpdate | message.c:1111-1231 | byte by byte, the buffer ends up as the encoding of the history with at most one update added: none exactly if the interface is down, the filter refuses it, or IPv4 has no next hop; otherwise one with the id, prefix pair and number given, the metric raised by the filter and capped, channels under diversity only, and the interval and address of the interface; no flush comes between computing the compression and writing it, on any buffer that can hold the update |
| UpdateFlush.WrittenForSays | message.c:1351-1417 | the same for each choice of a flush: our own id and number with our metric for our own route, those of the route for an installed one, and infinity under our own for a retraction |
| UpdateBuffer.SaidIsLearned | message.c:409-530 | a receiver of that update learns exactly this id, prefix pair, number, raised metric, interval and next hop |
| UpdateBuffer.Interface.Understood | message.c:270-663 | at any time, a receiver that parses the packets sent so far, and the one being filled, learns exactly the updates that were sent, in order |
| UpdateBuffer.Interface.UnderstoodAsReceived | message.c:270-663 | of any packets that arrive, in any order and any number of times, a receiver learns exactly the updates that were sent in them: a lost packet, or one that the token bucket held back, costs nothing else |
| UpdateBuffer.HistoryUnderstood | message.c:270-663 | the same for any division of the history into packets |
| UpdateBuffer.ParsePacket | message.c:270-720 | the parsing loop yields exactly the events of the packet body, and stops at a truncated message |
| UpdateOrder.CompareIsVectorOrder | message.c:1236-1277 | `compare_buffered_updates` is the lexicographic order of a vector of the entry, hence a total preorder |
| UpdateOrder.VectorIsEntry | message.c:1236-1277 | only equal entries compare as equal |
| UpdateOrder.Adjacent | message.c:1335-1337 | in a sorted buffer nothing comes between two copies of an entry |
| UpdateOrder.GroupedById | message.c:1311-1312 | updates with one router-id go out together, those for IPv6 before those for IPv4 |
| UpdateOrder.LongerFirst | message.c:1250-1262 | within one router-id and family, addresses of the router go first, and otherwise longer prefixes |
| UpdateFlush.FlushUpdates | message.c:1279-1425 | per flush, for each prefix pair that was buffered: our own route is sent once if there is one, and nothing is installed or its metric is at most kernel_metric; otherwise the installed route once, or not at all if split horizon suppresses it; a retraction as often as it was buffered if there is neither; nothing else is sent |
| UpdateFlush.ChooseMeans | message.c:1342-1417 | which of our own route, the installed one and a retraction goes out, exactly, from the tables that are looked up |
| UpdateFlush.OrderIsOfEncoding | message.c:1236-1277 | the order of a flush sees families and router addresses as the encoding does: those sent first of an id make its router-id TLV unnecessary |
| UpdateFlush.ProperExactly | message.c:1438-1475 | any prefix pair that an update can carry may be buffered |
| RuleOrder.CmpIsOrder | util.h:333-362 | on whole bytes the comparison that orders the rules is that of prefixes, families being disjoint |
| RuleOrder.FirstMatchIsLongest | rule.c:47-50 | trying the rules by priority finds the matching rule with the longest source prefix, which is unique, or none if none matches |
| RuleOrder.InsertOrdered | rule.c:149-176 | a rule put where `find_table_slot` says keeps every more specific rule in front of the less specific ones |
| RuleOrder.UnalignedPrefixesShare | rule.c:163-171 | for every length that is not whole bytes there are two disjoint source prefixes that share one rule, hence one table |
| Numbering.AllTaken | rule.c:50-65 | all table numbers are in use if and only if all entries of the array are |
| RuleTable.Table.GetFreeTable | rule.c:55-66 | marks the lowest free number, or fails if and only if none is free |
| RuleTable.Table.FindHoleAround | rule.c:73-84 | returns the first empty entry from the index on, before it only if there is none, and fails if and only if the array is full |
| RuleTable.Table.ShiftRule | rule.c:86-103 | the rules from the index to the hole move up by one, in the array and in the kernel |
| RuleTable.Table.InsertTable | rule.c:105-147 | splices the rule in with a free number or, if and only if the array is full, changes nothing; a free number without a free entry cannot happen, nor can a shift to the left |
| RuleTable.Table.FindTableSlot | rule.c:149-176 | returns the rule for the source prefix, or the first one that it is inside of, or the end |
| RuleTable.Table.FindTable | rule.c:178-202 | none of the rules is lost or renumbered and the kernel mirrors them; for any length, the rule at the slot is taken if it compares as equal, otherwise a new one goes exactly there if there is an entry left; on byte-aligned prefixes the rules stay in order, and the source prefix gets the table of its rule, or of a new one, or -1 if and only if it has none and the array is full |
| RuleTable.Table.ReleaseTables | rule.c:204-216 | no rule, no used number and no kernel rule is left |
| Smoothing.RoughlyBounds | util.c:56-65 | `roughly` stays within three and five quarters of the value and keeps its sign, whatever the random number |
| Smoothing.RoughlySpreads | util.c:56-65 | exactly which values `roughly` can take |
| Smoothing.RatesAreRoots | route.c:693-712 | the tabulated rates are the roots of two, rounded, and from five seconds on the linear approximation |
| Smoothing.HalfCloses | route.c:730-734 | a half-life step never overshoots and closes three eighths of the difference, up to rounding |
| Smoothing.FractionStaysBetween | route.c:735-740 | a one-second step never overshoots if the half-life is at least 2 seconds and the product is exact |
| Smoothing.OverflowsExactly | route.c:738-738 | some random number makes the product overflow a 32-bit int if and only if the half-life is 2 seconds and the difference at least 63288 |
| Smoothing.OverflowsFrom | route.c:738-738 | and it does so exactly for the random numbers that make the rough difference 79109 or more |
| Smoothing.StoredStaysBetween | route.c:736-738 | if the int wraps, what is stored in the unsigned short is still between the old value and the metric, and at most one off the exact step |
| Smoothing.OneSecondStep | route.c:704-740 | and it does exactly for the random numbers whose remainder exceeds what the difference is over three quarters of itself |
| Smoothing.OneSecondOvershoots | route.c:704-704 | with a half-life of 1 second, a step can overshoot a difference if and only if it is 8, or at least 10, either way |
| Smoothing.RouteSmoothedMetric | route.c:714-750 | with the product in 32 bits, wrapping, it ends at the current second, between the old smoothed metric and the metric; the difference takes one step for each half-life that has passed, which leaves three to five eighths of it, and then one for each second that is left, which closes three to five quarters of the rate; below 4 it is gone; for every half-life and every random number; asking again gives the same answer |
| RoundTripTime.AverageExactly | message.c:746-752 | for every weight, sample and average, the result is the exact one modulo 2^24, and the exact one if and only if the 32-bit sum does not wrap |
| RoundTripTime.AverageWeighs | message.c:746-752 | unless the 32-bit sum wraps, the average moves by the weight of the sample, in units of 256, rounded towards the sample |
| RoundTripTime.Closer | message.c:746-752 | unless the 32-bit sum wraps, the average lies between the old value and the sample and strictly closer to the sample |
| RoundTripTime.Converges | message.c:746-752 | a constant sample below 2^24 microseconds is reached within as many rounds as it is away, from any average with which the first sum does not wrap |
| RoundTripTime.StableExactly | message.c:748-752 | a round-trip time keeps its own average if and only if it is below 2^24 microseconds: beyond, the 32-bit sum wraps |
| LinkCost.HistoryBounds | neighbour.c:280-284 | the weighted history fits in 15 bits |
| LinkCost.LateExactly | neighbour.c:287-289 | the cost of a late Hello is right if and only if the 32-bit product does not wrap, or wraps to something that is infinite all the same |
| LinkCost.AtLeastInterface | neighbour.c:269-301 | however late the last Hello, the receive cost is at least that of the interface, unless the product wraps |
| LinkCost.NeverRises | neighbour.c:269-301 | however late the last Hello, one more received Hello in the history never raises the cost, unless the product wraps |
| LinkCost.LateCostWraps | neighbour.c:287-288 | the product does wrap: an interface cost of 96 becomes a cost of 2 after 43 seconds |
| LinkCost.RttCostRises | neighbour.c:303-324 | the cost of the round-trip time is monotone and never exceeds the penalty |
| LinkCost.EtxBounds | neighbour.c:346-353 | the product of the two directions fits in 32 bits and is at least either factor |
| LinkCost.CostBounds | neighbour.c:326-359 | the link cost is at least what the neighbour told us, so at least 1 if that is |
| LinkCost.CostExactly | neighbour.c:326-359 | the link cost is the product of the losses of both directions in units of 256, rounded, and the cost of the round-trip time; it is infinite if and only if a direction is or the sum is too large |
| LinkCost.CostOfGoodAndBad | neighbour.c:340-359 | a link without loss costs what the neighbour told us, one that loses half each way four times 256 |
| LinkCost.RttCostExactly | neighbour.c:303-324 | nothing up to the lower bound, the penalty beyond the upper one, in proportion in between |
| LinkCost.RxCostPlain | neighbour.c:290-301 | without link quality, the cost is that of the interface if and only if at most one of the last three Hellos was lost, and not both of the last two; otherwise infinite |
| LinkCost.RxCostInTime | neighbour.c:276-286 | with link quality, the cost of the interface divided by the weight of the Hellos heard; exactly that cost if none was lost |
| LinkCost.HistoryWeights | neighbour.c:280-283 | each Hello weighs half of the next one, the latest three a quarter of the whole |
| LinkCost.LateGrows | neighbour.c:287-289 | from 40 seconds on the cost grows in proportion to the time since 20 seconds after the last Hello |
| Times.CompareIsOrder | util.c:95-108 | `timeval_compare` is the order of the times in microseconds |
| Times.AddMsecAdds | util.c:81-93 | `timeval_add_msec` adds exactly, and carries |
| Times.MinusMsecIsDifference | util.h:104-123 | `timeval_minus_msec` is within a millisecond of the difference, either way |
| Times.MinusMsecOutside | util.h:104-123 | it is 0 before the other time, two billion after three weeks, and exact on whole seconds |
| Resend.EarlierIsNext | util.c:110-120 | `timeval_min` with {0, 0} as never keeps the first deadline of those pending |
| Resend.AliveKeeps | resend.c:150-177 | sweeping keeps the order and exactly the entries that have not expired |
| Resend.ExpiredExactly | resend.h:128-137 | a request expires after 65 seconds, to the millisecond, an update with its last try |
| Resend.Table.RecordResend | resend.c:49-115 | there is never a second entry for a kind and prefix pair; a new one goes in front, an old one is brought up to date; nothing pending is late afterwards, if and only if the entry was not superseded or the timer covers it anyway |
| Resend.TouchedMeans | resend.c:70-95 | what an entry becomes that is recorded again: the shorter delay, three tries, from now, and what is asked for now unless it is superseded |
| Resend.ForgottenResend | resend.c:72-81 | an exhausted entry that is recorded again by an older request becomes pending, and no timer is set for it |
| Resend.Table.ExpireResend | resend.c:150-177 | exactly the expired entries go, in order, and the timer is right again if any did |
| Resend.Table.RecomputeResendTime | resend.c:179-196 | the timer is the first deadline of the live pending entries, {0, 0} if and only if there is none; but for requests that were rearmed |
| Resend.Table.DoResend | resend.c:198-230 | sending may answer any requests of the list, before their turn, while they are sent, or later: exactly the entries that are due and unanswered at their turn are sent, each with twice its delay and one try fewer afterwards, modulo 256; the timer is the first deadline of those still pending, if and only if no request was rearmed |
| Resend.ResentMeans | resend.c:198-230 | when an entry is due, in microseconds, and what an unanswered one becomes: twice the delay, up to its limit, and one try fewer; nothing else changes |
| Resend.AnsweredIsOver | resend.c:198-230 | an answered request is never sent again, if and only if it was not rearmed: answered by its own sending alone, and then counted down from 0 to 255 before its mark counts as expired |
| Resend.RearmedWhen | resend.h:128-137 | that can happen in the first 65 seconds of the clock, and no longer from 66 on |
| Resend.TimedLater | resend.h:128-137 | once no unset time is pending, none will be |
| Resend.Table.SatisfyRequest | resend.h:158-187 | a request counts as answered if and only if one is recorded for the prefix pair, on this interface if that matters, and not for a newer sequence number of the same router-id; it is then marked, and the timer is right |
| Resend.AnsweredMeans | resend.h:158-187 | an update answers a request if and only if it is of another router or its number, unbounded, is at least the one asked for |

## Left out

- KernelTable.RouteInstaller.UninstallRoute: keeps the kernel table complete only if no holder is overlooked, because `conflict_solution` does not find a non-specific one.
- KernelRoutes.Family.Forwards: holds in IPv4 if no two installed routes are undecided, because `conflicts` does not see them conflict, and as long as no table number was missing.
- A retracted default route is not given to the kernel at all (kernel_netlink.c:1133-1135); here it is written like any other.
- LoopFreedom.NeverLoops: holds of runs without a revival, because with one babeld can loop.
- RuleTable.Table.FindTable: promises an order of the rules on byte-aligned source prefixes only, because on others `prefix_cmp` is not an order; there it says which rule is taken or made.
- UpdateBuffer.Interface.ReallySendUpdate: says nothing of an update that does not fit into an empty buffer, because the code then flushes in the middle of it.
- RouteTable.Table.ConsiderRoute: which updates and requests are sent on a change (route.c:1130-1183, route.c:1032-1056) is not modelled; sending may change any feasibility distance.
- Nodes of linked lists are values in sequences: the order of the lists is modelled, the pointers are not. A route is told apart by its prefix pair, neighbour and next hop.
- The walks of update_neighbour_metric, update_interface_metric and expire_routes along lists that route selection reorders under them; that of retract_neighbour_routes, which steps through the lists in the same way, is modelled.
- Resend.Table.RecomputeResendTime: says nothing if a request was rearmed; its deadline then lies in the first seconds of the clock, and timeval_min may take it for never.
- `KernelRoutes.dfy` passes the writes of an operation on when it is over, in their order; in the code each goes out at once, and none looks at the kernel.
- Kernels that look at source prefixes themselves (kernel_disambiguate), for which disambiguation.c has nothing to do.
- The stream order that the kernel table depends on is taken as given in `KernelTable.dfy`: any order of the installed routes, source-specific ones first.
- Hellos, IHUs, acknowledgements, requests, wildcard retractions and the sub-TLVs of timestamps: other messages in a packet are bytes that the parser of updates skips.
- Reading a few bytes past a truncated packet, which the parser does, sees arbitrary memory.
- Source garbage collection and clock steps inside the network model; they are in `SourceTable.dfy`.
- Which packets the token bucket holds back, timers, jitter, logging, address parsing and allocation failure.
- qsort is any function that returns a sorted permutation. What flushupdates looks up (routes, our own routes, channels, the output filter) does not change while it sends.
- Expired Hellos, packet authentication and configuration.
- check_rules and install_missing_rules (rule.c:218-303), which repair rules that others removed from the kernel.
- The history of Hellos in update_neighbour; `LinkCost` starts from the reachability word.
- xroute.c: whether a local route shadows a learned one is a lookup.
