# Verified models of the routing daemons

A Dafny 4.11 project that models the hard parts of five components of the routing
stack and proves what they keep. `dafny verify dfyconfig.toml` checks all of it.

## What is modelled

**Best path and Loc-RIB destination** (`bgp/rib/destination.go`).
`Filters.dfy` has the loops that compact a slice of candidates in place, generic in
what they compare; `Ranking.dfy` the paths, the seven-key order and the filters that
differ from the common loop; `Decision.dfy` that order in the fields of the paths;
`BestPath.dfy` the chain of filters, the equal-cost groups
and `calculateBestPath`; `ChainGuard.dfy` when the chain is right for one order of the
candidates, `AnyOrder.dfy` when every stage of it is for every order in which a map yields
them, and `Winner.dfy` when the path it chooses is; `PathIndex.dfy` the path-id allocator and
the cross-linked indexes; `RibTable.dfy` the routing table of the system as a fold over the
calls made to it; `Selection.dfy` what a selection must yield, stated from scratch, and the
state invariant `Sound`; `History.dfy` which histories of updates leave the choice right,
although selections are skipped; `Destination.dfy` the class with the source's methods.

**Loc-RIB bookkeeping** (`bgp/rib/rib.go`). `RouteList.dfy` is the list of destinations
that a paged query walks over while routes come and go; `PrefixLimit.dfy` the prefix
counters and limits of the neighbors.

**BGP session machine and collision handling** (`bgp/fsm/fsm.go`, `bgp/fsm/fsm_manager.go`).
`Session.dfy` is one machine: its six states handle 28 events by changing fields step by
step, and each handler is proved against a transition table, a table of what is written
and a table of the retry counter. `SessionManager.dfy` has the manager of the two
machines of a neighbor, which uses the same transition function, and the collision rule.

**UPDATE codec, splitter and AS paths** (`bgp/packet/bgp.go`, `bgp/packet/helpers.go`).
`Wire.dfy`, `AsSegment.dfy`, `PathAttribute.dfy` and `UpdateMessage.dfy` go from numbers
to whole messages, encoder and decoder, with the eight- and sixteen-bit arithmetic of
the lengths; `UpdateSplit.dfy` cuts an update into messages of at most 4096 bytes;
`AsPath.dfy` changes AS paths in place.

**ARP cache** (`arp/server/arpCache.go`). `ArpCache.dfy`: the cache, the hardware table
it programs and the ageing of entries.

**BFD session** (`bfd/server/bfdSession.go`). `BfdSession.dfy`: one session and a pair of
them over channels that lose, repeat and reorder.

Path objects, destinations and TCP connections are named by values, maps of the source
are fields of type `map`, and a map iterated in any order is a set from which an
arbitrary element is taken. I/O, clocks and other daemons are parameters: hardware calls
take a flag that says whether they fail, timers are events, and the manager's answer to
an OPEN is part of the event a machine handles.

## Where the code departs from its documentation or from the standards

Each is modelled as the code has it, with a statement of exactly when it matters.

- The origin filter advances `idx` at bgp/rib/destination.go:743 where its siblings
  reset it, so paths already reported as pruned can stay in front of the cut.
  `Ranking.OriginFilterExact`: it filters rightly, losing and duplicating nothing, if and
  only if the first path already has the lowest origin, and `Ranking.OriginNarrowsExact`:
  counting a path only once, if and only if the first or the second has it. Candidates come
  out of a map in any order, so `AnyOrders.AlwaysPreciseExact`: every stage is left with the
  right paths in every order if and only if at most one of the paths tied on preference and
  AS count has a worse origin than another.  `Winners.AlwaysWinsFromExact` says exactly when
  at least the path chosen is right in every order that begins with the choice so far,
  `Winners.AlwaysWinsExact` when it is without a choice so far, and `Winners.WrongChoice` gives
  three paths of which the one with the lowest origin loses.
- The AS-count filter starts from 4096 (bgp/rib/destination.go:684), so it does nothing
  when all counts are larger. `Filters.FilterExact` states the bound for all such filters;
  `ChainGuards.LongPathsStay` shows two paths that are both kept and both pruned.
- `ConvertIPBytesToUint` (bgp/packet/helpers.go:687) shifts octets 1 and 2 before widening
  them. `SessionManagers.CollisionAgreement`: two speakers agree on the surviving
  connection if and only if their ids differ in the first or the last octet;
  `SessionManagers.NeitherSurvives` has two ids for which both connections go.
- The length of a decoded AS segment is computed in eight bits (bgp/packet/bgp.go:1406);
  it is right if and only if the segment has at most 63 ASes. `AsSegments.SegmentsExact`: a
  path of two-byte numbers comes back if and only if no segment has more. The same holds
  with 127 for the conversion to two-byte numbers (bgp/packet/bgp.go:1368).
- An error in a segment is swallowed at bgp/packet/bgp.go:1534-1536, so a cut path is
  accepted. `AsSegments.TruncationExact` says after which bytes, and
  `AsSegments.LoneSegmentExact` that it is also how a longer segment can come back.
- A withdrawn prefix is skipped when the same address and path id are announced with any
  length (bgp/rib/rib.go:99-107). `PrefixLimits.WithdrawExact` says exactly when an update
  without a limit then does what it means; `PrefixLimits.WithdrawalLost` is one that does not.
- A prefix of address 0.0.0.0 is never taken, the default route included
  (bgp/rib/rib.go:268-271); `PrefixLimits.AllTakenIffFits` and `PrefixLimits.WithdrawExact`
  speak of the other prefixes.
- `PrependAS` replaces a number that does not fit two bytes by AS_TRANS only when it opens
  a segment, and cuts it otherwise (bgp/packet/helpers.go:43-57). `AsPaths.ASPath.PrependAS`.
- Leaving OpenConfirm restores the configured hold time (bgp/fsm/fsm.go:627-631), so in
  Established only the first interval has the time agreed on (`Sessions.FSM.Establish`) and
  every message of the peer then starts the configured one. The two differ if and only if
  the peer offered a smaller time other than one or two seconds: `Sessions.AgreedExact`.
- A path object that is announced again under another key gets a second id and loses its
  first one (bgp/rib/destination.go:263-265). `PathIndexes.RebindingLosesId`.
- A path that is replaced keeps its route and its id (bgp/rib/destination.go:241-266), which
  are never given back: `Destinations.Run` counts one of each for every replacement.
- A prefix that the limit refuses still leaves a destination behind (bgp/rib/rib.go:273-283):
  `PrefixLimits.LocRib.Announce`.
- An update whose attributes leave no room beside the withdrawn prefixes is cut
  (bgp/packet/helpers.go:1075-1094): `UpdateSplitting.ConstructMaxSizedUpdatePackets` says
  exactly when a message without attributes is sent, and when a wholly empty one is.

## Model

| member | source | states |
|---|---|---|
| `Filters.KeepLowest` | bgp/rib/destination.go:631-680 | the in-place loop shared by the preference, AS-count, router-id and cluster-list filters leaves the cut slice and the removed list of the scan specification |
| `Filters.LowestIsLeast` | bgp/rib/destination.go:638-663 | the running minimum is attained in the slice and is below every key |
| `Filters.SelectMember` | bgp/rib/destination.go:682-726 | what a scan keeps are exactly the members with the lowest key |
| `Filters.ScanSelects` | bgp/rib/destination.go:682-726 | within its initial bound a scan keeps the elements of lowest key in their order; if all keys are beyond it, all are reported as removed |
| `Filters.ScanConserves` | bgp/rib/destination.go:682-726 | kept and removed paths together are a permutation of the paths scanned |
| `Filters.FilterExact` | bgp/rib/destination.go:682-726 | a filter separates the paths of lowest key from the others, losing none, if and only if some key is within the bound its minimum starts from |
| `Filters.SwapOutSieves` | bgp/rib/destination.go:768-793 | swap-with-last deletion keeps exactly the best kind, loses nothing and keeps a first path of that kind first |
| `Ranking.Trichotomy` | bgp/rib/destination.go:1001-1060 | the order of the selection is total up to ties: exactly one of before, tied, after |
| `Ranking.NotAfterTransitive` | bgp/rib/destination.go:1001-1060 | the order is transitive, strictly when either step is strict |
| `Decisions.BeforeExact` | bgp/rib/destination.go:1001-1060 | one path is before another if and only if, in the first of these in which they differ, it has the higher preference, fewer ASes, the lower origin, an external session, the lower router id, the shorter cluster list or the lower peer address |
| `Decisions.AddressOrder` | bgp/rib/destination.go:902-917 | of two addresses of one length the lower is the one with the lower octet where they first differ |
| `Ranking.GetRoutesWithLowestOrigin` | bgp/rib/destination.go:728-766 | the origin loop, as written, leaves the slots and removed list of its scan specification |
| `Ranking.OriginScanCount` | bgp/rib/destination.go:736-748 | the origin scan accounts for every path, and for too many exactly when the first path was improved on |
| `Ranking.OriginFilterExact` | bgp/rib/destination.go:728-766 | the origin filter separates the paths of lowest origin if and only if the first path already has it |
| `Ranking.OriginNarrowsExact` | bgp/rib/destination.go:728-766 | apart from repetitions it keeps exactly the paths of lowest origin if and only if the first or the second path has it |
| `Ranking.OriginScanStale` | bgp/rib/destination.go:736-748 | an improvement on the first two paths leaves a path of worse origin in the second slot for good |
| `Ranking.OriginFilterKeepsWorse` | bgp/rib/destination.go:743 | three paths for which a path of worse origin survives and the winner is duplicated |
| `Ranking.DeleteIBGPRoutes` | bgp/rib/destination.go:768-793 | the in-place deletion of internal paths computes the swap-out specification |
| `Ranking.RemoveIBGPRoutesIfEBGPExist` | bgp/rib/destination.go:795-804 | internal paths go exactly when an external one is present, and nothing is lost |
| `Ranking.CompareNeighborAddress` | bgp/rib/destination.go:902-917 | addresses of one length compare as the numbers they write; different lengths are an error and compare as equal |
| `Ranking.GetRoutesWithLowestPeerAddress` | bgp/rib/destination.go:919-960 | the in-place address filter computes its scan specification |
| `Ranking.AddressFilterSieves` | bgp/rib/destination.go:919-960 | with addresses of one length it keeps exactly the paths of the lowest peer address |
| `BestPaths.StageSieves` | bgp/rib/destination.go:1001-1060 | every stage leaves a path and accounts for all; it does what its name says when its guard holds, and otherwise counts too many |
| `BestPaths.SieveRanks` | bgp/rib/destination.go:1001-1060 | one more stage refines the minima of the first keys to the minima of one key more |
| `BestPaths.ChainRanks` | bgp/rib/destination.go:1001-1060 | while the guards hold, what is left after each stage are exactly the minima so far and the pruned paths are strictly worse |
| `BestPaths.KeptNested` | bgp/rib/destination.go:1001-1060 | a later slice is within every earlier one |
| `BestPaths.KeptPreferred` | bgp/rib/destination.go:631-680 | whatever the guards say, every path left has the highest preference of all |
| `BestPaths.MultiBaseFields` | bgp/rib/destination.go:1025-1044 | the paths grouped have the highest preference, are of one kind of session if multipath is on for that kind only, and there are none if it is off |
| `BestPaths.GetECMPPaths` | bgp/rib/destination.go:962-982 | the groups partition the paths by next hop, each in path order |
| `BestPaths.RemoveAndPrepend` | bgp/rib/destination.go:373-401 | the best path and its group move to the front; an absent path is put in front and, if there are groups, in place of the last one |
| `BestPaths.PrependKeepsGroups` | bgp/rib/destination.go:373-401 | moving to the front keeps a partition of the same paths by next hop |
| `BestPaths.WinnerInMultiBase` | bgp/rib/destination.go:1025-1044 | the winner shares a next hop with one of the equal-cost groups, so it is found in them |
| `BestPaths.CalculateBestPath` | bgp/rib/destination.go:1001-1082 | winners, pruned lists and groups are those of the chain specification, the groups taken at the stage that the multipath flags select; every winner has at least the preference of every path given |
| `ChainGuards.CleanExact` | bgp/rib/destination.go:1001-1060 | the guards of all stages hold if and only if, of several most preferred candidates, one has at most 4096 ASes, the first of those then tied has the lowest origin, and peer addresses decide within one family |
| `ChainGuards.ChainExact` | bgp/rib/destination.go:1001-1060 | the chain yields exactly the minima of its lexicographic order, and winners with pruned paths are a permutation of the input, if and only if these conditions on the candidates hold |
| `ChainGuards.PreciseExact` | bgp/rib/destination.go:1001-1060 | every stage is left with exactly the minima of its keys, perhaps repeated, if and only if the AS counts are within the bound or equal and the first or the second path then tied has the lowest origin |
| `ChainGuards.FirstStays` | bgp/rib/destination.go:1001-1060 | a first path that is minimal is the winner, whatever the origins and families of the others |
| `ChainGuards.LongPathsStay` | bgp/rib/destination.go:682-726 | of two paths with more than 4096 ASes both are kept and both reported as pruned |
| `AnyOrders.AlwaysRankedExact` | bgp/rib/destination.go:463-511 | in every order of a set of candidates the chain yields the minima and a permutation, if and only if one of several most preferred ones has at most 4096 ASes and those then tied agree on origin |
| `AnyOrders.AlwaysPreciseExact` | bgp/rib/destination.go:463-511 | in every order every stage is left with the right paths, if and only if AS counts are within the bound or equal and at most one of the paths then tied has a worse origin than another |
| `AnyOrders.AlwaysPreciseFromExact` | bgp/rib/destination.go:450-511 | the same for all orders that begin with the path chosen so far: at most one path has a worse origin, or that path has the best |
| `Winners.AlwaysWinsFromExact` | bgp/rib/destination.go:450-511 | in every order that begins with the path chosen so far the new choice is a minimum, if and only if at most one path has a worse origin, or that path has the best, or no other path of worse origin beats those of the best origin, or matches them and beats one that the session-kind filter leaves beside it |
| `Winners.AlwaysWinsExact` | bgp/rib/destination.go:463-511 | the same for every order whatever: at most one path has a worse origin, or none beats or matches so |
| `Winners.WrongOrderFrom` | bgp/rib/destination.go:743 | for every path that spoils the candidates so there is an order, beginning with the choice so far, in which the chain chooses a path of worse origin |
| `Winners.WrongChoice` | bgp/rib/destination.go:743 | three paths of which the one with the lowest origin is not chosen |
| `AnyOrders.OrderedFair` | bgp/rib/destination.go:450-503 | the order of a selection is fair if at most one path has a worse origin or one of the best origin is met first |
| `PathIndexes.NextIdAccounted` | bgp/rib/destination.go:128-139 | a new id was not held, and held and free ids stay disjoint, without repetition and together exactly those below the maximum |
| `PathIndexes.ReleasedIdAccounted` | bgp/rib/destination.go:141-148 | the same after a release, also when the maximum shrinks |
| `PathIndexes.RebindingLosesId` | bgp/rib/destination.go:263-265 | an id is lost if and only if the path object was already known |
| `PathIndexes.AddedValid` | bgp/rib/destination.go:228-276 | adding or replacing a path keeps the four indexes in agreement and the ids accounted for |
| `PathIndexes.RemovedValid` | bgp/rib/destination.go:278-322 | so does removing one, through the swap with the last list entry |
| `PathIndexes.PlacedWithout` | bgp/rib/destination.go:302-313 | the swap leaves every remaining route at the place it records |
| `PathIndexes.AddedLeaks` | bgp/rib/destination.go:241-266 | a replacement adds a route but no key: the route of the path replaced stays |
| `PathIndexes.HeldByRoutes` | bgp/rib/destination.go:128-148 | the ids below the maximum are the free ones and one for each route, of live and of dead paths |
| `RibTables.Reprogrammed` | bgp/rib/destination.go:557-580 | the newly programmed paths are the chosen ones that are new and belong in the table, with distinct next hops |
| `RibTables.ChosenHops` | bgp/rib/destination.go:532-627 | hops kept and hops created are together those of the chosen paths, with none counted twice |
| `Selections.AddKeepsSettled` | bgp/rib/destination.go:258-261 | when an update does not ask for a selection the choice is still of the best source, and the best if it was; the candidates of the best source are the same |
| `Selections.RemoveKeepsSettled` | bgp/rib/destination.go:287-298 | withdrawing a path that is not installed leaves a best choice best, and the next hops covered if they were |
| `Selections.CoversWithout` | bgp/rib/destination.go:287-298 | an equal-cost path that is not installed can go: the installed paths still cover the next hops of the others |
| `Selections.MinimumIsBest` | bgp/rib/destination.go:463-511 | a minimum of the filters' order among the candidates of the best source is the best of all candidates |
| `Selections.BaseIsEqualCost` | bgp/rib/destination.go:1025-1044 | in a fair order the groups are made of exactly the equal-cost paths: the minima up to the origin, or up to the kind of session if multipath is on for one kind |
| `Selections.SelectedSettles` | bgp/rib/destination.go:505-583 | in any order a selection leaves a choice and installed paths of the best source |
| `Selections.SelectedCovers` | bgp/rib/destination.go:505-583 | in a fair order it leaves the best candidate chosen and the installed paths covering exactly the next hops of the equal-cost paths |
| `Selections.SettledInFields` | bgp/rib/destination.go:450-583 | the choice and all installed paths are reachable, free of AS loops, of one source and of the highest preference among it, a local path is chosen if there is one, and there is no choice if and only if every path is unreachable or looped |
| `Selections.BestInFields` | bgp/rib/destination.go:1001-1060 | no usable path of the same source beats the best one in the comparison of the fields |
| `Selections.CoversInFields` | bgp/rib/destination.go:1025-1044 | besides the choice exactly the next hops of the paths alike in preference, AS count and origin, and in kind if multipath is on for one kind, are installed |
| `Selections.TableInFields` | bgp/rib/destination.go:558-627 | the routing table has exactly the next hops of the installed paths that are external or aggregates, no two of which share one |
| `Selections.LocalAlone` | bgp/rib/destination.go:463-503 | a path that stays out of the routing table has no rival of its source |
| `Selections.SomeHopKept` | bgp/rib/destination.go:553-627 | a hop is added, rather than a route created, only when the route exists |
| `Selections.IncumbentStays` | bgp/rib/destination.go:450-461 | a choice that still ties for best wins again, whatever the origins of the others, unless AS counts are out of bounds |
| `Selections.AnnouncedSound` | bgp/rib/destination.go:228-276 | an announcement keeps the invariant of a destination |
| `Selections.WithdrawnSound` | bgp/rib/destination.go:278-322 | a withdrawal keeps it |
| `Selections.PooledBest` | bgp/rib/destination.go:463-503 | what is gathered are exactly the candidates of the best source, and the others are set aside |
| `Selections.ChosenHopSet` | bgp/rib/destination.go:529-583 | one path per group covers the next hops of the winner and of all equal-cost paths, and no other |
| `Selections.ChosenKept` | bgp/rib/destination.go:532-555 | apart from the winner, a path is newly installed only if no equal-cost path of its next hop was |
| `Histories.UpdatedFacts` | bgp/rib/destination.go:228-322 | an update changes one key, leaves the routes of replaced paths, and takes the choice away only with its path |
| `Histories.PeersAfterExact` | bgp/rib/destination.go:228-322 | what a key announces is what its last update announced, and nothing if that was a withdrawal or there is none |
| `Histories.RightExact` | bgp/rib/destination.go:450-511 | the condition used for histories is exact: with peers of one family among the finalists and AS counts within the bound or equal, a selection is right in every order the code can meet if and only if it holds |
| `Histories.SurelyDue` | bgp/rib/destination.go:256-298 | an announcement is followed by a selection unless the choice is local and without a rival, and so is the withdrawal of the only path of the best source |
| `Histories.SkipKeeps` | bgp/rib/destination.go:256-298 | where no selection is due the choice is still the best, and the next hops covered if they were |
| `Histories.StepIsBest` | bgp/rib/destination.go:228-511 | after an update the choice is best if there is one path to choose, if a selection is certain and right from any choice, or if it was best before and the selection, if any, is right from such a choice |
| `Histories.StepIsFair` | bgp/rib/destination.go:228-583 | the same for the installed paths: a certain selection that no stage can spoil covers exactly the equal-cost next hops again, whatever happened before |
| `Histories.FollowsNext` | bgp/rib/destination.go:228-629 | each update and its selection carry on what a history promises of the choice, the installed paths and the routes and ids in use |
| `Histories.FollowsInFields` | bgp/rib/destination.go:228-629 | the promises of a history in the fields of the paths announced |
| `Destinations.Destination.GetNextPathId` | bgp/rib/destination.go:128-139 | takes the last free id, else the maximum |
| `Destinations.Destination.ReleasePathId` | bgp/rib/destination.go:141-148 | gives an id back, lowering the maximum when it is the last one |
| `Destinations.Destination.AddOrUpdatePath` | bgp/rib/destination.go:228-276 | the key has the new path, a known path object changes nothing, the choice goes with a path it replaces, and a selection is due exactly if there is no choice, the choice is external or the path is local; true exactly for a new key, and the state stays sound |
| `Destinations.Destination.RemovePath` | bgp/rib/destination.go:278-322 | the key, the route and one place of the list go, the choice if it was that path, and a selection is due exactly if the path was chosen or installed; the path withdrawn is returned, or none, and the state stays sound |
| `Destinations.Destination.GatherCandidates` | bgp/rib/destination.go:450-503 | in any map order: the reachable loop-free paths of the best source, the current choice first if it is one |
| `Destinations.Destination.PickRoute` | bgp/rib/destination.go:533-555 | an installed path stands for its group if there is one, the best path for its own |
| `Destinations.Destination.InstallGroups` | bgp/rib/destination.go:532-581 | one path per group is marked kept or new, with the list to be programmed, the first-route flag and the action; every path has a route, so no group is passed over |
| `Destinations.Destination.RemoveStale` | bgp/rib/destination.go:596-614 | stale paths leave the installed set and the routing table together |
| `Destinations.Destination.ProgramCreated` | bgp/rib/destination.go:616-627 | every call fits: a route is created only into an empty table, a hop added only to an existing route, and none twice |
| `Destinations.Destination.Reprogram` | bgp/rib/destination.go:596-627 | removing before adding makes the table that of the chosen paths |
| `Destinations.Destination.RankCandidates` | bgp/rib/destination.go:507-530 | the groups led by the winner, also when a single candidate skips the filters |
| `Destinations.Destination.InstallChoice` | bgp/rib/destination.go:507-627 | the installed set has one candidate per next hop of winner and equal-cost paths, and the table agrees |
| `Destinations.Destination.Reselect` | bgp/rib/destination.go:445-629 | choice, installed set and routing table are those of a selection from scratch among the candidates in the order met, and a tying incumbent stays |
| `Destinations.Destination.SelectRouteForLocRib` | bgp/rib/destination.go:432-629 | nothing happens unless a selection is due; afterwards the choice and all installed paths are reachable and free of loops, the choice has the highest preference of its source and is local if it can be, there is none if and only if no path is usable, and the action tells whether it is new, an installed aggregate or gone |
| `Destinations.Destination.Apply` | bgp/rib/destination.go:228-629 | one update and the selection after it keep the invariant and leave none due; if one was due it meets the candidates of the best source once each, the choice first, and otherwise nothing more changes |
| `Destinations.Run` | bgp/rib/destination.go:228-629 | after any history, each step followed by a selection, the choice and the installed paths are announced, reachable, free of loops and of the highest preference of the best source, and there is a choice unless no path is usable; after every history with `HistoryBest` it is a minimum of the order over the current candidates, and after every one with `HistoryFair` the installed paths also cover exactly the next hops of the equal-cost ones, even where selections were skipped; both conditions are on what was announced when, and hold again after any selection that is certain and right from any choice, so an early wrong choice heals; the routing table always has the next hops of the installed paths; routes and ids in use exceed the live paths by the number of replacements |
| `RouteLists.ShownMembers` | bgp/rib/rib.go:788-793 | a page shows exactly the destinations with paths in its range of slots, each once |
| `RouteLists.RouteList.AddRoutesToRouteList` | bgp/rib/rib.go:694-706 | a new destination is appended and knows its slot |
| `RouteLists.RouteList.RemoveRoutesFromRouteList` | bgp/rib/rib.go:671-692 | outside a scan the last destination takes the freed slot and the rest stay; during one nobody moves |
| `RouteLists.RouteList.ResetRouteList` | bgp/rib/rib.go:714-742 | compaction leaves no hole, the same destinations, each knowing its slot |
| `RouteLists.RouteList.BulkGetBGPRoutes` | bgp/rib/rib.go:769-802 | a page is what its range of slots shows; the range ends where the count is reached or at the end, reported as 0; before the first destination was added the page is empty and no scan starts |
| `RouteLists.RouteList.Handle` | bgp/rib/rib.go:671-802 | whatever happens between two pages, no destination that stays is passed over |
| `RouteLists.RouteList.Scan` | bgp/rib/rib.go:671-802 | a scan from index 0, interleaved with any additions and removals, returns every destination that stays listed with paths, none twice, and none that was not listed with paths when a page was made |
| `PrefixLimits.AllTakenIffFits` | bgp/rib/rib.go:266-304 | every announcement is taken if and only if together with what is held they fit the limit, in whatever order they come |
| `PrefixLimits.WithdrawExact` | bgp/rib/rib.go:99-107 | without a limit an update has its meaning if and only if no held entry it withdraws shares only address and path id with an announcement |
| `PrefixLimits.WithdrawalLost` | bgp/rib/rib.go:99-107 | a withdrawn /8 stays when a /16 of its address is announced with it |
| `PrefixLimits.RefusedWhenFull` | bgp/rib/rib.go:278-289 | an announcement is refused only when the limit is reached |
| `PrefixLimits.UpdatedEntries` | bgp/rib/rib.go:192-306 | entry by entry: what is not withdrawn stays, what is withdrawn goes unless its address and path id are announced again, and what comes was announced with another address than 0.0.0.0 |
| `PrefixLimits.CountedWith` | bgp/rib/rib.go:277-286 | a new entry keeps every counter equal to the number of entries in 32 bits |
| `PrefixLimits.CountedWithout` | bgp/rib/rib.go:242-248 | so does losing one |
| `PrefixLimits.LimitedIsExact` | bgp/baseobjects/neighbor.go:317-350 | under a limit the counter is exactly the number held, at most the limit, and cannot underflow |
| `PrefixLimits.LocRib.CanAcceptNewPrefix` | bgp/baseobjects/neighbor.go:331-347 | a prefix is acceptable exactly if there is no limit or fewer are held |
| `PrefixLimits.LocRib.GetDest` | bgp/rib/rib.go:146-166 | the destination exists afterwards and the route count follows |
| `PrefixLimits.LocRib.Withdraw` | bgp/rib/rib.go:199-258 | exactly the named entry goes; its destination goes exactly when it is empty and the selection reports a deletion, and no other does |
| `PrefixLimits.LocRib.Announce` | bgp/rib/rib.go:265-292 | the entry is held unless it is new and the limit is reached; the destination is created either way |
| `PrefixLimits.LocRib.ProcessRoutes` | bgp/rib/rib.go:192-306 | the peer holds exactly that, other peers what they held, the flag tells whether every usable announcement is held, and if not the limit is reached exactly |
| `PrefixLimits.LocRib.RemoveUpdatesFromNeighbor` | bgp/rib/rib.go:478-510 | nothing of the peer is held, its counter is 0 and other peers are untouched |
| `PrefixLimits.Run` | bgp/rib/rib.go:192-510 | after any run every counter is the number of prefixes held modulo 2 to the 32nd, no limit is exceeded and the route count is right |
| `Sessions.SessionEvents` | bgp/fsm/fsm.go:427-736 | the events each connected state names are exactly those the table does not ignore |
| `Sessions.AttemptEvents` | bgp/fsm/fsm.go:239-398 | the same for Connect and Active |
| `Sessions.AgreedExact` | bgp/fsm/fsm.go:1174-1178 | the time agreed on is the least of the configured and the acceptable offered ones, and differs from the configured time if and only if an acceptable offer is below it |
| `Sessions.StepInOrder` | bgp/fsm/fsm.go:172-736 | in every state every event takes, leaves, brings forward or ends a connection with the message that belongs to it |
| `Sessions.StepSpeaks` | bgp/fsm/fsm.go:1214-1281 | such a step keeps the order of the protocol: OPEN first and once, then KEEPALIVE, UPDATE once the session is up, nothing after NOTIFICATION |
| `Sessions.LifeTable` | bgp/fsm/fsm.go:239-740 | the hold timer ends a connection with the notification of code 4, and the keepalive timer sends a KEEPALIVE where it may run |
| `Sessions.AttemptTable` | bgp/fsm/fsm.go:172-740 | the retry and idle-hold timers start an attempt again, towards Active with BFD down, and end a connection with code 5 or 6 |
| `Sessions.ConnectionTable` | bgp/fsm/fsm.go:239-537 | a connection that comes up is taken with an OPEN in Connect and Active, and by no other state |
| `Sessions.FailureTable` | bgp/fsm/fsm.go:239-740 | a failed connection leads from OpenSent to Active and else to Idle |
| `Sessions.StopTable` | bgp/fsm/fsm.go:239-740 | a stop ends a connection with code 6 and leads to Idle |
| `Sessions.StartTable` | bgp/fsm/fsm.go:172-210 | a start leaves Idle for Connect, or for Active when passive or with BFD down, and is ignored elsewhere |
| `Sessions.PacketTable` | bgp/fsm/fsm.go:427-740 | OPEN is answered with KEEPALIVE, KEEPALIVE brings the session up, and a notification ends it in silence |
| `Sessions.ErrorTable` | bgp/fsm/fsm.go:427-740 | a broken header, OPEN or UPDATE is answered with code 1, 2 or 3 |
| `Sessions.CounterTable` | bgp/fsm/fsm.go:172-740 | which events count a failed attempt, reset the count or leave it |
| `Sessions.FSM.Send` | bgp/fsm/fsm.go:1214-1281 | every write goes to the machine's own connection, which is there |
| `Sessions.FSM.SetHoldTime` | bgp/fsm/fsm.go:1106-1117 | a hold time of one or two seconds is refused |
| `Sessions.FSM.ProcessOpenMessage` | bgp/fsm/fsm.go:1174-1178 | a smaller acceptable hold time of the peer is taken |
| `Sessions.FSM.SetPeerConn` | bgp/fsm/fsm.go:1282-1300 | a connection is set only if there is none |
| `Sessions.FSM.ClearPeerConn` | bgp/fsm/fsm.go:1302-1318 | without a connection no keepalive or hold timer runs |
| `Sessions.FSM.Enter` | bgp/fsm/fsm.go:298-310 | entering Connect dials, or passes on to Active with BFD down; entering Idle rejects connections |
| `Sessions.FSM.ChangeState` | bgp/fsm/fsm.go:1046-1062 | lands in the announced state or, with BFD down, in Active; reports exactly the crossings of Established, also through the nested change; does nothing once closing |
| `Sessions.FSM.ProcessIdle` | bgp/fsm/fsm.go:172-204 | next state, retry counter and output as in the tables |
| `Sessions.FSM.ProcessConnect` | bgp/fsm/fsm.go:239-296 | likewise, an OPEN being written exactly when a connection comes up |
| `Sessions.FSM.ProcessActive` | bgp/fsm/fsm.go:335-397 | likewise |
| `Sessions.FSM.ProcessOpenSent` | bgp/fsm/fsm.go:427-509 | likewise, an accepted OPEN being answered by a KEEPALIVE |
| `Sessions.FSM.ProcessOpenConfirm` | bgp/fsm/fsm.go:539-621 | likewise, a KEEPALIVE leading to Established |
| `Sessions.FSM.Establish` | bgp/fsm/fsm.go:608-631 | the hold timer starts for the time agreed on, and the configured time is in force afterwards |
| `Sessions.FSM.ProcessEstablished` | bgp/fsm/fsm.go:652-735 | likewise; every message of the peer starts the hold timer for the configured time |
| `Sessions.FSM.ProcessEvent` | bgp/fsm/fsm.go:998-1001 | in every state: table-driven next state, counter and output, and the invariants kept, the log of the connections included |
| `Sessions.FSM.StartFSM` | bgp/fsm/fsm.go:898-909 | the machine starts without a connection |
| `Sessions.FSM.HandleTimer` | bgp/fsm/fsm.go:980-994 | each timer of the loop has its effect on state, connection, counter and what is written |
| `Sessions.FSM.HandleConnection` | bgp/fsm/fsm.go:911-941 | a connection that came up is taken with an OPEN, handed to the manager, or not expected; a failed one is given up and reported |
| `Sessions.FSM.HandlePacket` | bgp/fsm/fsm.go:960-961 | a packet is one step of the tables, with the answer the protocol wants in each connected state |
| `Sessions.FSM.HandleOrder` | bgp/fsm/fsm.go:943-978 | a stop ends a connection with a cease and starts again, BFD going down does the same, and updates are written only in Established |
| `Sessions.FSM.Handle` | bgp/fsm/fsm.go:911-996 | every input of the loop has its own such effect and keeps the invariant until the machine is closed |
| `Sessions.Run` | bgp/fsm/fsm.go:898-996 | over any run before close a connection is held exactly in OpenSent, OpenConfirm and Established, and up/down reports alternate and follow the state; what was written, up to the close, keeps to the order of the protocol on each connection |
| `SessionManagers.ConvertedIdsEqual` | bgp/packet/helpers.go:686-688 | two ids compare as equal if and only if their first and last octets agree |
| `SessionManagers.ConvertedIdsOrder` | bgp/packet/helpers.go:686-688 | the larger id has the larger first octet or, with equal ones, the larger last octet |
| `SessionManagers.CollisionResolved` | bgp/fsm/fsm_manager.go:354-396 | of one outgoing and one incoming connection, neither Established, the outgoing one survives if the local id is larger and else the incoming one, whichever OPEN is handled first, and the caller is told so exactly if it is its own |
| `SessionManagers.CollisionAgreement` | bgp/fsm/fsm_manager.go:363-379 | both speakers keep the same TCP connection if and only if their ids differ in the first or last octet, and then it is the one opened by the end with the larger octet; otherwise each keeps the one opened by the other |
| `SessionManagers.NeitherSurvives` | bgp/packet/helpers.go:687 | with ids that differ only in the third octet the speakers keep different connections |
| `SessionManagers.SameDirectionUnresolved` | bgp/fsm/fsm_manager.go:344-352 | of two connections of one direction none is closed if and only if the other direction loses |
| `SessionManagers.DeeperOnlyByOne` | bgp/fsm/fsm.go:427-621 | Established is reached only from OpenConfirm and that only from OpenSent |
| `SessionManagers.FSMManager.FsmBroken` | bgp/fsm/fsm_manager.go:246-253 | down is reported exactly for the active machine |
| `SessionManagers.FSMManager.FsmEstablished` | bgp/fsm/fsm_manager.go:234-244 | up is reported and the machine becomes active, if it is known |
| `SessionManagers.FSMManager.FsmClose` | bgp/fsm/fsm_manager.go:220-232 | the machine goes, with a down report if it was active |
| `SessionManagers.FSMManager.FsmTcpConnFailed` | bgp/fsm/fsm_manager.go:210-218 | a machine is closed unless it is the only or the active one, and nothing is reported |
| `SessionManagers.FSMManager.CreateFSMForNewConnection` | bgp/fsm/fsm_manager.go:310-333 | an existing machine is left alone; a new one has no connection yet |
| `SessionManagers.FSMManager.GetFSMIdByDir` | bgp/fsm/fsm_manager.go:344-352 | some machine with a connection of the direction, or none if there is none |
| `SessionManagers.FSMManager.ReceivedBGPOpenMessage` | bgp/fsm/fsm_manager.go:354-396 | without another connection nothing is closed; beside an Established one the caller goes; else the machine with the outgoing connection stays if the local id is larger and the other one if not, and true is returned exactly if the caller stays |
| `SessionManagers.FSMManager.Advance` | bgp/fsm/fsm.go:1046-1062 | a state change is reported exactly when it crosses Established with the machine active |
| `SessionManagers.FSMManager.ProcessEvent` | bgp/fsm/fsm_manager.go:354-396 | the collision handling for an OPEN, then the step of the machine if it is left, the other machine unchanged, and the invariant kept |
| `SessionManagers.FSMManager.StopFSM` | bgp/fsm/fsm_manager.go:293-304 | one down report if a machine was active, none otherwise |
| `SessionManagers.FSMManager.Cleanup` | bgp/fsm/fsm_manager.go:276-291 | all machines go, with one down report if one was active |
| `SessionManagers.FSMManager.Handle` | bgp/fsm/fsm_manager.go:124-396 | what each message to the manager does to its machines |
| `SessionManagers.Run` | bgp/fsm/fsm_manager.go:190-396 | while the machines hold connections of different directions, with BFD going down and up in between: reports alternate starting with up, the active machine is Established and at most one machine is past OpenSent |
| `Wire.NumbersOnWire` | bgp/packet/bgp.go:989-998 | numbers go out most significant octet first |
| `Wire.PrefixOnWire` | bgp/packet/bgp.go:890-903 | a prefix takes one octet for its length and exactly as many as that many bits need |
| `Wire.PrefixAccepted` | bgp/packet/bgp.go:905-924 | bytes are read as a prefix if and only if the length is at most 32 and all its octets are there |
| `Wire.DecodedAddress` | bgp/packet/bgp.go:926-936 | the address read, as a number, is that of the octets received followed by zeros, less its remainder by the number of host addresses |
| `Wire.PrefixRoundTrip` | bgp/packet/bgp.go:890-936 | a prefix is decoded with its host bits cleared, so it comes back if and only if it had none |
| `Wire.NlriRoundTrip` | bgp/packet/bgp.go:985-1010 | the same with a path id in front |
| `Wire.DecodedNlriCanonical` | bgp/packet/bgp.go:905-940 | a decoded prefix has no host bits and takes at least one byte and no more than there are |
| `Wire.DecodeNLRI` | bgp/packet/bgp.go:2305-2335 | the loop returns the list of its specification or its error |
| `Wire.NlrisRoundTrip` | bgp/packet/bgp.go:2305-2335 | a list of canonical prefixes comes back from its bytes |
| `AsSegments.DecodedLenExact` | bgp/packet/bgp.go:1406 | the length of a decoded segment is right if and only if it has at most 63 ASes, and too small otherwise |
| `AsSegments.SegmentRoundTrip` | bgp/packet/bgp.go:1381-1408 | the ASes of a non-empty segment come back |
| `AsSegments.SegmentOnWire` | bgp/packet/bgp.go:1381-1392 | a segment is its kind, its count and four octets for each AS |
| `AsSegments.ReadSegment` | bgp/packet/bgp.go:1393-1408 | the loop over the ASes computes the segment of its specification |
| `AsSegments.ReadSegments` | bgp/packet/bgp.go:1515-1547 | the loop over segments, swallowed error included, computes its specification |
| `AsSegments.SegmentsRoundTrip` | bgp/packet/bgp.go:1497-1547 | a path whose segments have 1 to 63 ASes comes back |
| `AsSegments.SegmentsExact` | bgp/packet/bgp.go:1381-1547 | a path of non-empty segments of two-byte numbers comes back if and only if no segment has more than 63 of them |
| `AsSegments.LoneSegmentExact` | bgp/packet/bgp.go:1406 | a lone segment of any numbers comes back if and only if it has at most 63, or the number at which the loop goes on asks for more octets than are left |
| `AsSegments.TruncationExact` | bgp/packet/bgp.go:1534-1536 | a path that breaks off after some segments is accepted as these if and only if what follows in the packet is too short for a segment |
| `PathAttributes.ReadAttr` | bgp/packet/bgp.go:1080-2215 | the decoder, with its loop over AS path segments, computes its specification, errors included |
| `PathAttributes.AttrOnWire` | bgp/packet/bgp.go:1044-2215 | the bytes of every modelled attribute: flags, type code, length and value |
| `PathAttributes.AttrRefused` | bgp/packet/bgp.go:1080-1126 | which flags, lengths and values are refused, and with which sub-code; all else is read |
| `PathAttributes.BaseRoundTrip` | bgp/packet/bgp.go:1044-1126 | flags, code and length come back when flags and length suit the code |
| `PathAttributes.ValueRoundTrip` | bgp/packet/bgp.go:1151-2215 | the value of every modelled attribute comes back |
| `PathAttributes.AttrRoundTrip` | bgp/packet/bgp.go:1040-2215 | an attribute comes back together with the number of its bytes |
| `PathAttributes.AttrRoundTripExact` | bgp/packet/bgp.go:1040-2215 | an attribute comes back if and only if it is faithful: an origin within range, a next hop of four octets, a length that its flags can hold, an AS path with segments of at most 63, an unknown attribute with proper flags |
| `UpdateMessages.WriteUpdate` | bgp/packet/bgp.go:2267-2303 | the encoder's loops produce the fields behind their lengths |
| `UpdateMessages.ReadAttrs` | bgp/packet/bgp.go:2383-2395 | the loop over attributes computes its specification, errors included |
| `UpdateMessages.ReadUpdate` | bgp/packet/bgp.go:2357-2407 | the decoder makes the checks of its specification in their order |
| `UpdateMessages.UpdateOnWire` | bgp/packet/bgp.go:2267-2303 | the fields of an update in order, behind lengths of two octets |
| `UpdateMessages.UpdateRefused` | bgp/packet/bgp.go:2357-2395 | lengths that point behind the message are refused |
| `UpdateMessages.MessageOnWire` | bgp/packet/bgp.go:2432-2450 | a message has a marker of ones, its own length, type 2 and at most 4096 octets |
| `UpdateMessages.UpdateRoundTrip` | bgp/packet/bgp.go:2267-2407 | an update of canonical prefixes and faithful attributes that fits a message comes back as it was |
| `UpdateMessages.UpdateRoundTripExact` | bgp/packet/bgp.go:2267-2407 | an update that fits comes back if and only if its prefixes have no host bits and the form that was negotiated, and each of its attributes is faithful |
| `UpdateMessages.MessageRoundTrip` | bgp/packet/bgp.go:2432-2475 | so does every message the encoder does not refuse, through the normalization of its AS path and whatever follows it on the stream |
| `UpdateSplitting.ReplayIsWhole` | bgp/packet/helpers.go:954-1135 | pieces in order change a table of routes as their union does |
| `UpdateSplitting.MisfitShows` | bgp/packet/helpers.go:1098-1120 | a prefix that does not fit beside the attributes makes a piece too long |
| `UpdateSplitting.PieceSize` | bgp/packet/bgp.go:2432-2450 | the splitter's arithmetic is the size of the encoded message |
| `UpdateSplitting.SplitWithdrawn` | bgp/packet/helpers.go:964-984 | the withdrawn prefixes in pieces that fit, the last ones left over |
| `UpdateSplitting.SplitNlri` | bgp/packet/helpers.go:1095-1132 | the announced prefixes in pieces with all attributes, which fit if the prefixes do |
| `UpdateSplitting.ConstructMaxSizedUpdatePackets` | bgp/packet/helpers.go:954-1135 | withdrawn and announced prefixes are conserved in order, pieces with prefixes carry all attributes, replaying them is applying the whole, and all fit if and only if every prefix fits beside the attributes; a piece without attributes is sent if and only if withdrawals and attributes do not fit together, an empty one if and only if the attributes alone do not fit; an update that fits is sent as it is, and no piece has room for the first prefix of the next |
| `UpdateSplitting.PiecesDelivered` | bgp/packet/helpers.go:954-1135 | a receiver decodes every message of a split update to the piece that was sent |
| `AsPaths.ASPath.AppendASPathSegment` | bgp/packet/bgp.go:1556-1559 | the segment goes to the end and the length stays the size of all segments |
| `AsPaths.ASPath.PrependAS` | bgp/packet/helpers.go:35-57 | exactly one AS is added in front of the path, a segment is opened exactly when the path is empty or begins with a set or a segment of 255 ASes, a number that does not fit is replaced by 23456 in a new segment and cut otherwise, and all lengths stay right |
| `AsPaths.NarrowedSize` | bgp/packet/bgp.go:1364-1379 | the size of a converted segment is right if and only if it has at most 127 ASes |
| `AsPaths.NarrowWiden` | bgp/packet/helpers.go:813-897 | converting there and back gives the segment if and only if all its numbers fit two bytes |
| `AsPaths.Convert4ByteTo2ByteASPath` | bgp/packet/helpers.go:873-897 | every number that does not fit two bytes becomes 23456 and the others stay, with the flag set exactly if one was replaced |
| `AsPaths.ConvertAS2ToAS4` | bgp/packet/helpers.go:813-836 | all segments converted back, with their sizes right |
| `AsPaths.ConvertThereAndBack` | bgp/packet/helpers.go:813-897 | both conversions are the identity if and only if nothing was replaced, and the result is valid always |
| `ArpCaches.ResolvedLifetime` | arp/server/arpCache.go:419-506 | a resolved entry that no route owns leaves after as many ticks as its counter says, not before |
| `ArpCaches.UnresolvedLifetime` | arp/server/arpCache.go:476-503 | a fresh unresolved entry that no route owns leaves after exactly five ticks, for every timeout of at least 300 |
| `ArpCaches.LifetimeBound` | arp/server/arpCache.go:419-506 | no entry that no route owns outlives its counter |
| `ArpCaches.RibSurvives` | arp/server/arpCache.go:460-473 | an entry that a route owns survives any number of ticks and hardware failures |
| `ArpCaches.ARPServer.ProcessArpEntryDeleteMsgFromRib` | arp/server/arpCache.go:104-129 | what a route owns is deleted, and nothing else, unless the hardware keeps a resolved one |
| `ArpCaches.ARPServer.ProcessDeleteByIPAddr` | arp/server/arpCache.go:131-157 | an operator deletes what no route owns, and nothing else, unless the hardware keeps a resolved one |
| `ArpCaches.ARPServer.ProcessRefreshByIPAddr` | arp/server/arpCache.go:172-195 | the entry becomes incomplete with a full counter, unless the hardware keeps a resolved one |
| `ArpCaches.ARPServer.ProcessArpEntryCntUpdateMsg` | arp/server/arpCache.go:251-258 | exactly the counters above the new timeout are cut |
| `ArpCaches.ARPServer.ProcessArpEntryMacMoveMsg` | arp/server/arpCache.go:260-286 | only the port of a known entry changes |
| `ArpCaches.ARPServer.ProcessArpEntryDeleteMsg` | arp/server/arpCache.go:293-310 | entries of other ports stay; without failures all of the port go |
| `ArpCaches.ARPServer.ProcessArpEntryUpdateMsg` | arp/server/arpCache.go:312-417 | a confirmed entry starts a new lifetime, a resolved one is at most handed to a route, any other is made anew and goes to the hardware with its MAC unless that fails; a route never loses an entry |
| `ArpCaches.ARPServer.AgeEntry` | arp/server/arpCache.go:422-504 | one tick of one entry is the ageing function: an expired entry goes, or is renewed if a route owns it, and comes out of the hardware; before that the counter falls by one, the hardware is not called, and exactly unresolved entries that no route owns and that are not asked for again leave |
| `ArpCaches.ARPServer.ProcessArpCounterUpdateMsg` | arp/server/arpCache.go:419-506 | one tick ages every entry by itself |
| `ArpCaches.ARPServer.Tick` | arp/server/arpCache.go:419-506 | any number of ticks age every entry as often |
| `ArpCaches.ARPServer.Handle` | arp/server/arpCache.go:77-102 | what each message does to the cache |
| `ArpCaches.Run` | arp/server/arpCache.go:77-102 | after any run of messages every resolved entry is in the hardware with its MAC, and if no hardware call failed the hardware holds nothing else |
| `BfdSessions.Converges` | bfd/server/bfdSession.go:118-166 | three rounds without loss bring two sessions up from any states and keep them up |
| `BfdSessions.TwoRoundsFall` | bfd/server/bfdSession.go:118-166 | two rounds are enough except when the end that receives second is Up and the other Down |
| `BfdSessions.NextInWords` | bfd/server/bfdSession.go:118-166 | the next state for each state received: Down leads to Init, or to Down from Up; Init leads to Up; Up leads to Up except from Down |
| `BfdSessions.BfdSession.EventHandler` | bfd/server/bfdSession.go:118-166 | the next state is that of the standard's rules, owners are told exactly of changes of Up, and a change makes the packet be rebuilt |
| `BfdSessions.BfdSession.SendBfdNotification` | bfd/server/bfdSession.go:405-421 | a notification is sent exactly if it differs from the last |
| `BfdSessions.BfdSession.ProcessBfdPacket` | bfd/server/bfdSession.go:263-322 | a packet counts exactly if it is authentic, of version 1, not multipoint and with a detection multiplier and a discriminator; it then gives the remote parameters, the next state, the notification of a change of Up and the diagnosis |
| `BfdSessions.BfdSession.HandleSessionTimeout` | bfd/server/bfdSession.go:561-574 | an active session goes down, with its diagnosis and, if it was Up, a notification |
| `BfdSessions.BfdSession.SendPeriodicControlPackets` | bfd/server/bfdSession.go:528-559 | the packet sent carries the current state |
| `BfdSessions.Pair.Take` | bfd/server/bfdSession.go:118-322 | each step of two sessions and their channels keeps the invariant |
| `BfdSessions.Run` | bfd/server/bfdSession.go:118-322 | from Down with empty channels, whenever a session is Up each of the two has processed a packet of the other, and notifications alternate and follow Up |

## Left out

- Destinations.Destination.AddOrUpdatePath: a path object known under another key is excluded; what re-using one costs is stated by `PathIndexes.RebindingLosesId`.
- Destinations.Run: a path's reachability, attributes and next hop are fixed, every announcement brings a path object of its own, and local paths come only under the router's own key; the conditions for a right choice are on the history alone, so after a step that could go wrong they do not follow which path the map order happened to choose, but wait for a selection that is right from any choice.
- ChainGuards.ChainExact: candidates that tie on all keys but the address have peers of one family, since the address filter otherwise compares only some pairs; the same holds for `ChainGuards.PreciseExact` and the set forms in `AnyOrders`.
- Winners.AlwaysWinsExact: AS counts are within the bound or equal, as those that a message of 4096 bytes can carry are, and the peers of the paths tied on preference and AS count are of one family; the same holds for `Winners.AlwaysWinsFromExact` and `Histories.RightExact`.
- SessionManagers.Surviving: it is the code's result for connections of different directions; of two of the losing direction the code closes the one that it finds first, and `SessionManagers.SameDirectionUnresolved` uses only whether any is closed.
- SessionManagers.FSMManager.ReceivedBGPOpenMessage: the machines hold connections of different directions, without which the outcome depends on the order of a map.
- SessionManagers.Run: follows a run up to the first moment at which both machines hold connections of one direction; `SessionManagers.SameDirectionUnresolved` says why the promise ends there.
- RouteLists.RouteList.Scan: one client, no timer reset during the scan, and a positive count per page.
- UpdateSplitting.ConstructMaxSizedUpdatePackets: updates without multiprotocol attributes only, since splitting can lose such an attribute (bgp/packet/helpers.go:991).
- AsPaths.ASPath.PrependAS: the segments of a path are of the width that the caller passes, and there is no AS4_PATH attribute.
- PathAttributes.AttrRoundTripExact: for AS paths of non-empty segments and two-byte numbers; with larger numbers `AsSegments.LoneSegmentExact` says what happens to one segment.
- UpdateMessages.MessageRoundTrip: the normalization of the AS path (bgp/packet/helpers.go:899-952) is that of a session with four-byte numbers; the framing by the header, which it relies on, is that of bgp/packet/bgp.go:287-305 and bgp/fsm/conn.go:380-413.
- PathAttributes.AttrRoundTrip: aggregator, multiprotocol and AS4 attributes, and two-byte AS paths in decoding, are not modelled; the flags of a decoded known attribute are not kept.
- UpdateMessages.ReadUpdate: an index or slice out of range is an error value `Fault`; error texts and quoted data are not kept.
- PrefixLimits.LocRib.Withdraw: whether the selection reports a deletion is a parameter.
- BfdSessions.BfdSession.EventHandler: the administrative states, demand mode, polls, intervals and authentication digests; authentication is a flag.
- Sessions.FSM.HandlePacket: which event a message or an error in it stands for (bgp/fsm/fsm.go:1003-1050) is part of the input.
- Sessions.FSM.Handle: goroutines, locks and channels; each input is one atomic step, and closing a machine takes effect at once for the manager.
- A route object is identified with its path and its PathInfo record; the BestPath and MultiPath marks shown to management are not modelled.
- Additional paths (`addAddPaths`, `updateAddPaths`), aggregation of routes, `RemoveAllNeighborPaths` and the replay of paths that become reachable.
- AS4_PATH reconstruction and the AS4_PATH attribute added by a conversion; `AddOriginatorId` and `AddClusterId`.
- ARP packet parsing, port, VLAN and LAG lookup (the VLAN of a port is a parameter), deletion and refresh by interface name, and the slice behind bulk reads after its first filling.
- RPC listeners, databases, configuration, policy engine, logging and sockets.
