/**
 One destination of the Loc-RIB: the paths every peer has announced for a prefix,
 the indexes over them, the installed equal-cost set and the calls that program
 the system's routing table.
 */
module Destinations {
  import opened AnyOrders
  import opened BestPaths
  import opened ChainGuards
  import opened Decisions
  import opened Histories
  import opened PathIndexes
  import opened Ranking
  import opened RibTables
  import opened Selections
  import opened Wrappers

  class Destination {
    const useMultiplePaths: bool
    const ebgpMaxPaths: nat
    const ibgpMaxPaths: nat
    var peerPathMap: map<Key, Path>
    var pathRouteMap: map<Path, Route>
    var paths: seq<Path>
    var pathInfos: set<Path>
    var maxPathId: nat
    var pathIds: seq<nat>
    var locRibPath: Option<Path>
    var recalculate: bool
    var ecmpPaths: map<Path, Action>
    var ribCalls: seq<RibCall>
    ghost var lastOrder: seq<Path>

    /** Whether multipath is on for external and for internal sessions. */
    function Multipath(): Multi {
      Multi(useMultiplePaths && ebgpMaxPaths > 1, useMultiplePaths && ibgpMaxPaths > 1)
    }

    ghost function Ix(): Index
      reads this
    {
      Index(peerPathMap, pathRouteMap, paths, pathInfos, maxPathId, pathIds)
    }

    ghost function St(): State
      reads this
    {
      State(Ix(), locRibPath, recalculate, ecmpPaths, ribCalls, lastOrder, Multipath())
    }

    ghost predicate Valid()
      reads this
    {
      Sound(St())
    }

    constructor (useMultiplePaths: bool, ebgpMaxPaths: nat, ibgpMaxPaths: nat)
      ensures Valid() && peerPathMap == map[] && pathRouteMap == map[] && !recalculate
      ensures ribCalls == [] && lastOrder == []
      ensures Multipath() == Multi(useMultiplePaths && ebgpMaxPaths > 1, useMultiplePaths && ibgpMaxPaths > 1)
    {
      hide Sound;
      this.useMultiplePaths, this.ebgpMaxPaths, this.ibgpMaxPaths := useMultiplePaths, ebgpMaxPaths, ibgpMaxPaths;
      peerPathMap, pathRouteMap, paths, pathInfos := map[], map[], [], {};
      maxPathId, pathIds := 1, [];
      locRibPath, recalculate, ecmpPaths, ribCalls, lastOrder := None, false, map[], [], [];
      new;
      EmptySound(Multipath());
    }

    method GetNextPathId() returns (id: nat)
      modifies this`maxPathId, this`pathIds
      ensures (id, maxPathId, pathIds) == NextPathId(old(maxPathId), old(pathIds))
      ensures if old(pathIds) == [] then id == old(maxPathId) == maxPathId - 1 && pathIds == []
              else old(pathIds) == pathIds + [id] && maxPathId == old(maxPathId)
    {
      if |pathIds| > 0 {
        id := pathIds[|pathIds| - 1];
        pathIds := pathIds[..|pathIds| - 1];
        return;
      }
      id := maxPathId;
      maxPathId := maxPathId + 1;
    }

    method ReleasePathId(pathId: nat)
      modifies this`maxPathId, this`pathIds
      ensures (maxPathId, pathIds) == ReleasedPathId(old(maxPathId), old(pathIds), pathId)
      ensures if old(maxPathId) == pathId + 1 then maxPathId == pathId && pathIds == old(pathIds)
              else maxPathId == old(maxPathId) && pathIds == old(pathIds) + [pathId]
    {
      if pathId + 1 == maxPathId {
        maxPathId := maxPathId - 1;
        return;
      }
      pathIds := pathIds + [pathId];
    }

    /** The index part of `AddOrUpdatePath`. */
    method Enlist(key: Key, path: Path)
      requires key in peerPathMap ==> Listed(Ix(), key)
      modifies this`peerPathMap, this`pathRouteMap, this`paths, this`pathInfos, this`maxPathId, this`pathIds
      ensures Ix() == Added(old(Ix()), key, path)
    {
      var idx := -1;
      if key in peerPathMap {
        var oldPath := peerPathMap[key];
        if oldPath in pathRouteMap {
          idx := pathRouteMap[oldPath].listIdx;
          pathInfos := pathInfos - {oldPath};
        }
      }
      var outPathId := GetNextPathId();
      if idx != -1 {
        paths := paths[idx := path];
      } else {
        idx := |paths|;
        paths := paths + [path];
      }
      pathRouteMap := pathRouteMap[path := Route(outPathId, idx)];
      pathInfos := pathInfos + {path};
      peerPathMap := peerPathMap[key := path];
    }

    method AddOrUpdatePath(key: Key, path: Path) returns (added: bool)
      requires Valid()
      requires path in pathRouteMap ==> key in peerPathMap && peerPathMap[key] == path
      requires path.source.Local? <==> key == LOCAL_KEY
      modifies this
      ensures Valid() && St() == Announced(old(St()), key, path)
      ensures added <==> key !in old(peerPathMap)
      ensures peerPathMap == old(peerPathMap)[key := path] && pathRouteMap.Keys == old(pathRouteMap).Keys + {path}
      ensures key !in old(peerPathMap) ==> paths == old(paths) + [path]
      ensures var known := key in old(peerPathMap) && old(peerPathMap)[key] == path;
              var lost := key in old(peerPathMap) && old(locRibPath) == Some(old(peerPathMap)[key]) && !known;
              && locRibPath == (if lost then None else old(locRibPath))
              && ecmpPaths == old(ecmpPaths) && ribCalls == old(ribCalls)
              && recalculate == (old(recalculate)
                   || (!known && (locRibPath.None? || locRibPath.value.source.External? || path.source.Local?)))
    {
      hide Sound, Listed, Added;
      AnnouncedSound(St(), key, path);
      SoundFacts(St());
      AnnouncedInFields(St(), key, path);
      if key in peerPathMap && peerPathMap[key] == path { return false; }
      added := key !in peerPathMap;
      if key in peerPathMap && locRibPath == Some(peerPathMap[key]) {
        locRibPath := None;
      }
      if locRibPath.None? || SourceRank(locRibPath.value) >= SourceRank(path) {
        recalculate := true;
      }
      Enlist(key, path);
    }

    /** The index part of `RemovePath`. */
    method Delist(key: Key)
      requires Listed(Ix(), key)
      modifies this`peerPathMap, this`pathRouteMap, this`paths, this`pathInfos, this`maxPathId, this`pathIds
      ensures Ix() == Removed(old(Ix()), key)
    {
      var path := peerPathMap[key];
      var route := pathRouteMap[path];
      ReleasePathId(route.outPathId);
      pathRouteMap := pathRouteMap - {path};
      pathInfos := pathInfos - {path};
      var last := paths[|paths| - 1];
      paths := paths[route.listIdx := last][..|paths| - 1];
      if last in pathRouteMap {
        pathRouteMap := pathRouteMap[last := pathRouteMap[last].(listIdx := route.listIdx)];
      }
      peerPathMap := peerPathMap - {key};
    }

    /** Withdraws the path announced under `key`, if there is one. */
    method RemovePath(key: Key) returns (oldPath: Option<Path>)
      requires Valid()
      modifies this
      ensures Valid() && St() == Withdrawn(old(St()), key)
      ensures oldPath == if key in old(peerPathMap) then Some(old(peerPathMap)[key]) else None
      ensures peerPathMap == old(peerPathMap) - {key} && ecmpPaths == old(ecmpPaths) && ribCalls == old(ribCalls)
      ensures oldPath.Some? ==>
                && pathRouteMap.Keys == old(pathRouteMap).Keys - {oldPath.value}
                && multiset(paths) == multiset(old(paths)) - multiset{oldPath.value}
      ensures locRibPath == if oldPath.Some? && old(locRibPath) == oldPath then None else old(locRibPath)
      ensures recalculate == (old(recalculate)
                || (oldPath.Some? && (oldPath.value in old(ecmpPaths) || old(locRibPath) == oldPath)))
    {
      hide Sound, Listed, Removed;
      WithdrawnSound(St(), key);
      SoundFacts(St());
      oldPath := None;
      WithdrawnInFields(St(), key);
      if key !in peerPathMap { return; }
      oldPath := Some(peerPathMap[key]);
      if oldPath.value in ecmpPaths {
        recalculate := true;
      }
      if locRibPath == oldPath {
        recalculate := true;
        locRibPath := None;
      }
      Delist(key);
    }

    /** The candidates of the best source, the current choice first, and the other candidates. */
    method GatherCandidates() returns (updated: seq<Path>, removed: seq<Path>)
      requires ChoiceValid(peerPathMap, locRibPath) && OneKeyEach(peerPathMap)
      ensures updated == [] <==> Candidates(peerPathMap) == {}
      ensures Orders(updated, BestSources(Candidates(peerPathMap)))
      ensures forall p :: p in removed <==> p in Candidates(peerPathMap) && p !in updated
      ensures LedBy(updated, locRibPath)
    {
      updated, removed := [], [];
      var routeSrc: nat := UNKNOWN_SOURCE;
      ghost var seen: set<Path> := {};
      if locRibPath.Some? {
        OfferedPooled(Pool([], [], UNKNOWN_SOURCE), {}, locRibPath.value);
        routeSrc := SourceRank(locRibPath.value);
        updated := [locRibPath.value];
        seen := {locRibPath.value};
      }
      var todo := peerPathMap.Keys;
      while todo != {}
        invariant todo <= peerPathMap.Keys
        invariant Pooled(Pool(updated, removed, routeSrc), seen)
        invariant seen <= Candidates(peerPathMap)
        invariant forall k :: k in peerPathMap && k !in todo && Eligible(peerPathMap[k]) ==> peerPathMap[k] in seen
        invariant locRibPath.Some? ==> locRibPath.value in seen
        invariant forall k :: k in todo ==> peerPathMap[k] !in seen || locRibPath == Some(peerPathMap[k])
        invariant locRibPath.Some? && routeSrc == SourceRank(locRibPath.value) ==>
                    updated != [] && updated[0] == locRibPath.value
        decreases todo
      {
        hide Pooled;
        var key :| key in todo;
        todo := todo - {key};
        var path := peerPathMap[key];
        if locRibPath != Some(path) {
          if !path.reachable || path.asLoop { continue; }
          OfferedPooled(Pool(updated, removed, routeSrc), seen, path);
          seen := seen + {path};
          if SourceRank(path) > routeSrc {
            removed := removed + [path];
          } else if SourceRank(path) < routeSrc {
            removed := removed + updated;
            updated := [path];
            routeSrc := SourceRank(path);
          } else {
            updated := updated + [path];
          }
        }
      }
      assert seen == Candidates(peerPathMap);
      PooledBest(Pool(updated, removed, routeSrc), seen);
    }

    /** The path that stands for a group: an installed one if there is any, else the first. */
    method PickRoute(group: seq<Path>, best: bool) returns (path: Path, found: bool)
      requires group != []
      ensures path in group && (found <==> path in ecmpPaths)
      ensures best || !found ==> path == group[0]
      ensures !best && (exists p :: p in group && p in ecmpPaths) ==> found
    {
      for i := 0 to |group|
        invariant forall j :: 0 <= j < i ==> group[j] !in ecmpPaths
        invariant i <= 1 || !best
      {
        if best && i > 0 { break; }
        if group[i] in ecmpPaths { return group[i], true; }
      }
      return group[0], false;
    }

    /** Marks one path of every group as kept or new; the new ones are still to be programmed. */
    method InstallGroups(groups: seq<seq<Path>>)
      returns (created: seq<Path>, firstRoute: bool, action: Action, ghost chosen: seq<Path>)
      requires ByNextHop(groups) && groups != []
      requires forall p :: InGroups(p, groups) ==> p in pathRouteMap
      modifies this`ecmpPaths
      ensures Represents(chosen, groups, old(ecmpPaths).Keys)
      ensures ecmpPaths == Marked(old(ecmpPaths), chosen)
      ensures created == NewlyProgrammed(chosen, old(ecmpPaths).Keys)
      ensures firstRoute ==> forall p :: p in chosen ==> p !in old(ecmpPaths)
      ensures !firstRoute ==> exists p :: p in chosen && p in old(ecmpPaths)
      ensures action == if chosen[0] !in old(ecmpPaths) then ActionAdd
                        else if chosen[0].aggregate then ActionReplace else ActionNone
    {
      hide NewlyProgrammed, Marked, Stands, Represents;
      ghost var before := ecmpPaths;
      created, firstRoute, action, chosen := [], true, ActionNone, [];
      NothingMarked(before);
      assert Stands([], groups, before.Keys) by { NoneStands(groups, before.Keys); }
      assert forall j :: 0 <= j < |groups| ==> groups[j] != [];
      hide ByNextHop;
      for i := 0 to |groups|
        invariant |chosen| == i && Stands(chosen, groups, before.Keys)
        invariant ecmpPaths == Marked(before, chosen)
        invariant created == NewlyProgrammed(chosen, before.Keys)
        invariant firstRoute ==> forall p :: p in chosen ==> p !in before
        invariant !firstRoute ==> exists p :: p in chosen && p in before
        invariant action == if i == 0 then ActionNone
                            else if chosen[0] !in before then ActionAdd
                            else if chosen[0].aggregate then ActionReplace else ActionNone
      {
        MarkedFacts(before, chosen);
        StandsApart(chosen, groups, before.Keys);
        var path, found := PickRoute(groups[i], i == 0);
        StandsNext(chosen, groups, before.Keys, path);
        MarkedNext(before, chosen, path);
        NewlyProgrammedNext(chosen, path, before.Keys);
        chosen := chosen + [path];
        if found {
          firstRoute := false;
          if i == 0 && path.aggregate {
            action := ActionReplace;
          }
          ecmpPaths := ecmpPaths[path := ActionReplace];
        } else {
          // a path always has a route, so the code never passes over a group here
          assert path in pathRouteMap by { assert InGroups(path, groups); }
          if path.Programmed() {
            created := created + [path];
          }
          if i == 0 {
            action := ActionAdd;
          }
          ecmpPaths := ecmpPaths[path := ActionAdd];
        }
      }
      StandsForAll(chosen, groups, before.Keys);
    }

    /** Drops the stale paths and takes the hops of those that were programmed out of the routing table. */
    method RemoveStale(ghost before: set<Path>) returns (ghost kept: set<Path>)
      requires RibAgrees(before, ribCalls)
      requires forall p :: p in ecmpPaths && Stale(ecmpPaths[p]) ==> p in before
      modifies this`ecmpPaths, this`ribCalls
      ensures ecmpPaths == Swept(old(ecmpPaths))
      ensures forall p :: p in kept <==> p in before && !(p in old(ecmpPaths) && Stale(old(ecmpPaths)[p]))
      ensures RibAgrees(kept, ribCalls)
    {
      hide Table, Called, Hops;
      ghost var start := ecmpPaths;
      kept := before;
      var todo := ecmpPaths.Keys;
      while todo != {}
        invariant todo <= start.Keys
        invariant forall p :: p in ecmpPaths <==> p in start && (p in todo || !Stale(start[p]))
        invariant forall p :: p in ecmpPaths ==> ecmpPaths[p] == if p in todo then start[p] else ActionNone
        invariant forall p :: p in kept <==> p in before && !(p in start && p !in todo && Stale(start[p]))
        invariant RibAgrees(kept, ribCalls)
        decreases todo
      {
        var path :| path in todo;
        todo := todo - {path};
        if Stale(ecmpPaths[path]) {
          HopRemoved(kept, ribCalls, path);
          kept := kept - {path};
          if path.Programmed() {
            ribCalls := ribCalls + [RemoveHop(path.nextHop)];
          }
          ecmpPaths := ecmpPaths - {path};
        } else {
          ecmpPaths := ecmpPaths[path := ActionNone];
        }
      }
    }

    /** Adds the hops of `created` to the routing table; the first one creates the route if none was kept. */
    method ProgramCreated(created: seq<Path>, firstRoute: bool, ghost hops: set<nat>)
      requires Table(ribCalls) == Some(hops)
      requires HopsApart(created) && forall p :: p in created ==> p.nextHop !in hops
      requires firstRoute ==> hops == {}
      requires created != [] && !firstRoute ==> hops != {}
      modifies this`ribCalls
      ensures Table(ribCalls) == Some(hops + PathHops(created))
    {
      hide Table, PathHops;
      var first := firstRoute;
      NoPathHops();
      assert created[..0] == [] && hops + {} == hops;
      for i := 0 to |created|
        invariant Table(ribCalls) == Some(hops + PathHops(created[..i]))
        invariant first ==> hops == {} && i == 0
        invariant !first && i < |created| ==> hops + PathHops(created[..i]) != {}
      {
        var hop := created[i].nextHop;
        PathHopsNext(created, i);
        PathHopsOf(created, i);
        var call := if first then CreateRoute(hop) else AddHop(hop);
        TableSnoc(ribCalls, call);
        assert hops + PathHops(created[..i]) + {hop} == hops + PathHops(created[..i + 1]);
        ribCalls := ribCalls + [call];
        first := false;
      }
      assert created[..|created|] == created;
    }

    /** The winner of the filters and the equal-cost groups, the winner's group and the winner first. */
    method RankCandidates(updated: seq<Path>, removed: seq<Path>, addPathCount: nat) returns (groups: seq<seq<Path>>)
      requires updated != []
      ensures Led(groups, Kept(STAGES, updated)[0], SelectedBase(updated, Multipath()))
    {
      var best := updated[0];
      groups := [];
      ghost var base: seq<Path> := [];
      if |updated| > 1 || addPathCount > 0 {
        var a := new Path[|updated|](i requires 0 <= i < |updated| => updated[i]);
        assert a[..|updated|] == updated;
        var m, pruned;
        m, groups, pruned := CalculateBestPath(a, |updated|, removed, Multipath().ebgp, Multipath().ibgp);
        best := a[..m][0];
        base := SelectedBase(updated, Multipath());
      } else {
        KeptOne(3, updated);
        KeptOne(4, updated);
        KeptOne(STAGES, updated);
      }
      if base != [] { WinnerInMultiBase(updated, Multipath().ebgp, Multipath().ibgp); }
      groups := LeadWith(groups, best, base);
    }

    /** Takes stale paths out of the installed set and the routing table, then adds the new hops. */
    method Reprogram(created: seq<Path>, firstRoute: bool, ghost before: set<Path>, ghost chosen: seq<Path>)
      requires RibAgrees(before, ribCalls) && HopsApart(chosen)
      requires forall p :: p in ecmpPaths <==> p in before || p in chosen
      requires forall p :: p in ecmpPaths ==> (Stale(ecmpPaths[p]) <==> p !in chosen)
      requires created == NewlyProgrammed(chosen, before)
      requires firstRoute ==> forall p :: p in chosen ==> p !in before
      requires !firstRoute ==> exists p :: p in chosen && p in before
      requires AllProgrammedOrAlone(chosen)
      modifies this`ecmpPaths, this`ribCalls
      ensures Quiet(ecmpPaths) && RibAgrees(ecmpPaths.Keys, ribCalls)
      ensures ecmpPaths.Keys == set p | p in chosen
    {
      hide NewlyProgrammed, Table, DistinctHops, HopsApart, PathHops;
      ghost var kept := RemoveStale(before);
      ChosenHops(chosen, before, kept);
      assert firstRoute ==> Hops(kept) == {};
      if !firstRoute { SomeHopKept(chosen, before, kept); }
      hide Hops;
      ProgramCreated(created, firstRoute, Hops(kept));
      assert ecmpPaths.Keys == set p | p in chosen;
    }

    /** Ranks the candidates and installs the winner and its equal-cost paths. */
    method InstallChoice(updated: seq<Path>, removed: seq<Path>, addPathCount: nat) returns (action: Action)
      requires updated != [] && Quiet(ecmpPaths) && RibAgrees(ecmpPaths.Keys, ribCalls) && AllProgrammedOrAlone(updated)
      requires forall p :: p in updated ==> p in pathRouteMap
      modifies this`ecmpPaths, this`ribCalls, this`locRibPath
      ensures Selected(updated, locRibPath, ecmpPaths.Keys, Multipath())
      ensures KeepsInstalled(old(ecmpPaths).Keys, ecmpPaths.Keys, locRibPath, SelectedBase(updated, Multipath()))
      ensures action == SelectAction(locRibPath, old(ecmpPaths).Keys)
      ensures Quiet(ecmpPaths) && RibAgrees(ecmpPaths.Keys, ribCalls)
    {
      hide Kept, SelectedBase, AllProgrammedOrAlone, Led, Represents, RibAgrees, Marked, NewlyProgrammed, HopsApart,
        Selected, KeepsInstalled;
      ghost var before := ecmpPaths;
      var groups := RankCandidates(updated, removed, addPathCount);
      LedFacts(groups, Kept(STAGES, updated)[0], SelectedBase(updated, Multipath()));
      var created, firstRoute;
      ghost var chosen;
      GroupsWithin(groups, updated, Multipath());
      created, firstRoute, action, chosen := InstallGroups(groups);
      RepresentsFacts(chosen, groups, before.Keys);
      locRibPath := Some(groups[0][0]);
      MarkedFacts(before, chosen);
      GroupsInstalled(groups, chosen, before.Keys, updated, Multipath());
      ChosenKept(groups, chosen, before.Keys, groups[0][0], SelectedBase(updated, Multipath()));
      ChosenProgrammed(groups, chosen, before.Keys, updated, Multipath());
      Reprogram(created, firstRoute, before.Keys, chosen);
    }

    /** Without a candidate, takes every installed path out. */
    method InstallNothing()
      requires RibAgrees(ecmpPaths.Keys, ribCalls)
      modifies this`ecmpPaths, this`ribCalls, this`locRibPath
      ensures locRibPath == None && ecmpPaths == map[] && RibAgrees({}, ribCalls)
    {
      ghost var before := ecmpPaths;
      ecmpPaths := map p | p in ecmpPaths :: ActionDelete;
      locRibPath := None;
      ghost var kept := RemoveStale(before.Keys);
      assert kept == {};
    }

    /** A selection that is due: gathers the candidates, ranks them and installs the choice. */
    method Reselect(addPathCount: nat) returns (action: Action)
      requires Valid() && recalculate
      modifies this
      ensures Valid() && Ix() == old(Ix()) && !recalculate
      ensures Orders(lastOrder, BestSources(Candidates(peerPathMap))) && LedBy(lastOrder, old(locRibPath))
      ensures Selected(lastOrder, locRibPath, ecmpPaths.Keys, Multipath())
      ensures action == SelectAction(locRibPath, old(ecmpPaths).Keys)
      ensures KeepsInstalled(old(ecmpPaths).Keys, ecmpPaths.Keys, locRibPath, SelectedBase(lastOrder, Multipath()))
      ensures IncumbentKept(old(locRibPath), locRibPath, Candidates(peerPathMap))
    {
      hide Settled, RibAgrees, Selected, KeepsInstalled, BestSource, BestSources, Candidates, Orders, IndexValid,
        Listed;
      SoundFacts(St());
      ghost var choice := locRibPath;
      recalculate := false;
      var updated, removed := GatherCandidates();
      OrderRouted(old(St()), updated);
      lastOrder := updated;
      if updated != [] {
        OrderedSources(updated, Candidates(peerPathMap));
        LocalAlone(peerPathMap, updated);
        action := InstallChoice(updated, removed, addPathCount);
        SelectedSettles(peerPathMap, updated, locRibPath, ecmpPaths.Keys, Multipath());
      } else {
        action := ActionDelete;
        InstallNothing();
        NothingSelected(peerPathMap, old(ecmpPaths).Keys, Multipath());
        assert ecmpPaths.Keys == {} && updated == [];
      }
      SelectedIncumbent(Candidates(peerPathMap), updated, choice, locRibPath, ecmpPaths.Keys, Multipath());
    }

    /**
     Selects among the candidates if a selection is due, and brings the installed set
     and the routing table in line with the choice.  What is chosen and installed is
     reachable and free of loops, and there is a choice unless no path is.
     */
    method SelectRouteForLocRib(addPathCount: nat) returns (action: Action)
      requires Valid()
      modifies this
      ensures Valid() && Ix() == old(Ix()) && !recalculate
      ensures old(!recalculate) ==> St() == old(St()) && action == ActionNone
      ensures old(recalculate) ==>
                && Orders(lastOrder, BestSources(Candidates(peerPathMap)))
                && LedBy(lastOrder, old(locRibPath))
                && Selected(lastOrder, locRibPath, ecmpPaths.Keys, Multipath())
                && KeepsInstalled(old(ecmpPaths).Keys, ecmpPaths.Keys, locRibPath,
                                  SelectedBase(lastOrder, Multipath()))
      ensures old(recalculate) ==> IncumbentKept(old(locRibPath), locRibPath, Candidates(peerPathMap))
      ensures locRibPath == None <==>
                forall k :: k in peerPathMap ==> !peerPathMap[k].reachable || peerPathMap[k].asLoop
      ensures locRibPath.Some? ==> locRibPath.value.reachable && !locRibPath.value.asLoop
      ensures forall p :: p in ecmpPaths.Keys ==> p.reachable && !p.asLoop
      ensures locRibPath.Some? ==>
                forall k :: k in peerPathMap && peerPathMap[k].reachable && !peerPathMap[k].asLoop ==>
                  if peerPathMap[k].source == locRibPath.value.source then peerPathMap[k].pref <= locRibPath.value.pref
                  else locRibPath.value.source.Local?
      ensures old(recalculate) ==>
                action == if locRibPath == None then ActionDelete
                          else if locRibPath.value !in old(ecmpPaths) then ActionAdd
                          else if locRibPath.value.aggregate then ActionReplace
                          else ActionNone
    {
      hide Sound, Settled, Selected, KeepsInstalled, IncumbentKept, BestSources, Candidates, Orders, LedBy,
        SelectedBase;
      action := ActionNone;
      if recalculate {
        action := Reselect(addPathCount);
      }
      SoundIsSettled(St());
      SettledInFields(peerPathMap, locRibPath, ecmpPaths.Keys);
    }

    /** One update of a peer. */
    method Update(op: Op)
      requires Valid() && Fresh(St(), op)
      modifies this
      ensures Valid() && St() == Updated(old(St()), op)
    {
      hide Sound, Announced, Withdrawn;
      match op {
        case Announce(key, path) =>
          var _ := AddOrUpdatePath(key, path);
        case Withdraw(key) =>
          var _ := RemovePath(key);
      }
    }

    /** One update of a peer and the selection that follows it. */
    method Apply(op: Op, addPathCount: nat)
      requires Valid() && Fresh(St(), op)
      modifies this
      ensures Valid() && !recalculate
      ensures Ix() == Updated(old(St()), op).ix && Stepped(Updated(old(St()), op), St())
    {
      hide Sound, Updated, BestSources, Candidates, Orders, Selected, KeepsInstalled, SelectAction, LedBy;
      Update(op);
      var _ := SelectRouteForLocRib(addPathCount);
    }
  }

  /**
   Any history of announcements and withdrawals, each followed by a selection.  The
   choice is of the best source.  After a history that makes it so, it is the best of what
   the peers announce, although a selection is skipped whenever nothing called for it, and
   the installed paths are equal-cost paths that cover all of their next hops.  The routing
   table has the next hops of the installed paths in any case.  Every replacement has left
   a route and an id behind that are never given back.
   */
  method Run(ops: seq<Op>, useMultiplePaths: bool, ebgpMaxPaths: nat, ibgpMaxPaths: nat, addPathCount: nat)
    returns (d: Destination)
    requires WellFormed(ops)
    ensures d.Valid() && !d.recalculate && d.peerPathMap == PeersAfter(ops)
    ensures d.Multipath() == Multi(useMultiplePaths && ebgpMaxPaths > 1, useMultiplePaths && ibgpMaxPaths > 1)
    ensures d.locRibPath == None <==> Candidates(PeersAfter(ops)) == {}
    ensures d.locRibPath.Some? ==> BestSource(d.locRibPath.value, Candidates(PeersAfter(ops)))
    ensures d.locRibPath.Some? && HistoryBest(ops) ==> IsBest(d.locRibPath.value, Candidates(PeersAfter(ops)))
    ensures d.locRibPath.Some? && HistoryFair(ops) ==>
              && IsBest(d.locRibPath.value, Candidates(PeersAfter(ops)))
              && Covers(d.locRibPath.value, d.ecmpPaths.Keys, BestSources(Candidates(PeersAfter(ops))), d.Multipath())
    ensures d.locRibPath == None <==>
              forall k :: k in PeersAfter(ops) ==> !PeersAfter(ops)[k].reachable || PeersAfter(ops)[k].asLoop
    ensures if d.locRibPath == None then d.ecmpPaths.Keys == {} else d.locRibPath.value in d.ecmpPaths.Keys
    ensures forall p :: p in d.ecmpPaths.Keys ==>
              && p.reachable && !p.asLoop && Live(p, PeersAfter(ops))
              && d.locRibPath.Some? && p.source == d.locRibPath.value.source && p.pref == d.locRibPath.value.pref
    ensures d.locRibPath.Some? ==>
              var best := d.locRibPath.value;
              forall k :: k in PeersAfter(ops) && PeersAfter(ops)[k].reachable && !PeersAfter(ops)[k].asLoop ==>
                var p := PeersAfter(ops)[k];
                && (if p.source == best.source then p.pref <= best.pref else best.source.Local?)
                && (HistoryBest(ops) && p.source == best.source ==> !Outranks(p, best))
                && (HistoryFair(ops) && SharesWith(p, best, d.Multipath()) ==>
                      exists q :: q in d.ecmpPaths.Keys && q.nextHop == p.nextHop)
    ensures d.locRibPath.Some? && HistoryFair(ops) ==>
              forall p :: p in d.ecmpPaths.Keys ==>
                p == d.locRibPath.value || SharesWith(p, d.locRibPath.value, d.Multipath())
    ensures Table(d.ribCalls) ==
            Some(set p | p in d.ecmpPaths.Keys && (p.source.External? || p.aggregate) :: p.nextHop)
    ensures RibAgrees(d.ecmpPaths.Keys, d.ribCalls)
    ensures |d.pathRouteMap| == |PeersAfter(ops)| + Replacements(ops)
    ensures d.maxPathId - 1 == |d.pathIds| + |PeersAfter(ops)| + Replacements(ops)
  {
    hide Follows, WellFormed, Fresh, Updated, Stepped, Sound, IsBest, BestSource, Covers, BestSources, Candidates,
      PeersAfter, Replacements, HistoryBest, HistoryFair, RibAgrees, Outranks, SharesWith, Live, Table;
    d := new Destination(useMultiplePaths, ebgpMaxPaths, ibgpMaxPaths);
    FollowsNothing(d.St());
    for i := 0 to |ops|
      invariant fresh(d) && d.Valid() && !d.recalculate && Follows(ops[..i], d.St())
    {
      ghost var before := d.St();
      FollowsFresh(ops, i, before);
      d.Apply(ops[i], addPathCount);
      FollowsNext(ops, i, before, d.St());
    }
    assert ops[..|ops|] == ops;
    FollowsFacts(ops, d.St());
    FollowsInFields(ops, d.St());
  }
}
