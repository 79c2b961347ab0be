/**
 The path-id allocator of a destination and the four cross-linked indexes over its
 paths.
 */
module PathIndexes {
  import opened Ranking
  import opened Wrappers

  datatype Key = Key(peer: nat, pathId: nat)

  /** The key under which the router itself announces a path. */
  const LOCAL_KEY := Key(0, 0)

  // ---------- Path ids ----------

  function NextPathId(max: nat, free: seq<nat>): (nat, nat, seq<nat>) {
    if |free| > 0 then (free[|free| - 1], max, free[..|free| - 1]) else (max, max + 1, free)
  }

  function ReleasedPathId(max: nat, free: seq<nat>, id: nat): (nat, seq<nat>) {
    if id + 1 == max then (id, free) else (max, free + [id])
  }

  /** Held ids and free ids are disjoint, free of duplicates, and together exactly 1..max-1. */
  ghost predicate IdsAccounted(max: nat, free: seq<nat>, held: set<nat>) {
    && max >= 1
    && (forall id :: id in free || id in held <==> 1 <= id < max)
    && (forall id :: id in free ==> id !in held)
    && (forall i, j :: 0 <= i < j < |free| ==> free[i] != free[j])
  }

  lemma NextIdAccounted(max: nat, free: seq<nat>, held: set<nat>)
    requires IdsAccounted(max, free, held)
    ensures var (id, max', free') := NextPathId(max, free);
            id !in held && IdsAccounted(max', free', held + {id})
  {
    if |free| > 0 {
      var n := |free| - 1;
      assert free == free[..n] + [free[n]];
      assert forall id :: id in free <==> id in free[..n] || id == free[n];
    }
  }

  lemma ReleasedIdAccounted(max: nat, free: seq<nat>, held: set<nat>, id: nat)
    requires IdsAccounted(max, free, held) && id in held
    ensures var (max', free') := ReleasedPathId(max, free, id);
            IdsAccounted(max', free', held - {id})
  {
  }

  /**
   A path object that is already known is given a second id and forgets its first
   one; the ids stay accounted for if and only if the object was not known.
   */
  lemma RebindingLosesId(max: nat, free: seq<nat>, held: set<nat>, known: Option<nat>)
    requires IdsAccounted(max, free, held)
    requires known.Some? ==> known.value in held
    ensures var (id, max', free') := NextPathId(max, free);
            var held' := (if known.Some? then held - {known.value} else held) + {id};
            IdsAccounted(max', free', held') <==> known.None?
  {
    NextIdAccounted(max, free, held);
    var (id, max', free') := NextPathId(max, free);
    if known.Some? {
      assert known.value !in free' && 1 <= known.value < max';
    }
  }

  // ---------- The indexes over the paths ----------

  /** A route; `listIdx` is its place in the list shown to management. */
  datatype Route = Route(outPathId: nat, listIdx: int)

  /**
   The cross-linked indexes.  A path object is listed at most once, so its route
   and the PathInfo record of that route are identified by the path: `list` and
   `infos` name them by it.
   */
  datatype Index = Index(
    peers: map<Key, Path>,
    routes: map<Path, Route>,
    list: seq<Path>,
    infos: set<Path>,
    maxId: nat,
    free: seq<nat>)

  ghost function HeldIds(routes: map<Path, Route>): set<nat> {
    set p | p in routes :: routes[p].outPathId
  }

  ghost predicate IdsValid(ix: Index) {
    && IdsAccounted(ix.maxId, ix.free, HeldIds(ix.routes))
    && forall p, q :: p in ix.routes && q in ix.routes && p != q ==> ix.routes[p].outPathId != ix.routes[q].outPathId
  }

  ghost predicate Live(p: Path, peers: map<Key, Path>) {
    exists k :: k in peers && peers[k] == p
  }

  /** Each path is announced under one key. */
  ghost predicate OneKeyEach(peers: map<Key, Path>) {
    forall k, l :: k in peers && l in peers && peers[k] == peers[l] ==> k == l
  }

  /** The list and the routes of the listed paths agree on every place. */
  ghost predicate Placed(routes: map<Path, Route>, list: seq<Path>, infos: set<Path>) {
    && (forall p :: p in infos ==> p in routes && 0 <= routes[p].listIdx < |list| && list[routes[p].listIdx] == p)
    && (forall i :: 0 <= i < |list| ==> list[i] in infos && routes[list[i]].listIdx == i)
  }

  /** The list holds the live paths, each at the place its route records, and nothing else. */
  ghost predicate ListValid(ix: Index) {
    && (forall p :: p in ix.infos <==> Live(p, ix.peers))
    && Placed(ix.routes, ix.list, ix.infos)
    && |ix.list| == |ix.peers|
  }

  ghost predicate IndexValid(ix: Index) {
    OneKeyEach(ix.peers) && ListValid(ix) && IdsValid(ix)
  }

  /** A path is announced under `key` and its route has a place in the list. */
  predicate Listed(ix: Index, key: Key) {
    key in ix.peers && ix.peers[key] in ix.routes && 0 <= ix.routes[ix.peers[key]].listIdx < |ix.list|
  }

  /** The new route takes the place of the one it replaces, or the next free place. */
  function Added(ix: Index, key: Key, path: Path): Index {
    var (id, maxId, free) := NextPathId(ix.maxId, ix.free);
    if Listed(ix, key) then
      var idx := ix.routes[ix.peers[key]].listIdx;
      Index(ix.peers[key := path], ix.routes[path := Route(id, idx)], ix.list[idx := path],
            ix.infos - {ix.peers[key]} + {path}, maxId, free)
    else
      Index(ix.peers[key := path], ix.routes[path := Route(id, |ix.list|)], ix.list + [path],
            ix.infos + {path}, maxId, free)
  }

  /** The last route of the list moves into the place that becomes free. */
  function Removed(ix: Index, key: Key): Index {
    if !Listed(ix, key) then ix
    else
      var path := ix.peers[key];
      var idx, last := ix.routes[path].listIdx, ix.list[|ix.list| - 1];
      var (maxId, free) := ReleasedPathId(ix.maxId, ix.free, ix.routes[path].outPathId);
      var routes := ix.routes - {path};
      Index(ix.peers - {key},
            if last in routes then routes[last := routes[last].(listIdx := idx)] else routes,
            ix.list[idx := last][..|ix.list| - 1], ix.infos - {path}, maxId, free)
  }

  lemma HeldIdsAfterAdd(routes: map<Path, Route>, path: Path, route: Route)
    requires path !in routes
    ensures HeldIds(routes[path := route]) == HeldIds(routes) + {route.outPathId}
  {
    var routes' := routes[path := route];
    assert forall p :: p in routes ==> routes'[p] == routes[p];
    assert path in routes';
  }

  lemma AddedIds(ix: Index, key: Key, path: Path)
    requires IndexValid(ix) && path !in ix.routes
    ensures IdsValid(Added(ix, key, path))
  {
    var (id, maxId, free) := NextPathId(ix.maxId, ix.free);
    var ix' := Added(ix, key, path);
    NextIdAccounted(ix.maxId, ix.free, HeldIds(ix.routes));
    forall p | p in ix.routes ensures ix.routes[p].outPathId in HeldIds(ix.routes) {}
    HeldIdsAfterAdd(ix.routes, path, ix'.routes[path]);
    hide HeldIds, IdsAccounted;
    assert ix'.routes == ix.routes[path := ix'.routes[path]] && ix'.routes[path].outPathId == id;
  }

  lemma AddedLive(peers: map<Key, Path>, infos: set<Path>, key: Key, path: Path)
    requires OneKeyEach(peers) && (forall p :: p in infos <==> Live(p, peers)) && !Live(path, peers)
    ensures var infos' := (if key in peers then infos - {peers[key]} else infos) + {path};
            OneKeyEach(peers[key := path]) && forall p :: p in infos' <==> Live(p, peers[key := path])
  {
    var peers' := peers[key := path];
    var infos' := (if key in peers then infos - {peers[key]} else infos) + {path};
    forall p ensures p in infos' <==> Live(p, peers') {
      if p in infos' {
        if p == path {
          assert peers'[key] == path;
        } else {
          var k :| k in peers && peers[k] == p;
          assert peers'[k] == p;
        }
      }
      if Live(p, peers') {
        var k :| k in peers' && peers'[k] == p;
        if k != key { assert peers[k] == p; }
      }
    }
  }

  lemma AddedPlaced(ix: Index, key: Key, path: Path)
    requires Placed(ix.routes, ix.list, ix.infos) && path !in ix.routes
    requires key in ix.peers ==> Listed(ix, key) && ix.peers[key] in ix.infos
    ensures var ix' := Added(ix, key, path);
            && Placed(ix'.routes, ix'.list, ix'.infos) && ix'.peers == ix.peers[key := path]
            && |ix'.list| == |ix.list| + (if key in ix.peers then 0 else 1)
            && ix'.infos == (if key in ix.peers then ix.infos - {ix.peers[key]} else ix.infos) + {path}
  {
    hide NextPathId;
  }

  lemma AddedSize(peers: map<Key, Path>, key: Key, path: Path)
    ensures |peers[key := path]| == |peers| + (if key in peers then 0 else 1)
  {
    assert peers[key := path].Keys == peers.Keys + {key};
  }

  lemma ReplacedListed(ix: Index, key: Key)
    requires IndexValid(ix) && key in ix.peers
    ensures Listed(ix, key) && ix.peers[key] in ix.infos
  {
    assert Live(ix.peers[key], ix.peers);
  }

  lemma UnknownNotLive(ix: Index, path: Path)
    requires IndexValid(ix) && path !in ix.routes
    ensures !Live(path, ix.peers)
  {
  }

  lemma AddedList(ix: Index, key: Key, path: Path)
    requires IndexValid(ix) && path !in ix.routes
    ensures OneKeyEach(Added(ix, key, path).peers) && ListValid(Added(ix, key, path))
  {
    hide IdsValid, Placed, Live, OneKeyEach, Added, Listed;
    if key in ix.peers { ReplacedListed(ix, key); }
    UnknownNotLive(ix, path);
    AddedLive(ix.peers, ix.infos, key, path);
    AddedPlaced(ix, key, path);
    AddedSize(ix.peers, key, path);
  }

  /** What an addition changes, in the fields: one key, one route, and one place of the list. */
  lemma AddedInFields(ix: Index, key: Key, path: Path)
    requires key in ix.peers ==> Listed(ix, key)
    ensures var ix' := Added(ix, key, path);
            && ix'.peers == ix.peers[key := path] && ix'.routes.Keys == ix.routes.Keys + {path}
            && (key !in ix.peers ==> ix'.list == ix.list + [path])
            && (key in ix.peers ==>
                  var idx := ix.routes[ix.peers[key]].listIdx; ix'.list == ix.list[idx := path])
  {
  }

  /** And a removal: one key, one route, and one member of the list. */
  lemma RemovedInFields(ix: Index, key: Key)
    requires IndexValid(ix) && key in ix.peers
    ensures var (ix', path) := (Removed(ix, key), ix.peers[key]);
            && ix'.peers == ix.peers - {key} && ix'.routes.Keys == ix.routes.Keys - {path}
            && multiset(ix'.list) == multiset(ix.list) - multiset{path}
  {
    ListedThere(ix, key);
    hide IndexValid;
    LastTaken(ix.list, ix.routes[ix.peers[key]].listIdx);
    RoutesWithout(ix.routes, ix.peers[key], ix.list[|ix.list| - 1], ix.routes[ix.peers[key]].listIdx);
  }

  lemma ListedThere(ix: Index, key: Key)
    requires IndexValid(ix) && key in ix.peers
    ensures Listed(ix, key) && ix.list[ix.routes[ix.peers[key]].listIdx] == ix.peers[key]
  {
    assert Live(ix.peers[key], ix.peers);
  }

  lemma RoutesWithout(routes: map<Path, Route>, path: Path, last: Path, idx: int)
    ensures var left := routes - {path};
            (if last in left then left[last := left[last].(listIdx := idx)] else left).Keys == routes.Keys - {path}
  {
    var left := routes - {path};
    assert left.Keys == routes.Keys - {path};
    if last in left { assert left[last := left[last].(listIdx := idx)].Keys == left.Keys + {last} == left.Keys; }
  }

  lemma LastTaken(list: seq<Path>, idx: nat)
    requires idx < |list|
    ensures multiset(list[idx := list[|list| - 1]][..|list| - 1]) == multiset(list) - multiset{list[idx]}
  {
    var n := |list| - 1;
    assert list == list[..n] + [list[n]];
    if idx < n {
      assert list[..n] == list[..idx] + [list[idx]] + list[idx + 1..n];
      assert list[idx := list[n]][..n] == list[..idx] + [list[n]] + list[idx + 1..n];
    } else {
      assert list[idx := list[n]][..n] == list[..n];
    }
  }

  lemma RemovedIds(ix: Index, key: Key)
    requires IndexValid(ix) && key in ix.peers
    ensures IdsValid(Removed(ix, key))
  {
    var path, ix' := ix.peers[key], Removed(ix, key);
    assert Live(path, ix.peers) && Listed(ix, key);
    var id := ix.routes[path].outPathId;
    ReleasedIdAccounted(ix.maxId, ix.free, HeldIds(ix.routes), id);
    assert forall p :: p in ix'.routes <==> p in ix.routes && p != path;
    assert forall p :: p in ix'.routes ==> ix'.routes[p].outPathId == ix.routes[p].outPathId;
    forall i | i in HeldIds(ix.routes) && i != id ensures i in HeldIds(ix'.routes) {
      var p :| p in ix.routes && ix.routes[p].outPathId == i;
      assert p in ix'.routes;
    }
    assert HeldIds(ix'.routes) == HeldIds(ix.routes) - {id};
  }

  lemma RemovedLive(ix: Index, key: Key)
    requires OneKeyEach(ix.peers) && key in ix.peers
    requires forall p :: p in ix.infos <==> Live(p, ix.peers)
    ensures var (peers, infos) := (ix.peers - {key}, ix.infos - {ix.peers[key]});
            && OneKeyEach(peers) && |peers| == |ix.peers| - 1
            && forall p :: p in infos <==> Live(p, peers)
  {
    var (path, peers) := (ix.peers[key], ix.peers - {key});
    forall p ensures p in ix.infos && p != path <==> Live(p, peers) {
      if p in ix.infos && p != path {
        var k :| k in ix.peers && ix.peers[k] == p;
        assert peers[k] == p;
      }
      if Live(p, peers) {
        var k :| k in peers && peers[k] == p;
        assert ix.peers[k] == p;
      }
    }
    assert ix.peers.Keys == peers.Keys + {key};
  }

  lemma PlacedWithout(routes: map<Path, Route>, list: seq<Path>, infos: set<Path>, path: Path)
    requires Placed(routes, list, infos) && path in infos
    ensures list != []
    ensures var (idx, n) := (routes[path].listIdx, |list| - 1);
            var routes' := if list[n] in routes - {path}
                           then (routes - {path})[list[n] := routes[list[n]].(listIdx := idx)] else routes - {path};
            Placed(routes', list[idx := list[n]][..n], infos - {path})
  {
    var (idx, n) := (routes[path].listIdx, |list| - 1);
    var list' := list[idx := list[n]][..n];
    forall i | 0 <= i < n ensures list'[i] == list[if i == idx then n else i] && list'[i] != path {}
  }

  lemma RemovedList(ix: Index, key: Key)
    requires IndexValid(ix) && key in ix.peers
    ensures OneKeyEach(Removed(ix, key).peers) && ListValid(Removed(ix, key))
  {
    assert Live(ix.peers[key], ix.peers) && Listed(ix, key);
    RemovedLive(ix, key);
    PlacedWithout(ix.routes, ix.list, ix.infos, ix.peers[key]);
  }

  lemma EmptyIndexValid()
    ensures IndexValid(Index(map[], map[], [], {}, 1, []))
  {
  }

  /** What validity says of one key and of a path object that is not known. */
  lemma IndexFacts(ix: Index)
    requires IndexValid(ix)
    ensures OneKeyEach(ix.peers)
    ensures forall k :: k in ix.peers ==> Listed(ix, k)
    ensures forall p :: p !in ix.routes ==> !Live(p, ix.peers)
  {
    forall k | k in ix.peers ensures Listed(ix, k) {
      assert Live(ix.peers[k], ix.peers);
    }
  }

  lemma AddedValid(ix: Index, key: Key, path: Path)
    requires IndexValid(ix) && path !in ix.routes
    ensures IndexValid(Added(ix, key, path))
  {
    AddedIds(ix, key, path);
    AddedList(ix, key, path);
  }

  lemma RemovedValid(ix: Index, key: Key)
    requires IndexValid(ix) && key in ix.peers
    ensures IndexValid(Removed(ix, key))
  {
    RemovedIds(ix, key);
    RemovedList(ix, key);
  }

  // ---------- Ids that are never given back ----------

  lemma {:induction false} HeldCount(routes: map<Path, Route>)
    requires forall p, q :: p in routes && q in routes && p != q ==> routes[p].outPathId != routes[q].outPathId
    ensures |HeldIds(routes)| == |routes|
    decreases |routes|
  {
    if |routes| == 0 {
      assert HeldIds(routes) == {};
    } else {
      var p :| p in routes;
      var rest := routes - {p};
      assert routes == rest[p := routes[p]];
      assert forall q :: q in rest ==> rest[q] == routes[q];
      HeldCount(rest);
      HeldIdsAfterAdd(rest, p, routes[p]);
    }
  }

  ghost function Members(s: seq<nat>): set<nat> {
    set id | id in s
  }

  lemma {:induction false} MemberCount(s: seq<nat>)
    requires forall i, j :: 0 <= i < j < |s| ==> s[i] != s[j]
    ensures |Members(s)| == |s|
  {
    if s == [] {
      assert Members(s) == {};
    } else {
      var init, last := s[..|s| - 1], s[|s| - 1];
      MemberCount(init);
      assert s == init + [last];
      assert Members(s) == Members(init) + {last};
    }
  }

  ghost function UpTo(n: nat): set<nat> {
    if n == 0 then {} else UpTo(n - 1) + {n}
  }

  lemma {:induction false} UpToCount(n: nat)
    ensures |UpTo(n)| == n && forall id :: id in UpTo(n) <==> 1 <= id <= n
  {
    if n > 0 { UpToCount(n - 1); }
  }

  lemma PartsCount(n: nat, a: set<nat>, b: set<nat>)
    requires a !! b && forall id :: id in a || id in b <==> 1 <= id <= n
    ensures |a| + |b| == n
  {
    UpToCount(n);
    assert UpTo(n) == a + b;
  }

  /** Every route, of a live path or not, holds one of the ids that are not free. */
  lemma HeldByRoutes(ix: Index)
    requires IdsValid(ix)
    ensures ix.maxId - 1 == |ix.free| + |ix.routes|
  {
    var held := HeldIds(ix.routes);
    HeldCount(ix.routes);
    hide HeldIds;
    MemberCount(ix.free);
    assert forall id :: id in ix.free <==> id in Members(ix.free);
    hide Members;
    PartsCount(ix.maxId - 1, Members(ix.free), held);
  }

  /** A path that is replaced keeps its route, and with it its id. */
  lemma AddedLeaks(ix: Index, key: Key, path: Path)
    requires path !in ix.routes
    ensures var ix' := Added(ix, key, path);
            && ix'.peers == ix.peers[key := path] && ix'.routes.Keys == ix.routes.Keys + {path}
            && |ix'.routes| == |ix.routes| + 1
            && |ix'.peers| == |ix.peers| + (if key in ix.peers then 0 else 1)
  {
    var ix' := Added(ix, key, path);
    AddedSize(ix.peers, key, path);
    hide NextPathId, Listed;
    assert ix'.routes == ix.routes[path := ix'.routes[path]];
    assert ix'.routes.Keys == ix.routes.Keys + {path};
  }

  lemma RemovedLeaks(ix: Index, key: Key)
    requires Listed(ix, key)
    ensures var ix' := Removed(ix, key);
            && ix'.peers == ix.peers - {key} && ix'.routes.Keys == ix.routes.Keys - {ix.peers[key]}
            && |ix'.routes| == |ix.routes| - 1 && |ix'.peers| == |ix.peers| - 1
  {
    var path, ix' := ix.peers[key], Removed(ix, key);
    hide ReleasedPathId;
    RoutesWithout(ix.routes, path, ix.list[|ix.list| - 1], ix.routes[path].listIdx);
    assert ix.routes.Keys == ix'.routes.Keys + {path};
    assert ix.peers.Keys == ix'.peers.Keys + {key};
  }
}
