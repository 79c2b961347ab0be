/**
 The list of destinations behind the paged route query of one protocol family: a
 sequence of slots that is compacted between scans and only grows during one.
 */
module RouteLists {
  import opened Wrappers

  /** The identity of a destination object. */
  type Dest = nat

  // ---------- What a page shows ----------

  /** The destinations with paths in the slots from `lo` up to `hi`, in slot order. */
  function Shown(slots: seq<Option<Dest>>, populated: set<Dest>, lo: nat, hi: nat): seq<Dest>
    requires lo <= hi <= |slots|
  {
    if lo == hi then []
    else
      Shown(slots, populated, lo, hi - 1)
        + (if slots[hi - 1].Some? && slots[hi - 1].value in populated then [slots[hi - 1].value] else [])
  }

  /** Every destination is in one slot and knows which; a slot is empty or names its destination. */
  ghost predicate Linked(slots: seq<Option<Dest>>, at: map<Dest, int>) {
    && (forall d :: d in at ==> 0 <= at[d] < |slots| && slots[at[d]] == Some(d))
    && (forall i :: 0 <= i < |slots| && slots[i].Some? ==> slots[i].value in at && at[slots[i].value] == i)
  }

  ghost predicate NoHoles(slots: seq<Option<Dest>>) {
    forall i :: 0 <= i < |slots| ==> slots[i].Some?
  }

  lemma {:induction false} ShownMembers(
    slots: seq<Option<Dest>>, populated: set<Dest>, at: map<Dest, int>, lo: nat, hi: nat)
    requires lo <= hi <= |slots| && Linked(slots, at)
    ensures forall d :: d in Shown(slots, populated, lo, hi) <==> d in at && lo <= at[d] < hi && d in populated
    ensures Distinct(Shown(slots, populated, lo, hi))
  {
    if lo < hi {
      ShownMembers(slots, populated, at, lo, hi - 1);
      var init, last := Shown(slots, populated, lo, hi - 1), slots[hi - 1];
      if last.Some? && last.value in populated {
        assert last.value !in init;
        assert forall d :: d in init + [last.value] <==> d in init || d == last.value;
      }
    }
  }

  // ---------- Events between the pages of a scan ----------

  datatype Event =
    | Create                              // a prefix is announced for the first time
    | Remove(dest: Dest)                  // a destination lost its last path
    | SetPaths(dest: Dest, some: bool)    // the list of paths shown for a destination changes
    | Page(count: nat)                    // the client asks for the next page

  function CreatedBy(events: seq<Event>): nat {
    if events == [] then 0
    else CreatedBy(events[..|events| - 1]) + if events[|events| - 1].Create? then 1 else 0
  }

  /** The destinations listed after some events, from the events alone; new ones are numbered from `next`. */
  function ListedAfter(listed: set<Dest>, next: Dest, events: seq<Event>): set<Dest> {
    if events == [] then listed
    else
      var init := events[..|events| - 1];
      var before := ListedAfter(listed, next, init);
      match events[|events| - 1]
      case Create => before + {next + CreatedBy(init)}
      case Remove(dest) => before - {dest}
      case _ => before
  }

  /** Those that are shown with paths. */
  function ShownAfter(populated: set<Dest>, events: seq<Event>): set<Dest> {
    if events == [] then populated
    else
      var before := ShownAfter(populated, events[..|events| - 1]);
      match events[|events| - 1]
      case SetPaths(dest, some) => if some then before + {dest} else before - {dest}
      case _ => before
  }

  lemma EventNext(listed: set<Dest>, next: Dest, populated: set<Dest>, events: seq<Event>, n: nat)
    requires n < |events|
    ensures CreatedBy(events[..n + 1]) == CreatedBy(events[..n]) + if events[n].Create? then 1 else 0
    ensures ListedAfter(listed, next, events[..n + 1]) ==
            match events[n]
            case Create => ListedAfter(listed, next, events[..n]) + {next + CreatedBy(events[..n])}
            case Remove(dest) => ListedAfter(listed, next, events[..n]) - {dest}
            case _ => ListedAfter(listed, next, events[..n])
    ensures ShownAfter(populated, events[..n + 1]) ==
            match events[n]
            case SetPaths(dest, some) =>
              if some then ShownAfter(populated, events[..n]) + {dest} else ShownAfter(populated, events[..n]) - {dest}
            case _ => ShownAfter(populated, events[..n])
  {
    assert events[..n + 1][..n] == events[..n];
  }

  /** `d` was listed with paths when one of the first `n` events asked for a page. */
  ghost predicate SeenOnPage(d: Dest, listed: set<Dest>, next: Dest, populated: set<Dest>, events: seq<Event>, n: nat)
    requires n <= |events|
  {
    exists j :: 0 <= j < n && events[j].Page?
      && d in ListedAfter(listed, next, events[..j]) && d in ShownAfter(populated, events[..j])
  }

  lemma NoEvents(listed: set<Dest>, next: Dest, populated: set<Dest>)
    ensures CreatedBy([]) == 0 && ListedAfter(listed, next, []) == listed && ShownAfter(populated, []) == populated
  {
  }

  lemma SeenNext(listed: set<Dest>, next: Dest, populated: set<Dest>, events: seq<Event>, n: nat)
    requires n < |events|
    ensures forall d :: SeenOnPage(d, listed, next, populated, events, n) ==>
              SeenOnPage(d, listed, next, populated, events, n + 1)
    ensures events[n].Page? ==>
              forall d :: d in ListedAfter(listed, next, events[..n]) && d in ShownAfter(populated, events[..n]) ==>
                SeenOnPage(d, listed, next, populated, events, n + 1)
  {
    hide ListedAfter, ShownAfter;
  }

  predicate Disturbs(e: Event, d: Dest) {
    e == Remove(d) || e == SetPaths(d, false)
  }

  /** Listed and shown with paths from the start of a scan on through its first `n` events. */
  ghost predicate Steady(d: Dest, at: map<Dest, int>, populated: set<Dest>, events: seq<Event>, n: nat)
    requires n <= |events|
  {
    d in at && d in populated && forall j :: 0 <= j < n ==> !Disturbs(events[j], d)
  }

  ghost predicate Distinct(s: seq<Dest>) {
    forall i, j :: 0 <= i < j < |s| ==> s[i] != s[j]
  }

  /** What was returned lies before the cursor, unless it has left the list for good. */
  ghost predicate Passed(returned: seq<Dest>, at: map<Dest, int>, cursor: nat, nextDest: Dest) {
    forall d :: d in returned ==> d < nextDest && (d in at ==> at[d] < cursor)
  }

  lemma NothingReturned(slots: seq<Option<Dest>>, at: map<Dest, int>, nextDest: Dest)
    requires Linked(slots, at)
    ensures Distinct([]) && Passed([], at, 0, nextDest)
    ensures forall d :: d in at ==> at[d] >= 0
  {
  }

  lemma PageAppended(
    slots: seq<Option<Dest>>, at: map<Dest, int>, returned: seq<Dest>, page: seq<Dest>, populated: set<Dest>,
    cursor: nat, lo: nat, hi: nat, nextDest: Dest)
    requires Linked(slots, at) && lo == (if cursor < |slots| then cursor else |slots|) <= hi <= |slots|
    requires Distinct(returned) && Passed(returned, at, cursor, nextDest) && Distinct(page)
    requires forall d :: d in page <==> d in at && lo <= at[d] < hi && d in populated
    requires forall d :: d in at ==> d < nextDest
    ensures Distinct(returned + page) && Passed(returned + page, at, if cursor < hi then hi else cursor, nextDest)
    ensures forall d :: d in at && d in populated && at[d] < hi && (at[d] < cursor ==> d in returned) ==>
              d in returned + page
  {
    forall i, j | 0 <= i < |returned| && 0 <= j < |page| ensures returned[i] != page[j] {
      assert returned[i] in returned && page[j] in page;
    }
  }

  /** The last destination may take the place of a hole. */
  lemma HoleFilled(slots: seq<Option<Dest>>, at: map<Dest, int>, hole: nat, last: nat)
    requires Linked(slots, at) && hole < last < |slots| && slots[hole].None? && slots[last].Some?
    ensures slots[last].value in at
    ensures Linked(slots[hole := slots[last]][last := None], at[slots[last].value := hole])
  {
  }

  /** Without holes the last destination may take any slot that becomes free. */
  lemma LastMoved(slots: seq<Option<Dest>>, at: map<Dest, int>, dest: Dest)
    requires Linked(slots, at) && NoHoles(slots) && dest in at
    ensures 0 <= at[dest] < |slots| && slots[|slots| - 1].Some?
    ensures var n, idx, last := |slots| - 1, at[dest], slots[|slots| - 1].value;
            var at' := if last == dest then at - {dest} else (at - {dest})[last := idx];
            && Linked(slots[idx := slots[n]][..n], at') && NoHoles(slots[idx := slots[n]][..n])
            && at'.Keys == at.Keys - {dest}
  {
    var n, idx, last := |slots| - 1, at[dest], slots[|slots| - 1].value;
    assert at[last] == n;
    assert (at - {dest}).Keys == at.Keys - {dest};
    assert last != dest ==> at.Keys - {dest} + {last} == at.Keys - {dest};
  }

  /** During a scan the slot becomes a hole. */
  lemma HoleMade(slots: seq<Option<Dest>>, at: map<Dest, int>, dest: Dest)
    requires Linked(slots, at) && dest in at
    ensures 0 <= at[dest] < |slots|
    ensures Linked(slots[at[dest] := None], at - {dest}) && (at - {dest}).Keys == at.Keys - {dest}
  {
  }

  lemma TailCut(slots: seq<Option<Dest>>, at: map<Dest, int>, n: nat)
    requires Linked(slots, at) && n <= |slots|
    requires forall i :: n <= i < |slots| ==> slots[i].None?
    ensures Linked(slots[..n], at)
  {
    assert forall d :: d in at ==> at[d] < n;
  }

  class RouteList {
    var routeList: seq<Option<Dest>>
    var routeListIdx: map<Dest, int>
    var routeListDirty: bool
    var activeGet: bool
    var started: bool   // a destination was added before, so that the timer of the family exists
    var populated: set<Dest>
    var nextDest: Dest

    ghost predicate Valid()
      reads this
    {
      && Linked(routeList, routeListIdx)
      && (!started ==> routeList == [])
      && (!activeGet ==> !routeListDirty)
      && (!routeListDirty ==> NoHoles(routeList))
      && (forall d :: d in routeListIdx ==> d < nextDest)
    }

    constructor ()
      ensures Valid() && routeListIdx == map[] && !activeGet && !started
    {
      routeList, routeListIdx, routeListDirty, activeGet, started := [], map[], false, false, false;
      populated, nextDest := {}, 0;
    }

    /** A new destination goes to the end of the list. */
    method AddRoutesToRouteList() returns (dest: Dest)
      requires Valid()
      modifies this`routeList, this`routeListIdx, this`nextDest, this`started
      ensures Valid() && started && dest == old(nextDest) && nextDest == dest + 1
      ensures routeListIdx == old(routeListIdx)[dest := |old(routeList)|]
      ensures routeList == old(routeList) + [Some(dest)]
    {
      started := true;
      dest := nextDest;
      nextDest := nextDest + 1;
      routeList := routeList + [Some(dest)];
      routeListIdx := routeListIdx[dest := |routeList| - 1];
    }

    /**
     Outside a scan the last destination moves into the freed slot; during a scan the
     slot becomes a hole and nobody moves.
     */
    method RemoveRoutesFromRouteList(dest: Dest)
      requires Valid()
      modifies this`routeList, this`routeListIdx, this`routeListDirty
      ensures Valid()
      ensures routeListIdx.Keys == old(routeListIdx).Keys - {dest}
      ensures activeGet ==> |routeList| == |old(routeList)| && routeListIdx == old(routeListIdx) - {dest}
      ensures !activeGet && dest in old(routeListIdx) ==>
                var n := |old(routeList)| - 1;
                routeList == old(routeList)[old(routeListIdx)[dest] := old(routeList)[n]][..n]
      ensures dest !in old(routeListIdx) ==> routeList == old(routeList)
    {
      if dest !in routeListIdx { return; }
      if activeGet {
        HoleMade(routeList, routeListIdx, dest);
      } else {
        LastMoved(routeList, routeListIdx, dest);
      }
      hide Linked, NoHoles;
      var idx := routeListIdx[dest];
      routeListIdx := routeListIdx - {dest};
      if !activeGet {
        var n := |routeList| - 1;
        var last := routeList[n];
        routeList := routeList[idx := last][..n];
        if last.value != dest {
          routeListIdx := routeListIdx[last.value := idx];
        }
      } else {
        routeList := routeList[idx := None];
        routeListDirty := true;
      }
    }

    /** Ends a scan: destinations from the end of the list fill the holes, and the list is cut. */
    method ResetRouteList()
      requires Valid()
      modifies this`routeList, this`routeListIdx, this`routeListDirty, this`activeGet
      ensures Valid() && !activeGet
      ensures NoHoles(routeList) && routeListIdx.Keys == old(routeListIdx).Keys
      ensures !old(routeListDirty) ==> routeList == old(routeList) && routeListIdx == old(routeListIdx)
    {
      activeGet := false;
      if !routeListDirty { return; }
      hide Linked;
      var lastIdx := |routeList| - 1;
      var idx := 0;
      while idx < |routeList|
        invariant !activeGet && 0 <= idx <= |routeList| == |old(routeList)| && -1 <= lastIdx < |routeList|
        invariant Linked(routeList, routeListIdx) && routeListIdx.Keys == old(routeListIdx).Keys
        invariant forall i :: 0 <= i < idx ==> routeList[i].Some?
        invariant forall i :: lastIdx < i < |routeList| ==> routeList[i].None?
      {
        if routeList[idx].None? {
          var modIdx := lastIdx;
          while modIdx > idx && routeList[modIdx].None?
            invariant modIdx <= lastIdx
            invariant forall i :: idx <= i < |routeList| && modIdx < i ==> routeList[i].None?
          {
            modIdx := modIdx - 1;
          }
          if modIdx <= idx {
            lastIdx := idx;
            break;
          }
          HoleFilled(routeList, routeListIdx, idx, modIdx);
          routeListIdx := routeListIdx[routeList[modIdx].value := idx];
          routeList := routeList[idx := routeList[modIdx]][modIdx := None];
          lastIdx := modIdx;
        }
        idx := idx + 1;
      }
      TailCut(routeList, routeListIdx, idx);
      routeList := routeList[..idx];
      routeListDirty := false;
    }

    /**
     One page: the destinations with paths in the slots from `index` up to a slot `hi`
     that is either where `count` of them were found or the end of the list, reported
     as 0. Before the first destination there is no list: the page is empty and no scan
     starts.
     */
    method BulkGetBGPRoutes(index: nat, count: nat)
      returns (next: nat, result: seq<Dest>, ghost lo: nat, ghost hi: nat)
      requires Valid()
      modifies this`routeList, this`routeListIdx, this`routeListDirty, this`activeGet
      ensures Valid() && activeGet == (started || old(activeGet)) && routeListIdx.Keys == old(routeListIdx).Keys
      ensures old(activeGet) && index > 0 ==> routeList == old(routeList) && routeListIdx == old(routeListIdx)
      ensures lo == (if index < |routeList| then index else |routeList|) <= hi <= |routeList|
      ensures result == Shown(routeList, populated, lo, hi) && |result| <= count
      ensures next == if hi < |routeList| then hi else 0
      ensures hi < |routeList| ==> |result| == count
    {
      if !started { return 0, [], 0, 0; }
      if index == 0 && activeGet {
        ResetRouteList();
      }
      hide Linked, NoHoles;
      activeGet := true;
      result := [];
      var i := index;
      lo := if index < |routeList| then index else |routeList|;
      hi := lo;
      while i < |routeList| && |result| < count
        invariant index <= i && lo <= hi <= |routeList|
        invariant hi == if i < |routeList| then i else |routeList|
        invariant result == Shown(routeList, populated, lo, hi) && |result| <= count
      {
        if routeList[i].Some? && routeList[i].value in populated {
          result := result + [routeList[i].value];
        }
        i := i + 1;
        hi := i;
      }
      next := if i >= |routeList| then 0 else i;
    }

    /** One page of a scan whose cursor is at `cursor`. */
    method NextPage(cursor: nat, count: nat, returned: seq<Dest>) returns (next: nat, returned': seq<Dest>)
      requires Valid() && count > 0 && (cursor > 0 ==> activeGet)
      requires Distinct(returned) && Passed(returned, routeListIdx, cursor, nextDest)
      requires cursor == 0 ==> returned == []
      modifies this`routeList, this`routeListIdx, this`routeListDirty, this`activeGet
      ensures Valid() && routeListIdx.Keys == old(routeListIdx).Keys
      ensures Distinct(returned')
      ensures next > 0 ==> activeGet && Passed(returned', routeListIdx, next, nextDest)
      ensures forall d :: (d in routeListIdx && d in populated && (old(routeListIdx)[d] < cursor ==> d in returned)
                && (next == 0 || routeListIdx[d] < next)) ==> d in returned'
      ensures returned <= returned'
      ensures forall d :: d in returned' ==> d in returned || (d in routeListIdx.Keys && d in populated)
    {
      var page;
      ghost var lo, hi;
      next, page, lo, hi := BulkGetBGPRoutes(cursor, count);
      assert hi == 0 ==> |routeList| == 0;
      hide Shown;
      ShownMembers(routeList, populated, routeListIdx, lo, hi);
      returned' := returned + page;
      PageAppended(routeList, routeListIdx, returned, page, populated, cursor, lo, hi, nextDest);
      hide Linked, NoHoles, Distinct, Passed;
    }

    /** One event of a scan in progress; the first event is its first page. */
    method Handle(e: Event, cursor: nat, returned: seq<Dest>) returns (next: nat, returned': seq<Dest>, done: bool)
      requires Valid() && (e.Page? ==> e.count > 0)
      requires if cursor == 0 then e.Page? && returned == [] else activeGet
      requires Distinct(returned) && Passed(returned, routeListIdx, cursor, nextDest)
      modifies this
      ensures Valid() && Distinct(returned')
      ensures !done ==> next > 0 && activeGet && Passed(returned', routeListIdx, next, nextDest)
      ensures forall d :: d in old(routeListIdx) && d in old(populated) && !Disturbs(e, d) ==>
                d in routeListIdx && d in populated
      ensures forall d :: (d in old(routeListIdx) && d in old(populated) && !Disturbs(e, d)
                && (old(routeListIdx)[d] < cursor ==> d in returned)
                && (done || routeListIdx[d] < next)) ==> d in returned'
      ensures nextDest == old(nextDest) + (if e.Create? then 1 else 0)
      ensures routeListIdx.Keys == if e.Create? then old(routeListIdx).Keys + {old(nextDest)}
                                   else if e.Remove? then old(routeListIdx).Keys - {e.dest}
                                   else old(routeListIdx).Keys
      ensures populated == if !e.SetPaths? then old(populated)
                           else if e.some then old(populated) + {e.dest} else old(populated) - {e.dest}
      ensures returned <= returned' && (!e.Page? ==> returned' == returned)
      ensures forall d :: d in returned' ==> d in returned || (d in old(routeListIdx).Keys && d in old(populated))
    {
      hide Linked, NoHoles, Shown, Distinct;
      next, returned', done := cursor, returned, false;
      match e {
        case Create =>
          var _ := AddRoutesToRouteList();
        case Remove(dest) =>
          RemoveRoutesFromRouteList(dest);
        case SetPaths(dest, some) =>
          populated := if some then populated + {dest} else populated - {dest};
        case Page(count) =>
          next, returned' := NextPage(cursor, count, returned);
          done := next == 0;
      }
    }

    /**
     A scan from index 0 under concurrent change: every destination that stays listed
     with paths throughout is returned, and none is returned twice.
     */
    method Scan(events: seq<Event>) returns (returned: seq<Dest>, done: bool, n: nat)
      requires Valid() && events != [] && events[0].Page?
      requires forall j :: 0 <= j < |events| && events[j].Page? ==> events[j].count > 0
      modifies this
      ensures Valid() && n <= |events| && (done || n == |events|)
      ensures done ==> forall d :: Steady(d, old(routeListIdx), old(populated), events, n) ==> d in returned
      ensures Distinct(returned)
      ensures forall d :: d in returned ==>
                SeenOnPage(d, old(routeListIdx).Keys, old(nextDest), old(populated), events, n)
    {
      hide Linked, NoHoles, Shown, Distinct, Passed, CreatedBy, ListedAfter, ShownAfter, SeenOnPage;
      ghost var listed, first, shown := routeListIdx.Keys, nextDest, populated;
      assert events[..0] == [];
      NoEvents(listed, first, shown);
      var cursor := 0;
      returned, done, n := [], false, 0;
      NothingReturned(routeList, routeListIdx, nextDest);
      while !done && n < |events|
        invariant Valid() && n <= |events|
        invariant n == 0 ==> returned == [] && cursor == 0
        invariant n == 0 ==> routeListIdx == old(routeListIdx) && populated == old(populated)
        invariant !done && n > 0 ==> cursor > 0 && activeGet
        invariant Distinct(returned) && (!done ==> Passed(returned, routeListIdx, cursor, nextDest))
        invariant forall d :: Steady(d, old(routeListIdx), old(populated), events, n) ==>
                    d in routeListIdx && d in populated && (done || routeListIdx[d] < cursor ==> d in returned)
        invariant nextDest == first + CreatedBy(events[..n])
        invariant routeListIdx.Keys == ListedAfter(listed, first, events[..n])
        invariant populated == ShownAfter(shown, events[..n])
        invariant forall d :: d in returned ==> SeenOnPage(d, listed, first, shown, events, n)
        decreases if done then 0 else 1, |events| - n
      {
        EventNext(listed, first, shown, events, n);
        SeenNext(listed, first, shown, events, n);
        cursor, returned, done := Handle(events[n], cursor, returned);
        n := n + 1;
      }
    }
  }
}
