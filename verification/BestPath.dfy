/**
 `calculateBestPath`: the seven filters in sequence, the point at which the
 equal-cost paths are taken, and the exact condition under which the chain
 computes the minima of its lexicographic order.
 */
module BestPaths {
  import opened Filters
  import opened Ranking

  // ---------- The chain as a function ----------

  /** What stage `k` keeps of `s` and what it reports as pruned; a single path skips it. */
  function Stage(k: nat, s: seq<Path>): (r: (seq<Path>, seq<Path>))
    requires k < STAGES && s != []
  {
    if |s| == 1 then (s, [])
    else if k == 2 then (ScanOrigin(s, |s|).slots[..ScanOrigin(s, |s|).idx], ScanOrigin(s, |s|).removed)
    else if k == 3 then (if AnyExternal(s) then SwapOut(s, StageKey(3), 0, []) else (s, []))
    else if k == 6 then ScanAddress(s)
    else
      var scan := ScanLowest(s, StageKey(k), Bound(k));
      (Cut(s, scan), scan.removed)
  }

  /** The value a running minimum starts from. */
  function Bound(k: nat): int {
    if k == 0 then 0 else if k == 1 then MAX_AS_COUNT else if k == 4 then MAX_U32 else MAX_U16
  }

  /** Stage `k` is given a slice on which it does what its name says. */
  predicate StageSound(k: nat, s: seq<Path>)
    requires k < STAGES && s != []
  {
    |s| > 1 ==>
      && (k == 1 ==> Lowest(s, StageKey(1)) <= MAX_AS_COUNT)
      && (k == 2 ==> OriginLed(s))
      && (k == 6 ==> OneFamily(s))
  }

  lemma BoundedStageSieves(k: nat, s: seq<Path>)
    requires k in {0, 1, 4, 5} && |s| > 1
    ensures Stage(k, s).0 != [] && |Stage(k, s).0| <= |s| <= |Stage(k, s).0| + |Stage(k, s).1|
    ensures StageSound(k, s) <==> |Stage(k, s).0| + |Stage(k, s).1| == |s|
    ensures StageSound(k, s) ==> Sieved(StageKey(k), s, Stage(k, s).0, Stage(k, s).1)
  {
    var key := StageKey(k);
    LowestIsLeast(s, key);
    var p :| p in s && key(p) == Lowest(s, key);
    var scan := ScanLowest(s, key, Bound(k));
    assert Stage(k, s) == (Cut(s, scan), scan.removed);
    ScanSelects(s, key, Bound(k));
    ScanConserves(s, key, Bound(k));
    assert |multiset(scan.kept) + multiset(scan.removed)| == |scan.kept| + |scan.removed|;
    assert |multiset(s)| == |s|;
    FilterExact(StageKey(k), s, Bound(k));
  }

  /**
   A sound stage sieves its slice.  The paths a stage accounts for are never too
   few, and exactly the unsound AS-count and origin stages account for too many.
   */
  lemma StageSieves(k: nat, s: seq<Path>)
    requires k < STAGES && s != []
    ensures Stage(k, s).0 != [] && |Stage(k, s).0| <= |s| <= |Stage(k, s).0| + |Stage(k, s).1|
    ensures k != 6 ==> (StageSound(k, s) <==> |Stage(k, s).0| + |Stage(k, s).1| == |s|)
    ensures StageSound(k, s) ==> Sieved(StageKey(k), s, Stage(k, s).0, Stage(k, s).1)
  {
    if |s| == 1 {
    } else if k == 2 {
      assert s[..|s|] == s;
      OriginScanLow(s, |s|);
      OriginScanCount(s, |s|);
      OriginFilterExact(s);
    } else if k == 3 {
      if AnyExternal(s) {
        var p :| p in s && p.ebgp;
        SwapOutSieves(s, StageKey(3), p);
        SieveCount(k, s, Stage(k, s).0, Stage(k, s).1);
      }
    } else if k == 6 {
      AddressScanCount(s);
      if OneFamily(s) { AddressFilterSieves(s); }
    } else {
      BoundedStageSieves(k, s);
    }
  }

  lemma SieveCount(k: nat, s: seq<Path>, kept: seq<Path>, removed: seq<Path>)
    requires k < STAGES && Sieved(StageKey(k), s, kept, removed)
    ensures |kept| + |removed| == |s|
  {
    assert |multiset(kept) + multiset(removed)| == |kept| + |removed|;
    assert |multiset(s)| == |s|;
  }

  lemma {:induction false} AddressScanCount(s: seq<Path>)
    ensures |ScanAddress(s).0| + |ScanAddress(s).1| == |s|
  {
    if s != [] { AddressScanCount(s[..|s| - 1]); }
  }

  /** The slice that reaches stage `k`. */
  function Kept(k: nat, s: seq<Path>): (r: seq<Path>)
    requires k <= STAGES && s != []
    ensures r != [] && |r| <= |s|
  {
    if k == 0 then s
    else
      StageSieves(k - 1, Kept(k - 1, s));
      Stage(k - 1, Kept(k - 1, s)).0
  }

  /** All paths pruned before stage `k`, in the order they were pruned. */
  function Pruned(k: nat, s: seq<Path>): seq<Path>
    requires k <= STAGES && s != []
  {
    if k == 0 then [] else Pruned(k - 1, s) + Stage(k - 1, Kept(k - 1, s)).1
  }

  // ---------- The lexicographic order is what the chain computes ----------

  predicate IsMinimum(k: nat, p: Path, s: seq<Path>)
    requires k <= STAGES
  {
    forall q :: q in s ==> NotAfter(k, p, q)
  }

  /** `kept` are exactly the minima of `s` on the first `k` keys and nothing is lost. */
  ghost predicate Ranked(k: nat, s: seq<Path>, kept: seq<Path>, pruned: seq<Path>)
    requires k <= STAGES
  {
    && kept != [] && s != []
    && multiset(kept) + multiset(pruned) == multiset(s)
    && (forall p :: p in kept ==> IsMinimum(k, p, s))
    && (forall p, q :: p in pruned && q in kept ==> Before(k, q, p))
    && (IsMinimum(k, s[0], s) ==> kept[0] == s[0])
  }

  lemma SieveKeepsMinima(k: nat, s: seq<Path>, kept: seq<Path>, pruned: seq<Path>, kept': seq<Path>, removed: seq<Path>)
    requires k < STAGES
    requires Ranked(k, s, kept, pruned) && Sieved(StageKey(k), kept, kept', removed)
    ensures forall p :: p in kept' ==> IsMinimum(k + 1, p, s)
  {
    forall p, q | p in kept' && q in s ensures NotAfter(k + 1, p, q) {
      assert p in multiset(kept') && p in multiset(kept);
      assert q in multiset(s);
      if q in multiset(kept) {
        assert q in kept && IsMinimum(k, q, s) && IsMinimum(k, p, s);
        assert p in multiset(s);
        Trichotomy(k, p, q);
      } else {
        assert q in multiset(pruned);
        assert Before(k, p, q);
      }
    }
  }

  lemma SieveDropsOthers(k: nat, s: seq<Path>, kept: seq<Path>, pruned: seq<Path>, kept': seq<Path>, removed: seq<Path>)
    requires k < STAGES
    requires Ranked(k, s, kept, pruned) && Sieved(StageKey(k), kept, kept', removed)
    ensures forall p, q :: p in pruned + removed && q in kept' ==> Before(k + 1, q, p)
  {
    forall p, q | p in pruned + removed && q in kept' ensures Before(k + 1, q, p) {
      assert q in multiset(kept') && q in multiset(kept);
      if p in pruned {
        assert Before(k, q, p);
      } else {
        assert p in multiset(removed) && p in multiset(kept);
        assert p in multiset(s) && q in multiset(s);
        assert p in kept && q in kept;
        assert NotAfter(k, p, q) && NotAfter(k, q, p);
        Trichotomy(k, p, q);
        assert Key(k, q) < Key(k, p);
      }
    }
  }

  lemma SieveRanks(k: nat, s: seq<Path>, kept: seq<Path>, pruned: seq<Path>, kept': seq<Path>, removed: seq<Path>)
    requires k < STAGES
    requires Ranked(k, s, kept, pruned) && Sieved(StageKey(k), kept, kept', removed)
    ensures Ranked(k + 1, s, kept', pruned + removed)
  {
    SieveKeepsMinima(k, s, kept, pruned, kept', removed);
    SieveDropsOthers(k, s, kept, pruned, kept', removed);
    assert multiset(kept') + multiset(pruned + removed) == multiset(s);
    if IsMinimum(k + 1, s[0], s) && kept'[0] != s[0] {
      forall q | q in s ensures NotAfter(k, s[0], q) { assert NotAfter(k + 1, s[0], q); }
      assert kept[0] == s[0] && s[0] in removed;
      assert s[0] in pruned + removed && kept'[0] in kept';
      assert kept'[0] in multiset(kept') && kept'[0] in multiset(kept) && kept'[0] in multiset(s);
      assert NotAfter(k + 1, s[0], kept'[0]) && Before(k + 1, kept'[0], s[0]);
      Trichotomy(k + 1, s[0], kept'[0]);
    }
  }

  /** The guards of the chain: every stage before `k` is given a slice it handles. */
  predicate Clean(k: nat, s: seq<Path>)
    requires k <= STAGES && s != []
  {
    forall j :: 0 <= j < k ==> StageSound(j, Kept(j, s))
  }

  lemma {:induction false} ChainRanks(k: nat, s: seq<Path>)
    requires k <= STAGES && s != [] && Clean(k, s)
    ensures Ranked(k, s, Kept(k, s), Pruned(k, s))
  {
    if k == 0 {
      assert s[0] in s;
    } else {
      ChainRanks(k - 1, s);
      StageSieves(k - 1, Kept(k - 1, s));
      SieveRanks(k - 1, s, Kept(k - 1, s), Pruned(k - 1, s), Kept(k, s), Stage(k - 1, Kept(k - 1, s)).1);
    }
  }

  lemma {:induction false} ChainCounts(k: nat, s: seq<Path>)
    requires k <= STAGES && s != []
    ensures |Kept(k, s)| + |Pruned(k, s)| >= |s|
    ensures forall j :: 0 <= j < k && j != 6 && !StageSound(j, Kept(j, s)) ==> |Kept(k, s)| + |Pruned(k, s)| > |s|
  {
    if k > 0 {
      ChainCounts(k - 1, s);
      StageSieves(k - 1, Kept(k - 1, s));
    }
  }

  lemma KeptWithin(k: nat, s: seq<Path>)
    requires k <= STAGES && s != []
    ensures forall p :: p in Kept(k, s) ==> p in s
  {
    KeptNested(0, k, s);
  }

  /** The preference filter needs no guard: whatever is left has the highest preference of all. */
  lemma KeptPreferred(k: nat, s: seq<Path>)
    requires 0 < k <= STAGES && s != []
    ensures forall p, q :: p in Kept(k, s) && q in s ==> p.pref >= q.pref
  {
    StageSieves(0, s);
    assert Kept(0, s) == s && Kept(1, s) == Stage(0, s).0;
    KeptNested(1, k, s);
    hide Kept, Stage;
    if |s| > 1 {
      forall p, q | p in Stage(0, s).0 && q in s ensures p.pref >= q.pref {
        assert StageKey(0)(p) <= StageKey(0)(q);
      }
    } else {
      KeptWithin(k, s);
    }
  }

  /** A single path passes every stage. */
  lemma {:induction false} KeptOne(k: nat, s: seq<Path>)
    requires k <= STAGES && |s| == 1
    ensures Kept(k, s) == s && Pruned(k, s) == []
  {
    if k > 0 { KeptOne(k - 1, s); }
  }

  /** A stage only narrows what the stages before it left. */
  lemma {:induction false} KeptNested(j: nat, k: nat, s: seq<Path>)
    requires j <= k <= STAGES && s != []
    ensures forall p :: p in Kept(k, s) ==> p in Kept(j, s)
  {
    if j < k {
      KeptNested(j, k - 1, s);
      StageWithin(k - 1, Kept(k - 1, s));
    }
  }

  lemma StageWithin(k: nat, s: seq<Path>)
    requires k < STAGES && s != []
    ensures forall p :: p in Stage(k, s).0 ==> p in s
  {
    if |s| == 1 {
    } else if k == 2 {
      OriginScanLow(s, |s|);
    } else if k == 3 && AnyExternal(s) {
      var external :| external in s && external.ebgp;
      SwapOutSieves(s, StageKey(3), external);
      forall p | p in Stage(k, s).0 ensures p in s {
        assert p in multiset(Stage(k, s).0) && p in multiset(s);
      }
    } else if k in {0, 1, 4, 5} {
      ScanSelects(s, StageKey(k), Bound(k));
      SelectMember(s, StageKey(k), Lowest(s, StageKey(k)));
    }
  }

  // ---------- Equal-cost groups ----------

  function HopKey(): Path -> int {
    (p: Path) => p.nextHop
  }

  ghost predicate InGroups(p: Path, groups: seq<seq<Path>>) {
    exists i :: 0 <= i < |groups| && p in groups[i]
  }

  /** Non-empty groups, one next hop within a group and different ones between groups. */
  ghost predicate ByNextHop(groups: seq<seq<Path>>) {
    && (forall i :: 0 <= i < |groups| ==> groups[i] != [])
    && (forall i, p :: 0 <= i < |groups| && p in groups[i] ==> p.nextHop == groups[i][0].nextHop)
    && (forall i, j :: 0 <= i < j < |groups| ==> groups[i][0].nextHop != groups[j][0].nextHop)
  }

  /** `groups` partition the members of `base` by next hop. */
  ghost predicate Grouped(groups: seq<seq<Path>>, base: seq<Path>) {
    ByNextHop(groups) && forall p :: InGroups(p, groups) <==> p in base
  }

  /** Groups the paths by next hop, each group in path order, the groups in any order. */
  method GetECMPPaths(paths: seq<Path>) returns (groups: seq<seq<Path>>)
    ensures Grouped(groups, paths)
    ensures forall i :: 0 <= i < |groups| ==> groups[i] == Select(paths, HopKey(), groups[i][0].nextHop)
  {
    var byHop: map<nat, seq<Path>> := map[];
    for i := 0 to |paths|
      invariant forall h :: h in byHop ==> byHop[h] == Select(paths[..i], HopKey(), h)
      invariant forall h: nat :: h in byHop <==> Select(paths[..i], HopKey(), h) != []
    {
      var hop := paths[i].nextHop;
      assert paths[..i + 1][..i] == paths[..i];
      byHop := byHop[hop := if hop in byHop then byHop[hop] + [paths[i]] else [paths[i]]];
    }
    assert paths[..|paths|] == paths;
    forall h: nat ensures forall p :: p in Select(paths, HopKey(), h) <==> p in paths && p.nextHop == h {
      SelectMember(paths, HopKey(), h);
    }
    groups := CollectGroups(byHop);
    forall p | p in paths ensures InGroups(p, groups) {
      assert p in byHop[p.nextHop];
    }
  }

  method CollectGroups(byHop: map<nat, seq<Path>>) returns (groups: seq<seq<Path>>)
    requires forall h :: h in byHop ==> byHop[h] != [] && forall p :: p in byHop[h] ==> p.nextHop == h
    ensures ByNextHop(groups)
    ensures forall i :: 0 <= i < |groups| ==> groups[i][0].nextHop in byHop && groups[i] == byHop[groups[i][0].nextHop]
    ensures forall h :: h in byHop ==> byHop[h] in groups
  {
    groups := [];
    var todo := byHop.Keys;
    while todo != {}
      invariant todo <= byHop.Keys
      invariant ByNextHop(groups)
      invariant forall i :: 0 <= i < |groups| ==>
                  var h := groups[i][0].nextHop; h in byHop && h !in todo && groups[i] == byHop[h]
      invariant forall h :: h in byHop && h !in todo ==> byHop[h] in groups
      decreases todo
    {
      var hop :| hop in todo;
      assert byHop[hop][0] in byHop[hop];
      groups := groups + [byHop[hop]];
      todo := todo - {hop};
    }
  }

  function MoveFront<T>(s: seq<T>, i: nat): seq<T>
    requires i < |s|
  {
    [s[i]] + s[..i] + s[i + 1..]
  }

  /** Moves the best path to the front of its group and that group to the front. */
  method RemoveAndPrepend(groups: seq<seq<Path>>, item: Path) returns (r: seq<seq<Path>>)
    ensures InGroups(item, groups) ==>
              exists i, j :: 0 <= i < |groups| && 0 <= j < |groups[i]| && groups[i][j] == item
                && r == MoveFront(groups[i := MoveFront(groups[i], j)], i)
    ensures groups == [] ==> r == [[item]]
    ensures groups != [] && !InGroups(item, groups) ==> r == [[item]] + groups[..|groups| - 1] + [[item]]
  {
    for i := 0 to |groups|
      invariant forall k :: 0 <= k < i ==> item !in groups[k]
    {
      for j := 0 to |groups[i]|
        invariant item !in groups[i][..j]
      {
        if groups[i][j] == item {
          r := MoveFront(groups[i := MoveFront(groups[i], j)], i);
          return;
        }
      }
      assert groups[i] == groups[i][..|groups[i]|];
    }
    r := groups + [[item]];
    var idx := if groups == [] then 0 else |groups| - 1;
    r := [[item]] + groups[..idx] + r[idx + 1..];
  }

  lemma MoveFrontMembers<T>(s: seq<T>, i: nat)
    requires i < |s|
    ensures |MoveFront(s, i)| == |s| && multiset(MoveFront(s, i)) == multiset(s)
    ensures forall x :: x in MoveFront(s, i) <==> x in s
  {
    assert s == s[..i] + [s[i]] + s[i + 1..];
  }

  /** The group list stays a grouping of the same paths when the best path is in it. */
  lemma PrependKeepsGroups(groups: seq<seq<Path>>, i: nat, j: nat)
    requires ByNextHop(groups) && i < |groups| && j < |groups[i]|
    ensures var r := MoveFront(groups[i := MoveFront(groups[i], j)], i);
            && ByNextHop(r) && r[0][0] == groups[i][j]
            && forall p :: InGroups(p, r) <==> InGroups(p, groups)
  {
    var inner := MoveFront(groups[i], j);
    MoveFrontMembers(groups[i], j);
    var mid := groups[i := inner];
    var r := MoveFront(mid, i);
    assert groups[i][j] in groups[i];
    forall p ensures InGroups(p, r) <==> InGroups(p, groups) {
      if InGroups(p, groups) {
        var k :| 0 <= k < |groups| && p in groups[k];
        assert p in r[if k == i then 0 else if k < i then k + 1 else k];
      }
      if InGroups(p, r) {
        var k :| 0 <= k < |r| && p in r[k];
        assert p in groups[if k == 0 then i else if k <= i then k - 1 else k];
      }
    }
  }

  /** Groups of `best` and of the members of `base`, by next hop, with `best` in front. */
  ghost predicate Led(groups: seq<seq<Path>>, best: Path, base: seq<Path>) {
    && groups != [] && ByNextHop(groups) && groups[0][0] == best
    && forall p :: InGroups(p, groups) <==> p == best || p in base
  }

  /** The groups of `base` with the best path, which is one of them if there are any, in front. */
  method LeadWith(groups: seq<seq<Path>>, best: Path, ghost base: seq<Path>) returns (r: seq<seq<Path>>)
    requires Grouped(groups, base) && (base != [] ==> best in base)
    ensures Led(r, best, base)
  {
    if groups != [] {
      assert groups[0][0] in groups[0];
      assert InGroups(groups[0][0], groups);
    }
    r := RemoveAndPrepend(groups, best);
    if InGroups(best, groups) {
      var i, j :| 0 <= i < |groups| && 0 <= j < |groups[i]| && groups[i][j] == best
                && r == MoveFront(groups[i := MoveFront(groups[i], j)], i);
      PrependKeepsGroups(groups, i, j);
    } else {
      assert groups == [] && r == [[best]];
    }
  }

  /** The slice whose next hops become equal-cost paths; empty when there is only the best path. */
  function MultiBase(s: seq<Path>, ebgpMulti: bool, ibgpMulti: bool): seq<Path>
    requires s != []
  {
    if ebgpMulti && ibgpMulti && |Kept(3, s)| > 1 then Kept(3, s)
    else if ebgpMulti != ibgpMulti && |Kept(4, s)| > 1 && Kept(4, s)[0].ebgp == ebgpMulti then Kept(4, s)
    else []
  }

  /** The winner has the next hop of one of the equal-cost groups, if there are any. */
  lemma WinnerInMultiBase(s: seq<Path>, ebgpMulti: bool, ibgpMulti: bool)
    requires s != [] && MultiBase(s, ebgpMulti, ibgpMulti) != []
    ensures Kept(STAGES, s)[0] in MultiBase(s, ebgpMulti, ibgpMulti)
  {
    KeptNested(3, STAGES, s);
    KeptNested(4, STAGES, s);
    assert Kept(STAGES, s)[0] in Kept(STAGES, s);
  }

  lemma MultiBaseWithin(s: seq<Path>, ebgpMulti: bool, ibgpMulti: bool)
    requires s != []
    ensures forall p :: p in MultiBase(s, ebgpMulti, ibgpMulti) ==> p in s
  {
    KeptWithin(3, s);
    KeptWithin(4, s);
  }

  /** What is grouped, in the fields of the paths: the highest preference, and one kind unless both may share. */
  lemma MultiBaseFields(s: seq<Path>, ebgpMulti: bool, ibgpMulti: bool)
    requires s != []
    ensures var base := MultiBase(s, ebgpMulti, ibgpMulti);
            && (!ebgpMulti && !ibgpMulti ==> base == [])
            && (ebgpMulti != ibgpMulti ==> forall p :: p in base ==> p.ebgp == ebgpMulti)
            && (forall p, q :: p in base && q in s ==> p.pref >= q.pref)
  {
    KeptPreferred(3, s);
    KeptPreferred(4, s);
    assert Kept(4, s) == Stage(3, Kept(3, s)).0;
    StageSieves(3, Kept(3, s));
    var t, kept := Kept(3, s), Kept(4, s);
    hide Kept, Stage;
    if |t| > 1 && |kept| > 1 {
      forall p, q | p in kept && q in kept ensures p.ebgp == q.ebgp {
        assert q in multiset(kept) && p in multiset(kept);
        assert q in multiset(t) && p in multiset(t);
        assert StageKey(3)(p) <= StageKey(3)(q) && StageKey(3)(q) <= StageKey(3)(p);
      }
    }
  }

  function Flatten(lists: seq<seq<Path>>): seq<Path> {
    if lists == [] then [] else Flatten(lists[..|lists| - 1]) + lists[|lists| - 1]
  }

  method ApplyFilter(k: nat, a: array<Path>, n: nat) returns (m: nat, removed: seq<Path>)
    requires k < STAGES && 0 < n <= a.Length
    modifies a
    ensures 0 < m <= n
    ensures (a[..m], removed) == Stage(k, old(a[..n]))
  {
    StageSieves(k, a[..n]);
    if n == 1 {
      m, removed := n, [];
    } else if k == 2 {
      m, removed := GetRoutesWithLowestOrigin(a, n);
    } else if k == 3 {
      m, removed := RemoveIBGPRoutesIfEBGPExist(a, n);
    } else if k == 6 {
      m, removed := GetRoutesWithLowestPeerAddress(a, n);
    } else {
      m, removed := KeepLowest(a, n, StageKey(k), Bound(k));
    }
  }

  lemma FlattenSnoc(lists: seq<seq<Path>>, last: seq<Path>)
    ensures Flatten(lists + [last]) == Flatten(lists) + last
  {
    assert (lists + [last])[..|lists|] == lists;
  }

  lemma KeptNext(k: nat, s: seq<Path>)
    requires k < STAGES && s != []
    ensures Kept(k + 1, s) == Stage(k, Kept(k, s)).0
    ensures Pruned(k + 1, s) == Pruned(k, s) + Stage(k, Kept(k, s)).1
  {
  }

  /** Runs stage `k` on what the stages before it left of `s`. */
  method RunStage(k: nat, a: array<Path>, n: nat, pruned: seq<seq<Path>>, ghost s: seq<Path>, ghost first: seq<Path>)
    returns (m: nat, pruned': seq<seq<Path>>)
    requires k < STAGES && 0 < n <= a.Length && s != []
    requires a[..n] == Kept(k, s) && Flatten(pruned) == first + Pruned(k, s)
    modifies a
    ensures 0 < m <= n
    ensures a[..m] == Kept(k + 1, s) && Flatten(pruned') == first + Pruned(k + 1, s)
  {
    hide Stage, Kept, Pruned, Flatten;
    var removed;
    KeptNext(k, s);
    m, removed := ApplyFilter(k, a, n);
    FlattenSnoc(pruned, removed);
    pruned' := if removed == [] then pruned else pruned + [removed];
    assert first + Pruned(k, s) + removed == first + (Pruned(k, s) + removed);
  }

  /** With multipath for one kind of session only, groups what is left if it is of that kind. */
  method GroupOneKind(paths: seq<Path>, groups: seq<seq<Path>>, ghost base: seq<Path>, ebgpMulti: bool, ibgpMulti: bool)
    returns (groups': seq<seq<Path>>)
    requires paths != [] && Grouped(groups, base)
    ensures var one := |paths| > 1 && ebgpMulti != ibgpMulti && paths[0].ebgp == ebgpMulti;
            Grouped(groups', if one then paths else base)
  {
    groups' := groups;
    if |paths| > 1 && ebgpMulti != ibgpMulti {
      if ebgpMulti && paths[0].ebgp {
        groups' := GetECMPPaths(paths);
      } else if ibgpMulti && !paths[0].ebgp {
        groups' := GetECMPPaths(paths);
      }
    }
  }

  /** The last three stages. */
  method BreakTies(a: array<Path>, n: nat, pruned: seq<seq<Path>>, ghost s: seq<Path>, ghost first: seq<Path>)
    returns (m: nat, pruned': seq<seq<Path>>)
    requires 0 < n <= a.Length && s != [] && a[..n] == Kept(4, s) && Flatten(pruned) == first + Pruned(4, s)
    modifies a
    ensures 0 < m <= n && a[..m] == Kept(STAGES, s) && Flatten(pruned') == first + Pruned(STAGES, s)
  {
    hide Kept, Pruned, Flatten;
    m, pruned' := RunStage(4, a, n, pruned, s, first);
    m, pruned' := RunStage(5, a, m, pruned', s, first);
    m, pruned' := RunStage(6, a, m, pruned', s, first);
  }

  method CalculateBestPath(a: array<Path>, n: nat, removedPaths: seq<Path>, ebgpMulti: bool, ibgpMulti: bool)
    returns (m: nat, ecmpPaths: seq<seq<Path>>, pruned: seq<seq<Path>>)
    requires 0 < n <= a.Length
    modifies a
    ensures 0 < m <= n
    ensures a[..m] == Kept(STAGES, old(a[..n]))
    ensures forall p, q :: p in a[..m] && q in old(a[..n]) ==> p.pref >= q.pref
    ensures Flatten(pruned) == removedPaths + Pruned(STAGES, old(a[..n]))
    ensures Grouped(ecmpPaths, MultiBase(old(a[..n]), ebgpMulti, ibgpMulti))
  {
    ghost var s := a[..n];
    m, ecmpPaths, pruned := n, [], [removedPaths];
    assert Kept(0, s) == s && Pruned(0, s) == [];
    assert Flatten(pruned) == Flatten([]) + removedPaths;
    assert Grouped([], []);
    hide Kept, Pruned, Flatten, Grouped;
    m, pruned := RunStage(0, a, m, pruned, s, removedPaths);
    m, pruned := RunStage(1, a, m, pruned, s, removedPaths);
    m, pruned := RunStage(2, a, m, pruned, s, removedPaths);
    if m > 1 && ebgpMulti && ibgpMulti {
      ecmpPaths := GetECMPPaths(a[..m]);
    }
    ghost var base := if ebgpMulti && ibgpMulti && m > 1 then a[..m] else [];
    m, pruned := RunStage(3, a, m, pruned, s, removedPaths);
    ecmpPaths := GroupOneKind(a[..m], ecmpPaths, base, ebgpMulti, ibgpMulti);
    base := if m > 1 && ebgpMulti != ibgpMulti && a[0].ebgp == ebgpMulti then a[..m] else base;
    assert base == MultiBase(s, ebgpMulti, ibgpMulti);
    hide MultiBase;
    m, pruned := BreakTies(a, m, pruned, s, removedPaths);
    KeptPreferred(STAGES, s);
  }
}
