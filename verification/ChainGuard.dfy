/**
 When the filter chain is right, said of the candidates themselves: for one order of
 them, and for a set of candidates in whatever order they are met.
 */
module ChainGuards {
  import opened BestPaths
  import opened Filters
  import opened Ranking

  // ---------- The minima of the candidates ----------

  function MinimumKey(k: nat, s: seq<Path>): Path -> int
    requires k <= STAGES
  {
    p => if IsMinimum(k, p, s) then 0 else 1
  }

  /** The paths of `s` that are minimal on the first `k` keys, in their order. */
  function Minima(k: nat, s: seq<Path>): seq<Path>
    requires k <= STAGES
  {
    Select(s, MinimumKey(k, s), 0)
  }

  lemma MinimaMember(k: nat, s: seq<Path>)
    requires k <= STAGES
    ensures forall p :: p in Minima(k, s) <==> p in s && IsMinimum(k, p, s)
  {
    SelectMember(s, MinimumKey(k, s), 0);
  }

  /** Among minima on `k` keys, those of lowest key `k` are the minima on one key more. */
  lemma MinimumNext(k: nat, s: seq<Path>, p: Path, low: int)
    requires k < STAGES && p in s
    requires forall q :: q in s && IsMinimum(k, q, s) ==> low <= Key(k, q)
    requires exists q :: q in s && IsMinimum(k, q, s) && Key(k, q) == low
    ensures IsMinimum(k, p, s) && Key(k, p) == low <==> IsMinimum(k + 1, p, s)
  {
    if IsMinimum(k, p, s) && Key(k, p) == low {
      forall q | q in s ensures NotAfter(k + 1, p, q) {
        assert NotAfter(k, p, q);
        if Tied(k, p, q) {
          Trichotomy(k, p, q);
          forall r | r in s ensures NotAfter(k, q, r) { NotAfterTransitive(k, q, p, r); }
        }
      }
    }
    if IsMinimum(k + 1, p, s) {
      forall q | q in s ensures NotAfter(k, p, q) { assert NotAfter(k + 1, p, q); }
      var q :| q in s && IsMinimum(k, q, s) && Key(k, q) == low;
      assert NotAfter(k, q, p) && NotAfter(k + 1, p, q);
      Trichotomy(k, p, q);
    }
  }

  lemma MinimaNext(k: nat, s: seq<Path>)
    requires k < STAGES && s != [] && Minima(k, s) != []
    ensures Minima(k + 1, s) == Select(Minima(k, s), StageKey(k), Lowest(Minima(k, s), StageKey(k))) != []
  {
    var minima, key := Minima(k, s), StageKey(k);
    var low := Lowest(minima, key);
    MinimaMember(k, s);
    LowestIsLeast(minima, key);
    var best :| best in minima && key(best) == low;
    forall p | p in s
      ensures MinimumKey(k, s)(p) == 0 && key(p) == low <==> MinimumKey(k + 1, s)(p) == 0
    {
      MinimumNext(k, s, p, low);
    }
    SelectTwice(s, MinimumKey(k, s), 0, key, low, MinimumKey(k + 1, s), 0);
    SelectMember(minima, key, low);
  }

  lemma MinimumOfNone(s: seq<Path>)
    ensures forall p :: IsMinimum(0, p, s)
  {
  }

  lemma {:induction false} MinimaExist(k: nat, s: seq<Path>)
    requires k <= STAGES && s != []
    ensures Minima(k, s) != [] && (k == 0 ==> Minima(k, s) == s)
  {
    hide Select, IsMinimum, Lowest;
    if k == 0 {
      assert forall p :: IsMinimum(0, p, s) by { MinimumOfNone(s); }
      SelectAll(s, MinimumKey(0, s), 0);
    } else {
      MinimaExist(k - 1, s);
      MinimaNext(k - 1, s);
    }
  }

  // ---------- The guards of one order ----------

  /** Of several paths of the highest preference one has at most 4096 ASes. */
  predicate AsBounded(s: seq<Path>) {
    |Minima(1, s)| > 1 ==> exists p :: p in Minima(1, s) && p.asCount <= MAX_AS_COUNT
  }

  /** The same, unless all of them have equally many. */
  predicate AsAgrees(s: seq<Path>) {
    || (exists p :: p in Minima(1, s) && p.asCount <= MAX_AS_COUNT)
    || (forall p, q :: p in Minima(1, s) && q in Minima(1, s) ==> p.asCount == q.asCount)
  }

  /** The paths between which the peer address decides have peers of one family. */
  predicate FamilyAgrees(s: seq<Path>) {
    OneFamily(Minima(6, s))
  }

  lemma LowestOfOne(p: Path, key: Path -> int)
    ensures Lowest([p], key) == key(p) && Select([p], key, key(p)) == [p]
  {
    SelectAll([p], key, key(p));
  }

  lemma BoundedStageSelects(k: nat, s: seq<Path>)
    requires k in {0, 1, 4, 5} && s != []
    ensures Stage(k, s).0 == if |s| == 1 || Lowest(s, StageKey(k)) <= Bound(k)
                             then Select(s, StageKey(k), Lowest(s, StageKey(k))) else s
  {
    hide ScanLowest, Select, Lowest, Key, ScanOrigin, SwapOut, ScanAddress;
    if |s| == 1 {
      assert s == [s[0]];
      LowestOfOne(s[0], StageKey(k));
    } else {
      ScanSelects(s, StageKey(k), Bound(k));
    }
  }

  /** Preferences are never negative, so the first stage always finds the highest. */
  lemma PreferenceBounded(s: seq<Path>)
    requires s != []
    ensures Lowest(s, StageKey(0)) <= Bound(0)
  {
    hide Lowest;
    LowestIsLeast(s, StageKey(0));
    assert s[0] in s && Key(0, s[0]) <= 0;
  }

  lemma KeptOfPreference(s: seq<Path>)
    requires s != []
    ensures Kept(1, s) == Minima(1, s) != []
  {
    hide Minima, Stage, Lowest, Select, Key;
    MinimaExist(0, s);
    MinimaNext(0, s);
    PreferenceBounded(s);
    BoundedStageSelects(0, s);
    KeptNext(0, s);
  }

  lemma KeptOfAsCount(s: seq<Path>)
    requires s != []
    ensures var t := Minima(1, s);
            t != [] && Kept(2, s) == if |t| == 1 || Lowest(t, StageKey(1)) <= MAX_AS_COUNT then Minima(2, s) else t
    ensures AsBounded(s) <==> |Minima(1, s)| == 1 || Lowest(Minima(1, s), StageKey(1)) <= MAX_AS_COUNT
    ensures Minima(2, s) != []
  {
    hide Minima, Stage, Lowest, Select;
    KeptOfPreference(s);
    MinimaNext(1, s);
    LowestIsLeast(Minima(1, s), StageKey(1));
    BoundedStageSelects(1, Minima(1, s));
    KeptNext(1, s);
  }

  /** The guards of the chain, read off the candidates in the order in which they are met. */
  lemma CleanExact(s: seq<Path>)
    requires s != []
    ensures Clean(STAGES, s) <==> AsBounded(s) && OriginLed(Minima(2, s)) && FamilyAgrees(s)
  {
    EarlyGuards(s);
    CleanSix(s);
    if Clean(6, s) { LateGuard(s); }
    hide Kept, StageSound, AsBounded, FamilyAgrees, OriginLed, Minima;
    assert Clean(STAGES, s) <==> Clean(6, s) && StageSound(6, Kept(6, s));
  }

  lemma EarlyGuards(s: seq<Path>)
    requires s != []
    ensures StageSound(1, Kept(1, s)) <==> AsBounded(s)
    ensures AsBounded(s) ==> (StageSound(2, Kept(2, s)) <==> OriginLed(Minima(2, s)))
  {
    KeptOfPreference(s);
    KeptOfAsCount(s);
    hide Kept, Minima, AsBounded, Lowest;
  }

  lemma LateGuard(s: seq<Path>)
    requires s != [] && Clean(6, s)
    ensures StageSound(6, Kept(6, s)) <==> FamilyAgrees(s)
  {
    hide Kept, Pruned, Ranked, Minima, IsMinimum, Clean;
    ChainRanks(6, s);
    RankedMinima(6, s, Kept(6, s), Pruned(6, s));
    MinimaMember(6, s);
    MinimaExist(6, s);
    OneFamilySame(Kept(6, s), Minima(6, s));
  }

  lemma CleanSix(s: seq<Path>)
    requires s != []
    ensures Clean(6, s) <==> StageSound(1, Kept(1, s)) && StageSound(2, Kept(2, s))
  {
    hide Kept;
    assert forall k, t :: k in {0, 3, 4, 5} && t != [] ==> StageSound(k, t);
  }

  lemma OneFamilySame(s: seq<Path>, t: seq<Path>)
    requires s != [] && t != [] && forall p :: p in s <==> p in t
    ensures OneFamily(s) <==> OneFamily(t)
  {
    assert s[0] in t && t[0] in s;
  }

  lemma RankedMinima(k: nat, s: seq<Path>, kept: seq<Path>, pruned: seq<Path>)
    requires k <= STAGES && Ranked(k, s, kept, pruned)
    ensures forall p :: p in kept <==> p in s && IsMinimum(k, p, s)
  {
    forall p | p in kept ensures p in s { assert p in multiset(kept) && p in multiset(s); }
    forall p | p in s && IsMinimum(k, p, s) ensures p in kept {
      assert p in multiset(s);
      if p !in kept {
        assert p in multiset(pruned) && kept[0] in kept;
        assert Before(k, kept[0], p) && NotAfter(k, p, kept[0]);
        Trichotomy(k, p, kept[0]);
      }
    }
  }

  /**
   The chain yields exactly the minima of its order, losing and duplicating nothing, if
   and only if one of several most preferred paths has at most 4096 ASes and, of the
   paths then tied, the one met first has the lowest origin.
   */
  lemma ChainExact(s: seq<Path>)
    requires s != [] && FamilyAgrees(s)
    ensures Ranked(STAGES, s, Kept(STAGES, s), Pruned(STAGES, s)) <==> AsBounded(s) && OriginLed(Minima(2, s))
  {
    CleanExact(s);
    if Clean(STAGES, s) {
      ChainRanks(STAGES, s);
    } else {
      assert exists j :: 0 <= j < STAGES && j != 6 && !StageSound(j, Kept(j, s)) by {
        KeptOfPreference(s);
        KeptOfAsCount(s);
      }
      var kept, pruned := Kept(STAGES, s), Pruned(STAGES, s);
      ChainCounts(STAGES, s);
      assert |multiset(kept) + multiset(pruned)| == |kept| + |pruned|;
      assert |multiset(s)| == |s|;
    }
  }

  /** Of two paths with more than 4096 ASes both are kept, and both are reported as pruned. */
  lemma LongPathsStay(p: Path, q: Path)
    requires p.asCount > 4096 && q.asCount > 4096
    ensures Stage(1, [p, q]) == ([p, q], [p, q])
  {
    var s, key := [p, q], StageKey(1);
    hide ScanLowest, Lowest, Select;
    LowestIsLeast(s, key);
    ScanSelects(s, key, MAX_AS_COUNT);
  }

  // ---------- When the right paths are left ----------

  /** The paths that reach stage `k` are the minima on the first `k` keys, however often each. */
  ghost predicate Precise(k: nat, s: seq<Path>)
    requires k <= STAGES && s != []
  {
    forall p :: p in Kept(k, s) <==> p in s && IsMinimum(k, p, s)
  }

  lemma NarrowedPrecise(k: nat, s: seq<Path>)
    requires k < STAGES && s != [] && Precise(k, s)
    ensures Narrows(StageKey(k), Kept(k, s), Kept(k + 1, s)) <==> Precise(k + 1, s)
  {
    var kept, key := Kept(k, s), StageKey(k);
    var low := Lowest(kept, key);
    LowestIsLeast(kept, key);
    var best :| best in kept && key(best) == low;
    forall p | p in s ensures IsMinimum(k, p, s) && Key(k, p) == low <==> IsMinimum(k + 1, p, s) {
      MinimumNext(k, s, p, low);
    }
    hide Kept, IsMinimum;
    forall p | p in kept ensures key(p) == low <==> forall q :: q in kept ==> key(p) <= key(q) {}
  }

  lemma AsCountNarrows(t: seq<Path>)
    requires t != []
    ensures Narrows(StageKey(1), t, Stage(1, t).0) <==>
            || (exists p :: p in t && p.asCount <= MAX_AS_COUNT)
            || (forall p, q :: p in t && q in t ==> p.asCount == q.asCount)
  {
    var key := StageKey(1);
    hide Stage, Select, Lowest, Narrows;
    LowestIsLeast(t, key);
    BoundedStageSelects(1, t);
    SelectNarrows(t, key);
    if |t| == 1 {
      OneAsCount(t);
    } else if Lowest(t, key) <= MAX_AS_COUNT {
      var p :| p in t && key(p) == Lowest(t, key);
    } else {
      UncutNarrows(t);
    }
  }

  lemma SelectNarrows(t: seq<Path>, key: Path -> int)
    requires t != []
    ensures Narrows(key, t, Select(t, key, Lowest(t, key)))
  {
    hide Select, Lowest;
    LowestIsLeast(t, key);
    SelectMember(t, key, Lowest(t, key));
  }

  lemma OneAsCount(t: seq<Path>)
    requires |t| == 1
    ensures forall p, q :: p in t && q in t ==> p.asCount == q.asCount
  {
  }

  lemma UncutNarrows(t: seq<Path>)
    requires t != []
    ensures Narrows(StageKey(1), t, t) <==> forall p, q :: p in t && q in t ==> p.asCount == q.asCount
  {
    assert forall p :: Key(1, p) == p.asCount;
  }

  lemma StageNarrows(k: nat, t: seq<Path>)
    requires k < STAGES && k != 1 && t != []
    ensures k == 2 ==> (Narrows(StageKey(k), t, Stage(k, t).0) <==> OriginSoon(t))
    ensures k != 2 && (k == 6 ==> OneFamily(t)) ==> Narrows(StageKey(k), t, Stage(k, t).0)
  {
    if |t| == 1 {
      assert forall p :: p in t ==> p == t[0];
    } else if k == 2 {
      hide ScanOrigin, Narrows;
      OriginNarrowsExact(t);
    } else if k == 6 ==> OneFamily(t) {
      hide Stage, Narrows, Sieved;
      StageSieves(k, t);
      SieveNarrows(StageKey(k), t, Stage(k, t).0, Stage(k, t).1);
    }
  }

  lemma AgreedAsCount(s: seq<Path>)
    requires s != []
    ensures Precise(2, s) <==> AsAgrees(s)
    ensures AsAgrees(s) ==> Kept(2, s) == Minima(2, s)
  {
    var t := Minima(1, s);
    KeptOfPreference(s);
    MinimaMember(1, s);
    AsCountNarrows(t);
    KeptNext(1, s);
    hide Minima, IsMinimum, Stage, Narrows;
    NarrowedPrecise(1, s);
    if AsAgrees(s) {
      KeptOfAsCount(s);
      LowestIsLeast(t, StageKey(1));
      if |t| > 1 && Lowest(t, StageKey(1)) > MAX_AS_COUNT {
        MinimaNext(1, s);
        SelectAll(t, StageKey(1), Lowest(t, StageKey(1)));
      }
    }
  }

  /** The guards under which every stage is left with the right paths. */
  predicate Fair(s: seq<Path>) {
    AsAgrees(s) && OriginSoon(Minima(2, s)) && FamilyAgrees(s)
  }

  lemma PreciseOrigin(s: seq<Path>)
    requires s != [] && AsAgrees(s)
    ensures Precise(3, s) <==> OriginSoon(Minima(2, s))
  {
    hide Kept, Minima, Precise, Stage, AsAgrees, OriginSoon, Narrows;
    AgreedAsCount(s);
    KeptNext(2, s);
    StageNarrows(2, Kept(2, s));
    NarrowedPrecise(2, s);
  }

  lemma PreciseLater(k: nat, s: seq<Path>)
    requires 3 <= k < STAGES && s != [] && Precise(k, s) && (k == 6 ==> FamilyAgrees(s))
    ensures Precise(k + 1, s)
  {
    if k == 6 {
      MinimaMember(6, s);
      MinimaExist(6, s);
      OneFamilySame(Kept(6, s), Minima(6, s));
    }
    hide Kept, Minima, Precise, Stage, Narrows;
    KeptNext(k, s);
    StageNarrows(k, Kept(k, s));
    NarrowedPrecise(k, s);
  }

  lemma PreciseStart(s: seq<Path>)
    requires s != []
    ensures Precise(0, s) && Precise(1, s)
  {
    MinimumOfNone(s);
    KeptOfPreference(s);
    MinimaMember(1, s);
  }

  lemma {:induction false} FairPrecise(k: nat, s: seq<Path>)
    requires k <= STAGES && s != []
    requires AsAgrees(s) && (k > 2 ==> OriginSoon(Minima(2, s))) && (k == STAGES ==> FamilyAgrees(s))
    ensures Precise(k, s)
  {
    hide AsAgrees, OriginSoon, Minima, FamilyAgrees, Precise;
    if k <= 1 {
      PreciseStart(s);
    } else if k == 2 {
      AgreedAsCount(s);
    } else if k == 3 {
      PreciseOrigin(s);
    } else {
      FairPrecise(k - 1, s);
      PreciseLater(k - 1, s);
    }
  }

  /**
   Every stage is left with exactly the minima of its keys if and only if the most
   preferred paths have an AS count within the bound or all the same one and, of the
   paths then tied, the first or the second has the lowest origin.
   */
  lemma PreciseExact(s: seq<Path>)
    requires s != [] && FamilyAgrees(s)
    ensures (forall k :: 0 <= k <= STAGES ==> Precise(k, s)) <==> AsAgrees(s) && OriginSoon(Minima(2, s))
  {
    hide Precise, AsAgrees, OriginSoon, Minima, FamilyAgrees;
    if AsAgrees(s) && OriginSoon(Minima(2, s)) {
      forall k | 0 <= k <= STAGES ensures Precise(k, s) { FairPrecise(k, s); }
    }
    AgreedAsCount(s);
    if AsAgrees(s) { PreciseOrigin(s); }
    assert (forall k :: 0 <= k <= STAGES ==> Precise(k, s)) ==> Precise(2, s) && Precise(3, s);
  }

  // ---------- The first path ----------

  lemma {:induction false} AddressScanFirst(s: seq<Path>)
    requires s != [] && forall p :: p in s ==> AddressValue(s[0].address) <= AddressValue(p.address)
    ensures ScanAddress(s).0[0] == s[0]
  {
    hide AddressValue;
    if |s| == 1 {
      assert s[..0] == [];
    } else {
      AddressScanFirst(s[..|s| - 1]);
      assert s[|s| - 1] in s;
    }
  }

  lemma StageFirst(k: nat, t: seq<Path>)
    requires k < STAGES && t != [] && forall p :: p in t ==> Key(k, t[0]) <= Key(k, p)
    ensures Stage(k, t).0 != [] && Stage(k, t).0[0] == t[0]
  {
    if |t| == 1 {
    } else if k == 2 {
      StageSieves(2, t);
      assert OriginLed(t);
      OriginScanLed(t, |t|);
      assert t[..|t|] == t;
      ScanSelects(t, StageKey(2), ORIGIN_MAX);
      LowestFirst(2, t);
      SelectFirst(t, StageKey(2), t[0].origin);
    } else if k == 3 {
      if AnyExternal(t) {
        var p :| p in t && p.ebgp;
        SwapOutFirst(t, StageKey(3), 0, []);
      }
    } else if k == 6 {
      AddressScanFirst(t);
    } else {
      BoundedStageSelects(k, t);
      LowestFirst(k, t);
      SelectFirst(t, StageKey(k), Lowest(t, StageKey(k)));
    }
  }

  lemma LowestFirst(k: nat, t: seq<Path>)
    requires k < STAGES && t != [] && forall p :: p in t ==> Key(k, t[0]) <= Key(k, p)
    ensures Lowest(t, StageKey(k)) == Key(k, t[0])
  {
    LowestIsLeast(t, StageKey(k));
    assert t[0] in t;
  }

  /** A first path that is minimal reaches every stage first. */
  lemma {:induction false} FirstStays(k: nat, s: seq<Path>)
    requires k <= STAGES && s != [] && AsAgrees(s) && IsMinimum(STAGES, s[0], s)
    ensures Kept(k, s)[0] == s[0]
  {
    if k > 0 {
      FirstStays(k - 1, s);
      MinimumPrefix(3, STAGES, s, s[0]);
      MinimumPrefix(k, STAGES, s, s[0]);
      FirstIsFair(s);
      hide Kept, Stage, AsAgrees, Minima, IsMinimum, Key;
      FairPrecise(k - 1, s);
      KeptNext(k - 1, s);
      var kept := Kept(k - 1, s);
      forall q | q in kept ensures Key(k - 1, s[0]) <= Key(k - 1, q) { MinimumLeads(k - 1, s, s[0], q); }
      StageFirst(k - 1, kept);
    }
  }

  /** A minimum is a minimum on fewer keys. */
  lemma MinimumPrefix(k: nat, n: nat, s: seq<Path>, p: Path)
    requires k <= n <= STAGES && IsMinimum(n, p, s)
    ensures IsMinimum(k, p, s)
  {
    forall r | r in s ensures NotAfter(k, p, r) { NotAfterPrefix(k, n, p, r); }
  }

  /** Among minima on `k` keys, one that is minimal on one key more has the lowest key `k`. */
  lemma MinimumLeads(k: nat, s: seq<Path>, p: Path, q: Path)
    requires k < STAGES && p in s && q in s && IsMinimum(k + 1, p, s) && IsMinimum(k, q, s)
    ensures Key(k, p) <= Key(k, q)
  {
    assert NotAfter(k + 1, p, q) && NotAfter(k, q, p);
    Trichotomy(k, p, q);
  }

  lemma {:induction false} NotAfterPrefix(j: nat, n: nat, p: Path, q: Path)
    requires j <= n <= STAGES && NotAfter(n, p, q)
    ensures NotAfter(j, p, q)
    decreases n - j
  {
    if j < n { NotAfterPrefix(j + 1, n, p, q); }
  }

  lemma FirstIsFair(s: seq<Path>)
    requires s != [] && IsMinimum(3, s[0], s)
    ensures OriginLed(Minima(2, s)) && OriginSoon(Minima(2, s))
  {
    MinimumPrefix(2, 3, s, s[0]);
    SelectFirst(s, MinimumKey(2, s), 0);
    MinimaMember(2, s);
    hide Minima, IsMinimum;
    assert Minima(2, s)[0] == s[0];
    forall q | q in Minima(2, s) ensures s[0].origin <= q.origin { MinimumLeads(2, s, s[0], q); }
  }
}
