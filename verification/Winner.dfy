/**
 The path that the filter chain chooses: exactly when it is a minimum in every order in
 which the candidates can be met, and wrong choices that the code makes.
 */
module Winners {
  import opened AnyOrders
  import opened BestPaths
  import opened ChainGuards
  import opened Filters
  import opened Ranking

  /** `w` is before `b` but for its origin. */
  predicate Beats(w: Path, b: Path) {
    Before(STAGES, w.(origin := b.origin), b)
  }

  /** `w` is not after `b` but for its origin. */
  predicate Matches(w: Path, b: Path) {
    NotAfter(STAGES, w.(origin := b.origin), b)
  }

  /**
   A path of worse origin that can be chosen if it gets past the origin filter: it beats
   all paths of the best origin, or it matches them all and beats one that the stage
   after the origin filter does not part from it.
   */
  ghost predicate Spoils(w: Path, c: set<Path>) {
    && Worse(w, c)
    && (forall b :: MinimumOf(3, b, c) ==> Matches(w, b))
    && (|| (forall b :: MinimumOf(3, b, c) ==> Beats(w, b))
        || (exists b :: MinimumOf(3, b, c) && b.ebgp == w.ebgp && Beats(w, b)))
  }

  /** Peers of the paths tied for best on preference and AS count are of one family. */
  ghost predicate FinalistsAgree(c: set<Path>) {
    forall p, q :: MinimumOf(2, p, c) && MinimumOf(2, q, c) ==> |p.address| == |q.address|
  }

  lemma FinalistsFamilies(c: set<Path>)
    requires FinalistsAgree(c)
    ensures FamiliesAgree(c)
  {
    forall p, q | MinimumOf(6, p, c) && MinimumOf(6, q, c) ensures |p.address| == |q.address| {
      Shortened(2, 6, p, c);
      Shortened(2, 6, q, c);
    }
  }

  lemma Shortened(k: nat, n: nat, p: Path, c: set<Path>)
    requires k <= n <= STAGES && MinimumOf(n, p, c)
    ensures MinimumOf(k, p, c)
  {
    forall q | q in c ensures NotAfter(k, p, q) { NotAfterPrefix(k, n, p, q); }
  }

  lemma FinalistsFamily(s: seq<Path>, c: set<Path>)
    requires s != [] && Orders(s, c) && AsAgrees(s) && FinalistsAgree(c)
    ensures OneFamily(Kept(6, s))
  {
    KeptNested(2, 6, s);
    AgreedAsCount(s);
    MinimaOf(2, s, c);
    hide Kept, Minima, MinimumOf, AsAgrees;
    assert Kept(6, s)[0] in Kept(6, s);
  }

  // ---------- Survivors of the origin filter ----------

  /** The first key after the origin on which two paths differ. */
  lemma {:induction false} FirstDifference(k: nat, p: Path, q: Path) returns (j: nat)
    requires 3 <= k <= STAGES && Tied(3, p, q) && Before(k, p, q)
    ensures 3 <= j < k && Key(j, p) < Key(j, q) && forall i :: 3 <= i < j ==> Key(i, p) == Key(i, q)
  {
    Trichotomy(3, p, q);
    if Before(k - 1, p, q) {
      j := FirstDifference(k - 1, p, q);
    } else {
      j := k - 1;
      TiedKeys(j, p, q);
    }
  }

  lemma {:induction false} TiedKeys(k: nat, p: Path, q: Path)
    requires k <= STAGES && Tied(k, p, q)
    ensures forall i :: 0 <= i < k ==> Key(i, p) == Key(i, q)
  {
    if k > 0 { TiedKeys(k - 1, p, q); }
  }

  lemma {:induction false} KeysTied(k: nat, p: Path, q: Path)
    requires k <= STAGES && forall i :: 0 <= i < k ==> Key(i, p) == Key(i, q)
    ensures Tied(k, p, q)
  {
    if k > 0 { KeysTied(k - 1, p, q); }
  }

  /** As long as a survivor and the winner have equal keys, the survivor stays. */
  lemma {:induction false} SurvivorStays(k: nat, s: seq<Path>, w: Path, x: Path)
    requires 3 <= k <= STAGES && s != [] && OneFamily(Kept(6, s))
    requires w in Kept(3, s) && x in Kept(STAGES, s) && forall i :: 3 <= i < k ==> Key(i, w) == Key(i, x)
    ensures w in Kept(k, s) && (k < STAGES ==> Key(k, x) <= Key(k, w))
  {
    hide Kept, Stage, Key, OneFamily;
    KeptNested(k, STAGES, s);
    if k > 3 {
      SurvivorStays(k - 1, s, w, x);
      StageKeeps(k - 1, s, w, x);
    }
    if k < STAGES {
      KeptNested(k + 1, STAGES, s);
      StageKeeps(k, s, w, x);
    }
  }

  lemma StageKeeps(k: nat, s: seq<Path>, w: Path, x: Path)
    requires 3 <= k < STAGES && s != [] && (k == 6 ==> OneFamily(Kept(6, s)))
    requires w in Kept(k, s) && x in Kept(STAGES, s)
    ensures Key(k, x) <= Key(k, w) && (Key(k, x) == Key(k, w) ==> w in Kept(k + 1, s))
  {
    KeptNested(k + 1, STAGES, s);
    KeptNext(k, s);
    StageNarrows(k, Kept(k, s));
    hide Kept, Stage, Key;
  }

  lemma MinimumTwo(x: Path, c: set<Path>)
    requires MinimumOf(3, x, c)
    ensures MinimumOf(2, x, c)
  {
    Shortened(2, 3, x, c);
  }

  /** The winner is not behind any path that reached the fourth stage, apart from their origins. */
  lemma WinnerLeads(s: seq<Path>, c: set<Path>, w: Path, x: Path)
    requires s != [] && Orders(s, c) && OneFamily(Kept(6, s)) && MinimumOf(2, w, c) && MinimumOf(2, x, c)
    requires w in Kept(3, s) && Before(STAGES, w.(origin := x.origin), x)
    ensures x !in Kept(STAGES, s)
  {
    var w' := w.(origin := x.origin);
    assert NotAfter(2, x, w) && NotAfter(2, w, x);
    Trichotomy(2, w, x);
    TiedKeys(2, w, x);
    KeysTied(3, w', x);
    var j := FirstDifference(STAGES, w', x);
    if x in Kept(STAGES, s) {
      assert forall i :: 3 <= i < STAGES ==> Key(i, w) == Key(i, w');
      SurvivorStays(j, s, w, x);
    }
  }

  lemma BestOrigin(c: set<Path>) returns (b: Path)
    requires c != {}
    ensures MinimumOf(3, b, c)
  {
    var s := SomeOrder(c);
    MinimaExist(3, s);
    MinimaOf(3, s, c);
    b := Minima(3, s)[0];
    assert b in Minima(3, s);
  }

  lemma WorseOrigin(p: Path, b: Path, c: set<Path>)
    requires Worse(p, c) && MinimumOf(3, b, c)
    ensures b.origin < p.origin && MinimumOf(2, b, c) && b != p
  {
    var q := BetterThan(p, c);
    forall r | r in c ensures NotAfter(2, b, r) { assert NotAfter(3, b, r); }
    assert NotAfter(3, b, q) && NotAfter(2, q, b);
    Trichotomy(2, b, q);
  }

  lemma LowestOriginStays(t: seq<Path>, b: Path)
    requires b in t && forall q :: q in t ==> b.origin <= q.origin
    ensures b in Stage(2, t).0
  {
    hide ScanOrigin;
    if |t| > 1 {
      OriginScanHolds(t, |t|);
      OriginScanLow(t, |t|);
      assert ScanOrigin(t, |t|).slots[0] in t;
      assert t[..|t|] == t;
    }
  }

  lemma LowestOrigin(c: set<Path>, b: Path, q: Path)
    requires MinimumOf(3, b, c) && MinimumOf(2, q, c)
    ensures b.origin <= q.origin
  {
    assert NotAfter(3, b, q) && NotAfter(2, q, b);
    Trichotomy(2, b, q);
  }

  lemma BestOriginsReach(s: seq<Path>, c: set<Path>, b: Path)
    requires s != [] && Orders(s, c) && AsAgrees(s) && MinimumOf(3, b, c)
    ensures b in Kept(3, s) && MinimumOf(2, b, c)
  {
    var t := Minima(2, s);
    MinimumTwo(b, c);
    MinimaOf(2, s, c);
    AgreedAsCount(s);
    KeptNext(2, s);
    hide Kept, Minima, Stage, MinimumOf, AsAgrees;
    forall q | q in t ensures b.origin <= q.origin { LowestOrigin(c, b, q); }
    LowestOriginStays(t, b);
  }

  lemma Overtaken(s: seq<Path>, c: set<Path>, x: Path, y: Path)
    requires s != [] && Orders(s, c) && AsAgrees(s) && OneFamily(Kept(6, s)) && MinimumOf(3, x, c)
    requires y in c && !NotAfter(STAGES, x, y)
    ensures x !in Kept(STAGES, s)
  {
    Trichotomy(STAGES, x, y);
    BeforeMinimum(STAGES, x, y, c);
    BestOriginsReach(s, c, y);
    BestOriginsReach(s, c, x);
    assert NotAfter(3, x, y) && NotAfter(3, y, x);
    Trichotomy(3, x, y);
    assert y.(origin := x.origin) == y;
    WinnerLeads(s, c, y, x);
  }

  /** What is before a minimum on three keys is one itself. */
  lemma BeforeMinimum(k: nat, x: Path, y: Path, c: set<Path>)
    requires k == STAGES && MinimumOf(3, x, c) && y in c && Before(k, y, x)
    ensures MinimumOf(3, y, c)
  {
    NotAfterPrefix(3, STAGES, y, x);
    forall r | r in c ensures NotAfter(3, y, r) { NotAfterTransitive(3, y, x, r); }
  }

  lemma WinnerIsFinalist(s: seq<Path>, c: set<Path>)
    requires s != [] && Orders(s, c) && AsAgrees(s)
    ensures MinimumOf(2, Kept(STAGES, s)[0], c)
  {
    KeptNested(2, STAGES, s);
    AgreedAsCount(s);
    MinimaOf(2, s, c);
    assert Kept(STAGES, s)[0] in Kept(STAGES, s);
  }

  /** A winner of the best origin is a minimum. */
  lemma BestOriginWins(s: seq<Path>, c: set<Path>)
    requires s != [] && Orders(s, c) && AsAgrees(s) && FinalistsAgree(c) && !Worse(Kept(STAGES, s)[0], c)
    ensures MinimumOf(STAGES, Kept(STAGES, s)[0], c)
  {
    var x := Kept(STAGES, s)[0];
    WinnerIsFinalist(s, c);
    FinalistsFamily(s, c);
    assert x in Kept(STAGES, s);
    hide Kept, NotAfter, AsAgrees, FinalistsAgree;
    forall y | y in c ensures NotAfter(STAGES, x, y) {
      if !NotAfter(STAGES, x, y) { Overtaken(s, c, x, y); }
    }
  }

  /** Once origins are made equal, it does not matter to which. */
  lemma {:induction false} OriginSwap(k: nat, p: Path, q: Path)
    requires k <= STAGES
    ensures Tied(k, q, p.(origin := q.origin)) <==> Tied(k, q.(origin := p.origin), p)
    ensures Before(k, q, p.(origin := q.origin)) <==> Before(k, q.(origin := p.origin), p)
  {
    if k > 0 { OriginSwap(k - 1, p, q); }
  }

  /** A winner of worse origin is not after any path of the best origin, but for its origin. */
  lemma WinnerMatches(s: seq<Path>, c: set<Path>, x: Path, b: Path)
    requires s != [] && Orders(s, c) && AsAgrees(s) && FinalistsAgree(c)
    requires x in Kept(STAGES, s) && MinimumOf(2, x, c) && MinimumOf(3, b, c)
    ensures Matches(x, b)
  {
    BestOriginsReach(s, c, b);
    FinalistsFamily(s, c);
    hide Kept, MinimumOf, AsAgrees;
    if Before(STAGES, b.(origin := x.origin), x) { WinnerLeads(s, c, b, x); }
    OriginSwap(STAGES, x, b);
    Trichotomy(STAGES, x.(origin := b.origin), b);
  }

  lemma NotWorse(q: Path, b: Path, c: set<Path>)
    requires MinimumOf(2, q, c) && MinimumOf(3, b, c) && q.origin <= b.origin
    ensures MinimumOf(3, q, c)
  {
    if Worse(q, c) { WorseOrigin(q, b, c); }
  }

  // ---------- The first path after the stage of the session kinds ----------

  lemma LastExternal(u: seq<Path>, k: nat) returns (n: nat)
    requires k < |u| && u[k].ebgp
    ensures k <= n < |u| && u[n].ebgp && forall j :: n < j < |u| ==> !u[j].ebgp
  {
    n := |u| - 1;
    while !u[n].ebgp
      invariant k <= n < |u| && forall j :: n < j < |u| ==> !u[j].ebgp
      decreases n
    {
      n := n - 1;
    }
  }

  /** What leads the slice behind the origin filter, where it trails, and how the next stage treats it. */
  lemma KindFront(u: seq<Path>, x: Path, k: nat) returns (n: nat)
    requires u != [] && x in Stage(3, u).0 && k < |u| && u[k].ebgp == x.ebgp
    ensures n < |u| && Stage(3, u).0 != [] && Stage(3, u).0[0] == u[n] && u[n].ebgp == x.ebgp
    ensures n == 0 || (k <= n && u[0].ebgp != x.ebgp)
  {
    StageNarrows(3, u);
    hide Stage;
    assert u[0] in u && u[k] in u;
    if u[0].ebgp == x.ebgp {
      n := 0;
      forall p | p in u ensures Key(3, u[0]) <= Key(3, p) {}
      StageFirst(3, u);
    } else {
      assert Key(3, x) <= Key(3, u[0]);
      n := LastExternal(u, k);
      LastLeads(u, n);
    }
  }

  lemma LastLeads(u: seq<Path>, n: nat)
    requires n < |u| && !u[0].ebgp && u[n].ebgp && forall j :: n < j < |u| ==> !u[j].ebgp
    ensures Stage(3, u).0 != [] && Stage(3, u).0[0] == u[n]
  {
    assert u[n] in u;
    SwapOutLast(u, StageKey(3), n, []);
  }

  /** A best path is found in front or in the trail, where all have the best origin. */
  lemma TrailOf(t: seq<Path>, b: Path) returns (k: nat, m: nat)
    requires |t| > 1 && b in t && forall q :: q in t ==> b.origin <= q.origin
    ensures var u := Stage(2, t).0;
            && k < |u| && u[k] == b && (k == 0 || m <= k)
            && u[0] in t && u[0].origin == b.origin
            && forall j :: m <= j < |u| ==> u[j] in t && u[j].origin == b.origin
  {
    var scan := ScanOrigin(t, |t|);
    m := OriginScanTrails(t, |t|);
    OriginScanLow(t, |t|);
    assert t[..|t|] == t;
    assert Stage(2, t).0 == scan.slots[..scan.idx];
    hide ScanOrigin, Stage;
    k := TrailIndex(scan, t, m, b);
  }

  lemma TrailIndex(scan: OriginScan, t: seq<Path>, m: nat, b: Path) returns (k: nat)
    requires scan.idx <= |scan.slots| && Trails(scan, t, m) && b in t && forall q :: q in t ==> b.origin <= q.origin
    requires forall j :: 0 <= j < |scan.slots| ==> scan.slots[j] in t
    ensures k < scan.idx && scan.slots[k] == b && (k == 0 || m <= k) && scan.low == b.origin
  {
    assert scan.slots[0] in t;
    if b == scan.slots[0] {
      k := 0;
    } else {
      k :| m <= k < scan.idx && scan.slots[k] == b;
    }
  }

  lemma TrailLeads(t: seq<Path>, x: Path, b: Path)
    requires |t| > 1 && b in t && forall q :: q in t ==> b.origin <= q.origin
    requires Stage(2, t).0 != [] && x in Stage(3, Stage(2, t).0).0 && b.ebgp == x.ebgp
    ensures var front := Stage(3, Stage(2, t).0).0;
            front != [] && front[0] in t && front[0].origin == b.origin && front[0].ebgp == x.ebgp
  {
    var u := Stage(2, t).0;
    var k, m := TrailOf(t, b);
    hide Stage;
    var n := KindFront(u, x, k);
  }

  /** Where a best path has the winner's kind of session, such a path leads from there on. */
  lemma FourthFront(s: seq<Path>, c: set<Path>, x: Path, b: Path)
    requires s != [] && Orders(s, c) && AsAgrees(s)
    requires x in Kept(4, s) && Worse(x, c) && MinimumOf(3, b, c) && b.ebgp == x.ebgp
    ensures var first := Kept(4, s)[0]; MinimumOf(3, first, c) && first.ebgp == x.ebgp
  {
    hide Kept, Minima, MinimumOf, AsAgrees, Stage, Orders, Worse;
    var t := Minima(2, s);
    AgreedAsCount(s);
    KeptNext(2, s);
    KeptNext(3, s);
    MinimaOf(2, s, c);
    WorseOrigin(x, b, c);
    assert MinimumOf(2, x, c) by { WorseIsFinalist(x, c); }
    forall q | q in t ensures b.origin <= q.origin { LowestOrigin(c, b, q); }
    assert x in t && b in t;
    assert |t| > 1 by { TwoMembers(t, x, b); }
    TrailLeads(t, x, b);
    NotWorse(Kept(4, s)[0], b, c);
  }

  lemma WorseIsFinalist(w: Path, c: set<Path>)
    requires Worse(w, c)
    ensures MinimumOf(2, w, c) && w in c
  {
  }

  lemma TwoMembers(t: seq<Path>, x: Path, b: Path)
    requires x in t && b in t && x != b
    ensures |t| > 1
  {
  }

  /** A path that leads a stage and ties with the winner on all keys from there on is the winner. */
  lemma {:induction false} TiedLeaderWins(k: nat, s: seq<Path>, x: Path)
    requires 4 <= k <= STAGES && s != [] && OneFamily(Kept(6, s)) && x in Kept(STAGES, s)
    requires forall i :: 4 <= i < STAGES ==> Key(i, Kept(4, s)[0]) == Key(i, x)
    ensures Kept(k, s)[0] == Kept(4, s)[0]
  {
    hide Kept, Stage, Key, OneFamily;
    if k > 4 {
      TiedLeaderWins(k - 1, s, x);
      var kept := Kept(k - 1, s);
      KeptNested(k - 1, STAGES, s);
      forall q | q in kept ensures Key(k - 1, kept[0]) <= Key(k - 1, q) { StageKeeps(k - 1, s, q, x); }
      StageFirst(k - 1, kept);
      KeptNext(k - 1, s);
    }
  }

  lemma TiedAlike(p: Path, q: Path)
    requires Tied(STAGES, p.(origin := q.origin), q)
    ensures forall i :: 3 <= i < STAGES ==> Key(i, p) == Key(i, q)
  {
    TiedKeys(STAGES, p.(origin := q.origin), q);
    assert forall i :: 3 <= i < STAGES ==> Key(i, p) == Key(i, p.(origin := q.origin));
  }

  lemma AlikeNotBefore(p: Path, q: Path)
    requires Matches(p, q) && !Beats(p, q)
    ensures Tied(STAGES, p.(origin := q.origin), q) && p.ebgp == q.ebgp
  {
    TiedAlike(p, q);
    assert Key(3, p) == Key(3, q);
  }

  /** A winner of worse origin spoils the candidates. */
  lemma WorseWinnerSpoils(s: seq<Path>, c: set<Path>)
    requires s != [] && Orders(s, c) && AsAgrees(s) && FinalistsAgree(c) && Worse(Kept(STAGES, s)[0], c)
    ensures Spoils(Kept(STAGES, s)[0], c)
  {
    var x, first := Kept(STAGES, s)[0], Kept(4, s)[0];
    assert x in Kept(STAGES, s);
    KeptNested(4, STAGES, s);
    FinalistsFamily(s, c);
    hide Kept, AsAgrees, FinalistsAgree, MinimumOf, OneFamily, Beats, Matches;
    forall b | MinimumOf(3, b, c) ensures Matches(x, b) { WinnerMatches(s, c, x, b); }
    if b :| MinimumOf(3, b, c) && !Beats(x, b) {
      AlikeNotBefore(x, b);
      FourthFront(s, c, x, b);
      if !Beats(x, first) {
        AlikeNotBefore(x, first);
        TiedAlike(x, first);
        TiedLeaderWins(STAGES, s, x);
      }
    }
  }

  /** A winner of worse origin was not the first of the candidates. */
  lemma WorseWinnerIsNotFirst(s: seq<Path>, c: set<Path>)
    requires s != [] && Orders(s, c) && AsAgrees(s) && Worse(Kept(STAGES, s)[0], c)
    ensures Kept(STAGES, s)[0] != s[0]
  {
    var x, t := Kept(STAGES, s)[0], Minima(2, s);
    assert x in Kept(STAGES, s);
    KeptNested(3, STAGES, s);
    AgreedAsCount(s);
    KeptNext(2, s);
    MinimaOf(2, s, c);
    var b := BestOrigin(c);
    WorseOrigin(x, b, c);
    if x == s[0] { SelectFirst(s, MinimumKey(2, s), 0); }
    hide Kept, Minima, AsAgrees;
    assert x in t && b in t;
    if t[0] == x { StaleIsNotFirst(t, b); }
  }

  lemma StaleIsNotFirst(t: seq<Path>, b: Path)
    requires Apart(t) && b in t && b.origin < t[0].origin
    ensures t[0] !in Stage(2, t).0
  {
    OriginScanDropsFirst(t, |t|);
    OriginScanLow(t, |t|);
    assert |t| > 1;
    var scan := ScanOrigin(t, |t|);
    hide ScanOrigin;
    forall j | 0 <= j < scan.idx ensures scan.slots[j] != t[0] {
      if j == 0 {
        var i :| 0 <= i < |t| && t[i] == b;
        assert scan.slots[0].origin <= t[i].origin;
      }
    }
  }

  // ---------- An order that goes wrong ----------

  lemma AddressSelects(t: seq<Path>)
    requires t != [] && OneFamily(t)
    ensures Stage(6, t).0 == Select(t, StageKey(6), Lowest(t, StageKey(6)))
  {
    hide ScanAddress, ScanLowest, Select, Lowest, AddressValue;
    if |t| == 1 {
      LowestOfOne(t[0], StageKey(6));
      assert t == [t[0]];
    } else {
      AddressScanSelects(t);
      AddressScanKeeps(t);
      FirstBounds(t);
      ScanSelects(t, StageKey(6), AddressValue(t[0].address));
    }
  }

  lemma RouterIdBounded(k: nat, t: seq<Path>)
    requires k in {4, 5} && t != []
    ensures Lowest(t, StageKey(k)) <= Bound(k)
  {
    hide Lowest;
    LowestIsLeast(t, StageKey(k));
    var p :| p in t && StageKey(k)(p) == Lowest(t, StageKey(k));
  }

  lemma LateStageSelects(k: nat, t: seq<Path>)
    requires 4 <= k < STAGES && t != [] && (k == 6 ==> OneFamily(t))
    ensures Stage(k, t).0 == Select(t, StageKey(k), Lowest(t, StageKey(k)))
  {
    hide Stage, Lowest, Select, OneFamily;
    if k == 6 {
      AddressSelects(t);
    } else {
      RouterIdBounded(k, t);
      BoundedStageSelects(k, t);
    }
  }

  lemma SelectFront(t: seq<Path>, b: Path, w: Path, key: Path -> int, v: int)
    requires [b, w] <= t && key(w) == v
    ensures (if key(b) == v then [b, w] else [w]) <= Select(t, key, v)
  {
    var rest := t[2..];
    assert t == [b] + [w] + rest;
    SelectAppend([b] + [w], rest, key, v);
    SelectAppend([b], [w], key, v);
    SelectAll([w], key, v);
    if key(b) == v { SelectAll([b], key, v); } else { SelectAbsent([b], key, v); }
  }

  lemma KindFrontPair(u: seq<Path>, b: Path, w: Path)
    requires [b, w] <= u && b.ebgp == w.ebgp && w in Stage(3, u).0
    ensures [b, w] <= Stage(3, u).0
  {
    if AnyExternal(u) {
      var e :| e in u && e.ebgp;
      StageNarrows(3, u);
      assert Key(3, w) <= Key(3, e);
      assert u[0] == [b, w][0] && u[1] == [b, w][1];
      var key := StageKey(3);
      assert SwapOut(u, key, 2, []) == SwapOut(u, key, 1, []) == SwapOut(u, key, 0, []);
      SwapOutPassed(u, key, 2, []);
      assert u[..2] == [b, w];
    }
  }

  lemma PressingNext(k: nat, u: seq<Path>, b: Path, w: Path)
    requires 4 <= k < STAGES && u != [] && (k == 6 ==> OneFamily(u))
    requires [w] <= u || [b, w] <= u
    requires forall q :: q in u ==> Key(k, w) <= Key(k, q)
    ensures [w] <= Stage(k, u).0 || ([b, w] <= Stage(k, u).0 && [b, w] <= u && Key(k, b) == Key(k, w))
  {
    var key := StageKey(k);
    assert w in u by { if [w] <= u { assert u[0] == [w][0]; } else { assert u[1] == [b, w][1]; } }
    LateStageSelects(k, u);
    LowestIsLeast(u, key);
    assert Lowest(u, key) == Key(k, w);
    hide Stage, Lowest, Select, OneFamily, Key;
    if [w] <= u {
      assert u[0] == [w][0];
      SelectFirst(u, key, Key(k, w));
    } else {
      SelectFront(u, b, w, key, Key(k, w));
    }
  }

  /** A survivor that ties with the winner, right behind a best path that it beats, leads in the end. */
  lemma {:induction false} PressesOn(k: nat, s: seq<Path>, b: Path, w: Path, x: Path)
    requires 4 <= k <= STAGES && s != [] && OneFamily(Kept(6, s)) && x in Kept(STAGES, s)
    requires forall i :: 3 <= i < STAGES ==> Key(i, w) == Key(i, x)
    requires w in Kept(3, s) && [b, w] <= Kept(3, s) && b.ebgp == w.ebgp
    ensures [w] <= Kept(k, s) || ([b, w] <= Kept(k, s) && forall i :: 4 <= i < k ==> Key(i, b) == Key(i, w))
  {
    hide Kept, Stage, Key, OneFamily;
    SurvivorStays(k, s, w, x);
    KeptNext(k - 1, s);
    if k == 4 {
      KindFrontPair(Kept(3, s), b, w);
    } else {
      PressesOn(k - 1, s, b, w, x);
      SurvivorStays(k - 1, s, w, x);
      var u := Kept(k - 1, s);
      forall q | q in u ensures Key(k - 1, w) <= Key(k - 1, q) { StageKeeps(k - 1, s, q, x); }
      PressingNext(k - 1, u, b, w);
    }
  }

  lemma ThirdLeads(t: seq<Path>, p: Path, w: Path, b: Path)
    requires [p, w, b] <= t && b.origin < p.origin && b.origin < w.origin
    requires forall q :: q in t ==> b.origin <= q.origin
    ensures [b, w] <= Stage(2, t).0
  {
    assert t[0] == [p, w, b][0] && t[1] == [p, w, b][1] && t[2] == [p, w, b][2];
    OriginScanThird(t, |t|);
    var scan := ScanOrigin(t, |t|);
    hide ScanOrigin;
    assert scan.slots[..scan.idx][0] == b && scan.slots[..scan.idx][1] == w;
  }

  lemma FrontOfThree(s: seq<Path>, p: Path, w: Path, b: Path)
    requires s != [] && AsAgrees(s) && [p, w, b] <= Minima(2, s) && b.origin < p.origin && b.origin < w.origin
    requires forall q :: q in Minima(2, s) ==> b.origin <= q.origin
    ensures [b, w] <= Kept(3, s) && w in Kept(3, s)
  {
    hide Kept, Minima, Stage, AsAgrees;
    AgreedAsCount(s);
    KeptNext(2, s);
    ThirdLeads(Minima(2, s), p, w, b);
    assert Kept(3, s)[1] == [b, w][1];
  }

  /** The path of the best origin that lets a spoiling path through. */
  lemma Opening(w: Path, c: set<Path>) returns (b: Path)
    requires Spoils(w, c)
    ensures MinimumOf(3, b, c) && Beats(w, b)
    ensures b.ebgp == w.ebgp || forall q :: MinimumOf(3, q, c) ==> Beats(w, q)
  {
    assert w in c;
    hide MinimumOf, Beats, Matches;
    b := BestOrigin(c);
    if !(forall q :: MinimumOf(3, q, c) ==> Beats(w, q)) {
      b :| MinimumOf(3, b, c) && b.ebgp == w.ebgp && Beats(w, b);
    }
  }

  /** With another path of worse origin before it and such a path after it, a spoiling path is chosen wrongly. */
  lemma SpoiledOrder(s: seq<Path>, c: set<Path>, p: Path, w: Path, b: Path)
    requires s != [] && Orders(s, c) && AsAgrees(s) && FinalistsAgree(c)
    requires Worse(p, c) && Spoils(w, c) && MinimumOf(3, b, c) && Beats(w, b)
    requires b.ebgp == w.ebgp || forall q :: MinimumOf(3, q, c) ==> Beats(w, q)
    requires [p, w, b] <= Minima(2, s)
    ensures Worse(Kept(STAGES, s)[0], c)
  {
    var x := Kept(STAGES, s)[0];
    MinimaOf(2, s, c);
    WorseOrigin(p, b, c);
    WorseOrigin(w, b, c);
    WinnerIsFinalist(s, c);
    FinalistsFamily(s, c);
    assert x in Kept(STAGES, s);
    hide Kept, Minima, AsAgrees, FinalistsAgree, MinimumOf, OneFamily, NotAfter, Before, Tied;
    forall q | q in Minima(2, s) ensures b.origin <= q.origin { LowestOrigin(c, b, q); }
    FrontOfThree(s, p, w, b);
    BestCannotWin(s, c, w, b);
  }

  lemma SurvivorWins(s: seq<Path>, b: Path, w: Path, x: Path)
    requires s != [] && OneFamily(Kept(6, s)) && x in Kept(STAGES, s)
    requires forall i :: 3 <= i < STAGES ==> Key(i, w) == Key(i, x)
    requires w in Kept(3, s) && [b, w] <= Kept(3, s) && b.ebgp == w.ebgp && Beats(w, b)
    requires w.pref == b.pref && w.asCount == b.asCount
    ensures Kept(STAGES, s)[0] == w
  {
    hide Kept, OneFamily, Beats, Key;
    PressesOn(STAGES, s, b, w, x);
    var u := Kept(STAGES, s);
    if [w] <= u {
      assert u[0] == [w][0];
    } else {
      assert Key(3, b) == Key(3, w) by { SameKind(b, w); }
      TiedOnLater(w, b);
    }
  }

  lemma SameKind(p: Path, q: Path)
    ensures Key(3, p) == Key(3, q) <==> p.ebgp == q.ebgp
  {
  }

  lemma BestCannotWin(s: seq<Path>, c: set<Path>, w: Path, b: Path)
    requires s != [] && Orders(s, c) && OneFamily(Kept(6, s)) && Spoils(w, c) && Beats(w, b) && MinimumOf(3, b, c)
    requires b.ebgp == w.ebgp || forall q :: MinimumOf(3, q, c) ==> Beats(w, q)
    requires [b, w] <= Kept(3, s) && w in Kept(3, s)
    ensures !MinimumOf(3, Kept(STAGES, s)[0], c)
  {
    var x := Kept(STAGES, s)[0];
    assert x in Kept(STAGES, s);
    if MinimumOf(3, x, c) {
      MinimumTwo(x, c);
      hide Kept, OneFamily;
      if Beats(w, x) {
        WinnerLeads(s, c, w, x);
      } else {
        AlikeNotBefore(w, x);
        TiedAlike(w, x);
        SameTwo(w, b, c);
        SurvivorWins(s, b, w, x);
      }
    }
  }

  lemma SameTwo(w: Path, b: Path, c: set<Path>)
    requires MinimumOf(2, w, c) && MinimumOf(3, b, c)
    ensures w.pref == b.pref && w.asCount == b.asCount
  {
    MinimumTwo(b, c);
    assert NotAfter(2, w, b) && NotAfter(2, b, w);
    Trichotomy(2, w, b);
    TiedKeys(2, w, b);
    assert Key(0, w) == Key(0, b) && Key(1, w) == Key(1, b);
  }

  lemma TiedOnLater(w: Path, b: Path)
    requires w.pref == b.pref && w.asCount == b.asCount
    requires forall i :: 3 <= i < STAGES ==> Key(i, w) == Key(i, b)
    ensures !Beats(w, b)
  {
    var w' := w.(origin := b.origin);
    assert forall i :: 0 <= i < STAGES ==> Key(i, w') == Key(i, b);
    KeysTied(STAGES, w', b);
    Trichotomy(STAGES, w', b);
  }

  // ---------- Right in every order ----------

  ghost predicate AlwaysWins(c: set<Path>) {
    forall s :: s != [] && Orders(s, c) ==> MinimumOf(STAGES, Kept(STAGES, s)[0], c)
  }

  ghost predicate AlwaysWinsFrom(first: Path, c: set<Path>) {
    forall s :: s != [] && s[0] == first && Orders(s, c) ==> MinimumOf(STAGES, Kept(STAGES, s)[0], c)
  }

  /** One order is right if at most one path has a worse origin, or the first one has the best, or no other spoils. */
  lemma OrderWins(s: seq<Path>, c: set<Path>)
    requires s != [] && Orders(s, c) && AsAgreesIn(c) && FinalistsAgree(c)
    requires OneWorse(c) || MinimumOf(3, s[0], c) || forall w :: w != s[0] ==> !Spoils(w, c)
    ensures MinimumOf(STAGES, Kept(STAGES, s)[0], c)
  {
    GuardsOf(s, c);
    FinalistsFamilies(c);
    if OneWorse(c) || MinimumOf(3, s[0], c) {
      OrderedFair(s, c);
      FairKept(STAGES, s, c);
    } else {
      hide Kept, Minima, AsAgrees, FinalistsAgree, Spoils;
      if Worse(Kept(STAGES, s)[0], c) {
        WorseWinnerSpoils(s, c);
        WorseWinnerIsNotFirst(s, c);
      }
      BestOriginWins(s, c);
    }
  }

  lemma LedByThree(s: seq<Path>, c: set<Path>, skipped: seq<Path>, p: Path, w: Path, b: Path)
    requires s != [] && Orders(s, c) && AsAgreesIn(c) && skipped + [p, w, b] <= s
    requires forall q :: q in skipped ==> !MinimumOf(2, q, c)
    requires Worse(p, c) && Worse(w, c) && MinimumOf(3, b, c)
    ensures AsAgrees(s) && [p, w, b] <= Minima(2, s)
  {
    MinimumTwo(b, c);
    assert forall q :: q in skipped ==> q in skipped + [p, w, b];
    forall q | q in skipped ensures !IsMinimum(2, q, s) {
      assert q in s;
    }
    GuardsOf(s, c);
    MinimaLedAfter(2, skipped, [p, w, b], s);
  }

  lemma WrongOrder(c: set<Path>, skipped: seq<Path>, p: Path, w: Path) returns (s: seq<Path>)
    requires AsAgreesIn(c) && FinalistsAgree(c) && Apart(skipped)
    requires forall q :: q in skipped ==> q in c && !MinimumOf(2, q, c)
    requires Worse(p, c) && Spoils(w, c) && p != w
    ensures s != [] && skipped + [p] <= s && Orders(s, c) && Worse(Kept(STAGES, s)[0], c)
  {
    var b := Opening(w, c);
    SpoilsIsWorse(w, c);
    WorseIsFinalist(p, c);
    WorseIsFinalist(w, c);
    MinimumTwo(b, c);
    WorseOrigin(p, b, c);
    WorseOrigin(w, b, c);
    assert b in c;
    hide Kept, Minima, Spoils, AsAgreesIn, FinalistsAgree, Beats, AsAgrees, MinimumOf, Worse;
    var front := skipped + [p, w, b];
    assert Apart(front) && forall q :: q in front ==> q in c;
    s := OrderLedBy(front, c);
    assert skipped + [p] <= front;
    LedByThree(s, c, skipped, p, w, b);
    SpoiledOrder(s, c, p, w, b);
  }

  /** An order that begins with a given path and is wrong. */
  lemma WrongOrderFrom(first: Path, c: set<Path>, w: Path) returns (s: seq<Path>)
    requires first in c && AsAgreesIn(c) && FinalistsAgree(c)
    requires !OneWorse(c) && !MinimumOf(3, first, c) && w != first && Spoils(w, c)
    ensures s != [] && s[0] == first && Orders(s, c) && Worse(Kept(STAGES, s)[0], c)
  {
    if MinimumOf(2, first, c) {
      assert Worse(first, c);
      hide Kept, Spoils, AsAgreesIn, FinalistsAgree, MinimumOf, Orders, OneWorse;
      s := WrongOrder(c, [], first, w);
      assert s[0] == ([] + [first])[0];
    } else {
      hide Kept, Spoils, AsAgreesIn, FinalistsAgree, MinimumOf, Orders, Worse;
      var p :| Worse(p, c) && p != w;
      s := WrongOrder(c, [first], p, w);
      assert s[0] == ([first] + [p])[0];
    }
  }

  lemma SpoilsIsWorse(w: Path, c: set<Path>)
    requires Spoils(w, c)
    ensures Worse(w, c)
  {
  }

  /**
   A selection meets the path chosen so far first.  With that, the path it chooses is
   always a minimum if and only if at most one path has a worse origin, or the first one
   has the best, or no other path spoils the candidates.
   */
  lemma AlwaysWinsFromExact(first: Path, c: set<Path>)
    requires first in c && AsAgreesIn(c) && FinalistsAgree(c)
    ensures AlwaysWinsFrom(first, c) <==>
            OneWorse(c) || MinimumOf(3, first, c) || forall w :: w != first ==> !Spoils(w, c)
  {
    hide Kept, Orders, Spoils, OneWorse, AsAgreesIn, FinalistsAgree, Worse;
    if OneWorse(c) || MinimumOf(3, first, c) || forall w :: w != first ==> !Spoils(w, c) {
      forall s | s != [] && s[0] == first && Orders(s, c) ensures MinimumOf(STAGES, Kept(STAGES, s)[0], c) {
        OrderWins(s, c);
      }
    } else {
      var w :| w != first && Spoils(w, c);
      var s := WrongOrderFrom(first, c, w);
      if AlwaysWinsFrom(first, c) { WorseIsNoMinimum(Kept(STAGES, s)[0], c); }
    }
  }

  lemma WorseIsNoMinimum(x: Path, c: set<Path>)
    requires Worse(x, c)
    ensures !MinimumOf(STAGES, x, c)
  {
    if MinimumOf(STAGES, x, c) { Shortened(3, STAGES, x, c); }
  }

  /** Without a path chosen so far: if and only if at most one path has a worse origin or none spoils. */
  lemma AlwaysWinsExact(c: set<Path>)
    requires c != {} && AsAgreesIn(c) && FinalistsAgree(c)
    ensures AlwaysWins(c) <==> OneWorse(c) || forall w :: !Spoils(w, c)
  {
    hide Kept, Orders, Spoils, OneWorse, AsAgreesIn, FinalistsAgree, Worse;
    if OneWorse(c) || forall w :: !Spoils(w, c) {
      forall s | s != [] && Orders(s, c) ensures MinimumOf(STAGES, Kept(STAGES, s)[0], c) { OrderWins(s, c); }
    } else {
      var w :| Spoils(w, c);
      var p := OtherWorse(w, c);
      var s := WrongOrderFrom(p, c, w);
      if AlwaysWins(c) { WorseIsNoMinimum(Kept(STAGES, s)[0], c); }
    }
  }

  lemma OtherWorse(w: Path, c: set<Path>) returns (p: Path)
    requires !OneWorse(c)
    ensures p in c && p != w && Worse(p, c) && !MinimumOf(3, p, c)
  {
    p :| Worse(p, c) && p != w;
  }

  // ---------- Wrong choices ----------

  lemma StageAll(k: nat, s: seq<Path>)
    requires k in {0, 1} && s != [] && forall p :: p in s ==> Key(k, p) == Key(k, s[0]) <= Bound(k)
    ensures Stage(k, s).0 == s
  {
    LowestFirst(k, s);
    BoundedStageSelects(k, s);
    SelectAll(s, StageKey(k), Lowest(s, StageKey(k)));
  }

  lemma ExternalAll(q: Path, r: Path)
    requires q.ebgp && r.ebgp
    ensures Stage(3, [r, q, r]).0 == [r, q, r]
  {
    var t, key := [r, q, r], StageKey(3);
    assert SwapOut(t, key, 3, []) == SwapOut(t, key, 2, []) == SwapOut(t, key, 1, []) == SwapOut(t, key, 0, []);
  }

  lemma SecondWins(q: Path, r: Path)
    requires q.bgpId < r.bgpId
    ensures Stage(4, [r, q, r]).0 == [q]
  {
    var t, id := [r, q, r], StageKey(4);
    hide Stage, Lowest, Select;
    BoundedStageSelects(4, t);
    assert Lowest(t, id) == q.bgpId by {
      LowestIsLeast(t, id);
      assert q in t;
    }
    SelectMiddle(q, r, id, q.bgpId);
  }

  lemma SelectMiddle(q: Path, r: Path, key: Path -> int, v: int)
    requires key(q) == v && key(r) != v
    ensures Select([r, q, r], key, v) == [q]
  {
    hide Select;
    assert [r, q, r] == [r] + [q] + [r];
    SelectAll([q], key, v);
    SelectAbsent([r], key, v);
    SelectAppend([r], [q], key, v);
    SelectAppend([r] + [q], [r], key, v);
  }

  /** Three paths of which the one with the lowest origin loses. */
  lemma WrongChoice(p: Path, q: Path, r: Path)
    requires p.pref == q.pref == r.pref && p.asCount == q.asCount == r.asCount <= 4096
    requires p.origin == q.origin == 1 && r.origin == 0
    requires q.ebgp && r.ebgp && q.bgpId < r.bgpId
    ensures Kept(STAGES, [p, q, r]) == [q] && Before(STAGES, r, q)
  {
    var s := [p, q, r];
    StageAll(0, s);
    StageAll(1, s);
    OriginFilterKeepsWorse(p, q, r);
    ExternalAll(q, r);
    SecondWins(q, r);
    hide Stage, ScanOrigin, Key;
    KeptNext(0, s);
    KeptNext(1, s);
    KeptNext(2, s);
    KeptNext(3, s);
    KeptNext(4, s);
    StageOne(5, q);
    StageOne(6, q);
    KeptNext(5, s);
    KeptNext(6, s);
    OriginDecides(r, q);
  }

  lemma StageOne(k: nat, p: Path)
    requires k < STAGES
    ensures Stage(k, [p]).0 == [p]
  {
  }

  lemma OriginDecides(p: Path, q: Path)
    requires p.pref == q.pref && p.asCount == q.asCount && p.origin < q.origin
    ensures Before(STAGES, p, q)
  {
    KeysTied(2, p, q);
    assert Before(3, p, q) && Before(4, p, q) && Before(5, p, q);
  }
}
