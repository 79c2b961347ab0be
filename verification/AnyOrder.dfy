/**
 Candidates come out of a map in any order.  What the filter chain makes of a set of
 candidates, whatever the order.
 */
module AnyOrders {
  import opened BestPaths
  import opened ChainGuards
  import opened Filters
  import opened Ranking

  ghost predicate Apart(s: seq<Path>) {
    forall i, j :: 0 <= i < j < |s| ==> s[i] != s[j]
  }

  /** `s` lists the paths of `c`, each once. */
  ghost predicate Orders(s: seq<Path>, c: set<Path>) {
    Apart(s) && forall p :: p in s <==> p in c
  }

  ghost predicate MinimumOf(k: nat, p: Path, c: set<Path>)
    requires k <= STAGES
  {
    p in c && forall q :: q in c ==> NotAfter(k, p, q)
  }

  // ---------- The guards of a set of candidates ----------

  ghost predicate SomeBounded(c: set<Path>) {
    exists p :: MinimumOf(1, p, c) && p.asCount <= MAX_AS_COUNT
  }

  /** One of the most preferred paths has at most 4096 ASes, or there is only one. */
  ghost predicate AsBoundedIn(c: set<Path>) {
    SomeBounded(c) || forall p, q :: MinimumOf(1, p, c) && MinimumOf(1, q, c) ==> p == q
  }

  /** One of the most preferred paths has at most 4096 ASes, or all have equally many. */
  ghost predicate AsAgreesIn(c: set<Path>) {
    SomeBounded(c) || forall p, q :: MinimumOf(1, p, c) && MinimumOf(1, q, c) ==> p.asCount == q.asCount
  }

  /** Paths tied on preference and AS count have one origin. */
  ghost predicate OriginsAgree(c: set<Path>) {
    forall p, q :: MinimumOf(2, p, c) && MinimumOf(2, q, c) ==> p.origin == q.origin
  }

  /** Tied for best on preference and AS count, but of a worse origin than another such path. */
  ghost predicate Worse(p: Path, c: set<Path>) {
    MinimumOf(2, p, c) && !MinimumOf(3, p, c)
  }

  ghost predicate OneWorse(c: set<Path>) {
    forall p, q :: Worse(p, c) && Worse(q, c) ==> p == q
  }

  ghost predicate FamiliesAgree(c: set<Path>) {
    forall p, q :: MinimumOf(6, p, c) && MinimumOf(6, q, c) ==> |p.address| == |q.address|
  }

  lemma {:induction false} SelectApart(s: seq<Path>, key: Path -> int, v: int)
    requires Apart(s)
    ensures Apart(Select(s, key, v))
  {
    if s != [] {
      var init := s[..|s| - 1];
      SelectApart(init, key, v);
      SelectMember(init, key, v);
      forall i | 0 <= i < |Select(init, key, v)| ensures Select(init, key, v)[i] != s[|s| - 1] {
        assert Select(init, key, v)[i] in init;
      }
    }
  }

  lemma MinimaOf(k: nat, s: seq<Path>, c: set<Path>)
    requires k <= STAGES && Orders(s, c)
    ensures forall p :: p in Minima(k, s) <==> MinimumOf(k, p, c)
    ensures Apart(Minima(k, s))
  {
    MinimaMember(k, s);
    SelectApart(s, MinimumKey(k, s), 0);
  }

  lemma GuardsOf(s: seq<Path>, c: set<Path>)
    requires s != [] && Orders(s, c)
    ensures AsBounded(s) <==> AsBoundedIn(c)
    ensures AsAgrees(s) <==> AsAgreesIn(c)
    ensures FamilyAgrees(s) <==> FamiliesAgree(c)
  {
    MinimaOf(1, s, c);
    MinimaOf(6, s, c);
    MinimaExist(1, s);
    MinimaExist(6, s);
    hide Minima, MinimumOf;
    assert Minima(6, s)[0] in Minima(6, s);
    if |Minima(1, s)| > 1 {
      assert Minima(1, s)[0] in Minima(1, s) && Minima(1, s)[1] in Minima(1, s);
    }
  }

  /** A path of worse origin has a better one beside it. */
  lemma BetterThan(p: Path, c: set<Path>) returns (q: Path)
    requires Worse(p, c)
    ensures MinimumOf(2, q, c) && q.origin < p.origin
  {
    q :| q in c && !NotAfter(3, p, q);
    assert NotAfter(2, p, q) && Tied(2, p, q);
    Trichotomy(2, p, q);
    forall r | r in c ensures NotAfter(2, q, r) { NotAfterTransitive(2, q, p, r); }
  }

  lemma WorseIf(p: Path, q: Path, c: set<Path>)
    requires MinimumOf(2, p, c) && MinimumOf(2, q, c) && q.origin < p.origin
    ensures Worse(p, c)
  {
    assert NotAfter(2, p, q) && NotAfter(2, q, p);
    Trichotomy(2, p, q);
  }

  // ---------- Building an order ----------

  /** Any paths of a set, in any order, can come first. */
  lemma {:induction false} OrderFrom(front: seq<Path>, todo: set<Path>) returns (s: seq<Path>)
    requires Apart(front) && forall p :: p in todo ==> p !in front
    ensures front <= s && Apart(s) && forall p :: p in s <==> p in front || p in todo
    decreases |todo|
  {
    if todo == {} {
      s := front;
    } else {
      var p :| p in todo;
      s := OrderFrom(front + [p], todo - {p});
      assert front <= front + [p];
    }
  }

  lemma OrderLedBy(front: seq<Path>, c: set<Path>) returns (s: seq<Path>)
    requires Apart(front) && forall p :: p in front ==> p in c
    ensures Orders(s, c) && front <= s
  {
    s := OrderFrom(front, set p | p in c && p !in front);
  }

  /** Minima that come first among the candidates come first among the minima. */
  lemma MinimaLedBy(k: nat, front: seq<Path>, s: seq<Path>)
    requires k <= STAGES && front <= s && forall p :: p in front ==> IsMinimum(k, p, s)
    ensures front <= Minima(k, s)
  {
    var key, rest := MinimumKey(k, s), s[|front|..];
    SelectAll(front, key, 0);
    SelectAppend(front, rest, key, 0);
    assert s == front + rest;
  }

  // ---------- Right in every order ----------

  lemma OrderedLed(s: seq<Path>, c: set<Path>)
    requires s != [] && Orders(s, c) && OriginsAgree(c)
    ensures OriginLed(Minima(2, s))
  {
    MinimaOf(2, s, c);
    hide Minima, MinimumOf;
    forall p | p in Minima(2, s) ensures Minima(2, s)[0].origin <= p.origin {
      assert Minima(2, s)[0] in Minima(2, s);
    }
  }

  lemma OrderedSoon(s: seq<Path>, c: set<Path>)
    requires s != [] && Orders(s, c) && OneWorse(c)
    ensures OriginSoon(Minima(2, s))
  {
    var t := Minima(2, s);
    MinimaOf(2, s, c);
    hide Minima, MinimumOf;
    if |t| > 1 {
      forall p | p in t ensures t[0].origin <= p.origin || t[1].origin <= p.origin {
        assert t[0] in t && t[1] in t && t[0] != t[1];
        if p.origin < t[0].origin && p.origin < t[1].origin {
          WorseIf(t[0], p, c);
          WorseIf(t[1], p, c);
        }
      }
    }
  }

  /** Two paths that disagree on origin can be met the wrong way round. */
  lemma SomeOrderNotLed(c: set<Path>) returns (s: seq<Path>)
    requires c != {} && !OriginsAgree(c)
    ensures s != [] && Orders(s, c) && !OriginLed(Minima(2, s))
  {
    var p, q :| MinimumOf(2, p, c) && MinimumOf(2, q, c) && q.origin < p.origin;
    s := OrderLedBy([p], c);
    MinimaLedBy(2, [p], s);
    MinimaOf(2, s, c);
    hide Minima, MinimumOf;
    assert Minima(2, s)[0] == p && q in Minima(2, s);
  }

  /** Two paths of worse origin before a better one are the wrong way round. */
  lemma WorseFirst(s: seq<Path>, c: set<Path>, p: Path, w: Path)
    requires s != [] && Orders(s, c) && Worse(p, c) && Worse(w, c) && [p, w] <= Minima(2, s)
    ensures !OriginSoon(Minima(2, s))
  {
    var q := BetterThan(p, c);
    var r := BetterThan(w, c);
    MinimaOf(2, s, c);
    hide Minima, MinimumOf;
    var t := Minima(2, s);
    assert t[0] == [p, w][0] && t[1] == [p, w][1] && q in t && r in t;
  }

  /** They can be met so. */
  lemma SomeOrderNotSoon(c: set<Path>) returns (s: seq<Path>)
    requires c != {} && !OneWorse(c)
    ensures s != [] && Orders(s, c) && !OriginSoon(Minima(2, s))
  {
    var p, w :| Worse(p, c) && Worse(w, c) && p != w;
    s := OrderLedBy([p, w], c);
    MinimaLedBy(2, [p, w], s);
    WorseFirst(s, c, p, w);
  }

  ghost predicate AlwaysRanked(c: set<Path>) {
    forall s :: s != [] && Orders(s, c) ==> Ranked(STAGES, s, Kept(STAGES, s), Pruned(STAGES, s))
  }

  ghost predicate AlwaysPrecise(c: set<Path>) {
    forall s, k :: s != [] && Orders(s, c) && 0 <= k <= STAGES ==> Precise(k, s)
  }

  lemma SomeOrder(c: set<Path>) returns (s: seq<Path>)
    requires c != {}
    ensures s != [] && Orders(s, c)
  {
    s := OrderLedBy([], c);
    var p :| p in c;
    assert p in s;
  }

  /**
   In every order of the candidates the chain yields exactly the minima of its order and
   a permutation of its input, if and only if one of several most preferred paths has at
   most 4096 ASes and the paths then tied agree on origin.
   */
  lemma AlwaysRankedExact(c: set<Path>)
    requires c != {} && FamiliesAgree(c)
    ensures AlwaysRanked(c) <==> AsBoundedIn(c) && OriginsAgree(c)
  {
    hide Ranked, Kept, Pruned, AsBounded, AsBoundedIn, Minima, Orders, OriginsAgree, OriginLed, FamiliesAgree,
      FamilyAgrees;
    forall s | s != [] && Orders(s, c)
      ensures Ranked(STAGES, s, Kept(STAGES, s), Pruned(STAGES, s)) <==> AsBoundedIn(c) && OriginLed(Minima(2, s))
      ensures OriginsAgree(c) ==> OriginLed(Minima(2, s))
    {
      GuardsOf(s, c);
      ChainExact(s);
      if OriginsAgree(c) { OrderedLed(s, c); }
    }
    if !OriginsAgree(c) {
      var s := SomeOrderNotLed(c);
    }
    var s := SomeOrder(c);
  }

  /**
   In every order every stage is left with exactly the minima of its keys, if and only
   if the AS counts are within the bound or equal and at most one of the paths then tied
   has a worse origin than another.
   */
  lemma AlwaysPreciseExact(c: set<Path>)
    requires c != {} && FamiliesAgree(c)
    ensures AlwaysPrecise(c) <==> AsAgreesIn(c) && OneWorse(c)
  {
    hide Precise, AsAgrees, AsAgreesIn, Minima, Orders, OneWorse, OriginSoon, FamiliesAgree, FamilyAgrees;
    forall s | s != [] && Orders(s, c)
      ensures (forall k :: 0 <= k <= STAGES ==> Precise(k, s)) <==> AsAgreesIn(c) && OriginSoon(Minima(2, s))
      ensures OneWorse(c) ==> OriginSoon(Minima(2, s))
    {
      GuardsOf(s, c);
      PreciseExact(s);
      if OneWorse(c) { OrderedSoon(s, c); }
    }
    if !OneWorse(c) {
      var s := SomeOrderNotSoon(c);
    }
    var s := SomeOrder(c);
  }

  lemma FairKept(k: nat, s: seq<Path>, c: set<Path>)
    requires k <= STAGES && s != [] && Orders(s, c) && Fair(s)
    ensures forall p :: p in Kept(k, s) <==> MinimumOf(k, p, c)
    ensures Kept(STAGES, s)[0] in Kept(k, s)
    ensures |Kept(k, s)| == 1 ==> Kept(k, s) == [Kept(STAGES, s)[0]]
  {
    hide Kept, NotAfter, Minima, AsAgrees, OriginSoon, FamilyAgrees;
    FairPrecise(k, s);
    KeptNested(k, STAGES, s);
    assert Kept(STAGES, s)[0] in Kept(STAGES, s);
  }

  /** Minima on four keys are of one kind of session. */
  lemma OneKind(c: set<Path>)
    ensures forall p, q :: MinimumOf(4, p, c) && MinimumOf(4, q, c) ==> p.ebgp == q.ebgp
  {
    forall p, q | MinimumOf(4, p, c) && MinimumOf(4, q, c) ensures p.ebgp == q.ebgp {
      assert NotAfter(4, p, q) && NotAfter(4, q, p);
      Trichotomy(4, p, q);
      assert Key(3, p) == Key(3, q);
    }
  }

  /** An order is fair if at most one path has a worse origin or one of the best origin comes first. */
  lemma OrderedFair(s: seq<Path>, c: set<Path>)
    requires s != [] && Orders(s, c) && AsAgreesIn(c) && FamiliesAgree(c)
    requires OneWorse(c) || MinimumOf(3, s[0], c)
    ensures Fair(s)
  {
    GuardsOf(s, c);
    if OneWorse(c) {
      OrderedSoon(s, c);
    } else {
      FirstIsFair(s);
    }
  }

  ghost predicate AlwaysPreciseFrom(first: Path, c: set<Path>) {
    forall s, k :: s != [] && s[0] == first && Orders(s, c) && 0 <= k <= STAGES ==> Precise(k, s)
  }

  /** Unless the first path is of the best origin, two others can still come in the wrong order. */
  lemma SomeOrderFromNotSoon(first: Path, c: set<Path>) returns (s: seq<Path>)
    requires first in c && !OneWorse(c) && !MinimumOf(3, first, c)
    ensures s != [] && s[0] == first && Orders(s, c) && !OriginSoon(Minima(2, s))
  {
    var p, w :| Worse(p, c) && Worse(w, c) && p != w && first != w;
    if MinimumOf(2, first, c) {
      s := OrderLedBy([first, w], c);
      assert [first, w][0] == s[0];
      MinimaLedBy(2, [first, w], s);
      WorseFirst(s, c, first, w);
    } else {
      s := OrderLedBy([first] + [p, w], c);
      assert ([first] + [p, w])[0] == s[0];
      MinimaLedAfter(2, [first], [p, w], s);
      WorseFirst(s, c, p, w);
    }
  }

  lemma MinimaLedAfter(k: nat, skipped: seq<Path>, front: seq<Path>, s: seq<Path>)
    requires k <= STAGES && skipped + front <= s
    requires (forall p :: p in skipped ==> !IsMinimum(k, p, s)) && (forall p :: p in front ==> IsMinimum(k, p, s))
    ensures front <= Minima(k, s)
  {
    var key, rest := MinimumKey(k, s), s[|skipped + front|..];
    SelectAbsent(skipped, key, 0);
    SelectAll(front, key, 0);
    SelectAppend(skipped, front, key, 0);
    SelectAppend(skipped + front, rest, key, 0);
    assert s == skipped + front + rest;
  }

  /**
   A selection meets the path chosen so far first.  With that, every stage is always left
   with the right paths if and only if the AS counts are within the bound or equal, and at
   most one path has a worse origin or the first one has the best.
   */
  lemma AlwaysPreciseFromExact(first: Path, c: set<Path>)
    requires first in c && FamiliesAgree(c)
    ensures AlwaysPreciseFrom(first, c) <==> AsAgreesIn(c) && (OneWorse(c) || MinimumOf(3, first, c))
  {
    hide Precise, AsAgrees, AsAgreesIn, Minima, Orders, OneWorse, OriginSoon, FamiliesAgree, FamilyAgrees, Fair,
      MinimumOf;
    forall s | s != [] && s[0] == first && Orders(s, c)
      ensures (forall k :: 0 <= k <= STAGES ==> Precise(k, s)) <==> AsAgreesIn(c) && OriginSoon(Minima(2, s))
      ensures AsAgreesIn(c) && (OneWorse(c) || MinimumOf(3, first, c)) ==> OriginSoon(Minima(2, s))
    {
      GuardsOf(s, c);
      PreciseExact(s);
      if AsAgreesIn(c) && (OneWorse(c) || MinimumOf(3, first, c)) { OrderedSoonFrom(s, c); }
    }
    if !OneWorse(c) && !MinimumOf(3, first, c) {
      var s := SomeOrderFromNotSoon(first, c);
    }
    var s := OrderLedBy([first], c);
    assert [first][0] == s[0];
  }

  lemma OrderedSoonFrom(s: seq<Path>, c: set<Path>)
    requires s != [] && Orders(s, c) && (OneWorse(c) || MinimumOf(3, s[0], c))
    ensures OriginSoon(Minima(2, s))
  {
    if OneWorse(c) { OrderedSoon(s, c); } else { FirstIsFair(s); }
  }
}
