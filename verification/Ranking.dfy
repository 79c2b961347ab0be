/**
 Best-path selection of a BGP destination: a chain of filters that compact a
 slice of candidate paths in place, refining one lexicographic order.
 */
module Ranking {
  import opened Words
  import opened Filters

  datatype Source = Local | External

  type Origin = x: int | 0 <= x <= ORIGIN_MAX

  const ORIGIN_MAX := 3
  const MAX_AS_COUNT := 4096
  const MAX_U32 := 0xffff_ffff
  const MAX_U16 := 0xffff
  const STAGES := 7

  /** A path object. `id` is its identity; two objects may carry equal attributes. */
  datatype Path = Path(
    id: nat,
    source: Source,
    aggregate: bool,
    reachable: bool,
    asLoop: bool,
    pref: U32,
    asCount: U32,
    origin: Origin,
    ebgp: bool,
    bgpId: U32,
    clusterLen: U16,
    address: seq<U8>,
    nextHop: nat)
  {
    /** True if the path belongs in the forwarding table of the system. */
    predicate Programmed() {
      source.External? || aggregate
    }
  }

  // ---------- The order ----------

  function AddressValue(address: seq<U8>): nat {
    if address == [] then 0
    else AddressValue(address[..|address| - 1]) * 256 + address[|address| - 1]
  }

  /** The key compared by stage `k` of the selection; lower is better. */
  function Key(k: nat, p: Path): int
    requires k < STAGES
  {
    if k == 0 then -(p.pref as int)
    else if k == 1 then p.asCount
    else if k == 2 then p.origin
    else if k == 3 then (if p.ebgp then 0 else 1)
    else if k == 4 then p.bgpId
    else if k == 5 then p.clusterLen
    else AddressValue(p.address)
  }

  function StageKey(k: nat): Path -> int
    requires k < STAGES
  {
    p => Key(k, p)
  }

  predicate Tied(k: nat, p: Path, q: Path)
    requires k <= STAGES
  {
    k == 0 || (Tied(k - 1, p, q) && Key(k - 1, p) == Key(k - 1, q))
  }

  /** `p` is strictly better than `q` on the first `k` keys, taken lexicographically. */
  predicate Before(k: nat, p: Path, q: Path)
    requires k <= STAGES
  {
    k > 0 && (Before(k - 1, p, q) || (Tied(k - 1, p, q) && Key(k - 1, p) < Key(k - 1, q)))
  }

  predicate NotAfter(k: nat, p: Path, q: Path)
    requires k <= STAGES
  {
    Before(k, p, q) || Tied(k, p, q)
  }

  /** The order of the selection is a total preorder: exactly one of before, tied, after. */
  lemma {:induction false} Trichotomy(k: nat, p: Path, q: Path)
    requires k <= STAGES
    ensures Tied(k, p, q) <==> Tied(k, q, p)
    ensures Tied(k, p, q) ==> !Before(k, p, q) && !Before(k, q, p)
    ensures !Tied(k, p, q) ==> (Before(k, p, q) <==> !Before(k, q, p))
  {
    if k > 0 { Trichotomy(k - 1, p, q); }
  }

  lemma {:induction false} NotAfterTransitive(k: nat, p: Path, q: Path, r: Path)
    requires k <= STAGES
    requires NotAfter(k, p, q) && NotAfter(k, q, r)
    ensures NotAfter(k, p, r)
    ensures Before(k, p, q) || Before(k, q, r) ==> Before(k, p, r)
  {
    if k > 0 { NotAfterTransitive(k - 1, p, q, r); }
  }

  // ---------- The origin filter, as written ----------

  /**
   The origin filter advances `idx` where its siblings reset it to 1, so slots that
   hold a path already reported as removed can stay in front of the cut.
   */
  datatype OriginScan = OriginScan(slots: seq<Path>, idx: nat, low: int, removed: seq<Path>)

  function AbsorbOrigin(scan: OriginScan, p: Path): OriginScan
    requires scan.idx < |scan.slots|
  {
    if p.origin > scan.low then
      scan.(removed := scan.removed + [p])
    else if p.origin < scan.low then
      OriginScan(scan.slots[0 := p], scan.idx + 1, p.origin, scan.removed + scan.slots[..scan.idx])
    else
      OriginScan(scan.slots[scan.idx := p], scan.idx + 1, scan.low, scan.removed)
  }

  function ScanOrigin(s: seq<Path>, i: nat): (scan: OriginScan)
    requires i <= |s|
    ensures |scan.slots| == |s| && scan.idx <= i
    ensures forall j :: i <= j < |s| ==> scan.slots[j] == s[j]
  {
    if i == 0 then OriginScan(s, 0, ORIGIN_MAX, []) else AbsorbOrigin(ScanOrigin(s, i - 1), s[i - 1])
  }

  lemma OriginScanNone(s: seq<Path>)
    ensures ScanOrigin(s, 0) == OriginScan(s, 0, ORIGIN_MAX, [])
  {
  }

  lemma OriginScanNext(s: seq<Path>, i: nat)
    requires i < |s|
    ensures ScanOrigin(s, i + 1) == AbsorbOrigin(ScanOrigin(s, i), s[i])
  {
  }

  /** No path is better by origin than the first one. */
  predicate OriginLed(s: seq<Path>) {
    forall p :: p in s ==> s[0].origin <= p.origin
  }

  lemma AbsorbLow(scan: OriginScan, p: Path, s: seq<Path>, i: nat)
    requires 0 < scan.idx < |scan.slots| && scan.slots[0].origin == scan.low
    requires i < |s| && s[i] == p && forall j :: 0 <= j < i ==> scan.low <= s[j].origin
    requires forall j :: 0 <= j < |scan.slots| ==> scan.slots[j] in s
    ensures var after := AbsorbOrigin(scan, p);
            && after.idx > 0 && after.slots[0].origin == after.low
            && (forall j :: 0 <= j < i + 1 ==> after.low <= s[j].origin)
            && (forall j :: 0 <= j < |after.slots| ==> after.slots[j] in s)
  {
  }

  lemma {:induction false} OriginScanLow(s: seq<Path>, i: nat)
    requires 0 < i <= |s|
    ensures var scan := ScanOrigin(s, i); scan.idx > 0 && scan.slots[0].origin == scan.low
    ensures forall j :: 0 <= j < i ==> ScanOrigin(s, i).low <= s[j].origin
    ensures forall j :: 0 <= j < |s| ==> ScanOrigin(s, i).slots[j] in s
  {
    OriginScanNext(s, i - 1);
    if i > 1 {
      hide ScanOrigin, AbsorbOrigin;
      OriginScanLow(s, i - 1);
      AbsorbLow(ScanOrigin(s, i - 1), s[i - 1], s, i - 1);
    } else {
      OriginScanNone(s);
    }
  }

  /** Each late improvement leaves a stale slot: the count is right only if there was none. */
  lemma {:induction false} OriginScanCount(s: seq<Path>, i: nat)
    requires 0 < i <= |s|
    ensures var scan := ScanOrigin(s, i);
            && scan.idx + |scan.removed| >= i && scan.low <= s[0].origin
            && (scan.idx + |scan.removed| == i <==> scan.low == s[0].origin)
  {
    if i > 1 {
      OriginScanCount(s, i - 1);
      OriginScanLow(s, i - 1);
    }
  }

  lemma {:induction false} OriginScanLed(s: seq<Path>, i: nat)
    requires 0 < i <= |s| && OriginLed(s)
    ensures var scan, plain := ScanOrigin(s, i), ScanLowest(s[..i], StageKey(2), ORIGIN_MAX);
            plain == Scan(scan.low, scan.slots[..scan.idx], scan.removed)
    ensures ScanOrigin(s, i).low == s[0].origin
  {
    assert s[..i][..i - 1] == s[..i - 1];
    assert s[i - 1] in s;
    if i > 1 { OriginScanLed(s, i - 1); }
  }

  /** The filter sieves its input if and only if the first path already has the lowest origin. */
  lemma OriginFilterExact(s: seq<Path>)
    requires s != []
    ensures var scan := ScanOrigin(s, |s|);
            Sieved(StageKey(2), s, scan.slots[..scan.idx], scan.removed) <==> OriginLed(s)
  {
    var scan := ScanOrigin(s, |s|);
    var kept := scan.slots[..scan.idx];
    assert s[..|s|] == s;
    assert |multiset(kept) + multiset(scan.removed)| == |kept| + |scan.removed|;
    assert |multiset(s)| == |s|;
    OriginScanCount(s, |s|);
    OriginScanLow(s, |s|);
    if OriginLed(s) {
      OriginScanLed(s, |s|);
      LowestIsLeast(s, StageKey(2));
      assert s[0] in s;
      ScanSelects(s, StageKey(2), ORIGIN_MAX);
      ScanConserves(s, StageKey(2), ORIGIN_MAX);
      SelectSieves(StageKey(2), s, kept, scan.removed);
    }
  }

  /** The first or the second path has the lowest origin. */
  predicate OriginSoon(s: seq<Path>) {
    |s| > 1 ==> forall p :: p in s ==> s[0].origin <= p.origin || s[1].origin <= p.origin
  }

  ghost predicate Holds(scan: OriginScan, t: seq<Path>)
    requires scan.idx <= |scan.slots|
  {
    forall p :: p in t ==> scan.low <= p.origin && (p.origin == scan.low ==> p in scan.slots[..scan.idx])
  }

  lemma AbsorbHolds(scan: OriginScan, t: seq<Path>, p: Path)
    requires scan.idx < |scan.slots| && Holds(scan, t)
    ensures Holds(AbsorbOrigin(scan, p), t + [p])
  {
    var after := AbsorbOrigin(scan, p);
    if p.origin == scan.low {
      assert after.slots[..after.idx] == scan.slots[..scan.idx] + [p];
    } else if p.origin < scan.low {
      assert after.slots[..after.idx][0] == p;
    }
  }

  /** No path of the lowest origin is lost. */
  lemma {:induction false} OriginScanHolds(s: seq<Path>, i: nat)
    requires i <= |s|
    ensures Holds(ScanOrigin(s, i), s[..i])
  {
    hide AbsorbOrigin, Holds;
    if i == 0 {
      HoldsNone(s);
    } else {
      OriginScanHolds(s, i - 1);
      AbsorbHolds(ScanOrigin(s, i - 1), s[..i - 1], s[i - 1]);
      assert s[..i] == s[..i - 1] + [s[i - 1]];
    }
  }

  lemma HoldsNone(s: seq<Path>)
    ensures Holds(ScanOrigin(s, 0), s[..0])
  {
  }

  lemma OriginScanTwo(s: seq<Path>)
    requires |s| >= 2 && s[1].origin < s[0].origin
    ensures ScanOrigin(s, 2) == OriginScan(s[0 := s[1]], 2, s[1].origin, [s[0]])
  {
    OriginScanNone(s);
    OriginScanNext(s, 0);
    OriginScanNext(s, 1);
    assert s[0 := s[0]] == s;
  }

  lemma SelectNext(s: seq<Path>, i: nat, key: Path -> int, v: int)
    requires i < |s|
    ensures Select(s[..i + 1], key, v) == Select(s[..i], key, v) + (if key(s[i]) == v then [s[i]] else [])
  {
    assert s[..i + 1][..i] == s[..i];
  }

  /** If the second path has the lowest origin, it is reported twice and no worse one stays. */
  lemma {:induction false} OriginScanSecond(s: seq<Path>, i: nat)
    requires 2 <= i <= |s| && s[1].origin < s[0].origin && forall p :: p in s ==> s[1].origin <= p.origin
    ensures var scan := ScanOrigin(s, i);
            && scan.low == s[1].origin && 2 <= scan.idx
            && scan.slots[..scan.idx] == [s[1]] + Select(s[..i], StageKey(2), s[1].origin)
  {
    hide ScanOrigin, Select;
    var key, v := StageKey(2), s[1].origin;
    SelectNext(s, i - 1, key, v);
    if i == 2 {
      OriginScanTwo(s);
      SelectNext(s, 0, key, v);
      assert Select(s[..0], key, v) == [] by { SelectAbsent(s[..0], key, v); }
    } else {
      OriginScanSecond(s, i - 1);
      OriginScanNext(s, i - 1);
      var scan := ScanOrigin(s, i - 1);
      assert s[i - 1] in s;
      if s[i - 1].origin == scan.low {
        assert scan.slots[scan.idx := s[i - 1]][..scan.idx + 1] == scan.slots[..scan.idx] + [s[i - 1]];
      }
    }
  }

  /** A third path of the lowest origin comes first, and whatever the second path is, it stays behind it. */
  lemma {:induction false} OriginScanThird(s: seq<Path>, i: nat)
    requires 3 <= i <= |s| && s[2].origin < s[0].origin && s[2].origin < s[1].origin
    requires forall p :: p in s ==> s[2].origin <= p.origin
    ensures var scan := ScanOrigin(s, i);
            scan.idx >= 2 && scan.low == s[2].origin && scan.slots[0] == s[2] && scan.slots[1] == s[1]
  {
    OriginScanNext(s, i - 1);
    if i == 3 {
      OriginScanNone(s);
      OriginScanNext(s, 0);
      OriginScanNext(s, 1);
    } else {
      OriginScanThird(s, i - 1);
      assert s[i - 1] in s;
    }
  }

  /** The first path is in no slot but the first, so once improved on it is gone. */
  lemma {:induction false} OriginScanDropsFirst(s: seq<Path>, i: nat)
    requires 0 < i <= |s| && forall j :: 0 < j < |s| ==> s[j] != s[0]
    ensures ScanOrigin(s, i).idx > 0
    ensures forall j :: 0 < j < |s| ==> ScanOrigin(s, i).slots[j] != s[0]
  {
    OriginScanNext(s, i - 1);
    if i == 1 {
      OriginScanNone(s);
    } else {
      OriginScanDropsFirst(s, i - 1);
    }
  }

  /** From slot `m` on there are only paths of the lowest origin, and all of them but the first. */
  ghost predicate Trails(scan: OriginScan, t: seq<Path>, m: nat)
    requires scan.idx <= |scan.slots|
  {
    && 1 <= m <= scan.idx && scan.slots[0].origin == scan.low
    && (forall j :: m <= j < scan.idx ==> scan.slots[j].origin == scan.low)
    && (forall p :: p in t && p.origin == scan.low ==> p == scan.slots[0] || p in scan.slots[m..scan.idx])
    && (forall p :: p in t ==> scan.low <= p.origin)
  }

  lemma AbsorbTrails(scan: OriginScan, t: seq<Path>, m: nat, p: Path) returns (m': nat)
    requires scan.idx < |scan.slots| && Trails(scan, t, m)
    ensures Trails(AbsorbOrigin(scan, p), t + [p], m')
  {
    var after := AbsorbOrigin(scan, p);
    m' := if p.origin < scan.low then after.idx else m;
    if p.origin == scan.low {
      assert after.slots[m..after.idx] == scan.slots[m..scan.idx] + [p];
    }
  }

  lemma {:induction false} OriginScanTrails(s: seq<Path>, i: nat) returns (m: nat)
    requires 0 < i <= |s|
    ensures Trails(ScanOrigin(s, i), s[..i], m)
  {
    if i == 1 {
      m := 1;
      OriginScanNone(s);
      OriginScanNext(s, 0);
      assert s[..1] == [s[0]];
    } else {
      hide Trails, AbsorbOrigin;
      var before := OriginScanTrails(s, i - 1);
      m := AbsorbTrails(ScanOrigin(s, i - 1), s[..i - 1], before, s[i - 1]);
      OriginScanNext(s, i - 1);
      assert s[..i] == s[..i - 1] + [s[i - 1]];
    }
  }

  /** An improvement on the first two paths leaves a worse one in the second slot, for good. */
  lemma {:induction false} OriginScanStale(s: seq<Path>, i: nat)
    requires 2 <= i <= |s|
    ensures var scan := ScanOrigin(s, i);
            && scan.idx >= 1 && scan.low <= scan.slots[1].origin
            && scan.low <= s[0].origin && scan.low <= s[1].origin
            && (scan.idx == 1 ==> scan.slots[1] == s[1])
            && (scan.low < s[0].origin && scan.low < s[1].origin ==> scan.idx >= 2 && scan.low < scan.slots[1].origin)
  {
    OriginScanNext(s, i - 1);
    if i == 2 {
      OriginScanNone(s);
      OriginScanNext(s, 0);
    } else {
      OriginScanStale(s, i - 1);
    }
  }

  /** Three paths for which the filter keeps a path of a worse origin ahead of the cut. */
  lemma OriginFilterKeepsWorse(p: Path, q: Path, r: Path)
    requires p.origin == q.origin == 1 && r.origin == 0
    ensures var scan := ScanOrigin([p, q, r], 3);
            scan.slots[..scan.idx] == [r, q, r] && scan.removed == [p, q]
  {
    var s := [p, q, r];
    assert ScanOrigin(s, 1) == OriginScan(s, 1, 1, []) by { assert ScanOrigin(s, 0).slots[0 := p] == s; }
    assert ScanOrigin(s, 2) == OriginScan(s, 2, 1, []) by { assert s[1 := q] == s; }
    assert ScanOrigin(s, 3) == OriginScan([r, q, r], 3, 0, [p, q]);
  }

  /**
   Counting a path only once, the filter keeps exactly the paths of lowest origin if and
   only if the first or the second path has it.
   */
  lemma OriginNarrowsExact(s: seq<Path>)
    requires s != []
    ensures var scan := ScanOrigin(s, |s|);
            Narrows(StageKey(2), s, scan.slots[..scan.idx]) <==> OriginSoon(s)
  {
    var scan := ScanOrigin(s, |s|);
    var kept, key := scan.slots[..scan.idx], StageKey(2);
    hide ScanOrigin, Narrows;
    assert s[..|s|] == s;
    if OriginLed(s) {
      OriginFilterExact(s);
      SieveNarrows(key, s, kept, scan.removed);
    } else if OriginSoon(s) {
      OriginScanSecond(s, |s|);
      SelectMember(s, key, s[1].origin);
      SecondNarrows(s, kept);
    } else {
      OriginScanStale(s, |s|);
      OriginScanLow(s, |s|);
      StaleDoesNotNarrow(s, kept, scan.low);
    }
  }

  lemma SecondNarrows(s: seq<Path>, kept: seq<Path>)
    requires |s| > 1 && s[1].origin < s[0].origin && forall p :: p in s ==> s[1].origin <= p.origin
    requires kept == [s[1]] + Select(s, StageKey(2), s[1].origin)
    requires forall p :: p in Select(s, StageKey(2), s[1].origin) <==> p in s && Key(2, p) == s[1].origin
    ensures Narrows(StageKey(2), s, kept)
  {
    assert s[1] in s;
  }

  lemma StaleDoesNotNarrow(s: seq<Path>, kept: seq<Path>, low: int)
    requires |s| > 1 && |kept| > 1 && low < kept[1].origin && kept[0].origin == low
    requires kept[0] in s
    ensures !Narrows(StageKey(2), s, kept)
  {
    assert kept[1] in kept;
    assert Key(2, kept[0]) < Key(2, kept[1]);
  }

  method GetRoutesWithLowestOrigin(a: array<Path>, n: nat) returns (m: nat, removed: seq<Path>)
    requires 0 < n <= a.Length
    modifies a
    ensures 0 < m <= n
    ensures var scan := ScanOrigin(old(a[..n]), n); a[..m] == scan.slots[..scan.idx] && removed == scan.removed
  {
    hide ScanOrigin;
    ghost var s, slots := a[..n], a[..n];
    var low, idx, i := ORIGIN_MAX, 0, 0;
    removed := [];
    OriginScanNone(s);
    while i < n
      invariant 0 <= idx <= i <= n && |slots| == n
      invariant forall j :: 0 <= j < n ==> a[j] == slots[j]
      invariant forall j :: i <= j < n ==> a[j] == s[j]
      invariant ScanOrigin(s, i) == OriginScan(slots, idx, low, removed)
    {
      var path := a[i];
      OriginScanNext(s, i);
      if path.origin > low {
        removed := removed + [path];
      } else if path.origin < low {
        assert a[..idx] == slots[..idx];
        removed := removed + a[..idx];
        low := path.origin;
        a[0] := path;
        slots := slots[0 := path];
        idx := idx + 1;
      } else {
        a[idx] := path;
        slots := slots[idx := path];
        idx := idx + 1;
      }
      i := i + 1;
    }
    OriginScanLow(s, n);
    m := idx;
    assert a[..m] == slots[..m];
  }

  // ---------- EBGP before IBGP ----------

  method DeleteIBGPRoutes(a: array<Path>, n: nat) returns (m: nat, removed: seq<Path>)
    requires n <= a.Length
    modifies a
    ensures m <= n
    ensures (a[..m], removed) == SwapOut(old(a[..n]), StageKey(3), 0, [])
  {
    var end, i := n, 0;
    removed := [];
    while i < end
      invariant 0 <= i <= end <= n
      invariant SwapOut(a[..end], StageKey(3), i, removed) == SwapOut(old(a[..n]), StageKey(3), 0, [])
      decreases end - i
    {
      ghost var live := a[..end];
      if !a[i].ebgp {
        removed := removed + [a[i]];
        a[i] := a[end - 1];
        end := end - 1;
        assert a[..end] == live[i := live[end]][..end];
        continue;
      }
      i := i + 1;
    }
    m := i;
  }

  predicate AnyExternal(s: seq<Path>) {
    exists p :: p in s && p.ebgp
  }

  /** Internal paths are dropped when, and only when, an external one is present. */
  method RemoveIBGPRoutesIfEBGPExist(a: array<Path>, n: nat) returns (m: nat, removed: seq<Path>)
    requires 0 < n <= a.Length
    modifies a
    ensures 0 < m <= n
    ensures (a[..m], removed) ==
            if AnyExternal(old(a[..n])) then SwapOut(old(a[..n]), StageKey(3), 0, []) else (old(a[..n]), [])
    ensures Sieved(StageKey(3), old(a[..n]), a[..m], removed)
  {
    ghost var s := a[..n];
    for i := 0 to n
      invariant forall j :: 0 <= j < i ==> !a[j].ebgp
    {
      if a[i].ebgp {
        assert s[i] in s;
        SwapOutSieves(s, StageKey(3), s[i]);
        m, removed := DeleteIBGPRoutes(a, n);
        return;
      }
    }
    m, removed := n, [];
  }

  // ---------- The peer-address filter ----------

  lemma {:induction false} AddressLess(a: seq<U8>, b: seq<U8>, i: nat)
    requires |a| == |b| && i < |a|
    requires a[..i] == b[..i] && a[i] < b[i]
    ensures AddressValue(a) < AddressValue(b)
  {
    var n := |a| - 1;
    if i == n {
      assert a[..n] == b[..n];
    } else {
      assert a[..n][..i] == a[..i] && b[..n][..i] == b[..i];
      AddressLess(a[..n], b[..n], i);
    }
  }

  /** Byte-wise comparison; addresses of different lengths are reported and count as equal. */
  method CompareNeighborAddress(a: seq<U8>, b: seq<U8>) returns (val: int, ok: bool)
    ensures ok <==> |a| == |b|
    ensures -1 <= val <= 1 && (!ok ==> val == 0)
    ensures ok ==> (val < 0 <==> AddressValue(a) < AddressValue(b))
    ensures ok ==> (val > 0 <==> AddressValue(a) > AddressValue(b))
  {
    if |a| != |b| { return 0, false; }
    for i := 0 to |a|
      invariant a[..i] == b[..i]
    {
      if a[i] < b[i] {
        AddressLess(a, b, i);
        return -1, true;
      } else if a[i] > b[i] {
        AddressLess(b, a, i);
        return 1, true;
      }
    }
    assert a == a[..|a|] == b[..|b|] == b;
    return 0, true;
  }

  /** All peers are addressed in one family. */
  predicate OneFamily(s: seq<Path>) {
    forall p :: p in s ==> |p.address| == |s[0].address|
  }

  /** The filter's scan; the address compared with is that of the first path kept. */
  function ScanAddress(s: seq<Path>): (scan: (seq<Path>, seq<Path>))
    ensures forall p :: p in scan.0 ==> p in s
    ensures s != [] ==> scan.0 != []
  {
    if s == [] then ([], [])
    else
      var (kept, removed) := ScanAddress(s[..|s| - 1]);
      var p := s[|s| - 1];
      var first := if kept == [] then p else kept[0];
      assert s == s[..|s| - 1] + [p];
      if |p.address| == |first.address| && AddressValue(p.address) > AddressValue(first.address) then
        (kept, removed + [p])
      else if |p.address| == |first.address| && AddressValue(p.address) < AddressValue(first.address) then
        ([p], removed + kept)
      else
        (kept + [p], removed)
  }

  lemma AddressScanNext(s: seq<Path>, i: nat)
    requires i < |s|
    ensures var ((kept, removed), p) := (ScanAddress(s[..i]), s[i]);
            var first := if kept == [] then p else kept[0];
            ScanAddress(s[..i + 1]) ==
            if |p.address| == |first.address| && AddressValue(p.address) > AddressValue(first.address) then
              (kept, removed + [p])
            else if |p.address| == |first.address| && AddressValue(p.address) < AddressValue(first.address) then
              ([p], removed + kept)
            else
              (kept + [p], removed)
  {
    hide AddressValue;
    assert s[..i + 1][..i] == s[..i];
  }

  lemma {:induction false} AddressScanSelects(s: seq<Path>)
    requires s != [] && OneFamily(s)
    ensures var (kept, removed) := ScanAddress(s);
            ScanLowest(s, StageKey(6), AddressValue(s[0].address)) == Scan(AddressValue(kept[0].address), kept, removed)
  {
    var init := s[..|s| - 1];
    if |s| > 1 {
      assert init[0] == s[0] && forall p :: p in init ==> p in s;
      AddressScanSelects(init);
    }
    assert s[|s| - 1] in s;
  }

  lemma FirstBounds(s: seq<Path>)
    requires s != []
    ensures Lowest(s, StageKey(6)) <= AddressValue(s[0].address)
  {
    hide Lowest, AddressValue;
    LowestIsLeast(s, StageKey(6));
    assert s[0] in s && StageKey(6)(s[0]) == AddressValue(s[0].address);
  }

  lemma AddressFilterSieves(s: seq<Path>)
    requires s != [] && OneFamily(s)
    ensures var (kept, removed) := ScanAddress(s); Sieved(StageKey(6), s, kept, removed)
  {
    hide ScanLowest, Lowest, AddressValue, ScanAddress, Sieved;
    AddressScanSelects(s);
    AddressScanKeeps(s);
    FirstBounds(s);
    FilterExact(StageKey(6), s, AddressValue(s[0].address));
  }

  lemma AddressScanNone()
    ensures ScanAddress([]) == ([], [])
  {
  }

  lemma AddressScanKeeps(s: seq<Path>)
    requires s != []
    ensures ScanAddress(s).0 != []
  {
  }

  method GetRoutesWithLowestPeerAddress(a: array<Path>, n: nat) returns (m: nat, removed: seq<Path>)
    requires 0 < n <= a.Length
    modifies a
    ensures 0 < m <= n
    ensures (a[..m], removed) == ScanAddress(old(a[..n]))
  {
    hide ScanAddress, AddressValue;
    ghost var s, kept := a[..n], [];
    AddressScanNone();
    var idx, i := 0, 0;
    removed := [];
    while i < n
      invariant 0 <= idx <= i <= n && idx == |kept|
      invariant forall j :: i <= j < n ==> a[j] == s[j]
      invariant forall j :: 0 <= j < idx ==> a[j] == kept[j]
      invariant ScanAddress(s[..i]) == (kept, removed)
    {
      var path := a[i];
      AddressScanNext(s, i);
      var val, ok := CompareNeighborAddress(path.address, a[0].address);
      if val > 0 {
        removed := removed + [path];
      } else if val < 0 {
        assert a[..idx] == kept;
        removed := removed + a[..idx];
        a[0] := path;
        idx := 1;
        kept := [path];
      } else {
        a[idx] := path;
        idx := idx + 1;
        kept := kept + [path];
      }
      i := i + 1;
    }
    AddressScanKeeps(s);
    m := idx;
    assert a[..m] == kept;
    assert s[..n] == s;
  }
}
