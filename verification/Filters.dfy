/**
 Filters that compact a slice in place.  A filter keeps the elements of lowest key
 at the front of the slice and reports the others as removed.
 */
module Filters {
  // ---------- What one filter keeps ----------

  function Select<T>(s: seq<T>, key: T -> int, v: int): seq<T> {
    if s == [] then []
    else Select(s[..|s| - 1], key, v) + (if key(s[|s| - 1]) == v then [s[|s| - 1]] else [])
  }

  function Lowest<T>(s: seq<T>, key: T -> int): int
    requires s != []
  {
    var last := key(s[|s| - 1]);
    if |s| == 1 then last
    else
      var low := Lowest(s[..|s| - 1], key);
      if last < low then last else low
  }

  lemma {:induction false} LowestBounds<T>(s: seq<T>, key: T -> int) returns (at: nat)
    requires s != []
    ensures at < |s| && key(s[at]) == Lowest(s, key)
    ensures forall i :: 0 <= i < |s| ==> Lowest(s, key) <= key(s[i])
  {
    at := |s| - 1;
    if |s| > 1 {
      var init := s[..|s| - 1];
      var before := LowestBounds(init, key);
      if Lowest(init, key) <= key(s[at]) { at := before; }
      assert forall i :: 0 <= i < |init| ==> s[i] == init[i];
    }
  }

  lemma LowestIsLeast<T>(s: seq<T>, key: T -> int)
    requires s != []
    ensures exists p :: p in s && key(p) == Lowest(s, key)
    ensures forall p :: p in s ==> Lowest(s, key) <= key(p)
  {
    hide Lowest;
    var at := LowestBounds(s, key);
    assert s[at] in s;
  }

  lemma {:induction false} SelectAbsent<T>(s: seq<T>, key: T -> int, v: int)
    requires forall p :: p in s ==> key(p) != v
    ensures Select(s, key, v) == []
  {
    if s != [] {
      assert s[|s| - 1] in s;
      SelectAbsent(s[..|s| - 1], key, v);
    }
  }

  lemma {:induction false} SelectMember<T>(s: seq<T>, key: T -> int, v: int)
    ensures forall p :: p in Select(s, key, v) <==> p in s && key(p) == v
  {
    if s != [] {
      SelectMember(s[..|s| - 1], key, v);
      assert s == s[..|s| - 1] + [s[|s| - 1]];
    }
  }

  /** The state of a filter's scan: the running minimum, the paths kept and those dropped. */
  datatype Scan<T> = Scan(low: int, kept: seq<T>, removed: seq<T>)

  function Absorb<T>(scan: Scan<T>, p: T, key: T -> int): Scan<T> {
    if key(p) > scan.low then scan.(removed := scan.removed + [p])
    else if key(p) < scan.low then Scan(key(p), [p], scan.removed + scan.kept)
    else scan.(kept := scan.kept + [p])
  }

  function ScanLowest<T>(s: seq<T>, key: T -> int, bound: int): Scan<T> {
    if s == [] then Scan(bound, [], [])
    else Absorb(ScanLowest(s[..|s| - 1], key, bound), s[|s| - 1], key)
  }

  lemma ScanNone<T>(key: T -> int, bound: int)
    ensures ScanLowest([], key, bound) == Scan(bound, [], [])
  {
  }

  lemma ScanNext<T>(s: seq<T>, key: T -> int, bound: int, i: nat)
    requires i < |s|
    ensures ScanLowest(s[..i + 1], key, bound) == Absorb(ScanLowest(s[..i], key, bound), s[i], key)
  {
    hide Absorb;
    assert s[..i + 1][..i] == s[..i];
  }

  lemma AbsorbSelects<T>(s: seq<T>, key: T -> int, bound: int, scan: Scan<T>, p: T)
    requires s != []
    requires if Lowest(s, key) <= bound then scan.low == Lowest(s, key) && scan.kept == Select(s, key, scan.low) != []
             else scan == Scan(bound, [], s)
    ensures var (scan', t) := (Absorb(scan, p, key), s + [p]);
            if Lowest(t, key) <= bound then scan'.low == Lowest(t, key) && scan'.kept == Select(t, key, scan'.low) != []
            else scan' == Scan(bound, [], t)
  {
    assert (s + [p])[..|s|] == s;
    LowestIsLeast(s, key);
    if key(p) < Lowest(s, key) { SelectAbsent(s, key, key(p)); }
  }

  lemma ScanSelectsOne<T>(p: T, key: T -> int, bound: int)
    ensures var (scan, low) := (ScanLowest([p], key, bound), Lowest([p], key));
            if low <= bound then scan.low == low && scan.kept == Select([p], key, low) == [p]
            else scan == Scan(bound, [], [p])
  {
    assert Select([], key, key(p)) == [] && ScanLowest([], key, bound) == Scan(bound, [], []);
    assert [p][..0] == [];
  }

  /** A scan keeps the paths of lowest key, in their order. */
  lemma {:induction false} ScanSelects<T>(s: seq<T>, key: T -> int, bound: int)
    requires s != []
    ensures var (scan, low) := (ScanLowest(s, key, bound), Lowest(s, key));
            if low <= bound then scan.low == low && scan.kept == Select(s, key, low) != []
            else scan == Scan(bound, [], s)
  {
    hide Absorb, Select, Lowest;
    var init, p := s[..|s| - 1], s[|s| - 1];
    assert s == init + [p];
    if init == [] {
      ScanSelectsOne(p, key, bound);
    } else {
      ScanSelects(init, key, bound);
      AbsorbSelects(init, key, bound, ScanLowest(init, key, bound), p);
    }
  }

  lemma AbsorbConserves<T>(s: seq<T>, scan: Scan<T>, p: T, key: T -> int)
    requires multiset(scan.kept) + multiset(scan.removed) == multiset(s)
    ensures multiset(Absorb(scan, p, key).kept) + multiset(Absorb(scan, p, key).removed) == multiset(s + [p])
  {
    assert multiset(scan.removed + [p]) == multiset(scan.removed) + multiset{p};
    assert multiset(scan.removed + scan.kept) == multiset(scan.removed) + multiset(scan.kept);
    assert multiset(scan.kept + [p]) == multiset(scan.kept) + multiset{p};
  }

  /** A scan neither loses nor duplicates a path. */
  lemma {:induction false} ScanConserves<T>(s: seq<T>, key: T -> int, bound: int)
    ensures multiset(ScanLowest(s, key, bound).kept) + multiset(ScanLowest(s, key, bound).removed) == multiset(s)
  {
    if s != [] {
      var init, p := s[..|s| - 1], s[|s| - 1];
      ScanConserves(init, key, bound);
      hide Absorb;
      AbsorbConserves(init, ScanLowest(init, key, bound), p, key);
      assert s == init + [p];
    }
  }

  /** The slice left by a filter: if the scan kept nothing, the slice is not cut. */
  function Cut<T>(s: seq<T>, scan: Scan<T>): seq<T> {
    if scan.kept == [] then s else scan.kept
  }

  /**
   The loop shared by the preference, AS-count, router-id and cluster-list filters:
   `bound` is the value the running minimum starts from.
   */
  method KeepLowest<T>(a: array<T>, n: nat, key: T -> int, bound: int)
    returns (m: nat, removed: seq<T>)
    requires 0 < n <= a.Length
    modifies a
    ensures 0 < m <= n
    ensures var scan := ScanLowest(old(a[..n]), key, bound);
            a[..m] == Cut(old(a[..n]), scan) && removed == scan.removed
  {
    hide ScanLowest;
    ghost var s, kept := a[..n], [];
    var low, idx, i := bound, 0, 0;
    removed := [];
    ScanNone(key, bound);
    while i < n
      invariant 0 <= idx <= i <= n && idx == |kept|
      invariant forall j :: i <= j < n ==> a[j] == s[j]
      invariant forall j :: 0 <= j < idx ==> a[j] == kept[j]
      invariant idx == 0 ==> forall j :: 0 <= j < n ==> a[j] == s[j]
      invariant ScanLowest(s[..i], key, bound) == Scan(low, kept, removed)
    {
      var path := a[i];
      ScanNext(s, key, bound, i);
      if key(path) > low {
        removed := removed + [path];
      } else if key(path) < low {
        assert a[..idx] == kept;
        removed := removed + a[..idx];
        low := key(path);
        a[0] := path;
        idx := 1;
        kept := [path];
      } else {
        a[idx] := path;
        idx := idx + 1;
        kept := kept + [path];
      }
      i := i + 1;
    }
    assert s[..n] == s;
    m := if idx > 0 then idx else n;
    assert a[..m] == Cut(s, Scan(low, kept, removed));
  }

  // ---------- What a filter promises ----------

  /** `kept` are the members of `s` with the lowest key of `key`, `removed` the others. */
  ghost predicate Sieved<T>(key: T -> int, s: seq<T>, kept: seq<T>, removed: seq<T>)
  {
    && kept != []
    && multiset(kept) + multiset(removed) == multiset(s)
    && (forall p, q :: p in kept && q in s ==> key(p) <= key(q))
    && (forall p, q :: p in removed && q in kept ==> key(q) < key(p))
    && (kept[0] == s[0] || s[0] in removed)
  }

  lemma {:induction false} SelectCount<T>(s: seq<T>, key: T -> int, v: int, p: T)
    ensures multiset(Select(s, key, v))[p] == if key(p) == v then multiset(s)[p] else 0
  {
    if s != [] {
      SelectCount(s[..|s| - 1], key, v, p);
      assert s == s[..|s| - 1] + [s[|s| - 1]];
    }
  }

  lemma {:induction false} SelectFirst<T>(s: seq<T>, key: T -> int, v: int)
    requires s != [] && key(s[0]) == v
    ensures Select(s, key, v) != [] && Select(s, key, v)[0] == s[0]
  {
    if |s| > 1 { SelectFirst(s[..|s| - 1], key, v); }
  }

  lemma {:induction false} SelectAppend<T>(s: seq<T>, t: seq<T>, key: T -> int, v: int)
    ensures Select(s + t, key, v) == Select(s, key, v) + Select(t, key, v)
  {
    if t == [] {
      assert s + t == s;
    } else {
      SelectAppend(s, t[..|t| - 1], key, v);
      assert (s + t)[..|s + t| - 1] == s + t[..|t| - 1];
    }
  }

  /** Selecting twice is selecting by the conjunction. */
  lemma {:induction false} SelectTwice<T>(s: seq<T>, f: T -> int, u: int, g: T -> int, v: int, h: T -> int, w: int)
    requires forall p :: p in s ==> (f(p) == u && g(p) == v <==> h(p) == w)
    ensures Select(Select(s, f, u), g, v) == Select(s, h, w)
  {
    if s != [] {
      var init, last := s[..|s| - 1], s[|s| - 1];
      SelectTwice(init, f, u, g, v, h, w);
      var tail := if f(last) == u then [last] else [];
      SelectAppend(Select(init, f, u), tail, g, v);
      assert Select([], g, v) == [];
      assert [last][..0] == [];
      assert last in s;
    }
  }

  lemma {:induction false} SelectAll<T>(s: seq<T>, key: T -> int, v: int)
    requires forall p :: p in s ==> key(p) == v
    ensures Select(s, key, v) == s
  {
    if s != [] {
      SelectAll(s[..|s| - 1], key, v);
      assert s == s[..|s| - 1] + [s[|s| - 1]];
      assert s[|s| - 1] in s;
    }
  }

  /** `kept` has exactly the members of `s` of lowest key, however often. */
  ghost predicate Narrows<T>(key: T -> int, s: seq<T>, kept: seq<T>) {
    && kept != []
    && (forall p :: p in kept ==> p in s && forall q :: q in s ==> key(p) <= key(q))
    && (forall p :: p in s && (forall q :: q in s ==> key(p) <= key(q)) ==> p in kept)
  }

  lemma SieveNarrows<T>(key: T -> int, s: seq<T>, kept: seq<T>, removed: seq<T>)
    requires s != [] && Sieved(key, s, kept, removed)
    ensures Narrows(key, s, kept)
  {
    forall p | p in s ensures p in kept || p in removed { assert p in multiset(kept) + multiset(removed); }
    forall p | p in kept ensures p in s { assert p in multiset(kept) && p in multiset(s); }
    assert kept[0] in kept;
  }

  lemma SelectSieves<T>(key: T -> int, s: seq<T>, kept: seq<T>, removed: seq<T>)
    requires s != []
    requires kept == Select(s, key, Lowest(s, key))
    requires multiset(kept) + multiset(removed) == multiset(s)
    ensures Sieved(key, s, kept, removed)
  {
    var low := Lowest(s, key);
    LowestIsLeast(s, key);
    SelectMember(s, key, low);
    forall p | p in s ensures p in kept <==> key(p) == low {}
    forall p | p in removed ensures p in s && low < key(p) {
      SelectCount(s, key, low, p);
      assert p in multiset(removed);
      assert p in multiset(s);
    }
    if key(s[0]) == low {
      SelectFirst(s, key, low);
    } else {
      assert s[0] in multiset(s);
      SelectCount(s, key, low, s[0]);
      assert s[0] in multiset(removed);
    }
  }

  /** A filter sieves its input exactly when some key is within its initial bound. */
  lemma FilterExact<T>(key: T -> int, s: seq<T>, bound: int)
    requires s != []
    ensures var scan := ScanLowest(s, key, bound);
            Sieved(key, s, Cut(s, scan), scan.removed) <==> Lowest(s, key) <= bound
  {
    var scan := ScanLowest(s, key, bound);
    ScanSelects(s, key, bound);
    ScanConserves(s, key, bound);
    if Lowest(s, key) <= bound {
      SelectSieves(key, s, scan.kept, scan.removed);
    } else {
      assert |multiset(s) + multiset(s)| == 2 * |s| && |multiset(s)| == |s|;
    }
  }

  // ---------- Deleting by swapping with the last ----------

  /** Deletes the elements of non-zero key from slot `i` of the slice `live` on. */
  function SwapOut<T>(live: seq<T>, key: T -> int, i: nat, removed: seq<T>): (r: (seq<T>, seq<T>))
    requires i <= |live|
    decreases |live| - i
  {
    if i == |live| then (live, removed)
    else if key(live[i]) == 0 then SwapOut(live, key, i + 1, removed)
    else SwapOut(live[i := live[|live| - 1]][..|live| - 1], key, i, removed + [live[i]])
  }

  lemma DropSwapped<T>(live: seq<T>, i: nat)
    requires i < |live|
    ensures multiset(live[i := live[|live| - 1]][..|live| - 1]) + multiset{live[i]} == multiset(live)
  {
    var n := |live| - 1;
    var swapped := live[i := live[n]];
    assert live == live[..n] + [live[n]];
    assert swapped == swapped[..n] + [swapped[n]];
    assert multiset(swapped) == multiset(live) - multiset{live[i]} + multiset{live[n]};
    if i == n { assert swapped == live; }
  }

  lemma {:induction false} SwapOutConserves<T>(live: seq<T>, key: T -> int, i: nat, removed: seq<T>)
    requires i <= |live|
    ensures var (kept, gone) := SwapOut(live, key, i, removed);
            multiset(kept) + multiset(gone) == multiset(live) + multiset(removed) && |kept| <= |live|
    decreases |live| - i
  {
    if i < |live| {
      if key(live[i]) == 0 {
        SwapOutConserves(live, key, i + 1, removed);
      } else {
        DropSwapped(live, i);
        SwapOutConserves(live[i := live[|live| - 1]][..|live| - 1], key, i, removed + [live[i]]);
      }
    }
  }

  lemma {:induction false} SwapOutSeparates<T>(live: seq<T>, key: T -> int, i: nat, removed: seq<T>)
    requires i <= |live|
    requires forall j :: 0 <= j < i ==> key(live[j]) == 0
    requires forall p :: p in removed ==> key(p) != 0
    ensures var (kept, gone) := SwapOut(live, key, i, removed);
            (forall p :: p in kept ==> key(p) == 0) && (forall p :: p in gone ==> key(p) != 0)
    decreases |live| - i
  {
    if i < |live| {
      if key(live[i]) == 0 {
        SwapOutSeparates(live, key, i + 1, removed);
      } else {
        SwapOutSeparates(live[i := live[|live| - 1]][..|live| - 1], key, i, removed + [live[i]]);
      }
    }
  }

  lemma {:induction false} SwapOutFirst<T>(live: seq<T>, key: T -> int, i: nat, removed: seq<T>)
    requires i <= |live| && live != [] && key(live[0]) == 0
    ensures var (kept, gone) := SwapOut(live, key, i, removed); kept != [] && kept[0] == live[0]
    decreases |live| - i
  {
    if i < |live| {
      if key(live[i]) == 0 {
        SwapOutFirst(live, key, i + 1, removed);
      } else {
        SwapOutFirst(live[i := live[|live| - 1]][..|live| - 1], key, i, removed + [live[i]]);
      }
    }
  }

  /** What has been passed stays where it is. */
  lemma {:induction false} SwapOutPassed<T>(live: seq<T>, key: T -> int, i: nat, removed: seq<T>)
    requires i <= |live|
    ensures live[..i] <= SwapOut(live, key, i, removed).0
    decreases |live| - i
  {
    if i < |live| {
      if key(live[i]) == 0 {
        SwapOutPassed(live, key, i + 1, removed);
        assert live[..i] <= live[..i + 1];
      } else {
        SwapOutPassed(live[i := live[|live| - 1]][..|live| - 1], key, i, removed + [live[i]]);
      }
    }
  }

  /** If the first element goes, the last of the best kind takes its place. */
  lemma {:induction false} SwapOutLast<T>(live: seq<T>, key: T -> int, n: nat, removed: seq<T>)
    requires n < |live| && key(live[0]) != 0 && key(live[n]) == 0
    requires forall j :: n < j < |live| ==> key(live[j]) != 0
    ensures var kept := SwapOut(live, key, 0, removed).0; kept != [] && kept[0] == live[n]
    decreases |live|
  {
    var last := |live| - 1;
    var live' := live[0 := live[last]][..last];
    if n == last {
      SwapOutFirst(live', key, 0, removed + [live[0]]);
    } else {
      SwapOutLast(live', key, n, removed + [live[0]]);
    }
  }

  lemma SwapOutSieves<T>(s: seq<T>, key: T -> int, best: T)
    requires best in s && key(best) == 0
    requires forall p :: p in s ==> key(p) >= 0
    ensures var (kept, removed) := SwapOut(s, key, 0, []); Sieved(key, s, kept, removed) && |kept| <= |s|
  {
    var (kept, removed) := SwapOut(s, key, 0, []);
    SwapOutConserves(s, key, 0, []);
    SwapOutSeparates(s, key, 0, []);
    hide SwapOut;
    assert multiset(kept) + multiset(removed) == multiset(s);
    forall p | p in kept || p in removed ensures p in s {
      assert p in multiset(kept) || p in multiset(removed);
      assert p in multiset(s);
    }
    assert best in multiset(s) && best !in multiset(removed);
    assert best in multiset(kept);
    assert s[0] in multiset(s);
    if key(s[0]) == 0 {
      SwapOutFirst(s, key, 0, []);
    } else {
      assert s[0] !in multiset(kept);
      assert s[0] in multiset(removed);
    }
  }
}
