/**
 The system's routing table for one destination, as a fold over the calls made to
 the route manager.
 */
module RibTables {
  import opened Ranking
  import opened Wrappers

  datatype RibCall = CreateRoute(hop: nat) | AddHop(hop: nat) | RemoveHop(hop: nat)

  /**
   One call; None if it does not fit: a route created where hops exist, a hop added
   where there is no route, added twice, or removed where it is not.
   */
  ghost function Called(t: set<nat>, c: RibCall): Option<set<nat>> {
    match c
    case CreateRoute(h) => if t == {} then Some({h}) else None
    case AddHop(h) => if t == {} || h in t then None else Some(t + {h})
    case RemoveHop(h) => if h in t then Some(t - {h}) else None
  }

  /** The next hops after a sequence of calls; None once a call did not fit. */
  ghost function Table(calls: seq<RibCall>): Option<set<nat>> {
    if calls == [] then Some({})
    else
      var before := Table(calls[..|calls| - 1]);
      if before.None? then None else Called(before.value, calls[|calls| - 1])
  }

  lemma TableSnoc(calls: seq<RibCall>, c: RibCall)
    requires Table(calls).Some?
    ensures Table(calls + [c]) == Called(Table(calls).value, c)
  {
    hide Called;
    assert (calls + [c])[..|calls|] == calls;
  }

  /** The next hops of the paths in `s` that belong in the routing table. */
  ghost function Hops(s: set<Path>): set<nat> {
    set p | p in s && p.Programmed() :: p.nextHop
  }

  ghost predicate DistinctHops(s: set<Path>) {
    forall p, q :: p in s && q in s && p.nextHop == q.nextHop ==> p == q
  }

  lemma HopsWithout(s: set<Path>, p: Path)
    requires DistinctHops(s) && p in s
    ensures Hops(s - {p}) == if p.Programmed() then Hops(s) - {p.nextHop} else Hops(s)
    ensures p.Programmed() ==> p.nextHop in Hops(s)
  {
  }

  /** The paths among `chosen` that are new and belong in the routing table, in order. */
  function NewlyProgrammed(chosen: seq<Path>, before: set<Path>): seq<Path> {
    if chosen == [] then []
    else
      var last := chosen[|chosen| - 1];
      NewlyProgrammed(chosen[..|chosen| - 1], before)
        + (if last !in before && last.Programmed() then [last] else [])
  }

  lemma NewlyProgrammedNext(chosen: seq<Path>, last: Path, before: set<Path>)
    ensures NewlyProgrammed(chosen + [last], before) ==
            NewlyProgrammed(chosen, before) + (if last !in before && last.Programmed() then [last] else [])
  {
    assert (chosen + [last])[..|chosen|] == chosen;
  }

  ghost predicate HopsApart(chosen: seq<Path>) {
    forall i, j :: 0 <= i < j < |chosen| ==> chosen[i].nextHop != chosen[j].nextHop
  }

  /** The chosen hops are the kept ones and the new ones, with nothing counted twice. */
  lemma {:induction false} Reprogrammed(chosen: seq<Path>, before: set<Path>)
    requires HopsApart(chosen)
    ensures HopsApart(NewlyProgrammed(chosen, before))
    ensures forall p :: p in NewlyProgrammed(chosen, before) <==> p in chosen && p !in before && p.Programmed()
  {
    if chosen != [] {
      var init := chosen[..|chosen| - 1];
      var last := chosen[|chosen| - 1];
      Reprogrammed(init, before);
      assert chosen == init + [last];
      assert forall p :: p in chosen <==> p in init || p == last;
      assert forall p :: p in init ==> exists i :: 0 <= i < |init| && p == chosen[i];
      NewlyProgrammedNext(init, last, before);
      var created := NewlyProgrammed(init, before);
      forall k | 0 <= k < |created| ensures created[k].nextHop != last.nextHop {
        assert created[k] in created;
      }
    }
  }

  ghost function PathHops(s: seq<Path>): set<nat> {
    set p | p in s :: p.nextHop
  }

  lemma NoPathHops()
    ensures PathHops([]) == {}
  {
  }

  lemma PathHopsOf(s: seq<Path>, i: nat)
    requires i < |s| && HopsApart(s)
    ensures s[i].nextHop !in PathHops(s[..i])
  {
  }

  lemma PathHopsNext(s: seq<Path>, i: nat)
    requires i < |s|
    ensures PathHops(s[..i + 1]) == PathHops(s[..i]) + {s[i].nextHop}
  {
    assert s[..i + 1] == s[..i] + [s[i]];
    assert forall p :: p in s[..i + 1] <==> p in s[..i] || p == s[i];
  }

  /** Hops kept from `before` and hops newly created together are those of `chosen`. */
  lemma ChosenHops(chosen: seq<Path>, before: set<Path>, kept: set<Path>)
    requires HopsApart(chosen)
    requires forall p :: p in kept <==> p in before && p in chosen
    ensures var created := NewlyProgrammed(chosen, before);
            && HopsApart(created) && (forall p :: p in created ==> p.nextHop !in Hops(kept))
            && Hops(kept) + PathHops(created) == Hops(set p | p in chosen)
    ensures DistinctHops(set p | p in chosen)
  {
    var created := NewlyProgrammed(chosen, before);
    var all := set p | p in chosen;
    Reprogrammed(chosen, before);
    hide NewlyProgrammed;
    forall p, q | p in chosen && q in chosen && p.nextHop == q.nextHop ensures p == q {
      var i :| 0 <= i < |chosen| && chosen[i] == p;
      var j :| 0 <= j < |chosen| && chosen[j] == q;
    }
    forall p | p in created ensures p.nextHop !in Hops(kept) {
      assert p in chosen && p !in before;
    }
    forall h | h in Hops(all) ensures h in Hops(kept) + PathHops(created) {
      var p :| p in all && p.Programmed() && p.nextHop == h;
      if p in before { assert p in kept; } else { assert p in created; }
    }
    forall h | h in Hops(kept) + PathHops(created) ensures h in Hops(all) {
      if h in Hops(kept) {
        var p :| p in kept && p.Programmed() && p.nextHop == h;
        assert p in all;
      } else {
        var p :| p in created && p.nextHop == h;
        assert p in all && p.Programmed();
      }
    }
  }
}
