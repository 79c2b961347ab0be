/**
 What a selection among the paths of a destination must yield, stated from scratch,
 and why adding or withdrawing a path may skip it.
 */
module Selections {
  import opened AnyOrders
  import opened BestPaths
  import opened ChainGuards
  import opened Decisions
  import opened PathIndexes
  import opened Ranking
  import opened RibTables
  import opened Wrappers

  // ---------- Selection from scratch ----------

  predicate Eligible(p: Path) {
    p.reachable && !p.asLoop
  }

  function SourceRank(p: Path): nat {
    if p.source.Local? then 1 else 2
  }

  /** `p` is at least as good as `q`: by source first, then by the order of the filters. */
  predicate AsGood(p: Path, q: Path) {
    SourceRank(p) < SourceRank(q) || (SourceRank(p) == SourceRank(q) && NotAfter(STAGES, p, q))
  }

  ghost predicate IsBest(p: Path, candidates: set<Path>) {
    p in candidates && forall q :: q in candidates ==> AsGood(p, q)
  }

  ghost function Candidates(peers: map<Key, Path>): set<Path> {
    set k | k in peers && Eligible(peers[k]) :: peers[k]
  }

  /** Of no worse source than any other candidate. */
  ghost predicate BestSource(p: Path, candidates: set<Path>) {
    p in candidates && forall q :: q in candidates ==> SourceRank(p) <= SourceRank(q)
  }

  ghost function BestSources(candidates: set<Path>): set<Path> {
    set p | p in candidates && BestSource(p, candidates)
  }

  ghost function HopSet(s: set<Path>): set<nat> {
    set p | p in s :: p.nextHop
  }

  /** Which kinds of session may contribute more than one path. */
  datatype Multi = Multi(ebgp: bool, ibgp: bool)

  /**
   The equal-cost paths among candidates of one source: those tied up to the origin if
   multipath is on for both kinds of session, and those of its kind tied up to the kind
   of session if it is on for one.
   */
  ghost function EqualCost(c: set<Path>, multi: Multi): set<Path> {
    set p | p in c &&
      if multi.ebgp && multi.ibgp then MinimumOf(3, p, c)
      else multi.ebgp != multi.ibgp && MinimumOf(4, p, c) && p.ebgp == multi.ebgp
  }

  /** Nothing but the choice and equal-cost paths is installed, and all their next hops are covered. */
  ghost predicate Covers(best: Path, installed: set<Path>, c: set<Path>, multi: Multi) {
    && best in installed
    && installed <= EqualCost(c, multi) + {best}
    && HopSet(installed) == HopSet(EqualCost(c, multi) + {best})
  }

  /**
   There is a choice if there is a candidate.  It and the installed paths are of the best
   source and, among the paths of that source, of the highest preference.
   */
  ghost predicate Settled(peers: map<Key, Path>, choice: Option<Path>, installed: set<Path>) {
    match choice
    case None => Candidates(peers) == {} && installed == {}
    case Some(best) =>
      && BestSource(best, Candidates(peers))
      && best in installed
      && (forall p :: p in installed ==> BestSource(p, Candidates(peers)) && p.pref == best.pref)
      && (forall p :: p in BestSources(Candidates(peers)) ==> p.pref <= best.pref)
  }

  lemma CandidatesAfterAdd(peers: map<Key, Path>, key: Key, path: Path)
    ensures forall p :: p in Candidates(peers[key := path]) ==> p == path || p in Candidates(peers)
    ensures forall p :: p in Candidates(peers) && !(key in peers && peers[key] == p) ==>
              p in Candidates(peers[key := path])
  {
    var peers' := peers[key := path];
    forall p | p in Candidates(peers) && !(key in peers && peers[key] == p) ensures p in Candidates(peers') {
      var k :| k in peers && Eligible(peers[k]) && peers[k] == p;
      assert peers'[k] == p;
    }
  }

  /** A neighbor's path cannot displace a local choice, so no new selection is needed. */
  lemma AddKeepsSettled(
    peers: map<Key, Path>, best: Path, installed: set<Path>, multi: Multi, key: Key, path: Path)
    requires Settled(peers, Some(best), installed)
    requires OneKeyEach(peers) && !Live(path, peers)
    requires best.source.Local? && path.source.External?
    requires key in peers ==> peers[key].source.External?
    ensures Settled(peers[key := path], Some(best), installed)
    ensures BestSources(Candidates(peers[key := path])) == BestSources(Candidates(peers))
    ensures IsBest(best, Candidates(peers)) ==> IsBest(best, Candidates(peers[key := path]))
  {
    var before, after := Candidates(peers), Candidates(peers[key := path]);
    hide Candidates, NotAfter;
    CandidatesAfterAdd(peers, key, path);
    assert SourceRank(best) == 1;
    forall p ensures p in BestSources(before) <==> p in BestSources(after) {
      assert BestSource(best, after);
    }
  }

  /** What is minimal among fewer candidates is so among all, if a minimum of all stays. */
  lemma MinimumWithout(k: nat, c: set<Path>, q: Path, best: Path, p: Path)
    requires k <= STAGES && MinimumOf(STAGES, best, c) && q in c && q != best && p != q
    ensures MinimumOf(k, p, c) <==> MinimumOf(k, p, c - {q})
  {
    if MinimumOf(k, p, c - {q}) {
      assert NotAfter(k, p, best);
      NotAfterPrefix(k, STAGES, best, q);
      NotAfterTransitive(k, p, best, q);
    }
  }

  lemma CoversWithout(best: Path, installed: set<Path>, c: set<Path>, multi: Multi, q: Path)
    requires Covers(best, installed, c, multi) && MinimumOf(STAGES, best, c) && q in c && q !in installed
    ensures Covers(best, installed, c - {q}, multi)
  {
    forall p | p in c && p != q
      ensures p in EqualCost(c, multi) <==> p in EqualCost(c - {q}, multi)
    {
      MinimumWithout(3, c, q, best, p);
      MinimumWithout(4, c, q, best, p);
    }
    assert EqualCost(c - {q}, multi) == EqualCost(c, multi) - {q};
    hide EqualCost;
  }

  lemma CandidatesAfterRemove(peers: map<Key, Path>, key: Key)
    requires OneKeyEach(peers) && key in peers
    ensures Candidates(peers - {key}) == Candidates(peers) - {peers[key]}
  {
    var peers' := peers - {key};
    forall p ensures p in Candidates(peers') <==> p in Candidates(peers) && p != peers[key] {
      if p in Candidates(peers) && p != peers[key] {
        var k :| k in peers && Eligible(peers[k]) && peers[k] == p;
        assert peers'[k] == p;
      }
      if p in Candidates(peers') {
        var k :| k in peers' && Eligible(peers'[k]) && peers'[k] == p;
        assert peers[k] == p;
      }
    }
  }

  lemma BestIsMinimum(best: Path, candidates: set<Path>)
    requires IsBest(best, candidates)
    ensures BestSource(best, candidates) && MinimumOf(STAGES, best, BestSources(candidates))
  {
    forall q | q in candidates ensures SourceRank(best) <= SourceRank(q) { assert AsGood(best, q); }
  }

  /** Withdrawing a path that is not installed leaves the choice right. */
  lemma RemoveKeepsSettled(
    peers: map<Key, Path>, choice: Option<Path>, installed: set<Path>, multi: Multi, key: Key)
    requires Settled(peers, choice, installed)
    requires OneKeyEach(peers) && key in peers && peers[key] !in installed
    ensures Settled(peers - {key}, choice, installed)
    ensures choice.Some? && IsBest(choice.value, Candidates(peers)) ==>
              && IsBest(choice.value, Candidates(peers - {key}))
              && (Covers(choice.value, installed, BestSources(Candidates(peers)), multi) ==>
                    Covers(choice.value, installed, BestSources(Candidates(peers - {key})), multi))
  {
    var q, before := peers[key], Candidates(peers);
    CandidatesAfterRemove(peers, key);
    hide Candidates, OneKeyEach, Covers, AsGood;
    if choice.Some? {
      var best, c := choice.value, BestSources(before);
      assert best in before && best != q;
      assert BestSources(before - {q}) == c - {q};
      if IsBest(best, before) && Covers(best, installed, c, multi) {
        BestIsMinimum(best, before);
        if q in c { CoversWithout(best, installed, c, multi, q); } else { assert c - {q} == c; }
      }
    }
  }

  // ---------- The same in the fields of the paths ----------

  /**
   What is chosen and installed can be read off the paths announced: reachable and free of
   loops, a local one if there is any, and of the highest preference among its kind.
   There is no choice if and only if every path is unreachable or looped.
   */
  lemma SettledInFields(peers: map<Key, Path>, choice: Option<Path>, installed: set<Path>)
    requires Settled(peers, choice, installed)
    ensures choice == None <==> forall k :: k in peers ==> !peers[k].reachable || peers[k].asLoop
    ensures choice.Some? ==> choice.value.reachable && !choice.value.asLoop
    ensures if choice == None then installed == {} else choice.value in installed
    ensures forall p :: p in installed ==>
              && p.reachable && !p.asLoop && Live(p, peers)
              && choice.Some? && p.source == choice.value.source && p.pref == choice.value.pref
    ensures choice.Some? ==>
              forall k :: k in peers && peers[k].reachable && !peers[k].asLoop ==>
                if peers[k].source == choice.value.source then peers[k].pref <= choice.value.pref
                else choice.value.source.Local?
  {
    assert forall k :: k in peers && Eligible(peers[k]) ==> peers[k] in Candidates(peers);
    if choice.Some? {
      forall p | p in installed ensures p.source == choice.value.source {
        assert SourceRank(p) == SourceRank(choice.value);
      }
      forall k | k in peers && peers[k].reachable && !peers[k].asLoop
        ensures if peers[k].source == choice.value.source then peers[k].pref <= choice.value.pref
                else choice.value.source.Local?
      {
        if peers[k].source == choice.value.source { assert peers[k] in BestSources(Candidates(peers)); }
      }
    }
  }

  /** No path of the kind of the best one outranks it. */
  lemma BestInFields(peers: map<Key, Path>, best: Path)
    requires IsBest(best, Candidates(peers))
    ensures forall k :: k in peers && peers[k].reachable && !peers[k].asLoop && peers[k].source == best.source ==>
              !Outranks(peers[k], best)
  {
    hide Outranks;
    forall k | k in peers && peers[k].reachable && !peers[k].asLoop && peers[k].source == best.source
      ensures !Outranks(peers[k], best)
    {
      assert peers[k] in Candidates(peers);
      assert AsGood(best, peers[k]);
      Trichotomy(STAGES, best, peers[k]);
      BeforeExact(peers[k], best);
    }
  }

  /** Minima of `k` keys are tied on them, and what is tied with a minimum is one. */
  lemma MinimaTied(k: nat, c: set<Path>, best: Path, p: Path)
    requires k <= STAGES && MinimumOf(STAGES, best, c) && p in c
    ensures MinimumOf(k, p, c) <==> Tied(k, p, best)
  {
    assert NotAfter(STAGES, best, p);
    NotAfterPrefix(k, STAGES, best, p);
    Trichotomy(k, p, best);
    if MinimumOf(k, p, c) {
      assert NotAfter(k, p, best);
    }
    if Tied(k, p, best) {
      forall q | q in c ensures NotAfter(k, p, q) {
        assert NotAfter(STAGES, best, q);
        NotAfterPrefix(k, STAGES, best, q);
        NotAfterTransitive(k, p, best, q);
      }
    }
  }

  /** Two paths share the traffic if they are alike in preference, AS count, origin and, unless both kinds may, kind. */
  predicate SharesWith(p: Path, best: Path, multi: Multi) {
    && p.source == best.source && p.pref == best.pref && p.asCount == best.asCount && p.origin == best.origin
    && (multi.ebgp || multi.ibgp) && (multi.ebgp == multi.ibgp || p.ebgp == best.ebgp == multi.ebgp)
  }

  /** Besides the choice exactly the paths that share with it are installed, one for each next hop. */
  lemma CoversInFields(peers: map<Key, Path>, best: Path, installed: set<Path>, multi: Multi)
    requires IsBest(best, Candidates(peers))
    requires Covers(best, installed, BestSources(Candidates(peers)), multi)
    ensures best in installed && forall p :: p in installed ==> p == best || SharesWith(p, best, multi)
    ensures forall k :: k in peers && peers[k].reachable && !peers[k].asLoop && SharesWith(peers[k], best, multi) ==>
              exists q :: q in installed && q.nextHop == peers[k].nextHop
  {
    var c := BestSources(Candidates(peers));
    BestIsMinimum(best, Candidates(peers));
    forall p | p in c ensures p in EqualCost(c, multi) <==> SharesWith(p, best, multi) {
      assert SourceRank(p) == SourceRank(best);
      MinimaTied(3, c, best, p);
      MinimaTied(4, c, best, p);
      TiedFields(p, best);
    }
    hide EqualCost, SharesWith;
    forall k | k in peers && peers[k].reachable && !peers[k].asLoop && SharesWith(peers[k], best, multi)
      ensures exists q :: q in installed && q.nextHop == peers[k].nextHop
    {
      assert peers[k] in Candidates(peers) && peers[k] in c;
      assert peers[k].nextHop in HopSet(EqualCost(c, multi) + {best});
    }
  }

  /** The routing table has the next hop of every installed path that is external or an aggregate, and no other. */
  lemma TableInFields(installed: set<Path>, calls: seq<RibCall>)
    requires RibAgrees(installed, calls)
    ensures Table(calls) == Some(set p | p in installed && (p.source.External? || p.aggregate) :: p.nextHop)
    ensures forall p, q :: p in installed && q in installed && p.nextHop == q.nextHop ==> p == q
  {
    hide Table;
    assert Hops(installed) == set p | p in installed && (p.source.External? || p.aggregate) :: p.nextHop;
  }

  /** Only the router itself announces local paths. */
  ghost predicate SourcesValid(peers: map<Key, Path>) {
    forall k :: k in peers ==> (peers[k].source.Local? <==> k == LOCAL_KEY)
  }

  /** A path that stays out of the routing table is local, and then there is no other of the best source. */
  ghost predicate AllProgrammedOrAlone(s: seq<Path>) {
    forall p, q :: p in s && q in s ==> p.Programmed() || p == q
  }

  lemma LocalAlone(peers: map<Key, Path>, order: seq<Path>)
    requires SourcesValid(peers) && forall p :: p in order ==> BestSource(p, Candidates(peers))
    ensures AllProgrammedOrAlone(order)
  {
    forall p, q | p in order && q in order && !p.Programmed() ensures p == q {
      assert SourceRank(q) <= SourceRank(p) == 1;
      var k :| k in peers && Eligible(peers[k]) && peers[k] == p;
      var l :| l in peers && Eligible(peers[l]) && peers[l] == q;
    }
  }

  /** The groups of a selection hold candidates only. */
  lemma GroupsWithin(groups: seq<seq<Path>>, order: seq<Path>, multi: Multi)
    requires order != [] && Led(groups, Kept(STAGES, order)[0], SelectedBase(order, multi))
    ensures forall p :: InGroups(p, groups) ==> p in order
  {
    KeptWithin(STAGES, order);
    assert Kept(STAGES, order)[0] in Kept(STAGES, order);
    MultiBaseWithin(order, multi.ebgp, multi.ibgp);
    hide Kept, MultiBase;
  }

  lemma ChosenProgrammed(groups: seq<seq<Path>>, chosen: seq<Path>, before: set<Path>, order: seq<Path>, multi: Multi)
    requires order != [] && Led(groups, Kept(STAGES, order)[0], SelectedBase(order, multi))
    requires Represents(chosen, groups, before) && AllProgrammedOrAlone(order)
    ensures AllProgrammedOrAlone(chosen)
  {
    ChosenInGroups(groups, chosen, before);
    GroupsWithin(groups, order, multi);
    hide Kept, MultiBase, Represents, Led, InGroups;
  }

  /** If a chosen path was installed and another has to be programmed, a next hop is in the table. */
  lemma SomeHopKept(chosen: seq<Path>, before: set<Path>, kept: set<Path>)
    requires AllProgrammedOrAlone(chosen) && HopsApart(chosen)
    requires forall p :: p in kept <==> p in before && p in chosen
    requires exists p :: p in chosen && p in before
    ensures NewlyProgrammed(chosen, before) != [] ==> Hops(kept) != {}
  {
    Reprogrammed(chosen, before);
    var p :| p in chosen && p in before;
    var created := NewlyProgrammed(chosen, before);
    hide NewlyProgrammed;
    if created != [] {
      assert created[0] in created;
      assert p.Programmed() && p.nextHop in Hops(kept);
    }
  }

  ghost predicate ChoiceValid(peers: map<Key, Path>, choice: Option<Path>) {
    choice.Some? ==> choice.value in Candidates(peers)
  }

  lemma ChoiceAfterAdd(peers: map<Key, Path>, choice: Option<Path>, key: Key, path: Path)
    requires ChoiceValid(peers, choice)
    requires key in peers ==> choice != Some(peers[key])
    ensures ChoiceValid(peers[key := path], choice)
  {
    CandidatesAfterAdd(peers, key, path);
  }

  lemma ChoiceAfterRemove(peers: map<Key, Path>, choice: Option<Path>, key: Key)
    requires ChoiceValid(peers, choice)
    requires key in peers ==> choice != Some(peers[key])
    ensures ChoiceValid(peers - {key}, choice)
  {
    if choice.Some? {
      var k :| k in peers && Eligible(peers[k]) && peers[k] == choice.value;
      assert (peers - {key})[k] == choice.value;
    }
  }

  // ---------- The state of a destination ----------

  datatype Action = ActionNone | ActionAdd | ActionReplace | ActionDelete

  /**
   What a destination holds: its indexes, the chosen path, whether a selection is
   due, the installed paths with the action field of their routes, the calls made to
   the route manager, the candidates in the order the last selection met them, and the
   multipath flags.
   */
  datatype State = State(
    ix: Index,
    choice: Option<Path>,
    due: bool,
    installed: map<Path, Action>,
    calls: seq<RibCall>,
    order: seq<Path>,
    multi: Multi)

  /** The routing table has exactly the next hops of the installed set, which are distinct. */
  ghost predicate RibAgrees(installed: set<Path>, calls: seq<RibCall>) {
    DistinctHops(installed) && Table(calls) == Some(Hops(installed))
  }

  ghost predicate Quiet(installed: map<Path, Action>) {
    forall p :: p in installed ==> installed[p] == ActionNone
  }

  /** The invariant of a destination over every run of its operations. */
  ghost predicate Sound(st: State) {
    && IndexValid(st.ix)
    && SourcesValid(st.ix.peers)
    && ChoiceValid(st.ix.peers, st.choice)
    && (!st.due ==> Settled(st.ix.peers, st.choice, st.installed.Keys))
    && RibAgrees(st.installed.Keys, st.calls)
    && Quiet(st.installed)
  }

  lemma SoundFacts(st: State)
    requires Sound(st)
    ensures forall k :: k in st.ix.peers ==> Listed(st.ix, k)
    ensures ChoiceValid(st.ix.peers, st.choice) && OneKeyEach(st.ix.peers) && SourcesValid(st.ix.peers)
  {
    IndexFacts(st.ix);
  }

  /** A withdrawal takes a path out of all indexes. */
  lemma WithdrawnInFields(st: State, key: Key)
    requires Sound(st)
    ensures var ix := Withdrawn(st, key).ix;
            && ix.peers == st.ix.peers - {key}
            && (key in st.ix.peers ==>
                  && ix.routes.Keys == st.ix.routes.Keys - {st.ix.peers[key]}
                  && multiset(ix.list) == multiset(st.ix.list) - multiset{st.ix.peers[key]})
  {
    hide IndexValid, Removed;
    if key in st.ix.peers { RemovedInFields(st.ix, key); } else { assert st.ix.peers - {key} == st.ix.peers; }
  }

  /** An announcement of a path that its key does not have yet. */
  lemma AnnouncedInFields(st: State, key: Key, path: Path)
    requires Sound(st)
    ensures var ix := Announced(st, key, path).ix;
            && ix.peers == st.ix.peers[key := path] && ix.routes.Keys == st.ix.routes.Keys + {path}
            && (key !in st.ix.peers ==> ix.list == st.ix.list + [path])
  {
    SoundFacts(st);
    hide Sound, Added;
    if key in st.ix.peers && st.ix.peers[key] == path {
      assert st.ix.peers[key := path] == st.ix.peers;
    } else {
      AddedInFields(st.ix, key, path);
    }
  }

  /** Every path that a selection meets has a route. */
  lemma OrderRouted(st: State, order: seq<Path>)
    requires Sound(st) && Orders(order, BestSources(Candidates(st.ix.peers)))
    ensures forall p :: p in order ==> p in st.ix.routes
  {
    SoundFacts(st);
    hide Sound;
  }

  function Announced(st: State, key: Key, path: Path): State {
    if key in st.ix.peers && st.ix.peers[key] == path then st
    else
      var choice := if key in st.ix.peers && st.choice == Some(st.ix.peers[key]) then None else st.choice;
      st.(ix := Added(st.ix, key, path),
          choice := choice,
          due := st.due || choice.None? || SourceRank(choice.value) >= SourceRank(path))
  }

  function Withdrawn(st: State, key: Key): State {
    if key !in st.ix.peers then st
    else
      var path := st.ix.peers[key];
      st.(ix := Removed(st.ix, key),
          choice := if st.choice == Some(path) then None else st.choice,
          due := st.due || path in st.installed || st.choice == Some(path))
  }

  lemma EmptySound(multi: Multi)
    ensures Sound(State(Index(map[], map[], [], {}, 1, []), None, false, map[], [], [], multi))
  {
    EmptyIndexValid();
    hide IndexValid;
    var peers: map<Key, Path> := map[];
    var installed: map<Path, Action> := map[];
    assert Candidates(peers) == {};
    assert installed.Keys == {} && Hops({}) == {};
  }

  /** A path object belongs to one key for as long as it is known. */
  lemma AnnouncedSound(st: State, key: Key, path: Path)
    requires Sound(st)
    requires path in st.ix.routes ==> key in st.ix.peers && st.ix.peers[key] == path
    requires path.source.Local? <==> key == LOCAL_KEY
    ensures Sound(Announced(st, key, path))
  {
    hide IndexValid, RibAgrees, Quiet, Settled, ChoiceValid;
    var st' := Announced(st, key, path);
    if st' != st {
      IndexFacts(st.ix);
      AddedValid(st.ix, key, path);
      ChoiceAfterAdd(st.ix.peers, st'.choice, key, path);
      if !st'.due {
        AddKeepsSettled(st.ix.peers, st.choice.value, st.installed.Keys, st.multi, key, path);
      }
    }
  }

  lemma WithdrawnSound(st: State, key: Key)
    requires Sound(st)
    ensures Sound(Withdrawn(st, key))
  {
    hide IndexValid, RibAgrees, Quiet, Settled, ChoiceValid;
    var st' := Withdrawn(st, key);
    if key in st.ix.peers {
      IndexFacts(st.ix);
      RemovedValid(st.ix, key);
      ChoiceAfterRemove(st.ix.peers, st'.choice, key);
      if !st'.due {
        RemoveKeepsSettled(st.ix.peers, st.choice, st.installed.Keys, st.multi, key);
      }
    }
  }

  /** A minimum among the candidates of the best source is the best candidate. */
  lemma MinimumIsBest(best: Path, candidates: set<Path>)
    requires MinimumOf(STAGES, best, BestSources(candidates))
    ensures IsBest(best, candidates)
  {
    forall q | q in candidates ensures AsGood(best, q) {
      assert SourceRank(best) <= SourceRank(q);
      if SourceRank(best) == SourceRank(q) { assert q in BestSources(candidates); }
    }
  }

  /** In a fair order the groups are made of the equal-cost paths. */
  lemma BaseIsEqualCost(order: seq<Path>, c: set<Path>, multi: Multi)
    requires order != [] && Orders(order, c) && Fair(order)
    ensures var best := Kept(STAGES, order)[0];
            forall p :: p in EqualCost(c, multi) + {best} <==>
              p in MultiBase(order, multi.ebgp, multi.ibgp) || p == best
  {
    var best := Kept(STAGES, order)[0];
    FairKept(3, order, c);
    FairKept(4, order, c);
    OneKind(c);
    hide Kept, Fair, MinimumOf;
    assert Kept(4, order)[0] in Kept(4, order);
  }

  /** A choice that is among the candidates of the best source is met first. */
  predicate LedBy(order: seq<Path>, choice: Option<Path>) {
    choice.Some? && choice.value in order ==> order[0] == choice.value
  }

  /** A choice that still ties for best is kept. */
  lemma IncumbentStays(candidates: set<Path>, order: seq<Path>, choice: Path)
    requires order != [] && Orders(order, BestSources(candidates))
    requires LedBy(order, Some(choice))
    requires IsBest(choice, candidates) && AsAgreesIn(BestSources(candidates))
    ensures Kept(STAGES, order)[0] == choice
  {
    BestIsMinimum(choice, candidates);
    GuardsOf(order, BestSources(candidates));
    FirstStays(STAGES, order);
  }

  // ---------- Installing the chosen paths ----------

  lemma HopRemoved(installed: set<Path>, calls: seq<RibCall>, p: Path)
    requires RibAgrees(installed, calls) && p in installed
    ensures RibAgrees(installed - {p}, if p.Programmed() then calls + [RemoveHop(p.nextHop)] else calls)
  {
    hide Table, Hops;
    HopsWithout(installed, p);
    TableSnoc(calls, RemoveHop(p.nextHop));
  }

  /** The installed set after `chosen` have been marked, in order, as kept or new. */
  function Marked(installed: map<Path, Action>, chosen: seq<Path>): map<Path, Action> {
    if chosen == [] then installed
    else
      var before, p := Marked(installed, chosen[..|chosen| - 1]), chosen[|chosen| - 1];
      before[p := if p in before then ActionReplace else ActionAdd]
  }

  lemma NothingMarked(installed: map<Path, Action>)
    ensures Marked(installed, []) == installed
    ensures NewlyProgrammed([], installed.Keys) == []
  {
  }

  lemma MarkedNext(installed: map<Path, Action>, chosen: seq<Path>, p: Path)
    ensures var before := Marked(installed, chosen);
            Marked(installed, chosen + [p]) == before[p := if p in before then ActionReplace else ActionAdd]
  {
    assert (chosen + [p])[..|chosen|] == chosen;
  }

  lemma {:induction false} MarkedFacts(installed: map<Path, Action>, chosen: seq<Path>)
    ensures forall p :: p in Marked(installed, chosen) <==> p in installed || p in chosen
    ensures forall p :: p in chosen ==> !Stale(Marked(installed, chosen)[p])
    ensures forall p :: p in installed && p !in chosen ==> Marked(installed, chosen)[p] == installed[p]
  {
    if chosen != [] {
      var init, last := chosen[..|chosen| - 1], chosen[|chosen| - 1];
      MarkedFacts(installed, init);
      assert chosen == init + [last];
      assert forall p :: p in chosen <==> p in init || p == last;
    }
  }

  predicate Stale(action: Action) {
    action == ActionNone || action == ActionDelete
  }

  /** The installed set once stale paths are dropped and the others are at rest. */
  function Swept(installed: map<Path, Action>): map<Path, Action> {
    map p | p in installed && !Stale(installed[p]) :: ActionNone
  }

  // ---------- Gathering the candidates ----------

  /** The rank from which a search starts, worse than that of any path. */
  const UNKNOWN_SOURCE := 4

  /** The candidates met so far: those of the best source, the others, and that source. */
  datatype Pool = Pool(best: seq<Path>, removed: seq<Path>, src: nat)

  function Offered(pool: Pool, p: Path): Pool {
    if !Eligible(p) then pool
    else if SourceRank(p) > pool.src then pool.(removed := pool.removed + [p])
    else if SourceRank(p) < pool.src then Pool([p], pool.removed + pool.best, SourceRank(p))
    else pool.(best := pool.best + [p])
  }

  ghost predicate Pooled(pool: Pool, seen: set<Path>) {
    && (pool.best == [] ==> pool == Pool([], [], UNKNOWN_SOURCE)) && Apart(pool.best)
    && (forall p :: p in pool.best <==> p in seen && SourceRank(p) == pool.src)
    && (forall p :: p in pool.removed <==> p in seen && SourceRank(p) != pool.src)
    && (forall p :: p in seen ==> SourceRank(p) >= pool.src)
  }

  lemma OfferedPooled(pool: Pool, seen: set<Path>, p: Path)
    requires Pooled(pool, seen) && Eligible(p) && p !in seen
    ensures Pooled(Offered(pool, p), seen + {p})
  {
  }

  lemma PooledBest(pool: Pool, seen: set<Path>)
    requires Pooled(pool, seen)
    ensures pool.best == [] <==> seen == {}
    ensures Orders(pool.best, BestSources(seen))
    ensures forall p :: p in pool.removed <==> p in seen && !BestSource(p, seen)
  {
    if pool.best == [] {
      assert forall p :: p in seen ==> SourceRank(p) <= 2;
      assert forall p :: p in seen ==> false;
    } else {
      assert pool.best[0] in pool.best;
      assert pool.best[0] in seen;
    }
  }

  // ---------- What a selection yields ----------

  /** The paths among which equal-cost groups are formed. */
  function SelectedBase(order: seq<Path>, multi: Multi): seq<Path> {
    if order == [] then [] else MultiBase(order, multi.ebgp, multi.ibgp)
  }

  /**
   The choice wins the filters, and the installed set has one candidate for each next
   hop of the choice and of the equal-cost paths, and nothing else.
   */
  ghost predicate Selected(order: seq<Path>, choice: Option<Path>, installed: set<Path>, multi: Multi) {
    if order == [] then choice == None && installed == {}
    else
      && choice == Some(Kept(STAGES, order)[0])
      && choice.value in installed && DistinctHops(installed)
      && (forall p :: p in installed ==> p == choice.value || p in SelectedBase(order, multi))
      && HopSet(installed) == {choice.value.nextHop} + PathHops(SelectedBase(order, multi))
  }

  /** What the caller is told: the choice is new, an installed aggregate, unchanged, or there is none. */
  ghost function SelectAction(choice: Option<Path>, before: set<Path>): Action {
    match choice
    case None => ActionDelete
    case Some(best) =>
      if best !in before then ActionAdd else if best.aggregate then ActionReplace else ActionNone
  }

  /** Except for the choice, a path is newly installed only if no equal-cost path of its next hop was installed. */
  ghost predicate KeepsInstalled(before: set<Path>, after: set<Path>, choice: Option<Path>, base: seq<Path>) {
    forall p, q :: p in after && p !in before && choice != Some(p) && q in base && q.nextHop == p.nextHop ==>
      q !in before
  }

  /** A choice that still ties for best is kept, unless AS counts are out of bounds. */
  ghost predicate IncumbentKept(before: Option<Path>, after: Option<Path>, candidates: set<Path>) {
    before.Some? && IsBest(before.value, candidates) && AsAgreesIn(BestSources(candidates)) ==> after == before
  }

  lemma NothingSelected(peers: map<Key, Path>, before: set<Path>, multi: Multi)
    requires Candidates(peers) == {}
    ensures Settled(peers, None, {}) && ChoiceValid(peers, None)
    ensures Selected([], None, {}, multi) && KeepsInstalled(before, {}, None, [])
  {
  }

  lemma SelectedSettles(
    peers: map<Key, Path>, order: seq<Path>, choice: Option<Path>, installed: set<Path>, multi: Multi)
    requires order != [] && Orders(order, BestSources(Candidates(peers)))
    requires Selected(order, choice, installed, multi)
    ensures Settled(peers, choice, installed) && ChoiceValid(peers, choice)
  {
    hide MultiBase, Candidates;
    KeptWithin(STAGES, order);
    KeptPreferred(STAGES, order);
    assert Kept(STAGES, order)[0] in Kept(STAGES, order);
    MultiBaseWithin(order, multi.ebgp, multi.ibgp);
    MultiBaseFields(order, multi.ebgp, multi.ibgp);
    hide Kept;
    assert forall p :: p in order <==> BestSource(p, Candidates(peers));
  }

  /** A selection in a fair order leaves the best candidate chosen and all equal-cost next hops covered. */
  lemma SelectedCovers(candidates: set<Path>, order: seq<Path>, best: Path, installed: set<Path>, multi: Multi)
    requires order != [] && Orders(order, BestSources(candidates)) && Fair(order)
    requires Selected(order, Some(best), installed, multi)
    ensures IsBest(best, candidates) && Covers(best, installed, BestSources(candidates), multi)
  {
    var c := BestSources(candidates);
    FairKept(STAGES, order, c);
    hide MultiBase, Fair, EqualCost, Kept;
    assert best in Kept(STAGES, order);
    MinimumIsBest(best, candidates);
    BaseIsEqualCost(order, c, multi);
    HopsCovered(order, best, installed, EqualCost(c, multi), multi);
  }

  lemma HopsCovered(order: seq<Path>, best: Path, installed: set<Path>, equal: set<Path>, multi: Multi)
    requires order != [] && Selected(order, Some(best), installed, multi)
    requires forall p :: p in equal + {best} <==> p in MultiBase(order, multi.ebgp, multi.ibgp) || p == best
    ensures installed <= equal + {best} && HopSet(installed) == HopSet(equal + {best})
  {
    hide Kept, MultiBase;
    forall h | h in HopSet(equal + {best}) ensures h in HopSet(installed) {
      var p :| p in equal + {best} && p.nextHop == h;
    }
  }

  lemma SelectedIncumbent(
    candidates: set<Path>, order: seq<Path>, before: Option<Path>, after: Option<Path>, installed: set<Path>,
    multi: Multi)
    requires Orders(order, BestSources(candidates)) && (order == [] ==> candidates == {})
    requires LedBy(order, before)
    requires Selected(order, after, installed, multi)
    ensures IncumbentKept(before, after, candidates)
  {
    hide MultiBase, HopSet, PathHops, Kept, BestSource, Orders, AsAgreesIn;
    if order != [] && before.Some? && IsBest(before.value, candidates) && AsAgreesIn(BestSources(candidates)) {
      IncumbentStays(candidates, order, before.value);
    }
  }

  lemma OrderedSources(order: seq<Path>, candidates: set<Path>)
    requires Orders(order, BestSources(candidates))
    ensures forall p :: p in order <==> BestSource(p, candidates)
  {
  }

  lemma LedFacts(groups: seq<seq<Path>>, best: Path, base: seq<Path>)
    requires Led(groups, best, base)
    ensures groups != [] && groups[0] != [] && groups[0][0] == best && ByNextHop(groups)
  {
  }

  lemma RepresentsFacts(chosen: seq<Path>, groups: seq<seq<Path>>, before: set<Path>)
    requires Represents(chosen, groups, before)
    ensures chosen != [] && groups[0] != [] && chosen[0] == groups[0][0] && HopsApart(chosen)
  {
  }

  /** `chosen` has one path of each group: the first of the first, and an installed one wherever there is one. */
  ghost predicate Represents(chosen: seq<Path>, groups: seq<seq<Path>>, before: set<Path>) {
    && |chosen| == |groups| > 0 && HopsApart(chosen)
    && (forall i :: 0 <= i < |groups| ==> groups[i] != [] && chosen[i] in groups[i])
    && chosen[0] == groups[0][0]
    && (forall i :: 0 < i < |groups| && chosen[i] !in before ==> forall p :: p in groups[i] ==> p !in before)
  }

  /** The same of the groups that have been gone through. */
  ghost predicate Stands(chosen: seq<Path>, groups: seq<seq<Path>>, before: set<Path>) {
    && |chosen| <= |groups|
    && (forall i :: 0 <= i < |chosen| ==> groups[i] != [] && chosen[i] in groups[i])
    && (chosen != [] ==> chosen[0] == groups[0][0])
    && (forall i :: 0 < i < |chosen| && chosen[i] !in before ==> forall p :: p in groups[i] ==> p !in before)
  }

  lemma StandsApart(chosen: seq<Path>, groups: seq<seq<Path>>, before: set<Path>)
    requires ByNextHop(groups) && Stands(chosen, groups, before) && |chosen| < |groups|
    ensures forall p :: p in groups[|chosen|] ==> p !in chosen
  {
    forall p, q | p in groups[|chosen|] && q in chosen ensures q != p {
      var i :| 0 <= i < |chosen| && chosen[i] == q;
      assert groups[i][0].nextHop != groups[|chosen|][0].nextHop;
    }
  }

  lemma StandsNext(chosen: seq<Path>, groups: seq<seq<Path>>, before: set<Path>, p: Path)
    requires Stands(chosen, groups, before) && |chosen| < |groups| && p in groups[|chosen|]
    requires if chosen == [] then p == groups[0][0]
             else p in before || forall q :: q in groups[|chosen|] ==> q !in before
    ensures Stands(chosen + [p], groups, before)
  {
  }

  lemma NoneStands(groups: seq<seq<Path>>, before: set<Path>)
    ensures Stands([], groups, before)
  {
  }

  lemma StandsForAll(chosen: seq<Path>, groups: seq<seq<Path>>, before: set<Path>)
    requires ByNextHop(groups) && Stands(chosen, groups, before) && |chosen| == |groups| > 0
    ensures Represents(chosen, groups, before)
  {
    forall i, j | 0 <= i < j < |chosen| ensures chosen[i].nextHop != chosen[j].nextHop {
      assert groups[i][0].nextHop != groups[j][0].nextHop;
    }
  }

  lemma ChosenInGroups(groups: seq<seq<Path>>, chosen: seq<Path>, before: set<Path>)
    requires Represents(chosen, groups, before)
    ensures forall p :: p in chosen ==> InGroups(p, groups)
  {
    forall p | p in chosen ensures InGroups(p, groups) {
      var i :| 0 <= i < |chosen| && chosen[i] == p;
      assert p in groups[i];
    }
  }

  lemma ChosenHopSet(groups: seq<seq<Path>>, chosen: seq<Path>, before: set<Path>, best: Path, base: seq<Path>)
    requires Led(groups, best, base) && Represents(chosen, groups, before)
    ensures HopSet(set p | p in chosen) == {best.nextHop} + PathHops(base)
  {
    var installed := set p | p in chosen;
    ChosenInGroups(groups, chosen, before);
    forall p | InGroups(p, groups) ensures p.nextHop in HopSet(installed) {
      var i :| 0 <= i < |groups| && p in groups[i];
      assert chosen[i] in installed && chosen[i].nextHop == groups[i][0].nextHop;
    }
    assert InGroups(best, groups);
    forall h | h in HopSet(installed) ensures h in {best.nextHop} + PathHops(base) {
      var p :| p in installed && p.nextHop == h;
      assert InGroups(p, groups);
    }
    forall h | h in PathHops(base) ensures h in HopSet(installed) {
      var p :| p in base && p.nextHop == h;
      assert InGroups(p, groups);
    }
  }

  lemma ChosenKept(groups: seq<seq<Path>>, chosen: seq<Path>, before: set<Path>, best: Path, base: seq<Path>)
    requires Led(groups, best, base) && Represents(chosen, groups, before)
    ensures KeepsInstalled(before, (set p | p in chosen), Some(best), base)
  {
    forall p, q | p in chosen && p !in before && p != best && q in base && q.nextHop == p.nextHop
      ensures q !in before
    {
      var i :| 0 <= i < |chosen| && chosen[i] == p;
      assert InGroups(q, groups);
      var j :| 0 <= j < |groups| && q in groups[j];
      assert groups[i][0].nextHop == groups[j][0].nextHop;
      assert i == j;
    }
  }

  lemma GroupsInstalled(groups: seq<seq<Path>>, chosen: seq<Path>, before: set<Path>, order: seq<Path>, multi: Multi)
    requires order != [] && Led(groups, Kept(STAGES, order)[0], SelectedBase(order, multi))
    requires Represents(chosen, groups, before)
    ensures Selected(order, Some(groups[0][0]), (set p | p in chosen), multi)
  {
    var best, base := Kept(STAGES, order)[0], SelectedBase(order, multi);
    ChosenInGroups(groups, chosen, before);
    ChosenHops(chosen, {}, {});
    ChosenHopSet(groups, chosen, before, best, base);
    assert best in chosen;
    hide Kept, MultiBase, DistinctHops, HopSet, PathHops, HopsApart;
  }
}
