/**
 Histories of updates to a destination: what they leave announced, which of them make the
 choice right in the end, and why it stays right when a selection is skipped.
 */
module Histories {
  import opened AnyOrders
  import opened BestPaths
  import opened ChainGuards
  import opened Decisions
  import opened PathIndexes
  import opened Ranking
  import opened RibTables
  import opened Selections
  import opened Winners
  import opened Wrappers

  // ---------- Updates ----------

  datatype Op = Announce(key: Key, path: Path) | Withdraw(key: Key)

  /** What every peer currently announces, from the history alone. */
  function PeersAfter(ops: seq<Op>): map<Key, Path> {
    if ops == [] then map[] else PeersNext(PeersAfter(ops[..|ops| - 1]), ops[|ops| - 1])
  }

  function PeersNext(peers: map<Key, Path>, op: Op): map<Key, Path> {
    match op
    case Announce(key, path) => peers[key := path]
    case Withdraw(key) => peers - {key}
  }

  /** A key has what its last update announced, if that was an announcement, and nothing else. */
  lemma {:induction false} PeersAfterExact(ops: seq<Op>, key: Key)
    ensures (forall i :: 0 <= i < |ops| ==> ops[i].key != key) ==> key !in PeersAfter(ops)
    ensures forall i :: 0 <= i < |ops| && ops[i].key == key && (forall j :: i < j < |ops| ==> ops[j].key != key) ==>
              if ops[i].Announce? then key in PeersAfter(ops) && PeersAfter(ops)[key] == ops[i].path
              else key !in PeersAfter(ops)
  {
    if ops != [] {
      var n := |ops| - 1;
      PeersAfterExact(ops[..n], key);
      forall i | 0 <= i < |ops| && ops[i].key == key && (forall j :: i < j < |ops| ==> ops[j].key != key)
        ensures if ops[i].Announce? then key in PeersAfter(ops) && PeersAfter(ops)[key] == ops[i].path
                else key !in PeersAfter(ops)
      {
        if i < n { assert ops[..n][i] == ops[i] && ops[n].key != key; }
      }
    }
  }

  /** Every announcement brings a path object of its own, local ones under the router's own key. */
  ghost predicate WellFormed(ops: seq<Op>) {
    && (forall i, j :: 0 <= i < j < |ops| && ops[i].Announce? && ops[j].Announce? ==> ops[i].path != ops[j].path)
    && (forall i :: 0 <= i < |ops| && ops[i].Announce? ==> (ops[i].path.source.Local? <==> ops[i].key == LOCAL_KEY))
  }

  lemma NothingAnnounced()
    ensures PeersAfter([]) == map[] && Replacements([]) == 0 && PathsOf([]) == {}
    ensures HistoryBest([]) && HistoryFair([])
  {
  }

  lemma PeersAfterNext(ops: seq<Op>, i: nat)
    requires i < |ops|
    ensures PeersAfter(ops[..i + 1]) == PeersNext(PeersAfter(ops[..i]), ops[i])
  {
    hide PeersNext;
    assert ops[..i + 1][..i] == ops[..i];
  }

  /** A path that is replaced or withdrawn is no candidate any more. */
  lemma DroppedIsNoCandidate(peers: map<Key, Path>, op: Op)
    requires OneKeyEach(peers) && op.key in peers && (op.Announce? ==> op.path != peers[op.key])
    ensures peers[op.key] !in Candidates(PeersNext(peers, op))
  {
  }

  /** What an update must satisfy: a path object of its own, a local one under the router's own key. */
  predicate Fresh(st: State, op: Op) {
    op.Announce? ==> op.path !in st.ix.routes && (op.path.source.Local? <==> op.key == LOCAL_KEY)
  }

  function Updated(st: State, op: Op): State {
    match op
    case Announce(key, path) => Announced(st, key, path)
    case Withdraw(key) => Withdrawn(st, key)
  }

  /** How far the routes, live and dead, outnumber the keys in use. */
  function Excess(ix: Index): int {
    |ix.routes| - |ix.peers|
  }

  lemma AnnouncedFacts(st: State, key: Key, path: Path)
    requires Sound(st) && Fresh(st, Announce(key, path))
    ensures var st' := Announced(st, key, path);
            && st'.ix.peers == st.ix.peers[key := path] && st'.ix.routes.Keys == st.ix.routes.Keys + {path}
            && Excess(st'.ix) == Excess(st.ix) + (if key in st.ix.peers then 1 else 0)
            && (st'.choice == st.choice || (key in st.ix.peers && st.choice == Some(st.ix.peers[key])))
            && st'.order == st.order
  {
    assert key in st.ix.peers ==> st.ix.peers[key] in st.ix.routes by { SoundFacts(st); }
    hide Sound;
    AddedLeaks(st.ix, key, path);
    hide Added;
  }

  lemma NothingWithdrawn(peers: map<Key, Path>, key: Key)
    requires key !in peers
    ensures peers - {key} == peers
  {
  }

  lemma WithdrawnFacts(st: State, key: Key)
    requires key in st.ix.peers ==> Listed(st.ix, key)
    ensures var st' := Withdrawn(st, key);
            && st'.ix.peers == st.ix.peers - {key} && st'.ix.routes.Keys <= st.ix.routes.Keys
            && Excess(st'.ix) == Excess(st.ix)
            && (st'.choice == st.choice || (key in st.ix.peers && st.choice == Some(st.ix.peers[key])))
            && st'.order == st.order
  {
    hide Removed, Listed;
    if key in st.ix.peers {
      RemovedLeaks(st.ix, key);
    } else {
      NothingWithdrawn(st.ix.peers, key);
    }
  }

  /** What an update changes: routes of replaced paths stay, and the choice falls with its path. */
  lemma UpdatedFacts(st: State, op: Op)
    requires Sound(st) && Fresh(st, op)
    ensures var st' := Updated(st, op);
            && st'.ix.peers == PeersNext(st.ix.peers, op) && st'.order == st.order
            && st'.ix.routes.Keys <= st.ix.routes.Keys + (if op.Announce? then {op.path} else {})
            && Excess(st'.ix) == Excess(st.ix) + (if op.Announce? && op.key in st.ix.peers then 1 else 0)
            && (st'.choice == st.choice || (st.choice.Some? && st.choice.value !in Candidates(st'.ix.peers)))
  {
    hide Announced, Withdrawn, Excess, Candidates, Listed;
    SoundFacts(st);
    match op {
      case Announce(key, path) =>
        AnnouncedFacts(st, key, path);
      case Withdraw(key) =>
        WithdrawnFacts(st, key);
    }
    if op.key in st.ix.peers { DroppedIsNoCandidate(st.ix.peers, op); }
  }

  /** The path objects announced so far. */
  ghost function PathsOf(ops: seq<Op>): set<Path> {
    set op | op in ops && op.Announce? :: op.path
  }

  lemma PathsOfNext(ops: seq<Op>, i: nat)
    requires i < |ops|
    ensures PathsOf(ops[..i + 1]) == PathsOf(ops[..i]) + (if ops[i].Announce? then {ops[i].path} else {})
  {
    assert ops[..i + 1] == ops[..i] + [ops[i]];
    assert forall op :: op in ops[..i + 1] <==> op in ops[..i] || op == ops[i];
  }

  lemma NextIsFresh(ops: seq<Op>, i: nat, st: State)
    requires WellFormed(ops) && i < |ops| && st.ix.routes.Keys <= PathsOf(ops[..i])
    ensures Fresh(st, ops[i])
  {
    if ops[i].Announce? {
      forall op | op in ops[..i] && op.Announce? ensures op.path != ops[i].path {
        var j :| 0 <= j < i && ops[j] == op;
      }
      assert ops[i].path !in PathsOf(ops[..i]);
    }
  }

  /** How often a key that was in use was announced again. */
  function Replacements(ops: seq<Op>): nat {
    if ops == [] then 0
    else
      var init, last := ops[..|ops| - 1], ops[|ops| - 1];
      Replacements(init) + (if last.Announce? && last.key in PeersAfter(init) then 1 else 0)
  }

  lemma ReplacementsNext(ops: seq<Op>, i: nat)
    requires i < |ops|
    ensures Replacements(ops[..i + 1]) ==
            Replacements(ops[..i]) + (if ops[i].Announce? && ops[i].key in PeersAfter(ops[..i]) then 1 else 0)
  {
    hide PeersAfter;
    assert ops[..i + 1][..i] == ops[..i];
  }

  // ---------- Which histories make the choice right ----------

  /** A selection among `c` chooses a minimum, whatever the order and with no choice so far. */
  ghost predicate RightAny(c: set<Path>) {
    AsAgreesIn(c) && ((FamiliesAgree(c) && OneWorse(c)) || (FinalistsAgree(c) && forall w :: !Spoils(w, c)))
  }

  /** The same if the choice so far is `first`. */
  ghost predicate RightFrom(first: Path, c: set<Path>) {
    && first in c && AsAgreesIn(c)
    && (|| (FamiliesAgree(c) && (OneWorse(c) || MinimumOf(3, first, c)))
        || (FinalistsAgree(c) && forall w :: w != first ==> !Spoils(w, c)))
  }

  ghost predicate AlwaysRight(choice: Option<Path>, candidates: set<Path>) {
    forall order :: order != [] && Orders(order, BestSources(candidates)) && LedBy(order, choice) ==>
      IsBest(Kept(STAGES, order)[0], candidates)
  }

  /** The conditions are exact: they hold if and only if a selection in any order that the code can meet is right. */
  lemma RightExact(choice: Option<Path>, candidates: set<Path>)
    requires var c := BestSources(candidates); c != {} && AsAgreesIn(c) && FinalistsAgree(c)
    ensures AlwaysRight(choice, candidates) <==>
            var c := BestSources(candidates);
            if choice.Some? && choice.value in c then RightFrom(choice.value, c) else RightAny(c)
  {
    var c := BestSources(candidates);
    FinalistsFamilies(c);
    hide BestSources, Kept, AsAgreesIn, FinalistsAgree, FamiliesAgree, OneWorse, Spoils, MinimumOf, Apart, IsBest;
    forall p ensures MinimumOf(STAGES, p, c) <==> IsBest(p, candidates) {
      if MinimumOf(STAGES, p, c) { MinimumIsBest(p, candidates); }
      if IsBest(p, candidates) { BestIsMinimum(p, candidates); }
    }
    if choice.Some? && choice.value in c {
      AlwaysWinsFromExact(choice.value, c);
      assert forall s: seq<Path> :: s != [] && Orders(s, c) ==> (LedBy(s, choice) <==> s[0] == choice.value);
    } else {
      AlwaysWinsExact(c);
      assert forall s: seq<Path> :: s != [] && Orders(s, c) ==> LedBy(s, choice);
    }
  }

  /** Every stage of it is left with the right paths. */
  ghost predicate FairAny(c: set<Path>) {
    AsAgreesIn(c) && FamiliesAgree(c) && OneWorse(c)
  }

  ghost predicate FairFrom(first: Path, c: set<Path>) {
    first in c && AsAgreesIn(c) && FamiliesAgree(c) && (OneWorse(c) || MinimumOf(3, first, c))
  }

  /** A selection is right if the choice was right for the candidates `before`. */
  ghost predicate RightAfter(before: set<Path>, c: set<Path>) {
    RightAny(c) || (before != {} && forall p :: IsBest(p, before) ==> RightFrom(p, c))
  }

  ghost predicate FairAfter(before: set<Path>, c: set<Path>) {
    FairAny(c) || (before != {} && forall p :: IsBest(p, before) ==> FairFrom(p, c))
  }

  ghost predicate Lone(c: set<Path>) {
    forall p, q :: p in c && q in c ==> p == q
  }

  /** An announcement is always followed by a selection, and so is the withdrawal of a path without a rival. */
  ghost predicate SurelySelects(peers: map<Key, Path>, op: Op) {
    op.Announce? || (op.key in peers && BestSources(Candidates(peers)) == {peers[op.key]})
  }

  /**
   The choice is a minimum after the last update: there is only one path to choose, or a
   selection is certain and right from any choice, or the choice was a minimum before and
   the update leaves the candidates alone or a selection right from such a choice.
   */
  ghost predicate HistoryBest(ops: seq<Op>) {
    ops == [] ||
    var init, last := ops[..|ops| - 1], ops[|ops| - 1];
    BestStep(HistoryBest(init), PeersAfter(init), last)
  }

  ghost predicate BestStep(best: bool, peers: map<Key, Path>, op: Op) {
    var before, after := Candidates(peers), Candidates(PeersNext(peers, op));
    var c := BestSources(after);
    || Lone(c)
    || (SurelySelects(peers, op) && RightAny(c))
    || (best && ((op.Withdraw? && after == before) || RightAfter(before, c)))
  }

  /** Besides, the installed paths cover exactly the next hops of the equal-cost paths. */
  ghost predicate HistoryFair(ops: seq<Op>) {
    ops == [] ||
    var init, last := ops[..|ops| - 1], ops[|ops| - 1];
    FairStep(HistoryBest(init), HistoryFair(init), PeersAfter(init), last)
  }

  ghost predicate FairStep(best: bool, fair: bool, peers: map<Key, Path>, op: Op) {
    var before, after := Candidates(peers), Candidates(PeersNext(peers, op));
    var c := BestSources(after);
    || Lone(c)
    || (SurelySelects(peers, op) && (FairAny(c) || (best && FairAfter(before, c))))
    || (best && fair && ((op.Withdraw? && after == before) || FairAfter(before, c)))
  }

  lemma HistoryNext(ops: seq<Op>, i: nat)
    requires i < |ops|
    ensures HistoryBest(ops[..i + 1]) <==> BestStep(HistoryBest(ops[..i]), PeersAfter(ops[..i]), ops[i])
    ensures HistoryFair(ops[..i + 1]) <==>
            FairStep(HistoryBest(ops[..i]), HistoryFair(ops[..i]), PeersAfter(ops[..i]), ops[i])
  {
    hide BestStep, FairStep;
    assert ops[..i + 1][..i] == ops[..i];
  }

  lemma FairStepIsBest(best: bool, fair: bool, peers: map<Key, Path>, op: Op)
    requires FairStep(best, fair, peers, op)
    ensures BestStep(best, peers, op)
  {
    hide Candidates, BestSources, AsAgreesIn, FamiliesAgree, OneWorse, FinalistsAgree, Spoils, MinimumOf, IsBest,
      SurelySelects;
    var before, c := Candidates(peers), BestSources(Candidates(PeersNext(peers, op)));
    if FairAfter(before, c) {
      forall p | FairFrom(p, c) ensures RightFrom(p, c) {}
    }
  }

  // ---------- One step ----------

  ghost predicate ChoiceBest(st: State) {
    st.choice.Some? ==> IsBest(st.choice.value, Candidates(st.ix.peers))
  }

  ghost predicate ChoiceCovered(st: State) {
    st.choice.Some? ==>
      Covers(st.choice.value, st.installed.Keys, BestSources(Candidates(st.ix.peers)), st.multi)
  }

  /** After an update a selection has taken place if it was due, with the choice so far met first. */
  ghost predicate Stepped(updated: State, st: State) {
    if updated.due then
      && st.ix.peers == updated.ix.peers && st.multi == updated.multi
      && Orders(st.order, BestSources(Candidates(st.ix.peers))) && LedBy(st.order, updated.choice)
      && Selected(st.order, st.choice, st.installed.Keys, st.multi)
    else st == updated
  }

  lemma LoneIsRight(st: State)
    requires Settled(st.ix.peers, st.choice, st.installed.Keys) && Lone(BestSources(Candidates(st.ix.peers)))
    ensures ChoiceBest(st) && ChoiceCovered(st)
  {
    if st.choice.Some? {
      var best, candidates := st.choice.value, Candidates(st.ix.peers);
      hide Candidates, NotAfter, EqualCost, BestSource, HopSet;
      LoneIsMinimum(best, BestSources(candidates));
      MinimumIsBest(best, candidates);
      LoneInstalled(st.installed.Keys, best, BestSources(candidates));
      EqualCostWithin(BestSources(candidates), st.multi);
      assert EqualCost(BestSources(candidates), st.multi) + {best} == {best};
    }
  }

  lemma LoneInstalled(installed: set<Path>, best: Path, c: set<Path>)
    requires Lone(c) && best in c && best in installed && forall p :: p in installed ==> p in c
    ensures installed == {best} && c == {best}
  {
  }

  lemma EqualCostWithin(c: set<Path>, multi: Multi)
    ensures EqualCost(c, multi) <= c
  {
  }

  lemma LoneIsMinimum(p: Path, c: set<Path>)
    requires p in c && Lone(c)
    ensures MinimumOf(STAGES, p, c)
  {
    Trichotomy(STAGES, p, p);
  }

  /** When a selection is certain it takes place, unless there is nothing to choose from. */
  lemma SurelyDue(st: State, op: Op)
    requires Sound(st) && !st.due && Fresh(st, op) && SurelySelects(st.ix.peers, op)
    ensures Updated(st, op).due || Lone(BestSources(Candidates(Updated(st, op).ix.peers)))
  {
    hide Sound, Settled, Candidates, BestSources, Announced, Withdrawn, Lone, Fresh;
    match op {
      case Announce(key, path) =>
        AnnouncementDue(st, key, path);
      case Withdraw(key) =>
        SoundIsSettled(st);
        WithdrawalDue(st, key);
    }
  }

  /** An announcement is passed over only for a choice that is local, and has no rival then. */
  lemma AnnouncementDue(st: State, key: Key, path: Path)
    requires Sound(st) && !st.due && Fresh(st, Announce(key, path))
    ensures var st' := Announced(st, key, path); st'.due || Lone(BestSources(Candidates(st'.ix.peers)))
  {
    var st' := Announced(st, key, path);
    UpdatedSound(st, Announce(key, path));
    SoundFacts(st');
    hide Sound, Listed, OneKeyEach, Candidates, BestSources, Lone, SourcesValid, Added, Updated, Eligible;
    assert st'.ix.routes.Keys == st.ix.routes.Keys + {path} by { AnnouncedFacts(st, key, path); }
    if !st'.due { LocalIsLone(st'.ix.peers, st'.choice.value); }
  }

  lemma WithdrawalDue(st: State, key: Key)
    requires key in st.ix.peers && BestSources(Candidates(st.ix.peers)) == {st.ix.peers[key]}
    requires Settled(st.ix.peers, st.choice, st.installed.Keys)
    ensures Withdrawn(st, key).due
  {
    hide Candidates, Removed;
    var path, candidates := st.ix.peers[key], Candidates(st.ix.peers);
    assert path in BestSources(candidates);
    assert st.choice.Some? && st.choice.value in BestSources(candidates);
  }

  lemma LocalIsLone(peers: map<Key, Path>, best: Path)
    requires SourcesValid(peers) && best in Candidates(peers) && best.source.Local?
    ensures Lone(BestSources(Candidates(peers)))
  {
    forall p | p in BestSources(Candidates(peers)) ensures p == best {
      assert SourceRank(p) <= SourceRank(best);
      var k :| k in peers && Eligible(peers[k]) && peers[k] == p;
      var l :| l in peers && Eligible(peers[l]) && peers[l] == best;
    }
  }

  lemma UpdatedSound(st: State, op: Op)
    requires Sound(st) && Fresh(st, op)
    ensures Sound(Updated(st, op))
  {
    hide Sound, Announced, Withdrawn;
    match op {
      case Announce(key, path) => AnnouncedSound(st, key, path);
      case Withdraw(key) => WithdrawnSound(st, key);
    }
  }

  /** A skipped selection leaves right what was right. */
  lemma SkipKeeps(st: State, op: Op)
    requires Sound(st) && !st.due && Fresh(st, op) && !Updated(st, op).due && ChoiceBest(st)
    ensures ChoiceBest(Updated(st, op))
    ensures ChoiceCovered(st) ==> ChoiceCovered(Updated(st, op))
  {
    var st' := Updated(st, op);
    SoundFacts(st);
    SoundIsSettled(st);
    UpdatedFacts(st, op);
    KnownIsIndexed(st);
    hide Sound, Settled, Listed, Covers, IsBest, Candidates, IndexValid;
    if op.key in st.ix.peers || op.Announce? {
      match op {
        case Announce(key, path) =>
          AddKeepsSettled(st.ix.peers, st.choice.value, st.installed.Keys, st.multi, key, path);
        case Withdraw(key) =>
          RemoveKeepsSettled(st.ix.peers, st.choice, st.installed.Keys, st.multi, key);
      }
    }
  }

  lemma KnownIsIndexed(st: State)
    requires Sound(st)
    ensures forall p :: p !in st.ix.routes ==> !Live(p, st.ix.peers)
  {
    IndexFacts(st.ix);
  }

  /** A selection of candidates that are right in any order, or from the choice met first, is right. */
  lemma SelectionIsBest(updated: State, st: State)
    requires updated.due && Stepped(updated, st)
    requires var c := BestSources(Candidates(st.ix.peers));
             RightAny(c) || (updated.choice.Some? && RightFrom(updated.choice.value, c))
    ensures ChoiceBest(st)
  {
    var order, candidates := st.order, Candidates(st.ix.peers);
    var c := BestSources(candidates);
    hide Candidates, Orders, Selected, AsAgreesIn, FamiliesAgree, OneWorse, FinalistsAgree, Spoils, MinimumOf;
    SelectedChoice(order, st.choice, st.installed.Keys, st.multi);
    if order != [] {
      if FinalistsAgree(c) && forall w :: w != order[0] ==> !Spoils(w, c) {
        OrderWins(order, c);
      } else {
        FirstChosen(order, c, updated.choice);
        OrderedFair(order, c);
        FairKept(STAGES, order, c);
      }
      MinimumIsBest(Kept(STAGES, order)[0], candidates);
    }
  }

  lemma FirstChosen(order: seq<Path>, c: set<Path>, choice: Option<Path>)
    requires Orders(order, c) && LedBy(order, choice)
    ensures choice.Some? && choice.value in c ==> order != [] && order[0] == choice.value
  {
  }

  lemma SelectedChoice(order: seq<Path>, choice: Option<Path>, installed: set<Path>, multi: Multi)
    requires Selected(order, choice, installed, multi)
    ensures choice == if order == [] then None else Some(Kept(STAGES, order)[0])
  {
  }

  lemma SelectionIsFair(updated: State, st: State)
    requires updated.due && Stepped(updated, st)
    requires var c := BestSources(Candidates(st.ix.peers));
             FairAny(c) || (updated.choice.Some? && FairFrom(updated.choice.value, c))
    ensures ChoiceBest(st) && ChoiceCovered(st)
  {
    var order, candidates := st.order, Candidates(st.ix.peers);
    var c := BestSources(candidates);
    hide Candidates, Orders, Selected, AsAgreesIn, FamiliesAgree, OneWorse, MinimumOf, Covers;
    SelectedChoice(order, st.choice, st.installed.Keys, st.multi);
    if order != [] {
      FirstChosen(order, c, updated.choice);
      OrderedFair(order, c);
      SelectedCovers(candidates, order, st.choice.value, st.installed.Keys, st.multi);
    }
  }

  /** A best path that stays a candidate stays the choice until the selection. */
  lemma ChoiceStays(st: State, op: Op)
    requires Sound(st) && !st.due && Fresh(st, op)
    ensures var after := Candidates(Updated(st, op).ix.peers);
            && (st.choice == None <==> Candidates(st.ix.peers) == {})
            && (st.choice.Some? && st.choice.value in BestSources(after) ==> Updated(st, op).choice == st.choice)
  {
    SoundIsSettled(st);
    UpdatedFacts(st, op);
    hide Sound, Candidates, Settled, Updated;
  }

  /** The candidates are left alone by the withdrawal of a path that is none, and no selection follows. */
  lemma NothingDue(st: State, op: Op)
    requires Sound(st) && !st.due && Fresh(st, op) && op.Withdraw?
    requires Candidates(Updated(st, op).ix.peers) == Candidates(st.ix.peers)
    ensures !Updated(st, op).due
  {
    SoundIsSettled(st);
    SoundFacts(st);
    UpdatedFacts(st, op);
    if op.key in st.ix.peers {
      DroppedIsNoCandidate(st.ix.peers, op);
      hide Candidates, Sound, Listed, OneKeyEach;
      var path := st.ix.peers[op.key];
      assert path !in Candidates(st.ix.peers);
    }
  }

  lemma StepIsBest(st: State, op: Op, next: State, best: bool)
    requires Sound(st) && !st.due && Fresh(st, op) && Stepped(Updated(st, op), next)
    requires Sound(next) && !next.due && next.ix.peers == Updated(st, op).ix.peers
    requires BestStep(best, st.ix.peers, op) && (best ==> ChoiceBest(st))
    ensures ChoiceBest(next)
  {
    var updated, before := Updated(st, op), Candidates(st.ix.peers);
    var c := BestSources(Candidates(next.ix.peers));
    UpdatedFacts(st, op);
    hide Sound, Fresh, Updated, Candidates, BestSources, Lone, RightAny, RightFrom, RightAfter, ChoiceBest, Stepped,
      SurelySelects;
    if Lone(c) {
      SoundIsSettled(next);
      LoneIsRight(next);
    } else if SurelySelects(st.ix.peers, op) && RightAny(c) {
      SurelyDue(st, op);
      SelectionIsBest(updated, next);
    } else if !updated.due {
      SkipKeeps(st, op);
      SkipIsUpdate(updated, next);
    } else if op.Withdraw? && Candidates(next.ix.peers) == before {
      NothingDue(st, op);
    } else {
      ChoiceStays(st, op);
      AfterChoice(st, c);
      SelectionIsBest(updated, next);
    }
  }

  /** What holds from any best path holds from the choice. */
  lemma AfterChoice(st: State, c: set<Path>)
    requires ChoiceBest(st) && (st.choice == None <==> Candidates(st.ix.peers) == {})
    ensures RightAfter(Candidates(st.ix.peers), c) ==>
              RightAny(c) || (st.choice.Some? && RightFrom(st.choice.value, c) && st.choice.value in c)
    ensures FairAfter(Candidates(st.ix.peers), c) ==>
              FairAny(c) || (st.choice.Some? && FairFrom(st.choice.value, c) && st.choice.value in c)
  {
    hide Candidates, IsBest, RightAny, FairAny, AsAgreesIn, FamiliesAgree, FinalistsAgree, OneWorse, MinimumOf, Spoils;
  }

  lemma SkipIsUpdate(updated: State, st: State)
    requires Stepped(updated, st) && !updated.due
    ensures st == updated
  {
  }

  lemma StepIsFair(st: State, op: Op, next: State, best: bool, fair: bool)
    requires Sound(st) && !st.due && Fresh(st, op) && Stepped(Updated(st, op), next)
    requires Sound(next) && !next.due && next.ix.peers == Updated(st, op).ix.peers
    requires FairStep(best, fair, st.ix.peers, op)
    requires (best ==> ChoiceBest(st)) && (fair ==> ChoiceCovered(st))
    ensures ChoiceBest(next) && ChoiceCovered(next)
  {
    var updated, before := Updated(st, op), Candidates(st.ix.peers);
    var c := BestSources(Candidates(next.ix.peers));
    UpdatedFacts(st, op);
    hide Sound, Fresh, Updated, Candidates, BestSources, Lone, FairAny, FairFrom, FairAfter, ChoiceBest, Stepped,
      SurelySelects, ChoiceCovered;
    if Lone(c) {
      SoundIsSettled(next);
      LoneIsRight(next);
    } else {
      if SurelySelects(st.ix.peers, op) { SurelyDue(st, op); }
      if !updated.due {
        SkipKeeps(st, op);
        SkipIsUpdate(updated, next);
      } else if op.Withdraw? && Candidates(next.ix.peers) == before {
        NothingDue(st, op);
      } else {
        ChoiceStays(st, op);
        if !FairAny(c) { AfterChoice(st, c); }
        SelectionIsFair(updated, next);
      }
    }
  }

  /** One step of a history. */
  lemma HistoryStep(ops: seq<Op>, i: nat, st: State, next: State)
    requires i < |ops| && Sound(st) && !st.due && st.ix.peers == PeersAfter(ops[..i])
    requires Fresh(st, ops[i]) && Stepped(Updated(st, ops[i]), next)
    requires Sound(next) && !next.due && next.ix.peers == Updated(st, ops[i]).ix.peers
    requires HistoryBest(ops[..i]) ==> ChoiceBest(st)
    requires HistoryFair(ops[..i]) ==> ChoiceCovered(st)
    ensures HistoryBest(ops[..i + 1]) ==> ChoiceBest(next)
    ensures HistoryFair(ops[..i + 1]) ==> ChoiceBest(next) && ChoiceCovered(next)
  {
    hide Sound, Fresh, Updated, Stepped, ChoiceBest, ChoiceCovered, HistoryBest, HistoryFair, BestStep, FairStep;
    HistoryNext(ops, i);
    var best, fair := HistoryBest(ops[..i]), HistoryFair(ops[..i]);
    if BestStep(best, st.ix.peers, ops[i]) { StepIsBest(st, ops[i], next, best); }
    if FairStep(best, fair, st.ix.peers, ops[i]) { StepIsFair(st, ops[i], next, best, fair); }
  }

  /** A sound destination with no selection due is settled. */
  lemma SoundIsSettled(st: State)
    requires Sound(st) && !st.due
    ensures Settled(st.ix.peers, st.choice, st.installed.Keys)
    ensures st.choice == None <==> Candidates(st.ix.peers) == {}
    ensures st.choice.Some? ==> BestSource(st.choice.value, Candidates(st.ix.peers))
    ensures RibAgrees(st.installed.Keys, st.calls)
    ensures st.ix.maxId - 1 == |st.ix.free| + |st.ix.routes|
  {
    HeldByRoutes(st.ix);
    hide IndexValid, RibAgrees;
  }

  // ---------- The state after a history ----------

  /** What holds of a destination that has taken a history of updates, each followed by a selection. */
  ghost predicate Follows(ops: seq<Op>, st: State) {
    && Sound(st) && !st.due
    && st.ix.peers == PeersAfter(ops) && st.ix.routes.Keys <= PathsOf(ops) && Excess(st.ix) == Replacements(ops)
    && (HistoryBest(ops) ==> ChoiceBest(st))
    && (HistoryFair(ops) ==> ChoiceBest(st) && ChoiceCovered(st))
  }

  lemma FollowsNothing(st: State)
    requires Sound(st) && !st.due && st.ix.peers == map[] && st.ix.routes == map[]
    ensures Follows([], st)
  {
    hide Sound;
    NothingAnnounced();
    SoundIsSettled(st);
  }

  lemma FollowsFresh(ops: seq<Op>, i: nat, st: State)
    requires WellFormed(ops) && i < |ops| && Follows(ops[..i], st)
    ensures Fresh(st, ops[i])
  {
    hide WellFormed, Sound, Fresh, PathsOf, PeersAfter, Replacements, HistoryBest, HistoryFair, ChoiceBest,
      ChoiceCovered;
    NextIsFresh(ops, i, st);
  }

  lemma FollowsNext(ops: seq<Op>, i: nat, st: State, next: State)
    requires i < |ops| && Follows(ops[..i], st) && Fresh(st, ops[i])
    requires Sound(next) && !next.due && next.ix == Updated(st, ops[i]).ix && Stepped(Updated(st, ops[i]), next)
    ensures Follows(ops[..i + 1], next)
  {
    hide Sound, Fresh, Updated, Stepped, PathsOf, PeersAfter, PeersNext, Replacements, Excess, HistoryBest,
      HistoryFair, ChoiceBest, ChoiceCovered, Candidates;
    PeersAfterNext(ops, i);
    ReplacementsNext(ops, i);
    PathsOfNext(ops, i);
    UpdatedFacts(st, ops[i]);
    HistoryStep(ops, i, st, next);
  }

  lemma FollowsFacts(ops: seq<Op>, st: State)
    requires Follows(ops, st)
    ensures Sound(st) && !st.due && st.ix.peers == PeersAfter(ops) && RibAgrees(st.installed.Keys, st.calls)
    ensures st.choice == None <==> Candidates(st.ix.peers) == {}
    ensures st.choice.Some? ==> BestSource(st.choice.value, Candidates(st.ix.peers))
    ensures st.choice.Some? && HistoryBest(ops) ==> IsBest(st.choice.value, Candidates(st.ix.peers))
    ensures st.choice.Some? && HistoryFair(ops) ==>
              && IsBest(st.choice.value, Candidates(st.ix.peers))
              && Covers(st.choice.value, st.installed.Keys, BestSources(Candidates(st.ix.peers)), st.multi)
    ensures |st.ix.routes| == |st.ix.peers| + Replacements(ops)
    ensures st.ix.maxId - 1 == |st.ix.free| + |st.ix.peers| + Replacements(ops)
  {
    hide Sound, RibAgrees, Covers, IsBest, BestSource, Candidates, PathsOf, Replacements, PeersAfter, HistoryBest,
      HistoryFair;
    SoundIsSettled(st);
  }

  /** The same in the fields of the paths that are announced. */
  lemma FollowsInFields(ops: seq<Op>, st: State)
    requires Follows(ops, st)
    ensures st.choice == None <==> forall k :: k in st.ix.peers ==> !st.ix.peers[k].reachable || st.ix.peers[k].asLoop
    ensures if st.choice == None then st.installed.Keys == {} else st.choice.value in st.installed.Keys
    ensures forall p :: p in st.installed.Keys ==>
              && p.reachable && !p.asLoop && Live(p, st.ix.peers)
              && st.choice.Some? && p.source == st.choice.value.source && p.pref == st.choice.value.pref
    ensures Table(st.calls) ==
            Some(set p | p in st.installed.Keys && (p.source.External? || p.aggregate) :: p.nextHop)
    ensures forall p, q :: p in st.installed.Keys && q in st.installed.Keys && p.nextHop == q.nextHop ==> p == q
    ensures st.choice.Some? ==>
              var best := st.choice.value;
              forall k :: k in st.ix.peers && st.ix.peers[k].reachable && !st.ix.peers[k].asLoop ==>
                var p := st.ix.peers[k];
                && (if p.source == best.source then p.pref <= best.pref else best.source.Local?)
                && (HistoryBest(ops) && p.source == best.source ==> !Outranks(p, best))
                && (HistoryFair(ops) && SharesWith(p, best, st.multi) ==>
                      exists q :: q in st.installed.Keys && q.nextHop == p.nextHop)
    ensures st.choice.Some? && HistoryFair(ops) ==>
              forall p :: p in st.installed.Keys ==> p == st.choice.value || SharesWith(p, st.choice.value, st.multi)
  {
    hide Sound, Outranks, SharesWith, PathsOf, Replacements, HistoryBest, HistoryFair, RibAgrees, Candidates,
      IsBest, Covers, PeersAfter, Table, Settled, Live;
    SoundIsSettled(st);
    SettledInFields(st.ix.peers, st.choice, st.installed.Keys);
    TableInFields(st.installed.Keys, st.calls);
    if st.choice.Some? && HistoryBest(ops) { BestInFields(st.ix.peers, st.choice.value); }
    if st.choice.Some? && HistoryFair(ops) {
      CoversInFields(st.ix.peers, st.choice.value, st.installed.Keys, st.multi);
    }
  }
}
