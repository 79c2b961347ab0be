/**
 The prefixes the Loc-RIB holds from each peer, the counters kept for them, and the
 limit on them.
 */
module PrefixLimits {
  import opened Words

  const WRAP := 0x1_0000_0000

  datatype Cidr = Cidr(address: nat, length: nat)

  datatype Nlri = Nlri(cidr: Cidr, pathId: nat)

  /** A path held from a peer. A peer without a neighbor configuration is not counted. */
  datatype Entry = Entry(peer: nat, nlri: Nlri)

  // ---------- Which withdrawals take effect ----------

  /** The test for a withdrawn prefix that is announced again; it ignores the length. */
  predicate IsIpInList(prefixes: seq<Nlri>, n: Nlri) {
    exists i :: 0 <= i < |prefixes| && prefixes[i].pathId == n.pathId && prefixes[i].cidr.address == n.cidr.address
  }

  function AfterWithdraw(held: set<Nlri>, rem: seq<Nlri>, add: seq<Nlri>): set<Nlri> {
    set n | n in held && (n !in rem || IsIpInList(add, n))
  }

  /** The announcements that are not ignored. */
  function Usable(add: seq<Nlri>): set<Nlri> {
    set n | n in add && n.cidr.address != 0
  }

  /** The entries held after the announcements, as long as the limit allows, 0 being none. */
  function AfterAdd(held: set<Nlri>, add: seq<Nlri>, max: nat): set<Nlri> {
    if add == [] then held
    else
      var before, n := AfterAdd(held, add[..|add| - 1], max), add[|add| - 1];
      if n.cidr.address == 0 || n in before || (max > 0 && |before| >= max) then before else before + {n}
  }

  /**
   An update that withdraws `rem` and announces `add`, without a limit: what RFC 4271
   means, except that prefixes of address 0.0.0.0, the default route too, are never taken.
   */
  function Meant(held: set<Nlri>, rem: seq<Nlri>, add: seq<Nlri>): set<Nlri> {
    (held - set n | n in rem) + Usable(add)
  }

  lemma UsableNext(add: seq<Nlri>, n: Nlri)
    ensures Usable(add + [n]) == Usable(add) + if n.cidr.address != 0 then {n} else {}
  {
  }

  lemma AfterAddNext(held: set<Nlri>, add: seq<Nlri>, n: Nlri, max: nat)
    ensures var before := AfterAdd(held, add, max);
            AfterAdd(held, add + [n], max) ==
            if n.cidr.address == 0 || n in before || (max > 0 && |before| >= max) then before else before + {n}
  {
    assert (add + [n])[..|add|] == add;
  }

  lemma AfterAddNone(held: set<Nlri>, max: nat)
    ensures AfterAdd(held, [], max) == held && Usable([]) == {}
  {
  }

  lemma {:induction false} AfterAddBounds(held: set<Nlri>, add: seq<Nlri>, max: nat)
    ensures held <= AfterAdd(held, add, max) <= held + Usable(add)
    ensures max > 0 && |held| <= max ==> |AfterAdd(held, add, max)| <= max
    ensures max == 0 ==> AfterAdd(held, add, max) == held + Usable(add)
  {
    hide AfterAdd, Usable;
    if add == [] {
      AfterAddNone(held, max);
    } else {
      var init, n := add[..|add| - 1], add[|add| - 1];
      AfterAddBounds(held, init, max);
      assert add == init + [n];
      UsableNext(init, n);
      AfterAddNext(held, init, n, max);
    }
  }

  /** Announcements are refused only when the limit is reached. */
  lemma {:induction false} RefusedWhenFull(held: set<Nlri>, add: seq<Nlri>, max: nat)
    ensures AfterAdd(held, add, max) != held + Usable(add) ==> max > 0 && |AfterAdd(held, add, max)| >= max
  {
    hide AfterAdd, Usable;
    if add == [] {
      AfterAddNone(held, max);
      assert held + {} == held;
    } else {
      var init, n := add[..|add| - 1], add[|add| - 1];
      RefusedWhenFull(held, init, max);
      assert add == init + [n];
      UsableNext(init, n);
      AfterAddNext(held, init, n, max);
      AfterAddBounds(held, init, max);
      SubsetSize(AfterAdd(held, init, max), AfterAdd(held, add, max));
    }
  }

  /**
   What an update leaves, entry by entry: what is not withdrawn stays, what is withdrawn
   goes unless its address and path id are announced again, and what comes is announced and
   not of address 0.0.0.0.
   */
  lemma UpdatedEntries(held: set<Nlri>, rem: seq<Nlri>, add: seq<Nlri>, max: nat)
    ensures var (kept, now) := (AfterWithdraw(held, rem, add), AfterAdd(AfterWithdraw(held, rem, add), add, max));
            && (forall n :: n in now ==> n in held || (n in add && n.cidr.address != 0))
            && (forall n :: n in held && n !in rem ==> n in now)
            && (forall n :: n in held && n in rem ==>
                  (n in kept <==> exists m :: m in add && m.pathId == n.pathId && m.cidr.address == n.cidr.address))
            && (forall n :: n in kept ==> n in now)
            && (forall n :: n in held && n !in kept && n in now ==> n in add)
            && (now == kept + Usable(add) <==> forall n :: n in add && n.cidr.address != 0 ==> n in now)
            && (now != kept + Usable(add) ==> max > 0 && |now| >= max)
  {
    var kept := AfterWithdraw(held, rem, add);
    AfterAddBounds(kept, add, max);
    RefusedWhenFull(kept, add, max);
    hide AfterAdd;
    forall n | n in held && n in rem
      ensures n in kept <==> exists m :: m in add && m.pathId == n.pathId && m.cidr.address == n.cidr.address
    {
      if m :| m in add && m.pathId == n.pathId && m.cidr.address == n.cidr.address {
        var i :| 0 <= i < |add| && add[i] == m;
      }
    }
  }

  lemma SubsetSize<T>(a: set<T>, b: set<T>)
    requires a <= b
    ensures |a| <= |b| && (|a| == |b| ==> a == b)
  {
    assert b == a + (b - a);
  }

  /** Every announcement is taken if and only if together they fit under the limit. */
  lemma {:induction false} AllTakenIffFits(held: set<Nlri>, add: seq<Nlri>, max: nat)
    requires max > 0 ==> |held| <= max
    ensures AfterAdd(held, add, max) == held + Usable(add) <==> max == 0 || |held + Usable(add)| <= max
  {
    hide AfterAdd, Usable;
    AfterAddBounds(held, add, max);
    if add == [] {
      AfterAddNone(held, max);
      assert held + {} == held;
    } else if max > 0 {
      var init, n := add[..|add| - 1], add[|add| - 1];
      AllTakenIffFits(held, init, max);
      AfterAddBounds(held, init, max);
      assert add == init + [n];
      UsableNext(init, n);
      AfterAddNext(held, init, n, max);
      SubsetSize(held + Usable(init), held + Usable(add));
      SubsetSize(AfterAdd(held, add, max), held + Usable(add));
    }
  }

  /**
   Without a limit an update does what it means if and only if no entry that it
   withdraws shares address and path id, but not length, with an announcement.
   */
  lemma WithdrawExact(held: set<Nlri>, rem: seq<Nlri>, add: seq<Nlri>)
    ensures AfterAdd(AfterWithdraw(held, rem, add), add, 0) == Meant(held, rem, add)
            <==> forall n :: n in held && n in rem && IsIpInList(add, n) ==> n in Usable(add)
  {
    AfterAddBounds(AfterWithdraw(held, rem, add), add, 0);
    var after, meant := AfterWithdraw(held, rem, add) + Usable(add), Meant(held, rem, add);
    if n :| n in held && n in rem && IsIpInList(add, n) && n !in Usable(add) {
      assert n in after && n !in meant;
    } else {
      assert after == meant;
    }
  }

  /** A prefix that is withdrawn while a longer one at its address is announced stays. */
  lemma WithdrawalLost(short: Nlri, long: Nlri)
    requires short.pathId == long.pathId && short.cidr.address == long.cidr.address != 0
    requires short.cidr.length == 8 && long.cidr.length == 16
    ensures AfterAdd(AfterWithdraw({short}, [short], [long]), [long], 0) == {short, long}
    ensures Meant({short}, [short], [long]) == {long}
  {
    AfterAddBounds(AfterWithdraw({short}, [short], [long]), [long], 0);
    assert [long][0] == long;
  }

  // ---------- Counting ----------

  ghost function HeldFrom(entries: set<Entry>, peer: nat): set<Nlri> {
    set e | e in entries && e.peer == peer :: e.nlri
  }

  lemma HeldFacts(entries: set<Entry>, peer: nat)
    ensures forall n :: n in HeldFrom(entries, peer) <==> Entry(peer, n) in entries
  {
    forall n | n in HeldFrom(entries, peer) ensures Entry(peer, n) in entries {
      var e :| e in entries && e.peer == peer && e.nlri == n;
      assert e == Entry(peer, n);
    }
  }

  lemma HeldWith(entries: set<Entry>, e: Entry, peer: nat)
    ensures HeldFrom(entries + {e}, peer) == HeldFrom(entries, peer) + if e.peer == peer then {e.nlri} else {}
    ensures HeldFrom(entries - {e}, peer) == HeldFrom(entries, peer) - if e.peer == peer then {e.nlri} else {}
  {
    HeldFacts(entries, peer);
    HeldFacts(entries + {e}, peer);
    HeldFacts(entries - {e}, peer);
  }

  /** A counter of 32 bits agrees with the number of entries, which is within the limit. */
  predicate PeerCounted(held: nat, total: U32, limit: U32) {
    total == held % WRAP && (limit > 0 ==> held <= limit)
  }

  lemma CountStep(held: nat, total: U32, limit: U32)
    requires PeerCounted(held, total, limit)
    ensures limit == 0 || held < limit ==> PeerCounted(held + 1, (total + 1) % WRAP, limit)
    ensures held > 0 ==> PeerCounted(held - 1, (total - 1) % WRAP, limit)
  {
    if held > 0 { assert held == (held - 1) + 1; }
  }

  /** The counter of every configured peer agrees with what is held, and no limit is exceeded. */
  ghost predicate Counted(entries: set<Entry>, totals: map<nat, U32>, limits: map<nat, U32>) {
    && totals.Keys == limits.Keys
    && (forall p :: p in limits ==> PeerCounted(|HeldFrom(entries, p)|, totals[p], limits[p]))
  }

  function Incremented(totals: map<nat, U32>, peer: nat): map<nat, U32> {
    if peer in totals then totals[peer := (totals[peer] + 1) % WRAP] else totals
  }

  function Decremented(totals: map<nat, U32>, peer: nat): map<nat, U32> {
    if peer in totals then totals[peer := (totals[peer] - 1) % WRAP] else totals
  }

  lemma CountedWith(entries: set<Entry>, totals: map<nat, U32>, limits: map<nat, U32>, e: Entry)
    requires Counted(entries, totals, limits) && e !in entries
    requires e.peer in limits && limits[e.peer] > 0 ==> |HeldFrom(entries, e.peer)| < limits[e.peer]
    ensures Counted(entries + {e}, Incremented(totals, e.peer), limits)
  {
    HeldFacts(entries, e.peer);
    hide PeerCounted, HeldFrom;
    forall p | p in limits
      ensures PeerCounted(|HeldFrom(entries + {e}, p)|, Incremented(totals, e.peer)[p], limits[p])
    {
      HeldWith(entries, e, p);
      if p == e.peer { CountStep(|HeldFrom(entries, p)|, totals[p], limits[p]); }
    }
  }

  lemma CountedWithout(entries: set<Entry>, totals: map<nat, U32>, limits: map<nat, U32>, e: Entry)
    requires Counted(entries, totals, limits) && e in entries
    ensures Counted(entries - {e}, Decremented(totals, e.peer), limits)
  {
    HeldFacts(entries, e.peer);
    hide PeerCounted, HeldFrom;
    forall p | p in limits
      ensures PeerCounted(|HeldFrom(entries - {e}, p)|, Decremented(totals, e.peer)[p], limits[p])
    {
      HeldWith(entries, e, p);
      if p == e.peer { CountStep(|HeldFrom(entries, p)|, totals[p], limits[p]); }
    }
  }

  lemma OthersKeep(entries: set<Entry>, peer: nat, n: Nlri)
    ensures forall p :: p != peer ==>
              && HeldFrom(entries + {Entry(peer, n)}, p) == HeldFrom(entries, p)
              && HeldFrom(entries - {Entry(peer, n)}, p) == HeldFrom(entries, p)
  {
    forall p | p != peer
      ensures HeldFrom(entries + {Entry(peer, n)}, p) == HeldFrom(entries, p)
      ensures HeldFrom(entries - {Entry(peer, n)}, p) == HeldFrom(entries, p)
    {
      HeldWith(entries, Entry(peer, n), p);
    }
  }

  lemma WithdrawNext(held: set<Nlri>, rem: seq<Nlri>, add: seq<Nlri>, i: nat)
    requires i < |rem|
    ensures AfterWithdraw(held, rem[..i + 1], add) ==
            if IsIpInList(add, rem[i]) then AfterWithdraw(held, rem[..i], add)
            else AfterWithdraw(held, rem[..i], add) - {rem[i]}
  {
    assert rem[..i + 1] == rem[..i] + [rem[i]];
  }

  lemma AddNext(held: set<Nlri>, add: seq<Nlri>, max: nat, i: nat)
    requires i < |add|
    ensures Usable(add[..i + 1]) == Usable(add[..i]) + if add[i].cidr.address != 0 then {add[i]} else {}
    ensures var (before, n) := (AfterAdd(held, add[..i], max), add[i]);
            AfterAdd(held, add[..i + 1], max) ==
            if n.cidr.address == 0 || n in before || (max > 0 && |before| >= max) then before else before + {n}
    ensures held <= AfterAdd(held, add[..i], max) <= held + Usable(add[..i])
  {
    hide AfterAdd, Usable;
    assert add[..i + 1] == add[..i] + [add[i]];
    UsableNext(add[..i], add[i]);
    AfterAddNext(held, add[..i], add[i], max);
    AfterAddBounds(held, add[..i], max);
  }

  /** Dropping all entries of a peer and setting its counter to zero keeps the counters right. */
  lemma CountedWithoutPeer(
    before: set<Entry>, entries: set<Entry>, totals: map<nat, U32>, limits: map<nat, U32>, peer: nat)
    requires Counted(before, totals, limits)
    requires forall e :: e in entries <==> e in before && e.peer != peer
    ensures HeldFrom(entries, peer) == {} && forall p :: p != peer ==> HeldFrom(entries, p) == HeldFrom(before, p)
    ensures Counted(entries, if peer in totals then totals[peer := 0] else totals, limits)
  {
    hide HeldFrom;
    HeldFacts(entries, peer);
    forall p | p != peer ensures HeldFrom(entries, p) == HeldFrom(before, p) {
      HeldFacts(entries, p);
      HeldFacts(before, p);
    }
  }

  /** Under a limit a counter is exact: it has not wrapped. */
  lemma LimitedIsExact(entries: set<Entry>, totals: map<nat, U32>, limits: map<nat, U32>, peer: nat)
    requires Counted(entries, totals, limits) && peer in limits && limits[peer] > 0
    ensures totals[peer] == |HeldFrom(entries, peer)| <= limits[peer]
  {
    hide HeldFrom;
    assert PeerCounted(|HeldFrom(entries, peer)|, totals[peer], limits[peer]);
  }

  /** The counters and limits, peer by peer. */
  lemma LimitsKept(entries: set<Entry>, totals: map<nat, U32>, limits: map<nat, U32>)
    requires Counted(entries, totals, limits)
    ensures forall p :: p in limits ==> p in totals && totals[p] == |HeldFrom(entries, p)| % 0x1_0000_0000
    ensures forall p :: p in limits && limits[p] > 0 ==> |HeldFrom(entries, p)| <= limits[p]
  {
    hide HeldFrom;
  }

  class LocRib {
    // neighbors with a configuration, with their limit; 0 is no limit
    const maxPrefixes: map<nat, U32>
    var destPathMap: set<Cidr>
    var entries: set<Entry>
    var totalPrefixes: map<nat, U32>
    var routesCount: int

    ghost predicate Valid()
      reads this
    {
      && Counted(entries, totalPrefixes, maxPrefixes)
      && (forall e :: e in entries ==> e.nlri.cidr in destPathMap)
      && routesCount == |destPathMap|
    }

    function Limit(peer: nat): U32 {
      if peer in maxPrefixes then maxPrefixes[peer] else 0
    }

    constructor (maxPrefixes: map<nat, U32>)
      ensures Valid() && entries == {} && this.maxPrefixes == maxPrefixes
    {
      this.maxPrefixes := maxPrefixes;
      destPathMap, entries, totalPrefixes, routesCount := {}, {}, map p | p in maxPrefixes :: 0, 0;
    }

    method CanAcceptNewPrefix(peer: nat) returns (ok: bool)
      requires Valid()
      ensures ok <==> Limit(peer) == 0 || |HeldFrom(entries, peer)| < Limit(peer)
    {
      ok := !(peer in maxPrefixes && maxPrefixes[peer] > 0 && totalPrefixes[peer] >= maxPrefixes[peer]);
    }

    method GetDest(cidr: Cidr)
      requires Valid()
      modifies this`destPathMap, this`routesCount
      ensures Valid() && destPathMap == old(destPathMap) + {cidr}
    {
      if cidr !in destPathMap {
        destPathMap := destPathMap + {cidr};
        routesCount := routesCount + 1;
      }
    }

    /** Withdraws one prefix; the destination goes with its last path if the selection reports a deletion. */
    method Withdraw(peer: nat, n: Nlri, deleted: bool)
      requires Valid()
      modifies this
      ensures Valid() && entries == old(entries) - {Entry(peer, n)}
      ensures destPathMap == if deleted && (forall f :: f in entries ==> f.nlri.cidr != n.cidr)
                             then old(destPathMap) - {n.cidr} else old(destPathMap)
    {
      hide Counted;
      var e := Entry(peer, n);
      if n.cidr !in destPathMap { return; }
      if e in entries {
        CountedWithout(entries, totalPrefixes, maxPrefixes, e);
        entries := entries - {e};
        totalPrefixes := Decremented(totalPrefixes, peer);
      }
      if deleted && forall f :: f in entries ==> f.nlri.cidr != n.cidr {
        destPathMap := destPathMap - {n.cidr};
        routesCount := routesCount - 1;
      }
    }

    /** Announces one prefix; a destination is created even if the limit then refuses the path. */
    method Announce(peer: nat, n: Nlri) returns (taken: bool)
      requires Valid()
      modifies this
      ensures Valid() && destPathMap == old(destPathMap) + {n.cidr}
      ensures taken <==> Entry(peer, n) in old(entries) || Limit(peer) == 0
                         || |HeldFrom(old(entries), peer)| < Limit(peer)
      ensures entries == if taken then old(entries) + {Entry(peer, n)} else old(entries)
    {
      hide HeldFrom;
      var e := Entry(peer, n);
      GetDest(n.cidr);
      if e in entries { return true; }
      taken := CanAcceptNewPrefix(peer);
      if !taken { return; }
      CountedWith(entries, totalPrefixes, maxPrefixes, e);
      totalPrefixes := Incremented(totalPrefixes, peer);
      entries := entries + {e};
    }

    /** Withdraws what is not announced again. */
    method WithdrawAll(peer: nat, rem: seq<Nlri>, add: seq<Nlri>, deletes: nat -> bool)
      requires Valid()
      modifies this
      ensures Valid() && HeldFrom(entries, peer) == AfterWithdraw(HeldFrom(old(entries), peer), rem, add)
      ensures forall p :: p != peer ==> HeldFrom(entries, p) == HeldFrom(old(entries), p)
    {
      hide Counted, HeldFrom;
      ghost var start, held := entries, HeldFrom(entries, peer);
      for i := 0 to |rem|
        invariant Valid()
        invariant HeldFrom(entries, peer) == AfterWithdraw(held, rem[..i], add)
        invariant forall p :: p != peer ==> HeldFrom(entries, p) == HeldFrom(start, p)
      {
        WithdrawNext(held, rem, add, i);
        if !IsIpInList(add, rem[i]) {
          OthersKeep(entries, peer, rem[i]);
          HeldWith(entries, Entry(peer, rem[i]), peer);
          Withdraw(peer, rem[i], deletes(i));
        }
      }
      assert rem[..|rem|] == rem;
    }

    /** Announces prefixes until the limit refuses them. */
    method AnnounceAll(peer: nat, add: seq<Nlri>) returns (addedAll: bool)
      requires Valid()
      modifies this
      ensures Valid()
      ensures var before := HeldFrom(old(entries), peer);
              && HeldFrom(entries, peer) == AfterAdd(before, add, Limit(peer))
              && (addedAll <==> HeldFrom(entries, peer) == before + Usable(add))
      ensures forall p :: p != peer ==> HeldFrom(entries, p) == HeldFrom(old(entries), p)
    {
      hide Counted, HeldFrom, AfterAdd, Usable;
      ghost var start, before := entries, HeldFrom(entries, peer);
      addedAll := true;
      AfterAddNone(before, Limit(peer));
      for i := 0 to |add|
        invariant Valid() && add[..0] == []
        invariant HeldFrom(entries, peer) == AfterAdd(before, add[..i], Limit(peer))
        invariant addedAll <==> HeldFrom(entries, peer) == before + Usable(add[..i])
        invariant !addedAll ==> |HeldFrom(entries, peer)| >= Limit(peer) > 0
        invariant forall p :: p != peer ==> HeldFrom(entries, p) == HeldFrom(start, p)
      {
        AddNext(before, add, Limit(peer), i);
        if add[i].cidr.address == 0 { continue; }
        OthersKeep(entries, peer, add[i]);
        HeldWith(entries, Entry(peer, add[i]), peer);
        HeldFacts(entries, peer);
        var taken := Announce(peer, add[i]);
        if !taken { addedAll := false; }
      }
      assert add[..|add|] == add;
    }

    /**
     One update of a peer: withdrawals first, except for prefixes announced again, then
     announcements until the limit refuses them.
     */
    method ProcessRoutes(peer: nat, add: seq<Nlri>, rem: seq<Nlri>, deletes: nat -> bool) returns (addedAll: bool)
      requires Valid()
      modifies this
      ensures Valid()
      ensures var before := AfterWithdraw(HeldFrom(old(entries), peer), rem, add);
              && HeldFrom(entries, peer) == AfterAdd(before, add, Limit(peer))
              && (addedAll <==> HeldFrom(entries, peer) == before + Usable(add))
      ensures forall p :: p != peer ==> HeldFrom(entries, p) == HeldFrom(old(entries), p)
      ensures var (held, now) := (HeldFrom(old(entries), peer), HeldFrom(entries, peer));
              && (forall n :: n in now ==> n in held || (n in add && n.cidr.address != 0))
              && (forall n :: n in held && n !in rem ==> n in now)
              && (forall n :: n in held && n in rem ==>
                    (n in now <==> exists m :: m in add && m.pathId == n.pathId && m.cidr.address == n.cidr.address))
              && (addedAll <==> forall n :: n in add && n.cidr.address != 0 ==> n in now)
              && (!addedAll ==> peer in maxPrefixes && |now| == maxPrefixes[peer] > 0)
    {
      hide Counted, HeldFrom, AfterAdd, AfterWithdraw, Usable;
      UpdatedEntries(HeldFrom(entries, peer), rem, add, Limit(peer));
      WithdrawAll(peer, rem, add, deletes);
      addedAll := AnnounceAll(peer, add);
      LimitsKept(entries, totalPrefixes, maxPrefixes);
    }

    /** A peer goes down: nothing of it is held any more and its counter is zero. */
    method RemoveUpdatesFromNeighbor(peer: nat, deletes: Cidr -> bool)
      requires Valid()
      modifies this
      ensures Valid() && HeldFrom(entries, peer) == {}
      ensures forall p :: p != peer ==> HeldFrom(entries, p) == HeldFrom(old(entries), p)
    {
      hide Counted, HeldFrom;
      ghost var start := entries;
      var todo := destPathMap;
      while todo != {}
        invariant routesCount == |destPathMap| && todo <= destPathMap && totalPrefixes == old(totalPrefixes)
        invariant forall e :: e in entries ==> e in start && e.nlri.cidr in destPathMap
        invariant forall e :: e in start && e.peer != peer ==> e in entries
        invariant forall e :: e in entries && e.peer == peer ==> e.nlri.cidr in todo
        decreases todo
      {
        var cidr :| cidr in todo;
        todo := todo - {cidr};
        entries := set e | e in entries && !(e.peer == peer && e.nlri.cidr == cidr);
        if deletes(cidr) && forall e :: e in entries ==> e.nlri.cidr != cidr {
          destPathMap := destPathMap - {cidr};
          routesCount := routesCount - 1;
        }
      }
      CountedWithoutPeer(start, entries, totalPrefixes, maxPrefixes, peer);
      if peer in totalPrefixes {
        totalPrefixes := totalPrefixes[peer := 0];
      }
    }
  }

  datatype Op =
    | Update(peer: nat, add: seq<Nlri>, rem: seq<Nlri>, deletes: nat -> bool)
    | Down(peer: nat, gone: Cidr -> bool)

  /** After any run of updates and losses of peers the counters agree and every limit is kept. */
  method Run(ops: seq<Op>, maxPrefixes: map<nat, U32>) returns (rib: LocRib)
    ensures Counted(rib.entries, rib.totalPrefixes, maxPrefixes) && rib.routesCount == |rib.destPathMap|
    ensures forall p :: p in maxPrefixes ==>
              && p in rib.totalPrefixes && rib.totalPrefixes[p] == |HeldFrom(rib.entries, p)| % 0x1_0000_0000
              && (maxPrefixes[p] > 0 ==> |HeldFrom(rib.entries, p)| <= maxPrefixes[p])
  {
    hide Counted, HeldFrom;
    rib := new LocRib(maxPrefixes);
    for i := 0 to |ops|
      invariant fresh(rib) && rib.Valid() && rib.maxPrefixes == maxPrefixes
    {
      match ops[i] {
        case Update(peer, add, rem, deletes) =>
          var _ := rib.ProcessRoutes(peer, add, rem, deletes);
        case Down(peer, gone) =>
          rib.RemoveUpdatesFromNeighbor(peer, gone);
      }
    }
    LimitsKept(rib.entries, rib.totalPrefixes, maxPrefixes);
  }
}
