/**
 The ARP cache, the neighbor table of the hardware it programs, and the ageing of
 its entries.
 */
module ArpCaches {
  import opened Wrappers

  type Ip = nat
  type Mac = nat

  const MIN_CNT := 1
  const RETRY_CNT := 5
  const ONE_MIN_CNT := 60
  const THIRTY_SEC_CNT := 30
  const MIN_REFRESH_TIMEOUT := 300

  /** An entry; without a MAC it is incomplete. `rib` says that a route's next hop owns it. */
  datatype Entry = Entry(mac: Option<Mac>, port: int, vlan: int, l3IfIdx: int, rib: bool, counter: int)

  // ---------- Agreement with the hardware ----------

  /**
   Every resolved entry is in the hardware with its MAC, and if no hardware call has
   failed the hardware holds nothing else.
   */
  ghost predicate Agree(cache: map<Ip, Entry>, hw: map<Ip, Mac>, failed: bool) {
    && (forall ip :: ip in cache && cache[ip].mac.Some? ==> ip in hw && hw[ip] == cache[ip].mac.value)
    && (!failed ==> forall ip :: ip in hw ==> ip in cache && cache[ip].mac.Some?)
  }

  /** Setting an entry keeps the agreement if a MAC goes to the hardware too and none is given up. */
  lemma AgreeSet(cache: map<Ip, Entry>, hw: map<Ip, Mac>, failed: bool, ip: Ip, e: Entry)
    requires Agree(cache, hw, failed)
    ensures Agree(cache, hw, true)
    ensures ip in cache && cache[ip].mac == e.mac ==> Agree(cache[ip := e], hw, failed)
    ensures e.mac.Some? ==> Agree(cache[ip := e], hw[ip := e.mac.value], failed)
    ensures e.mac.None? && (ip !in cache || cache[ip].mac.None?) ==> Agree(cache[ip := e], hw, failed)
  {
  }

  // ---------- Ageing of one entry ----------

  /** The counter values at which an entry is asked for again. */
  predicate Asked(e: Entry, timeout: int) {
    || e.counter <= MIN_CNT + RETRY_CNT + 1
    || e.counter == timeout / 2 || e.counter == timeout / 4 || e.counter == ONE_MIN_CNT || e.counter == THIRTY_SEC_CNT
    || (timeout - RETRY_CNT < e.counter <= timeout && e.mac.None?)
  }

  /** What one tick makes of an entry; `fails` is the fate of the hardware call, if one is made. */
  function Aged(e: Entry, timeout: int, fails: bool): Option<Entry> {
    if e.counter <= MIN_CNT then
      if !e.rib then None
      else if e.mac.Some? && fails then Some(e)
      else Some(e.(mac := None, counter := timeout))
    else
      var older := e.(counter := e.counter - 1);
      if !Asked(older, timeout) && e.mac.None? && !e.rib then None else Some(older)
  }

  /** What is left of an entry after one tick for each element of `fails`. */
  function AgedTimes(e: Entry, timeout: int, fails: seq<bool>): Option<Entry> {
    if fails == [] then Some(e)
    else
      var before := AgedTimes(e, timeout, fails[..|fails| - 1]);
      if before.None? then None else Aged(before.value, timeout, fails[|fails| - 1])
  }

  /** A resolved entry that no route owns leaves after as many ticks as its counter says, and not before. */
  lemma {:induction false} ResolvedLifetime(e: Entry, timeout: int, fails: seq<bool>)
    requires !e.rib && e.mac.Some? && e.counter >= 1
    ensures AgedTimes(e, timeout, fails) ==
            if |fails| < e.counter then Some(e.(counter := e.counter - |fails|)) else None
  {
    if fails != [] { ResolvedLifetime(e, timeout, fails[..|fails| - 1]); }
  }

  /** An unresolved entry that no route owns leaves after as many retries, and not before. */
  lemma {:induction false} UnresolvedLifetime(e: Entry, timeout: int, fails: seq<bool>)
    requires !e.rib && e.mac.None? && e.counter == timeout >= 300
    ensures AgedTimes(e, timeout, fails) ==
            if |fails| < 5 then Some(e.(counter := timeout - |fails|)) else None
  {
    if fails != [] { UnresolvedLifetime(e, timeout, fails[..|fails| - 1]); }
  }

  /** Whatever its state, an entry that no route owns does not outlive its counter. */
  lemma {:induction false} LifetimeBound(e: Entry, timeout: int, fails: seq<bool>)
    requires !e.rib
    ensures var left := AgedTimes(e, timeout, fails);
            left.Some? ==> left.value == e.(counter := e.counter - |fails|) && (fails == [] || |fails| < e.counter)
  {
    if fails != [] { LifetimeBound(e, timeout, fails[..|fails| - 1]); }
  }

  /** An entry that a route owns survives any number of ticks. */
  lemma {:induction false} RibSurvives(e: Entry, timeout: int, fails: seq<bool>)
    requires e.rib
    ensures AgedTimes(e, timeout, fails).Some? && AgedTimes(e, timeout, fails).value.rib
  {
    if fails != [] { RibSurvives(e, timeout, fails[..|fails| - 1]); }
  }

  // ---------- The server ----------

  function Find(cache: map<Ip, Entry>, ip: Ip): Option<Entry> {
    if ip in cache then Some(cache[ip]) else None
  }

  function Capped(e: Entry, cnt: int): Entry {
    if e.counter > cnt then e.(counter := cnt) else e
  }

  /** What becomes of the hardware calls made for one address, tick by tick. */
  function FatesOf(fails: seq<Ip -> bool>, ip: Ip): seq<bool> {
    seq(|fails|, i requires 0 <= i < |fails| => fails[i](ip))
  }

  datatype Message =
    | Learn(ip: Ip, mac: Option<Mac>, port: int, vlan: Option<int>, l3IfIdx: int, rib: bool, fails: bool)
    | PortDown(port: int, fate: Ip -> bool)
    | TickOnce(fate: Ip -> bool)
    | NewTimeout(timeout: int)
    | MacMove(ip: Ip, port: int)
    | DeleteFromRib(ip: Ip, fails: bool)
    | DeleteByIPAddr(ip: Ip, fails: bool)
    | RefreshByIPAddr(ip: Ip, fails: bool)

  ghost predicate NeverFails(fate: Ip -> bool) {
    forall ip :: !fate(ip)
  }

  ghost predicate MayFail(m: Message) {
    match m
    case Learn(_, _, _, _, _, _, fails) => fails
    case PortDown(_, fate) => !NeverFails(fate)
    case TickOnce(fate) => !NeverFails(fate)
    case DeleteFromRib(_, fails) => fails
    case DeleteByIPAddr(_, fails) => fails
    case RefreshByIPAddr(_, fails) => fails
    case _ => false
  }

  class ARPServer {
    var arpCache: map<Ip, Entry>
    var arpSlice: seq<Ip>
    var timeoutCounter: int
    // the neighbor table of the hardware, and whether a call to it has failed
    var hw: map<Ip, Mac>
    ghost var failed: bool

    ghost predicate Valid()
      reads this
    {
      Agree(arpCache, hw, failed)
    }

    constructor (timeout: int)
      ensures Valid() && arpCache == map[] && !failed && timeoutCounter == timeout
    {
      arpCache, arpSlice, timeoutCounter, hw, failed := map[], [], timeout, map[], false;
    }

    method CreateIPv4Neighbor(ip: Ip, mac: Mac, fails: bool)
      modifies this`hw, this`failed
      ensures hw == if fails then old(hw) else old(hw)[ip := mac]
      ensures failed <==> old(failed) || fails
    {
      if fails {
        failed := true;
      } else {
        hw := hw[ip := mac];
      }
    }

    method DeleteIPv4Neighbor(ip: Ip, fails: bool)
      modifies this`hw, this`failed
      ensures hw == if fails then old(hw) else old(hw) - {ip}
      ensures failed <==> old(failed) || fails
    {
      if fails {
        failed := true;
      } else {
        hw := hw - {ip};
      }
    }

    /** Takes a resolved entry out of the hardware and then out of the cache; keeps it if the hardware refuses. */
    method DeleteEntry(ip: Ip, fails: bool)
      requires Valid() && ip in arpCache
      modifies this`arpCache, this`hw, this`failed
      ensures !fails ==> failed == old(failed)
      ensures Valid()
      ensures arpCache == if old(arpCache)[ip].mac.Some? && fails then old(arpCache) else old(arpCache) - {ip}
    {
      if arpCache[ip].mac.Some? {
        DeleteIPv4Neighbor(ip, fails);
        if fails { return; }
      }
      arpCache := arpCache - {ip};
    }

    method ProcessArpEntryDeleteMsgFromRib(ip: Ip, fails: bool)
      requires Valid()
      modifies this`arpCache, this`hw, this`failed
      ensures !fails ==> failed == old(failed)
      ensures Valid()
      ensures ip !in old(arpCache) || !old(arpCache)[ip].rib ==> arpCache == old(arpCache)
      ensures ip in old(arpCache) && old(arpCache)[ip].rib ==>
                arpCache == if old(arpCache)[ip].mac.Some? && fails then old(arpCache) else old(arpCache) - {ip}
    {
      if ip !in arpCache || !arpCache[ip].rib { return; }
      DeleteEntry(ip, fails);
    }

    /** An operator cannot delete what a route owns. */
    method ProcessDeleteByIPAddr(ip: Ip, fails: bool)
      requires Valid()
      modifies this`arpCache, this`hw, this`failed
      ensures !fails ==> failed == old(failed)
      ensures Valid()
      ensures ip !in old(arpCache) || old(arpCache)[ip].rib ==> arpCache == old(arpCache)
      ensures ip in old(arpCache) && !old(arpCache)[ip].rib ==>
                arpCache == if old(arpCache)[ip].mac.Some? && fails then old(arpCache) else old(arpCache) - {ip}
    {
      if ip !in arpCache || arpCache[ip].rib { return; }
      DeleteEntry(ip, fails);
    }

    /** The entry becomes incomplete and starts afresh. */
    method ProcessRefreshByIPAddr(ip: Ip, fails: bool)
      requires Valid()
      modifies this`arpCache, this`hw, this`failed
      ensures !fails ==> failed == old(failed)
      ensures Valid() && arpCache.Keys == old(arpCache).Keys
      ensures ip in arpCache ==>
                arpCache == if old(arpCache)[ip].mac.Some? && fails then old(arpCache)
                            else old(arpCache)[ip := old(arpCache)[ip].(mac := None, counter := timeoutCounter)]
    {
      if ip !in arpCache { return; }
      if arpCache[ip].mac.Some? {
        DeleteIPv4Neighbor(ip, fails);
        if fails { return; }
      }
      arpCache := arpCache[ip := arpCache[ip].(mac := None, counter := timeoutCounter)];
    }

    /** A port went down: its entries go, route-owned ones too, up to the first hardware failure. */
    method ProcessArpEntryDeleteMsg(port: int, fails: Ip -> bool)
      requires Valid()
      modifies this`arpCache, this`hw, this`failed
      ensures NeverFails(fails) ==> failed == old(failed)
      ensures Valid()
      ensures forall ip :: ip in arpCache ==> ip in old(arpCache) && arpCache[ip] == old(arpCache)[ip]
      ensures forall ip :: ip in old(arpCache) && old(arpCache)[ip].port != port ==> ip in arpCache
      ensures NeverFails(fails) ==> forall ip :: ip in arpCache ==> arpCache[ip].port != port
    {
      var todo := arpCache.Keys;
      while todo != {}
        invariant NeverFails(fails) ==> failed == old(failed)
        invariant Valid() && todo <= arpCache.Keys
        invariant forall ip :: ip in arpCache ==> ip in old(arpCache) && arpCache[ip] == old(arpCache)[ip]
        invariant forall ip :: ip in old(arpCache) && old(arpCache)[ip].port != port ==> ip in arpCache
        invariant forall ip :: ip in arpCache && ip !in todo ==> arpCache[ip].port != port
        decreases todo
      {
        var ip :| ip in todo;
        todo := todo - {ip};
        if arpCache[ip].port == port {
          DeleteIPv4Neighbor(ip, fails(ip));
          if fails(ip) { return; }
          arpCache := arpCache - {ip};
        }
      }
    }

    method ProcessArpEntryMacMoveMsg(ip: Ip, port: int)
      requires Valid()
      modifies this`arpCache
      ensures Valid()
      ensures arpCache == if ip !in old(arpCache) then old(arpCache)
                          else old(arpCache)[ip := old(arpCache)[ip].(port := port)]
    {
      if ip in arpCache {
        arpCache := arpCache[ip := arpCache[ip].(port := port)];
      }
    }

    /** A shorter timeout cuts the counters that exceed it. */
    method ProcessArpEntryCntUpdateMsg(cnt: int)
      requires Valid()
      modifies this`arpCache
      ensures Valid() && arpCache.Keys == old(arpCache).Keys
      ensures forall ip :: ip in arpCache ==>
                var e := old(arpCache)[ip]; arpCache[ip] == e.(counter := if e.counter > cnt then cnt else e.counter)
    {
      var todo := arpCache.Keys;
      while todo != {}
        invariant Valid() && todo <= arpCache.Keys && arpCache.Keys == old(arpCache).Keys
        invariant forall ip :: ip in arpCache ==>
                    arpCache[ip] == if ip in todo then old(arpCache)[ip] else Capped(old(arpCache)[ip], cnt)
        decreases todo
      {
        var ip :| ip in todo;
        todo := todo - {ip};
        if arpCache[ip].counter > cnt {
          arpCache := arpCache[ip := arpCache[ip].(counter := cnt)];
        }
      }
    }

    /**
     What a message about an address leaves: an entry that it confirms starts a new lifetime,
     a resolved one that it says nothing new about may be handed to a route, and otherwise
     the entry is made anew, unless the hardware refuses its MAC.  A route that owns an
     entry keeps it.
     */
    twostate predicate Told(
      ip: Ip, mac: Option<Mac>, port: int, vlan: Option<int>, l3IfIdx: int, rib: bool, fails: bool)
      reads this
    {
      && (vlan.None? ==> arpCache == old(arpCache) && hw == old(hw))
      && (ip in old(arpCache) && old(arpCache)[ip].rib ==> ip in arpCache && arpCache[ip].rib)
      && (vlan.Some? ==>
            var known := ip in old(arpCache);
            if && known && old(arpCache)[ip].mac == mac && old(arpCache)[ip].port == port
               && old(arpCache)[ip].vlan == vlan.value && old(arpCache)[ip].l3IfIdx == l3IfIdx
            then
              arpCache == old(arpCache)[ip := old(arpCache)[ip].(counter := timeoutCounter)] && hw == old(hw)
            else if known && old(arpCache)[ip].mac.Some? && mac.None? then
              && arpCache == old(arpCache)[ip := old(arpCache)[ip].(rib := rib || old(arpCache)[ip].rib)]
              && hw == old(hw)
            else if mac.Some? && fails then arpCache == old(arpCache) && hw == old(hw)
            else
              var owned := rib || (known && old(arpCache)[ip].rib);
              && arpCache == old(arpCache)[ip := Entry(mac, port, vlan.value, l3IfIdx, owned, timeoutCounter)]
              && hw == if mac.Some? then old(hw)[ip := mac.value] else old(hw))
    }

    /**
     An address is learned, wanted by a route, or heard again.  `vlan` is None when the
     port belongs to no L3 interface.
     */
    method ProcessArpEntryUpdateMsg(
      ip: Ip, mac: Option<Mac>, port: int, vlan: Option<int>, l3IfIdx: int, rib: bool, fails: bool)
      requires Valid()
      modifies this`arpCache, this`arpSlice, this`hw, this`failed
      ensures Valid() && (!fails ==> failed == old(failed))
      ensures Told(ip, mac, port, vlan, l3IfIdx, rib, fails)
    {
      hide Agree;
      if vlan.None? { return; }
      if ip in arpCache {
        var e := arpCache[ip];
        AgreeSet(arpCache, hw, failed, ip, e.(counter := timeoutCounter));
        AgreeSet(arpCache, hw, failed, ip, e.(rib := true));
        if e.mac == mac && e.port == port && e.vlan == vlan.value && e.l3IfIdx == l3IfIdx {
          arpCache := arpCache[ip := e.(counter := timeoutCounter)];
          return;
        }
        if e.mac.Some? && mac.None? {
          if rib && !e.rib {
            arpCache := arpCache[ip := e.(rib := true)];
          }
          return;
        }
      }
      var owned := rib || (ip in arpCache && arpCache[ip].rib);
      AgreeSet(arpCache, hw, failed, ip, Entry(mac, port, vlan.value, l3IfIdx, owned, timeoutCounter));
      if mac.Some? {
        CreateIPv4Neighbor(ip, mac.value, fails);
        if fails { return; }
      }
      arpCache := arpCache[ip := Entry(mac, port, vlan.value, l3IfIdx, owned, timeoutCounter)];
      if ip !in arpSlice {
        arpSlice := arpSlice + [ip];
      }
    }

    /**
     One tick for one entry.  An expired entry leaves the cache even if the hardware keeps
     it; before that no hardware call is made, and only unresolved entries leave.
     */
    method AgeEntry(ip: Ip, fails: bool)
      requires Valid() && ip in arpCache
      modifies this`arpCache, this`hw, this`failed
      ensures !fails ==> failed == old(failed)
      ensures Valid()
      ensures Find(arpCache, ip) == Aged(old(arpCache)[ip], timeoutCounter, fails)
      ensures old(arpCache)[ip].counter > 1 ==>
                var (e, c) := (old(arpCache)[ip], old(arpCache)[ip].counter - 1);
                && hw == old(hw)
                && (ip in arpCache ==> arpCache[ip] == e.(counter := c))
                && (ip !in arpCache <==>
                      && !e.rib && e.mac.None? && c > 7 && c != timeoutCounter / 2 && c != timeoutCounter / 4
                      && c != 60 && c != 30 && !(timeoutCounter - 5 < c <= timeoutCounter))
      ensures old(arpCache)[ip].counter <= 1 ==>
                var e := old(arpCache)[ip];
                && (ip in arpCache <==> e.rib)
                && (e.rib ==> arpCache[ip] == if e.mac.Some? && fails then e
                                              else e.(mac := None, counter := timeoutCounter))
                && hw == (if e.mac.Some? && !fails then old(hw) - {ip} else old(hw))
      ensures arpCache.Keys <= old(arpCache).Keys
      ensures forall other :: other in old(arpCache) && other != ip ==>
                other in arpCache && arpCache[other] == old(arpCache)[other]
    {
      var e := arpCache[ip];
      if e.counter <= MIN_CNT {
        if !e.rib {
          arpCache := arpCache - {ip};
          if e.mac.Some? {
            DeleteIPv4Neighbor(ip, fails);
          }
        } else {
          if e.mac.Some? {
            DeleteIPv4Neighbor(ip, fails);
            if fails { return; }
          }
          arpCache := arpCache[ip := e.(mac := None, counter := timeoutCounter)];
        }
      } else {
        e := e.(counter := e.counter - 1);
        arpCache := arpCache[ip := e];
        if e.counter <= MIN_CNT + RETRY_CNT + 1 || e.counter == timeoutCounter / 2 || e.counter == timeoutCounter / 4
          || e.counter == ONE_MIN_CNT || e.counter == THIRTY_SEC_CNT
        {
          // asks for the address again
        } else if timeoutCounter - RETRY_CNT < e.counter <= timeoutCounter && e.mac.None? {
          // asks for the address again
        } else if e.counter > MIN_CNT + RETRY_CNT + 1 && e.mac.Some? {
        } else if !e.rib {
          arpCache := arpCache - {ip};
        }
      }
    }

    /** One tick for every entry. */
    method ProcessArpCounterUpdateMsg(fails: Ip -> bool)
      requires Valid()
      modifies this`arpCache, this`hw, this`failed
      ensures NeverFails(fails) ==> failed == old(failed)
      ensures Valid() && arpCache.Keys <= old(arpCache).Keys
      ensures forall ip :: ip in old(arpCache) ==>
                Find(arpCache, ip) == Aged(old(arpCache)[ip], timeoutCounter, fails(ip))
    {
      var todo := arpCache.Keys;
      while todo != {}
        invariant NeverFails(fails) ==> failed == old(failed)
        invariant Valid() && todo <= arpCache.Keys <= old(arpCache).Keys
        invariant forall ip :: ip in todo ==> arpCache[ip] == old(arpCache)[ip]
        invariant forall ip :: ip in old(arpCache) && ip !in todo ==>
                    Find(arpCache, ip) == Aged(old(arpCache)[ip], timeoutCounter, fails(ip))
        decreases todo
      {
        var ip :| ip in todo;
        todo := todo - {ip};
        AgeEntry(ip, fails(ip));
      }
    }

    /** Ticks without messages in between age every entry by itself. */
    method Tick(fails: seq<Ip -> bool>)
      requires Valid()
      modifies this`arpCache, this`hw, this`failed
      ensures Valid() && arpCache.Keys <= old(arpCache).Keys
      ensures forall ip :: ip in old(arpCache) ==>
                Find(arpCache, ip) == AgedTimes(old(arpCache)[ip], timeoutCounter, FatesOf(fails, ip))
    {
      hide Aged;
      for i := 0 to |fails|
        invariant Valid() && arpCache.Keys <= old(arpCache).Keys
        invariant forall ip :: ip in old(arpCache) ==>
                    Find(arpCache, ip) == AgedTimes(old(arpCache)[ip], timeoutCounter, FatesOf(fails[..i], ip))
      {
        forall ip ensures FatesOf(fails[..i + 1], ip)[..i] == FatesOf(fails[..i], ip) {}
        ProcessArpCounterUpdateMsg(fails[i]);
      }
      assert fails[..|fails|] == fails;
    }

    method Handle(m: Message)
      requires Valid()
      modifies this
      ensures Valid() && (!MayFail(m) ==> failed == old(failed))
      ensures timeoutCounter == if m.NewTimeout? && m.timeout >= 300 then m.timeout else old(timeoutCounter)
      ensures match m
              case Learn(ip, mac, port, vlan, l3IfIdx, rib, fails) => Told(ip, mac, port, vlan, l3IfIdx, rib, fails)
              case PortDown(port, fate) =>
                && (forall ip :: ip in arpCache ==> ip in old(arpCache) && arpCache[ip] == old(arpCache)[ip])
                && (forall ip :: ip in old(arpCache) && old(arpCache)[ip].port != port ==> ip in arpCache)
                && (NeverFails(fate) ==> forall ip :: ip in arpCache ==> arpCache[ip].port != port)
              case TickOnce(fate) =>
                && arpCache.Keys <= old(arpCache).Keys
                && forall ip :: ip in old(arpCache) ==>
                     Find(arpCache, ip) == Aged(old(arpCache)[ip], timeoutCounter, fate(ip))
              case NewTimeout(timeout) =>
                && arpCache.Keys == old(arpCache).Keys
                && forall ip :: ip in arpCache ==>
                     var e := old(arpCache)[ip];
                     arpCache[ip] == if timeout >= 300 && e.counter > timeout then e.(counter := timeout) else e
              case MacMove(ip, port) =>
                arpCache == if ip in old(arpCache) then old(arpCache)[ip := old(arpCache)[ip].(port := port)]
                            else old(arpCache)
              case DeleteFromRib(ip, fails) =>
                if ip !in old(arpCache) || !old(arpCache)[ip].rib then arpCache == old(arpCache)
                else arpCache == if old(arpCache)[ip].mac.Some? && fails then old(arpCache) else old(arpCache) - {ip}
              case DeleteByIPAddr(ip, fails) =>
                if ip !in old(arpCache) || old(arpCache)[ip].rib then arpCache == old(arpCache)
                else arpCache == if old(arpCache)[ip].mac.Some? && fails then old(arpCache) else old(arpCache) - {ip}
              case RefreshByIPAddr(ip, fails) =>
                && arpCache.Keys == old(arpCache).Keys
                && (ip in arpCache ==>
                      arpCache == if old(arpCache)[ip].mac.Some? && fails then old(arpCache)
                                  else old(arpCache)[ip := old(arpCache)[ip].(mac := None, counter := timeoutCounter)])
    {
      hide Agree, Aged, Told;
      match m {
        case Learn(ip, mac, port, vlan, l3IfIdx, rib, fails) =>
          ProcessArpEntryUpdateMsg(ip, mac, port, vlan, l3IfIdx, rib, fails);
        case PortDown(port, fails) =>
          ProcessArpEntryDeleteMsg(port, fails);
        case TickOnce(fails) =>
          ProcessArpCounterUpdateMsg(fails);
        case NewTimeout(timeout) =>
          if timeout >= MIN_REFRESH_TIMEOUT {
            timeoutCounter := timeout;
            ProcessArpEntryCntUpdateMsg(timeout);
          }
        case MacMove(ip, port) =>
          ProcessArpEntryMacMoveMsg(ip, port);
        case DeleteFromRib(ip, fails) =>
          ProcessArpEntryDeleteMsgFromRib(ip, fails);
        case DeleteByIPAddr(ip, fails) =>
          ProcessDeleteByIPAddr(ip, fails);
        case RefreshByIPAddr(ip, fails) =>
          ProcessRefreshByIPAddr(ip, fails);
      }
    }
  }

  /**
   After any run of messages every resolved entry is in the hardware with its MAC, and
   if no hardware call failed the hardware holds exactly the resolved entries.
   */
  method Run(messages: seq<Message>, timeout: int) returns (server: ARPServer)
    ensures Agree(server.arpCache, server.hw, server.failed)
    ensures (forall i :: 0 <= i < |messages| ==> !MayFail(messages[i])) ==> !server.failed
  {
    server := new ARPServer(timeout);
    for i := 0 to |messages|
      invariant fresh(server) && server.Valid()
      invariant (forall j :: 0 <= j < i ==> !MayFail(messages[j])) ==> !server.failed
    {
      hide Agree, MayFail;
      server.Handle(messages[i]);
    }
  }
}
