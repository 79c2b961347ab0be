/**
 The manager of the up to two machines of one neighbor: it creates a second machine
 for a second connection, resolves the collision (section 6.8 of RFC 4271), and
 reports the session up and down to the server.
 */
module SessionManagers {
  import opened Sessions
  import opened Words
  import opened Wrappers

  type Id = x: int | 0 <= x < 2

  // ---------- Router ids ----------

  /** A byte shifted left within its eight bits. */
  function ShiftByte(b: U8, factor: nat): U8 {
    (b * factor) % 0x100
  }

  /** Octets 1 and 2 are shifted before they are widened. */
  function ConvertIPBytesToUint(id: seq<U8>): int
    requires |id| == 4
  {
    id[0] * 0x100_0000 + ShiftByte(id[1], 0x1_0000) + ShiftByte(id[2], 0x100) + id[3]
  }

  /** Only the first and the last octet of a router id take part in a comparison. */
  lemma ConvertedIdsEqual(a: seq<U8>, b: seq<U8>)
    requires |a| == |b| == 4
    ensures ConvertIPBytesToUint(a) == ConvertIPBytesToUint(b) <==> a[0] == b[0] && a[3] == b[3]
  {
    ShiftedAway(a[1]);
    ShiftedAway(a[2]);
    ShiftedAway(b[1]);
    ShiftedAway(b[2]);
  }

  /** The larger id is the one with the larger first octet, or the larger last octet if the first are the same. */
  lemma ConvertedIdsOrder(a: seq<U8>, b: seq<U8>)
    requires |a| == |b| == 4
    ensures ConvertIPBytesToUint(a) > ConvertIPBytesToUint(b) <==> a[0] > b[0] || (a[0] == b[0] && a[3] > b[3])
  {
    ShiftedAway(a[1]);
    ShiftedAway(a[2]);
    ShiftedAway(b[1]);
    ShiftedAway(b[2]);
  }

  lemma ShiftedAway(b: U8)
    ensures ShiftByte(b, 0x1_0000) == 0 && ShiftByte(b, 0x100) == 0
  {
    assert b * 0x1_0000 == (b * 0x100) * 0x100;
  }

  // ---------- Collisions ----------

  function Opposite(d: Dir): Dir {
    if d.Out? then In else Out
  }

  lemma TwoDirections(c: Dir, d: Dir)
    ensures c == d || c == Opposite(d)
  {
  }

  /** The direction of the connection that loses: the speaker with the larger id keeps the one it opened. */
  function Loser(local: int, remote: int): Dir {
    if local > remote then In else Out
  }

  /** No two machines hold connections of the same direction. */
  ghost predicate Apart(fsms: map<Id, Machine>) {
    forall x, y :: x in fsms && y in fsms && x != y && fsms[x].conn.Some? ==> fsms[x].conn != fsms[y].conn
  }

  ghost predicate Linked(fsms: map<Id, Machine>) {
    forall x :: x in fsms ==> (fsms[x].conn.Some? <==> Connected(fsms[x].state))
  }

  predicate Deep(s: State) {
    s.OpenConfirm? || s.Established?
  }

  ghost predicate AtMostOneDeep(fsms: map<Id, Machine>) {
    forall x, y :: x in fsms && y in fsms && Deep(fsms[x].state) && Deep(fsms[y].state) ==> x == y
  }

  /** The direction that an OPEN received by machine `id` closes, if there is a collision. */
  function Closing(fsms: map<Id, Machine>, id: Id, local: int, remote: int): Option<Dir>
    requires id in fsms && fsms[id].conn.Some?
  {
    var other: Id := 1 - id;
    if other !in fsms || !Connected(fsms[other].state) then None
    else if fsms[other].state.Established? then fsms[id].conn
    else Some(Loser(local, remote))
  }

  /**
   The machines left after an OPEN received by machine `id`, if their connections are of
   different directions: of two machines with connections of the losing direction the
   code closes the one that it happens to find.
   */
  function Surviving(fsms: map<Id, Machine>, id: Id, local: int, remote: int): map<Id, Machine>
    requires id in fsms && fsms[id].conn.Some?
  {
    var closing := Closing(fsms, id, local, remote);
    map x | x in fsms && (closing.None? || fsms[x].conn != closing)  :: fsms[x]
  }

  /** One connection opened by each side, neither Established. */
  ghost predicate Colliding(fsms: map<Id, Machine>) {
    && 0 in fsms && 1 in fsms && Apart(fsms) && Linked(fsms)
    && (forall x :: x in fsms ==> fsms[x].state.OpenSent? || fsms[x].state.OpenConfirm?)
  }

  lemma OnlyTwo(fsms: map<Id, Machine>, id: Id)
    ensures forall x :: x in fsms ==> x == id || x == 1 - id
  {
  }

  /**
   Whichever OPEN comes first, the same single connection is left, the one opened by the
   speaker with the larger id, and its machine is told to go on.
   */
  lemma CollisionResolved(fsms: map<Id, Machine>, id: Id, local: int, remote: int)
    requires Colliding(fsms) && id in fsms
    ensures var left := Surviving(fsms, id, local, remote);
            && |left| == 1
            && (forall x :: x in left ==> x in fsms && left[x] == fsms[x])
            && (forall x :: x in left ==> left[x].conn == Some(if local > remote then Out else In))
            && (id in left <==> fsms[id].conn == Some(if local > remote then Out else In))
            && (id in left <==> Closing(fsms, id, local, remote) != fsms[id].conn)
  {
    var left := Surviving(fsms, id, local, remote);
    var other: Id := 1 - id;
    assert fsms[id].conn != fsms[other].conn && fsms[id].conn.Some? && fsms[other].conn.Some?;
    OnlyTwo(fsms, id);
    TwoDirections(fsms[other].conn.value, fsms[id].conn.value);
    var kept := if fsms[id].conn == Some(Loser(local, remote)) then other else id;
    assert left.Keys == {kept};
    assert |left| == |left.Keys|;
  }

  /** What two speakers are left with is one TCP connection: outgoing at one end, incoming at the other. */
  ghost predicate SameConnection(a: map<Id, Machine>, b: map<Id, Machine>) {
    forall i, j :: i in a && j in b ==>
      a[i].conn.Some? && b[j].conn.Some? && a[i].conn.value == Opposite(b[j].conn.value)
  }

  lemma OneEach(a: map<Id, Machine>, b: map<Id, Machine>, c: Dir, d: Dir)
    requires |a| == |b| == 1
    requires (forall i :: i in a ==> a[i].conn == Some(c)) && (forall j :: j in b ==> b[j].conn == Some(d))
    ensures SameConnection(a, b) <==> c == Opposite(d)
  {
    assert |a.Keys| == 1 && |b.Keys| == 1;
    assert a.Keys != {} && b.Keys != {};
    var i :| i in a;
    var j :| j in b;
    assert a[i].conn.value == c && b[j].conn.value == d;
  }

  /**
   Two speakers keep the same TCP connection if and only if their ids differ in the
   first or the last octet, and then it is the one opened by the end with the larger
   octet; otherwise each keeps the one it did not open, which the other drops.
   */
  lemma CollisionAgreement(a: map<Id, Machine>, b: map<Id, Machine>, x: Id, y: Id, idA: seq<U8>, idB: seq<U8>)
    requires Colliding(a) && Colliding(b) && x in a && y in b && |idA| == |idB| == 4
    ensures var (local, remote) := (ConvertIPBytesToUint(idA), ConvertIPBytesToUint(idB));
            SameConnection(Surviving(a, x, local, remote), Surviving(b, y, remote, local))
            <==> idA[0] != idB[0] || idA[3] != idB[3]
    ensures var (local, remote) := (ConvertIPBytesToUint(idA), ConvertIPBytesToUint(idB));
            var larger := idA[0] > idB[0] || (idA[0] == idB[0] && idA[3] > idB[3]);
            var smaller := idA[0] < idB[0] || (idA[0] == idB[0] && idA[3] < idB[3]);
            && (forall i :: i in Surviving(a, x, local, remote) ==>
                  Surviving(a, x, local, remote)[i].conn == Some(if larger then Out else In))
            && (forall j :: j in Surviving(b, y, remote, local) ==>
                  Surviving(b, y, remote, local)[j].conn == Some(if smaller then Out else In))
  {
    var local, remote := ConvertIPBytesToUint(idA), ConvertIPBytesToUint(idB);
    ConvertedIdsOrder(idA, idB);
    ConvertedIdsOrder(idB, idA);
    CollisionResolved(a, x, local, remote);
    CollisionResolved(b, y, remote, local);
    ConvertedIdsEqual(idA, idB);
    OneEach(Surviving(a, x, local, remote), Surviving(b, y, remote, local),
            if local > remote then Out else In, if remote > local then Out else In);
  }

  /** Two routers whose ids differ only in the third octet drop both connections. */
  lemma NeitherSurvives(a: map<Id, Machine>, b: map<Id, Machine>, x: Id, y: Id)
    requires Colliding(a) && Colliding(b) && x in a && y in b
    ensures var (local, remote) := (ConvertIPBytesToUint([10, 0, 1, 1]), ConvertIPBytesToUint([10, 0, 2, 1]));
            !SameConnection(Surviving(a, x, local, remote), Surviving(b, y, remote, local))
  {
    CollisionAgreement(a, b, x, y, [10, 0, 1, 1], [10, 0, 2, 1]);
  }

  /** Of two connections of one direction neither is closed if and only if the other direction loses. */
  lemma SameDirectionUnresolved(fsms: map<Id, Machine>, id: Id, local: int, remote: int, d: Dir)
    requires 0 in fsms && 1 in fsms && id in fsms && Linked(fsms)
    requires forall x :: x in fsms ==> fsms[x].conn == Some(d) && !fsms[x].state.Established?
    ensures Surviving(fsms, id, local, remote) == fsms <==> d != Loser(local, remote)
  {
    var other: Id := 1 - id;
    assert Closing(fsms, id, local, remote) == Some(Loser(local, remote));
    if d == Loser(local, remote) { assert id !in Surviving(fsms, id, local, remote); }
  }

  // ---------- The manager ----------

  /** Reports alternate, starting with up; the value is whether the last one was up. */
  ghost function Up(reports: seq<bool>): Option<bool> {
    if reports == [] then Some(false)
    else
      var before, last := Up(reports[..|reports| - 1]), reports[|reports| - 1];
      if before == Some(!last) then Some(last) else None
  }

  lemma UpNext(reports: seq<bool>, up: bool)
    requires Up(reports) == Some(!up)
    ensures Up(reports + [up]) == Some(up)
  {
    assert (reports + [up])[..|reports|] == reports;
  }

  /** Only OpenConfirm leads to Established and only OpenSent, on an OPEN, to OpenConfirm. */
  lemma DeeperOnlyByOne(m: Machine, e: Event, bfdDown: bool)
    ensures var m' := Stepped(m, e, bfdDown);
            && (m'.conn.Some? <==> Connected(m'.state))
            && (Deep(m'.state) && !Deep(m.state) ==> m.state.OpenSent? && m'.state.OpenConfirm?)
            && (m'.state.Established? && !m.state.Established? ==> m.state.OpenConfirm?)
  {
  }

  datatype Step =
    | Process(id: Id, e: Event, remote: int)     // a machine processes an event; an OPEN carries the remote id
    | NewConn(id: Id, dir: Dir)                  // a machine that is busy hands on another connection
    | ConnFailed(id: Id)                         // a machine reports that its TCP connection failed
    | Stop                                       // all machines are told that their connection failed
    | BfdChanged(down: bool)                     // the neighbor's BFD status changes; what machines then do is events
    | Cleanup

  /**
   The machines after one of them has processed an event: an OPEN in OpenSent goes through
   the collision handling, and a machine that is left takes its step.
   */
  function Processed(fsms: map<Id, Machine>, id: Id, e: Event, local: int, remote: int, bfdDown: bool)
    : map<Id, Machine>
    requires id in fsms && (fsms[id].state.OpenSent? ==> fsms[id].conn.Some?)
  {
    if fsms[id].state.OpenSent? && e.BGPOpen? then
      var left := Surviving(fsms, id, local, remote);
      if id in left then left[id := Stepped(fsms[id], BGPOpen(e.holdTime, true), bfdDown)] else left
    else fsms[id := Stepped(fsms[id], e, bfdDown)]
  }

  class FSMManager {
    const localId: int
    var bfdDown: bool
    var fsms: map<Id, Machine>
    var activeFSM: Option<Id>
    // what was reported to the server: true for up, false for down
    var reports: seq<bool>

    /** The active machine is Established, reports alternate and follow it, and at most one machine is past OpenSent. */
    ghost predicate Valid()
      reads this
    {
      && Linked(fsms) && AtMostOneDeep(fsms)
      && (activeFSM.Some? ==> activeFSM.value in fsms && fsms[activeFSM.value].state.Established?)
      && Up(reports) == Some(activeFSM.Some?)
    }

    constructor (localId: int, bfdDown: bool)
      ensures Valid() && Apart(fsms) && reports == []
    {
      this.localId, this.bfdDown := localId, bfdDown;
      fsms := map[0 := Machine(Idle, None, false)];
      activeFSM, reports := None, [];
    }

    method FsmBroken(id: Id)
      requires Up(reports) == Some(activeFSM.Some?)
      modifies this`activeFSM, this`reports
      ensures activeFSM == if old(activeFSM) == Some(id) then None else old(activeFSM)
      ensures reports == if old(activeFSM) == Some(id) then old(reports) + [false] else old(reports)
      ensures Up(reports) == Some(activeFSM.Some?)
    {
      if activeFSM == Some(id) {
        UpNext(reports, false);
        activeFSM := None;
        reports := reports + [false];
      }
    }

    method FsmEstablished(id: Id)
      requires activeFSM.None? && Up(reports) == Some(false)
      modifies this`activeFSM, this`reports
      ensures activeFSM == (if id in fsms then Some(id) else None) && Up(reports) == Some(activeFSM.Some?)
      ensures reports == if id in fsms then old(reports) + [true] else old(reports)
    {
      if id in fsms {
        UpNext(reports, true);
        activeFSM := Some(id);
        reports := reports + [true];
      }
    }

    /** Stops a machine; a session it carried is reported down. */
    method FsmClose(id: Id)
      requires Valid()
      modifies this`activeFSM, this`reports, this`fsms
      ensures Valid() && fsms == old(fsms) - {id}
      ensures reports == if id in old(fsms) && old(activeFSM) == Some(id) then old(reports) + [false] else old(reports)
    {
      hide Up;
      if id in fsms {
        FsmBroken(id);
        fsms := fsms - {id};
      }
    }

    method FsmTcpConnFailed(id: Id)
      requires Valid()
      modifies this`activeFSM, this`reports, this`fsms
      ensures Valid() && reports == old(reports)
      ensures fsms == if |old(fsms)| != 1 && old(activeFSM) != Some(id) then old(fsms) - {id} else old(fsms)
    {
      if |fsms| != 1 && activeFSM != Some(id) {
        FsmClose(id);
      }
    }

    /** A second machine for another connection: it listens for an incoming one or dials an outgoing one. */
    method CreateFSMForNewConnection(id: Id, dir: Dir)
      requires Valid()
      modifies this`fsms
      ensures Valid() && (Apart(old(fsms)) ==> Apart(fsms))
      ensures fsms == if id in old(fsms) then old(fsms)
                      else old(fsms)[id := Machine(if dir.Out? && !bfdDown then Connect else Active, None, false)]
    {
      hide Up;
      if id in fsms { return; }
      fsms := fsms[id := Machine(Landed(if dir.Out? then Connect else Active, bfdDown), None, false)];
    }

    method GetFSMIdByDir(dir: Dir) returns (id: Option<Id>)
      ensures id.Some? ==> id.value in fsms && fsms[id.value].conn == Some(dir)
      ensures id.None? ==> forall x :: x in fsms ==> fsms[x].conn != Some(dir)
    {
      id := None;
      var todo := fsms.Keys;
      while todo != {}
        invariant todo <= fsms.Keys
        invariant forall x :: x in fsms && x !in todo ==> fsms[x].conn != Some(dir)
        decreases todo
      {
        var x :| x in todo;
        if fsms[x].conn == Some(dir) { return Some(x); }
        todo := todo - {x};
      }
    }

    /** Collision handling for an OPEN received by machine `id`; false if its own connection has to go. */
    method ReceivedBGPOpenMessage(id: Id, remote: int) returns (accepted: bool)
      requires Valid() && Apart(fsms) && id in fsms && fsms[id].conn.Some?
      modifies this`activeFSM, this`reports, this`fsms
      ensures Valid() && Apart(fsms)
      ensures fsms == Surviving(old(fsms), id, localId, remote)
      ensures accepted <==> id in fsms
      ensures accepted ==> forall x :: x in fsms && x != id ==> !Connected(fsms[x].state)
      ensures var (own, other) := (old(fsms)[id], 1 - id);
              if other !in old(fsms) || old(fsms)[other].conn.None? then accepted && fsms == old(fsms)
              else if old(fsms)[other].state.Established? then !accepted && fsms == old(fsms) - {id}
              else
                var kept := if localId > remote then Out else In;
                && (accepted <==> own.conn == Some(kept))
                && fsms == map x | x in old(fsms) && old(fsms)[x].conn == Some(kept) :: old(fsms)[x]
    {
      hide Up;
      accepted := true;
      var dir := fsms[id].conn;
      var other: Id := 1 - id;
      OnlyTwo(fsms, id);
      if other in fsms && Connected(fsms[other].state) {
        TwoDirections(fsms[other].conn.value, dir.value);
        var closeConnDir :=
          if fsms[other].state.Established? then dir.value
          else if localId > remote then In
          else Out;
        var closing := GetFSMIdByDir(closeConnDir);
        if closing.Some? {
          FsmClose(closing.value);
        }
        accepted := Some(closeConnDir) != dir;
      }
    }

    /** Machine `id` takes its next state and reports what it crosses. */
    method Advance(id: Id, e: Event)
      requires Valid() && id in fsms
      requires Target(fsms[id].state, fsms[id].passive, bfdDown, e).OpenConfirm? && fsms[id].state.OpenSent? ==>
                 forall x :: x in fsms && x != id ==> !Connected(fsms[x].state)
      modifies this`activeFSM, this`reports, this`fsms
      ensures Valid() && fsms == old(fsms)[id := Stepped(old(fsms)[id], e, bfdDown)]
      ensures var (wasUp, upNow) := (old(fsms)[id].state.Established?, fsms[id].state.Established?);
              || reports == old(reports)
              || (reports == old(reports) + [true] && !wasUp && upNow)
              || (reports == old(reports) + [false] && wasUp && !upNow)
      ensures !old(fsms)[id].state.Established? && fsms[id].state.Established? ==> activeFSM == Some(id)
    {
      hide Up, Target;
      var before := fsms[id].state;
      var after := Stepped(fsms[id], e, bfdDown);
      DeeperOnlyByOne(fsms[id], e, bfdDown);
      fsms := fsms[id := after];
      if before.Established? && !after.state.Established? {
        FsmBroken(id);
      } else if !before.Established? && after.state.Established? {
        FsmEstablished(id);
      }
    }

    /** Machine `id` processes an event; an OPEN goes through the collision handling first. */
    method ProcessEvent(id: Id, e: Event, remote: int)
      requires Valid() && Apart(fsms) && id in fsms
      modifies this`activeFSM, this`reports, this`fsms
      ensures Valid() && fsms == Processed(old(fsms), id, e, localId, remote, bfdDown)
    {
      hide Up, Surviving;
      var event := e;
      if fsms[id].state.OpenSent? && e.BGPOpen? {
        var accepted := ReceivedBGPOpenMessage(id, remote);
        if !accepted { return; }
        event := BGPOpen(e.holdTime, true);
      }
      Advance(id, event);
    }

    /** Between any two events BFD may report the neighbor down or up again. */
    method SetBfdStatus(down: bool)
      requires Valid()
      modifies this`bfdDown
      ensures Valid() && bfdDown == down
    {
      bfdDown := down;
    }

    /** Every machine is sent a connection failure; the session is reported down at once. */
    method StopFSM()
      requires Valid()
      modifies this`activeFSM, this`reports
      ensures Valid() && activeFSM.None?
      ensures reports == if old(activeFSM).Some? then old(reports) + [false] else old(reports)
    {
      hide Up;
      var todo := fsms.Keys;
      while todo != {}
        invariant Valid() && todo <= fsms.Keys
        invariant activeFSM == None || (activeFSM == old(activeFSM) && activeFSM.value in todo)
        invariant reports == if old(activeFSM).Some? && activeFSM.None? then old(reports) + [false] else old(reports)
        decreases todo
      {
        var id :| id in todo;
        FsmBroken(id);
        todo := todo - {id};
      }
    }

    method Cleanup()
      requires Valid()
      modifies this`activeFSM, this`reports, this`fsms
      ensures Valid() && fsms == map[] && activeFSM.None?
      ensures reports == if old(activeFSM).Some? then old(reports) + [false] else old(reports)
    {
      hide Up;
      var todo := fsms.Keys;
      while todo != {}
        invariant Valid() && todo == fsms.Keys
        invariant reports == if old(activeFSM).Some? && activeFSM.None? then old(reports) + [false] else old(reports)
        invariant activeFSM == None || activeFSM == old(activeFSM)
        decreases todo
      {
        var id :| id in todo;
        FsmBroken(id);
        fsms := fsms - {id};
        todo := todo - {id};
      }
    }

    method Handle(step: Step)
      requires Valid() && Apart(fsms)
      modifies this`activeFSM, this`reports, this`fsms, this`bfdDown
      ensures Valid() && bfdDown == if step.BfdChanged? then step.down else old(bfdDown)
      ensures match step
              case Process(id, e, remote) =>
                fsms == if id in old(fsms) then Processed(old(fsms), id, e, localId, remote, bfdDown) else old(fsms)
              case NewConn(id, dir) =>
                fsms == if 1 - id in old(fsms) then old(fsms)
                        else old(fsms)[1 - id := Machine(if dir.Out? && !bfdDown then Connect else Active, None, false)]
              case ConnFailed(id) =>
                && reports == old(reports)
                && fsms == if |old(fsms)| != 1 && old(activeFSM) != Some(id) then old(fsms) - {id} else old(fsms)
              case Stop => fsms == old(fsms) && activeFSM.None?
              case BfdChanged(_) => fsms == old(fsms) && reports == old(reports)
              case Cleanup => fsms == map[] && activeFSM.None?
    {
      hide Up;
      match step {
        case Process(id, e, remote) =>
          if id in fsms { ProcessEvent(id, e, remote); }
        case NewConn(id, dir) =>
          CreateFSMForNewConnection(1 - id, dir);
        case ConnFailed(id) =>
          FsmTcpConnFailed(id);
        case Stop =>
          StopFSM();
        case BfdChanged(down) =>
          SetBfdStatus(down);
        case Cleanup =>
          Cleanup();
      }
    }
  }

  /**
   Any run of a neighbor, with BFD going down and up, in which its machines never hold
   connections of the same direction: the reports to the server alternate, starting with up, the active
   machine is Established, and at most one machine is in OpenConfirm or Established.
   The run is followed up to the first step after which that condition fails.
   */
  method Run(localId: int, bfdDown: bool, steps: seq<Step>) returns (mgr: FSMManager, n: nat)
    ensures n <= |steps| && mgr.Valid()
    ensures n == |steps| || !Apart(mgr.fsms)
    ensures Up(mgr.reports) == Some(mgr.activeFSM.Some?) && AtMostOneDeep(mgr.fsms)
  {
    mgr := new FSMManager(localId, bfdDown);
    n := 0;
    while n < |steps| && AreApart(mgr.fsms)
      invariant fresh(mgr) && n <= |steps| && mgr.Valid()
    {
      hide Up;
      mgr.Handle(steps[n]);
      n := n + 1;
    }
  }

  predicate AreApart(fsms: map<Id, Machine>)
    ensures AreApart(fsms) <==> Apart(fsms)
  {
    OnlyTwo(fsms, 0);
    !(0 in fsms && 1 in fsms && fsms[0].conn.Some? && fsms[0].conn == fsms[1].conn)
  }
}
