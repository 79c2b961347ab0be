/**
 A BFD session in asynchronous mode (sections 6.2 and 6.8.6 of RFC 5880), and two of
 them over channels that lose, repeat and reorder packets.
 */
module BfdSessions {
  import opened Wrappers

  /** Administrative states are not part of this model. */
  datatype State = Down | Init | Up

  datatype Event = RemoteDown | RemoteInit | RemoteUp | Timeout

  datatype Diag = DiagNone | DiagTimeExpired | DiagNeighborSignalDown

  const DEFAULT_BFD_VERSION := 1

  datatype Packet = Packet(version: nat, state: State, detectMult: nat, multipoint: bool, myDiscriminator: nat)

  function EventOf(remote: State): Event {
    match remote
    case Down => RemoteDown
    case Init => RemoteInit
    case Up => RemoteUp
  }

  /** The next state of section 6.8.6 of RFC 5880, read by what is received. */
  function Next(s: State, e: Event): State {
    match e
    case RemoteDown => if s.Down? then Init else if s.Init? then Init else Down
    case RemoteInit => Up
    case RemoteUp => if s.Down? then Down else Up
    case Timeout => Down
  }

  lemma EventKind(remote: State)
    ensures !EventOf(remote).Timeout?
  {
  }

  /** The same, case by case. */
  lemma NextInWords(s: State, remote: State)
    ensures Next(s, EventOf(remote)) ==
            if remote.Down? then (if s.Up? then Down else Init)
            else if remote.Init? then Up
            else if s.Down? then Down else Up
    ensures Next(s, Timeout) == Down
  {
  }

  /** The states of two sessions after each has received a fresh packet of the other, `b` first. */
  function Round(a: State, b: State): (State, State) {
    var b' := Next(b, EventOf(a));
    (Next(a, EventOf(b')), b')
  }

  function Rounds(a: State, b: State, n: nat): (State, State)
    decreases n
  {
    if n == 0 then (a, b)
    else
      var (a', b') := Round(a, b);
      Rounds(a', b', n - 1)
  }

  /** Three rounds without loss bring two sessions up from any states, and then they stay up. */
  lemma {:induction false} Converges(a: State, b: State, n: nat)
    requires n >= 3
    ensures Rounds(a, b, n) == (Up, Up)
  {
    var (a1, b1) := Round(a, b);
    var (a2, b2) := Round(a1, b1);
    var (a3, b3) := Round(a2, b2);
    assert (a3, b3) == (Up, Up);
    assert Rounds(a, b, n) == Rounds(a1, b1, n - 1) == Rounds(a2, b2, n - 2) == Rounds(a3, b3, n - 3);
    StaysUp(n - 3);
  }

  lemma {:induction false} StaysUp(n: nat)
    ensures Rounds(Up, Up, n) == (Up, Up)
  {
    if n > 0 { StaysUp(n - 1); }
  }

  /** Two rounds are not always enough: one end may still believe in a session the other has lost. */
  lemma TwoRoundsFall(a: State, b: State)
    ensures Rounds(a, b, 2) == (Up, Up) <==> !(a.Up? && b.Down?)
  {
    var (a1, b1) := Round(a, b);
    assert Rounds(a, b, 2) == Rounds(a1, b1, 1) == Rounds(Round(a1, b1).0, Round(a1, b1).1, 0);
  }

  /** Notifications alternate, starting with up; the value is the last one. */
  ghost function Told(notifications: seq<bool>): Option<bool> {
    if notifications == [] then Some(false)
    else
      var before, last := Told(notifications[..|notifications| - 1]), notifications[|notifications| - 1];
      if before == Some(!last) then Some(last) else None
  }

  lemma ToldNext(notifications: seq<bool>, up: bool)
    requires Told(notifications) == Some(!up)
    ensures Told(notifications + [up]) == Some(up)
  {
    assert (notifications + [up])[..|notifications|] == notifications;
  }

  class BfdSession {
    var isClientActive: bool
    var sessionState: State
    var remoteSessionState: State
    var remoteDiscriminator: nat
    var localDiagType: Diag
    var movedToDownState: bool
    var stateChanged: bool
    var remoteParamChanged: bool
    var notifiedState: bool
    // the control packet that is sent until it has to be rebuilt
    var bfdPacket: Packet
    // what owners of the session were told: true for up
    var notifications: seq<bool>
    // a packet of the peer has been processed
    ghost var heard: bool

    /**
     Only a session that has heard its peer is in Init or Up, or says so; a packet that is
     out of date is due to be rebuilt; owners know whether the session is Up.
     */
    ghost predicate Valid()
      reads this
    {
      && (!sessionState.Down? ==> heard)
      && (!bfdPacket.state.Down? ==> heard)
      && (!stateChanged ==> bfdPacket.state == sessionState)
      && notifiedState == sessionState.Up?
      && Told(notifications) == Some(notifiedState)
    }

    constructor (discriminator: nat, detectMult: nat)
      ensures Valid() && sessionState.Down? && !heard && notifications == []
    {
      isClientActive, sessionState, remoteSessionState, remoteDiscriminator := true, Down, Down, 0;
      localDiagType, movedToDownState, stateChanged, remoteParamChanged := DiagNone, false, false, false;
      notifiedState, notifications, heard := false, [], false;
      bfdPacket := Packet(DEFAULT_BFD_VERSION, Down, detectMult, false, discriminator);
    }

    method SendBfdNotification()
      requires Told(notifications) == Some(notifiedState)
      modifies this`notifiedState, this`notifications
      ensures notifiedState == sessionState.Up? && Told(notifications) == Some(notifiedState)
      ensures notifications == if old(notifiedState) == sessionState.Up? then old(notifications)
                               else old(notifications) + [sessionState.Up?]
    {
      var up := sessionState.Up?;
      if up != notifiedState {
        ToldNext(notifications, up);
        notifiedState := up;
        notifications := notifications + [up];
      }
    }

    method MoveToDownState()
      requires Told(notifications) == Some(notifiedState)
      modifies this`sessionState, this`movedToDownState, this`stateChanged, this`notifiedState, this`notifications
      ensures sessionState.Down? && movedToDownState && stateChanged && !notifiedState
      ensures Told(notifications) == Some(notifiedState)
      ensures notifications == if old(notifiedState) then old(notifications) + [false] else old(notifications)
    {
      sessionState := Down;
      movedToDownState := true;
      stateChanged := true;
      SendBfdNotification();
    }

    method MoveToInitState()
      modifies this`sessionState, this`movedToDownState, this`stateChanged
      ensures sessionState.Init? && stateChanged
    {
      sessionState := Init;
      stateChanged := true;
      movedToDownState := false;
    }

    method MoveToUpState()
      requires Told(notifications) == Some(notifiedState)
      modifies this`sessionState, this`movedToDownState, this`stateChanged, this`localDiagType,
               this`notifiedState, this`notifications
      ensures sessionState.Up? && stateChanged && notifiedState && localDiagType.DiagNone? && !movedToDownState
      ensures Told(notifications) == Some(notifiedState)
      ensures notifications == if old(notifiedState) then old(notifications) else old(notifications) + [true]
    {
      sessionState := Up;
      stateChanged := true;
      movedToDownState := false;
      localDiagType := DiagNone;
      SendBfdNotification();
    }

    /** The state machine; nothing happens before the session's client is started. */
    method EventHandler(e: Event)
      requires Valid() && (!e.Timeout? ==> heard)
      modifies this`sessionState, this`movedToDownState, this`stateChanged, this`localDiagType,
               this`notifiedState, this`notifications
      ensures Valid()
      ensures sessionState == if isClientActive then Next(old(sessionState), e) else old(sessionState)
      ensures sessionState != old(sessionState) ==> stateChanged
      ensures sessionState.Up? != old(sessionState).Up? ==> notifications == old(notifications) + [sessionState.Up?]
      ensures sessionState.Up? == old(sessionState).Up? ==> notifications == old(notifications)
      ensures old(stateChanged) ==> stateChanged
      ensures localDiagType == if sessionState.Up? && !old(sessionState).Up? then DiagNone else old(localDiagType)
    {
      hide Told;
      if !isClientActive { return; }
      match sessionState {
        case Down =>
          match e {
            case RemoteDown => MoveToInitState();
            case RemoteInit => MoveToUpState();
            case Timeout | RemoteUp =>
          }
        case Init =>
          match e {
            case RemoteInit | RemoteUp => MoveToUpState();
            case Timeout => MoveToDownState();
            case RemoteDown =>
          }
        case Up =>
          match e {
            case RemoteDown | Timeout => MoveToDownState();
            case RemoteInit | RemoteUp =>
          }
      }
    }

    predicate CanProcessBfdControlPacket(p: Packet) {
      p.version == DEFAULT_BFD_VERSION && p.detectMult != 0 && !p.multipoint && p.myDiscriminator != 0
    }

    /** Processes a packet of the peer; `authentic` is the outcome of its authentication. */
    method ProcessBfdPacket(p: Packet, authentic: bool)
      requires Valid()
      modifies this
      ensures Valid() && isClientActive == old(isClientActive) && bfdPacket == old(bfdPacket)
      ensures heard <==> old(heard) || (authentic && CanProcessBfdControlPacket(p))
      ensures authentic && CanProcessBfdControlPacket(p) ==>
                remoteSessionState == p.state && remoteDiscriminator == p.myDiscriminator
      ensures sessionState == if authentic && CanProcessBfdControlPacket(p) && isClientActive
                              then Next(old(sessionState), EventOf(p.state)) else old(sessionState)
      ensures var usable := authentic && p.version == 1 && p.detectMult != 0 && !p.multipoint && p.myDiscriminator != 0;
              && (heard <==> old(heard) || usable)
              && (remoteSessionState, remoteDiscriminator) ==
                 (if usable then (p.state, p.myDiscriminator) else old((remoteSessionState, remoteDiscriminator)))
              && sessionState == (if !usable || !isClientActive then old(sessionState)
                                  else if p.state.Down? then (if old(sessionState).Up? then Down else Init)
                                  else if p.state.Init? then Up
                                  else if old(sessionState).Down? then Down else Up)
              && notifications == (if sessionState.Up? == old(sessionState).Up? then old(notifications)
                                   else old(notifications) + [sessionState.Up?])
              && (sessionState != old(sessionState) ==> stateChanged)
              && (usable && (p.state, p.myDiscriminator) != old((remoteSessionState, remoteDiscriminator)) ==>
                    remoteParamChanged)
              && (!usable ==> localDiagType == old(localDiagType))
              && (usable && p.state.Down? && !old(sessionState).Down? ==> localDiagType == DiagNeighborSignalDown)
    {
      NextInWords(sessionState, p.state);
      hide Told, Next, EventOf;
      EventKind(p.state);
      if !authentic { return; }
      if !CanProcessBfdControlPacket(p) { return; }
      heard := true;
      if remoteSessionState != p.state || remoteDiscriminator != p.myDiscriminator {
        remoteParamChanged := true;
      }
      remoteSessionState := p.state;
      remoteDiscriminator := p.myDiscriminator;
      if remoteSessionState.Down? && !sessionState.Down? {
        localDiagType := DiagNeighborSignalDown;
      }
      EventHandler(EventOf(remoteSessionState));
    }

    method HandleSessionTimeout()
      requires Valid()
      modifies this
      ensures Valid() && isClientActive == old(isClientActive) && bfdPacket == old(bfdPacket) && heard == old(heard)
      ensures sessionState == if isClientActive then Down else old(sessionState)
      ensures if old(movedToDownState) then remoteSessionState.Down? && remoteDiscriminator == 0
              else remoteSessionState == old(remoteSessionState) && remoteDiscriminator == old(remoteDiscriminator)
      ensures localDiagType == DiagTimeExpired
      ensures notifications == if old(sessionState).Up? && isClientActive then old(notifications) + [false]
                               else old(notifications)
    {
      hide Told;
      if movedToDownState {
        remoteDiscriminator := 0;
        remoteSessionState := Down;
        remoteParamChanged := true;
        movedToDownState := false;
      }
      localDiagType := DiagTimeExpired;
      EventHandler(Timeout);
    }

    /** Sends the control packet, rebuilt first if something has changed since. */
    method SendPeriodicControlPackets() returns (sent: Packet)
      requires Valid()
      modifies this`bfdPacket, this`stateChanged, this`remoteParamChanged
      ensures Valid() && sent == bfdPacket && sent == old(bfdPacket).(state := sessionState)
      ensures !stateChanged
    {
      if stateChanged || remoteParamChanged {
        bfdPacket := bfdPacket.(state := sessionState);
        stateChanged := false;
        remoteParamChanged := false;
      }
      sent := bfdPacket;
    }
  }

  // ---------- Two sessions ----------

  /** What happens next: a session sends, times out, or is handed some packet the other one sent earlier. */
  datatype Step =
    | Send(first: bool)
    | Expire(first: bool)
    | Deliver(first: bool, p: Packet, authentic: bool)

  /** Packets that say Init or Up come from a session that has heard the other. */
  ghost predicate Honest(packets: set<Packet>, heard: bool) {
    forall p :: p in packets && !p.state.Down? ==> heard
  }

  class Pair {
    const a: BfdSession
    const b: BfdSession
    // everything each session has sent so far; the channel may deliver any of it at any time or never
    var fromA: set<Packet>
    var fromB: set<Packet>

    /** A session that is Up has heard its peer and has been heard by it. */
    ghost predicate Valid()
      reads this, a, b
    {
      && a != b && a.Valid() && b.Valid()
      && Honest(fromA, a.heard) && Honest(fromB, b.heard)
      && (a.sessionState.Up? || b.sessionState.Up? ==> a.heard && b.heard)
    }

    constructor (discriminatorA: nat, discriminatorB: nat, detectMultA: nat, detectMultB: nat)
      ensures Valid() && fresh(a) && fresh(b)
    {
      a := new BfdSession(discriminatorA, detectMultA);
      b := new BfdSession(discriminatorB, detectMultB);
      fromA, fromB := {}, {};
    }

    method Take(step: Step)
      requires Valid()
      modifies this, a, b
      ensures Valid()
    {
      hide Told;
      match step {
        case Send(first) =>
          if first {
            var p := a.SendPeriodicControlPackets();
            fromA := fromA + {p};
          } else {
            var p := b.SendPeriodicControlPackets();
            fromB := fromB + {p};
          }
        case Expire(first) =>
          if first {
            a.HandleSessionTimeout();
          } else {
            b.HandleSessionTimeout();
          }
        case Deliver(first, p, authentic) =>
          if first && p in fromB {
            a.ProcessBfdPacket(p, authentic);
          } else if !first && p in fromA {
            b.ProcessBfdPacket(p, authentic);
          }
      }
    }
  }

  /**
   Any run from Down with empty channels, under loss, repetition, reordering and
   timeouts: neither session is ever Up on one-way connectivity.
   */
  method Run(steps: seq<Step>, discriminatorA: nat, discriminatorB: nat, detectMultA: nat, detectMultB: nat)
    returns (pair: Pair)
    ensures pair.a.sessionState.Up? || pair.b.sessionState.Up? ==> pair.a.heard && pair.b.heard
    ensures Told(pair.a.notifications) == Some(pair.a.sessionState.Up?)
    ensures Told(pair.b.notifications) == Some(pair.b.sessionState.Up?)
  {
    pair := new Pair(discriminatorA, discriminatorB, detectMultA, detectMultB);
    for i := 0 to |steps|
      invariant fresh(pair) && fresh(pair.a) && fresh(pair.b) && pair.Valid()
    {
      pair.Take(steps[i]);
    }
  }
}
