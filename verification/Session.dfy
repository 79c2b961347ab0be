/**
 The state machine of one BGP connection (section 8.2.2 of RFC 4271): six states,
 twenty-eight events, and the calls it makes to its manager.
 */
module Sessions {
  import opened Words
  import opened Wrappers

  datatype Dir = Out | In

  datatype State = Idle | Connect | Active | OpenSent | OpenConfirm | Established

  /** A BGPOpen carries the peer's hold time and the answer of the manager's collision handling. */
  datatype Event =
    | ManualStart | ManualStop | AutoStart | ManualStartPassTcpEst | AutoStartPassTcpEst
    | AutoStartDampPeerOscl | AutoStartDampPeerOsclPassTcpEst | AutoStop
    | ConnRetryTimerExp | HoldTimerExp | KeepAliveTimerExp | DelayOpenTimerExp | IdleHoldTimerExp
    | TcpConnValid | TcpCrInvalid | TcpCrAcked(dir: Dir) | TcpConnConfirmed(dir: Dir) | TcpConnFails
    | BGPOpen(holdTime: U16, accepted: bool) | BGPOpenDelayOpenTimer
    | HeaderErr | OpenMsgErr | OpenCollisionDump | NotifMsgVerErr | NotifMsg
    | KeepAliveMsg | UpdateMsg | UpdateMsgErr

  datatype Message = OpenMessage | KeepAlive | Update | Notification(code: U8)

  datatype ManagerCall =
    | ConnEstablished | ConnBroken | StateChange(state: State)
    | AnotherConnection(dir: Dir) | AcceptPeerConn | RejectPeerConn | TcpConnFailed

  const CEASE: U8 := 6
  const HOLD_TIMER_EXPIRED: U8 := 4
  const FSM_ERROR: U8 := 5
  const HEADER_ERROR: U8 := 1
  const OPEN_ERROR: U8 := 2
  const UPDATE_ERROR: U8 := 3
  const IDLE_HOLD_TIME_DEFAULT := 5

  // ---------- The transition table ----------

  predicate Connected(s: State) {
    s.OpenSent? || s.OpenConfirm? || s.Established?
  }

  predicate IsStart(e: Event) {
    e.ManualStart? || e.AutoStart? || e.ManualStartPassTcpEst? || e.AutoStartPassTcpEst?
    || e.AutoStartDampPeerOscl? || e.AutoStartDampPeerOsclPassTcpEst?
  }

  predicate IsConnection(e: Event) {
    e.TcpCrAcked? || e.TcpConnConfirmed?
  }

  /** Where a change to Connect ends: with BFD down the connection is left to the peer. */
  function Landed(s: State, bfdDown: bool): State {
    if s.Connect? && bfdDown then Active else s
  }

  /** The events that leave a state other than Idle as it is. */
  predicate Ignored(s: State, e: Event)
    requires !s.Idle?
  {
    || IsStart(e) || e.TcpConnValid? || e.TcpCrInvalid?
    || (!Connected(s) && (e.DelayOpenTimerExp? || e.BGPOpenDelayOpenTimer?))
    || (s.Connect? && e.ConnRetryTimerExp?)
    || (Connected(s) && IsConnection(e))
    || (s.OpenSent? && e.BGPOpen? && !e.accepted)
    || ((s.OpenConfirm? || s.Established?) && (e.KeepAliveTimerExp? || e.BGPOpen?))
    || (s.Established? && (e.KeepAliveMsg? || e.UpdateMsg?))
  }

  /** The next state.  Whatever is neither expected nor ignored leads to Idle. */
  function Target(s: State, passive: bool, bfdDown: bool, e: Event): State {
    if s.Idle? then
      if e.ManualStart? || e.AutoStart? then Landed(Connect, bfdDown)
      else if e.ManualStartPassTcpEst? || e.AutoStartPassTcpEst? then Active
      else if e.IdleHoldTimerExp? then (if passive then Active else Landed(Connect, bfdDown))
      else Idle
    else if Ignored(s, e) then s
    else if !Connected(s) && IsConnection(e) then OpenSent
    else if s.Active? && e.ConnRetryTimerExp? then Landed(Connect, bfdDown)
    else if s.OpenSent? && e.BGPOpen? then OpenConfirm
    else if s.OpenSent? && e.TcpConnFails? then Active
    else if s.OpenConfirm? && e.KeepAliveMsg? then Established
    else Idle
  }

  /** What is written to the connection: the one in use, or the one that an event brings. */
  function Written(s: State, e: Event): Option<Message> {
    if !Connected(s) then (if !s.Idle? && IsConnection(e) then Some(OpenMessage) else None)
    else if e.BGPOpen? then (if s.OpenSent? && e.accepted then Some(KeepAlive) else None)
    else if e.KeepAliveTimerExp? && !s.OpenSent? then Some(KeepAlive)
    else if Ignored(s, e) || e.TcpConnFails? || e.NotifMsgVerErr? || (e.NotifMsg? && !s.OpenSent?) then None
    else if e.KeepAliveMsg? && s.OpenConfirm? then None
    else if e.ManualStop? || e.AutoStop? || e.OpenCollisionDump? then Some(Notification(CEASE))
    else if e.HoldTimerExp? then Some(Notification(HOLD_TIMER_EXPIRED))
    else if e.HeaderErr? && !s.Established? then Some(Notification(HEADER_ERROR))
    else if e.OpenMsgErr? && !s.Established? then Some(Notification(OPEN_ERROR))
    else if e.UpdateMsgErr? && s.Established? then Some(Notification(UPDATE_ERROR))
    else Some(Notification(if s.OpenConfirm? then CEASE else FSM_ERROR))
  }

  /** Failed attempts are counted until an operator stops or a start resets the count. */
  function Counted(s: State, e: Event, next: State, counter: int): int {
    if s.Idle? then
      if IsStart(e) && !e.AutoStartDampPeerOscl? && !e.AutoStartDampPeerOsclPassTcpEst? then 0 else counter
    else if Ignored(s, e) then counter
    else if e.ManualStop? then 0
    else if !next.Idle? then counter
    else if (s.Connect? && e.TcpConnFails?) || ((s.OpenSent? || s.OpenConfirm?) && e.NotifMsgVerErr?) then counter
    else counter + 1
  }

  function Extended(sent: seq<(Dir, Message)>, dir: Dir, message: Option<Message>): seq<(Dir, Message)> {
    if message.Some? then sent + [(dir, message.value)] else sent
  }

  /** Up and down reports alternate, starting with up; the value is whether the last one was up. */
  ghost function Reported(calls: seq<ManagerCall>): Option<bool> {
    if calls == [] then Some(false)
    else
      match (Reported(calls[..|calls| - 1]), calls[|calls| - 1])
      case (None, _) => None
      case (Some(up), ConnEstablished) => if up then None else Some(true)
      case (Some(up), ConnBroken) => if up then Some(false) else None
      case (Some(up), _) => Some(up)
  }

  lemma ReportedNext(calls: seq<ManagerCall>, c: ManagerCall)
    ensures Reported(calls + [c]) ==
            match (Reported(calls), c)
            case (None, _) => None
            case (Some(up), ConnEstablished) => if up then None else Some(true)
            case (Some(up), ConnBroken) => if up then Some(false) else None
            case (Some(up), _) => Some(up)
  {
    assert (calls + [c])[..|calls|] == calls;
  }

  /** The hold timer once started; a hold time of zero is none. */
  function Running(holdTime: U32): Option<U32> {
    if holdTime != 0 then Some(holdTime) else None
  }

  function IdleHoldTimeInterval(t: nat): nat {
    if t == 5 then 10 else if t == 10 then 30 else if t == 60 then 120 else if t == 120 then 180
    else if t == 180 then 300 else if t == 300 then 500 else 0
  }

  // ---------- The hold time ----------

  /** A hold time that a peer may ask for and that is below the one in force. */
  predicate Lowers(offer: U32, holdTime: U32) {
    offer < holdTime && !(0 < offer < 3)
  }

  /** The hold time once the OPENs of a connection have made their offers. */
  function Agreed(confHoldTime: U32, offers: seq<U16>): U32 {
    if offers == [] then confHoldTime
    else
      var before, offer := Agreed(confHoldTime, offers[..|offers| - 1]), offers[|offers| - 1];
      if Lowers(offer, before) then offer else before
  }

  lemma AgreedNone(confHoldTime: U32)
    ensures Agreed(confHoldTime, []) == confHoldTime
  {
  }

  lemma AgreedNext(confHoldTime: U32, offers: seq<U16>, offer: U16)
    ensures var before := Agreed(confHoldTime, offers);
            Agreed(confHoldTime, offers + [offer]) == if Lowers(offer, before) then offer else before
  {
    assert (offers + [offer])[..|offers|] == offers;
  }

  lemma {:induction false} AgreedLeast(confHoldTime: U32, offers: seq<U16>)
    ensures var t := Agreed(confHoldTime, offers);
            && (t == confHoldTime || exists o :: o in offers && o == t && Lowers(o, confHoldTime))
            && (forall o :: o in offers ==> !Lowers(o, t)) && t <= confHoldTime
  {
    if offers != [] {
      var init, last := offers[..|offers| - 1], offers[|offers| - 1];
      AgreedLeast(confHoldTime, init);
      assert offers == init + [last];
      assert forall o :: o in offers <==> o in init || o == last;
    }
  }

  /**
   What was agreed on is the least of the configured time and the acceptable offers, which
   are zero and three seconds or more, so it differs from the configured time if and only if
   an acceptable offer is below that.
   */
  lemma AgreedExact(confHoldTime: U32, offers: seq<U16>)
    ensures var t := Agreed(confHoldTime, offers);
            && (t == confHoldTime || (t in offers && t < confHoldTime && (t == 0 || t >= 3)))
            && (forall o :: o in offers && (o == 0 || o >= 3) ==> t <= o) && t <= confHoldTime
            && (t != confHoldTime <==> exists o :: o in offers && o < confHoldTime && (o == 0 || o >= 3))
  {
    AgreedLeast(confHoldTime, offers);
    var t := Agreed(confHoldTime, offers);
    forall o | o in offers && (o == 0 || o >= 3) ensures t <= o { assert !Lowers(o, t); }
    if t != confHoldTime {
      var o :| o in offers && o == t && Lowers(o, confHoldTime);
      assert o in offers && o < confHoldTime && (o == 0 || o >= 3);
    }
  }

  // ---------- The machine ----------

  /** The events that Connect and Active name as errors. */
  predicate AbortsAttempt(e: Event) {
    e.HeaderErr? || e.OpenMsgErr? || e.NotifMsgVerErr? || e.AutoStop? || e.HoldTimerExp? || e.KeepAliveTimerExp?
    || e.IdleHoldTimerExp? || e.BGPOpen? || e.OpenCollisionDump? || e.NotifMsg? || e.KeepAliveMsg? || e.UpdateMsg?
    || e.UpdateMsgErr?
  }

  /** The errors, the stop and the failure are what an attempt does not ignore and does not wait for. */
  lemma AttemptEvents(s: State, e: Event)
    requires s.Connect? || s.Active?
    ensures Ignored(s, e) <==>
            !(e.ManualStop? || e.TcpConnFails? || AbortsAttempt(e) || IsConnection(e)
              || (s.Active? && e.ConnRetryTimerExp?))
  {
  }

  predicate Stops(e: Event) {
    e.ManualStop? || e.AutoStop? || e.OpenCollisionDump? || e.HoldTimerExp?
  }

  /** The events that a connected state names as out of place. */
  predicate OutOfPlace(s: State, e: Event) {
    e.ConnRetryTimerExp? || e.DelayOpenTimerExp? || e.IdleHoldTimerExp? || e.BGPOpenDelayOpenTimer?
    || (s.OpenSent? && (e.KeepAliveTimerExp? || e.NotifMsg? || e.KeepAliveMsg? || e.UpdateMsg? || e.UpdateMsgErr?))
    || (s.OpenConfirm? && (e.UpdateMsg? || e.UpdateMsgErr?))
    || (s.Established? && (e.OpenMsgErr? || e.HeaderErr?))
  }

  lemma SessionEvents(s: State, e: Event)
    requires Connected(s)
    ensures s.OpenSent? ==>
              (Ignored(s, e) <==> !(Stops(e) || e.TcpConnFails? || e.HeaderErr? || e.OpenMsgErr? || e.NotifMsgVerErr?
                                    || (e.BGPOpen? && e.accepted) || OutOfPlace(s, e)))
    ensures s.OpenConfirm? ==>
              (Ignored(s, e) <==> !(Stops(e) || e.TcpConnFails? || e.NotifMsg? || e.HeaderErr? || e.OpenMsgErr?
                                    || e.NotifMsgVerErr? || e.KeepAliveMsg? || OutOfPlace(s, e)))
    ensures s.Established? ==>
              (Ignored(s, e) <==> !(Stops(e) || e.TcpConnFails? || e.NotifMsgVerErr? || e.NotifMsg? || e.UpdateMsgErr?
                                    || OutOfPlace(s, e)))
  {
  }

  /** What the loop of a machine receives on its channels and from its timers. */
  datatype Input =
    | OutConn | OutConnErr(stale: bool) | InConn | Close | PassiveTcpEst(flag: bool) | Transmit
    | Packet(e: Event) | Command(e: Event) | BfdStatus(up: bool, useAsDown: bool)
    | ConnectRetryTimeout | HoldTimeout | KeepAliveTimeout | IdleHoldTimeout | RestartTimeout

  predicate IsTimer(i: Input) {
    i.ConnectRetryTimeout? || i.HoldTimeout? || i.KeepAliveTimeout? || i.IdleHoldTimeout? || i.RestartTimeout?
  }

  /** The connection an event is about: the one in use or, without one, the one it brings. */
  function ConnectionOf(conn: Option<Dir>, e: Event): Dir {
    if conn.Some? then conn.value
    else if e.TcpCrAcked? then e.dir
    else if e.TcpConnConfirmed? then e.dir
    else Out
  }

  /** A machine as its manager sees it. */
  datatype Machine = Machine(state: State, conn: Option<Dir>, passive: bool)

  /** The machine after an event: the next state, with a connection if the state uses one. */
  function Stepped(m: Machine, e: Event, bfdDown: bool): Machine {
    var state := Target(m.state, m.passive, bfdDown, e);
    var conn :=
      if !Connected(state) then None
      else if m.conn.Some? then m.conn
      else Some(ConnectionOf(m.conn, e));
    var passive :=
      && state.Idle? && m.state.Idle?
      && (e.AutoStartDampPeerOsclPassTcpEst? || (m.passive && !e.AutoStartDampPeerOscl?));
    Machine(state, conn, passive)
  }

  // ---------- What is said on a connection ----------

  datatype Act = Took(dir: Dir) | Wrote(dir: Dir, message: Message) | CameUp | Dropped

  /** How far the talk on the present connection has come. */
  datatype Phase =
    | Quiet | Taken(dir: Dir) | Greeted(dir: Dir) | Alive(dir: Dir) | Exchanging(dir: Dir) | Ended(dir: Dir)

  /**
   The order of the protocol: on a connection that was taken OPEN comes first and once,
   then KEEPALIVE, UPDATE only once the session is up, and nothing after NOTIFICATION.
   */
  function Follows(phase: Phase, act: Act): Option<Phase> {
    match act
    case Took(dir) => if phase.Quiet? then Some(Taken(dir)) else None
    case CameUp => if phase.Alive? then Some(Exchanging(phase.dir)) else None
    case Dropped => if phase.Quiet? then None else Some(Quiet)
    case Wrote(dir, message) =>
      if phase.Quiet? || phase.dir != dir || phase.Ended? then None
      else
        match message
        case OpenMessage => if phase.Taken? then Some(Greeted(dir)) else None
        case KeepAlive => if phase.Taken? then None else if phase.Greeted? then Some(Alive(dir)) else Some(phase)
        case Update => if phase.Exchanging? then Some(phase) else None
        case Notification(_) => if phase.Taken? then None else Some(Ended(dir))
  }

  /** The phase after a log of acts; None if one was out of order. */
  function Spoken(log: seq<Act>): Option<Phase> {
    if log == [] then Some(Quiet)
    else
      var before := Spoken(log[..|log| - 1]);
      if before.None? then None else Follows(before.value, log[|log| - 1])
  }

  function WritesOf(log: seq<Act>): seq<(Dir, Message)> {
    if log == [] then []
    else
      var last := log[|log| - 1];
      WritesOf(log[..|log| - 1]) + (if last.Wrote? then [(last.dir, last.message)] else [])
  }

  lemma LogNext(log: seq<Act>, act: Act)
    ensures Spoken(log + [act]) == if Spoken(log).None? then None else Follows(Spoken(log).value, act)
    ensures WritesOf(log + [act]) == WritesOf(log) + (if act.Wrote? then [(act.dir, act.message)] else [])
  {
    assert (log + [act])[..|log|] == log;
  }

  function PhaseOf(m: Machine): Phase {
    if m.conn.None? then Quiet
    else if m.state.OpenSent? then Greeted(m.conn.value)
    else if m.state.OpenConfirm? then Alive(m.conn.value)
    else Exchanging(m.conn.value)
  }

  /** The log after a step that wrote `message`, if anything. */
  function Acted(log: seq<Act>, m: Machine, next: Machine, dir: Dir, message: Option<Message>): seq<Act> {
    var taken := if m.conn.None? && next.conn.Some? then log + [Took(dir)] else log;
    var written := if message.Some? then taken + [Wrote(dir, message.value)] else taken;
    var up := if next.state.Established? && !m.state.Established? then written + [CameUp] else written;
    if m.conn.Some? && next.conn.None? then up + [Dropped] else up
  }

  /** A step finds no connection, takes one, leaves it, brings it forward, or ends it. */
  predicate InOrder(m: Machine, next: Machine, dir: Dir, message: Option<Message>) {
    if m.conn.None? then
      || (next.conn.None? && message.None? && !next.state.Established?)
      || (next.state.OpenSent? && next.conn == Some(dir) && message == Some(OpenMessage))
    else
      && m.conn.value == dir && Connected(m.state)
      && if next.conn.None? then !next.state.Established? && (message.None? || message.value.Notification?)
         else
           && next.conn == m.conn
           && (|| (next.state == m.state && (message.None? || (message == Some(KeepAlive) && !m.state.OpenSent?)))
               || (m.state.OpenSent? && next.state.OpenConfirm? && message == Some(KeepAlive))
               || (m.state.OpenConfirm? && next.state.Established? && message.None?))
  }

  /** Whatever the event, the tables of the machine keep to the order of the protocol. */
  lemma StepInOrder(m: Machine, e: Event, bfdDown: bool)
    requires m.conn.Some? <==> Connected(m.state)
    ensures InOrder(m, Stepped(m, e, bfdDown), ConnectionOf(m.conn, e), Written(m.state, e))
  {
    assert Target(m.state, m.passive, bfdDown, e).Established? ==> Connected(m.state);
  }

  lemma LogTwice(log: seq<Act>, a: Act, b: Act)
    requires Spoken(log).Some? && Follows(Spoken(log).value, a).Some?
    ensures Spoken(log + [a] + [b]) == Follows(Follows(Spoken(log).value, a).value, b)
    ensures WritesOf(log + [a] + [b]) ==
            WritesOf(log) + (if a.Wrote? then [(a.dir, a.message)] else [])
              + (if b.Wrote? then [(b.dir, b.message)] else [])
  {
    LogNext(log, a);
    LogNext(log + [a], b);
  }

  lemma StepSpeaks(log: seq<Act>, m: Machine, next: Machine, dir: Dir, message: Option<Message>)
    requires InOrder(m, next, dir, message) && Spoken(log) == Some(PhaseOf(m))
    ensures Spoken(Acted(log, m, next, dir, message)) == Some(PhaseOf(next))
    ensures WritesOf(Acted(log, m, next, dir, message)) == Extended(WritesOf(log), dir, message)
  {
    hide Spoken, WritesOf;
    if m.conn.None? {
      if message.Some? { LogTwice(log, Took(dir), Wrote(dir, OpenMessage)); }
    } else if next.conn.None? {
      LogNext(log, Dropped);
      if message.Some? { LogTwice(log, Wrote(dir, message.value), Dropped); }
    } else {
      LogNext(log, CameUp);
      if message.Some? { LogNext(log, Wrote(dir, message.value)); }
    }
  }

  // ---------- The tables, input by input ----------

  /** A machine holds a connection in exactly the states that use one. */
  predicate Settled(m: Machine) {
    && (m.conn.Some? <==> m.state.OpenSent? || m.state.OpenConfirm? || m.state.Established?)
    && (m.passive ==> m.state.Idle?)
  }

  /** An event takes the machine to `next`, with `message` written to its connection or the one it takes. */
  predicate Gives(m: Machine, e: Event, bfdDown: bool, next: Machine, message: Option<Message>) {
    Stepped(m, e, bfdDown) == next && Written(m.state, e) == message
  }

  /** The hold timer ends a connection with a notification, the keepalive timer keeps it alive. */
  lemma LifeTable(m: Machine, bfdDown: bool)
    requires Settled(m)
    ensures Gives(m, HoldTimerExp, bfdDown, if m.state.Idle? then m else Machine(Idle, None, false),
                  if m.conn.Some? then Some(Notification(4)) else None)
    ensures Gives(m, KeepAliveTimerExp, bfdDown,
                  if m.state.Idle? || m.state.OpenConfirm? || m.state.Established? then m
                  else Machine(Idle, None, false),
                  if m.state.OpenConfirm? || m.state.Established? then Some(KeepAlive)
                  else if m.state.OpenSent? then Some(Notification(5)) else None)
  {
  }

  /** The other timers start an attempt again, and are out of place on a connection. */
  lemma AttemptTable(m: Machine, bfdDown: bool)
    requires Settled(m)
    ensures Gives(m, ConnRetryTimerExp, bfdDown,
                  if m.state.Idle? || m.state.Connect? then m
                  else if m.state.Active? then Machine(if bfdDown then Active else Connect, None, false)
                  else Machine(Idle, None, false),
                  if m.conn.None? then None else Some(Notification(if m.state.OpenConfirm? then 6 else 5)))
    ensures Gives(m, IdleHoldTimerExp, bfdDown,
                  if m.state.Idle? then Machine(if m.passive || bfdDown then Active else Connect, None, false)
                  else Machine(Idle, None, false),
                  if m.conn.None? then None else Some(Notification(if m.state.OpenConfirm? then 6 else 5)))
  {
  }

  /** A connection that comes up is taken by a machine that waits for one. */
  lemma ConnectionTable(m: Machine, e: Event, bfdDown: bool)
    requires Settled(m) && (e.TcpCrAcked? || e.TcpConnConfirmed?)
    ensures Gives(m, e, bfdDown,
                  if m.state.Connect? || m.state.Active? then Machine(OpenSent, Some(e.dir), false) else m,
                  if m.state.Connect? || m.state.Active? then Some(OpenMessage) else None)
  {
  }

  /** One that fails is given up. */
  lemma FailureTable(m: Machine, bfdDown: bool)
    requires Settled(m)
    ensures Gives(m, TcpConnFails, bfdDown,
                  if m.state.Idle? then m
                  else if m.state.OpenSent? then Machine(Active, None, false)
                  else Machine(Idle, None, false), None)
  {
  }

  /** A stop ends a connection with a notification. */
  lemma StopTable(m: Machine, e: Event, bfdDown: bool)
    requires Settled(m) && (e.ManualStop? || e.AutoStop?)
    ensures Gives(m, e, bfdDown, if m.state.Idle? then m else Machine(Idle, None, false),
                  if m.conn.Some? then Some(Notification(6)) else None)
  {
  }

  /** A start leaves Idle, towards Active if the peer is to open the connection, and is ignored otherwise. */
  lemma StartTable(m: Machine, e: Event, bfdDown: bool)
    requires Settled(m) && (e.ManualStart? || e.AutoStart? || e.AutoStartPassTcpEst?)
    ensures Gives(m, e, bfdDown,
                  if !m.state.Idle? then m
                  else Machine(if bfdDown || e.AutoStartPassTcpEst? then Active else Connect, None, false), None)
  {
  }

  /** What a packet of the peer does to a machine that holds a connection. */
  lemma PacketTable(m: Machine, e: Event, bfdDown: bool)
    requires Settled(m) && m.conn.Some?
    ensures m.state.OpenSent? && e.BGPOpen? && e.accepted ==>
              Gives(m, e, bfdDown, Machine(OpenConfirm, m.conn, false), Some(KeepAlive))
    ensures m.state.OpenConfirm? && e.KeepAliveMsg? ==>
              Gives(m, e, bfdDown, Machine(Established, m.conn, false), None)
    ensures m.state.Established? && (e.KeepAliveMsg? || e.UpdateMsg?) ==> Gives(m, e, bfdDown, m, None)
    ensures !m.state.OpenSent? && e.NotifMsg? ==> Gives(m, e, bfdDown, Machine(Idle, None, false), None)
  {
  }

  /** What each step does to the count of failed attempts. */
  lemma CounterTable(m: Machine, e: Event, bfdDown: bool, counter: int)
    requires Settled(m)
    ensures var n := Counted(m.state, e, Stepped(m, e, bfdDown).state, counter);
            && (e.ManualStop? && !m.state.Idle? ==> n == 0)
            && ((e.ManualStart? || e.AutoStart? || e.AutoStartPassTcpEst?) ==>
                  n == if m.state.Idle? then 0 else counter)
            && (e.HoldTimerExp? && !m.state.Idle? ==> n == counter + 1)
            && (e.KeepAliveTimerExp? && (m.state.OpenConfirm? || m.state.Established?) ==> n == counter)
            && (e.AutoStop? && !m.state.Idle? ==> n == counter + 1)
            && (e.TcpCrAcked? || e.TcpConnConfirmed? ==> n == counter)
            && (m.conn.Some? && (e.BGPOpen? || e.KeepAliveMsg? || e.UpdateMsg?) ==>
                  n == if Stepped(m, e, bfdDown).state.Idle? then counter + 1 else counter)
            && (m.conn.Some? && (e.HeaderErr? || e.OpenMsgErr? || e.UpdateMsgErr? || e.NotifMsg?) ==> n == counter + 1)
  {
  }

  /** What is wrong with a packet is answered with a notification that ends the connection. */
  lemma ErrorTable(m: Machine, e: Event, bfdDown: bool)
    requires Settled(m) && m.conn.Some?
    ensures !m.state.Established? && (e.HeaderErr? || e.OpenMsgErr?) ==>
              Gives(m, e, bfdDown, Machine(Idle, None, false), Some(Notification(if e.HeaderErr? then 1 else 2)))
    ensures m.state.Established? && e.UpdateMsgErr? ==>
              Gives(m, e, bfdDown, Machine(Idle, None, false), Some(Notification(3)))
  {
  }

  /** Only a machine without a connection goes to Connect. */
  lemma OnlyAttemptsDial(m: Machine, e: Event, bfdDown: bool)
    ensures Stepped(m, e, bfdDown).state.Connect? ==> m.state.Idle? || m.state.Connect? || m.state.Active?
  {
  }

  class FSM {
    // what the neighbor's configuration says
    const confHoldTime: U32
    const confKeepaliveTime: U32
    // BFD is in use for the neighbor and reports it down
    var bfdDown: bool

    var state: State
    var passive: bool
    // the TCP connection of this machine, by who opened it
    var peerConn: Option<Dir>
    // an outgoing connection is being attempted
    var outTCPConn: bool
    var connectRetryCounter: int
    var holdTime: U32
    var keepAliveTime: U32
    var idleHoldTime: nat
    // running timers; the hold timer with the time it was started for
    var connectRetryTimer: bool
    var holdTimer: Option<U32>
    var keepAliveTimer: bool
    var idleHoldTimer: bool
    var restartTimer: bool
    var passiveTcpEst: bool
    var close: bool
    // what was written to connections and which manager functions were called
    var sent: seq<(Dir, Message)>
    var calls: seq<ManagerCall>
    // the hold times offered on this connection, and what happened on all connections
    ghost var offers: seq<U16>
    ghost var log: seq<Act>

    /**
     A connection is held in exactly the states that use one, reports follow the state,
     and the timers are those the state calls for: before the session is up the hold
     timer runs for the configured time, then for the one agreed on.
     */
    ghost predicate Valid()
      reads this
    {
      && (peerConn.Some? <==> Connected(state))
      && Reported(calls) == Some(state.Established?)
      && (!Connected(state) ==> holdTimer.None? && !keepAliveTimer)
      && (state.Established? && ConfigurationOk() ==> holdTime == confHoldTime)
      && (passive ==> state.Idle?)
      && (Connected(state) ==> !connectRetryTimer)
      && (state.OpenSent? && ConfigurationOk() ==> holdTimer == Running(confHoldTime))
      && (state.OpenConfirm? ==> holdTimer == Running(holdTime))
      && ((state.OpenSent? || state.OpenConfirm?) && ConfigurationOk() ==> holdTime == Agreed(confHoldTime, offers))
    }

    /** The log has what was written, and every connection was talked to in order. */
    ghost predicate Logged()
      reads this
    {
      WritesOf(log) == sent && Spoken(log) == Some(PhaseOf(View()))
    }

    ghost function View(): Machine
      reads this
    {
      Machine(state, peerConn, passive)
    }

    predicate ConfigurationOk() {
      confHoldTime == 0 || confHoldTime >= 3
    }

    constructor (confHoldTime: U32, confKeepaliveTime: U32, start: State, bfdDown: bool)
      requires !Connected(start)
      ensures Valid() && Logged() && state == start && !close && !passive && sent == []
    {
      this.confHoldTime, this.confKeepaliveTime, this.bfdDown := confHoldTime, confKeepaliveTime, bfdDown;
      state, passive, peerConn, outTCPConn, connectRetryCounter := start, false, None, false, 0;
      holdTime, keepAliveTime, idleHoldTime := confHoldTime, confKeepaliveTime, IDLE_HOLD_TIME_DEFAULT;
      connectRetryTimer, holdTimer, keepAliveTimer, idleHoldTimer, restartTimer := false, None, false, false, false;
      passiveTcpEst, close, sent, calls, offers, log := false, false, [], [], [], [];
    }

    method SetHoldTime(hold: U32, keepalive: U32)
      modifies this`holdTime, this`keepAliveTime
      ensures (holdTime, keepAliveTime) == if 0 < hold < 3 then old((holdTime, keepAliveTime)) else (hold, keepalive)
    {
      if hold > 0 && hold < 3 { return; }
      holdTime := hold;
      keepAliveTime := keepalive;
    }

    method StartHoldTimer()
      modifies this`holdTimer
      ensures holdTimer == Running(holdTime)
    {
      holdTimer := None;
      if holdTime != 0 { holdTimer := Some(holdTime); }
    }

    method StartKeepAliveTimer()
      modifies this`keepAliveTimer
      ensures keepAliveTimer <==> keepAliveTime != 0
    {
      keepAliveTimer := keepAliveTime != 0;
    }

    method SetIdleHoldTimer()
      modifies this`idleHoldTimer
      ensures idleHoldTimer <==> 0 < idleHoldTime <= 300
    {
      idleHoldTimer := 0 < idleHoldTime <= 300;
    }

    /** Every write goes to the machine's connection, which must be there. */
    method Send(message: Message)
      requires peerConn.Some?
      modifies this`sent
      ensures sent == old(sent) + [(peerConn.value, message)]
    {
      sent := sent + [(peerConn.value, message)];
    }

    method SendKeepAliveMessage()
      requires peerConn.Some?
      modifies this`sent, this`keepAliveTimer
      ensures sent == old(sent) + [(peerConn.value, KeepAlive)]
      ensures keepAliveTimer <==> keepAliveTime != 0
    {
      Send(KeepAlive);
      StartKeepAliveTimer();
    }

    method SetPeerConn(dir: Dir)
      modifies this`peerConn
      ensures peerConn == if old(peerConn).Some? then old(peerConn) else Some(dir)
    {
      if peerConn.Some? { return; }
      peerConn := Some(dir);
    }

    method ClearPeerConn()
      modifies this`peerConn, this`keepAliveTimer, this`holdTimer
      ensures peerConn.None?
      ensures old(peerConn).Some? ==> holdTimer.None? && !keepAliveTimer
      ensures old(peerConn).None? ==> holdTimer == old(holdTimer) && keepAliveTimer == old(keepAliveTimer)
    {
      if peerConn.None? { return; }
      keepAliveTimer := false;
      holdTimer := None;
      peerConn := None;
    }

    method Tell(call: ManagerCall)
      modifies this`calls
      ensures calls == old(calls) + [call]
      ensures !call.ConnEstablished? && !call.ConnBroken? ==> Reported(calls) == Reported(old(calls))
      ensures Reported(old(calls)) == Some(false) && call.ConnEstablished? ==> Reported(calls) == Some(true)
      ensures Reported(old(calls)) == Some(true) && call.ConnBroken? ==> Reported(calls) == Some(false)
    {
      ReportedNext(calls, call);
      calls := calls + [call];
    }

    method Enter()
      requires !close
      requires Reported(calls).Some? && !passive && (state.Connect? ==> Reported(calls) == Some(false))
      modifies this`state, this`passive, this`keepAliveTimer, this`holdTimer, this`restartTimer, this`calls,
               this`outTCPConn, this`idleHoldTime, this`idleHoldTimer, this`holdTime, this`keepAliveTime
      ensures state == Landed(old(state), bfdDown) && Reported(calls) == Reported(old(calls))
      ensures state.Idle? ==> !keepAliveTimer && holdTimer.None?
      ensures !state.Idle? ==> keepAliveTimer == old(keepAliveTimer) && holdTimer == old(holdTimer)
      ensures holdTime == old(holdTime) && keepAliveTime == old(keepAliveTime) && !passive
      ensures old(state).Idle? ==> calls == old(calls) + [RejectPeerConn] && restartTimer
      ensures old(state).Active? || (old(state).Connect? && !bfdDown) ==> calls == old(calls) + [AcceptPeerConn]
      ensures old(state).Connect? && !bfdDown ==> outTCPConn
      decreases if state.Connect? then 1 else 0, 0
    {
      hide Reported, Target;
      match state {
        case Idle =>
          keepAliveTimer := false;
          holdTimer := None;
          Tell(RejectPeerConn);
          restartTimer := true;
        case Connect =>
          if bfdDown {
            ChangeState(Active);
            return;
          }
          Tell(AcceptPeerConn);
          outTCPConn := true;
        case Active =>
          Tell(AcceptPeerConn);
        case OpenSent =>
        case OpenConfirm =>
        case Established =>
          idleHoldTime := IDLE_HOLD_TIME_DEFAULT;
      }
    }

    method Leave()
      modifies this`idleHoldTimer, this`holdTime, this`keepAliveTime
      ensures (holdTime, keepAliveTime) ==
              if (state.OpenConfirm? || state.Established?) && ConfigurationOk() then (confHoldTime, confKeepaliveTime)
              else old((holdTime, keepAliveTime))
    {
      if state.Idle? {
        idleHoldTimer := false;
      } else if state.OpenConfirm? || state.Established? {
        SetHoldTime(confHoldTime, confKeepaliveTime);
      }
    }

    /** Leaves the old state and enters the new one, which may change it again; reports what was crossed. */
    method ChangeState(newState: State)
      requires Reported(calls) == Some(state.Established?) && (newState.Connect? ==> !state.Established?)
      modifies this`state, this`passive, this`keepAliveTimer, this`holdTimer, this`restartTimer, this`calls,
               this`outTCPConn, this`idleHoldTime, this`idleHoldTimer, this`holdTime, this`keepAliveTime
      ensures close ==> state == old(state) && calls == old(calls)
      ensures !close ==> calls != [] && calls[|calls| - 1] == StateChange(state)
      ensures !close ==> state == Landed(newState, bfdDown) && Reported(calls) == Some(state.Established?) && !passive
      ensures !close ==> (state.Idle? ==> !keepAliveTimer && holdTimer.None?)
      ensures close || !state.Idle? ==> keepAliveTimer == old(keepAliveTimer) && holdTimer == old(holdTimer)
      ensures !close ==>
                (holdTime, keepAliveTime) ==
                if old(state.OpenConfirm? || state.Established?) && ConfigurationOk()
                then (confHoldTime, confKeepaliveTime)
                else old((holdTime, keepAliveTime))
      ensures !close && newState.Connect? && !bfdDown ==> outTCPConn
      decreases if newState.Connect? then 1 else 0, 1
    {
      hide Reported, Target;
      if close { return; }
      var oldState := state;
      Leave();
      state := newState;
      passive := false;
      Enter();
      if oldState.Established? && !state.Established? {
        Tell(ConnBroken);
      } else if !oldState.Established? && state.Established? {
        Tell(ConnEstablished);
      }
      Tell(StateChange(state));
    }

    /** Leaves Idle: dials, or waits for the peer to do so. */
    method StartTowards(next: State, counter: int)
      requires Valid() && state.Idle? && (next.Connect? || next.Active?)
      modifies this
      ensures bfdDown == old(bfdDown) && close == old(close) && connectRetryCounter == counter
      ensures sent == old(sent)
      ensures close ==> state == old(state)
      ensures !close ==> Valid() && View() == Machine(Landed(next, bfdDown), None, false)
      ensures !close ==> connectRetryTimer
      ensures !close && next.Connect? && !bfdDown ==> outTCPConn
    {
      hide Reported;
      connectRetryCounter := counter;
      connectRetryTimer := true;
      ChangeState(next);
    }

    /** Stays in Idle for a time that grows with every damped start. */
    method StartDamped(passiveStart: bool)
      requires Valid() && state.Idle?
      modifies this
      ensures bfdDown == old(bfdDown) && close == old(close) && connectRetryCounter == old(connectRetryCounter)
      ensures sent == old(sent)
      ensures close ==> state == old(state)
      ensures !close ==> Valid() && View() == Machine(Idle, None, passiveStart)
      ensures idleHoldTime == IdleHoldTimeInterval(old(idleHoldTime)) && (idleHoldTimer <==> 0 < idleHoldTime <= 300)
      ensures (old(idleHoldTime), idleHoldTime) in {(5, 10), (10, 30), (60, 120), (120, 180), (180, 300), (300, 500)}
              || (old(idleHoldTime) !in {5, 10, 60, 120, 180, 300} && idleHoldTime == 0)
    {
      hide Reported;
      idleHoldTime := IdleHoldTimeInterval(idleHoldTime);
      SetIdleHoldTimer();
      passive := passiveStart;
    }

    /** A second connection is the manager's business. */
    method HandleAnotherConnection(dir: Dir)
      requires Valid() && Connected(state)
      modifies this
      ensures bfdDown == old(bfdDown) && close == old(close) && connectRetryCounter == old(connectRetryCounter)
      ensures sent == old(sent)
      ensures close ==> state == old(state)
      ensures !close ==> Valid() && View() == old(View())
      ensures calls == old(calls) + [AnotherConnection(dir)]
    {
      hide Reported;
      Tell(AnotherConnection(dir));
    }

    /** Sends a KEEPALIVE when its timer is due. */
    method ShowLife()
      requires Valid() && Connected(state)
      modifies this
      ensures bfdDown == old(bfdDown) && close == old(close) && connectRetryCounter == old(connectRetryCounter)
      ensures sent == old(sent) + [(old(peerConn).value, KeepAlive)]
      ensures close ==> state == old(state)
      ensures !close ==> Valid() && View() == old(View())
      ensures keepAliveTimer <==> keepAliveTime != 0
    {
      hide Reported;
      SendKeepAliveMessage();
    }

    /** Dials again. */
    method RetryDial()
      requires Valid() && state.Connect?
      modifies this
      ensures bfdDown == old(bfdDown) && close == old(close) && connectRetryCounter == old(connectRetryCounter)
      ensures sent == old(sent)
      ensures close ==> state == old(state)
      ensures !close ==> Valid() && View() == old(View())
      ensures connectRetryTimer && outTCPConn
    {
      hide Reported;
      connectRetryTimer := true;
      outTCPConn := true;
    }

    /** The peer has been heard: its hold timer starts again. */
    method PeerAlive()
      requires Valid() && state.Established?
      modifies this
      ensures bfdDown == old(bfdDown) && close == old(close) && connectRetryCounter == old(connectRetryCounter)
      ensures sent == old(sent)
      ensures holdTimer == Running(holdTime)
      ensures close ==> state == old(state)
      ensures !close ==> Valid() && View() == old(View())
    {
      hide Reported;
      StartHoldTimer();
    }

    method ProcessIdle(e: Event)
      requires Valid() && state.Idle?
      modifies this
      ensures bfdDown == old(bfdDown) && close == old(close)
      ensures close ==> state == old(state)
      ensures !close ==> Valid() && View() == Stepped(old(View()), e, bfdDown)
      ensures !close ==> connectRetryCounter == Counted(old(state), e, state, old(connectRetryCounter))
      ensures sent == Extended(old(sent), ConnectionOf(old(peerConn), e), Written(old(state), e))
      ensures !close && state.Connect? ==> outTCPConn
    {
      assert (peerConn.Some? <==> Connected(state)) && (passive ==> state.Idle?);
      hide Reported, Valid;
      if e.ManualStart? || e.AutoStart? {
        StartTowards(Connect, 0);
      } else if e.ManualStartPassTcpEst? || e.AutoStartPassTcpEst? {
        StartTowards(Active, 0);
      } else if e.AutoStartDampPeerOscl? || e.AutoStartDampPeerOsclPassTcpEst? {
        StartDamped(e.AutoStartDampPeerOsclPassTcpEst?);
      } else if e.IdleHoldTimerExp? {
        StartTowards(if passive then Active else Connect, connectRetryCounter);
      }
    }

    /** The machine takes a connection and sends its OPEN. */
    method Greet(dir: Dir)
      requires peerConn.None?
      modifies this`peerConn, this`sent, this`offers
      ensures peerConn == Some(dir) && sent == old(sent) + [(dir, OpenMessage)] && offers == []
    {
      offers := [];
      SetPeerConn(dir);
      Send(OpenMessage);
    }

    /** The configured hold time is in force until the peer makes an offer. */
    method StartConfiguredHold()
      modifies this`holdTime, this`keepAliveTime, this`holdTimer
      ensures ConfigurationOk() ==> holdTime == confHoldTime
      ensures holdTimer == Running(holdTime)
    {
      SetHoldTime(confHoldTime, confKeepaliveTime);
      StartHoldTimer();
    }

    /** A TCP connection has come up in Connect or Active: it gets an OPEN. */
    method Open(dir: Dir)
      requires Valid() && (state.Connect? || state.Active?)
      modifies this
      ensures bfdDown == old(bfdDown) && close == old(close) && connectRetryCounter == old(connectRetryCounter)
      ensures close ==> state == old(state)
      ensures !close ==> Valid() && View() == Machine(OpenSent, Some(dir), false)
      ensures sent == old(sent) + [(dir, OpenMessage)]
    {
      hide Reported, Agreed, Spoken, WritesOf, Target;
      AgreedNone(confHoldTime);
      connectRetryTimer := false;
      Greet(dir);
      StartConfiguredHold();
      ChangeState(OpenSent);
    }

    /** Gives up: drops the connection if there is one, counts the attempt if asked, and goes to Idle. */
    method GiveUp(counter: int, retryTimer: bool := false)
      requires Valid()
      modifies this
      ensures bfdDown == old(bfdDown) && close == old(close) && connectRetryCounter == counter && sent == old(sent)
      ensures close ==> state == old(state)
      ensures !close ==> Valid() && View() == Machine(Idle, None, false)
    {
      hide Reported, Agreed, Spoken, WritesOf, Target;
      connectRetryTimer := retryTimer;
      ClearPeerConn();
      outTCPConn := false;
      connectRetryCounter := counter;
      ChangeState(Idle);
    }

    /** Gives up after telling the peer why. */
    method Refuse(code: U8, counter: int)
      requires Valid() && Connected(state)
      modifies this
      ensures bfdDown == old(bfdDown) && close == old(close) && connectRetryCounter == counter
      ensures old(peerConn).Some? && sent == old(sent) + [(old(peerConn).value, Notification(code))]
      ensures close ==> state == old(state)
      ensures !close ==> Valid() && View() == Machine(Idle, None, false)
    {
      hide Reported;
      Send(Notification(code));
      GiveUp(counter);
    }

    /** Gives up before there is a connection. */
    method StopAttempt(counter: int)
      requires Valid() && !Connected(state)
      modifies this
      ensures bfdDown == old(bfdDown) && close == old(close) && connectRetryCounter == counter && sent == old(sent)
      ensures close ==> state == old(state)
      ensures !close ==> Valid() && View() == Machine(Idle, None, false)
    {
      connectRetryTimer := false;
      outTCPConn := false;
      connectRetryCounter := counter;
      ChangeState(Idle);
    }

    method ProcessConnect(e: Event)
      requires Valid() && state.Connect?
      modifies this
      ensures bfdDown == old(bfdDown) && close == old(close)
      ensures close ==> state == old(state)
      ensures !close ==> Valid() && View() == Stepped(old(View()), e, bfdDown)
      ensures !close ==> connectRetryCounter == Counted(old(state), e, state, old(connectRetryCounter))
      ensures sent == Extended(old(sent), ConnectionOf(old(peerConn), e), Written(old(state), e))
    {
      assert (peerConn.Some? <==> Connected(state)) && (passive ==> state.Idle?);
      AttemptEvents(state, e);
      hide Reported, Valid, Ignored;
      if e.ManualStop? {
        StopAttempt(0);
      } else if e.ConnRetryTimerExp? {
        RetryDial();
      } else if IsConnection(e) {
        Open(e.dir);
      } else if e.TcpConnFails? {
        StopAttempt(connectRetryCounter);
      } else if AbortsAttempt(e) {
        StopAttempt(connectRetryCounter + 1);
      }
    }

    method Redial()
      requires Valid() && state.Active?
      modifies this
      ensures bfdDown == old(bfdDown) && close == old(close) && connectRetryCounter == old(connectRetryCounter)
      ensures sent == old(sent)
      ensures close ==> state == old(state)
      ensures !close ==> Valid() && View() == Machine(Landed(Connect, bfdDown), None, false)
      ensures !close ==> connectRetryTimer
      ensures !close && !bfdDown ==> outTCPConn
    {
      hide Reported;
      connectRetryTimer := true;
      ChangeState(Connect);
    }

    method ProcessActive(e: Event)
      requires Valid() && state.Active?
      modifies this
      ensures bfdDown == old(bfdDown) && close == old(close)
      ensures close ==> state == old(state)
      ensures !close ==> Valid() && View() == Stepped(old(View()), e, bfdDown)
      ensures !close ==> connectRetryCounter == Counted(old(state), e, state, old(connectRetryCounter))
      ensures sent == Extended(old(sent), ConnectionOf(old(peerConn), e), Written(old(state), e))
      ensures !close && state.Connect? ==> outTCPConn
    {
      assert (peerConn.Some? <==> Connected(state)) && (passive ==> state.Idle?);
      AttemptEvents(state, e);
      hide Reported, Valid, Ignored;
      if e.ManualStop? {
        StopAttempt(0);
      } else if e.ConnRetryTimerExp? {
        Redial();
      } else if IsConnection(e) {
        Open(e.dir);
      } else if e.TcpConnFails? {
        GiveUp(connectRetryCounter + 1, true);
      } else if AbortsAttempt(e) {
        GiveUp(connectRetryCounter + 1);
      }
    }

    /** The peer's hold time is taken if it is the smaller one; the manager decides which connection stays. */
    method ProcessOpenMessage(hold: U16)
      modifies this`holdTime, this`keepAliveTime
      ensures (holdTime, keepAliveTime) ==
              if hold < old(holdTime) && (hold == 0 || hold >= 3) then (hold, hold / 3)
              else old((holdTime, keepAliveTime))
    {
      if hold < holdTime {
        SetHoldTime(hold, hold / 3);
      }
    }

    /** Answers the peer's OPEN; the hold timer starts for the time agreed on. */
    method AnswerOpen()
      requires peerConn.Some? && state.OpenSent? && Reported(calls) == Some(false)
      modifies this`sent, this`keepAliveTimer, this`holdTimer, this`state, this`passive, this`restartTimer, this`calls,
               this`outTCPConn, this`idleHoldTime, this`idleHoldTimer, this`holdTime, this`keepAliveTime
      ensures sent == old(sent) + [(peerConn.value, KeepAlive)]
      ensures keepAliveTimer <==> old(keepAliveTime) != 0
      ensures holdTimer == Running(old(holdTime))
      ensures close ==> state == old(state)
      ensures !close ==> state.OpenConfirm? && Reported(calls) == Some(false) && !passive
      ensures !close ==> (holdTime, keepAliveTime) == old((holdTime, keepAliveTime))
    {
      hide Reported;
      SendKeepAliveMessage();
      StartHoldTimer();
      ChangeState(OpenConfirm);
    }

    /** An OPEN has come; unless the collision handling objects it is answered with a KEEPALIVE. */
    method Confirm(hold: U16, accepted: bool)
      requires Valid() && state.OpenSent?
      modifies this
      ensures bfdDown == old(bfdDown) && close == old(close) && connectRetryCounter == old(connectRetryCounter)
      ensures sent == if accepted then old(sent) + [(old(peerConn).value, KeepAlive)] else old(sent)
      ensures close ==> state == old(state)
      ensures !close ==> Valid() && View() == Machine(if accepted then OpenConfirm else OpenSent, old(peerConn), false)
      ensures !close && accepted ==> (keepAliveTimer <==> keepAliveTime != 0)
      ensures !close && accepted ==> holdTime == if Lowers(hold, old(holdTime)) then hold else old(holdTime)
    {
      hide Reported, Agreed;
      connectRetryTimer := false;
      AgreedNext(confHoldTime, offers, hold);
      offers := offers + [hold];
      ProcessOpenMessage(hold);
      if accepted { AnswerOpen(); }
    }

    /** The connection failed before the peer's OPEN came: wait for another one. */
    method LoseConnection()
      requires Valid() && state.OpenSent?
      modifies this
      ensures bfdDown == old(bfdDown) && close == old(close) && connectRetryCounter == old(connectRetryCounter)
      ensures sent == old(sent)
      ensures close ==> state == old(state)
      ensures !close ==> Valid() && View() == Machine(Active, None, false)
      ensures !close ==> connectRetryTimer
    {
      hide Reported;
      ClearPeerConn();
      outTCPConn := false;
      connectRetryTimer := true;
      ChangeState(Active);
    }

    method ProcessOpenSent(e: Event)
      requires Valid() && state.OpenSent?
      modifies this
      ensures bfdDown == old(bfdDown) && close == old(close)
      ensures close ==> state == old(state)
      ensures !close ==> Valid() && View() == Stepped(old(View()), e, bfdDown)
      ensures !close ==> connectRetryCounter == Counted(old(state), e, state, old(connectRetryCounter))
      ensures sent == Extended(old(sent), ConnectionOf(old(peerConn), e), Written(old(state), e))
      ensures IsConnection(e) ==> calls == old(calls) + [AnotherConnection(e.dir)]
    {
      assert (peerConn.Some? <==> Connected(state)) && (passive ==> state.Idle?);
      SessionEvents(state, e);
      hide Reported, Valid, Ignored;
      if e.ManualStop? {
        Refuse(CEASE, 0);
      } else if e.AutoStop? || e.OpenCollisionDump? {
        Refuse(CEASE, connectRetryCounter + 1);
      } else if e.HoldTimerExp? {
        Refuse(HOLD_TIMER_EXPIRED, connectRetryCounter + 1);
      } else if IsConnection(e) {
        HandleAnotherConnection(e.dir);
      } else if e.TcpConnFails? {
        LoseConnection();
      } else if e.BGPOpen? {
        Confirm(e.holdTime, e.accepted);
      } else if e.HeaderErr? {
        Refuse(HEADER_ERROR, connectRetryCounter + 1);
      } else if e.OpenMsgErr? {
        Refuse(OPEN_ERROR, connectRetryCounter + 1);
      } else if e.NotifMsgVerErr? {
        GiveUp(connectRetryCounter);
      } else if OutOfPlace(OpenSent, e) {
        Refuse(FSM_ERROR, connectRetryCounter + 1);
      }
    }

    /**
     The peer has confirmed: the hold timer starts for the time agreed on, and the
     configured hold time comes back into force.
     */
    method Establish()
      requires Valid() && state.OpenConfirm?
      modifies this
      ensures bfdDown == old(bfdDown) && close == old(close) && connectRetryCounter == old(connectRetryCounter)
      ensures sent == old(sent)
      ensures close ==> state == old(state)
      ensures !close ==> Valid() && View() == Machine(Established, old(peerConn), false)
      ensures !close ==> holdTimer == Running(old(holdTime))
      ensures !close && ConfigurationOk() ==>
                old(holdTime) == Agreed(confHoldTime, old(offers)) && holdTime == confHoldTime
    {
      hide Reported, Agreed;
      StartHoldTimer();
      ChangeState(Established);
    }

    method ProcessOpenConfirm(e: Event)
      requires Valid() && state.OpenConfirm?
      modifies this
      ensures bfdDown == old(bfdDown) && close == old(close)
      ensures close ==> state == old(state)
      ensures !close ==> Valid() && View() == Stepped(old(View()), e, bfdDown)
      ensures !close ==> connectRetryCounter == Counted(old(state), e, state, old(connectRetryCounter))
      ensures sent == Extended(old(sent), ConnectionOf(old(peerConn), e), Written(old(state), e))
      ensures IsConnection(e) ==> calls == old(calls) + [AnotherConnection(e.dir)]
    {
      assert (peerConn.Some? <==> Connected(state)) && (passive ==> state.Idle?);
      SessionEvents(state, e);
      hide Reported, Valid, Ignored;
      if e.ManualStop? {
        Refuse(CEASE, 0);
      } else if e.AutoStop? || e.OpenCollisionDump? {
        Refuse(CEASE, connectRetryCounter + 1);
      } else if e.HoldTimerExp? {
        Refuse(HOLD_TIMER_EXPIRED, connectRetryCounter + 1);
      } else if e.KeepAliveTimerExp? {
        ShowLife();
      } else if IsConnection(e) {
        HandleAnotherConnection(e.dir);
      } else if e.TcpConnFails? || e.NotifMsg? {
        GiveUp(connectRetryCounter + 1);
      } else if e.HeaderErr? {
        Refuse(HEADER_ERROR, connectRetryCounter + 1);
      } else if e.OpenMsgErr? {
        Refuse(OPEN_ERROR, connectRetryCounter + 1);
      } else if e.NotifMsgVerErr? {
        GiveUp(connectRetryCounter);
      } else if e.KeepAliveMsg? {
        Establish();
      } else if OutOfPlace(OpenConfirm, e) {
        Refuse(CEASE, connectRetryCounter + 1);
      }
    }

    method ProcessEstablished(e: Event)
      requires Valid() && state.Established?
      modifies this
      ensures bfdDown == old(bfdDown) && close == old(close)
      ensures close ==> state == old(state)
      ensures !close ==> Valid() && View() == Stepped(old(View()), e, bfdDown)
      ensures !close ==> connectRetryCounter == Counted(old(state), e, state, old(connectRetryCounter))
      ensures sent == Extended(old(sent), ConnectionOf(old(peerConn), e), Written(old(state), e))
      ensures e.KeepAliveMsg? || e.UpdateMsg? ==> holdTimer == Running(holdTime)
      ensures IsConnection(e) ==> calls == old(calls) + [AnotherConnection(e.dir)]
    {
      assert (peerConn.Some? <==> Connected(state)) && (passive ==> state.Idle?);
      SessionEvents(state, e);
      hide Reported, Valid, Ignored;
      if e.ManualStop? {
        Refuse(CEASE, 0);
      } else if e.AutoStop? || e.OpenCollisionDump? {
        Refuse(CEASE, connectRetryCounter + 1);
      } else if e.HoldTimerExp? {
        Refuse(HOLD_TIMER_EXPIRED, connectRetryCounter + 1);
      } else if e.KeepAliveTimerExp? {
        ShowLife();
      } else if IsConnection(e) {
        HandleAnotherConnection(e.dir);
      } else if e.TcpConnFails? || e.NotifMsgVerErr? || e.NotifMsg? {
        GiveUp(connectRetryCounter + 1);
      } else if e.KeepAliveMsg? || e.UpdateMsg? {
        PeerAlive();
      } else if e.UpdateMsgErr? {
        Refuse(UPDATE_ERROR, connectRetryCounter + 1);
      } else if OutOfPlace(Established, e) {
        Refuse(FSM_ERROR, connectRetryCounter + 1);
      }
    }

    /** The handler of the present state takes the event. */
    method Dispatch(e: Event)
      requires Valid()
      modifies this
      ensures bfdDown == old(bfdDown) && close == old(close)
      ensures close ==> state == old(state)
      ensures !close ==> Valid() && View() == Stepped(old(View()), e, bfdDown)
      ensures !close ==> connectRetryCounter == Counted(old(state), e, state, old(connectRetryCounter))
      ensures sent == Extended(old(sent), ConnectionOf(old(peerConn), e), Written(old(state), e))
      ensures IsConnection(e) && old(peerConn).Some? ==> calls == old(calls) + [AnotherConnection(e.dir)]
      ensures (e.KeepAliveMsg? || e.UpdateMsg?) && old(state).Established? ==> holdTimer == Running(holdTime)
      ensures !close && !old(state).Connect? && state.Connect? ==> outTCPConn
    {
      assert peerConn.Some? <==> Connected(state);
      hide Reported, Valid, Stepped, Counted, Written, Extended, IsConnection;
      OnlyAttemptsDial(View(), e, bfdDown);
      match state {
        case Idle => ProcessIdle(e);
        case Connect => ProcessConnect(e);
        case Active => ProcessActive(e);
        case OpenSent => ProcessOpenSent(e);
        case OpenConfirm => ProcessOpenConfirm(e);
        case Established => ProcessEstablished(e);
      }
    }

    method ProcessEvent(e: Event)
      requires Valid() && Logged()
      modifies this
      ensures bfdDown == old(bfdDown) && close == old(close)
      ensures close ==> state == old(state)
      ensures !close ==> Valid() && Logged() && View() == Stepped(old(View()), e, bfdDown)
      ensures !close ==> connectRetryCounter == Counted(old(state), e, state, old(connectRetryCounter))
      ensures sent == Extended(old(sent), ConnectionOf(old(peerConn), e), Written(old(state), e))
      ensures WritesOf(log) == sent && Spoken(log).Some?
      ensures IsConnection(e) && old(peerConn).Some? ==> calls == old(calls) + [AnotherConnection(e.dir)]
      ensures (e.KeepAliveMsg? || e.UpdateMsg?) && old(state).Established? ==> holdTimer == Running(holdTime)
      ensures !close && !old(state).Connect? && state.Connect? ==> outTCPConn
    {
      hide Reported, Agreed, Target, Counted, Written, Extended, Spoken, WritesOf, Acted, InOrder, IsConnection;
      ghost var before, m := log, View();
      ghost var next, dir, message := Stepped(m, e, bfdDown), ConnectionOf(peerConn, e), Written(state, e);
      StepInOrder(m, e, bfdDown);
      StepSpeaks(before, m, next, dir, message);
      Dispatch(e);
      log := Acted(before, m, next, dir, message);
    }

    /** Enters the start state and starts automatically. */
    method StartFSM()
      requires Valid() && Logged() && !close && !Connected(state) && !passive
      modifies this
      ensures Valid() && Logged() && !close && !Connected(state) && bfdDown == old(bfdDown) && sent == old(sent)
      ensures state == if old(state).Idle? then Landed(Connect, bfdDown) else Landed(old(state), bfdDown)
    {
      hide Reported;
      Enter();
      ProcessEvent(AutoStart);
    }

    /** Sends an UPDATE if the session is up. */
    method TransmitUpdate()
      requires Valid() && Logged()
      modifies this`sent, this`keepAliveTimer, this`log
      ensures Valid() && Logged()
      ensures sent == if state.Established? then old(sent) + [(old(peerConn).value, Update)] else old(sent)
    {
      if state.Established? {
        hide Reported, Agreed, Spoken, WritesOf;
        LogNext(log, Wrote(peerConn.value, Update));
        log := log + [Wrote(peerConn.value, Update)];
        Send(Update);
        StartKeepAliveTimer();
      }
    }

    /** An event, and a start after it in case it led to Idle. */
    method ProcessAndStart(e: Event)
      requires Valid() && Logged() && !close
      modifies this
      ensures Valid() && Logged() && !close && bfdDown == old(bfdDown)
      ensures View() == Stepped(Stepped(old(View()), e, bfdDown), AutoStart, bfdDown)
      ensures sent == Extended(old(sent), ConnectionOf(old(peerConn), e), Written(old(state), e))
    {
      hide Valid, Logged, Stepped, Counted, Spoken, WritesOf, ConnectionOf;
      ProcessEvent(e);
      assert Written(state, AutoStart) == None;
      hide Written;
      ProcessEvent(AutoStart);
    }

    /** The attempt to dial is over. */
    method StopConnToPeer()
      requires Valid() && Logged()
      modifies this`outTCPConn
      ensures Valid() && Logged() && !outTCPConn
    {
      hide Reported, Agreed, Spoken, WritesOf;
      outTCPConn := false;
    }

    /** The manager hears that the connection failed. */
    method TellFailed()
      requires Valid() && Logged()
      modifies this`calls
      ensures Valid() && Logged() && calls == old(calls) + [TcpConnFailed]
    {
      hide Reported, Agreed, Spoken, WritesOf;
      Tell(TcpConnFailed);
    }

    method SetPassiveTcpEstablishment(flag: bool)
      requires Valid() && Logged()
      modifies this`passiveTcpEst
      ensures Valid() && Logged() && passiveTcpEst == flag
    {
      hide Reported, Agreed, Spoken, WritesOf;
      passiveTcpEst := flag;
    }

    /** BFD reports the neighbor up or down, which counts if BFD is in use. */
    method SetBfd(useAsDown: bool)
      requires Valid() && Logged()
      modifies this`bfdDown
      ensures Valid() && Logged() && bfdDown == useAsDown
    {
      hide Reported, Agreed, Spoken, WritesOf;
      bfdDown := useAsDown;
    }

    /** The manager closes the machine, which stops in the state it is in. */
    method Shut()
      requires Valid() && Logged()
      modifies this
      ensures close && state == old(state) && bfdDown == old(bfdDown)
      ensures sent == Extended(old(sent), ConnectionOf(old(peerConn), ManualStop), Written(old(state), ManualStop))
      ensures WritesOf(log) == sent && Spoken(log).Some?
    {
      hide Reported, Agreed, Spoken, WritesOf, Written, Stepped, Counted;
      close := true;
      ProcessEvent(ManualStop);
    }

    /** What a timer that runs out does to the machine and makes it write. */
    twostate predicate TimerTaken(i: Input)
      reads this
    {
      && bfdDown == old(bfdDown)
      && (i.HoldTimeout? && old(peerConn).Some? ==>
            && View() == Machine(Idle, None, false) && connectRetryCounter == old(connectRetryCounter) + 1
            && sent == old(sent) + [(old(peerConn).value, Notification(4))])
      && (i.KeepAliveTimeout? && old(peerConn).Some? && !old(state).OpenSent? ==>
            && View() == old(View()) && connectRetryCounter == old(connectRetryCounter)
            && sent == old(sent) + [(old(peerConn).value, KeepAlive)])
      && (i.KeepAliveTimeout? && old(peerConn).Some? && old(state).OpenSent? ==>
            View() == Machine(Idle, None, false) && sent == old(sent) + [(old(peerConn).value, Notification(5))])
      && ((i.HoldTimeout? || i.KeepAliveTimeout?) && old(peerConn).None? ==>
            View() == (if old(state).Idle? then old(View()) else Machine(Idle, None, false)) && sent == old(sent))
      && (i.ConnectRetryTimeout? && old(peerConn).None? ==>
            && sent == old(sent)
            && View() == if old(state).Active? then Machine(if bfdDown then Active else Connect, None, false)
                         else old(View()))
      && (i.IdleHoldTimeout? && old(peerConn).None? ==>
            && sent == old(sent)
            && View() == if !old(state).Idle? then Machine(Idle, None, false)
                         else Machine(if old(passive) || bfdDown then Active else Connect, None, false))
      && ((i.ConnectRetryTimeout? || i.IdleHoldTimeout?) && old(peerConn).Some? ==>
            && View() == Machine(Idle, None, false)
            && sent == old(sent) + [(old(peerConn).value, Notification(if old(state).OpenConfirm? then 6 else 5))])
      && (i.RestartTimeout? ==>
            && sent == old(sent)
            && View() == if !old(state).Idle? then old(View())
                         else Machine(if old(passiveTcpEst) || bfdDown then Active else Connect, None, false))
    }

    method HandleTimer(i: Input)
      requires Valid() && Logged() && !close
      requires IsTimer(i)
      modifies this
      ensures Valid() && Logged() && !close && TimerTaken(i)
    {
      ghost var m := View();
      assert Settled(m);
      hide Valid, Logged, Reported, Agreed, Settled, Stepped, Counted, Spoken, WritesOf, Written, Running;
      match i {
        case ConnectRetryTimeout =>
          AttemptTable(m, bfdDown);
          ProcessEvent(ConnRetryTimerExp);
        case HoldTimeout =>
          LifeTable(m, bfdDown);
          CounterTable(m, HoldTimerExp, bfdDown, connectRetryCounter);
          ProcessEvent(HoldTimerExp);
        case KeepAliveTimeout =>
          LifeTable(m, bfdDown);
          CounterTable(m, KeepAliveTimerExp, bfdDown, connectRetryCounter);
          ProcessEvent(KeepAliveTimerExp);
        case IdleHoldTimeout =>
          AttemptTable(m, bfdDown);
          ProcessEvent(IdleHoldTimerExp);
        case RestartTimeout =>
          StartTable(m, AutoStart, bfdDown);
          StartTable(m, AutoStartPassTcpEst, bfdDown);
          ProcessEvent(if passiveTcpEst then AutoStartPassTcpEst else AutoStart);
      }
    }

    /** What becomes of a connection that came up, or failed to. */
    twostate predicate ConnectionTaken(i: Input)
      reads this
    {
      var up, dir := i.InConn? || (i.OutConn? && old(outTCPConn)), if i.InConn? then In else Out;
      && bfdDown == old(bfdDown)
      && (up && (old(state).Connect? || old(state).Active?) ==>
            View() == Machine(OpenSent, Some(dir), false) && sent == old(sent) + [(dir, OpenMessage)])
      && (up && !old(state).Connect? && !old(state).Active? ==>
            && View() == old(View()) && sent == old(sent)
            && (!old(state).Idle? ==> calls == old(calls) + [AnotherConnection(dir)]))
      && (i.OutConn? && !up ==> View() == old(View()) && sent == old(sent) && calls == old(calls))
      && (i.OutConnErr? ==>
            && sent == old(sent)
            && View() == (if i.stale || old(state).Idle? then old(View())
                          else if old(state).OpenSent? then Machine(Active, None, false)
                          else Machine(Idle, None, false))
            && (!i.stale ==> calls != [] && calls[|calls| - 1] == TcpConnFailed))
    }

    method HandleConnection(i: Input)
      requires Valid() && Logged() && !close && (i.OutConn? || i.OutConnErr? || i.InConn?)
      modifies this
      ensures Valid() && Logged() && !close && ConnectionTaken(i)
    {
      ghost var m := View();
      assert Settled(m);
      hide Valid, Logged, Reported, Agreed, Settled, Stepped, Counted, Spoken, WritesOf, Written, Running;
      match i {
        case OutConn =>
          ConnectionTable(m, TcpCrAcked(Out), bfdDown);
          if outTCPConn {
            StopConnToPeer();
            ProcessEvent(TcpCrAcked(Out));
          }
        case OutConnErr(stale) =>
          FailureTable(m, bfdDown);
          StopConnToPeer();
          if !stale {
            ProcessEvent(TcpConnFails);
            TellFailed();
          }
        case InConn =>
          ConnectionTable(m, TcpConnConfirmed(In), bfdDown);
          ProcessEvent(TcpConnConfirmed(In));
      }
    }

    /** What a packet does: one step of the tables, and for a connection in the words of the standard. */
    twostate predicate PacketTaken(e: Event)
      reads this
    {
      && bfdDown == old(bfdDown)
      && View() == Stepped(old(View()), e, bfdDown)
      && sent == Extended(old(sent), ConnectionOf(old(peerConn), e), Written(old(state), e))
      && (old(state).OpenSent? && e.BGPOpen? && e.accepted && old(peerConn).Some? ==>
            && View() == Machine(OpenConfirm, old(peerConn), false)
            && sent == old(sent) + [(old(peerConn).value, KeepAlive)])
      && (old(state).OpenConfirm? && e.KeepAliveMsg? ==>
            View() == Machine(Established, old(peerConn), false) && sent == old(sent))
      && (old(state).Established? && (e.KeepAliveMsg? || e.UpdateMsg?) ==>
            View() == old(View()) && sent == old(sent) && holdTimer == if holdTime == 0 then None else Some(holdTime))
      && ((old(state).OpenConfirm? || old(state).Established?) && e.NotifMsg? ==>
            View() == Machine(Idle, None, false) && sent == old(sent))
      && ((e.HeaderErr? || e.OpenMsgErr?) && !old(state).Established? && old(peerConn).Some? ==>
            && View() == Machine(Idle, None, false)
            && sent == old(sent) + [(old(peerConn).value, Notification(if e.HeaderErr? then 1 else 2))])
      && (old(state).Established? && e.UpdateMsgErr? && old(peerConn).Some? ==>
            View() == Machine(Idle, None, false) && sent == old(sent) + [(old(peerConn).value, Notification(3))])
    }

    method HandlePacket(e: Event)
      requires Valid() && Logged() && !close
      modifies this
      ensures Valid() && Logged() && !close && PacketTaken(e)
    {
      ghost var m := View();
      assert Settled(m);
      assert m.state.OpenSent? || m.state.OpenConfirm? || m.state.Established? <==> m.conn.Some?;
      hide Valid, Logged, Reported, Agreed, Settled, Stepped, Counted, Spoken, WritesOf, Written;
      if m.conn.Some? {
        PacketTable(m, e, bfdDown);
        ErrorTable(m, e, bfdDown);
      }
      ProcessEvent(e);
    }

    /** What the manager's orders and BFD make the machine do: stop with a notification, and start again. */
    twostate predicate OrderTaken(i: Input)
      reads this
    {
      && bfdDown == (if i.BfdStatus? then i.useAsDown else old(bfdDown))
      && (i.Command? ==>
            && View() == Stepped(Stepped(old(View()), i.e, bfdDown), AutoStart, bfdDown)
            && sent == Extended(old(sent), ConnectionOf(old(peerConn), i.e), Written(old(state), i.e)))
      && ((i.Command? && (i.e.ManualStop? || i.e.AutoStop?)) || (i.BfdStatus? && (!i.up || old(peerConn).None?)) ==>
            && View() == Machine(if bfdDown then Active else Connect, None, false)
            && sent == if old(peerConn).Some? then old(sent) + [(old(peerConn).value, Notification(6))] else old(sent))
      && (i.BfdStatus? && i.up && old(peerConn).Some? ==> View() == old(View()) && sent == old(sent))
      && (i.PassiveTcpEst? ==> passiveTcpEst == i.flag && View() == old(View()) && sent == old(sent))
      && (i.Transmit? ==>
            && View() == old(View())
            && sent == if old(state).Established? && old(peerConn).Some?
                       then old(sent) + [(old(peerConn).value, Update)] else old(sent))
      && (i.Close? ==>
            && state == old(state)
            && sent == if old(peerConn).Some? then old(sent) + [(old(peerConn).value, Notification(6))] else old(sent))
    }

    method HandleOrder(i: Input)
      requires Valid() && Logged() && !close
      requires i.Close? || i.PassiveTcpEst? || i.Transmit? || i.Command? || i.BfdStatus?
      modifies this
      ensures close <==> i.Close?
      ensures !close ==> Valid() && Logged()
      ensures WritesOf(log) == sent && Spoken(log).Some?
      ensures OrderTaken(i)
    {
      ghost var m, started := View(), if state.Idle? then View() else Machine(Idle, None, false);
      assert Settled(m) && (state.Established? ==> peerConn.Some?);
      hide Valid, Reported, Agreed, Settled, Stepped, Counted, Spoken, WritesOf, Written, Running;
      match i {
        case Close =>
          StopTable(m, ManualStop, bfdDown);
          Shut();
        case PassiveTcpEst(flag) =>
          SetPassiveTcpEstablishment(flag);
        case Transmit =>
          TransmitUpdate();
        case Command(e) =>
          if e.ManualStop? || e.AutoStop? { StopTable(m, e, bfdDown); }
          StartTable(started, AutoStart, bfdDown);
          ProcessAndStart(e);
        case BfdStatus(up, useAsDown) =>
          SetBfd(useAsDown);
          StopTable(m, AutoStop, bfdDown);
          StartTable(m, AutoStart, bfdDown);
          StartTable(started, AutoStart, bfdDown);
          if !up || !Connected(state) {
            ProcessAndStart(AutoStop);
          } else {
            ProcessEvent(AutoStart);
          }
      }
    }

    /** One turn of the machine's loop. */
    method Handle(i: Input)
      requires Valid() && Logged() && !close
      modifies this
      ensures close <==> i.Close?
      ensures !close ==> Valid() && Logged()
      ensures WritesOf(log) == sent && Spoken(log).Some?
      ensures IsTimer(i) ==> TimerTaken(i)
      ensures i.OutConn? || i.OutConnErr? || i.InConn? ==> ConnectionTaken(i)
      ensures i.Packet? ==> PacketTaken(i.e)
      ensures i.Close? || i.PassiveTcpEst? || i.Transmit? || i.Command? || i.BfdStatus? ==> OrderTaken(i)
    {
      hide Valid, TimerTaken, ConnectionTaken, PacketTaken, OrderTaken, Spoken, WritesOf;
      match i {
        case OutConn | OutConnErr(_) | InConn =>
          HandleConnection(i);
        case ConnectRetryTimeout | HoldTimeout | KeepAliveTimeout | IdleHoldTimeout | RestartTimeout =>
          HandleTimer(i);
        case Packet(e) =>
          HandlePacket(e);
        case Close | PassiveTcpEst(_) | Transmit | Command(_) | BfdStatus(_, _) =>
          HandleOrder(i);
      }
    }
  }

  /**
   Any run of a machine from its start: until it is closed it holds a connection in
   exactly the states that use one, so that every write above had one, and its up
   and down reports alternate, the last being up exactly in Established.  What it wrote,
   up to and including the close, keeps to the order of the protocol on each connection.
   */
  method Run(confHoldTime: U32, confKeepaliveTime: U32, start: State, bfdDown: bool, inputs: seq<Input>)
    returns (fsm: FSM)
    requires !Connected(start)
    ensures !fsm.close ==> fsm.Valid()
    ensures fsm.close <==> exists j :: 0 <= j < |inputs| && inputs[j].Close?
    ensures WritesOf(fsm.log) == fsm.sent && Spoken(fsm.log).Some?
  {
    fsm := new FSM(confHoldTime, confKeepaliveTime, start, bfdDown);
    fsm.StartFSM();
    var n := 0;
    while n < |inputs| && !fsm.close
      invariant fresh(fsm) && n <= |inputs| && (!fsm.close ==> fsm.Valid() && fsm.Logged())
      invariant fsm.close <==> exists j :: 0 <= j < n && inputs[j].Close?
      invariant WritesOf(fsm.log) == fsm.sent && Spoken(fsm.log).Some?
    {
      hide Reported, Agreed, Spoken, WritesOf;
      fsm.Handle(inputs[n]);
      n := n + 1;
    }
  }
}
