/** The life of one connection: how packets, timeouts and disconnect calls move it from state to
    state, what it sends and reports on the way, and when it lets go of its link. */
module Connection {
  datatype State =
    | Idle | Connecting | InitiateTimedOut | InvalidPassword | MaxConnectionsReached
    | InvalidConnectPacket | Connected | ConnectionTimedOut | Disconnected

  datatype ConnectResult = Success | Timedout | PasswordRefused | NoRoom | PacketRefused

  datatype Reason = Closed | Lost

  datatype Message = ConnectRequest | ConnectAccept | Disconnect | KeepAliveRequest | KeepAliveAnswer

  /** What a connection does to the outside, in order. */
  datatype Effect =
    | Sent(m: Message)
    | LinkConnected                      // the link is marked connected, on the accepting side
    | Result(r: ConnectResult)           // connect result callbacks
    | Ended(reason: Reason)              // disconnect callbacks
    | LinkReleased                       // the link is blocked, marked for deletion and let go

  datatype Conn = Conn(state: State, disconnectCalled: bool, hasLink: bool, waiting: bool, interval: int,
                       log: seq<Effect>)

  predicate Alive(s: State) {
    s.Idle? || s.Connecting? || s.Connected?
  }

  function Fresh(interval: int): Conn {
    Conn(Idle, false, true, false, interval, [])
  }

  function Emit(c: Conn, e: Effect): Conn {
    c.(log := c.log + [e])
  }

  function Cleaned(c: Conn): Conn {
    if c.hasLink then Emit(c, LinkReleased).(hasLink := false) else c
  }

  /** An established connection says goodbye, if asked to, and reports its end. */
  function Farewell(c: Conn, reason: Reason, sendMsg: bool): Conn {
    if !c.state.Connected? then c else Emit(if sendMsg then Said(c, Disconnect) else c, Ended(reason))
  }

  function Disconnecting(c: Conn, reason: Reason, newState: State, sendMsg: bool): Conn {
    if c.disconnectCalled then c
    else Cleaned(Farewell(c, reason, sendMsg).(disconnectCalled := true, state := newState))
  }

  function Refused(c: Conn, state: State, r: ConnectResult): Conn {
    if c.state.Connecting? then Emit(c, Result(r)).(state := state) else c
  }

  function Said(c: Conn, m: Message): Conn {
    if c.hasLink then Emit(c, Sent(m)) else c
  }

  /** The calls a connection receives. Timeouts are the clock's choice. */
  datatype Event =
    | SendConnectRequest(fits: bool)
    | SendConnectAccept
    | ReceiveConnectAccept
    | ReceiveDisconnect
    | ReceiveKeepAliveRequest
    | ReceiveKeepAliveAnswer
    | ReceiveIncorrectPassword
    | ReceiveMaxConnections
    | ReceiveAlreadyConnected
    | UpdateConnecting(timedOut: bool)
    | UpdateKeepAlive(due: bool, lost: bool)
    | CallDisconnect(reason: Reason, newState: State, sendMsg: bool)

  function Step(c: Conn, ev: Event): Conn {
    match ev
    case SendConnectRequest(fits) =>
      if !c.state.Idle? then c
      else if fits then Said(c.(state := Connecting), ConnectRequest)
      else c.(state := Connecting)
    case SendConnectAccept =>
      if c.state.Idle? then Said(Emit(c.(state := Connected), LinkConnected), ConnectAccept) else c
    case ReceiveConnectAccept => if c.state.Connecting? then Emit(c.(state := Connected), Result(Success)) else c
    case ReceiveDisconnect => if c.state.Connected? then Disconnecting(c, Closed, Disconnected, false) else c
    case ReceiveKeepAliveRequest => if c.state.Connected? then Said(c, KeepAliveAnswer) else c
    case ReceiveKeepAliveAnswer => c.(waiting := false)
    case ReceiveIncorrectPassword => Refused(c, InvalidPassword, PasswordRefused)
    case ReceiveMaxConnections => Refused(c, MaxConnectionsReached, NoRoom)
    case ReceiveAlreadyConnected => Refused(c, InvalidConnectPacket, PacketRefused)
    case UpdateConnecting(timedOut) =>
      if c.state.Connecting? && timedOut then Cleaned(Emit(c.(state := InitiateTimedOut), Result(Timedout))) else c
    case UpdateKeepAlive(due, lost) =>
      if !c.state.Connected? || c.interval <= 0 then c
      else if !c.waiting then (if due then Said(c, KeepAliveRequest).(waiting := true) else c)
      else if lost then Disconnecting(c, Lost, ConnectionTimedOut, false)
      else c
    case CallDisconnect(reason, newState, sendMsg) => Disconnecting(c, reason, newState, sendMsg)
  }

  function Run(interval: int, evs: seq<Event>): Conn {
    if evs == [] then Fresh(interval) else Step(Run(interval, evs[..|evs| - 1]), evs[|evs| - 1])
  }

  // ---- what was reported

  function Results(log: seq<Effect>): nat {
    if log == [] then 0 else Results(log[..|log| - 1]) + if log[|log| - 1].Result? then 1 else 0
  }

  function Endings(log: seq<Effect>): nat {
    if log == [] then 0 else Endings(log[..|log| - 1]) + if log[|log| - 1].Ended? then 1 else 0
  }

  function Releases(log: seq<Effect>): nat {
    if log == [] then 0 else Releases(log[..|log| - 1]) + if log[|log| - 1].LinkReleased? then 1 else 0
  }

  /** The connection was established at some time, from either side. */
  predicate WasConnected(log: seq<Effect>) {
    LinkConnected in log || Result(Success) in log
  }

  lemma EmitCounts(c: Conn, e: Effect)
    ensures var c' := Emit(c, e);
            && Results(c'.log) == Results(c.log) + (if e.Result? then 1 else 0)
            && Endings(c'.log) == Endings(c.log) + (if e.Ended? then 1 else 0)
            && Releases(c'.log) == Releases(c.log) + (if e.LinkReleased? then 1 else 0)
            && (WasConnected(c'.log) <==> WasConnected(c.log) || e == LinkConnected || e == Result(Success))
  {
    assert (c.log + [e])[..|c.log|] == c.log;
  }

  /** What holds of a connection at any time. */
  ghost predicate Inv(c: Conn) {
    && (Alive(c.state) ==> c.hasLink && !c.disconnectCalled)
    && (c.state.Idle? || c.state.Connecting? ==> Results(c.log) == 0 && !WasConnected(c.log))
    && (c.state.Connected? ==> WasConnected(c.log))
    && Results(c.log) <= 1
    && Endings(c.log) == (if WasConnected(c.log) && !c.state.Connected? then 1 else 0)
    && Releases(c.log) == if c.hasLink then 0 else 1
  }

  /** Callers only ever ask for an ended state. */
  predicate Proper(ev: Event) {
    ev.CallDisconnect? ==> !Alive(ev.newState)
  }

  lemma CleanKeeps(c: Conn)
    requires Results(c.log) <= 1 && !Alive(c.state)
    requires Endings(c.log) == (if WasConnected(c.log) then 1 else 0)
    requires Releases(c.log) == if c.hasLink then 0 else 1
    ensures Inv(Cleaned(c)) && !Cleaned(c).hasLink && Cleaned(c).state == c.state
    ensures WasConnected(Cleaned(c).log) <==> WasConnected(c.log)
  {
    EmitCounts(c, LinkReleased);
    hide Results, Endings, Releases, WasConnected;
  }

  lemma FarewellCounts(c: Conn, reason: Reason, sendMsg: bool)
    ensures var c' := Farewell(c, reason, sendMsg);
            && Results(c'.log) == Results(c.log) && Releases(c'.log) == Releases(c.log) && c'.hasLink == c.hasLink
            && Endings(c'.log) == Endings(c.log) + (if c.state.Connected? then 1 else 0)
            && (WasConnected(c'.log) <==> WasConnected(c.log))
  {
    EmitCounts(c, Sent(Disconnect));
    EmitCounts(if sendMsg then Said(c, Disconnect) else c, Ended(reason));
    hide Results, Endings, Releases, WasConnected;
  }

  lemma DisconnectKeeps(c: Conn, reason: Reason, newState: State, sendMsg: bool)
    requires Inv(c) && !Alive(newState)
    ensures var c' := Disconnecting(c, reason, newState, sendMsg);
            Inv(c') && (Alive(c.state) ==> c'.state == newState) && (!c.disconnectCalled ==> !c'.hasLink)
  {
    if !c.disconnectCalled {
      FarewellCounts(c, reason, sendMsg);
      hide Results, Endings, Releases, WasConnected, Cleaned, Farewell;
      CleanKeeps(Farewell(c, reason, sendMsg).(disconnectCalled := true, state := newState));
    }
  }

  lemma SaidKeeps(c: Conn, m: Message)
    requires Inv(c)
    ensures Inv(Said(c, m)) && Said(c, m).state == c.state
  {
    EmitCounts(c, Sent(m));
    hide Results, Endings, Releases, WasConnected;
  }

  lemma ResultKeeps(c: Conn, state: State, r: ConnectResult)
    requires Inv(c) && c.state.Connecting? && !state.Idle? && !state.Connecting? && (state.Connected? <==> r == Success)
    ensures Inv(Emit(c.(state := state), Result(r)))
  {
    EmitCounts(c.(state := state), Result(r));
    hide Results, Endings, Releases, WasConnected;
  }

  lemma AcceptKeeps(c: Conn)
    requires Inv(c) && c.state.Idle?
    ensures Inv(Emit(c.(state := Connected), LinkConnected))
  {
    EmitCounts(c.(state := Connected), LinkConnected);
    hide Results, Endings, Releases, WasConnected;
  }

  lemma StepKeeps(c: Conn, ev: Event)
    requires Inv(c) && Proper(ev)
    ensures Inv(Step(c, ev))
    ensures !Alive(c.state) ==> !Alive(Step(c, ev).state)
  {
    match ev
    case SendConnectRequest(_) => SaidKeeps(c.(state := if c.state.Idle? then Connecting else c.state), ConnectRequest);
    case SendConnectAccept =>
      if c.state.Idle? {
        AcceptKeeps(c);
        SaidKeeps(Emit(c.(state := Connected), LinkConnected), ConnectAccept);
      }
    case ReceiveConnectAccept =>
      if c.state.Connecting? {
        ResultKeeps(c, Connected, Success);
      }
    case ReceiveDisconnect => DisconnectKeeps(c, Closed, Disconnected, false);
    case ReceiveKeepAliveRequest => SaidKeeps(c, KeepAliveAnswer);
    case ReceiveKeepAliveAnswer =>
    case ReceiveIncorrectPassword => RefusedKeeps(c, InvalidPassword, PasswordRefused);
    case ReceiveMaxConnections => RefusedKeeps(c, MaxConnectionsReached, NoRoom);
    case ReceiveAlreadyConnected => RefusedKeeps(c, InvalidConnectPacket, PacketRefused);
    case UpdateConnecting(timedOut) =>
      if c.state.Connecting? && timedOut {
        ResultKeeps(c, InitiateTimedOut, Timedout);
        CleanKeeps(Emit(c.(state := InitiateTimedOut), Result(Timedout)));
      }
    case UpdateKeepAlive(_, _) =>
      SaidKeeps(c, KeepAliveRequest);
      DisconnectKeeps(c, Lost, ConnectionTimedOut, false);
    case CallDisconnect(reason, newState, sendMsg) => DisconnectKeeps(c, reason, newState, sendMsg);
  }

  lemma RefusedKeeps(c: Conn, state: State, r: ConnectResult)
    requires Inv(c) && !Alive(state) && r != Success
    ensures Inv(Refused(c, state, r)) && (Refused(c, state, r).state == if c.state.Connecting? then state else c.state)
  {
    if c.state.Connecting? {
      ResultKeeps(c, state, r);
    }
  }

  lemma FreshInv(interval: int)
    ensures Inv(Fresh(interval))
  {
  }

  lemma {:induction false} RunKeeps(interval: int, evs: seq<Event>)
    requires forall ev :: ev in evs ==> Proper(ev)
    ensures Inv(Run(interval, evs))
  {
    if evs == [] {
      FreshInv(interval);
    } else {
      assert evs[|evs| - 1] in evs;
      RunKeeps(interval, evs[..|evs| - 1]);
      hide Inv, Step;
      StepKeeps(Run(interval, evs[..|evs| - 1]), evs[|evs| - 1]);
    }
  }

  /** Lifecycle safety over any sequence of calls: at most one connect result and one disconnect
      are reported, the link is there whenever the connection lives and is released once at most,
      and what was established and is no more has been reported ended, exactly once. */
  lemma LifeIsSafe(interval: int, evs: seq<Event>)
    requires forall ev :: ev in evs ==> Proper(ev)
    ensures var c := Run(interval, evs);
            && Results(c.log) <= 1 && Endings(c.log) <= 1 && Releases(c.log) <= 1
            && (Alive(c.state) ==> c.hasLink)
            && (Endings(c.log) == 1 <==> WasConnected(c.log) && !c.state.Connected?)
  {
    RunKeeps(interval, evs);
  }

  /** Once ended, always ended. */
  lemma {:induction false} EndedStays(interval: int, evs: seq<Event>, k: nat)
    requires k <= |evs| && forall ev :: ev in evs ==> Proper(ev)
    requires !Alive(Run(interval, evs[..k]).state)
    ensures !Alive(Run(interval, evs).state)
    decreases |evs|
  {
    if k < |evs| {
      var front := evs[..|evs| - 1];
      assert front[..k] == evs[..k] && evs[|evs| - 1] in evs;
      RunKeeps(interval, front);
      EndedStays(interval, front, k);
      hide Inv, Step;
      StepKeeps(Run(interval, front), evs[|evs| - 1]);
    } else {
      assert evs[..k] == evs;
    }
  }

  /** A call of disconnect keeps all this exactly when it asks for an ended state, or comes after
      an earlier call and so does nothing. */
  lemma DisconnectKeepsExactlyWhen(c: Conn, reason: Reason, newState: State, sendMsg: bool)
    requires Inv(c)
    ensures Inv(Disconnecting(c, reason, newState, sendMsg)) <==> c.disconnectCalled || !Alive(newState)
  {
    if !Alive(newState) {
      DisconnectKeeps(c, reason, newState, sendMsg);
    }
  }

  // ---- the connection object

  class ConnectionObject {
    var state: State
    var disconnectCalled: bool
    var hasLink: bool
    var waitingForKeepAlive: bool
    const keepAliveInterval: int
    var log: seq<Effect>

    function View(): Conn
      reads this
    {
      Conn(state, disconnectCalled, hasLink, waitingForKeepAlive, keepAliveInterval, log)
    }

    constructor (keepAliveInterval: int)
      ensures View() == Fresh(keepAliveInterval)
    {
      state, disconnectCalled, hasLink, waitingForKeepAlive, log := Idle, false, true, false, [];
      this.keepAliveInterval := keepAliveInterval;
    }

    method CleanLink()
      modifies this`hasLink, this`log
      ensures View() == Cleaned(old(View()))
    {
      if hasLink {
        log := log + [LinkReleased];
        hasLink := false;
      }
    }

    method SendSystemMessage(m: Message)
      modifies this`log
      ensures View() == Said(old(View()), m)
    {
      if hasLink {
        log := log + [Sent(m)];
      }
    }

    method Disconnect(reason: Reason, newState: State, sendMsg: bool)
      modifies this
      ensures View() == Step(old(View()), CallDisconnect(reason, newState, sendMsg))
    {
      if disconnectCalled {
        return;
      }
      disconnectCalled := true;
      if state == Connected {
        if sendMsg {
          SendSystemMessage(Message.Disconnect);
        }
        log := log + [Ended(reason)];
      }
      state := newState;
      CleanLink();
    }

    method Refuse(newState: State, r: ConnectResult)
      modifies this`state, this`log
      ensures View() == Refused(old(View()), newState, r)
    {
      if state == Connecting {
        state := newState;
        log := log + [Result(r)];
      }
    }

    method SendConnectRequest(fits: bool) returns (sent: bool)
      requires state == Idle
      modifies this`state, this`log
      ensures View() == Step(old(View()), Event.SendConnectRequest(fits)) && sent == fits
    {
      state := Connecting;
      if !fits {
        return false;
      }
      SendSystemMessage(ConnectRequest);
      return true;
    }

    method SendConnectAccept()
      requires state == Idle
      modifies this`state, this`log
      ensures View() == Step(old(View()), Event.SendConnectAccept)
    {
      state := Connected;
      log := log + [LinkConnected];
      SendSystemMessage(ConnectAccept);
    }

    method OnReceiveConnectAccept()
      modifies this`state, this`log
      ensures View() == Step(old(View()), ReceiveConnectAccept)
    {
      if state == Connecting {
        state := Connected;
        log := log + [Result(Success)];
      }
    }

    method OnReceiveDisconnect()
      modifies this
      ensures View() == Step(old(View()), ReceiveDisconnect)
    {
      if state == Connected {
        Disconnect(Closed, Disconnected, false);
      }
    }

    method OnReceiveKeepAliveRequest()
      modifies this`log
      ensures View() == Step(old(View()), ReceiveKeepAliveRequest)
    {
      if state == Connected {
        SendSystemMessage(KeepAliveAnswer);
      }
    }

    method OnReceiveKeepAliveAnswer()
      modifies this`waitingForKeepAlive
      ensures View() == Step(old(View()), ReceiveKeepAliveAnswer)
    {
      if waitingForKeepAlive {
        waitingForKeepAlive := false;
      }
    }

    method DoUpdateConnecting(timedOut: bool)
      modifies this
      ensures View() == Step(old(View()), UpdateConnecting(timedOut))
    {
      if state == Connecting && timedOut {
        state := InitiateTimedOut;
        log := log + [Result(Timedout)];
        CleanLink();
      }
    }

    method DoUpdateKeepAlive(due: bool, lost: bool)
      modifies this
      ensures View() == Step(old(View()), UpdateKeepAlive(due, lost))
    {
      if state != Connected || keepAliveInterval <= 0 {
        return;
      }
      if !waitingForKeepAlive {
        if due {
          SendSystemMessage(KeepAliveRequest);
          waitingForKeepAlive := true;
        }
      } else if lost {
        Disconnect(Lost, ConnectionTimedOut, false);
      }
    }
  }
}
