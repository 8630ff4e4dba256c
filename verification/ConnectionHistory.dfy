/** What a connection says and becomes, told by what happened to it: how an attempt ends, when an
    established connection ends, and what is sent to keep it alive. */
module ConnectionHistory {
  import opened Connection

  /** What one call makes a connection do, in each of its states. */
  function Says(c: Conn, ev: Event): seq<Effect> {
    match ev
    case SendConnectRequest(fits) => if c.state.Idle? && fits then [Sent(ConnectRequest)] else []
    case SendConnectAccept => if c.state.Idle? then [LinkConnected, Sent(ConnectAccept)] else []
    case ReceiveConnectAccept => if c.state.Connecting? then [Result(Success)] else []
    case ReceiveDisconnect => if c.state.Connected? then [Ended(Closed), LinkReleased] else []
    case ReceiveKeepAliveRequest => if c.state.Connected? then [Sent(KeepAliveAnswer)] else []
    case ReceiveKeepAliveAnswer => []
    case ReceiveIncorrectPassword => if c.state.Connecting? then [Result(PasswordRefused)] else []
    case ReceiveMaxConnections => if c.state.Connecting? then [Result(NoRoom)] else []
    case ReceiveAlreadyConnected => if c.state.Connecting? then [Result(PacketRefused)] else []
    case UpdateConnecting(timedOut) =>
      if c.state.Connecting? && timedOut then [Result(Timedout), LinkReleased] else []
    case UpdateKeepAlive(due, lost) =>
      if !c.state.Connected? || c.interval <= 0 then []
      else if c.waiting then (if lost then [Ended(Lost), LinkReleased] else [])
      else if due then [Sent(KeepAliveRequest)] else []
    case CallDisconnect(reason, _, sendMsg) =>
      if c.disconnectCalled then []
      else if c.state.Connected? then (if sendMsg then [Sent(Disconnect)] else []) + [Ended(reason), LinkReleased]
      else if c.hasLink then [LinkReleased] else []
  }

  lemma StepSays(c: Conn, ev: Event)
    requires Inv(c) && Proper(ev)
    ensures Step(c, ev).log == c.log + Says(c, ev) && Step(c, ev).interval == c.interval
  {
    hide Results, Endings, Releases, WasConnected;
  }

  lemma RunGrows(interval: int, evs: seq<Event>, ev: Event)
    ensures Run(interval, evs + [ev]) == Step(Run(interval, evs), ev)
  {
    assert (evs + [ev])[..|evs|] == evs;
    hide Step;
  }

  lemma {:induction false} SameInterval(interval: int, evs: seq<Event>)
    requires forall ev :: ev in evs ==> Proper(ev)
    ensures Run(interval, evs).interval == interval
  {
    if evs != [] {
      var front := evs[..|evs| - 1];
      assert evs[|evs| - 1] in evs;
      SameInterval(interval, front);
      RunKeeps(interval, front);
      hide Inv, Step;
      StepSays(Run(interval, front), evs[|evs| - 1]);
    }
  }

  lemma SameEnd<A>(s: seq<A>, a: seq<A>, b: seq<A>)
    ensures s + a == s + b <==> a == b
  {
    assert (s + a)[|s|..] == a && (s + b)[|s|..] == b;
  }

  // ---- keeping alive

  /** With event k a keep-alive request goes out, and nothing else. */
  ghost predicate Asks(interval: int, evs: seq<Event>, k: nat) {
    k < |evs| && Run(interval, evs[..k + 1]).log == Run(interval, evs[..k]).log + [Sent(KeepAliveRequest)]
  }

  /** Some keep-alive request went out, and no answer came in since. */
  ghost predicate Unanswered(interval: int, evs: seq<Event>) {
    exists k: nat :: Asks(interval, evs, k) && ReceiveKeepAliveAnswer !in evs[k + 1..]
  }

  lemma OneStepWaits(c: Conn, ev: Event)
    requires Inv(c) && Proper(ev)
    ensures Step(c, ev).waiting <==>
            || Step(c, ev).log == c.log + [Sent(KeepAliveRequest)]
            || (c.waiting && ev != ReceiveKeepAliveAnswer)
  {
    StepSays(c, ev);
    SameEnd(c.log, Says(c, ev), [Sent(KeepAliveRequest)]);
    OnlyWhenDue(c, ev);
    hide Inv, Says;
  }

  lemma OnlyWhenDue(c: Conn, ev: Event)
    ensures Says(c, ev) == [Sent(KeepAliveRequest)] <==>
            ev.UpdateKeepAlive? && ev.due && c.state.Connected? && c.interval > 0 && !c.waiting
  {
    assert forall m: Message, r: Reason :: [Sent(m)] + [Ended(r), LinkReleased] == [Sent(m), Ended(r), LinkReleased];
  }

  lemma AsksSame(interval: int, evs: seq<Event>, k: nat)
    requires evs != [] && k < |evs| - 1
    ensures Asks(interval, evs, k) <==> Asks(interval, evs[..|evs| - 1], k)
    ensures evs[k + 1..] == evs[..|evs| - 1][k + 1..] + [evs[|evs| - 1]]
  {
    var front := evs[..|evs| - 1];
    assert evs[..k] == front[..k] && evs[..k + 1] == front[..k + 1];
    hide Run;
  }

  lemma AsksLast(interval: int, evs: seq<Event>)
    requires evs != []
    ensures var c := Run(interval, evs[..|evs| - 1]);
            Asks(interval, evs, |evs| - 1) <==> Step(c, evs[|evs| - 1]).log == c.log + [Sent(KeepAliveRequest)]
  {
    assert evs[..|evs| - 1 + 1] == evs;
    hide Step;
  }

  lemma UnansweredNext(interval: int, evs: seq<Event>)
    requires evs != []
    ensures Unanswered(interval, evs) <==>
            || Asks(interval, evs, |evs| - 1)
            || (Unanswered(interval, evs[..|evs| - 1]) && evs[|evs| - 1] != ReceiveKeepAliveAnswer)
  {
    var front := evs[..|evs| - 1];
    assert forall k: nat :: Asks(interval, front, k) ==> k < |front|;
    assert forall k: nat :: Asks(interval, evs, k) ==> k < |evs|;
    forall k: nat | k < |front|
      ensures Asks(interval, evs, k) <==> Asks(interval, front, k)
      ensures evs[k + 1..] == front[k + 1..] + [evs[|evs| - 1]]
    {
      AsksSame(interval, evs, k);
    }
    assert evs[|evs| - 1 + 1..] == [];
    hide Asks;
  }

  /** The connection waits exactly while a request of its own is unanswered. */
  lemma {:induction false} WaitingIs(interval: int, evs: seq<Event>)
    requires forall ev :: ev in evs ==> Proper(ev)
    ensures Run(interval, evs).waiting <==> Unanswered(interval, evs)
  {
    if evs == [] {
      assert forall k: nat :: !Asks(interval, evs, k);
    } else {
      var front := evs[..|evs| - 1];
      assert evs[|evs| - 1] in evs;
      WaitingIs(interval, front);
      RunKeeps(interval, front);
      hide Step, Inv, Unanswered, Asks;
      OneStepWaits(Run(interval, front), evs[|evs| - 1]);
      AsksLast(interval, evs);
      UnansweredNext(interval, evs);
    }
  }

  /** An update ends an established connection exactly when time is up for the answer to a keep-alive
      request that went out, and it asks exactly when it is time and no request is unanswered. */
  lemma KeepAliveEndsExactlyWhen(interval: int, evs: seq<Event>, due: bool, lost: bool)
    requires forall ev :: ev in evs ==> Proper(ev)
    requires Run(interval, evs).state.Connected?
    ensures var c, c' := Run(interval, evs), Run(interval, evs + [UpdateKeepAlive(due, lost)]);
            && (!c'.state.Connected? <==> lost && interval > 0 && Unanswered(interval, evs))
            && (!c'.state.Connected? ==>
                  c'.state.ConnectionTimedOut? && c'.log == c.log + [Ended(Lost), LinkReleased] && !c'.hasLink)
            && (Asks(interval, evs + [UpdateKeepAlive(due, lost)], |evs|) <==>
                due && interval > 0 && !Unanswered(interval, evs))
            && (c'.state.Connected? && !Asks(interval, evs + [UpdateKeepAlive(due, lost)], |evs|) ==> c' == c)
  {
    var c, ev := Run(interval, evs), UpdateKeepAlive(due, lost);
    WaitingIs(interval, evs);
    SameInterval(interval, evs);
    RunKeeps(interval, evs);
    RunGrows(interval, evs, ev);
    assert (evs + [ev])[..|evs|] == evs && (evs + [ev])[..|evs| + 1] == evs + [ev];
    StepSays(c, ev);
    SameEnd(c.log, Says(c, ev), [Sent(KeepAliveRequest)]);
    hide Run, Unanswered, Results, Endings, Releases, WasConnected;
  }

  function Count(log: seq<Effect>, e: Effect): nat {
    if log == [] then 0 else Count(log[..|log| - 1], e) + if log[|log| - 1] == e then 1 else 0
  }

  lemma CountMore(log: seq<Effect>, a: Effect, e: Effect)
    ensures Count(log + [a], e) == Count(log, e) + if a == e then 1 else 0
  {
    assert (log + [a])[..|log|] == log;
  }

  lemma {:induction false} CountPlus(log: seq<Effect>, more: seq<Effect>, e: Effect)
    ensures Count(log + more, e) == Count(log, e) + Count(more, e)
  {
    if more == [] {
      assert log + more == log;
    } else {
      var front, last := more[..|more| - 1], more[|more| - 1];
      CountPlus(log, front, e);
      assert log + more == (log + front) + [last];
      CountMore(log + front, last, e);
    }
  }

  /** The keep-alive requests that came in while connected. */
  function AskedWhileConnected(interval: int, evs: seq<Event>): nat {
    if evs == [] then 0
    else
      var front := evs[..|evs| - 1];
      AskedWhileConnected(interval, front)
      + if evs[|evs| - 1] == ReceiveKeepAliveRequest && Run(interval, front).state.Connected? then 1 else 0
  }

  lemma AnswersSaid(c: Conn, ev: Event)
    ensures Count(Says(c, ev), Sent(KeepAliveAnswer))
            == if ev == ReceiveKeepAliveRequest && c.state.Connected? then 1 else 0
  {
    var e := Sent(KeepAliveAnswer);
    if !(ev == ReceiveKeepAliveRequest && c.state.Connected?) {
      NoneCounted(Says(c, ev), e);
    } else {
      assert [e][..0] == [];
    }
  }

  lemma {:induction false} NoneCounted(log: seq<Effect>, e: Effect)
    requires e !in log
    ensures Count(log, e) == 0
  {
    if log != [] {
      NoneCounted(log[..|log| - 1], e);
    }
  }

  /** Every keep-alive request that comes in while connected is answered, once, and nothing else is. */
  lemma {:induction false} EveryRequestAnswered(interval: int, evs: seq<Event>)
    requires forall ev :: ev in evs ==> Proper(ev)
    ensures Count(Run(interval, evs).log, Sent(KeepAliveAnswer)) == AskedWhileConnected(interval, evs)
  {
    if evs != [] {
      var front, ev := evs[..|evs| - 1], evs[|evs| - 1];
      assert ev in evs;
      EveryRequestAnswered(interval, front);
      RunKeeps(interval, front);
      var c := Run(interval, front);
      hide Step, Inv, Says, Count;
      StepSays(c, ev);
      CountPlus(c.log, Says(c, ev), Sent(KeepAliveAnswer));
      AnswersSaid(c, ev);
    }
  }

  // ---- how an attempt ends

  /** A call that a fresh connection does something about. */
  predicate Opens(ev: Event) {
    ev.SendConnectRequest? || ev.SendConnectAccept? || ev.CallDisconnect?
  }

  /** What decides an attempt to connect. */
  predicate Decides(ev: Event) {
    || ev.ReceiveConnectAccept? || ev.ReceiveIncorrectPassword? || ev.ReceiveMaxConnections?
    || ev.ReceiveAlreadyConnected? || ev == UpdateConnecting(true) || ev.CallDisconnect?
  }

  lemma {:induction false} FreshUntilOpened(interval: int, evs: seq<Event>)
    requires forall ev :: ev in evs ==> !Opens(ev)
    ensures Run(interval, evs).state.Idle? && Run(interval, evs).log == []
    ensures Run(interval, evs).hasLink && !Run(interval, evs).disconnectCalled
  {
    if evs != [] {
      assert evs[|evs| - 1] in evs;
      FreshUntilOpened(interval, evs[..|evs| - 1]);
    }
  }

  /** The attempt that event k begins is undecided when event d comes. */
  ghost predicate Attempt(evs: seq<Event>, k: nat, d: nat) {
    && k < d <= |evs| && evs[k].SendConnectRequest?
    && (forall i :: 0 <= i < k ==> !Opens(evs[i])) && (forall i :: k < i < d ==> !Decides(evs[i]))
  }

  lemma {:induction false} Undecided(interval: int, evs: seq<Event>, k: nat, d: nat)
    requires Attempt(evs, k, d)
    ensures var c := Run(interval, evs[..d]);
            && c.state.Connecting? && c.hasLink && !c.disconnectCalled
            && c.log == if evs[k].fits then [Sent(ConnectRequest)] else []
    decreases d
  {
    assert evs[..d][..d - 1] == evs[..d - 1];
    if d == k + 1 {
      assert forall ev :: ev in evs[..k] ==> !Opens(ev);
      FreshUntilOpened(interval, evs[..k]);
    } else {
      Undecided(interval, evs, k, d - 1);
      assert !Decides(evs[d - 1]);
    }
  }

  /** An attempt goes on until the first event that decides it, which alone says what it comes to: the
      state, the result that is reported, and whether the link is let go. */
  lemma AttemptIsDecidedBy(interval: int, evs: seq<Event>, k: nat, d: nat)
    requires Attempt(evs, k, d) && d < |evs| && Decides(evs[d])
    ensures Run(interval, evs[..d]).state.Connecting?
    ensures var c, was := Run(interval, evs[..d + 1]), if evs[k].fits then [Sent(ConnectRequest)] else [];
            match evs[d]
            case ReceiveConnectAccept => c.state.Connected? && c.log == was + [Result(Success)] && c.hasLink
            case ReceiveIncorrectPassword =>
              c.state.InvalidPassword? && c.log == was + [Result(PasswordRefused)] && c.hasLink
            case ReceiveMaxConnections =>
              c.state.MaxConnectionsReached? && c.log == was + [Result(NoRoom)] && c.hasLink
            case ReceiveAlreadyConnected =>
              c.state.InvalidConnectPacket? && c.log == was + [Result(PacketRefused)] && c.hasLink
            case UpdateConnecting(_) =>
              c.state.InitiateTimedOut? && c.log == was + [Result(Timedout), LinkReleased] && !c.hasLink
            case CallDisconnect(_, newState, _) => c.state == newState && c.log == was + [LinkReleased] && !c.hasLink
            case _ => true
  {
    Undecided(interval, evs, k, d);
    assert evs[..d + 1] == evs[..d] + [evs[d]];
    RunGrows(interval, evs[..d], evs[d]);
    hide Run;
  }

  // ---- how an established connection ends

  /** An established connection ends exactly when the other side says so, when it is told to, or when a
      keep-alive request went unanswered for too long; its end is reported with that reason, and only
      a call that asks for it says goodbye. */
  lemma EstablishedEndsExactlyWhen(interval: int, evs: seq<Event>, ev: Event)
    requires (forall e :: e in evs ==> Proper(e)) && Proper(ev)
    requires Run(interval, evs).state.Connected?
    ensures var c, c' := Run(interval, evs), Run(interval, evs + [ev]);
            && (!c'.state.Connected? <==>
                || ev.ReceiveDisconnect? || ev.CallDisconnect?
                || (ev.UpdateKeepAlive? && ev.lost && interval > 0 && Unanswered(interval, evs)))
            && (ev.ReceiveDisconnect? ==> c'.state.Disconnected? && c'.log == c.log + [Ended(Closed), LinkReleased])
            && (ev.CallDisconnect? ==>
                  c'.state == ev.newState
                  && c'.log == c.log + (if ev.sendMsg then [Sent(Disconnect)] else [])
                               + [Ended(ev.reason), LinkReleased])
            && (!c'.state.Connected? ==> !c'.hasLink)
  {
    var c := Run(interval, evs);
    RunKeeps(interval, evs);
    RunGrows(interval, evs, ev);
    WaitingIs(interval, evs);
    SameInterval(interval, evs);
    StepSays(c, ev);
    hide Run, Unanswered, Results, Endings, Releases, WasConnected;
    if ev.CallDisconnect? {
      Assoc(c.log, if ev.sendMsg then [Sent(Disconnect)] else [], [Ended(ev.reason), LinkReleased]);
    }
  }

  lemma Assoc<A>(a: seq<A>, b: seq<A>, c: seq<A>)
    ensures a + b + c == a + (b + c)
  {
  }
}
