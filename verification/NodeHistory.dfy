/** Every connection of a node lives the life of a connection of its own: what happens at a node
    reaches the one connection it is meant for, and no other. */
module NodeHistory {
  import opened Packets
  import opened Connection
  import opened ConnectionHistory
  import opened ConnectionNode

  /** The life of the connection an endpoint has: its keep-alive interval and what happened to it. */
  datatype Life = Life(interval: int, calls: seq<Event>)

  function Lived(life: Option<Life>, more: seq<Event>): Option<Life> {
    match life
    case None => None
    case Some(l) => Some(Life(l.interval, l.calls + more))
  }

  /** What one event at the node means for the connection of endpoint `e`, if it has one. A connection
      begins with a connect call or an accepted request of its endpoint, hears the packets of its
      endpoint alone, every update, and the disconnect calls that name it, and is gone with the update
      that finds it ended, or with a disconnect call that says so. */
  ghost function LifeAfter(n: Node, life: Option<Life>, ev: NodeEvent, e: Endpoint): Option<Life> {
    match ev
    case Connect(e', linkFree, sendRequest, fits, interval) =>
      if e' == e && life.None? && linkFree
      then Some(Life(interval, if sendRequest then [SendConnectRequest(fits)] else [])) else life
    case ConnectPacket(e', max, password, payload, interval) =>
      if e' == e && life.None? && Judge(false, |n.conns|, max, password, payload).Accepted?
      then Some(Life(interval, [SendConnectAccept])) else life
    case Packet(e', call) => if e' == e && FromPacket(call) then Lived(life, [call]) else life
    case Update(ticks) =>
      if n.criticalError || life.None? then life
      else
        var state := Run(life.value.interval, life.value.calls).state;
        if !state.Connecting? && !state.Connected? then None
        else
          var t := TicksOf(ticks, e);
          Lived(life, [UpdateConnecting(t.connectTimedOut), UpdateKeepAlive(t.keepAliveDue, t.keepAliveLost)])
    case DisconnectOne(e', reason, newState, sendMsg, remove) =>
      if e' != e then life else if remove then None else Lived(life, [CallDisconnect(reason, newState, sendMsg)])
    case DisconnectAll => None
  }

  ghost function LifeOf(evs: seq<NodeEvent>, e: Endpoint): Option<Life> {
    if evs == [] then None
    else
      var front := evs[..|evs| - 1];
      LifeAfter(NodeRun(front), LifeOf(front, e), evs[|evs| - 1], e)
  }

  /** The node has a connection for `e` exactly if that has a life, and it is what that life made it. */
  ghost predicate Lives(n: Node, life: Option<Life>, e: Endpoint) {
    && (e in n.conns <==> life.Some?)
    && (life.Some? ==> n.conns[e] == Run(life.value.interval, life.value.calls))
  }

  lemma RunMore(l: Life, ev: Event)
    ensures Run(l.interval, l.calls + [ev]) == Connection.Step(Run(l.interval, l.calls), ev)
    ensures l.calls + [] == l.calls
  {
    assert (l.calls + [ev])[..|l.calls|] == l.calls;
    hide Connection.Step;
  }

  lemma RunFirst(interval: int, ev: Event)
    ensures Run(interval, []) == Fresh(interval) && Run(interval, [ev]) == Connection.Step(Fresh(interval), ev)
  {
    RunMore(Life(interval, []), ev);
    assert [] + [ev] == [ev];
    hide Connection.Step, Fresh;
  }

  lemma RunTwoMore(l: Life, a: Event, b: Event)
    ensures Run(l.interval, l.calls + [a, b]) == Connection.Step(Connection.Step(Run(l.interval, l.calls), a), b)
  {
    RunMore(l, a);
    RunMore(Life(l.interval, l.calls + [a]), b);
    assert l.calls + [a] + [b] == l.calls + [a, b];
    hide Connection.Step, Run;
  }

  lemma ConnectLives(n: Node, life: Option<Life>, ev: NodeEvent, e: Endpoint)
    requires Lives(n, life, e) && (ev.Connect? || ev.ConnectPacket?)
    ensures Lives(NodeStep(n, ev), LifeAfter(n, life, ev, e), e)
  {
    RunFirst(ev.interval, if ev.Connect? then SendConnectRequest(ev.fits) else SendConnectAccept);
    if ev.ConnectPacket? {
      AcceptedIsNew(ev.e in n.conns, |n.conns|, ev.max, ev.password, ev.payload);
      if ev.e == e && life.None? {
        assert e !in n.conns;
      }
    }
    hide Connection.Step, Run, Fresh, Judge;
  }

  lemma UpdateLives(n: Node, life: Option<Life>, ev: NodeEvent, e: Endpoint)
    requires Lives(n, life, e) && ev.Update?
    ensures Lives(NodeStep(n, ev), LifeAfter(n, life, ev, e), e)
  {
    var t := TicksOf(ev.ticks, e);
    if life.Some? {
      RunTwoMore(life.value, UpdateConnecting(t.connectTimedOut), UpdateKeepAlive(t.keepAliveDue, t.keepAliveLost));
    }
    hide Connection.Step, Run, Cleaned, TicksOf;
  }

  lemma OtherLives(n: Node, life: Option<Life>, ev: NodeEvent, e: Endpoint)
    requires Lives(n, life, e) && (ev.Packet? || ev.DisconnectOne? || ev.DisconnectAll?)
    ensures Lives(NodeStep(n, ev), LifeAfter(n, life, ev, e), e)
  {
    if life.Some? {
      if ev.Packet? {
        RunMore(life.value, ev.ev);
      } else if ev.DisconnectOne? {
        RunMore(life.value, CallDisconnect(ev.reason, ev.newState, ev.sendMsg));
        CallIsDisconnecting(Run(life.value.interval, life.value.calls), ev.reason, ev.newState, ev.sendMsg);
      }
    }
    hide Connection.Step, Run, Cleaned, Disconnecting;
  }

  /** Over any run of a node, the connection of every endpoint is there exactly while its own life says
      so, and is what a connection becomes to which just that happened. So all that holds of every
      run of one connection holds of each connection of a node. */
  lemma {:induction false} EveryConnectionLives(evs: seq<NodeEvent>, e: Endpoint)
    ensures var life := LifeOf(evs, e);
            && (e in NodeRun(evs).conns <==> life.Some?)
            && (life.Some? ==> NodeRun(evs).conns[e] == Run(life.value.interval, life.value.calls))
  {
    if evs != [] {
      var front, ev := evs[..|evs| - 1], evs[|evs| - 1];
      EveryConnectionLives(front, e);
      hide NodeStep, LifeAfter;
      match ev
      case Connect(_, _, _, _, _) => ConnectLives(NodeRun(front), LifeOf(front, e), ev, e);
      case ConnectPacket(_, _, _, _, _) => ConnectLives(NodeRun(front), LifeOf(front, e), ev, e);
      case Update(_) => UpdateLives(NodeRun(front), LifeOf(front, e), ev, e);
      case _ => OtherLives(NodeRun(front), LifeOf(front, e), ev, e);
    }
  }

  // ---- updates

  lemma NodeGrows(evs: seq<NodeEvent>, ev: NodeEvent)
    ensures NodeRun(evs + [ev]) == NodeStep(NodeRun(evs), ev)
  {
    assert (evs + [ev])[..|evs|] == evs;
    hide NodeStep;
  }

  /** An update drops exactly the connections that neither try to connect nor are connected. */
  lemma UpdateDropsExactlyWhen(evs: seq<NodeEvent>, ticks: map<Endpoint, Ticks>, e: Endpoint)
    requires e in NodeRun(evs).conns && !NodeRun(evs).criticalError
    ensures e in NodeRun(evs + [NodeEvent.Update(ticks)]).conns
            <==> NodeRun(evs).conns[e].state.Connecting? || NodeRun(evs).conns[e].state.Connected?
  {
    NodeGrows(evs, NodeEvent.Update(ticks));
    hide NodeRun, Updated, Cleaned;
  }

  lemma {:induction false} LifeIsProper(evs: seq<NodeEvent>, e: Endpoint)
    requires forall ev :: ev in evs ==> ProperNode(ev)
    ensures LifeOf(evs, e).Some? ==> forall call :: call in LifeOf(evs, e).value.calls ==> Proper(call)
  {
    if evs != [] {
      var front, ev := evs[..|evs| - 1], evs[|evs| - 1];
      assert ev in evs;
      LifeIsProper(front, e);
      hide Judge, Run, NodeRun;
    }
  }

  lemma NotWhileConnected(interval: int, calls: seq<Event>, timedOut: bool)
    requires (forall ev :: ev in calls ==> Proper(ev)) && Run(interval, calls).state.Connected?
    ensures Run(interval, calls + [UpdateConnecting(timedOut)]) == Run(interval, calls)
    ensures Unanswered(interval, calls + [UpdateConnecting(timedOut)]) <==> Unanswered(interval, calls)
  {
    RunGrows(interval, calls, UpdateConnecting(timedOut));
    WaitingIs(interval, calls);
    WaitingIs(interval, calls + [UpdateConnecting(timedOut)]);
    hide Run, Unanswered;
  }

  /** An update ends an established connection of a node exactly when that connection is to be kept alive,
      has sent a keep-alive request that is unanswered, and time is up for it. */
  lemma UpdateEndsExactlyWhen(evs: seq<NodeEvent>, ticks: map<Endpoint, Ticks>, e: Endpoint)
    requires forall ev :: ev in evs ==> ProperNode(ev)
    requires e in NodeRun(evs).conns && NodeRun(evs).conns[e].state.Connected? && !NodeRun(evs).criticalError
    ensures LifeOf(evs, e).Some? && e in NodeRun(evs + [NodeEvent.Update(ticks)]).conns
    ensures var l, c' := LifeOf(evs, e).value, NodeRun(evs + [NodeEvent.Update(ticks)]).conns[e];
            !c'.state.Connected? <==>
            TicksOf(ticks, e).keepAliveLost && l.interval > 0 && Unanswered(l.interval, l.calls)
  {
    var t := TicksOf(ticks, e);
    EveryConnectionLives(evs, e);
    LifeIsProper(evs, e);
    var l := LifeOf(evs, e).value;
    UpdatedRun(evs, ticks, e, l);
    NotWhileConnected(l.interval, l.calls, t.connectTimedOut);
    hide NodeRun, LifeOf, Run, TicksOf, Unanswered;
    KeepAliveEndsExactlyWhen(l.interval, l.calls + [UpdateConnecting(t.connectTimedOut)], t.keepAliveDue,
        t.keepAliveLost);
  }

  lemma UpdatedRun(evs: seq<NodeEvent>, ticks: map<Endpoint, Ticks>, e: Endpoint, l: Life)
    requires e in NodeRun(evs).conns && NodeRun(evs).conns[e].state.Connected? && !NodeRun(evs).criticalError
    requires NodeRun(evs).conns[e] == Run(l.interval, l.calls)
    ensures e in NodeRun(evs + [NodeEvent.Update(ticks)]).conns
    ensures var t := TicksOf(ticks, e);
            NodeRun(evs + [NodeEvent.Update(ticks)]).conns[e]
            == Run(l.interval, l.calls + [UpdateConnecting(t.connectTimedOut)]
                                 + [UpdateKeepAlive(t.keepAliveDue, t.keepAliveLost)])
  {
    var t := TicksOf(ticks, e);
    NodeGrows(evs, NodeEvent.Update(ticks));
    RunMore(l, UpdateConnecting(t.connectTimedOut));
    RunMore(Life(l.interval, l.calls + [UpdateConnecting(t.connectTimedOut)]),
        UpdateKeepAlive(t.keepAliveDue, t.keepAliveLost));
    hide NodeRun, Run, Connection.Step, TicksOf, Cleaned;
  }

  /** Event k is a connect request that is judged malformed. */
  ghost predicate Malforms(evs: seq<NodeEvent>, k: nat) {
    && k < |evs| && evs[k].ConnectPacket?
    && var n := NodeRun(evs[..k]);
       Judge(evs[k].e in n.conns, |n.conns|, evs[k].max, evs[k].password, evs[k].payload).Malformed?
  }

  lemma MalformsSame(evs: seq<NodeEvent>, ev: NodeEvent, k: nat)
    ensures k < |evs| ==> (Malforms(evs + [ev], k) <==> Malforms(evs, k))
    ensures k >= |evs| ==> !Malforms(evs, k) && (Malforms(evs + [ev], k) ==> k == |evs|)
  {
    if k < |evs| {
      assert (evs + [ev])[..k] == evs[..k];
    }
    hide Judge, NodeRun;
  }

  lemma MalformsLast(evs: seq<NodeEvent>, ev: NodeEvent)
    ensures NodeRun(evs + [ev]).criticalError <==> NodeRun(evs).criticalError || Malforms(evs + [ev], |evs|)
  {
    NodeGrows(evs, ev);
    assert (evs + [ev])[..|evs|] == evs;
    hide NodeRun, Judge, NodeStep;
    OneEventFails(NodeRun(evs), ev);
  }

  lemma OneEventFails(n: Node, ev: NodeEvent)
    ensures NodeStep(n, ev).criticalError <==>
            || n.criticalError
            || (ev.ConnectPacket? && Judge(ev.e in n.conns, |n.conns|, ev.max, ev.password, ev.payload).Malformed?)
  {
    hide Judge, UpdateAll, Connection.Step, Cleaned, Disconnecting;
  }

  /** A node fails exactly when some connect request was malformed; no other answer and nothing else it hears
      is an error. */
  lemma {:induction false} FailsExactlyWhen(evs: seq<NodeEvent>)
    ensures NodeRun(evs).criticalError <==> exists k: nat :: Malforms(evs, k)
  {
    if evs != [] {
      var front, ev := evs[..|evs| - 1], evs[|evs| - 1];
      assert evs == front + [ev];
      FailsExactlyWhen(front);
      MalformsLast(front, ev);
      hide NodeRun, Malforms;
      if k: nat :| Malforms(front, k) {
        MalformsSame(front, ev, k);
      }
      if k: nat :| Malforms(evs, k) {
        MalformsSame(front, ev, k);
      }
    }
  }

  /** A node that has failed updates nothing any more. */
  lemma FailedStaysStill(evs: seq<NodeEvent>, ticks: map<Endpoint, Ticks>)
    requires NodeRun(evs).criticalError
    ensures NodeRun(evs + [NodeEvent.Update(ticks)]) == NodeRun(evs)
  {
    NodeGrows(evs, NodeEvent.Update(ticks));
    hide NodeRun, UpdateAll;
  }
}
