/** Connections together with the links they use: when the link of a live connection is still there.
    Links are added for the first packet of an endpoint and for connections made here; they are
    marked when their connection lets go of them or a request over them is refused, and the sweep
    deletes marked ones. */
module LiveLinks {
  import opened Packets
  import opened Connection
  import opened ConnectPayload
  import opened ConnectionNode
  import opened ConnectRefusals

  /** A link as an object of its own. A marked one is to be deleted and sends nothing more. */
  datatype Open = Open(id: nat, marked: bool)

  /** `holds` is the link a connection was made with. `clean` is history: the endpoints whose
      connection was made on an unmarked link and that sent no connect request since. */
  datatype Joint = Joint(node: Node, links: map<Endpoint, Open>, holds: map<Endpoint, nat>, clean: set<Endpoint>,
                         made: nat)

  datatype LinkEvent =
    | Arrive(e: Endpoint)                      // the first packet of an endpoint
    | Sweep(overdue: set<Endpoint>)            // deletes the marked links whose time is up and that nobody pins
    | Call(ev: NodeEvent)                      // what the connections are asked or told

  function Added(j: Joint, e: Endpoint): Joint {
    if e in j.links then j else j.(links := j.links[e := Open(j.made, false)], made := j.made + 1)
  }

  function Swept(j: Joint, overdue: set<Endpoint>): Joint {
    j.(links := map e | e in j.links && !(e in overdue && j.links[e].marked) :: j.links[e])
  }

  /** The request over the link is answered with a refusal, and so is any other packet from an
      endpoint without a connection. */
  predicate Refuses(n: Node, ev: NodeEvent, e: Endpoint) {
    match ev
    case ConnectPacket(e', max, password, payload, _) =>
      e' == e &&
      var v := Judge(e in n.conns, |n.conns|, max, password, payload);
      v.AlreadyConnected? || v.IncorrectPassword? || v.TooManyConnections?
    case Packet(e', _) => e' == e && e !in n.conns
    case _ => false
  }

  /** The connection under this endpoint lets go of its link in this step. */
  predicate LetsGo(n: Node, n': Node, e: Endpoint) {
    e in n.conns && n.conns[e].hasLink && (e in n'.conns ==> !n'.conns[e].hasLink)
  }

  predicate Held(j: Joint, e: Endpoint) {
    e in j.links && e in j.holds && j.links[e].id == j.holds[e]
  }

  function Marked(j: Joint, ev: NodeEvent, n': Node): map<Endpoint, Open> {
    map e | e in j.links ::
      if Refuses(j.node, ev, e) || (LetsGo(j.node, n', e) && Held(j, e)) then j.links[e].(marked := true)
      else j.links[e]
  }

  /** A connection is made under `e`. */
  predicate Makes(n: Node, n': Node, e: Endpoint) {
    e !in n.conns && e in n'.conns
  }

  function Cleanliness(j: Joint, ev: NodeEvent, n': Node): set<Endpoint> {
    if !ev.Connect? && !ev.ConnectPacket? then j.clean
    else if Makes(j.node, n', ev.e) && ev.e in j.links && !j.links[ev.e].marked then j.clean + {ev.e}
    else if Makes(j.node, n', ev.e) || ev.ConnectPacket? then j.clean - {ev.e}
    else j.clean
  }

  ghost function Told(j: Joint, ev: NodeEvent): Joint {
    var n' := NodeStep(j.node, ev);
    var holds := if (ev.Connect? || ev.ConnectPacket?) && Makes(j.node, n', ev.e) && ev.e in j.links
                 then j.holds[ev.e := j.links[ev.e].id] else j.holds;
    Joint(n', Marked(j, ev, n'), holds, Cleanliness(j, ev, n'), j.made)
  }

  /** A connection of one's own needs a link that can be added; packets need a link they come over. */
  ghost function Step(j: Joint, ev: LinkEvent): Joint {
    match ev
    case Arrive(e) => Added(j, e)
    case Sweep(overdue) => Swept(j, overdue)
    case Call(Connect(e, _, sendRequest, fits, interval)) =>
      if e in j.node.conns || e in j.links then j
      else Told(Added(j, e), NodeEvent.Connect(e, true, sendRequest, fits, interval))
    case Call(ev) =>
      if (ev.ConnectPacket? || ev.Packet?) && ev.e !in j.links then j else Told(j, ev)
  }

  ghost function Run(evs: seq<LinkEvent>): Joint {
    if evs == [] then Joint(Node(map[], {}, false), map[], map[], {}, 0)
    else Step(Run(evs[..|evs| - 1]), evs[|evs| - 1])
  }

  ghost predicate Proper(ev: LinkEvent) {
    ev.Call? ==> ProperNode(ev.ev)
  }

  /** The link of the connection is in place, the one it was made with, and not to be deleted. */
  predicate Lives(j: Joint, e: Endpoint) {
    Held(j, e) && !j.links[e].marked
  }

  ghost predicate LinkInv(j: Joint) {
    && NodeInv(j.node)
    && (forall e :: e in j.links ==> j.links[e].id < j.made)
    && (forall e :: e in j.node.conns ==> e in j.holds && j.holds[e] < j.made)
    && (forall e :: e in j.node.conns && j.node.conns[e].hasLink ==> (e in j.clean <==> Lives(j, e)))
  }

  // ---- what a step of the node does to one connection

  lemma StaysLinked(c: Conn, ev: Event)
    ensures Connection.Step(c, ev).hasLink ==> c.hasLink
  {
  }

  lemma NeverLinkedAgain(n: Node, ev: NodeEvent, e: Endpoint)
    requires e in n.conns && e in NodeStep(n, ev).conns && NodeStep(n, ev).conns[e].hasLink
    ensures n.conns[e].hasLink
  {
    hide Connection.Step, Judge, Cleaned, Fresh, Disconnecting;
    match ev
    case Packet(_, call) => StaysLinked(n.conns[e], call);
    case Update(ticks) =>
      var t := TicksOf(ticks, e);
      StaysLinked(n.conns[e], UpdateConnecting(t.connectTimedOut));
      StaysLinked(Connection.Step(n.conns[e], UpdateConnecting(t.connectTimedOut)),
          UpdateKeepAlive(t.keepAliveDue, t.keepAliveLost));
    case DisconnectOne(_, reason, newState, sendMsg, _) =>
      StaysLinked(n.conns[e], CallDisconnect(reason, newState, sendMsg));
      CallIsDisconnecting(n.conns[e], reason, newState, sendMsg);
    case ConnectPacket(e', max, password, payload, _) =>
      AcceptedIsNew(e' in n.conns, |n.conns|, max, password, payload);
    case _ =>
  }

  lemma MadeBy(n: Node, ev: NodeEvent, e: Endpoint)
    requires Makes(n, NodeStep(n, ev), e)
    ensures (ev.Connect? || ev.ConnectPacket?) && ev.e == e && !Refuses(n, ev, e)
  {
    hide Judge, Connection.Step;
  }

  lemma KnownIsRefused(n: Node, ev: NodeEvent, e: Endpoint)
    requires e in n.conns
    ensures Refuses(n, ev, e) <==> ev.ConnectPacket? && ev.e == e
  {
  }

  /** One connection after a step of the node. */
  lemma ToldOne(j: Joint, ev: NodeEvent, e: Endpoint)
    requires e in NodeStep(j.node, ev).conns
    requires ev.Connect? || ev.ConnectPacket? ==> ev.e in j.links
    requires forall l :: l in j.links ==> j.links[l].id < j.made
    requires e in j.node.conns ==>
               && e in j.holds && j.holds[e] < j.made
               && (j.node.conns[e].hasLink ==> (e in j.clean <==> Lives(j, e)))
    ensures var j' := Told(j, ev);
            && e in j'.holds && j'.holds[e] < j'.made
            && (j'.node.conns[e].hasLink ==> (e in j'.clean <==> Lives(j', e)))
  {
    var n, n' := j.node, NodeStep(j.node, ev);
    hide NodeStep, Refuses;
    if e !in n.conns {
      MadeBy(n, ev, e);
    } else {
      KnownIsRefused(n, ev, e);
      if n'.conns[e].hasLink {
        NeverLinkedAgain(n, ev, e);
      }
    }
  }

  lemma ToldKeeps(j: Joint, ev: NodeEvent)
    requires LinkInv(j) && ProperNode(ev)
    requires ev.Connect? || ev.ConnectPacket? ==> ev.e in j.links
    ensures LinkInv(Told(j, ev))
  {
    NodeStepKeeps(j.node, ev);
    hide NodeInv, NodeStep, Refuses, Lives, Cleanliness, LetsGo, Held;
    forall e | e in NodeStep(j.node, ev).conns
      ensures var j' := Told(j, ev);
              && e in j'.holds && j'.holds[e] < j'.made
              && (j'.node.conns[e].hasLink ==> (e in j'.clean <==> Lives(j', e)))
    {
      ToldOne(j, ev, e);
    }
  }

  lemma StepKeeps(j: Joint, ev: LinkEvent)
    requires LinkInv(j) && Proper(ev)
    ensures LinkInv(Step(j, ev))
  {
    hide NodeInv, Told;
    if ev.Call? {
      var call := ev.ev;
      if call.Connect? {
        if call.e !in j.node.conns && call.e !in j.links {
          ToldKeeps(Added(j, call.e), NodeEvent.Connect(call.e, true, call.sendRequest, call.fits, call.interval));
        }
      } else if call.ConnectPacket? || call.Packet? {
        if call.e in j.links {
          ToldKeeps(j, call);
        }
      } else {
        ToldKeeps(j, call);
      }
    }
  }

  lemma {:induction false} RunKeeps(evs: seq<LinkEvent>)
    requires forall ev :: ev in evs ==> Proper(ev)
    ensures LinkInv(Run(evs))
  {
    if evs != [] {
      assert evs[|evs| - 1] in evs;
      RunKeeps(evs[..|evs| - 1]);
      hide LinkInv, Step;
      StepKeeps(Run(evs[..|evs| - 1]), evs[|evs| - 1]);
    }
  }

  /** Whatever packets arrive and whenever the sweep runs, the link of a live connection is in place
      and outlives the next sweep exactly when the connection was made on an unmarked link and its
      endpoint sent no connect request since. Otherwise the sweep takes the link and the connection
      lives on without it. */
  lemma LinkLivesExactlyWhen(evs: seq<LinkEvent>, e: Endpoint)
    requires forall ev :: ev in evs ==> Proper(ev)
    requires e in Run(evs).node.conns && Alive(Run(evs).node.conns[e].state)
    ensures e in Run(evs).clean <==> Lives(Run(evs), e)
    ensures e in Run(evs).clean <==> Held(Run(evs + [Sweep({e})]), e)
    ensures Run(evs + [Sweep({e})]).node == Run(evs).node
  {
    RunKeeps(evs);
    hide Run;
    RunOneMore(evs, Sweep({e}));
  }

  lemma RunOneMore(evs: seq<LinkEvent>, ev: LinkEvent)
    ensures Run(evs + [ev]) == Step(Run(evs), ev)
  {
    assert (evs + [ev])[..|evs|] == evs;
    hide Step;
  }

  // ---- which links are marked

  /** The request over the link is refused: its endpoint is known, it does not give the password, or the node
      is full. */
  ghost predicate IsTurnedDown(n: Node, ev: NodeEvent, e: Endpoint) {
    && ev.ConnectPacket? && ev.e == e
    && (e in n.conns || !Gives(ev.payload, UpToNul(ev.password)) || |n.conns| >= ev.max)
  }

  lemma RefusesMeans(n: Node, ev: NodeEvent, e: Endpoint)
    ensures Refuses(n, ev, e) <==> IsTurnedDown(n, ev, e) || (ev.Packet? && ev.e == e && e !in n.conns)
  {
    if ev.ConnectPacket? {
      AnswersExactlyWhen(ev.e in n.conns, |n.conns|, ev.max, ev.password, ev.payload);
    }
    hide Judge, Gives, Legible, UpToNul;
  }

  lemma ToldMarks(j: Joint, ev: NodeEvent, e: Endpoint)
    requires e in j.links
    ensures var j' := Told(j, ev);
            && e in j'.links && j'.links[e].id == j.links[e].id
            && (j'.links[e].marked <==>
                j.links[e].marked || Refuses(j.node, ev, e) || (LetsGo(j.node, j'.node, e) && Held(j, e)))
  {
    hide NodeStep, Refuses, LetsGo, Held, Cleanliness;
  }

  lemma NothingLetGo(n: Node, e: Endpoint)
    ensures !LetsGo(n, n, e)
  {
  }

  /** A link is marked exactly when a request over it is turned down, a packet other than a request comes over
      it while its endpoint has no connection, or the connection made with it lets go of it. A malformed
      request does not mark it. */
  lemma MarkedExactlyWhen(evs: seq<LinkEvent>, ev: NodeEvent, e: Endpoint)
    requires e in Run(evs).links && !ev.Connect?
    ensures var j, j' := Run(evs), Run(evs + [Call(ev)]);
            && e in j'.links && j'.links[e].id == j.links[e].id
            && (j'.links[e].marked <==>
                || j.links[e].marked
                || IsTurnedDown(j.node, ev, e)
                || (ev.Packet? && ev.e == e && e !in j.node.conns)
                || (&& e in j.node.conns && j.node.conns[e].hasLink && e in j.holds && j.holds[e] == j.links[e].id
                    && !(e in j'.node.conns && j'.node.conns[e].hasLink)))
  {
    var j := Run(evs);
    RunOneMore(evs, Call(ev));
    RefusesMeans(j.node, ev, e);
    ToldMarks(j, ev, e);
    NothingLetGo(j.node, e);
    hide Run, Told, Refuses, IsTurnedDown;
  }

  /** A sweep takes the marked links whose time is up, and no other. */
  lemma SweptExactlyWhen(evs: seq<LinkEvent>, overdue: set<Endpoint>, e: Endpoint)
    ensures e in Run(evs + [Sweep(overdue)]).links <==>
            e in Run(evs).links && !(e in overdue && Run(evs).links[e].marked)
  {
    RunOneMore(evs, Sweep(overdue));
    hide Run;
  }

  /** The request of an endpoint. */
  function Request(e: Endpoint, max: int, password: Text, payload: seq<Byte>, interval: int): LinkEvent {
    Call(NodeEvent.ConnectPacket(e, max, password, payload, interval))
  }

  lemma AskedOnce(e: Endpoint, max: int, password: Text, payload: seq<Byte>, interval: int)
    requires Judge(false, 0, max, password, payload).Accepted?
    ensures Run([Arrive(e), Request(e, max, password, payload, interval)])
            == Joint(Node(map[e := Connection.Step(Fresh(interval), SendConnectAccept)], {}, false),
                     map[e := Open(0, false)], map[e := 0], {e}, 1)
  {
    var request := Request(e, max, password, payload, interval);
    hide Judge, Connection.Step, Run;
    RunOneMore([], Arrive(e));
    assert [] + [Arrive(e)] == [Arrive(e)] && [Arrive(e)] + [request] == [Arrive(e), request];
    assert Run([]) == Joint(Node(map[], {}, false), map[], map[], {}, 0) by { RunStarts(); }
    RunOneMore([Arrive(e)], request);
    AcceptedRequest(e, max, password, payload, interval);
    hide Told;
  }

  lemma RunStarts()
    ensures Run([]) == Joint(Node(map[], {}, false), map[], map[], {}, 0)
  {
  }

  /** Asking a second time is enough to lose the link of an established connection. */
  lemma AskingTwiceLosesLink(e: Endpoint, max: int, password: Text, payload: seq<Byte>, interval: int)
    requires Judge(false, 0, max, password, payload).Accepted?
    ensures var request := Request(e, max, password, payload, interval);
            var j := Run([Arrive(e), request, request, Sweep({e})]);
            e in j.node.conns && j.node.conns[e].state.Connected? && j.node.conns[e].hasLink && e !in j.links
  {
    var request := Request(e, max, password, payload, interval);
    var node := Node(map[e := Connection.Step(Fresh(interval), SendConnectAccept)], {}, false);
    AskedOnce(e, max, password, payload, interval);
    RepeatedRequest(node, e, max, password, payload, interval);
    Established(interval);
    hide Judge, Connection.Step, Run, Told, Fresh;
    RunOneMore([Arrive(e), request], request);
    RunOneMore([Arrive(e), request, request], Sweep({e}));
    assert [Arrive(e), request] + [request] == [Arrive(e), request, request];
    assert [Arrive(e), request, request] + [Sweep({e})] == [Arrive(e), request, request, Sweep({e})];
  }

  lemma Established(interval: int)
    ensures var c := Connection.Step(Fresh(interval), SendConnectAccept); c.state.Connected? && c.hasLink
  {
  }

  lemma AcceptedRequest(e: Endpoint, max: int, password: Text, payload: seq<Byte>, interval: int)
    requires Judge(false, 0, max, password, payload).Accepted?
    ensures var j := Joint(Node(map[], {}, false), map[e := Open(0, false)], map[], {}, 1);
            Told(j, NodeEvent.ConnectPacket(e, max, password, payload, interval))
            == Joint(Node(map[e := Connection.Step(Fresh(interval), SendConnectAccept)], {}, false),
                     map[e := Open(0, false)], map[e := 0], {e}, 1)
  {
    hide Judge, Connection.Step;
  }

  lemma RepeatedRequest(n: Node, e: Endpoint, max: int, password: Text, payload: seq<Byte>, interval: int)
    requires e in n.conns
    ensures Told(Joint(n, map[e := Open(0, false)], map[e := 0], {e}, 1),
                 NodeEvent.ConnectPacket(e, max, password, payload, interval))
            == Joint(n, map[e := Open(0, true)], map[e := 0], {}, 1)
  {
    hide Connection.Step;
  }
}
