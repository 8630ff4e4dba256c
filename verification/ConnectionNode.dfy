/** The connections of a node by endpoint: how they are made, judged, updated and dropped. */
module ConnectionNode {
  import opened Packets
  import opened Connection
  import opened ConnectPayload

  type Endpoint = nat

  type Table = map<Endpoint, Conn>

  /** What a connect request is answered with. A malformed one is a critical error and gets no
      answer. */
  datatype Verdict =
    | AlreadyConnected | IncorrectPassword | TooManyConnections | Malformed
    | Accepted(metaData: map<Text, Text>)

  function Judge(known: bool, count: nat, max: int, password: Text, payload: seq<Byte>): Verdict {
    var pw := ReadText(payload);
    if known then AlreadyConnected
    else if pw != password[..StrLen(password)] then IncorrectPassword
    else if count >= max then TooManyConnections
    else if |pw| == |payload| then Malformed
    else
      match DecodeMap(payload[|pw| + 1..], map[])
      case None => Malformed
      case Some(m) => Accepted(m)
  }

  /** What the clock says about a connection. */
  datatype Ticks = Ticks(connectTimedOut: bool, keepAliveDue: bool, keepAliveLost: bool)

  function TicksOf(ticks: map<Endpoint, Ticks>, e: Endpoint): Ticks {
    if e in ticks then ticks[e] else Ticks(false, false, false)
  }

  /** A connection that is neither connecting nor connected is dropped; the others are updated. */
  predicate Stays(c: Conn) {
    c.state.Connected? || c.state.Connecting?
  }

  function Updated(c: Conn, t: Ticks): Conn {
    Step(Step(c, UpdateConnecting(t.connectTimedOut)), UpdateKeepAlive(t.keepAliveDue, t.keepAliveLost))
  }

  function UpdateAll(conns: Table, ticks: map<Endpoint, Ticks>): Table {
    map e | e in conns && Stays(conns[e]) :: Updated(conns[e], TicksOf(ticks, e))
  }

  /** `dropped` is history: every connection deleted so far, as its destructor left it. */
  datatype Node = Node(conns: Table, dropped: set<Conn>, criticalError: bool)

  datatype NodeEvent =
    | Connect(e: Endpoint, linkFree: bool, sendRequest: bool, fits: bool, interval: int)
    | ConnectPacket(e: Endpoint, max: int, password: Text, payload: seq<Byte>, interval: int)
    | Packet(e: Endpoint, ev: Event)            // any other packet on a known connection
    | Update(ticks: map<Endpoint, Ticks>)
    | DisconnectOne(e: Endpoint, reason: Reason, newState: State, sendMsg: bool, remove: bool)
    | DisconnectAll

  function ClosedHere(c: Conn): Conn {
    Disconnecting(c, Closed, Disconnected, true)
  }

  ghost function NodeStep(n: Node, ev: NodeEvent): Node {
    match ev
    case Connect(e, linkFree, sendRequest, fits, interval) =>
      if e in n.conns || !linkFree then n
      else
        var c := if sendRequest then Step(Fresh(interval), SendConnectRequest(fits)) else Fresh(interval);
        n.(conns := n.conns[e := c])
    case ConnectPacket(e, max, password, payload, interval) =>
      var v := Judge(e in n.conns, |n.conns|, max, password, payload);
      if v.Accepted? then n.(conns := n.conns[e := Step(Fresh(interval), SendConnectAccept)])
      else n.(criticalError := n.criticalError || v.Malformed?)
    case Packet(e, ev) => if e in n.conns && FromPacket(ev) then n.(conns := n.conns[e := Step(n.conns[e], ev)]) else n
    case Update(ticks) =>
      if n.criticalError then n
      else n.(conns := UpdateAll(n.conns, ticks),
              dropped := n.dropped + set e | e in n.conns && !Stays(n.conns[e]) :: Cleaned(n.conns[e]))
    case DisconnectOne(e, reason, newState, sendMsg, remove) =>
      if e !in n.conns then n
      else
        var c := Disconnecting(n.conns[e], reason, newState, sendMsg);
        if remove then n.(conns := n.conns - {e}, dropped := n.dropped + {Cleaned(c)})
        else n.(conns := n.conns[e := c])
    case DisconnectAll =>
      n.(conns := map[], dropped := n.dropped + set e | e in n.conns :: Cleaned(ClosedHere(n.conns[e])))
  }

  /** The calls that packets make on a connection. */
  predicate FromPacket(ev: Event) {
    ev.ReceiveConnectAccept? || ev.ReceiveDisconnect? || ev.ReceiveKeepAliveRequest? || ev.ReceiveKeepAliveAnswer?
    || ev.ReceiveIncorrectPassword? || ev.ReceiveMaxConnections? || ev.ReceiveAlreadyConnected?
  }

  ghost function NodeRun(evs: seq<NodeEvent>): Node {
    if evs == [] then Node(map[], {}, false) else NodeStep(NodeRun(evs[..|evs| - 1]), evs[|evs| - 1])
  }

  /** A dropped connection was not established any more, let go of its link, and, had it ever been
      established, has reported its end. */
  ghost predicate DroppedWell(c: Conn) {
    && !c.state.Connected? && !c.hasLink
    && Endings(c.log) == (if WasConnected(c.log) then 1 else 0)
    && Results(c.log) <= 1 && Releases(c.log) == 1
  }

  ghost predicate NodeInv(n: Node) {
    && (forall e :: e in n.conns ==> Inv(n.conns[e]))
    && (forall c :: c in n.dropped ==> DroppedWell(c))
  }

  ghost predicate ProperNode(ev: NodeEvent) {
    ev.DisconnectOne? ==> !Alive(ev.newState)
  }

  // ---- what every run keeps

  lemma CleanedIsDroppedWell(c: Conn)
    requires Inv(c) && !c.state.Connected?
    ensures DroppedWell(Cleaned(c))
  {
    EmitCounts(c, LinkReleased);
    hide Results, Endings, Releases, WasConnected;
  }

  lemma UpdatedKeeps(c: Conn, t: Ticks)
    requires Inv(c)
    ensures Inv(Updated(c, t))
  {
    hide Inv, Step;
    StepKeeps(c, UpdateConnecting(t.connectTimedOut));
    StepKeeps(Step(c, UpdateConnecting(t.connectTimedOut)), UpdateKeepAlive(t.keepAliveDue, t.keepAliveLost));
  }

  lemma UpdateKeeps(n: Node, ticks: map<Endpoint, Ticks>)
    requires NodeInv(n)
    ensures NodeInv(NodeStep(n, Update(ticks)))
  {
    hide Inv, Updated, DroppedWell, Cleaned;
    forall e | e in n.conns ensures Inv(Updated(n.conns[e], TicksOf(ticks, e))) {
      UpdatedKeeps(n.conns[e], TicksOf(ticks, e));
    }
    forall e | e in n.conns && !Stays(n.conns[e]) ensures DroppedWell(Cleaned(n.conns[e])) {
      CleanedIsDroppedWell(n.conns[e]);
    }
  }

  lemma EndedIsDroppedWell(c: Conn, reason: Reason, newState: State, sendMsg: bool)
    requires Inv(c) && !Alive(newState)
    ensures DroppedWell(Cleaned(Disconnecting(c, reason, newState, sendMsg)))
  {
    DisconnectKeeps(c, reason, newState, sendMsg);
    var c' := Disconnecting(c, reason, newState, sendMsg);
    assert !c'.state.Connected? by {
      assert Alive(c.state) ==> c'.state == newState;
    }
    CleanedIsDroppedWell(c');
  }

  lemma DisconnectsKeep(n: Node, ev: NodeEvent)
    requires NodeInv(n) && ProperNode(ev) && (ev.DisconnectOne? || ev.DisconnectAll?)
    ensures NodeInv(NodeStep(n, ev))
  {
    hide Inv, DroppedWell, Cleaned, Disconnecting;
    if ev.DisconnectOne? {
      if ev.e in n.conns {
        DisconnectKeeps(n.conns[ev.e], ev.reason, ev.newState, ev.sendMsg);
        EndedIsDroppedWell(n.conns[ev.e], ev.reason, ev.newState, ev.sendMsg);
      }
    } else {
      forall e | e in n.conns ensures DroppedWell(Cleaned(ClosedHere(n.conns[e]))) {
        EndedIsDroppedWell(n.conns[e], Closed, Disconnected, true);
      }
    }
  }

  lemma NodeStepKeeps(n: Node, ev: NodeEvent)
    requires NodeInv(n) && ProperNode(ev)
    ensures NodeInv(NodeStep(n, ev))
  {
    match ev
    case Connect(_, _, _, fits, interval) =>
      FreshInv(interval);
      StepKeeps(Fresh(interval), SendConnectRequest(fits));
      hide Inv, Step, DroppedWell, Fresh;
    case ConnectPacket(_, _, _, _, interval) =>
      FreshInv(interval);
      StepKeeps(Fresh(interval), SendConnectAccept);
      hide Inv, Step, DroppedWell, Fresh, Judge;
    case Packet(e, call) =>
      hide Inv, Step, DroppedWell;
      if e in n.conns && FromPacket(call) {
        StepKeeps(n.conns[e], call);
      }
    case Update(ticks) => UpdateKeeps(n, ticks);
    case _ => DisconnectsKeep(n, ev);
  }

  lemma {:induction false} NodeRunKeeps(evs: seq<NodeEvent>)
    requires forall ev :: ev in evs ==> ProperNode(ev)
    ensures NodeInv(NodeRun(evs))
  {
    if evs != [] {
      assert evs[|evs| - 1] in evs;
      NodeRunKeeps(evs[..|evs| - 1]);
      hide NodeInv, NodeStep;
      NodeStepKeeps(NodeRun(evs[..|evs| - 1]), evs[|evs| - 1]);
    }
  }

  /** No established connection is ever dropped without its end having been reported, over any
      sequence of connects, packets, updates and disconnects. */
  lemma NoneDroppedUnreported(evs: seq<NodeEvent>)
    requires forall ev :: ev in evs ==> ProperNode(ev)
    ensures forall c :: c in NodeRun(evs).dropped ==> DroppedWell(c)
    ensures forall e :: e in NodeRun(evs).conns ==> Inv(NodeRun(evs).conns[e])
  {
    NodeRunKeeps(evs);
  }

  // ---- connecting

  /** A request that fits, with the right password, from an endpoint not yet known, to a node with
      room, is accepted with exactly the metadata that was sent. */
  lemma RequestIsAccepted(count: nat, max: int, pw: Text, entries: seq<(Text, Text)>, m: map<Text, Text>)
    requires Lists(entries, m) && NulFree(pw) && AllNulFree(Flatten(entries)) && count < max
    requires |pw| + 1 + Total(Flatten(entries)) <= BUFF_SIZE
    ensures var payload := AppendAll([pw] + Flatten(entries), BUFF_SIZE);
            payload.Some? && Judge(false, count, max, pw, payload.value) == Accepted(m)
  {
    RequestRoundTrip(pw, entries, m);
    StrLenFull(pw, []);
    hide AppendAll, Flatten, ReadText, DecodeMap, StrLen;
  }

  /** Nobody gets in with another password, however the request is made up: the request begins
      with it, and it ends there unless it fills the buffer it is read into. */
  lemma AcceptedMeansPassword(known: bool, count: nat, max: int, password: Text, payload: seq<Byte>)
    requires Judge(known, count, max, password, payload).Accepted? && NulFree(password)
    ensures !known && count < max && password < payload
    ensures |password| + 1 < BUFF_RECV_SIZE ==> payload[|password|] == 0
  {
    StrLenFull(password, []);
    TerminatedAt(payload);
    hide DecodeMap;
  }

  lemma {:induction false} TerminatedAt(bs: seq<Byte>)
    ensures StrLen(bs) < |bs| ==> bs[StrLen(bs)] == 0
  {
    if bs != [] && bs[0] != 0 {
      TerminatedAt(bs[1..]);
    }
  }

  // ---- the connection list itself

  /** Where the update loop stands when the entries `todo` are still to come. */
  function Halfway(all: Table, todo: set<Endpoint>, ticks: map<Endpoint, Ticks>): Table {
    map e | e in all && (e in todo || Stays(all[e])) :: if e in todo then all[e] else Updated(all[e], TicksOf(ticks, e))
  }

  ghost function Deleted(all: Table, todo: set<Endpoint>): set<Conn> {
    set e | e in all && e !in todo && !Stays(all[e]) :: Cleaned(all[e])
  }

  lemma HalfwayEnds(all: Table, ticks: map<Endpoint, Ticks>)
    ensures Halfway(all, all.Keys, ticks) == all && Deleted(all, all.Keys) == {}
    ensures Halfway(all, {}, ticks) == UpdateAll(all, ticks)
    ensures Deleted(all, {}) == set e | e in all && !Stays(all[e]) :: Cleaned(all[e])
  {
    hide Step, Updated, Cleaned, Stays;
  }

  lemma HalfwayStep(all: Table, todo: set<Endpoint>, ticks: map<Endpoint, Ticks>, e: Endpoint)
    requires e in todo && todo <= all.Keys
    ensures var now, c := Halfway(all, todo, ticks), all[e];
            && e in now && now[e] == c
            && Halfway(all, todo - {e}, ticks)
                == (if Stays(c) then now[e := Updated(c, TicksOf(ticks, e))] else now - {e})
            && Deleted(all, todo - {e}) == Deleted(all, todo) + if Stays(c) then {} else {Cleaned(c)}
  {
    hide Step, Updated, Cleaned, Stays;
  }

  /** Every string read is free of zero bytes. */
  lemma {:induction false} BeforeNul(s: Text)
    ensures forall k :: 0 <= k < StrLen(s) ==> s[k] != 0
  {
    if s != [] && s[0] != 0 {
      BeforeNul(s[1..]);
      assert forall k :: 1 <= k < StrLen(s) ==> s[k] == s[1..][k - 1];
    }
  }

  /** strcmp on a password and a terminated buffer: byte by byte up to the first zero byte. */
  method SameString(password: Text, buff: array<Byte>, n: nat) returns (same: bool)
    requires 1 <= n <= buff.Length && buff[n - 1] == 0 && forall k :: 0 <= k < n - 1 ==> buff[k] != 0
    ensures same <==> password[..StrLen(password)] == buff[..n - 1]
  {
    var i := 0;
    assert password[0..] == password;
    while i < |password| && password[i] != 0 && i < n - 1 && buff[i] == password[i]
      invariant i <= |password| && i <= n - 1
      invariant StrLen(password) == i + StrLen(password[i..])
      invariant password[..i] == buff[..i]
    {
      i := i + 1;
    }
    same := (i == |password| || password[i] == 0) && buff[i] == 0;
    if same {
      assert StrLen(password) == i == n - 1;
    } else if i < |password| && password[i] != 0 {
      assert StrLen(password) > i;
      assert i < n - 1 ==> password[..StrLen(password)][i] != buff[i];
      assert i < n - 1 && StrLen(password) == n - 1 ==> buff[..n - 1][i] == buff[i];
    }
  }

  class Connections {
    var conns: map<Endpoint, ConnectionObject>
    var criticalError: bool
    ghost var dropped: set<Conn>

    /** No connection stands under two endpoints. */
    ghost predicate Valid()
      reads this
    {
      forall e, e' :: e in conns && e' in conns && e != e' ==> conns[e] != conns[e']
    }

    ghost function Conns(): Table
      reads this, conns.Values
    {
      map e | e in conns :: conns[e].View()
    }

    ghost function View(): Node
      reads this, conns.Values
    {
      Node(Conns(), dropped, criticalError)
    }

    constructor ()
      ensures Valid() && View() == NodeRun([])
    {
      conns, dropped, criticalError := map[], {}, false;
    }

    lemma KeysAgree()
      ensures Conns().Keys == conns.Keys
    {
    }

    /** Files a connection under an endpoint that has none. */
    method File(e: Endpoint, c: ConnectionObject)
      requires Valid() && e !in conns && c !in conns.Values
      modifies this`conns
      ensures Valid() && conns == old(conns)[e := c] && Conns() == old(Conns())[e := c.View()]
    {
      ghost var was := Conns();
      conns := conns[e := c];
      assert Conns() == was[e := c.View()];
    }

    /** Deletes a connection, whose destructor lets go of its link, and erases its entry. */
    method Delete(e: Endpoint)
      requires Valid() && e in conns
      modifies this`conns, this`dropped, conns[e]
      ensures Valid() && conns == old(conns) - {e} && Conns() == old(Conns()) - {e}
      ensures dropped == old(dropped) + {Cleaned(old(Conns())[e])}
    {
      ghost var was := Conns();
      hide Cleaned;
      conns[e].CleanLink();
      dropped := dropped + {conns[e].View()};
      conns := conns - {e};
      assert Conns() == was - {e};
    }

    /** Makes a connection of its own, and asks for it to be accepted. */
    method ConnectTo(e: Endpoint, linkFree: bool, sendRequest: bool, fits: bool, interval: int) returns (made: bool)
      requires Valid()
      modifies this
      ensures Valid() && View() == NodeStep(old(View()), NodeEvent.Connect(e, linkFree, sendRequest, fits, interval))
      ensures made <==> e !in old(conns) && linkFree
    {
      hide Step, Fresh;
      if e in conns || !linkFree {
        return false;
      }
      var c := new ConnectionObject(interval);
      FreshIsIdle(interval);
      if sendRequest {
        var _ := c.SendConnectRequest(fits);
      }
      File(e, c);
      made := true;
    }

    /** A packet other than a connect request calls one method of its connection. */
    method RecvPacket(e: Endpoint, ev: Event)
      requires Valid() && FromPacket(ev)
      modifies conns.Values
      ensures Valid() && View() == NodeStep(old(View()), NodeEvent.Packet(e, ev))
    {
      if e !in conns {
        return;
      }
      hide Step;
      ghost var was := Conns();
      Dispatch(conns[e], ev);
      assert Conns() == was[e := Step(was[e], ev)];
    }

    /** Deletes or updates one entry on the way through the list. */
    method UpdateOne(e: Endpoint, t: Ticks)
      requires Valid() && e in conns
      modifies this`conns, this`dropped, conns[e]
      ensures Valid() && conns == if Stays(old(Conns())[e]) then old(conns) else old(conns) - {e}
      ensures var was := old(Conns());
              Conns() == if Stays(was[e]) then was[e := Updated(was[e], t)] else was - {e}
      ensures dropped == old(dropped) + if Stays(old(Conns())[e]) then {} else {Cleaned(old(Conns())[e])}
    {
      ghost var was := Conns();
      hide Updated, Cleaned, Step;
      if !Stays(conns[e].View()) {
        Delete(e);
      } else {
        Tick(conns[e], t);
        assert Conns() == was[e := Updated(was[e], t)];
      }
    }

    /** Goes over the list once: what has ended is deleted and erased on the way, what lives is
        updated. */
    method Update(ticks: map<Endpoint, Ticks>)
      requires Valid()
      modifies this, conns.Values
      ensures Valid() && View() == NodeStep(old(View()), NodeEvent.Update(ticks))
    {
      hide Updated, Cleaned, Stays, Halfway, Deleted, NodeStep, Conns;
      ghost var all, gone := Conns(), dropped;
      UpdateIs(View(), ticks);
      KeysAgree();
      if criticalError {
        return;
      }
      var todo := conns.Keys;
      assert todo == all.Keys;
      while todo != {}
        invariant Valid() && todo <= conns.Keys && todo <= all.Keys && criticalError == old(criticalError)
        invariant conns.Values <= old(conns.Values) && Conns().Keys == conns.Keys
        invariant Conns() == Halfway(all, todo, ticks) && dropped == gone + Deleted(all, todo)
        decreases todo
      {
        var e :| e in todo;
        HalfwayStep(all, todo, ticks, e);
        UpdateOne(e, TicksOf(ticks, e));
        todo := todo - {e};
      }
    }

    /** Says goodbye on one connection and deletes it; its entry goes when all are done. */
    method CloseOne(e: Endpoint)
      requires Valid() && e in conns
      modifies this`dropped, conns[e]
      ensures Valid() && Conns() == old(Conns())[e := Cleaned(ClosedHere(old(Conns())[e]))]
      ensures dropped == old(dropped) + {Cleaned(ClosedHere(old(Conns())[e]))}
    {
      ghost var was := Conns();
      hide ClosedHere, Cleaned;
      CloseAndDelete(conns[e]);
      dropped := dropped + {conns[e].View()};
      assert Conns() == was[e := Cleaned(ClosedHere(was[e]))];
    }

    /** Says goodbye on every connection, deletes them all and clears the list. */
    method DisconnectEveryone()
      requires Valid()
      modifies this, conns.Values
      ensures Valid() && View() == NodeStep(old(View()), DisconnectAll)
    {
      hide ClosedHere, Cleaned, NodeStep, AllClosed, Conns;
      ghost var all, gone := Conns(), dropped;
      DisconnectAllIs(View());
      KeysAgree();
      var todo := conns.Keys;
      while todo != {}
        invariant Valid() && conns == old(conns) && criticalError == old(criticalError)
        invariant todo <= all.Keys == Conns().Keys
        invariant forall e :: e in todo ==> Conns()[e] == all[e]
        invariant dropped == gone + AllClosed(all, todo)
        decreases todo
      {
        var e :| e in todo;
        ClosedNext(all, todo, e);
        CloseOne(e);
        todo := todo - {e};
      }
      conns := map[];
      KeysAgree();
      assert Conns() == map[];
    }

    /** Disconnects one endpoint; answers whether it was connected, or nothing if it is not known. */
    method DisconnectFrom(e: Endpoint, reason: Reason, newState: State, sendMsg: bool, remove: bool)
      returns (wasConnected: Option<bool>)
      requires Valid()
      modifies this, conns.Values
      ensures Valid() && View() == NodeStep(old(View()), DisconnectOne(e, reason, newState, sendMsg, remove))
      ensures wasConnected == if e in old(conns) then Some(old(conns[e].state).Connected?) else None
    {
      ghost var was := Conns();
      DisconnectOneIs(View(), e, reason, newState, sendMsg, remove);
      hide Disconnecting, Cleaned, NodeStep, Step;
      if e !in conns {
        return None;
      }
      wasConnected := Some(conns[e].state.Connected?);
      CallIsDisconnecting(was[e], reason, newState, sendMsg);
      conns[e].Disconnect(reason, newState, sendMsg);
      assert Conns() == was[e := Disconnecting(was[e], reason, newState, sendMsg)];
      if remove {
        Delete(e);
        assert was[e := Disconnecting(was[e], reason, newState, sendMsg)] - {e} == was - {e};
      }
    }

    /** Makes a connection that is established at once. */
    method Accept(e: Endpoint, interval: int)
      requires Valid() && e !in conns
      modifies this`conns
      ensures Valid() && Conns() == old(Conns())[e := Step(Fresh(interval), SendConnectAccept)]
    {
      hide Step, Fresh;
      var c := new ConnectionObject(interval);
      FreshIsIdle(interval);
      c.SendConnectAccept();
      File(e, c);
    }

    method Fail()
      requires Valid()
      modifies this`criticalError
      ensures Valid() && criticalError && Conns() == old(Conns())
    {
      criticalError := true;
    }

    /** An accepted request makes a connection that is established at once; a malformed one is a
        critical error; any other is only answered. */
    method RecvConnectPacket(e: Endpoint, max: int, password: Text, payload: seq<Byte>, interval: int)
      returns (verdict: Verdict)
      requires Valid()
      modifies this
      ensures Valid() && verdict == Judge(e in old(conns), |old(conns)|, max, password, payload)
      ensures View() == NodeStep(old(View()), ConnectPacket(e, max, password, payload, interval))
    {
      hide Step, Fresh, Judge, NodeStep, Conns;
      ConnectPacketIs(View(), e, max, password, payload, interval);
      KeysAgree();
      SameSize(conns, Conns());
      verdict := Examine(e in conns, |conns|, max, password, payload);
      if verdict.Malformed? {
        Fail();
      } else if verdict.Accepted? {
        AcceptedIsNew(e in conns, |conns|, max, password, payload);
        Accept(e, interval);
      }
    }
  }

  lemma AcceptedIsNew(known: bool, count: nat, max: int, password: Text, payload: seq<Byte>)
    ensures Judge(known, count, max, password, payload).Accepted? ==> !known
  {
  }

  /** Judges a connect request step by step: known endpoint, password, room, metadata. */
  method Examine(known: bool, count: nat, max: int, password: Text, payload: seq<Byte>) returns (verdict: Verdict)
    ensures verdict == Judge(known, count, max, password, payload)
  {
    hide DecodeMap, ReadText, StrLen;
    if known {
      return AlreadyConnected;
    }
    var same, readBytes := CheckPassword(password, payload);
    if !same {
      return IncorrectPassword;
    }
    if count >= max {
      return TooManyConnections;
    }
    var metaData := DeserializeMap(payload, readBytes);
    verdict := if metaData.Some? then Accepted(metaData.value) else Malformed;
  }

  lemma SameSize<A, B>(m: map<Endpoint, A>, m': map<Endpoint, B>)
    requires m.Keys == m'.Keys
    ensures |m| == |m'|
  {
  }

  /** Reads the password off the request and compares it, as C strings are compared. */
  method CheckPassword(password: Text, payload: seq<Byte>) returns (same: bool, readBytes: nat)
    ensures same <==> ReadText(payload) == password[..StrLen(password)]
    ensures readBytes == |ReadText(payload)| + 1
  {
    hide ReadText, StrLen;
    var pw := new Byte[BUFF_RECV_SIZE];
    readBytes := ReadString(pw, payload);
    ReadIsTerminated(pw[..readBytes], payload);
    assert forall k :: 0 <= k < readBytes ==> pw[k] == pw[..readBytes][k];
    same := SameString(password, pw, readBytes);
    assert pw[..readBytes - 1] == pw[..readBytes][..readBytes - 1] == ReadText(payload);
  }

  // ---- the events of a node, one by one

  lemma UpdateIs(n: Node, ticks: map<Endpoint, Ticks>)
    ensures NodeStep(n, NodeEvent.Update(ticks)) ==
            if n.criticalError then n else Node(Halfway(n.conns, {}, ticks), n.dropped + Deleted(n.conns, {}), false)
    ensures Halfway(n.conns, n.conns.Keys, ticks) == n.conns && Deleted(n.conns, n.conns.Keys) == {}
  {
    HalfwayEnds(n.conns, ticks);
    hide Halfway, Deleted, UpdateAll, Cleaned, Stays;
  }

  /** The connections no longer to come in a round of goodbyes. */
  ghost function AllClosed(all: Table, todo: set<Endpoint>): set<Conn> {
    set e | e in all && e !in todo :: Cleaned(ClosedHere(all[e]))
  }

  lemma ClosedNext(all: Table, todo: set<Endpoint>, e: Endpoint)
    requires e in todo && todo <= all.Keys
    ensures AllClosed(all, todo - {e}) == AllClosed(all, todo) + {Cleaned(ClosedHere(all[e]))}
  {
    hide Cleaned, ClosedHere;
  }

  lemma DisconnectAllIs(n: Node)
    ensures NodeStep(n, DisconnectAll) == Node(map[], n.dropped + AllClosed(n.conns, {}), n.criticalError)
    ensures AllClosed(n.conns, n.conns.Keys) == {}
  {
    hide Cleaned, ClosedHere;
  }

  lemma DisconnectOneIs(n: Node, e: Endpoint, reason: Reason, newState: State, sendMsg: bool, remove: bool)
    ensures NodeStep(n, DisconnectOne(e, reason, newState, sendMsg, remove)) ==
            if e !in n.conns then n
            else
              var c := Disconnecting(n.conns[e], reason, newState, sendMsg);
              if remove then n.(conns := n.conns - {e}, dropped := n.dropped + {Cleaned(c)})
              else n.(conns := n.conns[e := c])
  {
    hide Cleaned, Disconnecting;
  }

  lemma CallIsDisconnecting(c: Conn, reason: Reason, newState: State, sendMsg: bool)
    ensures Step(c, CallDisconnect(reason, newState, sendMsg)) == Disconnecting(c, reason, newState, sendMsg)
  {
  }

  lemma ConnectPacketIs(n: Node, e: Endpoint, max: int, password: Text, payload: seq<Byte>, interval: int)
    ensures var v := Judge(e in n.conns, |n.conns|, max, password, payload);
            NodeStep(n, ConnectPacket(e, max, password, payload, interval)) ==
            if v.Accepted? then n.(conns := n.conns[e := Step(Fresh(interval), SendConnectAccept)])
            else n.(criticalError := n.criticalError || v.Malformed?)
  {
    hide Judge, Step, Fresh;
  }

  lemma FreshIsIdle(interval: int)
    ensures Fresh(interval).state == Idle
  {
  }

  lemma ReadIsTerminated(read: seq<Byte>, payload: seq<Byte>)
    requires read == ReadText(payload) + [0]
    ensures read[|read| - 1] == 0 && forall k :: 0 <= k < |read| - 1 ==> read[k] != 0
  {
    BeforeNul(payload);
  }

  method Dispatch(c: ConnectionObject, ev: Event)
    requires FromPacket(ev)
    modifies c
    ensures c.View() == Step(old(c.View()), ev)
  {
    match ev
    case ReceiveConnectAccept => c.OnReceiveConnectAccept();
    case ReceiveDisconnect => c.OnReceiveDisconnect();
    case ReceiveKeepAliveRequest => c.OnReceiveKeepAliveRequest();
    case ReceiveKeepAliveAnswer => c.OnReceiveKeepAliveAnswer();
    case ReceiveIncorrectPassword => c.Refuse(InvalidPassword, PasswordRefused);
    case ReceiveMaxConnections => c.Refuse(MaxConnectionsReached, NoRoom);
    case ReceiveAlreadyConnected => c.Refuse(InvalidConnectPacket, PacketRefused);
    case _ =>
  }

  method Tick(c: ConnectionObject, t: Ticks)
    modifies c
    ensures c.View() == Updated(old(c.View()), t)
  {
    c.DoUpdateConnecting(t.connectTimedOut);
    c.DoUpdateKeepAlive(t.keepAliveDue, t.keepAliveLost);
  }

  /** Disconnects and destroys: the destructor lets the link go if that has not happened yet. */
  method CloseAndDelete(c: ConnectionObject)
    modifies c
    ensures c.View() == Cleaned(ClosedHere(old(c.View())))
  {
    c.Disconnect(Closed, Disconnected, true);
    c.CleanLink();
  }
}
