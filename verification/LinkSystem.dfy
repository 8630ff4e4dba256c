/** Two links facing each other over a network of bytes: eight channels each way, reliable and
    unreliable traffic mixed, datagrams lost, repeated and reordered. Seen from any one channel,
    such a run is a run of that channel alone, so what holds of a channel holds of the link. */
module LinkSystem {
  import opened Seq32
  import opened Packets
  import opened Serialization
  import opened Reassembly
  import opened Numbering
  import opened Channel
  import opened Wire
  import opened Link
  import opened OrderedTheorems
  import OL = OrderedLink
  import OrderedRefinement
  import Unreliable

  /** What went over the channels of one kind, channel by channel: the packets sent and polled, the
      ticket of each packet sent, and how many numbers were issued. */
  datatype Log = Log(sent: seq<seq<Packet>>, tickets: seq<seq<Ticket>>, polled: seq<seq<Packet>>, issued: seq<nat>)

  /** One direction: the datagrams and ack datagrams ever put on the network, and what was sent
      reliably and unreliably. */
  datatype Flow = Flow(wire: set<seq<Byte>>, back: set<seq<Byte>>, reliable: Log, unreliable: Log)

  /** The near end sends on `out` and acks on `back` of the far end's flow, and the other way round. */
  datatype Pair = Pair(near: seq<Chan>, far: seq<Chan>, out: Flow, home: Flow)

  datatype Event =
    | Send(p: Packet, size: nat, channel: nat, reliable: bool)
    | Retransmit
    | Arrive(w: seq<Byte>)                           // at the far end
    | Poll(got: Option<Link.Polled>, far': seq<Chan>)     // at the far end
    | DispatchAcks                                   // at the far end
    | AcksArrive(w: seq<Byte>)                       // at the near end

  function Elems<T>(s: seq<T>): set<T> {
    set x | x in s
  }

  function Each<T>(x: T): (s: seq<T>)
    ensures |s| == NUM_CHANNELS
  {
    seq(NUM_CHANNELS, _ => x)
  }

  function Fresh(): seq<Chan> {
    Each(Chan(OL.INIT.snd, OL.INIT.rcv, 0, Unreliable.INIT.rcv))
  }

  const NOTHING: Log := Log(Each([]), Each([]), Each([]), Each(0))

  const EMPTY: Flow := Flow({}, {}, NOTHING, NOTHING)

  ghost predicate IsLog(l: Log) {
    |l.sent| == |l.tickets| == |l.polled| == |l.issued| == NUM_CHANNELS
  }

  ghost predicate WellSized(s: Pair) {
    && |s.near| == |s.far| == NUM_CHANNELS
    && IsLog(s.out.reliable) && IsLog(s.out.unreliable) && IsLog(s.home.reliable) && IsLog(s.home.unreliable)
  }

  /** A packet is sent as n fragments from number `next` on. */
  function Sending(l: Log, c: nat, p: Packet, next: u32, n: nat): Log
    requires |l.sent| == |l.tickets| == |l.polled| == |l.issued| == NUM_CHANNELS && c < NUM_CHANNELS
  {
    l.(sent := l.sent[c := l.sent[c] + [p]], tickets := l.tickets[c := l.tickets[c] + [Ticket(next, n)]],
       issued := l.issued[c := l.issued[c] + n])
  }

  function Polling(l: Log, c: nat, p: Packet): Log
    requires |l.polled| == NUM_CHANNELS
  {
    if c < NUM_CHANNELS then l.(polled := l.polled[c := l.polled[c] + [p]]) else l
  }

  function Polled(f: Flow, got: Option<Link.Polled>): Flow
    requires |f.reliable.polled| == |f.unreliable.polled| == NUM_CHANNELS
  {
    match got
    case Some(Ordered(c, p)) => f.(reliable := Polling(f.reliable, c, p))
    case Some(Sequenced(c, p)) => f.(unreliable := Polling(f.unreliable, c, p))
    case _ => f
  }

  /** What one end's calls do, as the contracts of RUDPLink's methods state it. */
  ghost function Step(linkId: u32, s: Pair, ev: Event): (s': Pair)
    requires WellSized(s)
    ensures WellSized(s')
  {
    match ev
    case Send(p, size, c, reliable) =>
      if size == 0 || c >= NUM_CHANNELS then s else SendStep(linkId, s, Fragments(p, size), p, c, reliable)
    case Retransmit => s.(out := s.out.(wire := s.out.wire + Elems(AllQueued(linkId, s.near, NUM_CHANNELS))))
    case Arrive(w) => if w in s.out.wire then s.(far := Received(s.far, w)) else s
    case Poll(got, far') =>
      if |far'| == NUM_CHANNELS && exists u, u' :: PollOutcome(s.far, u, got, far', u') then
        s.(far := far', out := Polled(s.out, got))
      else s
    case DispatchAcks =>
      s.(far := WithoutAcks(s.far, NUM_CHANNELS),
         out := s.out.(back := s.out.back + Elems(AckDatagrams(linkId, s.far, NUM_CHANNELS))))
    case AcksArrive(w) => if w in s.out.back then s.(near := Received(s.near, w)) else s
  }

  ghost function SendStep(linkId: u32, s: Pair, fs: seq<Fragment>, p: Packet, c: nat, reliable: bool): (s': Pair)
    requires WellSized(s) && c < NUM_CHANNELS
    ensures WellSized(s')
  {
    var me := s.near[c];
    if reliable then
      var ds := Stamp(me.snd.next, fs);
      s.(near := s.near[c := me.(snd := Enqueue(me.snd, fs))],
         out := s.out.(wire := s.out.wire + Elems(Encoded(linkId, RELIABLE_ORDERED, c, ds)),
                       reliable := Sending(s.out.reliable, c, p, me.snd.next, |fs|)))
    else
      var ds := Stamp(me.sendSeqUnreliable, fs);
      s.(near := s.near[c := me.(sendSeqUnreliable := Fwd(me.sendSeqUnreliable, |fs|))],
         out := s.out.(wire := s.out.wire + Elems(Encoded(linkId, UNRELIABLE_SEQUENCED, c, ds)),
                       unreliable := Sending(s.out.unreliable, c, p, me.sendSeqUnreliable, |fs|)))
  }

  function Flip(s: Pair): Pair {
    Pair(s.far, s.near, s.home, s.out)
  }

  /** A run: each event happens in one direction or the other. */
  ghost function Run(linkId: u32, evs: seq<(bool, Event)>): (s: Pair)
    ensures WellSized(s)
  {
    if evs == [] then Pair(Fresh(), Fresh(), EMPTY, EMPTY)
    else
      var s, (onward, ev) := Run(linkId, evs[..|evs| - 1]), evs[|evs| - 1];
      if onward then Step(linkId, s, ev) else Flip(Step(linkId, Flip(s), ev))
  }

  // ---- one channel of it

  /** Histories: for each channel, the events it saw. */
  type Hist = h: seq<seq<OL.Event>> | |h| == NUM_CHANNELS witness seq(NUM_CHANNELS, _ => [])

  /** The sending half of channel c and the receiving half opposite are where the channel's own
      run puts them. */
  ghost predicate Projects(s: Pair, h: Hist, c: nat)
    requires WellSized(s) && c < NUM_CHANNELS
  {
    var k, log := OL.Run(h[c]), s.out.reliable;
    && k.hand.Idle?
    && k.snd == s.near[c].snd && k.rcv == s.far[c].rcv
    && k.sent == log.sent[c] && k.polled == log.polled[c]
    && Total(k.em) == log.issued[c] && Ticketed(k.em, log.tickets[c])
  }

  /** Each ticket holds the first number and the fragment count of its packet. */
  ghost predicate Ticketed(em: Emission, tickets: seq<Ticket>) {
    && |tickets| == |em|
    && forall m :: 0 <= m < |em| ==>
         |em[m]| >= 1 && tickets[m] == Ticket(em[m][0].seqNo, |em[m]|)
  }

  /** A datagram on the network is unreliable, or a fragment its channel emitted. */
  ghost predicate Carried(linkId: u32, h: Hist, w: seq<Byte>) {
    || (IsNormal(w) && w[4] == UNRELIABLE_SEQUENCED)
    || exists c, f :: 0 <= c < NUM_CHANNELS && IsFragment(linkId, OL.Run(h[c]).em, c, f, w)
  }

  ghost predicate IsFragment(linkId: u32, em: Emission, c: nat, f: FragId, w: seq<Byte>)
    requires c < NUM_CHANNELS
  {
    Issued(em, f) && w == EncodeNormal(linkId, RELIABLE_ORDERED, c, At(em, f))
  }

  /** An ack datagram is one its channel dispatched. */
  ghost predicate Acked(linkId: u32, h: Hist, w: seq<Byte>) {
    exists c, ids :: 0 <= c < NUM_CHANNELS && IsAckOf(linkId, OL.Run(h[c]), c, ids, w)
  }

  ghost predicate IsAckOf(linkId: u32, k: OL.Sys, c: nat, ids: seq<FragId>, w: seq<Byte>)
    requires c < NUM_CHANNELS
  {
    && ids in k.ackNet && |ids| <= OL.MAX_ACKS && (forall f :: f in ids ==> Issued(k.em, f))
    && w == EncodeAcks(linkId, c, OL.KeysOf(k.em, ids))
  }

  ghost predicate Inv(linkId: u32, s: Pair, h: Hist) {
    && WellSized(s)
    && (forall c :: 0 <= c < NUM_CHANNELS ==> Projects(s, h, c))
    && (forall w :: w in s.out.wire ==> Carried(linkId, h, w))
    && (forall w :: w in s.out.back ==> Acked(linkId, h, w))
  }

  // ---- what every run of a channel keeps, however far it wraps

  ghost predicate Traced(k: OL.Sys) {
    && (forall d :: d in k.snd.queue ==> Emitted(k.em, d))
    && |k.rcv.acks| == |k.ackIds|
    && (forall i :: 0 <= i < |k.ackIds| ==> Issued(k.em, k.ackIds[i]) && k.rcv.acks[i] == Key(k.em, k.ackIds[i]))
  }

  ghost predicate Emitted(em: Emission, d: Datagram) {
    exists f :: Issued(em, f) && At(em, f) == d
  }

  lemma EmittedAppend(em: Emission, ds: seq<Datagram>, d: Datagram)
    requires Emitted(em, d) || d in ds
    ensures Emitted(em + [ds], d)
  {
    if Emitted(em, d) {
      var f :| Issued(em, f) && At(em, f) == d;
      assert Issued(em + [ds], f) && At(em + [ds], f) == d;
    } else {
      var i :| 0 <= i < |ds| && ds[i] == d;
      assert Issued(em + [ds], FragId(|em|, i));
    }
  }

  lemma {:induction false} RemovedFrom(q: seq<Datagram>, n: u32, d: Datagram)
    requires d in RemoveFirst(q, n)
    ensures d in q
  {
    if q != [] && q[0].seqNo != n && d != q[0] {
      RemovedFrom(q[1..], n, d);
    }
  }

  lemma {:induction false} AllRemovedFrom(q: seq<Datagram>, acks: seq<u32>, d: Datagram)
    requires d in RemoveAll(q, acks)
    ensures d in q
    decreases |acks|
  {
    if acks != [] {
      AllRemovedFrom(RemoveFirst(q, acks[0]), acks[1..], d);
      RemovedFrom(q, acks[0], d);
    }
  }

  lemma TracedSend(k: OL.Sys, p: Packet, size: nat)
    requires Traced(k) && size > 0
    ensures Traced(OL.Step(k, OL.Send(p, size)))
  {
    var ds := Stamp(k.snd.next, Fragments(p, size));
    hide Stamp, Fragments, Emitted;
    forall d | d in k.snd.queue + ds ensures Emitted(k.em + [ds], d) {
      EmittedAppend(k.em, ds, d);
    }
  }

  lemma TracedStep(k: OL.Sys, ev: OL.Event)
    requires Traced(k)
    ensures Traced(OL.Step(k, ev))
  {
    hide Emitted, Channel.Insert, IsSequenceNewer, Stamp, Fragments;
    match ev
    case Send(p, size) =>
      if size > 0 {
        TracedSend(k, p, size);
      }
    case AcksArrive(ids) =>
      if ids in k.ackNet && forall f :: f in ids ==> Issued(k.em, f) {
        var acks := OL.KeysOf(k.em, ids);
        forall d | d in RemoveAll(k.snd.queue, acks) ensures Emitted(k.em, d) {
          AllRemovedFrom(k.snd.queue, acks, d);
        }
      }
    case Insert =>
      if k.hand.Passed? {
        InsertKeepsAcks(k.rcv, k.hand.d);
      }
    case _ =>
  }

  lemma InsertKeepsAcks(r: Receiver, d: Datagram)
    ensures Channel.Insert(r, d).acks == r.acks
  {
  }

  lemma {:induction false} RunTraced(evs: seq<OL.Event>)
    ensures Traced(OL.Run(evs))
  {
    if evs != [] {
      RunTraced(evs[..|evs| - 1]);
      TracedStep(OL.Run(evs[..|evs| - 1]), evs[|evs| - 1]);
    }
  }

  // ---- histories only grow

  ghost predicate Grows(k: OL.Sys, k': OL.Sys) {
    && k.em <= k'.em && k.ackNet <= k'.ackNet
  }

  lemma StepGrows(k: OL.Sys, ev: OL.Event)
    ensures Grows(k, OL.Step(k, ev))
  {
    hide Channel.Insert, IsSequenceNewer, Stamp, Fragments;
  }

  ghost predicate HistGrows(h: Hist, h': Hist) {
    forall c :: 0 <= c < NUM_CHANNELS ==> Grows(OL.Run(h[c]), OL.Run(h'[c]))
  }

  lemma CarriedGrows(linkId: u32, h: Hist, h': Hist, w: seq<Byte>)
    requires HistGrows(h, h') && Carried(linkId, h, w)
    ensures Carried(linkId, h', w)
  {
    hide OL.Run, EncodeNormal;
    if !(IsNormal(w) && w[4] == UNRELIABLE_SEQUENCED) {
      var c, f :| 0 <= c < NUM_CHANNELS && IsFragment(linkId, OL.Run(h[c]).em, c, f, w);
      assert Grows(OL.Run(h[c]), OL.Run(h'[c]));
      assert IsFragment(linkId, OL.Run(h'[c]).em, c, f, w);
    }
  }

  lemma KeysGrow(em: Emission, em': Emission, ids: seq<FragId>)
    requires em <= em' && forall f :: f in ids ==> Issued(em, f)
    ensures forall f :: f in ids ==> Issued(em', f)
    ensures OL.KeysOf(em', ids) == OL.KeysOf(em, ids)
  {
    forall f | f in ids ensures Issued(em', f) && Key(em', f) == Key(em, f) {
    }
  }

  lemma AckedGrows(linkId: u32, h: Hist, h': Hist, w: seq<Byte>)
    requires HistGrows(h, h') && Acked(linkId, h, w)
    ensures Acked(linkId, h', w)
  {
    hide OL.Run, EncodeAcks;
    var c, ids :| 0 <= c < NUM_CHANNELS && IsAckOf(linkId, OL.Run(h[c]), c, ids, w);
    var k, k' := OL.Run(h[c]), OL.Run(h'[c]);
    assert Grows(k, k');
    KeysGrow(k.em, k'.em, ids);
    assert IsAckOf(linkId, k', c, ids, w);
  }

  /** Both sets of datagrams stay accounted for, and new ones may join. */
  lemma TrafficGrows(linkId: u32, s: Pair, h: Hist, h': Hist, wire: set<seq<Byte>>, back: set<seq<Byte>>)
    requires Inv(linkId, s, h) && HistGrows(h, h')
    requires forall w :: w in wire ==> w in s.out.wire || Carried(linkId, h', w)
    requires forall w :: w in back ==> w in s.out.back || Acked(linkId, h', w)
    ensures forall w :: w in wire ==> Carried(linkId, h', w)
    ensures forall w :: w in back ==> Acked(linkId, h', w)
  {
    hide Carried, Acked, HistGrows, Projects;
    forall w | w in wire ensures Carried(linkId, h', w) {
      if w in s.out.wire {
        CarriedGrows(linkId, h, h', w);
      }
    }
    forall w | w in back ensures Acked(linkId, h', w) {
      if w in s.out.back {
        AckedGrows(linkId, h, h', w);
      }
    }
  }

  /** One more event on one channel. */
  function Add(h: Hist, c: nat, ev: OL.Event): Hist
    requires c < NUM_CHANNELS
  {
    h[c := h[c] + [ev]]
  }

  lemma AddGrows(h: Hist, c: nat, ev: OL.Event)
    requires c < NUM_CHANNELS
    ensures HistGrows(h, Add(h, c, ev))
    ensures OL.Run(Add(h, c, ev)[c]) == OL.Step(OL.Run(h[c]), ev)
  {
    OL.RunSnoc(h[c], ev);
    StepGrows(OL.Run(h[c]), ev);
    hide OL.Run, OL.Step;
  }

  lemma GrowsTrans(h: Hist, h': Hist, h'': Hist)
    requires HistGrows(h, h') && HistGrows(h', h'')
    ensures HistGrows(h, h'')
  {
    hide OL.Run;
    forall c | 0 <= c < NUM_CHANNELS ensures Grows(OL.Run(h[c]), OL.Run(h''[c])) {
      assert Grows(OL.Run(h[c]), OL.Run(h'[c])) && Grows(OL.Run(h'[c]), OL.Run(h''[c]));
    }
  }

  /** The same was sent and the same was polled. */
  ghost predicate Alike(k: OL.Sys, k': OL.Sys) {
    k.em == k'.em && k.polled == k'.polled
  }

  /** A longer history, in which nothing was sent or polled and undone again on the way. */
  ghost predicate Continues(evs: seq<OL.Event>, evs': seq<OL.Event>) {
    && evs <= evs'
    && forall k :: |evs| <= k <= |evs'| ==>
         Alike(OL.Run(evs'[..k]), OL.Run(evs)) || Alike(OL.Run(evs'[..k]), OL.Run(evs'))
  }

  ghost predicate HistContinues(h: Hist, h': Hist) {
    forall c :: 0 <= c < NUM_CHANNELS ==> Continues(h[c], h'[c])
  }

  lemma OneContinues(evs: seq<OL.Event>, ev: OL.Event)
    ensures Continues(evs, evs) && Continues(evs, evs + [ev])
  {
    hide OL.Run;
    forall k | |evs| <= k <= |evs + [ev]| ensures (evs + [ev])[..k] == if k == |evs| then evs else evs + [ev] {
    }
    assert evs[..|evs|] == evs;
  }

  lemma AddContinues(h: Hist, c: nat, ev: OL.Event)
    requires c < NUM_CHANNELS
    ensures HistContinues(h, h) && HistContinues(h, Add(h, c, ev)) && HistContinues(h, AllDispatch(h))
  {
    hide Continues;
    forall b | 0 <= b < NUM_CHANNELS
      ensures Continues(h[b], h[b]) && Continues(h[b], h[b] + [ev]) && Continues(h[b], h[b] + [OL.DispatchAcks])
    {
      OneContinues(h[b], ev);
      OneContinues(h[b], OL.DispatchAcks);
    }
  }

  lemma NothingSentOrPolled(k: OL.Sys, ev: OL.Event)
    requires ev.Arrive? || ev.Test? || ev.Insert?
    ensures Alike(OL.Step(k, ev), k)
  {
    hide Channel.Insert, IsSequenceNewer, AddAck;
  }

  /** Receiving in three steps. */
  lemma ThreeContinue(e: seq<OL.Event>, f: FragId)
    ensures Continues(e, e + [OL.Arrive(f)] + [OL.Test] + [OL.Insert])
  {
    var e1 := e + [OL.Arrive(f)];
    var e2 := e1 + [OL.Test];
    var e3 := e2 + [OL.Insert];
    OL.RunSnoc(e, OL.Arrive(f));
    OL.RunSnoc(e1, OL.Test);
    OL.RunSnoc(e2, OL.Insert);
    NothingSentOrPolled(OL.Run(e), OL.Arrive(f));
    NothingSentOrPolled(OL.Run(e1), OL.Test);
    NothingSentOrPolled(OL.Run(e2), OL.Insert);
    hide OL.Run, OL.Step;
    forall k | |e| <= k <= |e3| ensures Alike(OL.Run(e3[..k]), OL.Run(e)) {
      ThreePrefixes(e, OL.Arrive(f), OL.Test, OL.Insert, k);
    }
  }

  lemma ThreePrefixes(e: seq<OL.Event>, a: OL.Event, b: OL.Event, c: OL.Event, k: nat)
    requires |e| <= k <= |e| + 3
    ensures (e + [a] + [b] + [c])[..k] ==
            if k == |e| then e else if k == |e| + 1 then e + [a] else if k == |e| + 2 then e + [a] + [b]
            else e + [a] + [b] + [c]
  {
  }

  lemma ReceiveContinues(h: Hist, c: nat, f: FragId)
    requires c < NUM_CHANNELS
    ensures HistContinues(h, Add(Add(Add(h, c, OL.Arrive(f)), c, OL.Test), c, OL.Insert))
  {
    ThreeContinue(h[c], f);
    AddContinues(h, c, OL.Test);
    hide Continues;
  }

  // ---- the events one by one

  lemma SendProjects(linkId: u32, s: Pair, h: Hist, p: Packet, size: nat, c: nat) returns (h': Hist)
    requires Inv(linkId, s, h) && size > 0 && c < NUM_CHANNELS
    ensures Inv(linkId, Step(linkId, s, Send(p, size, c, true)), h') && HistContinues(h, h')
  {
    h' := Add(h, c, OL.Send(p, size));
    AddContinues(h, c, OL.Send(p, size));
    var k, s' := OL.Run(h[c]), Step(linkId, s, Send(p, size, c, true));
    var ds := Stamp(k.snd.next, Fragments(p, size));
    assert Projects(s, h, c);
    AddGrows(h, c, OL.Send(p, size));
    SentAreCarried(linkId, h', c, k.em, ds);
    SendAt(linkId, s, h, p, size, c);
    hide OL.Run, OL.Step, Carried, Acked, HistGrows, HistContinues, Projects, Stamp, Fragments, Encoded;
    TrafficGrows(linkId, s, h, h', s'.out.wire, s'.out.back);
  }

  lemma SendHere(linkId: u32, s: Pair, h: Hist, p: Packet, size: nat, c: nat)
    requires WellSized(s) && size > 0 && c < NUM_CHANNELS && Projects(s, h, c)
    ensures Projects(Step(linkId, s, Send(p, size, c, true)), Add(h, c, OL.Send(p, size)), c)
  {
    var k := OL.Run(h[c]);
    hide OL.Run, HistGrows, Ticketed, OL.Step, Step, Add;
    AddGrows(h, c, OL.Send(p, size));
    ChannelSends(k, p, size);
    LinkSends(linkId, s, p, size, c);
    MoreTickets(k.em, s.out.reliable.tickets[c], k.snd.next, Fragments(p, size));
    hide Stamp, Fragments, Enqueue;
  }

  lemma ChannelSends(k: OL.Sys, p: Packet, size: nat)
    requires size > 0
    ensures var k', fs := OL.Step(k, OL.Send(p, size)), Fragments(p, size);
            && k'.hand == k.hand && k'.snd == Enqueue(k.snd, fs) && k'.rcv == k.rcv && k'.polled == k.polled
            && k'.sent == k.sent + [p] && k'.em == k.em + [Stamp(k.snd.next, fs)]
            && Total(k'.em) == Total(k.em) + |fs|
  {
    StartAppend(k.em, Stamp(k.snd.next, Fragments(p, size)), |k.em|);
    hide Fragments, Enqueue, Stamp;
  }

  lemma LinkSends(linkId: u32, s: Pair, p: Packet, size: nat, c: nat)
    requires WellSized(s) && size > 0 && c < NUM_CHANNELS
    ensures var s', fs := Step(linkId, s, Send(p, size, c, true)), Fragments(p, size);
            && s'.near[c].snd == Enqueue(s.near[c].snd, fs) && s'.far == s.far
            && var l, l' := s.out.reliable, s'.out.reliable;
               && l'.sent[c] == l.sent[c] + [p] && l'.polled == l.polled
               && l'.issued[c] == l.issued[c] + |fs|
               && l'.tickets[c] == l.tickets[c] + [Ticket(s.near[c].snd.next, |fs|)]
  {
    hide Fragments, Stamp, Encoded, Elems, Enqueue;
  }

  lemma SendElsewhere(linkId: u32, s: Pair, h: Hist, p: Packet, size: nat, c: nat, b: nat)
    requires WellSized(s) && size > 0 && c < NUM_CHANNELS && b < NUM_CHANNELS && b != c && Projects(s, h, b)
    ensures Projects(Step(linkId, s, Send(p, size, c, true)), Add(h, c, OL.Send(p, size)), b)
  {
    hide OL.Run, Stamp, Fragments, Encoded, Ticketed, Enqueue, Elems;
  }

  lemma SendAt(linkId: u32, s: Pair, h: Hist, p: Packet, size: nat, c: nat)
    requires Inv(linkId, s, h) && size > 0 && c < NUM_CHANNELS
    ensures var s', h' := Step(linkId, s, Send(p, size, c, true)), Add(h, c, OL.Send(p, size));
            forall b :: 0 <= b < NUM_CHANNELS ==> Projects(s', h', b)
  {
    hide Carried, Acked, Projects, Step, Add;
    forall b | 0 <= b < NUM_CHANNELS
      ensures Projects(Step(linkId, s, Send(p, size, c, true)), Add(h, c, OL.Send(p, size)), b)
    {
      if b == c {
        SendHere(linkId, s, h, p, size, c);
      } else {
        SendElsewhere(linkId, s, h, p, size, c, b);
      }
    }
  }

  lemma MoreTickets(em: Emission, tickets: seq<Ticket>, n: u32, fs: seq<Fragment>)
    requires Ticketed(em, tickets) && |fs| >= 1
    ensures Ticketed(em + [Stamp(n, fs)], tickets + [Ticket(n, |fs|)])
  {
    BackOne(n);
  }

  lemma SentAreCarried(linkId: u32, h: Hist, c: nat, em: Emission, ds: seq<Datagram>)
    requires c < NUM_CHANNELS && OL.Run(h[c]).em == em + [ds]
    ensures forall w :: w in Encoded(linkId, RELIABLE_ORDERED, c, ds) ==> Carried(linkId, h, w)
  {
    hide OL.Run, EncodeNormal;
    var ws := Encoded(linkId, RELIABLE_ORDERED, c, ds);
    forall w | w in ws ensures Carried(linkId, h, w) {
      var i :| 0 <= i < |ws| && ws[i] == w;
      assert IsFragment(linkId, OL.Run(h[c]).em, c, FragId(|em|, i), w);
    }
  }

  lemma UnreliableAreCarried(linkId: u32, h: Hist, c: nat, ds: seq<Datagram>)
    requires c < NUM_CHANNELS
    ensures forall w :: w in Encoded(linkId, UNRELIABLE_SEQUENCED, c, ds) ==> Carried(linkId, h, w)
  {
    var ws := Encoded(linkId, UNRELIABLE_SEQUENCED, c, ds);
    forall w | w in ws ensures Carried(linkId, h, w) {
      var i :| 0 <= i < |ws| && ws[i] == w;
      NormalRoundTrip(linkId, UNRELIABLE_SEQUENCED, c, ds[i]);
    }
  }

  lemma {:induction false} QueuedAreCarried(linkId: u32, v: seq<Chan>, h: Hist, n: nat, w: seq<Byte>)
    requires n <= |v| == NUM_CHANNELS
    requires forall c :: 0 <= c < NUM_CHANNELS ==> v[c].snd == OL.Run(h[c]).snd
    requires w in AllQueued(linkId, v, n)
    ensures Carried(linkId, h, w)
  {
    if n > 0 {
      var ws := Encoded(linkId, RELIABLE_ORDERED, n - 1, v[n - 1].snd.queue);
      hide EncodeNormal, OL.Run;
      if w in ws {
        var i :| 0 <= i < |ws| && ws[i] == w;
        var k := OL.Run(h[n - 1]);
        RunTraced(h[n - 1]);
        assert Emitted(k.em, k.snd.queue[i]);
        var f :| Issued(k.em, f) && At(k.em, f) == k.snd.queue[i];
        assert IsFragment(linkId, k.em, n - 1, f, w);
      } else {
        QueuedAreCarried(linkId, v, h, n - 1, w);
      }
    }
  }

  lemma SameHist(h: Hist)
    ensures HistGrows(h, h)
  {
  }

  /** Sends on unreliable channels and retransmissions add only datagrams that are accounted for. */
  lemma MoreTraffic(linkId: u32, s: Pair, h: Hist, ev: Event)
    requires Inv(linkId, s, h) && (ev.Retransmit? || (ev.Send? && !ev.reliable))
    ensures Inv(linkId, Step(linkId, s, ev), h)
  {
    var s' := Step(linkId, s, ev);
    SameHist(h);
    forall c | 0 <= c < NUM_CHANNELS ensures s.near[c].snd == OL.Run(h[c]).snd {
      assert Projects(s, h, c);
    }
    hide OL.Run;
    if ev.Retransmit? {
      forall w | w in AllQueued(linkId, s.near, NUM_CHANNELS) ensures Carried(linkId, h, w) {
        QueuedAreCarried(linkId, s.near, h, NUM_CHANNELS, w);
      }
    } else if ev.channel < NUM_CHANNELS {
      var fs := Fragments(ev.p, if ev.size == 0 then 1 else ev.size);
      UnreliableAreCarried(linkId, h, ev.channel, Stamp(s.near[ev.channel].sendSeqUnreliable, fs));
    }
    TrafficGrows(linkId, s, h, h, s'.out.wire, s'.out.back);
    hide OL.Run, Carried, Acked, HistGrows, Stamp, Fragments, Encoded, AllQueued;
    forall b | 0 <= b < NUM_CHANNELS ensures Projects(s', h, b) {
      assert Projects(s, h, b);
    }
  }

  lemma StepReceives(linkId: u32, s: Pair, w: seq<Byte>)
    requires WellSized(s)
    ensures w in s.out.wire ==> Step(linkId, s, Arrive(w)) == s.(far := Received(s.far, w))
    ensures w in s.out.back ==> Step(linkId, s, AcksArrive(w)) == s.(near := Received(s.near, w))
  {
    hide Received;
  }

  lemma ArriveProjects(linkId: u32, s: Pair, h: Hist, w: seq<Byte>) returns (h': Hist)
    requires Inv(linkId, s, h) && w in s.out.wire
    ensures Inv(linkId, Step(linkId, s, Arrive(w)), h') && HistContinues(h, h')
  {
    assert Carried(linkId, h, w);
    h' := h;
    AddContinues(h, 0, OL.Test);
    hide HistContinues;
    var s' := Step(linkId, s, Arrive(w));
    if IsNormal(w) && w[4] == UNRELIABLE_SEQUENCED {
      ReceivedUnreliable(s.far, w);
      SameHist(h);
    } else {
      var c, f :| 0 <= c < NUM_CHANNELS && IsFragment(linkId, OL.Run(h[c]).em, c, f, w);
      h' := ArriveReliable(linkId, s, h, w, c, f);
    }
    TrafficGrows(linkId, s, h, h', s'.out.wire, s'.out.back);
    hide OL.Run, Carried, Acked, HistGrows, Received;
    forall b | 0 <= b < NUM_CHANNELS ensures Projects(s', h', b) {
      assert Projects(s, h, b);
    }
  }

  lemma ReceivedUnreliable(v: seq<Chan>, w: seq<Byte>)
    requires |v| == NUM_CHANNELS && IsNormal(w) && w[4] == UNRELIABLE_SEQUENCED
    ensures forall c :: 0 <= c < NUM_CHANNELS ==> Received(v, w)[c] == v[c].(inbox := Received(v, w)[c].inbox)
  {
    hide Unreliable.Receive, DecodeNormal;
  }

  lemma ReceivedReliable(linkId: u32, v: seq<Chan>, c: nat, d: Datagram)
    requires |v| == NUM_CHANNELS && c < NUM_CHANNELS
    ensures Received(v, EncodeNormal(linkId, RELIABLE_ORDERED, c, d))
              == v[c := v[c].(rcv := Channel.Receive(v[c].rcv, d))]
  {
    NormalRoundTrip(linkId, RELIABLE_ORDERED, c, d);
    hide EncodeNormal, DecodeNormal, ChannelOf, Channel.Receive;
  }

  lemma ArriveReliable(linkId: u32, s: Pair, h: Hist, w: seq<Byte>, c: nat, f: FragId) returns (h': Hist)
    requires Inv(linkId, s, h) && w in s.out.wire && c < NUM_CHANNELS && IsFragment(linkId, OL.Run(h[c]).em, c, f, w)
    ensures HistGrows(h, h') && HistContinues(h, h')
    ensures var s' := Step(linkId, s, Arrive(w)); forall b :: 0 <= b < NUM_CHANNELS ==> Projects(s', h', b)
  {
    var k := OL.Run(h[c]);
    assert Projects(s, h, c);
    var h1 := Add(h, c, OL.Arrive(f));
    AddGrows(h, c, OL.Arrive(f));
    var h2 := Add(h1, c, OL.Test);
    AddGrows(h1, c, OL.Test);
    h' := Add(h2, c, OL.Insert);
    ReceiveContinues(h, c, f);
    hide HistContinues;
    AddGrows(h2, c, OL.Insert);
    GrowsTrans(h, h1, h2);
    GrowsTrans(h, h2, h');
    OrderedRefinement.ReceiveInThree(k, f);
    ReceivedReliable(linkId, s.far, c, At(k.em, f));
    StepReceives(linkId, s, w);
    var s' := Step(linkId, s, Arrive(w));
    hide OL.Run, OL.Step, Step, Received, HistGrows, Channel.Receive, EncodeNormal;
    forall b | 0 <= b < NUM_CHANNELS ensures Projects(s', h', b) {
      assert Projects(s, h, b);
    }
  }

  lemma PollHere(linkId: u32, s: Pair, h: Hist, got: Option<Link.Polled>, far': seq<Chan>, u: seq<seq<Byte>>,
                 u': seq<seq<Byte>>, b: nat)
    requires WellSized(s) && |far'| == NUM_CHANNELS && PollOutcome(s.far, u, got, far', u')
    requires b < NUM_CHANNELS && Projects(s, h, b)
    ensures var s' := Step(linkId, s, Poll(got, far'));
            var h' := if got.Some? && got.value.Ordered? then Add(h, got.value.channel, OL.Poll) else h;
            Projects(s', h', b)
  {
    if got.Some? && got.value.Ordered? && got.value.channel == b {
      AddGrows(h, b, OL.Poll);
    }
    hide OL.Run, HistGrows, Ticketed;
  }

  lemma PollProjects(linkId: u32, s: Pair, h: Hist, got: Option<Link.Polled>, far': seq<Chan>) returns (h': Hist)
    requires Inv(linkId, s, h)
    ensures Inv(linkId, Step(linkId, s, Poll(got, far')), h') && HistContinues(h, h')
  {
    h' := h;
    SameHist(h);
    AddContinues(h, 0, OL.Poll);
    var s' := Step(linkId, s, Poll(got, far'));
    hide HistContinues, HistGrows, Carried, Acked, Projects;
    if |far'| == NUM_CHANNELS && exists u, u' :: PollOutcome(s.far, u, got, far', u') {
      var u, u' :| PollOutcome(s.far, u, got, far', u');
      if got.Some? && got.value.Ordered? {
        h' := Add(h, got.value.channel, OL.Poll);
        AddGrows(h, got.value.channel, OL.Poll);
        AddContinues(h, got.value.channel, OL.Poll);
      }
      forall b | 0 <= b < NUM_CHANNELS ensures Projects(s', h', b) {
        PollHere(linkId, s, h, got, far', u, u', b);
      }
    }
    hide PollOutcome;
    TrafficGrows(linkId, s, h, h', s'.out.wire, s'.out.back);
  }

  lemma AcksArriveProjects(linkId: u32, s: Pair, h: Hist, w: seq<Byte>) returns (h': Hist)
    requires Inv(linkId, s, h) && w in s.out.back
    ensures Inv(linkId, Step(linkId, s, AcksArrive(w)), h') && HistContinues(h, h')
  {
    hide HistContinues;
    assert Acked(linkId, h, w);
    var c, ids :| 0 <= c < NUM_CHANNELS && IsAckOf(linkId, OL.Run(h[c]), c, ids, w);
    h' := Add(h, c, OL.AcksArrive(ids));
    AddGrows(h, c, OL.AcksArrive(ids));
    AddContinues(h, c, OL.AcksArrive(ids));
    var s' := Step(linkId, s, AcksArrive(w));
    AcksArriveAt(linkId, s, h, w, c, ids);
    hide OL.Run, Carried, Acked, HistGrows, Received, IsAckOf, Projects;
    TrafficGrows(linkId, s, h, h', s'.out.wire, s'.out.back);
  }

  lemma AcksArriveAt(linkId: u32, s: Pair, h: Hist, w: seq<Byte>, c: nat, ids: seq<FragId>)
    requires Inv(linkId, s, h) && w in s.out.back && c < NUM_CHANNELS && IsAckOf(linkId, OL.Run(h[c]), c, ids, w)
    ensures forall b :: 0 <= b < NUM_CHANNELS ==>
              Projects(Step(linkId, s, AcksArrive(w)), Add(h, c, OL.AcksArrive(ids)), b)
  {
    var h' := Add(h, c, OL.AcksArrive(ids));
    var k := OL.Run(h[c]);
    assert Projects(s, h, c);
    hide OL.Run, OL.Step, Carried, Acked, HistGrows, Received, RemoveAll, EncodeAcks;
    AddGrows(h, c, OL.AcksArrive(ids));
    AcksStep(linkId, k, c, ids, w);
    var acks := OL.KeysOf(k.em, ids);
    ReceivedAcks(linkId, s.near, c, acks);
    StepReceives(linkId, s, w);
    var s' := Step(linkId, s, AcksArrive(w));
    hide OL.KeysOf, IsAckOf, Step;
    forall b | 0 <= b < NUM_CHANNELS ensures Projects(s', h', b) {
      assert Projects(s, h, b);
    }
  }

  lemma AcksStep(linkId: u32, k: OL.Sys, c: nat, ids: seq<FragId>, w: seq<Byte>)
    requires c < NUM_CHANNELS && IsAckOf(linkId, k, c, ids, w)
    ensures w == EncodeAcks(linkId, c, OL.KeysOf(k.em, ids))
    ensures OL.Step(k, OL.AcksArrive(ids)) == k.(snd := k.snd.(queue := RemoveAll(k.snd.queue, OL.KeysOf(k.em, ids))))
  {
  }

  lemma ReceivedAcks(linkId: u32, v: seq<Chan>, c: nat, acks: seq<u32>)
    requires |v| == NUM_CHANNELS && c < NUM_CHANNELS && |acks| <= OL.MAX_ACKS
    ensures Received(v, EncodeAcks(linkId, c, acks))
              == v[c := v[c].(snd := v[c].snd.(queue := RemoveAll(v[c].snd.queue, acks)))]
  {
    AcksRoundTrip(linkId, c, acks);
    var buff := EncodeAcks(linkId, c, acks);
    assert |buff| >= OFF_ACK_PAYLOAD && !IsNormal(buff) && IsAck(buff);
    hide EncodeAcks, DecodeAcks, AcksWellFormed, IsNormal, IsAck, ReadU32, RemoveAll;
    hide DecodeNormal, ChannelOf, Channel.Receive, Unreliable.Receive;
  }

  lemma {:induction false} DispatchedAre(linkId: u32, v: seq<Chan>, n: nat, w: seq<Byte>) returns (c: nat)
    requires n <= |v| == NUM_CHANNELS && w in AckDatagrams(linkId, v, n)
    ensures c < NUM_CHANNELS && v[c].rcv.acks != [] && w == EncodeAcks(linkId, c, OL.FirstAcks(v[c].rcv.acks))
  {
    var acks := OL.FirstAcks(v[n - 1].rcv.acks);
    if acks != [] && w == EncodeAcks(linkId, n - 1, acks) {
      c := n - 1;
    } else {
      c := DispatchedAre(linkId, v, n - 1, w);
    }
  }

  /** The history in which every channel dispatches its acks. */
  function AllDispatch(h: Hist): Hist {
    seq(NUM_CHANNELS, c requires 0 <= c < NUM_CHANNELS => h[c] + [OL.DispatchAcks])
  }

  lemma FirstAcksNamed(k: OL.Sys)
    requires Traced(k) && k.rcv.acks != []
    ensures var ids := OL.FirstAcks(k.ackIds);
            && (forall f :: f in ids ==> Issued(k.em, f))
            && |ids| <= OL.MAX_ACKS && OL.FirstAcks(k.rcv.acks) == OL.KeysOf(k.em, ids)
            && ids in OL.Step(k, OL.DispatchAcks).ackNet
  {
    hide Emitted;
    forall f | f in OL.FirstAcks(k.ackIds) ensures Issued(k.em, f) {
      var i :| 0 <= i < |k.ackIds| && k.ackIds[i] == f;
    }
  }

  lemma AckNamed(linkId: u32, k: OL.Sys, c: nat)
    requires Traced(k) && k.rcv.acks != [] && c < NUM_CHANNELS
    ensures IsAckOf(linkId, OL.Step(k, OL.DispatchAcks), c, OL.FirstAcks(k.ackIds),
              EncodeAcks(linkId, c, OL.FirstAcks(k.rcv.acks)))
  {
    FirstAcksNamed(k);
    hide EncodeAcks, OL.FirstAcks, Traced;
  }

  lemma DispatchedIsAck(linkId: u32, h: Hist, v: seq<Chan>, w: seq<Byte>)
    requires |v| == NUM_CHANNELS && w in AckDatagrams(linkId, v, NUM_CHANNELS)
    requires forall c :: 0 <= c < NUM_CHANNELS ==> v[c].rcv == OL.Run(h[c]).rcv
    ensures Acked(linkId, AllDispatch(h), w)
  {
    hide OL.Run, OL.Step, EncodeAcks, OL.FirstAcks, Traced, IsAckOf, AckDatagrams;
    var c := DispatchedAre(linkId, v, NUM_CHANNELS, w);
    RunTraced(h[c]);
    OL.RunSnoc(h[c], OL.DispatchAcks);
    AckNamed(linkId, OL.Run(h[c]), c);
    assert IsAckOf(linkId, OL.Run(AllDispatch(h)[c]), c, OL.FirstAcks(OL.Run(h[c]).ackIds), w);
  }

  lemma DispatchGrows(h: Hist)
    ensures HistGrows(h, AllDispatch(h))
    ensures forall c :: 0 <= c < NUM_CHANNELS ==> OL.Run(AllDispatch(h)[c]) == OL.Step(OL.Run(h[c]), OL.DispatchAcks)
  {
    var h' := AllDispatch(h);
    forall c | 0 <= c < NUM_CHANNELS
      ensures OL.Run(h'[c]) == OL.Step(OL.Run(h[c]), OL.DispatchAcks) && Grows(OL.Run(h[c]), OL.Run(h'[c]))
    {
      OL.RunSnoc(h[c], OL.DispatchAcks);
      StepGrows(OL.Run(h[c]), OL.DispatchAcks);
    }
  }

  lemma DispatchProjects(linkId: u32, s: Pair, h: Hist)
    requires Inv(linkId, s, h)
    ensures Inv(linkId, Step(linkId, s, DispatchAcks), AllDispatch(h))
  {
    var s', h' := Step(linkId, s, DispatchAcks), AllDispatch(h);
    DispatchAll(linkId, s, h);
    DispatchGrows(h);
    hide OL.Run, Projects;
    forall w | w in AckDatagrams(linkId, s.far, NUM_CHANNELS) ensures Acked(linkId, h', w) {
      DispatchedIsAck(linkId, h, s.far, w);
    }
    hide Carried, Acked, AckDatagrams, HistGrows, AllDispatch;
    TrafficGrows(linkId, s, h, h', s'.out.wire, s'.out.back);
  }

  lemma DispatchAll(linkId: u32, s: Pair, h: Hist)
    requires Inv(linkId, s, h)
    ensures forall b :: 0 <= b < NUM_CHANNELS ==> s.far[b].rcv == OL.Run(h[b]).rcv
    ensures forall b :: 0 <= b < NUM_CHANNELS ==> Projects(Step(linkId, s, DispatchAcks), AllDispatch(h), b)
  {
    DispatchGrows(h);
    hide OL.Run, Carried, Acked, AckDatagrams, HistGrows, AllDispatch;
    var s', h' := Step(linkId, s, DispatchAcks), AllDispatch(h);
    forall b | 0 <= b < NUM_CHANNELS ensures Projects(s', h', b) && s.far[b].rcv == OL.Run(h[b]).rcv {
      assert Projects(s, h, b);
    }
  }

  lemma StepProjects(linkId: u32, s: Pair, h: Hist, ev: Event) returns (h': Hist)
    requires Inv(linkId, s, h)
    ensures Inv(linkId, Step(linkId, s, ev), h') && HistContinues(h, h')
  {
    h' := h;
    AddContinues(h, 0, OL.DispatchAcks);
    hide HistContinues, AllDispatch, Inv, SendStep, Received, PollOutcome, AllQueued, AckDatagrams, WithoutAcks;
    match ev
    case Send(p, size, c, reliable) =>
      if size > 0 && c < NUM_CHANNELS && reliable {
        h' := SendProjects(linkId, s, h, p, size, c);
      } else if !reliable {
        MoreTraffic(linkId, s, h, ev);
      }
    case Retransmit => MoreTraffic(linkId, s, h, ev);
    case Arrive(w) =>
      if w in s.out.wire {
        h' := ArriveProjects(linkId, s, h, w);
      }
    case Poll(got, far') => h' := PollProjects(linkId, s, h, got, far');
    case DispatchAcks => DispatchProjects(linkId, s, h);
      h' := AllDispatch(h);
    case AcksArrive(w) =>
      if w in s.out.back {
        h' := AcksArriveProjects(linkId, s, h, w);
      }
  }

  // ---- the other direction passes by

  /** Only the receiving halves at one end, and the sending halves at the other, are touched. */
  ghost predicate PassesBy(s: Pair, s': Pair) {
    && WellSized(s) && WellSized(s') && s'.home == s.home
    && (forall c :: 0 <= c < NUM_CHANNELS ==> s'.far[c].snd == s.far[c].snd && s'.near[c].rcv == s.near[c].rcv)
  }

  lemma NormalOnWire(linkId: u32, h: Hist, w: seq<Byte>)
    requires Carried(linkId, h, w)
    ensures IsNormal(w)
  {
    hide OL.Run;
    if !(IsNormal(w) && w[4] == UNRELIABLE_SEQUENCED) {
      var c, f :| 0 <= c < NUM_CHANNELS && IsFragment(linkId, OL.Run(h[c]).em, c, f, w);
      NormalRoundTrip(linkId, RELIABLE_ORDERED, c, At(OL.Run(h[c]).em, f));
    }
  }

  lemma AckOnBack(linkId: u32, h: Hist, w: seq<Byte>)
    requires Acked(linkId, h, w)
    ensures !IsNormal(w)
  {
    hide OL.Run;
    var c, ids :| 0 <= c < NUM_CHANNELS && IsAckOf(linkId, OL.Run(h[c]), c, ids, w);
    AcksRoundTrip(linkId, c, OL.KeysOf(OL.Run(h[c]).em, ids));
  }

  lemma ReceivedHalf(v: seq<Chan>, w: seq<Byte>, c: nat)
    requires c < |v| == NUM_CHANNELS
    ensures IsNormal(w) ==> Received(v, w)[c].snd == v[c].snd
    ensures !IsNormal(w) ==> Received(v, w)[c].rcv == v[c].rcv
  {
    hide Unreliable.Receive, Channel.Receive, DecodeNormal, DecodeAcks, AcksWellFormed;
  }

  lemma StepPassesBy(linkId: u32, s: Pair, h: Hist, ev: Event)
    requires Inv(linkId, s, h)
    ensures PassesBy(s, Step(linkId, s, ev))
  {
    var s' := Step(linkId, s, ev);
    if ev.Arrive? && ev.w in s.out.wire {
      assert Carried(linkId, h, ev.w);
      NormalOnWire(linkId, h, ev.w);
      hide Carried, IsNormal, Received, Projects;
      forall c | 0 <= c < NUM_CHANNELS ensures s'.far[c].snd == s.far[c].snd {
        ReceivedHalf(s.far, ev.w, c);
      }
    } else if ev.AcksArrive? && ev.w in s.out.back {
      assert Acked(linkId, h, ev.w);
      AckOnBack(linkId, h, ev.w);
      hide Acked, IsNormal, Received, Projects;
      forall c | 0 <= c < NUM_CHANNELS ensures s'.near[c].rcv == s.near[c].rcv {
        ReceivedHalf(s.near, ev.w, c);
      }
    } else {
      RestPassesBy(linkId, s, ev);
    }
  }

  lemma RestPassesBy(linkId: u32, s: Pair, ev: Event)
    requires WellSized(s)
    requires !(ev.Arrive? && ev.w in s.out.wire) && !(ev.AcksArrive? && ev.w in s.out.back)
    ensures PassesBy(s, Step(linkId, s, ev))
  {
    hide Stamp, Fragments, Enqueue, Encoded, AllQueued, AckDatagrams, CanPoll, PollStep, Received;
  }

  lemma InvIgnores(linkId: u32, s: Pair, s': Pair, h: Hist)
    requires Inv(linkId, s, h) && PassesBy(Flip(s), Flip(s'))
    ensures Inv(linkId, s', h)
  {
    hide OL.Run, Carried, Acked;
    forall c | 0 <= c < NUM_CHANNELS ensures Projects(s', h, c) {
      assert Projects(s, h, c);
    }
  }

  // ---- whole runs

  /** What one channel saw, and what the link's log says of it, are the same. */
  ghost predicate Agrees(l: Log, k: OL.Sys, c: nat)
    requires IsLog(l) && c < NUM_CHANNELS
  {
    k.polled == l.polled[c] && Total(k.em) == l.issued[c] && Ticketed(k.em, l.tickets[c])
  }

  /** The reliable log of one direction after the first m events. */
  ghost function LogAt(linkId: u32, evs: seq<(bool, Event)>, forth: bool, m: nat): (l: Log)
    requires m <= |evs|
    ensures IsLog(l)
  {
    var s := Run(linkId, evs[..m]);
    if forth then s.out.reliable else s.home.reliable
  }

  /** At every point of its own run, a channel is where the link is at some point. */
  ghost predicate Tracks(linkId: u32, evs: seq<(bool, Event)>, forth: bool, h: Hist) {
    forall c, k :: 0 <= c < NUM_CHANNELS && 0 <= k <= |h[c]| ==> TracksAt(linkId, evs, forth, OL.Run(h[c][..k]), c)
  }

  ghost predicate TracksAt(linkId: u32, evs: seq<(bool, Event)>, forth: bool, k: OL.Sys, c: nat)
    requires c < NUM_CHANNELS
  {
    exists m :: 0 <= m <= |evs| && Agrees(LogAt(linkId, evs, forth, m), k, c)
  }

  lemma ProjectsAgrees(linkId: u32, s: Pair, h: Hist, c: nat)
    requires Inv(linkId, s, h) && c < NUM_CHANNELS
    ensures Agrees(s.out.reliable, OL.Run(h[c]), c)
  {
    assert Projects(s, h, c);
    hide OL.Run, Carried, Acked, Ticketed;
  }

  lemma TracksLater(linkId: u32, evs: seq<(bool, Event)>, forth: bool, k: OL.Sys, c: nat)
    requires evs != [] && c < NUM_CHANNELS && TracksAt(linkId, evs[..|evs| - 1], forth, k, c)
    ensures TracksAt(linkId, evs, forth, k, c)
  {
    var front := evs[..|evs| - 1];
    hide Agrees, Run;
    var m :| 0 <= m <= |front| && Agrees(LogAt(linkId, front, forth, m), k, c);
    assert front[..m] == evs[..m];
    assert Agrees(LogAt(linkId, evs, forth, m), k, c);
  }

  lemma TracksNow(linkId: u32, evs: seq<(bool, Event)>, forth: bool, k: OL.Sys, c: nat)
    requires c < NUM_CHANNELS && Agrees(LogAt(linkId, evs, forth, |evs|), k, c)
    ensures TracksAt(linkId, evs, forth, k, c)
  {
    hide Agrees, LogAt;
  }

  lemma AlikeAgrees(l: Log, k: OL.Sys, k': OL.Sys, c: nat)
    requires IsLog(l) && c < NUM_CHANNELS && Agrees(l, k, c) && Alike(k', k)
    ensures Agrees(l, k', c)
  {
    hide Ticketed;
  }

  lemma TracksNext(linkId: u32, evs: seq<(bool, Event)>, forth: bool, h: Hist, h': Hist, s: Pair, s': Pair)
    requires evs != [] && Tracks(linkId, evs[..|evs| - 1], forth, h) && HistContinues(h, h')
    requires var r, r' := Run(linkId, evs[..|evs| - 1]), Run(linkId, evs);
             if forth then s == r && s' == r' else s == Flip(r) && s' == Flip(r')
    requires Inv(linkId, s, h) && Inv(linkId, s', h')
    ensures Tracks(linkId, evs, forth, h')
  {
    var front := evs[..|evs| - 1];
    assert front[..|front|] == front && evs[..|evs|] == evs;
    hide Run, Inv, Agrees, TracksAt, Alike;
    forall c, k | 0 <= c < NUM_CHANNELS && 0 <= k <= |h'[c]|
      ensures TracksAt(linkId, evs, forth, OL.Run(h'[c][..k]), c)
    {
      hide OL.Run;
      assert Continues(h[c], h'[c]);
      if k < |h[c]| {
        assert h'[c][..k] == h[c][..k];
        TracksLater(linkId, evs, forth, OL.Run(h[c][..k]), c);
      } else if Alike(OL.Run(h'[c][..k]), OL.Run(h[c])) {
        ProjectsAgrees(linkId, s, h, c);
        AlikeAgrees(s.out.reliable, OL.Run(h[c]), OL.Run(h'[c][..k]), c);
        TracksNow(linkId, front, forth, OL.Run(h'[c][..k]), c);
        TracksLater(linkId, evs, forth, OL.Run(h'[c][..k]), c);
      } else {
        ProjectsAgrees(linkId, s', h', c);
        AlikeAgrees(s'.out.reliable, OL.Run(h'[c]), OL.Run(h'[c][..k]), c);
        TracksNow(linkId, evs, forth, OL.Run(h'[c][..k]), c);
      }
    }
  }

  lemma FreshPair(linkId: u32)
    ensures Inv(linkId, Run(linkId, []), Each([])) && Inv(linkId, Flip(Run(linkId, [])), Each([]))
  {
    assert OL.Run([]) == OL.INIT;
  }

  lemma FreshTracks(linkId: u32, forth: bool)
    ensures Tracks(linkId, [], forth, Each([]))
  {
    var none: seq<(bool, Event)> := [];
    assert none[..0] == none && OL.Run([]) == OL.INIT;
    var h: Hist := Each([]);
    forall c, k | 0 <= c < NUM_CHANNELS && 0 <= k <= |h[c]|
      ensures TracksAt(linkId, none, forth, OL.Run(h[c][..k]), c)
    {
      assert h[c][..k] == [];
      assert Agrees(LogAt(linkId, none, forth, 0), OL.INIT, c);
    }
  }

  /** Whatever happens on the two links, the reliable half of each channel of each direction has a run
      of its own that puts its two ends exactly where they are, and every datagram on the network came
      from it. At every point of that run it has issued and polled what the link had at some point. */
  lemma {:induction false} RunProjects(linkId: u32, evs: seq<(bool, Event)>) returns (onward: Hist, homeward: Hist)
    ensures Inv(linkId, Run(linkId, evs), onward) && Tracks(linkId, evs, true, onward)
    ensures Inv(linkId, Flip(Run(linkId, evs)), homeward) && Tracks(linkId, evs, false, homeward)
  {
    if evs == [] {
      FreshPair(linkId);
      FreshTracks(linkId, true);
      FreshTracks(linkId, false);
      onward, homeward := Each([]), Each([]);
    } else {
      var front, forth, ev := evs[..|evs| - 1], evs[|evs| - 1].0, evs[|evs| - 1].1;
      var s := Run(linkId, front);
      var out, home := RunProjects(linkId, front);
      onward, homeward := out, home;
      hide Inv, Step, PassesBy, Tracks, HistContinues;
      AddContinues(out, 0, OL.Test);
      AddContinues(home, 0, OL.Test);
      assert Flip(Flip(s)) == s;
      if forth {
        StepPassesBy(linkId, s, out, ev);
        InvIgnores(linkId, Flip(s), Flip(Step(linkId, s, ev)), home);
        onward := StepProjects(linkId, s, out, ev);
      } else {
        StepPassesBy(linkId, Flip(s), home, ev);
        InvIgnores(linkId, s, Flip(Step(linkId, Flip(s), ev)), out);
        homeward := StepProjects(linkId, Flip(s), home, ev);
      }
      TracksNext(linkId, evs, true, out, onward, s, Run(linkId, evs));
      TracksNext(linkId, evs, false, home, homeward, Flip(s), Flip(Run(linkId, evs)));
    }
  }

  /** What was polled is, in order and each once, a prefix of what was sent: the payloads, and the
      whole packets where one fragment was enough. */
  ghost predicate InOrder(l: Log, c: nat)
    requires c < |l.sent| == |l.polled| == |l.tickets|
  {
    && |l.polled[c]| <= |l.sent[c]| == |l.tickets[c]|
    && forall k :: 0 <= k < |l.polled[c]| ==>
         && l.polled[c][k].payload == l.sent[c][k].payload
         && (l.tickets[c][k].numFragments == 1 ==> l.polled[c][k] == l.sent[c][k])
  }

  lemma InOrderFrom(linkId: u32, s: Pair, h: Hist, c: nat)
    requires Inv(linkId, s, h) && c < NUM_CHANNELS && s.out.reliable.issued[c] < 0x1_0000_0000
    ensures InOrder(s.out.reliable, c)
  {
    assert Projects(s, h, c);
    hide OL.Run, Carried, Acked;
    ExactlyOnceInOrder(h[c]);
  }

  /** Bytes on the wire, eight channels, both directions, reliable and unreliable traffic mixed:
      on every channel with fewer than 2^32 numbers issued, what was polled is in order and once. */
  lemma LinkDeliversInOrder(linkId: u32, evs: seq<(bool, Event)>, c: nat)
    requires c < NUM_CHANNELS
    ensures var s := Run(linkId, evs);
            && (s.out.reliable.issued[c] < 0x1_0000_0000 ==> InOrder(s.out.reliable, c))
            && (s.home.reliable.issued[c] < 0x1_0000_0000 ==> InOrder(s.home.reliable, c))
  {
    var s := Run(linkId, evs);
    var onward, homeward := RunProjects(linkId, evs);
    hide Inv, InOrder;
    if s.out.reliable.issued[c] < 0x1_0000_0000 {
      InOrderFrom(linkId, s, onward, c);
    }
    if s.home.reliable.issued[c] < 0x1_0000_0000 {
      InOrderFrom(linkId, Flip(s), homeward, c);
    }
  }
}
