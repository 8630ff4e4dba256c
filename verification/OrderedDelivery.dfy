/** Nothing is lost on the reliable-ordered channel, and delivery tickets tell the truth, while
    the receiver is at most 2^31 numbers behind the sender. */
module OrderedDelivery {
  import opened Seq32
  import opened Packets
  import opened Serialization
  import opened Reassembly
  import opened Numbering
  import opened Channel
  import opened OrderedLink
  import opened OrderedRefinement
  import opened OrderedTheorems
  import Spec = OrderedSpec

  /** The receiver is at most 2^31 numbers behind. */
  ghost predicate Backlog(c: Sys) {
    |c.polled| <= |c.em| && Total(c.em) - Start(c.em, |c.polled|) <= 0x8000_0000
  }

  ghost predicate Bounded(evs: seq<Event>) {
    forall k :: 0 <= k <= |evs| ==> Backlog(Run(evs[..k]))
  }

  lemma BoundedPrefix(evs: seq<Event>)
    requires Bounded(evs) && evs != []
    ensures Bounded(evs[..|evs| - 1]) && Backlog(Run(evs)) && Backlog(Run(evs[..|evs| - 1]))
  {
    var front := evs[..|evs| - 1];
    assert evs[..|evs|] == evs;
    forall k | 0 <= k <= |front| ensures Backlog(Run(front[..k])) {
      assert front[..k] == evs[..k];
    }
  }

  /** With a bounded backlog the wrapped newness test never turns away a fragment that is
      still wanted. */
  lemma TestIsFaithful(j: Joint)
    requires Sim(j) && Spec.Safe(j.a) && Backlog(j.c) && MovesOf(j, Test).Some?
    ensures Spec.Faithful(j.a, MovesOf(j, Test).value)
  {
    var em, f, n := j.c.em, j.a.hand.f, |j.c.polled|;
    assert j.c.hand.d.seqNo == Wrap(Index(em, f));
    hide Wrap, Stamped, Cuts, Holds, OrderSim, QueueSim, AckSim, Spec.Distinct, Spec.BufferPartial, Spec.InOrder,
         IsSequenceNewer;
    if f.msg >= n {
      IndexBelowTotal(em, f);
      if n < f.msg {
        StartMonotone(em, n, f.msg);
      }
      AheadIsNewer(Index(em, f), Start(em, n));
    }
  }

  lemma KeptStepBoth(j: Joint, ev: Event)
    requires Sim(j) && Spec.Safe(j.a) && Spec.Kept(j.a) && Backlog(j.c)
    ensures Spec.Kept(StepBoth(j, ev).a)
  {
    var mv := MovesOf(j, ev);
    if ev.Test? && mv.Some? {
      TestIsFaithful(j);
    }
    hide Sim, Spec.Safe, Spec.Kept, Spec.Step, Backlog, IsSequenceNewer;
    if mv.Some? {
      Spec.KeptStep(j.a, mv.value);
    }
  }

  lemma {:induction false} RunKeeps(evs: seq<Event>)
    requires RoomyRun(evs) && Bounded(evs)
    ensures Spec.Kept(RunBoth(evs).a)
  {
    if evs == [] {
      Spec.SafeStart();
    } else {
      var front := evs[..|evs| - 1];
      RoomyRunPrefix(evs);
      BoundedPrefix(evs);
      RunKeeps(front);
      RunRefines(front);
      hide Sim, Spec.Safe, Spec.Kept, Backlog, Room, Step;
      KeptStepBoth(RunBoth(front), evs[|evs| - 1]);
    }
  }

  // ---- no loss

  predicate Polled(c: Sys, f: FragId) {
    f.msg < |c.polled|
  }

  /** The packet stands in the reorder queue, complete, under its own first number. */
  ghost predicate Waiting(c: Sys, m: nat) {
    && Issued(c.em, FragId(m, 0)) && m < |c.sent|
    && Head(c.em, m) in c.rcv.order
    && c.rcv.order[Head(c.em, m)].packet.payload == c.sent[m].payload
    && c.rcv.order[Head(c.em, m)].count == Wrap(|c.em[m]|)
  }

  ghost predicate Buffered(c: Sys, f: FragId) {
    Issued(c.em, f) && Key(c.em, f) in c.rcv.fragments && c.rcv.fragments[Key(c.em, f)] == At(c.em, f).frag
  }

  ghost predicate InHand(c: Sys, f: FragId) {
    Issued(c.em, f) && !c.hand.Idle? && c.hand.d == At(c.em, f)
  }

  lemma OnItsWayMeans(j: Joint, f: FragId)
    requires Sim(j) && Spec.Safe(j.a) && Spec.OnItsWay(j.a, f) && Issued(j.c.em, f)
    ensures Polled(j.c, f) || Waiting(j.c, f.msg) || Buffered(j.c, f) || InHand(j.c, f)
  {
    hide Stamped, Cuts, QueueSim, AckSim, Wrap, Spec.BufferPartial, Spec.Shaped, Start;
    if f.msg in j.a.ready {
      assert InQueue(j.c.em, j.c.rcv.order, f.msg, j.a.ready[f.msg]);
      assert Spec.Matches(j.a, j.a.ready[f.msg], f.msg);
    }
  }

  lemma OutstandingIsQueued(j: Joint, f: FragId)
    requires Sim(j) && f in j.a.outstanding
    ensures Issued(j.c.em, f) && At(j.c.em, f) in j.c.snd.queue
  {
    var i :| 0 <= i < |j.a.outstanding| && j.a.outstanding[i] == f;
    assert j.c.snd.queue[i] == At(j.c.em, f);
  }

  /** No loss: every fragment ever issued is still queued for retransmission, or in the
      receiver's buffers or its hand, or was polled as part of its packet. */
  lemma NothingIsLost(evs: seq<Event>, f: FragId)
    requires RoomyRun(evs) && Bounded(evs) && Issued(Run(evs).em, f)
    ensures var c := Run(evs);
            At(c.em, f) in c.snd.queue || Polled(c, f) || Waiting(c, f.msg) || Buffered(c, f) || InHand(c, f)
  {
    RunRefines(evs);
    RunKeeps(evs);
    var j := RunBoth(evs);
    assert Spec.Sent(j.a, f);
    hide Waiting, Buffered, InHand, Spec.Safe;
    if f in j.a.outstanding {
      OutstandingIsQueued(j, f);
    } else {
      OnItsWayMeans(j, f);
    }
  }

  // ---- tickets

  /** The sequence numbers of a packet, as isPacketDelivered counts them up, are its own. */
  lemma TicketCovers(j: Joint, m: nat)
    requires Sim(j) && Issued(j.c.em, FragId(m, 0))
    requires IsPacketDelivered(j.c.snd.queue, Head(j.c.em, m), |j.c.em[m]|)
    ensures forall i :: 0 <= i < |j.c.em[m]| ==> FragId(m, i) !in j.a.outstanding
  {
    var em := j.c.em;
    forall i | 0 <= i < |em[m]| ensures FragId(m, i) !in j.a.outstanding {
      KeySteps(em, FragId(m, 0), i);
      BackOne(Head(em, m));
      assert IsSequenceDelivered(j.c.snd.queue, Fwd(Head(em, m), i));
      if FragId(m, i) in j.a.outstanding {
        OutstandingIsQueued(j, FragId(m, i));
      }
    }
  }

  /** Tickets tell the truth: when isPacketDelivered answers yes for a ticket handed out by a
      send, the peer has polled that packet or holds it whole in its reorder queue, unless its
      receive thread is at that moment busy with one of the packet's fragments. */
  lemma TicketTellsTruth(evs: seq<Event>, m: nat)
    requires RoomyRun(evs) && Bounded(evs) && m < |Run(evs).sent| && Issued(Run(evs).em, FragId(m, 0))
    requires var c := Run(evs); IsPacketDelivered(c.snd.queue, Head(c.em, m), |c.em[m]|)
    ensures var c := Run(evs);
            || m < |c.polled|
            || Waiting(c, m)
            || exists i :: 0 <= i < |c.em[m]| && InHand(c, FragId(m, i))
  {
    RunRefines(evs);
    RunKeeps(evs);
    var j := RunBoth(evs);
    TicketCovers(j, m);
    TicketCase(j, m);
  }

  lemma TicketCase(j: Joint, m: nat)
    requires Sim(j) && Spec.Safe(j.a) && Spec.Kept(j.a) && Issued(j.c.em, FragId(m, 0))
    requires forall i :: 0 <= i < |j.c.em[m]| ==> FragId(m, i) !in j.a.outstanding
    ensures m < |j.c.polled| || Waiting(j.c, m) || exists i :: 0 <= i < |j.c.em[m]| && InHand(j.c, FragId(m, i))
  {
    hide Stamped, Cuts, QueueSim, AckSim, Holds, Wrap, Start, Spec.BufferPartial, Spec.Shaped, Spec.InOrder,
         Spec.Kept, Waiting;
    hide InHand;
    Spec.AckedIsDelivered(j.a, m);
    if m in j.a.ready {
      ReadyIsWaiting(j, m);
    } else if !(m < |j.c.polled|) {
      HandIsInHand(j);
      assert j.a.hand.f == FragId(m, j.a.hand.f.part);
    }
  }

  lemma HandIsInHand(j: Joint)
    requires Sim(j) && !j.a.hand.Idle?
    ensures InHand(j.c, j.a.hand.f)
  {
  }

  lemma ReadyIsWaiting(j: Joint, m: nat)
    requires Sim(j) && Spec.Safe(j.a) && m in j.a.ready
    ensures Waiting(j.c, m)
  {
    hide Stamped, Cuts, QueueSim, AckSim, Holds, Wrap, Start, Spec.BufferPartial, Spec.Shaped;
    assert InQueue(j.c.em, j.c.rcv.order, m, j.a.ready[m]);
    assert Spec.Matches(j.a, j.a.ready[m], m);
  }

  /** With the receive thread between two datagrams, a ticket is simply true. */
  lemma TicketAtRest(evs: seq<Event>, m: nat)
    requires RoomyRun(evs) && Bounded(evs) && m < |Run(evs).sent| && Issued(Run(evs).em, FragId(m, 0))
    requires var c := Run(evs); c.hand.Idle? && IsPacketDelivered(c.snd.queue, Head(c.em, m), |c.em[m]|)
    ensures m < |Run(evs).polled| || Waiting(Run(evs), m)
  {
    hide RoomyRun, Bounded, Run, IsPacketDelivered, Waiting, Head;
    TicketTellsTruth(evs, m);
  }

  /** The exception is real: a datagram is acked before it is filed, so its ack can be out and in
      again, and the ticket confirmed, while the peer still has the only fragment in its hand. */
  lemma TicketCanBeEarly(p: Packet, size: nat)
    requires size > 0 && |p.payload| <= size
    ensures var c := Run([Send(p, size), Arrive(FragId(0, 0)), DispatchAcks, AcksArrive([FragId(0, 0)])]);
            && Issued(c.em, FragId(0, 0)) && IsPacketDelivered(c.snd.queue, Head(c.em, 0), |c.em[0]|)
            && |c.polled| == 0 && !Waiting(c, 0) && InHand(c, FragId(0, 0))
  {
    var f, none := FragId(0, 0), [];
    var e1 := none + [Send(p, size)];
    var e2 := e1 + [Arrive(f)];
    var e3 := e2 + [DispatchAcks];
    var e4 := e3 + [AcksArrive([f])];
    RunSnoc(none, Send(p, size));
    RunSnoc(e1, Arrive(f));
    RunSnoc(e2, DispatchAcks);
    RunSnoc(e3, AcksArrive([f]));
    assert Run(none) == INIT;
    hide Run, Step, Waiting, InHand, IsPacketDelivered, Head;
    var d := OneIsSent(p, size);
    OneArrives(Run(e1), d);
    OneIsDispatched(Run(e2), d);
    OneIsAcked(Run(e3), d);
    OneInHand(Run(e4), d);
    assert e4 == [Send(p, size), Arrive(f), DispatchAcks, AcksArrive([f])];
  }

  /** One datagram was sent; this is queued, acked and in hand; nothing was polled or is waiting. */
  ghost predicate OneOut(c: Sys, d: Datagram, queue: seq<Datagram>, ackIds: seq<FragId>, net: set<seq<FragId>>,
                         hand: Hand) {
    && c.em == [[d]] && c.snd.queue == queue && c.rcv.order == map[] && c.polled == []
    && c.ackIds == ackIds && c.rcv.acks == KeysOfFirst(d, ackIds) && c.ackNet == net && c.hand == hand
  }

  function KeysOfFirst(d: Datagram, ids: seq<FragId>): seq<u32> {
    seq(|ids|, _ => d.seqNo)
  }

  lemma OneIsSent(p: Packet, size: nat) returns (d: Datagram)
    requires size > 0 && |p.payload| <= size
    ensures OneOut(Step(INIT, Send(p, size)), d, [d], [], {}, Idle)
  {
    var fs := Fragments(p, size);
    assert |fs| == 1;
    hide Fragments, Fwd;
    d := Stamp(0, fs)[0];
    assert Stamp(0, fs) == [d];
  }

  lemma OneArrives(c: Sys, d: Datagram)
    requires OneOut(c, d, [d], [], {}, Idle)
    ensures OneOut(Step(c, Arrive(FragId(0, 0))), d, [d], [FragId(0, 0)], {}, Arrived(d))
  {
    assert At(c.em, FragId(0, 0)) == d;
  }

  lemma OneIsDispatched(c: Sys, d: Datagram)
    requires OneOut(c, d, [d], [FragId(0, 0)], {}, Arrived(d))
    ensures OneOut(Step(c, DispatchAcks), d, [d], [], {[FragId(0, 0)]}, Arrived(d))
  {
  }

  lemma OneIsAcked(c: Sys, d: Datagram)
    requires OneOut(c, d, [d], [], {[FragId(0, 0)]}, Arrived(d))
    ensures OneOut(Step(c, AcksArrive([FragId(0, 0)])), d, [], [], {[FragId(0, 0)]}, Arrived(d))
  {
    assert Issued(c.em, FragId(0, 0)) && KeysOf(c.em, [FragId(0, 0)]) == [d.seqNo];
    assert forall f :: f in [FragId(0, 0)] ==> f == FragId(0, 0);
    OnlyOneGoes(d);
    hide RemoveAll;
  }

  lemma OnlyOneGoes(d: Datagram)
    ensures RemoveAll([d], [d.seqNo]) == []
  {
    assert RemoveFirst([d], d.seqNo) == [];
    assert [d.seqNo][1..] == [];
  }

  lemma OneInHand(c: Sys, d: Datagram)
    requires OneOut(c, d, [], [], {[FragId(0, 0)]}, Arrived(d))
    ensures Issued(c.em, FragId(0, 0)) && IsPacketDelivered(c.snd.queue, Head(c.em, 0), |c.em[0]|)
    ensures |c.polled| == 0 && !Waiting(c, 0) && InHand(c, FragId(0, 0))
  {
  }

  // ---- completeness

  /** Once the retransmit queue is empty, the receive thread is at rest and nothing more is
      ready to poll, everything that was sent has been polled. */
  lemma QuietMeansDelivered(evs: seq<Event>)
    requires RoomyRun(evs) && Bounded(evs) && Room(RunBoth(evs), Poll)
    requires Run(evs).snd.queue == [] && Run(evs).hand.Idle? && !CanPoll(Run(evs).rcv)
    ensures |Run(evs).polled| == |Run(evs).sent| && PolledIsPrefix(Run(evs))
  {
    RunRefines(evs);
    RunKeeps(evs);
    var j := RunBoth(evs);
    PrefixFromSim(j);
    QuietState(j);
  }

  lemma QuietState(j: Joint)
    requires Sim(j) && Spec.Safe(j.a) && Spec.Kept(j.a) && Room(j, Poll)
    requires j.c.snd.queue == [] && j.c.hand.Idle? && !CanPoll(j.c.rcv)
    ensures |j.c.polled| == |j.c.sent|
  {
    var lo :| RoomAt(j, Poll, lo);
    hide Wrap, Stamped, Cuts, Holds, OrderSim, AckSim, Within, Start, Spec.Distinct, Spec.BufferPartial, Spec.Kept;
    assert |j.a.outstanding| == 0;
    var n := |j.a.polled|;
    if n < |j.a.sent| {
      PollSame(j.c, j.a.ready, n, lo);
      Spec.AckedIsDelivered(j.a, n);
    }
  }

  // ---- the window

  /** Everything alive is at most 2^31 numbers older than the next expected one, and the backlog
      is bounded: the window in which the wrapped comparison is the true one. */
  ghost predicate InWindow(j: Joint, ev: Event) {
    var em := j.c.em;
    && Backlog(j.c)
    && var low := Start(em, |j.c.polled|) - 0x8000_0000;
    && (forall f :: f in j.a.held ==> Issued(em, f) && low <= Index(em, f))
    && (forall f :: f in j.a.outstanding ==> Issued(em, f) && low <= Index(em, f))
    && (forall m :: m in j.a.ready ==> m < |em| && low <= Start(em, m))
    && (j.a.hand.Passed? ==> j.a.hand.f.msg < |em| && low <= Start(em, j.a.hand.f.msg))
    && (ev.AcksArrive? && ev.ids in j.c.ackNet ==> forall f :: f in ev.ids ==> Issued(em, f) && low <= Index(em, f))
  }

  lemma WindowGivesRoom(j: Joint, ev: Event)
    requires Sim(j) && Spec.Safe(j.a) && InWindow(j, ev)
    ensures Room(j, ev)
  {
    var em, lo := j.c.em, Start(j.c.em, |j.c.polled|) - 0x8000_0000;
    forall f | Issued(em, f) && lo <= Index(em, f) ensures Within(em, f, lo) {
      IndexBelowTotal(em, f);
    }
    forall m | 0 <= m < |em| ensures Start(em, m) + |em[m]| <= Total(em) {
      StartMonotone(em, m, |em|);
    }
    WindowReady(j, lo);
    hide Within, Sim, Spec.Safe;
    assert RoomAt(j, ev, lo);
  }

  lemma WindowReady(j: Joint, lo: int)
    requires Sim(j) && lo == Start(j.c.em, |j.c.polled|) - 0x8000_0000 && Backlog(j.c)
    ensures forall m :: m in j.a.ready && lo <= Start(j.c.em, m) ==> Within(j.c.em, FragId(m, 0), lo)
  {
    var em := j.c.em;
    hide Wrap, Stamped, Cuts, Holds, QueueSim, AckSim;
    forall m | m in j.a.ready && lo <= Start(em, m) ensures Within(em, FragId(m, 0), lo) {
      assert InQueue(em, j.c.rcv.order, m, j.a.ready[m]);
      IndexBelowTotal(em, FragId(m, 0));
    }
  }

  lemma {:induction false} WindowedIsRoomy(evs: seq<Event>)
    requires forall k :: 0 <= k < |evs| ==> InWindow(RunBoth(evs[..k]), evs[k])
    ensures RoomyRun(evs)
  {
    if evs != [] {
      var front := evs[..|evs| - 1];
      forall k | 0 <= k < |front| ensures InWindow(RunBoth(front[..k]), front[k]) {
        assert front[..k] == evs[..k] && front[k] == evs[k];
      }
      WindowedIsRoomy(front);
      RunRefines(front);
      assert evs[..|front|] == front;
      WindowGivesRoom(RunBoth(front), evs[|evs| - 1]);
      hide Sim, Spec.Safe, Room, StepBoth, Step, InWindow;
      RoomyRunExtend(evs);
    }
  }
}
