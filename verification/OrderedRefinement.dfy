/** The 32-bit channel simulates the reference protocol as long as everything alive fits in one
    span of 2^32 numbers. */
module OrderedRefinement {
  import opened Seq32
  import opened Packets
  import opened Serialization
  import opened Reassembly
  import opened Numbering
  import opened Emissions
  import opened Channel
  import opened OrderedLink
  import Spec = OrderedSpec

  // ---- sending: everything recorded about old fragments survives a longer emission

  lemma QueueAppend(em: Emission, ds: seq<Datagram>, q: seq<Datagram>, out: seq<FragId>)
    requires QueueSim(em, q, out)
    ensures QueueSim(em + [ds], q, out)
  {
  }

  lemma InQueueAppend(em: Emission, ds: seq<Datagram>, order: map<u32, Entry>, m: nat, p: Packet)
    requires InQueue(em, order, m, p)
    ensures InQueue(em + [ds], order, m, p)
  {
  }

  lemma QueuedAppend(em: Emission, ds: seq<Datagram>, ready: map<nat, Packet>, k: u32)
    requires Queued(em, ready, k)
    ensures Queued(em + [ds], ready, k)
  {
    var m :| m in ready && Issued(em, FragId(m, 0)) && Head(em, m) == k;
    assert Head(em + [ds], m) == k;
  }

  lemma OrderAppend(em: Emission, ds: seq<Datagram>, order: map<u32, Entry>, ready: map<nat, Packet>)
    requires OrderSim(em, order, ready)
    ensures OrderSim(em + [ds], order, ready)
  {
    hide InQueue, Queued;
    forall m | m in ready ensures InQueue(em + [ds], order, m, ready[m]) {
      InQueueAppend(em, ds, order, m, ready[m]);
    }
    forall k | k in order ensures Queued(em + [ds], ready, k) {
      QueuedAppend(em, ds, ready, k);
    }
  }

  lemma AckAppend(em: Emission, ds: seq<Datagram>, acks: seq<u32>, ids: seq<FragId>, net: set<seq<FragId>>,
                  acked: set<FragId>)
    requires AckSim(em, acks, ids, net, acked)
    ensures AckSim(em + [ds], acks, ids, net, acked)
  {
  }

  lemma SendQueue(c: Sys, a: Spec.Spec, p: Packet, size: nat)
    requires EmissionSim(c, a) && QueueSim(c.em, c.snd.queue, a.outstanding) && size > 0
    ensures var c', a' := Step(c, Send(p, size)), Spec.Step(a, Spec.Send(p, |Fragments(p, size)|));
            QueueSim(c'.em, c'.snd.queue, a'.outstanding)
  {
    var fs := Fragments(p, size);
    var ds := Stamp(c.snd.next, fs);
    hide Stamped, Cuts;
    QueueAppend(c.em, ds, c.snd.queue, a.outstanding);
    var ids := Spec.PartsOf(|c.em|, |fs|);
    assert |c.em| == |a.sent|;
    assert forall i :: 0 <= i < |ids| ==> Issued(c.em + [ds], ids[i]) && ds[i] == At(c.em + [ds], ids[i]);
  }

  lemma SimSend(j: Joint, p: Packet, size: nat)
    requires Sim(j) && size > 0
    ensures Sim(StepBoth(j, Send(p, size)))
  {
    var c, a := j.c, j.a;
    var fs := Fragments(p, size);
    var ds := Stamp(c.snd.next, fs);
    StampedAppend(c.em, fs);
    CutsAppend(c.sent, c.em, p, size, c.snd.next);
    WrapSteps(Total(c.em), |fs|);
    SendQueue(c, a, p, size);
    HoldsAppend(c.em, ds, c.rcv.fragments, a.held);
    OrderAppend(c.em, ds, c.rcv.order, a.ready);
    AckAppend(c.em, ds, c.rcv.acks, c.ackIds, c.ackNet, a.acked);
    StartAppend(c.em, ds, |c.polled|);
    hide Stamped, Cuts, Holds, OrderSim, AckSim, QueueSim, Wrap, Fwd;
  }

  // ---- the receive thread

  lemma SimArrive(j: Joint, f: FragId)
    requires Sim(j)
    ensures Sim(StepBoth(j, Arrive(f)))
  {
    hide Stamped, Cuts, Holds, OrderSim, QueueSim, Wrap, Fwd, Start;
    assert Issued(j.c.em, f) <==> Spec.Sent(j.a, f);
  }

  lemma SimTest(j: Joint)
    requires Sim(j)
    ensures Sim(StepBoth(j, Test))
  {
    hide Stamped, Cuts, Holds, OrderSim, QueueSim, AckSim, Wrap, Fwd, Start, IsSequenceNewer;
  }

  lemma SimDispatch(j: Joint)
    requires Sim(j)
    ensures Sim(StepBoth(j, DispatchAcks))
  {
    hide Stamped, Cuts, Holds, OrderSim, QueueSim, Wrap, Fwd, Start;
    var first := FirstAcks(j.c.ackIds);
    assert forall f :: f in first ==> f in j.c.ackIds;
  }

  /** Adding a packet to the reorder queue, or finding it there, is the same on both sides. */
  lemma OrderInsert(em: Emission, order: map<u32, Entry>, ready: map<nat, Packet>, msg: nat, p: Packet, lo: int)
    requires Stamped(em) && OrderSim(em, order, ready) && Within(em, FragId(msg, 0), lo)
    requires forall m :: m in ready ==> Within(em, FragId(m, 0), lo)
    ensures OrderSim(em, AddEntry(order, Head(em, msg), Entry(p, Wrap(|em[msg]|))), Spec.AddReady(ready, msg, p))
  {
    var k := Head(em, msg);
    if k in order {
      assert Queued(em, ready, k);
      var m :| m in ready && Issued(em, FragId(m, 0)) && Head(em, m) == k;
      KeyInjective(em, FragId(m, 0), FragId(msg, 0), lo);
    } else {
      OrderInsertNew(em, order, ready, msg, p);
    }
  }

  lemma OrderInsertNew(em: Emission, order: map<u32, Entry>, ready: map<nat, Packet>, msg: nat, p: Packet)
    requires OrderSim(em, order, ready) && Issued(em, FragId(msg, 0)) && Head(em, msg) !in order
    ensures msg !in ready
    ensures OrderSim(em, order[Head(em, msg) := Entry(p, Wrap(|em[msg]|))], ready[msg := p])
  {
    var k := Head(em, msg);
    var order', ready' := order[k := Entry(p, Wrap(|em[msg]|))], ready[msg := p];
    hide Wrap;
    assert msg in ready ==> InQueue(em, order, msg, ready[msg]);
    forall m | m in ready' ensures InQueue(em, order', m, ready'[m]) {
      assert m in ready ==> InQueue(em, order, m, ready[m]);
    }
    forall k' | k' in order' ensures Queued(em, ready', k') {
      if k' in order {
        assert Queued(em, ready, k');
        var m :| m in ready && Issued(em, FragId(m, 0)) && Head(em, m) == k';
        assert m in ready';
      } else {
        assert msg in ready';
      }
    }
  }

  /** The receiver's side of the correspondence, on its own. */
  ghost predicate RcvSim(em: Emission, r: Receiver, held: set<FragId>, ready: map<nat, Packet>) {
    Holds(em, r.fragments, held) && OrderSim(em, r.order, ready)
  }

  ghost predicate RcvRoom(em: Emission, held: set<FragId>, ready: map<nat, Packet>, msg: nat, lo: int) {
    && PacketWithin(em, msg, lo)
    && (forall g :: g in held ==> Within(em, g, lo))
    && (forall m :: m in ready ==> Within(em, FragId(m, 0), lo))
  }

  lemma HeadWithin(em: Emission, f: FragId, lo: int)
    requires Issued(em, f) && PacketWithin(em, f.msg, lo)
    ensures Within(em, f, lo) && Within(em, FragId(f.msg, 0), lo)
  {
  }

  lemma InsertWhole(sent: seq<Packet>, em: Emission, r: Receiver, held: set<FragId>, ready: map<nat, Packet>,
                    f: FragId, lo: int)
    requires Stamped(em) && Cuts(sent, em) && RcvSim(em, r, held, ready) && Issued(em, f)
    requires RcvRoom(em, held, ready, f.msg, lo) && |em[f.msg]| == 1
    ensures RcvSim(em, Channel.Insert(r, At(em, f)), held, Spec.AddReady(ready, f.msg, sent[f.msg]))
  {
    OnePart(sent, em, f);
    HeadWithin(em, f, lo);
    OrderInsert(em, r.order, ready, f.msg, sent[f.msg], lo);
    WrapSmall(1);
    hide Wrap, Stamped, Cuts, Holds, OrderSim;
    assert f == FragId(f.msg, 0);
  }

  lemma InsertKnown(sent: seq<Packet>, em: Emission, r: Receiver, held: set<FragId>, ready: map<nat, Packet>,
                    f: FragId, lo: int)
    requires Stamped(em) && Cuts(sent, em) && RcvSim(em, r, held, ready) && Issued(em, f)
    requires RcvRoom(em, held, ready, f.msg, lo) && |em[f.msg]| != 1
    ensures Key(em, f) in r.fragments <==> f in held
    ensures f in held ==> Channel.Insert(r, At(em, f)) == r
  {
    OnePart(sent, em, f);
    HeadWithin(em, f, lo);
    HeldIffBuffered(em, r.fragments, held, f, lo);
  }

  lemma InsertPart(sent: seq<Packet>, em: Emission, r: Receiver, held: set<FragId>, ready: map<nat, Packet>,
                   f: FragId, lo: int)
    returns (donor: FragId)
    requires Stamped(em) && Cuts(sent, em) && RcvSim(em, r, held, ready) && Issued(em, f)
    requires RcvRoom(em, held, ready, f.msg, lo) && |em[f.msg]| != 1 && f !in held
    ensures donor in held + {f} && Issued(em, donor)
    ensures Complete(em, held + {f}, f.msg) ==> IsLowest(r.fragments[Key(em, f) := At(em, f).frag], Key(em, donor))
    ensures Complete(em, held + {f}, f.msg) ==>
              RcvSim(em, Channel.Insert(r, At(em, f)), Others(held + {f}, f.msg),
                     Spec.AddReady(ready, f.msg, Spec.Mixed(sent, donor.msg, f.msg)))
    ensures !Complete(em, held + {f}, f.msg) ==>
              RcvSim(em, Channel.Insert(r, At(em, f)), held + {f}, ready)
  {
    donor := f;
    InsertKnown(sent, em, r, held, ready, f, lo);
    OnePart(sent, em, f);
    HeadWithin(em, f, lo);
    HoldsInsert(em, r.fragments, held, f);
    var m, h := r.fragments[Key(em, f) := At(em, f).frag], held + {f};
    assert Roomy(em, h, f.msg, lo);
    hide Wrap, Back, Fwd, Stamped, Cuts, Holds, Reassemble, IsWhole, TakeRun, OrderSim;
    RunIffComplete(sent, em, m, h, f, lo);
    if Complete(em, h, f.msg) {
      var x: Reassembled;
      x, donor := Reassembles(sent, em, m, h, f, lo);
      OrderInsert(em, r.order, ready, f.msg, Spec.Mixed(sent, donor.msg, f.msg), lo);
    }
  }

  /** Both sides' insert, compared component by component. */
  lemma InsertSame(j: Joint, f: FragId, lo: int)
    requires Stamped(j.c.em) && Cuts(j.c.sent, j.c.em) && RcvSim(j.c.em, j.c.rcv, j.a.held, j.a.ready)
    requires j.a.hand == Spec.Passed(f) && j.c.hand.Passed? && Issued(j.c.em, f) && j.c.hand.d == At(j.c.em, f)
    requires RcvRoom(j.c.em, j.a.held, j.a.ready, f.msg, lo)
    requires Spec.Sent(j.a, f) && j.a.sent == j.c.sent && |j.a.sent| == |j.c.em| && j.a.parts[f.msg] == |j.c.em[f.msg]|
    ensures DonorOf(j) < |j.a.sent|
    ensures var a' := Spec.Inserted(j.a, f, DonorOf(j));
            RcvSim(j.c.em, Channel.Insert(j.c.rcv, j.c.hand.d), a'.held, a'.ready)
  {
    var c, a := j.c, j.a;
    hide Wrap, Back, Fwd, Stamped, Cuts, RcvSim, Channel.Insert, Start, RcvRoom, Others, DonorOf;
    DonorSmall(j);
    if |c.em[f.msg]| == 1 {
      InsertWhole(c.sent, c.em, c.rcv, a.held, a.ready, f, lo);
    } else {
      InsertKnown(c.sent, c.em, c.rcv, a.held, a.ready, f, lo);
      if f !in a.held {
        var donor := InsertPart(c.sent, c.em, c.rcv, a.held, a.ready, f, lo);
        assert Complete(c.em, a.held + {f}, f.msg) <==> Spec.Whole(a.parts[f.msg], a.held + {f}, f.msg);
        if Complete(c.em, a.held + {f}, f.msg) {
          DonorIs(j, f, donor, lo);
        }
      }
    }
  }

  lemma DonorSmall(j: Joint)
    requires 0 < |j.c.em|
    ensures DonorOf(j) < |j.c.em|
  {
    hide IsLowest;
  }

  lemma RcvRoomFrom(j: Joint, lo: int)
    requires RoomAt(j, Insert, lo) && j.a.hand.Passed?
    ensures RcvRoom(j.c.em, j.a.held, j.a.ready, j.a.hand.f.msg, lo)
  {
  }

  lemma SimFromRcv(j: Joint, r: Receiver, held: set<FragId>, ready: map<nat, Packet>)
    requires Sim(j) && RcvSim(j.c.em, r, held, ready)
    requires r.next == j.c.rcv.next && r.acks == j.c.rcv.acks
    ensures Sim(Joint(j.c.(hand := Idle, rcv := r), j.a.(hand := Spec.Idle, held := held, ready := ready)))
  {
    hide Wrap, Stamped, Cuts, Holds, OrderSim, QueueSim, AckSim, Start;
  }

  lemma InsertStepIs(j: Joint)
    requires j.c.hand.Passed? && j.a.hand.Passed? && Spec.Sent(j.a, j.a.hand.f) && DonorOf(j) < |j.a.sent|
    ensures var r, a' := Channel.Insert(j.c.rcv, j.c.hand.d), Spec.Inserted(j.a, j.a.hand.f, DonorOf(j));
            StepBoth(j, Insert) ==
            Joint(j.c.(hand := Idle, rcv := r), j.a.(hand := Spec.Idle, held := a'.held, ready := a'.ready))
  {
    hide Channel.Insert, DonorOf, Spec.Whole, Others, Spec.AddReady;
  }

  lemma SimInsert(j: Joint, lo: int)
    requires Sim(j) && Spec.Safe(j.a) && j.a.hand.Passed? && RoomAt(j, Insert, lo)
    ensures Sim(StepBoth(j, Insert))
  {
    var f := j.a.hand.f;
    RcvRoomFrom(j, lo);
    assert RcvSim(j.c.em, j.c.rcv, j.a.held, j.a.ready);
    hide Wrap, Stamped, Cuts, Holds, OrderSim, QueueSim, AckSim, Channel.Insert, Start, RoomAt, RcvRoom, DonorOf;
    hide Spec.BufferPartial, Spec.InOrder, Spec.Distinct, RcvSim, Spec.Inserted, StepBoth, Step, Spec.Step, MovesOf;
    InsertSame(j, f, lo);
    SameRest(j.c.rcv, j.c.hand.d);
    InsertStepIs(j);
    var a' := Spec.Inserted(j.a, f, DonorOf(j));
    SimFromRcv(j, Channel.Insert(j.c.rcv, j.c.hand.d), a'.held, a'.ready);
  }

  lemma SameRest(r: Receiver, d: Datagram)
    ensures Channel.Insert(r, d).next == r.next && Channel.Insert(r, d).acks == r.acks
  {
  }

  lemma DonorIs(j: Joint, f: FragId, donor: FragId, lo: int)
    requires j.a.hand == Spec.Passed(f) && j.c.hand.Passed? && Issued(j.c.em, f)
    requires Stamped(j.c.em) && RcvRoom(j.c.em, j.a.held, j.a.ready, f.msg, lo)
    requires donor in j.a.held + {f} && Issued(j.c.em, donor)
    requires IsLowest(j.c.rcv.fragments[j.c.hand.d.seqNo := j.c.hand.d.frag], Key(j.c.em, donor))
    ensures DonorOf(j) == donor.msg
  {
    var em := j.c.em;
    HeadWithin(em, f, lo);
    forall g | g in j.a.held + {f} && Issued(em, g)
               && IsLowest(j.c.rcv.fragments[j.c.hand.d.seqNo := j.c.hand.d.frag], Key(em, g))
      ensures g == donor
    {
      assert Key(em, g) == Key(em, donor);
      KeyInjective(em, g, donor, lo);
    }
  }

  // ---- polling and acks

  /** The key of the next expected number is queued exactly when that packet is ready. */
  lemma PollSame(c: Sys, ready: map<nat, Packet>, n: nat, lo: int)
    requires Stamped(c.em) && Cuts(c.sent, c.em) && OrderSim(c.em, c.rcv.order, ready)
    requires n <= |c.em| && c.rcv.next == Wrap(Start(c.em, n)) && lo <= Start(c.em, n) < lo + 0x1_0000_0000
    requires forall m :: m in ready ==> Within(c.em, FragId(m, 0), lo)
    ensures CanPoll(c.rcv) <==> n in ready
    ensures CanPoll(c.rcv) ==> InQueue(c.em, c.rcv.order, n, ready[n]) && Head(c.em, n) == c.rcv.next
  {
    if n < |c.em| {
      NonEmpty(c.sent, c.em, n);
      assert Index(c.em, FragId(n, 0)) == Start(c.em, n);
    }
    hide Wrap, Start, Cuts, Within, InQueue;
    if CanPoll(c.rcv) {
      assert Queued(c.em, ready, c.rcv.next);
      var m :| m in ready && Issued(c.em, FragId(m, 0)) && Head(c.em, m) == c.rcv.next;
      StartNames(c.em, m, n, lo);
    }
    if n in ready {
      assert InQueue(c.em, c.rcv.order, n, ready[n]);
      QueuedHead(c.em, c.rcv.order, n, ready[n]);
    }
  }

  lemma QueuedHead(em: Emission, order: map<u32, Entry>, n: nat, p: Packet)
    requires Stamped(em) && InQueue(em, order, n, p)
    ensures n < |em| && Issued(em, FragId(n, 0)) && Wrap(Start(em, n)) in order && Head(em, n) == Wrap(Start(em, n))
  {
    assert Index(em, FragId(n, 0)) == Start(em, n);
  }

  lemma StartNames(em: Emission, m: nat, n: nat, lo: int)
    requires Stamped(em) && Within(em, FragId(m, 0), lo) && n <= |em|
    requires n < |em| ==> |em[n]| >= 1
    requires lo <= Start(em, n) < lo + 0x1_0000_0000 && Head(em, m) == Wrap(Start(em, n))
    ensures m == n
  {
    assert Index(em, FragId(m, 0)) == Start(em, m);
    WrapInjective(lo, Start(em, m), Start(em, n));
    hide Wrap, Stamped;
    if n < m {
      StartMonotone(em, n, m);
    } else if m < n {
      StartMonotone(em, m, n);
    }
  }

  lemma OrderRemove(em: Emission, order: map<u32, Entry>, ready: map<nat, Packet>, n: nat, lo: int)
    requires Stamped(em) && OrderSim(em, order, ready) && n in ready
    requires forall m :: m in ready ==> Within(em, FragId(m, 0), lo)
    ensures Issued(em, FragId(n, 0)) && OrderSim(em, order - {Head(em, n)}, ready - {n})
  {
    var order', ready' := order - {Head(em, n)}, ready - {n};
    hide Wrap, Stamped;
    forall m | m in ready' ensures InQueue(em, order', m, ready'[m]) {
      assert InQueue(em, order, m, ready[m]);
      if Head(em, m) == Head(em, n) {
        KeyInjective(em, FragId(m, 0), FragId(n, 0), lo);
      }
    }
    forall k | k in order' ensures Queued(em, ready', k) {
      assert Queued(em, ready, k);
      var m :| m in ready && Issued(em, FragId(m, 0)) && Head(em, m) == k;
      assert m in ready';
    }
  }

  lemma SimPoll(j: Joint, lo: int)
    requires Sim(j) && Spec.Safe(j.a) && RoomAt(j, Poll, lo)
    ensures Sim(StepBoth(j, Poll))
  {
    var c, a, n := j.c, j.a, |j.a.polled|;
    hide Wrap, Fwd, Stamped, Cuts, Holds, OrderSim, QueueSim, AckSim, Start, Within;
    hide Spec.BufferPartial, Spec.InOrder, Spec.Distinct, Spec.Shaped;
    PollSame(c, a.ready, n, lo);
    if CanPoll(c.rcv) {
      OrderRemove(c.em, c.rcv.order, a.ready, n, lo);
      NextStart(c.em, n);
    }
  }

  lemma NextStart(em: Emission, n: nat)
    requires n < |em|
    ensures Fwd(Wrap(Start(em, n)), Wrap(|em[n]|)) == Wrap(Start(em, n + 1))
  {
    WrapFwd(Start(em, n), |em[n]|);
  }

  lemma WrapFwd(n: int, i: int)
    ensures Fwd(Wrap(n), Wrap(i)) == Wrap(n + i)
  {
  }

  lemma {:induction false} RemoveFirstSim(em: Emission, q: seq<Datagram>, out: seq<FragId>, f: FragId, lo: int)
    requires Stamped(em) && QueueSim(em, q, out) && Within(em, f, lo)
    requires forall g :: g in out ==> Within(em, g, lo)
    ensures QueueSim(em, RemoveFirst(q, Key(em, f)), Spec.Without(out, f))
    ensures forall g :: g in Spec.Without(out, f) ==> Within(em, g, lo)
  {
    hide Wrap, Stamped;
    if q != [] {
      if q[0].seqNo == Key(em, f) {
        KeyInjective(em, out[0], f, lo);
      } else {
        RemoveFirstSim(em, q[1..], out[1..], f, lo);
      }
    }
  }

  lemma {:induction false} RemoveAllSim(em: Emission, q: seq<Datagram>, out: seq<FragId>, ids: seq<FragId>, lo: int)
    requires Stamped(em) && QueueSim(em, q, out)
    requires forall g :: g in out ==> Within(em, g, lo)
    requires forall g :: g in ids ==> Issued(em, g) && Within(em, g, lo)
    ensures QueueSim(em, RemoveAll(q, KeysOf(em, ids)), Spec.WithoutAll(out, ids))
    decreases |ids|
  {
    hide Wrap, Stamped;
    if ids != [] {
      assert ids[0] in ids;
      RemoveFirstSim(em, q, out, ids[0], lo);
      hide QueueSim, Within;
      assert KeysOf(em, ids)[1..] == KeysOf(em, ids[1..]);
      RemoveAllSim(em, RemoveFirst(q, Key(em, ids[0])), Spec.Without(out, ids[0]), ids[1..], lo);
    }
  }

  lemma SimAcks(j: Joint, ids: seq<FragId>, lo: int)
    requires Sim(j) && RoomAt(j, AcksArrive(ids), lo)
    ensures Sim(StepBoth(j, AcksArrive(ids)))
  {
    var c, a := j.c, j.a;
    hide Wrap, Fwd, Stamped, Cuts, Holds, OrderSim, QueueSim, Within, Start;
    if ids in c.ackNet {
      assert forall f :: f in ids ==> f in a.acked && Issued(c.em, f);
      RemoveAllSim(c.em, c.snd.queue, a.outstanding, ids, lo);
    }
  }

  /** Refinement, one step: with room, the 32-bit state after the event is the image of the
      reference state after the corresponding move. */
  lemma SimStep(j: Joint, ev: Event)
    requires Sim(j) && Spec.Safe(j.a) && Room(j, ev)
    ensures Sim(StepBoth(j, ev))
  {
    var lo :| RoomAt(j, ev, lo);
    match ev
    case Send(p, size) => if size > 0 { SimSend(j, p, size); }
    case Arrive(f) => SimArrive(j, f);
    case Test => SimTest(j);
    case Insert =>
      if j.a.hand.Passed? { SimInsert(j, lo); }
    case Poll => SimPoll(j, lo);
    case DispatchAcks => SimDispatch(j);
    case AcksArrive(ids) => SimAcks(j, ids, lo);
  }

  /** A receive without interruption: ack, newness test and insert in one go. */
  lemma ReceiveInThree(k: Sys, f: FragId)
    requires k.hand.Idle? && Issued(k.em, f)
    ensures var k' := Step(Step(Step(k, Event.Arrive(f)), Event.Test), Event.Insert);
            k' == k.(rcv := Channel.Receive(k.rcv, At(k.em, f)), ackIds := k'.ackIds)
  {
    hide Channel.Insert, IsSequenceNewer;
  }
}
