/** When exactly a confirmed delivery ticket is true, and how soon it becomes true. */
module OrderedTickets {
  import opened Seq32
  import opened Numbering
  import opened Channel
  import opened OrderedLink
  import opened OrderedRefinement
  import opened OrderedTheorems
  import opened OrderedDelivery
  import opened OrderedLoss
  import opened Progress
  import Spec = OrderedSpec

  /** isPacketDelivered answers yes for the ticket of packet m. */
  predicate Confirmed(c: Sys, m: nat) {
    Issued(c.em, FragId(m, 0)) && IsPacketDelivered(c.snd.queue, Head(c.em, m), |c.em[m]|)
  }

  /** The peer has polled the packet or holds it whole in its reorder queue. */
  ghost predicate Delivered(c: Sys, m: nat) {
    m < |c.polled| || Waiting(c, m)
  }

  // ---- how soon

  lemma TestInsert(c: Sys)
    ensures var c' := RunFrom(c, [Test, Insert]);
            c'.hand.Idle? && c'.snd == c.snd && c'.em == c.em && c'.sent == c.sent
  {
    var c1 := Step(c, Test);
    var c2 := Step(c1, Insert);
    assert RunFrom(c, [Test, Insert]) == RunFrom(c1, [Insert]) == RunFrom(c2, []);
  }

  /** A ticket confirmed too early comes true as soon as the receive thread has finished the
      datagram it is busy with. */
  lemma TicketSoonTrue(evs: seq<Event>, m: nat)
    requires Total(Run(evs).em) < 0x1_0000_0000 && Bounded(evs)
    requires m < |Run(evs).sent| && Confirmed(Run(evs), m)
    ensures Delivered(Run(evs + [Test, Insert]), m)
  {
    hide Run, Bounded, Total, RoomyRun, IsPacketDelivered, Waiting;
    BoundedExtend(evs, [Test, Insert]);
    FewNumbersAreRoomy(evs + [Test, Insert]);
    RunThen(evs, [Test, Insert]);
    TestInsert(Run(evs));
    TicketAtRest(evs + [Test, Insert], m);
  }

  // ---- exactly when

  /** The fragments inserted so far. */
  ghost function Filed(evs: seq<Event>): set<FragId> {
    if evs == [] then {}
    else
      var j := RunBoth(evs[..|evs| - 1]);
      Filed(evs[..|evs| - 1]) + if evs[|evs| - 1].Insert? && j.a.hand.Passed? then {j.a.hand.f} else {}
  }

  /** What was inserted is delivered with its packet or still buffered; what is buffered or delivered
      was inserted, every part of it. */
  ghost predicate FiledInv(a: Spec.Spec, filed: set<FragId>) {
    && (forall f :: f in filed ==> f.msg < |a.polled| || f.msg in a.ready || f in a.held)
    && (forall f :: f in a.held ==> f in filed)
    && (forall f :: Spec.Sent(a, f) && (f.msg < |a.polled| || f.msg in a.ready) ==> f in filed)
  }

  lemma FiledInsert(a: Spec.Spec, filed: set<FragId>, donor: nat)
    requires Spec.Safe(a) && FiledInv(a, filed) && a.hand.Passed? && Spec.Sent(a, a.hand.f) && donor < |a.sent|
    ensures FiledInv(Spec.Inserted(a, a.hand.f, donor), filed + {a.hand.f})
  {
    var f := a.hand.f;
    hide Spec.Mixed, Spec.InOrder, Spec.BufferPartial, Spec.Distinct;
    if Spec.Whole(a.parts[f.msg], a.held + {f}, f.msg) {
      forall g | Spec.Sent(a, g) && g.msg == f.msg ensures g in filed + {f} {
        assert FragId(f.msg, g.part) in a.held + {f};
      }
    }
  }

  lemma FiledRest(a: Spec.Spec, filed: set<FragId>, mv: Spec.Move)
    requires Spec.Safe(a) && FiledInv(a, filed) && !mv.Insert?
    ensures FiledInv(Spec.Step(a, mv), filed)
  {
    hide Spec.BufferPartial, Spec.Distinct, Spec.WithoutAll, Spec.PartsOf, Spec.Mixed;
    var a' := Spec.Step(a, mv);
    forall f | Spec.Sent(a', f) && (f.msg < |a'.polled| || f.msg in a'.ready) ensures f in filed {
      if mv.Send? {
        assert f.msg < |a.sent|;
      }
      assert Spec.Sent(a, f);
    }
  }

  lemma FiledStep(j: Joint, ev: Event, filed: set<FragId>)
    requires Sim(j) && Spec.Safe(j.a) && FiledInv(j.a, filed)
    ensures FiledInv(StepBoth(j, ev).a, filed + if ev.Insert? && j.a.hand.Passed? then {j.a.hand.f} else {})
  {
    var mv := MovesOf(j, ev);
    hide Sim, Spec.Safe, FiledInv, Spec.Inserted, DonorOf;
    assert filed + {} == filed;
    if mv.Some? && !mv.value.Insert? {
      FiledRest(j.a, filed, mv.value);
    } else if ev.Insert? && j.a.hand.Passed? {
      HandIsSent(j);
      FiledInsert(j.a, filed, DonorOf(j));
      HandDoesNotMatter(Spec.Inserted(j.a, j.a.hand.f, DonorOf(j)), filed + {j.a.hand.f});
    }
  }

  lemma HandIsSent(j: Joint)
    requires Sim(j) && Spec.Safe(j.a) && j.a.hand.Passed?
    ensures Spec.Sent(j.a, j.a.hand.f) && DonorOf(j) < |j.a.sent|
  {
    DonorSmall(j);
    hide DonorOf;
  }

  lemma HandDoesNotMatter(a: Spec.Spec, filed: set<FragId>)
    requires FiledInv(a, filed)
    ensures FiledInv(a.(hand := Spec.Idle), filed)
  {
    assert forall f :: Spec.Sent(a.(hand := Spec.Idle), f) ==> Spec.Sent(a, f);
  }

  lemma {:induction false} RunFiled(evs: seq<Event>)
    requires RoomyRun(evs)
    ensures FiledInv(RunBoth(evs).a, Filed(evs))
  {
    if evs != [] {
      var front := evs[..|evs| - 1];
      RoomyRunPrefix(evs);
      RunFiled(front);
      RunRefines(front);
      hide Sim, Spec.Safe, FiledInv, StepBoth, Step, RoomyRun, Room;
      FiledStep(RunBoth(front), evs[|evs| - 1], Filed(front));
    }
  }

  /** Everything of packet m is acked; then it is delivered exactly if the hand holds no fragment of
      it that was never inserted. */
  lemma AckedIsTrueExactlyWhen(a: Spec.Spec, m: nat, filed: set<FragId>)
    requires Spec.Safe(a) && Spec.Kept(a) && FiledInv(a, filed) && m < |a.sent|
    requires forall i :: 0 <= i < a.parts[m] ==> FragId(m, i) !in a.outstanding
    ensures (m < |a.polled| || m in a.ready) <==> !(!a.hand.Idle? && a.hand.f.msg == m && a.hand.f !in filed)
  {
    hide Spec.Distinct, Spec.InOrder, Spec.Matches;
    if !(m < |a.polled| || m in a.ready) {
      assert !Spec.Whole(a.parts[m], a.held, m);
      var i :| 0 <= i < a.parts[m] && FragId(m, i) !in a.held;
      assert Spec.Sent(a, FragId(m, i));
      assert Spec.OnItsWay(a, FragId(m, i));
    }
  }

  lemma DeliveredIs(j: Joint, m: nat)
    requires Sim(j) && Spec.Safe(j.a) && Total(j.c.em) < 0x1_0000_0000
    ensures Delivered(j.c, m) <==> m < |j.a.polled| || m in j.a.ready
  {
    PolledIs(j);
    hide Sim, Spec.Safe, Waiting;
    if m in j.a.ready {
      ReadyIsWaiting(j, m);
    }
    if Waiting(j.c, m) {
      WaitingIsReady(j, m);
    }
  }

  lemma PolledIs(j: Joint)
    requires Sim(j)
    ensures |j.a.polled| == |j.c.polled| && |j.a.sent| == |j.c.sent| == |j.c.em| == |j.a.parts|
    ensures forall m :: 0 <= m < |j.c.em| ==> j.a.parts[m] == |j.c.em[m]|
  {
    hide Wrap, Cuts, Stamped, Holds, OrderSim, QueueSim, AckSim, HandSim;
  }

  lemma WaitingIsReady(j: Joint, m: nat)
    requires Sim(j) && Total(j.c.em) < 0x1_0000_0000 && Waiting(j.c, m)
    ensures m in j.a.ready
  {
    hide Sim;
    var k := ReadyOwner(j, Head(j.c.em, m));
    SameKeySame(j, FragId(m, 0), FragId(k, 0));
  }

  lemma InHandIs(j: Joint, f: FragId)
    requires Sim(j) && Total(j.c.em) < 0x1_0000_0000
    ensures InHand(j.c, f) <==> !j.a.hand.Idle? && j.a.hand.f == f
  {
    HandIs(j);
    hide Sim;
    if InHand(j.c, f) {
      SameKeySame(j, f, j.a.hand.f);
    }
  }

  /** A confirmed ticket is true exactly if the receive thread is not busy with a fragment of that
      packet that it never inserted before. */
  lemma TicketTrueExactlyWhen(evs: seq<Event>, m: nat)
    requires Total(Run(evs).em) < 0x1_0000_0000 && Bounded(evs)
    requires m < |Run(evs).sent| && Confirmed(Run(evs), m)
    ensures Delivered(Run(evs), m) <==> !exists i :: InHand(Run(evs), FragId(m, i)) && FragId(m, i) !in Filed(evs)
  {
    FewNumbersAreRoomy(evs);
    RunRefines(evs);
    RunKeeps(evs);
    RunFiled(evs);
    var j := RunBoth(evs);
    TicketCovers(j, m);
    PolledIs(j);
    hide Run, RunBoth, Filed, FiledInv, Sim, Spec.Safe, Spec.Kept, InHand, Delivered, Bounded, RoomyRun,
         IsPacketDelivered;
    AckedIsTrueExactlyWhen(j.a, m, Filed(evs));
    DeliveredIs(j, m);
    forall i ensures InHand(j.c, FragId(m, i)) <==> !j.a.hand.Idle? && j.a.hand.f == FragId(m, i) {
      InHandIs(j, FragId(m, i));
    }
    assert !j.a.hand.Idle? && j.a.hand.f.msg == m ==> j.a.hand.f == FragId(m, j.a.hand.f.part);
  }
}
