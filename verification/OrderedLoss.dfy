/** Beyond a backlog of 2^31 numbers the reliable-ordered channel loses fragments: exactly then the
    newness test turns away what is still wanted, after it was acked. */
module OrderedLoss {
  import opened Seq32
  import opened Packets
  import opened Serialization
  import opened Numbering
  import opened Channel
  import opened OrderedLink
  import opened OrderedRefinement
  import opened OrderedTheorems
  import opened OrderedDelivery
  import opened Progress
  import Spec = OrderedSpec

  const HALF: nat := 0x8000_0000

  // ---- the newness test

  /** The fragment a given number of numbers into the stream. */
  lemma {:induction false} FragmentAt(em: Emission, x: nat) returns (f: FragId)
    requires x < Total(em)
    ensures Issued(em, f) && Index(em, f) == x
  {
    var front, last := em[..|em| - 1], em[|em| - 1];
    assert em == front + [last];
    StartAppend(front, last, |front|);
    if x < Total(front) {
      f := FragmentAt(front, x);
      IssuedAppend(front, last, f);
    } else {
      f := FragId(|front|, x - Total(front));
    }
  }

  lemma FarMessage(em: Emission, f: FragId, n: nat)
    requires Issued(em, f) && n <= |em| && Index(em, f) >= Start(em, n)
    ensures f.msg >= n
  {
    if f.msg < n {
      StartMonotone(em, f.msg, n);
    }
  }

  /** Up to 2^32 - 1 ahead, newer means less than 2^31 ahead. */
  lemma NewerIsNear(i: int, n: int)
    requires 0 <= i - n < 0x1_0000_0000
    ensures IsSequenceNewer(Wrap(i), Wrap(n)) <==> i - n < HALF
  {
    WrapMinus(i, n);
    WrapSmall(i - n);
  }

  lemma SimNumbers(j: Joint)
    requires Sim(j)
    ensures |j.c.polled| <= |j.c.em| && j.c.rcv.next == Wrap(Start(j.c.em, |j.c.polled|))
    ensures forall f :: Issued(j.c.em, f) ==> Key(j.c.em, f) == Wrap(Index(j.c.em, f))
  {
    hide Wrap, Cuts, Holds, OrderSim, QueueSim, AckSim, HandSim;
  }

  /** Every fragment still wanted passes the newness test exactly while the backlog is bounded. */
  lemma WantedPassesExactlyWhen(j: Joint)
    requires Sim(j)
    ensures (forall f :: Issued(j.c.em, f) && f.msg >= |j.c.polled| ==> IsSequenceNewer(Key(j.c.em, f), j.c.rcv.next))
            <==> Backlog(j.c)
  {
    var em, n := j.c.em, |j.c.polled|;
    SimNumbers(j);
    hide Sim, IsSequenceNewer, Wrap;
    if Backlog(j.c) {
      forall f | Issued(em, f) && f.msg >= n ensures IsSequenceNewer(Key(em, f), j.c.rcv.next) {
        IndexBelowTotal(em, f);
        if n < f.msg {
          StartMonotone(em, n, f.msg);
        }
        NewerIsNear(Index(em, f), Start(em, n));
      }
    } else {
      var f := FragmentAt(em, Start(em, n) + HALF);
      FarMessage(em, f, n);
      NewerIsNear(Index(em, f), Start(em, n));
    }
  }

  // ---- nothing far ahead is ever accepted

  predicate NearBy(em: Emission, n: nat, f: FragId) {
    n <= |em| && Issued(em, f) && Index(em, f) < Start(em, n) + HALF
  }

  predicate NearPacket(em: Emission, n: nat, m: nat) {
    n <= |em| && m < |em| && Start(em, m) + |em[m]| <= Start(em, n) + HALF
  }

  /** What was accepted lies less than 2^31 numbers ahead of the next expected one. */
  ghost predicate Near(j: Joint) {
    var em, n := j.c.em, |j.c.polled|;
    && (forall f :: f in j.a.held ==> NearBy(em, n, f))
    && (forall m :: m in j.a.ready ==> NearPacket(em, n, m))
    && (j.a.hand.Passed? ==> NearBy(em, n, j.a.hand.f))
  }

  lemma NearAppend(em: Emission, ds: seq<Datagram>, n: nat, f: FragId)
    requires NearBy(em, n, f)
    ensures NearBy(em + [ds], n, f)
  {
    IssuedAppend(em, ds, f);
    StartAppend(em, ds, n);
  }

  lemma NearPacketAppend(em: Emission, ds: seq<Datagram>, n: nat, m: nat)
    requires NearPacket(em, n, m)
    ensures NearPacket(em + [ds], n, m)
  {
    StartAppend(em, ds, m);
    StartAppend(em, ds, n);
  }

  lemma NearSend(j: Joint, p: Packet, size: nat)
    requires Near(j) && size > 0
    ensures Near(StepBoth(j, Send(p, size)))
  {
    var em, n, ds := j.c.em, |j.c.polled|, Stamp(j.c.snd.next, Fragments(p, size));
    hide NearBy, NearPacket, Stamp, Fragments;
    forall f | f in j.a.held || (j.a.hand.Passed? && f == j.a.hand.f) ensures NearBy(em + [ds], n, f) {
      NearAppend(em, ds, n, f);
    }
    forall m | m in j.a.ready ensures NearPacket(em + [ds], n, m) {
      NearPacketAppend(em, ds, n, m);
    }
  }

  lemma NearTest(j: Joint)
    requires Near(j) && Sim(j) && Total(j.c.em) < 0x1_0000_0000
    ensures Near(StepBoth(j, Test))
  {
    SimNumbers(j);
    HandIs(j);
    hide Sim, IsSequenceNewer, Wrap;
    if j.c.hand.Arrived? && IsSequenceNewer(j.c.hand.d.seqNo, j.c.rcv.next) {
      var em, f, n := j.c.em, j.a.hand.f, |j.c.polled|;
      IndexBelowTotal(em, f);
      if Index(em, f) >= Start(em, n) {
        NewerIsNear(Index(em, f), Start(em, n));
      }
      assert NearBy(em, n, f);
    }
  }

  lemma HandIs(j: Joint)
    requires Sim(j)
    ensures j.c.hand.Arrived? <==> j.a.hand.Arrived?
    ensures j.c.hand.Passed? <==> j.a.hand.Passed?
    ensures !j.c.hand.Idle? ==> Issued(j.c.em, j.a.hand.f) && j.c.hand.d == At(j.c.em, j.a.hand.f)
  {
    hide Wrap, Cuts, Stamped, Holds, OrderSim, QueueSim, AckSim;
  }

  lemma PartsNear(em: Emission, n: nat, m: nat)
    requires m < |em| && |em[m]| > 0 && NearBy(em, n, FragId(m, |em[m]| - 1))
    ensures NearPacket(em, n, m)
  {
  }

  lemma LastPartNear(j: Joint)
    requires Near(j) && Sim(j) && j.a.hand.Passed? && Spec.Sent(j.a, j.a.hand.f)
    requires var m := j.a.hand.f.msg;
             j.a.parts[m] == 1 || Spec.Whole(j.a.parts[m], j.a.held + {j.a.hand.f}, m)
    ensures NearPacket(j.c.em, |j.c.polled|, j.a.hand.f.msg)
  {
    var em, n, f := j.c.em, |j.c.polled|, j.a.hand.f;
    assert |em[f.msg]| == j.a.parts[f.msg];
    var last := FragId(f.msg, |em[f.msg]| - 1);
    hide Sim, NearBy, NearPacket;
    assert last == f || last in j.a.held;
    PartsNear(em, n, f.msg);
  }

  lemma NearInserted(j: Joint, donor: nat)
    requires Near(j) && Sim(j) && j.a.hand.Passed? && Spec.Sent(j.a, j.a.hand.f) && donor < |j.a.sent|
    ensures var a', em, n := Spec.Inserted(j.a, j.a.hand.f, donor), j.c.em, |j.c.polled|;
            && (forall f :: f in a'.held ==> NearBy(em, n, f))
            && (forall m :: m in a'.ready ==> NearPacket(em, n, m))
  {
    var m := j.a.hand.f.msg;
    if j.a.parts[m] == 1 || Spec.Whole(j.a.parts[m], j.a.held + {j.a.hand.f}, m) {
      LastPartNear(j);
    }
    InsertedFrom(j.a, j.a.hand.f, donor);
    hide Sim, NearBy, NearPacket, Spec.Whole, Spec.Inserted;
  }

  /** An insert brings in no more than the fragment and, if that completes it, its packet. */
  lemma InsertedFrom(a: Spec.Spec, f: FragId, donor: nat)
    requires Spec.Sent(a, f) && donor < |a.sent|
    ensures forall g :: g in Spec.Inserted(a, f, donor).held ==> g in a.held || g == f
    ensures forall m :: m in Spec.Inserted(a, f, donor).ready ==>
              m in a.ready || (m == f.msg && (a.parts[m] == 1 || Spec.Whole(a.parts[m], a.held + {f}, m)))
  {
    hide Spec.Whole, Spec.Mixed;
  }

  /** Whatever takes things out of the buffers, or polls, keeps the rest near. */
  lemma NearMove(j: Joint, j': Joint)
    requires Near(j) && j'.c.em == j.c.em && |j.c.polled| <= |j'.c.polled| <= |j.c.em|
    requires forall f :: f in j'.a.held ==> f in j.a.held
    requires forall m :: m in j'.a.ready ==> m in j.a.ready
    requires j'.a.hand.Passed? ==> j'.a.hand == j.a.hand
    ensures Near(j')
  {
    var em, n, n' := j.c.em, |j.c.polled|, |j'.c.polled|;
    if n < n' {
      StartMonotone(em, n, n');
    }
  }

  lemma NearInsert(j: Joint)
    requires Near(j) && Sim(j)
    ensures Near(StepBoth(j, Insert))
  {
    hide Spec.Inserted, Channel.Insert, NearBy, NearPacket, Sim, DonorOf;
    if j.a.hand.Passed? && Spec.Sent(j.a, j.a.hand.f) && DonorOf(j) < |j.a.sent| {
      NearInserted(j, DonorOf(j));
    }
  }

  lemma RestMoves(j: Joint, ev: Event)
    requires ev.Arrive? || ev.Poll? || ev.DispatchAcks? || ev.AcksArrive?
    ensures var j' := StepBoth(j, ev);
            && j'.c.em == j.c.em && |j.c.polled| <= |j'.c.polled|
            && (forall f :: f in j'.a.held ==> f in j.a.held)
            && (forall m :: m in j'.a.ready ==> m in j.a.ready)
            && (j'.a.hand.Passed? ==> j'.a.hand == j.a.hand)
  {
    hide RemoveAll, Spec.WithoutAll, FirstAcks;
  }

  lemma NearStep(j: Joint, ev: Event)
    requires Near(j) && Sim(j) && Spec.Safe(j.a) && Total(j.c.em) < 0x1_0000_0000
    ensures Near(StepBoth(j, ev))
  {
    RoomBelow32(j, ev);
    SimStep(j, ev);
    SimNumbers(StepBoth(j, ev));
    hide Near, Sim, Spec.Safe, RoomAt, StepBoth;
    match ev
    case Send(p, size) =>
      if size > 0 {
        NearSend(j, p, size);
      } else {
        NoSend(j, p);
      }
    case Test => NearTest(j);
    case Insert => NearInsert(j);
    case _ =>
      RestMoves(j, ev);
      NearMove(j, StepBoth(j, ev));
  }

  lemma NoSend(j: Joint, p: Packet)
    ensures StepBoth(j, Send(p, 0)) == j
  {
  }

  lemma {:induction false} RunIsNear(evs: seq<Event>)
    requires Total(Run(evs).em) < 0x1_0000_0000
    ensures Near(RunBoth(evs)) && Sim(RunBoth(evs)) && Spec.Safe(RunBoth(evs).a) && RunBoth(evs).c == Run(evs)
  {
    FewNumbersAreRoomy(evs);
    RunRefines(evs);
    if evs != [] {
      var front := evs[..|evs| - 1];
      TotalGrows(Run(front), evs[|evs| - 1]);
      RunIsNear(front);
      hide Near, Sim, Spec.Safe, StepBoth, Step, Total;
      NearStep(RunBoth(front), evs[|evs| - 1]);
    }
  }

  // ---- loss

  /** The fragment is at neither end: not queued for retransmission, not polled, not waiting with
      its packet, not buffered, and not in the receive thread's hand. */
  ghost predicate Lost(c: Sys, f: FragId) {
    && Issued(c.em, f) && At(c.em, f) !in c.snd.queue
    && !Polled(c, f) && !Waiting(c, f.msg) && !Buffered(c, f) && !InHand(c, f)
  }

  lemma FarIsNotThere(j: Joint, f: FragId)
    requires Near(j) && Sim(j) && Spec.Safe(j.a) && Total(j.c.em) < 0x1_0000_0000
    requires Issued(j.c.em, f) && Index(j.c.em, f) == Start(j.c.em, |j.c.polled|) + HALF
    ensures !Polled(j.c, f) && Key(j.c.em, f) !in j.c.rcv.fragments
    ensures Issued(j.c.em, FragId(f.msg, 0)) && Head(j.c.em, f.msg) !in j.c.rcv.order
    ensures !IsSequenceNewer(Key(j.c.em, f), j.c.rcv.next)
  {
    var em, n := j.c.em, |j.c.polled|;
    SimNumbers(j);
    FarMessage(em, f, n);
    NewerIsNear(Index(em, f), Start(em, n));
    IndexBelowTotal(em, f);
    hide Wrap, IsSequenceNewer;
    BufferedIsNear(j, f);
    WaitingIsNear(j, f.msg);
  }

  lemma BufferedIsNear(j: Joint, f: FragId)
    requires Near(j) && Sim(j) && Total(j.c.em) < 0x1_0000_0000 && Issued(j.c.em, f)
    ensures Key(j.c.em, f) in j.c.rcv.fragments ==> NearBy(j.c.em, |j.c.polled|, f)
  {
    hide Sim, NearBy;
    if Key(j.c.em, f) in j.c.rcv.fragments {
      var g := HeldOwner(j, Key(j.c.em, f));
      SameKeySame(j, f, g);
    }
  }

  lemma WaitingIsNear(j: Joint, m: nat)
    requires Near(j) && Sim(j) && Total(j.c.em) < 0x1_0000_0000 && Issued(j.c.em, FragId(m, 0))
    ensures Head(j.c.em, m) in j.c.rcv.order ==> NearPacket(j.c.em, |j.c.polled|, m)
  {
    hide Sim, NearPacket;
    if Head(j.c.em, m) in j.c.rcv.order {
      var k := ReadyOwner(j, Head(j.c.em, m));
      SameKeySame(j, FragId(m, 0), FragId(k, 0));
    }
  }

  lemma HeldOwner(j: Joint, k: u32) returns (g: FragId)
    requires Sim(j) && k in j.c.rcv.fragments
    ensures g in j.a.held && Issued(j.c.em, g) && Key(j.c.em, g) == k
  {
    hide Wrap, Cuts, Stamped, OrderSim, QueueSim, AckSim;
    assert Owned(j.c.em, j.a.held, k);
    g :| g in j.a.held && Issued(j.c.em, g) && Key(j.c.em, g) == k;
  }

  lemma ReadyOwner(j: Joint, k: u32) returns (m: nat)
    requires Sim(j) && k in j.c.rcv.order
    ensures m in j.a.ready && Issued(j.c.em, FragId(m, 0)) && Head(j.c.em, m) == k
  {
    hide Wrap, Cuts, Stamped, Holds, QueueSim, AckSim;
    assert Queued(j.c.em, j.a.ready, k);
    m :| m in j.a.ready && Issued(j.c.em, FragId(m, 0)) && Head(j.c.em, m) == k;
  }

  lemma SameKeySame(j: Joint, f: FragId, g: FragId)
    requires Sim(j) && Total(j.c.em) < 0x1_0000_0000
    requires Issued(j.c.em, f) && Issued(j.c.em, g) && Key(j.c.em, f) == Key(j.c.em, g)
    ensures f == g
  {
    hide Cuts, Holds, OrderSim, QueueSim, AckSim;
    IndexBelowTotal(j.c.em, f);
    IndexBelowTotal(j.c.em, g);
    KeyInjective(j.c.em, f, g, 0);
  }

  /** The receive thread finishes, pending acks go out, then a datagram comes in and is acked, and
      the ack arrives. */
  function LosingEvents(f: FragId): seq<Event> {
    SETTLE + [Arrive(f), Test, DispatchAcks, AcksArrive([f])]
  }

  lemma TurnedAway(c: Sys, f: FragId)
    requires Issued(c.em, f) && AtRest(c) && !IsSequenceNewer(Key(c.em, f), c.rcv.next)
    ensures var c' := RunFrom(c, [Arrive(f), Test, DispatchAcks, AcksArrive([f])]);
            && c' == c.(snd := c.snd.(queue := RemoveFirst(c.snd.queue, Key(c.em, f))), ackNet := c'.ackNet)
  {
    hide IsSequenceNewer, RemoveFirst;
    var c1 := Step(c, Arrive(f));
    var c2 := Step(c1, Test);
    var c3 := Step(c2, DispatchAcks);
    assert c1.ackIds == [f] && FirstAcks([f]) == [f];
    assert KeysOf(c3.em, [f]) == [Key(c.em, f)];
    var c4 := Step(c3, AcksArrive([f]));
    assert RemoveAll(c.snd.queue, [Key(c.em, f)]) == RemoveFirst(c.snd.queue, Key(c.em, f)) by {
      assert [Key(c.em, f)][1..] == [];
    }
    assert RunFrom(c, [Arrive(f), Test, DispatchAcks, AcksArrive([f])])
        == RunFrom(c1, [Test, DispatchAcks, AcksArrive([f])])
        == RunFrom(c2, [DispatchAcks, AcksArrive([f])]) == RunFrom(c3, [AcksArrive([f])]) == RunFrom(c4, []);
  }

  lemma {:induction false} FirstIsOnly(q: seq<Datagram>, n: u32, d: Datagram)
    requires forall i, k :: 0 <= i < k < |q| ==> q[i].seqNo != q[k].seqNo
    requires d.seqNo == n
    ensures d !in RemoveFirst(q, n)
  {
    if q != [] {
      if q[0].seqNo == n {
        assert forall k :: 0 <= k < |q[1..]| ==> q[1..][k] == q[k + 1];
      } else {
        FirstIsOnly(q[1..], n, d);
      }
    }
  }

  lemma QueueKeysDiffer(j: Joint)
    requires Sim(j) && Spec.Safe(j.a) && Total(j.c.em) < 0x1_0000_0000
    ensures var q := j.c.snd.queue; forall i, k :: 0 <= i < k < |q| ==> q[i].seqNo != q[k].seqNo
  {
    OutstandingIsNamed(j);
    hide Sim, Spec.Safe;
    assert forall i :: 0 <= i < |j.a.outstanding| ==> j.a.outstanding[i] in j.a.outstanding;
  }

  lemma SettleKeeps(c: Sys)
    ensures var c' := RunFrom(c, SETTLE); c'.em == c.em && c'.polled == c.polled && c'.rcv.next == c.rcv.next
  {
    var c1 := Step(c, Test);
    var c2 := Step(c1, Insert);
    var c3 := Step(c2, DispatchAcks);
    assert SETTLE[1..] == [Insert, DispatchAcks];
    assert RunFrom(c, SETTLE) == RunFrom(c1, [Insert, DispatchAcks]) == RunFrom(c2, [DispatchAcks])
        == RunFrom(c3, []);
  }

  /** From every state with a backlog beyond 2^31, and fewer than 2^32 numbers issued, a few events
      without a send lose a fragment. */
  lemma BeyondBacklogIsLost(evs: seq<Event>) returns (f: FragId)
    requires Total(Run(evs).em) < 0x1_0000_0000 && !Backlog(Run(evs))
    ensures Lost(Run(evs + LosingEvents(f)), f) && SendsNothing(LosingEvents(f))
  {
    hide Run, RunBoth, RunFrom, Step, Near, Sim, Spec.Safe, IsSequenceNewer, Lost;
    var c := Run(evs);
    RunIsNear(evs);
    SimNumbers(RunBoth(evs));
    f := FragmentAt(c.em, Start(c.em, |c.polled|) + HALF);
    var last := [Arrive(f), Test, DispatchAcks, AcksArrive([f])];
    RunThen(evs, SETTLE);
    Settles(c);
    SettleKeeps(c);
    var settled := evs + SETTLE;
    RunIsNear(settled);
    var j := RunBoth(settled);
    FarIsNotThere(j, f);
    TurnedAway(j.c, f);
    QueueKeysDiffer(j);
    FirstIsOnly(j.c.snd.queue, Key(c.em, f), At(c.em, f));
    RunThen(settled, last);
    assert evs + LosingEvents(f) == settled + last;
    LostFrom(j.c, RunFrom(j.c, last), f);
  }

  lemma LostFrom(c: Sys, c': Sys, f: FragId)
    requires Issued(c.em, f) && !Polled(c, f) && !Waiting(c, f.msg) && !Buffered(c, f) && c.hand.Idle?
    requires c' == c.(snd := c'.snd, ackNet := c'.ackNet) && At(c.em, f) !in c'.snd.queue
    ensures Lost(c', f)
  {
  }

  /** The bound is exact: when the backlog was bounded up to the last event, some continuation
      without sends loses a fragment if and only if it is not bounded now. */
  lemma LossExactlyWhen(evs: seq<Event>)
    requires Total(Run(evs).em) < 0x1_0000_0000 && (evs == [] || Bounded(evs[..|evs| - 1]))
    ensures (exists more, f :: SendsNothing(more) && Lost(Run(evs + more), f)) <==> !Backlog(Run(evs))
  {
    hide Run, Lost, Backlog, Total;
    if Backlog(Run(evs)) {
      BoundedNow(evs);
      forall more, f | SendsNothing(more) ensures !Lost(Run(evs + more), f) {
        NotLost(evs, more, f);
      }
    } else {
      var f := BeyondBacklogIsLost(evs);
    }
  }

  lemma BoundedNow(evs: seq<Event>)
    requires Backlog(Run(evs)) && (evs == [] || Bounded(evs[..|evs| - 1]))
    ensures Bounded(evs)
  {
    hide Backlog;
    forall k | 0 <= k <= |evs| ensures Backlog(Run(evs[..k])) {
      if k == |evs| {
        assert evs[..k] == evs;
      } else {
        assert evs[..k] == evs[..|evs| - 1][..k];
      }
    }
  }

  lemma NotLost(evs: seq<Event>, more: seq<Event>, f: FragId)
    requires Bounded(evs) && SendsNothing(more) && Total(Run(evs).em) < 0x1_0000_0000
    ensures !Lost(Run(evs + more), f)
  {
    hide Run, Bounded, Total, RoomyRun, Waiting, Buffered, InHand, Polled;
    BoundedExtend(evs, more);
    FewNumbersAreRoomy(evs + more);
    if Issued(Run(evs + more).em, f) {
      NothingIsLost(evs + more, f);
    }
  }

  // ---- a run that gets there

  /** A packet of one fragment is sent n times. */
  function Sends(x: Packet, size: nat, n: nat): seq<Event> {
    if n == 0 then [] else Sends(x, size, n - 1) + [Send(x, size)]
  }

  lemma {:induction false} AfterSends(x: Packet, size: nat, n: nat)
    requires size > 0 && |x.payload| <= size
    ensures Run(Sends(x, size, n)).polled == [] && Total(Run(Sends(x, size, n)).em) == n
  {
    if n > 0 {
      AfterSends(x, size, n - 1);
      RunSnoc(Sends(x, size, n - 1), Send(x, size));
      hide Run;
      OneMoreNumber(Run(Sends(x, size, n - 1)), x, size);
    }
  }

  lemma OneMoreNumber(c: Sys, x: Packet, size: nat)
    requires size > 0 && |x.payload| <= size
    ensures var c' := Step(c, Send(x, size)); c'.polled == c.polled && Total(c'.em) == Total(c.em) + 1
  {
    var fs := Fragments(x, size);
    assert |fs| == 1;
    hide Fragments;
    StartAppend(c.em, Stamp(c.snd.next, fs), |c.em|);
  }

  /** With any fragment size: 2^31 + 1 packets of one fragment sent, and nothing polled yet, are
      enough to lose one. */
  lemma ManyPacketsLoseOne(x: Packet, size: nat) returns (f: FragId)
    requires size > 0 && |x.payload| <= size
    ensures var evs := Sends(x, size, HALF + 1);
            Total(Run(evs).em) == HALF + 1 && Lost(Run(evs + LosingEvents(f)), f)
  {
    AfterSends(x, size, HALF + 1);
    hide Run, Sends, Lost;
    f := BeyondBacklogIsLost(Sends(x, size, HALF + 1));
  }
}
