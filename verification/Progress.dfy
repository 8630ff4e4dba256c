/** Retransmission makes progress: a lossless round of retransmit, ack and ack delivery empties
    the retransmit queue 512 datagrams at a time, and then everything sent can be polled. */
module Progress {
  import opened Seq32
  import opened Packets
  import opened Numbering
  import opened Channel
  import opened OrderedLink
  import opened OrderedRefinement
  import opened OrderedTheorems
  import opened OrderedDelivery
  import Spec = OrderedSpec

  ghost function RunFrom(c: Sys, evs: seq<Event>): Sys
    decreases |evs|
  {
    if evs == [] then c else RunFrom(Step(c, evs[0]), evs[1..])
  }

  lemma {:induction false} RunFromSplit(c: Sys, xs: seq<Event>, ys: seq<Event>)
    ensures RunFrom(c, xs + ys) == RunFrom(RunFrom(c, xs), ys)
    decreases |xs|
  {
    hide Step;
    if xs == [] {
      assert xs + ys == ys;
    } else {
      assert (xs + ys)[1..] == xs[1..] + ys;
      RunFromSplit(Step(c, xs[0]), xs[1..], ys);
    }
  }

  lemma {:induction false} RunThen(evs: seq<Event>, more: seq<Event>)
    ensures Run(evs + more) == RunFrom(Run(evs), more)
    decreases |more|
  {
    hide Step;
    if more == [] {
      assert evs + more == evs;
    } else {
      var evs' := evs + [more[0]];
      assert evs'[..|evs'| - 1] == evs;
      RunThen(evs', more[1..]);
      assert evs' + more[1..] == evs + more;
    }
  }

  /** Every queued datagram comes in once, in queue order. */
  function Arrivals(ids: seq<FragId>): seq<Event> {
    if ids == [] then [] else [Arrive(ids[0]), Test, Insert] + Arrivals(ids[1..])
  }

  /** The acks go out in one datagram, and it comes in. */
  function Round(ids: seq<FragId>): seq<Event> {
    Arrivals(ids) + [DispatchAcks, AcksArrive(FirstAcks(ids))]
  }

  ghost predicate AtRest(c: Sys) {
    c.hand.Idle? && c.rcv.acks == [] && c.ackIds == []
  }

  ghost predicate Named(em: Emission, ids: seq<FragId>) {
    && (forall f :: f in ids ==> Issued(em, f))
    && (forall i, k :: 0 <= i < k < |ids| ==> Key(em, ids[i]) != Key(em, ids[k]))
  }

  /** What arrivals leave alone. */
  ghost predicate SameSender(c: Sys, c': Sys) {
    c'.snd == c.snd && c'.em == c.em && c'.sent == c.sent && c'.ackNet == c.ackNet && c'.polled == c.polled
  }

  lemma ReceiveOne(c: Sys, f: FragId)
    requires c.hand.Idle? && Issued(c.em, f) && Key(c.em, f) !in c.rcv.acks
    ensures var c' := RunFrom(c, [Arrive(f), Test, Insert]);
            && SameSender(c, c') && c'.hand.Idle?
            && c'.rcv.acks == c.rcv.acks + [Key(c.em, f)] && c'.ackIds == c.ackIds + [f]
  {
    var c1 := Step(c, Arrive(f));
    var c2 := Step(c1, Test);
    var c3 := Step(c2, Insert);
    hide IsSequenceNewer;
    if c2.hand.Passed? {
      SameRest(c2.rcv, c2.hand.d);
    }
    assert RunFrom(c, [Arrive(f), Test, Insert]) == RunFrom(c1, [Test, Insert]) == RunFrom(c2, [Insert])
        == RunFrom(c3, []);
  }

  lemma NamedNext(em: Emission, done: seq<FragId>, ids: seq<FragId>)
    requires Named(em, done + ids) && ids != []
    ensures forall f :: f in done ==> Issued(em, f)
    ensures Issued(em, ids[0]) && Key(em, ids[0]) !in KeysOf(em, done)
    ensures forall f :: f in done + [ids[0]] ==> Issued(em, f)
    ensures KeysOf(em, done + [ids[0]]) == KeysOf(em, done) + [Key(em, ids[0])]
    ensures done + ids == (done + [ids[0]]) + ids[1..]
  {
    var all := done + ids;
    forall f | f in done ensures Issued(em, f) {
      assert f in all;
    }
    assert all[|done|] == ids[0] && ids[0] in all;
    forall i | 0 <= i < |done| ensures Key(em, done[i]) != Key(em, ids[0]) {
      assert all[i] == done[i];
    }
  }

  /** Already processed or not, every datagram that comes in is acked, in order of arrival. */
  lemma {:induction false} ReceiveAll(c: Sys, done: seq<FragId>, ids: seq<FragId>)
    requires c.hand.Idle? && Named(c.em, done + ids)
    requires c.ackIds == done && (forall f :: f in done ==> Issued(c.em, f)) && c.rcv.acks == KeysOf(c.em, done)
    ensures forall f :: f in done + ids ==> Issued(c.em, f)
    ensures var c' := RunFrom(c, Arrivals(ids));
            SameSender(c, c') && c'.hand.Idle? && c'.ackIds == done + ids && c'.rcv.acks == KeysOf(c.em, done + ids)
    decreases |ids|
  {
    if ids == [] {
      assert done + ids == done;
    } else {
      var one := [Arrive(ids[0]), Test, Insert];
      NamedNext(c.em, done, ids);
      hide Step, KeysOf, Named, Key;
      ReceiveOne(c, ids[0]);
      RunFromSplit(c, one, Arrivals(ids[1..]));
      ReceiveAll(RunFrom(c, one), done + [ids[0]], ids[1..]);
    }
  }

  lemma {:induction false} AckedPrefixGoes(em: Emission, q: seq<Datagram>, ids: seq<FragId>, n: nat)
    requires QueueSim(em, q, ids) && n <= |ids|
    ensures forall f :: f in ids[..n] ==> Issued(em, f)
    ensures RemoveAll(q, KeysOf(em, ids[..n])) == q[n..]
    decreases n
  {
    assert forall f :: f in ids[..n] ==> Issued(em, f);
    if n > 0 {
      AckedPrefixGoes(em, q[1..], ids[1..], n - 1);
      assert ids[..n][1..] == ids[1..][..n - 1];
      assert KeysOf(em, ids[..n])[1..] == KeysOf(em, ids[1..][..n - 1]);
      assert RemoveFirst(q, Key(em, ids[0])) == q[1..];
      assert q[1..][n - 1..] == q[n..];
    }
  }

  function Cleared(n: nat): nat {
    if n <= 512 then n else 512
  }

  lemma ClearAcks(c: Sys, ids: seq<FragId>)
    requires c.hand.Idle? && c.ackIds == ids && QueueSim(c.em, c.snd.queue, ids)
    ensures var c' := RunFrom(c, [DispatchAcks, AcksArrive(FirstAcks(ids))]);
            && AtRest(c') && c'.em == c.em && c'.sent == c.sent
            && c'.snd.queue == c.snd.queue[Cleared(|ids|)..]
  {
    var first := FirstAcks(ids);
    var c1 := Step(c, DispatchAcks);
    assert first == ids[..Cleared(|ids|)];
    AckedPrefixGoes(c.em, c.snd.queue, ids, Cleared(|ids|));
    var c2 := Step(c1, AcksArrive(first));
    assert RunFrom(c, [DispatchAcks, AcksArrive(first)]) == RunFrom(c1, [AcksArrive(first)]) == RunFrom(c2, []);
    if ids == [] {
      assert KeysOf(c.em, first) == [];
    }
  }

  /** One lossless round takes the retransmit queue from n to max(0, n - 512), survivors in
      order, however many of its datagrams the receiver had processed before. */
  lemma LosslessRound(c: Sys, ids: seq<FragId>)
    requires AtRest(c) && QueueSim(c.em, c.snd.queue, ids) && Named(c.em, ids)
    ensures var c' := RunFrom(c, Round(ids));
            && AtRest(c') && c'.em == c.em && c'.sent == c.sent
            && c'.snd.queue == c.snd.queue[Cleared(|c.snd.queue|)..]
            && QueueSim(c'.em, c'.snd.queue, ids[Cleared(|ids|)..])
  {
    assert [] + ids == ids;
    assert KeysOf(c.em, []) == [];
    hide Step;
    ReceiveAll(c, [], ids);
    var c1 := RunFrom(c, Arrivals(ids));
    ClearAcks(c1, ids);
    RunFromSplit(c, Arrivals(ids), [DispatchAcks, AcksArrive(FirstAcks(ids))]);
  }

  function Rounds(n: nat): nat {
    (n + 511) / 512
  }

  /** k rounds one after the other. */
  function RoundsOf(ids: seq<FragId>, k: nat): seq<Event> {
    if k == 0 then [] else Round(ids) + RoundsOf(ids[Cleared(|ids|)..], k - 1)
  }

  /** ceil(n / 512) lossless rounds empty a retransmit queue of n datagrams. */
  lemma {:induction false} RoundsEmptyTheQueue(c: Sys, ids: seq<FragId>)
    requires AtRest(c) && QueueSim(c.em, c.snd.queue, ids) && Named(c.em, ids)
    ensures var c' := RunFrom(c, RoundsOf(ids, Rounds(|ids|)));
            AtRest(c') && c'.snd.queue == [] && c'.em == c.em && c'.sent == c.sent
    decreases |ids|
  {
    RoundsNext(ids);
    if |ids| > 0 {
      var rest := ids[Cleared(|ids|)..];
      assert RoundsOf(ids, Rounds(|rest|) + 1) == Round(ids) + RoundsOf(rest, Rounds(|rest|));
      hide Step, Round, RoundsOf, Rounds, Cleared, RunFrom, QueueSim, AtRest, Named;
      LosslessRound(c, ids);
      RunFromSplit(c, Round(ids), RoundsOf(rest, Rounds(|rest|)));
      NamedRest(c.em, ids, Cleared(|ids|));
      RoundsEmptyTheQueue(RunFrom(c, Round(ids)), rest);
    }
  }

  lemma RoundsNext(ids: seq<FragId>)
    ensures |ids| == 0 ==> Rounds(|ids|) == 0
    ensures |ids| > 0 ==> 0 < Cleared(|ids|) <= |ids| && Rounds(|ids|) == Rounds(|ids[Cleared(|ids|)..]|) + 1
  {
  }

  lemma NamedRest(em: Emission, ids: seq<FragId>, n: nat)
    requires Named(em, ids) && n <= |ids|
    ensures Named(em, ids[n..])
  {
    assert forall i :: 0 <= i < |ids| - n ==> ids[n..][i] == ids[n + i];
  }

  // ---- eventual delivery

  predicate SendsNothing(more: seq<Event>) {
    forall i :: 0 <= i < |more| ==> !more[i].Send?
  }

  lemma NoSendStep(c: Sys, ev: Event)
    requires !ev.Send?
    ensures var c' := Step(c, ev); c'.em == c.em && c'.sent == c.sent && |c.polled| <= |c'.polled|
  {
  }

  lemma BoundedSnoc(evs: seq<Event>, ev: Event)
    requires Bounded(evs) && !ev.Send? && Total(Run(evs).em) < 0x1_0000_0000
    ensures Bounded(evs + [ev])
    ensures Run(evs + [ev]).em == Run(evs).em && Run(evs + [ev]).sent == Run(evs).sent
  {
    var all := evs + [ev];
    assert all[..|all| - 1] == evs;
    NoSendStep(Run(evs), ev);
    assert evs[..|evs|] == evs;
    hide Step, Start;
    ExactlyOnceInOrder(all);
    BacklogShrinks(Run(evs), Run(all));
    hide Backlog, PolledIsPrefix, Run;
    forall k | 0 <= k <= |all| ensures Backlog(Run(all[..k])) {
      if k <= |evs| {
        assert all[..k] == evs[..k];
      } else {
        assert all[..k] == all;
      }
    }
  }

  lemma {:induction false} BoundedExtend(evs: seq<Event>, more: seq<Event>)
    requires Bounded(evs) && SendsNothing(more) && Total(Run(evs).em) < 0x1_0000_0000
    ensures Bounded(evs + more) && Run(evs + more).em == Run(evs).em && Run(evs + more).sent == Run(evs).sent
  {
    hide Bounded, Run, Total;
    if more == [] {
      assert evs + more == evs;
    } else {
      var fore, ev := more[..|more| - 1], more[|more| - 1];
      assert SendsNothing(fore) && !ev.Send?;
      hide SendsNothing;
      BoundedExtend(evs, fore);
      BoundedSnoc(evs + fore, ev);
      assert evs + more == (evs + fore) + [more[|more| - 1]];
    }
  }

  lemma BacklogShrinks(c: Sys, c': Sys)
    requires c'.em == c.em && |c.polled| <= |c'.polled| <= |c.em|
    requires Total(c.em) - Start(c.em, |c.polled|) <= 0x8000_0000
    ensures Backlog(c')
  {
    if |c.polled| < |c'.polled| {
      StartMonotone(c.em, |c.polled|, |c'.polled|);
    }
  }

  /** The receive thread finishes what it has in hand, and the pending acks go. */
  const SETTLE: seq<Event> := [Test, Insert, DispatchAcks]

  lemma Settles(c: Sys)
    ensures AtRest(RunFrom(c, SETTLE))
  {
    var c1 := Step(c, Test);
    var c2 := Step(c1, Insert);
    var c3 := Step(c2, DispatchAcks);
    assert SETTLE[1..] == [Insert, DispatchAcks];
    assert RunFrom(c, SETTLE) == RunFrom(c1, [Insert, DispatchAcks]) == RunFrom(c2, [DispatchAcks]) == RunFrom(c3, []);
  }

  function Polls(k: nat): seq<Event> {
    if k == 0 then [] else [Poll] + Polls(k - 1)
  }

  lemma {:induction false} PollOut(c: Sys) returns (k: nat)
    ensures var c' := RunFrom(c, Polls(k)); !CanPoll(c'.rcv) && c'.snd == c.snd && c'.hand == c.hand
    decreases |c.rcv.order|
  {
    if CanPoll(c.rcv) {
      var c1 := Step(c, Poll);
      assert |c1.rcv.order.Keys| < |c.rcv.order.Keys| by {
        assert c1.rcv.order.Keys == c.rcv.order.Keys - {c.rcv.next};
      }
      k := PollOut(c1);
      k := k + 1;
    } else {
      k := 0;
    }
  }

  lemma {:induction false} NoSends(ids: seq<FragId>, k: nat)
    ensures SendsNothing(Arrivals(ids)) && SendsNothing(RoundsOf(ids, k)) && SendsNothing(Polls(k))
    decreases k, |ids|
  {
    if ids != [] {
      NoSends(ids[1..], k);
    }
    if k > 0 {
      NoSends(ids[Cleared(|ids|)..], k - 1);
    }
  }

  lemma OutstandingIsNamed(j: Joint)
    requires Sim(j) && Spec.Safe(j.a) && Total(j.c.em) < 0x1_0000_0000
    ensures QueueSim(j.c.em, j.c.snd.queue, j.a.outstanding) && Named(j.c.em, j.a.outstanding)
  {
    var em, out := j.c.em, j.a.outstanding;
    RoomBelow32(j, Poll);
    hide Wrap, Stamped, Cuts, Holds, OrderSim, AckSim, Within, Spec.BufferPartial, Spec.InOrder, Start;
    assert forall f :: f in out ==> Issued(em, f);
    forall i, k | 0 <= i < k < |out| ensures Key(em, out[i]) != Key(em, out[k]) {
      if Key(em, out[i]) == Key(em, out[k]) {
        KeyInjective(em, out[i], out[k], 0);
      }
    }
  }

  lemma {:induction false} SameEmission(evs: seq<Event>, more: seq<Event>)
    requires SendsNothing(more)
    ensures Run(evs + more).em == Run(evs).em && Run(evs + more).sent == Run(evs).sent
  {
    if more == [] {
      assert evs + more == evs;
    } else {
      var fore, ev := more[..|more| - 1], more[|more| - 1];
      var all := evs + more;
      SameEmission(evs, fore);
      assert all == (evs + fore) + [ev] && all[..|all| - 1] == evs + fore;
      NoSendStep(Run(evs + fore), ev);
      hide Step;
    }
  }

  /** From every state reached with fewer than 2^32 numbers issued, however far behind the receiver
      is, settling and ceil(n / 512) lossless rounds empty the retransmit queue. */
  lemma EventuallyAcked(evs: seq<Event>) returns (more: seq<Event>)
    requires Total(Run(evs).em) < 0x1_0000_0000
    ensures SendsNothing(more) && Run(evs + more).snd.queue == [] && Run(evs + more).hand.Idle?
  {
    hide Step, Sim, Spec.Safe, PolledIsPrefix, Round, RoundsOf, Total, RoomyRun, Run;
    var settled := evs + SETTLE;
    SameEmission(evs, SETTLE);
    RunThen(evs, SETTLE);
    Settles(Run(evs));
    FewNumbersAreRoomy(settled);
    RunRefines(settled);
    OutstandingIsNamed(RunBoth(settled));
    var ids := RunBoth(settled).a.outstanding;
    var rounds := RoundsOf(ids, Rounds(|ids|));
    RoundsEmptyTheQueue(Run(settled), ids);
    RunThen(settled, rounds);
    NoSends(ids, Rounds(|ids|));
    more := SETTLE + rounds;
    assert evs + more == settled + rounds;
  }

  /** Eventual delivery: from every state reached with fewer than 2^32 numbers issued and a bounded
      backlog there is a way on, without new sends, in which everything sent so far is polled. */
  lemma EventuallyDelivered(evs: seq<Event>) returns (more: seq<Event>)
    requires Total(Run(evs).em) < 0x1_0000_0000 && Bounded(evs)
    ensures SendsNothing(more)
    ensures var c := Run(evs + more);
            c.sent == Run(evs).sent && |c.polled| == |c.sent| && PolledIsPrefix(c)
  {
    hide Step, Sim, Spec.Safe, Backlog, PolledIsPrefix, Total, RoomyRun, Bounded, Run, RoomAt;
    var acked := EventuallyAcked(evs);
    var k := PollOut(Run(evs + acked));
    RunThen(evs + acked, Polls(k));
    NoSends([], k);
    more := acked + Polls(k);
    var all := evs + more;
    assert all == (evs + acked) + Polls(k);
    BoundedExtend(evs, more);
    FewNumbersAreRoomy(all);
    RunRefines(all);
    RoomBelow32(RunBoth(all), Poll);
    QuietMeansDelivered(all);
  }
}
