/** What the reliable-ordered channel guarantees, over every run of events. */
module OrderedTheorems {
  import opened Seq32
  import opened Serialization
  import opened Numbering
  import opened Channel
  import opened OrderedLink
  import opened OrderedRefinement
  import Spec = OrderedSpec

  /** Before every event of the run, everything alive fits in one span of 2^32 numbers. */
  ghost predicate RoomyRun(evs: seq<Event>) {
    forall k :: 0 <= k < |evs| ==> Room(RunBoth(evs[..k]), evs[k])
  }

  lemma RoomyRunPrefix(evs: seq<Event>)
    requires RoomyRun(evs) && evs != []
    ensures RoomyRun(evs[..|evs| - 1]) && Room(RunBoth(evs[..|evs| - 1]), evs[|evs| - 1])
  {
    var front := evs[..|evs| - 1];
    forall k | 0 <= k < |front| ensures Room(RunBoth(front[..k]), front[k]) {
      assert front[..k] == evs[..k] && front[k] == evs[k];
    }
  }

  lemma RoomyRunExtend(evs: seq<Event>)
    requires evs != [] && RoomyRun(evs[..|evs| - 1]) && Room(RunBoth(evs[..|evs| - 1]), evs[|evs| - 1])
    ensures RoomyRun(evs)
  {
    var front := evs[..|evs| - 1];
    hide Room;
    forall k | 0 <= k < |evs| ensures Room(RunBoth(evs[..k]), evs[k]) {
      assert k < |front| ==> evs[..k] == front[..k] && evs[k] == front[k];
    }
  }

  lemma SafeStepBoth(j: Joint, ev: Event)
    requires Spec.Safe(j.a)
    ensures Spec.Safe(StepBoth(j, ev).a)
  {
    hide Spec.Safe, Spec.Step;
    if MovesOf(j, ev).Some? {
      Spec.SafeStep(j.a, MovesOf(j, ev).value);
    }
  }

  /** Wraparound refinement: a run of the 32-bit channel is step for step the image of a run of
      the channel with unbounded numbers, and that run keeps everything in order. */
  lemma {:induction false} RunRefines(evs: seq<Event>)
    requires RoomyRun(evs)
    ensures RunBoth(evs).c == Run(evs)
    ensures Sim(RunBoth(evs)) && Spec.Safe(RunBoth(evs).a)
  {
    if evs == [] {
    } else {
      var front := evs[..|evs| - 1];
      RoomyRunPrefix(evs);
      RunRefines(front);
      hide Sim, Spec.Safe, Room, Step;
      SimStep(RunBoth(front), evs[|evs| - 1]);
      SafeStepBoth(RunBoth(front), evs[|evs| - 1]);
    }
  }

  // ---- in order, exactly once

  /** What was polled is a prefix of what was sent: payload bytes always, and id and relay
      flag too wherever a packet travelled in one piece. */
  ghost predicate PolledIsPrefix(c: Sys) {
    && |c.polled| <= |c.sent| == |c.em|
    && forall k :: 0 <= k < |c.polled| ==>
         && c.polled[k].payload == c.sent[k].payload
         && (|c.em[k]| == 1 ==> c.polled[k] == c.sent[k])
  }

  lemma PrefixFromSim(j: Joint)
    requires Sim(j) && Spec.Safe(j.a)
    ensures PolledIsPrefix(j.c)
  {
    hide Stamped, Cuts, Holds, OrderSim, QueueSim, AckSim, Wrap, Spec.Shaped, Spec.BufferPartial, Spec.Mixed;
    forall k | 0 <= k < |j.c.polled|
      ensures j.c.polled[k].payload == j.c.sent[k].payload && (|j.c.em[k]| == 1 ==> j.c.polled[k] == j.c.sent[k])
    {
      assert Spec.Matches(j.a, j.a.polled[k], k);
    }
  }

  /** Ordered delivery across any number of wraps. */
  lemma InOrderAcrossWrap(evs: seq<Event>)
    requires RoomyRun(evs)
    ensures PolledIsPrefix(Run(evs))
  {
    RunRefines(evs);
    PrefixFromSim(RunBoth(evs));
  }

  // ---- fewer than 2^32 numbers: no side condition at all

  lemma TotalGrows(c: Sys, ev: Event)
    ensures Total(c.em) <= Total(Step(c, ev).em)
  {
    if ev.Send? && ev.size > 0 {
      var ds := Stamp(c.snd.next, Fragments(ev.p, ev.size));
      StartAppend(c.em, ds, |c.em|);
    }
  }

  lemma RoomBelow32(j: Joint, ev: Event)
    requires Sim(j) && Spec.Safe(j.a) && Total(j.c.em) < 0x1_0000_0000
    ensures RoomAt(j, ev, 0)
  {
    var em := j.c.em;
    hide Wrap, Stamped, Cuts, Holds, OrderSim, QueueSim, Spec.BufferPartial, Spec.Distinct;
    assert forall f :: Spec.Sent(j.a, f) ==> Issued(em, f);
    forall f | Issued(em, f) ensures Within(em, f, 0) {
      IndexBelowTotal(em, f);
    }
    forall m | 0 <= m < |em| ensures Start(em, m) + |em[m]| <= Total(em) {
      StartMonotone(em, m, |em|);
    }
    assert Start(em, |j.c.polled|) <= Total(em);
    hide Start, Within;
    RoomBelowRest(j, ev);
  }

  lemma RoomBelowRest(j: Joint, ev: Event)
    requires Sim(j) && Spec.Safe(j.a) && Total(j.c.em) < 0x1_0000_0000
    requires forall f :: Issued(j.c.em, f) ==> Within(j.c.em, f, 0)
    requires forall m :: 0 <= m < |j.c.em| ==> Start(j.c.em, m) + |j.c.em[m]| <= Total(j.c.em)
    requires |j.c.polled| <= |j.c.em| && Start(j.c.em, |j.c.polled|) <= Total(j.c.em)
    ensures RoomAt(j, ev, 0)
  {
  }

  lemma {:induction false} FewNumbersAreRoomy(evs: seq<Event>)
    requires Total(Run(evs).em) < 0x1_0000_0000
    ensures RoomyRun(evs)
  {
    if evs != [] {
      var front := evs[..|evs| - 1];
      TotalGrows(Run(front), evs[|evs| - 1]);
      FewNumbersAreRoomy(front);
      RunRefines(front);
      RoomBelow32(RunBoth(front), evs[|evs| - 1]);
      hide Sim, Spec.Safe, RoomAt, StepBoth, Step;
      RoomyRunExtend(evs);
    }
  }

  /** Exactly once, in order: whatever the network loses, repeats or reorders, however the
      receive thread and the polling thread interleave, what was polled is a prefix of what was
      sent, as long as fewer than 2^32 numbers were issued. */
  lemma ExactlyOnceInOrder(evs: seq<Event>)
    requires Total(Run(evs).em) < 0x1_0000_0000
    ensures PolledIsPrefix(Run(evs))
  {
    FewNumbersAreRoomy(evs);
    InOrderAcrossWrap(evs);
  }
}
