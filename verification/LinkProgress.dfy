/** Progress on whole links: from wherever the two links stand, and even if every datagram on the network
    is lost, retransmission still delivers everything that was sent. */
module LinkProgress {
  import opened Seq32
  import opened Packets
  import opened Channel
  import opened Wire
  import opened Link
  import opened LinkSystem
  import opened LinkTheorems
  import opened LinkLoss
  import OD = OrderedDelivery
  import OL = OrderedLink

  ghost predicate Quiet(more: seq<Event>) {
    forall i :: 0 <= i < |more| ==> !more[i].Send?
  }

  lemma {:induction false} StepsPlus(linkId: u32, s: Pair, xs: seq<Event>, ys: seq<Event>)
    requires WellSized(s)
    ensures Steps(linkId, s, xs + ys) == Steps(linkId, Steps(linkId, s, xs), ys)
    decreases |xs|
  {
    hide Step;
    if xs == [] {
      assert xs + ys == ys;
    } else {
      assert (xs + ys)[1..] == xs[1..] + ys;
      StepsPlus(linkId, Step(linkId, s, xs[0]), xs[1..], ys);
    }
  }

  lemma OneStep(linkId: u32, s: Pair, ev: Event)
    requires WellSized(s)
    ensures Steps(linkId, s, [ev]) == Step(linkId, s, ev)
  {
    hide Step;
    assert Steps(linkId, Step(linkId, s, ev), []) == Step(linkId, s, ev);
  }

  // ---- the bound stays kept

  lemma AlikeBacklog(k: OL.Sys, k': OL.Sys)
    requires Alike(k', k) && OD.Backlog(k)
    ensures OD.Backlog(k')
  {
  }

  lemma BacklogNow(evs: seq<OL.Event>)
    requires OD.Bounded(evs)
    ensures OD.Backlog(OL.Run(evs))
  {
    assert evs[..|evs|] == evs;
    hide OL.Run, OD.Backlog;
  }

  lemma BoundedStill(evs: seq<OL.Event>, evs': seq<OL.Event>)
    requires OD.Bounded(evs) && Continues(evs, evs') && OD.Backlog(OL.Run(evs'))
    ensures OD.Bounded(evs')
  {
    BacklogNow(evs);
    hide OL.Run, OD.Backlog, Alike;
    forall k | 0 <= k <= |evs'| ensures OD.Backlog(OL.Run(evs'[..k])) {
      if k < |evs| {
        assert evs'[..k] == evs[..k];
      } else if Alike(OL.Run(evs'[..k]), OL.Run(evs)) {
        AlikeBacklog(OL.Run(evs), OL.Run(evs'[..k]));
      } else {
        AlikeBacklog(OL.Run(evs'), OL.Run(evs'[..k]));
      }
    }
  }

  /** The same was sent, and no less was polled. */
  ghost predicate SameSent(l: Log, l': Log) {
    && IsLog(l) && IsLog(l') && l'.tickets == l.tickets && l'.sent == l.sent && l'.issued == l.issued
    && forall c :: 0 <= c < NUM_CHANNELS ==> |l.polled[c]| <= |l'.polled[c]|
  }

  lemma CloseLater(l: Log, l': Log, c: nat)
    requires c < NUM_CHANNELS && SameSent(l, l') && Close(l, c) && InOrder(l', c)
    ensures Close(l', c)
  {
    TakenGrows(l.tickets[c], |l.polled[c]|, |l'.polled[c]|);
    hide Taken;
  }

  lemma KeptOne(linkId: u32, s: Pair, s': Pair, h: Hist, h': Hist, c: nat)
    requires Inv(linkId, s, h) && Inv(linkId, s', h') && HistContinues(h, h') && c < NUM_CHANNELS
    requires SameSent(s.out.reliable, s'.out.reliable) && IsKept(s, h, c)
    ensures IsKept(s', h', c)
  {
    BacklogNow(h[c]);
    ProjectsAgrees(linkId, s, h, c);
    ProjectsAgrees(linkId, s', h', c);
    hide OL.Run, Inv, Agrees, OD.Backlog, OD.Bounded, Close, InOrder, Continues;
    CloseIsBacklog(s.out.reliable, OL.Run(h[c]), c);
    InOrderFrom(linkId, s', h', c);
    CloseLater(s.out.reliable, s'.out.reliable, c);
    CloseIsBacklog(s'.out.reliable, OL.Run(h'[c]), c);
    BoundedStill(h[c], h'[c]);
  }

  lemma KeptStep(linkId: u32, s: Pair, h: Hist, ev: Event) returns (h': Hist)
    requires Inv(linkId, s, h) && !ev.Send?
    ensures Inv(linkId, Step(linkId, s, ev), h') && SameSent(s.out.reliable, Step(linkId, s, ev).out.reliable)
    ensures forall c :: 0 <= c < NUM_CHANNELS && IsKept(s, h, c) ==> IsKept(Step(linkId, s, ev), h', c)
  {
    h' := StepProjects(linkId, s, h, ev);
    var s' := Step(linkId, s, ev);
    hide Inv, Step, HistContinues, IsKept, SameSent;
    QuietStep(linkId, s, ev);
    forall c | 0 <= c < NUM_CHANNELS && IsKept(s, h, c) ensures IsKept(s', h', c) {
      KeptOne(linkId, s, s', h, h', c);
    }
  }

  lemma QuietStep(linkId: u32, s: Pair, ev: Event)
    requires WellSized(s) && !ev.Send?
    ensures SameSent(s.out.reliable, Step(linkId, s, ev).out.reliable)
  {
    hide Step;
    QuietLog(linkId, s, ev, 0);
    forall c | 0 <= c < NUM_CHANNELS
      ensures |s.out.reliable.polled[c]| <= |Step(linkId, s, ev).out.reliable.polled[c]|
    {
      QuietLog(linkId, s, ev, c);
    }
  }

  /** Whatever happens without a new send, the runs of the channels go on within their bounds. */
  lemma {:induction false} KeptSteps(linkId: u32, s: Pair, h: Hist, more: seq<Event>) returns (h': Hist)
    requires Inv(linkId, s, h) && Quiet(more)
    ensures Inv(linkId, Steps(linkId, s, more), h')
    ensures Steps(linkId, s, more).out.reliable.sent == s.out.reliable.sent
    ensures forall c :: 0 <= c < NUM_CHANNELS && IsKept(s, h, c) ==> IsKept(Steps(linkId, s, more), h', c)
    decreases |more|
  {
    h' := h;
    assert WellSized(s);
    hide Inv, Step, IsKept;
    if more != [] {
      var h1 := KeptStep(linkId, s, h, more[0]);
      h' := KeptSteps(linkId, Step(linkId, s, more[0]), h1, more[1..]);
    }
  }

  // ---- the retransmit queues empty

  /** A copy of every queued datagram is on the network. */
  ghost predicate CopiesOut(linkId: u32, s: Pair) {
    && WellSized(s)
    && forall c, d :: 0 <= c < NUM_CHANNELS && d in s.near[c].snd.queue ==>
         EncodeNormal(linkId, RELIABLE_ORDERED, c, d) in s.out.wire
  }

  /** However much was lost, retransmission puts a copy of everything queued on the network again. */
  lemma RetransmitsAll(linkId: u32, s: Pair)
    requires WellSized(s)
    ensures var s' := Step(linkId, s, Retransmit);
            CopiesOut(linkId, s') && s'.near == s.near && s'.far == s.far && s'.out.reliable == s.out.reliable
  {
    var s' := Step(linkId, s, Retransmit);
    var all := AllQueued(linkId, s.near, NUM_CHANNELS);
    hide EncodeNormal, AllQueued, QueuedBefore;
    forall c, d | 0 <= c < NUM_CHANNELS && d in s.near[c].snd.queue
      ensures EncodeNormal(linkId, RELIABLE_ORDERED, c, d) in s'.out.wire
    {
      var i :| 0 <= i < |s.near[c].snd.queue| && s.near[c].snd.queue[i] == d;
      AllQueuedAt(linkId, s.near, NUM_CHANNELS, c, i);
      assert all[QueuedBefore(s.near, c) + i] in all;
    }
  }

  /** One round trip for the datagram at the head of a queue. */
  lemma OneRound(linkId: u32, s: Pair, c: nat) returns (round: seq<Event>)
    requires CopiesOut(linkId, s) && c < NUM_CHANNELS && s.near[c].snd.queue != []
    ensures Quiet(round)
    ensures var s' := Steps(linkId, s, round);
            && CopiesOut(linkId, s') && s'.near[c].snd.queue == s.near[c].snd.queue[1..]
            && forall b :: 0 <= b < NUM_CHANNELS && b != c ==> s'.near[b] == s.near[b]
  {
    var d := s.near[c].snd.queue[0];
    var w := EncodeNormal(linkId, RELIABLE_ORDERED, c, d);
    LetsGo(linkId, s, c, d);
    round := LosingEvents(linkId, c, w, d.seqNo);
    hide Step, Steps, EncodeNormal, EncodeAcks, IsSequenceNewer;
    RestIsOut(linkId, s, Steps(linkId, s, round), c);
  }

  lemma RestIsOut(linkId: u32, s: Pair, s': Pair, c: nat)
    requires CopiesOut(linkId, s) && WellSized(s') && c < NUM_CHANNELS && s.near[c].snd.queue != []
    requires s'.out.wire == s.out.wire
    requires s'.near[c].snd.queue == RemoveFirst(s.near[c].snd.queue, s.near[c].snd.queue[0].seqNo)
    requires forall b :: 0 <= b < NUM_CHANNELS && b != c ==> s'.near[b] == s.near[b]
    ensures CopiesOut(linkId, s') && s'.near[c].snd.queue == s.near[c].snd.queue[1..]
  {
    hide EncodeNormal;
  }

  lemma {:induction false} ChannelEmpties(linkId: u32, s: Pair, c: nat) returns (more: seq<Event>)
    requires CopiesOut(linkId, s) && c < NUM_CHANNELS
    ensures Quiet(more)
    ensures var s' := Steps(linkId, s, more);
            && CopiesOut(linkId, s') && s'.near[c].snd.queue == []
            && forall b :: 0 <= b < NUM_CHANNELS && b != c ==> s'.near[b] == s.near[b]
    decreases |s.near[c].snd.queue|
  {
    more := [];
    assert WellSized(s);
    if s.near[c].snd.queue != [] {
      hide CopiesOut, Step;
      var round := OneRound(linkId, s, c);
      more := ChannelEmpties(linkId, Steps(linkId, s, round), c);
      StepsPlus(linkId, s, round, more);
      more := round + more;
    }
  }

  lemma {:induction false} ChannelsEmpty(linkId: u32, s: Pair, n: nat) returns (more: seq<Event>)
    requires CopiesOut(linkId, s) && n <= NUM_CHANNELS
    ensures Quiet(more)
    ensures var s' := Steps(linkId, s, more);
            CopiesOut(linkId, s') && forall c :: 0 <= c < n ==> s'.near[c].snd.queue == []
  {
    more := [];
    assert WellSized(s);
    if n > 0 {
      hide CopiesOut, Step;
      more := ChannelsEmpty(linkId, s, n - 1);
      var last := ChannelEmpties(linkId, Steps(linkId, s, more), n - 1);
      StepsPlus(linkId, s, more, last);
      more := more + last;
    }
  }

  // ---- the far end polls

  /** How many packets wait in the reorder queues of the first n channels. */
  function Waiting(v: seq<Chan>, n: nat): nat
    requires n <= |v|
  {
    if n == 0 then 0 else Waiting(v, n - 1) + |v[n - 1].rcv.order|
  }

  lemma {:induction false} OneLessWaits(v: seq<Chan>, n: nat, c: nat)
    requires n <= |v| && c < |v| && CanPoll(v[c].rcv)
    ensures Waiting(v[c := v[c].(rcv := PollStep(v[c].rcv))], n) == Waiting(v, n) - if c < n then 1 else 0
  {
    if n > 0 {
      OneLessWaits(v, n - 1, c);
      assert PollStep(v[c].rcv).order.Keys == v[c].rcv.order.Keys - {v[c].rcv.next};
    }
  }

  lemma OnePoll(linkId: u32, s: Pair, c: nat) returns (ev: Event)
    requires WellSized(s) && c < NUM_CHANNELS && CanPoll(s.far[c].rcv)
    ensures ev.Poll? && Step(linkId, s, ev).near == s.near
    ensures Waiting(Step(linkId, s, ev).far, NUM_CHANNELS) < Waiting(s.far, NUM_CHANNELS)
  {
    var b := LowestReady(s.far, c);
    var got: Option<Link.Polled> := Some(Ordered(b, s.far[b].rcv.order[s.far[b].rcv.next].packet));
    var far' := s.far[b := s.far[b].(rcv := PollStep(s.far[b].rcv))];
    assert PollOutcome(s.far, [], got, far', []);
    OneLessWaits(s.far, NUM_CHANNELS, b);
    ev := Poll(got, far');
    hide Waiting, PollOutcome, CanPoll, PollStep, LinkSystem.Polled;
  }

  /** Polls as long as any packet is ready on a reliable channel. */
  lemma {:induction false} PollsOut(linkId: u32, s: Pair) returns (more: seq<Event>)
    requires WellSized(s)
    ensures Quiet(more)
    ensures var s' := Steps(linkId, s, more);
            s'.near == s.near && forall c :: 0 <= c < NUM_CHANNELS ==> !CanPoll(s'.far[c].rcv)
    decreases Waiting(s.far, NUM_CHANNELS)
  {
    hide Step, CanPoll, Waiting;
    more := [];
    if c :| 0 <= c < NUM_CHANNELS && CanPoll(s.far[c].rcv) {
      var ev := OnePoll(linkId, s, c);
      OneStep(linkId, s, ev);
      more := PollsOut(linkId, Step(linkId, s, ev));
      StepsPlus(linkId, s, [ev], more);
      more := [ev] + more;
    }
  }

  lemma {:induction false} LowestReady(v: seq<Chan>, c: nat) returns (b: nat)
    requires c < |v| && CanPoll(v[c].rcv)
    ensures b < |v| && CanPoll(v[b].rcv) && forall a :: 0 <= a < b ==> !CanPoll(v[a].rcv)
  {
    if a :| 0 <= a < c && CanPoll(v[a].rcv) {
      b := LowestReady(v, a);
    } else {
      b := c;
    }
  }

  // ---- everything is delivered

  ghost predicate Delivered(s: Pair, c: nat)
    requires WellSized(s) && c < NUM_CHANNELS
  {
    |s.out.reliable.polled[c]| == |s.out.reliable.sent[c]| && InOrder(s.out.reliable, c)
  }

  /** Retransmission, a round trip for every datagram queued, and polls: then nothing is queued and
      nothing can be polled. */
  lemma GoesQuiet(linkId: u32, s: Pair) returns (more: seq<Event>)
    requires WellSized(s)
    ensures more != [] && more[0] == Retransmit && Quiet(more)
    ensures var s' := Steps(linkId, s, more);
            forall c :: 0 <= c < NUM_CHANNELS ==> s'.near[c].snd.queue == [] && !CanPoll(s'.far[c].rcv)
  {
    RetransmitsAll(linkId, s);
    OneStep(linkId, s, Retransmit);
    var s1 := Step(linkId, s, Retransmit);
    hide Step, CopiesOut, CanPoll;
    var acked := ChannelsEmpty(linkId, s1, NUM_CHANNELS);
    var s2 := Steps(linkId, s1, acked);
    var polls := PollsOut(linkId, s2);
    StepsPlus(linkId, s, [Retransmit], acked + polls);
    StepsPlus(linkId, s1, acked, polls);
    more := [Retransmit] + (acked + polls);
  }

  lemma DeliversFrom(linkId: u32, s: Pair, h: Hist) returns (more: seq<Event>)
    requires Inv(linkId, s, h)
    ensures more != [] && more[0] == Retransmit && Quiet(more)
    ensures Steps(linkId, s, more).out.reliable.sent == s.out.reliable.sent
    ensures forall c :: 0 <= c < NUM_CHANNELS && IsKept(s, h, c) ==> Delivered(Steps(linkId, s, more), c)
  {
    assert WellSized(s);
    more := GoesQuiet(linkId, s);
    hide Inv, Steps, IsKept, CanPoll, NothingLost, TicketsTrue, Delivered;
    var h' := KeptSteps(linkId, s, h, more);
    var s' := Steps(linkId, s, more);
    forall c | 0 <= c < NUM_CHANNELS && IsKept(s, h, c) ensures Delivered(s', c) {
      DeliversAll(linkId, s', h', c);
      QuietDelivered(s', c);
    }
  }

  lemma QuietDelivered(s: Pair, c: nat)
    requires WellSized(s) && c < NUM_CHANNELS && QuietIsAll(s, c)
    requires s.near[c].snd.queue == [] && !CanPoll(s.far[c].rcv)
    ensures Delivered(s, c)
  {
    hide CanPoll, InOrder;
  }

  /** Every datagram on the network is lost, in both directions. */
  function Silenced(s: Pair): Pair {
    s.(out := s.out.(wire := {}, back := {}), home := s.home.(wire := {}, back := {}))
  }

  lemma SilencedStays(linkId: u32, s: Pair, h: Hist)
    requires Inv(linkId, s, h)
    ensures Inv(linkId, Silenced(s), h)
    ensures forall c :: 0 <= c < NUM_CHANNELS && IsKept(s, h, c) ==> IsKept(Silenced(s), h, c)
  {
    hide OL.Run, Carried, Acked, OD.Bounded;
    forall c | 0 <= c < NUM_CHANNELS ensures Projects(Silenced(s), h, c) {
      assert Projects(s, h, c);
    }
  }

  /** The histories of a run of links keep their bounds on every channel that keeps up. */
  lemma RunIsKept(linkId: u32, evs: seq<(bool, Event)>, forth: bool) returns (h: Hist)
    ensures Inv(linkId, View(linkId, evs, forth), h)
    ensures forall c :: 0 <= c < NUM_CHANNELS && KeepsUp(linkId, evs, forth, c) ==>
              IsKept(View(linkId, evs, forth), h, c)
  {
    var onward, homeward := RunProjects(linkId, evs);
    h := if forth then onward else homeward;
    LastLog(linkId, evs, forth);
    hide Inv, Run, Tracks, LogAt, Close, OD.Bounded;
    forall c | 0 <= c < NUM_CHANNELS && KeepsUp(linkId, evs, forth, c) ensures IsKept(View(linkId, evs, forth), h, c) {
      KeepsUpIsBounded(linkId, evs, forth, h, c);
    }
  }

  /** Reliability: if every datagram on the network is lost, from wherever the two links stand, there is
      a way on that begins with a retransmission and sends nothing new in which everything sent so
      far is polled in order, on every channel with fewer than 2^32 numbers issued and a backlog that
      was bounded all along. */
  lemma RetransmissionDelivers(linkId: u32, evs: seq<(bool, Event)>, forth: bool) returns (more: seq<Event>)
    ensures more != [] && more[0] == Retransmit && forall i :: 0 <= i < |more| ==> !more[i].Send?
    ensures var s := Silenced(View(linkId, evs, forth));
            var l, l' := s.out.reliable, Steps(linkId, s, more).out.reliable;
            && l'.sent == l.sent
            && forall c :: 0 <= c < NUM_CHANNELS && KeepsUp(linkId, evs, forth, c) ==>
                 |l'.polled[c]| == |l'.sent[c]| && InOrder(l', c)
  {
    hide View, Inv, IsKept, KeepsUp, Steps, InOrder;
    var s := View(linkId, evs, forth);
    var h := RunIsKept(linkId, evs, forth);
    SilencedStays(linkId, s, h);
    more := DeliversFrom(linkId, Silenced(s), h);
    forall c | 0 <= c < NUM_CHANNELS && KeepsUp(linkId, evs, forth, c)
      ensures var l' := Steps(linkId, Silenced(s), more).out.reliable;
              |l'.polled[c]| == |l'.sent[c]| && InOrder(l', c)
    {
      assert Delivered(Steps(linkId, Silenced(s), more), c);
    }
  }

  /** Without loss, it is a continuation of the run itself. */
  lemma LinkDeliversEventually(linkId: u32, evs: seq<(bool, Event)>, forth: bool, c: nat)
    returns (more: seq<(bool, Event)>)
    requires c < NUM_CHANNELS && KeepsUp(linkId, evs, forth, c)
    ensures SendsNothing(more, forth)
    ensures var l, l' := View(linkId, evs, forth).out.reliable, View(linkId, evs + more, forth).out.reliable;
            l'.sent == l.sent && |l'.polled[c]| == |l'.sent[c]| && InOrder(l', c)
  {
    hide View, Inv, IsKept, KeepsUp, Steps, InOrder;
    var s := View(linkId, evs, forth);
    var h := RunIsKept(linkId, evs, forth);
    var events := DeliversFrom(linkId, s, h);
    ViewSteps(linkId, evs, events, forth);
    assert Delivered(Steps(linkId, s, events), c);
    more := Towards(events, forth);
  }
}
