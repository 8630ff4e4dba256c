/** What holds of one reliable channel, said of whole links: nothing is lost, tickets are true, and
    quiet means delivered, on every channel whose backlog was at most 2^31 numbers all along. A
    datagram is received in one go here. */
module LinkTheorems {
  import opened Seq32
  import opened Numbering
  import opened Channel
  import opened Wire
  import opened Link
  import opened LinkSystem
  import opened OrderedTheorems
  import opened OrderedDelivery
  import OL = OrderedLink

  /** How many numbers the packets with these tickets take up. */
  function Taken(tickets: seq<Ticket>): nat {
    if tickets == [] then 0 else Taken(tickets[..|tickets| - 1]) + tickets[|tickets| - 1].numFragments
  }

  /** At most 2^31 numbers were issued beyond the packets polled. */
  ghost predicate Close(l: Log, c: nat)
    requires IsLog(l) && c < NUM_CHANNELS
  {
    |l.polled[c]| <= |l.tickets[c]| && l.issued[c] - Taken(l.tickets[c][..|l.polled[c]|]) <= 0x8000_0000
  }

  /** Fewer than 2^32 numbers were issued on the channel, and the far end kept close all along. */
  ghost predicate KeepsUp(linkId: u32, evs: seq<(bool, Event)>, forth: bool, c: nat)
    requires c < NUM_CHANNELS
  {
    && LogAt(linkId, evs, forth, |evs|).issued[c] < 0x1_0000_0000
    && forall m :: 0 <= m <= |evs| ==> Close(LogAt(linkId, evs, forth, m), c)
  }

  /** The far end holds packet m of the channel whole, in its reorder queue. */
  ghost predicate Waits(s: Pair, c: nat, m: nat)
    requires WellSized(s) && c < NUM_CHANNELS
    requires m < |s.out.reliable.sent[c]| && m < |s.out.reliable.tickets[c]|
  {
    var ticket, order := s.out.reliable.tickets[c][m], s.far[c].rcv.order;
    && ticket.sequence in order
    && order[ticket.sequence].packet.payload == s.out.reliable.sent[c][m].payload
  }

  /** The far end has polled the packet or holds it whole. */
  ghost predicate HasArrived(s: Pair, c: nat, m: nat)
    requires WellSized(s) && c < NUM_CHANNELS
    requires m < |s.out.reliable.sent[c]| && m < |s.out.reliable.tickets[c]|
  {
    m < |s.out.reliable.polled[c]| || Waits(s, c, m)
  }

  /** Every number of every packet is queued for retransmission, or buffered at the far end, unless
      the packet has arrived. */
  ghost predicate NothingLost(s: Pair, c: nat)
    requires WellSized(s) && c < NUM_CHANNELS
  {
    var l := s.out.reliable;
    && |l.sent[c]| == |l.tickets[c]|
    && forall m, i :: 0 <= m < |l.sent[c]| && 0 <= i < l.tickets[c][m].numFragments ==>
         var n := Fwd(l.tickets[c][m].sequence, i);
         !Channel.IsSequenceDelivered(s.near[c].snd.queue, n) || HasArrived(s, c, m) || n in s.far[c].rcv.fragments
  }

  /** When isPacketDelivered answers yes for the ticket of a packet, the packet has arrived. */
  ghost predicate TicketsTrue(s: Pair, c: nat)
    requires WellSized(s) && c < NUM_CHANNELS
  {
    var l := s.out.reliable;
    && |l.sent[c]| == |l.tickets[c]|
    && forall m :: 0 <= m < |l.sent[c]| ==>
         var t := l.tickets[c][m];
         Channel.IsPacketDelivered(s.near[c].snd.queue, t.sequence, t.numFragments) ==> HasArrived(s, c, m)
  }

  /** With nothing left to retransmit and nothing left to poll, all was polled that was sent. */
  ghost predicate QuietIsAll(s: Pair, c: nat)
    requires WellSized(s) && c < NUM_CHANNELS
  {
    s.near[c].snd.queue == [] && !CanPoll(s.far[c].rcv) ==>
      |s.out.reliable.polled[c]| == |s.out.reliable.sent[c]| && InOrder(s.out.reliable, c)
  }

  // ---- one channel

  lemma {:induction false} TakenIsStart(em: Emission, tickets: seq<Ticket>, m: nat)
    requires Ticketed(em, tickets) && m <= |em|
    ensures Taken(tickets[..m]) == Start(em, m)
  {
    if m > 0 {
      TakenIsStart(em, tickets, m - 1);
      assert tickets[..m][..m - 1] == tickets[..m - 1];
    }
  }

  lemma CloseIsBacklog(l: Log, k: OL.Sys, c: nat)
    requires IsLog(l) && c < NUM_CHANNELS && Agrees(l, k, c)
    ensures Close(l, c) <==> Backlog(k)
  {
    if |k.polled| <= |k.em| {
      TakenIsStart(k.em, l.tickets[c], |k.polled|);
    }
  }

  lemma KeepsUpIsBounded(linkId: u32, evs: seq<(bool, Event)>, forth: bool, h: Hist, c: nat)
    requires c < NUM_CHANNELS && Tracks(linkId, evs, forth, h) && KeepsUp(linkId, evs, forth, c)
    ensures Bounded(h[c])
  {
    hide OL.Run, LogAt, Close, Backlog, Agrees;
    forall k | 0 <= k <= |h[c]| ensures Backlog(OL.Run(h[c][..k])) {
      assert TracksAt(linkId, evs, forth, OL.Run(h[c][..k]), c);
      var m :| 0 <= m <= |evs| && Agrees(LogAt(linkId, evs, forth, m), OL.Run(h[c][..k]), c);
      CloseIsBacklog(LogAt(linkId, evs, forth, m), OL.Run(h[c][..k]), c);
    }
  }

  lemma NumberOf(em: Emission, tickets: seq<Ticket>, m: nat, i: nat)
    requires Stamped(em) && Ticketed(em, tickets) && m < |em| && i < |em[m]|
    ensures Issued(em, FragId(m, i)) && Key(em, FragId(m, i)) == Fwd(tickets[m].sequence, i)
    ensures Issued(em, FragId(m, 0)) && OL.Head(em, m) == tickets[m].sequence
  {
    BackIs(tickets[m].sequence);
    KeySteps(em, FragId(m, 0), i);
  }

  lemma BackIs(n: u32)
    ensures Back(n, 0) == n && Fwd(n, 0) == n
  {
  }

  lemma RunStamped(evs: seq<OL.Event>)
    requires Total(OL.Run(evs).em) < 0x1_0000_0000
    ensures Stamped(OL.Run(evs).em) && |OL.Run(evs).sent| == |OL.Run(evs).em|
  {
    FewNumbersAreRoomy(evs);
    RunRefines(evs);
  }

  lemma WaitingWaits(s: Pair, h: Hist, c: nat, m: nat)
    requires WellSized(s) && c < NUM_CHANNELS && Projects(s, h, c) && Stamped(OL.Run(h[c]).em)
    requires m < |s.out.reliable.sent[c]| && m < |s.out.reliable.tickets[c]| && Waiting(OL.Run(h[c]), m)
    ensures Waits(s, c, m)
  {
    var em := OL.Run(h[c]).em;
    hide OL.Run, Wrap;
    NumberOf(em, s.out.reliable.tickets[c], m, 0);
  }

  /** The run of the channel issues fewer than 2^32 numbers and keeps its backlog bounded. */
  ghost predicate IsKept(s: Pair, h: Hist, c: nat)
    requires WellSized(s) && c < NUM_CHANNELS
  {
    s.out.reliable.issued[c] < 0x1_0000_0000 && Bounded(h[c])
  }

  lemma LosesNothing(linkId: u32, s: Pair, h: Hist, c: nat)
    requires Inv(linkId, s, h) && c < NUM_CHANNELS && IsKept(s, h, c)
    ensures NothingLost(s, c)
  {
    var evs, l := h[c], s.out.reliable;
    assert Projects(s, h, c);
    FewNumbersAreRoomy(evs);
    RunStamped(evs);
    hide OL.Run, Carried, Acked, HasArrived;
    forall m, i | 0 <= m < |l.sent[c]| && 0 <= i < l.tickets[c][m].numFragments
      ensures var n := Fwd(l.tickets[c][m].sequence, i);
              !Channel.IsSequenceDelivered(s.near[c].snd.queue, n) || HasArrived(s, c, m) || n in s.far[c].rcv.fragments
    {
      OneNotLost(s, h, c, m, i);
    }
  }

  lemma OneNotLost(s: Pair, h: Hist, c: nat, m: nat, i: nat)
    requires WellSized(s) && c < NUM_CHANNELS && Projects(s, h, c) && Stamped(OL.Run(h[c]).em)
    requires RoomyRun(h[c]) && Bounded(h[c])
    requires m < |OL.Run(h[c]).em| == |s.out.reliable.sent[c]| && i < s.out.reliable.tickets[c][m].numFragments
    ensures var n := Fwd(s.out.reliable.tickets[c][m].sequence, i);
            !Channel.IsSequenceDelivered(s.near[c].snd.queue, n) || HasArrived(s, c, m) || n in s.far[c].rcv.fragments
  {
    var k, f := OL.Run(h[c]), FragId(m, i);
    NumberOf(k.em, s.out.reliable.tickets[c], m, i);
    NothingIsLost(h[c], f);
    hide OL.Run, RoomyRun, Bounded, Stamped, Ticketed, Waits, Waiting, Fwd;
    if Waiting(k, m) {
      WaitingWaits(s, h, c, m);
    }
  }

  lemma TicketsAreTrue(linkId: u32, s: Pair, h: Hist, c: nat)
    requires Inv(linkId, s, h) && c < NUM_CHANNELS && IsKept(s, h, c)
    ensures TicketsTrue(s, c)
  {
    var evs, l := h[c], s.out.reliable;
    assert Projects(s, h, c);
    FewNumbersAreRoomy(evs);
    RunStamped(evs);
    hide OL.Run, Carried, Acked, Waits, RoomyRun, Bounded, Stamped, Channel.IsPacketDelivered, Waiting;
    forall m | && 0 <= m < |l.sent[c]|
               && var t := l.tickets[c][m];
                  Channel.IsPacketDelivered(s.near[c].snd.queue, t.sequence, t.numFragments)
      ensures HasArrived(s, c, m)
    {
      NumberOf(OL.Run(evs).em, l.tickets[c], m, 0);
      TicketAtRest(evs, m);
      if Waiting(OL.Run(evs), m) {
        WaitingWaits(s, h, c, m);
      }
    }
  }

  lemma QuietIsDelivered(linkId: u32, s: Pair, h: Hist, c: nat)
    requires Inv(linkId, s, h) && c < NUM_CHANNELS && IsKept(s, h, c)
    ensures QuietIsAll(s, c)
  {
    var evs := h[c];
    assert Projects(s, h, c);
    InOrderFrom(linkId, s, h, c);
    FewNumbersAreRoomy(evs);
    RunRefines(evs);
    RoomBelow32(OL.RunBoth(evs), OL.Poll);
    hide OL.Run, Carried, Acked, RoomyRun, Bounded, InOrder, OL.Sim, OL.RoomAt;
    if s.near[c].snd.queue == [] && !CanPoll(s.far[c].rcv) {
      QuietMeansDelivered(evs);
    }
  }

  // ---- both directions of a link

  lemma DeliversAll(linkId: u32, s: Pair, h: Hist, c: nat)
    requires Inv(linkId, s, h) && c < NUM_CHANNELS && IsKept(s, h, c)
    ensures NothingLost(s, c) && TicketsTrue(s, c) && QuietIsAll(s, c)
  {
    hide NothingLost, TicketsTrue, QuietIsAll, Projects, Carried, Acked, IsKept;
    LosesNothing(linkId, s, h, c);
    TicketsAreTrue(linkId, s, h, c);
    QuietIsDelivered(linkId, s, h, c);
  }

  lemma LastLog(linkId: u32, evs: seq<(bool, Event)>, forth: bool)
    ensures var s := if forth then Run(linkId, evs) else Flip(Run(linkId, evs));
            LogAt(linkId, evs, forth, |evs|) == s.out.reliable
  {
    assert evs[..|evs|] == evs;
  }

  /** Whatever the network does with the datagrams of the two links: on every channel of either
      direction with fewer than 2^32 numbers issued and a backlog of at most 2^31 numbers all along,
      nothing is lost, confirmed tickets are true, and once there is nothing to retransmit and nothing
      to poll, everything sent was polled in order. */
  lemma LinkDeliversAll(linkId: u32, evs: seq<(bool, Event)>, forth: bool, c: nat)
    requires c < NUM_CHANNELS && KeepsUp(linkId, evs, forth, c)
    ensures var s := if forth then Run(linkId, evs) else Flip(Run(linkId, evs));
            NothingLost(s, c) && TicketsTrue(s, c) && QuietIsAll(s, c)
  {
    var s := if forth then Run(linkId, evs) else Flip(Run(linkId, evs));
    var onward, homeward := RunProjects(linkId, evs);
    var h := if forth then onward else homeward;
    KeepsUpIsBounded(linkId, evs, forth, h, c);
    LastLog(linkId, evs, forth);
    hide Inv, Run, NothingLost, TicketsTrue, QuietIsAll, Tracks, LogAt, Close, Bounded;
    assert IsKept(s, h, c);
    DeliversAll(linkId, s, h, c);
  }

  // ---- few numbers

  lemma IssuedGrows(linkId: u32, s: Pair, ev: Event, c: nat)
    requires WellSized(s) && c < NUM_CHANNELS
    ensures s.out.reliable.issued[c] <= Step(linkId, s, ev).out.reliable.issued[c]
    ensures Step(linkId, s, ev).home == s.home
  {
    hide Stamp, Enqueue, Encoded, AllQueued, AckDatagrams, Received, PollOutcome;
  }

  lemma {:induction false} IssuedBefore(linkId: u32, evs: seq<(bool, Event)>, forth: bool, c: nat, m: nat)
    requires c < NUM_CHANNELS && m <= |evs|
    ensures LogAt(linkId, evs, forth, m).issued[c] <= LogAt(linkId, evs, forth, |evs|).issued[c]
  {
    if m < |evs| {
      var front, s := evs[..|evs| - 1], Run(linkId, evs[..|evs| - 1]);
      assert evs[..|evs|] == evs && front[..|front|] == front && front[..m] == evs[..m];
      IssuedBefore(linkId, front, forth, c, m);
      IssuedGrows(linkId, s, evs[|evs| - 1].1, c);
      IssuedGrows(linkId, Flip(s), evs[|evs| - 1].1, c);
      hide Step;
    }
  }

  /** With at most 2^31 numbers issued in all, the far end keeps close by itself. */
  lemma FewKeepUp(linkId: u32, evs: seq<(bool, Event)>, forth: bool, c: nat)
    requires c < NUM_CHANNELS && LogAt(linkId, evs, forth, |evs|).issued[c] <= 0x8000_0000
    ensures KeepsUp(linkId, evs, forth, c)
  {
    hide Run, LogAt, Close;
    forall m | 0 <= m <= |evs| ensures Close(LogAt(linkId, evs, forth, m), c) {
      IssuedBefore(linkId, evs, forth, c, m);
      SameLog(linkId, evs, forth, m);
      FewAreClose(linkId, evs[..m], forth, c);
    }
  }

  lemma SameLog(linkId: u32, evs: seq<(bool, Event)>, forth: bool, m: nat)
    requires m <= |evs|
    ensures LogAt(linkId, evs[..m], forth, m) == LogAt(linkId, evs, forth, m)
  {
    assert evs[..m][..m] == evs[..m];
  }

  lemma FewAreClose(linkId: u32, evs: seq<(bool, Event)>, forth: bool, c: nat)
    requires c < NUM_CHANNELS && LogAt(linkId, evs, forth, |evs|).issued[c] <= 0x8000_0000
    ensures Close(LogAt(linkId, evs, forth, |evs|), c)
  {
    var s := if forth then Run(linkId, evs) else Flip(Run(linkId, evs));
    var onward, homeward := RunProjects(linkId, evs);
    var h := if forth then onward else homeward;
    LastLog(linkId, evs, forth);
    hide Inv, Run, OL.Run, Tracks, LogAt, Close, InOrder;
    ProjectsAgrees(linkId, s, h, c);
    InOrderFrom(linkId, s, h, c);
    FewIsBacklog(s.out.reliable, OL.Run(h[c]), c);
    CloseIsBacklog(s.out.reliable, OL.Run(h[c]), c);
  }

  lemma FewIsBacklog(l: Log, k: OL.Sys, c: nat)
    requires IsLog(l) && c < NUM_CHANNELS && Agrees(l, k, c) && InOrder(l, c) && l.issued[c] <= 0x8000_0000
    ensures Backlog(k)
  {
  }
}
