/** Loss on whole links: exactly when a number that was sent can end up nowhere. */
module LinkLoss {
  import opened Seq32
  import opened Packets
  import opened Serialization
  import opened Numbering
  import opened Channel
  import opened Wire
  import opened Link
  import opened LinkSystem
  import opened LinkTheorems
  import opened OrderedTheorems
  import OD = OrderedDelivery
  import OL = OrderedLink
  import Loss = OrderedLoss

  /** The two links seen from the sender of one direction. */
  ghost function View(linkId: u32, evs: seq<(bool, Event)>, forth: bool): (s: Pair)
    ensures WellSized(s)
  {
    if forth then Run(linkId, evs) else Flip(Run(linkId, evs))
  }

  lemma ViewSnoc(linkId: u32, evs: seq<(bool, Event)>, forth: bool, ev: Event)
    ensures View(linkId, evs + [(forth, ev)], forth) == Step(linkId, View(linkId, evs, forth), ev)
  {
    assert (evs + [(forth, ev)])[..|evs|] == evs;
    hide Step;
  }

  // ---- everything sent stays on the network

  /** A datagram of the channel with this number is on the network. */
  ghost predicate OnWire(wire: set<seq<Byte>>, c: nat, n: u32) {
    exists w :: w in wire && IsNormal(w) && w[4] == RELIABLE_ORDERED && ChannelOf(w) == c && DecodeNormal(w).seqNo == n
  }

  ghost predicate AllOnWire(f: Flow) {
    && IsLog(f.reliable)
    && forall c, m, i :: 0 <= c < NUM_CHANNELS && 0 <= m < |f.reliable.tickets[c]|
                         && 0 <= i < f.reliable.tickets[c][m].numFragments ==>
         OnWire(f.wire, c, Fwd(f.reliable.tickets[c][m].sequence, i))
  }

  lemma EncodedIsOnWire(linkId: u32, wire: set<seq<Byte>>, c: nat, n: u32, fs: seq<Fragment>, i: nat)
    requires c < NUM_CHANNELS && i < |fs|
    requires Elems(Encoded(linkId, RELIABLE_ORDERED, c, Stamp(n, fs))) <= wire
    ensures OnWire(wire, c, Fwd(n, i))
  {
    var ds := Stamp(n, fs);
    NormalRoundTrip(linkId, RELIABLE_ORDERED, c, ds[i]);
    var ws := Encoded(linkId, RELIABLE_ORDERED, c, ds);
    hide EncodeNormal, DecodeNormal, ChannelOf, Fwd;
    assert ws[i] in ws;
    assert EncodeNormal(linkId, RELIABLE_ORDERED, c, ds[i]) in wire;
  }

  lemma MoreOnWire(f: Flow, f': Flow)
    requires AllOnWire(f) && f.wire <= f'.wire && IsLog(f'.reliable) && f'.reliable.tickets == f.reliable.tickets
    ensures AllOnWire(f')
  {
    hide Fwd;
    forall c, m, i | 0 <= c < NUM_CHANNELS && 0 <= m < |f.reliable.tickets[c]|
                     && 0 <= i < f.reliable.tickets[c][m].numFragments
      ensures OnWire(f'.wire, c, Fwd(f.reliable.tickets[c][m].sequence, i))
    {
      assert OnWire(f.wire, c, Fwd(f.reliable.tickets[c][m].sequence, i));
    }
  }

  lemma SendOnWire(linkId: u32, s: Pair, fs: seq<Fragment>, p: Packet, c: nat)
    requires WellSized(s) && AllOnWire(s.out) && c < NUM_CHANNELS
    ensures AllOnWire(SendStep(linkId, s, fs, p, c, true).out)
  {
    var f, f' := s.out, SendStep(linkId, s, fs, p, c, true).out;
    var n := s.near[c].snd.next;
    assert Elems(Encoded(linkId, RELIABLE_ORDERED, c, Stamp(n, fs))) <= f'.wire;
    assert f'.reliable.tickets == f.reliable.tickets[c := f.reliable.tickets[c] + [Ticket(n, |fs|)]];
    hide Fwd, Stamp, Encoded, OnWire, Enqueue, SendStep;
    assert f.wire <= f'.wire by { WireGrowsBySend(linkId, s, fs, p, c); }
    forall b, m, i | 0 <= b < NUM_CHANNELS && 0 <= m < |f'.reliable.tickets[b]|
                     && 0 <= i < f'.reliable.tickets[b][m].numFragments
      ensures OnWire(f'.wire, b, Fwd(f'.reliable.tickets[b][m].sequence, i))
    {
      if b == c && m == |f.reliable.tickets[c]| {
        EncodedIsOnWire(linkId, f'.wire, c, n, fs, i);
      } else {
        assert f'.reliable.tickets[b][m] == f.reliable.tickets[b][m];
        StaysOnWire(f.wire, f'.wire, b, Fwd(f.reliable.tickets[b][m].sequence, i));
      }
    }
  }

  lemma StaysOnWire(wire: set<seq<Byte>>, wire': set<seq<Byte>>, c: nat, n: u32)
    requires wire <= wire' && OnWire(wire, c, n)
    ensures OnWire(wire', c, n)
  {
  }

  lemma WireGrowsBySend(linkId: u32, s: Pair, fs: seq<Fragment>, p: Packet, c: nat)
    requires WellSized(s) && c < NUM_CHANNELS
    ensures s.out.wire <= SendStep(linkId, s, fs, p, c, true).out.wire
  {
    hide Stamp, Encoded, Enqueue, Elems;
  }

  lemma StepOnWire(linkId: u32, s: Pair, ev: Event)
    requires WellSized(s) && AllOnWire(s.out)
    ensures AllOnWire(Step(linkId, s, ev).out) && Step(linkId, s, ev).home == s.home
  {
    hide Stamp, Fragments, Encoded, Enqueue, OnWire, Received, AllQueued, AckDatagrams, PollOutcome, Elems, AllOnWire;
    if ev.Send? && ev.reliable && ev.size > 0 && ev.channel < NUM_CHANNELS {
      SendOnWire(linkId, s, Fragments(ev.p, ev.size), ev.p, ev.channel);
      hide SendStep;
    } else {
      MoreOnWire(s.out, Step(linkId, s, ev).out);
    }
  }

  lemma {:induction false} RunOnWire(linkId: u32, evs: seq<(bool, Event)>)
    ensures AllOnWire(Run(linkId, evs).out) && AllOnWire(Run(linkId, evs).home)
  {
    if evs != [] {
      var s, ev := Run(linkId, evs[..|evs| - 1]), evs[|evs| - 1].1;
      RunOnWire(linkId, evs[..|evs| - 1]);
      hide AllOnWire, Step;
      if evs[|evs| - 1].0 {
        StepOnWire(linkId, s, ev);
      } else {
        StepOnWire(linkId, Flip(s), ev);
      }
    }
  }

  // ---- a datagram that comes in, is acked, and forgotten

  lemma {:induction false} AckIsAmong(linkId: u32, v: seq<Chan>, n: nat, c: nat)
    requires c < n <= |v| == NUM_CHANNELS && v[c].rcv.acks != []
    ensures EncodeAcks(linkId, c, OL.FirstAcks(v[c].rcv.acks)) in AckDatagrams(linkId, v, n)
  {
    hide EncodeAcks, OL.FirstAcks;
    if c < n - 1 {
      AckIsAmong(linkId, v, n - 1, c);
    } else {
      assert OL.FirstAcks(v[c].rcv.acks) != [] by { SomeFirst(v[c].rcv.acks); }
    }
  }

  lemma SomeFirst(acks: seq<u32>)
    requires acks != []
    ensures OL.FirstAcks(acks) != []
  {
  }

  /** The pending acks go out; the datagram comes in and is acked; the ack goes out and arrives. */
  function LosingEvents(linkId: u32, c: nat, w: seq<Byte>, n: u32): seq<Event>
    requires c < NUM_CHANNELS
  {
    [DispatchAcks, Arrive(w), DispatchAcks, AcksArrive(EncodeAcks(linkId, c, [n]))]
  }

  /** What they change of the channel: the number leaves the retransmit queue. If it was turned away,
      nothing is buffered, either. */
  ghost predicate LetGo(s: Pair, s': Pair, c: nat, n: u32) {
    && WellSized(s) && WellSized(s') && c < NUM_CHANNELS && s'.out.reliable == s.out.reliable
    && s'.near[c].snd.queue == RemoveFirst(s.near[c].snd.queue, n) && s'.out.wire == s.out.wire
    && (forall b :: 0 <= b < NUM_CHANNELS && b != c ==> s'.near[b] == s.near[b])
    && (IsSequenceNewer(n, s.far[c].rcv.next)
        || (s'.far[c].rcv.order == s.far[c].rcv.order && s'.far[c].rcv.fragments == s.far[c].rcv.fragments))
  }

  lemma Dispatched(linkId: u32, s: Pair, c: nat)
    requires WellSized(s) && c < NUM_CHANNELS
    ensures var s' := Step(linkId, s, DispatchAcks);
            && s'.near == s.near && s'.out.wire == s.out.wire && s'.out.reliable == s.out.reliable
            && s'.far[c].rcv == s.far[c].rcv.(acks := [])
            && (s.far[c].rcv.acks != [] ==>
                  EncodeAcks(linkId, c, OL.FirstAcks(s.far[c].rcv.acks)) in s'.out.back)
  {
    if s.far[c].rcv.acks != [] {
      AckIsAmong(linkId, s.far, NUM_CHANNELS, c);
    }
    hide EncodeAcks, OL.FirstAcks, AckDatagrams;
  }

  lemma ComesIn(linkId: u32, s: Pair, c: nat, d: Datagram)
    requires WellSized(s) && c < NUM_CHANNELS && s.far[c].rcv.acks == []
    requires EncodeNormal(linkId, RELIABLE_ORDERED, c, d) in s.out.wire
    ensures var s' := Step(linkId, s, Arrive(EncodeNormal(linkId, RELIABLE_ORDERED, c, d)));
            && s'.near == s.near && s'.out == s.out && s'.far[c].rcv.acks == [d.seqNo]
            && (!IsSequenceNewer(d.seqNo, s.far[c].rcv.next) ==>
                  s'.far[c].rcv == s.far[c].rcv.(acks := [d.seqNo]))
  {
    InsertKeepsAcks(s.far[c].rcv.(acks := AddAck(s.far[c].rcv.acks, d.seqNo)), d);
    var w := EncodeNormal(linkId, RELIABLE_ORDERED, c, d);
    StepReceives(linkId, s, w);
    ReceivedReliable(linkId, s.far, c, d);
    hide Step, Received, EncodeNormal, IsSequenceNewer, Channel.Insert;
    assert AddAck([], d.seqNo) == [d.seqNo];
  }

  lemma AckTaken(linkId: u32, s: Pair, c: nat, n: u32)
    requires WellSized(s) && c < NUM_CHANNELS && EncodeAcks(linkId, c, [n]) in s.out.back
    ensures var s' := Step(linkId, s, AcksArrive(EncodeAcks(linkId, c, [n])));
            && s'.far == s.far && s'.out == s.out && s'.near[c].snd.queue == RemoveFirst(s.near[c].snd.queue, n)
            && forall b :: 0 <= b < NUM_CHANNELS && b != c ==> s'.near[b] == s.near[b]
  {
    StepReceives(linkId, s, EncodeAcks(linkId, c, [n]));
    ReceivedAcks(linkId, s.near, c, [n]);
    assert [n][1..] == [];
    assert RemoveAll(s.near[c].snd.queue, [n]) == RemoveAll(RemoveFirst(s.near[c].snd.queue, n), []);
    hide Step, Received, EncodeAcks, RemoveFirst;
  }

  lemma OneAck(n: u32)
    ensures OL.FirstAcks([n]) == [n]
  {
  }

  /** In one direction's events. */
  function Towards(evs: seq<Event>, forth: bool): seq<(bool, Event)> {
    seq(|evs|, i requires 0 <= i < |evs| => (forth, evs[i]))
  }

  /** Where one direction's events lead from any state of the two links. */
  ghost function Steps(linkId: u32, s: Pair, more: seq<Event>): (s': Pair)
    requires WellSized(s)
    ensures WellSized(s')
    decreases |more|
  {
    if more == [] then s else Steps(linkId, Step(linkId, s, more[0]), more[1..])
  }

  lemma {:induction false} ViewSteps(linkId: u32, evs: seq<(bool, Event)>, more: seq<Event>, forth: bool)
    ensures View(linkId, evs + Towards(more, forth), forth) == Steps(linkId, View(linkId, evs, forth), more)
    decreases |more|
  {
    hide View, Step;
    if more == [] {
      assert evs + Towards(more, forth) == evs;
    } else {
      var evs' := evs + [(forth, more[0])];
      ViewSnoc(linkId, evs, forth, more[0]);
      ViewSteps(linkId, evs', more[1..], forth);
      assert evs + Towards(more, forth) == evs' + Towards(more[1..], forth);
    }
  }

  lemma FourSteps(linkId: u32, s: Pair, a: Event, b: Event, c: Event, d: Event)
    requires WellSized(s)
    ensures Steps(linkId, s, [a, b, c, d])
            == Step(linkId, Step(linkId, Step(linkId, Step(linkId, s, a), b), c), d)
  {
    hide Step;
    assert [a, b, c, d][1..] == [b, c, d] && [b, c, d][1..] == [c, d] && [c, d][1..] == [d] && [d][1..] == [];
    var s1 := Step(linkId, s, a);
    var s2 := Step(linkId, s1, b);
    var s3 := Step(linkId, s2, c);
    assert Steps(linkId, s3, [d]) == Steps(linkId, Step(linkId, s3, d), []);
    assert Steps(linkId, s2, [c, d]) == Steps(linkId, s3, [d]);
    assert Steps(linkId, s1, [b, c, d]) == Steps(linkId, s2, [c, d]);
  }

  lemma LetsGo(linkId: u32, s: Pair, c: nat, d: Datagram)
    requires WellSized(s) && c < NUM_CHANNELS && EncodeNormal(linkId, RELIABLE_ORDERED, c, d) in s.out.wire
    ensures var w := EncodeNormal(linkId, RELIABLE_ORDERED, c, d);
            LetGo(s, Steps(linkId, s, LosingEvents(linkId, c, w, d.seqNo)), c, d.seqNo)
  {
    var w, ack := EncodeNormal(linkId, RELIABLE_ORDERED, c, d), EncodeAcks(linkId, c, [d.seqNo]);
    var s1 := Step(linkId, s, DispatchAcks);
    var s2 := Step(linkId, s1, Arrive(w));
    var s3 := Step(linkId, s2, DispatchAcks);
    hide Step, EncodeNormal, EncodeAcks, IsSequenceNewer, RemoveFirst;
    Dispatched(linkId, s, c);
    ComesIn(linkId, s1, c, d);
    OneAck(d.seqNo);
    Dispatched(linkId, s2, c);
    AckTaken(linkId, s3, c, d.seqNo);
    FourSteps(linkId, s, DispatchAcks, Arrive(w), DispatchAcks, AcksArrive(ack));
  }

  // ---- beyond the bound

  lemma {:induction false} RemovedIsGone(q: seq<Datagram>, n: u32)
    requires forall i, k :: 0 <= i < k < |q| ==> q[i].seqNo != q[k].seqNo
    ensures Channel.IsSequenceDelivered(RemoveFirst(q, n), n)
  {
    if q != [] {
      if q[0].seqNo == n {
        forall d | d in q[1..] ensures d.seqNo != n {
          var k :| 0 <= k < |q[1..]| && q[1..][k] == d;
          assert q[k + 1] == d;
        }
      } else {
        RemovedIsGone(q[1..], n);
      }
    }
  }

  /** The datagram with a fragment's number, found on the network, is that fragment's. */
  lemma OnWireIsSent(linkId: u32, s: Pair, h: Hist, c: nat, f: FragId)
    requires Inv(linkId, s, h) && c < NUM_CHANNELS && Issued(OL.Run(h[c]).em, f)
    requires OnWire(s.out.wire, c, Key(OL.Run(h[c]).em, f)) && Total(OL.Run(h[c]).em) < 0x1_0000_0000
    ensures EncodeNormal(linkId, RELIABLE_ORDERED, c, At(OL.Run(h[c]).em, f)) in s.out.wire
  {
    var em := OL.Run(h[c]).em;
    var w :| w in s.out.wire && IsNormal(w) && w[4] == RELIABLE_ORDERED && ChannelOf(w) == c
             && DecodeNormal(w).seqNo == Key(em, f);
    assert Carried(linkId, h, w);
    var c', f' :| 0 <= c' < NUM_CHANNELS && IsFragment(linkId, OL.Run(h[c']).em, c', f', w);
    NormalRoundTrip(linkId, RELIABLE_ORDERED, c', At(OL.Run(h[c']).em, f'));
    FewNumbersAreRoomy(h[c]);
    RunRefines(h[c]);
    hide OL.Run, EncodeNormal, DecodeNormal, ChannelOf, Inv, OL.Sim;
    Loss.SameKeySame(OL.RunBoth(h[c]), f, f');
  }

  /** The fragment that gets lost: 2^31 numbers past the packets polled. */
  ghost predicate IsFar(k: OL.Sys, f: FragId) {
    && Issued(k.em, f) && Issued(k.em, FragId(f.msg, 0)) && f.msg >= |k.polled|
    && Key(k.em, f) !in k.rcv.fragments && OL.Head(k.em, f.msg) !in k.rcv.order
    && !IsSequenceNewer(Key(k.em, f), k.rcv.next)
    && forall i, j :: 0 <= i < j < |k.snd.queue| ==> k.snd.queue[i].seqNo != k.snd.queue[j].seqNo
  }

  lemma SomeFar(evs: seq<OL.Event>) returns (f: FragId)
    requires Total(OL.Run(evs).em) < 0x1_0000_0000 && !OD.Backlog(OL.Run(evs))
    ensures IsFar(OL.Run(evs), f)
  {
    var j := OL.RunBoth(evs);
    Loss.RunIsNear(evs);
    Loss.SimNumbers(j);
    f := Loss.FragmentAt(j.c.em, Start(j.c.em, |j.c.polled|) + Loss.HALF);
    hide OL.Run, OL.RunBoth, Loss.Near, OL.Sim, IsSequenceNewer;
    Loss.FarIsNotThere(j, f);
    Loss.QueueKeysDiffer(j);
  }

  lemma FarIsLost(s: Pair, s': Pair, h: Hist, c: nat, f: FragId)
    requires WellSized(s) && c < NUM_CHANNELS && Projects(s, h, c) && Stamped(OL.Run(h[c]).em)
    requires |OL.Run(h[c]).sent| == |OL.Run(h[c]).em|
    requires IsFar(OL.Run(h[c]), f) && LetGo(s, s', c, Key(OL.Run(h[c]).em, f))
    requires !IsSequenceNewer(Key(OL.Run(h[c]).em, f), s.far[c].rcv.next)
    ensures !NothingLost(s', c)
  {
    var k, l := OL.Run(h[c]), s'.out.reliable;
    NumberOf(k.em, l.tickets[c], f.msg, f.part);
    RemovedIsGone(s.near[c].snd.queue, Key(k.em, f));
    hide OL.Run, RemoveFirst, Fwd, IsSequenceNewer, Stamped, Ticketed, Channel.IsSequenceDelivered;
    var n := Fwd(l.tickets[c][f.msg].sequence, f.part);
    assert !HasArrived(s', c, f.msg) && n !in s'.far[c].rcv.fragments;
    assert f.part < l.tickets[c][f.msg].numFragments by { Covered(k.em, l.tickets[c], f); }
  }

  lemma Covered(em: Emission, tickets: seq<Ticket>, f: FragId)
    requires Ticketed(em, tickets) && Issued(em, f)
    ensures f.part < tickets[f.msg].numFragments
  {
  }

  predicate SendsNothing(more: seq<(bool, Event)>, forth: bool) {
    forall i :: 0 <= i < |more| ==> more[i].0 == forth ==> !more[i].1.Send?
  }

  ghost function LastLogOf(linkId: u32, evs: seq<(bool, Event)>, forth: bool): (l: Log)
    ensures IsLog(l)
  {
    LogAt(linkId, evs, forth, |evs|)
  }

  /** In such a state there is a number that the far end would turn away, and its datagram is on the
      network. */
  lemma FarFragment(linkId: u32, s: Pair, h: Hist, c: nat) returns (f: FragId)
    requires Inv(linkId, s, h) && c < NUM_CHANNELS && AllOnWire(s.out)
    requires s.out.reliable.issued[c] < 0x1_0000_0000 && !Close(s.out.reliable, c)
    ensures Projects(s, h, c) && IsFar(OL.Run(h[c]), f)
    ensures Stamped(OL.Run(h[c]).em) && |OL.Run(h[c]).sent| == |OL.Run(h[c]).em|
    ensures EncodeNormal(linkId, RELIABLE_ORDERED, c, At(OL.Run(h[c]).em, f)) in s.out.wire
  {
    ProjectsAgrees(linkId, s, h, c);
    CloseIsBacklog(s.out.reliable, OL.Run(h[c]), c);
    RunStamped(h[c]);
    f := SomeFar(h[c]);
    FarOnWire(s, h, c, f);
    hide OL.Run, Close, IsSequenceNewer, AllOnWire, EncodeNormal, OnWire, Stamped, Agrees;
    OnWireIsSent(linkId, s, h, c, f);
    assert Projects(s, h, c);
  }

  lemma FarIsTurnedAway(s: Pair, h: Hist, c: nat, f: FragId)
    requires WellSized(s) && c < NUM_CHANNELS && Projects(s, h, c) && IsFar(OL.Run(h[c]), f)
    ensures Key(OL.Run(h[c]).em, f) == At(OL.Run(h[c]).em, f).seqNo
    ensures !IsSequenceNewer(At(OL.Run(h[c]).em, f).seqNo, s.far[c].rcv.next)
  {
    hide OL.Run, IsSequenceNewer, Ticketed;
  }

  /** From every state of two links in which the far end is not close on a channel, and fewer than 2^32
      numbers were issued there, four events without a send lose a number of it. */
  lemma BeyondBoundIsLost(linkId: u32, evs: seq<(bool, Event)>, forth: bool, c: nat) returns (more: seq<(bool, Event)>)
    requires c < NUM_CHANNELS && LastLogOf(linkId, evs, forth).issued[c] < 0x1_0000_0000
    requires !Close(LastLogOf(linkId, evs, forth), c)
    ensures SendsNothing(more, forth) && !NothingLost(View(linkId, evs + more, forth), c)
  {
    var s := View(linkId, evs, forth);
    var onward, homeward := RunProjects(linkId, evs);
    var h := if forth then onward else homeward;
    RunOnWire(linkId, evs);
    LastLog(linkId, evs, forth);
    hide Inv, Run, OL.Run, LogAt, Tracks, Close, IsSequenceNewer, AllOnWire, NothingLost, LetGo, EncodeNormal;
    var f := FarFragment(linkId, s, h, c);
    hide IsFar, Projects, Stamped;
    FarIsTurnedAway(s, h, c, f);
    var d := At(OL.Run(h[c]).em, f);
    var events := LosingEvents(linkId, c, EncodeNormal(linkId, RELIABLE_ORDERED, c, d), d.seqNo);
    LetsGo(linkId, s, c, d);
    ViewSteps(linkId, evs, events, forth);
    more := Towards(events, forth);
    FarIsLost(s, View(linkId, evs + more, forth), h, c, f);
    hide View;
  }

  lemma FarOnWire(s: Pair, h: Hist, c: nat, f: FragId)
    requires WellSized(s) && c < NUM_CHANNELS && AllOnWire(s.out) && Agrees(s.out.reliable, OL.Run(h[c]), c)
    requires Stamped(OL.Run(h[c]).em) && Issued(OL.Run(h[c]).em, f)
    ensures OnWire(s.out.wire, c, Key(OL.Run(h[c]).em, f))
  {
    var em := OL.Run(h[c]).em;
    hide OL.Run, OnWire, Fwd, Stamped;
    NumberOf(em, s.out.reliable.tickets[c], f.msg, f.part);
    Covered(em, s.out.reliable.tickets[c], f);
  }

  // ---- within the bound

  lemma QuietLog(linkId: u32, s: Pair, ev: Event, c: nat)
    requires WellSized(s) && c < NUM_CHANNELS && !ev.Send?
    ensures var l, l' := s.out.reliable, Step(linkId, s, ev).out.reliable;
            && l'.tickets == l.tickets && l'.sent == l.sent && l'.issued == l.issued
            && |l.polled[c]| <= |l'.polled[c]|
    ensures Step(linkId, s, ev).home == s.home
  {
    hide Received, AllQueued, AckDatagrams, PollOutcome;
  }

  lemma HomeStays(linkId: u32, s: Pair, ev: Event)
    requires WellSized(s)
    ensures Step(linkId, s, ev).home == s.home
  {
    hide Received, AllQueued, AckDatagrams, PollOutcome, Stamp, Encoded, Enqueue, Elems;
  }

  lemma {:induction false} QuietLogs(linkId: u32, evs: seq<(bool, Event)>, more: seq<(bool, Event)>, forth: bool,
                                     c: nat)
    requires c < NUM_CHANNELS && SendsNothing(more, forth)
    ensures var l, l' := LastLogOf(linkId, evs, forth), LastLogOf(linkId, evs + more, forth);
            && l'.tickets == l.tickets && l'.sent == l.sent && l'.issued == l.issued
            && |l.polled[c]| <= |l'.polled[c]|
  {
    if more == [] {
      assert evs + more == evs;
    } else {
      var fore, onward, ev := more[..|more| - 1], more[|more| - 1].0, more[|more| - 1].1;
      var all, s := evs + more, Run(linkId, evs + fore);
      QuietLogs(linkId, evs, fore, forth, c);
      assert all[..|all| - 1] == evs + fore && all[..|all|] == all && (evs + fore)[..|evs + fore|] == evs + fore;
      if onward == forth {
        QuietLog(linkId, if forth then s else Flip(s), ev, c);
      } else {
        HomeStays(linkId, if onward then s else Flip(s), ev);
      }
      hide Step;
    }
  }

  lemma {:induction false} TakenGrows(tickets: seq<Ticket>, m: nat, n: nat)
    requires m <= n <= |tickets|
    ensures Taken(tickets[..m]) <= Taken(tickets[..n])
  {
    if m < n {
      TakenGrows(tickets, m, n - 1);
      assert tickets[..n][..n - 1] == tickets[..n - 1];
    }
  }

  lemma CloseStays(linkId: u32, evs: seq<(bool, Event)>, more: seq<(bool, Event)>, forth: bool, c: nat)
    requires c < NUM_CHANNELS && SendsNothing(more, forth)
    requires LastLogOf(linkId, evs, forth).issued[c] < 0x1_0000_0000 && Close(LastLogOf(linkId, evs, forth), c)
    ensures Close(LastLogOf(linkId, evs + more, forth), c)
  {
    var l, l' := LastLogOf(linkId, evs, forth), LastLogOf(linkId, evs + more, forth);
    QuietLogs(linkId, evs, more, forth, c);
    LinkDeliversInOrder(linkId, evs + more, c);
    LastLog(linkId, evs + more, forth);
    hide LogAt, Run, Taken;
    assert InOrder(l', c);
    TakenGrows(l.tickets[c], |l.polled[c]|, |l'.polled[c]|);
  }

  lemma LogOfPrefix(linkId: u32, evs: seq<(bool, Event)>, forth: bool, m: nat)
    requires m <= |evs|
    ensures LogAt(linkId, evs, forth, m) == LastLogOf(linkId, evs[..m], forth)
  {
    assert evs[..m][..m] == evs[..m];
  }

  /** The bound is exact for links, too: if the far end kept close on a channel up to the last event,
      some continuation without sends loses a number if and only if it is not close now. */
  lemma LinkLossExactlyWhen(linkId: u32, evs: seq<(bool, Event)>, forth: bool, c: nat)
    requires c < NUM_CHANNELS && LastLogOf(linkId, evs, forth).issued[c] < 0x1_0000_0000
    requires forall m :: 0 <= m < |evs| ==> Close(LogAt(linkId, evs, forth, m), c)
    ensures (exists more :: SendsNothing(more, forth) && !NothingLost(View(linkId, evs + more, forth), c))
            <==> !Close(LastLogOf(linkId, evs, forth), c)
  {
    hide Run, LogAt, Close, NothingLost, View;
    if Close(LastLogOf(linkId, evs, forth), c) {
      forall more | SendsNothing(more, forth) ensures NothingLost(View(linkId, evs + more, forth), c) {
        StaysKept(linkId, evs, more, forth, c);
      }
    } else {
      var more := BeyondBoundIsLost(linkId, evs, forth, c);
    }
  }

  lemma KeepsUpStill(linkId: u32, evs: seq<(bool, Event)>, more: seq<(bool, Event)>, forth: bool, c: nat)
    requires c < NUM_CHANNELS && KeepsUp(linkId, evs, forth, c) && SendsNothing(more, forth)
    ensures KeepsUp(linkId, evs + more, forth, c)
  {
    var all := evs + more;
    hide Run, LogAt, Close;
    QuietLogs(linkId, evs, more, forth, c);
    forall m | 0 <= m <= |all| ensures Close(LogAt(linkId, all, forth, m), c) {
      LogOfPrefix(linkId, all, forth, m);
      if m <= |evs| {
        assert all[..m] == evs[..m];
        LogOfPrefix(linkId, evs, forth, m);
      } else {
        assert all[..m] == evs + more[..m - |evs|];
        CloseStays(linkId, evs, more[..m - |evs|], forth, c);
      }
    }
  }

  lemma StaysKept(linkId: u32, evs: seq<(bool, Event)>, more: seq<(bool, Event)>, forth: bool, c: nat)
    requires c < NUM_CHANNELS && LastLogOf(linkId, evs, forth).issued[c] < 0x1_0000_0000
    requires forall m :: 0 <= m <= |evs| ==> Close(LogAt(linkId, evs, forth, m), c)
    requires SendsNothing(more, forth)
    ensures NothingLost(View(linkId, evs + more, forth), c)
  {
    hide Run, LogAt, Close, NothingLost;
    assert KeepsUp(linkId, evs, forth, c);
    KeepsUpStill(linkId, evs, more, forth, c);
    LinkDeliversAll(linkId, evs + more, forth, c);
  }
}
