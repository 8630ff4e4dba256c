/** The unreliable halves of the channels of two links: each has a run of its own too, so packets
    sent unreliably over a link arrive as a strictly increasing choice of those sent. */
module LinkUnreliable {
  import opened Seq32
  import opened Packets
  import opened Serialization
  import opened Numbering
  import opened Channel
  import opened Wire
  import opened Link
  import opened LinkSystem
  import OL = OrderedLink
  import U = Unreliable

  /** For each channel, the events its unreliable half saw. */
  type Hist = h: seq<seq<U.Event>> | |h| == NUM_CHANNELS witness seq(NUM_CHANNELS, _ => [])

  ghost predicate Follows(s: Pair, h: Hist, c: nat)
    requires WellSized(s) && c < NUM_CHANNELS
  {
    var k, log := U.Run(h[c]), s.out.unreliable;
    && k.next == s.near[c].sendSeqUnreliable && k.rcv == s.far[c].inbox
    && k.sent == log.sent[c] && k.polled == log.polled[c]
    && Total(k.em) == log.issued[c] && Ticketed(k.em, log.tickets[c])
  }

  ghost predicate IsLoose(linkId: u32, em: Emission, c: nat, f: FragId, w: seq<Byte>)
    requires c < NUM_CHANNELS
  {
    Issued(em, f) && w == EncodeNormal(linkId, UNRELIABLE_SEQUENCED, c, At(em, f))
  }

  /** A datagram on the network is reliable, or a fragment its channel emitted. */
  ghost predicate Sourced(linkId: u32, h: Hist, w: seq<Byte>) {
    || (IsNormal(w) && w[4] == RELIABLE_ORDERED)
    || exists c, f :: 0 <= c < NUM_CHANNELS && IsLoose(linkId, U.Run(h[c]).em, c, f, w)
  }

  ghost predicate LooseInv(linkId: u32, s: Pair, h: Hist) {
    && WellSized(s)
    && (forall c :: 0 <= c < NUM_CHANNELS ==> Follows(s, h, c))
    && (forall w :: w in s.out.wire ==> Sourced(linkId, h, w))
    && (forall w :: w in s.out.back ==> !IsNormal(w))
  }

  function With(h: Hist, c: nat, ev: U.Event): Hist
    requires c < NUM_CHANNELS
  {
    h[c := h[c] + [ev]]
  }

  ghost predicate EmissionsGrow(h: Hist, h': Hist) {
    forall c :: 0 <= c < NUM_CHANNELS ==> U.Run(h[c]).em <= U.Run(h'[c]).em
  }

  lemma WithGrows(h: Hist, c: nat, ev: U.Event)
    requires c < NUM_CHANNELS
    ensures EmissionsGrow(h, With(h, c, ev))
    ensures U.Run(With(h, c, ev)[c]) == U.Step(U.Run(h[c]), ev)
  {
    U.RunSnoc(h[c], ev);
    EmissionGrows(U.Run(h[c]), ev);
    hide U.Run, U.Step;
  }

  lemma EmissionGrows(k: U.Sys, ev: U.Event)
    ensures k.em <= U.Step(k, ev).em
  {
    hide U.Receive, U.Remaining, Stamp, Fragments;
  }

  lemma SourcedGrows(linkId: u32, h: Hist, h': Hist, w: seq<Byte>)
    requires EmissionsGrow(h, h') && Sourced(linkId, h, w)
    ensures Sourced(linkId, h', w)
  {
    hide U.Run, EncodeNormal;
    if !(IsNormal(w) && w[4] == RELIABLE_ORDERED) {
      var c, f :| 0 <= c < NUM_CHANNELS && IsLoose(linkId, U.Run(h[c]).em, c, f, w);
      assert U.Run(h[c]).em <= U.Run(h'[c]).em;
      assert IsLoose(linkId, U.Run(h'[c]).em, c, f, w);
    }
  }

  lemma WireGrows(linkId: u32, s: Pair, h: Hist, h': Hist, wire: set<seq<Byte>>)
    requires LooseInv(linkId, s, h) && EmissionsGrow(h, h')
    requires forall w :: w in wire ==> w in s.out.wire || Sourced(linkId, h', w)
    ensures forall w :: w in wire ==> Sourced(linkId, h', w)
  {
    hide Sourced, EmissionsGrow, Follows;
    forall w | w in wire ensures Sourced(linkId, h', w) {
      if w in s.out.wire {
        SourcedGrows(linkId, h, h', w);
      }
    }
  }

  lemma SameAgain(h: Hist)
    ensures EmissionsGrow(h, h)
  {
  }

  // ---- sending

  lemma SendHere(linkId: u32, s: Pair, h: Hist, p: Packet, size: nat, c: nat)
    requires WellSized(s) && size > 0 && c < NUM_CHANNELS && Follows(s, h, c)
    ensures Follows(Step(linkId, s, Send(p, size, c, false)), With(h, c, U.Send(p, size)), c)
  {
    var k := U.Run(h[c]);
    hide U.Run, EmissionsGrow, Ticketed, U.Step, Step, With;
    WithGrows(h, c, U.Send(p, size));
    ChannelSends(k, p, size);
    LinkSends(linkId, s, p, size, c);
    MoreTickets(k.em, s.out.unreliable.tickets[c], k.next, Fragments(p, size));
    hide Stamp, Fragments, Fwd;
  }

  lemma ChannelSends(k: U.Sys, p: Packet, size: nat)
    requires size > 0
    ensures var k', fs := U.Step(k, U.Send(p, size)), Fragments(p, size);
            && k'.next == Fwd(k.next, |fs|) && k'.rcv == k.rcv && k'.polled == k.polled
            && k'.sent == k.sent + [p] && k'.em == k.em + [Stamp(k.next, fs)]
            && Total(k'.em) == Total(k.em) + |fs|
  {
    StartAppend(k.em, Stamp(k.next, Fragments(p, size)), |k.em|);
    hide Fragments, Fwd;
  }

  lemma LinkSends(linkId: u32, s: Pair, p: Packet, size: nat, c: nat)
    requires WellSized(s) && size > 0 && c < NUM_CHANNELS
    ensures var s', fs := Step(linkId, s, Send(p, size, c, false)), Fragments(p, size);
            && s'.near[c].sendSeqUnreliable == Fwd(s.near[c].sendSeqUnreliable, |fs|) && s'.far == s.far
            && var l, l' := s.out.unreliable, s'.out.unreliable;
               && l'.sent[c] == l.sent[c] + [p] && l'.polled == l.polled
               && l'.issued[c] == l.issued[c] + |fs|
               && l'.tickets[c] == l.tickets[c] + [Ticket(s.near[c].sendSeqUnreliable, |fs|)]
  {
    hide Fragments, Stamp, Encoded, Elems, Fwd;
  }

  lemma SendElsewhere(linkId: u32, s: Pair, h: Hist, p: Packet, size: nat, c: nat, b: nat)
    requires WellSized(s) && size > 0 && c < NUM_CHANNELS && b < NUM_CHANNELS && b != c && Follows(s, h, b)
    ensures Follows(Step(linkId, s, Send(p, size, c, false)), With(h, c, U.Send(p, size)), b)
  {
    hide U.Run, Stamp, Fragments, Encoded, Ticketed, Elems;
  }

  lemma SendAt(linkId: u32, s: Pair, h: Hist, p: Packet, size: nat, c: nat)
    requires LooseInv(linkId, s, h) && size > 0 && c < NUM_CHANNELS
    ensures var s', h' := Step(linkId, s, Send(p, size, c, false)), With(h, c, U.Send(p, size));
            forall b :: 0 <= b < NUM_CHANNELS ==> Follows(s', h', b)
  {
    hide Sourced, Follows, Step, With;
    forall b | 0 <= b < NUM_CHANNELS
      ensures Follows(Step(linkId, s, Send(p, size, c, false)), With(h, c, U.Send(p, size)), b)
    {
      if b == c {
        SendHere(linkId, s, h, p, size, c);
      } else {
        SendElsewhere(linkId, s, h, p, size, c, b);
      }
    }
  }

  lemma SentAreSourced(linkId: u32, h: Hist, c: nat, em: Emission, ds: seq<Datagram>)
    requires c < NUM_CHANNELS && U.Run(h[c]).em == em + [ds]
    ensures forall w :: w in Encoded(linkId, UNRELIABLE_SEQUENCED, c, ds) ==> Sourced(linkId, h, w)
  {
    hide U.Run, EncodeNormal;
    var ws := Encoded(linkId, UNRELIABLE_SEQUENCED, c, ds);
    forall w | w in ws ensures Sourced(linkId, h, w) {
      var i :| 0 <= i < |ws| && ws[i] == w;
      assert IsLoose(linkId, U.Run(h[c]).em, c, FragId(|em|, i), w);
    }
  }

  lemma SendFollows(linkId: u32, s: Pair, h: Hist, p: Packet, size: nat, c: nat) returns (h': Hist)
    requires LooseInv(linkId, s, h) && size > 0 && c < NUM_CHANNELS
    ensures LooseInv(linkId, Step(linkId, s, Send(p, size, c, false)), h')
  {
    h' := With(h, c, U.Send(p, size));
    var k, s' := U.Run(h[c]), Step(linkId, s, Send(p, size, c, false));
    var ds := Stamp(k.next, Fragments(p, size));
    assert Follows(s, h, c);
    WithGrows(h, c, U.Send(p, size));
    SentAreSourced(linkId, h', c, k.em, ds);
    SendAt(linkId, s, h, p, size, c);
    hide U.Run, U.Step, Sourced, EmissionsGrow, Follows, Stamp, Fragments, Encoded;
    WireGrows(linkId, s, h, h', s'.out.wire);
  }

  // ---- reliable traffic passes by

  lemma ReliableAreSourced(linkId: u32, h: Hist, c: nat, ds: seq<Datagram>)
    requires c < NUM_CHANNELS
    ensures forall w :: w in Encoded(linkId, RELIABLE_ORDERED, c, ds) ==> Sourced(linkId, h, w)
  {
    var ws := Encoded(linkId, RELIABLE_ORDERED, c, ds);
    forall w | w in ws ensures Sourced(linkId, h, w) {
      var i :| 0 <= i < |ws| && ws[i] == w;
      NormalRoundTrip(linkId, RELIABLE_ORDERED, c, ds[i]);
    }
  }

  lemma {:induction false} QueuedAreSourced(linkId: u32, v: seq<Chan>, h: Hist, n: nat)
    requires n <= |v| == NUM_CHANNELS
    ensures forall w :: w in AllQueued(linkId, v, n) ==> Sourced(linkId, h, w)
  {
    if n > 0 {
      hide Sourced, Encoded;
      ReliableAreSourced(linkId, h, n - 1, v[n - 1].snd.queue);
      QueuedAreSourced(linkId, v, h, n - 1);
    }
  }

  lemma AcksAreNotNormal(linkId: u32, v: seq<Chan>, w: seq<Byte>)
    requires |v| == NUM_CHANNELS && w in AckDatagrams(linkId, v, NUM_CHANNELS)
    ensures !IsNormal(w)
  {
    hide EncodeAcks, AckDatagrams;
    var c := DispatchedAre(linkId, v, NUM_CHANNELS, w);
    AcksRoundTrip(linkId, c, OL.FirstAcks(v[c].rcv.acks));
  }

  /** Nothing of the unreliable halves changes. */
  ghost predicate Untouched(s: Pair, s': Pair) {
    && WellSized(s) && WellSized(s') && s'.out.unreliable == s.out.unreliable
    && forall c :: 0 <= c < NUM_CHANNELS ==>
         s'.near[c].sendSeqUnreliable == s.near[c].sendSeqUnreliable && s'.far[c].inbox == s.far[c].inbox
  }

  lemma UntouchedFollows(linkId: u32, s: Pair, s': Pair, h: Hist)
    requires LooseInv(linkId, s, h) && Untouched(s, s')
    requires forall w :: w in s'.out.wire ==> w in s.out.wire || Sourced(linkId, h, w)
    requires forall w :: w in s'.out.back ==> w in s.out.back || !IsNormal(w)
    ensures LooseInv(linkId, s', h)
  {
    hide U.Run, Sourced, Ticketed, IsNormal;
    forall c | 0 <= c < NUM_CHANNELS ensures Follows(s', h, c) {
      assert Follows(s, h, c);
    }
  }

  lemma ReliableUntouched(linkId: u32, s: Pair, fs: seq<Fragment>, p: Packet, c: nat)
    requires WellSized(s) && c < NUM_CHANNELS
    ensures Untouched(s, SendStep(linkId, s, fs, p, c, true))
  {
    hide Stamp, Encoded, Enqueue, Elems;
  }

  lemma ReliableFollows(linkId: u32, s: Pair, h: Hist, p: Packet, size: nat, c: nat)
    requires LooseInv(linkId, s, h)
    ensures LooseInv(linkId, Step(linkId, s, Send(p, size, c, true)), h)
  {
    if size > 0 && c < NUM_CHANNELS {
      var fs := Fragments(p, size);
      var s' := SendStep(linkId, s, fs, p, c, true);
      var ds := Stamp(s.near[c].snd.next, fs);
      ReliableAreSourced(linkId, h, c, ds);
      ReliableUntouched(linkId, s, fs, p, c);
      assert s'.out.wire == s.out.wire + Elems(Encoded(linkId, RELIABLE_ORDERED, c, ds));
      assert s'.out.back == s.out.back;
      hide Stamp, Fragments, Encoded, LooseInv, Sourced, Untouched, IsNormal, SendStep;
      UntouchedFollows(linkId, s, s', h);
    }
  }

  lemma RetransmitFollows(linkId: u32, s: Pair, h: Hist)
    requires LooseInv(linkId, s, h)
    ensures LooseInv(linkId, Step(linkId, s, Retransmit), h)
  {
    QueuedAreSourced(linkId, s.near, h, NUM_CHANNELS);
    hide Sourced, Follows, IsNormal, AllQueued;
    UntouchedFollows(linkId, s, Step(linkId, s, Retransmit), h);
  }

  lemma DispatchFollows(linkId: u32, s: Pair, h: Hist)
    requires LooseInv(linkId, s, h)
    ensures LooseInv(linkId, Step(linkId, s, DispatchAcks), h)
  {
    hide Sourced, Follows, IsNormal, AckDatagrams;
    forall w | w in AckDatagrams(linkId, s.far, NUM_CHANNELS) ensures !IsNormal(w) {
      AcksAreNotNormal(linkId, s.far, w);
    }
    UntouchedFollows(linkId, s, Step(linkId, s, DispatchAcks), h);
  }

  lemma InboxUntouched(v: seq<Chan>, w: seq<Byte>, c: nat)
    requires c < |v| == NUM_CHANNELS
    ensures Received(v, w)[c].sendSeqUnreliable == v[c].sendSeqUnreliable
    ensures !IsNormal(w) || w[4] == RELIABLE_ORDERED ==> Received(v, w)[c].inbox == v[c].inbox
  {
    hide U.Receive, Channel.Receive, DecodeNormal, DecodeAcks, AcksWellFormed;
  }

  lemma AcksFollow(linkId: u32, s: Pair, h: Hist, w: seq<Byte>)
    requires LooseInv(linkId, s, h) && w in s.out.back
    ensures LooseInv(linkId, Step(linkId, s, AcksArrive(w)), h)
  {
    StepReceives(linkId, s, w);
    var s' := Step(linkId, s, AcksArrive(w));
    hide Step, Received, Sourced, Follows, IsNormal;
    forall c | 0 <= c < NUM_CHANNELS ensures s'.near[c].sendSeqUnreliable == s.near[c].sendSeqUnreliable {
      InboxUntouched(s.near, w, c);
    }
    UntouchedFollows(linkId, s, s', h);
  }

  // ---- receiving and polling

  lemma ReceivedLoose(linkId: u32, v: seq<Chan>, c: nat, d: Datagram)
    requires |v| == NUM_CHANNELS && c < NUM_CHANNELS
    ensures Received(v, EncodeNormal(linkId, UNRELIABLE_SEQUENCED, c, d))
              == v[c := v[c].(inbox := U.Receive(v[c].inbox, d))]
  {
    NormalRoundTrip(linkId, UNRELIABLE_SEQUENCED, c, d);
    hide EncodeNormal, DecodeNormal, ChannelOf, U.Receive;
  }

  lemma LooseArrives(k: U.Sys, f: FragId)
    requires Issued(k.em, f)
    ensures var k' := U.Step(k, U.Arrive(f));
            && k'.rcv == U.Receive(k.rcv, At(k.em, f)) && k'.next == k.next
            && k'.sent == k.sent && k'.em == k.em && k'.polled == k.polled
  {
    hide U.Receive, U.Remaining;
  }

  lemma ArriveLoose(linkId: u32, s: Pair, h: Hist, w: seq<Byte>, c: nat, f: FragId)
    requires LooseInv(linkId, s, h) && w in s.out.wire && c < NUM_CHANNELS && IsLoose(linkId, U.Run(h[c]).em, c, f, w)
    ensures LooseInv(linkId, Step(linkId, s, Arrive(w)), With(h, c, U.Arrive(f)))
  {
    var k, s', h' := U.Run(h[c]), Step(linkId, s, Arrive(w)), With(h, c, U.Arrive(f));
    assert Follows(s, h, c);
    WithGrows(h, c, U.Arrive(f));
    LooseArrives(k, f);
    ReceivedLoose(linkId, s.far, c, At(k.em, f));
    StepReceives(linkId, s, w);
    hide U.Run, U.Step, Step, Received, EmissionsGrow, U.Receive, EncodeNormal, Sourced, Ticketed, IsNormal;
    WireGrows(linkId, s, h, h', s'.out.wire);
    forall b | 0 <= b < NUM_CHANNELS ensures Follows(s', h', b) {
      assert Follows(s, h, b);
    }
  }

  lemma ArriveReliableFollows(linkId: u32, s: Pair, h: Hist, w: seq<Byte>)
    requires LooseInv(linkId, s, h) && w in s.out.wire && IsNormal(w) && w[4] == RELIABLE_ORDERED
    ensures LooseInv(linkId, Step(linkId, s, Arrive(w)), h)
  {
    StepReceives(linkId, s, w);
    var s' := Step(linkId, s, Arrive(w));
    hide Step, Received, Sourced, Follows, IsNormal;
    forall c | 0 <= c < NUM_CHANNELS ensures s'.far[c].inbox == s.far[c].inbox {
      InboxUntouched(s.far, w, c);
    }
    UntouchedFollows(linkId, s, s', h);
  }

  lemma ArriveFollows(linkId: u32, s: Pair, h: Hist, w: seq<Byte>) returns (h': Hist)
    requires LooseInv(linkId, s, h) && w in s.out.wire
    ensures LooseInv(linkId, Step(linkId, s, Arrive(w)), h')
  {
    assert Sourced(linkId, h, w);
    h' := h;
    hide U.Run, Step, Follows;
    if IsNormal(w) && w[4] == RELIABLE_ORDERED {
      ArriveReliableFollows(linkId, s, h, w);
    } else {
      var c, f :| 0 <= c < NUM_CHANNELS && IsLoose(linkId, U.Run(h[c]).em, c, f, w);
      h' := With(h, c, U.Arrive(f));
      ArriveLoose(linkId, s, h, w, c, f);
    }
  }

  lemma PollFollows(linkId: u32, s: Pair, h: Hist, got: Option<Link.Polled>, far': seq<Chan>) returns (h': Hist)
    requires LooseInv(linkId, s, h)
    ensures LooseInv(linkId, Step(linkId, s, Poll(got, far')), h')
  {
    h' := h;
    SameAgain(h);
    var s' := Step(linkId, s, Poll(got, far'));
    if |far'| == NUM_CHANNELS && exists u, u' :: PollOutcome(s.far, u, got, far', u') {
      var u, u' :| PollOutcome(s.far, u, got, far', u');
      if got.Some? && got.value.Sequenced? {
        var c := got.value.channel;
        assert Follows(s, h, c);
        h' := With(h, c, U.Poll);
        WithGrows(h, c, U.Poll);
      }
    }
    WireGrows(linkId, s, h, h', s'.out.wire);
    hide U.Run, Sourced, EmissionsGrow, Ticketed;
    forall b | 0 <= b < NUM_CHANNELS ensures Follows(s', h', b) {
      assert Follows(s, h, b);
    }
  }

  lemma StepFollows(linkId: u32, s: Pair, h: Hist, ev: Event) returns (h': Hist)
    requires LooseInv(linkId, s, h)
    ensures LooseInv(linkId, Step(linkId, s, ev), h')
  {
    h' := h;
    hide LooseInv, SendStep, Received, PollOutcome, AllQueued, AckDatagrams, WithoutAcks;
    match ev
    case Send(p, size, c, reliable) =>
      if reliable {
        ReliableFollows(linkId, s, h, p, size, c);
      } else if size > 0 && c < NUM_CHANNELS {
        h' := SendFollows(linkId, s, h, p, size, c);
      }
    case Retransmit => RetransmitFollows(linkId, s, h);
    case Arrive(w) =>
      if w in s.out.wire {
        h' := ArriveFollows(linkId, s, h, w);
      }
    case Poll(got, far') => h' := PollFollows(linkId, s, h, got, far');
    case DispatchAcks => DispatchFollows(linkId, s, h);
    case AcksArrive(w) =>
      if w in s.out.back {
        AcksFollow(linkId, s, h, w);
      }
  }

  // ---- the other direction

  lemma StepUntouched(linkId: u32, s: Pair, h: Hist, ev: Event)
    requires LooseInv(linkId, s, h)
    ensures Untouched(Flip(s), Flip(Step(linkId, s, ev))) && Step(linkId, s, ev).home == s.home
  {
    var s' := Step(linkId, s, ev);
    hide Follows, Sourced, IsNormal, Received, PollOutcome, Stamp, Fragments, Enqueue, Encoded, AllQueued, AckDatagrams;
    if ev.Arrive? && ev.w in s.out.wire {
      forall c | 0 <= c < NUM_CHANNELS ensures s'.far[c].sendSeqUnreliable == s.far[c].sendSeqUnreliable {
        InboxUntouched(s.far, ev.w, c);
      }
    } else if ev.AcksArrive? && ev.w in s.out.back {
      forall c | 0 <= c < NUM_CHANNELS ensures s'.near[c].inbox == s.near[c].inbox {
        InboxUntouched(s.near, ev.w, c);
      }
    } else if ev.Poll? {
      PollUntouched(linkId, s, ev.got, ev.far');
    }
  }

  lemma PollUntouched(linkId: u32, s: Pair, got: Option<Link.Polled>, far': seq<Chan>)
    requires WellSized(s)
    ensures Untouched(Flip(s), Flip(Step(linkId, s, Poll(got, far'))))
  {
    hide CanPoll, PollStep;
  }

  lemma FreshFollows(linkId: u32)
    ensures LooseInv(linkId, Run(linkId, []), Each([])) && LooseInv(linkId, Flip(Run(linkId, [])), Each([]))
  {
    assert U.Run([]) == U.INIT;
  }

  /** The unreliable half of each channel of each direction has a run of its own that puts its two
      ends exactly where they are. */
  lemma {:induction false} RunFollows(linkId: u32, evs: seq<(bool, Event)>) returns (onward: Hist, homeward: Hist)
    ensures LooseInv(linkId, Run(linkId, evs), onward)
    ensures LooseInv(linkId, Flip(Run(linkId, evs)), homeward)
  {
    if evs == [] {
      FreshFollows(linkId);
      onward, homeward := Each([]), Each([]);
    } else {
      var s, forth, ev := Run(linkId, evs[..|evs| - 1]), evs[|evs| - 1].0, evs[|evs| - 1].1;
      onward, homeward := RunFollows(linkId, evs[..|evs| - 1]);
      hide LooseInv, Step, Untouched, Sourced;
      assert Flip(Flip(s)) == s;
      if forth {
        StepUntouched(linkId, s, onward, ev);
        UntouchedFollows(linkId, Flip(s), Flip(Step(linkId, s, ev)), homeward);
        onward := StepFollows(linkId, s, onward, ev);
      } else {
        StepUntouched(linkId, Flip(s), homeward, ev);
        UntouchedFollows(linkId, s, Flip(Step(linkId, Flip(s), ev)), onward);
        homeward := StepFollows(linkId, Flip(s), homeward, ev);
      }
    }
  }

  // ---- what is delivered

  lemma FewAreInWindow(k: U.Sys, f: FragId)
    requires U.Inv(k) && Total(k.em) <= 0x8000_0000
    ensures U.InWindow(k, f)
  {
    hide Wrap, Stamped, Cuts, U.Matched, U.Increasing;
    if U.NextPacket(k) < |k.em| {
      StartMonotone(k.em, U.NextPacket(k), |k.em|);
    }
    if Issued(k.em, f) {
      StartMonotone(k.em, f.msg, |k.em|);
    }
    forall g | g in k.held ensures Issued(k.em, g) && Index(k.em, g) < Total(k.em) {
      IndexBelowTotal(k.em, g);
    }
  }

  lemma TotalShrinks(k: U.Sys, ev: U.Event)
    ensures Total(k.em) <= Total(U.Step(k, ev).em)
  {
    if ev.Send? && ev.size > 0 {
      StartAppend(k.em, Stamp(k.next, Fragments(ev.p, ev.size)), |k.em|);
    }
    hide U.Receive, U.Remaining, Stamp, Fragments;
  }

  lemma {:induction false} FewAreWindowed(evs: seq<U.Event>)
    requires Total(U.Run(evs).em) <= 0x8000_0000
    ensures U.Windowed(evs)
  {
    if evs != [] {
      var front, ev := evs[..|evs| - 1], evs[|evs| - 1];
      TotalShrinks(U.Run(front), ev);
      FewAreWindowed(front);
      U.RunKeeps(front);
      hide U.Run, U.Inv, U.Step, U.InWindow;
      forall k | 0 <= k < |evs| && evs[k].Arrive? ensures U.InWindow(U.Run(evs[..k]), evs[k].f) {
        if k < |front| {
          assert evs[..k] == front[..k] && evs[k] == front[k];
        } else {
          FewAreInWindow(U.Run(front), ev.f);
        }
      }
    }
  }

  /** What came out, and what is still to be polled, is this choice of what was sent: the payloads,
      and the whole packets where one fragment was enough. */
  ghost predicate Chosen(l: Log, c: nat, queue: seq<Packet>, picks: seq<nat>)
    requires IsLog(l) && c < NUM_CHANNELS
  {
    var got := l.polled[c] + queue;
    && U.Increasing(picks) && |got| == |picks| && |l.tickets[c]| == |l.sent[c]|
    && forall k :: 0 <= k < |picks| ==>
         && picks[k] < |l.sent[c]| && got[k].payload == l.sent[c][picks[k]].payload
         && (l.tickets[c][picks[k]].numFragments == 1 ==> got[k] == l.sent[c][picks[k]])
  }

  lemma ChosenFrom(linkId: u32, s: Pair, h: Hist, c: nat)
    requires LooseInv(linkId, s, h) && c < NUM_CHANNELS && U.Windowed(h[c])
    ensures Chosen(s.out.unreliable, c, s.far[c].inbox.queue, U.Run(h[c]).picks)
  {
    assert Follows(s, h, c);
    U.RunKeeps(h[c]);
    U.DeliversSubsequence(h[c]);
    hide U.Run, Sourced, U.Increasing, Wrap, Stamped, U.Windowed;
  }

  /** On every channel whose arrivals stay in the window, what was delivered is a choice of what was
      sent; and so it is with at most 2^31 numbers issued, as the arrivals are in the window then. */
  ghost predicate DeliversChosen(s: Pair, h: Hist)
    requires WellSized(s)
  {
    forall c :: 0 <= c < NUM_CHANNELS ==>
      && (U.Windowed(h[c]) ==> Chosen(s.out.unreliable, c, s.far[c].inbox.queue, U.Run(h[c]).picks))
      && (s.out.unreliable.issued[c] <= 0x8000_0000 ==> U.Windowed(h[c]))
  }

  lemma AllChosen(linkId: u32, s: Pair, h: Hist)
    requires LooseInv(linkId, s, h)
    ensures DeliversChosen(s, h)
  {
    hide U.Windowed, U.Run, Chosen, Sourced;
    forall c | 0 <= c < NUM_CHANNELS
      ensures U.Windowed(h[c]) ==> Chosen(s.out.unreliable, c, s.far[c].inbox.queue, U.Run(h[c]).picks)
      ensures s.out.unreliable.issued[c] <= 0x8000_0000 ==> U.Windowed(h[c])
    {
      assert Follows(s, h, c);
      if s.out.unreliable.issued[c] <= 0x8000_0000 {
        FewAreWindowed(h[c]);
      }
      if U.Windowed(h[c]) {
        ChosenFrom(linkId, s, h, c);
      }
    }
  }

  /** Over whole links, unreliable and reliable traffic mixed, with datagrams lost, repeated and
      reordered: on every channel of either direction whose arrivals stay in the window, what is
      delivered is a strictly increasing choice among the packets sent, each at most once. */
  lemma LinkDeliversChosen(linkId: u32, evs: seq<(bool, Event)>) returns (onward: Hist, homeward: Hist)
    ensures var s := Run(linkId, evs); LooseInv(linkId, s, onward) && DeliversChosen(s, onward)
    ensures var s := Flip(Run(linkId, evs)); LooseInv(linkId, s, homeward) && DeliversChosen(s, homeward)
  {
    onward, homeward := RunFollows(linkId, evs);
    hide LooseInv, DeliversChosen, Run;
    AllChosen(linkId, Run(linkId, evs), onward);
    AllChosen(linkId, Flip(Run(linkId, evs)), homeward);
  }
}
