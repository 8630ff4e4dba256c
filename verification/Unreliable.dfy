/** Unreliable-sequenced delivery on a channel: late packets are dropped, fragmented ones are
    reassembled, and the fragments left behind are purged. */
module Unreliable {
  import opened Seq32
  import opened Packets
  import opened Serialization
  import opened Reassembly
  import opened Numbering
  import opened Emissions
  import opened Channel

  /** m_RecvSeq_unreliable, m_Ureliable_fragments and m_RecvQueue_unreliable_sequenced. */
  datatype Inbox = Inbox(next: u32, fragments: Buffer, queue: seq<Packet>)

  /** Fragments the next expected number has overtaken are erased. */
  function Purge(m: Buffer, next: u32): Buffer {
    map k | k in m && IsSequenceNewer(k, next) :: m[k]
  }

  /** receiveUnreliableSequenced. */
  ghost function Receive(r: Inbox, d: Datagram): Inbox {
    if !IsSequenceNewer(d.seqNo, r.next) then
      r
    else if d.frag.first && d.frag.last then
      r.(next := Fwd(d.seqNo, 1), queue := r.queue + [Packet(d.frag.id, d.frag.relay, d.frag.bytes)])
    else if d.seqNo in r.fragments then
      r
    else
      var m := r.fragments[d.seqNo := d.frag];
      match Reassemble(m, d.seqNo)
      case None => r.(fragments := m)
      case Some(x) =>
        var next := Fwd(x.begin, x.count);
        Inbox(next, Purge(x.rest, next), r.queue + [x.pack])
  }

  /** Both ends of the channel; history: what was sent, emitted and polled, which fragments the
      buffer entries are, and which sent packet each queued packet is. */
  datatype Sys = Sys(next: u32, rcv: Inbox, sent: seq<Packet>, em: Emission,
                     held: set<FragId>, picks: seq<nat>, polled: seq<Packet>)

  datatype Event = Send(p: Packet, size: nat) | Arrive(f: FragId) | Poll

  /** The fragments among `held` still in the buffer. */
  function Remaining(em: Emission, held: set<FragId>, m: Buffer): set<FragId> {
    set g | g in held && Issued(em, g) && Key(em, g) in m
  }

  const INIT: Sys := Sys(0, Inbox(0, map[], []), [], [], {}, [], [])

  ghost function Step(s: Sys, ev: Event): Sys {
    match ev
    case Send(p, size) =>
      if size == 0 then s
      else
        var fs := Fragments(p, size);
        s.(next := Fwd(s.next, |fs|), sent := s.sent + [p], em := s.em + [Stamp(s.next, fs)])
    case Arrive(f) =>
      if Issued(s.em, f) then
        var r := Receive(s.rcv, At(s.em, f));
        s.(rcv := r,
           held := Remaining(s.em, s.held + {f}, r.fragments),
           picks := if |r.queue| > |s.rcv.queue| then s.picks + [f.msg] else s.picks)
      else s
    case Poll =>
      if s.rcv.queue == [] then s
      else s.(polled := s.polled + [s.rcv.queue[0]], rcv := s.rcv.(queue := s.rcv.queue[1..]))
  }

  ghost function Run(evs: seq<Event>): Sys {
    if evs == [] then INIT else Step(Run(evs[..|evs| - 1]), evs[|evs| - 1])
  }

  /** The packet the next expected number begins: the one after the last delivered. */
  function NextPacket(s: Sys): nat {
    if s.picks == [] then 0 else s.picks[|s.picks| - 1] + 1
  }

  function Delivered(s: Sys): seq<Packet> {
    s.polled + s.rcv.queue
  }

  ghost predicate Increasing(picks: seq<nat>) {
    forall i, j :: 0 <= i < j < |picks| ==> picks[i] < picks[j]
  }

  /** `got` carries the payload of sent packet m, and its id and relay flag if unfragmented. */
  ghost predicate Faithful(sent: seq<Packet>, em: Emission, got: Packet, m: nat) {
    && m < |sent| && m < |em|
    && got.payload == sent[m].payload
    && (|em[m]| == 1 ==> got == sent[m])
  }

  ghost predicate Matched(sent: seq<Packet>, em: Emission, got: seq<Packet>, picks: seq<nat>) {
    && |got| == |picks|
    && forall k :: 0 <= k < |picks| ==> Faithful(sent, em, got[k], picks[k])
  }

  ghost predicate Numbered(s: Sys) {
    && Cuts(s.sent, s.em) && Stamped(s.em)
    && s.next == Wrap(Total(s.em))
    && NextPacket(s) <= |s.em|
    && s.rcv.next == Wrap(Start(s.em, NextPacket(s)))   // always at a packet boundary
  }

  ghost predicate Inv(s: Sys) {
    && Numbered(s)
    && Holds(s.em, s.rcv.fragments, s.held)
    && Increasing(s.picks)
    && Matched(s.sent, s.em, Delivered(s), s.picks)
  }

  /** The arriving fragment's packet, and all buffered ones, lie within 2^31 numbers of the next
      expected number. */
  ghost predicate InWindow(s: Sys, f: FragId) {
    NextPacket(s) <= |s.em| && Issued(s.em, f) ==>
      var low := Start(s.em, NextPacket(s)) - 0x8000_0000;
      && low <= Index(s.em, f)
      && Start(s.em, f.msg) + |s.em[f.msg]| <= low + 0x1_0000_0000
      && (forall g :: g in s.held ==> Within(s.em, g, low))
  }

  // ---- sending

  lemma SendKeeps(s: Sys, p: Packet, size: nat)
    requires Inv(s) && size > 0
    ensures Inv(Step(s, Send(p, size)))
  {
    var fs := Fragments(p, size);
    var ds := Stamp(s.next, fs);
    Extended(s.sent, s.em, p, size, s.next);
    WrapSum(Total(s.em), |fs|);
    StartAppend(s.em, ds, NextPacket(s));
    HoldsAppend(s.em, ds, s.rcv.fragments, s.held);
    MatchedExtended(s.sent, s.em, p, ds, Delivered(s), s.picks);
    hide Cuts, Stamped, Holds, Matched, Increasing, Wrap, Fwd;
  }

  lemma WrapSum(n: int, i: int)
    ensures Fwd(Wrap(n), i) == Wrap(n + i)
  {
    WrapSteps(n, i);
  }

  lemma Extended(sent: seq<Packet>, em: Emission, p: Packet, size: nat, n: u32)
    requires Cuts(sent, em) && Stamped(em) && size > 0 && n == Wrap(Total(em))
    ensures var ds := Stamp(n, Fragments(p, size));
            Cuts(sent + [p], em + [ds]) && Stamped(em + [ds]) && Total(em + [ds]) == Total(em) + |ds|
  {
    CutsAppend(sent, em, p, size, n);
    StampedAppend(em, Fragments(p, size));
  }

  lemma MatchedExtended(sent: seq<Packet>, em: Emission, p: Packet, ds: seq<Datagram>, got: seq<Packet>,
                        picks: seq<nat>)
    requires Matched(sent, em, got, picks)
    ensures Matched(sent + [p], em + [ds], got, picks)
  {
  }

  // ---- receiving

  lemma Picked(sent: seq<Packet>, em: Emission, got: seq<Packet>, picks: seq<nat>, p: Packet, m: nat)
    requires Matched(sent, em, got, picks) && Increasing(picks)
    requires Faithful(sent, em, p, m) && (picks != [] ==> picks[|picks| - 1] < m)
    ensures Matched(sent, em, got + [p], picks + [m]) && Increasing(picks + [m])
  {
    forall k | 0 <= k < |picks + [m]| ensures Faithful(sent, em, (got + [p])[k], (picks + [m])[k]) {
      assert k < |picks| ==> Faithful(sent, em, got[k], picks[k]);
    }
    forall i, j | 0 <= i < j < |picks + [m]| ensures (picks + [m])[i] < (picks + [m])[j] {
    }
  }

  /** The newness test lets in exactly the packets after the last one delivered. */
  lemma TestMeansLater(s: Sys, f: FragId)
    requires Numbered(s) && Issued(s.em, f) && InWindow(s, f)
    ensures IsSequenceNewer(Key(s.em, f), s.rcv.next) <==> f.msg >= NextPacket(s)
  {
    var em, n := s.em, NextPacket(s);
    NewerIsTrueOrder(Index(em, f), Start(em, n));
    if f.msg < n {
      StartMonotone(em, f.msg, n);
    } else if n < f.msg {
      StartMonotone(em, n, f.msg);
    }
  }

  lemma AfterPacket(em: Emission, f: FragId)
    requires Stamped(em) && Issued(em, f)
    ensures Issued(em, FragId(f.msg, 0))
    ensures Fwd(Key(em, FragId(f.msg, 0)), |em[f.msg]|) == Wrap(Start(em, f.msg + 1))
  {
    assert Index(em, FragId(f.msg, 0)) == Start(em, f.msg);
    WrapSteps(Start(em, f.msg), |em[f.msg]|);
  }

  lemma LaterIsRoomy(s: Sys, f: FragId)
    requires Numbered(s) && Issued(s.em, f) && InWindow(s, f) && f.msg >= NextPacket(s)
    ensures PacketSpan(s.em, s.held, f, Start(s.em, NextPacket(s)) - 0x8000_0000)
  {
    if NextPacket(s) < f.msg {
      StartMonotone(s.em, NextPacket(s), f.msg);
    }
  }

  ghost predicate PacketSpan(em: Emission, held: set<FragId>, f: FragId, lo: int) {
    Issued(em, f) && Roomy(em, held, f.msg, lo) && Roomy(em, held + {f}, f.msg, lo)
  }

  lemma RemainingHolds(em: Emission, m: Buffer, held: set<FragId>, more: set<FragId>, m': Buffer)
    requires Holds(em, m, held) && held <= more
    requires forall k :: k in m' ==> k in m && m'[k] == m[k]
    requires forall g :: g in more && g !in held && Issued(em, g) ==> Key(em, g) !in m'
    ensures Holds(em, m', Remaining(em, more, m'))
  {
    forall k | k in m' ensures Owned(em, Remaining(em, more, m'), k) {
      assert Owned(em, held, k);
      var g :| g in held && Issued(em, g) && Key(em, g) == k;
      assert g in Remaining(em, more, m');
    }
  }

  /** After its run was erased, none of a packet's keys is buffered. */
  lemma OwnGone(em: Emission, rest: Buffer, h: set<FragId>, f: FragId, lo: int)
    requires Stamped(em) && Holds(em, rest, Others(h, f.msg)) && Roomy(em, h, f.msg, lo)
    ensures forall g :: g in h && g !in Others(h, f.msg) && Issued(em, g) ==> Key(em, g) !in rest
  {
    forall g | g in h && g !in Others(h, f.msg) && Issued(em, g) ensures Key(em, g) !in rest {
      if Key(em, g) in rest {
        assert Owned(em, Others(h, f.msg), Key(em, g));
        var g' :| g' in Others(h, f.msg) && Issued(em, g') && Key(em, g') == Key(em, g);
        KeyInjective(em, g, g', lo);
      }
    }
  }

  /** What a fragment does to the buffer, when it is not the whole packet. */
  ghost predicate Advanced(s: Sys, r: Inbox, f: FragId) {
    && Issued(s.em, f) && |r.queue| == |s.rcv.queue| + 1
    && r.queue[..|s.rcv.queue|] == s.rcv.queue
    && Faithful(s.sent, s.em, r.queue[|s.rcv.queue|], f.msg)
    && r.next == Wrap(Start(s.em, f.msg + 1))
  }

  lemma TakeAndPurge(sent: seq<Packet>, em: Emission, buf: Buffer, held: set<FragId>, f: FragId, lo: int)
    returns (x: Reassembled, donor: FragId)
    requires Stamped(em) && Cuts(sent, em) && Holds(em, buf, held) && PacketSpan(em, held, f, lo) && f !in held
    requires Complete(em, held + {f}, f.msg)
    ensures Key(em, f) !in buf
    ensures Reassemble(buf[Key(em, f) := At(em, f).frag], Key(em, f)) == Some(x)
    ensures IsOwnRun(sent, em, held + {f}, f.msg, x, donor)
    ensures var rest := Purge(x.rest, Fwd(x.begin, x.count)); Holds(em, rest, Remaining(em, held + {f}, rest))
  {
    HeldIffBuffered(em, buf, held, f, lo);
    HoldsInsert(em, buf, held, f);
    hide Wrap, Fwd, Cuts, Stamped, Start, Reassemble, IsSequenceNewer, Roomy, Holds, Complete, Remaining;
    x, donor := Reassembles(sent, em, buf[Key(em, f) := At(em, f).frag], held + {f}, f, lo);
    hide Key, At, Others;
    OwnGone(em, x.rest, held + {f}, f, lo);
    RemainingHolds(em, x.rest, Others(held + {f}, f.msg), held + {f}, Purge(x.rest, Fwd(x.begin, x.count)));
  }

  lemma ReceiveLast(s: Sys, f: FragId, lo: int)
    requires Inv(s) && PacketSpan(s.em, s.held, f, lo) && |s.em[f.msg]| != 1 && f !in s.held
    requires Complete(s.em, s.held + {f}, f.msg)
    requires IsSequenceNewer(Key(s.em, f), s.rcv.next)
    ensures var r := Receive(s.rcv, At(s.em, f));
            Holds(s.em, r.fragments, Remaining(s.em, s.held + {f}, r.fragments)) && Advanced(s, r, f)
  {
    OnePart(s.sent, s.em, f);
    AfterPacket(s.em, f);
    hide Wrap, Fwd, Cuts, Stamped, Start, Reassemble, IsSequenceNewer, Matched, Increasing, Holds, Complete,
         Remaining, Purge;
    hide PacketSpan, Receive, Advanced, IsOwnRun;
    var x, donor := TakeAndPurge(s.sent, s.em, s.rcv.fragments, s.held, f, lo);
    ReceiveIs(s.rcv, At(s.em, f), x);
    OwnRunAdvances(s, f, x, donor);
  }

  lemma ReceiveIs(r: Inbox, d: Datagram, x: Reassembled)
    requires IsSequenceNewer(d.seqNo, r.next) && !(d.frag.first && d.frag.last) && d.seqNo !in r.fragments
    requires Reassemble(r.fragments[d.seqNo := d.frag], d.seqNo) == Some(x)
    ensures Receive(r, d) == Inbox(Fwd(x.begin, x.count), Purge(x.rest, Fwd(x.begin, x.count)), r.queue + [x.pack])
  {
    hide Reassemble, IsSequenceNewer, Fwd, Purge;
  }

  lemma OwnRunAdvances(s: Sys, f: FragId, x: Reassembled, donor: FragId)
    requires Issued(s.em, f) && |s.em[f.msg]| != 1 && IsOwnRun(s.sent, s.em, s.held + {f}, f.msg, x, donor)
    requires Issued(s.em, FragId(f.msg, 0))
    requires Fwd(Key(s.em, FragId(f.msg, 0)), |s.em[f.msg]|) == Wrap(Start(s.em, f.msg + 1))
    ensures Advanced(s, Inbox(Fwd(x.begin, x.count), Purge(x.rest, Fwd(x.begin, x.count)), s.rcv.queue + [x.pack]), f)
  {
    hide Wrap, Fwd, Start, Holds, Purge;
  }

  /** The purge loop erases exactly the fragments of packets up to the one just delivered,
      as long as they are at most 2^31 numbers old. */
  lemma PurgeIsExact(em: Emission, m: Buffer, held: set<FragId>, msg: nat, g: FragId)
    requires Stamped(em) && Holds(em, m, held) && g in held && Issued(em, g) && msg < |em|
    requires -0x8000_0000 <= Index(em, g) - Start(em, msg + 1) < 0x8000_0000
    ensures Key(em, g) in Purge(m, Wrap(Start(em, msg + 1))) <==> g.msg > msg
  {
    NewerIsTrueOrder(Index(em, g), Start(em, msg + 1));
    if g.msg <= msg {
      StartMonotone(em, g.msg, msg + 1);
    } else if msg + 1 < g.msg {
      StartMonotone(em, msg + 1, g.msg);
    }
  }

  lemma SameAgain(em: Emission, buf: Buffer, held: set<FragId>, f: FragId)
    requires Holds(em, buf, held) && f in held
    ensures Issued(em, f) && Key(em, f) in buf && buf[Key(em, f) := At(em, f).frag] == buf
    ensures Holds(em, buf, Remaining(em, held + {f}, buf))
  {
    RemainingHolds(em, buf, held, held + {f}, buf);
  }

  lemma ReceiveMore(s: Sys, f: FragId, lo: int)
    requires Inv(s) && PacketSpan(s.em, s.held, f, lo) && |s.em[f.msg]| != 1
    requires !(f !in s.held && Complete(s.em, s.held + {f}, f.msg))
    requires IsSequenceNewer(Key(s.em, f), s.rcv.next)
    ensures var r := Receive(s.rcv, At(s.em, f));
            && r.queue == s.rcv.queue && r.next == s.rcv.next
            && r.fragments == s.rcv.fragments[Key(s.em, f) := At(s.em, f).frag]
            && Holds(s.em, r.fragments, Remaining(s.em, s.held + {f}, r.fragments))
  {
    var em, h := s.em, s.held + {f};
    OnePart(s.sent, em, f);
    HeldIffBuffered(em, s.rcv.fragments, s.held, f, lo);
    hide Wrap, Fwd, Cuts, Stamped, Start, Reassemble, IsSequenceNewer, Matched, Increasing, Roomy, Within, Holds,
         Remaining;
    if f in s.held {
      SameAgain(em, s.rcv.fragments, s.held, f);
    } else {
      var m := s.rcv.fragments[Key(em, f) := At(em, f).frag];
      HoldsInsert(em, s.rcv.fragments, s.held, f);
      RunIffComplete(s.sent, em, m, h, f, lo);
      StillThere(em, m, h);
    }
  }

  lemma StillThere(em: Emission, buf: Buffer, held: set<FragId>)
    requires Holds(em, buf, held)
    ensures Holds(em, buf, Remaining(em, held, buf))
  {
    RemainingHolds(em, buf, held, held, buf);
  }

  lemma ReceiveWhole(s: Sys, f: FragId)
    requires Inv(s) && Issued(s.em, f) && |s.em[f.msg]| == 1
    requires IsSequenceNewer(Key(s.em, f), s.rcv.next)
    requires forall g :: g == f && g !in s.held ==> Key(s.em, g) !in s.rcv.fragments
    ensures var r := Receive(s.rcv, At(s.em, f));
            && r.fragments == s.rcv.fragments && Advanced(s, r, f)
            && Holds(s.em, r.fragments, Remaining(s.em, s.held + {f}, r.fragments))
  {
    OnePart(s.sent, s.em, f);
    AfterPacket(s.em, f);
    RemainingHolds(s.em, s.rcv.fragments, s.held, s.held + {f}, s.rcv.fragments);
    hide Wrap, Cuts, Stamped, Start, IsSequenceNewer, Matched, Increasing, Holds, Remaining;
  }

  lemma ArriveKeeps(s: Sys, f: FragId)
    requires Inv(s) && Issued(s.em, f) && InWindow(s, f)
    ensures Inv(Step(s, Arrive(f)))
  {
    TestMeansLater(s, f);
    if f.msg < NextPacket(s) {
      ArriveStale(s, f);
    } else {
      LaterIsRoomy(s, f);
      hide Inv, InWindow, Numbered, PacketSpan;
      ArriveFresh(s, f, Start(s.em, NextPacket(s)) - 0x8000_0000);
    }
  }

  lemma ArriveStale(s: Sys, f: FragId)
    requires Inv(s) && Issued(s.em, f) && InWindow(s, f) && !IsSequenceNewer(Key(s.em, f), s.rcv.next)
    ensures Inv(Step(s, Arrive(f)))
  {
    hide *;
    StaleHeld(s, f);
    StaleIs(s, f);
    HeldChanges(s, Remaining(s.em, s.held + {f}, s.rcv.fragments));
  }

  lemma HeldChanges(s: Sys, held: set<FragId>)
    requires Inv(s) && Holds(s.em, s.rcv.fragments, held)
    ensures Inv(s.(held := held))
  {
    hide Wrap, Cuts, Stamped, Start, Matched, Increasing, Holds;
  }

  lemma StaleIs(s: Sys, f: FragId)
    requires Issued(s.em, f) && !IsSequenceNewer(Key(s.em, f), s.rcv.next)
    ensures Step(s, Arrive(f)) == s.(held := Remaining(s.em, s.held + {f}, s.rcv.fragments))
  {
    hide IsSequenceNewer, Remaining;
    assert Receive(s.rcv, At(s.em, f)) == s.rcv;
  }

  lemma ArriveFresh(s: Sys, f: FragId, lo: int)
    requires Inv(s) && PacketSpan(s.em, s.held, f, lo) && f.msg >= NextPacket(s)
    requires IsSequenceNewer(Key(s.em, f), s.rcv.next)
    ensures Inv(Step(s, Arrive(f)))
  {
    assert Issued(s.em, f);
    hide Inv, Receive, PacketSpan, Remaining, Holds, Advanced, Step, IsSequenceNewer;
    if |s.em[f.msg]| == 1 {
      BufferedIsHeld(s, f, lo);
      ReceiveWhole(s, f);
      ArriveAdvances(s, f);
    } else if f !in s.held && Complete(s.em, s.held + {f}, f.msg) {
      ReceiveLast(s, f, lo);
      ArriveAdvances(s, f);
    } else {
      ReceiveMore(s, f, lo);
      ArriveBuffers(s, f);
    }
  }

  lemma BufferedIsHeld(s: Sys, f: FragId, lo: int)
    requires Inv(s) && PacketSpan(s.em, s.held, f, lo)
    ensures f !in s.held ==> Key(s.em, f) !in s.rcv.fragments
  {
    HeldIffBuffered(s.em, s.rcv.fragments, s.held, f, lo);
  }

  lemma ArriveAdvances(s: Sys, f: FragId)
    requires Inv(s) && Issued(s.em, f) && Advanced(s, Receive(s.rcv, At(s.em, f)), f) && f.msg >= NextPacket(s)
    requires var r := Receive(s.rcv, At(s.em, f)); Holds(s.em, r.fragments, Remaining(s.em, s.held + {f}, r.fragments))
    ensures Inv(Step(s, Arrive(f)))
  {
    var r := Receive(s.rcv, At(s.em, f));
    assert |r.queue| > |s.rcv.queue|;
    hide Inv, Receive, Remaining, Holds, Advanced;
    AdvancedKeeps(s, r, f);
  }

  lemma ArriveBuffers(s: Sys, f: FragId)
    requires Inv(s) && Issued(s.em, f)
    requires var r := Receive(s.rcv, At(s.em, f));
             && r.queue == s.rcv.queue && r.next == s.rcv.next
             && Holds(s.em, r.fragments, Remaining(s.em, s.held + {f}, r.fragments))
    ensures Inv(Step(s, Arrive(f)))
  {
    hide Wrap, Cuts, Stamped, Start, Matched, Increasing, Holds, Remaining, Receive;
  }

  lemma StaleHeld(s: Sys, f: FragId)
    requires Inv(s) && Issued(s.em, f) && InWindow(s, f)
    ensures Holds(s.em, s.rcv.fragments, Remaining(s.em, s.held + {f}, s.rcv.fragments))
  {
    var low := Start(s.em, NextPacket(s)) - 0x8000_0000;
    assert Within(s.em, f, low) by { IndexBelowTotal(s.em, f); }
    if Key(s.em, f) in s.rcv.fragments {
      assert Owned(s.em, s.held, Key(s.em, f));
      var g :| g in s.held && Issued(s.em, g) && Key(s.em, g) == Key(s.em, f);
      KeyInjective(s.em, f, g, low);
    }
    RemainingHolds(s.em, s.rcv.fragments, s.held, s.held + {f}, s.rcv.fragments);
  }

  lemma AdvancedKeeps(s: Sys, r: Inbox, f: FragId)
    requires Inv(s) && Advanced(s, r, f) && f.msg >= NextPacket(s)
    requires Holds(s.em, r.fragments, Remaining(s.em, s.held + {f}, r.fragments))
    ensures Inv(s.(rcv := r, held := Remaining(s.em, s.held + {f}, r.fragments), picks := s.picks + [f.msg]))
  {
    hide Wrap, Cuts, Stamped, Start, Holds, Remaining, Faithful;
    var p := r.queue[|s.rcv.queue|];
    Picked(s.sent, s.em, Delivered(s), s.picks, p, f.msg);
    assert r.queue == s.rcv.queue + [p];
    assert s.polled + r.queue == Delivered(s) + [p];
  }

  lemma PollKeeps(s: Sys)
    requires Inv(s)
    ensures Inv(Step(s, Poll))
  {
    hide Wrap, Cuts, Stamped, Start, Holds;
    if s.rcv.queue != [] {
      assert Delivered(Step(s, Poll)) == Delivered(s);
    }
  }

  ghost predicate Windowed(evs: seq<Event>) {
    forall k :: 0 <= k < |evs| ==> evs[k].Arrive? ==> InWindow(Run(evs[..k]), evs[k].f)
  }

  lemma {:induction false} RunKeeps(evs: seq<Event>)
    requires Windowed(evs)
    ensures Inv(Run(evs))
  {
    if evs == [] {
    } else {
      var front, ev := evs[..|evs| - 1], evs[|evs| - 1];
      assert Windowed(front) by {
        forall k | 0 <= k < |front| ensures front[k].Arrive? ==> InWindow(Run(front[..k]), front[k].f) {
          assert front[..k] == evs[..k] && front[k] == evs[k];
        }
      }
      RunKeeps(front);
      hide Inv, InWindow;
      match ev
      case Send(p, size) => if size > 0 { SendKeeps(Run(front), p, size); }
      case Arrive(f) => if Issued(Run(front).em, f) { ArriveKeeps(Run(front), f); }
      case Poll => PollKeeps(Run(front));
    }
  }

  /** Whatever the network loses, repeats or reorders within the window, the packets delivered
      are a strictly increasing choice among those sent, each at most once, payload intact; and
      the next expected number always begins a packet, so no packet straddles it. */
  lemma DeliversSubsequence(evs: seq<Event>)
    requires Windowed(evs)
    ensures var s := Run(evs);
            && Increasing(s.picks)
            && |s.polled + s.rcv.queue| == |s.picks|
            && (forall k :: 0 <= k < |s.picks| ==> Faithful(s.sent, s.em, (s.polled + s.rcv.queue)[k], s.picks[k]))
            && NextPacket(s) <= |s.em| && s.rcv.next == Wrap(Start(s.em, NextPacket(s)))
  {
    RunKeeps(evs);
    hide Cuts, Stamped, Holds, Increasing, Wrap, Start, Faithful;
  }

  // ---- outside the window

  /** How far the next expected number is past a fragment. */
  function Lateness(s: Sys, f: FragId): int
    requires Issued(s.em, f) && NextPacket(s) <= |s.em|
  {
    Start(s.em, NextPacket(s)) - Index(s.em, f)
  }

  /** The numbers of lateness, modulo 2^32, at which a datagram is refused. */
  predicate CountsAsLate(late: int) {
    1 <= Wrap(late) <= 0x8000_0000
  }

  /** A fragment is refused exactly when it counts as late, wherever the counters stand. */
  lemma RefusedExactlyWhen(s: Sys, f: FragId)
    requires Numbered(s) && Issued(s.em, f)
    ensures IsSequenceNewer(Key(s.em, f), s.rcv.next) <==> !CountsAsLate(Lateness(s, f))
  {
    LateIsOlder(Index(s.em, f), Start(s.em, NextPacket(s)));
    hide IsSequenceNewer, Wrap, CountsAsLate;
    assert Key(s.em, f) == Wrap(Index(s.em, f));
  }

  lemma LateIsOlder(i: int, n: int)
    ensures IsSequenceNewer(Wrap(i), Wrap(n)) <==> !CountsAsLate(n - i)
  {
    WrapMinus(i, n);
    assert Wrap(i - n) == if Wrap(n - i) == 0 then 0 else 0x1_0000_0000 - Wrap(n - i);
  }

  /** A copy of an unfragmented packet that was already delivered, or overtaken, changes nothing
      exactly when it counts as late; otherwise that packet is delivered again. */
  lemma LateCopyDeliveredExactlyWhen(s: Sys, f: FragId)
    requires Inv(s) && Issued(s.em, f) && |s.em[f.msg]| == 1 && f.msg < NextPacket(s)
    ensures var s' := Step(s, Arrive(f));
            && (Delivered(s') == Delivered(s) <==> CountsAsLate(Lateness(s, f)))
            && (!CountsAsLate(Lateness(s, f)) ==> f.msg < |s.sent| && Delivered(s') == Delivered(s) + [s.sent[f.msg]])
  {
    RefusedExactlyWhen(s, f);
    OnePart(s.sent, s.em, f);
    var s', more := Step(s, Arrive(f)), [s.sent[f.msg]];
    hide Inv, IsSequenceNewer, Wrap, CountsAsLate, Lateness;
    if IsSequenceNewer(Key(s.em, f), s.rcv.next) {
      assert s'.rcv.queue == s.rcv.queue + more;
      assert s.polled + (s.rcv.queue + more) == s.polled + s.rcv.queue + more;
      assert |Delivered(s')| == |Delivered(s)| + 1;
    }
  }

  lemma OneFragment(p: Packet, size: nat)
    requires size > 0 && |p.payload| <= size
    ensures Fragments(p, size) == [Fragment(true, true, p.id, p.relay, p.payload)]
  {
  }

  /** A packet of one fragment is sent and comes in. */
  function Through(p: Packet, size: nat, m: nat): seq<Event> {
    [Send(p, size), Arrive(FragId(m, 0))]
  }

  /** A packet of one fragment is sent n times and never comes in. */
  function Skips(x: Packet, size: nat, n: nat): seq<Event> {
    if n == 0 then [] else Skips(x, size, n - 1) + [Send(x, size)]
  }

  lemma RunSnoc(evs: seq<Event>, ev: Event)
    ensures Run(evs + [ev]) == Step(Run(evs), ev)
  {
    assert (evs + [ev])[..|evs|] == evs;
  }

  lemma OneIsSent(s: Sys, p: Packet, size: nat)
    requires size > 0 && |p.payload| <= size
    ensures var s' := Step(s, Send(p, size));
            && s'.em == s.em + [[Datagram(s.next, Fragment(true, true, p.id, p.relay, p.payload))]]
            && s'.next == Fwd(s.next, 1) && s'.rcv == s.rcv && s'.polled == s.polled
  {
    OneFragment(p, size);
    BackOne(s.next);
    hide Fragments, Wrap, Fwd;
    assert Stamp(s.next, Fragments(p, size))[0] == Datagram(Fwd(s.next, 0), Fragments(p, size)[0]);
    assert Stamp(s.next, Fragments(p, size)) == [Datagram(s.next, Fragment(true, true, p.id, p.relay, p.payload))];
  }

  /** The first packet emitted is d; so many were sent; these numbers come next; this is queued. */
  ghost predicate CameTo(evs: seq<Event>, d: Datagram, sent: nat, next: u32, expected: u32, queue: seq<Packet>) {
    var s := Run(evs);
    && |s.em| == sent >= 1 && s.em[0] == [d]
    && s.next == next && s.rcv.next == expected && s.rcv.queue == queue && s.polled == []
  }

  lemma CameOn(evs: seq<Event>, d: Datagram, sent: nat, next: u32, expected: u32, queue: seq<Packet>, p: Packet,
               size: nat)
    requires CameTo(evs, d, sent, next, expected, queue) && size > 0 && |p.payload| <= size
    requires IsSequenceNewer(next, expected)
    ensures CameTo(evs + Through(p, size, sent), d, sent + 1, Fwd(next, 1), Fwd(next, 1), queue + [p])
  {
    var e1 := evs + [Send(p, size)];
    RunSnoc(evs, Send(p, size));
    RunSnoc(e1, Arrive(FragId(sent, 0)));
    assert evs + Through(p, size, sent) == e1 + [Arrive(FragId(sent, 0))];
    OneIsSent(Run(evs), p, size);
    hide Run, IsSequenceNewer, Through, Fwd, Step;
    ComesIn(Run(e1), FragId(sent, 0), p);
  }

  lemma ComesIn(s: Sys, f: FragId, p: Packet)
    requires Issued(s.em, f) && At(s.em, f).frag == Fragment(true, true, p.id, p.relay, p.payload)
    requires IsSequenceNewer(Key(s.em, f), s.rcv.next)
    ensures var s' := Step(s, Arrive(f));
            && s'.em == s.em && s'.next == s.next && s'.polled == s.polled
            && s'.rcv.next == Fwd(Key(s.em, f), 1) && s'.rcv.queue == s.rcv.queue + [p]
  {
    hide IsSequenceNewer, Fwd;
  }

  lemma {:induction false} CamePast(evs: seq<Event>, d: Datagram, sent: nat, next: u32, expected: u32,
                                    queue: seq<Packet>, x: Packet, size: nat, n: nat)
    requires CameTo(evs, d, sent, next, expected, queue) && size > 0 && |x.payload| <= size
    ensures CameTo(evs + Skips(x, size, n), d, sent + n, Fwd(next, n), expected, queue)
  {
    BackOne(next);
    if n == 0 {
      assert evs + [] == evs;
    } else {
      var fore := evs + Skips(x, size, n - 1);
      CamePast(evs, d, sent, next, expected, queue, x, size, n - 1);
      RunSnoc(fore, Send(x, size));
      OneIsSent(Run(fore), x, size);
      assert evs + Skips(x, size, n) == fore + [Send(x, size)];
      hide Run, Fwd, Step;
    }
  }

  lemma FirstCame(p: Packet, size: nat)
    requires size > 0 && |p.payload| <= size
    ensures CameTo(Through(p, size, 0), Datagram(0, Fragment(true, true, p.id, p.relay, p.payload)), 1, 1, 1, [p])
  {
    NewAgain();
    var e1 := [] + [Send(p, size)];
    RunSnoc([], Send(p, size));
    RunSnoc(e1, Arrive(FragId(0, 0)));
    assert Run([]) == INIT && Through(p, size, 0) == e1 + [Arrive(FragId(0, 0))];
    OneIsSent(INIT, p, size);
    hide Run, IsSequenceNewer, Fwd, Step;
    ComesIn(Run(e1), FragId(0, 0), p);
  }

  /** Three packets come in; 2^30 and 2^30 - 2 packets between them never do. */
  function ThreeComeIn(p: Packet, q: Packet, r: Packet, x: Packet, size: nat): seq<Event> {
    Through(p, size, 0) + Skips(x, size, 0x4000_0000) + Through(q, size, 0x4000_0001)
    + Skips(x, size, 0x3FFF_FFFE) + Through(r, size, 0x8000_0000)
  }

  lemma ThreeCameIn(p: Packet, q: Packet, r: Packet, x: Packet, size: nat)
    requires size > 0 && |p.payload| <= size && |q.payload| <= size && |r.payload| <= size && |x.payload| <= size
    ensures CameTo(ThreeComeIn(p, q, r, x, size), Datagram(0, Fragment(true, true, p.id, p.relay, p.payload)),
                   0x8000_0001, 0x8000_0001, 0x8000_0001, [p, q, r])
  {
    var d, e1 := Datagram(0, Fragment(true, true, p.id, p.relay, p.payload)), Through(p, size, 0);
    var e2 := e1 + Skips(x, size, 0x4000_0000);
    var e3 := e2 + Through(q, size, 0x4000_0001);
    var e4 := e3 + Skips(x, size, 0x3FFF_FFFE);
    NewAgain();
    hide CameTo, IsSequenceNewer, Fwd, Through, Skips;
    FirstCame(p, size);
    CamePast(e1, d, 1, 1, 1, [p], x, size, 0x4000_0000);
    CameOn(e2, d, 0x4000_0001, 0x4000_0001, 1, [p], q, size);
    CamePast(e3, d, 0x4000_0002, 0x4000_0002, 0x4000_0002, [p] + [q], x, size, 0x3FFF_FFFE);
    CameOn(e4, d, 0x8000_0000, 0x8000_0000, 0x4000_0002, [p] + [q], r, size);
    assert [p] + [q] + [r] == [p, q, r];
  }

  /** With any fragment size: packets that never come in, between three that do, make the first one
      new again, and its late copy is delivered a second time. */
  lemma LateDuplicateDelivered(p: Packet, q: Packet, r: Packet, x: Packet, size: nat)
    requires size > 0 && |p.payload| <= size && |q.payload| <= size && |r.payload| <= size && |x.payload| <= size
    ensures var evs := ThreeComeIn(p, q, r, x, size);
            && Run(evs).polled == [] && Run(evs).rcv.queue == [p, q, r]
            && var s := Run(evs + [Arrive(FragId(0, 0))]); s.polled == [] && s.rcv.queue == [p, q, r, p]
  {
    var evs, f := ThreeComeIn(p, q, r, x, size), FragId(0, 0);
    ThreeCameIn(p, q, r, x, size);
    NewAgain();
    RunSnoc(evs, Arrive(f));
    hide Run, IsSequenceNewer, ThreeComeIn, Step, Fwd;
    assert At(Run(evs).em, f) == Run(evs).em[0][0];
    ComesIn(Run(evs), f, p);
    assert [p, q, r] + [p] == [p, q, r, p];
  }

  lemma NewAgain()
    ensures Fwd(0, 1) == 1 && Fwd(1, 0x4000_0000) == 0x4000_0001 && Fwd(0x4000_0001, 1) == 0x4000_0002
    ensures Fwd(0x4000_0002, 0x3FFF_FFFE) == 0x8000_0000 && Fwd(0x8000_0000, 1) == 0x8000_0001
    ensures IsSequenceNewer(0, 0) && IsSequenceNewer(0x4000_0001, 1) && IsSequenceNewer(0x8000_0000, 0x4000_0002)
    ensures IsSequenceNewer(0, 0x8000_0001)
  {
  }
}
