/** The reliable-ordered channel as RUDPLink runs it, with 32-bit numbers, between two ends of
    a network that may lose, repeat and reorder: whatever was emitted may arrive at any time, any
    number of times, or never. Beside it runs the reference protocol with unbounded numbers. */
module OrderedLink {
  import opened Seq32
  import opened Packets
  import opened Serialization
  import opened Reassembly
  import opened Numbering
  import opened Channel
  import Spec = OrderedSpec

  datatype Hand = Idle | Arrived(d: Datagram) | Passed(d: Datagram)

  /** Both ends of one channel. The last five fields are history: what was sent, emitted,
      acked and polled, with acks written as the fragments they acknowledge. */
  datatype Sys = Sys(snd: Sender, rcv: Receiver, hand: Hand,
                     sent: seq<Packet>, em: Emission,
                     ackIds: seq<FragId>, ackNet: set<seq<FragId>>, polled: seq<Packet>)

  datatype Event =
    | Send(p: Packet, size: nat)        // addToSendQueue with a fragment size
    | Arrive(f: FragId)                 // a copy of an emitted datagram comes in: its ack is queued
    | Test                              // the unlocked newness test
    | Insert                            // the locked insert
    | Poll
    | DispatchAcks
    | AcksArrive(ids: seq<FragId>)      // a copy of a dispatched ack datagram comes in

  const INIT: Sys := Sys(Sender(0, []), Receiver(0, map[], map[], []), Idle, [], [], [], {}, [])

  function KeysOf(em: Emission, ids: seq<FragId>): seq<u32>
    requires forall f :: f in ids ==> Issued(em, f)
  {
    seq(|ids|, i requires 0 <= i < |ids| => Key(em, ids[i]))
  }

  /** How many acks one ack datagram holds: 2048 bytes of 4 each. */
  const MAX_ACKS: nat := 512

  function FirstAcks<T>(acks: seq<T>): seq<T> {
    if |acks| <= MAX_ACKS then acks else acks[..MAX_ACKS]
  }

  ghost function Step(c: Sys, ev: Event): Sys {
    match ev
    case Send(p, size) =>
      if size == 0 then c
      else
        var fs := Fragments(p, size);
        c.(snd := Enqueue(c.snd, fs), sent := c.sent + [p], em := c.em + [Stamp(c.snd.next, fs)])
    case Arrive(f) =>
      if c.hand.Idle? && Issued(c.em, f) then
        var d := At(c.em, f);
        c.(hand := Arrived(d), rcv := c.rcv.(acks := AddAck(c.rcv.acks, d.seqNo)),
           ackIds := if d.seqNo in c.rcv.acks then c.ackIds else c.ackIds + [f])
      else c
    case Test =>
      if c.hand.Arrived? then
        c.(hand := if IsSequenceNewer(c.hand.d.seqNo, c.rcv.next) then Passed(c.hand.d) else Idle)
      else c
    case Insert =>
      if c.hand.Passed? then c.(hand := Idle, rcv := Channel.Insert(c.rcv, c.hand.d)) else c
    case Poll =>
      if CanPoll(c.rcv) then c.(polled := c.polled + [c.rcv.order[c.rcv.next].packet], rcv := PollStep(c.rcv)) else c
    case DispatchAcks =>
      c.(ackNet := if c.ackIds == [] then c.ackNet else c.ackNet + {FirstAcks(c.ackIds)},
         ackIds := [], rcv := c.rcv.(acks := []))
    case AcksArrive(ids) =>
      if ids in c.ackNet && forall f :: f in ids ==> Issued(c.em, f) then
        c.(snd := c.snd.(queue := RemoveAll(c.snd.queue, KeysOf(c.em, ids))))
      else c
  }

  ghost function Run(evs: seq<Event>): Sys {
    if evs == [] then INIT else Step(Run(evs[..|evs| - 1]), evs[|evs| - 1])
  }

  lemma RunSnoc(evs: seq<Event>, ev: Event)
    ensures Run(evs + [ev]) == Step(Run(evs), ev)
  {
    assert (evs + [ev])[..|evs|] == evs;
  }

  // ---- the two protocols side by side

  datatype Joint = Joint(c: Sys, a: Spec.Spec)

  /** The packet whose fragment has the lowest key once the one in hand is buffered. */
  ghost function DonorOf(j: Joint): nat {
    if f :| j.c.hand.Passed? && j.a.hand.Passed? && f in j.a.held + {j.a.hand.f} && Issued(j.c.em, f)
            && IsLowest(j.c.rcv.fragments[j.c.hand.d.seqNo := j.c.hand.d.frag], Key(j.c.em, f))
    then f.msg
    else 0
  }

  /** What the event is to the reference protocol. */
  ghost function MovesOf(j: Joint, ev: Event): Option<Spec.Move> {
    match ev
    case Send(p, size) => if size == 0 then None else Some(Spec.Send(p, |Fragments(p, size)|))
    case Arrive(f) => Some(Spec.Arrive(f))
    case Test => if j.c.hand.Arrived? then Some(Spec.Test(IsSequenceNewer(j.c.hand.d.seqNo, j.c.rcv.next))) else None
    case Insert => Some(Spec.Insert(DonorOf(j)))
    case Poll => Some(Spec.Poll)
    case DispatchAcks => None
    case AcksArrive(ids) => if ids in j.c.ackNet then Some(Spec.Acked(ids)) else None
  }

  ghost function StepBoth(j: Joint, ev: Event): Joint {
    Joint(Step(j.c, ev), match MovesOf(j, ev) case None => j.a case Some(mv) => Spec.Step(j.a, mv))
  }

  ghost function RunBoth(evs: seq<Event>): Joint {
    if evs == [] then Joint(INIT, Spec.START) else StepBoth(RunBoth(evs[..|evs| - 1]), evs[|evs| - 1])
  }

  // ---- how they correspond

  ghost predicate QueueSim(em: Emission, q: seq<Datagram>, out: seq<FragId>) {
    && |q| == |out|
    && forall i :: 0 <= i < |q| ==> Issued(em, out[i]) && q[i] == At(em, out[i])
  }

  function Head(em: Emission, m: nat): u32
    requires Issued(em, FragId(m, 0))
  {
    Key(em, FragId(m, 0))
  }

  ghost predicate OrderSim(em: Emission, order: map<u32, Entry>, ready: map<nat, Packet>) {
    && (forall m :: m in ready ==> InQueue(em, order, m, ready[m]))
    && (forall k :: k in order ==> Queued(em, ready, k))
  }

  ghost predicate InQueue(em: Emission, order: map<u32, Entry>, m: nat, p: Packet) {
    Issued(em, FragId(m, 0)) && Head(em, m) in order && order[Head(em, m)] == Entry(p, Wrap(|em[m]|))
  }

  ghost predicate Queued(em: Emission, ready: map<nat, Packet>, k: u32) {
    exists m :: m in ready && Issued(em, FragId(m, 0)) && Head(em, m) == k
  }

  ghost predicate HandSim(em: Emission, h: Hand, s: Spec.Hand) {
    match h
    case Idle => s.Idle?
    case Arrived(d) => s.Arrived? && Issued(em, s.f) && d == At(em, s.f)
    case Passed(d) => s.Passed? && Issued(em, s.f) && d == At(em, s.f)
  }

  ghost predicate AckSim(em: Emission, acks: seq<u32>, ids: seq<FragId>, net: set<seq<FragId>>, acked: set<FragId>) {
    && |acks| == |ids|
    && (forall i :: 0 <= i < |ids| ==> ids[i] in acked && Issued(em, ids[i]) && acks[i] == Key(em, ids[i]))
    && (forall l, f :: l in net && f in l ==> f in acked && Issued(em, f))
  }

  ghost predicate EmissionSim(c: Sys, a: Spec.Spec) {
    && c.sent == a.sent && |a.parts| == |c.sent| == |c.em|
    && (forall k :: 0 <= k < |c.em| ==> a.parts[k] == |c.em[k]|)
    && Cuts(c.sent, c.em) && Stamped(c.em)
    && c.snd.next == Wrap(Total(c.em))
  }

  ghost predicate NextSim(c: Sys, a: Spec.Spec) {
    && c.polled == a.polled && |c.polled| <= |c.em|
    && c.rcv.next == Wrap(Start(c.em, |c.polled|))
  }

  ghost predicate Sim(j: Joint) {
    && EmissionSim(j.c, j.a)
    && NextSim(j.c, j.a)
    && QueueSim(j.c.em, j.c.snd.queue, j.a.outstanding)
    && Holds(j.c.em, j.c.rcv.fragments, j.a.held)
    && OrderSim(j.c.em, j.c.rcv.order, j.a.ready)
    && HandSim(j.c.em, j.c.hand, j.a.hand)
    && AckSim(j.c.em, j.c.rcv.acks, j.c.ackIds, j.c.ackNet, j.a.acked)
  }

  /** Everything alive fits in one span of 2^32 numbers from `lo` on: the next expected number,
      the retransmit queue, both receive buffers, the packet in hand and the acks coming in. */
  ghost predicate RoomAt(j: Joint, ev: Event, lo: int) {
    var em := j.c.em;
    && |j.c.polled| <= |em|
    && lo <= Start(em, |j.c.polled|) < lo + 0x1_0000_0000
    && (forall f :: f in j.a.held ==> Within(em, f, lo))
    && (forall f :: f in j.a.outstanding ==> Within(em, f, lo))
    && (forall m :: m in j.a.ready ==> Within(em, FragId(m, 0), lo))
    && (j.a.hand.Passed? ==> PacketWithin(em, j.a.hand.f.msg, lo))
    && (ev.AcksArrive? && ev.ids in j.c.ackNet ==> forall f :: f in ev.ids ==> Within(em, f, lo))
  }

  ghost predicate PacketWithin(em: Emission, msg: nat, lo: int) {
    && msg < |em|
    && lo <= Start(em, msg) && Start(em, msg) + |em[msg]| <= lo + 0x1_0000_0000
  }

  ghost predicate Room(j: Joint, ev: Event) {
    exists lo :: RoomAt(j, ev, lo)
  }
}
