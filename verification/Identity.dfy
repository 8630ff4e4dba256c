/** Fragmentation round trip, and whose id and relay flag a reassembled packet carries. */
module Identity {
  import opened Seq32
  import opened Packets
  import opened Serialization
  import opened Reassembly
  import opened Numbering
  import opened Emissions
  import opened Channel
  import opened OrderedLink
  import opened OrderedRefinement
  import Spec = OrderedSpec

  // ---- round trip of one packet, cut anywhere, numbered from anywhere

  /** The datagrams numbered before the packet: n empty fragments of another packet. */
  function Filler(n: nat): seq<Fragment> {
    seq(n, i => Fragment(i == 0, i == n - 1, 0, false, []))
  }

  lemma {:induction false} EmptyBytes(fs: seq<Fragment>)
    requires forall i :: 0 <= i < |fs| ==> fs[i].bytes == []
    ensures Joined(fs) == []
  {
    if fs != [] {
      EmptyBytes(fs[..|fs| - 1]);
    }
  }

  /** An emission in which the packet's first fragment has number n. */
  function Emitted(p: Packet, size: nat, n: u32): (em: Emission)
    requires size > 0
  {
    var ds := Stamp(n, Fragments(p, size));
    if n == 0 then [ds] else [Stamp(0, Filler(n)), ds]
  }

  function SentBefore(p: Packet, n: u32): seq<Packet> {
    if n == 0 then [p] else [Packet(0, false, []), p]
  }

  lemma EmittedIsProper(p: Packet, size: nat, n: u32)
    requires size > 0
    ensures var em, sent := Emitted(p, size, n), SentBefore(p, n);
            && Cuts(sent, em) && Stamped(em) && |em| == |sent| >= 1
            && Start(em, |em| - 1) == n
  {
    assert [][..] + [Stamp(Wrap(Total([])), Fragments(p, size))] == [Stamp(0, Fragments(p, size))];
    if n == 0 {
      CutsAppend([], [], p, size, 0);
      StampedAppend([], Fragments(p, size));
      assert [] + [p] == [p];
    } else {
      var em0 := [Stamp(0, Filler(n))];
      EmptyBytes(Filler(n));
      assert [] + em0 == em0;
      StampedAppend([], Filler(n));
      assert Frags(em0[0]) == Filler(n);
      assert Cuts([Packet(0, false, [])], em0);
      CutsAppend([Packet(0, false, [])], em0, p, size, n);
      StampedAppend(em0, Fragments(p, size));
      WrapSmall(n);
      assert Total(em0) == n;
      assert em0 + [Stamp(n, Fragments(p, size))] == Emitted(p, size, n);
      StartAppend(em0, Stamp(n, Fragments(p, size)), 1);
      assert [Packet(0, false, [])] + [p] == SentBefore(p, n);
    }
  }

  predicate InRange(parts: seq<nat>, n: nat) {
    forall i :: 0 <= i < |parts| ==> parts[i] < n
  }

  ghost predicate Covers(parts: seq<nat>, n: nat) {
    forall j :: 0 <= j < n ==> j in parts
  }

  /** The receiver after the listed fragments came in, in that order. */
  ghost function Deliver(r: Receiver, ds: seq<Datagram>, parts: seq<nat>): Receiver
    requires InRange(parts, |ds|)
  {
    if parts == [] then r
    else Channel.Insert(Deliver(r, ds, parts[..|parts| - 1]), ds[parts[|parts| - 1]])
  }

  lemma DeliverSnoc(r: Receiver, ds: seq<Datagram>, before: seq<nat>, k: nat)
    requires InRange(before, |ds|) && k < |ds|
    ensures InRange(before + [k], |ds|)
    ensures Deliver(r, ds, before + [k]) == Channel.Insert(Deliver(r, ds, before), ds[k])
  {
    assert (before + [k])[..|before|] == before;
  }

  function Ids(msg: nat, parts: seq<nat>): set<FragId> {
    set i | i in parts :: FragId(msg, i)
  }

  lemma IdsSnoc(em: Emission, msg: nat, before: seq<nat>, k: nat)
    requires msg < |em|
    ensures Ids(msg, before + [k]) == Ids(msg, before) + {FragId(msg, k)}
    ensures Covers(before, |em[msg]|) <==> Complete(em, Ids(msg, before), msg)
    ensures Covers(before + [k], |em[msg]|) <==> Complete(em, Ids(msg, before + [k]), msg)
    ensures Covers(before, |em[msg]|) ==> Covers(before + [k], |em[msg]|)
  {
    forall j: nat ensures j in before <==> FragId(msg, j) in Ids(msg, before) {
    }
    forall j: nat ensures j in before + [k] <==> FragId(msg, j) in Ids(msg, before + [k]) {
    }
  }

  /** Packet `msg` of the emission, numbered from n on, in a buffer it has to itself. */
  ghost predicate Lone(sent: seq<Packet>, em: Emission, msg: nat, n: nat) {
    Cuts(sent, em) && Stamped(em) && msg < |em| && Start(em, msg) == n && |em[msg]| < 0x1_0000_0000
  }

  lemma LoneRoom(sent: seq<Packet>, em: Emission, msg: nat, n: nat, parts: seq<nat>)
    requires Lone(sent, em, msg, n) && InRange(parts, |em[msg]|)
    ensures RcvRoom(em, Ids(msg, parts), map[], msg, n)
  {
  }

  /** Until every fragment has come in, the buffer holds just those that did. */
  lemma {:induction false} PartialDelivery(sent: seq<Packet>, em: Emission, msg: nat, n: nat, parts: seq<nat>,
                                           r: Receiver)
    requires Lone(sent, em, msg, n) && InRange(parts, |em[msg]|) && !Covers(parts, |em[msg]|)
    requires r.order == map[] && r.fragments == map[]
    ensures RcvSim(em, Deliver(r, em[msg], parts), Ids(msg, parts), map[])
  {
    if parts == [] {
    } else {
      var before, k := parts[..|parts| - 1], parts[|parts| - 1];
      assert parts == before + [k];
      IdsSnoc(em, msg, before, k);
      LoneRoom(sent, em, msg, n, before);
      DeliverSnoc(r, em[msg], before, k);
      hide Deliver, RcvSim, RcvRoom, Stamped, Cuts, Start, Ids, Channel.Insert;
      PartialDelivery(sent, em, msg, n, before, r);
      PartialInsert(sent, em, msg, n, Ids(msg, before), FragId(msg, k), Deliver(r, em[msg], before));
    }
  }

  lemma PartialInsert(sent: seq<Packet>, em: Emission, msg: nat, n: nat, held: set<FragId>, f: FragId, r: Receiver)
    requires Lone(sent, em, msg, n) && Issued(em, f) && f.msg == msg && !Complete(em, held + {f}, msg)
    requires RcvSim(em, r, held, map[]) && RcvRoom(em, held, map[], msg, n)
    ensures RcvSim(em, Channel.Insert(r, At(em, f)), held + {f}, map[])
  {
    hide RcvSim, RcvRoom, Stamped, Cuts, Start, Channel.Insert;
    var j :| 0 <= j < |em[msg]| && FragId(msg, j) !in held + {f};
    assert j != f.part;
    InsertKnown(sent, em, r, held, map[], f, n);
    if f in held {
      assert held + {f} == held;
    } else {
      var donor := InsertPart(sent, em, r, held, map[], f, n);
    }
  }

  lemma LastInsert(sent: seq<Packet>, em: Emission, msg: nat, n: nat, held: set<FragId>, f: FragId, r: Receiver)
    requires Lone(sent, em, msg, n) && Issued(em, f) && f.msg == msg
    requires !Complete(em, held, msg) && Complete(em, held + {f}, msg)
    requires forall g :: g in held ==> g.msg == msg && Issued(em, g)
    requires RcvSim(em, r, held, map[]) && RcvRoom(em, held, map[], msg, n)
    ensures msg < |sent| && RcvSim(em, Channel.Insert(r, At(em, f)), {}, map[msg := sent[msg]])
  {
    assert |sent| == |em|;
    hide RcvSim, RcvRoom, Stamped, Cuts, Start, Channel.Insert;
    assert f !in held by {
      assert f in held ==> held + {f} == held;
    }
    if |em[msg]| == 1 {
      assert f == FragId(msg, 0);
      assert held == {} by {
        assert forall g :: g in held ==> g == f;
      }
      InsertWhole(sent, em, r, held, map[], f, n);
    } else {
      var donor := InsertPart(sent, em, r, held, map[], f, n);
      assert Others(held + {f}, msg) == {};
    }
  }

  /** Round trip: whatever the packet, the fragment size, the first sequence number, the order
      of arrival and the repeats, the fragment that completes the cover turns the receiver's
      buffer into exactly one queued packet, the one that was sent, id and relay flag included. */
  lemma FragmentationRoundTrip(p: Packet, size: nat, n: u32, before: seq<nat>, k: nat, r: Receiver)
    requires size > 0 && |Fragments(p, size)| < 0x1_0000_0000 && k < |Fragments(p, size)|
    requires InRange(before, |Fragments(p, size)|)
    requires !Covers(before, |Fragments(p, size)|) && Covers(before + [k], |Fragments(p, size)|)
    requires r.order == map[] && r.fragments == map[]
    ensures InRange(before + [k], |Fragments(p, size)|)
    ensures var ds := Stamp(n, Fragments(p, size));
            && Deliver(r, ds, before).order == map[]
            && Deliver(r, ds, before + [k]).order == map[n := Entry(p, |ds|)]
            && Deliver(r, ds, before + [k]).fragments == map[]
  {
    var em, sent := Emitted(p, size, n), SentBefore(p, n);
    EmittedIsProper(p, size, n);
    hide Stamped, Cuts, Start, Fragments, Deliver;
    LoneRoundTrip(sent, em, |em| - 1, n, before, k, r);
    hide Wrap;
    WrapSmall(n);
    WrapSmall(|em[|em| - 1]|);
  }

  lemma LoneRoundTrip(sent: seq<Packet>, em: Emission, msg: nat, n: nat, before: seq<nat>, k: nat, r: Receiver)
    requires Lone(sent, em, msg, n) && InRange(before, |em[msg]|) && k < |em[msg]|
    requires !Covers(before, |em[msg]|) && Covers(before + [k], |em[msg]|)
    requires r.order == map[] && r.fragments == map[]
    ensures InRange(before + [k], |em[msg]|) && msg < |sent|
    ensures Deliver(r, em[msg], before).order == map[]
    ensures Deliver(r, em[msg], before + [k]).order == map[Wrap(n) := Entry(sent[msg], Wrap(|em[msg]|))]
    ensures Deliver(r, em[msg], before + [k]).fragments == map[]
  {
    var f := FragId(msg, k);
    IdsSnoc(em, msg, before, k);
    LoneRoom(sent, em, msg, n, before);
    DeliverSnoc(r, em[msg], before, k);
    assert Issued(em, FragId(msg, 0)) && Index(em, FragId(msg, 0)) == n && Key(em, FragId(msg, 0)) == Wrap(n);
    assert forall g :: g in Ids(msg, before) ==> g.msg == msg && Issued(em, g);
    PartialDelivery(sent, em, msg, n, before, r);
    hide Deliver, RcvRoom, Stamped, Cuts, Start, Ids, Channel.Insert, Wrap, Holds, OrderSim, Covers;
    LastInsert(sent, em, msg, n, Ids(msg, before), f, Deliver(r, em[msg], before));
    var last := Deliver(r, em[msg], before + [k]);
    NoneQueued(em, Deliver(r, em[msg], before).order);
    OneQueued(em, last.order, msg, sent[msg]);
    NoneHeld(em, last.fragments);
  }

  lemma NoneQueued(em: Emission, order: map<u32, Entry>)
    requires OrderSim(em, order, map[])
    ensures order == map[]
  {
    forall k ensures k !in order {
      assert !Queued(em, map[], k);
    }
  }

  lemma OneQueued(em: Emission, order: map<u32, Entry>, msg: nat, p: Packet)
    requires OrderSim(em, order, map[msg := p])
    ensures Issued(em, FragId(msg, 0)) && order == map[Head(em, msg) := Entry(p, Wrap(|em[msg]|))]
  {
    var ready := map[msg := p];
    assert msg in ready && InQueue(em, order, msg, ready[msg]);
    forall k | k in order ensures k == Head(em, msg) {
      assert Queued(em, ready, k);
    }
  }

  lemma NoneHeld(em: Emission, m: Buffer)
    requires Holds(em, m, {})
    ensures m == map[]
  {
    forall k ensures k !in m {
      assert !Owned(em, {}, k);
    }
  }

  // ---- whose id, whose relay flag

  /** The fragment in hand completes its packet, and that packet is not queued yet. */
  ghost predicate Completing(j: Joint, lo: int) {
    && Sim(j) && Spec.Safe(j.a) && RoomAt(j, Event.Insert, lo) && j.a.hand.Passed?
    && var f := j.a.hand.f;
    && j.a.parts[f.msg] != 1 && f !in j.a.held && f.msg !in j.a.ready
    && Spec.Whole(j.a.parts[f.msg], j.a.held + {f}, f.msg)
  }

  /** The packet queued for the one in hand, after the insert. */
  ghost predicate QueuedIs(c: Sys, m: nat, p: Packet) {
    Issued(c.em, FragId(m, 0)) && Head(c.em, m) in c.rcv.order && c.rcv.order[Head(c.em, m)].packet == p
  }

  lemma IdentityOfDonor(j: Joint, lo: int)
    requires Completing(j, lo)
    ensures var c', m, d := StepBoth(j, Event.Insert).c, j.a.hand.f.msg, DonorOf(j);
            && m < |c'.sent| && d < |c'.sent|
            && QueuedIs(c', m, Packet(c'.sent[d].id, c'.sent[d].relay, c'.sent[m].payload))
            && (QueuedIs(c', m, c'.sent[m]) <==>
                 c'.sent[d].id == c'.sent[m].id && c'.sent[d].relay == c'.sent[m].relay)
  {
    SimInsert(j, lo);
    RcvRoomFrom(j, lo);
    var j' := StepBoth(j, Event.Insert);
    assert RcvSim(j.c.em, j.c.rcv, j.a.held, j.a.ready);
    hide RcvSim, RcvRoom, Stamped, Cuts, Start, Channel.Insert, OrderSim, Holds, QueueSim, AckSim, DonorOf,
         Spec.Distinct;
    InsertSame(j, j.a.hand.f, lo);
    InsertStepIs(j);
    QueuedAs(j', j.a.hand.f.msg);
  }

  /** Once the fragment in hand is buffered, g is the buffered fragment with the lowest key. */
  ghost predicate OwnsLowest(j: Joint, g: FragId) {
    && j.c.hand.Passed? && j.a.hand.Passed? && g in j.a.held + {j.a.hand.f} && Issued(j.c.em, g)
    && IsLowest(j.c.rcv.fragments[j.c.hand.d.seqNo := j.c.hand.d.frag], Key(j.c.em, g))
  }

  ghost predicate IsDonor(j: Joint, g: FragId) {
    OwnsLowest(j, g) && g.msg == DonorOf(j)
  }

  lemma DonorExists(j: Joint, lo: int) returns (g: FragId)
    requires Completing(j, lo)
    ensures IsDonor(j, g)
  {
    RcvRoomFrom(j, lo);
    assert RcvSim(j.c.em, j.c.rcv, j.a.held, j.a.ready);
    var f := j.a.hand.f;
    hide RcvSim, RcvRoom, Stamped, Cuts, Start, Channel.Insert, OrderSim, Holds, QueueSim, AckSim, DonorOf,
         Spec.Distinct;
    hide IsLowest, Spec.BufferPartial, Spec.InOrder;
    assert Spec.Sent(j.a, f) && |j.c.em[f.msg]| == j.a.parts[f.msg];
    assert Complete(j.c.em, j.a.held + {f}, f.msg);
    g := InsertPart(j.c.sent, j.c.em, j.c.rcv, j.a.held, j.a.ready, f, lo);
    DonorIs(j, f, g, lo);
  }

  /** What is queued has the packet's own bytes, and the id and relay flag of the sent packet
      that owns the lowest key then buffered: they are right if and only if that packet's agree. */
  lemma IdentityExactlyWhen(j: Joint, lo: int) returns (g: FragId)
    requires Completing(j, lo)
    ensures OwnsLowest(j, g)
    ensures var c', m, d := StepBoth(j, Event.Insert).c, j.a.hand.f.msg, g.msg;
            && m < |c'.sent| && d < |c'.sent|
            && QueuedIs(c', m, Packet(c'.sent[d].id, c'.sent[d].relay, c'.sent[m].payload))
            && (QueuedIs(c', m, c'.sent[m]) <==>
                 c'.sent[d].id == c'.sent[m].id && c'.sent[d].relay == c'.sent[m].relay)
  {
    IdentityOfDonor(j, lo);
    g := DonorExists(j, lo);
    hide Completing, StepBoth, QueuedIs, DonorOf, OwnsLowest;
  }

  /** A packet with the fragment buffer to itself is queued exactly as it was sent. */
  lemma AloneKeepsIdentity(j: Joint, lo: int)
    requires Completing(j, lo)
    requires forall g :: g in j.a.held ==> g.msg == j.a.hand.f.msg
    ensures var c', m := StepBoth(j, Event.Insert).c, j.a.hand.f.msg; m < |c'.sent| && QueuedIs(c', m, c'.sent[m])
  {
    var g := IdentityExactlyWhen(j, lo);
    assert g.msg == j.a.hand.f.msg;
    hide Completing, StepBoth, QueuedIs, DonorOf;
  }

  lemma QueuedAs(j: Joint, m: nat)
    requires OrderSim(j.c.em, j.c.rcv.order, j.a.ready) && m in j.a.ready
    ensures Issued(j.c.em, FragId(m, 0)) && Head(j.c.em, m) in j.c.rcv.order
    ensures j.c.rcv.order[Head(j.c.em, m)].packet == j.a.ready[m]
  {
    assert InQueue(j.c.em, j.c.rcv.order, m, j.a.ready[m]);
  }
}
