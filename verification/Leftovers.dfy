/** Fragments left over in the receive buffer: how they come to be there, and what they do to later
    packets when they stand under the lowest key, or under a key that comes around again. */
module Leftovers {
  import opened Seq32
  import opened Packets
  import opened Serialization
  import opened Reassembly
  import opened Numbering
  import opened Channel
  import opened OrderedLink
  import opened OrderedRefinement

  // ---- pieces

  /** A packet of two fragments of at most z bytes. */
  predicate TakesTwo(p: Packet, z: nat) {
    z < |p.payload| <= 2 * z
  }

  function FirstHalf(p: Packet, z: nat): Fragment
    requires TakesTwo(p, z)
  {
    Fragment(true, false, p.id, p.relay, p.payload[..z])
  }

  function SecondHalf(p: Packet, z: nat): Fragment
    requires TakesTwo(p, z)
  {
    Fragment(false, true, p.id, p.relay, p.payload[z..])
  }

  lemma TwoFragments(p: Packet, z: nat)
    requires TakesTwo(p, z)
    ensures Fragments(p, z) == [FirstHalf(p, z), SecondHalf(p, z)]
  {
    assert Pieces(p.payload[z..], z) == [p.payload[z..]];
    assert Pieces(p.payload, z) == [p.payload[..z]] + [p.payload[z..]];
  }

  /** A first fragment with nothing after it is no message yet. */
  lemma FirstAlone(m: Buffer, s: u32)
    requires s in m && !m[s].last && Fwd(s, 1) !in m
    ensures Reassemble(m, s) == None
  {
    BackOne(s);
    hide Wrap, Fwd, Back;
    forall p: nat, q: nat ensures !HasRun(m, s, p, q) {
      if q == 0 {
        assert !m[Fwd(s, 0)].last;
      } else {
        assert Fwd(s, 1) !in m;
      }
    }
    NoRun(m, s);
  }

  /** Two neighbours make a message, with the id and relay flag of whatever is lowest. */
  lemma PairIsMessage(m: Buffer, b: u32, s: u32, low: u32)
    requires s == Fwd(b, 1) && b == Back(s, 1) && b in m && s in m && IsLowest(m, low)
    requires m[b].first && !m[b].last && !m[s].first && m[s].last
    ensures Reassemble(m, s) ==
            Some(Reassembled(Packet(m[low].id, m[low].relay, m[b].bytes + m[s].bytes), b, 2, m - {b, s}))
  {
    BackOne(s);
    BackOne(b);
    hide Wrap, Fwd, Back, Reassemble;
    assert ReachesFirst(m, s, 1) && ReachesLast(m, s, 0);
    assert RunPresent(m, b, 2);
    assert IsWhole(m, s, 1, 0);
    ReassembleIs(m, s, 1, 0);
    TakeRunIs(m, s, 1, 0, low);
    assert RunBytes(m, b, 0) == [];
    assert RunBytes(m, b, 1) == [] + m[b].bytes;
    assert RunBytes(m, b, 2) == m[b].bytes + m[s].bytes;
    PairKeys(b, s);
  }

  lemma PairKeys(b: u32, s: u32)
    requires Fwd(b, 0) == b && Fwd(b, 1) == s
    ensures RunKeys(b, 2) == {b, s}
  {
    hide Fwd;
    forall k ensures k in RunKeys(b, 2) <==> k == Fwd(b, 0) || k == Fwd(b, 1) {
    }
  }

  // ---- running

  /** A datagram comes in without interruption. */
  function In(f: FragId): seq<Event> {
    [Arrive(f), Test, Event.Insert]
  }

  /** What matters of a state in which the receive thread is at rest. */
  datatype Brief = Brief(next: u32, expected: u32, order: map<u32, Entry>, buffer: Buffer,
                         em: Emission, sent: seq<Packet>, polled: seq<Packet>)

  ghost predicate Leads(evs: seq<Event>, b: Brief) {
    var c := Run(evs);
    && c.hand.Idle? && c.snd.next == b.next && c.rcv.next == b.expected && c.rcv.order == b.order
    && c.rcv.fragments == b.buffer && c.em == b.em && c.sent == b.sent && c.polled == b.polled
  }

  const NOTHING: Brief := Brief(0, 0, map[], map[], [], [], [])

  lemma AfterTwo(evs: seq<Event>, b: Brief, p: Packet, z: nat)
    requires Leads(evs, b) && TakesTwo(p, z)
    ensures Leads(evs + [Send(p, z)], b.(next := Fwd(b.next, 2), sent := b.sent + [p],
              em := b.em + [[Datagram(b.next, FirstHalf(p, z)), Datagram(Fwd(b.next, 1), SecondHalf(p, z))]]))
  {
    RunSnoc(evs, Send(p, z));
    TwoFragments(p, z);
    BackOne(b.next);
    hide Run, Fwd, Fragments;
    assert Stamp(b.next, [FirstHalf(p, z), SecondHalf(p, z)])
        == [Datagram(Fwd(b.next, 0), FirstHalf(p, z)), Datagram(Fwd(b.next, 1), SecondHalf(p, z))];
  }

  /** The receiver of a brief state; its pending acks do not matter here. */
  function Rcv(b: Brief): Receiver {
    Receiver(b.expected, b.order, b.buffer, [])
  }

  lemma AfterIn(evs: seq<Event>, b: Brief, f: FragId)
    requires Leads(evs, b) && Issued(b.em, f) && IsSequenceNewer(Key(b.em, f), b.expected)
    ensures var r := Channel.Insert(Rcv(b), At(b.em, f));
            Leads(evs + In(f), b.(order := r.order, buffer := r.fragments))
  {
    RunSnoc(evs, Arrive(f));
    RunSnoc(evs + [Arrive(f)], Test);
    RunSnoc(evs + [Arrive(f)] + [Test], Event.Insert);
    assert evs + In(f) == evs + [Arrive(f)] + [Test] + [Event.Insert];
    hide Run, Step, IsSequenceNewer;
    ReceiveInThree(Run(evs), f);
    var c := Run(evs);
    InsertIgnoresAcks(c.rcv.(acks := AddAck(c.rcv.acks, Key(b.em, f))), At(b.em, f));
  }

  lemma InsertIgnoresAcks(r: Receiver, d: Datagram)
    ensures var r' := Channel.Insert(Receiver(r.next, r.order, r.fragments, []), d);
            Channel.Insert(r, d) == r.(order := r'.order, fragments := r'.fragments)
  {
    hide Reassemble;
  }

  lemma AfterPoll(evs: seq<Event>, b: Brief)
    requires Leads(evs, b) && b.expected in b.order
    ensures Leads(evs + [Poll], b.(expected := Fwd(b.expected, b.order[b.expected].count),
              order := b.order - {b.expected}, polled := b.polled + [b.order[b.expected].packet]))
  {
    RunSnoc(evs, Poll);
    hide Run, Fwd;
  }

  // ---- the wrong id

  /** Two packets of two fragments; the second half of the first packet comes last. */
  function OneDelayed(p: Packet, q: Packet, z: nat): seq<Event> {
    [] + [Send(p, z)] + [Send(q, z)] + In(FragId(0, 0)) + In(FragId(1, 0)) + In(FragId(1, 1)) + In(FragId(0, 1))
    + [Poll] + [Poll]
  }

  lemma SmallFwd()
    ensures Fwd(0, 1) == 1 && Fwd(0, 2) == 2 && Fwd(2, 1) == 3 && Fwd(2, 2) == 4
  {
  }

  lemma SmallBack()
    ensures Back(1, 1) == 0 && Back(3, 1) == 2
  {
  }

  lemma SmallNewer()
    ensures IsSequenceNewer(0, 0) && IsSequenceNewer(1, 0) && IsSequenceNewer(2, 0) && IsSequenceNewer(3, 0)
  {
  }

  ghost function BothSent(p: Packet, q: Packet, z: nat): Brief
    requires TakesTwo(p, z) && TakesTwo(q, z)
  {
    Brief(4, 0, map[], map[],
          [[Datagram(0, FirstHalf(p, z)), Datagram(1, SecondHalf(p, z))],
           [Datagram(2, FirstHalf(q, z)), Datagram(3, SecondHalf(q, z))]],
          [p, q], [])
  }

  lemma AfterBoth(p: Packet, q: Packet, z: nat)
    requires TakesTwo(p, z) && TakesTwo(q, z)
    ensures Leads([] + [Send(p, z)] + [Send(q, z)], BothSent(p, q, z))
  {
    assert Leads([], NOTHING);
    hide Leads, Fwd;
    SmallFwd();
    AfterTwo([], NOTHING, p, z);
    var b := NOTHING.(next := 2, sent := [p], em := [[Datagram(0, FirstHalf(p, z)), Datagram(1, SecondHalf(p, z))]]);
    assert NOTHING.sent + [p] == [p] && NOTHING.em + b.em == b.em;
    AfterTwo([] + [Send(p, z)], b, q, z);
    assert b.sent + [q] == [p, q];
    assert b.em + [[Datagram(2, FirstHalf(q, z)), Datagram(3, SecondHalf(q, z))]] == BothSent(p, q, z).em;
  }

  /** The first half of one packet and the second half of another make a message. */
  lemma HalvesMix(m: Buffer, b: u32, s: u32, low: u32, p: Packet, q: Packet, z: nat)
    requires TakesTwo(p, z) && TakesTwo(q, z) && s == Fwd(b, 1) && b == Back(s, 1) && IsLowest(m, low)
    requires b in m && m[b] == FirstHalf(p, z) && s in m && m[s] == SecondHalf(q, z)
    ensures Reassemble(m, s) ==
            Some(Reassembled(Packet(m[low].id, m[low].relay, p.payload[..z] + q.payload[z..]), b, 2, m - {b, s}))
  {
    hide Fwd, Back, Reassemble, Wrap;
    PairIsMessage(m, b, s, low);
  }

  /** Both halves of a packet make the packet, but for id and relay flag. */
  lemma HalvesJoin(m: Buffer, b: u32, s: u32, low: u32, p: Packet, z: nat)
    requires TakesTwo(p, z) && s == Fwd(b, 1) && b == Back(s, 1) && IsLowest(m, low)
    requires b in m && m[b] == FirstHalf(p, z) && s in m && m[s] == SecondHalf(p, z)
    ensures Reassemble(m, s) == Some(Reassembled(Packet(m[low].id, m[low].relay, p.payload), b, 2, m - {b, s}))
  {
    hide Fwd, Back, Reassemble, Wrap;
    HalvesMix(m, b, s, low, p, p, z);
    assert p.payload[..z] + p.payload[z..] == p.payload;
  }

  /** The insert that completes the second packet takes the first one's id. */
  lemma SecondCompletes(p: Packet, q: Packet, z: nat)
    requires TakesTwo(p, z) && TakesTwo(q, z)
    ensures var m: Buffer := map[0 := FirstHalf(p, z), 2 := FirstHalf(q, z), 3 := SecondHalf(q, z)];
            Reassemble(m, 3) == Some(Reassembled(Packet(p.id, p.relay, q.payload), 2, 2, map[0 := FirstHalf(p, z)]))
  {
    hide *;
    var m: Buffer := map[0 := FirstHalf(p, z), 2 := FirstHalf(q, z), 3 := SecondHalf(q, z)];
    SmallFwd();
    SmallBack();
    ZeroIsLowest(m);
    HalvesJoin(m, 2, 3, 0, q, z);
    IdOfHalf(p, z);
    assert m - {2, 3} == map[0 := FirstHalf(p, z)];
  }

  lemma ZeroIsLowest(m: Buffer)
    requires 0 in m
    ensures IsLowest(m, 0)
  {
  }

  lemma IdOfHalf(p: Packet, z: nat)
    requires TakesTwo(p, z)
    ensures FirstHalf(p, z).id == p.id && FirstHalf(p, z).relay == p.relay
  {
  }

  lemma FirstCompletes(p: Packet, z: nat)
    requires TakesTwo(p, z)
    ensures var m: Buffer := map[0 := FirstHalf(p, z), 1 := SecondHalf(p, z)];
            Reassemble(m, 1) == Some(Reassembled(p, 0, 2, map[]))
  {
    hide *;
    var m: Buffer := map[0 := FirstHalf(p, z), 1 := SecondHalf(p, z)];
    SmallFwd();
    SmallBack();
    ZeroIsLowest(m);
    HalvesJoin(m, 0, 1, 0, p, z);
    IdOfHalf(p, z);
    assert m - {0, 1} == map[];
  }

  lemma FourIn(p: Packet, q: Packet, z: nat)
    requires TakesTwo(p, z) && TakesTwo(q, z)
    ensures Leads([] + [Send(p, z)] + [Send(q, z)]
                  + In(FragId(0, 0)) + In(FragId(1, 0)) + In(FragId(1, 1)) + In(FragId(0, 1)),
                  BothSent(p, q, z).(order := map[2 := Entry(Packet(p.id, p.relay, q.payload), 2), 0 := Entry(p, 2)]))
  {
    var e0, b0 := [] + [Send(p, z)] + [Send(q, z)], BothSent(p, q, z);
    var mixed := Entry(Packet(p.id, p.relay, q.payload), 2);
    var m1: Buffer := map[0 := FirstHalf(p, z)];
    var m2: Buffer := map[0 := FirstHalf(p, z), 2 := FirstHalf(q, z)];
    hide Leads, Fwd, Back, Wrap, IsSequenceNewer, Reassemble;
    AfterBoth(p, q, z);
    SmallFwd();
    SmallNewer();
    SecondCompletes(p, q, z);
    FirstCompletes(p, z);
    FirstAlone(m1, 0);
    FirstAlone(m2, 2);
    AfterIn(e0, b0, FragId(0, 0));
    var b1 := b0.(buffer := m1);
    AfterIn(e0 + In(FragId(0, 0)), b1, FragId(1, 0));
    var b2 := b0.(buffer := m2);
    AfterIn(e0 + In(FragId(0, 0)) + In(FragId(1, 0)), b2, FragId(1, 1));
    var b3 := b0.(buffer := m1, order := map[2 := mixed]);
    AfterIn(e0 + In(FragId(0, 0)) + In(FragId(1, 0)) + In(FragId(1, 1)), b3, FragId(0, 1));
  }

  /** The id does get mixed up: with one fragment delayed, the second packet is polled with the id
      and relay flag of the first. */
  lemma IdentityMixedUp(p: Packet, q: Packet, z: nat)
    requires TakesTwo(p, z) && TakesTwo(q, z)
    ensures Run(OneDelayed(p, q, z)).sent == [p, q]
    ensures Run(OneDelayed(p, q, z)).polled == [p, Packet(p.id, p.relay, q.payload)]
  {
    var mixed := Entry(Packet(p.id, p.relay, q.payload), 2);
    var e4 := [] + [Send(p, z)] + [Send(q, z)]
              + In(FragId(0, 0)) + In(FragId(1, 0)) + In(FragId(1, 1)) + In(FragId(0, 1));
    var b4 := BothSent(p, q, z).(order := map[2 := mixed, 0 := Entry(p, 2)]);
    hide Run, Fwd, Leads, In;
    FourIn(p, q, z);
    SmallFwd();
    AfterPoll(e4, b4);
    var b5 := b4.(expected := 2, order := map[2 := mixed], polled := [p]);
    assert b4.order - {0} == b5.order && b4.polled + [p] == b5.polled;
    AfterPoll(e4 + [Poll], b5);
    assert b5.polled + [mixed.packet] == [p, mixed.packet];
    LeadsTo(e4 + [Poll] + [Poll], b5.(expected := 4, order := b5.order - {2}, polled := [p, mixed.packet]));
  }

  lemma LeadsTo(evs: seq<Event>, b: Brief)
    requires Leads(evs, b)
    ensures Run(evs).sent == b.sent && Run(evs).polled == b.polled
  {
  }

  // ---- a key that comes around again

  /** A packet comes in whole, then a late copy of its first fragment, and the packet is polled. */
  function LeavesOne(p: Packet, z: nat): seq<Event> {
    [] + [Send(p, z)] + In(FragId(0, 0)) + In(FragId(0, 1)) + In(FragId(0, 0)) + [Poll]
  }

  function OneSent(p: Packet, z: nat): Brief
    requires TakesTwo(p, z)
  {
    Brief(2, 0, map[], map[], [[Datagram(0, FirstHalf(p, z)), Datagram(1, SecondHalf(p, z))]], [p], [])
  }

  lemma AfterLeavesOne(p: Packet, z: nat)
    requires TakesTwo(p, z)
    ensures Leads(LeavesOne(p, z), OneSent(p, z).(expected := 2, buffer := map[0 := FirstHalf(p, z)], polled := [p]))
  {
    var e1, b := [] + [Send(p, z)], OneSent(p, z);
    var m1: Buffer := map[0 := FirstHalf(p, z)];
    assert Leads([], NOTHING);
    hide Leads, Fwd, Back, Wrap, IsSequenceNewer, Reassemble, Run;
    SmallFwd();
    SmallNewer();
    FirstCompletes(p, z);
    FirstAlone(m1, 0);
    AfterTwo([], NOTHING, p, z);
    assert NOTHING.sent + [p] == [p] && NOTHING.em + b.em == b.em;
    AfterIn(e1, b, FragId(0, 0));
    AfterIn(e1 + In(FragId(0, 0)), b.(buffer := m1), FragId(0, 1));
    var b2 := b.(order := map[0 := Entry(p, 2)]);
    AfterIn(e1 + In(FragId(0, 0)) + In(FragId(0, 1)), b2, FragId(0, 0));
    AfterPoll(e1 + In(FragId(0, 0)) + In(FragId(0, 1)) + In(FragId(0, 0)), b2.(buffer := m1));
    assert b2.order - {0} == map[] && b2.polled + [p] == [p];
  }

  /** A packet of one fragment is sent, comes in and is polled. */
  function Cycle(x: Packet, m: nat, z: nat): seq<Event> {
    [Send(x, z)] + In(FragId(m, 0)) + [Poll]
  }

  function Cycles(x: Packet, m: nat, n: nat, z: nat): seq<Event> {
    if n == 0 then [] else Cycles(x, m, n - 1, z) + Cycle(x, m + n - 1, z)
  }

  /** At rest between packets: everything sent was polled, and numbers agree. */
  ghost predicate Even(b: Brief) {
    b.order == map[] && b.next == b.expected && |b.em| == |b.sent| == |b.polled|
  }

  function Whole1(x: Packet): Fragment {
    Fragment(true, true, x.id, x.relay, x.payload)
  }

  lemma AfterOne(evs: seq<Event>, b: Brief, x: Packet, z: nat)
    requires Leads(evs, b) && |x.payload| <= z && z > 0
    ensures Leads(evs + [Send(x, z)], b.(next := Fwd(b.next, 1), sent := b.sent + [x],
              em := b.em + [[Datagram(b.next, Whole1(x))]]))
  {
    RunSnoc(evs, Send(x, z));
    BackOne(b.next);
    assert Fragments(x, z) == [Whole1(x)];
    hide Run, Fwd, Fragments;
    assert Stamp(b.next, [Whole1(x)]) == [Datagram(Fwd(b.next, 0), Whole1(x))];
  }

  lemma AfterCycle(evs: seq<Event>, b: Brief, x: Packet, z: nat)
    requires Leads(evs, b) && Even(b) && |x.payload| <= z && z > 0
    ensures Leads(evs + Cycle(x, |b.em|, z), b.(next := Fwd(b.next, 1), expected := Fwd(b.next, 1),
              sent := b.sent + [x], em := b.em + [[Datagram(b.next, Whole1(x))]], polled := b.polled + [x]))
  {
    var f, e1 := FragId(|b.em|, 0), evs + [Send(x, z)];
    var b1 := b.(next := Fwd(b.next, 1), sent := b.sent + [x], em := b.em + [[Datagram(b.next, Whole1(x))]]);
    NewerDecides(b.next, b.next);
    hide Run, Fwd, Wrap, Leads, IsSequenceNewer, Reassemble;
    AfterOne(evs, b, x, z);
    AfterIn(e1, b1, f);
    var b2 := b1.(order := map[b.next := Entry(x, 1)]);
    assert Channel.Insert(Rcv(b1), At(b1.em, f)).order == b2.order;
    AfterPoll(e1 + In(f), b2);
    assert b2.order - {b.next} == map[];
    assert evs + Cycle(x, |b.em|, z) == e1 + In(f) + [Poll];
  }

  /** n packets later nothing but the numbers and the history has changed. */
  lemma {:induction false} AfterCycles(evs: seq<Event>, b: Brief, x: Packet, k: nat, n: nat, z: nat) returns (b': Brief)
    requires Leads(evs, b) && Even(b) && |x.payload| <= z && z > 0 && b.next == Wrap(k)
    ensures Leads(evs + Cycles(x, |b.em|, n, z), b') && Even(b') && b'.next == Wrap(k + n)
    ensures b'.buffer == b.buffer && |b'.em| == |b.em| + n
  {
    if n == 0 {
      b' := b;
      assert evs + [] == evs;
    } else {
      hide Leads, Wrap, Fwd, Cycle;
      var c := AfterCycles(evs, b, x, k, n - 1, z);
      AfterCycle(evs + Cycles(x, |b.em|, n - 1, z), c, x, z);
      WrapSteps(k + n - 1, 1);
      b' := c.(next := Fwd(c.next, 1), expected := Fwd(c.next, 1), sent := c.sent + [x],
               em := c.em + [[Datagram(c.next, Whole1(x))]], polled := c.polled + [x]);
      assert evs + Cycles(x, |b.em|, n, z) == evs + Cycles(x, |b.em|, n - 1, z) + Cycle(x, |b.em| + n - 1, z);
    }
  }

  /** A packet of two fragments is sent; both of them come in, or only the second. */
  function Halves(q: Packet, m: nat, both: bool, z: nat): seq<Event> {
    [Send(q, z)] + (if both then In(FragId(m, 0)) else []) + In(FragId(m, 1)) + [Poll]
  }

  /** The left-over stays while 2^32 - 2 more packets go by; then its key is that of a new packet. */
  function ComesAround(p: Packet, x: Packet, q: Packet, both: bool, z: nat): seq<Event> {
    LeavesOne(p, z) + Cycles(x, 1, 0xFFFF_FFFE, z) + Halves(q, 0xFFFF_FFFF, both, z)
  }

  lemma MixedMessage(p: Packet, q: Packet, z: nat)
    requires TakesTwo(p, z) && TakesTwo(q, z)
    ensures var m: Buffer := map[0 := FirstHalf(p, z), 1 := SecondHalf(q, z)];
            Reassemble(m, 1) == Some(Reassembled(Packet(p.id, p.relay, p.payload[..z] + q.payload[z..]), 0, 2, map[]))
  {
    hide *;
    var m: Buffer := map[0 := FirstHalf(p, z), 1 := SecondHalf(q, z)];
    SmallFwd();
    SmallBack();
    ZeroIsLowest(m);
    HalvesMix(m, 0, 1, 0, p, q, z);
    IdOfHalf(p, z);
    assert m - {0, 1} == map[];
  }

  /** What the new packet meets: its first fragment is ignored if it comes in at all, and its second
      completes the left-over. */
  lemma MixesWithLeftover(evs: seq<Event>, b: Brief, p: Packet, q: Packet, both: bool, z: nat)
    requires Leads(evs, b) && Even(b) && b.next == 0 && TakesTwo(p, z) && TakesTwo(q, z)
    requires b.buffer == map[0 := FirstHalf(p, z)]
    ensures var c := Run(evs + Halves(q, |b.em|, both, z));
            && c.sent == b.sent + [q]
            && c.polled == b.polled + [Packet(p.id, p.relay, p.payload[..z] + q.payload[z..])]
  {
    var m, e1 := |b.em|, evs + [Send(q, z)];
    var e2 := if both then e1 + In(FragId(m, 0)) else e1;
    var mixed := Entry(Packet(p.id, p.relay, p.payload[..z] + q.payload[z..]), 2);
    hide Run, Fwd, Wrap, Leads, IsSequenceNewer, Reassemble, In;
    SmallFwd();
    SmallNewer();
    MixedMessage(p, q, z);
    AfterTwo(evs, b, q, z);
    var b1 := b.(next := 2, sent := b.sent + [q],
                 em := b.em + [[Datagram(0, FirstHalf(q, z)), Datagram(1, SecondHalf(q, z))]]);
    AfterIn(e1, b1, FragId(m, 0));
    AfterIn(e2, b1, FragId(m, 1));
    var b2 := b1.(order := map[0 := mixed], buffer := map[]);
    AfterPoll(e2 + In(FragId(m, 1)), b2);
    LeadsTo(e2 + In(FragId(m, 1)) + [Poll],
            b2.(expected := Fwd(0, 2), order := b2.order - {0}, polled := b2.polled + [mixed.packet]));
    assert evs + Halves(q, m, both, z) == e2 + In(FragId(m, 1)) + [Poll];
  }

  /** With 2^32 numbers issued, order and payloads are no longer safe: the last packet polled carries
      the first half of a packet polled long before. The half really sent may never have come in, or
      it came in and was taken for a duplicate. */
  lemma LeftoverMixesBytes(p: Packet, x: Packet, q: Packet, both: bool, z: nat)
    requires TakesTwo(p, z) && TakesTwo(q, z) && |x.payload| <= z && z > 0
    ensures var c := Run(ComesAround(p, x, q, both, z));
            && |c.polled| == |c.sent| == 0x1_0000_0000 && c.sent[0xFFFF_FFFF] == q
            && c.polled[0xFFFF_FFFF] == Packet(p.id, p.relay, p.payload[..z] + q.payload[z..])
  {
    var e := LeavesOne(p, z);
    var b := OneSent(p, z).(expected := 2, buffer := map[0 := FirstHalf(p, z)], polled := [p]);
    hide Run, Leads, Cycles, LeavesOne, Halves;
    AfterLeavesOne(p, z);
    WrapSmall(2);
    var b' := AfterCycles(e, b, x, 2, 0xFFFF_FFFE, z);
    assert b'.next == 0;
    MixesWithLeftover(e + Cycles(x, 1, 0xFFFF_FFFE, z), b', p, q, both, z);
  }
}
