/** The link object itself: RUDPLink with its per-channel counters, queues and buffers, updated
    in place. Each method is tied to the channel functions of `Channel` and `Unreliable`. */
module Link {
  import opened Seq32
  import opened Packets
  import opened Serialization
  import opened Reassembly
  import opened Channel
  import opened Wire
  import OrderedLink
  import Unreliable

  /** hdr_Relnew_Size: shorter updates are dropped. */
  const MIN_NEWEST: nat := 16

  datatype SendResult = Success | NotSent | InternalError

  datatype PacketType = ReliableOrdered | UnreliableSequenced | ReliableNewest | Acknowledge

  /** Where a reliable send can be tracked: its first sequence number and fragment count. */
  datatype Ticket = Ticket(sequence: u32, numFragments: nat)

  datatype Polled =
    | Ordered(channel: nat, packet: Packet)
    | Sequenced(channel: nat, packet: Packet)
    | Newest(body: seq<Byte>)

  /** Everything one channel of a link consists of. */
  datatype Chan = Chan(snd: Sender, rcv: Receiver, sendSeqUnreliable: u32, inbox: Unreliable.Inbox)

  /** What poll may answer, channel by channel: reliable packets first, then unreliable ones,
      then updates, each kind on its lowest ready channel. */
  ghost predicate PollOutcome(pre: seq<Chan>, updates: seq<seq<Byte>>, got: Option<Polled>,
                              post: seq<Chan>, updates': seq<seq<Byte>>)
  {
    match got
    case None =>
      && (forall c :: 0 <= c < |pre| ==> !CanPoll(pre[c].rcv) && pre[c].inbox.queue == [])
      && updates == [] && post == pre && updates' == updates
    case Some(Ordered(c, p)) =>
      && c < |pre| && CanPoll(pre[c].rcv)
      && (forall b :: 0 <= b < c ==> !CanPoll(pre[b].rcv))
      && p == pre[c].rcv.order[pre[c].rcv.next].packet
      && post == pre[c := pre[c].(rcv := PollStep(pre[c].rcv))] && updates' == updates
    case Some(Sequenced(c, p)) =>
      && (forall b :: 0 <= b < |pre| ==> !CanPoll(pre[b].rcv))
      && c < |pre| && pre[c].inbox.queue != []
      && (forall b :: 0 <= b < c ==> pre[b].inbox.queue == [])
      && p == pre[c].inbox.queue[0]
      && post == pre[c := pre[c].(inbox := pre[c].inbox.(queue := pre[c].inbox.queue[1..]))] && updates' == updates
    case Some(Newest(body)) =>
      && (forall b :: 0 <= b < |pre| ==> !CanPoll(pre[b].rcv) && pre[b].inbox.queue == [])
      && updates != [] && body == updates[0] && post == pre && updates' == updates[1..]
  }

  function Encoded(linkId: u32, kind: Byte, channel: nat, ds: seq<Datagram>): (out: seq<seq<Byte>>)
    requires channel < NUM_CHANNELS
    ensures |out| == |ds|
  {
    seq(|ds|, i requires 0 <= i < |ds| => EncodeNormal(linkId, kind, channel, ds[i]))
  }

  class RUDPLink {
    const linkId: u32
    const fragmentSize: nat
    var blockNewSends: bool
    var retransmitQueue: seq<seq<Datagram>>
    var recvQueueUnreliable: seq<seq<Packet>>
    var recvQueueNewest: seq<seq<Byte>>
    var recvQueueOrder: seq<map<u32, Entry>>
    var unreliableFragments: seq<Buffer>
    var reliableFragments: seq<Buffer>
    var ackQueue: seq<seq<u32>>
    var sendSeqReliable: seq<u32>
    var sendSeqUnreliable: seq<u32>
    var recvSeqUnreliable: seq<u32>
    var recvSeqReliable: seq<u32>
    var recvSeqNewest: u32
    var packetLossPercentage: Byte

    ghost predicate Valid()
      reads this
    {
      && fragmentSize > 0
      && |retransmitQueue| == |recvQueueUnreliable| == |recvQueueOrder| == NUM_CHANNELS
      && |unreliableFragments| == |reliableFragments| == |ackQueue| == NUM_CHANNELS
      && |sendSeqReliable| == |sendSeqUnreliable| == |recvSeqUnreliable| == |recvSeqReliable| == NUM_CHANNELS
    }

    ghost function View(): (v: seq<Chan>)
      requires Valid()
      reads this
      ensures |v| == NUM_CHANNELS
    {
      seq(NUM_CHANNELS, c requires 0 <= c < NUM_CHANNELS && Valid() reads this =>
        Chan(Sender(sendSeqReliable[c], retransmitQueue[c]),
             Receiver(recvSeqReliable[c], recvQueueOrder[c], reliableFragments[c], ackQueue[c]),
             sendSeqUnreliable[c],
             Unreliable.Inbox(recvSeqUnreliable[c], unreliableFragments[c], recvQueueUnreliable[c])))
    }

    constructor (linkId: u32, fragmentSize: nat)
      requires fragmentSize > 0
      ensures Valid() && !blockNewSends && recvQueueNewest == [] && recvSeqNewest == 0 && packetLossPercentage == 0
      ensures this.linkId == linkId && this.fragmentSize == fragmentSize
      ensures forall c :: 0 <= c < NUM_CHANNELS ==>
                View()[c] == Chan(OrderedLink.INIT.snd, OrderedLink.INIT.rcv, 0, Unreliable.INIT.rcv)
    {
      this.linkId, this.fragmentSize := linkId, fragmentSize;
      blockNewSends, recvSeqNewest, packetLossPercentage := false, 0, 0;
      retransmitQueue, recvQueueUnreliable := seq(NUM_CHANNELS, _ => []), seq(NUM_CHANNELS, _ => []);
      recvQueueNewest := [];
      recvQueueOrder, ackQueue := seq(NUM_CHANNELS, _ => map[]), seq(NUM_CHANNELS, _ => []);
      unreliableFragments, reliableFragments := seq(NUM_CHANNELS, _ => map[]), seq(NUM_CHANNELS, _ => map[]);
      sendSeqReliable, sendSeqUnreliable := seq(NUM_CHANNELS, _ => 0), seq(NUM_CHANNELS, _ => 0);
      recvSeqUnreliable, recvSeqReliable := seq(NUM_CHANNELS, _ => 0), seq(NUM_CHANNELS, _ => 0);
    }

    method BlockAllUpcomingSends()
      requires Valid()
      modifies this`blockNewSends
      ensures Valid() && blockNewSends && View() == old(View())
    {
      blockNewSends := true;
    }

    method SimulatePacketLoss(percentage: Byte)
      requires Valid()
      modifies this`packetLossPercentage
      ensures Valid() && packetLossPercentage == percentage && View() == old(View())
    {
      packetLossPercentage := percentage;
    }

    /** Stamps each fragment with the next number, queues it for retransmission, then sends all. */
    method QueueReliable(fs: seq<Fragment>, channel: nat) returns (out: seq<seq<Byte>>)
      requires Valid() && channel < NUM_CHANNELS
      modifies this`sendSeqReliable, this`retransmitQueue
      ensures Valid()
      ensures View() == old(View())[channel := old(View())[channel].(snd := Enqueue(old(View())[channel].snd, fs))]
      ensures out == Encoded(linkId, RELIABLE_ORDERED, channel, Stamp(old(sendSeqReliable)[channel], fs))
    {
      ghost var n0, q0, ds := sendSeqReliable[channel], retransmitQueue[channel], Stamp(sendSeqReliable[channel], fs);
      out := [];
      var i := 0;
      BackOne(n0);
      hide Wrap, Fwd, EncodeNormal, Stamp;
      while i < |fs|
        invariant 0 <= i <= |fs| && Valid()
        invariant sendSeqReliable == old(sendSeqReliable)[channel := Fwd(n0, i)]
        invariant retransmitQueue == old(retransmitQueue)[channel := retransmitQueue[channel]]
        invariant retransmitQueue[channel] == q0 + ds[..i]
        invariant out == Encoded(linkId, RELIABLE_ORDERED, channel, ds[..i])
      {
        StampAt(n0, fs, i);
        var d := Datagram(sendSeqReliable[channel], fs[i]);
        sendSeqReliable := sendSeqReliable[channel := Fwd(sendSeqReliable[channel], 1)];
        retransmitQueue := retransmitQueue[channel := retransmitQueue[channel] + [d]];
        out := out + [EncodeNormal(linkId, RELIABLE_ORDERED, channel, d)];
        i := i + 1;
      }
      assert ds[..i] == ds;
      ghost var v := old(View());
      assert View() == v[channel := v[channel].(snd := Enqueue(v[channel].snd, fs))];
    }

    method SendUnreliable(fs: seq<Fragment>, channel: nat) returns (out: seq<seq<Byte>>)
      requires Valid() && channel < NUM_CHANNELS
      modifies this`sendSeqUnreliable
      ensures Valid()
      ensures View() == old(View())[channel :=
                old(View())[channel].(sendSeqUnreliable := Fwd(old(sendSeqUnreliable)[channel], |fs|))]
      ensures out == Encoded(linkId, UNRELIABLE_SEQUENCED, channel, Stamp(old(sendSeqUnreliable)[channel], fs))
    {
      ghost var n0, ds := sendSeqUnreliable[channel], Stamp(sendSeqUnreliable[channel], fs);
      out := [];
      var i := 0;
      BackOne(n0);
      hide Wrap, Fwd, EncodeNormal, Stamp;
      while i < |fs|
        invariant 0 <= i <= |fs| && Valid()
        invariant sendSeqUnreliable == old(sendSeqUnreliable)[channel := Fwd(n0, i)]
        invariant out == Encoded(linkId, UNRELIABLE_SEQUENCED, channel, ds[..i])
      {
        StampAt(n0, fs, i);
        var d := Datagram(sendSeqUnreliable[channel], fs[i]);
        sendSeqUnreliable := sendSeqUnreliable[channel := Fwd(sendSeqUnreliable[channel], 1)];
        out := out + [EncodeNormal(linkId, UNRELIABLE_SEQUENCED, channel, d)];
        i := i + 1;
      }
      assert ds[..i] == ds;
    }

    /** Cuts the packet and sends it on its channel; refuses when blocked, and refuses kinds that
        users may not send. A reliable send also yields the ticket it can be tracked by. */
    method AddToSendQueue(p: Packet, kind: PacketType, channel: nat)
      returns (res: SendResult, ticket: Option<Ticket>, out: seq<seq<Byte>>)
      requires Valid() && channel < NUM_CHANNELS
      modifies this
      ensures Valid() && blockNewSends == old(blockNewSends) && packetLossPercentage == old(packetLossPercentage)
      ensures recvQueueNewest == old(recvQueueNewest) && recvSeqNewest == old(recvSeqNewest)
      ensures res == if blockNewSends then NotSent
                     else if kind.ReliableOrdered? || kind.UnreliableSequenced? then Success else InternalError
      ensures res != Success ==> View() == old(View()) && out == [] && ticket == None
      ensures res == Success ==>
                var c, fs := old(View())[channel], Fragments(p, fragmentSize);
                if kind.ReliableOrdered? then
                  && View() == old(View())[channel := c.(snd := Enqueue(c.snd, fs))]
                  && ticket == Some(Ticket(c.snd.next, |fs|))
                  && out == Encoded(linkId, RELIABLE_ORDERED, channel, Stamp(c.snd.next, fs))
                else
                  && View() == old(View())[channel := c.(sendSeqUnreliable := Fwd(c.sendSeqUnreliable, |fs|))]
                  && ticket == None
                  && out == Encoded(linkId, UNRELIABLE_SEQUENCED, channel, Stamp(c.sendSeqUnreliable, fs))
    {
      ticket, out := None, [];
      if blockNewSends {
        return NotSent, ticket, out;
      }
      if kind.ReliableNewest? || kind.Acknowledge? {
        return InternalError, ticket, out;
      }
      hide Fwd, EncodeNormal, Encoded, Stamp, Fragments, Enqueue;
      var fs := SerializeNormalPacket(p, fragmentSize);
      if kind.ReliableOrdered? {
        ticket := Some(Ticket(sendSeqReliable[channel], |fs|));
        out := QueueReliable(fs, channel);
      } else {
        out := SendUnreliable(fs, channel);
      }
      res := Success;
    }

    /** Hands out one packet, if any is ready. */
    method Poll() returns (got: Option<Polled>)
      requires Valid()
      modifies this`recvSeqReliable, this`recvQueueOrder, this`recvQueueUnreliable, this`recvQueueNewest
      ensures Valid() && PollOutcome(old(View()), old(recvQueueNewest), got, View(), recvQueueNewest)
    {
      ghost var pre := View();
      hide Fwd;
      for c := 0 to NUM_CHANNELS
        invariant Valid() && View() == pre && recvQueueNewest == old(recvQueueNewest)
        invariant forall b :: 0 <= b < c ==> !CanPoll(pre[b].rcv)
      {
        var queue := recvQueueOrder[c];
        if recvSeqReliable[c] in queue {
          var entry := queue[recvSeqReliable[c]];
          recvQueueOrder := recvQueueOrder[c := queue - {recvSeqReliable[c]}];
          recvSeqReliable := recvSeqReliable[c := Fwd(recvSeqReliable[c], entry.count)];
          assert View() == pre[c := pre[c].(rcv := PollStep(pre[c].rcv))];
          return Some(Ordered(c, entry.packet));
        }
        assert !CanPoll(pre[c].rcv);
      }
      for c := 0 to NUM_CHANNELS
        invariant Valid() && View() == pre && recvQueueNewest == old(recvQueueNewest)
        invariant forall b :: 0 <= b < c ==> pre[b].inbox.queue == []
      {
        if recvQueueUnreliable[c] != [] {
          var pack := recvQueueUnreliable[c][0];
          recvQueueUnreliable := recvQueueUnreliable[c := recvQueueUnreliable[c][1..]];
          assert View() == pre[c := pre[c].(inbox := pre[c].inbox.(queue := pre[c].inbox.queue[1..]))];
          return Some(Sequenced(c, pack));
        }
        assert pre[c].inbox.queue == [];
      }
      if recvQueueNewest != [] {
        var body := recvQueueNewest[0];
        recvQueueNewest := recvQueueNewest[1..];
        return Some(Newest(body));
      }
      return None;
    }

    /** Looks for the number in the channel's retransmit queue. */
    method IsSequenceDelivered(n: u32, channel: nat) returns (delivered: bool)
      requires Valid() && channel < NUM_CHANNELS
      ensures delivered == Channel.IsSequenceDelivered(View()[channel].snd.queue, n)
    {
      var i := 0;
      while i < |retransmitQueue[channel]| && retransmitQueue[channel][i].seqNo != n
        invariant 0 <= i <= |retransmitQueue[channel]|
        invariant forall k :: 0 <= k < i ==> retransmitQueue[channel][k].seqNo != n
      {
        i := i + 1;
      }
      delivered := i == |retransmitQueue[channel]|;
    }

    /** The delivery check of a ticket: every one of its numbers must have left the queue. */
    method IsPacketDelivered(n: u32, numFragments: nat, channel: nat) returns (delivered: bool)
      requires Valid() && channel < NUM_CHANNELS
      ensures delivered == Channel.IsPacketDelivered(View()[channel].snd.queue, n, numFragments)
    {
      delivered := true;
      var i := 0;
      hide Fwd, Channel.IsSequenceDelivered;
      while i < numFragments
        invariant 0 <= i <= numFragments
        invariant forall k :: 0 <= k < i ==> Channel.IsSequenceDelivered(View()[channel].snd.queue, Fwd(n, k))
      {
        var one := IsSequenceDelivered(Fwd(n, i), channel);
        if !one {
          return false;
        }
        i := i + 1;
      }
    }

    /** Sends a copy of everything queued, channel by channel in queue order; changes nothing. */
    method DispatchReliableOrderedQueue() returns (out: seq<seq<Byte>>)
      requires Valid()
      ensures out == AllQueued(linkId, View(), NUM_CHANNELS)
      ensures |out| == QueuedBefore(View(), NUM_CHANNELS)
      ensures forall c, i :: 0 <= c < NUM_CHANNELS && 0 <= i < |View()[c].snd.queue| ==>
                var d := View()[c].snd.queue[i];
                StandsAt(out, QueuedBefore(View(), c) + i, EncodeNormal(linkId, RELIABLE_ORDERED, c, d))
    {
      out := [];
      for c := 0 to NUM_CHANNELS
        invariant out == AllQueued(linkId, View(), c)
      {
        var i := 0;
        assert retransmitQueue[c][..0] == [];
        hide EncodeNormal;
        while i < |retransmitQueue[c]|
          invariant 0 <= i <= |retransmitQueue[c]|
          invariant out == AllQueued(linkId, View(), c) + Encoded(linkId, RELIABLE_ORDERED, c, retransmitQueue[c][..i])
        {
          out := out + [EncodeNormal(linkId, RELIABLE_ORDERED, c, retransmitQueue[c][i])];
          i := i + 1;
        }
        assert retransmitQueue[c][..i] == retransmitQueue[c];
      }
      hide AllQueued, QueuedBefore, EncodeNormal, StandsAt;
      CopiesStand(linkId, View(), out);
    }

    /** Per channel with pending acks, one datagram of at most 512 of them; the rest are dropped. */
    method DispatchAckQueue() returns (out: seq<seq<Byte>>)
      requires Valid()
      modifies this`ackQueue
      ensures Valid() && View() == WithoutAcks(old(View()), NUM_CHANNELS)
      ensures out == AckDatagrams(linkId, old(View()), NUM_CHANNELS)
    {
      ghost var pre, queues := View(), ackQueue;
      out := [];
      hide EncodeAcks, AckDatagrams, OrderedLink.FirstAcks;
      NoAcksYet(linkId, pre);
      for c := 0 to NUM_CHANNELS
        invariant Valid() && |queues| == NUM_CHANNELS
        invariant forall k :: 0 <= k < NUM_CHANNELS ==> ackQueue[k] == if k < c then [] else queues[k]
        invariant out == AckDatagrams(linkId, pre, c)
      {
        assert pre[c].rcv.acks == queues[c];
        AcksNext(linkId, pre, c);
        var picked := TakeAcks(ackQueue[c]);
        ackQueue := ackQueue[c := []];
        if picked != [] {
          out := out + [EncodeAcks(linkId, c, picked)];
        }
      }
      assert View() == WithoutAcks(pre, NUM_CHANNELS);
    }

    /** Queues the ack of a datagram, once. */
    method AddAckToAckQueue(channel: nat, n: u32)
      requires Valid() && channel < NUM_CHANNELS
      modifies this`ackQueue
      ensures Valid()
      ensures var c := old(View())[channel];
              View() == old(View())[channel := c.(rcv := c.rcv.(acks := AddAck(c.rcv.acks, n)))]
      ensures ackQueue[channel] == old(ackQueue)[channel] + if n in old(ackQueue)[channel] then [] else [n]
    {
      if n !in ackQueue[channel] {
        ackQueue := ackQueue[channel := ackQueue[channel] + [n]];
      }
    }

    /** Each ack removes the first queued datagram with its number. */
    method ReceiveAck(channel: nat, acks: seq<u32>)
      requires Valid() && channel < NUM_CHANNELS
      modifies this`retransmitQueue
      ensures Valid()
      ensures var c := old(View())[channel];
              View() == old(View())[channel := c.(snd := c.snd.(queue := RemoveAll(c.snd.queue, acks)))]
    {
      ghost var q0 := retransmitQueue[channel];
      var i := 0;
      assert acks[0..] == acks;
      while i < |acks|
        invariant 0 <= i <= |acks| && Valid()
        invariant retransmitQueue == old(retransmitQueue)[channel := retransmitQueue[channel]]
        invariant RemoveAll(retransmitQueue[channel], acks[i..]) == RemoveAll(q0, acks)
      {
        var q := retransmitQueue[channel];
        var k := 0;
        while k < |q| && q[k].seqNo != acks[i]
          invariant 0 <= k <= |q|
          invariant forall j :: 0 <= j < k ==> q[j].seqNo != acks[i]
        {
          k := k + 1;
        }
        RemoveFirstAt(q, acks[i], k);
        assert acks[i..][1..] == acks[i + 1..];
        if k < |q| {
          retransmitQueue := retransmitQueue[channel := q[..k] + q[k + 1..]];
        }
        i := i + 1;
      }
    }

    /** The unlocked newness test and the locked insert, run without interruption. */
    method ReceiveReliableOrdered(channel: nat, d: Datagram)
      requires Valid() && channel < NUM_CHANNELS && |reliableFragments[channel]| < 0xFFFF_FFFF
      modifies this`recvQueueOrder, this`reliableFragments
      ensures Valid()
      ensures var c := old(View())[channel];
              View() == old(View())[channel := c.(rcv :=
                if IsSequenceNewer(d.seqNo, c.rcv.next) then Channel.Insert(c.rcv, d) else c.rcv)]
    {
      ghost var pre := View();
      ghost var r := pre[channel].rcv;
      hide Wrap, Reassemble, IsSequenceNewer;
      if !IsSequenceNewer(d.seqNo, recvSeqReliable[channel]) {
        return;
      }
      var queue, fragments := recvQueueOrder[channel], reliableFragments[channel];
      if d.frag.first && d.frag.last {
        if d.seqNo !in queue {
          queue := AddEntry(queue, d.seqNo, Entry(Packet(d.frag.id, d.frag.relay, d.frag.bytes), 1));
        }
      } else if d.seqNo !in fragments {
        queue, fragments := CollectFragment(queue, fragments, d, r);
      }
      assert Channel.Insert(r, d) == r.(order := queue, fragments := fragments);
      recvQueueOrder, reliableFragments := recvQueueOrder[channel := queue], reliableFragments[channel := fragments];
      assert View() == pre[channel := pre[channel].(rcv := Channel.Insert(r, d))];
    }

    method ReceiveUnreliableSequenced(channel: nat, d: Datagram)
      requires Valid() && channel < NUM_CHANNELS && |unreliableFragments[channel]| < 0xFFFF_FFFF
      modifies this`recvSeqUnreliable, this`unreliableFragments, this`recvQueueUnreliable
      ensures Valid()
      ensures var c := old(View())[channel];
              View() == old(View())[channel := c.(inbox := Unreliable.Receive(c.inbox, d))]
    {
      ghost var pre := View();
      ghost var r := pre[channel].inbox;
      hide Wrap, Fwd, Reassemble, IsSequenceNewer, HasRun, IsLowest, RunPresent, RunBytes, RunKeys, Unreliable.Purge;
      if !IsSequenceNewer(d.seqNo, recvSeqUnreliable[channel]) {
        return;
      }
      var next, fragments := recvSeqUnreliable[channel], unreliableFragments[channel];
      var queue := recvQueueUnreliable[channel];
      if d.frag.first && d.frag.last {
        next := Fwd(d.seqNo, 1);
        queue := queue + [Packet(d.frag.id, d.frag.relay, d.frag.bytes)];
      } else if d.seqNo !in fragments {
        next, fragments, queue := CollectUnreliable(next, fragments, queue, d);
      }
      assert Unreliable.Receive(r, d) == Unreliable.Inbox(next, fragments, queue);
      recvSeqUnreliable := recvSeqUnreliable[channel := next];
      unreliableFragments := unreliableFragments[channel := fragments];
      recvQueueUnreliable := recvQueueUnreliable[channel := queue];
      assert View() == pre[channel := pre[channel].(inbox := Unreliable.Receive(r, d))];
    }

    /** Keeps the body of an update newer than the last one taken. */
    method ReceiveReliableNewest(buff: seq<Byte>)
      requires Valid()
      modifies this`recvSeqNewest, this`recvQueueNewest
      ensures Valid() && View() == old(View())
      ensures if |buff| >= 16 && IsSequenceNewer(ReadU32(buff, 5), old(recvSeqNewest)) then
                recvSeqNewest == Fwd(ReadU32(buff, 5), 1) && recvQueueNewest == old(recvQueueNewest) + [buff[9..]]
              else
                recvSeqNewest == old(recvSeqNewest) && recvQueueNewest == old(recvQueueNewest)
    {
      hide Wrap, Fwd, IsSequenceNewer;
      if |buff| >= MIN_NEWEST && IsSequenceNewer(ReadU32(buff, 5), recvSeqNewest) {
        recvSeqNewest := Fwd(ReadU32(buff, 5), 1);
        recvQueueNewest := recvQueueNewest + [buff[9..]];
      }
    }

    /** A reliable datagram is acked before anything else, even if it was processed long ago. */
    method ReceiveNormal(reliable: bool, channel: nat, d: Datagram)
      requires Valid() && channel < NUM_CHANNELS
      requires |reliableFragments[channel]| < 0xFFFF_FFFF && |unreliableFragments[channel]| < 0xFFFF_FFFF
      modifies this`ackQueue, this`recvQueueOrder, this`reliableFragments
      modifies this`recvSeqUnreliable, this`unreliableFragments, this`recvQueueUnreliable
      ensures Valid()
      ensures var c := old(View())[channel];
              View() == old(View())[channel := if reliable then c.(rcv := Channel.Receive(c.rcv, d))
                                               else c.(inbox := Unreliable.Receive(c.inbox, d))]
    {
      hide Wrap, Fwd, IsSequenceNewer, Channel.Insert, Unreliable.Receive;
      if reliable {
        AddAckToAckQueue(channel, d.seqNo);
        ReceiveReliableOrdered(channel, d);
      } else {
        ReceiveUnreliableSequenced(channel, d);
      }
    }

    /** One datagram from the network, unless simulated packet loss takes it: `roll` is the random
        number that decides. */
    method RecvData(buff: seq<Byte>, roll: nat)
      requires Valid()
      requires forall c :: 0 <= c < NUM_CHANNELS ==>
                 |reliableFragments[c]| < 0xFFFF_FFFF && |unreliableFragments[c]| < 0xFFFF_FFFF
      modifies this
      ensures Valid() && blockNewSends == old(blockNewSends) && packetLossPercentage == old(packetLossPercentage)
      ensures var taken := roll % 100 >= packetLossPercentage as nat;
              var update := taken && IsUpdate(buff, old(recvSeqNewest));
              && View() == (if taken then Received(old(View()), buff) else old(View()))
              && recvQueueNewest == old(recvQueueNewest) + (if update then [buff[9..]] else [])
              && recvSeqNewest == if update then Fwd(ReadU32(buff, 5), 1) else old(recvSeqNewest)
    {
      if packetLossPercentage > 0 && roll % 100 < packetLossPercentage as nat {
        return;
      }
      Take(buff);
    }

    method Take(buff: seq<Byte>)
      requires Valid()
      requires forall c :: 0 <= c < NUM_CHANNELS ==>
                 |reliableFragments[c]| < 0xFFFF_FFFF && |unreliableFragments[c]| < 0xFFFF_FFFF
      modifies this
      ensures Valid() && View() == Received(old(View()), buff)
      ensures blockNewSends == old(blockNewSends) && packetLossPercentage == old(packetLossPercentage)
      ensures recvQueueNewest == old(recvQueueNewest) + if IsUpdate(buff, old(recvSeqNewest)) then [buff[9..]] else []
      ensures recvSeqNewest ==
              if IsUpdate(buff, old(recvSeqNewest)) then Fwd(ReadU32(buff, 5), 1) else old(recvSeqNewest)
    {
      hide Wrap, Fwd, IsSequenceNewer, Channel.Insert, Unreliable.Receive, ReadU32;
      if IsNormal(buff) {
        ReceiveNormal(buff[4] == RELIABLE_ORDERED, ChannelOf(buff), DecodeNormal(buff));
      } else if IsAck(buff) {
        if AcksWellFormed(buff) {
          ReceiveAck(buff[5] as nat, DecodeAcks(buff));
        }
      } else if |buff| >= 5 && buff[4] == RELIABLE_NEWEST {
        ReceiveReliableNewest(buff);
      }
    }
  }

  /** The delivery check as users call it: the answer is no for an endpoint without a link. */
  method IsPacketDelivered(links: map<nat, RUDPLink>, endpoint: nat, n: u32, numFragments: nat, channel: nat)
    returns (delivered: bool)
    requires channel < NUM_CHANNELS && forall e :: e in links ==> links[e].Valid()
    ensures delivered <==>
              endpoint in links && Channel.IsPacketDelivered(links[endpoint].View()[channel].snd.queue, n, numFragments)
  {
    if endpoint !in links {
      return false;
    }
    delivered := links[endpoint].IsPacketDelivered(n, numFragments, channel);
  }

  predicate IsNormal(buff: seq<Byte>) {
    |buff| >= OFF_NORM_DATA && (buff[4] == RELIABLE_ORDERED || buff[4] == UNRELIABLE_SEQUENCED)
  }

  /** An update of groups that is not older than the last one taken. */
  predicate IsUpdate(buff: seq<Byte>, last: u32) {
    |buff| >= MIN_NEWEST && buff[4] == RELIABLE_NEWEST && IsSequenceNewer(ReadU32(buff, 5), last)
  }

  predicate IsAck(buff: seq<Byte>) {
    |buff| >= 5 && buff[4] == ACK
  }

  /** What a datagram does to the channels: a normal one acts on the channel it names, an ack on
      the retransmit queue of its channel. */
  ghost function Received(v: seq<Chan>, buff: seq<Byte>): seq<Chan>
    requires |v| == NUM_CHANNELS
  {
    if IsNormal(buff) then
      var d, c := DecodeNormal(buff), ChannelOf(buff);
      if buff[4] == RELIABLE_ORDERED then v[c := v[c].(rcv := Channel.Receive(v[c].rcv, d))]
      else v[c := v[c].(inbox := Unreliable.Receive(v[c].inbox, d))]
    else if IsAck(buff) && AcksWellFormed(buff) then
      var c := buff[5] as nat;
      v[c := v[c].(snd := v[c].snd.(queue := RemoveAll(v[c].snd.queue, DecodeAcks(buff))))]
    else v
  }

  /** The loop over one channel's ack queue, stopping once 2048 bytes are filled. */
  method TakeAcks(acks: seq<u32>) returns (picked: seq<u32>)
    ensures picked == OrderedLink.FirstAcks(acks)
    ensures picked == if |acks| <= 512 then acks else acks[..512]
  {
    picked := [];
    var i := 0;
    while i < |acks| && 4 * i < BUFF_SIZE
      invariant 0 <= i <= |acks| && i <= OrderedLink.MAX_ACKS
      invariant picked == acks[..i]
    {
      picked := picked + [acks[i]];
      i := i + 1;
    }
    assert |acks| <= OrderedLink.MAX_ACKS ==> acks[..i] == acks;
  }

  ghost function WithoutAcks(v: seq<Chan>, n: nat): (v': seq<Chan>)
    requires n <= |v| == NUM_CHANNELS
    ensures |v'| == NUM_CHANNELS
  {
    seq(NUM_CHANNELS, c requires 0 <= c < NUM_CHANNELS =>
      if c < n then v[c].(rcv := v[c].rcv.(acks := [])) else v[c])
  }

  ghost function AckDatagrams(linkId: u32, v: seq<Chan>, n: nat): seq<seq<Byte>>
    requires n <= |v| == NUM_CHANNELS
  {
    if n == 0 then []
    else
      var acks := OrderedLink.FirstAcks(v[n - 1].rcv.acks);
      AckDatagrams(linkId, v, n - 1) + if acks == [] then [] else [EncodeAcks(linkId, n - 1, acks)]
  }

  lemma NoAcksYet(linkId: u32, v: seq<Chan>)
    requires |v| == NUM_CHANNELS
    ensures AckDatagrams(linkId, v, 0) == []
  {
  }

  lemma AcksNext(linkId: u32, v: seq<Chan>, c: nat)
    requires c < |v| == NUM_CHANNELS
    ensures |OrderedLink.FirstAcks(v[c].rcv.acks)| <= 512
    ensures var acks := OrderedLink.FirstAcks(v[c].rcv.acks);
            AckDatagrams(linkId, v, c + 1)
            == AckDatagrams(linkId, v, c) + if acks == [] then [] else [EncodeAcks(linkId, c, acks)]
  {
    hide EncodeAcks;
  }

  lemma {:induction false} RemoveFirstAt(q: seq<Datagram>, n: u32, k: nat)
    requires k <= |q| && (k < |q| ==> q[k].seqNo == n)
    requires forall j :: 0 <= j < k ==> q[j].seqNo != n
    ensures RemoveFirst(q, n) == if k < |q| then q[..k] + q[k + 1..] else q
  {
    if 0 < k {
      var rest := q[1..];
      assert q[0].seqNo != n && forall j :: 0 <= j < |rest| ==> rest[j] == q[j + 1];
      RemoveFirstAt(rest, n, k - 1);
      assert RemoveFirst(q, n) == [q[0]] + RemoveFirst(rest, n);
      hide RemoveFirst;
      if k < |q| {
        CutBehind(q, k);
      } else {
        assert q == [q[0]] + rest;
      }
    }
  }

  lemma CutBehind(q: seq<Datagram>, k: nat)
    requires 0 < k < |q|
    ensures q[..k] + q[k + 1..] == [q[0]] + (q[1..][..k - 1] + q[1..][k..])
  {
  }

  /** Buffers a fragment and, if that completes a message, moves the message to the queue. */
  method CollectFragment(queue: map<u32, Entry>, fragments: Buffer, d: Datagram, ghost r: Receiver)
    returns (queue': map<u32, Entry>, fragments': Buffer)
    requires r.order == queue && r.fragments == fragments && |fragments| < 0xFFFF_FFFF
    requires !(d.frag.first && d.frag.last) && d.seqNo !in fragments
    ensures Channel.Insert(r, d) == r.(order := queue', fragments := fragments')
  {
    hide Wrap, Reassemble, HasRun, IsLowest, RunPresent, RunBytes, RunKeys;
    var grown := fragments[d.seqNo := d.frag];
    assert |grown| == |fragments| + 1;
    var found, pack, b, e, rest := TryReassembleBigPacket(grown, d.seqNo);
    var span := 1 + (e as int - b as int);
    queue', fragments' := queue, rest;
    if found {
      queue' := AddEntry(queue, b, Entry(pack, Wrap(span)));
    }
    InsertIs(r, d, grown, found, pack, b, Wrap(span), rest);
  }

  /** The same on an unreliable channel, where completing a message overtakes older fragments. */
  method CollectUnreliable(next: u32, fragments: Buffer, queue: seq<Packet>, d: Datagram)
    returns (next': u32, fragments': Buffer, queue': seq<Packet>)
    requires |fragments| < 0xFFFF_FFFF && IsSequenceNewer(d.seqNo, next)
    requires !(d.frag.first && d.frag.last) && d.seqNo !in fragments
    ensures Unreliable.Receive(Unreliable.Inbox(next, fragments, queue), d)
              == Unreliable.Inbox(next', fragments', queue')
  {
    hide Wrap, Fwd, Reassemble, IsSequenceNewer, HasRun, IsLowest, RunPresent, RunBytes, RunKeys, Unreliable.Purge;
    var grown := fragments[d.seqNo := d.frag];
    assert |grown| == |fragments| + 1;
    var found, pack, b, e, rest := TryReassembleBigPacket(grown, d.seqNo);
    next', fragments', queue' := next, rest, queue;
    if found {
      LastPlusOne(b, e);
      queue' := queue + [pack];
      next' := Fwd(e, 1);
      fragments' := PurgeOld(rest, next');
    }
  }

  lemma InsertIs(r: Receiver, d: Datagram, m: Buffer, found: bool, pack: Packet, b: u32, count: u32, rest: Buffer)
    requires !(d.frag.first && d.frag.last) && d.seqNo !in r.fragments && m == r.fragments[d.seqNo := d.frag]
    requires Reassemble(m, d.seqNo) == if found then Some(Reassembled(pack, b, count, rest)) else None
    requires !found ==> rest == m
    ensures Channel.Insert(r, d) ==
            r.(fragments := rest, order := if found then AddEntry(r.order, b, Entry(pack, count)) else r.order)
  {
    WrapSmall(count);
    hide Wrap, Reassemble;
  }

  lemma LastPlusOne(b: u32, e: u32)
    ensures Fwd(b, Wrap(1 + (e - b))) == Fwd(e, 1)
  {
  }

  /** The loop that erases overtaken fragments from the buffer, in key order. */
  method PurgeOld(m: Buffer, next: u32) returns (m': Buffer)
    ensures m' == Unreliable.Purge(m, next)
  {
    m' := m;
    var keys := m.Keys;
    hide IsSequenceNewer;
    while keys != {}
      invariant keys <= m.Keys
      invariant forall k :: k in m' <==> k in m && (k in keys || IsSequenceNewer(k, next))
      invariant forall k :: k in m' ==> m'[k] == m[k]
      decreases keys
    {
      var k :| k in keys;
      if !IsSequenceNewer(k, next) {
        m' := m' - {k};
      }
      keys := keys - {k};
    }
  }

  lemma StampAt(n: u32, fs: seq<Fragment>, i: nat)
    requires i < |fs|
    ensures Stamp(n, fs)[i] == Datagram(Fwd(n, i), fs[i])
  {
  }

  function AllQueued(linkId: u32, v: seq<Chan>, n: nat): seq<seq<Byte>>
    requires n <= |v| == NUM_CHANNELS
  {
    if n == 0 then []
    else AllQueued(linkId, v, n - 1) + Encoded(linkId, RELIABLE_ORDERED, n - 1, v[n - 1].snd.queue)
  }

  ghost predicate StandsAt(out: seq<seq<Byte>>, at: nat, w: seq<Byte>) {
    at < |out| && out[at] == w
  }

  /** How many datagrams are queued on the channels before c. */
  ghost function QueuedBefore(v: seq<Chan>, c: nat): nat
    requires c <= |v|
  {
    if c == 0 then 0 else QueuedBefore(v, c - 1) + |v[c - 1].snd.queue|
  }

  lemma {:induction false} AllQueuedSize(linkId: u32, v: seq<Chan>, n: nat)
    requires n <= |v| == NUM_CHANNELS
    ensures |AllQueued(linkId, v, n)| == QueuedBefore(v, n)
  {
    hide EncodeNormal;
    if n > 0 {
      AllQueuedSize(linkId, v, n - 1);
    }
  }

  /** Every queued datagram of every channel has its place among the copies. */
  lemma {:induction false} AllQueuedAt(linkId: u32, v: seq<Chan>, n: nat, c: nat, i: nat)
    requires c < n <= |v| == NUM_CHANNELS && i < |v[c].snd.queue|
    ensures var at := QueuedBefore(v, c) + i;
            && at < |AllQueued(linkId, v, n)|
            && AllQueued(linkId, v, n)[at] == EncodeNormal(linkId, RELIABLE_ORDERED, c, v[c].snd.queue[i])
  {
    hide EncodeNormal;
    AllQueuedSize(linkId, v, n - 1);
    if c < n - 1 {
      AllQueuedAt(linkId, v, n - 1, c, i);
    }
  }

  lemma CopiesStand(linkId: u32, v: seq<Chan>, out: seq<seq<Byte>>)
    requires |v| == NUM_CHANNELS && out == AllQueued(linkId, v, NUM_CHANNELS)
    ensures |out| == QueuedBefore(v, NUM_CHANNELS)
    ensures forall c, i :: 0 <= c < NUM_CHANNELS && 0 <= i < |v[c].snd.queue| ==>
              StandsAt(out, QueuedBefore(v, c) + i, EncodeNormal(linkId, RELIABLE_ORDERED, c, v[c].snd.queue[i]))
  {
    AllQueuedSize(linkId, v, NUM_CHANNELS);
    hide EncodeNormal, AllQueued, QueuedBefore;
    forall c, i | 0 <= c < NUM_CHANNELS && 0 <= i < |v[c].snd.queue|
      ensures StandsAt(out, QueuedBefore(v, c) + i, EncodeNormal(linkId, RELIABLE_ORDERED, c, v[c].snd.queue[i]))
    {
      AllQueuedAt(linkId, v, NUM_CHANNELS, c, i);
    }
  }
}
