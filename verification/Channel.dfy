/** One channel of a link, as values: what each receive, send and poll does to its state. */
module Channel {
  import opened Seq32
  import opened Packets
  import opened Reassembly

  /** A reassembled or whole packet waiting for its turn, with the numbers it takes up. */
  datatype Entry = Entry(packet: Packet, count: u32)

  /** m_SendSeq_reliable and m_RetransmitQueue_reliable of a channel. */
  datatype Sender = Sender(next: u32, queue: seq<Datagram>)

  /** m_RecvSeq_reliable, m_RecvQueue_reliable_order, m_Reliable_fragments and m_AckQueue. */
  datatype Receiver = Receiver(next: u32, order: map<u32, Entry>, fragments: Buffer, acks: seq<u32>)

  function Stamp(n: u32, fs: seq<Fragment>): (ds: seq<Datagram>)
    ensures |ds| == |fs|
  {
    seq(|fs|, i requires 0 <= i < |fs| => Datagram(Fwd(n, i), fs[i]))
  }

  function Enqueue(s: Sender, fs: seq<Fragment>): Sender {
    Sender(Fwd(s.next, |fs|), s.queue + Stamp(s.next, fs))
  }

  /** An ack removes the first queued datagram with its number, if there is one. */
  function RemoveFirst(q: seq<Datagram>, n: u32): seq<Datagram> {
    if q == [] then []
    else if q[0].seqNo == n then q[1..]
    else [q[0]] + RemoveFirst(q[1..], n)
  }

  function RemoveAll(q: seq<Datagram>, acks: seq<u32>): seq<Datagram>
    decreases |acks|
  {
    if acks == [] then q else RemoveAll(RemoveFirst(q, acks[0]), acks[1..])
  }

  function AddAck(acks: seq<u32>, n: u32): seq<u32> {
    if n in acks then acks else acks + [n]
  }

  predicate IsSequenceDelivered(q: seq<Datagram>, n: u32) {
    forall d :: d in q ==> d.seqNo != n
  }

  predicate IsPacketDelivered(q: seq<Datagram>, n: u32, count: nat) {
    forall i :: 0 <= i < count ==> IsSequenceDelivered(q, Fwd(n, i))
  }

  /** The locked part of receiveReliableOrdered. */
  ghost function Insert(r: Receiver, d: Datagram): Receiver {
    if d.frag.first && d.frag.last then
      r.(order := AddEntry(r.order, d.seqNo, Entry(Packet(d.frag.id, d.frag.relay, d.frag.bytes), 1)))
    else if d.seqNo in r.fragments then
      r
    else
      var m := r.fragments[d.seqNo := d.frag];
      match Reassemble(m, d.seqNo)
      case None => r.(fragments := m)
      case Some(x) => r.(fragments := x.rest, order := AddEntry(r.order, x.begin, Entry(x.pack, Wrap(x.count))))
  }

  /** std::map::insert leaves an existing entry alone. */
  function AddEntry(order: map<u32, Entry>, k: u32, e: Entry): map<u32, Entry> {
    if k in order then order else order[k := e]
  }

  /** The whole of recvData for a reliable datagram: ack, newness test, insert. */
  ghost function Receive(r: Receiver, d: Datagram): Receiver {
    var acked := r.(acks := AddAck(r.acks, d.seqNo));
    if IsSequenceNewer(d.seqNo, r.next) then Insert(acked, d) else acked
  }

  predicate CanPoll(r: Receiver) {
    r.next in r.order
  }

  function PollStep(r: Receiver): Receiver
    requires CanPoll(r)
  {
    r.(next := Fwd(r.next, r.order[r.next].count), order := r.order - {r.next})
  }
}
