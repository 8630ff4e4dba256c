/** What travels: user packets, the fragments a packet is cut into, and numbered datagrams. */
module Packets {
  import opened Seq32

  newtype Byte = x: int | 0 <= x < 256

  /** Size of the send buffers, and of the receive buffers. */
  const BUFF_SIZE: nat := 2048
  const BUFF_RECV_SIZE: nat := 3000

  datatype Option<+T> = None | Some(value: T)

  /** A packet as the user sends and polls it: data id, relay flag and payload. */
  datatype Packet = Packet(id: Byte, relay: bool, payload: seq<Byte>)

  /** One piece of a packet, with its first and last fragment bits. */
  datatype Fragment = Fragment(first: bool, last: bool, id: Byte, relay: bool, bytes: seq<Byte>)

  /** A fragment stamped with its sequence number. */
  datatype Datagram = Datagram(seqNo: u32, frag: Fragment)

  /** The payload bytes of a list of fragments, in list order. */
  function Joined(fs: seq<Fragment>): seq<Byte> {
    if fs == [] then [] else Joined(fs[..|fs| - 1]) + fs[|fs| - 1].bytes
  }

  /** `fs` is a cut of packet `p`: flags mark the ends, ids agree, bytes join up. */
  ghost predicate IsCut(p: Packet, fs: seq<Fragment>) {
    && |fs| >= 1
    && (forall j :: 0 <= j < |fs| ==>
          && (fs[j].first <==> j == 0)
          && (fs[j].last <==> j == |fs| - 1)
          && fs[j].id == p.id
          && fs[j].relay == p.relay)
    && Joined(fs) == p.payload
  }

  lemma Assoc(a: seq<Byte>, b: seq<Byte>, c: seq<Byte>)
    ensures (a + b) + c == a + (b + c)
  {
  }
}
