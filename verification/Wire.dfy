/** The bytes of the datagrams: headers, fragments and ack lists, in little-endian order. */
module Wire {
  import opened Seq32
  import opened Packets

  // EHeaderPacketType
  const RELIABLE_ORDERED: Byte := 0
  const UNRELIABLE_SEQUENCED: Byte := 1
  const RELIABLE_NEWEST: Byte := 2
  const ACK: Byte := 3

  /** Offset of the first payload byte of a normal datagram, and of an ack datagram. */
  const OFF_NORM_DATA: nat := 11
  const OFF_ACK_PAYLOAD: nat := 10

  const NUM_CHANNELS: nat := 8

  function U32Bytes(n: u32): (bs: seq<Byte>)
    ensures |bs| == 4
  {
    [(n % 256) as Byte, (n / 256 % 256) as Byte, (n / 65536 % 256) as Byte, (n / 16777216) as Byte]
  }

  function ReadU32(bs: seq<Byte>, at: nat): u32
    requires at + 4 <= |bs|
  {
    bs[at] as int + 256 * bs[at + 1] as int + 65536 * bs[at + 2] as int + 16777216 * bs[at + 3] as int
  }

  lemma U32RoundTrip(n: u32, before: seq<Byte>, after: seq<Byte>)
    ensures ReadU32(before + U32Bytes(n) + after, |before|) == n
  {
    var bs := before + U32Bytes(n) + after;
    assert forall i :: 0 <= i < 4 ==> bs[|before| + i] == U32Bytes(n)[i];
    SplitU32(n);
  }

  lemma SplitU32(n: u32)
    ensures n % 256 + 256 * (n / 256 % 256) + 65536 * (n / 65536 % 256) + 16777216 * (n / 16777216) == n
  {
    assert n / 65536 == n / 256 / 256 && n / 16777216 == n / 65536 / 256;
  }

  lemma U32Unique(bs: seq<Byte>, at: nat)
    requires at + 4 <= |bs|
    ensures U32Bytes(ReadU32(bs, at)) == bs[at..at + 4]
  {
    var a, b, c, d := bs[at] as int, bs[at + 1] as int, bs[at + 2] as int, bs[at + 3] as int;
    var n := ReadU32(bs, at);
    assert n == a + 256 * (b + 256 * (c + 256 * d));
    assert n % 256 == a && n / 256 == b + 256 * (c + 256 * d);
    assert n / 256 % 256 == b && n / 65536 == c + 256 * d;
    assert n / 65536 % 256 == c && n / 16777216 == d;
  }

  /** The four bytes at this offset are the number, lowest byte first. */
  predicate LittleEndian(bs: seq<Byte>, at: nat, n: u32) {
    && at + 4 <= |bs|
    && bs[at] as int == n % 256 && bs[at + 1] as int == n / 256 % 256
    && bs[at + 2] as int == n / 65536 % 256 && bs[at + 3] as int == n / 16777216 % 256
  }

  lemma U32Layout(n: u32, before: seq<Byte>, after: seq<Byte>)
    ensures LittleEndian(before + U32Bytes(n) + after, |before|, n)
  {
    var bs := before + U32Bytes(n) + after;
    assert forall i :: 0 <= i < 4 ==> bs[|before| + i] == U32Bytes(n)[i];
  }

  // ---- normal datagrams

  function Bit(b: bool, weight: nat): nat {
    if b then weight else 0
  }

  /** Channel in bits 0-2, relay in bit 3, first and last fragment in bits 4 and 5. */
  function FlagByte(channel: nat, f: Fragment): Byte
    requires channel < NUM_CHANNELS
  {
    (channel + Bit(f.relay, 8) + Bit(f.first, 16) + Bit(f.last, 32)) as Byte
  }

  /** Link id, type, channel and flags, sequence number, data id, payload. */
  function EncodeNormal(linkId: u32, kind: Byte, channel: nat, d: Datagram): seq<Byte>
    requires channel < NUM_CHANNELS
  {
    U32Bytes(linkId) + [kind, FlagByte(channel, d.frag)] + U32Bytes(d.seqNo) + [d.frag.id] + d.frag.bytes
  }

  function ChannelOf(buff: seq<Byte>): (c: nat)
    requires |buff| >= OFF_NORM_DATA
    ensures c < NUM_CHANNELS
  {
    buff[5] as int % 8
  }

  function DecodeNormal(buff: seq<Byte>): Datagram
    requires |buff| >= OFF_NORM_DATA
  {
    var flags := buff[5] as int;
    Datagram(ReadU32(buff, 6),
             Fragment(flags / 16 % 2 == 1, flags / 32 % 2 == 1, buff[10], flags / 8 % 2 == 1, buff[OFF_NORM_DATA..]))
  }

  lemma FlagsRoundTrip(channel: nat, f: Fragment)
    requires channel < NUM_CHANNELS
    ensures var b := FlagByte(channel, f) as int;
            b % 8 == channel && (b / 8 % 2 == 1 <==> f.relay) && (b / 16 % 2 == 1 <==> f.first)
                && (b / 32 % 2 == 1 <==> f.last)
  {
  }

  /** What is written is what is read. */
  lemma NormalRoundTrip(linkId: u32, kind: Byte, channel: nat, d: Datagram)
    requires channel < NUM_CHANNELS
    ensures var buff := EncodeNormal(linkId, kind, channel, d);
            && |buff| == OFF_NORM_DATA + |d.frag.bytes|
            && ReadU32(buff, 0) == linkId && buff[4] == kind
            && ChannelOf(buff) == channel && DecodeNormal(buff) == d
  {
    var buff := EncodeNormal(linkId, kind, channel, d);
    var mid := [kind, FlagByte(channel, d.frag)];
    var tail := [d.frag.id] + d.frag.bytes;
    assert buff == [] + U32Bytes(linkId) + (mid + U32Bytes(d.seqNo) + tail);
    U32RoundTrip(linkId, [], mid + U32Bytes(d.seqNo) + tail);
    assert buff == (U32Bytes(linkId) + mid) + U32Bytes(d.seqNo) + tail;
    U32RoundTrip(d.seqNo, U32Bytes(linkId) + mid, tail);
    FlagsRoundTrip(channel, d.frag);
    assert buff[OFF_NORM_DATA..] == d.frag.bytes;
    hide U32Bytes, ReadU32, FlagByte;
  }

  /** Every byte of a normal datagram: link id, type, channel and flags, sequence number, data id and
      payload, numbers with their lowest byte first. */
  lemma NormalLayout(linkId: u32, kind: Byte, channel: nat, d: Datagram)
    requires channel < NUM_CHANNELS
    ensures var buff := EncodeNormal(linkId, kind, channel, d);
            && |buff| == 11 + |d.frag.bytes|
            && LittleEndian(buff, 0, linkId) && buff[4] == kind
            && buff[5] as int == channel + (if d.frag.relay then 8 else 0) + (if d.frag.first then 16 else 0)
                                 + (if d.frag.last then 32 else 0)
            && LittleEndian(buff, 6, d.seqNo) && buff[10] == d.frag.id && buff[11..] == d.frag.bytes
  {
    var buff := EncodeNormal(linkId, kind, channel, d);
    var mid := [kind, FlagByte(channel, d.frag)];
    var tail := [d.frag.id] + d.frag.bytes;
    assert buff == [] + U32Bytes(linkId) + (mid + U32Bytes(d.seqNo) + tail);
    U32Layout(linkId, [], mid + U32Bytes(d.seqNo) + tail);
    assert buff == (U32Bytes(linkId) + mid) + U32Bytes(d.seqNo) + tail;
    U32Layout(d.seqNo, U32Bytes(linkId) + mid, tail);
    assert buff[11..] == d.frag.bytes;
    hide U32Bytes, LittleEndian;
  }

  /** Any well-formed datagram whose two spare flag bits are clear is the encoding of what is
      read from it. */
  lemma NormalUnique(buff: seq<Byte>)
    requires |buff| >= OFF_NORM_DATA && buff[5] < 64
    ensures EncodeNormal(ReadU32(buff, 0), buff[4], ChannelOf(buff), DecodeNormal(buff)) == buff
  {
    var d := DecodeNormal(buff);
    U32Unique(buff, 0);
    U32Unique(buff, 6);
    FlagsUnique(buff[5], ChannelOf(buff), d.frag);
    hide U32Bytes, ReadU32, FlagByte;
    assert buff == buff[0..4] + [buff[4], buff[5]] + buff[6..10] + [buff[10]] + buff[11..];
  }

  lemma FlagsUnique(b: Byte, channel: nat, f: Fragment)
    requires b < 64 && channel == b as int % 8
    requires (f.relay <==> b as int / 8 % 2 == 1) && (f.first <==> b as int / 16 % 2 == 1)
             && (f.last <==> b as int / 32 % 2 == 1)
    ensures FlagByte(channel, f) == b
  {
  }

  // ---- ack datagrams

  function AckBytes(acks: seq<u32>): (bs: seq<Byte>)
    ensures |bs| == 4 * |acks|
  {
    if acks == [] then [] else AckBytes(acks[..|acks| - 1]) + U32Bytes(acks[|acks| - 1])
  }

  function EncodeAcks(linkId: u32, channel: nat, acks: seq<u32>): seq<Byte>
    requires channel < NUM_CHANNELS && |acks| < 0x1000_0000
  {
    U32Bytes(linkId) + [ACK, channel as Byte] + U32Bytes(|acks|) + AckBytes(acks)
  }

  /** The header says as many acks as there are bytes for. */
  predicate AcksWellFormed(buff: seq<Byte>) {
    |buff| >= OFF_ACK_PAYLOAD && buff[5] < 8 && |buff| - OFF_ACK_PAYLOAD == 4 * ReadU32(buff, 6)
  }

  function DecodeAcks(buff: seq<Byte>): seq<u32>
    requires AcksWellFormed(buff)
  {
    seq(ReadU32(buff, 6), i requires 0 <= i < ReadU32(buff, 6) => ReadU32(buff, OFF_ACK_PAYLOAD + 4 * i))
  }

  lemma {:induction false} AckBytesAt(before: seq<Byte>, acks: seq<u32>, i: nat)
    requires i < |acks|
    ensures ReadU32(before + AckBytes(acks), |before| + 4 * i) == acks[i]
  {
    var front, last := acks[..|acks| - 1], acks[|acks| - 1];
    if i == |front| {
      assert before + AckBytes(acks) == (before + AckBytes(front)) + U32Bytes(last) + [];
      U32RoundTrip(last, before + AckBytes(front), []);
    } else {
      AckBytesAt(before, front, i);
      assert forall k :: 0 <= k < |before + AckBytes(front)| ==>
          (before + AckBytes(acks))[k] == (before + AckBytes(front))[k];
    }
  }

  lemma AcksRoundTrip(linkId: u32, channel: nat, acks: seq<u32>)
    requires channel < NUM_CHANNELS && |acks| < 0x1000_0000
    ensures var buff := EncodeAcks(linkId, channel, acks);
            AcksWellFormed(buff) && ReadU32(buff, 0) == linkId && buff[4] == ACK
            && buff[5] as nat == channel && DecodeAcks(buff) == acks
  {
    var buff := EncodeAcks(linkId, channel, acks);
    var mid := [ACK, channel as Byte];
    assert buff == [] + U32Bytes(linkId) + (mid + U32Bytes(|acks|) + AckBytes(acks));
    U32RoundTrip(linkId, [], mid + U32Bytes(|acks|) + AckBytes(acks));
    assert buff == (U32Bytes(linkId) + mid) + U32Bytes(|acks|) + AckBytes(acks);
    U32RoundTrip(|acks|, U32Bytes(linkId) + mid, AckBytes(acks));
    var head := U32Bytes(linkId) + mid + U32Bytes(|acks|);
    assert |head| == OFF_ACK_PAYLOAD;
    hide U32Bytes, ReadU32, AckBytes;
    forall i | 0 <= i < |acks| ensures ReadU32(buff, OFF_ACK_PAYLOAD + 4 * i) == acks[i] {
      AckBytesAt(head, acks, i);
    }
  }

  lemma {:induction false} AckBytesLayout(before: seq<Byte>, acks: seq<u32>, i: nat)
    requires i < |acks|
    ensures LittleEndian(before + AckBytes(acks), |before| + 4 * i, acks[i])
  {
    var front, last := acks[..|acks| - 1], acks[|acks| - 1];
    if i == |front| {
      assert before + AckBytes(acks) == (before + AckBytes(front)) + U32Bytes(last) + [];
      U32Layout(last, before + AckBytes(front), []);
    } else {
      AckBytesLayout(before, front, i);
      assert forall k :: 0 <= k < |before + AckBytes(front)| ==>
          (before + AckBytes(acks))[k] == (before + AckBytes(front))[k];
    }
  }

  /** Every byte of an ack datagram: link id, type, channel, count, and the numbers one after the other. */
  lemma AcksLayout(linkId: u32, channel: nat, acks: seq<u32>)
    requires channel < NUM_CHANNELS && |acks| < 0x1000_0000
    ensures var buff := EncodeAcks(linkId, channel, acks);
            && |buff| == 10 + 4 * |acks|
            && LittleEndian(buff, 0, linkId) && buff[4] == 3 && buff[5] as nat == channel
            && LittleEndian(buff, 6, |acks|) && forall i :: 0 <= i < |acks| ==> LittleEndian(buff, 10 + 4 * i, acks[i])
  {
    var buff := EncodeAcks(linkId, channel, acks);
    var mid := [ACK, channel as Byte];
    assert buff == [] + U32Bytes(linkId) + (mid + U32Bytes(|acks|) + AckBytes(acks));
    U32Layout(linkId, [], mid + U32Bytes(|acks|) + AckBytes(acks));
    assert buff == (U32Bytes(linkId) + mid) + U32Bytes(|acks|) + AckBytes(acks);
    U32Layout(|acks|, U32Bytes(linkId) + mid, AckBytes(acks));
    var head := U32Bytes(linkId) + mid + U32Bytes(|acks|);
    assert |head| == 10;
    hide U32Bytes, LittleEndian, AckBytes;
    forall i | 0 <= i < |acks| ensures LittleEndian(buff, 10 + 4 * i, acks[i]) {
      AckBytesLayout(head, acks, i);
    }
  }

  lemma {:induction false} AckBytesOf(bs: seq<Byte>, acks: seq<u32>)
    requires |bs| == 4 * |acks| && forall i :: 0 <= i < |acks| ==> ReadU32(bs, 4 * i) == acks[i]
    ensures AckBytes(acks) == bs
  {
    hide ReadU32, U32Bytes;
    if acks != [] {
      var n := |acks| - 1;
      forall i | 0 <= i < n ensures ReadU32(bs[..4 * n], 4 * i) == acks[i] {
        ReadFront(bs, 4 * n, 4 * i);
      }
      AckBytesOf(bs[..4 * n], acks[..n]);
      U32Unique(bs, 4 * n);
      assert bs == bs[..4 * n] + bs[4 * n..4 * n + 4];
    }
  }

  lemma ReadFront(bs: seq<Byte>, n: nat, at: nat)
    requires at + 4 <= n <= |bs|
    ensures ReadU32(bs[..n], at) == ReadU32(bs, at)
  {
  }

  lemma ReadBehind(bs: seq<Byte>, n: nat, at: nat)
    requires n + at + 4 <= |bs|
    ensures ReadU32(bs[n..], at) == ReadU32(bs, n + at)
  {
  }

  /** Any ack datagram that is taken is the encoding of what is read from it. */
  lemma AcksUnique(buff: seq<Byte>)
    requires AcksWellFormed(buff) && buff[4] == ACK && ReadU32(buff, 6) < 0x1000_0000
    ensures EncodeAcks(ReadU32(buff, 0), buff[5] as nat, DecodeAcks(buff)) == buff
  {
    var acks, rest := DecodeAcks(buff), buff[10..];
    U32Unique(buff, 0);
    U32Unique(buff, 6);
    hide U32Bytes, ReadU32, AckBytes;
    forall i | 0 <= i < |acks| ensures ReadU32(rest, 4 * i) == acks[i] {
      ReadBehind(buff, 10, 4 * i);
    }
    AckBytesOf(rest, acks);
    assert buff == buff[0..4] + [buff[4], buff[5]] + buff[6..10] + buff[10..];
  }
}
