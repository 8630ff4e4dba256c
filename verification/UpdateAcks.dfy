/** Acks of group updates: what the number in them is taken for, and which groups they let go of. */
module UpdateAcks {
  import opened Seq32
  import opened Packets
  import opened Wire
  import opened GroupUpdate
  import GroupReader

  const ACK_NEWEST: Byte := 4
  const MIN_ACK: nat := 5

  /** Link id, type, number of the last update taken, and a byte that is never set. */
  function EncodeUpdateAck(linkId: u32, seqNo: u32, spare: Byte): seq<Byte> {
    U32Bytes(linkId) + [ACK_NEWEST] + U32Bytes(seqNo) + [spare]
  }

  /** The groups waiting to be sent, and the number after the last ack taken. */
  datatype Queue = Queue(groups: seq<Group>, seen: u32)

  /** Every item of the group counts as acked up to n. */
  function Acked(g: Group, n: u32): Group {
    g.(items := seq(|g.items|, i requires 0 <= i < |g.items| => g.items[i].(remoteRev := n)))
  }

  /** A group stays as long as some item of it is not newer than the ack. */
  predicate Stays(g: Group, n: u32) {
    exists i :: 0 <= i < |g.items| && IsSequenceNewer(n, g.items[i].localRev)
  }

  function Staying(gs: seq<Group>, n: u32): seq<Group> {
    if gs == [] then []
    else Staying(gs[..|gs| - 1], n) + if Stays(gs[|gs| - 1], n) then [Acked(gs[|gs| - 1], n)] else []
  }

  /** An ack that is not newer than the last one is ignored. */
  function AfterAck(q: Queue, n: u32): Queue {
    if IsSequenceNewer(n, q.seen) then Queue(Staying(q.groups, n), Fwd(n, 1)) else q
  }

  /** A variable handed to the link goes into its group, or begins a new one; groups are kept in the
      order of their ids. */
  function AddTo(gs: seq<Group>, rev: u32, id: u32, bit: nat, data: seq<Byte>): seq<Group>
    requires bit < MAX_ITEMS
  {
    if gs == [] || id < gs[0].id then [NewGroup(id, rev, bit, data)] + gs
    else if id == gs[0].id then (if bit < |gs[0].items| then [SetItem(gs[0], rev, bit, data)] + gs[1..] else gs)
    else [gs[0]] + AddTo(gs[1..], rev, id, bit, data)
  }

  class UpdateQueue {
    var sendQueue: seq<Group>
    var sendSeq: u32
    var recvSeqAck: u32

    function View(): Queue
      reads this
    {
      Queue(sendQueue, recvSeqAck)
    }

    constructor ()
      ensures View() == Queue([], 0) && sendSeq == 0
    {
      sendQueue, sendSeq, recvSeqAck := [], 0, 0;
    }

    /** Files a variable under the revision it will go out with, unless the link is blocked. A bit out
        of range is a critical error. */
    method AddReliableNewest(blocked: bool, id: u32, bit: nat, data: seq<Byte>) returns (critical: bool)
      requires forall g :: g in sendQueue ==> |g.items| == MAX_ITEMS
      modifies this`sendQueue
      ensures critical <==> !blocked && bit >= MAX_ITEMS
      ensures sendQueue == if blocked || critical then old(sendQueue) else AddTo(old(sendQueue), sendSeq, id, bit, data)
      ensures forall g :: g in sendQueue ==> |g.items| == MAX_ITEMS
    {
      if blocked {
        return false;
      }
      if bit >= MAX_ITEMS {
        return true;
      }
      critical := false;
      ghost var was := sendQueue;
      var i := 0;
      assert was[0..] == was;
      while i < |sendQueue| && sendQueue[i].id < id
        invariant 0 <= i <= |was| && sendQueue == was
        invariant AddTo(was, sendSeq, id, bit, data) == was[..i] + AddTo(was[i..], sendSeq, id, bit, data)
      {
        AddFurther(was, sendSeq, id, bit, data, i);
        i := i + 1;
      }
      hide NewGroup, SetItem;
      AddHere(was, sendSeq, id, bit, data, i);
      if i < |sendQueue| && sendQueue[i].id == id {
        assert sendQueue[i] in was;
        sendQueue := sendQueue[i := SetItem(sendQueue[i], sendSeq, bit, data)];
      } else {
        sendQueue := sendQueue[..i] + [NewGroup(id, sendSeq, bit, data)] + sendQueue[i..];
      }
      AllFull(was, sendSeq, id, bit, data);
    }

    /** Takes the first four bytes of the datagram for the acked number, marks every item with it,
        and erases groups on the way through the queue. */
    method ReceiveAckRelNewest(buff: seq<Byte>)
      modifies this`sendQueue, this`recvSeqAck
      ensures View() == if |buff| < MIN_ACK then old(View()) else AfterAck(old(View()), ReadU32(buff, 0))
    {
      hide IsSequenceNewer, ReadU32;
      if |buff| < MIN_ACK {
        return;
      }
      var ackSeq := ReadU32(buff, 0);
      if !IsSequenceNewer(ackSeq, recvSeqAck) {
        return;
      }
      recvSeqAck := Fwd(ackSeq, 1);
      ghost var was, k := sendQueue, 0;
      var i := 0;
      assert was[..0] == [] && was[0..] == was;
      while i < |sendQueue|
        invariant Walking(was, sendQueue, ackSeq, i, k)
        invariant recvSeqAck == Fwd(ackSeq, 1)
        decreases |was| - k
      {
        WalkNext(was, sendQueue, ackSeq, i, k);
        var group := sendQueue[i];
        var items := AckItems(group, ackSeq);
        var removeGroup := true;
        for j := 0 to |items|
          invariant removeGroup <==> forall l :: 0 <= l < j ==> !IsSequenceNewer(ackSeq, group.items[l].localRev)
        {
          if IsSequenceNewer(ackSeq, items[j].localRev) {
            removeGroup := false;
          }
        }
        assert removeGroup <==> !Stays(group, ackSeq);
        if removeGroup {
          sendQueue := sendQueue[..i] + sendQueue[i + 1..];
        } else {
          sendQueue := sendQueue[i := group.(items := items)];
          i := i + 1;
        }
        k := k + 1;
      }
      WalkEnds(was, sendQueue, ackSeq, i, k);
    }
  }

  lemma AddFurther(gs: seq<Group>, rev: u32, id: u32, bit: nat, data: seq<Byte>, i: nat)
    requires bit < MAX_ITEMS && i < |gs| && gs[i].id < id
    requires AddTo(gs, rev, id, bit, data) == gs[..i] + AddTo(gs[i..], rev, id, bit, data)
    ensures AddTo(gs, rev, id, bit, data) == gs[..i + 1] + AddTo(gs[i + 1..], rev, id, bit, data)
  {
    assert gs[i..][1..] == gs[i + 1..];
    assert AddTo(gs[i..], rev, id, bit, data) == [gs[i]] + AddTo(gs[i + 1..], rev, id, bit, data);
    assert gs[..i + 1] == gs[..i] + [gs[i]];
  }

  lemma AddHere(gs: seq<Group>, rev: u32, id: u32, bit: nat, data: seq<Byte>, i: nat)
    requires bit < MAX_ITEMS && i <= |gs| && (i < |gs| ==> gs[i].id >= id && bit < |gs[i].items|)
    requires AddTo(gs, rev, id, bit, data) == gs[..i] + AddTo(gs[i..], rev, id, bit, data)
    ensures AddTo(gs, rev, id, bit, data) ==
            if i < |gs| && gs[i].id == id then gs[i := SetItem(gs[i], rev, bit, data)]
            else gs[..i] + [NewGroup(id, rev, bit, data)] + gs[i..]
  {
    hide NewGroup, SetItem;
    if i < |gs| && gs[i].id == id {
      assert gs[i..][1..] == gs[i + 1..];
      assert gs[i := SetItem(gs[i], rev, bit, data)] == gs[..i] + ([SetItem(gs[i], rev, bit, data)] + gs[i + 1..]);
    }
  }

  lemma {:induction false} AllFull(gs: seq<Group>, rev: u32, id: u32, bit: nat, data: seq<Byte>)
    requires bit < MAX_ITEMS && forall g :: g in gs ==> |g.items| == MAX_ITEMS
    ensures forall g :: g in AddTo(gs, rev, id, bit, data) ==> |g.items| == MAX_ITEMS
  {
    if gs != [] && gs[0].id < id {
      AllFull(gs[1..], rev, id, bit, data);
    }
  }

  method AckItems(g: Group, n: u32) returns (items: seq<Item>)
    ensures items == Acked(g, n).items
  {
    items := g.items;
    for i := 0 to |items|
      invariant |items| == |g.items|
      invariant forall k :: 0 <= k < |items| ==> items[k] == if k < i then g.items[k].(remoteRev := n) else g.items[k]
    {
      items := items[i := items[i].(remoteRev := n)];
    }
  }

  /** Where the walk stands: `k` groups looked at, those that stay now before `i`. */
  ghost predicate Walking(was: seq<Group>, now: seq<Group>, n: u32, i: nat, k: nat) {
    && i <= |now| && k <= |was| && now[..i] == Staying(was[..k], n) && now[i..] == was[k..]
  }

  lemma WalkNext(was: seq<Group>, now: seq<Group>, n: u32, i: nat, k: nat)
    requires Walking(was, now, n, i, k) && i < |now|
    ensures k < |was| && now[i] == was[k]
    ensures !Stays(now[i], n) ==> Walking(was, now[..i] + now[i + 1..], n, i, k + 1)
    ensures Stays(now[i], n) ==> Walking(was, now[i := Acked(now[i], n)], n, i + 1, k + 1)
  {
    assert now[i..][0] == was[k..][0];
    assert now[i..][1..] == now[i + 1..] && was[k..][1..] == was[k + 1..];
    assert was[..k + 1][..k] == was[..k];
    hide Stays, Acked;
    var gone, kept := now[..i] + now[i + 1..], now[i := Acked(now[i], n)];
    assert gone[..i] == now[..i] && gone[i..] == now[i + 1..];
    assert kept[..i + 1] == now[..i] + [Acked(now[i], n)] && kept[i + 1..] == now[i + 1..];
  }

  lemma WalkEnds(was: seq<Group>, now: seq<Group>, n: u32, i: nat, k: nat)
    requires Walking(was, now, n, i, k) && i == |now|
    ensures now == Staying(was, n)
  {
    assert now[..i] == now && was[..k] == was;
  }

  // ---- what that means

  /** Whatever number a peer acks, what is taken from its datagram is the id of the link. */
  lemma LinkIdIsTaken(linkId: u32, seqNo: u32, spare: Byte)
    ensures var buff := EncodeUpdateAck(linkId, seqNo, spare);
            |buff| >= MIN_ACK && ReadU32(buff, 0) == linkId
  {
    var rest := [ACK_NEWEST] + U32Bytes(seqNo) + [spare];
    assert EncodeUpdateAck(linkId, seqNo, spare) == [] + U32Bytes(linkId) + rest;
    U32RoundTrip(linkId, [], rest);
  }

  /** The queue after acks of these numbers have come in over the link. */
  function AfterAcks(q: Queue, linkId: u32, numbers: seq<u32>): Queue {
    if numbers == [] then q
    else
      var buff := EncodeUpdateAck(linkId, numbers[|numbers| - 1], 0);
      AfterAck(AfterAcks(q, linkId, numbers[..|numbers| - 1]), ReadU32(buff, 0))
  }

  lemma OncePerLink(q: Queue, linkId: u32)
    ensures AfterAck(AfterAck(q, linkId), linkId) == AfterAck(q, linkId)
  {
    hide Staying;
    assert !IsSequenceNewer(linkId, Fwd(linkId, 1));
  }

  /** So only the first ack on a link does anything, whatever the numbers. */
  lemma {:induction false} OnlyFirstCounts(q: Queue, linkId: u32, numbers: seq<u32>)
    requires numbers != []
    ensures AfterAcks(q, linkId, numbers) == AfterAck(q, linkId)
  {
    var front := numbers[..|numbers| - 1];
    LinkIdIsTaken(linkId, numbers[|numbers| - 1], 0);
    hide AfterAck, EncodeUpdateAck, ReadU32;
    if front == [] {
      assert AfterAcks(q, linkId, front) == q;
    } else {
      OnlyFirstCounts(q, linkId, front);
      OncePerLink(q, linkId);
    }
  }

  predicate Holds(q: Queue, id: u32) {
    exists i :: 0 <= i < |q.groups| && q.groups[i].id == id
  }

  ghost predicate Distinct(gs: seq<Group>) {
    forall i, j :: 0 <= i < j < |gs| ==> gs[i].id != gs[j].id
  }

  lemma {:induction false} StayingAre(gs: seq<Group>, n: u32, id: u32)
    ensures (exists i :: 0 <= i < |Staying(gs, n)| && Staying(gs, n)[i].id == id) <==>
            exists i :: 0 <= i < |gs| && gs[i].id == id && Stays(gs[i], n)
  {
    hide Stays, Acked;
    if gs != [] {
      var front, last := gs[..|gs| - 1], gs[|gs| - 1];
      StayingAre(front, n, id);
      AckedId(last, n);
      var rest := Staying(front, n);
      var all := Staying(gs, n);
      assert all == rest + if Stays(last, n) then [Acked(last, n)] else [];
      if i :| 0 <= i < |gs| && gs[i].id == id && Stays(gs[i], n) {
        if i < |front| {
          assert front[i] == gs[i];
          var k :| 0 <= k < |rest| && rest[k].id == id;
          assert all[k].id == id;
        } else {
          assert all[|rest|].id == id;
        }
      }
      if k :| 0 <= k < |all| && all[k].id == id {
        if k < |rest| {
          assert rest[k].id == id;
          var i :| 0 <= i < |front| && front[i].id == id && Stays(front[i], n);
          assert gs[i].id == id && Stays(gs[i], n);
        } else {
          assert gs[|front|].id == id && Stays(gs[|front|], n);
        }
      }
    }
  }

  lemma AckedId(g: Group, n: u32)
    ensures Acked(g, n).id == g.id
  {
  }

  /** An update is meant to stay until it was acked. Which numbers are acked does not matter at all,
      though: a waiting group outlives any acks exactly when the id of the link is not new to the
      queue, or not newer than all items of the group. */
  lemma OutlivesAcksExactlyWhen(q: Queue, linkId: u32, numbers: seq<u32>, i: nat)
    requires numbers != [] && i < |q.groups| && Distinct(q.groups)
    ensures Holds(AfterAcks(q, linkId, numbers), q.groups[i].id) <==>
            !IsSequenceNewer(linkId, q.seen) || Stays(q.groups[i], linkId)
  {
    OnlyFirstCounts(q, linkId, numbers);
    StayingAre(q.groups, linkId, q.groups[i].id);
    hide IsSequenceNewer, Stays, Staying, AfterAcks;
    assert q.groups[i].id == q.groups[i].id;
    forall j | 0 <= j < |q.groups| && q.groups[j].id == q.groups[i].id ensures j == i {
    }
  }

  // ---- a run

  /** The sending side of updates on a link: what waits, and the revision the next datagram has. */
  datatype Sending = Sending(queue: Queue, sendSeq: u32)

  datatype Event =
    | Add(id: u32, bit: nat, data: seq<Byte>)
    | Dispatch
    | Ack(number: u32)

  ghost function Step(linkId: u32, s: Sending, ev: Event): Sending {
    match ev
    case Add(id, bit, data) =>
      if bit >= MAX_ITEMS then s
      else s.(queue := s.queue.(groups := AddTo(s.queue.groups, s.sendSeq, id, bit, data)))
    case Dispatch =>
      var f := FrameOf(s.queue.groups, OFF_GROUPS);
      if f.Frame? && f.groups != [] then s.(sendSeq := Fwd(s.sendSeq, 1)) else s
    case Ack(number) => s.(queue := AfterAck(s.queue, ReadU32(EncodeUpdateAck(linkId, number, 0), 0)))
  }

  ghost function Run(linkId: u32, evs: seq<Event>): Sending {
    if evs == [] then Sending(Queue([], 0), 0) else Step(linkId, Run(linkId, evs[..|evs| - 1]), evs[|evs| - 1])
  }

  function Dispatches(n: nat): seq<Event> {
    if n == 0 then [] else Dispatches(n - 1) + [Dispatch]
  }

  lemma RunSnoc(linkId: u32, evs: seq<Event>, ev: Event)
    ensures Run(linkId, evs + [ev]) == Step(linkId, Run(linkId, evs), ev)
  {
    assert (evs + [ev])[..|evs|] == evs;
  }

  /** A fresh group counts as changed until it is acked, so every dispatch sends it. */
  lemma FreshIsSent(id: u32, rev: u32, data: seq<Byte>)
    requires |data| <= BUFF_SIZE - OFF_GROUPS - GROUP_HEADER
    ensures FrameOf([NewGroup(id, rev, 0, data)], OFF_GROUPS) == Frame([NewGroup(id, rev, 0, data)])
  {
    var g := NewGroup(id, rev, 0, data);
    GroupReader.FreshData(id, rev, data);
    NewerDecides(rev, rev);
    hide IsSequenceNewer, BitsValue, DataOf;
    assert Marked(g.items[0]);
    assert FrameOf([g][1..], OFF_GROUPS + GROUP_HEADER + |data|) == Frame([]);
  }

  lemma {:induction false} KeepsSending(linkId: u32, evs: seq<Event>, data: seq<Byte>, n: nat)
    requires |data| <= BUFF_SIZE - OFF_GROUPS - GROUP_HEADER && n < 0x1_0000_0000
    requires Run(linkId, evs) == Sending(Queue([NewGroup(0, 0, 0, data)], 0), 0)
    ensures Run(linkId, evs + Dispatches(n)) == Sending(Queue([NewGroup(0, 0, 0, data)], 0), n)
  {
    if n == 0 {
      assert evs + [] == evs;
    } else {
      KeepsSending(linkId, evs, data, n - 1);
      FreshIsSent(0, 0, data);
      WrapSmall(n);
      assert evs + Dispatches(n) == evs + Dispatches(n - 1) + [Dispatch];
      RunSnoc(linkId, evs + Dispatches(n - 1), Dispatch);
      hide Run, FrameOf, NewGroup;
    }
  }

  /** One group is sent as often as the link's id says and once more, then a second group is set. */
  function SetAfterwards(linkId: u32, first: seq<Byte>, id: u32, data: seq<Byte>): seq<Event> {
    [Add(0, 0, first)] + Dispatches(linkId + 1) + [Add(id, 0, data)]
  }

  lemma BothWait(linkId: u32, first: seq<Byte>, id: u32, data: seq<Byte>)
    requires linkId < 0x7FFF_FFFF && |first| <= BUFF_SIZE - OFF_GROUPS - GROUP_HEADER && id > 0
    ensures Run(linkId, SetAfterwards(linkId, first, id, data))
            == Sending(Queue([NewGroup(0, 0, 0, first), NewGroup(id, linkId + 1, 0, data)], 0), linkId + 1)
  {
    var none, a, b := [], NewGroup(0, 0, 0, first), NewGroup(id, linkId + 1, 0, data);
    var e1 := none + [Add(0, 0, first)];
    RunSnoc(linkId, none, Add(0, 0, first));
    assert Run(linkId, none) == Sending(Queue([], 0), 0) && e1 == [Add(0, 0, first)];
    assert AddTo([], 0, 0, 0, first) == [a] + [] == [a];
    assert a.id == 0 && [a][1..] == [] && AddTo([], linkId + 1, id, 0, data) == [b] + [] == [b];
    assert AddTo([a], linkId + 1, id, 0, data) == [a] + [b];
    hide Run, NewGroup, AddTo;
    KeepsSending(linkId, e1, first, linkId + 1);
    RunSnoc(linkId, e1 + Dispatches(linkId + 1), Add(id, 0, data));
  }

  /** The first ack on the link, whatever it acks, makes the sender forget a group that it has not sent
      once: the one set after the number of the link's id. */
  lemma NewestIsForgotten(linkId: u32, first: seq<Byte>, id: u32, data: seq<Byte>, acked: u32)
    requires linkId < 0x7FFF_FFFF && |first| <= BUFF_SIZE - OFF_GROUPS - GROUP_HEADER && id > 0
    ensures var evs := SetAfterwards(linkId, first, id, data);
            && Holds(Run(linkId, evs).queue, id)
            && !Holds(Run(linkId, evs + [Ack(acked)]).queue, id)
  {
    var evs := SetAfterwards(linkId, first, id, data);
    var a, b := NewGroup(0, 0, 0, first), NewGroup(id, linkId + 1, 0, data);
    BothWait(linkId, first, id, data);
    RunSnoc(linkId, evs, Ack(acked));
    LinkIdIsTaken(linkId, acked, 0);
    hide Run, SetAfterwards, EncodeUpdateAck, ReadU32;
    assert Run(linkId, evs).queue.groups[1].id == id;
    NotYet(linkId);
    hide IsSequenceNewer;
    assert !Stays(b, linkId) by {
      forall i | 0 <= i < |b.items| ensures !IsSequenceNewer(linkId, b.items[i].localRev) {
      }
    }
    OnlyFirstStays(a, b, linkId);
  }

  lemma OnlyFirstStays(a: Group, b: Group, n: u32)
    requires a.id != b.id && !Stays(b, n)
    ensures forall g :: g in Staying([a, b], n) ==> g.id == a.id
  {
    AckedId(a, n);
    hide Stays, Acked;
    assert [a, b][..1] == [a] && [a][..0] == [];
    assert Staying([a], n) == [] + if Stays(a, n) then [Acked(a, n)] else [];
    assert Staying([a, b], n) == Staying([a], n) + [];
  }

  lemma NotYet(n: u32)
    requires n < 0x7FFF_FFFF
    ensures IsSequenceNewer(n, 0) && !IsSequenceNewer(n, n + 1)
  {
  }
}
