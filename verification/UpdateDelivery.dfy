/** How a variable that was set gets to the other side: filed under its group, sent until it is acked,
    and never overwritten there by anything older. */
module UpdateDelivery {
  import opened Seq32
  import opened Packets
  import opened Wire
  import opened GroupUpdate
  import opened UpdateAcks
  import GroupReader
  import Link

  // ---- setting a variable

  /** The queue stands in the order of the ids, each once, sixteen items to a group. */
  ghost predicate Filed(gs: seq<Group>) {
    && (forall i, j :: 0 <= i < j < |gs| ==> gs[i].id < gs[j].id)
    && (forall g :: g in gs ==> |g.items| == 16)
  }

  /** The group g holds the variable as it was set; its other items are as they were in `was`, or empty and
      as new as the group. */
  ghost predicate HoldsSet(g: Group, was: Option<Group>, rev: u32, bit: nat, data: seq<Byte>)
    requires bit < 16
  {
    && |g.items| == 16 && g.items[bit].localRev == rev && g.items[bit].data == data
    && match was
       case None =>
         && g.items[bit].remoteRev == rev
         && forall i :: 0 <= i < 16 && i != bit ==> g.items[i] == Item(rev, rev, [])
       case Some(w) =>
         && |w.items| == 16 && g.items[bit].remoteRev == w.items[bit].remoteRev
         && forall i :: 0 <= i < 16 && i != bit ==> g.items[i] == w.items[i]
  }

  ghost function GroupOf(gs: seq<Group>, id: u32): (found: Option<Group>)
    ensures found.Some? ==> found.value in gs && found.value.id == id
    ensures found.None? ==> forall g :: g in gs ==> g.id != id
  {
    if gs == [] then None else if gs[0].id == id then Some(gs[0]) else GroupOf(gs[1..], id)
  }

  lemma FiledRest(gs: seq<Group>)
    requires Filed(gs) && gs != []
    ensures Filed(gs[1..]) && forall g :: g in gs[1..] ==> gs[0].id < g.id
  {
    forall g | g in gs[1..] ensures gs[0].id < g.id {
      var i :| 0 <= i < |gs[1..]| && gs[1..][i] == g;
      assert gs[i + 1] == g;
    }
  }

  lemma FiledCons(g: Group, gs: seq<Group>)
    requires Filed(gs) && |g.items| == 16 && forall h :: h in gs ==> g.id < h.id
    ensures Filed([g] + gs)
  {
    var all := [g] + gs;
    forall i, j | 0 <= i < j < |all| ensures all[i].id < all[j].id {
      assert all[j] == gs[j - 1] && all[j] in gs;
    }
  }

  lemma GroupOfCons(g: Group, gs: seq<Group>, id: u32)
    ensures GroupOf([g] + gs, id) == if g.id == id then Some(g) else GroupOf(gs, id)
  {
    assert ([g] + gs)[1..] == gs;
  }

  lemma NewHolds(id: u32, rev: u32, bit: nat, data: seq<Byte>)
    requires bit < 16
    ensures NewGroup(id, rev, bit, data).id == id && HoldsSet(NewGroup(id, rev, bit, data), None, rev, bit, data)
  {
  }

  lemma SetHolds(g: Group, rev: u32, bit: nat, data: seq<Byte>)
    requires bit < 16 == |g.items|
    ensures SetItem(g, rev, bit, data).id == g.id && HoldsSet(SetItem(g, rev, bit, data), Some(g), rev, bit, data)
  {
  }

  lemma SmallerIsNone(gs: seq<Group>, id: u32)
    requires Filed(gs) && (gs != [] ==> id < gs[0].id)
    ensures GroupOf(gs, id) == None && forall g :: g in gs ==> id < g.id
  {
    if gs != [] {
      FiledRest(gs);
      assert forall g :: g in gs ==> g == gs[0] || g in gs[1..];
    }
  }

  /** The variable stands in its group, and all other variables and groups are as they were. */
  ghost predicate IsSet(gs: seq<Group>, now: seq<Group>, rev: u32, id: u32, bit: nat, data: seq<Byte>)
    requires bit < 16
  {
    && Filed(now)
    && GroupOf(now, id).Some? && HoldsSet(GroupOf(now, id).value, GroupOf(gs, id), rev, bit, data)
    && (forall other: u32 :: other != id ==> GroupOf(now, other) == GroupOf(gs, other))
    && (forall g :: g in now ==> g.id == id || g in gs)
  }

  lemma SetAtHead(g: Group, gs: seq<Group>, was: seq<Group>, rev: u32, bit: nat, data: seq<Byte>)
    requires bit < 16 && Filed([g] + gs) && (was == gs || (was != [] && was[1..] == gs && was[0].id == g.id))
    requires HoldsSet(g, GroupOf(was, g.id), rev, bit, data)
    ensures IsSet(was, [g] + gs, rev, g.id, bit, data)
  {
    hide HoldsSet, Filed;
    forall other: u32 ensures GroupOf([g] + gs, other) == if g.id == other then Some(g) else GroupOf(gs, other) {
      GroupOfCons(g, gs, other);
    }
  }

  lemma SetBehind(g: Group, gs: seq<Group>, now: seq<Group>, rev: u32, id: u32, bit: nat, data: seq<Byte>)
    requires bit < 16 && g.id != id && IsSet(gs, now, rev, id, bit, data) && Filed([g] + now)
    ensures IsSet([g] + gs, [g] + now, rev, id, bit, data)
  {
    hide HoldsSet, Filed;
    forall other: u32
      ensures GroupOf([g] + gs, other) == if g.id == other then Some(g) else GroupOf(gs, other)
      ensures GroupOf([g] + now, other) == if g.id == other then Some(g) else GroupOf(now, other)
    {
      GroupOfCons(g, gs, other);
      GroupOfCons(g, now, other);
    }
    hide GroupOf;
  }

  /** Setting a variable files it in its group, under the revision it will go out with, and leaves all other
      variables and groups as they were. */
  lemma {:induction false} SetIsFiled(gs: seq<Group>, rev: u32, id: u32, bit: nat, data: seq<Byte>)
    requires Filed(gs) && bit < 16
    ensures IsSet(gs, AddTo(gs, rev, id, bit, data), rev, id, bit, data)
  {
    NewHolds(id, rev, bit, data);
    assert gs != [] ==> gs[0] in gs && |gs[0].items| == 16;
    hide *;
    AddToIs(gs, rev, id, bit, data);
    if gs == [] || id < gs[0].id {
      SmallerIsNone(gs, id);
      NewIsFull(id, rev, bit, data);
      FiledCons(NewGroup(id, rev, bit, data), gs);
      SetAtHead(NewGroup(id, rev, bit, data), gs, gs, rev, bit, data);
    } else {
      FiledRest(gs);
      if id == gs[0].id {
        SetHolds(gs[0], rev, bit, data);
        SetIsFull(gs[0], rev, bit, data);
        HeadIs(gs);
        FiledCons(SetItem(gs[0], rev, bit, data), gs[1..]);
        SetAtHead(SetItem(gs[0], rev, bit, data), gs[1..], gs, rev, bit, data);
      } else {
        var now := AddTo(gs[1..], rev, id, bit, data);
        SetIsFiled(gs[1..], rev, id, bit, data);
        StillBehind(gs, now, rev, id, bit, data);
        SetBehind(gs[0], gs[1..], now, rev, id, bit, data);
        assert [gs[0]] + gs[1..] == gs;
      }
    }
  }

  lemma HeadIs(gs: seq<Group>)
    requires gs != []
    ensures GroupOf(gs, gs[0].id) == Some(gs[0])
  {
  }

  lemma NewIsFull(id: u32, rev: u32, bit: nat, data: seq<Byte>)
    requires bit < 16
    ensures |NewGroup(id, rev, bit, data).items| == 16
  {
  }

  lemma AddToIs(gs: seq<Group>, rev: u32, id: u32, bit: nat, data: seq<Byte>)
    requires bit < 16 && (gs != [] ==> |gs[0].items| == 16)
    ensures AddTo(gs, rev, id, bit, data) ==
            if gs == [] || id < gs[0].id then [NewGroup(id, rev, bit, data)] + gs
            else if id == gs[0].id then [SetItem(gs[0], rev, bit, data)] + gs[1..]
            else [gs[0]] + AddTo(gs[1..], rev, id, bit, data)
  {
  }

  lemma StillBehind(gs: seq<Group>, now: seq<Group>, rev: u32, id: u32, bit: nat, data: seq<Byte>)
    requires gs != [] && bit < 16 && gs[0].id < id && |gs[0].items| == 16
    requires (forall g :: g in gs[1..] ==> gs[0].id < g.id) && IsSet(gs[1..], now, rev, id, bit, data)
    ensures Filed([gs[0]] + now)
  {
    hide HoldsSet, GroupOf;
    FiledCons(gs[0], now);
  }

  lemma SetIsFull(g: Group, rev: u32, bit: nat, data: seq<Byte>)
    requires bit < 16 == |g.items|
    ensures |SetItem(g, rev, bit, data).items| == 16
  {
  }

  // ---- acks

  /** An ack of number n leaves the groups of which some item was set at n or before; each of their items
      then goes out exactly if it was set at n or after. Before and after are modulo 2^32. */
  lemma {:induction false} AckLeaves(gs: seq<Group>, n: u32, g: Group)
    ensures (g in gs && exists i :: 0 <= i < |g.items| && (n - g.items[i].localRev) % 0x1_0000_0000 < 0x8000_0000)
            ==> Acked(g, n) in Staying(gs, n)
    ensures g in Staying(gs, n) ==>
              exists was :: was in gs && g == Acked(was, n)
                            && exists i :: 0 <= i < |was.items|
                                 && (n - was.items[i].localRev) % 0x1_0000_0000 < 0x8000_0000
  {
    if gs != [] {
      var front, last := gs[..|gs| - 1], gs[|gs| - 1];
      AckLeaves(front, n, g);
      StaysMeans(last, n);
      StaysMeans(g, n);
      hide Acked, Stays;
    }
  }

  lemma StaysMeans(g: Group, n: u32)
    ensures Stays(g, n) <==> exists i :: 0 <= i < |g.items| && (n - g.items[i].localRev) % 0x1_0000_0000 < 0x8000_0000
  {
    forall i | 0 <= i < |g.items|
      ensures IsSequenceNewer(n, g.items[i].localRev) <==> (n - g.items[i].localRev) % 0x1_0000_0000 < 0x8000_0000
    {
    }
    hide IsSequenceNewer;
  }

  /** After an ack of n, an item goes out exactly if it was set at n or after: what was set before and not
      since is left out. */
  lemma AckedGoesOutExactlyWhen(g: Group, n: u32, i: nat)
    requires i < |g.items|
    ensures |Acked(g, n).items| == |g.items| && Acked(g, n).items[i].data == g.items[i].data
    ensures TestBit(BitsValue(Marks(Acked(g, n).items)), i)
            <==> (g.items[i].localRev - n) % 0x1_0000_0000 < 0x8000_0000
  {
    AckedItem(g, n, i);
    hide *;
    GoesOutExactlyWhen(Acked(g, n).items, i);
  }

  lemma AckedItem(g: Group, n: u32, i: nat)
    requires i < |g.items|
    ensures |Acked(g, n).items| == |g.items| && Acked(g, n).items[i] == Item(g.items[i].localRev, n, g.items[i].data)
  {
  }

  // ---- taking updates

  /** Whatever is sent out of a queue whose marked items match the receiver's variables is taken by its link
      exactly when its number is at most 2^31 - 1 past the one expected next, touches no channel, and
      is then read to its last byte. */
  lemma SentIsTakenExactlyWhen(linkId: u32, seqNo: u32, groups: seq<Group>, store: GroupReader.Store, next: u32,
                               v: seq<Link.Chan>)
    requires |v| == NUM_CHANNELS && GroupReader.DistinctIds(groups) && GroupReader.AllAgree(store, groups)
    requires forall g :: g in groups ==> |g.items| <= MAX_ITEMS
    requires FrameOf(groups, OFF_GROUPS).Frame? && FrameOf(groups, OFF_GROUPS).groups != []
    ensures var gs := FrameOf(groups, OFF_GROUPS).groups;
            && |gs| < 0x1_0000_0000
            && var w := UpdateBytes(linkId, seqNo, gs);
               && (Link.IsUpdate(w, next) <==> (seqNo - next) % 0x1_0000_0000 < 0x8000_0000)
               && Link.Received(v, w) == v && ReadU32(w, 5) == seqNo
               && var r := GroupReader.RecvUpdate(store, w[9..]);
                  r.outcome == GroupReader.Clean && GroupReader.TookOver(store, gs, r.store)
  {
    GroupReader.SentAreFit(groups, store);
    hide *;
    var gs := FrameOf(groups, OFF_GROUPS).groups;
    GroupReader.UpdateRoundTrip(linkId, seqNo, gs, store);
    TakenByLink(UpdateBytes(linkId, seqNo, gs), seqNo, next, v);
  }

  lemma TakenByLink(w: seq<Byte>, seqNo: u32, next: u32, v: seq<Link.Chan>)
    requires |v| == NUM_CHANNELS && |w| >= 16 && w[4] == RELIABLE_NEWEST && ReadU32(w, 5) == seqNo
    ensures Link.IsUpdate(w, next) <==> (seqNo - next) % 0x1_0000_0000 < 0x8000_0000
    ensures Link.Received(v, w) == v
  {
    hide ReadU32;
  }

  /** What a link keeps of updates: the number it expects next, and the bodies taken. */
  datatype Taken = Taken(next: u32, bodies: seq<seq<Byte>>)

  function Take(t: Taken, w: seq<Byte>): Taken {
    if Link.IsUpdate(w, t.next) then Taken(Fwd(ReadU32(w, 5), 1), t.bodies + [w[9..]]) else t
  }

  /** An update that comes in: its true number, and the groups it carries. */
  datatype Arrival = Arrival(n: nat, groups: seq<Group>)

  ghost predicate Sound(a: Arrival) {
    a.groups != [] && |a.groups| < 0x1_0000_0000 && Sendable(a.groups)
  }

  function Written(linkId: u32, a: Arrival): seq<Byte> {
    if |a.groups| < 0x1_0000_0000 then UpdateBytes(linkId, Wrap(a.n), a.groups) else []
  }

  function TakeAll(linkId: u32, ins: seq<Arrival>): Taken {
    if ins == [] then Taken(0, [])
    else Take(TakeAll(linkId, ins[..|ins| - 1]), Written(linkId, ins[|ins| - 1]))
  }

  /** The number after the highest that came in. */
  function Expected(ins: seq<Arrival>): nat {
    if ins == [] then 0
    else
      var m, n := Expected(ins[..|ins| - 1]), ins[|ins| - 1].n;
      if n >= m then n + 1 else m
  }

  /** The arrivals with higher numbers than all before them. */
  function Newest(ins: seq<Arrival>): seq<Arrival> {
    if ins == [] then []
    else Newest(ins[..|ins| - 1]) + if ins[|ins| - 1].n >= Expected(ins[..|ins| - 1]) then [ins[|ins| - 1]] else []
  }

  /** No number is more than 2^31 off what is expected when it comes in. */
  ghost predicate InReach(ins: seq<Arrival>) {
    forall k :: 0 <= k < |ins| ==> -0x8000_0000 <= ins[k].n - Expected(ins[..k]) < 0x8000_0000
  }

  lemma {:induction false} ExpectedIsPast(ins: seq<Arrival>)
    ensures forall k :: 0 <= k < |ins| ==> ins[k].n < Expected(ins)
    ensures ins != [] ==> exists k :: 0 <= k < |ins| && ins[k].n == Expected(ins) - 1
  {
    if ins != [] {
      var front := ins[..|ins| - 1];
      ExpectedIsPast(front);
      assert forall k :: 0 <= k < |front| ==> ins[k] == front[k];
      assert ins[|ins| - 1].n == Expected(ins) - 1 || Expected(ins) == Expected(front);
    }
  }

  lemma {:induction false} NewestIncrease(ins: seq<Arrival>)
    ensures forall i, j :: 0 <= i < j < |Newest(ins)| ==> Newest(ins)[i].n < Newest(ins)[j].n
    ensures forall i :: 0 <= i < |Newest(ins)| ==> Newest(ins)[i].n < Expected(ins)
  {
    if ins != [] {
      NewestIncrease(ins[..|ins| - 1]);
    }
  }

  function Bodies(linkId: u32, ins: seq<Arrival>): seq<seq<Byte>> {
    if ins == [] then []
    else
      var w := Written(linkId, ins[|ins| - 1]);
      Bodies(linkId, ins[..|ins| - 1]) + [if |w| >= 9 then w[9..] else []]
  }

  lemma WrittenIsUpdate(linkId: u32, a: Arrival, m: nat)
    requires Sound(a) && -0x8000_0000 <= a.n - m < 0x8000_0000
    ensures var w := Written(linkId, a);
            |w| >= 16 && (Link.IsUpdate(w, Wrap(m)) <==> a.n >= m) && Fwd(ReadU32(w, 5), 1) == Wrap(a.n + 1)
  {
    GroupReader.UpdateHeader(linkId, Wrap(a.n), a.groups);
    NewerIsTrueOrder(a.n, m);
    WrapSteps(a.n, 1);
    assert |Body(a.groups)| >= 8;
    hide UpdateBytes, Body, Sendable, IsSequenceNewer, Wrap, ReadU32, Fwd;
  }

  lemma OneMoreBody(linkId: u32, ins: seq<Arrival>, a: Arrival)
    ensures Bodies(linkId, ins + [a])
            == Bodies(linkId, ins) + [if |Written(linkId, a)| >= 9 then Written(linkId, a)[9..] else []]
  {
    assert (ins + [a])[..|ins|] == ins;
    hide Written;
  }

  lemma StillInReach(ins: seq<Arrival>)
    requires InReach(ins) && ins != []
    ensures InReach(ins[..|ins| - 1])
    ensures -0x8000_0000 <= ins[|ins| - 1].n - Expected(ins[..|ins| - 1]) < 0x8000_0000
  {
    var front := ins[..|ins| - 1];
    forall k | 0 <= k < |front| ensures -0x8000_0000 <= front[k].n - Expected(front[..k]) < 0x8000_0000 {
      assert front[..k] == ins[..k];
    }
  }

  /** Updates are taken exactly as they come, except those that are not newer than all that came before: an
      older one never overwrites a newer one, and none is taken twice. */
  lemma {:induction false} TakenAreNewest(linkId: u32, ins: seq<Arrival>)
    requires (forall a :: a in ins ==> Sound(a)) && InReach(ins)
    ensures TakeAll(linkId, ins) == Taken(Wrap(Expected(ins)), Bodies(linkId, Newest(ins)))
    ensures forall i, j :: 0 <= i < j < |Newest(ins)| ==> Newest(ins)[i].n < Newest(ins)[j].n
  {
    NewestIncrease(ins);
    if ins != [] {
      var front, a := ins[..|ins| - 1], ins[|ins| - 1];
      assert a in ins;
      StillInReach(ins);
      hide Sound, InReach, Written, Link.IsUpdate, Wrap, ReadU32, Fwd, Bodies;
      TakenAreNewest(linkId, front);
      WrittenIsUpdate(linkId, a, Expected(front));
      OneMoreBody(linkId, Newest(front), a);
      assert Newest(front) + [] == Newest(front);
    }
  }
}
