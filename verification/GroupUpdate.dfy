/** The group-update datagram as RUDPLink writes it: per dirty group its id, a bit per changed
    variable, the bytes to skip for whoever does not know the group, and the changed variables. */
module GroupUpdate {
  import opened Seq32
  import opened Packets
  import opened Wire
  import Reassembly

  const MAX_ITEMS: nat := 16
  const OFF_GROUPS: nat := 13
  const GROUP_HEADER: nat := 8

  /** A variable as last handed to the link, and the last revision its peer acked. */
  datatype Item = Item(localRev: u32, remoteRev: u32, data: seq<Byte>)

  datatype Group = Group(id: u32, items: seq<Item>)

  /** addReliableNewest on a group not yet queued: one item carries data, yet all sixteen start
      with equal revisions. */
  function NewGroup(id: u32, rev: u32, bit: nat, data: seq<Byte>): Group
    requires bit < MAX_ITEMS
  {
    Group(id, seq(MAX_ITEMS, i => Item(rev, rev, if i == bit then data else [])))
  }

  /** A queued group takes over a newer value of one variable. */
  function SetItem(g: Group, rev: u32, bit: nat, data: seq<Byte>): Group
    requires bit < |g.items|
  {
    g.(items := g.items[bit := Item(rev, g.items[bit].remoteRev, data)])
  }

  predicate Marked(it: Item) {
    IsSequenceNewer(it.localRev, it.remoteRev)
  }

  /** Some item before k is marked. */
  predicate AnyMarked(items: seq<Item>, k: nat) {
    exists i :: 0 <= i < k && i < |items| && Marked(items[i])
  }

  predicate Dirty(g: Group) {
    AnyMarked(g.items, |g.items|)
  }

  function Marks(items: seq<Item>): (ms: seq<bool>)
    ensures |ms| == |items|
  {
    seq(|items|, i requires 0 <= i < |items| => Marked(items[i]))
  }

  /** What an item adds to the datagram. */
  function Added(it: Item): seq<Byte> {
    if Marked(it) then it.data else []
  }

  /** The bytes of the marked items, in item order. */
  function DataOf(items: seq<Item>): seq<Byte> {
    if items == [] then []
    else
      var last := items[|items| - 1];
      DataOf(items[..|items| - 1]) + Added(last)
  }

  // ---- group bits

  function Pow2(n: nat): (p: nat)
    ensures p >= 1
  {
    if n == 0 then 1 else 2 * Pow2(n - 1)
  }

  /** The number whose bit i is set exactly where `ms[i]` is. */
  function BitsValue(ms: seq<bool>): nat {
    if ms == [] then 0 else 2 * BitsValue(ms[1..]) + if ms[0] then 1 else 0
  }

  predicate TestBit(n: nat, i: nat) {
    if i == 0 then n % 2 == 1 else TestBit(n / 2, i - 1)
  }

  lemma {:induction false} BitsBelow(ms: seq<bool>)
    ensures BitsValue(ms) < Pow2(|ms|)
  {
    if ms != [] {
      BitsBelow(ms[1..]);
    }
  }

  /** Setting one bit more on top. */
  lemma {:induction false} BitsAppend(ms: seq<bool>, b: bool)
    ensures BitsValue(ms + [b]) == BitsValue(ms) + if b then Pow2(|ms|) else 0
  {
    if ms == [] {
      assert BitsValue([b][1..]) == 0;
    } else {
      BitsAppend(ms[1..], b);
      assert (ms + [b])[1..] == ms[1..] + [b];
    }
  }

  /** The bits read back are the marks written. */
  lemma {:induction false} BitsRoundTrip(ms: seq<bool>, i: nat)
    requires i < |ms|
    ensures TestBit(BitsValue(ms), i) <==> ms[i]
  {
    if i > 0 {
      BitsRoundTrip(ms[1..], i - 1);
    }
  }

  // ---- the stream

  /** The low 16 bits. */
  function U16Bytes(n: nat): (bs: seq<Byte>)
    ensures |bs| == 2
  {
    [(n % 256) as Byte, (n / 256 % 256) as Byte]
  }

  function ReadU16(bs: seq<Byte>, at: nat): nat
    requires at + 2 <= |bs|
  {
    bs[at] as int + 256 * bs[at + 1] as int
  }

  lemma {:induction false} Pow2Grows(i: nat, n: nat)
    requires i <= n
    ensures Pow2(i) <= Pow2(n)
  {
    if i < n {
      Pow2Grows(i, n - 1);
    }
  }

  lemma BitsFit(items: seq<Item>)
    requires |items| <= MAX_ITEMS
    ensures BitsValue(Marks(items)) < 65536
  {
    BitsBelow(Marks(items));
    Pow2Grows(|items|, MAX_ITEMS);
    assert Pow2(4) == 16 && Pow2(8) == 256 && Pow2(12) == 4096 && Pow2(16) == 65536;
  }

  ghost predicate Fits(g: Group, used: nat) {
    used + GROUP_HEADER + |DataOf(g.items)| <= BUFF_SIZE
  }

  function GroupBytes(g: Group): (bs: seq<Byte>)
    ensures |bs| == GROUP_HEADER + |DataOf(g.items)|
  {
    var data := DataOf(g.items);
    U32Bytes(g.id) + U16Bytes(BitsValue(Marks(g.items))) + U16Bytes(GROUP_HEADER + |data|) + data
  }

  /** What the writer makes of a list of groups when `used` bytes of the buffer are taken: too
      much data, or the groups that go out. Clean groups are passed over, and nothing more is
      written once the buffer is exactly full. */
  datatype Frame = TooMuch | Frame(groups: seq<Group>)

  ghost function FrameOf(groups: seq<Group>, used: nat): Frame {
    if groups == [] then Frame([])
    else
      var g := groups[0];
      if !Dirty(g) then FrameOf(groups[1..], used)
      else if !Fits(g, used) then TooMuch
      else
        var used' := used + GROUP_HEADER + |DataOf(g.items)|;
        Prepend([g], if used' >= BUFF_SIZE then Frame([]) else FrameOf(groups[1..], used'))
  }

  ghost function Prepend(gs: seq<Group>, f: Frame): Frame {
    match f
    case TooMuch => TooMuch
    case Frame(rest) => Frame(gs + rest)
  }

  ghost predicate Sendable(gs: seq<Group>) {
    forall g :: g in gs ==> |g.items| <= MAX_ITEMS && GROUP_HEADER + |DataOf(g.items)| < 65536
  }

  function Body(gs: seq<Group>): seq<Byte> {
    if gs == [] then [] else GroupBytes(gs[0]) + Body(gs[1..])
  }

  /** Link id, type, sequence number, number of groups, groups. */
  function UpdateBytes(linkId: u32, seqNo: u32, gs: seq<Group>): seq<Byte>
    requires |gs| < 0x1_0000_0000
  {
    U32Bytes(linkId) + [RELIABLE_NEWEST] + U32Bytes(seqNo) + U32Bytes(|gs|) + Body(gs)
  }

  /** The two bytes at this offset are the number, lowest byte first. */
  predicate LittleEndian16(bs: seq<Byte>, at: nat, n: nat) {
    at + 2 <= |bs| && bs[at] as int == n % 256 && bs[at + 1] as int == n / 256 && n < 65536
  }

  lemma U16Layout(n: nat, before: seq<Byte>, after: seq<Byte>)
    requires n < 65536
    ensures LittleEndian16(before + U16Bytes(n) + after, |before|, n)
  {
    var bs := before + U16Bytes(n) + after;
    assert bs[|before|] == U16Bytes(n)[0] && bs[|before| + 1] == U16Bytes(n)[1];
  }

  /** Every byte of a group in a datagram: its id, its bits, how many bytes to skip for whoever does not
      know it, and the data of the marked items. */
  lemma GroupLayout(g: Group)
    requires Sendable([g])
    ensures var bs := GroupBytes(g);
            && LittleEndian(bs, 0, g.id) && LittleEndian16(bs, 4, BitsValue(Marks(g.items)))
            && LittleEndian16(bs, 6, |bs|) && |bs| == 8 + |DataOf(g.items)| && bs[8..] == DataOf(g.items)
  {
    assert g in [g];
    BitsFit(g.items);
    var id, bits, skip := U32Bytes(g.id), U16Bytes(BitsValue(Marks(g.items))), U16Bytes(|GroupBytes(g)|);
    hide BitsValue, Marks, DataOf, U32Bytes, U16Bytes, LittleEndian, LittleEndian16;
    var bs, data := GroupBytes(g), DataOf(g.items);
    assert bs == [] + id + (bits + skip + data);
    U32Layout(g.id, [], bits + skip + data);
    assert bs == id + bits + (skip + data);
    U16Layout(BitsValue(Marks(g.items)), id, skip + data);
    assert bs == (id + bits) + skip + data;
    U16Layout(|bs|, id + bits, data);
  }

  /** And of the datagram: link id, type, number, how many groups, and the groups. */
  lemma UpdateLayout(linkId: u32, seqNo: u32, gs: seq<Group>)
    requires |gs| < 0x1_0000_0000
    ensures var w := UpdateBytes(linkId, seqNo, gs);
            && LittleEndian(w, 0, linkId) && w[4] == 2 && LittleEndian(w, 5, seqNo) && LittleEndian(w, 9, |gs|)
            && w[13..] == Body(gs)
  {
    var body, id, n, c := Body(gs), U32Bytes(linkId), U32Bytes(seqNo), U32Bytes(|gs|);
    var w := UpdateBytes(linkId, seqNo, gs);
    assert w == id + [RELIABLE_NEWEST] + n + c + body;
    hide *;
    Regrouped(id, RELIABLE_NEWEST, n, c, body);
    U32Layout(linkId, [], [RELIABLE_NEWEST] + n + c + body);
    U32Layout(seqNo, id + [RELIABLE_NEWEST], c + body);
    U32Layout(|gs|, id + [RELIABLE_NEWEST] + n, body);
  }

  lemma Regrouped(id: seq<Byte>, kind: Byte, n: seq<Byte>, c: seq<Byte>, body: seq<Byte>)
    requires |id| == |n| == |c| == 4
    ensures var w := id + [kind] + n + c + body;
            && w == [] + id + ([kind] + n + c + body) && w == (id + [kind]) + n + (c + body)
            && |w| >= 13 && w[4] == kind && w[13..] == body
  {
  }

  /** How many bytes of data the marked items before item i carry. */
  function DataBefore(items: seq<Item>, i: nat): nat
    requires i <= |items|
  {
    if i == 0 then 0 else DataBefore(items, i - 1) + |Added(items[i - 1])|
  }

  /** An item goes out, its bit set and its data behind that of the items before it, exactly when its
      revision is at most 2^31 - 1 numbers past the last one acked. */
  lemma {:induction false} GoesOutExactlyWhen(items: seq<Item>, i: nat)
    requires i < |items|
    ensures var it, at := items[i], DataBefore(items, i);
            && (TestBit(BitsValue(Marks(items)), i) <==> (it.localRev - it.remoteRev) % 0x1_0000_0000 < 0x8000_0000)
            && at + |Added(it)| <= |DataOf(items)|
            && (TestBit(BitsValue(Marks(items)), i) ==> DataOf(items)[at..at + |it.data|] == it.data)
            && (!TestBit(BitsValue(Marks(items)), i) ==> DataBefore(items, i + 1) == at)
    ensures DataBefore(items, |items|) == |DataOf(items)|
  {
    BitsRoundTrip(Marks(items), i);
    DataStands(items, i);
    hide BitsValue, TestBit, DataOf, DataBefore;
    assert DataBefore(items, i + 1) == DataBefore(items, i) + |Added(items[i])| by { NextBefore(items, i); }
  }

  lemma NextBefore(items: seq<Item>, i: nat)
    requires i < |items|
    ensures DataBefore(items, i + 1) == DataBefore(items, i) + |Added(items[i])|
  {
  }

  lemma {:induction false} BeforeFront(items: seq<Item>, i: nat)
    requires items != [] && i < |items|
    ensures DataBefore(items[..|items| - 1], i) == DataBefore(items, i)
  {
    if i > 0 {
      BeforeFront(items, i - 1);
    }
  }

  lemma {:induction false} DataStands(items: seq<Item>, i: nat)
    requires i < |items|
    ensures var at := DataBefore(items, i);
            && at + |Added(items[i])| <= |DataOf(items)|
            && DataOf(items)[at..at + |Added(items[i])|] == Added(items[i])
    ensures DataBefore(items, |items|) == |DataOf(items)|
  {
    hide Added;
    var front := items[..|items| - 1];
    BeforeFront(items, |front|);
    BeforeFront(items, i);
    if i < |front| {
      DataStands(front, i);
    } else if front != [] {
      DataStands(front, 0);
    }
  }

  // ---- the writer

  lemma {:induction false} DataGrows(items: seq<Item>, k: nat)
    requires k <= |items|
    ensures |DataOf(items[..k])| <= |DataOf(items)|
  {
    if k < |items| {
      DataGrows(items[..|items| - 1], k);
      assert items[..|items| - 1][..k] == items[..k];
    } else {
      assert items[..k] == items;
    }
  }

  lemma DataNext(items: seq<Item>, k: nat)
    requires k < |items|
    ensures DataOf(items[..k + 1]) == DataOf(items[..k]) + Added(items[k])
    ensures BitsValue(Marks(items[..k + 1])) == BitsValue(Marks(items[..k])) + if Marked(items[k]) then Pow2(k) else 0
  {
    assert items[..k + 1][..k] == items[..k];
    assert Marks(items[..k + 1]) == Marks(items[..k]) + [Marked(items[k])];
    BitsAppend(Marks(items[..k]), Marked(items[k]));
  }

  lemma AnyNext(items: seq<Item>, k: nat)
    requires k < |items|
    ensures AnyMarked(items, k + 1) <==> AnyMarked(items, k) || Marked(items[k])
    ensures Marked(items[k]) ==> AnyMarked(items, |items|)
  {
  }

  /** Where the item loop stands. */
  ghost predicate Writing(items: seq<Item>, k: nat, start: nat, at: nat, bits: nat, wrote: bool) {
    && k <= |items|
    && at == start + |DataOf(items[..k])|
    && bits == BitsValue(Marks(items[..k]))
    && (wrote <==> AnyMarked(items, k))
    && (wrote ==> at <= BUFF_SIZE)
    && (!wrote ==> at == start)
  }

  lemma WriteNext(items: seq<Item>, k: nat, start: nat, at: nat, bits: nat, wrote: bool)
    requires Writing(items, k, start, at, bits, wrote) && k < |items|
    requires !Marked(items[k]) || at + |items[k].data| <= BUFF_SIZE
    ensures var m := Marked(items[k]);
            Writing(items, k + 1, start, at + if m then |items[k].data| else 0,
                    bits + if m then Pow2(k) else 0, wrote || m)
  {
    DataNext(items, k);
    AnyNext(items, k);
    assert |Added(items[k])| == if Marked(items[k]) then |items[k].data| else 0;
    hide DataOf, Marks, BitsValue, Pow2, Marked, Added, AnyMarked;
  }

  lemma WriteOverflows(items: seq<Item>, k: nat, start: nat, at: nat, bits: nat, wrote: bool)
    requires Writing(items, k, start, at, bits, wrote) && k < |items|
    requires Marked(items[k]) && at + |items[k].data| > BUFF_SIZE
    ensures start + |DataOf(items)| > BUFF_SIZE
  {
    DataNext(items, k);
    DataGrows(items, k + 1);
    hide DataOf, Marks, BitsValue, Pow2, Marked;
  }

  /** Puts one item into the buffer if it is marked and fits. */
  method WriteItem(buf: array<Byte>, at: nat, it: Item) returns (ok: bool, at': nat)
    requires buf.Length == BUFF_RECV_SIZE && at <= BUFF_SIZE + GROUP_HEADER
    modifies buf
    ensures ok <==> !Marked(it) || at + |it.data| <= BUFF_SIZE
    ensures buf[..at] == old(buf[..at])
    ensures ok ==> at' == at + |Added(it)| <= BUFF_SIZE + GROUP_HEADER && buf[..at'] == old(buf[..at]) + Added(it)
  {
    ok, at' := true, at;
    if Marked(it) {
      if at + |it.data| > BUFF_SIZE {
        return false, at;
      }
      Reassembly.CopyInto(buf, at, it.data);
      at' := at + |it.data|;
      assert buf[..at] == buf[..at'][..at];
    }
  }

  lemma Doubled(k: nat)
    ensures Pow2(k + 1) == 2 * Pow2(k)
  {
  }

  /** Where the item loop stands, with what the buffer holds by then. */
  ghost predicate Filled(pre: seq<Byte>, items: seq<Item>, k: nat, now: seq<Byte>, bits: nat, weight: nat,
                         wrote: bool) {
    && Writing(items, k, |pre|, |now|, bits, wrote) && |now| <= BUFF_SIZE + GROUP_HEADER
    && weight == Pow2(k)
    && now == pre + DataOf(items[..k])
  }

  lemma FillStart(pre: seq<Byte>, items: seq<Item>)
    requires |pre| <= BUFF_SIZE + GROUP_HEADER
    ensures Filled(pre, items, 0, pre, 0, 1, false)
  {
    assert pre + [] == pre;
  }

  lemma FillNext(pre: seq<Byte>, items: seq<Item>, k: nat, now: seq<Byte>, bits: nat, weight: nat, wrote: bool)
    requires Filled(pre, items, k, now, bits, weight, wrote) && k < |items|
    requires !Marked(items[k]) || |now| + |items[k].data| <= BUFF_SIZE
    ensures Filled(pre, items, k + 1, now + Added(items[k]), bits + if Marked(items[k]) then weight else 0,
                   2 * weight, wrote || Marked(items[k]))
  {
    WriteNext(items, k, |pre|, |now|, bits, wrote);
    DataNext(items, k);
    Doubled(k);
    var a, b := DataOf(items[..k]), Added(items[k]);
    hide Marked, DataOf, Writing, Pow2, Added, BitsValue, Marks;
    Assoc(pre, a, b);
  }

  lemma FillOverflows(pre: seq<Byte>, items: seq<Item>, k: nat, now: seq<Byte>, bits: nat, weight: nat, wrote: bool)
    requires Filled(pre, items, k, now, bits, weight, wrote) && k < |items|
    requires Marked(items[k]) && |now| + |items[k].data| > BUFF_SIZE
    ensures |pre| + |DataOf(items)| > BUFF_SIZE && AnyMarked(items, |items|)
  {
    AnyNext(items, k);
    WriteOverflows(items, k, |pre|, |now|, bits, wrote);
  }

  lemma FillEnd(pre: seq<Byte>, items: seq<Item>, now: seq<Byte>, bits: nat, weight: nat, wrote: bool)
    requires Filled(pre, items, |items|, now, bits, weight, wrote)
    ensures now == pre + DataOf(items) && bits == BitsValue(Marks(items))
    ensures wrote <==> AnyMarked(items, |items|)
    ensures wrote ==> |now| <= BUFF_SIZE
  {
    assert items[..|items|] == items;
  }

  /** Puts the marked items into the buffer; gives up when one does not fit. */
  method WriteItems(buf: array<Byte>, start: nat, items: seq<Item>)
    returns (ok: bool, at: nat, bits: nat, wrote: bool)
    requires buf.Length == BUFF_RECV_SIZE && start <= BUFF_SIZE + GROUP_HEADER
    modifies buf
    ensures buf[..start] == old(buf[..start])
    ensures !ok ==> start + |DataOf(items)| > BUFF_SIZE && AnyMarked(items, |items|)
    ensures ok ==> at <= buf.Length && buf[..at] == old(buf[..start]) + DataOf(items) && bits == BitsValue(Marks(items))
    ensures ok ==> (wrote <==> AnyMarked(items, |items|))
    ensures ok && wrote ==> at <= BUFF_SIZE
  {
    ghost var pre := buf[..start];
    var weight: nat, k: nat := 1, 0;
    ok, at, bits, wrote := true, start, 0, false;
    hide Marks, Marked, BitsValue, DataOf, Filled, AnyMarked, Added;
    FillStart(pre, items);
    while k < |items|
      invariant k <= |items| && start <= at <= BUFF_SIZE + GROUP_HEADER
      invariant buf[..start] == pre
      invariant Filled(pre, items, k, buf[..at], bits, weight, wrote)
    {
      ghost var now, was := buf[..at], at;
      ok, at := WriteItem(buf, at, items[k]);
      assert buf[..start] == buf[..was][..start];
      if !ok {
        FillOverflows(pre, items, k, now, bits, weight, wrote);
        return;
      }
      FillNext(pre, items, k, now, bits, weight, wrote);
      if Marked(items[k]) {
        bits, wrote := bits + weight, true;
      }
      weight, k := 2 * weight, k + 1;
    }
    FillEnd(pre, items, buf[..at], bits, weight, wrote);
  }

  method Patch(buf: array<Byte>, at: nat, bytes: seq<Byte>)
    requires at + |bytes| <= buf.Length
    modifies buf
    ensures buf[..] == old(buf[..at]) + bytes + old(buf[at + |bytes|..])
  {
    forall j | 0 <= j < |bytes| {
      buf[at + j] := bytes[j];
    }
  }

  lemma PatchPrefix(was: seq<Byte>, now: seq<Byte>, at: nat, bytes: seq<Byte>, n: nat)
    requires at + |bytes| <= n <= |was|
    requires now == was[..at] + bytes + was[at + |bytes|..]
    ensures |now| == |was| && now[..n] == was[..at] + bytes + was[at + |bytes|..n]
  {
  }

  /** Appends one group to the buffer, header last; a group with nothing marked leaves no trace. */
  method WriteGroup(buf: array<Byte>, before: nat, g: Group) returns (ok: bool, wrote: bool, after: nat)
    requires buf.Length == BUFF_RECV_SIZE && before <= BUFF_SIZE && |g.items| <= MAX_ITEMS
    modifies buf
    ensures buf[..before] == old(buf[..before])
    ensures ok <==> !Dirty(g) || Fits(g, before)
    ensures ok ==> wrote == Dirty(g)
    ensures ok && wrote ==> after == before + |GroupBytes(g)| <= BUFF_SIZE
    ensures ok && wrote ==> buf[..after] == old(buf[..before]) + GroupBytes(g)
    ensures ok && !wrote ==> after == before
  {
    hide IsSequenceNewer, Pow2, BitsValue, Marks, DataOf, U32Bytes, U16Bytes;
    ghost var pre := buf[..before];
    Reassembly.CopyInto(buf, before, U32Bytes(g.id));
    ghost var junk := buf[before + 4..before + 8];
    assert buf[..before + 8] == pre + U32Bytes(g.id) + junk;
    var bits;
    ok, after, bits, wrote := WriteItems(buf, before + 8, g.items);
    assert buf[..before] == buf[..before + 8][..before] == pre;
    if !ok {
      return;
    }
    if !wrote {
      return ok, wrote, before;
    }
    assert g.items[..|g.items|] == g.items;
    ghost var was := buf[..];
    assert was[..after] == pre + U32Bytes(g.id) + junk + DataOf(g.items);
    Patch(buf, before + 4, U16Bytes(bits) + U16Bytes(after - before));
    PatchPrefix(was, buf[..], before + 4, U16Bytes(bits) + U16Bytes(after - before), after);
    HeaderPatched(was, pre, g, junk, after);
    assert buf[..after] == buf[..][..after];
    assert buf[..before] == buf[..after][..before];
  }

  lemma HeaderPatched(was: seq<Byte>, pre: seq<Byte>, g: Group, junk: seq<Byte>, after: nat)
    requires |junk| == 4 && after <= |was|
    requires was[..after] == pre + U32Bytes(g.id) + junk + DataOf(g.items)
    ensures var at := |pre| + 4;
            was[..at] + (U16Bytes(BitsValue(Marks(g.items))) + U16Bytes(after - |pre|)) + was[at + 4..after]
            == pre + GroupBytes(g)
  {
    hide Pow2, BitsValue, Marks, DataOf, U32Bytes, U16Bytes;
    var at := |pre| + 4;
    assert was[..at] == was[..after][..at] == pre + U32Bytes(g.id);
    assert was[at + 4..after] == was[..after][at + 4..] == DataOf(g.items);
  }

  // ---- the group loop

  /** Where the group loop stands after i groups, `sent` of them written: what is still to come
      decides the frame. */
  ghost predicate Framing(groups: seq<Group>, i: nat, sent: seq<Group>, written: nat, done: bool) {
    && i <= |groups| && |sent| <= i && Sendable(sent)
    && written == OFF_GROUPS + |Body(sent)| <= BUFF_SIZE
    && FrameOf(groups, OFF_GROUPS) == Prepend(sent, if done then Frame([]) else FrameOf(groups[i..], written))
  }

  lemma FramingStart(groups: seq<Group>)
    ensures Framing(groups, 0, [], OFF_GROUPS, false)
  {
    assert groups[0..] == groups;
    assert forall gs: seq<Group> :: [] + gs == gs;
  }

  lemma {:induction false} BodyNext(sent: seq<Group>, g: Group)
    ensures Body(sent + [g]) == Body(sent) + GroupBytes(g)
  {
    hide GroupBytes;
    if sent == [] {
      assert [] + [g] == [g] && [g][1..] == [];
    } else {
      BodyNext(sent[1..], g);
      assert (sent + [g])[1..] == sent[1..] + [g];
      Assoc(GroupBytes(sent[0]), Body(sent[1..]), GroupBytes(g));
    }
  }

  lemma PrependTwice(sent: seq<Group>, g: Group, f: Frame)
    ensures Prepend(sent, Prepend([g], f)) == Prepend(sent + [g], f)
  {
    if f.Frame? {
      assert sent + ([g] + f.groups) == sent + [g] + f.groups;
    }
  }

  lemma FramingNext(groups: seq<Group>, i: nat, sent: seq<Group>, written: nat)
    requires Framing(groups, i, sent, written, false) && i < |groups| && |groups[i].items| <= MAX_ITEMS
    ensures var g := groups[i];
            && (!Dirty(g) ==> Framing(groups, i + 1, sent, written, false))
            && (Dirty(g) && !Fits(g, written) ==> FrameOf(groups, OFF_GROUPS).TooMuch?)
            && (Dirty(g) && Fits(g, written) ==>
                  Framing(groups, i + 1, sent + [g], written + |GroupBytes(g)|, written + |GroupBytes(g)| >= BUFF_SIZE))
  {
    var g := groups[i];
    assert groups[i..][0] == g && groups[i..][1..] == groups[i + 1..];
    hide Dirty, GroupBytes, DataOf;
    if Dirty(g) && Fits(g, written) {
      BodyNext(sent, g);
      var used := written + |GroupBytes(g)|;
      PrependTwice(sent, g, if used >= BUFF_SIZE then Frame([]) else FrameOf(groups[i + 1..], used));
    }
  }

  /** Builds one datagram out of everything dirty and sends it, unless there is nothing to send
      or some group does not fit: then nothing goes out, and the latter is a critical error. */
  method DispatchReliableNewestQueue(linkId: u32, seqNo: u32, groups: seq<Group>)
    returns (out: Option<seq<Byte>>, next: u32, critical: bool)
    requires |groups| < 0x1_0000_0000 && forall g :: g in groups ==> |g.items| <= MAX_ITEMS
    ensures critical <==> FrameOf(groups, OFF_GROUPS).TooMuch?
    ensures next == if out.Some? then Fwd(seqNo, 1) else seqNo
    ensures out.Some? <==> FrameOf(groups, OFF_GROUPS).Frame? && FrameOf(groups, OFF_GROUPS).groups != []
    ensures out.Some? ==>
              var gs := FrameOf(groups, OFF_GROUPS).groups;
              |gs| <= |groups| && Sendable(gs) && out.value == UpdateBytes(linkId, seqNo, gs)
                  && |out.value| <= BUFF_SIZE
  {
    hide FrameOf, IsSequenceNewer, Wrap, U32Bytes, Body, GroupBytes, Dirty, Sendable, Fits, DataOf, Marked;
    hide UpdateBytes, BitsValue, Marks;
    var buf := new Byte[BUFF_RECV_SIZE];
    var head := U32Bytes(linkId) + [RELIABLE_NEWEST] + U32Bytes(seqNo);
    Reassembly.CopyInto(buf, 0, head);
    assert buf[..9] == head;
    ghost var pre, sent, done := buf[..OFF_GROUPS], [], false;
    var numGroups: nat, written: nat, i: nat := 0, OFF_GROUPS, 0;
    assert pre[..9] == head;
    FramingStart(groups);
    EmptyBody();
    while i < |groups|
      invariant Framing(groups, i, sent, written, done) && !done && numGroups == |sent|
      invariant buf[..written] == pre + Body(sent)
    {
      FramingNext(groups, i, sent, written);
      assert groups[i] in groups;
      var ok, wrote, after := WriteGroup(buf, written, groups[i]);
      if !ok {
        return None, seqNo, true;
      }
      if wrote {
        BodyNext(sent, groups[i]);
        sent, written, numGroups := sent + [groups[i]], after, numGroups + 1;
        if written >= BUFF_SIZE {
          done, i := true, i + 1;
          break;
        }
      }
      i := i + 1;
    }
    FramingEnds(groups, i, sent, written, done);
    if numGroups == 0 {
      return None, seqNo, false;
    }
    ghost var was := buf[..];
    Patch(buf, 9, U32Bytes(numGroups));
    CountPatched(was, buf[..], linkId, seqNo, pre, sent, written);
    out, next, critical := Some(buf[..written]), Fwd(seqNo, 1), false;
  }

  lemma CountPatched(was: seq<Byte>, now: seq<Byte>, linkId: u32, seqNo: u32, pre: seq<Byte>, gs: seq<Group>, n: nat)
    requires |gs| < 0x1_0000_0000 && |pre| == OFF_GROUPS
             && pre[..9] == U32Bytes(linkId) + [RELIABLE_NEWEST] + U32Bytes(seqNo)
    requires OFF_GROUPS <= n <= |was| && was[..n] == pre + Body(gs)
    requires now == was[..9] + U32Bytes(|gs|) + was[13..]
    ensures |now| == |was| && now[..n] == UpdateBytes(linkId, seqNo, gs)
  {
    hide U32Bytes, Body;
    PatchPrefix(was, now, 9, U32Bytes(|gs|), n);
    assert was[..9] == was[..n][..9] == pre[..9];
    assert was[13..n] == was[..n][13..] == Body(gs);
  }

  lemma EmptyBody()
    ensures Body([]) == []
  {
  }

  lemma FramingEnds(groups: seq<Group>, i: nat, sent: seq<Group>, written: nat, done: bool)
    requires Framing(groups, i, sent, written, done) && (done || i == |groups|)
    ensures FrameOf(groups, OFF_GROUPS) == Frame(sent)
  {
    assert sent + [] == sent;
  }

  // ---- which groups go out

  function DirtyOnly(groups: seq<Group>): seq<Group> {
    if groups == [] then []
    else (if Dirty(groups[0]) then [groups[0]] else []) + DirtyOnly(groups[1..])
  }

  ghost function Sizes(gs: seq<Group>): nat {
    if gs == [] then 0 else GROUP_HEADER + |DataOf(gs[0].items)| + Sizes(gs[1..])
  }

  /** Exactly the dirty groups go out, in order: all of them, or those up to the group that fills
      the datagram to its last byte. */
  lemma {:induction false} FrameIsDirty(groups: seq<Group>, used: nat) returns (n: nat)
    requires FrameOf(groups, used).Frame? && used <= BUFF_SIZE
    ensures n <= |groups| && FrameOf(groups, used).groups == DirtyOnly(groups[..n])
    ensures used + Sizes(DirtyOnly(groups[..n])) <= BUFF_SIZE
    ensures n < |groups| ==> used + Sizes(DirtyOnly(groups[..n])) == BUFF_SIZE
  {
    if groups == [] {
      n := 0;
    } else {
      var g := groups[0];
      hide Dirty, DataOf;
      if !Dirty(g) {
        n := FrameIsDirty(groups[1..], used);
        n := n + 1;
      } else {
        var used' := used + GROUP_HEADER + |DataOf(g.items)|;
        n := 0;
        if used' < BUFF_SIZE {
          n := FrameIsDirty(groups[1..], used');
        }
        n := n + 1;
      }
      DirtyStep(groups, n);
    }
  }

  lemma NoneBefore(groups: seq<Group>)
    ensures Sizes(DirtyOnly(groups[..0])) == 0
  {
  }

  lemma DirtyStep(groups: seq<Group>, n: nat)
    requires 1 <= n <= |groups|
    ensures var g, rest := groups[0], DirtyOnly(groups[1..][..n - 1]);
            && DirtyOnly(groups[..n]) == (if Dirty(g) then [g] else []) + rest
            && Sizes(DirtyOnly(groups[..n])) == (if Dirty(g) then GROUP_HEADER + |DataOf(g.items)| else 0) + Sizes(rest)
  {
    var g, rest := groups[0], DirtyOnly(groups[1..][..n - 1]);
    hide Dirty, DataOf;
    assert groups[..n][0] == g && groups[..n][1..] == groups[1..][..n - 1];
    assert ([g] + rest)[0] == g && ([g] + rest)[1..] == rest && [] + rest == rest;
  }

  /** Group n is dirty and does not fit behind the dirty ones before it, which do. */
  ghost predicate Overflows(groups: seq<Group>, used: nat, n: nat) {
    && n < |groups| && Dirty(groups[n])
    && var before := used + Sizes(DirtyOnly(groups[..n]));
       before < BUFF_SIZE && !Fits(groups[n], before)
  }

  lemma OverflowsLater(groups: seq<Group>, used: nat, n: nat)
    requires groups != []
    requires Overflows(groups[1..], used + if Dirty(groups[0]) then GROUP_HEADER + |DataOf(groups[0].items)| else 0, n)
    ensures Overflows(groups, used, n + 1)
  {
    DirtyStep(groups, n + 1);
    hide Dirty, DataOf, DirtyOnly, Sizes, Fits;
  }

  /** Too much data is exactly a dirty group that does not fit behind the dirty ones before it. */
  lemma {:induction false} TooMuchMeans(groups: seq<Group>, used: nat) returns (n: nat)
    requires FrameOf(groups, used).TooMuch? && used < BUFF_SIZE
    ensures Overflows(groups, used, n)
    ensures && n < |groups| && Dirty(groups[n])
            && var before := used + Sizes(DirtyOnly(groups[..n]));
               before < 2048 && before + 8 + |DataOf(groups[n].items)| > 2048
  {
    var g := groups[0];
    if Dirty(g) && !Fits(g, used) {
      n := 0;
      NoneBefore(groups);
    } else {
      hide Dirty, DataOf, Overflows, Fits;
      n := TooMuchMeans(groups[1..], used + if Dirty(g) then GROUP_HEADER + |DataOf(g.items)| else 0);
      OverflowsLater(groups, used, n);
      n := n + 1;
    }
    OverflowsMeans(groups, used, n);
    hide Overflows, Sizes, DirtyOnly, Dirty, DataOf;
  }

  lemma OverflowsMeans(groups: seq<Group>, used: nat, n: nat)
    requires Overflows(groups, used, n)
    ensures && n < |groups| && Dirty(groups[n])
            && var before := used + Sizes(DirtyOnly(groups[..n]));
               before < 2048 && before + 8 + |DataOf(groups[n].items)| > 2048
  {
    hide Dirty, DataOf, Sizes, DirtyOnly;
  }
}
