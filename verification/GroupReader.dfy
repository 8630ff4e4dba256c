/** The group-update datagram as VariableGroupNode reads it, variable by variable, passing over
    groups the node does not know, and what of the sender's data arrives. */
module GroupReader {
  import opened Seq32
  import opened Packets
  import opened Wire
  import opened GroupUpdate

  /** A group the node knows: the bytes of its variables, whose lengths never change. */
  datatype Known = Known(broken: bool, vars: seq<seq<Byte>>)

  type Store = map<u32, Known>

  datatype Outcome =
    | Clean              // every byte of the datagram was used
    | SerializationError // a variable ran out of bytes, or bytes were left over
    | OutOfData          // the source reads past the end of the datagram

  // ---- one group's variables

  datatype VarsRead = VarsRead(ok: bool, vars: seq<seq<Byte>>, rest: seq<Byte>)

  /** Each marked variable from i on takes its own length from the stream. */
  function ReadVars(vars: seq<seq<Byte>>, bits: nat, i: nat, buff: seq<Byte>): (r: VarsRead)
    ensures |r.vars| == |vars| && forall k :: 0 <= k < |vars| ==> |r.vars[k]| == |vars[k]|
    decreases |vars| - i
  {
    if i >= |vars| then VarsRead(true, vars, buff)
    else if !TestBit(bits, i) then ReadVars(vars, bits, i + 1, buff)
    else
      var n := |vars[i]|;
      if |buff| < n then VarsRead(false, vars, buff)
      else ReadVars(vars[i := buff[..n]], bits, i + 1, buff[n..])
  }

  datatype GroupRead = GroupRead(outcome: Outcome, store: Store, rest: seq<Byte>)

  /** VariableGroup::read with its check on the number of variables. */
  function ReadGroup(vars: seq<seq<Byte>>, bits: nat, buff: seq<Byte>): VarsRead {
    if |vars| > MAX_ITEMS then VarsRead(false, vars, buff) else ReadVars(vars, bits, 0, buff)
  }

  /** What lies behind a group by its skip count; nothing if the count leads past the end. */
  function Skipped(buff: seq<Byte>, skip: nat): seq<Byte> {
    if skip <= |buff| then buff[skip..] else []
  }

  /** deserializeGroup: a group not known, or broken, is passed over as its skip count says. A
      failed read keeps what it has already stored, and moves on likewise. */
  function DeserializeOne(store: Store, buff: seq<Byte>): GroupRead {
    if |buff| < GROUP_HEADER then GroupRead(OutOfData, store, buff)
    else
      var id, bits, skip := ReadU32(buff, 0), ReadU16(buff, 4), ReadU16(buff, 6);
      if id in store && !store[id].broken then
        var r := ReadGroup(store[id].vars, bits, buff[GROUP_HEADER..]);
        var store' := store[id := Known(false, r.vars)];
        if r.ok then GroupRead(Clean, store', r.rest) else GroupRead(SerializationError, store', Skipped(buff, skip))
      else if skip > |buff| then GroupRead(OutOfData, store, buff)
      else GroupRead(Clean, store, buff[skip..])
  }

  function DeserializeAll(store: Store, n: nat, buff: seq<Byte>): GroupRead
    decreases n
  {
    if n == 0 then GroupRead(if buff == [] then Clean else SerializationError, store, buff)
    else
      var r := DeserializeOne(store, buff);
      if r.outcome == Clean then DeserializeAll(r.store, n - 1, r.rest) else r
  }

  /** The group count is a signed number: from 2^31 on it is negative and no group is read. */
  function NumGroups(body: seq<Byte>): nat
    requires |body| >= 4
  {
    var n := ReadU32(body, 0);
    if n < 0x8000_0000 then n else 0
  }

  function RecvUpdate(store: Store, body: seq<Byte>): GroupRead {
    if |body| < 4 then GroupRead(OutOfData, store, body)
    else DeserializeAll(store, NumGroups(body), body[4..])
  }

  /** VariableGroup::read: the loop over the variables, each advancing the stream. */
  method ReadVariables(vars: seq<seq<Byte>>, bits: nat, buff: seq<Byte>)
    returns (ok: bool, vars': seq<seq<Byte>>, rest: seq<Byte>)
    ensures VarsRead(ok, vars', rest) == ReadGroup(vars, bits, buff)
  {
    vars', rest := vars, buff;
    if |vars| > MAX_ITEMS {
      return false, vars', rest;
    }
    var i := 0;
    hide TestBit;
    while i < |vars|
      invariant i <= |vars| && |vars'| == |vars|
      invariant ReadVars(vars', bits, i, rest) == ReadVars(vars, bits, 0, buff)
    {
      if TestBit(bits, i) {
        var n := |vars'[i]|;
        if |rest| < n {
          return false, vars', rest;
        }
        vars', rest := vars'[i := rest[..n]], rest[n..];
      }
      i := i + 1;
    }
    ok := true;
  }

  /** The part of VariableGroupNode that takes updates: the groups it can find, by id. */
  class UpdateReceiver {
    var groups: Store
    var criticalError: bool

    constructor (groups: Store)
      ensures this.groups == groups && !criticalError
    {
      this.groups, criticalError := groups, false;
    }

    /** Reads one group and answers where the next one begins. */
    method DeserializeGroup(buff: seq<Byte>) returns (outcome: Outcome, rest: seq<Byte>)
      modifies this`groups
      ensures GroupRead(outcome, groups, rest) == DeserializeOne(old(groups), buff)
    {
      if |buff| < GROUP_HEADER {
        return OutOfData, buff;
      }
      var groupId, groupBits, skipBytes := ReadU32(buff, 0), ReadU16(buff, 4), ReadU16(buff, 6);
      if groupId in groups && !groups[groupId].broken {
        var ok, vars, after := ReadVariables(groups[groupId].vars, groupBits, buff[GROUP_HEADER..]);
        groups := groups[groupId := Known(false, vars)];
        if ok {
          return Clean, after;
        }
        return SerializationError, Skipped(buff, skipBytes);
      }
      if skipBytes > |buff| {
        return OutOfData, buff;
      }
      return Clean, buff[skipBytes..];
    }

    /** Reads a whole datagram body; anything but using up every byte is a critical error. */
    method RecvVariableGroupUpdate(body: seq<Byte>) returns (outcome: Outcome)
      modifies this
      ensures outcome == RecvUpdate(old(groups), body).outcome && groups == RecvUpdate(old(groups), body).store
      ensures criticalError <==> old(criticalError) || outcome != Clean
    {
      if |body| < 4 {
        criticalError := true;
        return OutOfData;
      }
      var n := NumGroups(body);
      var buff := body[4..];
      hide DeserializeOne;
      while n > 0
        invariant DeserializeAll(groups, n, buff) == RecvUpdate(old(groups), body)
        invariant criticalError == old(criticalError)
        decreases n
      {
        outcome, buff := DeserializeGroup(buff);
        if outcome != Clean {
          criticalError := true;
          return;
        }
        n := n - 1;
      }
      outcome := if buff == [] then Clean else SerializationError;
      criticalError := criticalError || outcome != Clean;
    }
  }

  // ---- what arrives

  /** The group's marked items fit the variables: each carries its variable's length, and those
      past the last variable carry nothing. */
  ghost predicate Matches(g: Group, vars: seq<seq<Byte>>) {
    && |vars| <= |g.items|
    && forall i :: 0 <= i < |g.items| && Marked(g.items[i]) ==>
         |g.items[i].data| == if i < |vars| then |vars[i]| else 0
  }

  /** The variables with the sender's bytes where marked, and as they were elsewhere. */
  function Updated(g: Group, vars: seq<seq<Byte>>): (vs: seq<seq<Byte>>)
    requires |vars| <= |g.items|
    ensures |vs| == |vars|
  {
    seq(|vars|, i requires 0 <= i < |vars| => if Marked(g.items[i]) then g.items[i].data else vars[i])
  }

  function UpdatedUpTo(g: Group, vars: seq<seq<Byte>>, k: nat): (vs: seq<seq<Byte>>)
    requires |vars| <= |g.items|
    ensures |vs| == |vars|
  {
    seq(|vars|, i requires 0 <= i < |vars| => if i < k && Marked(g.items[i]) then g.items[i].data else vars[i])
  }

  /** The data of the items from k on. */
  function DataFrom(items: seq<Item>, k: nat): seq<Byte>
    requires k <= |items|
    decreases |items| - k
  {
    if k == |items| then [] else Added(items[k]) + DataFrom(items, k + 1)
  }

  lemma {:induction false} DataSplits(items: seq<Item>, k: nat)
    requires k <= |items|
    ensures DataOf(items) == DataOf(items[..k]) + DataFrom(items, k)
    decreases |items| - k
  {
    hide Marked;
    if k == |items| {
      assert items[..k] == items;
    } else {
      DataSplits(items, k + 1);
      DataNext(items, k);
      hide DataOf, Added;
      Assoc(DataOf(items[..k]), Added(items[k]), DataFrom(items, k + 1));
    }
  }

  /** Nothing is left from item k on exactly when every marked item from there on is empty. */
  lemma {:induction false} NothingPast(items: seq<Item>, k: nat)
    requires k <= |items|
    ensures DataFrom(items, k) == [] <==> forall i :: k <= i < |items| && Marked(items[i]) ==> items[i].data == []
    decreases |items| - k
  {
    if k < |items| {
      NothingPast(items, k + 1);
      assert |DataFrom(items, k)| == |Added(items[k])| + |DataFrom(items, k + 1)|;
    }
  }

  /** Marked items that stand for a variable carry its length. */
  ghost predicate LengthsMatch(g: Group, vars: seq<seq<Byte>>) {
    |vars| <= |g.items| && forall i :: 0 <= i < |vars| && Marked(g.items[i]) ==> |g.items[i].data| == |vars[i]|
  }

  lemma ReadsOne(g: Group, vars: seq<seq<Byte>>, k: nat, after: seq<Byte>)
    requires LengthsMatch(g, vars) && k < |vars|
    ensures var bits := BitsValue(Marks(g.items));
            ReadVars(UpdatedUpTo(g, vars, k), bits, k, DataFrom(g.items, k) + after)
            == ReadVars(UpdatedUpTo(g, vars, k + 1), bits, k + 1, DataFrom(g.items, k + 1) + after)
  {
    var bits, now, it, rest := BitsValue(Marks(g.items)), UpdatedUpTo(g, vars, k), g.items[k], DataFrom(g.items, k + 1);
    BitsRoundTrip(Marks(g.items), k);
    hide TestBit, BitsValue;
    Assoc(Added(it), rest, after);
    hide DataFrom, Marked;
    if Marked(it) {
      TakesFirst(it.data, rest + after);
      assert now[k := it.data] == UpdatedUpTo(g, vars, k + 1);
    } else {
      assert now == UpdatedUpTo(g, vars, k + 1);
      assert [] + (rest + after) == rest + after;
    }
  }

  lemma TakesFirst(a: seq<Byte>, b: seq<Byte>)
    ensures (a + b)[..|a|] == a && (a + b)[|a|..] == b
  {
  }

  /** From variable k on, items of the right length are read exactly, and the stream stops at the
      data that no variable takes. */
  lemma {:induction false} ReadsRight(g: Group, vars: seq<seq<Byte>>, k: nat, after: seq<Byte>)
    requires LengthsMatch(g, vars) && k <= |vars|
    ensures ReadVars(UpdatedUpTo(g, vars, k), BitsValue(Marks(g.items)), k, DataFrom(g.items, k) + after)
         == VarsRead(true, Updated(g, vars), DataFrom(g.items, |vars|) + after)
    decreases |vars| - k
  {
    if k == |vars| {
      assert UpdatedUpTo(g, vars, k) == Updated(g, vars);
    } else {
      hide BitsValue, Marks, DataFrom, UpdatedUpTo, Updated, ReadVars;
      ReadsOne(g, vars, k, after);
      ReadsRight(g, vars, k + 1, after);
    }
  }

  lemma MatchesIs(g: Group, vars: seq<seq<Byte>>)
    requires |vars| <= |g.items|
    ensures Matches(g, vars) <==> LengthsMatch(g, vars) && DataFrom(g.items, |vars|) == []
  {
    NothingPast(g.items, |vars|);
    hide Marked, DataFrom;
    assert forall i :: 0 <= i < |g.items| ==> (g.items[i].data == [] <==> |g.items[i].data| == 0);
  }

  lemma ReadsAll(g: Group, vars: seq<seq<Byte>>, after: seq<Byte>)
    requires LengthsMatch(g, vars) && |vars| <= MAX_ITEMS
    ensures ReadGroup(vars, BitsValue(Marks(g.items)), DataOf(g.items) + after)
         == VarsRead(true, Updated(g, vars), DataFrom(g.items, |vars|) + after)
  {
    DataSplits(g.items, 0);
    assert UpdatedUpTo(g, vars, 0) == vars && DataOf(g.items) == DataFrom(g.items, 0);
    hide TestBit, BitsValue, Marked, DataFrom, DataOf, Marks;
    ReadsRight(g, vars, 0, after);
  }

  /** A group's variables are read right, each marked one getting its item's bytes and the stream
      stopping where the group ends, exactly when its marked items match the variables. */
  lemma GroupReadsRightExactlyWhen(g: Group, vars: seq<seq<Byte>>, after: seq<Byte>)
    requires |vars| <= |g.items| <= MAX_ITEMS
    ensures ReadGroup(vars, BitsValue(Marks(g.items)), DataOf(g.items) + after)
              == VarsRead(true, Updated(g, vars), after)
            <==> Matches(g, vars)
  {
    MatchesIs(g, vars);
    hide TestBit, BitsValue, Marked, DataFrom, DataOf, Marks, Matches;
    if LengthsMatch(g, vars) {
      ReadsAll(g, vars, after);
      assert |DataFrom(g.items, |vars|) + after| == |after| ==> DataFrom(g.items, |vars|) == [];
      assert [] + after == after;
    } else {
      var r := ReadGroup(vars, BitsValue(Marks(g.items)), DataOf(g.items) + after);
      var i :| 0 <= i < |vars| && Marked(g.items[i]) && |g.items[i].data| != |vars[i]|;
      assert Updated(g, vars)[i] == g.items[i].data;
    }
  }

  // ---- one group off the stream

  lemma U16RoundTrip(n: nat, before: seq<Byte>, after: seq<Byte>)
    requires n < 65536
    ensures ReadU16(before + U16Bytes(n) + after, |before|) == n
  {
    var bs := before + U16Bytes(n) + after;
    assert bs[|before|] == U16Bytes(n)[0] && bs[|before| + 1] == U16Bytes(n)[1];
  }

  lemma HeaderReads(g: Group, after: seq<Byte>)
    requires Sendable([g])
    ensures var buff := GroupBytes(g) + after;
            && |buff| >= GROUP_HEADER
            && ReadU32(buff, 0) == g.id
            && ReadU16(buff, 4) == BitsValue(Marks(g.items)) && ReadU16(buff, 6) == |GroupBytes(g)|
            && buff[GROUP_HEADER..] == DataOf(g.items) + after && buff[|GroupBytes(g)|..] == after
  {
    assert g in [g];
    BitsFit(g.items);
    var id, bits, skip := U32Bytes(g.id), U16Bytes(BitsValue(Marks(g.items))), U16Bytes(|GroupBytes(g)|);
    var rest := DataOf(g.items) + after;
    hide BitsValue, Marks, DataOf, U32Bytes, U16Bytes, ReadU32, ReadU16;
    var buff := GroupBytes(g) + after;
    assert buff == [] + id + (bits + skip + rest);
    U32RoundTrip(g.id, [], bits + skip + rest);
    assert buff == id + bits + (skip + rest);
    U16RoundTrip(BitsValue(Marks(g.items)), id, skip + rest);
    assert buff == (id + bits) + skip + rest;
    U16RoundTrip(|GroupBytes(g)|, id + bits, rest);
  }

  /** What one group does to a store in which it is known and sound, or is not. */
  function Applied(store: Store, g: Group): Store
    requires g.id in store && !store[g.id].broken ==> |store[g.id].vars| <= |g.items|
  {
    if g.id in store && !store[g.id].broken then store[g.id := Known(false, Updated(g, store[g.id].vars))] else store
  }

  ghost predicate Agrees(store: Store, g: Group) {
    g.id in store && !store[g.id].broken ==> Matches(g, store[g.id].vars)
  }

  lemma DeserializeOneIs(store: Store, g: Group, after: seq<Byte>)
    requires Sendable([g]) && Agrees(store, g)
    ensures DeserializeOne(store, GroupBytes(g) + after) == GroupRead(Clean, Applied(store, g), after)
  {
    assert g in [g];
    HeaderReads(g, after);
    hide BitsValue, Marks, DataOf, GroupBytes, ReadU32, ReadU16, ReadVars;
    if g.id in store && !store[g.id].broken {
      GroupReadsRightExactlyWhen(g, store[g.id].vars, after);
    }
  }

  /** Whatever comes of its variables, the reader goes on behind the group: it is read, passed over if it is
      not known or broken, or a serialization error that keeps what was read so far. */
  lemma GoesOnBehind(store: Store, g: Group, after: seq<Byte>)
    requires Sendable([g])
    ensures var r := DeserializeOne(store, GroupBytes(g) + after);
            && (!(g.id in store && !store[g.id].broken) ==> r == GroupRead(Clean, store, after))
            && (g.id in store && !store[g.id].broken ==>
                  var v := ReadGroup(store[g.id].vars, BitsValue(Marks(g.items)), DataOf(g.items) + after);
                  && r.store == store[g.id := Known(false, v.vars)]
                  && (v.ok ==> r.outcome == Clean && r.rest == v.rest)
                  && (!v.ok ==> r.outcome == SerializationError && r.rest == after))
  {
    assert g in [g];
    HeaderReads(g, after);
    hide BitsValue, Marks, DataOf, GroupBytes, ReadU32, ReadU16, ReadGroup;
  }

  // ---- the whole stream

  ghost predicate DistinctIds(gs: seq<Group>) {
    forall i, j :: 0 <= i < j < |gs| ==> gs[i].id != gs[j].id
  }

  ghost predicate AllAgree(store: Store, gs: seq<Group>) {
    forall i :: 0 <= i < |gs| ==> Agrees(store, gs[i])
  }

  /** Every known, sound group among `gs` took the sender's bytes; nothing else changed. */
  ghost predicate TookOver(store: Store, gs: seq<Group>, store': Store) {
    && store'.Keys == store.Keys
    && (forall i :: 0 <= i < |gs| && gs[i].id in store && !store[gs[i].id].broken ==>
          |store[gs[i].id].vars| <= |gs[i].items|
              && store'[gs[i].id] == Known(false, Updated(gs[i], store[gs[i].id].vars)))
    && (forall id :: id in store && (store[id].broken || forall i :: 0 <= i < |gs| ==> gs[i].id != id) ==>
          store'[id] == store[id])
  }

  lemma AgreesStill(store: Store, gs: seq<Group>)
    requires gs != [] && DistinctIds(gs) && AllAgree(store, gs)
    ensures gs[0].id in store && !store[gs[0].id].broken ==> |store[gs[0].id].vars| <= |gs[0].items|
    ensures Agrees(store, gs[0]) && DistinctIds(gs[1..]) && AllAgree(Applied(store, gs[0]), gs[1..])
  {
    assert Agrees(store, gs[0]);
    var store' := Applied(store, gs[0]);
    hide Matches, Updated;
    forall i | 0 <= i < |gs[1..]| ensures Agrees(store', gs[1..][i]) {
      assert gs[1..][i] == gs[i + 1] && Agrees(store, gs[i + 1]);
    }
  }

  lemma TookOverCons(store: Store, gs: seq<Group>, store': Store)
    requires gs != [] && DistinctIds(gs) && Agrees(store, gs[0])
    requires TookOver(Applied(store, gs[0]), gs[1..], store')
    ensures TookOver(store, gs, store')
  {
    var mid := Applied(store, gs[0]);
    hide Matches, Updated;
    forall i | 0 <= i < |gs| && gs[i].id in store && !store[gs[i].id].broken
      ensures |store[gs[i].id].vars| <= |gs[i].items|
                && store'[gs[i].id] == Known(false, Updated(gs[i], store[gs[i].id].vars))
    {
      if i > 0 {
        assert gs[1..][i - 1] == gs[i] && gs[0].id != gs[i].id;
      } else {
        assert forall k :: 0 <= k < |gs[1..]| ==> gs[1..][k].id == gs[k + 1].id != gs[0].id;
      }
    }
    forall id | id in store && (store[id].broken || forall i :: 0 <= i < |gs| ==> gs[i].id != id)
      ensures store'[id] == store[id]
    {
      assert forall k :: 0 <= k < |gs[1..]| ==> gs[1..][k].id == gs[k + 1].id;
    }
  }

  lemma FirstSendable(gs: seq<Group>)
    requires gs != [] && Sendable(gs)
    ensures Sendable([gs[0]]) && Sendable(gs[1..])
  {
    hide DataOf;
  }

  lemma FirstRead(store: Store, gs: seq<Group>)
    requires gs != [] && Sendable(gs) && Agrees(store, gs[0])
    ensures DeserializeAll(store, |gs|, Body(gs)) == DeserializeAll(Applied(store, gs[0]), |gs| - 1, Body(gs[1..]))
  {
    FirstSendable(gs);
    DeserializeOneIs(store, gs[0], Body(gs[1..]));
    hide GroupBytes, DeserializeOne, Applied, Agrees, Sendable;
  }

  ghost predicate ReadClean(store: Store, gs: seq<Group>, r: GroupRead) {
    r.outcome == Clean && r.rest == [] && TookOver(store, gs, r.store)
  }

  lemma NoneRead(store: Store)
    ensures ReadClean(store, [], DeserializeAll(store, 0, Body([])))
  {
  }

  lemma ReadCleanCons(store: Store, gs: seq<Group>, r: GroupRead)
    requires gs != [] && DistinctIds(gs) && Agrees(store, gs[0])
    requires ReadClean(Applied(store, gs[0]), gs[1..], r)
    ensures ReadClean(store, gs, r)
  {
    TookOverCons(store, gs, r.store);
  }

  lemma {:induction false} AllRead(store: Store, gs: seq<Group>)
    requires Sendable(gs) && DistinctIds(gs) && AllAgree(store, gs)
    ensures ReadClean(store, gs, DeserializeAll(store, |gs|, Body(gs)))
    decreases |gs|
  {
    hide DeserializeAll, Body, Applied, ReadClean, Agrees, Sendable, AllAgree, DistinctIds;
    if gs == [] {
      NoneRead(store);
    } else {
      FirstSendable(gs);
      AgreesStill(store, gs);
      FirstRead(store, gs);
      AllRead(Applied(store, gs[0]), gs[1..]);
      ReadCleanCons(store, gs, DeserializeAll(store, |gs|, Body(gs)));
    }
  }

  lemma UpdateHeader(linkId: u32, seqNo: u32, gs: seq<Group>)
    requires |gs| < 0x1_0000_0000 && Sendable(gs)
    ensures var w := UpdateBytes(linkId, seqNo, gs);
            && |w| == OFF_GROUPS + |Body(gs)|
            && ReadU32(w, 0) == linkId && w[4] == RELIABLE_NEWEST && ReadU32(w, 5) == seqNo
            && ReadU32(w[9..], 0) == |gs| && w[9..][4..] == Body(gs)
  {
    var body, id, n, c := Body(gs), U32Bytes(linkId), U32Bytes(seqNo), U32Bytes(|gs|);
    hide Body, U32Bytes, ReadU32, Sendable;
    var w := UpdateBytes(linkId, seqNo, gs);
    assert w == [] + id + ([RELIABLE_NEWEST] + n + c + body);
    U32RoundTrip(linkId, [], [RELIABLE_NEWEST] + n + c + body);
    assert w == (id + [RELIABLE_NEWEST]) + n + (c + body);
    U32RoundTrip(seqNo, id + [RELIABLE_NEWEST], c + body);
    assert w[9..] == [] + c + body && w[9..][4..] == body;
    U32RoundTrip(|gs|, [], body);
  }

  /** The round trip of a group update: for any groups that were sent and any subset of them that
      the receiver knows, its datagram is long enough to be taken, is read to its last byte, and
      hands over exactly the sender's marked variables of the groups known and sound. */
  lemma UpdateRoundTrip(linkId: u32, seqNo: u32, gs: seq<Group>, store: Store)
    requires gs != [] && |gs| < 0x8000_0000 && Sendable(gs) && DistinctIds(gs) && AllAgree(store, gs)
    ensures var w := UpdateBytes(linkId, seqNo, gs);
            && |w| >= 16 && ReadU32(w, 0) == linkId && w[4] == RELIABLE_NEWEST && ReadU32(w, 5) == seqNo
            && var r := RecvUpdate(store, w[9..]); r.outcome == Clean && r.rest == [] && TookOver(store, gs, r.store)
  {
    UpdateHeader(linkId, seqNo, gs);
    AllRead(store, gs);
    hide Body, GroupBytes, U32Bytes, ReadU32, DeserializeAll, TookOver, UpdateBytes, AllAgree, Sendable;
  }

  // ---- from the sender's queue to the receiver's groups

  lemma {:induction false} DirtyAmong(groups: seq<Group>, g: Group)
    requires g in DirtyOnly(groups)
    ensures g in groups
  {
    if g != groups[0] {
      DirtyAmong(groups[1..], g);
    }
  }

  lemma {:induction false} DirtyDistinct(groups: seq<Group>)
    requires DistinctIds(groups)
    ensures DistinctIds(DirtyOnly(groups))
  {
    if groups != [] {
      var g, rest := groups[0], DirtyOnly(groups[1..]);
      DirtyDistinct(groups[1..]);
      hide Dirty;
      forall h | h in rest ensures h.id != g.id {
        DirtyAmong(groups[1..], h);
        var i :| 0 <= i < |groups[1..]| && groups[1..][i] == h;
        assert groups[i + 1] == h;
      }
      assert [] + rest == rest;
    }
  }

  lemma {:induction false} SizesBound(gs: seq<Group>)
    ensures GROUP_HEADER * |gs| <= Sizes(gs)
    ensures forall g :: g in gs ==> GROUP_HEADER + |DataOf(g.items)| <= Sizes(gs)
  {
    hide DataOf;
    if gs != [] {
      SizesBound(gs[1..]);
    }
  }

  lemma SentAreFit(groups: seq<Group>, store: Store)
    requires DistinctIds(groups) && AllAgree(store, groups) && FrameOf(groups, OFF_GROUPS).Frame?
    requires forall g :: g in groups ==> |g.items| <= MAX_ITEMS
    ensures var gs := FrameOf(groups, OFF_GROUPS).groups;
            |gs| <= BUFF_SIZE && Sendable(gs) && DistinctIds(gs) && AllAgree(store, gs)
  {
    var n := FrameIsDirty(groups, OFF_GROUPS);
    var gs := DirtyOnly(groups[..n]);
    SizesBound(gs);
    DirtyDistinct(groups[..n]);
    hide DataOf, FrameOf, DirtyOnly, Agrees, Sizes;
    forall g | g in gs ensures |g.items| <= MAX_ITEMS && Agrees(store, g) {
      DirtyAmong(groups[..n], g);
      var i :| 0 <= i < n && groups[i] == g;
      assert Agrees(store, groups[i]);
    }
  }

  /** Whatever DispatchReliableNewestQueue sends out of a queue of groups whose marked items match
      the variables of those the receiver knows, the receiver takes over and reads to the end. */
  lemma SentIsTakenOver(linkId: u32, seqNo: u32, groups: seq<Group>, store: Store)
    requires DistinctIds(groups) && AllAgree(store, groups)
    requires forall g :: g in groups ==> |g.items| <= MAX_ITEMS
    requires FrameOf(groups, OFF_GROUPS).Frame? && FrameOf(groups, OFF_GROUPS).groups != []
    ensures var gs := FrameOf(groups, OFF_GROUPS).groups;
            && |gs| < 0x1_0000_0000
            && var r := RecvUpdate(store, UpdateBytes(linkId, seqNo, gs)[9..]);
               r.outcome == Clean && r.rest == [] && TookOver(store, gs, r.store)
  {
    SentAreFit(groups, store);
    hide FrameOf, RecvUpdate, TookOver, UpdateBytes, AllAgree, DistinctIds, Sendable;
    UpdateRoundTrip(linkId, seqNo, FrameOf(groups, OFF_GROUPS).groups, store);
  }

  // ---- when the hypothesis fails

  /** A variable handed to addReliableNewest: its bit, its bytes, and the revision it will go
      out with. */
  datatype Change = Change(bit: nat, data: seq<Byte>, rev: u32)

  /** A group in the queue after these changes, before any ack. */
  function Queued(id: u32, cs: seq<Change>): (g: Group)
    requires cs != [] && forall c :: c in cs ==> c.bit < MAX_ITEMS
    ensures |g.items| == MAX_ITEMS
  {
    var last := cs[|cs| - 1];
    if |cs| == 1 then NewGroup(id, last.rev, last.bit, last.data)
    else
      var g := Queued(id, cs[..|cs| - 1]);
      SetItem(g, last.rev, last.bit, last.data)
  }

  /** Changes of this group's variables, each with its own length, at revisions up to 2^31 - 1 on. */
  ghost predicate ChangesOf(cs: seq<Change>, vars: seq<seq<Byte>>) {
    && cs != [] && |vars| <= MAX_ITEMS
    && forall c :: c in cs ==> c.bit < |vars| && |c.data| == |vars[c.bit]| && IsSequenceNewer(c.rev, cs[0].rev)
  }

  ghost predicate IsSet(cs: seq<Change>, i: nat) {
    exists k :: 0 <= k < |cs| && cs[k].bit == i
  }

  lemma {:induction false} ItemIs(id: u32, cs: seq<Change>, vars: seq<seq<Byte>>, i: nat)
    requires ChangesOf(cs, vars) && i < MAX_ITEMS
    ensures forall c :: c in cs ==> c.bit < MAX_ITEMS
    ensures var it := Queued(id, cs).items[i];
            && it.remoteRev == cs[0].rev && Marked(it)
            && |it.data| == if IsSet(cs, i) && i < |vars| then |vars[i]| else 0
  {
    hide IsSequenceNewer;
    var last := cs[|cs| - 1];
    assert last in cs && cs[0] in cs;
    if |cs| > 1 {
      var front := cs[..|cs| - 1];
      ItemIs(id, front, vars, i);
      assert IsSet(cs, i) <==> IsSet(front, i) || last.bit == i;
    }
  }

  lemma UnackedMatchesExactlyWhen(id: u32, cs: seq<Change>, vars: seq<seq<Byte>>)
    requires ChangesOf(cs, vars) && forall c :: c in cs ==> c.bit < MAX_ITEMS
    ensures Matches(Queued(id, cs), vars) <==> forall i :: 0 <= i < |vars| && |vars[i]| > 0 ==> IsSet(cs, i)
  {
    var g := Queued(id, cs);
    forall i | 0 <= i < MAX_ITEMS
      ensures Marked(g.items[i]) && |g.items[i].data| == if IsSet(cs, i) && i < |vars| then |vars[i]| else 0
    {
      ItemIs(id, cs, vars, i);
    }
    hide Queued, Marked, IsSet;
  }

  /** Before any ack, a group is read right exactly when every variable that has any bytes has
      been set at least once since the group was queued. */
  lemma UnackedReadsRightExactlyWhen(id: u32, cs: seq<Change>, vars: seq<seq<Byte>>, after: seq<Byte>)
    requires ChangesOf(cs, vars) && forall c :: c in cs ==> c.bit < MAX_ITEMS
    ensures var g := Queued(id, cs);
            ReadGroup(vars, BitsValue(Marks(g.items)), DataOf(g.items) + after)
                == VarsRead(true, Updated(g, vars), after)
            <==> forall i :: 0 <= i < |vars| && |vars[i]| > 0 ==> IsSet(cs, i)
  {
    var g := Queued(id, cs);
    UnackedMatchesExactlyWhen(id, cs, vars);
    hide Queued, IsSet, Marks, BitsValue, DataOf, ReadGroup, Updated, Matches;
    GroupReadsRightExactlyWhen(g, vars, after);
  }

  lemma FreshData(id: u32, rev: u32, data: seq<Byte>)
    ensures var g := NewGroup(id, rev, 0, data);
            && DataOf(g.items) == data
            && TestBit(BitsValue(Marks(g.items)), 0) && TestBit(BitsValue(Marks(g.items)), 1)
  {
    var g := NewGroup(id, rev, 0, data);
    NewerDecides(rev, rev);
    BitsRoundTrip(Marks(g.items), 0);
    BitsRoundTrip(Marks(g.items), 1);
    hide TestBit, BitsValue, IsSequenceNewer;
    DataSplits(g.items, 0);
    NothingPast(g.items, 1);
    assert DataFrom(g.items, 0) == data + DataFrom(g.items, 1) == data;
  }

  /** So the first update of a group of two four-byte variables, sent after only one of them was
      set, is a serialization error at a receiver that knows the group. */
  lemma FreshGroupMisread(id: u32, rev: u32, data: seq<Byte>, vars: seq<seq<Byte>>)
    requires |data| == 4 && |vars| == 2 && |vars[0]| == 4 && |vars[1]| == 4
    ensures var g := NewGroup(id, rev, 0, data);
            Sendable([g]) && DeserializeOne(map[id := Known(false, vars)], GroupBytes(g)).outcome == SerializationError
  {
    var g := NewGroup(id, rev, 0, data);
    FreshData(id, rev, data);
    assert Sendable([g]);
    HeaderReads(g, []);
    var bits := BitsValue(Marks(g.items));
    hide TestBit, BitsValue, DataOf, GroupBytes, Marks, NewGroup, ReadU32, ReadU16;
    assert GroupBytes(g) + [] == GroupBytes(g) && data + [] == data;
    SecondRunsOut(vars, bits, data);
  }

  lemma SecondRunsOut(vars: seq<seq<Byte>>, bits: nat, data: seq<Byte>)
    requires |data| == 4 && |vars| == 2 && |vars[0]| == 4 && |vars[1]| == 4 && TestBit(bits, 0) && TestBit(bits, 1)
    ensures !ReadGroup(vars, bits, data).ok
  {
    hide TestBit;
    assert !ReadVars(vars[0 := data[..4]], bits, 1, data[4..]).ok;
  }

  /** A count of groups from 2^31 on is taken for none: nothing is read, and any byte behind it is an error. */
  lemma HugeCountReadsNone(store: Store, body: seq<Byte>)
    requires |body| >= 4 && ReadU32(body, 0) >= 0x8000_0000
    ensures RecvUpdate(store, body)
            == GroupRead(if |body| == 4 then Clean else SerializationError, store, body[4..])
  {
    hide ReadU32;
  }
}
