/** Reassembling a fragmented packet (RUDPLink::tryReassembleBigPacket, defragmentPacket).
    The buffer may hold anything: keys wrap modulo 2^32 and fragments of several packets mix. */
module Reassembly {
  import opened Seq32
  import opened Packets

  type Buffer = map<u32, Fragment>

  /** `seq` reaches a first fragment p numbers back, over buffered non-first fragments. */
  ghost predicate ReachesFirst(m: Buffer, s: u32, p: nat) {
    forall i :: 0 <= i <= p ==> Back(s, i) in m && (m[Back(s, i)].first <==> i == p)
  }

  /** `seq` reaches a last fragment q numbers on, over buffered non-last fragments. */
  ghost predicate ReachesLast(m: Buffer, s: u32, q: nat) {
    forall i :: 0 <= i <= q ==> Fwd(s, i) in m && (m[Fwd(s, i)].last <==> i == q)
  }

  /** A whole packet lies around `seq`: p fragments before it, q after it. */
  ghost predicate HasRun(m: Buffer, s: u32, p: nat, q: nat) {
    ReachesFirst(m, s, p) && ReachesLast(m, s, q)
  }

  /** The keys of the n fragments from `b` on. */
  ghost function RunKeys(b: u32, n: nat): set<u32> {
    set i | 0 <= i < n :: Fwd(b, i)
  }

  ghost predicate RunPresent(m: Buffer, b: u32, n: nat) {
    forall i :: 0 <= i < n ==> Fwd(b, i) in m
  }

  /** The bytes of the n fragments from `b` on, in sequence order. */
  ghost function RunBytes(m: Buffer, b: u32, n: nat): seq<Byte>
    requires RunPresent(m, b, n)
  {
    if n == 0 then [] else RunBytes(m, b, n - 1) + m[Fwd(b, n - 1)].bytes
  }

  /** The first entry of the ordered buffer. */
  ghost predicate IsLowest(m: Buffer, k: u32) {
    k in m && forall k' :: k' in m ==> k <= k'
  }

  lemma {:induction false} LowestExists(m: Buffer, bound: nat)
    requires m != map[] && forall k :: k in m ==> k < bound
    ensures exists k :: IsLowest(m, k)
  {
    var k :| k in m;
    if forall k' :: k' in m ==> k <= k' {
      assert IsLowest(m, k);
    } else {
      var below := map j | j in m && j < k :: m[j];
      var j :| j in m && j < k;
      assert j in below;
      LowestExists(below, k);
      var low :| IsLowest(below, low);
      forall k' | k' in m ensures low <= k' {
        assert k' < k ==> k' in below;
        assert j in below && low <= j < k;
      }
      assert IsLowest(m, low);
    }
  }

  /** A buffer of fewer than 2^32 entries misses some key, so no walk goes round for ever. */
  lemma {:induction false} MissingKey(keys: set<u32>, n: nat) returns (z: u32)
    requires |keys| < n <= 0x1_0000_0000
    ensures z !in keys && z < n
  {
    if n - 1 !in keys {
      z := n - 1;
    } else {
      z := MissingKey(keys - {n - 1}, n - 1);
    }
  }

  lemma FwdDistinct(b: u32, i: nat, j: nat)
    requires i < 0x1_0000_0000 && j < 0x1_0000_0000
    ensures Fwd(b, i) == Fwd(b, j) <==> i == j
  {
  }

  lemma RunEnds(b: u32, last: u32, n: nat)
    requires 1 <= n < 0x1_0000_0000 && last == Fwd(b, n - 1)
    ensures Fwd(b, 0) == b
    ensures forall i: nat :: i <= n ==> (Fwd(b, i) == Fwd(last, 1) <==> i == n)
  {
  }

  lemma {:induction false} RunBytesGrow(m: Buffer, b: u32, i: nat, n: nat)
    requires i <= n && RunPresent(m, b, n)
    ensures |RunBytes(m, b, i)| <= |RunBytes(m, b, n)|
  {
    if i < n {
      RunBytesGrow(m, b, i, n - 1);
    }
  }

  /** One turn of the copy loop: the next fragment is still there, and goes. */
  lemma RunStep(m: Buffer, b: u32, i: nat, n: nat)
    requires i < n < 0x1_0000_0000 && RunPresent(m, b, n)
    ensures Fwd(b, i) in m - RunKeys(b, i)
    ensures (m - RunKeys(b, i)) - {Fwd(b, i)} == m - RunKeys(b, i + 1)
    ensures RunBytes(m, b, i + 1) == RunBytes(m, b, i) + m[Fwd(b, i)].bytes
    ensures |RunBytes(m, b, i + 1)| <= |RunBytes(m, b, n)|
    ensures Fwd(Fwd(b, i), 1) == Fwd(b, i + 1)
  {
    BackOne(b);
    forall j: nat | j < i ensures Fwd(b, j) != Fwd(b, i) {
      FwdDistinct(b, i, j);
    }
    hide Wrap, Fwd;
    assert RunKeys(b, i + 1) == RunKeys(b, i) + {Fwd(b, i)};
    RunBytesGrow(m, b, i + 1, n);
  }

  /** The room the joined bytes need: the first loop of defragmentPacket. */
  method RunLength(m: Buffer, b: u32, last: u32, ghost n: nat) returns (len: nat)
    requires 1 <= n < 0x1_0000_0000 && last == Fwd(b, n - 1)
    requires RunPresent(m, b, n)
    ensures len == |RunBytes(m, b, n)|
  {
    RunEnds(b, last, n);
    hide Wrap, Fwd;
    len := 0;
    var cur := b;
    ghost var i: nat := 0;
    while cur != Fwd(last, 1)
      invariant i <= n && cur == Fwd(b, i)
      invariant len == |RunBytes(m, b, i)|
      decreases n - i
    {
      RunStep(m, b, i, n);
      len := len + |m[cur].bytes|;
      cur, i := Fwd(cur, 1), i + 1;
    }
  }

  method CopyInto(data: array<Byte>, at: nat, bytes: seq<Byte>)
    requires at + |bytes| <= data.Length
    modifies data
    ensures data[..at + |bytes|] == old(data[..at]) + bytes
  {
    forall j | 0 <= j < |bytes| {
      data[at + j] := bytes[j];
    }
    assert data[..at] == old(data[..at]);
    assert data[at..at + |bytes|] == bytes;
  }

  /** Id and relay flag come from the first buffer entry; the bytes of the run are joined
      in sequence order into a buffer of exactly their length; exactly the run is erased. */
  method DefragmentPacket(m: Buffer, b: u32, last: u32, ghost n: nat) returns (pack: Packet, rest: Buffer)
    requires 1 <= n < 0x1_0000_0000 && last == Fwd(b, n - 1)
    requires RunPresent(m, b, n)
    ensures rest == m - RunKeys(b, n)
    ensures pack.payload == RunBytes(m, b, n)
    ensures exists k :: IsLowest(m, k) && pack.id == m[k].id && pack.relay == m[k].relay
  {
    RunEnds(b, last, n);
    hide Wrap, Fwd;
    assert Fwd(b, 0) in m;
    LowestExists(m, 0x1_0000_0000);
    var lowest :| lowest in m && forall k :: k in m ==> lowest <= k;
    assert IsLowest(m, lowest);
    var len := RunLength(m, b, last, n);
    var data := new Byte[len];
    var cur, curLen: nat := b, 0;
    ghost var i: nat := 0;
    rest := m;
    assert m - RunKeys(b, 0) == m;
    while cur != Fwd(last, 1)
      invariant i <= n && cur == Fwd(b, i)
      invariant rest == m - RunKeys(b, i)
      invariant curLen == |RunBytes(m, b, i)| <= len
      invariant data[..curLen] == RunBytes(m, b, i)
      decreases n - i
    {
      RunStep(m, b, i, n);
      CopyInto(data, curLen, rest[cur].bytes);
      curLen := curLen + |rest[cur].bytes|;
      rest := rest - {cur};
      cur, i := Fwd(cur, 1), i + 1;
    }
    pack := Packet(m[lowest].id, m[lowest].relay, data[..]);
  }

  lemma BackThenFwd(s: u32, p: nat, i: nat)
    ensures Fwd(Back(s, p), i) == if i <= p then Back(s, p - i) else Fwd(s, i - p)
  {
    WrapSteps(s - p, i);
    hide Wrap;
  }

  /** The two walks meet no missing key, so together they span fewer than 2^32 numbers. */
  lemma RunSpan(m: Buffer, s: u32, p: nat, q: nat)
    requires |m| < 0x1_0000_0000 && HasRun(m, s, p, q)
    ensures p + q + 1 < 0x1_0000_0000
    ensures RunPresent(m, Back(s, p), p + q + 1)
    ensures Fwd(s, q) == Fwd(Back(s, p), p + q)
  {
    var z := MissingKey(m.Keys, 0x1_0000_0000);
    BackOne(s);
    hide Wrap, Back, Fwd;
    WalksMiss(m, s, z, p, q);
    assert Back(s, 0) in m;
    forall i: nat | i < p + q + 1 ensures Fwd(Back(s, p), i) in m {
      BackThenFwd(s, p, i);
    }
    BackThenFwd(s, p, p + q);
  }

  /** Neither walk gets as far as a missing key. */
  lemma WalksMiss(m: Buffer, s: u32, z: u32, p: nat, q: nat)
    requires z !in m && HasRun(m, s, p, q)
    ensures p + q + 1 < 0x1_0000_0000
  {
    Distances(s, z);
    BackOne(s);
    hide Wrap, Back, Fwd;
    assert s != z by {
      assert Back(s, 0) in m;
    }
    var back: nat, fwd: nat := Wrap(s - z), Wrap(z - s);
    assert back <= p ==> Back(s, back) in m;
    assert fwd <= q ==> Fwd(s, fwd) in m;
  }

  lemma Distances(s: u32, z: u32)
    ensures Back(s, Wrap(s - z)) == z && Fwd(s, Wrap(z - s)) == z
    ensures s != z ==> Wrap(s - z) + Wrap(z - s) == 0x1_0000_0000
  {
  }

  /** Where a backward walk stops: past buffered, non-first fragments only. */
  ghost predicate WalkedBack(m: Buffer, s: u32, p: nat) {
    forall i :: 0 <= i < p ==> Back(s, i) in m && !m[Back(s, i)].first
  }

  ghost predicate WalkedFwd(m: Buffer, s: u32, q: nat) {
    forall i :: 0 <= i < q ==> Fwd(s, i) in m && !m[Fwd(s, i)].last
  }

  method WalkToFirst(m: Buffer, s: u32) returns (b: u32, ghost p: nat)
    requires |m| < 0x1_0000_0000
    ensures b == Back(s, p) && WalkedBack(m, s, p)
    ensures b in m ==> m[b].first
  {
    ghost var z := MissingKey(m.Keys, 0x1_0000_0000);
    b, p := s, 0;
    Distances(s, z);
    BackOne(s);
    hide Wrap, Back;
    while b in m && !m[b].first
      invariant b == Back(s, p) && WalkedBack(m, s, p)
      invariant p <= Wrap(s - z)
      decreases Wrap(s - z) - p
    {
      b, p := Back(b, 1), p + 1;
    }
  }

  lemma BackOne(s: u32)
    ensures Back(s, 0) == s && Fwd(s, 0) == s
    ensures forall p: nat :: Back(Back(s, p), 1) == Back(s, p + 1)
    ensures forall p: nat :: Fwd(Fwd(s, p), 1) == Fwd(s, p + 1)
  {
    hide Wrap, Back, Fwd;
    forall p: nat
      ensures Back(Back(s, p), 1) == Back(s, p + 1)
      ensures Fwd(Fwd(s, p), 1) == Fwd(s, p + 1)
    {
      OneFurther(s, p);
    }
    NoStep(s);
  }

  lemma NoStep(s: u32)
    ensures Back(s, 0) == s && Fwd(s, 0) == s
  {
  }

  lemma OneFurther(s: u32, p: nat)
    ensures Back(Back(s, p), 1) == Back(s, p + 1) && Fwd(Fwd(s, p), 1) == Fwd(s, p + 1)
  {
    WrapSteps(s - p, 1);
    WrapSteps(s + p, 1);
    hide Wrap;
  }

  method WalkToLast(m: Buffer, s: u32) returns (e: u32, ghost q: nat)
    requires |m| < 0x1_0000_0000
    ensures e == Fwd(s, q) && WalkedFwd(m, s, q)
    ensures e in m ==> m[e].last
  {
    ghost var z := MissingKey(m.Keys, 0x1_0000_0000);
    e, q := s, 0;
    Distances(s, z);
    BackOne(s);
    hide Wrap, Fwd;
    while e in m && !m[e].last
      invariant e == Fwd(s, q) && WalkedFwd(m, s, q)
      invariant q <= Wrap(z - s)
      decreases Wrap(z - s) - q
    {
      e, q := Fwd(e, 1), q + 1;
    }
  }

  /** A walk that stopped on a buffered fragment found the end of the run; one that
      stopped on a hole proves there is none. */
  lemma WalksDecide(m: Buffer, s: u32, p: nat, q: nat)
    requires WalkedBack(m, s, p) && (Back(s, p) in m ==> m[Back(s, p)].first)
    ensures ReachesFirst(m, s, p) <==> Back(s, p) in m
    ensures forall p': nat :: ReachesFirst(m, s, p') ==> p' == p
    ensures WalkedFwd(m, s, q) && (Fwd(s, q) in m ==> m[Fwd(s, q)].last) ==>
              && (ReachesLast(m, s, q) <==> Fwd(s, q) in m)
              && (forall q': nat :: ReachesLast(m, s, q') ==> q' == q)
  {
    hide Wrap, Back, Fwd;
    forall p': nat | ReachesFirst(m, s, p') ensures p' == p {
      assert m[Back(s, p')].first;
      assert p <= p' ==> Back(s, p) in m;
    }
    if WalkedFwd(m, s, q) && (Fwd(s, q) in m ==> m[Fwd(s, q)].last) {
      forall q': nat | ReachesLast(m, s, q') ensures q' == q {
        assert m[Fwd(s, q')].last;
        assert q <= q' ==> Fwd(s, q) in m;
      }
    }
  }

  /** What the search yields, as a value. */
  datatype Reassembled = Reassembled(pack: Packet, begin: u32, count: nat, rest: Buffer)

  ghost function Lowest(m: Buffer): (k: u32)
    requires m != map[]
    ensures k in m && IsLowest(m, k)
  {
    LowestExists(m, 0x1_0000_0000);
    var k :| IsLowest(m, k);
    k
  }

  ghost predicate IsWhole(m: Buffer, s: u32, p: nat, q: nat) {
    s in m && HasRun(m, s, p, q) && RunPresent(m, Back(s, p), p + q + 1)
  }

  ghost function TakeRun(m: Buffer, s: u32, p: nat, q: nat): Reassembled
    requires IsWhole(m, s, p, q)
  {
    var n, b, low := p + q + 1, Back(s, p), m[Lowest(m)];
    Reassembled(Packet(low.id, low.relay, RunBytes(m, b, n)), b, n, m - RunKeys(b, n))
  }

  ghost function Reassemble(m: Buffer, s: u32): Option<Reassembled> {
    if exists p: nat, q: nat :: IsWhole(m, s, p, q) then
      var p: nat, q: nat :| IsWhole(m, s, p, q);
      Some(TakeRun(m, s, p, q))
    else
      None
  }

  /** Only one run can lie around a number, so any run found is the one reassembled. */
  lemma ReassembleIs(m: Buffer, s: u32, p: nat, q: nat)
    requires IsWhole(m, s, p, q)
    ensures Reassemble(m, s) == Some(TakeRun(m, s, p, q))
  {
    hide Wrap, Back, Fwd;
    forall p': nat, q': nat | IsWhole(m, s, p', q') ensures p' == p && q' == q {
      assert m[Back(s, p)].first && m[Back(s, p')].first;
      assert m[Fwd(s, q)].last && m[Fwd(s, q')].last;
    }
  }

  lemma RunIsWhole(m: Buffer, s: u32, p: nat, q: nat)
    requires |m| < 0x1_0000_0000 && HasRun(m, s, p, q)
    ensures IsWhole(m, s, p, q)
    ensures Wrap(1 + (Fwd(s, q) - Back(s, p))) == p + q + 1
  {
    RunSpan(m, s, p, q);
    BackOne(s);
    assert Back(s, 0) in m;
    hide HasRun, RunPresent;
    SpanIs(s, p, q);
    hide Wrap, Back, Fwd;
  }

  lemma SpanIs(s: u32, p: nat, q: nat)
    requires p + q + 1 < 0x1_0000_0000
    ensures Wrap(1 + (Fwd(s, q) - Back(s, p))) == p + q + 1
  {
    hide Wrap;
    WrapMinus(s + q, s - p);
    assert s + q - (s - p) == p + q;
    OneAbove(Fwd(s, q) - Back(s, p), p + q);
  }

  lemma OneAbove(x: int, n: nat)
    requires Wrap(x) == Wrap(n) && n + 1 < 0x1_0000_0000
    ensures Wrap(1 + x) == n + 1
  {
    hide Wrap;
    WrapSteps(x, 1);
    WrapSteps(n, 1);
    WrapSmall(n + 1);
    assert 1 + x == x + 1;
  }

  lemma NoRun(m: Buffer, s: u32)
    requires !exists p: nat, q: nat :: HasRun(m, s, p, q)
    ensures Reassemble(m, s) == None
  {
    forall p: nat, q: nat ensures !IsWhole(m, s, p, q) {
      assert !HasRun(m, s, p, q);
    }
  }

  lemma TakeRunIs(m: Buffer, s: u32, p: nat, q: nat, k: u32)
    requires IsWhole(m, s, p, q) && IsLowest(m, k)
    ensures RunPresent(m, Back(s, p), p + q + 1)
    ensures TakeRun(m, s, p, q) == Reassembled(Packet(m[k].id, m[k].relay, RunBytes(m, Back(s, p), p + q + 1)),
                                               Back(s, p), p + q + 1, m - RunKeys(Back(s, p), p + q + 1))
  {
    assert k == Lowest(m);
  }

  lemma RunFound(m: Buffer, s: u32, p: nat, q: nat, pack: Packet, rest: Buffer)
    requires |m| < 0x1_0000_0000 && HasRun(m, s, p, q)
    requires RunPresent(m, Back(s, p), p + q + 1)
    requires rest == m - RunKeys(Back(s, p), p + q + 1) && pack.payload == RunBytes(m, Back(s, p), p + q + 1)
    requires exists k :: IsLowest(m, k) && pack.id == m[k].id && pack.relay == m[k].relay
    ensures Reassemble(m, s) == Some(Reassembled(pack, Back(s, p), Wrap(1 + (Fwd(s, q) - Back(s, p))), rest))
  {
    hide Wrap, Back, Fwd, HasRun, RunPresent, RunBytes, RunKeys, Reassemble, IsWhole, TakeRun;
    RunIsWhole(m, s, p, q);
    ReassembleIs(m, s, p, q);
    var k :| IsLowest(m, k) && pack.id == m[k].id && pack.relay == m[k].relay;
    TakeRunIs(m, s, p, q, k);
  }

  /** Both walks stopped on the fragment they look for: that is the run, and the only one. */
  lemma OnlyRun(m: Buffer, s: u32, p: nat, q: nat)
    requires WalkedBack(m, s, p) && Back(s, p) in m && m[Back(s, p)].first
    requires WalkedFwd(m, s, q) && Fwd(s, q) in m && m[Fwd(s, q)].last
    ensures HasRun(m, s, p, q)
    ensures forall p': nat, q': nat :: HasRun(m, s, p', q') ==> p' == p && q' == q
  {
    WalksDecide(m, s, p, q);
    hide WalkedBack, WalkedFwd, ReachesFirst, ReachesLast;
  }

  /** One of them stopped on a hole: there is none. */
  lemma NoneFound(m: Buffer, s: u32, p: nat, q: nat)
    requires WalkedBack(m, s, p) && (Back(s, p) in m ==> m[Back(s, p)].first)
    requires Back(s, p) in m ==> WalkedFwd(m, s, q) && Fwd(s, q) !in m
    ensures forall p': nat, q': nat :: !HasRun(m, s, p', q')
    ensures Reassemble(m, s) == None
  {
    WalksDecide(m, s, p, q);
    hide WalkedBack, WalkedFwd, ReachesFirst, ReachesLast, Reassemble;
    assert forall p': nat, q': nat :: !HasRun(m, s, p', q');
    NoRun(m, s);
  }

  /** The search of the source: succeeds exactly when a run exists around `seq`, and then
      takes exactly that run out of the buffer. */
  method TryReassembleBigPacket(m: Buffer, s: u32)
    returns (found: bool, pack: Packet, b: u32, e: u32, rest: Buffer)
    requires |m| < 0x1_0000_0000
    ensures found <==> exists p: nat, q: nat :: HasRun(m, s, p, q)
    ensures !found ==> rest == m
    ensures forall p: nat, q: nat :: HasRun(m, s, p, q) ==>
              && p + q + 1 < 0x1_0000_0000
              && b == Back(s, p) && e == Fwd(s, q)
              && RunPresent(m, b, p + q + 1)
              && rest == m - RunKeys(b, p + q + 1)
              && pack.payload == RunBytes(m, b, p + q + 1)
    ensures found ==> exists k :: IsLowest(m, k) && pack.id == m[k].id && pack.relay == m[k].relay
    ensures Reassemble(m, s) == if found then Some(Reassembled(pack, b, Wrap(1 + (e - b)), rest)) else None
  {
    hide Wrap, Back, Fwd, HasRun, RunPresent, RunBytes, RunKeys, IsLowest, Reassemble, WalkedBack, WalkedFwd;
    pack, rest, e := Packet(0, false, []), m, s;
    ghost var p: nat, q: nat;
    b, p := WalkToFirst(m, s);
    found := false;
    q := 0;
    if b in m && m[b].first {
      e, q := WalkToLast(m, s);
      if e in m && m[e].last {
        OnlyRun(m, s, p, q);
        RunSpan(m, s, p, q);
        found := true;
        pack, rest := DefragmentPacket(m, b, e, p + q + 1);
        RunFound(m, s, p, q, pack, rest);
      }
    }
    if !found {
      NoneFound(m, s, p, q);
    }
  }
}
