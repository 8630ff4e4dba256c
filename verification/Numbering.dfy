/** True, unbounded numbers behind the 32-bit ones: which fragment of which sent packet. */
module Numbering {
  import opened Seq32
  import opened Packets
  import opened Reassembly

  datatype FragId = FragId(msg: nat, part: nat)

  /** Everything a channel ever emitted: per sent packet, its stamped fragments. */
  type Emission = seq<seq<Datagram>>

  predicate Issued(em: Emission, f: FragId) {
    f.msg < |em| && f.part < |em[f.msg]|
  }

  function At(em: Emission, f: FragId): Datagram
    requires Issued(em, f)
  {
    em[f.msg][f.part]
  }

  function Key(em: Emission, f: FragId): u32
    requires Issued(em, f)
  {
    At(em, f).seqNo
  }

  /** How many fragments were issued before packet number m. */
  function Start(em: Emission, m: nat): nat
    requires m <= |em|
  {
    if m == 0 then 0 else Start(em, m - 1) + |em[m - 1]|
  }

  function Total(em: Emission): nat {
    Start(em, |em|)
  }

  function Index(em: Emission, f: FragId): nat
    requires Issued(em, f)
  {
    Start(em, f.msg) + f.part
  }

  /** Each datagram carries the wrapped number of its place in the stream. */
  ghost predicate Stamped(em: Emission) {
    forall f :: Issued(em, f) ==> Key(em, f) == Wrap(Index(em, f))
  }

  function Frags(ds: seq<Datagram>): (fs: seq<Fragment>)
    ensures |fs| == |ds|
  {
    seq(|ds|, i requires 0 <= i < |ds| => ds[i].frag)
  }

  /** Each emission is a cut of the packet that was sent. */
  ghost predicate Cuts(sent: seq<Packet>, em: Emission) {
    && |sent| == |em|
    && forall m :: 0 <= m < |sent| ==> IsCut(sent[m], Frags(em[m]))
  }

  ghost predicate Within(em: Emission, f: FragId, lo: int) {
    Issued(em, f) && lo <= Index(em, f) < lo + 0x1_0000_0000
  }

  lemma {:induction false} StartMonotone(em: Emission, m: nat, m': nat)
    requires m < m' <= |em|
    ensures Start(em, m) + |em[m]| <= Start(em, m')
  {
    if m < m' - 1 {
      StartMonotone(em, m, m' - 1);
    }
  }

  lemma {:induction false} StartAppend(em: Emission, ds: seq<Datagram>, m: nat)
    requires m <= |em|
    ensures Start(em + [ds], m) == Start(em, m)
  {
    if m > 0 {
      StartAppend(em, ds, m - 1);
      assert (em + [ds])[m - 1] == em[m - 1];
    }
  }

  lemma IndexInjective(em: Emission, f: FragId, g: FragId)
    requires Issued(em, f) && Issued(em, g) && Index(em, f) == Index(em, g)
    ensures f == g
  {
    if f.msg < g.msg {
      StartMonotone(em, f.msg, g.msg);
    } else if g.msg < f.msg {
      StartMonotone(em, g.msg, f.msg);
    }
  }

  lemma IndexBelowTotal(em: Emission, f: FragId)
    requires Issued(em, f)
    ensures Index(em, f) < Start(em, f.msg) + |em[f.msg]| <= Total(em)
  {
    StartMonotone(em, f.msg, |em|);
  }

  /** Inside one span of 2^32 numbers, a wrapped key names one fragment. */
  lemma KeyInjective(em: Emission, f: FragId, g: FragId, lo: int)
    requires Stamped(em) && Within(em, f, lo) && Within(em, g, lo) && Key(em, f) == Key(em, g)
    ensures f == g
  {
    WrapInjective(lo, Index(em, f), Index(em, g));
    IndexInjective(em, f, g);
  }

  /** Walking from a fragment inside its own packet is walking over keys. */
  lemma KeySteps(em: Emission, f: FragId, j: nat)
    requires Stamped(em) && Issued(em, f) && j < |em[f.msg]|
    ensures Key(em, FragId(f.msg, j)) ==
            if j <= f.part then Back(Key(em, f), f.part - j) else Fwd(Key(em, f), j - f.part)
  {
    var g := FragId(f.msg, j);
    assert Issued(em, g) && Index(em, g) == Index(em, f) + j - f.part;
    WrapSteps(Index(em, f), if j <= f.part then f.part - j else j - f.part);
  }

  lemma IssuedAppend(em: Emission, ds: seq<Datagram>, f: FragId)
    requires Issued(em, f)
    ensures Issued(em + [ds], f) && At(em + [ds], f) == At(em, f) && Index(em + [ds], f) == Index(em, f)
  {
    StartAppend(em, ds, f.msg);
  }

  // ---- fragment buffers

  /** The buffer holds exactly the fragments named in `held`. */
  ghost predicate Holds(em: Emission, m: Buffer, held: set<FragId>) {
    && (forall f :: f in held ==> Issued(em, f) && Key(em, f) in m && m[Key(em, f)] == At(em, f).frag)
    && (forall k :: k in m ==> Owned(em, held, k))
  }

  ghost predicate Owned(em: Emission, held: set<FragId>, k: u32) {
    exists f :: f in held && Issued(em, f) && Key(em, f) == k
  }

  ghost predicate Complete(em: Emission, held: set<FragId>, msg: nat)
    requires msg < |em|
  {
    forall j :: 0 <= j < |em[msg]| ==> FragId(msg, j) in held
  }

  /** All of `held` and the whole of packet `msg` lie within one span of 2^32 numbers. */
  ghost predicate Roomy(em: Emission, held: set<FragId>, msg: nat, lo: int) {
    && msg < |em|
    && lo <= Start(em, msg)
    && Start(em, msg) + |em[msg]| <= lo + 0x1_0000_0000
    && forall f :: f in held ==> Within(em, f, lo)
  }

  /** In such a span, a key of packet `msg` is buffered just when that very fragment is held. */
  lemma HeldIffBuffered(em: Emission, m: Buffer, held: set<FragId>, f: FragId, lo: int)
    requires Stamped(em) && Holds(em, m, held) && Issued(em, f) && Roomy(em, held, f.msg, lo)
    ensures Key(em, f) in m <==> f in held
  {
    if Key(em, f) in m {
      assert Owned(em, held, Key(em, f));
      var g :| g in held && Issued(em, g) && Key(em, g) == Key(em, f);
      KeyInjective(em, f, g, lo);
    }
  }

  /** What the buffer holds at a key of a held fragment. */
  lemma PartAt(sent: seq<Packet>, em: Emission, m: Buffer, held: set<FragId>, g: FragId)
    requires Stamped(em) && Cuts(sent, em) && Holds(em, m, held) && g in held
    ensures Key(em, g) in m && m[Key(em, g)] == At(em, g).frag
    ensures m[Key(em, g)].first <==> g.part == 0
    ensures m[Key(em, g)].last <==> g.part == |em[g.msg]| - 1
  {
    hide Wrap;
    assert IsCut(sent[g.msg], Frags(em[g.msg]));
    assert Frags(em[g.msg])[g.part] == At(em, g).frag;
  }

  lemma PartBack(sent: seq<Packet>, em: Emission, m: Buffer, held: set<FragId>, f: FragId, i: nat)
    requires Stamped(em) && Cuts(sent, em) && Holds(em, m, held) && Issued(em, f)
    requires i <= f.part && FragId(f.msg, f.part - i) in held
    ensures Back(Key(em, f), i) in m && (m[Back(Key(em, f), i)].first <==> i == f.part)
  {
    KeySteps(em, f, f.part - i);
    PartAt(sent, em, m, held, FragId(f.msg, f.part - i));
  }

  lemma PartFwd(sent: seq<Packet>, em: Emission, m: Buffer, held: set<FragId>, f: FragId, i: nat)
    requires Stamped(em) && Cuts(sent, em) && Holds(em, m, held) && Issued(em, f)
    requires f.part + i < |em[f.msg]| && FragId(f.msg, f.part + i) in held
    ensures Fwd(Key(em, f), i) in m && (m[Fwd(Key(em, f), i)].last <==> f.part + i == |em[f.msg]| - 1)
  {
    KeySteps(em, f, f.part + i);
    BackOne(Key(em, f));
    PartAt(sent, em, m, held, FragId(f.msg, f.part + i));
  }

  /** A complete packet is a run of the buffer, from its first key on. */
  lemma CompleteIsRun(sent: seq<Packet>, em: Emission, m: Buffer, held: set<FragId>, f: FragId)
    requires Stamped(em) && Cuts(sent, em) && Holds(em, m, held) && Issued(em, f)
    requires Complete(em, held, f.msg)
    ensures IsWhole(m, Key(em, f), f.part, |em[f.msg]| - 1 - f.part)
  {
    var s := Key(em, f);
    BackOne(s);
    assert ReachesFirst(m, s, f.part) by {
      forall i: nat | i <= f.part ensures Back(s, i) in m && (m[Back(s, i)].first <==> i == f.part) {
        PartBack(sent, em, m, held, f, i);
      }
    }
    assert ReachesLast(m, s, |em[f.msg]| - 1 - f.part) by {
      forall i: nat | i <= |em[f.msg]| - 1 - f.part
        ensures Fwd(s, i) in m && (m[Fwd(s, i)].last <==> f.part + i == |em[f.msg]| - 1)
      {
        PartFwd(sent, em, m, held, f, i);
      }
    }
    hide Wrap, Back, Fwd;
    forall i: nat | i < |em[f.msg]| ensures Fwd(Back(s, f.part), i) in m {
      BackThenFwd(s, f.part, i);
      if i <= f.part {
        PartBack(sent, em, m, held, f, f.part - i);
      } else {
        PartFwd(sent, em, m, held, f, i - f.part);
      }
    }
  }

  /** A walk back over a packet's own keys visits that packet's own fragments. */
  lemma WalkedIsHeld(em: Emission, m: Buffer, held: set<FragId>, f: FragId, j: nat, lo: int)
    requires Stamped(em) && Holds(em, m, held) && Issued(em, f) && Roomy(em, held, f.msg, lo)
    requires j < |em[f.msg]|
    requires (if j <= f.part then Back(Key(em, f), f.part - j) else Fwd(Key(em, f), j - f.part)) in m
    ensures FragId(f.msg, j) in held
  {
    KeySteps(em, f, j);
    HeldIffBuffered(em, m, held, FragId(f.msg, j), lo);
  }

  /** Wherever the two walks from f pass a number of its packet, that very fragment is held. */
  ghost predicate WalkOwns(em: Emission, held: set<FragId>, f: FragId, p: nat, q: nat) {
    && Issued(em, f)
    && (forall j :: 0 <= j <= f.part <= j + p ==> FragId(f.msg, j) in held)
    && (forall j :: f.part <= j < |em[f.msg]| && j <= f.part + q ==> FragId(f.msg, j) in held)
  }

  lemma BackEndsAtStart(sent: seq<Packet>, em: Emission, m: Buffer, held: set<FragId>, f: FragId, p: nat, q: nat)
    requires Stamped(em) && Cuts(sent, em) && Holds(em, m, held)
    requires WalkOwns(em, held, f, p, q) && ReachesFirst(m, Key(em, f), p)
    ensures p == f.part
  {
    hide Wrap, Back, Fwd, Stamped, Cuts, Holds;
    var i := if p <= f.part then p else f.part;
    PartBack(sent, em, m, held, f, i);
    assert m[Back(Key(em, f), i)].first <==> i == p;
  }

  lemma FwdEndsAtLast(sent: seq<Packet>, em: Emission, m: Buffer, held: set<FragId>, f: FragId, p: nat, q: nat)
    requires Stamped(em) && Cuts(sent, em) && Holds(em, m, held)
    requires WalkOwns(em, held, f, p, q) && ReachesLast(m, Key(em, f), q)
    ensures f.part + q == |em[f.msg]| - 1
  {
    hide Wrap, Back, Fwd, Stamped, Cuts, Holds;
    var i := if f.part + q < |em[f.msg]| then q else |em[f.msg]| - 1 - f.part;
    PartFwd(sent, em, m, held, f, i);
    assert m[Fwd(Key(em, f), i)].last <==> i == q;
  }

  /** Then the run is that packet, whole. */
  lemma OwnedRunIsComplete(sent: seq<Packet>, em: Emission, m: Buffer, held: set<FragId>, f: FragId, p: nat, q: nat)
    requires Stamped(em) && Cuts(sent, em) && Holds(em, m, held)
    requires WalkOwns(em, held, f, p, q) && HasRun(m, Key(em, f), p, q)
    ensures p == f.part && f.part + q == |em[f.msg]| - 1 && Complete(em, held, f.msg)
  {
    hide Wrap, Back, Fwd, Stamped, Cuts, Holds, ReachesFirst, ReachesLast;
    BackEndsAtStart(sent, em, m, held, f, p, q);
    FwdEndsAtLast(sent, em, m, held, f, p, q);
  }

  lemma RoomyOwns(em: Emission, m: Buffer, held: set<FragId>, f: FragId, lo: int, p: nat, q: nat)
    requires Stamped(em) && Holds(em, m, held) && Issued(em, f) && Roomy(em, held, f.msg, lo)
    requires HasRun(m, Key(em, f), p, q)
    ensures WalkOwns(em, held, f, p, q)
  {
    hide Wrap, Back, Fwd, Stamped, Holds, Roomy;
    forall j: nat | j <= f.part <= j + p ensures FragId(f.msg, j) in held {
      assert Back(Key(em, f), f.part - j) in m;
      WalkedIsHeld(em, m, held, f, j, lo);
    }
    forall j: nat | f.part <= j < |em[f.msg]| && j <= f.part + q ensures FragId(f.msg, j) in held {
      assert Fwd(Key(em, f), j - f.part) in m;
      if f.part < j {
        WalkedIsHeld(em, m, held, f, j, lo);
      } else {
        assert Back(Key(em, f), 0) in m;
        WalkedIsHeld(em, m, held, f, j, lo);
      }
    }
  }

  /** The search around a held fragment succeeds exactly when its packet is complete. */
  lemma RunIffComplete(sent: seq<Packet>, em: Emission, m: Buffer, held: set<FragId>, f: FragId, lo: int)
    requires Stamped(em) && Cuts(sent, em) && Holds(em, m, held) && f in held && Roomy(em, held, f.msg, lo)
    requires Issued(em, f)
    ensures Reassemble(m, Key(em, f)).Some? <==> Complete(em, held, f.msg)
    ensures Complete(em, held, f.msg) ==>
              && IsWhole(m, Key(em, f), f.part, |em[f.msg]| - 1 - f.part)
              && Reassemble(m, Key(em, f)) == Some(TakeRun(m, Key(em, f), f.part, |em[f.msg]| - 1 - f.part))
  {
    if Complete(em, held, f.msg) {
      CompleteIsRun(sent, em, m, held, f);
      ReassembleIs(m, Key(em, f), f.part, |em[f.msg]| - 1 - f.part);
    } else if p: nat, q: nat :| IsWhole(m, Key(em, f), p, q) {
      RunIsComplete(sent, em, m, held, f, lo, p, q);
    }
  }

  lemma RunIsComplete(sent: seq<Packet>, em: Emission, m: Buffer, held: set<FragId>, f: FragId, lo: int, p: nat, q: nat)
    requires Stamped(em) && Cuts(sent, em) && Holds(em, m, held) && Roomy(em, held, f.msg, lo)
    requires Issued(em, f) && IsWhole(m, Key(em, f), p, q)
    ensures Complete(em, held, f.msg)
  {
    hide Wrap, Back, Fwd, Stamped, Cuts, Holds, Roomy, WalkOwns, HasRun, RunPresent, Complete;
    RoomyOwns(em, m, held, f, lo, p, q);
    OwnedRunIsComplete(sent, em, m, held, f, p, q);
  }

  /** The bytes of the first n fragments of a held packet. */
  lemma {:induction false} RunBytesAre(em: Emission, m: Buffer, held: set<FragId>, f: FragId, n: nat)
    requires Stamped(em) && Holds(em, m, held) && Issued(em, f) && f.part == 0 && n <= |em[f.msg]|
    requires Complete(em, held, f.msg)
    ensures RunPresent(m, Key(em, f), n)
    ensures RunBytes(m, Key(em, f), n) == Joined(Frags(em[f.msg])[..n])
  {
    hide Wrap, Fwd;
    forall i: nat | i < n ensures Fwd(Key(em, f), i) in m && m[Fwd(Key(em, f), i)] == em[f.msg][i].frag {
      KeySteps(em, f, i);
      BackOne(Key(em, f));
      assert FragId(f.msg, i) in held;
    }
    if n > 0 {
      RunBytesAre(em, m, held, f, n - 1);
      var fs := Frags(em[f.msg]);
      assert fs[..n][..n - 1] == fs[..n - 1];
    }
  }

  /** The fragments of other packets. */
  function Others(held: set<FragId>, msg: nat): set<FragId> {
    set g | g in held && g.msg != msg
  }

  lemma RunKeysAre(em: Emission, f: FragId, k: u32)
    requires Stamped(em) && Issued(em, f) && f.part == 0
    ensures k in RunKeys(Key(em, f), |em[f.msg]|) <==>
            exists j :: 0 <= j < |em[f.msg]| && Key(em, FragId(f.msg, j)) == k
  {
    BackOne(Key(em, f));
    hide Wrap, Fwd;
    forall j | 0 <= j < |em[f.msg]| ensures Key(em, FragId(f.msg, j)) == Fwd(Key(em, f), j) {
      KeySteps(em, f, j);
    }
  }

  /** Erasing the run of a complete packet leaves exactly the other packets' fragments. */
  lemma RunErased(em: Emission, m: Buffer, held: set<FragId>, f: FragId, lo: int)
    requires Stamped(em) && Holds(em, m, held) && Issued(em, f) && f.part == 0 && Roomy(em, held, f.msg, lo)
    requires Complete(em, held, f.msg)
    ensures Holds(em, m - RunKeys(Key(em, f), |em[f.msg]|), Others(held, f.msg))
  {
    var run, rest := RunKeys(Key(em, f), |em[f.msg]|), m - RunKeys(Key(em, f), |em[f.msg]|);
    hide Wrap, RunKeys;
    forall g | g in Others(held, f.msg) ensures Key(em, g) in rest {
      RunKeysAre(em, f, Key(em, g));
      if j :| 0 <= j < |em[f.msg]| && Key(em, FragId(f.msg, j)) == Key(em, g) {
        assert FragId(f.msg, j) in held;
        KeyInjective(em, FragId(f.msg, j), g, lo);
      }
    }
    forall k | k in rest ensures Owned(em, Others(held, f.msg), k) {
      assert Owned(em, held, k);
      var g :| g in held && Issued(em, g) && Key(em, g) == k;
      RunKeysAre(em, f, k);
      assert g.msg == f.msg ==> FragId(f.msg, g.part) == g;
    }
  }

  /** A reassembled packet `msg` as it should be: its own numbers and bytes, the id and relay
      flag of the packet that owns `donor`, and everyone else's fragments left in the buffer. */
  ghost predicate IsOwnRun(sent: seq<Packet>, em: Emission, held: set<FragId>, msg: nat, x: Reassembled,
                           donor: FragId) {
    && Issued(em, FragId(msg, 0)) && msg < |sent| && donor.msg < |sent|
    && x.begin == Key(em, FragId(msg, 0))
    && x.count == |em[msg]|
    && x.pack == Packet(sent[donor.msg].id, sent[donor.msg].relay, sent[msg].payload)
    && Holds(em, x.rest, Others(held, msg))
  }

  lemma RunOfHead(sent: seq<Packet>, em: Emission, m: Buffer, held: set<FragId>, head: FragId, lo: int)
    requires Stamped(em) && Cuts(sent, em) && Holds(em, m, held) && Roomy(em, held, head.msg, lo)
    requires Issued(em, head) && head.part == 0 && Complete(em, held, head.msg)
    ensures RunPresent(m, Key(em, head), |em[head.msg]|)
    ensures RunBytes(m, Key(em, head), |em[head.msg]|) == sent[head.msg].payload
    ensures Holds(em, m - RunKeys(Key(em, head), |em[head.msg]|), Others(held, head.msg))
  {
    hide Wrap, Fwd, Stamped, Cuts, Holds, Roomy, RunBytes, RunKeys, Joined, Others, Start, Complete;
    RunBytesAre(em, m, held, head, |em[head.msg]|);
    RunErased(em, m, held, head, lo);
    PacketBytes(sent, em, head.msg);
  }

  lemma RunAroundHead(sent: seq<Packet>, em: Emission, m: Buffer, held: set<FragId>, f: FragId, lo: int)
    requires Stamped(em) && Cuts(sent, em) && Holds(em, m, held) && f in held && Roomy(em, held, f.msg, lo)
    requires Issued(em, f) && Complete(em, held, f.msg)
    ensures |sent| == |em| && Issued(em, FragId(f.msg, 0)) && Back(Key(em, f), f.part) == Key(em, FragId(f.msg, 0))
    ensures RunPresent(m, Key(em, FragId(f.msg, 0)), |em[f.msg]|)
    ensures RunBytes(m, Key(em, FragId(f.msg, 0)), |em[f.msg]|) == sent[f.msg].payload
    ensures Holds(em, m - RunKeys(Key(em, FragId(f.msg, 0)), |em[f.msg]|), Others(held, f.msg))
  {
    assert |sent| == |em| && Issued(em, FragId(f.msg, 0));
    hide Wrap, Back, Fwd, Stamped, Cuts, Holds, Roomy, Others, Start, Complete, RunBytes, RunKeys, RunPresent;
    KeySteps(em, f, 0);
    RunOfHead(sent, em, m, held, FragId(f.msg, 0), lo);
  }

  /** What the search hands over when a packet is complete. Id and relay flag are those of the
      packet that owns the lowest key in the buffer, which need not be the same packet. */
  lemma Reassembles(sent: seq<Packet>, em: Emission, m: Buffer, held: set<FragId>, f: FragId, lo: int)
    returns (x: Reassembled, donor: FragId)
    requires Stamped(em) && Cuts(sent, em) && Holds(em, m, held) && f in held && Roomy(em, held, f.msg, lo)
    requires Issued(em, f) && Complete(em, held, f.msg)
    ensures Reassemble(m, Key(em, f)) == Some(x)
    ensures donor in held && Issued(em, donor) && IsLowest(m, Key(em, donor))
    ensures IsOwnRun(sent, em, held, f.msg, x, donor)
  {
    hide Wrap, Back, Fwd, Stamped, Cuts, Holds, Roomy, Reassemble, Others, Start, IsLowest, Complete, RunBytes, RunKeys,
      HasRun, RunPresent;
    RunAroundHead(sent, em, m, held, f, lo);
    var s, q := Key(em, f), |em[f.msg]| - 1 - f.part;
    CompleteIsRun(sent, em, m, held, f);
    ReassembleIs(m, s, f.part, q);
    x := TakeRun(m, s, f.part, q);
    donor := OwnerOf(sent, em, m, held, Lowest(m));
  }

  lemma PacketBytes(sent: seq<Packet>, em: Emission, msg: nat)
    requires Cuts(sent, em) && msg < |em|
    ensures Joined(Frags(em[msg])[..|em[msg]|]) == sent[msg].payload
  {
    assert Frags(em[msg])[..|em[msg]|] == Frags(em[msg]);
    assert IsCut(sent[msg], Frags(em[msg]));
  }

  lemma OwnerOf(sent: seq<Packet>, em: Emission, m: Buffer, held: set<FragId>, k: u32) returns (g: FragId)
    requires Cuts(sent, em) && Holds(em, m, held) && k in m
    ensures g in held && Issued(em, g) && Key(em, g) == k
    ensures m[k].id == sent[g.msg].id && m[k].relay == sent[g.msg].relay
  {
    assert Owned(em, held, k);
    g :| g in held && Issued(em, g) && Key(em, g) == k;
    assert IsCut(sent[g.msg], Frags(em[g.msg]));
    assert Frags(em[g.msg])[g.part] == At(em, g).frag;
  }
}
