/** When a message taken out of the fragment buffer is made of one packet's fragments, in any run
    whatsoever, however far the numbers have wrapped. */
module MixedBytes {
  import opened Seq32
  import opened Packets
  import opened Serialization
  import opened Reassembly
  import opened Numbering
  import opened Emissions
  import opened Channel
  import opened OrderedLink

  /** History: which fragment the receive thread has in its hand, and which fragment stands under each
      buffered number. */
  datatype Track = Track(hand: FragId, holders: map<u32, FragId>)

  ghost function TrackStep(c: Sys, t: Track, ev: Event): Track {
    match ev
    case Arrive(f) => if c.hand.Idle? && Issued(c.em, f) then t.(hand := f) else t
    case Insert =>
      if !c.hand.Passed? then t
      else
        var m := Channel.Insert(c.rcv, c.hand.d).fragments;
        t.(holders := map k | k in m :: if k in t.holders then t.holders[k] else t.hand)
    case _ => t
  }

  ghost function TrackOf(evs: seq<Event>): Track {
    if evs == [] then Track(FragId(0, 0), map[])
    else TrackStep(Run(evs[..|evs| - 1]), TrackOf(evs[..|evs| - 1]), evs[|evs| - 1])
  }

  // ---- what holds in every run

  ghost predicate Numbered(c: Sys) {
    Cuts(c.sent, c.em) && Stamped(c.em) && c.snd.next == Wrap(Total(c.em))
  }

  ghost predicate Fits(em: Emission, m: Buffer, holders: map<u32, FragId>) {
    && holders.Keys == m.Keys
    && forall k :: k in holders ==>
         Issued(em, holders[k]) && Key(em, holders[k]) == k && m[k] == At(em, holders[k]).frag
  }

  ghost predicate Tracked(c: Sys, t: Track) {
    && (!c.hand.Idle? ==> Issued(c.em, t.hand) && c.hand.d == At(c.em, t.hand))
    && Fits(c.em, c.rcv.fragments, t.holders)
  }

  lemma SendNumbered(c: Sys, p: Packet, size: nat)
    requires Numbered(c) && size > 0
    ensures Numbered(Step(c, Send(p, size)))
  {
    CutsAppend(c.sent, c.em, p, size, c.snd.next);
    StampedAppend(c.em, Fragments(p, size));
    WrapSteps(Total(c.em), |Fragments(p, size)|);
    hide Cuts, Stamped, Wrap, Fwd, Stamp, Fragments, Start;
  }

  lemma SendTracked(c: Sys, t: Track, p: Packet, size: nat)
    requires Tracked(c, t) && size > 0
    ensures Tracked(Step(c, Send(p, size)), t)
  {
    hide Stamp, Fragments;
  }

  /** An insert adds nothing to the buffer but the fragment in hand, and changes no entry. */
  lemma InsertAdds(r: Receiver, d: Datagram)
    ensures var m := Channel.Insert(r, d).fragments;
            forall k :: k in m ==> if k in r.fragments then m[k] == r.fragments[k] else k == d.seqNo && m[k] == d.frag
  {
    if d.seqNo !in r.fragments {
      RestIsPart(r.fragments[d.seqNo := d.frag], d.seqNo);
    }
    hide Reassemble;
  }

  lemma RestIsPart(m: Buffer, s: u32)
    ensures Reassemble(m, s).Some? ==> forall k :: k in Reassemble(m, s).value.rest ==>
              k in m && Reassemble(m, s).value.rest[k] == m[k]
  {
    hide IsWhole;
  }

  lemma StepTracked(c: Sys, t: Track, ev: Event)
    requires Numbered(c) && Tracked(c, t)
    ensures Numbered(Step(c, ev)) && Tracked(Step(c, ev), TrackStep(c, t, ev))
  {
    hide Numbered, IsSequenceNewer, Channel.Insert;
    match ev
    case Send(p, size) =>
      if size > 0 {
        SendNumbered(c, p, size);
        SendTracked(c, t, p, size);
      }
    case Insert =>
      if c.hand.Passed? {
        InsertAdds(c.rcv, c.hand.d);
      }
      SameNumbers(c, Step(c, ev));
    case _ => SameNumbers(c, Step(c, ev));
  }

  lemma SameNumbers(c: Sys, c': Sys)
    requires Numbered(c) && c'.sent == c.sent && c'.em == c.em && c'.snd.next == c.snd.next
    ensures Numbered(c')
  {
  }

  lemma {:induction false} RunTracked(evs: seq<Event>)
    ensures Numbered(Run(evs)) && Tracked(Run(evs), TrackOf(evs))
  {
    if evs != [] {
      RunTracked(evs[..|evs| - 1]);
      hide Numbered, Tracked, Step, TrackStep;
      StepTracked(Run(evs[..|evs| - 1]), TrackOf(evs[..|evs| - 1]), evs[|evs| - 1]);
    }
  }

  // ---- the message that an insert completes

  /** The datagram in hand completes the message x. */
  ghost predicate Completes(c: Sys, x: Reassembled) {
    && c.hand.Passed?
    && var d := c.hand.d;
       && !(d.frag.first && d.frag.last) && d.seqNo !in c.rcv.fragments
       && Reassemble(c.rcv.fragments[d.seqNo := d.frag], d.seqNo) == Some(x)
  }

  /** Before the insert: a fragment of another packet is buffered under a number of the packet whose
      fragment is in hand. */
  ghost predicate Meets(em: Emission, t: Track) {
    exists k, j :: k in t.holders && t.holders[k].msg != t.hand.msg
                   && Issued(em, FragId(t.hand.msg, j)) && Key(em, FragId(t.hand.msg, j)) == k
  }

  /** Every piece of the message belongs to the packet whose fragment is in hand. */
  ghost predicate FromOnePacket(all: map<u32, FragId>, msg: nat, x: Reassembled) {
    forall i :: 0 <= i < x.count ==> Fwd(x.begin, i) in all && all[Fwd(x.begin, i)].msg == msg
  }

  function Held(all: map<u32, FragId>): set<FragId> {
    set k | k in all :: all[k]
  }

  lemma FitsHolds(em: Emission, m: Buffer, all: map<u32, FragId>)
    requires Fits(em, m, all)
    ensures Holds(em, m, Held(all))
    ensures forall f :: f in Held(all) <==> Issued(em, f) && Key(em, f) in all && all[Key(em, f)] == f
  {
    forall k | k in m ensures Owned(em, Held(all), k) {
      assert all[k] in Held(all);
    }
  }

  lemma OwnKeysDiffer(em: Emission, f: FragId, g: FragId)
    requires Stamped(em) && Issued(em, f) && Issued(em, g) && f.msg == g.msg && |em[f.msg]| < 0x1_0000_0000
    requires Key(em, f) == Key(em, g)
    ensures f == g
  {
    hide Stamped, Wrap;
    KeyInjective(em, f, g, Start(em, f.msg));
  }

  /** What stands under a number of a packet, if it is of that packet at all, is the fragment with
      that number. */
  lemma OwnAt(em: Emission, m: Buffer, all: map<u32, FragId>, f: FragId)
    requires Stamped(em) && Fits(em, m, all) && Issued(em, f) && |em[f.msg]| < 0x1_0000_0000
    requires Key(em, f) in all && all[Key(em, f)].msg == f.msg
    ensures all[Key(em, f)] == f && f in Held(all)
  {
    hide Stamped;
    OwnKeysDiffer(em, all[Key(em, f)], f);
  }

  /** Where the run begins, the numbers of the walks are those of the message. */
  lemma NumbersOfWalk(em: Emission, f: FragId, p: nat, q: nat, j: nat)
    requires Stamped(em) && Issued(em, f) && j < |em[f.msg]| && f.part <= j + p && j <= f.part + q
    ensures Issued(em, FragId(f.msg, j)) && 0 <= j + p - f.part < p + q + 1
    ensures Key(em, FragId(f.msg, j)) == Fwd(Back(Key(em, f), p), j + p - f.part)
  {
    KeySteps(em, f, j);
    BackThenFwd(Key(em, f), p, j + p - f.part);
    BackOne(Key(em, f));
    hide Stamped, Wrap, Back, Fwd;
  }

  lemma OnePacketOwnsWalk(em: Emission, m: Buffer, all: map<u32, FragId>, f: FragId, p: nat, q: nat, x: Reassembled)
    requires Stamped(em) && Fits(em, m, all) && Issued(em, f) && |em[f.msg]| < 0x1_0000_0000
    requires x.begin == Back(Key(em, f), p) && x.count == p + q + 1 && FromOnePacket(all, f.msg, x)
    ensures WalkOwns(em, Held(all), f, p, q)
  {
    hide Stamped, Fits, Wrap, Back, Fwd, Held;
    forall j: nat | j < |em[f.msg]| && f.part <= j + p && j <= f.part + q ensures FragId(f.msg, j) in Held(all) {
      NumbersOfWalk(em, f, p, q, j);
      assert Fwd(x.begin, j + p - f.part) in all;
      OwnAt(em, m, all, FragId(f.msg, j));
    }
  }

  /** Nothing foreign stands under the packet's numbers. */
  ghost predicate Unmet(em: Emission, all: map<u32, FragId>, msg: nat) {
    forall j :: Issued(em, FragId(msg, j)) && Key(em, FragId(msg, j)) in all ==>
                  all[Key(em, FragId(msg, j))].msg == msg
  }

  lemma UnmetOwnsWalk(em: Emission, m: Buffer, all: map<u32, FragId>, f: FragId, p: nat, q: nat)
    requires Stamped(em) && Fits(em, m, all) && Issued(em, f) && |em[f.msg]| < 0x1_0000_0000
    requires Unmet(em, all, f.msg) && IsWhole(m, Key(em, f), p, q)
    ensures WalkOwns(em, Held(all), f, p, q)
  {
    hide Stamped, Wrap, Back, Fwd, Held, HasRun;
    forall j: nat | j < |em[f.msg]| && f.part <= j + p && j <= f.part + q ensures FragId(f.msg, j) in Held(all) {
      NumbersOfWalk(em, f, p, q, j);
      assert Fwd(Back(Key(em, f), p), j + p - f.part) in m;
      OwnAt(em, m, all, FragId(f.msg, j));
    }
  }

  /** A complete packet leaves no room for others under its numbers. */
  lemma CompleteIsUnmet(em: Emission, m: Buffer, all: map<u32, FragId>, msg: nat)
    requires Fits(em, m, all) && msg < |em| && Complete(em, Held(all), msg)
    ensures Unmet(em, all, msg)
  {
    FitsHolds(em, m, all);
    hide Held;
    forall j | Issued(em, FragId(msg, j)) ensures all[Key(em, FragId(msg, j))] == FragId(msg, j) {
      assert FragId(msg, j) in Held(all);
    }
  }

  lemma CompleteIsOnePacket(em: Emission, m: Buffer, all: map<u32, FragId>, f: FragId, x: Reassembled)
    requires Stamped(em) && Fits(em, m, all) && Issued(em, f) && Complete(em, Held(all), f.msg)
    requires x.begin == Back(Key(em, f), f.part) && x.count == |em[f.msg]|
    ensures FromOnePacket(all, f.msg, x)
  {
    FitsHolds(em, m, all);
    hide Stamped, Fits, Wrap, Back, Fwd, Held;
    forall i: nat | i < x.count ensures Fwd(x.begin, i) in all && all[Fwd(x.begin, i)].msg == f.msg {
      NumbersOfWalk(em, f, f.part, |em[f.msg]| - 1 - f.part, i);
      assert FragId(f.msg, i) in Held(all);
    }
  }

  /** The packet's own bytes. */
  lemma CompleteHasBytes(sent: seq<Packet>, em: Emission, m: Buffer, held: set<FragId>, f: FragId)
    requires Stamped(em) && Cuts(sent, em) && Holds(em, m, held) && Issued(em, f) && Complete(em, held, f.msg)
    ensures Issued(em, FragId(f.msg, 0)) && Back(Key(em, f), f.part) == Key(em, FragId(f.msg, 0))
    ensures RunPresent(m, Key(em, FragId(f.msg, 0)), |em[f.msg]|)
    ensures RunBytes(m, Key(em, FragId(f.msg, 0)), |em[f.msg]|) == sent[f.msg].payload
  {
    hide Wrap, Back, Fwd, Stamped, Cuts, Holds, RunBytes, RunPresent, Complete;
    AsManySent(sent, em);
    HeadIs(em, f);
    HeadHasBytes(sent, em, m, held, FragId(f.msg, 0));
  }

  lemma AsManySent(sent: seq<Packet>, em: Emission)
    requires Cuts(sent, em)
    ensures |sent| == |em|
  {
  }

  lemma HeadIs(em: Emission, f: FragId)
    requires Stamped(em) && Issued(em, f)
    ensures Issued(em, FragId(f.msg, 0)) && Back(Key(em, f), f.part) == Key(em, FragId(f.msg, 0))
  {
    hide Stamped, Wrap, Back;
    KeySteps(em, f, 0);
  }

  lemma HeadHasBytes(sent: seq<Packet>, em: Emission, m: Buffer, held: set<FragId>, head: FragId)
    requires Stamped(em) && Cuts(sent, em) && Holds(em, m, held) && Issued(em, head) && head.part == 0
    requires Complete(em, held, head.msg)
    ensures RunPresent(m, Key(em, head), |em[head.msg]|)
    ensures RunBytes(m, Key(em, head), |em[head.msg]|) == sent[head.msg].payload
  {
    hide Wrap, Fwd, Stamped, Cuts, Holds, RunBytes, Joined, Start, Complete;
    RunBytesAre(em, m, held, head, |em[head.msg]|);
    PacketBytes(sent, em, head.msg);
  }

  lemma TakenParts(m: Buffer, s: u32, p: nat, q: nat)
    requires IsWhole(m, s, p, q)
    ensures var x := TakeRun(m, s, p, q);
            && x.begin == Back(s, p) && x.count == p + q + 1
            && RunPresent(m, x.begin, x.count) && x.pack.payload == RunBytes(m, x.begin, x.count)
  {
  }

  ghost predicate IsSent(sent: seq<Packet>, em: Emission, msg: nat, x: Reassembled) {
    && Issued(em, FragId(msg, 0)) && msg < |sent|
    && x.begin == Head(em, msg) && x.count == |em[msg]| && x.pack.payload == sent[msg].payload
  }

  /** The heart of it, for any buffer whose entries are known. */
  lemma OwnExactlyWhen(sent: seq<Packet>, em: Emission, m: Buffer, all: map<u32, FragId>, f: FragId, p: nat, q: nat)
    requires Stamped(em) && Cuts(sent, em) && Fits(em, m, all) && Issued(em, f) && |em[f.msg]| < 0x1_0000_0000
    requires IsWhole(m, Key(em, f), p, q)
    ensures var x := TakeRun(m, Key(em, f), p, q);
            && (FromOnePacket(all, f.msg, x) <==> Unmet(em, all, f.msg))
            && (Unmet(em, all, f.msg) ==> IsSent(sent, em, f.msg, x))
  {
    var x := TakeRun(m, Key(em, f), p, q);
    TakenParts(m, Key(em, f), p, q);
    FitsHolds(em, m, all);
    hide Stamped, Cuts, Fits, Wrap, Back, Fwd, Held, FromOnePacket, Unmet, Holds, Complete, WalkOwns, RunBytes;
    hide RunPresent, TakeRun, HasRun, Start;
    if FromOnePacket(all, f.msg, x) || Unmet(em, all, f.msg) {
      if FromOnePacket(all, f.msg, x) {
        OnePacketOwnsWalk(em, m, all, f, p, q, x);
      } else {
        UnmetOwnsWalk(em, m, all, f, p, q);
      }
      OwnedRunIsComplete(sent, em, m, Held(all), f, p, q);
      CompleteIsUnmet(em, m, all, f.msg);
      CompleteIsOnePacket(em, m, all, f, x);
      CompleteHasBytes(sent, em, m, Held(all), f);
    }
  }

  // ---- any run

  lemma AllFits(c: Sys, t: Track)
    requires Tracked(c, t) && c.hand.Passed? && c.hand.d.seqNo !in c.rcv.fragments
    ensures Issued(c.em, t.hand) && Key(c.em, t.hand) == c.hand.d.seqNo
    ensures Fits(c.em, c.rcv.fragments[c.hand.d.seqNo := c.hand.d.frag], t.holders[c.hand.d.seqNo := t.hand])
  {
  }

  lemma MeetsIsMet(em: Emission, t: Track)
    requires Issued(em, t.hand) && Key(em, t.hand) !in t.holders
    ensures Meets(em, t) <==> !Unmet(em, t.holders[Key(em, t.hand) := t.hand], t.hand.msg)
  {
    var all := t.holders[Key(em, t.hand) := t.hand];
    if k, j :| k in t.holders && t.holders[k].msg != t.hand.msg
               && Issued(em, FragId(t.hand.msg, j)) && Key(em, FragId(t.hand.msg, j)) == k {
      assert all[Key(em, FragId(t.hand.msg, j))].msg != t.hand.msg;
    }
  }

  predicate FewParts(em: Emission, msg: nat) {
    msg < |em| ==> |em[msg]| < 0x1_0000_0000
  }

  lemma CompletedIs(c: Sys, x: Reassembled) returns (p: nat, q: nat)
    requires Completes(c, x)
    ensures var m, s := c.rcv.fragments[c.hand.d.seqNo := c.hand.d.frag], c.hand.d.seqNo;
            IsWhole(m, s, p, q) && x == TakeRun(m, s, p, q)
  {
    var m, s := c.rcv.fragments[c.hand.d.seqNo := c.hand.d.frag], c.hand.d.seqNo;
    hide IsWhole, TakeRun;
    p, q :| IsWhole(m, s, p, q);
    ReassembleIs(m, s, p, q);
  }

  /** In every run, whatever the numbers: when an insert completes a message, all its pieces are of the
      packet in hand exactly when no fragment of another packet stands under a number of that packet;
      and then what goes into the reorder queue has the numbers and the bytes of the packet sent. */
  lemma BytesAreOwnExactlyWhen(evs: seq<Event>, x: Reassembled)
    requires Completes(Run(evs), x)
    requires FewParts(Run(evs).em, TrackOf(evs).hand.msg)
    ensures var c, t := Run(evs), TrackOf(evs);
            && (FromOnePacket(t.holders[c.hand.d.seqNo := t.hand], t.hand.msg, x) <==> !Meets(c.em, t))
            && (!Meets(c.em, t) ==> IsSent(c.sent, c.em, t.hand.msg, x))
    ensures var c := Run(evs);
            Run(evs + [Insert]).rcv.order == AddEntry(c.rcv.order, x.begin, Entry(x.pack, Wrap(x.count)))
  {
    var c, t := Run(evs), TrackOf(evs);
    RunTracked(evs);
    RunSnoc(evs, Insert);
    AllFits(c, t);
    MeetsIsMet(c.em, t);
    var p, q := CompletedIs(c, x);
    QueuedIs(c, x);
    hide Run, TrackOf, Fits, FromOnePacket, Unmet, Meets, IsWhole, TakeRun, Reassemble, IsSent, Completes;
    OwnExactlyWhen(c.sent, c.em, c.rcv.fragments[c.hand.d.seqNo := c.hand.d.frag],
                   t.holders[c.hand.d.seqNo := t.hand], t.hand, p, q);
  }

  lemma QueuedIs(c: Sys, x: Reassembled)
    requires Completes(c, x)
    ensures Step(c, Insert).rcv.order == AddEntry(c.rcv.order, x.begin, Entry(x.pack, Wrap(x.count)))
  {
    hide Reassemble, AddEntry;
  }

  // ---- taken for a duplicate

  lemma SameKeyMeans(i: nat, k: nat)
    ensures Wrap(k) == Wrap(i) <==> (i - k) % 0x1_0000_0000 == 0
  {
    WrapMinus(i, k);
    assert Wrap(Wrap(i) - Wrap(k)) == (i - k) % 0x1_0000_0000;
  }

  /** The number of f is that of another fragment, issued a whole number of times 2^32 numbers away. */
  ghost predicate NumberReturns(em: Emission, held: set<FragId>, f: FragId) {
    exists g :: g in held && g != f && Issued(em, f) && Issued(em, g)
                && (Index(em, f) - Index(em, g)) % 0x1_0000_0000 == 0
  }

  /** A fragment that finds its number free changes the buffer. */
  lemma FreeIsNotIgnored(r: Receiver, d: Datagram)
    requires !(d.frag.first && d.frag.last) && d.seqNo !in r.fragments
    ensures Channel.Insert(r, d) != r
  {
    var m, s := r.fragments[d.seqNo := d.frag], d.seqNo;
    if p: nat, q: nat :| IsWhole(m, s, p, q) {
      ReassembleIs(m, s, p, q);
      OneMoreGoes(r.fragments, d, p, q);
      hide Reassemble, TakeRun, IsWhole;
    }
  }

  /** A run around a piece that is no whole message takes another piece with it. */
  lemma OneMoreGoes(was: Buffer, d: Datagram, p: nat, q: nat)
    requires !(d.frag.first && d.frag.last) && d.seqNo !in was
    requires IsWhole(was[d.seqNo := d.frag], d.seqNo, p, q)
    ensures TakeRun(was[d.seqNo := d.frag], d.seqNo, p, q).rest != was
  {
    var m, s := was[d.seqNo := d.frag], d.seqNo;
    BackOne(s);
    assert p + q > 0 by {
      assert m[Back(s, 0)].first <==> 0 == p;
      assert m[Fwd(s, 0)].last <==> 0 == q;
    }
    BackThenFwd(s, p, 0);
    BackThenFwd(s, p, p + q);
    var k := if p > 0 then Back(s, p) else Fwd(s, q);
    hide Wrap, Back, Fwd, HasRun;
    assert k in RunKeys(Back(s, p), p + q + 1) by {
      assert k == Fwd(Back(s, p), if p > 0 then 0 else p + q);
    }
  }

  /** In every run: a fragment that is not buffered, and is no whole message, is acked and then ignored
      exactly when the buffer holds another one issued a whole number of times 2^32 numbers away from
      it. One that is buffered is ignored, too. */
  lemma TakenForDuplicateExactlyWhen(evs: seq<Event>)
    requires Run(evs).hand.Passed? && !(Run(evs).hand.d.frag.first && Run(evs).hand.d.frag.last)
    ensures var c, t := Run(evs), TrackOf(evs);
            && (t.hand in Held(t.holders) ==> Run(evs + [Insert]).rcv == c.rcv)
            && (t.hand !in Held(t.holders) ==>
                  (Run(evs + [Insert]).rcv == c.rcv <==> NumberReturns(c.em, Held(t.holders), t.hand)))
  {
    var c, t := Run(evs), TrackOf(evs);
    RunTracked(evs);
    RunSnoc(evs, Insert);
    IgnoredWhen(c);
    HandIs(c, t);
    hide Run, TrackOf, Step, Fits, Held, Key, NumberReturns;
    BufferedExactlyWhen(c.em, c.rcv.fragments, t.holders, t.hand);
  }

  lemma HandIs(c: Sys, t: Track)
    requires Tracked(c, t) && c.hand.Passed?
    ensures Issued(c.em, t.hand) && Key(c.em, t.hand) == c.hand.d.seqNo && Fits(c.em, c.rcv.fragments, t.holders)
  {
  }

  lemma BufferedExactlyWhen(em: Emission, m: Buffer, all: map<u32, FragId>, f: FragId)
    requires Stamped(em) && Fits(em, m, all) && Issued(em, f)
    ensures f in Held(all) ==> Key(em, f) in m
    ensures f !in Held(all) ==> (Key(em, f) in m <==> NumberReturns(em, Held(all), f))
  {
    FitsHolds(em, m, all);
    forall g | Issued(em, g)
      ensures Key(em, g) == Key(em, f) <==> (Index(em, f) - Index(em, g)) % 0x1_0000_0000 == 0
    {
      SameKeyMeans(Index(em, f), Index(em, g));
    }
    hide Wrap, Index, Stamped, Held;
    if Key(em, f) in m {
      assert all[Key(em, f)] in Held(all);
    }
  }

  lemma IgnoredWhen(c: Sys)
    requires c.hand.Passed? && !(c.hand.d.frag.first && c.hand.d.frag.last)
    ensures Step(c, Insert).rcv == c.rcv <==> c.hand.d.seqNo in c.rcv.fragments
  {
    if c.hand.d.seqNo !in c.rcv.fragments {
      FreeIsNotIgnored(c.rcv, c.hand.d);
    }
    hide Reassemble;
  }
}
