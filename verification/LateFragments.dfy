/** Late copies of all the fragments of one packet on an unreliable channel: when they are put together
    and the packet is delivered again. */
module LateFragments {
  import opened Seq32
  import opened Reassembly
  import opened Numbering
  import opened Emissions
  import opened Unreliable

  /** Fragments of packet m come in, one after the other. */
  ghost function Arrivals(s: Sys, m: nat, parts: seq<nat>): Sys {
    if parts == [] then s else Step(Arrivals(s, m, parts[..|parts| - 1]), Arrive(FragId(m, parts[|parts| - 1])))
  }

  /** Every one of n fragments, each once, in any order. */
  ghost predicate EachOnce(parts: seq<nat>, n: nat) {
    && (forall j :: j in parts ==> j < n)
    && (forall j :: 0 <= j < n ==> j in parts)
    && (forall i, k :: 0 <= i < k < |parts| ==> parts[i] != parts[k])
  }

  predicate IsLate(s: Sys, m: nat, j: nat) {
    NextPacket(s) <= |s.em| && Issued(s.em, FragId(m, j)) && CountsAsLate(Lateness(s, FragId(m, j)))
  }

  /** The fragments that are let in. */
  function LetIn(s: Sys, m: nat, parts: seq<nat>): set<FragId> {
    set j | j in parts && !IsLate(s, m, j) :: FragId(m, j)
  }

  /** Nothing has happened yet but that fragments were buffered. */
  ghost predicate Gathered(s: Sys, s': Sys, m: nat, parts: seq<nat>) {
    && s'.em == s.em && s'.sent == s.sent && s'.polled == s.polled
    && s'.rcv.next == s.rcv.next && s'.rcv.queue == s.rcv.queue
    && Holds(s.em, s'.rcv.fragments, LetIn(s, m, parts))
  }

  /** A packet of several fragments, numbered as in any run. */
  ghost predicate IsSplit(s: Sys, m: nat) {
    Numbered(s) && m < |s.em| && 2 <= |s.em[m]| < 0x1_0000_0000
  }

  lemma LetInNext(s: Sys, m: nat, parts: seq<nat>, j: nat)
    ensures LetIn(s, m, parts + [j]) == LetIn(s, m, parts) + if IsLate(s, m, j) then {} else {FragId(m, j)}
  {
    hide IsLate;
  }

  lemma OwnRoom(s: Sys, m: nat, held: set<FragId>)
    requires m < |s.em| && |s.em[m]| < 0x1_0000_0000
    requires forall f :: f in held ==> f.msg == m && Issued(s.em, f)
    ensures Roomy(s.em, held, m, Start(s.em, m))
  {
  }

  lemma LetInAre(s: Sys, m: nat, parts: seq<nat>)
    requires m < |s.em| && forall j :: j in parts ==> j < |s.em[m]|
    ensures forall f :: f in LetIn(s, m, parts) ==> f.msg == m && f.part in parts && Issued(s.em, f)
  {
    hide IsLate;
  }

  lemma SameNext(s: Sys, s': Sys, m: nat, parts: seq<nat>, j: nat)
    requires IsSplit(s, m) && j < |s.em[m]| && Gathered(s, s', m, parts)
    ensures IsSequenceNewer(Key(s.em, FragId(m, j)), s'.rcv.next) <==> !IsLate(s, m, j)
  {
    RefusedExactlyWhen(s, FragId(m, j));
    hide IsSequenceNewer, CountsAsLate, Lateness, Holds, Cuts, Stamped;
  }

  lemma LateIsRefused(s: Sys, s': Sys, m: nat, parts: seq<nat>, j: nat)
    requires IsSplit(s, m) && j < |s.em[m]| && Gathered(s, s', m, parts) && IsLate(s, m, j)
    ensures Gathered(s, Step(s', Arrive(FragId(m, j))), m, parts + [j])
  {
    SameNext(s, s', m, parts, j);
    LetInNext(s, m, parts, j);
    hide IsSequenceNewer, IsLate, Numbered, Holds, LetIn, Remaining;
    assert LetIn(s, m, parts + [j]) == LetIn(s, m, parts);
  }

  /** What a fragment that is let in does to the inbox. */
  lemma Buffers(s: Sys, r: Inbox, m: nat, held: set<FragId>, f: FragId)
    requires IsSplit(s, m) && Holds(s.em, r.fragments, held) && f.msg == m && Issued(s.em, f) && f !in held
    requires forall g :: g in held ==> g.msg == m && Issued(s.em, g)
    requires IsSequenceNewer(Key(s.em, f), r.next)
    ensures var buf, r' := r.fragments[Key(s.em, f) := At(s.em, f).frag], Receive(r, At(s.em, f));
            && Holds(s.em, buf, held + {f})
            && (!Complete(s.em, held + {f}, m) ==> r' == r.(fragments := buf))
            && (Complete(s.em, held + {f}, m) ==> m < |s.sent| && r'.queue == r.queue + [s.sent[m]])
  {
    var buf, lo := r.fragments[Key(s.em, f) := At(s.em, f).frag], Start(s.em, m);
    OwnRoom(s, m, held);
    OwnRoom(s, m, held + {f});
    hide Roomy, Wrap, Start;
    HeldIffBuffered(s.em, r.fragments, held, f, lo);
    HoldsInsert(s.em, r.fragments, held, f);
    OnePart(s.sent, s.em, f);
    hide Holds, Cuts, Stamped, Fwd, Reassemble, IsSequenceNewer, Purge;
    RunIffComplete(s.sent, s.em, buf, held + {f}, f, lo);
    if Complete(s.em, held + {f}, m) {
      PutTogether(s, m, buf, held + {f}, f, lo);
    }
    hide Complete;
  }

  lemma PutTogether(s: Sys, m: nat, buf: Buffer, held: set<FragId>, f: FragId, lo: int)
    requires Cuts(s.sent, s.em) && Stamped(s.em) && Holds(s.em, buf, held) && f in held && f.msg == m
    requires Issued(s.em, f) && Roomy(s.em, held, m, lo) && Complete(s.em, held, m)
    requires forall g :: g in held ==> g.msg == m
    ensures Reassemble(buf, Key(s.em, f)).Some? && m < |s.sent|
    ensures Reassemble(buf, Key(s.em, f)).value.pack == s.sent[m]
  {
    hide Cuts, Stamped, Holds, Roomy, Reassemble, Complete;
    var x, donor := Reassembles(s.sent, s.em, buf, held, f, lo);
  }

  lemma LetInIsBuffered(s: Sys, s': Sys, m: nat, parts: seq<nat>, j: nat)
    requires IsSplit(s, m) && j < |s.em[m]| && Gathered(s, s', m, parts) && !IsLate(s, m, j) && j !in parts
    requires forall i :: i in parts ==> i < |s.em[m]|
    ensures var s'' := Step(s', Arrive(FragId(m, j)));
            && (!Complete(s.em, LetIn(s, m, parts + [j]), m) ==> Gathered(s, s'', m, parts + [j]))
            && (Complete(s.em, LetIn(s, m, parts + [j]), m) ==>
                  m < |s.sent| && s''.polled == s.polled && s''.rcv.queue == s.rcv.queue + [s.sent[m]])
  {
    SameNext(s, s', m, parts, j);
    LetInNext(s, m, parts, j);
    LetInAre(s, m, parts);
    hide IsLate, LetIn, IsSequenceNewer, Holds, Complete, Numbered, Receive, Remaining;
    Buffers(s, s'.rcv, m, LetIn(s, m, parts), FragId(m, j));
  }

  lemma NotAllYet(s: Sys, m: nat, parts: seq<nat>, j: nat)
    requires m < |s.em| && j < |s.em[m]| && j !in parts
    ensures !Complete(s.em, LetIn(s, m, parts), m)
  {
    hide IsLate;
    assert FragId(m, j) !in LetIn(s, m, parts);
  }

  lemma StartsEmpty(s: Sys, m: nat)
    requires s.rcv.fragments == map[]
    ensures Gathered(s, s, m, [])
  {
    hide IsLate;
    assert LetIn(s, m, []) == {};
  }

  lemma {:induction false} Gathers(s: Sys, m: nat, parts: seq<nat>)
    requires IsSplit(s, m) && s.rcv.fragments == map[]
    requires (forall j :: j in parts ==> j < |s.em[m]|) && forall i, k :: 0 <= i < k < |parts| ==> parts[i] != parts[k]
    ensures var s' := Arrivals(s, m, parts);
            && (!Complete(s.em, LetIn(s, m, parts), m) ==> Gathered(s, s', m, parts))
            && (Complete(s.em, LetIn(s, m, parts), m) ==>
                  m < |s.sent| && s'.polled == s.polled && s'.rcv.queue == s.rcv.queue + [s.sent[m]])
  {
    if parts == [] {
      StartsEmpty(s, m);
      NotAllYet(s, m, [], 0);
    } else {
      var fore, j := parts[..|parts| - 1], parts[|parts| - 1];
      assert parts == fore + [j] && j !in fore && j in parts;
      assert forall i :: i in fore ==> i in parts;
      Gathers(s, m, fore);
      NotAllYet(s, m, fore, j);
      hide Gathered, Complete, LetIn, IsLate, Step, IsSplit;
      if IsLate(s, m, j) {
        LateIsRefused(s, Arrivals(s, m, fore), m, fore, j);
        LateStaysOut(s, m, parts, j);
      } else {
        LetInIsBuffered(s, Arrivals(s, m, fore), m, fore, j);
      }
    }
  }

  lemma LateStaysOut(s: Sys, m: nat, parts: seq<nat>, j: nat)
    requires m < |s.em| && j < |s.em[m]| && IsLate(s, m, j)
    ensures !Complete(s.em, LetIn(s, m, parts), m)
  {
    hide CountsAsLate, Lateness;
    assert FragId(m, j) !in LetIn(s, m, parts);
  }

  /** All fragments of a packet, delivered before or not, come in once each, in any order, at an
      empty buffer: nothing is delivered exactly when one of them counts as late. Otherwise the packet
      is delivered as it was sent, even if it was delivered long ago. */
  lemma LateSetDeliveredExactlyWhen(s: Sys, m: nat, parts: seq<nat>)
    requires Inv(s) && m < |s.em| && 2 <= |s.em[m]| < 0x1_0000_0000
    requires s.rcv.fragments == map[] && EachOnce(parts, |s.em[m]|)
    ensures var s' := Arrivals(s, m, parts);
            && (Delivered(s') == Delivered(s) <==> exists j :: 0 <= j < |s.em[m]| && IsLate(s, m, j))
            && ((forall j :: 0 <= j < |s.em[m]| ==> !IsLate(s, m, j)) ==>
                  m < |s.sent| && Delivered(s') == Delivered(s) + [s.sent[m]])
  {
    var s' := Arrivals(s, m, parts);
    Gathers(s, m, parts);
    hide Numbered, Arrivals, Holds, CountsAsLate, Lateness, Matched, Increasing;
    if j :| 0 <= j < |s.em[m]| && IsLate(s, m, j) {
      LateStaysOut(s, m, parts, j);
    } else {
      AllLetIn(s, m, parts);
      assert s.polled + (s.rcv.queue + [s.sent[m]]) == Delivered(s) + [s.sent[m]];
      assert |Delivered(s')| == |Delivered(s)| + 1;
    }
  }

  lemma AllLetIn(s: Sys, m: nat, parts: seq<nat>)
    requires m < |s.em| && EachOnce(parts, |s.em[m]|) && forall j :: 0 <= j < |s.em[m]| ==> !IsLate(s, m, j)
    ensures Complete(s.em, LetIn(s, m, parts), m)
  {
    hide IsLate;
  }
}
