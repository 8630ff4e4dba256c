/** Which packets an unreliable channel delivers: exactly those that are completed before any later
    packet is. */
module UnreliableDelivery {
  import opened Seq32
  import opened Reassembly
  import opened Numbering
  import opened Emissions
  import opened Unreliable

  /** The fragments that came in, whatever became of them. */
  ghost function Came(evs: seq<Event>): set<FragId> {
    if evs == [] then {}
    else
      var front, ev := evs[..|evs| - 1], evs[|evs| - 1];
      Came(front) + if ev.Arrive? && Issued(Run(front).em, ev.f) then {ev.f} else {}
  }

  /** Of every packet not yet overtaken, what came in is held, and something is missing; of every packet
      delivered, everything came in. */
  ghost predicate Settled(s: Sys, came: set<FragId>) {
    && NextPacket(s) <= |s.em| && s.held <= came
    && (forall f :: f in came ==> Issued(s.em, f) && (f.msg >= NextPacket(s) ==> f in s.held))
    && (forall m :: NextPacket(s) <= m < |s.em| ==> !Complete(s.em, came, m))
    && (forall m :: m in s.picks ==> m < |s.em| && Complete(s.em, came, m))
  }

  // ---- what one fragment does

  /** Whatever else happens, no fragment is let go of but those of packets delivered or overtaken. */
  ghost predicate KeepsLater(s: Sys, s': Sys, f: FragId) {
    && s'.em == s.em
    && (forall g :: g in s.held + {f} && g.msg >= NextPacket(s') ==> g in s'.held)
    && s'.held <= s.held + {f}
  }

  lemma StaleStays(s: Sys, f: FragId)
    requires Inv(s) && Issued(s.em, f) && InWindow(s, f) && f.msg < NextPacket(s)
    ensures var s' := Step(s, Arrive(f)); s'.picks == s.picks && KeepsLater(s, s', f)
  {
    TestMeansLater(s, f);
    hide Cuts, Stamped, Start, IsSequenceNewer, Matched, Increasing, InWindow, Wrap;
    assert Receive(s.rcv, At(s.em, f)) == s.rcv;
  }

  lemma WholeIsPicked(s: Sys, f: FragId, lo: int)
    requires Inv(s) && PacketSpan(s.em, s.held, f, lo) && f.msg >= NextPacket(s) && |s.em[f.msg]| == 1
    requires IsSequenceNewer(Key(s.em, f), s.rcv.next)
    ensures var s' := Step(s, Arrive(f)); s'.picks == s.picks + [f.msg] && KeepsLater(s, s', f)
  {
    BufferedIsHeld(s, f, lo);
    ReceiveWhole(s, f);
    hide Cuts, Stamped, Start, IsSequenceNewer, Matched, Increasing, Wrap, Receive, PacketSpan;
  }

  lemma MoreIsHeld(s: Sys, f: FragId, lo: int)
    requires Inv(s) && PacketSpan(s.em, s.held, f, lo) && f.msg >= NextPacket(s) && |s.em[f.msg]| != 1
    requires !(f !in s.held && Complete(s.em, s.held + {f}, f.msg))
    requires IsSequenceNewer(Key(s.em, f), s.rcv.next)
    ensures var s' := Step(s, Arrive(f)); s'.picks == s.picks && KeepsLater(s, s', f)
  {
    ReceiveMore(s, f, lo);
    StillBuffered(s.em, s.rcv.fragments, s.held, f);
    hide Inv, Holds, IsSequenceNewer, Receive, PacketSpan, Complete, Key, At;
  }

  lemma StillBuffered(em: Emission, buf: Reassembly.Buffer, held: set<FragId>, f: FragId)
    requires Holds(em, buf, held) && Issued(em, f)
    ensures forall g :: g in held + {f} ==> Issued(em, g) && Key(em, g) in buf[Key(em, f) := At(em, f).frag]
  {
  }

  lemma LaterBounds(s: Sys, f: FragId, g: FragId)
    requires NextPacket(s) <= |s.em| && InWindow(s, f) && Issued(s.em, f) && f.msg >= NextPacket(s)
    requires g in s.held && g.msg > f.msg
    ensures Issued(s.em, g) && -0x8000_0000 <= Index(s.em, g) - Start(s.em, f.msg + 1) < 0x8000_0000
  {
    var n := NextPacket(s);
    assert Within(s.em, g, Start(s.em, n) - 0x8000_0000);
    StartMonotone(s.em, n, f.msg + 1);
    if f.msg + 1 < g.msg {
      StartMonotone(s.em, f.msg + 1, g.msg);
    }
  }

  /** Fragments of later packets outlive the purge. */
  lemma LaterOutlive(s: Sys, f: FragId, rest: Reassembly.Buffer, g: FragId)
    requires Stamped(s.em) && NextPacket(s) <= |s.em| && InWindow(s, f) && Issued(s.em, f) && f.msg >= NextPacket(s)
    requires Holds(s.em, rest, Others(s.held + {f}, f.msg)) && g in s.held && g.msg > f.msg
    ensures Issued(s.em, g) && Key(s.em, g) in Purge(rest, Wrap(Start(s.em, f.msg + 1)))
  {
    LaterBounds(s, f, g);
    assert g in Others(s.held + {f}, f.msg);
    hide Stamped, Holds, InWindow, Others, Purge, Start, Wrap, Key;
    PurgeIsExact(s.em, rest, Others(s.held + {f}, f.msg), f.msg, g);
  }

  lemma LastIsPicked(s: Sys, f: FragId, lo: int)
    requires Inv(s) && PacketSpan(s.em, s.held, f, lo) && f.msg >= NextPacket(s) && |s.em[f.msg]| != 1
    requires f !in s.held && Complete(s.em, s.held + {f}, f.msg) && InWindow(s, f)
    requires IsSequenceNewer(Key(s.em, f), s.rcv.next)
    ensures var s' := Step(s, Arrive(f)); s'.picks == s.picks + [f.msg] && KeepsLater(s, s', f)
  {
    ReceiveLast(s, f, lo);
    OnePart(s.sent, s.em, f);
    AfterPacket(s.em, f);
    var x, donor := TakeAndPurge(s.sent, s.em, s.rcv.fragments, s.held, f, lo);
    hide Cuts, Stamped, Start, IsSequenceNewer, Matched, Increasing, Wrap, Fwd, Receive, PacketSpan, Purge, Reassemble,
      Complete, Holds;
    ReceiveIs(s.rcv, At(s.em, f), x);
    var s' := Step(s, Arrive(f));
    assert NextPacket(s') == f.msg + 1;
    forall g | g in s.held + {f} && g.msg >= NextPacket(s') ensures g in s'.held {
      LaterOutlive(s, f, x.rest, g);
    }
  }

  lemma FreshDoes(s: Sys, f: FragId, lo: int)
    requires Inv(s) && PacketSpan(s.em, s.held, f, lo) && f.msg >= NextPacket(s) && InWindow(s, f)
    requires IsSequenceNewer(Key(s.em, f), s.rcv.next) && !Complete(s.em, s.held, f.msg)
    requires |s.em[f.msg]| == 1 ==> f.part == 0
    ensures var s' := Step(s, Arrive(f));
            && KeepsLater(s, s', f)
            && s'.picks == if Complete(s.em, s.held + {f}, f.msg) then s.picks + [f.msg] else s.picks
  {
    OneMoreComplete(s.em, s.held, f);
    hide *;
    if |s.em[f.msg]| == 1 {
      WholeIsPicked(s, f, lo);
    } else if f !in s.held && Complete(s.em, s.held + {f}, f.msg) {
      LastIsPicked(s, f, lo);
    } else {
      MoreIsHeld(s, f, lo);
    }
  }

  lemma OneMoreComplete(em: Emission, held: set<FragId>, f: FragId)
    requires Issued(em, f) && !Complete(em, held, f.msg) && (|em[f.msg]| == 1 ==> f.part == 0)
    ensures f.msg < |em|
    ensures |em[f.msg]| == 1 ==> Complete(em, held + {f}, f.msg)
    ensures Complete(em, held + {f}, f.msg) ==> f !in held
  {
    assert f in held ==> held + {f} == held;
  }

  /** An arriving fragment completes its packet and has it delivered exactly when the packet is not
      overtaken and nothing else of it is missing. */
  lemma ArriveDoes(s: Sys, came: set<FragId>, f: FragId)
    requires Inv(s) && Settled(s, came) && Issued(s.em, f) && InWindow(s, f)
    ensures var s' := Step(s, Arrive(f));
            && KeepsLater(s, s', f)
            && s'.picks == if f.msg >= NextPacket(s) && Complete(s.em, s.held + {f}, f.msg) then s.picks + [f.msg]
                           else s.picks
  {
    OnePart(s.sent, s.em, f);
    assert f.msg >= NextPacket(s) ==> !Complete(s.em, came, f.msg);
    assert Numbered(s) && s.held <= came;
    assert !Complete(s.em, came, f.msg) ==> !Complete(s.em, s.held, f.msg);
    hide Inv, Numbered, InWindow, Settled, Step, KeepsLater, Complete, IsSequenceNewer, PacketSpan, Start;
    TestMeansLater(s, f);
    if f.msg < NextPacket(s) {
      StaleStays(s, f);
    } else {
      LaterIsRoomy(s, f);
      FreshDoes(s, f, Start(s.em, NextPacket(s)) - 0x8000_0000);
    }
  }

  // ---- over runs

  lemma SettledArrive(s: Sys, s': Sys, came: set<FragId>, f: FragId)
    requires Settled(s, came) && Issued(s.em, f) && KeepsLater(s, s', f)
    requires s'.picks == if f.msg >= NextPacket(s) && Complete(s.em, s.held + {f}, f.msg) then s.picks + [f.msg]
                         else s.picks
    ensures Settled(s', came + {f})
  {
    var came' := came + {f};
    assert NextPacket(s') >= NextPacket(s);
    forall m | NextPacket(s') <= m < |s.em| ensures !Complete(s.em, came', m) {
      assert !Complete(s.em, came, m);
    }
  }

  lemma SentIsMissing(s: Sys, came: set<FragId>, p: Packets.Packet, size: nat)
    requires size > 0 && forall f :: f in came ==> Issued(s.em, f)
    ensures var em := Step(s, Send(p, size)).em;
            && |em| == |s.em| + 1 && !Complete(em, came, |s.em|)
            && forall m :: 0 <= m < |s.em| ==> em[m] == s.em[m]
    ensures Step(s, Send(p, size)).picks == s.picks && Step(s, Send(p, size)).held == s.held
  {
    Serialization.FragmentsAreACut(p, size);
    assert FragId(|s.em|, 0) !in came;
    hide Serialization.Fragments, Channel.Stamp;
  }

  lemma SettledSend(s: Sys, came: set<FragId>, p: Packets.Packet, size: nat)
    requires Settled(s, came)
    ensures Settled(Step(s, Send(p, size)), came)
  {
    if size > 0 {
      var s' := Step(s, Send(p, size));
      hide Step;
      SentIsMissing(s, came, p, size);
      forall m | NextPacket(s) <= m < |s'.em| ensures !Complete(s'.em, came, m) {
        assert m < |s.em| ==> !Complete(s.em, came, m);
      }
    }
  }

  lemma WindowedFront(evs: seq<Event>)
    requires Windowed(evs) && evs != []
    ensures Windowed(evs[..|evs| - 1])
    ensures evs[|evs| - 1].Arrive? ==> InWindow(Run(evs[..|evs| - 1]), evs[|evs| - 1].f)
  {
    var front := evs[..|evs| - 1];
    forall k | 0 <= k < |front| ensures front[k].Arrive? ==> InWindow(Run(front[..k]), front[k].f) {
      assert front[..k] == evs[..k] && front[k] == evs[k];
    }
  }

  lemma CameLast(evs: seq<Event>)
    requires evs != []
    ensures var front, ev := evs[..|evs| - 1], evs[|evs| - 1];
            Came(evs) == if ev.Arrive? && Issued(Run(front).em, ev.f) then Came(front) + {ev.f} else Came(front)
  {
    hide Run;
  }

  lemma NoneSettled()
    ensures Settled(Run([]), Came([]))
  {
  }

  lemma SettledStep(s: Sys, came: set<FragId>, ev: Event)
    requires Inv(s) && Settled(s, came) && (ev.Arrive? ==> InWindow(s, ev.f))
    ensures Settled(Step(s, ev), if ev.Arrive? && Issued(s.em, ev.f) then came + {ev.f} else came)
  {
    hide Inv, InWindow, Settled, Step;
    match ev
    case Send(p, size) => SettledSend(s, came, p, size);
    case Arrive(f) =>
      if Issued(s.em, f) {
        ArriveDoes(s, came, f);
        SettledArrive(s, Step(s, ev), came, f);
      } else {
        NotIssued(s, f);
      }
    case Poll => SettledPoll(s, came);
  }

  lemma {:induction false} RunSettles(evs: seq<Event>)
    requires Windowed(evs)
    ensures Settled(Run(evs), Came(evs))
  {
    hide *;
    if evs == [] {
      NoneSettled();
    } else {
      var front := evs[..|evs| - 1];
      WindowedFront(evs);
      RunSettles(front);
      RunKeeps(front);
      RunLast(evs);
      CameLast(evs);
      SettledStep(Run(front), Came(front), evs[|evs| - 1]);
    }
  }

  lemma RunLast(evs: seq<Event>)
    requires evs != []
    ensures Run(evs) == Step(Run(evs[..|evs| - 1]), evs[|evs| - 1])
  {
  }

  lemma NotIssued(s: Sys, f: FragId)
    requires !Issued(s.em, f)
    ensures Step(s, Arrive(f)) == s
  {
  }

  lemma SettledPoll(s: Sys, came: set<FragId>)
    requires Settled(s, came)
    ensures Settled(Step(s, Poll), came)
  {
    hide Complete;
  }

  /** Everything of packet m came in. */
  ghost predicate HasCome(evs: seq<Event>, m: nat) {
    m < |Run(evs).em| && Complete(Run(evs).em, Came(evs), m)
  }

  /** The next packet expected is always the one after the latest packet that came in completely. */
  lemma NextIsAfterLatest(evs: seq<Event>)
    requires Windowed(evs)
    ensures var n := NextPacket(Run(evs));
            (n > 0 ==> HasCome(evs, n - 1)) && forall m :: m >= n ==> !HasCome(evs, m)
  {
    hide *;
    RunSettles(evs);
    SettledMeans(Run(evs), Came(evs));
    forall m: nat ensures HasCome(evs, m) <==> m < |Run(evs).em| && Complete(Run(evs).em, Came(evs), m) {
      HasComeMeans(evs, m);
    }
  }

  lemma HasComeMeans(evs: seq<Event>, m: nat)
    ensures HasCome(evs, m) <==> m < |Run(evs).em| && Complete(Run(evs).em, Came(evs), m)
  {
  }

  lemma SettledMeans(s: Sys, came: set<FragId>)
    requires Settled(s, came)
    ensures var n := NextPacket(s);
            && (n > 0 ==> n - 1 < |s.em| && Complete(s.em, came, n - 1))
            && forall m :: n <= m < |s.em| ==> !Complete(s.em, came, m)
  {
    hide Complete;
    if NextPacket(s) > 0 {
      assert s.picks[|s.picks| - 1] in s.picks;
    }
  }

  /** Event k brings the last missing fragment of packet m, and no later packet had come in before. */
  ghost predicate Completes(evs: seq<Event>, k: nat, m: nat) {
    && k < |evs| && HasCome(evs[..k + 1], m)
    && forall n :: n >= m ==> !HasCome(evs[..k], n)
  }

  lemma WindowedPrefix(evs: seq<Event>, k: nat)
    requires Windowed(evs) && k <= |evs|
    ensures Windowed(evs[..k])
  {
    forall i | 0 <= i < k ensures evs[..k][i].Arrive? ==> InWindow(Run(evs[..k][..i]), evs[..k][i].f) {
      assert evs[..k][..i] == evs[..i];
    }
  }

  lemma PicksGrow(s: Sys, ev: Event)
    ensures Step(s, ev).picks == s.picks || (|Step(s, ev).picks| == |s.picks| + 1 && s.picks <= Step(s, ev).picks)
  {
    hide Receive, Serialization.Fragments, Channel.Stamp, Remaining;
  }

  lemma LastPick(s: Sys, s': Sys, m: nat)
    requires Increasing(s'.picks)
    requires s'.picks == s.picks || (|s'.picks| == |s.picks| + 1 && s.picks <= s'.picks)
    ensures m in s'.picks && m !in s.picks ==> NextPacket(s') == m + 1 && m >= NextPacket(s)
    ensures m in s.picks ==> m in s'.picks
    ensures NextPacket(s') == m + 1 && NextPacket(s) <= m ==> m in s'.picks
  {
    if s'.picks != s.picks {
      assert s'.picks == s.picks + [s'.picks[|s.picks|]];
    }
  }

  lemma OneEventPicks(evs: seq<Event>, m: nat)
    requires Windowed(evs) && evs != []
    ensures m in Run(evs).picks <==> m in Run(evs[..|evs| - 1]).picks || Completes(evs, |evs| - 1, m)
  {
    hide *;
    var front, k := evs[..|evs| - 1], |evs| - 1;
    WindowedFront(evs);
    NextIsAfterLatest(evs);
    NextIsAfterLatest(front);
    PicksIncrease(evs);
    PicksGrow(Run(front), evs[k]);
    RunLast(evs);
    LastPick(Run(front), Run(evs), m);
    assert evs[..k + 1] == evs;
    CompletesMeans(evs, k, m);
    if Completes(evs, k, m) {
      var n := NextPacket(Run(evs)) - 1;
      assert m <= n && HasCome(evs, n) && !HasCome(front, n);
      NewlyCome(evs, m);
      NewlyCome(evs, n);
    }
  }

  /** A packet is completed by the arrival of a fragment of its own. */
  lemma NewlyCome(evs: seq<Event>, m: nat)
    requires Windowed(evs) && evs != [] && HasCome(evs, m) && !HasCome(evs[..|evs| - 1], m)
    ensures evs[|evs| - 1].Arrive? && evs[|evs| - 1].f.msg == m
  {
    var front, ev := evs[..|evs| - 1], evs[|evs| - 1];
    WindowedFront(evs);
    RunSettles(front);
    RunLast(evs);
    CameLast(evs);
    hide Run, Came, Windowed;
    CompletesOne(Run(front), Came(front), ev, m);
  }

  lemma CompletesOne(s: Sys, came: set<FragId>, ev: Event, m: nat)
    requires forall f :: f in came ==> Issued(s.em, f)
    requires m < |Step(s, ev).em| && !(m < |s.em| && Complete(s.em, came, m))
    requires Complete(Step(s, ev).em, if ev.Arrive? && Issued(s.em, ev.f) then came + {ev.f} else came, m)
    ensures ev.Arrive? && ev.f.msg == m
  {
    if ev.Send? && ev.size > 0 {
      SentIsMissing(s, came, ev.p, ev.size);
    }
    hide Serialization.Fragments, Channel.Stamp, Receive, Remaining;
  }

  lemma PicksIncrease(evs: seq<Event>)
    requires Windowed(evs)
    ensures Increasing(Run(evs).picks)
  {
    RunKeeps(evs);
    hide Run, Windowed, Numbered, Holds, Matched;
  }

  lemma CompletesMeans(evs: seq<Event>, k: nat, m: nat)
    requires k < |evs|
    ensures Completes(evs, k, m) <==> HasCome(evs[..k + 1], m) && forall n :: n >= m ==> !HasCome(evs[..k], n)
  {
    hide HasCome;
  }

  /** A packet is delivered exactly when some event brings the last missing fragment of it while no later
      packet has come in completely, whatever was lost, repeated or reordered within the window. */
  lemma {:induction false} DeliveredExactlyWhen(evs: seq<Event>, m: nat)
    requires Windowed(evs)
    ensures m in Run(evs).picks <==> exists k: nat :: Completes(evs, k, m)
  {
    if evs == [] {
    } else {
      var front := evs[..|evs| - 1];
      WindowedFront(evs);
      DeliveredExactlyWhen(front, m);
      OneEventPicks(evs, m);
      hide Run, Completes, Windowed;
      forall k: nat | k < |front| ensures Completes(evs, k, m) <==> Completes(front, k, m) {
        SameCompletes(evs, k, m);
      }
      OnlyWithin(evs, m);
      OnlyWithin(front, m);
    }
  }

  lemma SameCompletes(evs: seq<Event>, k: nat, m: nat)
    requires evs != [] && k < |evs| - 1
    ensures Completes(evs, k, m) <==> Completes(evs[..|evs| - 1], k, m)
  {
    var front := evs[..|evs| - 1];
    assert front[..k] == evs[..k] && front[..k + 1] == evs[..k + 1];
    hide HasCome;
  }

  lemma OnlyWithin(evs: seq<Event>, m: nat)
    ensures forall k: nat :: Completes(evs, k, m) ==> k < |evs|
  {
  }
}
