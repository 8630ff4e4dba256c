/** The reliable-ordered channel with unbounded numbers: the reference protocol.
    Fragments are named by packet and part, buffers are sets, nothing wraps. The receive
    thread works in three steps (ack, newness test, locked insert) so that polls, sends and
    acks may fall in between; the outcome of the newness test is left open. */
module OrderedSpec {
  import opened Packets
  import opened Numbering

  /** What the receive thread is busy with. */
  datatype Hand = Idle | Arrived(f: FragId) | Passed(f: FragId)

  datatype Spec = Spec(
    sent: seq<Packet>,            // every packet given to the channel, in order
    parts: seq<nat>,              // the number of fragments of each
    outstanding: seq<FragId>,     // retransmit queue
    acked: set<FragId>,           // fragments whose ack was ever queued
    hand: Hand,
    held: set<FragId>,            // fragment buffer
    ready: map<nat, Packet>,      // reorder queue
    polled: seq<Packet>)          // packets handed to the user; the next expected is |polled|

  datatype Move =
    | Send(p: Packet, n: nat)
    | Arrive(f: FragId)
    | Test(keep: bool)
    | Insert(donor: nat)
    | Poll
    | Acked(fs: seq<FragId>)

  const START: Spec := Spec([], [], [], {}, Idle, {}, map[], [])

  predicate Sent(a: Spec, f: FragId) {
    f.msg < |a.sent| && f.msg < |a.parts| && f.part < a.parts[f.msg]
  }

  /** The names of the n fragments of packet `msg`. */
  function PartsOf(msg: nat, n: nat): (fs: seq<FragId>)
    ensures |fs| == n
  {
    seq(n, j requires 0 <= j < n => FragId(msg, j))
  }

  predicate Whole(n: nat, held: set<FragId>, msg: nat) {
    forall j :: 0 <= j < n ==> FragId(msg, j) in held
  }

  function Without(fs: seq<FragId>, f: FragId): seq<FragId> {
    if fs == [] then [] else if fs[0] == f then fs[1..] else [fs[0]] + Without(fs[1..], f)
  }

  function WithoutAll(fs: seq<FragId>, gone: seq<FragId>): seq<FragId>
    decreases |gone|
  {
    if gone == [] then fs else WithoutAll(Without(fs, gone[0]), gone[1..])
  }

  function AddReady(ready: map<nat, Packet>, msg: nat, p: Packet): map<nat, Packet> {
    if msg in ready then ready else ready[msg := p]
  }

  /** The packet a reassembly yields: own bytes, id and relay flag of the donor packet. */
  function Mixed(sent: seq<Packet>, donor: nat, msg: nat): Packet
    requires donor < |sent| && msg < |sent|
  {
    Packet(sent[donor].id, sent[donor].relay, sent[msg].payload)
  }

  function Inserted(a: Spec, f: FragId, donor: nat): Spec
    requires Sent(a, f) && donor < |a.sent|
  {
    if a.parts[f.msg] == 1 then
      a.(ready := AddReady(a.ready, f.msg, a.sent[f.msg]))
    else if f in a.held then
      a
    else if Whole(a.parts[f.msg], a.held + {f}, f.msg) then
      a.(held := Others(a.held + {f}, f.msg), ready := AddReady(a.ready, f.msg, Mixed(a.sent, donor, f.msg)))
    else
      a.(held := a.held + {f})
  }

  /** A move that is not possible changes nothing. */
  function Step(a: Spec, mv: Move): Spec {
    match mv
    case Send(p, n) =>
      if n == 0 then a
      else a.(sent := a.sent + [p], parts := a.parts + [n], outstanding := a.outstanding + PartsOf(|a.sent|, n))
    case Arrive(f) =>
      if a.hand.Idle? && Sent(a, f) then a.(hand := Arrived(f), acked := a.acked + {f}) else a
    case Test(keep) =>
      if a.hand.Arrived? then a.(hand := if keep then Passed(a.hand.f) else Idle) else a
    case Insert(donor) =>
      if a.hand.Passed? && Sent(a, a.hand.f) && donor < |a.sent| then Inserted(a, a.hand.f, donor).(hand := Idle) else a
    case Poll =>
      if |a.polled| !in a.ready then a
      else a.(polled := a.polled + [a.ready[|a.polled|]], ready := a.ready - {|a.polled|})
    case Acked(fs) =>
      if forall f :: f in fs ==> f in a.acked then a.(outstanding := WithoutAll(a.outstanding, fs)) else a
  }

  // ---- safety

  /** `got` is what was sent as packet `msg`, up to the id and relay flag of a fragmented one. */
  ghost predicate Matches(a: Spec, got: Packet, msg: nat) {
    && msg < |a.sent| && msg < |a.parts|
    && got.payload == a.sent[msg].payload
    && (a.parts[msg] == 1 ==> got == a.sent[msg])
    && exists donor :: 0 <= donor < |a.sent| && got == Mixed(a.sent, donor, msg)
  }

  ghost predicate Shaped(a: Spec) {
    && |a.parts| == |a.sent|
    && (forall k :: 0 <= k < |a.parts| ==> a.parts[k] >= 1)
    && (!a.hand.Idle? ==> Sent(a, a.hand.f) && a.hand.f in a.acked)
    && (forall f :: f in a.acked ==> Sent(a, f))
    && (forall f :: f in a.outstanding ==> Sent(a, f))
    && Distinct(a.outstanding)
  }

  ghost predicate Distinct(fs: seq<FragId>) {
    forall i, j :: 0 <= i < j < |fs| ==> fs[i] != fs[j]
  }

  /** The fragment buffer never holds a whole packet between receive steps. */
  ghost predicate BufferPartial(a: Spec) {
    && (forall f :: f in a.held ==> Sent(a, f) && a.parts[f.msg] >= 2)
    && (forall m :: 0 <= m < |a.parts| && a.parts[m] >= 1 ==> !Whole(a.parts[m], a.held, m))
  }

  ghost predicate InOrder(a: Spec) {
    && |a.polled| <= |a.sent|
    && (forall k :: 0 <= k < |a.polled| ==> Matches(a, a.polled[k], k))
    && (forall m :: m in a.ready ==> Matches(a, a.ready[m], m))
  }

  ghost predicate Safe(a: Spec) {
    Shaped(a) && BufferPartial(a) && InOrder(a)
  }

  lemma {:induction false} WithoutKeeps(fs: seq<FragId>, f: FragId, x: FragId)
    ensures x in Without(fs, f) ==> x in fs
    ensures x != f && x in fs ==> x in Without(fs, f)
  {
    if fs != [] && fs[0] != f {
      WithoutKeeps(fs[1..], f, x);
    }
  }

  lemma {:induction false} WithoutDistinct(fs: seq<FragId>, f: FragId)
    requires Distinct(fs)
    ensures Distinct(Without(fs, f))
  {
    if fs != [] && fs[0] != f {
      WithoutDistinct(fs[1..], f);
      WithoutKeeps(fs[1..], f, fs[0]);
      assert fs[0] !in fs[1..];
    }
  }

  /** Acks take out fragments they name, and nothing else. */
  lemma {:induction false} WithoutAllKeeps(fs: seq<FragId>, gone: seq<FragId>)
    requires Distinct(fs)
    ensures Distinct(WithoutAll(fs, gone))
    ensures forall x :: x in WithoutAll(fs, gone) ==> x in fs
    ensures forall x :: x in fs && x !in gone ==> x in WithoutAll(fs, gone)
    decreases |gone|
  {
    if gone != [] {
      WithoutDistinct(fs, gone[0]);
      WithoutAllKeeps(Without(fs, gone[0]), gone[1..]);
      forall x
        ensures (x in WithoutAll(fs, gone) ==> x in fs) && (x in fs && x !in gone ==> x in WithoutAll(fs, gone))
      {
        WithoutKeeps(fs, gone[0], x);
      }
    }
  }

  lemma SendKeepsDistinct(a: Spec, n: nat)
    requires Shaped(a)
    ensures Distinct(a.outstanding + PartsOf(|a.sent|, n))
  {
    var more := PartsOf(|a.sent|, n);
    assert forall f :: f in a.outstanding ==> f.msg < |a.sent|;
    forall i, j | 0 <= i < j < |a.outstanding + more| ensures (a.outstanding + more)[i] != (a.outstanding + more)[j] {
      if i < |a.outstanding| <= j {
        assert a.outstanding[i] in a.outstanding;
      }
    }
  }

  lemma ShapedStep(a: Spec, mv: Move)
    requires Shaped(a)
    ensures Shaped(Step(a, mv))
  {
    match mv
    case Acked(fs) => WithoutAllKeeps(a.outstanding, fs);
    case Send(p, n) => SendKeepsDistinct(a, n); hide Distinct;
    case Insert(donor) =>
      if a.hand.Passed? && Sent(a, a.hand.f) && donor < |a.sent| {
        ShapedInsert(a, donor);
      }
    case _ => hide Distinct;
  }

  lemma ShapedInsert(a: Spec, donor: nat)
    requires Shaped(a) && a.hand.Passed? && Sent(a, a.hand.f) && donor < |a.sent|
    ensures Shaped(Step(a, Insert(donor)))
  {
    hide Distinct;
  }

  lemma BufferPartialInsert(a: Spec, f: FragId, donor: nat)
    requires Shaped(a) && BufferPartial(a) && Sent(a, f) && donor < |a.sent|
    ensures BufferPartial(Inserted(a, f, donor))
  {
    var a' := Inserted(a, f, donor);
    if a.parts[f.msg] >= 2 && f !in a.held {
      var h := a.held + {f};
      forall m | 0 <= m < |a.parts| && a.parts[m] >= 1 ensures !Whole(a'.parts[m], a'.held, m) {
        if m != f.msg {
          var j :| 0 <= j < a.parts[m] && FragId(m, j) !in a.held;
          assert FragId(m, j) !in a'.held;
        } else if Whole(a.parts[m], h, m) {
          assert FragId(m, 0) !in a'.held;
        }
      }
    }
  }

  lemma BufferPartialStep(a: Spec, mv: Move)
    requires Shaped(a) && BufferPartial(a)
    ensures BufferPartial(Step(a, mv))
  {
    var a' := Step(a, mv);
    if mv.Insert? && a.hand.Passed? && Sent(a, a.hand.f) && mv.donor < |a.sent| {
      BufferPartialInsert(a, a.hand.f, mv.donor);
      var b := Inserted(a, a.hand.f, mv.donor);
      assert a' == b.(hand := Idle);
      assert BufferPartial(a');
    } else if mv.Send? && mv.n > 0 {
      assert FragId(|a.sent|, 0) !in a.held;
      assert BufferPartial(a');
    }
  }

  lemma MatchesGrows(a: Spec, a': Spec, got: Packet, msg: nat)
    requires Matches(a, got, msg)
    requires a.sent <= a'.sent && a.parts <= a'.parts
    ensures Matches(a', got, msg)
  {
    var donor :| 0 <= donor < |a.sent| && got == Mixed(a.sent, donor, msg);
    assert got == Mixed(a'.sent, donor, msg);
  }

  lemma InOrderGrows(a: Spec, a': Spec)
    requires InOrder(a)
    requires a.sent <= a'.sent && a.parts <= a'.parts && a'.polled == a.polled
    requires forall m :: m in a'.ready ==> (m in a.ready && a'.ready[m] == a.ready[m]) || Matches(a', a'.ready[m], m)
    ensures InOrder(a')
  {
    forall k | 0 <= k < |a'.polled| ensures Matches(a', a'.polled[k], k) {
      MatchesGrows(a, a', a.polled[k], k);
    }
    forall m | m in a'.ready ensures Matches(a', a'.ready[m], m) {
      if m in a.ready && a'.ready[m] == a.ready[m] {
        MatchesGrows(a, a', a.ready[m], m);
      }
    }
  }

  lemma InOrderPoll(a: Spec)
    requires InOrder(a) && |a.polled| in a.ready
    ensures InOrder(Step(a, Poll))
  {
    var a' := Step(a, Poll);
    assert Matches(a, a.ready[|a.polled|], |a.polled|);
    forall got, m | Matches(a, got, m) ensures Matches(a', got, m) {
      MatchesGrows(a, a', got, m);
    }
    hide Matches;
    forall k | 0 <= k < |a'.polled| ensures Matches(a', a'.polled[k], k) {
      assert Matches(a, a'.polled[k], k);
    }
  }

  lemma InOrderStep(a: Spec, mv: Move)
    requires Shaped(a) && InOrder(a)
    ensures InOrder(Step(a, mv))
  {
    var a' := Step(a, mv);
    if mv.Poll? {
      if |a.polled| in a.ready {
        InOrderPoll(a);
      }
    } else {
      if mv.Insert? && a.hand.Passed? && Sent(a, a.hand.f) && mv.donor < |a.sent| {
        InsertedMatches(a, mv.donor);
      }
      hide Matches;
      InOrderGrows(a, a');
    }
  }

  /** What an insert puts into the reorder queue is the packet, as far as it should be. */
  lemma InsertedMatches(a: Spec, donor: nat)
    requires Shaped(a) && a.hand.Passed? && Sent(a, a.hand.f) && donor < |a.sent|
    ensures var a' := Step(a, Insert(donor));
            forall m :: m in a'.ready ==> (m in a.ready && a'.ready[m] == a.ready[m]) || Matches(a', a'.ready[m], m)
  {
    var a', f := Step(a, Insert(donor)), a.hand.f;
    hide Distinct;
    assert a.sent[f.msg] == Mixed(a.sent, f.msg, f.msg);
    assert a.parts[f.msg] == 1 ==> Matches(a', a.sent[f.msg], f.msg);
    assert a.parts[f.msg] != 1 ==> Matches(a', Mixed(a.sent, donor, f.msg), f.msg);
  }

  /** Safety: every move of every thread keeps the protocol in order. */
  lemma SafeStep(a: Spec, mv: Move)
    requires Safe(a)
    ensures Safe(Step(a, mv))
  {
    ShapedStep(a, mv);
    BufferPartialStep(a, mv);
    InOrderStep(a, mv);
  }

  lemma SafeStart()
    ensures Safe(START) && Kept(START)
  {
  }

  // ---- no loss

  /** Nothing the sender still has to deliver is missing: every fragment is either in the
      retransmit queue or was acked, and an acked fragment is on its way to the user. */
  ghost predicate Kept(a: Spec) {
    && (forall f :: Sent(a, f) ==> f in a.outstanding || f in a.acked)
    && (forall f :: f in a.acked ==> OnItsWay(a, f))
  }

  predicate OnItsWay(a: Spec, f: FragId) {
    || f.msg < |a.polled|
    || f.msg in a.ready
    || f in a.held
    || (!a.hand.Idle? && a.hand.f == f)
  }

  /** The newness test may turn away only fragments of packets already polled. */
  predicate Faithful(a: Spec, mv: Move) {
    mv.Test? && a.hand.Arrived? && !mv.keep ==> a.hand.f.msg < |a.polled|
  }

  lemma KeptInsert(a: Spec, donor: nat)
    requires Shaped(a) && Kept(a) && a.hand.Passed? && donor < |a.sent|
    ensures Kept(Inserted(a, a.hand.f, donor).(hand := Idle))
  {
    var f, a' := a.hand.f, Inserted(a, a.hand.f, donor).(hand := Idle);
    forall g | g in a'.acked ensures OnItsWay(a', g) {
      assert OnItsWay(a, g);
    }
    forall g | Sent(a', g) ensures g in a'.outstanding || g in a'.acked {
      assert Sent(a, g);
    }
  }

  lemma KeptStep(a: Spec, mv: Move)
    requires Safe(a) && Kept(a) && Faithful(a, mv)
    ensures Kept(Step(a, mv))
  {
    var a' := Step(a, mv);
    match mv
    case Send(p, n) =>
      forall f | Sent(a', f) ensures f in a'.outstanding || f in a'.acked {
        if f.msg == |a.sent| && n > 0 {
          assert f == PartsOf(|a.sent|, n)[f.part];
        } else {
          assert Sent(a, f);
        }
      }
      forall f | f in a'.acked ensures OnItsWay(a', f) {
        assert OnItsWay(a, f);
      }
    case Insert(donor) =>
      if a.hand.Passed? && donor < |a.sent| {
        KeptInsert(a, donor);
      }
    case Acked(fs) =>
      WithoutAllKeeps(a.outstanding, fs);
      forall f | Sent(a', f) ensures f in a'.outstanding || f in a'.acked {
        assert Sent(a, f);
      }
      forall f | f in a'.acked ensures OnItsWay(a', f) {
        assert OnItsWay(a, f);
      }
    case _ =>
      forall f | f in a'.acked ensures OnItsWay(a', f) {
        assert f in a.acked ==> OnItsWay(a, f);
      }
      forall f | Sent(a', f) ensures f in a'.outstanding || f in a'.acked {
        assert Sent(a, f);
      }
  }

  /** A packet none of whose fragments is outstanding has arrived whole, unless the receive
      thread still has one of its fragments in hand. */
  lemma AckedIsDelivered(a: Spec, msg: nat)
    requires Safe(a) && Kept(a) && msg < |a.sent|
    requires forall j :: 0 <= j < a.parts[msg] ==> FragId(msg, j) !in a.outstanding
    ensures msg < |a.polled| || msg in a.ready || (!a.hand.Idle? && a.hand.f.msg == msg)
  {
    assert !Whole(a.parts[msg], a.held, msg);
    var j :| 0 <= j < a.parts[msg] && FragId(msg, j) !in a.held;
    assert Sent(a, FragId(msg, j));
    assert OnItsWay(a, FragId(msg, j));
  }

  /** A fragment that passed the test before a poll and is inserted after it, its packet
      having been polled meanwhile, touches nothing the user still waits for. */
  lemma LateInsertHarmless(a: Spec, donor: nat)
    requires Safe(a) && a.hand.Passed? && a.hand.f.msg < |a.polled| && donor < |a.sent|
    ensures var a' := Step(a, Insert(donor));
            && a'.polled == a.polled
            && (forall m :: m >= |a.polled| ==>
                (m in a'.ready <==> m in a.ready) && (m in a.ready ==> a'.ready[m] == a.ready[m]))
            && (forall f :: f in a.held && f.msg >= |a.polled| <==> f in a'.held && f.msg >= |a.polled|)
  {
  }
}
