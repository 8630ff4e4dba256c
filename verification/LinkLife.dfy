/** How long an open link stays: over any interleaving of adds, pins, marks and sweeps, told by what
    was called alone. */
module LinkLife {
  import opened Seq32

  type Endpoint = nat

  /** One open link. */
  datatype Rec = Rec(linkId: u32, pins: u32, marked: bool)

  /** The open links by endpoint, and the list in which they are walked. */
  datatype Links = Links(list: seq<Endpoint>, recs: map<Endpoint, Rec>, listPins: u32)

  datatype Event =
    | Add(e: Endpoint, linkId: u32)
    | Pin(e: Endpoint)
    | Unpin(e: Endpoint)
    | Mark(e: Endpoint)
    | PinList
    | UnpinList
    | Sweep(overdue: set<Endpoint>)      // `overdue` is what the clock says

  /** A sweep spares what is in use, what is not marked, and what was marked only a while ago. */
  predicate Spared(r: Rec, e: Endpoint, overdue: set<Endpoint>) {
    r.pins > 0 || !r.marked || e !in overdue
  }

  function Kept(list: seq<Endpoint>, s: Links, overdue: set<Endpoint>): seq<Endpoint> {
    if list == [] then []
    else
      var last := list[|list| - 1];
      Kept(list[..|list| - 1], s, overdue)
      + if last in s.recs && !Spared(s.recs[last], last, overdue) then [] else [last]
  }

  function Touch(s: Links, e: Endpoint, r: Rec): Links {
    s.(recs := s.recs[e := r])
  }

  function Step(s: Links, ev: Event): Links {
    match ev
    case Add(e, linkId) =>
      if e in s.recs then s else s.(list := s.list + [e], recs := s.recs[e := Rec(linkId, 0, false)])
    case Pin(e) => if e in s.recs then Touch(s, e, s.recs[e].(pins := Fwd(s.recs[e].pins, 1))) else s
    case Unpin(e) => if e in s.recs then Touch(s, e, s.recs[e].(pins := Back(s.recs[e].pins, 1))) else s
    case Mark(e) => if e in s.recs then Touch(s, e, s.recs[e].(marked := true)) else s
    case PinList => s.(listPins := Fwd(s.listPins, 1))
    case UnpinList => s.(listPins := Back(s.listPins, 1))
    case Sweep(overdue) =>
      if s.listPins != 0 then s
      else
        s.(list := Kept(s.list, s, overdue),
           recs := map e | e in s.recs && Spared(s.recs[e], e, overdue) :: s.recs[e])
  }

  function Run(evs: seq<Event>): Links {
    if evs == [] then Links([], map[], 0) else Step(Run(evs[..|evs| - 1]), evs[|evs| - 1])
  }

  ghost predicate Once(list: seq<Endpoint>) {
    forall i, j :: 0 <= i < j < |list| ==> list[i] != list[j]
  }

  /** List and map name the same endpoints, each once in the list. */
  ghost predicate Same(s: Links) {
    (forall e :: e in s.list <==> e in s.recs) && Once(s.list)
  }

  lemma {:induction false} KeptAre(list: seq<Endpoint>, s: Links, overdue: set<Endpoint>, e: Endpoint)
    ensures e in Kept(list, s, overdue) <==> e in list && !(e in s.recs && !Spared(s.recs[e], e, overdue))
  {
    if list != [] {
      KeptAre(list[..|list| - 1], s, overdue, e);
      hide Spared;
    }
  }

  lemma {:induction false} KeptOnce(list: seq<Endpoint>, s: Links, overdue: set<Endpoint>)
    requires Once(list)
    ensures Once(Kept(list, s, overdue))
  {
    hide Spared;
    if list != [] {
      var front, last := list[..|list| - 1], list[|list| - 1];
      KeptOnce(front, s, overdue);
      KeptAre(front, s, overdue, last);
      assert last !in front;
    }
  }

  lemma StepSame(s: Links, ev: Event)
    requires Same(s)
    ensures Same(Step(s, ev))
  {
    hide Kept, Spared, Fwd, Back;
    if ev.Add? {
      assert forall e :: e in s.list + [ev.e] <==> e in s.list || e == ev.e;
    } else if ev.Sweep? && s.listPins == 0 {
      var s' := Step(s, ev);
      KeptOnce(s.list, s, ev.overdue);
      forall e ensures e in s'.list <==> e in s'.recs {
        KeptAre(s.list, s, ev.overdue, e);
        assert e in s'.recs <==> e in s.recs && Spared(s.recs[e], e, ev.overdue);
      }
      assert s'.list == Kept(s.list, s, ev.overdue);
    }
  }

  lemma {:induction false} RunSame(evs: seq<Event>)
    ensures Same(Run(evs))
  {
    if evs != [] {
      RunSame(evs[..|evs| - 1]);
      hide Same, Step;
      StepSame(Run(evs[..|evs| - 1]), evs[|evs| - 1]);
    }
  }

  // ---- the same told by the calls

  /** Pins of a link less unpins, among these calls. */
  function Uses(evs: seq<Event>, e: Endpoint): int {
    if evs == [] then 0
    else
      var last := evs[|evs| - 1];
      Uses(evs[..|evs| - 1], e) + if last == Pin(e) then 1 else if last == Unpin(e) then -1 else 0
  }

  function ListUses(evs: seq<Event>): int {
    if evs == [] then 0
    else
      var last := evs[|evs| - 1];
      ListUses(evs[..|evs| - 1]) + if last.PinList? then 1 else if last.UnpinList? then -1 else 0
  }

  /** Event k adds a link for an endpoint that had none. */
  ghost predicate Begins(evs: seq<Event>, k: nat) {
    k < |evs| && evs[k].Add? && evs[k].e !in Run(evs[..k]).recs
  }

  /** The sweep of event i finds the list pinned, or the link that event k added pinned, unmarked or
      not overdue. The counts are kept in 32 bits. */
  ghost predicate Missed(evs: seq<Event>, k: nat, i: nat)
    requires k < i < |evs| && evs[k].Add? && evs[i].Sweep?
  {
    var e, since := evs[k].e, evs[k + 1..i];
    || ListUses(evs[..i]) % 0x1_0000_0000 != 0
    || Uses(since, e) % 0x1_0000_0000 != 0
    || Mark(e) !in since
    || e !in evs[i].overdue
  }

  lemma {:induction false} ListPinsCount(evs: seq<Event>)
    ensures Run(evs).listPins == Wrap(ListUses(evs))
  {
    if evs != [] {
      var front := evs[..|evs| - 1];
      ListPinsCount(front);
      WrapSteps(ListUses(front), 1);
      hide Wrap, Fwd, Back, Kept, Run;
      assert Run(evs) == Step(Run(front), evs[|evs| - 1]) by { RunLast(evs); }
      WrapZero();
    } else {
      WrapZero();
    }
  }

  lemma WrapZero()
    ensures Wrap(0) == 0
  {
  }

  lemma RunLast(evs: seq<Event>)
    requires evs != []
    ensures Run(evs) == Step(Run(evs[..|evs| - 1]), evs[|evs| - 1])
  {
  }

  /** The link that event k added is there after n events as it then was, but for pins and mark. */
  ghost predicate Stands(evs: seq<Event>, k: nat, n: nat)
    requires k < n <= |evs| && evs[k].Add?
  {
    var e, since := evs[k].e, evs[k + 1..n];
    && e in Run(evs[..n]).recs
    && Run(evs[..n]).recs[e] == Rec(evs[k].linkId, Wrap(Uses(since, e)), Mark(e) in since)
  }

  lemma SinceNext(evs: seq<Event>, k: nat, n: nat)
    requires k < n < |evs|
    ensures evs[k + 1..n + 1] == evs[k + 1..n] + [evs[n]] && evs[k + 1..n + 1][..n - k - 1] == evs[k + 1..n]
    ensures evs[..n + 1][..n] == evs[..n]
  {
  }

  lemma UsesNext(since: seq<Event>, ev: Event, e: Endpoint)
    ensures Uses(since + [ev], e) == Uses(since, e) + if ev == Pin(e) then 1 else if ev == Unpin(e) then -1 else 0
  {
    assert (since + [ev])[..|since|] == since;
  }

  /** One call and one link: the sweep alone ever takes it away. */
  lemma OneCall(s: Links, ev: Event, e: Endpoint, r: Rec, uses: int)
    requires e in s.recs && s.recs[e] == r && r.pins == Wrap(uses)
    ensures e in Step(s, ev).recs <==> !(ev.Sweep? && s.listPins == 0 && !Spared(r, e, ev.overdue))
    ensures e in Step(s, ev).recs ==>
              Step(s, ev).recs[e]
              == Rec(r.linkId, Wrap(uses + if ev == Pin(e) then 1 else if ev == Unpin(e) then -1 else 0),
                     r.marked || ev == Mark(e))
  {
    WrapSteps(uses, 1);
    hide Wrap, Kept, Spared;
  }

  lemma StandsOn(evs: seq<Event>, k: nat, n: nat)
    requires k < n < |evs| && evs[k].Add? && Stands(evs, k, n)
    ensures Stands(evs, k, n + 1) <==> (evs[n].Sweep? ==> Missed(evs, k, n))
    ensures !Stands(evs, k, n + 1) ==> evs[k].e !in Run(evs[..n + 1]).recs
  {
    var e, since, s := evs[k].e, evs[k + 1..n], Run(evs[..n]);
    SinceNext(evs, k, n);
    RunLast(evs[..n + 1]);
    UsesNext(since, evs[n], e);
    OneCall(s, evs[n], e, s.recs[e], Uses(since, e));
    ListPinsCount(evs[..n]);
    hide Run, Uses, ListUses, Step;
  }

  lemma StandsAtFirst(evs: seq<Event>, k: nat)
    requires Begins(evs, k)
    ensures Stands(evs, k, k + 1)
  {
    assert evs[..k + 1][..k] == evs[..k];
    RunLast(evs[..k + 1]);
    WrapZero();
    hide Run, Wrap;
  }

  lemma {:induction false} StandsAsLong(evs: seq<Event>, k: nat, n: nat)
    requires Begins(evs, k) && k < n <= |evs|
    requires forall i :: k < i < n && evs[i].Sweep? ==> Missed(evs, k, i)
    ensures Stands(evs, k, n)
    decreases n
  {
    assert evs[k].Add?;
    hide Stands, Missed, Begins;
    if n == k + 1 {
      StandsAtFirst(evs, k);
    } else {
      StandsAsLong(evs, k, n - 1);
      StandsOn(evs, k, n - 1);
    }
  }

  /** A link that was added is in list and map ever since, under the id it was added with, exactly when
      every sweep since found the list pinned, or the link pinned, unmarked or not overdue. */
  lemma StaysExactlyWhen(evs: seq<Event>, k: nat)
    requires Begins(evs, k)
    ensures (forall n :: k < n <= |evs| ==> evs[k].e in Run(evs[..n]).recs)
            <==> (forall i :: k < i < |evs| && evs[i].Sweep? ==> Missed(evs, k, i))
    ensures (forall i :: k < i < |evs| && evs[i].Sweep? ==> Missed(evs, k, i)) ==>
              var s := Run(evs);
              evs[k].e in s.list && evs[k].e in s.recs && s.recs[evs[k].e].linkId == evs[k].linkId
  {
    hide Run, Missed;
    if forall i :: k < i < |evs| && evs[i].Sweep? ==> Missed(evs, k, i) {
      forall n | k < n <= |evs| ensures evs[k].e in Run(evs[..n]).recs {
        StandsAsLong(evs, k, n);
      }
      StandsAsLong(evs, k, |evs|);
      assert evs[..|evs|] == evs;
      RunSame(evs);
    } else {
      var i := FirstHit(evs, k);
      StandsAsLong(evs, k, i);
      StandsOn(evs, k, i);
    }
  }

  lemma FirstHit(evs: seq<Event>, k: nat) returns (i: nat)
    requires k < |evs| && evs[k].Add?
    requires !forall i :: k < i < |evs| && evs[i].Sweep? ==> Missed(evs, k, i)
    ensures k < i < |evs| && evs[i].Sweep? && !Missed(evs, k, i)
    ensures forall j :: k < j < i && evs[j].Sweep? ==> Missed(evs, k, j)
  {
    hide Missed;
    i := k + 1;
    while i < |evs| && (evs[i].Sweep? ==> Missed(evs, k, i))
      invariant k < i <= |evs|
      invariant forall j :: k < j < i && evs[j].Sweep? ==> Missed(evs, k, j)
    {
      i := i + 1;
    }
  }
}
