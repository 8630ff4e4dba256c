/** How long a group can be found at a node: from its creation, if its owner is known, until it is
    destroyed or the connection of its owner is gone. */
module GroupLife {
  import opened Seq32
  import opened Packets
  import opened GroupTable

  // ---- the remote maps as one map of maps

  /** The groups listed for an endpoint, if it is listed. */
  function GroupsOf(rs: seq<Remote>, etp: Endpoint): Option<map<u32, Handle>> {
    if rs == [] then None else if rs[0].etp == etp then Some(rs[0].groups) else GroupsOf(rs[1..], etp)
  }

  lemma {:induction false} NotBefore(rs: seq<Remote>, etp: Endpoint)
    requires Ordered(rs) && rs != [] && etp < rs[0].etp
    ensures GroupsOf(rs, etp) == None
  {
    if |rs| > 1 {
      NotBefore(rs[1..], etp);
    }
  }

  lemma TailOrdered(rs: seq<Remote>)
    requires Ordered(rs) && rs != []
    ensures Ordered(rs[1..]) && GroupsOf(rs[1..], rs[0].etp) == None
  {
    if |rs| > 1 {
      NotBefore(rs[1..], rs[0].etp);
    }
  }

  lemma GroupsOfCons(r: Remote, rs: seq<Remote>, etp: Endpoint)
    ensures GroupsOf([r] + rs, etp) == if r.etp == etp then Some(r.groups) else GroupsOf(rs, etp)
  {
    assert ([r] + rs)[1..] == rs;
  }

  /** An endpoint that connects is listed, with no groups, unless it is listed already. */
  lemma {:induction false} InsertLists(rs: seq<Remote>, other: Endpoint, etp: Endpoint)
    requires Ordered(rs)
    ensures GroupsOf(Insert(rs, other), etp) ==
            if etp == other && GroupsOf(rs, etp) == None then Some(map[]) else GroupsOf(rs, etp)
  {
    if rs == [] || other < rs[0].etp {
      GroupsOfCons(Remote(other, map[]), rs, etp);
      if rs != [] {
        NotBefore(rs, other);
      }
    } else if other != rs[0].etp {
      TailOrdered(rs);
      InsertLists(rs[1..], other, etp);
      GroupsOfCons(rs[0], Insert(rs[1..], other), etp);
    }
  }

  /** One whose connection is gone is listed no more, with all its groups. */
  lemma {:induction false} EraseUnlists(rs: seq<Remote>, gone: Endpoint, etp: Endpoint)
    requires Ordered(rs)
    ensures GroupsOf(Erase(rs, gone), etp) == if etp == gone then None else GroupsOf(rs, etp)
  {
    if rs != [] {
      TailOrdered(rs);
      if rs[0].etp != gone {
        EraseUnlists(rs[1..], gone, etp);
        GroupsOfCons(rs[0], Erase(rs[1..], gone), etp);
      }
    }
  }

  /** A group created elsewhere is listed for its owner, if that is listed and has none under this id. */
  lemma {:induction false} AddRemoteLists(rs: seq<Remote>, owner: Endpoint, id: u32, vg: Handle, etp: Endpoint)
    ensures GroupsOf(AddRemote(rs, owner, id, vg), etp) ==
            match GroupsOf(rs, etp)
            case None => None
            case Some(groups) => Some(if etp == owner && id !in groups then groups[id := vg] else groups)
  {
    if rs != [] {
      if rs[0].etp == owner {
        GroupsOfCons(rs[0].(groups := rs[0].groups[id := vg]), rs[1..], etp);
      } else {
        AddRemoteLists(rs[1..], owner, id, vg, etp);
        GroupsOfCons(rs[0], AddRemote(rs[1..], owner, id, vg), etp);
      }
    }
  }

  // ---- where a group is

  /** The only entry under this id: here, or listed for its owner. */
  ghost predicate IsAt(t: Table, id: u32, owner: Option<Endpoint>, vg: Handle) {
    match owner
    case None => EntriesIn(t.remotes, id) == 0 && id in t.locals && t.locals[id] == vg
    case Some(etp) =>
      && EntriesIn(t.remotes, id) == 1 && id !in t.locals
      && GroupsOf(t.remotes, etp).Some? && var groups := GroupsOf(t.remotes, etp).value;
                                           id in groups && groups[id] == vg
  }

  lemma {:induction false} FindsListed(rs: seq<Remote>, id: u32, etp: Endpoint)
    requires EntriesIn(rs, id) == 1 && GroupsOf(rs, etp).Some? && id in GroupsOf(rs, etp).value
    ensures FindIn(rs, id) == Some(GroupsOf(rs, etp).value[id])
    ensures EntriesIn(RemoveIn(rs, id), id) == 0
  {
    RemoveInTakesOne(rs, id);
    if id in rs[0].groups {
      if rs[0].etp != etp {
        ListedCounts(rs[1..], id, etp);
      }
    } else {
      FindsListed(rs[1..], id, etp);
    }
  }

  lemma {:induction false} ListedCounts(rs: seq<Remote>, id: u32, etp: Endpoint)
    requires GroupsOf(rs, etp).Some? && id in GroupsOf(rs, etp).value
    ensures EntriesIn(rs, id) >= 1
  {
    if rs[0].etp != etp {
      ListedCounts(rs[1..], id, etp);
    }
  }

  lemma FoundWhereItIs(t: Table, id: u32, owner: Option<Endpoint>, vg: Handle)
    requires IsAt(t, id, owner, vg)
    ensures Find(t, id) == Some(vg)
  {
    FindInMeans(t.remotes, id);
    if owner.Some? {
      FindsListed(t.remotes, id, owner.value);
    }
  }

  /** Entries of another id, and lists of other endpoints, stay as they are. */
  lemma {:induction false} RemoveInLists(rs: seq<Remote>, gone: u32, id: u32, etp: Endpoint)
    requires id != gone
    ensures EntriesIn(RemoveIn(rs, gone), id) == EntriesIn(rs, id)
    ensures GroupsOf(RemoveIn(rs, gone), etp).Some? <==> GroupsOf(rs, etp).Some?
    ensures GroupsOf(rs, etp).Some? ==>
              var was, now := GroupsOf(rs, etp).value, GroupsOf(RemoveIn(rs, gone), etp).value;
              (id in now <==> id in was) && (id in was ==> now[id] == was[id])
  {
    if rs != [] {
      if gone in rs[0].groups {
        var first := rs[0].(groups := rs[0].groups - {gone});
        GroupsOfCons(first, rs[1..], etp);
        assert ([first] + rs[1..])[1..] == rs[1..];
      } else {
        RemoveInLists(rs[1..], gone, id, etp);
        GroupsOfCons(rs[0], RemoveIn(rs[1..], gone), etp);
        assert ([rs[0]] + RemoveIn(rs[1..], gone))[1..] == RemoveIn(rs[1..], gone);
      }
    }
  }

  lemma {:induction false} EraseKeepsOther(rs: seq<Remote>, gone: Endpoint, id: u32, etp: Endpoint)
    requires EntriesIn(rs, id) == 1 && GroupsOf(rs, etp).Some? && id in GroupsOf(rs, etp).value
    ensures EntriesIn(Erase(rs, gone), id) == if gone == etp then 0 else 1
  {
    if rs[0].etp == gone {
      if gone != etp {
        ListedCounts(rs[1..], id, etp);
      }
    } else {
      assert ([rs[0]] + Erase(rs[1..], gone))[1..] == Erase(rs[1..], gone);
      if id in rs[0].groups {
        if rs[0].etp != etp {
          ListedCounts(rs[1..], id, etp);
        }
        EraseAdds(rs[1..], gone, id);
      } else {
        EraseKeepsOther(rs[1..], gone, id, etp);
      }
    }
  }

  lemma {:induction false} OtherAdded(rs: seq<Remote>, owner: Endpoint, added: u32, vg: Handle, id: u32)
    requires id != added
    ensures EntriesIn(AddRemote(rs, owner, added, vg), id) == EntriesIn(rs, id)
  {
    if rs != [] {
      if rs[0].etp == owner {
        var first := rs[0].(groups := rs[0].groups[added := vg]);
        assert ([first] + rs[1..])[1..] == rs[1..];
      } else {
        OtherAdded(rs[1..], owner, added, vg, id);
        assert ([rs[0]] + AddRemote(rs[1..], owner, added, vg))[1..] == AddRemote(rs[1..], owner, added, vg);
      }
    }
  }

  predicate IsCreation(ev: Event, id: u32) {
    (ev.CreateRemote? || ev.CreateLocal?) && ev.id == id
  }

  /** The event takes the group away: it is destroyed, or the connection of its owner, no direct one, is gone. */
  predicate Ends(ev: Event, id: u32, owner: Option<Endpoint>) {
    ev == Destroy(id) || (owner.Some? && ev == Disconnected(owner.value, false))
  }

  lemma StaysUnlessEnded(t: Table, ev: Event, id: u32, owner: Option<Endpoint>, vg: Handle)
    requires Ordered(t.remotes) && IsAt(t, id, owner, vg) && !IsCreation(ev, id)
    ensures if Ends(ev, id, owner) then Entries(Step(t, ev), id) == 0 else IsAt(Step(t, ev), id, owner, vg)
  {
    var etp := if owner.Some? then owner.value else 0;
    match ev
    case Connected(other) =>
      InsertAdds(t.remotes, other, id);
      InsertLists(t.remotes, other, etp);
    case Disconnected(gone, _) =>
      EraseAdds(t.remotes, gone, id);
      EraseUnlists(t.remotes, gone, etp);
      if owner.Some? {
        EraseKeepsOther(t.remotes, gone, id, etp);
      }
    case CreateRemote(other, maker, h) =>
      OtherAdded(t.remotes, maker, other, h, id);
      AddRemoteLists(t.remotes, maker, other, h, etp);
    case CreateLocal(_, _) =>
    case Destroy(gone) =>
      FindInMeans(t.remotes, gone);
      if gone != id {
        RemoveInLists(t.remotes, gone, id, etp);
      } else if owner.Some? {
        FindsListed(t.remotes, id, etp);
      }
  }

  lemma NoneStaysNone(t: Table, ev: Event, id: u32)
    requires Entries(t, id) == 0 && !IsCreation(ev, id)
    ensures Entries(Step(t, ev), id) == 0
  {
    StepAdds(t, ev, id);
  }

  /** A creation files the group, unless it comes from an endpoint that is not listed. */
  lemma CreationFiles(t: Table, ev: Event)
    requires Entries(t, if ev.CreateRemote? || ev.CreateLocal? then ev.id else 0) == 0
    requires ev.CreateRemote? || ev.CreateLocal?
    ensures ev.CreateLocal? ==> IsAt(Step(t, ev), ev.id, None, ev.vg)
    ensures ev.CreateRemote? && GroupsOf(t.remotes, ev.owner).Some? ==> IsAt(Step(t, ev), ev.id, Some(ev.owner), ev.vg)
    ensures ev.CreateRemote? && GroupsOf(t.remotes, ev.owner) == None ==> Entries(Step(t, ev), ev.id) == 0
  {
    if ev.CreateRemote? {
      AddRemoteLists(t.remotes, ev.owner, ev.id, ev.vg, ev.owner);
      AddRemoteAdds(t.remotes, ev.owner, ev.id, ev.vg, ev.id);
      if GroupsOf(t.remotes, ev.owner).Some? {
        if ev.id in GroupsOf(t.remotes, ev.owner).value {
          ListedCounts(t.remotes, ev.id, ev.owner);
        }
        ListedCounts(AddRemote(t.remotes, ev.owner, ev.id, ev.vg), ev.id, ev.owner);
      } else {
        UnknownOwner(t.remotes, ev.owner, ev.id, ev.vg);
      }
    }
  }

  lemma {:induction false} UnknownOwner(rs: seq<Remote>, owner: Endpoint, id: u32, vg: Handle)
    requires GroupsOf(rs, owner) == None
    ensures AddRemote(rs, owner, id, vg) == rs
  {
    if rs != [] {
      UnknownOwner(rs[1..], owner, id, vg);
    }
  }

  // ---- over runs

  /** With event i the endpoint connects, and no loss of its connection was reported since, other than of a
      direct one. */
  ghost predicate ListedSince(evs: seq<Event>, etp: Endpoint, i: nat) {
    i < |evs| && evs[i] == Connected(etp) && Disconnected(etp, false) !in evs[i + 1..]
  }

  ghost predicate IsListed(evs: seq<Event>, etp: Endpoint) {
    exists i: nat :: ListedSince(evs, etp, i)
  }

  lemma SinceNext(front: seq<Event>, last: Event, etp: Endpoint, i: nat)
    ensures i < |front| ==>
              (ListedSince(front + [last], etp, i) <==> ListedSince(front, etp, i) && last != Disconnected(etp, false))
    ensures ListedSince(front + [last], etp, |front|) <==> last == Connected(etp)
    ensures i > |front| ==> !ListedSince(front + [last], etp, i)
    ensures i >= |front| ==> !ListedSince(front, etp, i)
  {
    if i < |front| {
      assert (front + [last])[i + 1..] == front[i + 1..] + [last];
    }
    assert (front + [last])[|front| + 1..] == [];
  }

  lemma ListedNext(front: seq<Event>, last: Event, etp: Endpoint)
    ensures IsListed(front + [last], etp) <==>
            last == Connected(etp) || (IsListed(front, etp) && last != Disconnected(etp, false))
  {
    hide ListedSince;
    SinceNext(front, last, etp, |front|);
    if i: nat :| ListedSince(front + [last], etp, i) {
      SinceNext(front, last, etp, i);
    }
    if i: nat :| ListedSince(front, etp, i) {
      SinceNext(front, last, etp, i);
    }
  }

  lemma {:induction false} StillListed(rs: seq<Remote>, gone: u32, etp: Endpoint)
    ensures GroupsOf(RemoveIn(rs, gone), etp).Some? <==> GroupsOf(rs, etp).Some?
  {
    if rs != [] {
      StillListed(rs[1..], gone, etp);
      GroupsOfCons(rs[0].(groups := rs[0].groups - {gone}), rs[1..], etp);
      GroupsOfCons(rs[0], RemoveIn(rs[1..], gone), etp);
    }
  }

  /** Which endpoints are listed, told by what happened. */
  lemma {:induction false} ListedExactlyWhen(evs: seq<Event>, etp: Endpoint)
    ensures GroupsOf(Run(evs).remotes, etp).Some? <==> IsListed(evs, etp)
  {
    if evs != [] {
      var front := evs[..|evs| - 1];
      ListedExactlyWhen(front, etp);
      assert evs == front + [evs[|evs| - 1]];
      ListedNext(front, evs[|evs| - 1], etp);
      RunOrdered(front);
      hide IsListed, Ordered;
      var rs := Run(front).remotes;
      match evs[|evs| - 1]
      case Connected(other) => InsertLists(rs, other, etp);
      case Disconnected(gone, _) => EraseUnlists(rs, gone, etp);
      case CreateRemote(id, owner, vg) => AddRemoteLists(rs, owner, id, vg, etp);
      case CreateLocal(_, _) =>
      case Destroy(id) => StillListed(rs, id, etp);
    }
  }

  /** Event j is the one creation of its id. */
  ghost predicate OnlyCreation(evs: seq<Event>, j: nat) {
    && j < |evs| && (evs[j].CreateRemote? || evs[j].CreateLocal?)
    && forall i :: 0 <= i < |evs| && i != j ==> !IsCreation(evs[i], evs[j].id)
  }

  function OwnerOf(ev: Event): Option<Endpoint> {
    if ev.CreateRemote? then Some(ev.owner) else None
  }

  /** The group of creation j was filed, and none of the events before n took it away since. */
  ghost predicate Survives(evs: seq<Event>, j: nat, n: nat)
    requires j < n <= |evs| && (evs[j].CreateRemote? || evs[j].CreateLocal?)
  {
    && (evs[j].CreateLocal? || IsListed(evs[..j], evs[j].owner))
    && forall i :: j < i < n ==> !Ends(evs[i], evs[j].id, OwnerOf(evs[j]))
  }

  /** The group of creation j is where it was put, or nowhere. */
  ghost predicate Lasts(evs: seq<Event>, j: nat, n: nat)
    requires j < n <= |evs| && (evs[j].CreateRemote? || evs[j].CreateLocal?)
  {
    if Survives(evs, j, n) then IsAt(Run(evs[..n]), evs[j].id, OwnerOf(evs[j]), evs[j].vg)
    else Entries(Run(evs[..n]), evs[j].id) == 0
  }

  lemma RunTo(evs: seq<Event>, n: nat)
    requires 0 < n <= |evs|
    ensures Run(evs[..n]) == Step(Run(evs[..n - 1]), evs[n - 1])
  {
    assert evs[..n][..n - 1] == evs[..n - 1];
    hide Step;
  }

  lemma LastsAtFirst(evs: seq<Event>, j: nat)
    requires OnlyCreation(evs, j)
    ensures Lasts(evs, j, j + 1)
  {
    RunTo(evs, j + 1);
    NoneBefore(evs[..j], evs[j].id);
    CreationFiles(Run(evs[..j]), evs[j]);
    if evs[j].CreateRemote? {
      ListedExactlyWhen(evs[..j], evs[j].owner);
    }
    hide Run, Step, IsListed, IsAt, Entries;
  }

  lemma LastsOn(evs: seq<Event>, j: nat, n: nat)
    requires j < n < |evs| && (evs[j].CreateRemote? || evs[j].CreateLocal?) && Lasts(evs, j, n)
    requires !IsCreation(evs[n], evs[j].id)
    ensures Lasts(evs, j, n + 1)
  {
    assert Survives(evs, j, n + 1) <==> Survives(evs, j, n) && !Ends(evs[n], evs[j].id, OwnerOf(evs[j]));
    hide Run, Step, IsListed, IsAt, Entries, Survives, Ends;
    RunTo(evs, n + 1);
    RunOrdered(evs[..n]);
    if Survives(evs, j, n) {
      StaysUnlessEnded(Run(evs[..n]), evs[n], evs[j].id, OwnerOf(evs[j]), evs[j].vg);
    } else {
      NoneStaysNone(Run(evs[..n]), evs[n], evs[j].id);
    }
  }

  lemma {:induction false} NoneBefore(evs: seq<Event>, id: u32)
    requires forall i :: 0 <= i < |evs| ==> !IsCreation(evs[i], id)
    ensures Entries(Run(evs), id) == 0
  {
    if evs != [] {
      NoneBefore(evs[..|evs| - 1], id);
      NoneStaysNone(Run(evs[..|evs| - 1]), evs[|evs| - 1], id);
    }
  }

  lemma {:induction false} LastsAlways(evs: seq<Event>, j: nat, n: nat)
    requires OnlyCreation(evs, j) && j < n <= |evs|
    ensures Lasts(evs, j, n)
    decreases n
  {
    hide Lasts, Run, IsCreation;
    if n == j + 1 {
      LastsAtFirst(evs, j);
    } else {
      LastsAlways(evs, j, n - 1);
      LastsOn(evs, j, n - 1);
    }
  }

  /** A group created once is found, and is that group, exactly when it was created here or by an endpoint that
      was listed then, and since then it was not destroyed and its owner not lost. */
  lemma FoundExactlyWhen(evs: seq<Event>, j: nat)
    requires OnlyCreation(evs, j)
    ensures Find(Run(evs), evs[j].id).Some? <==>
            && (evs[j].CreateLocal? || IsListed(evs[..j], evs[j].owner))
            && forall i :: j < i < |evs| ==> !Ends(evs[i], evs[j].id, OwnerOf(evs[j]))
    ensures Find(Run(evs), evs[j].id).Some? ==> Find(Run(evs), evs[j].id) == Some(evs[j].vg)
  {
    LastsAlways(evs, j, |evs|);
    assert evs[..|evs|] == evs;
    FindMeans(Run(evs), evs[j].id);
    if IsAt(Run(evs), evs[j].id, OwnerOf(evs[j]), evs[j].vg) {
      FoundWhereItIs(Run(evs), evs[j].id, OwnerOf(evs[j]), evs[j].vg);
    }
    hide Run, Find, IsAt, Entries, IsListed, Ends;
  }
}
