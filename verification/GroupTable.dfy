/** Where a node keeps its variable groups: its own by id, and per remote endpoint those created
    over there. Looking up and removing a group search the remote maps first, in endpoint order. */
module GroupTable {
  import opened Seq32
  import opened Packets

  type Endpoint = nat

  /** A reference to a group. */
  type Handle = nat

  datatype Remote = Remote(etp: Endpoint, groups: map<u32, Handle>)

  datatype Table = Table(locals: map<u32, Handle>, remotes: seq<Remote>)

  /** The remote maps stand in endpoint order, as the ordered map of the source keeps them. */
  ghost predicate Ordered(rs: seq<Remote>) {
    forall i, j :: 0 <= i < j < |rs| ==> rs[i].etp < rs[j].etp
  }

  function FindIn(rs: seq<Remote>, id: u32): Option<Handle> {
    if rs == [] then None else if id in rs[0].groups then Some(rs[0].groups[id]) else FindIn(rs[1..], id)
  }

  function Find(t: Table, id: u32): Option<Handle> {
    match FindIn(t.remotes, id)
    case Some(vg) => Some(vg)
    case None => if id in t.locals then Some(t.locals[id]) else None
  }

  function RemoveIn(rs: seq<Remote>, id: u32): seq<Remote> {
    if rs == [] then []
    else if id in rs[0].groups then [rs[0].(groups := rs[0].groups - {id})] + rs[1..]
    else [rs[0]] + RemoveIn(rs[1..], id)
  }

  function Remove(t: Table, id: u32): Table {
    if FindIn(t.remotes, id).Some? then t.(remotes := RemoveIn(t.remotes, id)) else t.(locals := t.locals - {id})
  }

  /** How many entries an id keys, over all the maps. */
  function EntriesIn(rs: seq<Remote>, id: u32): nat {
    if rs == [] then 0 else (if id in rs[0].groups then 1 else 0) + EntriesIn(rs[1..], id)
  }

  function Entries(t: Table, id: u32): nat {
    EntriesIn(t.remotes, id) + if id in t.locals then 1 else 0
  }

  // ---- looking up and removing

  lemma {:induction false} FindInMeans(rs: seq<Remote>, id: u32)
    ensures FindIn(rs, id).Some? <==> EntriesIn(rs, id) > 0
  {
    if rs != [] {
      FindInMeans(rs[1..], id);
    }
  }

  lemma {:induction false} RemoveInTakesOne(rs: seq<Remote>, id: u32)
    requires EntriesIn(rs, id) > 0
    ensures EntriesIn(RemoveIn(rs, id), id) == EntriesIn(rs, id) - 1
  {
    if id !in rs[0].groups {
      RemoveInTakesOne(rs[1..], id);
      assert ([rs[0]] + RemoveIn(rs[1..], id))[1..] == RemoveIn(rs[1..], id);
    } else {
      var first := rs[0].(groups := rs[0].groups - {id});
      assert ([first] + rs[1..])[1..] == rs[1..];
    }
  }

  lemma FindMeans(t: Table, id: u32)
    ensures Find(t, id).Some? <==> Entries(t, id) > 0
  {
    FindInMeans(t.remotes, id);
  }

  /** After a removal the id is not found any more exactly when it keyed at most one entry. */
  lemma RemovalCompleteExactlyWhen(t: Table, id: u32)
    ensures Find(Remove(t, id), id) == None <==> Entries(t, id) <= 1
  {
    FindInMeans(t.remotes, id);
    if FindIn(t.remotes, id).Some? {
      RemoveInTakesOne(t.remotes, id);
    }
    FindMeans(Remove(t, id), id);
  }

  /** The maps agree on everything but one id. */
  ghost predicate SameBut(t: Table, t': Table, id: u32) {
    && |t'.remotes| == |t.remotes|
    && (forall i, k :: 0 <= i < |t.remotes| && k != id ==> SameAt(t.remotes[i], t'.remotes[i], k))
    && (forall k :: k != id ==> (k in t'.locals <==> k in t.locals) && (k in t.locals ==> t'.locals[k] == t.locals[k]))
  }

  ghost predicate SameAt(r: Remote, r': Remote, k: u32) {
    r'.etp == r.etp && (k in r'.groups <==> k in r.groups) && (k in r.groups ==> r'.groups[k] == r.groups[k])
  }

  lemma {:induction false} RemoveInSame(rs: seq<Remote>, id: u32, i: nat, k: u32)
    requires i < |rs|
    ensures |RemoveIn(rs, id)| == |rs|
    ensures k != id ==> SameAt(rs[i], RemoveIn(rs, id)[i], k)
  {
    if id !in rs[0].groups && |rs| > 1 {
      RemoveInSame(rs[1..], id, if i > 0 then i - 1 else 0, k);
    }
  }

  /** No other group is touched, in whichever map it is. */
  lemma RemovalTouchesNoOther(t: Table, id: u32)
    ensures SameBut(t, Remove(t, id), id)
  {
    if FindIn(t.remotes, id).Some? {
      RemoveInSame(t.remotes, id, 0, id);
      forall i, k | 0 <= i < |t.remotes| && k != id ensures SameAt(t.remotes[i], RemoveIn(t.remotes, id)[i], k) {
        RemoveInSame(t.remotes, id, i, k);
      }
    }
  }

  // ---- how entries come and go

  /** An endpoint becomes known, with no groups yet, unless it is known already. */
  function Insert(rs: seq<Remote>, etp: Endpoint): seq<Remote> {
    if rs == [] || etp < rs[0].etp then [Remote(etp, map[])] + rs
    else if etp == rs[0].etp then rs
    else [rs[0]] + Insert(rs[1..], etp)
  }

  function Erase(rs: seq<Remote>, etp: Endpoint): seq<Remote> {
    if rs == [] then [] else if rs[0].etp == etp then rs[1..] else [rs[0]] + Erase(rs[1..], etp)
  }

  /** A group created elsewhere goes under its owner; one of an unknown owner is discarded. */
  function AddRemote(rs: seq<Remote>, etp: Endpoint, id: u32, vg: Handle): seq<Remote> {
    if rs == [] then []
    else if rs[0].etp == etp then
      (if id in rs[0].groups then rs else [rs[0].(groups := rs[0].groups[id := vg])] + rs[1..])
    else [rs[0]] + AddRemote(rs[1..], etp, id, vg)
  }

  datatype Event =
    | Connected(etp: Endpoint)
    | Disconnected(etp: Endpoint, directLink: bool)
    | CreateRemote(id: u32, owner: Endpoint, vg: Handle)
    | CreateLocal(id: u32, vg: Handle)
    | Destroy(id: u32)

  function Step(t: Table, ev: Event): Table {
    match ev
    case Connected(etp) => t.(remotes := Insert(t.remotes, etp))
    case Disconnected(etp, directLink) => if directLink then t else t.(remotes := Erase(t.remotes, etp))
    case CreateRemote(id, owner, vg) => t.(remotes := AddRemote(t.remotes, owner, id, vg))
    case CreateLocal(id, vg) => t.(locals := if id in t.locals then t.locals else t.locals[id := vg])
    case Destroy(id) => Remove(t, id)
  }

  function Run(evs: seq<Event>): Table {
    if evs == [] then Table(map[], []) else Step(Run(evs[..|evs| - 1]), evs[|evs| - 1])
  }

  /** How often an id is created, here or elsewhere, in a run. */
  function Creations(evs: seq<Event>, id: u32): nat {
    if evs == [] then 0
    else
      var ev := evs[|evs| - 1];
      Creations(evs[..|evs| - 1], id) + if (ev.CreateRemote? || ev.CreateLocal?) && ev.id == id then 1 else 0
  }

  lemma {:induction false} InsertAdds(rs: seq<Remote>, etp: Endpoint, id: u32)
    ensures EntriesIn(Insert(rs, etp), id) == EntriesIn(rs, id)
  {
    if rs == [] || etp < rs[0].etp {
      assert ([Remote(etp, map[])] + rs)[1..] == rs;
    } else if etp != rs[0].etp {
      InsertAdds(rs[1..], etp, id);
      assert ([rs[0]] + Insert(rs[1..], etp))[1..] == Insert(rs[1..], etp);
    }
  }

  lemma {:induction false} EraseAdds(rs: seq<Remote>, etp: Endpoint, id: u32)
    ensures EntriesIn(Erase(rs, etp), id) <= EntriesIn(rs, id)
  {
    if rs != [] && rs[0].etp != etp {
      EraseAdds(rs[1..], etp, id);
      assert ([rs[0]] + Erase(rs[1..], etp))[1..] == Erase(rs[1..], etp);
    }
  }

  lemma {:induction false} AddRemoteAdds(rs: seq<Remote>, etp: Endpoint, added: u32, vg: Handle, id: u32)
    ensures EntriesIn(AddRemote(rs, etp, added, vg), id) <= EntriesIn(rs, id) + if id == added then 1 else 0
  {
    if rs != [] {
      if rs[0].etp == etp {
        var first := rs[0].(groups := rs[0].groups[added := vg]);
        assert ([first] + rs[1..])[1..] == rs[1..];
      } else {
        AddRemoteAdds(rs[1..], etp, added, vg, id);
        assert ([rs[0]] + AddRemote(rs[1..], etp, added, vg))[1..] == AddRemote(rs[1..], etp, added, vg);
      }
    }
  }

  lemma {:induction false} RemoveInAdds(rs: seq<Remote>, gone: u32, id: u32)
    ensures EntriesIn(RemoveIn(rs, gone), id) <= EntriesIn(rs, id)
  {
    if rs != [] {
      if gone in rs[0].groups {
        var first := rs[0].(groups := rs[0].groups - {gone});
        assert ([first] + rs[1..])[1..] == rs[1..];
      } else {
        RemoveInAdds(rs[1..], gone, id);
        assert ([rs[0]] + RemoveIn(rs[1..], gone))[1..] == RemoveIn(rs[1..], gone);
      }
    }
  }

  lemma StepAdds(t: Table, ev: Event, id: u32)
    ensures Entries(Step(t, ev), id)
            <= Entries(t, id) + if (ev.CreateRemote? || ev.CreateLocal?) && ev.id == id then 1 else 0
  {
    match ev
    case Connected(etp) => InsertAdds(t.remotes, etp, id);
    case Disconnected(etp, _) => EraseAdds(t.remotes, etp, id);
    case CreateRemote(n, owner, vg) => AddRemoteAdds(t.remotes, owner, n, vg, id);
    case CreateLocal(_, _) =>
    case Destroy(gone) => RemoveInAdds(t.remotes, gone, id);
  }

  lemma {:induction false} EntriesBounded(evs: seq<Event>, id: u32)
    ensures Entries(Run(evs), id) <= Creations(evs, id)
  {
    if evs != [] {
      EntriesBounded(evs[..|evs| - 1], id);
      StepAdds(Run(evs[..|evs| - 1]), evs[|evs| - 1], id);
    }
  }

  /** If the creation of an id reached this node at most once, then whatever
      came and went since, destroying the group leaves nothing under its id and all else alone. */
  lemma CreatedOnceRemoved(evs: seq<Event>, id: u32)
    requires Creations(evs, id) <= 1
    ensures Find(Run(evs + [Destroy(id)]), id) == None
    ensures SameBut(Run(evs), Run(evs + [Destroy(id)]), id)
  {
    assert (evs + [Destroy(id)])[..|evs|] == evs;
    EntriesBounded(evs, id);
    RemovalCompleteExactlyWhen(Run(evs), id);
    RemovalTouchesNoOther(Run(evs), id);
  }

  /** With one id under two endpoints, removal leaves the second behind. */
  lemma SecondEntryStays(id: u32, vg: Handle, other: Handle)
    ensures var evs := [Connected(1), Connected(2), CreateRemote(id, 1, vg), CreateRemote(id, 2, other), Destroy(id)];
            Find(Run(evs), id) == Some(other)
  {
    var evs := [Connected(1), Connected(2), CreateRemote(id, 1, vg), CreateRemote(id, 2, other), Destroy(id)];
    assert evs[..4][..3] == evs[..3] && evs[..3][..2] == evs[..2] && evs[..2][..1] == evs[..1] && evs[..1][..0] == [];
    var a, b, a', b' := Remote(1, map[]), Remote(2, map[]), Remote(1, map[id := vg]), Remote(2, map[id := other]);
    assert Run(evs[..0]) == Table(map[], []);
    assert Run(evs[..1]).remotes == [a];
    assert [a][1..] == [] && Run(evs[..2]).remotes == [a, b];
    assert [a, b][1..] == [b] && Run(evs[..3]).remotes == [a', b];
    assert [a', b][1..] == [b] && AddRemote([b], 2, id, other) == [b'] && Run(evs[..4]).remotes == [a', b'];
    assert [a', b'][1..] == [b'] && a'.groups - {id} == map[] && Run(evs).remotes == [a, b'];
    assert [a, b'][1..] == [b'] && FindIn([b'], id) == Some(other);
  }

  // ---- the remote maps stay an ordered map

  lemma {:induction false} InsertAmong(rs: seq<Remote>, etp: Endpoint, r: Remote)
    ensures r in Insert(rs, etp) ==> r.etp == etp || r in rs
  {
    if rs != [] && rs[0].etp < etp {
      InsertAmong(rs[1..], etp, r);
    }
  }

  lemma {:induction false} InsertOrdered(rs: seq<Remote>, etp: Endpoint)
    requires Ordered(rs)
    ensures Ordered(Insert(rs, etp))
  {
    if rs != [] && rs[0].etp < etp {
      InsertOrdered(rs[1..], etp);
      var more := Insert(rs[1..], etp);
      forall i | 0 <= i < |more| ensures rs[0].etp < more[i].etp {
        InsertAmong(rs[1..], etp, more[i]);
        assert more[i] in more;
        assert forall j :: 0 <= j < |rs| - 1 ==> rs[1..][j] == rs[j + 1];
      }
    }
  }

  /** Which endpoints are listed, in list order. */
  function Etps(rs: seq<Remote>): (es: seq<Endpoint>)
    ensures |es| == |rs|
  {
    seq(|rs|, i requires 0 <= i < |rs| => rs[i].etp)
  }

  lemma {:induction false} EraseOrdered(rs: seq<Remote>, etp: Endpoint)
    requires Ordered(rs)
    ensures Ordered(Erase(rs, etp))
    ensures forall r :: r in Erase(rs, etp) <==> r in rs && r.etp != etp
  {
    if rs != [] && rs[0].etp != etp {
      EraseOrdered(rs[1..], etp);
      var rest := Erase(rs[1..], etp);
      forall i | 0 <= i < |rest| ensures rs[0].etp < rest[i].etp {
        assert rest[i] in rs[1..];
      }
    }
  }

  lemma {:induction false} SameEtps(rs: seq<Remote>, etp: Endpoint, id: u32, vg: Handle)
    ensures Etps(AddRemote(rs, etp, id, vg)) == Etps(rs)
    ensures Etps(RemoveIn(rs, id)) == Etps(rs)
  {
    if rs != [] {
      SameEtps(rs[1..], etp, id, vg);
      EtpsCons(rs);
      EtpsCons([rs[0]] + AddRemote(rs[1..], etp, id, vg));
      EtpsCons([rs[0]] + RemoveIn(rs[1..], id));
      EtpsCons([rs[0].(groups := rs[0].groups[id := vg])] + rs[1..]);
      EtpsCons([rs[0].(groups := rs[0].groups - {id})] + rs[1..]);
      hide Etps;
    }
  }

  lemma EtpsCons(rs: seq<Remote>)
    requires rs != []
    ensures Etps(rs) == [rs[0].etp] + Etps(rs[1..])
  {
  }

  lemma OrderedByEtps(rs: seq<Remote>, rs': seq<Remote>)
    requires Ordered(rs) && Etps(rs') == Etps(rs)
    ensures Ordered(rs')
  {
    forall i | 0 <= i < |rs| ensures rs'[i].etp == rs[i].etp {
      assert Etps(rs')[i] == Etps(rs)[i];
    }
  }

  lemma {:induction false} RunOrdered(evs: seq<Event>)
    ensures Ordered(Run(evs).remotes)
  {
    if evs != [] {
      var t, ev := Run(evs[..|evs| - 1]), evs[|evs| - 1];
      RunOrdered(evs[..|evs| - 1]);
      hide Run, Ordered, Etps;
      match ev
      case Connected(etp) => InsertOrdered(t.remotes, etp);
      case Disconnected(etp, _) => EraseOrdered(t.remotes, etp);
      case CreateRemote(id, owner, vg) =>
        SameEtps(t.remotes, owner, id, vg);
        OrderedByEtps(t.remotes, AddRemote(t.remotes, owner, id, vg));
      case CreateLocal(_, _) =>
      case Destroy(id) =>
        SameEtps(t.remotes, 0, id, 0);
        OrderedByEtps(t.remotes, RemoveIn(t.remotes, id));
    }
  }

  // ---- the maps themselves, updated in place

  lemma WalkOn(rs: seq<Remote>, i: nat, more: seq<Remote>)
    requires i < |rs|
    ensures rs[i..][0] == rs[i] && rs[i..][1..] == rs[i + 1..]
    ensures rs[..i] + ([rs[i]] + more) == rs[..i + 1] + more
  {
  }

  lemma Replaced(rs: seq<Remote>, i: nat, r: Remote)
    requires i < |rs|
    ensures rs[..i] + ([r] + rs[i + 1..]) == rs[i := r]
  {
  }

  class VariableGroups {
    var variableGroups: map<u32, Handle>
    var remoteVariableGroups: seq<Remote>

    function View(): Table
      reads this
    {
      Table(variableGroups, remoteVariableGroups)
    }

    constructor ()
      ensures View() == Run([])
    {
      variableGroups, remoteVariableGroups := map[], [];
    }

    method FindGroup(networkId: u32) returns (vg: Option<Handle>)
      ensures vg == Find(View(), networkId)
    {
      var i := 0;
      while i < |remoteVariableGroups|
        invariant i <= |remoteVariableGroups|
        invariant FindIn(remoteVariableGroups, networkId) == FindIn(remoteVariableGroups[i..], networkId)
      {
        var group := remoteVariableGroups[i].groups;
        if networkId in group {
          return Some(group[networkId]);
        }
        i := i + 1;
      }
      if networkId in variableGroups {
        return Some(variableGroups[networkId]);
      }
      return None;
    }

    method RemoveGroup(networkId: u32) returns (removed: bool)
      modifies this
      ensures View() == Remove(old(View()), networkId)
      ensures removed <==> Find(old(View()), networkId).Some?
    {
      var i := 0;
      var rs := remoteVariableGroups;
      while i < |rs|
        invariant i <= |rs| && remoteVariableGroups == rs && variableGroups == old(variableGroups)
        invariant FindIn(rs, networkId) == FindIn(rs[i..], networkId)
        invariant RemoveIn(rs, networkId) == rs[..i] + RemoveIn(rs[i..], networkId)
      {
        WalkOn(rs, i, RemoveIn(rs[i + 1..], networkId));
        if networkId in rs[i].groups {
          Replaced(rs, i, rs[i].(groups := rs[i].groups - {networkId}));
          remoteVariableGroups := rs[i := rs[i].(groups := rs[i].groups - {networkId})];
          return true;
        }
        i := i + 1;
      }
      removed := networkId in variableGroups;
      variableGroups := variableGroups - {networkId};
    }

    /** Files a new group under its owner, or under this node when there is none. */
    method BeginNewGroup(networkId: u32, owner: Option<Endpoint>, vg: Handle)
      modifies this
      ensures var ev := if owner.Some? then CreateRemote(networkId, owner.value, vg) else CreateLocal(networkId, vg);
              View() == Step(old(View()), ev)
    {
      if owner.Some? {
        var i, rs := 0, remoteVariableGroups;
        while i < |rs|
          invariant i <= |rs| && remoteVariableGroups == rs && variableGroups == old(variableGroups)
          invariant AddRemote(rs, owner.value, networkId, vg)
                    == rs[..i] + AddRemote(rs[i..], owner.value, networkId, vg)
        {
          WalkOn(rs, i, AddRemote(rs[i + 1..], owner.value, networkId, vg));
          if rs[i].etp == owner.value {
            if networkId !in rs[i].groups {
              Replaced(rs, i, rs[i].(groups := rs[i].groups[networkId := vg]));
              remoteVariableGroups := rs[i := rs[i].(groups := rs[i].groups[networkId := vg])];
            }
            return;
          }
          i := i + 1;
        }
      } else if networkId !in variableGroups {
        variableGroups := variableGroups[networkId := vg];
      }
    }

    method OnNewConnection(etp: Endpoint)
      modifies this`remoteVariableGroups
      ensures View() == Step(old(View()), Connected(etp))
    {
      remoteVariableGroups := Insert(remoteVariableGroups, etp);
    }

    method OnDisconnect(directLink: bool, etp: Endpoint)
      modifies this`remoteVariableGroups
      ensures View() == Step(old(View()), Disconnected(etp, directLink))
    {
      if directLink {
        return;
      }
      remoteVariableGroups := Erase(remoteVariableGroups, etp);
    }
  }
}
