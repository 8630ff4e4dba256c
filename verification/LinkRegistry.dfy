/** The open links of a node, held twice: by endpoint in a map, and in a list that is walked by
    index. Links are pinned while somebody uses them, and deleted some time after they were marked
    for deletion. */
module LinkRegistry {
  import opened Seq32
  import LinkLife

  type Endpoint = nat

  class OpenLink {
    const endpoint: Endpoint
    const linkId: u32
    var pinnedCount: u32
    var pendingDelete: bool

    constructor (endpoint: Endpoint, linkId: u32)
      ensures this.endpoint == endpoint && this.linkId == linkId && pinnedCount == 0 && !pendingDelete
    {
      this.endpoint, this.linkId, pinnedCount, pendingDelete := endpoint, linkId, 0, false;
    }

    method MarkPendingDelete()
      modifies this`pendingDelete
      ensures pendingDelete
    {
      pendingDelete := true;
    }

    predicate IsPinned()
      reads this
    {
      pinnedCount > 0
    }
  }

  /** List and map hold the same links, each once, under its own endpoint. */
  ghost predicate Agree(list: seq<OpenLink>, links: map<Endpoint, OpenLink>) {
    && (forall i, j :: 0 <= i < j < |list| ==> list[i] != list[j])
    && (forall i :: 0 <= i < |list| ==> list[i].endpoint in links && links[list[i].endpoint] == list[i])
    && (forall e :: e in links ==> links[e] in list && links[e].endpoint == e)
  }

  function Without(list: seq<OpenLink>, i: nat): seq<OpenLink>
    requires i < |list|
  {
    list[..i] + list[i + 1..]
  }

  lemma AddKeeps(list: seq<OpenLink>, links: map<Endpoint, OpenLink>, link: OpenLink)
    requires Agree(list, links) && link.endpoint !in links
    ensures Agree(list + [link], links[link.endpoint := link])
  {
    var links' := links[link.endpoint := link];
    forall e | e in links' ensures links'[e] in list + [link] && links'[e].endpoint == e {
      assert e in links || e == link.endpoint;
    }
  }

  lemma EraseKeeps(list: seq<OpenLink>, links: map<Endpoint, OpenLink>, i: nat)
    requires Agree(list, links) && i < |list|
    ensures Agree(Without(list, i), links - {list[i].endpoint})
    ensures forall l :: l in Without(list, i) <==> l in list && l != list[i]
  {
    var rest, links' := Without(list, i), links - {list[i].endpoint};
    forall k | 0 <= k < |rest|
      ensures rest[k] != list[i] && rest[k].endpoint in links' && links'[rest[k].endpoint] == rest[k]
    {
      assert rest[k] == list[if k < i then k else k + 1];
    }
    forall e | e in links' ensures links'[e] in rest && links'[e].endpoint == e {
      var k :| 0 <= k < |list| && list[k] == links[e];
      assert rest[if k < i then k else k - 1] == list[k];
    }
  }

  // ---- who is deleted

  /** Deleted are exactly the links that are marked, unpinned, and marked long enough ago. */
  predicate Dies(l: OpenLink, overdue: set<OpenLink>)
    reads l
  {
    !l.IsPinned() && l.pendingDelete && l in overdue
  }

  /** The links that stay, in order. */
  ghost function Survivors(list: seq<OpenLink>, overdue: set<OpenLink>): (kept: seq<OpenLink>)
    reads list
  {
    if list == [] then []
    else
      var last := list[|list| - 1];
      Survivors(list[..|list| - 1], overdue) + if Dies(last, overdue) then [] else [last]
  }

  /** What is in use, what nobody marked, and what was marked only a while ago stays. */
  lemma {:induction false} SurvivorsAre(list: seq<OpenLink>, overdue: set<OpenLink>, l: OpenLink)
    ensures l in Survivors(list, overdue) <==>
            l in list && (l.pinnedCount > 0 || !l.pendingDelete || l !in overdue)
  {
    if list != [] {
      SurvivorsAre(list[..|list| - 1], overdue, l);
    }
  }

  // ---- the links as values

  function RecOf(l: OpenLink): LinkLife.Rec
    reads l
  {
    LinkLife.Rec(l.linkId, l.pinnedCount, l.pendingDelete)
  }

  ghost function Endpoints(list: seq<OpenLink>): (es: seq<Endpoint>)
    ensures |es| == |list|
  {
    seq(|list|, i requires 0 <= i < |list| => list[i].endpoint)
  }

  ghost function Recs(links: map<Endpoint, OpenLink>): map<Endpoint, LinkLife.Rec>
    reads links.Values
  {
    map e | e in links :: RecOf(links[e])
  }

  /** The endpoints of those links of the list whose time is up. */
  ghost function Due(list: seq<OpenLink>, overdue: set<OpenLink>): set<Endpoint> {
    set l | l in list && l in overdue :: l.endpoint
  }

  lemma DueIs(list: seq<OpenLink>, links: map<Endpoint, OpenLink>, overdue: set<OpenLink>, l: OpenLink)
    requires Agree(list, links) && l in list
    ensures l.endpoint in Due(list, overdue) <==> l in overdue
    ensures l.endpoint in links && links[l.endpoint] == l
  {
  }

  /** What a walk keeps is what a sweep of the values keeps. */
  lemma {:induction false} SurvivorsKept(list: seq<OpenLink>, links: map<Endpoint, OpenLink>, overdue: set<OpenLink>,
                                         s: LinkLife.Links, k: nat)
    requires Agree(list, links) && s.recs == Recs(links) && k <= |list|
    ensures Endpoints(Survivors(list[..k], overdue))
            == LinkLife.Kept(Endpoints(list[..k]), s, Due(list, overdue))
  {
    hide Due, Agree;
    if k > 0 {
      var l := list[k - 1];
      SurvivorsKept(list, links, overdue, s, k - 1);
      DueIs(list, links, overdue, l);
      assert list[..k][..k - 1] == list[..k - 1];
      assert Endpoints(list[..k])[..k - 1] == Endpoints(list[..k - 1]) && Endpoints(list[..k])[k - 1] == l.endpoint;
      EndpointsMore(Survivors(list[..k - 1], overdue), l);
    }
  }

  lemma EndpointsMore(list: seq<OpenLink>, l: OpenLink)
    ensures Endpoints(list + [l]) == Endpoints(list) + [l.endpoint] && Endpoints(list + []) == Endpoints(list)
  {
    assert list + [] == list;
  }

  class Registry {
    var openLinksMap: map<Endpoint, OpenLink>
    var openLinksList: seq<OpenLink>
    var listPinned: u32

    ghost predicate Valid()
      reads this
    {
      Agree(openLinksList, openLinksMap)
    }

    ghost function View(): LinkLife.Links
      reads this, openLinksMap.Values
    {
      LinkLife.Links(Endpoints(openLinksList), Recs(openLinksMap), listPinned)
    }

    constructor ()
      ensures Valid() && openLinksList == [] && openLinksMap == map[] && listPinned == 0
      ensures View() == LinkLife.Run([])
    {
      openLinksMap, openLinksList, listPinned := map[], [], 0;
    }

    /** A new link for an endpoint that has none; otherwise nothing. */
    method AddLink(endpoint: Endpoint, linkId: u32) returns (link: OpenLink?)
      requires Valid()
      modifies this`openLinksMap, this`openLinksList
      ensures Valid()
      ensures endpoint in old(openLinksMap) ==>
                link == null && openLinksMap == old(openLinksMap) && openLinksList == old(openLinksList)
      ensures endpoint !in old(openLinksMap) ==>
                && link != null && fresh(link) && link.endpoint == endpoint && link.linkId == linkId
                && !link.IsPinned() && !link.pendingDelete
                && openLinksMap == old(openLinksMap)[endpoint := link] && openLinksList == old(openLinksList) + [link]
      ensures View() == LinkLife.Step(old(View()), LinkLife.Add(endpoint, linkId))
    {
      if endpoint in openLinksMap {
        return null;
      }
      link := new OpenLink(endpoint, linkId);
      AddKeeps(openLinksList, openLinksMap, link);
      EndpointsMore(openLinksList, link);
      openLinksMap, openLinksList := openLinksMap[endpoint := link], openLinksList + [link];
    }

    method GetLink(endpoint: Endpoint, evenIfPending: bool) returns (link: OpenLink?)
      requires Valid()
      ensures link != null <==> endpoint in openLinksMap && (evenIfPending || !openLinksMap[endpoint].pendingDelete)
      ensures link != null ==> link in openLinksList && link.endpoint == endpoint
    {
      if endpoint in openLinksMap && (evenIfPending || !openLinksMap[endpoint].pendingDelete) {
        return openLinksMap[endpoint];
      }
      return null;
    }

    method GetLinkAndPinIt(endpoint: Endpoint) returns (link: OpenLink?)
      requires Valid()
      modifies openLinksMap.Values`pinnedCount
      ensures Valid()
      ensures link == if endpoint in openLinksMap then openLinksMap[endpoint] else null
      ensures link != null ==> link.pinnedCount == Fwd(old(link.pinnedCount), 1)
      ensures forall l :: l in openLinksList && l != link ==> l.pinnedCount == old(l.pinnedCount)
      ensures View() == LinkLife.Step(old(View()), LinkLife.Pin(endpoint))
    {
      if endpoint !in openLinksMap {
        return null;
      }
      link := openLinksMap[endpoint];
      link.pinnedCount := Fwd(link.pinnedCount, 1);
    }

    method GetLinkAt(idx: nat) returns (link: OpenLink?)
      requires Valid()
      modifies openLinksList`pinnedCount
      ensures Valid()
      ensures link == if idx < |openLinksList| then openLinksList[idx] else null
      ensures link != null ==> link.pinnedCount == Fwd(old(link.pinnedCount), 1)
      ensures forall l :: l in openLinksList && l != link ==> l.pinnedCount == old(l.pinnedCount)
      ensures View() == if idx < |openLinksList|
                        then LinkLife.Step(old(View()), LinkLife.Pin(openLinksList[idx].endpoint)) else old(View())
    {
      if idx >= |openLinksList| {
        return null;
      }
      link := openLinksList[idx];
      link.pinnedCount := Fwd(link.pinnedCount, 1);
    }

    method UnpinLink(link: OpenLink)
      requires Valid()
      modifies link`pinnedCount
      ensures Valid() && link.pinnedCount == Back(old(link.pinnedCount), 1)
      ensures link in openLinksList ==> View() == LinkLife.Step(old(View()), LinkLife.Unpin(link.endpoint))
    {
      link.pinnedCount := Back(link.pinnedCount, 1);
    }

    method PinList()
      modifies this`listPinned
      ensures listPinned == Fwd(old(listPinned), 1)
      ensures View() == LinkLife.Step(old(View()), LinkLife.PinList)
    {
      listPinned := Fwd(listPinned, 1);
    }

    method UnpinList()
      modifies this`listPinned
      ensures listPinned == Back(old(listPinned), 1)
      ensures View() == LinkLife.Step(old(View()), LinkLife.UnpinList)
    {
      listPinned := Back(listPinned, 1);
    }

    /** Walks the list once, erasing on the way. `overdue` is what the clock says. */
    method UpdatePendingDeletes(overdue: set<OpenLink>)
      requires Valid()
      modifies this`openLinksMap, this`openLinksList
      ensures Valid()
      ensures openLinksList == if listPinned != 0 then old(openLinksList) else Survivors(old(openLinksList), overdue)
      ensures forall l :: l in openLinksList <==>
                && l in old(openLinksList)
                && (listPinned != 0 || l.pinnedCount > 0 || !l.pendingDelete || l !in overdue)
      ensures forall e :: e in openLinksMap <==>
                && e in old(openLinksMap)
                && var l := old(openLinksMap)[e];
                   listPinned != 0 || l.pinnedCount > 0 || !l.pendingDelete || l !in overdue
      ensures forall e :: e in openLinksMap ==> openLinksMap[e] == old(openLinksMap)[e]
      ensures View() == LinkLife.Step(old(View()), LinkLife.Sweep(Due(old(openLinksList), overdue)))
    {
      hide Survivors, Agree, Endpoints, Recs, Due, LinkLife.Step;
      ghost var was, wasMap, before := openLinksList, openLinksMap, View();
      if listPinned != 0 {
        PinnedIsNotSwept(before, Due(was, overdue));
        return;
      }
      openLinksList, openLinksMap := EraseOverdue(openLinksList, openLinksMap, overdue);
      SweptIs(was, wasMap, openLinksList, openLinksMap, overdue, before);
    }
  }

  lemma PinnedIsNotSwept(s: LinkLife.Links, overdue: set<Endpoint>)
    requires s.listPins != 0
    ensures LinkLife.Step(s, LinkLife.Sweep(overdue)) == s
  {
  }

  lemma SweptIs(was: seq<OpenLink>, wasMap: map<Endpoint, OpenLink>, list: seq<OpenLink>,
                links: map<Endpoint, OpenLink>, overdue: set<OpenLink>, s: LinkLife.Links)
    requires Agree(was, wasMap) && s == LinkLife.Links(Endpoints(was), Recs(wasMap), 0)
    requires list == Survivors(was, overdue) && forall e :: e in links ==> e in wasMap && links[e] == wasMap[e]
    requires forall e :: e in links <==>
               && e in wasMap
               && (wasMap[e].pinnedCount > 0 || !wasMap[e].pendingDelete || wasMap[e] !in overdue)
    ensures LinkLife.Links(Endpoints(list), Recs(links), 0) == LinkLife.Step(s, LinkLife.Sweep(Due(was, overdue)))
  {
    assert was[..|was|] == was;
    SurvivorsKept(was, wasMap, overdue, s, |was|);
    forall e | e in wasMap ensures e in Due(was, overdue) <==> wasMap[e] in overdue {
      assert wasMap[e] in was && wasMap[e].endpoint == e;
      DueIs(was, wasMap, overdue, wasMap[e]);
    }
    hide Agree, Survivors, Endpoints, Due, LinkLife.Kept;
  }

  /** Marking a link from outside changes that link alone. */
  twostate lemma MarkedIs(r: Registry, l: OpenLink)
    requires old(r.Valid()) && unchanged(r) && l in r.openLinksList
    requires forall k :: k in r.openLinksList ==>
               && k.pinnedCount == old(k.pinnedCount)
               && k.pendingDelete == (k == l || old(k.pendingDelete))
    ensures r.Valid() && r.View() == LinkLife.Step(old(r.View()), LinkLife.Mark(l.endpoint))
  {
  }

  /** The walk itself, over list and map as they are under the lock. */
  method EraseOverdue(was: seq<OpenLink>, wasMap: map<Endpoint, OpenLink>, overdue: set<OpenLink>)
    returns (list: seq<OpenLink>, links: map<Endpoint, OpenLink>)
    requires Agree(was, wasMap)
    ensures Agree(list, links) && list == Survivors(was, overdue)
    ensures forall l :: l in list <==> l in was && (l.pinnedCount > 0 || !l.pendingDelete || l !in overdue)
    ensures forall e :: e in links <==>
              && e in wasMap
              && (wasMap[e].pinnedCount > 0 || !wasMap[e].pendingDelete || wasMap[e] !in overdue)
    ensures forall e :: e in links ==> links[e] == wasMap[e]
  {
    list, links := was, wasMap;
    var i: nat := 0;
    ghost var k: nat := 0;
    WalkStarts(was, wasMap, overdue);
    hide Agree, Survivors, Walking, Dies, Without;
    while i < |list|
      invariant Walking(list, links, was, wasMap, i, k, overdue)
      decreases |was| - k
    {
      WalkGoesOn(list, links, was, wasMap, i, k, overdue);
      var link := list[i];
      if !Dies(link, overdue) {
        i := i + 1;
      } else {
        links, list := links - {link.endpoint}, Without(list, i);
      }
      k := k + 1;
    }
    WalkBounds(list, links, was, wasMap, i, k, overdue);
    WalkEnds(list, links, was, wasMap, i, k, overdue);
  }

  lemma WalkBounds(list: seq<OpenLink>, links: map<Endpoint, OpenLink>, was: seq<OpenLink>,
                   wasMap: map<Endpoint, OpenLink>, i: nat, k: nat, overdue: set<OpenLink>)
    requires Walking(list, links, was, wasMap, i, k, overdue)
    ensures i <= |list| && k <= |was|
  {
  }

  /** Where the walk over the list stands: `k` links looked at, those that stay now before `i`. */
  ghost predicate Walking(list: seq<OpenLink>, links: map<Endpoint, OpenLink>, was: seq<OpenLink>,
                          wasMap: map<Endpoint, OpenLink>, i: nat, k: nat, overdue: set<OpenLink>)
    reads was
  {
    && Agree(list, links) && Agree(was, wasMap)
    && (forall e :: e in links ==> e in wasMap && links[e] == wasMap[e])
    && i <= |list| && k <= |was| && |list| - i == |was| - k
    && list[i..] == was[k..] && list[..i] == Survivors(was[..k], overdue)
  }

  lemma WalkStarts(was: seq<OpenLink>, wasMap: map<Endpoint, OpenLink>, overdue: set<OpenLink>)
    requires Agree(was, wasMap)
    ensures Walking(was, wasMap, was, wasMap, 0, 0, overdue)
  {
    hide Agree;
    assert was[..0] == [];
  }

  lemma SurvivorsNext(was: seq<OpenLink>, k: nat, overdue: set<OpenLink>)
    requires k < |was|
    ensures Survivors(was[..k + 1], overdue)
            == Survivors(was[..k], overdue) + if Dies(was[k], overdue) then [] else [was[k]]
  {
    assert was[..k + 1][..k] == was[..k];
  }

  lemma NextInWalk(list: seq<OpenLink>, was: seq<OpenLink>, i: nat, k: nat)
    requires i < |list| && k < |was| && list[i..] == was[k..]
    ensures list[i] == was[k] && list[i + 1..] == was[k + 1..]
    ensures list[..i + 1] == list[..i] + [was[k]] && list[..i] == list[..i] + []
    ensures Without(list, i)[..i] == list[..i] && Without(list, i)[i..] == list[i + 1..]
  {
    assert list[i..][0] == was[k..][0];
    assert list[i..][1..] == list[i + 1..] && was[k..][1..] == was[k + 1..];
  }

  lemma WalkGoesOn(list: seq<OpenLink>, links: map<Endpoint, OpenLink>, was: seq<OpenLink>,
                   wasMap: map<Endpoint, OpenLink>, i: nat, k: nat, overdue: set<OpenLink>)
    requires Walking(list, links, was, wasMap, i, k, overdue) && i < |list|
    ensures k < |was|
    ensures !Dies(list[i], overdue) ==> Walking(list, links, was, wasMap, i + 1, k + 1, overdue)
    ensures Dies(list[i], overdue) ==>
              Walking(Without(list, i), links - {list[i].endpoint}, was, wasMap, i, k + 1, overdue)
  {
    NextInWalk(list, was, i, k);
    SurvivorsNext(was, k, overdue);
    EraseKeeps(list, links, i);
    assert |Without(list, i)| == |list| - 1;
    hide Agree, Survivors, Dies, Without;
  }

  lemma WalkEnds(list: seq<OpenLink>, links: map<Endpoint, OpenLink>, was: seq<OpenLink>,
                 wasMap: map<Endpoint, OpenLink>, i: nat, k: nat, overdue: set<OpenLink>)
    requires Walking(list, links, was, wasMap, i, k, overdue) && i == |list|
    ensures Agree(list, links) && list == Survivors(was, overdue)
    ensures forall l :: l in list <==> l in was && (l.pinnedCount > 0 || !l.pendingDelete || l !in overdue)
    ensures forall e :: e in links <==>
              && e in wasMap
              && (wasMap[e].pinnedCount > 0 || !wasMap[e].pendingDelete || wasMap[e] !in overdue)
    ensures forall e :: e in links ==> links[e] == wasMap[e]
  {
    assert list[..i] == list && was[..k] == was;
    hide Dies, Survivors;
    forall l ensures l in list <==> l in was && (l.pinnedCount > 0 || !l.pendingDelete || l !in overdue) {
      SurvivorsAre(was, overdue, l);
    }
    forall e | e in wasMap
      ensures e in links <==> wasMap[e].pinnedCount > 0 || !wasMap[e].pendingDelete || wasMap[e] !in overdue
    {
      SurvivorsAre(was, overdue, wasMap[e]);
    }
  }
}
