/** Ids are unique over the network, each creation reaches a node at most once: so destroying a
    group leaves nothing behind. */
module GroupRemoval {
  import opened Seq32
  import opened Packets
  import opened GroupTable
  import Ids = IdSystem

  /** One group creation in the network: which node announced it, and as its how-manieth. */
  datatype Origin = Origin(node: nat, at: nat)

  predicate IsCreation(ev: Event) {
    ev.CreateRemote? || ev.CreateLocal?
  }

  predicate Announces(s: Ids.Sys, o: Origin, id: u32) {
    o.node < |s.nodes| && o.at < |s.nodes[o.node].announced| && s.nodes[o.node].announced[o.at].0 == id
  }

  /** Each creation in a node's run is the arrival of one announcement made in the network, or the
      building of a group announced here, and none of them comes twice. */
  ghost predicate EachOnce(s: Ids.Sys, evs: seq<Event>, origin: map<nat, Origin>) {
    && (forall i :: 0 <= i < |evs| && IsCreation(evs[i]) ==> i in origin && Announces(s, origin[i], evs[i].id))
    && (forall i, j :: 0 <= i < j < |evs| && IsCreation(evs[i]) && IsCreation(evs[j]) ==> origin[i] != origin[j])
  }

  lemma {:induction false} NoneCreated(evs: seq<Event>, id: u32)
    requires forall i :: 0 <= i < |evs| && IsCreation(evs[i]) ==> evs[i].id != id
    ensures Creations(evs, id) == 0
  {
    if evs != [] {
      NoneCreated(evs[..|evs| - 1], id);
    }
  }

  lemma {:induction false} OnceCreated(evs: seq<Event>, id: u32)
    requires forall i, j :: 0 <= i < j < |evs| && IsCreation(evs[i]) && IsCreation(evs[j]) && evs[j].id == id ==>
               evs[i].id != id
    ensures Creations(evs, id) <= 1
  {
    if evs != [] {
      var front, last := evs[..|evs| - 1], evs[|evs| - 1];
      if IsCreation(last) && last.id == id {
        NoneCreated(front, id);
      } else {
        OnceCreated(front, id);
      }
    }
  }

  lemma OriginsDiffer(n: nat, net: seq<Ids.Event>, o: Origin, o': Origin, id: u32, id': u32)
    requires n > 0 && Ids.Run(n, net).minted <= 0x1_0000_0000 && o != o'
    requires Announces(Ids.Run(n, net), o, id) && Announces(Ids.Run(n, net), o', id')
    ensures id != id'
  {
    hide Ids.Run;
    if o.node < o'.node || (o.node == o'.node && o.at < o'.at) {
      Ids.CreationsDiffer(n, net, o.node, o.at, o'.node, o'.at);
    } else {
      Ids.CreationsDiffer(n, net, o'.node, o'.at, o.node, o.at);
    }
  }

  /** No id is created twice at a node. */
  lemma CreatedAtMostOnce(n: nat, net: seq<Ids.Event>, evs: seq<Event>, origin: map<nat, Origin>, id: u32)
    requires n > 0 && Ids.Run(n, net).minted <= 0x1_0000_0000 && EachOnce(Ids.Run(n, net), evs, origin)
    ensures Creations(evs, id) <= 1
  {
    hide Ids.Run, Announces;
    forall i, j | 0 <= i < j < |evs| && IsCreation(evs[i]) && IsCreation(evs[j]) && evs[j].id == id
      ensures evs[i].id != id
    {
      OriginsDiffer(n, net, origin[i], origin[j], evs[i].id, evs[j].id);
    }
    OnceCreated(evs, id);
  }

  /** Removal is complete: over any run of a network with one id provider and at most 2^32 ids, and
      any run of a node at which each creation arrives at most once, destroying a group leaves
      nothing under its id, however groups and connections came and went, and touches no other. */
  lemma RemovalIsComplete(n: nat, net: seq<Ids.Event>, evs: seq<Event>, origin: map<nat, Origin>, id: u32)
    requires n > 0 && Ids.Run(n, net).minted <= 0x1_0000_0000 && EachOnce(Ids.Run(n, net), evs, origin)
    ensures Find(Run(evs + [Destroy(id)]), id) == None
    ensures SameBut(Run(evs), Run(evs + [Destroy(id)]), id)
  {
    hide Run, Ids.Run, EachOnce;
    CreatedAtMostOnce(n, net, evs, origin, id);
    CreatedOnceRemoved(evs, id);
  }

  /** And an id keys at most one entry over all the maps of the node, at any time. */
  lemma OneEntryEach(n: nat, net: seq<Ids.Event>, evs: seq<Event>, origin: map<nat, Origin>, id: u32)
    requires n > 0 && Ids.Run(n, net).minted <= 0x1_0000_0000 && EachOnce(Ids.Run(n, net), evs, origin)
    ensures Entries(Run(evs), id) <= 1
  {
    hide Run, Ids.Run, EachOnce;
    CreatedAtMostOnce(n, net, evs, origin, id);
    EntriesBounded(evs, id);
  }
}
