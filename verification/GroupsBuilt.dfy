/** Every group that was announced exists at its node, under its own id, until it is destroyed: over
    any interleaving of requests, packs, losses, creations and removals. */
module GroupsBuilt {
  import opened Seq32
  import opened NetworkIds
  import opened IdSystem

  ghost predicate UniqueIds(n: Node) {
    forall id: u32 :: NodeIds(n)[id] <= 1
  }

  lemma NodesAreUnique(n: nat, evs: seq<Event>, k: nat)
    requires n > 0 && Run(n, evs).minted <= 0x1_0000_0000 && k < |Run(n, evs).nodes|
    ensures UniqueIds(Run(n, evs).nodes[k])
  {
    UniqueExactlyWhen(n, evs);
    var s := Run(n, evs);
    hide Run, NodeIds, AllNodeIds, FlightIds;
    forall id: u32 ensures NodeIds(s.nodes[k])[id] <= 1 {
      NodeAmong(s.nodes, k, id);
      assert AllIds(s)[id] >= AllNodeIds(s.nodes)[id];
    }
  }

  lemma TwiceInDeck(ids: seq<u32>, i: nat, j: nat)
    requires i < j < |ids|
    ensures ids[i] == ids[j] ==> multiset(ids)[ids[i]] >= 2
  {
    assert ids == ids[..j] + ids[j..];
    assert ids[i] in multiset(ids[..j]) && ids[j] in multiset(ids[j..]);
  }

  /** The ids of a deck differ and key no group that was ever announced here. */
  lemma DeckIsNew(n: Node)
    requires UniqueIds(n) && LocalsAnnounced(n)
    ensures NewIds(n, |n.deck|)
    ensures forall i :: 0 <= i < |n.deck| ==> n.deck[i] !in Announced(n)
  {
    forall i | 0 <= i < |n.deck| ensures n.deck[i] !in Announced(n) {
      var id := n.deck[i];
      assert NodeIds(n)[id] <= 1 && id in multiset(n.deck);
    }
    forall i, j | 0 <= i < j < |n.deck| ensures n.deck[i] != n.deck[j] {
      TwiceInDeck(n.deck, i, j);
      assert NodeIds(n)[n.deck[i]] <= 1;
    }
    hide Announced, NodeIds;
  }

  /** What an update does to the groups of its node, new and old. */
  ghost predicate Builds(n: Node, n': Node, known: set<string>) {
    && n.announced <= n'.announced
    && (forall a :: |n.announced| <= a < |n'.announced| ==> Placed(n', a, known))
    && (forall id :: id in n.locals ==> id in n'.locals && n'.locals[id] == n.locals[id])
    && (forall id :: id in Announced(n) && id in n'.locals ==> id in n.locals)
  }

  /** The group of this announcement exists under its id, or its function is not known. */
  ghost predicate Placed(n: Node, a: nat, known: set<string>)
    requires a < |n.announced|
  {
    var (id, p) := n.announced[a];
    (id in n.locals <==> p.name in known) && (p.name in known ==> n.locals[id] == p)
  }

  lemma PlacedOne(top: Node, n': Node, known: set<string>, tracked: set<u32>, m: nat, i: nat)
    requires Served(top, n', known, tracked, m) && Filed(top, n', known, m) && i < m
    requires NewIds(top, |top.deck|)
    ensures Placed(n', |top.announced| + i, known)
  {
    hide Fine;
    assert n'.announced[|top.announced| + i] == (top.deck[i], top.pending[i]);
    assert NewIds(top, m);
    forall j | 0 <= j < m && j != i ensures top.deck[j] != top.deck[i] {
    }
  }

  lemma TakeAllBuilds(top: Node, known: set<string>, tracked: set<u32>)
    requires UniqueIds(top) && LocalsAnnounced(top) && !top.failed
    ensures Builds(top, TakeAll(top, known, tracked), known)
  {
    var n' := TakeAll(top, known, tracked);
    DeckIsNew(top);
    var m := Serve(top, known, tracked);
    FiledInOrder(top, known, tracked, m);
    hide TakeAll, UniqueIds, LocalsAnnounced, NewIds, Announced, Fine;
    forall a | |top.announced| <= a < |n'.announced| ensures Placed(n', a, known) {
      PlacedOne(top, n', known, tracked, m, a - |top.announced|);
    }
    hide Placed;
  }

  lemma UpdateBuilds(n: Node, known: set<string>, tracked: set<u32>)
    requires UniqueIds(Resolve(n, known, tracked)) && LocalsAnnounced(n)
    ensures Builds(n, Resolve(n, known, tracked), known)
  {
    if !n.failed {
      var top := TopUp(n);
      assert Announced(top) == Announced(n);
      TakeAllKeeps(top, known, tracked);
      assert top.announced == n.announced && top.locals == n.locals && !top.failed;
      hide Mint, Fwd, TakeAll, NodeIds, TopUp;
      TakeAllBuilds(top, known, tracked);
    }
  }

  // ---- over runs

  lemma {:induction false} MintedGrows(n: nat, evs: seq<Event>, j: nat)
    requires j <= |evs|
    ensures Run(n, evs[..j]).minted <= Run(n, evs).minted && |Run(n, evs[..j]).nodes| == n == |Run(n, evs).nodes|
    decreases |evs|
  {
    if j < |evs| {
      var front := evs[..|evs| - 1];
      assert front[..j] == evs[..j];
      MintedGrows(n, front, j);
      hide Resolve, Mint, Minted;
    } else {
      assert evs[..j] == evs;
      SameSize(n, evs);
    }
  }

  lemma RunLast(n: nat, evs: seq<Event>, j: nat)
    requires j < |evs|
    ensures Run(n, evs[..j + 1]) == Step(Run(n, evs[..j]), evs[j])
  {
    assert evs[..j + 1][..j] == evs[..j];
    hide Step;
  }

  /** Event j is an update of node k that announces creation a. */
  ghost predicate Announces(n: nat, evs: seq<Event>, j: nat, k: nat, a: nat) {
    && j < |evs| && evs[j].Update? && evs[j].k == k < |Run(n, evs[..j]).nodes| && k < |Run(n, evs[..j + 1]).nodes|
    && |Run(n, evs[..j]).nodes[k].announced| <= a < |Run(n, evs[..j + 1]).nodes[k].announced|
  }

  /** The group p was announced here as `id`, and exists under it exactly if `up`. */
  ghost predicate IsUp(node: Node, id: u32, p: Pending, up: bool) {
    && id in Announced(node) && (id in node.locals <==> up) && (id in node.locals ==> node.locals[id] == p)
  }

  /** The group p of node k stands under its id after i events, unless it was destroyed since event j or could
      not be built. */
  ghost predicate Stands(n: nat, evs: seq<Event>, j: nat, k: nat, id: u32, p: Pending, built: bool, i: nat)
    requires j < i <= |evs|
  {
    && k < |Run(n, evs[..i]).nodes|
    && IsUp(Run(n, evs[..i]).nodes[k], id, p, built && Remove(k, id) !in evs[j + 1..i])
  }

  lemma StandsAtFirst(n: nat, evs: seq<Event>, j: nat, k: nat, a: nat)
    requires n > 0 && Announces(n, evs, j, k, a) && Run(n, evs[..j + 1]).minted <= 0x1_0000_0000
    ensures var (id, p) := Run(n, evs[..j + 1]).nodes[k].announced[a];
            Stands(n, evs, j, k, id, p, p.name in evs[j].known, j + 1)
  {
    RunBuilds(n, evs, j, k);
    var s' := Run(n, evs[..j + 1]);
    hide Run;
    assert Placed(s'.nodes[k], a, evs[j].known);
    assert Announced(s'.nodes[k])[a] in Announced(s'.nodes[k]);
    assert evs[j + 1..j + 1] == [];
  }

  lemma OtherEvent(s: Sys, ev: Event, k: nat)
    requires k < |s.nodes| && !(ev.Update? && ev.k == k)
    ensures k < |Step(s, ev).nodes|
    ensures var n, n' := s.nodes[k], Step(s, ev).nodes[k];
            && n'.announced == n.announced
            && n'.locals == if ev.Remove? && ev.k == k then n.locals - {ev.id} else n.locals
  {
    hide Resolve, Mint;
  }

  /** One event and one creation of node k: an update leaves it as it is, a removal of its id takes it. */
  lemma OneEvent(s: Sys, ev: Event, k: nat, id: u32, p: Pending, up: bool)
    requires k < |s.nodes| && IsUp(s.nodes[k], id, p, up)
    requires ev.Update? && ev.k == k ==> k < |Step(s, ev).nodes| && Builds(s.nodes[k], Step(s, ev).nodes[k], ev.known)
    ensures k < |Step(s, ev).nodes| && IsUp(Step(s, ev).nodes[k], id, p, up && ev != Remove(k, id))
  {
    if !(ev.Update? && ev.k == k) {
      OtherEvent(s, ev, k);
    }
    hide Step, Placed;
    var n, n' := s.nodes[k], Step(s, ev).nodes[k];
    assert n.announced <= n'.announced;
    var a :| 0 <= a < |n.announced| && Announced(n)[a] == id;
    assert Announced(n')[a] == id;
  }

  /** Every update of a run builds what it announces and leaves the other groups alone. */
  lemma RunBuilds(n: nat, evs: seq<Event>, i: nat, k: nat)
    requires n > 0 && i < |evs| && evs[i].Update? && evs[i].k == k < |Run(n, evs[..i]).nodes|
    requires Run(n, evs[..i + 1]).minted <= 0x1_0000_0000
    ensures k < |Run(n, evs[..i + 1]).nodes|
    ensures Builds(Run(n, evs[..i]).nodes[k], Run(n, evs[..i + 1]).nodes[k], evs[i].known)
  {
    var s := Run(n, evs[..i]);
    RunLast(n, evs, i);
    UpdatedIs(s, evs[i]);
    NodesAreUnique(n, evs[..i + 1], k);
    RunLocals(n, evs[..i]);
    hide Run, Step, Builds, UniqueIds, LocalsAnnounced, Resolve;
    UpdateBuilds(s.nodes[k], evs[i].known, evs[i].tracked);
  }

  lemma StandsOn(n: nat, evs: seq<Event>, j: nat, k: nat, id: u32, p: Pending, built: bool, i: nat)
    requires n > 0 && j < i < |evs| && Stands(n, evs, j, k, id, p, built, i)
    requires Run(n, evs[..i + 1]).minted <= 0x1_0000_0000
    ensures Stands(n, evs, j, k, id, p, built, i + 1)
  {
    hide Run, Step, Builds, IsUp;
    RunLast(n, evs, i);
    if evs[i].Update? && evs[i].k == k {
      RunBuilds(n, evs, i, k);
    }
    OneEvent(Run(n, evs[..i]), evs[i], k, id, p, built && Remove(k, id) !in evs[j + 1..i]);
    assert evs[j + 1..i + 1] == evs[j + 1..i] + [evs[i]];
  }

  lemma UpdatedIs(s: Sys, ev: Event)
    requires ev.Update? && ev.k < |s.nodes|
    ensures |Step(s, ev).nodes| == |s.nodes| && Step(s, ev).nodes[ev.k] == Resolve(s.nodes[ev.k], ev.known, ev.tracked)
  {
    hide Resolve;
  }

  lemma {:induction false} StandsAlways(n: nat, evs: seq<Event>, j: nat, k: nat, id: u32, p: Pending, built: bool,
                                        i: nat)
    requires n > 0 && j < i <= |evs| && Run(n, evs).minted <= 0x1_0000_0000
    requires Stands(n, evs, j, k, id, p, built, j + 1)
    ensures Stands(n, evs, j, k, id, p, built, i)
    decreases i
  {
    if i > j + 1 {
      MintedGrows(n, evs, i);
      hide Stands, Run;
      StandsAlways(n, evs, j, k, id, p, built, i - 1);
      StandsOn(n, evs, j, k, id, p, built, i - 1);
    }
  }

  /** As long as at most 2^32 ids were minted, a group that a node announced exists there under the id
      it was announced with exactly when its function was known and nothing removed it since, and
      then it is that group. */
  lemma AnnouncedIsBuiltExactlyWhen(n: nat, evs: seq<Event>, j: nat, k: nat, a: nat)
    requires n > 0 && Announces(n, evs, j, k, a) && Run(n, evs).minted <= 0x1_0000_0000
    ensures var (id, p) := Run(n, evs[..j + 1]).nodes[k].announced[a];
            && k < |Run(n, evs).nodes|
            && var node := Run(n, evs).nodes[k];
               && (id in node.locals <==> p.name in evs[j].known && Remove(k, id) !in evs[j + 1..])
               && (id in node.locals ==> node.locals[id] == p)
  {
    MintedGrows(n, evs, j + 1);
    StandsAtFirst(n, evs, j, k, a);
    var (id, p) := Run(n, evs[..j + 1]).nodes[k].announced[a];
    hide Run, Announces;
    StandsAlways(n, evs, j, k, id, p, p.name in evs[j].known, |evs|);
    assert evs[..|evs|] == evs && evs[j + 1..|evs|] == evs[j + 1..];
  }

  /** Every creation of a node was announced by one of its updates. */
  lemma {:induction false} SomeUpdateAnnounced(n: nat, evs: seq<Event>, k: nat, a: nat) returns (j: nat)
    requires k < |Run(n, evs).nodes| && a < |Run(n, evs).nodes[k].announced|
    ensures Announces(n, evs, j, k, a)
    decreases |evs|
  {
    assert evs != [];
    var front := evs[..|evs| - 1];
    SameSize(n, front);
    SameSize(n, evs);
    if a < |Run(n, front).nodes[k].announced| {
      j := SomeUpdateAnnounced(n, front, k, a);
      assert front[..j] == evs[..j] && front[..j + 1] == evs[..j + 1];
      hide Run;
    } else {
      j := |evs| - 1;
      assert evs[..j + 1] == evs;
      hide Step;
      if !(evs[j].Update? && evs[j].k == k) {
        OtherEvent(Run(n, front), evs[j], k);
      }
    }
  }
}
