/** A network of nodes with one id provider: no id is ever lost sight of or in two places, over
    any interleaving of requests, packs, losses, group creations and removals. */
module IdSystem {
  import opened Seq32
  import opened NetworkIds

  /** A pack on its way to a node. */
  datatype Pack = Pack(to: nat, ids: seq<u32>)

  /** Node 0 is the provider. History: the ids of packs that went down with their connection, and
      how many ids were ever minted. */
  datatype Sys = Sys(nodes: seq<Node>, flight: seq<Pack>, lost: seq<u32>, minted: nat)

  datatype Event =
    | Want(k: nat, p: Pending)               // node k is asked for a new group
    | Request(k: nat, from: nat)             // a request of node `from` comes in at node k
    | Arrive(i: nat)                         // pack i comes in, once
    | Drop(i: nat)                           // or goes down with its connection
    | Update(k: nat, known: set<string>, tracked: set<u32>)   // node k resolves its pending groups
    | Remove(k: nat, id: u32)                // a group of node k is destroyed

  function Start(n: nat): Sys {
    Sys(seq(n, k => Node(k == 0, 0, [], [], [], map[], false)), [], [], 0)
  }

  /** How many ids an update mints. */
  function ToppedUp(n: Node): nat {
    if n.provider && !n.failed then |n.pending| else 0
  }

  function Step(s: Sys, ev: Event): Sys {
    match ev
    case Want(k, p) =>
      if k < |s.nodes| then s.(nodes := s.nodes[k := s.nodes[k].(pending := s.nodes[k].pending + [p])]) else s
    case Request(k, from) =>
      if k < |s.nodes| && from < |s.nodes| && s.nodes[k].provider then
        s.(nodes := s.nodes[k := Minted(s.nodes[k], PACK_SIZE)],
           flight := s.flight + [Pack(from, Mint(s.nodes[k].counter, PACK_SIZE))], minted := s.minted + PACK_SIZE)
      else s
    case Arrive(i) =>
      if i < |s.flight| && s.flight[i].to < |s.nodes| then
        var k := s.flight[i].to;
        s.(nodes := s.nodes[k := s.nodes[k].(deck := s.nodes[k].deck + s.flight[i].ids)],
            flight := Without(s.flight, i))
      else s
    case Drop(i) =>
      if i < |s.flight| then s.(lost := s.lost + s.flight[i].ids, flight := Without(s.flight, i)) else s
    case Update(k, known, tracked) =>
      if k < |s.nodes| then
        s.(nodes := s.nodes[k := Resolve(s.nodes[k], known, tracked)], minted := s.minted + ToppedUp(s.nodes[k]))
      else s
    case Remove(k, id) =>
      if k < |s.nodes| then s.(nodes := s.nodes[k := s.nodes[k].(locals := s.nodes[k].locals - {id})]) else s
  }

  function Without(f: seq<Pack>, i: nat): seq<Pack>
    requires i < |f|
  {
    f[..i] + f[i + 1..]
  }

  function Run(n: nat, evs: seq<Event>): Sys {
    if evs == [] then Start(n) else Step(Run(n, evs[..|evs| - 1]), evs[|evs| - 1])
  }

  // ---- every place an id can be

  function Announced(n: Node): (ids: seq<u32>)
    ensures |ids| == |n.announced|
  {
    seq(|n.announced|, i requires 0 <= i < |n.announced| => n.announced[i].0)
  }

  function NodeIds(n: Node): multiset<u32> {
    multiset(n.deck) + multiset(Announced(n))
  }

  function AllNodeIds(nodes: seq<Node>): multiset<u32> {
    if nodes == [] then multiset{} else AllNodeIds(nodes[..|nodes| - 1]) + NodeIds(nodes[|nodes| - 1])
  }

  function FlightIds(flight: seq<Pack>): multiset<u32> {
    if flight == [] then multiset{} else FlightIds(flight[..|flight| - 1]) + multiset(flight[|flight| - 1].ids)
  }

  function AllIds(s: Sys): multiset<u32> {
    AllNodeIds(s.nodes) + FlightIds(s.flight) + multiset(s.lost)
  }

  /** Conservation: the ids in all decks, creations, packs and losses are exactly those minted. */
  ghost predicate Conserved(s: Sys) {
    && AllIds(s) == multiset(Mint(0, s.minted))
    && |s.nodes| > 0 && s.nodes[0].counter == Wrap(s.minted)
    && forall k :: 0 <= k < |s.nodes| ==> (s.nodes[k].provider <==> k == 0)
  }

  lemma Shuffle(a: multiset<u32>, b: multiset<u32>, c: multiset<u32>)
    ensures (a + b) + c == (a + c) + b && (a + b) + c == a + (b + c)
  {
  }

  lemma Cancel(a: multiset<u32>, b: multiset<u32>, c: multiset<u32>)
    requires a + c == b + c
    ensures a == b
  {
    forall x ensures a[x] == b[x] {
      assert (a + c)[x] == a[x] + c[x] && (b + c)[x] == b[x] + c[x];
    }
  }

  lemma {:induction false} NodesUpdate(nodes: seq<Node>, k: nat, n: Node)
    requires k < |nodes|
    ensures AllNodeIds(nodes[k := n]) + NodeIds(nodes[k]) == AllNodeIds(nodes) + NodeIds(n)
  {
    hide NodeIds;
    var front, last := nodes[..|nodes| - 1], nodes[|nodes| - 1];
    var all := AllNodeIds(front);
    if k < |front| {
      NodesUpdate(front, k, n);
      assert nodes[k := n][..|front|] == front[k := n];
      Shuffle(AllNodeIds(front[k := n]), NodeIds(last), NodeIds(nodes[k]));
      Shuffle(all, NodeIds(last), NodeIds(n));
    } else {
      assert nodes[k := n][..|front|] == front;
      Shuffle(all, NodeIds(n), NodeIds(last));
    }
  }

  lemma WithoutFront(flight: seq<Pack>, i: nat)
    requires i < |flight|
    ensures var front, last := flight[..|flight| - 1], flight[|flight| - 1];
            Without(flight, i) == if i < |front| then Without(front, i) + [last] else front
  {
  }

  lemma FlightNext(flight: seq<Pack>, p: Pack)
    ensures FlightIds(flight + [p]) == FlightIds(flight) + multiset(p.ids)
  {
    assert (flight + [p])[..|flight|] == flight;
  }

  lemma {:induction false} FlightWithout(flight: seq<Pack>, i: nat)
    requires i < |flight|
    ensures FlightIds(Without(flight, i)) + multiset(flight[i].ids) == FlightIds(flight)
  {
    WithoutFront(flight, i);
    hide Without;
    var front, last := flight[..|flight| - 1], flight[|flight| - 1];
    if i < |front| {
      FlightWithout(front, i);
      FlightNext(Without(front, i), last);
      Shuffle(FlightIds(Without(front, i)), multiset(last.ids), multiset(flight[i].ids));
    }
  }

  lemma MintNext(n: nat, k: nat)
    ensures Mint(0, n) + Mint(Wrap(n), k) == Mint(0, n + k)
    ensures Fwd(Wrap(n), k) == Wrap(n + k)
  {
    WrapSteps(n, k);
    forall i | 0 <= i < k ensures Fwd(Wrap(n), i) == Fwd(0, n + i) {
      WrapSteps(n, i);
    }
    hide Wrap, Fwd;
  }

  // ---- one node

  lemma TakeOneKeeps(n: Node, known: set<string>, tracked: set<u32>)
    requires n.pending != [] && n.deck != []
    ensures NodeIds(TakeOne(n, known, tracked)) == NodeIds(n)
  {
    var n' := TakeOne(n, known, tracked);
    assert n.deck == [n.deck[0]] + n.deck[1..];
    assert Announced(n') == Announced(n) + [n.deck[0]];
  }

  lemma {:induction false} TakeAllKeeps(n: Node, known: set<string>, tracked: set<u32>)
    ensures NodeIds(TakeAll(n, known, tracked)) == NodeIds(n)
    ensures TakeAll(n, known, tracked).counter == n.counter && TakeAll(n, known, tracked).provider == n.provider
    decreases |n.pending|
  {
    hide NodeIds, AddLocal;
    if !n.failed && n.pending != [] && n.deck != [] {
      TakeOneKeeps(n, known, tracked);
      TakeAllKeeps(TakeOne(n, known, tracked), known, tracked);
    }
  }

  /** Resolving mints exactly the ids the provider tops up with, and none elsewhere. */
  lemma ResolveKeeps(n: Node, known: set<string>, tracked: set<u32>)
    ensures var k, n' := ToppedUp(n), Resolve(n, known, tracked);
            && NodeIds(n') == NodeIds(n) + multiset(Mint(n.counter, k)) && n'.provider == n.provider
            && n'.counter == if n.provider && !n.failed then Fwd(n.counter, k) else n.counter
  {
    TakeAllKeeps(TopUp(n), known, tracked);
    assert Announced(TopUp(n)) == Announced(n);
    hide Mint, Fwd, TakeAll;
  }

  // ---- the whole network

  lemma NodeChanges(s: Sys, k: nat, n: Node, extra: multiset<u32>)
    requires k < |s.nodes| && NodeIds(n) == NodeIds(s.nodes[k]) + extra
    ensures AllNodeIds(s.nodes[k := n]) == AllNodeIds(s.nodes) + extra
  {
    hide AllNodeIds, NodeIds;
    NodesUpdate(s.nodes, k, n);
    Shuffle(AllNodeIds(s.nodes), NodeIds(s.nodes[k]), extra);
    Shuffle(AllNodeIds(s.nodes), extra, NodeIds(s.nodes[k]));
    Cancel(AllNodeIds(s.nodes[k := n]), AllNodeIds(s.nodes) + extra, NodeIds(s.nodes[k]));
  }

  lemma RequestStep(s: Sys, k: nat, from: nat)
    requires Conserved(s)
    ensures Conserved(Step(s, Request(k, from)))
  {
    hide Mint, Wrap, Fwd, AllNodeIds, FlightIds, NodeIds;
    if k == 0 && from < |s.nodes| {
      MintNext(s.minted, PACK_SIZE);
      SameIds(s.nodes[0], Minted(s.nodes[0], PACK_SIZE));
      NodeChanges(s, 0, Minted(s.nodes[0], PACK_SIZE), multiset{});
      FlightNext(s.flight, Pack(from, Mint(s.nodes[0].counter, PACK_SIZE)));
    }
  }

  lemma UpdateStep(s: Sys, k: nat, known: set<string>, tracked: set<u32>)
    requires Conserved(s)
    ensures Conserved(Step(s, Update(k, known, tracked)))
  {
    hide Mint, Wrap, Fwd, AllNodeIds, FlightIds, Resolve, NodeIds;
    if k < |s.nodes| {
      var m := ToppedUp(s.nodes[k]);
      MintNext(s.minted, m);
      ResolveKeeps(s.nodes[k], known, tracked);
      NodeChanges(s, k, Resolve(s.nodes[k], known, tracked), multiset(Mint(s.nodes[k].counter, m)));
      NoneMinted(s.nodes[k].counter);
    }
  }

  lemma NoneMinted(counter: u32)
    ensures Mint(counter, 0) == []
  {
  }

  lemma SameIds(n: Node, n': Node)
    requires n'.deck == n.deck && n'.announced == n.announced
    ensures NodeIds(n') == NodeIds(n)
  {
    assert Announced(n') == Announced(n);
  }

  lemma MoreInDeck(n: Node, ids: seq<u32>)
    ensures NodeIds(n.(deck := n.deck + ids)) == NodeIds(n) + multiset(ids)
  {
    assert Announced(n.(deck := n.deck + ids)) == Announced(n);
  }

  /** Packs that come in, or go down with their connection. */
  lemma PackStep(s: Sys, ev: Event)
    requires Conserved(s) && (ev.Arrive? || ev.Drop?)
    ensures Conserved(Step(s, ev))
  {
    hide Mint, Wrap, Fwd, AllNodeIds, FlightIds, NodeIds, Without;
    if ev.i < |s.flight| {
      FlightWithout(s.flight, ev.i);
      var ids, rest := multiset(s.flight[ev.i].ids), FlightIds(Without(s.flight, ev.i));
      if ev.Drop? {
        Moved(AllNodeIds(s.nodes), multiset{}, rest, multiset(s.lost), ids);
      } else if s.flight[ev.i].to < |s.nodes| {
        var k := s.flight[ev.i].to;
        MoreInDeck(s.nodes[k], s.flight[ev.i].ids);
        NodeChanges(s, k, s.nodes[k].(deck := s.nodes[k].deck + s.flight[ev.i].ids), ids);
        Moved(AllNodeIds(s.nodes), ids, rest, multiset(s.lost), multiset{});
      }
    }
  }

  lemma Moved(a: multiset<u32>, more: multiset<u32>, rest: multiset<u32>, lost: multiset<u32>, gone: multiset<u32>)
    ensures (a + more) + rest + (lost + gone) == a + (rest + (more + gone)) + lost
  {
  }

  /** Steps that move no id. */
  lemma StillStep(s: Sys, ev: Event)
    requires Conserved(s) && (ev.Want? || ev.Remove?)
    ensures Conserved(Step(s, ev))
  {
    hide Mint, Wrap, Fwd, AllNodeIds, FlightIds, NodeIds;
    if ev.k < |s.nodes| {
      var n := Step(s, ev).nodes[ev.k];
      SameIds(s.nodes[ev.k], n);
      NodeChanges(s, ev.k, n, multiset{});
    }
  }

  lemma {:induction false} StartHasNone(nodes: seq<Node>)
    requires forall k :: 0 <= k < |nodes| ==> nodes[k].deck == [] && nodes[k].announced == []
    ensures AllNodeIds(nodes) == multiset{}
  {
    if nodes != [] {
      StartHasNone(nodes[..|nodes| - 1]);
      assert Announced(nodes[|nodes| - 1]) == [];
    }
  }

  /** No id is made up, doubled or lost sight of, in any run, however often the counter wraps. */
  lemma {:induction false} IdsAreConserved(n: nat, evs: seq<Event>)
    requires n > 0
    ensures Conserved(Run(n, evs))
  {
    if evs == [] {
      StartHasNone(Start(n).nodes);
      NoneMinted(0);
    } else {
      var s, ev := Run(n, evs[..|evs| - 1]), evs[|evs| - 1];
      IdsAreConserved(n, evs[..|evs| - 1]);
      hide Conserved, Step;
      if ev.Request? {
        RequestStep(s, ev.k, ev.from);
      } else if ev.Update? {
        UpdateStep(s, ev.k, ev.known, ev.tracked);
      } else if ev.Arrive? || ev.Drop? {
        PackStep(s, ev);
      } else {
        StillStep(s, ev);
      }
    }
  }

  // ---- one place each

  /** Every id is at one place at most: one deck position, one creation, one pack, or lost. */
  ghost predicate OnePlaceEach(s: Sys) {
    forall id :: AllIds(s)[id] <= 1
  }

  lemma {:induction false} MintedBelow(n: nat)
    requires n <= 0x1_0000_0000
    ensures forall id: u32 :: multiset(Mint(0, n))[id] == if id < n then 1 else 0
    ensures forall id: u32 :: id in multiset(Mint(0, n)) <==> id < n
  {
    if n > 0 {
      MintedBelow(n - 1);
      assert Mint(0, n) == Mint(0, n - 1) + [Fwd(0, n - 1)];
      WrapSmall(n - 1);
    }
  }

  /** Ids are unique exactly as long as at most 2^32 were minted, and then those handed out are
      exactly the numbers below the count. */
  lemma UniqueExactlyWhen(n: nat, evs: seq<Event>)
    requires n > 0
    ensures OnePlaceEach(Run(n, evs)) <==> Run(n, evs).minted <= 0x1_0000_0000
    ensures Run(n, evs).minted <= 0x1_0000_0000 ==>
              forall id: u32 :: id in AllIds(Run(n, evs)) <==> id < Run(n, evs).minted
  {
    IdsAreConserved(n, evs);
    var s := Run(n, evs);
    hide Run, AllIds;
    if s.minted <= 0x1_0000_0000 {
      MintedBelow(s.minted);
      hide Mint;
    } else {
      TwiceTheSame(s.minted);
      hide Mint;
      assert AllIds(s)[0] >= 2;
    }
  }

  lemma TwiceTheSame(n: nat)
    requires n > 0x1_0000_0000
    ensures multiset(Mint(0, n))[0] >= 2
  {
    var a, k := Mint(0, 0x1_0000_0000), n - 0x1_0000_0000;
    MintNext(0x1_0000_0000, k);
    assert Wrap(0x1_0000_0000) == 0;
    var b := Mint(0, k);
    assert a[0] == 0 && b[0] == 0;
    hide Mint, Wrap, Fwd;
    assert 0 in multiset(a) && 0 in multiset(b);
    assert multiset(a + b)[0] == multiset(a)[0] + multiset(b)[0];
  }

  // ---- what that means for groups

  lemma {:induction false} NodeAmong(nodes: seq<Node>, k: nat, id: u32)
    requires k < |nodes|
    ensures AllNodeIds(nodes)[id] >= NodeIds(nodes[k])[id]
  {
    hide NodeIds;
    if k < |nodes| - 1 {
      NodeAmong(nodes[..|nodes| - 1], k, id);
    }
  }

  lemma {:induction false} TwoNodesAmong(nodes: seq<Node>, j: nat, k: nat, id: u32)
    requires j < k < |nodes|
    ensures AllNodeIds(nodes)[id] >= NodeIds(nodes[j])[id] + NodeIds(nodes[k])[id]
  {
    hide NodeIds;
    if k < |nodes| - 1 {
      TwoNodesAmong(nodes[..|nodes| - 1], j, k, id);
    } else {
      NodeAmong(nodes[..|nodes| - 1], j, id);
    }
  }

  lemma InNode(n: Node, a: nat)
    requires a < |n.announced|
    ensures NodeIds(n)[n.announced[a].0] >= 1
  {
    assert Announced(n)[a] in multiset(Announced(n));
  }

  lemma OnceInNode(n: Node, a: nat, b: nat)
    requires a < b < |n.announced| && NodeIds(n)[n.announced[a].0] <= 1
    ensures n.announced[a].0 != n.announced[b].0
  {
    var ids := Announced(n);
    assert ids == ids[..b] + ids[b..];
    assert ids[a] in multiset(ids[..b]) && ids[b] in multiset(ids[b..]);
    assert multiset(ids)[ids[a]] == multiset(ids[..b])[ids[a]] + multiset(ids[b..])[ids[a]];
  }

  /** No two group creations anywhere in the network ever carry the same id. */
  lemma CreationsDiffer(n: nat, evs: seq<Event>, j: nat, a: nat, k: nat, b: nat)
    requires n > 0 && Run(n, evs).minted <= 0x1_0000_0000
    requires var s := Run(n, evs); j <= k < |s.nodes| && a < |s.nodes[j].announced| && b < |s.nodes[k].announced|
    requires j != k || a < b
    ensures Run(n, evs).nodes[j].announced[a].0 != Run(n, evs).nodes[k].announced[b].0
  {
    UniqueExactlyWhen(n, evs);
    var s := Run(n, evs);
    hide Run, NodeIds, AllNodeIds, FlightIds;
    var id := s.nodes[j].announced[a].0;
    InNode(s.nodes[j], a);
    InNode(s.nodes[k], b);
    assert AllIds(s)[id] >= AllNodeIds(s.nodes)[id];
    if j < k {
      TwoNodesAmong(s.nodes, j, k, id);
    } else {
      NodeAmong(s.nodes, j, id);
      OnceInNode(s.nodes[j], a, b);
    }
  }

  /** Local groups are among the creations this node announced. */
  ghost predicate LocalsAnnounced(n: Node) {
    forall id :: id in n.locals ==> id in Announced(n)
  }

  lemma {:induction false} TakeAllLocals(n: Node, known: set<string>, tracked: set<u32>)
    requires LocalsAnnounced(n)
    ensures LocalsAnnounced(TakeAll(n, known, tracked))
    decreases |n.pending|
  {
    if !n.failed && n.pending != [] && n.deck != [] {
      var n' := TakeOne(n, known, tracked);
      assert Announced(n') == Announced(n) + [n.deck[0]];
      hide Announced;
      assert LocalsAnnounced(n');
      TakeAllLocals(n', known, tracked);
    }
  }

  lemma LocalsStep(s: Sys, ev: Event)
    requires forall k :: 0 <= k < |s.nodes| ==> LocalsAnnounced(s.nodes[k])
    ensures forall k :: 0 <= k < |Step(s, ev).nodes| ==> LocalsAnnounced(Step(s, ev).nodes[k])
  {
    if ev.Update? && ev.k < |s.nodes| {
      var n := TopUp(s.nodes[ev.k]);
      assert Announced(n) == Announced(s.nodes[ev.k]);
      TakeAllLocals(n, ev.known, ev.tracked);
    }
    hide Resolve, Mint, Fwd;
    forall k | 0 <= k < |s.nodes| && Step(s, ev).nodes[k].announced == s.nodes[k].announced
      ensures Announced(Step(s, ev).nodes[k]) == Announced(s.nodes[k])
    {
    }
  }

  lemma {:induction false} RunLocals(n: nat, evs: seq<Event>)
    ensures forall k :: 0 <= k < |Run(n, evs).nodes| ==> LocalsAnnounced(Run(n, evs).nodes[k])
  {
    if evs != [] {
      RunLocals(n, evs[..|evs| - 1]);
      LocalsStep(Run(n, evs[..|evs| - 1]), evs[|evs| - 1]);
    }
  }

  /** The id at the head of a deck belongs to no group of its node, so the local map never holds
      an entry under an id about to be used. */
  lemma HeadIsFresh(n: nat, evs: seq<Event>, k: nat)
    requires n > 0 && Run(n, evs).minted <= 0x1_0000_0000
    requires k < |Run(n, evs).nodes| && Run(n, evs).nodes[k].deck != []
    ensures Run(n, evs).nodes[k].deck[0] !in Run(n, evs).nodes[k].locals
  {
    UniqueExactlyWhen(n, evs);
    RunLocals(n, evs);
    var s := Run(n, evs);
    hide Run, AllNodeIds, FlightIds;
    var node := s.nodes[k];
    var id := node.deck[0];
    NodeAmong(s.nodes, k, id);
    assert id in multiset(node.deck);
    assert AllIds(s)[id] >= AllNodeIds(s.nodes)[id];
    assert NodeIds(node)[id] == multiset(node.deck)[id] + multiset(Announced(node))[id];
    assert id !in multiset(Announced(node));
  }

  // ---- every pending group is served

  /** The i-th pending group can be built, and the announcement of the i-th id goes over a link. */
  predicate Fine(n: Node, known: set<string>, tracked: set<u32>, i: nat)
    requires i < |n.pending| && i < |n.deck|
  {
    n.pending[i].name in known && n.deck[i] in tracked
  }

  /** The ids of the first m pending groups whose function is known. */
  ghost function IdsOfKnown(n: Node, known: set<string>, m: nat): set<u32>
    requires m <= |n.pending| && m <= |n.deck|
  {
    set i | 0 <= i < m && n.pending[i].name in known :: n.deck[i]
  }

  /** Groups are served in the order they were asked for, with the ids in the order they came: as
      long as there are groups and ids, up to and including the first that is not fine. Those whose
      function is known exist from then on, and nothing else changes among the local groups. */
  lemma {:induction false} ServedInOrder(n: Node, known: set<string>, tracked: set<u32>) returns (m: nat)
    requires !n.failed
    ensures var n' := TakeAll(n, known, tracked);
            && m <= |n.pending| && m <= |n.deck| && n'.pending == n.pending[m..] && n'.deck == n.deck[m..]
            && n'.announced == n.announced + seq(m, i requires 0 <= i < m => (n.deck[i], n.pending[i]))
            && (forall i :: 0 <= i < m - 1 ==> Fine(n, known, tracked, i))
            && (n'.failed <==> m > 0 && !Fine(n, known, tracked, m - 1))
            && (!n'.failed ==> m == |n.pending| || m == |n.deck|)
    ensures var n' := TakeAll(n, known, tracked);
            && n'.locals.Keys == n.locals.Keys + (set i | 0 <= i < m && n.pending[i].name in known :: n.deck[i])
            && (forall id :: id in n.locals ==> n'.locals[id] == n.locals[id])
            && ((forall i, j :: 0 <= i < j < m ==> n.deck[i] != n.deck[j])
                && (forall i :: 0 <= i < m ==> n.deck[i] !in n.locals) ==>
                  forall i :: 0 <= i < m && n.pending[i].name in known ==> n'.locals[n.deck[i]] == n.pending[i])
    decreases |n.pending|
  {
    m := Serve(n, known, tracked);
    FiledInOrder(n, known, tracked, m);
  }

  lemma {:induction false} Serve(n: Node, known: set<string>, tracked: set<u32>) returns (m: nat)
    requires !n.failed
    ensures Served(n, TakeAll(n, known, tracked), known, tracked, m)
    decreases |n.pending|
  {
    hide AddLocal;
    m := 0;
    if n.pending != [] && n.deck != [] {
      var n1 := TakeOne(n, known, tracked);
      if n1.failed {
        m := 1;
      } else {
        m := Serve(n1, known, tracked);
        OneMoreServed(n, n1, known, tracked, m);
        m := m + 1;
      }
    }
  }

  ghost predicate Served(n: Node, n': Node, known: set<string>, tracked: set<u32>, m: nat) {
    && m <= |n.pending| && m <= |n.deck| && n'.pending == n.pending[m..] && n'.deck == n.deck[m..]
    && n'.announced == n.announced + seq(m, i requires 0 <= i < m => (n.deck[i], n.pending[i]))
    && (forall i :: 0 <= i < m - 1 ==> Fine(n, known, tracked, i))
    && (n'.failed <==> m > 0 && !Fine(n, known, tracked, m - 1))
    && (!n'.failed ==> m == |n.pending| || m == |n.deck|)
  }

  /** What the m groups served leave among the local ones. */
  ghost predicate Filed(n: Node, n': Node, known: set<string>, m: nat)
    requires m <= |n.pending| && m <= |n.deck|
  {
    && n'.locals.Keys == n.locals.Keys + IdsOfKnown(n, known, m)
    && (forall id :: id in n.locals ==> n'.locals[id] == n.locals[id])
    && (NewIds(n, m) ==>
          forall i :: 0 <= i < m && n.pending[i].name in known ==> n'.locals[n.deck[i]] == n.pending[i])
  }

  /** The next m ids differ, and none is in use here. */
  ghost predicate NewIds(n: Node, m: nat)
    requires m <= |n.deck|
  {
    && (forall i, j :: 0 <= i < j < m ==> n.deck[i] != n.deck[j])
    && (forall i :: 0 <= i < m ==> n.deck[i] !in n.locals)
  }

  lemma FiledNone(n: Node, known: set<string>)
    ensures Filed(n, n, known, 0)
  {
  }

  lemma TakeAllNext(n: Node, known: set<string>, tracked: set<u32>)
    requires !n.failed && n.pending != [] && n.deck != []
    ensures var n1 := TakeOne(n, known, tracked);
            && TakeAll(n, known, tracked) == TakeAll(n1, known, tracked)
            && n1.pending == n.pending[1..] && n1.deck == n.deck[1..]
            && n1.locals == if n.pending[0].name in known then AddLocal(n.locals, n.deck[0], n.pending[0]) else n.locals
  {
    hide AddLocal;
  }

  lemma {:induction false} FiledInOrder(n: Node, known: set<string>, tracked: set<u32>, m: nat)
    requires m <= |n.pending| && m <= |n.deck| && |TakeAll(n, known, tracked).pending| == |n.pending| - m
    ensures Filed(n, TakeAll(n, known, tracked), known, m)
    decreases |n.pending|
  {
    if n.failed || n.pending == [] || n.deck == [] {
      hide Filed;
      FiledNone(n, known);
    } else {
      hide *;
      var n1 := TakeOne(n, known, tracked);
      TakeAllNext(n, known, tracked);
      PendingShrinks(n1, known, tracked);
      FiledInOrder(n1, known, tracked, m - 1);
      OneMoreFiled(n, n1, TakeAll(n, known, tracked), known, m - 1);
    }
  }

  lemma {:induction false} PendingShrinks(n: Node, known: set<string>, tracked: set<u32>)
    ensures |TakeAll(n, known, tracked).pending| <= |n.pending|
    decreases |n.pending|
  {
    hide AddLocal;
    if !n.failed && n.pending != [] && n.deck != [] {
      PendingShrinks(TakeOne(n, known, tracked), known, tracked);
    }
  }

  lemma OneMoreFiled(n: Node, n1: Node, n': Node, known: set<string>, m: nat)
    requires n.pending != [] && n.deck != [] && n1.pending == n.pending[1..] && n1.deck == n.deck[1..]
    requires m <= |n1.pending| && m <= |n1.deck| && Filed(n1, n', known, m)
    requires n1.locals == if n.pending[0].name in known then AddLocal(n.locals, n.deck[0], n.pending[0]) else n.locals
    ensures Filed(n, n', known, m + 1)
  {
    OneMoreKnown(n, n1, known, m);
    if NewIds(n, m + 1) {
      StillNew(n, n1, known, m);
      forall i | 0 <= i < m + 1 && n.pending[i].name in known
        ensures n.deck[i] in n'.locals && n'.locals[n.deck[i]] == n.pending[i]
      {
        NewFiled(n, n1, n', known, m, i);
      }
    }
    hide IdsOfKnown, NewIds;
  }

  lemma NewFiled(n: Node, n1: Node, n': Node, known: set<string>, m: nat, i: nat)
    requires n.pending != [] && n.deck != [] && n1.pending == n.pending[1..] && n1.deck == n.deck[1..]
    requires m <= |n1.pending| && m <= |n1.deck| && Filed(n1, n', known, m) && NewIds(n1, m)
    requires n1.locals == if n.pending[0].name in known then AddLocal(n.locals, n.deck[0], n.pending[0]) else n.locals
    requires i < m + 1 && n.pending[i].name in known && n.deck[0] !in n.locals
    ensures n.deck[i] in n'.locals && n'.locals[n.deck[i]] == n.pending[i]
  {
    hide NewIds, IdsOfKnown;
    if i > 0 {
      assert n.deck[i] == n1.deck[i - 1] && n.pending[i] == n1.pending[i - 1];
      KnownId(n1, known, m, i - 1);
    }
  }

  lemma KnownId(n: Node, known: set<string>, m: nat, i: nat)
    requires m <= |n.pending| && m <= |n.deck| && i < m && n.pending[i].name in known
    ensures n.deck[i] in IdsOfKnown(n, known, m)
  {
  }

  lemma StillNew(n: Node, n1: Node, known: set<string>, m: nat)
    requires n.pending != [] && n.deck != [] && n1.deck == n.deck[1..] && m + 1 <= |n.deck| && NewIds(n, m + 1)
    requires n1.locals == if n.pending[0].name in known then AddLocal(n.locals, n.deck[0], n.pending[0]) else n.locals
    ensures NewIds(n1, m)
  {
    assert forall i :: 0 <= i < m ==> n1.deck[i] == n.deck[i + 1];
  }

  lemma OneMoreKnown(n: Node, n1: Node, known: set<string>, m: nat)
    requires n.pending != [] && n.deck != [] && n1.pending == n.pending[1..] && n1.deck == n.deck[1..]
    requires m <= |n1.pending| && m <= |n1.deck|
    ensures IdsOfKnown(n, known, m + 1)
            == IdsOfKnown(n1, known, m) + if n.pending[0].name in known then {n.deck[0]} else {}
  {
    assert forall i :: 0 <= i < m ==> n1.deck[i] == n.deck[i + 1] && n1.pending[i] == n.pending[i + 1];
    assert forall i :: 0 < i < m + 1 ==> n.deck[i] == n1.deck[i - 1] && n.pending[i] == n1.pending[i - 1];
  }

  lemma OneMoreServed(n: Node, n1: Node, known: set<string>, tracked: set<u32>, m: nat)
    requires n.pending != [] && n.deck != [] && n1.pending == n.pending[1..] && n1.deck == n.deck[1..]
    requires n1.announced == n.announced + [(n.deck[0], n.pending[0])] && Fine(n, known, tracked, 0)
    requires m <= |n1.pending| && m <= |n1.deck| && forall i :: 0 <= i < m - 1 ==> Fine(n1, known, tracked, i)
    ensures n1.pending[m..] == n.pending[m + 1..] && n1.deck[m..] == n.deck[m + 1..]
    ensures n1.announced + seq(m, i requires 0 <= i < m => (n1.deck[i], n1.pending[i]))
            == n.announced + seq(m + 1, i requires 0 <= i < m + 1 => (n.deck[i], n.pending[i]))
    ensures forall i :: 0 <= i < m ==> Fine(n, known, tracked, i)
    ensures m > 0 ==> (Fine(n1, known, tracked, m - 1) <==> Fine(n, known, tracked, m))
  {
    forall i | 0 <= i < m ensures Fine(n, known, tracked, i) {
      if i > 0 {
        assert Fine(n1, known, tracked, i - 1);
      }
    }
  }

  /** A provider resolves all its pending groups in one round exactly when all but the last are fine:
      each can be built here, and its announcement goes over some link. */
  lemma ProviderServesAllExactlyWhen(n: Node, known: set<string>, tracked: set<u32>)
    requires n.provider && !n.failed
    ensures var top, n' := TopUp(n), Resolve(n, known, tracked);
            && (n'.pending == [] <==> forall i :: 0 <= i < |n.pending| - 1 ==> Fine(top, known, tracked, i))
            && (!n'.failed <==> forall i :: 0 <= i < |n.pending| ==> Fine(top, known, tracked, i))
  {
    var top, n' := TopUp(n), Resolve(n, known, tracked);
    assert |top.deck| >= |n.pending|;
    hide TopUp, Fine;
    var m := ServedInOrder(top, known, tracked);
    assert top.pending == n.pending by { SamePending(n); }
    assert n'.pending == [] <==> m == |n.pending|;
    if n'.failed {
      assert !Fine(top, known, tracked, m - 1);
    } else {
      assert m == |n.pending|;
      assert m > 0 ==> Fine(top, known, tracked, m - 1);
    }
  }

  lemma SamePending(n: Node)
    ensures TopUp(n).pending == n.pending
  {
  }

  /** So a provider without any connection serves one group and then stops for good. */
  lemma AloneServesOne(n: Node, known: set<string>)
    requires n.provider && !n.failed && n.pending != []
    ensures Resolve(n, known, {}).failed && Resolve(n, known, {}).pending == n.pending[1..]
    ensures forall more, tracked :: Resolve(Resolve(n, known, {}), more, tracked) == Resolve(n, known, {})
  {
    var top := TopUp(n);
    assert |top.deck| >= |n.pending|;
    SamePending(n);
    var m := ServedInOrder(top, known, {});
    assert !Fine(top, known, {}, 0);
  }

  // ---- every request is answered

  lemma RunMore(n: nat, evs: seq<Event>, ev: Event)
    ensures Run(n, evs + [ev]) == Step(Run(n, evs), ev)
  {
    assert (evs + [ev])[..|evs|] == evs;
    hide Step;
  }

  /** A node that asks the provider gets a pack that holds the next 25 numbers; they go to the end of its deck
      when that comes in, and nowhere else. */
  lemma RequestIsServed(n: nat, evs: seq<Event>, from: nat)
    requires from < n
    ensures var s := Run(n, evs);
            var s' := Run(n, evs + [Request(0, from)] + [Arrive(|s.flight|)]);
            && s'.minted == s.minted + 25 && s'.flight == s.flight
            && from < |s.nodes| == |s'.nodes|
            && s'.nodes[from].deck == s.nodes[from].deck + seq(25, i => Wrap(s.minted + i))
            && forall k :: 0 <= k < |s.nodes| && k != from ==> s'.nodes[k].deck == s.nodes[k].deck
  {
    IdsAreConserved(n, evs);
    SameSize(n, evs);
    RunMore(n, evs, Request(0, from));
    RunMore(n, evs + [Request(0, from)], Arrive(|Run(n, evs).flight|));
    PackIs(Run(n, evs).minted);
    hide Run, AllIds, Wrap, Mint;
    ServedAt(Run(n, evs), from);
  }

  lemma ServedAt(s: Sys, from: nat)
    requires 0 < |s.nodes| && from < |s.nodes| && s.nodes[0].provider
    ensures var pack := Mint(s.nodes[0].counter, PACK_SIZE);
            var s' := Step(Step(s, Request(0, from)), Arrive(|s.flight|));
            && s'.minted == s.minted + PACK_SIZE && s'.flight == s.flight && |s'.nodes| == |s.nodes|
            && s'.nodes[from].deck == s.nodes[from].deck + pack
            && forall k :: 0 <= k < |s.nodes| && k != from ==> s'.nodes[k].deck == s.nodes[k].deck
  {
    hide Mint, Fwd;
    var s1 := Step(s, Request(0, from));
    assert Without(s1.flight, |s.flight|) == s.flight;
    hide Without;
  }

  lemma PackIs(minted: nat)
    ensures Mint(Wrap(minted), PACK_SIZE) == seq(25, i => Wrap(minted + i))
  {
    forall i | 0 <= i < 25 ensures Fwd(Wrap(minted), i) == Wrap(minted + i) {
      WrapSteps(minted, i);
    }
    hide Wrap, Fwd;
  }

  lemma {:induction false} SameSize(n: nat, evs: seq<Event>)
    ensures |Run(n, evs).nodes| == n
  {
    if evs != [] {
      SameSize(n, evs[..|evs| - 1]);
      hide Resolve, Mint, Minted;
    }
  }
}
