/** How ids for variable groups are handed out over a network: one node counts them up, packs of
    25 travel to the nodes that ask, and every node gives them to its pending groups in turn. */
module NetworkIds {
  import opened Seq32
  import opened Packets
  import opened Wire

  /** sm_AvailableIds. */
  const PACK_SIZE: nat := 25

  /** A group waiting for an id: the user function that builds it, and its parameters. */
  datatype Pending = Pending(name: string, params: seq<Byte>)

  /** The id part of a VariableGroupNode. `announced` lists the creations sent to the other
      nodes, `locals` the groups that exist here; `failed` is the critical error. */
  datatype Node = Node(provider: bool, counter: u32, deck: seq<u32>, pending: seq<Pending>,
                       announced: seq<(u32, Pending)>, locals: map<u32, Pending>, failed: bool)

  /** The next n ids of the counter. */
  function Mint(counter: u32, n: nat): (ids: seq<u32>)
    ensures |ids| == n
  {
    seq(n, i => Fwd(counter, i))
  }

  function Minted(n: Node, count: nat): Node {
    n.(counter := Fwd(n.counter, count))
  }

  /** A provider tops up its own deck with as many ids as groups are pending. */
  function TopUp(n: Node): Node {
    if n.provider then Minted(n, |n.pending|).(deck := n.deck + Mint(n.counter, |n.pending|)) else n
  }

  function AddLocal(locals: map<u32, Pending>, id: u32, p: Pending): map<u32, Pending> {
    if id in locals then locals else locals[id := p]
  }

  /** The first pending group takes the first id, is announced, and is built here if its function
      is known. It is a critical error if it is not, or if the announcement of its id went over no
      link, so that there is no ticket to track it by. */
  function TakeOne(n: Node, known: set<string>, tracked: set<u32>): Node
    requires n.pending != [] && n.deck != []
  {
    var id, p := n.deck[0], n.pending[0];
    n.(deck := n.deck[1..], pending := n.pending[1..], announced := n.announced + [(id, p)],
       locals := if p.name in known then AddLocal(n.locals, id, p) else n.locals,
       failed := p.name !in known || id !in tracked)
  }

  /** As long as there are pending groups and ids; a critical error stops the round. */
  function TakeAll(n: Node, known: set<string>, tracked: set<u32>): Node
    decreases |n.pending|
  {
    if n.failed || n.pending == [] || n.deck == [] then n else TakeAll(TakeOne(n, known, tracked), known, tracked)
  }

  /** One update: nothing any more after a critical error. */
  function Resolve(n: Node, known: set<string>, tracked: set<u32>): Node {
    if n.failed then n else TakeAll(TopUp(n), known, tracked)
  }

  function DecodeIds(payload: seq<Byte>): (ids: seq<u32>)
    requires |payload| == 4 * PACK_SIZE
    ensures |ids| == PACK_SIZE
  {
    seq(PACK_SIZE, i requires 0 <= i < PACK_SIZE => ReadU32(payload, 4 * i))
  }

  /** A pack is read as it was written. */
  lemma PackRoundTrip(ids: seq<u32>)
    requires |ids| == PACK_SIZE
    ensures DecodeIds(AckBytes(ids)) == ids
  {
    forall i | 0 <= i < PACK_SIZE ensures DecodeIds(AckBytes(ids))[i] == ids[i] {
      AckBytesAt([], ids, i);
      assert [] + AckBytes(ids) == AckBytes(ids);
    }
  }

  class VariableGroupNode {
    var isNetworkIdProvider: bool
    var uniqueIdCounter: u32
    var uniqueIds: seq<u32>
    var pendingGroups: seq<Pending>
    var announced: seq<(u32, Pending)>
    var variableGroups: map<u32, Pending>
    var criticalError: bool

    function View(): Node
      reads this
    {
      Node(isNetworkIdProvider, uniqueIdCounter, uniqueIds, pendingGroups, announced, variableGroups, criticalError)
    }

    constructor ()
      ensures View() == Node(false, 0, [], [], [], map[], false)
    {
      isNetworkIdProvider, uniqueIdCounter, uniqueIds, pendingGroups := false, 0, [], [];
      announced, variableGroups, criticalError := [], map[], false;
    }

    method SetIsNetworkIdProvider(isProvider: bool)
      modifies this`isNetworkIdProvider
      ensures View() == old(View()).(provider := isProvider)
    {
      isNetworkIdProvider := isProvider;
    }

    method DeferredCreateGroup(p: Pending)
      modifies this`pendingGroups
      ensures View() == old(View()).(pending := old(pendingGroups) + [p])
    {
      pendingGroups := pendingGroups + [p];
    }

    /** Answers a request with a pack of fresh ids, if this node is the provider. */
    method RecvIdRequest() returns (pack: Option<seq<Byte>>)
      modifies this`uniqueIdCounter
      ensures !old(isNetworkIdProvider) ==> pack == None && View() == old(View())
      ensures old(isNetworkIdProvider) ==>
                pack == Some(AckBytes(Mint(old(uniqueIdCounter), PACK_SIZE)))
                    && View() == Minted(old(View()), PACK_SIZE)
      ensures old(isNetworkIdProvider) ==> |pack.value| == 100 && uniqueIdCounter == Fwd(old(uniqueIdCounter), 25)
    {
      if !isNetworkIdProvider {
        return None;
      }
      var idPack, first := [], uniqueIdCounter;
      var i := 0;
      WrapSteps(first, 0);
      WrapSmall(first);
      hide Wrap, Fwd;
      while i < PACK_SIZE
        invariant i <= PACK_SIZE && uniqueIdCounter == Fwd(first, i) && idPack == Mint(first, i)
      {
        NextId(first, i);
        idPack := idPack + [uniqueIdCounter];
        uniqueIdCounter := Fwd(uniqueIdCounter, 1);
        i := i + 1;
      }
      pack := Some(AckBytes(idPack));
    }

    /** Takes a pack into the deck; one of the wrong size is dropped. */
    method RecvIdProvide(payload: seq<Byte>)
      modifies this`uniqueIds
      ensures View() == if |payload| != 4 * PACK_SIZE then old(View())
                        else old(View()).(deck := old(uniqueIds) + DecodeIds(payload))
      ensures |payload| == 100 ==> |uniqueIds| == |old(uniqueIds)| + 25
    {
      if |payload| != 4 * PACK_SIZE {
        return;
      }
      hide ReadU32;
      var i := 0;
      while i < PACK_SIZE
        invariant i <= PACK_SIZE && uniqueIds == old(uniqueIds) + DecodeIds(payload)[..i]
      {
        uniqueIds := uniqueIds + [ReadU32(payload, 4 * i)];
        i := i + 1;
      }
      assert DecodeIds(payload)[..i] == DecodeIds(payload);
    }

    /** Asks for ids if they run low, there is somebody to ask, and it is time; then gives ids to the
        groups that wait. Nothing happens any more after a critical error. */
    method Update(openConnections: nat, due: bool, known: set<string>, tracked: set<u32>) returns (request: bool)
      modifies this
      ensures View() == Resolve(old(View()), known, tracked)
      ensures request <==> !old(criticalError) && !old(isNetworkIdProvider) && openConnections > 0
                           && |old(uniqueIds)| < 25 && due
    {
      request := false;
      if criticalError {
        return;
      }
      request := IntervalSendIdRequest(openConnections, due);
      ResolvePendingGroups(known, tracked);
    }

    /** The provider owns the ids and never asks. */
    method IntervalSendIdRequest(openConnections: nat, due: bool) returns (request: bool)
      ensures request <==> !isNetworkIdProvider && openConnections > 0 && |uniqueIds| < 25 && due
    {
      if isNetworkIdProvider {
        return false;
      }
      request := openConnections > 0 && |uniqueIds| < PACK_SIZE && due;
    }

    /** Gives ids to the groups that wait for one. */
    method ResolvePendingGroups(known: set<string>, tracked: set<u32>)
      requires !criticalError
      modifies this
      ensures View() == Resolve(old(View()), known, tracked)
    {
      hide Wrap, Fwd;
      if isNetworkIdProvider {
        PushIds();
      }
      while pendingGroups != [] && uniqueIds != []
        invariant !criticalError && TakeAll(View(), known, tracked) == Resolve(old(View()), known, tracked)
        decreases |pendingGroups|
      {
        var netId, p := uniqueIds[0], pendingGroups[0];
        uniqueIds, pendingGroups := uniqueIds[1..], pendingGroups[1..];
        announced := announced + [(netId, p)];
        if p.name !in known {
          criticalError := true;
          return;
        }
        variableGroups := AddLocal(variableGroups, netId, p);
        if netId !in tracked {
          criticalError := true;
          return;
        }
      }
    }

    /** The provider's own top-up loop. */
    method PushIds()
      modifies this`uniqueIds, this`uniqueIdCounter
      ensures View() == Minted(old(View()), |pendingGroups|).(deck :=
                          old(uniqueIds) + Mint(old(uniqueIdCounter), |pendingGroups|))
    {
      var first, i := uniqueIdCounter, 0;
      WrapSteps(first, 0);
      WrapSmall(first);
      hide Wrap, Fwd;
      while i < |pendingGroups|
        invariant i <= |pendingGroups| && uniqueIdCounter == Fwd(first, i)
        invariant uniqueIds == old(uniqueIds) + Mint(first, i)
      {
        NextId(first, i);
        uniqueIds := uniqueIds + [uniqueIdCounter];
        uniqueIdCounter := Fwd(uniqueIdCounter, 1);
        i := i + 1;
      }
    }
  }

  lemma NextId(first: u32, i: nat)
    ensures Fwd(Fwd(first, i), 1) == Fwd(first, i + 1)
    ensures Mint(first, i) + [Fwd(first, i)] == Mint(first, i + 1)
  {
  }
}
