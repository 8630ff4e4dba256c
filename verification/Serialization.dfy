/** Cutting a packet into fragments (RUDPLink::serializeNormalPacket). */
module Serialization {
  import opened Packets

  /** The payload in pieces of `size` bytes; an empty payload is one empty piece. */
  function Pieces(data: seq<Byte>, size: nat): (ps: seq<seq<Byte>>)
    requires size > 0
    ensures |ps| >= 1
    ensures forall j :: 0 <= j < |ps| ==> |ps[j]| <= size && (j < |ps| - 1 ==> |ps[j]| == size)
    decreases |data|
  {
    if |data| <= size then [data] else [data[..size]] + Pieces(data[size..], size)
  }

  function Fragments(p: Packet, size: nat): (fs: seq<Fragment>)
    requires size > 0
    ensures |fs| >= 1
  {
    var ps := Pieces(p.payload, size);
    seq(|ps|, j requires 0 <= j < |ps| => Fragment(j == 0, j == |ps| - 1, p.id, p.relay, ps[j]))
  }

  lemma {:induction false} JoinedCons(f: Fragment, fs: seq<Fragment>)
    ensures Joined([f] + fs) == f.bytes + Joined(fs)
  {
    if fs != [] {
      JoinedCons(f, fs[..|fs| - 1]);
      assert ([f] + fs)[..|fs|] == [f] + fs[..|fs| - 1];
    }
  }

  function BytesOf(fs: seq<Fragment>): (bs: seq<seq<Byte>>)
    ensures |bs| == |fs|
  {
    seq(|fs|, i requires 0 <= i < |fs| => fs[i].bytes)
  }

  lemma JoinedOne(f: Fragment)
    ensures Joined([f]) == f.bytes
  {
    assert [f][..0] == [];
    assert Joined([f]) == [] + f.bytes;
  }

  lemma PiecesSplit(data: seq<Byte>, size: nat, fs: seq<Fragment>)
    requires size > 0 && |data| > size && BytesOf(fs) == Pieces(data, size)
    ensures fs == [fs[0]] + fs[1..] && fs[0].bytes == data[..size]
    ensures BytesOf(fs[1..]) == Pieces(data[size..], size)
    ensures data == data[..size] + data[size..]
  {
    assert BytesOf(fs[1..]) == BytesOf(fs)[1..];
    assert fs[0].bytes == BytesOf(fs)[0];
  }

  /** Fragments whose bytes are the pieces of `data` join up to `data`. */
  lemma {:induction false} PiecesJoin(data: seq<Byte>, size: nat, fs: seq<Fragment>)
    requires size > 0 && BytesOf(fs) == Pieces(data, size)
    ensures Joined(fs) == data
    decreases |data|
  {
    if |data| <= size {
      assert fs[0].bytes == BytesOf(fs)[0] && fs == [fs[0]];
      JoinedOne(fs[0]);
    } else {
      PiecesSplit(data, size, fs);
      hide Joined, Pieces, BytesOf;
      PiecesJoin(data[size..], size, fs[1..]);
      JoinedCons(fs[0], fs[1..]);
    }
  }

  /** Every packet and every positive fragment size give a proper cut. */
  lemma FragmentsAreACut(p: Packet, size: nat)
    requires size > 0
    ensures IsCut(p, Fragments(p, size))
    ensures forall j :: 0 <= j < |Fragments(p, size)| ==> |Fragments(p, size)[j].bytes| <= size
  {
    assert BytesOf(Fragments(p, size)) == Pieces(p.payload, size);
    PiecesJoin(p.payload, size, Fragments(p, size));
    hide Joined;
  }

  /** Where the cutting loop stands: `fs` covers `payload[..offset]`, last bit not yet set. */
  ghost predicate Cutting(p: Packet, size: nat, offset: nat, fs: seq<Fragment>)
    requires size > 0
  {
    && offset <= |p.payload|
    && (fs == [] ==> offset == 0)
    && var todo := if offset < |p.payload| || fs == [] then Pieces(p.payload[offset..], size) else [];
    && |Pieces(p.payload, size)| == |fs| + |todo|
    && Pieces(p.payload, size)[|fs|..] == todo
    && forall j :: 0 <= j < |fs| ==>
         fs[j] == Fragment(j == 0, false, p.id, p.relay, Pieces(p.payload, size)[j])
  }

  lemma CutOne(p: Packet, size: nat, offset: nat, fs: seq<Fragment>, n: nat)
    requires size > 0 && Cutting(p, size, offset, fs)
    requires offset < |p.payload| || fs == []
    requires n == if |p.payload| - offset < size then |p.payload| - offset else size
    ensures Cutting(p, size, offset + n,
                    fs + [Fragment(fs == [], false, p.id, p.relay, p.payload[offset..offset + n])])
  {
    var all, rest := Pieces(p.payload, size), p.payload[offset..];
    assert all[|fs|] == all[|fs|..][0];
    assert all[|fs| + 1..] == all[|fs|..][1..];
    if |rest| > size {
      assert rest[size..] == p.payload[offset + n..];
    }
    assert all[|fs|] == p.payload[offset..offset + n];
  }

  lemma CutAll(p: Packet, size: nat, fs: seq<Fragment>)
    requires size > 0 && fs != [] && Cutting(p, size, |p.payload|, fs)
    ensures fs[|fs| - 1 := fs[|fs| - 1].(last := true)] == Fragments(p, size)
    ensures IsCut(p, Fragments(p, size))
  {
    FragmentsAreACut(p, size);
  }

  /** The loop of the source: chops off `size` bytes at a time, allows one empty
      fragment, and sets the last fragment bit at the end. */
  method SerializeNormalPacket(p: Packet, size: nat) returns (fs: seq<Fragment>)
    requires size > 0
    ensures fs == Fragments(p, size)
    ensures IsCut(p, fs)
  {
    fs := [];
    var isFirst, offset: nat := true, 0;
    assert p.payload[0..] == p.payload;
    while offset < |p.payload| || isFirst
      invariant Cutting(p, size, offset, fs)
      invariant isFirst <==> fs == []
      decreases |p.payload| - offset + if isFirst then 1 else 0
    {
      var payloadLen := if |p.payload| - offset < size then |p.payload| - offset else size;
      CutOne(p, size, offset, fs, payloadLen);
      fs := fs + [Fragment(isFirst, false, p.id, p.relay, p.payload[offset..offset + payloadLen])];
      isFirst := false;
      offset := offset + payloadLen;
    }
    CutAll(p, size, fs);
    fs := fs[|fs| - 1 := fs[|fs| - 1].(last := true)];
  }
}
