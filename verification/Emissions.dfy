/** How emissions grow as packets are sent, and how buffers grow as fragments come in. */
module Emissions {
  import opened Seq32
  import opened Packets
  import opened Serialization
  import opened Reassembly
  import opened Numbering
  import opened Channel

  lemma HoldsAppend(em: Emission, ds: seq<Datagram>, m: Buffer, held: set<FragId>)
    requires Holds(em, m, held)
    ensures Holds(em + [ds], m, held)
  {
    forall k | k in m ensures Owned(em + [ds], held, k) {
      assert Owned(em, held, k);
      var f :| f in held && Issued(em, f) && Key(em, f) == k;
      assert Key(em + [ds], f) == k;
    }
  }

  lemma StampedAppend(em: Emission, fs: seq<Fragment>)
    requires Stamped(em)
    ensures Stamped(em + [Stamp(Wrap(Total(em)), fs)])
    ensures Total(em + [Stamp(Wrap(Total(em)), fs)]) == Total(em) + |fs|
  {
    hide Wrap, Fwd;
    var ds := Stamp(Wrap(Total(em)), fs);
    var em' := em + [ds];
    StartAppend(em, ds, |em|);
    forall f | Issued(em', f) ensures Key(em', f) == Wrap(Index(em', f)) {
      if f.msg < |em| {
        assert Issued(em, f);
        IssuedAppend(em, ds, f);
      } else {
        WrapSteps(Total(em), f.part);
        assert Key(em', f) == Fwd(Wrap(Total(em)), f.part);
      }
    }
  }

  lemma CutsAppend(sent: seq<Packet>, em: Emission, p: Packet, size: nat, n: u32)
    requires Cuts(sent, em) && size > 0
    ensures Cuts(sent + [p], em + [Stamp(n, Fragments(p, size))])
  {
    var fs := Fragments(p, size);
    FragmentsAreACut(p, size);
    assert Frags(Stamp(n, fs)) == fs;
  }

  lemma OnePart(sent: seq<Packet>, em: Emission, f: FragId)
    requires Cuts(sent, em) && Issued(em, f)
    ensures var g := At(em, f).frag;
            && (g.first && g.last <==> |em[f.msg]| == 1)
            && (|em[f.msg]| == 1 ==> f.part == 0 && Packet(g.id, g.relay, g.bytes) == sent[f.msg])
  {
    var fs := Frags(em[f.msg]);
    assert IsCut(sent[f.msg], fs) && fs[f.part] == At(em, f).frag;
    if |fs| == 1 {
      assert fs[..0] == [];
      assert Joined(fs) == [] + fs[0].bytes;
    }
  }

  lemma HoldsInsert(em: Emission, m: Buffer, held: set<FragId>, f: FragId)
    requires Holds(em, m, held) && Issued(em, f) && Key(em, f) !in m
    ensures Holds(em, m[Key(em, f) := At(em, f).frag], held + {f})
  {
    var m' := m[Key(em, f) := At(em, f).frag];
    forall k | k in m' ensures Owned(em, held + {f}, k) {
      if k in m {
        assert Owned(em, held, k);
        var g :| g in held && Issued(em, g) && Key(em, g) == k;
        assert g in held + {f};
      } else {
        assert f in held + {f};
      }
    }
  }

  lemma NonEmpty(sent: seq<Packet>, em: Emission, n: nat)
    requires Cuts(sent, em) && n < |em|
    ensures |em[n]| >= 1
  {
    assert IsCut(sent[n], Frags(em[n]));
  }
}
