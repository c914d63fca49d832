/**
 * When the merge result does not depend on map order (ip/ip.go:93-112).
 * The merge of lines 93-106 only ever looks at the first conflicting slot,
 * so in general the order matters (see `Normalize.MergeMayLeaveOverlap`).
 * When the input nets form groups (`Grouped`), though, in every order the
 * corrected merge keeps exactly the broadest net of each group.
 *
 * The bookkeeping is done for any relation `conflict` and measure `size`
 * with the properties the merge relies on; `MergedKeepsBroadest` then
 * applies it to `Conflict` and `Prefix`, and `MergedAsWrittenKeepsBroadest`
 * carries it over to the merge as written when no net is IPv4-mapped.
 * `KeptUncovered` does the same for the filter of lines 107-112: with one
 * address per key, as in every `ips` map (`NewListKeepsUncovered`), every
 * order keeps the same addresses.
 */
module Clusters {
  import opened Wrappers
  import opened GoNet
  import opened Normalize

  /**
   * The nets `all` form groups under `conflict`: it is reflexive,
   * symmetric and transitive on them, and two conflicting nets of the same
   * `size` are the same net.
   */
  ghost predicate Grouped(all: set<IPNet>, conflict: (IPNet, IPNet) -> bool, size: IPNet -> nat)
  {
    && (forall a :: a in all ==> conflict(a, a))
    && (forall a, b :: a in all && b in all && conflict(a, b) ==> conflict(b, a))
    && (forall a, b, c :: a in all && b in all && c in all && conflict(a, b) && conflict(b, c) ==> conflict(a, c))
    && (forall a, b :: a in all && b in all && conflict(a, b) && size(a) == size(b) ==> a == b)
  }

  /** Nets conflict exactly when they share a tag, and sizes differ within a tag: they form groups. */
  lemma GroupedByLabel<G>(all: set<IPNet>, conflict: (IPNet, IPNet) -> bool, size: IPNet -> nat, tag: IPNet -> G)
    requires forall a, b :: a in all && b in all ==> (conflict(a, b) <==> tag(a) == tag(b))
    requires forall a, b :: a in all && b in all && tag(a) == tag(b) && size(a) == size(b) ==> a == b
    ensures Grouped(all, conflict, size)
  {
  }

  /** `t` is a broadest net of its group within `vis`. */
  ghost predicate Broadest(t: IPNet, vis: set<IPNet>, conflict: (IPNet, IPNet) -> bool, size: IPNet -> nat)
  {
    t in vis && forall w :: w in vis && conflict(t, w) ==> size(t) <= size(w)
  }

  /**
   * `acc` holds one broadest net per group met in `vis`: each slot is
   * broadest, every visited net conflicts with a slot, and no two slots
   * conflict.
   */
  ghost predicate OnePerGroup(acc: seq<IPNet>, vis: set<IPNet>, conflict: (IPNet, IPNet) -> bool, size: IPNet -> nat)
  {
    && (forall k :: 0 <= k < |acc| ==> Broadest(acc[k], vis, conflict, size))
    && (forall w :: w in vis ==> exists k :: 0 <= k < |acc| && conflict(w, acc[k]))
    && (forall k, l :: 0 <= k < l < |acc| ==> !conflict(acc[k], acc[l]))
  }

  /** After appending a candidate that conflicts with no slot, every slot is still broadest in its group. */
  lemma AppendedBroadest(acc: seq<IPNet>, vis: set<IPNet>, v1: IPNet, all: set<IPNet>,
                         conflict: (IPNet, IPNet) -> bool, size: IPNet -> nat)
    requires Grouped(all, conflict, size) && vis <= all && v1 in all && OnePerGroup(acc, vis, conflict, size)
    requires forall k :: 0 <= k < |acc| ==> !conflict(v1, acc[k])
    ensures forall k :: 0 <= k < |acc + [v1]| ==> Broadest((acc + [v1])[k], vis + {v1}, conflict, size)
  {
    var r, vis' := acc + [v1], vis + {v1};
    forall w | w in vis
      ensures !conflict(v1, w)
    {
      var k :| 0 <= k < |acc| && conflict(w, acc[k]);
    }
    forall k | 0 <= k < |r|
      ensures Broadest(r[k], vis', conflict, size)
    {
      if k < |acc| {
        assert r[k] == acc[k];
      }
    }
  }

  /** After appending, every visited net conflicts with some slot. */
  lemma AppendedCovers(acc: seq<IPNet>, vis: set<IPNet>, v1: IPNet, all: set<IPNet>,
                       conflict: (IPNet, IPNet) -> bool, size: IPNet -> nat)
    requires Grouped(all, conflict, size) && vis <= all && v1 in all && OnePerGroup(acc, vis, conflict, size)
    ensures forall w :: w in vis + {v1} ==> exists k :: 0 <= k < |acc + [v1]| && conflict(w, (acc + [v1])[k])
  {
    var r := acc + [v1];
    forall w | w in vis + {v1}
      ensures exists k :: 0 <= k < |r| && conflict(w, r[k])
    {
      if w in vis {
        var k :| 0 <= k < |acc| && conflict(w, acc[k]);
        assert r[k] == acc[k];
      } else {
        assert r[|acc|] == v1;
      }
    }
  }

  /** After appending a candidate that conflicts with no slot, no two slots conflict. */
  lemma AppendedApart(acc: seq<IPNet>, vis: set<IPNet>, v1: IPNet, all: set<IPNet>,
                      conflict: (IPNet, IPNet) -> bool, size: IPNet -> nat)
    requires Grouped(all, conflict, size) && vis <= all && v1 in all && OnePerGroup(acc, vis, conflict, size)
    requires forall k :: 0 <= k < |acc| ==> !conflict(v1, acc[k])
    ensures forall k, l :: 0 <= k < l < |acc + [v1]| ==> !conflict((acc + [v1])[k], (acc + [v1])[l])
  {
    var r := acc + [v1];
    forall k, l | 0 <= k < l < |r|
      ensures !conflict(r[k], r[l])
    {
      if l < |acc| {
        assert r[k] == acc[k] && r[l] == acc[l];
      }
    }
  }

  /** A candidate that conflicts with no slot starts a new group and is appended. */
  lemma AppendKeepsGroups(acc: seq<IPNet>, vis: set<IPNet>, v1: IPNet, all: set<IPNet>,
                          conflict: (IPNet, IPNet) -> bool, size: IPNet -> nat)
    requires Grouped(all, conflict, size) && vis <= all && v1 in all && OnePerGroup(acc, vis, conflict, size)
    requires forall k :: 0 <= k < |acc| ==> !conflict(v1, acc[k])
    ensures OnePerGroup(acc + [v1], vis + {v1}, conflict, size)
  {
    AppendedBroadest(acc, vis, v1, all, conflict, size);
    AppendedCovers(acc, vis, v1, all, conflict, size);
    AppendedApart(acc, vis, v1, all, conflict, size);
  }

  /** A net in the group of slot `j` conflicts with no other slot. */
  lemma OtherSlotsApart(acc: seq<IPNet>, vis: set<IPNet>, v1: IPNet, j: nat, all: set<IPNet>,
                        conflict: (IPNet, IPNet) -> bool, size: IPNet -> nat)
    requires Grouped(all, conflict, size) && vis <= all && v1 in all && OnePerGroup(acc, vis, conflict, size)
    requires j < |acc| && conflict(v1, acc[j])
    ensures forall k :: 0 <= k < |acc| && k != j ==> !conflict(v1, acc[k]) && !conflict(acc[k], v1)
  {
    forall k | 0 <= k < |acc| && k != j
      ensures !conflict(v1, acc[k]) && !conflict(acc[k], v1)
    {
      assert acc[k] in all && acc[j] in all;
      if conflict(v1, acc[k]) || conflict(acc[k], v1) {
        assert false;
      }
    }
  }

  /** After a broader candidate takes slot `j`, every slot is still a broadest net of its group. */
  lemma ReplacedBroadest(r: seq<IPNet>, vis': set<IPNet>, acc: seq<IPNet>, vis: set<IPNet>, v1: IPNet, j: nat, all: set<IPNet>,
                           conflict: (IPNet, IPNet) -> bool, size: IPNet -> nat)
    requires Grouped(all, conflict, size) && vis <= all && v1 in all && OnePerGroup(acc, vis, conflict, size)
    requires j < |acc| && conflict(v1, acc[j]) && size(v1) < size(acc[j])
    requires r == acc[j := v1] && vis' == vis + {v1}
    ensures forall k :: 0 <= k < |r| ==> Broadest(r[k], vis', conflict, size)
  {
    OtherSlotsApart(acc, vis, v1, j, all, conflict, size);
    forall w | w in vis' && conflict(v1, w)
      ensures size(v1) <= size(w)
    {
      if w in vis {
        var k :| 0 <= k < |acc| && conflict(w, acc[k]);
        assert k == j;
      }
    }
    forall k | 0 <= k < |r|
      ensures Broadest(r[k], vis', conflict, size)
    {
      if k != j {
        assert r[k] == acc[k];
      }
    }
  }

  /** After a broader candidate takes slot `j`, every visited net still conflicts with a slot. */
  lemma ReplacedCovers(r: seq<IPNet>, vis': set<IPNet>, acc: seq<IPNet>, vis: set<IPNet>, v1: IPNet, j: nat, all: set<IPNet>,
                           conflict: (IPNet, IPNet) -> bool, size: IPNet -> nat)
    requires Grouped(all, conflict, size) && vis <= all && v1 in all && OnePerGroup(acc, vis, conflict, size)
    requires j < |acc| && conflict(v1, acc[j]) && size(v1) < size(acc[j])
    requires r == acc[j := v1] && vis' == vis + {v1}
    ensures forall w :: w in vis' ==> exists k :: 0 <= k < |r| && conflict(w, r[k])
  {
    forall w | w in vis'
      ensures exists k :: 0 <= k < |r| && conflict(w, r[k])
    {
      if w in vis {
        var k :| 0 <= k < |acc| && conflict(w, acc[k]);
        if k == j {
          assert conflict(w, r[j]);
        } else {
          assert r[k] == acc[k];
        }
      } else {
        assert conflict(w, r[j]);
      }
    }
  }

  /** A candidate in the group of slot `j` that is broader than it takes the slot. */
  lemma ReplaceKeepsGroups(acc: seq<IPNet>, vis: set<IPNet>, v1: IPNet, j: nat, all: set<IPNet>,
                           conflict: (IPNet, IPNet) -> bool, size: IPNet -> nat)
    requires Grouped(all, conflict, size) && vis <= all && v1 in all && OnePerGroup(acc, vis, conflict, size)
    requires j < |acc| && conflict(v1, acc[j]) && size(v1) < size(acc[j])
    ensures OnePerGroup(acc[j := v1], vis + {v1}, conflict, size)
  {
    var r := acc[j := v1];
    OtherSlotsApart(acc, vis, v1, j, all, conflict, size);
    ReplacedBroadest(r, vis + {v1}, acc, vis, v1, j, all, conflict, size);
    ReplacedCovers(r, vis + {v1}, acc, vis, v1, j, all, conflict, size);
    forall k, l | 0 <= k < l < |r|
      ensures !conflict(r[k], r[l])
    {
      if k != j && l != j {
        assert r[k] == acc[k] && r[l] == acc[l];
      }
    }
  }

  /** A candidate in the group of slot `j` that is not broader than it is dropped. */
  lemma DropKeepsGroups(acc: seq<IPNet>, vis: set<IPNet>, v1: IPNet, j: nat, all: set<IPNet>,
                        conflict: (IPNet, IPNet) -> bool, size: IPNet -> nat)
    requires Grouped(all, conflict, size) && vis <= all && v1 in all && OnePerGroup(acc, vis, conflict, size)
    requires j < |acc| && conflict(v1, acc[j]) && size(acc[j]) <= size(v1)
    ensures OnePerGroup(acc, vis + {v1}, conflict, size)
  {
    OtherSlotsApart(acc, vis, v1, j, all, conflict, size);
  }

  /** The values met along `order`. */
  ghost function Visited<K, V>(m: map<K, V>, order: seq<K>): set<V>
    requires forall i :: 0 <= i < |order| ==> order[i] in m
  {
    set i | 0 <= i < |order| :: m[order[i]]
  }

  /** Visiting one more key adds its value. */
  lemma VisitedStep<K, V>(m: map<K, V>, order: seq<K>, n: nat)
    requires n < |order| && forall i :: 0 <= i < |order| ==> order[i] in m
    ensures Visited(m, order[..n + 1]) == Visited(m, order[..n]) + {m[order[n]]}
  {
    var p, q := order[..n], order[..n + 1];
    forall v | v in Visited(m, q)
      ensures v in Visited(m, p) + {m[order[n]]}
    {
      var i :| 0 <= i < |q| && m[q[i]] == v;
      if i < n {
        assert p[i] == q[i];
      }
    }
    forall v | v in Visited(m, p)
      ensures v in Visited(m, q)
    {
      var i :| 0 <= i < |p| && m[p[i]] == v;
      assert q[i] == p[i];
    }
    assert q[n] == order[n];
  }

  /** Visiting every key meets every value. */
  lemma VisitedAll<K(!new), V>(m: map<K, V>, order: seq<K>)
    requires Enumerates(order, m.Keys)
    ensures Visited(m, order) == m.Values
  {
    forall v | v in m.Values
      ensures v in Visited(m, order)
    {
      var k :| k in m && m[k] == v;
      var i :| 0 <= i < |order| && order[i] == k;
    }
  }

  /** One merge step keeps one broadest net per group. */
  lemma InsertOnePerGroup(acc: seq<IPNet>, vis: set<IPNet>, v1: IPNet, all: set<IPNet>)
    requires Grouped(all, Conflict, Prefix) && vis <= all && v1 in all && OnePerGroup(acc, vis, Conflict, Prefix)
    ensures OnePerGroup(Insert(acc, v1), vis + {v1}, Conflict, Prefix)
  {
    match FirstConflict(acc, v1, 0)
    case None =>
      InsertWithoutConflict(acc, v1);
      AppendKeepsGroups(acc, vis, v1, all, Conflict, Prefix);
    case Some(j) =>
      InsertAtConflict(acc, v1, j);
      if Broader(v1, acc[j]) {
        ReplaceKeepsGroups(acc, vis, v1, j, all, Conflict, Prefix);
      } else {
        DropKeepsGroups(acc, vis, v1, j, all, Conflict, Prefix);
      }
  }

  /** Every prefix of the merge keeps one broadest net per group met so far. */
  lemma {:induction false} MergedOnePerGroup(nets: map<IPNet, IPNet>, order: seq<IPNet>)
    requires forall i :: 0 <= i < |order| ==> order[i] in nets
    requires Grouped(nets.Values, Conflict, Prefix)
    ensures OnePerGroup(Merged(nets, order), Visited(nets, order), Conflict, Prefix)
  {
    if order != [] {
      var m := |order| - 1;
      var p := order[..m];
      assert order[..m + 1] == order;
      MergedOnePerGroup(nets, p);
      MergedStep(nets, order, m);
      VisitedStep(nets, order, m);
      assert Visited(nets, p) <= nets.Values;
      InsertOnePerGroup(Merged(nets, p), Visited(nets, p), nets[order[m]], nets.Values);
    } else {
      assert Visited(nets, order) == {};
    }
  }

  /**
   * When the input nets form groups, the merge keeps, in every map order,
   * exactly the broadest net of each group, each once.
   */
  lemma MergedKeepsBroadest(nets: map<IPNet, IPNet>, order: seq<IPNet>)
    requires Enumerates(order, nets.Keys) && Grouped(nets.Values, Conflict, Prefix)
    ensures forall t :: t in Merged(nets, order) <==> Broadest(t, nets.Values, Conflict, Prefix)
    ensures forall k, l :: 0 <= k < l < |Merged(nets, order)| ==> Merged(nets, order)[k] != Merged(nets, order)[l]
  {
    var r := Merged(nets, order);
    MergedOnePerGroup(nets, order);
    VisitedAll(nets, order);
    forall t | Broadest(t, nets.Values, Conflict, Prefix)
      ensures t in r
    {
      var k :| 0 <= k < |r| && Conflict(t, r[k]);
      assert Broadest(r[k], nets.Values, Conflict, Prefix);
    }
  }

  /**
   * The same for the merge as written, when no input net is IPv4-mapped:
   * line 99's `Mask.Size()` comparison then picks the same nets.
   */
  lemma MergedAsWrittenKeepsBroadest(nets: map<IPNet, IPNet>, order: seq<IPNet>)
    requires Enumerates(order, nets.Keys) && Grouped(nets.Values, Conflict, Prefix)
    requires forall k :: k in nets ==> Unmapped(nets[k])
    ensures forall t :: t in MergedAsWritten(nets, order) <==> Broadest(t, nets.Values, Conflict, Prefix)
    ensures forall k, l :: 0 <= k < l < |MergedAsWritten(nets, order)| ==> MergedAsWritten(nets, order)[k] != MergedAsWritten(nets, order)[l]
  {
    forall i | 0 <= i < |order|
      ensures order[i] in nets && Unmapped(nets[order[i]])
    {
      assert order[i] in nets.Keys;
    }
    MergedAsWrittenAgrees(nets, order);
    MergedKeepsBroadest(nets, order);
  }

  /**
   * When no two input addresses are `Equal` (as with one address per
   * 16-byte form), the filter keeps, in every map order, exactly the
   * visited addresses that lie in no net, each once.
   */
  lemma {:induction false} KeptUncovered(nets: seq<IPNet>, ips: map<IP, IP>, order: seq<IP>)
    requires forall i :: 0 <= i < |order| ==> order[i] in ips
    requires forall a, b :: a in ips.Values && b in ips.Values && Equal(a, b) ==> a == b
    ensures forall v :: v in Kept(nets, ips, order) <==> v in Visited(ips, order) && !InSomeNet(nets, v)
    ensures forall k, l :: 0 <= k < l < |Kept(nets, ips, order)| ==> Kept(nets, ips, order)[k] != Kept(nets, ips, order)[l]
  {
    if order != [] {
      var m := |order| - 1;
      var p := order[..m];
      KeptUncovered(nets, ips, p);
      VisitedStep(ips, order, m);
      assert order[..m + 1] == order;
      var acc, v1 := Kept(nets, ips, p), ips[order[m]];
      if i :| 0 <= i < |acc| && Equal(acc[i], v1) {
        assert acc[i] in Visited(ips, p);
        assert acc[i] == v1;
      }
      if v1 in acc {
        var i :| 0 <= i < |acc| && acc[i] == v1;
        assert Equal(acc[i], v1);
      }
    } else {
      assert Visited(ips, order) == {};
    }
  }

  /**
   * For every configuration, in every order of the `ips` keys, the filter
   * keeps exactly the listed addresses that lie in no net, each once.
   */
  lemma NewListKeepsUncovered(o: seq<RawEntry>, nets: seq<IPNet>, order: seq<IP>)
    requires AllWellFormed(o) && Enumerates(order, IPsOf(o).Keys)
    ensures forall v :: v in Kept(nets, IPsOf(o), order) <==> v in Visited(IPsOf(o), order) && !InSomeNet(nets, v)
    ensures forall k, l :: 0 <= k < l < |Kept(nets, IPsOf(o), order)| ==> Kept(nets, IPsOf(o), order)[k] != Kept(nets, IPsOf(o), order)[l]
  {
    AddressesDistinct(o);
    KeptUncovered(nets, IPsOf(o), order);
  }
}
