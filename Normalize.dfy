/**
 * What `option.NewList` (ip/ip.go:78-115) computes, stated as functions of
 * the configured entries: classification and de-duplication into two maps,
 * the merge of the nets, and the filtering of the addresses. Go's map
 * iteration order is unspecified, so the merge and the filter take the
 * order in which the map keys are visited as an argument; every lemma here
 * holds for every such order.
 */
module Normalize {
  import opened Wrappers
  import opened GoNet

  /**
   * One configured entry, given by what `net.ParseCIDR` and `net.ParseIP`
   * make of its text (None where the parser fails).
   */
  datatype RawEntry = RawEntry(cidr: Option<IPNet>, addr: Option<IP>)

  /** What the parsers can produce: a masked 4- or 16-byte net, a 4- or 16-byte address. */
  predicate WellFormed(e: RawEntry)
  {
    && (e.cidr.Some? ==> ValidNet(e.cidr.value))
    && (e.addr.Some? ==> ValidIP(e.addr.value))
  }

  predicate AllWellFormed(o: seq<RawEntry>)
  {
    forall i :: 0 <= i < |o| ==> WellFormed(o[i])
  }

  /** An entry after classification. */
  datatype Entry = Cidr(net: IPNet) | Addr(ip: IP) | Invalid

  /** A CIDR if the text parses as one, else an address if it parses as one, else dropped. */
  function Classify(e: RawEntry): Entry
  {
    if e.cidr.Some? then Cidr(e.cidr.value)
    else if e.addr.Some? then Addr(e.addr.value)
    else Invalid
  }

  /** The map key of a net, `ipNet.String()`: its network number and effective prefix. */
  function NetKey(n: IPNet): IPNet
    requires ValidIP(n.ip)
  {
    Network(n).value
  }

  /** The map key of an address, `allowIP.String()`: its 16-byte form. */
  function AddrKey(ip: IP): IP
    requires ValidIP(ip)
  {
    To16(ip)
  }

  /** The `ipNets` map after the classification loop over `o`: a later entry with the same key overwrites. */
  function NetsOf(o: seq<RawEntry>): map<IPNet, IPNet>
    requires AllWellFormed(o)
  {
    if o == [] then map[]
    else
      var m := NetsOf(o[..|o| - 1]);
      match Classify(o[|o| - 1])
      case Cidr(n) => m[NetKey(n) := n]
      case _ => m
  }

  /** The `ips` map after the classification loop over `o`. */
  function IPsOf(o: seq<RawEntry>): map<IP, IP>
    requires AllWellFormed(o)
  {
    if o == [] then map[]
    else
      var m := IPsOf(o[..|o| - 1]);
      match Classify(o[|o| - 1])
      case Addr(a) => m[AddrKey(a) := a]
      case _ => m
  }

  /** One iteration of the classification loop on entry `o[i]`, as lines 82-91 branch. */
  lemma {:induction false} ClassifyStep(o: seq<RawEntry>, i: nat)
    requires AllWellFormed(o) && i < |o|
    ensures AllWellFormed(o[..i]) && AllWellFormed(o[..i + 1])
    ensures o[i].cidr.Some? ==> NetsOf(o[..i + 1]) == NetsOf(o[..i])[NetKey(o[i].cidr.value) := o[i].cidr.value]
    ensures o[i].cidr.None? ==> NetsOf(o[..i + 1]) == NetsOf(o[..i])
    ensures o[i].cidr.None? && o[i].addr.Some? ==> IPsOf(o[..i + 1]) == IPsOf(o[..i])[AddrKey(o[i].addr.value) := o[i].addr.value]
    ensures o[i].cidr.Some? || o[i].addr.None? ==> IPsOf(o[..i + 1]) == IPsOf(o[..i])
  {
    assert o[..i + 1][..i] == o[..i];
    assert o[..i + 1][i] == o[i];
  }

  /** `order` lists the keys of a map, each exactly once (a `range` over the map). */
  ghost predicate Enumerates<K(!new)>(order: seq<K>, keys: set<K>)
  {
    && (forall i, j :: 0 <= i < j < |order| ==> order[i] != order[j])
    && (forall k :: k in keys <==> k in order)
  }

  // ---------------------------------------------------------------------
  // Classification and de-duplication (ip/ip.go:80-92)

  /** Every value of `ipNets` is filed under its own key. */
  lemma {:induction false} NetsFiledUnderKey(o: seq<RawEntry>)
    requires AllWellFormed(o)
    ensures forall k :: k in NetsOf(o) ==> ValidIP(NetsOf(o)[k].ip) && NetKey(NetsOf(o)[k]) == k
  {
    if o != [] {
      NetsFiledUnderKey(o[..|o| - 1]);
    }
  }

  /** Every value of `ipNets` is a CIDR entry of `o`. */
  lemma {:induction false} NetsFromEntries(o: seq<RawEntry>)
    requires AllWellFormed(o)
    ensures forall k :: k in NetsOf(o) ==> exists i :: 0 <= i < |o| && Classify(o[i]) == Cidr(NetsOf(o)[k])
  {
    if o != [] {
      var p := o[..|o| - 1];
      NetsFromEntries(p);
      forall k | k in NetsOf(o)
        ensures exists i :: 0 <= i < |o| && Classify(o[i]) == Cidr(NetsOf(o)[k])
      {
        if k in NetsOf(p) && NetsOf(o)[k] == NetsOf(p)[k] {
          var i :| 0 <= i < |p| && Classify(p[i]) == Cidr(NetsOf(p)[k]);
          assert o[i] == p[i];
        } else {
          assert Classify(o[|o| - 1]) == Cidr(NetsOf(o)[k]);
        }
      }
    }
  }

  /** Every CIDR entry of `o` has its key in `ipNets`. */
  lemma {:induction false} NetsHaveEveryCidr(o: seq<RawEntry>)
    requires AllWellFormed(o)
    ensures forall i :: 0 <= i < |o| && Classify(o[i]).Cidr? ==> NetKey(Classify(o[i]).net) in NetsOf(o)
  {
    if o != [] {
      var p := o[..|o| - 1];
      NetsHaveEveryCidr(p);
      forall i | 0 <= i < |o| - 1
        ensures o[i] == p[i]
      {
      }
    }
  }

  /**
   * Every value of `ipNets` is a CIDR entry of `o` filed under its own key,
   * and every CIDR entry's key is present: nets are kept once per
   * canonical value.
   */
  lemma NetsClassifiedOnce(o: seq<RawEntry>)
    requires AllWellFormed(o)
    ensures forall k :: k in NetsOf(o) ==>
      ValidNet(NetsOf(o)[k]) && NetKey(NetsOf(o)[k]) == k &&
      exists i :: 0 <= i < |o| && Classify(o[i]) == Cidr(NetsOf(o)[k])
    ensures forall i :: 0 <= i < |o| && Classify(o[i]).Cidr? ==> NetKey(Classify(o[i]).net) in NetsOf(o)
  {
    NetsFiledUnderKey(o);
    NetsFromEntries(o);
    NetsHaveEveryCidr(o);
    forall k | k in NetsOf(o)
      ensures ValidNet(NetsOf(o)[k])
    {
      var i :| 0 <= i < |o| && Classify(o[i]) == Cidr(NetsOf(o)[k]);
      assert WellFormed(o[i]);
    }
  }

  /**
   * Every value of `ips` is an address entry of `o` (one that is not a
   * CIDR) filed under its own key, and every such entry's key is present;
   * entries that are neither are in no map.
   */
  lemma {:induction false} AddressesClassifiedOnce(o: seq<RawEntry>)
    requires AllWellFormed(o)
    ensures forall k :: k in IPsOf(o) ==>
      ValidIP(IPsOf(o)[k]) && AddrKey(IPsOf(o)[k]) == k &&
      exists i :: 0 <= i < |o| && Classify(o[i]) == Addr(IPsOf(o)[k])
    ensures forall i :: 0 <= i < |o| && Classify(o[i]).Addr? ==> AddrKey(Classify(o[i]).ip) in IPsOf(o)
  {
    if o != [] {
      var p := o[..|o| - 1];
      AddressesClassifiedOnce(p);
      forall k | k in IPsOf(o)
        ensures exists i :: 0 <= i < |o| && Classify(o[i]) == Addr(IPsOf(o)[k])
      {
        if k in IPsOf(p) && IPsOf(o)[k] == IPsOf(p)[k] {
          var i :| 0 <= i < |p| && Classify(p[i]) == Addr(IPsOf(p)[k]);
          assert o[i] == p[i];
        } else {
          assert Classify(o[|o| - 1]) == Addr(IPsOf(o)[k]);
        }
      }
      forall i | 0 <= i < |o| - 1
        ensures o[i] == p[i]
      {
      }
    }
  }

  /**
   * Classifying `p` and then `q` gives the nets of `p` overwritten by
   * those of `q`.
   */
  lemma {:induction false} NetsOfConcat(p: seq<RawEntry>, q: seq<RawEntry>)
    requires AllWellFormed(p) && AllWellFormed(q)
    ensures AllWellFormed(p + q)
    ensures NetsOf(p + q) == NetsOf(p) + NetsOf(q)
  {
    if q != [] {
      var q' := q[..|q| - 1];
      var e := q[|q| - 1];
      assert (p + q)[..|p + q| - 1] == p + q';
      assert (p + q)[|p + q| - 1] == e;
      NetsOfConcat(p, q');
      if Classify(e).Cidr? {
        var n := Classify(e).net;
        var k := NetKey(n);
        assert NetsOf(p + q) == (NetsOf(p) + NetsOf(q'))[k := n];
        assert NetsOf(q) == NetsOf(q')[k := n];
        assert (NetsOf(p) + NetsOf(q'))[k := n] == NetsOf(p) + NetsOf(q')[k := n];
      }
    } else {
      assert p + q == p;
    }
  }

  /**
   * Classifying `p` and then `q` gives the addresses of `p` overwritten by
   * those of `q`.
   */
  lemma {:induction false} IPsOfConcat(p: seq<RawEntry>, q: seq<RawEntry>)
    requires AllWellFormed(p) && AllWellFormed(q)
    ensures AllWellFormed(p + q)
    ensures IPsOf(p + q) == IPsOf(p) + IPsOf(q)
  {
    if q != [] {
      var q' := q[..|q| - 1];
      var e := q[|q| - 1];
      assert (p + q)[..|p + q| - 1] == p + q';
      assert (p + q)[|p + q| - 1] == e;
      IPsOfConcat(p, q');
      if Classify(e).Addr? {
        var a := Classify(e).ip;
        var k := AddrKey(a);
        assert IPsOf(p + q) == (IPsOf(p) + IPsOf(q'))[k := a];
        assert IPsOf(q) == IPsOf(q')[k := a];
        assert (IPsOf(p) + IPsOf(q'))[k := a] == IPsOf(p) + IPsOf(q')[k := a];
      }
    } else {
      assert p + q == p;
    }
  }

  /** Listing the whole batch twice classifies to the same maps: duplicates collapse. */
  lemma DuplicatedBatch(o: seq<RawEntry>)
    requires AllWellFormed(o)
    ensures AllWellFormed(o + o)
    ensures NetsOf(o + o) == NetsOf(o) && IPsOf(o + o) == IPsOf(o)
  {
    NetsOfConcat(o, o);
    IPsOfConcat(o, o);
  }

  // ---------------------------------------------------------------------
  // Range merge (ip/ip.go:93-106)

  /** The test of line 96: either net contains the other's base. */
  predicate Conflict(v1: IPNet, v2: IPNet)
  {
    Contains(v1, v2.ip) || Contains(v2, v1.ip)
  }

  /**
   * Whether candidate `v1` takes the slot of `v2`: its prefix, as
   * `IPNet.Contains` uses it, is strictly shorter.
   */
  predicate Broader(v1: IPNet, v2: IPNet)
  {
    Prefix(v1) < Prefix(v2)
  }

  /** The test of line 99 as written: `Mask.Size()` of the two masks. */
  predicate BroaderAsWritten(v1: IPNet, v2: IPNet)
  {
    v1.ones < v2.ones
  }

  /** The index the inner loop stops at: the first slot from `from` on that conflicts with `v`. */
  function FirstConflict(acc: seq<IPNet>, v: IPNet, from: nat): (r: Option<nat>)
    requires from <= |acc|
    ensures r.Some? ==> from <= r.value < |acc| && Conflict(v, acc[r.value])
    ensures r.Some? ==> forall k :: from <= k < r.value ==> !Conflict(v, acc[k])
    ensures r.None? ==> forall k :: from <= k < |acc| ==> !Conflict(v, acc[k])
    decreases |acc| - from
  {
    if from == |acc| then None
    else if Conflict(v, acc[from]) then Some(from)
    else FirstConflict(acc, v, from + 1)
  }

  /**
   * One iteration of the outer loop for candidate `v1`: on the first
   * conflict, the candidate takes that slot if it is broader and is dropped
   * otherwise; with no conflict it is appended.
   */
  function Insert(acc: seq<IPNet>, v1: IPNet): (r: seq<IPNet>)
    ensures |acc| <= |r| <= |acc| + 1
    ensures forall k :: 0 <= k < |r| ==> r[k] == v1 || (k < |acc| && r[k] == acc[k])
  {
    match FirstConflict(acc, v1, 0)
    case Some(j) => if Broader(v1, acc[j]) then acc[j := v1] else acc
    case None => acc + [v1]
  }

  /** `Insert` with the comparison of line 99 as written. */
  function InsertAsWritten(acc: seq<IPNet>, v1: IPNet): (r: seq<IPNet>)
    ensures |acc| <= |r| <= |acc| + 1
    ensures forall k :: 0 <= k < |r| ==> r[k] == v1 || (k < |acc| && r[k] == acc[k])
  {
    match FirstConflict(acc, v1, 0)
    case Some(j) => if BroaderAsWritten(v1, acc[j]) then acc[j := v1] else acc
    case None => acc + [v1]
  }

  /** `l.IPNets` after the outer loop has visited the keys in `order`. */
  function Merged(nets: map<IPNet, IPNet>, order: seq<IPNet>): seq<IPNet>
    requires forall i :: 0 <= i < |order| ==> order[i] in nets
  {
    if order == [] then []
    else Insert(Merged(nets, order[..|order| - 1]), nets[order[|order| - 1]])
  }

  /** One iteration of the outer merge loop: the next key's net is inserted. */
  lemma MergedStep(nets: map<IPNet, IPNet>, order: seq<IPNet>, n: nat)
    requires n < |order| && forall i :: 0 <= i < |order| ==> order[i] in nets
    ensures Merged(nets, order[..n + 1]) == Insert(Merged(nets, order[..n]), nets[order[n]])
  {
    assert order[..n + 1][..n] == order[..n];
  }

  /** The inner merge loop stopping at slot `j`: the candidate takes it if broader, else is dropped. */
  lemma InsertAtConflict(acc: seq<IPNet>, v1: IPNet, j: nat)
    requires j < |acc| && Conflict(v1, acc[j])
    requires forall k :: 0 <= k < j ==> !Conflict(v1, acc[k])
    ensures Insert(acc, v1) == if Broader(v1, acc[j]) then acc[j := v1] else acc
  {
    FirstConflictAt(acc, v1, 0, j);
  }

  /** The inner merge loop running out: the candidate is appended. */
  lemma InsertWithoutConflict(acc: seq<IPNet>, v1: IPNet)
    requires forall k :: 0 <= k < |acc| ==> !Conflict(v1, acc[k])
    ensures Insert(acc, v1) == acc + [v1]
  {
    InsertChangesFirstConflictOnly(acc, v1);
  }

  /** Some net of `nets` contains `x`. */
  predicate InSomeNet(nets: seq<IPNet>, x: IP)
  {
    exists j :: 0 <= j < |nets| && Contains(nets[j], x)
  }

  predicate AllValid(nets: seq<IPNet>)
  {
    forall j :: 0 <= j < |nets| ==> ValidIP(nets[j].ip)
  }

  /** The inner loop finds slot `j` when `j` conflicts and no earlier slot does. */
  lemma {:induction false} FirstConflictAt(acc: seq<IPNet>, v: IPNet, from: nat, j: nat)
    requires from <= j < |acc| && Conflict(v, acc[j])
    requires forall k :: from <= k < j ==> !Conflict(v, acc[k])
    ensures FirstConflict(acc, v, from) == Some(j)
    decreases j - from
  {
    if from < j {
      FirstConflictAt(acc, v, from + 1, j);
    }
  }

  /**
   * Only the first conflicting slot can change: with no conflict the
   * candidate is appended and nothing else moves; otherwise the length is
   * unchanged, every other slot is untouched, and that slot holds whichever
   * of the two has the strictly smaller prefix (the old net on a tie).
   */
  lemma InsertChangesFirstConflictOnly(acc: seq<IPNet>, v1: IPNet)
    ensures (forall k :: 0 <= k < |acc| ==> !Conflict(v1, acc[k])) ==> Insert(acc, v1) == acc + [v1]
    ensures forall j :: 0 <= j < |acc| && Conflict(v1, acc[j]) && (forall k :: 0 <= k < j ==> !Conflict(v1, acc[k])) ==>
      && |Insert(acc, v1)| == |acc|
      && (forall k :: 0 <= k < |acc| && k != j ==> Insert(acc, v1)[k] == acc[k])
      && Insert(acc, v1)[j] == (if Prefix(v1) < Prefix(acc[j]) then v1 else acc[j])
  {
    forall j | 0 <= j < |acc| && Conflict(v1, acc[j]) && (forall k :: 0 <= k < j ==> !Conflict(v1, acc[k]))
      ensures FirstConflict(acc, v1, 0) == Some(j)
    {
      FirstConflictAt(acc, v1, 0, j);
    }
  }

  /** The merge step keeps every stored net well formed. */
  lemma InsertKeepsValid(acc: seq<IPNet>, v1: IPNet)
    requires AllValid(acc) && ValidIP(v1.ip)
    ensures AllValid(Insert(acc, v1))
  {
  }

  /**
   * The merge step loses no address and gains none: the result covers `x`
   * exactly when `acc` or the candidate does.
   */
  lemma InsertCovers(acc: seq<IPNet>, v1: IPNet, x: IP)
    requires AllValid(acc) && ValidIP(v1.ip)
    ensures InSomeNet(Insert(acc, v1), x) <==> InSomeNet(acc, x) || Contains(v1, x)
  {
    var r := Insert(acc, v1);
    match FirstConflict(acc, v1, 0)
    case None =>
      if j :| 0 <= j < |acc| && Contains(acc[j], x) {
        assert r[j] == acc[j];
      }
      assert r[|acc|] == v1;
    case Some(j) =>
      var v2 := acc[j];
      if Broader(v1, v2) {
        Nested(v1, v2);
        if k :| 0 <= k < |acc| && Contains(acc[k], x) {
          if k == j {
            assert Contains(r[j], x);
          } else {
            assert r[k] == acc[k];
          }
        }
        assert r[j] == v1;
      } else {
        Nested(v2, v1);
        assert r == acc;
      }
  }

  /** Only nets of the map are ever stored. */
  lemma {:induction false} MergedFromInput(nets: map<IPNet, IPNet>, order: seq<IPNet>)
    requires forall i :: 0 <= i < |order| ==> order[i] in nets
    ensures forall j :: 0 <= j < |Merged(nets, order)| ==>
      exists i :: 0 <= i < |order| && Merged(nets, order)[j] == nets[order[i]]
    ensures |Merged(nets, order)| <= |order|
  {
    if order != [] {
      var p := order[..|order| - 1];
      var last := |order| - 1;
      MergedFromInput(nets, p);
      var acc := Merged(nets, p);
      var v1 := nets[order[last]];
      forall j | 0 <= j < |Merged(nets, order)|
        ensures exists i :: 0 <= i < |order| && Merged(nets, order)[j] == nets[order[i]]
      {
        if Merged(nets, order)[j] == v1 {
          assert Merged(nets, order)[j] == nets[order[last]];
        } else {
          var i :| 0 <= i < |p| && acc[j] == nets[p[i]];
          assert p[i] == order[i];
        }
      }
      assert |Merged(nets, order)| <= |acc| + 1;
    } else {
      assert Merged(nets, order) == [];
    }
  }

  /** Some visited input net contains `x`. */
  predicate InputCovers(nets: map<IPNet, IPNet>, order: seq<IPNet>, x: IP)
    requires forall i :: 0 <= i < |order| ==> order[i] in nets
  {
    exists i :: 0 <= i < |order| && Contains(nets[order[i]], x)
  }

  /** Visiting one more input net adds exactly what that net covers. */
  lemma InputCoversSnoc(nets: map<IPNet, IPNet>, order: seq<IPNet>, x: IP)
    requires order != [] && forall i :: 0 <= i < |order| ==> order[i] in nets
    ensures InputCovers(nets, order, x) <==> InputCovers(nets, order[..|order| - 1], x) || Contains(nets[order[|order| - 1]], x)
  {
    var p := order[..|order| - 1];
    if InputCovers(nets, order, x) && !Contains(nets[order[|order| - 1]], x) {
      var i :| 0 <= i < |order| && Contains(nets[order[i]], x);
      assert p[i] == order[i];
    }
    if InputCovers(nets, p, x) {
      var i :| 0 <= i < |p| && Contains(nets[p[i]], x);
      assert p[i] == order[i];
    }
  }

  /** The merged nets cover `x` exactly when a visited input net does. */
  lemma {:induction false} MergedCovers(nets: map<IPNet, IPNet>, order: seq<IPNet>, x: IP)
    requires forall i :: 0 <= i < |order| ==> order[i] in nets && ValidIP(nets[order[i]].ip)
    ensures AllValid(Merged(nets, order))
    ensures InSomeNet(Merged(nets, order), x) <==> InputCovers(nets, order, x)
  {
    if order != [] {
      var p := order[..|order| - 1];
      var last := |order| - 1;
      MergedCovers(nets, p, x);
      var acc, v1 := Merged(nets, p), nets[order[last]];
      assert Merged(nets, order) == Insert(acc, v1);
      InsertKeepsValid(acc, v1);
      InsertCovers(acc, v1, x);
      InputCoversSnoc(nets, order, x);
    } else {
      assert Merged(nets, order) == [];
    }
  }

  /**
   * The merged nets cover exactly the addresses the visited input nets
   * cover: merging never widens or narrows the allowlist.
   */
  lemma MergedKeepsCoverage(nets: map<IPNet, IPNet>, order: seq<IPNet>)
    requires forall i :: 0 <= i < |order| ==> order[i] in nets && ValidIP(nets[order[i]].ip)
    ensures AllValid(Merged(nets, order))
    ensures forall x :: InSomeNet(Merged(nets, order), x) <==> InputCovers(nets, order, x)
  {
    forall x
      ensures InSomeNet(Merged(nets, order), x) <==> InputCovers(nets, order, x)
    {
      MergedCovers(nets, order, x);
    }
    MergedCovers(nets, order, []);
  }

  /** A list of distinct elements is as long as the set of its elements. */
  lemma {:induction false} EnumerationLength<K(!new)>(order: seq<K>, keys: set<K>)
    requires Enumerates(order, keys)
    ensures |order| == |keys|
  {
    if order != [] {
      var last := order[|order| - 1];
      var p := order[..|order| - 1];
      assert Enumerates(p, keys - {last}) by {
        forall k
          ensures k in keys - {last} <==> k in p
        {
          if k in p {
            var i :| 0 <= i < |p| && p[i] == k;
            assert order[i] == k;
          }
          if k in keys - {last} {
            var i :| 0 <= i < |order| && order[i] == k;
            assert i != |order| - 1;
            assert p[i] == k;
          }
        }
      }
      EnumerationLength(p, keys - {last});
    } else {
      assert forall k :: k !in keys;
      assert keys == {};
    }
  }

  /** The merge keeps at most as many nets as there are distinct input nets. */
  lemma MergedNoLonger(nets: map<IPNet, IPNet>, order: seq<IPNet>)
    requires Enumerates(order, nets.Keys)
    ensures |Merged(nets, order)| <= |nets|
  {
    MergedFromInput(nets, order);
    EnumerationLength(order, nets.Keys);
  }

  // ---------------------------------------------------------------------
  // The merge loop as written: line 99 compares `Mask.Size()`

  /** `l.IPNets` after the outer loop of lines 93-106, as written, has visited the keys in `order`. */
  function MergedAsWritten(nets: map<IPNet, IPNet>, order: seq<IPNet>): seq<IPNet>
    requires forall i :: 0 <= i < |order| ==> order[i] in nets
  {
    if order == [] then []
    else InsertAsWritten(MergedAsWritten(nets, order[..|order| - 1]), nets[order[|order| - 1]])
  }

  /**
   * Only the first conflicting slot can change, as in
   * `InsertChangesFirstConflictOnly`, but the slot goes to whichever net
   * reports the smaller `Mask.Size()`.
   */
  lemma InsertAsWrittenChangesFirstConflictOnly(acc: seq<IPNet>, v1: IPNet)
    ensures (forall k :: 0 <= k < |acc| ==> !Conflict(v1, acc[k])) ==> InsertAsWritten(acc, v1) == acc + [v1]
    ensures forall j :: 0 <= j < |acc| && Conflict(v1, acc[j]) && (forall k :: 0 <= k < j ==> !Conflict(v1, acc[k])) ==>
      && |InsertAsWritten(acc, v1)| == |acc|
      && (forall k :: 0 <= k < |acc| && k != j ==> InsertAsWritten(acc, v1)[k] == acc[k])
      && InsertAsWritten(acc, v1)[j] == (if BroaderAsWritten(v1, acc[j]) then v1 else acc[j])
  {
    forall j | 0 <= j < |acc| && Conflict(v1, acc[j]) && (forall k :: 0 <= k < j ==> !Conflict(v1, acc[k]))
      ensures FirstConflict(acc, v1, 0) == Some(j)
    {
      FirstConflictAt(acc, v1, 0, j);
    }
  }

  /**
   * The outer loop's step, as written, when the inner loop stops at slot
   * `j`: the next key's net takes the slot when its mask reports fewer
   * ones, and is dropped otherwise.
   */
  lemma MergedAsWrittenAtConflict(nets: map<IPNet, IPNet>, order: seq<IPNet>, n: nat, acc: seq<IPNet>, j: nat)
    requires n < |order| && forall i :: 0 <= i < |order| ==> order[i] in nets
    requires acc == MergedAsWritten(nets, order[..n]) && j < |acc| && Conflict(nets[order[n]], acc[j])
    requires forall k :: 0 <= k < j ==> !Conflict(nets[order[n]], acc[k])
    ensures MergedAsWritten(nets, order[..n + 1]) == if BroaderAsWritten(nets[order[n]], acc[j]) then acc[j := nets[order[n]]] else acc
  {
    assert order[..n + 1][..n] == order[..n];
    FirstConflictAt(acc, nets[order[n]], 0, j);
  }

  /** The outer loop's step, as written, when the inner loop runs out: the next key's net is appended. */
  lemma MergedAsWrittenWithoutConflict(nets: map<IPNet, IPNet>, order: seq<IPNet>, n: nat, acc: seq<IPNet>)
    requires n < |order| && forall i :: 0 <= i < |order| ==> order[i] in nets
    requires acc == MergedAsWritten(nets, order[..n]) && forall k :: 0 <= k < |acc| ==> !Conflict(nets[order[n]], acc[k])
    ensures MergedAsWritten(nets, order[..n + 1]) == acc + [nets[order[n]]]
  {
    assert order[..n + 1][..n] == order[..n];
    InsertAsWrittenChangesFirstConflictOnly(acc, nets[order[n]]);
  }

  /** As written too, only nets of the map are ever stored, and no more of them than keys visited. */
  lemma {:induction false} MergedAsWrittenFromInput(nets: map<IPNet, IPNet>, order: seq<IPNet>)
    requires forall i :: 0 <= i < |order| ==> order[i] in nets
    ensures forall j :: 0 <= j < |MergedAsWritten(nets, order)| ==>
      exists i :: 0 <= i < |order| && MergedAsWritten(nets, order)[j] == nets[order[i]]
    ensures |MergedAsWritten(nets, order)| <= |order|
  {
    if order != [] {
      var p := order[..|order| - 1];
      var last := |order| - 1;
      MergedAsWrittenFromInput(nets, p);
      var acc := MergedAsWritten(nets, p);
      var v1 := nets[order[last]];
      forall j | 0 <= j < |MergedAsWritten(nets, order)|
        ensures exists i :: 0 <= i < |order| && MergedAsWritten(nets, order)[j] == nets[order[i]]
      {
        if MergedAsWritten(nets, order)[j] == v1 {
          assert MergedAsWritten(nets, order)[j] == nets[order[last]];
        } else {
          var i :| 0 <= i < |p| && acc[j] == nets[p[i]];
          assert p[i] == order[i];
        }
      }
    } else {
      assert MergedAsWritten(nets, order) == [];
    }
  }

  /** The merge as written keeps at most as many nets as there are distinct input nets. */
  lemma MergedAsWrittenNoLonger(nets: map<IPNet, IPNet>, order: seq<IPNet>)
    requires Enumerates(order, nets.Keys)
    ensures |MergedAsWritten(nets, order)| <= |nets|
  {
    MergedAsWrittenFromInput(nets, order);
    EnumerationLength(order, nets.Keys);
  }

  /** The merge as written never widens the allowlist: a stored net covering `x` is a visited input net. */
  lemma MergedAsWrittenSound(nets: map<IPNet, IPNet>, order: seq<IPNet>, x: IP)
    requires forall i :: 0 <= i < |order| ==> order[i] in nets
    ensures InSomeNet(MergedAsWritten(nets, order), x) ==> InputCovers(nets, order, x)
  {
    MergedAsWrittenFromInput(nets, order);
    if InSomeNet(MergedAsWritten(nets, order), x) {
      var j :| 0 <= j < |MergedAsWritten(nets, order)| && Contains(MergedAsWritten(nets, order)[j], x);
      var i :| 0 <= i < |order| && MergedAsWritten(nets, order)[j] == nets[order[i]];
    }
  }

  /**
   * When no input net is IPv4-mapped, the merge as written and the
   * corrected merge store the same nets in the same slots, in every order.
   */
  lemma {:induction false} MergedAsWrittenAgrees(nets: map<IPNet, IPNet>, order: seq<IPNet>)
    requires forall i :: 0 <= i < |order| ==> order[i] in nets && Unmapped(nets[order[i]])
    ensures MergedAsWritten(nets, order) == Merged(nets, order)
  {
    if order != [] {
      var p := order[..|order| - 1];
      MergedAsWrittenAgrees(nets, p);
      MergedFromInput(nets, p);
      var acc := Merged(nets, p);
      forall j | 0 <= j < |acc|
        ensures Unmapped(acc[j])
      {
        var i :| 0 <= i < |p| && acc[j] == nets[p[i]];
        assert p[i] == order[i];
      }
      AsWrittenAgreesWithoutMappedNets(acc, nets[order[|order| - 1]]);
    }
  }

  /**
   * When no input net is IPv4-mapped, the merge as written covers exactly
   * what the visited input nets cover.
   */
  lemma MergedAsWrittenKeepsCoverage(nets: map<IPNet, IPNet>, order: seq<IPNet>)
    requires forall i :: 0 <= i < |order| ==> order[i] in nets && Unmapped(nets[order[i]])
    ensures forall x :: InSomeNet(MergedAsWritten(nets, order), x) <==> InputCovers(nets, order, x)
  {
    MergedAsWrittenAgrees(nets, order);
    MergedKeepsCoverage(nets, order);
  }

  // ---------------------------------------------------------------------
  // Address filtering (ip/ip.go:107-112)

  /** What `ContainsIP` answers: a stored address is `Equal` to `x`, or a stored net contains it. */
  predicate Covered(ips: seq<IP>, nets: seq<IPNet>, x: IP)
  {
    (exists i :: 0 <= i < |ips| && Equal(ips[i], x)) || InSomeNet(nets, x)
  }

  /** `l.IPs` after the filter loop has visited the keys in `order`, against the merged `nets`. */
  function Kept(nets: seq<IPNet>, ips: map<IP, IP>, order: seq<IP>): seq<IP>
    requires forall i :: 0 <= i < |order| ==> order[i] in ips
  {
    if order == [] then []
    else
      var acc := Kept(nets, ips, order[..|order| - 1]);
      var v1 := ips[order[|order| - 1]];
      if Covered(acc, nets, v1) then acc else acc + [v1]
  }

  /** Some visited input address is `Equal` to `x`. */
  predicate InputHas(ips: map<IP, IP>, order: seq<IP>, x: IP)
    requires forall i :: 0 <= i < |order| ==> order[i] in ips
  {
    exists i :: 0 <= i < |order| && Equal(ips[order[i]], x)
  }

  /** Visiting one more input address adds exactly the addresses `Equal` to it. */
  lemma InputHasSnoc(ips: map<IP, IP>, order: seq<IP>, x: IP)
    requires order != [] && forall i :: 0 <= i < |order| ==> order[i] in ips
    ensures InputHas(ips, order, x) <==> InputHas(ips, order[..|order| - 1], x) || Equal(ips[order[|order| - 1]], x)
  {
    var p := order[..|order| - 1];
    if InputHas(ips, order, x) && !Equal(ips[order[|order| - 1]], x) {
      var i :| 0 <= i < |order| && Equal(ips[order[i]], x);
      assert p[i] == order[i];
    }
    if InputHas(ips, p, x) {
      var i :| 0 <= i < |p| && Equal(ips[p[i]], x);
      assert p[i] == order[i];
    }
  }

  /** No kept address lies in a stored net: such an address is always dropped. */
  lemma {:induction false} KeptOutsideNets(nets: seq<IPNet>, ips: map<IP, IP>, order: seq<IP>)
    requires forall i :: 0 <= i < |order| ==> order[i] in ips
    ensures forall i :: 0 <= i < |Kept(nets, ips, order)| ==> !InSomeNet(nets, Kept(nets, ips, order)[i])
  {
    if order != [] {
      KeptOutsideNets(nets, ips, order[..|order| - 1]);
    }
  }

  /** The kept addresses with the nets cover `x` exactly when the nets or a visited address do. */
  lemma {:induction false} KeptCovers(nets: seq<IPNet>, ips: map<IP, IP>, order: seq<IP>, x: IP)
    requires forall i :: 0 <= i < |order| ==> order[i] in ips
    ensures Covered(Kept(nets, ips, order), nets, x) <==> InSomeNet(nets, x) || InputHas(ips, order, x)
  {
    if order != [] {
      var p := order[..|order| - 1];
      var last := |order| - 1;
      KeptCovers(nets, ips, p, x);
      var acc := Kept(nets, ips, p);
      var v1 := ips[order[last]];
      InputHasSnoc(ips, order, x);
      if Covered(acc, nets, v1) {
        if Equal(v1, x) {
          CoveredAbsorbsEqual(acc, nets, v1, x);
        }
      } else {
        CoveredSnoc(acc, nets, v1, x);
      }
    }
  }

  /** An address `Equal` to a covered one is covered. */
  lemma CoveredAbsorbsEqual(ips: seq<IP>, nets: seq<IPNet>, v: IP, x: IP)
    requires Covered(ips, nets, v) && Equal(v, x)
    ensures Covered(ips, nets, x)
  {
    if i :| 0 <= i < |ips| && Equal(ips[i], v) {
      EqualSymmetricTransitive(ips[i], v, x);
    } else {
      var j :| 0 <= j < |nets| && Contains(nets[j], v);
      ContainsRespectsEqual(nets[j], v, x);
    }
  }

  /** Storing one more address adds exactly the addresses `Equal` to it. */
  lemma CoveredSnoc(ips: seq<IP>, nets: seq<IPNet>, v: IP, x: IP)
    ensures Covered(ips + [v], nets, x) <==> Covered(ips, nets, x) || Equal(v, x)
  {
    var r := ips + [v];
    if i :| 0 <= i < |r| && Equal(r[i], x) {
      if i < |ips| {
        assert r[i] == ips[i];
      }
    }
    if i :| 0 <= i < |ips| && Equal(ips[i], x) {
      assert r[i] == ips[i];
    }
    assert r[|ips|] == v;
  }

  /**
   * No kept address lies in a stored net, and the kept addresses with the
   * nets cover exactly what the nets and the visited addresses cover.
   */
  lemma KeptSpec(nets: seq<IPNet>, ips: map<IP, IP>, order: seq<IP>)
    requires forall i :: 0 <= i < |order| ==> order[i] in ips
    ensures forall i :: 0 <= i < |Kept(nets, ips, order)| ==> !InSomeNet(nets, Kept(nets, ips, order)[i])
    ensures forall x :: Covered(Kept(nets, ips, order), nets, x) <==> InSomeNet(nets, x) || InputHas(ips, order, x)
  {
    KeptOutsideNets(nets, ips, order);
    forall x
      ensures Covered(Kept(nets, ips, order), nets, x) <==> InSomeNet(nets, x) || InputHas(ips, order, x)
    {
      KeptCovers(nets, ips, order, x);
    }
  }

  // ---------------------------------------------------------------------
  // End to end (ip/ip.go:78-115)

  /** Some entry of `o` classified as a CIDR contains `x`. */
  ghost predicate AllowedByNet(o: seq<RawEntry>, x: IP)
  {
    exists i :: 0 <= i < |o| && Classify(o[i]).Cidr? && Contains(Classify(o[i]).net, x)
  }

  /** Some entry of `o` classified as an address is `Equal` to `x`. */
  ghost predicate AllowedByAddr(o: seq<RawEntry>, x: IP)
  {
    exists i :: 0 <= i < |o| && Classify(o[i]).Addr? && Equal(Classify(o[i]).ip, x)
  }

  /** What the configuration `o` allows: an address it lists or one inside a net it lists. */
  ghost predicate Allowed(o: seq<RawEntry>, x: IP)
  {
    AllowedByNet(o, x) || AllowedByAddr(o, x)
  }

  /** No two addresses of `ips` are `Equal`: `Equal` addresses share their 16-byte key. */
  lemma AddressesDistinct(o: seq<RawEntry>)
    requires AllWellFormed(o)
    ensures forall a, b :: a in IPsOf(o).Values && b in IPsOf(o).Values && Equal(a, b) ==> a == b
  {
    AddressesClassifiedOnce(o);
    forall a, b | a in IPsOf(o).Values && b in IPsOf(o).Values && Equal(a, b)
      ensures a == b
    {
      var ka :| ka in IPsOf(o) && IPsOf(o)[ka] == a;
      var kb :| kb in IPsOf(o) && IPsOf(o)[kb] == b;
      EqualIffSameTo16(a, b);
    }
  }

  /**
   * Keeping one net per key loses nothing: the nets of `ipNets`, visited
   * in any order, cover exactly what the CIDR entries of `o` cover.
   */
  lemma NetsOfCover(o: seq<RawEntry>, order: seq<IPNet>, x: IP)
    requires AllWellFormed(o) && Enumerates(order, NetsOf(o).Keys)
    ensures InputCovers(NetsOf(o), order, x) <==> AllowedByNet(o, x)
  {
    var nets := NetsOf(o);
    NetsClassifiedOnce(o);
    if InputCovers(nets, order, x) {
      var i :| 0 <= i < |order| && Contains(nets[order[i]], x);
      var j :| 0 <= j < |o| && Classify(o[j]) == Cidr(nets[order[i]]);
    }
    if AllowedByNet(o, x) {
      var j :| 0 <= j < |o| && Classify(o[j]).Cidr? && Contains(Classify(o[j]).net, x);
      var n := Classify(o[j]).net;
      var k := NetKey(n);
      var i :| 0 <= i < |order| && order[i] == k;
      NetworkIsCanonical(n, x);
      NetworkIsCanonical(nets[k], x);
    }
  }

  /**
   * Keeping one address per 16-byte form loses nothing: the addresses of
   * `ips`, visited in any order, are `Equal` to exactly what the address
   * entries of `o` are `Equal` to.
   */
  lemma IPsOfHave(o: seq<RawEntry>, order: seq<IP>, x: IP)
    requires AllWellFormed(o) && Enumerates(order, IPsOf(o).Keys)
    ensures InputHas(IPsOf(o), order, x) <==> AllowedByAddr(o, x)
  {
    var ips := IPsOf(o);
    AddressesClassifiedOnce(o);
    if InputHas(ips, order, x) {
      var i :| 0 <= i < |order| && Equal(ips[order[i]], x);
      var j :| 0 <= j < |o| && Classify(o[j]) == Addr(ips[order[i]]);
    }
    if AllowedByAddr(o, x) {
      var j :| 0 <= j < |o| && Classify(o[j]).Addr? && Equal(Classify(o[j]).ip, x);
      var a := Classify(o[j]).ip;
      var k := AddrKey(a);
      var i :| 0 <= i < |order| && order[i] == k;
      EqualByTo16(a, ips[k], x);
    }
  }

  /** Whether some net contains `x` does not depend on the order of the nets. */
  lemma InSomeNetPermutation(nets: seq<IPNet>, nets': seq<IPNet>, x: IP)
    requires multiset(nets) == multiset(nets')
    ensures InSomeNet(nets, x) == InSomeNet(nets', x)
  {
    if j :| 0 <= j < |nets| && Contains(nets[j], x) {
      assert nets[j] in multiset(nets');
    }
    if j :| 0 <= j < |nets'| && Contains(nets'[j], x) {
      assert nets'[j] in multiset(nets);
    }
  }

  /** `ContainsIP`'s answer depends on which addresses and nets are stored, not on their order. */
  lemma CoveredPermutation(ips: seq<IP>, ips': seq<IP>, nets: seq<IPNet>, nets': seq<IPNet>, x: IP)
    requires multiset(ips) == multiset(ips') && multiset(nets) == multiset(nets')
    ensures Covered(ips, nets, x) == Covered(ips', nets', x)
  {
    InSomeNetPermutation(nets, nets', x);
    if i :| 0 <= i < |ips| && Equal(ips[i], x) {
      assert ips[i] in multiset(ips');
    }
    if i :| 0 <= i < |ips'| && Equal(ips'[i], x) {
      assert ips'[i] in multiset(ips);
    }
  }

  /** The nets the well-formed entries of `o` put in `ipNets` all have 4- or 16-byte bases. */
  lemma NetsOfValid(o: seq<RawEntry>, order: seq<IPNet>)
    requires AllWellFormed(o) && Enumerates(order, NetsOf(o).Keys)
    ensures forall i :: 0 <= i < |order| ==> order[i] in NetsOf(o) && ValidIP(NetsOf(o)[order[i]].ip)
  {
    NetsClassifiedOnce(o);
  }

  /** The configuration lists no IPv4-mapped IPv6 CIDR such as `::ffff:10.0.0.0/104`. */
  predicate NoMappedNets(o: seq<RawEntry>)
  {
    forall i :: 0 <= i < |o| && Classify(o[i]).Cidr? ==> !IsV4Mapped(Classify(o[i]).net.ip)
  }

  /** Without IPv4-mapped CIDR entries, no net of `ipNets` is IPv4-mapped. */
  lemma NetsOfUnmapped(o: seq<RawEntry>, order: seq<IPNet>)
    requires AllWellFormed(o) && NoMappedNets(o) && Enumerates(order, NetsOf(o).Keys)
    ensures forall i :: 0 <= i < |order| ==> order[i] in NetsOf(o) && Unmapped(NetsOf(o)[order[i]])
  {
    NetsClassifiedOnce(o);
    forall i | 0 <= i < |order|
      ensures order[i] in NetsOf(o) && Unmapped(NetsOf(o)[order[i]])
    {
      var j :| 0 <= j < |o| && Classify(o[j]) == Cidr(NetsOf(o)[order[i]]);
    }
  }

  /**
   * The whole of `NewList` before the sort, as written, for any map
   * iteration orders: no kept address lies in a kept net; the list allows
   * nothing the configuration does not and every listed address; and when
   * no CIDR entry is IPv4-mapped it allows exactly what the configuration
   * allows.
   */
  lemma NewListCoverage(o: seq<RawEntry>, netOrder: seq<IPNet>, ipOrder: seq<IP>, x: IP)
    requires AllWellFormed(o)
    requires Enumerates(netOrder, NetsOf(o).Keys) && Enumerates(ipOrder, IPsOf(o).Keys)
    ensures var nets := MergedAsWritten(NetsOf(o), netOrder);
      && (forall i :: 0 <= i < |Kept(nets, IPsOf(o), ipOrder)| ==> !InSomeNet(nets, Kept(nets, IPsOf(o), ipOrder)[i]))
      && (Covered(Kept(nets, IPsOf(o), ipOrder), nets, x) ==> Allowed(o, x))
      && (AllowedByAddr(o, x) ==> Covered(Kept(nets, IPsOf(o), ipOrder), nets, x))
      && (NoMappedNets(o) ==> (Covered(Kept(nets, IPsOf(o), ipOrder), nets, x) <==> Allowed(o, x)))
  {
    var nets := MergedAsWritten(NetsOf(o), netOrder);
    NetsOfValid(o, netOrder);
    MergedAsWrittenSound(NetsOf(o), netOrder, x);
    NetsOfCover(o, netOrder, x);
    KeptOutsideNets(nets, IPsOf(o), ipOrder);
    KeptCovers(nets, IPsOf(o), ipOrder, x);
    IPsOfHave(o, ipOrder, x);
    if NoMappedNets(o) {
      NetsOfUnmapped(o, netOrder);
      MergedAsWrittenKeepsCoverage(NetsOf(o), netOrder);
    }
  }

  /**
   * The same with the corrected comparison: for every configuration, the
   * kept addresses and nets cover exactly what the configuration allows.
   */
  lemma CorrectedNewListCoverage(o: seq<RawEntry>, netOrder: seq<IPNet>, ipOrder: seq<IP>, x: IP)
    requires AllWellFormed(o)
    requires Enumerates(netOrder, NetsOf(o).Keys) && Enumerates(ipOrder, IPsOf(o).Keys)
    ensures var nets := Merged(NetsOf(o), netOrder);
      && (forall i :: 0 <= i < |Kept(nets, IPsOf(o), ipOrder)| ==> !InSomeNet(nets, Kept(nets, IPsOf(o), ipOrder)[i]))
      && (Covered(Kept(nets, IPsOf(o), ipOrder), nets, x) <==> Allowed(o, x))
  {
    var nets := Merged(NetsOf(o), netOrder);
    NetsOfValid(o, netOrder);
    MergedCovers(NetsOf(o), netOrder, x);
    NetsOfCover(o, netOrder, x);
    KeptOutsideNets(nets, IPsOf(o), ipOrder);
    KeptCovers(nets, IPsOf(o), ipOrder, x);
    IPsOfHave(o, ipOrder, x);
  }

  // ---------------------------------------------------------------------
  // What the merge does not guarantee, and the prefix comparison of line 99

  /** 10.0.0.0/24, 10.0.1.0/24 and 10.0.0.0/16, as `net.ParseCIDR` returns them. */
  const LowBlock := IPNet([10, 0, 0, 0], 24)
  const NextBlock := IPNet([10, 0, 1, 0], 24)
  const WideBlock := IPNet([10, 0, 0, 0], 16)

  /** The /24 blocks are disjoint, and the /16 contains both bases. */
  lemma BlockConflicts()
    ensures !Conflict(NextBlock, LowBlock)
    ensures Contains(WideBlock, LowBlock.ip) && Contains(WideBlock, NextBlock.ip)
    ensures Broader(WideBlock, LowBlock)
  {
  }

  /**
   * Stored nets may overlap: with 10.0.0.0/24 and 10.0.1.0/24 stored,
   * 10.0.0.0/16 takes the first slot only, and the second stays inside it.
   */
  lemma MergeMayLeaveOverlap()
    ensures var m := map[LowBlock := LowBlock, NextBlock := NextBlock, WideBlock := WideBlock];
      && Merged(m, [LowBlock, NextBlock, WideBlock]) == [WideBlock, NextBlock]
      && MergedAsWritten(m, [LowBlock, NextBlock, WideBlock]) == [WideBlock, NextBlock]
      && Contains(WideBlock, NextBlock.ip)
  {
    var a, b, c := LowBlock, NextBlock, WideBlock;
    var m := map[a := a, b := b, c := c];
    BlockConflicts();
    assert [a, b, c][..2] == [a, b] && [a, b][..1] == [a];
    assert Merged(m, [a]) == [a];
    assert Merged(m, [a, b]) == [a, b];
    assert FirstConflict([a, b], c, 0) == Some(0);
    assert [a, b][0 := c] == [c, b];
    MergedAsWrittenAgrees(m, [a, b, c]);
  }

  /** 10.1.0.0/16, and ::ffff:10.0.0.0/104: an IPv4-mapped net that `Contains` treats as 10.0.0.0/8. */
  const NarrowV4 := IPNet([10, 1, 0, 0], 16)
  const MappedWide := IPNet([0, 0, 0, 0, 0, 0, 0, 0, 0, 0, 0xff, 0xff, 10, 0, 0, 0], 104)

  lemma MappedConflicts()
    ensures Conflict(MappedWide, NarrowV4) && Conflict(NarrowV4, MappedWide)
    ensures Prefix(MappedWide) == 8 && MappedWide.ones == 104
    ensures Contains(MappedWide, [10, 2, 0, 0]) && !Contains(NarrowV4, [10, 2, 0, 0])
  {
  }

  /**
   * With the raw `Mask.Size()` comparison of line 99, the 104 ones of the
   * mapped net look longer than 16, so whichever of the two nets comes
   * first, 10.1.0.0/16 ends up stored and 10.2.0.0, which the
   * configuration allows, is no longer covered.
   */
  lemma AsWrittenLosesCoverage()
    ensures InsertAsWritten([NarrowV4], MappedWide) == [NarrowV4]
    ensures InsertAsWritten([MappedWide], NarrowV4) == [NarrowV4]
    ensures Contains(MappedWide, [10, 2, 0, 0]) && !InSomeNet([NarrowV4], [10, 2, 0, 0])
  {
    MappedConflicts();
    assert FirstConflict([NarrowV4], MappedWide, 0) == Some(0);
    assert FirstConflict([MappedWide], NarrowV4, 0) == Some(0);
    assert [MappedWide][0 := NarrowV4] == [NarrowV4];
  }

  /** Comparing effective prefixes keeps the mapped net, whichever comes first. */
  lemma CorrectedKeepsWiderNet()
    ensures Insert([NarrowV4], MappedWide) == [MappedWide]
    ensures Insert([MappedWide], NarrowV4) == [MappedWide]
  {
    MappedConflicts();
    assert FirstConflict([NarrowV4], MappedWide, 0) == Some(0);
    assert FirstConflict([MappedWide], NarrowV4, 0) == Some(0);
    assert [NarrowV4][0 := MappedWide] == [MappedWide];
  }

  /** Nets whose bases are not IPv4-mapped report their effective prefix. */
  predicate Unmapped(n: IPNet)
  {
    ValidIP(n.ip) && !IsV4Mapped(n.ip)
  }

  /** Without IPv4-mapped nets, the comparison as written and the corrected one agree. */
  lemma AsWrittenAgreesWithoutMappedNets(acc: seq<IPNet>, v1: IPNet)
    requires Unmapped(v1) && forall j :: 0 <= j < |acc| ==> Unmapped(acc[j])
    ensures InsertAsWritten(acc, v1) == Insert(acc, v1)
  {
    match FirstConflict(acc, v1, 0)
    case Some(j) =>
      assert Prefix(v1) == v1.ones && Prefix(acc[j]) == acc[j].ones;
    case None =>
  }
}
