/**
 * The vectors of ip/ip_test.go: `loadArray` on the seven-entry array,
 * for every map iteration order, and the two `ContainsString` queries.
 */
module Examples {
  import opened Wrappers
  import opened GoNet
  import opened Order
  import opened Normalize
  import opened Clusters
  import opened Allowlist

  /** `net.ParseIP` of a dotted quad: the IPv4-mapped 16-byte form. */
  function Mapped(a: Byte, b: Byte, c: Byte, d: Byte): (r: IP)
    ensures ValidIP(r) && IsV4Mapped(r) && Unmap(r) == [a, b, c, d]
  {
    V4InV6Prefix + [a, b, c, d]
  }

  /** `::1`. */
  const Loopback6: IP := [0, 0, 0, 0, 0, 0, 0, 0, 0, 0, 0, 0, 0, 0, 0, 1]

  /** The nets `net.ParseCIDR` returns for the four CIDR entries. */
  const Net8 := IPNet([127, 0, 0, 0], 8)
  const Net24 := IPNet([127, 0, 0, 0], 24)
  const Net32 := IPNet([192, 168, 1, 2], 32)
  const Net28 := IPNet([192, 168, 1, 0], 28)

  /**
   * "127.0.0.1", "127.0.0.1/8", "127.0.0.1/24", "192.168.1.200",
   * "192.168.1.2/32", "192.168.1.6/28", "::1", as the parsers see them.
   */
  function ReadArrayInput(): seq<RawEntry>
  {
    [ RawEntry(None, Some(Mapped(127, 0, 0, 1))),
      RawEntry(Some(Net8), None),
      RawEntry(Some(Net24), None),
      RawEntry(None, Some(Mapped(192, 168, 1, 200))),
      RawEntry(Some(Net32), None),
      RawEntry(Some(Net28), None),
      RawEntry(None, Some(Loopback6)) ]
  }

  /** The entries are what the parsers produce, and each is filed under itself. */
  lemma ReadArrayEntries()
    ensures AllWellFormed(ReadArrayInput())
    ensures NetKey(Net8) == Net8 && NetKey(Net24) == Net24 && NetKey(Net32) == Net32 && NetKey(Net28) == Net28
    ensures AddrKey(Mapped(127, 0, 0, 1)) == Mapped(127, 0, 0, 1)
    ensures AddrKey(Mapped(192, 168, 1, 200)) == Mapped(192, 168, 1, 200)
    ensures AddrKey(Loopback6) == Loopback6
  {
    assert ValidNet(Net8) && ValidNet(Net24) && ValidNet(Net32) && ValidNet(Net28);
  }

  /** Classification fills `ipNets` with the four nets, each under its own key. */
  lemma ReadArrayNets()
    ensures AllWellFormed(ReadArrayInput())
    ensures NetsOf(ReadArrayInput()) == map[Net8 := Net8, Net24 := Net24, Net32 := Net32, Net28 := Net28]
  {
    var o := ReadArrayInput();
    ReadArrayEntries();
    assert o[..0] == [] && o[..7] == o;
    ClassifyStep(o, 0);
    ClassifyStep(o, 1);
    ClassifyStep(o, 2);
    ClassifyStep(o, 3);
    ClassifyStep(o, 4);
    ClassifyStep(o, 5);
    ClassifyStep(o, 6);
  }

  /** Classification fills `ips` with the three addresses, each under its own 16-byte form. */
  lemma ReadArrayAddresses()
    ensures AllWellFormed(ReadArrayInput())
    ensures IPsOf(ReadArrayInput()) == map[Mapped(127, 0, 0, 1) := Mapped(127, 0, 0, 1),
                                           Mapped(192, 168, 1, 200) := Mapped(192, 168, 1, 200),
                                           Loopback6 := Loopback6]
  {
    var o := ReadArrayInput();
    ReadArrayEntries();
    assert o[..0] == [] && o[..7] == o;
    ClassifyStep(o, 0);
    ClassifyStep(o, 1);
    ClassifyStep(o, 2);
    ClassifyStep(o, 3);
    ClassifyStep(o, 4);
    ClassifyStep(o, 5);
    ClassifyStep(o, 6);
  }

  /** The four nets, as a set. */
  function ReadArrayNetSet(): set<IPNet>
  {
    {Net8, Net24, Net32, Net28}
  }

  /** Which of the four nets conflict: the two 127 nets, and the two 192.168.1 nets. */
  lemma ReadArrayConflicts()
    ensures Conflict(Net8, Net8) && Conflict(Net24, Net24) && Conflict(Net32, Net32) && Conflict(Net28, Net28)
    ensures Conflict(Net8, Net24) && Conflict(Net24, Net8) && Conflict(Net32, Net28) && Conflict(Net28, Net32)
    ensures !Conflict(Net8, Net32) && !Conflict(Net32, Net8) && !Conflict(Net8, Net28) && !Conflict(Net28, Net8)
    ensures !Conflict(Net24, Net32) && !Conflict(Net32, Net24) && !Conflict(Net24, Net28) && !Conflict(Net28, Net24)
    ensures Prefix(Net8) == 8 && Prefix(Net24) == 24 && Prefix(Net32) == 32 && Prefix(Net28) == 28
  {
  }

  /** Two of the four nets conflict exactly when they share their first byte. */
  lemma ReadArrayConflictByGroup(a: IPNet, b: IPNet)
    requires a in ReadArrayNetSet() && b in ReadArrayNetSet()
    ensures Conflict(a, b) <==> a.ip[0] == b.ip[0]
  {
    ReadArrayConflicts();
    if a == Net8 {
      assert b == Net8 || b == Net24 || b == Net32 || b == Net28;
    } else if a == Net24 {
      assert b == Net8 || b == Net24 || b == Net32 || b == Net28;
    } else if a == Net32 {
      assert b == Net8 || b == Net24 || b == Net32 || b == Net28;
    } else {
      assert a == Net28;
      assert b == Net8 || b == Net24 || b == Net32 || b == Net28;
    }
  }

  /** The effective prefix of each of the four nets is its own prefix length. */
  lemma ReadArrayPrefix(a: IPNet)
    requires a in ReadArrayNetSet()
    ensures Prefix(a) == a.ones
  {
    ReadArrayConflicts();
    assert a == Net8 || a == Net24 || a == Net32 || a == Net28;
  }

  /** No two of the four nets have the same prefix length. */
  lemma ReadArrayDistinctPrefixes(a: IPNet, b: IPNet)
    requires a in ReadArrayNetSet() && b in ReadArrayNetSet() && a.ones == b.ones
    ensures a == b
  {
  }

  /** The four nets form two groups under conflict, tagged by their first byte. */
  lemma ReadArrayGrouped(s: set<IPNet>)
    requires s == ReadArrayNetSet()
    ensures Grouped(s, Conflict, Prefix)
  {
    forall a, b | a in s && b in s
      ensures Conflict(a, b) <==> a.ip[0] == b.ip[0]
    {
      ReadArrayConflictByGroup(a, b);
    }
    forall a, b | a in s && b in s && a.ip[0] == b.ip[0] && Prefix(a) == Prefix(b)
      ensures a == b
    {
      ReadArrayPrefix(a);
      ReadArrayPrefix(b);
      ReadArrayDistinctPrefixes(a, b);
    }
    GroupedByLabel(s, Conflict, Prefix, (n: IPNet) => if |n.ip| > 0 then n.ip[0] else 0);
  }

  /** The broadest net of each group: 127.0.0.0/8 and 192.168.1.0/28. */
  lemma ReadArrayBroadest(s: set<IPNet>)
    requires s == ReadArrayNetSet()
    ensures forall t :: Broadest(t, s, Conflict, Prefix) <==> t == Net8 || t == Net28
  {
    ReadArrayConflicts();
  }

  /** Which of the three addresses lie in the two kept nets: only 127.0.0.1. */
  lemma ReadArrayAddressCoverage()
    ensures Contains(Net8, Mapped(127, 0, 0, 1))
    ensures !Contains(Net8, Mapped(192, 168, 1, 200)) && !Contains(Net28, Mapped(192, 168, 1, 200))
    ensures !Contains(Net8, Loopback6) && !Contains(Net28, Loopback6)
  {
  }

  /** How `compare` orders the kept nets and the kept addresses: shorter first, then by bytes. */
  lemma ReadArrayOrder()
    ensures Less(Loopback6, Mapped(192, 168, 1, 200)) && Less(Net8.ip, Net28.ip)
  {
    var a200 := Mapped(192, 168, 1, 200);
    assert Loopback6[..10] == a200[..10];
    FirstDifferenceDecides(Loopback6, a200, 10);
    FirstDifferenceDecides(Net8.ip, Net28.ip, 0);
  }

  /** In a sequence of distinct elements each element occurs once. */
  lemma {:induction false} DistinctOnce<T>(s: seq<T>, x: T)
    requires forall k, l :: 0 <= k < l < |s| ==> s[k] != s[l]
    ensures multiset(s)[x] == if x in s then 1 else 0
  {
    if s != [] {
      var p, y := s[..|s| - 1], s[|s| - 1];
      assert s == p + [y];
      DistinctOnce(p, x);
      forall k | 0 <= k < |p|
        ensures p[k] != y
      {
        assert p[k] == s[k];
      }
    }
  }

  /** A sequence of distinct elements whose elements are exactly `a` and `b` holds each once. */
  lemma DistinctPair<T>(s: seq<T>, a: T, b: T)
    requires a != b && forall x :: x in s <==> x == a || x == b
    requires forall k, l :: 0 <= k < l < |s| ==> s[k] != s[l]
    ensures multiset(s) == multiset{a, b}
  {
    forall x
      ensures multiset(s)[x] == multiset{a, b}[x]
    {
      DistinctOnce(s, x);
    }
  }

  /** A sorted arrangement of `a` and `b` with `a`'s key first is `[a, b]`. */
  lemma SortedPair<T>(s: seq<T>, a: T, b: T, key: T -> IP)
    requires multiset(s) == multiset{a, b} && SortedBy(s, key) && Less(key(a), key(b))
    ensures s == [a, b]
  {
    CompareIsStrictTotalOrder(key(a), key(b), key(a));
    assert |s| == |multiset(s)| == 2;
    assert s[0] in multiset(s) && s[1] in multiset(s);
    assert s == [s[0], s[1]];
    if s[0] == b {
      assert false;
    } else {
      assert multiset{a, s[1]} == multiset{a, b};
    }
  }

  /** The three addresses, as a set. */
  function ReadArrayAddressSet(): set<IP>
  {
    {Loopback6, Mapped(192, 168, 1, 200), Mapped(127, 0, 0, 1)}
  }

  /** When the input nets have exactly two broadest members, the merge keeps those two, once each. */
  lemma MergedPair(nets: map<IPNet, IPNet>, order: seq<IPNet>, a: IPNet, b: IPNet)
    requires Enumerates(order, nets.Keys) && Grouped(nets.Values, Conflict, Prefix)
    requires a != b && forall t :: Broadest(t, nets.Values, Conflict, Prefix) <==> t == a || t == b
    ensures multiset(Merged(nets, order)) == multiset{a, b}
  {
    MergedKeepsBroadest(nets, order);
    DistinctPair(Merged(nets, order), a, b);
  }

  /** A list holding two nets covers what either of them contains. */
  lemma InPairOfNets(nets: seq<IPNet>, n1: IPNet, n2: IPNet, x: IP)
    requires multiset(nets) == multiset{n1, n2}
    ensures InSomeNet(nets, x) <==> Contains(n1, x) || Contains(n2, x)
  {
    assert |nets| == 2;
    assert nets[0] in multiset(nets) && nets[1] in multiset(nets);
    assert n1 in multiset(nets) && n2 in multiset(nets);
  }

  /** Addresses of one width are `Equal` only when identical. */
  lemma SameWidthDistinct(s: set<IP>, a: IP, b: IP, c: IP)
    requires s == {a, b, c} && |a| == |b| == |c|
    ensures forall u, v :: u in s && v in s && Equal(u, v) ==> u == v
  {
  }

  /** Over a whole enumeration, the filter keeps exactly the input addresses outside the nets, each once. */
  lemma KeptAll(nets: seq<IPNet>, ips: map<IP, IP>, order: seq<IP>)
    requires Enumerates(order, ips.Keys)
    requires forall u, v :: u in ips.Values && v in ips.Values && Equal(u, v) ==> u == v
    ensures forall v :: v in Kept(nets, ips, order) <==> v in ips.Values && !InSomeNet(nets, v)
    ensures forall k, l :: 0 <= k < l < |Kept(nets, ips, order)| ==> Kept(nets, ips, order)[k] != Kept(nets, ips, order)[l]
  {
    KeptUncovered(nets, ips, order);
    VisitedAll(ips, order);
  }

  /**
   * Against two nets, with three addresses of one width of which `c` lies
   * in the first net and `a` and `b` in neither, the filter keeps `a` and
   * `b`, once each, in every order.
   */
  lemma KeptPair(nets: seq<IPNet>, ips: map<IP, IP>, order: seq<IP>, n1: IPNet, n2: IPNet, a: IP, b: IP, c: IP)
    requires multiset(nets) == multiset{n1, n2}
    requires Enumerates(order, ips.Keys) && ips.Values == {a, b, c} && |a| == |b| == |c| && a != b
    requires !Contains(n1, a) && !Contains(n2, a) && !Contains(n1, b) && !Contains(n2, b) && Contains(n1, c)
    ensures multiset(Kept(nets, ips, order)) == multiset{a, b}
  {
    InPairOfNets(nets, n1, n2, a);
    InPairOfNets(nets, n1, n2, b);
    InPairOfNets(nets, n1, n2, c);
    SameWidthDistinct(ips.Values, a, b, c);
    KeptAll(nets, ips, order);
    DistinctPair(Kept(nets, ips, order), a, b);
  }

  /** A map that files each key under itself has its keys as its values. */
  lemma IdentityValues<K>(m: map<K, K>, s: set<K>)
    requires m.Keys == s && forall k :: k in m ==> m[k] == k
    ensures m.Values == s
  {
  }

  /** `ipNets` holds the four nets, each filed under itself. */
  lemma ReadArrayNetMap(o: seq<RawEntry>)
    requires o == ReadArrayInput()
    ensures AllWellFormed(o)
    ensures NetsOf(o).Keys == ReadArrayNetSet() && forall k :: k in NetsOf(o) ==> NetsOf(o)[k] == k
  {
    ReadArrayNets();
  }

  /** `ips` holds the three addresses, each filed under itself. */
  lemma ReadArrayAddressMap(o: seq<RawEntry>)
    requires o == ReadArrayInput()
    ensures IPsOf(o).Keys == ReadArrayAddressSet() && forall k :: k in IPsOf(o) ==> IPsOf(o)[k] == k
  {
    ReadArrayAddresses();
  }

  /** A net map holding the four nets falls into the two groups, with 127.0.0.0/8 and 192.168.1.0/28 broadest. */
  lemma ReadArrayGroups(nets: map<IPNet, IPNet>)
    requires nets.Keys == ReadArrayNetSet() && forall k :: k in nets ==> nets[k] == k
    ensures Grouped(nets.Values, Conflict, Prefix)
    ensures forall t :: Broadest(t, nets.Values, Conflict, Prefix) <==> t == Net8 || t == Net28
  {
    IdentityValues(nets, ReadArrayNetSet());
    ReadArrayGrouped(nets.Values);
    ReadArrayBroadest(nets.Values);
  }

  /** In every order of the four nets, the merge keeps 127.0.0.0/8 and 192.168.1.0/28, once each. */
  lemma ReadArrayMerged(o: seq<RawEntry>, netOrder: seq<IPNet>)
    requires AllWellFormed(o)
    requires NetsOf(o).Keys == ReadArrayNetSet() && forall k :: k in NetsOf(o) ==> NetsOf(o)[k] == k
    requires Enumerates(netOrder, ReadArrayNetSet())
    ensures multiset(Merged(NetsOf(o), netOrder)) == multiset{Net8, Net28}
  {
    ReadArrayGroups(NetsOf(o));
    MergedPair(NetsOf(o), netOrder, Net8, Net28);
  }

  /**
   * None of the four nets is IPv4-mapped, so in every order the merge as
   * written stores what the corrected merge stores.
   */
  lemma ReadArrayAsWritten(nets: map<IPNet, IPNet>, netOrder: seq<IPNet>)
    requires nets.Keys == ReadArrayNetSet() && forall k :: k in nets ==> nets[k] == k
    requires Enumerates(netOrder, ReadArrayNetSet())
    ensures MergedAsWritten(nets, netOrder) == Merged(nets, netOrder)
  {
    forall i | 0 <= i < |netOrder|
      ensures netOrder[i] in nets && Unmapped(nets[netOrder[i]])
    {
      assert netOrder[i] in ReadArrayNetSet();
    }
    MergedAsWrittenAgrees(nets, netOrder);
  }

  /** In every order of the three addresses, the filter against those two nets keeps ::1 and 192.168.1.200, once each. */
  lemma ReadArrayKept(o: seq<RawEntry>, merged: seq<IPNet>, ipOrder: seq<IP>)
    requires AllWellFormed(o)
    requires IPsOf(o).Keys == ReadArrayAddressSet() && forall k :: k in IPsOf(o) ==> IPsOf(o)[k] == k
    requires Enumerates(ipOrder, ReadArrayAddressSet())
    requires multiset(merged) == multiset{Net8, Net28}
    ensures multiset(Kept(merged, IPsOf(o), ipOrder)) == multiset{Loopback6, Mapped(192, 168, 1, 200)}
  {
    IdentityValues(IPsOf(o), ReadArrayAddressSet());
    ReadArrayAddressCoverage();
    KeptPair(merged, IPsOf(o), ipOrder, Net8, Net28, Loopback6, Mapped(192, 168, 1, 200), Mapped(127, 0, 0, 1));
  }

  /**
   * `loadArray` on any well-formed input that classifies into the four
   * nets and the three addresses of the vector, in every map order.
   */
  method ReadArrayFromMaps(o: seq<RawEntry>, netOrder: seq<IPNet>, ipOrder: seq<IP>) returns (l: List)
    requires AllWellFormed(o)
    requires NetsOf(o).Keys == ReadArrayNetSet() && forall k :: k in NetsOf(o) ==> NetsOf(o)[k] == k
    requires IPsOf(o).Keys == ReadArrayAddressSet() && forall k :: k in IPsOf(o) ==> IPsOf(o)[k] == k
    requires Enumerates(netOrder, ReadArrayNetSet()) && Enumerates(ipOrder, ReadArrayAddressSet())
    ensures l.IPNets == [Net8, Net28]
    ensures l.IPs == [Loopback6, Mapped(192, 168, 1, 200)]
  {
    ReadArrayMerged(o, netOrder);
    ReadArrayAsWritten(NetsOf(o), netOrder);
    ReadArrayKept(o, Merged(NetsOf(o), netOrder), ipOrder);
    l := LoadArray(o, netOrder, ipOrder);
    ReadArrayOrder();
    SortedPair(l.IPNets, Net8, Net28, BaseKey);
    SortedPair(l.IPs, Loopback6, Mapped(192, 168, 1, 200), AddressKey);
  }

  /**
   * `Test_loadArray`: in every map iteration order, `loadArray` keeps the
   * nets 127.0.0.0/8 and 192.168.1.0/28 and the addresses ::1 and
   * 192.168.1.200, in that order.
   */
  method ReadArray(netOrder: seq<IPNet>, ipOrder: seq<IP>) returns (l: List)
    requires Enumerates(netOrder, ReadArrayNetSet()) && Enumerates(ipOrder, ReadArrayAddressSet())
    ensures l.IPNets == [Net8, Net28]
    ensures l.IPs == [Loopback6, Mapped(192, 168, 1, 200)]
  {
    var o := ReadArrayInput();
    ReadArrayNetMap(o);
    ReadArrayAddressMap(o);
    l := ReadArrayFromMaps(o, netOrder, ipOrder);
  }

  /**
   * `TestList_ContainsString`: on the list of the vector, "192.168.1.200"
   * is allowed, and "192.168.1", which `net.ParseIP` rejects, is not.
   */
  method ContainsStringVectors() returns (contains: bool, notContains: bool)
    ensures contains && !notContains
  {
    var l := new List();
    l.IPs := [Mapped(192, 168, 1, 200), Loopback6];
    l.IPNets := [Net8, Net28];
    assert Equal(l.IPs[0], Mapped(192, 168, 1, 200));
    contains := l.ContainsString(Some(Mapped(192, 168, 1, 200)));
    notContains := l.ContainsString(None);
  }
}
