/**
 * The allowlist itself (ip/ip.go): the `List` of addresses and nets, its
 * queries and sort, and `option.NewList`, which builds it from the
 * configured entries.
 */
module Allowlist {
  import opened Wrappers
  import opened GoNet
  import opened Order
  import opened Normalize

  /** The sort key of an address: its own bytes. */
  function AddressKey(ip: IP): IP
  {
    ip
  }

  /** The sort key of a net: the bytes of its base (`IPNets[i].IP`). */
  function BaseKey(n: IPNet): IP
  {
    n.ip
  }

  /** `List`: the allowed addresses and the allowed nets. */
  class List {
    var IPs: seq<IP>
    var IPNets: seq<IPNet>

    /** `new(List)`: both slices empty. */
    constructor ()
      ensures IPs == [] && IPNets == []
    {
      IPs := [];
      IPNets := [];
    }

    /**
     * `List.sort`: both slices reordered in place by `compare`, the nets by
     * their base addresses.
     */
    method Sort()
      modifies this
      ensures multiset(IPs) == multiset(old(IPs)) && SortedBy(IPs, AddressKey)
      ensures multiset(IPNets) == multiset(old(IPNets)) && SortedBy(IPNets, BaseKey)
    {
      IPs := SortBy(IPs, AddressKey);
      IPNets := SortBy(IPNets, BaseKey);
    }

    /** `List.ContainsIP`: a stored address `Equal` to `ip1`, else a stored net containing it. */
    method ContainsIP(ip1: IP) returns (found: bool)
      ensures found == Covered(IPs, IPNets, ip1)
    {
      for i := 0 to |IPs|
        invariant forall k :: 0 <= k < i ==> !Equal(IPs[k], ip1)
      {
        if Equal(IPs[i], ip1) {
          return true;
        }
      }
      for j := 0 to |IPNets|
        invariant forall k :: 0 <= k < j ==> !Contains(IPNets[k], ip1)
      {
        if Contains(IPNets[j], ip1) {
          return true;
        }
      }
      return false;
    }

    /**
     * `List.ContainsString`, given what `net.ParseIP` makes of the text:
     * false when it is not an address, else the answer of `ContainsIP`.
     */
    method ContainsString(parsed: Option<IP>) returns (found: bool)
      ensures parsed.None? ==> !found
      ensures parsed.Some? ==> found == Covered(IPs, IPNets, parsed.value)
    {
      if parsed.None? {
        return false;
      }
      found := ContainsIP(parsed.value);
    }
  }

  /** The classification loop of `NewList` (lines 80-92): the `ips` and `ipNets` maps. */
  method CollectEntries(o: seq<RawEntry>) returns (ips: map<IP, IP>, ipNets: map<IPNet, IPNet>)
    requires AllWellFormed(o)
    ensures ipNets == NetsOf(o) && ips == IPsOf(o)
  {
    ips, ipNets := map[], map[];
    for i := 0 to |o|
      invariant ipNets == NetsOf(o[..i]) && ips == IPsOf(o[..i])
    {
      ClassifyStep(o, i);
      var v := o[i];
      if v.cidr.None? {
        if v.addr.None? {
          continue;
        }
        var allowIP := v.addr.value;
        ips := ips[AddrKey(allowIP) := allowIP];
      } else {
        var ipNet := v.cidr.value;
        ipNets := ipNets[NetKey(ipNet) := ipNet];
      }
    }
    assert o[..|o|] == o;
  }

  /**
   * The inner loop of the merge (lines 95-104): the first slot of `acc`
   * whose net conflicts with `v1`, if any.
   */
  method FirstConflictSlot(acc: seq<IPNet>, v1: IPNet) returns (slot: Option<nat>)
    ensures slot.Some? ==> slot.value < |acc| && Conflict(v1, acc[slot.value])
    ensures slot.Some? ==> forall k :: 0 <= k < slot.value ==> !Conflict(v1, acc[k])
    ensures slot.None? ==> forall k :: 0 <= k < |acc| ==> !Conflict(v1, acc[k])
  {
    for j := 0 to |acc|
      invariant forall k :: 0 <= k < j ==> !Conflict(v1, acc[k])
    {
      var v2 := acc[j];
      if Contains(v1, v2.ip) || Contains(v2, v1.ip) {
        return Some(j);
      }
    }
    return None;
  }

  /**
   * One iteration of the merge loop (lines 94-105) for the key
   * `netOrder[n]`: the inner loop finds the first conflicting slot; the
   * candidate takes it when its `Mask.Size()` is smaller, and is dropped
   * otherwise (`continue L1`); with no conflict it is appended.
   */
  method MergeStep(l: List, ipNets: map<IPNet, IPNet>, netOrder: seq<IPNet>, n: nat)
    requires n < |netOrder| && forall i :: 0 <= i < |netOrder| ==> netOrder[i] in ipNets
    requires l.IPNets == MergedAsWritten(ipNets, netOrder[..n])
    modifies l
    ensures l.IPNets == MergedAsWritten(ipNets, netOrder[..n + 1]) && l.IPs == old(l.IPs)
  {
    var key := netOrder[n];
    var v1 := ipNets[key];
    var slot := FirstConflictSlot(l.IPNets, v1);
    if slot.Some? {
      var j := slot.value;
      MergedAsWrittenAtConflict(ipNets, netOrder, n, l.IPNets, j);
      if BroaderAsWritten(v1, l.IPNets[j]) {
        l.IPNets := l.IPNets[j := v1];
      }
    } else {
      MergedAsWrittenWithoutConflict(ipNets, netOrder, n, l.IPNets);
      l.IPNets := l.IPNets + [ipNets[key]];
    }
  }

  /**
   * The merge loop of `NewList` (lines 93-106), visiting the keys of
   * `ipNets` in `netOrder`: `l.IPNets` ends up as their merge, with the
   * `Mask.Size()` comparison of line 99.
   */
  method MergeNets(l: List, ipNets: map<IPNet, IPNet>, netOrder: seq<IPNet>)
    requires l.IPNets == []
    requires forall i :: 0 <= i < |netOrder| ==> netOrder[i] in ipNets
    modifies l
    ensures l.IPNets == MergedAsWritten(ipNets, netOrder) && l.IPs == old(l.IPs)
  {
    assert netOrder[..0] == [];
    for n := 0 to |netOrder|
      invariant l.IPs == old(l.IPs)
      invariant l.IPNets == MergedAsWritten(ipNets, netOrder[..n])
    {
      MergeStep(l, ipNets, netOrder, n);
    }
    assert netOrder[..|netOrder|] == netOrder;
  }

  /**
   * The filter loop of `NewList` (lines 107-112), visiting the keys of
   * `ips` in `ipOrder`: an address the list already allows is skipped.
   */
  method FilterAddresses(l: List, ips: map<IP, IP>, ipOrder: seq<IP>)
    requires l.IPs == []
    requires forall i :: 0 <= i < |ipOrder| ==> ipOrder[i] in ips
    modifies l
    ensures l.IPs == Kept(l.IPNets, ips, ipOrder) && l.IPNets == old(l.IPNets)
  {
    assert ipOrder[..0] == [];
    for n := 0 to |ipOrder|
      invariant l.IPNets == old(l.IPNets)
      invariant l.IPs == Kept(l.IPNets, ips, ipOrder[..n])
    {
      assert ipOrder[..n + 1][..n] == ipOrder[..n];
      var key := ipOrder[n];
      var v1 := ips[key];
      var covered := l.ContainsIP(v1);
      if covered {
        continue;
      }
      l.IPs := l.IPs + [ips[key]];
    }
    assert ipOrder[..|ipOrder|] == ipOrder;
  }

  /**
   * `option.NewList`. The entries `o` are given by what the parsers make of
   * each text; `netOrder` and `ipOrder` are the orders in which the two
   * `range` loops visit the keys of `ipNets` and `ips`. The list holds the
   * merged nets and the filtered addresses, sorted; no stored address lies
   * in a stored net; it allows nothing the configuration does not, and
   * every listed address; and when no CIDR entry is IPv4-mapped it allows
   * exactly what the configuration allows.
   */
  method NewList(o: seq<RawEntry>, netOrder: seq<IPNet>, ipOrder: seq<IP>) returns (l: List)
    requires AllWellFormed(o)
    requires Enumerates(netOrder, NetsOf(o).Keys) && Enumerates(ipOrder, IPsOf(o).Keys)
    ensures fresh(l)
    ensures multiset(l.IPNets) == multiset(MergedAsWritten(NetsOf(o), netOrder)) && SortedBy(l.IPNets, BaseKey)
    ensures multiset(l.IPs) == multiset(Kept(MergedAsWritten(NetsOf(o), netOrder), IPsOf(o), ipOrder)) && SortedBy(l.IPs, AddressKey)
    ensures forall i :: 0 <= i < |l.IPs| ==> !InSomeNet(l.IPNets, l.IPs[i])
    ensures forall x :: Covered(l.IPs, l.IPNets, x) ==> Allowed(o, x)
    ensures forall x :: AllowedByAddr(o, x) ==> Covered(l.IPs, l.IPNets, x)
    ensures NoMappedNets(o) ==> forall x :: Covered(l.IPs, l.IPNets, x) <==> Allowed(o, x)
  {
    l := new List();
    var ips, ipNets := CollectEntries(o);
    MergeNets(l, ipNets, netOrder);
    ghost var merged := l.IPNets;
    FilterAddresses(l, ips, ipOrder);
    ghost var kept := l.IPs;
    l.Sort();
    forall x
      ensures Covered(l.IPs, l.IPNets, x) ==> Allowed(o, x)
      ensures AllowedByAddr(o, x) ==> Covered(l.IPs, l.IPNets, x)
      ensures NoMappedNets(o) ==> (Covered(l.IPs, l.IPNets, x) <==> Allowed(o, x))
    {
      NewListCoverage(o, netOrder, ipOrder, x);
      CoveredPermutation(l.IPs, kept, l.IPNets, merged, x);
    }
    forall i | 0 <= i < |l.IPs|
      ensures !InSomeNet(l.IPNets, l.IPs[i])
    {
      NewListCoverage(o, netOrder, ipOrder, l.IPs[i]);
      assert l.IPs[i] in multiset(kept);
      InSomeNetPermutation(l.IPNets, merged, l.IPs[i]);
    }
  }

  /** `loadArray`: `NewList` on the entries of the array. */
  method LoadArray(a: seq<RawEntry>, netOrder: seq<IPNet>, ipOrder: seq<IP>) returns (l: List)
    requires AllWellFormed(a)
    requires Enumerates(netOrder, NetsOf(a).Keys) && Enumerates(ipOrder, IPsOf(a).Keys)
    ensures fresh(l)
    ensures multiset(l.IPNets) == multiset(MergedAsWritten(NetsOf(a), netOrder)) && SortedBy(l.IPNets, BaseKey)
    ensures multiset(l.IPs) == multiset(Kept(MergedAsWritten(NetsOf(a), netOrder), IPsOf(a), ipOrder)) && SortedBy(l.IPs, AddressKey)
    ensures forall i :: 0 <= i < |l.IPs| ==> !InSomeNet(l.IPNets, l.IPs[i])
    ensures forall x :: Covered(l.IPs, l.IPNets, x) ==> Allowed(a, x)
    ensures forall x :: AllowedByAddr(a, x) ==> Covered(l.IPs, l.IPNets, x)
    ensures NoMappedNets(a) ==> forall x :: Covered(l.IPs, l.IPNets, x) <==> Allowed(a, x)
  {
    l := NewList(a, netOrder, ipOrder);
  }
}
