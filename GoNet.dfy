/**
 * The behaviour of Go's `net` package that the allowlist relies on: IP byte
 * slices, the IPv4 / IPv4-mapped-IPv6 forms, `IP.Equal`, CIDR masks and
 * `IPNet.Contains`. Text parsing and formatting are not modelled here; the
 * parsers' results enter the model as values.
 */
module GoNet {
  import opened Wrappers

  type Byte = bv8

  /** `net.IP`: a byte slice; the parsers produce 4 or 16 bytes. */
  type IP = seq<Byte>

  const IPv4Len: nat := 4
  const IPv6Len: nat := 16

  /** The first 12 bytes of an IPv4-mapped IPv6 address (`::ffff:a.b.c.d`). */
  const V4InV6Prefix: seq<Byte> := [0, 0, 0, 0, 0, 0, 0, 0, 0, 0, 0xff, 0xff]

  predicate ValidIP(ip: IP)
  {
    |ip| == IPv4Len || |ip| == IPv6Len
  }

  predicate IsV4Mapped(ip: IP)
  {
    |ip| == IPv6Len && ip[..12] == V4InV6Prefix
  }

  /** `IP.To4`: the 4-byte form of an IPv4 or IPv4-mapped address, else nil. */
  function To4(ip: IP): (r: Option<IP>)
    ensures r.Some? <==> |ip| == IPv4Len || IsV4Mapped(ip)
    ensures r.Some? ==> |r.value| == IPv4Len && r.value == ip[|ip| - 4..]
  {
    if |ip| == IPv4Len then Some(ip)
    else if IsV4Mapped(ip) then Some(ip[12..])
    else None
  }

  /** `IP.To16`: the 16-byte form; `IP.String()` of a parsed address is a function of it alone. */
  function To16(ip: IP): (r: IP)
    requires ValidIP(ip)
    ensures |r| == IPv6Len
    ensures |ip| == IPv4Len ==> IsV4Mapped(r) && r[12..] == ip
  {
    if |ip| == IPv4Len then V4InV6Prefix + ip else ip
  }

  /** The address `IPNet.Contains` compares: the 4-byte form when there is one. */
  function Unmap(ip: IP): (r: IP)
  {
    match To4(ip)
    case Some(ip4) => ip4
    case None => ip
  }

  /** `IP.Equal`: same length and same bytes, or one is the IPv4-mapped form of the other. */
  predicate Equal(ip: IP, x: IP)
  {
    if |ip| == |x| then ip == x
    else if |ip| == IPv4Len && |x| == IPv6Len then x[..12] == V4InV6Prefix && ip == x[12..]
    else if |ip| == IPv6Len && |x| == IPv4Len then ip[..12] == V4InV6Prefix && ip[12..] == x
    else false
  }

  /** Two parsed addresses are `Equal` exactly when their 16-byte forms coincide. */
  lemma EqualIffSameTo16(a: IP, b: IP)
    requires ValidIP(a) && ValidIP(b)
    ensures Equal(a, b) <==> To16(a) == To16(b)
  {
    if |a| == IPv4Len && |b| == IPv6Len {
      if To16(a) == To16(b) {
        assert b[..12] == To16(a)[..12] == V4InV6Prefix;
        assert b[12..] == To16(a)[12..] == a;
      }
      if Equal(a, b) {
        assert b == b[..12] + b[12..];
      }
    } else if |a| == IPv6Len && |b| == IPv4Len {
      if To16(a) == To16(b) {
        assert a[..12] == To16(b)[..12] == V4InV6Prefix;
        assert a[12..] == To16(b)[12..] == b;
      }
      if Equal(a, b) {
        assert a == a[..12] + a[12..];
      }
    } else if |a| == IPv4Len && |b| == IPv4Len {
      if To16(a) == To16(b) {
        assert a == To16(a)[12..] == To16(b)[12..] == b;
      }
    }
  }

  /** `IP.Equal` is symmetric and transitive. */
  lemma EqualSymmetricTransitive(a: IP, b: IP, c: IP)
    ensures Equal(a, b) ==> Equal(b, a)
    ensures Equal(a, b) && Equal(b, c) ==> Equal(a, c)
  {
  }

  /** Parsed addresses with one 16-byte form are `Equal` to the same addresses. */
  lemma EqualByTo16(a: IP, b: IP, x: IP)
    requires ValidIP(a) && ValidIP(b) && To16(a) == To16(b)
    ensures Equal(a, x) == Equal(b, x)
  {
    EqualIffSameTo16(a, b);
    EqualSymmetricTransitive(a, b, x);
    EqualSymmetricTransitive(b, a, x);
  }

  /** A mask byte with its `k` leading bits set (`^byte(0xff >> k)` in `net.CIDRMask`). */
  function LeadingOnes(k: nat): Byte
    requires k <= 8
  {
    match k
    case 0 => 0x00
    case 1 => 0x80
    case 2 => 0xc0
    case 3 => 0xe0
    case 4 => 0xf0
    case 5 => 0xf8
    case 6 => 0xfc
    case 7 => 0xfe
    case _ => 0xff
  }

  /** Byte `i` of `net.CIDRMask(ones, bits)`: all ones, all zeros, or the partial byte. */
  function MaskByte(ones: nat, i: nat): Byte
  {
    if ones <= 8 * i then 0x00
    else if ones >= 8 * i + 8 then 0xff
    else LeadingOnes(ones - 8 * i)
  }

  lemma LeadingOnesMonotone(k: nat, k': nat)
    requires k <= k' <= 8
    ensures LeadingOnes(k) & LeadingOnes(k') == LeadingOnes(k)
  {
  }

  /** A shorter CIDR mask selects a subset of the bits a longer one selects. */
  lemma MaskByteMonotone(ones: nat, ones': nat, i: nat)
    requires ones <= ones'
    ensures MaskByte(ones, i) & MaskByte(ones', i) == MaskByte(ones, i)
  {
    if 8 * i < ones && ones < 8 * i + 8 && ones' < 8 * i + 8 {
      LeadingOnesMonotone(ones - 8 * i, ones' - 8 * i);
    }
  }

  /** The loop of `IPNet.Contains` from byte `i` on: equal bytes under the mask of `ones` leading ones. */
  predicate SameFrom(a: IP, b: IP, ones: nat, i: nat)
    requires |a| == |b|
    decreases |a| - i
  {
    i >= |a| || (a[i] & MaskByte(ones, i) == b[i] & MaskByte(ones, i) && SameFrom(a, b, ones, i + 1))
  }

  /** Equal lengths, and agreement on the first `ones` bits. */
  predicate SamePrefix(a: IP, b: IP, ones: nat)
  {
    |a| == |b| && SameFrom(a, b, ones, 0)
  }

  lemma {:induction false} SameFromReflexive(a: IP, ones: nat, i: nat)
    ensures SameFrom(a, a, ones, i)
    decreases |a| - i
  {
    if i < |a| {
      SameFromReflexive(a, ones, i + 1);
    }
  }

  /** Agreement on a prefix implies agreement on every shorter prefix. */
  lemma {:induction false} SameFromWeaken(a: IP, b: IP, ones: nat, ones': nat, i: nat)
    requires |a| == |b| && ones <= ones' && SameFrom(a, b, ones', i)
    ensures SameFrom(a, b, ones, i)
    decreases |a| - i
  {
    if i < |a| {
      MaskByteMonotone(ones, ones', i);
      var m, m' := MaskByte(ones, i), MaskByte(ones', i);
      assert a[i] & m == (a[i] & m') & m;
      assert b[i] & m == (b[i] & m') & m;
      SameFromWeaken(a, b, ones, ones', i + 1);
    }
  }

  lemma {:induction false} SameFromSymmetric(a: IP, b: IP, ones: nat, i: nat)
    requires |a| == |b| && SameFrom(a, b, ones, i)
    ensures SameFrom(b, a, ones, i)
    decreases |a| - i
  {
    if i < |a| {
      SameFromSymmetric(a, b, ones, i + 1);
    }
  }

  lemma {:induction false} SameFromTransitive(a: IP, b: IP, c: IP, ones: nat, i: nat)
    requires |a| == |b| == |c| && SameFrom(a, b, ones, i) && SameFrom(b, c, ones, i)
    ensures SameFrom(a, c, ones, i)
    decreases |a| - i
  {
    if i < |a| {
      SameFromTransitive(a, b, c, ones, i + 1);
    }
  }

  lemma SamePrefixWeaken(a: IP, b: IP, ones: nat, ones': nat)
    requires ones <= ones' && SamePrefix(a, b, ones')
    ensures SamePrefix(a, b, ones)
  {
    SameFromWeaken(a, b, ones, ones', 0);
  }

  /** Agreement on the first `ones` bits is an equivalence. */
  lemma SamePrefixEquivalence(a: IP, b: IP, c: IP, ones: nat)
    ensures |a| == |b| ==> SamePrefix(a, a, ones)
    ensures SamePrefix(a, b, ones) ==> SamePrefix(b, a, ones)
    ensures SamePrefix(a, b, ones) && SamePrefix(b, c, ones) ==> SamePrefix(a, c, ones)
  {
    SameFromReflexive(a, ones, 0);
    if SamePrefix(a, b, ones) {
      SameFromSymmetric(a, b, ones, 0);
      if SamePrefix(b, c, ones) {
        SameFromTransitive(a, b, c, ones, 0);
      }
    }
  }

  /**
   * `*net.IPNet` as `net.ParseCIDR` builds it: the base address `ip` and a mask
   * of the same length with `ones` leading ones (`Mask.Size()` reports `ones`).
   */
  datatype IPNet = IPNet(ip: IP, ones: nat)

  /** What `net.ParseCIDR` returns: a 4- or 16-byte base already masked, and a prefix that fits it. */
  predicate ValidNet(n: IPNet)
  {
    && ValidIP(n.ip)
    && n.ones <= 8 * |n.ip|
    && forall i :: 0 <= i < |n.ip| ==> n.ip[i] & MaskByte(n.ones, i) == n.ip[i]
  }

  /**
   * `networkNumberAndMask`: the network number (4 bytes for an IPv4 or
   * IPv4-mapped base) with the number of leading ones of the mask used
   * against it; a 16-byte mask over a 4-byte network number is cut to its
   * last 4 bytes. None for a base of any other length.
   */
  function Network(n: IPNet): (r: Option<IPNet>)
    ensures r.Some? <==> ValidIP(n.ip)
    ensures r.Some? ==> r.value.ip == Unmap(n.ip)
  {
    match To4(n.ip)
    case Some(ip4) =>
      var ones := if |n.ip| == IPv6Len then (if n.ones >= 96 then n.ones - 96 else 0) else n.ones;
      Some(IPNet(ip4, ones))
    case None => if |n.ip| == IPv6Len then Some(n) else None
  }

  /** The prefix length `IPNet.Contains` actually uses. */
  function Prefix(n: IPNet): nat
  {
    match Network(n)
    case Some(nn) => nn.ones
    case None => n.ones
  }

  /** `IPNet.Contains`: the 4-byte form of `ip` when it has one, compared with the network number under the mask. */
  predicate Contains(n: IPNet, ip: IP)
  {
    match Network(n)
    case Some(nn) => SamePrefix(Unmap(ip), nn.ip, nn.ones)
    case None => false
  }

  /** `IPNet.Contains` does not tell an IPv4 address from its IPv4-mapped form. */
  lemma ContainsRespectsEqual(n: IPNet, a: IP, b: IP)
    requires Equal(a, b)
    ensures Contains(n, a) == Contains(n, b)
  {
    assert Unmap(a) == Unmap(b);
  }

  /**
   * A net and its network number (`NetKey`, what `IPNet.String()` prints)
   * contain the same addresses and use the same prefix.
   */
  lemma NetworkIsCanonical(n: IPNet, x: IP)
    requires ValidIP(n.ip)
    ensures ValidIP(Network(n).value.ip)
    ensures Network(Network(n).value) == Network(n)
    ensures Contains(n, x) == Contains(Network(n).value, x)
    ensures Prefix(n) == Prefix(Network(n).value)
  {
  }

  /** Every well-formed net contains its own base address. */
  lemma ContainsOwnBase(n: IPNet)
    requires ValidIP(n.ip)
    ensures Contains(n, n.ip)
  {
    SameFromReflexive(Unmap(n.ip), Network(n).value.ones, 0);
  }

  /**
   * A net whose base lies inside a second net with a prefix no longer than
   * its own lies entirely inside that net; and when the second net's base
   * lies inside the first one and the first is no broader, likewise.
   */
  lemma Nested(outer: IPNet, inner: IPNet)
    requires ValidIP(outer.ip) && ValidIP(inner.ip)
    requires Prefix(outer) <= Prefix(inner)
    requires Contains(outer, inner.ip) || Contains(inner, outer.ip)
    ensures forall x :: Contains(inner, x) ==> Contains(outer, x)
  {
    var no, ni := Network(outer).value, Network(inner).value;
    assert Unmap(inner.ip) == ni.ip && Unmap(outer.ip) == no.ip;
    if Contains(inner, outer.ip) {
      SamePrefixWeaken(no.ip, ni.ip, no.ones, ni.ones);
      SamePrefixEquivalence(no.ip, ni.ip, no.ip, no.ones);
    }
    assert SamePrefix(ni.ip, no.ip, no.ones);
    forall x | Contains(inner, x)
      ensures Contains(outer, x)
    {
      SamePrefixWeaken(Unmap(x), ni.ip, no.ones, ni.ones);
      SamePrefixEquivalence(Unmap(x), ni.ip, no.ip, no.ones);
    }
  }

  /** An address in two nets puts the base of the narrower one inside the broader one. */
  lemma SharedAddress(a: IPNet, b: IPNet, x: IP)
    requires Contains(a, x) && Contains(b, x)
    ensures Prefix(a) <= Prefix(b) ==> Contains(a, b.ip)
    ensures Prefix(b) <= Prefix(a) ==> Contains(b, a.ip)
  {
    var na, nb := Network(a).value, Network(b).value;
    var y := Unmap(x);
    if na.ones <= nb.ones {
      SamePrefixWeaken(y, nb.ip, na.ones, nb.ones);
      SamePrefixEquivalence(y, nb.ip, y, na.ones);
      SamePrefixEquivalence(nb.ip, y, na.ip, na.ones);
    }
    if nb.ones <= na.ones {
      SamePrefixWeaken(y, na.ip, nb.ones, na.ones);
      SamePrefixEquivalence(y, na.ip, y, nb.ones);
      SamePrefixEquivalence(na.ip, y, nb.ip, nb.ones);
    }
  }

  /** When one net contains the other's base, that base is an address of both. */
  lemma BaseInsideIsShared(a: IPNet, b: IPNet)
    requires ValidIP(a.ip) && ValidIP(b.ip)
    ensures Contains(a, b.ip) ==> Contains(a, b.ip) && Contains(b, b.ip)
    ensures Contains(b, a.ip) ==> Contains(a, a.ip) && Contains(b, a.ip)
  {
    ContainsOwnBase(a);
    ContainsOwnBase(b);
  }

  /**
   * Masked CIDR blocks are nested or disjoint: two nets share an address
   * exactly when one contains the other's base.
   */
  lemma OverlapIffBaseContained(a: IPNet, b: IPNet)
    requires ValidIP(a.ip) && ValidIP(b.ip)
    ensures (exists x :: Contains(a, x) && Contains(b, x)) <==> (Contains(a, b.ip) || Contains(b, a.ip))
  {
    BaseInsideIsShared(a, b);
    if x :| Contains(a, x) && Contains(b, x) {
      SharedAddress(a, b, x);
    }
  }
}
