/**
 * The deterministic order of `List.sort` (ip/ip.go:18-44): the `compare`
 * closure on IP byte slices, and the sort of a slice by a key under it.
 */
module Order {
  import opened GoNet

  /** The order `compare` decides: a shorter slice first, then the first differing byte. */
  predicate Less(a: IP, b: IP)
  {
    if |a| != |b| then |a| < |b| else LexLess(a, b)
  }

  /** Lexicographic order on slices of one length. */
  predicate LexLess(a: IP, b: IP)
    requires |a| == |b|
  {
    |a| > 0 && (a[0] < b[0] || (a[0] == b[0] && LexLess(a[1..], b[1..])))
  }

  /** The `compare` closure: the length switch, then the early-exit byte loop. */
  method Compare(ip1: IP, ip2: IP) returns (less: bool)
    ensures less == Less(ip1, ip2)
  {
    var ni, nj := |ip1|, |ip2|;
    if ni < nj {
      return true;
    } else if ni > nj {
      return false;
    }
    for k := 0 to ni
      invariant LexLess(ip1, ip2) == LexLess(ip1[k..], ip2[k..])
    {
      assert ip1[k..][1..] == ip1[k + 1..] && ip2[k..][1..] == ip2[k + 1..];
      if ip1[k] < ip2[k] {
        return true;
      } else if ip1[k] > ip2[k] {
        return false;
      }
    }
    return false;
  }

  lemma {:induction false} LexLessIrreflexive(a: IP)
    ensures !LexLess(a, a)
  {
    if |a| > 0 {
      LexLessIrreflexive(a[1..]);
    }
  }

  lemma {:induction false} LexLessAsymmetric(a: IP, b: IP)
    requires |a| == |b| && LexLess(a, b)
    ensures !LexLess(b, a)
  {
    if a[0] == b[0] {
      LexLessAsymmetric(a[1..], b[1..]);
    }
  }

  lemma {:induction false} LexLessTransitive(a: IP, b: IP, c: IP)
    requires |a| == |b| == |c| && LexLess(a, b) && LexLess(b, c)
    ensures LexLess(a, c)
  {
    if a[0] == b[0] == c[0] {
      LexLessTransitive(a[1..], b[1..], c[1..]);
    }
  }

  lemma {:induction false} LexLessTotal(a: IP, b: IP)
    requires |a| == |b| && a != b
    ensures LexLess(a, b) || LexLess(b, a)
  {
    if a[0] == b[0] {
      assert a == [a[0]] + a[1..] && b == [b[0]] + b[1..];
      LexLessTotal(a[1..], b[1..]);
    }
  }

  /** For slices of one length, the first byte where they differ decides `compare`. */
  lemma {:induction false} FirstDifferenceDecides(a: IP, b: IP, i: nat)
    requires |a| == |b| && i < |a| && a[..i] == b[..i] && a[i] != b[i]
    ensures Less(a, b) <==> a[i] < b[i]
  {
    if i > 0 {
      assert a[0] == a[..i][0] == b[..i][0] == b[0];
      assert a[1..][..i - 1] == a[..i][1..] == b[..i][1..] == b[1..][..i - 1];
      FirstDifferenceDecides(a[1..], b[1..], i - 1);
    }
  }

  /**
   * `compare` is a strict total order: never true of equal slices, true in
   * at most one direction, true in exactly one direction for distinct
   * slices, and transitive.
   */
  lemma CompareIsStrictTotalOrder(a: IP, b: IP, c: IP)
    ensures !Less(a, a)
    ensures Less(a, b) ==> !Less(b, a)
    ensures a != b ==> Less(a, b) || Less(b, a)
    ensures Less(a, b) && Less(b, c) ==> Less(a, c)
  {
    LexLessIrreflexive(a);
    if |a| == |b| {
      if LexLess(a, b) {
        LexLessAsymmetric(a, b);
      }
      if a != b {
        LexLessTotal(a, b);
      }
      if |b| == |c| && LexLess(a, b) && LexLess(b, c) {
        LexLessTransitive(a, b, c);
      }
    }
  }

  /** "Not after" is transitive: if `a` is not before `b` nor `b` before `c`, `a` is not before `c`. */
  lemma NotLessTransitive(a: IP, b: IP, c: IP)
    requires !Less(a, b) && !Less(b, c)
    ensures !Less(a, c)
  {
    CompareIsStrictTotalOrder(a, c, b);
    CompareIsStrictTotalOrder(b, c, a);
  }

  /** `s` ordered by `compare` on the key of each element; elements with equal keys may come in any order. */
  ghost predicate SortedBy<T>(s: seq<T>, key: T -> IP)
  {
    forall i, j :: 0 <= i < j < |s| ==> !Less(key(s[j]), key(s[i]))
  }

  /** Inserting `x` after every element not after it and before every element after it keeps `r` sorted. */
  lemma InsertKeepsSorted<T>(r: seq<T>, j: nat, x: T, key: T -> IP)
    requires j <= |r| && SortedBy(r, key)
    requires j > 0 ==> !Less(key(x), key(r[j - 1]))
    requires forall k :: j <= k < |r| ==> Less(key(x), key(r[k]))
    ensures SortedBy(r[..j] + [x] + r[j..], key)
  {
    var r' := r[..j] + [x] + r[j..];
    forall p, q | 0 <= p < q < |r'|
      ensures !Less(key(r'[q]), key(r'[p]))
    {
      if q < j {
        assert r'[p] == r[p] && r'[q] == r[q];
      } else if q == j {
        assert r'[p] == r[p];
        if p < j - 1 {
          NotLessTransitive(key(x), key(r[j - 1]), key(r[p]));
        }
      } else if p == j {
        assert r'[q] == r[q - 1];
        CompareIsStrictTotalOrder(key(x), key(r[q - 1]), key(x));
      } else if p < j {
        assert r'[p] == r[p] && r'[q] == r[q - 1];
      } else {
        assert r'[p] == r[p - 1] && r'[q] == r[q - 1];
      }
    }
  }

  /** Inserting `x` at `j` adds one `x` to the elements of `r`. */
  lemma InsertAddsOne<T>(r: seq<T>, j: nat, x: T)
    requires j <= |r|
    ensures multiset(r[..j] + [x] + r[j..]) == multiset(r) + multiset{x}
  {
    assert r == r[..j] + r[j..];
  }

  /**
   * Where `x` goes in `r`: scanning back from the end past every element
   * that `compare` puts after `x`.
   */
  method InsertionPoint<T>(r: seq<T>, x: T, key: T -> IP) returns (j: nat)
    ensures j <= |r|
    ensures j > 0 ==> !Less(key(x), key(r[j - 1]))
    ensures forall k :: j <= k < |r| ==> Less(key(x), key(r[k]))
  {
    j := |r|;
    while j > 0
      invariant 0 <= j <= |r|
      invariant forall k :: j <= k < |r| ==> Less(key(x), key(r[k]))
    {
      var lt := Compare(key(x), key(r[j - 1]));
      if !lt {
        return;
      }
      j := j - 1;
    }
  }

  /**
   * Sorts `s` by `compare` on `key`, as `sort.Slice` does in `List.sort`:
   * the result is a permutation of `s` in which no element comes after one
   * that `compare` puts after it. (An insertion sort stands in for the
   * library's algorithm.)
   */
  method SortBy<T>(s: seq<T>, key: T -> IP) returns (r: seq<T>)
    ensures multiset(r) == multiset(s)
    ensures SortedBy(r, key)
  {
    r := [];
    for i := 0 to |s|
      invariant multiset(r) == multiset(s[..i])
      invariant SortedBy(r, key)
    {
      var j := InsertionPoint(r, s[i], key);
      InsertKeepsSorted(r, j, s[i], key);
      InsertAddsOne(r, j, s[i]);
      assert s[..i + 1] == s[..i] + [s[i]];
      r := r[..j] + [s[i]] + r[j..];
    }
    assert s[..|s|] == s;
  }
}
