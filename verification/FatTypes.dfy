/** Status codes, constants and small arithmetic shared by every component. */
module FatTypes {
  type Byte = b: nat | b < 256

  datatype Status = Success | VolumeCorrupted | VolumeFull | Unsupported | DeviceError

  datatype FatType = Fat12 | Fat16 | Fat32

  /** `s` with `bytes` written over the range that starts at `at`. */
  function Splice<T>(s: seq<T>, at: nat, bytes: seq<T>): (r: seq<T>)
    requires at + |bytes| <= |s|
    ensures |r| == |s|
    ensures forall i :: 0 <= i < |s| ==> r[i] == if at <= i < at + |bytes| then bytes[i - at] else s[i]
  {
    s[..at] + bytes + s[at + |bytes|..]
  }

  /** A slice that the written range misses, and one that it lies in. */
  lemma SliceOfSplice<T>(s: seq<T>, at: nat, bytes: seq<T>, lo: nat, hi: nat)
    requires at + |bytes| <= |s| && lo <= hi <= |s|
    ensures at + |bytes| <= lo || hi <= at ==> Splice(s, at, bytes)[lo..hi] == s[lo..hi]
    ensures lo <= at && at + |bytes| <= hi ==> Splice(s, at, bytes)[lo..hi] == Splice(s[lo..hi], at - lo, bytes)
  {}

  lemma SliceInsideSplice<T>(s: seq<T>, at: nat, bytes: seq<T>, lo: nat, hi: nat)
    requires at + |bytes| <= |s| && at <= lo <= hi <= at + |bytes|
    ensures Splice(s, at, bytes)[lo..hi] == bytes[lo - at..hi - at]
  {}

  lemma SliceOfSlice<T>(s: seq<T>, lo: nat, hi: nat, a: nat, b: nat)
    requires lo <= hi <= |s| && a <= b <= hi - lo
    ensures s[lo..hi][a..b] == s[lo + a..lo + b]
  {
    var inner := s[lo..hi];
    forall i | 0 <= i < b - a
      ensures inner[a..b][i] == s[lo + a..lo + b][i]
    {
      assert inner[a + i] == s[lo + (a + i)];
    }
  }

  /** Two adjacent slices make one. */
  lemma JoinSlices<T>(s: seq<T>, a: nat, b: nat, c: nat)
    requires a <= b <= c <= |s|
    ensures s[a..b] + s[b..c] == s[a..c]
  {}

  /** Writing two adjacent ranges is one write. */
  lemma JoinSplices<T>(s: seq<T>, at: nat, b1: seq<T>, b2: seq<T>)
    requires at + |b1| + |b2| <= |s|
    ensures Splice(Splice(s, at, b1), at + |b1|, b2) == Splice(s, at, b1 + b2)
  {}

  lemma {:induction false} DivModOf(p: nat, o: nat, n: nat)
    requires o < n
    ensures (p * n + o) / n == p && (p * n + o) % n == o
  {
    if p > 0 {
      DivModOf(p - 1, o, n);
      assert p * n + o == ((p - 1) * n + o) + n;
      DivAddOne((p - 1) * n + o, n);
    }
  }

  lemma DivAddOne(x: nat, n: nat)
    requires n > 0
    ensures (x + n) / n == x / n + 1 && (x + n) % n == x % n
  {
    var q, r := x / n, x % n;
    assert x + n == (q + 1) * n + r;
    DivUnique(x + n, q + 1, r, n);
  }

  lemma DivUnique(x: nat, q: nat, r: nat, n: nat)
    requires r < n && x == q * n + r
    ensures x / n == q && x % n == r
  {
    var q', r' := x / n, x % n;
    assert x == q' * n + r';
    if q < q' {
      MulLe(q + 1, q', n);
      assert false;
    } else if q' < q {
      MulLe(q' + 1, q, n);
      assert false;
    }
  }

  lemma MulLe(a: nat, b: nat, n: nat)
    requires a <= b
    ensures a * n <= b * n
  {}

  lemma MulAdd(a: nat, b: nat, n: nat)
    ensures (a + b) * n == a * n + b * n
  {}

  /** Splitting a position into its page and its offset inside the page. */
  lemma PageSplit(q: nat, n: nat)
    requires n > 0
    ensures q == (q / n) * n + q % n && q % n < n
  {}

  lemma InPages(size: nat, count: nat, q: nat)
    requires 0 < size && q < count * size
    ensures q / size < count
  {
    PageSplit(q, size);
    if count <= q / size { MulLe(count, q / size, size); }
  }

  /** Distinct pages cover disjoint ranges. */
  lemma PagesDisjoint(p: nat, p': nat, n: nat)
    requires p < p'
    ensures p * n + n <= p' * n
  {
    MulLe(p + 1, p', n);
  }
}
