/** The bytes of a file, seen through its cluster chain. */
module FileContents {
  import opened FatTypes
  import opened Chains

  /** Where clusters lie in the data region: cluster 2 begins at `base`, each has `size` bytes. */
  datatype Area = Area(base: nat, size: nat, maxCluster: nat)

  ghost predicate Fits(a: Area, contents: seq<Byte>) {
    0 < a.size && a.base + a.maxCluster * a.size <= |contents|
  }

  ghost predicate InArea(a: Area, path: seq<nat>) {
    forall i :: 0 <= i < |path| ==> 2 <= path[i] <= a.maxCluster + 1
  }

  /** The place in the data region of byte `o` of cluster `c`. */
  ghost function ClusterOffset(a: Area, c: nat, o: nat): nat
    requires 2 <= c
  {
    a.base + (c - 2) * a.size + o
  }

  /** The place in the data region of byte `p` of the file. */
  ghost function Offset(a: Area, path: seq<nat>, p: nat): nat
    requires InArea(a, path) && 0 < a.size && p / a.size < |path|
  {
    ClusterOffset(a, path[p / a.size], p % a.size)
  }

  lemma OffsetInside(a: Area, contents: seq<Byte>, c: nat, o: nat)
    requires Fits(a, contents) && 2 <= c <= a.maxCluster + 1 && o < a.size
    ensures ClusterOffset(a, c, o) < |contents|
  {
    PagesDisjoint(c - 2, a.maxCluster, a.size);
  }

  /** Byte `p` of the file lies at place `q` of the data region. */
  ghost predicate At(a: Area, path: seq<nat>, p: nat, q: nat) {
    0 < a.size && InArea(a, path) && p / a.size < |path| && q == Offset(a, path, p)
  }

  /** Byte `p` of the file. */
  ghost function FileByte(a: Area, contents: seq<Byte>, path: seq<nat>, p: nat): Byte
    requires Fits(a, contents) && InArea(a, path) && p < |path| * a.size
  {
    InPages(a.size, |path|, p);
    OffsetInside(a, contents, path[p / a.size], p % a.size);
    contents[Offset(a, path, p)]
  }

  lemma ByteAt(a: Area, contents: seq<Byte>, path: seq<nat>, p: nat, q: nat)
    requires Fits(a, contents) && At(a, path, p, q) && p < |path| * a.size
    ensures q < |contents| && FileByte(a, contents, path, p) == contents[q]
  {
    OffsetInside(a, contents, path[p / a.size], p % a.size);
  }

  /** All the bytes that the clusters of `path` hold. */
  ghost function FileBytes(a: Area, contents: seq<Byte>, path: seq<nat>): (bytes: seq<Byte>)
    requires Fits(a, contents) && InArea(a, path)
    ensures |bytes| == |path| * a.size
    ensures forall p :: 0 <= p < |path| * a.size ==> bytes[p] == FileByte(a, contents, path, p)
  {
    seq(|path| * a.size, p requires 0 <= p < |path| * a.size => FileByte(a, contents, path, p))
  }

  lemma ClustersApart(a: Area, c: nat, o: nat, c': nat, o': nat)
    requires 2 <= c && 2 <= c' && o < a.size && o' < a.size && c != c'
    ensures ClusterOffset(a, c, o) != ClusterOffset(a, c', o')
  {
    if c < c' { PagesDisjoint(c - 2, c' - 2, a.size); } else { PagesDisjoint(c' - 2, c - 2, a.size); }
  }

  /** Different bytes of a file whose clusters are distinct lie at different places. */
  lemma PlacesDiffer(a: Area, path: seq<nat>, p: nat, p': nat, q: nat)
    requires Distinct(path) && At(a, path, p, q) && At(a, path, p', q)
    ensures p == p'
  {
    hide At, ClusterOffset, Distinct, InArea;
    var c, o := ClusterAt(a, path, p, q);
    var c', o' := ClusterAt(a, path, p', q);
    if c != c' {
      ClustersApart(a, c, o, c', o');
    } else {
      SameCluster(a, c, o, o');
      SameIndex(path, p / a.size, p' / a.size);
      SameSplit(p, p', a.size);
    }
  }

  /** The cluster that a byte of the file lies in, and its place there. */
  lemma ClusterAt(a: Area, path: seq<nat>, p: nat, q: nat) returns (c: nat, o: nat)
    requires At(a, path, p, q)
    ensures 0 < a.size && p / a.size < |path| && c == path[p / a.size] && o == p % a.size < a.size
    ensures 2 <= c && q == ClusterOffset(a, c, o)
  {
    c, o := path[p / a.size], p % a.size;
  }

  lemma SameSplit(p: nat, p': nat, n: nat)
    requires 0 < n && p / n == p' / n && p % n == p' % n
    ensures p == p'
  {
    PageSplit(p, n);
    PageSplit(p', n);
  }

  lemma SameCluster(a: Area, c: nat, o: nat, o': nat)
    requires 2 <= c && ClusterOffset(a, c, o) == ClusterOffset(a, c, o')
    ensures o == o'
  {}

  lemma SameIndex(path: seq<nat>, i: nat, j: nat)
    requires Distinct(path) && i < |path| && j < |path| && path[i] == path[j]
    ensures i == j
  {}

  /** Bytes of files that share no cluster lie at different places. */
  lemma FilesApart(a: Area, path: seq<nat>, p: nat, other: seq<nat>, p': nat, q: nat)
    requires At(a, path, p, q) && forall c :: c in other ==> c !in path
    ensures !At(a, other, p', q)
  {
    if InArea(a, other) && p' / a.size < |other| {
      var c, c' := path[p / a.size], other[p' / a.size];
      assert c in path && c' in other;
      ClustersApart(a, c, p % a.size, c', p' % a.size);
    }
  }

  /** The bytes of the file from `position` on, `length` of them, lie in one piece that begins at `q`. */
  ghost predicate OnePiece(a: Area, path: seq<nat>, position: nat, length: nat, q: nat) {
    && InArea(a, path) && position + length <= |path| * a.size
    && forall p :: position <= p < position + length ==> Placed(a, path, position, q, p)
  }

  ghost predicate Placed(a: Area, path: seq<nat>, position: nat, q: nat, p: nat)
    requires position <= p
  {
    At(a, path, p, q + (p - position))
  }

  lemma PieceAt(a: Area, path: seq<nat>, position: nat, length: nat, q: nat, p: nat)
    requires OnePiece(a, path, position, length, q) && position <= p < position + length
    ensures At(a, path, p, q + (p - position))
  {
    assert Placed(a, path, position, q, p);
  }

  lemma PieceInside(a: Area, contents: seq<Byte>, path: seq<nat>, position: nat, length: nat, q: nat)
    requires Fits(a, contents) && OnePiece(a, path, position, length, q) && 0 < length
    ensures q + length <= |contents|
  {
    PieceAt(a, path, position, length, q, position + length - 1);
    ByteAt(a, contents, path, position + length - 1, q + length - 1);
  }

  /** Reading a piece reads that part of the file. */
  lemma ReadPiece(a: Area, contents: seq<Byte>, path: seq<nat>, position: nat, length: nat, q: nat)
    requires Fits(a, contents) && OnePiece(a, path, position, length, q) && 0 < length
    ensures q + length <= |contents|
    ensures contents[q..q + length] == FileBytes(a, contents, path)[position..position + length]
  {
    PieceInside(a, contents, path, position, length, q);
    hide At, FileByte, OnePiece, Fits;
    forall p | position <= p < position + length
      ensures contents[q + (p - position)] == FileBytes(a, contents, path)[p]
    {
      PieceAt(a, path, position, length, q, p);
      ByteAt(a, contents, path, p, q + (p - position));
    }
  }

  lemma FileByteAt(a: Area, path: seq<nat>, p: nat) returns (q: nat)
    requires 0 < a.size && InArea(a, path) && p < |path| * a.size
    ensures At(a, path, p, q)
  {
    InPages(a.size, |path|, p);
    q := Offset(a, path, p);
  }

  /** Writing a piece writes that part of the file, and nothing else of it. */
  lemma WritePiece(a: Area, contents: seq<Byte>, path: seq<nat>, position: nat, data: seq<Byte>, q: nat)
    requires Fits(a, contents) && OnePiece(a, path, position, |data|, q) && 0 < |data| && Distinct(path)
    ensures q + |data| <= |contents|
    ensures FileBytes(a, Splice(contents, q, data), path) == Splice(FileBytes(a, contents, path), position, data)
  {
    PieceInside(a, contents, path, position, |data|, q);
    var contents' := Splice(contents, q, data);
    hide At, FileByte, OnePiece, Fits;
    forall p | 0 <= p < |path| * a.size
      ensures FileByte(a, contents', path, p) ==
        if position <= p < position + |data| then data[p - position] else FileByte(a, contents, path, p)
    {
      var place := FileByteAt(a, path, p);
      ByteAt(a, contents, path, p, place);
      ByteAt(a, contents', path, p, place);
      if position <= p < position + |data| {
        PieceAt(a, path, position, |data|, q, p);
        SamePlace(a, path, p, place, q + (p - position));
      } else if q <= place < q + |data| {
        PieceAt(a, path, position, |data|, q, position + (place - q));
        PlacesDiffer(a, path, p, position + (place - q), place);
      }
    }
  }

  lemma SamePlace(a: Area, path: seq<nat>, p: nat, q: nat, q': nat)
    requires At(a, path, p, q) && At(a, path, p, q')
    ensures q == q'
  {}

  /** Writing a piece of one file leaves the bytes of a file with other clusters alone. */
  lemma WriteElsewhere(a: Area, contents: seq<Byte>, path: seq<nat>, position: nat, data: seq<Byte>, q: nat,
                       other: seq<nat>)
    requires Fits(a, contents) && OnePiece(a, path, position, |data|, q) && 0 < |data| && InArea(a, other)
    requires forall c :: c in other ==> c !in path
    ensures q + |data| <= |contents|
    ensures FileBytes(a, Splice(contents, q, data), other) == FileBytes(a, contents, other)
  {
    PieceInside(a, contents, path, position, |data|, q);
    var contents' := Splice(contents, q, data);
    hide At, FileByte, OnePiece, Fits;
    forall p | 0 <= p < |other| * a.size
      ensures FileByte(a, contents', other, p) == FileByte(a, contents, other, p)
    {
      var place := FileByteAt(a, other, p);
      ByteAt(a, contents, other, p, place);
      ByteAt(a, contents', other, p, place);
      if q <= place < q + |data| {
        PieceAt(a, path, position, |data|, q, position + (place - q));
        FilesApart(a, path, position + (place - q), other, p, place);
      }
    }
  }

  /** The byte of one chain in the place of a byte of another one that has the same cluster. */
  lemma PlaceInOther(a: Area, path: seq<nat>, other: seq<nat>, p: nat, m: nat)
    requires 0 < a.size && InArea(a, path) && InArea(a, other) && p < |path| * a.size && m < |other|
    requires p / a.size < |path| && other[m] == path[p / a.size]
    ensures m * a.size + p % a.size < |other| * a.size
    ensures At(a, path, p, Offset(a, path, p)) && At(a, other, m * a.size + p % a.size, Offset(a, path, p))
  {
    DivModOf(m, p % a.size, a.size);
    MulLe(m + 1, |other|, a.size);
    MulAdd(m, 1, a.size);
  }

  /** A file whose clusters all belong to a chain that kept its bytes has kept its own. */
  lemma KeptWithin(a: Area, before: seq<Byte>, after: seq<Byte>, other: seq<nat>, path: seq<nat>)
    requires Fits(a, before) && Fits(a, after) && InArea(a, other)
      && FileBytes(a, before, other) == FileBytes(a, after, other)
    requires forall c :: c in path ==> c in other
    ensures InArea(a, path) && FileBytes(a, before, path) == FileBytes(a, after, path)
  {
    assert forall i :: 0 <= i < |path| ==> path[i] in other;
    forall p | 0 <= p < |path| * a.size
      ensures FileByte(a, before, path, p) == FileByte(a, after, path, p)
    {
      InPages(a.size, |path|, p);
      var m :| 0 <= m < |other| && other[m] == path[p / a.size];
      PlaceInOther(a, path, other, p, m);
      hide At, FileByte, Offset;
      var q, place := m * a.size + p % a.size, Offset(a, path, p);
      ByteAt(a, before, path, p, place);
      ByteAt(a, after, path, p, place);
      ByteAt(a, before, other, q, place);
      ByteAt(a, after, other, q, place);
      assert FileBytes(a, before, other)[q] == FileBytes(a, after, other)[q];
    }
  }

  /** A run of consecutive clusters holds its part of the file in one piece. */
  lemma RunIsPiece(a: Area, path: seq<nat>, position: nat, length: nat, n: nat, m: nat)
    requires 0 < a.size && InArea(a, path) && n == position / a.size && 0 < m && n + m <= |path|
    requires forall j :: n <= j < n + m ==> path[j] == path[n] + (j - n)
    requires position % a.size + length <= m * a.size
    ensures OnePiece(a, path, position, length, Offset(a, path, position))
  {
    PageSplit(position, a.size);
    MulLe(n + m, |path|, a.size);
    MulAdd(n, m, a.size);
    forall p | position <= p < position + length
      ensures Placed(a, path, position, Offset(a, path, position), p)
    {
      PlaceInRun(a, path, position, p - position, n, m);
    }
  }

  lemma PlaceInRun(a: Area, path: seq<nat>, position: nat, d: nat, n: nat, m: nat)
    requires 0 < a.size && InArea(a, path) && n == position / a.size && n + m <= |path| && 0 < m
    requires forall j :: n <= j < n + m ==> path[j] == path[n] + (j - n)
    requires position % a.size + d < m * a.size
    ensures At(a, path, position + d, Offset(a, path, position) + d)
  {
    var size, o := a.size, position % a.size;
    var t, r := (o + d) / size, (o + d) % size;
    PageSplit(position, size);
    PageSplit(o + d, size);
    InPages(size, m, o + d);
    MulAdd(n, t, size);
    assert position + d == (n + t) * size + r;
    DivModOf(n + t, r, size);
    assert path[n + t] == path[n] + t;
    MulAdd(path[n] - 2, t, size);
  }
}
