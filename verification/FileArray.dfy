/** What seeking, growing and cutting a file do to its bytes, to other files, and to the free clusters. */
module FileArray {
  import opened FatTypes
  import opened FatEntry
  import opened VolumeState
  import opened FreeSpace
  import opened Chains
  import opened Growth
  import opened FileSpace
  import opened FilePosition
  import opened FileContents
  import opened FileRuns

  // ---------------------------------------------------------------- bytes of chains

  /** The bytes of the first clusters are the first bytes. */
  lemma PrefixBytes(a: Area, contents: seq<Byte>, path: seq<nat>, n: nat)
    requires Fits(a, contents) && InArea(a, path) && n <= |path|
    ensures InArea(a, path[..n]) && n * a.size <= |path| * a.size
    ensures FileBytes(a, contents, path[..n]) == FileBytes(a, contents, path)[..n * a.size]
  {
    MulLe(n, |path|, a.size);
    forall p | 0 <= p < n * a.size
      ensures FileByte(a, contents, path[..n], p) == FileByte(a, contents, path, p)
    {
      InPages(a.size, n, p);
    }
  }

  /** The first `n` bytes of two chains are the same when one chain begins with the other. */
  lemma SameStart(a: Area, contents: seq<Byte>, path: seq<nat>, path': seq<nat>, n: nat)
    requires Fits(a, contents) && InArea(a, path) && path' <= path && n <= |path'| * a.size
    ensures InArea(a, path') && |path'| * a.size <= |path| * a.size
    ensures FileBytes(a, contents, path')[..n] == FileBytes(a, contents, path)[..n]
  {
    assert path' == path[..|path'|];
    PrefixBytes(a, contents, path, |path'|);
  }

  // ---------------------------------------------------------------- the byte array

  /** Every byte of the file's size lies in one of its clusters. */
  ghost predicate Held(size: nat, s: FileState) {
    s.fileSize <= |s.path| * size
  }

  ghost predicate InVolume(a: Area, s: FileState) {
    0 < a.size && InArea(a, s.path) && Held(a.size, s)
  }

  /** The bytes of the file. */
  ghost function Content(a: Area, contents: seq<Byte>, s: FileState): (bytes: seq<Byte>)
    requires Fits(a, contents) && InVolume(a, s)
    ensures |bytes| == s.fileSize
  {
    FileBytes(a, contents, s.path)[..s.fileSize]
  }

  /** A size is held by `m` clusters exactly when it needs no more than `m` clusters. */
  lemma NeedsAtMost(v: Volume, size: nat, m: nat)
    requires 0 < v.clusterSize
    ensures size <= m * v.clusterSize <==> FatSizeToClusters(v, size) <= m
  {
    var k := FatSizeToClusters(v, size);
    SizeToClustersIsCeiling(v, size);
    if k <= m {
      MulLe(k, m, v.clusterSize);
    } else {
      PagesDisjoint(m, k, v.clusterSize);
    }
  }

  /** The clusters of the FAT are those of the volume. */
  ghost predicate ClustersOf(a: Area, fat: map<nat, nat>) {
    forall c :: c in fat ==> 2 <= c <= a.maxCluster + 1
  }

  lemma ChainInArea(a: Area, fat: map<nat, nat>, first: nat, path: seq<nat>)
    requires ClustersOf(a, fat) && Chain(fat, first, path)
    ensures InArea(a, path)
  {
    forall i | 0 <= i < |path|
      ensures 2 <= path[i] <= a.maxCluster + 1
    {
      assert path[i] in path;
    }
  }

  /** Cutting a file to a size that is not larger keeps its first bytes. */
  lemma TruncatedArray(v: Volume, a: Area, contents: seq<Byte>, s: FileState, newSize: nat, status: Status,
                       s': FileState)
    requires Ready(v.clusterSize, s) && a.size == v.clusterSize && Fits(a, contents) && InVolume(a, s)
    requires TruncateStep(v, s, newSize, status, s') && newSize <= s.fileSize
    ensures status == Success && InVolume(a, s')
    ensures Content(a, contents, s') == Content(a, contents, s)[..newSize]
  {
    var n := FatSizeToClusters(v, newSize);
    NeedsAtMost(v, newSize, n);
    NeedsAtMost(v, newSize, |s.path|);
    hide FatSizeToClusters, AnyCursor, FileBytes;
    TruncateKeeps(v, s, newSize, status, s');
    PrefixBytes(a, contents, s.path, n);
    SameStart(a, contents, s.path, s.path[..n], newSize);
  }

  /**
   * The growth that the driver reports as done although a cluster is missing: the file needs one cluster more than
   * are free.
   */
  ghost predicate Short(v: Volume, s: FileState, newSize: nat)
    requires 0 < v.clusterSize
  {
    var cur, free := FatSizeToClusters(v, s.fileSize), |FreeClusters(s.fat)|;
    newSize <= 0xFFFF_FFFF && |s.path| == cur && 0 < free && FatSizeToClusters(v, newSize) == cur + free + 1
  }

  ghost predicate SamePrefix(c: seq<Byte>, c': seq<Byte>) {
    forall i :: 0 <= i < |c| && i < |c'| ==> c'[i] == c[i]
  }

  /** The chain that a growth leaves, for a file whose chain is not shorter than its size asks for. */
  lemma GrownPath(v: Volume, s: FileState, newSize: nat, added: seq<nat>, status: Status, s': FileState)
    requires Ready(v.clusterSize, s) && GrowStep(v, s, newSize, added, status, s')
    requires FatSizeToClusters(v, s.fileSize) <= |s.path|
    ensures s'.fileSize == if status == Success then newSize else s.fileSize
    ensures status == Success ==> s.path <= s'.path
    ensures status == Success ==> (FatSizeToClusters(v, newSize) <= |s'.path| <==> !Short(v, s, newSize))
    ensures Short(v, s, newSize) ==> status == Success
    ensures status != Success ==> s'.path <= s.path && FatSizeToClusters(v, s.fileSize) <= |s'.path|
  {
    hide FatSizeToClusters, AnyCursor, Shrunk, Extension, Grown, LegalLinks, Chain, FreeClusters, PlaceGrown, CutBack;
    if newSize <= 0xFFFF_FFFF && status != Success {
      var cur := FatSizeToClusters(v, s.fileSize);
      assert (s.path + added)[..cur] == s.path[..cur];
    }
  }

  /** Growing keeps the first bytes of the file, and all of them when it fails. */
  lemma GrownBytes(a: Area, contents: seq<Byte>, s: FileState, s': FileState)
    requires Fits(a, contents) && InVolume(a, s) && InVolume(a, s')
    requires s.path <= s'.path || s'.path <= s.path
    ensures SamePrefix(Content(a, contents, s), Content(a, contents, s'))
    ensures s'.fileSize == s.fileSize ==> Content(a, contents, s') == Content(a, contents, s)
  {
    var n := if s.fileSize < s'.fileSize then s.fileSize else s'.fileSize;
    if s.path <= s'.path {
      SameStart(a, contents, s'.path, s.path, n);
    } else {
      SameStart(a, contents, s.path, s'.path, n);
    }
    hide FileBytes, FileByte, InArea, Fits;
    var c, c' := Content(a, contents, s), Content(a, contents, s');
    assert c[..n] == FileBytes(a, contents, s.path)[..n] && c'[..n] == FileBytes(a, contents, s'.path)[..n];
    forall i | 0 <= i < n
      ensures c'[i] == c[i]
    {
      assert c'[i] == c'[..n][i] && c[i] == c[..n][i];
    }
  }

  /**
   * Growing keeps the bytes of the file, and changes none when it fails.  The bytes that it adds have clusters exactly
   * when the growth was not short.
   */
  lemma GrownArray(v: Volume, a: Area, contents: seq<Byte>, s: FileState, newSize: nat, added: seq<nat>,
                   status: Status, s': FileState)
    requires Ready(v.clusterSize, s) && a.size == v.clusterSize && Fits(a, contents) && InVolume(a, s)
    requires GrowStep(v, s, newSize, added, status, s') && InArea(a, s'.path)
    ensures s'.fileSize == if status == Success then newSize else s.fileSize
    ensures InVolume(a, s') <==> !Short(v, s, newSize)
    ensures InVolume(a, s') ==> SamePrefix(Content(a, contents, s), Content(a, contents, s'))
    ensures status != Success ==> InVolume(a, s') && Content(a, contents, s') == Content(a, contents, s)
  {
    NeedsAtMost(v, s.fileSize, |s.path|);
    NeedsAtMost(v, s.fileSize, |s'.path|);
    NeedsAtMost(v, newSize, |s'.path|);
    GrownPath(v, s, newSize, added, status, s');
    hide Ready, GrowStep, FatSizeToClusters, FreeClusters, SamePrefix, Content;
    if Held(a.size, s') { GrownBytes(a, contents, s, s'); }
  }

  // ---------------------------------------------------------------- other files

  /** `other` is the chain of another file: it shares no cluster with `path`. */
  ghost predicate Apart(fat: map<nat, nat>, path: seq<nat>, first: nat, other: seq<nat>) {
    Chain(fat, first, other) && forall c :: c in other ==> c !in path
  }

  lemma ShrunkApart(fat0: map<nat, nat>, place0: Place, path: seq<nat>, n: nat, fat: map<nat, nat>, place: Place,
                    status: Status,
                    first: nat, other: seq<nat>)
    requires (forall c :: c in path ==> c in fat0) && Shrunk(fat0, place0, path, n, fat, place, status)
    requires Apart(fat0, path, first, other)
    ensures Apart(fat, PathAfter(n, path), first, other)
  {
    if n <= |path| {
      TruncatedKeepsOthers(fat0, path, n, first, other);
      hide Truncated;
      assert forall c :: c in path[..n] ==> c in path;
    }
  }

  /** The clusters of a chain are not free. */
  lemma ChainIsUsed(fat: map<nat, nat>, first: nat, path: seq<nat>)
    requires LegalLinks(fat) && Chain(fat, first, path)
    ensures forall c :: c in path ==> c !in FreeClusters(fat)
  {
    forall i | 0 <= i < |path|
      ensures path[i] !in FreeClusters(fat)
    {
      InWalk(fat, first, path, i);
      if i < |path| - 1 { WalkIsUsed(fat, first, path, i); }
    }
  }

  lemma GrownApart(fat0: map<nat, nat>, first0: nat, path: seq<nat>, added: seq<nat>, first: nat, other: seq<nat>)
    requires Chain(fat0, first0, path) && Extension(fat0, LastOf(CLUSTER_FREE, path), added)
    requires Apart(fat0, path, first, other)
    ensures Apart(Grown(fat0, LastOf(CLUSTER_FREE, path), added), path + added, first, other)
  {
    GrownKeepsOthers(fat0, first0, path, added, first, other);
    ChainIsUsed(fat0, first, other);
    hide Grown, Chain, LegalLinks, Distinct;
  }

  lemma GrowApart(v: Volume, s: FileState, newSize: nat, added: seq<nat>, status: Status, s': FileState, first: nat,
                  other: seq<nat>)
    requires Ready(v.clusterSize, s) && GrowStep(v, s, newSize, added, status, s')
    requires Apart(s.fat, s.path, first, other)
    ensures Apart(s'.fat, s'.path, first, other)
  {
    var cur := FatSizeToClusters(v, s.fileSize);
    hide FatSizeToClusters, LegalLinks, AnyCursor, Chain, Extension, Grown, Shrunk, PlaceGrown, LastOf;
    if newSize <= 0xFFFF_FFFF && cur < FatSizeToClusters(v, newSize) {
      if added == [] && status == VolumeCorrupted {
        var place := s.place.(last := LastOf(CLUSTER_FREE, s.path));
        var r :| Shrunk(s.fat, place, s.path, cur, s'.fat, s'.place, r);
        ShrunkApart(s.fat, place, s.path, cur, s'.fat, s'.place, r, first, other);
        assert s.path + added == s.path;
      } else {
        GrownApart(s.fat, s.place.first, s.path, added, first, other);
        if status != Success {
          var r :| CutBack(s.fat, s.place, s.path, cur, added, s'.fat, s'.place, r);
          ShrunkApart(Grown(s.fat, LastOf(CLUSTER_FREE, s.path), added), PlaceGrown(s.place, s.path, added),
                      s.path + added, cur, s'.fat, s'.place, r, first, other);
        }
      }
    } else {
      assert s.path + [] == s.path;
    }
  }

  /** No call on one file touches the chain of another. */
  lemma StepApart(v: Volume, s: FileState, op: FileOp, added: seq<nat>, status: Status, s': FileState, first: nat,
                  other: seq<nat>)
    requires Ready(v.clusterSize, s) && Step(v, s, op, added, status, s') && Apart(s.fat, s.path, first, other)
    ensures Apart(s'.fat, s'.path, first, other)
  {
    match op
    case Seek(_, _) =>
    case Grow(newSize) =>
      GrowApart(v, s, newSize, added, status, s', first, other);
    case Truncate(newSize) =>
      ShrunkApart(s.fat, s.place, s.path, FatSizeToClusters(v, newSize), s'.fat, s'.place, status, first, other);
  }

  /**
   * What a short growth leads to: the file's size says that there is a byte behind its last cluster, and a seek to that
   * byte succeeds, but stands on no cluster.
   */
  lemma ShortThenBehind(v: Volume, s: FileState, newSize: nat, added: seq<nat>, status: Status, s': FileState,
                        to: nat, status': Status, s'': FileState)
    requires Ready(v.clusterSize, s) && Good(v.clusterSize, s) && Held(v.clusterSize, s) && Short(v, s, newSize)
    requires GrowStep(v, s, newSize, added, status, s') && to == |s'.path| * v.clusterSize
    requires (forall c :: c in s'.path ==> c in s'.fat) && SeekStep(v.clusterSize, s', to, status', s'')
    ensures status == Success && to < s'.fileSize
    ensures status' == Success && !Good(v.clusterSize, s'')
  {
    NeedsAtMost(v, s.fileSize, |s.path|);
    NeedsAtMost(v, newSize, |s'.path|);
    GrownPath(v, s, newSize, added, status, s');
    GrowKeeps(v, s, newSize, added, status, s');
    ShortHasClusters(v, s, newSize, added, status, s');
    hide Ready, Good, GrowStep, SeekStep, FatSizeToClusters, Short, FreeClusters;
    DivModOf(|s'.path|, 0, v.clusterSize);
    GoodSeek(v.clusterSize, s', to, status', s'');
    SeekKeeps(v.clusterSize, s', to, status', s'');
  }

  lemma ShortHasClusters(v: Volume, s: FileState, newSize: nat, added: seq<nat>, status: Status, s': FileState)
    requires Ready(v.clusterSize, s) && Short(v, s, newSize) && GrowStep(v, s, newSize, added, status, s')
    ensures status == Success && s'.path != []
  {
    hide FatSizeToClusters, AnyCursor, Shrunk, Extension, Grown, LegalLinks, Chain, FreeClusters, PlaceGrown, CutBack;
  }

  // ---------------------------------------------------------------- no cluster is lost

  /** The clusters of the file and the free ones. */
  ghost function Total(fat: map<nat, nat>, path: seq<nat>): nat {
    |path| + |FreeClusters(fat)|
  }

  lemma TruncatedTotal(fat: map<nat, nat>, first: nat, path: seq<nat>, n: nat)
    requires LegalLinks(fat) && Chain(fat, first, path) && n <= |path|
    ensures Total(Truncated(fat, path, n), path[..n]) == Total(fat, path)
  {
    WalkDistinct(fat, first, path);
    ChainIsUsed(fat, first, path);
    TruncatedFrees(fat, first, path, n);
    hide Truncated, Chain, LegalLinks, FreeClusters;
    DistinctCount(path[n..]);
    FreedCount(FreeClusters(fat), FreeClusters(Truncated(fat, path, n)), path, n);
  }

  lemma FreedCount(free: set<nat>, free': set<nat>, path: seq<nat>, n: nat)
    requires n <= |path| && (forall c :: c in path ==> c !in free)
    requires free' == free - (set c | c in path[..n]) + SetOf(path[n..])
    ensures |free'| == |free| + |SetOf(path[n..])|
  {
    assert free - (set c | c in path[..n]) == free by { assert forall c :: c in path[..n] ==> c in path; }
    assert free !! SetOf(path[n..]) by { assert forall c :: c in path[n..] ==> c in path; }
  }

  lemma ShrunkTotal(fat0: map<nat, nat>, place0: Place, path: seq<nat>, n: nat, fat: map<nat, nat>, place: Place,
                    status: Status)
    requires LegalLinks(fat0) && Chain(fat0, place0.first, path) && Shrunk(fat0, place0, path, n, fat, place, status)
    ensures Total(fat, PathAfter(n, path)) == Total(fat0, path)
  {
    if n <= |path| {
      TruncatedTotal(fat0, place0.first, path, n);
      if path != [] { assert path[0] in path; }
    }
  }

  lemma GrowTotal(v: Volume, s: FileState, newSize: nat, added: seq<nat>, status: Status, s': FileState)
    requires Ready(v.clusterSize, s) && GrowStep(v, s, newSize, added, status, s')
    ensures Total(s'.fat, s'.path) == Total(s.fat, s.path)
  {
    var cur, base := FatSizeToClusters(v, s.fileSize), LastOf(CLUSTER_FREE, s.path);
    hide FatSizeToClusters, LegalLinks, AnyCursor, Chain, Extension, Grown, Shrunk, PlaceGrown, LastOf, FreeClusters;
    if newSize <= 0xFFFF_FFFF && cur < FatSizeToClusters(v, newSize) {
      if added == [] && status == VolumeCorrupted {
        var place := s.place.(last := base);
        var r :| Shrunk(s.fat, place, s.path, cur, s'.fat, s'.place, r);
        ShrunkTotal(s.fat, place, s.path, cur, s'.fat, s'.place, r);
        assert s.path + added == s.path;
      } else {
        GrownFreeCount(s.fat, base, added);
        GrownKeeps(v.clusterSize, s.fat, s.place, s.path, added, s.position);
        if status != Success {
          var r :| CutBack(s.fat, s.place, s.path, cur, added, s'.fat, s'.place, r);
          ShrunkTotal(Grown(s.fat, base, added), PlaceGrown(s.place, s.path, added), s.path + added, cur, s'.fat,
                      s'.place, r);
        }
      }
    } else {
      assert s.path + [] == s.path;
    }
  }

  /** Whatever the outcome of a call, the clusters that the file loses become free, and those that it gets were free. */
  lemma StepTotal(v: Volume, s: FileState, op: FileOp, added: seq<nat>, status: Status, s': FileState)
    requires Ready(v.clusterSize, s) && Step(v, s, op, added, status, s')
    ensures Total(s'.fat, s'.path) == Total(s.fat, s.path)
  {
    hide Total, AnyCursor, LegalLinks, Chain, FatSizeToClusters, Shrunk, GrowOutcome, SeekEffect;
    match op
    case Seek(_, _) =>
    case Grow(newSize) =>
      GrowTotal(v, s, newSize, added, status, s');
    case Truncate(newSize) =>
      ShrunkTotal(s.fat, s.place, s.path, FatSizeToClusters(v, newSize), s'.fat, s'.place, status);
  }

  /** A growth is short only when its size needs exactly one cluster more than the file's and the free ones together. */
  lemma ShortNeedsOneMore(v: Volume, s: FileState, newSize: nat)
    requires 0 < v.clusterSize && Short(v, s, newSize)
    ensures FatSizeToClusters(v, newSize) == Total(s.fat, s.path) + 1
  {
    hide FatSizeToClusters, FreeClusters;
  }

  // ---------------------------------------------------------------- which growths succeed

  /** The chain has exactly the clusters that the file's size asks for. */
  ghost predicate Exact(v: Volume, s: FileState)
    requires 0 < v.clusterSize
  {
    |s.path| == FatSizeToClusters(v, s.fileSize)
  }

  /** Whether a file can be made `newSize` bytes long, when it and the free space have `total` clusters. */
  ghost function Outcome(v: Volume, total: nat, fileSize: nat, newSize: nat): Status
    requires 0 < v.clusterSize
  {
    if newSize <= fileSize then Success
    else if newSize > 0xFFFF_FFFF then Unsupported
    else if FatSizeToClusters(v, newSize) <= total then Success
    else VolumeFull
  }

  /** A file with an exact chain can be made longer exactly when there is room, and its chain stays exact. */
  lemma ExactGrowth(v: Volume, s: FileState, newSize: nat, added: seq<nat>, status: Status, s': FileState)
    requires Ready(v.clusterSize, s) && GrowStep(v, s, newSize, added, status, s')
    requires Exact(v, s) && s.fileSize < newSize && !Short(v, s, newSize)
    ensures Exact(v, s') && status == Outcome(v, Total(s.fat, s.path), s.fileSize, newSize)
  {
    var cur := FatSizeToClusters(v, s.fileSize);
    NeedsAtMost(v, s.fileSize, FatSizeToClusters(v, newSize));
    NeedsAtMost(v, newSize, FatSizeToClusters(v, newSize));
    hide FatSizeToClusters, AnyCursor, Shrunk, Extension, Grown, LegalLinks, FreeClusters, PlaceGrown, CutBack;
    if newSize <= 0xFFFF_FFFF && status != Success {
      assert (s.path + added)[..cur] == s.path[..cur];
    }
  }
}
