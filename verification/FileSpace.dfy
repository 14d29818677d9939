/** Shrinking and growing an open file (FileSpace.c: FatSizeToClusters, FatShrinkEof, FatGrowEof). */
module FileSpace {
  import opened FatTypes
  import opened FatEntry
  import opened VolumeState
  import opened FatTable
  import opened FreeSpace
  import opened Chains
  import opened Growth

  /** FAT_OFILE: the part of an open file that deals with its clusters. */
  class OFile {
    const volume: Volume
    const isFixedRootDir: bool
    var fileSize: nat
    var fileCluster: nat
    var fileCurrentCluster: nat
    var fileLastCluster: nat
    var dirty: bool
    var archive: bool
    var position: nat
    var posDisk: int
    var posRem: int

    constructor (volume: Volume, isFixedRootDir: bool, fileSize: nat, fileCluster: nat)
      ensures this.volume == volume && this.isFixedRootDir == isFixedRootDir
      ensures this.fileSize == fileSize && this.fileCluster == fileCluster && fileCurrentCluster == fileCluster
      ensures fileLastCluster == CLUSTER_FREE && position == 0
    {
      this.volume, this.isFixedRootDir := volume, isFixedRootDir;
      this.fileSize, this.fileCluster, fileCurrentCluster := fileSize, fileCluster, fileCluster;
      fileLastCluster, dirty, archive, position, posDisk, posRem := CLUSTER_FREE, false, false, 0, 0, 0;
    }
  }

  /** FatSizeToClusters. */
  function FatSizeToClusters(v: Volume, size: nat): (clusters: nat)
    requires 0 < v.clusterSize
  {
    size / v.clusterSize + if size % v.clusterSize > 0 then 1 else 0
  }

  /** It is the least number of clusters that hold `size` bytes. */
  lemma SizeToClustersIsCeiling(v: Volume, size: nat)
    requires 0 < v.clusterSize
    ensures size <= FatSizeToClusters(v, size) * v.clusterSize < size + v.clusterSize
  {
    var n := v.clusterSize;
    var q, r := size / n, size % n;
    PageSplit(size, n);
    assert FatSizeToClusters(v, size) == q + if r > 0 then 1 else 0;
    assert (q + 1) * n == q * n + n;
  }

  // ---------------------------------------------------------------- FatShrinkEof

  /** The status of freeing what lies behind the first `n` clusters of a walk. */
  ghost function FreeStatus(fat: map<nat, nat>, first: nat, path: seq<nat>): Status
    requires forall c :: c in path ==> c in fat
  {
    if EndOfChain(Stop(fat, first, path)) then Success else VolumeCorrupted
  }

  /** The loop of FatShrinkEof: step over the clusters that are kept. */
  method SkipClusters(v: Volume, first: nat, n: nat, ghost path: seq<nat>) returns (ok: bool, last: nat, next: nat)
    requires v.FatValid() && Walk(v.fat, first, path) && LegalLinks(v.fat)
    modifies v`fatEntryPos, v`diskError, FatRepr(v)
    ensures v.FatValid() && v.diskError == old(v.diskError)
    ensures ok <==> n <= |path|
    ensures ok ==> next == if n < |path| then path[n] else Stop(v.fat, first, path)
    ensures ok ==> last == if n == 0 then CLUSTER_FREE else path[n - 1]
  {
    hide Volume.FatValid, LegalLinks;
    last, next := CLUSTER_FREE, first;
    var curSize := 0;
    while curSize < n
      invariant v.FatValid() && v.diskError == old(v.diskError)
      invariant curSize <= n && curSize <= |path|
      invariant next == if curSize < |path| then path[curSize] else Stop(v.fat, first, path)
      invariant last == if curSize == 0 then CLUSTER_FREE else path[curSize - 1]
    {
      if curSize < |path| {
        InWalk(v.fat, first, path, curSize);
      }
      if next == CLUSTER_FREE || next >= SPECIAL {
        return false, last, next;
      }
      last := next;
      next := FatGetFatEntry(v, next);
      curSize := curSize + 1;
    }
    ok := true;
  }

  lemma InWalk(fat: map<nat, nat>, first: nat, path: seq<nat>, i: nat)
    requires Walk(fat, first, path) && LegalLinks(fat) && i < |path|
    ensures path[i] in fat && 2 <= path[i] < SPECIAL
    ensures fat[path[i]] == if i < |path| - 1 then path[i + 1] else Stop(fat, first, path)
  {
    assert path[i] in path;
  }

  /** The fields of an open file that say where its clusters are. */
  datatype Place = Place(first: nat, current: nat, last: nat)

  ghost function PlaceOf(o: OFile): Place
    reads o
  {
    Place(o.fileCluster, o.fileCurrentCluster, o.fileLastCluster)
  }

  /** What shrinking to `n` clusters does to the FAT and to the file: its walk is cut, if it is long enough. */
  ghost predicate Shrunk(fat0: map<nat, nat>, place0: Place, path: seq<nat>, n: nat,
                         fat: map<nat, nat>, place: Place, status: Status)
    requires forall c :: c in path ==> c in fat0
  {
    if n > |path| then
      fat == fat0 && place == place0 && status == VolumeCorrupted
    else if n == 0 && place0.first == CLUSTER_FREE then
      fat == fat0 && place == place0 && status == Success
    else
      var first := if n == 0 then CLUSTER_FREE else place0.first;
      && fat == Truncated(fat0, path, n)
      && place == Place(first, first, if n == 0 then CLUSTER_FREE else path[n - 1])
      && status == FreeStatus(fat0, place0.first, path)
  }

  /** The first half of FatShrinkEof when something is kept: find the last kept cluster and end the chain there. */
  method EndChainAt(v: Volume, first: nat, n: nat, ghost path: seq<nat>) returns (ok: bool, last: nat, next: nat)
    requires v.FatValid() && LegalLinks(v.fat) && Walk(v.fat, first, path) && n > 0
    modifies VolumeRepr(v)
    ensures v.FatValid() && v.diskError == old(v.diskError)
    ensures old(FreeInfoAccurate(v)) ==> FreeInfoAccurate(v)
    ensures old(HintLow(v)) ==> HintLow(v)
    ensures ok <==> n <= |path|
    ensures !ok ==> v.fat == old(v.fat)
    ensures ok ==> last == path[n - 1] && v.fat == old(v.fat)[last := CLUSTER_LAST]
    ensures ok ==> next == if n < |path| then path[n] else Stop(old(v.fat), first, path)
  {
    hide Volume.FatValid, LegalLinks, FreeClusters;
    ok, last, next := SkipClusters(v, first, n, path);
    if ok {
      InWalk(v.fat, first, path, n - 1);
      SetEntry(v, last, CLUSTER_LAST);
    }
  }

  /**
   * FatShrinkEof cuts the file's walk to the clusters that its size needs, when it has that many, and frees the
   * others.  `path` is the walk from the file's first cluster.
   */
  method FatShrinkEof(o: OFile, ghost path: seq<nat>) returns (status: Status)
    requires o.volume.FatValid() && LegalLinks(o.volume.fat) && 0 < o.volume.clusterSize
    requires Walk(o.volume.fat, o.fileCluster, path)
    modifies VolumeRepr(o.volume)
    modifies o`fileCluster, o`fileCurrentCluster, o`fileLastCluster, o`dirty
    ensures o.volume.FatValid() && o.volume.diskError == old(o.volume.diskError)
    ensures old(FreeInfoAccurate(o.volume)) ==> FreeInfoAccurate(o.volume)
    ensures old(HintLow(o.volume)) ==> HintLow(o.volume)
    ensures Shrunk(old(o.volume.fat), old(PlaceOf(o)), path, FatSizeToClusters(o.volume, o.fileSize),
                   o.volume.fat, PlaceOf(o), status)
  {
    hide Volume.FatValid, FatSizeToClusters, Truncated, FreeWalk, LegalLinks, FreeClusters, Walk, Stop, HintLow,
      LegalLink, FreeStatus;
    var v := o.volume;
    ghost var fat, first := v.fat, o.fileCluster;
    var newSize := FatSizeToClusters(v, o.fileSize);
    var cluster: nat, lastCluster: nat := o.fileCluster, CLUSTER_FREE;
    if newSize != 0 {
      var ok;
      ok, lastCluster, cluster := EndChainAt(v, o.fileCluster, newSize, path);
      if !ok {
        return VolumeCorrupted;
      }
    } else {
      if cluster == CLUSTER_FREE {
        return Success;
      }
      FirstOfWalk(fat, first, path);
    }
    MovePlace(o, if newSize == 0 then CLUSTER_FREE else o.fileCluster, lastCluster);
    RestIsWalk(fat, first, path, newSize, v.fat, cluster);
    status := FatFreeClusters(v, cluster);
  }

  /** The file now begins at `first` and ends at `last`; seeking starts over. */
  method MovePlace(o: OFile, first: nat, last: nat)
    requires o.volume.FatValid()
    modifies o`fileCluster, o`fileCurrentCluster, o`fileLastCluster, o`dirty
    ensures o.volume.FatValid() && PlaceOf(o) == Place(first, first, last)
    ensures old(HintLow(o.volume)) ==> HintLow(o.volume)
  {
    o.fileCluster := first;
    o.fileCurrentCluster := first;
    o.fileLastCluster := last;
    o.dirty := true;
  }

  lemma FirstOfWalk(fat: map<nat, nat>, first: nat, path: seq<nat>)
    requires Walk(fat, first, path)
    ensures first == if 0 < |path| then path[0] else Stop(fat, first, path)
  {}

  /** Behind the kept clusters lies a walk of the marked FAT, and freeing it gives the truncated FAT. */
  lemma RestIsWalk(fat: map<nat, nat>, first: nat, path: seq<nat>, n: nat, marked: map<nat, nat>, cluster: nat)
    requires LegalLinks(fat) && Walk(fat, first, path) && n <= |path|
    requires marked == if n == 0 then fat else fat[path[n - 1] := CLUSTER_LAST]
    requires cluster == if n < |path| then path[n] else Stop(fat, first, path)
    ensures LegalLinks(marked) && LegalLink(marked, cluster)
    ensures FreeWalk(marked, cluster) == (Truncated(fat, path, n), FreeStatus(fat, first, path))
  {
    WalkDistinct(fat, first, path);
    CutPoints(path, n);
    assert n > 0 ==> path[n - 1] in path;
    assert LegalLinks(marked);
    RestWalk(fat, first, path, n, marked, cluster);
    hide Walk, LegalLinks;
    FreeWalkOfPath(marked, cluster, path[n..]);
  }

  lemma RestWalk(fat: map<nat, nat>, first: nat, path: seq<nat>, n: nat, marked: map<nat, nat>, cluster: nat)
    requires LegalLinks(fat) && Walk(fat, first, path) && n <= |path| && Distinct(path)
    requires marked == if n == 0 then fat else fat[path[n - 1] := CLUSTER_LAST]
    requires cluster == if n < |path| then path[n] else Stop(fat, first, path)
    ensures Walk(marked, cluster, path[n..]) && Stop(marked, cluster, path[n..]) == Stop(fat, first, path)
    ensures LegalLink(marked, cluster)
  {
    var rest := path[n..];
    if n < |path| {
      assert path[n] in path;
      WalkSuffix(fat, first, path, n);
      forall c | c in rest
        ensures c in marked && marked[c] == fat[c]
      {
        var i :| n <= i < |path| && path[i] == c;
        assert n > 0 ==> path[n - 1] != path[i];
      }
    }
  }

  // ---------------------------------------------------------------- FatGrowEof

  /** One round of the growing loop: find a cluster and link the last one to it. */
  method ExtendOnce(o: OFile, last: nat, ghost fat0: map<nat, nat>, ghost base: nat, ghost added: seq<nat>,
                    ghost doubled: bool)
    returns (full: bool, newLast: nat, ghost added': seq<nat>, ghost doubled': bool)
    requires o.volume.FatValid() && FreeInfoAccurate(o.volume) && !o.volume.diskError
    requires Growing(o.volume.fat, fat0, base, added, doubled, o.volume.nextCluster) && last == LastOf(base, added)
    modifies VolumeRepr(o.volume)
    modifies o`fileCluster, o`fileCurrentCluster
    ensures o.volume.FatValid() && FreeInfoAccurate(o.volume) && !o.volume.diskError
    ensures full <==> doubled || FreeClusters(fat0) == {}
    ensures full ==> o.volume.fat == old(o.volume.fat) && added' == added && doubled' == doubled && newLast == last
    ensures !full ==> if doubled' then added' == added != [] else added' == added + [newLast]
    ensures !full ==> Growing(o.volume.fat, fat0, base, added', doubled', o.volume.nextCluster)
    ensures !full ==> |added'| + (if doubled' then 1 else 0) == |added| + 1 && newLast == LastOf(base, added')
    ensures !full && RestAbove(fat0, added, old(o.volume.nextCluster)) ==> RestAbove(fat0, added', o.volume.nextCluster)
    ensures if !full && last == CLUSTER_FREE then o.fileCluster == newLast && o.fileCurrentCluster == newLast
      else o.fileCluster == old(o.fileCluster) && o.fileCurrentCluster == old(o.fileCurrentCluster)
  {
    hide Volume.FatValid, Allocated, Extension, FreeClusters, SaysFull, Growing, RestAbove;
    var v := o.volume;
    ghost var fat, hint := v.fat, v.nextCluster;
    ghost var saysFull := SaysFull(v.freeInfoValid, v.clusterCount);
    if saysFull { AccurateWhenFull(v); }
    var cluster := FatAllocateCluster(v);
    added', doubled' := NextGrowing(fat, fat0, base, added, doubled, hint, saysFull, cluster);
    full := EndOfChain(cluster);
    newLast := if full then last else cluster;
    if !full {
      LinkOrStart(o, last, cluster);
    }
  }

  /** Link the last cluster to the new one, or start the file with it. */
  method LinkOrStart(o: OFile, last: nat, cluster: nat)
    requires o.volume.FatValid() && FreeInfoAccurate(o.volume)
    requires cluster in o.volume.fat && (last != CLUSTER_FREE ==> last in o.volume.fat)
    modifies VolumeRepr(o.volume)
    modifies o`fileCluster, o`fileCurrentCluster
    ensures o.volume.FatValid() && FreeInfoAccurate(o.volume) && o.volume.diskError == old(o.volume.diskError)
    ensures o.volume.fat == if last == CLUSTER_FREE then old(o.volume.fat) else old(o.volume.fat)[last := cluster]
    ensures o.volume.nextCluster == old(o.volume.nextCluster)
    ensures if last == CLUSTER_FREE then o.fileCluster == cluster && o.fileCurrentCluster == cluster
      else o.fileCluster == old(o.fileCluster) && o.fileCurrentCluster == old(o.fileCurrentCluster)
  {
    hide Volume.FatValid, FreeClusters;
    InMap(o.volume, cluster);
    if last != CLUSTER_FREE {
      SetEntry(o.volume, last, cluster);
    } else {
      SetFirst(o, cluster);
    }
  }

  /** The first cluster of a file that had none. */
  method SetFirst(o: OFile, cluster: nat)
    requires o.volume.FatValid()
    modifies o`fileCluster, o`fileCurrentCluster
    ensures o.volume.FatValid() && o.fileCluster == o.fileCurrentCluster == cluster
    ensures FreeInfoAccurate(o.volume) == old(FreeInfoAccurate(o.volume))
    ensures HintLow(o.volume) == old(HintLow(o.volume))
  {
    o.fileCluster := cluster;
    o.fileCurrentCluster := cluster;
  }

  lemma AccurateWhenFull(v: Volume)
    requires v.FatValid() && FreeInfoAccurate(v) && SaysFull(v.freeInfoValid, v.clusterCount)
    ensures FreeClusters(v.fat) == {}
  {
    AccurateSaysFull(v);
  }

  // ---------------------------------------------------------------- chains that have an end

  /** The cluster after `n` links; the walk stands still where it has no more clusters. */
  ghost function Follow(fat: map<nat, nat>, first: nat, n: nat): nat {
    if n == 0 then first
    else var c := Follow(fat, first, n - 1); if c in fat then fat[c] else c
  }

  lemma {:induction false} StandsStill(fat: map<nat, nat>, first: nat, n: nat, m: nat)
    requires n <= m && Follow(fat, first, n) !in fat
    ensures Follow(fat, first, m) == Follow(fat, first, n)
  {
    if n < m { StandsStill(fat, first, n, m - 1); }
  }

  lemma {:induction false} InsideBefore(fat: map<nat, nat>, first: nat, n: nat, m: nat)
    requires n <= m && Follow(fat, first, m) in fat
    ensures Follow(fat, first, n) in fat
  {
    if n < m { InsideBefore(fat, first, n, m - 1); }
  }

  /** A cluster that comes again comes again and again. */
  lemma {:induction false} GoesRound(fat: map<nat, nat>, first: nat, i: nat, j: nat, n: nat)
    requires i < j <= n && Follow(fat, first, i) == Follow(fat, first, j)
    ensures Follow(fat, first, n) == Follow(fat, first, n - (j - i))
  {
    if j < n { GoesRound(fat, first, i, j, n - 1); }
  }

  lemma {:induction false} NeverOut(fat: map<nat, nat>, first: nat, i: nat, j: nat, n: nat)
    requires i < j && Follow(fat, first, i) == Follow(fat, first, j)
    requires forall k: nat :: k < j ==> Follow(fat, first, k) in fat
    ensures Follow(fat, first, n) in fat
    decreases n
  {
    if j <= n {
      GoesRound(fat, first, i, j, n);
      NeverOut(fat, first, i, j, n - (j - i));
    }
  }

  /** The clusters of the first `n` steps. */
  ghost function Steps(fat: map<nat, nat>, first: nat, n: nat): (s: seq<nat>)
    ensures |s| == n && forall i :: 0 <= i < n ==> s[i] == Follow(fat, first, i)
  {
    seq(n, i requires 0 <= i < n => Follow(fat, first, i))
  }

  /** A walk comes to an end exactly when it does so within as many steps as there are clusters. */
  lemma EndsSoon(fat: map<nat, nat>, first: nat, n: nat)
    requires Follow(fat, first, n) !in fat
    ensures Follow(fat, first, |fat|) !in fat
  {
    if n <= |fat| {
      StandsStill(fat, first, n, |fat|);
    } else if Follow(fat, first, |fat|) in fat {
      forall k: nat | k <= |fat|
        ensures Follow(fat, first, k) in fat
      {
        InsideBefore(fat, first, k, |fat|);
      }
      var s := Steps(fat, first, |fat| + 1);
      if Distinct(s) {
        DistinctCount(s);
        assert SetOf(s) <= fat.Keys;
        SubsetCount(SetOf(s), fat.Keys);
      } else {
        var i, j :| 0 <= i < j < |s| && s[i] == s[j];
        NeverOut(fat, first, i, j, n);
      }
    }
  }

  lemma {:induction false} FollowsWalk(fat: map<nat, nat>, first: nat, path: seq<nat>, n: nat)
    requires Walk(fat, first, path) && LegalLinks(fat) && n <= |path|
    ensures Follow(fat, first, n) == if n < |path| then path[n] else Stop(fat, first, path)
  {
    FirstOfWalk(fat, first, path);
    if n > 0 {
      FollowsWalk(fat, first, path, n - 1);
      InWalk(fat, first, path, n - 1);
    }
  }

  /** The least number of steps after which a walk ends. */
  lemma {:induction false} LeastSteps(fat: map<nat, nat>, first: nat, n: nat) returns (m: nat)
    requires Follow(fat, first, n) !in fat
    ensures m <= n && Follow(fat, first, m) !in fat && forall k: nat :: k < m ==> Follow(fat, first, k) in fat
  {
    if k: nat :| k < n && Follow(fat, first, k) !in fat {
      m := LeastSteps(fat, first, k);
    } else {
      m := n;
    }
  }

  /**
   * The search for the last cluster ends exactly on a chain that is not cyclic, that is, one that has come to its end
   * after as many links as there are clusters; then there is a walk as the search requires it.
   */
  lemma SearchEndsIff(fat: map<nat, nat>, first: nat)
    requires LegalLinks(fat) && LegalLink(fat, first)
    ensures (exists n: nat :: Follow(fat, first, n) !in fat) <==> Follow(fat, first, |fat|) !in fat
    ensures (exists path :: Walk(fat, first, path)) <==> Follow(fat, first, |fat|) !in fat
  {
    forall n: nat | Follow(fat, first, n) !in fat
      ensures Follow(fat, first, |fat|) !in fat
    {
      EndsSoon(fat, first, n);
    }
    forall path | Walk(fat, first, path)
      ensures Follow(fat, first, |fat|) !in fat
    {
      FollowsWalk(fat, first, path, |path|);
      EndsSoon(fat, first, |path|);
    }
    if Follow(fat, first, |fat|) !in fat {
      var m := LeastSteps(fat, first, |fat|);
      WalkOfSteps(fat, first, m);
    }
  }

  lemma WalkOfSteps(fat: map<nat, nat>, first: nat, m: nat)
    requires LegalLinks(fat) && LegalLink(fat, first)
    requires Follow(fat, first, m) !in fat && forall k: nat :: k < m ==> Follow(fat, first, k) in fat
    ensures Walk(fat, first, Steps(fat, first, m))
  {
    var path := Steps(fat, first, m);
    forall i | 0 <= i < m
      ensures path[i] in fat && fat[path[i]] == Follow(fat, first, i + 1)
    {}
    assert Stop(fat, first, path) == Follow(fat, first, m);
    assert LegalLink(fat, Follow(fat, first, m));
  }

  /** A cluster that links to itself: the search never ends, while freeing the chain does (FatFreeClusters). */
  lemma {:induction false} CyclicChain(n: nat)
    ensures Follow(map[2 := 2], 2, n) == 2
  {
    if n > 0 { CyclicChain(n - 1); }
  }

  /** FatGrowEof's search for the last cluster of a file that has not been walked yet. */
  method FindLastCluster(o: OFile, curSize: nat, ghost path: seq<nat>) returns (ok: bool)
    requires o.volume.FatValid() && LegalLinks(o.volume.fat) && Walk(o.volume.fat, o.fileCluster, path)
    requires path != [] && o.fileLastCluster == CLUSTER_FREE
    modifies o.volume`fatEntryPos, o.volume`diskError, FatRepr(o.volume), o`fileLastCluster
    ensures o.volume.FatValid() && o.volume.diskError == old(o.volume.diskError)
    ensures o.fileLastCluster == path[|path| - 1]
    ensures ok <==> EndOfChain(Stop(o.volume.fat, o.fileCluster, path)) && |path| == curSize
  {
    hide Volume.FatValid, LegalLinks;
    var v := o.volume;
    var cluster: nat, count, last: nat := o.fileCluster, 0, CLUSTER_FREE;
    while !EndOfChain(cluster)
      invariant v.FatValid() && v.diskError == old(v.diskError)
      invariant count <= |path|
      invariant cluster == if count < |path| then path[count] else Stop(v.fat, o.fileCluster, path)
      invariant last == if count == 0 then CLUSTER_FREE else path[count - 1]
      decreases |path| - count
    {
      if count < |path| {
        InWalk(v.fat, o.fileCluster, path, count);
      }
      if cluster == CLUSTER_FREE || cluster >= SPECIAL {
        SetLast(o, last);
        return false;
      }
      count := count + 1;
      last := cluster;
      cluster := FatGetFatEntry(v, cluster);
    }
    if count < |path| {
      InWalk(v.fat, o.fileCluster, path, count);
      assert false;
    }
    SetLast(o, last);
    ok := count == curSize;
  }

  method SetLast(o: OFile, cluster: nat)
    requires o.volume.FatValid()
    modifies o`fileLastCluster
    ensures o.volume.FatValid() && o.fileLastCluster == cluster
    ensures FreeInfoAccurate(o.volume) == old(FreeInfoAccurate(o.volume))
    ensures HintLow(o.volume) == old(HintLow(o.volume))
  {
    o.fileLastCluster := cluster;
  }

  /** How many of `k` wanted clusters are found when `free` are free, and whether the search fails. */
  ghost function Found(k: nat, free: nat): nat {
    if k <= free then k else free
  }

  ghost predicate GrowFails(k: nat, free: nat) {
    k > free && (free == 0 || k > free + 1)
  }

  /** The growing loop of FatGrowEof. */
  method GrowLoop(o: OFile, base: nat, k: nat, ghost fat0: map<nat, nat>)
      returns (full: bool, last: nat, ghost added: seq<nat>)
    requires o.volume.FatValid() && FreeInfoAccurate(o.volume) && !o.volume.diskError
    requires o.volume.fat == fat0 && LegalLinks(fat0)
      && (base != CLUSTER_FREE ==> base in fat0 && fat0[base] != CLUSTER_FREE)
    modifies VolumeRepr(o.volume)
    modifies o`fileCluster, o`fileCurrentCluster
    ensures o.volume.FatValid() && FreeInfoAccurate(o.volume) && !o.volume.diskError
    ensures full <==> GrowFails(k, |FreeClusters(fat0)|)
    ensures Extension(fat0, base, added) && |added| == Found(k, |FreeClusters(fat0)|)
    ensures last == LastOf(base, added) && (last != CLUSTER_FREE ==> last in o.volume.fat)
    ensures last == CLUSTER_FREE ==> base == CLUSTER_FREE
    ensures (if last == CLUSTER_FREE then o.volume.fat else o.volume.fat[last := CLUSTER_LAST]) ==
      Grown(fat0, base, added)
    ensures old(HintLow(o.volume)) ==> RestAbove(fat0, added, o.volume.nextCluster) || |added| == |FreeClusters(fat0)|
    ensures if base == CLUSTER_FREE && added != [] then o.fileCluster == added[0] && o.fileCurrentCluster == added[0]
      else o.fileCluster == old(o.fileCluster) && o.fileCurrentCluster == old(o.fileCurrentCluster)
  {
    var v := o.volume;
    ghost var doubled := false;
    ghost var free0 := |FreeClusters(fat0)|;
    full, last, added := false, base, [];
    assert old(HintLow(o.volume)) ==> RestAbove(fat0, added, v.nextCluster);
    var i := 0;
    hide Volume.FatValid, FreeClusters, HintLow, RestAbove, Grown;
    while i < k
      invariant i <= k && |added| + (if doubled then 1 else 0) == i
      invariant v.FatValid() && FreeInfoAccurate(v) && !v.diskError
      invariant Growing(v.fat, fat0, base, added, doubled, v.nextCluster) && last == LastOf(base, added)
      invariant old(HintLow(o.volume)) ==> RestAbove(fat0, added, v.nextCluster)
      invariant if base == CLUSTER_FREE && added != [] then o.fileCluster == added[0]
        && o.fileCurrentCluster == added[0]
        else o.fileCluster == old(o.fileCluster) && o.fileCurrentCluster == old(o.fileCurrentCluster)
    {
      ghost var hint, before := v.nextCluster, added;
      full, last, added, doubled := ExtendOnce(o, last, fat0, base, added, doubled);
      if full {
        EndGrowing(v.fat, fat0, base, added, doubled, hint);
        AddedCount(fat0, base, added);
        return;
      }
      i := i + 1;
    }
    EndGrowing(v.fat, fat0, base, added, doubled, v.nextCluster);
    AddedCount(fat0, base, added);
  }

  /** The end mark behind the last cluster that the loop found. */
  method EndChain(o: OFile, last: nat, ghost fat0: map<nat, nat>, ghost base: nat, ghost added: seq<nat>,
                  ghost low: bool)
    requires o.volume.FatValid() && FreeInfoAccurate(o.volume) && !o.volume.diskError
    requires Extension(fat0, base, added) && last == LastOf(base, added)
      && (last != CLUSTER_FREE ==> last in o.volume.fat)
    requires (if last == CLUSTER_FREE then o.volume.fat else o.volume.fat[last := CLUSTER_LAST]) ==
      Grown(fat0, base, added)
    requires last == CLUSTER_FREE ==> o.fileLastCluster == CLUSTER_FREE
    requires low ==> RestAbove(fat0, added, o.volume.nextCluster) || |added| == |FreeClusters(fat0)|
    modifies VolumeRepr(o.volume)
    modifies o`fileLastCluster
    ensures o.volume.FatValid() && FreeInfoAccurate(o.volume) && !o.volume.diskError
    ensures o.volume.fat == Grown(fat0, base, added) && LegalLinks(o.volume.fat)
    ensures low ==> HintLow(o.volume)
    ensures o.fileLastCluster == last
  {
    hide Volume.FatValid, Extension, Grown, RestAbove, LegalLinks, FreeClusters, NothingBelow;
    GrownLegal(fat0, base, added);
    if low { HintAfterGrowing(fat0, base, added, o.volume.nextCluster); }
    if last != CLUSTER_FREE {
      SetEntry(o.volume, last, CLUSTER_LAST);
      SetLast(o, last);
    }
  }

  /**
   * The place of an open file fits its walk: its last cluster, once known, ends a chain, which may be shorter than
   * its size.
   */
  ghost predicate GrowReady(o: OFile, path: seq<nat>)
    reads o, o.volume
  {
    && 0 < o.volume.clusterSize && LegalLinks(o.volume.fat)
    && Walk(o.volume.fat, o.fileCluster, path)
    && (path == [] <==> o.fileCluster == CLUSTER_FREE)
    && (Known(PlaceOf(o), path) ==>
        && Chain(o.volume.fat, o.fileCluster, path)
        && o.fileLastCluster == LastOf(CLUSTER_FREE, path))
  }

  /** FatGrowEof does not look for the last cluster: there is none, or it was found before. */
  predicate Known(place: Place, path: seq<nat>) {
    path == [] || place.last != CLUSTER_FREE
  }

  /** The place of a file whose chain was grown. */
  ghost function PlaceGrown(place: Place, path: seq<nat>, added: seq<nat>): Place {
    Place(GrownFirst(place.first, path, added), if path == [] && added != [] then added[0] else place.current,
          LastOf(LastOf(CLUSTER_FREE, path), added))
  }

  /** A growth that failed: the grown chain is cut to the `cur` clusters of the file's size, if it has that many. */
  ghost predicate CutBack(fat0: map<nat, nat>, place0: Place, path: seq<nat>, cur: nat, added: seq<nat>,
                          fat: map<nat, nat>, place: Place, s: Status) {
    var grown := Grown(fat0, LastOf(CLUSTER_FREE, path), added);
    && (forall c :: c in path + added ==> c in grown)
    && Shrunk(grown, PlaceGrown(place0, path, added), path + added, cur, fat, place, s)
  }

  /** Growing a chain by `k` clusters, for a file whose size asks for `cur`. */
  ghost predicate ChainOutcome(fat0: map<nat, nat>, place0: Place, path: seq<nat>, cur: nat, k: nat,
                               added: seq<nat>, status: Status, fat: map<nat, nat>, place: Place) {
    var base, free := LastOf(CLUSTER_FREE, path), |FreeClusters(fat0)|;
    && Extension(fat0, base, added) && |added| == Found(k, free)
    && if GrowFails(k, free) then status == VolumeFull
      && exists s :: CutBack(fat0, place0, path, cur, added, fat, place, s)
       else status == Success && fat == Grown(fat0, base, added) && place == PlaceGrown(place0, path, added)
  }

  /** Everything that FatGrowEof may do, for a file whose size asks for `cur` clusters and shall ask for `new`. */
  ghost predicate GrowOutcome(fat0: map<nat, nat>, place0: Place, path: seq<nat>, cur: nat, new_: nat,
                              added: seq<nat>, status: Status, fat: map<nat, nat>, place: Place) {
    if new_ <= cur then
      status == Success && fat == fat0 && place == place0 && added == []
    else if Known(place0, path) || (Chain(fat0, place0.first, path) && |path| == cur) then
      ChainOutcome(fat0, place0, path, cur, new_ - cur, added, status, fat, place)
    else
      && status == VolumeCorrupted && added == []
      && (forall c :: c in path ==> c in fat0)
      && exists s :: Shrunk(fat0, place0.(last := LastOf(CLUSTER_FREE, path)), path, cur, fat, place, s)
  }

  /** The grown chain may be cut; cutting it to the file's old size puts the FAT and the file back. */
  lemma GrownWalk(fat0: map<nat, nat>, place0: Place, path: seq<nat>, added: seq<nat>)
    requires Chain(fat0, place0.first, path) && LegalLinks(fat0) && Extension(fat0, LastOf(CLUSTER_FREE, path), added)
    ensures Walk(Grown(fat0, LastOf(CLUSTER_FREE, path), added), GrownFirst(place0.first, path, added), path + added)
  {
    GrownIsChain(fat0, place0.first, path, added);
  }

  /**
   * When the file had as many clusters as its size asks for, a growth that fails leaves the FAT as it was, but for
   * the end mark.
   */
  lemma RolledBack(fat0: map<nat, nat>, place0: Place, path: seq<nat>, added: seq<nat>, fat: map<nat, nat>,
                   place: Place, s: Status)
    requires Chain(fat0, place0.first, path) && LegalLinks(fat0) && Extension(fat0, LastOf(CLUSTER_FREE, path), added)
    requires CutBack(fat0, place0, path, |path|, added, fat, place, s)
    ensures fat == if path == [] then fat0 else fat0[LastOf(CLUSTER_FREE, path) := CLUSTER_LAST]
    ensures place == Place(place0.first, if path == [] && added == [] then place0.current else place0.first,
                           LastOf(CLUSTER_FREE, path))
  {
    BaseFacts(fat0, place0.first, path);
    Rollback(fat0, place0.first, path, added);
    if added != [] { assert added[0] in added; }
    hide Truncated, Extension, Grown, FreeClusters;
  }

  /** The rollback of FatGrowEof. */
  method UndoGrowth(o: OFile, ghost fat0: map<nat, nat>, ghost place0: Place, ghost path: seq<nat>, ghost k: nat,
                    ghost added: seq<nat>)
    requires o.volume.FatValid() && FreeInfoAccurate(o.volume) && !o.volume.diskError && LegalLinks(o.volume.fat)
    requires 0 < o.volume.clusterSize
    requires Chain(fat0, place0.first, path) && LegalLinks(fat0) && Extension(fat0, LastOf(CLUSTER_FREE, path), added)
    requires |added| == Found(k, |FreeClusters(fat0)|) && GrowFails(k, |FreeClusters(fat0)|)
    requires o.volume.fat == Grown(fat0, LastOf(CLUSTER_FREE, path), added)
    requires PlaceOf(o) == PlaceGrown(place0, path, added)
    modifies VolumeRepr(o.volume)
    modifies o`fileCluster, o`fileCurrentCluster, o`fileLastCluster, o`dirty
    ensures o.volume.FatValid() && FreeInfoAccurate(o.volume) && !o.volume.diskError
    ensures old(HintLow(o.volume)) ==> HintLow(o.volume)
    ensures ChainOutcome(fat0, place0, path, FatSizeToClusters(o.volume, o.fileSize), k, added, VolumeFull,
                         o.volume.fat, PlaceOf(o))
  {
    hide Volume.FatValid, Shrunk, Extension, LegalLinks, Walk, Chain, Grown, FatSizeToClusters, FreeClusters,
      FreeInfoAccurate,
      NothingBelow, GrowFails, Found, LastOf;
    GrownWalk(fat0, place0, path, added);
    InGrown(o.volume.fat, o.fileCluster, path + added);
    var s := FatShrinkEof(o, path + added);
    assert CutBack(fat0, place0, path, FatSizeToClusters(o.volume, o.fileSize), added, o.volume.fat, PlaceOf(o), s);
  }

  lemma InGrown(fat: map<nat, nat>, first: nat, path: seq<nat>)
    requires Walk(fat, first, path)
    ensures forall c :: c in path ==> c in fat
  {}

  /** The loop of FatGrowEof and the end mark after it. */
  method GrowAndEnd(o: OFile, k: nat, ghost path: seq<nat>) returns (full: bool, ghost added: seq<nat>)
    requires o.volume.FatValid() && FreeInfoAccurate(o.volume) && !o.volume.diskError
    requires LegalLinks(o.volume.fat) && Chain(o.volume.fat, o.fileCluster, path)
    requires o.fileLastCluster == LastOf(CLUSTER_FREE, path)
    modifies VolumeRepr(o.volume)
    modifies o`fileCluster, o`fileCurrentCluster, o`fileLastCluster
    ensures o.volume.FatValid() && FreeInfoAccurate(o.volume) && !o.volume.diskError
    ensures old(HintLow(o.volume)) ==> HintLow(o.volume)
    ensures full <==> GrowFails(k, |FreeClusters(old(o.volume.fat))|)
    ensures Extension(old(o.volume.fat), LastOf(CLUSTER_FREE, path), added)
      && |added| == Found(k, |FreeClusters(old(o.volume.fat))|)
    ensures o.volume.fat == Grown(old(o.volume.fat), LastOf(CLUSTER_FREE, path), added) && LegalLinks(o.volume.fat)
    ensures PlaceOf(o) == PlaceGrown(old(PlaceOf(o)), path, added)
  {
    hide Volume.FatValid, FreeClusters, NothingBelow, RestAbove, Grown, Extension, LegalLinks, Chain;
    ghost var fat0 := o.volume.fat;
    ghost var low := HintLow(o.volume);
    BaseFacts(fat0, o.fileCluster, path);
    var last;
    full, last, added := GrowLoop(o, o.fileLastCluster, k, fat0);
    EndChain(o, last, fat0, LastOf(CLUSTER_FREE, path), added, low);
  }

  /** The part of FatGrowEof after the last cluster is known: extend the chain, or put back what was taken. */
  method GrowChain(o: OFile, k: nat, ghost path: seq<nat>) returns (status: Status, ghost added: seq<nat>)
    requires o.volume.FatValid() && FreeInfoAccurate(o.volume) && !o.volume.diskError
    requires 0 < o.volume.clusterSize && LegalLinks(o.volume.fat)
    requires Chain(o.volume.fat, o.fileCluster, path) && o.fileLastCluster == LastOf(CLUSTER_FREE, path)
    modifies VolumeRepr(o.volume)
    modifies o`fileCluster, o`fileCurrentCluster, o`fileLastCluster, o`dirty
    ensures o.volume.FatValid() && FreeInfoAccurate(o.volume) && !o.volume.diskError
    ensures old(HintLow(o.volume)) ==> HintLow(o.volume)
    ensures ChainOutcome(old(o.volume.fat), old(PlaceOf(o)), path, FatSizeToClusters(o.volume, o.fileSize), k, added,
                         status,
                         o.volume.fat, PlaceOf(o))
  {
    hide Volume.FatValid, Extension, LegalLinks, Chain, Grown, FatSizeToClusters, FreeClusters, FreeInfoAccurate,
      NothingBelow,
      GrowFails, Found, LastOf;
    ghost var fat0, place0 := o.volume.fat, PlaceOf(o);
    var full;
    full, added := GrowAndEnd(o, k, path);
    status := Success;
    if full {
      UndoGrowth(o, fat0, place0, path, k, added);
      status := VolumeFull;
    }
  }

  method FinishGrow(o: OFile, newSizeInBytes: nat)
    requires o.volume.FatValid()
    modifies o`fileSize, o`dirty
    ensures o.volume.FatValid() && o.fileSize == newSizeInBytes && PlaceOf(o) == old(PlaceOf(o))
    ensures FreeInfoAccurate(o.volume) == old(FreeInfoAccurate(o.volume))
    ensures HintLow(o.volume) == old(HintLow(o.volume))
  {
    o.fileSize := newSizeInBytes;
    o.dirty := true;
  }

  lemma BaseFacts(fat: map<nat, nat>, first: nat, path: seq<nat>)
    requires Chain(fat, first, path) && LegalLinks(fat)
    ensures path == [] <==> first == CLUSTER_FREE
    ensures path == [] <==> LastOf(CLUSTER_FREE, path) == CLUSTER_FREE
    ensures var base := LastOf(CLUSTER_FREE, path); base != CLUSTER_FREE ==> base in fat && fat[base] != CLUSTER_FREE
  {
    if path != [] {
      assert path[0] in path && path[|path| - 1] in path;
    }
  }

  /** FatGrowEof for a file that needs more clusters. */
  method GrowTo(o: OFile, curSize: nat, newSize: nat, ghost path: seq<nat>)
      returns (status: Status, ghost added: seq<nat>)
    requires o.volume.FatValid() && FreeInfoAccurate(o.volume) && !o.volume.diskError
    requires GrowReady(o, path) && curSize == FatSizeToClusters(o.volume, o.fileSize) < newSize
    modifies VolumeRepr(o.volume)
    modifies o`fileCluster, o`fileCurrentCluster, o`fileLastCluster, o`dirty
    ensures o.volume.FatValid() && FreeInfoAccurate(o.volume) && !o.volume.diskError
    ensures old(HintLow(o.volume)) ==> HintLow(o.volume)
    ensures GrowOutcome(old(o.volume.fat), old(PlaceOf(o)), path, curSize, newSize, added, status, o.volume.fat,
                        PlaceOf(o))
  {
    hide Volume.FatValid, FatSizeToClusters, FreeInfoAccurate, NothingBelow, ChainOutcome, Shrunk, LegalLinks, Chain,
      Walk,
      LastOf, GrowReady;
    added := [];
    ghost var fat0, place0 := o.volume.fat, PlaceOf(o);
    var ok := KnowLast(o, curSize, path);
    if ok {
      ghost var place := PlaceOf(o);
      status, added := GrowChain(o, newSize - curSize, path);
      LastIrrelevant(fat0, place0, place, path, curSize, newSize - curSize, added, status, o.volume.fat, PlaceOf(o));
    } else {
      status := GiveUp(o, path, fat0, place0, curSize, newSize);
    }
  }

  /** The outcome does not depend on whether the last cluster was known before. */
  lemma LastIrrelevant(fat0: map<nat, nat>, place0: Place, place1: Place, path: seq<nat>, cur: nat, k: nat,
                       added: seq<nat>, status: Status, fat: map<nat, nat>, place: Place)
    requires ChainOutcome(fat0, place1, path, cur, k, added, status, fat, place)
    requires place1.first == place0.first && place1.current == place0.current
    ensures ChainOutcome(fat0, place0, path, cur, k, added, status, fat, place)
  {
    if GrowFails(k, |FreeClusters(fat0)|) {
      var s :| CutBack(fat0, place1, path, cur, added, fat, place, s);
      assert CutBack(fat0, place0, path, cur, added, fat, place, s);
    }
  }

  /** Make sure that the last cluster is known. */
  method KnowLast(o: OFile, curSize: nat, ghost path: seq<nat>) returns (ok: bool)
    requires o.volume.FatValid() && FreeInfoAccurate(o.volume)
    requires GrowReady(o, path) && curSize == FatSizeToClusters(o.volume, o.fileSize)
    modifies o.volume`fatEntryPos, o.volume`diskError, FatRepr(o.volume), o`fileLastCluster
    ensures o.volume.FatValid() && FreeInfoAccurate(o.volume) && o.volume.diskError == old(o.volume.diskError)
    ensures LegalLinks(o.volume.fat) && Walk(o.volume.fat, o.fileCluster, path) && 0 < o.volume.clusterSize
    ensures o.fileLastCluster == LastOf(CLUSTER_FREE, path)
    ensures ok <==> old(Known(PlaceOf(o), path)) || (Chain(o.volume.fat, o.fileCluster, path) && |path| == curSize)
    ensures ok ==> Chain(o.volume.fat, o.fileCluster, path)
    ensures forall c :: c in path ==> c in o.volume.fat
  {
    hide Volume.FatValid, FatSizeToClusters, FreeClusters, LegalLinks;
    ghost var place0 := PlaceOf(o);
    ok := true;
    if o.fileCluster != 0 && o.fileLastCluster == 0 {
      ok := FindLastCluster(o, curSize, path);
    }
    LastKnown(o.volume.fat, place0, path, curSize, ok, o.fileLastCluster);
  }

  /**
   * FatGrowEof.  With `k` more clusters needed and `free` clusters free, it succeeds when k <= free: the chain is
   * then the old one followed by k new clusters.  When k == free + 1 and free > 0 it also reports success, but
   * the chain has got only `free` new clusters.  In every other case the volume is full, and the chain is cut to the
   * file's old size; if it had the clusters of that size, the FAT is what it was, but for the end mark (RolledBack).
   */
  method FatGrowEof(o: OFile, newSizeInBytes: nat, ghost path: seq<nat>) returns (status: Status, ghost added: seq<nat>)
    requires o.volume.FatValid() && FreeInfoAccurate(o.volume) && !o.volume.diskError
    requires GrowReady(o, path)
    modifies VolumeRepr(o.volume)
    modifies o`fileSize, o`fileCluster, o`fileCurrentCluster, o`fileLastCluster, o`dirty
    ensures o.volume.FatValid() && FreeInfoAccurate(o.volume) && !o.volume.diskError
    ensures old(HintLow(o.volume)) ==> HintLow(o.volume)
    ensures newSizeInBytes > 0xFFFF_FFFF ==>
      status == Unsupported && o.volume.fat == old(o.volume.fat) && PlaceOf(o) == old(PlaceOf(o))
    ensures newSizeInBytes <= 0xFFFF_FFFF ==>
      GrowOutcome(old(o.volume.fat), old(PlaceOf(o)), path, FatSizeToClusters(o.volume, old(o.fileSize)),
                  FatSizeToClusters(o.volume, newSizeInBytes), added, status, o.volume.fat, PlaceOf(o))
    ensures o.fileSize == if status == Success then newSizeInBytes else old(o.fileSize)
  {
    hide Volume.FatValid, FatSizeToClusters, FreeInfoAccurate, NothingBelow, GrowReady, GrowOutcome, PlaceOf;
    added := [];
    if newSizeInBytes > 0xFFFF_FFFF {
      return Unsupported, added;
    }
    ReadyFacts(o, path);
    var curSize, newSize := FatSizeToClusters(o.volume, o.fileSize), FatSizeToClusters(o.volume, newSizeInBytes);
    if curSize < newSize {
      status, added := GrowTo(o, curSize, newSize, path);
      if status != Success {
        return;
      }
    } else {
      NoGrowth(o.volume.fat, PlaceOf(o), path, curSize, newSize);
    }
    FinishGrow(o, newSizeInBytes);
    status := Success;
  }

  lemma ReadyFacts(o: OFile, path: seq<nat>)
    requires GrowReady(o, path)
    ensures 0 < o.volume.clusterSize
  {}

  lemma NoGrowth(fat: map<nat, nat>, place: Place, path: seq<nat>, cur: nat, new_: nat)
    requires new_ <= cur
    ensures GrowOutcome(fat, place, path, cur, new_, [], Success, fat, place)
  {}

  /** What is known when the last cluster was looked for, if that was needed. */
  lemma LastKnown(fat: map<nat, nat>, place0: Place, path: seq<nat>, cur: nat, ok: bool, last: nat)
    requires Walk(fat, place0.first, path) && (path == [] <==> place0.first == CLUSTER_FREE)
    requires Known(place0, path) ==>
      ok && Chain(fat, place0.first, path) && last == place0.last == LastOf(CLUSTER_FREE, path)
    requires !Known(place0, path) ==>
      last == path[|path| - 1] && (ok <==> EndOfChain(Stop(fat, place0.first, path)) && |path| == cur)
    ensures last == LastOf(CLUSTER_FREE, path)
    ensures ok <==> Known(place0, path) || (Chain(fat, place0.first, path) && |path| == cur)
    ensures ok ==> Chain(fat, place0.first, path)
    ensures forall c :: c in path ==> c in fat
  {}

  /** The chain does not fit the file's size: FatGrowEof cuts it to that size, if it can, and fails. */
  method GiveUp(o: OFile, ghost path: seq<nat>, ghost fat0: map<nat, nat>, ghost place0: Place, ghost cur: nat,
                ghost new_: nat)
    returns (status: Status)
    requires o.volume.FatValid() && FreeInfoAccurate(o.volume) && LegalLinks(o.volume.fat) && 0 < o.volume.clusterSize
    requires Walk(o.volume.fat, o.fileCluster, path) && (forall c :: c in path ==> c in fat0)
    requires o.volume.fat == fat0 && PlaceOf(o) == place0.(last := LastOf(CLUSTER_FREE, path))
    requires cur == FatSizeToClusters(o.volume, o.fileSize) < new_
    requires !(Known(place0, path) || (Chain(fat0, place0.first, path) && |path| == cur))
    modifies VolumeRepr(o.volume)
    modifies o`fileCluster, o`fileCurrentCluster, o`fileLastCluster, o`dirty
    ensures o.volume.FatValid() && FreeInfoAccurate(o.volume) && o.volume.diskError == old(o.volume.diskError)
    ensures old(HintLow(o.volume)) ==> HintLow(o.volume)
    ensures status == VolumeCorrupted
    ensures GrowOutcome(fat0, place0, path, cur, new_, [], status, o.volume.fat, PlaceOf(o))
  {
    hide Volume.FatValid, Shrunk, LegalLinks, Walk, Chain, FatSizeToClusters, FreeInfoAccurate, NothingBelow, LastOf;
    var s := FatShrinkEof(o, path);
    assert Shrunk(fat0, place0.(last := LastOf(CLUSTER_FREE, path)), path, cur, o.volume.fat, PlaceOf(o), s);
    status := VolumeCorrupted;
  }

  // ---------------------------------------------------------------- what growing promises

  /**
   * Growing by `k` clusters does what its success says exactly when `k` clusters are free: the chain is then the
   * old one followed by `k` clusters that were free, and `k` fewer are free.
   */
  lemma GrownWholeIff(fat0: map<nat, nat>, place0: Place, path: seq<nat>, cur: nat, k: nat,
                      added: seq<nat>, status: Status, fat: map<nat, nat>, place: Place)
    requires Chain(fat0, place0.first, path) && ChainOutcome(fat0, place0, path, cur, k, added, status, fat, place)
    ensures k <= |FreeClusters(fat0)| <==> status == Success && |added| == k
    ensures status == Success ==>
      && Chain(fat, place.first, path + added) && place.last == LastOf(CLUSTER_FREE, path + added)
      && SetOf(added) <= FreeClusters(fat0) && Distinct(added)
      && FreeClusters(fat) == FreeClusters(fat0) - SetOf(added)
      && |FreeClusters(fat)| == |FreeClusters(fat0)| - |added|
  {
    if status == Success {
      GrownIsChain(fat0, place0.first, path, added);
      GrownFreeCount(fat0, LastOf(CLUSTER_FREE, path), added);
      GrownFrees(fat0, LastOf(CLUSTER_FREE, path), added);
    }
  }

  /** The other case is reached: with cluster 2 the only one free, asking for two clusters succeeds with one. */
  lemma ShortChain(added: seq<nat>, status: Status, fat: map<nat, nat>, place: Place)
    requires ChainOutcome(map[2 := CLUSTER_FREE], Place(0, 0, 0), [], 0, 2, added, status, fat, place)
    ensures status == Success && Chain(fat, place.first, [2]) && FreeClusters(fat) == {}
  {
    var fat0: map<nat, nat> := map[2 := CLUSTER_FREE];
    assert FreeClusters(fat0) == {2};
    assert Chain(fat0, 0, []);
    GrownWholeIff(fat0, Place(0, 0, 0), [], 0, 2, added, status, fat, place);
    assert added[0] in SetOf(added);
    assert [] + added == [2];
  }
}
