/** Seeking in an open file (FileSpace.c: FatOFilePosition). */
module FilePosition {
  import opened FatTypes
  import opened FatEntry
  import opened VolumeState
  import opened FatTable
  import opened FreeSpace
  import opened Chains
  import opened Growth
  import opened FileSpace

  /** The disk position of a cluster. */
  function ClusterPos(v: Volume, cluster: nat): int {
    v.firstClusterPos + (cluster - MIN_CLUSTER) * v.clusterSize
  }

  /**
   * The cursor of an open file: either it stands at the file's first cluster, and its position is ignored,
   * or it stands at the cluster that holds the byte at its position.
   */
  ghost predicate Cursor(clusterSize: nat, place: Place, position: nat, path: seq<nat>) {
    place.current == place.first ||
    exists i :: 0 <= i < |path| && position == i * clusterSize && place.current == path[i]
  }

  /** The other cursors that seeking can leave: one that was behind the last cluster of a chain of `k` clusters. */
  ghost predicate Behind(clusterSize: nat, place: Place, position: nat, path: seq<nat>, k: nat) {
    path != [] && k <= |path| && position == k * clusterSize && place.current >= SPECIAL
  }

  ghost predicate AnyCursor(clusterSize: nat, place: Place, position: nat, path: seq<nat>) {
    Cursor(clusterSize, place, position, path) || exists k :: Behind(clusterSize, place, position, path, k)
  }

  /** A seek to `position` starts at a cursor that stands on no cluster. */
  predicate UsesBehind(place: Place, cursor: nat, position: nat) {
    place.current != place.first && place.current >= SPECIAL && cursor <= position
  }

  /** The chain as a seek sees it: from a cursor that stands on no cluster, it ends at the cursor's position. */
  ghost function Seen(clusterSize: nat, place: Place, cursor: nat, position: nat, path: seq<nat>): seq<nat>
    requires 0 < clusterSize
  {
    if UsesBehind(place, cursor, position) && cursor / clusterSize <= |path| then path[..cursor / clusterSize] else path
  }

  ghost function SeenStop(fat: map<nat, nat>, place: Place, cursor: nat, position: nat, path: seq<nat>): nat
    requires forall c :: c in path ==> c in fat
  {
    if UsesBehind(place, cursor, position) then place.current else Stop(fat, place.first, path)
  }

  /** The clusters of `path` from `n` on, `m` of them, are consecutive on the disk. */
  ghost predicate Consecutive(path: seq<nat>, n: nat, m: nat) {
    n + m <= |path| && forall j :: n <= j < n + m ==> path[j] == path[n] + (j - n)
  }

  /** `m` clusters from the n-th on make a run that is as long as it can be, or at least as long as asked for. */
  ghost predicate IsRun(path: seq<nat>, n: nat, m: nat, posLimit: int, length: int) {
    && m > 0 && Consecutive(path, n, m)
    && (length >= posLimit || n + m == |path| || path[n + m] != path[n] + m)
  }

  lemma PastTheEnd(v: Volume)
    requires v.FatValid()
    ensures v.maxCluster + 1 < SPECIAL
  {}

  /** From index `start` on, the links lead along `seen` and then to `stop`, which is no cluster. */
  ghost predicate Links(fat: map<nat, nat>, seen: seq<nat>, stop: nat, start: nat) {
    && (stop == CLUSTER_FREE || stop >= SPECIAL)
    && forall i {:trigger LinkAt(fat, seen, stop, i)} :: start <= i < |seen| ==> LinkAt(fat, seen, stop, i)
  }

  ghost predicate LinkAt(fat: map<nat, nat>, seen: seq<nat>, stop: nat, i: nat)
    requires i < |seen|
  {
    seen[i] in fat && MIN_CLUSTER <= seen[i] < SPECIAL && fat[seen[i]] == if i < |seen| - 1 then seen[i + 1] else stop
  }

  /** The loop of FatOFilePosition that walks from the cursor to the wanted cluster. */
  method WalkTo(v: Volume, from: nat, position: nat, startPos: nat, ghost seen: seq<nat>, ghost stop: nat,
                ghost start: nat, ghost n: nat)
    returns (ok: bool, cluster: nat, reached: nat)
    requires v.FatValid() && Links(v.fat, seen, stop, start) && 0 < v.clusterSize
    requires start <= |seen| && start <= n && startPos == start * v.clusterSize
    requires from == if start < |seen| then seen[start] else stop
    requires n * v.clusterSize <= position < n * v.clusterSize + v.clusterSize
    modifies v`fatEntryPos, v`diskError, FatRepr(v)
    ensures v.FatValid() && v.diskError == old(v.diskError)
    ensures ok <==> n <= |seen|
    ensures ok ==> reached == n * v.clusterSize && cluster == if n < |seen| then seen[n] else stop
  {
    hide Volume.FatValid, Links;
    cluster, reached := from, startPos;
    ghost var i := start;
    StopIsNone(v.fat, seen, stop, start);
    while reached + v.clusterSize <= position
      invariant v.FatValid() && v.diskError == old(v.diskError)
      invariant start <= i <= |seen| && i <= n && reached == i * v.clusterSize
      invariant cluster == if i < |seen| then seen[i] else stop
      decreases position - reached
    {
      Below(i, n, v.clusterSize, position);
      reached := reached + v.clusterSize;
      if i < |seen| { LinkOf(v.fat, seen, stop, start, i); }
      if cluster == CLUSTER_FREE || cluster >= SPECIAL {
        return false, cluster, reached;
      }
      cluster := FatGetFatEntry(v, cluster);
      i := i + 1;
    }
    ok := true;
    Same(i, n, v.clusterSize, position);
  }

  lemma StopIsNone(fat: map<nat, nat>, seen: seq<nat>, stop: nat, start: nat)
    requires Links(fat, seen, stop, start)
    ensures stop == CLUSTER_FREE || stop >= SPECIAL
  {}

  lemma LinkOf(fat: map<nat, nat>, seen: seq<nat>, stop: nat, start: nat, i: nat)
    requires Links(fat, seen, stop, start) && start <= i < |seen|
    ensures LinkAt(fat, seen, stop, i)
  {}

  lemma Below(i: nat, n: nat, size: nat, position: nat)
    requires i * size + size <= position < n * size + size
    ensures i < n && (i + 1) * size == i * size + size
  {
    if n <= i { MulLe(n, i, size); }
  }

  lemma Same(i: nat, n: nat, size: nat, position: nat)
    requires i <= n && n * size <= position < i * size + size
    ensures i == n
  {
    if i < n { PagesDisjoint(i, n, size); }
  }

  /** The loop of FatOFilePosition that measures the run of consecutive clusters. */
  method MeasureRun(v: Volume, first: nat, from: nat, run: int, posLimit: int, ghost path: seq<nat>, ghost n: nat)
    returns (length: int, ghost m: nat)
    requires v.FatValid() && LegalLinks(v.fat) && Walk(v.fat, first, path) && 0 < v.clusterSize
    requires from == SPECIAL || (n < |path| && from == path[n])
    modifies v`fatEntryPos, v`diskError, FatRepr(v)
    ensures v.FatValid() && v.diskError == old(v.diskError)
    ensures from != SPECIAL ==> IsRun(path, n, m, posLimit, length) && length == run + (m - 1) * v.clusterSize
    ensures from == SPECIAL ==> length == run
  {
    hide Volume.FatValid, LegalLinks, OnRun, IsRun, Walk;
    PastTheEnd(v);
    var cluster := from;
    length, m := run, 1;
    if from != SPECIAL { StartRun(v.fat, v.clusterSize, first, path, n, run); }
    var next := FatGetFatEntry(v, cluster);
    while next == cluster + 1 && length < posLimit
      invariant v.FatValid() && v.diskError == old(v.diskError)
      invariant if from != SPECIAL then OnRun(v.fat, v.clusterSize, path, n, m, run, length, cluster, next)
        else cluster == SPECIAL && next == CLUSTER_LAST && length == run
      decreases |path| - m
    {
      StepRun(v.fat, v.clusterSize, first, path, n, m, run, length, cluster, next);
      length := length + v.clusterSize;
      cluster := cluster + 1;
      m := m + 1;
      next := FatGetFatEntry(v, cluster);
    }
    if from != SPECIAL { EndRun(v.fat, v.clusterSize, first, path, n, m, run, length, cluster, next, posLimit); }
  }

  /** The state of the measuring loop. */
  ghost predicate OnRun(fat: map<nat, nat>, size: nat, path: seq<nat>, n: nat, m: nat, run: int, length: int,
                        cluster: nat, next: nat) {
    && m > 0 && Consecutive(path, n, m) && length == run + (m - 1) * size
    && cluster == path[n] + m - 1 == path[n + m - 1] && cluster in fat && next == fat[cluster]
  }

  lemma StartRun(fat: map<nat, nat>, size: nat, first: nat, path: seq<nat>, n: nat, run: int)
    requires Walk(fat, first, path) && LegalLinks(fat) && n < |path|
    ensures path[n] in fat && OnRun(fat, size, path, n, 1, run, run, path[n], fat[path[n]])
  {
    InWalk(fat, first, path, n);
  }

  lemma StepRun(fat: map<nat, nat>, size: nat, first: nat, path: seq<nat>, n: nat, m: nat, run: int, length: int,
                cluster: nat, next: nat)
    requires Walk(fat, first, path) && LegalLinks(fat)
    requires OnRun(fat, size, path, n, m, run, length, cluster, next) && next == cluster + 1
    ensures n + m < |path| && cluster + 1 in fat
    ensures OnRun(fat, size, path, n, m + 1, run, length + size, cluster + 1, fat[cluster + 1])
  {
    NextInWalk(fat, first, path, n + m - 1);
    InWalk(fat, first, path, n + m);
    OneMore(m, size);
  }

  lemma EndRun(fat: map<nat, nat>, size: nat, first: nat, path: seq<nat>, n: nat, m: nat, run: int, length: int,
               cluster: nat, next: nat,
               posLimit: int)
    requires Walk(fat, first, path) && LegalLinks(fat)
    requires OnRun(fat, size, path, n, m, run, length, cluster, next) && !(next == cluster + 1 && length < posLimit)
    ensures IsRun(path, n, m, posLimit, length) && length == run + (m - 1) * size
  {
    InWalk(fat, first, path, n + m - 1);
  }

  lemma OneMore(m: nat, size: nat)
    requires m > 0
    ensures m * size == (m - 1) * size + size
  {}

  /** An entry that names the following cluster is not the stop of the walk. */
  lemma NextInWalk(fat: map<nat, nat>, first: nat, path: seq<nat>, i: nat)
    requires Walk(fat, first, path) && LegalLinks(fat) && i < |path| && path[i] in fat && fat[path[i]] == path[i] + 1
    ensures i + 1 < |path| && path[i + 1] == path[i] + 1
  {
    assert path[i] in path;
  }

  /** Where FatOFilePosition starts to walk, as an index into the chain that it sees. */
  ghost function StartIndex(size: nat, place: Place, cursor: nat, position: nat): (start: nat)
    requires 0 < size
  {
    if position < cursor || place.first == place.current then 0 else cursor / size
  }

  /** The walk starts at that index: at the cursor's cluster, or at the end of what is seen, or at the first cluster. */
  ghost predicate Starts(fat: map<nat, nat>, size: nat, place: Place, cursor: nat, position: nat, path: seq<nat>)
    requires 0 < size && forall c :: c in path ==> c in fat
  {
    var start, seen, stop := StartIndex(size, place, cursor, position),
                             Seen(size, place, cursor, position, path), SeenStop(fat, place, cursor, position, path);
    && start <= |seen| <= |path| && seen == path[..|seen|] && start <= position / size && Links(fat, seen, stop, start)
    && (if position < cursor || place.first == place.current then place.first else place.current)
         == (if start < |seen| then seen[start] else stop)
    && (!(position < cursor || place.first == place.current) ==> cursor == start * size)
    && (UsesBehind(place, cursor, position) ==> start == |seen| && stop == place.current)
    && (!UsesBehind(place, cursor, position) ==> seen == path && stop == Stop(fat, place.first, path))
  }

  lemma StartsThere(fat: map<nat, nat>, size: nat, place: Place, cursor: nat, position: nat, path: seq<nat>)
    requires 0 < size && Walk(fat, place.first, path) && LegalLinks(fat) && AnyCursor(size, place, cursor, path)
    ensures Starts(fat, size, place, cursor, position, path)
  {
    hide Links, LegalLinks, Starts, Cursor, Behind, Stop;
    if position < cursor || place.first == place.current || Cursor(size, place, cursor, path) {
      StandingStart(fat, size, place, cursor, position, path);
    } else {
      var k :| Behind(size, place, cursor, path, k);
      BehindStart(fat, size, place, cursor, position, path, k);
    }
  }

  /** A seek that begins at the first cluster, or at a cursor that stands on a cluster. */
  lemma StandingStart(fat: map<nat, nat>, size: nat, place: Place, cursor: nat, position: nat, path: seq<nat>)
    requires 0 < size && Walk(fat, place.first, path) && LegalLinks(fat) && AnyCursor(size, place, cursor, path)
    requires position < cursor || place.first == place.current || Cursor(size, place, cursor, path)
    ensures Starts(fat, size, place, cursor, position, path)
  {
    WholeLinks(fat, place.first, path);
    FirstOfWalk(fat, place.first, path);
    if !(position < cursor || place.first == place.current) {
      GoodStart(fat, size, place, cursor, position, path);
    }
    hide Links, LegalLinks, Walk, AnyCursor;
    assert path[..|path|] == path;
  }

  lemma BehindStart(fat: map<nat, nat>, size: nat, place: Place, cursor: nat, position: nat, path: seq<nat>, k: nat)
    requires 0 < size && (forall c :: c in path ==> c in fat) && Behind(size, place, cursor, path, k)
    requires place.first != place.current && cursor <= position
    ensures Starts(fat, size, place, cursor, position, path)
  {
    IndexOfPosition(k, size, cursor);
    PageSplit(position, size);
    StartBefore(k, position / size, size, position);
    NoLinks(fat, path[..k], place.current);
    hide Links;
  }

  lemma GoodStart(fat: map<nat, nat>, size: nat, place: Place, cursor: nat, position: nat, path: seq<nat>)
    requires 0 < size && Walk(fat, place.first, path) && LegalLinks(fat) && Cursor(size, place, cursor, path)
    requires place.first != place.current && cursor <= position
    ensures var i := cursor / size;
      i < |path| && path[i] == place.current < SPECIAL && i <= position / size && cursor == i * size
    ensures Links(fat, path, Stop(fat, place.first, path), cursor / size)
  {
    WholeLinks(fat, place.first, path);
    CursorIndex(fat, size, place, cursor, position, path);
    hide Walk, LegalLinks, Cursor;
  }

  lemma CursorIndex(fat: map<nat, nat>, size: nat, place: Place, cursor: nat, position: nat, path: seq<nat>)
    requires 0 < size && Walk(fat, place.first, path) && LegalLinks(fat) && Cursor(size, place, cursor, path)
    requires place.first != place.current && cursor <= position
    ensures var i := cursor / size;
      i < |path| && path[i] == place.current < SPECIAL && i <= position / size && cursor == i * size
  {
    var i :| 0 <= i < |path| && cursor == i * size && place.current == path[i];
    InWalk(fat, place.first, path, i);
    hide Walk, LegalLinks, Cursor;
    IndexOfPosition(i, size, cursor);
    StartsBefore(i, size, position);
  }

  lemma StartsBefore(i: nat, size: nat, position: nat)
    requires 0 < size && i * size <= position
    ensures i <= position / size
  {
    PageSplit(position, size);
    StartBefore(i, position / size, size, position);
  }

  lemma WholeLinks(fat: map<nat, nat>, first: nat, path: seq<nat>)
    requires Walk(fat, first, path) && LegalLinks(fat)
    ensures Links(fat, path, Stop(fat, first, path), 0)
  {
    forall i | 0 <= i < |path|
      ensures LinkAt(fat, path, Stop(fat, first, path), i)
    {
      InWalk(fat, first, path, i);
    }
  }

  lemma NoLinks(fat: map<nat, nat>, seen: seq<nat>, stop: nat)
    requires stop >= SPECIAL
    ensures Links(fat, seen, stop, |seen|)
  {}

  lemma IndexOfPosition(i: nat, size: nat, position: nat)
    requires 0 < size && position == i * size
    ensures position / size == i
  {
    DivModOf(i, 0, size);
  }

  lemma StartBefore(i: nat, n: nat, size: nat, position: nat)
    requires i * size <= position < n * size + size
    ensures i <= n
  {
    if n < i { PagesDisjoint(n, i, size); }
  }

  /** The fields that a seek sets. */
  method SetSeek(o: OFile, posDisk: int, posRem: int, cluster: nat, startPos: nat)
    requires o.volume.FatValid()
    modifies o`posDisk, o`posRem, o`fileCurrentCluster, o`position
    ensures o.volume.FatValid()
    ensures o.posDisk == posDisk && o.posRem == posRem && o.fileCurrentCluster == cluster && o.position == startPos
  {
    o.posDisk, o.posRem := posDisk, posRem;
    o.fileCurrentCluster := cluster;
    o.position := startPos;
  }

  /**
   * FatOFilePosition up to the cluster that holds `position`: from the cursor if possible, else from the first
   * cluster.
   */
  method Locate(o: OFile, position: nat, ghost path: seq<nat>, ghost n: nat)
      returns (ok: bool, cluster: nat, startPos: nat)
    requires o.volume.FatValid() && LegalLinks(o.volume.fat) && 0 < o.volume.clusterSize
    requires Walk(o.volume.fat, o.fileCluster, path) && AnyCursor(o.volume.clusterSize, PlaceOf(o), o.position, path)
    requires n == position / o.volume.clusterSize
    modifies o.volume`fatEntryPos, o.volume`diskError, FatRepr(o.volume)
    ensures o.volume.FatValid() && o.volume.diskError == old(o.volume.diskError)
    ensures var seen, stop := Seen(o.volume.clusterSize, PlaceOf(o), o.position, position, path),
                              SeenStop(o.volume.fat, PlaceOf(o), o.position, position, path);
      && (ok <==> n < |seen| || (n == |seen| && stop != CLUSTER_FREE))
      && (ok ==> startPos == n * o.volume.clusterSize && startPos <= position && cluster == if n < |seen| then seen[n]
          else stop)
      && (ok && n >= |seen| ==> cluster >= SPECIAL)
      && (n < |seen| ==> n < |path| && seen[n] == path[n])
  {
    hide Volume.FatValid, LegalLinks, AnyCursor, Walk, Links, UsesBehind, SeenStop;
    var v := o.volume;
    var size := v.clusterSize;
    PageSplit(position, size);
    InMapOf(v.fat, o.fileCluster, path);
    ghost var start := StartIndex(size, PlaceOf(o), o.position, position);
    ghost var seen, stop := Seen(size, PlaceOf(o), o.position, position, path),
      SeenStop(v.fat, PlaceOf(o), o.position, position, path);
    StartsThere(v.fat, size, PlaceOf(o), o.position, position, path);
    StopIsNone(v.fat, seen, stop, start);
    cluster, startPos := o.fileCurrentCluster, o.position;
    if position < startPos || o.fileCluster == cluster {
      startPos := 0;
      cluster := o.fileCluster;
    }
    StartPosition(size, PlaceOf(o), o.position, position);
    if n < |seen| { LinkBefore(v.fat, o.fileCluster, path, n, seen); }
    ok, cluster, startPos := WalkTo(v, cluster, position, startPos, seen, stop, start, n);
    ok := ok && cluster >= MIN_CLUSTER;
  }

  lemma StartPosition(size: nat, place: Place, cursor: nat, position: nat)
    requires 0 < size
    ensures position < cursor || place.first == place.current ==> StartIndex(size, place, cursor, position) * size == 0
  {}

  lemma LinkBefore(fat: map<nat, nat>, first: nat, path: seq<nat>, n: nat, seen: seq<nat>)
    requires Walk(fat, first, path) && LegalLinks(fat) && n < |seen| <= |path| && seen == path[..|seen|]
    ensures seen[n] == path[n] && MIN_CLUSTER <= path[n]
  {
    InWalk(fat, first, path, n);
  }

  /**
   * What a seek does to the place and the cursor of a file: it finds the cluster in the chain that it sees, or stands
   * behind it, or finds the chain corrupt and leaves everything as it was.
   */
  ghost predicate SeekEffect(fat: map<nat, nat>, size: nat, place0: Place, cursor0: nat, position: nat, path: seq<nat>,
                             status: Status, place: Place, cursor: nat)
    requires 0 < size && forall c :: c in path ==> c in fat
  {
    var n, seen := position / size, Seen(size, place0, cursor0, position, path);
    var stop := SeenStop(fat, place0, cursor0, position, path);
    && status == (if n < |seen| || (n == |seen| && stop != CLUSTER_FREE) then Success else VolumeCorrupted)
    && if status != Success then place == place0 && cursor == cursor0
       else cursor == n * size && place == place0.(current := if n < |seen| then seen[n] else stop)
  }

  /**
   * FatOFilePosition, for a file with a cluster chain and any cursor that seeking can leave. Inside the chain that it
   * sees, the disk position is that of the byte in the (position / clusterSize)-th cluster, and the run is a maximal
   * one or reaches the limit. A position in the cluster after the last one is not refused unless the walk stops at a
   * free mark.
   */
  method SeekInChain(o: OFile, position: nat, posLimit: int, ghost path: seq<nat>)
      returns (status: Status, ghost m: nat)
    requires o.volume.FatValid() && LegalLinks(o.volume.fat) && 0 < o.volume.clusterSize
    requires Walk(o.volume.fat, o.fileCluster, path) && AnyCursor(o.volume.clusterSize, PlaceOf(o), o.position, path)
    modifies o.volume`fatEntryPos, o.volume`diskError, FatRepr(o.volume)
    modifies o`posDisk, o`posRem, o`fileCurrentCluster, o`position
    ensures o.volume.FatValid() && o.volume.diskError == old(o.volume.diskError)
    ensures SeekEffect(o.volume.fat, o.volume.clusterSize, old(PlaceOf(o)), old(o.position), position, path, status,
                       PlaceOf(o), o.position)
    ensures var seen := Seen(o.volume.clusterSize, old(PlaceOf(o)), old(o.position), position, path);
      && (position / o.volume.clusterSize < |seen| ==> Sought(o, position, posLimit, path, m))
      && (status == Success && position / o.volume.clusterSize >= |seen| ==> SoughtBehind(o, position))
  {
    hide Volume.FatValid, LegalLinks, AnyCursor, IsRun, Walk, Seen, SeenStop;
    var v := o.volume;
    InMapOf(v.fat, o.fileCluster, path);
    ghost var n := position / v.clusterSize;
    m := 0;
    var ok, cluster, startPos := Locate(o, position, path, n);
    if !ok {
      return VolumeCorrupted, m;
    }
    status := Success;
    var posDisk := ClusterPos(v, cluster) + position - startPos;
    var run: int := startPos + v.clusterSize - position;
    if n < |path| { NotTheEnd(v.fat, o.fileCluster, path, n); }
    if !EndOfChain(cluster) {
      run, m := MeasureRun(v, o.fileCluster, cluster, run, posLimit, path, n);
    }
    RunFacts(position, v.clusterSize, n, m, run);
    SetSeek(o, posDisk, run, cluster, startPos);
  }

  lemma InMapOf(fat: map<nat, nat>, first: nat, path: seq<nat>)
    requires Walk(fat, first, path)
    ensures forall c :: c in path ==> c in fat
  {}

  lemma NotTheEnd(fat: map<nat, nat>, first: nat, path: seq<nat>, n: nat)
    requires Walk(fat, first, path) && LegalLinks(fat) && n < |path|
    ensures !EndOfChain(path[n]) && path[n] < SPECIAL
  {
    InWalk(fat, first, path, n);
  }

  lemma RunFacts(position: nat, size: nat, n: nat, m: nat, run: int)
    requires 0 < size && n == position / size
    ensures position - n * size == position % size
    ensures m > 0 && run == n * size + size - position + (m - 1) * size ==> run == m * size - position % size
  {
    PageSplit(position, size);
    if m > 0 { OneMore(m, size); }
  }

  /** What a seek to a position inside the chain finds. */
  ghost predicate Sought(o: OFile, position: nat, posLimit: int, path: seq<nat>, m: nat)
    requires 0 < o.volume.clusterSize
    reads o
  {
    var size := o.volume.clusterSize;
    var n := position / size;
    n < |path| ==>
      && o.posDisk == ClusterPos(o.volume, path[n]) + position % size
      && o.fileCurrentCluster == path[n] && o.position == n * size
      && IsRun(path, n, m, posLimit, o.posRem) && o.posRem == m * size - position % size
  }

  /** What a seek that ends behind the chain leaves: a disk position that belongs to no cluster. */
  ghost predicate SoughtBehind(o: OFile, position: nat)
    requires 0 < o.volume.clusterSize
    reads o
  {
    var size := o.volume.clusterSize;
    && o.posDisk == ClusterPos(o.volume, o.fileCurrentCluster) + position % size
    && o.posRem == size - position % size
  }

  /** FatOFilePosition: the root directory of FAT12 and FAT16 has a fixed place, every other file has a chain. */
  method FatOFilePosition(o: OFile, position: nat, posLimit: int, ghost path: seq<nat>)
      returns (status: Status, ghost m: nat)
    requires o.volume.FatValid() && LegalLinks(o.volume.fat) && 0 < o.volume.clusterSize
    requires !o.isFixedRootDir ==>
      && Walk(o.volume.fat, o.fileCluster, path)
      && AnyCursor(o.volume.clusterSize, PlaceOf(o), o.position, path)
    modifies o.volume`fatEntryPos, o.volume`diskError, FatRepr(o.volume)
    modifies o`posDisk, o`posRem, o`fileCurrentCluster, o`position
    ensures o.volume.FatValid() && o.volume.diskError == old(o.volume.diskError)
    ensures o.isFixedRootDir ==>
      && status == Success && o.posDisk == o.volume.rootPos + position && o.posRem == o.fileSize - position
      && PlaceOf(o) == old(PlaceOf(o)) && o.position == old(o.position)
    ensures !o.isFixedRootDir ==>
      && (forall c :: c in path ==> c in o.volume.fat)
      && SeekEffect(o.volume.fat, o.volume.clusterSize, old(PlaceOf(o)), old(o.position), position, path, status,
                    PlaceOf(o), o.position)
    ensures var seen := Seen(o.volume.clusterSize, old(PlaceOf(o)), old(o.position), position,
                             path); !o.isFixedRootDir ==>
      && (position / o.volume.clusterSize < |seen| ==> Sought(o, position, posLimit, path, m))
      && (status == Success && position / o.volume.clusterSize >= |seen| ==> SoughtBehind(o, position))
  {
    hide Volume.FatValid, LegalLinks, AnyCursor, Walk, Sought, Seen, SeekEffect, SoughtBehind;
    if o.isFixedRootDir {
      SetSeek(o, o.volume.rootPos + position, o.fileSize - position, o.fileCurrentCluster, o.position);
      status, m := Success, 0;
    } else {
      InMapOf(o.volume.fat, o.fileCluster, path);
      status, m := SeekInChain(o, position, posLimit, path);
    }
  }

  // ---------------------------------------------------------------- the cursor

  /** A good cursor hides nothing of the chain. */
  lemma GoodCursorSeesAll(fat: map<nat, nat>, size: nat, place: Place, cursor: nat, position: nat, path: seq<nat>)
    requires 0 < size && Walk(fat, place.first, path) && LegalLinks(fat) && Cursor(size, place, cursor, path)
    ensures !UsesBehind(place, cursor, position) && Seen(size, place, cursor, position, path) == path
    ensures SeenStop(fat, place, cursor, position, path) == Stop(fat, place.first, path)
  {
    if place.current != place.first {
      var i :| 0 <= i < |path| && cursor == i * size && place.current == path[i];
      InWalk(fat, place.first, path, i);
    }
  }

  /** What a seek inside the chain finds is a good cursor. */
  lemma SoughtCursor(o: OFile, position: nat, posLimit: int, path: seq<nat>, m: nat)
    requires 0 < o.volume.clusterSize && position / o.volume.clusterSize < |path|
      && Sought(o, position, posLimit, path, m)
    ensures Cursor(o.volume.clusterSize, PlaceOf(o), o.position, path)
  {}

  /**
   * After a seek that succeeds, the cursor is good exactly when the seek was for a position inside the chain that it
   * saw.
   */
  lemma SoughtCursorIff(fat: map<nat, nat>, size: nat, place0: Place, cursor0: nat, position: nat, path: seq<nat>,
                        place: Place, cursor: nat)
    requires 0 < size && Walk(fat, place0.first, path) && LegalLinks(fat) && path != []
    requires AnyCursor(size, place0, cursor0, path)
    requires SeekEffect(fat, size, place0, cursor0, position, path, Success, place, cursor)
    ensures AnyCursor(size, place, cursor, path)
    ensures Cursor(size, place, cursor, path) <==> position / size < |path| && !UsesBehind(place0, cursor0, position)
  {
    var n := position / size;
    StartsThere(fat, size, place0, cursor0, position, path);
    assert path[0] in path;
    if n < |path| && !UsesBehind(place0, cursor0, position) {
      assert place.current == path[n] && cursor == n * size;
    } else {
      assert place.current >= SPECIAL;
      NotOnAny(fat, place0.first, path, place.current);
      StandsNowhere(size, place, cursor, path);
      assert Behind(size, place, cursor, path, n);
    }
  }

  lemma NotOnAny(fat: map<nat, nat>, first: nat, path: seq<nat>, c: nat)
    requires Walk(fat, first, path) && LegalLinks(fat) && path != [] && c >= SPECIAL
    ensures c !in path && c != first
  {
    forall i | 0 <= i < |path|
      ensures path[i] != c
    {
      InWalk(fat, first, path, i);
    }
    assert path[0] == first;
  }

  lemma StandsNowhere(size: nat, place: Place, position: nat, path: seq<nat>)
    requires place.current !in path && place.current != place.first
    ensures !Cursor(size, place, position, path)
  {
    forall i | 0 <= i < |path|
      ensures place.current != path[i]
    {
      assert path[i] in path;
    }
  }

  /** A seek inside the chain is right exactly when it does not start at a cursor that stands on no cluster. */
  lemma SeekRightIff(fat: map<nat, nat>, size: nat, place0: Place, cursor0: nat, position: nat, path: seq<nat>,
                     status: Status, place: Place, cursor: nat)
    requires 0 < size && Walk(fat, place0.first, path) && LegalLinks(fat) && position / size < |path|
    requires AnyCursor(size, place0, cursor0, path)
      && SeekEffect(fat, size, place0, cursor0, position, path, status, place, cursor)
    ensures status == Success && place.current == path[position / size] <==> !UsesBehind(place0, cursor0, position)
  {
    var n := position / size;
    assert path[n] in path && path[0] in path;
    StartsThere(fat, size, place0, cursor0, position, path);
    NotOnAny(fat, place0.first, path, SPECIAL);
    InWalk(fat, place0.first, path, n);
  }

  /**
   * A file of one cluster on which the code goes wrong: a seek to just behind the cluster succeeds; after the file has
   * grown by the next cluster, seeking to the same position succeeds again, but still stands on no cluster.
   */
  lemma SeekBehindThenGrow(place: Place, cursor: nat, status: Status, place': Place, cursor': nat)
    requires SeekEffect(map[2 := CLUSTER_LAST, 3 := CLUSTER_FREE], 512, Place(2, 2, 2), 0, 512, [2], Success, place,
                        cursor)
    requires SeekEffect(map[2 := 3, 3 := CLUSTER_LAST], 512, place, cursor, 512, [2, 3], status, place', cursor')
    ensures place.current == CLUSTER_LAST && cursor == 512
    ensures status == Success && place'.current == CLUSTER_LAST != 3
  {}

  /**
   * In 64 bits, the disk position behind a chain that ends with the last mark lies three clusters before the cluster
   * area.
   */
  lemma BehindTheEndWraps(v: Volume)
    ensures ClusterPos(v, CLUSTER_LAST) % 0x1_0000_0000_0000_0000
      == (v.firstClusterPos - 3 * v.clusterSize) % 0x1_0000_0000_0000_0000
  {
    var c := v.clusterSize;
    assert ClusterPos(v, CLUSTER_LAST) == v.firstClusterPos - 3 * c + 0x1_0000_0000_0000_0000 * c;
    WrapsAround(v.firstClusterPos - 3 * c, c);
  }

  lemma {:induction false} WrapsAround(x: int, c: nat)
    ensures (x + 0x1_0000_0000_0000_0000 * c) % 0x1_0000_0000_0000_0000 == x % 0x1_0000_0000_0000_0000
  {
    if c > 0 { WrapsAround(x, c - 1); }
  }

  /** Growing keeps the cursor good. */
  lemma GrownCursor(size: nat, place: Place, position: nat, path: seq<nat>, added: seq<nat>)
    requires Cursor(size, place, position, path)
    ensures Cursor(size, PlaceGrown(place, path, added), position, path + added)
  {
    if place.current != place.first {
      var i :| 0 <= i < |path| && position == i * size && place.current == path[i];
      assert (path + added)[i] == path[i];
    }
  }

  /** Shrinking keeps the cursor good. */
  lemma ShrunkCursor(size: nat, fat0: map<nat, nat>, place0: Place, path: seq<nat>, n: nat, fat: map<nat, nat>,
                     place: Place,
                     status: Status, position: nat)
    requires Walk(fat0, place0.first, path) && LegalLinks(fat0) && Shrunk(fat0, place0, path, n, fat, place, status)
    requires Cursor(size, place0, position, path)
    ensures Cursor(size, place, position, if n <= |path| then path[..n] else path)
  {
    FirstOfWalk(fat0, place0.first, path);
    if path != [] { assert path[0] in path; }
  }
}
