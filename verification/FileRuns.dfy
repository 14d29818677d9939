/** Runs of seeking, growing and shrinking on one open file (FileSpace.c; ReadWrite.c: FatTruncateOFile). */
module FileRuns {
  import opened FatTypes
  import opened FatEntry
  import opened VolumeState
  import opened FatTable
  import opened FreeSpace
  import opened Chains
  import opened Growth
  import opened FileSpace
  import opened FilePosition

  /** The FAT and the fields of one open file, with its chain. */
  datatype FileState = FileState(fat: map<nat, nat>, place: Place, position: nat, fileSize: nat, path: seq<nat>)

  /**
   * What every call relies on: a chain, which may not fit the size, its last cluster if it is known, and some cursor.
   */
  ghost predicate Ready(size: nat, s: FileState) {
    && 0 < size && LegalLinks(s.fat) && Chain(s.fat, s.place.first, s.path)
    && (Known(s.place, s.path) ==> s.place.last == LastOf(CLUSTER_FREE, s.path))
    && AnyCursor(size, s.place, s.position, s.path)
  }

  /** The cursor agrees with the chain. */
  ghost predicate Good(size: nat, s: FileState) {
    Cursor(size, s.place, s.position, s.path)
  }

  // ---------------------------------------------------------------- single steps

  datatype FileOp = Seek(to: nat, posLimit: int) | Grow(newSize: nat) | Truncate(newSize: nat)

  /** The chain after it was cut to `n` clusters, if it has that many. */
  ghost function PathAfter(n: nat, path: seq<nat>): seq<nat> {
    if n <= |path| then path[..n] else path
  }

  ghost predicate SeekStep(size: nat, s: FileState, to: nat, status: Status, s': FileState)
    requires 0 < size && forall c :: c in s.path ==> c in s.fat
  {
    && SeekEffect(s.fat, size, s.place, s.position, to, s.path, status, s'.place, s'.position)
    && s' == s.(place := s'.place, position := s'.position)
  }

  ghost predicate TruncateStep(v: Volume, s: FileState, newSize: nat, status: Status, s': FileState)
    requires 0 < v.clusterSize && forall c :: c in s.path ==> c in s.fat
  {
    var n := FatSizeToClusters(v, newSize);
    && Shrunk(s.fat, s.place, s.path, n, s'.fat, s'.place, status)
    && s' == FileState(s'.fat, s'.place, s.position, newSize, PathAfter(n, s.path))
  }

  ghost predicate GrowStep(v: Volume, s: FileState, newSize: nat, added: seq<nat>, status: Status, s': FileState)
    requires 0 < v.clusterSize
  {
    if newSize > 0xFFFF_FFFF then status == Unsupported && s' == s
    else
      var cur := FatSizeToClusters(v, s.fileSize);
      && GrowOutcome(s.fat, s.place, s.path, cur, FatSizeToClusters(v, newSize), added, status, s'.fat, s'.place)
      && s' == FileState(s'.fat, s'.place, s.position, if status == Success then newSize else s.fileSize,
                         if status == Success then s.path + added else PathAfter(cur, s.path + added))
  }

  ghost predicate Step(v: Volume, s: FileState, op: FileOp, added: seq<nat>, status: Status, s': FileState) {
    && 0 < v.clusterSize && (forall c :: c in s.path ==> c in s.fat)
    && match op
       case Seek(to, _) => SeekStep(v.clusterSize, s, to, status, s')
       case Grow(newSize) => GrowStep(v, s, newSize, added, status, s')
       case Truncate(newSize) => TruncateStep(v, s, newSize, status, s')
  }

  // ---------------------------------------------------------------- what single steps keep

  /** From a good cursor, exactly the seeks inside the chain and to just behind its last cluster succeed. */
  lemma GoodSeek(size: nat, s: FileState, to: nat, status: Status, s': FileState)
    requires Ready(size, s) && Good(size, s) && SeekStep(size, s, to, status, s')
    ensures !UsesBehind(s.place, s.position, to)
    ensures status == Success <==> s.path != [] && to / size <= |s.path|
  {
    GoodCursorSeesAll(s.fat, size, s.place, s.position, to, s.path);
    hide LegalLinks, Cursor, AnyCursor, UsesBehind, Known, Seen, SeenStop;
  }

  /**
   * A seek that fails changes nothing; after one that succeeds, the cursor is good if it was for a cluster of the
   * chain that it saw.
   */
  lemma SeekKeeps(size: nat, s: FileState, to: nat, status: Status, s': FileState)
    requires Ready(size, s) && SeekStep(size, s, to, status, s')
    ensures Ready(size, s')
    ensures status != Success ==> s' == s
    ensures status == Success ==> (Good(size, s') <==> to / size < |s.path| && !UsesBehind(s.place, s.position, to))
  {
    if s.path == [] {
      NoSeekWithoutClusters(size, s, to, status, s');
    } else if status == Success {
      SoughtCursorIff(s.fat, size, s.place, s.position, to, s.path, s'.place, s'.position);
      SameEnds(s.fat, size, s.place, s.position, to, s.path, s'.place, s'.position);
    }
    hide LegalLinks, Cursor, AnyCursor, UsesBehind, Seen, SeenStop, Walk;
  }

  lemma SameEnds(fat: map<nat, nat>, size: nat, place0: Place, cursor0: nat, to: nat, path: seq<nat>, place: Place,
                 cursor: nat)
    requires 0 < size && (forall c :: c in path ==> c in fat)
    requires SeekEffect(fat, size, place0, cursor0, to, path, Success, place, cursor)
    ensures place.first == place0.first && place.last == place0.last
  {}

  lemma NoSeekWithoutClusters(size: nat, s: FileState, to: nat, status: Status, s': FileState)
    requires Ready(size, s) && SeekStep(size, s, to, status, s') && s.path == []
    ensures status == VolumeCorrupted && s' == s && Good(size, s)
  {
    GoodCursorSeesAll(s.fat, size, s.place, s.position, to, s.path);
  }

  lemma TruncatedLegal(fat: map<nat, nat>, path: seq<nat>, n: nat)
    requires LegalLinks(fat) && n <= |path| && forall c :: c in path ==> c in fat
    ensures LegalLinks(Truncated(fat, path, n))
  {
    if n > 0 { assert path[n - 1] in path; }
    assert Truncated(fat, path, n).Keys == fat.Keys;
  }

  /** Cutting keeps the file ready; its cursor is good afterwards when the cut is made, or when it was good before. */
  lemma ShrunkKeeps(size: nat, fat0: map<nat, nat>, place0: Place, path: seq<nat>, n: nat, fat: map<nat, nat>,
                    place: Place,
                    status: Status, position: nat)
    requires LegalLinks(fat0) && Chain(fat0, place0.first, path) && AnyCursor(size, place0, position, path)
    requires Known(place0, path) ==> place0.last == LastOf(CLUSTER_FREE, path)
    requires Shrunk(fat0, place0, path, n, fat, place, status)
    ensures var path' := PathAfter(n, path);
      && LegalLinks(fat) && Chain(fat, place.first, path') && AnyCursor(size, place, position, path')
      && (Known(place, path') ==> place.last == LastOf(CLUSTER_FREE, path'))
      && (Cursor(size, place, position, path') <==> n <= |path| || Cursor(size, place0, position, path))
    ensures n <= |path| ==> status == Success
  {
    if n <= |path| {
      TruncatedLegal(fat0, path, n);
      CutChain(fat0, place0.first, path, n);
      hide Truncated, LegalLinks, Chain;
      if path != [] { assert path[0] in path; }
    }
  }

  /** A chain that is cut is one of the clusters that are kept, or none. */
  lemma CutChain(fat: map<nat, nat>, first: nat, path: seq<nat>, n: nat)
    requires LegalLinks(fat) && Chain(fat, first, path) && n <= |path|
    ensures forall c :: c in path ==> c in fat
    ensures Chain(Truncated(fat, path, n), if n == 0 then CLUSTER_FREE else first, path[..n])
    ensures path != [] ==> first == path[0] != CLUSTER_FREE
  {
    if path != [] { assert path[0] in path; }
    hide Truncated, LegalLinks;
    if n > 0 { TruncatedKeepsPrefix(fat, first, path, n); }
  }

  /** Growing keeps the file ready, and its cursor as good as it was. */
  lemma GrownKeeps(size: nat, fat0: map<nat, nat>, place0: Place, path: seq<nat>, added: seq<nat>, position: nat)
    requires Chain(fat0, place0.first, path) && AnyCursor(size, place0, position, path)
    requires Extension(fat0, LastOf(CLUSTER_FREE, path), added)
    ensures var fat, place, path' := Grown(fat0, LastOf(CLUSTER_FREE, path), added), PlaceGrown(place0, path, added),
      path + added;
      && LegalLinks(fat) && Chain(fat, place.first, path') && AnyCursor(size, place, position, path')
      && place.last == LastOf(CLUSTER_FREE, path')
      && (Cursor(size, place, position, path') <==> Cursor(size, place0, position, path))
  {
    var base := LastOf(CLUSTER_FREE, path);
    GrownIsChain(fat0, place0.first, path, added);
    GrownLegal(fat0, base, added);
    hide Grown, LegalLinks, Extension, Chain;
    if Cursor(size, place0, position, path) {
      GrownCursor(size, place0, position, path, added);
    } else {
      StaysBehind(size, Grown(fat0, base, added), place0, path, added, position);
    }
  }

  /** A cursor behind the old chain stands on no cluster of the grown one. */
  lemma StaysBehind(size: nat, fat: map<nat, nat>, place0: Place, path: seq<nat>, added: seq<nat>, position: nat)
    requires AnyCursor(size, place0, position, path) && !Cursor(size, place0, position, path)
    requires LegalLinks(fat) && Chain(fat, GrownFirst(place0.first, path, added), path + added)
    ensures var place, path' := PlaceGrown(place0, path, added), path + added;
      AnyCursor(size, place, position, path') && !Cursor(size, place, position, path')
  {
    var k :| Behind(size, place0, position, path, k);
    var place := PlaceGrown(place0, path, added);
    assert Behind(size, place, position, path + added, k);
    NotOnAny(fat, place.first, path + added, place.current);
    StandsNowhere(size, place, position, path + added);
  }

  /** The same for every outcome of FatGrowEof. */
  lemma GrowKeeps(v: Volume, s: FileState, newSize: nat, added: seq<nat>, status: Status, s': FileState)
    requires Ready(v.clusterSize, s) && GrowStep(v, s, newSize, added, status, s')
    ensures Ready(v.clusterSize, s')
    ensures Good(v.clusterSize, s') <==> Good(v.clusterSize, s) || CutByGrowth(v, s, added, status)
  {
    var size, cur := v.clusterSize, FatSizeToClusters(v, s.fileSize);
    hide FatSizeToClusters, LegalLinks, Chain, Cursor, AnyCursor, Extension, Grown, Shrunk, PlaceGrown, LastOf;
    if newSize <= 0xFFFF_FFFF && cur < FatSizeToClusters(v, newSize) {
      if added == [] && status == VolumeCorrupted {
        var place := s.place.(last := LastOf(CLUSTER_FREE, s.path));
        var r :| Shrunk(s.fat, place, s.path, cur, s'.fat, s'.place, r);
        SameCursor(size, s.place, place, s.position, s.path);
        ShrunkKeeps(size, s.fat, place, s.path, cur, s'.fat, s'.place, r, s.position);
        assert s.path + added == s.path;
      } else {
        GrownKeeps(size, s.fat, s.place, s.path, added, s.position);
        if status != Success {
          var r :| CutBack(s.fat, s.place, s.path, cur, added, s'.fat, s'.place, r);
          ShrunkKeeps(size, Grown(s.fat, LastOf(CLUSTER_FREE, s.path), added), PlaceGrown(s.place, s.path, added),
                      s.path + added, cur, s'.fat, s'.place, r, s.position);
        }
      }
    } else {
      assert s.path + [] == s.path;
    }
  }

  /** A growth that failed cuts the chain to the file's size, if it has that many clusters. */
  ghost predicate CutByGrowth(v: Volume, s: FileState, added: seq<nat>, status: Status)
    requires 0 < v.clusterSize
  {
    (status == VolumeFull || status == VolumeCorrupted) && FatSizeToClusters(v, s.fileSize) <= |s.path + added|
  }

  /**
   * A growth that finds the volume full leaves the chain as it was exactly when the chain had the clusters that the
   * file's size asks for, or fewer and nothing was free.  The FAT is then what it was, but for the end mark.
   */
  lemma RestoredIff(v: Volume, s: FileState, newSize: nat, added: seq<nat>, s': FileState)
    requires Ready(v.clusterSize, s) && GrowStep(v, s, newSize, added, VolumeFull, s')
    ensures var cur := FatSizeToClusters(v, s.fileSize);
      s'.path == s.path <==> |s.path| == cur || (|s.path| < cur && FreeClusters(s.fat) == {})
    ensures s'.path == s.path ==>
      s'.fat == if s.path == [] then s.fat else s.fat[LastOf(CLUSTER_FREE, s.path) := CLUSTER_LAST]
  {
    var cur, base := FatSizeToClusters(v, s.fileSize), LastOf(CLUSTER_FREE, s.path);
    hide FatSizeToClusters, LegalLinks, AnyCursor, Chain, Extension, Shrunk, FreeClusters, PlaceGrown, Grown;
    assert FreeClusters(s.fat) == {} <==> added == [];
    var r :| CutBack(s.fat, s.place, s.path, cur, added, s'.fat, s'.place, r);
    assert added == [] ==> s.path + added == s.path;
    if |s.path| == cur {
      assert (s.path + added)[..cur] == s.path;
      RolledBack(s.fat, s.place, s.path, added, s'.fat, s'.place, r);
    } else if |s.path| < cur && added == [] {
      UncutGrowth(s.fat, s.place, s.path, cur, s'.fat, s'.place, r);
    }
  }

  /** A file of size 2048 with a chain of one cluster of 512 bytes, its last cluster known, and one cluster free. */
  ghost function LooseFile(): FileState {
    FileState(map[2 := CLUSTER_LAST, 3 := CLUSTER_FREE], Place(2, 2, 2), 0, 2048, [2])
  }

  /** A growth of this file to seven clusters finds the volume full, and leaves a chain of two. */
  lemma FailedGrowthKeepsMore(v: Volume, added: seq<nat>, status: Status, s': FileState)
    requires v.clusterSize == 512 && GrowStep(v, LooseFile(), 3584, added, status, s')
    ensures status == VolumeFull && s'.path == [2, 3] && s'.place.last == 3
  {
    assert FreeClusters(LooseFile().fat) == {3};
    assert FatSizeToClusters(v, 2048) == 4 && FatSizeToClusters(v, 3584) == 7;
    assert LastOf(CLUSTER_FREE, [2]) == 2;
    assert |added| == 1 && added[0] in added;
    assert [2] + added == [2, 3];
  }

  /** There is such a growth, and the file is ready for it. */
  lemma LooseFileGrows(v: Volume)
    requires v.clusterSize == 512
    ensures Ready(v.clusterSize, LooseFile())
    ensures exists s' :: GrowStep(v, LooseFile(), 3584, [3], VolumeFull, s')
  {
    var s := LooseFile();
    assert FreeClusters(s.fat) == {3};
    assert FatSizeToClusters(v, 2048) == 4 && FatSizeToClusters(v, 3584) == 7;
    assert LastOf(CLUSTER_FREE, [2]) == 2;
    GrownIsChain(s.fat, 2, [2], [3]);
    var s' := FileState(Grown(s.fat, 2, [3]), PlaceGrown(s.place, [2], [3]), 0, 2048, [2, 3]);
    assert [2] + [3] == [2, 3];
    assert CutBack(s.fat, s.place, [2], 4, [3], s'.fat, s'.place, VolumeCorrupted);
    assert GrowStep(v, s, 3584, [3], VolumeFull, s');
  }

  lemma UncutGrowth(fat0: map<nat, nat>, place0: Place, path: seq<nat>, cur: nat, fat: map<nat, nat>, place: Place,
                    r: Status)
    requires CutBack(fat0, place0, path, cur, [], fat, place, r) && |path| < cur
    requires path != [] ==> LastOf(CLUSTER_FREE, path) != CLUSTER_FREE
    ensures fat == if path == [] then fat0 else fat0[LastOf(CLUSTER_FREE, path) := CLUSTER_LAST]
  {
    assert path + [] == path;
  }

  lemma SameCursor(size: nat, place: Place, place': Place, position: nat, path: seq<nat>)
    requires place'.first == place.first && place'.current == place.current
    ensures Cursor(size, place', position, path) <==> Cursor(size, place, position, path)
    ensures AnyCursor(size, place, position, path) ==> AnyCursor(size, place', position, path)
  {
    if k :| Behind(size, place, position, path, k) {
      assert Behind(size, place', position, path, k);
    }
  }

  lemma TruncateKeeps(v: Volume, s: FileState, newSize: nat, status: Status, s': FileState)
    requires Ready(v.clusterSize, s) && TruncateStep(v, s, newSize, status, s')
    ensures Ready(v.clusterSize, s')
    ensures Good(v.clusterSize, s') <==> FatSizeToClusters(v, newSize) <= |s.path| || Good(v.clusterSize, s)
    ensures FatSizeToClusters(v, newSize) <= |s.path| ==> status == Success
  {
    hide FatSizeToClusters, LegalLinks, Chain, Cursor, AnyCursor, Shrunk, LastOf;
    ShrunkKeeps(v.clusterSize, s.fat, s.place, s.path, FatSizeToClusters(v, newSize), s'.fat, s'.place, status,
                s.position);
  }

  // ---------------------------------------------------------------- every run

  /** The one call that spoils a good cursor: a seek to just behind the last cluster. */
  predicate SeeksBehind(size: nat, path: seq<nat>, op: FileOp)
    requires 0 < size
  {
    op.Seek? && path != [] && op.to / size == |path|
  }

  lemma StepKeeps(v: Volume, s: FileState, op: FileOp, added: seq<nat>, status: Status, s': FileState)
    requires Ready(v.clusterSize, s) && Step(v, s, op, added, status, s')
    ensures Ready(v.clusterSize, s')
    ensures Good(v.clusterSize, s) ==> (Good(v.clusterSize, s') <==> !SeeksBehind(v.clusterSize, s.path, op))
  {
    hide Ready, Good, SeekStep, GrowStep, TruncateStep, CutByGrowth, FatSizeToClusters, UsesBehind;
    match op
    case Seek(to, _) =>
      SeekKeeps(v.clusterSize, s, to, status, s');
      if Good(v.clusterSize, s) { GoodSeek(v.clusterSize, s, to, status, s'); }
    case Grow(newSize) =>
      GrowKeeps(v, s, newSize, added, status, s');
    case Truncate(newSize) =>
      TruncateKeeps(v, s, newSize, status, s');
  }

  ghost predicate Next(v: Volume, s: FileState, op: FileOp, s': FileState) {
    exists added, status :: Step(v, s, op, added, status, s')
  }

  lemma NextKeeps(v: Volume, s: FileState, op: FileOp, s': FileState)
    requires Ready(v.clusterSize, s) && Next(v, s, op, s')
    ensures Ready(v.clusterSize, s') && 0 < v.clusterSize
    ensures Good(v.clusterSize, s) ==> (Good(v.clusterSize, s') <==> !SeeksBehind(v.clusterSize, s.path, op))
  {
    var added, status :| Step(v, s, op, added, status, s');
    StepKeeps(v, s, op, added, status, s');
  }

  /** The states that a run of calls passes through. */
  ghost predicate Run(v: Volume, ops: seq<FileOp>, states: seq<FileState>) {
    |states| == |ops| + 1 && forall i :: 0 <= i < |ops| ==> Next(v, states[i], ops[i], states[i + 1])
  }

  lemma {:induction false} ReadyAlong(v: Volume, ops: seq<FileOp>, states: seq<FileState>, n: nat)
    requires Run(v, ops, states) && Ready(v.clusterSize, states[0]) && n < |states|
    ensures Ready(v.clusterSize, states[n])
  {
    hide Ready, Next;
    if n > 0 {
      ReadyAlong(v, ops, states, n - 1);
      NextKeeps(v, states[n - 1], ops[n - 1], states[n]);
    }
  }

  lemma {:induction false} GoodAlong(v: Volume, ops: seq<FileOp>, states: seq<FileState>, n: nat)
    requires Run(v, ops, states) && Ready(v.clusterSize, states[0]) && Good(v.clusterSize, states[0]) && n < |states|
    requires 0 < v.clusterSize && forall i :: 0 <= i < n ==> !SeeksBehind(v.clusterSize, states[i].path, ops[i])
    ensures Good(v.clusterSize, states[n])
  {
    hide Ready, Next, Good, SeeksBehind;
    if n > 0 {
      GoodAlong(v, ops, states, n - 1);
      ReadyAlong(v, ops, states, n - 1);
      NextKeeps(v, states[n - 1], ops[n - 1], states[n]);
    }
  }

  ghost predicate AlwaysGood(size: nat, states: seq<FileState>) {
    forall i :: 0 <= i < |states| ==> Good(size, states[i])
  }

  ghost predicate NeverBehind(size: nat, ops: seq<FileOp>, states: seq<FileState>)
    requires 0 < size && |states| == |ops| + 1
  {
    forall i :: 0 <= i < |ops| ==> !SeeksBehind(size, states[i].path, ops[i])
  }

  /**
   * Every run of seeks, growths and truncations, whatever their outcomes, keeps the file ready for the next call.
   * The cursor agrees with the chain all along exactly when no seek of the run is to just behind the last cluster.
   */
  lemma EveryRun(v: Volume, ops: seq<FileOp>, states: seq<FileState>)
    requires Run(v, ops, states) && Ready(v.clusterSize, states[0])
    ensures forall i :: 0 <= i < |states| ==> Ready(v.clusterSize, states[i])
    ensures Good(v.clusterSize, states[0]) ==>
      (AlwaysGood(v.clusterSize, states) <==> NeverBehind(v.clusterSize, ops, states))
  {
    hide Next, Good, SeeksBehind, LegalLinks, Chain, AnyCursor, Known;
    assert 0 < v.clusterSize;
    hide Ready;
    forall i | 0 <= i < |states|
      ensures Ready(v.clusterSize, states[i])
    {
      ReadyAlong(v, ops, states, i);
    }
    if Good(v.clusterSize, states[0]) && NeverBehind(v.clusterSize, ops, states) {
      forall n | 0 <= n < |states|
        ensures Good(v.clusterSize, states[n])
      {
        GoodAlong(v, ops, states, n);
      }
    }
    if AlwaysGood(v.clusterSize, states) {
      forall i | 0 <= i < |ops|
        ensures !SeeksBehind(v.clusterSize, states[i].path, ops[i])
      {
        NextKeeps(v, states[i], ops[i], states[i + 1]);
      }
    }
  }

  // ---------------------------------------------------------------- the calls

  ghost function StateOf(o: OFile, path: seq<nat>): FileState
    reads o, o.volume
  {
    FileState(o.volume.fat, PlaceOf(o), o.position, o.fileSize, path)
  }

  /** The volume can be used: its FAT is decoded, its free information is right, and no request was out of bounds. */
  ghost predicate Usable(v: Volume)
    reads v, v.CacheRepr()
  {
    v.FatValid() && FreeInfoAccurate(v) && !v.diskError
  }

  /** FatTruncateOFile. */
  method FatTruncateOFile(o: OFile, truncatedSize: nat, ghost path: seq<nat>) returns (status: Status)
    requires Usable(o.volume) && Ready(o.volume.clusterSize, StateOf(o, path))
    modifies VolumeRepr(o.volume)
    modifies o`fileSize, o`fileCluster, o`fileCurrentCluster, o`fileLastCluster, o`dirty
    ensures Usable(o.volume)
    ensures var n := FatSizeToClusters(o.volume, truncatedSize);
      TruncateStep(o.volume, old(StateOf(o, path)), truncatedSize, status, StateOf(o, PathAfter(n, path)))
  {
    hide Volume.FatValid, FatSizeToClusters, LegalLinks, AnyCursor, FreeInfoAccurate, Shrunk;
    SetSize(o, truncatedSize);
    status := FatShrinkEof(o, path);
  }

  method SetSize(o: OFile, size: nat)
    requires Usable(o.volume)
    modifies o`fileSize
    ensures Usable(o.volume) && o.fileSize == size && PlaceOf(o) == old(PlaceOf(o))
  {
    o.fileSize := size;
  }

  lemma ReadyToGrow(o: OFile, path: seq<nat>)
    requires Ready(o.volume.clusterSize, StateOf(o, path))
    ensures GrowReady(o, path)
  {
    BaseFacts(o.volume.fat, o.fileCluster, path);
  }

  /** One call. */
  method Call(o: OFile, op: FileOp, ghost path: seq<nat>)
      returns (status: Status, ghost added: seq<nat>, ghost path': seq<nat>)
    requires !o.isFixedRootDir && Usable(o.volume) && Ready(o.volume.clusterSize, StateOf(o, path))
    modifies VolumeRepr(o.volume), o
    ensures Usable(o.volume)
    ensures Step(o.volume, old(StateOf(o, path)), op, added, status, StateOf(o, path'))
  {
    hide Volume.FatValid, FatSizeToClusters, LegalLinks, AnyCursor, FreeClusters, Shrunk, GrowOutcome, SeekEffect,
      GrowReady;
    added, path' := [], path;
    match op
    case Seek(to, posLimit) =>
      ghost var m;
      status, m := FatOFilePosition(o, to, posLimit, path);
    case Grow(newSize) =>
      ReadyToGrow(o, path);
      status, added := FatGrowEof(o, newSize, path);
      if newSize <= 0xFFFF_FFFF {
        path' := if status == Success then path + added
          else PathAfter(FatSizeToClusters(o.volume, o.fileSize), path + added);
      }
    case Truncate(newSize) =>
      status := FatTruncateOFile(o, newSize, path);
      path' := PathAfter(FatSizeToClusters(o.volume, newSize), path);
  }

  /** A run of calls on an open file is a run of the states. */
  method RunCalls(o: OFile, ops: seq<FileOp>, ghost path: seq<nat>) returns (ghost states: seq<FileState>)
    requires !o.isFixedRootDir && Usable(o.volume) && Ready(o.volume.clusterSize, StateOf(o, path))
    modifies VolumeRepr(o.volume), o
    ensures Usable(o.volume) && Run(o.volume, ops, states)
    ensures states[0] == old(StateOf(o, path))
    ensures states[|ops|] == StateOf(o, states[|ops|].path) && Ready(o.volume.clusterSize, states[|ops|])
  {
    hide Volume.FatValid, Ready, Step, FreeInfoAccurate;
    states := [StateOf(o, path)];
    for i := 0 to |ops|
      invariant Usable(o.volume) && Run(o.volume, ops[..i], states) && states[0] == old(StateOf(o, path))
      invariant states[i] == StateOf(o, states[i].path) && Ready(o.volume.clusterSize, states[i])
    {
      var status;
      ghost var added, path';
      ghost var before := states[i];
      status, added, path' := Call(o, ops[i], before.path);
      states := states + [StateOf(o, path')];
      assert Next(o.volume, before, ops[i], states[i + 1]);
      NextKeeps(o.volume, before, ops[i], states[i + 1]);
      assert ops[..i + 1] == ops[..i] + [ops[i]];
    }
    assert ops[..|ops|] == ops;
  }
}
