/** Finding, taking and freeing clusters (FileSpace.c: FatFreeClusters, FatAllocateCluster, FatComputeFreeInfo). */
module FreeSpace {
  import opened FatTypes
  import opened FatEntry
  import opened VolumeState
  import opened FatTable

  // ---------------------------------------------------------------- accounting

  /** Values that the driver stores in an entry. */
  ghost predicate Legal(fat: map<nat, nat>, value: nat) {
    value == CLUSTER_FREE || value == CLUSTER_LAST || value in fat
  }

  ghost predicate NothingBelow(fat: map<nat, nat>, hint: nat) {
    forall c :: c in fat && fat[c] == CLUSTER_FREE ==> hint <= c
  }

  /** No free cluster lies below the next-free hint. */
  ghost predicate HintLow(v: Volume)
    reads v
  {
    NothingBelow(v.fat, v.nextCluster)
  }

  lemma FreeAfterUpdate(fat: map<nat, nat>, index: nat, value: nat)
    requires index in fat
    ensures value == CLUSTER_FREE ==> FreeClusters(fat[index := value]) == FreeClusters(fat) + {index}
    ensures value != CLUSTER_FREE ==> FreeClusters(fat[index := value]) == FreeClusters(fat) - {index}
  {}

  /** What one entry update does to the number of free clusters is what FatSetFatEntry does to the count. */
  lemma CountFollowsUpdate(fat: map<nat, nat>, index: nat, value: nat, count: nat)
    requires index in fat && count == |FreeClusters(fat)|
    ensures CountAfterSet(count, fat[index], value) == |FreeClusters(fat[index := value])|
  {
    FreeAfterUpdate(fat, index, value);
    var free := FreeClusters(fat);
    if value == CLUSTER_FREE {
      if index !in free { assert |free + {index}| == |free| + 1; } else { assert free + {index} == free; }
    } else {
      if index in free { assert |free - {index}| == |free| - 1; } else { assert free - {index} == free; }
    }
  }

  lemma NormalOfLegal(v: Volume, value: nat)
    requires v.FatValid() && Legal(v.fat, value)
    ensures Normal(v.fatType, value) == value
  {
    assert value in v.fat ==> value <= v.maxCluster + 1;
    assert v.maxCluster + 1 < FirstSpecial(v.fatType);
    if value == CLUSTER_LAST {
      NormalOfLast(v.fatType);
    } else {
      NormalOfOrdinary(v.fatType, value);
    }
  }

  /** FatSetFatEntry with a value the driver stores keeps the free count and the hint right. */
  method SetEntry(v: Volume, index: nat, value: nat)
    requires v.FatValid() && index in v.fat && Legal(v.fat, value)
    modifies v`fatEntryPos, v`diskError, v`fat, v`clusterCount, v`nextCluster, v`fatDirty, FatRepr(v), v.fatCache
    ensures v.FatValid() && v.diskError == old(v.diskError)
    ensures v.fat == old(v.fat)[index := value]
    ensures old(FreeInfoAccurate(v)) ==> FreeInfoAccurate(v)
    ensures old(HintLow(v)) ==> HintLow(v)
    ensures value != CLUSTER_FREE ==> v.nextCluster == old(v.nextCluster)
  {
    hide Volume.FatValid, CountAfterSet;
    NormalOfLegal(v, value);
    MapFacts(v, index);
    ghost var fat, count := v.fat, v.clusterCount;
    var status := FatSetFatEntry(v, index, value);
    if count == |FreeClusters(fat)| {
      CountFollowsUpdate(fat, index, value, count);
    }
  }

  // ---------------------------------------------------------------- FatComputeFreeInfo

  ghost function FreeAbove(fat: map<nat, nat>, k: nat): set<nat> {
    set c | c in fat && fat[c] == CLUSTER_FREE && k < c
  }

  /** `next` is the lowest cluster of `free`; when there is none it is what it was before. */
  ghost predicate Lowest(free: set<nat>, next: nat, before: nat) {
    if free == {} then next == before else next in free && forall c :: c in free ==> next <= c
  }

  /** One step down of the scan. */
  lemma ScanStep(fat: map<nat, nat>, index: nat, next: nat, before: nat)
    requires index in fat && index > 0 && Lowest(FreeAbove(fat, index), next, before)
    ensures fat[index] == CLUSTER_FREE ==>
      |FreeAbove(fat, index - 1)| == |FreeAbove(fat, index)| + 1 && Lowest(FreeAbove(fat, index - 1), index, before)
    ensures fat[index] != CLUSTER_FREE ==> FreeAbove(fat, index - 1) == FreeAbove(fat, index)
  {
    if fat[index] == CLUSTER_FREE {
      assert FreeAbove(fat, index - 1) == FreeAbove(fat, index) + {index};
    }
  }

  /** What the scan has established when it has looked at every cluster above `index`. */
  ghost predicate Scanned(v: Volume, index: nat, before: nat)
    reads v
  {
    v.clusterCount == |FreeAbove(v.fat, index)| && Lowest(FreeAbove(v.fat, index), v.nextCluster, before)
  }

  /** One iteration of the scan. */
  method ScanCluster(v: Volume, index: nat, ghost before: nat)
    requires v.FatValid() && index in v.fat && Scanned(v, index, before)
    modifies v`fatEntryPos, v`diskError, v`clusterCount, v`nextCluster, FatRepr(v)
    ensures v.FatValid() && v.diskError == old(v.diskError)
    ensures index > 0 && Scanned(v, index - 1, before)
  {
    hide Volume.FatValid, Lowest, FreeAbove;
    InMap(v, index);
    var value := FatGetFatEntry(v, index);
    ScanStep(v.fat, index, v.nextCluster, before);
    if value == CLUSTER_FREE {
      TakeCount(v, index);
    }
  }

  /** One more free cluster: the count goes up and the hint moves to it. */
  method TakeCount(v: Volume, index: nat)
    requires v.FatValid() && 2 <= index
    modifies v`clusterCount, v`nextCluster
    ensures v.FatValid() && v.nextCluster == index && v.clusterCount == old(v.clusterCount) + 1
  {
    v.clusterCount := v.clusterCount + 1;
    v.nextCluster := index;
  }

  /** FatComputeFreeInfo: unless the free information is marked valid, count the free clusters and find the lowest. */
  method FatComputeFreeInfo(v: Volume)
    requires v.FatValid()
    modifies v`fatEntryPos, v`diskError, v`freeInfoValid, v`clusterCount, v`nextCluster, FatRepr(v)
    ensures v.FatValid() && v.diskError == old(v.diskError) && v.freeInfoValid
    ensures old(v.freeInfoValid) ==> v.clusterCount == old(v.clusterCount) && v.nextCluster == old(v.nextCluster)
    ensures !old(v.freeInfoValid) && !v.diskError ==>
      v.clusterCount == |FreeClusters(v.fat)| && Lowest(FreeClusters(v.fat), v.nextCluster, old(v.nextCluster))
  {
    hide Volume.FatValid, FreeAbove, FreeClusters;
    if !v.freeInfoValid {
      StartCount(v);
      var index := v.maxCluster + 1;
      while index >= MIN_CLUSTER
        invariant 1 <= index <= v.maxCluster + 1
        invariant v.FatValid() && v.diskError == old(v.diskError) && v.freeInfoValid
        invariant !v.diskError ==> Scanned(v, index, old(v.nextCluster))
      {
        if v.diskError {
          break;
        }
        InMap(v, index);
        ScanCluster(v, index, old(v.nextCluster));
        index := index - 1;
      }
      if !v.diskError {
        AllCounted(v, index);
      }
    }
  }

  method StartCount(v: Volume)
    requires v.FatValid()
    modifies v`freeInfoValid, v`clusterCount
    ensures v.FatValid() && v.freeInfoValid
    ensures v.clusterCount == |FreeAbove(v.fat, v.maxCluster + 1)| && FreeAbove(v.fat, v.maxCluster + 1) == {}
  {
    v.freeInfoValid := true;
    v.clusterCount := 0;
    assert FreeAbove(v.fat, v.maxCluster + 1) == {};
  }

  lemma InMap(v: Volume, index: nat)
    requires v.FatValid()
    ensures index in v.fat <==> 2 <= index <= v.maxCluster + 1
  {}

  lemma AllCounted(v: Volume, index: nat)
    requires v.FatValid() && index < MIN_CLUSTER
    ensures FreeAbove(v.fat, index) == FreeClusters(v.fat)
  {}

  // ---------------------------------------------------------------- FatAllocateCluster

  /** The free clusters at or above the hint. */
  ghost function FreeFrom(fat: map<nat, nat>, hint: nat): set<nat> {
    set c | c in fat && fat[c] == CLUSTER_FREE && hint <= c
  }

  ghost predicate Least(free: set<nat>, c: nat) {
    c in free && forall d :: d in free ==> c <= d
  }

  /** The (INT32) cast of a 32-bit count. */
  function AsInt32(n: nat): int {
    var low := n % 0x1_0000_0000;
    if low < 0x8000_0000 then low else low - 0x1_0000_0000
  }

  /** The free information says, rightly or not, that nothing is free. */
  predicate SaysFull(valid: bool, count: nat) {
    valid && AsInt32(count) <= 0
  }

  lemma FreeFromStep(fat: map<nat, nat>, hint: nat)
    requires hint in fat
    ensures fat[hint] == CLUSTER_FREE ==> Least(FreeFrom(fat, hint), hint)
    ensures fat[hint] != CLUSTER_FREE ==> FreeFrom(fat, hint + 1) == FreeFrom(fat, hint)
  {}

  lemma NothingBeyond(v: Volume)
    requires v.FatValid() && v.nextCluster > v.maxCluster + 1
    ensures FreeFrom(v.fat, v.nextCluster) == {}
  {}

  method AdvanceHint(v: Volume)
    requires v.FatValid()
    modifies v`nextCluster
    ensures v.FatValid() && v.nextCluster == old(v.nextCluster) + 1
  {
    v.nextCluster := v.nextCluster + 1;
  }

  method ForgetCount(v: Volume)
    requires v.FatValid()
    modifies v`freeInfoValid
    ensures v.FatValid() && !v.freeInfoValid
  {
    v.freeInfoValid := false;
  }

  /** The search has run off the end of the FAT: count again, unless the count says that nothing is free. */
  method Wrap(v: Volume)
    requires v.FatValid() && !v.diskError && v.nextCluster > v.maxCluster + 1
    modifies v`fatEntryPos, v`diskError, v`freeInfoValid, v`clusterCount, v`nextCluster, FatRepr(v)
    ensures v.FatValid() && !v.diskError
    ensures if old(SaysFull(v.freeInfoValid, v.clusterCount))
      then v.freeInfoValid && v.clusterCount == old(v.clusterCount) && v.nextCluster == old(v.nextCluster)
      else
        && v.freeInfoValid && v.clusterCount == |FreeClusters(v.fat)|
        && Lowest(FreeClusters(v.fat), v.nextCluster, old(v.nextCluster))
  {
    hide Volume.FatValid, FreeClusters, Lowest;
    if v.freeInfoValid && 0 < AsInt32(v.clusterCount) {
      ForgetCount(v);
    }
    FatComputeFreeInfo(v);
  }

  /** What FatAllocateCluster finds, from the hint and the free information before the call. */
  ghost predicate Allocated(fat: map<nat, nat>, hint: nat, saysFull: bool, cluster: nat) {
    if FreeFrom(fat, hint) != {} then Least(FreeFrom(fat, hint), cluster)
    else if saysFull || FreeClusters(fat) == {} then cluster == CLUSTER_LAST
    else Least(FreeClusters(fat), cluster)
  }

  /** FatAllocateCluster: the first free cluster from the hint on, or the lowest of all after counting again. */
  method FatAllocateCluster(v: Volume) returns (cluster: nat)
    requires v.FatValid()
    modifies v`fatEntryPos, v`diskError, v`freeInfoValid, v`clusterCount, v`nextCluster, FatRepr(v)
    ensures v.FatValid() && v.diskError == old(v.diskError)
    ensures v.diskError ==> cluster == CLUSTER_LAST
    ensures !v.diskError ==> Allocated(v.fat, old(v.nextCluster), old(SaysFull(v.freeInfoValid, v.clusterCount)),
                                       cluster)
    ensures cluster != CLUSTER_LAST ==> v.nextCluster == cluster + 1
    ensures old(FreeInfoAccurate(v)) ==> FreeInfoAccurate(v)
  {
    hide Volume.FatValid;
    if v.diskError {
      return CLUSTER_LAST;
    }
    ghost var full := SaysFull(v.freeInfoValid, v.clusterCount);
    while true
      invariant v.FatValid() && !v.diskError
      invariant FreeFrom(v.fat, v.nextCluster) == FreeFrom(v.fat, old(v.nextCluster))
      invariant v.freeInfoValid == old(v.freeInfoValid) && v.clusterCount == old(v.clusterCount)
      decreases v.maxCluster + 2 - v.nextCluster
    {
      hide Volume.FatValid, FreeFrom, FreeClusters;
      if v.nextCluster > v.maxCluster + 1 {
        NothingBeyond(v);
        Wrap(v);
        if v.nextCluster > v.maxCluster + 1 {
          FreeInMap(v);
          return CLUSTER_LAST;
        }
      }
      HintInMap(v);
      cluster := FatGetFatEntry(v, v.nextCluster);
      FreeFromStep(v.fat, v.nextCluster);
      if cluster == CLUSTER_FREE {
        break;
      }
      AdvanceHint(v);
    }
    cluster := v.nextCluster;
    AdvanceHint(v);
  }

  lemma FreeInMap(v: Volume)
    requires v.FatValid()
    ensures forall c :: c in FreeClusters(v.fat) ==> 2 <= c <= v.maxCluster + 1 && v.fat[c] == CLUSTER_FREE
  {}

  lemma HintInMap(v: Volume)
    requires v.FatValid() && v.nextCluster <= v.maxCluster + 1
    ensures v.nextCluster in v.fat && v.nextCluster < CLUSTER_LAST
  {}

  /**
   * The clusters from 2 on are fewer than the largest 32-bit integer, so an accurate count is never read as negative.
   */
  lemma AccurateSaysFull(v: Volume)
    requires v.FatValid() && FreeInfoAccurate(v) && v.freeInfoValid
    ensures SaysFull(v.freeInfoValid, v.clusterCount) <==> FreeClusters(v.fat) == {}
  {
    CountFits(v);
    hide Volume.FatValid;
    SmallIsPositive(v.clusterCount);
  }

  lemma CountFits(v: Volume)
    requires v.FatValid()
    ensures |FreeClusters(v.fat)| < 0x8000_0000
  {
    FreeInMap(v);
    assert v.maxCluster + 1 < FirstSpecial(v.fatType);
    hide Volume.FatValid, FreeClusters;
    Bounded(FreeClusters(v.fat), v.maxCluster + 2);
  }

  lemma SmallIsPositive(n: nat)
    requires n < 0x8000_0000
    ensures AsInt32(n) == n
  {}

  lemma {:induction false} Bounded(s: set<nat>, n: nat)
    requires forall c :: c in s ==> c < n
    ensures |s| <= n
  {
    if n == 0 {
      assert s == {};
    } else if n - 1 in s {
      Bounded(s - {n - 1}, n - 1);
    } else {
      Bounded(s, n - 1);
    }
  }

  // ---------------------------------------------------------------- FatFreeClusters

  /** A link that a walk can follow or stop at: free, special, or a cluster of the FAT. */
  ghost predicate LegalLink(fat: map<nat, nat>, link: nat) {
    link == CLUSTER_FREE || link >= SPECIAL || link in fat
  }

  ghost predicate LegalLinks(fat: map<nat, nat>) {
    (forall c :: c in fat ==> LegalLink(fat, fat[c])) && (forall c :: c in fat ==> 2 <= c < SPECIAL - 1)
  }

  ghost function UsedClusters(fat: map<nat, nat>): set<nat> {
    set c | c in fat && fat[c] != CLUSTER_FREE
  }

  /** Each step of the freeing walk lowers the number of used entries, or moves to a free link, where it stops. */
  lemma FreeStep(fat: map<nat, nat>, c: nat)
    requires LegalLinks(fat) && c in fat
    ensures LegalLinks(fat[c := CLUSTER_FREE]) && LegalLink(fat[c := CLUSTER_FREE], fat[c])
    ensures fat[c] != CLUSTER_FREE ==> |UsedClusters(fat[c := CLUSTER_FREE])| < |UsedClusters(fat)|
    ensures fat[c] == CLUSTER_FREE ==> fat[c := CLUSTER_FREE] == fat
  {
    if fat[c] != CLUSTER_FREE {
      assert UsedClusters(fat[c := CLUSTER_FREE]) == UsedClusters(fat) - {c};
    }
  }

  /** The freeing walk from cluster `c`: the FAT it leaves and its status.  It ends on cyclic chains too. */
  ghost function FreeWalk(fat: map<nat, nat>, c: nat): (r: (map<nat, nat>, Status))
    requires LegalLinks(fat) && LegalLink(fat, c)
    ensures r.0.Keys == fat.Keys
    ensures forall i :: i in fat ==> r.0[i] == fat[i] || r.0[i] == CLUSTER_FREE
    ensures r.1 == Success || r.1 == VolumeCorrupted
    decreases |UsedClusters(fat)|, if c == CLUSTER_FREE then 0 else 1
  {
    if EndOfChain(c) then (fat, Success)
    else if c == CLUSTER_FREE || c >= SPECIAL then (fat, VolumeCorrupted)
    else
      FreeStep(fat, c);
      FreeWalk(fat[c := CLUSTER_FREE], fat[c])
  }

  /** FatFreeClusters. */
  method FatFreeClusters(v: Volume, first: nat) returns (status: Status)
    requires v.FatValid() && LegalLinks(v.fat) && LegalLink(v.fat, first)
    modifies v`fatEntryPos, v`diskError, v`fat, v`clusterCount, v`nextCluster, v`fatDirty, FatRepr(v), v.fatCache
    ensures v.FatValid() && v.diskError == old(v.diskError)
    ensures (v.fat, status) == FreeWalk(old(v.fat), first)
    ensures old(FreeInfoAccurate(v)) ==> FreeInfoAccurate(v)
    ensures old(HintLow(v)) ==> HintLow(v)
  {
    hide Volume.FatValid, UsedClusters, FreeClusters, LegalLinks;
    var cluster: nat := first;
    while !EndOfChain(cluster)
      invariant v.FatValid() && v.diskError == old(v.diskError)
      invariant LegalLinks(v.fat) && LegalLink(v.fat, cluster)
      invariant FreeWalk(v.fat, cluster) == FreeWalk(old(v.fat), first)
      invariant old(FreeInfoAccurate(v)) ==> FreeInfoAccurate(v)
      invariant old(HintLow(v)) ==> HintLow(v)
      decreases |UsedClusters(v.fat)|, if cluster == CLUSTER_FREE then 0 else 1
    {
      if cluster == CLUSTER_FREE || cluster >= SPECIAL {
        return VolumeCorrupted;
      }
      var last := cluster;
      cluster := FatGetFatEntry(v, cluster);
      FreeStep(v.fat, last);
      SetEntry(v, last, CLUSTER_FREE);
    }
    status := Success;
  }
}
