/**
 * Extending a chain cluster by cluster, as FatGrowEof does: a new cluster is linked only when the next one is found.
 */
module Growth {
  import opened FatEntry
  import opened VolumeState
  import opened FreeSpace
  import opened Chains

  /** The cluster that the next link will be written to; 0 when the chain is still empty. */
  ghost function LastOf(base: nat, added: seq<nat>): nat {
    if added == [] then base else added[|added| - 1]
  }

  /** The FAT after the clusters `added` were linked behind `base`; the last of them still reads as free. */
  ghost function Linked(fat: map<nat, nat>, base: nat, added: seq<nat>): map<nat, nat> {
    if added == [] then fat
    else
      var before := added[..|added| - 1];
      var last := LastOf(base, before);
      if last == CLUSTER_FREE then Linked(fat, base, before)
      else Linked(fat, base, before)[last := added[|added| - 1]]
  }

  /** `added` may be linked behind `base`: distinct free clusters, and a used base if there is one. */
  ghost predicate Extension(fat: map<nat, nat>, base: nat, added: seq<nat>) {
    && LegalLinks(fat)
    && Distinct(added) && (forall a :: a in added ==> a in FreeClusters(fat))
    && (base != CLUSTER_FREE ==> base in fat && fat[base] != CLUSTER_FREE)
  }

  ghost function SetOf(s: seq<nat>): set<nat> { set c | c in s }

  /** All of `s` but its last element. */
  ghost function Front(s: seq<nat>): seq<nat> {
    if s == [] then [] else s[..|s| - 1]
  }

  lemma ExtensionFront(fat: map<nat, nat>, base: nat, added: seq<nat>)
    requires Extension(fat, base, added) && added != []
    ensures Extension(fat, base, Front(added))
    ensures added[|added| - 1] !in Front(added)
    ensures forall c :: c in added <==> c in Front(added) || c == added[|added| - 1]
    ensures LastOf(base, Front(added)) != CLUSTER_FREE ==> LastOf(base, Front(added)) in fat
    ensures |added| > 1 ==> LastOf(base, Front(added)) == added[|added| - 2] != added[|added| - 1]
    ensures |added| > 1 ==>
      && LastOf(base, Front(added)) in FreeClusters(fat)
      && LastOf(base, Front(added)) !in Front(Front(added))
  {
    var n := |added| - 1;
    assert added == Front(added) + [added[n]];
    assert forall c :: c in Front(added) ==> c in added;
    if n > 0 { assert added[n - 1] in added; }
  }

  lemma {:induction false} LinkedKeys(fat: map<nat, nat>, base: nat, added: seq<nat>)
    requires Extension(fat, base, added)
    ensures Linked(fat, base, added).Keys == fat.Keys
  {
    if added != [] {
      ExtensionFront(fat, base, added);
      LinkedKeys(fat, base, Front(added));
    }
  }

  /** The linking changes no entry but those of `base` and of `added`, and not yet the last of these. */
  lemma {:induction false} LinkedOther(fat: map<nat, nat>, base: nat, added: seq<nat>, c: nat)
    requires Extension(fat, base, added) && c in fat && (c != base || added == []) && c !in Front(added)
    ensures c in Linked(fat, base, added) && Linked(fat, base, added)[c] == fat[c]
  {
    LinkedKeys(fat, base, added);
    if added != [] {
      ExtensionFront(fat, base, added);
      if |added| > 1 { ExtensionFront(fat, base, Front(added)); }
      LinkedOther(fat, base, Front(added), c);
    }
  }

  /** The base leads to the first new cluster. */
  lemma {:induction false} LinkedBase(fat: map<nat, nat>, base: nat, added: seq<nat>)
    requires Extension(fat, base, added) && base != CLUSTER_FREE && added != []
    ensures base in Linked(fat, base, added) && Linked(fat, base, added)[base] == added[0]
  {
    LinkedKeys(fat, base, added);
    ExtensionFront(fat, base, added);
    if |added| > 1 {
      LinkedBase(fat, base, Front(added));
    }
  }

  /** Each new cluster leads to the next. */
  lemma {:induction false} LinkedNext(fat: map<nat, nat>, base: nat, added: seq<nat>, i: nat)
    requires Extension(fat, base, added) && i < |added| - 1
    ensures added[i] in Linked(fat, base, added) && Linked(fat, base, added)[added[i]] == added[i + 1]
  {
    LinkedKeys(fat, base, added);
    ExtensionFront(fat, base, added);
    assert added[i] in added;
    if i < |added| - 2 {
      LinkedNext(fat, base, Front(added), i);
    }
  }

  /** The clusters that the linking has taken: all of `added` but the last. */
  lemma LinkedFrees(fat: map<nat, nat>, base: nat, added: seq<nat>)
    requires Extension(fat, base, added)
    ensures FreeClusters(Linked(fat, base, added)) == FreeClusters(fat) - SetOf(Front(added))
  {
    LinkedKeys(fat, base, added);
    var after := Linked(fat, base, added);
    forall c | c in fat
      ensures after[c] == CLUSTER_FREE <==> fat[c] == CLUSTER_FREE && c !in Front(added)
    {
      if c in Front(added) {
        var i :| 0 <= i < |added| - 1 && added[i] == c;
        LinkedNext(fat, base, added, i);
        assert added[i + 1] in added;
      } else if c == base && added != [] {
        LinkedBase(fat, base, added);
        assert added[0] in added;
      } else {
        LinkedOther(fat, base, added, c);
      }
    }
  }

  lemma {:induction false} DistinctCount(s: seq<nat>)
    requires Distinct(s)
    ensures |SetOf(s)| == |s|
  {
    if s == [] {
      assert SetOf(s) == {};
    } else {
      var n := |s| - 1;
      DistinctCount(s[..n]);
      assert s == s[..n] + [s[n]];
      assert SetOf(s) == SetOf(s[..n]) + {s[n]};
    }
  }

  // ---------------------------------------------------------------- the state of the growing loop

  /**
   * The FAT while FatGrowEof extends a chain.  In the `doubled` state every free cluster was taken, the last of
   * them was still marked free when the search wrapped, and it was handed out again: it links to itself.
   */
  ghost predicate Growing(fat: map<nat, nat>, fat0: map<nat, nat>, base: nat, added: seq<nat>, doubled: bool,
                          hint: nat) {
    && Extension(fat0, base, added)
    && (added != [] ==> hint == LastOf(base, added) + 1)
    && (doubled ==> added != [] && |added| == |FreeClusters(fat0)|)
    && fat == (if doubled then Linked(fat0, base, added)[LastOf(base, added) := LastOf(base, added)]
               else Linked(fat0, base, added))
  }

  /** Every new cluster is one of the clusters that were free, so there are no more of them than those. */
  lemma AddedCount(fat: map<nat, nat>, base: nat, added: seq<nat>)
    requires Extension(fat, base, added)
    ensures |added| <= |FreeClusters(fat)|
    ensures |added| == |FreeClusters(fat)| ==> SetOf(added) == FreeClusters(fat)
  {
    DistinctCount(added);
    SubsetCount(SetOf(added), FreeClusters(fat));
  }

  lemma SubsetCount(a: set<nat>, b: set<nat>)
    requires a <= b
    ensures |a| <= |b| && (|a| == |b| ==> a == b)
  {
    assert b == a + (b - a);
    assert |b| == |a| + |b - a|;
  }

  /** What is still free while the chain grows. */
  lemma FreeWhileGrowing(fat: map<nat, nat>, fat0: map<nat, nat>, base: nat, added: seq<nat>, doubled: bool, hint: nat)
    requires Growing(fat, fat0, base, added, doubled, hint)
    ensures fat.Keys == fat0.Keys
    ensures FreeClusters(fat) == FreeClusters(fat0) - (if doubled then SetOf(added) else SetOf(Front(added)))
    ensures doubled ==> FreeClusters(fat) == {}
  {
    hide Linked, Extension, LastOf, FreeClusters, SetOf, Front;
    LinkedKeys(fat0, base, added);
    LinkedFrees(fat0, base, added);
    if doubled { DoubledFrees(fat, fat0, base, added, hint); }
  }

  /** Once the last cluster has been handed out twice, none is free. */
  lemma DoubledFrees(fat: map<nat, nat>, fat0: map<nat, nat>, base: nat, added: seq<nat>, hint: nat)
    requires Growing(fat, fat0, base, added, true, hint)
    ensures fat.Keys == fat0.Keys
    ensures FreeClusters(fat) == FreeClusters(fat0) - SetOf(added) == {}
  {
    hide Linked;
    LinkedKeys(fat0, base, added);
    LinkedFrees(fat0, base, added);
    AddedCount(fat0, base, added);
    ExtensionFront(fat0, base, added);
    FreeAfterUpdate(Linked(fat0, base, added), LastOf(base, added), LastOf(base, added));
  }

  /** While a free cluster besides the pending one is left, the allocator finds it. */
  lemma AllocateFresh(fat: map<nat, nat>, free0: set<nat>, added: seq<nat>, hint: nat, cluster: nat)
    requires FreeClusters(fat) == free0 - SetOf(Front(added)) && |added| < |free0|
    requires added != [] ==> hint == added[|added| - 1] + 1
    requires Allocated(fat, hint, false, cluster)
    ensures cluster in free0 && cluster !in added
  {
    NotAllAdded(free0, added);
    var d :| d in free0 && d !in added;
    assert d !in Front(added) by {
      assert forall c :: c in Front(added) ==> c in added;
    }
    assert d in FreeClusters(fat);
    if FreeFrom(fat, hint) == {} {
      assert d !in FreeFrom(fat, hint);
      assert d < hint && cluster <= d;
      assert cluster in FreeClusters(fat);
    } else {
      assert cluster in FreeFrom(fat, hint);
      assert cluster in FreeClusters(fat) && hint <= cluster;
    }
    assert cluster !in Front(added);
    if added != [] {
      var last := added[|added| - 1];
      assert added == Front(added) + [last] && last in added;
      assert cluster != last;
    }
  }

  /** When only the pending cluster still reads as free, the allocator finds it again. */
  lemma AllocatePending(fat: map<nat, nat>, last: nat, hint: nat, cluster: nat)
    requires FreeClusters(fat) == {last} && hint == last + 1 && Allocated(fat, hint, false, cluster)
    ensures cluster == last
  {
    assert FreeFrom(fat, hint) <= FreeClusters(fat);
    assert FreeFrom(fat, hint) == {};
  }

  lemma AllocateNone(fat: map<nat, nat>, hint: nat, saysFull: bool, cluster: nat)
    requires FreeClusters(fat) == {} && Allocated(fat, hint, saysFull, cluster)
    ensures cluster == CLUSTER_LAST
  {
    assert FreeFrom(fat, hint) <= FreeClusters(fat);
  }

  /** What the allocator hands out next: a new free cluster while there is one, then the last one again, then none. */
  lemma AllocateWhileGrowing(fat: map<nat, nat>, fat0: map<nat, nat>, base: nat, added: seq<nat>, doubled: bool,
                             hint: nat,
                             saysFull: bool, cluster: nat)
    requires Growing(fat, fat0, base, added, doubled, hint)
    requires Allocated(fat, hint, saysFull, cluster) && (saysFull ==> FreeClusters(fat) == {})
    ensures !doubled && |added| < |FreeClusters(fat0)| ==> cluster in FreeClusters(fat0) && cluster !in added
    ensures !doubled && |added| == |FreeClusters(fat0)| > 0 ==> cluster == LastOf(base, added)
    ensures doubled || FreeClusters(fat0) == {} ==> cluster == CLUSTER_LAST
  {
    var free0 := FreeClusters(fat0);
    FreeWhileGrowing(fat, fat0, base, added, doubled, hint);
    AddedCount(fat0, base, added);
    if added != [] { ExtensionFront(fat0, base, added); }
    PendingIsFree(fat, free0, added, doubled);
    hide Linked, Extension, Allocated, FreeClusters, SetOf;
    if doubled || free0 == {} {
      AllocateNone(fat, hint, saysFull, cluster);
    } else if |added| < |free0| {
      AllocateFresh(fat, free0, added, hint, cluster);
    } else {
      AllocatePending(fat, added[|added| - 1], hint, cluster);
    }
  }

  lemma PendingIsFree(fat: map<nat, nat>, free0: set<nat>, added: seq<nat>, doubled: bool)
    requires FreeClusters(fat) == free0 - (if doubled then SetOf(added) else SetOf(Front(added)))
    requires added != [] ==>
      && added[|added| - 1] !in Front(added)
      && forall c :: c in added <==> c in Front(added) || c == added[|added| - 1]
    requires |added| == |free0| ==> SetOf(added) == free0
    requires doubled ==> FreeClusters(fat) == {}
    ensures free0 == {} ==> FreeClusters(fat) == {}
    ensures !doubled && |added| < |free0| ==> FreeClusters(fat) != {}
    ensures !doubled && |added| == |free0| > 0 ==> FreeClusters(fat) == {added[|added| - 1]}
  {
    if !doubled && |added| < |free0| {
      NotAllAdded(free0, added);
      var d :| d in free0 && d !in added;
      assert d !in Front(added);
      assert d in FreeClusters(fat);
    }
  }

  lemma NotAllAdded(free: set<nat>, added: seq<nat>)
    requires |added| < |free|
    ensures exists d :: d in free && d !in added
  {
    if forall d :: d in free ==> d in added {
      CountAtMost(added);
      SubsetCount(free, SetOf(added));
    }
  }

  lemma {:induction false} CountAtMost(s: seq<nat>)
    ensures |SetOf(s)| <= |s|
  {
    if s == [] {
      assert SetOf(s) == {};
    } else {
      var n := |s| - 1;
      CountAtMost(s[..n]);
      assert s == s[..n] + [s[n]];
      assert SetOf(s) == SetOf(s[..n]) + {s[n]};
    }
  }

  /** One more cluster is found, and the one before it linked to it. */
  lemma GrowingStep(fat: map<nat, nat>, fat0: map<nat, nat>, base: nat, added: seq<nat>, hint: nat, cluster: nat)
    requires Growing(fat, fat0, base, added, false, hint) && cluster in FreeClusters(fat0) && cluster !in added
    ensures var last := LastOf(base, added);
      Growing(if last == CLUSTER_FREE then fat else fat[last := cluster], fat0, base, added + [cluster], false,
              cluster + 1)
  {
    assert (added + [cluster])[..|added|] == added;
  }

  // ---------------------------------------------------------------- the grown chain

  /** The FAT after `added` was linked behind `base` and ended. */
  ghost function Grown(fat: map<nat, nat>, base: nat, added: seq<nat>): map<nat, nat> {
    var last := LastOf(base, added);
    if last == CLUSTER_FREE then fat else Linked(fat, base, added)[last := CLUSTER_LAST]
  }

  lemma GrownEntries(fat: map<nat, nat>, base: nat, added: seq<nat>, c: nat)
    requires Extension(fat, base, added) && c in fat
    ensures Grown(fat, base, added).Keys == fat.Keys
    ensures c != base && c !in added ==> Grown(fat, base, added)[c] == fat[c]
    ensures c == base && added != [] ==> Grown(fat, base, added)[c] == added[0]
    ensures c == LastOf(base, added) ==> Grown(fat, base, added)[c] == CLUSTER_LAST
    ensures forall i :: 0 <= i < |added| - 1 ==>
      && added[i] in Grown(fat, base, added)
      && Grown(fat, base, added)[added[i]] == added[i + 1]
  {
    LinkedKeys(fat, base, added);
    if added != [] {
      ExtensionFront(fat, base, added);
      assert added[|added| - 1] in added;
      if c == base { LinkedBase(fat, base, added); assert base !in added; }
    }
    forall i | 0 <= i < |added| - 1
      ensures added[i] in Grown(fat, base, added) && Grown(fat, base, added)[added[i]] == added[i + 1]
    {
      LinkedNext(fat, base, added, i);
      assert added[i] in added;
    }
    if c != base && c !in added {
      assert c !in Front(added);
      LinkedOther(fat, base, added, c);
    }
  }

  /** Growing takes exactly the new clusters. */
  lemma GrownFrees(fat: map<nat, nat>, base: nat, added: seq<nat>)
    requires Extension(fat, base, added)
    ensures FreeClusters(Grown(fat, base, added)) == FreeClusters(fat) - SetOf(added)
  {
    var after := Grown(fat, base, added);
    forall c | c in fat
      ensures c in after && (after[c] == CLUSTER_FREE <==> fat[c] == CLUSTER_FREE && c !in added)
    {
      GrownEntries(fat, base, added, c);
      if c in added {
        var i :| 0 <= i < |added| && added[i] == c;
        if i < |added| - 1 { assert added[i + 1] in added; }
      } else if c == base && added != [] {
        assert added[0] in added;
      }
    }
    LinkedKeys(fat, base, added);
  }

  lemma GrownFreeCount(fat: map<nat, nat>, base: nat, added: seq<nat>)
    requires Extension(fat, base, added)
    ensures |FreeClusters(Grown(fat, base, added))| == |FreeClusters(fat)| - |added|
  {
    GrownFrees(fat, base, added);
    DistinctCount(added);
    assert FreeClusters(fat) == (FreeClusters(fat) - SetOf(added)) + SetOf(added);
  }

  /** The first cluster of a chain that was grown. */
  ghost function GrownFirst(first: nat, path: seq<nat>, added: seq<nat>): nat {
    if path == [] && added != [] then added[0] else first
  }

  /** The grown chain is the old chain followed by the new clusters. */
  lemma GrownIsChain(fat: map<nat, nat>, first: nat, path: seq<nat>, added: seq<nat>)
    requires Chain(fat, first, path) && Extension(fat, LastOf(CLUSTER_FREE, path), added)
    ensures Chain(Grown(fat, LastOf(CLUSTER_FREE, path), added), GrownFirst(first, path, added), path + added)
  {
    var base := LastOf(CLUSTER_FREE, path);
    var after, all := Grown(fat, base, added), path + added;
    WalkDistinct(fat, first, path);
    if all != [] {
      LinkedKeys(fat, base, added);
      forall i | 0 <= i < |all|
        ensures all[i] in after && after[all[i]] == if i < |all| - 1 then all[i + 1] else CLUSTER_LAST
      {
        GrownChainEntry(fat, first, path, added, i);
      }
    }
  }

  lemma GrownChainEntry(fat: map<nat, nat>, first: nat, path: seq<nat>, added: seq<nat>, i: nat)
    requires Chain(fat, first, path) && Extension(fat, LastOf(CLUSTER_FREE, path), added) && Distinct(path)
    requires i < |path| + |added|
    ensures var all := path + added; var after := Grown(fat, LastOf(CLUSTER_FREE, path), added);
      all[i] in after && after[all[i]] == if i < |all| - 1 then all[i + 1] else CLUSTER_LAST
  {
    var base := LastOf(CLUSTER_FREE, path);
    var c := (path + added)[i];
    assert c in path || c in added;
    GrownEntries(fat, base, added, c);
    if i < |path| - 1 {
      assert path[i + 1] in path;
      assert c !in FreeClusters(fat);
    }
  }

  lemma GrownLegal(fat: map<nat, nat>, base: nat, added: seq<nat>)
    requires Extension(fat, base, added)
    ensures LegalLinks(Grown(fat, base, added))
  {
    var after := Grown(fat, base, added);
    LinkedKeys(fat, base, added);
    if added != [] { assert added[|added| - 1] in added; }
    assert after.Keys == fat.Keys;
    forall c | c in fat
      ensures LegalLink(after, after[c])
    {
      GrownEntries(fat, base, added, c);
      if c in added {
        var i :| 0 <= i < |added| && added[i] == c;
        if i < |added| - 1 { assert added[i + 1] in added; }
      } else if c == base && added != [] {
        assert added[0] in added;
      }
    }
  }

  /** Every other chain is unchanged by growing. */
  lemma GrownKeepsOthers(fat: map<nat, nat>, first: nat, path: seq<nat>, added: seq<nat>, otherFirst: nat,
                         other: seq<nat>)
    requires Chain(fat, first, path) && Extension(fat, LastOf(CLUSTER_FREE, path), added)
    requires Chain(fat, otherFirst, other) && forall c :: c in other ==> c !in path
    ensures Chain(Grown(fat, LastOf(CLUSTER_FREE, path), added), otherFirst, other)
  {
    var base := LastOf(CLUSTER_FREE, path);
    var after := Grown(fat, base, added);
    forall i | 0 <= i < |other|
      ensures other[i] in after && after[other[i]] == fat[other[i]]
    {
      assert other[i] in other;
      if i < |other| - 1 { assert other[i + 1] in other; }
      assert other[i] !in FreeClusters(fat);
      GrownEntries(fat, base, added, other[i]);
    }
  }

  /** Growing changes no entry but that of the base and those of the new clusters, which were free. */
  lemma OnlyAddedDiffer(fat: map<nat, nat>, base: nat, added: seq<nat>)
    requires Extension(fat, base, added)
    ensures Grown(fat, base, added).Keys == fat.Keys
    ensures forall c :: c in fat && c !in added && c != base ==> Grown(fat, base, added)[c] == fat[c]
    ensures forall c :: c in added ==> c in fat && fat[c] == CLUSTER_FREE
  {
    LinkedKeys(fat, base, added);
    if added != [] { assert added[|added| - 1] in added; }
    forall c | c in fat && c !in added && c != base
      ensures Grown(fat, base, added)[c] == fat[c]
    {
      GrownEntries(fat, base, added, c);
    }
  }

  /** Cutting a grown chain back to its old length restores the FAT; its last entry now holds the last mark. */
  lemma Rollback(fat: map<nat, nat>, first: nat, path: seq<nat>, added: seq<nat>)
    requires Chain(fat, first, path) && Extension(fat, LastOf(CLUSTER_FREE, path), added)
    ensures Truncated(Grown(fat, LastOf(CLUSTER_FREE, path), added), path + added, |path|) ==
      if path == [] then fat else fat[LastOf(CLUSTER_FREE, path) := CLUSTER_LAST]
  {
    var base := LastOf(CLUSTER_FREE, path);
    OnlyAddedDiffer(fat, base, added);
    assert path != [] ==> base in path;
    assert (path + added)[|path|..] == added;
    assert path != [] ==> (path + added)[|path| - 1] == base;
    hide Grown, Extension, Chain, LegalLinks, FreeClusters;
  }

  /** Every free cluster that is not yet taken lies at or above the hint. */
  ghost predicate RestAbove(fat0: map<nat, nat>, added: seq<nat>, hint: nat) {
    forall c :: c in FreeClusters(fat0) && c !in added ==> hint <= c
  }

  /** Allocating from a hint that nothing free lies below takes the lowest cluster, and keeps it so. */
  lemma RestStaysAbove(fat: map<nat, nat>, fat0: map<nat, nat>, base: nat, added: seq<nat>, hint: nat, saysFull: bool,
                       cluster: nat)
    requires Growing(fat, fat0, base, added, false, hint) && RestAbove(fat0, added, hint)
    requires Allocated(fat, hint, saysFull, cluster) && cluster in FreeClusters(fat0) && cluster !in added
    ensures RestAbove(fat0, added + [cluster], cluster + 1)
  {
    FreeWhileGrowing(fat, fat0, base, added, false, hint);
    forall c | c in FreeClusters(fat0) && c !in added + [cluster]
      ensures cluster + 1 <= c
    {
      assert (added + [cluster])[|added|] == cluster;
      assert c != cluster;
      if added != [] { ExtensionFront(fat0, base, added); }
      assert c in FreeClusters(fat) && cluster in FreeClusters(fat);
      assert c in FreeFrom(fat, hint) && cluster in FreeFrom(fat, hint);
    }
  }

  lemma GrowingLast(fat: map<nat, nat>, fat0: map<nat, nat>, base: nat, added: seq<nat>, hint: nat)
    requires Growing(fat, fat0, base, added, false, hint)
    ensures fat.Keys == fat0.Keys
    ensures LastOf(base, added) != CLUSTER_FREE ==> LastOf(base, added) in fat
    ensures added != [] ==> LastOf(base, added) != CLUSTER_FREE
    ensures forall c :: c in FreeClusters(fat0) ==> c in fat && 2 <= c < SPECIAL
  {
    LinkedKeys(fat0, base, added);
    if added != [] { assert added[|added| - 1] in added; }
  }

  /** One round of the growing loop, from what the allocator returned. */
  lemma NextGrowing(fat: map<nat, nat>, fat0: map<nat, nat>, base: nat, added: seq<nat>, doubled: bool, hint: nat,
                    saysFull: bool, cluster: nat)
    returns (added': seq<nat>, doubled': bool)
    requires Growing(fat, fat0, base, added, doubled, hint)
    requires Allocated(fat, hint, saysFull, cluster) && (saysFull ==> FreeClusters(fat) == {})
    ensures EndOfChain(cluster) <==> doubled || FreeClusters(fat0) == {}
    ensures if EndOfChain(cluster) then added' == added && doubled' == doubled
      else if doubled' then added' == added != [] else added' == added + [cluster]
    ensures !EndOfChain(cluster) ==> var last := LastOf(base, added);
      && cluster in fat && (last != CLUSTER_FREE ==> last in fat)
      && Growing(if last == CLUSTER_FREE then fat else fat[last := cluster], fat0, base, added', doubled', cluster + 1)
      && cluster == LastOf(base, added') && |added'| + (if doubled' then 1 else 0) == |added| + 1
      && (RestAbove(fat0, added, hint) ==> RestAbove(fat0, added', cluster + 1))
  {
    added', doubled' := added, doubled;
    AllocateWhileGrowing(fat, fat0, base, added, doubled, hint, saysFull, cluster);
    AddedCount(fat0, base, added);
    if !doubled && FreeClusters(fat0) != {} {
      GrowingLast(fat, fat0, base, added, hint);
      if |added| < |FreeClusters(fat0)| {
        added' := added + [cluster];
        GrowingStep(fat, fat0, base, added, hint, cluster);
        if RestAbove(fat0, added, hint) {
          RestStaysAbove(fat, fat0, base, added, hint, saysFull, cluster);
        }
      } else {
        doubled' := true;
        assert cluster in added by { assert added[|added| - 1] in added; }
        assert forall c :: c in FreeClusters(fat0) ==> c in SetOf(added);
      }
    }
  }

  /** Ending the chain in either state gives the grown FAT. */
  lemma EndGrowing(fat: map<nat, nat>, fat0: map<nat, nat>, base: nat, added: seq<nat>, doubled: bool, hint: nat)
    requires Growing(fat, fat0, base, added, doubled, hint)
    ensures var last := LastOf(base, added);
      (if last == CLUSTER_FREE then fat else fat[last := CLUSTER_LAST]) == Grown(fat0, base, added)
    ensures LastOf(base, added) != CLUSTER_FREE ==> LastOf(base, added) in fat
    ensures added != [] ==> LastOf(base, added) != CLUSTER_FREE
  {
    LinkedKeys(fat0, base, added);
    if added != [] { assert added[|added| - 1] in added; }
  }

  /** The hint stays low when the growing ends. */
  lemma HintAfterGrowing(fat0: map<nat, nat>, base: nat, added: seq<nat>, hint: nat)
    requires Extension(fat0, base, added)
    requires RestAbove(fat0, added, hint) || |added| == |FreeClusters(fat0)|
    ensures NothingBelow(Grown(fat0, base, added), hint)
  {
    GrownFrees(fat0, base, added);
    AddedCount(fat0, base, added);
    var after := Grown(fat0, base, added);
    forall c | c in after && after[c] == CLUSTER_FREE
      ensures hint <= c
    {
      assert c in FreeClusters(after);
    }
  }
}
