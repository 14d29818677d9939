/** Cluster chains in the FAT map: walking, truncating and extending them. */
module Chains {
  import opened FatTypes
  import opened FatEntry
  import opened VolumeState
  import opened FreeSpace

  // ---------------------------------------------------------------- walks

  /** The link at which the walk `path` from cluster `first` stops. */
  ghost function Stop(fat: map<nat, nat>, first: nat, path: seq<nat>): nat
    requires forall c :: c in path ==> c in fat
  {
    if path == [] then first else fat[path[|path| - 1]]
  }

  /** `path` is the walk from `first`: every link leads to the next cluster, and the last one leads nowhere. */
  ghost predicate Walk(fat: map<nat, nat>, first: nat, path: seq<nat>) {
    && (forall c :: c in path ==> c in fat)
    && (path != [] ==> first == path[0])
    && (forall i :: 0 <= i < |path| - 1 ==> fat[path[i]] == path[i + 1])
    && (Stop(fat, first, path) == CLUSTER_FREE || Stop(fat, first, path) >= SPECIAL)
  }

  /** A well-formed chain: empty, or ended by an end-of-chain mark. */
  ghost predicate Chain(fat: map<nat, nat>, first: nat, path: seq<nat>) {
    Walk(fat, first, path) && if path == [] then first == CLUSTER_FREE else EndOfChain(Stop(fat, first, path))
  }

  ghost predicate Distinct(path: seq<nat>) {
    forall i, j :: 0 <= i < j < |path| ==> path[i] != path[j]
  }

  lemma WalkSuffix(fat: map<nat, nat>, first: nat, path: seq<nat>, k: nat)
    requires Walk(fat, first, path) && k < |path|
    ensures Walk(fat, path[k], path[k..]) && Stop(fat, path[k], path[k..]) == Stop(fat, first, path)
  {}

  /** A walk visits no cluster twice: otherwise it would never stop. */
  lemma {:induction false} WalkDistinct(fat: map<nat, nat>, first: nat, path: seq<nat>)
    requires Walk(fat, first, path) && LegalLinks(fat)
    ensures Distinct(path)
  {
    forall i, j | 0 <= i < j < |path|
      ensures path[i] != path[j]
    {
      if path[i] == path[j] {
        Parallel(fat, first, path, i, j);
      }
    }
  }

  lemma {:induction false} Parallel(fat: map<nat, nat>, first: nat, path: seq<nat>, i: nat, j: nat)
    requires Walk(fat, first, path) && LegalLinks(fat) && i < j < |path| && path[i] == path[j]
    ensures false
    decreases |path| - j
  {
    assert fat[path[i]] == path[i + 1];
    assert path[i + 1] in path;
    if j + 1 < |path| {
      Parallel(fat, first, path, i + 1, j + 1);
    }
  }

  // ---------------------------------------------------------------- freeing

  /** The FAT with the entries of the clusters in `path` made free. */
  ghost function Zeroed(fat: map<nat, nat>, path: seq<nat>): map<nat, nat> {
    map c | c in fat :: if c in path then CLUSTER_FREE else fat[c]
  }

  /** After its first cluster is freed, the rest of a walk is still a walk. */
  lemma FreedRest(fat: map<nat, nat>, first: nat, path: seq<nat>)
    requires LegalLinks(fat) && Walk(fat, first, path) && path != []
    ensures var fat1 := fat[first := CLUSTER_FREE];
      && Walk(fat1, fat[first], path[1..])
      && Stop(fat1, fat[first], path[1..]) == Stop(fat, first, path)
      && Zeroed(fat1, path[1..]) == Zeroed(fat, path)
  {
    WalkDistinct(fat, first, path);
    assert path == [first] + path[1..];
    forall c | c in path[1..]
      ensures c != first && c in path
    {
      var i :| 0 <= i < |path| - 1 && path[1..][i] == c;
      assert path[i + 1] == c;
    }
  }

  /** Freeing a walk frees exactly its clusters; the status tells whether it ended in an end-of-chain mark. */
  lemma {:induction false} FreeWalkOfPath(fat: map<nat, nat>, first: nat, path: seq<nat>)
    requires LegalLinks(fat) && Walk(fat, first, path) && LegalLink(fat, first)
    ensures FreeWalk(fat, first) ==
      (Zeroed(fat, path), if EndOfChain(Stop(fat, first, path)) then Success else VolumeCorrupted)
    decreases |path|
  {
    if path == [] {
      assert Zeroed(fat, path) == fat;
    } else {
      FreedRest(fat, first, path);
      assert path[0] in path;
      FreeStep(fat, first);
      hide Walk, Zeroed, Stop;
      FreeWalkOfPath(fat[first := CLUSTER_FREE], fat[first], path[1..]);
    }
  }

  // ---------------------------------------------------------------- truncating

  /** The FAT after a walk is cut to its first `n` clusters. */
  ghost function Truncated(fat: map<nat, nat>, path: seq<nat>, n: nat): map<nat, nat>
    requires n <= |path|
  {
    Zeroed(if n == 0 then fat else fat[path[n - 1] := CLUSTER_LAST], path[n..])
  }

  lemma CutPoints(path: seq<nat>, n: nat)
    requires Distinct(path) && n <= |path|
    ensures forall i :: 0 <= i < n ==> path[..n][i] == path[i] && path[i] !in path[n..]
    ensures forall c :: c in path <==> c in path[..n] || c in path[n..]
  {
    assert path == path[..n] + path[n..];
  }

  /** Cutting keeps the first `n` clusters, as a chain. */
  lemma TruncatedKeepsPrefix(fat: map<nat, nat>, first: nat, path: seq<nat>, n: nat)
    requires LegalLinks(fat) && Walk(fat, first, path) && 0 < n <= |path|
    ensures Chain(Truncated(fat, path, n), first, path[..n])
  {
    WalkDistinct(fat, first, path);
    CutPoints(path, n);
    var fat' := Truncated(fat, path, n);
    forall i | 0 <= i < n
      ensures fat'[path[..n][i]] == if i == n - 1 then CLUSTER_LAST else path[..n][i + 1]
    {
      assert path[i] != path[n - 1] || i == n - 1;
    }
  }

  lemma WalkIsUsed(fat: map<nat, nat>, first: nat, path: seq<nat>, i: nat)
    requires LegalLinks(fat) && Walk(fat, first, path) && i < |path| - 1
    ensures fat[path[i]] != CLUSTER_FREE
  {
    assert path[i + 1] in path;
  }

  /** Cutting makes exactly the other clusters free. */
  lemma TruncatedFrees(fat: map<nat, nat>, first: nat, path: seq<nat>, n: nat)
    requires LegalLinks(fat) && Walk(fat, first, path) && n <= |path|
    ensures FreeClusters(Truncated(fat, path, n)) ==
      FreeClusters(fat) - (set c | c in path[..n]) + (set c | c in path[n..])
  {
    WalkDistinct(fat, first, path);
    CutPoints(path, n);
    forall c | c in path[..n]
      ensures c !in FreeClusters(Truncated(fat, path, n))
    {
      var i :| 0 <= i < n && path[..n][i] == c;
      if i < n - 1 {
        WalkIsUsed(fat, first, path, i);
      }
    }
  }

  /** A walk that shares no cluster with `path` is not affected by cutting it. */
  lemma TruncatedKeepsOthers(fat: map<nat, nat>, path: seq<nat>, n: nat, first: nat, other: seq<nat>)
    requires n <= |path| && (forall c :: c in path ==> c in fat) && Walk(fat, first, other)
    requires forall c :: c in other ==> c !in path
    ensures Walk(Truncated(fat, path, n), first, other)
    ensures Stop(Truncated(fat, path, n), first, other) == Stop(fat, first, other)
  {
    var fat' := Truncated(fat, path, n);
    forall c | c in other
      ensures c in fat' && fat'[c] == fat[c]
    {
      assert c in path[n..] ==> c in path;
      assert n > 0 ==> path[n - 1] in path;
    }
    assert forall i :: 0 <= i < |other| ==> other[i] in other;
  }
}
