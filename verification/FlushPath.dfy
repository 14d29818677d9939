/** What one flush does along the path from an open file up to the root (Flush.c: FatOFileFlush). */
module FlushPath {

  datatype FatTime = FatTime(date: nat, time: nat)

  /**
   * The flags of a FAT_OFILE that say what is to be written, and the fields of its directory entry that flushing
   * sets.
   */
  datatype EntryInfo = EntryInfo(dirty: bool, preserve: bool, archive: bool, lastAccess: nat, modified: FatTime,
                                 archived: bool)

  /** A dirty file that is flushed at the time `now`. */
  function Flushed(e: EntryInfo, now: FatTime): EntryInfo {
    EntryInfo(false, false, false, now.date, if e.preserve then e.modified else now, e.archived || e.archive)
  }

  /** A directory in which an entry was written: FatAccessOFile marks it as any file that is written. */
  function Touched(e: EntryInfo): EntryInfo {
    e.(dirty := true, archive := true)
  }

  /** What a flush looks at in a file; `lasting` says that it has a directory entry: it is not the root, nor deleted. */
  datatype Node = Node(info: EntryInfo, lasting: bool, failed: bool)

  /** How many files a flush reaches: those below the first one with an error. */
  function Reach(nodes: seq<Node>): (n: nat)
    ensures n <= |nodes| && (forall i :: 0 <= i < n ==> !nodes[i].failed) && (n < |nodes| ==> nodes[n].failed)
  {
    if nodes == [] || nodes[0].failed then 0 else 1 + Reach(nodes[1..])
  }

  lemma {:induction false} ReachIs(nodes: seq<Node>, n: nat)
    requires n <= |nodes| && (forall i :: 0 <= i < n ==> !nodes[i].failed) && (n < |nodes| ==> nodes[n].failed)
    ensures Reach(nodes) == n
  {
    if n > 0 { ReachIs(nodes[1..], n - 1); }
  }

  /** The entry of file `i` is written, if the flush comes to it: it is dirty, or the entry below it was written. */
  predicate Writes(nodes: seq<Node>, i: nat)
    requires i < |nodes|
  {
    nodes[i].lasting && (nodes[i].info.dirty || (i > 0 && Writes(nodes, i - 1)))
  }

  /** The files below `n` whose entries are written, in this order. */
  function Log(nodes: seq<Node>, n: nat): seq<nat>
    requires n <= |nodes|
  {
    if n == 0 then [] else Log(nodes, n - 1) + if Writes(nodes, n - 1) then [n - 1] else []
  }

  /** File `i` when the flush comes to it, and when it goes on. */
  function Before(nodes: seq<Node>, i: nat): EntryInfo
    requires i < |nodes|
  {
    if i > 0 && Writes(nodes, i - 1) then Touched(nodes[i].info) else nodes[i].info
  }

  function Left(nodes: seq<Node>, i: nat, now: FatTime): EntryInfo
    requires i < |nodes|
  {
    if Before(nodes, i).dirty then Flushed(Before(nodes, i), now) else Before(nodes, i)
  }

  /** File `i` after the flush. */
  function After(nodes: seq<Node>, i: nat, now: FatTime): EntryInfo
    requires i < |nodes|
  {
    if i < Reach(nodes) then Left(nodes, i, now)
    else if i == Reach(nodes) then Before(nodes, i)
    else nodes[i].info
  }

  // ---------------------------------------------------------------- what is written

  /** File `j` is dirty, and from it up to file `i` all have entries. */
  predicate Carries(nodes: seq<Node>, j: nat, i: nat)
    requires j <= i < |nodes|
  {
    nodes[j].info.dirty && forall k :: j <= k <= i ==> nodes[k].lasting
  }

  /**
   * An entry is written exactly when it, or one below it, belongs to a dirty file and no file on the way was deleted.
   */
  lemma {:induction false} WritesIff(nodes: seq<Node>, i: nat)
    requires i < |nodes|
    ensures Writes(nodes, i) <==> exists j :: 0 <= j <= i && Carries(nodes, j, i)
  {
    if i > 0 { WritesIff(nodes, i - 1); }
    if Writes(nodes, i) {
      if nodes[i].info.dirty {
        assert Carries(nodes, i, i);
      } else {
        var j :| 0 <= j <= i - 1 && Carries(nodes, j, i - 1);
        assert Carries(nodes, j, i);
      }
    }
    if j :| 0 <= j < i && Carries(nodes, j, i) {
      assert Carries(nodes, j, i - 1);
    }
  }

  /** Every entry that is to be written is, once, and each before that of its parent. */
  lemma {:induction false} LogInOrder(nodes: seq<Node>, n: nat)
    requires n <= |nodes|
    ensures forall i :: i in Log(nodes, n) <==> 0 <= i < n && Writes(nodes, i)
    ensures forall a, b :: 0 <= a < b < |Log(nodes, n)| ==> Log(nodes, n)[a] < Log(nodes, n)[b]
  {
    if n > 0 {
      LogInOrder(nodes, n - 1);
      var before := Log(nodes, n - 1);
      assert forall a :: 0 <= a < |before| ==> before[a] in before;
    }
  }

  /**
   * A dirty file's entry and those of all its ancestors, up to the first file that was deleted or has an error, are
   * written; the ancestors get the time of the flush and the archive attribute.
   */
  lemma AncestorsWritten(nodes: seq<Node>, j: nat, i: nat, now: FatTime)
    requires j <= i < Reach(nodes) && Carries(nodes, j, i)
    ensures i in Log(nodes, Reach(nodes))
    ensures After(nodes, i, now).lastAccess == now.date && (i > j ==> After(nodes, i, now).archived)
  {
    LogInOrder(nodes, Reach(nodes));
    WritesIff(nodes, i);
    if i > j {
      assert Carries(nodes, j, i - 1);
      WritesIff(nodes, i - 1);
    }
  }

  /** Every file that the flush reaches is clean afterwards; one that was dirty was written, if it has an entry. */
  lemma CleanAfter(nodes: seq<Node>, i: nat, now: FatTime)
    requires i < |nodes|
    ensures i < Reach(nodes) ==> !After(nodes, i, now).dirty
    ensures nodes[i].info.dirty ==>
      After(nodes, i, now).dirty || i in Log(nodes, Reach(nodes)) || !nodes[i].lasting
  {
    LogInOrder(nodes, Reach(nodes));
  }

  /** The path after the flush. */
  function AfterFlush(nodes: seq<Node>, now: FatTime): (after: seq<Node>)
    ensures |after| == |nodes|
  {
    seq(|nodes|, i requires 0 <= i < |nodes| => Node(After(nodes, i, now), nodes[i].lasting, nodes[i].failed))
  }

  /** A second flush writes nothing and changes nothing below the first error. */
  lemma FlushTwice(nodes: seq<Node>, now: FatTime, later: FatTime)
    ensures var after := AfterFlush(nodes, now);
      && Log(after, Reach(after)) == []
      && forall i :: 0 <= i < Reach(after) ==> After(after, i, later) == after[i].info
  {
    var after := AfterFlush(nodes, now);
    SameReach(nodes, after);
    forall i | 0 <= i < Reach(nodes)
      ensures !after[i].info.dirty
    {
      CleanAfter(nodes, i, now);
    }
    NothingDirty(after, Reach(after));
  }

  lemma SameReach(nodes: seq<Node>, nodes': seq<Node>)
    requires |nodes| == |nodes'| && forall i :: 0 <= i < |nodes| ==> nodes[i].failed == nodes'[i].failed
    ensures Reach(nodes) == Reach(nodes')
  {
    ReachIs(nodes', Reach(nodes));
  }

  lemma {:induction false} NothingDirty(nodes: seq<Node>, n: nat)
    requires n <= |nodes| && forall i :: 0 <= i < n ==> !nodes[i].info.dirty
    ensures Log(nodes, n) == [] && forall i :: 0 <= i < n ==> !Writes(nodes, i)
  {
    if n > 0 { NothingDirty(nodes, n - 1); }
  }

  /** A dirty file in a clean directory below the root: both entries are written, and the root is stamped. */
  lemma CleanParentWritten(f: EntryInfo, d: EntryInfo, r: EntryInfo, now: FatTime)
    requires f.dirty && !d.dirty && !r.dirty
    ensures var nodes := [Node(f, true, false), Node(d, true, false), Node(r, false, false)];
      && Log(nodes, Reach(nodes)) == [0, 1]
      && After(nodes, 1, now) == Flushed(Touched(d), now) && After(nodes, 2, now) == Flushed(Touched(r), now)
  {
    var nodes := [Node(f, true, false), Node(d, true, false), Node(r, false, false)];
    assert Reach(nodes) == 3;
    assert Writes(nodes, 0) && Writes(nodes, 1) && !Writes(nodes, 2);
    assert Log(nodes, 1) == [0] && Log(nodes, 2) == [0, 1];
  }
}
