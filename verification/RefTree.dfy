/**
 * The tree of open files, and the check that frees those that nothing refers to any more
 * (Flush.c: FatOFileFlush, FatCheckOFileRef, FatCheckVolumeRef, FatIFileClose; Delete.c: FatDelete;
 * DirectoryManage.c: FatOpenDirEnt, FatCloseDirEnt).
 */
module RefTree {
  import opened FlushPath

  /**
   * FAT_OFILE; `opens` counts its handles, `childHead` lists its open children, `invalid` says that its entry was
   * deleted.
   */
  class OpenFile {
    const parent: OpenFile?
    ghost const depth: nat
    var childHead: seq<OpenFile>
    var opens: nat
    var onCheckRef: bool
    var info: EntryInfo
    var invalid: bool
    var error: bool

    constructor (parent: OpenFile?, lastAccess: nat, modified: FatTime, archived: bool)
      ensures this.parent == parent && childHead == [] && opens == 0 && onCheckRef && !error && !invalid
      ensures info == EntryInfo(false, false, false, lastAccess, modified, archived)
      ensures depth == if parent == null then 0 else parent.depth + 1
    {
      this.parent, depth := parent, if parent == null then 0 else parent.depth + 1;
      childHead, opens, onCheckRef, error, invalid := [], 0, true, false, false;
      info := EntryInfo(false, false, false, lastAccess, modified, archived);
    }
  }

  predicate NoDup<T(==)>(s: seq<T>) { forall i, j :: 0 <= i < j < |s| ==> s[i] != s[j] }

  lemma NoDupMore(s: seq<OpenFile>, x: OpenFile)
    requires NoDup(s) && x !in SetOf(s)
    ensures NoDup(s + [x]) && NoDup([x] + s)
  {}

  /** RemoveEntryList. */
  function Drop<T(==)>(s: seq<T>, x: T): (r: seq<T>)
    ensures x !in s ==> r == s
    ensures x in s ==> |r| == |s| - 1
  {
    if s == [] then [] else if s[0] == x then s[1..] else [s[0]] + Drop(s[1..], x)
  }

  lemma {:induction false} DropMembers(s: seq<OpenFile>, x: OpenFile)
    requires NoDup(s)
    ensures NoDup(Drop(s, x)) && SetOf(Drop(s, x)) == SetOf(s) - {x}
  {
    if s != [] {
      assert SetOf(s) == {s[0]} + SetOf(s[1..]);
      if s[0] == x {
        assert x !in s[1..];
      } else {
        DropMembers(s[1..], x);
        assert s[0] !in SetOf(s[1..]);
        NoDupMore(Drop(s[1..], x), s[0]);
        assert SetOf(Drop(s, x)) == {s[0]} + SetOf(Drop(s[1..], x));
      }
    }
  }

  ghost function SetOf(s: seq<OpenFile>): set<OpenFile> { set f | f in s }

  /** The file, its parent, and so on up to the root. */
  ghost function Path(f: OpenFile): (p: seq<OpenFile>)
    ensures p != [] && p[0] == f && f in p
    decreases f.depth
  {
    [f] + if f.parent != null && f.parent.depth < f.depth then Path(f.parent) else []
  }

  /** Every file of a path is deeper than those behind it. */
  lemma {:induction false} PathDescends(f: OpenFile, i: nat, j: nat)
    requires i < j < |Path(f)|
    ensures Path(f)[i].depth > Path(f)[j].depth
    decreases f.depth
  {
    if i > 0 {
      PathDescends(f.parent, i - 1, j - 1);
    } else if j > 1 {
      PathDescends(f.parent, 0, j - 1);
    }
  }

  ghost predicate Differ(path: seq<OpenFile>) {
    forall i, j :: 0 <= i < j < |path| ==> path[i] != path[j]
  }

  lemma PathDiffers(f: OpenFile)
    ensures Differ(Path(f))
  {
    forall i, j | 0 <= i < j < |Path(f)|
      ensures Path(f)[i] != Path(f)[j]
    {
      PathDescends(f, i, j);
    }
  }

  /** What a flush looks at in a file, and in the files of a path. */
  ghost function NodeOf(f: OpenFile): Node
    reads f
  {
    Node(f.info, f.parent != null && !f.invalid, f.error)
  }

  ghost function ViewOf(path: seq<OpenFile>): (nodes: seq<Node>)
    reads path
    ensures |nodes| == |path| && forall i :: 0 <= i < |path| ==> nodes[i] == NodeOf(path[i])
  {
    if path == [] then [] else [NodeOf(path[0])] + ViewOf(path[1..])
  }

  /** The files at some positions of a path. */
  ghost function FilesAt(path: seq<OpenFile>, log: seq<nat>): set<OpenFile> {
    set i | 0 <= i < |path| && i in log :: path[i]
  }

  /** The file is one of the holders, or an ancestor of one. */
  ghost predicate OnPathOf(f: OpenFile, holders: set<OpenFile>) {
    exists h :: h in holders && f in Path(h)
  }

  /** Every file below the root is listed by its parent, and every file that a file lists is a child of it. */
  ghost predicate TreeOf(files: set<OpenFile>, root: OpenFile?, kids: map<OpenFile, seq<OpenFile>>) {
    && kids.Keys == files
    && (forall f {:trigger HasPlace(f, files, root, kids)} :: f in files ==> HasPlace(f, files, root, kids))
    && (forall f {:trigger KidsFit(f, files, kids)} :: f in files ==> KidsFit(f, files, kids))
  }

  ghost predicate KidsFit(f: OpenFile, files: set<OpenFile>, kids: map<OpenFile, seq<OpenFile>>)
    requires kids.Keys == files && f in files
  {
    NoDup(kids[f]) && forall c :: c in SetOf(kids[f]) ==> c in files && c.parent == f
  }

  ghost predicate HasPlace(f: OpenFile, files: set<OpenFile>, root: OpenFile?, kids: map<OpenFile, seq<OpenFile>>)
    requires kids.Keys == files
  {
    if f.parent == null then f == root else f.parent in files && f.parent.depth < f.depth && f in SetOf(kids[f.parent])
  }

  /** The list to check has files only, once each, and they are the ones marked. */
  ghost predicate ListOf(files: set<OpenFile>, checkRef: seq<OpenFile>, marked: set<OpenFile>) {
    NoDup(checkRef) && marked <= files && SetOf(checkRef) == marked
  }

  /** The lists of children when `f` is taken out of the tree, and when it is added to it. */
  ghost function KidsWithout(kids: map<OpenFile, seq<OpenFile>>, f: OpenFile): map<OpenFile, seq<OpenFile>> {
    if f.parent == null || f.parent !in kids then kids - {f} else kids[f.parent := Drop(kids[f.parent], f)] - {f}
  }

  ghost function KidsWith(kids: map<OpenFile, seq<OpenFile>>, f: OpenFile): map<OpenFile, seq<OpenFile>> {
    if f.parent == null || f.parent !in kids then kids[f := []] else kids[f := []][f.parent := kids[f.parent] + [f]]
  }

  lemma FitWithout(g: OpenFile, files: set<OpenFile>, kids: map<OpenFile, seq<OpenFile>>, f: OpenFile)
    requires kids.Keys == files && g in files && g != f && KidsFit(g, files, kids)
      && KidsWithout(kids, f).Keys == files - {f}
    ensures KidsFit(g, files - {f}, KidsWithout(kids, f))
    ensures SetOf(kids[g]) - {f} <= SetOf(KidsWithout(kids, f)[g])
  {
    DropMembers(kids[g], f);
    hide NoDup;
    assert KidsWithout(kids, f)[g] == if f.parent == g then Drop(kids[g], f) else kids[g];
  }

  lemma WithoutChild(files: set<OpenFile>, root: OpenFile?, kids: map<OpenFile, seq<OpenFile>>, f: OpenFile)
    requires TreeOf(files, root, kids) && f in files && kids[f] == []
    ensures TreeOf(files - {f}, if f.parent == null then null else root, KidsWithout(kids, f))
    ensures f.parent != null ==> f.parent in files && f.parent != f
  {
    assert HasPlace(f, files, root, kids);
    assert KidsWithout(kids, f).Keys == files - {f};
    forall g | g in files - {f}
      ensures HasPlace(g, files - {f}, if f.parent == null then null else root, KidsWithout(kids, f))
        && KidsFit(g, files - {f}, KidsWithout(kids, f))
    {
      PlaceWithout(files, root, kids, f, g);
    }
    hide KidsFit, KidsWithout;
  }

  lemma PlaceWithout(files: set<OpenFile>, root: OpenFile?, kids: map<OpenFile, seq<OpenFile>>, f: OpenFile,
                     g: OpenFile)
    requires TreeOf(files, root, kids) && f in files && kids[f] == [] && g in files - {f}
    requires KidsWithout(kids, f).Keys == files - {f}
    ensures HasPlace(g, files - {f}, if f.parent == null then null else root, KidsWithout(kids, f))
      && KidsFit(g, files - {f}, KidsWithout(kids, f))
  {
    assert HasPlace(g, files, root, kids) && KidsFit(g, files, kids);
    FitWithout(g, files, kids, f);
    assert HasPlace(f, files, root, kids);
    if g.parent != null {
      assert g.parent in files && g.parent != f && KidsFit(g.parent, files, kids);
      FitWithout(g.parent, files, kids, f);
    }
    hide KidsFit, KidsWithout;
  }

  lemma FitWith(g: OpenFile, files: set<OpenFile>, kids: map<OpenFile, seq<OpenFile>>, f: OpenFile)
    requires kids.Keys == files && g in files && f !in files && KidsFit(g, files, kids)
      && KidsWith(kids, f).Keys == files + {f}
    ensures KidsFit(g, files + {f}, KidsWith(kids, f))
    ensures SetOf(kids[g]) <= SetOf(KidsWith(kids, f)[g])
  {
    assert f !in SetOf(kids[g]);
    NoDupMore(kids[g], f);
    assert SetOf(kids[g] + [f]) == SetOf(kids[g]) + {f};
    hide NoDup;
    assert KidsWith(kids, f)[g] == if f.parent == g then kids[g] + [f] else kids[g];
  }

  lemma WithChild(files: set<OpenFile>, root: OpenFile?, kids: map<OpenFile, seq<OpenFile>>, f: OpenFile)
    requires TreeOf(files, root, kids) && f !in files
    requires if f.parent == null then root == null else f.parent in files && f.parent.depth < f.depth
    ensures TreeOf(files + {f}, if f.parent == null then f else root, KidsWith(kids, f))
  {
    var root', kids' := if f.parent == null then f else root, KidsWith(kids, f);
    assert kids'.Keys == files + {f};
    forall g | g in files
      ensures HasPlace(g, files + {f}, root', kids') && KidsFit(g, files + {f}, kids')
    {
      assert HasPlace(g, files, root, kids) && KidsFit(g, files, kids);
      FitWith(g, files, kids, f);
      if g.parent != null {
        assert g.parent in files && KidsFit(g.parent, files, kids);
        FitWith(g.parent, files, kids, f);
      }
      hide KidsFit, KidsWith;
    }
    NewFits(files, root', kids, f);
  }

  lemma NewFits(files: set<OpenFile>, root': OpenFile?, kids: map<OpenFile, seq<OpenFile>>, f: OpenFile)
    requires kids.Keys == files && f !in files && KidsWith(kids, f).Keys == files + {f}
    requires if f.parent == null then root' == f else f.parent in files && f.parent.depth < f.depth
    ensures HasPlace(f, files + {f}, root', KidsWith(kids, f)) && KidsFit(f, files + {f}, KidsWith(kids, f))
  {
    assert KidsWith(kids, f)[f] == [];
    if f.parent != null { assert (kids[f.parent] + [f])[|kids[f.parent]|] == f; }
  }

  lemma ListWithout(files: set<OpenFile>, checkRef: seq<OpenFile>, marked: set<OpenFile>, f: OpenFile)
    requires ListOf(files, checkRef, marked)
    ensures ListOf(files, Drop(checkRef, f), marked - {f}) && f !in Drop(checkRef, f)
    ensures f !in marked ==> Drop(checkRef, f) == checkRef
  {
    DropMembers(checkRef, f);
    assert f in SetOf(checkRef) <==> f in checkRef;
    assert f in SetOf(Drop(checkRef, f)) <==> f in Drop(checkRef, f);
  }

  /** FAT_VOLUME, as far as its open files are concerned; `files` are those that exist. */
  class OpenFiles {
    ghost var files: set<OpenFile>
    var root: OpenFile?
    var checkRef: seq<OpenFile>

    /** FatAllocateVolume: no file is open yet. */
    constructor ()
      ensures Tree() && Waiting(null) && files == {} && root == null && checkRef == []
    {
      files, root, checkRef := {}, null, [];
    }

    ghost function Kids(): map<OpenFile, seq<OpenFile>>
      reads this`files, files`childHead
    {
      map f | f in files :: f.childHead
    }

    ghost function Marked(): set<OpenFile>
      reads this`files, files`onCheckRef
    {
      set f | f in files && f.onCheckRef
    }

    /** Parents and children agree, and CheckRef lists the files that are marked as listed. */
    ghost predicate TreeInvariant()
      reads this, files`childHead, files`onCheckRef
    {
      TreeOf(files, root, Kids()) && ListOf(files, checkRef, Marked())
    }

    ghost predicate Tree()
      reads this, files`childHead, files`onCheckRef
    {
      TreeInvariant() == true
    }

    /** Neither a handle nor an open child refers to the file. */
    predicate Unreferenced(f: OpenFile)
      reads f
    {
      f.opens == 0 && f.childHead == []
    }

    /** Every file that nothing refers to waits to be checked, but for `next`. */
    ghost predicate Waiting(next: OpenFile?)
      reads this, files
    {
      forall f :: f in files && Unreferenced(f) ==> f in SetOf(checkRef) || f == next
    }

    /** The files that have a handle, or a descendant that has one. */
    ghost function Needed(): set<OpenFile>
      reads this, files`opens
    {
      set f | f in files && OnPathOf(f, Holders())
    }

    ghost function Holders(): set<OpenFile>
      reads this, files`opens
    {
      set h | h in files && h.opens > 0
    }

    // ---------------------------------------------------------------- flushing

    lemma {:induction false} PathInTree(f: OpenFile, i: nat)
      requires Tree() && f in files && i < |Path(f)|
      ensures var g := Path(f)[i]; g in files && g.parent == if i + 1 < |Path(f)| then Path(f)[i + 1] else null
      decreases f.depth
    {
      ParentIsFile(f);
      if i > 0 { PathInTree(f.parent, i - 1); }
    }

    /** The files of the path when the flush has come to file `n`. */
    ghost predicate FlushedUpTo(path: seq<OpenFile>, nodes: seq<Node>, n: nat, now: FatTime)
      requires n <= |path| == |nodes|
      reads path
    {
      forall i :: 0 <= i < |path| ==>
        path[i].info == if i < n then Left(nodes, i, now) else if i == n then Before(nodes, i) else nodes[i].info
    }

    /** One turn: a dirty file is stamped, and its entry written, which makes its directory dirty. */
    method FlushOne(current: OpenFile, now: FatTime, ghost path: seq<OpenFile>, ghost nodes: seq<Node>, ghost n: nat)
      returns (writes: bool)
      requires Tree() && current in files && (current.parent != null ==> current.parent in files)
      requires n < |path| == |nodes| && Differ(path) && current == path[n]
        && NodeOf(current).lasting == nodes[n].lasting
      requires current.parent == if n + 1 < |path| then path[n + 1] else null
      requires FlushedUpTo(path, nodes, n, now)
      modifies files`info
      ensures Tree() && FlushedUpTo(path, nodes, n + 1, now) && (writes <==> Writes(nodes, n))
      ensures forall g :: g in files && g !in path ==> g.info == old(g.info)
    {
      hide TreeInvariant;
      writes := false;
      if current.info.dirty {
        current.info := Flushed(current.info, now);
        if current.parent != null && !current.invalid {
          current.parent.info := Touched(current.parent.info);
          writes := true;
        }
      }
    }

    /**
     * FatOFileFlush: from the file up to the first one with an error, those that are dirty get new times and
     * attributes, and their directory entries are written, which makes their directories dirty in turn.  `log` says
     * whose entries are written, as steps up the path, in this order.
     */
    method FatOFileFlush(f: OpenFile, now: FatTime) returns (ok: bool, ghost log: seq<nat>)
      requires Tree() && f in files
      modifies files`info
      ensures Tree() && (ok <==> forall g :: g in Path(f) ==> !g.error)
      ensures var nodes := old(ViewOf(Path(f)));
        && log == Log(nodes, Reach(nodes))
        && forall i :: 0 <= i < |Path(f)| ==> Path(f)[i].info == After(nodes, i, now)
      ensures forall g :: g in files && g !in Path(f) ==> g.info == old(g.info)
    {
      hide TreeInvariant, Path, FlushedUpTo, ViewOf, Differ, Writes, Left, Before;
      var current: OpenFile? := f;
      ghost var path, n := Path(f), 0;
      ghost var nodes := ViewOf(path);
      PathDiffers(f);
      NoneFlushed(path, now);
      ok, log := true, [];
      while current != null
        invariant Tree() && n <= |path| && current == if n < |path| then path[n] else null
        invariant forall i :: 0 <= i < n ==> !nodes[i].failed
        invariant log == Log(nodes, n) && FlushedUpTo(path, nodes, n, now)
        invariant forall g :: g in files && g !in path ==> g.info == old(g.info)
        decreases |path| - n
      {
        PathInTree(f, n);
        if current.error {
          ok := false;
          break;
        }
        ParentIsFile(current);
        var writes := FlushOne(current, now, path, nodes, n);
        if writes { log := log + [n]; }
        current := current.parent;
        n := n + 1;
      }
      ReachIs(nodes, n);
      AllFlushed(path, nodes, n, now);
    }

    lemma NoneFlushed(path: seq<OpenFile>, now: FatTime)
      ensures FlushedUpTo(path, ViewOf(path), 0, now)
    {}

    lemma AllFlushed(path: seq<OpenFile>, nodes: seq<Node>, n: nat, now: FatTime)
      requires |path| == |nodes| && n == Reach(nodes) && FlushedUpTo(path, nodes, n, now)
      ensures forall i :: 0 <= i < |path| ==> path[i].info == After(nodes, i, now)
    {
      hide Left, Before;
    }

    /** A dirty file stays dirty in a flush unless its entry is written, or it has none. */
    lemma DirtOrWritten(path: seq<OpenFile>, nodes: seq<Node>, i: nat, now: FatTime)
      requires |path| == |nodes| && i < |path| && path[i].info == After(nodes, i, now) && nodes[i].info.dirty
      ensures path[i].info.dirty || path[i] in FilesAt(path, Log(nodes, Reach(nodes))) || !nodes[i].lasting
      ensures !path[i].info.dirty || Reach(nodes) <= i
    {
      CleanAfter(nodes, i, now);
    }

    // ---------------------------------------------------------------- checking

    /** FatCloseDirEnt: the file leaves its parent's list, and is freed. */
    method FatCloseDirEnt(f: OpenFile)
      requires Tree() && f in files && f !in checkRef && Unreferenced(f)
      modifies this`files, this`root, files`childHead
      ensures Tree() && files == old(files) - {f}
      ensures forall g :: g in old(files) ==> g.childHead == if g == f.parent then Drop(old(g.childHead), f)
        else old(g.childHead)
    {
      ghost var kids, marked := Kids(), Marked();
      WithoutChild(files, root, kids, f);
      hide TreeOf, Drop, NoDup;
      if f.parent == null {
        root := null;
      } else {
        f.parent.childHead := Drop(f.parent.childHead, f);
      }
      files := files - {f};
      assert Kids() == KidsWithout(kids, f);
      assert Marked() == marked;
    }

    /** FatCheckOFileRef: the file is taken off the list, flushed, and freed if nothing refers to it. */
    method FatCheckOFileRef(f: OpenFile, now: FatTime) returns (freed: bool, ghost written: set<OpenFile>)
      requires Tree() && f in files
      modifies this, files`onCheckRef, files`info, files`childHead
      ensures Tree() && checkRef == Drop(old(checkRef), f)
      ensures freed <==> old(Unreferenced(f))
      ensures files == if freed then old(files) - {f} else old(files)
      ensures forall g :: g in old(files) ==>
        g.childHead == if freed && g == f.parent then Drop(old(g.childHead), f) else old(g.childHead)
      ensures var nodes := old(ViewOf(Path(f)));
        && written == FilesAt(Path(f), Log(nodes, Reach(nodes)))
        && forall i :: 0 <= i < |Path(f)| ==> Path(f)[i].info == After(nodes, i, now)
      ensures forall g :: g in old(files) && g !in Path(f) ==> g.info == old(g.info)
    {
      hide TreeInvariant, Drop, Path, ViewOf, NodeOf, After, FilesAt, Log, Reach, SetOf;
      Unlist(f);
      var ok;
      ghost var log;
      ok, log := FatOFileFlush(f, now);
      written := FilesAt(Path(f), log);
      freed := f.opens == 0 && f.childHead == [];
      if freed {
        FatCloseDirEnt(f);
      }
    }

    lemma SameView(path: seq<OpenFile>, nodes: seq<Node>)
      requires |nodes| == |path| && forall i :: 0 <= i < |path| ==> nodes[i] == NodeOf(path[i])
      ensures ViewOf(path) == nodes
    {}

    method Unlist(f: OpenFile)
      requires Tree() && f in files
      modifies this`checkRef, f`onCheckRef
      ensures Tree() && checkRef == Drop(old(checkRef), f) && f !in checkRef
      ensures ViewOf(Path(f)) == old(ViewOf(Path(f)))
    {
      hide TreeOf, ListOf, Drop, Path, ViewOf;
      ghost var kids, marked, nodes := Kids(), Marked(), ViewOf(Path(f));
      ListWithout(files, checkRef, marked, f);
      if f.onCheckRef {
        checkRef := Drop(checkRef, f);
        f.onCheckRef := false;
      }
      assert Kids() == kids && Marked() == marked - {f};
      SameView(Path(f), nodes);
    }

    /** Between a file and a descendant of it that is open lies an open child of it. */
    lemma {:induction false} OpenChildBelow(h: OpenFile, f: OpenFile)
      requires Tree() && h in files && f in Path(h) && f != h
      ensures f in files && f.childHead != []
      decreases h.depth
    {
      ParentIsFile(h);
      if h.parent != f { OpenChildBelow(h.parent, f); }
    }

    /** A file that nothing refers to is not needed. */
    lemma UnreferencedNotNeeded(f: OpenFile)
      requires Tree() && f in files && Unreferenced(f)
      ensures f !in Needed()
    {
      forall h | h in files && h.opens > 0
        ensures f !in Path(h)
      {
        if f in Path(h) { OpenChildBelow(h, f); }
      }
    }

    lemma ParentIsFile(f: OpenFile)
      requires Tree() && f in files
      ensures f.parent != null ==> f.parent in files && f.parent.depth < f.depth && f in f.parent.childHead
      ensures f.parent == null ==> f == root
    {
      assert HasPlace(f, files, root, Kids());
    }

    lemma ListedIsFile(f: OpenFile)
      requires Tree() && f in checkRef
      ensures f in files
    {
      assert f in SetOf(checkRef);
    }

    /** What a file had to write has been written, or it is still dirty; a deleted file and the root have no entry. */
    ghost predicate Kept(g: OpenFile, written: set<OpenFile>)
      reads g
    {
      g.info.dirty || g in written || !NodeOf(g).lasting
    }

    /** Nothing is lost by one flush. */
    lemma FlushKeeps(f: OpenFile, nodes: seq<Node>, now: FatTime, written: set<OpenFile>, g: OpenFile)
      requires |nodes| == |Path(f)| && written == FilesAt(Path(f), Log(nodes, Reach(nodes))) && g in Path(f)
      requires forall i :: 0 <= i < |Path(f)| ==>
        && Path(f)[i].info == After(nodes, i, now)
        && nodes[i].lasting == NodeOf(Path(f)[i]).lasting && nodes[i].failed == Path(f)[i].error
      ensures forall i :: 0 <= i < |Path(f)| && Path(f)[i] == g && nodes[i].info.dirty ==> Kept(g, written)
      ensures g == f ==> f.error || !f.info.dirty
    {
      forall i | 0 <= i < |Path(f)| && Path(f)[i] == g && nodes[i].info.dirty
        ensures Kept(g, written)
      {
        DirtOrWritten(Path(f), nodes, i, now);
      }
      if g == f {
        CleanAfter(nodes, 0, now);
      }
    }

    /** Entries are written of files only that have one, and no error. */
    ghost predicate MayBeWritten(g: OpenFile)
      reads g
    {
      !g.error && NodeOf(g).lasting
    }

    lemma WrittenMay(f: OpenFile, nodes: seq<Node>, written: set<OpenFile>)
      requires |nodes| == |Path(f)| && written == FilesAt(Path(f), Log(nodes, Reach(nodes)))
      requires forall i :: 0 <= i < |Path(f)| ==>
        nodes[i].lasting == NodeOf(Path(f)[i]).lasting && nodes[i].failed == Path(f)[i].error
      ensures forall g :: g in written ==> MayBeWritten(g)
    {
      LogInOrder(nodes, Reach(nodes));
      hide Path, Log, Reach;
    }

    /** One step up: whether the file was freed, and which file may then have lost its last reference. */
    method CheckOne(f: OpenFile, now: FatTime) returns (freed: bool, ghost written: set<OpenFile>)
      requires Tree() && f in files && Waiting(f)
      modifies this, files`onCheckRef, files`info, files`childHead
      ensures Tree() && Waiting(if freed then f.parent else null) && Needed() == old(Needed())
      ensures files == if freed then old(files) - {f} else old(files)
      ensures |checkRef| <= old(|checkRef|) && (f in old(checkRef) ==> |checkRef| < old(|checkRef|))
      ensures forall g :: g in old(files) && old(g.info.dirty) ==> Kept(g, written)
      ensures forall g :: g in written ==> MayBeWritten(g)
      ensures f.error || !f.info.dirty
    {
      hide TreeInvariant, Drop, Path, NoDup, ViewOf, After, FilesAt, Log, Reach, OnPathOf;
      ghost var listed, nodes := checkRef, ViewOf(Path(f));
      if Unreferenced(f) {
        UnreferencedNotNeeded(f);
        assert Holders() - {f} == Holders();
      }
      Lists();
      DropMembers(listed, f);
      freed, written := FatCheckOFileRef(f, now);
      assert Holders() == old(Holders());
      forall g | g in files && Unreferenced(g) && g != f && !(freed && g == f.parent)
        ensures g in SetOf(checkRef)
      {
        assert old(Unreferenced(g));
      }
      forall g | g in Path(f)
        ensures old(g.info.dirty) ==> Kept(g, written)
      {
        FlushKeeps(f, nodes, now, written, g);
        var i :| 0 <= i < |Path(f)| && Path(f)[i] == g;
      }
      FlushKeeps(f, nodes, now, written, f);
      WrittenMay(f, nodes, written);
    }

    lemma Lists()
      requires Tree()
      ensures NoDup(checkRef)
    {}

    lemma WaitsToo(f: OpenFile)
      requires Waiting(null)
      ensures Waiting(f)
    {}

    /** The inner loop of FatCheckVolumeRef: up the tree, as long as files are freed. */
    method CheckUp(first: OpenFile, now: FatTime) returns (ghost written: set<OpenFile>)
      requires Tree() && first in checkRef && Waiting(null)
      modifies this, files`onCheckRef, files`info, files`childHead
      ensures Tree() && Waiting(null) && files <= old(files) && Needed() == old(Needed())
      ensures |files| + |checkRef| < old(|files| + |checkRef|)
      ensures forall g :: g in old(files) && old(g.info.dirty) ==> Kept(g, written)
      ensures forall g :: g in written ==> MayBeWritten(g)
      ensures forall g :: g in old(files) - files ==> g.error || !g.info.dirty
    {
      hide TreeInvariant, OpenFiles.Waiting, OpenFiles.Needed, Path, FilesAt, ViewOf, Unreferenced, SetOf;
      var up: OpenFile? := first;
      ghost var begun := false;
      written := {};
      ListedIsFile(first);
      WaitsToo(first);
      while up != null
        invariant Tree() && Waiting(up) && (up != null ==> up in files)
        invariant files <= old(files) && Needed() == old(Needed())
        invariant |checkRef| <= old(|checkRef|)
        invariant if begun then |files| + |checkRef| < old(|files| + |checkRef|)
          else up == first && files == old(files) && checkRef == old(checkRef)
        invariant forall g :: g in old(files) && old(g.info.dirty) ==> Kept(g, written)
        invariant forall g :: g in written ==> MayBeWritten(g)
        invariant forall g :: g in old(files) - files ==> g.error || !g.info.dirty
        decreases |files|, up != null
      {
        var f := up;
        ParentIsFile(f);
        up := f.parent;
        ghost var before := files;
        var freed;
        ghost var more;
        freed, more := CheckOne(f, now);
        written := written + more;
        begun := true;
        assert freed ==> |files| == |before| - 1;
        if !freed { break; }
      }
    }

    /**
     * FatCheckVolumeRef.  When every file without references waits to be checked, exactly the files with a handle,
     * or with a descendant that has one, are left, and no file waits.  No change is lost: a dirty file that is freed
     * has an error, or its entry was written (`written`), if it has one.
     */
    method FatCheckVolumeRef(now: FatTime) returns (ghost written: set<OpenFile>)
      requires Tree() && Waiting(null)
      modifies this, files`onCheckRef, files`info, files`childHead
      ensures Tree() && Waiting(null) && checkRef == []
      ensures files == old(Needed()) == Needed()
      ensures forall g :: g in old(files) - files && old(g.info.dirty) ==>
        g.error || g in written || !NodeOf(g).lasting
      ensures forall g :: g in old(files) && old(g.info.dirty) ==> Kept(g, written)
      ensures forall g :: g in written ==> MayBeWritten(g)
    {
      written := {};
      hide TreeInvariant, OpenFiles.Waiting, OpenFiles.Needed;
      while checkRef != []
        invariant Tree() && Waiting(null) && files <= old(files) && Needed() == old(Needed())
        invariant forall g :: g in old(files) && old(g.info.dirty) ==> Kept(g, written)
        invariant forall g :: g in written ==> MayBeWritten(g)
        invariant forall g :: g in old(files) - files ==> g.error || !g.info.dirty
        decreases |files| + |checkRef|
      {
        ghost var more := CheckUp(checkRef[0], now);
        written := written + more;
      }
      AllNeeded();
    }

    /** When every file has a handle or an open child, every file has a handle below it. */
    lemma AllNeeded()
      requires Tree() && Waiting(null) && checkRef == []
      ensures files == Needed()
    {
      forall f | f in files
        ensures f in Needed()
      {
        HandleBelow(f);
      }
    }

    lemma ChildIsFile(f: OpenFile, c: OpenFile)
      requires Tree() && f in files && c in f.childHead
      ensures c in files && c.parent == f && f.depth < c.depth
    {
      assert KidsFit(f, files, Kids()) && c in Kids()[f];
      ParentIsFile(c);
    }

    ghost function AtLeastAsDeep(f: OpenFile): set<OpenFile>
      reads this, files
    {
      set g | g in files && g.depth >= f.depth
    }

    lemma HandleBelow(f: OpenFile)
      requires Tree() && Waiting(null) && checkRef == [] && f in files
      ensures f in Needed()
      decreases AtLeastAsDeep(f)
    {
      if f.opens == 0 {
        var c := f.childHead[0];
        ChildIsFile(f, c);
        assert f in AtLeastAsDeep(f) && f !in AtLeastAsDeep(c);
        HandleBelow(c);
        var h :| h in files && h.opens > 0 && c in Path(h);
        PathGoesOn(h, c);
      } else {
        assert f in Holders() && f in Path(f) && OnPathOf(f, Holders());
      }
    }

    lemma {:induction false} PathGoesOn(h: OpenFile, c: OpenFile)
      requires Tree() && h in files && c in Path(h) && c in files && c.parent != null
      ensures c.parent in Path(h)
      decreases h.depth
    {
      ParentIsFile(h);
      ParentIsFile(c);
      if h != c { PathGoesOn(h.parent, c); }
    }

    // ---------------------------------------------------------------- opening and closing

    /** The file is linked to its parent, or becomes the root, and waits to be checked. */
    method LinkFile(f: OpenFile)
      requires Tree() && Waiting(null) && f !in files && f.childHead == [] && f.onCheckRef
      requires if f.parent == null then root == null else f.parent in files && f.parent.depth < f.depth
      modifies this, files`childHead
      ensures Tree() && Waiting(null) && files == old(files) + {f} && checkRef == [f] + old(checkRef)
    {
      hide TreeOf, NoDup;
      ghost var kids, marked := Kids(), Marked();
      WithChild(files, root, kids, f);
      NoDupMore(checkRef, f);
      if f.parent == null {
        root := f;
      } else {
        f.parent.childHead := f.parent.childHead + [f];
      }
      files := files + {f};
      checkRef := [f] + checkRef;
      assert Kids() == KidsWith(kids, f);
      assert Marked() == marked + {f};
    }

    /** FatOpenDirEnt: a new file below `parent`, or the root; nothing refers to it yet. */
    method FatOpenDirEnt(parent: OpenFile?, lastAccess: nat, modified: FatTime, archived: bool) returns (f: OpenFile)
      requires Tree() && Waiting(null) && (if parent == null then root == null else parent in files)
      modifies this, files`childHead
      ensures Tree() && Waiting(null) && fresh(f)
      ensures files == old(files) + {f} && f.parent == parent && f.opens == 0 && checkRef == [f] + old(checkRef)
    {
      hide TreeInvariant;
      f := new OpenFile(parent, lastAccess, modified, archived);
      LinkFile(f);
    }

    /** FatAllocateIFile: one more handle. */
    method FatAllocateIFile(f: OpenFile)
      requires Tree() && Waiting(null) && f in files
      modifies f`opens
      ensures Tree() && Waiting(null) && f.opens == old(f.opens) + 1
    {
      f.opens := f.opens + 1;
    }

    /** FatIFileClose: one handle less; the file waits to be checked. */
    method FatIFileClose(f: OpenFile)
      requires Tree() && Waiting(null) && f in files && f.opens > 0
      modifies this`checkRef, f`opens, f`onCheckRef
      ensures Tree() && Waiting(null) && f.opens == old(f.opens) - 1 && f in SetOf(checkRef)
    {
      ghost var kids, marked := Kids(), Marked();
      if !f.onCheckRef { NoDupMore(checkRef, f); }
      hide TreeOf, NoDup;
      f.opens := f.opens - 1;
      if !f.onCheckRef {
        checkRef := [f] + checkRef;
        f.onCheckRef := true;
      }
      assert Kids() == kids && Marked() == marked + {f};
    }

    /**
     * FatClose: after the handle is closed and the volume checked, the file is still open exactly when it has
     * another handle or a descendant with one; no change of a file is lost.
     */
    method FatClose(f: OpenFile, now: FatTime) returns (ghost written: set<OpenFile>)
      requires Tree() && Waiting(null) && f in files && f.opens > 0
      modifies this, files`onCheckRef, files`info, files`childHead, f`opens
      ensures Tree() && Waiting(null) && checkRef == [] && files <= old(files) && files == Needed()
      ensures f.opens == old(f.opens) - 1
      ensures forall g :: g in old(files) && old(g.info.dirty) ==> Kept(g, written)
      ensures forall g :: g in written ==> MayBeWritten(g)
    {
      hide TreeInvariant, OpenFiles.Kept;
      FatIFileClose(f);
      written := FatCheckVolumeRef(now);
    }

    /**
     * FatDelete goes through: the handle may write, the file is not the root, has no error, and is no full directory.
     */
    predicate MayDelete(f: OpenFile, readOnly: bool, empty: bool)
      reads f
    {
      !readOnly && f.parent != null && !f.error && empty
    }

    /**
     * The part of FatDelete that changes the file: `cut` says whether its clusters were freed; its entry is marked
     * deleted in its directory, and it gets a permanent error.
     */
    method RemoveEntry(f: OpenFile, cut: bool)
      requires Tree() && Waiting(null) && f in files && f.parent != null
      modifies f`info, f`invalid, f`error, f.parent`info
      ensures Tree() && Waiting(null) && f.parent in files && f.parent != f
      ensures f.invalid && f.error && f.parent.info == Touched(old(f.parent.info))
    {
      ParentIsFile(f);
      hide TreeInvariant;
      if cut {
        f.info := f.info.(dirty := true);
      }
      f.invalid := true;
      f.parent.info := Touched(f.parent.info);
      f.error := true;
    }

    /** What FatDelete does before it closes the handle. */
    method DeleteIfAllowed(f: OpenFile, readOnly: bool, empty: bool, cut: bool) returns (ok: bool)
      requires Tree() && Waiting(null) && f in files
      modifies f`info, f`invalid, f`error, files`info
      ensures Tree() && Waiting(null)
      ensures ok <==> old(MayDelete(f, readOnly, empty)) || (!readOnly && f.parent != null && old(f.error && f.invalid))
      ensures if old(MayDelete(f, readOnly, empty))
        then f.invalid && f.error && f.parent in files && f.parent.info.dirty
        else f.invalid == old(f.invalid) && f.error == old(f.error)
      ensures forall g :: g in files && g != f && old(g.info.dirty) ==> g.info.dirty
    {
      ParentIsFile(f);
      hide TreeInvariant;
      ok := MayDelete(f, readOnly, empty);
      if ok {
        RemoveEntry(f, cut);
      } else {
        ok := !readOnly && f.parent != null && f.error && f.invalid;
      }
    }

    /**
     * FatDelete.  The handle is closed in any case.  The entry of a deleted file is not written again, even while
     * other handles hold the file open, and the change of its directory is not lost.
     */
    method FatDelete(f: OpenFile, readOnly: bool, empty: bool, cut: bool, now: FatTime)
      returns (ok: bool, ghost written: set<OpenFile>)
      requires Tree() && Waiting(null) && f in files && f.opens > 0
      modifies this, files`onCheckRef, files`info, files`childHead, f`opens, f`invalid, f`error
      ensures Tree() && Waiting(null) && checkRef == [] && files <= old(files) && files == Needed()
      ensures ok <==> old(MayDelete(f, readOnly, empty)) || (!readOnly && f.parent != null && old(f.error && f.invalid))
      ensures if old(MayDelete(f, readOnly, empty)) then f.invalid && f.error
        else f.invalid == old(f.invalid) && f.error == old(f.error)
      ensures f.opens == old(f.opens) - 1
      ensures f.invalid ==> f !in written
      ensures old(MayDelete(f, readOnly, empty)) ==> Kept(f.parent, written)
      ensures forall g :: g in old(files) && g != f && old(g.info.dirty) ==> Kept(g, written)
    {
      hide TreeInvariant, OpenFiles.Tree, OpenFiles.Waiting, OpenFiles.Needed, OpenFiles.Kept;
      ok := DeleteIfAllowed(f, readOnly, empty, cut);
      written := FatClose(f, now);
    }
  }
}
