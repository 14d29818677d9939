/**
 * The linear scan of a directory file: which entries it lists, and what storing one entry does to that list
 * (DirectoryManage.c: FatLoadNextDirEnt).
 */
module DirScan {
  import opened ShortName
  import opened DirSlots

  /** What the scan remembers of an entry. */
  datatype Record = Record(pos: nat, count: nat, name: Str, short: Name83)

  predicate Skips(s: Slot) { s[0] == DELETE_ENTRY_MARK || VolumeIdBit(s) }

  predicate Ends(s: Slot) { !Skips(s) && s[0] == EMPTY_ENTRY_MARK }

  predicate Listed(s: Slot) { !Skips(s) && s[0] != EMPTY_ENTRY_MARK }

  function RecordAt(slots: seq<Slot>, p: nat): (r: Record)
    ensures r.pos == p
  {
    var entry := At(slots, p);
    var l := LoadName(slots, p, entry);
    Record(p, l.count, l.name, ShortNameOf(entry))
  }

  /** The entry at `p`, if the scan lists it. */
  function One(slots: seq<Slot>, p: nat): seq<Record> {
    if Listed(At(slots, p)) then [RecordAt(slots, p)] else []
  }

  /** The entries that a scan lists at the positions from `lo` to `hi`. */
  function Live(slots: seq<Slot>, lo: nat, hi: nat): seq<Record> {
    if hi <= lo then [] else Live(slots, lo, hi - 1) + One(slots, hi - 1)
  }

  /** Where a scan that has come to `p` ends. */
  function EndFrom(slots: seq<Slot>, p: nat): (e: nat)
    ensures p <= e && Ends(At(slots, e))
    ensures forall q :: p <= q < e ==> !Ends(At(slots, q))
    decreases |slots| - p
  {
    if Ends(At(slots, p)) then p else EndFrom(slots, p + 1)
  }

  function EndOf(slots: seq<Slot>): nat { EndFrom(slots, 0) }

  /** The linear scan of the whole directory. */
  function Listing(slots: seq<Slot>): seq<Record> { Live(slots, 0, EndOf(slots)) }

  // ---------------------------------------------------------------- the list of entries

  lemma {:induction false} LiveJoin(slots: seq<Slot>, lo: nat, mid: nat, hi: nat)
    requires lo <= mid <= hi
    ensures Live(slots, lo, hi) == Live(slots, lo, mid) + Live(slots, mid, hi)
  {
    hide One;
    if mid == hi {
      assert Live(slots, mid, hi) == [];
    } else {
      LiveJoin(slots, lo, mid, hi - 1);
    }
  }

  predicate Lists(slots: seq<Slot>, lo: nat, hi: nat, r: Record) {
    lo <= r.pos < hi && Listed(At(slots, r.pos)) && r == RecordAt(slots, r.pos)
  }

  /** Each entry listed is the record at its position. */
  lemma {:induction false} LiveMembers(slots: seq<Slot>, lo: nat, hi: nat)
    ensures forall i :: 0 <= i < |Live(slots, lo, hi)| ==> Lists(slots, lo, hi, Live(slots, lo, hi)[i])
  {
    if lo < hi {
      hide RecordAt, Listed, One;
      LiveMembers(slots, lo, hi - 1);
      OneMember(slots, lo, hi - 1);
      var before, last := Live(slots, lo, hi - 1), One(slots, hi - 1);
      assert Live(slots, lo, hi) == before + last;
      hide Live;
      forall i | 0 <= i < |before + last|
        ensures Lists(slots, lo, hi, (before + last)[i])
      {
        if i < |before| { assert Lists(slots, lo, hi - 1, before[i]); }
          else { assert Lists(slots, lo, hi, last[i - |before|]); }
      }
    }
  }

  lemma OneMember(slots: seq<Slot>, lo: nat, p: nat)
    requires lo <= p
    ensures forall j :: 0 <= j < |One(slots, p)| ==> Lists(slots, lo, p + 1, One(slots, p)[j])
  {
    hide Listed, At;
  }

  /** Each listed position has its entry. */
  lemma {:induction false} LiveHas(slots: seq<Slot>, lo: nat, hi: nat, p: nat)
    requires lo <= p < hi && Listed(At(slots, p))
    ensures RecordAt(slots, p) in Live(slots, lo, hi)
  {
    if p < hi - 1 { LiveHas(slots, lo, hi - 1, p); }
  }

  lemma {:induction false} LiveNone(slots: seq<Slot>, lo: nat, hi: nat)
    requires forall p :: lo <= p < hi ==> !Listed(At(slots, p))
    ensures Live(slots, lo, hi) == []
  {
    if lo < hi { LiveNone(slots, lo, hi - 1); }
  }

  lemma {:induction false} LiveSame(slots: seq<Slot>, slots': seq<Slot>, lo: nat, hi: nat)
    requires forall p :: lo <= p < hi ==> One(slots, p) == One(slots', p)
    ensures Live(slots, lo, hi) == Live(slots', lo, hi)
  {
    hide One;
    if lo < hi { LiveSame(slots, slots', lo, hi - 1); }
  }

  /** The slots of the entry at `p`: its long-name slots are none of them listed, and none lies below position 0. */
  lemma RecordSlots(slots: seq<Slot>, p: nat)
    ensures var r := RecordAt(slots, p);
      && 1 <= r.count <= MAX_LFN_ENTRIES + 1 && r.count <= p + 1
      && forall q :: p - r.count < q < p ==> Attributes(At(slots, q)) == FAT_ATTRIBUTE_LFN && Skips(At(slots, q))
  {
    hide ReadRun, CheckSumOf, ShortNameOf, NameViaCaseFlag, CString, At;
    RunLength(slots, p, CheckSumOf(ShortNameOf(At(slots, p))), 1);
  }

  /** The entries' slots `[pos - count + 1, pos]` are disjoint, and in the order of the list. */
  predicate Separate(records: seq<Record>) {
    forall i, j :: 0 <= i < j < |records| ==> records[i].pos + records[j].count <= records[j].pos
  }

  /** A listed entry's slots lie behind those listed before it. */
  lemma SeparateLast(slots: seq<Slot>, lo: nat, p: nat)
    ensures forall i :: 0 <= i < |Live(slots, lo, p)| ==> Live(slots, lo, p)[i].pos + RecordAt(slots, p).count <= p
    ensures RecordAt(slots, p).pos == p
  {
    LiveMembers(slots, lo, p);
    RecordSlots(slots, p);
    var r := RecordAt(slots, p);
    hide RecordAt, Live;
    forall i | 0 <= i < |Live(slots, lo, p)|
      ensures Live(slots, lo, p)[i].pos + r.count <= p
    {
      assert Lists(slots, lo, p, Live(slots, lo, p)[i]);
    }
  }

  lemma {:induction false} LiveSeparate(slots: seq<Slot>, lo: nat, hi: nat)
    ensures Separate(Live(slots, lo, hi))
  {
    hide RecordAt, Listed, Separate;
    if hi <= lo {
      EmptySeparate();
    } else {
      LiveSeparate(slots, lo, hi - 1);
      if Listed(At(slots, hi - 1)) { SeparateLast(slots, lo, hi - 1); }
      SeparateAppend(Live(slots, lo, hi - 1), RecordAt(slots, hi - 1));
    }
  }

  lemma EmptySeparate()
    ensures Separate([])
  {}

  lemma SeparateAppend(records: seq<Record>, r: Record)
    requires Separate(records)
    ensures (forall i :: 0 <= i < |records| ==> records[i].pos + r.count <= r.pos) ==> Separate(records + [r])
    ensures Separate(records + [])
  {}

  /** Cutting the list at a position cuts it at the first entry that is not below it. */
  lemma LiveCut(slots: seq<Slot>, hi: nat, mid: nat, i: nat)
    requires mid <= hi && i <= |Live(slots, 0, hi)|
    requires forall j :: 0 <= j < i ==> Live(slots, 0, hi)[j].pos < mid
    requires forall j :: i <= j < |Live(slots, 0, hi)| ==> mid <= Live(slots, 0, hi)[j].pos
    ensures Live(slots, 0, mid) == Live(slots, 0, hi)[..i] && Live(slots, mid, hi) == Live(slots, 0, hi)[i..]
  {
    LiveJoin(slots, 0, mid, hi);
    LiveMembers(slots, 0, mid);
    LiveMembers(slots, mid, hi);
    CutPoint(Live(slots, 0, mid), Live(slots, mid, hi), mid, i);
  }

  lemma CutPoint(low: seq<Record>, high: seq<Record>, mid: nat, i: nat)
    requires i <= |low + high|
    requires forall j :: 0 <= j < |low| ==> low[j].pos < mid
    requires forall j :: 0 <= j < |high| ==> mid <= high[j].pos
    requires forall j :: 0 <= j < i ==> (low + high)[j].pos < mid
    requires forall j :: i <= j < |low + high| ==> mid <= (low + high)[j].pos
    ensures |low| == i
  {
    var all := low + high;
    assert i < |all| ==> mid <= all[i].pos;
    assert high != [] ==> all[|low|] == high[0];
  }

  // ---------------------------------------------------------------- storing one entry

  /** `slots'` differs from `slots` only at the positions from `a` to `b`. */
  ghost predicate DiffersIn(slots: seq<Slot>, slots': seq<Slot>, a: nat, b: nat) {
    forall q: nat :: q < a || b < q ==> At(slots, q) == At(slots', q)
  }

  lemma OneBelow(slots: seq<Slot>, slots': seq<Slot>, p: nat)
    requires forall q :: 0 <= q <= p ==> At(slots, q) == At(slots', q)
    ensures RecordAt(slots, p) == RecordAt(slots', p)
  {
    RunBelow(slots, slots', p, CheckSumOf(ShortNameOf(At(slots, p))), 1);
  }

  lemma OneAbove(slots: seq<Slot>, slots': seq<Slot>, b: nat, p: nat)
    requires b < p && Barrier(At(slots', b)) && b + RecordAt(slots, p).count <= p
    requires forall q :: b < q <= p ==> At(slots, q) == At(slots', q)
    ensures RecordAt(slots, p) == RecordAt(slots', p)
  {
    RunAboveGap(slots, slots', b, p, CheckSumOf(ShortNameOf(At(slots, p))), 1);
  }

  /** No entry above `b` has slots that reach down to it. */
  ghost predicate ClearAbove(slots: seq<Slot>, b: nat) {
    forall p :: b < p && Listed(At(slots, p)) ==> b + RecordAt(slots, p).count <= p
  }

  /** So it is above a listed entry, and above the end of the directory. */
  lemma ListedIsClear(slots: seq<Slot>, b: nat)
    requires !VolumeIdBit(At(slots, b))
    ensures ClearAbove(slots, b)
  {
    forall p | b < p && Listed(At(slots, p))
      ensures b + RecordAt(slots, p).count <= p
    {
      RecordSlots(slots, p);
      LfnHasVolumeBit(At(slots, b));
      hide RecordAt, Listed, At;
    }
  }

  lemma LfnHasVolumeBit(s: Slot)
    ensures Attributes(s) == FAT_ATTRIBUTE_LFN ==> VolumeIdBit(s)
  {}

  /** The entries whose slots are not touched stay what they are. */
  lemma OthersUnchanged(slots: seq<Slot>, slots': seq<Slot>, a: nat, b: nat, p: nat)
    requires a <= b && DiffersIn(slots, slots', a, b) && ClearAbove(slots, b) && Barrier(At(slots', b))
    requires p < a || b < p
    ensures One(slots, p) == One(slots', p) && (Listed(At(slots, p)) ==> RecordAt(slots, p) == RecordAt(slots', p))
  {
    hide RecordAt, Listed, Barrier, At;
    assert At(slots, p) == At(slots', p);
    if p < a { OneBelow(slots, slots', p); } else if Listed(At(slots, p)) { OneAbove(slots, slots', b, p); }
  }

  /** Changing the slots of one entry, or of a gap, changes at most the one entry of the list that ends there. */
  lemma ReplaceOne(slots: seq<Slot>, slots': seq<Slot>, a: nat, b: nat, hi: nat)
    requires a <= b < hi && DiffersIn(slots, slots', a, b) && ClearAbove(slots, b) && Barrier(At(slots', b))
    requires forall q :: a <= q < b ==> !Listed(At(slots, q)) && !Listed(At(slots', q))
    ensures Live(slots, 0, hi) == Live(slots, 0, a) + One(slots, b) + Live(slots, b + 1, hi)
    ensures Live(slots', 0, hi) == Live(slots, 0, a) + One(slots', b) + Live(slots, b + 1, hi)
  {
    hide RecordAt, Live, Listed, Barrier, At, ClearAbove, One;
    forall p | 0 <= p < a || b < p
      ensures One(slots, p) == One(slots', p)
    {
      OthersUnchanged(slots, slots', a, b, p);
    }
    LiveSame(slots, slots', 0, a);
    LiveSame(slots, slots', b + 1, hi);
    Around(slots, a, b, hi);
    Around(slots', a, b, hi);
  }

  lemma Around(slots: seq<Slot>, a: nat, b: nat, hi: nat)
    requires a <= b < hi && forall q :: a <= q < b ==> !Listed(At(slots, q))
    ensures Live(slots, 0, hi) == Live(slots, 0, a) + One(slots, b) + Live(slots, b + 1, hi)
  {
    hide *;
    LiveJoin(slots, 0, b + 1, hi);
    LiveJoin(slots, 0, a, b);
    LiveNone(slots, a, b);
    LiveOneMore(slots, b);
    NothingBetween(Live(slots, 0, a), Live(slots, a, b));
  }

  lemma LiveOneMore(slots: seq<Slot>, b: nat)
    ensures Live(slots, 0, b + 1) == Live(slots, 0, b) + One(slots, b)
  {
    hide One, Listed;
  }

  lemma NothingBetween(x: seq<Record>, y: seq<Record>)
    ensures y == [] ==> x + y == x
  {}

  // ---------------------------------------------------------------- orphans

  /** The slot at `p` is one of the long-name slots of the entry at `q`. */
  predicate OwnedBy(slots: seq<Slot>, p: nat, q: nat) {
    Listed(At(slots, q)) && q < p + RecordAt(slots, q).count && p < q
  }

  /**
   * Below `lo`, every slot that could continue a run of long-name slots belongs to an entry below `hi`: none is left
   * over.
   */
  ghost predicate NoOrphans(slots: seq<Slot>, lo: nat, hi: nat) {
    forall p :: 0 <= p < lo ==> Barrier(At(slots, p)) || exists q :: p < q < hi && OwnedBy(slots, p, q)
  }

  lemma ReplaceLeavesNoOrphans(slots: seq<Slot>, slots': seq<Slot>, a: nat, b: nat, lo: nat, hi: nat)
    requires a <= b < hi && DiffersIn(slots, slots', a, b) && ClearAbove(slots, b) && Barrier(At(slots', b))
    requires forall q :: a <= q < b ==> !Listed(At(slots, q))
    requires Listed(At(slots, b)) ==> RecordAt(slots, b).count <= b - a + 1
    requires forall q :: a <= q < b ==> Barrier(At(slots', q)) || OwnedBy(slots', q, b)
    requires NoOrphans(slots, lo, hi) && (lo == hi || (lo == a && hi == b + 1))
    ensures NoOrphans(slots', hi, hi)
  {
    hide RecordAt, Skips, Barrier, At, ClearAbove;
    forall p | 0 <= p < hi
      ensures Barrier(At(slots', p)) || exists q :: p < q < hi && OwnedBy(slots', p, q)
    {
      if !(a <= p <= b) {
        assert At(slots, p) == At(slots', p);
        if !Barrier(At(slots, p)) {
          var q :| p < q < hi && OwnedBy(slots, p, q);
          assert !(a <= q <= b);
          OthersUnchanged(slots, slots', a, b, q);
          assert At(slots, q) == At(slots', q);
          assert OwnedBy(slots', p, q);
        }
      }
    }
  }

  /** A position between two neighbours in the list, clear of the second one's slots. */
  predicate InGap(records: seq<Record>, i: nat, hi: nat, p: nat)
    requires i <= |records|
  {
    && (i > 0 ==> records[i - 1].pos < p)
    && if i < |records| then p + records[i].count <= records[i].pos else p < hi
  }

  lemma GapSlots(slots: seq<Slot>, hi: nat, i: nat, p: nat)
    requires i <= |Live(slots, 0, hi)| && InGap(Live(slots, 0, hi), i, hi, p)
    ensures !Listed(At(slots, p)) && p < hi
    ensures NoOrphans(slots, hi, hi) ==> Barrier(At(slots, p))
  {
    var records := Live(slots, 0, hi);
    LiveMembers(slots, 0, hi);
    LiveSeparate(slots, 0, hi);
    forall k | 0 <= k < |records|
      ensures records[k].count >= 1
    {
      RecordSlots(slots, records[k].pos);
    }
    NotInGap(records, i, hi, p);
    if Listed(At(slots, p)) { LiveHas(slots, 0, hi, p); }
    if NoOrphans(slots, hi, hi) && !Barrier(At(slots, p)) {
      var q :| p < q < hi && OwnedBy(slots, p, q);
      LiveHas(slots, 0, hi, q);
    }
  }

  /** No entry's slots reach into a gap. */
  lemma NotInGap(records: seq<Record>, i: nat, hi: nat, p: nat)
    requires Separate(records) && i <= |records| && InGap(records, i, hi, p)
    requires forall j :: 0 <= j < |records| ==> records[j].count >= 1
    ensures forall r :: r in records ==> !(r.pos < p + r.count && p <= r.pos)
  {
    forall k | 0 <= k < |records|
      ensures !(records[k].pos < p + records[k].count && p <= records[k].pos)
    {
      if k + 1 < i { assert records[k].pos + records[i - 1].count <= records[i - 1].pos; }
      if i < k { assert records[i].pos + records[k].count <= records[k].pos; }
    }
  }
}
