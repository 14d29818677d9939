/** The name index of a directory: two hash tables chained through the entries themselves (Hash.c). */
module NameIndex {
  import opened ShortName
  import opened DirSlots
  import opened DirScan

  const HASH_TABLE_SIZE := 0x400

  datatype Kind = ByLongName | ByShortName

  function Other(kind: Kind): Kind { if kind.ByLongName? then ByShortName else ByLongName }

  /** FAT_DIRENT; `record` holds the fields that are set before the entry is linked anywhere. */
  class DirEnt {
    const record: Record
    var entry: Slot
    var invalid: bool
    var longNameForwardLink: DirEnt?
    var shortNameForwardLink: DirEnt?

    constructor (record: Record, entry: Slot)
      ensures this.record == record && this.entry == entry && !invalid
    {
      this.record, this.entry := record, entry;
      invalid, longNameForwardLink, shortNameForwardLink := false, null, null;
    }

    /** What the entry is searched by: its long name without regard to case, or its short name. */
    function Key(kind: Kind): seq<Char16> {
      if kind.ByLongName? then Upper(record.name) else Widened(record.short)
    }

    function Link(kind: Kind): DirEnt?
      reads this
    {
      if kind.ByLongName? then longNameForwardLink else shortNameForwardLink
    }

    method SetLink(kind: Kind, next: DirEnt?)
      modifies this`longNameForwardLink, this`shortNameForwardLink
      ensures Link(kind) == next && Link(Other(kind)) == old(Link(Other(kind)))
    {
      if kind.ByLongName? { longNameForwardLink := next; } else { shortNameForwardLink := next; }
    }
  }

  function Nth(chain: seq<DirEnt>, i: nat): DirEnt? {
    if i < |chain| then chain[i] else null
  }

  /** One of the two tables; `chains` are the buckets' lists, and `nodes` the entries in them. */
  class NameTable {
    const kind: Kind
    const hash: seq<Char16> -> nat
    const heads: array<DirEnt?>
    ghost var chains: seq<seq<DirEnt>>
    ghost var nodes: set<DirEnt>

    constructor (kind: Kind, hash: seq<Char16> -> nat)
      ensures this.kind == kind && this.hash == hash && nodes == {} && Valid() && fresh(heads)
    {
      this.kind, this.hash := kind, hash;
      heads := new DirEnt?[HASH_TABLE_SIZE](_ => null);
      chains := seq(HASH_TABLE_SIZE, _ => []);
      nodes := {};
    }

    function Bucket(key: seq<Char16>): (h: nat)
      ensures h < HASH_TABLE_SIZE
    {
      hash(key) % HASH_TABLE_SIZE
    }

    /** The forward links of the entries in the index. */
    ghost function Links(): map<DirEnt, DirEnt?>
      reads this, nodes
    {
      map d | d in nodes :: d.Link(kind)
    }

    /** The list of bucket `h`: linked from its head, of entries that belong there, none of them twice. */
    ghost predicate ChainValid(h: nat, head: DirEnt?, chain: seq<DirEnt>, links: map<DirEnt, DirEnt?>) {
      && head == Nth(chain, 0)
      && (forall i {:trigger Linked(h, chain, i, links)} :: 0 <= i < |chain| ==> Linked(h, chain, i, links))
      && (forall i, j :: 0 <= i < j < |chain| ==> chain[i] != chain[j])
    }

    /** The i-th entry of the list belongs to bucket `h`, and links to the one behind it. */
    ghost predicate Linked(h: nat, chain: seq<DirEnt>, i: nat, links: map<DirEnt, DirEnt?>)
      requires i < |chain|
    {
      chain[i] in links && Bucket(chain[i].Key(kind)) == h && links[chain[i]] == Nth(chain, i + 1)
    }

    /** Every entry of the index is in its bucket once, and nothing else is in any bucket. */
    ghost predicate Indexed(heads: seq<DirEnt?>, chains: seq<seq<DirEnt>>, links: map<DirEnt, DirEnt?>) {
      && |heads| == HASH_TABLE_SIZE && |chains| == HASH_TABLE_SIZE
      && (forall h :: 0 <= h < HASH_TABLE_SIZE ==> ChainValid(h, heads[h], chains[h], links))
      && (forall d :: d in links ==> d in chains[Bucket(d.Key(kind))])
    }

    ghost predicate Valid()
      reads this, heads, nodes
    {
      Indexed(heads[..], chains, Links())
    }

    /** No other entry of the index has the key of `d`. */
    ghost predicate OnlyKey(d: DirEnt)
      reads this
    {
      forall e :: e in nodes && e.Key(kind) == d.Key(kind) ==> e == d
    }

    /**
     * FatLongNameHashSearch and FatShortNameHashSearch: the first entry of the bucket with the key, and the link
     * that leads to it, which is the head of the bucket (`previous == null`) or that of the entry before.
     */
    method Search(key: seq<Char16>) returns (previous: DirEnt?, found: DirEnt?, ghost i: nat)
      requires Valid()
      ensures found == null ==> forall d :: d in nodes ==> d.Key(kind) != key
      ensures found != null ==> found in nodes && found.Key(kind) == key
      ensures var chain := chains[Bucket(key)];
        && i <= |chain| && found == Nth(chain, i) && previous == (if i > 0 then chain[i - 1] else null)
        && forall j :: 0 <= j < i ==> chain[j].Key(kind) != key
    {
      hide Upper, Widened, DirEnt.Key;
      ghost var chain := chains[Bucket(key)];
      assert ChainValid(Bucket(key), heads[..][Bucket(key)], chain, Links());
      i := 0;
      previous, found := null, heads[Bucket(key)];
      while found != null && found.Key(kind) != key
        invariant i <= |chain| && found == Nth(chain, i) && previous == (if i > 0 then chain[i - 1] else null)
        invariant forall j :: 0 <= j < i ==> chain[j].Key(kind) != key
        decreases |chain| - i
      {
        assert Linked(Bucket(key), chain, i, Links());
        previous, found := found, found.Link(kind);
        i := i + 1;
      }
      if found != null { assert Linked(Bucket(key), chain, i, Links()); }
      if found == null {
        forall d | d in nodes
          ensures d.Key(kind) != key
        {
          assert d in Links();
          assert d.Key(kind) == key ==> d in chain;
        }
      }
    }

    /** One half of FatInsertToHashTable. */
    method Insert(d: DirEnt)
      requires Valid() && d !in nodes
      modifies this`chains, this`nodes, heads, d`longNameForwardLink, d`shortNameForwardLink
      ensures Valid() && nodes == old(nodes) + {d}
      ensures d.Link(Other(kind)) == old(d.Link(Other(kind)))
    {
      ghost var h, heads0, links0 := Bucket(d.Key(kind)), heads[..], Links();
      Inserted(heads0, chains, links0, d);
      hide ChainValid, Indexed, DirEnt.Key, Upper, Widened;
      d.SetLink(kind, heads[Bucket(d.Key(kind))]);
      heads[Bucket(d.Key(kind))] := d;
      chains := chains[h := [d] + chains[h]];
      nodes := nodes + {d};
      assert heads[..] == heads0[h := d];
      assert Links() == links0[d := heads0[h]];
    }

    lemma Inserted(heads0: seq<DirEnt?>, chains0: seq<seq<DirEnt>>, links0: map<DirEnt, DirEnt?>, d: DirEnt)
      requires Indexed(heads0, chains0, links0) && d !in links0
      ensures var h := Bucket(d.Key(kind));
        Indexed(heads0[h := d], chains0[h := [d] + chains0[h]], links0[d := heads0[h]])
    {
      var h := Bucket(d.Key(kind));
      var heads1, chains1, links1 := heads0[h := d], chains0[h := [d] + chains0[h]], links0[d := heads0[h]];
      forall g | 0 <= g < HASH_TABLE_SIZE
        ensures ChainValid(g, heads1[g], chains1[g], links1)
      {
        assert ChainValid(g, heads0[g], chains0[g], links0);
        if g == h {
          FrontOfBucket(h, heads0[h], chains0[h], links0, d);
        } else {
          OtherBucket(g, heads0[g], chains0[g], links0, d, heads0[h]);
        }
        hide ChainValid;
      }
    }

    lemma FrontOfBucket(h: nat, head: DirEnt?, chain: seq<DirEnt>, links: map<DirEnt, DirEnt?>, d: DirEnt)
      requires ChainValid(h, head, chain, links) && d !in links && Bucket(d.Key(kind)) == h
      ensures ChainValid(h, d, [d] + chain, links[d := head])
    {
      hide Bucket, DirEnt.Key;
      var longer, links' := [d] + chain, links[d := head];
      forall j | 0 <= j < |longer|
        ensures Linked(h, longer, j, links')
      {
        if j > 0 { assert Linked(h, chain, j - 1, links) && longer[j] == chain[j - 1]
                  && Nth(longer, j + 1) == Nth(chain, j); }
      }
      forall j | 0 <= j < |chain|
        ensures chain[j] != d
      {
        assert Linked(h, chain, j, links);
      }
    }

    /** One half of FatDeleteFromHashTable. */
    method Delete(d: DirEnt)
      requires Valid() && d in nodes && OnlyKey(d)
      modifies this`chains, this`nodes, heads, nodes`longNameForwardLink, nodes`shortNameForwardLink
      ensures Valid() && nodes == old(nodes) - {d}
      ensures forall e :: e in old(nodes) ==> e.Link(Other(kind)) == old(e.Link(Other(kind)))
    {
      var previous, i := Locate(d);
      ghost var h, heads0, links0 := Bucket(d.Key(kind)), heads[..], Links();
      Deleted(heads0, chains, links0, d, previous, i);
      InChain(heads0, chains, links0, h, i);
      LengthOfHeads(heads0, chains, links0);
      hide ChainValid, Indexed, Bucket, DirEnt.Key, Links, LinksPast, HeadsPast, Cut, DirEnt.Link;
      Unlink(d, previous);
      Forget(d, h, i);
    }

    /** The only entry with its key is the one that the search finds. */
    method Locate(d: DirEnt) returns (previous: DirEnt?, ghost i: nat)
      requires Valid() && d in nodes && OnlyKey(d)
      ensures var chain := chains[Bucket(d.Key(kind))];
        i < |chain| && chain[i] == d && previous == if i > 0 then chain[i - 1] else null
    {
      var found;
      previous, found, i := Search(d.Key(kind));
      assert found == d;
    }

    lemma LengthOfHeads(heads0: seq<DirEnt?>, chains0: seq<seq<DirEnt>>, links0: map<DirEnt, DirEnt?>)
      requires Indexed(heads0, chains0, links0)
      ensures |heads0| == |chains0| == HASH_TABLE_SIZE
    {}

    ghost method Forget(d: DirEnt, h: nat, i: nat)
      requires h < |chains| && i < |chains[h]|
      modifies this`chains, this`nodes
      ensures chains == old(chains)[h := Cut(old(chains)[h], i)] && nodes == old(nodes) - {d}
      ensures Links() == old(Links()) - {d}
    {
      chains := chains[h := Cut(chains[h], i)];
      nodes := nodes - {d};
    }

    /** The link that led to `d`, at the head of its bucket or in the entry before it, now leads past it. */
    method Unlink(d: DirEnt, previous: DirEnt?)
      requires heads.Length == HASH_TABLE_SIZE && d in nodes && (previous != null ==> previous in nodes)
      modifies heads, nodes`longNameForwardLink, nodes`shortNameForwardLink
      ensures d in old(Links())
      ensures heads[..] == HeadsPast(old(heads[..]), old(Links()), previous, d)
      ensures Links() == LinksPast(old(Links()), previous, d)
      ensures forall e :: e in nodes ==> e.Link(Other(kind)) == old(e.Link(Other(kind)))
    {
      hide Bucket, DirEnt.Key;
      if previous == null {
        heads[Bucket(d.Key(kind))] := d.Link(kind);
      } else {
        previous.SetLink(kind, d.Link(kind));
      }
    }

    /** The heads and the links when the one that led to `d` leads past it. */
    ghost function HeadsPast(heads: seq<DirEnt?>, links: map<DirEnt, DirEnt?>, previous: DirEnt?,
                             d: DirEnt): seq<DirEnt?>
      requires |heads| == HASH_TABLE_SIZE && d in links
    {
      if previous == null then heads[Bucket(d.Key(kind)) := links[d]] else heads
    }

    ghost function LinksPast(links: map<DirEnt, DirEnt?>, previous: DirEnt?, d: DirEnt): map<DirEnt, DirEnt?>
      requires d in links
    {
      if previous == null then links else links[previous := links[d]]
    }

    function Cut(chain: seq<DirEnt>, i: nat): seq<DirEnt>
      requires i < |chain|
    {
      chain[..i] + chain[i + 1..]
    }

    lemma InChain(heads0: seq<DirEnt?>, chains0: seq<seq<DirEnt>>, links0: map<DirEnt, DirEnt?>, h: nat, i: nat)
      requires Indexed(heads0, chains0, links0) && h < HASH_TABLE_SIZE && i < |chains0[h]|
      ensures chains0[h][i] in links0 && (i > 0 ==> chains0[h][i - 1] in links0 && chains0[h][i - 1] != chains0[h][i])
      ensures i > 0 ==> Bucket(chains0[h][i - 1].Key(kind)) == h
    {
      assert ChainValid(h, heads0[h], chains0[h], links0);
      assert Linked(h, chains0[h], i, links0);
      if i > 0 { assert Linked(h, chains0[h], i - 1, links0); }
    }

    /** Taking the i-th entry out of its bucket's list. */
    lemma Deleted(heads0: seq<DirEnt?>, chains0: seq<seq<DirEnt>>, links0: map<DirEnt, DirEnt?>, d: DirEnt,
                  previous: DirEnt?, i: nat)
      requires Indexed(heads0, chains0, links0) && i < |chains0[Bucket(d.Key(kind))]|
        && chains0[Bucket(d.Key(kind))][i] == d
      requires previous == if i > 0 then chains0[Bucket(d.Key(kind))][i - 1] else null
      ensures d in links0
      ensures var h := Bucket(d.Key(kind));
        Indexed(HeadsPast(heads0, links0, previous, d), chains0[h := Cut(chains0[h], i)],
                LinksPast(links0, previous, d) - {d})
    {
      var h := Bucket(d.Key(kind));
      InChain(heads0, chains0, links0, h, i);
      var heads1, links1 := HeadsPast(heads0, links0, previous, d), LinksPast(links0, previous, d) - {d};
      var chains1 := chains0[h := Cut(chains0[h], i)];
      forall g | 0 <= g < HASH_TABLE_SIZE
        ensures ChainValid(g, heads1[g], chains1[g], links1)
      {
        assert ChainValid(g, heads0[g], chains0[g], links0);
        if g == h {
          CutBucket(h, heads0[h], chains0[h], links0, i, heads1[h], links1);
        } else {
          OtherChain(g, heads0[g], chains0[g], links0, links1, h, d, previous);
        }
        hide ChainValid, LinksPast;
      }
      forall e | e in links1
        ensures e in chains1[Bucket(e.Key(kind))]
      {
        StaysInBucket(chains0[Bucket(e.Key(kind))], chains0[h], i, e, d);
      }
    }

    lemma StaysInBucket(mine: seq<DirEnt>, chain: seq<DirEnt>, i: nat, e: DirEnt, d: DirEnt)
      requires i < |chain| && chain[i] == d && e != d && e in mine
      ensures e in chain ==> e in Cut(chain, i)
    {
      if e in chain {
        var j :| 0 <= j < |chain| && chain[j] == e;
        assert Cut(chain, i)[if j < i then j else j - 1] == e;
      }
    }

    lemma CutBucket(h: nat, head: DirEnt?, chain: seq<DirEnt>, links: map<DirEnt, DirEnt?>, i: nat,
                    head': DirEnt?, links': map<DirEnt, DirEnt?>)
      requires ChainValid(h, head, chain, links) && i < |chain| && chain[i] in links
      requires head' == if i == 0 then links[chain[0]] else head
      requires links' == LinksPast(links, if i == 0 then null else chain[i - 1], chain[i]) - {chain[i]}
      ensures ChainValid(h, head', Cut(chain, i), links')
    {
      hide Bucket, DirEnt.Key;
      var rest := Cut(chain, i);
      assert Linked(h, chain, i, links);
      forall j | 0 <= j < |rest|
        ensures rest[j] == chain[if j < i then j else j + 1] && Linked(h, rest, j, links')
      {
        assert Linked(h, chain, if j < i then j else j + 1, links);
      }
    }

    lemma OtherChain(g: nat, head: DirEnt?, chain: seq<DirEnt>, links: map<DirEnt, DirEnt?>, links': map<DirEnt,
                     DirEnt?>,
                     h: nat, d: DirEnt, previous: DirEnt?)
      requires ChainValid(g, head, chain, links) && g != h && d in links
        && links' == LinksPast(links, previous, d) - {d}
      requires Bucket(d.Key(kind)) == h && (previous != null ==> Bucket(previous.Key(kind)) == h)
      ensures ChainValid(g, head, chain, links')
    {
      hide Bucket, DirEnt.Key;
      forall j | 0 <= j < |chain|
        ensures Linked(g, chain, j, links')
      {
        assert Linked(g, chain, j, links);
      }
    }

    lemma OtherBucket(g: nat, head: DirEnt?, chain: seq<DirEnt>, links: map<DirEnt, DirEnt?>, d: DirEnt, x: DirEnt?)
      requires ChainValid(g, head, chain, links) && Bucket(d.Key(kind)) != g
      ensures ChainValid(g, head, chain, links[d := x])
    {
      hide Bucket, DirEnt.Key;
      var links' := links[d := x];
      forall j | 0 <= j < |chain|
        ensures Linked(g, chain, j, links')
      {
        assert Linked(g, chain, j, links);
      }
    }

    /** The table stays valid when nothing but the other table's links changes. */
    twostate lemma Untouched()
      requires old(Valid()) && unchanged(this) && unchanged(heads)
      requires forall d :: d in nodes ==> d.Link(kind) == old(d.Link(kind))
      ensures Valid()
    {
      assert Links() == old(Links());
    }
  }

  // ---------------------------------------------------------------- both tables

  /** Both tables hold the same entries. */
  ghost predicate IndexInvariant(short: NameTable, long: NameTable)
    reads short, long, short.heads, long.heads, short.nodes, long.nodes
  {
    && short != long && short.heads != long.heads
    && short.kind == ByShortName && long.kind == ByLongName
    && short.nodes == long.nodes
    && short.Valid() && long.Valid()
  }

  /** The same as a single fact. */
  ghost predicate IndexValid(short: NameTable, long: NameTable)
    reads short, long, short.heads, long.heads, short.nodes, long.nodes
  {
    IndexInvariant(short, long) == true
  }

  /** FatInsertToHashTable. */
  method FatInsertToHashTable(short: NameTable, long: NameTable, d: DirEnt)
    requires IndexValid(short, long) && d !in short.nodes
    modifies short`chains, short`nodes, short.heads, long`chains, long`nodes, long.heads
    modifies d`longNameForwardLink, d`shortNameForwardLink
    ensures IndexValid(short, long) && short.nodes == old(short.nodes) + {d}
  {
    short.Insert(d);
    label Half:
    long.Insert(d);
    short.Untouched@Half();
  }

  /** FatDeleteFromHashTable. */
  method FatDeleteFromHashTable(short: NameTable, long: NameTable, d: DirEnt)
    requires IndexValid(short, long) && d in short.nodes && short.OnlyKey(d) && long.OnlyKey(d)
    modifies short`chains, short`nodes, short.heads, long`chains, long`nodes, long.heads
    modifies short.nodes`longNameForwardLink, short.nodes`shortNameForwardLink
    ensures IndexValid(short, long) && short.nodes == old(short.nodes) - {d}
  {
    label Start:
    short.Delete(d);
    long.Untouched@Start();
    label Half:
    long.Delete(d);
    short.Untouched@Half();
  }
}
