/** The chained hash table of hiredis: a bucket array of linked entries that agrees with a finite map. */
module Dict {
  import opened Powers
  import opened Words
  import AsyncRedis

  const DICT_HT_INITIAL_SIZE: nat := 4
  const LONG_MAX: nat := 0x7FFF_FFFF_FFFF_FFFF

  type Key = string
  type Val = AsyncRedis.Subscription

  /** dictGenHashFunction, in 32 bits. */
  function Hash(k: Key): nat
  {
    if k == [] then 5381 else (33 * Hash(k[..|k| - 1]) + k[|k| - 1] as int) % W32
  }

  class Entry {
    const key: Key
    var val: Val
    var next: Entry?

    constructor (key: Key, val: Val, next: Entry?)
      ensures this.key == key && this.val == val && this.next == next
    {
      this.key, this.val, this.next := key, val, next;
    }
  }

  /** A size the table may have. */
  ghost predicate IsPowerOfTwo(n: nat) { exists k: nat :: n == Scale(1, Two, k) }

  /** hash & sizemask is the remainder for a power of two. */
  lemma MaskIsRemainder(h: nat, size: nat)
    requires IsPowerOfTwo(size)
    ensures 0 < size && And(h, size - 1) == h % size
  {
    var k: nat :| size == Scale(1, Two, k);
    ScalePositive(1, Two, k);
    AndMask(h, k);
    ShiftSplit(h, k);
    ScaleMul(Shr(h, k), 1, Two, k);
    DivModUnique(h, size, Shr(h, k), LowBits(h, k));
  }

  /** _dictNextPower: the least power of two, from 4 on, that is not below size. */
  method NextPower(size: nat) returns (i: nat)
    ensures size >= LONG_MAX ==> i == LONG_MAX
    ensures size < LONG_MAX ==> IsPowerOfTwo(i) && DICT_HT_INITIAL_SIZE <= i < W64 && size <= i
    ensures size < LONG_MAX && DICT_HT_INITIAL_SIZE < i ==> i / 2 < size
    ensures size <= DICT_HT_INITIAL_SIZE ==> i == DICT_HT_INITIAL_SIZE
  {
    if size >= LONG_MAX {
      return LONG_MAX;
    }
    i := DICT_HT_INITIAL_SIZE;
    ghost var k: nat := 2;
    assert i == Scale(1, Two, k) by { assert Scale(1, Two, 1) == 2; }
    while i < size
      invariant i == Scale(1, Two, k) && DICT_HT_INITIAL_SIZE <= i < W64
      invariant DICT_HT_INITIAL_SIZE < i ==> i / 2 < size
      invariant size <= DICT_HT_INITIAL_SIZE ==> i == DICT_HT_INITIAL_SIZE
      decreases size - i
    {
      i, k := 2 * i, k + 1;
    }
  }

  // ---- the shape of a table, on a snapshot of its pointers ----

  /** What is known of a linked entry: its next pointer, when it was linked, and its bucket. */
  datatype Link = Link(next: Entry?, rank: nat, slot: nat)

  type Links = map<Entry, Link>

  /** An entry's bucket is not empty, and the head of the bucket was linked last. */
  ghost predicate UnderHead(heads: seq<Entry?>, links: Links, e: Entry)
    requires e in links
  {
    links[e].slot < |heads| &&
    var head := heads[links[e].slot];
    head != null && head in links && links[e].rank <= links[head].rank
  }

  /** The next pointer stays in the bucket and goes back in time. */
  ghost predicate NextValid(links: Links, e: Entry)
    requires e in links
  {
    var next := links[e].next;
    next != null ==> next in links && links[next].slot == links[e].slot && links[next].rank < links[e].rank
  }

  /** f is not an entry of the same bucket that was linked after the next entry of e but before e. */
  ghost predicate NotBetween(links: Links, e: Entry, f: Entry)
    requires e in links && f in links
  {
    links[f].slot == links[e].slot && links[f].rank < links[e].rank ==>
      var next := links[e].next;
      next != null && next in links && links[f].rank <= links[next].rank
  }

  /** Every bucket's pointers run through exactly its entries, in the order of their ranks. */
  ghost predicate Shape(heads: seq<Entry?>, links: Links, clock: nat)
  {
    && (forall b :: 0 <= b < |heads| && heads[b] != null ==> heads[b] in links && links[heads[b]].slot == b)
    && (forall e {:trigger UnderHead(heads, links, e)} :: e in links ==> UnderHead(heads, links, e))
    && (forall e {:trigger NextValid(links, e)} :: e in links ==> NextValid(links, e))
    && (forall e, f {:trigger NotBetween(links, e, f)} :: e in links && f in links ==> NotBetween(links, e, f))
    && (forall e :: e in links ==> links[e].rank < clock)
    && (forall e, f :: e in links && f in links && links[e].rank == links[f].rank ==> e == f)
  }

  /** Linking a new entry in front of its bucket. */
  lemma ShapeInsert(heads: seq<Entry?>, links: Links, clock: nat, e: Entry, h: nat)
    requires Shape(heads, links, clock) && e !in links && h < |heads|
    ensures Shape(heads[h := e], links[e := Link(heads[h], clock, h)], clock + 1)
  {
    var heads', links' := heads[h := e], links[e := Link(heads[h], clock, h)];
    forall f | f in links'
      ensures UnderHead(heads', links', f) && NextValid(links', f)
    {
      if f != e {
        assert UnderHead(heads, links, f) && NextValid(links, f);
      }
    }
    forall f, g | f in links' && g in links'
      ensures NotBetween(links', f, g)
    {
      if f != e && g != e {
        assert NotBetween(links, f, g);
      } else if g != e {
        assert UnderHead(heads, links, g);
      }
    }
  }

  /** The links without e; its predecessor, if any, now points behind it. */
  ghost function Unlinked(links: Links, e: Entry, prev: Entry?): Links
    requires e in links && (prev != null ==> prev in links)
  {
    (if prev == null then links else links[prev := links[prev].(next := links[e].next)]) - {e}
  }

  /** Unlinking changes no rank and no bucket. */
  ghost predicate SameEntries(links: Links, links': Links, gone: set<Entry>)
  {
    && links'.Keys == links.Keys - gone
    && forall f :: f in links' ==> f in links && links'[f].rank == links[f].rank && links'[f].slot == links[f].slot
  }

  lemma UnlinkedSame(links: Links, e: Entry, prev: Entry?)
    requires e in links && (prev != null ==> prev in links)
    ensures SameEntries(links, Unlinked(links, e, prev), {e})
  {
  }

  /** The heads without e, which moves only the head of its bucket. */
  ghost function Unheaded(heads: seq<Entry?>, links: Links, e: Entry, prev: Entry?): seq<Entry?>
    requires e in links && links[e].slot < |heads|
  {
    if prev == null then heads[links[e].slot := links[e].next] else heads
  }

  /** The entry to be unlinked is where the search found it. */
  ghost predicate Found(heads: seq<Entry?>, links: Links, e: Entry, prev: Entry?)
  {
    && e in links && links[e].slot < |heads|
    && if prev == null then heads[links[e].slot] == e else prev in links && links[prev].next == e
  }

  /** Only the predecessor points to e. */
  lemma OnePredecessor(heads: seq<Entry?>, links: Links, clock: nat, e: Entry, prev: Entry?, f: Entry)
    requires Shape(heads, links, clock) && Found(heads, links, e, prev) && f in links && links[f].next == e
    ensures f == prev && heads[links[e].slot] != e
  {
    assert NextValid(links, f) && UnderHead(heads, links, f);
    if prev != null {
      assert NextValid(links, prev) && NotBetween(links, prev, f) && NotBetween(links, f, prev);
    }
  }

  lemma UnlinkedNext(heads: seq<Entry?>, links: Links, clock: nat, e: Entry, prev: Entry?, f: Entry)
    requires Shape(heads, links, clock) && Found(heads, links, e, prev) && f in links && f != e
    ensures var links' := Unlinked(links, e, prev);
            f in links' && NextValid(links', f) && links'[f].rank == links[f].rank && links'[f].slot == links[f].slot
    ensures Unlinked(links, e, prev)[f].next == if links[f].next == e then links[e].next else links[f].next
  {
    assert NextValid(links, f) && NextValid(links, e);
    if links[f].next == e {
      OnePredecessor(heads, links, clock, e, prev, f);
    }
  }

  lemma UnlinkedBetween(heads: seq<Entry?>, links: Links, clock: nat, e: Entry, prev: Entry?, f: Entry, g: Entry)
    requires Shape(heads, links, clock) && Found(heads, links, e, prev) && f in links && f != e && g in links && g != e
    ensures f in Unlinked(links, e, prev) && g in Unlinked(links, e, prev) && NotBetween(Unlinked(links, e, prev), f, g)
  {
    UnlinkedNext(heads, links, clock, e, prev, f);
    UnlinkedNext(heads, links, clock, e, prev, g);
    assert NotBetween(links, f, g) && NextValid(links, f) && NextValid(links, e);
    if links[f].next == e {
      assert NotBetween(links, e, g);
    }
  }

  lemma UnlinkedHead(heads: seq<Entry?>, links: Links, clock: nat, e: Entry, prev: Entry?, f: Entry)
    requires Shape(heads, links, clock) && Found(heads, links, e, prev) && f in links && f != e
    ensures f in Unlinked(links, e, prev) && UnderHead(Unheaded(heads, links, e, prev), Unlinked(links, e, prev), f)
  {
    UnlinkedNext(heads, links, clock, e, prev, f);
    assert UnderHead(heads, links, f) && NextValid(links, e) && NotBetween(links, e, f);
    if prev != null {
      OnePredecessor(heads, links, clock, e, prev, prev);
    }
  }

  lemma HeadAfter(heads: seq<Entry?>, links: Links, clock: nat, e: Entry, prev: Entry?, b: nat)
    requires Shape(heads, links, clock) && Found(heads, links, e, prev) && b < |heads|
    ensures var head, links' := Unheaded(heads, links, e, prev)[b], Unlinked(links, e, prev);
            head != null ==> head in links' && links'[head].slot == b
  {
    assert NextValid(links, e);
    if prev != null {
      OnePredecessor(heads, links, clock, e, prev, prev);
    }
  }

  lemma UnlinkedRanks(links: Links, clock: nat, e: Entry, prev: Entry?)
    requires e in links && (prev != null ==> prev in links)
    requires forall f, g :: f in links && g in links && links[f].rank == links[g].rank ==> f == g
    requires forall f :: f in links ==> links[f].rank < clock
    ensures var links' := Unlinked(links, e, prev);
            && (forall f, g :: f in links' && g in links' && links'[f].rank == links'[g].rank ==> f == g)
            && (forall f :: f in links' ==> links'[f].rank < clock)
  {
  }

  /** Unlinking an entry: its predecessor, or its bucket, now points behind it. */
  lemma ShapeRemove(heads: seq<Entry?>, links: Links, clock: nat, e: Entry, prev: Entry?)
    requires Shape(heads, links, clock) && Found(heads, links, e, prev)
    ensures Shape(Unheaded(heads, links, e, prev), Unlinked(links, e, prev), clock)
  {
    var heads', links' := Unheaded(heads, links, e, prev), Unlinked(links, e, prev);
    forall f | f in links'
      ensures UnderHead(heads', links', f) && NextValid(links', f)
    {
      UnlinkedHead(heads, links, clock, e, prev, f);
      UnlinkedNext(heads, links, clock, e, prev, f);
    }
    forall f, g | f in links' && g in links'
      ensures NotBetween(links', f, g)
    {
      UnlinkedBetween(heads, links, clock, e, prev, f, g);
    }
    forall b | 0 <= b < |heads'| && heads'[b] != null
      ensures heads'[b] in links' && links'[heads'[b]].slot == b
    {
      HeadAfter(heads, links, clock, e, prev, b);
    }
    UnlinkedRanks(links, clock, e, prev);
  }

  /** The bucket of a key. */
  function Slot(k: Key, size: nat): (h: nat)
    requires 0 < size
    ensures h < size
  {
    Hash(k) % size
  }

  /** An entry is the one filed under its key, and hashes to its bucket. */
  ghost predicate EntryFiled(size: nat, links: Links, nodes: map<Key, Entry>, e: Entry)
    requires 0 < size && e in links
  {
    e.key in nodes && nodes[e.key] == e && links[e].slot == Slot(e.key, size)
  }

  ghost predicate KeyFiled(links: Links, nodes: map<Key, Entry>, k: Key)
    requires k in nodes
  {
    nodes[k] in links && nodes[k].key == k
  }

  /** Entries are filed under their keys, one per key. */
  ghost predicate Filed(size: nat, links: Links, nodes: map<Key, Entry>)
  {
    && 0 < size
    && (forall e {:trigger EntryFiled(size, links, nodes, e)} :: e in links ==> EntryFiled(size, links, nodes, e))
    && (forall k {:trigger KeyFiled(links, nodes, k)} :: k in nodes ==> KeyFiled(links, nodes, k))
  }

  lemma FiledInsert(size: nat, links: Links, nodes: map<Key, Entry>, e: Entry, link: Link)
    requires Filed(size, links, nodes) && e !in links && e.key !in nodes && link.slot == Slot(e.key, size)
    ensures Filed(size, links[e := link], nodes[e.key := e])
  {
    var links', nodes' := links[e := link], nodes[e.key := e];
    forall f | f in links'
      ensures EntryFiled(size, links', nodes', f)
    {
      if f != e {
        assert EntryFiled(size, links, nodes, f);
      }
    }
    forall k | k in nodes'
      ensures KeyFiled(links', nodes', k)
    {
      if k != e.key {
        assert KeyFiled(links, nodes, k);
      }
    }
  }

  lemma FiledRemove(size: nat, links: Links, nodes: map<Key, Entry>, e: Entry, prev: Entry?)
    requires Filed(size, links, nodes) && e in links && (prev != null ==> prev in links)
    ensures Filed(size, Unlinked(links, e, prev), nodes - {e.key})
  {
    var links', nodes' := Unlinked(links, e, prev), nodes - {e.key};
    assert EntryFiled(size, links, nodes, e);
    forall f | f in links'
      ensures EntryFiled(size, links', nodes', f)
    {
      assert EntryFiled(size, links, nodes, f);
    }
    forall k | k in nodes'
      ensures KeyFiled(links', nodes', k)
    {
      assert KeyFiled(links, nodes, k);
    }
  }

  /** The heap is what the snapshot says. */
  ghost predicate Memory(links: Links, nodes: map<Key, Entry>, contents: map<Key, Val>)
    reads links.Keys
  {
    && (forall e :: e in links ==> e.next == links[e].next)
    && (forall k :: k in contents ==> k in nodes)
    && (forall k :: k in nodes ==> nodes[k] in links && k in contents && nodes[k].val == contents[k])
  }

  lemma MemoryInsert(links: Links, nodes: map<Key, Entry>, contents: map<Key, Val>, e: Entry, link: Link)
    requires Memory(links, nodes, contents) && e !in links && link.next == e.next
    ensures Memory(links[e := link], nodes[e.key := e], contents[e.key := e.val])
  {
  }

  /** All that holds of a table with buckets. */
  ghost predicate Snapshot(size: nat, heads: seq<Entry?>, links: Links, clock: nat, nodes: map<Key, Entry>, contents: map<Key, Val>)
    reads links.Keys
  {
    |heads| == size && Shape(heads, links, clock) && Filed(size, links, nodes) && Memory(links, nodes, contents)
  }

  lemma SnapshotInsert(size: nat, heads: seq<Entry?>, links: Links, clock: nat, nodes: map<Key, Entry>, contents: map<Key, Val>, e: Entry, h: nat)
    requires Snapshot(size, heads, links, clock, nodes, contents) && e.key !in nodes && h == Slot(e.key, size) && e.next == heads[h]
    ensures e !in links
    ensures Snapshot(size, heads[h := e], links[e := Link(heads[h], clock, h)], clock + 1, nodes[e.key := e], contents[e.key := e.val])
  {
    assert e in links ==> EntryFiled(size, links, nodes, e);
    ShapeInsert(heads, links, clock, e, h);
    FiledInsert(size, links, nodes, e, Link(heads[h], clock, h));
    MemoryInsert(links, nodes, contents, e, Link(heads[h], clock, h));
  }

  /** The bucket a key belongs to, by masking. */
  method BucketOf(key: Key, size: nat, sizemask: nat) returns (h: nat)
    requires IsPowerOfTwo(size) && sizemask == size - 1
    ensures 0 < size && h == Slot(key, size)
  {
    MaskIsRemainder(Hash(key), size);
    h := And(Hash(key), sizemask);
  }

  // ---- moving entries to a new table ----

  /** Moved are the buckets before i, and of bucket i what comes before he in the chain. */
  ghost predicate Moved(links: Links, moved: set<Entry>, i: nat, he: Entry?)
    requires he != null ==> he in links
  {
    forall e :: e in links ==>
      (e in moved <==> links[e].slot < i || (links[e].slot == i && (he == null || links[e].rank > links[he].rank)))
  }

  lemma EmptySnapshot(size: nat, heads: seq<Entry?>)
    requires 0 < size == |heads| && forall b :: 0 <= b < size ==> heads[b] == null
    ensures Snapshot(size, heads, map[], 0, map[], map[])
  {
  }

  /** Moving he moves exactly one entry on. */
  lemma MovedStep(heads: seq<Entry?>, links: Links, clock: nat, moved: set<Entry>, i: nat, he: Entry)
    requires Shape(heads, links, clock) && he in links && links[he].slot == i && Moved(links, moved, i, he)
    ensures var next := links[he].next;
            && he !in moved
            && (next != null ==> next in links && links[next].slot == i && links[next].rank < links[he].rank && Moved(links, moved + {he}, i, next))
            && (next == null ==> MovedBelow(links, moved + {he}, i + 1))
  {
    assert NextValid(links, he);
    forall e | e in links
      ensures NotBetween(links, he, e)
    {
    }
  }

  /** Moved are exactly the buckets before i. */
  ghost predicate MovedBelow(links: Links, moved: set<Entry>, i: nat)
  {
    forall e :: e in links ==> (e in moved <==> links[e].slot < i)
  }

  /** From the head of a bucket on nothing of it has moved. */
  lemma MovedStart(heads: seq<Entry?>, links: Links, clock: nat, moved: set<Entry>, i: nat)
    requires Shape(heads, links, clock) && i < |heads| && MovedBelow(links, moved, i)
    ensures heads[i] != null ==> heads[i] in links && links[heads[i]].slot == i && Moved(links, moved, i, heads[i])
    ensures heads[i] == null ==> MovedBelow(links, moved, i + 1)
  {
    forall e | e in links && links[e].slot == i
      ensures heads[i] != null && heads[i] in links && links[e].rank <= links[heads[i]].rank
    {
      assert UnderHead(heads, links, e);
    }
  }

  /** The body of the inner loop of dictExpand: he goes in front of its new bucket. */
  method Relink(nt: array<Entry?>, he: Entry, h: nat, ghost links2: Links, ghost clock2: nat, ghost nodes2: map<Key, Entry>, ghost contents2: map<Key, Val>)
    requires nt.Length > 0 && Snapshot(nt.Length, nt[..], links2, clock2, nodes2, contents2)
    requires he.key !in nodes2 && h == Slot(he.key, nt.Length) && he !in links2
    modifies nt, he`next
    ensures Snapshot(nt.Length, nt[..], links2[he := Link(old(nt[h]), clock2, h)], clock2 + 1, nodes2[he.key := he], contents2[he.key := he.val])
  {
    ghost var heads := nt[..];
    he.next := nt[h];
    SnapshotInsert(nt.Length, heads, links2, clock2, nodes2, contents2, he, h);
    nt[h] := he;
    assert nt[..] == heads[h := he];
  }

  /** The new table while entries are moved to it, and the old one as it was. */
  datatype Snap = Snap(links: Links, clock: nat, nodes: map<Key, Entry>, contents: map<Key, Val>)
  datatype Old = Old(size: nat, heads: seq<Entry?>, links: Links, clock: nat, nodes: map<Key, Entry>, contents: map<Key, Val>)

  ghost predicate OldValid(o: Old)
  {
    Shape(o.heads, o.links, o.clock) && Filed(o.size, o.links, o.nodes) && forall k :: k in o.nodes <==> k in o.contents
  }

  /** The old entries that have not moved point where they did, and all have their values. */
  ghost predicate Untouched(o: Old, links2: Links)
    reads o.links.Keys
  {
    && (forall e :: e in o.links && e !in links2 ==> e.next == o.links[e].next)
    && (forall e :: e in o.links ==> e.key in o.contents && e.val == o.contents[e.key])
  }

  /** The moved entries are some of the old ones, with their values. */
  ghost predicate PartOf(s: Snap, o: Old)
  {
    && s.links.Keys <= o.links.Keys
    && (forall k :: k in s.nodes ==> k in o.nodes && s.nodes[k] == o.nodes[k])
    && (forall k :: k in s.contents ==> k in o.contents && s.contents[k] == o.contents[k])
  }

  /** Part of the old entries form a valid new table, the others are still linked as before. */
  ghost predicate Halfway(nt: array<Entry?>, o: Old, s: Snap)
    reads nt, o.links.Keys
  {
    && PartOf(s, o) && Untouched(o, s.links)
    && Snapshot(nt.Length, nt[..], s.links, s.clock, s.nodes, s.contents)
  }

  function Grown(s: Snap, he: Entry, link: Link, val: Val): Snap
  {
    Snap(s.links[he := link], s.clock + 1, s.nodes[he.key := he], s.contents[he.key := val])
  }

  lemma NodeLinked(size: nat, links: Links, nodes: map<Key, Entry>, k: Key)
    requires Filed(size, links, nodes) && k in nodes
    ensures nodes[k] in links
  {
    assert KeyFiled(links, nodes, k);
  }

  /** An entry that has not moved has a key that has not. */
  lemma NotMovedYet(s: Snap, o: Old, size: nat, he: Entry)
    requires OldValid(o) && PartOf(s, o) && Filed(size, s.links, s.nodes) && he in o.links && he !in s.links
    ensures he.key !in s.nodes && he.key in o.contents && he.key in o.nodes && o.nodes[he.key] == he
  {
    assert EntryFiled(o.size, o.links, o.nodes, he);
    if he.key in s.nodes {
      NodeLinked(size, s.links, s.nodes, he.key);
    }
  }

  lemma GrownPart(s: Snap, o: Old, he: Entry, link: Link)
    requires PartOf(s, o) && he in o.links && he.key in o.contents && he.key in o.nodes && o.nodes[he.key] == he && he.key !in s.nodes
    ensures PartOf(Grown(s, he, link, o.contents[he.key]), o)
    ensures |Grown(s, he, link, o.contents[he.key]).nodes| == |s.nodes| + 1 <= |o.nodes|
  {
    PartCount(Grown(s, he, link, o.contents[he.key]), o);
  }

  lemma GrownKeys(s: Snap, he: Entry, link: Link, val: Val)
    ensures Grown(s, he, link, val).links.Keys == s.links.Keys + {he}
  {
  }

  /** No more entries than there were; and all of them once the numbers agree. */
  lemma PartCount(s: Snap, o: Old)
    requires PartOf(s, o)
    ensures |s.nodes| <= |o.nodes|
    ensures |s.nodes| == |o.nodes| ==> s.nodes == o.nodes
  {
    assert s.nodes.Keys <= o.nodes.Keys;
    SubsetCount(s.nodes.Keys, o.nodes.Keys);
  }

  lemma {:induction false} SubsetCount<T>(a: set<T>, b: set<T>)
    requires a <= b
    ensures |a| <= |b| && (|a| == |b| ==> a == b)
  {
    assert |b| == |a| + |b - a| by {
      assert b == a + (b - a);
    }
  }

  /** One entry goes over. */
  method MoveOne(nt: array<Entry?>, he: Entry, h: nat, ghost o: Old, ghost s: Snap)
    requires Untouched(o, s.links) && Snapshot(nt.Length, nt[..], s.links, s.clock, s.nodes, s.contents)
    requires he in o.links && he !in s.links && he.key !in s.nodes && nt.Length > 0 && h == Slot(he.key, nt.Length)
    modifies nt, he`next
    ensures he.key in o.contents
    ensures var s' := Grown(s, he, Link(old(nt[h]), s.clock, h), o.contents[he.key]);
            Untouched(o, s'.links) && Snapshot(nt.Length, nt[..], s'.links, s'.clock, s'.nodes, s'.contents)
  {
    Relink(nt, he, h, s.links, s.clock, s.nodes, s.contents);
  }

  /** One turn of the inner loop of dictExpand. */
  method MoveNext(nt: array<Entry?>, he: Entry, ghost o: Old, ghost s: Snap) returns (next: Entry?, ghost s': Snap)
    requires nt.Length > 0 && IsPowerOfTwo(nt.Length) && OldValid(o) && Halfway(nt, o, s)
    requires he in o.links && he !in s.links
    modifies nt, he`next
    ensures next == o.links[he].next && s'.links.Keys == s.links.Keys + {he} && Halfway(nt, o, s')
    ensures |s'.nodes| == |s.nodes| + 1 <= |o.nodes|
  {
    next := he.next;
    var h := BucketOf(he.key, nt.Length, nt.Length - 1);
    ghost var link := Link(nt[h], s.clock, h);
    NotMovedYet(s, o, nt.Length, he);
    GrownPart(s, o, he, link);
    GrownKeys(s, he, link, o.contents[he.key]);
    s' := Grown(s, he, link, o.contents[he.key]);
    MoveOne(nt, he, h, o, s);
  }

  /** The inner loop of dictExpand: moves one bucket of the old table, and counts. */
  method MoveBucket(nt: array<Entry?>, head: Entry?, left0: nat, ghost i: nat, ghost o: Old, ghost s0: Snap) returns (left: nat, ghost s: Snap)
    requires nt.Length > 0 && IsPowerOfTwo(nt.Length) && i < |o.heads| && head == o.heads[i]
    requires OldValid(o) && Halfway(nt, o, s0) && MovedBelow(o.links, s0.links.Keys, i) && left0 + |s0.nodes| == |o.nodes|
    modifies nt, o.links.Keys`next
    ensures Halfway(nt, o, s) && MovedBelow(o.links, s.links.Keys, i + 1) && left + |s.nodes| == |o.nodes|
  {
    var he := head;
    left, s := left0, s0;
    MovedStart(o.heads, o.links, o.clock, s.links.Keys, i);
    while he != null
      invariant Halfway(nt, o, s) && left + |s.nodes| == |o.nodes|
      invariant he != null ==> he in o.links && o.links[he].slot == i && Moved(o.links, s.links.Keys, i, he)
      invariant he == null ==> MovedBelow(o.links, s.links.Keys, i + 1)
      decreases if he == null then 0 else o.links[he].rank + 1
    {
      MovedStep(o.heads, o.links, o.clock, s.links.Keys, i, he);
      he, s := MoveNext(nt, he, o, s);
      left := left - 1;
    }
  }

  lemma OldTable(o: Old)
    requires Filed(o.size, o.links, o.nodes) && Memory(o.links, o.nodes, o.contents)
    ensures Untouched(o, map[]) && forall k :: k in o.nodes <==> k in o.contents
  {
    forall e | e in o.links
      ensures e.key in o.contents && e.val == o.contents[e.key]
    {
      assert EntryFiled(o.size, o.links, o.nodes, e);
    }
  }

  /** When the count reaches zero, or all buckets are done, everything has moved. */
  lemma AllMoved(o: Old, s: Snap, size: nat, i: nat)
    requires OldValid(o) && PartOf(s, o) && Filed(size, s.links, s.nodes) && MovedBelow(o.links, s.links.Keys, i)
    requires forall k :: k in s.nodes <==> k in s.contents
    requires |s.nodes| == |o.nodes| || i == |o.heads|
    ensures s.nodes == o.nodes && s.contents == o.contents && s.links.Keys == o.links.Keys && |s.nodes| == |o.nodes|
  {
    PartCount(s, o);
    if i == |o.heads| {
      forall k | k in o.nodes
        ensures k in s.nodes
      {
        var e := o.nodes[k];
        assert KeyFiled(o.links, o.nodes, k) && UnderHead(o.heads, o.links, e) && EntryFiled(size, s.links, s.nodes, e);
      }
      assert s.nodes == o.nodes;
    }
    forall e | e in o.links
      ensures e in s.links
    {
      assert EntryFiled(o.size, o.links, o.nodes, e) && KeyFiled(s.links, s.nodes, e.key);
    }
  }

  /** The loop of dictExpand: relinks every entry once, bucket by bucket, until none is left. */
  method MoveBuckets(nt: array<Entry?>, table: array<Entry?>, used: nat, ghost o: Old, ghost s0: Snap) returns (left: nat, ghost s: Snap)
    requires nt.Length > 0 && IsPowerOfTwo(nt.Length) && nt != table && table[..] == o.heads
    requires OldValid(o) && Halfway(nt, o, s0) && MovedBelow(o.links, s0.links.Keys, 0) && used + |s0.nodes| == |o.nodes|
    modifies nt, o.links.Keys`next
    ensures left == 0 && Snapshot(nt.Length, nt[..], s.links, s.clock, s.nodes, s.contents)
    ensures s.nodes == o.nodes && s.contents == o.contents && s.links.Keys == o.links.Keys
  {
    var i := 0;
    left, s := used, s0;
    while i < table.Length && left > 0
      invariant 0 <= i <= table.Length && table[..] == o.heads
      invariant Halfway(nt, o, s) && MovedBelow(o.links, s.links.Keys, i) && left + |s.nodes| == |o.nodes|
    {
      left, s := MoveBucket(nt, table[i], left, i, o, s);
      i := i + 1;
    }
    AllMoved(o, s, nt.Length, i);
  }

  const NOTHING := Snap(map[], 0, map[], map[])

  lemma NothingMoved(o: Old)
    ensures PartOf(NOTHING, o) && MovedBelow(o.links, NOTHING.links.Keys, 0) && |NOTHING.nodes| == 0
  {
    assert NOTHING.links.Keys == {};
  }

  /** Fills the empty buckets of a new table with all entries of the old one. */
  method MoveAll(nt: array<Entry?>, table: array<Entry?>, used: nat, ghost o: Old) returns (left: nat, ghost s: Snap)
    requires nt.Length > 0 && IsPowerOfTwo(nt.Length) && nt != table && (forall b :: 0 <= b < nt.Length ==> nt[b] == null)
    requires table[..] == o.heads && used == |o.nodes|
    requires o.size > 0 && Snapshot(o.size, o.heads, o.links, o.clock, o.nodes, o.contents)
    modifies nt, o.links.Keys`next
    ensures left == 0 && Snapshot(nt.Length, nt[..], s.links, s.clock, s.nodes, s.contents)
    ensures s.nodes == o.nodes && s.contents == o.contents && s.links.Keys == o.links.Keys
  {
    OldTable(o);
    NothingMoved(o);
    EmptySnapshot(nt.Length, nt[..]);
    left, s := MoveBuckets(nt, table, used, o, NOTHING);
  }

  // ---- the table ----

  class Dict {
    var table: array<Entry?>
    var size: nat
    var sizemask: nat
    var used: nat

    /** The linked entries, and the entry of each key. */
    ghost var links: Links
    ghost var clock: nat
    ghost var nodes: map<Key, Entry>

    /** The finite map the table stands for. */
    ghost var contents: map<Key, Val>

    ghost predicate Valid()
      reads this, table, links.Keys
    {
      && table.Length == size && used == |nodes|
      && (size == 0 ==> nodes == map[] && links == map[] && contents == map[])
      && (size > 0 ==> IsPowerOfTwo(size) && sizemask == size - 1 && Snapshot(size, table[..], links, clock, nodes, contents))
    }

    constructor ()
      ensures Valid() && contents == map[] && fresh(table)
    {
      table := new Entry?[0];
      size, sizemask, used := 0, 0, 0;
      links, clock, nodes, contents := map[], 0, map[], map[];
    }

    /** The loop over one bucket, with the entry before the one found. */
    method Search(key: Key, h: nat) returns (e: Entry?, prev: Entry?)
      requires Valid() && size > 0 && h == Slot(key, size)
      ensures e == if key in nodes then nodes[key] else null
      ensures e != null <==> key in contents
      ensures e != null ==> Found(table[..], links, e, prev) && e.key == key && links[e].slot == h && e.val == contents[key]
    {
      e, prev := table[h], null;
      assert key in nodes ==> KeyFiled(links, nodes, key) && EntryFiled(size, links, nodes, nodes[key]) && UnderHead(table[..], links, nodes[key]);
      while e != null
        invariant e != null ==> e in links && links[e].slot == h
        invariant e != null ==> if prev == null then table[h] == e else prev in links && links[prev].next == e
        invariant key in nodes ==> e != null && links[nodes[key]].rank <= links[e].rank
        decreases if e == null then 0 else links[e].rank + 1
      {
        assert EntryFiled(size, links, nodes, e) && NextValid(links, e);
        if e.key == key {
          return;
        }
        assert key in nodes ==> NotBetween(links, e, nodes[key]);
        e, prev := e.next, e;
      }
    }

    /** dictFind. */
    method Find(key: Key) returns (e: Entry?)
      requires Valid()
      ensures e == if key in nodes then nodes[key] else null
      ensures e != null <==> key in contents
      ensures e != null ==> e.key == key && e.val == contents[key]
    {
      if size == 0 {
        return null;
      }
      var h := BucketOf(key, size, sizemask);
      var prev;
      e, prev := Search(key, h);
    }

    /** Takes over a new snapshot and count after the pointers have been changed. */
    method Commit(count: nat, ghost links': Links, ghost clock': nat, ghost nodes': map<Key, Entry>, ghost contents': map<Key, Val>)
      requires table.Length == size > 0 && IsPowerOfTwo(size) && sizemask == size - 1 && count == |nodes'|
      requires Snapshot(size, table[..], links', clock', nodes', contents')
      modifies this`used, this`links, this`clock, this`nodes, this`contents
      ensures Valid() && links == links' && nodes == nodes' && contents == contents' && used == count
    {
      used, links, clock, nodes, contents := count, links', clock', nodes', contents';
    }

    /** dictAdd after the index was found: a new entry in front of its bucket. */
    method Insert(key: Key, val: Val, h: nat)
      requires Valid() && size > 0 && h == Slot(key, size) && key !in nodes
      modifies this`used, this`links, this`clock, this`nodes, this`contents, table
      ensures Valid() && contents == old(contents)[key := val]
      ensures fresh(links.Keys - old(links.Keys))
    {
      var entry := new Entry(key, val, table[h]);
      ghost var heads, link := table[..], Link(table[h], clock, h);
      SnapshotInsert(size, heads, links, clock, nodes, contents, entry, h);
      table[h] := entry;
      assert table[..] == heads[h := entry];
      Commit(used + 1, links[entry := link], clock + 1, nodes[key := entry], contents[key := val]);
    }

    /** Takes an entry out of its chain. */
    method Unlink(e: Entry, prev: Entry?, h: nat)
      requires table.Length == size && Memory(links, nodes, contents) && Filed(size, links, nodes)
      requires Found(table[..], links, e, prev) && h == links[e].slot
      modifies table, if prev == null then {} else {prev}
      ensures table[..] == Unheaded(old(table[..]), links, e, prev)
      ensures Memory(Unlinked(links, e, prev), nodes - {e.key}, contents - {e.key})
    {
      if prev != null {
        prev.next := e.next;
      } else {
        table[h] := e.next;
      }
      ghost var links' := Unlinked(links, e, prev);
      assert forall f :: f in links' ==> f.next == links'[f].next;
      forall k | k in nodes && k != e.key
        ensures nodes[k] in links' && k in contents && nodes[k].val == contents[k]
      {
        assert KeyFiled(links, nodes, k);
      }
    }

    /** The part of dictDelete after the entry was found. */
    method Remove(e: Entry, prev: Entry?, h: nat)
      requires Valid() && size > 0 && Found(table[..], links, e, prev) && h == links[e].slot
      modifies this`used, this`links, this`clock, this`nodes, this`contents, table, if prev == null then {} else {prev}
      ensures Valid() && contents == old(contents) - {e.key} && SameEntries(old(links), links, {e})
    {
      UnlinkedSame(links, e, prev);
      assert EntryFiled(size, links, nodes, e);
      ShapeRemove(table[..], links, clock, e, prev);
      FiledRemove(size, links, nodes, e, prev);
      Unlink(e, prev, h);
      Commit(used - 1, Unlinked(links, e, prev), clock, nodes - {e.key}, contents - {e.key});
    }

    /** dictDelete. */
    method Delete(key: Key) returns (ok: bool)
      requires Valid()
      modifies this`used, this`links, this`clock, this`nodes, this`contents, table, links.Keys
      ensures Valid() && contents == old(contents) - {key}
      ensures ok <==> key in old(contents)
      ensures SameEntries(old(links), links, if ok then {old(nodes)[key]} else {})
    {
      ok := false;
      if size > 0 {
        var h := BucketOf(key, size, sizemask);
        var e, prev := Search(key, h);
        if e != null {
          Remove(e, prev, h);
          ok := true;
        }
      }
    }

    // ---- growing ----

    /** Makes the filled new table the table. */
    method Adopt(nt: array<Entry?>, ghost s: Snap)
      requires nt.Length > 0 && IsPowerOfTwo(nt.Length) && Snapshot(nt.Length, nt[..], s.links, s.clock, s.nodes, s.contents)
      requires used == |s.nodes|
      modifies this`table, this`size, this`sizemask, this`links, this`clock, this`nodes, this`contents
      ensures Valid() && table == nt && links == s.links && nodes == s.nodes && contents == s.contents && size == nt.Length
    {
      table, size, sizemask := nt, nt.Length, nt.Length - 1;
      links, clock, nodes, contents := s.links, s.clock, s.nodes, s.contents;
    }

    /** dictExpand: a larger table with the same entries. An impossible size counts as a failed allocation. */
    method Expand(n: nat) returns (ok: bool)
      requires Valid()
      modifies this`table, this`size, this`sizemask, this`links, this`clock, this`nodes, this`contents, links.Keys`next
      ensures Valid() && contents == old(contents) && nodes == old(nodes) && links.Keys == old(links.Keys)
      ensures ok <==> old(used) <= n < LONG_MAX
      ensures ok ==> fresh(table) && n <= size && DICT_HT_INITIAL_SIZE <= size && (DICT_HT_INITIAL_SIZE < size ==> size / 2 < n)
      ensures ok && n <= DICT_HT_INITIAL_SIZE ==> size == DICT_HT_INITIAL_SIZE
      ensures used == old(used)
      ensures !ok ==> table == old(table) && size == old(size) && links == old(links)
    {
      var realsize := NextPower(n);
      if used > n || n >= LONG_MAX {
        return false;
      }
      var nt := new Entry?[realsize](_ => null);
      ghost var s := NOTHING;
      var left := used;
      if size > 0 {
        left, s := MoveAll(nt, table, used, Old(size, table[..], links, clock, nodes, contents));
      } else {
        EmptySnapshot(nt.Length, nt[..]);
      }
      assert left == 0;
      Adopt(nt, s);
      ok := true;
    }

    // ---- adding and replacing ----

    /** _dictExpandIfNeeded: four buckets to begin with, then twice as many whenever the table is full. */
    method ExpandIfNeeded() returns (ok: bool)
      requires Valid()
      modifies this`table, this`size, this`sizemask, this`links, this`clock, this`nodes, this`contents, links.Keys`next
      ensures Valid() && contents == old(contents) && nodes == old(nodes) && links.Keys == old(links.Keys)
      ensures ok <==> 2 * old(size) < LONG_MAX || (old(used) != old(size) && old(size) != 0)
      ensures ok ==> 0 < size && (table == old(table) || fresh(table))
      ensures used == old(used)
      ensures ok && old(size) == 0 ==> size == DICT_HT_INITIAL_SIZE
      ensures ok && old(used) <= old(size) ==> used < size
      ensures ok && old(size) > 0 ==> if old(used) == old(size) then 2 * old(size) <= size else size == old(size) && table == old(table)
      ensures !ok ==> table == old(table) && size == old(size) && links == old(links)
    {
      if size == 0 {
        ok := Expand(DICT_HT_INITIAL_SIZE);
      } else if used == size {
        ok := Expand(size * 2);
      } else {
        ok := true;
      }
    }

    /** dictAdd: an element under a new key; with a known key nothing but the size may change. */
    method Add(key: Key, val: Val) returns (ok: bool)
      requires Valid()
      modifies this, table, links.Keys`next
      ensures Valid() && contents == if ok then old(contents)[key := val] else old(contents)
      ensures ok ==> key !in old(contents)
      ensures key !in old(contents) && 2 * old(size) < LONG_MAX ==> ok
      ensures !ok ==> links.Keys == old(links.Keys) && nodes == old(nodes) && (table == old(table) || fresh(table))
    {
      ok := ExpandIfNeeded();
      if ok {
        var h := BucketOf(key, size, sizemask);
        var e, prev := Search(key, h);
        if e != null {
          return false;
        }
        Insert(key, val, h);
      }
    }

    /** Overwrites the value of an entry. */
    method SetValue(e: Entry, val: Val)
      requires Valid() && e in links
      modifies this`contents, e`val
      ensures Valid() && contents == old(contents)[e.key := val] && e.key in old(contents)
    {
      assert EntryFiled(size, links, nodes, e);
      e.val := val;
      contents := contents[e.key := val];
      forall k | k in nodes
        ensures nodes[k] in links && k in contents && nodes[k].val == contents[k]
      {
        assert KeyFiled(links, nodes, k);
      }
    }

    /** dictReplace: adds the element or overwrites the value of the one that is there. */
    method Replace(key: Key, val: Val) returns (added: bool)
      requires Valid()
      modifies this, table, links.Keys
      ensures Valid()
      ensures added ==> key !in old(contents)
      ensures added || key in old(contents) ==> contents == old(contents)[key := val]
      ensures key !in old(contents) && 2 * old(size) < LONG_MAX ==> added
      ensures !added && key !in old(contents) ==> contents == old(contents)
    {
      added := Add(key, val);
      if !added {
        var e := Find(key);
        if e != null {
          SetEntry(key, e, val);
        }
      }
    }

    method SetEntry(key: Key, e: Entry, val: Val)
      requires Valid() && key in nodes && e == nodes[key] && e.key == key
      modifies this`contents, e`val
      ensures Valid() && contents == old(contents)[key := val]
    {
      if size > 0 {
        NodeLinked(size, links, nodes, key);
      }
      SetValue(e, val);
    }
  }

  // ---- iteration ----

  /** The entries still to be visited: later buckets, and of bucket `index` what was linked before `rank`. */
  ghost function Todo(links: Links, index: int, current: bool, rank: nat): set<Entry>
  {
    set e | e in links && (links[e].slot > index || (current && links[e].slot == index && links[e].rank < rank))
  }

  /** The saved next entry is the first of this bucket still to be visited. */
  ghost predicate NextSaved(links: Links, index: int, rank: nat, next: Entry?)
  {
    && (next != null ==> next in links && links[next].slot == index && links[next].rank < rank)
    && forall f :: f in links && links[f].slot == index && links[f].rank < rank ==>
         next != null && next in links && links[f].rank <= links[next].rank
  }

  /** Deleting an entry that is not to be visited any more disturbs nothing. */
  lemma TodoKept(links: Links, links': Links, gone: set<Entry>, index: int, current: bool, rank: nat, next: Entry?)
    requires SameEntries(links, links', gone) && gone !! Todo(links, index, current, rank)
    ensures Todo(links', index, current, rank) == Todo(links, index, current, rank)
    ensures current && NextSaved(links, index, rank, next) ==> NextSaved(links', index, rank, next)
  {
    if current && NextSaved(links, index, rank, next) && next != null {
      assert next in Todo(links, index, current, rank);
    }
  }

  /** Stepping to the saved entry takes exactly it off the list. */
  lemma TodoStep(heads: seq<Entry?>, links: Links, clock: nat, index: nat, rank: nat, e: Entry)
    requires Shape(heads, links, clock) && NextSaved(links, index, rank, e)
    ensures e in Todo(links, index, true, rank)
    ensures Todo(links, index, true, links[e].rank) == Todo(links, index, true, rank) - {e}
    ensures NextSaved(links, index, links[e].rank, links[e].next)
  {
    assert NextValid(links, e);
    forall f | f in links
      ensures NotBetween(links, e, f)
    {
    }
  }

  /** At the end of a bucket nothing of it is left. */
  lemma TodoEnd(links: Links, index: int, rank: nat)
    requires NextSaved(links, index, rank, null)
    ensures Todo(links, index, true, rank) == Todo(links, index, false, rank)
  {
  }

  /** The head of the next bucket is its first entry. */
  lemma TodoHead(heads: seq<Entry?>, links: Links, clock: nat, index: nat, rank: nat)
    requires Shape(heads, links, clock) && index < |heads|
    ensures NextSaved(links, index, clock, heads[index])
    ensures Todo(links, index, true, clock) == Todo(links, index - 1, false, rank)
  {
    forall e | e in links && links[e].slot == index
      ensures heads[index] != null && heads[index] in links && links[e].rank <= links[heads[index]].rank
    {
      assert UnderHead(heads, links, e);
    }
  }

  lemma NothingLeft(heads: seq<Entry?>, links: Links, clock: nat, index: int, rank: nat)
    requires links == map[] || Shape(heads, links, clock)
    requires index >= |heads|
    ensures Todo(links, index - 1, false, rank) == {} && Todo(links, index, false, rank) == {}
  {
    forall e | e in links
      ensures UnderHead(heads, links, e)
    {
    }
  }

  class Iterator {
    const ht: Dict
    var index: int
    var entry: Entry?
    var nextEntry: Entry?
    ghost var rank: nat

    ghost predicate Valid()
      reads this, ht
    {
      -1 <= index && (entry != null ==> index < ht.size && NextSaved(ht.links, index, rank, nextEntry))
    }

    ghost function Left(): set<Entry>
      reads this, ht
    {
      Todo(ht.links, index, entry != null, rank)
    }

    /** dictInitIterator. */
    constructor (ht: Dict)
      requires ht.Valid()
      ensures this.ht == ht && Valid() && Left() == ht.links.Keys
    {
      this.ht, index, entry, nextEntry, rank := ht, -1, null, null, 0;
    }

    /** Goes to the head of the next bucket. */
    method Enter()
      requires ht.Valid() && Valid() && entry == null && index + 1 < ht.size
      modifies this`index, this`entry, this`rank
      ensures index == old(index) + 1 && NextSaved(ht.links, index, rank, entry)
      ensures Todo(ht.links, index, true, rank) == old(Left())
    {
      index := index + 1;
      TodoHead(ht.table[..], ht.links, ht.clock, index, rank);
      entry, rank := ht.table[index], ht.clock;
    }

    /** Saves the pointer behind the entry that is about to be handed out. */
    method Take()
      requires ht.Valid() && 0 <= index < ht.size && entry != null && NextSaved(ht.links, index, rank, entry)
      modifies this`nextEntry, this`rank
      ensures Valid() && entry in old(Left()) && Left() == old(Left()) - {entry}
    {
      TodoStep(ht.table[..], ht.links, ht.clock, index, rank, entry);
      nextEntry, rank := entry.next, ht.links[entry].rank;
    }

    /** dictNext: hands out the entries one by one, each once; the entry handed out may be deleted before the next call. */
    method Next() returns (e: Entry?)
      requires ht.Valid() && Valid()
      modifies this
      ensures Valid()
      ensures e == null <==> old(Left()) == {}
      ensures e != null ==> e == entry && e in old(Left()) && Left() == old(Left()) - {e}
    {
      while true
        invariant Valid() && Left() == old(Left())
        decreases ht.size - index, entry != null
      {
        if entry == null {
          if index + 1 >= ht.size {
            NothingLeft(ht.table[..], ht.links, ht.clock, index + 1, rank);
            index := index + 1;
            return null;
          }
          Enter();
        } else {
          entry := nextEntry;
        }
        if entry != null {
          Take();
          return entry;
        }
        TodoEnd(ht.links, index, rank);
      }
    }
  }

  /** Progress of a walk: every key was visited once or its entry is still to come. */
  ghost predicate Walked(visited: seq<Key>, left: set<Entry>, nodes0: map<Key, Entry>)
  {
    && (forall i, j :: 0 <= i < j < |visited| ==> visited[i] != visited[j])
    && (forall k :: k in visited ==> k in nodes0 && nodes0[k] !in left)
    && (forall k :: k in nodes0 ==> k in visited || nodes0[k] in left)
    && (forall e :: e in left ==> e.key in nodes0 && nodes0[e.key] == e)
    && (forall k :: k in nodes0 ==> nodes0[k].key == k)
  }

  lemma WalkedStep(visited: seq<Key>, left: set<Entry>, nodes0: map<Key, Entry>, e: Entry)
    requires Walked(visited, left, nodes0) && e in left
    ensures Walked(visited + [e.key], left - {e}, nodes0) && |left - {e}| < |left|
  {
    forall k | k in nodes0
      ensures k in visited + [e.key] || nodes0[k] in left - {e}
    {
      if nodes0[k] == e {
        assert (visited + [e.key])[|visited|] == k;
      }
    }
  }

  /** The visited keys that were to be deleted. */
  function Gone(visited: seq<Key>, doomed: set<Key>): set<Key> { set k | k in visited && k in doomed }

  lemma GoneStep(visited: seq<Key>, doomed: set<Key>, k: Key, contents: map<Key, Val>)
    ensures contents - Gone(visited + [k], doomed) == (contents - Gone(visited, doomed)) - if k in doomed then {k} else {}
  {
    assert Gone(visited + [k], doomed) == Gone(visited, doomed) + if k in doomed then {k} else {};
  }

  lemma AllFiled(size: nat, links: Links, nodes: map<Key, Entry>)
    requires Filed(size, links, nodes)
    ensures forall e :: e in links ==> e.key in nodes && nodes[e.key] == e
    ensures forall k :: k in nodes ==> nodes[k] in links && nodes[k].key == k
  {
    forall e | e in links
      ensures e.key in nodes && nodes[e.key] == e
    {
      assert EntryFiled(size, links, nodes, e);
    }
    forall k | k in nodes
      ensures nodes[k] in links && nodes[k].key == k
    {
      assert KeyFiled(links, nodes, k);
    }
  }

  /** Deletes the entry just handed out; the iterator does not notice. */
  method DeleteCurrent(it: Iterator, ht: Dict, e: Entry)
    requires it.ht == ht && ht.Valid() && it.Valid() && it.entry == e && e !in it.Left()
    requires e.key in ht.contents && e.key in ht.nodes && ht.nodes[e.key] == e
    modifies ht`used, ht`links, ht`clock, ht`nodes, ht`contents, ht.table, ht.links.Keys
    ensures ht.Valid() && it.Valid() && it.Left() == old(it.Left()) && ht.contents == old(ht.contents) - {e.key}
    ensures ht.links.Keys <= old(ht.links.Keys)
  {
    ghost var links, index, rank, next := ht.links, it.index, it.rank, it.nextEntry;
    var ok := ht.Delete(e.key);
    TodoKept(links, ht.links, {e}, index, true, rank, next);
  }

  /** One turn of a walk: the next entry, deleted again if it is doomed. */
  method VisitNext(it: Iterator, ht: Dict, doomed: set<Key>) returns (e: Entry?)
    requires it.ht == ht && ht.Valid() && it.Valid()
    modifies it, ht`used, ht`links, ht`clock, ht`nodes, ht`contents, ht.table, ht.links.Keys
    ensures ht.Valid() && it.Valid() && ht.links.Keys <= old(ht.links.Keys)
    ensures e == null <==> old(it.Left()) == {}
    ensures e == null ==> ht.contents == old(ht.contents)
    ensures e != null ==> e in old(it.Left()) && it.Left() == old(it.Left()) - {e}
    ensures e != null ==> ht.contents == old(ht.contents) - if e.key in doomed then {e.key} else {}
  {
    e := it.Next();
    if e != null && e.key in doomed {
      assert EntryFiled(ht.size, ht.links, ht.nodes, e);
      DeleteCurrent(it, ht, e);
    }
  }

  lemma WalkStart(size: nat, links: Links, nodes: map<Key, Entry>)
    requires (links == map[] && nodes == map[]) || Filed(size, links, nodes)
    ensures Walked([], links.Keys, nodes)
  {
    if Filed(size, links, nodes) {
      AllFiled(size, links, nodes);
    }
  }

  /** Visits everything while deleting any chosen part of it on the way. */
  method VisitAll(ht: Dict, doomed: set<Key>) returns (visited: seq<Key>)
    requires ht.Valid()
    modifies ht`used, ht`links, ht`clock, ht`nodes, ht`contents, ht.table, ht.links.Keys
    ensures ht.Valid() && ht.contents == old(ht.contents) - Gone(visited, doomed)
    ensures forall k :: k in visited <==> k in old(ht.contents)
    ensures forall i, j :: 0 <= i < j < |visited| ==> visited[i] != visited[j]
  {
    var it := new Iterator(ht);
    WalkStart(ht.size, ht.links, ht.nodes);
    visited := Walk(it, ht, doomed, ht.nodes);
  }

  method Walk(it: Iterator, ht: Dict, doomed: set<Key>, ghost nodes0: map<Key, Entry>) returns (visited: seq<Key>)
    requires it.ht == ht && ht.Valid() && it.Valid() && Walked([], it.Left(), nodes0)
    modifies it, ht`used, ht`links, ht`clock, ht`nodes, ht`contents, ht.table, ht.links.Keys
    ensures ht.Valid() && ht.contents == old(ht.contents) - Gone(visited, doomed)
    ensures Walked(visited, {}, nodes0)
  {
    visited := [];
    assert Gone([], doomed) == {};
    while true
      invariant ht.Valid() && it.Valid() && ht.links.Keys <= old(ht.links.Keys)
      invariant Walked(visited, it.Left(), nodes0) && ht.contents == old(ht.contents) - Gone(visited, doomed)
      decreases |it.Left()|
    {
      ghost var left := it.Left();
      var e := VisitNext(it, ht, doomed);
      if e == null {
        break;
      }
      WalkedStep(visited, left, nodes0, e);
      GoneStep(visited, doomed, e.key, old(ht.contents));
      visited := visited + [e.key];
    }
  }
}
