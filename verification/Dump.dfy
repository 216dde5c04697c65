/** The recursive memory-map dump as a function, and what its records say about the flat map. */
module Dump {
  import opened Wrappers
  import opened Arithmetic
  import opened Descriptors
  import opened TableTree
  import opened Mapping

  /** One printed line: the virtual address, and the entry whose fields fill the other columns. */
  datatype Record = Record(va: nat, entry: Pte)

  /** How many pages one entry of a level-`level` table spans: 1 << level_shift, in pages. */
  function Span(level: nat): (n: nat)
    ensures n > 0
  {
    if level == 0 then 0x800_0000 else if level == 1 then 0x4_0000 else if level == 2 then 512 else 1
  }

  /** (i << level_shift) | (prefix & ~level_mask), as PartialAddressBits shows. */
  function PartialAddress(level: nat, i: nat, prefix: nat): nat
    requires i < 512
  {
    var unit := Span(level) * PAGE_SIZE;
    i * unit + (prefix / unit / 512 * (512 * unit) + prefix % unit)
  }

  /** 9 * (3 - level) + 12 */
  function LevelShift(level: nat): nat
    requires level <= 3
  {
    9 * (3 - level) + 12
  }

  lemma UnitIsPower(level: nat)
    requires level <= 3
    ensures Span(level) * PAGE_SIZE == Power(2, LevelShift(level)) && Power(2, 9) == 512
  {
    assert Power(2, 3) == 8;
    PowerPlus(2, 3, 3);
    PowerPlus(2, 6, 3);
    PowerPlus(2, 9, 3);
    PowerPlus(2, 12, 9);
    PowerPlus(2, 21, 9);
    PowerPlus(2, 30, 9);
  }

  /** Bit by bit: the nine bits of the level come from the index, all others from the prefix. */
  lemma PartialAddressBits(level: nat, i: nat, prefix: nat, b: nat)
    requires level <= 3 && i < 512
    ensures var s := LevelShift(level);
            BitOf(PartialAddress(level, i, prefix), b) == if s <= b < s + 9 then BitOf(i, b - s) else BitOf(prefix, b)
  {
    var s, u := LevelShift(level), Power(2, LevelShift(level));
    UnitIsPower(level);
    Euclid(prefix, u);
    Euclid(prefix / u, 512);
    SpliceBits(prefix % u, s, i, prefix / u % 512, prefix / u / 512, b);
    assert PartialAddress(level, i, prefix) == prefix % u + u * (i + 512 * (prefix / u / 512)) by {
      Distribute(u, i, 512, prefix / u / 512);
    }
  }

  lemma SpliceBits(low: nat, s: nat, i: nat, mid: nat, high: nat, b: nat)
    requires low < Power(2, s) && i < 512 && mid < 512 && Power(2, 9) == 512
    ensures BitOf(low + Power(2, s) * (i + 512 * high), b)
         == if s <= b < s + 9 then BitOf(i, b - s) else BitOf(low + Power(2, s) * (mid + 512 * high), b)
  {
    var x, y := i + 512 * high, mid + 512 * high;
    if b < s {
      LowBits(low, s, x, b);
      LowBits(low, s, y, b);
    } else {
      HighBits(low, s, x, b);
      HighBits(low, s, y, b);
      SpliceMiddle(i, mid, high, b - s);
    }
  }

  lemma SpliceMiddle(i: nat, mid: nat, high: nat, b: nat)
    requires i < 512 && mid < 512 && Power(2, 9) == 512
    ensures BitOf(i + 512 * high, b) == if b < 9 then BitOf(i, b) else BitOf(mid + 512 * high, b)
  {
    if b < 9 {
      LowBits(i, 9, high, b);
    } else {
      HighBits(i, 9, high, b);
      HighBits(mid, 9, high, b);
    }
  }

  /** What the dump prints for the first n entries of a table. */
  function DumpEntries(mem: Memory, t: nat, level: nat, prefix: nat, n: nat): seq<Record>
    requires n <= 512 && level <= 3
    decreases 3 - level, n, t
  {
    if n == 0 then []
    else DumpEntries(mem, t, level, prefix, n - 1) + DumpEntry(mem, t, level, prefix, n - 1)
  }

  function DumpEntry(mem: Memory, t: nat, level: nat, prefix: nat, i: nat): seq<Record>
    requires i < 512 && level <= 3
    decreases 3 - level, i, t
  {
    var e := EntryAt(mem, t, i);
    if e.valid == 0 then []
    else if level < 3 then DumpEntries(mem, Address(e), level + 1, PartialAddress(level, i, prefix), 512)
    else [Record(PartialAddress(level, i, prefix), e)]
  }

  // ----- the walk, taken from a table downwards ------------------------------

  /** The leaf of page `v` reached from table `t`. */
  function LeafFrom(mem: Memory, t: nat, level: nat, v: nat): Pte
    requires level <= 3
    decreases 3 - level
  {
    var e := EntryAt(mem, t, v / Span(level) % 512);
    if level == 3 || e.valid == 0 then e else LeafFrom(mem, Address(e), level + 1, v)
  }

  lemma {:induction false} LeafFromTable(mem: Memory, root: nat, v: nat, level: nat)
    requires level <= 3 && v < TWO_36
    ensures match PathTable(mem, root, v, level)
            case None => Leaf(mem, root, v).valid == 0
            case Some(t) => Leaf(mem, root, v).valid == LeafFrom(mem, t, level, v).valid
                            && (Leaf(mem, root, v).valid == 1 ==> Leaf(mem, root, v) == LeafFrom(mem, t, level, v))
    decreases 3 - level
  {
    if level < 3 {
      EntryOnPath(v, level);
      LeafFromTable(mem, root, v, level + 1);
    }
  }

  lemma EntryOnPath(v: nat, level: nat)
    requires level < 3 && v < TWO_36
    ensures Prefix(v, level + 1) % 512 == v / Span(level) % 512 && Prefix(v, level + 1) / 512 == Prefix(v, level)
  {
    PrefixesNest(v);
  }

  // ----- what a list of records says -----------------------------------------

  /** The record of a mapped page in [lo, hi), seen from table `t`. */
  ghost predicate Names(r: Record, mem: Memory, t: nat, level: nat, lo: nat, hi: nat)
    requires level <= 3
  {
    exists v: nat :: lo <= v < hi && r.va == v * PAGE_SIZE && r.entry == LeafFrom(mem, t, level, v) && r.entry.valid == 1
  }

  ghost predicate Increasing(recs: seq<Record>)
  {
    forall j, k :: 0 <= j < k < |recs| ==> recs[j].va < recs[k].va
  }

  /** The records name, in strictly increasing order, exactly the mapped pages of [lo, hi) and their leaves. */
  ghost predicate Lists(recs: seq<Record>, mem: Memory, t: nat, level: nat, lo: nat, hi: nat)
    requires level <= 3
  {
    && Increasing(recs)
    && (forall r :: r in recs ==> Names(r, mem, t, level, lo, hi))
    && (forall v: nat :: lo <= v < hi && LeafFrom(mem, t, level, v).valid == 1 ==>
          Record(v * PAGE_SIZE, LeafFrom(mem, t, level, v)) in recs)
  }

  lemma IncreasingAppend(a: seq<Record>, b: seq<Record>, at: nat)
    requires Increasing(a) && Increasing(b)
    requires forall r :: r in a ==> r.va < at
    requires forall r :: r in b ==> r.va >= at
    ensures Increasing(a + b)
  {
    forall j, k | 0 <= j < k < |a + b| ensures (a + b)[j].va < (a + b)[k].va {
      if j < |a| <= k {
        assert a[j] in a && b[k - |a|] in b;
      }
    }
  }

  lemma NamesBounds(r: Record, mem: Memory, t: nat, level: nat, lo: nat, hi: nat)
    requires level <= 3 && Names(r, mem, t, level, lo, hi)
    ensures lo * PAGE_SIZE <= r.va < hi * PAGE_SIZE
    ensures forall lo': nat, hi': nat :: lo' <= lo && hi <= hi' ==> Names(r, mem, t, level, lo', hi')
  {
  }

  lemma ListsAppend(a: seq<Record>, b: seq<Record>, mem: Memory, t: nat, level: nat, lo: nat, mid: nat, hi: nat)
    requires level <= 3 && lo <= mid <= hi
    requires Lists(a, mem, t, level, lo, mid) && Lists(b, mem, t, level, mid, hi)
    ensures Lists(a + b, mem, t, level, lo, hi)
  {
    forall r | r in a ensures r.va < mid * PAGE_SIZE && Names(r, mem, t, level, lo, hi) {
      NamesBounds(r, mem, t, level, lo, mid);
    }
    forall r | r in b ensures r.va >= mid * PAGE_SIZE && Names(r, mem, t, level, lo, hi) {
      NamesBounds(r, mem, t, level, mid, hi);
    }
    IncreasingAppend(a, b, mid * PAGE_SIZE);
  }

  lemma ListsMoves(a: seq<Record>, mem: Memory, t: nat, level: nat, t': nat, level': nat, lo: nat, hi: nat)
    requires level <= 3 && level' <= 3 && Lists(a, mem, t, level, lo, hi)
    requires forall v: nat :: lo <= v < hi ==> LeafFrom(mem, t', level', v) == LeafFrom(mem, t, level, v)
    ensures Lists(a, mem, t', level', lo, hi)
  {
    forall r | r in a ensures Names(r, mem, t', level', lo, hi) {
      assert Names(r, mem, t, level, lo, hi);
    }
  }

  // ----- the dump lists the flat map -----------------------------------------

  /** The first page of the k-th entry, counting the entries of all tables of one level. */
  function First(level: nat, k: nat): nat
  {
    if k == 0 then 0 else First(level, k - 1) + Span(level)
  }

  lemma {:induction false} FirstIs(level: nat, k: nat)
    ensures First(level, k) == 0 + Span(level) * k
  {
    if k > 0 {
      FirstIs(level, k - 1);
      Distribute(Span(level), k - 1, 1, 1);
    }
  }

  /** A table one level down starts where its entry's span starts. */
  lemma FirstBelow(level: nat, k: nat)
    requires level < 3
    ensures First(level + 1, 512 * k) == First(level, k)
  {
    FirstIs(level, k);
    FirstIs(level + 1, 512 * k);
    assert Span(level) == Span(level + 1) * 512;
    Distribute(Span(level + 1), 0, 512, k);
  }

  lemma SpanIndex(level: nat, k: nat, v: nat)
    requires First(level, k) <= v < First(level, k + 1)
    ensures v / Span(level) == k
  {
    FirstIs(level, k);
    Peel(v - First(level, k), Span(level), k);
  }

  lemma PartialAddressIs(level: nat, q: nat, i: nat)
    requires level <= 3 && i < 512
    ensures PartialAddress(level, i, First(level, 512 * q) * PAGE_SIZE) == First(level, 512 * q + i) * PAGE_SIZE
  {
    var u := Span(level);
    var unit := u * PAGE_SIZE;
    FirstIs(level, 512 * q);
    FirstIs(level, 512 * q + i);
    var prefix := First(level, 512 * q) * PAGE_SIZE;
    assert prefix == 0 + unit * (512 * q) by {
      assert prefix == (u * (512 * q)) * PAGE_SIZE;
    }
    Peel(0, unit, 512 * q);
    assert prefix / unit / 512 == q;
    assert PartialAddress(level, i, prefix) == i * unit + q * (512 * unit);
    Distribute(u, i, 512, q);
  }

  /** The dump of the first n entries of a level's q-th table lists the pages those entries span. */
  lemma {:induction false} EntriesList(mem: Memory, t: nat, level: nat, q: nat, n: nat)
    requires level <= 3 && n <= 512
    ensures Lists(DumpEntries(mem, t, level, First(level, 512 * q) * PAGE_SIZE, n), mem, t, level,
                  First(level, 512 * q), First(level, 512 * q + n))
    decreases 3 - level, 513
  {
    forall i: nat | i < 512
      ensures PartialAddress(level, i, First(level, 512 * q) * PAGE_SIZE) == First(level, 512 * q + i) * PAGE_SIZE
    {
      PartialAddressIs(level, q, i);
    }
    EntriesListFrom(mem, t, level, 512 * q, First(level, 512 * q) * PAGE_SIZE, n);
  }

  /** The same for a table whose first entry is the level's k-th. */
  lemma {:induction false} EntriesListFrom(mem: Memory, t: nat, level: nat, k: nat, prefix: nat, n: nat)
    requires level <= 3 && n <= 512 && k % 512 == 0
    requires forall i: nat :: i < 512 ==> PartialAddress(level, i, prefix) == First(level, k + i) * PAGE_SIZE
    ensures Lists(DumpEntries(mem, t, level, prefix, n), mem, t, level, First(level, k), First(level, k + n))
    decreases 3 - level, n
  {
    if n > 0 {
      EntriesListFrom(mem, t, level, k, prefix, n - 1);
      assert PartialAddress(level, n - 1, prefix) == First(level, k + (n - 1)) * PAGE_SIZE;
      EntryNumber(k, n - 1);
      EntryLists(mem, t, level, k + (n - 1), n - 1, prefix);
      LastEntryLists(mem, t, level, k, n, prefix);
    } else {
      NothingListed(mem, t, level, First(level, k));
    }
  }

  lemma EntryNumber(k: nat, i: nat)
    requires k % 512 == 0 && i < 512
    ensures (k + i) % 512 == i
  {
  }

  lemma NothingListed(mem: Memory, t: nat, level: nat, lo: nat)
    requires level <= 3
    ensures Lists([], mem, t, level, lo, lo)
  {
  }

  lemma LastEntryLists(mem: Memory, t: nat, level: nat, k: nat, n: nat, prefix: nat)
    requires level <= 3 && 0 < n <= 512
    requires Lists(DumpEntries(mem, t, level, prefix, n - 1), mem, t, level, First(level, k), First(level, k + (n - 1)))
    requires Lists(DumpEntry(mem, t, level, prefix, n - 1), mem, t, level, First(level, k + (n - 1)), First(level, k + n))
    ensures Lists(DumpEntries(mem, t, level, prefix, n), mem, t, level, First(level, k), First(level, k + n))
  {
    FirstGrows(level, k, n - 1);
    ListsAppend(DumpEntries(mem, t, level, prefix, n - 1), DumpEntry(mem, t, level, prefix, n - 1), mem, t, level,
                First(level, k), First(level, k + (n - 1)), First(level, k + n));
  }

  lemma {:induction false} FirstGrows(level: nat, k: nat, n: nat)
    ensures First(level, k) <= First(level, k + n) < First(level, k + n + 1)
  {
    if n > 0 {
      FirstGrows(level, k, n - 1);
    }
  }

  /** The dump of the k-th entry of a level lists the pages it spans. */
  lemma {:induction false} EntryLists(mem: Memory, t: nat, level: nat, k: nat, i: nat, prefix: nat)
    requires level <= 3 && k % 512 == i
    requires PartialAddress(level, i, prefix) == First(level, k) * PAGE_SIZE
    ensures Lists(DumpEntry(mem, t, level, prefix, i), mem, t, level, First(level, k), First(level, k + 1))
    decreases 3 - level, i
  {
    var e := EntryAt(mem, t, i);
    EntrySpan(mem, t, level, k);
    if e.valid == 1 {
      if level < 3 {
        EntriesList(mem, Address(e), level + 1, k, 512);
        FirstBelow(level, k);
        ChildLists(mem, t, level, k, DumpEntry(mem, t, level, prefix, i));
      } else {
        LeafLists(mem, t, k, prefix);
      }
    }
  }

  /** Within an entry's span the walk goes through that entry. */
  lemma EntrySpan(mem: Memory, t: nat, level: nat, k: nat)
    requires level <= 3
    ensures var e := EntryAt(mem, t, k % 512);
            forall v: nat :: First(level, k) <= v < First(level, k + 1) ==>
              LeafFrom(mem, t, level, v) == if level == 3 || e.valid == 0 then e else LeafFrom(mem, Address(e), level + 1, v)
  {
    var e := EntryAt(mem, t, k % 512);
    forall v: nat | First(level, k) <= v < First(level, k + 1)
      ensures LeafFrom(mem, t, level, v) == if level == 3 || e.valid == 0 then e else LeafFrom(mem, Address(e), level + 1, v)
    {
      SpanIndex(level, k, v);
    }
  }

  lemma ChildLists(mem: Memory, t: nat, level: nat, k: nat, recs: seq<Record>)
    requires level < 3 && EntryAt(mem, t, k % 512).valid == 1
    requires Lists(recs, mem, Address(EntryAt(mem, t, k % 512)), level + 1,
                   First(level + 1, 512 * k), First(level + 1, 512 * k + 512))
    ensures Lists(recs, mem, t, level, First(level, k), First(level, k + 1))
  {
    FirstBelow(level, k);
    FirstBelow(level, k + 1);
    assert 512 * k + 512 == 512 * (k + 1);
    EntrySpan(mem, t, level, k);
    ListsMoves(recs, mem, Address(EntryAt(mem, t, k % 512)), level + 1, t, level, First(level, k), First(level, k + 1));
  }

  lemma LeafLists(mem: Memory, t: nat, k: nat, prefix: nat)
    requires EntryAt(mem, t, k % 512).valid == 1
    requires PartialAddress(3, k % 512, prefix) == First(3, k) * PAGE_SIZE
    ensures Lists(DumpEntry(mem, t, 3, prefix, k % 512), mem, t, 3, First(3, k), First(3, k + 1))
  {
    EntrySpan(mem, t, 3, k);
    var from := First(3, k);
    var r := Record(from * PAGE_SIZE, EntryAt(mem, t, k % 512));
    assert DumpEntry(mem, t, 3, prefix, k % 512) == [r];
    assert LeafFrom(mem, t, 3, from) == r.entry;
  }

  // ----- the whole dump -------------------------------------------------------

  /** Everything dump_memory_map prints between its first and last line. */
  function DumpAll(mem: Memory, root: nat): seq<Record>
  {
    DumpEntries(mem, root, 0, 0, 512)
  }

  /**
   * The dump visits exactly the domain of the flat map: its records are in strictly increasing address order, each
   * names a mapped page below 2^48 with that page's mapping, and every mapped page has its record.
   */
  lemma DumpListsFlatMap(mem: Memory, root: nat)
    ensures var recs := DumpAll(mem, root);
            && (forall j, k :: 0 <= j < k < |recs| ==> recs[j].va < recs[k].va)
            && (forall r :: r in recs ==>
                  && r.va % PAGE_SIZE == 0 && r.va < TWO_48
                  && r.entry == Leaf(mem, root, r.va / PAGE_SIZE)
                  && Translate(mem, root, r.va / PAGE_SIZE) == Some(MappingOf(r.entry)))
            && (forall v: nat :: v < TWO_36 && Translate(mem, root, v).Some? ==> Record(v * PAGE_SIZE, Leaf(mem, root, v)) in recs)
  {
    var recs := DumpAll(mem, root);
    RootLists(mem, root);
    forall v: nat | v < TWO_36 && Translate(mem, root, v).Some?
      ensures Record(v * PAGE_SIZE, Leaf(mem, root, v)) in recs
    {
      LeafFromRoot(mem, root, v);
    }
    forall r | r in recs
      ensures r.va % PAGE_SIZE == 0 && r.va < TWO_48 && r.entry == Leaf(mem, root, r.va / PAGE_SIZE)
      ensures Translate(mem, root, r.va / PAGE_SIZE) == Some(MappingOf(r.entry))
    {
      RecordMeaning(r, mem, root);
    }
  }

  lemma RootLists(mem: Memory, root: nat)
    ensures Lists(DumpAll(mem, root), mem, root, 0, 0, TWO_36)
  {
    RootSpan();
    TopEntriesList(mem, root, 512);
  }

  lemma TopEntriesList(mem: Memory, root: nat, n: nat)
    requires n <= 512
    ensures Lists(DumpEntries(mem, root, 0, 0, n), mem, root, 0, 0, First(0, n))
  {
    EntriesList(mem, root, 0, 0, n);
  }

  lemma RootSpan()
    ensures First(0, 0) == 0 && First(0, 512) == TWO_36
  {
    FirstIs(0, 0);
    FirstIs(0, 512);
    assert Span(0) * 512 == TWO_36;
  }

  lemma RecordMeaning(r: Record, mem: Memory, root: nat)
    requires Names(r, mem, root, 0, 0, TWO_36)
    ensures r.va % PAGE_SIZE == 0 && r.va < TWO_48 && r.entry == Leaf(mem, root, r.va / PAGE_SIZE) && r.entry.valid == 1
  {
    var v: nat :| v < TWO_36 && r.va == v * PAGE_SIZE && r.entry == LeafFrom(mem, root, 0, v) && r.entry.valid == 1;
    Peel(0, PAGE_SIZE, v);
    assert r.va / PAGE_SIZE == v;
    LeafFromRoot(mem, root, v);
  }

  lemma LeafFromRoot(mem: Memory, root: nat, v: nat)
    requires v < TWO_36
    ensures LeafFrom(mem, root, 0, v).valid == Leaf(mem, root, v).valid
    ensures Leaf(mem, root, v).valid == 1 ==> LeafFrom(mem, root, 0, v) == Leaf(mem, root, v)
  {
    LeafFromTable(mem, root, v, 0);
    PrefixesNest(v);
    assert PathTable(mem, root, v, 0) == Some(root);
  }
}
