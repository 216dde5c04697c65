/** get_mem: the memory regions a device tree names. */
module MemoryMap {
  import opened Wrappers
  import opened Arithmetic

  const MAX_MEM_REGIONS: nat := 16

  type Byte = b: nat | b < 256

  datatype Region = Region(base: nat, size: nat)

  /** The reg property of a memory node, as libfdt hands it over. */
  datatype Reg = NoReg | Reg(bytes: seq<Byte>)

  /** What the root node and the memory nodes look like; root is negative when the tree has none. */
  datatype Tree = Tree(root: int, addressCells: int, sizeCells: int, nodes: seq<Reg>)

  datatype Status = Done | NullArgument | NoRoot(code: int) | BadState

  // ----- what the tree says ------------------------------------------------------

  function BigEndian(bytes: seq<Byte>): nat
  {
    if bytes == [] then 0 else 256 * BigEndian(bytes[..|bytes| - 1]) + bytes[|bytes| - 1]
  }

  predicate Supported(a: int, s: int)
  {
    1 <= a <= 2 && 1 <= s <= 2
  }

  function EntrySize(a: int, s: int): nat
    requires Supported(a, s)
  {
    (a + s) * 4
  }

  /** One (address, size) pair: each the big-endian number its bytes spell. */
  function Entry(bytes: seq<Byte>, a: int): Region
    requires 0 < a && 4 * a <= |bytes|
  {
    Region(BigEndian(bytes[..4 * a]), BigEndian(bytes[4 * a..]))
  }

  /** The pairs of a reg property, in order. */
  function Entries(bytes: seq<Byte>, a: int, s: int): seq<Region>
    requires Supported(a, s)
  {
    var e := EntrySize(a, s);
    if |bytes| < e then [] else [Entry(bytes[..e], a)] + Entries(bytes[e..], a, s)
  }

  /** A reg property that is absent, or a whole number of entries of 8, 12 or 16 bytes. */
  predicate WholeEntries(reg: Reg, a: int, s: int)
    requires Supported(a, s)
  {
    reg.NoReg? || (if a + s == 2 then |reg.bytes| % 8 == 0 else if a + s == 3 then |reg.bytes| % 12 == 0 else |reg.bytes| % 16 == 0)
  }

  lemma WholeIsMultiple(bytes: seq<Byte>, a: int, s: int)
    requires Supported(a, s)
    ensures WholeEntries(Reg(bytes), a, s) <==> |bytes| % EntrySize(a, s) == 0
    ensures 0 < |bytes| < EntrySize(a, s) ==> |bytes| % EntrySize(a, s) != 0
  {
    if a + s == 2 {
      assert EntrySize(a, s) == 8;
    } else if a + s == 3 {
      assert EntrySize(a, s) == 12;
    } else {
      assert EntrySize(a, s) == 16;
    }
  }

  function NodeEntries(reg: Reg, a: int, s: int): seq<Region>
    requires Supported(a, s)
  {
    if reg.NoReg? then [] else Entries(reg.bytes, a, s)
  }

  function AllEntries(nodes: seq<Reg>, a: int, s: int): seq<Region>
    requires Supported(a, s)
  {
    if nodes == [] then [] else AllEntries(nodes[..|nodes| - 1], a, s) + NodeEntries(nodes[|nodes| - 1], a, s)
  }

  /** Byte j of n counts 256 to the power n - 1 - j. */
  lemma {:induction false} BigEndianAt(bytes: seq<Byte>, j: nat)
    requires j < |bytes|
    ensures BigEndian(bytes) / Power(256, |bytes| - 1 - j) % 256 == bytes[j]
  {
    var init, last := bytes[..|bytes| - 1], bytes[|bytes| - 1];
    Peel(last, 256, BigEndian(init));
    if j < |bytes| - 1 {
      BigEndianAt(init, j);
      DivDiv(BigEndian(bytes), 256, Power(256, |init| - 1 - j));
    }
  }

  /** No number of n bytes reaches 256 to the power n. */
  lemma {:induction false} BigEndianBelow(bytes: seq<Byte>)
    ensures BigEndian(bytes) < Power(256, |bytes|)
  {
    if bytes != [] {
      BigEndianBelow(bytes[..|bytes| - 1]);
    }
  }

  /** The i-th pair of a property: a cells of base and then s cells of size, (a + s) * 4 * i bytes from its start. */
  lemma PairAt(bytes: seq<Byte>, a: int, s: int, i: nat)
    requires 1 <= a <= 2 && 1 <= s <= 2 && 4 * (a + s) * i + 4 * (a + s) <= |bytes|
    ensures i < |Entries(bytes, a, s)|
    ensures var at := 4 * (a + s) * i;
            && Entries(bytes, a, s)[i].base == BigEndian(bytes[at..at + 4 * a])
            && Entries(bytes, a, s)[i].size == BigEndian(bytes[at + 4 * a..at + 4 * (a + s)])
  {
    TimesIsProduct(EntrySize(a, s), i);
    PairAtByte(bytes, a, s, i, Times(EntrySize(a, s), i));
  }

  lemma PairAtByte(bytes: seq<Byte>, a: int, s: int, i: nat, at: nat)
    requires Supported(a, s) && at == Times(EntrySize(a, s), i) && at + EntrySize(a, s) <= |bytes|
    ensures i < |Entries(bytes, a, s)|
    ensures Entries(bytes, a, s)[i].base == BigEndian(bytes[at..at + 4 * a])
    ensures Entries(bytes, a, s)[i].size == BigEndian(bytes[at + 4 * a..at + EntrySize(a, s)])
  {
    EntriesFrom(bytes, a, s, i);
    FrontEntry(bytes, at, a, s);
    assert Entries(bytes, a, s)[i..][0] == Entry(bytes[at..at + EntrySize(a, s)], a);
    FieldsOfEntry(bytes, at, a, s);
  }

  /** The pairs from the i-th on are those of the bytes that far on. */
  lemma {:induction false} EntriesFrom(bytes: seq<Byte>, a: int, s: int, i: nat)
    requires Supported(a, s) && Times(EntrySize(a, s), i) <= |bytes|
    ensures i <= |Entries(bytes, a, s)|
    ensures Entries(bytes, a, s)[i..] == Entries(bytes[Times(EntrySize(a, s), i)..], a, s)
  {
    var all := Entries(bytes, a, s);
    if i == 0 {
      assert bytes[0..] == bytes && all[0..] == all;
    } else {
      EntriesFrom(bytes, a, s, i - 1);
      FrontEntry(bytes, Times(EntrySize(a, s), i - 1), a, s);
      assert all[i..] == all[i - 1..][1..];
    }
  }

  lemma FieldsOfEntry(bytes: seq<Byte>, at: nat, a: int, s: int)
    requires 1 <= a <= 2 && 1 <= s <= 2 && at + 4 * (a + s) <= |bytes|
    ensures var r := Entry(bytes[at..at + 4 * (a + s)], a);
            r.base == BigEndian(bytes[at..at + 4 * a]) && r.size == BigEndian(bytes[at + 4 * a..at + 4 * (a + s)])
  {
    assert bytes[at..at + 4 * (a + s)][..4 * a] == bytes[at..at + 4 * a];
    assert bytes[at..at + 4 * (a + s)][4 * a..] == bytes[at + 4 * a..at + 4 * (a + s)];
  }

  /** A property has as many pairs as fit into its bytes. */
  lemma PairCount(bytes: seq<Byte>, a: int, s: int)
    requires 1 <= a <= 2 && 1 <= s <= 2
    ensures |Entries(bytes, a, s)| == |bytes| / (4 * (a + s))
  {
    var e, n := EntrySize(a, s), |Entries(bytes, a, s)|;
    PairsFill(bytes, a, s);
    TimesIsProduct(e, n);
    Peel(|bytes| - Times(e, n), e, n);
  }

  lemma {:induction false} PairsFill(bytes: seq<Byte>, a: int, s: int)
    requires Supported(a, s)
    ensures var e := EntrySize(a, s); Times(e, |Entries(bytes, a, s)|) <= |bytes| < Times(e, |Entries(bytes, a, s)|) + e
  {
    if |bytes| >= EntrySize(a, s) {
      PairsFill(bytes[EntrySize(a, s)..], a, s);
    }
  }

  /** The nodes are read one after the other. */
  lemma {:induction false} NodesInOrder(before: seq<Reg>, after: seq<Reg>, a: int, s: int)
    requires 1 <= a <= 2 && 1 <= s <= 2
    ensures AllEntries(before + after, a, s) == AllEntries(before, a, s) + AllEntries(after, a, s)
  {
    if after == [] {
      assert before + after == before;
    } else {
      var init, last := after[..|after| - 1], after[|after| - 1];
      NodesInOrder(before, init, a, s);
      SplitLast(before, after);
      LastNode(before + init, last, a, s);
      LastNode(init, last, a, s);
      Associate(AllEntries(before, a, s), AllEntries(init, a, s), NodeEntries(last, a, s));
    }
  }

  lemma SplitLast(before: seq<Reg>, after: seq<Reg>)
    requires after != []
    ensures var init, last := after[..|after| - 1], after[|after| - 1];
            before + after == (before + init) + [last] && after == init + [last]
  {
  }

  lemma LastNode(init: seq<Reg>, last: Reg, a: int, s: int)
    requires 1 <= a <= 2 && 1 <= s <= 2
    ensures AllEntries(init + [last], a, s) == AllEntries(init, a, s) + NodeEntries(last, a, s)
  {
    assert (init + [last])[..|init|] == init;
  }

  lemma Associate(a: seq<Region>, b: seq<Region>, c: seq<Region>)
    ensures (a + b) + c == a + (b + c)
  {
  }

  /** A node gives the pairs of its reg property, and one without it none. */
  lemma OneNode(reg: Reg, a: int, s: int)
    requires 1 <= a <= 2 && 1 <= s <= 2
    ensures AllEntries([reg], a, s) == if reg.NoReg? then [] else Entries(reg.bytes, a, s)
  {
    assert AllEntries([], a, s) == [];
    assert [reg][..0] == [];
  }

  /** The pairs that are real regions: those of nonzero size. */
  function NonZero(rs: seq<Region>): seq<Region>
  {
    if rs == [] then []
    else NonZero(rs[..|rs| - 1]) + (if rs[|rs| - 1].size > 0 then [rs[|rs| - 1]] else [])
  }

  function FirstSixteen(rs: seq<Region>): (r: seq<Region>)
    ensures |r| <= MAX_MEM_REGIONS
  {
    if |rs| <= MAX_MEM_REGIONS then rs else rs[..MAX_MEM_REGIONS]
  }

  /** The map after the given pairs, one by one: a pair of nonzero size goes in while there is room. */
  function Wanted(rs: seq<Region>): (w: seq<Region>)
    ensures |w| <= MAX_MEM_REGIONS
  {
    if rs == [] then []
    else
      var w := Wanted(rs[..|rs| - 1]);
      if |w| < MAX_MEM_REGIONS && rs[|rs| - 1].size > 0 then w + [rs[|rs| - 1]] else w
  }

  /** `kept` stands in `rs` at these places: in order, all pairs of nonzero size, and no other. */
  ghost predicate Picks(places: seq<nat>, rs: seq<Region>, kept: seq<Region>)
  {
    && |places| == |kept|
    && (forall j :: 0 <= j < |places| ==> places[j] < |rs| && kept[j] == rs[places[j]])
    && (forall j, k :: 0 <= j < k < |places| ==> places[j] < places[k])
    && (forall k :: 0 <= k < |rs| ==> (k in places <==> rs[k].size > 0))
  }

  lemma {:induction false} NonZeroPicks(rs: seq<Region>) returns (places: seq<nat>)
    ensures Picks(places, rs, NonZero(rs))
  {
    if rs == [] {
      places := [];
    } else {
      var n := |rs| - 1;
      places := NonZeroPicks(rs[..n]);
      PickNext(places, rs[..n], NonZero(rs[..n]), rs[n]);
      assert rs[..n] + [rs[n]] == rs;
      if rs[n].size > 0 {
        places := places + [n];
      }
    }
  }

  lemma PickNext(places: seq<nat>, rs: seq<Region>, kept: seq<Region>, r: Region)
    requires Picks(places, rs, kept)
    ensures if r.size > 0 then Picks(places + [|rs|], rs + [r], kept + [r]) else Picks(places, rs + [r], kept)
  {
    assert |rs| !in places;
  }

  /** What the map holds is the first sixteen pairs of nonzero size, in order. */
  lemma {:induction false} WantedIsFirstSixteen(rs: seq<Region>)
    ensures Wanted(rs) == FirstSixteen(NonZero(rs))
    ensures Wanted(rs) == if |NonZero(rs)| <= 16 then NonZero(rs) else NonZero(rs)[..16]
  {
    if rs != [] {
      WantedIsFirstSixteen(rs[..|rs| - 1]);
    }
  }

  // ----- get_mem -------------------------------------------------------------------

  /** fdt32_to_cpu of the cell at byte `at`. */
  function Cell(bytes: seq<Byte>, at: nat): (c: nat)
    requires at + 4 <= |bytes|
    ensures c < TWO_32
  {
    var b0: nat, b1: nat, b2: nat, b3: nat := bytes[at], bytes[at + 1], bytes[at + 2], bytes[at + 3];
    256 * (256 * (256 * b0 + b1) + b2) + b3
  }

  class RegionMap {
    var regions: array<Region>
    var count: nat
    ghost var seen: seq<Region> // every pair read so far

    /** The map has room for sixteen regions and holds what it should after the pairs read so far. */
    ghost predicate Valid()
      reads this, regions
    {
      regions.Length == MAX_MEM_REGIONS && count <= MAX_MEM_REGIONS && regions[..count] == Wanted(seen)
    }

    constructor ()
      ensures Valid() && fresh(regions) && seen == []
    {
      regions := new Region[MAX_MEM_REGIONS](_ => Region(0, 0));
      count := 0;
      seen := [];
    }

    method Clear()
      requires regions.Length == MAX_MEM_REGIONS
      modifies this
      ensures Valid() && regions == old(regions) && seen == []
    {
      count := 0;
      seen := [];
    }

    /** (value << 32) | cell, for n cells from byte `at` on. */
    method ReadCells(bytes: seq<Byte>, at: nat, n: nat) returns (value: nat)
      requires 1 <= n <= 2 && at + 4 * n <= |bytes|
      ensures value == BigEndian(bytes[at..at + 4 * n])
    {
      value := 0;
      for j := 0 to n
        invariant value == BigEndian(bytes[at..at + 4 * j])
        invariant j <= 1 ==> value < TWO_32
      {
        CellAppends(bytes, at, at + 4 * j);
        value := (value * TWO_32) % TWO_64 + Cell(bytes, at + 4 * j);
      }
    }

    /** The pair at byte `at`, unless its size is zero or the map is full. */
    method AddEntry(bytes: seq<Byte>, at: nat, a: int, s: int)
      requires Valid() && Supported(a, s) && at + EntrySize(a, s) <= |bytes| && count < MAX_MEM_REGIONS
      modifies this, regions
      ensures Valid() && regions == old(regions)
      ensures seen == old(seen) + [Entry(bytes[at..at + EntrySize(a, s)], a)]
    {
      var base := ReadCells(bytes, at, a);
      var size := ReadCells(bytes, at + 4 * a, s);
      assert bytes[at..at + EntrySize(a, s)][..4 * a] == bytes[at..at + 4 * a];
      assert bytes[at..at + EntrySize(a, s)][4 * a..] == bytes[at + 4 * a..at + 4 * a + 4 * s];
      Put(Region(base, size));
    }

    method Put(r: Region)
      requires Valid() && count < MAX_MEM_REGIONS
      modifies this, regions
      ensures Valid() && regions == old(regions) && seen == old(seen) + [r]
    {
      WantedGrows(seen, r);
      if r.size > 0 {
        regions[count] := r;
        count := count + 1;
      }
      seen := seen + [r];
    }

    /** The body of get_mem's inner loop; a full map ends it. */
    method AddNext(bytes: seq<Byte>, at: nat, ghost left: nat, a: int, s: int) returns (full: bool)
      requires Valid() && Supported(a, s)
      requires 0 < left && at <= |bytes| && |bytes| - at == Times(EntrySize(a, s), left)
      modifies this, regions
      ensures Valid() && regions == old(regions)
      ensures var e := EntrySize(a, s);
              if full then seen == old(seen) + Entries(bytes[at..], a, s)
              else
                && at + e <= |bytes| && |bytes| - (at + e) == Times(e, left - 1)
                && seen + Entries(bytes[at + e..], a, s) == old(seen) + Entries(bytes[at..], a, s)
    {
      NextEntry(bytes, at, left, a, s, seen);
      if count >= MAX_MEM_REGIONS {
        WantedFull(seen, Entries(bytes[at..], a, s));
        seen := seen + Entries(bytes[at..], a, s);
        return true;
      }
      AddEntry(bytes, at, a, s);
      return false;
    }

    /** The pairs of one reg property, if it holds a whole number of them. */
    method AddReg(bytes: seq<Byte>, a: int, s: int)
      requires Valid() && Supported(a, s) && WholeEntries(Reg(bytes), a, s)
      modifies this, regions
      ensures Valid() && regions == old(regions)
      ensures seen == old(seen) + Entries(bytes, a, s)
    {
      var numEntries := CountEntries(bytes, a, s);
      AddEntries(bytes, numEntries, a, s);
    }

    /** get_mem's inner loop over the pairs. */
    method AddEntries(bytes: seq<Byte>, numEntries: nat, a: int, s: int)
      requires Valid() && Supported(a, s) && |bytes| == Times(EntrySize(a, s), numEntries)
      modifies this, regions
      ensures Valid() && regions == old(regions)
      ensures seen == old(seen) + Entries(bytes, a, s)
    {
      var e := EntrySize(a, s);
      ghost var all := seen + Entries(bytes, a, s);
      assert bytes[0..] == bytes;
      var at: nat := 0;
      ghost var left: nat := numEntries;
      for i := 0 to numEntries
        invariant Valid() && regions == old(regions)
        invariant left == numEntries - i && at <= |bytes| && |bytes| - at == Times(e, left)
        invariant all == seen + Entries(bytes[at..], a, s)
      {
        var full := AddNext(bytes, at, left, a, s);
        if full {
          return;
        }
        at := at + e;
        left := left - 1;
      }
      assert bytes[at..] == [];
      NoEntries(bytes[at..], a, s, seen);
    }
  }

  /** e * n, one addition at a time. */
  function Times(e: nat, n: nat): nat
  {
    if n == 0 then 0 else Times(e, n - 1) + e
  }

  lemma {:induction false} TimesIsProduct(e: nat, n: nat)
    ensures Times(e, n) == e * n
  {
    if n > 0 {
      TimesIsProduct(e, n - 1);
      Distribute(e, n - 1, 1, 1);
    }
  }

  method CountEntries(bytes: seq<Byte>, a: int, s: int) returns (n: nat)
    requires Supported(a, s) && WholeEntries(Reg(bytes), a, s)
    ensures |bytes| == Times(EntrySize(a, s), n)
  {
    WholeIsMultiple(bytes, a, s);
    Euclid(|bytes|, EntrySize(a, s));
    n := |bytes| / EntrySize(a, s);
    TimesIsProduct(EntrySize(a, s), n);
  }

  lemma NoEntries(bytes: seq<Byte>, a: int, s: int, seen: seq<Region>)
    requires Supported(a, s) && bytes == []
    ensures seen + Entries(bytes, a, s) == seen
  {
  }

  /** The tree has a root with supported cell counts. */
  predicate Readable(fdt: Tree)
  {
    fdt.root >= 0 && Supported(fdt.addressCells, fdt.sizeCells)
  }

  predicate AllWhole(nodes: seq<Reg>, a: int, s: int)
    requires Supported(a, s)
  {
    nodes == [] || (AllWhole(nodes[..|nodes| - 1], a, s) && WholeEntries(nodes[|nodes| - 1], a, s))
  }

  lemma {:induction false} AllWholeIs(nodes: seq<Reg>, a: int, s: int)
    requires 1 <= a <= 2 && 1 <= s <= 2
    ensures AllWhole(nodes, a, s) <==> forall reg :: reg in nodes && reg.Reg? ==> |reg.bytes| % (4 * (a + s)) == 0
  {
    if nodes != [] {
      var init, last := nodes[..|nodes| - 1], nodes[|nodes| - 1];
      assert nodes == init + [last];
      AllWholeIs(init, a, s);
      if last.Reg? {
        WholeIsMultiple(last.bytes, a, s);
      }
    }
  }

  /** What is read of a tree: the pairs of all nodes before the first whose property is not whole. */
  lemma PairsReadAre(fdt: Tree, n: nat)
    requires fdt.root >= 0 && 1 <= fdt.addressCells <= 2 && 1 <= fdt.sizeCells <= 2 && n <= |fdt.nodes|
    requires forall i :: 0 <= i < n && fdt.nodes[i].Reg? ==>
               |fdt.nodes[i].bytes| % (4 * (fdt.addressCells + fdt.sizeCells)) == 0
    requires n < |fdt.nodes| ==>
               fdt.nodes[n].Reg? && |fdt.nodes[n].bytes| % (4 * (fdt.addressCells + fdt.sizeCells)) != 0
    ensures PairsRead(fdt) == AllEntries(fdt.nodes[..n], fdt.addressCells, fdt.sizeCells)
  {
    var a, s := fdt.addressCells, fdt.sizeCells;
    AllWholeIs(fdt.nodes[..n], a, s);
    if n < |fdt.nodes| {
      WholeIsMultiple(fdt.nodes[n].bytes, a, s);
    }
    PrefixEnds(fdt.nodes, n, a, s);
  }

  ghost function ExpectedStatus(fdt: Tree): Status
  {
    if fdt.root < 0 then NoRoot(fdt.root)
    else if Readable(fdt) && AllWhole(fdt.nodes, fdt.addressCells, fdt.sizeCells) then Done
    else BadState
  }

  /** The pairs of the nodes before the first that is refused. */
  function PairsRead(fdt: Tree): seq<Region>
  {
    if !Readable(fdt) then []
    else AllEntries(GoodPrefix(fdt.nodes, fdt.addressCells, fdt.sizeCells), fdt.addressCells, fdt.sizeCells)
  }

  /**
   * The map read from a tree. It succeeds exactly when there is a root with supported cell counts and the reg
   * property of every memory node that has one is a whole number of entries, even past a full map; the map then
   * holds the first sixteen entries of nonzero size, in order. When a reg property is refused the map holds what the
   * nodes before it gave; with every property accepted those are all the nodes.
   */
  method ReadTree(fdt: Tree, memoryMap: RegionMap) returns (status: Status)
    requires memoryMap.regions.Length == MAX_MEM_REGIONS
    modifies memoryMap, memoryMap.regions
    ensures memoryMap.Valid() && memoryMap.regions == old(memoryMap.regions)
    ensures status == ExpectedStatus(fdt)
    ensures memoryMap.seen == PairsRead(fdt)
  {
    memoryMap.Clear();
    if fdt.root < 0 {
      return NoRoot(fdt.root);
    }
    var a, s := fdt.addressCells, fdt.sizeCells;
    if a < 1 || a > 2 || s < 1 || s > 2 {
      return BadState;
    }
    var n := ReadNodes(fdt.nodes, a, s, memoryMap);
    PrefixEnds(fdt.nodes, n, a, s);
    return if n == |fdt.nodes| then Done else BadState;
  }

  /** get_mem with its null checks: a null tree or map is refused and nothing is written. */
  method GetMem(fdt: Option<Tree>, memoryMap: RegionMap?) returns (status: Status)
    requires memoryMap != null ==> memoryMap.regions.Length == MAX_MEM_REGIONS
    modifies memoryMap, if memoryMap == null then {} else {memoryMap.regions}
    ensures fdt.None? || memoryMap == null ==>
              status == NullArgument && (memoryMap != null ==> unchanged(memoryMap) && memoryMap.regions[..] == old(memoryMap.regions[..]))
    ensures fdt.Some? && memoryMap != null ==>
              && status == ExpectedStatus(fdt.value)
              && memoryMap.Valid() && memoryMap.regions == old(memoryMap.regions)
              && memoryMap.seen == PairsRead(fdt.value)
              && memoryMap.regions[..memoryMap.count] == Wanted(PairsRead(fdt.value))
    ensures fdt.Some? && memoryMap != null ==>
              status == if fdt.value.root < 0 then NoRoot(fdt.value.root) else if status.Done? then Done else BadState
    ensures status.Done? <==>
              && fdt.Some? && memoryMap != null && fdt.value.root >= 0
              && 1 <= fdt.value.addressCells <= 2 && 1 <= fdt.value.sizeCells <= 2
              && forall reg :: reg in fdt.value.nodes && reg.Reg? ==>
                   |reg.bytes| % (4 * (fdt.value.addressCells + fdt.value.sizeCells)) == 0
  {
    if fdt.None? || memoryMap == null {
      return NullArgument;
    }
    status := ReadTree(fdt.value, memoryMap);
    if Readable(fdt.value) {
      AllWholeIs(fdt.value.nodes, fdt.value.addressCells, fdt.value.sizeCells);
    }
  }

  /** get_mem's loop over the memory nodes: how many it read before it ended or refused one. */
  method ReadNodes(nodes: seq<Reg>, a: int, s: int, memoryMap: RegionMap) returns (n: nat)
    requires memoryMap.Valid() && memoryMap.seen == [] && Supported(a, s)
    modifies memoryMap, memoryMap.regions
    ensures memoryMap.Valid() && memoryMap.regions == old(memoryMap.regions)
    ensures n <= |nodes| && AllWhole(nodes[..n], a, s)
    ensures n < |nodes| ==> !WholeEntries(nodes[n], a, s)
    ensures memoryMap.seen == AllEntries(nodes[..n], a, s)
  {
    n := 0;
    while n < |nodes|
      invariant n <= |nodes| && memoryMap.Valid() && memoryMap.regions == old(memoryMap.regions)
      invariant AllWhole(nodes[..n], a, s)
      invariant memoryMap.seen == AllEntries(nodes[..n], a, s)
    {
      var whole := AddNode(nodes[n], a, s, memoryMap);
      if !whole {
        break;
      }
      OneMoreNode(nodes, n, a, s);
      n := n + 1;
    }
  }

  /** The body of get_mem's loop over memory nodes. */
  method AddNode(reg: Reg, a: int, s: int, memoryMap: RegionMap) returns (ok: bool)
    requires memoryMap.Valid() && Supported(a, s)
    modifies memoryMap, memoryMap.regions
    ensures memoryMap.Valid() && memoryMap.regions == old(memoryMap.regions)
    ensures ok <==> WholeEntries(reg, a, s)
    ensures memoryMap.seen == old(memoryMap.seen) + if ok then NodeEntries(reg, a, s) else []
  {
    if reg.NoReg? || reg.bytes == [] {
      return true;
    }
    var entrySize := EntrySize(a, s);
    WholeIsMultiple(reg.bytes, a, s);
    if |reg.bytes| < entrySize || |reg.bytes| % entrySize != 0 {
      return false;
    }
    memoryMap.AddReg(reg.bytes, a, s);
    return true;
  }

  lemma OneMoreNode(nodes: seq<Reg>, i: nat, a: int, s: int)
    requires Supported(a, s) && i < |nodes|
    ensures AllEntries(nodes[..i + 1], a, s) == AllEntries(nodes[..i], a, s) + NodeEntries(nodes[i], a, s)
    ensures AllWhole(nodes[..i + 1], a, s) <==> AllWhole(nodes[..i], a, s) && WholeEntries(nodes[i], a, s)
  {
    assert nodes[..i + 1][..i] == nodes[..i];
  }

  /** The nodes before the first whose reg property is refused. */
  function GoodPrefix(nodes: seq<Reg>, a: int, s: int): (good: seq<Reg>)
    requires Supported(a, s)
    ensures good <= nodes && AllWhole(good, a, s)
  {
    if AllWhole(nodes, a, s) then nodes else GoodPrefix(nodes[..|nodes| - 1], a, s)
  }

  lemma {:induction false} PrefixEnds(nodes: seq<Reg>, n: nat, a: int, s: int)
    requires Supported(a, s) && n <= |nodes| && AllWhole(nodes[..n], a, s)
    requires n < |nodes| ==> !WholeEntries(nodes[n], a, s)
    ensures GoodPrefix(nodes, a, s) == nodes[..n]
    ensures AllWhole(nodes, a, s) <==> n == |nodes|
  {
    if n < |nodes| {
      var init := nodes[..|nodes| - 1];
      assert init[..n] == nodes[..n];
      PrefixEnds(init, n, a, s);
    } else {
      assert nodes[..n] == nodes;
    }
  }

  lemma NextEntry(bytes: seq<Byte>, at: nat, left: nat, a: int, s: int, seen: seq<Region>)
    requires Supported(a, s) && 0 < left && at <= |bytes| && |bytes| - at == Times(EntrySize(a, s), left)
    ensures var e := EntrySize(a, s);
            && at + e <= |bytes| && |bytes| - (at + e) == Times(e, left - 1)
            && seen + Entries(bytes[at..], a, s) == (seen + [Entry(bytes[at..at + e], a)]) + Entries(bytes[at + e..], a, s)
  {
    var e := EntrySize(a, s);
    FrontEntry(bytes, at, a, s);
    assert seen + ([Entry(bytes[at..at + e], a)] + Entries(bytes[at + e..], a, s))
        == (seen + [Entry(bytes[at..at + e], a)]) + Entries(bytes[at + e..], a, s);
  }

  lemma FrontEntry(bytes: seq<Byte>, at: nat, a: int, s: int)
    requires Supported(a, s) && at + EntrySize(a, s) <= |bytes|
    ensures var e := EntrySize(a, s);
            Entries(bytes[at..], a, s) == [Entry(bytes[at..at + e], a)] + Entries(bytes[at + e..], a, s)
  {
    var e := EntrySize(a, s);
    var rest := bytes[at..];
    assert Entries(rest, a, s) == [Entry(rest[..e], a)] + Entries(rest[e..], a, s);
    assert rest[..e] == bytes[at..at + e];
    assert rest[e..] == bytes[at + e..];
  }

  /** A full map stays as it is. */
  lemma {:induction false} WantedFull(a: seq<Region>, b: seq<Region>)
    requires |Wanted(a)| == MAX_MEM_REGIONS
    ensures Wanted(a + b) == Wanted(a)
  {
    if b == [] {
      assert a + b == a;
    } else {
      WantedFull(a, b[..|b| - 1]);
      assert (a + b)[..|a + b| - 1] == a + b[..|b| - 1];
    }
  }

  /** A map with room takes the next region of nonzero size. */
  lemma WantedGrows(a: seq<Region>, r: Region)
    requires |Wanted(a)| < MAX_MEM_REGIONS
    ensures Wanted(a + [r]) == if r.size > 0 then Wanted(a) + [r] else Wanted(a)
  {
    assert (a + [r])[..|a|] == a;
  }

  /** Four more bytes shift a big-endian number by 32 bits. */
  lemma CellAppends(bytes: seq<Byte>, from: nat, at: nat)
    requires from <= at && at + 4 <= |bytes|
    ensures BigEndian(bytes[from..at + 4]) == BigEndian(bytes[from..at]) * TWO_32 + Cell(bytes, at)
  {
    OneByte(bytes, from, at);
    OneByte(bytes, from, at + 1);
    OneByte(bytes, from, at + 2);
    OneByte(bytes, from, at + 3);
  }

  lemma OneByte(bytes: seq<Byte>, from: nat, at: nat)
    requires from <= at < |bytes|
    ensures BigEndian(bytes[from..at + 1]) == 256 * BigEndian(bytes[from..at]) + bytes[at]
  {
    assert bytes[from..at + 1][..at - from] == bytes[from..at];
  }
}
