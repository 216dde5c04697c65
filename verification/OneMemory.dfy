/**
 * Every operation of the kernel as loads and stores on the one memory that also holds the bitmap, and the proof
 * that the two never get in each other's way.
 */
module OneMemory {
  import opened Arithmetic
  import opened Wrappers
  import opened Descriptors
  import opened DescriptorLayout
  import opened PageSets
  import opened TableTree
  import opened TableSteps
  import opened Mapping
  import opened PhysicalMemory
  import opened Ownership
  import opened Boot

  // ----- loops of stores -----------------------------------------------------

  /** The bits of n pages from `start` on, one after the other. */
  function StoreBits(g: Layout, ram: seq<bv8>, start: nat, n: nat, on: bool): (r: seq<bv8>)
    requires Holds(g, ram)
    ensures |r| == |ram|
  {
    if n == 0 then ram else StoreBit(g, StoreBits(g, ram, start, n - 1, on), start + n - 1, on)
  }

  lemma {:induction false} BitsMasked(g: Layout, ram: seq<bv8>, start: nat, n: nat, on: bool)
    requires Holds(g, ram)
    ensures Masked(g, StoreBits(g, ram, start, n, on)) == Masked(g, ram)
  {
    if n > 0 {
      BitsMasked(g, ram, start, n - 1, on);
      BitMasked(g, StoreBits(g, ram, start, n - 1, on), start + n - 1, on);
    }
  }

  lemma {:induction false} BitsUsed(g: Layout, ram: seq<bv8>, start: nat, n: nat, on: bool)
    requires Holds(g, ram) && (n > 0 ==> start + n <= g.total)
    ensures UsedIn(g, StoreBits(g, ram, start, n, on)) == With(UsedIn(g, ram), Range(start, n), on)
  {
    if n > 0 {
      BitsUsed(g, ram, start, n - 1, on);
      LastBitUsed(g, ram, start, n, on);
    }
  }

  lemma LastBitUsed(g: Layout, ram: seq<bv8>, start: nat, n: nat, on: bool)
    requires Holds(g, ram) && n > 0 && start + n <= g.total
    requires UsedIn(g, StoreBits(g, ram, start, n - 1, on)) == With(UsedIn(g, ram), Range(start, n - 1), on)
    ensures UsedIn(g, StoreBits(g, ram, start, n, on)) == With(UsedIn(g, ram), Range(start, n), on)
  {
    BitUsed(g, StoreBits(g, ram, start, n - 1, on), start + n - 1, on);
    OneMore(UsedIn(g, ram), start, n, on);
  }

  lemma OneMore(used: set<nat>, start: nat, n: nat, on: bool)
    requires n > 0
    ensures With(With(used, Range(start, n - 1), on), {start + n - 1}, on) == With(used, Range(start, n), on)
  {
  }

  /** Setting or clearing the bits of a range of pages marks those pages, and changes nothing else. */
  lemma BitsState(g: Layout, ram: seq<bv8>, start: nat, n: nat, on: bool)
    requires Holds(g, ram) && (n > 0 ==> start + n <= g.total)
    ensures StateOf(g, StoreBits(g, ram, start, n, on))
         == StateOf(g, ram).(used := With(UsedIn(g, ram), Range(start, n), on))
  {
    BitsMasked(g, ram, start, n, on);
    BitsUsed(g, ram, start, n, on);
  }

  // ----- map_page ----------------------------------------------------------------

  /** get_next_level_table on entry i of the table at t: bit, cleared page, and entry are stored one after the other. */
  function NextLevelIn(g: Layout, ram: seq<bv8>, t: nat, i: nat): (r: (seq<bv8>, Option<nat>))
    requires Holds(g, ram)
    ensures |r.0| == |ram|
  {
    var e := EntryIn(ram, t, i);
    if e.valid == 1 then (ram, Some(Address(e)))
    else
      match FirstFit(UsedIn(g, ram), g.total, 1)
      case None => (ram, None)
      case Some(k) =>
        var a := PageAddr(g.base, k);
        var cleared := StoreFrame(StoreBit(g, ram, k, true), a, ZeroTable());
        var linked := StoreEntry(cleared, t, i, SetNextLevelTable(EntryIn(cleared, t, i), a));
        (linked, Some(Address(EntryIn(linked, t, i))))
  }

  function DescendIn(g: Layout, ram: seq<bv8>, t: nat, va: nat, level: nat): (r: (seq<bv8>, Option<nat>))
    requires Holds(g, ram) && level <= 3
    ensures |r.0| == |ram|
    decreases 3 - level
  {
    if level == 3 then (ram, Some(t))
    else
      var (ram', next) := NextLevelIn(g, ram, t, Index(va, level));
      if next.None? then (ram', None) else DescendIn(g, ram', next.value, va, level + 1)
  }

  function MapPageIn(g: Layout, ram: seq<bv8>, root: nat, va: nat, pa: nat, perms: Permissions): (r: (seq<bv8>, bool))
    requires Holds(g, ram)
    ensures |r.0| == |ram|
  {
    if pa % PAGE_SIZE != 0 then (ram, false)
    else
      var (ram3, t3) := DescendIn(g, ram, root, va, 0);
      if t3.None? then (ram3, false)
      else (StoreEntry(ram3, t3.value, Index(va, 3), LeafEntry(pa, perms)), true)
  }

  /** The bitmap does not reach into any free page. */
  ghost predicate FreePagesClear(g: Layout, ram: seq<bv8>)
    requires Holds(g, ram)
  {
    forall k: nat :: k < g.total && k !in UsedIn(g, ram) ==> FrameClear(g, |ram|, PageAddr(g.base, k))
  }

  /** It does not reach into any table on the path to a page either. */
  ghost predicate PathClear(g: Layout, ram: seq<bv8>, root: nat, vpn: nat)
    requires Holds(g, ram)
  {
    forall l: nat :: l <= 3 && PathTable(StateOf(g, ram).mem, root, vpn, l).Some? ==>
      FrameClear(g, |ram|, PathTable(StateOf(g, ram).mem, root, vpn, l).value)
  }

  lemma LinkIn(g: Layout, ram: seq<bv8>, t: nat, i: nat, k: nat)
    requires Holds(g, ram) && FrameClear(g, |ram|, t) && i < 512
    requires k < g.total && FrameClear(g, |ram|, PageAddr(g.base, k)) && t != PageAddr(g.base, k)
    ensures var a := PageAddr(g.base, k);
            var cleared := StoreFrame(StoreBit(g, ram, k, true), a, ZeroTable());
            var linked := StoreEntry(cleared, t, i, SetNextLevelTable(EntryIn(cleared, t, i), a));
            StateOf(g, linked) == LinkTable(StateOf(g, ram), t, i, k)
            && EntryIn(linked, t, i) == EntryAt(LinkTable(StateOf(g, ram), t, i, k).mem, t, i)
  {
    var a := PageAddr(g.base, k);
    var marked := StoreBit(g, ram, k, true);
    var cleared := StoreFrame(marked, a, ZeroTable());
    var e := SetNextLevelTable(EntryIn(cleared, t, i), a);
    BitMasked(g, ram, k, true);
    BitUsed(g, ram, k, true);
    FrameState(g, marked, a, ZeroTable());
    EntryRead(g, cleared, t, i);
    StoreState(g, cleared, t, i, e);
    EntryRead(g, StoreEntry(cleared, t, i, e), t, i);
  }

  lemma NextLevelAgrees(g: Layout, ram: seq<bv8>, t: nat, i: nat)
    requires Holds(g, ram) && FrameClear(g, |ram|, t) && i < 512
    requires FreePagesClear(g, ram) && !Unowned(StateOf(g, ram), t)
    ensures var (ram', r) := NextLevelIn(g, ram, t, i);
            (StateOf(g, ram'), r) == NextLevel(StateOf(g, ram), t, i)
  {
    EntryRead(g, ram, t, i);
    var f := FirstFit(UsedIn(g, ram), g.total, 1);
    if EntryIn(ram, t, i).valid == 0 && f.Some? {
      LinkIn(g, ram, t, i, f.value);
    }
  }

  /** New tables on a path are free pages, so the bitmap stays clear of the path as it grows. */
  lemma StaysClear(g: Layout, ram: seq<bv8>, ram': seq<bv8>, root: nat, vpn: nat)
    requires Holds(g, ram) && |ram'| == |ram| && FreePagesClear(g, ram) && PathClear(g, ram, root, vpn)
    requires Grew(StateOf(g, ram), StateOf(g, ram'), root, vpn)
    ensures FreePagesClear(g, ram') && PathClear(g, ram', root, vpn)
  {
    var s, s' := StateOf(g, ram), StateOf(g, ram');
    forall l: nat | l <= 3 && PathTable(s'.mem, root, vpn, l).Some?
      ensures FrameClear(g, |ram'|, PathTable(s'.mem, root, vpn, l).value)
    {
      if PathTable(s.mem, root, vpn, l).None? {
        assert Unowned(s, PathTable(s'.mem, root, vpn, l).value);
      }
    }
  }

  lemma {:induction false} DescendAgrees(g: Layout, ram: seq<bv8>, root: nat, va: nat, level: nat, t: nat)
    returns (ram3: seq<bv8>, r: Option<nat>)
    requires Holds(g, ram) && WellFormed(StateOf(g, ram), root) && level <= 3
    requires PathTable(StateOf(g, ram).mem, root, PageNumber(va), level) == Some(t)
    requires FreePagesClear(g, ram) && PathClear(g, ram, root, PageNumber(va))
    ensures (ram3, r) == DescendIn(g, ram, t, va, level)
    ensures (StateOf(g, ram3), r) == DescendFrom(StateOf(g, ram), t, va, level)
    ensures r.Some? ==> FrameClear(g, |ram|, r.value)
    decreases 3 - level
  {
    if level == 3 {
      ram3, r := ram, Some(t);
    } else {
      StepDown(g, ram, root, va, level, t);
      var (ram', next) := NextLevelIn(g, ram, t, Index(va, level));
      if next.None? {
        ram3, r := ram', None;
      } else {
        ram3, r := DescendAgrees(g, ram', root, va, level + 1, next.value);
      }
    }
  }

  /** One level of the descent, and what the next one needs. */
  lemma StepDown(g: Layout, ram: seq<bv8>, root: nat, va: nat, level: nat, t: nat)
    requires Holds(g, ram) && WellFormed(StateOf(g, ram), root) && level < 3
    requires PathTable(StateOf(g, ram).mem, root, PageNumber(va), level) == Some(t)
    requires FreePagesClear(g, ram) && PathClear(g, ram, root, PageNumber(va))
    ensures var (ram', next) := NextLevelIn(g, ram, t, Index(va, level));
            && (StateOf(g, ram'), next) == NextLevel(StateOf(g, ram), t, Index(va, level))
            && WellFormed(StateOf(g, ram'), root)
            && FreePagesClear(g, ram') && PathClear(g, ram', root, PageNumber(va))
            && (next.Some? ==> PathTable(StateOf(g, ram').mem, root, PageNumber(va), level + 1) == next)
  {
    var s, i := StateOf(g, ram), Index(va, level);
    TableIsNotFree(s, root, level, Prefix(PageNumber(va), level));
    NextLevelAgrees(g, ram, t, i);
    DescentStep(s, root, va, level, t);
    StaysClear(g, ram, NextLevelIn(g, ram, t, i).0, root, PageNumber(va));
  }

  /** On a path the bitmap does not reach into, map_page's loads and stores do what map_page does to the state. */
  lemma MapPageAgrees(g: Layout, ram: seq<bv8>, root: nat, va: nat, pa: nat, perms: Permissions)
    requires Holds(g, ram) && WellFormed(StateOf(g, ram), root)
    requires FreePagesClear(g, ram) && PathClear(g, ram, root, PageNumber(va))
    ensures var (ram', ok) := MapPageIn(g, ram, root, va, pa, perms);
            (StateOf(g, ram'), ok) == Mapping.MapPage(StateOf(g, ram), root, va, pa, perms)
  {
    if pa % PAGE_SIZE == 0 {
      PathStarts(StateOf(g, ram), root, va);
      var ram3, t3 := DescendAgrees(g, ram, root, va, 0, root);
      if t3.Some? {
        StoreState(g, ram3, t3.value, Index(va, 3), LeafEntry(pa, perms));
      }
    }
  }

  // ----- a walk of the raw words --------------------------------------------------

  /** The leaf word found by loading one 64-bit word a level, 0 if there is none: bit 0 is valid, 47:12 the address. */
  function RawWalk(ram: seq<bv8>, t: nat, va: nat, level: nat): nat
    requires level <= 3
    decreases 3 - level
  {
    var w := WordAt(ram, t + 8 * Index(va, level));
    if w % 2 == 0 then 0
    else if level == 3 then w
    else RawWalk(ram, w / 0x1000 % TWO_36 * 0x1000, va, level + 1)
  }

  lemma WordRead(g: Layout, ram: seq<bv8>, t: nat, i: nat)
    requires Holds(g, ram) && FrameClear(g, |ram|, t) && i < 512
    ensures var w, e := WordAt(ram, t + 8 * i), EntryAt(StateOf(g, ram).mem, t, i);
            w == Value(e) && e.valid == w % 2 && Address(e) == w / 0x1000 % TWO_36 * 0x1000
  {
    var x := t + 8 * i;
    EntryRead(g, ram, t, i);
    EightBytes();
    BytesOfWord(ram[x..x + 8]);
    RawSurvives(WordAt(ram, x));
    FieldPositions(EntryIn(ram, t, i));
  }

  /** What a walk needs of the word at one level: is there a leaf, and where does it go on. */
  lemma RawStep(g: Layout, ram: seq<bv8>, root: nat, va: nat, level: nat, t: nat)
    requires Holds(g, ram) && level <= 3 && FrameClear(g, |ram|, t)
    requires PathTable(StateOf(g, ram).mem, root, PageNumber(va), level) == Some(t)
    ensures var w, mem, vpn := WordAt(ram, t + 8 * Index(va, level)), StateOf(g, ram).mem, PageNumber(va);
            && (w % 2 == 0 ==> Leaf(mem, root, vpn).valid == 0)
            && (level < 3 && w % 2 == 1 ==> PathTable(mem, root, vpn, level + 1) == Some(w / 0x1000 % TWO_36 * 0x1000))
            && (level == 3 && w % 2 == 1 ==> Leaf(mem, root, vpn).valid == 1 && w == Value(Leaf(mem, root, vpn)))
  {
    WordRead(g, ram, t, Index(va, level));
    PathEntry(StateOf(g, ram).mem, root, va, level, t);
  }

  /** The word a walk finds is the word of the flat map's leaf. */
  ghost predicate FindsLeaf(g: Layout, ram: seq<bv8>, root: nat, vpn: nat, w: nat)
    requires Holds(g, ram)
  {
    var e := Leaf(StateOf(g, ram).mem, root, vpn);
    w == if e.valid == 1 then Value(e) else 0
  }

  lemma {:induction false} RawWalkFrom(g: Layout, ram: seq<bv8>, root: nat, va: nat, level: nat, t: nat) returns (w: nat)
    requires Holds(g, ram) && level <= 3 && PathClear(g, ram, root, PageNumber(va))
    requires PathTable(StateOf(g, ram).mem, root, PageNumber(va), level) == Some(t)
    ensures w == RawWalk(ram, t, va, level) && FindsLeaf(g, ram, root, PageNumber(va), w)
    decreases 3 - level
  {
    RawStep(g, ram, root, va, level, t);
    var w0 := WordAt(ram, t + 8 * Index(va, level));
    if w0 % 2 == 0 {
      w := 0;
    } else if level == 3 {
      w := w0;
    } else {
      w := RawWalkFrom(g, ram, root, va, level + 1, w0 / 0x1000 % TWO_36 * 0x1000);
    }
  }

  /**
   * Loading words from the root's address on finds the raw word of the flat map's leaf, and 0 exactly when there is
   * none: what the tree means is what its bytes say.
   */
  lemma RawWalkReadsFlatMap(g: Layout, ram: seq<bv8>, root: nat, va: nat)
    requires Holds(g, ram) && PathClear(g, ram, root, PageNumber(va))
    ensures var mem, w := StateOf(g, ram).mem, RawWalk(ram, root, va, 0);
            && (w == 0 <==> Translate(mem, root, PageNumber(va)).None?)
            && (w != 0 ==> FromValue(w) == Leaf(mem, root, PageNumber(va)) && w < TWO_64)
  {
    PathStarts(StateOf(g, ram), root, va);
    var w := RawWalkFrom(g, ram, root, va, 0, root);
    LeafWord(Leaf(StateOf(g, ram).mem, root, PageNumber(va)));
  }

  lemma LeafWord(e: Pte)
    ensures FromValue(Value(e)) == e && Value(e) < TWO_64 && (e.valid == 1 ==> Value(e) != 0)
  {
    UnionViews(e, 0);
    ValueBound(e);
    FieldPositions(e);
  }

  /** The entry an address selects in a table on its path. */
  lemma PathEntry(mem: Memory, root: nat, va: nat, level: nat, t: nat)
    requires level <= 3 && PathTable(mem, root, PageNumber(va), level) == Some(t)
    ensures var e := EntryAt(mem, t, Index(va, level));
            if level == 3 then Leaf(mem, root, PageNumber(va)) == e
            else
              && PathTable(mem, root, PageNumber(va), level + 1) == (if e.valid == 1 then Some(Address(e)) else None)
              && (e.valid == 0 ==> Leaf(mem, root, PageNumber(va)).valid == 0)
  {
    PrefixesNest(PageNumber(va));
    IndicesSpellPrefixes(va);
    if level < 3 {
      IndexIsPrefix(va, level);
      if EntryAt(mem, t, Index(va, level)).valid == 0 {
        NoTableNoLeaf(mem, root, PageNumber(va), level + 1);
      }
    }
  }

  lemma NoTableNoLeaf(mem: Memory, root: nat, vpn: nat, level: nat)
    requires vpn < TWO_36 && 1 <= level <= 3 && PathTable(mem, root, vpn, level).None?
    ensures Leaf(mem, root, vpn).valid == 0
  {
    PrefixesNest(vpn);
    if level < 3 {
      assert PathTable(mem, root, vpn, level + 1).None?;
      if level < 2 {
        assert PathTable(mem, root, vpn, level + 2).None?;
      }
    }
  }

  // ----- whole runs ---------------------------------------------------------------

  /** The memory, and what clients keep about it. */
  datatype Machine = Machine(ram: seq<bv8>, live: set<Extent>, roots: set<nat>)

  /** An operation as loads and stores. */
  function StepIn(g: Layout, m: Machine, op: Op): (r: Machine)
    requires Holds(g, m.ram)
    ensures |r.ram| == |m.ram|
  {
    match op
    case Alloc(n) =>
      var f := if n == 0 then None else FirstFit(UsedIn(g, m.ram), g.total, n);
      (match f
       case None => m
       case Some(k) => m.(ram := StoreBits(g, m.ram, k, n, true), live := m.live + {Extent(k, n)}))
    case Release(e) =>
      if e !in m.live then m
      else m.(ram := StoreBits(g, m.ram, e.start, e.n, false), live := m.live - {e})
    case NewRoot(page) =>
      if Extent(page, 1) !in m.live then m
      else Machine(StoreFrame(m.ram, PageAddr(g.base, page), ZeroTable()), m.live - {Extent(page, 1)}, m.roots + {page})
    case Map(root, c) =>
      if root !in m.roots then m
      else m.(ram := MapPageIn(g, m.ram, PageAddr(g.base, root), c.va, c.pa, c.perms).0)
    case Store(page, words) =>
      if InLiveBlock(m.live, page)
      then m.(ram := StoreFrame(m.ram, PageAddr(g.base, page), words))
      else m
  }

  function RunIn(g: Layout, m: Machine, ops: seq<Op>): (r: Machine)
    requires Holds(g, m.ram)
    ensures |r.ram| == |m.ram|
  {
    if ops == [] then m else StepIn(g, RunIn(g, m, ops[..|ops| - 1]), ops[|ops| - 1])
  }

  /** The machine is in the system's state. */
  ghost predicate Shows(g: Layout, m: Machine, y: System)
    requires Holds(g, m.ram)
  {
    StateOf(g, m.ram) == y.s && m.live == y.live && m.roots == y.roots
  }

  /** The pages the bitmap reaches into are reserved. */
  ghost predicate BitmapReserved(g: Layout, size: nat, reserved: set<nat>)
  {
    forall k: nat :: k < g.total && k !in reserved ==> FrameClear(g, size, PageAddr(g.base, k))
  }

  lemma BlockPageClear(g: Layout, m: Machine, y: System, e: Extent, j: nat)
    requires Holds(g, m.ram) && Shows(g, m, y) && Inv(y) && BitmapReserved(g, |m.ram|, y.reserved)
    requires e in y.live && e.start <= j < e.start + e.n
    ensures FrameClear(g, |m.ram|, PageAddr(g.base, j))
  {
    assert Owns(y, Client(e), j);
    assert HasOwner(y, j);
    assert Owns(y, AtBoot, j) <==> j in y.reserved;
  }

  lemma FreeClear(g: Layout, m: Machine, y: System)
    requires Holds(g, m.ram) && Shows(g, m, y) && Inv(y) && BitmapReserved(g, |m.ram|, y.reserved)
    ensures FreePagesClear(g, m.ram)
  {
    forall k: nat | k < g.total && k !in UsedIn(g, m.ram) ensures FrameClear(g, |m.ram|, PageAddr(g.base, k)) {
      assert Owns(y, AtBoot, k) <==> k in y.reserved;
      assert !HasOwner(y, k);
    }
  }

  lemma TreeClear(g: Layout, m: Machine, y: System, root: nat, vpn: nat)
    requires Holds(g, m.ram) && Shows(g, m, y) && Inv(y) && BitmapReserved(g, |m.ram|, y.reserved) && root in y.roots
    ensures PathClear(g, m.ram, PageAddr(g.base, root), vpn)
  {
    var r := PageAddr(g.base, root);
    forall l: nat | l <= 3 && PathTable(y.s.mem, r, vpn, l).Some?
      ensures FrameClear(g, |m.ram|, PathTable(y.s.mem, r, vpn, l).value)
    {
      var j := TablePage(y.s, root, l, Prefix(vpn, l));
      assert Owns(y, Tree(root), j);
      assert Owns(y, AtBoot, j) <==> j in y.reserved;
    }
  }

  lemma AllocAgrees(g: Layout, m: Machine, y: System, n: nat)
    requires Holds(g, m.ram) && Shows(g, m, y) && Inv(y)
    ensures Shows(g, StepIn(g, m, Alloc(n)), Step(y, Alloc(n)))
  {
    var f := if n == 0 then None else FirstFit(UsedIn(g, m.ram), g.total, n);
    if f.Some? {
      BitsState(g, m.ram, f.value, n, true);
    }
  }

  lemma ReleaseAgrees(g: Layout, m: Machine, y: System, e: Extent)
    requires Holds(g, m.ram) && Shows(g, m, y) && Inv(y)
    ensures Shows(g, StepIn(g, m, Release(e)), Step(y, Release(e)))
  {
    if e in y.live {
      LiveBlockFits(y, e);
      BitsState(g, m.ram, e.start, e.n, false);
    }
  }

  lemma NewRootAgrees(g: Layout, m: Machine, y: System, page: nat)
    requires Holds(g, m.ram) && Shows(g, m, y) && Inv(y) && BitmapReserved(g, |m.ram|, y.reserved)
    ensures Shows(g, StepIn(g, m, NewRoot(page)), Step(y, NewRoot(page)))
  {
    if Extent(page, 1) in y.live {
      PageStored(g, m, y, Extent(page, 1), page, ZeroTable());
    }
  }

  lemma StoreAgrees(g: Layout, m: Machine, y: System, page: nat, words: Table)
    requires Holds(g, m.ram) && Shows(g, m, y) && Inv(y) && BitmapReserved(g, |m.ram|, y.reserved)
    ensures Shows(g, StepIn(g, m, Store(page, words)), Step(y, Store(page, words)))
  {
    if InLiveBlock(m.live, page) {
      var e :| e in m.live && e.start <= page < e.start + e.n;
      PageStored(g, m, y, e, page, words);
    }
  }

  lemma PageStored(g: Layout, m: Machine, y: System, e: Extent, page: nat, words: Table)
    requires Holds(g, m.ram) && Shows(g, m, y) && Inv(y) && BitmapReserved(g, |m.ram|, y.reserved)
    requires e in y.live && e.start <= page < e.start + e.n
    ensures StateOf(g, StoreFrame(m.ram, PageAddr(g.base, page), words))
         == y.s.(mem := y.s.mem[PageAddr(g.base, page) := words])
  {
    BlockPageClear(g, m, y, e, page);
    FrameState(g, m.ram, PageAddr(g.base, page), words);
  }

  lemma MapAgrees(g: Layout, m: Machine, y: System, root: nat, c: Call)
    requires Holds(g, m.ram) && Shows(g, m, y) && Inv(y) && BitmapReserved(g, |m.ram|, y.reserved)
    ensures Shows(g, StepIn(g, m, Ownership.Map(root, c)), Step(y, Ownership.Map(root, c)))
  {
    if root in y.roots {
      FreeClear(g, m, y);
      TreeClear(g, m, y, root, PageNumber(c.va));
      MapPageAgrees(g, m.ram, PageAddr(g.base, root), c.va, c.pa, c.perms);
    }
  }

  /** One operation on the one memory does what the run model says it does to bitmap and frames apart. */
  lemma StepAgrees(g: Layout, m: Machine, y: System, op: Op)
    requires Holds(g, m.ram) && Shows(g, m, y) && Inv(y) && BitmapReserved(g, |m.ram|, y.reserved)
    ensures Shows(g, StepIn(g, m, op), Step(y, op))
  {
    match op
    case Alloc(n) => AllocAgrees(g, m, y, n);
    case Release(e) => ReleaseAgrees(g, m, y, e);
    case NewRoot(page) => NewRootAgrees(g, m, y, page);
    case Map(root, c) => MapAgrees(g, m, y, root, c);
    case Store(page, words) => StoreAgrees(g, m, y, page, words);
  }

  lemma {:induction false} RunAgrees(g: Layout, m: Machine, y: System, ops: seq<Op>)
    requires Holds(g, m.ram) && Shows(g, m, y) && Inv(y) && BitmapReserved(g, |m.ram|, y.reserved)
    ensures Shows(g, RunIn(g, m, ops), Run(y, ops))
  {
    if ops != [] {
      var init := ops[..|ops| - 1];
      RunAgrees(g, m, y, init);
      RunKeepsOwnership(y, init);
      StepAgrees(g, RunIn(g, m, init), Run(y, init), ops[|ops| - 1]);
    }
  }

  /** A bitmap inside the image reaches only into pages reserved for the image. */
  lemma ImageHoldsBitmap(g: Layout, ram: seq<bv8>, imageStart: nat, imageEnd: nat)
    requires Holds(g, ram) && ValidState(StateOf(g, ram)) && g.base <= imageStart < imageEnd && imageStart % PAGE_SIZE == 0
    requires imageStart <= g.area && g.area + BitmapBytes(g.total) <= imageEnd
    ensures BitmapReserved(g, |ram|, ImagePages(g.base, imageStart, imageEnd))
  {
    ImagePagesCover(g.base, imageStart, imageEnd);
    forall k: nat | k < g.total && k !in ImagePages(g.base, imageStart, imageEnd)
      ensures FrameClear(g, |ram|, PageAddr(g.base, k))
    {
      assert PageAddr(g.base, k) in StateOf(g, ram).mem;
      assert !Overlaps(g.base, k, imageStart, imageEnd);
    }
  }

  /** What a frame kept under the mask says about its bytes: those outside the bitmap are kept. */
  lemma ByteKept(g: Layout, ram: seq<bv8>, ram': seq<bv8>, a: nat, x: nat)
    requires Holds(g, ram) && |ram'| == |ram| && a in FrameAddrs(|ram|) && a <= x < a + PAGE_SIZE
    requires StateOf(g, ram').mem[a] == StateOf(g, ram).mem[a]
    ensures !InBitmap(g, x) ==> ram'[x] == ram[x]
  {
    FrameBytes(Masked(g, ram), Masked(g, ram'), a, x);
  }

  /**
   * With the bitmap inside the kernel image, in the memory that everything else is in: after a successful boot every
   * run of loads and stores behaves as if the bitmap were apart; the bit of each page says whether it has an owner;
   * and every other bit of the image is what it was.
   */
  lemma OneMemoryProtectsImage(g: Layout, ram: seq<bv8>, imageStart: nat, imageEnd: nat, ops: seq<Op>)
    requires Holds(g, ram) && ValidState(StateOf(g, ram)) && g.base <= imageStart < imageEnd && imageStart % PAGE_SIZE == 0
    requires imageStart <= g.area && g.area + BitmapBytes(g.total) <= imageEnd
    requires UsedIn(g, ram) == ImagePages(g.base, imageStart, imageEnd)
    ensures var m, y := RunIn(g, Machine(ram, {}, {}), ops), Run(Booted(StateOf(g, ram)), ops);
            && Shows(g, m, y) && Inv(y)
            && (forall k: nat :: k < 8 * BitmapBytes(g.total) ==> (BitIn(g, m.ram, k) <==> HasOwner(y, k)))
            && (forall x: nat :: imageStart <= x < imageEnd && !InBitmap(g, x) ==> x < |ram| && m.ram[x] == ram[x])
  {
    var m, y := RunIn(g, Machine(ram, {}, {}), ops), Run(Booted(StateOf(g, ram)), ops);
    BootedInv(StateOf(g, ram));
    ImageHoldsBitmap(g, ram, imageStart, imageEnd);
    RunAgrees(g, Machine(ram, {}, {}), Booted(StateOf(g, ram)), ops);
    RunKeepsOwnership(Booted(StateOf(g, ram)), ops);
    BitsAreOwners(g, m, y);
    forall x: nat | imageStart <= x < imageEnd && !InBitmap(g, x) ensures x < |ram| && m.ram[x] == ram[x] {
      ImageByteKept(g, ram, m.ram, imageStart, imageEnd, ops, x);
    }
  }

  lemma BitsAreOwners(g: Layout, m: Machine, y: System)
    requires Holds(g, m.ram) && Shows(g, m, y) && Inv(y)
    ensures forall k: nat :: k < 8 * BitmapBytes(g.total) ==> (BitIn(g, m.ram, k) <==> HasOwner(y, k))
  {
    UsedMeans(g, m.ram, 8 * BitmapBytes(g.total));
  }

  lemma ImageByteKept(g: Layout, ram: seq<bv8>, ram': seq<bv8>, imageStart: nat, imageEnd: nat, ops: seq<Op>, x: nat)
    requires Holds(g, ram) && ValidState(StateOf(g, ram)) && g.base <= imageStart <= x < imageEnd && imageStart % PAGE_SIZE == 0
    requires UsedIn(g, ram) == ImagePages(g.base, imageStart, imageEnd)
    requires |ram'| == |ram| && StateOf(g, ram') == Run(Booted(StateOf(g, ram)), ops).s
    ensures x < |ram| && (!InBitmap(g, x) ==> ram'[x] == ram[x])
  {
    var a := ImageFrame(StateOf(g, ram), imageStart, imageEnd, x, ops);
    ByteKept(g, ram, ram', a, x);
  }

  /** The frame of an image byte, which no run writes. */
  lemma ImageFrame(s: State, imageStart: nat, imageEnd: nat, x: nat, ops: seq<Op>) returns (a: nat)
    requires ValidState(s) && s.base <= imageStart <= x < imageEnd && imageStart % PAGE_SIZE == 0
    requires s.used == ImagePages(s.base, imageStart, imageEnd)
    ensures a in s.mem && a <= x < a + PAGE_SIZE
    ensures a in Run(Booted(s), ops).s.mem && Run(Booted(s), ops).s.mem[a] == s.mem[a]
  {
    BootProtectsImage(s, imageStart, imageEnd, imageStart, imageEnd, ops);
    var k := (x - s.base) / PAGE_SIZE;
    a := PageAddr(s.base, k);
    assert Overlaps(s.base, k, imageStart, imageEnd);
  }

  // ----- from boot on --------------------------------------------------------------

  /** page_init clears the bytes of the bitmap, and the image's pages are reserved. */
  function BootIn(g: Layout, ram: seq<bv8>, imageStart: nat, imageEnd: nat): (r: seq<bv8>)
    requires Holds(g, ram) && g.base <= imageStart <= imageEnd
    ensures |r| == |ram|
  {
    StoreBits(g, Masked(g, ram), (imageStart - g.base) / PAGE_SIZE, ImageCount(imageStart, imageEnd), true)
  }

  lemma {:induction false} ClearedUsed(g: Layout, ram: seq<bv8>, n: nat)
    requires Holds(g, ram) && n <= 8 * BitmapBytes(g.total)
    ensures UsedBelow(g, Masked(g, ram), n) == {}
  {
    if n > 0 {
      ClearedUsed(g, ram, n - 1);
    }
  }

  lemma BootUsed(g: Layout, ram: seq<bv8>, imageStart: nat, imageEnd: nat)
    requires Holds(g, ram) && g.base % PAGE_SIZE == 0 && imageStart <= imageEnd
    requires ImageInside(g.base, g.total, imageStart, imageEnd)
    ensures UsedIn(g, BootIn(g, ram, imageStart, imageEnd)) == ImagePages(g.base, imageStart, imageEnd)
    ensures Masked(g, BootIn(g, ram, imageStart, imageEnd)) == Masked(g, ram)
  {
    var first, n := (imageStart - g.base) / PAGE_SIZE, ImageCount(imageStart, imageEnd);
    assert first + n <= g.total;
    ClearedUsed(g, ram, 8 * BitmapBytes(g.total));
    BitsUsed(g, Masked(g, ram), first, n, true);
    BitsMasked(g, Masked(g, ram), first, n, true);
    assert Masked(g, Masked(g, ram)) == Masked(g, ram);
  }

  /** The managed range is in memory and page tables can address it. */
  predicate RangeInMemory(g: Layout, ram: seq<bv8>)
  {
    && 0 < g.base && g.base % PAGE_SIZE == 0
    && PageAddr(g.base, g.total) <= |ram| && PageAddr(g.base, g.total) <= TWO_48
  }

  lemma BootValid(g: Layout, ram: seq<bv8>, imageStart: nat, imageEnd: nat)
    requires Holds(g, ram) && RangeInMemory(g, ram) && imageStart <= imageEnd
    requires ImageInside(g.base, g.total, imageStart, imageEnd)
    ensures ValidState(StateOf(g, BootIn(g, ram, imageStart, imageEnd)))
  {
    var ram0 := BootIn(g, ram, imageStart, imageEnd);
    BootUsed(g, ram, imageStart, imageEnd);
    forall k: nat | k < g.total ensures PageAddr(g.base, k) in StateOf(g, ram0).mem {
      assert PageAddr(g.base, k) + PAGE_SIZE <= PageAddr(g.base, g.total);
    }
  }

  /**
   * From any memory: boot with the bitmap inside an image on a page boundary, then any run. Each bit of the bitmap
   * says whether its page has an owner, and every other byte of the image is still what the loader put there.
   */
  lemma BootedMemoryIsSafe(g: Layout, ram: seq<bv8>, imageStart: nat, imageEnd: nat, ops: seq<Op>)
    requires Holds(g, ram) && RangeInMemory(g, ram) && imageStart < imageEnd && imageStart % PAGE_SIZE == 0
    requires ImageInside(g.base, g.total, imageStart, imageEnd)
    requires imageStart <= g.area && g.area + BitmapBytes(g.total) <= imageEnd
    ensures var ram0 := BootIn(g, ram, imageStart, imageEnd);
            var m, y := RunIn(g, Machine(ram0, {}, {}), ops), Run(Booted(StateOf(g, ram0)), ops);
            && Shows(g, m, y) && Inv(y)
            && (forall k: nat :: k < 8 * BitmapBytes(g.total) ==> (BitIn(g, m.ram, k) <==> HasOwner(y, k)))
            && (forall x: nat :: imageStart <= x < imageEnd && !InBitmap(g, x) ==> x < |ram| && m.ram[x] == ram[x])
  {
    var ram0 := BootIn(g, ram, imageStart, imageEnd);
    BootUsed(g, ram, imageStart, imageEnd);
    BootValid(g, ram, imageStart, imageEnd);
    OneMemoryProtectsImage(g, ram0, imageStart, imageEnd, ops);
    forall x: nat | x < |ram| && !InBitmap(g, x) ensures ram0[x] == ram[x] {
      assert Masked(g, ram0)[x] == Masked(g, ram)[x];
    }
  }
}
