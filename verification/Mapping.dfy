/** map_page as a function of the state, and what a successful or failed call does to the flat map. */
module Mapping {
  import opened Arithmetic
  import opened Wrappers
  import opened Descriptors
  import opened DescriptorLayout
  import opened PageSets
  import opened TableTree
  import opened TableSteps

  // ----- the function -------------------------------------------------------

  /** (v_addr >> 39, 30, 21, 12) & 0x1FF for levels 0 to 3. */
  function Index(va: nat, level: nat): (i: nat)
    ensures i < 512
  {
    if level == 0 then va / 0x80_0000_0000 % 512
    else if level == 1 then va / 0x4000_0000 % 512
    else if level == 2 then va / 0x20_0000 % 512
    else va / 0x1000 % 512
  }

  /** Bits 47:12 of a virtual address; bits 63:48 and 11:0 are ignored. */
  function PageNumber(va: nat): (vpn: nat)
    ensures vpn < TWO_36
  {
    va / PAGE_SIZE % TWO_36
  }

  /** Bit b of the page number is bit b + 12 of the address, up to bit 47, whatever the other bits are. */
  lemma PageNumberBits(va: nat, b: nat)
    ensures BitOf(PageNumber(va), b) == if b < 36 then BitOf(va, b + 12) else 0
  {
    var page := va / 0x1000;
    TwelveAndThirtySix();
    Euclid(va, 0x1000);
    Euclid(page, TWO_36);
    HighBits(va % 0x1000, 12, page, b + 12);
    if b < 36 {
      LowBits(page % TWO_36, 36, page / TWO_36, b);
    } else {
      NoHighBits(page % TWO_36, 36, b);
    }
  }

  lemma TwelveAndThirtySix()
    ensures Power(2, 12) == 0x1000 && Power(2, 36) == TWO_36
  {
    assert Power(2, 6) == 64;
    PowerPlus(2, 6, 6);
    PowerPlus(2, 12, 12);
    PowerPlus(2, 24, 12);
  }

  /** get_next_level_table on entry i of table t. */
  function NextLevel(s: State, t: nat, i: nat): (State, Option<nat>)
    requires i < 512
  {
    var e := EntryAt(s.mem, t, i);
    if e.valid == 1 then (s, Some(Address(e)))
    else
      match FirstFit(s.used, s.total, 1)
      case None => (s, None)
      case Some(k) => var s' := LinkTable(s, t, i, k); (s', Some(Address(EntryAt(s'.mem, t, i))))
  }

  /** From a level's table down to level 3, giving up at the first table that is missing and cannot be had. */
  function DescendFrom(s: State, t: nat, va: nat, level: nat): (State, Option<nat>)
    requires level <= 3
    decreases 3 - level
  {
    if level == 3 then (s, Some(t))
    else
      var (s', next) := NextLevel(s, t, Index(va, level));
      if next.None? then (s', None) else DescendFrom(s', next.value, va, level + 1)
  }

  function Descend(s: State, root: nat, va: nat): (State, Option<nat>)
  {
    DescendFrom(s, root, va, 0)
  }

  function MapPage(s: State, root: nat, va: nat, pa: nat, perms: Permissions): (State, bool)
  {
    if pa % PAGE_SIZE != 0 then (s, false)
    else
      var (s3, t3) := Descend(s, root, va);
      if t3.None? then (s3, false)
      else (WriteLeaf(s3, t3.value, Index(va, 3), LeafEntry(pa, perms)), true)
  }

  // ----- the path to a page -------------------------------------------------

  /** The prefix of a page number that picks its table at each level. */
  function Prefix(vpn: nat, level: nat): nat
  {
    if level == 0 then vpn / 0x10_0000_0000
    else if level == 1 then vpn / 0x800_0000
    else if level == 2 then vpn / 0x4_0000
    else vpn / 512
  }

  function PathTable(mem: Memory, root: nat, vpn: nat, level: nat): Option<nat>
  {
    Walk(mem, root, level, Prefix(vpn, level))
  }

  /** Shifting a page number right by some of its bits, whether or not bits above 36 were dropped first. */
  lemma ShiftedField(x: nat)
    ensures x % TWO_36 / 0x800_0000 == x / 0x800_0000 % 512
    ensures x % TWO_36 / 0x4_0000 % 512 == x / 0x4_0000 % 512
    ensures x % TWO_36 / 512 % 512 == x / 512 % 512
    ensures x % TWO_36 % 512 == x % 512
  {
    LowPart(x, 0x800_0000, 512);
    LowPart(x, 0x4_0000, 0x4_0000);
    LowPart(x / 0x4_0000, 512, 512);
    LowPart(x, 512, 0x800_0000);
    LowPart(x / 512, 512, 0x4_0000);
  }

  lemma PrefixesNest(vpn: nat)
    requires vpn < TWO_36
    ensures Prefix(vpn, 0) == 0
    ensures Prefix(vpn, 1) / 512 == Prefix(vpn, 0) && Prefix(vpn, 1) < 512
    ensures Prefix(vpn, 2) / 512 == Prefix(vpn, 1)
    ensures Prefix(vpn, 3) / 512 == Prefix(vpn, 2)
    ensures Prefix(vpn, 3) == vpn / 512
  {
  }

  lemma ShiftTwice(va: nat)
    ensures va / 0x80_0000_0000 == va / 0x1000 / 0x800_0000
    ensures va / 0x4000_0000 == va / 0x1000 / 0x4_0000
    ensures va / 0x20_0000 == va / 0x1000 / 512
  {
  }

  /** The four indices of an address, one after the other, spell its page number. */
  lemma IndicesSpellPrefixes(va: nat)
    ensures var vpn := PageNumber(va);
            && Index(va, 0) == Prefix(vpn, 1) % 512
            && Index(va, 1) == Prefix(vpn, 2) % 512
            && Index(va, 2) == Prefix(vpn, 3) % 512
            && Index(va, 3) == vpn % 512
  {
    ShiftTwice(va);
    ShiftedField(va / PAGE_SIZE);
    PrefixesNest(PageNumber(va));
  }

  /** How many of the tables below a level are missing on the path to a page. */
  function MissingBelow(mem: Memory, root: nat, vpn: nat, level: nat): (n: nat)
    requires level <= 3
    ensures n <= 3 - level
    decreases 3 - level
  {
    if level == 3 then 0
    else (if PathTable(mem, root, vpn, level + 1).None? then 1 else 0) + MissingBelow(mem, root, vpn, level + 1)
  }

  function Missing(mem: Memory, root: nat, vpn: nat): nat
  {
    MissingBelow(mem, root, vpn, 0)
  }

  function Free(s: State): int
  {
    FreeCount(s.used, s.total)
  }

  // ----- growth: what linking tables on one path may do ---------------------

  /** The tables of s are kept, and any new one is on the path to vpn. */
  ghost predicate KeepsTables(s: State, s': State, root: nat, vpn: nat)
  {
    && (forall l: nat, p :: l <= 3 && Walk(s.mem, root, l, p).Some? ==> Walk(s'.mem, root, l, p) == Walk(s.mem, root, l, p))
    && (forall l: nat, p :: l <= 3 && Walk(s'.mem, root, l, p).Some? && Walk(s.mem, root, l, p).None? ==> p == Prefix(vpn, l))
  }

  ghost predicate SameMap(s: State, s': State, root: nat)
  {
    forall v: nat :: Translate(s'.mem, root, v) == Translate(s.mem, root, v)
  }

  /** Only tables on the path to vpn are written. */
  ghost predicate WritesPath(s: State, s': State, root: nat, vpn: nat)
  {
    && s'.mem.Keys == s.mem.Keys
    && forall a :: a in s.mem && s'.mem[a] != s.mem[a] ==> exists l: nat :: l <= 3 && PathTable(s'.mem, root, vpn, l) == Some(a)
  }

  /** Only pages that become tables on the path are taken. */
  ghost predicate TakesTables(s: State, s': State, root: nat, vpn: nat)
  {
    && s.used <= s'.used
    && forall k :: k in s'.used && k !in s.used ==>
         exists l: nat :: l <= 3 && PathTable(s.mem, root, vpn, l).None? && PathTable(s'.mem, root, vpn, l) == Some(PageAddr(s.base, k))
  }

  /** Tables that were missing on the path are pages that were free. */
  ghost predicate NewTablesWereFree(s: State, s': State, root: nat, vpn: nat)
  {
    forall l: nat :: l <= 3 && PathTable(s.mem, root, vpn, l).None? && PathTable(s'.mem, root, vpn, l).Some? ==>
      Unowned(s, PathTable(s'.mem, root, vpn, l).value)
  }

  ghost predicate Grew(s: State, s': State, root: nat, vpn: nat)
  {
    && WellFormed(s', root) && s'.base == s.base && s'.total == s.total
    && KeepsTables(s, s', root, vpn) && SameMap(s, s', root)
    && WritesPath(s, s', root, vpn) && TakesTables(s, s', root, vpn) && NewTablesWereFree(s, s', root, vpn)
  }

  lemma GrewRefl(s: State, root: nat, vpn: nat)
    requires WellFormed(s, root)
    ensures Grew(s, s, root, vpn)
  {
  }

  lemma WritesTrans(s0: State, s1: State, s2: State, root: nat, vpn: nat)
    requires WritesPath(s0, s1, root, vpn) && WritesPath(s1, s2, root, vpn) && KeepsTables(s1, s2, root, vpn)
    ensures WritesPath(s0, s2, root, vpn)
  {
    forall a | a in s0.mem && s2.mem[a] != s0.mem[a]
      ensures exists l: nat :: l <= 3 && PathTable(s2.mem, root, vpn, l) == Some(a)
    {
      if s2.mem[a] == s1.mem[a] {
        var l: nat :| l <= 3 && PathTable(s1.mem, root, vpn, l) == Some(a);
        assert PathTable(s2.mem, root, vpn, l) == Some(a);
      }
    }
  }

  lemma TakesTrans(s0: State, s1: State, s2: State, root: nat, vpn: nat)
    requires s1.base == s0.base
    requires TakesTables(s0, s1, root, vpn) && TakesTables(s1, s2, root, vpn)
    requires KeepsTables(s0, s1, root, vpn) && KeepsTables(s1, s2, root, vpn)
    ensures TakesTables(s0, s2, root, vpn)
  {
    forall k | k in s2.used && k !in s0.used
      ensures exists l: nat ::
          l <= 3 && PathTable(s0.mem, root, vpn, l).None? && PathTable(s2.mem, root, vpn, l) == Some(PageAddr(s0.base, k))
    {
      if k in s1.used {
        var l: nat :| l <= 3 && PathTable(s0.mem, root, vpn, l).None? && PathTable(s1.mem, root, vpn, l) == Some(PageAddr(s0.base, k));
        assert PathTable(s2.mem, root, vpn, l) == Some(PageAddr(s0.base, k));
      } else {
        var l: nat :| l <= 3 && PathTable(s1.mem, root, vpn, l).None? && PathTable(s2.mem, root, vpn, l) == Some(PageAddr(s1.base, k));
        assert PathTable(s0.mem, root, vpn, l).None?;
      }
    }
  }

  lemma NewTablesTrans(s0: State, s1: State, s2: State, root: nat, vpn: nat)
    requires s1.base == s0.base && s1.total == s0.total && s0.used <= s1.used
    requires KeepsTables(s0, s1, root, vpn) && KeepsTables(s1, s2, root, vpn)
    requires NewTablesWereFree(s0, s1, root, vpn) && NewTablesWereFree(s1, s2, root, vpn)
    ensures NewTablesWereFree(s0, s2, root, vpn)
  {
    forall l: nat | l <= 3 && PathTable(s0.mem, root, vpn, l).None? && PathTable(s2.mem, root, vpn, l).Some?
      ensures Unowned(s0, PathTable(s2.mem, root, vpn, l).value)
    {
      if PathTable(s1.mem, root, vpn, l).None? {
        var k: nat :| k < s1.total && k !in s1.used && PathTable(s2.mem, root, vpn, l).value == PageAddr(s1.base, k);
        assert k !in s0.used;
      }
    }
  }

  lemma GrewTrans(s0: State, s1: State, s2: State, root: nat, vpn: nat)
    requires Grew(s0, s1, root, vpn) && Grew(s1, s2, root, vpn)
    ensures Grew(s0, s2, root, vpn)
  {
    WritesTrans(s0, s1, s2, root, vpn);
    TakesTrans(s0, s1, s2, root, vpn);
    NewTablesTrans(s0, s1, s2, root, vpn);
  }

  lemma LinkWrites(s: State, root: nat, vpn: nat, level: nat, t: nat, k: nat)
    requires CanLink(s, root, level, Prefix(vpn, level), t, k) && vpn < TWO_36
    ensures WritesPath(s, LinkTable(s, t, Prefix(vpn, level) % 512, k), root, vpn)
    ensures PathTable(LinkTable(s, t, Prefix(vpn, level) % 512, k).mem, root, vpn, level) == Some(PageAddr(s.base, k))
    ensures PathTable(s.mem, root, vpn, level).None?
  {
    var prefix := Prefix(vpn, level);
    var s' := LinkTable(s, t, prefix % 512, k);
    PrefixesNest(vpn);
    LinkWalk(s, root, level, prefix, t, k, level, prefix);
    LinkWalk(s, root, level, prefix, t, k, level - 1, prefix / 512);
    assert PathTable(s'.mem, root, vpn, level) == Some(PageAddr(s.base, k));
    assert PathTable(s'.mem, root, vpn, level - 1) == Some(t);
    PageAddrFits(s, k);
  }

  /** Linking one missing table on the path is growth. */
  lemma LinkGrew(s: State, root: nat, vpn: nat, level: nat, t: nat, k: nat)
    requires CanLink(s, root, level, Prefix(vpn, level), t, k) && vpn < TWO_36
    ensures Grew(s, LinkTable(s, t, Prefix(vpn, level) % 512, k), root, vpn)
  {
    var prefix := Prefix(vpn, level);
    var s' := LinkTable(s, t, prefix % 512, k);
    LinkWellFormed(s, root, level, prefix, t, k);
    LinkWrites(s, root, vpn, level, t, k);
    forall l: nat, p | l <= 3
      ensures Walk(s'.mem, root, l, p) == if l == level && p == prefix then Some(PageAddr(s.base, k)) else Walk(s.mem, root, l, p)
    {
      LinkWalk(s, root, level, prefix, t, k, l, p);
    }
    forall v: nat ensures Translate(s'.mem, root, v) == Translate(s.mem, root, v) {
      LinkTranslate(s, root, level, prefix, t, k, v);
    }
    assert TakesTables(s, s', root, vpn) by {
      assert s'.used == s.used + {k};
    }
    assert Unowned(s, PageAddr(s.base, k));
  }

  // ----- one level of the descent -------------------------------------------

  /** The tables at every level but one are as they were. */
  ghost predicate OtherLevelsKept(s: State, s': State, root: nat, vpn: nat, level: nat)
  {
    forall l: nat :: l <= 3 && l != level ==> PathTable(s'.mem, root, vpn, l) == PathTable(s.mem, root, vpn, l)
  }

  /**
   * get_next_level_table returns the table below, linking a fresh one when it is missing. It fails exactly
   * when the table is missing and no page is free, and takes a page exactly when it links one.
   */
  lemma NextLevelStep(s: State, root: nat, vpn: nat, level: nat, t: nat)
    requires WellFormed(s, root) && vpn < TWO_36 && 1 <= level <= 3
    requires PathTable(s.mem, root, vpn, level - 1) == Some(t)
    ensures var (s', r) := NextLevel(s, t, Prefix(vpn, level) % 512);
            var missing := PathTable(s.mem, root, vpn, level).None?;
            && Grew(s, s', root, vpn)
            && OtherLevelsKept(s, s', root, vpn, level)
            && (r.None? <==> missing && Free(s) == 0)
            && (r.None? ==> s' == s)
            && (r.Some? ==> PathTable(s'.mem, root, vpn, level) == r)
            && (r.Some? ==> Free(s') == Free(s) - if missing then 1 else 0)
  {
    var prefix := Prefix(vpn, level);
    PrefixesNest(vpn);
    assert TableOk(s, root, level - 1, t);
    assert InnerForm(s.mem[t][prefix % 512]);
    OnePageFits(s.used, s.total);
    RangeSize(0, s.total);
    SubsetSize(s.used, Range(0, s.total));
    GrewRefl(s, root, vpn);
    if EntryAt(s.mem, t, prefix % 512).valid == 0 && FirstFit(s.used, s.total, 1).Some? {
      NextLevelLinks(s, root, vpn, level, t, FirstFit(s.used, s.total, 1).value);
    }
  }

  lemma NextLevelLinks(s: State, root: nat, vpn: nat, level: nat, t: nat, k: nat)
    requires CanLink(s, root, level, Prefix(vpn, level), t, k) && vpn < TWO_36
    ensures var s' := LinkTable(s, t, Prefix(vpn, level) % 512, k);
            && Grew(s, s', root, vpn)
            && OtherLevelsKept(s, s', root, vpn, level)
            && PathTable(s'.mem, root, vpn, level) == Some(PageAddr(s.base, k))
            && Address(EntryAt(s'.mem, t, Prefix(vpn, level) % 512)) == PageAddr(s.base, k)
            && Free(s') == Free(s) - 1
  {
    var prefix := Prefix(vpn, level);
    var s' := LinkTable(s, t, prefix % 512, k);
    LinkGrew(s, root, vpn, level, t, k);
    LinkWrites(s, root, vpn, level, t, k);
    assert TableOk(s, root, level - 1, t);
    FreePageIsNoTable(s, root, k, level - 1, prefix / 512);
    PageAddrFits(s, k);
    LinkEntry(s, t, prefix % 512, k, t, prefix % 512);
    assert |s'.used| == |s.used| + 1;
    forall l: nat | l <= 3 && l != level
      ensures PathTable(s'.mem, root, vpn, l) == PathTable(s.mem, root, vpn, l)
    {
      LinkWalk(s, root, level, prefix, t, k, l, Prefix(vpn, l));
    }
  }

  // ----- map_page -----------------------------------------------------------

  lemma {:induction false} MissingKept(s: State, s': State, root: nat, vpn: nat, level: nat, l: nat)
    requires OtherLevelsKept(s, s', root, vpn, level) && level <= l <= 3
    ensures MissingBelow(s'.mem, root, vpn, l) == MissingBelow(s.mem, root, vpn, l)
    decreases 3 - l
  {
    if l < 3 {
      MissingKept(s, s', root, vpn, level, l + 1);
    }
  }

  lemma IndexIsPrefix(va: nat, level: nat)
    requires level < 3
    ensures Index(va, level) == Prefix(PageNumber(va), level + 1) % 512
  {
    IndicesSpellPrefixes(va);
  }

  /** One step takes a page exactly when the next table is missing, and then one table fewer is missing below. */
  lemma DescentStep(s: State, root: nat, va: nat, level: nat, t: nat)
    requires WellFormed(s, root) && level < 3 && PathTable(s.mem, root, PageNumber(va), level) == Some(t)
    ensures var vpn, (s1, next) := PageNumber(va), NextLevel(s, t, Index(va, level));
            && Grew(s, s1, root, vpn)
            && (next.None? ==> s1 == s && Free(s) == 0 < MissingBelow(s.mem, root, vpn, level))
            && (next.Some? ==>
                  && PathTable(s1.mem, root, vpn, level + 1) == next
                  && Free(s1) - MissingBelow(s1.mem, root, vpn, level + 1) == Free(s) - MissingBelow(s.mem, root, vpn, level))
  {
    var vpn := PageNumber(va);
    IndexIsPrefix(va, level);
    NextLevelStep(s, root, vpn, level + 1, t);
    MissingKept(s, NextLevel(s, t, Index(va, level)).0, root, vpn, level + 1, level + 1);
  }

  /** The descent succeeds exactly when no more tables are missing below than pages are free, and takes that many. */
  lemma {:induction false} Descent(s: State, root: nat, va: nat, level: nat, t: nat)
    requires WellFormed(s, root) && level <= 3 && PathTable(s.mem, root, PageNumber(va), level) == Some(t)
    ensures var vpn, (s', r) := PageNumber(va), DescendFrom(s, t, va, level);
            && Grew(s, s', root, vpn)
            && (r.Some? <==> MissingBelow(s.mem, root, vpn, level) <= Free(s))
            && (r.Some? ==> Free(s') == Free(s) - MissingBelow(s.mem, root, vpn, level))
            && (r.Some? ==> PathTable(s'.mem, root, vpn, 3) == r)
            && (r.None? ==> Free(s') == 0)
    decreases 3 - level
  {
    var vpn := PageNumber(va);
    FreeIsNatural(s, root);
    GrewRefl(s, root, vpn);
    if level < 3 {
      var (s1, next) := NextLevel(s, t, Index(va, level));
      DescentStep(s, root, va, level, t);
      if next.Some? {
        Descent(s1, root, va, level + 1, next.value);
        GrewTrans(s, s1, DescendFrom(s, t, va, level).0, root, vpn);
      }
    }
  }

  /** The walk from the root starts the descent, and a path that reaches level 3 is complete. */
  lemma PathStarts(s: State, root: nat, va: nat)
    ensures PathTable(s.mem, root, PageNumber(va), 0) == Some(root)
    ensures PathTable(s.mem, root, PageNumber(va), 3).Some? ==>
              forall l: nat :: l <= 3 ==> PathTable(s.mem, root, PageNumber(va), l).Some?
  {
    var vpn := PageNumber(va);
    PrefixesNest(vpn);
    if PathTable(s.mem, root, vpn, 3).Some? {
      assert PathTable(s.mem, root, vpn, 2).Some?;
      assert PathTable(s.mem, root, vpn, 1).Some?;
    }
  }

  lemma FreeIsNatural(s: State, root: nat)
    requires WellFormed(s, root)
    ensures 0 <= Free(s)
  {
    RangeSize(0, s.total);
    SubsetSize(s.used, Range(0, s.total));
  }

  /** What a page maps to after map_page put it at `pa` with `perms`. */
  function Mapped(pa: nat, perms: Permissions): Mapping
  {
    MappingOf(LeafEntry(pa, perms))
  }

  lemma WriteLeafAtPath(s: State, root: nat, va: nat, pa: nat, perms: Permissions, t: nat)
    requires WellFormed(s, root) && pa % PAGE_SIZE == 0
    requires PathTable(s.mem, root, PageNumber(va), 3) == Some(t)
    ensures var s' := WriteLeaf(s, t, Index(va, 3), LeafEntry(pa, perms));
            && WellFormed(s', root)
            && (forall v: nat ::
                  Translate(s'.mem, root, v) == if v == PageNumber(va) then Some(Mapped(pa, perms)) else Translate(s.mem, root, v))
            && (forall l: nat, p :: l <= 3 ==> Walk(s'.mem, root, l, p) == Walk(s.mem, root, l, p))
            && t in s.mem && s'.mem.Keys == s.mem.Keys
            && forall a :: a in s.mem && a != t ==> s'.mem[a] == s.mem[a]
  {
    var vpn, e := PageNumber(va), LeafEntry(pa, perms);
    IndicesSpellPrefixes(va);
    PrefixesNest(vpn);
    LeafEntryMeaning(pa, perms);
    LeafWellFormed(s, root, vpn, t, e);
    var s' := WriteLeaf(s, t, vpn % 512, e);
    forall v: nat
      ensures Translate(s'.mem, root, v) == if v == vpn then Some(Mapped(pa, perms)) else Translate(s.mem, root, v)
    {
      LeafTranslate(s, root, vpn, t, e, v);
    }
    forall l: nat, p | l <= 3 ensures Walk(s'.mem, root, l, p) == Walk(s.mem, root, l, p) {
      LeafWalk(s, root, vpn, t, e, l, p);
    }
  }

  /**
   * map_page refines an update of the flat map. It succeeds exactly when `pa` is page aligned and no more tables
   * are missing than pages are free, and then takes exactly that many pages; when it fails for want of a page
   * none is left. The tree is well formed either way, and a failed call changes no translation.
   */
  lemma MapPageRefinesFlatMap(s: State, root: nat, va: nat, pa: nat, perms: Permissions)
    requires WellFormed(s, root)
    ensures var vpn, (s', ok) := PageNumber(va), MapPage(s, root, va, pa, perms);
            && WellFormed(s', root)
            && (ok <==> pa % PAGE_SIZE == 0 && Missing(s.mem, root, vpn) <= Free(s))
            && (ok ==> forall v: nat ::
                   Translate(s'.mem, root, v) == if v == vpn then Some(Mapped(pa, perms)) else Translate(s.mem, root, v))
            && (ok ==> Free(s') == Free(s) - Missing(s.mem, root, vpn))
            && (!ok ==> forall v: nat :: Translate(s'.mem, root, v) == Translate(s.mem, root, v))
            && (!ok ==> if pa % PAGE_SIZE == 0 then Free(s') == 0 else s' == s)
  {
    if pa % PAGE_SIZE == 0 {
      PathStarts(s, root, va);
      Descent(s, root, va, 0, root);
      var (s3, t3) := Descend(s, root, va);
      if t3.Some? {
        WriteLeafAtPath(s3, root, va, pa, perms, t3.value);
      }
    }
  }

  /**
   * The tree after map_page: every table is kept, the only new ones are on the path to the page, a successful
   * call completes that path, no frame but a table on the path is written, and every page taken is such a table.
   */
  lemma MapPageTouchesOnlyThePath(s: State, root: nat, va: nat, pa: nat, perms: Permissions)
    requires WellFormed(s, root)
    ensures var vpn, (s', ok) := PageNumber(va), MapPage(s, root, va, pa, perms);
            && s'.base == s.base && s'.total == s.total
            && KeepsTables(s, s', root, vpn)
            && (ok ==> forall l: nat :: l <= 3 ==> PathTable(s'.mem, root, vpn, l).Some?)
            && WritesPath(s, s', root, vpn)
            && TakesTables(s, s', root, vpn)
            && NewTablesWereFree(s, s', root, vpn)
  {
    var vpn := PageNumber(va);
    if pa % PAGE_SIZE == 0 {
      PathStarts(s, root, va);
      Descent(s, root, va, 0, root);
      var (s3, t3) := Descend(s, root, va);
      if t3.Some? {
        WriteLeafAtPath(s3, root, va, pa, perms, t3.value);
        var s' := WriteLeaf(s3, t3.value, Index(va, 3), LeafEntry(pa, perms));
        PathStarts(s3, root, va);
        forall l: nat | l <= 3 ensures PathTable(s'.mem, root, vpn, l) == PathTable(s3.mem, root, vpn, l) {}
        forall a | a in s.mem && s'.mem[a] != s.mem[a]
          ensures exists l: nat :: l <= 3 && PathTable(s'.mem, root, vpn, l) == Some(a)
        {
          if a == t3.value {
            assert PathTable(s'.mem, root, vpn, 3) == Some(a);
          } else {
            var l: nat :| l <= 3 && PathTable(s3.mem, root, vpn, l) == Some(a);
            assert PathTable(s'.mem, root, vpn, l) == Some(a);
          }
        }
        LeafKeepsTaken(s, s3, s', root, vpn);
      }
    }
  }

  lemma LeafKeepsTaken(s: State, s3: State, s': State, root: nat, vpn: nat)
    requires TakesTables(s, s3, root, vpn) && s'.used == s3.used
    requires forall l: nat :: l <= 3 ==> PathTable(s'.mem, root, vpn, l) == PathTable(s3.mem, root, vpn, l)
    ensures TakesTables(s, s', root, vpn)
  {
    forall k | k in s'.used && k !in s.used
      ensures exists l: nat ::
          l <= 3 && PathTable(s.mem, root, vpn, l).None? && PathTable(s'.mem, root, vpn, l) == Some(PageAddr(s.base, k))
    {
      var l: nat :| l <= 3 && PathTable(s.mem, root, vpn, l).None? && PathTable(s3.mem, root, vpn, l) == Some(PageAddr(s.base, k));
      assert PathTable(s'.mem, root, vpn, l) == Some(PageAddr(s.base, k));
    }
  }

  /** The mapping map_page installs: the address modulo 2^48, so the address itself exactly when it fits 48 bits. */
  lemma MappedAddress(pa: nat, perms: Permissions)
    requires pa % PAGE_SIZE == 0
    ensures Mapped(pa, perms).pa == pa % TWO_48
    ensures Mapped(pa, perms).pa == pa <==> pa < TWO_48
  {
    LeafEntryMeaning(pa, perms);
  }

  /** A successful call leaves this raw word in the table, every bit of it. */
  lemma MapPageStoresWord(s: State, root: nat, va: nat, pa: nat, perms: Permissions)
    requires WellFormed(s, root) && MapPage(s, root, va, pa, perms).1
    ensures Value(Leaf(MapPage(s, root, va, pa, perms).0.mem, root, PageNumber(va)))
         == 3 + pa % 0x1_0000_0000_0000
            + 0x2000_0000_0000_0000 * (if !perms.read then 3 else if perms.write then 0 else 1)
            + (if perms.execute then 0 else 0x1800_0000_0000_0000)
  {
    MapPageStoresLeaf(s, root, va, pa, perms);
    LeafWord(pa, perms);
  }

  lemma MapPageStoresLeaf(s: State, root: nat, va: nat, pa: nat, perms: Permissions)
    requires WellFormed(s, root) && MapPage(s, root, va, pa, perms).1
    ensures pa % 0x1000 == 0
    ensures Leaf(MapPage(s, root, va, pa, perms).0.mem, root, PageNumber(va)) == LeafEntry(pa, perms)
  {
    var s' := MapPage(s, root, va, pa, perms).0;
    MapPageRefinesFlatMap(s, root, va, pa, perms);
    MappedLeaf(s', root, PageNumber(va));
    SameLeaf(Leaf(s'.mem, root, PageNumber(va)), pa, perms);
  }

  lemma MappedLeaf(s: State, root: nat, vpn: nat)
    requires WellFormed(s, root) && Translate(s.mem, root, vpn).Some?
    ensures IsLeafEntry(Leaf(s.mem, root, vpn))
  {
    var t := Walk(s.mem, root, 3, vpn / 512).value;
    assert TableOk(s, root, 3, t);
    assert LeafForm(s.mem[t][vpn % 512]);
  }

  /** A leaf is known by its mapping. */
  lemma SameLeaf(e: Pte, pa: nat, perms: Permissions)
    requires IsLeafEntry(e) && MappingOf(e) == Mapped(pa, perms) && pa % PAGE_SIZE == 0
    ensures e == LeafEntry(pa, perms)
  {
    LeafEntryMeaning(pa, perms);
    assert IsLeafEntry(LeafEntry(pa, perms));
  }

  // ----- runs ---------------------------------------------------------------

  datatype Call = Call(va: nat, pa: nat, perms: Permissions)

  /** The state after a sequence of calls, and the calls that succeeded. */
  function RunCalls(s: State, root: nat, calls: seq<Call>): (State, seq<Call>)
  {
    if calls == [] then (s, [])
    else
      var (s1, done) := RunCalls(s, root, calls[..|calls| - 1]);
      var c := calls[|calls| - 1];
      var (s2, ok) := MapPage(s1, root, c.va, c.pa, c.perms);
      (s2, if ok then done + [c] else done)
  }

  /** The mapping of a page under the last of the calls that names it. */
  function LastWrite(done: seq<Call>, vpn: nat, before: Option<Mapping>): Option<Mapping>
  {
    if done == [] then before
    else
      var c := done[|done| - 1];
      if PageNumber(c.va) == vpn then Some(Mapped(c.pa, c.perms)) else LastWrite(done[..|done| - 1], vpn, before)
  }

  /** Any run of map_page calls leaves the flat map of its last successful writes, in a well-formed tree. */
  lemma {:induction false} RunIsLastWriteWins(s: State, root: nat, calls: seq<Call>)
    requires WellFormed(s, root)
    ensures var (s', done) := RunCalls(s, root, calls);
            && WellFormed(s', root)
            && forall v: nat :: Translate(s'.mem, root, v) == LastWrite(done, v, Translate(s.mem, root, v))
  {
    if calls != [] {
      var c := calls[|calls| - 1];
      RunIsLastWriteWins(s, root, calls[..|calls| - 1]);
      var (s1, done) := RunCalls(s, root, calls[..|calls| - 1]);
      MapPageRefinesFlatMap(s1, root, c.va, c.pa, c.perms);
      assert (done + [c])[..|done|] == done;
    }
  }
}
