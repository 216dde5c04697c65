/** The two writes map_page makes, as changes of a well-formed tree. */
module TableSteps {
  import opened Arithmetic
  import opened Wrappers
  import opened Descriptors
  import opened PageSets
  import opened TableTree

  function PutEntry(mem: Memory, t: nat, i: nat, e: Pte): Memory
    requires i < 512
  {
    if t in mem then mem[t := mem[t][i := e]] else mem
  }

  /** Page `k`, zeroed, becomes the table under entry `i` of table `t`. */
  function LinkTable(s: State, t: nat, i: nat, k: nat): State
    requires i < 512
  {
    var a := PageAddr(s.base, k);
    s.(used := s.used + {k}, mem := PutEntry(s.mem[a := ZeroTable()], t, i, SetNextLevelTable(EntryAt(s.mem, t, i), a)))
  }

  /** A missing table at (level, prefix), its parent, and a free page for it. */
  ghost predicate CanLink(s: State, root: nat, level: nat, prefix: nat, t: nat, k: nat)
  {
    && WellFormed(s, root)
    && 1 <= level <= 3
    && Walk(s.mem, root, level - 1, prefix / 512) == Some(t)
    && EntryAt(s.mem, t, prefix % 512).valid == 0
    && k < s.total && k !in s.used
  }

  lemma DistinctPages(base: nat, j: nat, k: nat)
    requires PageAddr(base, j) == PageAddr(base, k)
    ensures j == k
  {
  }

  /** A free page is no table of the tree. */
  lemma FreePageIsNoTable(s: State, root: nat, k: nat, l: nat, p: nat)
    requires WellFormed(s, root) && k < s.total && k !in s.used && l <= 3
    ensures Walk(s.mem, root, l, p) != Some(PageAddr(s.base, k))
  {
    if l > 0 && Walk(s.mem, root, l, p) == Some(PageAddr(s.base, k)) {
      assert TableOk(s, root, l, PageAddr(s.base, k));
      var j :| j in s.used && PageAddr(s.base, k) == PageAddr(s.base, j);
      DistinctPages(s.base, j, k);
      assert false;
    }
  }

  lemma TableIsNotFree(s: State, root: nat, l: nat, p: nat)
    requires WellFormed(s, root) && l <= 3 && Walk(s.mem, root, l, p).Some?
    ensures !Unowned(s, Walk(s.mem, root, l, p).value)
  {
    if Unowned(s, Walk(s.mem, root, l, p).value) {
      var k: nat :| k < s.total && k !in s.used && Walk(s.mem, root, l, p).value == PageAddr(s.base, k);
      FreePageIsNoTable(s, root, k, l, p);
      assert false;
    }
  }

  /** The entries of memory after linking a table. */
  lemma LinkEntry(s: State, t: nat, i: nat, k: nat, x: nat, j: nat)
    requires t in s.mem && i < 512 && j < 512 && t != PageAddr(s.base, k)
    ensures EntryAt(LinkTable(s, t, i, k).mem, x, j)
         == if x == PageAddr(s.base, k) then ZERO_PTE
            else if x == t && j == i then SetNextLevelTable(EntryAt(s.mem, t, i), PageAddr(s.base, k))
            else EntryAt(s.mem, x, j)
  {
  }

  lemma PageAddrFits(s: State, k: nat)
    requires ValidState(s) && k < s.total
    ensures PageAddr(s.base, k) < TWO_48 && PageAddr(s.base, k) % PAGE_SIZE == 0 && PageAddr(s.base, k) > 0
    ensures PageAddr(s.base, k) in s.mem
  {
  }

  /** A table stands at one place only. */
  lemma OnePlace(s: State, root: nat, l: nat, p: nat, l': nat, p': nat)
    requires WellFormed(s, root) && l <= 3 && l' <= 3
    requires Walk(s.mem, root, l, p).Some? && Walk(s.mem, root, l, p) == Walk(s.mem, root, l', p')
    ensures l == l' && p == p'
  {
  }

  /** Linking a table adds exactly one table to the walk. */
  lemma {:induction false} LinkWalk(s: State, root: nat, level: nat, prefix: nat, t: nat, k: nat, l: nat, p: nat)
    requires CanLink(s, root, level, prefix, t, k) && l <= 3
    ensures t in s.mem
    ensures Walk(LinkTable(s, t, prefix % 512, k).mem, root, l, p)
         == if l == level && p == prefix then Some(PageAddr(s.base, k)) else Walk(s.mem, root, l, p)
  {
    assert TableOk(s, root, level - 1, t);
    if l > 0 {
      LinkWalk(s, root, level, prefix, t, k, l - 1, p / 512);
      if Walk(s.mem, root, l - 1, p / 512).Some? {
        LinkBelow(s, root, level, prefix, t, k, l, p);
      }
    }
  }

  /** Below a table of the old tree, linking changes the one entry that is linked. */
  lemma LinkBelow(s: State, root: nat, level: nat, prefix: nat, t: nat, k: nat, l: nat, p: nat)
    requires CanLink(s, root, level, prefix, t, k) && 1 <= l <= 3 && Walk(s.mem, root, l - 1, p / 512).Some?
    ensures var e := EntryAt(LinkTable(s, t, prefix % 512, k).mem, Walk(s.mem, root, l - 1, p / 512).value, p % 512);
            if l == level && p == prefix then e.valid == 1 && Address(e) == PageAddr(s.base, k)
            else e == EntryAt(s.mem, Walk(s.mem, root, l - 1, p / 512).value, p % 512)
  {
    var parent := Walk(s.mem, root, l - 1, p / 512).value;
    assert TableOk(s, root, level - 1, t);
    FreePageIsNoTable(s, root, k, level - 1, prefix / 512);
    FreePageIsNoTable(s, root, k, l - 1, p / 512);
    PageAddrFits(s, k);
    LinkEntry(s, t, prefix % 512, k, parent, p % 512);
    if parent == t {
      OnePlace(s, root, level - 1, prefix / 512, l - 1, p / 512);
    }
  }

  /** The tree after linking a table: still well formed, and standing for the same flat map. */
  lemma LinkTranslate(s: State, root: nat, level: nat, prefix: nat, t: nat, k: nat, vpn: nat)
    requires CanLink(s, root, level, prefix, t, k)
    ensures t in s.mem
    ensures Translate(LinkTable(s, t, prefix % 512, k).mem, root, vpn) == Translate(s.mem, root, vpn)
  {
    LinkWalk(s, root, level, prefix, t, k, level, prefix);
    LinkWalk(s, root, level, prefix, t, k, 3, vpn / 512);
    if Walk(s.mem, root, 3, vpn / 512).Some? {
      FreePageIsNoTable(s, root, k, 3, vpn / 512);
      assert Walk(s.mem, root, 3, vpn / 512) != Walk(s.mem, root, level - 1, prefix / 512);
    }
  }

  lemma LinkOwned(s: State, root: nat, level: nat, prefix: nat, t: nat, k: nat, a: nat)
    requires CanLink(s, root, level, prefix, t, k) && t in s.mem
    ensures Owned(s, a) || a == PageAddr(s.base, k) ==> Owned(LinkTable(s, t, prefix % 512, k), a)
    ensures Unowned(LinkTable(s, t, prefix % 512, k), a) ==> Unowned(s, a)
  {
    var s' := LinkTable(s, t, prefix % 512, k);
    if Owned(s, a) {
      var j :| j in s.used && a == PageAddr(s.base, j);
      assert j in s'.used;
    }
    assert k in s'.used;
  }

  lemma LinkTableOk(s: State, root: nat, level: nat, prefix: nat, t: nat, k: nat, l: nat, p: nat)
    requires CanLink(s, root, level, prefix, t, k) && l <= 3
    ensures t in s.mem
    ensures var s' := LinkTable(s, t, prefix % 512, k);
            Walk(s'.mem, root, l, p).Some? ==> TableOk(s', root, l, Walk(s'.mem, root, l, p).value)
  {
    LinkWalk(s, root, level, prefix, t, k, l, p);
    var s' := LinkTable(s, t, prefix % 512, k);
    if Walk(s'.mem, root, l, p).Some? {
      var x := Walk(s'.mem, root, l, p).value;
      LinkOwned(s, root, level, prefix, t, k, x);
      assert EntriesWellFormed(ZeroTable(), l);
      if x == t {
        assert l == level - 1;
        assert IsTableEntry(SetNextLevelTable(ZERO_PTE, PageAddr(s.base, k)));
      }
    }
  }

  lemma LinkNoSharing(s: State, root: nat, level: nat, prefix: nat, t: nat, k: nat)
    requires CanLink(s, root, level, prefix, t, k)
    ensures t in s.mem && NoSharing(LinkTable(s, t, prefix % 512, k).mem, root)
  {
    LinkWalk(s, root, level, prefix, t, k, 0, 0);
    var mem := LinkTable(s, t, prefix % 512, k).mem;
    forall l: nat, p, l': nat, p' |
      l <= 3 && l' <= 3 && Walk(mem, root, l, p).Some? && Walk(mem, root, l, p) == Walk(mem, root, l', p')
      ensures l == l' && p == p'
    {
      LinkWalk(s, root, level, prefix, t, k, l, p);
      LinkWalk(s, root, level, prefix, t, k, l', p');
      FreePageIsNoTable(s, root, k, l, p);
      FreePageIsNoTable(s, root, k, l', p');
    }
  }

  lemma LinkWellFormed(s: State, root: nat, level: nat, prefix: nat, t: nat, k: nat)
    requires CanLink(s, root, level, prefix, t, k)
    ensures t in s.mem && WellFormed(LinkTable(s, t, prefix % 512, k), root)
  {
    LinkNoSharing(s, root, level, prefix, t, k);
    LinkOwned(s, root, level, prefix, t, k, root);
    var s' := LinkTable(s, t, prefix % 512, k);
    assert s'.used <= Range(0, s'.total);
    forall l: nat, p | l <= 3 && Walk(s'.mem, root, l, p).Some?
      ensures TableOk(s', root, l, Walk(s'.mem, root, l, p).value)
    {
      LinkTableOk(s, root, level, prefix, t, k, l, p);
    }
  }

  // ----- writing a leaf -----------------------------------------------------

  /** Leaf `vpn` of the level-3 table `t` is overwritten. */
  ghost predicate CanWriteLeaf(s: State, root: nat, vpn: nat, t: nat, e: Pte)
  {
    && WellFormed(s, root)
    && Walk(s.mem, root, 3, vpn / 512) == Some(t)
    && IsLeafEntry(e)
  }

  function WriteLeaf(s: State, t: nat, i: nat, e: Pte): State
    requires i < 512
  {
    s.(mem := PutEntry(s.mem, t, i, e))
  }

  lemma {:induction false} LeafWalk(s: State, root: nat, vpn: nat, t: nat, e: Pte, l: nat, p: nat)
    requires CanWriteLeaf(s, root, vpn, t, e) && l <= 3
    ensures t in s.mem
    ensures Walk(WriteLeaf(s, t, vpn % 512, e).mem, root, l, p) == Walk(s.mem, root, l, p)
  {
    assert TableOk(s, root, 3, t);
    if l > 0 {
      LeafWalk(s, root, vpn, t, e, l - 1, p / 512);
      assert Walk(s.mem, root, l - 1, p / 512) != Some(t);
    }
  }

  /** The flat map changes at `vpn` and nowhere else. */
  lemma LeafTranslate(s: State, root: nat, vpn: nat, t: nat, e: Pte, v: nat)
    requires CanWriteLeaf(s, root, vpn, t, e)
    ensures t in s.mem
    ensures Translate(WriteLeaf(s, t, vpn % 512, e).mem, root, v)
         == if v == vpn then Some(MappingOf(e)) else Translate(s.mem, root, v)
  {
    assert TableOk(s, root, 3, t);
    LeafWalk(s, root, vpn, t, e, 3, v / 512);
    if Walk(s.mem, root, 3, v / 512) == Some(t) {
      assert v / 512 == vpn / 512;
    }
  }

  lemma LeafWellFormed(s: State, root: nat, vpn: nat, t: nat, e: Pte)
    requires CanWriteLeaf(s, root, vpn, t, e)
    ensures t in s.mem && WellFormed(WriteLeaf(s, t, vpn % 512, e), root)
  {
    assert TableOk(s, root, 3, t);
    var s' := WriteLeaf(s, t, vpn % 512, e);
    forall l: nat, p | l <= 3
      ensures Walk(s'.mem, root, l, p) == Walk(s.mem, root, l, p)
    {
      LeafWalk(s, root, vpn, t, e, l, p);
    }
    forall l: nat, p | l <= 3 && Walk(s'.mem, root, l, p).Some?
      ensures TableOk(s', root, l, Walk(s'.mem, root, l, p).value)
    {
      var x := Walk(s'.mem, root, l, p).value;
      assert TableOk(s, root, l, x);
      LeafOwned(s, s', x);
      if x == t {
        assert l == 3;
      }
    }
    if Unowned(s', root) {
      LeafOwned(s, s', root);
    }
  }

  lemma LeafOwned(s: State, s': State, a: nat)
    requires s'.base == s.base && s'.used == s.used && s'.total == s.total
    ensures Owned(s, a) == Owned(s', a) && Unowned(s, a) == Unowned(s', a)
  {
  }
}
