/** The page-table code over the allocator and physical memory. */
module PageTable {
  import opened Arithmetic
  import opened Wrappers
  import opened Descriptors
  import opened PageSets
  import opened PageAllocator
  import opened TableTree
  import opened TableSteps
  import opened Mapping
  import opened Dump

  const KERNEL_BASE_VA: nat := 0

  function VaToPa(va: nat): int
  {
    va - KERNEL_BASE_VA
  }

  function PaToVa(pa: nat): nat
  {
    KERNEL_BASE_VA + pa
  }

  /**
   * The kernel's memory and its page allocator. A pointer to a table is the table's address, 0 is NULL. A pointer
   * to an entry is modelled by passing the entry in and out: the caller that holds a pointer into a table stores
   * the result back, the caller that holds a pointer to a local copy does not.
   */
  class Kernel {
    const pages: Allocator
    var mem: Memory
    var log: seq<Record>

    ghost function View(): State
      reads this, pages, pages.bitmapArea
      requires pages.Valid()
    {
      State(pages.memBase, pages.totalPages, pages.Used(), mem)
    }

    ghost predicate Valid()
      reads this, pages, pages.bitmapArea
    {
      pages.Valid() && ValidState(View())
    }

    constructor (pages: Allocator, mem: Memory)
      ensures this.pages == pages && this.mem == mem && log == []
    {
      this.pages := pages;
      this.mem := mem;
      log := [];
    }

    method PageTableInit(table: nat)
      requires table in mem
      modifies `mem
      ensures mem == old(mem)[table := ZeroTable()]
    {
      for i := 0 to 512
        invariant table in mem && mem == old(mem)[table := mem[table]]
        invariant forall j :: 0 <= j < i ==> mem[table][j] == ZERO_PTE
      {
        mem := mem[table := mem[table][i := ZERO_PTE]];
      }
      assert mem[table] == ZeroTable();
    }

    /** Takes and clears the lowest free page and points the entry at it; without a free page nothing changes. */
    method AllocateNewTable(entry: Pte) returns (ok: bool, entry': Pte)
      requires Valid()
      modifies `mem, pages`bits, pages.bitmapArea
      ensures Valid()
      ensures match FirstFit(old(View()).used, old(View()).total, 1)
              case None => !ok && entry' == entry && View() == old(View())
              case Some(k) =>
                && ok
                && entry' == SetNextLevelTable(entry, PageAddr(old(View()).base, k))
                && View() == old(View()).(used := old(View()).used + {k}, mem := old(mem)[PageAddr(old(View()).base, k) := ZeroTable()])
    {
      ghost var s := View();
      var newTable := pages.PageAlloc(1);
      if newTable == 0 {
        return false, entry;
      }
      ghost var k := FirstFit(s.used, s.total, 1).value;
      assert newTable == PageAddr(s.base, k);
      assert Range(k, 1) == {k};
      PageTableInit(newTable);
      var physAddr := VaToPa(newTable);
      return true, SetNextLevelTable(entry, physAddr);
    }

    /** The table an entry points at; an invalid entry gets a new table first. NULL when no page is free for it. */
    method GetNextLevelTable(entry: Pte) returns (next: nat, entry': Pte)
      requires Valid()
      modifies `mem, pages`bits, pages.bitmapArea
      ensures Valid()
      ensures entry.valid == 1 ==> unchanged(this, pages, pages.bitmapArea) && entry' == entry && next == Address(entry)
      ensures entry.valid == 0 ==>
                match FirstFit(old(View()).used, old(View()).total, 1)
                case None => next == 0 && entry' == entry && View() == old(View())
                case Some(k) =>
                  && entry' == SetNextLevelTable(entry, PageAddr(old(View()).base, k))
                  && next == Address(entry')
                  && View() == old(View()).(used := old(View()).used + {k}, mem := old(mem)[PageAddr(old(View()).base, k) := ZeroTable()])
    {
      entry' := entry;
      if entry.valid == 0 {
        var ok;
        ok, entry' := AllocateNewTable(entry);
        if !ok {
          return 0, entry';
        }
      }
      var nextTableAddr := Address(entry');
      next := PaToVa(nextTableAddr);
    }

    /** get_next_level_table(&t->entries[i]), its result stored back into the table. */
    method UpdateEntry(t: nat, i: nat) returns (next: nat)
      requires Valid() && t in mem && i < 512 && !Unowned(View(), t)
      requires mem[t][i].valid == 0 ==> mem[t][i] == ZERO_PTE
      modifies `mem, pages`bits, pages.bitmapArea
      ensures Valid()
      ensures var (s', r) := NextLevel(old(View()), t, i);
              View() == s' && next == match r case None => 0 case Some(a) => a
    {
      ghost var s := View();
      ghost var k := FirstFit(s.used, s.total, 1);
      var entry := mem[t][i];
      var entry';
      next, entry' := GetNextLevelTable(entry);
      mem := mem[t := mem[t][i := entry']];
      if entry.valid == 1 || k.None? {
        PutSame(s.mem, t, i);
      } else {
        assert Unowned(s, PageAddr(s.base, k.value));
        PutLinks(s, t, i, k.value);
      }
    }

    /** One level of the descent, in place. */
    method NextTable(t: nat, i: nat, ghost root: nat, ghost level: nat, ghost vpn: nat) returns (next: nat)
      requires Valid() && t in mem && i < 512
      requires WellFormed(View(), root) && vpn < TWO_36 && 1 <= level <= 3
      requires PathTable(mem, root, vpn, level - 1) == Some(t) && i == Prefix(vpn, level) % 512
      modifies `mem, pages`bits, pages.bitmapArea
      ensures Valid() && WellFormed(View(), root)
      ensures var (s', r) := NextLevel(old(View()), t, i);
              && View() == s'
              && (next == 0 <==> r.None?)
              && (next != 0 ==> r == Some(next) && next in mem && PathTable(mem, root, vpn, level) == Some(next))
    {
      NextLevelStep(View(), root, vpn, level, t);
      TableIsReal(View(), root, level - 1, Prefix(vpn, level - 1));
      TableIsNotFree(View(), root, level - 1, Prefix(vpn, level - 1));
      ghost var r := NextLevel(View(), t, i).1;
      next := UpdateEntry(t, i);
      if r.Some? {
        TableIsReal(View(), root, level, Prefix(vpn, level));
      }
    }

    /** The level-3 table of `va`, or NULL at the first level where no table can be had. */
    method Descend(root: nat, va: nat) returns (level3: nat)
      requires Valid() && WellFormed(View(), root) && root in mem
      modifies `mem, pages`bits, pages.bitmapArea
      ensures Valid() && WellFormed(View(), root)
      ensures (View(), if level3 == 0 then None else Some(level3)) == Mapping.Descend(old(View()), root, va)
      ensures level3 != 0 ==> level3 in mem
    {
      ghost var vpn := PageNumber(va);
      IndicesSpellPrefixes(va);
      PrefixesNest(vpn);
      var l0, l1, l2 := va / 0x80_0000_0000 % 512, va / 0x4000_0000 % 512, va / 0x20_0000 % 512;
      var level1 := NextTable(root, l0, root, 1, vpn);
      if level1 == 0 {
        return 0;
      }
      var level2 := NextTable(level1, l1, root, 2, vpn);
      if level2 == 0 {
        return 0;
      }
      level3 := NextTable(level2, l2, root, 3, vpn);
    }

    /** Maps the page of `va` to `pa`, linking missing tables on the way. */
    method MapPage(root: nat, va: nat, pa: nat, perms: Permissions) returns (ok: bool)
      requires Valid() && WellFormed(View(), root) && root in mem
      modifies `mem, pages`bits, pages.bitmapArea
      ensures Valid() && WellFormed(View(), root)
      ensures (View(), ok) == Mapping.MapPage(old(View()), root, va, pa, perms)
    {
      ghost var s := View();
      MapPageRefinesFlatMap(s, root, va, pa, perms);
      if pa % PAGE_SIZE != 0 {
        return false;
      }
      var level3 := Descend(root, va);
      if level3 == 0 {
        return false;
      }
      WriteLeafEntry(level3, va / 0x1000 % 512, pa, perms);
      assert View() == WriteLeaf(Mapping.Descend(s, root, va).0, level3, Index(va, 3), LeafEntry(pa, perms));
      return true;
    }

    /** map_page's last step: the leaf is cleared and its fields set one by one. */
    method WriteLeafEntry(t: nat, i: nat, pa: nat, perms: Permissions)
      requires t in mem && i < 512
      modifies `mem
      ensures mem == PutEntry(old(mem), t, i, LeafEntry(pa, perms))
    {
      var e := ZERO_PTE;
      e := SetAddress(e, pa);
      e := e.(valid := 1);
      e := e.(table := 1);
      if perms.execute {
        e := e.(xn_table := 0, pxn_table := 0);
      } else {
        e := e.(xn_table := 1, pxn_table := 1);
      }
      if perms.write {
        e := e.(ap_table := EL0_RW_EL1_RW);
      } else {
        e := e.(ap_table := EL0_RO_EL1_RO);
      }
      if !perms.read {
        e := e.(ap_table := EL0_NONE_EL1_RO);
      }
      mem := mem[t := mem[t][i := e]];
    }

    /** Appends one record for every page mapped below `table`; memory and bitmap stay as they are. */
    method DumpMemoryMapRecursive(table: nat, level: nat, prefix: nat)
      requires Valid() && level <= 3
      modifies this, pages`bits, pages.bitmapArea
      ensures Valid() && mem == old(mem) && unchanged(pages, pages.bitmapArea)
      ensures log == old(log) + DumpEntries(mem, table, level, prefix, 512)
      decreases 3 - level, 1
    {
      for i := 0 to 512
        invariant Valid() && mem == old(mem) && unchanged(pages, pages.bitmapArea)
        invariant log == old(log) + DumpEntries(old(mem), table, level, prefix, i)
      {
        ghost var sofar := DumpEntries(mem, table, level, prefix, i);
        DumpOne(table, level, prefix, i);
        AppendAssociates(old(log), sofar, DumpEntry(mem, table, level, prefix, i));
      }
    }

    /** The body of the dump's loop. */
    method DumpOne(table: nat, level: nat, prefix: nat, i: nat)
      requires Valid() && level <= 3 && i < 512
      modifies this, pages`bits, pages.bitmapArea
      ensures Valid() && mem == old(mem) && unchanged(pages, pages.bitmapArea)
      ensures log == old(log) + DumpEntry(mem, table, level, prefix, i)
      decreases 3 - level, 0
    {
      var entry := EntryAt(mem, table, i);
      if entry.valid == 0 {
        return;
      }
      var partial := PartialAddress(level, i, prefix);
      if level < 3 {
        var nextTable, copy := GetNextLevelTable(entry);
        DumpMemoryMapRecursive(nextTable, level + 1, partial);
      } else {
        log := log + [Record(partial, entry)];
      }
    }

    method DumpMemoryMap(root: nat)
      requires Valid()
      modifies this, pages`bits, pages.bitmapArea
      ensures Valid() && mem == old(mem) && unchanged(pages, pages.bitmapArea)
      ensures log == old(log) + DumpAll(mem, root)
    {
      DumpMemoryMapRecursive(root, 0, 0);
    }
  }

  lemma AppendAssociates(a: seq<Record>, b: seq<Record>, c: seq<Record>)
    ensures (a + b) + c == a + (b + c)
  {
  }

  lemma PutSame(mem: Memory, t: nat, i: nat)
    requires t in mem && i < 512
    ensures mem[t := mem[t][i := mem[t][i]]] == mem
  {
    assert mem[t][i := mem[t][i]] == mem[t];
  }

  /** Clearing the page and then storing the entry is what linking a table does to memory. */
  lemma PutLinks(s: State, t: nat, i: nat, k: nat)
    requires t in s.mem && i < 512 && t != PageAddr(s.base, k)
    ensures var mem := s.mem[PageAddr(s.base, k) := ZeroTable()];
            mem[t := mem[t][i := SetNextLevelTable(s.mem[t][i], PageAddr(s.base, k))]] == LinkTable(s, t, i, k).mem
  {
  }

  /** Tables of a well-formed tree are memory frames, and below the root their addresses are not NULL. */
  lemma TableIsReal(s: State, root: nat, level: nat, prefix: nat)
    requires WellFormed(s, root) && level <= 3 && Walk(s.mem, root, level, prefix).Some?
    ensures Walk(s.mem, root, level, prefix).value in s.mem
    ensures level > 0 ==> Walk(s.mem, root, level, prefix).value > 0
    ensures forall i :: 0 <= i < 512 ==> var e := s.mem[Walk(s.mem, root, level, prefix).value][i]; e.valid == 0 ==> e == ZERO_PTE
  {
    var t := Walk(s.mem, root, level, prefix).value;
    assert TableOk(s, root, level, t);
    if level > 0 {
      var k :| k in s.used && t == PageAddr(s.base, k);
    }
  }
}
