/** Page tables in physical memory: what a tree of them means, and when it is well formed. */
module TableTree {
  import opened Arithmetic
  import opened Wrappers
  import opened Descriptors
  import opened PageSets

  type Table = t: seq<Pte> | |t| == 512 witness seq(512, _ => ZERO_PTE)

  /** What page_table_init leaves behind. */
  function ZeroTable(): (t: Table)
    ensures forall i :: 0 <= i < 512 ==> t[i] == ZERO_PTE
  {
    seq(512, _ => ZERO_PTE)
  }

  /** The 4 KiB frames of physical memory, by address, each read as a table. */
  type Memory = map<nat, Table>

  /** The allocator's pages and the memory together. */
  datatype State = State(base: nat, total: nat, used: set<nat>, mem: Memory)

  function PageAddr(base: nat, k: nat): nat
  {
    base + k * PAGE_SIZE
  }

  ghost predicate Owned(s: State, a: nat)
  {
    exists k :: k in s.used && a == PageAddr(s.base, k)
  }

  ghost predicate Unowned(s: State, a: nat)
  {
    exists k: nat :: k < s.total && k !in s.used && a == PageAddr(s.base, k)
  }

  /** Every page is real memory whose address is nonzero and fits a descriptor's 48 bits. */
  ghost predicate ValidState(s: State)
  {
    && 0 < s.base
    && s.base % PAGE_SIZE == 0
    && PageAddr(s.base, s.total) <= TWO_48
    && s.used <= Range(0, s.total)
    && forall k: nat :: k < s.total ==> PageAddr(s.base, k) in s.mem
  }

  function EntryAt(mem: Memory, t: nat, i: nat): Pte
    requires i < 512
  {
    if t in mem then mem[t][i] else ZERO_PTE
  }

  /** The level-`level` table that serves the virtual addresses whose top 9 * level translated bits are `prefix`. */
  function Walk(mem: Memory, root: nat, level: nat, prefix: nat): (t: Option<nat>)
  {
    if level == 0 then if prefix == 0 then Some(root) else None
    else
      match Walk(mem, root, level - 1, prefix / 512)
      case None => None
      case Some(t) =>
        var e := EntryAt(mem, t, prefix % 512);
        if e.valid == 1 then Some(Address(e)) else None
  }

  /** What the tree says about one page: where it is, and the permission bits. */
  datatype Mapping = Mapping(pa: nat, xn: U1, pxn: U1, ap: U2)

  function MappingOf(e: Pte): Mapping
  {
    Mapping(Address(e), e.xn_table, e.pxn_table, e.ap_table)
  }

  function Leaf(mem: Memory, root: nat, vpn: nat): Pte
  {
    match Walk(mem, root, 3, vpn / 512)
    case None => ZERO_PTE
    case Some(t) => EntryAt(mem, t, vpn % 512)
  }

  /** The flat map the tree stands for, from the 36-bit page number of a virtual address. */
  function Translate(mem: Memory, root: nat, vpn: nat): Option<Mapping>
  {
    var e := Leaf(mem, root, vpn);
    if e.valid == 1 then Some(MappingOf(e)) else None
  }

  /** A cleared root has no table below it. */
  lemma {:induction false} ClearedWalk(mem: Memory, root: nat, l: nat, p: nat)
    requires root in mem && mem[root] == ZeroTable() && 1 <= l <= 3
    ensures Walk(mem, root, l, p).None?
  {
    if l > 1 {
      ClearedWalk(mem, root, l - 1, p / 512);
    }
  }

  predicate InnerForm(e: Pte)
  {
    e == ZERO_PTE || IsTableEntry(e)
  }

  predicate LeafForm(e: Pte)
  {
    e == ZERO_PTE || IsLeafEntry(e)
  }

  ghost predicate EntriesWellFormed(t: Table, level: nat)
  {
    forall i :: 0 <= i < 512 ==> if level < 3 then InnerForm(t[i]) else LeafForm(t[i])
  }

  /** What holds of each table the walk can reach. */
  ghost predicate TableOk(s: State, root: nat, level: nat, t: nat)
  {
    && t in s.mem
    && EntriesWellFormed(s.mem[t], level)
    && (level > 0 ==> Owned(s, t))
  }

  /** The frames of a tree: no frame is reached in two ways. */
  ghost predicate NoSharing(mem: Memory, root: nat)
  {
    forall l: nat, p, l': nat, p' ::
      l <= 3 && l' <= 3 && Walk(mem, root, l, p).Some? && Walk(mem, root, l, p) == Walk(mem, root, l', p')
      ==> l == l' && p == p'
  }

  ghost predicate WellFormed(s: State, root: nat)
  {
    && ValidState(s)
    && !Unowned(s, root)
    && NoSharing(s.mem, root)
    && forall l: nat, p :: l <= 3 && Walk(s.mem, root, l, p).Some? ==> TableOk(s, root, l, Walk(s.mem, root, l, p).value)
  }

  lemma EntryIsChild(mem: Memory, root: nat, l: nat, p: nat, i: nat)
    requires Walk(mem, root, l, p).Some? && i < 512
    requires EntryAt(mem, Walk(mem, root, l, p).value, i).valid == 1
    ensures Walk(mem, root, l + 1, 512 * p + i) == Some(Address(EntryAt(mem, Walk(mem, root, l, p).value, i)))
  {
    assert (512 * p + i) / 512 == p && (512 * p + i) % 512 == i;
  }

  /**
   * In a well-formed tree every table below the root is the target of exactly one valid entry at exactly one level,
   * the root of none, and every valid entry above level 3 also has its table bit set.
   */
  lemma OneParent(s: State, root: nat, l: nat, p: nat, i: nat, l': nat, p': nat, i': nat)
    requires WellFormed(s, root) && l < 3 && l' < 3 && i < 512 && i' < 512
    requires Walk(s.mem, root, l, p).Some? && Walk(s.mem, root, l', p').Some?
    requires EntryAt(s.mem, Walk(s.mem, root, l, p).value, i).valid == 1
    requires EntryAt(s.mem, Walk(s.mem, root, l', p').value, i').valid == 1
    ensures var e := EntryAt(s.mem, Walk(s.mem, root, l, p).value, i);
            var e' := EntryAt(s.mem, Walk(s.mem, root, l', p').value, i');
            && e.table == 1
            && Address(e) != root
            && (Address(e) == Address(e') ==> l == l' && p == p' && i == i')
  {
    EntryIsChild(s.mem, root, l, p, i);
    EntryIsChild(s.mem, root, l', p', i');
    assert Walk(s.mem, root, 0, 0) == Some(root);
    assert TableOk(s, root, l, Walk(s.mem, root, l, p).value);
    assert InnerForm(EntryAt(s.mem, Walk(s.mem, root, l, p).value, i));
  }
}
