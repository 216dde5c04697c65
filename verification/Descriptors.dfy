/** The 64-bit page table entry: a C union of a raw word and its bit-fields. */
module Descriptors {
  import opened Arithmetic

  const PAGE_SIZE: nat := 4096

  type U1 = x: nat | x < 2
  type U2 = x: nat | x < 4
  type U6 = x: nat | x < 64
  type U36 = x: nat | x < 0x10_0000_0000
  type U64 = x: nat | x < 0x1_0000_0000_0000_0000

  /** The fields the kernel never writes except to zero. */
  datatype OtherFields = OtherFields(
    ignored_7_2: U6, nlta_51_50: U2, access_flag: U1, ignored_11: U1,
    nlta_49_48: U2, res0_50: U1, ignored_51: U1, protected_attr: U1, ignored_58_53: U6, ns_table: U1)

  /** The bit-field view of an entry. */
  datatype Pte = Pte(valid: U1, table: U1, nlta_47_12: U36, pxn_table: U1, xn_table: U1, ap_table: U2, rest: OtherFields)

  const ZERO_PTE := Pte(0, 0, 0, 0, 0, 0, OtherFields(0, 0, 0, 0, 0, 0, 0, 0, 0, 0))

  datatype Permissions = Permissions(read: bool, write: bool, execute: bool)

  const EL0_RW_EL1_RW: U2 := 0
  const EL0_RO_EL1_RO: U2 := 1
  const EL0_NONE_EL1_RW: U2 := 2
  const EL0_NONE_EL1_RO: U2 := 3

  // ----- the entries the kernel writes -------------------------------------

  /** set_page_table_entry_address: only bits 47:12 of the address are kept. */
  function SetAddress(e: Pte, addr: nat): (r: Pte)
    ensures addr % PAGE_SIZE == 0 && addr < TWO_48 ==> Address(r) == addr
  {
    e.(nlta_47_12 := addr % TWO_48 / PAGE_SIZE)
  }

  /** get_page_table_entry_address. */
  function Address(e: Pte): (a: nat)
    ensures a % PAGE_SIZE == 0 && a < TWO_48
  {
    e.nlta_47_12 * PAGE_SIZE
  }

  /** set_next_level_table. */
  function SetNextLevelTable(e: Pte, addr: nat): Pte
  {
    SetAddress(e, addr).(valid := 1, table := 1)
  }

  /** The leaf map_page writes over a cleared entry. */
  function LeafEntry(pa: nat, perms: Permissions): Pte
  {
    var e := SetAddress(ZERO_PTE, pa).(valid := 1, table := 1);
    var e := if perms.execute then e.(xn_table := 0, pxn_table := 0) else e.(xn_table := 1, pxn_table := 1);
    var e := if perms.write then e.(ap_table := EL0_RW_EL1_RW) else e.(ap_table := EL0_RO_EL1_RO);
    if !perms.read then e.(ap_table := EL0_NONE_EL1_RO) else e
  }

  /** The permissions the dump's XN and AP columns stand for. */
  function DecodedPermissions(e: Pte): Permissions
  {
    Permissions(e.ap_table == EL0_RW_EL1_RW || e.ap_table == EL0_RO_EL1_RO, e.ap_table == EL0_RW_EL1_RW, e.xn_table == 0)
  }

  /** An entry that points at a next-level table and says nothing else. */
  predicate IsTableEntry(e: Pte)
  {
    e == SetNextLevelTable(ZERO_PTE, Address(e))
  }

  /** An entry that is some leaf of map_page. */
  predicate IsLeafEntry(e: Pte)
  {
    e == LeafEntry(Address(e), DecodedPermissions(e))
  }

  /** An address survives the 36-bit field exactly when it is page aligned and below 2^48. */
  lemma AddressKeptExactly(e: Pte, addr: nat)
    ensures Address(SetAddress(e, addr)) == addr <==> addr % PAGE_SIZE == 0 && addr < TWO_48
    ensures SetAddress(e, addr).(nlta_47_12 := e.nlta_47_12) == e
  {
  }

  /**
   * What map_page's leaf means: the address comes back modulo 2^48, execution and reading as asked, writing only
   * where reading is allowed too; so the permissions come back exactly unless a page is made writable without being
   * readable. Replaying what was read back writes the same leaf.
   */
  lemma LeafEntryMeaning(pa: nat, perms: Permissions)
    requires pa % PAGE_SIZE == 0
    ensures var e := LeafEntry(pa, perms);
            && e.valid == 1 && e.table == 1 && e.rest == ZERO_PTE.rest && e.pxn_table == e.xn_table
            && Address(e) == pa % TWO_48
            && (Address(e) == pa <==> pa < TWO_48)
            && DecodedPermissions(e) == Permissions(perms.read, perms.read && perms.write, perms.execute)
            && (DecodedPermissions(e) == perms <==> perms.read || !perms.write)
            && (e.ap_table == EL0_NONE_EL1_RO <==> !perms.read) && e.ap_table != EL0_NONE_EL1_RW
            && IsLeafEntry(e)
            && LeafEntry(pa, DecodedPermissions(e)) == e
  {
    var m := pa % TWO_48;
    assert m % PAGE_SIZE == 0;
    assert Address(LeafEntry(pa, perms)) == m;
  }
}
