/** The raw 64-bit word of a descriptor and its bit-fields, as two views of one value. */
module DescriptorLayout {
  import opened Arithmetic
  import opened Descriptors

  // ----- the raw view: a mixed-radix number, lowest field first ------------

  /** How many values each field of the descriptor can take, from bit 0 upwards. */
  const LAYOUT: seq<nat> := [2, 2, 64, 4, 2, 2, TWO_36, 4, 2, 2, 2, 64, 2, 2, 4, 2]

  /** Two to the number of each field's lowest bit. */
  const POSITIONS: seq<nat> := [
    0x1, 0x2, 0x4, 0x100, 0x400, 0x800, 0x1000,
    0x1000000000000, 0x4000000000000, 0x8000000000000, 0x10000000000000, 0x20000000000000,
    0x800000000000000, 0x1000000000000000, 0x2000000000000000, 0x8000000000000000
  ]

  predicate Fits(sizes: seq<nat>, fields: seq<nat>)
  {
    |fields| == |sizes| && forall i :: 0 <= i < |sizes| ==> fields[i] < sizes[i]
  }

  function Pack(sizes: seq<nat>, fields: seq<nat>): (v: nat)
    requires |fields| == |sizes|
  {
    if sizes == [] then 0 else fields[0] + sizes[0] * Pack(sizes[1..], fields[1..])
  }

  function Unpack(sizes: seq<nat>, v: nat): (fields: seq<nat>)
    requires forall i :: 0 <= i < |sizes| ==> sizes[i] > 0
    ensures Fits(sizes, fields)
  {
    if sizes == [] then [] else [v % sizes[0]] + Unpack(sizes[1..], v / sizes[0])
  }

  /** The number of words the first fields alone can spell: the weight of the field that follows them. */
  function Weight(sizes: seq<nat>): nat
  {
    if sizes == [] then 1 else sizes[0] * Weight(sizes[1..])
  }

  function Fields(e: Pte): (fields: seq<nat>)
    ensures Fits(LAYOUT, fields)
  {
    var r := e.rest;
    [e.valid, e.table, r.ignored_7_2, r.nlta_51_50, r.access_flag, r.ignored_11, e.nlta_47_12, r.nlta_49_48,
     r.res0_50, r.ignored_51, r.protected_attr, r.ignored_58_53, e.pxn_table, e.xn_table, e.ap_table, r.ns_table]
  }

  /** The raw word that holds the fields of `e`. */
  function Value(e: Pte): nat
  {
    Pack(LAYOUT, Fields(e))
  }

  /** The fields of a raw word. */
  function FromValue(v: nat): Pte
  {
    OfFields(Unpack(LAYOUT, v))
  }

  function OfFields(f: seq<nat>): Pte
    requires Fits(LAYOUT, f)
  {
    Pte(f[0], f[1], f[6], f[12], f[13], f[14],
        OtherFields(f[2], f[3], f[4], f[5], f[7], f[8], f[9], f[10], f[11], f[15]))
  }

  // ----- the two views agree ----------------------------------------------

  lemma {:induction false} UnpackPack(sizes: seq<nat>, fields: seq<nat>)
    requires Fits(sizes, fields)
    ensures Unpack(sizes, Pack(sizes, fields)) == fields
  {
    if sizes != [] {
      UnpackPack(sizes[1..], fields[1..]);
      Peel(fields[0], sizes[0], Pack(sizes[1..], fields[1..]));
    }
  }

  lemma {:induction false} PackUnpack(sizes: seq<nat>, v: nat)
    requires forall i :: 0 <= i < |sizes| ==> sizes[i] > 0
    requires v < Weight(sizes)
    ensures Pack(sizes, Unpack(sizes, v)) == v
  {
    if sizes != [] {
      var s, w := sizes[0], Weight(sizes[1..]);
      assert s * (v / s) + v % s == v;
      assert v / s < w;
      PackUnpack(sizes[1..], v / s);
      assert Unpack(sizes, v)[1..] == Unpack(sizes[1..], v / s);
    }
  }

  lemma {:induction false} WeightGrows(sizes: seq<nat>, k: nat)
    requires k < |sizes|
    ensures Weight(sizes[..k + 1]) == Weight(sizes[..k]) * sizes[k]
  {
    if k == 0 {
      assert sizes[..1] == [sizes[0]];
      assert sizes[..1][1..] == [];
    } else {
      WeightGrows(sizes[1..], k - 1);
      assert sizes[..k + 1][1..] == sizes[1..][..k];
      assert sizes[..k][1..] == sizes[1..][..k - 1];
      var s, w := sizes[0], Weight(sizes[..k][1..]);
      assert s * (w * sizes[k]) == s * w * sizes[k];
    }
  }

  /** The descriptor format's bit positions: a field's weight is two to the number of its lowest bit. */
  lemma BitPositions()
    ensures Weight(LAYOUT[..1]) == 0x2 && Weight(LAYOUT[..6]) == 0x1000
    ensures Weight(LAYOUT[..12]) == 0x800_0000_0000_0000
    ensures Weight(LAYOUT[..13]) == 0x1000_0000_0000_0000
    ensures Weight(LAYOUT[..14]) == 0x2000_0000_0000_0000
    ensures Weight(LAYOUT) == TWO_64
  {
    assert LAYOUT[..0] == [];
    for k := 0 to 15
      invariant forall j :: 0 <= j <= k ==> Weight(LAYOUT[..j]) == POSITIONS[j]
    {
      WeightGrows(LAYOUT, k);
    }
    WeightGrows(LAYOUT, 15);
    assert LAYOUT[..16] == LAYOUT;
  }

  /** Any field can be read off the raw word at its weight. */
  lemma {:induction false} FieldAt(sizes: seq<nat>, fields: seq<nat>, k: nat)
    requires Fits(sizes, fields) && k < |sizes|
    ensures Weight(sizes[..k]) > 0
    ensures Pack(sizes, fields) / Weight(sizes[..k]) % sizes[k] == fields[k]
  {
    var rest := Pack(sizes[1..], fields[1..]);
    Peel(fields[0], sizes[0], rest);
    if k > 0 {
      FieldAt(sizes[1..], fields[1..], k - 1);
      assert sizes[..k][1..] == sizes[1..][..k - 1];
      DivDiv(Pack(sizes, fields), sizes[0], Weight(sizes[..k][1..]));
    }
  }

  /** The fields and the raw word are two views of the same 64 bits. */
  lemma UnionViews(e: Pte, v: U64)
    ensures FromValue(Value(e)) == e
    ensures Value(FromValue(v)) == v
  {
    UnpackPack(LAYOUT, Fields(e));
    RawSurvives(v);
  }

  /** Fields that fit make a number below the layout's weight. */
  lemma {:induction false} PackBound(sizes: seq<nat>, fields: seq<nat>)
    requires Fits(sizes, fields)
    ensures Pack(sizes, fields) < Weight(sizes)
  {
    if sizes != [] {
      PackBound(sizes[1..], fields[1..]);
      MulMonotone(sizes[0], Pack(sizes[1..], fields[1..]) + 1, Weight(sizes[1..]));
    }
  }

  lemma ValueBound(e: Pte)
    ensures Value(e) < TWO_64
  {
    PackBound(LAYOUT, Fields(e));
    WordWeight();
  }

  lemma WordWeight()
    ensures Weight(LAYOUT) == TWO_64 && forall i :: 0 <= i < |LAYOUT| ==> LAYOUT[i] > 0
  {
    BitPositions();
  }

  lemma RawSurvives(v: U64)
    ensures Value(FromValue(v)) == v
  {
    WordWeight();
    PackUnpack(LAYOUT, v);
    FieldsOfFields(Unpack(LAYOUT, v));
  }

  lemma FieldsOfFields(f: seq<nat>)
    requires Fits(LAYOUT, f)
    ensures Fields(OfFields(f)) == f
  {
  }

  /** Where the fields the kernel uses stand in the raw word. */
  lemma FieldPositions(e: Pte)
    ensures e.valid == Value(e) % 2
    ensures e.table == Value(e) / 0x2 % 2
    ensures e.nlta_47_12 == Value(e) / 0x1000 % TWO_36
    ensures e.pxn_table == Value(e) / 0x800_0000_0000_0000 % 2
    ensures e.xn_table == Value(e) / 0x1000_0000_0000_0000 % 2
    ensures e.ap_table == Value(e) / 0x2000_0000_0000_0000 % 4
  {
    var f := Fields(e);
    BitPositions();
    FieldAt(LAYOUT, f, 0);
    FieldAt(LAYOUT, f, 1);
    FieldAt(LAYOUT, f, 6);
    FieldAt(LAYOUT, f, 12);
    FieldAt(LAYOUT, f, 13);
    FieldAt(LAYOUT, f, 14);
  }

  // ----- the words the kernel writes ---------------------------------------

  /** The word of an entry that is valid, has the table bit, and has no other bit outside the kernel's fields. */
  lemma SparseWord(e: Pte)
    requires e.valid == 1 && e.table == 1 && e.rest == ZERO_PTE.rest
    ensures Value(e) == 3 + 0x1000 * e.nlta_47_12 + 0x800_0000_0000_0000 * (e.pxn_table + 2 * e.xn_table + 4 * e.ap_table)
  {
    SparseFields(Fields(e));
  }

  lemma SparseFields(f: seq<nat>)
    requires |f| == 16 && f[0] == 1 && f[1] == 1 && f[2] == 0 && f[3] == 0 && f[4] == 0 && f[5] == 0
    requires f[7] == 0 && f[8] == 0 && f[9] == 0 && f[10] == 0 && f[11] == 0 && f[15] == 0
    ensures Pack(LAYOUT, f) == 3 + 0x1000 * f[6] + 0x800_0000_0000_0000 * (f[12] + 2 * f[13] + 4 * f[14])
  {
    SplitAtPxn(f);
    LowTwelve(LAYOUT[..12], f[..12]);
    TopFour(LAYOUT[12..], f[12..]);
  }

  lemma SplitAtPxn(f: seq<nat>)
    requires |f| == 16
    ensures Pack(LAYOUT, f) == Pack(LAYOUT[..12], f[..12]) + 0x800_0000_0000_0000 * Pack(LAYOUT[12..], f[12..])
  {
    BitPositions();
    PackAppend(LAYOUT, f, 12);
  }

  lemma LowTwelve(sizes: seq<nat>, f: seq<nat>)
    requires sizes == LAYOUT[..12] && |f| == 12
    requires f[0] == 1 && f[1] == 1 && f[2] == 0 && f[3] == 0 && f[4] == 0 && f[5] == 0
    requires f[7] == 0 && f[8] == 0 && f[9] == 0 && f[10] == 0 && f[11] == 0
    ensures Pack(sizes, f) == 3 + 0x1000 * f[6]
  {
    BitPositions();
    PackAppend(sizes, f, 6);
    assert sizes[..6] == LAYOUT[..6];
    ThreeInSixBits(sizes[..6], f[..6]);
    AddressFirst(sizes[6..], f[6..]);
  }

  lemma AddressFirst(sizes: seq<nat>, f: seq<nat>)
    requires |sizes| == 6 && sizes[1..] == [4, 2, 2, 2, 64] && |f| == 6 && f[1..] == [0, 0, 0, 0, 0]
    ensures Pack(sizes, f) == f[0]
  {
    FiveZeros();
  }

  lemma FiveZeros()
    ensures Pack([4, 2, 2, 2, 64], [0, 0, 0, 0, 0]) == 0
  {
    assert Pack([2, 2, 64], [0, 0, 0]) == 0;
  }

  lemma TopFour(sizes: seq<nat>, f: seq<nat>)
    requires sizes == [2, 2, 4, 2] && |f| == 4 && f[3] == 0
    ensures Pack(sizes, f) == f[0] + 2 * f[1] + 4 * f[2]
  {
    assert f == [f[0], f[1], f[2], 0];
    assert Pack([2], [0]) == 0;
    assert Pack([4, 2], [f[2], 0]) == f[2];
    assert Pack([2, 4, 2], [f[1], f[2], 0]) == f[1] + 2 * f[2];
  }

  /**
   * The word map_page stores, bit by bit: valid and table, bits 47:12 of the address, PXN and XN (bits 59 and 60) set
   * unless the page may be executed, and the access bits 62:61 as 0b11 for no access, 0b00 for read and write, 0b01
   * for read only; every other bit is 0.
   */
  lemma LeafWord(pa: nat, perms: Permissions)
    requires pa % 0x1000 == 0
    ensures Value(LeafEntry(pa, perms))
         == 3 + pa % 0x1_0000_0000_0000
            + 0x2000_0000_0000_0000 * (if !perms.read then 3 else if perms.write then 0 else 1)
            + (if perms.execute then 0 else 0x1800_0000_0000_0000)
  {
    var e := LeafEntry(pa, perms);
    LeafEntryMeaning(pa, perms);
    assert pa % 0x1_0000_0000_0000 % 0x1000 == 0;
    SparseWord(e);
  }

  /** The word of a link to the next table: its address, and valid and table set. */
  lemma TableWord(addr: nat)
    requires addr % 0x1000 == 0 && addr < 0x1_0000_0000_0000
    ensures Value(SetNextLevelTable(ZERO_PTE, addr)) == 3 + addr
  {
    SparseWord(SetNextLevelTable(ZERO_PTE, addr));
  }

  /** What the dump's columns say about any word: XN is bit 60, the access bits are 62:61. */
  lemma PermissionBits(e: Pte)
    ensures DecodedPermissions(e).execute <==> Value(e) / 0x1000_0000_0000_0000 % 2 == 0
    ensures DecodedPermissions(e).write <==> Value(e) / 0x2000_0000_0000_0000 % 4 == 0
    ensures DecodedPermissions(e).read <==> Value(e) / 0x2000_0000_0000_0000 % 4 == 0 || Value(e) / 0x2000_0000_0000_0000 % 4 == 1
  {
    FieldPositions(e);
  }

  // ----- the word the dump masks -------------------------------------------

  /** The low twelve bits of a leaf, which the dump prints as its flags, are valid and table and nothing else. */
  lemma LeafFlags(e: Pte)
    requires IsLeafEntry(e)
    ensures Value(e) % PAGE_SIZE == 3
  {
    LowBitsOfLeaf(Fields(e));
  }

  lemma LowBitsOfLeaf(f: seq<nat>)
    requires |f| == 16 && f[..6] == [1, 1, 0, 0, 0, 0]
    ensures Pack(LAYOUT, f) % PAGE_SIZE == 3
  {
    PackAppend(LAYOUT, f, 6);
    BitPositions();
    ThreeInSixBits(LAYOUT[..6], f[..6]);
    Peel(3, PAGE_SIZE, Pack(LAYOUT[6..], f[6..]));
  }

  lemma ThreeInSixBits(sizes: seq<nat>, f: seq<nat>)
    requires sizes == [2, 2, 64, 4, 2, 2] && f == [1, 1, 0, 0, 0, 0]
    ensures Pack(sizes, f) == 3
  {
    assert Pack([64, 4, 2, 2], [0, 0, 0, 0]) == 0;
    assert Pack([2, 64, 4, 2, 2], [1, 0, 0, 0, 0]) == 1;
  }

  lemma {:induction false} PackAppend(sizes: seq<nat>, f: seq<nat>, k: nat)
    requires |f| == |sizes| && k <= |f|
    ensures Pack(sizes, f) == Pack(sizes[..k], f[..k]) + Weight(sizes[..k]) * Pack(sizes[k..], f[k..])
  {
    if k > 0 {
      PackAppend(sizes[1..], f[1..], k - 1);
      assert sizes[..k][1..] == sizes[1..][..k - 1] && f[..k][1..] == f[1..][..k - 1];
      assert sizes[1..][k - 1..] == sizes[k..] && f[1..][k - 1..] == f[k..];
      Distribute(sizes[0], Pack(sizes[..k][1..], f[..k][1..]), Weight(sizes[..k][1..]), Pack(sizes[k..], f[k..]));
    }
  }
}
