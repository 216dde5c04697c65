/** Whole runs of map_page: exactly when they succeed, and rebuilding a tree from its dump. */
module Rebuild {
  import opened Wrappers
  import opened Arithmetic
  import opened Descriptors
  import opened PageSets
  import opened TableTree
  import opened Mapping
  import opened Dump

  /** A table below the root, named by its level and the prefix it serves. */
  datatype Key = Key(level: nat, prefix: nat)

  ghost function TableKeys(mem: Memory, root: nat): (keys: set<Key>)
  {
    set l: nat, p: nat | 1 <= l <= 3 && p < 0x800_0000 && Walk(mem, root, l, p).Some? :: Key(l, p)
  }

  function PathKeys(vpn: nat): set<Key>
  {
    {Key(1, Prefix(vpn, 1)), Key(2, Prefix(vpn, 2)), Key(3, Prefix(vpn, 3))}
  }

  /** The tables a sequence of calls needs. */
  function Needed(calls: seq<Call>): set<Key>
  {
    if calls == [] then {} else Needed(calls[..|calls| - 1]) + PathKeys(PageNumber(calls[|calls| - 1].va))
  }

  lemma {:induction false} PrefixBound(mem: Memory, root: nat, l: nat, p: nat)
    requires l <= 3 && Walk(mem, root, l, p).Some?
    ensures p < if l == 0 then 1 else if l == 1 then 512 else if l == 2 then 0x4_0000 else 0x800_0000
  {
    if l > 0 {
      PrefixBound(mem, root, l - 1, p / 512);
    }
  }

  lemma InTableKeys(mem: Memory, root: nat, l: nat, p: nat)
    requires 1 <= l <= 3
    ensures Key(l, p) in TableKeys(mem, root) <==> Walk(mem, root, l, p).Some?
  {
    if Walk(mem, root, l, p).Some? {
      PrefixBound(mem, root, l, p);
    }
  }

  lemma ThreeKeys(keys: set<Key>, a: Key, b: Key, c: Key)
    requires a != b && b != c && a != c
    ensures |{a, b, c} - keys| == (if a in keys then 0 else 1) + (if b in keys then 0 else 1) + (if c in keys then 0 else 1)
  {
    var one := {} + {a};
    var two := one + {b};
    OneMoreKey(keys, {}, a);
    OneMoreKey(keys, one, b);
    OneMoreKey(keys, two, c);
    assert {a, b, c} == two + {c};
  }

  lemma OneMoreKey(keys: set<Key>, some: set<Key>, k: Key)
    requires k !in some
    ensures |(some + {k}) - keys| == |some - keys| + if k in keys then 0 else 1
  {
    assert (some + {k}) - keys == (some - keys) + if k in keys then {} else {k};
  }

  lemma MissingKeys(mem: Memory, root: nat, vpn: nat)
    ensures |PathKeys(vpn) - TableKeys(mem, root)| == Missing(mem, root, vpn)
  {
    InTableKeys(mem, root, 1, Prefix(vpn, 1));
    InTableKeys(mem, root, 2, Prefix(vpn, 2));
    InTableKeys(mem, root, 3, Prefix(vpn, 3));
    ThreeKeys(TableKeys(mem, root), Key(1, Prefix(vpn, 1)), Key(2, Prefix(vpn, 2)), Key(3, Prefix(vpn, 3)));
  }

  /** A successful call adds the tables on its path and no others. */
  lemma MapPageKeys(s: State, root: nat, c: Call)
    requires WellFormed(s, root)
    ensures var (s', ok) := MapPage(s, root, c.va, c.pa, c.perms);
            ok ==> TableKeys(s'.mem, root) == TableKeys(s.mem, root) + PathKeys(PageNumber(c.va))
  {
    var vpn := PageNumber(c.va);
    var (s', ok) := MapPage(s, root, c.va, c.pa, c.perms);
    MapPageTouchesOnlyThePath(s, root, c.va, c.pa, c.perms);
    if ok {
      forall k: Key
        ensures k in TableKeys(s'.mem, root) <==> k in TableKeys(s.mem, root) + PathKeys(vpn)
      {
        KeyAfter(s, s', root, vpn, k);
      }
    }
  }

  lemma KeyAfter(s: State, s': State, root: nat, vpn: nat, k: Key)
    requires KeepsTables(s, s', root, vpn) && forall l: nat :: l <= 3 ==> PathTable(s'.mem, root, vpn, l).Some?
    ensures k in TableKeys(s'.mem, root) <==> k in TableKeys(s.mem, root) || k in PathKeys(vpn)
  {
    if 1 <= k.level <= 3 {
      InTableKeys(s'.mem, root, k.level, k.prefix);
      InTableKeys(s.mem, root, k.level, k.prefix);
      assert PathTable(s'.mem, root, vpn, k.level).Some?;
      assert k in PathKeys(vpn) <==> k.prefix == Prefix(vpn, k.level);
    }
  }

  lemma SplitKeys(have: set<Key>, before: set<Key>, path: set<Key>)
    ensures |(before + path) - have| == |before - have| + |path - (have + before)|
  {
    assert (before + path) - have == (before - have) + (path - (have + before));
  }

  lemma {:induction false} DoneLength(s: State, root: nat, calls: seq<Call>)
    ensures |RunCalls(s, root, calls).1| <= |calls|
  {
    if calls != [] {
      DoneLength(s, root, calls[..|calls| - 1]);
    }
  }

  ghost predicate AllSucceed(s: State, root: nat, calls: seq<Call>)
  {
    RunCalls(s, root, calls).1 == calls
  }

  /** How many tables the calls need that the tree does not have. */
  ghost function NewTables(s: State, root: nat, calls: seq<Call>): nat
  {
    |Needed(calls) - TableKeys(s.mem, root)|
  }

  predicate AllAligned(calls: seq<Call>)
  {
    forall c :: c in calls ==> c.pa % PAGE_SIZE == 0
  }

  /**
   * A run of calls succeeds throughout exactly when every address is page aligned and there is a free page for each
   * table the calls need and the tree does not have.
   */
  lemma RunSucceedsExactly(s: State, root: nat, calls: seq<Call>)
    requires WellFormed(s, root)
    ensures AllSucceed(s, root, calls) <==> AllAligned(calls) && NewTables(s, root, calls) <= Free(s)
  {
    if AllSucceed(s, root, calls) {
      SuccessIsAligned(s, root, calls);
    }
    if AllAligned(calls) {
      RunTakesTables(s, root, calls);
    }
  }

  lemma {:induction false} SuccessIsAligned(s: State, root: nat, calls: seq<Call>)
    requires AllSucceed(s, root, calls)
    ensures AllAligned(calls)
  {
    if calls != [] {
      var init, c := calls[..|calls| - 1], calls[|calls| - 1];
      assert calls == init + [c];
      DoneLength(s, root, init);
      SuccessIsAligned(s, root, init);
    }
  }

  /**
   * The run succeeds exactly when there are pages for its new tables, and if so leaves exactly the old tables and the
   * needed ones, and takes one page for each new one.
   */
  ghost predicate TakesItsTables(s: State, root: nat, calls: seq<Call>)
  {
    var (s', done) := RunCalls(s, root, calls);
    && (done == calls <==> NewTables(s, root, calls) <= Free(s))
    && (done == calls ==> TableKeys(s'.mem, root) == TableKeys(s.mem, root) + Needed(calls))
    && (done == calls ==> Free(s') == Free(s) - NewTables(s, root, calls))
  }

  lemma {:induction false} RunTakesTables(s: State, root: nat, calls: seq<Call>)
    requires WellFormed(s, root) && AllAligned(calls)
    ensures TakesItsTables(s, root, calls)
  {
    if calls == [] {
      FreeIsNatural(s, root);
    } else {
      var init, c := calls[..|calls| - 1], calls[|calls| - 1];
      assert calls == init + [c];
      RunTakesTables(s, root, init);
      OneMoreTakes(s, root, init, c);
    }
  }

  lemma OneMoreTakes(s: State, root: nat, init: seq<Call>, c: Call)
    requires WellFormed(s, root) && c.pa % PAGE_SIZE == 0 && TakesItsTables(s, root, init)
    ensures TakesItsTables(s, root, init + [c])
  {
    assert (init + [c])[..|init|] == init;
    var (s1, done1) := RunCalls(s, root, init);
    DoneLength(s, root, init);
    if done1 == init {
      RunWellFormed(s, root, init);
      LastCallTakes(s, s1, root, Needed(init), c);
    } else {
      SplitKeys(TableKeys(s.mem, root), Needed(init), PathKeys(PageNumber(c.va)));
    }
  }

  /** One more call after a run that succeeded. */
  lemma LastCallTakes(s: State, s1: State, root: nat, before: set<Key>, c: Call)
    requires WellFormed(s1, root) && c.pa % PAGE_SIZE == 0
    requires TableKeys(s1.mem, root) == TableKeys(s.mem, root) + before
    requires Free(s1) == Free(s) - |before - TableKeys(s.mem, root)|
    ensures var (s2, ok) := MapPage(s1, root, c.va, c.pa, c.perms);
            var after := before + PathKeys(PageNumber(c.va));
            && (ok <==> |after - TableKeys(s.mem, root)| <= Free(s))
            && (ok ==> TableKeys(s2.mem, root) == TableKeys(s.mem, root) + after)
            && (ok ==> Free(s2) == Free(s) - |after - TableKeys(s.mem, root)|)
  {
    SplitKeys(TableKeys(s.mem, root), before, PathKeys(PageNumber(c.va)));
    CallSucceedsExactly(s1, root, c);
    Associate(TableKeys(s.mem, root), before, PathKeys(PageNumber(c.va)));
  }

  lemma Associate(a: set<Key>, b: set<Key>, c: set<Key>)
    ensures (a + b) + c == a + (b + c)
  {
  }

  lemma RunWellFormed(s: State, root: nat, calls: seq<Call>)
    requires WellFormed(s, root)
    ensures WellFormed(RunCalls(s, root, calls).0, root)
  {
    RunIsLastWriteWins(s, root, calls);
  }

  lemma CallSucceedsExactly(s: State, root: nat, c: Call)
    requires WellFormed(s, root) && c.pa % PAGE_SIZE == 0
    ensures var (s', ok) := MapPage(s, root, c.va, c.pa, c.perms);
            var wanted := PathKeys(PageNumber(c.va)) - TableKeys(s.mem, root);
            && (ok <==> |wanted| <= Free(s))
            && (ok ==> Free(s') == Free(s) - |wanted|)
            && (ok ==> TableKeys(s'.mem, root) == TableKeys(s.mem, root) + PathKeys(PageNumber(c.va)))
  {
    MapPageRefinesFlatMap(s, root, c.va, c.pa, c.perms);
    MissingKeys(s.mem, root, PageNumber(c.va));
    MapPageKeys(s, root, c);
  }

  // ----- rebuilding a tree from its dump ---------------------------------------

  /** The call that maps a dumped page again, its permissions read back from the XN, PXN and AP columns. */
  function Replay(r: Record): Call
  {
    Call(r.va, Address(r.entry), DecodedPermissions(r.entry))
  }

  function ReplayAll(recs: seq<Record>): (calls: seq<Call>)
    ensures |calls| == |recs| && forall j :: 0 <= j < |recs| ==> calls[j] == Replay(recs[j])
  {
    seq(|recs|, j requires 0 <= j < |recs| => Replay(recs[j]))
  }

  lemma {:induction false} LastWriteAt(calls: seq<Call>, j: nat, v: nat, before: Option<TableTree.Mapping>)
    requires j < |calls| && PageNumber(calls[j].va) == v
    requires forall k :: j < k < |calls| ==> PageNumber(calls[k].va) != v
    ensures LastWrite(calls, v, before) == Some(Mapped(calls[j].pa, calls[j].perms))
  {
    if j < |calls| - 1 {
      LastWriteAt(calls[..|calls| - 1], j, v, before);
    }
  }

  lemma {:induction false} LastWriteNowhere(calls: seq<Call>, v: nat, before: Option<TableTree.Mapping>)
    requires forall k :: 0 <= k < |calls| ==> PageNumber(calls[k].va) != v
    ensures LastWrite(calls, v, before) == before
  {
    if calls != [] {
      LastWriteNowhere(calls[..|calls| - 1], v, before);
    }
  }

  /** In a well-formed tree a mapped page's leaf is one map_page wrote, and replaying it writes it again. */
  lemma ReplayedLeaf(s: State, root: nat, v: nat)
    requires WellFormed(s, root) && Translate(s.mem, root, v).Some?
    ensures var e := Leaf(s.mem, root, v);
            Mapped(Address(e), DecodedPermissions(e)) == MappingOf(e)
  {
    var t := Walk(s.mem, root, 3, v / 512).value;
    assert TableOk(s, root, 3, t);
    assert LeafForm(s.mem[t][v % 512]);
  }

  lemma ReplayedPage(r: Record)
    requires r.va % PAGE_SIZE == 0 && r.va < TWO_48
    ensures PageNumber(Replay(r).va) == r.va / PAGE_SIZE && PageNumber(r.va) * PAGE_SIZE == r.va
  {
  }

  lemma ReplayPages(mem: Memory, root: nat, recs: seq<Record>)
    requires recs == DumpAll(mem, root)
    ensures forall k :: 0 <= k < |recs| ==>
              PageNumber(ReplayAll(recs)[k].va) * PAGE_SIZE == recs[k].va && PageNumber(recs[k].va) * PAGE_SIZE == recs[k].va
    ensures forall k :: 0 <= k < |recs| ==> Translate(mem, root, PageNumber(ReplayAll(recs)[k].va)).Some?
  {
    DumpListsFlatMap(mem, root);
    forall k | 0 <= k < |recs|
      ensures PageNumber(ReplayAll(recs)[k].va) * PAGE_SIZE == recs[k].va && PageNumber(recs[k].va) * PAGE_SIZE == recs[k].va
      ensures Translate(mem, root, PageNumber(ReplayAll(recs)[k].va)).Some?
    {
      assert recs[k] in recs;
      ReplayedPage(recs[k]);
    }
  }

  lemma ReplayWritesMapped(s: State, root: nat, v: nat)
    requires WellFormed(s, root) && v < TWO_36 && Translate(s.mem, root, v).Some?
    ensures LastWrite(ReplayAll(DumpAll(s.mem, root)), v, None) == Translate(s.mem, root, v)
  {
    var recs := DumpAll(s.mem, root);
    var calls := ReplayAll(recs);
    ReplayPages(s.mem, root, recs);
    assert Record(v * PAGE_SIZE, Leaf(s.mem, root, v)) in recs && Increasing(recs) by { DumpListsFlatMap(s.mem, root); }
    var j :| 0 <= j < |recs| && recs[j] == Record(v * PAGE_SIZE, Leaf(s.mem, root, v));
    forall k | j < k < |calls| ensures PageNumber(calls[k].va) != v {
      assert recs[j].va < recs[k].va;
    }
    LastWriteAt(calls, j, v, None);
    ReplayedLeaf(s, root, v);
  }

  /** The calls replayed from a dump write the flat map the dump came from. */
  lemma ReplayWritesFlatMap(s: State, root: nat, v: nat)
    requires WellFormed(s, root) && v < TWO_36
    ensures LastWrite(ReplayAll(DumpAll(s.mem, root)), v, None) == Translate(s.mem, root, v)
  {
    if Translate(s.mem, root, v).Some? {
      ReplayWritesMapped(s, root, v);
    } else {
      ReplayPages(s.mem, root, DumpAll(s.mem, root));
      LastWriteNowhere(ReplayAll(DumpAll(s.mem, root)), v, None);
    }
  }

  lemma {:induction false} ReplayNeedsNoMore(mem: Memory, root: nat, calls: seq<Call>)
    requires forall k :: 0 <= k < |calls| ==> Translate(mem, root, PageNumber(calls[k].va)).Some?
    ensures Needed(calls) <= TableKeys(mem, root)
  {
    if calls != [] {
      ReplayNeedsNoMore(mem, root, calls[..|calls| - 1]);
      PathOfMapped(mem, root, PageNumber(calls[|calls| - 1].va));
    }
  }

  lemma PathOfMapped(mem: Memory, root: nat, v: nat)
    requires v < TWO_36 && Translate(mem, root, v).Some?
    ensures PathKeys(v) <= TableKeys(mem, root)
  {
    PrefixesNest(v);
    assert Walk(mem, root, 3, v / 512).Some?;
    assert Walk(mem, root, 2, Prefix(v, 2)).Some?;
    assert Walk(mem, root, 1, Prefix(v, 1)).Some?;
    InTableKeys(mem, root, 1, Prefix(v, 1));
    InTableKeys(mem, root, 2, Prefix(v, 2));
    InTableKeys(mem, root, 3, Prefix(v, 3));
  }

  /** Two trees map every page alike. */
  ghost predicate SameFlatMap(mem: Memory, root: nat, mem': Memory, root': nat)
  {
    forall v: nat :: v < TWO_36 ==> Translate(mem, root, v) == Translate(mem', root', v)
  }

  /**
   * Rebuild round trip: replaying the dump of any well-formed tree into a cleared root gives a tree with the same
   * flat map, and every call succeeds exactly when there is a free page for each table the mapped pages need,
   * which is never more than the old tree has.
   */
  lemma RebuildRoundTrip(s: State, root: nat, s2: State, root2: nat)
    requires WellFormed(s, root)
    requires WellFormed(s2, root2) && root2 in s2.mem && s2.mem[root2] == ZeroTable()
    ensures var calls := ReplayAll(DumpAll(s.mem, root));
            var (s3, done) := RunCalls(s2, root2, calls);
            && WellFormed(s3, root2)
            && (done == calls <==> |Needed(calls)| <= Free(s2))
            && |Needed(calls)| <= |TableKeys(s.mem, root)|
            && (done == calls ==> SameFlatMap(s3.mem, root2, s.mem, root))
  {
    var calls := ReplayAll(DumpAll(s.mem, root));
    ReplayAligned(DumpAll(s.mem, root));
    RunTakesTables(s2, root2, calls);
    FreshTree(s2, root2);
    assert Needed(calls) - TableKeys(s2.mem, root2) == Needed(calls);
    ReplayPages(s.mem, root, DumpAll(s.mem, root));
    ReplayNeedsNoMore(s.mem, root, calls);
    SubsetSize(Needed(calls), TableKeys(s.mem, root));
    RunWellFormed(s2, root2, calls);
    if RunCalls(s2, root2, calls).1 == calls {
      ReplayMeans(s, root, s2, root2, calls);
    }
  }

  lemma ReplayAligned(recs: seq<Record>)
    ensures AllAligned(ReplayAll(recs))
  {
    forall c | c in ReplayAll(recs) ensures c.pa % PAGE_SIZE == 0 {
      var j :| 0 <= j < |recs| && ReplayAll(recs)[j] == c;
      assert c == Replay(recs[j]);
    }
  }

  lemma ReplayMeans(s: State, root: nat, s2: State, root2: nat, calls: seq<Call>)
    requires WellFormed(s, root) && WellFormed(s2, root2) && root2 in s2.mem && s2.mem[root2] == ZeroTable()
    requires calls == ReplayAll(DumpAll(s.mem, root)) && RunCalls(s2, root2, calls).1 == calls
    ensures SameFlatMap(RunCalls(s2, root2, calls).0.mem, root2, s.mem, root)
  {
    RunIsLastWriteWins(s2, root2, calls);
    FreshTree(s2, root2);
    forall v: nat | v < TWO_36
      ensures Translate(RunCalls(s2, root2, calls).0.mem, root2, v) == Translate(s.mem, root, v)
    {
      ReplayWritesFlatMap(s, root, v);
    }
  }

  /** A root page_table_init has just cleared has no tables below it and maps nothing. */
  lemma FreshTree(s: State, root: nat)
    requires root in s.mem && s.mem[root] == ZeroTable()
    ensures TableKeys(s.mem, root) == {}
    ensures forall v: nat :: Translate(s.mem, root, v) == None
  {
    forall k: Key | k in TableKeys(s.mem, root) ensures false {
      ClearedWalk(s.mem, root, k.level, k.prefix);
    }
    forall v: nat ensures Translate(s.mem, root, v) == None {
      ClearedWalk(s.mem, root, 3, v / 512);
    }
  }
}
