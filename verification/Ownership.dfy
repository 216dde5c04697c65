/** Whole runs of the kernel's memory management: who owns each page, and what nobody may touch. */
module Ownership {
  import opened Wrappers
  import opened Descriptors
  import opened PageSets
  import opened TableTree
  import opened TableSteps
  import opened Mapping

  /** A block page_alloc handed out: n pages from page `start` on. */
  datatype Extent = Extent(start: nat, n: nat)

  /** The memory, the pages reserved at boot, the live blocks, and the pages that are roots of trees. */
  datatype System = System(s: State, reserved: set<nat>, live: set<Extent>, roots: set<nat>)

  datatype Owner = AtBoot | Client(e: Extent) | Tree(root: nat)

  ghost predicate InTree(s: State, root: nat, j: nat)
  {
    exists l: nat, p :: l <= 3 && Walk(s.mem, PageAddr(s.base, root), l, p) == Some(PageAddr(s.base, j))
  }

  ghost predicate Owns(y: System, o: Owner, j: nat)
  {
    match o
    case AtBoot => j in y.reserved
    case Client(e) => e in y.live && e.start <= j < e.start + e.n
    case Tree(root) => root in y.roots && InTree(y.s, root, j)
  }

  ghost predicate HasOwner(y: System, j: nat)
  {
    exists o :: Owns(y, o, j)
  }

  ghost predicate OneOwner(y: System)
  {
    forall o, o', j :: Owns(y, o, j) && Owns(y, o', j) ==> o == o'
  }

  /** The pages with an owner are the pages whose bit is set, and none has two. */
  ghost predicate Inv(y: System)
  {
    && ValidState(y.s)
    && y.roots <= y.s.used
    && (forall root :: root in y.roots ==> WellFormed(y.s, PageAddr(y.s.base, root)))
    && (forall j :: HasOwner(y, j) <==> j in y.s.used)
    && OneOwner(y)
  }

  // ----- trees that nobody writes to ------------------------------------------

  /** Memory at every table of a tree is the same in both states. */
  ghost predicate TreeUntouched(s: State, s': State, root: nat)
  {
    forall l: nat, p :: l <= 3 && Walk(s.mem, root, l, p).Some? && Walk(s.mem, root, l, p).value in s.mem ==>
      var t := Walk(s.mem, root, l, p).value; t in s'.mem && s'.mem[t] == s.mem[t]
  }

  lemma {:induction false} UntouchedWalk(s: State, s': State, root: nat, l: nat, p: nat)
    requires WellFormed(s, root) && TreeUntouched(s, s', root) && l <= 3
    ensures Walk(s'.mem, root, l, p) == Walk(s.mem, root, l, p)
  {
    if l > 0 {
      UntouchedWalk(s, s', root, l - 1, p / 512);
      if Walk(s.mem, root, l - 1, p / 512).Some? {
        assert TableOk(s, root, l - 1, Walk(s.mem, root, l - 1, p / 512).value);
      }
    }
  }

  /** A tree nobody wrote to keeps its shape and its flat map, as long as its pages stay in use. */
  lemma UntouchedTree(s: State, s': State, root: nat)
    requires WellFormed(s, root) && TreeUntouched(s, s', root)
    requires ValidState(s') && s'.base == s.base && s'.total == s.total && !Unowned(s', root)
    requires forall l: nat, p :: 1 <= l <= 3 && Walk(s.mem, root, l, p).Some? ==> Owned(s', Walk(s.mem, root, l, p).value)
    ensures WellFormed(s', root)
    ensures SameMap(s, s', root)
    ensures forall l: nat, p :: l <= 3 ==> Walk(s'.mem, root, l, p) == Walk(s.mem, root, l, p)
  {
    forall l: nat, p | l <= 3 ensures Walk(s'.mem, root, l, p) == Walk(s.mem, root, l, p) {
      UntouchedWalk(s, s', root, l, p);
    }
    forall l: nat, p | l <= 3 && Walk(s'.mem, root, l, p).Some?
      ensures TableOk(s', root, l, Walk(s'.mem, root, l, p).value)
    {
      assert TableOk(s, root, l, Walk(s.mem, root, l, p).value);
    }
    forall v: nat ensures Translate(s'.mem, root, v) == Translate(s.mem, root, v) {
      if Walk(s.mem, root, 3, v / 512).Some? {
        assert TableOk(s, root, 3, Walk(s.mem, root, 3, v / 512).value);
      }
    }
  }

  /** The pages of a tree stay in use and keep their contents. */
  ghost predicate KeepsPages(s: State, s': State, root: nat)
  {
    && root in s'.used && s'.base == s.base && s'.total == s.total
    && forall j :: InTree(s, root, j) ==>
         var a := PageAddr(s.base, j); (j in s.used ==> j in s'.used) && a in s'.mem && (a in s.mem ==> s'.mem[a] == s.mem[a])
  }

  lemma RootInTree(s: State, root: nat)
    ensures InTree(s, root, root)
  {
    assert Walk(s.mem, PageAddr(s.base, root), 0, 0) == Some(PageAddr(s.base, root));
  }

  lemma UsedIsOwned(s: State, k: nat)
    requires k in s.used
    ensures Owned(s, PageAddr(s.base, k)) && !Unowned(s, PageAddr(s.base, k))
  {
    if Unowned(s, PageAddr(s.base, k)) {
      var j: nat :| j < s.total && j !in s.used && PageAddr(s.base, k) == PageAddr(s.base, j);
      DistinctPages(s.base, j, k);
      assert false;
    }
  }

  /** Every table of a tree is a page of it. */
  lemma TablePage(s: State, root: nat, l: nat, p: nat) returns (j: nat)
    requires WellFormed(s, PageAddr(s.base, root)) && root in s.used
    requires l <= 3 && Walk(s.mem, PageAddr(s.base, root), l, p).Some?
    ensures InTree(s, root, j) && j in s.used && Walk(s.mem, PageAddr(s.base, root), l, p) == Some(PageAddr(s.base, j))
  {
    var t := Walk(s.mem, PageAddr(s.base, root), l, p).value;
    assert TableOk(s, PageAddr(s.base, root), l, t);
    if l == 0 {
      j := root;
      RootInTree(s, root);
    } else {
      j :| j in s.used && t == PageAddr(s.base, j);
    }
  }

  lemma KeptTree(s: State, s': State, root: nat)
    requires WellFormed(s, PageAddr(s.base, root)) && root in s.used && ValidState(s')
    requires KeepsPages(s, s', root)
    ensures WellFormed(s', PageAddr(s.base, root))
    ensures SameMap(s, s', PageAddr(s.base, root))
    ensures forall j :: InTree(s', root, j) <==> InTree(s, root, j)
  {
    var r := PageAddr(s.base, root);
    forall l: nat, p | l <= 3 && Walk(s.mem, r, l, p).Some?
      ensures var t := Walk(s.mem, r, l, p).value; Owned(s', t) && t in s'.mem && (t in s.mem ==> s'.mem[t] == s.mem[t])
    {
      var j := TablePage(s, root, l, p);
      UsedIsOwned(s', j);
    }
    UsedIsOwned(s', root);
    UntouchedTree(s, s', r);
  }

  /** All trees survive a step that keeps the pages of each. */
  lemma KeptTrees(y: System, s': State)
    requires Inv(y) && ValidState(s')
    requires forall root :: root in y.roots ==> KeepsPages(y.s, s', root)
    ensures forall root :: root in y.roots ==>
              WellFormed(s', PageAddr(y.s.base, root)) && SameMap(y.s, s', PageAddr(y.s.base, root))
    ensures forall root, j :: root in y.roots ==> (InTree(s', root, j) <==> InTree(y.s, root, j))
  {
    forall root | root in y.roots
      ensures WellFormed(s', PageAddr(y.s.base, root)) && SameMap(y.s, s', PageAddr(y.s.base, root))
      ensures forall j :: InTree(s', root, j) <==> InTree(y.s, root, j)
    {
      KeptTree(y.s, s', root);
    }
  }

  // ----- the steps --------------------------------------------------------------

  datatype Op =
    | Alloc(n: nat)                 // page_alloc
    | Release(e: Extent)            // page_free of a live block
    | NewRoot(page: nat)            // page_table_init on a live one-page block, from now on a root
    | Map(root: nat, call: Call)    // map_page
    | Store(page: nat, words: Table) // the owner of a live block fills one of its pages

  predicate InLiveBlock(live: set<Extent>, page: nat)
  {
    exists e :: e in live && e.start <= page < e.start + e.n
  }

  /** An operation its caller may not perform changes nothing. */
  function Step(y: System, op: Op): System
  {
    match op
    case Alloc(n) =>
      var r := if n == 0 then None else FirstFit(y.s.used, y.s.total, n);
      (match r
       case None => y
       case Some(k) => y.(s := y.s.(used := y.s.used + Range(k, n)), live := y.live + {Extent(k, n)}))
    case Release(e) =>
      if e !in y.live then y
      else y.(s := y.s.(used := y.s.used - Range(e.start, e.n)), live := y.live - {e})
    case NewRoot(page) =>
      if Extent(page, 1) !in y.live then y
      else y.(s := y.s.(mem := y.s.mem[PageAddr(y.s.base, page) := ZeroTable()]),
              live := y.live - {Extent(page, 1)}, roots := y.roots + {page})
    case Map(root, c) =>
      if root !in y.roots then y
      else y.(s := MapPage(y.s, PageAddr(y.s.base, root), c.va, c.pa, c.perms).0)
    case Store(page, words) =>
      if InLiveBlock(y.live, page)
      then y.(s := y.s.(mem := y.s.mem[PageAddr(y.s.base, page) := words]))
      else y
  }

  // ----- what the steps do ----------------------------------------------------------

  /**
   * An allocation adds one live block of n pages, which were free and are the lowest such, and marks exactly them
   * used; that happens exactly when n > 0 and n adjacent pages are free, and otherwise nothing happens.
   */
  lemma AllocMeans(y: System, n: nat) returns (start: nat)
    ensures var y' := Step(y, Alloc(n));
            if n > 0 && exists s: nat :: s + n <= y.s.total && WindowFree(y.s.used, s, n) then
              && start + n <= y.s.total && (forall k :: start <= k < start + n ==> k !in y.s.used)
              && (forall s: nat :: s < start ==> !WindowFree(y.s.used, s, n))
              && y'.live == y.live + {Extent(start, n)}
              && (forall k :: k in y'.s.used <==> k in y.s.used || start <= k < start + n)
              && y'.s == y.s.(used := y'.s.used) && y' == y.(s := y'.s, live := y'.live)
            else y' == y
  {
    start := 0;
    if FirstFit(y.s.used, y.s.total, n).Some? {
      start := FirstFit(y.s.used, y.s.total, n).value;
      assert start + n <= y.s.total && WindowFree(y.s.used, start, n);
    }
  }

  /** A release frees exactly the pages of a live block, which is live no more. */
  lemma ReleaseMeans(y: System, e: Extent)
    ensures var y' := Step(y, Release(e));
            if e in y.live then
              && y'.live == y.live - {e}
              && (forall k :: k in y'.s.used <==> k in y.s.used && !(e.start <= k < e.start + e.n))
              && y'.s == y.s.(used := y'.s.used) && y' == y.(s := y'.s, live := y'.live)
            else y' == y
  {
  }

  /** A new root is one page of a client's, and from then on a tree that maps nothing. */
  lemma NewRootMeans(y: System, page: nat)
    requires Inv(y)
    ensures var y', at := Step(y, NewRoot(page)), y.s.base + 4096 * page;
            if Extent(page, 1) in y.live then
              && y'.roots == y.roots + {page} && y'.live == y.live - {Extent(page, 1)}
              && (forall v: nat :: Translate(y'.s.mem, at, v) == None)
              && (forall j :: InTree(y'.s, page, j) <==> j == page)
              && y'.s == y.s.(mem := y'.s.mem) && y'.reserved == y.reserved
              && (forall a :: a in y.s.mem && a != at ==> a in y'.s.mem && y'.s.mem[a] == y.s.mem[a])
            else y' == y
  {
    if Extent(page, 1) in y.live {
      var y' := Step(y, NewRoot(page));
      var r := PageAddr(y.s.base, page);
      BlockWriteKeepsTrees(y, Extent(page, 1), page, ZeroTable());
      ClearedRoot(y'.s, page);
      forall v: nat ensures Translate(y'.s.mem, r, v) == None {
        ClearedWalk(y'.s.mem, r, 3, v / 512);
      }
    }
  }

  /** A store leaves its words in a page of a live block, and changes nothing else. */
  lemma StoreMeans(y: System, page: nat, words: Table)
    ensures var y', at := Step(y, Store(page, words)), y.s.base + 4096 * page;
            if exists e :: e in y.live && e.start <= page < e.start + e.n then
              && y' == y.(s := y'.s) && y'.s == y.s.(mem := y'.s.mem)
              && at in y'.s.mem && y'.s.mem[at] == words
              && (forall a :: a in y.s.mem && a != at ==> a in y'.s.mem && y'.s.mem[a] == y.s.mem[a])
            else y' == y
  {
  }

  lemma AllocStep(y: System, n: nat)
    requires Inv(y)
    ensures Inv(Step(y, Alloc(n)))
  {
    if n > 0 && FirstFit(y.s.used, y.s.total, n).Some? {
      var k := FirstFit(y.s.used, y.s.total, n).value;
      var y' := Step(y, Alloc(n));
      assert ValidState(y'.s);
      KeptTrees(y, y'.s);
      forall o, j ensures Owns(y', o, j) <==> Owns(y, o, j) || (o == Client(Extent(k, n)) && j in Range(k, n)) {}
      NewOwner(y, y', Client(Extent(k, n)), Range(k, n));
    }
  }

  /** Handing free pages to one owner keeps ownership exact. */
  lemma NewOwner(y: System, y': System, owner: Owner, pages: set<nat>)
    requires Inv(y) && pages !! y.s.used && y'.s.used == y.s.used + pages
    requires forall o, j :: Owns(y', o, j) <==> Owns(y, o, j) || (o == owner && j in pages)
    ensures forall j :: HasOwner(y', j) <==> j in y'.s.used
    ensures OneOwner(y')
  {
    forall j ensures HasOwner(y', j) <==> j in y'.s.used {
      if j in pages {
        assert Owns(y', owner, j);
      }
      if HasOwner(y, j) {
        var o :| Owns(y, o, j);
        assert Owns(y', o, j);
      }
    }
    forall o, o', j | Owns(y', o, j) && Owns(y', o', j) ensures o == o' {
      if j in pages {
        assert !HasOwner(y, j);
      }
    }
  }

  /** A page of a tree belongs to no live block. */
  lemma TreePageNotLive(y: System, root: nat, e: Extent, j: nat)
    requires Inv(y) && root in y.roots && InTree(y.s, root, j) && e in y.live
    ensures !(e.start <= j < e.start + e.n)
  {
    assert Owns(y, Tree(root), j);
    assert Owns(y, Client(e), j) <==> e.start <= j < e.start + e.n;
  }

  lemma ReleaseStep(y: System, e: Extent)
    requires Inv(y)
    ensures Inv(Step(y, Release(e)))
  {
    if e in y.live {
      var y' := Step(y, Release(e));
      forall root | root in y.roots ensures KeepsPages(y.s, y'.s, root) {
        RootInTree(y.s, root);
        forall j | InTree(y.s, root, j)
          ensures var a := PageAddr(y.s.base, j); (j in y.s.used ==> j in y'.s.used) && a in y'.s.mem && y'.s.mem[a] == y.s.mem[a]
        {
          TreePageNotLive(y, root, e, j);
          TreePageIsUsed(y, root, j);
        }
      }
      KeptTrees(y, y'.s);
      forall o, j ensures Owns(y', o, j) <==> Owns(y, o, j) && o != Client(e) {}
      forall j ensures HasOwner(y', j) <==> j in y'.s.used {
        ReleasedPage(y, y', e, j);
      }
    }
  }

  lemma TreePageIsUsed(y: System, root: nat, j: nat)
    requires Inv(y) && root in y.roots && InTree(y.s, root, j)
    ensures j in y.s.used && PageAddr(y.s.base, j) in y.s.mem
  {
    assert Owns(y, Tree(root), j);
    assert HasOwner(y, j);
  }

  lemma ReleasedPage(y: System, y': System, e: Extent, j: nat)
    requires Inv(y) && e in y.live && y'.s.used == y.s.used - Range(e.start, e.n)
    requires forall o, j :: Owns(y', o, j) <==> Owns(y, o, j) && o != Client(e)
    ensures HasOwner(y', j) <==> j in y'.s.used
  {
    if e.start <= j < e.start + e.n {
      assert Owns(y, Client(e), j);
    }
    if HasOwner(y', j) {
      var o :| Owns(y', o, j);
      assert Owns(y, o, j);
    }
    if j in y'.s.used {
      var o :| Owns(y, o, j);
      assert Owns(y', o, j);
    }
  }

  /** Writing a page of a live block changes no tree. */
  lemma BlockWriteKeepsTrees(y: System, e: Extent, j: nat, words: Table)
    requires Inv(y) && e in y.live && e.start <= j < e.start + e.n
    ensures j in y.s.used && PageAddr(y.s.base, j) in y.s.mem
    ensures var s' := y.s.(mem := y.s.mem[PageAddr(y.s.base, j) := words]);
            ValidState(s') && forall root :: root in y.roots ==> KeepsPages(y.s, s', root)
  {
    assert Owns(y, Client(e), j);
    assert HasOwner(y, j);
    var s' := y.s.(mem := y.s.mem[PageAddr(y.s.base, j) := words]);
    forall root | root in y.roots ensures KeepsPages(y.s, s', root) {
      forall i | InTree(y.s, root, i)
        ensures var a := PageAddr(y.s.base, i); a in s'.mem && s'.mem[a] == y.s.mem[a]
      {
        TreePageNotLive(y, root, e, i);
        TreePageIsUsed(y, root, i);
      }
    }
  }

  lemma StoreStep(y: System, j: nat, words: Table)
    requires Inv(y)
    ensures Inv(Step(y, Store(j, words)))
  {
    if e :| e in y.live && e.start <= j < e.start + e.n {
      var y' := Step(y, Store(j, words));
      BlockWriteKeepsTrees(y, e, j, words);
      KeptTrees(y, y'.s);
      forall o, j ensures Owns(y', o, j) <==> Owns(y, o, j) {}
      SameOwners(y, y');
    }
  }

  lemma SameOwners(y: System, y': System)
    requires forall j :: HasOwner(y, j) <==> j in y.s.used
    requires OneOwner(y) && y'.s.used == y.s.used
    requires forall o, j :: Owns(y', o, j) <==> Owns(y, o, j)
    ensures forall j :: HasOwner(y', j) <==> j in y'.s.used
    ensures OneOwner(y')
  {
    forall j ensures HasOwner(y', j) <==> HasOwner(y, j) {}
  }

  /** A used page is a tree of its own exactly when it is cleared. */
  lemma ClearedRootExactly(s: State, root: nat)
    requires ValidState(s) && root in s.used
    ensures WellFormed(s, PageAddr(s.base, root)) && (forall j :: InTree(s, root, j) <==> j == root)
       <==> s.mem[PageAddr(s.base, root)] == ZeroTable()
  {
    var r := PageAddr(s.base, root);
    if s.mem[r] == ZeroTable() {
      ClearedRoot(s, root);
    } else if WellFormed(s, r) && forall j :: InTree(s, root, j) <==> j == root {
      assert Walk(s.mem, r, 0, 0) == Some(r) && TableOk(s, r, 0, r);
      var i :| 0 <= i < 512 && s.mem[r][i] != ZERO_PTE;
      assert InnerForm(s.mem[r][i]);
      EntryIsChild(s.mem, r, 0, 0, i);
      assert Walk(s.mem, r, 1, i).Some?;
      var j := TablePage(s, root, 1, i);
      assert false;
    }
  }

  lemma ClearedRoot(s: State, root: nat)
    requires ValidState(s) && root in s.used && s.mem[PageAddr(s.base, root)] == ZeroTable()
    ensures WellFormed(s, PageAddr(s.base, root))
    ensures forall j :: InTree(s, root, j) <==> j == root
  {
    var r := PageAddr(s.base, root);
    UsedIsOwned(s, root);
    RootInTree(s, root);
    forall l: nat, p | 1 <= l <= 3 ensures Walk(s.mem, r, l, p).None? {
      ClearedWalk(s.mem, r, l, p);
    }
    forall j | InTree(s, root, j) ensures j == root {
      var l: nat, p :| l <= 3 && Walk(s.mem, r, l, p) == Some(PageAddr(s.base, j));
      DistinctPages(s.base, j, root);
    }
    assert EntriesWellFormed(ZeroTable(), 0);
    assert TableOk(s, r, 0, r);
  }

  lemma NewRootStep(y: System, k: nat)
    requires Inv(y)
    ensures Inv(Step(y, NewRoot(k)))
  {
    var e := Extent(k, 1);
    if e in y.live {
      var y' := Step(y, NewRoot(k));
      BlockWriteKeepsTrees(y, e, k, ZeroTable());
      KeptTrees(y, y'.s);
      ClearedRoot(y'.s, k);
      assert k !in y.roots by {
        if k in y.roots { RootInTree(y.s, k); TreePageNotLive(y, k, e, k); }
      }
      forall o, j
        ensures Owns(y', o, j) <==> (Owns(y, o, j) && o != Client(e)) || (o == Tree(k) && j == k)
      {}
      MovedOwner(y, y', e, k);
    }
  }

  /** A one-page block handed over to become a root. */
  lemma MovedOwner(y: System, y': System, e: Extent, k: nat)
    requires Inv(y) && e == Extent(k, 1) && e in y.live && y'.s.used == y.s.used
    requires forall o, j :: Owns(y', o, j) <==> (Owns(y, o, j) && o != Client(e)) || (o == Tree(k) && j == k)
    ensures forall j :: HasOwner(y', j) <==> j in y'.s.used
    ensures OneOwner(y')
  {
    assert Owns(y, Client(e), k);
    forall j ensures HasOwner(y', j) <==> j in y'.s.used {
      if HasOwner(y', j) {
        var o :| Owns(y', o, j);
        assert Owns(y, if j == k then Client(e) else o, j);
      }
      if HasOwner(y, j) {
        var o :| Owns(y, o, j);
        assert Owns(y', if j == k then Tree(k) else o, j);
      }
    }
  }

  // ----- map_page among other owners ---------------------------------------------

  /** A table that a call adds to a tree is a page that call takes. */
  lemma NewTableTaken(s: State, s': State, root: nat, vpn: nat, l: nat, p: nat, j: nat)
    requires WellFormed(s', PageAddr(s'.base, root)) && root in s'.used && s'.base == s.base
    requires KeepsTables(s, s', PageAddr(s.base, root), vpn) && NewTablesWereFree(s, s', PageAddr(s.base, root), vpn)
    requires l <= 3 && Walk(s.mem, PageAddr(s.base, root), l, p).None?
    requires Walk(s'.mem, PageAddr(s.base, root), l, p) == Some(PageAddr(s.base, j))
    ensures j in s'.used && j !in s.used
  {
    assert PathTable(s.mem, PageAddr(s.base, root), vpn, l).None?;
    var k: nat :| k < s.total && k !in s.used && PageAddr(s.base, j) == PageAddr(s.base, k);
    DistinctPages(s.base, j, k);
    var i := TablePage(s', root, l, p);
    DistinctPages(s.base, i, j);
  }

  /** What one map_page call does to the pages of its own tree: it adds the pages it takes. */
  lemma MapOwnTree(s: State, root: nat, c: Call, j: nat)
    requires WellFormed(s, PageAddr(s.base, root)) && root in s.used
    ensures var s' := MapPage(s, PageAddr(s.base, root), c.va, c.pa, c.perms).0;
            InTree(s', root, j) <==> InTree(s, root, j) || (j in s'.used && j !in s.used)
  {
    var r := PageAddr(s.base, root);
    var vpn := PageNumber(c.va);
    var s' := MapPage(s, r, c.va, c.pa, c.perms).0;
    MapPageTouchesOnlyThePath(s, r, c.va, c.pa, c.perms);
    MapPageRefinesFlatMap(s, r, c.va, c.pa, c.perms);
    if InTree(s', root, j) {
      var l: nat, p :| l <= 3 && Walk(s'.mem, r, l, p) == Some(PageAddr(s.base, j));
      if Walk(s.mem, r, l, p).None? {
        NewTableTaken(s, s', root, vpn, l, p, j);
      }
    }
    if InTree(s, root, j) {
      var l: nat, p :| l <= 3 && Walk(s.mem, r, l, p) == Some(PageAddr(s.base, j));
      assert Walk(s'.mem, r, l, p) == Some(PageAddr(s.base, j));
    }
  }

  /** A frame map_page writes is a page of its own tree, old or new. */
  lemma MapWrites(s: State, root: nat, c: Call, a: nat) returns (j: nat)
    requires WellFormed(s, PageAddr(s.base, root)) && root in s.used && a in s.mem
    requires a !in MapPage(s, PageAddr(s.base, root), c.va, c.pa, c.perms).0.mem
             || MapPage(s, PageAddr(s.base, root), c.va, c.pa, c.perms).0.mem[a] != s.mem[a]
    ensures a == PageAddr(s.base, j) && j < s.total && (InTree(s, root, j) || j !in s.used)
  {
    var r := PageAddr(s.base, root);
    var vpn := PageNumber(c.va);
    var s' := MapPage(s, r, c.va, c.pa, c.perms).0;
    MapPageTouchesOnlyThePath(s, r, c.va, c.pa, c.perms);
    MapPageRefinesFlatMap(s, r, c.va, c.pa, c.perms);
    var l: nat :| l <= 3 && PathTable(s'.mem, r, vpn, l) == Some(a);
    j := TablePage(s', root, l, Prefix(vpn, l));
    MapOwnTree(s, root, c, j);
  }

  /** map_page on one tree keeps every page of every other tree. */
  lemma MapKeepsOtherTree(y: System, root: nat, c: Call, other: nat)
    requires Inv(y) && root in y.roots && other in y.roots && other != root
    ensures KeepsPages(y.s, MapPage(y.s, PageAddr(y.s.base, root), c.va, c.pa, c.perms).0, other)
  {
    var s' := MapPage(y.s, PageAddr(y.s.base, root), c.va, c.pa, c.perms).0;
    MapPageTouchesOnlyThePath(y.s, PageAddr(y.s.base, root), c.va, c.pa, c.perms);
    RootInTree(y.s, other);
    forall j | InTree(y.s, other, j)
      ensures var a := PageAddr(y.s.base, j); j in s'.used && a in s'.mem && a in y.s.mem && s'.mem[a] == y.s.mem[a]
    {
      TreePageIsUsed(y, other, j);
      var a := PageAddr(y.s.base, j);
      if a !in s'.mem || s'.mem[a] != y.s.mem[a] {
        var i := MapWrites(y.s, root, c, a);
        DistinctPages(y.s.base, i, j);
        assert Owns(y, Tree(root), j) && Owns(y, Tree(other), j);
        assert false;
      }
    }
  }

  lemma MapOwners(y: System, root: nat, c: Call)
    requires Inv(y) && root in y.roots
    ensures var y' := Step(y, Map(root, c));
            forall o, j :: Owns(y', o, j) <==> Owns(y, o, j) || (o == Tree(root) && j in y'.s.used - y.s.used)
  {
    var y' := Step(y, Map(root, c));
    MapPageTouchesOnlyThePath(y.s, PageAddr(y.s.base, root), c.va, c.pa, c.perms);
    MapPageRefinesFlatMap(y.s, PageAddr(y.s.base, root), c.va, c.pa, c.perms);
    forall o, j ensures Owns(y', o, j) <==> Owns(y, o, j) || (o == Tree(root) && j in y'.s.used - y.s.used) {
      if o.Tree? && o.root in y.roots {
        if o.root == root {
          MapOwnTree(y.s, root, c, j);
        } else {
          MapKeepsOtherTree(y, root, c, o.root);
          KeptTree(y.s, y'.s, o.root);
        }
      }
    }
  }

  lemma MapStep(y: System, root: nat, c: Call)
    requires Inv(y)
    ensures Inv(Step(y, Map(root, c)))
  {
    if root in y.roots {
      var y' := Step(y, Map(root, c));
      var r := PageAddr(y.s.base, root);
      MapPageTouchesOnlyThePath(y.s, r, c.va, c.pa, c.perms);
      MapPageRefinesFlatMap(y.s, r, c.va, c.pa, c.perms);
      forall other | other in y.roots && other != root
        ensures WellFormed(y'.s, PageAddr(y.s.base, other))
      {
        MapKeepsOtherTree(y, root, c, other);
        KeptTree(y.s, y'.s, other);
      }
      var taken := y'.s.used - y.s.used;
      MapOwners(y, root, c);
      assert y'.s.used == y.s.used + taken;
      NewOwner(y, y', Tree(root), taken);
    }
  }

  // ----- runs ----------------------------------------------------------------------

  /** Every step keeps the ownership invariant. */
  lemma StepKeepsInv(y: System, op: Op)
    requires Inv(y)
    ensures Inv(Step(y, op))
  {
    match op
    case Alloc(n) => AllocStep(y, n);
    case Release(e) => ReleaseStep(y, e);
    case NewRoot(page) => NewRootStep(y, page);
    case Map(root, c) => MapStep(y, root, c);
    case Store(page, words) => StoreStep(y, page, words);
  }

  /** A frame that is no page, or is a page reserved at boot. */
  ghost predicate OffLimits(y: System, a: nat)
  {
    forall j: nat :: j < y.s.total && a == PageAddr(y.s.base, j) ==> j in y.reserved
  }

  /** The boot frames, and what they hold, are the same in both states. */
  ghost predicate KeepsBoot(y: System, y': System)
  {
    && y'.reserved == y.reserved && y'.s.base == y.s.base && y'.s.total == y.s.total
    && forall a :: a in y.s.mem && OffLimits(y, a) ==> a in y'.s.mem && y'.s.mem[a] == y.s.mem[a]
  }

  lemma BlockPageNotReserved(y: System, e: Extent, j: nat)
    requires Inv(y) && e in y.live && e.start <= j < e.start + e.n
    ensures !OffLimits(y, PageAddr(y.s.base, j))
  {
    assert Owns(y, Client(e), j);
    assert HasOwner(y, j);
    assert Owns(y, AtBoot, j) <==> j in y.reserved;
  }

  lemma MapKeepsBoot(y: System, root: nat, c: Call)
    requires Inv(y) && root in y.roots
    ensures KeepsBoot(y, Step(y, Map(root, c)))
  {
    var y' := Step(y, Map(root, c));
    MapPageTouchesOnlyThePath(y.s, PageAddr(y.s.base, root), c.va, c.pa, c.perms);
    forall a | a in y.s.mem && OffLimits(y, a) ensures a in y'.s.mem && y'.s.mem[a] == y.s.mem[a] {
      if a !in y'.s.mem || y'.s.mem[a] != y.s.mem[a] {
        var j := MapWrites(y.s, root, c, a);
        assert Owns(y, AtBoot, j);
        assert HasOwner(y, j);
        assert Owns(y, Tree(root), j);
        assert false;
      }
    }
  }

  lemma StepKeepsBoot(y: System, op: Op)
    requires Inv(y)
    ensures KeepsBoot(y, Step(y, op))
  {
    match op
    case Alloc(n) =>
    case Release(e) =>
    case NewRoot(page) =>
      if Extent(page, 1) in y.live { BlockPageNotReserved(y, Extent(page, 1), page); }
    case Map(root, c) =>
      if root in y.roots { MapKeepsBoot(y, root, c); }
    case Store(page, words) =>
      if e :| e in y.live && e.start <= page < e.start + e.n { BlockPageNotReserved(y, e, page); }
  }

  function Run(y: System, ops: seq<Op>): System
  {
    if ops == [] then y else Step(Run(y, ops[..|ops| - 1]), ops[|ops| - 1])
  }

  /**
   * Over any run, the reserved pages, the live blocks and the pages of the trees are pairwise disjoint and together
   * are exactly the pages whose bits are set, every tree is well formed, and no reserved page and no frame outside
   * the managed range is ever written.
   */
  lemma {:induction false} RunKeepsOwnership(y: System, ops: seq<Op>)
    requires Inv(y)
    ensures Inv(Run(y, ops)) && KeepsBoot(y, Run(y, ops))
  {
    if ops != [] {
      var y1 := Run(y, ops[..|ops| - 1]);
      RunKeepsOwnership(y, ops[..|ops| - 1]);
      StepKeepsInv(y1, ops[|ops| - 1]);
      StepKeepsBoot(y1, ops[|ops| - 1]);
      forall a | OffLimits(y, a) ensures OffLimits(y1, a) {}
    }
  }

  /** No step but map_page on a tree itself changes what that tree maps. */
  lemma TreesAreIsolated(y: System, op: Op, other: nat)
    requires Inv(y) && other in y.roots
    requires !(op.Map? && op.root == other)
    ensures other in Step(y, op).roots && SameMap(y.s, Step(y, op).s, PageAddr(y.s.base, other))
  {
    match op
    case Alloc(n) =>
    case Release(e) =>
    case NewRoot(page) =>
      if Extent(page, 1) in y.live {
        BlockWriteKeepsTrees(y, Extent(page, 1), page, ZeroTable());
        KeptTree(y.s, Step(y, op).s, other);
      }
    case Map(root, c) =>
      if root in y.roots {
        MapKeepsOtherTree(y, root, c, other);
        MapPageRefinesFlatMap(y.s, PageAddr(y.s.base, root), c.va, c.pa, c.perms);
        KeptTree(y.s, Step(y, op).s, other);
      }
    case Store(page, words) =>
      if e :| e in y.live && e.start <= page < e.start + e.n {
        BlockWriteKeepsTrees(y, e, page, words);
        KeptTree(y.s, Step(y, op).s, other);
      }
  }

  /** What a page maps to in a tree; a root that does not exist maps nothing. */
  function MapsTo(y: System, root: nat, vpn: nat): Option<TableTree.Mapping>
  {
    if root in y.roots then Translate(y.s.mem, PageAddr(y.s.base, root), vpn) else None
  }

  /** The call, if the step is a map_page on the tree that succeeds. */
  function StepWrites(y: System, op: Op, root: nat): seq<Call>
  {
    if op.Map? && op.root == root && root in y.roots
       && MapPage(y.s, PageAddr(y.s.base, root), op.call.va, op.call.pa, op.call.perms).1
    then [op.call] else []
  }

  /** The calls in a run that mapped a page of the tree. */
  function Writes(y: System, ops: seq<Op>, root: nat): seq<Call>
  {
    if ops == [] then []
    else Writes(y, ops[..|ops| - 1], root) + StepWrites(Run(y, ops[..|ops| - 1]), ops[|ops| - 1], root)
  }

  lemma StepTranslates(y: System, op: Op, root: nat)
    requires Inv(y)
    ensures forall v: nat :: MapsTo(Step(y, op), root, v) == LastWrite(StepWrites(y, op, root), v, MapsTo(y, root, v))
  {
    StepKeepsBoot(y, op);
    var r, mem := PageAddr(y.s.base, root), Step(y, op).s.mem;
    if op.Map? && op.root == root {
      if root in y.roots {
        MapPageRefinesFlatMap(y.s, r, op.call.va, op.call.pa, op.call.perms);
      }
    } else if root in y.roots {
      TreesAreIsolated(y, op, root);
    } else if root in Step(y, op).roots {
      forall v: nat ensures Translate(mem, r, v) == None {
        ClearedWalk(mem, r, 3, v / 512);
      }
    }
  }

  lemma LastWriteAppend(a: seq<Call>, b: seq<Call>, v: nat, before: Option<TableTree.Mapping>)
    requires |b| <= 1
    ensures LastWrite(a + b, v, before) == LastWrite(b, v, LastWrite(a, v, before))
  {
    if b == [] {
      assert a + b == a;
    } else {
      assert (a + b)[..|a|] == a;
    }
  }

  /**
   * Whatever else goes on in a run - allocations, releases, stores, new roots, other trees - a tree ends up with the
   * last successful writes of its own map_page calls.
   */
  lemma {:induction false} RunTranslates(y: System, ops: seq<Op>, root: nat)
    requires Inv(y)
    ensures forall v: nat :: MapsTo(Run(y, ops), root, v) == LastWrite(Writes(y, ops, root), v, MapsTo(y, root, v))
  {
    if ops != [] {
      var init, op := ops[..|ops| - 1], ops[|ops| - 1];
      RunKeepsOwnership(y, init);
      RunTranslates(y, init, root);
      StepTranslates(Run(y, init), op, root);
      forall v: nat
        ensures MapsTo(Run(y, ops), root, v) == LastWrite(Writes(y, ops, root), v, MapsTo(y, root, v))
      {
        LastWriteAppend(Writes(y, init, root), StepWrites(Run(y, init), op, root), v, MapsTo(y, root, v));
      }
    }
  }
}
