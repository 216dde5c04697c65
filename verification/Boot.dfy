/** The boot sequence, and what it guarantees to every run that follows. */
module Boot {
  import opened Arithmetic
  import opened Descriptors
  import opened PageSets
  import opened PageAllocator
  import opened TableTree
  import opened TableSteps
  import opened Mapping
  import opened PageTable
  import opened MemoryMap
  import opened Ownership

  /** How many pages the image size rounds up to. */
  function ImageCount(imageStart: nat, imageEnd: nat): nat
    requires imageStart <= imageEnd
  {
    (imageEnd - imageStart + PAGE_SIZE - 1) / PAGE_SIZE
  }

  /** The image, rounded up to whole pages, lies inside a managed range that does not start at NULL. */
  predicate ImageInside(base: nat, total: nat, imageStart: nat, imageEnd: nat)
    requires imageStart <= imageEnd
  {
    0 < base <= imageStart && 0 < total && imageStart + ImageCount(imageStart, imageEnd) * PAGE_SIZE <= base + total * PAGE_SIZE
  }

  /** Reserves the pages from the one that holds imageStart on, as many as the image size rounds up to. */
  method ReserveKernelImagePages(pages: Allocator, imageStart: nat, imageEnd: nat) returns (ok: bool)
    requires pages.Valid() && imageStart <= imageEnd && imageEnd + PAGE_SIZE < TWO_64
    modifies pages`bits, pages.bitmapArea
    ensures pages.Valid()
    ensures ok <==> ImageInside(pages.memBase, pages.totalPages, imageStart, imageEnd)
    ensures ok ==> pages.Used() == old(pages.Used()) + ImagePages(pages.memBase, imageStart, imageEnd)
    ensures !ok ==> pages.bits == old(pages.bits) && unchanged(pages.bitmapArea)
  {
    var imgSize := imageEnd - imageStart;
    var numPages := (imgSize + PAGE_SIZE - 1) / PAGE_SIZE;
    ok := pages.ReservePage(imageStart, numPages);
  }

  function ImagePages(base: nat, imageStart: nat, imageEnd: nat): set<nat>
    requires base <= imageStart <= imageEnd
  {
    Range((imageStart - base) / PAGE_SIZE, ImageCount(imageStart, imageEnd))
  }

  /** Page k holds a byte of [start, end). */
  predicate Overlaps(base: nat, k: nat, start: nat, end: nat)
  {
    PageAddr(base, k) < end && start < PageAddr(base, k) + PAGE_SIZE
  }

  /**
   * The pages reserved for the image are those that hold a byte of it exactly when its start, if off a page
   * boundary, does not push its end over one more boundary than its size alone would cross. An image that starts
   * on a page boundary, as the linker script makes it, always passes.
   */
  lemma ImagePagesCover(base: nat, imageStart: nat, imageEnd: nat)
    requires base % PAGE_SIZE == 0 && base <= imageStart < imageEnd
    ensures (forall k: nat :: Overlaps(base, k, imageStart, imageEnd) <==> k in ImagePages(base, imageStart, imageEnd))
       <==> imageStart % PAGE_SIZE + (imageEnd - imageStart) <= ImageCount(imageStart, imageEnd) * PAGE_SIZE
    ensures imageStart % PAGE_SIZE == 0 ==>
              forall k: nat :: Overlaps(base, k, imageStart, imageEnd) <==> k in ImagePages(base, imageStart, imageEnd)
  {
    var first, n := (imageStart - base) / PAGE_SIZE, ImageCount(imageStart, imageEnd);
    var last := (imageEnd - 1 - base) / PAGE_SIZE;
    forall k: nat ensures Overlaps(base, k, imageStart, imageEnd) <==> first <= k <= last {
      OverlapsBetween(base, k, imageStart, imageEnd);
    }
    LastImagePage(base, imageStart, imageEnd);
    if last == first + n {
      assert Overlaps(base, last, imageStart, imageEnd);
    }
  }

  lemma OverlapsBetween(base: nat, k: nat, start: nat, end: nat)
    requires base % PAGE_SIZE == 0 && base <= start < end
    ensures Overlaps(base, k, start, end) <==> (start - base) / PAGE_SIZE <= k <= (end - 1 - base) / PAGE_SIZE
  {
  }

  /** The page of the last byte is the last one reserved, or the one behind it. */
  lemma LastImagePage(base: nat, start: nat, end: nat)
    requires base % PAGE_SIZE == 0 && base <= start < end
    ensures (end - 1 - base) / PAGE_SIZE
         == (start - base) / PAGE_SIZE + ImageCount(start, end)
            - if start % PAGE_SIZE + (end - start) > ImageCount(start, end) * PAGE_SIZE then 0 else 1
  {
  }

  /** What boot needs: one region, a bitmap for its whole pages, and the image inside them. */
  ghost predicate Boots(regions: seq<Region>, bitmapBytes: nat, imageStart: nat, imageEnd: nat)
    requires imageStart <= imageEnd
  {
    |regions| == 1 && exists base: nat, total: nat ::
        LargestRun(regions[0].base, regions[0].size, base, total)
        && total <= 8 * bitmapBytes && ImageInside(base, total, imageStart, imageEnd)
  }

  /** main up to the first use of the allocator: one memory region, page_init on it, and the image reserved. */
  method BootMemory(pages: Allocator, regions: seq<Region>, imageStart: nat, imageEnd: nat) returns (ok: bool)
    requires forall r :: r in regions ==> r.base + r.size < TWO_64
    requires imageStart <= imageEnd && imageEnd + PAGE_SIZE < TWO_64
    modifies pages, pages.bitmapArea
    ensures ok <==> Boots(regions, pages.bitmapArea.Length, imageStart, imageEnd)
    ensures ok ==> |regions| == 1 && LargestRun(regions[0].base, regions[0].size, pages.memBase, pages.totalPages)
    ensures ok ==> pages.Valid() && 0 < pages.memBase <= imageStart
    ensures ok ==> pages.Used() == ImagePages(pages.memBase, imageStart, imageEnd)
  {
    if |regions| != 1 {
      return false;
    }
    var inited := pages.PageInit(regions[0].base, regions[0].size);
    if !inited {
      return false;
    }
    ok := ReserveKernelImagePages(pages, imageStart, imageEnd);
    forall base: nat, total: nat | LargestRun(regions[0].base, regions[0].size, base, total)
      ensures base == pages.memBase && total == pages.totalPages
    {
      OneLargestRun(regions[0].base, regions[0].size, base, total, pages.memBase, pages.totalPages);
    }
  }

  /** The system right after boot: nothing but the boot reservation is in use. */
  function Booted(s: State): System
  {
    System(s, s.used, {}, {})
  }

  lemma BootedInv(s: State)
    requires ValidState(s)
    ensures Inv(Booted(s))
  {
    var y := Booted(s);
    forall j ensures HasOwner(y, j) <==> j in s.used {
      assert Owns(y, AtBoot, j) <==> j in s.used;
    }
  }

  /**
   * Whatever clients do after a successful boot, ownership stays exact, no table, root or client store writes a
   * frame that holds a byte of any part [from, to) of the kernel image, and no block or tree ever has a page that
   * overlaps the image. The allocator's own stores into the bitmap are not frame stores: module OneMemory puts the
   * bitmap into the same memory and accounts for them bit by bit.
   */
  lemma BootProtectsImage(s: State, imageStart: nat, imageEnd: nat, from: nat, to: nat, ops: seq<Op>)
    requires ValidState(s) && s.base <= imageStart <= from < to <= imageEnd && imageStart % PAGE_SIZE == 0
    requires s.used == ImagePages(s.base, imageStart, imageEnd)
    ensures var y := Run(Booted(s), ops);
            && Inv(y)
            && (forall k: nat :: Overlaps(s.base, k, from, to) ==>
                  var a := PageAddr(s.base, k); a in y.s.mem && a in s.mem && y.s.mem[a] == s.mem[a])
            && (forall o, j :: o != AtBoot && Owns(y, o, j) ==> !Overlaps(s.base, j, imageStart, imageEnd))
  {
    var y := Run(Booted(s), ops);
    BootedInv(s);
    RunKeepsOwnership(Booted(s), ops);
    ImagePagesCover(s.base, imageStart, imageEnd);
    forall k: nat | Overlaps(s.base, k, from, to)
      ensures var a := PageAddr(s.base, k); a in y.s.mem && a in s.mem && y.s.mem[a] == s.mem[a]
    {
      assert Overlaps(s.base, k, imageStart, imageEnd);
      ReservedIsOffLimits(s, k);
    }
    forall o, j | o != AtBoot && Owns(y, o, j) ensures !Overlaps(s.base, j, imageStart, imageEnd) {
      assert Owns(y, AtBoot, j) <==> j in s.used;
    }
  }

  lemma ReservedIsOffLimits(s: State, k: nat)
    requires ValidState(s) && k in s.used
    ensures PageAddr(s.base, k) in s.mem && OffLimits(Booted(s), PageAddr(s.base, k))
  {
    forall j: nat | j < s.total && PageAddr(s.base, k) == PageAddr(s.base, j) ensures j in s.used {
      DistinctPages(s.base, j, k);
    }
  }

  // ----- the run model and the methods -------------------------------------------

  lemma LiveBlockFits(y: System, e: Extent)
    requires Inv(y) && e in y.live
    ensures e.n > 0 ==> e.start + e.n <= y.s.total
  {
    if e.n > 0 {
      assert Owns(y, Client(e), e.start + e.n - 1);
      assert HasOwner(y, e.start + e.n - 1);
    }
  }

  method PerformRelease(k: Kernel, e: Extent, ghost y: System)
    requires k.Valid() && k.View() == y.s && Inv(y) && e in y.live
    modifies k.pages`bits, k.pages.bitmapArea
    ensures k.Valid() && k.View() == Step(y, Release(e)).s
  {
    LiveBlockFits(y, e);
    ReleaseStep(y, e);
    if e.n > 0 {
      k.pages.PageFree(k.pages.memBase + e.start * PAGE_SIZE, e.n);
    }
  }

  method PerformAlloc(k: Kernel, n: nat, live: set<Extent>, ghost y: System) returns (live': set<Extent>)
    requires k.Valid() && k.View() == y.s && live == y.live
    modifies k.pages`bits, k.pages.bitmapArea
    ensures k.Valid() && k.View() == Step(y, Alloc(n)).s && live' == Step(y, Alloc(n)).live
  {
    live' := live;
    var ptr := k.pages.PageAlloc(n);
    if ptr != 0 {
      ghost var j := FirstFit(y.s.used, y.s.total, n).value;
      assert ptr == k.pages.memBase + j * PAGE_SIZE && (ptr - k.pages.memBase) / PAGE_SIZE == j;
      live' := live + {Extent((ptr - k.pages.memBase) / PAGE_SIZE, n)};
    }
  }

  method PerformMap(k: Kernel, root: nat, c: Call, ghost y: System)
    requires k.Valid() && k.View() == y.s && Inv(y) && root in y.roots
    modifies k`mem, k.pages`bits, k.pages.bitmapArea
    ensures k.Valid() && k.View() == Step(y, Ownership.Map(root, c)).s
  {
    assert root in y.s.used;
    var ok := k.MapPage(k.pages.memBase + root * PAGE_SIZE, c.va, c.pa, c.perms);
  }

  /**
   * Every step of a run is what the kernel's own methods do to its memory and its bitmap. The caller keeps its live
   * blocks and its roots; what it may not do to them, it leaves alone.
   */
  method Perform(k: Kernel, op: Op, live: set<Extent>, roots: set<nat>, ghost y: System)
    returns (live': set<Extent>, roots': set<nat>)
    requires k.Valid() && Inv(y) && k.View() == y.s && live == y.live && roots == y.roots
    modifies k`mem, k.pages`bits, k.pages.bitmapArea
    ensures k.Valid() && k.View() == Step(y, op).s && live' == Step(y, op).live && roots' == Step(y, op).roots
  {
    StepKeepsInv(y, op);
    live', roots' := live, roots;
    match op
    case Alloc(n) =>
      live' := PerformAlloc(k, n, live, y);
    case Release(e) =>
      if e in live {
        PerformRelease(k, e, y);
        live' := live - {e};
      }
    case NewRoot(page) =>
      if Extent(page, 1) in live {
        k.PageTableInit(k.pages.memBase + page * PAGE_SIZE);
        live', roots' := live - {Extent(page, 1)}, roots + {page};
      }
    case Map(root, c) =>
      if root in roots {
        PerformMap(k, root, c, y);
      }
    case Store(page, words) =>
      if InLiveBlock(live, page) {
        k.mem := k.mem[k.pages.memBase + page * PAGE_SIZE := words];
      }
  }

  method PerformAll(k: Kernel, ops: seq<Op>, ghost y: System) returns (live: set<Extent>, roots: set<nat>)
    requires k.Valid() && Inv(y) && k.View() == y.s && y.live == {} && y.roots == {}
    modifies k`mem, k.pages`bits, k.pages.bitmapArea
    ensures k.Valid() && k.View() == Run(y, ops).s && live == Run(y, ops).live && roots == Run(y, ops).roots
  {
    live, roots := {}, {};
    for i := 0 to |ops|
      invariant k.Valid() && k.View() == Run(y, ops[..i]).s && live == Run(y, ops[..i]).live && roots == Run(y, ops[..i]).roots
    {
      RunKeepsOwnership(y, ops[..i]);
      assert ops[..i + 1][..i] == ops[..i];
      live, roots := Perform(k, ops[i], live, roots, Run(y, ops[..i]));
    }
    assert ops[..|ops|] == ops;
  }

  /** The memory a region names is there, and page tables can address it. */
  predicate Installed(mem: Memory, r: Region)
  {
    r.base + r.size <= TWO_48
    && forall a: nat :: a < TWO_48 && r.base <= a && a + PAGE_SIZE <= r.base + r.size && a % PAGE_SIZE == 0 ==> a in mem
  }

  lemma BootState(mem: Memory, r: Region, base: nat, total: nat, imageStart: nat, imageEnd: nat)
    requires Installed(mem, r) && LargestRun(r.base, r.size, base, total)
    requires imageStart <= imageEnd && ImageInside(base, total, imageStart, imageEnd)
    ensures ValidState(State(base, total, ImagePages(base, imageStart, imageEnd), mem))
  {
  }

  /** The state in which boot hands the memory over: nothing but the image's pages is used. */
  function HandedOver(pages: Allocator, mem: Memory, imageStart: nat, imageEnd: nat): State
    requires pages.memBase <= imageStart <= imageEnd
    reads pages
  {
    State(pages.memBase, pages.totalPages, ImagePages(pages.memBase, imageStart, imageEnd), mem)
  }

  /** Any run of clients, performed by the kernel's methods on the memory boot hands over. */
  method RunClients(k: Kernel, imageStart: nat, imageEnd: nat, ops: seq<Op>, ghost s: State)
    requires k.Valid() && k.View() == s
    requires s.base <= imageStart < imageEnd && imageStart % PAGE_SIZE == 0 && s.used == ImagePages(s.base, imageStart, imageEnd)
    modifies k`mem, k.pages`bits, k.pages.bitmapArea
    ensures k.Valid() && k.View() == Run(Booted(s), ops).s && Inv(Run(Booted(s), ops))
    ensures KeepsImage(s, Run(Booted(s), ops), imageStart, imageEnd)
  {
    BootedInv(s);
    var live, roots := PerformAll(k, ops, Booted(s));
    BootProtectsImage(s, imageStart, imageEnd, imageStart, imageEnd, ops);
  }

  /** Every frame that holds a byte of the image is as it was, and no block or tree has such a page. */
  ghost predicate KeepsImage(s: State, y: System, imageStart: nat, imageEnd: nat)
  {
    && (forall j: nat :: Overlaps(s.base, j, imageStart, imageEnd) ==>
          var a := PageAddr(s.base, j); a in s.mem && a in y.s.mem && y.s.mem[a] == s.mem[a])
    && (forall o, j :: o != AtBoot && Owns(y, o, j) ==> !Overlaps(s.base, j, imageStart, imageEnd))
  }

  /** Boot, and the kernel's view of the memory it hands over. */
  method BootKernel(pages: Allocator, mem: Memory, regions: seq<Region>, imageStart: nat, imageEnd: nat) returns (ok: bool, k: Kernel)
    requires forall r :: r in regions ==> Installed(mem, r)
    requires imageStart <= imageEnd && imageEnd + PAGE_SIZE < TWO_64
    modifies pages, pages.bitmapArea
    ensures fresh(k) && k.pages == pages
    ensures ok <==> Boots(regions, pages.bitmapArea.Length, imageStart, imageEnd)
    ensures ok ==> pages.memBase <= imageStart && k.Valid() && k.View() == HandedOver(pages, mem, imageStart, imageEnd)
  {
    k := new Kernel(pages, mem);
    ok := BootMemory(pages, regions, imageStart, imageEnd);
    if ok {
      BootState(mem, regions[0], pages.memBase, pages.totalPages, imageStart, imageEnd);
    }
  }

  /**
   * Boot, and then any run of clients: boot succeeds exactly when it can, the methods do to memory and bitmap what
   * the run model says, and no page that holds a byte of the image is given out or written as a page.
   */
  method BootAndRun(pages: Allocator, mem: Memory, regions: seq<Region>, imageStart: nat, imageEnd: nat, ops: seq<Op>)
    returns (ok: bool, k: Kernel)
    requires forall r :: r in regions ==> Installed(mem, r)
    requires imageStart < imageEnd && imageStart % PAGE_SIZE == 0 && imageEnd + PAGE_SIZE < TWO_64
    modifies pages, pages.bitmapArea
    ensures fresh(k) && k.pages == pages
    ensures ok <==> Boots(regions, pages.bitmapArea.Length, imageStart, imageEnd)
    ensures ok ==>
              && k.Valid() && pages.memBase <= imageStart
              && var s := HandedOver(pages, mem, imageStart, imageEnd);
              && var y := Run(Booted(s), ops);
              && Inv(y) && k.View() == y.s && KeepsImage(s, y, imageStart, imageEnd)
  {
    ok, k := BootKernel(pages, mem, regions, imageStart, imageEnd);
    if ok {
      RunClients(k, imageStart, imageEnd, ops, HandedOver(pages, mem, imageStart, imageEnd));
    }
  }
}
