/** The page allocator: a bitmap, one bit to a page, in the area the linker script sets aside. */
module PageAllocator {
  import opened Arithmetic
  import opened Wrappers
  import opened Descriptors
  import opened Bitmap
  import opened PageSets

  /** The pages a bitmap marks used. */
  ghost function UsedPages(bits: seq<bool>, total: nat): (used: set<nat>)
    requires total <= |bits|
    ensures forall k :: k in used <==> 0 <= k < total && bits[k]
    ensures used <= Range(0, total)
  {
    set k: nat | k in Range(0, total) && bits[k]
  }

  /** The bits of the last bitmap byte that stand for no page are clear. */
  ghost predicate PaddingClear(bits: seq<bool>, total: nat)
  {
    forall i :: total <= i < |bits| && i < (total + 7) / 8 * 8 ==> !bits[i]
  }

  /** The bit string with every bit in [start, end) equal to `on`. */
  ghost function Fill(bits: seq<bool>, start: nat, end: nat, on: bool): (r: seq<bool>)
    requires end <= |bits|
    ensures |r| == |bits| && forall j :: 0 <= j < |bits| ==> r[j] == if start <= j < end then on else bits[j]
  {
    seq(|bits|, j requires 0 <= j < |bits| => if start <= j < end then on else bits[j])
  }

  lemma FillUses(bits: seq<bool>, total: nat, start: nat, n: nat)
    requires start + n <= total <= |bits|
    ensures UsedPages(Fill(bits, start, start + n, true), total) == UsedPages(bits, total) + Range(start, n)
    ensures PaddingClear(bits, total) ==> PaddingClear(Fill(bits, start, start + n, true), total)
  {
  }

  /** Freeing up to the end of the managed range frees every page of a longer range that exists. */
  lemma FillFrees(bits: seq<bool>, total: nat, start: nat, n: nat, end: nat)
    requires start <= total <= |bits|
    requires end == if start + n > total then total else start + n
    ensures UsedPages(Fill(bits, start, end, false), total) == UsedPages(bits, total) - Range(start, n)
    ensures PaddingClear(bits, total) ==> PaddingClear(Fill(bits, start, end, false), total)
  {
  }

  /** Marking free pages used and then freeing them restores every byte of the bitmap. */
  lemma FillThenClear(before: seq<bv8>, after: seq<bv8>, bits: seq<bool>, start: nat, end: nat)
    requires Stores(before, bits) && end <= |bits|
    requires forall j :: start <= j < end ==> !bits[j]
    requires Stores(after, Fill(Fill(bits, start, end, true), start, end, false))
    ensures after == before
  {
    assert Fill(Fill(bits, start, end, true), start, end, false) == bits;
    StoresInjective(before, after, bits);
  }

  /** A maximal run of pages in one state, as page_dump_status prints it. */
  datatype Block = Block(start: nat, end: nat, used: bool)

  /** A nonempty block whose pages are all in the state it names. */
  ghost predicate Uniform(pages: seq<bool>, b: Block)
  {
    b.start < b.end <= |pages| && forall k :: b.start <= k < b.end ==> pages[k] == b.used
  }

  /** The canonical run-length code of a bit string: adjacent nonempty blocks of alternating state that cover it. */
  ghost predicate RunLengthCode(blocks: seq<Block>, pages: seq<bool>)
  {
    && (blocks == [] <==> pages == [])
    && (blocks != [] ==> blocks[0].start == 0 && blocks[|blocks| - 1].end == |pages|)
    && (forall i :: 0 <= i < |blocks| ==> Uniform(pages, blocks[i]))
    && (forall i :: 0 < i < |blocks| ==> blocks[i - 1].end == blocks[i].start && blocks[i - 1].used != blocks[i].used)
  }

  /** A printed line: the first and the last address of a block, its state, and its number of pages. */
  datatype Line = Line(first: int, last: int, used: bool, pages: int)

  function LineOf(base: nat, b: Block): Line
  {
    Line(base + b.start * PAGE_SIZE, base + b.end * PAGE_SIZE - 1, b.used, b.end - b.start)
  }

  function LinesOf(base: nat, blocks: seq<Block>): (lines: seq<Line>)
    ensures |lines| == |blocks| && forall i :: 0 <= i < |blocks| ==> lines[i] == LineOf(base, blocks[i])
  {
    seq(|blocks|, i requires 0 <= i < |blocks| => LineOf(base, blocks[i]))
  }

  /**
   * The lines start at the base, follow one another without a gap, end at the last byte of the last page, alternate,
   * count their pages, and say of every page whether it is used.
   */
  ghost predicate Describes(lines: seq<Line>, base: nat, pages: seq<bool>)
  {
    && (lines == [] <==> pages == [])
    && (lines != [] ==> lines[0].first == base && lines[|lines| - 1].last == base + |pages| * 4096 - 1)
    && (forall i :: 0 < i < |lines| ==> lines[i].first == lines[i - 1].last + 1 && lines[i].used != lines[i - 1].used)
    && (forall i :: 0 <= i < |lines| ==> 0 < lines[i].pages && lines[i].pages * 4096 == lines[i].last + 1 - lines[i].first)
    && (forall i, k :: 0 <= i < |lines| && 0 <= k < |pages| && lines[i].first <= base + k * 4096 <= lines[i].last ==>
          lines[i].used == pages[k])
  }

  lemma LinesAre(base: nat, blocks: seq<Block>, pages: seq<bool>)
    requires RunLengthCode(blocks, pages)
    ensures Describes(LinesOf(base, blocks), base, pages)
  {
    var lines := LinesOf(base, blocks);
    forall i | 0 <= i < |lines|
      ensures 0 < lines[i].pages && lines[i].pages * 4096 == lines[i].last + 1 - lines[i].first
      ensures forall k :: 0 <= k < |pages| && lines[i].first <= base + k * 4096 <= lines[i].last ==> lines[i].used == pages[k]
    {
      LineTells(base, blocks[i], pages);
    }
    forall i | 0 < i < |lines|
      ensures lines[i].first == lines[i - 1].last + 1 && lines[i].used != lines[i - 1].used
    {
      LinesJoin(base, blocks[i - 1], blocks[i]);
    }
  }

  lemma LinesJoin(base: nat, a: Block, b: Block)
    ensures a.end == b.start ==> LineOf(base, b).first == LineOf(base, a).last + 1
  {
  }

  lemma LineTells(base: nat, b: Block, pages: seq<bool>)
    requires Uniform(pages, b)
    ensures var l := LineOf(base, b);
            && 0 < l.pages && l.pages * 4096 == l.last + 1 - l.first
            && forall k :: 0 <= k < |pages| && l.first <= base + k * 4096 <= l.last ==> l.used == pages[k]
  {
  }

  /** Two bitmaps that print the same lines are the same: the dump loses nothing. */
  lemma LinesDetermineBitmap(base: nat, a: seq<Block>, pages: seq<bool>, b: seq<Block>, pages': seq<bool>)
    requires RunLengthCode(a, pages) && RunLengthCode(b, pages') && LinesOf(base, a) == LinesOf(base, b)
    ensures pages == pages'
  {
    forall i | 0 <= i < |a| ensures a[i] == b[i] {
      assert LinesOf(base, a)[i] == LinesOf(base, b)[i];
    }
    assert a == b;
    forall k | 0 <= k < |pages| ensures pages[k] == pages'[k] {
      var i := BlockAt(a, pages, |a|, k);
      assert Uniform(pages, a[i]) && Uniform(pages', a[i]);
    }
  }

  /** The block that holds a page before the end of the first n blocks. */
  lemma {:induction false} BlockAt(blocks: seq<Block>, pages: seq<bool>, n: nat, k: nat) returns (i: nat)
    requires RunLengthCode(blocks, pages) && 0 < n <= |blocks| && k < blocks[n - 1].end
    ensures i < n && blocks[i].start <= k < blocks[i].end
  {
    i := n - 1;
    if k < blocks[n - 1].start {
      i := BlockAt(blocks, pages, n - 1, k);
    }
  }

  lemma AppendBlock(blocks: seq<Block>, shorter: seq<bool>, pages: seq<bool>, b: Block)
    requires RunLengthCode(blocks, shorter) && shorter <= pages
    requires Uniform(pages, b) && b.start == |shorter| && b.end == |pages|
    requires blocks != [] ==> blocks[|blocks| - 1].used != b.used
    ensures RunLengthCode(blocks + [b], pages)
  {
    forall i | 0 <= i < |blocks| ensures Uniform(pages, blocks[i]) {
      assert Uniform(shorter, blocks[i]);
    }
  }

  /** A bit string has only one run-length code, so the printed blocks determine the bitmap and the other way round. */
  lemma RunLengthCodeUnique(a: seq<Block>, b: seq<Block>, pages: seq<bool>)
    requires RunLengthCode(a, pages) && RunLengthCode(b, pages)
    ensures a == b
  {
    var n := if |a| <= |b| then |a| else |b|;
    PrefixAgrees(a, b, pages, n);
    if n > 0 {
      assert a[..n][n - 1] == b[..n][n - 1];
      NoBlockAfterEnd(a, pages, n - 1);
      NoBlockAfterEnd(b, pages, n - 1);
    }
    assert a == a[..n] && b == b[..n];
  }

  lemma NoBlockAfterEnd(blocks: seq<Block>, pages: seq<bool>, i: nat)
    requires RunLengthCode(blocks, pages) && i < |blocks|
    ensures blocks[i].end == |pages| <==> i == |blocks| - 1
  {
    assert Uniform(pages, blocks[i]);
    if i < |blocks| - 1 {
      assert Uniform(pages, blocks[i + 1]);
      assert blocks[i].end == blocks[i + 1].start;
    }
  }

  lemma {:induction false} PrefixAgrees(a: seq<Block>, b: seq<Block>, pages: seq<bool>, n: nat)
    requires RunLengthCode(a, pages) && RunLengthCode(b, pages) && n <= |a| && n <= |b|
    ensures a[..n] == b[..n]
  {
    if n > 0 {
      PrefixAgrees(a, b, pages, n - 1);
      var i := n - 1;
      if i > 0 {
        assert a[..i][i - 1] == b[..i][i - 1];
      }
      assert Uniform(pages, a[i]) && Uniform(pages, b[i]);
      assert pages[a[i].start] == pages[b[i].start];
      EndNotBefore(a, b, pages, i);
      EndNotBefore(b, a, pages, i);
      assert a[..n] == a[..i] + [a[i]] && b[..n] == b[..i] + [b[i]];
    }
  }

  lemma EndNotBefore(a: seq<Block>, b: seq<Block>, pages: seq<bool>, i: nat)
    requires RunLengthCode(a, pages) && RunLengthCode(b, pages) && i < |a| && i < |b|
    requires a[i].start == b[i].start && a[i].used == b[i].used
    ensures a[i].end >= b[i].end
  {
    assert Uniform(pages, a[i]) && Uniform(pages, b[i]);
    if i + 1 < |a| {
      assert Uniform(pages, a[i + 1]);
      assert pages[a[i].end] == a[i + 1].used;
    }
  }

  /**
   * Where page_free stops, in 64-bit arithmetic: a range that runs past the last page is cut off there, and one
   * that wraps ends before it starts.
   */
  function FreeEnd(start: nat, n: nat, total: nat): (end: nat)
    requires start < total < TWO_64 && n < TWO_64
    ensures end <= total
    ensures start + n < TWO_64 ==> end == if start + n > total then total else start + n
    ensures start + n >= TWO_64 ==> end < start
  {
    var numPages := if (start + n) % TWO_64 > total then total - start else n;
    (start + numPages) % TWO_64
  }

  class Allocator {
    var memBase: nat             // physical address of page 0; 0 stands for NULL
    var bitmap: array?<bv8>      // null before page_init
    var totalPages: nat
    const bitmapArea: array<bv8> // page_allocator_bit_map_start up to page_allocator_bit_map_end
    ghost var bits: seq<bool>    // what bitmapArea stores, bit by bit

    ghost predicate Valid()
      reads this, bitmapArea
    {
      && Stores(bitmapArea[..], bits)
      && if bitmap == null then memBase == 0 && totalPages == 0
      else
        && bitmap == bitmapArea
        && memBase % PAGE_SIZE == 0
        && memBase + totalPages * PAGE_SIZE < TWO_64
        && totalPages <= |bits|
        && PaddingClear(bits, totalPages)
    }

    ghost function Used(): (used: set<nat>)
      reads this, bitmapArea
      requires Valid()
      ensures used <= Range(0, totalPages)
    {
      UsedPages(bits, totalPages)
    }

    constructor (area: array<bv8>)
      ensures Valid() && bitmapArea == area && bitmap == null && Used() == {}
    {
      memBase, bitmap, totalPages := 0, null, 0;
      bitmapArea := area;
      bits := BitsOf(area[..]);
    }

    /**
     * On success the allocator manages the largest run of whole pages inside the given memory, all free.
     * A region too small to hold its own alignment changes nothing; one whose bitmap does not fit leaves
     * memBase and totalPages set.
     */
    method PageInit(memStart: nat, memSize: nat) returns (ok: bool)
      requires memStart + memSize < TWO_64
      modifies this, bitmapArea
      ensures ok <==> exists base: nat, total: nat :: LargestRun(memStart, memSize, base, total) && total <= 8 * bitmapArea.Length
      ensures ok ==> Valid() && bitmap == bitmapArea && Used() == {} && LargestRun(memStart, memSize, memBase, totalPages)
      ensures !ok ==> bitmap == old(bitmap) && bitmapArea[..] == old(bitmapArea[..]) && bits == old(bits)
      ensures !ok && (forall base: nat, total: nat :: !LargestRun(memStart, memSize, base, total)) ==>
                memBase == old(memBase) && totalPages == old(totalPages)
      ensures !ok && (exists base: nat, total: nat :: LargestRun(memStart, memSize, base, total)) ==>
                LargestRun(memStart, memSize, memBase, totalPages) && totalPages > 8 * bitmapArea.Length
    {
      var alignedStart := (memStart + (PAGE_SIZE - 1)) % TWO_64 / PAGE_SIZE * PAGE_SIZE;
      var alignmentShift := (alignedStart - memStart) % TWO_64;
      AlignUp(memStart, memSize, alignedStart, alignmentShift);
      if alignmentShift >= memSize {
        return false;
      }
      var size := memSize - alignmentShift;
      memBase := alignedStart;
      totalPages := size / PAGE_SIZE;
      var bitmapSizeBytes := (totalPages + 7) / 8;
      if bitmapSizeBytes > bitmapArea.Length {
        return false;
      }
      bitmap := bitmapArea;
      for i := 0 to bitmapSizeBytes
        invariant bitmap == bitmapArea
        invariant memBase == alignedStart && totalPages == size / PAGE_SIZE
        invariant forall j :: 0 <= j < i ==> bitmapArea[j] == 0
      {
        bitmap[i] := 0;
      }
      bits := BitsOf(bitmapArea[..]);
      assert forall j :: 0 <= j < 8 * bitmapSizeBytes ==> !BitAt(bitmapArea[..], j);
      assert forall j :: 0 <= j < 8 * bitmapSizeBytes ==> !bits[j];
      return true;
    }

    /** Sets the bits of [start, end), one at a time. */
    method MarkUsed(start: nat, end: nat)
      requires bitmap == bitmapArea && Stores(bitmapArea[..], bits) && end <= |bits|
      modifies `bits, bitmapArea
      ensures Stores(bitmapArea[..], bits) && bits == Fill(old(bits), start, end, true)
    {
      var i := start;
      while i < end
        invariant start <= i && (i <= end || i == start)
        invariant Stores(bitmapArea[..], bits) && |bits| == |old(bits)|
        invariant forall j :: 0 <= j < |bits| ==> bits[j] == if start <= j < i && j < end then true else old(bits)[j]
      {
        SetStores(bitmapArea[..], bits, i);
        MaskIsShift(i % 8);
        bitmap[i / 8] := bitmap[i / 8] | (1 << i % 8);
        bits := bits[i := true];
        i := i + 1;
      }
    }

    /** Clears the bits of [start, end), one at a time. */
    method MarkFree(start: nat, end: nat)
      requires bitmap == bitmapArea && Stores(bitmapArea[..], bits) && end <= |bits|
      modifies `bits, bitmapArea
      ensures Stores(bitmapArea[..], bits) && bits == Fill(old(bits), start, end, false)
    {
      var i := start;
      while i < end
        invariant start <= i && (i <= end || i == start)
        invariant Stores(bitmapArea[..], bits) && |bits| == |old(bits)|
        invariant forall j :: 0 <= j < |bits| ==> bits[j] == if start <= j < i && j < end then false else old(bits)[j]
      {
        ClearStores(bitmapArea[..], bits, i);
        MaskIsShift(i % 8);
        bitmap[i / 8] := bitmap[i / 8] & !(1 << i % 8);
        bits := bits[i := false];
        i := i + 1;
      }
    }

    method TestBit(i: nat) returns (on: bool)
      requires bitmap == bitmapArea && Stores(bitmapArea[..], bits) && i < |bits|
      ensures on == bits[i]
    {
      MaskIsShift(i % 8);
      on := bitmap[i / 8] & (1 << i % 8) != 0;
      assert on == BitAt(bitmapArea[..], i);
    }

    /** Refused outside the managed range; otherwise n pages from the one that holds `ptr` are marked used. */
    method ReservePage(ptr: nat, n: nat) returns (ok: bool)
      requires Valid() && ptr + n * PAGE_SIZE < TWO_64
      modifies `bits, bitmapArea
      ensures Valid()
      ensures ok <==> ptr != 0 && memBase != 0 && totalPages != 0
                      && memBase <= ptr && ptr + n * PAGE_SIZE <= memBase + totalPages * PAGE_SIZE
      ensures ok ==>
                var k := (ptr - memBase) / PAGE_SIZE;
                Used() == old(Used()) + Range(k, n) && bits == Fill(old(bits), k, k + n, true)
      ensures !ok ==> unchanged(this, bitmapArea)
    {
      if ptr == 0 || memBase == 0 || totalPages == 0 || bitmap == null {
        return false;
      }
      var endAddr := ptr + n * PAGE_SIZE;
      var memEnd := memBase + totalPages * PAGE_SIZE;
      if ptr < memBase || endAddr > memEnd {
        return false;
      }
      var startIndex := (ptr - memBase) / PAGE_SIZE;
      assert startIndex + n <= totalPages;
      MarkUsed(startIndex, startIndex + n);
      FillUses(old(bits), totalPages, startIndex, n);
      return true;
    }

    /** page_alloc's scan: the length of the run of free pages that ends here, and where that run starts. */
    method FindWindow(n: nat) returns (window: Option<nat>)
      requires Valid() && 0 < n
      ensures window == FirstFit(Used(), totalPages, n)
    {
      ghost var used := Used();
      var found, startIndex := 0, 0;
      for i := 0 to totalPages
        invariant found < n && found <= i
        invariant found > 0 ==> startIndex == i - found
        invariant WindowFree(used, i - found, found)
        invariant found < i ==> i - found - 1 in used
        invariant forall s :: 0 <= s && s + n <= i ==> !WindowFree(used, s, n)
      {
        var isUsed := TestBit(i);
        if !isUsed {
          if found == 0 {
            startIndex := i;
          }
          found := found + 1;
          if found == n {
            FirstFitUnique(used, totalPages, n, Some(startIndex));
            return Some(startIndex);
          }
        } else {
          found := 0;
        }
      }
      FirstFitUnique(used, totalPages, n, None);
      return None;
    }

    /** First fit: the lowest window of n free pages is marked used and its address returned. */
    method PageAlloc(n: nat) returns (ptr: nat)
      requires Valid()
      modifies `bits, bitmapArea
      ensures Valid()
      ensures var r := if n == 0 then None else FirstFit(old(Used()), totalPages, n);
              match r
              case None => ptr == 0 && bits == old(bits) && bitmapArea[..] == old(bitmapArea[..])
              case Some(k) => ptr == memBase + k * PAGE_SIZE && Used() == old(Used()) + Range(k, n)
                              && bits == Fill(old(bits), k, k + n, true)
    {
      if n == 0 {
        return 0;
      }
      if n > totalPages {
        assert FirstFit(Used(), totalPages, n).None?;
        return 0;
      }
      var window := FindWindow(n);
      if window.None? {
        return 0;
      }
      var startIndex := window.value;
      MarkUsed(startIndex, startIndex + n);
      FillUses(old(bits), totalPages, startIndex, n);
      return memBase + startIndex * PAGE_SIZE;
    }

    /**
     * Frees the pages from the one that holds `ptr` on, cut off at the end of the managed range. A count so
     * large that start + n wraps frees nothing.
     */
    method PageFree(ptr: nat, n: nat)
      requires Valid() && n < TWO_64
      modifies `bits, bitmapArea
      ensures Valid()
      ensures var inside := ptr != 0 && memBase <= ptr < memBase + totalPages * PAGE_SIZE;
              var start := (ptr - memBase) / PAGE_SIZE;
              if inside && start + n < TWO_64
              then Used() == old(Used()) - Range(start, n)
                && bits == Fill(old(bits), start, if start + n > totalPages then totalPages else start + n, false)
              else bits == old(bits) && bitmapArea[..] == old(bitmapArea[..])
    {
      if ptr == 0 {
        return;
      }
      if ptr < memBase || ptr >= memBase + totalPages * PAGE_SIZE {
        return;
      }
      var startIndex := (ptr - memBase) / PAGE_SIZE;
      var end := FreeEnd(startIndex, n, totalPages);
      MarkFree(startIndex, end);
      if startIndex + n < TWO_64 {
        FillFrees(old(bits), totalPages, startIndex, n, end);
      } else {
        assert bits == old(bits);
        StoresInjective(old(bitmapArea[..]), bitmapArea[..], bits);
      }
    }

    /**
     * Allocating and freeing again restores every byte of the bitmap, except when the managed range starts at
     * address 0 and its first n pages are free: the caller cannot tell that block from a failure and page_free takes
     * it for NULL, so its pages stay used.
     */
    method AllocThenFree(n: nat)
      requires Valid() && n < TWO_64
      modifies `bits, bitmapArea
      ensures Valid()
      ensures var lost := memBase == 0 && 0 < n <= totalPages && WindowFree(old(Used()), 0, n);
              if lost then Used() == old(Used()) + Range(0, n) else bitmapArea[..] == old(bitmapArea[..])
    {
      ghost var before, was := bits, bitmapArea[..];
      var ptr := PageAlloc(n);
      PageFree(ptr, n);
      ghost var r := if n == 0 then None else FirstFit(UsedPages(before, totalPages), totalPages, n);
      if n > 0 {
        FirstFitUnique(UsedPages(before, totalPages), totalPages, n, Some(0));
      }
      if r.Some? && ptr != 0 {
        var k := r.value;
        assert (ptr - memBase) / PAGE_SIZE == k;
        FillThenClear(was, bitmapArea[..], before, k, k + n);
      }
    }

    /** The printed lines, for the blocks of the run-length code; nothing at all before page_init. */
    method PageDumpStatus() returns (lines: seq<Line>, ghost blocks: seq<Block>)
      requires Valid()
      ensures RunLengthCode(blocks, bits[..totalPages]) && lines == LinesOf(memBase, blocks)
      ensures Describes(lines, memBase, bits[..totalPages])
    {
      lines, blocks := PrintBlocks();
      LinesAre(memBase, blocks, bits[..totalPages]);
    }

    /** The loop that prints a line whenever the state changes. */
    method PrintBlocks() returns (lines: seq<Line>, ghost blocks: seq<Block>)
      requires Valid()
      ensures RunLengthCode(blocks, bits[..totalPages]) && lines == LinesOf(memBase, blocks)
    {
      blocks, lines := [], [];
      if totalPages == 0 {
        return;
      }
      ghost var pages := bits[..totalPages];
      var startIdx := 0;
      var currentStatus := TestBit(0);
      for i := 1 to totalPages + 1
        invariant if i <= totalPages then startIdx < i else startIdx == totalPages
        invariant RunLengthCode(blocks, pages[..startIdx])
        invariant |lines| == |blocks| && forall j :: 0 <= j < |blocks| ==> lines[j] == LineOf(memBase, blocks[j])
        invariant forall k :: startIdx <= k < i && k < totalPages ==> pages[k] == currentStatus
        invariant startIdx < totalPages && blocks != [] ==> blocks[|blocks| - 1].used != currentStatus
      {
        var status := false;
        if i < totalPages {
          status := TestBit(i);
        }
        if status != currentStatus || i == totalPages {
          AppendBlock(blocks, pages[..startIdx], pages[..i], Block(startIdx, i, currentStatus));
          blocks := blocks + [Block(startIdx, i, currentStatus)];
          var blockStart, blockEnd := memBase + startIdx * PAGE_SIZE, memBase + i * PAGE_SIZE;
          lines := lines + [Line(blockStart, blockEnd - 1, currentStatus, i - startIdx)];
          startIdx := i;
          currentStatus := status;
        }
      }
      assert pages[..totalPages] == pages;
    }
  }

  lemma OneLargestRun(start: nat, size: nat, b: nat, t: nat, b': nat, t': nat)
    requires LargestRun(start, size, b, t) && LargestRun(start, size, b', t')
    ensures b == b' && t == t'
  {
  }

  /** The block that leaks is real: in a range that starts at address 0 the first allocation is lost for good. */
  method LeakAtZero() returns (pages: Allocator)
    ensures fresh(pages) && pages.Valid() && pages.memBase == 0 && pages.totalPages == 8 && pages.Used() == {0}
  {
    var area := new bv8[1];
    pages := new Allocator(area);
    EightPages();
    assert LargestRun(0, 0x8000, 0, 8);
    var ok := pages.PageInit(0, 0x8000);
    assert ok;
    pages.AllocThenFree(1);
    assert Range(0, 1) == {0};
  }

  lemma EightPages()
    ensures forall base: nat, total: nat :: LargestRun(0, 0x8000, base, total) <==> base == 0 && total == 8
  {
  }

  /** `total` whole pages from the page boundary `base` on are all of [start, start + size) that can be managed. */
  ghost predicate LargestRun(start: nat, size: nat, base: nat, total: nat)
  {
    && base % PAGE_SIZE == 0
    && start <= base < start + PAGE_SIZE
    && base < start + size
    && base + total * PAGE_SIZE <= start + size < base + (total + 1) * PAGE_SIZE
  }

  /**
   * reserve_page marks every page that holds a byte of [ptr, ptr + n * 4096) exactly when ptr is on a page boundary
   * or n is 0: from anywhere else the last page of the range is left out.
   */
  lemma ReservationCoversExactly(base: nat, ptr: nat, n: nat)
    requires base % PAGE_SIZE == 0 && base <= ptr
    ensures (forall b: nat :: ptr <= b < ptr + n * PAGE_SIZE ==> PageOf(base, b) in Range(PageOf(base, ptr), n))
       <==> ptr % PAGE_SIZE == 0 || n == 0
  {
    if n > 0 && ptr % PAGE_SIZE != 0 {
      var b := ptr + n * PAGE_SIZE - 1;
      assert PageOf(base, b) == PageOf(base, ptr) + n;
      assert PageOf(base, b) !in Range(PageOf(base, ptr), n);
    }
  }

  /** The page that holds byte b. */
  function PageOf(base: nat, b: nat): nat
  {
    if b < base then 0 else (b - base) / PAGE_SIZE
  }

  lemma AlignUp(start: nat, size: nat, base: nat, shift: nat)
    requires start + size < TWO_64
    requires base == (start + (PAGE_SIZE - 1)) % TWO_64 / PAGE_SIZE * PAGE_SIZE
    requires shift == (base - start) % TWO_64
    ensures shift < size ==> LargestRun(start, size, base, (size - shift) / PAGE_SIZE)
    ensures forall b: nat, t: nat :: LargestRun(start, size, b, t) ==> shift < size && b == base && t == (size - shift) / PAGE_SIZE
  {
    RoundedUp(start, base, shift);
    if shift < size {
      RunFrom(start, size, base);
    }
    forall b: nat, t: nat | LargestRun(start, size, b, t)
      ensures shift < size && b == base && t == (size - shift) / PAGE_SIZE
    {
      OneRoundedUp(start, b, base);
      if shift < size {
        OneLargestRun(start, size, b, t, base, (size - shift) / PAGE_SIZE);
      }
    }
  }

  /** The page boundary at or above an address, and how far it is; past the end of the address space it is 0. */
  lemma RoundedUp(start: nat, base: nat, shift: nat)
    requires start < TWO_64 && base == (start + (PAGE_SIZE - 1)) % TWO_64 / PAGE_SIZE * PAGE_SIZE
    requires shift == (base - start) % TWO_64
    ensures base % PAGE_SIZE == 0
    ensures if start + (PAGE_SIZE - 1) >= TWO_64 then base == 0 && shift == TWO_64 - start
            else start <= base < start + PAGE_SIZE && shift == base - start
  {
  }

  lemma RunFrom(start: nat, size: nat, base: nat)
    requires base % PAGE_SIZE == 0 && start <= base < start + PAGE_SIZE && base < start + size
    ensures LargestRun(start, size, base, (start + size - base) / PAGE_SIZE)
  {
  }

  /** There is only one page boundary in a page's length. */
  lemma OneRoundedUp(start: nat, b: nat, base: nat)
    requires b % PAGE_SIZE == 0 && start <= b < start + PAGE_SIZE
    ensures base % PAGE_SIZE == 0 && start <= base < start + PAGE_SIZE ==> b == base
  {
  }
}
