/** dcache_inval_poc: invalidating an address range without losing its neighbours' data. */
module CacheMaintenance {
  import opened Arithmetic

  type Data = seq<bv8>

  datatype Line = Line(data: Data, dirty: bool)

  /** Lines and memory by line number: the line of address x is x / size. */
  datatype View = View(lines: map<nat, Line>, mem: map<nat, Data>)

  /** A cached line has memory behind it, and a clean one agrees with it. */
  ghost predicate Coherent(v: View)
  {
    forall i :: i in v.lines ==> i in v.mem && (!v.lines[i].dirty ==> v.lines[i].data == v.mem[i])
  }

  /** What a load of the line would see. */
  function Loads(v: View, i: nat): Data
    requires i in v.mem
  {
    if i in v.lines then v.lines[i].data else v.mem[i]
  }

  // ----- the line size ---------------------------------------------------------

  /** 4 << CTR_EL0[19:16] */
  function LineSize(ctr: nat): nat
  {
    4 * Power(2, ctr / 0x1_0000 % 16)
  }

  /** Lines of this size divide the address space into more than one. */
  ghost predicate IsLineSize(size: nat)
  {
    1 < size < TWO_64 && TWO_64 % size == 0
  }

  lemma {:induction false} Pow2Divides(k: nat, n: nat)
    requires k <= n
    ensures Power(2, n) % Power(2, k) == 0
  {
    if k < n {
      Pow2Divides(k, n - 1);
      Euclid(Power(2, n - 1), Power(2, k));
      var q := Power(2, n - 1) / Power(2, k);
      assert Power(2, n) == 0 + Power(2, k) * (2 * q);
      Peel(0, Power(2, k), 2 * q);
    } else {
      Peel(0, Power(2, k), 1);
    }
  }

  /** CTR_EL0 names the line in words of four bytes: a field of k means 2 to the k + 2 bytes. */
  lemma LineSizeIs(ctr: nat, k: nat)
    requires ctr / 0x1_0000 % 16 == k
    ensures LineSize(ctr) == Power(2, k + 2)
  {
    assert Power(2, k + 2) == 2 * Power(2, k + 1) == 4 * Power(2, k);
  }

  lemma LineSizeDivides(ctr: nat)
    ensures IsLineSize(LineSize(ctr))
  {
    var k := ctr / 0x1_0000 % 16;
    assert Power(2, k + 2) == 2 * Power(2, k + 1) == 4 * Power(2, k);
    Pow2Divides(k + 2, 64);
    SixtyFour();
    PowerPlus(2, k + 2, 62 - k);
    assert Power(2, 62 - k) == 2 * Power(2, 61 - k);
    MulMonotone(Power(2, k + 2), 2, Power(2, 62 - k));
  }

  lemma SixtyFour()
    ensures Power(2, 64) == TWO_64
  {
    assert Power(2, 8) == 256;
    Squared(8, 256);
    Squared(16, 0x1_0000);
    Squared(32, TWO_32);
  }

  lemma Squared(k: nat, p: nat)
    requires Power(2, k) == p
    ensures Power(2, 2 * k) == p * p
  {
    PowerPlus(2, k, k);
  }

  /** Lines do not overlap: the addresses of two lines are at least a line apart. */
  lemma Apart(size: nat, i: nat, j: nat)
    ensures i < j ==> size * i + size <= size * j
    ensures i == j ==> size * i == size * j
    ensures i > j ==> size * j + size <= size * i
  {
    if i < j {
      MulMonotone(size, i + 1, j);
      Distribute(size, i, 1, 1);
    } else if i > j {
      MulMonotone(size, j + 1, i);
      Distribute(size, j, 1, 1);
    }
  }

  /** An address, by line and offset. */
  lemma LineOf(size: nat, x: nat) returns (base: nat)
    requires size > 0
    ensures base == size * (x / size) == x / size * size
    ensures base <= x < base + size && (x % size != 0 <==> x != base)
  {
    base := size * (x / size);
    Euclid(x, size);
  }

  /** An address rounded down to its line is the first of that line. */
  lemma RoundDown(size: nat, x: nat)
    requires size > 0
    ensures x / size * size == size * (x / size) <= x
    ensures x / size * size / size == x / size
  {
    var base := LineOf(size, x);
    Peel(0, size, x / size);
  }

  /** Stepping from the first line, with the wrap at the end of the address space. */
  lemma NextLine(size: nat, start: nat)
    requires IsLineSize(size) && start < TWO_64
    ensures (size * (start / size) + size) % TWO_64 == size * FirstDropped(size, start)
  {
    var s, m := start / size, TWO_64 / size;
    var base := LineOf(size, start);
    var top := LineOf(size, TWO_64);
    assert size * m == TWO_64;
    Apart(size, s, m);
    Apart(size, s + 1, m);
    StepUp(size, s);
  }

  lemma StepUp(size: nat, i: nat)
    ensures size * i + size == size * (i + 1)
  {
    Distribute(size, i, 1, 1);
  }

  // ----- the routine -------------------------------------------------------------

  class Cache {
    var lines: map<nat, Line>
    var mem: map<nat, Data>

    function Now(): View
      reads this
    {
      View(lines, mem)
    }

    constructor (v: View)
      ensures Now() == v
    {
      lines, mem := v.lines, v.mem;
    }

    /** dc civac: a dirty line reaches memory before it is dropped. */
    method CleanInvalidate(size: nat, x: nat)
      requires size > 0
      modifies this
      ensures Now() == Clean(old(Now()), x / size)
    {
      var i := x / size;
      if i in lines && lines[i].dirty {
        mem := mem[i := lines[i].data];
      }
      lines := map j | j in lines && j != i :: lines[j];
    }

    /** dc ivac: the line is dropped, and with it any data not yet in memory. */
    method Invalidate(size: nat, x: nat)
      requires size > 0
      modifies this
      ensures Now() == Drop(old(Now()), x / size)
    {
      var i := x / size;
      lines := map j | j in lines && j != i :: lines[j];
    }

    /** x0 and x1 are the registers of the routine; additions wrap at 64 bits. */
    method DcacheInvalPoc(ctr: nat, start: nat, end: nat)
      requires start < TWO_64 && end < TWO_64
      modifies this
      ensures Now() == Result(old(Now()), LineSize(ctr), start, end)
      ensures var size := Power(2, ctr / 0x1_0000 % 16 + 2);
              start < end && size * (start / size) + size < 0x1_0000_0000_0000_0000 ==>
                forall i: nat :: i in lines <==> i in old(lines) && !(size * i < end && start < size * i + size)
    {
      var size := LineSize(ctr);
      LineSizeDivides(ctr);
      LineSizeIs(ctr, ctr / 0x1_0000 % 16);
      if start < end && size * (start / size) + size < TWO_64 {
        OverlapsLeave(Now(), size, start, end);
      }
      InvalidateLines(size, start, end);
    }

    /** The routine once the line size is read. */
    method InvalidateLines(size: nat, start: nat, end: nat)
      requires IsLineSize(size) && start < TWO_64 && end < TWO_64
      modifies this
      ensures Now() == Result(old(Now()), size, start, end)
    {
      var x0, x1 := start / size * size, end / size * size;
      RoundDown(size, start);
      RoundDown(size, end);
      InvalidateEnds(size, start, end, x0, x1);
      NextLine(size, start);
      x0 := (x0 + size) % TWO_64;
      InvalidateUpTo(size, x0, x1, FirstDropped(size, start), end / size);
    }

    /** The lines of the two ends, which keep what they hold outside the interval. */
    method InvalidateEnds(size: nat, start: nat, end: nat, x0: nat, x1: nat)
      requires size > 0 && x0 / size == start / size && x1 / size == end / size
      modifies this
      ensures Now() == EndsDone(old(Now()), size, start, end)
    {
      if end % size != 0 {
        CleanInvalidate(size, x1);
      }
      if start % size != 0 {
        CleanInvalidate(size, x0);
      } else {
        Invalidate(size, x0);
      }
    }

    /** The routine's loop, from label 2 on. */
    method InvalidateUpTo(size: nat, start: nat, x1: nat, ghost from: nat, ghost to: nat)
      requires size > 0 && start == size * from && x1 == size * to && x1 < TWO_64
      modifies this
      ensures Now() == DropRange(old(Now()), from, to)
    {
      var x0 := start;
      ghost var i := from;
      Apart(size, from, to);
      while x0 < x1
        invariant x0 == size * i && from <= i && (i == from || i <= to)
        invariant Now() == DropRange(old(Now()), from, i)
        invariant x0 < x1 <==> i < to
        decreases x1 - x0
      {
        Peel(0, size, i);
        Invalidate(size, x0);
        Apart(size, i, to);
        StepUp(size, i);
        Apart(size, i + 1, to);
        x0 := (x0 + size) % TWO_64;
        i := i + 1;
      }
    }
  }

  function Drop(v: View, i: nat): View
  {
    v.(lines := map j | j in v.lines && j != i :: v.lines[j])
  }

  function Clean(v: View, i: nat): View
  {
    Drop(if i in v.lines && v.lines[i].dirty then v.(mem := v.mem[i := v.lines[i].data]) else v, i)
  }

  /** The lines [from, to) dropped one after the other. */
  function DropRange(v: View, from: nat, to: nat): View
  {
    if to <= from then v else Drop(DropRange(v, from, to - 1), to - 1)
  }

  /** The line after the first, which is line 0 when the first is the last line there is. */
  function FirstDropped(size: nat, start: nat): nat
    requires size > 0
  {
    if size * (start / size) + size >= TWO_64 then 0 else start / size + 1
  }

  /** The lines of the two ends, cleaned or dropped. */
  function EndLines(v: View, first: nat, cleanFirst: bool, last: nat, cleanLast: bool): View
  {
    var v1 := if cleanLast then Clean(v, last) else v;
    if cleanFirst then Clean(v1, first) else Drop(v1, first)
  }

  function EndsDone(v: View, size: nat, start: nat, end: nat): View
    requires size > 0
  {
    EndLines(v, start / size, start % size != 0, end / size, end % size != 0)
  }

  /** What the routine leaves of cache and memory. */
  function Result(v: View, size: nat, start: nat, end: nat): View
    requires size > 0
  {
    DropRange(EndsDone(v, size, start, end), FirstDropped(size, start), end / size)
  }

  // ----- what it guarantees ----------------------------------------------------------

  predicate Overlaps(size: nat, i: nat, start: nat, end: nat)
  {
    size * i < end && start < size * i + size
  }

  /** The line has a byte outside the interval. */
  predicate Spills(size: nat, i: nat, start: nat, end: nat)
  {
    size * i < start || end < size * i + size || end <= start
  }

  lemma {:induction false} DropRangeIs(v: View, from: nat, to: nat)
    ensures DropRange(v, from, to).mem == v.mem
    ensures forall i :: i in DropRange(v, from, to).lines <==> i in v.lines && !(from <= i < to)
    ensures forall i :: i in DropRange(v, from, to).lines ==> DropRange(v, from, to).lines[i] == v.lines[i]
  {
    if from < to {
      DropRangeIs(v, from, to - 1);
    }
  }

  predicate Cleans(size: nat, i: nat, start: nat, end: nat)
    requires size > 0
  {
    (i == end / size && end % size != 0) || (i == start / size && start % size != 0)
  }

  predicate Drops(size: nat, i: nat, start: nat, end: nat)
    requires size > 0
  {
    i == start / size || (i == end / size && end % size != 0) || FirstDropped(size, start) <= i < end / size
  }

  lemma CleanIs(v: View, i: nat)
    ensures var r := Clean(v, i);
            && (forall j :: j in r.lines <==> j in v.lines && j != i)
            && (forall j :: j in r.lines ==> r.lines[j] == v.lines[j])
            && (forall j :: j in v.mem ==> j in r.mem)
            && (forall j :: j in v.mem ==> r.mem[j] == if j == i && i in v.lines && v.lines[i].dirty then v.lines[i].data else v.mem[j])
  {
  }

  /** The same for line numbers: first the ends, each cleaned if it is only partly inside, then a range of lines. */
  lemma LinesDone(v: View, first: nat, cleanFirst: bool, last: nat, cleanLast: bool, from: nat, to: nat)
    ensures var r := DropRange(EndLines(v, first, cleanFirst, last, cleanLast), from, to);
            && (forall i :: i in r.lines <==> i in v.lines && i != first && !(i == last && cleanLast) && !(from <= i < to))
            && (forall i :: i in r.lines ==> r.lines[i] == v.lines[i])
            && (forall i :: i in v.mem ==> i in r.mem)
            && (forall i :: i in v.mem ==>
                  r.mem[i] == if i in v.lines && v.lines[i].dirty && ((i == last && cleanLast) || (i == first && cleanFirst))
                              then v.lines[i].data else v.mem[i])
  {
    var v1 := if cleanLast then Clean(v, last) else v;
    CleanIs(v, last);
    CleanIs(v1, first);
    DropRangeIs(EndLines(v, first, cleanFirst, last, cleanLast), from, to);
  }

  /** Which lines are gone, and what memory holds, after the routine. */
  lemma ResultIs(v: View, size: nat, start: nat, end: nat)
    requires size > 0
    ensures var r := Result(v, size, start, end);
            && (forall i :: i in r.lines <==> i in v.lines && !Drops(size, i, start, end))
            && (forall i :: i in r.lines ==> r.lines[i] == v.lines[i])
            && (forall i :: i in v.mem ==> i in r.mem)
            && (forall i :: i in v.mem ==>
                  r.mem[i] == if i in v.lines && v.lines[i].dirty && Cleans(size, i, start, end) then v.lines[i].data else v.mem[i])
  {
    LinesDone(v, start / size, start % size != 0, end / size, end % size != 0, FirstDropped(size, start), end / size);
  }

  /** Where line i stands to the first line s and the last line e, in line addresses a, sa and ea. */
  lemma Positions(size: nat, i: nat, s: nat, e: nat, a: nat, sa: nat, ea: nat, start: nat, end: nat)
    requires sa <= start < sa + size && ea <= end < ea + size && start < end
    requires (i < s ==> a + size <= sa) && (i == s ==> a == sa) && (i > s ==> sa + size <= a)
    requires (i < e ==> a + size <= ea) && (i == e ==> a == ea) && (i > e ==> ea + size <= a)
    requires (s < e ==> sa + size <= ea) && (s == e ==> sa == ea) && (s > e ==> ea + size <= sa)
    ensures (i == s || (i == e && end != ea) || s + 1 <= i < e) <==> (a < end && start < a + size)
    ensures a < end && start < a + size ==>
              ((a < start || end < a + size) <==> ((i == e && end != ea) || (i == s && start != sa)))
  {
  }

  lemma PositionsOf(size: nat, i: nat, start: nat, end: nat)
    requires size > 0 && start < end
    ensures var s, e, a := start / size, end / size, size * i;
            && ((i == s || (i == e && end % size != 0) || s + 1 <= i < e) <==> (a < end && start < a + size))
            && (a < end && start < a + size ==>
                  ((a < start || end < a + size) <==> ((i == e && end % size != 0) || (i == s && start % size != 0))))
  {
    var s, e := start / size, end / size;
    var sa := LineOf(size, start);
    var ea := LineOf(size, end);
    Apart(size, i, s);
    Apart(size, i, e);
    Apart(size, s, e);
    Positions(size, i, s, e, size * i, sa, ea, start, end);
  }

  /** A nonempty interval that does not start in the last line of the address space. */
  lemma DropsAreOverlaps(size: nat, i: nat, start: nat, end: nat)
    requires size > 0 && start < end && size * (start / size) + size < TWO_64
    ensures Drops(size, i, start, end) <==> Overlaps(size, i, start, end)
    ensures Overlaps(size, i, start, end) ==> (Spills(size, i, start, end) <==> Cleans(size, i, start, end))
  {
    PositionsOf(size, i, start, end);
  }

  /**
   * For a nonempty interval that does not start in the last line of the address space: exactly the lines that
   * overlap it leave the cache; memory then holds the latest data of each line that is only partly inside, and is
   * unchanged everywhere else; and a line with a byte outside the interval loads as before.
   */
  lemma InvalPocIsSafe(v: View, size: nat, start: nat, end: nat)
    requires Coherent(v) && size > 0 && start < end && size * (start / size) + size < TWO_64
    ensures var r := Result(v, size, start, end);
            && (forall i :: i in r.lines <==> i in v.lines && !Overlaps(size, i, start, end))
            && (forall i :: i in v.mem ==> i in r.mem)
            && (forall i :: i in v.mem ==>
                  r.mem[i] == if Overlaps(size, i, start, end) && Spills(size, i, start, end) then Loads(v, i) else v.mem[i])
            && (forall i :: i in v.mem && Spills(size, i, start, end) ==> i in r.mem && Loads(r, i) == Loads(v, i))
  {
    var r := Result(v, size, start, end);
    ResultIs(v, size, start, end);
    forall i: nat
      ensures Drops(size, i, start, end) <==> Overlaps(size, i, start, end)
      ensures Overlaps(size, i, start, end) ==> (Spills(size, i, start, end) <==> Cleans(size, i, start, end))
    {
      DropsAreOverlaps(size, i, start, end);
    }
    CleansAreDrops(size, start, end);
  }

  /** Exactly the lines that overlap the interval leave the cache, coherent or not. */
  lemma OverlapsLeave(v: View, size: nat, start: nat, end: nat)
    requires size > 0 && start < end && size * (start / size) + size < TWO_64
    ensures forall i: nat :: i in Result(v, size, start, end).lines <==> i in v.lines && !(size * i < end && start < size * i + size)
  {
    ResultIs(v, size, start, end);
    forall i: nat ensures Drops(size, i, start, end) <==> size * i < end && start < size * i + size {
      DropsAreOverlaps(size, i, start, end);
    }
  }

  /** A line overlaps the interval if it has a byte in it, and spills over if it has one outside. */
  lemma OverlapsByBytes(size: nat, i: nat, start: nat, end: nat)
    requires size > 0
    ensures Overlaps(size, i, start, end) && start < end <==> exists x: nat :: start <= x < end && x / size == i
    ensures Spills(size, i, start, end) <==> exists x: nat :: !(start <= x < end) && x / size == i
  {
    InLine(size, i);
    var first, last := size * i, size * i + size - 1;
    assert first / size == i && last / size == i;
    assert start / size == i || !(first <= start <= last);
    assert end / size == i || !(first <= end <= last);
    if Overlaps(size, i, start, end) && start < end {
      var x := if start < first then first else start;
      assert x / size == i;
    }
  }

  /** The bytes of a line. */
  lemma InLine(size: nat, i: nat)
    requires size > 0
    ensures forall x: nat :: x / size == i <==> size * i <= x < size * i + size
  {
    forall x: nat ensures x / size == i <==> size * i <= x < size * i + size {
      var base := LineOf(size, x);
      Apart(size, x / size, i);
    }
  }

  lemma CleansAreDrops(size: nat, start: nat, end: nat)
    requires size > 0
    ensures forall i: nat :: Cleans(size, i, start, end) ==> Drops(size, i, start, end)
  {
  }

  /** Lines, cached or in memory, are `size` bytes long. */
  ghost predicate Sized(v: View, size: nat)
  {
    && (forall i :: i in v.lines ==> |v.lines[i].data| == size)
    && (forall i :: i in v.mem ==> |v.mem[i]| == size)
  }

  /** No coherent cache with lines of this size loses a byte outside the interval. */
  ghost predicate LosesNothing(size: nat, start: nat, end: nat)
    requires size > 0
  {
    forall v: View, i: nat :: Coherent(v) && Sized(v, size) && i in v.mem && Spills(size, i, start, end) ==>
      i in Result(v, size, start, end).mem && Loads(Result(v, size, start, end), i) == Loads(v, i)
  }

  /** A dropped line that is not cleaned loses its data from some cache. */
  lemma DropLoses(size: nat, start: nat, end: nat, i: nat)
    requires size > 0 && Drops(size, i, start, end) && !Cleans(size, i, start, end) && Spills(size, i, start, end)
    ensures !LosesNothing(size, start, end)
  {
    var ones, zeros := seq<bv8>(size, _ => 1), seq<bv8>(size, _ => 0);
    var v := View(map[i := Line(ones, true)], map[i := zeros]);
    ResultIs(v, size, start, end);
    assert Coherent(v) && Sized(v, size) && Loads(v, i) == ones;
    assert ones[0] != zeros[0];
    assert i in Result(v, size, start, end).mem ==> Loads(Result(v, size, start, end), i) == zeros;
  }

  /**
   * Exactly when the routine is safe for every cache: the interval is nonempty, or starts inside a line; and its
   * start is not in the last line of the address space, or its end is in the first.
   */
  lemma InvalPocExactlySafe(size: nat, start: nat, end: nat)
    requires IsLineSize(size) && start < TWO_64 && end < TWO_64
    ensures LosesNothing(size, start, end)
       <==> (start < end || start % size != 0) && (size * (start / size) + size < TWO_64 || end < size)
  {
    var s, e := start / size, end / size;
    var sa := LineOf(size, start);
    var ea := LineOf(size, end);
    Apart(size, s, e);
    Apart(size, 0, e);
    if size * s + size < TWO_64 {
      if start < end {
        forall v: View, i: nat | Coherent(v) && Sized(v, size) && i in v.mem && Spills(size, i, start, end)
          ensures i in Result(v, size, start, end).mem && Loads(Result(v, size, start, end), i) == Loads(v, i)
        {
          InvalPocIsSafe(v, size, start, end);
        }
      } else if start % size != 0 {
        CleansOnly(size, start, end);
      } else {
        DropLoses(size, start, end, s);
      }
    } else if end >= size {
      LastLine(size, start, end);
      DropLoses(size, start, end, 0);
    } else if start % size != 0 {
      CleansOnly(size, start, end);
    } else {
      Apart(size, 0, s);
      DropLoses(size, start, end, s);
    }
  }

  /** If every dropped line is cleaned, nothing is lost. */
  lemma CleansOnly(size: nat, start: nat, end: nat)
    requires size > 0 && start % size != 0 && end / size <= FirstDropped(size, start)
    ensures LosesNothing(size, start, end)
  {
    forall v: View, i: nat | Coherent(v) && Sized(v, size) && i in v.mem && Spills(size, i, start, end)
      ensures i in Result(v, size, start, end).mem && Loads(Result(v, size, start, end), i) == Loads(v, i)
    {
      ResultIs(v, size, start, end);
    }
  }

  lemma LastLine(size: nat, start: nat, end: nat)
    requires size > 0 && end < TWO_64 <= size * (start / size) + size && end >= size
    ensures Drops(size, 0, start, end) && !Cleans(size, 0, start, end) && Spills(size, 0, start, end)
  {
    var sa := LineOf(size, start);
    var ea := LineOf(size, end);
    Apart(size, 0, end / size);
    Apart(size, 0, start / size);
  }
}
