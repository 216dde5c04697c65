/**
 * The one memory of the machine, byte by byte: page tables, clients' pages, and the kernel image with the page
 * bitmap in it. Reading it back gives the frames and the set of used pages the other modules reason about.
 */
module PhysicalMemory {
  import opened Arithmetic
  import opened Descriptors
  import opened DescriptorLayout
  import opened Bitmap
  import opened TableTree
  import opened TableSteps

  /** Where the managed range and the bitmap lie: page 0, the number of pages, and the bitmap's first byte. */
  datatype Layout = Layout(base: nat, total: nat, area: nat)

  /** The bytes page_init clears for so many pages. */
  function BitmapBytes(total: nat): nat
  {
    (total + 7) / 8
  }

  predicate InBitmap(g: Layout, x: nat)
  {
    g.area <= x < g.area + BitmapBytes(g.total)
  }

  predicate Holds(g: Layout, ram: seq<bv8>)
  {
    g.area + BitmapBytes(g.total) <= |ram|
  }

  // ----- words: eight bytes, the lowest first --------------------------------

  function WordOf(b: seq<bv8>): nat
  {
    if b == [] then 0 else b[0] as nat + 256 * WordOf(b[1..])
  }

  /** The byte of a value, counted up from 0, so that proofs need only read bytes as numbers and not the reverse. */
  function Byte(v: nat): (b: bv8)
    requires v < 256
    ensures b as nat == v
  {
    if v == 0 then 0 else NextByte(Byte(v - 1))
  }

  function NextByte(b: bv8): (c: bv8)
    requires b as nat < 255
    ensures c as nat == b as nat + 1
  {
    b + 1
  }

  lemma SameByte(b: bv8, c: bv8)
    requires b as nat == c as nat
    ensures b == c
  {
  }

  function BytesOf(v: nat, n: nat): (b: seq<bv8>)
    ensures |b| == n
  {
    if n == 0 then [] else [Byte(v % 256)] + BytesOf(v / 256, n - 1)
  }

  lemma {:induction false} BytesOfWord(b: seq<bv8>)
    ensures BytesOf(WordOf(b), |b|) == b && WordOf(b) < Power(256, |b|)
  {
    if b != [] {
      BytesOfWord(b[1..]);
      Peel(b[0] as nat, 256, WordOf(b[1..]));
      SameByte(Byte(b[0] as nat), b[0]);
    }
  }

  lemma {:induction false} WordOfBytes(v: nat, n: nat)
    requires v < Power(256, n)
    ensures WordOf(BytesOf(v, n)) == v
  {
    if n > 0 {
      WordOfBytes(v / 256, n - 1);
      assert BytesOf(v, n)[1..] == BytesOf(v / 256, n - 1);
    }
  }

  /** Little-endian: byte j counts 256 to the power j. */
  lemma {:induction false} WordOfAt(b: seq<bv8>, j: nat)
    requires j < |b|
    ensures WordOf(b) / Power(256, j) % 256 == b[j] as nat
  {
    Peel(b[0] as nat, 256, WordOf(b[1..]));
    if j > 0 {
      WordOfAt(b[1..], j - 1);
      DivDiv(WordOf(b), 256, Power(256, j - 1));
    }
  }

  lemma EightBytes()
    ensures Power(256, 8) == TWO_64
  {
    PowerPlus(256, 4, 4);
    assert Power(256, 4) == TWO_32;
  }

  /** The 64-bit word at an address. */
  function WordAt(ram: seq<bv8>, x: nat): nat
  {
    if x + 8 <= |ram| then WordOf(ram[x..x + 8]) else 0
  }

  /** A 64-bit store. */
  function StoreWord(ram: seq<bv8>, x: nat, v: nat): (r: seq<bv8>)
    ensures |r| == |ram|
    ensures forall y :: 0 <= y < |ram| ==> r[y] == if x <= y < x + 8 <= |ram| then BytesOf(v, 8)[y - x] else ram[y]
  {
    seq(|ram|, y requires 0 <= y < |ram| => if x <= y < x + 8 <= |ram| then BytesOf(v, 8)[y - x] else ram[y])
  }

  lemma StoreChanges(ram: seq<bv8>, x: nat, v: nat, from: nat, to: nat)
    requires from <= to <= |ram| && (to <= x || x + 8 <= from)
    ensures StoreWord(ram, x, v)[from..to] == ram[from..to]
  {
  }

  lemma StoredWord(ram: seq<bv8>, x: nat, v: nat)
    requires x + 8 <= |ram| && v < TWO_64
    ensures WordAt(StoreWord(ram, x, v), x) == v
  {
    EightBytes();
    WordOfBytes(v, 8);
    assert StoreWord(ram, x, v)[x..x + 8] == BytesOf(v, 8);
  }

  // ----- page tables in raw words ----------------------------------------------

  /** Entry i of the table at address t. */
  function EntryIn(ram: seq<bv8>, t: nat, i: nat): Pte
  {
    FromValue(WordAt(ram, t + 8 * i))
  }

  function StoreEntry(ram: seq<bv8>, t: nat, i: nat, e: Pte): (r: seq<bv8>)
    ensures |r| == |ram|
  {
    StoreWord(ram, t + 8 * i, Value(e))
  }

  function FrameAddrs(size: nat): set<nat>
  {
    set a: nat | a < size && a % PAGE_SIZE == 0 && a + PAGE_SIZE <= size
  }

  function FrameIn(ram: seq<bv8>, t: nat): (f: Table)
    ensures forall i :: 0 <= i < 512 ==> f[i] == EntryIn(ram, t, i)
  {
    seq(512, i requires 0 <= i < 512 => EntryIn(ram, t, i))
  }

  /** The memory as frames of entries. */
  function FramesIn(ram: seq<bv8>): (mem: Memory)
    ensures mem.Keys == FrameAddrs(|ram|) && forall a :: a in mem ==> mem[a] == FrameIn(ram, a)
  {
    map a | a in FrameAddrs(|ram|) :: FrameIn(ram, a)
  }

  lemma EntryStored(ram: seq<bv8>, t: nat, i: nat, e: Pte, a: nat, j: nat)
    requires t in FrameAddrs(|ram|) && a in FrameAddrs(|ram|) && i < 512 && j < 512
    ensures EntryIn(StoreEntry(ram, t, i, e), a, j) == if a == t && j == i then e else EntryIn(ram, a, j)
  {
    var x, y := t + 8 * i, a + 8 * j;
    if a == t && j == i {
      ValueBound(e);
      UnionViews(e, 0);
      StoredWord(ram, x, Value(e));
    } else {
      FarApart(t, i, a, j);
      StoreChanges(ram, x, Value(e), y, y + 8);
    }
  }

  lemma FarApart(t: nat, i: nat, a: nat, j: nat)
    requires t % PAGE_SIZE == 0 && a % PAGE_SIZE == 0 && i < 512 && j < 512 && (a != t || j != i)
    ensures t + 8 * i + 8 <= a + 8 * j || a + 8 * j + 8 <= t + 8 * i
  {
  }

  /** A word store into a frame is a store of that entry, and of nothing else. */
  lemma FramesStored(ram: seq<bv8>, t: nat, i: nat, e: Pte)
    requires t in FrameAddrs(|ram|) && i < 512
    ensures FramesIn(StoreEntry(ram, t, i, e)) == PutEntry(FramesIn(ram), t, i, e)
  {
    var after, put := FramesIn(StoreEntry(ram, t, i, e)), PutEntry(FramesIn(ram), t, i, e);
    forall a | a in FrameAddrs(|ram|) ensures after[a] == put[a] {
      forall j | 0 <= j < 512 ensures after[a][j] == put[a][j] {
        EntryStored(ram, t, i, e, a, j);
      }
    }
  }

  /** The bytes of a frame. */
  function FrameByte(words: Table, x: nat): bv8
    requires x < PAGE_SIZE
  {
    BytesOf(Value(words[x / 8]), 8)[x % 8]
  }

  /** A whole frame of stores. */
  function StoreFrame(ram: seq<bv8>, t: nat, words: Table): (r: seq<bv8>)
    ensures |r| == |ram|
    ensures forall x :: 0 <= x < |ram| ==> r[x] == if t <= x < t + PAGE_SIZE then FrameByte(words, x - t) else ram[x]
  {
    seq(|ram|, x requires 0 <= x < |ram| => if t <= x < t + PAGE_SIZE then FrameByte(words, x - t) else ram[x])
  }

  lemma FrameStored(ram: seq<bv8>, t: nat, words: Table)
    requires t in FrameAddrs(|ram|)
    ensures FramesIn(StoreFrame(ram, t, words)) == FramesIn(ram)[t := words]
  {
    var after, put := FramesIn(StoreFrame(ram, t, words)), FramesIn(ram)[t := words];
    forall a | a in FrameAddrs(|ram|) ensures after[a] == put[a] {
      forall j | 0 <= j < 512 ensures after[a][j] == put[a][j] {
        FrameEntryStored(ram, t, words, a, j);
      }
    }
  }

  lemma FrameByteIs(words: Table, j: nat, k: nat)
    requires j < 512 && k < 8
    ensures FrameByte(words, 8 * j + k) == BytesOf(Value(words[j]), 8)[k]
  {
    assert (8 * j + k) / 8 == j && (8 * j + k) % 8 == k;
  }

  lemma FrameEntryStored(ram: seq<bv8>, t: nat, words: Table, a: nat, j: nat)
    requires t in FrameAddrs(|ram|) && a in FrameAddrs(|ram|) && j < 512
    ensures EntryIn(StoreFrame(ram, t, words), a, j) == if a == t then words[j] else EntryIn(ram, a, j)
  {
    if a == t {
      OwnBytes(ram, t, words, j);
      ReadBack(words[j]);
    } else {
      FramesApart(t, a, j);
      OtherBytes(ram, t, words, a + 8 * j, a + 8 * j + 8);
    }
  }

  lemma FramesApart(t: nat, a: nat, j: nat)
    requires t % PAGE_SIZE == 0 && a % PAGE_SIZE == 0 && a != t && j < 512
    ensures a + 8 * j + 8 <= t || t + PAGE_SIZE <= a + 8 * j
  {
    FarApart(t, 0, a, j);
    FarApart(t, 511, a, j);
  }

  lemma OwnBytes(ram: seq<bv8>, t: nat, words: Table, j: nat)
    requires t + PAGE_SIZE <= |ram| && j < 512
    ensures StoreFrame(ram, t, words)[t + 8 * j..t + 8 * j + 8] == BytesOf(Value(words[j]), 8)
  {
    forall k | 0 <= k < 8 ensures StoreFrame(ram, t, words)[t + 8 * j + k] == BytesOf(Value(words[j]), 8)[k] {
      FrameByteIs(words, j, k);
    }
  }

  lemma OtherBytes(ram: seq<bv8>, t: nat, words: Table, from: nat, to: nat)
    requires from <= to <= |ram| && (to <= t || t + PAGE_SIZE <= from)
    ensures StoreFrame(ram, t, words)[from..to] == ram[from..to]
  {
  }

  lemma ReadBack(e: Pte)
    ensures FromValue(WordOf(BytesOf(Value(e), 8))) == e
  {
    ValueBound(e);
    UnionViews(e, 0);
    EightBytes();
    WordOfBytes(Value(e), 8);
  }

  /** Frames determine their bytes. */
  lemma FrameBytes(ram: seq<bv8>, ram': seq<bv8>, a: nat, x: nat)
    requires |ram'| == |ram| && a in FrameAddrs(|ram|) && FrameIn(ram, a) == FrameIn(ram', a)
    requires a <= x < a + PAGE_SIZE
    ensures ram'[x] == ram[x]
  {
    var i := (x - a) / 8;
    var w := a + 8 * i;
    assert FrameIn(ram, a)[i] == FrameIn(ram', a)[i];
    EightBytes();
    BytesOfWord(ram[w..w + 8]);
    BytesOfWord(ram'[w..w + 8]);
    RawSurvives(WordAt(ram, w));
    RawSurvives(WordAt(ram', w));
    assert ram[w..w + 8][x - w] == ram'[w..w + 8][x - w];
  }

  // ----- the bitmap ----------------------------------------------------------------

  /** The bit of a page: bit k % 8 of byte k / 8 of the bitmap. */
  predicate BitIn(g: Layout, ram: seq<bv8>, k: nat)
    requires Holds(g, ram) && k < 8 * BitmapBytes(g.total)
  {
    Bit(ram[g.area + k / 8], k % 8)
  }

  /** Page 8 j + k has bit k of the j-th byte of the bitmap. */
  lemma BitInIs(g: Layout, ram: seq<bv8>, j: nat, k: nat)
    requires Holds(g, ram) && j < BitmapBytes(g.total) && k < 8
    ensures BitIn(g, ram, 8 * j + k) <==> (ram[g.area + j] >> k) & 1 == 1
  {
    assert (8 * j + k) / 8 == j && (8 * j + k) % 8 == k;
    BitIsShift(ram[g.area + j], k);
  }

  /** The bits that are set, those of the last byte that stand for no page among them. */
  function UsedIn(g: Layout, ram: seq<bv8>): set<nat>
    requires Holds(g, ram)
  {
    UsedBelow(g, ram, 8 * BitmapBytes(g.total))
  }

  function UsedBelow(g: Layout, ram: seq<bv8>, n: nat): set<nat>
    requires Holds(g, ram) && n <= 8 * BitmapBytes(g.total)
  {
    if n == 0 then {} else UsedBelow(g, ram, n - 1) + if BitIn(g, ram, n - 1) then {n - 1} else {}
  }

  lemma {:induction false} UsedMeans(g: Layout, ram: seq<bv8>, n: nat)
    requires Holds(g, ram) && n <= 8 * BitmapBytes(g.total)
    ensures forall k :: k in UsedBelow(g, ram, n) <==> 0 <= k < n && BitIn(g, ram, k)
  {
    if n > 0 {
      UsedMeans(g, ram, n - 1);
    }
  }

  lemma {:induction false} SameBits(g: Layout, ram: seq<bv8>, ram': seq<bv8>, n: nat)
    requires Holds(g, ram) && |ram'| == |ram| && n <= 8 * BitmapBytes(g.total)
    requires forall x :: 0 <= x < |ram| && InBitmap(g, x) ==> ram'[x] == ram[x]
    ensures UsedBelow(g, ram', n) == UsedBelow(g, ram, n)
  {
    if n > 0 {
      SameBits(g, ram, ram', n - 1);
    }
  }

  /** Everything in memory but the bitmap, which reads as zero. */
  function Masked(g: Layout, ram: seq<bv8>): (r: seq<bv8>)
    ensures |r| == |ram| && forall x :: 0 <= x < |ram| ==> r[x] == if InBitmap(g, x) then 0 else ram[x]
  {
    seq(|ram|, x requires 0 <= x < |ram| => if InBitmap(g, x) then 0 else ram[x])
  }

  /** What the memory says: the used pages by their bits, and all the rest as frames. */
  function StateOf(g: Layout, ram: seq<bv8>): State
    requires Holds(g, ram)
  {
    State(g.base, g.total, UsedIn(g, ram), FramesIn(Masked(g, ram)))
  }

  /** The bit of a page is set or cleared by a byte store; a page that does not exist has none. */
  function StoreBit(g: Layout, ram: seq<bv8>, k: nat, on: bool): (r: seq<bv8>)
    requires Holds(g, ram)
    ensures |r| == |ram|
  {
    if k >= g.total then ram
    else
      var x := g.area + k / 8;
      ram[x := if on then ram[x] | Mask(k % 8) else ram[x] & !Mask(k % 8)]
  }

  /** Some pages marked used or free. */
  function With(used: set<nat>, pages: set<nat>, on: bool): set<nat>
  {
    if on then used + pages else used - pages
  }

  lemma BitSet(g: Layout, ram: seq<bv8>, k: nat, j: nat)
    requires Holds(g, ram) && k < g.total && j < 8 * BitmapBytes(g.total)
    ensures BitIn(g, StoreBit(g, ram, k, true), j) == (j == k || BitIn(g, ram, j))
  {
    SetOneBit(ram[g.area + k / 8], k % 8, j % 8);
  }

  lemma BitCleared(g: Layout, ram: seq<bv8>, k: nat, j: nat)
    requires Holds(g, ram) && k < g.total && j < 8 * BitmapBytes(g.total)
    ensures BitIn(g, StoreBit(g, ram, k, false), j) == (j != k && BitIn(g, ram, j))
  {
    ClearOneBit(ram[g.area + k / 8], k % 8, j % 8);
  }

  /** The bits of the pages are all that a bit store changes. */
  lemma BitMasked(g: Layout, ram: seq<bv8>, k: nat, on: bool)
    requires Holds(g, ram)
    ensures Masked(g, StoreBit(g, ram, k, on)) == Masked(g, ram)
  {
  }

  lemma BitUsedBelow(g: Layout, ram: seq<bv8>, k: nat, on: bool, n: nat)
    requires Holds(g, ram) && k < g.total && n <= 8 * BitmapBytes(g.total)
    ensures UsedBelow(g, StoreBit(g, ram, k, on), n) == if k < n then With(UsedBelow(g, ram, n), {k}, on) else UsedBelow(g, ram, n)
  {
    var r := StoreBit(g, ram, k, on);
    UsedMeans(g, ram, n);
    UsedMeans(g, r, n);
    forall j: nat | j < n ensures BitIn(g, r, j) == if j == k then on else BitIn(g, ram, j) {
      if on {
        BitSet(g, ram, k, j);
      } else {
        BitCleared(g, ram, k, j);
      }
    }
  }

  /** Setting or clearing a page's bit adds or removes the page. */
  lemma BitUsed(g: Layout, ram: seq<bv8>, k: nat, on: bool)
    requires Holds(g, ram) && k < g.total
    ensures UsedIn(g, StoreBit(g, ram, k, on)) == With(UsedIn(g, ram), {k}, on)
  {
    BitUsedBelow(g, ram, k, on, 8 * BitmapBytes(g.total));
  }

  // ----- frames that hold no bit ------------------------------------------------

  /** A frame of memory that the bitmap does not reach into. */
  predicate FrameClear(g: Layout, size: nat, a: nat)
  {
    a in FrameAddrs(size) && (a + PAGE_SIZE <= g.area || g.area + BitmapBytes(g.total) <= a)
  }

  /** Reads of such a frame see what the state says. */
  lemma EntryRead(g: Layout, ram: seq<bv8>, t: nat, i: nat)
    requires Holds(g, ram) && FrameClear(g, |ram|, t) && i < 512
    ensures EntryIn(ram, t, i) == EntryAt(StateOf(g, ram).mem, t, i)
  {
    var x := t + 8 * i;
    assert Masked(g, ram)[x..x + 8] == ram[x..x + 8];
  }

  /** Stores into such a frame change that entry of the state, and no bit. */
  lemma StoreState(g: Layout, ram: seq<bv8>, t: nat, i: nat, e: Pte)
    requires Holds(g, ram) && FrameClear(g, |ram|, t) && i < 512
    ensures var s := StateOf(g, ram);
            StateOf(g, StoreEntry(ram, t, i, e)) == s.(mem := PutEntry(s.mem, t, i, e))
  {
    StoreApart(g, ram, t + 8 * i, Value(e));
    FramesStored(Masked(g, ram), t, i, e);
  }

  /** Filling such a frame changes that frame of the state, and no bit. */
  lemma FrameState(g: Layout, ram: seq<bv8>, t: nat, words: Table)
    requires Holds(g, ram) && FrameClear(g, |ram|, t)
    ensures var s := StateOf(g, ram); StateOf(g, StoreFrame(ram, t, words)) == s.(mem := s.mem[t := words])
  {
    var r := StoreFrame(ram, t, words);
    assert Masked(g, r) == StoreFrame(Masked(g, ram), t, words);
    SameBits(g, ram, r, 8 * BitmapBytes(g.total));
    FrameStored(Masked(g, ram), t, words);
  }

  /** A word stored outside the bitmap. */
  lemma StoreApart(g: Layout, ram: seq<bv8>, x: nat, v: nat)
    requires Holds(g, ram) && (x + 8 <= g.area || g.area + BitmapBytes(g.total) <= x)
    ensures UsedIn(g, StoreWord(ram, x, v)) == UsedIn(g, ram)
    ensures Masked(g, StoreWord(ram, x, v)) == StoreWord(Masked(g, ram), x, v)
  {
    SameBits(g, ram, StoreWord(ram, x, v), 8 * BitmapBytes(g.total));
  }
}
