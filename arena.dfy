/**
 * The kernel heap (`kmalloc`/`kfree`): seven size classes of 16 << i bytes.
 * A small arena is one kernel page with a 16-byte header, split into
 * equal blocks that are threaded on their class's free list; a large
 * arena is a run of whole pages for one allocation.
 *
 * Arena headers are a map from the arena's page address to its header;
 * free lists are sequences (push and pop at the front). Each operation is
 * a step function on a `HeapState` value; the `Heap` class performs it in
 * place and is proved to follow it. A pointer is live (`Allocated`) when
 * it is past a large arena's header, or a block of a small arena that is
 * not on its free list.
 */
module Arena {
  import opened Base
  import StdLib
  import Bitmap
  import Memory

  const DESC_COUNT: nat := 7
  /** `sizeof(arena_t)`: a descriptor pointer and three `uint32` fields. */
  const HEADER_SIZE: nat := 16
  const PAGE_SIZE: nat := 4096
  /** The largest request served from a size class. */
  const SMALL_LIMIT: nat := 1024

  /** The block sizes of the seven descriptors. */
  const BLOCK_SIZES: seq<nat> := [16, 32, 64, 128, 256, 512, 1024]
  /** The blocks per page of the seven descriptors. */
  const TOTAL_BLOCKS: seq<nat> := [255, 127, 63, 31, 15, 7, 3]

  /** The block size of descriptor `d`. */
  function BlockSize(d: nat): (n: nat)
    requires d < DESC_COUNT
    ensures 16 <= n <= SMALL_LIMIT
  {
    BLOCK_SIZES[d]
  }

  /** `total_block` of descriptor `d`. */
  function TotalBlock(d: nat): (n: nat)
    requires d < DESC_COUNT
    ensures 3 <= n <= 255
  {
    TOTAL_BLOCKS[d]
  }

  /** Descriptor `d` holds blocks of `16 << d` bytes, as many as fit in a page after the header. */
  lemma DescriptorTable(d: nat)
    requires d < DESC_COUNT
    ensures BlockSize(d) == 16 * Pow2(d)
    ensures TotalBlock(d) == (PAGE_SIZE - HEADER_SIZE) / BlockSize(d)
  {
    assert Pow2(1) == 2 && Pow2(2) == 4 && Pow2(3) == 8 && Pow2(4) == 16 && Pow2(5) == 32 && Pow2(6) == 64;
  }

  /** The size class `kmalloc` picks for a small request: the smallest block that holds it. */
  function SizeClass(size: nat): (d: nat)
    requires size <= SMALL_LIMIT
    ensures d < DESC_COUNT && size <= BlockSize(d)
    ensures forall k :: 0 <= k < d ==> BlockSize(k) < size
  {
    if size <= 16 then 0 else if size <= 32 then 1 else if size <= 64 then 2
    else if size <= 128 then 3 else if size <= 256 then 4 else if size <= 512 then 5 else 6
  }

  /** The offset of block `i` from the end of the header. */
  function Offset(d: nat, i: nat): nat
    requires d < DESC_COUNT
  {
    i * BlockSize(d)
  }

  /** `get_arena_block`: block `i` of the arena at `a`, just past the header. */
  function BlockAddr(a: nat, d: nat, i: nat): nat
    requires d < DESC_COUNT
  {
    a + HEADER_SIZE + Offset(d, i)
  }

  /** Every block ends inside the page. */
  lemma OffsetBound(d: nat, i: nat)
    requires d < DESC_COUNT && i < TotalBlock(d)
    ensures Offset(d, i) + BlockSize(d) <= PAGE_SIZE - HEADER_SIZE
  {
    assert d == 0 || d == 1 || d == 2 || d == 3 || d == 4 || d == 5 || d == 6;
  }

  /** Later blocks lie at higher offsets. */
  lemma OffsetIncreasing(d: nat, i: nat, j: nat)
    requires d < DESC_COUNT && i < j
    ensures Offset(d, i) < Offset(d, j)
  {
  }

  /** `get_block_arena`: the page a block lies in, `b & 0xfffff000`, which rounds down to a multiple of the page size. */
  function BlockArena(b: nat): nat
  {
    b - b % PAGE_SIZE
  }

  /** The blocks of an arena lie inside its page after the header, in increasing order. */
  lemma BlockLayout(a: nat, d: nat, i: nat, j: nat)
    requires a % PAGE_SIZE == 0 && d < DESC_COUNT && i < j < TotalBlock(d)
    ensures BlockArena(BlockAddr(a, d, i)) == a && BlockArena(BlockAddr(a, d, j)) == a
    ensures BlockAddr(a, d, i) < BlockAddr(a, d, j)
  {
    BlockLayoutOne(a, d, i);
    BlockLayoutOne(a, d, j);
    OffsetIncreasing(d, i, j);
  }

  /** A header: `desc` is None for a large arena; `count` is its pages (large) or free blocks (small). */
  datatype Header = Header(desc: Option<nat>, count: nat)

  /** The kernel pages an arena occupies. */
  function PagesOf(h: Header): nat
  {
    if h.desc.None? then h.count else 1
  }

  /** The relative kernel-map bit of the page at `a`. */
  function MapBit(a: nat): int
  {
    a / PAGE_SIZE - Memory.BASE_PAGES
  }

  /** A sequence without repetitions. */
  predicate Distinct(s: seq<nat>)
  {
    forall i, j :: 0 <= i < j < |s| ==> s[i] != s[j]
  }

  /** Dropping the head keeps a list free of repetitions. */
  lemma DistinctTail(s: seq<nat>)
    requires Distinct(s) && s != []
    ensures Distinct(s[1..]) && s[0] !in s[1..]
  {
    forall i, j | 0 <= i < j < |s[1..]|
      ensures s[1..][i] != s[1..][j]
    {
      assert s[1..][i] == s[i + 1] && s[1..][j] == s[j + 1];
    }
    forall k | 0 <= k < |s[1..]|
      ensures s[1..][k] != s[0]
    {
      assert s[1..][k] == s[k + 1];
    }
  }

  /** Pushing an absent entry keeps a list free of repetitions. */
  lemma DistinctCons(x: nat, s: seq<nat>)
    requires Distinct(s) && x !in s
    ensures Distinct([x] + s)
  {
    var r := [x] + s;
    forall i, j | 0 <= i < j < |r|
      ensures r[i] != r[j]
    {
      assert r[j] == s[j - 1];
      if i > 0 {
        assert r[i] == s[i - 1];
      }
    }
  }

  /** The number of entries of `fl` inside the arena at `a`. */
  function CountIn(fl: seq<nat>, a: nat): (n: nat)
    ensures n <= |fl|
  {
    if fl == [] then 0 else (if BlockArena(fl[0]) == a then 1 else 0) + CountIn(fl[1..], a)
  }

  /** `fl` without the entries inside the arena at `a`, in order. */
  function Unlink(fl: seq<nat>, a: nat): (r: seq<nat>)
    ensures forall b :: b in r <==> b in fl && BlockArena(b) != a
    ensures CountIn(r, a) == 0
    ensures forall a' :: a' != a ==> CountIn(r, a') == CountIn(fl, a')
  {
    if fl == [] then []
    else if BlockArena(fl[0]) == a then Unlink(fl[1..], a)
    else [fl[0]] + Unlink(fl[1..], a)
  }

  /** Unlinking keeps a list free of repetitions. */
  lemma {:induction false} UnlinkDistinct(fl: seq<nat>, a: nat)
    requires Distinct(fl)
    ensures Distinct(Unlink(fl, a))
  {
    if fl != [] {
      UnlinkDistinct(fl[1..], a);
    }
  }

  /** The `n` kernel pages from the page at `a` are all marked used in `bits`. */
  predicate Marked(bits: seq<byte>, a: nat, n: nat)
  {
    0 <= MapBit(a) && MapBit(a) + n <= Bitmap.Size(bits) && forall t :: MapBit(a) <= t < MapBit(a) + n ==> Bitmap.Bit(bits, t)
  }

  /** Arenas occupy all their pages and no two share one. */
  predicate Placed(bits: seq<byte>, headers: map<nat, Header>)
  {
    && (forall a :: a in headers ==> Marked(bits, a, PagesOf(headers[a])))
    && (forall a, a' :: a in headers && a' in headers && a != a' ==>
          MapBit(a) + PagesOf(headers[a]) <= MapBit(a') || MapBit(a') + PagesOf(headers[a']) <= MapBit(a))
  }

  /** The free list a fresh arena's page is carved into: blocks `n - 1` down to 0. */
  function Carve(a: nat, d: nat, n: nat): (r: seq<nat>)
    requires d < DESC_COUNT
    ensures |r| == n
    ensures forall k :: 0 <= k < n ==> r[k] == BlockAddr(a, d, n - 1 - k)
  {
    if n == 0 then [] else [BlockAddr(a, d, n - 1)] + Carve(a, d, n - 1)
  }

  /** A carved page lists blocks of that page only, and every one of them. */
  lemma CarveMembers(a: nat, d: nat, n: nat)
    requires a % PAGE_SIZE == 0 && d < DESC_COUNT && n <= TotalBlock(d)
    ensures forall b :: b in Carve(a, d, n) ==> BlockArena(b) == a && IsBlockOf(b, a, d)
    ensures forall i :: 0 <= i < n ==> BlockAddr(a, d, i) in Carve(a, d, n)
  {
    var r := Carve(a, d, n);
    forall b | b in r
      ensures BlockArena(b) == a && IsBlockOf(b, a, d)
    {
      var k :| 0 <= k < n && r[k] == b;
      BlockLayoutOne(a, d, n - 1 - k);
    }
    forall i | 0 <= i < n
      ensures BlockAddr(a, d, i) in r
    {
      assert r[n - 1 - i] == BlockAddr(a, d, i);
    }
  }

  /** A carved page counts `n` entries in its own arena and none in any other. */
  lemma {:induction false} CarveCount(a: nat, d: nat, n: nat, a': nat)
    requires a % PAGE_SIZE == 0 && d < DESC_COUNT && n <= TotalBlock(d)
    ensures CountIn(Carve(a, d, n), a') == if a' == a then n else 0
  {
    if n > 0 {
      CarveCount(a, d, n - 1, a');
      assert Carve(a, d, n)[1..] == Carve(a, d, n - 1);
      BlockLayoutOne(a, d, n - 1);
    }
  }

  /** A carved page lists no block twice. */
  lemma CarveDistinct(a: nat, d: nat, n: nat)
    requires a % PAGE_SIZE == 0 && d < DESC_COUNT && n <= TotalBlock(d)
    ensures Distinct(Carve(a, d, n))
  {
    var r := Carve(a, d, n);
    forall i, j | 0 <= i < j < n
      ensures r[i] != r[j]
    {
      BlockLayout(a, d, n - 1 - j, n - 1 - i);
    }
  }

  /** `list_remove`: `s` without the first occurrence of `x`. */
  function Remove(s: seq<nat>, x: nat): (r: seq<nat>)
    ensures x !in s ==> r == s
  {
    if s == [] then [] else if s[0] == x then s[1..] else [s[0]] + Remove(s[1..], x)
  }

  /** `s` without the entries in `xs`, in order. */
  function Without(s: seq<nat>, xs: set<nat>): (r: seq<nat>)
    ensures forall b :: b in r <==> b in s && b !in xs
  {
    if s == [] then []
    else if s[0] in xs then Without(s[1..], xs)
    else [s[0]] + Without(s[1..], xs)
  }

  /** The first `i` blocks of the arena at `a` of descriptor `d`. */
  function BlocksBelow(a: nat, d: nat, i: nat): set<nat>
    requires d < DESC_COUNT
  {
    set j | 0 <= j < i :: BlockAddr(a, d, j)
  }

  /** Removing an entry without repetitions is filtering it out. */
  lemma {:induction false} RemoveIsWithout(s: seq<nat>, xs: set<nat>, x: nat)
    requires Distinct(s)
    ensures Remove(Without(s, xs), x) == Without(s, xs + {x})
  {
    if s != [] {
      DistinctTail(s);
      RemoveIsWithout(s[1..], xs, x);
      if s[0] !in xs && s[0] == x {
        WithoutAbsent(s[1..], xs, x);
      }
    }
  }

  lemma {:induction false} WithoutAbsent(s: seq<nat>, xs: set<nat>, x: nat)
    requires x !in s
    ensures Without(s, xs + {x}) == Without(s, xs)
  {
    if s != [] {
      WithoutAbsent(s[1..], xs, x);
    }
  }

  /** Filtering out every block of an arena unlinks the arena from a list holding only its blocks. */
  lemma {:induction false} WithoutBlocksIsUnlink(s: seq<nat>, a: nat, d: nat)
    requires a % PAGE_SIZE == 0 && d < DESC_COUNT
    requires forall b :: b in s && BlockArena(b) == a ==> IsBlockOf(b, a, d)
    ensures Without(s, BlocksBelow(a, d, TotalBlock(d))) == Unlink(s, a)
  {
    if s != [] {
      WithoutBlocksIsUnlink(s[1..], a, d);
      var xs := BlocksBelow(a, d, TotalBlock(d));
      if s[0] in xs {
        var j :| 0 <= j < TotalBlock(d) && s[0] == BlockAddr(a, d, j);
        BlockLayoutOne(a, d, j);
      }
      if BlockArena(s[0]) == a {
        var j :| 0 <= j < TotalBlock(d) && s[0] == BlockAddr(a, d, j);
        assert s[0] in xs;
      }
    }
  }

  /**
   * A run the scan found clear lies apart from every placed arena; once it
   * is filled, an arena over exactly that run can be placed beside them.
   */
  lemma PlaceNew(bits: seq<byte>, headers: map<nat, Header>, s: nat, a: nat, h: Header)
    requires Placed(bits, headers) && Bitmap.RunFree(bits, s, PagesOf(h)) && PagesOf(h) > 0
    requires forall a' :: a' in headers ==> PagesOf(headers[a']) > 0
    requires MapBit(a) == s
    ensures a !in headers
    ensures Placed(Bitmap.Fill(bits, s, PagesOf(h)), headers[a := h])
  {
    var n := PagesOf(h);
    Bitmap.FillSpec(bits, s, n);
    forall a' | a' in headers
      ensures MapBit(a') + PagesOf(headers[a']) <= s || s + n <= MapBit(a')
    {
      var t := if MapBit(a') <= s then s else MapBit(a');
      assert s <= t < s + n ==> !Bitmap.Bit(bits, t);
      assert MapBit(a') <= t < MapBit(a') + PagesOf(headers[a']) ==> Bitmap.Bit(bits, t);
    }
  }

  /** Clearing one placed arena's pages leaves every other arena marked. */
  lemma ClearedRun(bits: seq<byte>, headers: map<nat, Header>, a: nat)
    requires Placed(bits, headers) && a in headers
    ensures var n := PagesOf(headers[a]);
      MapBit(a) + n <= Bitmap.Size(bits) &&
      Placed(Bitmap.Clear(bits, MapBit(a), n), headers - {a})
  {
    var n := PagesOf(headers[a]);
    Bitmap.ClearSpec(bits, MapBit(a), n);
  }

  /** `b` is one of the blocks of an arena at `a` of descriptor `d`. */
  ghost predicate IsBlockOf(b: nat, a: nat, d: nat)
    requires d < DESC_COUNT
  {
    exists i :: 0 <= i < TotalBlock(d) && b == BlockAddr(a, d, i)
  }

  /** A list with no entry in the arena at `a` counts none there. */
  lemma {:induction false} CountInNone(s: seq<nat>, a: nat)
    requires forall b :: b in s ==> BlockArena(b) != a
    ensures CountIn(s, a) == 0
  {
    if s != [] {
      assert s[0] in s;
      CountInNone(s[1..], a);
    }
  }

  lemma {:induction false} CountInAppend(x: seq<nat>, y: seq<nat>, a: nat)
    ensures CountIn(x + y, a) == CountIn(x, a) + CountIn(y, a)
  {
    if x != [] {
      assert x + y != [] && (x + y)[0] == x[0] && (x + y)[1..] == x[1..] + y;
      CountInAppend(x[1..], y, a);
      assert CountIn(x + y, a) == (if BlockArena(x[0]) == a then 1 else 0) + CountIn(x[1..] + y, a);
    } else {
      assert x + y == y;
    }
  }


  /** Unless `size + 16` wraps, the pages of a large arena hold the request and its header. */
  lemma LargePages(size: nat)
    requires size < U32_LIMIT
    ensures var n := StdLib.DivRoundUp((size + HEADER_SIZE) % U32_LIMIT, PAGE_SIZE);
      size + HEADER_SIZE + PAGE_SIZE - 1 < U32_LIMIT ==> n * PAGE_SIZE >= size + HEADER_SIZE
  {
    if size + HEADER_SIZE + PAGE_SIZE - 1 < U32_LIMIT {
      assert (size + HEADER_SIZE) % U32_LIMIT == size + HEADER_SIZE;
      StdLib.DivRoundUpIsCeiling(size + HEADER_SIZE, PAGE_SIZE);
    }
  }

  /** The entries of `fl` inside the arena at `a`. */
  function Listed(fl: seq<nat>, a: nat): set<nat>
  {
    set b | b in fl && BlockArena(b) == a
  }

  /** A list without repetitions counts as many entries in an arena as the set of them. */
  lemma {:induction false} CountInIsCard(fl: seq<nat>, a: nat)
    requires Distinct(fl)
    ensures CountIn(fl, a) == |Listed(fl, a)|
  {
    if fl != [] {
      DistinctTail(fl);
      CountInIsCard(fl[1..], a);
      assert fl == [fl[0]] + fl[1..];
      if BlockArena(fl[0]) == a {
        assert Listed(fl, a) == Listed(fl[1..], a) + {fl[0]};
        assert fl[0] !in Listed(fl[1..], a);
      } else {
        assert Listed(fl, a) == Listed(fl[1..], a);
      }
    } else {
      assert Listed(fl, a) == {};
    }
  }

  /** An arena has as many distinct blocks as its descriptor's `total_block`. */
  lemma {:induction false} BlocksBelowCard(a: nat, d: nat, n: nat)
    requires d < DESC_COUNT
    ensures |BlocksBelow(a, d, n)| == n
  {
    if n > 0 {
      BlocksBelowCard(a, d, n - 1);
      forall j | 0 <= j < n - 1
        ensures BlockAddr(a, d, j) != BlockAddr(a, d, n - 1)
      {
        OffsetIncreasing(d, j, n - 1);
      }
      assert BlocksBelow(a, d, n) == BlocksBelow(a, d, n - 1) + {BlockAddr(a, d, n - 1)};
    }
  }

  /**
   * A list without repetitions whose entries in the arena at `a` are blocks
   * of that arena holds at most `total_block` of them; when it holds that
   * many, every block of the arena is on it.
   */
  lemma CountInBlocks(fl: seq<nat>, a: nat, d: nat)
    requires d < DESC_COUNT && Distinct(fl)
    requires forall b :: b in fl && BlockArena(b) == a ==> IsBlockOf(b, a, d)
    ensures CountIn(fl, a) <= TotalBlock(d)
    ensures CountIn(fl, a) == TotalBlock(d) ==> forall i :: 0 <= i < TotalBlock(d) ==> BlockAddr(a, d, i) in fl
  {
    var listed := Listed(fl, a);
    var blocks := BlocksBelow(a, d, TotalBlock(d));
    CountInIsCard(fl, a);
    BlocksBelowCard(a, d, TotalBlock(d));
    assert listed <= blocks;
    assert blocks == listed + (blocks - listed);
    assert |blocks| == |listed| + |blocks - listed|;
    forall i | 0 <= i < TotalBlock(d) && CountIn(fl, a) == TotalBlock(d)
      ensures BlockAddr(a, d, i) in fl
    {
      assert BlockAddr(a, d, i) in blocks;
      assert blocks - listed == {};
      assert BlockAddr(a, d, i) in listed;
    }
  }

  lemma {:induction false} WithoutNothing(s: seq<nat>)
    ensures Without(s, {}) == s
  {
    if s != [] {
      WithoutNothing(s[1..]);
    }
  }

  /** Removing blocks `0 .. n - 1` one at a time from a list without repetitions filters them out. */
  lemma {:induction false} RemoveBlocksIsWithout(fl: seq<nat>, a: nat, d: nat, n: nat)
    requires d < DESC_COUNT && Distinct(fl)
    ensures RemoveBlocks(fl, a, d, n) == Without(fl, BlocksBelow(a, d, n))
  {
    if n == 0 {
      assert BlocksBelow(a, d, 0) == {};
      WithoutNothing(fl);
    } else {
      RemoveBlocksIsWithout(fl, a, d, n - 1);
      assert BlocksBelow(a, d, n) == BlocksBelow(a, d, n - 1) + {BlockAddr(a, d, n - 1)};
      RemoveIsWithout(fl, BlocksBelow(a, d, n - 1), BlockAddr(a, d, n - 1));
    }
  }

  /** Removing every block of an arena one at a time unlinks the arena from the list. */
  lemma RemoveBlocksIsUnlink(fl: seq<nat>, a: nat, d: nat)
    requires a % PAGE_SIZE == 0 && d < DESC_COUNT && Distinct(fl)
    requires forall b :: b in fl && BlockArena(b) == a ==> IsBlockOf(b, a, d)
    ensures RemoveBlocks(fl, a, d, TotalBlock(d)) == Unlink(fl, a)
  {
    RemoveBlocksIsWithout(fl, a, d, TotalBlock(d));
    WithoutBlocksIsUnlink(fl, a, d);
  }

  /** An arena placed over a run the scan found clear is new, page-aligned and placed apart from the others. */
  lemma NewArenaAt(bits: seq<byte>, headers: map<nat, Header>, s: nat, a: nat, h: Header)
    requires Placed(bits, headers) && |bits| == Memory.KERNEL_MAP_BYTES
    requires forall a' :: a' in headers ==> HeaderOk(a', headers[a'])
    requires PagesOf(h) > 0 && Bitmap.RunFree(bits, s, PagesOf(h))
    requires a == Memory.Page(Memory.BASE_PAGES + s)
    ensures a !in headers && a % PAGE_SIZE == 0 && a < U32_LIMIT
    ensures Placed(Bitmap.Fill(bits, s, PagesOf(h)), headers[a := h])
  {
    Memory.PageIdxRoundTrip(Memory.BASE_PAGES + s, 0);
    PlaceNew(bits, headers, s, a, h);
  }

  /** Changing a header without changing its page count keeps the arenas placed. */
  lemma PlacedSamePages(bits: seq<byte>, headers: map<nat, Header>, a: nat, h: Header)
    requires Placed(bits, headers) && a in headers && PagesOf(h) == PagesOf(headers[a])
    ensures Placed(bits, headers[a := h])
  {
  }

  /** A snapshot of the heap: the kernel-page bitmap, the seven free lists and the arena headers by page address. */
  datatype HeapState = HeapState(bits: seq<byte>, lists: seq<seq<nat>>, headers: map<nat, Header>)

  /** A sound header for an arena at `a`: page-aligned, a 32-bit address, at least one page, a descriptor when small. */
  predicate HeaderOk(a: nat, h: Header)
  {
    a % PAGE_SIZE == 0 && a < U32_LIMIT && PagesOf(h) > 0 && (h.desc.Some? ==> h.desc.value < DESC_COUNT)
  }

  /** The heap has a full-size page bitmap, one list per descriptor and sound headers. */
  ghost predicate Shape(st: HeapState)
  {
    && |st.bits| == Memory.KERNEL_MAP_BYTES && |st.lists| == DESC_COUNT
    && forall a :: a in st.headers ==> HeaderOk(a, st.headers[a])
  }

  /** `b` is a block of a small arena of descriptor `d`. */
  ghost predicate Owned(headers: map<nat, Header>, b: nat, d: nat)
    requires d < DESC_COUNT
  {
    BlockArena(b) in headers && headers[BlockArena(b)].desc == Some(d) && IsBlockOf(b, BlockArena(b), d)
  }

  /** Free list `fl` of descriptor `d` holds blocks of arenas of that descriptor, each once. */
  ghost predicate ListOk(headers: map<nat, Header>, fl: seq<nat>, d: nat)
    requires d < DESC_COUNT
  {
    Distinct(fl) && forall b :: b in fl ==> Owned(headers, b, d)
  }

  ghost predicate Lists(st: HeapState)
    requires |st.lists| == DESC_COUNT
  {
    forall d :: 0 <= d < DESC_COUNT ==> ListOk(st.headers, st.lists[d], d)
  }

  /** A small arena's `count` is the number of its blocks on its descriptor's list. */
  ghost predicate CountOk(lists: seq<seq<nat>>, a: nat, h: Header)
    requires |lists| == DESC_COUNT
  {
    h.desc.Some? && h.desc.value < DESC_COUNT ==> h.count == CountIn(lists[h.desc.value], a)
  }

  ghost predicate Counts(st: HeapState)
    requires |st.lists| == DESC_COUNT
  {
    forall a :: a in st.headers ==> CountOk(st.lists, a, st.headers[a])
  }

  /** The heap invariant. */
  ghost predicate HeapOk(st: HeapState)
  {
    && Shape(st)
    && Placed(st.bits, st.headers)
    && Lists(st)
    && Counts(st)
  }

  /**
   * `p` is a pointer `kmalloc` handed out and `kfree` has not taken back:
   * the address past a large arena's header, or a block of a small arena
   * that is not on its descriptor's free list.
   */
  ghost predicate Allocated(st: HeapState, p: nat)
    requires |st.lists| == DESC_COUNT
  {
    var a := BlockArena(p);
    && a in st.headers
    && match st.headers[a].desc
       case None => p == a + HEADER_SIZE
       case Some(d) => d < DESC_COUNT && IsBlockOf(p, a, d) && p !in st.lists[d]
  }

  /** `count--` on a `uint32` field: zero wraps to the largest value. */
  function Dec32(n: nat): nat
  {
    if n == 0 then U32_LIMIT - 1 else n - 1
  }

  /** `count++` on a `uint32` field: the largest value wraps to zero. */
  function Inc32(n: nat): nat
  {
    if n + 1 == U32_LIMIT then 0 else n + 1
  }

  /** The pages of a large arena: `div_round_up(size + 16, 4096)`, the sum wrapping at 32 bits. */
  function LargeCount(size: nat): nat
    requires size < U32_LIMIT
  {
    StdLib.DivRoundUp((size + HEADER_SIZE) % U32_LIMIT, PAGE_SIZE)
  }

  /**
   * The large path of `kmalloc`: `count` pages from the first free run, a
   * header with no descriptor counting them, and the address past the
   * header. None is the panic on a zero count or when no run is free.
   */
  function LargeArena(st: HeapState, count: nat): (HeapState, Option<nat>)
  {
    if count == 0 then (st, None)
    else
      match Bitmap.ScanStart(st.bits, count)
      case None => (st, None)
      case Some(s) =>
        var a := Memory.Page(Memory.BASE_PAGES + s);
        (st.(bits := Bitmap.Fill(st.bits, s, count), headers := st.headers[a := Header(None, count)]),
         Some(a + HEADER_SIZE))
  }

  /**
   * The refill of an empty list `d`: one fresh page with a header counting
   * all its blocks free, its blocks pushed in order 0, 1, ... None is the
   * panic when no kernel page is free.
   */
  function RefillStep(st: HeapState, d: nat): Option<HeapState>
    requires d < DESC_COUNT == |st.lists|
  {
    match Bitmap.ScanStart(st.bits, 1)
    case None => None
    case Some(s) =>
      var a := Memory.Page(Memory.BASE_PAGES + s);
      Some(HeapState(Bitmap.Fill(st.bits, s, 1), st.lists[d := Carve(a, d, TotalBlock(d)) + st.lists[d]],
                     st.headers[a := Header(Some(d), TotalBlock(d))]))
  }

  /** The pop of list `d`: its head is handed out and its arena's `count` decremented. */
  function PopStep(st: HeapState, d: nat): (HeapState, nat)
    requires d < |st.lists| && st.lists[d] != [] && BlockArena(st.lists[d][0]) in st.headers
  {
    var b := st.lists[d][0];
    var a := BlockArena(b);
    var h := st.headers[a];
    (st.(lists := st.lists[d := st.lists[d][1..]], headers := st.headers[a := h.(count := Dec32(h.count))]), b)
  }

  /** Every non-empty list starts with a block of a known arena. */
  predicate Heads(st: HeapState)
  {
    |st.lists| == DESC_COUNT &&
    forall d :: 0 <= d < DESC_COUNT && st.lists[d] != [] ==> BlockArena(st.lists[d][0]) in st.headers
  }

  /** The head of a refilled list lies in the fresh arena. */
  lemma RefillHead(st: HeapState, d: nat)
    requires d < DESC_COUNT == |st.lists| && RefillStep(st, d).Some?
    ensures var st' := RefillStep(st, d).value;
      st'.lists[d] != [] && BlockArena(st'.lists[d][0]) in st'.headers
  {
    var s := Bitmap.ScanStart(st.bits, 1).value;
    var a := Memory.Page(Memory.BASE_PAGES + s);
    BlockLayoutOne(a, d, TotalBlock(d) - 1);
  }

  /** `kmalloc(size)` on the heap: the new heap and the pointer, None for a panic. */
  function MallocStep(st: HeapState, size: nat): (HeapState, Option<nat>)
    requires size < U32_LIMIT && Heads(st)
  {
    if size > SMALL_LIMIT then LargeArena(st, LargeCount(size))
    else
      var d := SizeClass(size);
      if st.lists[d] == [] then
        match RefillStep(st, d)
        case None => (st, None)
        case Some(st') =>
          RefillHead(st, d);
          var popped := PopStep(st', d);
          (popped.0, Some(popped.1))
      else
        var popped := PopStep(st, d);
        (popped.0, Some(popped.1))
  }

  /** What `kfree` needs of a pointer's arena: a sound header and its pages marked used. */
  predicate FreeOk(st: HeapState, ptr: nat)
  {
    var a := BlockArena(ptr);
    && |st.lists| == DESC_COUNT && a in st.headers && HeaderOk(a, st.headers[a])
    && Marked(st.bits, a, PagesOf(st.headers[a]))
  }

  /** `list_remove` of blocks `0 .. n - 1` of the arena at `a`, in that order. */
  function RemoveBlocks(fl: seq<nat>, a: nat, d: nat, n: nat): seq<nat>
    requires d < DESC_COUNT
  {
    if n == 0 then fl else Remove(RemoveBlocks(fl, a, d, n - 1), BlockAddr(a, d, n - 1))
  }

  /**
   * `kfree(ptr)` on the heap: a large arena's pages are cleared; a small
   * block is pushed on its list and its arena's `count` incremented, and
   * when that reaches `total_block` every block of the arena is removed
   * from the list and its page cleared.
   */
  function KfreeStep(st: HeapState, ptr: nat): HeapState
    requires FreeOk(st, ptr)
  {
    var a := BlockArena(ptr);
    var h := st.headers[a];
    match h.desc
    case None =>
      st.(bits := Bitmap.Clear(st.bits, MapBit(a), h.count), headers := st.headers - {a})
    case Some(d) =>
      var fl := [ptr] + st.lists[d];
      var count := Inc32(h.count);
      if count == TotalBlock(d) then
        HeapState(Bitmap.Clear(st.bits, MapBit(a), 1), st.lists[d := RemoveBlocks(fl, a, d, TotalBlock(d))],
                  st.headers - {a})
      else
        st.(lists := st.lists[d := fl], headers := st.headers[a := h.(count := count)])
  }

  /** A free list stays sound when the headers keep every arena with its descriptor. */
  lemma ListOkSameDesc(headers: map<nat, Header>, headers': map<nat, Header>, fl: seq<nat>, d: nat)
    requires d < DESC_COUNT && ListOk(headers, fl, d)
    requires forall x :: x in headers ==> x in headers' && headers'[x].desc == headers[x].desc
    ensures ListOk(headers', fl, d)
  {
    forall b | b in fl
      ensures Owned(headers', b, d)
    {
      assert Owned(headers, b, d);
    }
  }

  /**
   * The lists stay sound across a step that changes list `d` only, keeps
   * every arena but the one at `a` with its descriptor, and leaves list `d`
   * sound, when the arena at `a`, if it was there, had no blocks on the
   * other lists.
   */
  lemma ListsAfter(st: HeapState, st': HeapState, d: nat, a: nat)
    requires |st.lists| == DESC_COUNT == |st'.lists| && d < DESC_COUNT && Lists(st)
    requires forall d' :: 0 <= d' < DESC_COUNT && d' != d ==> st'.lists[d'] == st.lists[d']
    requires forall x :: x in st.headers && x != a ==> x in st'.headers && st'.headers[x].desc == st.headers[x].desc
    requires a in st.headers ==> st.headers[a].desc.None? || st.headers[a].desc == Some(d)
    requires ListOk(st'.headers, st'.lists[d], d)
    ensures Lists(st')
  {
    forall d' | 0 <= d' < DESC_COUNT && d' != d
      ensures ListOk(st'.headers, st'.lists[d'], d')
    {
      assert ListOk(st.headers, st.lists[d'], d');
      forall b | b in st.lists[d']
        ensures Owned(st'.headers, b, d')
      {
        assert Owned(st.headers, b, d');
      }
    }
  }

  /**
   * The counts stay right across a step that changes list `d` only, keeps
   * every header but the one at `a`, and keeps the count on list `d` of
   * every other arena of descriptor `d`, when the header at `a`, if any,
   * is right.
   */
  lemma CountsAfter(st: HeapState, st': HeapState, d: nat, a: nat)
    requires |st.lists| == DESC_COUNT == |st'.lists| && d < DESC_COUNT && Counts(st)
    requires forall d' :: 0 <= d' < DESC_COUNT && d' != d ==> st'.lists[d'] == st.lists[d']
    requires forall x :: x in st'.headers && x != a ==> x in st.headers && st'.headers[x] == st.headers[x]
    requires forall x :: x in st'.headers && x != a && st'.headers[x].desc == Some(d) ==>
      CountIn(st'.lists[d], x) == CountIn(st.lists[d], x)
    requires a in st'.headers ==> CountOk(st'.lists, a, st'.headers[a])
    ensures Counts(st')
  {
    forall x | x in st'.headers
      ensures CountOk(st'.lists, x, st'.headers[x])
    {
      if x != a {
        assert CountOk(st.lists, x, st.headers[x]);
      }
    }
  }

  /** Every list of a sound heap starts with a block of a known arena. */
  lemma HeapOkHeads(st: HeapState)
    requires HeapOk(st)
    ensures Heads(st)
  {
    forall d | 0 <= d < DESC_COUNT && st.lists[d] != []
      ensures BlockArena(st.lists[d][0]) in st.headers
    {
      assert ListOk(st.headers, st.lists[d], d);
      assert st.lists[d][0] in st.lists[d];
    }
  }

  /** The large arena over the first free run, spelled out. */
  lemma LargeArenaAt(st: HeapState, count: nat)
    requires count > 0 && Bitmap.ScanStart(st.bits, count).Some?
    ensures var s := Bitmap.ScanStart(st.bits, count).value;
      var a := Memory.Page(Memory.BASE_PAGES + s);
      && LargeArena(st, count).0 == HeapState(Bitmap.Fill(st.bits, s, count), st.lists, st.headers[a := Header(None, count)])
      && LargeArena(st, count).1 == Some(a + HEADER_SIZE)
  {
  }

  /** Adding a large arena over pages that are placed apart keeps the heap sound. */
  lemma AddLargeOk(st: HeapState, st': HeapState, a: nat, count: nat)
    requires HeapOk(st) && count > 0 && a !in st.headers && a % PAGE_SIZE == 0 && a < U32_LIMIT
    requires st'.lists == st.lists && st'.headers == st.headers[a := Header(None, count)]
    requires |st'.bits| == Memory.KERNEL_MAP_BYTES && Placed(st'.bits, st'.headers)
    ensures HeapOk(st')
  {
    assert ListOk(st.headers, st.lists[0], 0);
    ListOkSameDesc(st.headers, st'.headers, st.lists[0], 0);
    ListsAfter(st, st', 0, a);
    CountsAfter(st, st', 0, a);
  }

  /** A new large arena makes exactly the address past its header live. */
  lemma AddLargeAllocated(st: HeapState, st': HeapState, a: nat, count: nat)
    requires |st.lists| == DESC_COUNT && a !in st.headers && BlockArena(a + HEADER_SIZE) == a
    requires st'.lists == st.lists && st'.headers == st.headers[a := Header(None, count)]
    ensures forall p: nat :: Allocated(st', p) <==> Allocated(st, p) || p == a + HEADER_SIZE
  {
  }

  /** A large arena over the first free run keeps the heap sound; the address past its header is the one new live pointer. */
  lemma LargeKeeps(st: HeapState, count: nat)
    requires HeapOk(st)
    ensures var res := LargeArena(st, count);
      && HeapOk(res.0)
      && (res.1.None? ==> res.0 == st)
      && (res.1.Some? ==>
            var a := BlockArena(res.1.value);
            && res.1.value == a + HEADER_SIZE && !Allocated(st, res.1.value) && res.0.headers[a] == Header(None, count))
      && forall p: nat :: Allocated(res.0, p) <==> Allocated(st, p) || res.1 == Some(p)
  {
    if count > 0 && Bitmap.ScanStart(st.bits, count).Some? {
      var s := Bitmap.ScanStart(st.bits, count).value;
      var a := Memory.Page(Memory.BASE_PAGES + s);
      var h := Header(None, count);
      NewArenaAt(st.bits, st.headers, s, a, h);
      InPage(a, HEADER_SIZE);
      var st' := HeapState(Bitmap.Fill(st.bits, s, count), st.lists, st.headers[a := h]);
      var ptr: nat := a + HEADER_SIZE;
      assert LargeArena(st, count) == (st', Some(ptr));
      AddLargeOk(st, st', a, count);
      AddLargeAllocated(st, st', a, count);
    }
  }

  /** Adding a small arena with all its blocks on its empty list keeps the heap sound. */
  lemma AddSmallOk(st: HeapState, st': HeapState, a: nat, d: nat)
    requires HeapOk(st) && d < DESC_COUNT && st.lists[d] == []
    requires a !in st.headers && a % PAGE_SIZE == 0 && a < U32_LIMIT
    requires st'.lists == st.lists[d := Carve(a, d, TotalBlock(d))]
    requires st'.headers == st.headers[a := Header(Some(d), TotalBlock(d))]
    requires |st'.bits| == Memory.KERNEL_MAP_BYTES && Placed(st'.bits, st'.headers)
    ensures HeapOk(st')
  {
    var total := TotalBlock(d);
    CarveMembers(a, d, total);
    CarveDistinct(a, d, total);
    CarveCount(a, d, total, a);
    assert ListOk(st'.headers, st'.lists[d], d);
    ListsAfter(st, st', d, a);
    forall x | x in st'.headers && x != a && st'.headers[x].desc == Some(d)
      ensures CountIn(st'.lists[d], x) == CountIn(st.lists[d], x)
    {
      CarveCount(a, d, total, x);
    }
    CountsAfter(st, st', d, a);
  }

  /** A new small arena with all its blocks free leaves whether `p` is live as it was. */
  lemma AddSmallAllocatedAt(st: HeapState, st': HeapState, a: nat, d: nat, p: nat)
    requires |st.lists| == DESC_COUNT && d < DESC_COUNT && st.lists[d] == []
    requires a !in st.headers && a % PAGE_SIZE == 0
    requires st'.lists == st.lists[d := Carve(a, d, TotalBlock(d))]
    requires st'.headers == st.headers[a := Header(Some(d), TotalBlock(d))]
    ensures Allocated(st', p) <==> Allocated(st, p)
  {
    CarveMembers(a, d, TotalBlock(d));
    var x := BlockArena(p);
    if x == a {
      if IsBlockOf(p, a, d) {
        var i :| 0 <= i < TotalBlock(d) && p == BlockAddr(a, d, i);
        assert p in st'.lists[d];
      }
    } else {
      assert p !in st'.lists[d];
    }
  }

  /** A new small arena with all its blocks free makes no pointer live. */
  lemma AddSmallAllocated(st: HeapState, st': HeapState, a: nat, d: nat)
    requires |st.lists| == DESC_COUNT && d < DESC_COUNT && st.lists[d] == []
    requires a !in st.headers && a % PAGE_SIZE == 0
    requires st'.lists == st.lists[d := Carve(a, d, TotalBlock(d))]
    requires st'.headers == st.headers[a := Header(Some(d), TotalBlock(d))]
    ensures forall p: nat :: Allocated(st', p) <==> Allocated(st, p)
  {
    forall p: nat
      ensures Allocated(st', p) <==> Allocated(st, p)
    {
      AddSmallAllocatedAt(st, st', a, d, p);
    }
  }

  /** Refilling an empty list keeps the heap sound and the live pointers as they were. */
  lemma RefillKeeps(st: HeapState, d: nat)
    requires HeapOk(st) && d < DESC_COUNT && st.lists[d] == []
    ensures var r := RefillStep(st, d);
      r.Some? ==> HeapOk(r.value) && forall p: nat :: Allocated(r.value, p) <==> Allocated(st, p)
  {
    if Bitmap.ScanStart(st.bits, 1).Some? {
      var s := Bitmap.ScanStart(st.bits, 1).value;
      var a := Memory.Page(Memory.BASE_PAGES + s);
      var h := Header(Some(d), TotalBlock(d));
      NewArenaAt(st.bits, st.headers, s, a, h);
      var fl := Carve(a, d, TotalBlock(d));
      assert fl + [] == fl;
      var st' := HeapState(Bitmap.Fill(st.bits, s, 1), st.lists[d := fl], st.headers[a := h]);
      assert RefillStep(st, d) == Some(st');
      AddSmallOk(st, st', a, d);
      AddSmallAllocated(st, st', a, d);
    }
  }

  /** Popping a block of an arena with a positive count keeps the heap sound. */
  lemma PopOk(st: HeapState, st': HeapState, d: nat, a: nat)
    requires HeapOk(st) && d < DESC_COUNT && st.lists[d] != [] && a == BlockArena(st.lists[d][0])
    requires a in st.headers && st.headers[a].desc == Some(d) && st.headers[a].count > 0
    requires st'.bits == st.bits && st'.lists == st.lists[d := st.lists[d][1..]]
    requires st'.headers == st.headers[a := st.headers[a].(count := st.headers[a].count - 1)]
    ensures HeapOk(st')
  {
    var fl := st.lists[d];
    assert ListOk(st.headers, fl, d);
    DistinctTail(fl);
    PlacedSamePages(st.bits, st.headers, a, st'.headers[a]);
    ListOkSameDesc(st.headers, st'.headers, fl[1..], d);
    ListsAfter(st, st', d, a);
    assert CountOk(st.lists, a, st.headers[a]);
    CountsAfter(st, st', d, a);
  }

  /** Popping a list makes exactly its head live. */
  lemma PopAllocated(st: HeapState, st': HeapState, d: nat, a: nat)
    requires |st.lists| == DESC_COUNT && d < DESC_COUNT && st.lists[d] != [] && a == BlockArena(st.lists[d][0])
    requires Distinct(st.lists[d]) && IsBlockOf(st.lists[d][0], a, d)
    requires a in st.headers && st.headers[a].desc == Some(d) && st.headers[a].count > 0
    requires st'.lists == st.lists[d := st.lists[d][1..]]
    requires st'.headers == st.headers[a := st.headers[a].(count := st.headers[a].count - 1)]
    ensures !Allocated(st, st.lists[d][0])
    ensures forall p: nat :: Allocated(st', p) <==> Allocated(st, p) || p == st.lists[d][0]
  {
    var fl := st.lists[d];
    DistinctTail(fl);
    assert fl == [fl[0]] + fl[1..];
  }

  /** Popping list `d` keeps the heap sound; its head, a block of descriptor `d`, is the one new live pointer. */
  lemma PopKeeps(st: HeapState, d: nat)
    requires HeapOk(st) && d < DESC_COUNT && st.lists[d] != []
    ensures BlockArena(st.lists[d][0]) in st.headers
    ensures var res := PopStep(st, d);
      && HeapOk(res.0) && !Allocated(st, res.1) && IsBlockOf(res.1, BlockArena(res.1), d)
      && forall p: nat :: Allocated(res.0, p) <==> Allocated(st, p) || p == res.1
  {
    var fl := st.lists[d];
    var b := fl[0];
    assert b in fl;
    assert ListOk(st.headers, fl, d);
    assert Owned(st.headers, b, d);
    var a := BlockArena(b);
    var h := st.headers[a];
    assert CountOk(st.lists, a, h);
    assert h.count > 0;
    var st' := HeapState(st.bits, st.lists[d := fl[1..]], st.headers[a := h.(count := h.count - 1)]);
    assert PopStep(st, d) == (st', b);
    PopOk(st, st', d, a);
    PopAllocated(st, st', d, a);
  }

  /** `kmalloc` keeps the heap sound and hands out exactly one pointer that was not live, in a block that holds the request. */
  lemma MallocKeeps(st: HeapState, size: nat)
    requires HeapOk(st) && size < U32_LIMIT
    ensures Heads(st)
    ensures var res := MallocStep(st, size);
      && HeapOk(res.0)
      && (res.1.None? ==> res.0 == st)
      && (res.1.Some? ==> !Allocated(st, res.1.value))
      && (forall p: nat :: Allocated(res.0, p) <==> Allocated(st, p) || res.1 == Some(p))
      && (res.1.Some? && size <= SMALL_LIMIT ==>
            var d := SizeClass(size);
            size <= BlockSize(d) && IsBlockOf(res.1.value, BlockArena(res.1.value), d))
      && (res.1.Some? && size > SMALL_LIMIT ==>
            var a := BlockArena(res.1.value);
            && res.1.value == a + HEADER_SIZE && res.0.headers[a].desc.None?
            && (size + HEADER_SIZE + PAGE_SIZE - 1 < U32_LIMIT ==> res.0.headers[a].count * PAGE_SIZE >= size + HEADER_SIZE))
  {
    HeapOkHeads(st);
    if size > SMALL_LIMIT {
      LargeKeeps(st, LargeCount(size));
      LargePages(size);
    } else {
      var d := SizeClass(size);
      if st.lists[d] == [] {
        RefillKeeps(st, d);
        if RefillStep(st, d).Some? {
          RefillHead(st, d);
          PopKeeps(RefillStep(st, d).value, d);
        }
      } else {
        PopKeeps(st, d);
      }
    }
  }

  /** Dropping a large arena keeps the heap sound. */
  lemma DropLargeOk(st: HeapState, st': HeapState, a: nat)
    requires HeapOk(st) && a in st.headers && st.headers[a].desc.None?
    requires st'.lists == st.lists && st'.headers == st.headers - {a}
    requires |st'.bits| == Memory.KERNEL_MAP_BYTES && Placed(st'.bits, st'.headers)
    ensures HeapOk(st')
  {
    assert ListOk(st.headers, st.lists[0], 0);
    forall b | b in st.lists[0]
      ensures Owned(st'.headers, b, 0)
    {
      assert Owned(st.headers, b, 0);
    }
    ListsAfter(st, st', 0, a);
    CountsAfter(st, st', 0, a);
  }

  /** Freeing a large arena keeps the heap sound; its pointer is the one that stops being live. */
  lemma FreeLargeKeeps(st: HeapState, ptr: nat)
    requires HeapOk(st) && Allocated(st, ptr) && st.headers[BlockArena(ptr)].desc.None?
    ensures FreeOk(st, ptr)
    ensures var st' := KfreeStep(st, ptr);
      HeapOk(st') && forall p: nat :: Allocated(st', p) <==> Allocated(st, p) && p != ptr
  {
    var a := BlockArena(ptr);
    ClearedRun(st.bits, st.headers, a);
    var st' := HeapState(Bitmap.Clear(st.bits, MapBit(a), st.headers[a].count), st.lists, st.headers - {a});
    assert KfreeStep(st, ptr) == st';
    DropLargeOk(st, st', a);
  }

  /** Pushing a live block back keeps the heap sound. */
  lemma PushOk(st: HeapState, st': HeapState, ptr: nat, d: nat, a: nat)
    requires HeapOk(st) && d < DESC_COUNT && a == BlockArena(ptr)
    requires a in st.headers && st.headers[a].desc == Some(d) && IsBlockOf(ptr, a, d) && ptr !in st.lists[d]
    requires st'.bits == st.bits && st'.lists == st.lists[d := [ptr] + st.lists[d]]
    requires st'.headers == st.headers[a := st.headers[a].(count := st.headers[a].count + 1)]
    ensures HeapOk(st')
  {
    var fl := st.lists[d];
    var fl' := [ptr] + fl;
    assert ListOk(st.headers, fl, d);
    DistinctCons(ptr, fl);
    assert fl'[0] == ptr && fl'[1..] == fl;
    PlacedSamePages(st.bits, st.headers, a, st'.headers[a]);
    assert Owned(st.headers, ptr, d);
    assert ListOk(st.headers, fl', d);
    ListOkSameDesc(st.headers, st'.headers, fl', d);
    ListsAfter(st, st', d, a);
    assert CountOk(st.lists, a, st.headers[a]);
    CountsAfter(st, st', d, a);
  }

  /** Pushing a live block back makes exactly it stop being live. */
  lemma PushAllocated(st: HeapState, st': HeapState, ptr: nat, d: nat, a: nat)
    requires |st.lists| == DESC_COUNT && d < DESC_COUNT && a == BlockArena(ptr)
    requires a in st.headers && st.headers[a].desc == Some(d)
    requires st'.lists == st.lists[d := [ptr] + st.lists[d]]
    requires st'.headers == st.headers[a := st.headers[a].(count := st.headers[a].count + 1)]
    ensures forall p: nat :: Allocated(st', p) <==> Allocated(st, p) && p != ptr
  {
  }

  /** The arena of a live small block has fewer than `total_block` blocks free. */
  lemma LiveBelowTotal(st: HeapState, ptr: nat)
    requires HeapOk(st) && Allocated(st, ptr) && st.headers[BlockArena(ptr)].desc.Some?
    ensures var h := st.headers[BlockArena(ptr)];
      h.desc.value < DESC_COUNT && h.count < TotalBlock(h.desc.value)
  {
    var a := BlockArena(ptr);
    var h := st.headers[a];
    var d := h.desc.value;
    var fl := st.lists[d];
    assert ListOk(st.headers, fl, d);
    forall b | b in fl && BlockArena(b) == a
      ensures IsBlockOf(b, a, d)
    {
      assert Owned(st.headers, b, d);
    }
    CountInBlocks(fl, a, d);
    assert CountOk(st.lists, a, h);
    var i :| 0 <= i < TotalBlock(d) && ptr == BlockAddr(a, d, i);
  }

  /** Pushing a small block back below `total_block` keeps the heap sound; the block stops being live. */
  lemma FreePushKeeps(st: HeapState, ptr: nat)
    requires HeapOk(st) && Allocated(st, ptr)
    requires var h := st.headers[BlockArena(ptr)];
      h.desc.Some? && Inc32(h.count) != TotalBlock(h.desc.value)
    ensures FreeOk(st, ptr)
    ensures var st' := KfreeStep(st, ptr);
      HeapOk(st') && forall p: nat :: Allocated(st', p) <==> Allocated(st, p) && p != ptr
  {
    var a := BlockArena(ptr);
    var h := st.headers[a];
    var d := h.desc.value;
    LiveBelowTotal(st, ptr);
    var st' := HeapState(st.bits, st.lists[d := [ptr] + st.lists[d]], st.headers[a := h.(count := h.count + 1)]);
    assert KfreeStep(st, ptr) == st';
    PushOk(st, st', ptr, d, a);
    PushAllocated(st, st', ptr, d, a);
  }

  /** Releasing a small arena all of whose blocks are on its list keeps the heap sound. */
  lemma ReleaseOk(st: HeapState, st': HeapState, ptr: nat, d: nat, a: nat)
    requires HeapOk(st) && d < DESC_COUNT && a == BlockArena(ptr)
    requires a in st.headers && st.headers[a].desc == Some(d) && IsBlockOf(ptr, a, d) && ptr !in st.lists[d]
    requires st'.lists == st.lists[d := Unlink([ptr] + st.lists[d], a)] && st'.headers == st.headers - {a}
    requires |st'.bits| == Memory.KERNEL_MAP_BYTES && Placed(st'.bits, st'.headers)
    ensures HeapOk(st')
  {
    var fl := st.lists[d];
    var fl' := [ptr] + fl;
    assert ListOk(st.headers, fl, d);
    DistinctCons(ptr, fl);
    UnlinkDistinct(fl', a);
    assert fl'[0] == ptr && fl'[1..] == fl;
    forall b | b in st'.lists[d]
      ensures Owned(st'.headers, b, d)
    {
      assert b in fl;
      assert Owned(st.headers, b, d);
    }
    ListsAfter(st, st', d, a);
    CountsAfter(st, st', d, a);
  }

  /** Releasing an arena all of whose blocks are on the list makes exactly the freed block stop being live. */
  lemma ReleaseAllocated(st: HeapState, st': HeapState, ptr: nat, d: nat, a: nat)
    requires |st.lists| == DESC_COUNT && d < DESC_COUNT && a == BlockArena(ptr)
    requires a in st.headers && st.headers[a].desc == Some(d)
    requires forall i :: 0 <= i < TotalBlock(d) ==> BlockAddr(a, d, i) in [ptr] + st.lists[d]
    requires st'.lists == st.lists[d := Unlink([ptr] + st.lists[d], a)] && st'.headers == st.headers - {a}
    ensures forall p: nat :: Allocated(st', p) <==> Allocated(st, p) && p != ptr
  {
    forall p: nat
      ensures Allocated(st', p) <==> Allocated(st, p) && p != ptr
    {
      if BlockArena(p) == a {
        assert IsBlockOf(p, a, d) ==> p in [ptr] + st.lists[d];
      }
    }
  }

  /**
   * Freeing the last live block of a small arena keeps the heap sound:
   * every block of the arena is on the list when the blocks are removed
   * (the checks in `kfree` hold), and the block stops being live.
   */
  lemma FreeReleaseKeeps(st: HeapState, ptr: nat)
    requires HeapOk(st) && Allocated(st, ptr)
    requires var h := st.headers[BlockArena(ptr)];
      h.desc.Some? && Inc32(h.count) == TotalBlock(h.desc.value)
    ensures FreeOk(st, ptr)
    ensures var a := BlockArena(ptr);
      var d := st.headers[a].desc.value;
      forall i :: 0 <= i < TotalBlock(d) ==> BlockAddr(a, d, i) in [ptr] + st.lists[d]
    ensures var st' := KfreeStep(st, ptr);
      HeapOk(st') && forall p: nat :: Allocated(st', p) <==> Allocated(st, p) && p != ptr
  {
    var a := BlockArena(ptr);
    var h := st.headers[a];
    var d := h.desc.value;
    var fl := st.lists[d];
    var fl' := [ptr] + fl;
    LiveBelowTotal(st, ptr);
    assert ListOk(st.headers, fl, d);
    DistinctCons(ptr, fl);
    forall b | b in fl' && BlockArena(b) == a
      ensures IsBlockOf(b, a, d)
    {
      if b != ptr {
        assert Owned(st.headers, b, d);
      }
    }
    assert fl'[0] == ptr && fl'[1..] == fl;
    assert CountOk(st.lists, a, h);
    assert CountIn(fl', a) == TotalBlock(d);
    CountInBlocks(fl', a, d);
    RemoveBlocksIsUnlink(fl', a, d);
    ClearedRun(st.bits, st.headers, a);
    var st' := HeapState(Bitmap.Clear(st.bits, MapBit(a), 1), st.lists[d := Unlink(fl', a)], st.headers - {a});
    assert KfreeStep(st, ptr) == st';
    ReleaseOk(st, st', ptr, d, a);
    ReleaseAllocated(st, st', ptr, d, a);
  }

  /** `kfree` of a live pointer keeps the heap sound, and that pointer, and only it, stops being live. */
  lemma KfreeKeeps(st: HeapState, ptr: nat)
    requires HeapOk(st) && Allocated(st, ptr)
    ensures FreeOk(st, ptr)
    ensures var st' := KfreeStep(st, ptr);
      HeapOk(st') && forall p: nat :: Allocated(st', p) <==> Allocated(st, p) && p != ptr
  {
    var h := st.headers[BlockArena(ptr)];
    if h.desc.None? {
      FreeLargeKeeps(st, ptr);
    } else if Inc32(h.count) == TotalBlock(h.desc.value) {
      FreeReleaseKeeps(st, ptr);
    } else {
      FreePushKeeps(st, ptr);
    }
  }

  /** The heap after a large allocation is sound and its lists start with known blocks. */
  lemma LargeOk(st: HeapState, count: nat)
    requires HeapOk(st)
    ensures HeapOk(LargeArena(st, count).0) && Heads(LargeArena(st, count).0)
  {
    LargeKeeps(st, count);
    HeapOkHeads(LargeArena(st, count).0);
  }

  /** The heap after a refill is sound and its lists start with known blocks. */
  lemma RefillOk(st: HeapState, d: nat)
    requires HeapOk(st) && d < DESC_COUNT && st.lists[d] == [] && RefillStep(st, d).Some?
    ensures HeapOk(RefillStep(st, d).value) && Heads(RefillStep(st, d).value)
  {
    RefillKeeps(st, d);
    HeapOkHeads(RefillStep(st, d).value);
  }

  /** A `kfree` that releases a small arena, spelled out. */
  lemma KfreeReleaseAt(st: HeapState, ptr: nat)
    requires FreeOk(st, ptr)
    requires var h := st.headers[BlockArena(ptr)]; h.desc.Some? && Inc32(h.count) == TotalBlock(h.desc.value)
    ensures var a := BlockArena(ptr);
      var d := st.headers[a].desc.value;
      KfreeStep(st, ptr) == HeapState(Bitmap.Clear(st.bits, MapBit(a), 1),
                                      st.lists[d := RemoveBlocks([ptr] + st.lists[d], a, d, TotalBlock(d))],
                                      st.headers - {a})
  {
  }

  /** The heap after a `kfree` is sound and its lists start with known blocks. */
  lemma KfreeOk(st: HeapState, ptr: nat)
    requires HeapOk(st) && Allocated(st, ptr)
    ensures FreeOk(st, ptr) && HeapOk(KfreeStep(st, ptr)) && Heads(KfreeStep(st, ptr))
  {
    KfreeKeeps(st, ptr);
    HeapOkHeads(KfreeStep(st, ptr));
  }

  /**
   * The heap: the kernel-page allocator it takes pages from, the seven
   * descriptors' free lists, block sizes and block counts, and the headers
   * of the live arenas by page address.
   */
  class Heap {
    var pages: Memory.PageAllocator
    /** `free_list` of each descriptor, head first. */
    var freeLists: seq<seq<nat>>
    /** `block_size` of each descriptor. */
    var blockSizes: seq<nat>
    /** `total_block` of each descriptor. */
    var totalBlocks: seq<nat>
    /** The arena headers, by page address. */
    var headers: map<nat, Header>

    /** The heap as a value. */
    ghost function State(): HeapState
      reads this, pages, pages.kernelMap, pages.kernelMap.bits
    {
      HeapState(pages.kernelMap.bits[..], freeLists, headers)
    }

    ghost predicate Valid()
      reads this, pages, pages.refs, pages.kernelMap, pages.kernelMap.bits
    {
      && pages.Valid()
      && blockSizes == BLOCK_SIZES && totalBlocks == TOTAL_BLOCKS
      && HeapOk(State()) && Heads(State())
    }

    /** `arena_init`: descriptor `i` gets block size `16 << i`, as many blocks as fit after the header, and an empty list. */
    constructor Init(p: Memory.PageAllocator)
      requires p.Valid()
      ensures Valid() && pages == p && headers == map[]
      ensures |freeLists| == DESC_COUNT && forall d :: 0 <= d < DESC_COUNT ==> freeLists[d] == []
    {
      pages := p;
      var sizes: seq<nat> := [];
      var totals: seq<nat> := [];
      var lists: seq<seq<nat>> := [];
      var blockSize: nat := 16;
      var i: nat := 0;
      while i < DESC_COUNT
        invariant i <= DESC_COUNT && |sizes| == |totals| == |lists| == i
        invariant blockSize == 16 * Pow2(i)
        invariant forall k :: 0 <= k < i ==> sizes[k] == 16 * Pow2(k) && lists[k] == []
        invariant forall k :: 0 <= k < i ==> totals[k] == (PAGE_SIZE - HEADER_SIZE) / sizes[k]
      {
        sizes := sizes + [blockSize];
        totals := totals + [(PAGE_SIZE - HEADER_SIZE) / blockSize];
        lists := lists + [[]];
        blockSize := blockSize * 2;
        i := i + 1;
      }
      forall k | 0 <= k < DESC_COUNT
        ensures sizes[k] == BLOCK_SIZES[k] && totals[k] == TOTAL_BLOCKS[k]
      {
        DescriptorTable(k);
      }
      blockSizes := sizes;
      totalBlocks := totals;
      freeLists := lists;
      headers := map[];
    }

    /**
     * `kmalloc`: a request over 1024 bytes takes the large path; a smaller
     * one scans the descriptors for the first block size that holds it,
     * refills that descriptor's list from a fresh page when it is empty,
     * and pops the list. None stands for a panic.
     */
    method Malloc(size: nat) returns (r: Option<nat>)
      requires Valid() && size < U32_LIMIT
      modifies this, pages.kernelMap.bits
      ensures Valid() && pages == old(pages)
      ensures (State(), r) == MallocStep(old(State()), size)
    {
      HeapOkHeads(State());
      if size > SMALL_LIMIT {
        r := MallocLarge(size);
        return;
      }
      var d: nat := 0;
      while blockSizes[d] < size
        invariant d <= SizeClass(size)
        invariant forall k :: 0 <= k < d ==> BlockSize(k) < size
        decreases DESC_COUNT - d
      {
        d := d + 1;
      }
      if freeLists[d] == [] {
        var ok := Refill(d);
        if !ok {
          return None;
        }
        RefillHead(old(State()), d);
      }
      var b := PopBlock(d);
      r := Some(b);
    }

    /** The large path of `kmalloc`. */
    method MallocLarge(size: nat) returns (r: Option<nat>)
      requires Valid() && SMALL_LIMIT < size < U32_LIMIT
      modifies this, pages.kernelMap.bits
      ensures Valid() && pages == old(pages)
      ensures (State(), r) == LargeArena(old(State()), LargeCount(size))
    {
      ghost var st := State();
      var count := LargeCount(size);
      LargeOk(st, count);
      if count == 0 {
        return None;
      }
      var page := pages.AllocKPage(count);
      if page.None? {
        return None;
      }
      var a := page.value;
      LargeArenaAt(st, count);
      headers := headers[a := Header(None, count)];
      r := Some(a + HEADER_SIZE);
      assert State() == LargeArena(st, count).0;
    }

    /** The refill path of `kmalloc`: a fresh page whose blocks are pushed on list `d` one by one. */
    method Refill(d: nat) returns (ok: bool)
      requires Valid() && d < DESC_COUNT && freeLists[d] == []
      modifies this, pages.kernelMap.bits
      ensures Valid() && pages == old(pages)
      ensures ok == RefillStep(old(State()), d).Some?
      ensures State() == if ok then RefillStep(old(State()), d).value else old(State())
    {
      ghost var st := State();
      if RefillStep(st, d).Some? {
        RefillOk(st, d);
      }
      var page := pages.AllocKPage(1);
      if page.None? {
        return false;
      }
      var a := page.value;
      var fl := CarveArena(freeLists[d], a, d);
      freeLists := freeLists[d := fl];
      headers := headers[a := Header(Some(d), totalBlocks[d])];
      ok := true;
      assert State() == RefillStep(st, d).value;
    }

    /** The loop of the refill that pushes the blocks of the arena at `a` on a free list, block 0 first. */
    static method CarveArena(fl0: seq<nat>, a: nat, d: nat) returns (fl: seq<nat>)
      requires d < DESC_COUNT
      ensures fl == Carve(a, d, TotalBlock(d)) + fl0
    {
      fl := fl0;
      var i: nat := 0;
      while i < TOTAL_BLOCKS[d]
        invariant i <= TotalBlock(d) && fl == Carve(a, d, i) + fl0
      {
        assert [BlockAddr(a, d, i)] + (Carve(a, d, i) + fl0) == Carve(a, d, i + 1) + fl0;
        fl := [BlockAddr(a, d, i)] + fl;
        i := i + 1;
      }
    }

    /** The pop path of `kmalloc`: the head of list `d` is handed out and its arena's `count` decremented. */
    method PopBlock(d: nat) returns (b: nat)
      requires Valid() && d < DESC_COUNT && freeLists[d] != []
      modifies this
      ensures Valid() && pages == old(pages)
      ensures (State(), b) == PopStep(old(State()), d)
    {
      PopKeeps(State(), d);
      var fl := freeLists[d];
      b := fl[0];
      var a := BlockArena(b);
      var h := headers[a];
      freeLists := freeLists[d := fl[1..]];
      headers := headers[a := h.(count := Dec32(h.count))];
      HeapOkHeads(State());
    }

    /**
     * `kfree`: a large arena's pages are returned to the kernel map; a
     * small block is pushed back on its list and its arena's `count`
     * incremented, and once that reaches `total_block` every block is
     * removed from the list and the arena's page is returned.
     */
    method Kfree(ptr: nat)
      requires Valid() && Allocated(State(), ptr)
      modifies this, pages.kernelMap.bits
      ensures Valid() && pages == old(pages)
      ensures State() == KfreeStep(old(State()), ptr)
    {
      var a := BlockArena(ptr);
      var h := headers[a];
      if h.desc.None? {
        FreeLarge(ptr);
      } else if Inc32(h.count) == totalBlocks[h.desc.value] {
        FreeArena(ptr);
      } else {
        FreeSmall(ptr);
      }
    }

    /** The large path of `kfree`: the arena's pages go back to the kernel map. */
    method FreeLarge(ptr: nat)
      requires Valid() && Allocated(State(), ptr) && headers[BlockArena(ptr)].desc.None?
      modifies this, pages.kernelMap.bits
      ensures Valid() && pages == old(pages)
      ensures State() == KfreeStep(old(State()), ptr)
    {
      ghost var st := State();
      KfreeOk(st, ptr);
      var a := BlockArena(ptr);
      var h := headers[a];
      FreePages(st, a);
      var _ := pages.FreeKPage(a, h.count);
      assert pages.kernelMap.bits[..] == KfreeStep(st, ptr).bits;
      headers := headers - {a};
      assert State() == KfreeStep(st, ptr);
    }

    /** The small path of `kfree` while blocks of the arena stay live: the block is pushed and the arena's `count` incremented. */
    method FreeSmall(ptr: nat)
      requires Valid() && Allocated(State(), ptr)
      requires var h := headers[BlockArena(ptr)]; h.desc.Some? && Inc32(h.count) != totalBlocks[h.desc.value]
      modifies this
      ensures Valid() && pages == old(pages)
      ensures State() == KfreeStep(old(State()), ptr)
    {
      ghost var st := State();
      KfreeOk(st, ptr);
      var a := BlockArena(ptr);
      var h := headers[a];
      var d := h.desc.value;
      freeLists := freeLists[d := [ptr] + freeLists[d]];
      headers := headers[a := h.(count := Inc32(h.count))];
      assert State() == KfreeStep(st, ptr);
    }

    /**
     * The small path of `kfree` for the last live block of an arena: after
     * the push every block is free, so all of them leave the list and the
     * page goes back to the kernel map.
     */
    method FreeArena(ptr: nat)
      requires Valid() && Allocated(State(), ptr)
      requires var h := headers[BlockArena(ptr)]; h.desc.Some? && Inc32(h.count) == totalBlocks[h.desc.value]
      modifies this, pages.kernelMap.bits
      ensures Valid() && pages == old(pages)
      ensures State() == KfreeStep(old(State()), ptr)
    {
      ghost var st := State();
      KfreeOk(st, ptr);
      var a := BlockArena(ptr);
      var d := headers[a].desc.value;
      FreePages(st, a);
      var fl := RemoveArena([ptr] + freeLists[d], a, d);
      var _ := pages.FreeKPage(a, 1);
      freeLists := freeLists[d := fl];
      headers := headers - {a};
      KfreeReleaseAt(st, ptr);
    }

    /** The loop of `kfree` that takes every block of the arena at `a` off a free list. */
    static method RemoveArena(fl0: seq<nat>, a: nat, d: nat) returns (fl: seq<nat>)
      requires d < DESC_COUNT
      ensures fl == RemoveBlocks(fl0, a, d, TotalBlock(d))
    {
      fl := fl0;
      var i: nat := 0;
      while i < TOTAL_BLOCKS[d]
        invariant i <= TotalBlock(d) && fl == RemoveBlocks(fl0, a, d, i)
      {
        fl := Remove(fl, BlockAddr(a, d, i));
        i := i + 1;
      }
    }
  }

  /** The pages of a freed arena are a marked run of the kernel map, as `free_kpage` asks. */
  lemma FreePages(st: HeapState, a: nat)
    requires Shape(st) && Placed(st.bits, st.headers) && a in st.headers
    ensures var n := PagesOf(st.headers[a]);
      && a < U32_LIMIT && a % PAGE_SIZE == 0 && n > 0
      && Memory.BASE_PAGES <= Memory.Idx(a) && MapBit(a) == Memory.Idx(a) - Memory.BASE_PAGES
      && Memory.Idx(a) - Memory.BASE_PAGES + n <= 8 * Memory.KERNEL_MAP_BYTES
      && forall t :: MapBit(a) <= t < MapBit(a) + n ==> Bitmap.Bit(st.bits, t)
  {
    assert HeaderOk(a, st.headers[a]);
    assert Marked(st.bits, a, PagesOf(st.headers[a]));
  }

  /** An address `k < 4096` bytes into a page lies in that page. */
  lemma {:induction false} InPage(a: nat, k: nat)
    requires a % PAGE_SIZE == 0 && k < PAGE_SIZE
    ensures BlockArena(a + k) == a
  {
    if a >= PAGE_SIZE {
      InPage(a - PAGE_SIZE, k);
    }
  }

  /** A block lies in its arena's page. */
  lemma BlockLayoutOne(a: nat, d: nat, i: nat)
    requires a % PAGE_SIZE == 0 && d < DESC_COUNT && i < TotalBlock(d)
    ensures BlockArena(BlockAddr(a, d, i)) == a
  {
    OffsetBound(d, i);
    InPage(a, HEADER_SIZE + Offset(d, i));
  }
}
