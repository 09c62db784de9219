/**
 * Physical memory management: page-index arithmetic, the choice of the
 * usable memory region at boot, the per-frame reference counts
 * (`memory_map`, one byte per frame) with the free-frame counter, and the
 * kernel-page bitmap from which contiguous kernel pages are handed out.
 */
module Memory {
  import opened Base
  import StdLib
  import Bitmap

  const PAGE_SIZE: int := 0x1000
  const MEMORY_BASE: int := 0x10_0000
  const KERNEL_MEMORY_SIZE: int := 0x100_0000
  /** The frames below `MEMORY_BASE` (the first megabyte). */
  const BASE_PAGES: int := 0x100
  /** Bytes of the kernel-page bitmap: one bit per page from 1 MiB up to 16 MiB. */
  const KERNEL_MAP_BYTES: int := 480
  const ZONE_VALID: int := 1

  /** `IDX`: the page index of an address. */
  function Idx(addr: nat): (i: nat)
    requires addr < U32_LIMIT
    ensures i < 0x10_0000
  {
    addr / 0x1000
  }

  /** `DIDX`: bits 22..31 of an address, its page-directory slot. */
  function DIdx(addr: nat): (i: nat)
    requires addr < U32_LIMIT
    ensures i < 0x400
  {
    (addr / 0x40_0000) % 0x400
  }

  /** `TIDX`: bits 12..21 of an address, its page-table slot. */
  function TIdx(addr: nat): (i: nat)
    requires addr < U32_LIMIT
    ensures i < 0x400
  {
    (addr / 0x1000) % 0x400
  }

  /** `PAGE`: the first address of page `i`, shifted in 32 bits. */
  function Page(i: nat): (addr: nat)
    ensures addr < U32_LIMIT && addr % 0x1000 == 0
  {
    (i * 0x1000) % U32_LIMIT
  }

  /** An address splits into directory slot, table slot and offset within the page. */
  lemma AddressSplits(addr: nat)
    requires addr < U32_LIMIT
    ensures addr == DIdx(addr) * 0x40_0000 + TIdx(addr) * 0x1000 + addr % 0x1000
    ensures Idx(addr) == DIdx(addr) * 0x400 + TIdx(addr)
  {
  }

  /** `PAGE` and `IDX` are inverse on the 2^20 pages of a 32-bit address space. */
  lemma PageIdxRoundTrip(i: nat, addr: nat)
    requires i < 0x10_0000 && addr < U32_LIMIT && addr % 0x1000 == 0
    ensures Idx(Page(i)) == i
    ensures Page(Idx(addr)) == addr
  {
  }

  /** One address-range descriptor as the loader reports it (64-bit base and size). */
  datatype Ards = Ards(base: nat, size: nat, kind: nat)

  /** The layout `memory_init` derives: `free_pages` and `total_pages`. */
  datatype Layout = Layout(freePages: nat, totalPages: nat)

  /** Index of the first valid region of strictly largest size among `rs[..n]`, if any region is valid and non-empty. */
  function Largest(rs: seq<Ards>, n: nat): (r: Option<nat>)
    requires n <= |rs|
    ensures r.Some? ==> r.value < n && rs[r.value].kind == ZONE_VALID && rs[r.value].size > 0
    ensures r.Some? ==> forall k :: 0 <= k < n && rs[k].kind == ZONE_VALID ==> rs[k].size <= rs[r.value].size
    ensures r.Some? ==> forall k :: 0 <= k < r.value && rs[k].kind == ZONE_VALID ==> rs[k].size < rs[r.value].size
    ensures r.None? ==> forall k :: 0 <= k < n && rs[k].kind == ZONE_VALID ==> rs[k].size == 0
  {
    if n == 0 then None
    else
      var prev := Largest(rs, n - 1);
      var e := rs[n - 1];
      var best := if prev.Some? then rs[prev.value].size else 0;
      if e.kind == ZONE_VALID && e.size > best then Some(n - 1) else prev
  }

  /**
   * The region `memory_init`'s loop holds after `rs[..n]`, as written: the
   * kept size is the `uint32` copy of a region's size, and each region's
   * full 64-bit size is compared with that copy. A region of 4 GiB or more
   * can thus be kept with its size cut to 32 bits, and later regions are
   * measured against the cut size.
   */
  function Picked(rs: seq<Ards>, n: nat): (r: Option<nat>)
    requires n <= |rs|
    ensures r.Some? ==> r.value < n && rs[r.value].kind == ZONE_VALID && rs[r.value].size > 0
    ensures r.Some? ==> forall k :: r.value < k < n && rs[k].kind == ZONE_VALID ==> rs[k].size <= rs[r.value].size % U32_LIMIT
    ensures r.None? ==> forall k :: 0 <= k < n && rs[k].kind == ZONE_VALID ==> rs[k].size == 0
  {
    if n == 0 then None
    else
      var prev := Picked(rs, n - 1);
      var e := rs[n - 1];
      var kept := if prev.Some? then rs[prev.value].size % U32_LIMIT else 0;
      if e.kind == ZONE_VALID && e.size > kept then Some(n - 1) else prev
  }

  /** While every region is below 4 GiB, the loop as written keeps the strictly largest region. */
  lemma {:induction false} PickedIsLargest(rs: seq<Ards>, n: nat)
    requires n <= |rs|
    requires forall k :: 0 <= k < |rs| ==> rs[k].size < U32_LIMIT
    ensures Picked(rs, n) == Largest(rs, n)
  {
    if n > 0 {
      PickedIsLargest(rs, n - 1);
    }
  }

  /**
   * The scan of `memory_init`: the base and size, truncated to 32 bits, of
   * the region the loop keeps (zero when no valid region is larger than
   * zero).
   */
  method ScanRegions(rs: seq<Ards>) returns (memoryBase: nat, memorySize: nat)
    ensures memorySize < U32_LIMIT && memoryBase < U32_LIMIT
    ensures
      var kept := Picked(rs, |rs|);
      && memoryBase == (if kept.Some? then rs[kept.value].base % U32_LIMIT else 0)
      && memorySize == (if kept.Some? then rs[kept.value].size % U32_LIMIT else 0)
  {
    memoryBase, memorySize := 0, 0;
    var i := 0;
    while i < |rs|
      invariant 0 <= i <= |rs|
      invariant 0 <= memorySize < U32_LIMIT
      invariant
        var kept := Picked(rs, i);
        memoryBase == (if kept.Some? then rs[kept.value].base % U32_LIMIT else 0) &&
        memorySize == (if kept.Some? then rs[kept.value].size % U32_LIMIT else 0)
    {
      if rs[i].kind == ZONE_VALID && rs[i].size > memorySize {
        memoryBase := rs[i].base % U32_LIMIT;
        memorySize := rs[i].size % U32_LIMIT;
      }
      i := i + 1;
    }
  }

  /**
   * `memory_init`: keeps the first strictly largest valid region (base and
   * size truncated to 32 bits), requires it to start at 1 MiB and be page
   * aligned, and derives the page counts. None stands for the panics (an
   * unknown loader, a failed assertion, less than 16 MiB of memory).
   */
  method MemoryInit(fromLoader: bool, rs: seq<Ards>) returns (r: Option<Layout>)
    ensures !fromLoader ==> r.None?
    ensures fromLoader ==>
      var kept := Picked(rs, |rs|);
      var base := if kept.Some? then rs[kept.value].base % U32_LIMIT else 0;
      var size := if kept.Some? then rs[kept.value].size % U32_LIMIT else 0;
      r == if base == MEMORY_BASE && size % PAGE_SIZE == 0 && size >= KERNEL_MEMORY_SIZE
           then Some(Layout(size / PAGE_SIZE, size / PAGE_SIZE + BASE_PAGES))
           else None
    ensures r.Some? ==> r.value.totalPages == r.value.freePages + BASE_PAGES
    ensures r.Some? ==> 0x1000 <= r.value.freePages < 0x10_0000
  {
    if !fromLoader {
      return None;
    }
    var memoryBase, memorySize := ScanRegions(rs);
    if memoryBase != MEMORY_BASE || memorySize % PAGE_SIZE != 0 {
      return None;
    }
    var freePages := Idx(memorySize);
    var totalPages := freePages + Idx(MEMORY_BASE);
    if memorySize < KERNEL_MEMORY_SIZE {
      return None;
    }
    r := Some(Layout(freePages, totalPages));
  }

  /** The number of unreferenced frames among `m[lo..hi]`. */
  function FreeCount(m: seq<byte>, lo: nat, hi: nat): (n: nat)
    requires lo <= hi <= |m|
    ensures n <= hi - lo
    decreases hi - lo
  {
    if lo == hi then 0 else (if m[lo] == 0 then 1 else 0) + FreeCount(m, lo + 1, hi)
  }

  /** Changing one reference count moves the free count by exactly the change in that frame's freedom. */
  lemma {:induction false} FreeCountUpdate(m: seq<byte>, lo: nat, hi: nat, i: nat, v: byte)
    requires lo <= i < hi <= |m|
    ensures FreeCount(m[i := v], lo, hi) + (if m[i] == 0 then 1 else 0) == FreeCount(m, lo, hi) + (if v == 0 then 1 else 0)
    decreases hi - lo
  {
    if lo < i {
      FreeCountUpdate(m, lo + 1, hi, i, v);
    } else {
      assert FreeCount(m[i := v], lo + 1, hi) == FreeCount(m, lo + 1, hi) by {
        FreeCountFrame(m, m[i := v], lo + 1, hi);
      }
    }
  }

  /** The free count only depends on the counted frames. */
  lemma {:induction false} FreeCountFrame(m: seq<byte>, m': seq<byte>, lo: nat, hi: nat)
    requires lo <= hi <= |m| && hi <= |m'|
    requires forall k :: lo <= k < hi ==> m[k] == m'[k]
    ensures FreeCount(m, lo, hi) == FreeCount(m', lo, hi)
    decreases hi - lo
  {
    if lo < hi {
      FreeCountFrame(m, m', lo + 1, hi);
    }
  }

  /** A zero free count means every frame is referenced. */
  lemma {:induction false} FreeCountZero(m: seq<byte>, lo: nat, hi: nat)
    requires lo <= hi <= |m| && FreeCount(m, lo, hi) == 0
    ensures forall k :: lo <= k < hi ==> m[k] != 0
    decreases hi - lo
  {
    if lo < hi {
      FreeCountZero(m, lo + 1, hi);
    }
  }

  /** Frames that are all unreferenced are all counted. */
  lemma {:induction false} FreeCountAll(m: seq<byte>, lo: nat, hi: nat)
    requires lo <= hi <= |m| && forall k :: lo <= k < hi ==> m[k] == 0
    ensures FreeCount(m, lo, hi) == hi - lo
    decreases hi - lo
  {
    if lo < hi {
      FreeCountAll(m, lo + 1, hi);
    }
  }

  /** On an empty bitmap the first-fit scan starts at bit 0. */
  lemma ScanEmptyMap(n: nat, count: nat)
    requires 0 < count <= 8 * n
    ensures Bitmap.ScanStart(Zeros(n), count) == Some(0)
  {
    var z := Zeros(n);
    forall t | 0 <= t < Bitmap.Size(z)
      ensures !Bitmap.Bit(z, t)
    {
      assert z[t / 8] == 0;
      Bitmap.ZeroHasNoBit(t % 8);
    }
    assert Bitmap.RunFree(z, 0, count);
    Bitmap.ScanIsFirstFit(z, count);
  }

  /** The frame allocator and the kernel-page bitmap after `memory_map_init`. */
  class PageAllocator {
    /** `memory_map`: one reference count per frame, in the frames it occupies. */
    var refs: array<byte>
    var totalPages: nat
    var freePages: nat
    var startPage: nat
    var mapPages: nat
    var kernelMap: Bitmap.Bitmap

    ghost predicate Valid()
      reads this, refs, kernelMap
    {
      && kernelMap.bits != refs
      && kernelMap.offset == BASE_PAGES && kernelMap.bits.Length == KERNEL_MAP_BYTES
      && startPage == BASE_PAGES + mapPages <= totalPages <= refs.Length
      && freePages == FreeCount(refs[..], startPage, totalPages)
    }

    /**
     * `memory_map_init`: sizes the reference-count array to whole pages,
     * marks every frame below `start_page` referenced once and the rest
     * free, takes the array's own pages off `free_pages`, and marks the
     * array's pages used in an empty kernel-page bitmap.
     */
    constructor MapInit(layout: Layout)
      requires layout.totalPages == layout.freePages + BASE_PAGES
      requires 0x1000 <= layout.freePages < 0x10_0000
      ensures Valid() && fresh(refs) && fresh(kernelMap) && fresh(kernelMap.bits)
      ensures totalPages == layout.totalPages
      ensures mapPages == StdLib.DivRoundUp(layout.totalPages, PAGE_SIZE)
      ensures refs.Length == mapPages * PAGE_SIZE
      ensures startPage == BASE_PAGES + mapPages
      ensures freePages == layout.freePages - mapPages == totalPages - startPage
      ensures forall k :: 0 <= k < refs.Length ==> refs[k] == if k < startPage then 1 else 0
      ensures kernelMap.bits[..] == Bitmap.Fill(Zeros(KERNEL_MAP_BYTES), 0, mapPages)
    {
      var pages := StdLib.DivRoundUp(layout.totalPages, PAGE_SIZE);
      StdLib.DivRoundUpIsCeiling(layout.totalPages, PAGE_SIZE);
      assert 1 <= pages <= 0x101;
      var free := layout.freePages - pages;
      var m := new byte[pages * PAGE_SIZE](_ => 0);
      var start := BASE_PAGES + pages;
      var i := 0;
      while i < start
        invariant 0 <= i <= start
        invariant forall k :: 0 <= k < m.Length ==> m[k] == if k < i then 1 else 0
      {
        m[i] := 1;
        i := i + 1;
      }
      FreeCountAll(m[..], start, layout.totalPages);
      var bits := new byte[KERNEL_MAP_BYTES];
      var kmap := new Bitmap.Bitmap.Init(bits, BASE_PAGES);
      ScanEmptyMap(KERNEL_MAP_BYTES, pages);
      var _ := kmap.Scan(pages);
      refs := m;
      totalPages := layout.totalPages;
      freePages := free;
      startPage := start;
      mapPages := pages;
      kernelMap := kmap;
    }

    /**
     * `get_page`: references the lowest free frame at or above
     * `start_page` and returns its address; None (the "OOM" panic) exactly
     * when no frame is free.
     */
    method GetPage() returns (r: Option<nat>)
      requires Valid()
      modifies refs, this`freePages
      ensures Valid()
      ensures r.None? <==> old(freePages) == 0
      ensures r.None? ==> refs[..] == old(refs[..]) && freePages == old(freePages)
      ensures r.Some? ==> exists i :: (startPage <= i < totalPages && old(refs[i]) == 0
        && (forall k :: startPage <= k < i ==> old(refs[k]) != 0)
        && r.value == Page(i) && refs[..] == old(refs[..])[i := 1] && freePages == old(freePages) - 1)
    {
      var i := startPage;
      while i < totalPages
        invariant startPage <= i <= totalPages
        invariant forall k :: startPage <= k < i ==> refs[k] != 0
      {
        if refs[i] == 0 {
          FreeCountUpdate(refs[..], startPage, totalPages, i, 1);
          refs[i] := 1;
          freePages := freePages - 1;
          return Some(Page(i));
        }
        i := i + 1;
      }
      if freePages != 0 {
        FreeCountZeroed(refs[..], startPage, totalPages);
      }
      return None;
    }

    /**
     * The assertions `put_page` makes before the update: `addr` is page
     * aligned, names a frame from `start_page` below `total_pages`, and that
     * frame is referenced.
     */
    predicate Releasable(addr: nat)
      requires Valid() && addr < U32_LIMIT
      reads this, refs, kernelMap
    {
      addr % PAGE_SIZE == 0 && startPage <= Idx(addr) < totalPages && refs[Idx(addr)] >= 1
    }

    /**
     * `put_page` as written: when the opening assertions fail (not
     * `Releasable`) the call halts (`panicked`) and nothing changes.
     * Otherwise it drops one reference to the frame at `addr`; the frame
     * becomes free, and `free_pages` grows, exactly when its count reaches 0.
     * The closing assertion `0 < free_pages < total_pages` then halts
     * exactly when no frame is free, which happens when a shared frame loses
     * one of several references while every frame is in use
     * (`PutPageAsWrittenPanics`).
     */
    method PutPage(addr: nat) returns (panicked: bool)
      requires Valid() && addr < U32_LIMIT
      modifies refs, this`freePages
      ensures Valid()
      ensures !old(Releasable(addr)) ==> panicked && refs[..] == old(refs[..]) && freePages == old(freePages)
      ensures old(Releasable(addr)) ==>
        && refs[..] == old(refs[..])[Idx(addr) := old(refs[Idx(addr)]) - 1]
        && freePages == old(freePages) + (if refs[Idx(addr)] == 0 then 1 else 0)
        && (panicked <==> refs[Idx(addr)] != 0 && old(freePages) == 0)
    {
      var idx := Idx(addr);
      if addr % PAGE_SIZE != 0 || !(startPage <= idx < totalPages) || refs[idx] < 1 {
        return true;
      }
      FreeCountUpdate(refs[..], startPage, totalPages, idx, refs[idx] - 1);
      refs[idx] := refs[idx] - 1;
      if refs[idx] == 0 {
        freePages := freePages + 1;
      }
      panicked := !(0 < freePages < totalPages);
    }

    /**
     * `put_page` with the closing check it evidently intends: `free_pages`
     * stays below `total_pages`, and is positive once the frame is free.
     * The call halts exactly when the opening assertions fail; the closing
     * check always holds.
     */
    method PutPageIntended(addr: nat) returns (panicked: bool)
      requires Valid() && addr < U32_LIMIT
      modifies refs, this`freePages
      ensures Valid()
      ensures panicked <==> !old(Releasable(addr))
      ensures panicked ==> refs[..] == old(refs[..]) && freePages == old(freePages)
      ensures !panicked ==>
        && refs[..] == old(refs[..])[Idx(addr) := old(refs[Idx(addr)]) - 1]
        && freePages == old(freePages) + (if refs[Idx(addr)] == 0 then 1 else 0)
        && freePages < totalPages && (refs[Idx(addr)] == 0 ==> 0 < freePages)
    {
      var idx := Idx(addr);
      if addr % PAGE_SIZE != 0 || !(startPage <= idx < totalPages) || refs[idx] < 1 {
        return true;
      }
      FreeCountUpdate(refs[..], startPage, totalPages, idx, refs[idx] - 1);
      refs[idx] := refs[idx] - 1;
      if refs[idx] == 0 {
        freePages := freePages + 1;
      }
      panicked := false;
    }

    /**
     * `alloc_kpage` (through `scan_page`): the address of the first run of
     * `count` free kernel pages, now marked used. None stands for the
     * panics: `count == 0` fails the kernel assertion, and no such run
     * panics in `scan_page`.
     */
    method AllocKPage(count: nat) returns (r: Option<nat>)
      requires Valid()
      modifies kernelMap.bits
      ensures Valid()
      ensures count == 0 ==> r.None? && kernelMap.bits[..] == old(kernelMap.bits[..])
      ensures count > 0 ==>
        var s := Bitmap.ScanStart(old(kernelMap.bits[..]), count);
        && (s.None? ==> r.None? && kernelMap.bits[..] == old(kernelMap.bits[..]))
        && (s.Some? ==> r == Some(Page(BASE_PAGES + s.value))
                        && kernelMap.bits[..] == Bitmap.Fill(old(kernelMap.bits[..]), s.value, count))
    {
      if count == 0 {
        return None;
      }
      var index := kernelMap.Scan(count);
      if index == EOF {
        return None;
      }
      r := Some(Page(index));
    }

    /**
     * `free_kpage` (through `reset_page`): the `count` kernel pages from
     * `vaddr` become free. The kernel assertions on an unaligned `vaddr`
     * and on `count == 0` halt (`panicked`) and nothing changes; the pages
     * must lie in the bitmap and be marked used.
     */
    method FreeKPage(vaddr: nat, count: nat) returns (panicked: bool)
      requires Valid() && vaddr < U32_LIMIT
      requires vaddr % PAGE_SIZE == 0 && count > 0 ==>
        && BASE_PAGES <= Idx(vaddr) && Idx(vaddr) - BASE_PAGES + count <= 8 * KERNEL_MAP_BYTES
        && forall t :: Idx(vaddr) - BASE_PAGES <= t < Idx(vaddr) - BASE_PAGES + count ==> Bitmap.Bit(kernelMap.bits[..], t)
      modifies kernelMap.bits
      ensures Valid()
      ensures panicked <==> vaddr % PAGE_SIZE != 0 || count == 0
      ensures panicked ==> kernelMap.bits[..] == old(kernelMap.bits[..])
      ensures !panicked ==> kernelMap.bits[..] == Bitmap.Clear(old(kernelMap.bits[..]), Idx(vaddr) - BASE_PAGES, count)
    {
      if vaddr % PAGE_SIZE != 0 || count == 0 {
        return true;
      }
      ResetPage(kernelMap, vaddr, count);
      panicked := false;
    }
  }

  /**
   * `reset_page` on the kernel-page bitmap: the `count` used pages from
   * the page-aligned `addr` are cleared one by one.
   */
  method ResetPage(bitmap: Bitmap.Bitmap, addr: nat, count: nat)
    requires bitmap.offset == BASE_PAGES && addr < U32_LIMIT && addr % PAGE_SIZE == 0 && count > 0
    requires BASE_PAGES <= Idx(addr) && Idx(addr) - BASE_PAGES + count <= Bitmap.Size(bitmap.bits[..])
    requires forall t :: Idx(addr) - BASE_PAGES <= t < Idx(addr) - BASE_PAGES + count ==> Bitmap.Bit(bitmap.bits[..], t)
    modifies bitmap.bits
    ensures bitmap.bits[..] == Bitmap.Clear(old(bitmap.bits[..]), Idx(addr) - BASE_PAGES, count)
  {
    var index := Idx(addr);
    ghost var b0 := bitmap.bits[..];
    ghost var rel := index - BASE_PAGES;
    var i := 0;
    while i < count
      invariant 0 <= i <= count
      invariant bitmap.bits[..] == Bitmap.Clear(b0, rel, i)
    {
      Bitmap.ClearSpec(b0, rel, i);
      var used := bitmap.Test(index + i);
      assert used;
      bitmap.Set(index + i, false);
      i := i + 1;
    }
  }

  /**
   * The assertion at the end of `put_page` fails on a legitimate state:
   * every frame from `lo` on is referenced and frame `i` is shared, so
   * dropping one of its references leaves no frame free.
   */
  lemma PutPageAsWrittenPanics(m: seq<byte>, lo: nat, hi: nat, i: nat)
    requires lo <= i < hi <= |m| && m[i] >= 2
    requires forall k :: lo <= k < hi ==> m[k] != 0
    ensures FreeCount(m, lo, hi) == 0
    ensures FreeCount(m[i := m[i] - 1], lo, hi) == 0
  {
    FreeCountZeroed(m, lo, hi);
    FreeCountUpdate(m, lo, hi, i, m[i] - 1);
  }

  /** The intended check holds for every reachable state: the free count never reaches the page total, and a freed frame is counted. */
  lemma PutPageIntendedCheck(m: seq<byte>, lo: nat, hi: nat, i: nat)
    requires 0 < lo <= i < hi <= |m| && m[i] >= 1
    ensures FreeCount(m[i := m[i] - 1], lo, hi) < hi
    ensures m[i] == 1 ==> FreeCount(m[i := m[i] - 1], lo, hi) == FreeCount(m, lo, hi) + 1 > 0
  {
    FreeCountUpdate(m, lo, hi, i, m[i] - 1);
  }

  /** A positive free count means some frame is free. */
  lemma {:induction false} FreeCountZeroed(m: seq<byte>, lo: nat, hi: nat)
    requires lo <= hi <= |m| && forall k :: lo <= k < hi ==> m[k] != 0
    ensures FreeCount(m, lo, hi) == 0
    decreases hi - lo
  {
    if lo < hi {
      FreeCountZeroed(m, lo + 1, hi);
    }
  }

  /** A positive free count is witnessed by a free frame. */
  lemma {:induction false} FreeCountPositive(m: seq<byte>, lo: nat, hi: nat)
    requires lo <= hi <= |m| && FreeCount(m, lo, hi) > 0
    ensures exists k :: lo <= k < hi && m[k] == 0
    decreases hi - lo
  {
    if m[lo] != 0 {
      FreeCountPositive(m, lo + 1, hi);
    }
  }
}
