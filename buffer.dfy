/**
 * The block buffer cache: buffers carved from a fixed region (headers from
 * its low end, 1024-byte data slots from its high end), each caching one
 * block `(dev, block)` with a reference count and `valid`/`dirty` flags.
 * Unreferenced buffers wait on a free list and are recycled from its tail.
 *
 * A buffer is named by its handle, the order in which it was carved. The
 * 31 hash chains are modelled as what they implement, a map from identity
 * to handle; the free list is a sequence, head first. The disk behind
 * `bread`/`bwrite` is a map from identity to block contents (a block never
 * written reads as zeros).
 *
 * Each operation is a step function on the value `Cache`, and the class
 * `BufferCache` is proved to follow those steps. The lemmas prove that the
 * steps keep the cache well formed (`CacheOk`) and transparent: no step
 * changes what `Content` shows for any block, except `ModifyStep`, which
 * changes exactly the block it writes.
 */
module Buffer {
  import opened Base

  const BLOCK_SIZE: nat := 1024
  const SECTOR_SIZE: nat := 512
  /** Sectors per block. */
  const BLOCK_SECS: nat := 2
  const HASH_COUNT: nat := 31
  /** `KERNEL_BUFFER_MEM` and `KERNEL_BUFFER_SIZE`: the region buffers are carved from. */
  const BUFFER_MEM: nat := 0x80_0000
  const BUFFER_SIZE: nat := 0x40_0000
  /** `sizeof(buffer_t)` on the 32-bit target. */
  const HEADER_SIZE: nat := 64

  /** The block a buffer caches. */
  datatype Ident = Ident(dev: int, block: nat)

  /** A buffer: its data slot's address, identity, reference count, flags and the bytes in its slot. */
  datatype Buf = Buf(data: int, id: Ident, count: int, dirty: bool, valid: bool, bytes: seq<byte>)

  /** The carved buffers by handle, the free list head first, the hash chains as a map, and the disk. */
  datatype Cache = Cache(bufs: seq<Buf>, freeList: seq<nat>, hashed: map<Ident, nat>, disk: map<Ident, seq<byte>>)

  /**
   * `hash(dev, block)`: `(dev ^ block) % 31`, computed on the 32-bit
   * patterns of `dev` and `block`; every identity lands in one of the chains.
   */
  function Hash(id: Ident): (h: nat)
    requires id.block < U32_LIMIT
    ensures h < HASH_COUNT
  {
    (((id.dev % U32_LIMIT) as bv32 ^ id.block as bv32) as int) % HASH_COUNT
  }

  /** The address of the header of buffer `i`. */
  function HeaderAddr(i: nat): nat
  {
    BUFFER_MEM + HEADER_SIZE * i
  }

  /** The address of the data slot of buffer `i`: slots are taken downwards from the top of the region. */
  function DataAddr(i: nat): int
  {
    BUFFER_MEM + BUFFER_SIZE - BLOCK_SIZE * (i + 1)
  }

  /** `get_new_buffer` carves buffer `n` exactly while its header ends below the current data pointer. */
  predicate Carvable(n: nat)
  {
    HeaderAddr(n) + HEADER_SIZE < DataAddr(n)
  }

  /** The pool holds 3855 buffers. */
  lemma CarvableBound(n: nat)
    ensures Carvable(n) <==> n < 3855
  {
  }

  /**
   * Carved buffers own disjoint data slots inside the region, above every
   * header: slots of different buffers do not overlap and no slot overlaps
   * a header.
   */
  lemma SlotsDisjoint(i: nat, j: nat, n: nat)
    requires i < j < n && Carvable(n - 1)
    ensures DataAddr(j) + BLOCK_SIZE <= DataAddr(i)
    ensures BUFFER_MEM <= DataAddr(n - 1) && DataAddr(0) + BLOCK_SIZE == BUFFER_MEM + BUFFER_SIZE
    ensures HeaderAddr(n) <= DataAddr(n - 1)
  {
  }

  /** A block as the disk holds it. */
  function Stored(disk: map<Ident, seq<byte>>, id: Ident): seq<byte>
  {
    if id in disk then disk[id] else Zeros(BLOCK_SIZE)
  }

  /** `list_remove` of `h` from a free list: every other handle stays, in order. */
  function Unlist(fl: seq<nat>, h: nat): (r: seq<nat>)
    ensures forall x :: x in r <==> x in fl && x != h
  {
    if fl == [] then [] else if fl[0] == h then Unlist(fl[1..], h) else [fl[0]] + Unlist(fl[1..], h)
  }

  /** No handle occurs twice. */
  predicate Distinct(fl: seq<nat>)
  {
    forall i, j :: 0 <= i < j < |fl| ==> fl[i] != fl[j]
  }

  /**
   * What holds of each carved buffer `h`: it sits in its own slot with a
   * whole block of data, it is hashed under its identity, it is on the free
   * list exactly when unreferenced, unreferenced buffers are clean (`brelse`
   * writes a dirty buffer back before it can be recycled), only valid
   * buffers are dirty, and a valid clean buffer holds what the disk holds.
   */
  predicate SlotOk(c: Cache, h: nat)
    requires h < |c.bufs|
  {
    var b := c.bufs[h];
    && b.data == DataAddr(h) && |b.bytes| == BLOCK_SIZE
    && b.id in c.hashed && c.hashed[b.id] == h
    && b.count >= 0 && (h in c.freeList <==> b.count == 0)
    && (b.count == 0 ==> !b.dirty)
    && (b.dirty ==> b.valid)
    && (b.valid && !b.dirty ==> b.bytes == Stored(c.disk, b.id))
  }

  /**
   * The cache is well formed: every carved buffer is, the last one was
   * carvable, only carved buffers are hashed, the free list has no
   * repetitions, and disk blocks are whole.
   */
  predicate CacheOk(c: Cache)
  {
    && (|c.bufs| > 0 ==> Carvable(|c.bufs| - 1))
    && (forall h :: 0 <= h < |c.bufs| ==> SlotOk(c, h))
    && (forall id :: id in c.hashed ==> c.hashed[id] < |c.bufs| && c.bufs[c.hashed[id]].id == id)
    && Distinct(c.freeList)
    && (forall x :: x in c.freeList ==> x < |c.bufs|)
    && (forall id :: id in c.disk ==> |c.disk[id]| == BLOCK_SIZE)
  }

  /** What reading block `id` through the cache gives: the bytes of its valid buffer, else the disk's. */
  function Content(c: Cache, id: Ident): seq<byte>
  {
    if id in c.hashed && c.hashed[id] < |c.bufs| && c.bufs[c.hashed[id]].valid then c.bufs[c.hashed[id]].bytes
    else Stored(c.disk, id)
  }

  /** No step changes what any block reads as, nor the disk. */
  ghost predicate Transparent(c: Cache, c': Cache)
  {
    forall id :: Content(c', id) == Content(c, id)
  }

  /** The state `buffer_init` leaves: nothing carved, nothing hashed, nothing free. */
  function Empty(disk: map<Ident, seq<byte>>): (c: Cache)
    requires forall id :: id in disk ==> |disk[id]| == BLOCK_SIZE
    ensures CacheOk(c) && forall id :: Content(c, id) == Stored(disk, id)
  {
    Cache([], [], map[], disk)
  }

  /** `get_from_hash_table`: the handle caching `id`, if any, taken off the free list. */
  function Lookup(c: Cache, id: Ident): (Cache, Option<nat>)
  {
    if id !in c.hashed then (c, None)
    else (c.(freeList := Unlist(c.freeList, c.hashed[id])), Some(c.hashed[id]))
  }

  /** The buffer `get_new_buffer` carves next: slot `n`, no identity, unreferenced, clean and not valid. */
  function FreshBuf(n: nat): Buf
  {
    Buf(DataAddr(n), Ident(EOF, 0), 0, false, false, Zeros(BLOCK_SIZE))
  }

  /** The victim `get_free_buffer` recycles: the tail of the free list. */
  function Victim(c: Cache): (v: nat)
    requires c.freeList != []
    ensures v in c.freeList
  {
    c.freeList[|c.freeList| - 1]
  }


  /** A hit on `id`: its buffer leaves the free list and gains a reference. */
  function Hit(c: Cache, id: Ident): Cache
    requires id in c.hashed && c.hashed[id] < |c.bufs|
  {
    var h := c.hashed[id];
    c.(freeList := Unlist(c.freeList, h), bufs := c.bufs[h := c.bufs[h].(count := c.bufs[h].count + 1)])
  }

  /** A miss served by carving: the new buffer holds `id` with one reference. */
  function Fresh(c: Cache, id: Ident): Cache
  {
    var n := |c.bufs|;
    c.(bufs := c.bufs + [FreshBuf(n).(count := 1, id := id)], hashed := c.hashed[id := n])
  }

  /** A miss served by recycling: the free-list tail is unhashed, invalidated and given `id` with one reference. */
  function Recycle(c: Cache, id: Ident): Cache
    requires c.freeList != [] && Victim(c) < |c.bufs|
  {
    var h := Victim(c);
    var b := c.bufs[h];
    c.(freeList := c.freeList[..|c.freeList| - 1],
       hashed := (c.hashed - {b.id})[id := h],
       bufs := c.bufs[h := b.(valid := false, count := 1, id := id)])
  }

  /**
   * `getblk`: a hit gains a reference; a miss takes a freshly carved buffer,
   * or else the free-list tail. None stands for waiting on an exhausted pool.
   */
  function GetblkStep(c: Cache, id: Ident): (r: (Cache, Option<nat>))
    requires CacheOk(c)
    ensures r.1.Some? ==> r.1.value < |r.0.bufs|
    ensures |c.bufs| <= |r.0.bufs| && r.0.disk == c.disk
  {
    if id in c.hashed then (Hit(c, id), Some(c.hashed[id]))
    else if Carvable(|c.bufs|) then (Fresh(c, id), Some(|c.bufs|))
    else if c.freeList == [] then (c, None)
    else (Recycle(c, id), Some(Victim(c)))
  }

  /** Filling buffer `h` from the disk, leaving it valid and clean. */
  function Fill(c: Cache, h: nat): Cache
    requires h < |c.bufs|
  {
    var b := c.bufs[h];
    c.(bufs := c.bufs[h := b.(bytes := Stored(c.disk, b.id), dirty := false, valid := true)])
  }

  /** `bread`: the buffer of `getblk`, filled from the disk (two sectors from sector `block * 2`) unless valid. */
  function BreadStep(c: Cache, id: Ident): (r: (Cache, Option<nat>))
    requires CacheOk(c)
    ensures r.1.Some? ==> r.1.value < |r.0.bufs|
  {
    var (c1, r) := GetblkStep(c, id);
    if r.None? || c1.bufs[r.value].valid then (c1, r) else (Fill(c1, r.value), r)
  }

  /** `bwrite`: a dirty buffer's bytes go to the disk, leaving it clean and valid. */
  function BwriteStep(c: Cache, h: nat): Cache
    requires h < |c.bufs|
  {
    var b := c.bufs[h];
    if !b.dirty then c
    else c.(disk := c.disk[b.id := b.bytes], bufs := c.bufs[h := b.(dirty := false, valid := true)])
  }

  /** Dropping one reference to `h`, and pushing it on the free list when none remain. */
  function Release(c: Cache, h: nat): Cache
    requires h < |c.bufs|
  {
    var b := c.bufs[h];
    var c1 := c.(bufs := c.bufs[h := b.(count := b.count - 1)]);
    if b.count - 1 == 0 then c1.(freeList := [h] + c1.freeList) else c1
  }

  /** `brelse`: NULL is ignored; otherwise one reference is dropped and a dirty buffer is written. */
  function BrelseStep(c: Cache, r: Option<nat>): Cache
    requires r.Some? ==> r.value < |c.bufs|
  {
    if r.None? then c else BwriteStep(Release(c, r.value), r.value)
  }

  /** A filesystem store into a held buffer's data, which marks it dirty. */
  function ModifyStep(c: Cache, h: nat, bytes: seq<byte>): Cache
    requires h < |c.bufs|
  {
    c.(bufs := c.bufs[h := c.bufs[h].(bytes := bytes, dirty := true)])
  }

  // ---------------------------------------------------------------------
  // Properties of the steps

  /** Removing a handle that is not on the list leaves the list as it is. */
  lemma {:induction false} UnlistAbsent(fl: seq<nat>, h: nat)
    requires h !in fl
    ensures Unlist(fl, h) == fl
  {
    if fl != [] {
      UnlistAbsent(fl[1..], h);
      assert fl == [fl[0]] + fl[1..];
    }
  }

  /** Removing a handle keeps a list without repetitions. */
  lemma {:induction false} UnlistDistinct(fl: seq<nat>, h: nat)
    requires Distinct(fl)
    ensures Distinct(Unlist(fl, h))
  {
    if fl != [] {
      assert Distinct(fl[1..]);
      UnlistDistinct(fl[1..], h);
      var r := Unlist(fl[1..], h);
      if fl[0] != h {
        assert fl[0] !in fl[1..];
        assert fl[0] !in r;
        assert [fl[0]] + r == Unlist(fl, h);
        forall i, j | 0 <= i < j < |[fl[0]] + r|
          ensures ([fl[0]] + r)[i] != ([fl[0]] + r)[j]
        {
          if i > 0 {
            assert ([fl[0]] + r)[i] == r[i - 1];
          }
        }
      }
    }
  }

  /** Dropping the tail of a list without repetitions removes exactly the tail. */
  lemma DropTail(fl: seq<nat>)
    requires Distinct(fl) && fl != []
    ensures var t := fl[..|fl| - 1]; Distinct(t) && forall x :: x in t <==> x in fl && x != fl[|fl| - 1]
  {
    var t := fl[..|fl| - 1];
    forall x | x in fl && x != fl[|fl| - 1]
      ensures x in t
    {
      var i :| 0 <= i < |fl| && fl[i] == x;
      assert t[i] == x;
    }
  }

  /** A buffer whose own fields, free-list membership, hashing and disk block are unchanged stays well formed. */
  lemma SlotFrame(c: Cache, c': Cache, k: nat)
    requires k < |c.bufs| && k < |c'.bufs| && SlotOk(c, k) && c'.bufs[k] == c.bufs[k]
    requires (k in c'.freeList <==> k in c.freeList)
    requires c.bufs[k].id in c'.hashed && c'.hashed[c.bufs[k].id] == k
    requires Stored(c'.disk, c.bufs[k].id) == Stored(c.disk, c.bufs[k].id)
    ensures SlotOk(c', k)
  {
  }

  /** What a block reads as depends only on the hash entry, the valid bytes of its buffer and the disk. */
  lemma ContentFrame(c: Cache, c': Cache, x: Ident)
    requires CacheOk(c) && c'.hashed == c.hashed && c'.disk == c.disk && |c'.bufs| == |c.bufs|
    requires x in c.hashed ==> c'.bufs[c.hashed[x]].valid == c.bufs[c.hashed[x]].valid
                               && c'.bufs[c.hashed[x]].bytes == c.bufs[c.hashed[x]].bytes
    ensures Content(c', x) == Content(c, x)
  {
  }

  /** One hashed buffer per identity: two buffers with the same identity are the same buffer. */
  lemma IdentityUnique(c: Cache, h: nat, k: nat)
    requires CacheOk(c) && h < |c.bufs| && k < |c.bufs| && c.bufs[h].id == c.bufs[k].id
    ensures h == k
  {
    assert SlotOk(c, h) && SlotOk(c, k);
  }

  /** A hit returns the cached handle with one more reference, no longer on the free list. */
  lemma GetblkHit(c: Cache, id: Ident)
    requires CacheOk(c) && id in c.hashed
    ensures var (c', r) := GetblkStep(c, id);
      && r == Some(c.hashed[id]) && |c'.bufs| == |c.bufs|
      && c'.bufs[r.value] == c.bufs[r.value].(count := c.bufs[r.value].count + 1)
      && r.value !in c'.freeList
  {
  }

  /**
   * A miss takes the next carvable slot, else the free-list tail, which is
   * unreferenced and clean as `getblk` asserts; it then holds `id` with one
   * reference and is not valid. Only an exhausted pool gives None.
   */
  lemma GetblkMiss(c: Cache, id: Ident)
    requires CacheOk(c) && id !in c.hashed
    ensures var (c', r) := GetblkStep(c, id);
      && (r.None? <==> !Carvable(|c.bufs|) && c.freeList == [])
      && (r.Some? ==> var h := r.value;
           && (if Carvable(|c.bufs|) then h == |c.bufs| else h == Victim(c) && c.bufs[h].count == 0 && !c.bufs[h].dirty)
           && c'.bufs[h].id == id && c'.bufs[h].count == 1 && !c'.bufs[h].valid && !c'.bufs[h].dirty
           && c'.hashed[id] == h)
  {
    if !Carvable(|c.bufs|) && c.freeList != [] {
      assert SlotOk(c, Victim(c));
    }
  }

  /** A hit keeps the cache well formed and changes no content. */
  lemma HitKeeps(c: Cache, id: Ident)
    requires CacheOk(c) && id in c.hashed
    ensures CacheOk(Hit(c, id)) && Transparent(c, Hit(c, id))
  {
    var h := c.hashed[id];
    var c' := Hit(c, id);
    UnlistDistinct(c.freeList, h);
    forall k | 0 <= k < |c'.bufs|
      ensures SlotOk(c', k)
    {
      assert SlotOk(c, k);
      if k != h {
        SlotFrame(c, c', k);
      }
    }
    forall x
      ensures Content(c', x) == Content(c, x)
    {
      ContentFrame(c, c', x);
    }
  }

  /** Carving a buffer for a missing identity keeps the cache well formed and changes no content. */
  lemma FreshKeeps(c: Cache, id: Ident)
    requires CacheOk(c) && id !in c.hashed && Carvable(|c.bufs|)
    ensures CacheOk(Fresh(c, id)) && Transparent(c, Fresh(c, id))
  {
    var c' := Fresh(c, id);
    var n := |c.bufs|;
    forall k | 0 <= k < |c'.bufs|
      ensures SlotOk(c', k)
    {
      if k < n {
        assert SlotOk(c, k);
        SlotFrame(c, c', k);
      }
    }
    forall x
      ensures Content(c', x) == Content(c, x)
    {
      if x != id && x in c.hashed {
        assert c'.hashed[x] == c.hashed[x] < n;
        assert c'.bufs[c.hashed[x]] == c.bufs[c.hashed[x]];
      }
    }
  }

  /** Recycling keeps every buffer well formed. */
  lemma RecycleSlots(c: Cache, id: Ident)
    requires CacheOk(c) && c.freeList != [] && id !in c.hashed
    ensures forall k :: 0 <= k < |c.bufs| ==> SlotOk(Recycle(c, id), k)
  {
    var c' := Recycle(c, id);
    var h := Victim(c);
    DropTail(c.freeList);
    assert SlotOk(c, h);
    forall k | 0 <= k < |c.bufs|
      ensures SlotOk(c', k)
    {
      if k != h {
        assert SlotOk(c, k);
        SlotFrame(c, c', k);
      }
    }
  }

  /** Recycling keeps the cache well formed. */
  lemma RecycleOk(c: Cache, id: Ident)
    requires CacheOk(c) && c.freeList != [] && id !in c.hashed
    ensures CacheOk(Recycle(c, id))
  {
    var c' := Recycle(c, id);
    var h := Victim(c);
    DropTail(c.freeList);
    RecycleSlots(c, id);
    forall x | x in c'.hashed
      ensures c'.hashed[x] < |c'.bufs| && c'.bufs[c'.hashed[x]].id == x
    {
      if x != id {
        assert c'.bufs[c.hashed[x]] == c.bufs[c.hashed[x]];
      }
    }
  }

  /** Recycling changes no content: the victim was clean, so its old block reads the same from the disk. */
  lemma RecycleContent(c: Cache, id: Ident)
    requires CacheOk(c) && c.freeList != [] && id !in c.hashed
    ensures Transparent(c, Recycle(c, id))
  {
    var c' := Recycle(c, id);
    var h := Victim(c);
    var b := c.bufs[h];
    assert SlotOk(c, h);
    forall x
      ensures Content(c', x) == Content(c, x)
    {
      if x != b.id && x != id && x in c.hashed {
        assert c'.hashed[x] == c.hashed[x];
        assert c'.bufs[c.hashed[x]] == c.bufs[c.hashed[x]];
      }
    }
  }

  /** `getblk` keeps the cache well formed and changes no content. */
  lemma GetblkKeeps(c: Cache, id: Ident)
    requires CacheOk(c)
    ensures CacheOk(GetblkStep(c, id).0) && Transparent(c, GetblkStep(c, id).0)
  {
    if id in c.hashed {
      HitKeeps(c, id);
    } else if Carvable(|c.bufs|) {
      FreshKeeps(c, id);
    } else if c.freeList != [] {
      RecycleOk(c, id);
      RecycleContent(c, id);
    }
  }

  /** Filling a buffer that is not valid keeps the cache well formed and changes no content. */
  lemma FillKeeps(c: Cache, h: nat)
    requires CacheOk(c) && h < |c.bufs| && !c.bufs[h].valid
    ensures CacheOk(Fill(c, h)) && Transparent(c, Fill(c, h))
    ensures Fill(c, h).bufs[h].bytes == Content(c, c.bufs[h].id)
  {
    var c' := Fill(c, h);
    assert SlotOk(c, h);
    forall k | 0 <= k < |c'.bufs|
      ensures SlotOk(c', k)
    {
      if k != h {
        assert SlotOk(c, k);
        SlotFrame(c, c', k);
      }
    }
    forall x
      ensures Content(c', x) == Content(c, x)
    {
      if x != c.bufs[h].id {
        ContentFrame(c, c', x);
      }
    }
  }

  /**
   * `bread` keeps the cache well formed and changes no content, and the
   * buffer it returns is valid, held, caches `id` and holds what `id` reads as.
   */
  lemma BreadKeeps(c: Cache, id: Ident)
    requires CacheOk(c)
    ensures var (c', r) := BreadStep(c, id);
      && CacheOk(c') && Transparent(c, c')
      && (r.Some? ==> c'.bufs[r.value].id == id && c'.bufs[r.value].valid && c'.bufs[r.value].count > 0
                      && c'.bufs[r.value].bytes == Content(c, id))
      && (r.None? <==> id !in c.hashed && !Carvable(|c.bufs|) && c.freeList == [])
  {
    var (c1, r) := GetblkStep(c, id);
    GetblkKeeps(c, id);
    if id in c.hashed {
      GetblkHit(c, id);
    } else {
      GetblkMiss(c, id);
    }
    if r.Some? {
      assert SlotOk(c1, r.value);
    }
    if r.Some? && !c1.bufs[r.value].valid {
      assert BreadStep(c, id) == (Fill(c1, r.value), r);
      FillKeeps(c1, r.value);
    } else {
      assert BreadStep(c, id) == (c1, r);
    }
  }

  /**
   * `brelse` keeps the cache well formed and changes no content; the buffer
   * loses a reference, is clean afterwards (write-through) and joins the
   * free list when it has none left.
   */
  lemma BrelseKeeps(c: Cache, r: Option<nat>)
    requires CacheOk(c) && (r.Some? ==> r.value < |c.bufs| && c.bufs[r.value].count > 0)
    ensures var c' := BrelseStep(c, r);
      && CacheOk(c') && Transparent(c, c')
      && (r.Some? ==> var h := r.value;
           && c'.bufs[h].count == c.bufs[h].count - 1 && !c'.bufs[h].dirty
           && c'.freeList == if c'.bufs[h].count == 0 then [h] + c.freeList else c.freeList)
  {
    if r.Some? {
      var h := r.value;
      BrelseSlots(c, h);
      BrelseContent(c, h);
    }
  }

  /** Releasing `h` keeps every buffer and the free list well formed. */
  lemma BrelseSlots(c: Cache, h: nat)
    requires CacheOk(c) && h < |c.bufs| && c.bufs[h].count > 0
    ensures var c' := BrelseStep(c, Some(h));
      && CacheOk(c') && c'.bufs[h].count == c.bufs[h].count - 1 && !c'.bufs[h].dirty
      && c'.freeList == if c'.bufs[h].count == 0 then [h] + c.freeList else c.freeList
  {
    var c' := BrelseStep(c, Some(h));
    var b := c.bufs[h];
    assert SlotOk(c, h);
    assert h !in c.freeList;
    forall k | 0 <= k < |c'.bufs|
      ensures SlotOk(c', k)
    {
      if k != h {
        assert SlotOk(c, k);
        assert c.bufs[k].id != b.id;
        SlotFrame(c, c', k);
      }
    }
    if c'.bufs[h].count == 0 {
      forall i, j | 0 <= i < j < |c'.freeList|
        ensures c'.freeList[i] != c'.freeList[j]
      {
        assert c'.freeList[j] == c.freeList[j - 1];
        if i > 0 {
          assert c'.freeList[i] == c.freeList[i - 1];
        }
      }
    }
  }

  /** Releasing `h` changes no content: a dirty buffer's bytes move to the disk, where its block then reads them. */
  lemma BrelseContent(c: Cache, h: nat)
    requires CacheOk(c) && h < |c.bufs| && c.bufs[h].count > 0
    ensures Transparent(c, BrelseStep(c, Some(h)))
  {
    var c' := BrelseStep(c, Some(h));
    var b := c.bufs[h];
    assert SlotOk(c, h);
    forall x
      ensures Content(c', x) == Content(c, x)
    {
      if x != b.id && x in c.hashed {
        assert c'.bufs[c.hashed[x]] == c.bufs[c.hashed[x]];
      }
    }
  }

  /** `bwrite` of a held buffer keeps the cache well formed and changes no content; a dirty buffer's bytes reach the disk. */
  lemma BwriteKeeps(c: Cache, h: nat)
    requires CacheOk(c) && h < |c.bufs| && c.bufs[h].count > 0
    ensures var c' := BwriteStep(c, h);
      && CacheOk(c') && Transparent(c, c') && !c'.bufs[h].dirty && c'.bufs[h].count == c.bufs[h].count
      && (c.bufs[h].dirty ==> c'.bufs[h].valid && Stored(c'.disk, c.bufs[h].id) == c.bufs[h].bytes)
  {
    var c' := BwriteStep(c, h);
    var b := c.bufs[h];
    assert SlotOk(c, h);
    forall k | 0 <= k < |c'.bufs|
      ensures SlotOk(c', k)
    {
      if k != h {
        assert SlotOk(c, k);
        assert c.bufs[k].id != b.id;
        SlotFrame(c, c', k);
      }
    }
    forall x
      ensures Content(c', x) == Content(c, x)
    {
      if x != b.id && x in c.hashed {
        assert c'.bufs[c.hashed[x]] == c.bufs[c.hashed[x]];
      }
    }
  }

  /** A store into a held valid buffer changes exactly the content of its block. */
  lemma ModifyKeeps(c: Cache, h: nat, bytes: seq<byte>)
    requires CacheOk(c) && h < |c.bufs| && c.bufs[h].count > 0 && c.bufs[h].valid && |bytes| == BLOCK_SIZE
    ensures var c' := ModifyStep(c, h, bytes);
      && CacheOk(c') && c'.disk == c.disk
      && forall x :: Content(c', x) == if x == c.bufs[h].id then bytes else Content(c, x)
  {
    var c' := ModifyStep(c, h, bytes);
    assert SlotOk(c, h);
    forall k | 0 <= k < |c'.bufs|
      ensures SlotOk(c', k)
    {
      if k != h {
        assert SlotOk(c, k);
        SlotFrame(c, c', k);
      }
    }
    forall x
      ensures Content(c', x) == if x == c.bufs[h].id then bytes else Content(c, x)
    {
      if x != c.bufs[h].id {
        ContentFrame(c, c', x);
      }
    }
  }

  /** The cache of `buffer.c`: the carving pointers and the state `Cache` abstracts. */
  class BufferCache {
    var bufs: seq<Buf>
    var freeList: seq<nat>
    var hashed: map<Ident, nat>
    var disk: map<Ident, seq<byte>>
    /** `buffer_ptr` and `buffer_data`: where the next header and data slot go. */
    var headerPtr: nat
    var dataPtr: int

    function State(): Cache
      reads this
    {
      Cache(bufs, freeList, hashed, disk)
    }

    ghost predicate Valid()
      reads this
    {
      CacheOk(State()) && headerPtr == HeaderAddr(|bufs|) && dataPtr == DataAddr(|bufs|)
    }

    /** `buffer_init`, with the pointers at their initial values and the disk as given. */
    constructor Init(d: map<Ident, seq<byte>>)
      requires forall id :: id in d ==> |d[id]| == BLOCK_SIZE
      ensures Valid() && State() == Empty(d)
    {
      bufs := [];
      freeList := [];
      hashed := map[];
      disk := d;
      headerPtr := BUFFER_MEM;
      dataPtr := BUFFER_MEM + BUFFER_SIZE - BLOCK_SIZE;
    }

    /** `get_from_hash_table`: the handle caching `id`, taken off the free list when it is there. */
    method GetFromHashTable(id: Ident) returns (r: Option<nat>)
      requires Valid()
      modifies this
      ensures (State(), r) == Lookup(old(State()), id)
      ensures headerPtr == old(headerPtr) && dataPtr == old(dataPtr)
    {
      if id !in hashed {
        return None;
      }
      var h := hashed[id];
      if h in freeList {
        freeList := Unlist(freeList, h);
      } else {
        UnlistAbsent(freeList, h);
      }
      r := Some(h);
    }

    /** `get_new_buffer`: carves the next buffer while its header ends below the data pointer. */
    method GetNewBuffer() returns (r: Option<nat>)
      requires headerPtr == HeaderAddr(|bufs|) && dataPtr == DataAddr(|bufs|)
      modifies this
      ensures headerPtr == HeaderAddr(|bufs|) && dataPtr == DataAddr(|bufs|)
      ensures r.None? ==> !Carvable(|old(bufs)|) && bufs == old(bufs)
      ensures r.Some? ==> Carvable(|old(bufs)|) && r.value == |old(bufs)| && bufs == old(bufs) + [FreshBuf(r.value)]
      ensures freeList == old(freeList) && hashed == old(hashed) && disk == old(disk)
    {
      if headerPtr + HEADER_SIZE < dataPtr {
        r := Some(|bufs|);
        bufs := bufs + [Buf(dataPtr, Ident(EOF, 0), 0, false, false, Zeros(BLOCK_SIZE))];
        headerPtr := headerPtr + HEADER_SIZE;
        dataPtr := dataPtr - BLOCK_SIZE;
      } else {
        r := None;
      }
    }

    /** `get_free_buffer` and the identity `getblk` gives a missed block. */
    method Miss(id: Ident) returns (r: Option<nat>)
      requires Valid() && id !in hashed
      modifies this
      ensures (State(), r) == GetblkStep(old(State()), id)
      ensures headerPtr == HeaderAddr(|bufs|) && dataPtr == DataAddr(|bufs|)
    {
      ghost var c := State();
      r := GetNewBuffer();
      if r.Some? {
        var h := r.value;
        bufs := bufs[h := bufs[h].(count := 1, id := id)];
        hashed := hashed[id := h];
        assert State() == Fresh(c, id);
        return;
      }
      if freeList == [] {
        return;
      }
      var h := freeList[|freeList| - 1];
      assert h == Victim(c) && h < |bufs|;
      freeList := freeList[..|freeList| - 1];
      hashed := hashed - {bufs[h].id};
      bufs := bufs[h := bufs[h].(valid := false)];
      bufs := bufs[h := bufs[h].(count := 1, id := id)];
      hashed := hashed[id := h];
      r := Some(h);
      assert State() == Recycle(c, id);
    }

    /** `getblk`: the buffer caching `id`, with one more reference. */
    method Getblk(id: Ident) returns (r: Option<nat>)
      requires Valid()
      modifies this
      ensures Valid() && (State(), r) == GetblkStep(old(State()), id)
    {
      ghost var c := State();
      GetblkKeeps(c, id);
      if id in hashed {
        r := GetFromHashTable(id);
        var h := r.value;
        bufs := bufs[h := bufs[h].(count := bufs[h].count + 1)];
        assert State() == Hit(c, id);
      } else {
        r := Miss(id);
      }
    }

    /** `bread`: the buffer of `getblk`, read from the disk (two sectors from sector `block * 2`) unless valid. */
    method Bread(id: Ident) returns (r: Option<nat>)
      requires Valid()
      modifies this
      ensures Valid() && (State(), r) == BreadStep(old(State()), id)
    {
      ghost var c := State();
      BreadKeeps(c, id);
      r := Getblk(id);
      if r.None? || bufs[r.value].valid {
        return;
      }
      var h := r.value;
      ghost var c1 := State();
      bufs := bufs[h := bufs[h].(bytes := Stored(disk, bufs[h].id), dirty := false, valid := true)];
      assert State() == Fill(c1, h);
    }

    /** `bwrite`: writes a dirty buffer to the disk. */
    method Bwrite(h: nat)
      requires Valid() && h < |bufs|
      modifies this
      ensures Valid() && State() == BwriteStep(old(State()), h)
    {
      if !bufs[h].dirty {
        return;
      }
      assert SlotOk(State(), h);
      BwriteKeeps(State(), h);
      disk := disk[bufs[h].id := bufs[h].bytes];
      bufs := bufs[h := bufs[h].(dirty := false, valid := true)];
    }

    /** `brelse`: drops one reference, frees an unreferenced buffer and writes a dirty one. */
    method Brelse(r: Option<nat>)
      requires Valid() && (r.Some? ==> r.value < |bufs| && bufs[r.value].count > 0)
      modifies this
      ensures Valid() && State() == BrelseStep(old(State()), r)
    {
      ghost var c := State();
      BrelseKeeps(c, r);
      if r.None? {
        return;
      }
      var h := r.value;
      bufs := bufs[h := bufs[h].(count := bufs[h].count - 1)];
      if bufs[h].count == 0 {
        freeList := [h] + freeList;
      }
      ghost var c1 := State();
      assert c1 == Release(c, h);
      if bufs[h].dirty {
        disk := disk[bufs[h].id := bufs[h].bytes];
        bufs := bufs[h := bufs[h].(dirty := false, valid := true)];
      }
      assert State() == BwriteStep(c1, h);
    }

    /** A filesystem store into a held valid buffer. */
    method Modify(h: nat, bytes: seq<byte>)
      requires Valid() && h < |bufs| && bufs[h].count > 0 && bufs[h].valid && |bytes| == BLOCK_SIZE
      modifies this
      ensures Valid() && State() == ModifyStep(old(State()), h, bytes)
    {
      ModifyKeeps(State(), h, bytes);
      bufs := bufs[h := bufs[h].(bytes := bytes, dirty := true)];
    }
  }
}
