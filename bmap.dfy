/**
 * Zone and inode allocation over the on-disk bitmaps, and the logical to
 * physical block mapping of an inode (`bmap.c`).
 *
 * A mounted device's zone map covers zone numbers from
 * `firstdatazone - 1` on, 8192 per map block; its inode map covers inode
 * numbers from 0 on. `Used` reads the bit of one number, so the allocators'
 * contracts say which number was taken or released and that no other
 * number's bit changed.
 */
module Bmap {
  import opened Base
  import Buffer
  import Bitmap
  import opened FsLayout
  import opened FsState
  import Super

  /** The map blocks are distinct (consecutive block numbers are). */
  predicate Distinct(maps: seq<nat>)
  {
    forall i, j :: 0 <= i < j < |maps| ==> maps[i] != maps[j]
  }

  /** Number `n` has a bit in the maps whose bit 0 is number `bias`. */
  predicate InMap(maps: seq<nat>, bias: int, n: int)
  {
    bias <= n < bias + BLOCK_BITS * |maps|
  }

  /** The block numbers listed in `maps`. */
  function MapSet(maps: seq<nat>): (r: set<nat>)
    ensures forall b :: b in r <==> b in maps
  {
    set b | b in maps
  }

  /** The map block holding number `n`, and the bit inside it. */
  function MapOf(bias: int, n: int): nat
    requires bias <= n
  {
    (n - bias) / BLOCK_BITS
  }

  function BitOf(bias: int, n: int): (t: nat)
    requires bias <= n
    ensures t < BLOCK_BITS
  {
    (n - bias) % BLOCK_BITS
  }

  lemma MapOfBound(maps: seq<nat>, bias: int, n: int)
    requires InMap(maps, bias, n)
    ensures MapOf(bias, n) < |maps|
  {
    var q := MapOf(bias, n);
    assert BLOCK_BITS * q <= n - bias < BLOCK_BITS * |maps|;
  }

  /** Number `bias + i*8192 + t` is bit `t` of map block `i`. */
  lemma Locate(maps: seq<nat>, bias: int, i: nat, t: nat)
    requires i < |maps| && t < BLOCK_BITS
    ensures InMap(maps, bias, bias + BLOCK_BITS * i + t)
    ensures MapOf(bias, bias + BLOCK_BITS * i + t) == i && BitOf(bias, bias + BLOCK_BITS * i + t) == t
  {
    assert BLOCK_BITS * i + t < BLOCK_BITS * |maps| by {
      assert BLOCK_BITS * (|maps| - i) >= BLOCK_BITS;
    }
  }

  /** Every number is bit `BitOf` of map block `MapOf`. */
  lemma Split(bias: int, n: int)
    requires bias <= n
    ensures n == bias + BLOCK_BITS * MapOf(bias, n) + BitOf(bias, n)
  {
  }

  /** The bit of number `n`: set means in use. */
  predicate Used(blocks: map<Buffer.Ident, seq<byte>>, dev: int, maps: seq<nat>, bias: int, n: int)
    requires InMap(maps, bias, n)
  {
    MapOfBound(maps, bias, n);
    Bitmap.Bit(Block(blocks, dev, maps[MapOf(bias, n)]), BitOf(bias, n))
  }

  /** Every number of the maps below `n` is in use. */
  ghost predicate UsedBelow(blocks: map<Buffer.Ident, seq<byte>>, dev: int, maps: seq<nat>, bias: int, n: int)
  {
    forall m :: InMap(maps, bias, m) && m < n ==> Used(blocks, dev, maps, bias, m)
  }

  /** `n` is the lowest free number of the maps. */
  ghost predicate FirstFree(blocks: map<Buffer.Ident, seq<byte>>, dev: int, maps: seq<nat>, bias: int, n: int)
  {
    InMap(maps, bias, n) && !Used(blocks, dev, maps, bias, n) && UsedBelow(blocks, dev, maps, bias, n)
  }

  /** Every number of the maps is in use. */
  ghost predicate Full(blocks: map<Buffer.Ident, seq<byte>>, dev: int, maps: seq<nat>, bias: int)
  {
    forall m :: InMap(maps, bias, m) ==> Used(blocks, dev, maps, bias, m)
  }

  /** There is at most one lowest free number. */
  lemma FirstFreeUnique(blocks: map<Buffer.Ident, seq<byte>>, dev: int, maps: seq<nat>, bias: int, n: int, n': int)
    requires FirstFree(blocks, dev, maps, bias, n) && FirstFree(blocks, dev, maps, bias, n')
    ensures n == n'
  {
  }

  /**
   * `after` differs from `before` only in the bit of `n`, which is `v`, and
   * only the map blocks may have changed.
   */
  ghost predicate OnlyBit(before: map<Buffer.Ident, seq<byte>>, after: map<Buffer.Ident, seq<byte>>, dev: int,
                    maps: seq<nat>, bias: int, n: int, v: bool)
  {
    InMap(maps, bias, n) && Used(after, dev, maps, bias, n) == v
    && (forall m :: InMap(maps, bias, m) && m != n ==> Used(after, dev, maps, bias, m) == Used(before, dev, maps, bias, m))
    && (forall d, b: nat :: (d != dev || b !in maps) ==> Block(after, d, b) == Block(before, d, b))
  }

  /**
   * The outcome of an allocation scan over `maps` with at most `NR` map
   * blocks and numbers below `limit`: it halts when it runs into an absent
   * map block before finding a free bit, or when the lowest free number is
   * out of range; it returns `EOF` with nothing changed when all 8 maps are
   * full; otherwise it returns the lowest free number and marks it used.
   */
  ghost predicate Allocated(before: map<Buffer.Ident, seq<byte>>, after: map<Buffer.Ident, seq<byte>>, halted: bool,
                      dev: int, maps: seq<nat>, bias: int, limit: nat, bit: int)
  {
    (halted <==> (Full(before, dev, maps, bias) && |maps| < ZMAP_NR)
                 || (exists n :: FirstFree(before, dev, maps, bias, n) && n >= limit))
    && (!halted && bit == EOF ==> Full(before, dev, maps, bias) && after == before)
    && (!halted && bit != EOF ==>
          FirstFree(before, dev, maps, bias, bit) && bit < limit && OnlyBit(before, after, dev, maps, bias, bit, true))
  }

  /** A map block with no one-bit window free has every bit set. */
  lemma ScanNoneFull(b: seq<byte>)
    requires Bitmap.ScanStart(b, 1).None?
    ensures forall t :: 0 <= t < Bitmap.Size(b) ==> Bitmap.Bit(b, t)
  {
    Bitmap.ScanIsFirstFit(b, 1);
    forall t | 0 <= t < Bitmap.Size(b)
      ensures Bitmap.Bit(b, t)
    {
      if !Bitmap.Bit(b, t) {
        assert Bitmap.RunFree(b, t, 1);
      }
    }
  }

  /** The bit a one-bit scan finds is clear and every bit before it set. */
  lemma ScanSomeFirst(b: seq<byte>)
    requires Bitmap.ScanStart(b, 1).Some?
    ensures var s := Bitmap.ScanStart(b, 1).value;
      s < Bitmap.Size(b) && !Bitmap.Bit(b, s) && forall t :: 0 <= t < s ==> Bitmap.Bit(b, t)
  {
    Bitmap.ScanIsFirstFit(b, 1);
    var s := Bitmap.ScanStart(b, 1).value;
    forall t | 0 <= t < s
      ensures Bitmap.Bit(b, t)
    {
      if !Bitmap.Bit(b, t) {
        assert Bitmap.RunFree(b, t, 1);
      }
    }
  }

  /** The numbers of map blocks before `i` are all in use. */
  ghost predicate FullBefore(blocks: map<Buffer.Ident, seq<byte>>, dev: int, maps: seq<nat>, bias: int, i: nat)
  {
    forall m :: InMap(maps, bias, m) && m < bias + BLOCK_BITS * i ==> Used(blocks, dev, maps, bias, m)
  }

  /** A full map block `i` extends the run of full map blocks. */
  lemma FullBeforeStep(blocks: map<Buffer.Ident, seq<byte>>, dev: int, maps: seq<nat>, bias: int, i: nat)
    requires i < |maps| && FullBefore(blocks, dev, maps, bias, i)
    requires forall t :: 0 <= t < BLOCK_BITS ==> Bitmap.Bit(Block(blocks, dev, maps[i]), t)
    ensures FullBefore(blocks, dev, maps, bias, i + 1)
  {
    forall m | InMap(maps, bias, m) && m < bias + BLOCK_BITS * (i + 1)
      ensures Used(blocks, dev, maps, bias, m)
    {
      if m >= bias + BLOCK_BITS * i {
        Locate(maps, bias, i, m - bias - BLOCK_BITS * i);
      }
    }
  }

  /** All map blocks full means every number is in use. */
  lemma FullBeforeAll(blocks: map<Buffer.Ident, seq<byte>>, dev: int, maps: seq<nat>, bias: int)
    requires FullBefore(blocks, dev, maps, bias, |maps|)
    ensures Full(blocks, dev, maps, bias)
  {
  }

  /** Setting bit `s` of map block `i` marks number `bias + 8192*i + s` and nothing else. */
  lemma MarkOne(before: map<Buffer.Ident, seq<byte>>, dev: int, maps: seq<nat>, bias: int, i: nat, s: nat, v: bool)
    requires i < |maps| && Distinct(maps) && s < BLOCK_BITS
    ensures var b := Block(before, dev, maps[i]);
      OnlyBit(before, PutBlock(before, dev, maps[i], Bitmap.Put(b, s, v)), dev, maps, bias, bias + BLOCK_BITS * i + s, v)
  {
    var b := Block(before, dev, maps[i]);
    var after := PutBlock(before, dev, maps[i], Bitmap.Put(b, s, v));
    var n := bias + BLOCK_BITS * i + s;
    Locate(maps, bias, i, s);
    Bitmap.PutSpec(b, s, v);
    forall m | InMap(maps, bias, m) && m != n
      ensures Used(after, dev, maps, bias, m) == Used(before, dev, maps, bias, m)
    {
      MapOfBound(maps, bias, m);
      Split(bias, m);
    }
  }

  /** Running into an absent map block with every earlier one full halts. */
  lemma AllocAbsent(before: map<Buffer.Ident, seq<byte>>, after: map<Buffer.Ident, seq<byte>>, dev: int,
                    maps: seq<nat>, bias: int, limit: nat)
    requires |maps| < ZMAP_NR && FullBefore(before, dev, maps, bias, |maps|)
    ensures Allocated(before, after, true, dev, maps, bias, limit, EOF)
  {
    FullBeforeAll(before, dev, maps, bias);
  }

  /** With all 8 map blocks full the scan returns `EOF` and changes nothing. */
  lemma AllocNone(before: map<Buffer.Ident, seq<byte>>, dev: int, maps: seq<nat>, bias: int, limit: nat)
    requires |maps| == ZMAP_NR && FullBefore(before, dev, maps, bias, |maps|)
    ensures Allocated(before, before, false, dev, maps, bias, limit, EOF)
  {
    FullBeforeAll(before, dev, maps, bias);
    forall n | FirstFree(before, dev, maps, bias, n)
      ensures false
    {
    }
  }

  /** Finding bit `s` of map block `i` after full blocks allocates number `bias + 8192*i + s`. */
  lemma AllocHit(before: map<Buffer.Ident, seq<byte>>, after: map<Buffer.Ident, seq<byte>>, halted: bool,
                 dev: int, maps: seq<nat>, bias: int, limit: nat, i: nat, s: nat, bit: int)
    requires bias >= 0 && i < |maps| && Distinct(maps) && FullBefore(before, dev, maps, bias, i)
    requires Bitmap.ScanStart(Block(before, dev, maps[i]), 1) == Some(s)
    requires after == PutBlock(before, dev, maps[i], Bitmap.Fill(Block(before, dev, maps[i]), s, 1))
    requires bit == bias + BLOCK_BITS * i + s && halted == (bit >= limit)
    ensures Allocated(before, after, halted, dev, maps, bias, limit, bit)
  {
    var b := Block(before, dev, maps[i]);
    ScanSomeFirst(b);
    AllocFound(before, dev, maps, bias, i, s);
    MarkOne(before, dev, maps, bias, i, s, true);
    if bit >= limit {
      assert FirstFree(before, dev, maps, bias, bit);
    }
  }

  /**
   * The allocation loop of `balloc` and `ialloc`, on block contents: scan
   * map blocks 0..7 in order with a one-bit `bitmap_scan`, halting at an
   * absent block; the first number found must lie below `limit`.
   */
  method ScanMaps(blocks: map<Buffer.Ident, seq<byte>>, dev: int, maps: seq<nat>, bias: int, limit: nat)
    returns (after: map<Buffer.Ident, seq<byte>>, halted: bool, bit: int)
    requires bias >= -1 && |maps| <= ZMAP_NR && Distinct(maps)
    ensures bias >= 0 ==> Allocated(blocks, after, halted, dev, maps, bias, limit, bit)
    ensures Untouched(blocks, after, dev, MapSet(maps))
  {
    after := blocks;
    var i := 0;
    while i < ZMAP_NR
      invariant i <= ZMAP_NR
      invariant Untouched(blocks, after, dev, MapSet(maps))
      invariant bias >= 0 ==> after == blocks && i <= |maps| && FullBefore(blocks, dev, maps, bias, i)
    {
      if i >= |maps| {
        halted, bit := true, EOF;
        if bias >= 0 {
          AllocAbsent(blocks, after, dev, maps, bias, limit);
        }
        return;
      }
      var b := Block(after, dev, maps[i]);
      var s := Bitmap.ScanStart(b, 1);
      if s.Some? {
        ScanSomeFirst(b);
        var next := PutBlock(after, dev, maps[i], Bitmap.Fill(b, s.value, 1));
        var raw := bias + BLOCK_BITS * i + s.value;
        if raw != EOF {
          if bias >= 0 {
            AllocHit(blocks, next, raw >= limit, dev, maps, bias, limit, i, s.value, raw);
          }
          return next, raw >= limit, raw;
        }
        after := next;
      } else if bias >= 0 {
        ScanNoneFull(b);
        FullBeforeStep(blocks, dev, maps, bias, i);
      }
      i := i + 1;
    }
    halted, bit := false, EOF;
    if bias >= 0 {
      AllocNone(blocks, dev, maps, bias, limit);
    }
  }

  /** The blocks and the halt flag a step computed, stored; nothing else changes. */
  method Commit(fs: FileSystem, blocks: map<Buffer.Ident, seq<byte>>, halted: bool)
    requires fs.Valid()
    modifies fs
    ensures fs.Valid() && fs.blocks == blocks && fs.halted == halted
    ensures fs.supers == old(fs.supers) && fs.inodes == old(fs.inodes) && fs.files == old(fs.files) && fs.task == old(fs.task)
  {
    fs.blocks, fs.halted := blocks, halted;
  }

  /** `ScanMaps` on the filesystem's blocks; only the blocks and the halt flag change. */
  method AllocBit(fs: FileSystem, dev: int, maps: seq<nat>, bias: int, limit: nat) returns (bit: int)
    requires fs.Valid() && !fs.halted
    requires bias >= -1 && |maps| <= ZMAP_NR && Distinct(maps)
    modifies fs
    ensures fs.Valid()
    ensures fs.supers == old(fs.supers) && fs.inodes == old(fs.inodes) && fs.files == old(fs.files) && fs.task == old(fs.task)
    ensures bias >= 0 ==> Allocated(old(fs.blocks), fs.blocks, fs.halted, dev, maps, bias, limit, bit)
    ensures Untouched(old(fs.blocks), fs.blocks, dev, MapSet(maps))
  {
    var after, halted;
    after, halted, bit := ScanMaps(fs.blocks, dev, maps, bias, limit);
    Commit(fs, after, halted);
  }

  /** The number the scan of map block `i` finds is the lowest free one, and filling it is setting it. */
  lemma AllocFound(before: map<Buffer.Ident, seq<byte>>, dev: int, maps: seq<nat>, bias: int, i: nat, s: nat)
    requires i < |maps| && FullBefore(before, dev, maps, bias, i) && s < BLOCK_BITS
    requires var b := Block(before, dev, maps[i]);
      !Bitmap.Bit(b, s) && forall t :: 0 <= t < s ==> Bitmap.Bit(b, t)
    ensures FirstFree(before, dev, maps, bias, bias + BLOCK_BITS * i + s)
    ensures forall n :: FirstFree(before, dev, maps, bias, n) ==> n == bias + BLOCK_BITS * i + s
    ensures !Full(before, dev, maps, bias)
    ensures var b := Block(before, dev, maps[i]); Bitmap.Fill(b, s, 1) == Bitmap.Put(b, s, true)
  {
    var n := bias + BLOCK_BITS * i + s;
    Locate(maps, bias, i, s);
    forall m | InMap(maps, bias, m) && m < n
      ensures Used(before, dev, maps, bias, m)
    {
      if m >= bias + BLOCK_BITS * i {
        Locate(maps, bias, i, m - bias - BLOCK_BITS * i);
      }
    }
    forall n' | FirstFree(before, dev, maps, bias, n')
      ensures n' == n
    {
      FirstFreeUnique(before, dev, maps, bias, n, n');
    }
  }

  /** Consecutive block numbers are distinct. */
  lemma RunDistinct(first: nat, n: nat)
    ensures Distinct(Run(first, n))
  {
  }

  /** The zone-map blocks of the mounted `dev`, or none when it is not mounted. */
  function ZoneMaps(supers: seq<SuperSlot>, dev: int): seq<nat>
  {
    match FindSuper(supers, dev)
    case None => []
    case Some(k) => supers[k].zoneMap
  }

  /** The inode-map blocks of the mounted `dev`, or none when it is not mounted. */
  function InodeMaps(supers: seq<SuperSlot>, dev: int): seq<nat>
  {
    match FindSuper(supers, dev)
    case None => []
    case Some(k) => supers[k].inodeMap
  }

  /** A mounted device has at most 8 zone-map blocks. */
  lemma ZoneMapsFew(supers: seq<SuperSlot>, dev: int)
    requires |supers| == SUPER_NR && forall i :: 0 <= i < SUPER_NR ==> SuperSlotOk(supers[i])
    ensures |ZoneMaps(supers, dev)| <= ZMAP_NR
  {
    if FindSuper(supers, dev).Some? {
      assert SuperSlotOk(supers[FindSuper(supers, dev).value]);
    }
  }

  /** The map blocks of a mounted device are at most 8 distinct blocks of each kind. */
  lemma MapsDistinct(supers: seq<SuperSlot>, dev: int)
    requires |supers| == SUPER_NR && forall i :: 0 <= i < SUPER_NR ==> SuperSlotOk(supers[i])
    ensures |ZoneMaps(supers, dev)| <= ZMAP_NR && Distinct(ZoneMaps(supers, dev))
    ensures |InodeMaps(supers, dev)| <= IMAP_NR && Distinct(InodeMaps(supers, dev))
  {
    if FindSuper(supers, dev).Some? {
      var s := supers[FindSuper(supers, dev).value];
      assert SuperSlotOk(s);
      RunDistinct(2, |s.inodeMap|);
      RunDistinct(2 + |s.inodeMap|, |s.zoneMap|);
    }
  }

  /**
   * `balloc`: the lowest free zone of a mounted device, marked used. Zone
   * map bit 0 stands for zone `firstdatazone - 1`; a zone number at or past
   * `zones` halts.
   */
  method Balloc(fs: FileSystem, dev: int) returns (bit: int)
    requires fs.Valid() && !fs.halted
    modifies fs
    ensures fs.Valid()
    ensures fs.supers == old(fs.supers) && fs.inodes == old(fs.inodes) && fs.files == old(fs.files) && fs.task == old(fs.task)
    ensures FindSuper(fs.supers, dev).None? ==> fs.halted
    ensures var d := SuperOf(old(fs.blocks), dev);
      FindSuper(fs.supers, dev).Some? && d.firstDataZone >= 1 ==>
      Allocated(old(fs.blocks), fs.blocks, fs.halted, dev, ZoneMaps(fs.supers, dev), d.firstDataZone - 1, d.zones, bit)
    ensures Untouched(old(fs.blocks), fs.blocks, dev, MapSet(ZoneMaps(fs.supers, dev)))
  {
    var sb := Super.GetSuper(fs, dev);
    if sb.None? {
      fs.halted := true;
      return EOF;
    }
    var d := SuperOf(fs.blocks, dev);
    var maps := fs.supers[sb.value].zoneMap;
    assert SuperSlotOk(fs.supers[sb.value]);
    RunDistinct(2 + |fs.supers[sb.value].inodeMap|, |maps|);
    bit := AllocBit(fs, dev, maps, d.firstDataZone - 1, d.zones);
  }

  /**
   * `ialloc` with each inode-map block scanned as the 1024 bytes it holds:
   * the lowest free inode number of a mounted device, marked used; a number
   * at or past `inodes` halts.
   */
  method Ialloc(fs: FileSystem, dev: int) returns (bit: int)
    requires fs.Valid() && !fs.halted
    modifies fs
    ensures fs.Valid()
    ensures fs.supers == old(fs.supers) && fs.inodes == old(fs.inodes) && fs.files == old(fs.files) && fs.task == old(fs.task)
    ensures FindSuper(fs.supers, dev).None? ==> fs.halted
    ensures FindSuper(fs.supers, dev).Some? ==>
      Allocated(old(fs.blocks), fs.blocks, fs.halted, dev, InodeMaps(fs.supers, dev), 0, SuperOf(old(fs.blocks), dev).inodes, bit)
    ensures Untouched(old(fs.blocks), fs.blocks, dev, MapSet(InodeMaps(fs.supers, dev)))
  {
    var sb := Super.GetSuper(fs, dev);
    if sb.None? {
      fs.halted := true;
      return EOF;
    }
    var d := SuperOf(fs.blocks, dev);
    var maps := fs.supers[sb.value].inodeMap;
    assert SuperSlotOk(fs.supers[sb.value]);
    RunDistinct(2, |maps|);
    bit := AllocBit(fs, dev, maps, 0, d.inodes);
  }

  /**
   * The window `ialloc` hands to `bitmap_scan` is `BLOCK_BITS` bytes long,
   * eight times the map block it starts with. When the block is full and
   * the byte after it is zero, the scan returns the number just past the
   * block (inode `8192 * (i + 1)`, unchecked against map block `i + 1`) and
   * sets a bit outside the buffer.
   */
  lemma IallocOverRead(w: seq<byte>)
    requires |w| == BLOCK_BITS && w[Buffer.BLOCK_SIZE] == 0
    requires forall t :: 0 <= t < BLOCK_BITS ==> Bitmap.Bit(w, t)
    ensures Bitmap.ScanStart(w, 1) == Some(BLOCK_BITS)
  {
    Bitmap.ZeroHasNoBit(0);
    assert Bitmap.RunFree(w, BLOCK_BITS, 1);
    Bitmap.ScanIsFirstFit(w, 1);
    var v := Bitmap.ScanStart(w, 1).value;
    assert !Bitmap.Bit(w, v);
  }

  /**
   * The outcome of freeing `idx`: it halts unless `idx` lies below `limit`,
   * has its bit in a present map block, and is in use; otherwise that bit
   * is cleared and no other.
   */
  ghost predicate Released(before: map<Buffer.Ident, seq<byte>>, after: map<Buffer.Ident, seq<byte>>, halted: bool,
                           dev: int, maps: seq<nat>, bias: int, limit: int, idx: int)
  {
    (halted <==> !(idx < limit && InMap(maps, bias, idx) && Used(before, dev, maps, bias, idx)))
    && (!halted ==> OnlyBit(before, after, dev, maps, bias, idx, false))
  }

  /**
   * What freeing `idx` leaves: the blocks with its bit cleared, or the
   * blocks as they were and a halt.
   */
  function Release(blocks: map<Buffer.Ident, seq<byte>>, dev: int, maps: seq<nat>, bias: int, limit: int, idx: int)
    : (r: (map<Buffer.Ident, seq<byte>>, bool))
  {
    if idx < limit && InMap(maps, bias, idx) && Used(blocks, dev, maps, bias, idx) then
      MapOfBound(maps, bias, idx);
      var k := maps[MapOf(bias, idx)];
      (PutBlock(blocks, dev, k, Bitmap.Put(Block(blocks, dev, k), BitOf(bias, idx), false)), false)
    else (blocks, true)
  }

  /** `Release` halts exactly on a number out of range, outside the present maps or not in use, and otherwise clears that number's bit alone. */
  lemma ReleaseSpec(blocks: map<Buffer.Ident, seq<byte>>, dev: int, maps: seq<nat>, bias: int, limit: int, idx: int)
    requires Distinct(maps)
    ensures Released(blocks, Release(blocks, dev, maps, bias, limit, idx).0, Release(blocks, dev, maps, bias, limit, idx).1,
                     dev, maps, bias, limit, idx)
  {
    if idx < limit && InMap(maps, bias, idx) && Used(blocks, dev, maps, bias, idx) {
      MapOfBound(maps, bias, idx);
      Split(bias, idx);
      MarkOne(blocks, dev, maps, bias, MapOf(bias, idx), BitOf(bias, idx), false);
    }
  }

  /** Freeing the number an allocation just took gives every number of the maps its old bit back. */
  lemma ReleaseUndoesAlloc(before: map<Buffer.Ident, seq<byte>>, mid: map<Buffer.Ident, seq<byte>>, dev: int,
                           maps: seq<nat>, bias: int, limit: nat, bit: int)
    requires Distinct(maps) && Allocated(before, mid, false, dev, maps, bias, limit, bit) && bit != EOF
    ensures !Release(mid, dev, maps, bias, limit, bit).1
    ensures forall m :: InMap(maps, bias, m) ==>
      Used(Release(mid, dev, maps, bias, limit, bit).0, dev, maps, bias, m) == Used(before, dev, maps, bias, m)
  {
    ReleaseSpec(mid, dev, maps, bias, limit, bit);
  }

  /**
   * `bfree`/`ifree` on block contents, with the map block chosen by the
   * number's distance from the map's bit 0.
   */
  method ReleaseBit(blocks: map<Buffer.Ident, seq<byte>>, dev: int, maps: seq<nat>, bias: int, limit: int, idx: int)
    returns (after: map<Buffer.Ident, seq<byte>>, halted: bool)
    requires |maps| <= ZMAP_NR
    ensures (after, halted) == Release(blocks, dev, maps, bias, limit, idx)
  {
    after := blocks;
    if idx >= limit {
      return after, true;
    }
    var i := 0;
    while i < ZMAP_NR
      invariant i <= ZMAP_NR
      invariant i > 0 ==> idx >= bias + BLOCK_BITS * i
    {
      if idx >= bias + BLOCK_BITS * (i + 1) {
        i := i + 1;
        continue;
      }
      if i >= |maps| || idx < bias + BLOCK_BITS * i {
        return after, true;
      }
      var t := idx - bias - BLOCK_BITS * i;
      Locate(maps, bias, i, t);
      var b := Block(blocks, dev, maps[i]);
      if !Bitmap.Bit(b, t) {
        return after, true;
      }
      return PutBlock(blocks, dev, maps[i], Bitmap.Put(b, t, false)), false;
    }
    return after, true;
  }

  /** `Release` on the zone maps of `dev`, with the bias and bound its super block gives. */
  function ZoneRelease(blocks: map<Buffer.Ident, seq<byte>>, dev: int, supers: seq<SuperSlot>, idx: int)
    : (r: (map<Buffer.Ident, seq<byte>>, bool))
  {
    Release(blocks, dev, ZoneMaps(supers, dev), SuperOf(blocks, dev).firstDataZone - 1, SuperOf(blocks, dev).zones, idx)
  }

  /** On a device that is not mounted, `bfree` halts and writes nothing. */
  lemma ZoneReleaseUnmounted(blocks: map<Buffer.Ident, seq<byte>>, dev: int, supers: seq<SuperSlot>, idx: int)
    requires FindSuper(supers, dev).None?
    ensures ZoneRelease(blocks, dev, supers, idx) == (blocks, true)
  {
    assert ZoneMaps(supers, dev) == [];
  }

  /** `bfree` of a zone number, as `Released` describes it for the device's zone maps. */
  lemma ZoneReleaseSpec(blocks: map<Buffer.Ident, seq<byte>>, dev: int, supers: seq<SuperSlot>, idx: int)
    requires Distinct(ZoneMaps(supers, dev))
    ensures var r := ZoneRelease(blocks, dev, supers, idx);
      var d := SuperOf(blocks, dev);
      Released(blocks, r.0, r.1, dev, ZoneMaps(supers, dev), d.firstDataZone - 1, d.zones, idx)
  {
    var d := SuperOf(blocks, dev);
    ReleaseSpec(blocks, dev, ZoneMaps(supers, dev), d.firstDataZone - 1, d.zones, idx);
  }

  /** `bfree` with the map block chosen by `MapOf`. */
  method Bfree(fs: FileSystem, dev: int, idx: int)
    requires fs.Valid() && !fs.halted
    modifies fs
    ensures fs.Valid()
    ensures fs.supers == old(fs.supers) && fs.inodes == old(fs.inodes) && fs.files == old(fs.files) && fs.task == old(fs.task)
    ensures FindSuper(fs.supers, dev).None? ==> fs.halted
    ensures (fs.blocks, fs.halted) == ZoneRelease(old(fs.blocks), dev, fs.supers, idx)
  {
    var blocks0 := fs.blocks;
    var sb := Super.GetSuper(fs, dev);
    if sb.None? {
      ZoneReleaseUnmounted(blocks0, dev, fs.supers, idx);
      Commit(fs, blocks0, true);
      return;
    }
    ClearZone(fs, dev, idx);
  }

  /** The bit clearing of `bfree` once the device's super block is found. */
  method ClearZone(fs: FileSystem, dev: int, idx: int)
    requires fs.Valid()
    modifies fs
    ensures fs.Valid()
    ensures fs.supers == old(fs.supers) && fs.inodes == old(fs.inodes) && fs.files == old(fs.files) && fs.task == old(fs.task)
    ensures (fs.blocks, fs.halted) == Release(old(fs.blocks), dev, ZoneMaps(fs.supers, dev),
                                              SuperOf(old(fs.blocks), dev).firstDataZone - 1, SuperOf(old(fs.blocks), dev).zones, idx)
  {
    var d := SuperOf(fs.blocks, dev);
    ZoneMapsFew(fs.supers, dev);
    var after, halted := ReleaseBit(fs.blocks, dev, ZoneMaps(fs.supers, dev), d.firstDataZone - 1, d.zones, idx);
    Commit(fs, after, halted);
  }

  /** `ifree` with the map block chosen by `MapOf` and each map block 1024 bytes long. */
  method Ifree(fs: FileSystem, dev: int, idx: int)
    requires fs.Valid() && !fs.halted
    modifies fs
    ensures fs.Valid()
    ensures fs.supers == old(fs.supers) && fs.inodes == old(fs.inodes) && fs.files == old(fs.files) && fs.task == old(fs.task)
    ensures FindSuper(fs.supers, dev).None? ==> fs.halted
    ensures (fs.blocks, fs.halted) == Release(old(fs.blocks), dev, InodeMaps(fs.supers, dev), 0, SuperOf(old(fs.blocks), dev).inodes, idx)
  {
    var sb := Super.GetSuper(fs, dev);
    if sb.None? {
      fs.halted := true;
      return;
    }
    var d := SuperOf(fs.blocks, dev);
    MapsDistinct(fs.supers, dev);
    var after, halted := ReleaseBit(fs.blocks, dev, InodeMaps(fs.supers, dev), 0, d.inodes, idx);
    Commit(fs, after, halted);
  }

  /**
   * The map block `bfree` and `ifree` as written pick for `idx`: the first
   * `i` below 8 with `idx <= 8192 * (i + 1)`, or 8 when there is none. The
   * test ignores the map's bias and is off by one at each boundary.
   */
  function FreeMapAsWritten(idx: int): (i: nat)
    ensures i <= ZMAP_NR
    ensures i < ZMAP_NR ==> idx <= BLOCK_BITS * (i + 1) && (i == 0 || idx > BLOCK_BITS * i)
    ensures i == ZMAP_NR ==> idx > BLOCK_BITS * ZMAP_NR
  {
    if idx <= BLOCK_BITS then 0
    else if idx > BLOCK_BITS * ZMAP_NR then ZMAP_NR
    else (idx - 1) / BLOCK_BITS
  }

  /**
   * On an inode map (bias 0) the block written choice agrees with `MapOf`
   * except at the positive multiples of 8192.
   */
  lemma FreeMapAgreesOffBoundary(idx: int)
    requires 0 <= idx <= BLOCK_BITS * ZMAP_NR && (idx == 0 || idx % BLOCK_BITS != 0)
    ensures FreeMapAsWritten(idx) == MapOf(0, idx)
  {
  }

  /**
   * `bfree` as written on a device whose first data zone is 10: zone 8200
   * is bit 8191 of zone-map block 0, but the loop stops at block 1, whose
   * bit 0 is zone 8201, so `bitmap_test`'s `index >= offset` assertion
   * fails on a zone that is in use.
   */
  lemma BfreeWrongMap()
    ensures var bias := 10 - 1; var idx := 8200;
      MapOf(bias, idx) == 0 && BitOf(bias, idx) == BLOCK_BITS - 1
      && FreeMapAsWritten(idx) == 1 && idx < bias + BLOCK_BITS * FreeMapAsWritten(idx)
  {
  }

  /**
   * `ifree(8192)` as written: inode 8192 is bit 0 of inode-map block 1,
   * but the loop stops at block 0, where its relative bit is 8192, in byte
   * 1024 past the block; the window's length of `BLOCK_BITS` bytes lets the
   * test and the clear through.
   */
  lemma IfreeWrongMap()
    ensures var idx := 8192;
      MapOf(0, idx) == 1 && BitOf(0, idx) == 0
      && FreeMapAsWritten(idx) == 0 && (idx - BLOCK_BITS * FreeMapAsWritten(idx)) / 8 == Buffer.BLOCK_SIZE
      && (idx - BLOCK_BITS * FreeMapAsWritten(idx)) / 8 < BLOCK_BITS
  {
  }

  /** Where a zone pointer lives: the inode's own `zone` array, or an indirect block. */
  datatype Holder = InInode | InBlock(n: nat)

  predicate PtrOk(h: Holder, k: nat)
  {
    match h
    case InInode => k < ZONES
    case InBlock(_) => k < BLOCK_INDEXES
  }

  /** Zone pointer `k` of holder `h` of the inode `s`. */
  function Ptr(blocks: map<Buffer.Ident, seq<byte>>, s: InodeSlot, h: Holder, k: nat): (z: nat)
    requires s.index < BLOCK_INODES && PtrOk(h, k)
    ensures z < U16_LIMIT
  {
    match h
    case InInode => Desc(blocks, s).zone[k]
    case InBlock(n) => IndexAt(Block(blocks, s.dev, n), k)
  }

  /** The blocks with zone pointer `k` of holder `h` set to `z`. */
  function SetPtr(blocks: map<Buffer.Ident, seq<byte>>, s: InodeSlot, h: Holder, k: nat, z: nat): (r: map<Buffer.Ident, seq<byte>>)
    requires s.index < BLOCK_INODES && PtrOk(h, k) && z < U16_LIMIT
    ensures Ptr(r, s, h, k) == z
  {
    match h
    case InInode =>
      var d := Desc(blocks, s);
      PutDesc(blocks, s, d.(zone := d.zone[k := z]))
    case InBlock(n) => PutBlock(blocks, s.dev, n, PutIndex(Block(blocks, s.dev, n), k, z))
  }

  /** The indirect block a holder names, if any. */
  function HolderSet(h: Holder): set<nat>
  {
    if h.InBlock? then {h.n} else {}
  }

  /** Setting a pointer writes the holder alone, and in the inode record only the zone array. */
  lemma SetPtrFrame(blocks: map<Buffer.Ident, seq<byte>>, s: InodeSlot, h: Holder, k: nat, z: nat)
    requires s.index < BLOCK_INODES && PtrOk(h, k) && z < U16_LIMIT
    ensures Untouched(blocks, SetPtr(blocks, s, h, k, z), s.dev, HolderSet(h) + {s.block})
    ensures s.block !in HolderSet(h) ==>
      Desc(SetPtr(blocks, s, h, k, z), s) == Desc(blocks, s).(zone := Desc(SetPtr(blocks, s, h, k, z), s).zone)
  {
  }

  /**
   * Where logical block `block` starts: the index into the inode's `zone`
   * array, the number of indirect levels below it, and the block's offset
   * inside those levels.
   */
  function Route(block: nat): (r: (nat, nat, nat))
    requires block < TOTAL_BLOCK
    ensures r.0 < ZONES && r.1 <= 2
    ensures r.1 == 0 ==> r.0 < DIRECT_BLOCK && r.2 == 0
    ensures r.1 == 1 ==> r.0 == DIRECT_BLOCK && r.2 < INDIRECT1_BLOCK
    ensures r.1 == 2 ==> r.0 == DIRECT_BLOCK + 1 && r.2 < INDIRECT2_BLOCK
  {
    if block < DIRECT_BLOCK then (block, 0, 0)
    else if block - DIRECT_BLOCK < INDIRECT1_BLOCK then (DIRECT_BLOCK, 1, block - DIRECT_BLOCK)
    else (DIRECT_BLOCK + 1, 2, block - DIRECT_BLOCK - INDIRECT1_BLOCK)
  }

  /** The indirect-block indices below a `level`-deep pointer for offset `b`. */
  function Rest(level: nat, b: nat): (r: seq<nat>)
    requires level <= 2 && (level == 1 ==> b < INDIRECT1_BLOCK) && (level == 2 ==> b < INDIRECT2_BLOCK)
    ensures |r| == level && forall j :: 0 <= j < |r| ==> r[j] < BLOCK_INDEXES
  {
    if level == 2 then [b / BLOCK_INDEXES, b % BLOCK_INDEXES]
    else if level == 1 then [b]
    else []
  }

  /** Distinct logical blocks go through distinct pointer paths. */
  lemma RouteInjective(b1: nat, b2: nat)
    requires b1 < TOTAL_BLOCK && b2 < TOTAL_BLOCK
    requires Route(b1).0 == Route(b2).0 && Rest(Route(b1).1, Route(b1).2) == Rest(Route(b2).1, Route(b2).2)
    ensures b1 == b2
  {
    var (k1, l1, r1) := Route(b1);
    var (k2, l2, r2) := Route(b2);
    assert l1 == l2 by {
      assert |Rest(l1, r1)| == l1 && |Rest(l2, r2)| == l2;
    }
    if l1 == 2 {
      assert r1 / BLOCK_INDEXES == r2 / BLOCK_INDEXES && r1 % BLOCK_INDEXES == r2 % BLOCK_INDEXES;
      assert r1 == BLOCK_INDEXES * (r1 / BLOCK_INDEXES) + r1 % BLOCK_INDEXES;
      assert r2 == BLOCK_INDEXES * (r2 / BLOCK_INDEXES) + r2 % BLOCK_INDEXES;
    } else if l1 == 1 {
      assert Rest(l1, r1)[0] == r1 && Rest(l2, r2)[0] == r2;
    }
  }

  /** Following zone `z` down through the indices in `path`; a zero pointer ends the walk with 0. */
  function Follow(blocks: map<Buffer.Ident, seq<byte>>, dev: int, z: nat, path: seq<nat>): nat
    requires forall j :: 0 <= j < |path| ==> path[j] < BLOCK_INDEXES
    decreases |path|
  {
    if |path| == 0 || z == 0 then z
    else Follow(blocks, dev, IndexAt(Block(blocks, dev, z), path[0]), path[1..])
  }

  /** The zone holding logical block `block` of the inode `s`, or 0 for a hole. */
  function Resolve(blocks: map<Buffer.Ident, seq<byte>>, s: InodeSlot, block: nat): (z: nat)
    requires s.index < BLOCK_INODES && block < TOTAL_BLOCK
    ensures block < DIRECT_BLOCK ==> z == Desc(blocks, s).zone[block]
    ensures Desc(blocks, s).zone[Route(block).0] == 0 ==> z == 0
  {
    var (k, level, b) := Route(block);
    Follow(blocks, s.dev, Desc(blocks, s).zone[k], Rest(level, b))
  }

  /** Going one level down: the first index picks the pointer in block `z`, the rest follow from there. */
  lemma DescendStep(blocks: map<Buffer.Ident, seq<byte>>, dev: int, z: nat, level: nat, b: nat, divider: nat)
    requires z != 0 && (level == 1 || level == 2)
    requires level == 1 ==> divider == 1 && b < INDIRECT1_BLOCK
    requires level == 2 ==> divider == BLOCK_INDEXES && b < INDIRECT2_BLOCK
    ensures b / divider < BLOCK_INDEXES && b / divider >= 0 && b % divider >= 0
    ensures level - 1 == 1 ==> divider / BLOCK_INDEXES == 1 && b % divider < INDIRECT1_BLOCK
    ensures Follow(blocks, dev, z, Rest(level, b))
         == Follow(blocks, dev, IndexAt(Block(blocks, dev, z), b / divider), Rest(level - 1, b % divider))
  {
    var path := Rest(level, b);
    assert path[1..] == Rest(level - 1, b % divider);
  }

  /**
   * One step of `bmap`'s loop: the pointer at `h[k]`, first allocated with
   * `balloc` (truncated to `uint16`) when it is zero and `create` is set.
   */
  method Fetch(fs: FileSystem, s: InodeSlot, h: Holder, k: nat, create: bool) returns (z: nat, ghost touched: set<nat>)
    requires fs.Valid() && !fs.halted && s.index < BLOCK_INODES && PtrOk(h, k)
    modifies fs
    ensures fs.Valid()
    ensures fs.supers == old(fs.supers) && fs.inodes == old(fs.inodes) && fs.files == old(fs.files) && fs.task == old(fs.task)
    ensures !create || old(Ptr(fs.blocks, s, h, k)) != 0 ==>
      !fs.halted && fs.blocks == old(fs.blocks) && z == Ptr(fs.blocks, s, h, k)
    ensures !fs.halted ==> z == Ptr(fs.blocks, s, h, k)
    ensures !fs.halted ==> Untouched(old(fs.blocks), fs.blocks, s.dev, touched + {s.block})
    ensures !fs.halted && s.block !in touched ==> Desc(fs.blocks, s) == old(Desc(fs.blocks, s)).(zone := Desc(fs.blocks, s).zone)
  {
    z := Ptr(fs.blocks, s, h, k);
    touched := {};
    if z == 0 && create {
      var bit := Balloc(fs, s.dev);
      if fs.halted {
        return 0, touched;
      }
      ghost var maps := MapSet(ZoneMaps(fs.supers, s.dev));
      ghost var mid := fs.blocks;
      z := bit % U16_LIMIT;
      Commit(fs, SetPtr(fs.blocks, s, h, k, z), false);
      SetPtrFrame(mid, s, h, k, z);
      FrameCompose(old(fs.blocks), mid, fs.blocks, s, old(Desc(fs.blocks, s)), maps, HolderSet(h));
      touched := maps + HolderSet(h);
    }
  }

  /** Two steps that each keep to their own blocks and leave the inode record's other fields alone keep to the union. */
  lemma FrameCompose(before: map<Buffer.Ident, seq<byte>>, mid: map<Buffer.Ident, seq<byte>>, after: map<Buffer.Ident, seq<byte>>,
                     s: InodeSlot, d0: InodeDesc, t1: set<nat>, t2: set<nat>)
    requires s.index < BLOCK_INODES
    requires Untouched(before, mid, s.dev, t1 + {s.block}) && Untouched(mid, after, s.dev, t2 + {s.block})
    requires s.block !in t1 ==> Desc(mid, s) == d0.(zone := Desc(mid, s).zone)
    requires s.block !in t2 ==> Desc(after, s) == Desc(mid, s).(zone := Desc(after, s).zone)
    ensures Untouched(before, after, s.dev, t1 + t2 + {s.block})
    ensures s.block !in t1 + t2 ==> Desc(after, s) == d0.(zone := Desc(after, s).zone)
  {
  }

  /**
   * `bmap`: the zone holding logical block `block` of the inode in slot
   * `slot`, walking the direct, single and double indirect pointers; with
   * `create` each zero pointer met on the way is allocated first.
   */
  method Bmap(fs: FileSystem, slot: nat, block: nat, create: bool) returns (r: nat, ghost touched: set<nat>)
    requires fs.Valid() && !fs.halted && slot < INODE_NR && block < TOTAL_BLOCK
    modifies fs
    ensures fs.Valid()
    ensures fs.supers == old(fs.supers) && fs.inodes == old(fs.inodes) && fs.files == old(fs.files) && fs.task == old(fs.task)
    ensures !create || Resolve(old(fs.blocks), fs.inodes[slot], block) != 0 ==>
      !fs.halted && fs.blocks == old(fs.blocks) && r == Resolve(fs.blocks, fs.inodes[slot], block)
    ensures !fs.halted ==> Untouched(old(fs.blocks), fs.blocks, fs.inodes[slot].dev, touched + {fs.inodes[slot].block})
    ensures !fs.halted && fs.inodes[slot].block !in touched ==>
      Desc(fs.blocks, fs.inodes[slot]) == old(Desc(fs.blocks, fs.inodes[slot])).(zone := Desc(fs.blocks, fs.inodes[slot]).zone)
    ensures !fs.halted && block < DIRECT_BLOCK ==> r == Desc(fs.blocks, fs.inodes[slot]).zone[block]
  {
    var s := fs.inodes[slot];
    var (index, level, b) := Route(block);
    var divider: nat := if level == 2 then BLOCK_INDEXES else 1;
    var h := InInode;
    ghost var keep := !create || Resolve(fs.blocks, s, block) != 0;
    ghost var d0 := Desc(fs.blocks, s);
    touched := {};
    while level > 0
      invariant fs.Valid() && !fs.halted && level <= 2 && PtrOk(h, index)
      invariant fs.supers == old(fs.supers) && fs.inodes == old(fs.inodes) && fs.files == old(fs.files) && fs.task == old(fs.task)
      invariant level == 1 ==> divider == 1 && b < INDIRECT1_BLOCK
      invariant level == 2 ==> divider == BLOCK_INDEXES && b < INDIRECT2_BLOCK
      invariant block < DIRECT_BLOCK ==> level == 0 && h == InInode && index == block
      invariant keep ==> fs.blocks == old(fs.blocks)
      invariant keep ==> Follow(fs.blocks, s.dev, Ptr(fs.blocks, s, h, index), Rest(level, b)) == Resolve(fs.blocks, s, block)
      invariant Untouched(old(fs.blocks), fs.blocks, s.dev, touched + {s.block})
      invariant s.block !in touched ==> Desc(fs.blocks, s) == d0.(zone := Desc(fs.blocks, s).zone)
    {

      ghost var pre := fs.blocks;
      var z, t := Fetch(fs, s, h, index, create);
      if fs.halted {
        return z, touched;
      }
      FrameCompose(old(fs.blocks), pre, fs.blocks, s, d0, touched, t);
      touched := touched + t;
      if z == 0 {
        return z, touched;
      }
      DescendStep(fs.blocks, s.dev, z, level, b, divider);
      h, index, b := InBlock(z), b / divider, b % divider;
      divider, level := divider / BLOCK_INDEXES, level - 1;
    }
    ghost var pre := fs.blocks;
    ghost var t;
    r, t := Fetch(fs, s, h, index, create);
    if !fs.halted {
      FrameCompose(old(fs.blocks), pre, fs.blocks, s, d0, touched, t);
    }
    touched := touched + t;
  }
}
