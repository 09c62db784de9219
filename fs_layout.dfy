/**
 * The Minix v1 on-disk format as `fs.h` lays it out: the geometry constants,
 * the path separators, the `open` flags, the mode bits, and the three record
 * shapes (inode descriptor, directory entry, super-block descriptor) with
 * their little-endian encodings.
 *
 * Records are read out of a block with `Decode…` and stored back with
 * `Encode…`; the round-trip lemmas make a store of one field through
 * decode, update and encode the same as the C field assignment.
 */
module FsLayout {
  import opened Base
  import Buffer

  const MINIX1_MAGIC: nat := 0x137f
  const NAME_LEN: nat := 14
  const IMAP_NR: nat := 8
  const ZMAP_NR: nat := 8

  /** `sizeof(inode_desc_t)`, `sizeof(dentry_t)`, `sizeof(uint16)`. */
  const INODE_SIZE: nat := 32
  const DENTRY_SIZE: nat := 16
  const INDEX_SIZE: nat := 2

  /**
   * Per-block counts, written out: `BLOCK_SIZE * 8` bits, and
   * `BLOCK_SIZE / 32` inodes, `/ 16` entries and `/ 2` zone indices.
   */
  const BLOCK_BITS: nat := 8192
  const BLOCK_INODES: nat := 32
  const BLOCK_DENTRIES: nat := 64
  const BLOCK_INDEXES: nat := 512

  /** Zones 0-6 are direct, zone 7 single-indirect, zone 8 double-indirect. */
  const DIRECT_BLOCK: nat := 7
  const INDIRECT1_BLOCK: nat := 512
  const INDIRECT2_BLOCK: nat := 512 * 512
  const TOTAL_BLOCK: nat := 7 + 512 + 512 * 512
  const ZONES: nat := 9

  /** The written-out counts are the ones the block and record sizes give. */
  lemma LayoutCounts()
    ensures BLOCK_BITS == Buffer.BLOCK_SIZE * 8 && BLOCK_INODES == Buffer.BLOCK_SIZE / INODE_SIZE
    ensures BLOCK_DENTRIES == Buffer.BLOCK_SIZE / DENTRY_SIZE && BLOCK_INDEXES == Buffer.BLOCK_SIZE / INDEX_SIZE
    ensures INDIRECT1_BLOCK == BLOCK_INDEXES && INDIRECT2_BLOCK == INDIRECT1_BLOCK * INDIRECT1_BLOCK
    ensures TOTAL_BLOCK == DIRECT_BLOCK + INDIRECT1_BLOCK + INDIRECT2_BLOCK
  {
  }

  /** `IS_SEPARTOR`: '/' or '\'. */
  predicate IsSeparator(c: byte)
  {
    c == '/' as byte || c == '\\' as byte
  }

  // The `open` flags (octal in `fs.h`).
  const O_RDONLY: int := 0
  const O_WRONLY: int := 1
  const O_RDWR: int := 2
  const O_ACCMODE: int := 3
  const O_CREAT: int := 0x40
  const O_EXCL: int := 0x80
  const O_NOCTTY: int := 0x100
  const O_TRUNC: int := 0x200
  const O_APPEND: int := 0x400
  const O_NONBLOCK: int := 0x800

  /** `flags & O_ACCMODE`, for any two's-complement `flags`. */
  function AccMode(flags: int): (m: int)
    ensures 0 <= m < 4
    ensures m == flags - 4 * (flags / 4)
  {
    flags % 4
  }

  /** `flags & bit` is non-zero, for a single-bit `bit`. */
  predicate HasFlag(flags: int, bit: nat)
    requires bit > 0
  {
    (flags / bit) % 2 == 1
  }

  /** `inode_open`'s upgrade: `O_TRUNC` with `O_RDONLY` becomes `flags | O_RDWR`. */
  function TruncUpgrade(flags: int): (r: int)
    ensures AccMode(flags) == O_RDONLY && HasFlag(flags, O_TRUNC) ==> AccMode(r) == O_RDWR
    ensures !(AccMode(flags) == O_RDONLY && HasFlag(flags, O_TRUNC)) ==> r == flags
    ensures HasFlag(r, O_CREAT) == HasFlag(flags, O_CREAT) && HasFlag(r, O_TRUNC) == HasFlag(flags, O_TRUNC)
    ensures HasFlag(r, O_APPEND) == HasFlag(flags, O_APPEND)
  {
    if AccMode(flags) == O_RDONLY && HasFlag(flags, O_TRUNC) then flags + O_RDWR else flags
  }

  // Mode bits (the Minix values of `stat.h`).
  const IFMT: nat := 0xF000
  const IFREG: nat := 0x8000
  const IFDIR: nat := 0x4000
  const ISVTX: nat := 0x200

  /** The file-type field `mode & IFMT`, shifted down. */
  function FileType(mode: nat): nat
  {
    (mode / 0x1000) % 16
  }

  /** `ISDIR(mode)`. */
  predicate IsDir(mode: nat)
  {
    FileType(mode) == IFDIR / 0x1000
  }

  /** `ISFILE(mode)`. */
  predicate IsFile(mode: nat)
  {
    FileType(mode) == IFREG / 0x1000
  }

  /** `mode & ISVTX`, the sticky bit. */
  predicate Sticky(mode: nat)
  {
    (mode / ISVTX) % 2 == 1
  }

  /** `(mode & 0777 & ~umask) | type` for a type of `IFREG` or `IFDIR`. */
  function NewMode(mode: int, umask: nat, fileType: nat): (m: nat)
    requires fileType == IFREG || fileType == IFDIR
    ensures m < U16_LIMIT && m % 0x200 == Masked(mode % 0x200, umask % 0x200)
    ensures IsDir(m) <==> fileType == IFDIR
    ensures IsFile(m) <==> fileType == IFREG
  {
    fileType + Masked(mode % 0x200, umask % 0x200)
  }

  /** The permission bits of `p` not set in `u` (`p & ~u`), both below 0x200. */
  function Masked(p: nat, u: nat): (r: nat)
    requires p < 0x200 && u < 0x200
    ensures r < 0x200 && r <= p
    decreases p
  {
    if p == 0 then 0
    else 2 * Masked(p / 2, u / 2) + (if p % 2 == 1 && u % 2 == 0 then 1 else 0)
  }

  // ---------------------------------------------------------------- encodings

  /** The two little-endian bytes of a `uint16`. */
  function LE16(v: nat): (r: seq<byte>)
    requires v < U16_LIMIT
    ensures |r| == 2 && U16At(r, 0) == v
  {
    [v % 256, v / 256]
  }

  /** The four little-endian bytes of a `uint32`. */
  function LE32(v: nat): (r: seq<byte>)
    requires v < U32_LIMIT
    ensures |r| == 4 && U32At(r, 0) == v
  {
    LE16(v % U16_LIMIT) + LE16(v / U16_LIMIT)
  }

  /** A 16-bit field read back from inside a larger sequence. */
  lemma U16Inside(a: seq<byte>, b: seq<byte>, c: seq<byte>)
    requires |b| == 2
    ensures U16At(a + b + c, |a|) == U16At(b, 0)
  {
  }

  /** A 32-bit field read back from inside a larger sequence. */
  lemma U32Inside(a: seq<byte>, b: seq<byte>, c: seq<byte>)
    requires |b| == 4
    ensures U32At(a + b + c, |a|) == U32At(b, 0)
  {
  }

  // ------------------------------------------------------------ inode record

  /** `inode_desc_t`: `gid` and `nlinks` are `char`s, kept as their bytes. */
  datatype InodeDesc = InodeDesc(mode: nat, uid: nat, size: nat, mtime: nat, gid: byte, nlinks: byte, zone: seq<nat>)

  /** The field widths of `inode_desc_t` hold every field. */
  predicate InodeOk(d: InodeDesc)
  {
    d.mode < U16_LIMIT && d.uid < U16_LIMIT && d.size < U32_LIMIT && d.mtime < U32_LIMIT
    && |d.zone| == ZONES && forall k :: 0 <= k < ZONES ==> d.zone[k] < U16_LIMIT
  }

  /** The zone array: nine `uint16`s. */
  function EncodeZones(z: seq<nat>): (r: seq<byte>)
    requires forall k :: 0 <= k < |z| ==> z[k] < U16_LIMIT
    ensures |r| == 2 * |z|
  {
    if z == [] then [] else LE16(z[0]) + EncodeZones(z[1..])
  }

  function DecodeZones(r: seq<byte>, n: nat): (z: seq<nat>)
    requires |r| == 2 * n
    ensures |z| == n && forall k :: 0 <= k < n ==> z[k] < U16_LIMIT
  {
    if n == 0 then [] else [U16At(r, 0)] + DecodeZones(r[2..], n - 1)
  }

  lemma {:induction false} ZonesRoundTrip(z: seq<nat>)
    requires forall k :: 0 <= k < |z| ==> z[k] < U16_LIMIT
    ensures DecodeZones(EncodeZones(z), |z|) == z
  {
    if z != [] {
      var r := EncodeZones(z);
      assert r[2..] == EncodeZones(z[1..]);
      ZonesRoundTrip(z[1..]);
    }
  }

  lemma {:induction false} ZonesBytesRoundTrip(r: seq<byte>, n: nat)
    requires |r| == 2 * n
    ensures EncodeZones(DecodeZones(r, n)) == r
  {
    if n > 0 {
      ZonesBytesRoundTrip(r[2..], n - 1);
      var z := DecodeZones(r, n);
      assert z[1..] == DecodeZones(r[2..], n - 1);
      assert r == r[..2] + r[2..];
    }
  }

  /** The 32 bytes of an inode record. */
  function EncodeInode(d: InodeDesc): (r: seq<byte>)
    requires InodeOk(d)
    ensures |r| == INODE_SIZE
  {
    LE16(d.mode) + LE16(d.uid) + LE32(d.size) + LE32(d.mtime) + [d.gid, d.nlinks] + EncodeZones(d.zone)
  }

  /** The inode record held by 32 bytes. */
  function DecodeInode(r: seq<byte>): (d: InodeDesc)
    requires |r| == INODE_SIZE
    ensures InodeOk(d)
  {
    InodeDesc(U16At(r, 0), U16At(r, 2), U32At(r, 4), U32At(r, 8), r[12], r[13], DecodeZones(r[14..], ZONES))
  }

  /** Decoding an encoded inode record gives it back. */
  lemma InodeRoundTrip(d: InodeDesc)
    requires InodeOk(d)
    ensures DecodeInode(EncodeInode(d)) == d
  {
    var r := EncodeInode(d);
    U16Inside([], LE16(d.mode), r[2..]);
    U16Inside(LE16(d.mode), LE16(d.uid), r[4..]);
    U32Inside(r[..4], LE32(d.size), r[8..]);
    U32Inside(r[..8], LE32(d.mtime), r[12..]);
    assert r[14..] == EncodeZones(d.zone);
    ZonesRoundTrip(d.zone);
  }

  /** A 16-bit field re-encoded is the two bytes it was read from. */
  lemma LE16At(r: seq<byte>, o: nat)
    requires o + 2 <= |r|
    ensures LE16(U16At(r, o)) == r[o..o + 2]
  {
  }

  /** A 32-bit field re-encoded is the four bytes it was read from. */
  lemma LE32At(r: seq<byte>, o: nat)
    requires o + 4 <= |r|
    ensures LE32(U32At(r, o)) == r[o..o + 4]
  {
    var v := U32At(r, o);
    assert v % U16_LIMIT == U16At(r, o) && v / U16_LIMIT == U16At(r, o + 2);
    LE16At(r, o);
    LE16At(r, o + 2);
  }

  /** Encoding a decoded inode record gives back the same 32 bytes. */
  lemma InodeBytesRoundTrip(r: seq<byte>)
    requires |r| == INODE_SIZE
    ensures EncodeInode(DecodeInode(r)) == r
  {
    var d := DecodeInode(r);
    LE16At(r, 0);
    LE16At(r, 2);
    LE32At(r, 4);
    LE32At(r, 8);
    ZonesBytesRoundTrip(r[14..], ZONES);
    calc {
      EncodeInode(d);
      r[0..2] + r[2..4] + r[4..8] + r[8..12] + [r[12], r[13]] + r[14..];
      { assert [r[12], r[13]] == r[12..14]; }
      r[0..2] + r[2..4] + r[4..8] + r[8..12] + r[12..14] + r[14..];
      { assert r == r[0..2] + r[2..4] + r[4..8] + r[8..12] + r[12..14] + r[14..]; }
      r;
    }
  }

  // --------------------------------------------------------- directory entry

  /** `dentry_t`: an inode number (0 marks a free entry) and a 14-byte name field. */
  datatype Dentry = Dentry(nr: nat, name: seq<byte>)

  predicate DentryOk(e: Dentry)
  {
    e.nr < U16_LIMIT && |e.name| == NAME_LEN
  }

  function EncodeDentry(e: Dentry): (r: seq<byte>)
    requires DentryOk(e)
    ensures |r| == DENTRY_SIZE
  {
    LE16(e.nr) + e.name
  }

  function DecodeDentry(r: seq<byte>): (e: Dentry)
    requires |r| == DENTRY_SIZE
    ensures DentryOk(e)
  {
    Dentry(U16At(r, 0), r[2..])
  }

  /** Decoding an encoded entry gives it back. */
  lemma DentryRoundTrip(e: Dentry)
    requires DentryOk(e)
    ensures DecodeDentry(EncodeDentry(e)) == e
  {
    U16Inside([], LE16(e.nr), e.name);
  }

  /** Encoding a decoded entry gives back the same 16 bytes. */
  lemma DentryBytesRoundTrip(r: seq<byte>)
    requires |r| == DENTRY_SIZE
    ensures EncodeDentry(DecodeDentry(r)) == r
  {
    assert r == r[..2] + r[2..];
  }

  // ---------------------------------------------------- super-block record

  /** `super_desc_t`, the record at the start of block 1. */
  datatype SuperDesc = SuperDesc(inodes: nat, zones: nat, imapBlocks: nat, zmapBlocks: nat,
                                 firstDataZone: nat, logZoneSize: nat, maxSize: nat, magic: nat)

  predicate SuperOk(s: SuperDesc)
  {
    s.inodes < U16_LIMIT && s.zones < U16_LIMIT && s.imapBlocks < U16_LIMIT && s.zmapBlocks < U16_LIMIT
    && s.firstDataZone < U16_LIMIT && s.logZoneSize < U16_LIMIT && s.maxSize < U32_LIMIT && s.magic < U16_LIMIT
  }

  /** The 20 bytes of the record: the `uint32` sits at offset 12 and two padding bytes end it. */
  function EncodeSuper(s: SuperDesc): (r: seq<byte>)
    requires SuperOk(s)
    ensures |r| == 20
  {
    LE16(s.inodes) + LE16(s.zones) + LE16(s.imapBlocks) + LE16(s.zmapBlocks)
    + LE16(s.firstDataZone) + LE16(s.logZoneSize) + LE32(s.maxSize) + LE16(s.magic) + [0, 0]
  }

  function DecodeSuper(r: seq<byte>): (s: SuperDesc)
    requires |r| >= 20
    ensures SuperOk(s)
  {
    SuperDesc(U16At(r, 0), U16At(r, 2), U16At(r, 4), U16At(r, 6), U16At(r, 8), U16At(r, 10), U32At(r, 12), U16At(r, 16))
  }

  /** Decoding an encoded super-block record gives it back. */
  lemma SuperRoundTrip(s: SuperDesc)
    requires SuperOk(s)
    ensures DecodeSuper(EncodeSuper(s)) == s
  {
    var r := EncodeSuper(s);
    U16Inside([], LE16(s.inodes), r[2..]);
    U16Inside(r[..2], LE16(s.zones), r[4..]);
    U16Inside(r[..4], LE16(s.imapBlocks), r[6..]);
    U16Inside(r[..6], LE16(s.zmapBlocks), r[8..]);
    U16Inside(r[..8], LE16(s.firstDataZone), r[10..]);
    U16Inside(r[..10], LE16(s.logZoneSize), r[12..]);
    U32Inside(r[..12], LE32(s.maxSize), r[16..]);
    U16Inside(r[..16], LE16(s.magic), r[18..]);
  }

  // ------------------------------------------------------- records in blocks

  /** Bytes `o .. o + n - 1` of a block. */
  function Slice(b: seq<byte>, o: nat, n: nat): (r: seq<byte>)
    requires o + n <= |b|
    ensures |r| == n
  {
    b[o..o + n]
  }

  /** The block with bytes `o ..` replaced by `r`. */
  function Splice(b: seq<byte>, o: nat, r: seq<byte>): (b': seq<byte>)
    requires o + |r| <= |b|
    ensures |b'| == |b| && Slice(b', o, |r|) == r
    ensures forall k :: 0 <= k < |b| && (k < o || o + |r| <= k) ==> b'[k] == b[k]
  {
    b[..o] + r + b[o + |r|..]
  }

  /** Splicing a slice back in place leaves the block as it was. */
  lemma SpliceSlice(b: seq<byte>, o: nat, n: nat)
    requires o + n <= |b|
    ensures Splice(b, o, Slice(b, o, n)) == b
  {
    assert b == b[..o] + b[o..o + n] + b[o + n..];
  }

  /** A splice elsewhere leaves a slice unchanged. */
  lemma SliceApart(b: seq<byte>, o: nat, r: seq<byte>, p: nat, n: nat)
    requires o + |r| <= |b| && p + n <= |b|
    requires p + n <= o || o + |r| <= p
    ensures Slice(Splice(b, o, r), p, n) == Slice(b, p, n)
  {
  }

  /** Index `k` of a block of 512 `uint16` zone numbers. */
  function IndexAt(b: seq<byte>, k: nat): (z: nat)
    requires |b| == Buffer.BLOCK_SIZE && k < BLOCK_INDEXES
    ensures z < U16_LIMIT
  {
    U16At(b, INDEX_SIZE * k)
  }

  /** The block with index `k` set to `z`; no other index changes. */
  function PutIndex(b: seq<byte>, k: nat, z: nat): (b': seq<byte>)
    requires |b| == Buffer.BLOCK_SIZE && k < BLOCK_INDEXES && z < U16_LIMIT
    ensures |b'| == Buffer.BLOCK_SIZE && IndexAt(b', k) == z
    ensures forall j :: 0 <= j < BLOCK_INDEXES && j != k ==> IndexAt(b', j) == IndexAt(b, j)
  {
    PutU16(b, INDEX_SIZE * k, z)
  }

  /** Inode record `k` of an inode-table block. */
  function InodeAt(b: seq<byte>, k: nat): InodeDesc
    requires |b| == Buffer.BLOCK_SIZE && k < BLOCK_INODES
  {
    DecodeInode(Slice(b, INODE_SIZE * k, INODE_SIZE))
  }

  /** The block with inode record `k` replaced by `d`; every other record is unchanged. */
  function PutInode(b: seq<byte>, k: nat, d: InodeDesc): (b': seq<byte>)
    requires |b| == Buffer.BLOCK_SIZE && k < BLOCK_INODES && InodeOk(d)
    ensures |b'| == Buffer.BLOCK_SIZE && InodeAt(b', k) == d
    ensures forall j :: 0 <= j < BLOCK_INODES && j != k ==> InodeAt(b', j) == InodeAt(b, j)
  {
    InodeRoundTrip(d);
    var b' := Splice(b, INODE_SIZE * k, EncodeInode(d));
    forall j | 0 <= j < BLOCK_INODES && j != k
      ensures InodeAt(b', j) == InodeAt(b, j)
    {
      SliceApart(b, INODE_SIZE * k, EncodeInode(d), INODE_SIZE * j, INODE_SIZE);
    }
    b'
  }

  /** Directory entry `k` of a directory block. */
  function DentryAt(b: seq<byte>, k: nat): Dentry
    requires |b| == Buffer.BLOCK_SIZE && k < BLOCK_DENTRIES
  {
    DecodeDentry(Slice(b, DENTRY_SIZE * k, DENTRY_SIZE))
  }

  /** The block with entry `k` replaced by `e`; every other entry is unchanged. */
  function PutDentry(b: seq<byte>, k: nat, e: Dentry): (b': seq<byte>)
    requires |b| == Buffer.BLOCK_SIZE && k < BLOCK_DENTRIES && DentryOk(e)
    ensures |b'| == Buffer.BLOCK_SIZE && DentryAt(b', k) == e
    ensures forall j :: 0 <= j < BLOCK_DENTRIES && j != k ==> DentryAt(b', j) == DentryAt(b, j)
  {
    DentryRoundTrip(e);
    var b' := Splice(b, DENTRY_SIZE * k, EncodeDentry(e));
    forall j | 0 <= j < BLOCK_DENTRIES && j != k
      ensures DentryAt(b', j) == DentryAt(b, j)
    {
      SliceApart(b, DENTRY_SIZE * k, EncodeDentry(e), DENTRY_SIZE * j, DENTRY_SIZE);
    }
    b'
  }

  /** Storing a record decoded from a block back into it changes nothing: a field store touches only its own bytes. */
  lemma PutInodeSame(b: seq<byte>, k: nat)
    requires |b| == Buffer.BLOCK_SIZE && k < BLOCK_INODES
    ensures PutInode(b, k, InodeAt(b, k)) == b
  {
    InodeBytesRoundTrip(Slice(b, INODE_SIZE * k, INODE_SIZE));
    SpliceSlice(b, INODE_SIZE * k, INODE_SIZE);
  }

  /** Storing an entry decoded from a block back into it changes nothing. */
  lemma PutDentrySame(b: seq<byte>, k: nat)
    requires |b| == Buffer.BLOCK_SIZE && k < BLOCK_DENTRIES
    ensures PutDentry(b, k, DentryAt(b, k)) == b
  {
    DentryBytesRoundTrip(Slice(b, DENTRY_SIZE * k, DENTRY_SIZE));
    SpliceSlice(b, DENTRY_SIZE * k, DENTRY_SIZE);
  }
}
