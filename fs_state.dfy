/**
 * The state the filesystem code shares: what each block of each device
 * holds as the buffer cache shows it, the super-block table, the inode
 * table, the open-file table and the running task's filesystem fields.
 *
 * Blocks are read and written by content: the buffer cache keeps one
 * buffer per identity and writes dirty buffers through on release, so
 * `bread` of a block always shows its latest content. A buffer pointer the
 * C code keeps (`sb->zmap[i]`, `inode->buf`, `inode->desc`) becomes the
 * block number and record index it points into.
 *
 * A `panic` or a failed kernel `assert` halts the machine: `halted` is set
 * and nothing after it is promised.
 */
module FsState {
  import opened Base
  import Buffer
  import opened FsLayout

  const SUPER_NR: nat := 16
  const INODE_NR: nat := 64
  const FILE_NR: nat := 128
  const TASK_FILE_NR: nat := 16
  const KERNEL_USER: nat := 0

  /** The bytes of block `n` of `dev`; a block never written reads as zeros. */
  function Block(blocks: map<Buffer.Ident, seq<byte>>, dev: int, n: nat): (b: seq<byte>)
    ensures |b| == Buffer.BLOCK_SIZE
  {
    var id := Buffer.Ident(dev, n);
    if id in blocks && |blocks[id]| == Buffer.BLOCK_SIZE then blocks[id] else Zeros(Buffer.BLOCK_SIZE)
  }

  /** The blocks with block `n` of `dev` replaced by `b`. */
  function PutBlock(blocks: map<Buffer.Ident, seq<byte>>, dev: int, n: nat, b: seq<byte>): (r: map<Buffer.Ident, seq<byte>>)
    requires |b| == Buffer.BLOCK_SIZE
    ensures Block(r, dev, n) == b
    ensures forall d, m: nat :: (d, m) != (dev, n) ==> Block(r, d, m) == Block(blocks, d, m)
  {
    blocks[Buffer.Ident(dev, n) := b]
  }

  /**
   * `after` agrees with `before` on every block of every device except the
   * blocks of `dev` numbered in `touched`.
   */
  ghost predicate Untouched(before: map<Buffer.Ident, seq<byte>>, after: map<Buffer.Ident, seq<byte>>, dev: int, touched: set<nat>)
  {
    forall d, b: nat :: (d != dev || b !in touched) ==> Block(after, d, b) == Block(before, d, b)
  }

  /** Two steps that each keep to their own blocks keep to the union. */
  lemma UntouchedTrans(a: map<Buffer.Ident, seq<byte>>, b: map<Buffer.Ident, seq<byte>>, c: map<Buffer.Ident, seq<byte>>,
                       dev: int, t1: set<nat>, t2: set<nat>)
    requires Untouched(a, b, dev, t1) && Untouched(b, c, dev, t2)
    ensures Untouched(a, c, dev, t1 + t2)
  {
  }

  /** Two steps that each keep to the same blocks keep to them together. */
  lemma UntouchedChain(a: map<Buffer.Ident, seq<byte>>, b: map<Buffer.Ident, seq<byte>>, c: map<Buffer.Ident, seq<byte>>,
                       dev: int, t: set<nat>)
    requires Untouched(a, b, dev, t) && Untouched(b, c, dev, t)
    ensures Untouched(a, c, dev, t)
  {
  }

  /** The super-block descriptor of `dev`: the record at the start of block 1. */
  function SuperOf(blocks: map<Buffer.Ident, seq<byte>>, dev: int): SuperDesc
  {
    DecodeSuper(Block(blocks, dev, 1))
  }

  /** `n` consecutive block numbers from `first`. */
  function Run(first: nat, n: nat): (r: seq<nat>)
    ensures |r| == n && forall k :: 0 <= k < n ==> r[k] == first + k
  {
    seq(n, k requires 0 <= k => first + k)
  }

  /**
   * A `super_block_t`: `dev == EOF` marks a free slot; `imap`/`zmap` are
   * the block numbers of the map buffers read (absent entries are NULL);
   * `inodeList` holds inode-table slots, head first; `iroot`/`imount`
   * are inode-table slots.
   */
  datatype SuperSlot = SuperSlot(dev: int, inodeMap: seq<nat>, zoneMap: seq<nat>, inodeList: seq<nat>,
                                 iroot: Option<nat>, imount: Option<nat>)

  /**
   * An `inode_t`: `dev == EOF` marks a free slot; `block` and `index` locate
   * the record `desc` points at (fixed when the inode is read in).
   */
  datatype InodeSlot = InodeSlot(dev: int, nr: nat, count: nat, atime: int, ctime: int, block: nat, index: nat)

  /** A `file_t`: `inode` is an inode-table slot or NULL. */
  datatype FileSlot = FileSlot(inode: Option<nat>, count: nat, offset: Offset, flags: int, mode: nat)

  /** An `off_t`: a signed 32-bit file offset. */
  type Offset = x: int | -0x8000_0000 <= x < 0x8000_0000

  /**
   * The running task's filesystem fields: `pwd` is the buffer holding the
   * working directory's path as a C string, `ipwd`/`iroot` are inode-table
   * slots, `fds` file-table slots.
   */
  datatype Task = Task(uid: nat, gid: nat, umask: nat, pwd: seq<byte>, ipwd: nat, iroot: nat, fds: seq<Option<nat>>)

  /** The map blocks of a mounted device are consecutive from block 2, inode map first, at most 8 of each. */
  predicate MapsOk(s: SuperSlot)
  {
    |s.inodeMap| <= IMAP_NR && |s.zoneMap| <= ZMAP_NR
    && s.inodeMap == Run(2, |s.inodeMap|) && s.zoneMap == Run(2 + |s.inodeMap|, |s.zoneMap|)
  }

  /** The inode record `s` points at. */
  function Desc(blocks: map<Buffer.Ident, seq<byte>>, s: InodeSlot): InodeDesc
    requires s.index < BLOCK_INODES
  {
    InodeAt(Block(blocks, s.dev, s.block), s.index)
  }

  /** The blocks with the record `s` points at replaced by `d`. */
  function PutDesc(blocks: map<Buffer.Ident, seq<byte>>, s: InodeSlot, d: InodeDesc): (r: map<Buffer.Ident, seq<byte>>)
    requires s.index < BLOCK_INODES && InodeOk(d)
    ensures Desc(r, s) == d
    ensures forall t: InodeSlot :: t.index < BLOCK_INODES && (t.dev, t.block, t.index) != (s.dev, s.block, s.index) ==> Desc(r, t) == Desc(blocks, t)
    ensures forall d, m: nat :: (d, m) != (s.dev, s.block) ==> Block(r, d, m) == Block(blocks, d, m)
  {
    PutBlock(blocks, s.dev, s.block, PutInode(Block(blocks, s.dev, s.block), s.index, d))
  }

  /** The first super-block slot of `dev` (`get_super`), or None. */
  function FindSuper(supers: seq<SuperSlot>, dev: int): (r: Option<nat>)
    ensures r.Some? ==> r.value < |supers| && supers[r.value].dev == dev
    ensures r.Some? ==> forall j :: 0 <= j < r.value ==> supers[j].dev != dev
    ensures r.None? ==> forall j :: 0 <= j < |supers| ==> supers[j].dev != dev
  {
    if |supers| == 0 then None
    else if supers[0].dev == dev then Some(0)
    else match FindSuper(supers[1..], dev)
      case None => None
      case Some(k) => Some(k + 1)
  }

  /** The filesystem tables and the block contents, as one mutable state. */
  class FileSystem {
    var blocks: map<Buffer.Ident, seq<byte>>
    var supers: seq<SuperSlot>
    var inodes: seq<InodeSlot>
    var files: seq<FileSlot>
    var task: Task
    var halted: bool

    /** Table sizes, and every slot reference in range. */
    ghost predicate Valid()
      reads this
    {
      TablesOk(supers, inodes, files, task)
    }
  }

  /** Table sizes, and every slot reference in range. */
  ghost predicate TablesOk(supers: seq<SuperSlot>, inodes: seq<InodeSlot>, files: seq<FileSlot>, task: Task)
  {
    |supers| == SUPER_NR && |inodes| == INODE_NR && |files| == FILE_NR && |task.fds| == TASK_FILE_NR
    && (forall i :: 0 <= i < SUPER_NR ==> SuperSlotOk(supers[i]))
    && (forall i :: 0 <= i < INODE_NR ==> inodes[i].index < BLOCK_INODES)
    && (forall i :: 0 <= i < FILE_NR ==> FileSlotOk(files[i]))
    && task.ipwd < INODE_NR && task.iroot < INODE_NR
    && (forall k :: 0 <= k < TASK_FILE_NR ==> FdOk(task.fds[k]))
  }

  predicate SuperSlotOk(s: SuperSlot)
  {
    MapsOk(s) && (forall k :: 0 <= k < |s.inodeList| ==> s.inodeList[k] < INODE_NR)
    && (s.iroot.Some? ==> s.iroot.value < INODE_NR) && (s.imount.Some? ==> s.imount.value < INODE_NR)
  }

  predicate FileSlotOk(f: FileSlot)
  {
    f.inode.Some? ==> f.inode.value < INODE_NR
  }

  predicate FdOk(f: Option<nat>)
  {
    f.Some? ==> f.value < FILE_NR
  }
}
