/**
 * The system calls of `namei.c` built on `named` and `namei`: `unlink`,
 * `rmdir`, `mkdir`, `link`, `inode_open`, `chdir` and `chroot`.
 *
 * Each call is stated against the state it starts from: whether it
 * succeeds is a function of the blocks, the walk `named` makes and the
 * caller's identity, and what it writes is a function of the blocks it
 * starts from. A call that fails leaves the blocks as they were, and every
 * call gives back the inode references it took.
 */
module NameCalls {
  import opened Base
  import Buffer
  import opened FsLayout
  import opened FsState
  import Path
  import CString
  import Bmap
  import Inode
  import Dir
  import Namei

  // ------------------------------------------------------- two references

  /**
   * `inodes` holds the references `inodes0` held plus one on slot `k` and
   * one on slot `m` (two on one slot when they coincide).
   */
  ghost predicate Holds2(inodes0: seq<InodeSlot>, inodes: seq<InodeSlot>, k: nat, m: nat)
  {
    |inodes| == |inodes0|
    && forall j :: 0 <= j < |inodes| ==>
         inodes[j].count == inodes0[j].count + (if j == k then 1 else 0) + (if j == m then 1 else 0)
         && (j != k && j != m ==> inodes[j].dev == inodes0[j].dev)
         && (inodes0[j].dev != EOF ==> Namei.Same(inodes0[j], inodes[j]))
  }

  /** Taking a reference on slot `m` while holding one on slot `k`. */
  lemma HoldsAfterGot2(inodes0: seq<InodeSlot>, inodes1: seq<InodeSlot>, inodes2: seq<InodeSlot>, k: nat, m: nat)
    requires Namei.Holds(inodes0, inodes1, Some(k)) && Namei.Got(inodes1, inodes2, m)
    ensures Holds2(inodes0, inodes2, k, m)
  {
  }

  /** Dropping the reference on slot `m` of two held leaves the one on slot `k`. */
  lemma HoldsAfterDrop2(inodes0: seq<InodeSlot>, inodes2: seq<InodeSlot>, inodes3: seq<InodeSlot>, k: nat, m: nat)
    requires Holds2(inodes0, inodes2, k, m) && Namei.Dropped(inodes2, inodes3, m)
    requires forall j :: 0 <= j < |inodes0| ==> (inodes0[j].dev == EOF <==> inodes0[j].count == 0)
    requires forall j :: 0 <= j < |inodes3| ==> (inodes3[j].dev == EOF <==> inodes3[j].count == 0)
    ensures Namei.Holds(inodes0, inodes3, Some(k))
  {
  }

  /**
   * `iput(inode); iput(dir)` on the two references a call took, slot `m`
   * and then slot `k`: back to the references of `inodes0`, with nothing
   * but inode lists changed in the super-block table.
   */
  method Release2(fs: FileSystem, k: nat, m: nat, ghost inodes0: seq<InodeSlot>)
    requires fs.Valid() && !fs.halted && k < INODE_NR && m < INODE_NR && Namei.Counted(inodes0, fs.task)
    requires Namei.Table(fs.supers, fs.inodes) && Holds2(inodes0, fs.inodes, k, m)
    modifies fs
    ensures fs.Valid() && fs.blocks == old(fs.blocks) && fs.files == old(fs.files) && fs.task == old(fs.task)
    ensures !fs.halted ==> Namei.Table(fs.supers, fs.inodes) && Namei.Holds(inodes0, fs.inodes, None)
    ensures !fs.halted ==> Namei.Mounts(old(fs.supers), fs.supers)
    ensures !fs.halted && Namei.AllLocated(fs.blocks, old(fs.inodes)) ==> Namei.AllLocated(fs.blocks, fs.inodes)
  {
    ghost var inodes2 := fs.inodes;
    Namei.Put(fs, m);
    if fs.halted {
      return;
    }
    ghost var inodes3, supers3 := fs.inodes, fs.supers;
    HoldsAfterDrop2(inodes0, inodes2, inodes3, k, m);
    Namei.Put(fs, k);
    if fs.halted {
      return;
    }
    Namei.HoldsAfterDrop(inodes0, inodes3, fs.inodes, k, 0);
    Namei.MountsTrans(old(fs.supers), supers3, fs.supers);
  }

  // ------------------------------------------------------ after the call

  /** No block 1, where every device keeps its super block, has changed. */
  ghost predicate SupersKept(blocks0: map<Buffer.Ident, seq<byte>>, blocks: map<Buffer.Ident, seq<byte>>)
  {
    forall dev: int :: Block(blocks, dev, 1) == Block(blocks0, dev, 1)
  }

  /**
   * How a call leaves the inode table: as `iget` and `iput` keep it, with
   * the references it held when it started, and ready for the next call
   * when no super block was written.
   */
  ghost predicate Settled(fs: FileSystem, inodes0: seq<InodeSlot>, blocks0: map<Buffer.Ident, seq<byte>>)
    reads fs
  {
    !fs.halted ==>
      Namei.Table(fs.supers, fs.inodes) && Namei.Holds(inodes0, fs.inodes, None)
      && (SupersKept(blocks0, fs.blocks) ==> Namei.Ready(fs))
  }

  /**
   * Slots in use after a call hold what they held while the call ran, so
   * they still read their own records when no super block changed.
   */
  lemma LocatedAfter(blocks0: map<Buffer.Ident, seq<byte>>, blocks: map<Buffer.Ident, seq<byte>>,
                     inodes0: seq<InodeSlot>, inodes1: seq<InodeSlot>, inodes: seq<InodeSlot>, k: nat)
    requires Namei.Holds(inodes0, inodes1, Some(k)) && Namei.Holds(inodes0, inodes, None)
    requires Namei.AllLocated(blocks0, inodes1) && SupersKept(blocks0, blocks)
    ensures Namei.AllLocated(blocks, inodes)
  {
    forall j | 0 <= j < |inodes| && inodes[j].dev != EOF
      ensures Namei.Located(blocks, inodes[j])
    {
      assert Block(blocks, inodes[j].dev, 1) == Block(blocks0, inodes[j].dev, 1);
    }
  }

  /** The end of a call that wrote blocks: the references given back, and ready again if no super block changed. */
  lemma SettledAfter(fs: FileSystem, inodes0: seq<InodeSlot>, blocks0: map<Buffer.Ident, seq<byte>>, inodes1: seq<InodeSlot>, k: nat)
    requires fs.Valid() && !fs.halted && Namei.Counted(inodes0, fs.task)
    requires Namei.Table(fs.supers, fs.inodes) && Namei.Holds(inodes0, fs.inodes, None)
    requires Namei.Holds(inodes0, inodes1, Some(k)) && Namei.AllLocated(blocks0, inodes1)
    ensures Settled(fs, inodes0, blocks0)
  {
    if SupersKept(blocks0, fs.blocks) {
      LocatedAfter(blocks0, fs.blocks, inodes0, inodes1, fs.inodes, k);
      Namei.HoldsRoots(inodes0, fs.inodes, fs.task, None);
    }
  }

  // --------------------------------------------------------------- unlink

  /**
   * The checks `unlink` makes on directory `d` before it writes: a last
   * component at `p`, write permission on the directory, an entry of that
   * name, and an inode behind it that is no directory and that the sticky
   * bit does not keep from the caller.
   */
  ghost predicate Removable(blocks: map<Buffer.Ident, seq<byte>>, d: InodeSlot, path: seq<byte>, p: nat, uid: nat)
    requires d.index < BLOCK_INODES
  {
    Path.At(path, p) != EOS && Path.Permission(Desc(blocks, d), uid, Path.P_WRITE)
    && match Dir.Lookup(blocks, d, path, p)
       case None => false
       case Some((i, _)) =>
         var t := Desc(blocks, Namei.Home(blocks, d.dev, Dir.EntryAt(blocks, d, i).nr));
         !IsDir(t.mode) && !(Sticky(t.mode) && uid != t.uid)
  }

  /**
   * Entry `k` of zone `z` of `dev` with its inode number cleared, then the
   * link count of inode `t` one lower (in `uint8`).
   */
  function Cleared(blocks: map<Buffer.Ident, seq<byte>>, dev: int, z: nat, k: nat, t: InodeSlot): map<Buffer.Ident, seq<byte>>
    requires k < BLOCK_DENTRIES && t.index < BLOCK_INODES
  {
    var b := Dir.PutEntry(blocks, dev, z, k, DentryAt(Block(blocks, dev, z), k).(nr := 0));
    PutDesc(b, t, Desc(b, t).(nlinks := (Desc(b, t).nlinks + 255) % 256))
  }

  /**
   * What `unlink` writes for entry `i` of directory `d`, naming inode `t`:
   * the entry cleared and the link count lowered; at no links left, the
   * inode's zones freed and its bit in the inode map cleared. The flag
   * says the kernel halted on the way.
   */
  function Unlinking(blocks: map<Buffer.Ident, seq<byte>>, supers: seq<SuperSlot>, d: InodeSlot, i: nat, t: InodeSlot, now: nat)
    : (map<Buffer.Ident, seq<byte>>, bool)
    requires d.index < BLOCK_INODES && t.index < BLOCK_INODES && i < Dir.MAX_ENTRIES && now < U32_LIMIT
  {
    FreeIfUnlinked(Cleared(blocks, d.dev, Bmap.Resolve(blocks, d, i / BLOCK_DENTRIES), i % BLOCK_DENTRIES, t), supers, t, now)
  }

  /** The end of `unlink`: at no links left, inode `t`'s zones freed and its bit in the inode map cleared. */
  function FreeIfUnlinked(blocks: map<Buffer.Ident, seq<byte>>, supers: seq<SuperSlot>, t: InodeSlot, now: nat)
    : (map<Buffer.Ident, seq<byte>>, bool)
    requires t.index < BLOCK_INODES && now < U32_LIMIT
  {
    if Desc(blocks, t).nlinks != 0 then (blocks, false)
    else
      var c := Inode.Truncated(blocks, t, supers, now);
      if c.1 then c else Bmap.Release(c.0, t.dev, Bmap.InodeMaps(supers, t.dev), 0, SuperOf(c.0, t.dev).inodes, t.nr)
  }

  /** What `unlink` writes for the component at `p` found in directory `d`. */
  function UnlinkEffect(blocks: map<Buffer.Ident, seq<byte>>, supers: seq<SuperSlot>, d: InodeSlot, path: seq<byte>, p: nat, now: nat)
    : (map<Buffer.Ident, seq<byte>>, bool)
    requires d.index < BLOCK_INODES && now < U32_LIMIT && Dir.Lookup(blocks, d, path, p).Some?
  {
    var i := Dir.Lookup(blocks, d, path, p).value.0;
    Unlinking(blocks, supers, d, i, Namei.Home(blocks, d.dev, Dir.EntryAt(blocks, d, i).nr), now)
  }

  /** Two slots that read the same records unlink alike, under super tables with the same maps. */
  lemma UnlinkingAt(blocks: map<Buffer.Ident, seq<byte>>, supers: seq<SuperSlot>, supers': seq<SuperSlot>,
                    d: InodeSlot, d': InodeSlot, i: nat, t: InodeSlot, t': InodeSlot, now: nat)
    requires d.index < BLOCK_INODES && d.dev == d'.dev && d.block == d'.block && d.index == d'.index
    requires t.index < BLOCK_INODES && Namei.Same(t, t') && i < Dir.MAX_ENTRIES && now < U32_LIMIT
    requires Bmap.ZoneMaps(supers, t.dev) == Bmap.ZoneMaps(supers', t.dev)
    requires Bmap.InodeMaps(supers, t.dev) == Bmap.InodeMaps(supers', t.dev)
    ensures Unlinking(blocks, supers, d, i, t, now) == Unlinking(blocks, supers', d', i, t', now)
  {
    assert Desc(blocks, d) == Desc(blocks, d');
    var z := Bmap.Resolve(blocks, d, i / BLOCK_DENTRIES);
    assert z == Bmap.Resolve(blocks, d', i / BLOCK_DENTRIES);
    ClearedAt(blocks, d.dev, z, i % BLOCK_DENTRIES, t, t');
    FreeAt(Cleared(blocks, d.dev, z, i % BLOCK_DENTRIES, t), supers, supers', t, t', now);
  }

  /** Lowering the link count through either of two slots for one record writes the same. */
  lemma ClearedAt(blocks: map<Buffer.Ident, seq<byte>>, dev: int, z: nat, k: nat, t: InodeSlot, t': InodeSlot)
    requires k < BLOCK_DENTRIES && t.index < BLOCK_INODES && Namei.Same(t, t')
    ensures Cleared(blocks, dev, z, k, t) == Cleared(blocks, dev, z, k, t')
  {
  }

  /** Freeing through either of two slots for one inode writes the same. */
  lemma FreeAt(blocks: map<Buffer.Ident, seq<byte>>, supers: seq<SuperSlot>, supers': seq<SuperSlot>, t: InodeSlot, t': InodeSlot, now: nat)
    requires t.index < BLOCK_INODES && Namei.Same(t, t') && now < U32_LIMIT
    requires Bmap.ZoneMaps(supers, t.dev) == Bmap.ZoneMaps(supers', t.dev)
    requires Bmap.InodeMaps(supers, t.dev) == Bmap.InodeMaps(supers', t.dev)
    ensures FreeIfUnlinked(blocks, supers, t, now) == FreeIfUnlinked(blocks, supers', t', now)
  {
    Inode.TruncatedAt(blocks, t, t', supers, supers', now);
  }

  /**
   * How `unlink` ended, for the walk `w` that `named` makes on `dev`: a
   * walk that hangs never returns; otherwise the call succeeds exactly when
   * the walk reaches a directory where the entry can be removed, and then
   * it wrote what `UnlinkEffect` says; when it fails, nothing was written.
   */
  ghost predicate UnlinkOutcome(blocks0: map<Buffer.Ident, seq<byte>>, supers: seq<SuperSlot>, blocks: map<Buffer.Ident, seq<byte>>,
                                halted: bool, dev: int, w: Namei.Walk, path: seq<byte>, uid: nat, now: nat, r: int)
    requires now < U32_LIMIT
  {
    (w.Hangs? ==> halted)
    && if w.Reaches? then UnlinkedAt(blocks0, supers, blocks, halted, Namei.Home(blocks0, dev, w.nr), path, w.next, uid, now, r)
       else !halted ==> r == EOF && blocks == blocks0
  }

  /** How `unlink` ended once `named` gave directory `d` with the last component at `p`. */
  ghost predicate UnlinkedAt(blocks0: map<Buffer.Ident, seq<byte>>, supers: seq<SuperSlot>, blocks: map<Buffer.Ident, seq<byte>>,
                             halted: bool, d: InodeSlot, path: seq<byte>, p: nat, uid: nat, now: nat, r: int)
    requires d.index < BLOCK_INODES && now < U32_LIMIT
  {
    !halted ==>
      (r == 0 || r == EOF)
      && (r == 0 <==> Removable(blocks0, d, path, p, uid))
      && (r == EOF ==> blocks == blocks0)
      && (r == 0 ==> Dir.Lookup(blocks0, d, path, p).Some? && (blocks, false) == UnlinkEffect(blocks0, supers, d, path, p, now))
  }

  /**
   * `sys_unlink`: remove the entry the last component names from its
   * directory, lower the inode's link count and, at no links left, free
   * the inode and its zones.
   */
  method Unlink(fs: FileSystem, path: seq<byte>, now: nat) returns (r: int)
    requires Namei.Ready(fs) && Namei.Headroom(fs.inodes, 2) && now < U32_LIMIT
    modifies fs
    ensures fs.Valid() && fs.files == old(fs.files) && fs.task == old(fs.task)
    ensures Settled(fs, old(fs.inodes), old(fs.blocks))
    ensures var start := old(fs.inodes[Namei.StartSlot(fs.task, path)]);
      UnlinkOutcome(old(fs.blocks), fs.supers, fs.blocks, fs.halted, start.dev,
                    Namei.NamedWalk(old(fs.blocks), start.dev, start.nr, path, fs.task.uid), path, fs.task.uid, now, r)
  {
    ghost var inodes0 := fs.inodes;
    assert Namei.Counted(inodes0, fs.task);
    ghost var start := fs.inodes[Namei.StartSlot(fs.task, path)];
    var dir, next := Namei.Named(fs, path, now);
    if Path.At(path, 0) == EOS || fs.halted || dir.None? {
      return EOF;
    }
    r := UnlinkAt(fs, dir.value, path, next, now, inodes0, fs.inodes[dir.value].dev);
  }

  /** `unlink` once `named` gave directory slot `d`, with the last component at `p`. */
  method UnlinkAt(fs: FileSystem, d: nat, path: seq<byte>, p: nat, now: nat, ghost inodes0: seq<InodeSlot>, dev: int)
    returns (r: int)
    requires Namei.Counted(inodes0, fs.task) && Namei.Headroom(inodes0, 2) && Namei.Ready(fs) && d < INODE_NR
    requires Namei.Holds(inodes0, fs.inodes, Some(d)) && fs.inodes[d].dev == dev && now < U32_LIMIT
    modifies fs
    ensures fs.Valid() && fs.files == old(fs.files) && fs.task == old(fs.task)
    ensures Settled(fs, inodes0, old(fs.blocks))
    ensures UnlinkedAt(old(fs.blocks), fs.supers, fs.blocks, fs.halted, Namei.Home(old(fs.blocks), dev, old(fs.inodes[d].nr)),
                       path, p, fs.task.uid, now, r)
  {
    ghost var s := Namei.Home(fs.blocks, dev, fs.inodes[d].nr);
    assert Namei.Located(fs.blocks, fs.inodes[d]);
    Namei.AtHome(fs.blocks, fs.inodes[d]);
    if Path.At(path, p) == EOS || !Path.Permission(Desc(fs.blocks, fs.inodes[d]), fs.task.uid, Path.P_WRITE) {
      Namei.Drop(fs, d, inodes0);
      return EOF;
    }
    var found, z := Dir.FindEntry(fs, d, path, p);
    if fs.halted {
      return EOF;
    }
    if found.None? {
      Namei.Drop(fs, d, inodes0);
      return EOF;
    }
    var i := found.value.0;
    var nr := DentryAt(Block(fs.blocks, dev, z), i % BLOCK_DENTRIES).nr;
    assert nr == Dir.EntryAt(fs.blocks, s, i).nr;
    r := UnlinkEntry(fs, d, i, z, nr, now, inodes0, dev);
  }

  /**
   * The second half of `unlink`: take inode `nr`, which entry `i` of
   * directory slot `d` names, check it, and clear the entry.
   */
  method UnlinkEntry(fs: FileSystem, d: nat, i: nat, z: nat, nr: nat, now: nat, ghost inodes0: seq<InodeSlot>, dev: int)
    returns (r: int)
    requires Namei.Counted(inodes0, fs.task) && Namei.Headroom(inodes0, 2) && Namei.Ready(fs) && d < INODE_NR
    requires Namei.Holds(inodes0, fs.inodes, Some(d)) && fs.inodes[d].dev == dev && now < U32_LIMIT
    requires i < Dir.MAX_ENTRIES && z == Bmap.Resolve(fs.blocks, fs.inodes[d], i / BLOCK_DENTRIES)
    modifies fs
    ensures fs.Valid() && fs.files == old(fs.files) && fs.task == old(fs.task)
    ensures Settled(fs, inodes0, old(fs.blocks))
    ensures var ts := Namei.Home(old(fs.blocks), dev, nr); var t := Desc(old(fs.blocks), ts);
      !fs.halted ==>
        (r == 0 || r == EOF) && (r == 0 <==> !IsDir(t.mode) && !(Sticky(t.mode) && fs.task.uid != t.uid))
        && (r == EOF ==> fs.blocks == old(fs.blocks))
        && (r == 0 ==> (fs.blocks, false) == Unlinking(old(fs.blocks), fs.supers, Namei.Home(old(fs.blocks), dev, old(fs.inodes[d].nr)), i, ts, now))
  {
    ghost var inodes1 := fs.inodes;
    assert Namei.Located(fs.blocks, fs.inodes[d]);
    Namei.HoldsHeadroom(inodes0, inodes1, Some(d), 1);
    var m := Namei.Get(fs, dev, nr, now);
    if fs.halted {
      return EOF;
    }
    HoldsAfterGot2(inodes0, inodes1, fs.inodes, d, m);
    assert Namei.Located(fs.blocks, fs.inodes[m]);
    r := UnlinkTarget(fs, d, m, i, z, now, inodes0, inodes1,
                      Namei.Home(fs.blocks, dev, inodes1[d].nr), Namei.Home(fs.blocks, dev, nr));
  }

  /**
   * `unlink` holding directory slot `d` and the inode its entry `i` names,
   * slot `m`, which read the records of `ds` and `ts`: refuse a directory
   * or an inode the sticky bit keeps, else clear the entry; then release
   * both.
   */
  method UnlinkTarget(fs: FileSystem, d: nat, m: nat, i: nat, z: nat, now: nat,
                      ghost inodes0: seq<InodeSlot>, ghost inodes1: seq<InodeSlot>, ghost ds: InodeSlot, ghost ts: InodeSlot)
    returns (r: int)
    requires fs.Valid() && !fs.halted && d < INODE_NR && m < INODE_NR && Namei.Counted(inodes0, fs.task) && now < U32_LIMIT
    requires Namei.Table(fs.supers, fs.inodes) && Holds2(inodes0, fs.inodes, d, m)
    requires Namei.Holds(inodes0, inodes1, Some(d)) && Namei.AllLocated(fs.blocks, inodes1) && Namei.AllLocated(fs.blocks, fs.inodes)
    requires ds.index < BLOCK_INODES && Namei.Same(fs.inodes[d], ds) && ts.index < BLOCK_INODES && Namei.Same(fs.inodes[m], ts)
    requires i < Dir.MAX_ENTRIES && z == Bmap.Resolve(fs.blocks, fs.inodes[d], i / BLOCK_DENTRIES)
    modifies fs
    ensures fs.Valid() && fs.files == old(fs.files) && fs.task == old(fs.task)
    ensures Settled(fs, inodes0, old(fs.blocks))
    ensures var t := Desc(old(fs.blocks), ts);
      !fs.halted ==>
        (r == 0 || r == EOF) && (r == 0 <==> !IsDir(t.mode) && !(Sticky(t.mode) && fs.task.uid != t.uid))
        && (r == EOF ==> fs.blocks == old(fs.blocks))
        && (r == 0 ==> (fs.blocks, false) == Unlinking(old(fs.blocks), fs.supers, ds, i, ts, now))
  {
    ghost var blocks0 := fs.blocks;
    var t := Desc(fs.blocks, fs.inodes[m]);
    if IsDir(t.mode) || (Sticky(t.mode) && fs.task.uid != t.uid) {
      Release2(fs, d, m, inodes0);
      if !fs.halted {
        SettledAfter(fs, inodes0, blocks0, inodes1, d);
      }
      return EOF;
    }
    ghost var dslot, tslot, supers2 := fs.inodes[d], fs.inodes[m], fs.supers;
    Erase(fs, d, m, i, z, now);
    if fs.halted {
      return EOF;
    }
    Release2(fs, d, m, inodes0);
    if fs.halted {
      return 0;
    }
    SettledAfter(fs, inodes0, blocks0, inodes1, d);
    Namei.MountsMaps(supers2, fs.supers, tslot.dev);
    UnlinkingAt(blocks0, supers2, fs.supers, dslot, ds, i, tslot, ts, now);
    r := 0;
  }

  /** The writes of `unlink` on entry `i` of directory slot `d`, which names the inode in slot `m`. */
  method Erase(fs: FileSystem, d: nat, m: nat, i: nat, z: nat, now: nat)
    requires fs.Valid() && !fs.halted && d < INODE_NR && m < INODE_NR && i < Dir.MAX_ENTRIES && now < U32_LIMIT
    requires z == Bmap.Resolve(fs.blocks, fs.inodes[d], i / BLOCK_DENTRIES)
    modifies fs
    ensures fs.Valid() && fs.supers == old(fs.supers) && fs.inodes == old(fs.inodes) && fs.files == old(fs.files) && fs.task == old(fs.task)
    ensures (fs.blocks, fs.halted) == Unlinking(old(fs.blocks), fs.supers, fs.inodes[d], i, fs.inodes[m], now)
  {
    var t := fs.inodes[m];
    ClearEntry(fs, fs.inodes[d].dev, z, i % BLOCK_DENTRIES, t);
    if Desc(fs.blocks, t).nlinks == 0 {
      Inode.InodeTruncate(fs, m, now);
      if !fs.halted {
        Bmap.Ifree(fs, t.dev, t.nr);
      }
    }
  }

  /** Entry `k` of zone `z` cleared and inode `t`'s link count lowered, on the block contents. */
  method ClearEntry(fs: FileSystem, dev: int, z: nat, k: nat, t: InodeSlot)
    requires fs.Valid() && k < BLOCK_DENTRIES && t.index < BLOCK_INODES
    modifies fs
    ensures fs.Valid() && fs.supers == old(fs.supers) && fs.inodes == old(fs.inodes) && fs.files == old(fs.files)
    ensures fs.task == old(fs.task) && fs.halted == old(fs.halted)
    ensures fs.blocks == Cleared(old(fs.blocks), dev, z, k, t)
  {
    Bmap.Commit(fs, Cleared(fs.blocks, dev, z, k, t), fs.halted);
  }

  // ---------------------------------------------------------------- rmdir

  /** The inode numbers of entries `0 .. n - 1` of directory `s`, in order. */
  function Numbers(blocks: map<Buffer.Ident, seq<byte>>, s: InodeSlot, n: nat): (r: seq<nat>)
    requires s.index < BLOCK_INODES && n <= Dir.MAX_ENTRIES
    ensures |r| == n
  {
    seq(n, k requires 0 <= k < n => Dir.EntryAt(blocks, s, k).nr)
  }

  /** How many of the first `n` inode numbers of `nrs` are in use (not 0). */
  function Live(nrs: seq<nat>, n: nat): nat
    requires n <= |nrs|
  {
    if n == 0 then 0 else Live(nrs, n - 1) + (if nrs[n - 1] != 0 then 1 else 0)
  }

  /** `Live` counts exactly the set of positions in use. */
  lemma {:induction false} LiveIsCount(nrs: seq<nat>, n: nat)
    requires n <= |nrs|
    ensures Live(nrs, n) == |set k | 0 <= k < n && nrs[k] != 0|
  {
    if n > 0 {
      LiveIsCount(nrs, n - 1);
      var before := set k | 0 <= k < n - 1 && nrs[k] != 0;
      var after := set k | 0 <= k < n && nrs[k] != 0;
      assert after == before + (if nrs[n - 1] != 0 then {n - 1} else {}) by {
        forall k | k in after
          ensures k in before || k == n - 1
        {
        }
      }
    }
  }

  /**
   * What `is_empty` is meant to decide for directory `s`: zone 0 present,
   * at least two entries, and exactly two of them in use (`.` and `..`).
   */
  ghost predicate Empty(blocks: map<Buffer.Ident, seq<byte>>, s: InodeSlot)
    requires s.index < BLOCK_INODES
  {
    var e := Dir.Entries(blocks, s);
    2 <= e <= Dir.MAX_ENTRIES && Desc(blocks, s).zone[0] != 0 && Live(Numbers(blocks, s, e), e) == 2
  }

  /** Two slots for one record list the same inode numbers. */
  lemma NumbersAt(blocks: map<Buffer.Ident, seq<byte>>, s: InodeSlot, t: InodeSlot, n: nat)
    requires s.index < BLOCK_INODES && s.dev == t.dev && s.block == t.block && s.index == t.index && n <= Dir.MAX_ENTRIES
    ensures Numbers(blocks, s, n) == Numbers(blocks, t, n)
  {
    forall k | 0 <= k < n
      ensures Numbers(blocks, s, n)[k] == Numbers(blocks, t, n)[k]
    {
      assert Bmap.Resolve(blocks, s, k / BLOCK_DENTRIES) == Bmap.Resolve(blocks, t, k / BLOCK_DENTRIES);
    }
  }

  /**
   * `is_empty` as the source writes it: the loop reads block 0 once and
   * never advances `entry`, so each of the `entries` rounds counts entry 0.
   */
  function IsEmptyAsWritten(blocks: map<Buffer.Ident, seq<byte>>, s: InodeSlot): bool
    requires s.index < BLOCK_INODES
  {
    var e := Dir.Entries(blocks, s);
    if e < 2 || Desc(blocks, s).zone[0] == 0 then false
    else
      var count := if Dir.EntryAt(blocks, s, 0).nr != 0 then e else 0;
      count >= 2 && count == 2
  }

  /** As written, `is_empty` holds exactly for a directory of two entries whose first is in use. */
  lemma AsWrittenCountsSize(blocks: map<Buffer.Ident, seq<byte>>, s: InodeSlot)
    requires s.index < BLOCK_INODES
    ensures IsEmptyAsWritten(blocks, s) <==>
      Dir.Entries(blocks, s) == 2 && Desc(blocks, s).zone[0] != 0 && Dir.EntryAt(blocks, s, 0).nr != 0
  {
  }

  /**
   * A directory that once held a third entry, since unlinked, is empty,
   * yet `is_empty` as written refuses it: its size still counts three.
   */
  lemma AsWrittenKeepsEmptied(blocks: map<Buffer.Ident, seq<byte>>, s: InodeSlot)
    requires s.index < BLOCK_INODES && Dir.Entries(blocks, s) == 3 && Desc(blocks, s).zone[0] != 0
    requires Dir.EntryAt(blocks, s, 0).nr != 0 && Dir.EntryAt(blocks, s, 1).nr != 0 && Dir.EntryAt(blocks, s, 2).nr == 0
    ensures !IsEmptyAsWritten(blocks, s) && Empty(blocks, s)
  {
    var nrs := Numbers(blocks, s, 3);
    assert nrs[0] != 0 && nrs[1] != 0 && nrs[2] == 0;
    assert Live(nrs, 1) == 1;
    assert Live(nrs, 2) == 2;
  }

  /**
   * `is_empty`, with the loop advancing `entry` as intended: the kernel
   * halts on a slot that is no directory and on a directory too large for
   * `bmap`; otherwise the answer is `Empty`.
   */
  method IsEmpty(fs: FileSystem, m: nat) returns (r: bool)
    requires fs.Valid() && !fs.halted && m < INODE_NR
    modifies fs
    ensures fs.Valid() && fs.blocks == old(fs.blocks) && fs.supers == old(fs.supers) && fs.inodes == old(fs.inodes)
    ensures fs.files == old(fs.files) && fs.task == old(fs.task)
    ensures var s := fs.inodes[m]; var d := Desc(fs.blocks, s); var e := Dir.Entries(fs.blocks, s);
      fs.halted <==> !IsDir(d.mode) || (2 <= e && d.zone[0] != 0 && e > Dir.MAX_ENTRIES)
    ensures if fs.halted then !r else r == Empty(fs.blocks, fs.inodes[m])
  {
    var s := fs.inodes[m];
    var d := Desc(fs.blocks, s);
    if !IsDir(d.mode) {
      fs.halted := true;
      return false;
    }
    var e := Dir.Entries(fs.blocks, s);
    if e < 2 || d.zone[0] == 0 {
      return false;
    }
    if e > Dir.MAX_ENTRIES {
      fs.halted := true;
      return false;
    }
    var count := CountLive(fs.blocks, s, e);
    if count < 2 {
      return false;
    }
    r := count == 2;
  }

  /** The loop of `is_empty`: count the entries in use among the first `n`, reading a zone at each block boundary. */
  method CountLive(blocks: map<Buffer.Ident, seq<byte>>, s: InodeSlot, n: nat) returns (count: nat)
    requires s.index < BLOCK_INODES && n <= Dir.MAX_ENTRIES
    ensures count == Live(Numbers(blocks, s, n), n)
  {
    var i: nat, z: nat := 0, 0;
    count := 0;
    while i < n
      invariant Counting(blocks, s, n, i, z, count)
    {
      z, count := Tally(blocks, s, n, i, z, count);
      i := i + 1;
    }
  }

  /** What the loop of `is_empty` keeps: `count` entries in use among the first `i`, and the zone of the current block. */
  ghost predicate Counting(blocks: map<Buffer.Ident, seq<byte>>, s: InodeSlot, n: nat, i: nat, z: nat, count: nat)
  {
    s.index < BLOCK_INODES && i <= n <= Dir.MAX_ENTRIES && count == Live(Numbers(blocks, s, n), i)
    && (i % BLOCK_DENTRIES != 0 ==> z == Bmap.Resolve(blocks, s, i / BLOCK_DENTRIES))
  }

  /** One round of `is_empty`'s loop: entry `i` read and counted when in use. */
  method Tally(blocks: map<Buffer.Ident, seq<byte>>, s: InodeSlot, n: nat, i: nat, z: nat, count: nat) returns (z': nat, count': nat)
    requires Counting(blocks, s, n, i, z, count) && i < n
    ensures Counting(blocks, s, n, i + 1, z', count')
  {
    var nr;
    nr, z' := Peek(blocks, s, n, i, z);
    count' := if nr != 0 then count + 1 else count;
    Dir.EntryStep(i);
  }

  /** One step of `is_empty`'s loop: the zone of the current block, read afresh on a block boundary, and entry `i`'s inode number. */
  method Peek(blocks: map<Buffer.Ident, seq<byte>>, s: InodeSlot, n: nat, i: nat, z: nat) returns (nr: nat, z': nat)
    requires s.index < BLOCK_INODES && i < n <= Dir.MAX_ENTRIES
    requires i % BLOCK_DENTRIES != 0 ==> z == Bmap.Resolve(blocks, s, i / BLOCK_DENTRIES)
    ensures z' == Bmap.Resolve(blocks, s, i / BLOCK_DENTRIES)
    ensures nr == Numbers(blocks, s, n)[i]
  {
    z' := z;
    if i % BLOCK_DENTRIES == 0 {
      z' := Bmap.Resolve(blocks, s, i / BLOCK_DENTRIES);
    }
    nr := DentryAt(Block(blocks, s.dev, z'), i % BLOCK_DENTRIES).nr;
  }

  /**
   * The checks `rmdir` makes on directory `d` before it writes: a last
   * component at `p`, write permission on the directory, an entry of that
   * name naming a directory other than `d` itself that the sticky bit on
   * `d` does not keep from the caller, that no slot of `inodes0` holds, and
   * that is empty.
   */
  ghost predicate Rmdirable(blocks: map<Buffer.Ident, seq<byte>>, inodes0: seq<InodeSlot>, d: InodeSlot, path: seq<byte>, p: nat, uid: nat)
    requires d.index < BLOCK_INODES
  {
    Path.At(path, p) != EOS && Path.Permission(Desc(blocks, d), uid, Path.P_WRITE)
    && match Dir.Lookup(blocks, d, path, p)
       case None => false
       case Some((i, _)) =>
         Doomed(blocks, inodes0, d, Namei.Home(blocks, d.dev, Dir.EntryAt(blocks, d, i).nr), uid)
  }

  /**
   * The checks `rmdir` makes on the inode `ts` an entry of directory `d`
   * names: a directory other than `d` itself, not kept from the caller by
   * the sticky bit on `d`, held by no slot of `inodes0`, and empty.
   */
  ghost predicate Doomed(blocks: map<Buffer.Ident, seq<byte>>, inodes0: seq<InodeSlot>, d: InodeSlot, ts: InodeSlot, uid: nat)
    requires d.index < BLOCK_INODES && ts.index < BLOCK_INODES
  {
    var t := Desc(blocks, ts);
    IsDir(t.mode) && !(Sticky(Desc(blocks, d).mode) && uid != t.uid)
    && ts.nr != d.nr && !Namei.InCore(inodes0, d.dev, ts.nr) && Empty(blocks, ts)
  }

  /**
   * What `rmdir` writes for the directory `t` whose entry is entry `k` of
   * zone `z` of directory `d`: `t`'s zones freed, its bit in the inode map
   * cleared, its link count 0; `d`'s link count one lower and its
   * modification time `now`; the entry's inode number cleared. The flag
   * says the kernel halted on the way.
   */
  function Rmdiring(blocks: map<Buffer.Ident, seq<byte>>, supers: seq<SuperSlot>, d: InodeSlot, z: nat, k: nat, t: InodeSlot, now: nat)
    : (map<Buffer.Ident, seq<byte>>, bool)
    requires d.index < BLOCK_INODES && t.index < BLOCK_INODES && k < BLOCK_DENTRIES && now < U32_LIMIT
  {
    var c := Inode.Truncated(blocks, t, supers, now);
    if c.1 then c
    else
      var f := Bmap.Release(c.0, t.dev, Bmap.InodeMaps(supers, t.dev), 0, SuperOf(c.0, t.dev).inodes, t.nr);
      if f.1 then f else (Detached(f.0, d, z, k, t, now), false)
  }

  /** The record writes at the end of `rmdir`. */
  function Detached(blocks: map<Buffer.Ident, seq<byte>>, d: InodeSlot, z: nat, k: nat, t: InodeSlot, now: nat): map<Buffer.Ident, seq<byte>>
    requires d.index < BLOCK_INODES && t.index < BLOCK_INODES && k < BLOCK_DENTRIES && now < U32_LIMIT
  {
    var b1 := PutDesc(blocks, t, Desc(blocks, t).(nlinks := 0));
    var b2 := PutDesc(b1, d, Desc(b1, d).(nlinks := (Desc(b1, d).nlinks + 255) % 256, mtime := now));
    Dir.PutEntry(b2, d.dev, z, k, DentryAt(Block(b2, d.dev, z), k).(nr := 0))
  }

  /** What `rmdir` writes for the component at `p` found in directory `d`. */
  function RmdirEffect(blocks: map<Buffer.Ident, seq<byte>>, supers: seq<SuperSlot>, d: InodeSlot, path: seq<byte>, p: nat, now: nat)
    : (map<Buffer.Ident, seq<byte>>, bool)
    requires d.index < BLOCK_INODES && now < U32_LIMIT && Dir.Lookup(blocks, d, path, p).Some?
  {
    var i := Dir.Lookup(blocks, d, path, p).value.0;
    Rmdiring(blocks, supers, d, Bmap.Resolve(blocks, d, i / BLOCK_DENTRIES), i % BLOCK_DENTRIES,
             Namei.Home(blocks, d.dev, Dir.EntryAt(blocks, d, i).nr), now)
  }

  /** Two pairs of slots that read the same records remove alike, under super tables with the same maps. */
  lemma RmdiringAt(blocks: map<Buffer.Ident, seq<byte>>, supers: seq<SuperSlot>, supers': seq<SuperSlot>,
                   d: InodeSlot, d': InodeSlot, z: nat, k: nat, t: InodeSlot, t': InodeSlot, now: nat)
    requires d.index < BLOCK_INODES && d.dev == d'.dev && d.block == d'.block && d.index == d'.index
    requires t.index < BLOCK_INODES && Namei.Same(t, t') && k < BLOCK_DENTRIES && now < U32_LIMIT
    requires Bmap.ZoneMaps(supers, t.dev) == Bmap.ZoneMaps(supers', t.dev)
    requires Bmap.InodeMaps(supers, t.dev) == Bmap.InodeMaps(supers', t.dev)
    ensures Rmdiring(blocks, supers, d, z, k, t, now) == Rmdiring(blocks, supers', d', z, k, t', now)
  {
    Inode.TruncatedAt(blocks, t, t', supers, supers', now);
    var c := Inode.Truncated(blocks, t, supers, now);
    if !c.1 {
      var f := Bmap.Release(c.0, t.dev, Bmap.InodeMaps(supers, t.dev), 0, SuperOf(c.0, t.dev).inodes, t.nr);
      DetachedAt(f.0, d, d', z, k, t, t', now);
    }
  }

  /** The record writes of `rmdir` through slots for the same records are the same. */
  lemma DetachedAt(blocks: map<Buffer.Ident, seq<byte>>, d: InodeSlot, d': InodeSlot, z: nat, k: nat, t: InodeSlot, t': InodeSlot, now: nat)
    requires d.index < BLOCK_INODES && d.dev == d'.dev && d.block == d'.block && d.index == d'.index
    requires t.index < BLOCK_INODES && Namei.Same(t, t') && k < BLOCK_DENTRIES && now < U32_LIMIT
    ensures Detached(blocks, d, z, k, t, now) == Detached(blocks, d', z, k, t', now)
  {
  }

  /** How `rmdir` ended, for the walk `w` that `named` makes on `dev` from the table `inodes0`. */
  ghost predicate RmdirOutcome(blocks0: map<Buffer.Ident, seq<byte>>, inodes0: seq<InodeSlot>, supers: seq<SuperSlot>,
                               blocks: map<Buffer.Ident, seq<byte>>, halted: bool, dev: int, w: Namei.Walk, path: seq<byte>,
                               uid: nat, now: nat, r: int)
    requires now < U32_LIMIT
  {
    (w.Hangs? ==> halted)
    && if w.Reaches? then RmdirAtOutcome(blocks0, inodes0, supers, blocks, halted, Namei.Home(blocks0, dev, w.nr), path, w.next, uid, now, r)
       else !halted ==> r == EOF && blocks == blocks0
  }

  /** How `rmdir` ended once `named` gave directory `d` with the last component at `p`. */
  ghost predicate RmdirAtOutcome(blocks0: map<Buffer.Ident, seq<byte>>, inodes0: seq<InodeSlot>, supers: seq<SuperSlot>,
                                 blocks: map<Buffer.Ident, seq<byte>>, halted: bool, d: InodeSlot, path: seq<byte>, p: nat,
                                 uid: nat, now: nat, r: int)
    requires d.index < BLOCK_INODES && now < U32_LIMIT
  {
    !halted ==>
      (r == 0 || r == EOF)
      && (r == 0 <==> Rmdirable(blocks0, inodes0, d, path, p, uid))
      && (r == EOF ==> blocks == blocks0)
      && (r == 0 ==> Dir.Lookup(blocks0, d, path, p).Some? && (blocks, false) == RmdirEffect(blocks0, supers, d, path, p, now))
  }

  /**
   * `sys_rmdir`: remove the empty directory the last component names,
   * when nothing else holds it.
   */
  method Rmdir(fs: FileSystem, path: seq<byte>, now: nat) returns (r: int)
    requires Namei.Ready(fs) && Namei.Headroom(fs.inodes, 2) && now < U32_LIMIT
    modifies fs
    ensures fs.Valid() && fs.files == old(fs.files) && fs.task == old(fs.task)
    ensures Settled(fs, old(fs.inodes), old(fs.blocks))
    ensures var start := old(fs.inodes[Namei.StartSlot(fs.task, path)]);
      RmdirOutcome(old(fs.blocks), old(fs.inodes), fs.supers, fs.blocks, fs.halted, start.dev,
                   Namei.NamedWalk(old(fs.blocks), start.dev, start.nr, path, fs.task.uid), path, fs.task.uid, now, r)
  {
    ghost var inodes0 := fs.inodes;
    assert Namei.Counted(inodes0, fs.task);
    var dir, next := Namei.Named(fs, path, now);
    if Path.At(path, 0) == EOS || fs.halted || dir.None? {
      return EOF;
    }
    r := RmdirAt(fs, dir.value, path, next, now, inodes0, fs.inodes[dir.value].dev);
  }

  /** `rmdir` once `named` gave directory slot `d`, with the last component at `p`. */
  method RmdirAt(fs: FileSystem, d: nat, path: seq<byte>, p: nat, now: nat, ghost inodes0: seq<InodeSlot>, dev: int)
    returns (r: int)
    requires Namei.Counted(inodes0, fs.task) && Namei.Headroom(inodes0, 2) && Namei.Ready(fs) && d < INODE_NR
    requires Namei.Holds(inodes0, fs.inodes, Some(d)) && fs.inodes[d].dev == dev && now < U32_LIMIT
    modifies fs
    ensures fs.Valid() && fs.files == old(fs.files) && fs.task == old(fs.task)
    ensures Settled(fs, inodes0, old(fs.blocks))
    ensures RmdirAtOutcome(old(fs.blocks), inodes0, fs.supers, fs.blocks, fs.halted, Namei.Home(old(fs.blocks), dev, old(fs.inodes[d].nr)),
                           path, p, fs.task.uid, now, r)
  {
    ghost var s := Namei.Home(fs.blocks, dev, fs.inodes[d].nr);
    assert Namei.Located(fs.blocks, fs.inodes[d]);
    Namei.AtHome(fs.blocks, fs.inodes[d]);
    if Path.At(path, p) == EOS || !Path.Permission(Desc(fs.blocks, fs.inodes[d]), fs.task.uid, Path.P_WRITE) {
      Namei.Drop(fs, d, inodes0);
      return EOF;
    }
    var found, z := Dir.FindEntry(fs, d, path, p);
    if fs.halted {
      return EOF;
    }
    if found.None? {
      Namei.Drop(fs, d, inodes0);
      return EOF;
    }
    var i := found.value.0;
    var nr := DentryAt(Block(fs.blocks, dev, z), i % BLOCK_DENTRIES).nr;
    assert nr == Dir.EntryAt(fs.blocks, s, i).nr;
    r := RmdirEntry(fs, d, i, z, nr, now, inodes0, dev);
  }

  /** One more reference on directory slot `d` makes inode `nr` in core exactly when it was, or when it is `d`'s. */
  lemma InCoreHeld(inodes0: seq<InodeSlot>, inodes1: seq<InodeSlot>, d: nat, dev: int, nr: nat)
    requires Namei.Holds(inodes0, inodes1, Some(d)) && d < |inodes1| && inodes1[d].dev == dev && dev != EOF
    ensures Namei.InCore(inodes1, dev, nr) <==> Namei.InCore(inodes0, dev, nr) || nr == inodes1[d].nr
  {
    if Namei.InCore(inodes0, dev, nr) {
      var j :| 0 <= j < |inodes0| && inodes0[j].dev == dev && inodes0[j].nr == nr;
      assert inodes1[j].dev == dev && inodes1[j].nr == nr;
    }
  }

  /** The second half of `rmdir`: take inode `nr`, which entry `i` of directory slot `d` names, and check it. */
  method RmdirEntry(fs: FileSystem, d: nat, i: nat, z: nat, nr: nat, now: nat, ghost inodes0: seq<InodeSlot>, dev: int)
    returns (r: int)
    requires Namei.Counted(inodes0, fs.task) && Namei.Headroom(inodes0, 2) && Namei.Ready(fs) && d < INODE_NR
    requires Namei.Holds(inodes0, fs.inodes, Some(d)) && fs.inodes[d].dev == dev && now < U32_LIMIT
    requires i < Dir.MAX_ENTRIES && z == Bmap.Resolve(fs.blocks, fs.inodes[d], i / BLOCK_DENTRIES)
    modifies fs
    ensures fs.Valid() && fs.files == old(fs.files) && fs.task == old(fs.task)
    ensures Settled(fs, inodes0, old(fs.blocks))
    ensures var ts := Namei.Home(old(fs.blocks), dev, nr);
      var ds := Namei.Home(old(fs.blocks), dev, old(fs.inodes[d].nr));
      !fs.halted ==>
        (r == 0 || r == EOF)
        && (r == 0 <==> Doomed(old(fs.blocks), inodes0, ds, ts, fs.task.uid))
        && (r == EOF ==> fs.blocks == old(fs.blocks))
        && (r == 0 ==> (fs.blocks, false) == Rmdiring(old(fs.blocks), fs.supers, ds, z, i % BLOCK_DENTRIES, ts, now))
  {
    ghost var inodes1 := fs.inodes;
    assert Namei.Located(fs.blocks, fs.inodes[d]);
    Namei.HoldsHeadroom(inodes0, inodes1, Some(d), 1);
    var m := Namei.Get(fs, dev, nr, now);
    if fs.halted {
      return EOF;
    }
    HoldsAfterGot2(inodes0, inodes1, fs.inodes, d, m);
    InCoreHeld(inodes0, inodes1, d, dev, nr);
    assert Namei.Located(fs.blocks, fs.inodes[m]);
    r := RmdirTarget(fs, d, m, z, i % BLOCK_DENTRIES, now, inodes0, inodes1,
                     Namei.Home(fs.blocks, dev, inodes1[d].nr), Namei.Home(fs.blocks, dev, nr));
  }

  /**
   * `rmdir` holding directory slot `d` and the inode its entry names,
   * slot `m`, which read the records of `ds` and `ts`: the checks on the
   * inode, then the writes; then release both.
   */
  method RmdirTarget(fs: FileSystem, d: nat, m: nat, z: nat, k: nat, now: nat,
                     ghost inodes0: seq<InodeSlot>, ghost inodes1: seq<InodeSlot>, ghost ds: InodeSlot, ghost ts: InodeSlot)
    returns (r: int)
    requires fs.Valid() && !fs.halted && d < INODE_NR && m < INODE_NR && Namei.Counted(inodes0, fs.task) && now < U32_LIMIT
    requires Namei.Table(fs.supers, fs.inodes) && Holds2(inodes0, fs.inodes, d, m) && k < BLOCK_DENTRIES
    requires Namei.Holds(inodes0, inodes1, Some(d)) && Namei.AllLocated(fs.blocks, inodes1)
    requires ds.index < BLOCK_INODES && Namei.Same(fs.inodes[d], ds) && ts.index < BLOCK_INODES && Namei.Same(fs.inodes[m], ts)
    requires ds.dev == ts.dev && (fs.inodes[m].count > 1 <==> Namei.InCore(inodes0, ds.dev, ts.nr) || ts.nr == ds.nr)
    modifies fs
    ensures fs.Valid() && fs.files == old(fs.files) && fs.task == old(fs.task)
    ensures Settled(fs, inodes0, old(fs.blocks))
    ensures !fs.halted ==>
        (r == 0 || r == EOF)
        && (r == 0 <==> Doomed(old(fs.blocks), inodes0, ds, ts, fs.task.uid))
        && (r == EOF ==> fs.blocks == old(fs.blocks))
        && (r == 0 ==> (fs.blocks, false) == Rmdiring(old(fs.blocks), fs.supers, ds, z, k, ts, now))
  {
    ghost var blocks0 := fs.blocks;
    var ok := Vet(fs, d, m, inodes0, ds, ts);
    if fs.halted {
      return EOF;
    }
    if !ok {
      Release2(fs, d, m, inodes0);
      if !fs.halted {
        SettledAfter(fs, inodes0, blocks0, inodes1, d);
      }
      return EOF;
    }
    if Desc(fs.blocks, fs.inodes[m]).nlinks != 2 {
      fs.halted := true;
      return EOF;
    }
    ghost var dslot, tslot, supers2 := fs.inodes[d], fs.inodes[m], fs.supers;
    Remove(fs, d, m, z, k, now);
    if fs.halted {
      return EOF;
    }
    Forget(fs, d, m, now, inodes0);
    Release2(fs, d, m, inodes0);
    if fs.halted {
      return 0;
    }
    SettledAfter(fs, inodes0, blocks0, inodes1, d);
    Namei.MountsMaps(supers2, fs.supers, tslot.dev);
    RmdiringAt(blocks0, supers2, fs.supers, dslot, ds, z, k, tslot, ts, now);
    r := 0;
  }

  /**
   * The checks of `rmdir` on slot `m`, the inode entry of directory slot
   * `d` names, which read the records of `ts` and `ds`: a directory, the
   * sticky bit, one device, no other holder, and `is_empty`.
   */
  method Vet(fs: FileSystem, d: nat, m: nat, ghost inodes0: seq<InodeSlot>, ghost ds: InodeSlot, ghost ts: InodeSlot) returns (ok: bool)
    requires fs.Valid() && !fs.halted && d < INODE_NR && m < INODE_NR
    requires ds.index < BLOCK_INODES && Namei.Same(fs.inodes[d], ds) && ts.index < BLOCK_INODES && Namei.Same(fs.inodes[m], ts)
    requires ds.dev == ts.dev && (fs.inodes[m].count > 1 <==> Namei.InCore(inodes0, ds.dev, ts.nr) || ts.nr == ds.nr)
    modifies fs
    ensures fs.Valid() && fs.blocks == old(fs.blocks) && fs.supers == old(fs.supers) && fs.inodes == old(fs.inodes)
    ensures fs.files == old(fs.files) && fs.task == old(fs.task)
    ensures !fs.halted ==> (ok <==> Doomed(fs.blocks, inodes0, ds, ts, fs.task.uid))
    ensures ok ==> !fs.halted && fs.inodes[m].count <= 1 && d != m
  {
    var t := Desc(fs.blocks, fs.inodes[m]);
    assert t == Desc(fs.blocks, ts) && Desc(fs.blocks, fs.inodes[d]) == Desc(fs.blocks, ds);
    ok := IsDir(t.mode) && !(Sticky(Desc(fs.blocks, fs.inodes[d]).mode) && fs.task.uid != t.uid);
    ok := ok && fs.inodes[d].dev == fs.inodes[m].dev && fs.inodes[m].count <= 1;
    if ok {
      ok := IsEmpty(fs, m);
      if !fs.halted {
        EmptyAt(fs.blocks, fs.inodes[m], ts);
      }
    }
  }

  /** Two slots for one record agree on `Empty`. */
  lemma EmptyAt(blocks: map<Buffer.Ident, seq<byte>>, s: InodeSlot, t: InodeSlot)
    requires s.index < BLOCK_INODES && s.dev == t.dev && s.block == t.block && s.index == t.index
    ensures Empty(blocks, s) == Empty(blocks, t)
  {
    var e := Dir.Entries(blocks, s);
    if e <= Dir.MAX_ENTRIES {
      NumbersAt(blocks, s, t, e);
    }
  }

  /** The block writes of `rmdir`, for directory slot `d` and the directory in slot `m` its entry `k` of zone `z` names. */
  method Remove(fs: FileSystem, d: nat, m: nat, z: nat, k: nat, now: nat)
    requires fs.Valid() && !fs.halted && d < INODE_NR && m < INODE_NR && k < BLOCK_DENTRIES && now < U32_LIMIT
    modifies fs
    ensures fs.Valid() && fs.supers == old(fs.supers) && fs.inodes == old(fs.inodes) && fs.files == old(fs.files) && fs.task == old(fs.task)
    ensures (fs.blocks, fs.halted) == Rmdiring(old(fs.blocks), fs.supers, fs.inodes[d], z, k, fs.inodes[m], now)
  {
    var t := fs.inodes[m];
    Inode.InodeTruncate(fs, m, now);
    if fs.halted {
      return;
    }
    Bmap.Ifree(fs, t.dev, t.nr);
    if fs.halted {
      return;
    }
    Detach(fs, d, m, z, k, now);
  }

  /** The record writes of `rmdir`. */
  method Detach(fs: FileSystem, d: nat, m: nat, z: nat, k: nat, now: nat)
    requires fs.Valid() && d < INODE_NR && m < INODE_NR && k < BLOCK_DENTRIES && now < U32_LIMIT
    modifies fs
    ensures fs.Valid() && fs.supers == old(fs.supers) && fs.inodes == old(fs.inodes) && fs.files == old(fs.files)
    ensures fs.task == old(fs.task) && fs.halted == old(fs.halted)
    ensures fs.blocks == Detached(old(fs.blocks), fs.inodes[d], z, k, fs.inodes[m], now)
  {
    fs.blocks := Detached(fs.blocks, fs.inodes[d], z, k, fs.inodes[m], now);
  }

  /**
   * `inode->nr = 0` on the removed directory's slot `m`, which no one else
   * holds, and the directory slot `d`'s change and access times set.
   */
  method Forget(fs: FileSystem, d: nat, m: nat, now: nat, ghost inodes0: seq<InodeSlot>)
    requires fs.Valid() && d < INODE_NR && m < INODE_NR && d != m && Namei.Table(fs.supers, fs.inodes)
    requires Holds2(inodes0, fs.inodes, d, m) && inodes0[m].dev == EOF
    modifies fs
    ensures fs.Valid() && fs.blocks == old(fs.blocks) && fs.supers == old(fs.supers) && fs.files == old(fs.files)
    ensures fs.task == old(fs.task) && fs.halted == old(fs.halted)
    ensures fs.inodes == old(fs.inodes)[m := old(fs.inodes[m]).(nr := 0)][d := old(fs.inodes[d]).(ctime := now, atime := now)]
    ensures Namei.Table(fs.supers, fs.inodes) && Holds2(inodes0, fs.inodes, d, m)
  {
    fs.inodes := fs.inodes[m := fs.inodes[m].(nr := 0)][d := fs.inodes[d].(ctime := now, atime := now)];
    Namei.SameDevs(fs.supers, old(fs.inodes), fs.inodes);
  }

  // ---------------------------------------------------------------- mkdir

  /**
   * The checks `mkdir` makes on directory `d` before it writes: a last
   * component at `p`, write permission on the directory, and no entry of
   * that name yet.
   */
  ghost predicate Makeable(blocks: map<Buffer.Ident, seq<byte>>, d: InodeSlot, path: seq<byte>, p: nat, uid: nat)
    requires d.index < BLOCK_INODES
  {
    Path.At(path, p) != EOS && Path.Permission(Desc(blocks, d), uid, Path.P_WRITE) && Dir.Lookup(blocks, d, path, p).None?
  }

  /** How `mkdir` ended, for the walk `w` that `named` makes on `dev`; `supers` is the table it leaves. */
  ghost predicate MkdirOutcome(blocks0: map<Buffer.Ident, seq<byte>>, supers: seq<SuperSlot>, blocks: map<Buffer.Ident, seq<byte>>,
                               halted: bool, dev: int, w: Namei.Walk, path: seq<byte>, task: Task, mode: int, now: nat, r: int)
    requires now < U32_LIMIT
  {
    (w.Hangs? ==> halted)
    && if w.Reaches? then MkdirAtOutcome(blocks0, supers, blocks, halted, Namei.Home(blocks0, dev, w.nr), path, w.next, task, mode, now, r)
       else !halted ==> r == EOF && blocks == blocks0
  }

  /**
   * How `mkdir` ended once `named` gave directory `d` with the last
   * component at `p`: the directory made exactly when `Makeable`, with the
   * writes `MkdirWrote` describes; else nothing written.
   */
  ghost predicate MkdirAtOutcome(blocks0: map<Buffer.Ident, seq<byte>>, supers: seq<SuperSlot>, blocks: map<Buffer.Ident, seq<byte>>,
                                 halted: bool, d: InodeSlot, path: seq<byte>, p: nat, task: Task, mode: int, now: nat, r: int)
    requires d.index < BLOCK_INODES && now < U32_LIMIT
  {
    !halted ==>
      (r == 0 || r == EOF)
      && (r == 0 <==> Makeable(blocks0, d, path, p, task.uid))
      && (r == 0 ==> exists tr :: MkdirWrote(blocks0, supers, blocks, d, path, p, task, mode, now, tr))
      && (r == EOF ==> blocks == blocks0)
  }

  /**
   * What `mkdir` chose once the new entry was numbered: the slot `t` `iget`
   * gave for the new inode, and the blocks `bmap` left (`zoned`), having
   * written to `touched`, with zone `zb` for the new directory's block 0.
   */
  datatype MkdirTail = MkdirTail(t: InodeSlot, zoned: map<Buffer.Ident, seq<byte>>, touched: set<nat>, zb: nat)

  /**
   * What `mkdir` chose: where `add_entry` placed the name (`e`), the blocks
   * `ialloc` left (`taken`) and the number `bit` it returned, then `tail`.
   */
  datatype MkdirTrace = MkdirTrace(e: Placing, taken: map<Buffer.Ident, seq<byte>>, bit: int, tail: MkdirTail)

  /**
   * What a successful `mkdir` wrote, step by step: `add_entry` placed the
   * name in directory `d`; `ialloc` took the lowest free inode number of the
   * device; the entry was given that number (as 16 bits); then `Formed`.
   */
  ghost predicate MkdirWrote(blocks0: map<Buffer.Ident, seq<byte>>, supers: seq<SuperSlot>, blocks: map<Buffer.Ident, seq<byte>>,
                             d: InodeSlot, path: seq<byte>, p: nat, task: Task, mode: int, now: nat, tr: MkdirTrace)
    requires d.index < BLOCK_INODES && now < U32_LIMIT
  {
    Dir.Placed(blocks0, tr.e.placed, d, tr.e.j, tr.e.z, tr.e.touched, path, p, now)
    && Numbering(tr.e.placed, supers, blocks, d, tr.e.j, tr.e.z, task, mode, now, tr.taken, tr.bit, tr.tail)
  }

  /**
   * The writes of `mkdir` after `add_entry` placed the name as entry `j` in
   * zone `z`: `ialloc` took the lowest free inode number `bit` of the
   * device, leaving `taken`; the entry was given that number (as 16 bits);
   * then `Formed`.
   */
  ghost predicate Numbering(placed: map<Buffer.Ident, seq<byte>>, supers: seq<SuperSlot>, blocks: map<Buffer.Ident, seq<byte>>,
                            d: InodeSlot, j: nat, z: nat, task: Task, mode: int, now: nat,
                            taken: map<Buffer.Ident, seq<byte>>, bit: int, tail: MkdirTail)
    requires d.index < BLOCK_INODES && now < U32_LIMIT
  {
    Bmap.Allocated(placed, taken, false, d.dev, Bmap.InodeMaps(supers, d.dev), 0, SuperOf(placed, d.dev).inodes, bit)
    && tail.t.nr == bit % U16_LIMIT
    && Formed(Numbered(taken, d.dev, z, j % BLOCK_DENTRIES, bit % U16_LIMIT), blocks, d, task, mode, now, tail)
  }

  /**
   * The rest of a successful `mkdir`, from the blocks `named` with the
   * entry numbered: the record of the new inode `f.t`, on the parent's
   * device, became `Made` (a directory of two entries with two links) and
   * the parent's record gained a link; `bmap` gave the new directory zone
   * `f.zb` as its block 0 (`Zoned`); and `f.zb` received `.` naming the new
   * inode and `..` naming the parent.
   */
  ghost predicate Formed(named: map<Buffer.Ident, seq<byte>>, blocks: map<Buffer.Ident, seq<byte>>, d: InodeSlot,
                         task: Task, mode: int, now: nat, f: MkdirTail)
    requires d.index < BLOCK_INODES && now < U32_LIMIT
  {
    f.t.dev == d.dev && f.t.index < BLOCK_INODES && f.t.nr < U16_LIMIT
    && Zoned(MoreLinks(PutDesc(named, f.t, Made(Desc(named, f.t), task, mode, now)), d), f)
    && blocks == PutBlock(f.zoned, d.dev, f.zb, Dotted(Block(f.zoned, d.dev, f.zb), f.t.nr, d.nr % U16_LIMIT))
  }

  /**
   * `bmap` of block 0 of the new inode `f.t`, from the blocks `made`: zone
   * `f.zb` is its first zone pointer, no block changed outside `f.touched`
   * and the record, and when the record is not in `f.touched` only its
   * zones changed.
   */
  ghost predicate Zoned(made: map<Buffer.Ident, seq<byte>>, f: MkdirTail)
    requires f.t.index < BLOCK_INODES
  {
    Untouched(made, f.zoned, f.t.dev, f.touched + {f.t.block})
    && (f.t.block !in f.touched ==> Desc(f.zoned, f.t) == Desc(made, f.t).(zone := Desc(f.zoned, f.t).zone))
    && Desc(f.zoned, f.t).zone[0] == f.zb
  }

  /** `Placed` holds of two slots for one directory that share device, inode number and record alike. */
  lemma PlacedAt(before: map<Buffer.Ident, seq<byte>>, after: map<Buffer.Ident, seq<byte>>, d: InodeSlot, d': InodeSlot,
                 j: nat, z: nat, touched: set<nat>, path: seq<byte>, p: nat, now: nat)
    requires d.index < BLOCK_INODES && Namei.Same(d, d') && Dir.Placed(before, after, d, j, z, touched, path, p, now)
    ensures Dir.Placed(before, after, d', j, z, touched, path, p, now)
  {
    Namei.SameRecord(before, d, d');
    Namei.SameRecord(after, d, d');
  }

  /** Two slots that share device, inode number and record gain the same link. */
  lemma MoreLinksAt(blocks: map<Buffer.Ident, seq<byte>>, d: InodeSlot, d': InodeSlot)
    requires d.index < BLOCK_INODES && Namei.Same(d, d')
    ensures MoreLinks(blocks, d) == MoreLinks(blocks, d')
  {
    Namei.SameRecord(blocks, d, d');
  }

  /**
   * What the disk shows after a successful `mkdir`: zone `zb` holds `.`
   * naming the new inode and `..` naming the parent. When the blocks the
   * later steps wrote are apart, it also shows the new record, a directory
   * of two entries with two links whose first zone is `zb`, and the parent's
   * entry holding the new inode's number.
   */
  lemma MkdirWroteShows(blocks0: map<Buffer.Ident, seq<byte>>, supers: seq<SuperSlot>, blocks: map<Buffer.Ident, seq<byte>>,
                        d: InodeSlot, path: seq<byte>, p: nat, task: Task, mode: int, now: nat, tr: MkdirTrace)
    requires d.index < BLOCK_INODES && now < U32_LIMIT && MkdirWrote(blocks0, supers, blocks, d, path, p, task, mode, now, tr)
    ensures DentryAt(Block(blocks, d.dev, tr.tail.zb), 0).nr == tr.tail.t.nr
    ensures DentryAt(Block(blocks, d.dev, tr.tail.zb), 1).nr == d.nr % U16_LIMIT
    ensures var f := tr.tail; var t := Desc(blocks, f.t);
      f.t.block !in f.touched && f.t.block != f.zb && (f.t.block, f.t.index) != (d.block, d.index) ==>
        IsDir(t.mode) && t.size == 2 * DENTRY_SIZE && t.nlinks == 2 && t.zone[0] == f.zb
    ensures var f := tr.tail; var z := tr.e.z;
      z !in f.touched && z != f.t.block && z != d.block && z != f.zb ==>
        DentryAt(Block(blocks, d.dev, z), tr.e.j % BLOCK_DENTRIES).nr == f.t.nr
  {
    var f := tr.tail;
    var named := Numbered(tr.taken, d.dev, tr.e.z, tr.e.j % BLOCK_DENTRIES, tr.bit % U16_LIMIT);
    var made := MoreLinks(PutDesc(named, f.t, Made(Desc(named, f.t), task, mode, now)), d);
    if f.t.block !in f.touched && f.t.block != f.zb && (f.t.block, f.t.index) != (d.block, d.index) {
      assert Block(blocks, d.dev, f.t.block) == Block(f.zoned, d.dev, f.t.block);
      assert Desc(made, f.t) == Made(Desc(named, f.t), task, mode, now);
    }
    var z := tr.e.z;
    if z !in f.touched && z != f.t.block && z != d.block && z != f.zb {
      assert Block(blocks, d.dev, z) == Block(f.zoned, d.dev, z) == Block(made, d.dev, z) == Block(named, d.dev, z);
    }
  }

  /** `MkdirWrote` holds of two slots for the parent that share device, inode number and record alike. */
  lemma MkdirWroteAt(blocks0: map<Buffer.Ident, seq<byte>>, supers: seq<SuperSlot>, blocks: map<Buffer.Ident, seq<byte>>,
                     d: InodeSlot, d': InodeSlot, path: seq<byte>, p: nat, task: Task, mode: int, now: nat, tr: MkdirTrace)
    requires d.index < BLOCK_INODES && now < U32_LIMIT && Namei.Same(d, d')
    requires MkdirWrote(blocks0, supers, blocks, d, path, p, task, mode, now, tr)
    ensures MkdirWrote(blocks0, supers, blocks, d', path, p, task, mode, now, tr)
  {
    PlacedAt(blocks0, tr.e.placed, d, d', tr.e.j, tr.e.z, tr.e.touched, path, p, now);
    var named := Numbered(tr.taken, d.dev, tr.e.z, tr.e.j % BLOCK_DENTRIES, tr.bit % U16_LIMIT);
    var f := tr.tail;
    MoreLinksAt(PutDesc(named, f.t, Made(Desc(named, f.t), task, mode, now)), d, d');
  }

  /** `sys_mkdir`: make a directory for the last component, with the permission bits of `mode` the task's umask leaves. */
  method Mkdir(fs: FileSystem, path: seq<byte>, mode: int, now: nat) returns (r: int)
    requires Namei.Ready(fs) && Namei.Headroom(fs.inodes, 2) && now < U32_LIMIT
    modifies fs
    ensures fs.Valid() && fs.files == old(fs.files) && fs.task == old(fs.task)
    ensures Settled(fs, old(fs.inodes), old(fs.blocks))
    ensures var start := old(fs.inodes[Namei.StartSlot(fs.task, path)]);
      MkdirOutcome(old(fs.blocks), fs.supers, fs.blocks, fs.halted, start.dev,
                   Namei.NamedWalk(old(fs.blocks), start.dev, start.nr, path, fs.task.uid), path, fs.task, mode, now, r)
  {
    ghost var inodes0 := fs.inodes;
    assert Namei.Counted(inodes0, fs.task);
    var dir, next := Namei.Named(fs, path, now);
    if Path.At(path, 0) == EOS || fs.halted || dir.None? {
      return EOF;
    }
    r := MkdirAt(fs, dir.value, path, next, mode, now, inodes0, fs.inodes[dir.value].dev);
  }

  /** `mkdir` once `named` gave directory slot `d`, with the last component at `p`. */
  method MkdirAt(fs: FileSystem, d: nat, path: seq<byte>, p: nat, mode: int, now: nat, ghost inodes0: seq<InodeSlot>, dev: int)
    returns (r: int)
    requires Namei.Counted(inodes0, fs.task) && Namei.Headroom(inodes0, 2) && Namei.Ready(fs) && d < INODE_NR
    requires Namei.Holds(inodes0, fs.inodes, Some(d)) && fs.inodes[d].dev == dev && now < U32_LIMIT
    modifies fs
    ensures fs.Valid() && fs.files == old(fs.files) && fs.task == old(fs.task)
    ensures Settled(fs, inodes0, old(fs.blocks))
    ensures MkdirAtOutcome(old(fs.blocks), fs.supers, fs.blocks, fs.halted, Namei.Home(old(fs.blocks), dev, old(fs.inodes[d].nr)),
                           path, p, fs.task, mode, now, r)
  {
    assert Namei.Located(fs.blocks, fs.inodes[d]);
    Namei.AtHome(fs.blocks, fs.inodes[d]);
    if Path.At(path, p) == EOS || !Path.Permission(Desc(fs.blocks, fs.inodes[d]), fs.task.uid, Path.P_WRITE) {
      Namei.Drop(fs, d, inodes0);
      return EOF;
    }
    var found, z := Dir.FindEntry(fs, d, path, p);
    if fs.halted {
      return EOF;
    }
    if found.Some? {
      Namei.Drop(fs, d, inodes0);
      return EOF;
    }
    ghost var sd := fs.inodes[d];
    ghost var tr;
    r, tr := MkdirNew(fs, d, path, p, mode, now, inodes0, dev);
    if !fs.halted {
      MkdirWroteAt(old(fs.blocks), fs.supers, fs.blocks, sd, Namei.Home(old(fs.blocks), dev, sd.nr), path, p, fs.task, mode, now, tr);
    }
  }

  /**
   * The writes of `mkdir` for a name not yet in directory slot `d`: the
   * entry added, an inode allocated and its number stored in the entry
   * (`EOF` from a full map stored as 16 bits), the new record, the parent's
   * link count, zone 0 of the new directory with `.` and `..`.
   */
  method MkdirNew(fs: FileSystem, d: nat, path: seq<byte>, p: nat, mode: int, now: nat, ghost inodes0: seq<InodeSlot>, dev: int)
    returns (r: int, ghost tr: MkdirTrace)
    requires Namei.Counted(inodes0, fs.task) && Namei.Headroom(inodes0, 2) && Namei.Ready(fs) && d < INODE_NR
    requires Namei.Holds(inodes0, fs.inodes, Some(d)) && fs.inodes[d].dev == dev && now < U32_LIMIT
    requires Dir.Lookup(fs.blocks, fs.inodes[d], path, p).None?
    modifies fs
    ensures fs.Valid() && fs.files == old(fs.files) && fs.task == old(fs.task)
    ensures Settled(fs, inodes0, old(fs.blocks))
    ensures !fs.halted ==>
      r == 0 && MkdirWrote(old(fs.blocks), fs.supers, fs.blocks, old(fs.inodes[d]), path, p, fs.task, mode, now, tr)
  {
    ghost var blocks0 := fs.blocks;
    tr := MkdirTrace(Placing(blocks0, 0, 0, {}), blocks0, EOF, MkdirTail(fs.inodes[d], blocks0, {}, 0));
    var j, z, touched := Dir.AddEntry(fs, d, path, p, now);
    if fs.halted {
      return EOF, tr;
    }
    ghost var e := Placing(fs.blocks, j, z, touched);
    ghost var taken, bit, f;
    r, taken, bit, f := MkdirTaken(fs, d, j, z, mode, now, inodes0, blocks0, dev);
    tr := MkdirTrace(e, taken, bit, f);
  }

  /**
   * The writes of `mkdir` once the name is placed as entry `j` in zone `z`:
   * an inode allocated and its number stored in the entry (`EOF` from a
   * full map stored as 16 bits), then as `MkdirInode`.
   */
  method MkdirTaken(fs: FileSystem, d: nat, j: nat, z: nat, mode: int, now: nat, ghost inodes0: seq<InodeSlot>,
                    ghost blocks0: map<Buffer.Ident, seq<byte>>, dev: int)
    returns (r: int, ghost taken: map<Buffer.Ident, seq<byte>>, bit: int, ghost f: MkdirTail)
    requires fs.Valid() && !fs.halted && Namei.Counted(inodes0, fs.task) && Namei.Headroom(inodes0, 2) && d < INODE_NR
    requires Namei.Table(fs.supers, fs.inodes) && Namei.Holds(inodes0, fs.inodes, Some(d)) && Namei.AllLocated(blocks0, fs.inodes)
    requires fs.inodes[d].dev == dev && now < U32_LIMIT
    modifies fs
    ensures fs.Valid() && fs.files == old(fs.files) && fs.task == old(fs.task)
    ensures Settled(fs, inodes0, blocks0)
    ensures !fs.halted ==>
      r == 0 && Numbering(old(fs.blocks), fs.supers, fs.blocks, old(fs.inodes[d]), j, z, fs.task, mode, now, taken, bit, f)
  {
    ghost var supers0, sd := fs.supers, fs.inodes[d];
    taken, f := fs.blocks, MkdirTail(sd, fs.blocks, {}, 0);
    bit := Bmap.Ialloc(fs, dev);
    if fs.halted {
      return EOF, taken, bit, f;
    }
    taken := fs.blocks;
    var nr: nat := bit % U16_LIMIT;
    Number(fs, dev, z, j % BLOCK_DENTRIES, nr);
    ghost var named := fs.blocks;
    r, f := MkdirInode(fs, d, nr, mode, now, inodes0, blocks0, dev);
    if !fs.halted {
      Namei.MountsMaps(supers0, fs.supers, dev);
    }
  }

  /**
   * The writes of `mkdir` once entry names the new inode `nr`: the new
   * record, the parent's link count, zone 0 of the new directory with `.`
   * and `..`; then both references given back.
   */
  method MkdirInode(fs: FileSystem, d: nat, nr: nat, mode: int, now: nat, ghost inodes0: seq<InodeSlot>,
                    ghost blocks0: map<Buffer.Ident, seq<byte>>, dev: int) returns (r: int, ghost f: MkdirTail)
    requires fs.Valid() && !fs.halted && Namei.Counted(inodes0, fs.task) && Namei.Headroom(inodes0, 2) && d < INODE_NR
    requires Namei.Table(fs.supers, fs.inodes) && Namei.Holds(inodes0, fs.inodes, Some(d)) && Namei.AllLocated(blocks0, fs.inodes)
    requires fs.inodes[d].dev == dev && now < U32_LIMIT && nr < U16_LIMIT
    modifies fs
    ensures fs.Valid() && fs.files == old(fs.files) && fs.task == old(fs.task)
    ensures Settled(fs, inodes0, blocks0)
    ensures !fs.halted ==>
      r == 0 && Namei.Mounts(old(fs.supers), fs.supers)
      && f.t.nr == nr && Formed(old(fs.blocks), fs.blocks, old(fs.inodes[d]), fs.task, mode, now, f)
  {
    NarrowNr(nr);
    ghost var inodes1, sd := fs.inodes, fs.inodes[d];
    f := MkdirTail(sd, fs.blocks, {}, 0);
    Namei.HoldsHeadroom(inodes0, inodes1, Some(d), 1);
    var m := Namei.Get(fs, dev, nr, now);
    if fs.halted {
      return EOF, f;
    }
    ghost var supers2 := fs.supers;
    HoldsAfterGot2(inodes0, inodes1, fs.inodes, d, m);
    assert Namei.Same(sd, fs.inodes[d]);
    f := MkdirGot(fs, d, m, mode, now, sd, inodes0, blocks0, inodes1);
    if fs.halted {
      return EOF, f;
    }
    Namei.MountsTrans(old(fs.supers), supers2, fs.supers);
    r := 0;
  }

  /** `mkdir` once `iget` gave the new inode slot `m`: the writes of `MkdirBlocks`, then both references given back. */
  method MkdirGot(fs: FileSystem, d: nat, m: nat, mode: int, now: nat, ghost sd: InodeSlot, ghost inodes0: seq<InodeSlot>,
                  ghost blocks0: map<Buffer.Ident, seq<byte>>, ghost inodes1: seq<InodeSlot>) returns (ghost f: MkdirTail)
    requires fs.Valid() && !fs.halted && d < INODE_NR && m < INODE_NR && now < U32_LIMIT && Namei.Counted(inodes0, fs.task)
    requires Namei.Same(sd, fs.inodes[d]) && fs.inodes[m].dev == sd.dev && fs.inodes[m].nr < U16_LIMIT
    requires Namei.Table(fs.supers, fs.inodes) && Holds2(inodes0, fs.inodes, d, m)
    requires Namei.Holds(inodes0, inodes1, Some(d)) && Namei.AllLocated(blocks0, inodes1)
    modifies fs
    ensures fs.Valid() && fs.files == old(fs.files) && fs.task == old(fs.task)
    ensures Settled(fs, inodes0, blocks0)
    ensures !fs.halted ==>
      Namei.Mounts(old(fs.supers), fs.supers) && f.t == old(fs.inodes[m])
      && Formed(old(fs.blocks), fs.blocks, sd, fs.task, mode, now, f)
  {
    f := MkdirBlocks(fs, d, m, mode, now, sd);
    if !fs.halted {
      Settle2(fs, d, m, inodes0, blocks0, inodes1);
    }
  }

  /**
   * Both references of a call that held slot `k` (as in `inodes1`) and
   * then took slot `m` given back; the table is then as `Settled` says.
   */
  method Settle2(fs: FileSystem, k: nat, m: nat, ghost inodes0: seq<InodeSlot>, ghost blocks0: map<Buffer.Ident, seq<byte>>,
                 ghost inodes1: seq<InodeSlot>)
    requires fs.Valid() && !fs.halted && k < INODE_NR && m < INODE_NR && Namei.Counted(inodes0, fs.task)
    requires Namei.Table(fs.supers, fs.inodes) && Holds2(inodes0, fs.inodes, k, m)
    requires Namei.Holds(inodes0, inodes1, Some(k)) && Namei.AllLocated(blocks0, inodes1)
    modifies fs
    ensures fs.Valid() && fs.blocks == old(fs.blocks) && fs.files == old(fs.files) && fs.task == old(fs.task)
    ensures Settled(fs, inodes0, blocks0)
    ensures !fs.halted ==> Namei.Mounts(old(fs.supers), fs.supers)
  {
    Release2(fs, k, m, inodes0);
    if !fs.halted {
      SettledAfter(fs, inodes0, blocks0, inodes1, k);
    }
  }

  /**
   * The blocks `mkdir` writes for the new directory in slot `m` under the
   * parent `d` (`sd` on disk): the record `Made`, the parent's link, zone 0
   * allocated by `bmap`, then `.` and `..`.
   */
  method MkdirBlocks(fs: FileSystem, d: nat, m: nat, mode: int, now: nat, ghost sd: InodeSlot) returns (ghost f: MkdirTail)
    requires fs.Valid() && !fs.halted && d < INODE_NR && m < INODE_NR && now < U32_LIMIT
    requires Namei.Same(sd, fs.inodes[d]) && fs.inodes[m].dev == sd.dev && fs.inodes[m].nr < U16_LIMIT
    modifies fs
    ensures fs.Valid() && fs.supers == old(fs.supers) && fs.inodes == old(fs.inodes)
    ensures fs.files == old(fs.files) && fs.task == old(fs.task)
    ensures !fs.halted ==> f.t == fs.inodes[m] && Formed(old(fs.blocks), fs.blocks, sd, fs.task, mode, now, f)
  {
    ghost var t := fs.inodes[m];
    f := MkdirTail(t, fs.blocks, {}, 0);
    NarrowNr(t.nr);
    Init(fs, m, mode, now);
    AddLink(fs, d);
    ghost var made := fs.blocks;
    MoreLinksAt(PutDesc(old(fs.blocks), t, Made(Desc(old(fs.blocks), t), fs.task, mode, now)), sd, fs.inodes[d]);
    var zb, touched := Bmap.Bmap(fs, m, 0, true);
    if fs.halted {
      return;
    }
    f := MkdirTail(t, fs.blocks, touched, zb);
    assert Zoned(made, f);
    ghost var zoned := fs.blocks;
    Dots(fs, zb, m, d);
    assert fs.blocks == PutBlock(zoned, sd.dev, zb, Dotted(Block(zoned, sd.dev, zb), t.nr, sd.nr % U16_LIMIT));
  }

  /** A 16-bit inode number is its own 16-bit truncation. */
  lemma NarrowNr(nr: nat)
    requires nr < U16_LIMIT
    ensures nr % U16_LIMIT == nr
  {
  }

  /** The blocks once entry `k` of zone `z` of `dev` names inode `nr`, its name as it was. */
  function Numbered(blocks: map<Buffer.Ident, seq<byte>>, dev: int, z: nat, k: nat, nr: nat): (r: map<Buffer.Ident, seq<byte>>)
    requires k < BLOCK_DENTRIES && nr < U16_LIMIT
    ensures DentryAt(Block(r, dev, z), k) == Dentry(nr, DentryAt(Block(blocks, dev, z), k).name)
    ensures Untouched(blocks, r, dev, {z})
  {
    Dir.PutEntry(blocks, dev, z, k, DentryAt(Block(blocks, dev, z), k).(nr := nr))
  }

  /** `entry->nr = nr`: the inode number of entry `k` of zone `z` of `dev`. */
  method Number(fs: FileSystem, dev: int, z: nat, k: nat, nr: nat)
    requires fs.Valid() && k < BLOCK_DENTRIES && nr < U16_LIMIT
    modifies fs
    ensures fs.Valid() && fs.supers == old(fs.supers) && fs.inodes == old(fs.inodes) && fs.files == old(fs.files)
    ensures fs.task == old(fs.task) && fs.halted == old(fs.halted)
    ensures fs.blocks == Numbered(old(fs.blocks), dev, z, k, nr)
  {
    fs.blocks := Dir.PutEntry(fs.blocks, dev, z, k, DentryAt(Block(fs.blocks, dev, z), k).(nr := nr));
  }

  /**
   * The record `mkdir` gives the new directory in slot `m`: the task's
   * group and user (cut to the field widths), `NewMode` of `mode` as a
   * directory, the size of two entries, `now`, two links; zones as found.
   */
  function Made(d: InodeDesc, task: Task, mode: int, now: nat): (r: InodeDesc)
    requires InodeOk(d) && now < U32_LIMIT
    ensures InodeOk(r) && IsDir(r.mode) && r.zone == d.zone
    ensures r.size == 2 * DENTRY_SIZE && r.nlinks == 2 && r.mtime == now
    ensures r.uid == task.uid % U16_LIMIT && r.gid as int == task.gid % 256
  {
    d.(gid := (task.gid % 256) as byte, uid := task.uid % U16_LIMIT, mode := NewMode(mode, task.umask, IFDIR),
       size := 2 * DENTRY_SIZE, mtime := now, nlinks := 2)
  }

  /** Writes `Made` into the record of slot `m`. */
  method Init(fs: FileSystem, m: nat, mode: int, now: nat)
    requires fs.Valid() && m < INODE_NR && now < U32_LIMIT
    modifies fs
    ensures fs.Valid() && fs.supers == old(fs.supers) && fs.inodes == old(fs.inodes) && fs.files == old(fs.files)
    ensures fs.task == old(fs.task) && fs.halted == old(fs.halted)
    ensures fs.blocks == PutDesc(old(fs.blocks), fs.inodes[m], Made(Desc(old(fs.blocks), fs.inodes[m]), fs.task, mode, now))
  {
    fs.blocks := PutDesc(fs.blocks, fs.inodes[m], Made(Desc(fs.blocks, fs.inodes[m]), fs.task, mode, now));
  }

  /** The blocks once the record of `s` has one link more, in the 8-bit field; every other record as it was. */
  function MoreLinks(blocks: map<Buffer.Ident, seq<byte>>, s: InodeSlot): (r: map<Buffer.Ident, seq<byte>>)
    requires s.index < BLOCK_INODES
    ensures Desc(r, s) == Desc(blocks, s).(nlinks := (Desc(blocks, s).nlinks + 1) % 256)
    ensures forall t: InodeSlot :: t.index < BLOCK_INODES && (t.dev, t.block, t.index) != (s.dev, s.block, s.index) ==> Desc(r, t) == Desc(blocks, t)
    ensures Untouched(blocks, r, s.dev, {s.block})
  {
    var t := Desc(blocks, s);
    PutDesc(blocks, s, t.(nlinks := (t.nlinks + 1) % 256))
  }

  /** `nlinks++` on the record of slot `d`, in the 8-bit field. */
  method AddLink(fs: FileSystem, d: nat)
    requires fs.Valid() && d < INODE_NR
    modifies fs
    ensures fs.Valid() && fs.supers == old(fs.supers) && fs.inodes == old(fs.inodes) && fs.files == old(fs.files)
    ensures fs.task == old(fs.task) && fs.halted == old(fs.halted)
    ensures fs.blocks == MoreLinks(old(fs.blocks), fs.inodes[d])
  {
    var t := Desc(fs.blocks, fs.inodes[d]);
    fs.blocks := PutDesc(fs.blocks, fs.inodes[d], t.(nlinks := (t.nlinks + 1) % 256));
  }

  /** `strcpy` of `s`, which holds no terminator, into the 14-byte name field `name`. */
  function Stamp(name: seq<byte>, s: seq<byte>): (r: seq<byte>)
    requires |s| < |name|
    ensures |r| == |name| && r[..|s|] == s && r[|s|] == EOS
  {
    s + [EOS] + name[|s| + 1..]
  }

  /** The bytes of `.`. */
  const DOT: seq<byte> := [46]

  /** The bytes of `..`. */
  const DOTDOT: seq<byte> := [46, 46]

  /**
   * The first two entries of zone `zb`, on the new directory's device: `.`
   * naming the new directory in slot `m`, `..` naming the parent in slot `d`.
   */
  function Dotted(block: seq<byte>, self: nat, parent: nat): (b: seq<byte>)
    requires |block| == Buffer.BLOCK_SIZE && self < U16_LIMIT && parent < U16_LIMIT
    ensures |b| == Buffer.BLOCK_SIZE
    ensures DentryAt(b, 0) == Dentry(self, Stamp(DentryAt(block, 0).name, DOT))
    ensures DentryAt(b, 1) == Dentry(parent, Stamp(DentryAt(block, 1).name, DOTDOT))
    ensures forall k :: 2 <= k < BLOCK_DENTRIES ==> DentryAt(b, k) == DentryAt(block, k)
  {
    var b1 := PutDentry(block, 0, Dentry(self, Stamp(DentryAt(block, 0).name, DOT)));
    PutDentry(b1, 1, Dentry(parent, Stamp(DentryAt(block, 1).name, DOTDOT)))
  }

  /** Writes `.` and `..` into zone `zb` of slot `m`'s device. */
  method Dots(fs: FileSystem, zb: nat, m: nat, d: nat)
    requires fs.Valid() && m < INODE_NR && d < INODE_NR
    modifies fs
    ensures fs.Valid() && fs.supers == old(fs.supers) && fs.inodes == old(fs.inodes) && fs.files == old(fs.files)
    ensures fs.task == old(fs.task) && fs.halted == old(fs.halted)
    ensures var dev := fs.inodes[m].dev;
      fs.blocks == PutBlock(old(fs.blocks), dev, zb, Dotted(Block(old(fs.blocks), dev, zb), fs.inodes[m].nr % U16_LIMIT, fs.inodes[d].nr % U16_LIMIT))
  {
    var dev := fs.inodes[m].dev;
    fs.blocks := PutBlock(fs.blocks, dev, zb, Dotted(Block(fs.blocks, dev, zb), fs.inodes[m].nr % U16_LIMIT, fs.inodes[d].nr % U16_LIMIT));
  }

  // ----------------------------------------------------------------- link

  /** A reference on slot `k`, then one more on slot `m` taken over it, are two held. */
  lemma HoldsThen2(inodes0: seq<InodeSlot>, inodes1: seq<InodeSlot>, inodes2: seq<InodeSlot>, k: nat, m: nat)
    requires Namei.Holds(inodes0, inodes1, Some(k)) && Namei.Holds(inodes1, inodes2, Some(m))
    ensures Holds2(inodes0, inodes2, k, m)
  {
  }

  /** A reference on slot `k`, then a call that gave back all it took, leave the one on `k`. */
  lemma HoldsThen(inodes0: seq<InodeSlot>, inodes1: seq<InodeSlot>, inodes2: seq<InodeSlot>, k: nat)
    requires Namei.Holds(inodes0, inodes1, Some(k)) && Namei.Holds(inodes1, inodes2, None)
    ensures Namei.Holds(inodes0, inodes2, Some(k))
  {
  }

  /** Nothing written, and `EOF`, unless the kernel halted. */
  ghost predicate Refused(blocks0: map<Buffer.Ident, seq<byte>>, blocks: map<Buffer.Ident, seq<byte>>, halted: bool, r: int)
  {
    !halted ==> r == EOF && blocks == blocks0
  }

  /**
   * How `link` ended: `w1` is the walk `namei` makes for the existing
   * name on `dev1`, `w2` the walk `named` makes for the new one on `dev2`.
   */
  ghost predicate LinkOutcome(blocks0: map<Buffer.Ident, seq<byte>>, blocks: map<Buffer.Ident, seq<byte>>, halted: bool,
                              oldPath: seq<byte>, dev1: int, w1: Namei.Walk, newPath: seq<byte>, dev2: int, w2: Namei.Walk,
                              uid: nat, now: nat, r: int)
  {
    if Path.At(oldPath, 0) == EOS then Refused(blocks0, blocks, halted, r)
    else
      (w1.Hangs? ==> halted)
      && (if !w1.Reaches? || IsDir(Desc(blocks0, Namei.Home(blocks0, dev1, w1.nr)).mode)
          then Refused(blocks0, blocks, halted, r)
          else LinkToOutcome(blocks0, blocks, halted, Namei.Home(blocks0, dev1, w1.nr), newPath, dev2, w2, uid, now, r))
  }

  /** How `link` ended once the existing name gave inode `t`, which is no directory. */
  ghost predicate LinkToOutcome(blocks0: map<Buffer.Ident, seq<byte>>, blocks: map<Buffer.Ident, seq<byte>>, halted: bool,
                                t: InodeSlot, newPath: seq<byte>, dev2: int, w2: Namei.Walk, uid: nat, now: nat, r: int)
    requires t.index < BLOCK_INODES
  {
    if Path.At(newPath, 0) == EOS then Refused(blocks0, blocks, halted, r)
    else
      (w2.Hangs? ==> halted)
      && (if !w2.Reaches? then Refused(blocks0, blocks, halted, r)
          else LinkAtOutcome(blocks0, blocks, halted, t, Namei.Home(blocks0, dev2, w2.nr), newPath, w2.next, uid, now, r))
  }

  /**
   * The checks `link` makes on directory `d` once the existing name gave
   * an inode of `dev` that is no directory: a last component at `p`, the
   * same device, write permission, and no entry of that name yet.
   */
  ghost predicate Linkable(blocks: map<Buffer.Ident, seq<byte>>, dev: int, d: InodeSlot, path: seq<byte>, p: nat, uid: nat)
    requires d.index < BLOCK_INODES
  {
    Path.At(path, p) != EOS && d.dev == dev && Path.Permission(Desc(blocks, d), uid, Path.P_WRITE)
    && Dir.Lookup(blocks, d, path, p).None?
  }

  /**
   * How `link` ended once both names were resolved, to inode `t` and
   * directory `d`: the new name added exactly when `Linkable`, else nothing
   * written.
   */
  ghost predicate LinkAtOutcome(blocks0: map<Buffer.Ident, seq<byte>>, blocks: map<Buffer.Ident, seq<byte>>, halted: bool,
                                t: InodeSlot, d: InodeSlot, path: seq<byte>, p: nat, uid: nat, now: nat, r: int)
    requires t.index < BLOCK_INODES && d.index < BLOCK_INODES
  {
    !halted ==>
      (r == 0 || r == EOF)
      && (r == 0 <==> Linkable(blocks0, t.dev, d, path, p, uid))
      && (r == 0 ==> exists e :: LinkWrote(blocks0, blocks, d, t, path, p, now, e))
      && (r == EOF ==> blocks == blocks0)
  }

  /** Where `add_entry` put a new name, entry `j` in zone `z`, and the blocks it left, having written to `touched`. */
  datatype Placing = Placing(placed: map<Buffer.Ident, seq<byte>>, j: nat, z: nat, touched: set<nat>)

  /**
   * What a successful `link` wrote: `add_entry` placed the new name in
   * directory `d` as `e` says, that entry was given the number of inode
   * `t`, and `t`'s record gained a link.
   */
  ghost predicate LinkWrote(blocks0: map<Buffer.Ident, seq<byte>>, blocks: map<Buffer.Ident, seq<byte>>,
                            d: InodeSlot, t: InodeSlot, path: seq<byte>, p: nat, now: nat, e: Placing)
    requires t.index < BLOCK_INODES && d.index < BLOCK_INODES
  {
    Dir.Placed(blocks0, e.placed, d, e.j, e.z, e.touched, path, p, now)
    && blocks == MoreLinks(Numbered(e.placed, d.dev, e.z, e.j % BLOCK_DENTRIES, t.nr % U16_LIMIT), t)
  }

  /**
   * What the disk shows after a successful `link`, when `add_entry` left the
   * directory's record out of what it wrote and the new entry's zone is not
   * the block holding `t`'s record: the entry holds the new name and `t`'s
   * number, and `t`'s record has one link more than `add_entry` left it.
   */
  lemma LinkWroteShows(blocks0: map<Buffer.Ident, seq<byte>>, blocks: map<Buffer.Ident, seq<byte>>,
                       d: InodeSlot, t: InodeSlot, path: seq<byte>, p: nat, now: nat, e: Placing)
    requires t.index < BLOCK_INODES && d.index < BLOCK_INODES && LinkWrote(blocks0, blocks, d, t, path, p, now, e)
    requires d.block !in e.touched && t.dev == d.dev && e.z != t.block
    ensures DentryAt(Block(blocks, d.dev, e.z), e.j % BLOCK_DENTRIES) == Dentry(t.nr % U16_LIMIT, Dir.EntryName(path, p))
    ensures Desc(blocks, t) == Desc(e.placed, t).(nlinks := (Desc(e.placed, t).nlinks + 1) % 256)
  {
    var named := Numbered(e.placed, d.dev, e.z, e.j % BLOCK_DENTRIES, t.nr % U16_LIMIT);
    assert Block(blocks, d.dev, e.z) == Block(named, d.dev, e.z);
    assert Block(named, t.dev, t.block) == Block(e.placed, t.dev, t.block);
  }

  /** Slots that share device, inode number and record read and write the same record, so `LinkWrote` holds of both alike. */
  lemma LinkWroteAt(blocks0: map<Buffer.Ident, seq<byte>>, blocks: map<Buffer.Ident, seq<byte>>, d: InodeSlot, d': InodeSlot,
                    t: InodeSlot, t': InodeSlot, path: seq<byte>, p: nat, now: nat, e: Placing)
    requires t.index < BLOCK_INODES && d.index < BLOCK_INODES && Namei.Same(d, d') && Namei.Same(t, t')
    requires LinkWrote(blocks0, blocks, d, t, path, p, now, e)
    ensures LinkWrote(blocks0, blocks, d', t', path, p, now, e)
  {
    PlacedAt(blocks0, e.placed, d, d', e.j, e.z, e.touched, path, p, now);
    MoreLinksAt(Numbered(e.placed, d.dev, e.z, e.j % BLOCK_DENTRIES, t.nr % U16_LIMIT), t, t');
  }

  /** `sys_link`: a new name for the inode the existing name gives, which may not be a directory. */
  method Link(fs: FileSystem, oldPath: seq<byte>, newPath: seq<byte>, now: nat) returns (r: int)
    requires Namei.Ready(fs) && Namei.Headroom(fs.inodes, 2) && now < U32_LIMIT
    modifies fs
    ensures fs.Valid() && fs.files == old(fs.files) && fs.task == old(fs.task)
    ensures Settled(fs, old(fs.inodes), old(fs.blocks))
    ensures var s1 := old(fs.inodes[Namei.StartSlot(fs.task, oldPath)]);
      var s2 := old(fs.inodes[Namei.StartSlot(fs.task, newPath)]);
      LinkOutcome(old(fs.blocks), fs.blocks, fs.halted,
                  oldPath, s1.dev, Namei.NameiWalk(old(fs.blocks), s1.dev, s1.nr, oldPath, fs.task.uid),
                  newPath, s2.dev, Namei.NamedWalk(old(fs.blocks), s2.dev, s2.nr, newPath, fs.task.uid), fs.task.uid, now, r)
  {
    ghost var inodes0 := fs.inodes;
    assert Namei.Counted(inodes0, fs.task);
    var k := Namei.Namei(fs, oldPath, now);
    if Path.At(oldPath, 0) == EOS || fs.halted || k.None? {
      return EOF;
    }
    ghost var s2 := inodes0[Namei.StartSlot(fs.task, newPath)];
    assert Namei.Same(s2, fs.inodes[Namei.StartSlot(fs.task, newPath)]);
    r := LinkTo(fs, k.value, newPath, now, inodes0, fs.inodes[k.value].dev);
  }

  /** `link` holding slot `k`, the inode of the existing name, on `dev1`. */
  method LinkTo(fs: FileSystem, k: nat, newPath: seq<byte>, now: nat, ghost inodes0: seq<InodeSlot>, dev1: int) returns (r: int)
    requires Namei.Counted(inodes0, fs.task) && Namei.Headroom(inodes0, 2) && Namei.Ready(fs) && k < INODE_NR
    requires Namei.Holds(inodes0, fs.inodes, Some(k)) && fs.inodes[k].dev == dev1 && now < U32_LIMIT
    modifies fs
    ensures fs.Valid() && fs.files == old(fs.files) && fs.task == old(fs.task)
    ensures Settled(fs, inodes0, old(fs.blocks))
    ensures var s2 := old(fs.inodes[Namei.StartSlot(fs.task, newPath)]);
      if IsDir(Desc(old(fs.blocks), Namei.Home(old(fs.blocks), dev1, old(fs.inodes[k].nr))).mode)
      then Refused(old(fs.blocks), fs.blocks, fs.halted, r)
      else LinkToOutcome(old(fs.blocks), fs.blocks, fs.halted, Namei.Home(old(fs.blocks), dev1, old(fs.inodes[k].nr)), newPath, s2.dev,
                         Namei.NamedWalk(old(fs.blocks), s2.dev, s2.nr, newPath, fs.task.uid), fs.task.uid, now, r)
  {
    ghost var inodes1, blocks0 := fs.inodes, fs.blocks;
    assert Namei.Located(fs.blocks, fs.inodes[k]);
    Namei.AtHome(fs.blocks, fs.inodes[k]);
    if IsDir(Desc(fs.blocks, fs.inodes[k]).mode) {
      Namei.Drop(fs, k, inodes0);
      return EOF;
    }
    Namei.HoldsHeadroom(inodes0, inodes1, Some(k), 1);
    var dir, next := Namei.Named(fs, newPath, now);
    if fs.halted {
      return EOF;
    }
    if Path.At(newPath, 0) == EOS || dir.None? {
      HoldsThen(inodes0, inodes1, fs.inodes, k);
      Namei.Drop(fs, k, inodes0);
      return EOF;
    }
    HoldsThen2(inodes0, inodes1, fs.inodes, k, dir.value);
    assert Namei.Same(inodes1[k], fs.inodes[k]);
    r := LinkAt(fs, k, dir.value, newPath, next, now, inodes0, inodes1, dev1);
  }

  /** `link` holding slot `k`, the inode of the existing name on `dev1`, and slot `d`, the directory for the new one. */
  method LinkAt(fs: FileSystem, k: nat, d: nat, path: seq<byte>, p: nat, now: nat,
                ghost inodes0: seq<InodeSlot>, ghost inodes1: seq<InodeSlot>, dev1: int) returns (r: int)
    requires fs.Valid() && !fs.halted && k < INODE_NR && d < INODE_NR && Namei.Counted(inodes0, fs.task) && now < U32_LIMIT
    requires Namei.Table(fs.supers, fs.inodes) && Holds2(inodes0, fs.inodes, k, d) && fs.inodes[k].dev == dev1
    requires Namei.Holds(inodes0, inodes1, Some(k)) && Namei.AllLocated(fs.blocks, inodes1)
    requires Namei.Located(fs.blocks, fs.inodes[d]) && Namei.Located(fs.blocks, fs.inodes[k])
    modifies fs
    ensures fs.Valid() && fs.files == old(fs.files) && fs.task == old(fs.task)
    ensures Settled(fs, inodes0, old(fs.blocks))
    ensures LinkAtOutcome(old(fs.blocks), fs.blocks, fs.halted, Namei.Home(old(fs.blocks), dev1, old(fs.inodes[k].nr)),
                          Namei.Home(old(fs.blocks), old(fs.inodes[d].dev), old(fs.inodes[d].nr)), path, p, fs.task.uid, now, r)
  {
    ghost var blocks0 := fs.blocks;
    Namei.AtHome(fs.blocks, fs.inodes[d]);
    if Path.At(path, p) == EOS || fs.inodes[d].dev != fs.inodes[k].dev
       || !Path.Permission(Desc(fs.blocks, fs.inodes[d]), fs.task.uid, Path.P_WRITE) {
      Release2(fs, k, d, inodes0);
      if !fs.halted {
        SettledAfter(fs, inodes0, blocks0, inodes1, k);
      }
      return EOF;
    }
    var found, z := Dir.FindEntry(fs, d, path, p);
    if fs.halted {
      return EOF;
    }
    if found.Some? {
      Release2(fs, k, d, inodes0);
      if !fs.halted {
        SettledAfter(fs, inodes0, blocks0, inodes1, k);
      }
      return EOF;
    }
    ghost var sd, sk := fs.inodes[d], fs.inodes[k];
    ghost var e;
    r, e := LinkNew(fs, k, d, path, p, now, inodes0, inodes1);
    if !fs.halted {
      LinkWroteAt(blocks0, fs.blocks, sd, Namei.Home(blocks0, sd.dev, sd.nr), sk, Namei.Home(blocks0, dev1, sk.nr), path, p, now, e);
    }
  }

  /**
   * The writes of `link` for a name not yet in directory slot `d`: the
   * entry added naming slot `k`'s inode, whose link count goes up and
   * whose change time becomes `now`; then both references given back.
   */
  method LinkNew(fs: FileSystem, k: nat, d: nat, path: seq<byte>, p: nat, now: nat,
                 ghost inodes0: seq<InodeSlot>, ghost inodes1: seq<InodeSlot>) returns (r: int, ghost e: Placing)
    requires fs.Valid() && !fs.halted && k < INODE_NR && d < INODE_NR && Namei.Counted(inodes0, fs.task) && now < U32_LIMIT
    requires Namei.Table(fs.supers, fs.inodes) && Holds2(inodes0, fs.inodes, k, d)
    requires Namei.Holds(inodes0, inodes1, Some(k)) && Namei.AllLocated(fs.blocks, inodes1)
    requires Dir.Lookup(fs.blocks, fs.inodes[d], path, p).None?
    modifies fs
    ensures fs.Valid() && fs.files == old(fs.files) && fs.task == old(fs.task)
    ensures Settled(fs, inodes0, old(fs.blocks))
    ensures !fs.halted ==> r == 0 && LinkWrote(old(fs.blocks), fs.blocks, old(fs.inodes[d]), old(fs.inodes[k]), path, p, now, e)
  {
    ghost var blocks0, sd, sk := fs.blocks, fs.inodes[d], fs.inodes[k];
    e := Placing(blocks0, 0, 0, {});
    var j, zj, touched := Dir.AddEntry(fs, d, path, p, now);
    if fs.halted {
      return EOF, e;
    }
    e := Placing(fs.blocks, j, zj, touched);
    Number(fs, fs.inodes[d].dev, zj, j % BLOCK_DENTRIES, fs.inodes[k].nr % U16_LIMIT);
    AddLink(fs, k);
    assert LinkWrote(blocks0, fs.blocks, sd, sk, path, p, now, e);
    Touch(fs, k, now, inodes0, d);
    Release2(fs, k, d, inodes0);
    if fs.halted {
      return EOF, e;
    }
    SettledAfter(fs, inodes0, blocks0, inodes1, k);
    r := 0;
  }

  /** `inode->ctime = now` on slot `k`, one of the two slots `k` and `d` held over `inodes0`; no reference changes. */
  method Touch(fs: FileSystem, k: nat, now: nat, ghost inodes0: seq<InodeSlot>, ghost d: nat)
    requires fs.Valid() && k < INODE_NR && Namei.Table(fs.supers, fs.inodes) && Holds2(inodes0, fs.inodes, k, d)
    modifies fs
    ensures fs.Valid() && fs.blocks == old(fs.blocks) && fs.supers == old(fs.supers) && fs.files == old(fs.files)
    ensures fs.task == old(fs.task) && fs.halted == old(fs.halted)
    ensures fs.inodes == old(fs.inodes)[k := old(fs.inodes[k]).(ctime := now)]
    ensures Namei.Table(fs.supers, fs.inodes) && Holds2(inodes0, fs.inodes, k, d)
  {
    fs.inodes := fs.inodes[k := fs.inodes[k].(ctime := now)];
    Namei.SameDevs(fs.supers, old(fs.inodes), fs.inodes);
  }

  // ----------------------------------------------------------- inode_open

  /**
   * The permission mask `inode_open` means to ask for an access mode:
   * read for `O_RDONLY`, write for `O_WRONLY`, both for `O_RDWR` (and for
   * the unused mode 3).
   */
  function OpenMask(acc: int): (m: nat)
    requires 0 <= acc < 4
    ensures m == Path.P_READ || m == Path.P_WRITE || m == Path.P_READ + Path.P_WRITE
  {
    if acc == O_RDONLY then Path.P_READ else if acc == O_WRONLY then Path.P_WRITE else Path.P_READ + Path.P_WRITE
  }

  /** The mask `inode_open` as written asks for: the access mode itself, `flag & O_ACCMODE`. */
  function OpenMaskAsWritten(acc: int): (m: int)
    requires 0 <= acc < 4
    ensures m == acc
  {
    acc
  }

  /**
   * For a task other than the kernel user and an inode with links, the
   * corrected mask grants reading exactly when the read bit of the task's
   * class is set, and writing exactly when the write bit is.
   */
  lemma OpenMaskMeaning(d: InodeDesc, uid: nat, acc: int)
    requires 0 <= acc < 4 && d.nlinks != 0 && uid != KERNEL_USER
    ensures Path.Permission(d, uid, OpenMask(acc)) <==>
      (acc != O_WRONLY ==> Path.HasBit(Path.ClassBits(d, uid), Path.P_READ))
      && (acc != O_RDONLY ==> Path.HasBit(Path.ClassBits(d, uid), Path.P_WRITE))
  {
    Path.PermissionRules(d, uid, OpenMask(acc));
  }

  /** A record of mode `mode` with one link, owned by user 0 and group 0. */
  function Sample(mode: nat): InodeDesc
  {
    InodeDesc(mode, 0, 0, 0, 0, 1, [])
  }

  /**
   * As written, user 5 opens for writing a file whose bits for others are
   * execute only (`0001`), and opens for reading a file with no bits at
   * all; the corrected mask refuses both.
   */
  lemma OpenMaskAsWrittenGrants()
    ensures Path.Permission(Sample(1), 5, OpenMaskAsWritten(O_WRONLY)) && !Path.Permission(Sample(1), 5, OpenMask(O_WRONLY))
    ensures Path.Permission(Sample(0), 5, OpenMaskAsWritten(O_RDONLY)) && !Path.Permission(Sample(0), 5, OpenMask(O_RDONLY))
  {
    assert Path.GroupAsUid(0) == 0;
  }

  /** The permission fields `inode_open` gives a new file: the task's user and group, `NewMode` as a regular file, one link. */
  function Fresh(task: Task, mode: int): (r: InodeDesc)
    ensures IsFile(r.mode) && !IsDir(r.mode) && r.nlinks == 1
  {
    InodeDesc(NewMode(mode, task.umask, IFREG), task.uid % U16_LIMIT, 0, 0, (task.gid % 256) as byte, 1, [])
  }

  /** The record `inode_open` writes for a new file over record `d`: `Fresh`, size 0, `now`; zones as found. */
  function Created(d: InodeDesc, task: Task, mode: int, now: nat): (r: InodeDesc)
    requires InodeOk(d) && now < U32_LIMIT
    ensures InodeOk(r) && r.zone == d.zone && r.size == 0 && r.mtime == now
    ensures r == Fresh(task, mode).(size := 0, mtime := now, zone := d.zone)
  {
    d.(uid := task.uid % U16_LIMIT, gid := (task.gid % 256) as byte, mode := NewMode(mode, task.umask, IFREG),
       mtime := now, size := 0, nlinks := 1)
  }

  /** No inode, nothing written, unless the kernel halted. */
  ghost predicate Closed(blocks0: map<Buffer.Ident, seq<byte>>, blocks: map<Buffer.Ident, seq<byte>>, halted: bool, r: Option<nat>)
  {
    !halted ==> r.None? && blocks == blocks0
  }

  /** How `inode_open` ended, for the walk `w` that `named` makes on `dev`. */
  ghost predicate OpenOutcome(blocks0: map<Buffer.Ident, seq<byte>>, supers: seq<SuperSlot>, blocks: map<Buffer.Ident, seq<byte>>,
                              inodes: seq<InodeSlot>, halted: bool, dev: int, w: Namei.Walk, path: seq<byte>,
                              flags: int, mode: int, task: Task, now: nat, r: Option<nat>)
    requires now < U32_LIMIT
  {
    if Path.At(path, 0) == EOS then Closed(blocks0, blocks, halted, r)
    else
      (w.Hangs? ==> halted)
      && (if !w.Reaches? then Closed(blocks0, blocks, halted, r)
          else OpenAtOutcome(blocks0, supers, blocks, inodes, halted, Namei.Home(blocks0, dev, w.nr), path, w.next,
                             TruncUpgrade(flags), mode, task, now, r))
  }

  /**
   * How `inode_open` ended once `named` gave directory `d` with the last
   * component at `p`, `flags` already upgraded for `O_TRUNC`: an existing
   * entry is opened; a missing one is created with `O_CREAT` and write
   * permission on the directory.
   */
  ghost predicate OpenAtOutcome(blocks0: map<Buffer.Ident, seq<byte>>, supers: seq<SuperSlot>, blocks: map<Buffer.Ident, seq<byte>>,
                                inodes: seq<InodeSlot>, halted: bool, d: InodeSlot, path: seq<byte>, p: nat,
                                flags: int, mode: int, task: Task, now: nat, r: Option<nat>)
    requires d.index < BLOCK_INODES && now < U32_LIMIT
  {
    if Path.At(path, p) == EOS then Closed(blocks0, blocks, halted, r)
    else match Dir.Lookup(blocks0, d, path, p)
      case Some((i, _)) =>
        OpenFoundOutcome(blocks0, supers, blocks, inodes, halted, Namei.Home(blocks0, d.dev, Dir.EntryAt(blocks0, d, i).nr),
                         flags, task.uid, now, r)
      case None =>
        if !HasFlag(flags, O_CREAT) || !Path.Permission(Desc(blocks0, d), task.uid, Path.P_WRITE) then Closed(blocks0, blocks, halted, r)
        else !halted ==>
          (r.Some? <==> Path.Permission(Fresh(task, mode), task.uid, OpenMask(AccMode(flags))))
          && (r.Some? ==> r.value < |inodes| && inodes[r.value].dev == d.dev && inodes[r.value].atime == now)
          && exists tr :: CreateWrote(blocks0, supers, blocks, inodes, d, path, p, flags, task, mode, now, r, tr)
  }

  /**
   * What a creating `inode_open` chose: where `add_entry` placed the name
   * (`e`), the blocks `ialloc` left (`taken`) and the number `bit` it
   * returned, and the slot `t` `iget` gave for the new inode.
   */
  datatype CreateTrace = CreateTrace(e: Placing, taken: map<Buffer.Ident, seq<byte>>, bit: int, t: InodeSlot)

  /**
   * What a creating `inode_open` wrote, step by step: `add_entry` placed
   * the name in directory `d`; `ialloc` took the lowest free inode number of
   * the device; the entry was given that number (as 16 bits); then
   * `CreateTail`.
   */
  ghost predicate CreateWrote(blocks0: map<Buffer.Ident, seq<byte>>, supers: seq<SuperSlot>, blocks: map<Buffer.Ident, seq<byte>>,
                              inodes: seq<InodeSlot>, d: InodeSlot, path: seq<byte>, p: nat, flags: int, task: Task, mode: int,
                              now: nat, r: Option<nat>, tr: CreateTrace)
    requires d.index < BLOCK_INODES && now < U32_LIMIT
  {
    Dir.Placed(blocks0, tr.e.placed, d, tr.e.j, tr.e.z, tr.e.touched, path, p, now)
    && Bmap.Allocated(tr.e.placed, tr.taken, false, d.dev, Bmap.InodeMaps(supers, d.dev), 0, SuperOf(tr.e.placed, d.dev).inodes, tr.bit)
    && tr.t.nr == tr.bit % U16_LIMIT
    && CreateTail(Numbered(tr.taken, d.dev, tr.e.z, tr.e.j % BLOCK_DENTRIES, tr.bit % U16_LIMIT), supers, blocks, inodes, d.dev, tr.t,
                  flags, task, mode, now, r)
  }

  /**
   * The rest of a creating `inode_open`, from the blocks `named` with the
   * entry numbered: the record of the new inode `t`, on device `dev`,
   * became `Created` (a regular file of size 0 with one link); the inode
   * returned, if any, is `t`, truncated with `O_TRUNC`; a refused mask
   * writes nothing more, and the new file stays.
   */
  ghost predicate CreateTail(named: map<Buffer.Ident, seq<byte>>, supers: seq<SuperSlot>, blocks: map<Buffer.Ident, seq<byte>>,
                             inodes: seq<InodeSlot>, dev: int, t: InodeSlot, flags: int, task: Task, mode: int, now: nat, r: Option<nat>)
    requires now < U32_LIMIT
  {
    t.dev == dev && t.index < BLOCK_INODES
    && (r.Some? ==> r.value < |inodes| && Namei.Same(t, inodes[r.value]))
    && var created := PutDesc(named, t, Created(Desc(named, t), task, mode, now));
       (blocks, false) == if r.Some? && HasFlag(flags, O_TRUNC) then Inode.Truncated(created, t, supers, now) else (created, false)
  }

  /**
   * What the disk shows after a creating `inode_open` that returned no
   * inode or did not truncate, when `add_entry` left the directory's record
   * out of what it wrote and the new entry's zone is neither an inode-map
   * block nor the block holding the new record: the entry holds the new name and the new inode's number,
   * and the record is a regular file of size 0 with one link.
   */
  lemma CreateWroteShows(blocks0: map<Buffer.Ident, seq<byte>>, supers: seq<SuperSlot>, blocks: map<Buffer.Ident, seq<byte>>,
                         inodes: seq<InodeSlot>, d: InodeSlot, path: seq<byte>, p: nat, flags: int, task: Task, mode: int,
                         now: nat, r: Option<nat>, tr: CreateTrace)
    requires d.index < BLOCK_INODES && now < U32_LIMIT
    requires CreateWrote(blocks0, supers, blocks, inodes, d, path, p, flags, task, mode, now, r, tr)
    requires !(r.Some? && HasFlag(flags, O_TRUNC)) && d.block !in tr.e.touched
    requires tr.e.z != tr.t.block && tr.e.z !in Bmap.InodeMaps(supers, d.dev)
    ensures DentryAt(Block(blocks, d.dev, tr.e.z), tr.e.j % BLOCK_DENTRIES) == Dentry(tr.t.nr, Dir.EntryName(path, p))
    ensures var c := Desc(blocks, tr.t); IsFile(c.mode) && c.size == 0 && c.nlinks == 1 && c.mtime == now
  {
    var z, k := tr.e.z, tr.e.j % BLOCK_DENTRIES;
    var named := Numbered(tr.taken, d.dev, z, k, tr.bit % U16_LIMIT);
    var created := PutDesc(named, tr.t, Created(Desc(named, tr.t), task, mode, now));
    assert blocks == created;
    assert Block(blocks, d.dev, z) == Block(named, d.dev, z);
    assert Block(tr.taken, d.dev, z) == Block(tr.e.placed, d.dev, z);
  }

  /** `CreateWrote` holds of two slots for the directory that share device, inode number and record alike. */
  lemma CreateWroteAt(blocks0: map<Buffer.Ident, seq<byte>>, supers: seq<SuperSlot>, blocks: map<Buffer.Ident, seq<byte>>,
                      inodes: seq<InodeSlot>, d: InodeSlot, d': InodeSlot, path: seq<byte>, p: nat, flags: int, task: Task,
                      mode: int, now: nat, r: Option<nat>, tr: CreateTrace)
    requires d.index < BLOCK_INODES && now < U32_LIMIT && Namei.Same(d, d')
    requires CreateWrote(blocks0, supers, blocks, inodes, d, path, p, flags, task, mode, now, r, tr)
    ensures CreateWrote(blocks0, supers, blocks, inodes, d', path, p, flags, task, mode, now, r, tr)
  {
    PlacedAt(blocks0, tr.e.placed, d, d', tr.e.j, tr.e.z, tr.e.touched, path, p, now);
  }

  /**
   * How `inode_open` ended for the existing inode `t`: opened exactly when
   * it is no directory and the corrected mask is granted; then its access
   * time is `now` and with `O_TRUNC` it is truncated; else nothing written.
   */
  ghost predicate OpenFoundOutcome(blocks0: map<Buffer.Ident, seq<byte>>, supers: seq<SuperSlot>, blocks: map<Buffer.Ident, seq<byte>>,
                                   inodes: seq<InodeSlot>, halted: bool, t: InodeSlot, flags: int, uid: nat, now: nat, r: Option<nat>)
    requires t.index < BLOCK_INODES && now < U32_LIMIT
  {
    var desc := Desc(blocks0, t);
    !halted ==>
      (r.Some? <==> !IsDir(desc.mode) && Path.Permission(desc, uid, OpenMask(AccMode(flags))))
      && (r.None? ==> blocks == blocks0)
      && (r.Some? ==>
            r.value < |inodes| && inodes[r.value].dev == t.dev && inodes[r.value].nr == t.nr && inodes[r.value].atime == now
            && (blocks, false) == (if HasFlag(flags, O_TRUNC) then Inode.Truncated(blocks0, t, supers, now) else (blocks0, false)))
  }

  /** `inode_open`: the inode for `path`, with one reference held on it, or `None`. */
  method InodeOpen(fs: FileSystem, path: seq<byte>, flags: int, mode: int, now: nat) returns (r: Option<nat>)
    requires Namei.Ready(fs) && Namei.Headroom(fs.inodes, 2) && now < U32_LIMIT
    modifies fs
    ensures fs.Valid() && fs.files == old(fs.files) && fs.task == old(fs.task)
    ensures !fs.halted ==> Namei.Table(fs.supers, fs.inodes) && Namei.Holds(old(fs.inodes), fs.inodes, r)
    ensures var start := old(fs.inodes[Namei.StartSlot(fs.task, path)]);
      OpenOutcome(old(fs.blocks), fs.supers, fs.blocks, fs.inodes, fs.halted, start.dev,
                  Namei.NamedWalk(old(fs.blocks), start.dev, start.nr, path, fs.task.uid), path, flags, mode, fs.task, now, r)
    ensures r.Some? ==> r.value < INODE_NR
  {
    ghost var inodes0 := fs.inodes;
    assert Namei.Counted(inodes0, fs.task);
    var dir, next := Namei.Named(fs, path, now);
    if Path.At(path, 0) == EOS || fs.halted || dir.None? {
      return None;
    }
    r := OpenAt(fs, dir.value, path, next, flags, mode, now, inodes0, fs.inodes[dir.value].dev);
  }

  /** `inode_open` once `named` gave directory slot `d`, with the last component at `p`. */
  method OpenAt(fs: FileSystem, d: nat, path: seq<byte>, p: nat, flags: int, mode: int, now: nat, ghost inodes0: seq<InodeSlot>, dev: int)
    returns (r: Option<nat>)
    requires Namei.Counted(inodes0, fs.task) && Namei.Headroom(inodes0, 2) && Namei.Ready(fs) && d < INODE_NR
    requires Namei.Holds(inodes0, fs.inodes, Some(d)) && fs.inodes[d].dev == dev && now < U32_LIMIT
    modifies fs
    ensures fs.Valid() && fs.files == old(fs.files) && fs.task == old(fs.task)
    ensures !fs.halted ==> Namei.Table(fs.supers, fs.inodes) && Namei.Holds(inodes0, fs.inodes, r)
    ensures OpenAtOutcome(old(fs.blocks), fs.supers, fs.blocks, fs.inodes, fs.halted, Namei.Home(old(fs.blocks), dev, old(fs.inodes[d].nr)),
                          path, p, TruncUpgrade(flags), mode, fs.task, now, r)
    ensures r.Some? ==> r.value < INODE_NR
  {
    ghost var s := Namei.Home(fs.blocks, dev, fs.inodes[d].nr);
    assert Namei.Located(fs.blocks, fs.inodes[d]);
    Namei.AtHome(fs.blocks, fs.inodes[d]);
    if Path.At(path, p) == EOS {
      Namei.Drop(fs, d, inodes0);
      return None;
    }
    var upgraded := TruncUpgrade(flags);
    var found, z := Dir.FindEntry(fs, d, path, p);
    if fs.halted {
      return None;
    }
    if found.Some? {
      var i := found.value.0;
      var nr := DentryAt(Block(fs.blocks, dev, z), i % BLOCK_DENTRIES).nr;
      assert nr == Dir.EntryAt(fs.blocks, s, i).nr;
      r := OpenFound(fs, d, nr, upgraded, now, inodes0, dev);
      return;
    }
    if !HasFlag(upgraded, O_CREAT) || !Path.Permission(Desc(fs.blocks, fs.inodes[d]), fs.task.uid, Path.P_WRITE) {
      Namei.Drop(fs, d, inodes0);
      return None;
    }
    ghost var sd := fs.inodes[d];
    ghost var tr;
    r, tr := OpenNew(fs, d, path, p, upgraded, mode, now, inodes0, dev);
    if !fs.halted {
      CreateWroteAt(old(fs.blocks), fs.supers, fs.blocks, fs.inodes, sd, s, path, p, upgraded, fs.task, mode, now, r, tr);
    }
  }

  /** `inode_open` for the existing inode `nr` of `dev`, holding directory slot `d`. */
  method OpenFound(fs: FileSystem, d: nat, nr: nat, flags: int, now: nat, ghost inodes0: seq<InodeSlot>, dev: int)
    returns (r: Option<nat>)
    requires Namei.Counted(inodes0, fs.task) && Namei.Headroom(inodes0, 2) && Namei.Ready(fs) && d < INODE_NR
    requires Namei.Holds(inodes0, fs.inodes, Some(d)) && fs.inodes[d].dev == dev && now < U32_LIMIT
    modifies fs
    ensures fs.Valid() && fs.files == old(fs.files) && fs.task == old(fs.task)
    ensures !fs.halted ==> Namei.Table(fs.supers, fs.inodes) && Namei.Holds(inodes0, fs.inodes, r)
    ensures OpenFoundOutcome(old(fs.blocks), fs.supers, fs.blocks, fs.inodes, fs.halted, Namei.Home(old(fs.blocks), dev, nr),
                             flags, fs.task.uid, now, r)
    ensures r.Some? ==> r.value < INODE_NR
  {
    ghost var inodes1, blocks0 := fs.inodes, fs.blocks;
    Namei.HoldsHeadroom(inodes0, inodes1, Some(d), 1);
    var m := Namei.Get(fs, dev, nr, now);
    if fs.halted {
      return None;
    }
    HoldsAfterGot2(inodes0, inodes1, fs.inodes, d, m);
    assert Namei.Located(fs.blocks, fs.inodes[m]);
    Namei.AtHome(fs.blocks, fs.inodes[m]);
    ghost var supers2, tslot := fs.supers, fs.inodes[m];
    r := Makeup(fs, d, m, flags, now, inodes0);
    if !fs.halted && r.Some? && HasFlag(flags, O_TRUNC) {
      Namei.MountsMaps(supers2, fs.supers, dev);
      Inode.TruncatedAt(blocks0, tslot, Namei.Home(blocks0, dev, nr), supers2, fs.supers, now);
    }
  }

  /**
   * The creating half of `inode_open` for a name not yet in directory slot
   * `d`: the entry added, an inode allocated and its number stored (`EOF`
   * as 16 bits), the record `Created`; then the checks of `makeup`.
   */
  method OpenNew(fs: FileSystem, d: nat, path: seq<byte>, p: nat, flags: int, mode: int, now: nat, ghost inodes0: seq<InodeSlot>, dev: int)
    returns (r: Option<nat>, ghost tr: CreateTrace)
    requires Namei.Counted(inodes0, fs.task) && Namei.Headroom(inodes0, 2) && Namei.Ready(fs) && d < INODE_NR
    requires Namei.Holds(inodes0, fs.inodes, Some(d)) && fs.inodes[d].dev == dev && now < U32_LIMIT
    requires Dir.Lookup(fs.blocks, fs.inodes[d], path, p).None?
    modifies fs
    ensures fs.Valid() && fs.files == old(fs.files) && fs.task == old(fs.task)
    ensures !fs.halted ==> Namei.Table(fs.supers, fs.inodes) && Namei.Holds(inodes0, fs.inodes, r)
    ensures !fs.halted ==>
      (r.Some? <==> Path.Permission(Fresh(fs.task, mode), fs.task.uid, OpenMask(AccMode(flags))))
      && (r.Some? ==> r.value < INODE_NR && fs.inodes[r.value].dev == dev && fs.inodes[r.value].atime == now)
      && CreateWrote(old(fs.blocks), fs.supers, fs.blocks, fs.inodes, old(fs.inodes[d]), path, p, flags, fs.task, mode, now, r, tr)
    ensures r.Some? ==> r.value < INODE_NR
  {
    ghost var blocks0, supers0, sd := fs.blocks, fs.supers, fs.inodes[d];
    tr := CreateTrace(Placing(blocks0, 0, 0, {}), blocks0, EOF, sd);
    var j, z, touched := Dir.AddEntry(fs, d, path, p, now);
    if fs.halted {
      return None, tr;
    }
    ghost var e := Placing(fs.blocks, j, z, touched);
    var bit := Bmap.Ialloc(fs, dev);
    if fs.halted {
      return None, tr;
    }
    ghost var taken := fs.blocks;
    Number(fs, dev, z, j % BLOCK_DENTRIES, bit % U16_LIMIT);
    ghost var t;
    r, t := OpenCreated(fs, d, bit % U16_LIMIT, flags, mode, now, inodes0, dev);
    tr := CreateTrace(e, taken, bit, t);
    if !fs.halted {
      Namei.MountsMaps(supers0, fs.supers, dev);
    }
  }

  /** The rest of the creating half of `inode_open`, once inode `nr` is allocated and named. */
  method OpenCreated(fs: FileSystem, d: nat, nr: nat, flags: int, mode: int, now: nat, ghost inodes0: seq<InodeSlot>, dev: int)
    returns (r: Option<nat>, ghost t: InodeSlot)
    requires fs.Valid() && !fs.halted && Namei.Counted(inodes0, fs.task) && Namei.Headroom(inodes0, 2) && d < INODE_NR
    requires Namei.Table(fs.supers, fs.inodes) && Namei.Holds(inodes0, fs.inodes, Some(d)) && fs.inodes[d].dev == dev && now < U32_LIMIT
    modifies fs
    ensures fs.Valid() && fs.files == old(fs.files) && fs.task == old(fs.task)
    ensures !fs.halted ==> Namei.Table(fs.supers, fs.inodes) && Namei.Holds(inodes0, fs.inodes, r)
    ensures !fs.halted ==>
      (r.Some? <==> Path.Permission(Fresh(fs.task, mode), fs.task.uid, OpenMask(AccMode(flags))))
      && (r.Some? ==> r.value < INODE_NR && fs.inodes[r.value].dev == dev && fs.inodes[r.value].atime == now)
      && Namei.Mounts(old(fs.supers), fs.supers)
      && t.nr == nr && CreateTail(old(fs.blocks), fs.supers, fs.blocks, fs.inodes, dev, t, flags, fs.task, mode, now, r)
    ensures r.Some? ==> r.value < INODE_NR
  {
    ghost var inodes1 := fs.inodes;
    t := fs.inodes[d];
    Namei.HoldsHeadroom(inodes0, inodes1, Some(d), 1);
    var m := Namei.Get(fs, dev, nr, now);
    if fs.halted {
      return None, t;
    }
    HoldsAfterGot2(inodes0, inodes1, fs.inodes, d, m);
    ghost var c := Created(Desc(fs.blocks, fs.inodes[m]), fs.task, mode, now);
    Create(fs, m, mode, now);
    assert Desc(fs.blocks, fs.inodes[m]) == c && !IsDir(c.mode);
    ghost var mask := OpenMask(AccMode(flags));
    Path.PermissionFields(c, Fresh(fs.task, mode), fs.task.uid, mask);
    ghost var created, supers2 := fs.blocks, fs.supers;
    t := fs.inodes[m];
    r := Makeup(fs, d, m, flags, now, inodes0);
    if !fs.halted {
      Namei.MountsMaps(supers2, fs.supers, dev);
      Inode.TruncatedAt(created, t, t, supers2, fs.supers, now);
      Namei.MountsTrans(old(fs.supers), supers2, fs.supers);
      assert CreateTail(old(fs.blocks), fs.supers, fs.blocks, fs.inodes, dev, t, flags, fs.task, mode, now, r);
    }
  }

  /** Writes `Created` into the record of slot `m`. */
  method Create(fs: FileSystem, m: nat, mode: int, now: nat)
    requires fs.Valid() && m < INODE_NR && now < U32_LIMIT
    modifies fs
    ensures fs.Valid() && fs.supers == old(fs.supers) && fs.inodes == old(fs.inodes) && fs.files == old(fs.files)
    ensures fs.task == old(fs.task) && fs.halted == old(fs.halted)
    ensures fs.blocks == PutDesc(old(fs.blocks), fs.inodes[m], Created(Desc(old(fs.blocks), fs.inodes[m]), fs.task, mode, now))
  {
    fs.blocks := PutDesc(fs.blocks, fs.inodes[m], Created(Desc(fs.blocks, fs.inodes[m]), fs.task, mode, now));
  }

  /**
   * `makeup` and what follows, holding directory slot `d` and slot `m`:
   * refuse a directory or a mask not granted, releasing both; otherwise
   * set the access time, truncate for `O_TRUNC`, release the directory and
   * keep `m`.
   */
  method Makeup(fs: FileSystem, d: nat, m: nat, flags: int, now: nat, ghost inodes0: seq<InodeSlot>) returns (r: Option<nat>)
    requires fs.Valid() && !fs.halted && d < INODE_NR && m < INODE_NR && Namei.Counted(inodes0, fs.task) && now < U32_LIMIT
    requires Namei.Table(fs.supers, fs.inodes) && Holds2(inodes0, fs.inodes, d, m)
    modifies fs
    ensures fs.Valid() && fs.files == old(fs.files) && fs.task == old(fs.task)
    ensures !fs.halted ==> Namei.Table(fs.supers, fs.inodes) && Namei.Holds(inodes0, fs.inodes, r) && Namei.Mounts(old(fs.supers), fs.supers)
    ensures var t := old(Desc(fs.blocks, fs.inodes[m]));
      !fs.halted ==>
        (r.Some? <==> !IsDir(t.mode) && Path.Permission(t, fs.task.uid, OpenMask(AccMode(flags))))
        && (r.None? ==> fs.blocks == old(fs.blocks))
        && (r.Some? ==>
              r == Some(m) && Namei.Same(old(fs.inodes[m]), fs.inodes[m]) && fs.inodes[m].atime == now
              && (fs.blocks, false) == (if HasFlag(flags, O_TRUNC) then Inode.Truncated(old(fs.blocks), old(fs.inodes[m]), old(fs.supers), now)
                                        else (old(fs.blocks), false)))
    ensures r.Some? ==> r.value < INODE_NR
  {
    var t := Desc(fs.blocks, fs.inodes[m]);
    if IsDir(t.mode) || !Path.Permission(t, fs.task.uid, OpenMask(AccMode(flags))) {
      Release2(fs, m, d, inodes0);
      return None;
    }
    Admit(fs, d, m, flags, now, inodes0);
    if fs.halted {
      return None;
    }
    r := Some(m);
  }

  /** The accepting end of `makeup`: access time, truncation for `O_TRUNC`, then `iput(dir)`. */
  method Admit(fs: FileSystem, d: nat, m: nat, flags: int, now: nat, ghost inodes0: seq<InodeSlot>)
    requires fs.Valid() && !fs.halted && d < INODE_NR && m < INODE_NR && Namei.Counted(inodes0, fs.task) && now < U32_LIMIT
    requires Namei.Table(fs.supers, fs.inodes) && Holds2(inodes0, fs.inodes, d, m)
    modifies fs
    ensures fs.Valid() && fs.files == old(fs.files) && fs.task == old(fs.task)
    ensures !fs.halted ==>
      Namei.Table(fs.supers, fs.inodes) && Namei.Holds(inodes0, fs.inodes, Some(m)) && Namei.Mounts(old(fs.supers), fs.supers)
      && Namei.Same(old(fs.inodes[m]), fs.inodes[m]) && fs.inodes[m].atime == now
      && (fs.blocks, false) == (if HasFlag(flags, O_TRUNC) then Inode.Truncated(old(fs.blocks), old(fs.inodes[m]), old(fs.supers), now)
                                else (old(fs.blocks), false))
  {
    Opening(fs, m, flags, now, inodes0, d);
    if fs.halted {
      return;
    }
    ghost var inodes2 := fs.inodes;
    Namei.Put(fs, d);
    if fs.halted {
      return;
    }
    HoldsAfterDrop2(inodes0, inodes2, fs.inodes, m, d);
  }

  /** The access time of slot `m` set to `now`, then the truncation `O_TRUNC` asks for. */
  method Opening(fs: FileSystem, m: nat, flags: int, now: nat, ghost inodes0: seq<InodeSlot>, ghost d: nat)
    requires fs.Valid() && !fs.halted && m < INODE_NR && now < U32_LIMIT
    requires Namei.Table(fs.supers, fs.inodes) && Holds2(inodes0, fs.inodes, d, m)
    modifies fs
    ensures fs.Valid() && fs.supers == old(fs.supers) && fs.files == old(fs.files) && fs.task == old(fs.task)
    ensures fs.inodes == old(fs.inodes)[m := old(fs.inodes[m]).(atime := now)]
    ensures Namei.Table(fs.supers, fs.inodes) && Holds2(inodes0, fs.inodes, d, m)
    ensures (fs.blocks, fs.halted) == (if HasFlag(flags, O_TRUNC) then Inode.Truncated(old(fs.blocks), old(fs.inodes[m]), fs.supers, now)
                                       else (old(fs.blocks), false))
  {
    ghost var s := fs.inodes[m];
    Accessed(fs, m, now, inodes0, d);
    if HasFlag(flags, O_TRUNC) {
      Inode.TruncatedAt(fs.blocks, s, fs.inodes[m], fs.supers, fs.supers, now);
      Inode.InodeTruncate(fs, m, now);
    }
  }

  /** `inode->atime = now` on slot `m`, one of the two slots `d` and `m` held over `inodes0`; no reference changes. */
  method Accessed(fs: FileSystem, m: nat, now: nat, ghost inodes0: seq<InodeSlot>, ghost d: nat)
    requires fs.Valid() && m < INODE_NR && Namei.Table(fs.supers, fs.inodes) && Holds2(inodes0, fs.inodes, d, m)
    modifies fs
    ensures fs.Valid() && fs.blocks == old(fs.blocks) && fs.supers == old(fs.supers) && fs.files == old(fs.files)
    ensures fs.task == old(fs.task) && fs.halted == old(fs.halted)
    ensures fs.inodes == old(fs.inodes)[m := old(fs.inodes[m]).(atime := now)]
    ensures Namei.Table(fs.supers, fs.inodes) && Holds2(inodes0, fs.inodes, d, m)
  {
    fs.inodes := fs.inodes[m := fs.inodes[m].(atime := now)];
    Namei.SameDevs(fs.supers, old(fs.inodes), fs.inodes);
  }

  // ------------------------------------------------- chdir, chroot, getcwd

  /**
   * The task holds one reference on its working directory and one on its
   * root: two on the slot when they are the same.
   */
  ghost predicate TaskHolds(inodes: seq<InodeSlot>, task: Task)
  {
    var least := if task.ipwd == task.iroot then 2 else 1;
    task.ipwd < |inodes| && task.iroot < |inodes| && inodes[task.ipwd].count >= least && inodes[task.iroot].count >= least
  }

  /**
   * One reference moved from slot `from` to slot `to`: every other count as
   * it was, a slot other than these two in use exactly when it was, and a
   * slot in use before and after holding the same inode.
   */
  ghost predicate Moved(inodes0: seq<InodeSlot>, inodes: seq<InodeSlot>, from: nat, to: nat)
  {
    |inodes| == |inodes0|
    && forall j :: 0 <= j < |inodes| ==>
         inodes[j].count + (if j == from then 1 else 0) == inodes0[j].count + (if j == to then 1 else 0)
         && (j != from && j != to ==> inodes[j].dev == inodes0[j].dev)
         && (inodes0[j].dev != EOF && inodes[j].count != 0 ==> Namei.Same(inodes0[j], inodes[j]))
  }

  /** Taking a reference on `to` and then dropping one on another slot `from` moves one reference. */
  lemma MovedAfterDrop(inodes0: seq<InodeSlot>, inodes1: seq<InodeSlot>, inodes: seq<InodeSlot>, from: nat, to: nat)
    requires from != to && Namei.Holds(inodes0, inodes1, Some(to)) && Namei.Dropped(inodes1, inodes, from)
    ensures Moved(inodes0, inodes, from, to)
  {
  }

  /**
   * Moving the reference of the slot being replaced (`from`, the working
   * directory when `pwd` holds, the root otherwise) to the directory slot
   * `to` keeps the task holding its references.
   */
  lemma TaskHoldsMoved(inodes0: seq<InodeSlot>, inodes: seq<InodeSlot>, task: Task, to: nat, pwd: bool)
    requires TaskHolds(inodes0, task) && to < |inodes0|
    requires var from := if pwd then task.ipwd else task.iroot;
      from != to && Moved(inodes0, inodes, from, to)
    ensures TaskHolds(inodes, if pwd then task.(ipwd := to) else task.(iroot := to))
  {
    var from := if pwd then task.ipwd else task.iroot;
    assert inodes[to].count == inodes0[to].count + 1;
    assert inodes[from].count + 1 == inodes0[from].count;
  }

  /**
   * A successful change of directory slot `from` to `to`: the walk `w`
   * reached a directory, `to` holds it and differs from `from`, and one
   * reference moved from `from` to `to`.
   */
  ghost predicate Rebound(inodes0: seq<InodeSlot>, inodes: seq<InodeSlot>, blocks: map<Buffer.Ident, seq<byte>>,
                          dev: int, w: Namei.Walk, from: nat, to: nat)
  {
    w.Reaches? && IsDir(Desc(blocks, Namei.Home(blocks, dev, w.nr)).mode)
    && to != from && to < |inodes| && inodes[to].dev == dev && inodes[to].nr == w.nr
    && Moved(inodes0, inodes, from, to)
  }

  /**
   * A refused change of directory slot `from`: nothing held, and when the
   * walk did reach a directory, slot `from` already held that inode.
   */
  ghost predicate Kept(inodes0: seq<InodeSlot>, inodes: seq<InodeSlot>, blocks: map<Buffer.Ident, seq<byte>>,
                       dev: int, w: Namei.Walk, path: seq<byte>, from: nat)
    requires from < |inodes0|
  {
    Namei.Holds(inodes0, inodes, None)
    && (Path.At(path, 0) != EOS && w.Reaches? && IsDir(Desc(blocks, Namei.Home(blocks, dev, w.nr)).mode) ==>
          inodes0[from].dev == dev && inodes0[from].nr == w.nr)
  }

  /**
   * How `chdir` ended for the walk `w` that `namei` makes on `dev`: 0 with
   * the working directory moved to the inode reached and its path text the
   * canonical path `abspath` builds, or `EOF` with the task as it was.
   */
  ghost predicate ChdirOutcome(inodes0: seq<InodeSlot>, inodes: seq<InodeSlot>, task0: Task, task: Task,
                               blocks: map<Buffer.Ident, seq<byte>>, halted: bool, dev: int, w: Namei.Walk, path: seq<byte>, r: int)
    requires task0.ipwd < |inodes0| && Path.AbspathFits(task0.pwd, path)
  {
    (Path.At(path, 0) != EOS && w.Hangs? ==> halted)
    && (!halted ==>
          (r == 0 || r == EOF)
          && (r == 0 ==>
                Path.At(path, 0) != EOS && Rebound(inodes0, inodes, blocks, dev, w, task0.ipwd, task.ipwd)
                && task == task0.(ipwd := task.ipwd, pwd := task.pwd)
                && |task.pwd| == |task0.pwd| && CString.Terminated(task.pwd)
                && CString.Text(task.pwd) == Path.Canonical(task0.pwd, path).0)
          && (r == EOF ==> task == task0 && Kept(inodes0, inodes, blocks, dev, w, path, task0.ipwd)))
  }

  /** How `chroot` ended: as `chdir`, on the root slot, and with no path text. */
  ghost predicate ChrootOutcome(inodes0: seq<InodeSlot>, inodes: seq<InodeSlot>, task0: Task, task: Task,
                                blocks: map<Buffer.Ident, seq<byte>>, halted: bool, dev: int, w: Namei.Walk, path: seq<byte>, r: int)
    requires task0.iroot < |inodes0|
  {
    (Path.At(path, 0) != EOS && w.Hangs? ==> halted)
    && (!halted ==>
          (r == 0 || r == EOF)
          && (r == 0 ==>
                Path.At(path, 0) != EOS && Rebound(inodes0, inodes, blocks, dev, w, task0.iroot, task.iroot)
                && task == task0.(iroot := task.iroot))
          && (r == EOF ==> task == task0 && Kept(inodes0, inodes, blocks, dev, w, path, task0.iroot)))
  }

  /** `sys_chdir`. */
  method Chdir(fs: FileSystem, path: seq<byte>, now: nat) returns (r: int)
    requires Namei.Ready(fs) && Namei.Headroom(fs.inodes, 2) && TaskHolds(fs.inodes, fs.task)
    requires Path.AbspathFits(fs.task.pwd, path)
    modifies fs
    ensures fs.Valid() && fs.blocks == old(fs.blocks) && fs.files == old(fs.files)
    ensures !fs.halted ==> Namei.Ready(fs) && TaskHolds(fs.inodes, fs.task)
    ensures var start := old(fs.inodes[Namei.StartSlot(fs.task, path)]);
      ChdirOutcome(old(fs.inodes), fs.inodes, old(fs.task), fs.task, fs.blocks, fs.halted, start.dev,
                   Namei.NameiWalk(fs.blocks, start.dev, start.nr, path, old(fs.task).uid), path, r)
  {
    ghost var inodes0 := fs.inodes;
    var k, ok := Pick(fs, path, now, true);
    if !ok {
      return EOF;
    }
    var buf := Path.Abspath(fs.task.pwd, path);
    Rebind(fs, k, inodes0, true, buf);
    r := 0;
  }

  /** `sys_chroot`. */
  method Chroot(fs: FileSystem, path: seq<byte>, now: nat) returns (r: int)
    requires Namei.Ready(fs) && Namei.Headroom(fs.inodes, 2) && TaskHolds(fs.inodes, fs.task)
    modifies fs
    ensures fs.Valid() && fs.blocks == old(fs.blocks) && fs.files == old(fs.files)
    ensures !fs.halted ==> Namei.Ready(fs) && TaskHolds(fs.inodes, fs.task)
    ensures var start := old(fs.inodes[Namei.StartSlot(fs.task, path)]);
      ChrootOutcome(old(fs.inodes), fs.inodes, old(fs.task), fs.task, fs.blocks, fs.halted, start.dev,
                    Namei.NameiWalk(fs.blocks, start.dev, start.nr, path, old(fs.task).uid), path, r)
  {
    ghost var inodes0, task0 := fs.inodes, fs.task;
    ghost var start := fs.inodes[Namei.StartSlot(fs.task, path)];
    var k, ok := Pick(fs, path, now, false);
    if !ok {
      return EOF;
    }
    ghost var w := Namei.NameiWalk(fs.blocks, start.dev, start.nr, path, task0.uid);
    ghost var inodes1 := fs.inodes;
    Rebind(fs, k, inodes0, false, fs.task.pwd);
    if !fs.halted {
      ChrootDone(inodes0, inodes1, fs.inodes, fs.blocks, start.dev, w, path, task0, k);
    }
    r := 0;
  }

  /** A root change that went through ends as `ChrootOutcome` says for 0. */
  lemma ChrootDone(inodes0: seq<InodeSlot>, inodes1: seq<InodeSlot>, inodes: seq<InodeSlot>, blocks: map<Buffer.Ident, seq<byte>>,
                   dev: int, w: Namei.Walk, path: seq<byte>, task0: Task, k: nat)
    requires task0.iroot < |inodes0| && k < |inodes1| && k < |inodes| && inodes[k] == inodes1[k]
    requires Path.At(path, 0) != EOS && w.Reaches? && IsDir(Desc(blocks, Namei.Home(blocks, dev, w.nr)).mode)
    requires k != task0.iroot && inodes1[k].dev == dev && inodes1[k].nr == w.nr && Moved(inodes0, inodes, task0.iroot, k)
    ensures ChrootOutcome(inodes0, inodes, task0, task0.(iroot := k), blocks, false, dev, w, path, 0)
  {
  }

  /**
   * The checks `chdir` (`pwd`) and `chroot` share: `namei`, then a
   * directory other than the slot being replaced; a refused inode is put
   * back.
   */
  method Pick(fs: FileSystem, path: seq<byte>, now: nat, pwd: bool) returns (k: nat, ok: bool)
    requires Namei.Ready(fs) && Namei.Headroom(fs.inodes, 2)
    modifies fs
    ensures fs.Valid() && fs.blocks == old(fs.blocks) && fs.files == old(fs.files) && fs.task == old(fs.task)
    ensures ok ==> !fs.halted
    ensures !fs.halted ==> Namei.Ready(fs)
    ensures var start := old(fs.inodes[Namei.StartSlot(fs.task, path)]);
      var w := Namei.NameiWalk(fs.blocks, start.dev, start.nr, path, fs.task.uid);
      var from := if pwd then fs.task.ipwd else fs.task.iroot;
      (Path.At(path, 0) != EOS && w.Hangs? ==> fs.halted)
      && (!fs.halted && ok ==>
            Path.At(path, 0) != EOS && w.Reaches? && IsDir(Desc(fs.blocks, Namei.Home(fs.blocks, start.dev, w.nr)).mode)
            && k != from && k < INODE_NR && fs.inodes[k].dev == start.dev && fs.inodes[k].nr == w.nr
            && Namei.Holds(old(fs.inodes), fs.inodes, Some(k)))
      && (!fs.halted && !ok ==> Kept(old(fs.inodes), fs.inodes, fs.blocks, start.dev, w, path, from))
  {
    ghost var inodes0 := fs.inodes;
    assert Namei.Counted(inodes0, fs.task);
    ghost var start := fs.inodes[Namei.StartSlot(fs.task, path)];
    var m := Namei.Namei(fs, path, now);
    if fs.halted || m.None? {
      return 0, false;
    }
    k := m.value;
    var from := if pwd then fs.task.ipwd else fs.task.iroot;
    assert Namei.Same(inodes0[from], fs.inodes[from]);
    ok := Screen(fs, k, from, inodes0);
  }

  /** The test of `chdir` and `chroot` on the slot `k` that `namei` gave: a directory, and not slot `from`; otherwise `iput`. */
  method Screen(fs: FileSystem, k: nat, from: nat, ghost inodes0: seq<InodeSlot>) returns (ok: bool)
    requires Namei.Ready(fs) && Namei.Counted(inodes0, fs.task) && k < INODE_NR && Namei.Holds(inodes0, fs.inodes, Some(k))
    modifies fs
    ensures fs.Valid() && fs.blocks == old(fs.blocks) && fs.files == old(fs.files) && fs.task == old(fs.task)
    ensures ok <==> IsDir(Desc(fs.blocks, Namei.Home(fs.blocks, old(fs.inodes[k]).dev, old(fs.inodes[k]).nr)).mode) && k != from
    ensures ok ==> !fs.halted && fs.inodes == old(fs.inodes)
    ensures !fs.halted ==> Namei.Ready(fs)
    ensures !ok && !fs.halted ==> Namei.Holds(inodes0, fs.inodes, None)
  {
    assert Namei.Located(fs.blocks, fs.inodes[k]);
    Namei.AtHome(fs.blocks, fs.inodes[k]);
    if !IsDir(Desc(fs.blocks, fs.inodes[k]).mode) || k == from {
      Namei.Drop(fs, k, inodes0);
      return false;
    }
    ok := true;
  }

  /**
   * `iput` of the slot being replaced, then the task's working directory
   * (`pwd`, with path text `text`) or root set to slot `k`.
   */
  method Rebind(fs: FileSystem, k: nat, ghost inodes0: seq<InodeSlot>, pwd: bool, text: seq<byte>)
    requires Namei.Ready(fs) && TaskHolds(inodes0, fs.task) && Namei.Counted(inodes0, fs.task) && k < INODE_NR
    requires Namei.Holds(inodes0, fs.inodes, Some(k)) && k != (if pwd then fs.task.ipwd else fs.task.iroot)
    modifies fs
    ensures fs.Valid() && fs.blocks == old(fs.blocks) && fs.files == old(fs.files)
    ensures fs.task == if pwd then old(fs.task).(ipwd := k, pwd := text) else old(fs.task).(iroot := k)
    ensures !fs.halted ==>
      Namei.Ready(fs) && TaskHolds(fs.inodes, fs.task)
      && Moved(inodes0, fs.inodes, if pwd then old(fs.task).ipwd else old(fs.task).iroot, k)
      && fs.inodes[k] == old(fs.inodes[k])
  {
    ghost var inodes1, task0 := fs.inodes, fs.task;
    var from := if pwd then fs.task.ipwd else fs.task.iroot;
    Namei.Put(fs, from);
    Assign(fs, k, pwd, text);
    if fs.halted {
      return;
    }
    MovedAfterDrop(inodes0, inodes1, fs.inodes, from, k);
    TaskHoldsMoved(inodes0, fs.inodes, task0, k, pwd);
    RootsInUse(fs.inodes, fs.task);
  }

  /** `task->ipwd = inode` (with the new path text) or `task->iroot = inode`. */
  method Assign(fs: FileSystem, k: nat, pwd: bool, text: seq<byte>)
    requires fs.Valid() && k < INODE_NR
    modifies fs
    ensures fs.Valid() && fs.blocks == old(fs.blocks) && fs.supers == old(fs.supers) && fs.inodes == old(fs.inodes)
    ensures fs.files == old(fs.files) && fs.halted == old(fs.halted)
    ensures fs.task == if pwd then old(fs.task).(ipwd := k, pwd := text) else old(fs.task).(iroot := k)
  {
    fs.task := if pwd then fs.task.(ipwd := k, pwd := text) else fs.task.(iroot := k);
  }

  /** Slots the task holds references on are in use. */
  lemma RootsInUse(inodes: seq<InodeSlot>, task: Task)
    requires Namei.Counts(inodes) && TaskHolds(inodes, task)
    ensures inodes[task.ipwd].dev != EOF && inodes[task.iroot].dev != EOF
  {
  }

  /** `sys_getcwd`: the working directory's path text copied into the first `size` bytes of `buf` as `strncpy` does. */
  method Getcwd(fs: FileSystem, buf: array<byte>, size: nat)
    requires CString.Terminated(fs.task.pwd) && size <= buf.Length
    modifies buf
    ensures buf[..size] == CString.StrncpyBytes(fs.task.pwd, size) && buf[size..] == old(buf[size..])
  {
    var _ := CString.Strncpy(buf, 0, fs.task.pwd, size);
  }
}
