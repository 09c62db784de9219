/**
 * Path resolution and the directory system calls of `namei.c`: `named`
 * walks every component but the last, `namei` resolves the last one too,
 * and `mkdir`, `rmdir`, `link`, `unlink`, `inode_open`, `chdir` and
 * `chroot` are built on them.
 *
 * A walk never crosses devices: each step takes the inode number from the
 * entry found and reads it in on the device of the directory it came from.
 */
module Namei {
  import opened Base
  import Buffer
  import opened FsLayout
  import opened FsState
  import Path
  import Bmap
  import Inode
  import Dir

  // ------------------------------------------------------ inode locations

  /** Where inode `nr` of `dev` lives: the slot shape `iget` gives it, with no references. */
  function Home(blocks: map<Buffer.Ident, seq<byte>>, dev: int, nr: nat): (s: InodeSlot)
    ensures s.index < BLOCK_INODES && s.dev == dev && s.nr == nr
  {
    InodeSlot(dev, nr, 0, 0, 0, Inode.InodeBlock(SuperOf(blocks, dev), nr), Inode.InodeIndex(nr))
  }

  /** The slot reads the record its inode number names on its device. */
  predicate Located(blocks: map<Buffer.Ident, seq<byte>>, s: InodeSlot)
  {
    s.block == Inode.InodeBlock(SuperOf(blocks, s.dev), s.nr) && s.index == Inode.InodeIndex(s.nr)
  }

  /**
   * The inode table as `iget` and `iput` keep it, and every slot in use
   * reading its own record.
   */
  ghost predicate Linked(blocks: map<Buffer.Ident, seq<byte>>, supers: seq<SuperSlot>, inodes: seq<InodeSlot>)
  {
    Table(supers, inodes) && AllLocated(blocks, inodes)
  }

  /**
   * The inode table as `iget` and `iput` keep it: a slot is in use exactly
   * when it holds references, every slot on a super block's inode list is
   * in use on that super block's device, and every slot in use sits on its
   * device's list.
   */
  ghost predicate Table(supers: seq<SuperSlot>, inodes: seq<InodeSlot>)
  {
    Counts(inodes) && Listed(supers, inodes) && Complete(supers, inodes)
  }

  /** A slot is in use exactly when it holds references, and no count has wrapped. */
  ghost predicate Counts(inodes: seq<InodeSlot>)
  {
    forall k :: 0 <= k < |inodes| ==> (inodes[k].dev == EOF <==> inodes[k].count == 0) && inodes[k].count < U32_LIMIT
  }

  /** Every slot in use reads its own record. */
  ghost predicate AllLocated(blocks: map<Buffer.Ident, seq<byte>>, inodes: seq<InodeSlot>)
  {
    forall k :: 0 <= k < |inodes| && inodes[k].dev != EOF ==> Located(blocks, inodes[k])
  }

  /** Every slot on a super block's inode list is in use on that super block's device. */
  ghost predicate Listed(supers: seq<SuperSlot>, inodes: seq<InodeSlot>)
  {
    forall j, x :: 0 <= j < |supers| && x in supers[j].inodeList ==> InUse(inodes, x, supers[j].dev)
  }

  /** Every slot in use sits on the inode list of its device. */
  ghost predicate Complete(supers: seq<SuperSlot>, inodes: seq<InodeSlot>)
  {
    forall k :: 0 <= k < |inodes| && inodes[k].dev != EOF ==> k in Inode.Resident(supers, inodes[k].dev)
  }

  /** Some slot in use holds inode `nr` of `dev`. */
  ghost predicate InCore(inodes: seq<InodeSlot>, dev: int, nr: nat)
  {
    exists j :: 0 <= j < |inodes| && inodes[j].dev == dev && inodes[j].nr == nr && dev != EOF
  }

  /** The super-block table with nothing but inode lists changed. */
  ghost predicate Mounts(supers: seq<SuperSlot>, supers': seq<SuperSlot>)
  {
    |supers'| == |supers| && forall j :: 0 <= j < |supers| ==> supers'[j] == supers[j].(inodeList := supers'[j].inodeList)
  }

  /** Changing inode lists keeps every device's maps. */
  lemma MountsMaps(supers: seq<SuperSlot>, supers': seq<SuperSlot>, dev: int)
    requires Mounts(supers, supers')
    ensures Bmap.ZoneMaps(supers', dev) == Bmap.ZoneMaps(supers, dev) && Bmap.InodeMaps(supers', dev) == Bmap.InodeMaps(supers, dev)
    ensures FindSuper(supers', dev) == FindSuper(supers, dev)
  {
    FindSuperDevs(supers, supers', dev);
  }

  /** Inode-list changes compose. */
  lemma MountsTrans(a: seq<SuperSlot>, b: seq<SuperSlot>, c: seq<SuperSlot>)
    requires Mounts(a, b) && Mounts(b, c)
    ensures Mounts(a, c)
  {
  }

  /** A count below the wrap gains one without wrapping. */
  lemma Bump(c: int)
    requires 0 <= c && c + 1 < U32_LIMIT
    ensures (c + 1) % U32_LIMIT == c + 1
  {
  }

  /** `FindSuper` looks at the devices only. */
  lemma {:induction false} FindSuperDevs(supers: seq<SuperSlot>, supers': seq<SuperSlot>, dev: int)
    requires |supers'| == |supers| && forall j :: 0 <= j < |supers| ==> supers'[j].dev == supers[j].dev
    ensures FindSuper(supers', dev) == FindSuper(supers, dev)
  {
    if |supers| > 0 {
      FindSuperDevs(supers[1..], supers'[1..], dev);
    }
  }

  /** Slot `x` is in use on `dev`. */
  predicate InUse(inodes: seq<InodeSlot>, x: nat, dev: int)
  {
    x < |inodes| && inodes[x].dev == dev && dev != EOF
  }

  /** Every reference count is at least `h` below the `uint32` wrap. */
  predicate Headroom(inodes: seq<InodeSlot>, h: nat)
  {
    forall j :: 0 <= j < |inodes| ==> inodes[j].count + h < U32_LIMIT
  }

  /**
   * `inodes` holds the references `inodes0` held plus one on slot `k`, if
   * any: every other count is as it was, a slot that was in use still holds
   * the same inode, and a slot other than `k` is in use exactly when it was.
   */
  ghost predicate Holds(inodes0: seq<InodeSlot>, inodes: seq<InodeSlot>, k: Option<nat>)
  {
    |inodes| == |inodes0|
    && forall j :: 0 <= j < |inodes| ==>
         inodes[j].count == inodes0[j].count + (if k == Some(j) then 1 else 0)
         && (k != Some(j) ==> inodes[j].dev == inodes0[j].dev)
         && (inodes0[j].dev != EOF ==> Same(inodes0[j], inodes[j]))
  }

  /** Two slots hold the same inode, read from the same record. */
  predicate Same(a: InodeSlot, b: InodeSlot)
  {
    a.dev == b.dev && a.nr == b.nr && a.block == b.block && a.index == b.index
  }

  /** What `iget` did to slot `r`: one more reference, the same inode if it was in use, every other slot as it was. */
  ghost predicate Got(inodes: seq<InodeSlot>, inodes': seq<InodeSlot>, r: nat)
  {
    |inodes'| == |inodes| && r < |inodes|
    && inodes'[r].count == inodes[r].count + 1
    && (inodes[r].dev != EOF ==> Same(inodes[r], inodes'[r]))
    && forall j :: 0 <= j < |inodes| && j != r ==> inodes'[j] == inodes[j]
  }

  /** What `iput` did to slot `k`: one reference fewer, the same inode while any remain, every other slot as it was. */
  ghost predicate Dropped(inodes: seq<InodeSlot>, inodes': seq<InodeSlot>, k: nat)
  {
    |inodes'| == |inodes| && k < |inodes|
    && inodes'[k].count + 1 == inodes[k].count
    && (inodes'[k].count != 0 ==> Same(inodes[k], inodes'[k]))
    && forall j :: 0 <= j < |inodes| && j != k ==> inodes'[j] == inodes[j]
  }

  /** Two slots that point at the same record read the same directory. */
  lemma SameRecord(blocks: map<Buffer.Ident, seq<byte>>, s: InodeSlot, t: InodeSlot)
    requires s.index < BLOCK_INODES && s.dev == t.dev && s.block == t.block && s.index == t.index
    ensures Desc(blocks, s) == Desc(blocks, t) && Dir.Reach(blocks, s) == Dir.Reach(blocks, t)
    ensures forall i :: 0 <= i < Dir.MAX_ENTRIES ==> Dir.EntryAt(blocks, s, i) == Dir.EntryAt(blocks, t, i)
    ensures forall path, p :: Dir.Lookup(blocks, s, path, p) == Dir.Lookup(blocks, t, path, p)
  {
    forall b | 0 <= b < TOTAL_BLOCK
      ensures Bmap.Resolve(blocks, s, b) == Bmap.Resolve(blocks, t, b)
    {
    }
    var n := Dir.Reach(blocks, s);
    assert Dir.Names(blocks, s, n) == Dir.Names(blocks, t, n);
  }

  /** A slot that reads its own record reads what its home reads. */
  lemma AtHome(blocks: map<Buffer.Ident, seq<byte>>, s: InodeSlot)
    requires s.index < BLOCK_INODES && Located(blocks, s)
    ensures Desc(blocks, s) == Desc(blocks, Home(blocks, s.dev, s.nr))
    ensures forall i :: 0 <= i < Dir.MAX_ENTRIES ==> Dir.EntryAt(blocks, s, i) == Dir.EntryAt(blocks, Home(blocks, s.dev, s.nr), i)
    ensures forall path, p :: Dir.Lookup(blocks, s, path, p) == Dir.Lookup(blocks, Home(blocks, s.dev, s.nr), path, p)
  {
    SameRecord(blocks, s, Home(blocks, s.dev, s.nr));
  }

  /**
   * `iget` on a device in use: slot `r` gains a reference to inode `nr` of
   * `dev`, a reference it already had exactly when that inode was in core.
   * The table stays as `iget` and `iput` keep it, and if every slot in use
   * read its own record, every slot still does.
   */
  method Get(fs: FileSystem, dev: int, nr: nat, now: nat) returns (r: nat)
    requires fs.Valid() && !fs.halted && dev != EOF && Table(fs.supers, fs.inodes) && Headroom(fs.inodes, 1)
    modifies fs
    ensures fs.Valid() && fs.blocks == old(fs.blocks) && fs.files == old(fs.files) && fs.task == old(fs.task)
    ensures !fs.halted ==> Fetched(fs.blocks, old(fs.inodes), fs.supers, fs.inodes, dev, nr, r)
    ensures !fs.halted ==> Mounts(old(fs.supers), fs.supers)
  {
    ghost var supers0, inodes0 := fs.supers, fs.inodes;
    r := Inode.Iget(fs, dev, nr, now);
    if !fs.halted {
      TableAfterIget(fs.blocks, supers0, inodes0, fs.supers, fs.inodes, dev, nr, now, r);
    }
  }

  /** After `iget`: the table kept, and slot `r` holds one more reference, to inode `nr` of `dev`. */
  ghost predicate Fetched(blocks: map<Buffer.Ident, seq<byte>>, inodes: seq<InodeSlot>, supers': seq<SuperSlot>, inodes': seq<InodeSlot>,
                          dev: int, nr: nat, r: nat)
  {
    Table(supers', inodes') && Got(inodes, inodes', r) && r < INODE_NR && inodes'[r].dev == dev && inodes'[r].nr == nr
    && (inodes[r].count > 0 <==> InCore(inodes, dev, nr))
    && (AllLocated(blocks, inodes) ==> AllLocated(blocks, inodes'))
  }

  /** A successful `iget`, as its contract describes it, keeps the table. */
  lemma TableAfterIget(blocks: map<Buffer.Ident, seq<byte>>, supers: seq<SuperSlot>, inodes: seq<InodeSlot>,
                       supers': seq<SuperSlot>, inodes': seq<InodeSlot>, dev: int, nr: nat, now: nat, r: nat)
    requires |supers| == SUPER_NR && (forall j :: 0 <= j < SUPER_NR ==> SuperSlotOk(supers[j])) && |inodes| == INODE_NR
    requires dev != EOF && Table(supers, inodes) && Headroom(inodes, 1)
    requires Inode.Fetch(blocks, supers, inodes, supers', inodes', dev, nr, now, r)
    ensures Fetched(blocks, inodes, supers', inodes', dev, nr, r)
  {
    var sb := FindSuper(supers, dev).value;
    var hit := Inode.FindNr(inodes, Inode.Resident(supers, dev), nr);
    if hit.Some? {
      TableAfterHit(blocks, supers, inodes, inodes', sb, r);
      assert InUse(inodes, r, dev);
    } else {
      TableAfterLoad(blocks, supers, inodes, supers', inodes', sb, r);
      NotInCore(supers, inodes, dev, nr);
    }
  }

  /** An inode `find_inode` misses on its device's list is in no slot in use. */
  lemma NotInCore(supers: seq<SuperSlot>, inodes: seq<InodeSlot>, dev: int, nr: nat)
    requires Complete(supers, inodes)
    requires forall k :: 0 <= k < |Inode.Resident(supers, dev)| ==> Inode.Resident(supers, dev)[k] < |inodes|
    requires Inode.FindNr(inodes, Inode.Resident(supers, dev), nr).None?
    ensures !InCore(inodes, dev, nr)
  {
  }

  /** A resident inode gaining a reference keeps the table; it sits on its device's list. */
  lemma TableAfterHit(blocks: map<Buffer.Ident, seq<byte>>, supers: seq<SuperSlot>, inodes: seq<InodeSlot>,
                      inodes': seq<InodeSlot>, j: nat, r: nat)
    requires Table(supers, inodes) && Headroom(inodes, 1) && j < |supers| && r in supers[j].inodeList
    requires |inodes'| == |inodes| && forall k :: 0 <= k < |inodes| && k != r ==> inodes'[k] == inodes[k]
    requires inodes'[r] == inodes[r].(count := (inodes[r].count + 1) % U32_LIMIT, atime := inodes'[r].atime)
    ensures Table(supers, inodes') && Got(inodes, inodes', r) && inodes'[r].dev == supers[j].dev
    ensures AllLocated(blocks, inodes) ==> AllLocated(blocks, inodes')
  {
    SameDevs(supers, inodes, inodes');
    assert InUse(inodes, r, supers[j].dev);
  }

  /** A free slot loaded with an inode of the device of super-block slot `j` and pushed on its list keeps the table. */
  lemma TableAfterLoad(blocks: map<Buffer.Ident, seq<byte>>, supers: seq<SuperSlot>, inodes: seq<InodeSlot>,
                       supers': seq<SuperSlot>, inodes': seq<InodeSlot>, j: nat, r: nat)
    requires Table(supers, inodes) && j < |supers| && r < |inodes| && inodes[r].dev == EOF
    requires supers[j].dev != EOF && |inodes'| == |inodes| && inodes'[r].dev == supers[j].dev && Located(blocks, inodes'[r])
    requires inodes'[r].count == (inodes[r].count + 1) % U32_LIMIT
    requires forall k :: 0 <= k < |inodes| && k != r ==> inodes'[k] == inodes[k]
    requires supers' == supers[j := supers[j].(inodeList := [r] + supers[j].inodeList)]
    requires FindSuper(supers, supers[j].dev) == Some(j)
    ensures Table(supers', inodes') && Got(inodes, inodes', r)
    ensures AllLocated(blocks, inodes) ==> AllLocated(blocks, inodes')
  {
    LoadSlots(blocks, inodes, inodes', r);
    LoadListed(supers, inodes, inodes', j, r);
    LoadComplete(supers, inodes, inodes', j, r);
  }

  /** A free slot taking its first reference to an inode it reads keeps the counts and locations right. */
  lemma LoadSlots(blocks: map<Buffer.Ident, seq<byte>>, inodes: seq<InodeSlot>, inodes': seq<InodeSlot>, r: nat)
    requires Counts(inodes) && r < |inodes| == |inodes'| && inodes[r].dev == EOF
    requires inodes'[r].dev != EOF && Located(blocks, inodes'[r]) && inodes'[r].count == (inodes[r].count + 1) % U32_LIMIT
    requires forall k :: 0 <= k < |inodes| && k != r ==> inodes'[k] == inodes[k]
    ensures Counts(inodes') && inodes'[r].count == inodes[r].count + 1
    ensures AllLocated(blocks, inodes) ==> AllLocated(blocks, inodes')
  {
    Bump(inodes[r].count);
  }

  /** Pushing a slot just put in use on its device's list keeps every listed slot in use. */
  lemma LoadListed(supers: seq<SuperSlot>, inodes: seq<InodeSlot>, inodes': seq<InodeSlot>, j: nat, r: nat)
    requires Listed(supers, inodes) && j < |supers| && r < |inodes| == |inodes'| && inodes[r].dev == EOF
    requires supers[j].dev != EOF && inodes'[r].dev == supers[j].dev
    requires forall k :: 0 <= k < |inodes| && k != r ==> inodes'[k] == inodes[k]
    ensures Listed(supers[j := supers[j].(inodeList := [r] + supers[j].inodeList)], inodes')
  {
    var supers' := supers[j := supers[j].(inodeList := [r] + supers[j].inodeList)];
    forall i, x | 0 <= i < |supers'| && x in supers'[i].inodeList
      ensures InUse(inodes', x, supers'[i].dev)
    {
      if i != j || x != r {
        assert x in supers[i].inodeList;
        assert InUse(inodes, x, supers[i].dev);
      }
    }
  }

  /** Pushing a slot just put in use on its device's list keeps every slot in use on its list. */
  lemma LoadComplete(supers: seq<SuperSlot>, inodes: seq<InodeSlot>, inodes': seq<InodeSlot>, j: nat, r: nat)
    requires Complete(supers, inodes) && j < |supers| && r < |inodes| == |inodes'|
    requires FindSuper(supers, supers[j].dev) == Some(j) && inodes'[r].dev == supers[j].dev
    requires forall k :: 0 <= k < |inodes| && k != r ==> inodes'[k] == inodes[k]
    ensures Complete(supers[j := supers[j].(inodeList := [r] + supers[j].inodeList)], inodes')
  {
    var supers' := supers[j := supers[j].(inodeList := [r] + supers[j].inodeList)];
    forall k | 0 <= k < |inodes'| && inodes'[k].dev != EOF
      ensures k in Inode.Resident(supers', inodes'[k].dev)
    {
      var d := inodes'[k].dev;
      ResidentPush(supers, j, r, d);
    }
  }

  /** Pushing `r` on the list of super-block slot `j` adds it to that device's residents only. */
  lemma ResidentPush(supers: seq<SuperSlot>, j: nat, r: nat, d: int)
    requires j < |supers| && FindSuper(supers, supers[j].dev) == Some(j)
    ensures Inode.Resident(supers[j := supers[j].(inodeList := [r] + supers[j].inodeList)], d)
         == if d == supers[j].dev then [r] + Inode.Resident(supers, d) else Inode.Resident(supers, d)
  {
    var supers' := supers[j := supers[j].(inodeList := [r] + supers[j].inodeList)];
    FindSuperDevs(supers, supers', d);
  }

  /** Changing slots without changing which device each is in use on keeps the lists exact. */
  lemma SameDevs(supers: seq<SuperSlot>, inodes: seq<InodeSlot>, inodes': seq<InodeSlot>)
    requires Listed(supers, inodes) && Complete(supers, inodes) && |inodes'| == |inodes|
    requires forall k :: 0 <= k < |inodes| ==> inodes'[k].dev == inodes[k].dev
    ensures Listed(supers, inodes') && Complete(supers, inodes')
  {
    forall i, x | 0 <= i < |supers| && x in supers[i].inodeList
      ensures InUse(inodes', x, supers[i].dev)
    {
      assert InUse(inodes, x, supers[i].dev);
    }
  }

  /**
   * `iput` on a slot in use: slot `k` loses a reference and the table
   * stays as `iget` and `iput` keep it; slots that read their own records
   * still do.
   */
  method Put(fs: FileSystem, k: nat)
    requires fs.Valid() && !fs.halted && k < INODE_NR && fs.inodes[k].dev != EOF && Table(fs.supers, fs.inodes)
    modifies fs
    ensures fs.Valid() && fs.blocks == old(fs.blocks) && fs.files == old(fs.files) && fs.task == old(fs.task)
    ensures !fs.halted ==> Table(fs.supers, fs.inodes) && Dropped(old(fs.inodes), fs.inodes, k)
    ensures !fs.halted && AllLocated(fs.blocks, old(fs.inodes)) ==> AllLocated(fs.blocks, fs.inodes)
    ensures !fs.halted ==> Mounts(old(fs.supers), fs.supers)
    ensures !fs.halted && fs.inodes[k].count != 0 ==> fs.inodes[k] == old(fs.inodes[k]).(count := fs.inodes[k].count)
  {
    ghost var supers0, inodes0 := fs.supers, fs.inodes;
    Inode.Iput(fs, Some(k));
    if !fs.halted {
      TableAfterPut(fs.blocks, supers0, inodes0, fs.supers, fs.inodes, k);
    }
  }

  /** Dropping a reference, or freeing the slot and unlinking it from every list, keeps the table. */
  lemma TableAfterPut(blocks: map<Buffer.Ident, seq<byte>>, supers: seq<SuperSlot>, inodes: seq<InodeSlot>,
                      supers': seq<SuperSlot>, inodes': seq<InodeSlot>, k: nat)
    requires Inode.Release(supers, inodes, supers', inodes', k) && Table(supers, inodes) && inodes[k].dev != EOF
    ensures Table(supers', inodes') && Dropped(inodes, inodes', k)
    ensures AllLocated(blocks, inodes) ==> AllLocated(blocks, inodes')
  {
    if supers' != supers {
      UnlinkedListed(supers, inodes, inodes', k);
      UnlinkedComplete(supers, inodes, inodes', k);
    }
  }

  /** Unlinking a freed slot from every list keeps every listed slot in use. */
  lemma UnlinkedListed(supers: seq<SuperSlot>, inodes: seq<InodeSlot>, inodes': seq<InodeSlot>, k: nat)
    requires Listed(supers, inodes) && k < |inodes| == |inodes'| && inodes'[k].dev == EOF
    requires forall j :: 0 <= j < |inodes| && j != k ==> inodes'[j] == inodes[j]
    ensures Listed(Inode.Unlinked(supers, k), inodes')
  {
    var supers' := Inode.Unlinked(supers, k);
    forall i, x | 0 <= i < |supers'| && x in supers'[i].inodeList
      ensures InUse(inodes', x, supers'[i].dev)
    {
      var w := Inode.Without(supers[i].inodeList, k);
      assert supers'[i].inodeList == w;
      var n :| 0 <= n < |w| && w[n] == x;
      assert x in supers[i].inodeList && x != k;
      assert InUse(inodes, x, supers[i].dev);
    }
  }

  /** Unlinking a freed slot from every list keeps every other slot in use on its list. */
  lemma UnlinkedComplete(supers: seq<SuperSlot>, inodes: seq<InodeSlot>, inodes': seq<InodeSlot>, k: nat)
    requires Complete(supers, inodes) && k < |inodes| == |inodes'| && inodes'[k].dev == EOF
    requires forall j :: 0 <= j < |inodes| && j != k ==> inodes'[j] == inodes[j]
    ensures Complete(Inode.Unlinked(supers, k), inodes')
  {
    var supers' := Inode.Unlinked(supers, k);
    forall j | 0 <= j < |inodes'| && inodes'[j].dev != EOF
      ensures j in Inode.Resident(supers', inodes'[j].dev)
    {
      var d := inodes[j].dev;
      FindSuperDevs(supers, supers', d);
      assert j in Inode.Resident(supers, d);
    }
  }

  /** Releasing the one extra reference leaves the references as they were. */
  lemma HoldsAfterDrop(inodes0: seq<InodeSlot>, inodes1: seq<InodeSlot>, inodes2: seq<InodeSlot>, k: nat, h: nat)
    requires Holds(inodes0, inodes1, Some(k)) && Dropped(inodes1, inodes2, k) && Headroom(inodes0, h)
    requires forall j :: 0 <= j < |inodes0| ==> (inodes0[j].dev == EOF <==> inodes0[j].count == 0)
    requires forall j :: 0 <= j < |inodes2| ==> (inodes2[j].dev == EOF <==> inodes2[j].count == 0)
    ensures Holds(inodes0, inodes2, None) && Headroom(inodes2, h)
  {
  }

  /** Taking a reference on slot `m` with none extra held leaves that one extra reference. */
  lemma HoldsAfterGot(inodes0: seq<InodeSlot>, inodes1: seq<InodeSlot>, inodes2: seq<InodeSlot>, m: nat)
    requires Holds(inodes0, inodes1, None) && Got(inodes1, inodes2, m)
    ensures Holds(inodes0, inodes2, Some(m))
  {
  }

  /** With one extra reference held on top of `inodes0`, the counts keep a headroom one smaller. */
  lemma HoldsHeadroom(inodes0: seq<InodeSlot>, inodes: seq<InodeSlot>, k: Option<nat>, h: nat)
    requires Holds(inodes0, inodes, k) && Headroom(inodes0, h + 1)
    ensures Headroom(inodes, h)
  {
  }

  // ---------------------------------------------------------- named/namei

  /** How a walk ends: refused (NULL), looping for ever, or at inode `nr` with `next` at `next`. */
  datatype Walk = Fails | Hangs | Reaches(nr: nat, next: nat)

  /**
   * The loop of `named` from directory `nr` of `dev`, with the component
   * at `left` to resolve and the last component starting at `right`: find
   * the component, step into the inode its entry names, which must be a
   * directory the task may search, and stop once `next` reaches `right`.
   * A step that leaves `next` in place repeats for ever.
   */
  function WalkFrom(blocks: map<Buffer.Ident, seq<byte>>, dev: int, nr: nat, path: seq<byte>, left: nat, right: nat, uid: nat)
    : Walk
    requires left <= |path|
    decreases |path| + 1 - left, 1
  {
    var s := Home(blocks, dev, nr);
    match Dir.Lookup(blocks, s, path, left)
    case None => Fails
    case Some((i, next)) =>
      LookupAdvances(blocks, s, path, left);
      CrossWalk(blocks, dev, Dir.EntryAt(blocks, s, i).nr, path, left, next, right, uid)
  }

  /**
   * The rest of the loop of `named` once the entry for the component at
   * `left` names inode `m` and leaves `next` after the component.
   */
  function CrossWalk(blocks: map<Buffer.Ident, seq<byte>>, dev: int, m: nat, path: seq<byte>, left: nat, next: nat, right: nat, uid: nat)
    : Walk
    requires left <= next <= |path|
    decreases |path| + 1 - left, 0
  {
    var d := Desc(blocks, Home(blocks, dev, m));
    if !IsDir(d.mode) || !Path.Permission(d, uid, Path.P_EXEC) then Fails
    else if next == right then Reaches(m, next)
    else if next == left then Hangs
    else WalkFrom(blocks, dev, m, path, next, right, uid)
  }

  /** `find_entry` leaves `next` no further than the end of the path, and in place only at the end. */
  lemma LookupAdvances(blocks: map<Buffer.Ident, seq<byte>>, s: InodeSlot, path: seq<byte>, p: nat)
    requires s.index < BLOCK_INODES && p <= |path| && Dir.Lookup(blocks, s, path, p).Some?
    ensures p <= Dir.Lookup(blocks, s, path, p).value.1 <= |path|
    ensures Dir.Lookup(blocks, s, path, p).value.1 == p ==> Path.At(path, p) == EOS
  {
    var names := Dir.Names(blocks, s, Dir.Reach(blocks, s));
    Path.MatchNameAdvances(path, p, names[Dir.Lookup(blocks, s, path, p).value.0], 0);
  }

  // ------------------------------------------------------ walk by names

  /** The first of `names` from `i` on whose field shows `c`. */
  function FirstShown(names: seq<seq<byte>>, c: seq<byte>, i: nat): (r: Option<nat>)
    ensures r.Some? ==> i <= r.value < |names| && Dir.Shown(names[r.value]) == c
    ensures r.Some? ==> forall k :: i <= k < r.value ==> Dir.Shown(names[k]) != c
    ensures r.None? ==> forall k :: i <= k < |names| ==> Dir.Shown(names[k]) != c
    decreases |names| - i
  {
    if i >= |names| then None
    else if Dir.Shown(names[i]) == c then Some(i)
    else FirstShown(names, c, i + 1)
  }

  /** The first reachable entry of directory `s` named exactly `c`. */
  function Child(blocks: map<Buffer.Ident, seq<byte>>, s: InodeSlot, c: seq<byte>): Option<nat>
    requires s.index < BLOCK_INODES
  {
    FirstShown(Dir.Names(blocks, s, Dir.Reach(blocks, s)), c, 0)
  }

  /** No reachable entry of directory `s` has a separator in its name. */
  ghost predicate PlainDir(blocks: map<Buffer.Ident, seq<byte>>, s: InodeSlot)
    requires s.index < BLOCK_INODES
  {
    forall k :: 0 <= k < Dir.Reach(blocks, s) ==> Dir.Plain(Dir.EntryAt(blocks, s, k).name)
  }

  /** No directory of `dev` has a separator in an entry name, as every name `mkdir`, `link` and `open` store. */
  ghost predicate PlainTree(blocks: map<Buffer.Ident, seq<byte>>, dev: int)
  {
    forall nr :: PlainDir(blocks, Home(blocks, dev, nr))
  }

  /**
   * The walk of `named` as path resolution is usually described: each
   * round takes the next component whole, finds the first entry named
   * exactly that, and goes on after the separator that ends it.
   */
  function ByName(blocks: map<Buffer.Ident, seq<byte>>, dev: int, nr: nat, path: seq<byte>, left: nat, right: nat, uid: nat)
    : Walk
    requires left <= |path|
    decreases |path| + 1 - left
  {
    var s := Home(blocks, dev, nr);
    match Child(blocks, s, Path.Component(path, left))
    case None => Fails
    case Some(i) =>
      var m := Dir.EntryAt(blocks, s, i).nr;
      var next := Dir.After(path, left);
      var d := Desc(blocks, Home(blocks, dev, m));
      if !IsDir(d.mode) || !Path.Permission(d, uid, Path.P_EXEC) then Fails
      else if next == right then Reaches(m, next)
      else if next <= left || next > |path| then Hangs
      else ByName(blocks, dev, m, path, next, right, uid)
  }

  /** With plain names, `find_entry` finds the first entry named exactly the component, and leaves `next` past it. */
  lemma LookupByName(blocks: map<Buffer.Ident, seq<byte>>, s: InodeSlot, path: seq<byte>, p: nat)
    requires s.index < BLOCK_INODES && PlainDir(blocks, s)
    ensures Dir.Lookup(blocks, s, path, p) ==
      match Child(blocks, s, Path.Component(path, p))
      case None => None
      case Some(i) => Some((i, Dir.After(path, p)))
  {
    var names := Dir.Names(blocks, s, Dir.Reach(blocks, s));
    assert forall k :: 0 <= k < |names| ==> Dir.Plain(names[k]) by {
      forall k | 0 <= k < |names|
        ensures Dir.Plain(names[k])
      {
        assert names[k] == Dir.EntryAt(blocks, s, k).name;
      }
    }
    SearchIsFirst(names, path, p);
  }

  /** Among plain names, the search of `match_name` is the search for the first name equal to the component. */
  lemma SearchIsFirst(names: seq<seq<byte>>, path: seq<byte>, p: nat)
    requires forall k :: 0 <= k < |names| ==> Dir.Plain(names[k])
    ensures Dir.Search(names, path, p, 0) ==
      match FirstShown(names, Path.Component(path, p), 0)
      case None => None
      case Some(i) => Some((i, Dir.After(path, p)))
  {
    var c := Path.Component(path, p);
    var r := Dir.Search(names, path, p, 0);
    var f := FirstShown(names, c, 0);
    Dir.SearchFindsName(names, path, p);
    if r.Some? {
      var i := r.value.0;
      assert Dir.Shown(names[i]) == c;
      assert f.Some?;
      assert Dir.Shown(names[f.value]) == c;
      assert f.value == i;
    } else {
      assert f.None?;
    }
  }

  /** With plain names throughout the device, the walk of `named` is the walk by names. */
  lemma {:induction false} WalkByName(blocks: map<Buffer.Ident, seq<byte>>, dev: int, nr: nat, path: seq<byte>, left: nat, right: nat, uid: nat)
    requires PlainTree(blocks, dev) && left <= |path|
    ensures WalkFrom(blocks, dev, nr, path, left, right, uid) == ByName(blocks, dev, nr, path, left, right, uid)
    decreases |path| + 1 - left
  {
    var s := Home(blocks, dev, nr);
    assert PlainDir(blocks, s);
    LookupByName(blocks, s, path, left);
    match Dir.Lookup(blocks, s, path, left)
    case None =>
    case Some((i, next)) =>
      LookupAdvances(blocks, s, path, left);
      var m := Dir.EntryAt(blocks, s, i).nr;
      if next > left && next != right {
        WalkByName(blocks, dev, m, path, next, right, uid);
      }
  }

  /** Where `named` starts reading: past a leading separator. */
  function Start(path: seq<byte>): (p: nat)
    ensures p <= 1
  {
    if IsSeparator(Path.At(path, 0)) then 1 else 0
  }

  /**
   * `named` from the start directory `nr` of `dev`: with no separator after
   * the start the start directory itself is the parent; otherwise the walk
   * runs until `next` reaches the character after the last separator.
   */
  function NamedWalk(blocks: map<Buffer.Ident, seq<byte>>, dev: int, nr: nat, path: seq<byte>, uid: nat): Walk
  {
    var left := Start(path);
    if Path.At(path, left) == EOS then Reaches(nr, left)
    else match Path.Strrsep(path, left)
      case None => Reaches(nr, left)
      case Some(k) => WalkFrom(blocks, dev, nr, path, left, k + 1, uid)
  }

  /**
   * `namei`: the parent `named` reaches, then the entry for the last
   * component, without any check on the inode it names; a path that ends
   * at the parent gives the parent.
   */
  function NameiWalk(blocks: map<Buffer.Ident, seq<byte>>, dev: int, nr: nat, path: seq<byte>, uid: nat): Walk
  {
    match NamedWalk(blocks, dev, nr, path, uid)
    case Reaches(m, next) =>
      if Path.At(path, next) == EOS then Reaches(m, next)
      else
        var s := Home(blocks, dev, m);
        (match Dir.Lookup(blocks, s, path, next)
         case None => Fails
         case Some((i, after)) => Reaches(Dir.EntryAt(blocks, s, i).nr, after))
    case w => w
  }

  /** The directory a walk starts from: the root for a leading separator, else the working directory. */
  function StartSlot(task: Task, path: seq<byte>): nat
  {
    if IsSeparator(Path.At(path, 0)) then task.iroot else task.ipwd
  }

  /**
   * The outcome a resolving call reports for walk `w` on `dev`: a walk that
   * hangs never returns, and otherwise the call returns a slot exactly
   * when the walk reaches an inode, a slot holding that inode.
   */
  ghost predicate Reported(inodes: seq<InodeSlot>, halted: bool, dev: int, w: Walk, r: Option<nat>)
  {
    (w.Hangs? ==> halted)
    && (!halted ==>
          (r.Some? <==> w.Reaches?)
          && (r.Some? ==> r.value < |inodes| && inodes[r.value].dev == dev && inodes[r.value].nr == w.nr))
  }

  /** What a resolving call needs of the tables: linked, with the task's root and working directory in use. */
  ghost predicate Ready(fs: FileSystem)
    reads fs
  {
    fs.Valid() && !fs.halted && Linked(fs.blocks, fs.supers, fs.inodes)
    && fs.inodes[fs.task.iroot].dev != EOF && fs.inodes[fs.task.ipwd].dev != EOF
  }

  /**
   * `named`: NULL for the empty path; otherwise the parent directory of the
   * last component as `NamedWalk` finds it from the task's root or working
   * directory, with `next` at the last component. No block changes, and the
   * one reference the call leaves behind is on the slot it returns.
   */
  method Named(fs: FileSystem, path: seq<byte>, now: nat) returns (r: Option<nat>, next: nat)
    requires Ready(fs) && Headroom(fs.inodes, 1)
    modifies fs
    ensures fs.Valid() && fs.blocks == old(fs.blocks) && fs.files == old(fs.files) && fs.task == old(fs.task)
    ensures Path.At(path, 0) == EOS ==> Ready(fs) && r.None? && fs.inodes == old(fs.inodes) && fs.supers == old(fs.supers)
    ensures Path.At(path, 0) != EOS ==>
      var start := old(fs.inodes[StartSlot(fs.task, path)]);
      Ended(fs, old(fs.inodes), start.dev, NamedWalk(fs.blocks, start.dev, start.nr, path, fs.task.uid), r, next)
  {
    if Path.At(path, 0) == EOS {
      return None, 0;
    }
    ghost var inodes0 := fs.inodes;
    assert Counted(inodes0, fs.task);
    var k := StartSlot(fs.task, path);
    Hold(fs, k);
    HoldsRoots(inodes0, fs.inodes, fs.task, Some(k));
    r, next := Begin(fs, k, path, now, inodes0, fs.inodes[k].dev);
  }

  /** The body of `named` once it holds the start directory, slot `k`. */
  method Begin(fs: FileSystem, k: nat, path: seq<byte>, now: nat, ghost inodes0: seq<InodeSlot>, dev: int)
    returns (r: Option<nat>, next: nat)
    requires Counted(inodes0, fs.task) && Ready(fs) && k < INODE_NR && Holds(inodes0, fs.inodes, Some(k))
    requires fs.inodes[k].dev == dev && dev != EOF
    modifies fs
    ensures fs.Valid() && fs.blocks == old(fs.blocks) && fs.files == old(fs.files) && fs.task == old(fs.task)
    ensures Ended(fs, inodes0, dev, NamedWalk(fs.blocks, dev, old(fs.inodes[k].nr), path, fs.task.uid), r, next)
  {
    var left := Start(path);
    var right := None;
    if Path.At(path, left) != EOS {
      right := Path.Strrsep(path, left);
    }
    NamedSplit(fs.blocks, dev, fs.inodes[k].nr, path, fs.task.uid, left, right);
    if right.None? {
      EndedAtStart(fs, inodes0, dev, k, left);
      return Some(k), left;
    }
    ghost var w := WalkFrom(fs.blocks, dev, fs.inodes[k].nr, path, left, right.value + 1, fs.task.uid);
    r, next := Descend(fs, k, path, left, right.value + 1, now, inodes0, dev, w);
  }

  /** `named` from `left`, the start of the path, up to `right`, its last separator after the start, if any. */
  lemma NamedSplit(blocks: map<Buffer.Ident, seq<byte>>, dev: int, nr: nat, path: seq<byte>, uid: nat, left: nat, right: Option<nat>)
    requires left == Start(path)
    requires right == if Path.At(path, left) != EOS then Path.Strrsep(path, left) else None
    ensures left <= |path|
    ensures right.None? ==> NamedWalk(blocks, dev, nr, path, uid) == Reaches(nr, left)
    ensures right.Some? ==> NamedWalk(blocks, dev, nr, path, uid) == WalkFrom(blocks, dev, nr, path, left, right.value + 1, uid)
  {
  }

  /** A walk that stops at the start directory, slot `k`, ends there with the reference on `k`. */
  lemma EndedAtStart(fs: FileSystem, inodes0: seq<InodeSlot>, dev: int, k: nat, left: nat)
    requires Ready(fs) && k < INODE_NR && Holds(inodes0, fs.inodes, Some(k)) && fs.inodes[k].dev == dev
    ensures Ended(fs, inodes0, dev, Reaches(fs.inodes[k].nr, left), Some(k), left)
  {
  }

  /** `inode->count++` on a slot in use. */
  method Hold(fs: FileSystem, k: nat)
    requires fs.Valid() && !fs.halted && k < INODE_NR && fs.inodes[k].dev != EOF
    requires Linked(fs.blocks, fs.supers, fs.inodes) && Headroom(fs.inodes, 1)
    modifies fs
    ensures fs.Valid() && !fs.halted && Linked(fs.blocks, fs.supers, fs.inodes) && Holds(old(fs.inodes), fs.inodes, Some(k))
    ensures fs.blocks == old(fs.blocks) && fs.supers == old(fs.supers) && fs.files == old(fs.files) && fs.task == old(fs.task)
  {
    ghost var inodes0 := fs.inodes;
    AddRef(fs, k);
    LinkedAfterHold(fs.blocks, fs.supers, inodes0, fs.inodes, k);
  }

  /** The count of slot `k` up by one, in `uint32`. */
  method AddRef(fs: FileSystem, k: nat)
    requires fs.Valid() && k < INODE_NR
    modifies fs
    ensures fs.Valid() && fs.halted == old(fs.halted) && fs.blocks == old(fs.blocks) && fs.supers == old(fs.supers)
    ensures fs.files == old(fs.files) && fs.task == old(fs.task)
    ensures fs.inodes == old(fs.inodes)[k := old(fs.inodes[k]).(count := (old(fs.inodes[k].count) + 1) % U32_LIMIT)]
  {
    fs.inodes := fs.inodes[k := fs.inodes[k].(count := (fs.inodes[k].count + 1) % U32_LIMIT)];
  }

  /** One more reference on a slot in use keeps the table linked. */
  lemma LinkedAfterHold(blocks: map<Buffer.Ident, seq<byte>>, supers: seq<SuperSlot>, inodes: seq<InodeSlot>, inodes': seq<InodeSlot>, k: nat)
    requires Linked(blocks, supers, inodes) && Headroom(inodes, 1) && k < |inodes| && inodes[k].dev != EOF
    requires inodes' == inodes[k := inodes[k].(count := (inodes[k].count + 1) % U32_LIMIT)]
    ensures Linked(blocks, supers, inodes') && Holds(inodes, inodes', Some(k))
  {
    Bump(inodes[k].count);
    assert inodes'[k] == inodes[k].(count := inodes[k].count + 1);
    SameDevs(supers, inodes, inodes');
  }

  /**
   * The references a resolving call starts from: the task's root and
   * working directory in use, a slot in use exactly when it holds
   * references, and room for one more on each.
   */
  ghost predicate Counted(inodes0: seq<InodeSlot>, task: Task)
  {
    |inodes0| == INODE_NR && task.iroot < INODE_NR && task.ipwd < INODE_NR && Headroom(inodes0, 1)
    && inodes0[task.iroot].dev != EOF && inodes0[task.ipwd].dev != EOF
    && forall j :: 0 <= j < |inodes0| ==> (inodes0[j].dev == EOF <==> inodes0[j].count == 0)
  }

  /** Holding references on top of `inodes0` keeps the task's root and working directory in use, and room on every count. */
  lemma HoldsRoots(inodes0: seq<InodeSlot>, inodes: seq<InodeSlot>, task: Task, k: Option<nat>)
    requires Counted(inodes0, task) && Holds(inodes0, inodes, k)
    ensures inodes[task.iroot].dev != EOF && inodes[task.ipwd].dev != EOF && Headroom(inodes, 0)
  {
  }

  /** `iput` on the one extra reference, slot `k`: back to the references of `inodes0`. */
  method Drop(fs: FileSystem, k: nat, ghost inodes0: seq<InodeSlot>)
    requires Ready(fs) && Counted(inodes0, fs.task) && k < INODE_NR && Holds(inodes0, fs.inodes, Some(k))
    modifies fs
    ensures fs.Valid() && fs.blocks == old(fs.blocks) && fs.files == old(fs.files) && fs.task == old(fs.task)
    ensures !fs.halted ==> Ready(fs) && Holds(inodes0, fs.inodes, None)
  {
    ghost var inodes1 := fs.inodes;
    Put(fs, k);
    if !fs.halted {
      HoldsAfterDrop(inodes0, inodes1, fs.inodes, k, 1);
      HoldsRoots(inodes0, fs.inodes, fs.task, None);
    }
  }

  /** `iget` with no extra reference held: slot `m` then holds the one extra reference, to inode `nr` of `dev`. */
  method Take(fs: FileSystem, dev: int, nr: nat, now: nat, ghost inodes0: seq<InodeSlot>) returns (m: nat)
    requires Ready(fs) && Counted(inodes0, fs.task) && dev != EOF && Holds(inodes0, fs.inodes, None)
    modifies fs
    ensures fs.Valid() && fs.blocks == old(fs.blocks) && fs.files == old(fs.files) && fs.task == old(fs.task)
    ensures !fs.halted ==> Ready(fs) && Holds(inodes0, fs.inodes, Some(m)) && m < INODE_NR && fs.inodes[m].dev == dev && fs.inodes[m].nr == nr
  {
    ghost var inodes1 := fs.inodes;
    HoldsHeadroom(inodes0, inodes1, None, 0);
    m := Get(fs, dev, nr, now);
    if !fs.halted {
      HoldsAfterGot(inodes0, inodes1, fs.inodes, m);
      HoldsRoots(inodes0, fs.inodes, fs.task, Some(m));
    }
  }

  /**
   * What the loop of `named` keeps: one reference more than `inodes0`
   * held, on slot `k`, which holds `dev` and from which the rest of the
   * walk is `w`.
   */
  ghost predicate Holding(fs: FileSystem, inodes0: seq<InodeSlot>, dev: int, k: nat, path: seq<byte>, left: nat, right: nat, w: Walk)
    reads fs
  {
    Ready(fs) && Holds(inodes0, fs.inodes, Some(k))
    && k < |fs.inodes| && fs.inodes[k].dev == dev && dev != EOF && left <= |path|
    && WalkFrom(fs.blocks, dev, fs.inodes[k].nr, path, left, right, fs.task.uid) == w
  }

  /**
   * How a round of the loop of `named` ended: as the call reports walk
   * `w`, with no reference more than `inodes0` held unless it returns one.
   */
  ghost predicate Ended(fs: FileSystem, inodes0: seq<InodeSlot>, dev: int, w: Walk, r: Option<nat>, next: nat)
    reads fs
  {
    Resolved(fs, inodes0, dev, w, r) && (!fs.halted && r.Some? ==> next == w.next)
  }

  /** A resolving call reports walk `w`, holding no reference more than `inodes0` held unless it returns one. */
  ghost predicate Resolved(fs: FileSystem, inodes0: seq<InodeSlot>, dev: int, w: Walk, r: Option<nat>)
    reads fs
  {
    Reported(fs.inodes, fs.halted, dev, w, r) && (!fs.halted ==> Ready(fs) && Holds(inodes0, fs.inodes, r))
  }

  /** The loop of `named`, holding directory slot `k` with the component at `left` to resolve. */
  method Descend(fs: FileSystem, k: nat, path: seq<byte>, left: nat, right: nat, now: nat,
                 ghost inodes0: seq<InodeSlot>, dev: int, ghost w: Walk)
    returns (r: Option<nat>, next: nat)
    requires Counted(inodes0, fs.task) && k < INODE_NR && Holding(fs, inodes0, dev, k, path, left, right, w)
    modifies fs
    ensures fs.Valid() && fs.blocks == old(fs.blocks) && fs.files == old(fs.files) && fs.task == old(fs.task)
    ensures Ended(fs, inodes0, dev, w, r, next)
  {
    var cur: nat, l: nat, done := k, left, false;
    r, next := None, left;
    while !done
      invariant fs.Valid() && fs.blocks == old(fs.blocks) && fs.files == old(fs.files) && fs.task == old(fs.task)
      invariant !done ==> !fs.halted && cur < INODE_NR && Holding(fs, inodes0, dev, cur, path, l, right, w)
      invariant done ==> Ended(fs, inodes0, dev, w, r, next)
      decreases |path| + 1 - l, !done
    {
      var m, nxt;
      done, r, m, nxt := Enter(fs, cur, path, l, right, now, inodes0, dev, w);
      if !done {
        cur, l := m, nxt;
      } else {
        next := nxt;
      }
    }
  }

  /**
   * One round of the loop of `named`: find the component at `left` in the
   * held directory, then cross to the inode its entry names; either the
   * walk ends here (`done`) or it goes on from slot `m` with the component
   * at `next`.
   */
  method Enter(fs: FileSystem, k: nat, path: seq<byte>, left: nat, right: nat, now: nat,
               ghost inodes0: seq<InodeSlot>, dev: int, ghost w: Walk)
    returns (done: bool, r: Option<nat>, m: nat, next: nat)
    requires Counted(inodes0, fs.task) && k < INODE_NR && Holding(fs, inodes0, dev, k, path, left, right, w)
    modifies fs
    ensures fs.Valid() && fs.blocks == old(fs.blocks) && fs.files == old(fs.files) && fs.task == old(fs.task)
    ensures done ==> Ended(fs, inodes0, dev, w, r, next)
    ensures !done ==> !fs.halted && left < next && m < INODE_NR && Holding(fs, inodes0, dev, m, path, next, right, w)
  {
    ghost var s := Home(fs.blocks, dev, fs.inodes[k].nr);
    AtHome(fs.blocks, fs.inodes[k]);
    var found, z := Dir.FindEntry(fs, k, path, left);
    if fs.halted {
      return true, None, 0, 0;
    }
    if found.None? {
      Drop(fs, k, inodes0);
      return true, None, 0, 0;
    }
    var i := found.value.0;
    next := found.value.1;
    var nr := DentryAt(Block(fs.blocks, dev, z), i % BLOCK_DENTRIES).nr;
    assert nr == Dir.EntryAt(fs.blocks, s, i).nr;
    LookupAdvances(fs.blocks, s, path, left);
    done, r, m := Cross(fs, k, nr, path, left, next, right, now, inodes0, dev, w);
  }

  /**
   * The second half of a round of the loop of `named`: release directory
   * slot `k`, take inode `nr`, and check that it is a directory the task
   * may search.
   */
  method Cross(fs: FileSystem, k: nat, nr: nat, path: seq<byte>, left: nat, next: nat, right: nat, now: nat,
               ghost inodes0: seq<InodeSlot>, dev: int, ghost w: Walk)
    returns (done: bool, r: Option<nat>, m: nat)
    requires Counted(inodes0, fs.task) && Ready(fs) && k < INODE_NR && Holds(inodes0, fs.inodes, Some(k))
    requires fs.inodes[k].dev == dev && dev != EOF && left <= next <= |path|
    requires w == CrossWalk(fs.blocks, dev, nr, path, left, next, right, fs.task.uid)
    modifies fs
    ensures fs.Valid() && fs.blocks == old(fs.blocks) && fs.files == old(fs.files) && fs.task == old(fs.task)
    ensures done ==> Ended(fs, inodes0, dev, w, r, next)
    ensures !done ==> !fs.halted && left < next && m < INODE_NR && Holding(fs, inodes0, dev, m, path, next, right, w)
  {
    Drop(fs, k, inodes0);
    if fs.halted {
      return true, None, 0;
    }
    m := Take(fs, dev, nr, now, inodes0);
    if fs.halted {
      return true, None, 0;
    }
    done, r := Check(fs, m, path, left, next, right, inodes0, dev, w);
  }

  /** The check of `named` on the inode it stepped into, slot `m`: a directory the task may search. */
  method Check(fs: FileSystem, m: nat, path: seq<byte>, left: nat, next: nat, right: nat,
               ghost inodes0: seq<InodeSlot>, dev: int, ghost w: Walk)
    returns (done: bool, r: Option<nat>)
    requires Counted(inodes0, fs.task) && Ready(fs) && m < INODE_NR && Holds(inodes0, fs.inodes, Some(m))
    requires fs.inodes[m].dev == dev && dev != EOF && left <= next <= |path|
    requires w == CrossWalk(fs.blocks, dev, fs.inodes[m].nr, path, left, next, right, fs.task.uid)
    modifies fs
    ensures fs.Valid() && fs.blocks == old(fs.blocks) && fs.files == old(fs.files) && fs.task == old(fs.task)
    ensures done ==> Ended(fs, inodes0, dev, w, r, next)
    ensures !done ==> !fs.halted && left < next && Holding(fs, inodes0, dev, m, path, next, right, w)
  {
    assert Located(fs.blocks, fs.inodes[m]);
    AtHome(fs.blocks, fs.inodes[m]);
    var d := Desc(fs.blocks, fs.inodes[m]);
    if !IsDir(d.mode) || !Path.Permission(d, fs.task.uid, Path.P_EXEC) {
      Drop(fs, m, inodes0);
      return true, None;
    }
    if next == right {
      return true, Some(m);
    }
    if next == left {
      fs.halted := true;
      return true, None;
    }
    done, r := false, None;
  }

  /**
   * `namei`: the parent `named` finds, when the path ends there; otherwise
   * the inode the last component's entry names, whatever it is. The one
   * reference the call leaves behind is on the slot it returns.
   */
  method Namei(fs: FileSystem, path: seq<byte>, now: nat) returns (r: Option<nat>)
    requires Ready(fs) && Headroom(fs.inodes, 2)
    modifies fs
    ensures fs.Valid() && fs.blocks == old(fs.blocks) && fs.files == old(fs.files) && fs.task == old(fs.task)
    ensures Path.At(path, 0) == EOS ==> Ready(fs) && r.None? && fs.inodes == old(fs.inodes) && fs.supers == old(fs.supers)
    ensures Path.At(path, 0) != EOS ==>
      var start := old(fs.inodes[StartSlot(fs.task, path)]);
      Resolved(fs, old(fs.inodes), start.dev, NameiWalk(fs.blocks, start.dev, start.nr, path, fs.task.uid), r)
  {
    ghost var inodes0 := fs.inodes;
    ghost var start := fs.inodes[StartSlot(fs.task, path)];
    var dir, next := Named(fs, path, now);
    if Path.At(path, 0) == EOS || fs.halted || dir.None? {
      return None;
    }
    if Path.At(path, next) == EOS {
      return dir;
    }
    r := Last(fs, dir.value, path, next, now, inodes0, fs.inodes[dir.value].dev, start.nr);
  }

  /**
   * The end of `namei`: find the last component, at `p`, in directory slot
   * `k`, take the inode its entry names and release the directory.
   */
  method Last(fs: FileSystem, k: nat, path: seq<byte>, p: nat, now: nat, ghost inodes0: seq<InodeSlot>, dev: int, ghost nr0: nat)
    returns (r: Option<nat>)
    requires Counted(inodes0, fs.task) && Headroom(inodes0, 2) && Ready(fs) && k < INODE_NR && Holds(inodes0, fs.inodes, Some(k))
    requires fs.inodes[k].dev == dev && dev != EOF && p <= |path| && Path.At(path, p) != EOS
    requires NamedWalk(fs.blocks, dev, nr0, path, fs.task.uid) == Reaches(fs.inodes[k].nr, p)
    modifies fs
    ensures fs.Valid() && fs.blocks == old(fs.blocks) && fs.files == old(fs.files) && fs.task == old(fs.task)
    ensures Resolved(fs, inodes0, dev, NameiWalk(fs.blocks, dev, nr0, path, fs.task.uid), r)
  {
    ghost var s := Home(fs.blocks, dev, fs.inodes[k].nr);
    ghost var w := NameiWalk(fs.blocks, dev, nr0, path, fs.task.uid);
    assert w == match Dir.Lookup(fs.blocks, s, path, p)
                case None => Fails
                case Some((i, after)) => Reaches(Dir.EntryAt(fs.blocks, s, i).nr, after);
    AtHome(fs.blocks, fs.inodes[k]);
    var found, z := Dir.FindEntry(fs, k, path, p);
    if fs.halted {
      return None;
    }
    if found.None? {
      Drop(fs, k, inodes0);
      return None;
    }
    var i := found.value.0;
    var nr := DentryAt(Block(fs.blocks, dev, z), i % BLOCK_DENTRIES).nr;
    assert nr == Dir.EntryAt(fs.blocks, s, i).nr;
    var m := Swap(fs, k, dev, nr, now, inodes0);
    if fs.halted {
      return None;
    }
    r := Some(m);
  }

  /** `iget` of inode `nr` of `dev` while holding slot `k`, then `iput` of `k`: the extra reference moves to slot `m`. */
  method Swap(fs: FileSystem, k: nat, dev: int, nr: nat, now: nat, ghost inodes0: seq<InodeSlot>) returns (m: nat)
    requires Counted(inodes0, fs.task) && Headroom(inodes0, 2) && Ready(fs) && k < INODE_NR && Holds(inodes0, fs.inodes, Some(k))
    requires fs.inodes[k].dev == dev && dev != EOF
    modifies fs
    ensures fs.Valid() && fs.blocks == old(fs.blocks) && fs.files == old(fs.files) && fs.task == old(fs.task)
    ensures !fs.halted ==> Ready(fs) && Holds(inodes0, fs.inodes, Some(m)) && m < INODE_NR && fs.inodes[m].dev == dev && fs.inodes[m].nr == nr
  {
    ghost var inodes1 := fs.inodes;
    HoldsHeadroom(inodes0, inodes1, Some(k), 1);
    m := Get(fs, dev, nr, now);
    if fs.halted {
      return;
    }
    ghost var inodes2 := fs.inodes;
    Put(fs, k);
    if !fs.halted {
      HoldsAfterSwap(inodes0, inodes1, inodes2, fs.inodes, k, m);
      HoldsRoots(inodes0, fs.inodes, fs.task, Some(m));
    }
  }

  /** Taking a reference on slot `m` and then dropping the one held on slot `k` moves the extra reference to `m`. */
  lemma HoldsAfterSwap(inodes0: seq<InodeSlot>, inodes1: seq<InodeSlot>, inodes2: seq<InodeSlot>, inodes3: seq<InodeSlot>, k: nat, m: nat)
    requires Holds(inodes0, inodes1, Some(k)) && Got(inodes1, inodes2, m) && Dropped(inodes2, inodes3, k)
    requires forall j :: 0 <= j < |inodes0| ==> (inodes0[j].dev == EOF <==> inodes0[j].count == 0)
    requires forall j :: 0 <= j < |inodes3| ==> (inodes3[j].dev == EOF <==> inodes3[j].count == 0)
    ensures Holds(inodes0, inodes3, Some(m)) && inodes3[m].dev == inodes2[m].dev && inodes3[m].nr == inodes2[m].nr
  {
  }
}
