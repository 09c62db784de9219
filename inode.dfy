/**
 * The in-memory inode table (`inode.c`): 64 slots keyed by device and
 * inode number, `EOF` marking a free one, reference-counted by `iget` and
 * `iput`, and linked into their device's `inode_list`; also the boot-time
 * `mount_root`/`super_init` of `super.c`, which need `iget`.
 */
module Inode {
  import opened Base
  import Buffer
  import opened FsLayout
  import opened FsState
  import Super
  import Bmap

  /** The root directory's inode number. */
  const ROOT_NR: nat := 1

  /** `inode_block`: inode `nr` (counted from 1, in `uint32`) sits in the blocks after the two maps. */
  function InodeBlock(d: SuperDesc, nr: nat): nat
  {
    2 + d.imapBlocks + d.zmapBlocks + ((nr - 1) % U32_LIMIT) / BLOCK_INODES
  }

  /** The record of inode `nr` inside its block. */
  function InodeIndex(nr: nat): (k: nat)
    ensures k < BLOCK_INODES
  {
    ((nr - 1) % U32_LIMIT) % BLOCK_INODES
  }

  /**
   * For inode numbers 1 and up the block and record give the number back:
   * 32 records per block, numbered from the first block after the maps.
   */
  lemma InodeLocation(d: SuperDesc, nr: nat)
    requires 1 <= nr <= U32_LIMIT
    ensures InodeBlock(d, nr) >= 2 + d.imapBlocks + d.zmapBlocks
    ensures nr == 1 + BLOCK_INODES * (InodeBlock(d, nr) - (2 + d.imapBlocks + d.zmapBlocks)) + InodeIndex(nr)
  {
  }

  /** Distinct inode numbers from 1 up have distinct records. */
  lemma InodeLocationInjective(d: SuperDesc, nr1: nat, nr2: nat)
    requires 1 <= nr1 <= U32_LIMIT && 1 <= nr2 <= U32_LIMIT
    requires InodeBlock(d, nr1) == InodeBlock(d, nr2) && InodeIndex(nr1) == InodeIndex(nr2)
    ensures nr1 == nr2
  {
    InodeLocation(d, nr1);
    InodeLocation(d, nr2);
  }

  /** `get_free_inode`: the lowest slot with `dev == EOF`, or None where it panics. */
  method GetFreeInode(fs: FileSystem) returns (r: Option<nat>)
    requires fs.Valid()
    ensures r.Some? ==> r.value < INODE_NR && fs.inodes[r.value].dev == EOF
    ensures r.Some? ==> forall j :: 0 <= j < r.value ==> fs.inodes[j].dev != EOF
    ensures r.None? <==> forall j :: 0 <= j < INODE_NR ==> fs.inodes[j].dev != EOF
  {
    var i := 0;
    while i < INODE_NR
      invariant i <= INODE_NR
      invariant forall j :: 0 <= j < i ==> fs.inodes[j].dev != EOF
    {
      if fs.inodes[i].dev == EOF {
        return Some(i);
      }
      i := i + 1;
    }
    return None;
  }

  /** The first slot on `list` holding inode number `nr`. */
  function FindNr(inodes: seq<InodeSlot>, list: seq<nat>, nr: nat): (r: Option<nat>)
    requires forall k :: 0 <= k < |list| ==> list[k] < |inodes|
    ensures r.Some? ==> r.value in list && inodes[r.value].nr == nr
    ensures r.None? <==> forall k :: 0 <= k < |list| ==> inodes[list[k]].nr != nr
  {
    if |list| == 0 then None
    else if inodes[list[0]].nr == nr then Some(list[0])
    else FindNr(inodes, list[1..], nr)
  }

  /** A slot on the list matching `nr` with no match before it is the one `FindNr` reports. */
  lemma {:induction false} FindNrFirst(inodes: seq<InodeSlot>, list: seq<nat>, nr: nat, i: nat)
    requires forall k :: 0 <= k < |list| ==> list[k] < |inodes|
    requires i < |list| && inodes[list[i]].nr == nr
    requires forall k :: 0 <= k < i ==> inodes[list[k]].nr != nr
    ensures FindNr(inodes, list, nr) == Some(list[i])
  {
    if i > 0 {
      FindNrFirst(inodes, list[1..], nr, i - 1);
    }
  }

  /** The in-memory inodes of the mounted `dev`, head first, or none when it is not mounted. */
  function Resident(supers: seq<SuperSlot>, dev: int): seq<nat>
  {
    match FindSuper(supers, dev)
    case None => []
    case Some(k) => supers[k].inodeList
  }

  /** `find_inode` on a mounted device: walk its inode list for number `nr`. */
  method FindInode(fs: FileSystem, dev: int, nr: nat) returns (r: Option<nat>)
    requires fs.Valid() && FindSuper(fs.supers, dev).Some?
    ensures r == FindNr(fs.inodes, Resident(fs.supers, dev), nr)
    ensures r.Some? ==> r.value < INODE_NR
  {
    var sb := Super.GetSuper(fs, dev);
    var list := fs.supers[sb.value].inodeList;
    assert SuperSlotOk(fs.supers[sb.value]);
    var i := 0;
    while i < |list|
      invariant i <= |list|
      invariant forall k :: 0 <= k < i ==> fs.inodes[list[k]].nr != nr
    {
      if fs.inodes[list[i]].nr == nr {
        FindNrFirst(fs.inodes, list, nr, i);
        return Some(list[i]);
      }
      i := i + 1;
    }
    return None;
  }

  /** What `iget` puts in a fresh slot for inode `nr` of `dev`. */
  function Loaded(old_: InodeSlot, blocks: map<Buffer.Ident, seq<byte>>, dev: int, nr: nat, now: nat): (s: InodeSlot)
    ensures s.index < BLOCK_INODES
  {
    var d := SuperOf(blocks, dev);
    var s := InodeSlot(dev, nr, (old_.count + 1) % U32_LIMIT, now, 0, InodeBlock(d, nr), InodeIndex(nr));
    s.(ctime := Desc(blocks, s).mtime)
  }

  /**
   * `iget`: a resident inode gains a reference and its access time; any
   * other takes the lowest free slot, read from its record and pushed on
   * the device's inode list. It halts on an unmounted device, on a number
   * past `inodes`, and when no slot is free.
   */
  method Iget(fs: FileSystem, dev: int, nr: nat, now: nat) returns (r: nat)
    requires fs.Valid() && !fs.halted
    modifies fs
    ensures fs.Valid() && fs.blocks == old(fs.blocks) && fs.files == old(fs.files) && fs.task == old(fs.task)
    ensures FindSuper(old(fs.supers), dev).None? ==> fs.halted
    ensures var hit := FindNr(old(fs.inodes), Resident(old(fs.supers), dev), nr);
      FindSuper(old(fs.supers), dev).Some? && hit.Some? ==>
        !fs.halted && r == hit.value && fs.supers == old(fs.supers)
        && fs.inodes == old(fs.inodes)[r := old(fs.inodes[r]).(count := (old(fs.inodes[r]).count + 1) % U32_LIMIT, atime := now)]
    ensures var sb := FindSuper(old(fs.supers), dev);
      sb.Some? && FindNr(old(fs.inodes), Resident(old(fs.supers), dev), nr).None? ==>
        (fs.halted <==> nr > SuperOf(fs.blocks, dev).inodes || forall j :: 0 <= j < INODE_NR ==> old(fs.inodes[j].dev) != EOF)
    ensures var sb := FindSuper(old(fs.supers), dev);
      sb.Some? && FindNr(old(fs.inodes), Resident(old(fs.supers), dev), nr).None? && !fs.halted ==>
        r < INODE_NR && old(fs.inodes[r].dev) == EOF && (forall j :: 0 <= j < r ==> old(fs.inodes[j].dev) != EOF)
        && fs.inodes == old(fs.inodes)[r := Loaded(old(fs.inodes[r]), fs.blocks, dev, nr, now)]
        && fs.supers == old(fs.supers)[sb.value := old(fs.supers[sb.value]).(inodeList := [r] + old(fs.supers[sb.value].inodeList))]
    ensures !fs.halted ==> r < INODE_NR && fs.inodes[r].nr == nr
    ensures !fs.halted ==> Fetch(fs.blocks, old(fs.supers), old(fs.inodes), fs.supers, fs.inodes, dev, nr, now, r)
  {
    var sb := Super.GetSuper(fs, dev);
    if sb.None? {
      fs.halted := true;
      return 0;
    }
    r := IgetAt(fs, sb.value, dev, nr, now);
  }

  /** `iget` on a device mounted in super-block slot `k`. */
  method IgetAt(fs: FileSystem, k: nat, dev: int, nr: nat, now: nat) returns (r: nat)
    requires fs.Valid() && !fs.halted && FindSuper(fs.supers, dev) == Some(k)
    modifies fs
    ensures fs.Valid() && fs.blocks == old(fs.blocks) && fs.files == old(fs.files) && fs.task == old(fs.task)
    ensures var hit := FindNr(old(fs.inodes), old(fs.supers[k].inodeList), nr);
      hit.Some? ==>
        !fs.halted && r == hit.value && fs.supers == old(fs.supers)
        && fs.inodes == old(fs.inodes)[r := old(fs.inodes[r]).(count := (old(fs.inodes[r]).count + 1) % U32_LIMIT, atime := now)]
    ensures FindNr(old(fs.inodes), old(fs.supers[k].inodeList), nr).None? ==>
        (fs.halted <==> nr > SuperOf(fs.blocks, dev).inodes || forall j :: 0 <= j < INODE_NR ==> old(fs.inodes[j].dev) != EOF)
    ensures FindNr(old(fs.inodes), old(fs.supers[k].inodeList), nr).None? && !fs.halted ==>
        r < INODE_NR && old(fs.inodes[r].dev) == EOF && (forall j :: 0 <= j < r ==> old(fs.inodes[j].dev) != EOF)
        && fs.inodes == old(fs.inodes)[r := Loaded(old(fs.inodes[r]), fs.blocks, dev, nr, now)]
        && fs.supers == old(fs.supers)[k := old(fs.supers[k]).(inodeList := [r] + old(fs.supers[k].inodeList))]
  {
    var found := FindInode(fs, dev, nr);
    if found.Some? {
      r := found.value;
      Revisit(fs, r, now);
      return;
    }
    r := LoadInode(fs, k, dev, nr, now);
  }

  /** The hit half of `iget`: resident slot `r` gains a reference and its access time. */
  method Revisit(fs: FileSystem, r: nat, now: nat)
    requires fs.Valid() && r < INODE_NR
    modifies fs
    ensures fs.Valid() && fs.blocks == old(fs.blocks) && fs.files == old(fs.files) && fs.task == old(fs.task)
    ensures fs.supers == old(fs.supers) && fs.halted == old(fs.halted)
    ensures fs.inodes == old(fs.inodes)[r := old(fs.inodes[r]).(count := (old(fs.inodes[r]).count + 1) % U32_LIMIT, atime := now)]
  {
    fs.inodes := fs.inodes[r := fs.inodes[r].(count := (fs.inodes[r].count + 1) % U32_LIMIT, atime := now)];
  }

  /**
   * What a successful `iget` did to the tables: on a mounted device, a
   * resident slot for `nr` gained a reference and its access time, or else
   * a free slot was loaded and pushed on the device's inode list.
   */
  ghost predicate Fetch(blocks: map<Buffer.Ident, seq<byte>>, supers: seq<SuperSlot>, inodes: seq<InodeSlot>,
                        supers': seq<SuperSlot>, inodes': seq<InodeSlot>, dev: int, nr: nat, now: nat, r: nat)
  {
    var sb := FindSuper(supers, dev);
    sb.Some? && r < |inodes| && (forall k :: 0 <= k < |Resident(supers, dev)| ==> Resident(supers, dev)[k] < |inodes|)
    && var hit := FindNr(inodes, Resident(supers, dev), nr);
    if hit.Some? then
      r == hit.value && supers' == supers
      && inodes' == inodes[r := inodes[r].(count := (inodes[r].count + 1) % U32_LIMIT, atime := now)]
    else
      inodes[r].dev == EOF && inodes' == inodes[r := Loaded(inodes[r], blocks, dev, nr, now)]
      && supers' == supers[sb.value := supers[sb.value].(inodeList := [r] + supers[sb.value].inodeList)]
  }

  /** The miss half of `iget`: claim the lowest free slot for inode `nr` and link it into super-block slot `k`'s list. */
  method LoadInode(fs: FileSystem, k: nat, dev: int, nr: nat, now: nat) returns (r: nat)
    requires fs.Valid() && !fs.halted && k < SUPER_NR
    modifies fs
    ensures fs.Valid() && fs.blocks == old(fs.blocks) && fs.files == old(fs.files) && fs.task == old(fs.task)
    ensures fs.halted <==> nr > SuperOf(fs.blocks, dev).inodes || forall j :: 0 <= j < INODE_NR ==> old(fs.inodes[j].dev) != EOF
    ensures !fs.halted ==>
      r < INODE_NR && old(fs.inodes[r].dev) == EOF && (forall j :: 0 <= j < r ==> old(fs.inodes[j].dev) != EOF)
      && fs.inodes == old(fs.inodes)[r := Loaded(old(fs.inodes[r]), fs.blocks, dev, nr, now)]
      && fs.supers == old(fs.supers)[k := old(fs.supers[k]).(inodeList := [r] + old(fs.supers[k].inodeList))]
  {
    var d := SuperOf(fs.blocks, dev);
    if nr > d.inodes {
      fs.halted := true;
      return 0;
    }
    var free := GetFreeInode(fs);
    if free.None? {
      fs.halted := true;
      return 0;
    }
    r := free.value;
    assert SuperSlotOk(fs.supers[k]);
    var slot := Loaded(fs.inodes[r], fs.blocks, dev, nr, now);
    fs.supers := fs.supers[k := fs.supers[k].(inodeList := [r] + fs.supers[k].inodeList)];
    fs.inodes := fs.inodes[r := slot];
  }

  /** `find_inode` looks at the `nr` fields only. */
  lemma {:induction false} FindNrByNr(a: seq<InodeSlot>, b: seq<InodeSlot>, list: seq<nat>, nr: nat)
    requires |a| == |b| && forall k :: 0 <= k < |list| ==> list[k] < |a|
    requires forall j :: 0 <= j < |a| ==> a[j].nr == b[j].nr
    ensures FindNr(a, list, nr) == FindNr(b, list, nr)
  {
    if |list| > 0 {
      FindNrByNr(a, b, list[1..], nr);
    }
  }

  /**
   * After `iget` returned slot `i` for `nr` (a hit, which changes no `nr`
   * field, or a miss, which pushes `i` on the list), `find_inode` of `nr`
   * finds `i`.
   */
  lemma FoundAgain(n0: seq<InodeSlot>, n1: seq<InodeSlot>, l0: seq<nat>, l1: seq<nat>, nr: nat, i: nat)
    requires |n0| == |n1| && i < |n1| && forall k :: 0 <= k < |l0| ==> l0[k] < |n0|
    requires (l1 == l0 && FindNr(n0, l0, nr) == Some(i) && forall j :: 0 <= j < |n0| ==> n1[j].nr == n0[j].nr)
          || (l1 == [i] + l0 && n1[i].nr == nr)
    ensures forall k :: 0 <= k < |l1| ==> l1[k] < |n1|
    ensures FindNr(n1, l1, nr) == Some(i)
  {
    if l1 == l0 && FindNr(n0, l0, nr) == Some(i) && forall j :: 0 <= j < |n0| ==> n1[j].nr == n0[j].nr {
      FindNrByNr(n0, n1, l0, nr);
    }
  }

  /**
   * `mount_root`: the device `device_find` reported for the first IDE
   * partition (None where it asserts) is mounted with `read_super`, and
   * inode 1 is taken twice with `iget`, as the root and as the mount point;
   * both are the one resident slot. Only the device's super-block slot
   * changes.
   */
  method MountRoot(fs: FileSystem, part: Option<int>, now: nat) returns (root: nat)
    requires fs.Valid() && !fs.halted
    modifies fs
    ensures fs.Valid() && fs.blocks == old(fs.blocks) && fs.files == old(fs.files) && fs.task == old(fs.task)
    ensures part.None? ==> fs.halted
    ensures !fs.halted ==>
      part.Some? && root < SUPER_NR && FindSuper(fs.supers, part.value) == Some(root)
      && (forall j :: 0 <= j < SUPER_NR && j != root ==> fs.supers[j] == old(fs.supers[j]))
      && (FindSuper(old(fs.supers), part.value).Some? ==> root == FindSuper(old(fs.supers), part.value).value)
      && (FindSuper(old(fs.supers), part.value).None? ==>
            old(fs.supers[root].dev) == EOF && forall j :: 0 <= j < root ==> old(fs.supers[j].dev) != EOF)
    ensures !fs.halted ==>
      root < SUPER_NR && fs.supers[root].iroot.Some? && fs.supers[root].imount == fs.supers[root].iroot
      && fs.supers[root].iroot.value in fs.supers[root].inodeList && fs.inodes[fs.supers[root].iroot.value].nr == ROOT_NR
  {
    if part.None? {
      fs.halted := true;
      return 0;
    }
    var dev := part.value;
    root := Super.ReadSuper(fs, dev);
    if fs.halted {
      return;
    }
    ghost var s0 := fs.supers;
    TakeRoot(fs, root, dev, now);
    if !fs.halted {
      Super.FindSuperByDev(s0, fs.supers, dev);
    }
  }

  /**
   * The two `iget(dev, 1)` calls of `mount_root` on the device mounted in
   * slot `k`: the second finds the slot the first returned, and that slot
   * becomes both the root and the mount point. Only slot `k` changes, and
   * in it only the inode list and those two fields.
   */
  method TakeRoot(fs: FileSystem, k: nat, dev: int, now: nat)
    requires fs.Valid() && !fs.halted && FindSuper(fs.supers, dev) == Some(k)
    modifies fs
    ensures fs.Valid() && fs.blocks == old(fs.blocks) && fs.files == old(fs.files) && fs.task == old(fs.task)
    ensures !fs.halted ==>
      (forall j :: 0 <= j < SUPER_NR && j != k ==> fs.supers[j] == old(fs.supers[j]))
      && fs.supers[k] == old(fs.supers[k]).(inodeList := fs.supers[k].inodeList, iroot := fs.supers[k].iroot, imount := fs.supers[k].iroot)
      && fs.supers[k].iroot.Some? && fs.supers[k].iroot.value in fs.supers[k].inodeList
      && fs.inodes[fs.supers[k].iroot.value].nr == ROOT_NR
  {
    ghost var s0, n0 := fs.supers, fs.inodes;
    assert SuperSlotOk(s0[k]);
    var i := IgetAt(fs, k, dev, ROOT_NR, now);
    if fs.halted {
      return;
    }
    FoundAgain(n0, fs.inodes, s0[k].inodeList, fs.supers[k].inodeList, ROOT_NR, i);
    Super.FindSuperByDev(s0, fs.supers, dev);
    ghost var s1 := fs.supers;
    var j := IgetAt(fs, k, dev, ROOT_NR, now);
    assert j == i && fs.supers == s1;
    Attach(fs, k, i);
  }

  /** Records slot `i` as both the root and the mount-point inode of super-block slot `k`. */
  method Attach(fs: FileSystem, k: nat, i: nat)
    requires fs.Valid() && k < SUPER_NR && i < INODE_NR
    modifies fs
    ensures fs.Valid() && fs.supers == old(fs.supers)[k := old(fs.supers[k]).(iroot := Some(i), imount := Some(i))]
    ensures fs.blocks == old(fs.blocks) && fs.inodes == old(fs.inodes) && fs.files == old(fs.files)
    ensures fs.task == old(fs.task) && fs.halted == old(fs.halted)
  {
    fs.supers := fs.supers[k := fs.supers[k].(iroot := Some(i), imount := Some(i))];
  }

  /**
   * `super_init`: every slot freed, then `mount_root`, which therefore
   * mounts the root device in slot 0 and leaves the other slots free.
   */
  method SuperInit(fs: FileSystem, part: Option<int>, now: nat)
    requires fs.Valid() && !fs.halted
    modifies fs
    ensures fs.Valid() && fs.blocks == old(fs.blocks) && fs.files == old(fs.files) && fs.task == old(fs.task)
    ensures part.None? ==> fs.halted
    ensures !fs.halted ==>
      part.Some? && fs.supers[0].dev == part.value
      && fs.supers[0].iroot.Some? && fs.supers[0].imount == fs.supers[0].iroot
      && fs.inodes[fs.supers[0].iroot.value].nr == ROOT_NR
      && forall j :: 1 <= j < SUPER_NR ==> fs.supers[j] == Super.Freed(old(fs.supers[j]))
  {
    Super.ResetSupers(fs);
    var root := MountRoot(fs, part, now);
  }

  /** `list` without slot `k`. */
  function Without(list: seq<nat>, k: nat): (r: seq<nat>)
    ensures forall j :: 0 <= j < |r| ==> r[j] in list && r[j] != k
    ensures forall x :: x in list && x != k ==> x in r
  {
    if |list| == 0 then []
    else if list[0] == k then Without(list[1..], k)
    else [list[0]] + Without(list[1..], k)
  }

  /** Every super-block slot with slot `k` unlinked from its inode list (`list_remove`). */
  function Unlinked(supers: seq<SuperSlot>, k: nat): (r: seq<SuperSlot>)
    ensures |r| == |supers|
    ensures forall j :: 0 <= j < |r| ==> r[j] == supers[j].(inodeList := Without(supers[j].inodeList, k))
  {
    seq(|supers|, j requires 0 <= j < |supers| => supers[j].(inodeList := Without(supers[j].inodeList, k)))
  }

  /**
   * What `iput` did to slot `k` when it returned: the count dropped by one
   * (in `uint32`), and at zero the slot was freed and unlinked from every
   * inode list.
   */
  ghost predicate Release(supers: seq<SuperSlot>, inodes: seq<InodeSlot>, supers': seq<SuperSlot>, inodes': seq<InodeSlot>, k: nat)
  {
    k < |inodes| &&
    var c := (inodes[k].count - 1) % U32_LIMIT;
    if c != 0 then supers' == supers && inodes' == inodes[k := inodes[k].(count := c)]
    else supers' == Unlinked(supers, k) && inodes' == inodes[k := inodes[k].(count := 0, dev := EOF)]
  }

  /**
   * `iput`: NULL is ignored; otherwise the count drops by one (in
   * `uint32`), and at zero the slot is unlinked and freed, which halts for
   * slot 0, the root inode's.
   */
  method Iput(fs: FileSystem, slot: Option<nat>)
    requires fs.Valid() && !fs.halted && (slot.Some? ==> slot.value < INODE_NR)
    modifies fs
    ensures fs.Valid() && fs.blocks == old(fs.blocks) && fs.files == old(fs.files) && fs.task == old(fs.task)
    ensures slot.None? ==> !fs.halted && fs.supers == old(fs.supers) && fs.inodes == old(fs.inodes)
    ensures slot.Some? && (old(fs.inodes[slot.value].count) - 1) % U32_LIMIT != 0 ==>
      !fs.halted && fs.supers == old(fs.supers)
      && fs.inodes == old(fs.inodes)[slot.value := old(fs.inodes[slot.value]).(count := (old(fs.inodes[slot.value].count) - 1) % U32_LIMIT)]
    ensures slot.Some? && (old(fs.inodes[slot.value].count) - 1) % U32_LIMIT == 0 ==>
      (fs.halted <==> slot.value == 0)
      && (!fs.halted ==> (fs.supers == Unlinked(old(fs.supers), slot.value)
          && fs.inodes == old(fs.inodes)[slot.value := old(fs.inodes[slot.value]).(count := 0, dev := EOF)]))
    ensures slot.Some? && !fs.halted ==> Release(old(fs.supers), old(fs.inodes), fs.supers, fs.inodes, slot.value)
  {
    if slot.None? {
      return;
    }
    var k := slot.value;
    var c := (fs.inodes[k].count - 1) % U32_LIMIT;
    fs.inodes := fs.inodes[k := fs.inodes[k].(count := c)];
    if c != 0 {
      return;
    }
    fs.supers := Unlinked(fs.supers, k);
    assert forall j :: 0 <= j < SUPER_NR ==> SuperSlotOk(fs.supers[j]) by {
      forall j | 0 <= j < SUPER_NR
        ensures SuperSlotOk(fs.supers[j])
      {
        assert SuperSlotOk(old(fs.supers[j]));
      }
    }
    PutFreeInode(fs, k);
  }

  /** `put_free_inode`: free a slot with no references; halts for slot 0 or a referenced slot. */
  method PutFreeInode(fs: FileSystem, k: nat)
    requires fs.Valid() && !fs.halted && k < INODE_NR
    modifies fs
    ensures fs.Valid() && fs.blocks == old(fs.blocks) && fs.supers == old(fs.supers) && fs.files == old(fs.files) && fs.task == old(fs.task)
    ensures fs.halted <==> k == 0 || old(fs.inodes[k].count) != 0
    ensures !fs.halted ==> fs.inodes == old(fs.inodes)[k := old(fs.inodes[k]).(dev := EOF)]
  {
    if k == 0 || fs.inodes[k].count != 0 {
      fs.halted := true;
      return;
    }
    fs.inodes := fs.inodes[k := fs.inodes[k].(dev := EOF)];
  }

  /** `inode_init`: every slot free. */
  method InodeInit(fs: FileSystem)
    requires fs.Valid()
    modifies fs
    ensures fs.Valid() && fs.blocks == old(fs.blocks) && fs.supers == old(fs.supers) && fs.files == old(fs.files)
    ensures fs.task == old(fs.task) && fs.halted == old(fs.halted)
    ensures |fs.inodes| == INODE_NR && forall i :: 0 <= i < INODE_NR ==> fs.inodes[i] == old(fs.inodes[i]).(dev := EOF)
  {
    var i := 0;
    while i < INODE_NR
      invariant i <= INODE_NR && fs.Valid()
      invariant fs.blocks == old(fs.blocks) && fs.supers == old(fs.supers) && fs.files == old(fs.files)
      invariant fs.task == old(fs.task) && fs.halted == old(fs.halted) && |fs.inodes| == INODE_NR
      invariant forall j :: 0 <= j < i ==> fs.inodes[j] == old(fs.inodes[j]).(dev := EOF)
      invariant forall j :: i <= j < INODE_NR ==> fs.inodes[j] == old(fs.inodes[j])
    {
      fs.inodes := fs.inodes[i := fs.inodes[i].(dev := EOF)];
      i := i + 1;
    }
  }

  /** `MIN` of `uint32`s. */
  function Min(a: nat, b: nat): (m: nat)
    ensures m <= a && m <= b && (m == a || m == b)
  {
    if a < b then a else b
  }

  /**
   * Byte `p` of the file of `s`: the byte at `p % 1024` of the zone that
   * logical block `p / 1024` resolves to (a hole resolves to zone 0).
   */
  function FileByte(blocks: map<Buffer.Ident, seq<byte>>, s: InodeSlot, p: nat): byte
    requires s.index < BLOCK_INODES
  {
    if p / Buffer.BLOCK_SIZE < TOTAL_BLOCK then
      Block(blocks, s.dev, Bmap.Resolve(blocks, s, p / Buffer.BLOCK_SIZE))[p % Buffer.BLOCK_SIZE]
    else 0
  }

  /** The `n` file bytes from position `lo`. */
  function FileBytes(blocks: map<Buffer.Ident, seq<byte>>, s: InodeSlot, lo: nat, n: nat): (r: seq<byte>)
    requires s.index < BLOCK_INODES
    ensures |r| == n && forall i :: 0 <= i < n ==> r[i] == FileByte(blocks, s, lo + i)
  {
    if n == 0 then [] else FileBytes(blocks, s, lo, n - 1) + [FileByte(blocks, s, lo + n - 1)]
  }

  /** Position `p` lies in a logical block `bmap` accepts and that block has a zone. */
  predicate Mapped(blocks: map<Buffer.Ident, seq<byte>>, s: InodeSlot, p: nat)
    requires s.index < BLOCK_INODES
  {
    p / Buffer.BLOCK_SIZE < TOTAL_BLOCK && Bmap.Resolve(blocks, s, p / Buffer.BLOCK_SIZE) != 0
  }

  predicate AllMapped(blocks: map<Buffer.Ident, seq<byte>>, s: InodeSlot, lo: nat, hi: nat)
    requires s.index < BLOCK_INODES
  {
    forall p :: lo <= p < hi ==> Mapped(blocks, s, p)
  }

  /** Positions `pos .. pos + chars` inside one block all lie in the block of `pos`, at consecutive offsets. */
  lemma SameBlock(pos: nat, i: nat)
    requires pos % Buffer.BLOCK_SIZE + i < Buffer.BLOCK_SIZE
    ensures (pos + i) / Buffer.BLOCK_SIZE == pos / Buffer.BLOCK_SIZE
    ensures (pos + i) % Buffer.BLOCK_SIZE == pos % Buffer.BLOCK_SIZE + i
  {
    var q := pos / Buffer.BLOCK_SIZE;
    assert pos + i == Buffer.BLOCK_SIZE * q + (pos % Buffer.BLOCK_SIZE + i);
  }

  /** A window inside one block is a slice of the zone that block resolves to. */
  lemma ChunkBytes(blocks: map<Buffer.Ident, seq<byte>>, s: InodeSlot, pos: nat, chars: nat)
    requires s.index < BLOCK_INODES && pos / Buffer.BLOCK_SIZE < TOTAL_BLOCK
    requires pos % Buffer.BLOCK_SIZE + chars <= Buffer.BLOCK_SIZE
    ensures Block(blocks, s.dev, Bmap.Resolve(blocks, s, pos / Buffer.BLOCK_SIZE))[pos % Buffer.BLOCK_SIZE .. pos % Buffer.BLOCK_SIZE + chars]
            == FileBytes(blocks, s, pos, chars)
  {
    var o := pos % Buffer.BLOCK_SIZE;
    var blk := Block(blocks, s.dev, Bmap.Resolve(blocks, s, pos / Buffer.BLOCK_SIZE));
    var fb := FileBytes(blocks, s, pos, chars);
    var window := blk[o .. o + chars];
    forall i | 0 <= i < chars
      ensures window[i] == fb[i]
    {
      SameBlock(pos, i);
      assert fb[i] == FileByte(blocks, s, pos + i);
    }
    assert window == fb;
  }

  /** A window inside one block is mapped throughout when its first byte is. */
  lemma ChunkMapped(blocks: map<Buffer.Ident, seq<byte>>, s: InodeSlot, pos: nat, chars: nat)
    requires s.index < BLOCK_INODES && Mapped(blocks, s, pos)
    requires pos % Buffer.BLOCK_SIZE + chars <= Buffer.BLOCK_SIZE
    ensures AllMapped(blocks, s, pos, pos + chars)
  {
    forall p | pos <= p < pos + chars
      ensures p / Buffer.BLOCK_SIZE == pos / Buffer.BLOCK_SIZE
    {
      SameBlock(pos, p - pos);
    }
  }

  /** Adjacent mapped ranges join up. */
  lemma MappedJoin(blocks: map<Buffer.Ident, seq<byte>>, s: InodeSlot, lo: nat, mid: nat, hi: nat)
    requires s.index < BLOCK_INODES && lo <= mid <= hi
    requires AllMapped(blocks, s, lo, mid) && AllMapped(blocks, s, mid, hi)
    ensures AllMapped(blocks, s, lo, hi)
  {
  }

  /** Consecutive windows of file bytes join up. */
  lemma FileBytesAppend(blocks: map<Buffer.Ident, seq<byte>>, s: InodeSlot, lo: nat, mid: nat, hi: nat)
    requires s.index < BLOCK_INODES && lo <= mid <= hi
    ensures FileBytes(blocks, s, lo, mid - lo) + FileBytes(blocks, s, mid, hi - mid) == FileBytes(blocks, s, lo, hi - lo)
  {
    var x := FileBytes(blocks, s, lo, mid - lo);
    var y := FileBytes(blocks, s, mid, hi - mid);
    var z := FileBytes(blocks, s, lo, hi - lo);
    forall i | 0 <= i < hi - lo
      ensures (x + y)[i] == z[i]
    {
      if i >= mid - lo {
        assert (x + y)[i] == y[i - (mid - lo)];
      }
    }
  }

  /**
   * `inode_read`: `EOF` when `offset`, taken as unsigned, is at or past the
   * size; otherwise the `min(len, size - offset)` file bytes from `offset`,
   * every one of which must lie in a mapped block, and the access time is
   * stamped. A negative offset leaves the loop untouched when `len` is 0
   * (nothing is read and 0 is returned), and halts otherwise.
   */
  method InodeRead(fs: FileSystem, slot: nat, len: nat, offset: int, now: nat) returns (r: int, data: seq<byte>)
    requires fs.Valid() && !fs.halted && slot < INODE_NR
    requires len < U32_LIMIT && -0x8000_0000 <= offset < 0x8000_0000
    modifies fs
    ensures fs.Valid()
    ensures fs.blocks == old(fs.blocks) && fs.supers == old(fs.supers) && fs.files == old(fs.files) && fs.task == old(fs.task)
    ensures var s := old(fs.inodes[slot]);
      offset % U32_LIMIT >= Desc(fs.blocks, s).size ==> r == EOF && !fs.halted && fs.inodes == old(fs.inodes)
    ensures var s := old(fs.inodes[slot]); var size := Desc(fs.blocks, s).size;
      offset % U32_LIMIT < size ==>
        (fs.halted <==> if offset < 0 then len > 0 else !AllMapped(fs.blocks, s, offset, offset + Min(len, size - offset)))
    ensures var s := old(fs.inodes[slot]); var size := Desc(fs.blocks, s).size;
      offset % U32_LIMIT < size && !fs.halted ==>
        r == Min(len, size - offset) && fs.inodes == old(fs.inodes)[slot := s.(atime := now)]
        && data == if offset < 0 then [] else FileBytes(fs.blocks, s, offset, r)
  {
    var s := fs.inodes[slot];
    var size := Desc(fs.blocks, s).size;
    data := [];
    if offset % U32_LIMIT >= size {
      return EOF, data;
    }
    if offset < 0 {
      if len == 0 {
        fs.inodes := fs.inodes[slot := s.(atime := now)];
        return 0, data;
      }
      fs.halted := true;
      return EOF, data;
    }
    var n := Min(len, size - offset);
    var ok;
    ok, data := ReadWindows(fs, slot, offset, n);
    if !ok {
      return EOF, data;
    }
    fs.inodes := fs.inodes[slot := s.(atime := now)];
    r := n;
  }

  /**
   * The loop of `inode_read`: copy the `n` file bytes from `offset` block
   * window by block window, halting at the first window whose block has no
   * zone.
   */
  method ReadWindows(fs: FileSystem, slot: nat, offset: nat, n: nat) returns (ok: bool, data: seq<byte>)
    requires fs.Valid() && !fs.halted && slot < INODE_NR
    modifies fs
    ensures fs.Valid()
    ensures fs.blocks == old(fs.blocks) && fs.supers == old(fs.supers) && fs.inodes == old(fs.inodes)
    ensures fs.files == old(fs.files) && fs.task == old(fs.task)
    ensures ok <==> !fs.halted
    ensures ok <==> AllMapped(fs.blocks, fs.inodes[slot], offset, offset + n)
    ensures ok ==> data == FileBytes(fs.blocks, fs.inodes[slot], offset, n)
  {
    var s := fs.inodes[slot];
    var pos: nat := offset;
    var left: nat := n;
    data := [];
    while left > 0
      invariant fs.Valid() && !fs.halted
      invariant fs.blocks == old(fs.blocks) && fs.supers == old(fs.supers) && fs.inodes == old(fs.inodes)
      invariant fs.files == old(fs.files) && fs.task == old(fs.task)
      invariant offset <= pos && pos + left == offset + n
      invariant data == FileBytes(fs.blocks, s, offset, pos - offset)
      invariant AllMapped(fs.blocks, s, offset, pos)
    {
      var chunk, chars;
      ok, chunk, chars := ReadWindow(fs, slot, pos, left);
      if !ok {
        assert offset <= pos < offset + n && !Mapped(fs.blocks, s, pos);
        return false, data;
      }
      FileBytesAppend(fs.blocks, s, offset, pos, pos + chars);
      MappedJoin(fs.blocks, s, offset, pos, pos + chars);
      data := data + chunk;
      pos, left := pos + chars, left - chars;
      assert data == FileBytes(fs.blocks, s, offset, pos - offset);
    }
    ok := true;
  }

  /** One pass of `inode_read`'s loop: the part of the block holding position `pos` that the copy takes. */
  method ReadWindow(fs: FileSystem, slot: nat, pos: nat, left: nat) returns (ok: bool, chunk: seq<byte>, chars: nat)
    requires fs.Valid() && !fs.halted && slot < INODE_NR && left > 0
    modifies fs
    ensures fs.Valid()
    ensures fs.blocks == old(fs.blocks) && fs.supers == old(fs.supers) && fs.inodes == old(fs.inodes)
    ensures fs.files == old(fs.files) && fs.task == old(fs.task)
    ensures ok <==> !fs.halted
    ensures ok <==> Mapped(fs.blocks, fs.inodes[slot], pos)
    ensures ok ==> chars == Min(Buffer.BLOCK_SIZE - pos % Buffer.BLOCK_SIZE, left) && chars > 0
    ensures ok ==> chunk == FileBytes(fs.blocks, fs.inodes[slot], pos, chars)
    ensures ok ==> AllMapped(fs.blocks, fs.inodes[slot], pos, pos + chars)
  {
    var s := fs.inodes[slot];
    chunk, chars := [], 0;
    if pos / Buffer.BLOCK_SIZE >= TOTAL_BLOCK {
      fs.halted := true;
      return false, chunk, chars;
    }
    var nr, _ := Bmap.Bmap(fs, slot, pos / Buffer.BLOCK_SIZE, false);
    if nr == 0 {
      fs.halted := true;
      return false, chunk, chars;
    }
    var start := pos % Buffer.BLOCK_SIZE;
    chars := Min(Buffer.BLOCK_SIZE - start, left);
    ChunkBytes(fs.blocks, s, pos, chars);
    ChunkMapped(fs.blocks, s, pos, chars);
    chunk := Block(fs.blocks, s.dev, nr)[start .. start + chars];
    ok := true;
  }

  /** `MAX` of two sizes. */
  function Max(a: nat, b: nat): (m: nat)
    ensures m >= a && m >= b && (m == a || m == b)
  {
    if a < b then b else a
  }

  /**
   * One pass of `inode_write`'s loop at file position `pos`, `rest` being
   * the bytes still to write: `bmap` with `create` finds or allocates the
   * zone, the size grows to the end of the window when that lies past it,
   * and then the window's bytes are copied into the zone. It halts where
   * the block number is out of range or `bmap` gives no zone.
   */
  method WriteWindow(fs: FileSystem, slot: nat, pos: nat, rest: seq<byte>) returns (chars: nat, nr: nat, ghost touched: set<nat>)
    requires fs.Valid() && !fs.halted && slot < INODE_NR && 0 < |rest|
    modifies fs
    ensures fs.Valid()
    ensures fs.supers == old(fs.supers) && fs.inodes == old(fs.inodes) && fs.files == old(fs.files) && fs.task == old(fs.task)
    ensures pos / Buffer.BLOCK_SIZE >= TOTAL_BLOCK ==> fs.halted
    ensures !fs.halted ==> chars == Min(Buffer.BLOCK_SIZE - pos % Buffer.BLOCK_SIZE, |rest|) && chars > 0 && nr != 0
    ensures !fs.halted ==> Block(fs.blocks, fs.inodes[slot].dev, nr)[pos % Buffer.BLOCK_SIZE .. pos % Buffer.BLOCK_SIZE + chars] == rest[..chars]
    ensures !fs.halted ==> Untouched(old(fs.blocks), fs.blocks, fs.inodes[slot].dev, touched + {fs.inodes[slot].block})
    ensures !fs.halted ==> nr in touched
    ensures !fs.halted && fs.inodes[slot].block !in touched ==>
      Desc(fs.blocks, fs.inodes[slot])
      == old(Desc(fs.blocks, fs.inodes[slot])).(zone := Desc(fs.blocks, fs.inodes[slot]).zone,
                                                 size := Max(old(Desc(fs.blocks, fs.inodes[slot])).size, pos + chars))
  {
    var s := fs.inodes[slot];
    chars, nr, touched := 0, 0, {};
    if pos / Buffer.BLOCK_SIZE >= TOTAL_BLOCK {
      fs.halted := true;
      return;
    }
    ghost var d0 := Desc(fs.blocks, s);
    nr, touched := Bmap.Bmap(fs, slot, pos / Buffer.BLOCK_SIZE, true);
    if fs.halted {
      return;
    }
    if nr == 0 {
      fs.halted := true;
      return;
    }
    ghost var mid := fs.blocks;
    chars := CopyWindow(fs, s, pos, rest, nr);
    UntouchedTrans(old(fs.blocks), mid, fs.blocks, s.dev, touched + {s.block}, {nr, s.block});
    touched := touched + {nr};
  }

  /**
   * The copying half of a pass of `inode_write` into zone `nr`: the size
   * grown to the end of the window when that lies past it, then the
   * window's bytes copied in.
   */
  method CopyWindow(fs: FileSystem, s: InodeSlot, pos: nat, rest: seq<byte>, nr: nat) returns (chars: nat)
    requires fs.Valid() && s.index < BLOCK_INODES && 0 < |rest| && pos / Buffer.BLOCK_SIZE < TOTAL_BLOCK
    modifies fs
    ensures fs.Valid() && fs.halted == old(fs.halted)
    ensures fs.supers == old(fs.supers) && fs.inodes == old(fs.inodes) && fs.files == old(fs.files) && fs.task == old(fs.task)
    ensures chars == Min(Buffer.BLOCK_SIZE - pos % Buffer.BLOCK_SIZE, |rest|) && chars > 0
    ensures Block(fs.blocks, s.dev, nr)[pos % Buffer.BLOCK_SIZE .. pos % Buffer.BLOCK_SIZE + chars] == rest[..chars]
    ensures Untouched(old(fs.blocks), fs.blocks, s.dev, {nr, s.block})
    ensures s.block != nr ==> Desc(fs.blocks, s) == old(Desc(fs.blocks, s)).(size := Max(old(Desc(fs.blocks, s)).size, pos + chars))
  {
    var start := pos % Buffer.BLOCK_SIZE;
    chars := Min(Buffer.BLOCK_SIZE - start, |rest|);
    var d := Desc(fs.blocks, s);
    if pos + chars > d.size {
      Resize(fs, s, d.(size := pos + chars));
    }
    ghost var grown := fs.blocks;
    PutBytes(fs, s.dev, nr, start, rest[..chars]);
    if s.block != nr {
      assert Block(fs.blocks, s.dev, s.block) == Block(grown, s.dev, s.block);
    }
  }

  /** The record of `s` replaced by `d`. */
  method Resize(fs: FileSystem, s: InodeSlot, d: InodeDesc)
    requires fs.Valid() && s.index < BLOCK_INODES && InodeOk(d)
    modifies fs
    ensures fs.Valid() && fs.halted == old(fs.halted)
    ensures fs.supers == old(fs.supers) && fs.inodes == old(fs.inodes) && fs.files == old(fs.files) && fs.task == old(fs.task)
    ensures fs.blocks == PutDesc(old(fs.blocks), s, d)
  {
    fs.blocks := PutDesc(fs.blocks, s, d);
  }

  /** The bytes `r` copied into block `n` of `dev` at offset `o`. */
  method PutBytes(fs: FileSystem, dev: int, n: nat, o: nat, r: seq<byte>)
    requires fs.Valid() && o + |r| <= Buffer.BLOCK_SIZE
    modifies fs
    ensures fs.Valid() && fs.halted == old(fs.halted)
    ensures fs.supers == old(fs.supers) && fs.inodes == old(fs.inodes) && fs.files == old(fs.files) && fs.task == old(fs.task)
    ensures fs.blocks == PutBlock(old(fs.blocks), dev, n, Splice(Block(old(fs.blocks), dev, n), o, r))
  {
    fs.blocks := PutBlock(fs.blocks, dev, n, Splice(Block(fs.blocks, dev, n), o, r));
  }

  /**
   * The loop of `inode_write`: the bytes `data` written window by window
   * from position `offset`. Unless a block it touched is the inode's own
   * block, the record keeps every field but the zones and the size, and
   * the size becomes the larger of the old size and the end of the write.
   */
  method WriteWindows(fs: FileSystem, slot: nat, data: seq<byte>, offset: nat) returns (ghost touched: set<nat>)
    requires fs.Valid() && !fs.halted && slot < INODE_NR && |data| > 0
    modifies fs
    ensures fs.Valid()
    ensures fs.supers == old(fs.supers) && fs.inodes == old(fs.inodes) && fs.files == old(fs.files) && fs.task == old(fs.task)
    ensures !fs.halted ==> Untouched(old(fs.blocks), fs.blocks, fs.inodes[slot].dev, touched + {fs.inodes[slot].block})
    ensures !fs.halted && fs.inodes[slot].block !in touched ==>
      var d0 := old(Desc(fs.blocks, fs.inodes[slot]));
      Desc(fs.blocks, fs.inodes[slot]) == d0.(zone := Desc(fs.blocks, fs.inodes[slot]).zone, size := Max(d0.size, offset + |data|))
  {
    var s := fs.inodes[slot];
    ghost var d0 := Desc(fs.blocks, s);
    touched := {};
    var pos: nat := offset;
    var left: nat := |data|;
    while left > 0
      invariant fs.Valid() && !fs.halted
      invariant fs.supers == old(fs.supers) && fs.inodes == old(fs.inodes) && fs.files == old(fs.files) && fs.task == old(fs.task)
      invariant offset <= pos && pos + left == offset + |data|
      invariant Untouched(old(fs.blocks), fs.blocks, s.dev, touched + {s.block})
      invariant s.block !in touched ==>
        Desc(fs.blocks, s) == d0.(zone := Desc(fs.blocks, s).zone, size := if pos == offset then d0.size else Max(d0.size, pos))
    {
      ghost var pre := fs.blocks;
      var chars, nr, t := WriteWindow(fs, slot, pos, data[pos - offset..]);
      if fs.halted {
        return;
      }
      UntouchedTrans(old(fs.blocks), pre, fs.blocks, s.dev, touched + {s.block}, t + {s.block});
      assert touched + {s.block} + (t + {s.block}) == touched + t + {s.block};
      if s.block !in touched + t {
        assert Desc(fs.blocks, s) == Desc(pre, s).(zone := Desc(fs.blocks, s).zone, size := Max(Desc(pre, s).size, pos + chars));
      }
      touched := touched + t;
      pos, left := pos + chars, left - chars;
    }
  }

  /**
   * `inode_write` of the bytes `data` at `offset` into a regular file: it
   * halts on any other kind of inode; otherwise it writes window by window
   * and returns `len`, and at the end stamps `mtime` and `atime` with
   * `now`. Unless a block the write touched is the inode's own block, the
   * record keeps every field but the zones, its size becomes the larger of
   * the old size and `offset + len`, and its `mtime` is `now`.
   */
  method InodeWrite(fs: FileSystem, slot: nat, data: seq<byte>, offset: int, now: nat) returns (r: int, ghost touched: set<nat>)
    requires fs.Valid() && !fs.halted && slot < INODE_NR && |data| < U32_LIMIT && now < U32_LIMIT
    modifies fs
    ensures fs.Valid()
    ensures fs.supers == old(fs.supers) && fs.files == old(fs.files) && fs.task == old(fs.task)
    ensures !IsFile(old(Desc(fs.blocks, fs.inodes[slot])).mode) ==> fs.halted && fs.blocks == old(fs.blocks)
    ensures IsFile(old(Desc(fs.blocks, fs.inodes[slot])).mode) && |data| == 0 ==> !fs.halted
    ensures IsFile(old(Desc(fs.blocks, fs.inodes[slot])).mode) && |data| > 0 && offset < 0 ==> fs.halted
    ensures !fs.halted ==> r == |data| && fs.inodes == old(fs.inodes)[slot := old(fs.inodes[slot]).(atime := now)]
    ensures !fs.halted ==> Untouched(old(fs.blocks), fs.blocks, fs.inodes[slot].dev, touched + {fs.inodes[slot].block})
    ensures !fs.halted && fs.inodes[slot].block !in touched ==>
      var d0 := old(Desc(fs.blocks, fs.inodes[slot]));
      Desc(fs.blocks, fs.inodes[slot])
      == d0.(zone := Desc(fs.blocks, fs.inodes[slot]).zone, mtime := now,
             size := if |data| == 0 then d0.size else Max(d0.size, offset + |data|))
  {
    var s := fs.inodes[slot];
    var d0 := Desc(fs.blocks, s);
    touched := {};
    if !IsFile(d0.mode) {
      fs.halted := true;
      return EOF, touched;
    }
    if |data| > 0 {
      if offset < 0 {
        fs.halted := true;
        return EOF, touched;
      }
      touched := WriteWindows(fs, slot, data, offset);
      if fs.halted {
        return EOF, touched;
      }
    }
    ghost var pre := fs.blocks;
    var d := Desc(fs.blocks, s);
    fs.blocks := PutDesc(fs.blocks, s, d.(mtime := now));
    UntouchedTrans(old(fs.blocks), pre, fs.blocks, s.dev, touched + {s.block}, {s.block});
    assert touched + {s.block} + {s.block} == touched + {s.block};
    fs.inodes := fs.inodes[slot := s.(atime := now)];
    r := |data|;
  }

  // ------------------------------------------------------------ truncation

  /**
   * What `inode_bfree` leaves when it frees the tree below pointer `k` of
   * holder `h`, `level` indirect levels deep: a zero pointer frees nothing;
   * at level 0 the zone's bit is cleared with `bfree`; otherwise the first
   * 32 entries of the indirect block are freed in order, then the pointer
   * is read again and that zone freed. The second component is true where
   * a `bfree` halts, and nothing runs after it.
   */
  function FreeTree(blocks: map<Buffer.Ident, seq<byte>>, s: InodeSlot, supers: seq<SuperSlot>,
                    h: Bmap.Holder, k: nat, level: nat): (r: (map<Buffer.Ident, seq<byte>>, bool))
    requires s.index < BLOCK_INODES && Bmap.PtrOk(h, k)
    ensures Bmap.Ptr(blocks, s, h, k) == 0 ==> r == (blocks, false)
    decreases 2 * level + 1, 0
  {
    var z := Bmap.Ptr(blocks, s, h, k);
    if z == 0 then (blocks, false)
    else if level == 0 then Bmap.ZoneRelease(blocks, s.dev, supers, z)
    else
      var c := FreeChildren(blocks, s, supers, z, level - 1, 0);
      if c.1 then c else Bmap.ZoneRelease(c.0, s.dev, supers, Bmap.Ptr(c.0, s, h, k))
  }

  /** The loop of `inode_bfree` over entries `i ..` of indirect block `n`, which stops at `BLOCK_INODES`. */
  function FreeChildren(blocks: map<Buffer.Ident, seq<byte>>, s: InodeSlot, supers: seq<SuperSlot>,
                        n: nat, level: nat, i: nat): (r: (map<Buffer.Ident, seq<byte>>, bool))
    requires s.index < BLOCK_INODES && i <= BLOCK_INODES
    decreases 2 * level + 2, BLOCK_INODES - i
  {
    if i == BLOCK_INODES then (blocks, false)
    else
      var c := FreeTree(blocks, s, supers, Bmap.InBlock(n), i, level);
      if c.1 then c else FreeChildren(c.0, s, supers, n, level, i + 1)
  }

  /** One `bfree` writes a zone-map block of its device and nothing else. */
  lemma ReleaseFrame(blocks: map<Buffer.Ident, seq<byte>>, dev: int, supers: seq<SuperSlot>, idx: int)
    requires Bmap.Distinct(Bmap.ZoneMaps(supers, dev))
    ensures Untouched(blocks, Bmap.ZoneRelease(blocks, dev, supers, idx).0, dev, Bmap.MapSet(Bmap.ZoneMaps(supers, dev)))
  {
    var d := SuperOf(blocks, dev);
    Bmap.ReleaseSpec(blocks, dev, Bmap.ZoneMaps(supers, dev), d.firstDataZone - 1, d.zones, idx);
  }

  /** Freeing a tree writes the zone-map blocks and nothing else. */
  lemma {:induction false} FreeTreeFrame(blocks: map<Buffer.Ident, seq<byte>>, s: InodeSlot, supers: seq<SuperSlot>,
                                         h: Bmap.Holder, k: nat, level: nat)
    requires s.index < BLOCK_INODES && Bmap.PtrOk(h, k) && Bmap.Distinct(Bmap.ZoneMaps(supers, s.dev))
    ensures Untouched(blocks, FreeTree(blocks, s, supers, h, k, level).0, s.dev, Bmap.MapSet(Bmap.ZoneMaps(supers, s.dev)))
    decreases 2 * level + 1, 0
  {
    var t := Bmap.MapSet(Bmap.ZoneMaps(supers, s.dev));
    var z := Bmap.Ptr(blocks, s, h, k);
    if z == 0 {
    } else if level == 0 {
      ReleaseFrame(blocks, s.dev, supers, z);
    } else {
      var c := FreeChildren(blocks, s, supers, z, level - 1, 0);
      assert FreeTree(blocks, s, supers, h, k, level) ==
        if c.1 then c else Bmap.ZoneRelease(c.0, s.dev, supers, Bmap.Ptr(c.0, s, h, k));
      FreeChildrenFrame(blocks, s, supers, z, level - 1, 0);
      if !c.1 {
        ReleaseAgainFrame(blocks, c.0, s, supers, h, k);
      }
    }
  }

  /** After the children, the `bfree` of the pointer read again writes the zone maps only. */
  lemma ReleaseAgainFrame(blocks: map<Buffer.Ident, seq<byte>>, after: map<Buffer.Ident, seq<byte>>, s: InodeSlot,
                          supers: seq<SuperSlot>, h: Bmap.Holder, k: nat)
    requires s.index < BLOCK_INODES && Bmap.PtrOk(h, k) && Bmap.Distinct(Bmap.ZoneMaps(supers, s.dev))
    requires Untouched(blocks, after, s.dev, Bmap.MapSet(Bmap.ZoneMaps(supers, s.dev)))
    ensures Untouched(blocks, Bmap.ZoneRelease(after, s.dev, supers, Bmap.Ptr(after, s, h, k)).0, s.dev,
                      Bmap.MapSet(Bmap.ZoneMaps(supers, s.dev)))
  {
    var z2 := Bmap.Ptr(after, s, h, k);
    ReleaseFrame(after, s.dev, supers, z2);
    UntouchedChain(blocks, after, Bmap.ZoneRelease(after, s.dev, supers, z2).0, s.dev, Bmap.MapSet(Bmap.ZoneMaps(supers, s.dev)));
  }

  lemma {:induction false} FreeChildrenFrame(blocks: map<Buffer.Ident, seq<byte>>, s: InodeSlot, supers: seq<SuperSlot>,
                                             n: nat, level: nat, i: nat)
    requires s.index < BLOCK_INODES && i <= BLOCK_INODES && Bmap.Distinct(Bmap.ZoneMaps(supers, s.dev))
    ensures Untouched(blocks, FreeChildren(blocks, s, supers, n, level, i).0, s.dev, Bmap.MapSet(Bmap.ZoneMaps(supers, s.dev)))
    decreases 2 * level + 2, BLOCK_INODES - i
  {
    var t := Bmap.MapSet(Bmap.ZoneMaps(supers, s.dev));
    if i < BLOCK_INODES {
      var c := FreeTree(blocks, s, supers, Bmap.InBlock(n), i, level);
      FreeTreeFrame(blocks, s, supers, Bmap.InBlock(n), i, level);
      if !c.1 {
        FreeChildrenFrame(c.0, s, supers, n, level, i + 1);
        UntouchedChain(blocks, c.0, FreeChildren(c.0, s, supers, n, level, i + 1).0, s.dev, t);
      }
    }
  }

  /** Entries `i` to 31 of indirect block `n` are zero. */
  ghost predicate ZeroEntries(blocks: map<Buffer.Ident, seq<byte>>, s: InodeSlot, n: nat, i: nat)
    requires s.index < BLOCK_INODES
  {
    forall j :: i <= j < BLOCK_INODES ==> Bmap.Ptr(blocks, s, Bmap.InBlock(n), j) == 0
  }

  /** Entries `i ..` of indirect block `n` being zero, freeing them changes nothing. */
  lemma {:induction false} FreeZeroChildren(blocks: map<Buffer.Ident, seq<byte>>, s: InodeSlot, supers: seq<SuperSlot>,
                                            n: nat, level: nat, i: nat)
    requires s.index < BLOCK_INODES && i <= BLOCK_INODES
    requires ZeroEntries(blocks, s, n, i)
    ensures FreeChildren(blocks, s, supers, n, level, i) == (blocks, false)
    decreases BLOCK_INODES - i
  {
    if i < BLOCK_INODES {
      FreeZeroChildren(blocks, s, supers, n, level, i + 1);
    }
  }

  /**
   * Entries 32 to 511 of an indirect block are never visited: with a
   * single indirect block `n` whose first 32 entries are zero, freeing the
   * tree is freeing `n` alone, and every other zone keeps its bit, so the
   * zones the later entries name stay marked in use and are lost.
   */
  lemma InodeBfreeLeaks(blocks: map<Buffer.Ident, seq<byte>>, s: InodeSlot, supers: seq<SuperSlot>, n: nat)
    requires s.index < BLOCK_INODES && Bmap.Distinct(Bmap.ZoneMaps(supers, s.dev))
    requires Desc(blocks, s).zone[DIRECT_BLOCK] == n != 0
    requires ZeroEntries(blocks, s, n, 0)
    ensures FreeTree(blocks, s, supers, Bmap.InInode, DIRECT_BLOCK, 1) == Bmap.ZoneRelease(blocks, s.dev, supers, n)
    ensures var r := Bmap.ZoneRelease(blocks, s.dev, supers, n);
      !r.1 ==> Bmap.OnlyBit(blocks, r.0, s.dev, Bmap.ZoneMaps(supers, s.dev), SuperOf(blocks, s.dev).firstDataZone - 1, n, false)
  {
    FreeZeroChildren(blocks, s, supers, n, 0, 0);
    Bmap.ZoneReleaseSpec(blocks, s.dev, supers, n);
  }

  /**
   * `inode_bfree`: free the tree below pointer `k` of holder `h` of the
   * inode in `slot`, as `FreeTree` describes.
   */
  method InodeBfree(fs: FileSystem, slot: nat, h: Bmap.Holder, k: nat, level: nat)
    requires fs.Valid() && !fs.halted && slot < INODE_NR && Bmap.PtrOk(h, k)
    modifies fs
    decreases level, 2
    ensures fs.Valid()
    ensures fs.supers == old(fs.supers) && fs.inodes == old(fs.inodes) && fs.files == old(fs.files) && fs.task == old(fs.task)
    ensures (fs.blocks, fs.halted) == FreeTree(old(fs.blocks), fs.inodes[slot], fs.supers, h, k, level)
  {
    var s := fs.inodes[slot];
    var z := Bmap.Ptr(fs.blocks, s, h, k);
    if z == 0 {
      return;
    }
    if level == 0 {
      Bmap.Bfree(fs, s.dev, z);
      return;
    }
    BfreeIndirect(fs, slot, h, k, level);
  }

  /** `inode_bfree` on a non-zero pointer above level 0: the children first, then the indirect block itself. */
  method BfreeIndirect(fs: FileSystem, slot: nat, h: Bmap.Holder, k: nat, level: nat)
    requires fs.Valid() && !fs.halted && slot < INODE_NR && Bmap.PtrOk(h, k) && level > 0
    requires Bmap.Ptr(fs.blocks, fs.inodes[slot], h, k) != 0
    modifies fs
    decreases level, 1
    ensures fs.Valid()
    ensures fs.supers == old(fs.supers) && fs.inodes == old(fs.inodes) && fs.files == old(fs.files) && fs.task == old(fs.task)
    ensures (fs.blocks, fs.halted) == FreeTree(old(fs.blocks), fs.inodes[slot], fs.supers, h, k, level)
  {
    var s := fs.inodes[slot];
    var z := Bmap.Ptr(fs.blocks, s, h, k);
    ghost var tree := FreeTree(fs.blocks, s, fs.supers, h, k, level);
    ghost var c := FreeChildren(fs.blocks, s, fs.supers, z, level - 1, 0);
    assert tree == if c.1 then c else Bmap.ZoneRelease(c.0, s.dev, fs.supers, Bmap.Ptr(c.0, s, h, k));
    BfreeChildren(fs, slot, z, level - 1);
    if fs.halted {
      return;
    }
    var z2 := Bmap.Ptr(fs.blocks, s, h, k);
    Bmap.Bfree(fs, s.dev, z2);
  }

  /** The loop of `inode_bfree`: free the trees below the first 32 entries of indirect block `n`, in order. */
  method BfreeChildren(fs: FileSystem, slot: nat, n: nat, level: nat)
    requires fs.Valid() && !fs.halted && slot < INODE_NR
    modifies fs
    decreases level + 1, 0
    ensures fs.Valid()
    ensures fs.supers == old(fs.supers) && fs.inodes == old(fs.inodes) && fs.files == old(fs.files) && fs.task == old(fs.task)
    ensures (fs.blocks, fs.halted) == FreeChildren(old(fs.blocks), fs.inodes[slot], fs.supers, n, level, 0)
  {
    var s := fs.inodes[slot];
    var i := 0;
    while i < BLOCK_INODES
      invariant fs.Valid() && !fs.halted && i <= BLOCK_INODES
      invariant fs.supers == old(fs.supers) && fs.inodes == old(fs.inodes) && fs.files == old(fs.files) && fs.task == old(fs.task)
      invariant FreeChildren(old(fs.blocks), s, fs.supers, n, level, 0) == FreeChildren(fs.blocks, s, fs.supers, n, level, i)
    {
      InodeBfree(fs, slot, Bmap.InBlock(n), i, level);
      if fs.halted {
        return;
      }
      i := i + 1;
    }
  }

  /** The indirect levels below zone `i` of an inode: 0 for the direct zones, 1 and 2 for the last two. */
  function ZoneLevel(i: nat): (level: nat)
    ensures i < DIRECT_BLOCK ==> level == 0
    ensures i >= DIRECT_BLOCK ==> level == i - DIRECT_BLOCK + 1
  {
    if i < DIRECT_BLOCK then 0 else i - DIRECT_BLOCK + 1
  }

  /** One step of `inode_truncate`: free the tree below zone `i`, then clear the pointer. */
  function ClearZone(blocks: map<Buffer.Ident, seq<byte>>, s: InodeSlot, supers: seq<SuperSlot>, i: nat)
    : (r: (map<Buffer.Ident, seq<byte>>, bool))
    requires s.index < BLOCK_INODES && i < ZONES
  {
    var c := FreeTree(blocks, s, supers, Bmap.InInode, i, ZoneLevel(i));
    if c.1 then c else (Bmap.SetPtr(c.0, s, Bmap.InInode, i, 0), false)
  }

  /** Zones `i ..` cleared in order, stopping at the first halt. */
  function ClearZones(blocks: map<Buffer.Ident, seq<byte>>, s: InodeSlot, supers: seq<SuperSlot>, i: nat)
    : (r: (map<Buffer.Ident, seq<byte>>, bool))
    requires s.index < BLOCK_INODES && i <= ZONES
    decreases ZONES - i
  {
    if i == ZONES then (blocks, false)
    else
      var c := ClearZone(blocks, s, supers, i);
      if c.1 then c else ClearZones(c.0, s, supers, i + 1)
  }

  /**
   * What `inode_truncate` leaves: nothing changes unless the inode is a
   * regular file or a directory; otherwise every zone tree is freed and its
   * pointer cleared, then the size becomes 0 and the modification time `now`.
   */
  function Truncated(blocks: map<Buffer.Ident, seq<byte>>, s: InodeSlot, supers: seq<SuperSlot>, now: nat)
    : (r: (map<Buffer.Ident, seq<byte>>, bool))
    requires s.index < BLOCK_INODES && now < U32_LIMIT
    ensures !IsFile(Desc(blocks, s).mode) && !IsDir(Desc(blocks, s).mode) ==> r == (blocks, false)
    ensures (IsFile(Desc(blocks, s).mode) || IsDir(Desc(blocks, s).mode)) && !r.1 ==>
      Desc(r.0, s).size == 0 && Desc(r.0, s).mtime == now
  {
    var d := Desc(blocks, s);
    if !IsFile(d.mode) && !IsDir(d.mode) then (blocks, false)
    else
      var c := ClearZones(blocks, s, supers, 0);
      if c.1 then c else (Emptied(c.0, s, now), false)
  }

  /** Truncation reads a slot only for its device and the record it points at, and the table only for the zone maps. */
  lemma TruncatedAt(blocks: map<Buffer.Ident, seq<byte>>, s: InodeSlot, t: InodeSlot, supers: seq<SuperSlot>,
                    supers': seq<SuperSlot>, now: nat)
    requires s.index < BLOCK_INODES && now < U32_LIMIT && s.dev == t.dev && s.block == t.block && s.index == t.index
    requires Bmap.ZoneMaps(supers, s.dev) == Bmap.ZoneMaps(supers', s.dev)
    ensures Truncated(blocks, s, supers, now) == Truncated(blocks, t, supers', now)
  {
    ClearZonesAt(blocks, s, t, supers, supers', 0);
  }

  /** Clearing zones `i ..` reads a slot only for its device and record. */
  lemma {:induction false} ClearZonesAt(blocks: map<Buffer.Ident, seq<byte>>, s: InodeSlot, t: InodeSlot, supers: seq<SuperSlot>,
                                        supers': seq<SuperSlot>, i: nat)
    requires s.index < BLOCK_INODES && i <= ZONES && s.dev == t.dev && s.block == t.block && s.index == t.index
    requires Bmap.ZoneMaps(supers, s.dev) == Bmap.ZoneMaps(supers', s.dev)
    ensures ClearZones(blocks, s, supers, i) == ClearZones(blocks, t, supers', i)
    decreases ZONES - i
  {
    if i < ZONES {
      FreeTreeAt(blocks, s, t, supers, supers', Bmap.InInode, i, ZoneLevel(i));
      var c := ClearZone(blocks, s, supers, i);
      if !c.1 {
        ClearZonesAt(c.0, s, t, supers, supers', i + 1);
      }
    }
  }

  /** Freeing a zone tree reads a slot only for its device and record. */
  lemma {:induction false} FreeTreeAt(blocks: map<Buffer.Ident, seq<byte>>, s: InodeSlot, t: InodeSlot, supers: seq<SuperSlot>,
                                      supers': seq<SuperSlot>, h: Bmap.Holder, k: nat, level: nat)
    requires s.index < BLOCK_INODES && Bmap.PtrOk(h, k) && s.dev == t.dev && s.block == t.block && s.index == t.index
    requires Bmap.ZoneMaps(supers, s.dev) == Bmap.ZoneMaps(supers', s.dev)
    ensures FreeTree(blocks, s, supers, h, k, level) == FreeTree(blocks, t, supers', h, k, level)
    decreases 2 * level + 1, 0
  {
    var z := Bmap.Ptr(blocks, s, h, k);
    if z != 0 && level > 0 {
      FreeChildrenAt(blocks, s, t, supers, supers', z, level - 1, 0);
    }
  }

  /** Freeing the children of an indirect block reads a slot only for its device and record. */
  lemma {:induction false} FreeChildrenAt(blocks: map<Buffer.Ident, seq<byte>>, s: InodeSlot, t: InodeSlot, supers: seq<SuperSlot>,
                                          supers': seq<SuperSlot>, n: nat, level: nat, i: nat)
    requires s.index < BLOCK_INODES && i <= BLOCK_INODES && s.dev == t.dev && s.block == t.block && s.index == t.index
    requires Bmap.ZoneMaps(supers, s.dev) == Bmap.ZoneMaps(supers', s.dev)
    ensures FreeChildren(blocks, s, supers, n, level, i) == FreeChildren(blocks, t, supers', n, level, i)
    decreases 2 * level + 2, BLOCK_INODES - i
  {
    if i < BLOCK_INODES {
      FreeTreeAt(blocks, s, t, supers, supers', Bmap.InBlock(n), i, level);
      var c := FreeTree(blocks, s, supers, Bmap.InBlock(n), i, level);
      if !c.1 {
        FreeChildrenAt(c.0, s, t, supers, supers', n, level, i + 1);
      }
    }
  }

  /** The record of `s` with size 0 and modification time `now`. */
  function Emptied(blocks: map<Buffer.Ident, seq<byte>>, s: InodeSlot, now: nat): (r: map<Buffer.Ident, seq<byte>>)
    requires s.index < BLOCK_INODES && now < U32_LIMIT
  {
    PutDesc(blocks, s, Desc(blocks, s).(size := 0, mtime := now))
  }

  /** Clearing one zone writes the zone maps and the inode's own block, nothing else. */
  lemma ClearZoneFrame(blocks: map<Buffer.Ident, seq<byte>>, s: InodeSlot, supers: seq<SuperSlot>, i: nat)
    requires s.index < BLOCK_INODES && i < ZONES && Bmap.Distinct(Bmap.ZoneMaps(supers, s.dev))
    ensures Untouched(blocks, ClearZone(blocks, s, supers, i).0, s.dev, Bmap.MapSet(Bmap.ZoneMaps(supers, s.dev)) + {s.block})
  {
    var c := FreeTree(blocks, s, supers, Bmap.InInode, i, ZoneLevel(i));
    FreeTreeFrame(blocks, s, supers, Bmap.InInode, i, ZoneLevel(i));
    if !c.1 {
      Bmap.SetPtrFrame(c.0, s, Bmap.InInode, i, 0);
      UntouchedTrans(blocks, c.0, Bmap.SetPtr(c.0, s, Bmap.InInode, i, 0), s.dev, Bmap.MapSet(Bmap.ZoneMaps(supers, s.dev)), {s.block});
    }
  }

  /** Clearing zones writes the zone maps and the inode's own block, nothing else. */
  lemma {:induction false} ClearZonesFrame(blocks: map<Buffer.Ident, seq<byte>>, s: InodeSlot, supers: seq<SuperSlot>, i: nat)
    requires s.index < BLOCK_INODES && i <= ZONES && Bmap.Distinct(Bmap.ZoneMaps(supers, s.dev))
    ensures Untouched(blocks, ClearZones(blocks, s, supers, i).0, s.dev, Bmap.MapSet(Bmap.ZoneMaps(supers, s.dev)) + {s.block})
    decreases ZONES - i
  {
    var t := Bmap.MapSet(Bmap.ZoneMaps(supers, s.dev)) + {s.block};
    if i < ZONES {
      var c := ClearZone(blocks, s, supers, i);
      ClearZoneFrame(blocks, s, supers, i);
      if !c.1 {
        ClearZonesFrame(c.0, s, supers, i + 1);
        UntouchedChain(blocks, c.0, ClearZones(c.0, s, supers, i + 1).0, s.dev, t);
      }
    }
  }

  /** One zone cleared without a halt: the record is as it was but for that zone, now zero. */
  lemma ClearZoneDesc(blocks: map<Buffer.Ident, seq<byte>>, s: InodeSlot, supers: seq<SuperSlot>, i: nat)
    requires s.index < BLOCK_INODES && i < ZONES && Bmap.Distinct(Bmap.ZoneMaps(supers, s.dev))
    requires s.block !in Bmap.MapSet(Bmap.ZoneMaps(supers, s.dev))
    ensures var r := ClearZone(blocks, s, supers, i);
      !r.1 ==> Desc(r.0, s) == Desc(blocks, s).(zone := Desc(blocks, s).zone[i := 0])
  {
    var c := FreeTree(blocks, s, supers, Bmap.InInode, i, ZoneLevel(i));
    FreeTreeFrame(blocks, s, supers, Bmap.InInode, i, ZoneLevel(i));
    assert Block(c.0, s.dev, s.block) == Block(blocks, s.dev, s.block);
    assert Desc(c.0, s) == Desc(blocks, s);
  }

  /**
   * With the inode's block apart from the zone maps, clearing zones `i ..`
   * that do not halt leaves the inode record as it was but for those
   * zones, which become zero.
   */
  lemma {:induction false} ClearZonesDesc(blocks: map<Buffer.Ident, seq<byte>>, s: InodeSlot, supers: seq<SuperSlot>, i: nat)
    requires s.index < BLOCK_INODES && i <= ZONES && Bmap.Distinct(Bmap.ZoneMaps(supers, s.dev))
    requires s.block !in Bmap.MapSet(Bmap.ZoneMaps(supers, s.dev))
    ensures var r := ClearZones(blocks, s, supers, i);
      !r.1 ==> ZonesClearedFrom(Desc(blocks, s), Desc(r.0, s), i)
    decreases ZONES - i
  {
    if i < ZONES {
      var c := ClearZone(blocks, s, supers, i);
      ClearZoneDesc(blocks, s, supers, i);
      if !c.1 {
        ClearZonesDesc(c.0, s, supers, i + 1);
        var r := ClearZones(c.0, s, supers, i + 1);
        if !r.1 {
          ZonesClearedStep(Desc(blocks, s), Desc(c.0, s), Desc(r.0, s), i);
        }
      }
    }
  }

  /** Record `e` is `d` with zone pointers `i ..` zero and the others kept. */
  ghost predicate ZonesClearedFrom(d: InodeDesc, e: InodeDesc, i: nat)
  {
    |d.zone| == |e.zone| == ZONES && e == d.(zone := e.zone)
    && (forall j :: 0 <= j < i && j < ZONES ==> e.zone[j] == d.zone[j])
    && (forall j :: i <= j < ZONES ==> e.zone[j] == 0)
  }

  /** Clearing zone `i` of `d`, then zones `i + 1 ..`, clears zones `i ..` of `d`. */
  lemma ZonesClearedStep(d: InodeDesc, d1: InodeDesc, e: InodeDesc, i: nat)
    requires i < ZONES == |d.zone| && d1 == d.(zone := d.zone[i := 0]) && ZonesClearedFrom(d1, e, i + 1)
    ensures ZonesClearedFrom(d, e, i)
  {
  }

  /** `inode_truncate` writes the zone maps and the inode's own block, nothing else. */
  lemma TruncateFrame(blocks: map<Buffer.Ident, seq<byte>>, s: InodeSlot, supers: seq<SuperSlot>, now: nat)
    requires s.index < BLOCK_INODES && now < U32_LIMIT && Bmap.Distinct(Bmap.ZoneMaps(supers, s.dev))
    ensures Untouched(blocks, Truncated(blocks, s, supers, now).0, s.dev, Bmap.MapSet(Bmap.ZoneMaps(supers, s.dev)) + {s.block})
  {
    var t := Bmap.MapSet(Bmap.ZoneMaps(supers, s.dev)) + {s.block};
    var d := Desc(blocks, s);
    if IsFile(d.mode) || IsDir(d.mode) {
      ClearZonesFrame(blocks, s, supers, 0);
      var c := ClearZones(blocks, s, supers, 0);
      if !c.1 {
        UntouchedTrans(blocks, c.0, Truncated(blocks, s, supers, now).0, s.dev, t, {s.block});
        assert t + {s.block} == t;
      }
    }
  }

  /**
   * A truncation of a file or directory that does not halt leaves every
   * zone pointer zero, the size 0 and the modification time `now`, and the
   * rest of the record as it was; any other inode is left alone.
   */
  lemma TruncateClears(blocks: map<Buffer.Ident, seq<byte>>, s: InodeSlot, supers: seq<SuperSlot>, now: nat)
    requires s.index < BLOCK_INODES && now < U32_LIMIT && Bmap.Distinct(Bmap.ZoneMaps(supers, s.dev))
    requires s.block !in Bmap.MapSet(Bmap.ZoneMaps(supers, s.dev))
    ensures var d := Desc(blocks, s);
      var r := Truncated(blocks, s, supers, now);
      (!IsFile(d.mode) && !IsDir(d.mode) ==> r == (blocks, false))
      && (!r.1 && (IsFile(d.mode) || IsDir(d.mode)) ==>
            var e := Desc(r.0, s);
            e == d.(zone := e.zone, size := 0, mtime := now) && forall j :: 0 <= j < ZONES ==> e.zone[j] == 0)
  {
    ClearZonesDesc(blocks, s, supers, 0);
  }

  /**
   * `inode_truncate` on the inode in `slot`: the direct zones one by one,
   * then the single and the double indirect trees, each pointer cleared
   * after its tree is freed; then the size and modification time.
   */
  method InodeTruncate(fs: FileSystem, slot: nat, now: nat)
    requires fs.Valid() && !fs.halted && slot < INODE_NR && now < U32_LIMIT
    modifies fs
    ensures fs.Valid()
    ensures fs.supers == old(fs.supers) && fs.inodes == old(fs.inodes) && fs.files == old(fs.files) && fs.task == old(fs.task)
    ensures (fs.blocks, fs.halted) == Truncated(old(fs.blocks), fs.inodes[slot], fs.supers, now)
  {
    var s := fs.inodes[slot];
    var d := Desc(fs.blocks, s);
    if !IsFile(d.mode) && !IsDir(d.mode) {
      return;
    }
    ClearAllZones(fs, slot);
    if fs.halted {
      return;
    }
    EmptyInode(fs, slot, now);
  }

  /** The last step of `inode_truncate`: size 0 and modification time `now` in the record. */
  method EmptyInode(fs: FileSystem, slot: nat, now: nat)
    requires fs.Valid() && slot < INODE_NR && now < U32_LIMIT
    modifies fs
    ensures fs.Valid() && fs.halted == old(fs.halted)
    ensures fs.supers == old(fs.supers) && fs.inodes == old(fs.inodes) && fs.files == old(fs.files) && fs.task == old(fs.task)
    ensures fs.blocks == Emptied(old(fs.blocks), fs.inodes[slot], now)
  {
    fs.blocks := Emptied(fs.blocks, fs.inodes[slot], now);
  }

  /** The three freeing steps of `inode_truncate`: the direct zones in a loop, then the two indirect trees. */
  method ClearAllZones(fs: FileSystem, slot: nat)
    requires fs.Valid() && !fs.halted && slot < INODE_NR
    modifies fs
    ensures fs.Valid()
    ensures fs.supers == old(fs.supers) && fs.inodes == old(fs.inodes) && fs.files == old(fs.files) && fs.task == old(fs.task)
    ensures (fs.blocks, fs.halted) == ClearZones(old(fs.blocks), fs.inodes[slot], fs.supers, 0)
  {
    ghost var b0 := fs.blocks;
    var i := 0;
    while i < DIRECT_BLOCK && !fs.halted
      invariant fs.Valid() && i <= DIRECT_BLOCK
      invariant fs.supers == old(fs.supers) && fs.inodes == old(fs.inodes) && fs.files == old(fs.files) && fs.task == old(fs.task)
      invariant Clearing(b0, fs.blocks, fs.halted, fs.inodes[slot], fs.supers, i)
    {
      ClearNext(fs, slot, i, b0);
      i := i + 1;
    }
    if !fs.halted {
      ClearNext(fs, slot, DIRECT_BLOCK, b0);
    }
    if !fs.halted {
      ClearNext(fs, slot, DIRECT_BLOCK + 1, b0);
    }
  }

  /**
   * Zones `0 .. i - 1` of `s` cleared, starting from `b0`: on a halt the
   * outcome is that of clearing every zone, and otherwise what is left
   * to do is zones `i ..`.
   */
  ghost predicate Clearing(b0: map<Buffer.Ident, seq<byte>>, b: map<Buffer.Ident, seq<byte>>, halted: bool,
                           s: InodeSlot, supers: seq<SuperSlot>, i: nat)
    requires s.index < BLOCK_INODES
  {
    i <= ZONES
    && if halted then (b, halted) == ClearZones(b0, s, supers, 0)
       else ClearZones(b0, s, supers, 0) == ClearZones(b, s, supers, i)
  }

  /** One more zone of `inode_truncate`'s freeing steps. */
  method ClearNext(fs: FileSystem, slot: nat, i: nat, ghost b0: map<Buffer.Ident, seq<byte>>)
    requires fs.Valid() && !fs.halted && slot < INODE_NR && i < ZONES
    requires Clearing(b0, fs.blocks, false, fs.inodes[slot], fs.supers, i)
    modifies fs
    ensures fs.Valid()
    ensures fs.supers == old(fs.supers) && fs.inodes == old(fs.inodes) && fs.files == old(fs.files) && fs.task == old(fs.task)
    ensures Clearing(b0, fs.blocks, fs.halted, fs.inodes[slot], fs.supers, i + 1)
  {
    ClearZoneStep(fs, slot, i);
  }

  /** `inode_bfree` on zone `i` followed by clearing the pointer. */
  method ClearZoneStep(fs: FileSystem, slot: nat, i: nat)
    requires fs.Valid() && !fs.halted && slot < INODE_NR && i < ZONES
    modifies fs
    ensures fs.Valid()
    ensures fs.supers == old(fs.supers) && fs.inodes == old(fs.inodes) && fs.files == old(fs.files) && fs.task == old(fs.task)
    ensures (fs.blocks, fs.halted) == ClearZone(old(fs.blocks), fs.inodes[slot], fs.supers, i)
  {
    var s := fs.inodes[slot];
    InodeBfree(fs, slot, Bmap.InInode, i, ZoneLevel(i));
    if fs.halted {
      return;
    }
    fs.blocks := Bmap.SetPtr(fs.blocks, s, Bmap.InInode, i, 0);
  }
}
