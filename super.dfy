/**
 * The super-block table (`super.c`): 16 slots keyed by device, `EOF`
 * marking a free one, and `read_super`, which mounts a device by reading
 * its block 1 and recording which blocks hold its inode and zone maps.
 */
module Super {
  import opened Base
  import opened FsLayout
  import opened FsState

  /** The index of the first free slot (`dev == EOF`), or None where `get_free_super` panics. */
  method GetFreeSuper(fs: FileSystem) returns (r: Option<nat>)
    requires fs.Valid()
    ensures r.Some? ==> r.value < SUPER_NR && fs.supers[r.value].dev == EOF
    ensures r.Some? ==> forall j :: 0 <= j < r.value ==> fs.supers[j].dev != EOF
    ensures r.None? <==> forall j :: 0 <= j < SUPER_NR ==> fs.supers[j].dev != EOF
  {
    var i := 0;
    while i < SUPER_NR
      invariant i <= SUPER_NR
      invariant forall j :: 0 <= j < i ==> fs.supers[j].dev != EOF
    {
      if fs.supers[i].dev == EOF {
        return Some(i);
      }
      i := i + 1;
    }
    return None;
  }

  /** `get_super`: the first slot whose `dev` matches, or None for NULL. */
  method GetSuper(fs: FileSystem, dev: int) returns (r: Option<nat>)
    requires fs.Valid()
    ensures r == FindSuper(fs.supers, dev)
    ensures r.Some? ==> r.value < SUPER_NR && fs.supers[r.value].dev == dev
    ensures r.None? <==> forall j :: 0 <= j < SUPER_NR ==> fs.supers[j].dev != dev
  {
    var i := 0;
    while i < SUPER_NR
      invariant i <= SUPER_NR
      invariant forall j :: 0 <= j < i ==> fs.supers[j].dev != dev
    {
      if fs.supers[i].dev == dev {
        FindSuperFirst(fs.supers, dev, i);
        return Some(i);
      }
      i := i + 1;
    }
    return None;
  }

  /** A slot that matches with no match before it is the one `FindSuper` reports. */
  lemma {:induction false} FindSuperFirst(supers: seq<SuperSlot>, dev: int, i: nat)
    requires i < |supers| && supers[i].dev == dev
    requires forall j :: 0 <= j < i ==> supers[j].dev != dev
    ensures FindSuper(supers, dev) == Some(i)
  {
    if i > 0 {
      FindSuperFirst(supers[1..], dev, i - 1);
    }
  }

  /** A slot as `super_init` leaves it: free, with an empty inode list and no root or mount-point inode. */
  function Freed(s: SuperSlot): SuperSlot
  {
    s.(dev := EOF, inodeList := [], iroot := None, imount := None)
  }

  /** The loop of `super_init`: every slot freed, so no device is mounted. */
  method ResetSupers(fs: FileSystem)
    requires fs.Valid()
    modifies fs
    ensures fs.Valid() && fs.blocks == old(fs.blocks) && fs.inodes == old(fs.inodes) && fs.files == old(fs.files)
    ensures fs.task == old(fs.task) && fs.halted == old(fs.halted) && |fs.supers| == SUPER_NR
    ensures forall i :: 0 <= i < SUPER_NR ==> fs.supers[i] == Freed(old(fs.supers[i]))
    ensures forall dev :: dev != EOF ==> FindSuper(fs.supers, dev).None?
  {
    var i := 0;
    while i < SUPER_NR
      invariant i <= SUPER_NR && fs.Valid()
      invariant fs.blocks == old(fs.blocks) && fs.inodes == old(fs.inodes) && fs.files == old(fs.files)
      invariant fs.task == old(fs.task) && fs.halted == old(fs.halted) && |fs.supers| == SUPER_NR
      invariant forall j :: 0 <= j < i ==> fs.supers[j] == Freed(old(fs.supers[j]))
      invariant forall j :: i <= j < SUPER_NR ==> fs.supers[j] == old(fs.supers[j])
    {
      fs.supers := fs.supers[i := Freed(fs.supers[i])];
      i := i + 1;
    }
  }

  /** `get_super` looks at the `dev` fields only. */
  lemma {:induction false} FindSuperByDev(a: seq<SuperSlot>, b: seq<SuperSlot>, dev: int)
    requires |a| == |b| && forall j :: 0 <= j < |a| ==> a[j].dev == b[j].dev
    ensures FindSuper(a, dev) == FindSuper(b, dev)
  {
    if |a| > 0 {
      FindSuperByDev(a[1..], b[1..], dev);
    }
  }

  /** What a freshly mounted slot holds: the device and its map blocks, the rest of the slot as it was. */
  function Mounted(s: SuperSlot, dev: int, d: SuperDesc): SuperSlot
  {
    s.(dev := dev, inodeMap := Run(2, d.imapBlocks), zoneMap := Run(2 + d.imapBlocks, d.zmapBlocks))
  }

  /** Where `read_super` halts a fresh mount: no free slot, a bad magic number, or more than 8 map blocks of a kind. */
  predicate MountFails(supers: seq<SuperSlot>, d: SuperDesc)
  {
    (forall j :: 0 <= j < |supers| ==> supers[j].dev != EOF)
    || d.magic != MINIX1_MAGIC || d.imapBlocks > IMAP_NR || d.zmapBlocks > ZMAP_NR
  }

  /**
   * `read_super`: a mounted device's slot is returned as it is; otherwise
   * the first free slot takes the device, checked by its magic number, with
   * the inode-map blocks numbered from 2 and the zone-map blocks after them.
   * Either way the device is then found at the returned slot.
   */
  method ReadSuper(fs: FileSystem, dev: int) returns (r: nat)
    requires fs.Valid() && !fs.halted
    modifies fs
    ensures fs.Valid()
    ensures fs.blocks == old(fs.blocks) && fs.inodes == old(fs.inodes) && fs.files == old(fs.files) && fs.task == old(fs.task)
    ensures old(FindSuper(fs.supers, dev)).Some? ==>
      !fs.halted && r == old(FindSuper(fs.supers, dev)).value && fs.supers == old(fs.supers)
    ensures old(FindSuper(fs.supers, dev)).None? ==>
      (fs.halted <==> MountFails(old(fs.supers), SuperOf(fs.blocks, dev)))
    ensures old(FindSuper(fs.supers, dev)).None? && !fs.halted ==>
      r < SUPER_NR && old(fs.supers[r].dev) == EOF && (forall j :: 0 <= j < r ==> old(fs.supers[j].dev) != EOF)
      && fs.supers == old(fs.supers)[r := Mounted(old(fs.supers[r]), dev, SuperOf(fs.blocks, dev))]
    ensures !fs.halted ==> r < SUPER_NR && FindSuper(fs.supers, dev) == Some(r)
  {
    var found := GetSuper(fs, dev);
    if found.Some? {
      return found.value;
    }
    var free := GetFreeSuper(fs);
    if free.None? {
      fs.halted := true;
      return 0;
    }
    r := free.value;
    var d := SuperOf(fs.blocks, dev);
    if d.magic != MINIX1_MAGIC {
      fs.halted := true;
      return;
    }
    var inodeMap, inodeOk := MapBlocks(2, d.imapBlocks, IMAP_NR);
    if !inodeOk {
      fs.halted := true;
      return;
    }
    var zoneMap, zoneOk := MapBlocks(2 + d.imapBlocks, d.zmapBlocks, ZMAP_NR);
    if !zoneOk {
      fs.halted := true;
      return;
    }
    fs.supers := fs.supers[r := fs.supers[r].(dev := dev, inodeMap := inodeMap, zoneMap := zoneMap)];
    FindSuperFirst(fs.supers, dev, r);
  }

  /**
   * One numbering loop of `read_super`: `n` map blocks numbered from
   * `first`, the kernel halting once `limit` blocks are taken.
   */
  method MapBlocks(first: nat, n: nat, limit: nat) returns (m: seq<nat>, ok: bool)
    ensures ok <==> n <= limit
    ensures ok ==> m == Run(first, n)
  {
    var idx := first;
    var i := 0;
    m := [];
    while i < n
      invariant i <= n && i <= limit
      invariant m == Run(first, i) && idx == first + i
    {
      if i >= limit {
        return m, false;
      }
      m := m + [idx];
      idx := idx + 1;
      i := i + 1;
    }
    ok := true;
  }
}
