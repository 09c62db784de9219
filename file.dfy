/**
 * The open-file table of `file.c`: `file_t` slots with reference counts,
 * flags and `off_t` offsets, the running task's descriptor table, and the
 * calls that open, create, close, read, write and seek through them. Slots
 * 0 to 2 of both tables belong to the standard streams and are never
 * handed out.
 */
module File {
  import opened Base
  import opened FsLayout
  import opened FsState
  import Inode
  import Namei
  import NameCalls

  const STDIN: int := 0
  const STDOUT: int := 1
  const STDERR: int := 2

  /** The first slot `get_file` and `task_get_fd` hand out. */
  const FIRST: nat := 3

  // `whence_t`.
  const SEEK_SET: int := 1
  const SEEK_CUR: int := 2
  const SEEK_END: int := 3

  const I32_LIMIT: int := 0x8000_0000

  /** A value stored into an `int32`: the one in `[-2^31, 2^31)` equal to `x` modulo 2^32. */
  function Int32(x: int): (r: int)
    ensures -I32_LIMIT <= r < I32_LIMIT && (x - r) % U32_LIMIT == 0
    ensures -I32_LIMIT <= x < I32_LIMIT ==> r == x
  {
    var m := x % U32_LIMIT;
    if m < I32_LIMIT then m else m - U32_LIMIT
  }

  /** Storing into an `int32` twice, with an addition between, is storing the whole sum once. */
  lemma Int32Add(x: int, y: int)
    ensures Int32(Int32(x) + y) == Int32(x + y)
  {
    var k := (x - Int32(x)) / U32_LIMIT;
    assert x == Int32(x) + k * U32_LIMIT;
    assert (Int32(x) + y) % U32_LIMIT == (x + y) % U32_LIMIT by {
      assert x + y == (Int32(x) + y) + k * U32_LIMIT;
    }
  }

  // ------------------------------------------------------------- the tables

  /** The lowest file slot from `i` on with no references, as `get_file` scans. */
  function FirstFreeFile(files: seq<FileSlot>, i: nat): (r: Option<nat>)
    requires i <= |files|
    decreases |files| - i
    ensures r.Some? ==> i <= r.value < |files| && files[r.value].count == 0
    ensures r.Some? ==> forall j :: i <= j < r.value ==> files[j].count != 0
    ensures r.None? <==> forall j :: i <= j < |files| ==> files[j].count != 0
  {
    if i == |files| then None
    else if files[i].count == 0 then Some(i)
    else FirstFreeFile(files, i + 1)
  }

  /** The lowest descriptor from `i` on that names no file, as `task_get_fd` scans. */
  function FirstFreeFd(fds: seq<Option<nat>>, i: nat): (r: Option<nat>)
    requires i <= |fds|
    decreases |fds| - i
    ensures r.Some? ==> i <= r.value < |fds| && fds[r.value].None?
    ensures r.Some? ==> forall j :: i <= j < r.value ==> fds[j].Some?
    ensures r.None? <==> forall j :: i <= j < |fds| ==> fds[j].Some?
  {
    if i == |fds| then None
    else if fds[i].None? then Some(i)
    else FirstFreeFd(fds, i + 1)
  }

  /** `get_file`: the lowest free slot from 3 on, its count set to 1; halts when every slot is taken. */
  method GetFile(fs: FileSystem) returns (f: nat)
    requires fs.Valid() && !fs.halted
    modifies fs
    ensures fs.Valid() && fs.blocks == old(fs.blocks) && fs.supers == old(fs.supers) && fs.inodes == old(fs.inodes)
    ensures fs.task == old(fs.task)
    ensures fs.halted <==> FirstFreeFile(old(fs.files), FIRST).None?
    ensures fs.halted ==> fs.files == old(fs.files)
    ensures !fs.halted ==> Some(f) == FirstFreeFile(old(fs.files), FIRST) && fs.files == old(fs.files)[f := old(fs.files[f]).(count := 1)]
  {
    var files := fs.files;
    var i := FIRST;
    while i < FILE_NR && files[i].count != 0
      invariant FIRST <= i <= FILE_NR
      invariant FirstFreeFile(files, i) == FirstFreeFile(files, FIRST)
      decreases FILE_NR - i
    {
      i := i + 1;
    }
    if i == FILE_NR {
      fs.halted := true;
      return 0;
    }
    fs.files := files[i := files[i].(count := files[i].count + 1)];
    f := i;
  }

  /** `task_get_fd`: the lowest free descriptor from 3 on; halts when every descriptor is taken. */
  method GetFd(fs: FileSystem) returns (fd: nat)
    requires fs.Valid() && !fs.halted
    modifies fs
    ensures fs.Valid() && fs.blocks == old(fs.blocks) && fs.supers == old(fs.supers) && fs.inodes == old(fs.inodes)
    ensures fs.task == old(fs.task) && fs.files == old(fs.files)
    ensures fs.halted <==> FirstFreeFd(fs.task.fds, FIRST).None?
    ensures !fs.halted ==> Some(fd) == FirstFreeFd(fs.task.fds, FIRST)
  {
    var fds := fs.task.fds;
    var i := FIRST;
    while i < TASK_FILE_NR && fds[i].Some?
      invariant FIRST <= i <= TASK_FILE_NR
      invariant FirstFreeFd(fds, i) == FirstFreeFd(fds, FIRST)
      decreases TASK_FILE_NR - i
    {
      i := i + 1;
    }
    if i == TASK_FILE_NR {
      fs.halted := true;
      return 0;
    }
    fd := i;
  }

  /**
   * `put_file`: halts on a slot with no references; otherwise one
   * reference fewer, and when none is left the file's inode is put back
   * with `iput`.
   */
  method PutFile(fs: FileSystem, f: nat)
    requires fs.Valid() && !fs.halted && f < FILE_NR
    modifies fs
    ensures fs.Valid() && fs.blocks == old(fs.blocks) && fs.task == old(fs.task)
    ensures old(fs.files[f].count) == 0 ==> fs.halted && fs.files == old(fs.files) && fs.inodes == old(fs.inodes)
    ensures old(fs.files[f].count) != 0 ==> fs.files == old(fs.files)[f := old(fs.files[f]).(count := old(fs.files[f].count) - 1)]
    ensures old(fs.files[f].count) > 1 || old(fs.files[f].inode).None? ==>
      old(fs.files[f].count) != 0 ==> !fs.halted && fs.supers == old(fs.supers) && fs.inodes == old(fs.inodes)
    ensures old(fs.files[f].count) == 1 && old(fs.files[f].inode).Some? ==>
      var k := old(fs.files[f].inode).value;
      (fs.halted ==> k == 0) && (!fs.halted ==> Inode.Release(old(fs.supers), old(fs.inodes), fs.supers, fs.inodes, k))
  {
    var file := fs.files[f];
    if file.count == 0 {
      fs.halted := true;
      return;
    }
    fs.files := fs.files[f := file.(count := file.count - 1)];
    if file.count - 1 == 0 {
      Inode.Iput(fs, file.inode);
    }
  }

  /** `file_init`: every slot from 3 on emptied; slots 0 to 2 as they were. */
  method FileInit(fs: FileSystem)
    requires fs.Valid()
    modifies fs
    ensures fs.Valid() && fs.blocks == old(fs.blocks) && fs.supers == old(fs.supers) && fs.inodes == old(fs.inodes)
    ensures fs.task == old(fs.task) && fs.halted == old(fs.halted) && |fs.files| == FILE_NR
    ensures forall j :: 0 <= j < FIRST ==> fs.files[j] == old(fs.files[j])
    ensures forall j :: FIRST <= j < FILE_NR ==> fs.files[j] == FileSlot(None, 0, 0, 0, 0)
    ensures FirstFreeFile(fs.files, FIRST) == Some(FIRST)
  {
    var i := FIRST;
    while i < FILE_NR
      invariant FIRST <= i <= FILE_NR && fs.Valid() && |fs.files| == FILE_NR
      invariant fs.blocks == old(fs.blocks) && fs.supers == old(fs.supers) && fs.inodes == old(fs.inodes)
      invariant fs.task == old(fs.task) && fs.halted == old(fs.halted)
      invariant forall j :: 0 <= j < FIRST || i <= j < FILE_NR ==> fs.files[j] == old(fs.files[j])
      invariant forall j :: FIRST <= j < i ==> fs.files[j] == FileSlot(None, 0, 0, 0, 0)
      decreases FILE_NR - i
    {
      fs.files := fs.files[i := FileSlot(None, 0, 0, 0, 0)];
      i := i + 1;
    }
  }

  // ------------------------------------------------------------ open, creat

  /** The offset a file opened with `flags` starts at: the size with `O_APPEND` (stored as `off_t`), else 0. */
  function StartOffset(flags: int, size: nat): (r: int)
    ensures -I32_LIMIT <= r < I32_LIMIT
    ensures HasFlag(flags, O_APPEND) && size < I32_LIMIT ==> r == size
    ensures !HasFlag(flags, O_APPEND) ==> r == 0
  {
    if HasFlag(flags, O_APPEND) then Int32(size) else 0
  }

  /**
   * What `sys_open` did with inode slot `k`: descriptor `fd`, the lowest
   * free one, names the lowest free file slot, which holds `k` once, the
   * flags as passed, the inode's mode and `offset`; nothing else changed.
   */
  ghost predicate Installed(task0: Task, task: Task, files0: seq<FileSlot>, files: seq<FileSlot>,
                            fd: int, k: nat, flags: int, mode: nat, offset: Offset)
    requires |task0.fds| == TASK_FILE_NR && |files0| == FILE_NR
  {
    Some(fd) == FirstFreeFd(task0.fds, FIRST)
    && var f := FirstFreeFile(files0, FIRST);
    f.Some? && task == task0.(fds := task0.fds[fd := f])
    && files == files0[f.value := FileSlot(Some(k), 1, offset, flags, mode)]
  }

  /** The descriptor and file slot half of `sys_open`, for the inode slot `k` that `inode_open` gave. */
  method Install(fs: FileSystem, k: nat, flags: int) returns (fd: int)
    requires fs.Valid() && !fs.halted && k < INODE_NR
    modifies fs
    ensures fs.Valid() && fs.blocks == old(fs.blocks) && fs.supers == old(fs.supers) && fs.inodes == old(fs.inodes)
    ensures fs.task.(fds := old(fs.task.fds)) == old(fs.task)
    ensures fs.halted <==> FirstFreeFd(old(fs.task.fds), FIRST).None? || FirstFreeFile(old(fs.files), FIRST).None?
    ensures !fs.halted ==>
      var d := Desc(fs.blocks, fs.inodes[k]);
      Installed(old(fs.task), fs.task, old(fs.files), fs.files, fd, k, flags, d.mode, StartOffset(flags, d.size))
  {
    fd := GetFd(fs);
    if fs.halted {
      return;
    }
    var f := GetFile(fs);
    if fs.halted {
      return;
    }
    var d := Desc(fs.blocks, fs.inodes[k]);
    Fill(fs, fd, f, FileSlot(Some(k), 1, StartOffset(flags, d.size), flags, d.mode));
  }

  /** `task->files[fd] = file` and the slot's fields filled in. */
  method Fill(fs: FileSystem, fd: nat, f: nat, file: FileSlot)
    requires fs.Valid() && fd < TASK_FILE_NR && f < FILE_NR && FileSlotOk(file)
    modifies fs
    ensures fs.Valid() && fs.blocks == old(fs.blocks) && fs.supers == old(fs.supers) && fs.inodes == old(fs.inodes)
    ensures fs.halted == old(fs.halted)
    ensures fs.task == old(fs.task).(fds := old(fs.task.fds)[fd := Some(f)]) && fs.files == old(fs.files)[f := file]
  {
    fs.task := fs.task.(fds := fs.task.fds[fd := Some(f)]);
    fs.files := fs.files[f := file];
  }

  /**
   * How `sys_open` leaves the descriptor and file tables once `inode_open`
   * gave `inode`: `EOF` and nothing changed exactly when it gave none;
   * otherwise the inode installed in a new descriptor.
   */
  ghost predicate Opened(fs: FileSystem, task0: Task, files0: seq<FileSlot>, fd: int, inode: Option<nat>, flags: int)
    reads fs
    requires fs.Valid() && |task0.fds| == TASK_FILE_NR && |files0| == FILE_NR
  {
    !fs.halted ==>
      (fd == EOF <==> inode.None?)
      && (fd == EOF ==> fs.task == task0 && fs.files == files0)
      && (inode.Some? ==>
            inode.value < INODE_NR &&
            var d := Desc(fs.blocks, fs.inodes[inode.value]);
            Installed(task0, fs.task, files0, fs.files, fd, inode.value, flags, d.mode, StartOffset(flags, d.size)))
  }

  /** A descriptor `sys_open` returned names a file slot holding the flags as passed. */
  lemma OpenedSlot(fs: FileSystem, task0: Task, files0: seq<FileSlot>, fd: int, inode: Option<nat>, flags: int)
    requires fs.Valid() && |task0.fds| == TASK_FILE_NR && |files0| == FILE_NR
    requires Opened(fs, task0, files0, fd, inode, flags) && !fs.halted && fd != EOF
    ensures 0 <= fd < TASK_FILE_NR && fs.task.fds[fd].Some? && fs.task.fds[fd].value < FILE_NR
    ensures fs.files[fs.task.fds[fd].value].flags == flags
  {
  }

  /**
   * `sys_open`: `EOF` when `inode_open` gives no inode; otherwise the
   * inode installed in a new descriptor. `inode` is the slot
   * `inode_open` gave.
   */
  method SysOpen(fs: FileSystem, path: seq<byte>, flags: int, mode: int, now: nat) returns (fd: int, ghost inode: Option<nat>)
    requires Namei.Ready(fs) && Namei.Headroom(fs.inodes, 2) && now < U32_LIMIT
    modifies fs
    ensures fs.Valid() && fs.task.(fds := old(fs.task.fds)) == old(fs.task)
    ensures var start := old(fs.inodes[Namei.StartSlot(fs.task, path)]);
      NameCalls.OpenOutcome(old(fs.blocks), fs.supers, fs.blocks, fs.inodes, fs.halted, start.dev,
                            Namei.NamedWalk(old(fs.blocks), start.dev, start.nr, path, old(fs.task).uid), path, flags, mode, old(fs.task), now, inode)
    ensures !fs.halted ==> Namei.Table(fs.supers, fs.inodes) && Namei.Holds(old(fs.inodes), fs.inodes, inode)
    ensures Opened(fs, old(fs.task), old(fs.files), fd, inode, flags)
  {
    var k := NameCalls.InodeOpen(fs, path, flags, mode, now);
    inode := k;
    if fs.halted || k.None? {
      return EOF, inode;
    }
    fd := Install(fs, k.value, flags);
  }

  /** The flags `sys_creat` passes as written: `O_CREAT | O_TRUNC`, whose access mode is `O_RDONLY`. */
  function CreatFlagsAsWritten(): (f: int)
    ensures AccMode(f) == O_RDONLY && HasFlag(f, O_CREAT) && HasFlag(f, O_TRUNC)
  {
    O_CREAT + O_TRUNC
  }

  /** The flags `creat` means: `O_CREAT | O_TRUNC | O_WRONLY`. */
  function CreatFlags(): (f: int)
    ensures AccMode(f) == O_WRONLY && HasFlag(f, O_CREAT) && HasFlag(f, O_TRUNC)
  {
    O_CREAT + O_TRUNC + O_WRONLY
  }

  /**
   * `sys_creat` as written: a descriptor it opens is stored `O_RDONLY`
   * (although `inode_open` checked it for reading and writing), so every
   * `sys_write` through it returns `EOF`.
   */
  method SysCreatAsWritten(fs: FileSystem, path: seq<byte>, mode: int, now: nat) returns (fd: int)
    requires Namei.Ready(fs) && Namei.Headroom(fs.inodes, 2) && now < U32_LIMIT
    modifies fs
    ensures fs.Valid()
    ensures !fs.halted && fd != EOF ==>
      0 <= fd < TASK_FILE_NR && fs.task.fds[fd].Some? && AccMode(fs.files[fs.task.fds[fd].value].flags) == O_RDONLY
  {
    ghost var task0, files0 := fs.task, fs.files;
    ghost var inode;
    fd, inode := SysOpen(fs, path, CreatFlagsAsWritten(), mode, now);
    if !fs.halted && fd != EOF {
      OpenedSlot(fs, task0, files0, fd, inode, CreatFlagsAsWritten());
    }
  }

  /** `sys_creat` with the flags `creat` means: the descriptor it opens is write-only. */
  method SysCreat(fs: FileSystem, path: seq<byte>, mode: int, now: nat) returns (fd: int)
    requires Namei.Ready(fs) && Namei.Headroom(fs.inodes, 2) && now < U32_LIMIT
    modifies fs
    ensures fs.Valid()
    ensures !fs.halted && fd != EOF ==>
      0 <= fd < TASK_FILE_NR && fs.task.fds[fd].Some? && AccMode(fs.files[fs.task.fds[fd].value].flags) == O_WRONLY
  {
    ghost var task0, files0 := fs.task, fs.files;
    ghost var inode;
    fd, inode := SysOpen(fs, path, CreatFlags(), mode, now);
    if !fs.halted && fd != EOF {
      OpenedSlot(fs, task0, files0, fd, inode, CreatFlags());
    }
  }

  // ------------------------------------------------------------------ close

  /**
   * `sys_close`: halts on a descriptor past the table or one whose file has
   * no inode; ignores a free descriptor; otherwise `put_file`, and the
   * descriptor freed unless it is a standard stream's.
   */
  method SysClose(fs: FileSystem, fd: int)
    requires fs.Valid() && !fs.halted && 0 <= fd
    modifies fs
    ensures fs.Valid() && fs.blocks == old(fs.blocks)
    ensures fd >= TASK_FILE_NR ==> fs.halted
    ensures fd < TASK_FILE_NR && old(fs.task.fds[fd]).None? ==>
      !fs.halted && fs.task == old(fs.task) && fs.files == old(fs.files) && fs.inodes == old(fs.inodes)
    ensures fd < TASK_FILE_NR && old(fs.task.fds[fd]).Some? ==>
      var f := old(fs.task.fds[fd]).value;
      (old(fs.files[f]).inode.None? || old(fs.files[f]).count == 0 ==> fs.halted)
      && (!fs.halted ==>
            fs.files == old(fs.files)[f := old(fs.files[f]).(count := old(fs.files[f]).count - 1)]
            && fs.task == old(fs.task).(fds := if fd < FIRST then old(fs.task.fds) else old(fs.task.fds)[fd := None]))
  {
    if fd >= TASK_FILE_NR {
      fs.halted := true;
      return;
    }
    var f := fs.task.fds[fd];
    if f.None? {
      return;
    }
    if fs.files[f.value].inode.None? {
      fs.halted := true;
      return;
    }
    PutFile(fs, f.value);
    if fs.halted {
      return;
    }
    PutFd(fs, fd);
  }

  /** `task_put_fd`: descriptors 0 to 2 are left alone; any other is freed. */
  method PutFd(fs: FileSystem, fd: nat)
    requires fs.Valid() && fd < TASK_FILE_NR
    modifies fs
    ensures fs.Valid() && fs.blocks == old(fs.blocks) && fs.supers == old(fs.supers) && fs.inodes == old(fs.inodes)
    ensures fs.files == old(fs.files) && fs.halted == old(fs.halted)
    ensures fs.task == old(fs.task).(fds := if fd < FIRST then old(fs.task.fds) else old(fs.task.fds)[fd := None])
  {
    if fd < FIRST {
      return;
    }
    fs.task := fs.task.(fds := fs.task.fds[fd := None]);
  }

  // ------------------------------------------------------------ read, write

  /** File slot `f`'s offset advanced by `n` bytes, stored as `off_t`. */
  method Advance(fs: FileSystem, f: nat, n: int)
    requires fs.Valid() && f < FILE_NR
    modifies fs
    ensures fs.Valid() && fs.blocks == old(fs.blocks) && fs.supers == old(fs.supers) && fs.inodes == old(fs.inodes)
    ensures fs.task == old(fs.task) && fs.halted == old(fs.halted)
    ensures fs.files == old(fs.files)[f := old(fs.files[f]).(offset := Int32(old(fs.files[f]).offset + n))]
  {
    fs.files := fs.files[f := fs.files[f].(offset := Int32(fs.files[f].offset + n))];
  }

  /**
   * `sys_read` on a file descriptor: halts on a free descriptor or a file
   * without inode; `EOF` on a write-only file; otherwise `inode_read` of
   * `count` (as `uint32`) bytes at the file's offset, and the offset
   * advanced by exactly the length read.
   */
  method SysRead(fs: FileSystem, fd: int, count: int, now: nat) returns (r: int, data: seq<byte>)
    requires fs.Valid() && !fs.halted && 0 <= fd < TASK_FILE_NR && fd != STDIN && -I32_LIMIT <= count < I32_LIMIT
    modifies fs
    ensures fs.Valid() && fs.blocks == old(fs.blocks) && fs.task == old(fs.task)
    ensures old(fs.task.fds[fd]).None? ==> fs.halted
    ensures old(fs.task.fds[fd]).Some? ==>
      var f := old(fs.task.fds[fd]).value; var file := old(fs.files[f]);
      (AccMode(file.flags) == O_WRONLY ==> r == EOF && !fs.halted && fs.files == old(fs.files) && fs.inodes == old(fs.inodes))
      && (AccMode(file.flags) != O_WRONLY && file.inode.None? ==> fs.halted)
      && (AccMode(file.flags) != O_WRONLY && file.inode.Some? ==>
            var s := old(fs.inodes[file.inode.value]); var size := Desc(fs.blocks, s).size;
            (file.offset % U32_LIMIT >= size ==> r == EOF && !fs.halted && fs.files == old(fs.files))
            && (file.offset % U32_LIMIT < size ==>
                  (fs.halted <==> if file.offset < 0 then count % U32_LIMIT > 0
                                  else !Inode.AllMapped(fs.blocks, s, file.offset, file.offset + Inode.Min(count % U32_LIMIT, size - file.offset))))
            && (file.offset % U32_LIMIT < size && !fs.halted ==>
                  r == Inode.Min(count % U32_LIMIT, size - file.offset)
                  && data == (if file.offset < 0 then [] else Inode.FileBytes(fs.blocks, s, file.offset, r))
                  && fs.files == old(fs.files)[f := file.(offset := Int32(file.offset + r))]))
  {
    var f := fs.task.fds[fd];
    if f.None? {
      fs.halted := true;
      return EOF, [];
    }
    var file := fs.files[f.value];
    if AccMode(file.flags) == O_WRONLY {
      return EOF, [];
    }
    if file.inode.None? {
      fs.halted := true;
      return EOF, [];
    }
    r, data := Inode.InodeRead(fs, file.inode.value, count % U32_LIMIT, file.offset, now);
    if fs.halted || r == EOF {
      return;
    }
    Advance(fs, f.value, r);
  }

  /**
   * `sys_write` on a file descriptor: halts on a free descriptor or a file
   * without inode; `EOF` on a read-only file; otherwise `inode_write` of
   * `data` at the file's offset, which returns the length written, and the
   * offset advanced by exactly that length. As for `inode_write`, only the
   * blocks in `touched` and the inode's own record block change, and the
   * record gets the new size and `mtime`.
   */
  method SysWrite(fs: FileSystem, fd: int, data: seq<byte>, now: nat) returns (r: int, ghost touched: set<nat>)
    requires fs.Valid() && !fs.halted && 0 <= fd < TASK_FILE_NR && fd != STDOUT && fd != STDERR
    requires |data| < I32_LIMIT && now < U32_LIMIT
    modifies fs
    ensures fs.Valid() && fs.task == old(fs.task)
    ensures old(fs.task.fds[fd]).None? ==> fs.halted
    ensures old(fs.task.fds[fd]).Some? ==>
      var f := old(fs.task.fds[fd]).value; var file := old(fs.files[f]);
      (AccMode(file.flags) == O_RDONLY ==>
         r == EOF && !fs.halted && fs.files == old(fs.files) && fs.inodes == old(fs.inodes) && fs.blocks == old(fs.blocks))
      && (AccMode(file.flags) != O_RDONLY && file.inode.None? ==> fs.halted)
      && (AccMode(file.flags) != O_RDONLY && |data| > 0 && file.offset < 0 ==> fs.halted)
      && (AccMode(file.flags) != O_RDONLY && file.inode.Some? && !fs.halted ==>
            var s := old(fs.inodes[file.inode.value]); var d0 := old(Desc(fs.blocks, fs.inodes[file.inode.value]));
            r == |data| && fs.files == old(fs.files)[f := file.(offset := Int32(file.offset + r))]
            && fs.inodes == old(fs.inodes)[file.inode.value := s.(atime := now)]
            && Untouched(old(fs.blocks), fs.blocks, s.dev, touched + {s.block})
            && (s.block !in touched ==>
                  Desc(fs.blocks, s)
                  == d0.(zone := Desc(fs.blocks, s).zone, mtime := now,
                         size := if |data| == 0 then d0.size else Inode.Max(d0.size, file.offset + |data|))))
  {
    touched := {};
    var f := fs.task.fds[fd];
    if f.None? {
      fs.halted := true;
      return EOF, touched;
    }
    var file := fs.files[f.value];
    if AccMode(file.flags) == O_RDONLY {
      return EOF, touched;
    }
    if file.inode.None? {
      fs.halted := true;
      return EOF, touched;
    }
    r, touched := Inode.InodeWrite(fs, file.inode.value, data, file.offset, now);
    if fs.halted || r == EOF {
      return;
    }
    Advance(fs, f.value, r);
  }

  /** A descriptor that `sys_creat` as written inode refuses every write: the stored access mode is `O_RDONLY`. */
  lemma CreatAsWrittenReadOnly(file: FileSlot)
    requires file.flags == CreatFlagsAsWritten()
    ensures AccMode(file.flags) == O_RDONLY && AccMode(file.flags) != O_WRONLY
  {
  }

  // ------------------------------------------------------------------ lseek

  /**
   * The offset `lseek` sets for `whence`: `offset` itself, the current
   * offset `cur` plus `offset`, or the file's `size` plus `offset`, each
   * stored as `off_t`; `None` for any other `whence`.
   */
  function SeekTarget(cur: int, size: nat, offset: int, whence: int): (r: Option<int>)
    ensures r.Some? <==> whence == SEEK_SET || whence == SEEK_CUR || whence == SEEK_END
    ensures r.Some? ==> -I32_LIMIT <= r.value < I32_LIMIT
  {
    if whence == SEEK_SET then Some(Int32(offset))
    else if whence == SEEK_CUR then Some(Int32(cur + offset))
    else if whence == SEEK_END then Some(Int32(size + offset))
    else None
  }

  /** Seeking to `a` and then by `b` from there lands where seeking to `a + b` does. */
  lemma SeekSetThenCur(cur: int, size: nat, a: int, b: int)
    requires -I32_LIMIT <= a < I32_LIMIT
    ensures SeekTarget(SeekTarget(cur, size, a, SEEK_SET).value, size, b, SEEK_CUR) == SeekTarget(cur, size, a + b, SEEK_SET)
  {
    Int32Add(a, b);
  }

  /** A seek by 0 from the current offset stays put, and one by 0 from the end lands on a size below 2^31. */
  lemma SeekZero(cur: int, size: nat)
    requires -I32_LIMIT <= cur < I32_LIMIT
    ensures SeekTarget(cur, size, 0, SEEK_CUR) == Some(cur)
    ensures size < I32_LIMIT ==> SeekTarget(cur, size, 0, SEEK_END) == Some(size)
  {
  }

  /**
   * `sys_lseek`: the file's offset set as `SeekTarget` says and returned;
   * halts on a free descriptor, an unknown `whence`, or `SEEK_END` on a
   * file without inode.
   */
  method SysLseek(fs: FileSystem, fd: int, offset: int, whence: int) returns (r: int)
    requires fs.Valid() && !fs.halted && 0 <= fd < TASK_FILE_NR && -I32_LIMIT <= offset < I32_LIMIT
    modifies fs
    ensures fs.Valid() && fs.blocks == old(fs.blocks) && fs.supers == old(fs.supers) && fs.inodes == old(fs.inodes)
    ensures fs.task == old(fs.task)
    ensures old(fs.task.fds[fd]).None? ==> fs.halted
    ensures old(fs.task.fds[fd]).Some? ==>
      var f := old(fs.task.fds[fd]).value; var file := old(fs.files[f]);
      (whence == SEEK_END && file.inode.None? ==> fs.halted)
      && (!fs.halted ==>
            var size := if file.inode.Some? then Desc(fs.blocks, fs.inodes[file.inode.value]).size else 0;
            var target := SeekTarget(file.offset, size, offset, whence);
            target.Some? && r == target.value && fs.files == old(fs.files)[f := file.(offset := r)])
      && (SeekTarget(file.offset, 0, offset, whence).None? ==> fs.halted)
  {
    var f := fs.task.fds[fd];
    if f.None? {
      fs.halted := true;
      return EOF;
    }
    var file := fs.files[f.value];
    var size := 0;
    if whence == SEEK_END {
      if file.inode.None? {
        fs.halted := true;
        return EOF;
      }
      size := Desc(fs.blocks, fs.inodes[file.inode.value]).size;
    }
    var target := SeekTarget(file.offset, size, offset, whence);
    if target.None? {
      fs.halted := true;
      return EOF;
    }
    r := target.value;
    Seek(fs, f.value, r);
  }

  /** `file->offset = r`. */
  method Seek(fs: FileSystem, f: nat, r: int)
    requires fs.Valid() && f < FILE_NR && -I32_LIMIT <= r < I32_LIMIT
    modifies fs
    ensures fs.Valid() && fs.blocks == old(fs.blocks) && fs.supers == old(fs.supers) && fs.inodes == old(fs.inodes)
    ensures fs.task == old(fs.task) && fs.halted == old(fs.halted)
    ensures fs.files == old(fs.files)[f := old(fs.files[f]).(offset := r)]
  {
    fs.files := fs.files[f := fs.files[f].(offset := r)];
  }
}
