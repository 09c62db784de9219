/**
 * The device table: 64 slots, each a device with a type, a subtype, its
 * own number, an optional parent, three driver hooks and, for block
 * devices, a request list kept in sector order and served by an elevator.
 *
 * The hooks are driver functions outside this model; a device records only
 * which of them are non-NULL, and a dispatch says which hook is called or
 * that `EOF` comes back. A request's buffer and waiting task are left out.
 */
module Device {
  import opened Base
  import CString

  const DEVICE_NR: nat := 64
  const NAMELEN: nat := 16

  /** `device_type_t`. */
  const DEV_NULL: int := 0
  const DEV_CHAR: int := 1
  const DEV_BLOCK: int := 2

  /** `device_subtype_t`. */
  const DEV_CONSOLE: int := 1
  const DEV_KEYBOARD: int := 2
  const DEV_IDE_DISK: int := 3
  const DEV_IDE_PART: int := 4

  const REQ_READ: nat := 0
  const REQ_WRITE: nat := 1

  /** The seek direction of a disk: `DIRECT_UP` towards higher sectors. */
  datatype Direction = Up | Down

  /** Which of the three driver hooks are non-NULL. */
  datatype Hooks = Hooks(ioctl: bool, read: bool, write: bool)

  datatype Hook = IoctlHook | ReadHook | WriteHook

  /** What a `device_ioctl`/`device_read`/`device_write` call does: return `EOF`, or call a hook. */
  datatype Call = ReturnsEof | Calls(hook: Hook)

  /** A queued request: target device, `REQ_READ`/`REQ_WRITE`, first sector, sector count, flags. */
  datatype Request = Request(dev: nat, kind: int, idx: nat, count: nat, flags: int)

  datatype Device = Device(name: seq<byte>, kind: int, subtype: int, dev: nat, parent: nat,
                           hooks: Hooks, requests: seq<Request>, direct: Direction)

  /** "null" as `strcpy` leaves it in a zeroed 16-byte name. */
  const NULL_NAME: seq<byte> := [110, 117, 108, 108] + Zeros(12)

  /** Slot `i` after `device_init`. */
  function NullDevice(i: nat): Device
  {
    Device(NULL_NAME, DEV_NULL, DEV_NULL, i, 0, Hooks(false, false, false), [], Up)
  }

  /** Whether hook `h` is non-NULL. */
  function Present(hooks: Hooks, h: Hook): bool
  {
    match h
    case IoctlHook => hooks.ioctl
    case ReadHook => hooks.read
    case WriteHook => hooks.write
  }

  /**
   * `device_ioctl`, `device_read` and `device_write` as written: each tests
   * the `ioctl` hook, then calls its own hook.
   */
  function CallAsWritten(d: Device, h: Hook): (c: Call)
    ensures c == ReturnsEof <==> !d.hooks.ioctl
    ensures c.Calls? ==> c.hook == h
  {
    if d.hooks.ioctl then Calls(h) else ReturnsEof
  }

  /** The dispatch with each routine testing the hook it calls. */
  function Dispatch(d: Device, h: Hook): (c: Call)
    ensures c == ReturnsEof <==> !Present(d.hooks, h)
    ensures c.Calls? ==> c.hook == h && Present(d.hooks, c.hook)
  {
    if Present(d.hooks, h) then Calls(h) else ReturnsEof
  }

  /** For `ioctl` itself, and for drivers that set all three hooks or none, the two dispatches agree. */
  lemma DispatchAgrees(d: Device, h: Hook)
    requires h == IoctlHook || d.hooks.ioctl == d.hooks.read == d.hooks.write
    ensures CallAsWritten(d, h) == Dispatch(d, h)
  {
  }

  /** The console as `console_init` installs it: only a `write` hook. */
  function Console(): Device
  {
    Device(NULL_NAME, DEV_CHAR, DEV_CONSOLE, 1, 0, Hooks(false, false, true), [], Up)
  }

  /**
   * As written, `device_write` on the console returns `EOF` although its
   * `write` hook is set, and a device with an `ioctl` hook but no `read`
   * hook would have `device_read` call a NULL hook.
   */
  lemma DispatchAsWrittenMisses()
    ensures CallAsWritten(Console(), WriteHook) == ReturnsEof && Dispatch(Console(), WriteHook) == Calls(WriteHook)
    ensures var d := Console().(hooks := Hooks(true, false, false));
      CallAsWritten(d, ReadHook) == Calls(ReadHook) && !Present(d.hooks, ReadHook)
  {
  }

  /** The number of devices of subtype `subtype` in `s`. */
  function CountOf(s: seq<Device>, subtype: int): nat
  {
    if s == [] then 0 else CountOf(s[..|s| - 1], subtype) + (if s[|s| - 1].subtype == subtype then 1 else 0)
  }

  /** A request list in ascending sector order. */
  predicate Sorted(l: seq<Request>)
  {
    forall i, j :: 0 <= i < j < |l| ==> l[i].idx <= l[j].idx
  }

  /** Where `list_insert_sort` puts a request for sector `key`: before the first request with a greater sector. */
  function InsertPos(l: seq<Request>, key: nat): (k: nat)
    ensures k <= |l|
    ensures forall i :: 0 <= i < k ==> l[i].idx <= key
    ensures k < |l| ==> l[k].idx > key
  {
    if l == [] || l[0].idx > key then 0 else 1 + InsertPos(l[1..], key)
  }

  /** The request list after `list_insert_sort`. */
  function Insert(l: seq<Request>, r: Request): (l': seq<Request>)
    ensures |l'| == |l| + 1 && multiset(l') == multiset(l) + multiset{r}
  {
    var k := InsertPos(l, r.idx);
    Splice(l, k, r);
    l[..k] + [r] + l[k..]
  }

  /** The inserted list, position by position. */
  lemma InsertShape(l: seq<Request>, r: Request)
    ensures var k := InsertPos(l, r.idx);
      var l' := Insert(l, r);
      && |l'| == |l| + 1 && l'[k] == r
      && (forall t :: 0 <= t < k ==> l'[t] == l[t])
      && (forall t :: k < t < |l'| ==> l'[t] == l[t - 1])
  {
  }

  /** Inserting keeps the list in sector order. */
  lemma InsertKeepsSorted(l: seq<Request>, r: Request)
    requires Sorted(l)
    ensures Sorted(Insert(l, r))
  {
    var k := InsertPos(l, r.idx);
    var l' := Insert(l, r);
    InsertShape(l, r);
    forall i, j | 0 <= i < j < |l'|
      ensures l'[i].idx <= l'[j].idx
    {
      if j == k {
      } else if i == k {
        assert l[k].idx <= l[j - 1].idx;
      } else if j < k {
      } else if i < k {
        assert l[i].idx <= l[j - 1].idx;
      } else {
        assert l[i - 1].idx <= l[j - 1].idx;
      }
    }
  }

  /** Splicing `x` in at `k` adds exactly `x`, and cutting position `k` out again restores the sequence. */
  lemma Splice<T>(l: seq<T>, k: nat, x: T)
    requires k <= |l|
    ensures var l' := l[..k] + [x] + l[k..];
      && l'[k] == x
      && multiset(l') == multiset(l) + multiset{x}
      && l'[..k] + l'[k + 1..] == l
  {
    var l' := l[..k] + [x] + l[k..];
    assert l[..k] + l[k..] == l;
    assert l'[..k] == l[..k] && l'[k + 1..] == l[k..];
  }

  /** Inserting adds exactly `r`, at its position, and removing that position again restores the list. */
  lemma InsertRemove(l: seq<Request>, r: Request)
    ensures var k := InsertPos(l, r.idx);
      && Insert(l, r)[k] == r
      && multiset(Insert(l, r)) == multiset(l) + multiset{r}
      && Insert(l, r)[..k] + Insert(l, r)[k + 1..] == l
  {
    Splice(l, InsertPos(l, r.idx), r);
  }

  /** The direction after `request_nextreq` turns at either end of a list of `n` requests, at position `k`. */
  function Turn(dir: Direction, k: nat, n: nat): Direction
  {
    if dir == Up && k + 1 == n then Down else if dir == Down && k == 0 then Up else dir
  }

  /** The position of the neighbour `request_nextreq` picks in direction `dir`, if there is one. */
  function Neighbour(dir: Direction, k: nat, n: nat): (j: Option<nat>)
    requires k < n
    ensures j.Some? ==> j.value < n
  {
    match dir
    case Up => if k + 1 < n then Some(k + 1) else None
    case Down => if k > 0 then Some(k - 1) else None
  }

  /**
   * The elevator rule: the next request is the adjacent one in the
   * direction of travel after turning at an end; only a lone request has
   * none; moving up it is at a sector no lower, moving down no higher.
   */
  lemma ElevatorServes(l: seq<Request>, dir: Direction, k: nat)
    requires Sorted(l) && k < |l|
    ensures var dir' := Turn(dir, k, |l|);
      var next := Neighbour(dir', k, |l|);
      && (next.None? <==> |l| == 1)
      && (next.Some? ==> next.value < |l| && (next.value == k + 1 || next.value + 1 == k))
      && (next.Some? && dir' == Up ==> l[next.value].idx >= l[k].idx)
      && (next.Some? && dir' == Down ==> l[next.value].idx <= l[k].idx)
      && (dir' != dir <==> (dir == Up && k + 1 == |l|) || (dir == Down && k == 0))
  {
  }

  /** The first sector of a request for sector `idx` of `d`: `idx` plus what `d`'s `ioctl` reports, in `uint32`. */
  function Sector(d: Device, idx: nat, start: int): (offset: nat)
    ensures offset < U32_LIMIT
  {
    (idx + CallResult(CallAsWritten(d, IoctlHook), start)) % U32_LIMIT
  }

  /** What a dispatch returns when the hook called answers `answer`. */
  function CallResult(c: Call, answer: int): int
  {
    if c.Calls? then answer else EOF
  }

  /** The device a request for `d` (numbered `dev`) is queued on: its parent disk when it has one. */
  function Target(d: Device, dev: nat): nat
  {
    if d.parent != 0 then d.parent else dev
  }

  /** `request_nextreq` on `d` for its request at position `k`: `d` after turning, and the request picked. */
  function NextStep(d: Device, k: nat): (r: (Device, Option<Request>))
    requires k < |d.requests|
    ensures r.0 == d.(direct := r.0.direct)
    ensures r.1.None? <==> |d.requests| == 1
    ensures r.1.Some? ==> r.1.value in d.requests
  {
    var dir := Turn(d.direct, k, |d.requests|);
    (d.(direct := dir), match Neighbour(dir, k, |d.requests|) case None => None case Some(j) => Some(d.requests[j]))
  }

  /**
   * A served request `r` on disk `d`: inserted in sector order, the
   * elevator's pick made from its position, and removed again.
   */
  function ServeStep(d: Device, r: Request): (Device, Option<Request>)
  {
    var l := Insert(d.requests, r);
    InsertShape(d.requests, r);
    var step := NextStep(d.(requests := l), InsertPos(d.requests, r.idx));
    (step.0.(requests := d.requests), step.1)
  }

  /**
   * Serving a request leaves the disk's queue as it was and at most turns
   * it; the request picked next is a queued one, none only when the queue
   * was empty, at a sector no lower than the served one when the disk moves
   * up and no higher when it moves down.
   */
  lemma ServeStepKeeps(d: Device, r: Request)
    requires Sorted(d.requests)
    ensures var (d', next) := ServeStep(d, r);
      && d' == d.(direct := d'.direct)
      && (next.None? <==> d.requests == [])
      && (next.Some? ==> next.value in d.requests)
      && (next.Some? && d'.direct == Up ==> next.value.idx >= r.idx)
      && (next.Some? && d'.direct == Down ==> next.value.idx <= r.idx)
  {
    var l := d.requests;
    var k := InsertPos(l, r.idx);
    var l' := Insert(l, r);
    InsertShape(l, r);
    InsertKeepsSorted(l, r);
    ElevatorServes(l', d.direct, k);
    var dir := Turn(d.direct, k, |l'|);
    match Neighbour(dir, k, |l'|)
    case None =>
    case Some(j) =>
      if j < k {
        assert l'[j] == l[j];
      } else {
        assert l'[j] == l[j - 1];
      }
  }

  /** How `device_request` ends: served with the next request to wake, or the panic on an unknown request type. */
  datatype Outcome = Served(next: Option<Request>) | Panicked

  /** The device table. */
  class DeviceTable {
    var devices: array<Device>

    ghost predicate Valid()
      reads this, devices
    {
      && devices.Length == DEVICE_NR
      && forall i :: 0 <= i < DEVICE_NR ==> devices[i].dev == i && Sorted(devices[i].requests)
    }

    /** `device_init`: every slot a null device numbered by its index, with an empty list, moving up. */
    constructor Init()
      ensures Valid() && fresh(devices)
      ensures forall i :: 0 <= i < DEVICE_NR ==> devices[i] == NullDevice(i)
    {
      var a := new Device[DEVICE_NR](NullDevice);
      var i := 0;
      while i < DEVICE_NR
        invariant 0 <= i <= DEVICE_NR
        invariant forall k :: 0 <= k < i ==> a[k] == NullDevice(k)
      {
        a[i] := NullDevice(i);
        i := i + 1;
      }
      devices := a;
    }

    /** `get_null_device`: the lowest null slot from 1 on; None is the "no more devices" panic. */
    method GetNullDevice() returns (r: Option<nat>)
      requires Valid()
      ensures r.Some? ==> 1 <= r.value < DEVICE_NR && devices[r.value].kind == DEV_NULL
      ensures forall j :: 1 <= j < DEVICE_NR && (r.None? || j < r.value) ==> devices[j].kind != DEV_NULL
    {
      var i := 1;
      while i < DEVICE_NR
        invariant 1 <= i <= DEVICE_NR
        invariant forall j :: 1 <= j < i ==> devices[j].kind != DEV_NULL
      {
        if devices[i].kind == DEV_NULL {
          return Some(i);
        }
        i := i + 1;
      }
      return None;
    }

    /**
     * `device_install`: fills the lowest null slot from 1 on with the type,
     * subtype, parent, hooks and the name as `strncpy` stores 16 bytes of
     * it, and returns the slot's number; slot 0 is never handed out.
     */
    method Install(kind: int, subtype: int, name: seq<byte>, parent: nat, hooks: Hooks) returns (r: Option<nat>)
      requires Valid() && CString.Terminated(name)
      modifies devices
      ensures Valid()
      ensures r.Some? ==> 1 <= r.value < DEVICE_NR && old(devices[r.value]).kind == DEV_NULL
      ensures forall j :: 1 <= j < DEVICE_NR && (r.None? || j < r.value) ==> devices[j].kind != DEV_NULL
      ensures r.Some? ==> devices[r.value] == old(devices[r.value]).(
        name := CString.StrncpyBytes(name, NAMELEN), kind := kind, subtype := subtype, parent := parent, hooks := hooks)
      ensures r.None? ==> devices[..] == old(devices[..])
      ensures r.Some? ==> devices[..] == old(devices[..])[r.value := devices[r.value]]
    {
      r := GetNullDevice();
      if r.Some? {
        var i := r.value;
        devices[i] := devices[i].(name := CString.StrncpyBytes(name, NAMELEN), kind := kind, subtype := subtype,
                                  parent := parent, hooks := hooks);
      }
    }

    /**
     * `device_get`: the device numbered `dev`. None stands for the kernel
     * assertions, which halt when `dev` is past the table or its slot holds
     * the null device.
     */
    function Get(dev: nat): (r: Option<Device>)
      requires Valid()
      reads this, devices
      ensures r.Some? <==> dev < DEVICE_NR && devices[dev].kind != DEV_NULL
      ensures r.Some? ==> r.value.dev == dev && r.value.kind != DEV_NULL && r.value == devices[dev]
    {
      if dev < DEVICE_NR && devices[dev].kind != DEV_NULL then Some(devices[dev]) else None
    }

    /**
     * `device_find(subtype, idx)`: the device that has exactly `idx`
     * devices of that subtype before it in the table, or NULL.
     */
    method Find(subtype: int, idx: nat) returns (r: Option<nat>)
      requires Valid()
      ensures r.Some? ==> r.value < DEVICE_NR && devices[r.value].subtype == subtype
                          && CountOf(devices[..r.value], subtype) == idx
      ensures r.None? ==> CountOf(devices[..], subtype) <= idx
    {
      var nr := 0;
      var i := 0;
      while i < DEVICE_NR
        invariant 0 <= i <= DEVICE_NR
        invariant nr == CountOf(devices[..i], subtype) <= idx
      {
        assert devices[..i + 1][..i] == devices[..i];
        if devices[i].subtype == subtype {
          if nr == idx {
            return Some(i);
          }
          nr := nr + 1;
        }
        i := i + 1;
      }
      assert devices[..DEVICE_NR] == devices[..];
      return None;
    }

    /**
     * `request_nextreq` for the request at position `k` of the list of
     * device `dev`: turns the device at either end, then picks the
     * neighbour in the direction of travel.
     */
    method NextRequest(dev: nat, k: nat) returns (next: Option<Request>)
      requires Valid() && dev < DEVICE_NR && k < |devices[dev].requests|
      modifies devices
      ensures Valid()
      ensures (devices[dev], next) == NextStep(old(devices[dev]), k)
      ensures devices[..] == old(devices[..])[dev := devices[dev]]
    {
      var d := devices[dev];
      var n := |d.requests|;
      var dir := d.direct;
      if dir == Up && k == n - 1 {
        dir := Down;
      } else if dir == Down && k == 0 {
        dir := Up;
      }
      devices[dev] := d.(direct := dir);
      if dir == Up {
        next := if k + 1 < n then Some(d.requests[k + 1]) else None;
      } else {
        next := if k > 0 then Some(d.requests[k - 1]) else None;
      }
    }

    /** `list_insert_sort` of `r` into the list of device `t`: returns where it went. */
    method Enqueue(t: nat, r: Request) returns (k: nat)
      requires Valid() && t < DEVICE_NR
      modifies devices
      ensures Valid()
      ensures k == InsertPos(old(devices[t].requests), r.idx) && k < |devices[t].requests|
      ensures devices[t] == old(devices[t]).(requests := Insert(old(devices[t].requests), r))
      ensures devices[..] == old(devices[..])[t := devices[t]]
    {
      var l := devices[t].requests;
      InsertKeepsSorted(l, r);
      k := InsertPos(l, r.idx);
      devices[t] := devices[t].(requests := Insert(l, r));
    }

    /** `list_remove` of the request at position `k` of the list of device `t`. */
    method Dequeue(t: nat, k: nat)
      requires Valid() && t < DEVICE_NR && k < |devices[t].requests|
      modifies devices
      ensures Valid()
      ensures var l := old(devices[t].requests);
        devices[t] == old(devices[t]).(requests := l[..k] + l[k + 1..])
      ensures devices[..] == old(devices[..])[t := devices[t]]
    {
      var l := devices[t].requests;
      assert forall i :: 0 <= i < |l| - 1 ==> (l[..k] + l[k + 1..])[i] == if i < k then l[i] else l[i + 1];
      devices[t] := devices[t].(requests := l[..k] + l[k + 1..]);
    }

    /**
     * The queueing part of `device_request` on disk `t`: `r` is inserted in
     * sector order, served (the panic on an unknown type leaves it queued),
     * the next request picked, and `r` removed again.
     */
    method Serve(t: nat, r: Request) returns (o: Outcome)
      requires Valid() && t < DEVICE_NR
      modifies devices
      ensures Valid()
      ensures o == Panicked <==> r.kind != REQ_READ && r.kind != REQ_WRITE
      ensures o == Panicked ==> devices[t] == old(devices[t]).(requests := Insert(old(devices[t].requests), r))
      ensures o.Served? ==> (devices[t], o.next) == ServeStep(old(devices[t]), r)
      ensures devices[..] == old(devices[..])[t := devices[t]]
    {
      ghost var d := devices[t];
      ghost var l := d.requests;
      InsertRemove(l, r);
      var k := Enqueue(t, r);
      if r.kind != REQ_READ && r.kind != REQ_WRITE {
        return Panicked;
      }
      ghost var step := NextStep(d.(requests := Insert(l, r)), k);
      var next := NextRequest(t, k);
      assert (devices[t], next) == step;
      Dequeue(t, k);
      assert devices[t] == step.0.(requests := l);
      return Served(next);
    }

    /**
     * The kernel assertions `device_request` makes: `dev` is an installed
     * block device and its parent, if it has one, is installed.
     */
    predicate Routable(dev: nat)
      requires Valid()
      reads this, devices
    {
      && dev < DEVICE_NR && devices[dev].kind == DEV_BLOCK
      && (devices[dev].parent != 0 ==> devices[dev].parent < DEVICE_NR && devices[devices[dev].parent].kind != DEV_NULL)
    }

    /**
     * `device_request`: the sector is `idx` plus the partition start the
     * device's `ioctl` reports (`start`, or `EOF` without an `ioctl` hook),
     * in 32-bit arithmetic; the request goes to the parent disk when there
     * is one, is inserted in sector order, served, and removed again, so the
     * list ends as it began; the disk may turn, and the next request is
     * returned for waking. A Panicked outcome with the table unchanged
     * stands for the halts of `device_get` and of the block-device assertion.
     */
    method Submit(dev: nat, count: nat, idx: nat, flags: int, kind: int, start: int) returns (o: Outcome)
      requires Valid() && idx < U32_LIMIT && count < 256
      modifies devices
      ensures Valid()
      ensures !old(Routable(dev)) ==> o == Panicked && devices[..] == old(devices[..])
      ensures old(Routable(dev)) ==>
        var t := Target(old(devices[dev]), dev);
        var offset := Sector(old(devices[dev]), idx, start);
        var r := Request(t, kind, offset, count, flags);
        var l := old(devices[t].requests);
        && (o == Panicked <==> kind != REQ_READ && kind != REQ_WRITE)
        && (o == Panicked ==> devices[t] == old(devices[t]).(requests := Insert(l, r)))
        && (o.Served? ==> (devices[t], o.next) == ServeStep(old(devices[t]), r))
        && devices[..] == old(devices[..])[t := devices[t]]
    {
      var got := Get(dev);
      if got.None? || got.value.kind != DEV_BLOCK {
        return Panicked;
      }
      var d := got.value;
      var offset := Sector(d, idx, start);
      if d.parent != 0 {
        got := Get(d.parent);
        if got.None? {
          return Panicked;
        }
        d := got.value;
      }
      var t := d.dev;
      assert t == Target(old(devices[dev]), dev) && d == old(devices[t]);
      var r := Request(t, kind, offset, count, flags);
      o := Serve(t, r);
    }
  }
}
