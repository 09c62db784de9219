/**
 * Directory contents as `namei.c` reads and extends them. A directory's
 * data is an array of 16-byte entries, `size / 16` of them; entry `i` is
 * slot `i % 64` of logical block `i / 64`, found through `bmap`. An entry
 * with `nr == 0` is free, but its name stays in place.
 */
module Dir {
  import opened Base
  import Buffer
  import opened FsLayout
  import opened FsState
  import CString
  import Path
  import Bmap

  /** Entries reachable through `bmap`: 64 in each logical block. */
  const MAX_ENTRIES: nat := BLOCK_DENTRIES * TOTAL_BLOCK

  /** `size / sizeof(dentry_t)`: the entries `find_entry` and `is_empty` scan. */
  function Entries(blocks: map<Buffer.Ident, seq<byte>>, s: InodeSlot): nat
    requires s.index < BLOCK_INODES
  {
    Desc(blocks, s).size / DENTRY_SIZE
  }

  /** Entry `i` of the directory `s`, read from the zone `bmap` finds without allocating (zone 0 for a hole). */
  function EntryAt(blocks: map<Buffer.Ident, seq<byte>>, s: InodeSlot, i: nat): Dentry
    requires s.index < BLOCK_INODES && i < MAX_ENTRIES
  {
    DentryAt(Block(blocks, s.dev, Bmap.Resolve(blocks, s, i / BLOCK_DENTRIES)), i % BLOCK_DENTRIES)
  }

  /** The logical blocks that entries `0 .. i - 1` occupy. */
  function BlocksOf(i: nat): nat
  {
    if i % BLOCK_DENTRIES == 0 then i / BLOCK_DENTRIES else i / BLOCK_DENTRIES + 1
  }

  /** Stepping to the next entry stays in the same block unless it crosses a block boundary. */
  lemma EntryStep(i: nat)
    ensures (i + 1) % BLOCK_DENTRIES != 0 ==> (i + 1) / BLOCK_DENTRIES == i / BLOCK_DENTRIES
    ensures BlocksOf(i + 1) == i / BLOCK_DENTRIES + 1
  {
    var q, r := i / BLOCK_DENTRIES, i % BLOCK_DENTRIES;
    assert i == BLOCK_DENTRIES * q + r;
    if r + 1 < BLOCK_DENTRIES {
      assert i + 1 == BLOCK_DENTRIES * q + (r + 1);
    } else {
      assert i + 1 == BLOCK_DENTRIES * (q + 1);
    }
  }

  /** The blocks with entry `k` of zone `z` of `dev` replaced by `e`. */
  function PutEntry(blocks: map<Buffer.Ident, seq<byte>>, dev: int, z: nat, k: nat, e: Dentry): (r: map<Buffer.Ident, seq<byte>>)
    requires k < BLOCK_DENTRIES && DentryOk(e)
    ensures DentryAt(Block(r, dev, z), k) == e
    ensures forall j :: 0 <= j < BLOCK_DENTRIES && j != k ==> DentryAt(Block(r, dev, z), j) == DentryAt(Block(blocks, dev, z), j)
    ensures Untouched(blocks, r, dev, {z})
  {
    PutBlock(blocks, dev, z, PutDentry(Block(blocks, dev, z), k, e))
  }

  // ------------------------------------------------------------ find_entry

  /** The name fields of entries `0 .. n - 1` of the directory `s`, in order. */
  function Names(blocks: map<Buffer.Ident, seq<byte>>, s: InodeSlot, n: nat): (r: seq<seq<byte>>)
    requires s.index < BLOCK_INODES && n <= MAX_ENTRIES
    ensures |r| == n
  {
    seq(n, k requires 0 <= k < n => EntryAt(blocks, s, k).name)
  }

  /** The entries `find_entry` can reach: those below `size / 16` that `bmap` can address. */
  function Reach(blocks: map<Buffer.Ident, seq<byte>>, s: InodeSlot): (n: nat)
    requires s.index < BLOCK_INODES
    ensures n <= MAX_ENTRIES
  {
    var e := Entries(blocks, s);
    if e <= MAX_ENTRIES then e else MAX_ENTRIES
  }

  /**
   * The first name from `i` on whose entry `match_name` accepts for the
   * component at `p` of `path`, with where it leaves `next`.
   */
  function Search(names: seq<seq<byte>>, path: seq<byte>, p: nat, i: nat): (r: Option<(nat, nat)>)
    ensures r.Some? ==> i <= r.value.0 < |names| && Path.MatchName(path, p, names[r.value.0], 0) == Some(r.value.1)
    ensures r.Some? ==> forall k :: i <= k < r.value.0 ==> Path.MatchName(path, p, names[k], 0).None?
    ensures r.None? ==> forall k :: i <= k < |names| ==> Path.MatchName(path, p, names[k], 0).None?
    decreases |names| - i
  {
    if i >= |names| then None
    else match Path.MatchName(path, p, names[i], 0)
      case Some(next) => Some((i, next))
      case None => Search(names, path, p, i + 1)
  }

  /** What `find_entry` reports for the component at `p`: the entry found and where `next` is left. */
  function Lookup(blocks: map<Buffer.Ident, seq<byte>>, s: InodeSlot, path: seq<byte>, p: nat): Option<(nat, nat)>
    requires s.index < BLOCK_INODES
  {
    Search(Names(blocks, s, Reach(blocks, s)), path, p, 0)
  }

  /** Where `match_name` leaves `next` after the component at `p`: past the separator that ends it, if one does. */
  function After(path: seq<byte>, p: nat): nat
  {
    var e := p + |Path.Component(path, p)|;
    if IsSeparator(Path.At(path, e)) then e + 1 else e
  }

  /** The name an entry field shows: its bytes up to the first `EOS`. */
  function Shown(name: seq<byte>): seq<byte>
  {
    Path.Chars(name, 0)
  }

  /** No separator in the name a field shows. */
  predicate Plain(name: seq<byte>)
  {
    forall k :: 0 <= k < |Path.Chars(name, 0)| ==> !IsSeparator(Path.Chars(name, 0)[k])
  }

  /**
   * Among names that hold no separator, the search finds the first one
   * equal to the component at `p`, and leaves `next` just past that
   * component; it finds nothing exactly when no name is that component.
   */
  lemma SearchFindsName(names: seq<seq<byte>>, path: seq<byte>, p: nat)
    requires forall k :: 0 <= k < |names| ==> Plain(names[k])
    ensures var r := Search(names, path, p, 0);
      (r.Some? ==> Shown(names[r.value.0]) == Path.Component(path, p) && r.value.1 == After(path, p)
                   && forall k :: 0 <= k < r.value.0 ==> Shown(names[k]) != Path.Component(path, p))
      && (r.None? <==> forall k :: 0 <= k < |names| ==> Shown(names[k]) != Path.Component(path, p))
  {
    forall k | 0 <= k < |names|
      ensures Path.MatchName(path, p, names[k], 0).Some? <==> Shown(names[k]) == Path.Component(path, p)
      ensures Path.MatchName(path, p, names[k], 0).Some? ==> Path.MatchName(path, p, names[k], 0).value == After(path, p)
    {
      Path.MatchNameMeaning(path, p, names[k], 0);
    }
  }

  /** No name below `i` is accepted for the component at `p`: what `find_entry` knows while it scans. */
  predicate Missed(names: seq<seq<byte>>, path: seq<byte>, p: nat, i: nat)
    requires i <= |names|
  {
    i == 0 || (Missed(names, path, p, i - 1) && Path.MatchName(path, p, names[i - 1], 0).None?)
  }

  /** `Missed` read as a statement about every name below `i`. */
  lemma {:induction false} MissedAll(names: seq<seq<byte>>, path: seq<byte>, p: nat, i: nat)
    requires i <= |names|
    ensures Missed(names, path, p, i) <==> forall k :: 0 <= k < i ==> Path.MatchName(path, p, names[k], 0).None?
  {
    if i > 0 {
      MissedAll(names, path, p, i - 1);
    }
  }

  /** A search from 0 whose first hit is at `i`. */
  lemma SearchHit(names: seq<seq<byte>>, path: seq<byte>, p: nat, i: nat)
    requires i < |names| && Path.MatchName(path, p, names[i], 0).Some? && Missed(names, path, p, i)
    ensures Search(names, path, p, 0) == Some((i, Path.MatchName(path, p, names[i], 0).value))
  {
    MissedAll(names, path, p, i);
  }

  /** A search from 0 that misses every name. */
  lemma SearchMiss(names: seq<seq<byte>>, path: seq<byte>, p: nat)
    requires Missed(names, path, p, |names|)
    ensures Search(names, path, p, 0).None?
  {
    MissedAll(names, path, p, |names|);
  }

  /**
   * `find_entry` on the directory in inode slot `d`: the entries below
   * `size / 16` in order, each logical block found with `bmap` without
   * allocating. It halts on an inode with mode 0, and where `bmap` would be
   * asked for a block past `TOTAL_BLOCK`. With a hit it gives the entry,
   * where `next` is left, and the zone holding the entry.
   */
  method FindEntry(fs: FileSystem, d: nat, path: seq<byte>, p: nat) returns (r: Option<(nat, nat)>, z: nat)
    requires fs.Valid() && !fs.halted && d < INODE_NR
    modifies fs
    ensures fs.Valid()
    ensures fs.blocks == old(fs.blocks) && fs.supers == old(fs.supers) && fs.inodes == old(fs.inodes)
    ensures fs.files == old(fs.files) && fs.task == old(fs.task)
    ensures var s := fs.inodes[d];
      fs.halted <==> Desc(fs.blocks, s).mode == 0 || (Entries(fs.blocks, s) > MAX_ENTRIES && Lookup(fs.blocks, s, path, p).None?)
    ensures !fs.halted ==> r == Lookup(fs.blocks, fs.inodes[d], path, p)
    ensures !fs.halted && r.Some? ==> z == Bmap.Resolve(fs.blocks, fs.inodes[d], r.value.0 / BLOCK_DENTRIES)
  {
    var s := fs.inodes[d];
    if Desc(fs.blocks, s).mode == 0 {
      fs.halted := true;
      return None, 0;
    }
    r, z := Scan(fs.blocks, s, path, p, Reach(fs.blocks, s));
    if r.None? && Entries(fs.blocks, s) > MAX_ENTRIES {
      fs.halted := true;
    }
  }

  /**
   * The loop of `find_entry` over entries `0 .. n - 1`, matching each name
   * against the component at `p`.
   */
  method Scan(blocks: map<Buffer.Ident, seq<byte>>, s: InodeSlot, path: seq<byte>, p: nat, n: nat) returns (r: Option<(nat, nat)>, z: nat)
    requires s.index < BLOCK_INODES && n <= MAX_ENTRIES
    ensures Scanned(blocks, s, path, p, n, r, z)
  {
    var i: nat := 0;
    z, r := 0, None;
    while r.None? && i < n
      invariant r.None? ==> Scanning(blocks, s, path, p, n, i, z)
      invariant r.Some? ==> Scanned(blocks, s, path, p, n, r, z)
      decreases n - i, r.None?
    {
      var m;
      m, z := Probe(blocks, s, path, p, n, i, z);
      if m.Some? {
        SearchHit(Names(blocks, s, n), path, p, i);
        r := Some((i, m.value));
      } else {
        EntryStep(i);
        i := i + 1;
      }
    }
    if r.None? {
      SearchMiss(Names(blocks, s, n), path, p);
      z := 0;
    }
  }

  /** What `find_entry`'s loop knows before entry `i`: the zone of the current block, and no name matched so far. */
  ghost predicate Scanning(blocks: map<Buffer.Ident, seq<byte>>, s: InodeSlot, path: seq<byte>, p: nat, n: nat, i: nat, z: nat)
    requires s.index < BLOCK_INODES && n <= MAX_ENTRIES
  {
    i <= n && (i % BLOCK_DENTRIES != 0 ==> z == Bmap.Resolve(blocks, s, i / BLOCK_DENTRIES)) && Missed(Names(blocks, s, n), path, p, i)
  }

  /** The loop's result: the search over the first `n` names, and with a hit the zone holding the entry. */
  ghost predicate Scanned(blocks: map<Buffer.Ident, seq<byte>>, s: InodeSlot, path: seq<byte>, p: nat, n: nat, r: Option<(nat, nat)>, z: nat)
    requires s.index < BLOCK_INODES && n <= MAX_ENTRIES
  {
    r == Search(Names(blocks, s, n), path, p, 0) && (r.Some? ==> z == Bmap.Resolve(blocks, s, r.value.0 / BLOCK_DENTRIES))
  }

  /**
   * One step of the loop: on a block boundary the zone of the next logical
   * block (what `bmap` without allocation gives, which changes nothing),
   * then `match_name` on entry `i`.
   */
  method Probe(blocks: map<Buffer.Ident, seq<byte>>, s: InodeSlot, path: seq<byte>, p: nat, n: nat, i: nat, z: nat)
    returns (m: Option<nat>, z': nat)
    requires s.index < BLOCK_INODES && i < n <= MAX_ENTRIES
    requires i % BLOCK_DENTRIES != 0 ==> z == Bmap.Resolve(blocks, s, i / BLOCK_DENTRIES)
    ensures z' == Bmap.Resolve(blocks, s, i / BLOCK_DENTRIES)
    ensures m == Path.MatchName(path, p, Names(blocks, s, n)[i], 0)
  {
    z' := z;
    if i % BLOCK_DENTRIES == 0 {
      z' := Bmap.Resolve(blocks, s, i / BLOCK_DENTRIES);
    }
    m := Path.MatchName(path, p, DentryAt(Block(blocks, s.dev, z'), i % BLOCK_DENTRIES).name, 0);
  }

  // ------------------------------------------------------------- add_entry

  /** The 14-byte field `strncpy(entry->name, name, NAME_LEN)` stores for the name at `p`. */
  function EntryName(path: seq<byte>, p: nat): (n: seq<byte>)
    ensures |n| == NAME_LEN
  {
    var c := Path.Chars(path, p);
    assert CString.Terminated(c + [EOS]) by {
      assert (c + [EOS])[|c|] == EOS;
    }
    CString.StrncpyBytes(c + [EOS], NAME_LEN)
  }

  /** `add_entry`'s check: no separator among the first 14 characters of the name at `p`. */
  predicate NameOk(path: seq<byte>, p: nat)
  {
    forall k :: 0 <= k < NAME_LEN && k < |Path.Chars(path, p)| ==> !IsSeparator(Path.Chars(path, p)[k])
  }

  /** The characters of a field that holds `c` and then `EOS` (or ends right after `c`) are `c`. */
  lemma ShownIs(e: seq<byte>, c: seq<byte>)
    requires |c| <= |e| && forall k :: 0 <= k < |c| ==> e[k] == c[k] && c[k] != EOS
    requires Path.At(e, |c|) == EOS
    ensures Shown(e) == c
  {
  }

  /** The field `add_entry` stores holds the name's first 14 characters, then `EOS` padding when the name is shorter. */
  lemma EntryNameBytes(path: seq<byte>, p: nat)
    ensures var c := Path.Chars(path, p);
      forall k :: 0 <= k < NAME_LEN ==> EntryName(path, p)[k] == if k < |c| then c[k] else EOS
  {
    var c := Path.Chars(path, p);
    assert CString.Strlen(c + [EOS]) == |c|;
  }

  /**
   * A name of at most 14 characters with no separator is stored whole, and
   * `match_name` accepts the stored field for it, leaving `next` at the end
   * of the path: what `add_entry` stores is found again.
   */
  lemma StoredNameFound(path: seq<byte>, p: nat)
    requires NameOk(path, p) && |Path.Chars(path, p)| <= NAME_LEN
    ensures Shown(EntryName(path, p)) == Path.Chars(path, p) == Path.Component(path, p)
    ensures Path.MatchName(path, p, EntryName(path, p), 0) == Some(Path.Eos(path, p))
  {
    EntryNameBytes(path, p);
    ShownIs(EntryName(path, p), Path.Chars(path, p));
    FieldFound(path, p, EntryName(path, p));
  }

  /** A field showing exactly the rest of the path, with no separator in it, is accepted up to the end of the path. */
  lemma FieldFound(path: seq<byte>, p: nat, e: seq<byte>)
    requires Shown(e) == Path.Chars(path, p) && Plain(e)
    ensures Path.Component(path, p) == Path.Chars(path, p)
    ensures Path.MatchName(path, p, e, 0) == Some(Path.Eos(path, p))
  {
    ComponentIsChars(path, p);
    Path.MatchNameMeaning(path, p, e, 0);
    var end := p + |Path.Component(path, p)|;
    assert end == Path.Eos(path, p) && Path.At(path, end) == EOS;
  }

  /** With no separator before the end, the component at `p` is all the characters left. */
  lemma {:induction false} ComponentIsChars(path: seq<byte>, p: nat)
    requires forall k :: 0 <= k < |Path.Chars(path, p)| ==> !IsSeparator(Path.Chars(path, p)[k])
    ensures Path.Component(path, p) == Path.Chars(path, p)
    decreases |path| - p
  {
    if Path.At(path, p) != EOS {
      var c := Path.Chars(path, p);
      assert !IsSeparator(c[0]);
      assert Path.Chars(path, p + 1) == c[1..];
      ComponentIsChars(path, p + 1);
    }
  }

  /**
   * A name longer than 14 characters with no separator is stored cut to
   * 14, and `match_name` never accepts the stored field for it: such a name
   * is not found again, and a second `add_entry` of it stores it anew.
   */
  lemma LongNameLost(path: seq<byte>, p: nat)
    requires NameOk(path, p) && |Path.Chars(path, p)| > NAME_LEN
    requires forall k :: 0 <= k < |Path.Chars(path, p)| ==> !IsSeparator(Path.Chars(path, p)[k])
    ensures Shown(EntryName(path, p)) == Path.Chars(path, p)[..NAME_LEN]
    ensures Path.MatchName(path, p, EntryName(path, p), 0).None?
  {
    var c := Path.Chars(path, p);
    var e := EntryName(path, p);
    EntryNameBytes(path, p);
    ShownIs(e, c[..NAME_LEN]);
    ComponentIsChars(path, p);
    Path.MatchNameMeaning(path, p, e, 0);
  }

  /** The assertion loop of `add_entry`: it halts on a separator among the first 14 characters. */
  method CheckName(fs: FileSystem, path: seq<byte>, p: nat)
    requires !fs.halted
    modifies fs
    ensures fs.blocks == old(fs.blocks) && fs.supers == old(fs.supers) && fs.inodes == old(fs.inodes)
    ensures fs.files == old(fs.files) && fs.task == old(fs.task)
    ensures fs.halted <==> !NameOk(path, p)
  {
    ghost var c := Path.Chars(path, p);
    var i := 0;
    while i < NAME_LEN && Path.At(path, p + i) != EOS
      invariant i <= NAME_LEN && i <= |c|
      invariant forall k :: 0 <= k < i ==> !IsSeparator(c[k])
    {
      if IsSeparator(Path.At(path, p + i)) {
        assert i < |c| && c[i] == Path.At(path, p + i);
        fs.halted := true;
        return;
      }
      i := i + 1;
    }
  }

  /** The appending step of `add_entry`: entry `i` (slot `i % 64` of zone `z`) gets `nr` 0 and the size covers it. */
  function Grown(blocks: map<Buffer.Ident, seq<byte>>, s: InodeSlot, z: nat, i: nat): map<Buffer.Ident, seq<byte>>
    requires s.index < BLOCK_INODES && i < MAX_ENTRIES
  {
    var k := i % BLOCK_DENTRIES;
    var b := PutEntry(blocks, s.dev, z, k, DentryAt(Block(blocks, s.dev, z), k).(nr := 0));
    PutDesc(b, s, Desc(b, s).(size := DENTRY_SIZE * (i + 1)))
  }

  /** The naming step of `add_entry`: entry `i` gets the name at `p`, the directory modification time `now`. */
  function Labelled(blocks: map<Buffer.Ident, seq<byte>>, s: InodeSlot, z: nat, i: nat, path: seq<byte>, p: nat, now: nat)
    : map<Buffer.Ident, seq<byte>>
    requires s.index < BLOCK_INODES && now < U32_LIMIT
  {
    var k := i % BLOCK_DENTRIES;
    var b := PutEntry(blocks, s.dev, z, k, DentryAt(Block(blocks, s.dev, z), k).(name := EntryName(path, p)));
    PutDesc(b, s, Desc(b, s).(mtime := now))
  }

  /** Growing writes entry `i` and the record, and the entry reads back with `nr` 0 when they are in different blocks. */
  lemma GrownFacts(blocks: map<Buffer.Ident, seq<byte>>, s: InodeSlot, z: nat, i: nat)
    requires s.index < BLOCK_INODES && i < MAX_ENTRIES
    ensures Untouched(blocks, Grown(blocks, s, z, i), s.dev, {z, s.block})
    ensures z != s.block ==> DentryAt(Block(Grown(blocks, s, z, i), s.dev, z), i % BLOCK_DENTRIES).nr == 0
    ensures z != s.block ==> Desc(Grown(blocks, s, z, i), s) == Desc(blocks, s).(size := DENTRY_SIZE * (i + 1))
  {
  }

  /** Naming writes entry `i` and the record; apart, the entry holds the name and the record only the new time. */
  lemma LabelledFacts(blocks: map<Buffer.Ident, seq<byte>>, s: InodeSlot, z: nat, i: nat, path: seq<byte>, p: nat, now: nat)
    requires s.index < BLOCK_INODES && now < U32_LIMIT
    ensures Untouched(blocks, Labelled(blocks, s, z, i, path, p, now), s.dev, {z, s.block})
    ensures z != s.block ==>
      DentryAt(Block(Labelled(blocks, s, z, i, path, p, now), s.dev, z), i % BLOCK_DENTRIES)
        == DentryAt(Block(blocks, s.dev, z), i % BLOCK_DENTRIES).(name := EntryName(path, p))
    ensures z != s.block ==> Desc(Labelled(blocks, s, z, i, path, p, now), s) == Desc(blocks, s).(mtime := now)
  {
  }

  /** `entry->nr = 0; dir->desc->size = (i + 1) * sizeof(dentry_t)`. */
  method Grow(fs: FileSystem, d: nat, z: nat, i: nat)
    requires fs.Valid() && d < INODE_NR && i < MAX_ENTRIES
    modifies fs
    ensures fs.Valid() && fs.halted == old(fs.halted)
    ensures fs.supers == old(fs.supers) && fs.inodes == old(fs.inodes) && fs.files == old(fs.files) && fs.task == old(fs.task)
    ensures fs.blocks == Grown(old(fs.blocks), fs.inodes[d], z, i)
  {
    fs.blocks := Grown(fs.blocks, fs.inodes[d], z, i);
  }

  /** `strncpy(entry->name, name, NAME_LEN); dir->desc->mtime = time()`. */
  method Label(fs: FileSystem, d: nat, z: nat, i: nat, path: seq<byte>, p: nat, now: nat)
    requires fs.Valid() && d < INODE_NR && now < U32_LIMIT
    modifies fs
    ensures fs.Valid() && fs.halted == old(fs.halted)
    ensures fs.supers == old(fs.supers) && fs.inodes == old(fs.inodes) && fs.files == old(fs.files) && fs.task == old(fs.task)
    ensures fs.blocks == Labelled(old(fs.blocks), fs.inodes[d], z, i, path, p, now)
  {
    fs.blocks := Labelled(fs.blocks, fs.inodes[d], z, i, path, p, now);
  }

  /**
   * `add_entry`: an entry already matching the component at `p` is the
   * result. Otherwise the name is checked, and the entries are visited
   * from 0, each logical block allocated by `bmap` when it is reached (a
   * zero zone halts): an entry at or past the end of the directory gets
   * `nr` 0 and the size grows to cover it, and the first entry with
   * `nr == 0` takes the name while the directory takes the time `now`. The
   * result is the entry and the zone that holds it; `nr` is left to the
   * caller. `touched` holds the blocks `bmap` wrote and the zones visited;
   * when the directory's own inode record is not among them, the effects
   * on the entry and on the record are exactly the ones above.
   */
  method AddEntry(fs: FileSystem, d: nat, path: seq<byte>, p: nat, now: nat) returns (j: nat, z: nat, ghost touched: set<nat>)
    requires fs.Valid() && !fs.halted && d < INODE_NR && now < U32_LIMIT
    modifies fs
    ensures fs.Valid()
    ensures fs.supers == old(fs.supers) && fs.inodes == old(fs.inodes) && fs.files == old(fs.files) && fs.task == old(fs.task)
    ensures var s := fs.inodes[d]; var found := Lookup(old(fs.blocks), s, path, p);
      !fs.halted && found.Some? ==>
        fs.blocks == old(fs.blocks) && j == found.value.0 && z == Bmap.Resolve(fs.blocks, s, j / BLOCK_DENTRIES)
    ensures var s := fs.inodes[d];
      !fs.halted && Lookup(old(fs.blocks), s, path, p).None? ==>
        NameOk(path, p) && Placed(old(fs.blocks), fs.blocks, s, j, z, touched, path, p, now)
  {
    var found, fz := FindEntry(fs, d, path, p);
    if fs.halted {
      return 0, 0, {};
    }
    if found.Some? {
      return found.value.0, fz, {};
    }
    CheckName(fs, path, p);
    if fs.halted {
      return 0, 0, {};
    }
    j, z, touched := Place(fs, d, path, p, now);
  }

  /**
   * What the allocating loop of `add_entry` leaves: entry `j` in zone `z`,
   * no block of the device changed outside `touched` and the directory's
   * record; when that record is not in `touched`, entry `j` holds `nr` 0
   * and the name, the record only a size grown to cover entry `j` and the
   * time `now` (and the zones `bmap` set), and every entry skipped lay
   * inside the old size.
   */
  ghost predicate Placed(before: map<Buffer.Ident, seq<byte>>, after: map<Buffer.Ident, seq<byte>>, s: InodeSlot,
                         j: nat, z: nat, touched: set<nat>, path: seq<byte>, p: nat, now: nat)
    requires s.index < BLOCK_INODES
  {
    var d0 := Desc(before, s);
    j < MAX_ENTRIES && z != 0 && z in touched && Untouched(before, after, s.dev, touched + {s.block})
    && (s.block !in touched ==>
          DentryAt(Block(after, s.dev, z), j % BLOCK_DENTRIES) == Dentry(0, EntryName(path, p))
          && Desc(after, s) == d0.(size := if DENTRY_SIZE * j >= d0.size then DENTRY_SIZE * (j + 1) else d0.size,
                                   mtime := now, zone := Desc(after, s).zone)
          && (j == 0 || DENTRY_SIZE * (j - 1) < d0.size))
  }

  /**
   * Where the allocating loop of `add_entry` stands before visiting entry
   * `i`: the current zone visited, no block changed outside `touched` and
   * the directory's record; when that record is not in `touched`, it has
   * changed only in its zones, and every entry passed lay inside the size.
   */
  ghost predicate Visiting(before: map<Buffer.Ident, seq<byte>>, after: map<Buffer.Ident, seq<byte>>, s: InodeSlot,
                           i: nat, z: nat, touched: set<nat>)
    requires s.index < BLOCK_INODES
  {
    var d0 := Desc(before, s);
    i <= MAX_ENTRIES && (i % BLOCK_DENTRIES != 0 ==> i < MAX_ENTRIES && z != 0 && z in touched)
    && Untouched(before, after, s.dev, touched + {s.block})
    && (s.block !in touched ==> Desc(after, s) == d0.(zone := Desc(after, s).zone) && (i == 0 || DENTRY_SIZE * (i - 1) < d0.size))
  }

  /** The allocating loop of `add_entry`, once the name is known to be absent. */
  method Place(fs: FileSystem, d: nat, path: seq<byte>, p: nat, now: nat) returns (j: nat, z: nat, ghost touched: set<nat>)
    requires fs.Valid() && !fs.halted && d < INODE_NR && now < U32_LIMIT
    modifies fs
    ensures fs.Valid()
    ensures fs.supers == old(fs.supers) && fs.inodes == old(fs.inodes) && fs.files == old(fs.files) && fs.task == old(fs.task)
    ensures !fs.halted ==> Placed(old(fs.blocks), fs.blocks, fs.inodes[d], j, z, touched, path, p, now)
  {
    var s := fs.inodes[d];
    touched := {};
    var i: nat := 0;
    j, z := 0, 0;
    while true
      invariant fs.Valid() && !fs.halted
      invariant fs.supers == old(fs.supers) && fs.inodes == old(fs.inodes) && fs.files == old(fs.files) && fs.task == old(fs.task)
      invariant Visiting(old(fs.blocks), fs.blocks, s, i, z, touched)
      decreases MAX_ENTRIES - i
    {
      ghost var pre := fs.blocks;
      ghost var t;
      var free;
      z, free, t := Visit(fs, d, i, z);
      if fs.halted {
        return;
      }
      UntouchedTrans(old(fs.blocks), pre, fs.blocks, s.dev, touched + {s.block}, t + {s.block});
      touched := touched + t;
      if !free {
        EntryStep(i);
        i := i + 1;
        continue;
      }
      Claim(fs, d, i, z, path, p, now, old(fs.blocks), touched);
      return i, z, touched;
    }
  }

  /** The end of the allocating loop: the free entry `i` in zone `z` takes the name, the directory the time `now`. */
  method Claim(fs: FileSystem, d: nat, i: nat, z: nat, path: seq<byte>, p: nat, now: nat,
               ghost before: map<Buffer.Ident, seq<byte>>, ghost touched: set<nat>)
    requires fs.Valid() && !fs.halted && d < INODE_NR && now < U32_LIMIT
    requires Found(before, fs.blocks, fs.inodes[d], i, z, touched)
    modifies fs
    ensures fs.Valid() && !fs.halted
    ensures fs.supers == old(fs.supers) && fs.inodes == old(fs.inodes) && fs.files == old(fs.files) && fs.task == old(fs.task)
    ensures Placed(before, fs.blocks, fs.inodes[d], i, z, touched, path, p, now)
  {
    ghost var s := fs.inodes[d];
    ghost var pre := fs.blocks;
    Label(fs, d, z, i, path, p, now);
    LabelledFacts(pre, s, z, i, path, p, now);
    UntouchedAbsorb(before, pre, fs.blocks, s.dev, touched, z, s.block);
  }

  /**
   * What one step of the allocating loop at entry `i` leaves: the zone `z'`
   * of the entry (`z` inside a block), in `t` with the blocks `bmap` wrote
   * and nothing changed outside `t` and the directory's record; `free`
   * tells whether the entry's `nr` is 0. When the record is not in `t`, it
   * changed only in its zones and in a size grown to cover an entry at or
   * past the end, and such an entry is free.
   */
  ghost predicate Visited(before: map<Buffer.Ident, seq<byte>>, after: map<Buffer.Ident, seq<byte>>, s: InodeSlot,
                          i: nat, z: nat, z': nat, free: bool, t: set<nat>)
    requires s.index < BLOCK_INODES
  {
    var d0 := Desc(before, s);
    i < MAX_ENTRIES && z' != 0 && z' in t && (i % BLOCK_DENTRIES != 0 ==> z' == z)
    && Untouched(before, after, s.dev, t + {s.block})
    && free == (DentryAt(Block(after, s.dev, z'), i % BLOCK_DENTRIES).nr == 0)
    && (s.block !in t ==>
          Desc(after, s) == d0.(size := if DENTRY_SIZE * i >= d0.size then DENTRY_SIZE * (i + 1) else d0.size,
                                zone := Desc(after, s).zone)
          && (DENTRY_SIZE * i >= d0.size ==> free))
  }

  /**
   * Where the allocating loop stands on finding the free entry `i` in zone
   * `z`: nothing changed outside `touched` and the directory's record, and
   * when that record is not in `touched`, only the size grown to cover an
   * entry at or past the end, and every entry passed lay inside the size.
   */
  ghost predicate Found(before: map<Buffer.Ident, seq<byte>>, after: map<Buffer.Ident, seq<byte>>, s: InodeSlot,
                        i: nat, z: nat, touched: set<nat>)
    requires s.index < BLOCK_INODES
  {
    var d0 := Desc(before, s);
    i < MAX_ENTRIES && z != 0 && z in touched && Untouched(before, after, s.dev, touched + {s.block})
    && (s.block !in touched ==>
          DentryAt(Block(after, s.dev, z), i % BLOCK_DENTRIES).nr == 0
          && Desc(after, s) == d0.(size := if DENTRY_SIZE * i >= d0.size then DENTRY_SIZE * (i + 1) else d0.size,
                                   zone := Desc(after, s).zone)
          && (i == 0 || DENTRY_SIZE * (i - 1) < d0.size))
  }

  /**
   * One step of the allocating loop at entry `i`: on a block boundary the
   * zone of the next logical block from `bmap` with allocation (a zero zone
   * halts, as does a block past `TOTAL_BLOCK`), then the growth of an entry
   * at or past the end; `free` tells whether the entry's `nr` is 0. `t`
   * holds the blocks `bmap` wrote and the zone of the entry.
   */
  method Visit(fs: FileSystem, d: nat, i: nat, z: nat) returns (z': nat, free: bool, ghost t: set<nat>)
    requires fs.Valid() && !fs.halted && d < INODE_NR
    requires i % BLOCK_DENTRIES != 0 ==> i < MAX_ENTRIES && z != 0
    modifies fs
    ensures fs.Valid()
    ensures fs.supers == old(fs.supers) && fs.inodes == old(fs.inodes) && fs.files == old(fs.files) && fs.task == old(fs.task)
    ensures !fs.halted ==> Visited(old(fs.blocks), fs.blocks, fs.inodes[d], i, z, z', free, t)
  {
    var s := fs.inodes[d];
    z', t := NextZone(fs, d, i, z);
    free := false;
    if fs.halted {
      return;
    }
    ghost var mid := fs.blocks;
    free := Extend(fs, d, z', i);
    UntouchedAbsorb(old(fs.blocks), mid, fs.blocks, s.dev, t, z', s.block);
  }

  /**
   * The growing step at entry `i` of zone `z`: an entry at or past the end
   * gets `nr` 0 and the size covers it; `free` tells whether the entry's
   * `nr` is then 0.
   */
  method Extend(fs: FileSystem, d: nat, z: nat, i: nat) returns (free: bool)
    requires fs.Valid() && d < INODE_NR && i < MAX_ENTRIES
    modifies fs
    ensures fs.Valid() && fs.halted == old(fs.halted)
    ensures fs.supers == old(fs.supers) && fs.inodes == old(fs.inodes) && fs.files == old(fs.files) && fs.task == old(fs.task)
    ensures Extended(old(fs.blocks), fs.blocks, fs.inodes[d], z, i, free)
  {
    var s := fs.inodes[d];
    if DENTRY_SIZE * i >= Desc(fs.blocks, s).size {
      ghost var pre := fs.blocks;
      Grow(fs, d, z, i);
      GrownFacts(pre, s, z, i);
    }
    free := DentryAt(Block(fs.blocks, s.dev, z), i % BLOCK_DENTRIES).nr == 0;
  }

  /** What `Extend` leaves: only zone `z` and the record changed; apart, the record's size covers entry `i`, which is then free. */
  ghost predicate Extended(before: map<Buffer.Ident, seq<byte>>, after: map<Buffer.Ident, seq<byte>>, s: InodeSlot,
                           z: nat, i: nat, free: bool)
    requires s.index < BLOCK_INODES
  {
    var d0 := Desc(before, s);
    Untouched(before, after, s.dev, {z, s.block})
    && free == (DentryAt(Block(after, s.dev, z), i % BLOCK_DENTRIES).nr == 0)
    && (z != s.block ==>
          Desc(after, s) == d0.(size := if DENTRY_SIZE * i >= d0.size then DENTRY_SIZE * (i + 1) else d0.size)
          && (DENTRY_SIZE * i >= d0.size ==> free))
  }

  /** A change to a block already counted, and to the record, adds nothing to what has changed. */
  lemma UntouchedAbsorb(a: map<Buffer.Ident, seq<byte>>, b: map<Buffer.Ident, seq<byte>>, c: map<Buffer.Ident, seq<byte>>,
                        dev: int, t: set<nat>, z: nat, block: nat)
    requires z in t && Untouched(a, b, dev, t + {block}) && Untouched(b, c, dev, {z, block})
    ensures Untouched(a, c, dev, t + {block})
  {
  }

  /**
   * The zone of entry `i`: inside a block the current one, on a block
   * boundary the next logical block from `bmap` with allocation (a zero
   * zone halts, as does a block past `TOTAL_BLOCK`). `t` holds the blocks
   * `bmap` wrote and the zone.
   */
  method NextZone(fs: FileSystem, d: nat, i: nat, z: nat) returns (z': nat, ghost t: set<nat>)
    requires fs.Valid() && !fs.halted && d < INODE_NR
    requires i % BLOCK_DENTRIES != 0 ==> i < MAX_ENTRIES && z != 0
    modifies fs
    ensures fs.Valid()
    ensures fs.supers == old(fs.supers) && fs.inodes == old(fs.inodes) && fs.files == old(fs.files) && fs.task == old(fs.task)
    ensures !fs.halted ==> Zoned(old(fs.blocks), fs.blocks, fs.inodes[d], i, z, z', t)
  {
    var s := fs.inodes[d];
    z', t := z, {};
    if i % BLOCK_DENTRIES == 0 {
      if i / BLOCK_DENTRIES >= TOTAL_BLOCK {
        fs.halted := true;
        return;
      }
      z', t := Bmap.Bmap(fs, d, i / BLOCK_DENTRIES, true);
      if fs.halted {
        return;
      }
      if z' == 0 {
        fs.halted := true;
        return;
      }
    }
    t := t + {z'};
  }

  /** What `NextZone` leaves: a nonzero zone in `t`, the same inside a block, and only `t` and the record's zones changed. */
  ghost predicate Zoned(before: map<Buffer.Ident, seq<byte>>, after: map<Buffer.Ident, seq<byte>>, s: InodeSlot,
                        i: nat, z: nat, z': nat, t: set<nat>)
    requires s.index < BLOCK_INODES
  {
    i < MAX_ENTRIES && z' != 0 && z' in t && (i % BLOCK_DENTRIES != 0 ==> z' == z)
    && Untouched(before, after, s.dev, t + {s.block})
    && (s.block !in t ==> Desc(after, s) == Desc(before, s).(zone := Desc(after, s).zone))
  }
}
