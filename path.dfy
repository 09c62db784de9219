/**
 * The text routines of the directory resolver (`namei.c`): the permission
 * test on an inode record, the separator scans, the matching of one path
 * component against a directory entry's name, and `abspath`, which rewrites
 * the working-directory text a task keeps for `getcwd`.
 *
 * A C string is a byte sequence read through `At`, which gives `EOS` past
 * the end of the sequence, so a scan that runs off a sequence stops as it
 * would at a terminator. A position in a sequence stands for a C pointer.
 */
module Path {
  import opened Base
  import opened FsLayout
  import CString
  import FsState

  // The access masks of `permission`.
  const P_EXEC: nat := 1
  const P_WRITE: nat := 2
  const P_READ: nat := 4

  const SLASH: byte := '/' as byte
  const DOT: byte := '.' as byte

  // ------------------------------------------------------------ permission

  /**
   * The group byte as `task->uid == desc->gid` compares it: `gid` is a
   * signed `char`, widened to `int` and then converted to `uint32`.
   */
  function GroupAsUid(gid: byte): (u: nat)
    ensures gid < 128 ==> u == gid
    ensures gid >= 128 ==> u == gid + U32_LIMIT - 256
  {
    CString.Signed(gid) % U32_LIMIT
  }

  /** Bit `b` (a power of two) of `x`. */
  predicate HasBit(x: nat, b: nat)
    requires b > 0
  {
    (x / b) % 2 == 1
  }

  /** `x & m & 0b111`: the low three bits set in both. */
  function And3(x: nat, m: nat): (r: nat)
    ensures r < 8
  {
    (if HasBit(x, 1) && HasBit(m, 1) then 1 else 0) + (if HasBit(x, 2) && HasBit(m, 2) then 2 else 0)
    + (if HasBit(x, 4) && HasBit(m, 4) then 4 else 0)
  }

  /**
   * `permission(inode, mask)` for the running task's `uid`: never for an
   * inode with no links, always for the kernel user; otherwise the mode is
   * shifted down to the owner bits when the task owns the inode, to the
   * group bits when its uid equals the inode's group, and the test is
   * `(mode & mask & 0b111) == mask`.
   */
  function Permission(d: InodeDesc, uid: nat, mask: nat): (r: bool)
    ensures r ==> d.nlinks != 0
    ensures r && uid != FsState.KERNEL_USER ==> mask < 8
  {
    if d.nlinks == 0 then false
    else if uid == FsState.KERNEL_USER then true
    else
      var bits := if uid == d.uid then d.mode / 64 else if uid == GroupAsUid(d.gid) then d.mode / 8 else d.mode;
      And3(bits, mask) == mask
  }

  /** The mode bits `permission` tests for `uid`: owner, group or other, in the low three bits. */
  function ClassBits(d: InodeDesc, uid: nat): (c: nat)
    ensures c < 8
  {
    if uid == d.uid then (d.mode / 64) % 8
    else if uid == GroupAsUid(d.gid) then (d.mode / 8) % 8
    else d.mode % 8
  }

  /** A mask is granted by the bits `c` when it is below 8 and each of its bits is set in `c`. */
  predicate Grants(c: nat, mask: nat)
  {
    mask < 8 && (HasBit(mask, 1) ==> HasBit(c, 1)) && (HasBit(mask, 2) ==> HasBit(c, 2))
    && (HasBit(mask, 4) ==> HasBit(c, 4))
  }

  /** The low three bits of `x` are those of `x % 8`. */
  lemma LowBits(x: nat)
    ensures HasBit(x % 8, 1) == HasBit(x, 1) && HasBit(x % 8, 2) == HasBit(x, 2) && HasBit(x % 8, 4) == HasBit(x, 4)
  {
    var q, r := x / 8, x % 8;
    assert x == 8 * q + r;
    Bit1(q, r);
    Bit2(q, r);
    Bit4(q, r);
  }

  /** Bit 1 of `8 * q + r` with `r < 8` is bit 1 of `r`. */
  lemma Bit1(q: nat, r: nat)
    requires r < 8
    ensures HasBit(8 * q + r, 1) == HasBit(r, 1)
  {
    assert (8 * q + r) / 1 == 2 * (4 * q) + r;
  }

  /** Bit 2 of `8 * q + r` with `r < 8` is bit 2 of `r`. */
  lemma Bit2(q: nat, r: nat)
    requires r < 8
    ensures HasBit(8 * q + r, 2) == HasBit(r, 2)
  {
    assert (8 * q + r) / 2 == 2 * (2 * q) + r / 2;
  }

  /** Bit 4 of `8 * q + r` with `r < 8` is bit 4 of `r`. */
  lemma Bit4(q: nat, r: nat)
    requires r < 8
    ensures HasBit(8 * q + r, 4) == HasBit(r, 4)
  {
    assert (8 * q + r) / 4 == 2 * q + r / 4;
  }

  /** `(x & m & 7) == m` holds exactly when every bit of `m` is a low bit set in `x`. */
  lemma And3Test(x: nat, m: nat)
    ensures And3(x, m) == m <==> Grants(x % 8, m)
  {
    LowBits(x);
    if m < 8 {
      assert m == 0 || m == 1 || m == 2 || m == 3 || m == 4 || m == 5 || m == 6 || m == 7;
    }
  }

  /**
   * The rules `permission` applies: no links denies, the kernel user is
   * granted, and any other task is granted exactly when every bit of a
   * mask below 8 is set in the owner, group or other bits picked for it.
   */
  lemma PermissionRules(d: InodeDesc, uid: nat, mask: nat)
    ensures d.nlinks == 0 ==> !Permission(d, uid, mask)
    ensures d.nlinks != 0 && uid == FsState.KERNEL_USER ==> Permission(d, uid, mask)
    ensures d.nlinks != 0 && uid != FsState.KERNEL_USER ==> (Permission(d, uid, mask) <==> Grants(ClassBits(d, uid), mask))
  {
    var bits := if uid == d.uid then d.mode / 64 else if uid == GroupAsUid(d.gid) then d.mode / 8 else d.mode;
    And3Test(bits, mask);
  }

  /** The mask 0 (an `O_RDONLY` open) asks only that the inode has links. */
  lemma PermissionNothing(d: InodeDesc, uid: nat)
    ensures Permission(d, uid, 0) <==> d.nlinks != 0
  {
    PermissionRules(d, uid, 0);
  }

  /** `permission` reads only the mode, owner, group and link count of a record. */
  lemma PermissionFields(d: InodeDesc, e: InodeDesc, uid: nat, mask: nat)
    requires d.mode == e.mode && d.uid == e.uid && d.gid == e.gid && d.nlinks == e.nlinks
    ensures Permission(d, uid, mask) == Permission(e, uid, mask)
  {
  }

  // ------------------------------------------------------------- scanning

  /** Byte `i` of the C string `s`, or `EOS` past the end of `s`. */
  function At(s: seq<byte>, i: int): byte
  {
    if 0 <= i < |s| then s[i] else EOS
  }

  /** The position of the first `EOS` at or after `i`. */
  function Eos(s: seq<byte>, i: nat): (e: nat)
    ensures i <= e && At(s, e) == EOS && (i <= |s| ==> e <= |s|)
    ensures forall j :: i <= j < e ==> At(s, j) != EOS
    decreases |s| - i
  {
    if At(s, i) == EOS then i else Eos(s, i + 1)
  }

  /** Scanning from any position before the terminator ends at the same terminator. */
  lemma EosFrom(s: seq<byte>, i: nat, j: nat)
    requires i <= j <= Eos(s, i)
    ensures Eos(s, j) == Eos(s, i)
  {
  }

  /** The bytes before the terminator hold no terminator. */
  lemma TextPrefix(s: seq<byte>, n: nat)
    requires n <= Eos(s, 0)
    ensures n <= |s| && EOS !in s[..n]
  {
    assert forall j :: 0 <= j < n ==> s[..n][j] == At(s, j);
  }

  /** A text with no terminator in it ends where its sequence does. */
  lemma EosOfText(t: seq<byte>)
    requires EOS !in t
    ensures Eos(t, 0) == |t|
  {
    assert At(t, |t|) == EOS;
  }

  /**
   * `strsep`: the first separator at or after `i`, or None when the string
   * ends first.
   */
  function Strsep(s: seq<byte>, i: nat): (r: Option<nat>)
    ensures r.Some? ==> i <= r.value < Eos(s, i) && r.value < |s| && IsSeparator(At(s, r.value))
    ensures r.Some? ==> forall j :: i <= j < r.value ==> !IsSeparator(At(s, j))
    ensures r.Some? ==> EOS !in s[i..r.value]
    ensures r.None? ==> forall j :: i <= j < Eos(s, i) ==> !IsSeparator(At(s, j))
    decreases |s| - i
  {
    if IsSeparator(At(s, i)) then Some(i)
    else if At(s, i) == EOS then None
    else
      var r := Strsep(s, i + 1);
      assert r.Some? ==> s[i..r.value] == [s[i]] + s[i + 1..r.value];
      r
  }

  /**
   * `strrsep`: the last separator at or after `i` before the string ends,
   * or None when there is none.
   */
  function Strrsep(s: seq<byte>, i: nat): (r: Option<nat>)
    ensures r.Some? ==> i <= r.value < Eos(s, i) && IsSeparator(At(s, r.value))
    ensures r.Some? ==> forall j :: r.value < j < Eos(s, i) ==> !IsSeparator(At(s, j))
    ensures r.None? ==> forall j :: i <= j < Eos(s, i) ==> !IsSeparator(At(s, j))
    decreases |s| - i
  {
    if At(s, i) == EOS then None
    else match Strrsep(s, i + 1)
      case Some(k) => Some(k)
      case None => if IsSeparator(At(s, i)) then Some(i) else None
  }

  /** A separator found first from `i` is also found first from any earlier position with none in between. */
  lemma {:induction false} StrsepSkip(s: seq<byte>, i: nat, j: nat)
    requires i <= j && forall k :: i <= k < j ==> !IsSeparator(At(s, k)) && At(s, k) != EOS
    ensures Strsep(s, i) == Strsep(s, j)
    decreases j - i
  {
    if i < j {
      StrsepSkip(s, i + 1, j);
    }
  }

  /** `strrsep` reads only up to the terminator: two strings equal that far give the same answer. */
  lemma {:induction false} StrrsepAgree(a: seq<byte>, b: seq<byte>, i: nat)
    requires forall j :: i <= j <= Eos(a, i) ==> At(a, j) == At(b, j)
    ensures Eos(b, i) == Eos(a, i) && Strrsep(b, i) == Strrsep(a, i)
    decreases |a| - i
  {
    if At(a, i) != EOS {
      StrrsepAgree(a, b, i + 1);
    }
  }

  // ------------------------------------------------------------- matching

  /** The characters of the C string at `i`, up to its `EOS`. */
  function Chars(s: seq<byte>, i: nat): (c: seq<byte>)
    ensures |c| == Eos(s, i) - i
    ensures forall k :: 0 <= k < |c| ==> c[k] == At(s, i + k) && c[k] != EOS
    decreases |s| - i
  {
    if At(s, i) == EOS then [] else [At(s, i)] + Chars(s, i + 1)
  }

  /** The path component at `i`: its characters up to the first `EOS` or separator. */
  function Component(s: seq<byte>, i: nat): (c: seq<byte>)
    ensures forall k :: 0 <= k < |c| ==> c[k] == At(s, i + k) && c[k] != EOS && !IsSeparator(c[k])
    ensures At(s, i + |c|) == EOS || IsSeparator(At(s, i + |c|))
    decreases |s| - i
  {
    if At(s, i) == EOS || IsSeparator(At(s, i)) then [] else [At(s, i)] + Component(s, i + 1)
  }

  /**
   * `match_name`: walk the path from `i` and the entry name from `k` while
   * they agree and neither has ended; the entry must have ended, and the
   * path must have ended or reached a separator, which is stepped over.
   * The result is the position `next` is left at. The entry name is read
   * no further than its field.
   */
  function MatchName(s: seq<byte>, i: nat, e: seq<byte>, k: nat): (r: Option<nat>)
    ensures r.Some? ==> i <= r.value && (r.value == i <==> At(s, i) == EOS)
    decreases |e| - k
  {
    if At(s, i) == At(e, k) && At(s, i) != EOS then MatchName(s, i + 1, e, k + 1)
    else if At(e, k) != EOS then None
    else if At(s, i) != EOS && !IsSeparator(At(s, i)) then None
    else if IsSeparator(At(s, i)) then Some(i + 1)
    else Some(i)
  }

  /**
   * For an entry name with no separator in it, `match_name` accepts exactly
   * when the component at `i` equals the name, and leaves `next` just past
   * the separator that ends the component, if one does.
   */
  lemma {:induction false} MatchNameMeaning(s: seq<byte>, i: nat, e: seq<byte>, k: nat)
    requires forall j :: 0 <= j < |Chars(e, k)| ==> !IsSeparator(Chars(e, k)[j])
    ensures MatchName(s, i, e, k).Some? <==> Component(s, i) == Chars(e, k)
    ensures MatchName(s, i, e, k).Some? ==>
      var end := i + |Component(s, i)|;
      MatchName(s, i, e, k).value == if IsSeparator(At(s, end)) then end + 1 else end
    decreases |e| - k
  {
    var c := Component(s, i);
    var n := Chars(e, k);
    if At(s, i) == At(e, k) && At(s, i) != EOS {
      assert n == [At(e, k)] + Chars(e, k + 1);
      assert !IsSeparator(n[0]);
      assert c == [At(s, i)] + Component(s, i + 1);
      assert Chars(e, k + 1) == n[1..];
      MatchNameMeaning(s, i + 1, e, k + 1);
      assert c == n <==> Component(s, i + 1) == Chars(e, k + 1) by {
        if c == n {
          assert Component(s, i + 1) == c[1..] && Chars(e, k + 1) == n[1..];
        }
      }
    } else if At(e, k) != EOS {
      assert n[0] == At(e, k);
      assert |c| > 0 ==> c[0] == At(s, i);
    } else if At(s, i) != EOS && !IsSeparator(At(s, i)) {
      assert c[0] == At(s, i);
    }
  }

  /**
   * `match_name` never moves `next` backwards or past the end of the path,
   * and leaves it where it started only at the path's end.
   */
  lemma {:induction false} MatchNameAdvances(s: seq<byte>, i: nat, e: seq<byte>, k: nat)
    requires i <= |s| && MatchName(s, i, e, k).Some?
    ensures i <= MatchName(s, i, e, k).value <= |s|
    ensures MatchName(s, i, e, k).value == i ==> At(s, i) == EOS
    decreases |e| - k
  {
    if At(s, i) == At(e, k) && At(s, i) != EOS {
      MatchNameAdvances(s, i + 1, e, k + 1);
    }
  }

  // -------------------------------------------------------------- abspath

  /** A working-directory text as `abspath` builds it: it starts and ends with a separator and holds no `EOS`. */
  predicate PwdText(t: seq<byte>)
  {
    |t| > 0 && IsSeparator(t[0]) && IsSeparator(t[|t| - 1]) && EOS !in t
  }

  /**
   * The `..` step on the text `t`: its trailing separator is cut, then
   * everything after the separator before it.
   */
  function Pop(t: seq<byte>): (r: seq<byte>)
    requires PwdText(t) && |t| > 1
    ensures PwdText(r) && |r| < |t| && r == t[..|r|]
  {
    var u := t[..|t| - 1];
    EosOfText(u);
    assert At(u, 0) == t[0];
    var k := Strrsep(u, 0).value;
    u[..k + 1]
  }

  /** `memcmp(pathname, "./", 2) == 0` once the separator at `q` reads '/': the component at `p` is ".". */
  predicate IsDot(path: seq<byte>, p: nat, q: nat)
  {
    At(path, p) == DOT && q == p + 1
  }

  /** `memcmp(pathname, "../", 3) == 0` once the separator at `q` reads '/': the component at `p` is "..". */
  predicate IsDotDot(path: seq<byte>, p: nat, q: nat)
  {
    At(path, p) == DOT && At(path, p + 1) == DOT && q == p + 2
  }

  /**
   * The last component of the path, at `p`: "." changes nothing, ".." pops
   * unless the text is the root, and any other name is appended with a
   * separator after it and a terminator after that.
   */
  function Last(t: seq<byte>, la: byte, path: seq<byte>, p: nat): (r: (seq<byte>, byte))
    requires PwdText(t)
    ensures PwdText(r.0) && r.0[0] == t[0]
  {
    if At(path, p) == DOT && At(path, p + 1) == EOS then (t, la)
    else if At(path, p) == DOT && At(path, p + 1) == DOT && At(path, p + 2) == EOS then
      if |t| > 1 then (Pop(t), EOS) else (t, la)
    else (t + Chars(path, p) + [SLASH], EOS)
  }

  /**
   * One pass of the loop of `abspath` over the component `path[p..q]`,
   * ended by the separator at `q`, on the text `t` followed by the byte
   * `la`: "." is skipped, ".." pops the text (not at the root), and any
   * other component is appended with a '/'; that copy also stores the path
   * byte after the separator, which becomes the byte past the text.
   */
  function Next(t: seq<byte>, la: byte, path: seq<byte>, p: nat, q: nat): (r: (seq<byte>, byte))
    requires PwdText(t) && Strsep(path, p) == Some(q)
    ensures PwdText(r.0) && r.0[0] == t[0]
  {
    if IsDot(path, p, q) then (t, la)
    else if IsDotDot(path, p, q) then (if |t| > 1 then (Pop(t), EOS) else (t, la))
    else (t + path[p..q] + [SLASH], At(path, q + 1))
  }

  /**
   * The text `abspath` holds once it has read the rest of `path` from `p`,
   * starting from the text `t` followed by the byte `la`, and the byte it
   * leaves just past the text: each component ended by a separator is
   * applied with `Next`, and the last one with `Last`.
   */
  function Walk(t: seq<byte>, la: byte, path: seq<byte>, p: nat): (r: (seq<byte>, byte))
    requires PwdText(t)
    ensures PwdText(r.0) && r.0[0] == t[0]
    decreases |path| - p
  {
    if At(path, p) == EOS then (t, la)
    else match Strsep(path, p)
      case None => Last(t, la, path, p)
      case Some(q) =>
        var n := Next(t, la, path, p, q);
        Walk(n.0, n.1, path, q + 1)
  }

  /** What `abspath` needs: `pwd` starts with a separator, and its page holds both strings with room to spare. */
  predicate AbspathFits(pwd: seq<byte>, path: seq<byte>)
  {
    IsSeparator(At(pwd, 0)) && Eos(pwd, 0) + Eos(path, 0) + 2 <= |pwd|
  }

  /**
   * Where `abspath` starts: for an absolute path the first byte of `pwd`
   * alone, with the path read from its second byte; otherwise the `pwd`
   * text up to its last separator, with the whole path to read.
   */
  function Start(pwd: seq<byte>, path: seq<byte>): (r: (seq<byte>, nat))
    requires AbspathFits(pwd, path)
    ensures PwdText(r.0) && r.0[0] == pwd[0] && r.1 <= Eos(path, 0)
    ensures |r.0| <= Eos(pwd, 0) && r.0 == pwd[..|r.0|]
  {
    if IsSeparator(At(path, 0)) then ([pwd[0]], 1)
    else
      var k := Strrsep(pwd, 0).value;
      TextPrefix(pwd, k + 1);
      (pwd[..k + 1], 0)
  }

  /** The text `abspath` builds for `path` from `pwd`, and the byte it leaves after it. */
  function Canonical(pwd: seq<byte>, path: seq<byte>): (r: (seq<byte>, byte))
    requires AbspathFits(pwd, path)
    ensures PwdText(r.0) && r.0[0] == pwd[0]
  {
    var (t, p) := Start(pwd, path);
    Walk(t, EOS, path, p)
  }

  /** `Walk` at the end of the path: the text and the byte after it stay. */
  lemma WalkEnd(t: seq<byte>, la: byte, path: seq<byte>, p: nat)
    requires PwdText(t) && At(path, p) == EOS
    ensures Walk(t, la, path, p) == (t, la)
  {
  }

  /** `Walk` on a last component, with no separator after it. */
  lemma WalkLast(t: seq<byte>, la: byte, path: seq<byte>, p: nat)
    requires PwdText(t) && At(path, p) != EOS && Strsep(path, p).None?
    ensures Walk(t, la, path, p) == Last(t, la, path, p)
  {
  }

  /** `Walk` over a component ended by the separator at `q`. */
  lemma WalkNext(t: seq<byte>, la: byte, path: seq<byte>, p: nat, q: nat)
    requires PwdText(t) && At(path, p) != EOS && Strsep(path, p) == Some(q)
    ensures Walk(t, la, path, p) == Walk(Next(t, la, path, p, q).0, Next(t, la, path, p, q).1, path, q + 1)
  {
  }

  /**
   * The byte left past the text is the terminator or a '.': a byte copied
   * past a separator survives only when the component it starts is ".".
   */
  lemma {:induction false} WalkLeavesDotOrEos(t: seq<byte>, la: byte, path: seq<byte>, p: nat)
    requires PwdText(t) && (la == EOS || la == DOT || la == At(path, p))
    ensures var r := Walk(t, la, path, p); r.1 == EOS || r.1 == DOT
    decreases |path| - p
  {
    if At(path, p) == EOS {
      WalkEnd(t, la, path, p);
    } else if Strsep(path, p).None? {
      WalkLast(t, la, path, p);
    } else {
      var q := Strsep(path, p).value;
      WalkNext(t, la, path, p, q);
      var n := Next(t, la, path, p, q);
      WalkLeavesDotOrEos(n.0, n.1, path, q + 1);
    }
  }

  /**
   * The `..` step on the page: the trailing separator of the text is
   * overwritten with a terminator, then the text is cut after the
   * separator `strrsep` finds in what remains.
   */
  method PopPage(buf: seq<byte>, cur: nat) returns (buf': seq<byte>, cur': nat)
    requires 1 < cur < |buf| && PwdText(buf[..cur])
    ensures |buf'| == |buf| && 0 < cur' < cur && buf'[cur'] == EOS
    ensures buf'[..cur'] == Pop(buf[..cur])
  {
    ghost var t := buf[..cur];
    ghost var u := t[..|t| - 1];
    buf' := buf[cur - 1 := EOS];
    assert buf'[..cur - 1] == u;
    EosOfText(u);
    StrrsepAgree(u, buf', 0);
    assert At(u, 0) == t[0];
    cur' := Strrsep(buf', 0).value + 1;
    buf' := buf'[cur' := EOS];
    assert buf'[..cur'] == u[..cur'];
  }

  /**
   * The state of `abspath` between passes: the page holds the text built
   * so far in front of `cur`, with room left for the rest of the path.
   */
  predicate Page(buf: seq<byte>, cur: nat, path: seq<byte>, p: nat)
  {
    0 < cur && cur + (Eos(path, p) - p) + 2 <= |buf| && PwdText(buf[..cur])
  }

  /** What `abspath` still builds from a page in the state `Page` describes. */
  function Rest(buf: seq<byte>, cur: nat, path: seq<byte>, p: nat): (seq<byte>, byte)
    requires Page(buf, cur, path, p)
  {
    Walk(buf[..cur], buf[cur], path, p)
  }

  /**
   * One pass of the loop of `abspath` over the component at `p`, ended by
   * the separator at `q`: the page changes as `Walk` says, so the text
   * still to be built is the same.
   */
  method Step(buf: seq<byte>, cur: nat, path: seq<byte>, p: nat, q: nat) returns (buf': seq<byte>, cur': nat)
    requires At(path, p) != EOS && Strsep(path, p) == Some(q) && Page(buf, cur, path, p)
    ensures |buf'| == |buf| && Page(buf', cur', path, q + 1)
    ensures (buf'[..cur'], buf'[cur']) == Next(buf[..cur], buf[cur], path, p, q)
  {
    EosFrom(path, p, q + 1);
    ghost var t := buf[..cur];
    buf', cur' := buf, cur;
    if IsDot(path, p, q) {
    } else if IsDotDot(path, p, q) {
      if cur - 1 != 0 {
        buf', cur' := PopPage(buf, cur);
      }
    } else {
      // `*ptr = '/'`, then `strncpy(cur, pathname, len + 1)`: the component, '/', and the byte after it.
      var comp := path[p..q];
      buf' := Splice(buf, cur, comp + [SLASH, At(path, q + 1)]);
      cur' := cur + (q - p) + 1;
      assert buf'[..cur'] == t + comp + [SLASH];
      assert buf'[cur'] == At(path, q + 1);
    }
  }

  /**
   * What `abspath` does after its loop with the last component at `p`:
   * "." leaves the page, ".." pops it unless it is the root, and any other
   * name is copied with `strcpy`, then followed by '/' and a terminator.
   */
  method Finish(buf: seq<byte>, cur: nat, path: seq<byte>, p: nat) returns (buf': seq<byte>, end: nat)
    requires Page(buf, cur, path, p) && At(path, p) != EOS && Strsep(path, p).None?
    ensures |buf'| == |buf| && end < |buf|
    ensures (buf'[..end], buf'[end]) == Last(buf[..cur], buf[cur], path, p)
  {
    ghost var t := buf[..cur];
    buf', end := buf, cur;
    if At(path, p) == DOT && At(path, p + 1) == EOS {
      return;
    }
    if !(At(path, p) == DOT && At(path, p + 1) == DOT && At(path, p + 2) == EOS) {
      var rest := Chars(path, p);
      buf' := Splice(buf, cur, rest + [EOS]);
      buf' := buf'[cur + |rest| := SLASH][cur + |rest| + 1 := EOS];
      end := cur + |rest| + 1;
      assert buf'[..end] == t + rest + [SLASH];
      return;
    }
    if cur - 1 != 0 {
      buf', end := PopPage(buf, cur);
    }
  }

  /**
   * The start of `abspath`: the page is cut after its first byte for an
   * absolute path, which is then read from its second byte, and otherwise
   * after the last separator of its text.
   */
  method Begin(pwd: seq<byte>, path: seq<byte>) returns (buf: seq<byte>, cur: nat, p: nat)
    requires AbspathFits(pwd, path)
    ensures |buf| == |pwd| && Page(buf, cur, path, p) && buf[cur] == EOS
    ensures (buf[..cur], p) == Start(pwd, path)
  {
    if IsSeparator(At(path, 0)) {
      cur, p := 1, 1;
    } else {
      cur, p := Strrsep(pwd, 0).value + 1, 0;
    }
    buf := pwd[cur := EOS];
    assert buf[..cur] == Start(pwd, path).0;
    EosFrom(path, 0, p);
  }

  /** A pass that changes the page as `Next` says leaves the same text to build. */
  lemma RestNext(buf: seq<byte>, cur: nat, buf': seq<byte>, cur': nat, path: seq<byte>, p: nat, q: nat)
    requires At(path, p) != EOS && Strsep(path, p) == Some(q) && Page(buf, cur, path, p) && Page(buf', cur', path, q + 1)
    requires (buf'[..cur'], buf'[cur']) == Next(buf[..cur], buf[cur], path, p, q)
    ensures Rest(buf', cur', path, q + 1) == Rest(buf, cur, path, p)
  {
    WalkNext(buf[..cur], buf[cur], path, p, q);
  }

  /**
   * The loop of `abspath`: it runs while the path has a component ended by
   * a separator, and the text it leaves to build is the same throughout.
   */
  method Components(buf: seq<byte>, cur: nat, path: seq<byte>, p: nat) returns (buf': seq<byte>, cur': nat, p': nat)
    requires Page(buf, cur, path, p)
    ensures |buf'| == |buf| && Page(buf', cur', path, p')
    ensures At(path, p') == EOS || Strsep(path, p').None?
    ensures Rest(buf', cur', path, p') == Rest(buf, cur, path, p)
  {
    buf', cur', p' := buf, cur, p;
    while At(path, p') != EOS
      invariant |buf'| == |buf| && Page(buf', cur', path, p')
      invariant Rest(buf', cur', path, p') == Rest(buf, cur, path, p)
      decreases |path| - p'
    {
      var sep := Strsep(path, p');
      if sep.None? {
        break;
      }
      var q := sep.value;
      var next, at := Step(buf', cur', path, p', q);
      RestNext(buf', cur', next, at, path, p', q);
      buf', cur', p' := next, at, q + 1;
    }
  }

  /**
   * `abspath(pwd, pathname)` on the page `pwd`, as written: the result is
   * the page and the length of the text it holds. The text is the one
   * `Canonical` gives, and the byte after it is the one `Canonical` says,
   * which is not always the terminator.
   */
  method AbspathAsWritten(pwd: seq<byte>, path: seq<byte>) returns (buf: seq<byte>, end: nat)
    requires AbspathFits(pwd, path)
    ensures |buf| == |pwd| && end < |buf|
    ensures (buf[..end], buf[end]) == Canonical(pwd, path)
  {
    var cur, p;
    buf, cur, p := Begin(pwd, path);
    assert Rest(buf, cur, path, p) == Canonical(pwd, path) by {
      assert Start(pwd, path) == (buf[..cur], p);
    }
    buf, cur, p := Components(buf, cur, path, p);
    end := cur;
    if At(path, p) == EOS {
      WalkEnd(buf[..cur], buf[cur], path, p);
    } else {
      WalkLast(buf[..cur], buf[cur], path, p);
      buf, end := Finish(buf, cur, path, p);
    }
  }

  /**
   * `abspath` with the text terminated where it ends: the page then reads
   * as the text `Canonical` gives.
   */
  method Abspath(pwd: seq<byte>, path: seq<byte>) returns (buf: seq<byte>)
    requires AbspathFits(pwd, path)
    ensures |buf| == |pwd| && CString.Terminated(buf)
    ensures CString.Text(buf) == Canonical(pwd, path).0
  {
    var end;
    buf, end := AbspathAsWritten(pwd, path);
    buf := buf[end := EOS];
    assert buf[..end] == Canonical(pwd, path).0;
    TextAt(buf, end);
  }

  /** A page whose first `EOS` is at `end` reads as the bytes before it. */
  lemma TextAt(buf: seq<byte>, end: nat)
    requires end < |buf| && buf[end] == EOS && EOS !in buf[..end]
    ensures CString.Terminated(buf) && CString.Text(buf) == buf[..end]
  {
    assert buf[end] in buf;
    var t := CString.Text(buf);
  }

  /** A page whose text is followed by something other than `EOS` does not read as that text. */
  lemma NotTextAt(buf: seq<byte>, end: nat)
    requires end < |buf| && buf[end] != EOS && CString.Terminated(buf)
    ensures CString.Text(buf) != buf[..end]
  {
    var t := CString.Text(buf);
    assert t + [EOS] == buf[..|t| + 1];
  }

  const ROOT_PAGE: seq<byte> := [SLASH, EOS, EOS, EOS, EOS, EOS, EOS, EOS]
  const A_DOT: seq<byte> := ['a' as byte, SLASH, DOT, EOS]

  /**
   * With `pwd` "/" and the relative path "a/.", `abspath` leaves "/a/"
   * followed by '.' where the terminator belongs: the "a/" pass copies the
   * '.' after the separator and the final "." returns without a terminator.
   */
  lemma AbspathLeavesDot()
    ensures AbspathFits(ROOT_PAGE, A_DOT) && Canonical(ROOT_PAGE, A_DOT) == ([SLASH, 'a' as byte, SLASH], DOT)
  {
    var pwd, path := ROOT_PAGE, A_DOT;
    assert Eos(pwd, 1) == 1;
    assert Eos(path, 3) == 3;
    assert Eos(path, 2) == 3;
    assert Eos(path, 1) == 3;
    assert Eos(path, 0) == 3;
    assert Strrsep(pwd, 1) == None;
    assert Strrsep(pwd, 0) == Some(0);
    assert pwd[..1] == [SLASH];
    assert Start(pwd, path) == ([SLASH], 0);
    assert Strsep(path, 0) == Some(1);
    assert Strsep(path, 3) == None;
    assert Strsep(path, 2) == None;
    WalkLast([SLASH, 'a' as byte, SLASH], DOT, path, 2);
    assert Walk([SLASH, 'a' as byte, SLASH], DOT, path, 2) == ([SLASH, 'a' as byte, SLASH], DOT);
    WalkNext([SLASH], EOS, path, 0, 1);
    assert At(path, 2) == DOT;
    assert [SLASH] + path[0..1] + [SLASH] == [SLASH, 'a' as byte, SLASH];
    assert Walk([SLASH], EOS, path, 0) == Walk([SLASH, 'a' as byte, SLASH], DOT, path, 2);
  }
}
