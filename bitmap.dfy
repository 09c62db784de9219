/**
 * The kernel bitmap (`bitmap_t`): bit `i` of the map is bit `(i - offset) % 8`
 * of byte `(i - offset) / 8`, least significant bit first.
 *
 * The specification works on the byte sequence with relative bit numbers
 * (`Bit`, `Put`, `ScanStart`, `Fill`); the filesystem allocators apply it to
 * block contents. The class `Bitmap` is the in-place map over an array, its
 * methods proved against those functions.
 */
module Bitmap {
  import opened Base

  /** Bit `k` of `b`, counted from the least significant (`b & (1 << k)`). */
  predicate NatBit(b: nat, k: nat)
  {
    if k == 0 then b % 2 == 1 else NatBit(b / 2, k - 1)
  }

  /** `b` with bit `k` set (`|= 1 << k`) or cleared (`&= ~(1 << k)`). */
  function SetNatBit(b: nat, k: nat, v: bool): nat
  {
    if k == 0 then b - b % 2 + (if v then 1 else 0)
    else 2 * SetNatBit(b / 2, k - 1, v) + b % 2
  }

  /** Zero has no bit set. */
  lemma {:induction false} ZeroHasNoBit(k: nat)
    ensures !NatBit(0, k)
  {
    if k > 0 {
      ZeroHasNoBit(k - 1);
    }
  }

  /** Setting or clearing bit `k` changes bit `k` to `v` and no other bit. */
  lemma {:induction false} SetNatBitSpec(b: nat, k: nat, v: bool, j: nat)
    ensures NatBit(SetNatBit(b, k, v), j) == if j == k then v else NatBit(b, j)
  {
    var r := SetNatBit(b, k, v);
    if k == 0 {
      assert r / 2 == b / 2;
    } else {
      assert r % 2 == b % 2 && r / 2 == SetNatBit(b / 2, k - 1, v);
      if j > 0 {
        SetNatBitSpec(b / 2, k - 1, v, j - 1);
      }
    }
  }

  /** Setting or clearing a bit below bit `n` keeps a value below `2^n`. */
  lemma {:induction false} SetNatBitBound(b: nat, k: nat, v: bool, n: nat)
    requires b < Pow2(n) && k < n
    ensures SetNatBit(b, k, v) < Pow2(n)
  {
    var h := Pow2(n - 1);
    assert Pow2(n) == 2 * h;
    assert b / 2 < h;
    if k > 0 {
      SetNatBitBound(b / 2, k - 1, v, n - 1);
      assert SetNatBit(b, k, v) == 2 * SetNatBit(b / 2, k - 1, v) + b % 2;
    } else {
      assert SetNatBit(b, k, v) <= 2 * (b / 2) + 1;
    }
  }

  /** Bit `k` of byte `b`. */
  predicate ByteBit(b: byte, k: nat)
    requires k < 8
  {
    NatBit(b, k)
  }

  /** Byte `b` with bit `k` set or cleared. */
  function SetByteBit(b: byte, k: nat, v: bool): byte
    requires k < 8
  {
    assert Pow2(8) == 256 by {
      assert Pow2(4) == 16;
    }
    SetNatBitBound(b, k, v, 8);
    SetNatBit(b, k, v)
  }

  /** Setting or clearing bit `k` of a byte changes bit `k` to `v` and no other bit. */
  lemma SetByteBitSpec(b: byte, k: nat, v: bool, j: nat)
    requires k < 8 && j < 8
    ensures ByteBit(SetByteBit(b, k, v), j) == if j == k then v else ByteBit(b, j)
  {
    SetNatBitSpec(b, k, v, j);
  }

  /** The number of bits a map of `bits` holds. */
  function Size(bits: seq<byte>): nat
  {
    8 * |bits|
  }

  /** Relative bit `s` of the map (`bitmap_test` with the offset removed). */
  predicate Bit(bits: seq<byte>, s: nat)
    requires s < Size(bits)
  {
    ByteBit(bits[s / 8], s % 8)
  }

  /** Relative bit `s` set to `v` (`bitmap_set` with the offset removed). */
  function Put(bits: seq<byte>, s: nat, v: bool): (r: seq<byte>)
    requires s < Size(bits)
    ensures |r| == |bits|
  {
    bits[s / 8 := SetByteBit(bits[s / 8], s % 8, v)]
  }

  /** Putting bit `s` changes bit `s` to `v` and no other bit. */
  lemma PutSpec(bits: seq<byte>, s: nat, v: bool)
    requires s < Size(bits)
    ensures forall t :: 0 <= t < Size(bits) ==> Bit(Put(bits, s, v), t) == if t == s then v else Bit(bits, t)
  {
    var r := Put(bits, s, v);
    forall t | 0 <= t < Size(bits)
      ensures Bit(r, t) == if t == s then v else Bit(bits, t)
    {
      if t / 8 == s / 8 {
        SetByteBitSpec(bits[s / 8], s % 8, v, t % 8);
      }
    }
  }

  /** The relative bits `s .. s + count - 1` lie in the map and are all clear. */
  predicate RunFree(bits: seq<byte>, s: nat, count: nat)
  {
    s + count <= Size(bits) && forall t :: s <= t < s + count ==> !Bit(bits, t)
  }

  /** The number of consecutive clear bits that end just before bit `n`. */
  function ClearRun(bits: seq<byte>, n: nat): (c: nat)
    requires n <= Size(bits)
    ensures c <= n
  {
    if n == 0 || Bit(bits, n - 1) then 0 else 1 + ClearRun(bits, n - 1)
  }

  /** The bits the counter has seen clear are clear, and the one before them is set. */
  lemma {:induction false} ClearRunSpec(bits: seq<byte>, n: nat)
    requires n <= Size(bits)
    ensures RunFree(bits, n - ClearRun(bits, n), ClearRun(bits, n))
    ensures ClearRun(bits, n) < n ==> Bit(bits, n - ClearRun(bits, n) - 1)
  {
    if n > 0 && !Bit(bits, n - 1) {
      ClearRunSpec(bits, n - 1);
    }
  }

  /**
   * The end of the first window `bitmap_scan` accepts: the smallest
   * `n` in `from .. Size(bits)` with `n >= 1` at which the clear-run counter
   * equals `count`, or None.
   */
  function ScanEnd(bits: seq<byte>, count: nat, from: nat): (r: Option<nat>)
    requires 1 <= from
    decreases Size(bits) + 1 - from
    ensures r.Some? ==> from <= r.value <= Size(bits) && ClearRun(bits, r.value) == count
    ensures r.Some? ==> forall n :: from <= n < r.value ==> ClearRun(bits, n) != count
    ensures r.None? ==> forall n :: from <= n <= Size(bits) ==> ClearRun(bits, n) != count
  {
    if from > Size(bits) then None
    else if ClearRun(bits, from) == count then Some(from)
    else ScanEnd(bits, count, from + 1)
  }

  /** The relative start `bitmap_scan(count)` finds, or None where it returns `EOF`. */
  function ScanStart(bits: seq<byte>, count: nat): (r: Option<nat>)
    ensures r.Some? ==> RunFree(bits, r.value, count)
  {
    match ScanEnd(bits, count, 1)
    case None => None
    case Some(n) =>
      ClearRunSpec(bits, n);
      Some(n - count)
  }

  /** The map with relative bits `s .. s + count - 1` set. */
  function Fill(bits: seq<byte>, s: nat, count: nat): (r: seq<byte>)
    requires s + count <= Size(bits)
    ensures |r| == |bits|
    decreases count
  {
    if count == 0 then bits else Put(Fill(bits, s, count - 1), s + count - 1, true)
  }

  lemma {:induction false} FillSpec(bits: seq<byte>, s: nat, count: nat)
    requires s + count <= Size(bits)
    ensures forall t :: 0 <= t < Size(bits) ==> Bit(Fill(bits, s, count), t) == (s <= t < s + count || Bit(bits, t))
    decreases count
  {
    if count > 0 {
      FillSpec(bits, s, count - 1);
      PutSpec(Fill(bits, s, count - 1), s + count - 1, true);
    }
  }

  /** The map with relative bits `s .. s + count - 1` cleared. */
  function Clear(bits: seq<byte>, s: nat, count: nat): (r: seq<byte>)
    requires s + count <= Size(bits)
    ensures |r| == |bits|
    decreases count
  {
    if count == 0 then bits else Put(Clear(bits, s, count - 1), s + count - 1, false)
  }

  lemma {:induction false} ClearSpec(bits: seq<byte>, s: nat, count: nat)
    requires s + count <= Size(bits)
    ensures forall t :: 0 <= t < Size(bits) ==> Bit(Clear(bits, s, count), t) == (!(s <= t < s + count) && Bit(bits, t))
    decreases count
  {
    if count > 0 {
      ClearSpec(bits, s, count - 1);
      PutSpec(Clear(bits, s, count - 1), s + count - 1, false);
    }
  }

  /** Going back `d <= ClearRun(n)` bits shortens the clear run by exactly `d`. */
  lemma {:induction false} ClearRunBack(bits: seq<byte>, n: nat, d: nat)
    requires n <= Size(bits) && d <= ClearRun(bits, n)
    ensures ClearRun(bits, n - d) == ClearRun(bits, n) - d
    decreases d
  {
    if d > 0 {
      ClearRunBack(bits, n - 1, d - 1);
    }
  }

  /** A free run of `count` bits ending at `n` makes the clear-run counter reach `count` there. */
  lemma {:induction false} RunFreeClearRun(bits: seq<byte>, s: nat, count: nat)
    requires RunFree(bits, s, count)
    ensures ClearRun(bits, s + count) >= count
    decreases count
  {
    if count > 0 {
      RunFreeClearRun(bits, s, count - 1);
    }
  }

  /**
   * First fit: for `count > 0` the scan finds a free run exactly when one
   * exists, and then the lowest-starting one.
   */
  lemma ScanIsFirstFit(bits: seq<byte>, count: nat)
    requires count > 0
    ensures ScanStart(bits, count).Some? <==> exists s :: RunFree(bits, s, count)
    ensures ScanStart(bits, count).Some? ==> forall s :: 0 <= s < ScanStart(bits, count).value ==> !RunFree(bits, s, count)
  {
    forall s: nat | RunFree(bits, s, count)
      ensures ScanEnd(bits, count, 1).Some? && ScanEnd(bits, count, 1).value <= s + count
    {
      RunFreeClearRun(bits, s, count);
      var n := s + count;
      ClearRunBack(bits, n, ClearRun(bits, n) - count);
      var m := n - (ClearRun(bits, n) - count);
      assert 1 <= m <= n && ClearRun(bits, m) == count;
    }
    if ScanStart(bits, count).Some? {
      assert RunFree(bits, ScanStart(bits, count).value, count);
    }
  }

  /** With `count == 0` the scan reports the position just past the first set bit. */
  lemma ScanZeroFindsSetBit(bits: seq<byte>)
    ensures ScanStart(bits, 0).Some? <==> exists t :: 0 <= t < Size(bits) && Bit(bits, t)
    ensures ScanStart(bits, 0).Some? ==> var n := ScanStart(bits, 0).value;
      1 <= n && Bit(bits, n - 1) && forall t :: 0 <= t < n - 1 ==> !Bit(bits, t)
  {
    forall t | 0 <= t < Size(bits) && Bit(bits, t)
      ensures ScanEnd(bits, 0, 1).Some? && ScanEnd(bits, 0, 1).value <= t + 1
    {
      assert ClearRun(bits, t + 1) == 0;
    }
    if ScanStart(bits, 0).Some? {
      var n := ScanStart(bits, 0).value;
      forall t | 0 <= t < n - 1
        ensures !Bit(bits, t)
      {
        assert ClearRun(bits, t + 1) != 0;
      }
    }
  }

  /** First-fit reuse: freeing the bit a one-bit scan returned makes the next one-bit scan return it again. */
  lemma ScanReusesFreed(bits: seq<byte>)
    requires ScanStart(bits, 1).Some?
    ensures var s := ScanStart(bits, 1).value;
      ScanStart(Put(Fill(bits, s, 1), s, false), 1) == Some(s)
  {
    var s := ScanStart(bits, 1).value;
    var after := Put(Fill(bits, s, 1), s, false);
    FillSpec(bits, s, 1);
    PutSpec(Fill(bits, s, 1), s, false);
    ScanIsFirstFit(bits, 1);
    assert RunFree(after, s, 1);
    ScanIsFirstFit(after, 1);
    var s' := ScanStart(after, 1).value;
    assert s' != s ==> RunFree(bits, s', 1);
  }

  /** An in-place bitmap over `bits`, whose first bit is numbered `offset`. */
  class Bitmap {
    var bits: array<byte>
    var offset: nat

    /** `bitmap_make`: records the storage and the offset, leaving the bytes as they are. */
    constructor Make(b: array<byte>, start: nat)
      ensures bits == b && offset == start
    {
      bits := b;
      offset := start;
    }

    /** `bitmap_init`: zeroes the storage, then makes the map. */
    constructor Init(b: array<byte>, start: nat)
      modifies b
      ensures bits == b && offset == start
      ensures bits[..] == Zeros(b.Length)
      ensures forall t :: 0 <= t < Size(bits[..]) ==> !Bit(bits[..], t)
    {
      var i := 0;
      while i < b.Length
        invariant 0 <= i <= b.Length
        invariant forall k :: 0 <= k < i ==> b[k] == 0
      {
        b[i] := 0;
        i := i + 1;
      }
      bits := b;
      offset := start;
      assert b[..] == Zeros(b.Length);
      forall t | 0 <= t < Size(b[..])
        ensures !Bit(b[..], t)
      {
        ZeroHasNoBit(t % 8);
      }
    }

    /** `bitmap_test`: bit `index`, which must lie in the map. */
    method Test(index: nat) returns (r: bool)
      requires offset <= index < offset + Size(bits[..])
      ensures r == Bit(bits[..], index - offset)
    {
      var idx := index - offset;
      r := ByteBit(bits[idx / 8], idx % 8);
    }

    /** `bitmap_set`: bit `index` becomes `value`; no other bit changes. */
    method Set(index: nat, value: bool)
      requires offset <= index < offset + Size(bits[..])
      modifies bits
      ensures bits[..] == Put(old(bits[..]), index - offset, value)
    {
      var idx := index - offset;
      bits[idx / 8] := SetByteBit(bits[idx / 8], idx % 8, value);
    }

    /**
     * `bitmap_scan`: finds the first window of `count` clear bits, sets
     * them and returns the number of its first bit; `EOF` and no change if
     * there is none.
     */
    method Scan(count: nat) returns (r: int)
      modifies bits
      ensures ScanStart(old(bits[..]), count).None? ==> r == EOF && bits[..] == old(bits[..])
      ensures ScanStart(old(bits[..]), count).Some? ==>
        var s := ScanStart(old(bits[..]), count).value;
        r == offset + s && bits[..] == Fill(old(bits[..]), s, count)
    {
      var start := FindWindow(count);
      if start == EOF {
        return EOF;
      }
      FillWindow(start, count);
      r := offset + start;
    }

    /** The marking loop of `bitmap_scan`: relative bits `start .. start + count - 1` are set. */
    method FillWindow(start: nat, count: nat)
      requires start + count <= Size(bits[..])
      modifies bits
      ensures bits[..] == Fill(old(bits[..]), start, count)
    {
      ghost var b0 := bits[..];
      var bitsLeft: nat := count;
      var nextBit: nat := start;
      while bitsLeft > 0
        invariant nextBit + bitsLeft == start + count
        invariant bits[..] == Fill(b0, start, nextBit - start)
      {
        bitsLeft := bitsLeft - 1;
        Set(offset + nextBit, true);
        nextBit := nextBit + 1;
      }
      assert nextBit - start == count;
    }

    /**
     * The search loop of `bitmap_scan`: the relative start of the first
     * window, or `EOF`; the map is only read.
     */
    method FindWindow(count: nat) returns (start: int)
      ensures ScanStart(bits[..], count).None? ==> start == EOF
      ensures ScanStart(bits[..], count).Some? ==> start == ScanStart(bits[..], count).value
    {
      ghost var b0 := bits[..];
      start := EOF;
      var bitsLeft: nat := Size(bits[..]);
      var nextBit: nat := 0;
      var counter: nat := 0;
      while bitsLeft > 0
        invariant bits.Length == |b0|
        invariant nextBit + bitsLeft == Size(b0)
        invariant counter == ClearRun(b0, nextBit)
        invariant start == EOF
        invariant forall n :: 1 <= n <= nextBit ==> ClearRun(b0, n) != count
        decreases bitsLeft
      {
        bitsLeft := bitsLeft - 1;
        var isSet := Test(offset + nextBit);
        if !isSet {
          counter := counter + 1;
        } else {
          counter := 0;
        }
        nextBit := nextBit + 1;
        if counter == count {
          start := nextBit - count;
          ScanEndFirst(b0, count, 1, nextBit);
          return;
        }
      }
      ScanEndNone(b0, count, 1);
    }
  }

  /** A first hit at `n` with no earlier hit is what `ScanEnd` reports. */
  lemma {:induction false} ScanEndFirst(bits: seq<byte>, count: nat, from: nat, n: nat)
    requires 1 <= from <= n <= Size(bits) && ClearRun(bits, n) == count
    requires forall m :: from <= m < n ==> ClearRun(bits, m) != count
    ensures ScanEnd(bits, count, from) == Some(n)
    decreases n - from
  {
    if from < n {
      ScanEndFirst(bits, count, from + 1, n);
    }
  }

  /** With no hit from `from` on, `ScanEnd` reports None. */
  lemma {:induction false} ScanEndNone(bits: seq<byte>, count: nat, from: nat)
    requires 1 <= from
    requires forall m :: from <= m <= Size(bits) ==> ClearRun(bits, m) != count
    ensures ScanEnd(bits, count, from) == None
    decreases Size(bits) + 1 - from
  {
    if from <= Size(bits) {
      ScanEndNone(bits, count, from + 1);
    }
  }
}
