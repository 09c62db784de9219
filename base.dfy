/**
 * Machine-level vocabulary shared by every module: bytes, the EOF sentinel,
 * an optional value for NULL results and panics, and the little-endian
 * field access through which on-disk records are read out of raw blocks.
 */
module Base {

  /** A byte of memory, as the unsigned value it holds. */
  type byte = b: int | 0 <= b < 256

  /** `EOF` (-1) is the failure sentinel the kernel returns and stores. */
  const EOF: int := -1

  /** `EOS` is the string terminator. */
  const EOS: byte := 0

  const U16_LIMIT: int := 0x1_0000
  const U32_LIMIT: int := 0x1_0000_0000

  /** A pointer that may be NULL, or the result of a routine that may panic. */
  datatype Option<T> = None | Some(value: T)

  /** 2 to the `k`. */
  function Pow2(k: nat): (p: nat)
    ensures p >= 1
  {
    if k == 0 then 1 else 2 * Pow2(k - 1)
  }

  /** `n` zero bytes, as `memset(p, 0, n)` leaves them. */
  function Zeros(n: nat): (r: seq<byte>)
    ensures |r| == n && forall k :: 0 <= k < n ==> r[k] == 0
  {
    seq(n, _ => 0)
  }

  /** The `uint16` stored little-endian at byte offset `o`. */
  function U16At(d: seq<byte>, o: nat): (v: int)
    requires o + 2 <= |d|
    ensures 0 <= v < U16_LIMIT
  {
    d[o] as int + 256 * (d[o + 1] as int)
  }

  /** `d` with the `uint16` at offset `o` replaced by `v`; no other byte changes. */
  function PutU16(d: seq<byte>, o: nat, v: int): (r: seq<byte>)
    requires o + 2 <= |d| && 0 <= v < U16_LIMIT
    ensures |r| == |d|
    ensures U16At(r, o) == v
    ensures forall k :: 0 <= k < |d| && k != o && k != o + 1 ==> r[k] == d[k]
  {
    d[o := v % 256][o + 1 := v / 256]
  }

  /** The `uint32` stored little-endian at byte offset `o`. */
  function U32At(d: seq<byte>, o: nat): (v: int)
    requires o + 4 <= |d|
    ensures 0 <= v < U32_LIMIT
  {
    U16At(d, o) + U16_LIMIT * U16At(d, o + 2)
  }

  /** `d` with the `uint32` at offset `o` replaced by `v`; no other byte changes. */
  function PutU32(d: seq<byte>, o: nat, v: int): (r: seq<byte>)
    requires o + 4 <= |d| && 0 <= v < U32_LIMIT
    ensures |r| == |d|
    ensures U32At(r, o) == v
    ensures forall k :: 0 <= k < |d| && (k < o || o + 4 <= k) ==> r[k] == d[k]
  {
    PutU16(PutU16(d, o, v % U16_LIMIT), o + 2, v / U16_LIMIT)
  }
}
