/**
 * The kernel's byte ring buffer (`fifo_t`): `head` is where the next byte is
 * stored, `tail` where the oldest byte is read; one slot always stays empty,
 * so a buffer of `length` bytes holds at most `length - 1`.
 */
module Fifo {
  import opened Base

  class Fifo {
    var buf: array<byte>
    var head: nat
    var tail: nat
    /** The bytes held, oldest first. */
    ghost var contents: seq<byte>

    ghost predicate Valid()
      reads this, buf
    {
      && buf.Length > 0
      && head < buf.Length && tail < buf.Length
      && |contents| == Distance(tail, head, buf.Length)
      && forall k :: 0 <= k < |contents| ==> contents[k] == buf[Slot(tail, k, buf.Length)]
    }

    /** The number of steps from `from` forward to `to` around a ring of `length` slots. */
    static function Distance(from: nat, to: nat, length: nat): (n: nat)
      requires from < length && to < length
      ensures n < length
      ensures (from + n) % length == to
    {
      if from <= to then to - from else to + length - from
    }

    /** The slot `k` places after `from`. */
    static function Slot(from: nat, k: nat, length: nat): (s: nat)
      requires from < length && k < length
      ensures s < length && s == (from + k) % length
    {
      if from + k < length then from + k else from + k - length
    }

    /** `fifo_next`: the slot after `pos`, wrapping to 0 after the last one. */
    function Next(pos: nat): (r: nat)
      requires 0 < buf.Length && pos < buf.Length
      reads this
      ensures r < buf.Length
      ensures r == if pos + 1 == buf.Length then 0 else pos + 1
    {
      (pos + 1) % buf.Length
    }

    /** `fifo_init`: an empty ring over `b`. */
    constructor Init(b: array<byte>)
      requires b.Length > 0
      ensures Valid() && fresh(this)
      ensures buf == b && head == 0 && tail == 0 && contents == []
    {
      buf := b;
      head := 0;
      tail := 0;
      contents := [];
    }

    /** `fifo_full`: the ring holds `length - 1` bytes. */
    method Full() returns (full: bool)
      requires Valid()
      ensures full <==> |contents| == buf.Length - 1
    {
      full := Next(head) == tail;
    }

    /** `fifo_empty`: the ring holds no byte. */
    method Empty() returns (empty: bool)
      requires Valid()
      ensures empty <==> contents == []
    {
      empty := head == tail;
    }

    /**
     * `fifo_get`: removes and returns the oldest byte; on an empty ring the
     * kernel assertion halts (`panicked`) and nothing changes.
     */
    method Get() returns (b: byte, panicked: bool)
      requires Valid()
      modifies this
      ensures Valid() && buf == old(buf) && head == old(head)
      ensures panicked <==> old(contents) == []
      ensures panicked ==> tail == old(tail) && contents == old(contents)
      ensures !panicked ==> b == old(contents[0]) && contents == old(contents[1..])
    {
      if head == tail {
        return 0, true;
      }
      b, panicked := buf[tail], false;
      tail := Next(tail);
      contents := contents[1..];
    }

    /** `fifo_put`: drops the oldest bytes while full, then appends `b`. */
    method Put(b: byte)
      requires Valid() && buf.Length > 1
      modifies this, buf
      ensures Valid() && buf == old(buf)
      ensures contents == (if |old(contents)| == buf.Length - 1 then old(contents[1..]) else old(contents)) + [b]
    {
      var full := Full();
      while full
        invariant Valid() && buf == old(buf)
        invariant contents == if |old(contents)| == buf.Length - 1 && !full then old(contents[1..]) else old(contents)
        decreases full
      {
        var _, _ := Get();
        full := Full();
      }
      buf[head] := b;
      head := Next(head);
      contents := contents + [b];
    }
  }
}
