/** The circular receive framer of `HM10::rx_compltd` (hm10.cpp:55-99): the DMA
    engine fills a ring continuously; on every idle-line interrupt the bytes
    that arrived since the previous read cursor are copied into the message
    buffer as one NUL-terminated frame, and the read cursor moves to the
    current write position. Cursors are indices into the ring, 0 .. capacity. */
module Framer {
  import opened Bytes

  /** The ring position the DMA engine will write next, derived from its
      bytes-remaining counter, which never exceeds the transfer length. */
  function WriteIndex(capacity: nat, remaining: nat): (w: nat)
    requires remaining <= capacity
    ensures w <= capacity
  {
    capacity - remaining
  }

  /** The ring has wrapped since the previous frame when the read cursor is past the write cursor. */
  predicate Wrapped(read: nat, write: nat) {
    read > write
  }

  /** The bytes that arrived between `read` and `write`: a plain span, or the
      tail of the ring followed by its head when the DMA rolled over. */
  function Extract(ring: seq<Byte>, read: nat, write: nat): (frame: seq<Byte>)
    requires 0 < |ring| && read <= |ring| && write <= |ring|
    ensures !Wrapped(read, write) ==> |frame| == write - read
    ensures Wrapped(read, write) ==> |frame| == (|ring| - read) + write < |ring|
    ensures forall i :: 0 <= i < |frame| ==> frame[i] == ring[(read + i) % |ring|]
  {
    var frame := if !Wrapped(read, write) then ring[read..write] else ring[read..] + ring[..write];
    assert forall i :: 0 <= i < |frame| ==> frame[i] == ring[(read + i) % |ring|] by {
      forall i | 0 <= i < |frame|
        ensures frame[i] == ring[(read + i) % |ring|]
      {
        if read + i < |ring| {
          ModBelow(read + i, |ring|);
        } else {
          ModOnce(read + i, |ring|);
        }
      }
    }
    frame
  }

  /** The message buffer after a frame is stored in it: the frame, a NUL, and
      whatever the buffer held beyond that from earlier frames. */
  function Framed(msg: seq<Byte>, frame: seq<Byte>): (out: seq<Byte>)
    requires |frame| < |msg|
    ensures |out| == |msg| && out[|frame|] == Nul
  {
    frame + [Nul] + msg[|frame| + 1..]
  }

  /** The two `memcpy` calls and the terminator store of hm10.cpp:61-94.
      In the wrapped case the prefix runs from the read cursor to the
      physical end of the ring, as the comment at hm10.cpp:77 says; the
      expression at hm10.cpp:78 (`end - start`) instead underflows, see
      `PrefixLenAsWritten`. */
  method CopyFrame(ring: seq<Byte>, read: nat, write: nat, msg: seq<Byte>) returns (out: seq<Byte>, len: nat)
    requires 0 < |ring| && read <= |ring| && write <= |ring| && |ring| < |msg|
    ensures len == |Extract(ring, read, write)| < |msg|
    ensures out == Framed(msg, Extract(ring, read, write))
  {
    ghost var frame := Extract(ring, read, write);
    if read <= write {
      len := write - read;
      out := MemCopy(msg, 0, ring, read, len);
      assert frame == ring[read..write];
    } else {
      var prefixLen := |ring| - read;
      var suffixLen := write;
      out := MemCopy(msg, 0, ring, read, prefixLen);
      assert out[..prefixLen] == ring[read..];
      ghost var head := out[..prefixLen];
      out := MemCopy(out, prefixLen, ring, 0, suffixLen);
      len := prefixLen + suffixLen;
      assert out[..prefixLen] == head;
      assert out[prefixLen..len] == ring[..write];
      assert out[..len] == out[..prefixLen] + out[prefixLen..len];
      assert frame == ring[read..] + ring[..write];
    }
    assert out[..len] == frame;
    assert out[len + 1..] == msg[len + 1..];
    out := out[len := Nul];
    assert out == out[..len] + [Nul] + out[len + 1..];
  }

  /** `memcpy(&dst[at], &src[from], count)`, one byte at a time. */
  method MemCopy(dst: seq<Byte>, at: nat, src: seq<Byte>, from: nat, count: nat) returns (out: seq<Byte>)
    requires at + count <= |dst| && from + count <= |src|
    ensures |out| == |dst|
    ensures out[..at] == dst[..at]
    ensures out[at..at + count] == src[from..from + count]
    ensures out[at + count..] == dst[at + count..]
  {
    out := dst;
    var i := 0;
    while i < count
      invariant 0 <= i <= count
      invariant |out| == |dst|
      invariant forall k :: 0 <= k < at ==> out[k] == dst[k]
      invariant forall k :: at <= k < at + i ==> out[k] == src[from + k - at]
      invariant forall k :: at + i <= k < |out| ==> out[k] == dst[k]
    {
      out := out[at + i := src[from + i]];
      i := i + 1;
    }
    var copied := out[at..at + count];
    assert forall k :: 0 <= k < count ==> copied[k] == src[from + k];
  }

  /** The DMA engine's side: `data` written circularly into the ring starting
      at slot `pos`, slot (pos + j) mod capacity receiving data[j]. */
  function DmaWrite(ring: seq<Byte>, pos: nat, data: seq<Byte>): (r: seq<Byte>)
    requires pos < |ring| && |data| <= |ring|
    ensures |r| == |ring|
  {
    seq(|ring|, k requires 0 <= k < |ring| =>
      if (k - pos) % |ring| < |data| then data[(k - pos) % |ring|] else ring[k])
  }

  /** Framing correctness: whatever arrived since the previous frame, fewer
      bytes than the ring holds, is delivered exactly and in order, across the
      wrap-around too. The write index is where the DMA engine stopped. */
  lemma {:induction false} FrameIsWhatArrived(ring: seq<Byte>, read: nat, data: seq<Byte>)
    requires 0 < |ring| && read <= |ring| && |data| < |ring|
    ensures Extract(DmaWrite(ring, read % |ring|, data), read, (read + |data|) % |ring|) == data
  {
    var n := |ring|;
    var pos := read % n;
    var ring' := DmaWrite(ring, pos, data);
    var write := (read + |data|) % n;
    if read + |data| < n {
      ModBelow(read + |data|, n);
    } else {
      ModOnce(read + |data|, n);
    }
    var frame := Extract(ring', read, write);
    assert |frame| == |data|;
    forall i | 0 <= i < |data|
      ensures frame[i] == data[i]
    {
      var k := (read + i) % n;
      assert frame[i] == ring'[k];
      if read == n {
        ModOnce(read, n);
        ModOnce(read + i, n);
        ModBelow(i, n);
        assert (k - pos) % n == i;
      } else {
        ModBelow(read, n);
        if read + i < n {
          ModBelow(read + i, n);
          ModBelow(i, n);
        } else {
          ModOnce(read + i, n);
          ModShiftDown(i, n);
        }
        assert (k - pos) % n == i;
      }
    }
  }

  /** `size_t` on the 32-bit Cortex-M target: unsigned arithmetic wraps modulo this. */
  const SizeMax: nat := 0x1_0000_0000

  /** The wrapped-case prefix length as hm10.cpp:78 writes it: the pointer
      difference `end - start`, negative when wrapped, stored in a `size_t`. */
  function PrefixLenAsWritten(read: nat, write: nat): nat {
    (write - read) % SizeMax
  }

  /** As written, the wrapped-case prefix length exceeds the whole ring, so
      the first `memcpy` at hm10.cpp:84 would run far past it. */
  lemma PrefixLenAsWrittenOverruns(capacity: nat, read: nat, write: nat)
    requires Wrapped(read, write) && read <= capacity < SizeMax / 2
    ensures PrefixLenAsWritten(read, write) > capacity
    ensures PrefixLenAsWritten(read, write) != capacity - read
  {
    ModShiftDown(write - read + SizeMax, SizeMax);
  }

  /** A concrete wrap-around: a 16-byte ring, the
      read cursor at 14 and the write cursor at 4. The comment's prefix has
      2 bytes; the code's has 4294967286. */
  lemma PrefixLenAsWrittenExample()
    ensures PrefixLenAsWritten(14, 4) == 4294967286
    ensures |Extract(seq(16, k => 0), 14, 4)| == 6
  {
  }

  lemma ModBelow(x: int, n: int)
    requires 0 <= x < n
    ensures x % n == x
  {
  }

  lemma ModShiftDown(x: int, n: int)
    requires 0 <= x < n
    ensures (x - n) % n == x
  {
    ModBelow(x, n);
    assert (x - n) % n == x % n;
  }

  lemma ModOnce(x: int, n: int)
    requires 0 < n <= x < 2 * n
    ensures x % n == x - n
  {
    ModBelow(x - n, n);
    assert (x - n) % n == x % n;
  }
}
