/** The response helpers of the driver: `compare_with_resp` (hm10.cpp:158-166)
    and `copystr_from_resp` (hm10.cpp:136-155), both reading the message
    buffer that the framer fills. */
module Responses {
  import opened Bytes

  /** C's `strncmp(a, b, n) == 0`: compare at most `n` characters, stopping
      early at the first difference or at a shared terminator. Both arguments
      hold a terminator, so the scan never leaves them. */
  function StrNEqual(a: seq<Byte>, b: seq<Byte>, n: nat): bool
    requires Nul in a && Nul in b
    decreases n
  {
    if n == 0 then true
    else if a[0] != b[0] then false
    else if a[0] == Nul then true
    else
      assert Nul in a[1..] && Nul in b[1..] by {
        var i :| 0 <= i < |a| && a[i] == Nul;
        assert a[1..][i - 1] == Nul;
        var j :| 0 <= j < |b| && b[j] == Nul;
        assert b[1..][j - 1] == Nul;
      }
      StrNEqual(a[1..], b[1..], n - 1)
  }

  /** `strncmp` against a C string over its own length is a prefix test,
      whatever follows the terminator in `a`. */
  lemma {:induction false} StrNEqualIsPrefix(a: seq<Byte>, p: CStr)
    requires Nul in a
    ensures StrNEqual(a, p + [Nul], |p|) <==> IsPrefix(p, a)
    decreases |p|
  {
    if |p| > 0 {
      var b := p + [Nul];
      if a[0] == b[0] {
        assert a[0] != Nul;
        assert b[1..] == p[1..] + [Nul];
        StrNEqualIsPrefix(a[1..], p[1..]);
        if IsPrefix(p[1..], a[1..]) {
          assert a[..|p|] == [a[0]] + a[1..][..|p| - 1];
        }
        if IsPrefix(p, a) {
          assert a[1..][..|p| - 1] == a[..|p|][1..];
        }
      }
    }
  }

  /** `compare_with_resp(str)`: the message in `msg`, up to its terminator,
      starts with `pattern`, byte for byte. */
  function CompareWithResp(msg: seq<Byte>, pattern: CStr): (r: bool)
    requires Nul in msg
    ensures r <==> IsPrefix(pattern, msg)
    ensures r ==> forall i :: 0 <= i < |pattern| ==> msg[i] != Nul
  {
    StrNEqualIsPrefix(msg, pattern);
    StrNEqual(msg, pattern + [Nul], |pattern|)
  }

  /** The first NUL, CR or LF at or after `from`; None when the scan would run
      off the end of `buf`. */
  function FirstDelimiter(buf: seq<Byte>, from: nat): (r: Option<nat>)
    ensures r.Some? ==> from <= r.value < |buf| && IsDelimiter(buf[r.value])
    ensures r.Some? ==> forall k :: from <= k < r.value ==> !IsDelimiter(buf[k])
    ensures r.None? <==> forall k :: from <= k < |buf| ==> !IsDelimiter(buf[k])
    decreases |buf| - from
  {
    if from >= |buf| then None
    else if IsDelimiter(buf[from]) then Some(from)
    else FirstDelimiter(buf, from + 1)
  }

  /** The two ways `copystr_from_resp` leaves its buffers. */
  datatype CopyFault = ReadsPastBuffer | WritesPastDestination

  /** `copystr_from_resp(offset, destination)` as written: copies characters
      from msg[offset] on into `dst` until a NUL, CR or LF, with no bound on
      either side. The result is the new content of `dst`; it is not
      terminated, so bytes of `dst` past the copy keep their old values. The
      scan reads msg[offset + i] and then writes dst[i], so whichever buffer
      it leaves first is the fault. */
  function CopyStrFromResp(msg: seq<Byte>, offset: nat, dst: seq<Byte>): (r: Result<seq<Byte>, CopyFault>)
    ensures r.Ok? <==>
      FirstDelimiter(msg, offset).Some? && FirstDelimiter(msg, offset).value - offset <= |dst|
    ensures r.Ok? ==>
      var n := FirstDelimiter(msg, offset).value - offset;
      |r.value| == |dst| && r.value[..n] == msg[offset..offset + n] && r.value[n..] == dst[n..]
    ensures r == Err(ReadsPastBuffer) ==> |msg| - offset <= |dst|
  {
    match FirstDelimiter(msg, offset)
    case Some(j) =>
      if j - offset > |dst| then Err(WritesPastDestination)
      else Ok(msg[offset..j] + dst[j - offset..])
    case None =>
      if |msg| - offset > |dst| then Err(WritesPastDestination)
      else Err(ReadsPastBuffer)
  }

  /** How many characters a bounded copy takes from msg[offset..]: it stops
      at a delimiter, at the frame's end `len`, or when `room` runs out. */
  function BoundedSpan(msg: seq<Byte>, len: nat, offset: nat, room: nat): (n: nat)
    requires len <= |msg|
    ensures n <= room
    ensures n > 0 ==> offset + n <= len
    ensures forall k :: offset <= k < offset + n ==> !IsDelimiter(msg[k])
    ensures n == room || offset + n >= len || IsDelimiter(msg[offset + n])
    decreases room
  {
    if room == 0 || offset >= len || IsDelimiter(msg[offset]) then 0
    else 1 + BoundedSpan(msg, len, offset + 1, room - 1)
  }

  /** The copy `copystr_from_resp` is evidently meant to make: the characters
      from msg[offset] up to the first delimiter, never reading past the
      frame's stored length `len` and never writing past the end of `dst`.
      Like the original it does not terminate `dst`. */
  function CopyStrBounded(msg: seq<Byte>, len: nat, offset: nat, dst: seq<Byte>): (r: seq<Byte>)
    requires len <= |msg|
    ensures |r| == |dst|
    ensures var n := BoundedSpan(msg, len, offset, |dst|);
      (forall k :: 0 <= k < n ==> r[k] == msg[offset + k]) && r[n..] == dst[n..]
  {
    var n := BoundedSpan(msg, len, offset, |dst|);
    if n == 0 then dst else msg[offset..offset + n] + dst[n..]
  }

  /** Where the original copy stays inside both buffers and starts inside the
      frame, the bounded copy is the same copy. */
  lemma BoundedAgreesWithAsWritten(msg: seq<Byte>, len: nat, offset: nat, dst: seq<Byte>)
    requires len < |msg| && msg[len] == Nul && offset <= len
    requires CopyStrFromResp(msg, offset, dst).Ok?
    ensures CopyStrFromResp(msg, offset, dst).value == CopyStrBounded(msg, len, offset, dst)
  {
    var j := FirstDelimiter(msg, offset).value;
    var n := BoundedSpan(msg, len, offset, |dst|);
    assert IsDelimiter(msg[len]);
    assert IsDelimiter(msg[j]);
    assert offset + n == j;
  }

  /** When more characters than `dst` holds follow `offset` before any
      delimiter, the original copy writes past the end of `dst`, while the
      bounded copy fills `dst` and stops. */
  lemma {:induction false} OverlongFieldOverflows(msg: seq<Byte>, len: nat, offset: nat, dst: seq<Byte>)
    requires len <= |msg| && offset + |dst| < len
    requires forall k :: offset <= k <= offset + |dst| ==> !IsDelimiter(msg[k])
    ensures CopyStrFromResp(msg, offset, dst) == Err(WritesPastDestination)
    ensures CopyStrBounded(msg, len, offset, dst) == msg[offset..offset + |dst|]
  {
    var n := BoundedSpan(msg, len, offset, |dst|);
    assert !IsDelimiter(msg[offset + n]);
  }

  /** The connection notice "OK+CONN:" followed by 16 characters, one more
      than the MAC field holds. */
  lemma OverlongNoticeOverflows()
    ensures var msg := Ascii("OK+CONN:") + seq(16, _ => 0x41) + [Nul];
      CopyStrFromResp(msg, 8, seq(15, _ => Nul)) == Err(WritesPastDestination)
  {
    var msg := Ascii("OK+CONN:") + seq(16, _ => 0x41) + [Nul];
    assert forall k :: 8 <= k < 24 ==> msg[k] == 0x41;
    OverlongFieldOverflows(msg, 24, 8, seq(15, _ => Nul));
  }

  /** A bare "OK+CONN" (7 characters) puts the MAC offset 8 past the
      terminator at 7: the original copy then returns bytes left in the
      buffer by an earlier, longer message. */
  lemma BareNoticeCopiesStaleBytes()
    ensures var stale := seq(12, _ => 0x41);
      var msg := Ascii("OK+CONN") + [Nul] + stale + [Nul];
      var mac := seq(15, _ => Nul);
      CopyStrFromResp(msg, 8, mac) == Ok(stale + seq(3, _ => Nul))
      && CopyStrBounded(msg, 7, 8, mac) == mac
  {
    var stale := seq(12, _ => 0x41);
    var msg := Ascii("OK+CONN") + [Nul] + stale + [Nul];
    assert forall k :: 8 <= k < 20 ==> msg[k] == 0x41;
    assert IsDelimiter(msg[20]);
    assert FirstDelimiter(msg, 8) == Some(20);
    assert msg[8..20] == stale;
    var mac := seq(15, _ => Nul);
    assert mac[12..] == seq(3, _ => Nul);
    assert CopyStrFromResp(msg, 8, mac) == Ok(msg[8..20] + mac[12..]);
    assert BoundedSpan(msg, 7, 8, 15) == 0;
  }
}
