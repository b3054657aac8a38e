/** Bytes, C-string helpers and the small Option/Result wrappers shared by the
    HM-10 driver model. */
module Bytes {

  /** One `char` of the driver's buffers (unsigned on the ARM GCC target). */
  type Byte = b: int | 0 <= b < 256

  const Nul: Byte := 0
  const Lf: Byte := 10
  const Cr: Byte := 13

  /** The bytes that end a field copied out of a response: NUL, CR or LF. */
  predicate IsDelimiter(b: Byte) {
    b == Nul || b == Cr || b == Lf
  }

  predicate NulFree(s: seq<Byte>) {
    forall i :: 0 <= i < |s| ==> s[i] != Nul
  }

  /** The characters of a C string, without its terminator. */
  type CStr = s: seq<Byte> | NulFree(s)

  /** The ASCII bytes of a string literal. */
  function Ascii(s: string): (r: seq<Byte>)
    requires forall i :: 0 <= i < |s| ==> s[i] < 128 as char
    ensures |r| == |s|
    ensures forall i :: 0 <= i < |s| ==> r[i] == s[i] as int
  {
    if s == [] then [] else [s[0] as int] + Ascii(s[1..])
  }

  predicate IsPrefix(p: seq<Byte>, s: seq<Byte>) {
    |p| <= |s| && s[..|p|] == p
  }

  datatype Option<+T> = None | Some(value: T)

  datatype Result<+T, +E> = Ok(value: T) | Err(error: E)
}
