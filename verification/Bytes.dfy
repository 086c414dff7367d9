/** Bytes, C strings and the few list operations the other modules share. */
module Bytes {
  type byte = x: int | 0 <= x < 256
  type bytes = seq<byte>

  const NUL: byte := 0
  const LF: byte := 10
  const CR: byte := 13
  const PERCENT: byte := 37
  const DOT: byte := 46
  const SLASH: byte := 47

  datatype Option<+T> = None | Some(value: T)

  /** The bytes of a text literal. */
  function Ascii(s: string): (b: bytes)
    ensures |b| == |s| && forall i | 0 <= i < |s| :: b[i] == s[i] as int % 256
  {
    seq(|s|, i requires 0 <= i < |s| => s[i] as int % 256)
  }

  /** No terminator inside: such a sequence is the content of a C string. */
  predicate NulFree(s: bytes) {
    forall i | 0 <= i < |s| :: s[i] != NUL
  }

  /** The C string that starts at the beginning of a buffer. */
  function CStr(buf: bytes): (s: bytes)
    ensures NulFree(s) && s <= buf
    ensures |s| < |buf| ==> buf[|s|] == NUL
  {
    if buf == [] || buf[0] == NUL then [] else [buf[0]] + CStr(buf[1..])
  }

  /** A NUL-free prefix that is followed by a terminator is the C string of the buffer. */
  lemma {:induction false} CStrIs(buf: bytes, s: bytes)
    requires NulFree(s) && s <= buf
    requires |s| < |buf| ==> buf[|s|] == NUL
    ensures CStr(buf) == s
  {
    if s != [] {
      CStrIs(buf[1..], s[1..]);
    }
  }

  function Min(a: int, b: int): int {
    if a < b then a else b
  }

  lemma {:induction false} StringEnds(buf: bytes)
    requires NUL in buf
    ensures |CStr(buf)| < |buf| && buf[|CStr(buf)|] == NUL
  {
    if buf[0] != NUL {
      StringEnds(buf[1..]);
    }
  }

  predicate Distinct<T(==)>(s: seq<T>) {
    forall i, j | 0 <= i < j < |s| :: s[i] != s[j]
  }

  lemma SliceJoin(s: bytes, i: nat, j: nat, k: nat)
    requires i <= j <= k <= |s|
    ensures s[i..j] + s[j..k] == s[i..k]
  {
  }
}
