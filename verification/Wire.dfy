/** The 8-byte big-endian encoding of signed 64-bit sizes (src/utils/net_utils.c, tests/utils/mock_server.py). */
module Wire {
  import opened Bytes
  import opened Numerals

  const TWO_31 := 0x8000_0000
  const TWO_32 := 0x1_0000_0000
  const TWO_63 := 0x8000_0000_0000_0000
  const TWO_64 := 0x1_0000_0000_0000_0000

  type int64 = n: int | -TWO_63 <= n < TWO_63

  /** The unsigned value of a big-endian byte string. */
  function Unsigned(s: bytes): nat {
    if s == [] then 0 else Unsigned(s[..|s| - 1]) * 256 + s[|s| - 1]
  }

  /** The k low-order bytes of n, most significant first; n may be negative (two's complement). */
  function BigEndian(n: int, k: nat): (s: bytes)
    ensures |s| == k
    decreases k
  {
    if k == 0 then [] else BigEndian(n / 256, k - 1) + [n % 256]
  }

  function Signed(u: nat): int {
    if u >= TWO_63 then u - TWO_64 else u
  }

  function EncodeSize(n: int): (s: bytes)
    ensures |s| == 8
  {
    BigEndian(n, 8)
  }

  function DecodeSize(s: bytes): int
    requires |s| == 8
  {
    Signed(Unsigned(s))
  }

  /** What read_int of the mock server makes of 8 bytes: values from 2^32 on are taken as negative. */
  function ServerInt(s: bytes): int
    requires |s| == 8
  {
    var val := Unsigned(s);
    if val >= TWO_32 then val - TWO_64 else val
  }

  function Pow256(k: nat): nat {
    if k == 0 then 1 else 256 * Pow256(k - 1)
  }

  /** Two's complement: a negative value stands for itself plus 256^k. */
  function Wrapped(n: int, k: nat): int {
    if n < 0 then n + Pow256(k) else n
  }

  lemma {:induction false} BigEndianValue(n: int, k: nat)
    requires 0 <= n + Pow256(k) && n < Pow256(k)
    ensures Unsigned(BigEndian(n, k)) == Wrapped(n, k)
    decreases k
  {
    if k > 0 {
      BigEndianValue(n / 256, k - 1);
      var s := BigEndian(n, k);
      assert s[..|s| - 1] == BigEndian(n / 256, k - 1);
    }
  }

  lemma {:induction false} UnsignedBelow(s: bytes)
    ensures Unsigned(s) < Pow256(|s|)
  {
    if s != [] {
      UnsignedBelow(s[..|s| - 1]);
    }
  }

  lemma {:induction false} BigEndianUnsigned(s: bytes, n: int)
    requires 0 <= n + Pow256(|s|) && n < Pow256(|s|) && Wrapped(n, |s|) == Unsigned(s)
    ensures BigEndian(n, |s|) == s
  {
    if s != [] {
      var t := s[..|s| - 1];
      UnsignedBelow(t);
      BigEndianUnsigned(t, n / 256);
    }
  }

  lemma {:induction false} UnsignedIs(s: bytes)
    ensures Unsigned(s) == PlaceValue(s, 256)
  {
    if s != [] {
      var front, b := s[..|s| - 1], s[|s| - 1];
      UnsignedIs(front);
      PlaceValueSnoc(front, b, 256);
      assert s == front + [b];
    }
  }

  /** A size is written as eight bytes in base 256, the most significant first; a negative one as itself plus 2^64. */
  lemma SizeWritten(n: int64)
    ensures PlaceValue(EncodeSize(n), 256) == if n < 0 then n + TWO_64 else n
  {
    PowerEight();
    BigEndianValue(n, 8);
    UnsignedIs(EncodeSize(n));
  }

  /** Eight bytes are read as the number in base 256 that they spell, less 2^64 from 2^63 on; the mock server takes off
      2^64 from 2^32 on. */
  lemma SizeRead(s: bytes)
    requires |s| == 8
    ensures var n := PlaceValue(s, 256);
            && DecodeSize(s) == (if n < TWO_63 then n else n - TWO_64)
            && ServerInt(s) == (if n < TWO_32 then n else n - TWO_64)
  {
    UnsignedIs(s);
  }

  /** send_size and read_size are inverse, in both directions, on all signed 64-bit values. */
  lemma SizeRoundTrip(n: int64)
    ensures DecodeSize(EncodeSize(n)) == n
    ensures 0 <= n < TWO_32 || n == -1 ==> ServerInt(EncodeSize(n)) == n
  {
    PowerEight();
    BigEndianValue(n, 8);
  }

  lemma PowerEight()
    ensures Pow256(8) == TWO_64
  {
    assert Pow256(4) == TWO_32;
    assert Pow256(6) == 65536 * TWO_32;
  }

  lemma SizeBytesRoundTrip(s: bytes)
    requires |s| == 8
    ensures EncodeSize(DecodeSize(s)) == s && -TWO_63 <= DecodeSize(s) < TWO_63
  {
    UnsignedBelow(s);
    PowerEight();
    BigEndianUnsigned(s, DecodeSize(s));
  }

  /** Sizes the mock server reads correctly are exactly those below 2^32 and the directory mark: a file of 2^32
      bytes is announced to it as a negative size. */
  lemma ServerIntLimit(n: int64)
    ensures ServerInt(EncodeSize(n)) == n <==> n < TWO_32
  {
    PowerEight();
    BigEndianValue(n, 8);
  }
}
