/** Percent-encoding of paths as file URLs (section 2.1 of RFC 3986): url_encode, hex2char and url_decode
    (src/utils/utils.c). */
module UrlCodec {
  import opened Bytes

  /** "file://" */
  const SCHEME: bytes := [102, 105, 108, 101, 58, 47, 47]
  const UINT_RANGE := 0x1_0000_0000

  /** a-z, @ and A-Z, & to :, and _ = ! ~ */
  predicate Plain(c: byte) {
    97 <= c <= 122 || 64 <= c <= 90 || 38 <= c <= 58 || c == 95 || c == 61 || c == 33 || c == 126
  }

  function UpperHex(d: nat): byte
    requires d < 16
  {
    if d < 10 then 48 + d else 55 + d
  }

  /** hex2char; -1 for anything but a hexadecimal digit. */
  function HexValue(h: byte): int {
    if 48 <= h <= 57 then h - 48
    else if 65 <= h <= 70 then h - 55
    else if 97 <= h <= 102 then h - 87
    else -1
  }

  function EncodeByte(c: byte): bytes {
    if Plain(c) then [c] else [PERCENT, UpperHex(c / 16), UpperHex(c % 16)]
  }

  function Encode(s: bytes): bytes {
    if s == [] then [] else EncodeByte(s[0]) + Encode(s[1..])
  }

  /** The bytes an encoded text stands for; None when an escape is not two hexadecimal digits. */
  function Unescape(t: bytes): Option<bytes> {
    if t == [] then Some([])
    else if t[0] == PERCENT then
      if |t| < 3 || HexValue(t[1]) < 0 || HexValue(t[2]) < 0 then None
      else Before([HexValue(t[1]) * 16 + HexValue(t[2])], Unescape(t[3..]))
    else Before([t[0]], Unescape(t[1..]))
  }

  function Before(s: bytes, rest: Option<bytes>): Option<bytes> {
    match rest
    case None => None
    case Some(t) => Some(s + t)
  }

  /** A file URL with something after the scheme. */
  function Decode(line: bytes): Option<bytes> {
    if SCHEME <= line && line != SCHEME then Unescape(line[|SCHEME|..]) else None
  }

  const UPPER_DIGITS := "0123456789ABCDEF"
  const LOWER_DIGITS := "0123456789abcdef"

  predicate LetterOrDigit(c: char) {
    'A' <= c <= 'Z' || 'a' <= c <= 'z' || '0' <= c <= '9'
  }

  /** The characters of URIs: the unreserved and the reserved ones of sections 2.3 and 2.2 of RFC 3986, and the percent
      sign. */
  predicate UriCharacter(c: char) {
    LetterOrDigit(c) || c in "-._~" || c in ":/?#[]@" || c in "!$&'()*+,;=" || c == '%'
  }

  /** Letters, digits and a few other characters stand for themselves; every other byte is escaped with two upper-case
      digits. */
  lemma EncodeOne(c: byte)
    ensures Encode([c])
         == if LetterOrDigit(c as char) || c as char in "-._~/" || c as char in "@&'()*+,:=!" then [c]
            else ['%' as int, UPPER_DIGITS[c / 16] as int, UPPER_DIGITS[c % 16] as int]
  {
    UpperDigit(c / 16);
    UpperDigit(c % 16);
    assert [c][1..] == [] && Encode([]) == [];
    assert Encode([c]) == EncodeByte(c);
    KeptCharacters(c);
  }

  lemma KeptCharacters(c: byte)
    ensures Plain(c) <==> LetterOrDigit(c as char) || c as char in "-._~/" || c as char in "@&'()*+,:=!"
  {
  }

  lemma UpperDigit(d: nat)
    requires d < 16
    ensures UpperHex(d) == UPPER_DIGITS[d] as int
  {
  }

  /** Nothing but characters of URIs is written: no space, no control byte, and no byte from 127 on. */
  lemma {:induction false} EncodedAllowed(s: bytes)
    ensures forall i | 0 <= i < |Encode(s)| :: UriCharacter(Encode(s)[i] as char) && 32 < Encode(s)[i] < 127
  {
    if s != [] {
      EncodedAllowed(s[1..]);
      var first, rest := EncodeByte(s[0]), Encode(s[1..]);
      forall i | 0 <= i < |first|
        ensures UriCharacter(first[i] as char) && 32 < first[i] < 127
      {
        CharacterAllowed(first[i]);
      }
      assert forall i | |first| <= i < |Encode(s)| :: Encode(s)[i] == rest[i - |first|];
    }
  }

  lemma CharacterAllowed(b: byte)
    requires Plain(b) || b == PERCENT || 48 <= b <= 57 || 65 <= b <= 70
    ensures UriCharacter(b as char) && 32 < b < 127
  {
    KeptCharacters(b);
  }

  /** The value of a hexadecimal digit is its position among the digits, in either case, and nothing else is one. */
  lemma HexDigits(h: byte, d: nat)
    requires d < 16
    ensures HexValue(h) == d <==> h == UPPER_DIGITS[d] as int || h == LOWER_DIGITS[d] as int
  {
  }

  /** Whatever the case of its digits, an escape stands for its byte; what follows stands for itself. */
  lemma EscapeStandsFor(c: byte, a: byte, b: byte, rest: bytes)
    requires a as char in {UPPER_DIGITS[c / 16], LOWER_DIGITS[c / 16]}
    requires b as char in {UPPER_DIGITS[c % 16], LOWER_DIGITS[c % 16]}
    ensures Unescape([PERCENT, a, b] + rest) == Before([c], Unescape(rest))
  {
    HexDigits(a, c / 16);
    HexDigits(b, c % 16);
    var t := [PERCENT, a, b] + rest;
    assert t[0] == PERCENT && t[1] == a && t[2] == b && t[3..] == rest;
  }

  ghost predicate HexDigit(h: byte) {
    exists d: nat :: d < 16 && h as char in {UPPER_DIGITS[d], LOWER_DIGITS[d]}
  }

  /** A percent sign without two hexadecimal digits after it is an error, and any other byte stands for itself. */
  lemma NoEscape(t: bytes)
    requires t != []
    ensures t[0] != PERCENT ==> Unescape(t) == Before([t[0]], Unescape(t[1..]))
    ensures t[0] == PERCENT && Unescape(t).Some? ==>
      |t| >= 3 && HexDigit(t[1]) && HexDigit(t[2])
  {
    hide HexDigit;
    if t[0] == PERCENT && Unescape(t).Some? {
      DigitFound(t[1]);
      DigitFound(t[2]);
    }
  }

  lemma DigitFound(h: byte)
    requires HexValue(h) >= 0
    ensures HexDigit(h)
  {
    HexDigits(h, HexValue(h));
    assert h as char in {UPPER_DIGITS[HexValue(h)], LOWER_DIGITS[HexValue(h)]};
  }

  /** Decoding takes texts that begin with "file://" and go on after it, and no others. */
  lemma FileUrls(line: bytes)
    ensures Decode(line)
         == if Ascii("file://") <= line && |line| > 7 then Unescape(line[7..]) else None
  {
    hide Ascii, Unescape;
    SchemeSpelled();
  }

  lemma SchemeSpelled()
    ensures SCHEME == Ascii("file://")
  {
    hide Ascii;
  }

  lemma EncodeByteRoundTrip(c: byte, rest: bytes)
    ensures Unescape(EncodeByte(c) + rest) == Before([c], Unescape(rest))
    ensures forall b | b in EncodeByte(c) :: Plain(b) || b == PERCENT
  {
    var t := EncodeByte(c) + rest;
    if Plain(c) {
      assert t[1..] == rest;
    } else {
      assert t[3..] == rest && t[1] == UpperHex(c / 16) && t[2] == UpperHex(c % 16);
      assert HexValue(t[1]) == c / 16 && HexValue(t[2]) == c % 16;
    }
  }

  lemma {:induction false} UnescapeEncode(s: bytes)
    ensures Unescape(Encode(s)) == Some(s)
    ensures forall b | b in Encode(s) :: Plain(b) || b == PERCENT
    ensures |s| <= |Encode(s)| <= 3 * |s|
  {
    if s != [] {
      UnescapeEncode(s[1..]);
      EncodeByteRoundTrip(s[0], Encode(s[1..]));
      assert [s[0]] + s[1..] == s;
    }
  }

  /** Encoding a non-empty path and decoding its file URL gives the path back. The encoded text has no NUL and no
      line end, so it can stand on a line of its own. */
  lemma UrlRoundTrip(s: bytes)
    ensures s != [] ==> Decode(SCHEME + Encode(s)) == Some(s)
    ensures NulFree(SCHEME + Encode(s)) && LF !in SCHEME + Encode(s)
  {
    hide Encode, Unescape, Plain;
    UnescapeEncode(s);
    var line := SCHEME + Encode(s);
    assert line[..|SCHEME|] == SCHEME && line[|SCHEME|..] == Encode(s);
    OneLine(Encode(s));
  }

  lemma OneLine(t: bytes)
    requires forall b | b in t :: Plain(b) || b == PERCENT
    ensures NulFree(SCHEME + t) && LF !in SCHEME + t
  {
    forall i | 0 <= i < |SCHEME + t|
      ensures (SCHEME + t)[i] != NUL && (SCHEME + t)[i] != LF
    {
      if i >= |SCHEME| {
        assert (SCHEME + t)[i] == t[i - |SCHEME|] && t[i - |SCHEME|] in t;
      } else {
        assert (SCHEME + t)[i] == SCHEME[i];
        SchemeClean(i);
      }
    }
  }

  lemma SchemeClean(i: nat)
    requires i < |SCHEME|
    ensures SCHEME[i] > LF
  {
    assert SCHEME == [102, 105, 108, 101, 58, 47, 47];
  }

  /** Different paths have different encodings. */
  lemma EncodeInjective(s: bytes, t: bytes)
    requires Encode(s) == Encode(t)
    ensures s == t
  {
    UnescapeEncode(s);
    UnescapeEncode(t);
  }

  lemma EncodeAt(s: bytes, i: nat)
    requires i <= |s|
    ensures i == 0 ==> Encode(s[..i]) == []
    ensures i < |s| ==> Encode(s[..i + 1]) == Encode(s[..i]) + EncodeByte(s[i])
    ensures |Encode(s[..i])| <= |Encode(s)| && Encode(s[..i]) == Encode(s)[..|Encode(s[..i])|]
    ensures i == |s| ==> Encode(s[..i]) == Encode(s)
  {
    EncodeCat(s[..i], s[i..]);
    assert s == s[..i] + s[i..];
    if i < |s| {
      EncodeCat(s[..i], [s[i]]);
      assert s[..i + 1] == s[..i] + [s[i]] && [s[i]][1..] == [];
      assert Encode([s[i]]) == EncodeByte(s[i]) + Encode([]);
    } else {
      assert s[..i] == s;
    }
  }

  lemma {:induction false} EncodeCat(a: bytes, b: bytes)
    ensures Encode(a + b) == Encode(a) + Encode(b)
  {
    if a == [] {
      assert a + b == b;
    } else {
      assert (a + b)[1..] == a[1..] + b;
      EncodeCat(a[1..], b);
    }
  }

  /** url_encode: the first pass counts, the second fills the buffer of exactly that size. The result is the length
      without the terminator. */
  method UrlEncode(str: bytes) returns (urlLen: nat, url: array<byte>)
    requires NulFree(str) && 3 * |str| + 1 < UINT_RANGE
    ensures fresh(url) && urlLen == |Encode(str)| && url[..] == Encode(str) + [NUL]
  {
    hide Encode, Plain, UpperHex;
    var size := CountEncoded(str);
    url := new byte[size];
    EncodeAt(str, 0);
    var p := 0;
    for i := 0 to |str|
      invariant p == |Encode(str[..i])| < url.Length
      invariant forall j | 0 <= j < p :: url[j] == Encode(str[..i])[j]
    {
      EncodeAt(str, i);
      EncodeAt(str, i + 1);
      var c := str[i];
      if Plain(c) {
        url[p] := c;
        p := p + 1;
      } else {
        url[p], url[p + 1], url[p + 2] := PERCENT, UpperHex(c / 16), UpperHex(c % 16);
        p := p + 3;
      }
    }
    EncodeAt(str, |str|);
    url[p] := NUL;
    return size - 1, url;
  }

  /** The first pass, with 1 for the terminator. */
  method CountEncoded(str: bytes) returns (urlLen: nat)
    ensures urlLen == |Encode(str)| + 1
  {
    hide Encode, Plain;
    urlLen := 1;
    EncodeAt(str, 0);
    for i := 0 to |str|
      invariant urlLen == |Encode(str[..i])| + 1
    {
      EncodeAt(str, i);
      if Plain(str[i]) {
        urlLen := urlLen + 1;
      } else {
        urlLen := urlLen + 3;
      }
    }
    EncodeAt(str, |str|);
  }

  /** The string that starts at off ends at end. */
  predicate LineAt(buf: bytes, off: nat, line: bytes) {
    && off + |line| < |buf| && NulFree(line) && buf[off + |line|] == NUL
    && forall j | 0 <= j < |line| :: buf[off + j] == line[j]
  }

  lemma UnescapeStep(t: bytes, r: nat)
    requires r < |t|
    ensures t[r] != PERCENT ==> Unescape(t[r..]) == Before([t[r]], Unescape(t[r + 1..]))
    ensures t[r] == PERCENT ==>
      Unescape(t[r..])
      == if r + 2 >= |t| || HexValue(t[r + 1]) < 0 || HexValue(t[r + 2]) < 0 then None
         else Before([HexValue(t[r + 1]) * 16 + HexValue(t[r + 2])], Unescape(t[r + 3..]))
  {
    assert t[r..][1..] == t[r + 1..];
    if r + 2 < |t| {
      assert t[r..][3..] == t[r + 3..];
    }
  }

  lemma BeforeTwice(a: bytes, b: bytes, rest: Option<bytes>)
    ensures Before(a, Before(b, rest)) == Before(a + b, rest)
  {
    if rest.Some? {
      assert a + (b + rest.value) == (a + b) + rest.value;
    }
  }

  lemma CharAt(buf: bytes, off: nat, line: bytes, i: nat)
    requires LineAt(buf, off, line) && i <= |line|
    ensures off + i < |buf| && buf[off + i] == if i < |line| then line[i] else NUL
    ensures i < |line| ==> line[i] != NUL
  {
  }

  /** strncmp("file://", str, 7) == 0 */
  method StartsWithScheme(buf: array<byte>, off: nat, ghost line: bytes) returns (r: bool)
    requires LineAt(buf[..], off, line)
    ensures r <==> SCHEME <= line
  {
    hide LineAt;
    var i := 0;
    while i < |SCHEME|
      invariant i <= |SCHEME| && i <= |line| && forall j | 0 <= j < i :: line[j] == SCHEME[j]
    {
      CharAt(buf[..], off, line, i);
      if buf[off + i] != SCHEME[i] {
        return false;
      }
      i := i + 1;
    }
    return true;
  }

  /** The string is decoded up to r, giving done. */
  ghost predicate Decoded(t: bytes, r: nat, done: bytes) {
    r <= |t| && |done| <= r && Unescape(t) == Before(done, Unescape(t[r..]))
  }

  lemma DecodedStart(t: bytes)
    ensures Decoded(t, 0, [])
  {
    assert t[0..] == t;
    if Unescape(t).Some? {
      assert [] + Unescape(t).value == Unescape(t).value;
    }
  }

  lemma DecodedPlain(t: bytes, r: nat, done: bytes)
    requires Decoded(t, r, done) && r < |t| && t[r] != PERCENT
    ensures Decoded(t, r + 1, done + [t[r]])
  {
    hide Unescape;
    UnescapeStep(t, r);
    BeforeTwice(done, [t[r]], Unescape(t[r + 1..]));
  }

  lemma DecodedEscape(t: bytes, r: nat, done: bytes)
    requires Decoded(t, r, done) && r < |t| && t[r] == PERCENT
    ensures if r + 2 >= |t| || HexValue(t[r + 1]) < 0 || HexValue(t[r + 2]) < 0 then Unescape(t) == None
            else Decoded(t, r + 3, done + [HexValue(t[r + 1]) * 16 + HexValue(t[r + 2])])
  {
    hide Unescape;
    UnescapeStep(t, r);
    if r + 2 < |t| && HexValue(t[r + 1]) >= 0 && HexValue(t[r + 2]) >= 0 {
      BeforeTwice(done, [HexValue(t[r + 1]) * 16 + HexValue(t[r + 2])], Unescape(t[r + 3..]));
    }
  }

  lemma DecodedEnd(t: bytes, done: bytes)
    requires Decoded(t, |t|, done)
    ensures Unescape(t) == Some(done)
  {
    assert t[|t|..] == [] && done + [] == done;
  }

  /** url_decode on the string at off, in place: the write index stays behind the read index, nothing before off and
      nothing from the end of the string on is touched, and the decoded bytes replace the string. The loop of the
      source looks at one character before its test, so there must be one after the scheme. */
  method UrlDecode(buf: array<byte>, off: nat, ghost line: bytes) returns (ok: bool, len: nat)
    requires LineAt(buf[..], off, line) && line != SCHEME
    modifies buf
    ensures ok <==> Decode(line).Some?
    ensures ok ==>
      && len == |Decode(line).value| < |line|
      && (forall j | 0 <= j < len :: buf[off + j] == Decode(line).value[j]) && buf[off + len] == NUL
    ensures forall j | 0 <= j < buf.Length && (j < off || j >= off + |line|) :: buf[j] == old(buf[j])
  {
    hide Unescape, HexValue, Before, NulFree, LineAt, Decoded;
    var schemeThere := StartsWithScheme(buf, off, line);
    if !schemeThere {
      return false, 0;
    }
    ghost var was, t := buf[..], line[|SCHEME|..];
    var ptr1, ptr2 := off, off + |SCHEME|;
    ghost var done: bytes, r := [], 0;
    DecodedStart(t);
    CharAt(was, off, line, |SCHEME|);
    while buf[ptr2] != NUL
      invariant 0 <= r <= |t| && ptr2 == off + |SCHEME| + r < buf.Length
      invariant ptr1 == off + |done| <= off + r
      invariant forall j | 0 <= j < buf.Length && (j < off || j >= ptr1) :: buf[j] == was[j]
      invariant forall j | 0 <= j < |done| :: buf[off + j] == done[j]
      invariant Decoded(t, r, done)
      decreases |t| - r
    {
      var c;
      CharAt(was, off, line, |SCHEME| + r);
      if buf[ptr2] == PERCENT {
        DecodedEscape(t, r, done);
        c := ReadEscape(buf, ptr2, off, line, was, |SCHEME| + r);
        if c < 0 {
          return false, 0;
        }
        ptr2 := ptr2 + 2;
        r := r + 2;
      } else {
        DecodedPlain(t, r, done);
        c := buf[ptr2];
      }
      buf[ptr1] := c;
      ptr1, ptr2 := ptr1 + 1, ptr2 + 1;
      done, r := done + [c], r + 1;
      CharAt(was, off, line, |SCHEME| + r);
    }
    CharAt(was, off, line, |SCHEME| + r);
    DecodedEnd(t, done);
    buf[ptr1] := NUL;
    return true, ptr1 - off;
  }

  /** The byte an escape stands for, or -1; the second digit is looked at only after the first was one. */
  method ReadEscape(buf: array<byte>, ptr: nat, ghost off: nat, ghost line: bytes, ghost was: bytes, ghost i: nat)
    returns (c: int)
    requires LineAt(was, off, line) && ptr == off + i && i < |line| && |was| == buf.Length
    requires forall j | ptr <= j < buf.Length :: buf[j] == was[j]
    ensures -1 <= c < 256
    ensures c < 0 <==> i + 2 >= |line| || HexValue(line[i + 1]) < 0 || HexValue(line[i + 2]) < 0
    ensures c >= 0 ==> c == HexValue(line[i + 1]) * 16 + HexValue(line[i + 2])
  {
    hide LineAt;
    CharAt(was, off, line, i + 1);
    var c1 := HexValue(buf[ptr + 1]);
    if c1 < 0 {
      return -1;
    }
    CharAt(was, off, line, i + 2);
    var c2 := HexValue(buf[ptr + 2]);
    return if c2 < 0 then -1 else c1 * 16 + c2;
  }
}
