/** Reading a list of copied files from the clipboard: get_copied_files_as_str and the split and decode loops of
    get_copied_files and get_copied_dirs_files (src/utils/utils.c). */
module CopiedLists {
  import opened Bytes
  import opened UrlCodec
  import opened CutLists

  const COPY: bytes := [99, 111, 112, 121]  // "copy"
  const MAX_LINE := 2047

  /** The pieces between line ends; there is always at least one. */
  function SplitLines(s: bytes): (lines: seq<bytes>)
    ensures lines != []
  {
    if s == [] then [[]]
    else
      var rest := SplitLines(s[1..]);
      if s[0] == LF then [[]] + rest else [[s[0]] + rest[0]] + rest[1..]
  }

  /** The lines with a line end between each two. */
  function Joined(lines: seq<bytes>): bytes
    requires lines != []
  {
    if |lines| == 1 then lines[0] else lines[0] + [LF] + Joined(lines[1..])
  }

  /** Splitting gives the lines of the text: no line end in any of them, and together they are the text. */
  lemma {:induction false} SplitIs(s: bytes)
    ensures Joined(SplitLines(s)) == s && forall l | l in SplitLines(s) :: LF !in l
  {
    if s != [] {
      var rest := SplitLines(s[1..]);
      SplitIs(s[1..]);
      assert rest[0] in rest && forall l | l in rest[1..] :: l in rest;
      if s[0] == LF {
        assert ([[]] + rest)[1..] == rest;
        assert [] + [LF] + Joined(rest) == s;
      } else {
        assert ([[s[0]] + rest[0]] + rest[1..])[1..] == rest[1..];
        assert Joined(rest) == s[1..];
        JoinedFirst(rest, s[0]);
        assert s == [s[0]] + s[1..];
      }
    }
  }

  lemma JoinedFirst(rest: seq<bytes>, b: byte)
    requires rest != []
    ensures Joined([[b] + rest[0]] + rest[1..]) == [b] + Joined(rest)
  {
    var lines := [[b] + rest[0]] + rest[1..];
    assert lines[1..] == rest[1..];
    if |rest| > 1 {
      assert ([b] + rest[0]) + [LF] + Joined(rest[1..]) == [b] + (rest[0] + [LF] + Joined(rest[1..]));
    }
  }

  /** The lines one after the other, each with a terminator. */
  function Terminated(lines: seq<bytes>): bytes {
    if lines == [] then [] else lines[0] + [NUL] + Terminated(lines[1..])
  }

  function Cut(b: byte): byte {
    if b == LF then NUL else b
  }

  /** Replacing every line end by a terminator leaves the lines, each terminated. */
  lemma {:induction false} SplitTerminated(s: bytes)
    ensures var t := Terminated(SplitLines(s));
            |t| == |s| + 1 && t[|s|] == NUL && forall i | 0 <= i < |s| :: t[i] == Cut(s[i])
  {
    if s != [] {
      SplitTerminated(s[1..]);
      var rest := SplitLines(s[1..]);
      var t := Terminated(rest);
      if s[0] == LF {
        assert Terminated(SplitLines(s)) == [NUL] + t;
      } else {
        assert Terminated(SplitLines(s)) == [s[0]] + t;
      }
    } else {
      assert SplitLines(s)[1..] == [];
      assert Terminated(SplitLines(s)) == [NUL];
    }
  }

  lemma {:induction false} LinesClean(s: bytes)
    requires NulFree(s)
    ensures forall l | l in SplitLines(s) :: NulFree(l) && LF !in l
  {
    if s != [] {
      var rest := SplitLines(s[1..]);
      LinesClean(s[1..]);
      assert forall i | 1 <= i < |rest| :: rest[i] in rest;
      assert rest[0] in rest;
    }
  }

  lemma {:induction false} SplitAt(a: bytes, b: bytes)
    requires LF !in a
    ensures SplitLines(a + [LF] + b) == [a] + SplitLines(b)
  {
    var s := a + [LF] + b;
    if a == [] {
      assert s[1..] == b;
    } else {
      assert s[1..] == a[1..] + [LF] + b;
      SplitAt(a[1..], b);
      assert [a[0]] + a[1..] == a;
    }
  }

  lemma {:induction false} SplitNothing(a: bytes)
    requires LF !in a
    ensures SplitLines(a) == [a]
  {
    if a != [] {
      SplitNothing(a[1..]);
      assert [a[0]] + a[1..] == a;
    }
  }

  /** The decoded lines, as C strings, up to the first that is not a file URL. */
  function DecodeAll(lines: seq<bytes>): seq<bytes> {
    if lines == [] then []
    else
      match Decode(lines[0])
      case None => []
      case Some(p) => if p == [] || |p| > MAX_LINE then [] else [CStr(p)] + DecodeAll(lines[1..])
  }

  /** The list of paths a clipboard text stands for. */
  function CopiedList(content: bytes): Option<seq<bytes>> {
    var lines := SplitLines(content);
    if |lines| < 2 || lines[0] !in {COPY, CUT} then None else Some(DecodeAll(lines[1..]))
  }

  /** A line that is taken into the list: a file URL of a path that is not empty and not too long. */
  predicate Usable(line: bytes) {
    Decode(line).Some? && 1 <= |Decode(line).value| <= 2047
  }

  /** The list has the paths of the usable lines up to the first that is not usable, in order. */
  lemma {:induction false} DecodeAllIs(lines: seq<bytes>)
    ensures var paths := DecodeAll(lines);
            && |paths| <= |lines|
            && (forall i | 0 <= i < |paths| :: Usable(lines[i]) && paths[i] == CStr(Decode(lines[i]).value))
            && (|paths| < |lines| ==> !Usable(lines[|paths|]))
  {
    hide Decode, CStr;
    if lines != [] && Usable(lines[0]) {
      DecodeAllIs(lines[1..]);
    }
  }

  lemma HeadersSpelled()
    ensures COPY == Ascii("copy") && CUT == Ascii("cut")
  {
    hide Ascii;
  }

  /** A text stands for a list if and only if its first line is "copy" or "cut" and another line follows. */
  lemma CopiedListIs(content: bytes)
    ensures var lines := SplitLines(content);
            && (CopiedList(content).Some? <==> |lines| >= 2 && lines[0] in {Ascii("copy"), Ascii("cut")})
            && (CopiedList(content).Some? ==> CopiedList(content).value == DecodeAll(lines[1..]))
  {
    hide Ascii, SplitLines, DecodeAll;
    HeadersSpelled();
  }

  /** What the split and decode loops can handle: no line longer than 2047 bytes, and none with nothing after the
      scheme. */
  predicate LinesOk(content: bytes) {
    forall l | l in SplitLines(content) :: |l| <= MAX_LINE && l != SCHEME
  }

  /** From fname on the buffer holds these lines, each terminated. */
  predicate LinesAt(buf: bytes, fname: nat, lines: seq<bytes>) {
    && fname + |Terminated(lines)| <= |buf|
    && forall j | 0 <= j < |Terminated(lines)| :: buf[fname + j] == Terminated(lines)[j]
  }

  lemma FirstLineAt(buf: bytes, fname: nat, lines: seq<bytes>)
    requires lines != [] && LinesAt(buf, fname, lines) && NulFree(lines[0])
    ensures LineAt(buf, fname, lines[0])
    ensures LinesAt(buf, fname + |lines[0]| + 1, lines[1..])
  {
    var t, u, n := Terminated(lines), Terminated(lines[1..]), |lines[0]|;
    assert t == lines[0] + [NUL] + u;
    forall j | 0 <= j < n
      ensures buf[fname + j] == lines[0][j]
    {
      assert t[j] == lines[0][j];
    }
    assert t[n] == NUL && buf[fname + n] == t[n];
    forall j | 0 <= j < |u|
      ensures buf[fname + n + 1 + j] == u[j]
    {
      assert buf[fname + (n + 1 + j)] == t[n + 1 + j] == u[j];
    }
  }

  /** strnlen(s, 2047) of the string at fname. */
  method LineLength(buf: array<byte>, fname: nat, ghost line: bytes) returns (n: nat)
    requires LineAt(buf[..], fname, line) && |line| <= MAX_LINE
    ensures n == |line|
  {
    hide LineAt;
    n := 0;
    CharAt(buf[..], fname, line, n);
    while n < MAX_LINE && buf[fname + n] != NUL
      invariant 0 <= n <= |line| && fname + n < buf.Length
      invariant n < |line| ==> buf[fname + n] != NUL
      invariant n == |line| ==> buf[fname + n] == NUL
    {
      n := n + 1;
      CharAt(buf[..], fname, line, n);
    }
  }

  lemma DecodedString(buf: bytes, fname: nat, p: bytes)
    requires fname + |p| < |buf| && buf[fname + |p|] == NUL
    requires forall j | 0 <= j < |p| :: buf[fname + j] == p[j]
    ensures CStr(buf[fname..]) == CStr(p)
  {
    CStrIs(buf[fname..], CStr(p));
  }

  /** The loop over the lines: each is decoded where it stands, and no decode damages a later line. */
  method DecodeLines(buf: array<byte>, offset: nat, count: nat, ghost lines: seq<bytes>) returns (paths: seq<bytes>)
    requires LinesAt(buf[..], offset, lines) && count == |lines|
    requires forall l | l in lines :: NulFree(l) && |l| <= MAX_LINE && l != SCHEME
    modifies buf
    ensures paths == DecodeAll(lines)
  {
    hide Decode, NulFree, CStr, LinesAt, LineAt, DecodeAll, Terminated, SplitLines, Encode, HexValue;
    paths := [];
    var fname: nat := offset;
    assert lines[0..] == lines;
    for i := 0 to count
      invariant LinesAt(buf[..], fname, lines[i..])
      invariant DecodeAll(lines) == paths + DecodeAll(lines[i..])
    {
      ghost var line, before := lines[i], buf[..];
      LineAhead(lines, i);
      FirstLineAt(before, fname, lines[i..]);
      DecodeFirst(lines[i..]);
      var off := LineLength(buf, fname, line);
      off := off + 1;
      var ok, len := UrlDecode(buf, fname, line);
      if !ok || len == 0 || len > MAX_LINE {
        assert paths + [] == paths;
        return;
      }
      DecodedString(buf[..], fname, Decode(line).value);
      LaterLines(before, buf[..], fname + off, lines[i + 1..]);
      paths := paths + [CStr(buf[fname..])];
      fname := fname + off;
    }
    assert lines[count..] == [] && DecodeAll([]) == [] by {
      DecodeFirst([]);
    }
    assert paths + [] == paths;
  }

  lemma LineAhead(lines: seq<bytes>, i: nat)
    requires i < |lines|
    ensures lines[i] in lines && lines[i..] != [] && lines[i..][0] == lines[i] && lines[i..][1..] == lines[i + 1..]
  {
  }

  lemma DecodeFirst(lines: seq<bytes>)
    ensures lines == [] ==> DecodeAll(lines) == []
    ensures lines != [] ==>
      DecodeAll(lines)
      == match Decode(lines[0])
         case None => []
         case Some(p) => if p == [] || |p| > MAX_LINE then [] else [CStr(p)] + DecodeAll(lines[1..])
  {
  }

  lemma LaterLines(was: bytes, now: bytes, from: nat, lines: seq<bytes>)
    requires LinesAt(was, from, lines) && |now| == |was| && forall j | from <= j < |was| :: now[j] == was[j]
    ensures LinesAt(now, from, lines)
  {
  }

  /** The position of the first line end of the string, if any, as strchr finds it. */
  function FirstLf(s: bytes): (i: nat)
    ensures i <= |s| && LF !in s[..i] && (i < |s| ==> s[i] == LF)
  {
    if s == [] || s[0] == LF then 0 else 1 + FirstLf(s[1..])
  }

  lemma SplitFirst(s: bytes)
    ensures var i := FirstLf(s);
            SplitLines(s) == if i == |s| then [s] else [s[..i]] + SplitLines(s[i + 1..])
  {
    hide SplitLines, FirstLf;
    var i := FirstLf(s);
    var a := s[..i];
    if i == |s| {
      assert a == s;
      SplitNothing(a);
    } else {
      CutAround(s, i);
      SplitAt(a, s[i + 1..]);
    }
  }

  lemma CutAround(s: bytes, i: nat)
    requires i < |s| && s[i] == LF
    ensures s == s[..i] + [LF] + s[i + 1..]
  {
  }

  /** get_copied_files_as_str on a terminated clipboard text: where the list starts, when the first line is "copy" or
      "cut". */
  method GetCopiedFilesAsStr(fnames: array<byte>) returns (offset: Option<nat>)
    requires NUL in fnames[..]
    modifies fnames
    ensures var s := old(CStr(fnames[..]));
            && offset == (if FirstLf(s) < |s| && s[..FirstLf(s)] in {COPY, CUT} then Some(FirstLf(s) + 1) else None)
            && (offset.Some? ==> fnames[..] == old(fnames[..])[FirstLf(s) := NUL])
  {
    hide CStr;
    ghost var was := fnames[..];
    var s := CStr(fnames[..]);
    var filePath := FirstLf(s);
    if filePath == |s| {
      return None;
    }
    fnames[filePath] := NUL;
    HeaderString(was, fnames[..], s, filePath);
    var header := CStr(fnames[..]);
    if header != COPY && header != CUT {
      return None;
    }
    return Some(filePath + 1);
  }

  lemma HeaderString(was: bytes, now: bytes, s: bytes, i: nat)
    requires s == CStr(was) && i < |s| && |now| == |was| && now == was[i := NUL]
    ensures CStr(now) == s[..i]
  {
    CStrIs(now, s[..i]);
  }

  /** The splitting loop: every line end from offset on becomes a terminator; the number of lines is counted. */
  method SplitInPlace(buf: array<byte>, offset: nat, ghost s: bytes) returns (count: nat)
    requires LineAt(buf[..], offset, s)
    modifies buf
    ensures count == |SplitLines(s)| && LinesAt(buf[..], offset, SplitLines(s))
  {
    hide SplitLines, Terminated, LineAt, LinesAt, NulFree;
    ghost var was := buf[..];
    ghost var i := 0;
    count := 1;
    var ptr := offset;
    LineCount(s, 0);
    CharAt(was, offset, s, |s|);
    CharAt(was, offset, s, 0);
    while buf[ptr] != NUL
      invariant 0 <= i <= |s| && ptr == offset + i < buf.Length
      invariant forall j | ptr <= j < buf.Length :: buf[j] == was[j]
      invariant forall j | offset <= j < ptr :: buf[j] == Cut(s[j - offset])
      invariant count + |SplitLines(s[i..])| == |SplitLines(s)| + 1
      invariant buf[ptr] == if i < |s| then s[i] else NUL
      decreases |s| - i
    {
      LineCount(s, i);
      if buf[ptr] == LF {
        count := count + 1;
        buf[ptr] := NUL;
      }
      ptr := ptr + 1;
      i := i + 1;
      CharAt(was, offset, s, i);
    }
    CharAt(was, offset, s, i);
    LineCount(s, i);
    SplitDone(buf[..], offset, s);
  }

  lemma SpelledOut(buf: bytes, offset: nat, lines: seq<bytes>)
    requires offset + |Terminated(lines)| <= |buf|
    requires forall j | 0 <= j < |Terminated(lines)| :: buf[offset + j] == Terminated(lines)[j]
    ensures LinesAt(buf, offset, lines)
  {
  }

  lemma SplitDone(buf: bytes, offset: nat, s: bytes)
    requires offset + |s| < |buf| && buf[offset + |s|] == NUL
    requires forall j | offset <= j < offset + |s| :: buf[j] == Cut(s[j - offset])
    ensures LinesAt(buf, offset, SplitLines(s))
  {
    hide SplitLines, Terminated, LinesAt;
    SplitTerminated(s);
    var t := Terminated(SplitLines(s));
    forall j | 0 <= j < |t| ensures buf[offset + j] == t[j] {
      if j < |s| {
        assert t[j] == Cut(s[j]);
        assert buf[offset + j] == Cut(s[offset + j - offset]);
      }
    }
    SpelledOut(buf, offset, SplitLines(s));
  }

  lemma LineCount(s: bytes, i: nat)
    requires i <= |s|
    ensures i < |s| ==> |SplitLines(s[i..])| == |SplitLines(s[i + 1..])| + if s[i] == LF then 1 else 0
    ensures i == 0 ==> s[i..] == s
    ensures i == |s| ==> |SplitLines(s[i..])| == 1
  {
    if i < |s| {
      assert s[i..][1..] == s[i + 1..];
    }
  }

  /** The whole way from a terminated clipboard text to the list of copied paths. */
  method CopiedPaths(fnames: array<byte>) returns (paths: Option<seq<bytes>>)
    requires NUL in fnames[..] && LinesOk(CStr(fnames[..]))
    modifies fnames
    ensures paths == CopiedList(old(CStr(fnames[..])))
  {
    hide CStr, SplitLines, Terminated, DecodeAll, FirstLf, LinesAt, LineAt, Decode;
    ghost var was, s := fnames[..], CStr(fnames[..]);
    var offset := GetCopiedFilesAsStr(fnames);
    SplitFirst(s);
    if offset == None {
      return None;
    }
    ghost var list := s[offset.value..];
    RestOfText(was, fnames[..], s, offset.value);
    var count := SplitInPlace(fnames, offset.value, list);
    assert forall l | l in SplitLines(list) :: l in SplitLines(s);
    LinesClean(list);
    var decoded := DecodeLines(fnames, offset.value, count, SplitLines(list));
    assert SplitLines(s)[1..] == SplitLines(list);
    return Some(decoded);
  }

  lemma RestOfText(was: bytes, now: bytes, s: bytes, offset: nat)
    requires NUL in was && s == CStr(was) && 0 < offset <= |s| && now == was[offset - 1 := NUL]
    ensures LineAt(now, offset, s[offset..]) && NulFree(s[offset..])
  {
    StringEnds(was);
  }
}
