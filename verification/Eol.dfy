/** End-of-line conversion in place: _convert_to_lf, _realloc_for_crlf and _convert_to_crlf (src/utils/utils.c). */
module Eol {
  import opened Bytes

  const MAX_ALLOC := 0xFFFF_FFFF

  /** Every CR that stands before an LF is dropped. */
  function ToLf(s: bytes): bytes {
    if s == [] then []
    else if s[0] == CR && |s| > 1 && s[1] == LF then ToLf(s[1..])
    else [s[0]] + ToLf(s[1..])
  }

  /** Every LF without a CR before it gets one; prevCr says whether the text before s ends in CR. */
  function ToCrlfAfter(prevCr: bool, s: bytes): bytes
    decreases |s|
  {
    if s == [] then []
    else (if s[0] == LF && !prevCr then [CR, LF] else [s[0]]) + ToCrlfAfter(s[0] == CR, s[1..])
  }

  function ToCrlf(s: bytes): bytes {
    ToCrlfAfter(false, s)
  }

  predicate BareLfAt(s: bytes, i: nat)
    requires i < |s|
  {
    s[i] == LF && (i == 0 || s[i - 1] != CR)
  }

  /** How many of the first k bytes are LFs without a CR. */
  function BareLfs(s: bytes, k: nat): nat
    requires k <= |s|
  {
    if k == 0 then 0 else BareLfs(s, k - 1) + if BareLfAt(s, k - 1) then 1 else 0
  }

  /** What one byte becomes, given the byte before it. */
  function CrlfPiece(s: bytes, i: nat): bytes
    requires i < |s|
  {
    if BareLfAt(s, i) then [CR, LF] else [s[i]]
  }

  lemma {:induction false} CrlfSnoc(prevCr: bool, s: bytes, b: byte)
    ensures ToCrlfAfter(prevCr, s + [b])
         == ToCrlfAfter(prevCr, s)
            + if b == LF && !(if s == [] then prevCr else s[|s| - 1] == CR) then [CR, LF] else [b]
    decreases |s|
  {
    if s == [] {
      assert s + [b] == [b] && [b][1..] == [];
    } else {
      assert (s + [b])[1..] == s[1..] + [b];
      CrlfSnoc(s[0] == CR, s[1..], b);
    }
  }

  lemma CrlfStep(s: bytes, k: nat)
    requires k < |s|
    ensures ToCrlf(s[..k + 1]) == ToCrlf(s[..k]) + CrlfPiece(s, k)
    ensures BareLfs(s, k + 1) == BareLfs(s, k) + |CrlfPiece(s, k)| - 1
  {
    assert s[..k + 1] == s[..k] + [s[k]];
    CrlfSnoc(false, s[..k], s[k]);
  }

  lemma {:induction false} CrlfLength(s: bytes, k: nat)
    requires k <= |s|
    ensures |ToCrlf(s[..k])| == k + BareLfs(s, k)
  {
    if k > 0 {
      CrlfLength(s, k - 1);
      CrlfStep(s, k - 1);
    }
  }

  // Laws

  lemma {:induction false} LfOfCrlfAfter(prevCr: bool, s: bytes)
    ensures ToLf(ToCrlfAfter(prevCr, s)) == ToLf(s)
    decreases |s|
  {
    if s != [] {
      var rest := ToCrlfAfter(s[0] == CR, s[1..]);
      LfOfCrlfAfter(s[0] == CR, s[1..]);
      var t := ToCrlfAfter(prevCr, s);
      if s[0] == LF && !prevCr {
        assert t[1..] == [LF] + rest && t[1..][1..] == rest;
      } else {
        assert t[1..] == rest;
        if s[0] == CR && |s| > 1 {
          assert rest[0] == s[1];
        }
      }
    }
  }

  /** Converting to CRLF first changes nothing for a conversion to LF. */
  lemma LfOfCrlf(s: bytes)
    ensures ToLf(ToCrlf(s)) == ToLf(s)
  {
    LfOfCrlfAfter(false, s);
  }

  lemma {:induction false} CrlfOfCrlfAfter(prevCr: bool, s: bytes)
    ensures ToCrlfAfter(prevCr, ToCrlfAfter(prevCr, s)) == ToCrlfAfter(prevCr, s)
    decreases |s|
  {
    if s != [] {
      var rest := ToCrlfAfter(s[0] == CR, s[1..]);
      CrlfOfCrlfAfter(s[0] == CR, s[1..]);
      var t := ToCrlfAfter(prevCr, s);
      if s[0] == LF && !prevCr {
        assert t[1..] == [LF] + rest && t[1..][1..] == rest;
        assert ToCrlfAfter(true, t[1..]) == [LF] + ToCrlfAfter(false, rest);
        assert ToCrlfAfter(prevCr, t) == [CR] + ToCrlfAfter(true, t[1..]);
      } else {
        assert t[1..] == rest;
        assert ToCrlfAfter(prevCr, t) == [s[0]] + ToCrlfAfter(s[0] == CR, rest);
      }
    }
  }

  /** Converting to CRLF is idempotent. */
  lemma CrlfOfCrlf(s: bytes)
    ensures ToCrlf(ToCrlf(s)) == ToCrlf(s)
  {
    CrlfOfCrlfAfter(false, s);
  }

  /** Each LF has exactly one CR before it; prevCr as above. */
  predicate PairedAfter(prevCr: bool, s: bytes)
    decreases |s|
  {
    if s == [] then true
    else if s[0] == CR && |s| > 1 && s[1] == LF then !prevCr && PairedAfter(false, s[2..])
    else if s[0] == LF then prevCr && PairedAfter(false, s[1..])
    else PairedAfter(s[0] == CR, s[1..])
  }

  lemma {:induction false} CrlfOfLfAfter(prevCr: bool, s: bytes)
    ensures ToCrlfAfter(prevCr, ToLf(s)) == s <==> PairedAfter(prevCr, s)
    decreases |s|
  {
    if s == [] {
    } else if s[0] == CR && |s| > 1 && s[1] == LF {
      CrlfOfLfAfter(false, s[2..]);
      var t := ToLf(s);
      var back := ToCrlfAfter(false, ToLf(s[2..]));
      assert s[1..][1..] == s[2..];
      assert ToLf(s[1..]) == [LF] + ToLf(s[1..][1..]);
      assert t == [LF] + ToLf(s[2..]) && t[1..] == ToLf(s[2..]);
      assert s == [CR, LF] + s[2..];
      if !prevCr {
        assert ToCrlfAfter(prevCr, t) == [CR, LF] + back;
        assert ([CR, LF] + back)[2..] == back;
      } else {
        assert ToCrlfAfter(prevCr, t) == [LF] + back;
      }
    } else {
      CrlfOfLfAfter(s[0] == CR, s[1..]);
      var t := ToLf(s);
      assert t[1..] == ToLf(s[1..]);
      var back := ToCrlfAfter(s[0] == CR, ToLf(s[1..]));
      if s[0] == LF && !prevCr {
        assert ToCrlfAfter(prevCr, t)[0] == CR;
      } else {
        assert ToCrlfAfter(prevCr, t) == [s[0]] + back;
        assert ([s[0]] + back)[1..] == back;
      }
    }
  }

  /** At every LF: a CR before it, and no second CR before that one. */
  predicate PairedAt(s: bytes, i: nat)
    requires i < |s|
  {
    s[i] == LF ==> i >= 1 && s[i - 1] == CR && (i >= 2 ==> s[i - 2] != CR)
  }

  predicate AllPaired(t: bytes, from: nat) {
    forall i | from <= i < |t| :: PairedAt(t, i)
  }

  lemma PairedShift(t: bytes, u: bytes, d: nat)
    requires |t| == |u| + d && u != []
    requires forall i | 1 <= i < |u| :: PairedAt(u, i) <==> PairedAt(t, i + d)
    ensures AllPaired(t, d + 1) <==> AllPaired(u, 1)
  {
    hide PairedAt;
    if AllPaired(u, 1) {
      forall i | d + 1 <= i < |t|
        ensures PairedAt(t, i)
      {
        assert PairedAt(u, i - d);
      }
    }
    if AllPaired(t, d + 1) {
      forall i | 1 <= i < |u|
        ensures PairedAt(u, i)
      {
        assert PairedAt(t, i + d);
      }
    }
  }

  lemma PairedFirst(t: bytes, from: nat)
    requires from < |t|
    ensures AllPaired(t, from) <==> PairedAt(t, from) && AllPaired(t, from + 1)
  {
    hide PairedAt;
  }

  lemma {:induction false} PairedMeans(prevCr: bool, s: bytes)
    ensures PairedAfter(prevCr, s) <==> AllPaired((if prevCr then [CR] else [0]) + s, 1)
    decreases |s|
  {
    hide AllPaired;
    var t := (if prevCr then [CR] else [0]) + s;
    if s == [] {
      NonePaired(t);
    } else if s[0] == CR && |s| > 1 && s[1] == LF {
      var u := [0] + s[2..];
      PairedMeans(false, s[2..]);
      PairedFirst(t, 1);
      PairedFirst(t, 2);
      assert PairedAt(t, 2) <==> !prevCr;
      assert forall i | 1 <= i < |u| :: u[i] == t[i + 2];
      PairedShift(t, u, 2);
    } else {
      var u := (if s[0] == CR then [CR] else [0]) + s[1..];
      PairedMeans(s[0] == CR, s[1..]);
      PairedFirst(t, 1);
      assert PairedAt(t, 1) <==> (s[0] == LF ==> prevCr);
      assert forall i | 1 <= i < |u| :: u[i] == t[i + 1];
      PairedShift(t, u, 1);
    }
  }

  lemma NonePaired(t: bytes)
    requires |t| == 1
    ensures AllPaired(t, 1)
  {
  }

  /** Going to LF and back gives the text again exactly when every LF has one CR before it and no more. */
  lemma CrlfOfLf(s: bytes)
    ensures ToCrlf(ToLf(s)) == s <==> forall i | 0 <= i < |s| :: PairedAt(s, i)
  {
    hide ToCrlfAfter, ToLf, PairedAfter;
    CrlfOfLfAfter(false, s);
    PairedMeans(false, s);
    var t := [0] + s;
    assert forall i | 0 <= i < |s| :: PairedAt(s, i) <==> PairedAt(t, i + 1);
    assert forall i | 1 <= i < |t| :: PairedAt(t, i) <==> PairedAt(s, i - 1);
  }

  predicate CrLfAt(s: bytes, i: int) {
    0 <= i && i + 1 < |s| && s[i] == CR && s[i + 1] == LF
  }

  predicate CrCrLfAt(s: bytes, i: int) {
    0 <= i && i + 2 < |s| && s[i] == CR && s[i + 1] == CR && s[i + 2] == LF
  }

  /** The conversion to LF leaves a text alone exactly when it has no CR LF. */
  lemma {:induction false} LfFixed(s: bytes)
    ensures |ToLf(s)| <= |s|
    ensures ToLf(s) == s <==> forall i | 0 <= i < |s| :: !CrLfAt(s, i)
  {
    if s != [] {
      LfFixed(s[1..]);
      assert forall i | 0 <= i < |s| - 1 :: CrLfAt(s[1..], i) <==> CrLfAt(s, i + 1);
      assert forall i | 1 <= i < |s| :: CrLfAt(s, i) <==> CrLfAt(s[1..], i - 1);
      if CrLfAt(s, 0) {
        assert |ToLf(s)| < |s|;
      } else {
        assert ToLf(s)[1..] == ToLf(s[1..]);
        assert s == [s[0]] + s[1..];
      }
    }
  }

  lemma {:induction false} FirstOfLf(s: bytes)
    requires s != []
    ensures ToLf(s) != [] && (ToLf(s)[0] == LF <==> s[0] == LF || CrLfAt(s, 0))
  {
    if CrLfAt(s, 0) {
      FirstOfLf(s[1..]);
    }
  }

  lemma LfUnfolds(s: bytes)
    requires s != []
    ensures ToLf(s) == if CrLfAt(s, 0) then ToLf(s[1..]) else [s[0]] + ToLf(s[1..])
  {
  }

  /** How many of the first k bytes are CRs before an LF. */
  function CrLfs(s: bytes, k: nat): (n: nat)
    requires k <= |s|
    ensures n <= k
  {
    if k == 0 then 0 else CrLfs(s, k - 1) + if CrLfAt(s, k - 1) then 1 else 0
  }

  /** The LF form has every byte of the text but the CRs before an LF, in order, and no others. */
  lemma {:induction false} LfForm(s: bytes, i: nat)
    requires i <= |s|
    ensures |ToLf(s)| == i - CrLfs(s, i) + |ToLf(s[i..])| && ToLf(s)[i - CrLfs(s, i)..] == ToLf(s[i..])
    ensures i == |s| ==> |ToLf(s)| == |s| - CrLfs(s, |s|)
    ensures i < |s| && !CrLfAt(s, i) ==> i - CrLfs(s, i) < |ToLf(s)| && ToLf(s)[i - CrLfs(s, i)] == s[i]
  {
    hide ToLf;
    LfTail(s, i);
    if i > 0 {
      LfForm(s, i - 1);
      LfTail(s, i - 1);
      LfRest(ToLf(s), i - 1 - CrLfs(s, i - 1), CrLfAt(s, i - 1), s[i - 1], ToLf(s[i..]));
    }
    if i < |s| && !CrLfAt(s, i) {
      NextOf(ToLf(s), i - CrLfs(s, i), s[i], ToLf(s[i + 1..]));
    }
  }

  lemma LfRest(t: bytes, j: nat, dropped: bool, c: byte, rest: bytes)
    requires j <= |t| && t[j..] == (if dropped then [] else [c]) + rest
    ensures dropped ==> t[j..] == rest
    ensures !dropped ==> j < |t| && t[j + 1..] == rest
  {
    if !dropped {
      NextOf(t, j, c, rest);
    }
  }

  /** The CRLF form has every byte of the text, in order, and before each LF without a CR a CR of its own. */
  lemma CrlfForm(s: bytes, i: nat)
    requires i < |s|
    ensures |ToCrlf(s)| == |s| + BareLfs(s, |s|)
    ensures i + BareLfs(s, i + 1) < |ToCrlf(s)| && ToCrlf(s)[i + BareLfs(s, i + 1)] == s[i]
    ensures BareLfAt(s, i) ==> ToCrlf(s)[i + BareLfs(s, i)] == CR
  {
    hide ToCrlf;
    CrlfLength(s, |s|);
    CrlfLength(s, i);
    CrlfLength(s, i + 1);
    CrlfStep(s, i);
    CrlfPrefix(s, i + 1);
    assert s[..|s|] == s;
  }

  lemma {:induction false} CrlfPrefix(s: bytes, k: nat)
    requires k <= |s|
    ensures ToCrlf(s[..k]) <= ToCrlf(s)
    decreases |s| - k
  {
    hide ToCrlf;
    if k < |s| {
      CrlfStep(s, k);
      CrlfPrefix(s, k + 1);
    } else {
      assert s[..k] == s;
    }
  }

  /** A CR LF that is left over comes from a CR CR LF. */
  lemma {:induction false} CrLfComesFrom(s: bytes, i: nat) returns (k: nat)
    requires CrLfAt(ToLf(s), i)
    ensures CrCrLfAt(s, k)
  {
    k := 0;
    if s != [] {
      LfUnfolds(s);
      if CrLfAt(s, 0) {
        k := CrLfComesFrom(s[1..], i);
        k := k + 1;
      } else if i > 0 {
        assert CrLfAt(ToLf(s[1..]), i - 1);
        k := CrLfComesFrom(s[1..], i - 1);
        k := k + 1;
      } else {
        FirstOfLf(s[1..]);
      }
    }
  }

  lemma {:induction false} CrLfStays(s: bytes, k: nat) returns (i: nat)
    requires CrCrLfAt(s, k)
    ensures CrLfAt(ToLf(s), i)
  {
    hide ToLf;
    LfUnfolds(s);
    if k == 0 {
      FirstOfLf(s[1..]);
      i := 0;
    } else {
      i := CrLfStays(s[1..], k - 1);
      i := if CrLfAt(s, 0) then i else i + 1;
    }
  }

  /** The conversion to LF is not idempotent: it is on exactly the texts without CR CR LF. */
  lemma LfTwice(s: bytes)
    ensures ToLf(ToLf(s)) == ToLf(s) <==> forall i | 0 <= i < |s| :: !CrCrLfAt(s, i)
  {
    hide ToLf;
    var t := ToLf(s);
    LfFixed(t);
    if i :| 0 <= i < |s| && CrCrLfAt(s, i) {
      var j := CrLfStays(s, i);
      assert 0 <= j < |t|;
    }
    if j :| 0 <= j < |t| && CrLfAt(t, j) {
      var i := CrLfComesFrom(s, j);
      assert 0 <= i < |s|;
    }
  }

  lemma LfTwiceFails()
    ensures ToLf([CR, CR, LF]) == [CR, LF] && ToLf(ToLf([CR, CR, LF])) == [LF]
  {
    var s := [CR, CR, LF];
    assert s[1..] == [CR, LF] && [CR, LF][1..] == [LF] && [LF][1..] == [];
    assert ToLf([LF]) == [LF] + ToLf([]) == [LF];
    assert ToLf([CR, LF]) == ToLf([LF]);
  }

  // The loops

  /** _convert_to_lf: the string is shortened where it stands; the result is its new length. */
  method ConvertToLf(str: array<byte>) returns (len: nat)
    requires NUL in str[..]
    modifies str
    ensures len == |ToLf(old(CStr(str[..])))| && len < str.Length
    ensures CStr(str[..]) == ToLf(old(CStr(str[..])))
  {
    hide CStr, ToLf, NulFree, CrLfAt;
    ghost var s, t := CStr(str[..]), ToLf(CStr(str[..]));
    StringEnds(str[..]);
    StringChars(str[..]);
    var oldPtr, newPtr := 0, 0;
    LfTail(s, 0);
    while str[oldPtr] != NUL
      invariant 0 <= newPtr <= oldPtr <= |s| < str.Length && newPtr <= |t|
      invariant forall j | oldPtr <= j <= |s| :: str[j] == if j < |s| then s[j] else NUL
      invariant forall j | 0 <= j < newPtr :: str[j] == t[j]
      invariant t[newPtr..] == ToLf(s[oldPtr..])
      decreases |s| - oldPtr
    {
      var c := str[oldPtr];
      LfGoesOn(s, t, oldPtr, newPtr);
      oldPtr := oldPtr + 1;
      if c != CR || str[oldPtr] != LF {
        str[newPtr] := c;
        newPtr := newPtr + 1;
      }
    }
    LfTail(s, oldPtr);
    str[newPtr] := NUL;
    LfNulFree(s);
    WholeString(str[..], t, newPtr);
    return newPtr;
  }

  lemma StringChars(buf: bytes)
    requires |CStr(buf)| < |buf|
    ensures forall j | 0 <= j < |CStr(buf)| :: buf[j] == CStr(buf)[j] && buf[j] != NUL
  {
    hide CStr;
  }

  lemma WholeString(buf: bytes, t: bytes, n: nat)
    requires n <= |t| && t[n..] == [] && n < |buf| && buf[n] == NUL && NulFree(t)
    requires forall j | 0 <= j < n :: buf[j] == t[j]
    ensures n == |t| && CStr(buf) == t
  {
    assert n == |t|;
    assert buf[..n] == t;
    CStrIs(buf, t);
  }

  /** What one character of the text adds to the rest of the conversion. */
  lemma LfGoesOn(s: bytes, t: bytes, i: nat, j: nat)
    requires i < |s| && j <= |t| && t[j..] == ToLf(s[i..])
    ensures
      if s[i] == CR && i + 1 < |s| && s[i + 1] == LF then t[j..] == ToLf(s[i + 1..])
      else j < |t| && t[j] == s[i] && t[j + 1..] == ToLf(s[i + 1..])
  {
    hide ToLf;
    LfTail(s, i);
    if !CrLfAt(s, i) {
      NextOf(t, j, s[i], ToLf(s[i + 1..]));
    }
  }

  lemma NextOf(t: bytes, i: nat, c: byte, rest: bytes)
    requires i <= |t| && t[i..] == [c] + rest
    ensures i < |t| && t[i] == c && t[i + 1..] == rest
  {
    assert t[i..][0] == c && t[i..][1..] == t[i + 1..];
  }

  /** What the conversion makes of the text from position i on. */
  lemma LfTail(s: bytes, i: nat)
    requires i <= |s|
    ensures i == |s| ==> ToLf(s[i..]) == []
    ensures i < |s| ==> ToLf(s[i..]) == (if CrLfAt(s, i) then [] else [s[i]]) + ToLf(s[i + 1..])
    ensures i == 0 ==> s[i..] == s
  {
    if i < |s| {
      assert s[i..][1..] == s[i + 1..];
    }
  }

  lemma {:induction false} LfNulFree(s: bytes)
    requires NulFree(s)
    ensures NulFree(ToLf(s))
  {
    if s != [] {
      LfNulFree(s[1..]);
    }
  }

  lemma {:induction false} CrlfNulFree(prevCr: bool, s: bytes)
    requires NulFree(s)
    ensures NulFree(ToCrlfAfter(prevCr, s))
    decreases |s|
  {
    if s != [] {
      CrlfNulFree(s[0] == CR, s[1..]);
    }
  }

  /** _realloc_for_crlf: counts the missing CRs and, when there are any, makes room for exactly the converted text
      and its terminator. -1 when that would be too much, 0 when nothing is to do, 1 otherwise. */
  method ReallocForCrlf(str: array<byte>) returns (status: int, out: array<byte>, len: nat)
    requires NUL in str[..]
    ensures var s := CStr(str[..]);
            && (status == 0 <==> ToCrlf(s) == s)
            && (status == -1 <==> ToCrlf(s) != s && |ToCrlf(s)| >= 0xFFFF_FFFF)
            && -1 <= status <= 1
            && (status >= 0 ==> len == |ToCrlf(s)| && CStr(out[..]) == s)
            && (status == 1 ==> fresh(out) && out.Length == len + 1 && s != [])
            && (status == 0 ==> out == str)
  {
    hide CStr, ToCrlf, NulFree, BareLfs;
    ghost var s := CStr(str[..]);
    StringEnds(str[..]);
    StringChars(str[..]);
    var increase := 0;
    var ind := 0;
    BareLfsStep(s, 0);
    while str[ind] != NUL
      invariant 0 <= ind <= |s| < str.Length && increase == BareLfs(s, ind)
      decreases |s| - ind
    {
      BareLfsStep(s, ind);
      if str[ind] == LF && (ind == 0 || str[ind - 1] != CR) {
        increase := increase + 1;
      }
      ind := ind + 1;
    }
    CrlfLength(s, |s|);
    assert s[..|s|] == s;
    NothingBare(s, |s|);
    if increase == 0 {
      return 0, str, ind;
    }
    var reqLen := ind + increase;
    if reqLen >= MAX_ALLOC {
      return -1, str, 0;
    }
    out := Grown(str, ind, reqLen + 1);
    SameString(str[..], out[..], ind);
    return 1, out, reqLen;
  }

  lemma BareLfsStep(s: bytes, k: nat)
    requires k <= |s|
    ensures k == 0 ==> BareLfs(s, k) == 0
    ensures k < |s| ==> BareLfs(s, k + 1) == BareLfs(s, k) + if BareLfAt(s, k) then 1 else 0
  {
  }

  lemma SameString(a: bytes, b: bytes, len: nat)
    requires len < |a| && len < |b| && b[..len + 1] == a[..len + 1] && len == |CStr(a)| && a[len] == NUL
    ensures CStr(b) == CStr(a)
  {
    StringEnds(a);
    assert b[len] == b[..len + 1][len] && a[..len + 1][..len] == a[..len] && b[..len + 1][..len] == b[..len];
    CStrIs(b, CStr(a));
  }

  /** realloc: a bigger block that begins with the old string and its terminator. */
  method Grown(str: array<byte>, len: nat, size: nat) returns (out: array<byte>)
    requires len < str.Length && len < size && str[len] == NUL
    ensures fresh(out) && out.Length == size && out[..len + 1] == str[..len + 1]
  {
    out := new byte[size];
    for i := 0 to len + 1
      invariant out[..i] == str[..i]
    {
      out[i] := str[i];
    }
  }

  lemma {:induction false} NothingBare(s: bytes, k: nat)
    requires k <= |s|
    ensures BareLfs(s, k) == 0 ==> ToCrlf(s[..k]) == s[..k]
  {
    if k > 0 {
      NothingBare(s, k - 1);
      CrlfStep(s, k - 1);
      assert s[..k] == s[..k - 1] + [s[k - 1]];
    }
  }

  /** _convert_to_crlf: from the end backwards, so that no byte is overwritten before it is read. The distance between
      the write and the read position is the number of CRs still to be added; the text fills the buffer exactly. */
  method ConvertToCrlf(str: array<byte>, newLen: nat)
    requires CStr(str[..]) != [] && str.Length == newLen + 1
    requires newLen == |ToCrlf(CStr(str[..]))| > |CStr(str[..])|
    modifies str
    ensures str[..] == ToCrlf(old(CStr(str[..]))) + [NUL]
    ensures CStr(str[..]) == ToCrlf(old(CStr(str[..])))
  {
    hide CStr, ToCrlf, BareLfs;
    ghost var s, t := CStr(str[..]), ToCrlf(CStr(str[..]));
    var newInd := newLen - 1;
    EndOfString(str[..], s);
    str[newLen] := NUL;
    CStrIs(str[..], s);
    var curInd := |CStr(str[..])| - 1;
    CrlfTarget(s, |s|);
    var more := true;
    while more
      invariant 0 <= curInd < |s| && newInd <= newLen - 1 && str[newLen] == NUL
      invariant more ==> newInd - curInd == BareLfs(s, curInd + 1) && newInd >= 0
      invariant more ==> forall j | 0 <= j <= curInd :: str[j] == s[j]
      invariant !more ==> newInd == -1
      invariant forall j | newInd < j < newLen :: str[j] == t[j]
      decreases curInd, more
    {
      var c := str[curInd];
      CrlfTarget(s, curInd);
      CrlfTargetAt(s, curInd);
      str[newInd] := c;
      newInd := newInd - 1;
      if c == LF && (curInd == 0 || str[curInd - 1] != CR) {
        // add the missing CR
        str[newInd] := CR;
        newInd := newInd - 1;
      }
      if curInd == 0 {
        more := false;
      } else {
        curInd := curInd - 1;
      }
    }
    assert str[..newLen] == t;
    assert str[..] == str[..newLen] + [NUL];
    CrlfNulFree(false, s);
    CrlfIs(s);
    CStrIs(str[..], t);
  }

  lemma EndOfString(buf: bytes, s: bytes)
    requires s == CStr(buf) && |s| < |buf|
    ensures buf[|s|] == NUL && s == buf[..|s|] && NulFree(s)
  {
  }

  lemma CrlfIs(s: bytes)
    ensures ToCrlf(s) == ToCrlfAfter(false, s)
  {
  }

  /** The first k bytes become the beginning of the converted text. */
  lemma {:induction false} CrlfTarget(s: bytes, k: nat)
    requires k <= |s|
    ensures |ToCrlf(s[..k])| == k + BareLfs(s, k) && ToCrlf(s[..k]) <= ToCrlf(s)
    ensures k == |s| ==> |ToCrlf(s)| == |s| + BareLfs(s, |s|)
    ensures k == 0 ==> BareLfs(s, k) == 0
    decreases |s| - k
  {
    CrlfLength(s, k);
    if k < |s| {
      CrlfTarget(s, k + 1);
      CrlfStep(s, k);
    } else {
      assert s[..k] == s;
    }
  }

  /** Where byte k goes. */
  lemma CrlfTargetAt(s: bytes, k: nat)
    requires k < |s|
    ensures var e, t := k + BareLfs(s, k), ToCrlf(s);
            && BareLfs(s, k + 1) == BareLfs(s, k) + (if BareLfAt(s, k) then 1 else 0)
            && (BareLfAt(s, k) ==> e + 1 < |t| && t[e] == CR && t[e + 1] == LF)
            && (!BareLfAt(s, k) ==> e < |t| && t[e] == s[k])
  {
    CrlfTarget(s, k);
    CrlfTarget(s, k + 1);
    CrlfStep(s, k);
    var t := ToCrlf(s);
    assert t[..k + 1 + BareLfs(s, k + 1)] == ToCrlf(s[..k]) + CrlfPiece(s, k);
  }
}
