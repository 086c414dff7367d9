/** What becomes of a name a server sends: _is_valid_fname, _get_base_name and the path building of
    _validate_and_save (src/proto/methods.c). */
module ReceivedNames {
  import opened Bytes
  import opened Trees
  import opened Paths

  /** The name is UTF-8, not empty as a C string, and without control characters. */
  predicate ValidName(utf8: bytes -> bool, name: bytes) {
    utf8(name) && CStr(name) != [] && forall b | b in CStr(name) :: b >= 32
  }

  /** The C string left when one trailing separator is removed and, in version 1, everything before the base name. */
  function CleanedName(v: nat, name: bytes): (s: bytes)
    requires name != []
    ensures NulFree(s)
  {
    var t := CStr(if name[|name| - 1] == SLASH then name[..|name| - 1] else name);
    if v == 1 then t[AfterLastSlash(t)..] else t
  }

  /** The cleaned name is the name without one separator at its very end, up to its first NUL; in version 1 what
      follows the last separator of that. */
  lemma CleanedNameIs(v: nat, name: bytes)
    requires name != []
    ensures var s := CStr(if name[|name| - 1] == '/' as int then name[..|name| - 1] else name);
            && (v != 1 ==> CleanedName(v, name) == s)
            && (v == 1 ==>
                 && '/' as int !in CleanedName(v, name)
                 && exists front ::
                      s == front + CleanedName(v, name) && (front != [] ==> front[|front| - 1] == '/' as int))
  {
    hide CStr, AfterLastSlash, NulFree;
    var s := CStr(if name[|name| - 1] == SLASH then name[..|name| - 1] else name);
    if v == 1 {
      BaseNameIs(s);
    }
  }

  lemma BaseNameIs(s: bytes)
    ensures var n := s[AfterLastSlash(s)..];
            && SLASH !in n && exists front :: s == front + n && (front != [] ==> front[|front| - 1] == SLASH)
  {
    hide AfterLastSlash;
    var front := s[..AfterLastSlash(s)];
    assert s == front + s[AfterLastSlash(s)..];
  }

  /** "./" and the name of the temp directory */
  function TempDir(hex: bytes): bytes {
    [DOT, SLASH] + hex
  }

  /** The path of a received entry: a name that starts with a separator brings its own. */
  function NewPath(hex: bytes, n: bytes): bytes {
    if n != [] && n[0] == SLASH then TempDir(hex) + n else TempDir(hex) + [SLASH] + n
  }

  /** The components of a received name below the temp directory. */
  function Within(n: bytes): (cs: seq<bytes>)
    ensures cs != []
  {
    Split(if n != [] && n[0] == SLASH then n[1..] else n)
  }

  /** Where below the temp directory a name is saved; None when it is refused. */
  function PlaceFor(utf8: bytes -> bool, v: nat, hex: bytes, name: bytes): Option<Path>
    requires name != []
  {
    var n := CleanedName(v, name);
    if !ValidName(utf8, name) || HasBadPath(NewPath(hex, n)) then None
    else if Stays(Last(Within(n))) || Last(Within(n)) == DOT_DOT then None
    else Some(Clean(Within(n)))
  }

  function Front<T>(s: seq<T>): seq<T>
    requires s != []
  {
    s[..|s| - 1]
  }

  lemma NewPathSplit(hex: bytes, n: bytes)
    requires ProperName(hex)
    ensures Split(NewPath(hex, n)) == [DOT_NAME, hex] + Within(n)
  {
    var body := if n != [] && n[0] == SLASH then n[1..] else n;
    assert NewPath(hex, n) == TempDir(hex) + [SLASH] + body;
    SplitCat(TempDir(hex), body);
    TempDirSplit(hex);
  }

  lemma TempDirSplit(hex: bytes)
    requires ProperName(hex)
    ensures Split(TempDir(hex)) == [DOT_NAME, hex] && Tame([DOT_NAME, hex]) && Clean([DOT_NAME, hex]) == [hex]
    ensures NulFree(TempDir(hex))
  {
    assert TempDir(hex) == DOT_NAME + [SLASH] + hex;
    SplitCat(DOT_NAME, hex);
    SplitWhole(DOT_NAME);
    SplitWhole(hex);
    assert [DOT_NAME, hex][1..] == [hex] && [hex][1..] == [];
    assert Clean([hex]) == [hex] + Clean([]);
  }

  lemma AllProper(cs: seq<bytes>, s: bytes)
    requires NulFree(s) && forall c | c in cs :: c in Split(s)
    ensures forall c | c in cs :: SLASH !in c && NulFree(c)
  {
    SplitPieces(s);
  }

  lemma {:induction false} CleanSnoc(front: seq<bytes>, c: bytes)
    ensures Clean(front + [c]) == Clean(front) + if Stays(c) then [] else [c]
  {
    CleanCat(front, [c]);
    assert [c][1..] == [];
  }

  /** In a path whose directory part passed the search for "/../", that part never steps up. */
  lemma FrontIsTame(hex: bytes, n: bytes)
    requires ProperName(hex) && !HasBadPath(NewPath(hex, n))
    ensures Tame(Front(Within(n))) && Tame([DOT_NAME, hex] + Front(Within(n)))
  {
    NewPathSplit(hex, n);
    BadPathIff(NewPath(hex, n));
    var cs := Split(NewPath(hex, n));
    forall k | 0 <= k < |Within(n)| - 1
      ensures Within(n)[k] != DOT_DOT
    {
      assert cs[k + 2] == Within(n)[k];
      assert !ParentStepAt(cs, k + 2);
    }
  }

  /** Confinement. Whatever bytes arrive as a name, an accepted one is a place strictly inside the temp directory,
      made of proper names only (no "." or ".." step and no separator is left in it), and in version 1 a direct
      child. */
  lemma Confinement(utf8: bytes -> bool, v: nat, hex: bytes, name: bytes)
    requires ProperName(hex) && name != [] && PlaceFor(utf8, v, hex, name).Some?
    ensures var p := PlaceFor(utf8, v, hex, name).value;
            && p != [] && ProperPath(p)
            && (v == 1 ==> p == [CleanedName(v, name)])
            && p == Clean(Front(Within(CleanedName(v, name)))) + [Last(Within(CleanedName(v, name)))]
  {
    var n := CleanedName(v, name);
    var cs := Within(n);
    FrontIsTame(hex, n);
    assert cs == Front(cs) + [Last(cs)];
    CleanSnoc(Front(cs), Last(cs));
    var body := if n != [] && n[0] == SLASH then n[1..] else n;
    AllProper(cs, body);
    assert Tame(cs);
    CleanProper(cs);
    if v == 1 {
      SplitWhole(n);
    }
  }

  /** Which names are refused, in terms of their components: control characters and bad UTF-8 aside, those with a
      parent step anywhere, or with nothing but separators and "." at the end. */
  lemma RefusedNames(utf8: bytes -> bool, v: nat, hex: bytes, name: bytes)
    requires ProperName(hex) && name != [] && ValidName(utf8, name)
    ensures PlaceFor(utf8, v, hex, name) == None
       <==> DOT_DOT in Within(CleanedName(v, name)) || Stays(Last(Within(CleanedName(v, name))))
  {
    hide Split, Clean, CStr, CleanedName, HasBadPath, BadPathAt, NulFree;
    var n := CleanedName(v, name);
    var cs, full := Within(n), Split(NewPath(hex, n));
    NewPathSplit(hex, n);
    BadPathIff(NewPath(hex, n));
    if k :| ParentStepAt(full, k) {
      assert k >= 2 && cs[k - 2] == DOT_DOT;
    }
    if DOT_DOT in cs {
      var k :| 0 <= k < |cs| && cs[k] == DOT_DOT;
      if k < |cs| - 1 {
        assert ParentStepAt(full, k + 2);
      }
    }
  }

  /** _is_valid_fname on the name buffer. */
  method IsValidName(fname: array<byte>, nameLength: nat, utf8: bytes -> bool) returns (ok: bool)
    requires 0 < nameLength < fname.Length && fname[nameLength] == NUL
    ensures ok <==> ValidName(utf8, fname[..nameLength])
    ensures ok <==>
      && utf8(fname[..nameLength]) && fname[0] != 0
      && forall i | 0 <= i < nameLength && fname[i] < 32 :: exists j :: 0 <= j <= i && fname[j] == 0
  {
    hide CStr;
    var name := fname[..nameLength];
    if !utf8(name) {
      return false;
    }
    var i := 0;
    while true
      invariant i <= nameLength && (i > 0 ==> fname[i] != NUL)
      invariant forall j | 0 <= j < i :: name[j] >= 32
      decreases nameLength - i
    {
      StringReaches(name, i);
      if fname[i] < 32 {
        assert i < nameLength;
        return false;
      }
      i := i + 1;
      if fname[i] == NUL {
        break;
      }
    }
    StringReaches(name, i);
    return true;
  }

  /** How far the C string goes when the bytes before i are no control characters. */
  lemma StringReaches(name: bytes, i: nat)
    requires i <= |name| && forall j | 0 <= j < i :: name[j] >= 32
    ensures i < |name| && name[i] != NUL ==> name[i] in CStr(name)
    ensures i == |name| || name[i] == NUL ==> CStr(name) == name[..i]
  {
    if i == |name| || name[i] == NUL {
      CStrIs(name, name[..i]);
    } else {
      var s := CStr(name);
      assert |s| > i && s[i] == name[i];
    }
  }
}
