/** Path strings: how the system resolves them, and what the search for "/../" says about their components. */
module Paths {
  import opened Bytes
  import opened Trees

  /** "/../" */
  const BAD_PATH: bytes := [SLASH, DOT, DOT, SLASH]

  /** The components between the separators; there is always at least one. */
  function Split(s: bytes): (cs: seq<bytes>)
    ensures cs != []
  {
    if s == [] then [[]]
    else if s[0] == SLASH then [[]] + Split(s[1..])
    else
      var rest := Split(s[1..]);
      [[s[0]] + rest[0]] + rest[1..]
  }

  /** What one more byte in front does to the components. */
  function SplitCons(b: byte, rest: seq<bytes>): seq<bytes>
    requires rest != []
  {
    if b == SLASH then [[]] + rest else [[b] + rest[0]] + rest[1..]
  }

  lemma {:induction false} SplitCat(a: bytes, b: bytes)
    ensures Split(a + [SLASH] + b) == Split(a) + Split(b)
  {
    var s := a + [SLASH] + b;
    if a == [] {
      assert s[1..] == b;
    } else {
      SplitCat(a[1..], b);
      assert s[1..] == a[1..] + [SLASH] + b;
      assert Split(s) == SplitCons(a[0], Split(s[1..]));
      SplitConsCat(a[0], Split(a[1..]), Split(b));
    }
  }

  lemma SplitConsCat(c: byte, x: seq<bytes>, y: seq<bytes>)
    requires x != []
    ensures SplitCons(c, x + y) == SplitCons(c, x) + y
  {
    assert (x + y)[1..] == x[1..] + y;
  }

  lemma {:induction false} SplitWhole(s: bytes)
    requires SLASH !in s
    ensures Split(s) == [s]
  {
    if s != [] {
      SplitWhole(s[1..]);
      assert [s[0]] + s[1..] == s;
    }
  }

  lemma {:induction false} SplitPieces(s: bytes)
    ensures forall c | c in Split(s) :: SLASH !in c && (NulFree(s) ==> NulFree(c))
  {
    if s != [] {
      var rest := Split(s[1..]);
      SplitPieces(s[1..]);
      assert rest[0] in rest;
      forall i | 0 <= i < |Split(s)|
        ensures SLASH !in Split(s)[i] && (NulFree(s) ==> NulFree(Split(s)[i]))
      {
        if s[0] == SLASH && i > 0 {
          assert Split(s)[i] == rest[i - 1] && rest[i - 1] in rest;
        } else if s[0] != SLASH && i > 0 {
          assert Split(s)[i] == rest[i] && rest[i] in rest;
        }
      }
    }
  }

  /** Between two components there is a separator that cuts the string there. */
  lemma {:induction false} SplitCut(s: bytes, k: nat) returns (i: nat)
    requires 0 < k < |Split(s)|
    ensures i < |s| && s[i] == SLASH
    ensures Split(s[..i]) == Split(s)[..k] && Split(s[i + 1..]) == Split(s)[k..]
  {
    hide Split;
    SplitUnfolds(s);
    if s[0] == SLASH && k == 1 {
      i := 0;
      SplitUnfolds(s[..0]);
    } else {
      var j := SplitCut(s[1..], if s[0] == SLASH then k - 1 else k);
      i := j + 1;
      assert s[..i][1..] == s[1..][..j] && s[i + 1..] == s[1..][j + 1..];
      SplitUnfolds(s[..i]);
      SplitConsPart(s[0], Split(s[1..]), if s[0] == SLASH then k - 1 else k);
    }
  }

  lemma SplitUnfolds(s: bytes)
    ensures Split(s) == if s == [] then [[]] else SplitCons(s[0], Split(s[1..]))
  {
  }

  lemma SplitConsPart(b: byte, rest: seq<bytes>, k: nat)
    requires 0 < k < |rest|
    ensures var n := if b == SLASH then k + 1 else k;
            && SplitCons(b, rest[..k]) == SplitCons(b, rest)[..n]
            && SplitCons(b, rest)[n..] == rest[k..]
  {
  }

  /** Where strrchr finds the last separator, plus one; 0 when there is none. */
  function AfterLastSlash(s: bytes): (i: nat)
    ensures i <= |s| && SLASH !in s[i..] && (i > 0 ==> s[i - 1] == SLASH)
  {
    if s == [] || s[|s| - 1] == SLASH then |s| else AfterLastSlash(s[..|s| - 1])
  }

  function Last(cs: seq<bytes>): bytes
    requires cs != []
  {
    cs[|cs| - 1]
  }

  /** The base name of a path, and the directory part before it. */
  lemma SplitLast(s: bytes)
    ensures var i := AfterLastSlash(s);
            && Last(Split(s)) == s[i..]
            && (i == 0 ==> Split(s) == [s])
            && (i > 0 ==> Split(s) == Split(s[..i - 1]) + [s[i..]])
  {
    var i := AfterLastSlash(s);
    SplitWhole(s[i..]);
    if i > 0 {
      assert s == s[..i - 1] + [SLASH] + s[i..];
      SplitCat(s[..i - 1], s[i..]);
    } else {
      assert s[0..] == s;
    }
  }

  predicate BadPathAt(s: bytes, i: int) {
    0 <= i && i + 4 <= |s| && s[i..i + 4] == BAD_PATH
  }

  /** strstr(s, "/../") != NULL */
  predicate HasBadPath(s: bytes) {
    exists i | 0 <= i < |s| :: BadPathAt(s, i)
  }

  predicate ParentStepAt(cs: seq<bytes>, k: int) {
    0 < k < |cs| - 1 && cs[k] == DOT_DOT
  }

  lemma BadPathShows(s: bytes, i: nat)
    requires BadPathAt(s, i)
    ensures exists k :: ParentStepAt(Split(s), k)
  {
    var a, b := s[..i], s[i + 4..];
    var t := DOT_DOT + [SLASH] + b;
    assert s == a + s[i..i + 4] + b;
    assert s == a + [SLASH] + t;
    SplitCat(a, t);
    SplitCat(DOT_DOT, b);
    SplitWhole(DOT_DOT);
    assert Split(t)[0] == DOT_DOT;
    assert Split(s)[|Split(a)|] == Split(t)[0];
    assert ParentStepAt(Split(s), |Split(a)|);
  }

  lemma ParentStepShows(s: bytes, k: nat)
    requires ParentStepAt(Split(s), k)
    ensures HasBadPath(s)
  {
    var i := SplitCut(s, k);
    var t := s[i + 1..];
    var j := SplitCut(t, 1);
    SplitOne(t[..j]);
    assert t[..j] == DOT_DOT;
    assert s[i..i + 4] == [s[i]] + (t[..j] + [t[j]]);
    assert BadPathAt(s, i);
  }

  /** The search finds a parent step exactly where one stands between two separators: not at the ends. */
  lemma BadPathIff(s: bytes)
    ensures HasBadPath(s) <==> exists k :: ParentStepAt(Split(s), k)
  {
    if i :| 0 <= i < |s| && BadPathAt(s, i) {
      BadPathShows(s, i);
    }
    if k :| ParentStepAt(Split(s), k) {
      ParentStepShows(s, k);
    }
  }

  lemma {:induction false} SplitOne(s: bytes)
    requires |Split(s)| == 1
    ensures Split(s) == [s]
  {
    if s != [] {
      SplitOne(s[1..]);
      assert [s[0]] + s[1..] == s;
    }
  }

  /** "" and "." stay where they are. */
  predicate Stays(c: bytes) {
    c == [] || c == DOT_NAME
  }

  function Clean(cs: seq<bytes>): Path {
    if cs == [] then []
    else if Stays(cs[0]) then Clean(cs[1..])
    else [cs[0]] + Clean(cs[1..])
  }

  lemma {:induction false} CleanCat(a: seq<bytes>, b: seq<bytes>)
    ensures Clean(a + b) == Clean(a) + Clean(b)
  {
    if a == [] {
      assert a + b == b;
    } else {
      assert (a + b)[1..] == a[1..] + b;
      CleanCat(a[1..], b);
    }
  }

  predicate Tame(cs: seq<bytes>) {
    DOT_DOT !in cs
  }

  lemma {:induction false} CleanProper(cs: seq<bytes>)
    requires Tame(cs) && forall c | c in cs :: SLASH !in c && NulFree(c)
    ensures ProperPath(Clean(cs))
  {
    if cs != [] {
      CleanProper(cs[1..]);
    }
  }

  lemma {:induction false} CleanOfProper(p: Path)
    requires ProperPath(p)
    ensures Clean(p) == p && Tame(p)
  {
    if p != [] {
      assert forall i | 0 <= i < |p[1..]| :: p[1..][i] == p[i + 1];
      CleanOfProper(p[1..]);
    }
  }

  /** Where a list of components leads from a place; the last one need not exist. */
  function Walk(root: Node, at: Path, cs: seq<bytes>): Option<Path>
    decreases |cs|
  {
    if cs == [] then Some(at)
    else if !DirAt(root, at) then None
    else if Stays(cs[0]) then Walk(root, at, cs[1..])
    else if cs[0] == DOT_DOT then Walk(root, if at == [] then [] else at[..|at| - 1], cs[1..])
    else Walk(root, at + [cs[0]], cs[1..])
  }

  function Resolve(root: Node, cwd: Path, s: bytes): Option<Path> {
    if s == [] then None
    else Walk(root, if s[0] == SLASH then [] else cwd, Split(s))
  }

  /** file_exists */
  predicate Exists(root: Node, cwd: Path, s: bytes) {
    Resolve(root, cwd, s).Some? && Get(root, Resolve(root, cwd, s).value).Some?
  }

  lemma {:induction false} WalkCat(root: Node, at: Path, a: seq<bytes>, b: seq<bytes>)
    ensures Walk(root, at, a + b)
         == if Walk(root, at, a).Some? then Walk(root, Walk(root, at, a).value, b) else None
    decreases |a|
  {
    if a == [] {
      assert a + b == b;
    } else {
      assert (a + b)[1..] == a[1..] + b;
      if DirAt(root, at) {
        WalkCat(root, if Stays(a[0]) then at
                      else if a[0] == DOT_DOT then (if at == [] then [] else at[..|at| - 1])
                      else at + [a[0]], a[1..], b);
      }
    }
  }

  /** Without parent steps a walk goes straight down. */
  lemma {:induction false} WalkTame(root: Node, at: Path, cs: seq<bytes>)
    requires Tame(cs) && Walk(root, at, cs).Some?
    ensures Walk(root, at, cs).value == at + Clean(cs)
    decreases |cs|
  {
    if cs != [] {
      WalkTame(root, if Stays(cs[0]) then at else at + [cs[0]], cs[1..]);
    }
  }

  lemma {:induction false} WalkToDir(root: Node, at: Path, cs: seq<bytes>)
    requires Tame(cs) && DirAt(root, at + Clean(cs))
    ensures Walk(root, at, cs) == Some(at + Clean(cs))
    decreases |cs|
  {
    if cs == [] {
      assert at + [] == at;
    } else {
      GetAppend(root, at, Clean(cs));
      if Stays(cs[0]) {
        WalkToDir(root, at, cs[1..]);
      } else {
        assert at + Clean(cs) == (at + [cs[0]]) + Clean(cs[1..]);
        WalkToDir(root, at + [cs[0]], cs[1..]);
      }
    }
  }

  /** What does not exist but resolves can be created: its parent directory is there. */
  lemma {:induction false} WalkCanPut(root: Node, at: Path, cs: seq<bytes>)
    requires CanPut(root, at) && Walk(root, at, cs).Some?
    ensures CanPut(root, Walk(root, at, cs).value)
    decreases |cs|
  {
    if cs != [] {
      if Stays(cs[0]) {
        WalkCanPut(root, at, cs[1..]);
      } else if cs[0] == DOT_DOT {
        if at != [] {
          var front := at[..|at| - 1];
          assert at == front + [at[|at| - 1]];
          GetAppend(root, front, [at[|at| - 1]]);
          CanPutExisting(root, front);
          WalkCanPut(root, front, cs[1..]);
        } else {
          WalkCanPut(root, at, cs[1..]);
        }
      } else {
        CanPutWhere(root, at, cs[0]);
        WalkCanPut(root, at + [cs[0]], cs[1..]);
      }
    }
  }

  /** Components of a string never bring in an improper name. */
  lemma {:induction false} WalkProper(root: Node, at: Path, cs: seq<bytes>)
    requires ProperPath(at) && Walk(root, at, cs).Some?
    requires forall c | c in cs :: SLASH !in c && NulFree(c)
    ensures ProperPath(Walk(root, at, cs).value)
    decreases |cs|
  {
    if cs != [] {
      WalkProper(root, if Stays(cs[0]) then at
                       else if cs[0] == DOT_DOT then (if at == [] then [] else at[..|at| - 1])
                       else at + [cs[0]], cs[1..]);
    }
  }
}
