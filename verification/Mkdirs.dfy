/** mkdirs: makes every directory on a relative path by cutting the path at each separator (src/utils/utils.c). */
module Mkdirs {
  import opened Bytes
  import opened Trees
  import opened Paths
  import opened FileSystems

  const MAX_PATH := 2048

  /** A relative path without parent steps. */
  predicate Downward(s: bytes) {
    s != [] && s[0] != SLASH && NulFree(s) && Tame(Split(s))
  }

  /** The entries of the working directory. */
  function Here(root: Node, cwd: Path): Entries
    requires DirAt(root, cwd)
  {
    EntriesAt(root, cwd)
  }

  /** Only the working directory's entries differ, and they are now m. */
  ghost predicate Became(was: Node, cwd: Path, now: Node, m: Entries)
  {
    CanPut(was, cwd) && DirAt(was, cwd) && now == Put(was, cwd, Dir(m))
  }

  lemma BecameHere(was: Node, cwd: Path, now: Node, m: Entries, p: Path)
    requires Became(was, cwd, now, m)
    ensures DirAt(now, cwd) && Here(now, cwd) == m
    ensures Get(now, cwd + p) == Get(Dir(m), p)
  {
    GetPut(was, cwd, Dir(m), p);
  }

  lemma BecameSame(root: Node, cwd: Path)
    requires DirAt(root, cwd)
    ensures Became(root, cwd, root, Here(root, cwd))
  {
    PutSame(root, cwd);
  }

  /** Putting something below the working directory. */
  lemma BecameBelow(was: Node, cwd: Path, now: Node, m: Entries, p: Path, v: Node)
    requires Became(was, cwd, now, m) && p != []
    ensures CanPut(now, cwd + p) <==> CanPut(Dir(m), p)
    ensures CanPut(Dir(m), p) ==>
              && Became(was, cwd, Put(now, cwd + p, v), Put(Dir(m), p, v).entries)
              && Became(was, cwd, Drop(now, cwd + p), Drop(Dir(m), p).entries)
  {
    BecameHere(was, cwd, now, m, []);
    PutBelow(now, cwd, p, v);
    if CanPut(Dir(m), p) {
      PutPut(was, cwd, Dir(m), Put(Dir(m), p, v));
      PutPut(was, cwd, Dir(m), Drop(Dir(m), p));
    }
  }

  lemma BecameTrans(a: Node, cwd: Path, b: Node, m: Entries, c: Node, m': Entries)
    requires Became(a, cwd, b, m) && Became(b, cwd, c, m')
    ensures Became(a, cwd, c, m')
  {
    PutPut(a, cwd, Dir(m), Dir(m'));
  }

  function Parent(p: Path): Path {
    if p == [] then [] else p[..|p| - 1]
  }

  lemma WalkOne(root: Node, at: Path, c: bytes)
    requires DirAt(root, at)
    ensures Walk(root, at, [c])
         == Some(if Stays(c) then at else if c == DOT_DOT then Parent(at) else at + [c])
    ensures DirAt(root, Parent(at))
  {
    assert [c][1..] == [];
    if at != [] {
      assert at == Parent(at) + [at[|at| - 1]];
      GetAppend(root, Parent(at), [at[|at| - 1]]);
    }
  }

  /** What a path resolves to when its directory part is there: the last component decides. */
  lemma ResolveDown(was: Node, cwd: Path, now: Node, m: Entries, s: bytes, front: seq<bytes>, c: bytes)
    requires Became(was, cwd, now, m)
    requires s != [] && s[0] != SLASH && Split(s) == front + [c] && Tame(front) && DirAt(Dir(m), Clean(front))
    ensures Stays(c) || c == DOT_DOT ==> Exists(now, cwd, s) && DirAt(now, Resolve(now, cwd, s).value)
    ensures Stays(c) ==> Resolve(now, cwd, s) == Some(cwd + Clean(front))
    ensures !Stays(c) && c != DOT_DOT ==>
      && Resolve(now, cwd, s) == Some(cwd + (Clean(front) + [c]))
      && Get(now, cwd + (Clean(front) + [c])) == Get(Dir(m), Clean(front) + [c])
  {
    var at := cwd + Clean(front);
    BecameHere(was, cwd, now, m, Clean(front));
    BecameHere(was, cwd, now, m, Clean(front) + [c]);
    WalkToDir(now, cwd, front);
    WalkCat(now, cwd, front, [c]);
    WalkOne(now, at, c);
    assert at + [c] == cwd + (Clean(front) + [c]);
  }

  /** _mkdir_check */
  method MkdirCheck(fs: FileSystem, path: bytes) returns (ok: bool)
    requires fs.Valid() && NulFree(path)
    modifies fs
    ensures fs.Valid()
    ensures Exists(old(fs.root), fs.cwd, path) ==>
      fs.root == old(fs.root) && (ok <==> DirAt(fs.root, Resolve(fs.root, fs.cwd, path).value))
    ensures !Exists(old(fs.root), fs.cwd, path) ==>
      var r := Resolve(old(fs.root), fs.cwd, path);
      && (!ok ==> fs.root == old(fs.root))
      && (ok ==> r.Some? && CanPut(old(fs.root), r.value) && fs.root == Put(old(fs.root), r.value, Dir(map[])))
      && (fs.Reliable() && r.Some? ==> ok)
  {
    var exists_ := fs.FileExists(path);
    if exists_ {
      var kind := fs.IsDirectory(path);
      return kind == 1;
    }
    ok := fs.Mkdir(path);
  }

  /** The pieces of a path up to position i, where the last cut before i was just before from. */
  function PiecesBefore(s: bytes, from: nat): seq<bytes>
    requires from <= |s|
  {
    if from == 0 then [] else Split(s[..from - 1])
  }

  lemma FirstPiece(s: bytes)
    ensures OpenPiece(s, 0, 0) && PiecesBefore(s, 0) == [] && Clean([]) == []
  {
  }

  lemma PiecesAfterCut(s: bytes, i: nat)
    requires i <= |s|
    ensures i < |s| ==> PiecesBefore(s, i + 1) == Split(s[..i])
    ensures i == |s| ==> s[..i] == s
  {
  }

  /** Between from and i there is no separator, and the last cut was just before from. */
  predicate OpenPiece(s: bytes, from: nat, i: nat) {
    from <= i <= |s| && SLASH !in s[from..i] && (from > 0 ==> s[from - 1] == SLASH)
  }

  lemma PieceGoesOn(s: bytes, from: nat, i: nat)
    requires OpenPiece(s, from, i) && Downward(s)
    ensures i <= |s| && (i < |s| ==> s[i] != NUL)
    ensures i < |s| && s[i] != SLASH ==> OpenPiece(s, from, i + 1)
    ensures i < |s| && s[i] == SLASH ==> OpenPiece(s, i + 1, i + 1)
  {
    if i < |s| && s[i] != SLASH {
      assert s[from..i + 1] == s[from..i] + [s[i]];
    }
  }

  /** Cutting at i ends the piece that began at from. */
  lemma CutPiece(s: bytes, from: nat, i: nat)
    requires OpenPiece(s, from, i)
    ensures Split(s[..i]) == PiecesBefore(s, from) + [s[from..i]]
  {
    SplitWhole(s[from..i]);
    if from > 0 {
      assert s[..i] == s[..from - 1] + [SLASH] + s[from..i];
      SplitCat(s[..from - 1], s[from..i]);
    } else {
      assert s[..i] == s[from..i];
    }
  }

  /** The rest of the path follows the cut. */
  lemma CutRest(s: bytes, i: nat) returns (rest: seq<bytes>)
    requires Downward(s) && i <= |s| && (i < |s| ==> s[i] == SLASH)
    ensures Split(s) == Split(s[..i]) + rest && Clean(Split(s)) == Clean(Split(s[..i])) + Clean(rest)
    ensures i == |s| ==> rest == []
    ensures Tame(Split(s[..i]))
  {
    if i < |s| {
      assert s == s[..i] + [SLASH] + s[i + 1..];
      SplitCat(s[..i], s[i + 1..]);
      rest := Split(s[i + 1..]);
    } else {
      assert s[..i] == s;
      rest := [];
    }
    CleanCat(Split(s[..i]), rest);
    assert forall c | c in Split(s[..i]) :: c in Split(s);
  }

  lemma CutString(s: bytes, i: nat)
    requires Downward(s) && i <= |s|
    ensures CStr((s + [NUL])[i := NUL]) == s[..i]
  {
    CStrIs((s + [NUL])[i := NUL], s[..i]);
  }

  /** One cut: what the check of the next piece does to the directories made so far. */
  lemma CutStep(was: Node, cwd: Path, m0: Entries, before: Node, m: Entries, s: bytes, front: seq<bytes>, c: bytes)
    requires Became(was, cwd, before, m) && MakeDirs(m0, Clean(front)) == Some(m)
    requires s != [] && s[0] != SLASH && Split(s) == front + [c] && Tame(front) && c != DOT_DOT
    ensures Clean(front + [c]) == Clean(front) + (if Stays(c) then [] else [c])
    ensures Resolve(before, cwd, s).Some?
    ensures Exists(before, cwd, s) ==>
      if DirAt(before, Resolve(before, cwd, s).value) then MakeDirs(m0, Clean(front + [c])) == Some(m)
      else MakeDirs(m0, Clean(front + [c])) == None
    ensures !Exists(before, cwd, s) ==>
      var p := Clean(front) + [c];
      && Resolve(before, cwd, s).value == cwd + p
      && CanPut(Dir(m), p) && CanPut(before, cwd + p)
      && MakeDirs(m0, Clean(front + [c])) == Some(Put(Dir(m), p, Dir(map[])).entries)
      && Became(was, cwd, Put(before, cwd + p, Dir(map[])), Put(Dir(m), p, Dir(map[])).entries)
  {
    CleanCat(front, [c]);
    assert [c][1..] == [];
    assert Clean([c]) == if Stays(c) then [] else [c];
    MakeDirsStep(m0, Clean(front), c);
    ResolveDown(was, cwd, before, m, s, front, c);
    BecameHere(was, cwd, before, m, []);
    if !Stays(c) {
      BecameBelow(was, cwd, before, m, Clean(front) + [c], Dir(map[]));
    } else {
      assert Clean(front) + [] == Clean(front);
    }
  }

  /** The directories along some beginning of p were made. */
  ghost predicate PartlyMade(m0: Entries, p: Path, m: Entries) {
    exists k: nat :: k <= |p| && MadeUpTo(m0, p, k, m)
  }

  predicate MadeUpTo(m0: Entries, p: Path, k: nat, m: Entries)
    requires k <= |p|
  {
    MakeDirs(m0, p[..k]) == Some(m)
  }

  lemma MadeAlong(m0: Entries, p: Path, q: Path, m: Entries)
    requires MakeDirs(m0, p) == Some(m)
    ensures PartlyMade(m0, p + q, m)
  {
    assert (p + q)[..|p|] == p;
    assert MadeUpTo(m0, p + q, |p|, m);
  }

  /** The check after the cut at i, with what it means for the directories made so far. */
  method CutAndCheck(fs: FileSystem, dirPath: bytes, path: bytes, ghost from: nat, ghost i: nat,
      ghost was: Node, ghost m0: Entries, ghost made: Path)
    returns (ok: bool, ghost made': Path)
    requires fs.Valid() && Downward(dirPath)
    requires OpenPiece(dirPath, from, i)
    requires i < |dirPath| ==> dirPath[i] == SLASH
    requires path == dirPath[..i]
    requires Became(was, fs.cwd, fs.root, Here(fs.root, fs.cwd))
    requires made == Clean(PiecesBefore(dirPath, from)) && MakeDirs(m0, made) == Some(Here(fs.root, fs.cwd))
    modifies fs
    ensures fs.Valid() && Became(was, fs.cwd, fs.root, Here(fs.root, fs.cwd))
    ensures PartlyMade(m0, Clean(Split(dirPath)), Here(fs.root, fs.cwd))
    ensures ok ==> made' == Clean(Split(dirPath[..i])) && MakeDirs(m0, made') == Some(Here(fs.root, fs.cwd))
    ensures fs.Reliable() && !ok ==> MakeDirs(m0, Clean(Split(dirPath))) == None
  {
    ghost var cwd, m := fs.cwd, Here(fs.root, fs.cwd);
    ghost var front, c := PiecesBefore(dirPath, from), dirPath[from..i];
    ghost var all := Clean(Split(dirPath));
    CutPiece(dirPath, from, i);
    ghost var rest := CutRest(dirPath, i);
    CutIsDownward(dirPath, i, front, c);
    CutStep(was, cwd, m0, fs.root, m, path, front, c);
    made' := Clean(front + [c]);
    ghost var step := Clean([c]);
    CleanCat(front, [c]);
    ok := MkdirCheck(fs, path);
    ghost var m' := if Exists(old(fs.root), cwd, path) || !ok then m
                    else Put(Dir(m), Clean(front) + [c], Dir(map[])).entries;
    BecameHere(was, cwd, fs.root, m', []);
    CutOutcome(m0, made, step, Clean(rest), all, m');
  }

  lemma CutIsDownward(s: bytes, i: nat, front: seq<bytes>, c: bytes)
    requires Downward(s) && i <= |s| && (i < |s| ==> s[i] == SLASH)
    requires Split(s[..i]) == front + [c] && Tame(Split(s[..i]))
    ensures s[..i] != [] && s[..i][0] != SLASH && NulFree(s[..i]) && Tame(front) && c != DOT_DOT
  {
    assert c == Split(s[..i])[|front|];
    assert forall d | d in front :: d in Split(s[..i]);
  }

  /** Whether the last directory was made or not, those made lie along the whole path. */
  lemma CutOutcome(m0: Entries, made: Path, step: Path, rest: Path, all: Path, m: Entries)
    requires all == made + step + rest
    ensures MakeDirs(m0, made) == Some(m) ==> PartlyMade(m0, all, m)
    ensures MakeDirs(m0, made + step) == Some(m) ==> PartlyMade(m0, all, m)
    ensures MakeDirs(m0, made + step) == None ==> MakeDirs(m0, all) == None
  {
    if MakeDirs(m0, made) == Some(m) {
      MadeAlong(m0, made, step + rest, m);
      assert made + (step + rest) == all;
    }
    if MakeDirs(m0, made + step) == Some(m) {
      MadeAlong(m0, made + step, rest, m);
    }
    if MakeDirs(m0, all).Some? {
      MakeDirsPrefix(m0, made + step, rest);
    }
  }

  /** Cuts the buffer at i, checks the path up to there, and puts the separator back. */
  method CutRestore(fs: FileSystem, dirPath: bytes, path: array<byte>, i: nat, ghost from: nat,
      ghost was: Node, ghost m0: Entries, ghost made: Path)
    returns (ok: bool, ghost made': Path)
    requires fs.Valid() && Downward(dirPath) && OpenPiece(dirPath, from, i) && path[..] == dirPath + [NUL]
    requires i < |dirPath| ==> dirPath[i] == SLASH
    requires Became(was, fs.cwd, fs.root, Here(fs.root, fs.cwd))
    requires made == Clean(PiecesBefore(dirPath, from)) && MakeDirs(m0, made) == Some(Here(fs.root, fs.cwd))
    modifies fs, path
    ensures fs.Valid() && Became(was, fs.cwd, fs.root, Here(fs.root, fs.cwd)) && path[..] == dirPath + [NUL]
    ensures PartlyMade(m0, Clean(Split(dirPath)), Here(fs.root, fs.cwd))
    ensures ok ==> made' == Clean(Split(dirPath[..i])) && MakeDirs(m0, made') == Some(Here(fs.root, fs.cwd))
    ensures fs.Reliable() && !ok ==> MakeDirs(m0, Clean(Split(dirPath))) == None
  {
    hide Split, Clean, Walk, Put, Proper, CStr, Became, DirAt, PiecesBefore;
    path[i] := NUL;
    assert path[..] == (dirPath + [NUL])[i := NUL];
    CutString(dirPath, i);
    ok, made' := CutAndCheck(fs, dirPath, CStr(path[..]), from, i, was, m0, made);
    if i < path.Length - 1 {
      path[i] := SLASH;
    }
    assert path[..] == dirPath + [NUL];
  }

  /** strncpy into a buffer of its own */
  method CopyOf(s: bytes) returns (buf: array<byte>)
    ensures fresh(buf) && buf[..] == s + [NUL]
  {
    buf := new byte[|s| + 1](i => if 0 <= i < |s| then s[i] else NUL);
  }

  /** The loop of mkdirs over its own copy of the path. */
  method MakeEach(fs: FileSystem, dirPath: bytes) returns (ok: bool)
    requires fs.Valid() && Downward(dirPath)
    modifies fs
    ensures fs.Valid()
    ensures PartlyMade(Here(old(fs.root), fs.cwd), Clean(Split(dirPath)), Here(fs.root, fs.cwd))
    ensures Became(old(fs.root), fs.cwd, fs.root, Here(fs.root, fs.cwd))
    ensures ok ==> MakeDirs(Here(old(fs.root), fs.cwd), Clean(Split(dirPath))) == Some(Here(fs.root, fs.cwd))
    ensures fs.Reliable() ==> (ok <==> MakeDirs(Here(old(fs.root), fs.cwd), Clean(Split(dirPath))).Some?)
  {
    hide Split, Clean, Walk, Put, Proper, CStr, Downward, Became, PiecesBefore;
    FirstPiece(dirPath);
    ghost var was, cwd := fs.root, fs.cwd;
    ghost var m0, all := Here(was, cwd), Clean(Split(dirPath));
    BecameSame(was, cwd);
    var len := |dirPath|;
    var path := CopyOf(dirPath);
    ghost var from: nat := 0;
    ghost var made: Path := [];
    var i := 0;
    while i <= len
      modifies fs, path
      invariant 0 <= i <= len + 1
      invariant path[..] == dirPath + [NUL]
      invariant fs.Valid() && Became(was, cwd, fs.root, Here(fs.root, cwd))
      invariant MakeDirs(m0, made) == Some(Here(fs.root, cwd)) && (i > len ==> made == all)
      invariant i <= len ==> OpenPiece(dirPath, from, i) && made == Clean(PiecesBefore(dirPath, from))
    {
      PieceGoesOn(dirPath, from, i);
      assert path[i] == path[..][i];
      if path[i] != SLASH && path[i] != NUL {
        i := i + 1;
        continue;
      }
      ok, made := CutRestore(fs, dirPath, path, i, from, was, m0, made);
      if !ok {
        return false;
      }
      PiecesAfterCut(dirPath, i);
      from := i + 1;
      i := i + 1;
    }
    MadeAlong(m0, all, [], Here(fs.root, cwd));
    assert all + [] == all;
    return true;
  }

  /** mkdirs. On a downward path starting with "." it adds directories along that path and nothing else, whether or
      not it gets to the end, and it succeeds when no operation is refused, no file is in the way, and the path is
      not too long. */
  method Mkdirs(fs: FileSystem, dirPath: bytes) returns (ok: bool)
    requires fs.Valid() && Downward(dirPath)
    modifies fs
    ensures fs.Valid()
    ensures dirPath[0] != DOT ==> !ok && fs.root == old(fs.root)
    ensures PartlyMade(Here(old(fs.root), fs.cwd), Clean(Split(dirPath)), Here(fs.root, fs.cwd))
    ensures Became(old(fs.root), fs.cwd, fs.root, Here(fs.root, fs.cwd))
    ensures ok ==> MakeDirs(Here(old(fs.root), fs.cwd), Clean(Split(dirPath))) == Some(Here(fs.root, fs.cwd))
    ensures fs.Reliable() && dirPath[0] == DOT && (|dirPath| <= 2048 || Exists(old(fs.root), fs.cwd, dirPath)) ==>
      (ok <==> MakeDirs(Here(old(fs.root), fs.cwd), Clean(Split(dirPath))).Some?)
    ensures |dirPath| > 2048 && !Exists(old(fs.root), fs.cwd, dirPath) ==> !ok && fs.root == old(fs.root)
  {
    ghost var was, cwd := fs.root, fs.cwd;
    ghost var m0, all := Here(was, cwd), Clean(Split(dirPath));
    BecameSame(was, cwd);
    MadeAlong(m0, [], all, m0);
    assert [] + all == all;
    if dirPath[0] != DOT {
      return false;
    }
    var exists_ := fs.FileExists(dirPath);
    if exists_ {
      var kind := fs.IsDirectory(dirPath);
      WalkTame(was, cwd, Split(dirPath));
      BecameHere(was, cwd, was, m0, all);
      if kind == 1 {
        MakeDirsThere(m0, all);
      } else {
        MakeDirsBlocked(m0, all);
      }
      return kind == 1;
    }
    if |dirPath| > MAX_PATH {
      return false;
    }
    ok := MakeEach(fs, dirPath);
  }
}
