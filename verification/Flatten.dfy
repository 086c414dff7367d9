/** Listing the leaves of copied directories: _process_path, _recurse_dir and get_copied_dirs_files
    (src/utils/utils.c). */
module Flatten {
  import opened Bytes
  import opened Trees
  import opened Paths
  import opened FileSystems

  const MAX_RECURSE_DEPTH := 256
  const MAX_PATH_LENGTH := 2048

  class PathList {
    var items: seq<bytes>

    constructor ()
      ensures items == []
    {
      items := [];
    }

    method Append(path: bytes)
      modifies this
      ensures items == old(items) + [path]
    {
      items := items + [path];
    }
  }

  /** A directory path as a prefix: with exactly the separator it needs. */
  function WithSlash(s: bytes): bytes {
    if s != [] && s[|s| - 1] == SLASH then s else s + [SLASH]
  }

  /** The paths listed for what stands at s: a file itself, and the leaves of a directory. */
  function LeavesOf(order: set<bytes> -> seq<bytes>, leafDirs: bool, s: bytes, n: Node, depth: nat): seq<bytes>
    decreases n, 2, 0
  {
    match n
    case File(_) => [s]
    case Dir(_) => LeavesIn(order, leafDirs, s, n, depth + 1)
  }

  /** The leaves of a directory; an empty one is listed itself when leafDirs is set, with a separator at the end. */
  function LeavesIn(order: set<bytes> -> seq<bytes>, leafDirs: bool, s: bytes, n: Node, depth: nat): seq<bytes>
    requires n.Dir?
    decreases n, 1, 0
  {
    if depth > MAX_RECURSE_DEPTH || |s| > MAX_PATH_LENGTH then []
    else
      LeavesOfAll(order, leafDirs, WithSlash(s), n, order(n.entries.Keys), depth)
      + if leafDirs && order(n.entries.Keys) == [] then [WithSlash(s)] else []
  }

  /** The leaves of the named entries, up to the first whose path would be too long. */
  function LeavesOfAll(order: set<bytes> -> seq<bytes>, leafDirs: bool, prefix: bytes, n: Node, names: seq<bytes>,
      depth: nat): seq<bytes>
    requires n.Dir?
    decreases n, 0, |names|
  {
    if names == [] || names[0] !in n.entries || |names[0]| + |prefix| > MAX_PATH_LENGTH then []
    else
      LeavesOf(order, leafDirs, prefix + names[0], n.entries[names[0]], depth)
      + LeavesOfAll(order, leafDirs, prefix, n, names[1..], depth)
  }

  function Separators(s: bytes): nat {
    if s == [] then 0 else Separators(s[1..]) + if s[0] == '/' as int then 1 else 0
  }

  lemma {:induction false} SeparatorsCat(a: bytes, b: bytes)
    ensures Separators(a + b) == Separators(a) + Separators(b)
  {
    if a == [] {
      assert a + b == b;
    } else {
      assert (a + b)[1..] == a[1..] + b;
      SeparatorsCat(a[1..], b);
    }
  }

  lemma {:induction false} NoSeparators(s: bytes)
    requires SLASH !in s
    ensures Separators(s) == 0
  {
    if s != [] {
      NoSeparators(s[1..]);
    }
  }

  /** Nothing is listed from more than 256 directories below: each listed path has at most that many separators more
      than the path it was listed from, less those gone already. */
  lemma {:induction false} ListingDepth(order: set<bytes> -> seq<bytes>, leafDirs: bool, s: bytes, n: Node, depth: nat)
    requires n.Dir? && Proper(n) && Enumerates(order) && s != []
    ensures depth > 256 ==> LeavesIn(order, leafDirs, s, n, depth) == []
    ensures forall f | f in LeavesIn(order, leafDirs, s, n, depth) :: Separators(f) + depth <= Separators(s) + 257
    decreases n, 1, 0
  {
    var names, prefix := order(n.entries.Keys), WithSlash(s);
    PrefixSeparators(s);
    if depth <= 256 && |s| <= MAX_PATH_LENGTH {
      assert forall f :: f in names <==> f in (set c | c in names);
      ListingDepthOfAll(order, leafDirs, s, n, names, depth);
    }
  }

  lemma PrefixSeparators(s: bytes)
    requires s != []
    ensures Separators(s) <= Separators(WithSlash(s)) <= Separators(s) + 1
  {
    SeparatorsCat(s, [SLASH]);
    assert [SLASH][1..] == [];
  }

  lemma {:induction false} ListingDepthOfAll(order: set<bytes> -> seq<bytes>, leafDirs: bool, s: bytes, n: Node,
      names: seq<bytes>, depth: nat)
    requires n.Dir? && Proper(n) && Enumerates(order) && s != [] && depth <= 256
    ensures forall f | f in LeavesOfAll(order, leafDirs, WithSlash(s), n, names, depth) ::
      Separators(f) + depth <= Separators(s) + 257
    decreases n, 0, |names|
  {
    hide Proper, Enumerates, LeavesIn, Separators, WithSlash;
    var prefix := WithSlash(s);
    if names != [] && names[0] in n.entries {
      var path, k := prefix + names[0], n.entries[names[0]];
      ChildSeparators(s, n, names[0]);
      if k.Dir? {
        ListingDepth(order, leafDirs, path, k, depth + 1);
      }
      ListingDepthOfAll(order, leafDirs, s, n, names[1..], depth);
    }
  }

  lemma ChildSeparators(s: bytes, n: Node, name: bytes)
    requires n.Dir? && Proper(n) && name in n.entries && s != []
    ensures Separators(WithSlash(s) + name) <= Separators(s) + 1 && WithSlash(s) + name != []
    ensures Proper(n.entries[name])
  {
    SeparatorsCat(WithSlash(s), name);
    NoSeparators(name);
    PrefixSeparators(s);
  }

  lemma WithSlashSplit(s: bytes, name: bytes)
    requires s != [] && ProperName(name)
    ensures var t := if s[|s| - 1] == SLASH then s[..|s| - 1] else s;
            && WithSlash(s) == t + [SLASH]
            && Split(WithSlash(s) + name) == Split(t) + [name]
            && (s[|s| - 1] == SLASH ==> Split(s) == Split(t) + [[]])
            && (s[|s| - 1] != SLASH ==> t == s)
  {
    var t := if s[|s| - 1] == SLASH then s[..|s| - 1] else s;
    assert WithSlash(s) + name == t + [SLASH] + name;
    SplitCat(t, name);
    SplitWhole(name);
    if s[|s| - 1] == SLASH {
      assert s == t + [SLASH] + [];
      SplitCat(t, []);
    }
  }

  /** The path of an entry resolves to its place when the directory's path does. */
  lemma ChildResolves(root: Node, cwd: Path, s: bytes, p: Path, name: bytes)
    requires Resolve(root, cwd, s) == Some(p) && DirAt(root, p) && ProperName(name)
    ensures Resolve(root, cwd, WithSlash(s) + name) == Some(p + [name])
  {
    var from := if s[0] == SLASH then [] else cwd;
    var t := if s[|s| - 1] == SLASH then s[..|s| - 1] else s;
    WithSlashSplit(s, name);
    if s[|s| - 1] == SLASH {
      var none: seq<bytes> := [[]];
      WalkCat(root, from, Split(t), none);
      assert none[1..] == [];
      assert Walk(root, from, Split(t)) == Some(p);
    }
    WalkCat(root, from, Split(t), [name]);
    assert [name][1..] == [];
    assert (WithSlash(s) + name)[0] == s[0];
  }

  lemma EntryAt(root: Node, p: Path, name: bytes)
    requires DirAt(root, p) && name in EntriesAt(root, p)
    ensures Get(root, p + [name]) == Some(EntriesAt(root, p)[name])
  {
    GetAppend(root, p, [name]);
    assert [name][1..] == [];
  }

  /** Only paths that begin with path were added, none longer than the limits allow. */
  ghost predicate Grown(was: seq<bytes>, now: seq<bytes>, path: bytes) {
    was <= now && forall i | |was| <= i < |now| :: path <= now[i] && |now[i]| <= MAX_PATH_LENGTH + 1
  }

  lemma GrownMore(a: seq<bytes>, b: seq<bytes>, c: seq<bytes>, path: bytes, longer: bytes)
    requires Grown(a, b, path) && Grown(b, c, longer) && path <= longer
    ensures Grown(a, c, path)
  {
  }

  /** _process_path */
  method ProcessPath(fs: FileSystem, path: bytes, lst: PathList, depth: nat, leafDirs: bool, ghost p: Path,
      ghost n: Node)
    requires fs.Valid() && NulFree(path) && Resolve(fs.root, fs.cwd, path) == Some(p) && Get(fs.root, p) == Some(n)
    requires |path| <= MAX_PATH_LENGTH
    modifies lst, fs`ops
    ensures fs.Valid() && Grown(old(lst.items), lst.items, path)
    ensures fs.Reliable() ==> lst.items == old(lst.items) + LeavesOf(fs.order, leafDirs, path, n, depth)
    decreases n, 2, 0
  {
    if DirAt(fs.root, Resolve(fs.root, fs.cwd, path).value) {
      RecurseDir(fs, path, lst, depth + 1, leafDirs, p, n);
    } else {
      lst.Append(path);
    }
  }

  /** _recurse_dir: appends exactly the leaves, in the order in which the system lists the entries. */
  method RecurseDir(fs: FileSystem, path: bytes, lst: PathList, depth: nat, leafDirs: bool, ghost p: Path,
      ghost n: Node)
    requires fs.Valid() && NulFree(path) && Resolve(fs.root, fs.cwd, path) == Some(p)
    requires n.Dir? && Get(fs.root, p) == Some(n)
    modifies lst, fs`ops
    ensures fs.Valid() && Grown(old(lst.items), lst.items, path)
    ensures fs.Reliable() ==> lst.items == old(lst.items) + LeavesIn(fs.order, leafDirs, path, n, depth)
    decreases n, 1, 0
  {
    hide Walk, Split, Get, Proper, WithSlash, Resolve, Exists, NulFree, ProperName, LeavesOf;
    if depth > MAX_RECURSE_DEPTH {
      return;
    }
    ListedPlace(fs, path, p, n);
    var names := fs.ListDir(path);
    if names == None {
      return;
    }
    if |path| > MAX_PATH_LENGTH {
      return;
    }
    NamesListed(fs, n);
    WithSlashGrows(path);
    ListEntries(fs, path, WithSlash(path), names.value, lst, depth, leafDirs, p, n);
    if leafDirs && names.value == [] {
      lst.Append(WithSlash(path));
    }
  }

  /** The readdir loop of _recurse_dir. */
  method ListEntries(fs: FileSystem, path: bytes, prefix: bytes, names: seq<bytes>, lst: PathList, depth: nat,
      leafDirs: bool, ghost p: Path, ghost n: Node)
    requires fs.Valid() && NulFree(path) && Resolve(fs.root, fs.cwd, path) == Some(p) && prefix == WithSlash(path)
    requires n.Dir? && Get(fs.root, p) == Some(n) && forall f | f in names :: f in n.entries
    modifies lst, fs`ops
    ensures fs.Valid() && Grown(old(lst.items), lst.items, prefix)
    ensures fs.Reliable() ==> lst.items == old(lst.items) + LeavesOfAll(fs.order, leafDirs, prefix, n, names, depth)
    decreases n, 0, |names|
  {
    hide Walk, Split, Get, Proper, WithSlash, Resolve, Exists, NulFree, ProperName, LeavesOf;
    ghost var before := lst.items;
    ghost var all := LeavesOfAll(fs.order, leafDirs, prefix, n, names, depth);
    var i := 0;
    assert names[0..] == names;
    while i < |names|
      invariant 0 <= i <= |names| && fs.Valid() && Grown(before, lst.items, prefix)
      invariant fs.Reliable() ==>
        before + all == lst.items + LeavesOfAll(fs.order, leafDirs, prefix, n, names[i..], depth)
    {
      var fileName := names[i];
      assert names[i..][0] == fileName && names[i..][1..] == names[i + 1..];
      if |fileName| + |prefix| > MAX_PATH_LENGTH {
        assert lst.items + [] == lst.items;
        return;
      }
      ChildFacts(fs, path, p, n, fileName);
      ghost var now := lst.items;
      ProcessPath(fs, prefix + fileName, lst, depth, leafDirs, p + [fileName], n.entries[fileName]);
      GrownMore(before, now, lst.items, prefix, prefix + fileName);
      i := i + 1;
    }
    assert lst.items + [] == lst.items;
  }

  lemma WithSlashGrows(path: bytes)
    ensures path <= WithSlash(path) && |WithSlash(path)| <= |path| + 1
  {
  }

  lemma ListedPlace(fs: FileSystem, path: bytes, p: Path, n: Node)
    requires Resolve(fs.root, fs.cwd, path) == Some(p) && n.Dir? && Get(fs.root, p) == Some(n)
    ensures Exists(fs.root, fs.cwd, path) && DirAt(fs.root, p) && EntriesAt(fs.root, p) == n.entries
  {
  }

  lemma ChildFacts(fs: FileSystem, path: bytes, p: Path, n: Node, name: bytes)
    requires fs.Valid() && NulFree(path) && Resolve(fs.root, fs.cwd, path) == Some(p)
    requires n.Dir? && Get(fs.root, p) == Some(n) && name in n.entries
    ensures Resolve(fs.root, fs.cwd, WithSlash(path) + name) == Some(p + [name])
    ensures Get(fs.root, p + [name]) == Some(n.entries[name])
    ensures NulFree(WithSlash(path) + name)
  {
    ProperGet(fs.root, p);
    ChildResolves(fs.root, fs.cwd, path, p, name);
    EntryAt(fs.root, p, name);
  }

  lemma NamesListed(fs: FileSystem, n: Node)
    requires fs.Valid() && n.Dir?
    ensures forall f :: f in fs.order(n.entries.Keys) <==> f in n.entries
  {
    assert forall f :: f in fs.order(n.entries.Keys) <==> f in (set c | c in fs.order(n.entries.Keys));
  }

  /** A trailing separator of the first copied path is dropped. */
  function TrimFirst(paths: seq<bytes>): seq<bytes>
    requires forall i | 0 <= i < |paths| :: paths[i] != []
  {
    if paths != [] && paths[0][|paths[0]| - 1] == SLASH then [paths[0][..|paths[0]| - 1]] + paths[1..] else paths
  }

  /** Only the first path is changed: it loses one separator at its end. */
  lemma TrimFirstIs(paths: seq<bytes>)
    requires forall i | 0 <= i < |paths| :: paths[i] != []
    ensures paths == [] ==> TrimFirst(paths) == []
    ensures paths != [] ==>
      var first := TrimFirst(paths)[0];
      && |TrimFirst(paths)| == |paths| && TrimFirst(paths)[1..] == paths[1..]
      && (paths[0][|paths[0]| - 1] == '/' as int ==> paths[0] == first + ['/' as int])
      && (paths[0][|paths[0]| - 1] != '/' as int ==> paths[0] == first)
  {
  }

  /** The length of the common parent: everything up to the last separator of the first path, unless that separator
      is the root. */
  function ParentLength(paths: seq<bytes>): nat {
    if paths == [] || AfterLastSlash(paths[0]) <= 1 then 0 else AfterLastSlash(paths[0])
  }

  /** The leaves of every copied path; what does not exist is skipped. */
  function SelectedLeaves(order: set<bytes> -> seq<bytes>, leafDirs: bool, root: Node, cwd: Path, paths: seq<bytes>)
    : seq<bytes>
  {
    if paths == [] then []
    else
      SelectedHere(order, leafDirs, root, cwd, paths[0]) + SelectedLeaves(order, leafDirs, root, cwd, paths[1..])
  }

  function SelectedHere(order: set<bytes> -> seq<bytes>, leafDirs: bool, root: Node, cwd: Path,
      path: bytes): seq<bytes> {
    if !Exists(root, cwd, path) then []
    else
      match Get(root, Resolve(root, cwd, path).value).value
      case File(_) => [path]
      case Dir(m) => LeavesIn(order, leafDirs, path, Dir(m), 1)
  }

  /** Every listed path begins with one of the given paths. */
  ghost predicate Among(items: seq<bytes>, paths: seq<bytes>) {
    forall f | f in items :: |f| <= MAX_PATH_LENGTH + 1 && exists p | p in paths :: p <= f
  }

  lemma StillAmong(was: seq<bytes>, now: seq<bytes>, paths: seq<bytes>, path: bytes)
    requires Among(was, paths) && Grown(was, now, path) && path in paths
    ensures Among(now, paths)
  {
    forall f | f in now
      ensures |f| <= MAX_PATH_LENGTH + 1 && exists p | p in paths :: p <= f
    {
      var i :| 0 <= i < |now| && now[i] == f;
      if i < |was| {
        assert f == was[i];
      }
    }
  }

  /** The loop of get_copied_files, used by version 1: only regular files, as they were copied. */
  method GetCopiedFiles(fs: FileSystem, copied: seq<bytes>) returns (files: seq<bytes>)
    ensures files == RegularFiles(fs.root, fs.cwd, copied)
  {
    hide RegularFiles, Resolve, Exists, DirAt;
    files := [];
    var i := 0;
    RegularSteps(fs.root, fs.cwd, copied, 0);
    while i < |copied|
      invariant 0 <= i <= |copied|
      invariant RegularFiles(fs.root, fs.cwd, copied) == files + RegularFiles(fs.root, fs.cwd, copied[i..])
    {
      RegularSteps(fs.root, fs.cwd, copied, i);
      var kind := fs.IsDirectory(copied[i]);
      if kind == 0 {
        files := files + [copied[i]];
      }
      i := i + 1;
    }
    RegularSteps(fs.root, fs.cwd, copied, i);
  }

  predicate Regular(root: Node, cwd: Path, path: bytes) {
    Exists(root, cwd, path) && !DirAt(root, Resolve(root, cwd, path).value)
  }

  function RegularFiles(root: Node, cwd: Path, paths: seq<bytes>): (files: seq<bytes>)
    ensures forall f | f in files :: f in paths
  {
    if paths == [] then []
    else (if Regular(root, cwd, paths[0]) then [paths[0]] else []) + RegularFiles(root, cwd, paths[1..])
  }

  /** Each path is judged by itself, in order. */
  lemma {:induction false} RegularOneByOne(root: Node, cwd: Path, a: seq<bytes>, b: seq<bytes>)
    ensures RegularFiles(root, cwd, a + b) == RegularFiles(root, cwd, a) + RegularFiles(root, cwd, b)
  {
    hide Regular;
    if a == [] {
      assert a + b == b;
    } else {
      assert (a + b)[1..] == a[1..] + b;
      RegularOneByOne(root, cwd, a[1..], b);
    }
  }

  /** A path is in the list when it is a file. */
  lemma RegularIsFile(root: Node, cwd: Path, path: bytes)
    ensures var p := Resolve(root, cwd, path);
            RegularFiles(root, cwd, [path])
            == if p.Some? && Get(root, p.value).Some? && Get(root, p.value).value.File? then [path] else []
  {
    hide Resolve, Get;
    assert [path][1..] == [] && RegularFiles(root, cwd, []) == [];
  }

  lemma RegularSteps(root: Node, cwd: Path, paths: seq<bytes>, i: nat)
    requires i <= |paths|
    ensures paths[0..] == paths
    ensures i == |paths| ==> RegularFiles(root, cwd, paths[i..]) == []
    ensures i < |paths| ==>
      RegularFiles(root, cwd, paths[i..])
      == (if Regular(root, cwd, paths[i]) then [paths[i]] else []) + RegularFiles(root, cwd, paths[i + 1..])
  {
    if i < |paths| {
      assert paths[i..][1..] == paths[i + 1..];
    }
  }

  /** The loop of get_copied_dirs_files over the decoded paths. */
  method GetCopiedDirsFiles(fs: FileSystem, copied: seq<bytes>, leafDirs: bool) returns (lst: PathList, pathLen: nat)
    requires fs.Valid()
    requires forall i | 0 <= i < |copied| :: 0 < |copied[i]| < MAX_PATH_LENGTH && NulFree(copied[i])
    modifies fs`ops
    ensures fs.Valid() && fresh(lst) && pathLen == ParentLength(TrimFirst(copied))
    ensures Among(lst.items, TrimFirst(copied))
    ensures fs.Reliable() ==> lst.items == SelectedLeaves(fs.order, leafDirs, fs.root, fs.cwd, TrimFirst(copied))
  {
    hide Walk, Split, Proper, WithSlash, LeavesIn, Among, SelectedLeaves, Grown, Enumerates, TrimFirst, ParentLength,
      SelectedHere, NulFree, Get, Resolve, Exists, LeavesOf, AfterLastSlash, DirAt, ProperPath;
    lst := new PathList();
    var paths := TrimFirst(copied);
    TrimmedPaths(copied);
    pathLen := ParentLength(paths);
    ghost var all := SelectedLeaves(fs.order, leafDirs, fs.root, fs.cwd, paths);
    var i := 0;
    SelectedSteps(fs.order, leafDirs, fs.root, fs.cwd, paths, 0);
    while i < |paths|
      invariant 0 <= i <= |paths| && fs.Valid() && Among(lst.items, paths)
      invariant fs.Reliable() ==> all == lst.items + SelectedLeaves(fs.order, leafDirs, fs.root, fs.cwd, paths[i..])
    {
      SelectedSteps(fs.order, leafDirs, fs.root, fs.cwd, paths, i);
      ListSelected(fs, paths, paths[i], lst, leafDirs);
      i := i + 1;
    }
    SelectedSteps(fs.order, leafDirs, fs.root, fs.cwd, paths, i);
  }

  lemma TrimmedPaths(copied: seq<bytes>)
    requires forall i | 0 <= i < |copied| :: 0 < |copied[i]| < MAX_PATH_LENGTH && NulFree(copied[i])
    ensures |TrimFirst(copied)| == |copied|
    ensures forall i | 0 <= i < |copied| :: NulFree(TrimFirst(copied)[i]) && |TrimFirst(copied)[i]| < MAX_PATH_LENGTH
  {
  }

  lemma SelectedSteps(order: set<bytes> -> seq<bytes>, leafDirs: bool, root: Node, cwd: Path, paths: seq<bytes>, i: nat)
    requires i <= |paths|
    ensures paths[0..] == paths && Among([], paths)
    ensures i == |paths| ==> SelectedLeaves(order, leafDirs, root, cwd, paths[i..]) == []
    ensures i < |paths| ==>
      SelectedLeaves(order, leafDirs, root, cwd, paths[i..])
      == SelectedHere(order, leafDirs, root, cwd, paths[i]) + SelectedLeaves(order, leafDirs, root, cwd, paths[i + 1..])
  {
    if i < |paths| {
      assert paths[i..][1..] == paths[i + 1..];
    }
  }

  /** One round of that loop. */
  method ListSelected(fs: FileSystem, ghost paths: seq<bytes>, path: bytes, lst: PathList, leafDirs: bool)
    requires fs.Valid() && NulFree(path) && |path| < MAX_PATH_LENGTH && path in paths && Among(lst.items, paths)
    modifies lst, fs`ops
    ensures fs.Valid() && Among(lst.items, paths)
    ensures fs.Reliable() ==>
      lst.items == old(lst.items) + SelectedHere(fs.order, leafDirs, fs.root, fs.cwd, path)
  {
    hide Walk, Split, Proper, WithSlash, LeavesIn, Among, Enumerates, Resolve;
    ghost var before := lst.items;
    var kind := fs.IsDirectory(path);
    if kind == 1 {
      ghost var p := Resolve(fs.root, fs.cwd, path).value;
      RecurseDir(fs, path, lst, 1, leafDirs, p, Get(fs.root, p).value);
      StillAmong(before, lst.items, paths, path);
    } else if kind == 0 {
      lst.Append(path);
      StillAmong(before, lst.items, paths, path);
    } else {
      assert before + [] == before;
    }
  }
}
