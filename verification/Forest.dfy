/** Why taking a forest apart into its leaves and adding the leaves one by one gives the forest back. */
module Forest {
  import opened Bytes
  import opened Trees
  import opened FileSystems

  /** A file, or an empty directory, and the path to it. */
  datatype Leaf = Leaf(path: Path, node: Node)

  function PrefixAll(c: bytes, ls: seq<Leaf>): (r: seq<Leaf>)
    ensures |r| == |ls| && forall i | 0 <= i < |ls| :: r[i] == Leaf([c] + ls[i].path, ls[i].node)
  {
    if ls == [] then [] else [Leaf([c] + ls[0].path, ls[0].node)] + PrefixAll(c, ls[1..])
  }

  /** The leaves of a tree; empty directories count when leafDirs is set. */
  function Leaves(order: set<bytes> -> seq<bytes>, leafDirs: bool, n: Node): seq<Leaf>
    decreases n, 1, 0
  {
    match n
    case File(_) => [Leaf([], n)]
    case Dir(m) =>
      if m == map[] then (if leafDirs then [Leaf([], n)] else [])
      else LeavesUnder(order, leafDirs, n, order(m.Keys))
  }

  /** The leaves below the named entries. */
  function LeavesUnder(order: set<bytes> -> seq<bytes>, leafDirs: bool, n: Node, names: seq<bytes>): seq<Leaf>
    requires n.Dir?
    decreases n, 0, |names|
  {
    if names == [] || names[0] !in n.entries then []
    else
      PrefixAll(names[0], Leaves(order, leafDirs, n.entries[names[0]])) + LeavesUnder(order, leafDirs, n, names[1..])
  }

  /** Whether something of the tree is listed. */
  ghost predicate Kept(leafDirs: bool, n: Node) {
    match n
    case File(_) => true
    case Dir(m) => (leafDirs && m == map[]) || exists c | c in m :: Kept(leafDirs, m[c])
  }

  /** The tree without the directories in which nothing is listed. */
  ghost function Pruned(leafDirs: bool, n: Node): Node {
    match n
    case File(_) => n
    case Dir(m) => Dir(map c | c in m && Kept(leafDirs, m[c]) :: Pruned(leafDirs, m[c]))
  }

  /** With empty directories listed nothing is lost. */
  lemma {:induction false} NothingPruned(n: Node)
    ensures Kept(true, n) && Pruned(true, n) == n
  {
    match n
    case File(_) =>
    case Dir(m) =>
      forall c | c in m
        ensures Kept(true, m[c]) && Pruned(true, m[c]) == m[c]
      {
        NothingPruned(m[c]);
      }
      if m != map[] {
        var c :| c in m;
        assert Kept(true, m[c]);
      }
      assert Pruned(true, n).entries == m;
  }

  /** Adding leaves one after the other; None when one does not fit. */
  function InsertAll(m: Entries, ls: seq<Leaf>): Option<Entries>
    decreases |ls|
  {
    if ls == [] then Some(m)
    else if ls[0].path == [] then None
    else
      match Insert(m, ls[0].path, ls[0].node)
      case None => None
      case Some(m') => InsertAll(m', ls[1..])
  }

  lemma {:induction false} InsertAllCat(m: Entries, a: seq<Leaf>, b: seq<Leaf>)
    ensures InsertAll(m, a + b) == match InsertAll(m, a)
                                   case None => None
                                   case Some(m') => InsertAll(m', b)
    decreases |a|
  {
    if a == [] {
      assert a + b == b;
    } else {
      assert (a + b)[0] == a[0] && (a + b)[1..] == a[1..] + b;
      if a[0].path != [] && Insert(m, a[0].path, a[0].node).Some? {
        InsertAllCat(Insert(m, a[0].path, a[0].node).value, a[1..], b);
      }
    }
  }

  lemma InsertHere(m: Entries, c: bytes, leaf: Node)
    ensures Insert(m, [c], leaf) == if c in m then None else Some(m[c := leaf])
  {
    assert [c][..0] == [] && [c][1..] == [];
    InsertUnfolds(m, [], c, leaf);
    assert [] + [c] == [c];
  }

  /** Adding below an entry is adding to that entry. */
  lemma InsertBelow(m: Entries, c: bytes, p: Path, leaf: Node)
    requires p != [] && Child(m, c).Dir?
    ensures Insert(m, [c] + p, leaf) == match Insert(Child(m, c).entries, p, leaf)
                                        case None => None
                                        case Some(sub) => Some(m[c := Dir(sub)])
  {
    hide Insert, Put, Get, CanPut;
    var q, last := p[..|p| - 1], p[|p| - 1];
    var sub := Child(m, c).entries;
    assert p == q + [last] && [c] + p == ([c] + q) + [last];
    assert ([c] + q)[1..] == q && ([c] + p)[1..] == p;
    InsertUnfolds(m, [c] + q, last, leaf);
    InsertUnfolds(sub, q, last, leaf);
    if MakeDirs(sub, q).Some? {
      var sub' := MakeDirs(sub, q).value;
      var m' := m[c := Dir(sub')];
      assert MakeDirs(m, [c] + q) == Some(m');
      PutInChild(m, c, sub', p, leaf);
    }
  }

  /** Below a directory the same is found and put as from that directory on. */
  lemma PutInChild(m: Entries, c: bytes, sub: Entries, p: Path, leaf: Node)
    requires p != []
    ensures var m' := m[c := Dir(sub)];
            && Get(Dir(m'), [c] + p) == Get(Dir(sub), p)
            && (CanPut(Dir(m'), [c] + p) <==> CanPut(Dir(sub), p))
            && (CanPut(Dir(sub), p) ==>
                 && Put(Dir(sub), p, leaf).Dir?
                 && Put(Dir(m'), [c] + p, leaf) == Dir(m[c := Put(Dir(sub), p, leaf)]))
  {
    var m' := m[c := Dir(sub)];
    assert ([c] + p)[0] == c && ([c] + p)[1..] == p;
    if CanPut(Dir(sub), p) {
      assert m'[c := Put(Dir(sub), p, leaf)] == m[c := Put(Dir(sub), p, leaf)];
    }
  }

  /** A whole list below a new entry, which exists from the first leaf on. */
  lemma {:induction false} InsertAllBelow(m: Entries, c: bytes, ls: seq<Leaf>)
    requires Child(m, c).Dir? && (forall l | l in ls :: l.path != []) && (ls == [] ==> c in m)
    ensures InsertAll(m, PrefixAll(c, ls)) == match InsertAll(Child(m, c).entries, ls)
                                              case None => None
                                              case Some(sub) => Some(m[c := Dir(sub)])
    decreases |ls|
  {
    if ls == [] {
      assert m[c := m[c]] == m;
    } else {
      InsertBelow(m, c, ls[0].path, ls[0].node);
      assert PrefixAll(c, ls)[1..] == PrefixAll(c, ls[1..]);
      var first := Insert(Child(m, c).entries, ls[0].path, ls[0].node);
      if first.Some? {
        var m' := m[c := Dir(first.value)];
        InsertAllBelow(m', c, ls[1..]);
        var rest := InsertAll(first.value, ls[1..]);
        assert rest.Some? ==> m'[c := Dir(rest.value)] == m[c := Dir(rest.value)];
      }
    }
  }

  /** Inside a directory every leaf has a path. */
  lemma {:induction false} UnderHasPath(order: set<bytes> -> seq<bytes>, leafDirs: bool, n: Node, names: seq<bytes>)
    requires n.Dir?
    ensures forall l | l in LeavesUnder(order, leafDirs, n, names) :: l.path != []
    decreases |names|
  {
    if names != [] && names[0] in n.entries {
      UnderHasPath(order, leafDirs, n, names[1..]);
    }
  }

  /** The entries among names of which something is listed, pruned. */
  ghost function KeptAmong(leafDirs: bool, m: Entries, names: seq<bytes>): Entries {
    map c | c in m && c in names && Kept(leafDirs, m[c]) :: Pruned(leafDirs, m[c])
  }

  /** Without empty directories, a tree is kept for the files in it. */
  lemma KeptForFile(n: Node)
    ensures Kept(false, n) <==> exists q: Path, d: bytes :: Get(n, q) == Some(File(d))
  {
    if Kept(false, n) {
      var q, d := FileInKept(n);
    }
    forall q: Path, d: bytes | Get(n, q) == Some(File(d))
      ensures Kept(false, n)
    {
      FileKeeps(n, q, d);
    }
  }

  lemma {:induction false} FileInKept(n: Node) returns (q: Path, d: bytes)
    requires Kept(false, n)
    ensures Get(n, q) == Some(File(d))
  {
    match n
    case File(data) =>
      q, d := [], data;
    case Dir(m) =>
      var c :| c in m && Kept(false, m[c]);
      q, d := FileInKept(m[c]);
      assert ([c] + q)[1..] == q;
      q := [c] + q;
  }

  lemma {:induction false} FileKeeps(n: Node, q: Path, d: bytes)
    requires Get(n, q) == Some(File(d))
    ensures Kept(false, n)
    decreases |q|
  {
    if n.Dir? {
      FileKeeps(n.entries[q[0]], q[1..], d);
    }
  }

  /** Below a place with a file something is kept. */
  lemma KeptAbove(n: Node, p: Path)
    requires Get(n, p).Some? && Kept(false, Get(n, p).value)
    ensures Kept(false, n)
  {
    KeptForFile(Get(n, p).value);
    var q: Path, d: bytes :| Get(Get(n, p).value, q) == Some(File(d));
    GetAppend(n, p, q);
    assert Get(n, p + q) == Some(File(d));
    KeptForFile(n);
  }

  lemma {:induction false} PrunedAt(n: Node, p: Path)
    ensures var was, now := Get(n, p), Get(Pruned(false, n), p);
            && (now.Some? <==> was.Some? && (p == [] || Kept(false, was.value)))
            && (now.Some? ==> now.value == Pruned(false, was.value))
    decreases |p|
  {
    if p != [] && n.Dir? && p[0] in n.entries {
      PrunedAt(n.entries[p[0]], p[1..]);
      if Get(n, p).Some? && Kept(false, Get(n, p).value) {
        KeptAbove(n.entries[p[0]], p[1..]);
      }
    }
  }

  /** What version 2 keeps: every file below the named entries with its bytes, every directory with a file somewhere
      below it, and nothing else. */
  lemma PrunedExactly(m: Entries, names: seq<bytes>, p: Path)
    requires p != []
    ensures var was, now := Get(Dir(m), p), Get(Dir(KeptAmong(false, m, names)), p);
            && (now.Some? && now.value.File? <==> p[0] in names && was.Some? && was.value.File?)
            && (now.Some? && now.value.File? ==> now == was)
            && (now.Some? && now.value.Dir? <==>
                 && p[0] in names && was.Some? && was.value.Dir?
                 && exists q: Path, d: bytes :: Get(was.value, q) == Some(File(d)))
  {
    var c := p[0];
    if Get(Dir(m), p).Some? {
      KeptForFile(Get(Dir(m), p).value);
    }
    if c in m {
      PrunedAt(m[c], p[1..]);
      if Get(m[c], p[1..]).Some? && Kept(false, Get(m[c], p[1..]).value) {
        KeptAbove(m[c], p[1..]);
      }
    }
  }

  lemma {:induction false} ListedIffKept(order: set<bytes> -> seq<bytes>, leafDirs: bool, n: Node)
    requires Enumerates(order)
    ensures Leaves(order, leafDirs, n) != [] <==> Kept(leafDirs, n)
    decreases n, 1, 0
  {
    if n.Dir? && n.entries != map[] {
      ListedAmong(order, leafDirs, n, order(n.entries.Keys));
      assert forall c :: c in order(n.entries.Keys) <==> c in (set x | x in order(n.entries.Keys));
    }
  }

  lemma {:induction false} ListedAmong(order: set<bytes> -> seq<bytes>, leafDirs: bool, n: Node, names: seq<bytes>)
    requires Enumerates(order) && n.Dir? && forall c | c in names :: c in n.entries
    ensures LeavesUnder(order, leafDirs, n, names) != [] <==> exists c | c in names :: Kept(leafDirs, n.entries[c])
    decreases n, 0, |names|
  {
    if names != [] {
      ListedIffKept(order, leafDirs, n.entries[names[0]]);
      ListedAmong(order, leafDirs, n, names[1..]);
      assert forall c :: c in names <==> c == names[0] || c in names[1..];
    }
  }

  /** Rebuilding one entry from its leaves. */
  lemma {:induction false} RebuildEntry(order: set<bytes> -> seq<bytes>, leafDirs: bool, m: Entries, c: bytes, n: Node)
    requires Enumerates(order) && c !in m
    ensures InsertAll(m, PrefixAll(c, Leaves(order, leafDirs, n)))
         == Some(if Kept(leafDirs, n) then m[c := Pruned(leafDirs, n)] else m)
    decreases n, 1, 0
  {
    hide Insert, MakeDirs;
    ListedIffKept(order, leafDirs, n);
    if n.File? || n.entries == map[] {
      RebuildLeaf(order, leafDirs, m, c, n);
    } else if Kept(leafDirs, n) {
      var names := order(n.entries.Keys);
      OrderLists(order, n.entries.Keys);
      UnderHasPath(order, leafDirs, n, names);
      InsertAllBelow(m, c, LeavesUnder(order, leafDirs, n, names));
      RebuildAmong(order, leafDirs, map[], n, names);
      KeptAmongAll(leafDirs, n, names);
    }
  }

  lemma OrderLists(order: set<bytes> -> seq<bytes>, s: set<bytes>)
    requires Enumerates(order)
    ensures Distinct(order(s)) && forall x :: x in order(s) <==> x in s
  {
    assert forall x :: x in order(s) <==> x in (set y | y in order(s));
  }

  lemma KeptAmongAll(leafDirs: bool, n: Node, names: seq<bytes>)
    requires n.Dir? && forall x :: x in names <==> x in n.entries
    ensures map[] + KeptAmong(leafDirs, n.entries, names) == Pruned(leafDirs, n).entries
  {
  }

  lemma RebuildLeaf(order: set<bytes> -> seq<bytes>, leafDirs: bool, m: Entries, c: bytes, n: Node)
    requires c !in m && (n.File? || n.entries == map[])
    ensures InsertAll(m, PrefixAll(c, Leaves(order, leafDirs, n)))
         == Some(if Kept(leafDirs, n) then m[c := Pruned(leafDirs, n)] else m)
  {
    var ls := Leaves(order, leafDirs, n);
    if ls != [] {
      assert [c] + [] == [c];
      assert PrefixAll(c, ls) == [Leaf([c], n)];
      InsertHere(m, c, n);
      assert n.Dir? ==> Pruned(leafDirs, n).entries == map[];
    }
  }

  /** Rebuilding the named entries of a directory. */
  lemma {:induction false} RebuildAmong(order: set<bytes> -> seq<bytes>, leafDirs: bool, m: Entries, n: Node,
      names: seq<bytes>)
    requires Enumerates(order) && n.Dir? && Distinct(names)
    requires forall c | c in names :: c in n.entries && c !in m
    ensures InsertAll(m, LeavesUnder(order, leafDirs, n, names)) == Some(m + KeptAmong(leafDirs, n.entries, names))
    decreases n, 0, |names|
  {
    hide Insert, Leaves, PrefixAll, Pruned, Kept, KeptAmong, InsertAll;
    if names == [] {
      KeptAmongNone(leafDirs, m, n.entries);
      InsertNothing(m);
    } else {
      var c, rest := names[0], names[1..];
      var k := n.entries[c];
      var m' := if Kept(leafDirs, k) then m[c := Pruned(leafDirs, k)] else m;
      RebuildEntry(order, leafDirs, m, c, k);
      InsertAllCat(m, PrefixAll(c, Leaves(order, leafDirs, k)), LeavesUnder(order, leafDirs, n, rest));
      RebuildAmong(order, leafDirs, m', n, rest);
      KeptAmongStep(leafDirs, m, n.entries, c, rest);
      assert names == [c] + rest;
    }
  }

  lemma InsertNothing(m: Entries)
    ensures InsertAll(m, []) == Some(m)
  {
  }

  lemma KeptAmongNone(leafDirs: bool, m: Entries, all: Entries)
    ensures m + KeptAmong(leafDirs, all, []) == m
  {
    assert KeptAmong(leafDirs, all, []) == map[];
  }

  lemma KeptAmongStep(leafDirs: bool, m: Entries, all: Entries, c: bytes, rest: seq<bytes>)
    requires c in all && c !in rest && c !in m
    ensures (if Kept(leafDirs, all[c]) then m[c := Pruned(leafDirs, all[c])] else m) + KeptAmong(leafDirs, all, rest)
         == m + KeptAmong(leafDirs, all, [c] + rest)
  {
    hide Kept, Pruned;
    assert forall x :: x in [c] + rest <==> x == c || x in rest;
  }
}
