/** A forest that is listed, sent and received is the same forest. */
module RoundTrip {
  import opened Bytes
  import opened Wire
  import opened Session
  import opened Trees
  import opened Paths
  import opened FileSystems
  import opened Flatten
  import opened Forest
  import opened SendFiles
  import opened ReceivedNames
  import opened Mkdirs
  import opened SaveFiles
  import opened TempTrees
  import opened ReceiveFiles
  import opened GetFiles

  /** The components with separators between them. */
  function Join(p: Path): bytes
    requires p != []
  {
    if |p| == 1 then p[0] else p[0] + [SLASH] + Join(p[1..])
  }

  lemma {:induction false} JoinSplit(p: Path)
    requires p != [] && ProperPath(p)
    ensures Split(Join(p)) == p && NulFree(Join(p)) && Join(p) != [] && Join(p)[0] != SLASH
    ensures Join(p)[|Join(p)| - 1] != SLASH
    ensures forall b | b in Join(p) :: b == SLASH || exists c | c in p :: b in c
  {
    hide Split;
    SplitWhole(p[0]);
    assert p[0] in p && p[0][0] in p[0] && p[0][|p[0]| - 1] in p[0];
    if |p| > 1 {
      assert forall i | 0 <= i < |p[1..]| :: p[1..][i] == p[i + 1];
      JoinSplit(p[1..]);
      SplitCat(p[0], Join(p[1..]));
      forall b | b in Join(p)
        ensures b == SLASH || exists c | c in p :: b in c
      {
        if b !in p[0] && b != SLASH {
          assert b in Join(p[1..]);
          var c :| c in p[1..] && b in c;
          assert c in p;
        }
      }
    }
  }

  /** A separator before every component. */
  function Down(p: Path): bytes {
    if p == [] then [] else [SLASH] + p[0] + Down(p[1..])
  }

  lemma {:induction false} DownJoin(p: Path)
    requires p != []
    ensures Down(p) == [SLASH] + Join(p)
  {
    if |p| == 1 {
      assert Down(p[1..]) == [];
    } else {
      DownJoin(p[1..]);
    }
  }

  /** The path string a leaf is listed under, below the path string s. */
  function LeafString(s: bytes, l: Leaf): bytes {
    s + Down(l.path) + if l.node.Dir? then [SLASH] else []
  }

  function Strings(s: bytes, ls: seq<Leaf>): seq<bytes> {
    if ls == [] then [] else [LeafString(s, ls[0])] + Strings(s, ls[1..])
  }

  lemma {:induction false} StringsCat(s: bytes, a: seq<Leaf>, b: seq<Leaf>)
    ensures Strings(s, a + b) == Strings(s, a) + Strings(s, b)
  {
    if a == [] {
      assert a + b == b;
    } else {
      assert (a + b)[1..] == a[1..] + b;
      StringsCat(s, a[1..], b);
    }
  }

  lemma {:induction false} StringsBelow(s: bytes, c: bytes, ls: seq<Leaf>)
    ensures Strings(s, PrefixAll(c, ls)) == Strings(s + [SLASH] + c, ls)
  {
    if ls != [] {
      var l := Leaf([c] + ls[0].path, ls[0].node);
      assert l.path[1..] == ls[0].path;
      assert PrefixAll(c, ls)[1..] == PrefixAll(c, ls[1..]);
      assert LeafString(s, l) == LeafString(s + [SLASH] + c, ls[0]);
      StringsBelow(s, c, ls[1..]);
    }
  }

  /** Not nested too deeply, and no path too long, below a path string of the given length. */
  ghost predicate Listable(len: nat, n: Node, depth: nat)
    decreases n
  {
    n.Dir? ==>
      && depth < MAX_RECURSE_DEPTH && len <= MAX_PATH_LENGTH
      && forall c | c in n.entries ::
           |c| + len + 1 <= MAX_PATH_LENGTH && Listable(len + 1 + |c|, n.entries[c], depth + 1)
  }

  predicate Plain(s: bytes) {
    s != [] && s[|s| - 1] != SLASH
  }

  /** _recurse_dir lists the leaves of the tree. */
  lemma {:induction false} ListedLeaves(order: set<bytes> -> seq<bytes>, leafDirs: bool, s: bytes, n: Node, depth: nat)
    requires Enumerates(order) && Proper(n) && Plain(s) && Listable(|s|, n, depth)
    ensures LeavesOf(order, leafDirs, s, n, depth) == Strings(s, Leaves(order, leafDirs, n))
    decreases n, 1, 0
  {
    if n.Dir? {
      var names := order(n.entries.Keys);
      OrderLists(order, n.entries.Keys);
      if n.entries == map[] {
        if names != [] {
          NonemptyHas(names);
        }
        ListedEmpty(order, leafDirs, s, n, depth);
      } else {
        var c :| c in n.entries;
        assert c in names;
        ListedLeavesUnder(order, leafDirs, s, n, names, depth + 1);
        assert LeavesIn(order, leafDirs, s, n, depth + 1)
            == LeavesOfAll(order, leafDirs, WithSlash(s), n, names, depth + 1);
      }
    } else {
      assert LeafString(s, Leaf([], n)) == s;
    }
  }

  lemma NonemptyHas(names: seq<bytes>)
    requires names != []
    ensures exists c :: c in names
  {
    assert names[0] in names;
  }

  lemma ListedEmpty(order: set<bytes> -> seq<bytes>, leafDirs: bool, s: bytes, n: Node, depth: nat)
    requires n.Dir? && n.entries == map[] && order(n.entries.Keys) == [] && Plain(s) && Listable(|s|, n, depth)
    ensures LeavesOf(order, leafDirs, s, n, depth) == Strings(s, Leaves(order, leafDirs, n))
  {
    assert LeafString(s, Leaf([], n)) == WithSlash(s);
    assert LeavesOf(order, leafDirs, s, n, depth) == LeavesIn(order, leafDirs, s, n, depth + 1);
    assert LeavesOfAll(order, leafDirs, WithSlash(s), n, [], depth + 1) == [];
    assert Strings(s, []) == [];
  }

  lemma {:induction false} ListedLeavesUnder(order: set<bytes> -> seq<bytes>, leafDirs: bool, s: bytes, n: Node,
      names: seq<bytes>, depth: nat)
    requires Enumerates(order) && Proper(n) && n.Dir? && Plain(s) && forall c | c in names :: c in n.entries
    requires forall c | c in n.entries ::
      |c| + |s| + 1 <= MAX_PATH_LENGTH && Listable(|s| + 1 + |c|, n.entries[c], depth)
    ensures LeavesOfAll(order, leafDirs, WithSlash(s), n, names, depth)
         == Strings(s, LeavesUnder(order, leafDirs, n, names))
    decreases n, 0, |names|
  {
    if names != [] {
      var c := names[0];
      var below := s + [SLASH] + c;
      assert WithSlash(s) + c == below;
      ListedLeaves(order, leafDirs, below, n.entries[c], depth);
      ListedLeavesUnder(order, leafDirs, s, n, names[1..], depth);
      var ls := Leaves(order, leafDirs, n.entries[c]);
      StringsBelow(s, c, ls);
      StringsCat(s, PrefixAll(c, ls), LeavesUnder(order, leafDirs, n, names[1..]));
    }
  }

  /** A leaf is found where its path says. */
  lemma {:induction false} LeavesAreThere(order: set<bytes> -> seq<bytes>, leafDirs: bool, n: Node)
    requires Proper(n)
    ensures forall l | l in Leaves(order, leafDirs, n) ::
      ProperPath(l.path) && Get(n, l.path) == Some(l.node) && (l.node.Dir? ==> l.node.entries == map[])
    decreases n, 1, 0
  {
    if n.Dir? && n.entries != map[] {
      LeavesUnderAreThere(order, leafDirs, n, order(n.entries.Keys));
    }
  }

  lemma {:induction false} LeavesUnderAreThere(order: set<bytes> -> seq<bytes>, leafDirs: bool, n: Node,
      names: seq<bytes>)
    requires Proper(n) && n.Dir?
    ensures forall l | l in LeavesUnder(order, leafDirs, n, names) ::
      && ProperPath(l.path) && l.path != [] && Get(n, l.path) == Some(l.node)
      && (l.node.Dir? ==> l.node.entries == map[])
    decreases n, 0, |names|
  {
    if names != [] && names[0] in n.entries {
      var c := names[0];
      LeavesAreThere(order, leafDirs, n.entries[c]);
      LeavesUnderAreThere(order, leafDirs, n, names[1..]);
      var ls := Leaves(order, leafDirs, n.entries[c]);
      forall l | l in PrefixAll(c, ls)
        ensures ProperPath(l.path) && l.path != [] && Get(n, l.path) == Some(l.node)
        ensures l.node.Dir? ==> l.node.entries == map[]
      {
        var i :| 0 <= i < |ls| && l == PrefixAll(c, ls)[i];
        assert ls[i] in ls;
        assert l.path[1..] == ls[i].path;
      }
    }
  }

  lemma WithSlashPlain(s: bytes)
    requires Plain(s)
    ensures WithSlash(s) == s + [SLASH]
  {
  }

  /** Path strings resolve all the way down. */
  lemma {:induction false} Descend(root: Node, cwd: Path, s: bytes, q: Path, p: Path)
    requires Plain(s) && Resolve(root, cwd, s) == Some(q) && Get(root, q + p).Some? && ProperPath(p)
    ensures Resolve(root, cwd, s + Down(p)) == Some(q + p)
    decreases |p|
  {
    hide Resolve, Split, Walk, WithSlash, Down, Get, Plain;
    DownFirst(s, p);
    if p == [] {
      assert q + p == q;
    } else {
      WithSlashPlain(s);
      WayThrough(root, q, p);
      ChildResolves(root, cwd, s, q, p[0]);
      assert q + p == (q + [p[0]]) + p[1..];
      PlainChild(s, p[0]);
      Descend(root, cwd, s + [SLASH] + p[0], q + [p[0]], p[1..]);
    }
  }

  lemma DownFirst(s: bytes, p: Path)
    ensures p == [] ==> s + Down(p) == s
    ensures p != [] ==> (s + [SLASH] + p[0]) + Down(p[1..]) == s + Down(p)
  {
  }

  lemma WayThrough(root: Node, q: Path, p: Path)
    requires p != [] && Get(root, q + p).Some?
    ensures DirAt(root, q)
  {
    GetAppend(root, q, p);
  }

  lemma PlainChild(s: bytes, name: bytes)
    requires ProperName(name)
    ensures Plain(s + [SLASH] + name)
  {
    assert name[|name| - 1] in name;
  }

  /** "" or "/": a parent that is the root brings its separator into every announced name. */
  function Lead(par: bytes): bytes {
    if par == [] then [SLASH] else []
  }

  function LeafItem(par: bytes, l: Leaf): Item
    requires l.path != []
  {
    match l.node
    case File(data) => FileItem(Lead(par) + Join(l.path), data)
    case Dir(_) => DirItem(Lead(par) + Join(l.path))
  }

  function LeafItems(par: bytes, ls: seq<Leaf>): (items: seq<Item>)
    requires forall l | l in ls :: l.path != []
    ensures |items| == |ls|
  {
    if ls == [] then [] else [LeafItem(par, ls[0])] + LeafItems(par, ls[1..])
  }

  /** par is the path string of the directory P, without a separator at the end; the root is "". */
  ghost predicate IsParent(root: Node, cwd: Path, par: bytes, P: Path) {
    && DirAt(root, P)
    && if par == [] then P == [] else Plain(par) && Resolve(root, cwd, par) == Some(P)
  }

  /** The name and the size of a leaf are ones both ends accept. */
  ghost predicate GoodLeaf(setup: Setup, limits: Limits, par: bytes, l: Leaf) {
    && ProperPath(l.path) && l.path != []
    && (l.node.Dir? ==> l.node.entries == map[])
    && setup.utf8(Lead(par) + Join(l.path)) && |Join(l.path)| <= 2000
    && (forall c, b | c in l.path && b in c :: b >= 32)
    && (l.node.File? ==> SizeAllowed(limits, |l.node.data|) && |l.node.data| <= setup.maxFileSize)
    && (l.node.File? ==> |l.node.data| < TWO_63)
  }

  lemma FirstStep(root: Node, cwd: Path, par: bytes, P: Path, c: bytes)
    requires IsParent(root, cwd, par, P) && ProperName(c)
    ensures Resolve(root, cwd, par + [SLASH] + c) == Some(P + [c]) && Plain(par + [SLASH] + c)
    ensures |par + [SLASH] + c| == |par| + 1 + |c|
  {
    assert c[|c| - 1] in c;
    if par == [] {
      assert par + [SLASH] + c == [] + [SLASH] + c;
      SplitCat([], c);
      SplitWhole(c);
      WalkCat(root, [], [[]], [c]);
      var none: seq<bytes> := [[]];
      assert none[1..] == [] && [c][1..] == [];
      assert Walk(root, [], none) == Some([]);
    } else {
      WithSlashPlain(par);
      ChildResolves(root, cwd, par, P, c);
    }
  }

  /** How far the common parent goes in a listed path. */
  lemma SentLeafName(v: nat, par: bytes, l: Leaf, pathLen: nat)
    requires l.path != [] && 2 <= v && pathLen == (if par == [] then 0 else |par| + 1)
    ensures pathLen <= |LeafString(par, l)|
    ensures SentName(v, LeafString(par, l), pathLen)
         == Lead(par) + Join(l.path) + if l.node.Dir? then [SLASH] else []
  {
    DownJoin(l.path);
  }

  /** A good leaf is sent as what it is. */
  lemma LeafIsSent(setup: Setup, v: nat, limits: Limits, root: Node, cwd: Path, par: bytes, P: Path, l: Leaf,
      pathLen: nat)
    requires IsParent(root, cwd, par, P) && GoodLeaf(setup, limits, par, l) && 2 <= v <= 4
    requires pathLen == if par == [] then 0 else |par| + 1
    requires Get(root, P + l.path) == Some(l.node)
    ensures pathLen <= |LeafString(par, l)|
    ensures ItemOf(v, limits, root, cwd, LeafString(par, l), pathLen) == Some(LeafItem(par, l))
  {
    hide Split, Walk, Resolve, Get, Join, Down, LeafString, ItemOf, SentName;
    SentLeafName(v, par, l, pathLen);
    JoinSplit(l.path);
    var name := Lead(par) + Join(l.path);
    assert name[|name| - 1] == Join(l.path)[|Join(l.path)| - 1];
    if l.node.File? {
      LeafResolves(root, cwd, par, P, l);
      assert name + [] == name;
    }
    ItemIs(v, limits, root, cwd, LeafString(par, l), pathLen, name, P + l.path, l.node);
  }

  lemma ItemIs(v: nat, limits: Limits, root: Node, cwd: Path, path: bytes, pathLen: nat, name: bytes, p: Path, n: Node)
    requires 2 <= v <= 4 && pathLen <= |path|
    requires name != [] && |name| < MAX_FILE_NAME_LENGTH && name[|name| - 1] != SLASH
    requires SentName(v, path, pathLen) == if n.Dir? then name + [SLASH] else name
    requires n.File? ==>
      Resolve(root, cwd, path) == Some(p) && Get(root, p) == Some(n) && SizeAllowed(limits, |n.data|)
    ensures ItemOf(v, limits, root, cwd, path, pathLen)
         == Some(if n.Dir? then DirItem(name) else FileItem(name, n.data))
  {
    hide SentName, Resolve, Get;
    if n.Dir? {
      assert (name + [SLASH])[..|name|] == name;
    }
  }

  lemma LeafResolves(root: Node, cwd: Path, par: bytes, P: Path, l: Leaf)
    requires IsParent(root, cwd, par, P) && ProperPath(l.path) && l.path != [] && l.node.File?
    requires Get(root, P + l.path) == Some(l.node)
    ensures Resolve(root, cwd, LeafString(par, l)) == Some(P + l.path)
  {
    hide Split, Walk, Resolve;
    var c, rest := l.path[0], l.path[1..];
    var s := par + [SLASH] + c;
    FirstStep(root, cwd, par, P, c);
    assert P + l.path == (P + [c]) + rest;
    Descend(root, cwd, s, P + [c], rest);
    assert LeafString(par, l) == s + Down(rest);
  }

  lemma LeafName(setup: Setup, limits: Limits, v: nat, par: bytes, l: Leaf)
    requires GoodLeaf(setup, limits, par, l) && v >= 2
    ensures var name := Lead(par) + Join(l.path);
            && name != [] && |name| <= 2001 && NulFree(name) && name[|name| - 1] != SLASH
            && Within(name) == l.path && CleanedName(v, name) == name && ValidName(setup.utf8, name)
  {
    hide Split, Join;
    var name := Lead(par) + Join(l.path);
    JoinSplit(l.path);
    assert name[|name| - 1] == Join(l.path)[|Join(l.path)| - 1];
    assert name[|Lead(par)|..] == Join(l.path);
    CStrIs(name, name);
    forall b | b in name
      ensures b >= 32
    {
      if b in Join(l.path) && b != SLASH {
        var c :| c in l.path && b in c;
      }
    }
  }

  /** The receiver puts the name of a good leaf where its path says. */
  lemma LeafPlace(setup: Setup, limits: Limits, v: nat, hex: bytes, par: bytes, l: Leaf)
    requires GoodLeaf(setup, limits, par, l) && ProperName(hex) && |hex| <= 8 && v >= 2
    ensures var name := Lead(par) + Join(l.path);
            && name != [] && |name| <= MAX_FILE_NAME_LENGTH && CleanedName(v, name) == name
            && PlaceFor(setup.utf8, v, hex, name) == Some(l.path)
            && |NewPath(hex, name)| <= MAX_PATH && |ParentPath(hex, name)| <= MAX_PATH
  {
    hide Split, Join, CStr, ValidName, HasBadPath, Clean, CleanedName;
    var name := Lead(par) + Join(l.path);
    LeafName(setup, limits, v, par, l);
    CleanOfProper(l.path);
    RefusedNames(setup.utf8, v, hex, name);
    assert l.path[|l.path| - 1] in l.path;
  }

  /** One encoded leaf is received as that leaf. */
  lemma LeafReceived(setup: Setup, limits: Limits, v: nat, hex: bytes, m: Entries, par: bytes, l: Leaf, rest: bytes)
    requires GoodLeaf(setup, limits, par, l) && ProperName(hex) && |hex| <= 8 && v >= 2 && (l.node.Dir? ==> v >= 3)
    requires setup.maxFileSize >= 0
    ensures var e := EncodeItem(LeafItem(par, l));
            ReceiveOne(setup, v, hex, m, e + rest) == match Insert(m, l.path, l.node)
                                                      case None => None
                                                      case Some(m') => Some(Received(m', |e|))
  {
    hide Split, Join, PlaceFor, Insert, ParsePayload, NewPath, ParentPath, EncodeSize, DecodeSize, ReceiveOne, StoreOne,
      CleanedName, GoodLeaf;
    GoodPayload(setup, limits, par, l);
    var item := LeafItem(par, l);
    var name := Lead(par) + Join(l.path);
    var data := if l.node.File? then l.node.data else [];
    LeafPlace(setup, limits, v, hex, par, l);
    PayloadParsed(setup, v, l.node, rest);
    var tail := EncodeSize(AnnouncedSize(item)) + data + rest;
    NameParsed(setup, v, hex, m, name, tail);
    LeafStored(setup, v, hex, m, name, tail, l);
    assert EncodeItem(item) + rest == EncodeSize(|name|) + name + tail;
    assert |EncodeItem(item)| == 8 + |name| + 8 + |data|;
  }

  lemma GoodPayload(setup: Setup, limits: Limits, par: bytes, l: Leaf)
    requires GoodLeaf(setup, limits, par, l)
    ensures l.node.Dir? ==> l.node.entries == map[]
    ensures l.node.File? ==> |l.node.data| <= setup.maxFileSize && |l.node.data| < TWO_63
    ensures l.path != []
  {
  }

  lemma NameParsed(setup: Setup, v: nat, hex: bytes, m: Entries, name: bytes, tail: bytes)
    requires ProperName(hex) && 0 < |name| <= MAX_FILE_NAME_LENGTH
    ensures ReceiveOne(setup, v, hex, m, EncodeSize(|name|) + name + tail)
         == match StoreOne(setup, v, hex, m, name, tail)
            case None => None
            case Some(r) => Some(Received(r.entries, 8 + |name| + r.length))
  {
    hide StoreOne, DecodeSize, EncodeSize;
    SizeRoundTrip(|name|);
    var s := EncodeSize(|name|) + name + tail;
    assert s[..8] == EncodeSize(|name|);
    assert s[8..8 + |name|] == name && s[8 + |name|..] == tail;
  }

  lemma LeafStored(setup: Setup, v: nat, hex: bytes, m: Entries, name: bytes, tail: bytes, l: Leaf)
    requires ProperName(hex) && name != [] && l.path != [] && CleanedName(v, name) == name
    requires PlaceFor(setup.utf8, v, hex, name) == Some(l.path)
    requires |NewPath(hex, name)| <= MAX_PATH && |ParentPath(hex, name)| <= MAX_PATH
    requires ParsePayload(setup, v, tail).Some? && ParsePayload(setup, v, tail).value.leaf == l.node
    ensures StoreOne(setup, v, hex, m, name, tail)
         == match Insert(m, l.path, l.node)
            case None => None
            case Some(m') => Some(Received(m', ParsePayload(setup, v, tail).value.length))
  {
    hide PlaceFor, ParsePayload, Insert, NewPath, ParentPath, CleanedName;
  }

  lemma PayloadParsed(setup: Setup, v: nat, leaf: Node, rest: bytes)
    requires leaf.Dir? ==> leaf.entries == map[] && v >= 3
    requires leaf.File? ==> |leaf.data| <= setup.maxFileSize && |leaf.data| < TWO_63
    requires setup.maxFileSize >= 0
    ensures var data := if leaf.File? then leaf.data else [];
            ParsePayload(setup, v, EncodeSize(if leaf.File? then |data| else -1) + data + rest)
            == Some(Payload(leaf, 8 + |data|))
  {
    var data := if leaf.File? then leaf.data else [];
    var size := if leaf.File? then |data| else -1;
    var s := EncodeSize(size) + data + rest;
    SizeRoundTrip(size);
    assert s[..8] == EncodeSize(size);
    assert s[8..8 + |data|] == data;
  }

  /** A whole encoded list is received as all its leaves, in order, and nothing after it is touched. */
  lemma {:induction false} LeavesReceived(setup: Setup, limits: Limits, v: nat, hex: bytes, m: Entries, par: bytes,
      ls: seq<Leaf>, rest: bytes)
    requires forall l | l in ls :: l.path != []
    requires forall l | l in ls :: GoodLeaf(setup, limits, par, l) && (l.node.Dir? ==> v >= 3)
    requires ProperName(hex) && |hex| <= 8 && v >= 2 && setup.maxFileSize >= 0
    ensures var e := EncodeItems(LeafItems(par, ls));
            ReceiveMany(setup, v, hex, m, e + rest, |ls|) == match InsertAll(m, ls)
                                                              case None => None
                                                              case Some(m') => Some(Received(m', |e|))
    decreases |ls|
  {
    hide Split, Join, PlaceFor, Insert, ParsePayload, NewPath, ParentPath, EncodeSize, DecodeSize, GoodLeaf, ReceiveOne,
      EncodeItem, LeafItem, ProperName;
    if ls == [] {
    } else {
      HaveNoEmptyPath(setup, limits, par, ls);
      var l, e := ls[0], EncodeItem(LeafItem(par, ls[0]));
      var more := EncodeItems(LeafItems(par, ls[1..]));
      assert EncodeItems(LeafItems(par, ls)) == e + more;
      assert (e + more) + rest == e + (more + rest);
      LeafReceived(setup, limits, v, hex, m, par, l, more + rest);
      if Insert(m, l.path, l.node).Some? {
        assert (e + (more + rest))[|e|..] == more + rest;
        LeavesReceived(setup, limits, v, hex, Insert(m, l.path, l.node).value, par, ls[1..], rest);
      }
    }
  }

  lemma HaveNoEmptyPath(setup: Setup, limits: Limits, par: bytes, ls: seq<Leaf>)
    requires forall l | l in ls :: GoodLeaf(setup, limits, par, l)
    ensures forall l | l in ls :: l.path != []
  {
  }

  /** The path strings of the copied entries of one directory. */
  function TopPaths(par: bytes, top: seq<bytes>): (r: seq<bytes>)
    ensures |r| == |top| && forall i | 0 <= i < |top| :: r[i] == par + [SLASH] + top[i]
  {
    if top == [] then [] else [par + [SLASH] + top[0]] + TopPaths(par, top[1..])
  }

  /** The copied entries: distinct names in one directory, nothing too deep or too long. */
  ghost predicate CopiedFrom(order: set<bytes> -> seq<bytes>, root: Node, cwd: Path, par: bytes, P: Path,
      top: seq<bytes>) {
    && Enumerates(order) && Proper(root) && IsParent(root, cwd, par, P) && Distinct(top)
    && forall c | c in top :: c in EntriesAt(root, P) && Listable(|par| + 1 + |c|, EntriesAt(root, P)[c], 0)
  }

  lemma {:induction false} SelectedStrings(order: set<bytes> -> seq<bytes>, leafDirs: bool, root: Node, cwd: Path,
      par: bytes, P: Path, top: seq<bytes>)
    requires CopiedFrom(order, root, cwd, par, P, top)
    ensures SelectedLeaves(order, leafDirs, root, cwd, TopPaths(par, top))
         == Strings(par, LeavesUnder(order, leafDirs, Dir(EntriesAt(root, P)), top))
    decreases |top|
  {
    hide Split, Walk, Resolve, LeavesOf, LeavesIn, Leaves, Strings, PrefixAll, Get, SelectedHere, ProperName, Plain;
    var n := Dir(EntriesAt(root, P));
    if top == [] {
      NoStrings(par);
    } else {
      var c := top[0];
      var s := par + [SLASH] + c;
      assert c in top && forall x | x in top[1..] :: x in top;
      ProperGet(root, P);
      FirstStep(root, cwd, par, P, c);
      EntryAt(root, P, c);
      ProperGet(root, P + [c]);
      SelectedOne(order, leafDirs, root, cwd, s, P + [c], n.entries[c]);
      ListedLeaves(order, leafDirs, s, n.entries[c], 0);
      var ls := Leaves(order, leafDirs, n.entries[c]);
      StringsBelow(par, c, ls);
      StringsCat(par, PrefixAll(c, ls), LeavesUnder(order, leafDirs, n, top[1..]));
      SelectedStrings(order, leafDirs, root, cwd, par, P, top[1..]);
    }
  }

  lemma NoStrings(s: bytes)
    ensures Strings(s, []) == []
  {
  }

  lemma SelectedOne(order: set<bytes> -> seq<bytes>, leafDirs: bool, root: Node, cwd: Path, s: bytes, p: Path, n: Node)
    requires Resolve(root, cwd, s) == Some(p) && Get(root, p) == Some(n)
    ensures SelectedHere(order, leafDirs, root, cwd, s) == LeavesOf(order, leafDirs, s, n, 0)
  {
  }

  /** Every listed leaf is announced as what it is. */
  lemma {:induction false} AnnouncedLeaves(setup: Setup, v: nat, limits: Limits, root: Node, cwd: Path, par: bytes,
      P: Path, ls: seq<Leaf>, pathLen: nat)
    requires IsParent(root, cwd, par, P) && 2 <= v <= 4 && pathLen == if par == [] then 0 else |par| + 1
    requires forall l | l in ls ::
      l.path != [] && GoodLeaf(setup, limits, par, l) && Get(root, P + l.path) == Some(l.node)
    ensures forall f | f in Strings(par, ls) :: pathLen <= |f|
    ensures Announced(v, limits, root, cwd, Strings(par, ls), pathLen) == LeafItems(par, ls)
    ensures AllSendable(v, limits, root, cwd, Strings(par, ls), pathLen)
    ensures |Strings(par, ls)| == |ls|
    decreases |ls|
  {
    hide GoodLeaf, ItemOf, IsParent, LeafString, Join;
    if ls != [] {
      LeafIsSent(setup, v, limits, root, cwd, par, P, ls[0], pathLen);
      AnnouncedLeaves(setup, v, limits, root, cwd, par, P, ls[1..], pathLen);
      var files := Strings(par, ls);
      assert files[1..] == Strings(par, ls[1..]);
      forall i | 0 <= i < |files|
        ensures pathLen <= |files[i]| && ItemOf(v, limits, root, cwd, files[i], pathLen).Some?
      {
        if i > 0 {
          assert files[i] == files[1..][i - 1];
        }
      }
    }
  }

  lemma TopLengths(par: bytes, top: seq<bytes>)
    requires forall c | c in top :: ProperName(c)
    ensures TrimFirst(TopPaths(par, top)) == TopPaths(par, top)
    ensures top != [] ==> ParentLength(TopPaths(par, top)) == if par == [] then 0 else |par| + 1
  {
    if top != [] {
      var c := top[0];
      var s := par + [SLASH] + c;
      assert c in top && c[|c| - 1] in c;
      AfterSlash(par, c);
    }
  }

  lemma {:induction false} AfterSlash(a: bytes, c: bytes)
    requires SLASH !in c
    ensures AfterLastSlash(a + [SLASH] + c) == |a| + 1
  {
    var s := a + [SLASH] + c;
    if c != [] {
      AfterSlash(a, c[..|c| - 1]);
      assert s[..|s| - 1] == a + [SLASH] + c[..|c| - 1];
      assert c[|c| - 1] in c;
    }
  }

  /** The directory tree round trip. Whatever the copied entries of a directory are (names both ends accept, nesting
      and sizes within the limits, at least one leaf), and in whatever order the system lists them: listing them,
      sending the list with version 2, 3 or 4 and receiving the bytes in an empty temp directory gives exactly these
      entries, with directories without any file dropped in version 2; from version 3 on nothing is lost. The bytes
      are consumed exactly, whatever follows them. */
  lemma TreeRoundTrip(setup: Setup, limits: Limits, v: nat, hex: bytes, order: set<bytes> -> seq<bytes>,
      root: Node, cwd: Path, par: bytes, P: Path, top: seq<bytes>, rest: bytes)
    requires 2 <= v <= 4 && ProperName(hex) && |hex| <= 8 && setup.maxFileSize >= 0
    requires CopiedFrom(order, root, cwd, par, P, top)
    requires var ls := LeavesUnder(order, v >= 3, Dir(EntriesAt(root, P)), top);
             && 0 < |ls| <= setup.maxFileCount && |ls| < TWO_63
             && forall l | l in ls :: GoodLeaf(setup, limits, par, l)
    ensures var paths := TopPaths(par, top);
            var files := SelectedLeaves(order, v >= 3, root, cwd, TrimFirst(paths));
            var pathLen := ParentLength(TrimFirst(paths));
            && (forall f | f in files :: pathLen <= |f|)
            && AllSendable(v, limits, root, cwd, files, pathLen)
            && var sent := EncodeTransfer(v, Announced(v, limits, root, cwd, files, pathLen));
               GetSpec(setup, v, hex, sent + rest)
               == Some(Received(KeptAmong(v >= 3, EntriesAt(root, P), top), |sent|))
    ensures v >= 3 ==>
      KeptAmong(true, EntriesAt(root, P), top) == map c | c in EntriesAt(root, P) && c in top :: EntriesAt(root, P)[c]
  {
    hide *;
    ForestSent(setup, limits, v, order, root, cwd, par, P, top);
    ForestReceived(setup, limits, v, hex, order, root, cwd, P, par, top, rest);
    AllKeptAt(order, root, cwd, par, P, top);
  }

  lemma ForestSent(setup: Setup, limits: Limits, v: nat, order: set<bytes> -> seq<bytes>, root: Node, cwd: Path,
      par: bytes, P: Path, top: seq<bytes>)
    requires 2 <= v <= 4 && CopiedFrom(order, root, cwd, par, P, top)
    requires var ls := LeavesUnder(order, v >= 3, Dir(EntriesAt(root, P)), top);
             0 < |ls| && forall l | l in ls :: GoodLeaf(setup, limits, par, l)
    ensures var ls := LeavesUnder(order, v >= 3, Dir(EntriesAt(root, P)), top);
            var files := SelectedLeaves(order, v >= 3, root, cwd, TrimFirst(TopPaths(par, top)));
            var pathLen := ParentLength(TrimFirst(TopPaths(par, top)));
            && (forall l | l in ls :: l.path != [])
            && (forall f | f in files :: pathLen <= |f|)
            && AllSendable(v, limits, root, cwd, files, pathLen)
            && Announced(v, limits, root, cwd, files, pathLen) == LeafItems(par, ls)
  {
    hide Split, Walk, Resolve, Leaves, Strings, PrefixAll, GoodLeaf, Announced, LeafItems, AllSendable, LeavesUnder,
      SelectedLeaves, Proper, Get, Listable;
    var m := EntriesAt(root, P);
    TopIsProper(root, P, top);
    TopLengths(par, top);
    TopNotEmpty(order, v >= 3, m, top);
    SelectedStrings(order, v >= 3, root, cwd, par, P, top);
    LeavesBelow(order, v >= 3, root, P, top);
    AnnouncedLeaves(setup, v, limits, root, cwd, par, P, LeavesUnder(order, v >= 3, Dir(m), top),
                    if par == [] then 0 else |par| + 1);
  }

  lemma ForestReceived(setup: Setup, limits: Limits, v: nat, hex: bytes, order: set<bytes> -> seq<bytes>,
      root: Node, cwd: Path, P: Path, par: bytes, top: seq<bytes>, rest: bytes)
    requires 2 <= v && ProperName(hex) && |hex| <= 8 && setup.maxFileSize >= 0
    requires CopiedFrom(order, root, cwd, par, P, top)
    requires var ls := LeavesUnder(order, v >= 3, Dir(EntriesAt(root, P)), top);
             && 0 < |ls| <= setup.maxFileCount && |ls| < TWO_63
             && forall l | l in ls :: l.path != [] && GoodLeaf(setup, limits, par, l)
    ensures var ls := LeavesUnder(order, v >= 3, Dir(EntriesAt(root, P)), top);
            var sent := EncodeTransfer(v, LeafItems(par, ls));
            GetSpec(setup, v, hex, sent + rest)
            == Some(Received(KeptAmong(v >= 3, EntriesAt(root, P), top), |sent|))
  {
    hide Leaves, PrefixAll, GoodLeaf, LeafItems, EncodeItems, ReceiveMany, LeavesUnder, InsertAll, Kept, Pruned, Proper,
      Get, KeptAmong, GetSpec, Enumerates, Listable;
    var m := EntriesAt(root, P);
    var ls := LeavesUnder(order, v >= 3, Dir(m), top);
    LeavesBelow(order, v >= 3, root, P, top);
    LeavesReceived(setup, limits, v, hex, map[], par, ls, rest);
    RebuildAmong(order, v >= 3, map[], Dir(m), top);
    assert map[] + KeptAmong(v >= 3, m, top) == KeptAmong(v >= 3, m, top);
    CountParsed(setup, v, hex, LeafItems(par, ls), rest);
  }

  lemma TopIsProper(root: Node, P: Path, top: seq<bytes>)
    requires Proper(root) && DirAt(root, P) && forall c | c in top :: c in EntriesAt(root, P)
    ensures forall c | c in top :: ProperName(c)
  {
    ProperGet(root, P);
  }

  lemma TopNotEmpty(order: set<bytes> -> seq<bytes>, leafDirs: bool, m: Entries, top: seq<bytes>)
    ensures top == [] ==> LeavesUnder(order, leafDirs, Dir(m), top) == []
  {
  }

  lemma LeavesBelow(order: set<bytes> -> seq<bytes>, leafDirs: bool, root: Node, P: Path, top: seq<bytes>)
    requires Proper(root) && DirAt(root, P)
    ensures forall l | l in LeavesUnder(order, leafDirs, Dir(EntriesAt(root, P)), top) ::
      l.path != [] && Get(root, P + l.path) == Some(l.node) && (l.node.Dir? ==> leafDirs)
  {
    var n := Dir(EntriesAt(root, P));
    ProperGet(root, P);
    LeavesUnderAreThere(order, leafDirs, n, top);
    DirsOnlyWhenAsked(order, leafDirs, n, top);
    forall l | l in LeavesUnder(order, leafDirs, n, top)
      ensures Get(root, P + l.path) == Some(l.node)
    {
      GetAppend(root, P, l.path);
    }
  }

  lemma {:induction false} DirsOnlyWhenAsked(order: set<bytes> -> seq<bytes>, leafDirs: bool, n: Node,
      names: seq<bytes>)
    requires n.Dir?
    ensures forall l | l in LeavesUnder(order, leafDirs, n, names) :: l.node.Dir? ==> leafDirs
    decreases n, |names|
  {
    if names != [] && names[0] in n.entries {
      var k := n.entries[names[0]];
      if k.Dir? && k.entries != map[] {
        DirsOnlyWhenAsked(order, leafDirs, k, order(k.entries.Keys));
      }
      DirsOnlyWhenAsked(order, leafDirs, n, names[1..]);
      var ls := Leaves(order, leafDirs, k);
      assert forall i | 0 <= i < |ls| :: PrefixAll(names[0], ls)[i].node == ls[i].node && ls[i] in ls;
    }
  }

  lemma CountParsed(setup: Setup, v: nat, hex: bytes, items: seq<Item>, rest: bytes)
    requires ProperName(hex) && v > 1 && 0 < |items| <= setup.maxFileCount && |items| < TWO_63
    ensures GetSpec(setup, v, hex, EncodeTransfer(v, items) + rest)
         == match ReceiveMany(setup, v, hex, map[], EncodeItems(items) + rest, |items|)
            case None => None
            case Some(r) => Some(Received(r.entries, 8 + r.length))
  {
    hide ReceiveMany, EncodeItems, EncodeSize, DecodeSize;
    SizeRoundTrip(|items|);
    var s := EncodeTransfer(v, items) + rest;
    assert s[..8] == EncodeSize(|items|);
    assert s[8..] == EncodeItems(items) + rest;
  }

  lemma AllKeptAt(order: set<bytes> -> seq<bytes>, root: Node, cwd: Path, par: bytes, P: Path, top: seq<bytes>)
    requires CopiedFrom(order, root, cwd, par, P, top)
    ensures KeptAmong(true, EntriesAt(root, P), top)
         == map c | c in EntriesAt(root, P) && c in top :: EntriesAt(root, P)[c]
  {
    AllKept(EntriesAt(root, P), top);
  }

  lemma AllKept(m: Entries, top: seq<bytes>)
    ensures KeptAmong(true, m, top) == map c | c in m && c in top :: m[c]
  {
    forall c | c in m
      ensures Kept(true, m[c]) && Pruned(true, m[c]) == m[c]
    {
      NothingPruned(m[c]);
    }
  }

  /** Sent to a Get Files run whose working directory is not extremely full, the forest is what the run delivers:
      this is the condition under which GetFilesDirs succeeds. */
  lemma ForestIsPromising(setup: Setup, limits: Limits, v: nat, order: set<bytes> -> seq<bytes>,
      root: Node, cwd: Path, par: bytes, P: Path, top: seq<bytes>, rest: bytes, ids: seq<uint32>, h0: Entries)
    requires 2 <= v <= 4 && setup.maxFileSize >= 0
    requires CopiedFrom(order, root, cwd, par, P, top)
    requires var ls := LeavesUnder(order, v >= 3, Dir(EntriesAt(root, P)), top);
             && 0 < |ls| <= setup.maxFileCount && |ls| < TWO_63
             && forall l | l in ls :: GoodLeaf(setup, limits, par, l)
    requires exists id | id in ids :: Hex(id) !in h0
    requires Roomy(h0, KeptAmong(v >= 3, EntriesAt(root, P), top))
    ensures var paths := TrimFirst(TopPaths(par, top));
            var files := SelectedLeaves(order, v >= 3, root, cwd, paths);
            var pathLen := ParentLength(paths);
            && (forall f | f in files :: pathLen <= |f|)
            && Promising(setup, v, ids, h0, EncodeTransfer(v, Announced(v, limits, root, cwd, files, pathLen)) + rest)
  {
    hide CopiedFrom, LeavesUnder, GoodLeaf, Roomy, KeptAmong, SelectedLeaves, TrimFirst, TopPaths, ParentLength,
      AllSendable, Announced, EncodeTransfer, GetSpec, Hex, Proper, Get;
    forall id: uint32
      ensures ProperName(Hex(id)) && |Hex(id)| <= 8
    {
      assert Power16(8) == TWO_32;
      HexShort(id, 8);
    }
    var id: uint32 :| id in ids && Hex(id) !in h0;
    TreeRoundTrip(setup, limits, v, Hex(id), order, root, cwd, par, P, top, rest);
    forall id: uint32 | id in ids {
      TreeRoundTrip(setup, limits, v, Hex(id), order, root, cwd, par, P, top, rest);
    }
  }
}
