/** The temp directory of a Get Files run: everything received goes below it. */
module TempTrees {
  import opened Bytes
  import opened Trees
  import opened Paths
  import opened Mkdirs
  import opened ReceivedNames
  import opened SaveFiles

  /** Only the temp directory's entries differ, and they are now m. */
  ghost predicate TempIs(was: Node, cwd: Path, now: Node, hex: bytes, m: Entries) {
    DirAt(was, cwd) && CanPut(was, cwd) && Became(was, cwd, now, Here(was, cwd)[hex := Dir(m)])
  }

  ghost predicate HasTemp(root: Node, cwd: Path, hex: bytes) {
    DirAt(root, cwd) && hex in Here(root, cwd) && Here(root, cwd)[hex].Dir?
  }

  ghost function TempEntries(root: Node, cwd: Path, hex: bytes): Entries
    requires HasTemp(root, cwd, hex)
  {
    Here(root, cwd)[hex].entries
  }

  lemma TempSame(root: Node, cwd: Path, hex: bytes)
    requires HasTemp(root, cwd, hex)
    ensures TempIs(root, cwd, root, hex, TempEntries(root, cwd, hex))
  {
    BecameSame(root, cwd);
    var h := Here(root, cwd);
    assert h[hex := Dir(TempEntries(root, cwd, hex))] == h;
  }

  lemma TempKnown(was: Node, cwd: Path, now: Node, hex: bytes, m: Entries)
    requires TempIs(was, cwd, now, hex, m)
    ensures HasTemp(now, cwd, hex) && TempEntries(now, cwd, hex) == m
    ensures Here(now, cwd) == Here(was, cwd)[hex := Dir(m)]
  {
    BecameHere(was, cwd, now, Here(was, cwd)[hex := Dir(m)], []);
  }

  lemma TempTrans(a: Node, cwd: Path, b: Node, hex: bytes, m: Entries, c: Node, m': Entries)
    requires TempIs(a, cwd, b, hex, m) && TempIs(b, cwd, c, hex, m')
    ensures TempIs(a, cwd, c, hex, m')
  {
    TempKnown(a, cwd, b, hex, m);
    BecameTrans(a, cwd, b, Here(b, cwd), c, Here(b, cwd)[hex := Dir(m')]);
    assert Here(b, cwd)[hex := Dir(m')] == Here(a, cwd)[hex := Dir(m')];
  }

  /** mkdirs on a path into the temp directory stays in it. */
  lemma TempMade(was: Node, cwd: Path, now: Node, hex: bytes, q: Path)
    requires HasTemp(was, cwd, hex) && DirAt(now, cwd) && Became(was, cwd, now, Here(now, cwd))
    requires PartlyMade(Here(was, cwd), [hex] + q, Here(now, cwd))
    ensures HasTemp(now, cwd, hex) && TempIs(was, cwd, now, hex, TempEntries(now, cwd, hex))
    ensures MakeDirs(Here(was, cwd), [hex] + q) == Some(Here(now, cwd)) ==>
      MakeDirs(TempEntries(was, cwd, hex), q) == Some(TempEntries(now, cwd, hex))
    ensures MakeDirs(Here(was, cwd), [hex] + q).Some? <==> MakeDirs(TempEntries(was, cwd, hex), q).Some?
    ensures PartlyMade(TempEntries(was, cwd, hex), q, TempEntries(now, cwd, hex))
  {
    var h, h' := Here(was, cwd), Here(now, cwd);
    MadeInTemp(h, hex, q);
    var k: nat :| k <= |[hex] + q| && MadeUpTo(h, [hex] + q, k, h');
    if k == 0 {
      assert h' == h && h[hex := h[hex]] == h;
      assert MadeUpTo(h[hex].entries, q, 0, h[hex].entries);
    } else {
      assert ([hex] + q)[..k] == [hex] + q[..k - 1];
      MadeInTemp(h, hex, q[..k - 1]);
      assert MadeUpTo(h[hex].entries, q, k - 1, h'[hex].entries);
    }
  }

  lemma MadeInTemp(h: Entries, hex: bytes, q: Path)
    requires hex in h && h[hex].Dir?
    ensures MakeDirs(h, [hex] + q)
         == match MakeDirs(h[hex].entries, q)
            case None => None
            case Some(m) => Some(h[hex := Dir(m)])
  {
    assert ([hex] + q)[1..] == q;
  }

  /** A change below the temp directory, seen from its entries. */
  lemma TempChanged(was: Node, cwd: Path, now: Node, hex: bytes, m: Entries, after: Node, rel: Path)
    requires TempIs(was, cwd, now, hex, m) && rel != []
    requires ChangedAt(now, after, cwd + ([hex] + rel))
    ensures CanPut(Dir(m), rel) && HasTemp(after, cwd, hex)
    ensures TempIs(was, cwd, after, hex, TempEntries(after, cwd, hex))
    ensures Dir(TempEntries(after, cwd, hex)) == match Get(after, cwd + ([hex] + rel))
                                                 case Some(x) => Put(Dir(m), rel, x)
                                                 case None => Drop(Dir(m), rel)
  {
    var h := Here(was, cwd);
    var p := [hex] + rel;
    var h1 := h[hex := Dir(m)];
    var x := match Get(after, cwd + p) case Some(x) => x case None => Dir(map[]);
    assert p[1..] == rel;
    BecameBelow(was, cwd, now, h1, p, x);
    assert h1[hex := Put(Dir(m), rel, x)] == h[hex := Put(Dir(m), rel, x)];
    assert h1[hex := Drop(Dir(m), rel)] == h[hex := Drop(Dir(m), rel)];
    var m' := match Get(after, cwd + p)
              case Some(x) => Put(Dir(m), rel, x).entries
              case None => Drop(Dir(m), rel).entries;
    TempKnown(was, cwd, after, hex, m');
  }

  /** What the parent part of a received path exists as. */
  lemma ParentExists(was: Node, cwd: Path, hex: bytes, parent: bytes, front: seq<bytes>)
    requires HasTemp(was, cwd, hex) && Downward(parent) && Split(parent) == [DOT_NAME, hex] + front
    requires ProperName(hex)
    ensures var m, q := TempEntries(was, cwd, hex), Clean(front);
            && Clean(Split(parent)) == [hex] + q
            && (DirAt(Dir(m), q) ==> Exists(was, cwd, parent))
            && (Exists(was, cwd, parent) && MakeDirs(m, q).Some? ==> DirAt(Dir(m), q))
  {
    var m, q := TempEntries(was, cwd, hex), Clean(front);
    TempDirSplit(hex);
    CleanCat([DOT_NAME, hex], front);
    BecameSame(was, cwd);
    BecameHere(was, cwd, was, Here(was, cwd), [hex] + q);
    assert ([hex] + q)[1..] == q;
    assert Get(was, cwd + ([hex] + q)) == Get(Dir(m), q);
    if DirAt(Dir(m), q) {
      WalkToDir(was, cwd, Split(parent));
    }
    if Exists(was, cwd, parent) {
      WalkTame(was, cwd, Split(parent));
      if !DirAt(Dir(m), q) {
        MakeDirsBlocked(m, q);
      }
    }
  }

  /** The directory part of a received path: what _make_directories passes to mkdirs. */
  function ParentPath(hex: bytes, n: bytes): bytes {
    var s := NewPath(hex, n);
    var i := AfterLastSlash(s);
    if i == 0 then s else s[..i - 1]
  }
}
