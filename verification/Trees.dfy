/** File trees as values: what a path leads to, and what changing one place leaves alone. */
module Trees {
  import opened Bytes

  /** A path is the list of the names on it. */
  type Path = seq<bytes>
  type Entries = map<bytes, Node>
  datatype Node = File(data: bytes) | Dir(entries: Entries)

  const DOT_NAME: bytes := [DOT]
  const DOT_DOT: bytes := [DOT, DOT]

  predicate ProperName(c: bytes) {
    c != [] && c != DOT_NAME && c != DOT_DOT && SLASH !in c && NulFree(c)
  }

  ghost predicate Proper(n: Node) {
    n.Dir? ==> forall k | k in n.entries :: ProperName(k) && Proper(n.entries[k])
  }

  predicate ProperPath(p: Path) {
    forall i | 0 <= i < |p| :: ProperName(p[i])
  }

  function Get(n: Node, p: Path): Option<Node> {
    if p == [] then Some(n)
    else if n.Dir? && p[0] in n.entries then Get(n.entries[p[0]], p[1..])
    else None
  }

  predicate DirAt(n: Node, p: Path) {
    Get(n, p).Some? && Get(n, p).value.Dir?
  }

  function EntriesAt(n: Node, p: Path): Entries
    requires DirAt(n, p)
  {
    Get(n, p).value.entries
  }

  /** The directory that would hold p is there (or p is the root). */
  predicate CanPut(n: Node, p: Path) {
    p == [] || (n.Dir? && (|p| == 1 || (p[0] in n.entries && CanPut(n.entries[p[0]], p[1..]))))
  }

  function Put(n: Node, p: Path, v: Node): Node
    requires CanPut(n, p)
  {
    if p == [] then v
    else if |p| == 1 then Dir(n.entries[p[0] := v])
    else Dir(n.entries[p[0] := Put(n.entries[p[0]], p[1..], v)])
  }

  /** The tree without what is at p. */
  function Drop(n: Node, p: Path): Node
    requires p != [] && CanPut(n, p)
  {
    if |p| == 1 then Dir(n.entries - {p[0]})
    else Dir(n.entries[p[0] := Drop(n.entries[p[0]], p[1..])])
  }

  lemma {:induction false} CanPutWhere(n: Node, p: Path, c: bytes)
    ensures CanPut(n, p + [c]) <==> DirAt(n, p)
  {
    if p != [] {
      assert (p + [c])[1..] == p[1..] + [c];
      if n.Dir? && p[0] in n.entries {
        CanPutWhere(n.entries[p[0]], p[1..], c);
      }
    }
  }

  lemma {:induction false} CanPutExisting(n: Node, p: Path)
    requires Get(n, p).Some?
    ensures CanPut(n, p)
  {
    if p != [] {
      CanPutExisting(n.entries[p[0]], p[1..]);
    }
  }

  lemma {:induction false} GetAppend(n: Node, p: Path, q: Path)
    ensures Get(n, p + q) == if Get(n, p).Some? then Get(Get(n, p).value, q) else None
  {
    if p == [] {
      assert p + q == q;
    } else {
      assert (p + q)[1..] == p[1..] + q;
      if n.Dir? && p[0] in n.entries {
        GetAppend(n.entries[p[0]], p[1..], q);
      }
    }
  }

  /** What was put is found again, with everything below it. */
  lemma {:induction false} GetPut(n: Node, p: Path, v: Node, q: Path)
    requires CanPut(n, p)
    ensures Get(Put(n, p, v), p + q) == Get(v, q)
    ensures Get(Put(n, p, v), p) == Some(v)
  {
    if p == [] {
      assert p + q == q;
    } else {
      assert (p + q)[1..] == p[1..] + q;
      if |p| == 1 {
        assert (p + q)[1..] == q;
      } else {
        GetPut(n.entries[p[0]], p[1..], v, q);
      }
    }
  }

  /** Every place that is neither on the way to p nor at or below p is left alone. */
  lemma {:induction false} GetPutElsewhere(n: Node, p: Path, v: Node, q: Path)
    requires CanPut(n, p) && !(p <= q) && !(q <= p)
    ensures Get(Put(n, p, v), q) == Get(n, q)
  {
    if |p| > 1 && p[0] == q[0] && p[0] in n.entries {
      assert p == [p[0]] + p[1..] && q == [q[0]] + q[1..];
      GetPutElsewhere(n.entries[p[0]], p[1..], v, q[1..]);
    }
  }

  lemma {:induction false} PutPut(n: Node, p: Path, v: Node, w: Node)
    requires CanPut(n, p)
    ensures CanPut(Put(n, p, v), p) && Put(Put(n, p, v), p, w) == Put(n, p, w)
  {
    if |p| > 1 {
      PutPut(n.entries[p[0]], p[1..], v, w);
    }
  }

  lemma {:induction false} PutSame(n: Node, p: Path)
    requires Get(n, p).Some?
    ensures CanPut(n, p) && Put(n, p, Get(n, p).value) == n
  {
    if p != [] {
      PutSame(n.entries[p[0]], p[1..]);
    }
  }

  /** Changing something below p is changing what is at p. */
  lemma {:induction false} PutBelow(n: Node, p: Path, q: Path, v: Node)
    requires Get(n, p).Some? && q != []
    ensures CanPut(n, p) && (CanPut(n, p + q) <==> CanPut(Get(n, p).value, q))
    ensures CanPut(n, p + q) ==>
              && Put(n, p + q, v) == Put(n, p, Put(Get(n, p).value, q, v))
              && Drop(n, p + q) == Put(n, p, Drop(Get(n, p).value, q))
  {
    if p == [] {
      assert p + q == q;
    } else {
      assert (p + q)[1..] == p[1..] + q;
      PutBelow(n.entries[p[0]], p[1..], q, v);
    }
  }

  lemma {:induction false} ProperGet(n: Node, p: Path)
    requires Proper(n) && Get(n, p).Some?
    ensures Proper(Get(n, p).value) && ProperPath(p)
  {
    if p != [] {
      ProperGet(n.entries[p[0]], p[1..]);
    }
  }

  lemma {:induction false} ProperPut(n: Node, p: Path, v: Node)
    requires Proper(n) && CanPut(n, p) && Proper(v) && ProperPath(p)
    ensures Proper(Put(n, p, v))
  {
    if |p| > 1 {
      ProperPut(n.entries[p[0]], p[1..], v);
    }
  }

  /** The entry c, or the directory that would be made for it. */
  function Child(m: Entries, c: bytes): Node {
    if c in m then m[c] else Dir(map[])
  }

  /** The directories on a path inside a directory, made where they are missing; None when a file is in the way. */
  function MakeDirs(m: Entries, p: Path): Option<Entries>
    decreases |p|
  {
    if p == [] then Some(m)
    else
      var sub := Child(m, p[0]);
      if sub.File? then None
      else
        match MakeDirs(sub.entries, p[1..])
        case None => None
        case Some(sub') => Some(m[p[0] := Dir(sub')])
  }

  lemma {:induction false} MakeDirsThere(m: Entries, p: Path)
    requires DirAt(Dir(m), p)
    ensures MakeDirs(m, p) == Some(m)
    decreases |p|
  {
    if p != [] {
      assert m[p[0] := m[p[0]]] == m;
      assert m[p[0]].Dir? by { assert Get(m[p[0]], p[1..]).Some?; }
      MakeDirsThere(m[p[0]].entries, p[1..]);
    }
  }

  lemma {:induction false} MakeDirsBlocked(m: Entries, p: Path)
    requires Get(Dir(m), p).Some? && Get(Dir(m), p).value.File?
    ensures MakeDirs(m, p) == None
    decreases |p|
  {
    if |p| > 1 {
      if m[p[0]].Dir? {
        MakeDirsBlocked(m[p[0]].entries, p[1..]);
      }
    }
  }

  lemma {:induction false} MakeDirsMade(m: Entries, p: Path)
    requires MakeDirs(m, p).Some?
    ensures DirAt(Dir(MakeDirs(m, p).value), p)
    decreases |p|
  {
    if p != [] {
      var sub := Child(m, p[0]);
      MakeDirsMade(sub.entries, p[1..]);
    }
  }

  /** One more name at the end of the path: the last step of mkdirs. */
  lemma {:induction false} MakeDirsStep(m: Entries, p: Path, c: bytes)
    requires MakeDirs(m, p).Some?
    ensures DirAt(Dir(MakeDirs(m, p).value), p)
    ensures var m' := Dir(MakeDirs(m, p).value);
            match Get(m', p + [c])
            case Some(Dir(_)) => MakeDirs(m, p + [c]) == Some(m'.entries)
            case Some(File(_)) => MakeDirs(m, p + [c]) == None
            case None => CanPut(m', p + [c]) && MakeDirs(m, p + [c]) == Some(Put(m', p + [c], Dir(map[])).entries)
    decreases |p|
  {
    MakeDirsMade(m, p);
    var m' := Dir(MakeDirs(m, p).value);
    CanPutWhere(m', p, c);
    if p == [] {
      assert p + [c] == [c] && [c][1..] == [];
      assert Get(m', [c]) == if c in m then Some(m[c]) else None;
      if c in m && m[c].Dir? {
        assert m[c := m[c]] == m;
        assert MakeDirs(m[c].entries, []) == Some(m[c].entries);
      }
    } else {
      var sub := Child(m, p[0]);
      assert (p + [c])[0] == p[0] && (p + [c])[1..] == p[1..] + [c];
      MakeDirsStep(sub.entries, p[1..], c);
      var sub' := Dir(MakeDirs(sub.entries, p[1..]).value);
      assert m'.entries == m[p[0] := sub'];
      assert Get(m', p + [c]) == Get(sub', p[1..] + [c]);
      if Get(m', p + [c]) == None {
        var made := Put(sub', p[1..] + [c], Dir(map[]));
        assert m'.entries[p[0] := made] == m[p[0] := made];
      }
    }
  }

  lemma {:induction false} MakeDirsPrefix(m: Entries, p: Path, q: Path)
    requires MakeDirs(m, p + q).Some?
    ensures MakeDirs(m, p).Some?
    decreases |p|
  {
    if p != [] {
      assert (p + q)[1..] == p[1..] + q;
      var sub := Child(m, p[0]);
      MakeDirsPrefix(sub.entries, p[1..], q);
    }
  }

  /** Adding a leaf at p with the directories it needs; None when something is in the way or already there. */
  function Insert(m: Entries, p: Path, leaf: Node): Option<Entries>
    requires p != []
  {
    var front := p[..|p| - 1];
    match MakeDirs(m, front)
    case None => None
    case Some(m') =>
      if Get(Dir(m'), p).Some? then None
      else
        MakeDirsMade(m, front);
        CanPutWhere(Dir(m'), front, p[|p| - 1]);
        assert p == front + [p[|p| - 1]];
        Some(Put(Dir(m'), p, leaf).entries)
  }

  lemma InsertUnfolds(m: Entries, q: Path, last: bytes, leaf: Node)
    ensures MakeDirs(m, q) == None ==> Insert(m, q + [last], leaf) == None
    ensures MakeDirs(m, q).Some? ==>
      var m', p := MakeDirs(m, q).value, q + [last];
      && CanPut(Dir(m'), p)
      && Insert(m, p, leaf) == if Get(Dir(m'), p).Some? then None else Some(Put(Dir(m'), p, leaf).entries)
  {
    var p := q + [last];
    assert p[..|p| - 1] == q;
    if MakeDirs(m, q).Some? {
      MakeDirsMade(m, q);
      CanPutWhere(Dir(MakeDirs(m, q).value), q, last);
    }
  }
}
