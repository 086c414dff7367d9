/** The file operations the client uses, on a tree that may refuse any single operation. */
module FileSystems {
  import opened Bytes
  import opened Trees
  import opened Paths

  /** readdir gives every entry once, in an order of its own. */
  ghost predicate Enumerates(order: set<bytes> -> seq<bytes>) {
    forall s: set<bytes> :: Distinct(order(s)) && (set c | c in order(s)) == s
  }

  /** Putting something where there is no directory leaves every directory in its place. */
  lemma KeepsDir(n: Node, p: Path, v: Node, at: Path)
    requires CanPut(n, p) && DirAt(n, at) && !DirAt(n, p)
    ensures DirAt(Put(n, p, v), at)
  {
    if p <= at {
      assert at == p + at[|p|..];
      GetAppend(n, p, at[|p|..]);
      assert false;
    } else if at <= p {
      var q := p[|at|..];
      assert p == at + q && q != [];
      PutBelow(n, at, q, v);
      GetPut(n, at, Put(Get(n, at).value, q, v), []);
    } else {
      GetPutElsewhere(n, p, v, at);
    }
  }

  /** Whatever a path string resolved to, it still does after something was put where there is no directory. */
  lemma {:induction false} WalkStill(n: Node, p: Path, v: Node, at: Path, cs: seq<bytes>)
    requires CanPut(n, p) && !DirAt(n, p) && Walk(n, at, cs).Some?
    ensures Walk(Put(n, p, v), at, cs) == Walk(n, at, cs)
    decreases |cs|
  {
    if cs != [] {
      KeepsDir(n, p, v, at);
      WalkStill(n, p, v, if Stays(cs[0]) then at
                         else if cs[0] == DOT_DOT then (if at == [] then [] else at[..|at| - 1])
                         else at + [cs[0]], cs[1..]);
    }
  }

  class FileSystem {
    const cwd: Path
    const order: set<bytes> -> seq<bytes>
    const faults: nat -> bool  // whether the n-th operation is refused for reasons outside the model
    var root: Node
    var ops: nat

    ghost predicate Valid()
      reads `root
    {
      Proper(root) && DirAt(root, cwd) && ProperPath(cwd) && Enumerates(order)
    }

    ghost predicate Reliable() {
      forall k: nat :: !faults(k)
    }

    constructor (root: Node, cwd: Path, order: set<bytes> -> seq<bytes>, faults: nat -> bool)
      requires Proper(root) && DirAt(root, cwd) && Enumerates(order)
      ensures Valid() && this.root == root && this.cwd == cwd && this.order == order && this.faults == faults
    {
      ProperGet(root, cwd);
      this.root, this.cwd, this.order, this.faults := root, cwd, order, faults;
      ops := 0;
    }

    method Refused() returns (b: bool)
      modifies `ops
      ensures Reliable() ==> !b
    {
      b := faults(ops);
      ops := ops + 1;
    }

    lemma ResolvedPlace(s: bytes)
      requires Valid() && NulFree(s) && Resolve(root, cwd, s).Some?
      ensures CanPut(root, Resolve(root, cwd, s).value) && ProperPath(Resolve(root, cwd, s).value)
    {
      var from := if s[0] == SLASH then [] else cwd;
      CanPutExisting(root, cwd);
      SplitPieces(s);
      WalkCanPut(root, from, Split(s));
      WalkProper(root, from, Split(s));
    }

    method FileExists(s: bytes) returns (b: bool)
      ensures b == Exists(root, cwd, s)
    {
      b := Exists(root, cwd, s);
    }

    /** is_directory: 1 for a directory, 0 for anything else that exists, -1 otherwise. */
    method IsDirectory(s: bytes) returns (r: int)
      ensures r == 1 <==> Exists(root, cwd, s) && DirAt(root, Resolve(root, cwd, s).value)
      ensures r == -1 <==> !Exists(root, cwd, s)
      ensures -1 <= r <= 1
    {
      if !Exists(root, cwd, s) {
        return -1;
      }
      r := if DirAt(root, Resolve(root, cwd, s).value) then 1 else 0;
    }

    method Mkdir(s: bytes) returns (ok: bool)
      requires Valid() && NulFree(s)
      modifies this
      ensures Valid() && (!ok ==> root == old(root))
      ensures ok ==>
        && Resolve(old(root), cwd, s).Some? && Get(old(root), Resolve(old(root), cwd, s).value) == None
        && CanPut(old(root), Resolve(old(root), cwd, s).value)
        && root == Put(old(root), Resolve(old(root), cwd, s).value, Dir(map[]))
      ensures Reliable() && Resolve(old(root), cwd, s).Some? && !Exists(old(root), cwd, s) ==> ok
    {
      var refused := Refused();
      var r := Resolve(root, cwd, s);
      if refused || r == None || Get(root, r.value).Some? {
        return false;
      }
      ResolvedPlace(s);
      ProperPut(root, r.value, Dir(map[]));
      KeepsDir(root, r.value, Dir(map[]), cwd);
      root := Put(root, r.value, Dir(map[]));
      return true;
    }

    /** fopen(s, "wb"): makes the file, or empties it. */
    method OpenWrite(s: bytes) returns (ok: bool, p: Path)
      requires Valid() && NulFree(s)
      modifies this
      ensures Valid() && (!ok ==> root == old(root))
      ensures ok ==>
        && Resolve(old(root), cwd, s) == Some(p) && !DirAt(old(root), p) && CanPut(old(root), p)
        && root == Put(old(root), p, File([]))
      ensures
        Reliable() && Resolve(old(root), cwd, s).Some? && !DirAt(old(root), Resolve(old(root), cwd, s).value) ==> ok
    {
      p := [];
      var refused := Refused();
      var r := Resolve(root, cwd, s);
      if refused || r == None || DirAt(root, r.value) {
        return false, p;
      }
      p := r.value;
      ResolvedPlace(s);
      ProperPut(root, p, File([]));
      KeepsDir(root, p, File([]), cwd);
      root := Put(root, p, File([]));
      return true, p;
    }

    /** fwrite at the end of the open file p; a refused write still stores a shorter prefix. */
    method FWrite(p: Path, data: bytes) returns (written: nat)
      requires Valid() && CanPut(root, p) && Get(root, p).Some? && Get(root, p).value.File?
      modifies this
      ensures Valid() && written <= |data|
      ensures CanPut(old(root), p)
      ensures root == Put(old(root), p, File(Get(old(root), p).value.data + data[..written]))
      ensures Reliable() ==> written == |data|
    {
      var refused := Refused();
      written := |data|;
      if refused && data != [] {
        written :| 0 <= written < |data|;
      }
      var v := File(Get(root, p).value.data + data[..written]);
      ProperGet(root, p);
      ProperPut(root, p, v);
      KeepsDir(root, p, v, cwd);
      root := Put(root, p, v);
    }

    /** remove(s) on a file. */
    method Remove(s: bytes) returns (ok: bool)
      requires Valid() && NulFree(s)
      modifies this
      ensures Valid() && (!ok ==> root == old(root))
      ensures ok ==>
        && Exists(old(root), cwd, s) && Resolve(old(root), cwd, s).value != []
        && !DirAt(old(root), Resolve(old(root), cwd, s).value)
        && CanPut(old(root), Resolve(old(root), cwd, s).value)
        && root == Drop(old(root), Resolve(old(root), cwd, s).value)
      ensures
        && Reliable() && Exists(old(root), cwd, s) && Resolve(old(root), cwd, s).value != []
        && !DirAt(old(root), Resolve(old(root), cwd, s).value)
        ==> ok
    {
      var refused := Refused();
      if refused || !Exists(root, cwd, s) || DirAt(root, Resolve(root, cwd, s).value) {
        return false;
      }
      var p := Resolve(root, cwd, s).value;
      if p == [] {
        return false;
      }
      ResolvedPlace(s);
      ProperDrop(root, p);
      KeepsCwdOnDrop(root, p);
      root := Drop(root, p);
      return true;
    }

    lemma {:induction false} ProperDrop(n: Node, p: Path)
      requires Proper(n) && p != [] && CanPut(n, p)
      ensures Proper(Drop(n, p))
    {
      if |p| > 1 {
        ProperDrop(n.entries[p[0]], p[1..]);
      }
    }

    /** Dropping something that is not on the way to the working directory leaves the working directory there. */
    lemma KeepsCwdOnDrop(n: Node, p: Path)
      requires p != [] && CanPut(n, p) && DirAt(n, cwd) && !(p <= cwd && DirAt(n, p))
      ensures DirAt(Drop(n, p), cwd)
    {
      if p <= cwd {
        assert cwd == p + cwd[|p|..];
        GetAppend(n, p, cwd[|p|..]);
        assert false;
      } else {
        GetDropElsewhere(n, p, cwd);
      }
    }

    lemma {:induction false} GetDropElsewhere(n: Node, p: Path, q: Path)
      requires p != [] && CanPut(n, p) && !(p <= q) && DirAt(n, q)
      ensures DirAt(Drop(n, p), q)
    {
      if q != [] && |p| > 1 && p[0] == q[0] {
        assert p == [p[0]] + p[1..] && q == [q[0]] + q[1..];
        GetDropElsewhere(n.entries[p[0]], p[1..], q[1..]);
      }
    }

    /** rename(2): an existing file is replaced by a file, an existing empty directory by a directory. */
    method Rename(from: bytes, to: bytes) returns (ok: bool)
      requires Valid() && NulFree(from) && NulFree(to)
      modifies this
      ensures Valid() && (!ok ==> root == old(root))
      ensures ok ==> CanMove(old(root), from, to) && root == Moved(old(root), from, to)
      ensures Reliable() && CanMove(old(root), from, to) ==> ok
    {
      var refused := Refused();
      if refused || !CanMove(root, from, to) {
        return false;
      }
      var p, q := Resolve(root, cwd, from).value, Resolve(root, cwd, to).value;
      ResolvedPlace(from);
      ResolvedPlace(to);
      ProperGet(root, p);
      ProperDrop(root, p);
      ProperPut(Drop(root, p), q, Get(root, p).value);
      root := Moved(root, from, to);
      return true;
    }

    /** Moving or removing the working directory itself is outside the model. */
    predicate CanMove(root: Node, from: bytes, to: bytes) {
      && Exists(root, cwd, from) && Resolve(root, cwd, to).Some?
      && var p, q := Resolve(root, cwd, from).value, Resolve(root, cwd, to).value;
      && p != [] && CanPut(root, p) && CanPut(Drop(root, p), q)
      && (Get(root, q).Some? ==> match Get(root, q).value
                                 case File(_) => Get(root, p).value.File?
                                 case Dir(m) => Get(root, p).value.Dir? && m == map[])
      && DirAt(Put(Drop(root, p), q, Get(root, p).value), cwd)
    }

    function Moved(root: Node, from: bytes, to: bytes): Node
      requires CanMove(root, from, to)
    {
      var p, q := Resolve(root, cwd, from).value, Resolve(root, cwd, to).value;
      Put(Drop(root, p), q, Get(root, p).value)
    }

    /** rmdir(s): only an empty directory goes. */
    method Rmdir(s: bytes) returns (ok: bool)
      requires Valid() && NulFree(s)
      modifies this
      ensures Valid() && (!ok ==> root == old(root))
      ensures ok ==> CanRmdir(old(root), s) && root == Drop(old(root), Resolve(old(root), cwd, s).value)
      ensures Reliable() && CanRmdir(old(root), s) ==> ok
    {
      var refused := Refused();
      if refused || !CanRmdir(root, s) {
        return false;
      }
      ProperDrop(root, Resolve(root, cwd, s).value);
      root := Drop(root, Resolve(root, cwd, s).value);
      return true;
    }

    predicate CanRmdir(root: Node, s: bytes) {
      && Exists(root, cwd, s)
      && var p := Resolve(root, cwd, s).value;
      && p != [] && CanPut(root, p) && Get(root, p) == Some(Dir(map[])) && DirAt(Drop(root, p), cwd)
    }

    /** list_dir: the entries without "." and "..". */
    method ListDir(s: bytes) returns (names: Option<seq<bytes>>)
      requires Valid()
      modifies `ops
      ensures names.Some? ==>
        && Exists(root, cwd, s) && DirAt(root, Resolve(root, cwd, s).value)
        && names.value == order(EntriesAt(root, Resolve(root, cwd, s).value).Keys)
      ensures Reliable() && Exists(root, cwd, s) && DirAt(root, Resolve(root, cwd, s).value) ==> names.Some?
    {
      var refused := Refused();
      if refused || !Exists(root, cwd, s) || !DirAt(root, Resolve(root, cwd, s).value) {
        return None;
      }
      names := Some(order(EntriesAt(root, Resolve(root, cwd, s).value).Keys));
    }
  }
}
