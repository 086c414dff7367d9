/** Receiving one file or directory: _save_file_common (src/proto/methods.c). */
module SaveFiles {
  import opened Bytes
  import opened Wire
  import opened Session
  import opened NetUtils
  import opened Trees
  import opened Paths
  import opened FileSystems
  import opened Mkdirs

  /** The size and the data of an entry as they arrive: a leaf of the tree and how many bytes announce it. */
  datatype Payload = Payload(leaf: Node, length: nat)

  function ParsePayload(setup: Setup, v: nat, s: bytes): Option<Payload> {
    if |s| < 8 then None
    else
      var size := DecodeSize(s[..8]);
      if size > setup.maxFileSize then None
      else if size == -1 && v >= 3 then Some(Payload(Dir(map[]), 8))
      else if size < 0 || |s| < 8 + size then None
      else Some(Payload(File(s[8..8 + size]), 8 + size))
  }

  /** The payload is a file of an allowed size with its bytes after its size, or from version 3 on the directory mark;
      nothing else is one. */
  lemma PayloadIs(setup: Setup, v: nat, s: bytes, data: bytes)
    ensures ParsePayload(setup, v, s) == Some(Payload(File(data), 8 + |data|)) <==>
      |data| <= setup.maxFileSize && |data| < TWO_63 && EncodeSize(|data|) + data <= s
    ensures ParsePayload(setup, v, s) == Some(Payload(Dir(map[]), 8)) <==>
      v >= 3 && -1 <= setup.maxFileSize && EncodeSize(-1) <= s
    ensures ParsePayload(setup, v, s).Some? ==>
      var p := ParsePayload(setup, v, s).value;
      p == Payload(Dir(map[]), 8) || (p.leaf.File? && p.length == 8 + |p.leaf.data|)
  {
    hide EncodeSize, DecodeSize;
    SizeRoundTrip(-1);
    if |s| >= 8 {
      SizeBytesRoundTrip(s[..8]);
      var size := DecodeSize(s[..8]);
      if size >= 0 && |s| >= 8 + size {
        assert s == s[..8] + s[8..8 + size] + s[8 + size..];
      }
    }
    if |data| < TWO_63 && EncodeSize(|data|) + data <= s {
      SizeRoundTrip(|data|);
      assert s[..8] == EncodeSize(|data|) && s[8..8 + |data|] == data;
    }
    if EncodeSize(-1) <= s {
      assert s[..8] == EncodeSize(-1);
    }
  }

  /** The two trees agree everywhere but at p. */
  ghost predicate ChangedAt(was: Node, now: Node, p: Path) {
    && p != [] && CanPut(was, p)
    && now == match Get(now, p)
              case Some(x) => Put(was, p, x)
              case None => Drop(was, p)
  }

  lemma ChangedByPut(was: Node, p: Path, x: Node)
    requires p != [] && CanPut(was, p)
    ensures ChangedAt(was, Put(was, p, x), p) && Get(Put(was, p, x), p) == Some(x)
  {
    GetPut(was, p, x, []);
  }

  lemma {:induction false} GetDrop(n: Node, p: Path)
    requires p != [] && CanPut(n, p)
    ensures Get(Drop(n, p), p) == None
  {
    if |p| > 1 {
      GetDrop(n.entries[p[0]], p[1..]);
    }
  }

  lemma {:induction false} DropPut(n: Node, p: Path, x: Node)
    requires p != [] && CanPut(n, p)
    ensures CanPut(Put(n, p, x), p) && Drop(Put(n, p, x), p) == Drop(n, p)
  {
    if |p| > 1 {
      DropPut(n.entries[p[0]], p[1..], x);
    }
  }

  lemma {:induction false} DropNothing(n: Node, p: Path)
    requires p != [] && CanPut(n, p) && Get(n, p) == None
    ensures Drop(n, p) == n
  {
    if |p| == 1 {
      assert n.entries - {p[0]} == n.entries;
    } else {
      DropNothing(n.entries[p[0]], p[1..]);
    }
  }

  /** Whatever was at p is gone; nothing else changed. */
  ghost predicate Cleared(was: Node, now: Node, p: Path) {
    p != [] && CanPut(was, p) && now == Drop(was, p) && Get(now, p) == None
  }

  lemma ClearedNothing(n: Node, p: Path)
    requires p != [] && CanPut(n, p)
    ensures Get(n, p) == None ==> forall now: Node :: Cleared(n, now, p) ==> now == n
  {
    if Get(n, p) == None {
      DropNothing(n, p);
    }
  }

  lemma Unchanged(n: Node, p: Path)
    requires p != [] && CanPut(n, p)
    ensures ChangedAt(n, n, p)
  {
    if Get(n, p).Some? {
      PutSame(n, p);
    } else {
      DropNothing(n, p);
    }
  }

  /** What mkdirs can do to a path whose directory part is there already. */
  lemma MkdirsLast(was: Node, cwd: Path, now: Node, rel: Path)
    requires DirAt(was, cwd) && DirAt(now, cwd) && Became(was, cwd, now, Here(now, cwd)) && rel != []
    requires CanPut(was, cwd + rel) && Get(was, cwd + rel) == None
    requires PartlyMade(Here(was, cwd), rel, Here(now, cwd))
    ensures ChangedAt(was, now, cwd + rel)
    ensures MakeDirs(Here(was, cwd), rel).Some?
    ensures MakeDirs(Here(was, cwd), rel) == Some(Here(now, cwd)) ==> Get(now, cwd + rel) == Some(Dir(map[]))
  {
    hide ChangedAt, Put, MakeDirs, CanPut;
    var m, m' := Here(was, cwd), Here(now, cwd);
    PutBelow(was, cwd, rel, Dir(map[]));
    GetAppend(was, cwd, rel);
    LastMade(m, rel, m');
    GetPut(Dir(m), rel, Dir(map[]), []);
    if m' == m {
      PutSame(was, cwd);
      Unchanged(was, cwd + rel);
    } else {
      ChangedByPut(was, cwd + rel, Dir(map[]));
    }
  }

  /** The same on the entries alone: nothing was made, or the last directory. */
  lemma LastMade(m: Entries, rel: Path, m': Entries)
    requires rel != [] && CanPut(Dir(m), rel) && Get(Dir(m), rel) == None && PartlyMade(m, rel, m')
    ensures MakeDirs(m, rel) == Some(Put(Dir(m), rel, Dir(map[])).entries) && Put(Dir(m), rel, Dir(map[])).Dir?
    ensures m' == m || Some(m') == MakeDirs(m, rel)
  {
    hide Put, MakeDirs, CanPut;
    var front, c := rel[..|rel| - 1], rel[|rel| - 1];
    assert rel == front + [c];
    CanPutWhere(Dir(m), front, c);
    MakeDirsThere(m, front);
    MakeDirsStep(m, front, c);
    var k: nat :| k <= |rel| && MadeUpTo(m, rel, k, m');
    if k < |rel| {
      assert front == rel[..k] + front[k..];
      GetAppend(Dir(m), rel[..k], front[k..]);
      MakeDirsThere(m, rel[..k]);
    } else {
      assert rel[..k] == rel;
    }
    StillDir(m, rel);
  }

  lemma StillDir(m: Entries, p: Path)
    requires p != [] && CanPut(Dir(m), p)
    ensures Put(Dir(m), p, Dir(map[])).Dir?
  {
  }

  /** fileName is a downward path and p is the place it names. */
  ghost predicate Names(fs: FileSystem, fileName: bytes, p: Path) {
    Downward(fileName) && p == fs.cwd + Clean(Split(fileName)) && Clean(Split(fileName)) != []
  }

  lemma ResolvedBelow(fs: FileSystem, root: Node, fileName: bytes, p: Path)
    requires Names(fs, fileName, p)
    ensures Resolve(root, fs.cwd, fileName).Some? ==> Resolve(root, fs.cwd, fileName).value == p
  {
    if Resolve(root, fs.cwd, fileName).Some? {
      WalkTame(root, fs.cwd, Split(fileName));
    }
  }

  /** _save_file_common. Only the named place p changes. On success it holds exactly the announced bytes (or is a
      directory), and exactly those bytes were consumed; when nothing goes wrong outside, it succeeds exactly when the
      stream holds an acceptable payload. A file that was begun and could not be finished is removed again, so a
      failure leaves the tree as it was, or as it was without the file that had been emptied. */
  method SaveFileCommon(v: nat, socket: Socket, fs: FileSystem, fileName: bytes, ghost p: Path) returns (ok: bool)
    requires socket.Valid() && socket.valid && fs.Valid()
    requires Names(fs, fileName, p) && Resolve(fs.root, fs.cwd, fileName).Some?
    requires fileName[0] == DOT ==> !Exists(fs.root, fs.cwd, fileName)
    modifies socket, fs
    ensures socket.Valid() && socket.valid && socket.sent == old(socket.sent) && old(socket.pos) <= socket.pos
    ensures fs.Valid() && ChangedAt(old(fs.root), fs.root, p)
    ensures ok ==>
      var parsed := ParsePayload(socket.setup, v, socket.inbound[old(socket.pos)..]);
      && parsed.Some? && socket.pos == old(socket.pos) + parsed.value.length
      && Get(fs.root, p) == Some(parsed.value.leaf)
      && (parsed.value.leaf.Dir? ==> fileName[0] == DOT && |fileName| <= MAX_PATH)
    ensures Delivers(socket.schedule) && fs.Reliable() && !Exists(old(fs.root), fs.cwd, fileName) ==>
      var parsed := ParsePayload(socket.setup, v, socket.inbound[old(socket.pos)..]);
      (ok <==> parsed.Some? && (parsed.value.leaf.Dir? ==> fileName[0] == DOT && |fileName| <= MAX_PATH))
    ensures fs.Reliable() && !ok ==> fs.root == old(fs.root) || Cleared(old(fs.root), fs.root, p)
    ensures fs.Reliable() && !ok && Get(old(fs.root), p) == None ==> fs.root == old(fs.root)
    ensures SaveFrom(old(socket.at), v, ok, socket.at)
  {
    hide Step, Drive, SentIn, ReceivedIn, SaveFrom, DataFrom, BlocksFrom, BlockFrom, Put, Get, Drop, CanPut, Proper,
      Split, Clean, Walk, ProperPath;
    ghost var was, st := fs.root, socket.at;
    ResolvedBelow(fs, was, fileName, p);
    fs.ResolvedPlace(fileName);
    Unchanged(was, p);
    ClearedNothing(was, p);
    ghost var start := socket.pos;
    ghost var stream := socket.inbound[start..];
    var fileSize;
    ok, fileSize := socket.ReadSize();
    ghost var ev := if ok then Got(socket.inbound[start..socket.pos]) else ReadCut(socket.inbound[start..socket.pos]);
    SaveSteps(socket.setup, st, v, ev);
    if !ok {
      return;
    }
    assert stream[..8] == socket.inbound[start..socket.pos];
    if fileSize > socket.setup.maxFileSize {
      return false;
    }
    if fileSize == -1 && v >= 3 {
      ok := SaveDirectory(fs, fileName, p);
      socket.Note(ok);
      return;
    }
    if fileSize < 0 {
      return false;
    }
    ok := SaveData(v, socket, fs, fileName, fileSize, p);
    if ok {
      SliceWithin(socket.inbound, start, fileSize);
    }
  }

  lemma SliceWithin(s: bytes, start: nat, size: nat)
    requires start + 8 + size <= |s|
    ensures s[start..][8..8 + size] == s[start + 8..start + 8 + size]
  {
  }

  method SaveDirectory(fs: FileSystem, fileName: bytes, ghost p: Path) returns (ok: bool)
    requires fs.Valid() && Names(fs, fileName, p) && Resolve(fs.root, fs.cwd, fileName).Some?
    requires fileName[0] == DOT ==> !Exists(fs.root, fs.cwd, fileName)
    modifies fs
    ensures fs.Valid() && ChangedAt(old(fs.root), fs.root, p)
    ensures ok ==> Get(fs.root, p) == Some(Dir(map[])) && fileName[0] == DOT && |fileName| <= MAX_PATH
    ensures fs.Reliable() ==> (ok <==> fileName[0] == DOT && |fileName| <= MAX_PATH)
    ensures fs.Reliable() && !ok ==> fs.root == old(fs.root)
  {
    ghost var was := fs.root;
    ResolvedBelow(fs, was, fileName, p);
    fs.ResolvedPlace(fileName);
    Unchanged(was, p);
    ok := Mkdirs.Mkdirs(fs, fileName);
    if fileName[0] == DOT {
      MkdirsLast(was, fs.cwd, fs.root, Clean(Split(fileName)));
    }
  }

  /** At p stands a file with the given bytes; nothing else changed. */
  ghost predicate Holds(was: Node, now: Node, p: Path, data: bytes) {
    p != [] && CanPut(was, p) && now == Put(was, p, File(data))
  }

  lemma HoldsChanged(was: Node, now: Node, p: Path, data: bytes)
    requires Holds(was, now, p, data)
    ensures ChangedAt(was, now, p) && Get(now, p) == Some(File(data)) && CanPut(now, p)
    ensures forall x: Node :: Put(now, p, x) == Put(was, p, x)
  {
    ChangedByPut(was, p, File(data));
    CanPutExisting(now, p);
    forall x: Node
      ensures Put(now, p, x) == Put(was, p, x)
    {
      PutPut(was, p, File(data), x);
    }
  }

  /** The part of _save_file_common that opens the file and copies the data in blocks of 64 KiB. */
  method SaveData(v: nat, socket: Socket, fs: FileSystem, fileName: bytes, fileSize: nat, ghost p: Path)
    returns (ok: bool)
    requires socket.Valid() && socket.valid && fs.Valid()
    requires Names(fs, fileName, p) && Resolve(fs.root, fs.cwd, fileName).Some?
    modifies socket, fs
    ensures socket.Valid() && socket.valid && socket.sent == old(socket.sent) && old(socket.pos) <= socket.pos
    ensures fs.Valid() && ChangedAt(old(fs.root), fs.root, p)
    ensures ok ==>
      && socket.pos == old(socket.pos) + fileSize
      && Get(fs.root, p) == Some(File(socket.inbound[old(socket.pos)..socket.pos]))
    ensures Delivers(socket.schedule) && fs.Reliable() && !Exists(old(fs.root), fs.cwd, fileName) ==>
      (ok <==> old(socket.pos) + fileSize <= |socket.inbound|)
    ensures fs.Reliable() && !ok ==>
      if DirAt(old(fs.root), p) then fs.root == old(fs.root) else Cleared(old(fs.root), fs.root, p)
    ensures DataFrom(old(socket.at), v, fileSize, ok, socket.at)
  {
    hide Step, Drive, SentIn, ReceivedIn, SaveFrom, DataFrom, BlocksFrom, BlockFrom, Put, Get, Drop, CanPut, Proper,
      Split, Clean, Walk, ProperPath;
    ghost var was := fs.root;
    ResolvedBelow(fs, was, fileName, p);
    fs.ResolvedPlace(fileName);
    Unchanged(was, p);
    var file;
    ok, file := fs.OpenWrite(fileName);
    OpenSteps(socket.setup, socket.at, v, fileSize, ok);
    socket.Note(ok);
    if !ok {
      return;
    }
    ghost var start := socket.pos;
    assert socket.inbound[start..start] == [];
    var data := new byte[FILE_BUF_SZ];
    var left := fileSize;
    while left > 0
      invariant 0 <= left <= fileSize && socket.pos == start + (fileSize - left) <= |socket.inbound|
      invariant socket.Valid() && socket.valid && socket.sent == old(socket.sent) && fs.Valid()
      invariant Holds(was, fs.root, p, socket.inbound[start..socket.pos]) && !DirAt(was, p)
      invariant BlocksFrom(old(socket.at), v, fileSize, left, socket.at)
    {
      ghost var before := socket.at;
      ok := SaveBlock(v, socket, fs, fileName, data, left, file, was, start);
      BlocksSteps(old(socket.at), v, fileSize, left, before, ok, socket.at);
      if !ok {
        return;
      }
      left := left - Min(left, FILE_BUF_SZ);
    }
    HoldsChanged(was, fs.root, p, socket.inbound[start..socket.pos]);
    BlocksDone(old(socket.at), v, fileSize, socket.at);
    return true;
  }

  /** One round of the copying loop; on failure the file is removed. */
  method SaveBlock(v: nat, socket: Socket, fs: FileSystem, fileName: bytes, data: array<byte>, left: nat, p: Path,
      ghost was: Node, ghost start: nat)
    returns (ok: bool)
    requires socket.Valid() && socket.valid && fs.Valid() && left > 0 && data.Length == FILE_BUF_SZ
    requires Names(fs, fileName, p) && Resolve(was, fs.cwd, fileName).Some? && !DirAt(was, p) && start <= socket.pos
    requires Holds(was, fs.root, p, socket.inbound[start..socket.pos])
    modifies socket, fs, data
    ensures socket.Valid() && socket.valid && socket.sent == old(socket.sent) && old(socket.pos) <= socket.pos
    ensures fs.Valid()
    ensures ok ==>
      && socket.pos == old(socket.pos) + Min(left, FILE_BUF_SZ)
      && Holds(was, fs.root, p, socket.inbound[start..socket.pos])
    ensures !ok ==> ChangedAt(was, fs.root, p) && (fs.Reliable() ==> Cleared(was, fs.root, p))
    ensures Delivers(socket.schedule) && fs.Reliable() ==>
      (ok <==> old(socket.pos) + Min(left, FILE_BUF_SZ) <= |socket.inbound|)
    ensures BlockFrom(old(socket.at), v, left, ok, socket.at)
  {
    hide Step, Drive, SentIn, ReceivedIn, SaveFrom, DataFrom, BlocksFrom, BlockFrom, Put, Get, Drop, CanPut, Proper,
      Split, Clean, Walk, ProperPath;
    var readLen := if left < FILE_BUF_SZ then left else FILE_BUF_SZ;
    ghost var before, st := socket.pos, socket.at;
    ghost var so_far := socket.inbound[start..before];
    HoldsChanged(was, fs.root, p, so_far);
    ok := socket.ReadSock(data, readLen);
    ghost var ev := if ok then Got(socket.inbound[before..socket.pos]) else ReadCut(socket.inbound[before..socket.pos]);
    BlockSteps(socket.setup, st, v, left, ev, true);
    if !ok {
      Discard(fs, fileName, was, so_far, p);
      return;
    }
    SliceJoin(socket.inbound, start, before, socket.pos);
    var block := data[..readLen];
    var written := fs.FWrite(p, block);
    BlockSteps(socket.setup, st, v, left, ev, written == readLen);
    socket.Note(written == readLen);
    assert Holds(was, fs.root, p, so_far + block[..written]);
    assert written == readLen ==> block[..written] == block;
    if written < readLen {
      Discard(fs, fileName, was, so_far + block[..written], p);
      return false;
    }
  }

  /** remove_file after a failure. */
  method Discard(fs: FileSystem, fileName: bytes, ghost was: Node, ghost data: bytes, ghost p: Path)
    requires fs.Valid() && Names(fs, fileName, p) && Holds(was, fs.root, p, data)
    requires Resolve(was, fs.cwd, fileName).Some? && !DirAt(was, p)
    modifies fs
    ensures fs.Valid() && ChangedAt(was, fs.root, p)
    ensures fs.Reliable() ==> Cleared(was, fs.root, p)
  {
    HoldsChanged(was, fs.root, p, data);
    ResolvedBelow(fs, fs.root, fileName, p);
    WalkStill(was, p, File(data), fs.cwd, Split(fileName));
    DropPut(was, p, File(data));
    GetDrop(was, p);
    var _ := fs.Remove(fileName);
  }
}
