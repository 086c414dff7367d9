/** Sending files and directories: _transfer_single_file and _send_files_common (src/proto/methods.c). */
module SendFiles {
  import opened Bytes
  import opened Wire
  import opened Session
  import opened NetUtils
  import opened Acks
  import opened Trees
  import opened Paths
  import opened FileSystems

  /** What decides whether an entry may be sent. */
  datatype Limits = Limits(maxFileSize: int, isAutoSend: bool, autoMaxFiles: int, autoMaxFileSize: int)

  /** The name an entry is announced under: the base name in version 1, the path after the common parent later. */
  function SentName(v: nat, path: bytes, pathLen: nat): bytes
    requires v == 1 || pathLen <= |path|
  {
    if v == 1 then path[AfterLastSlash(path)..] else path[pathLen..]
  }

  predicate SizeAllowed(limits: Limits, size: int) {
    size <= limits.maxFileSize && !(limits.isAutoSend && size > limits.autoMaxFileSize)
  }

  /** What a listed path is sent as; None when the transfer stops there. */
  function ItemOf(v: nat, limits: Limits, root: Node, cwd: Path, path: bytes, pathLen: nat): Option<Item>
    requires v == 1 || pathLen <= |path|
  {
    var name := SentName(v, path, pathLen);
    if name == [] || |name| > MAX_FILE_NAME_LENGTH || v < 1 || v > 4 then None
    else if name[|name| - 1] == SLASH then Some(DirItem(name[..|name| - 1]))
    else
      var p := Resolve(root, cwd, path);
      if p == None then None
      else
        match Get(root, p.value)
        case Some(File(data)) => if SizeAllowed(limits, |data|) then Some(FileItem(name, data)) else None
        case _ => None
  }

  /** The size is at most the limit, and in an automatic send at most the limit for those too. */
  predicate SizeFits(limits: Limits, size: int) {
    size <= limits.maxFileSize && (limits.isAutoSend ==> size <= limits.autoMaxFileSize)
  }

  /** path is front and name: the name is the last component in version 1, and what follows the parent later. */
  predicate NamedIn(v: nat, path: bytes, pathLen: nat, front: bytes, name: bytes) {
    && path == front + name
    && if v == 1 then '/' as int !in name && (front != [] ==> front[|front| - 1] == '/' as int)
       else |front| == pathLen
  }

  lemma SentNameIs(v: nat, path: bytes, pathLen: nat, front: bytes, name: bytes)
    requires v == 1 || pathLen <= |path|
    ensures NamedIn(v, path, pathLen, front, name) <==>
      name == SentName(v, path, pathLen) && front == path[..|path| - |name|]
  {
    hide AfterLastSlash;
    if NamedIn(v, path, pathLen, front, name) {
      if v == 1 {
        LastComponent(front, name);
      }
      assert name == path[|front|..] && front == path[..|front|];
    } else if name == SentName(v, path, pathLen) {
      assert path == path[..|path| - |name|] + name;
    }
  }

  lemma {:induction false} LastComponent(front: bytes, name: bytes)
    requires SLASH !in name && (front != [] ==> front[|front| - 1] == SLASH)
    ensures AfterLastSlash(front + name) == |front|
    decreases |name|
  {
    var s := front + name;
    if name == [] {
      assert s == front;
    } else {
      assert s[|s| - 1] == name[|name| - 1] && s[..|s| - 1] == front + name[..|name| - 1];
      LastComponent(front, name[..|name| - 1]);
    }
  }

  /** What a path is sent as: under its last component in version 1 and under what follows the common parent later, when
      that has 1 to 2048 bytes; a directory when it ends in a separator, otherwise the bytes of a file of a size that
      fits. */
  lemma ItemIs(v: nat, limits: Limits, root: Node, cwd: Path, path: bytes, pathLen: nat, front: bytes, name: bytes,
      item: Item)
    requires (v == 1 || pathLen <= |path|) && NamedIn(v, path, pathLen, front, name)
    ensures ItemOf(v, limits, root, cwd, path, pathLen) == Some(item) <==>
      && 1 <= v <= 4 && 1 <= |name| <= 2048
      && if name[|name| - 1] == '/' as int then item == DirItem(name[..|name| - 1])
         else
           && item.FileItem? && item.name == name && SizeFits(limits, |item.data|)
           && Resolve(root, cwd, path).Some? && Get(root, Resolve(root, cwd, path).value) == Some(File(item.data))
  {
    hide Resolve, Get, SentName, NamedIn;
    SentNameIs(v, path, pathLen, front, name);
  }

  /** A list is sent when it is neither empty nor too long, and in an automatic send has no more than the limit for
      those; version 1 sends its first entry only. */
  lemma ListIs(v: nat, limits: Limits, files: seq<bytes>)
    ensures ListAllowed(limits, files) <==>
      0 < |files| < 0xFFFF_FFFF && (limits.isAutoSend ==> |files| <= limits.autoMaxFiles)
    ensures files != [] ==> FilesSent(v, files) == if v == 1 then [files[0]] else files
  {
  }

  function EncodeItem(item: Item): bytes {
    EncodeSize(|item.name|) + item.name + EncodeSize(AnnouncedSize(item))
    + if item.FileItem? then item.data else []
  }

  function EncodeItems(items: seq<Item>): bytes {
    if items == [] then [] else EncodeItem(items[0]) + EncodeItems(items[1..])
  }

  /** The whole payload of Send Files; version 1 sends no count. */
  function EncodeTransfer(v: nat, items: seq<Item>): bytes {
    (if v > 1 then EncodeSize(|items|) else []) + EncodeItems(items)
  }

  lemma {:induction false} EncodeSnoc(items: seq<Item>, item: Item)
    ensures EncodeItems(items + [item]) == EncodeItems(items) + EncodeItem(item)
  {
    if items == [] {
      assert items + [item] == [item] && [item][1..] == [];
    } else {
      assert (items + [item])[1..] == items[1..] + [item];
      EncodeSnoc(items[1..], item);
    }
  }

  /** A part of what comes first, or all of it and a part of what follows, is a part of both together. */
  lemma CutEarlier(before: bytes, now: bytes, a: bytes, b: bytes)
    requires before <= now < before + a
    ensures before <= now < before + (a + b)
  {
    assert before + (a + b) == before + a + b;
  }

  lemma CutLater(before: bytes, now: bytes, a: bytes, b: bytes)
    requires before + a <= now < before + a + b
    ensures before <= now < before + (a + b)
  {
    assert before + (a + b) == before + a + b;
  }

  /** _send_data: the length, then the data. */
  method SendData(socket: Socket, data: bytes) returns (ok: bool)
    requires socket.Valid() && socket.valid && |data| < TWO_63
    modifies socket
    ensures socket.Valid() && socket.valid && socket.pos == old(socket.pos)
    ensures ok ==> socket.sent == old(socket.sent) + (EncodeSize(|data|) + data)
    ensures !ok ==> old(socket.sent) <= socket.sent < old(socket.sent) + (EncodeSize(|data|) + data)
    ensures ok ==>
      socket.at == Step(socket.setup, Step(socket.setup, old(socket.at), Wrote(EncodeSize(|data|))), Wrote(data))
    ensures !ok ==>
      || (exists n :: 0 <= n < 8 && socket.at == Step(socket.setup, old(socket.at), WriteCut(EncodeSize(|data|)[..n])))
      || (exists n :: 0 <= n < |data| && socket.at
            == Step(socket.setup, Step(socket.setup, old(socket.at), Wrote(EncodeSize(|data|))), WriteCut(data[..n])))
    ensures Delivers(socket.schedule) ==> ok
  {
    hide Step, Drive, SentIn, ReceivedIn, Delivers, EncodeSize;
    ok := socket.SendSize(|data|);
    if !ok {
      CutEarlier(old(socket.sent), socket.sent, EncodeSize(|data|), data);
      return;
    }
    ok := socket.WriteSock(data);
    if !ok {
      CutLater(old(socket.sent), socket.sent, EncodeSize(|data|), data);
    }
  }

  /** Name length, name and size of the first entry of items. */
  method SendHeader(v: nat, socket: Socket, name: bytes, size: int64, ghost items: seq<Item>) returns (ok: bool)
    requires socket.Valid() && socket.valid && |name| < TWO_63
    requires items != [] && items[0].name == name && AnnouncedSize(items[0]) == size
    modifies socket
    ensures socket.Valid() && socket.valid && socket.pos == old(socket.pos)
    ensures ok ==> socket.sent == old(socket.sent) + (EncodeSize(|name|) + name + EncodeSize(size))
    ensures !ok ==> old(socket.sent) <= socket.sent < old(socket.sent) + (EncodeSize(|name|) + name + EncodeSize(size))
    ensures old(socket.at) == NameSizeOut(v, items) ==> socket.at == if ok then AtData(v, items, 0) else Failed(v)
    ensures Delivers(socket.schedule) ==> ok
  {
    hide Step, Drive, SentIn, ReceivedIn, Delivers, EncodeSize, AtData;
    ghost var st := socket.at;
    ok := SendData(socket, name);
    if st == NameSizeOut(v, items) {
      NameSizeStep(socket.setup, v, items, Wrote(EncodeSize(|name|)));
      NameStep(socket.setup, v, items, Wrote(name));
      if !ok {
        if n :| 0 <= n < 8 && socket.at == Step(socket.setup, st, WriteCut(EncodeSize(|name|)[..n])) {
          NameSizeStep(socket.setup, v, items, WriteCut(EncodeSize(|name|)[..n]));
        } else {
          ghost var n :| 0 <= n < |name|
            && socket.at == Step(socket.setup, Step(socket.setup, st, Wrote(EncodeSize(|name|))), WriteCut(name[..n]));
          NameStep(socket.setup, v, items, WriteCut(name[..n]));
        }
      }
    }
    if !ok {
      CutEarlier(old(socket.sent), socket.sent, EncodeSize(|name|) + name, EncodeSize(size));
      return;
    }
    ghost var at := socket.at;
    ok := socket.SendSize(size);
    if !ok {
      CutLater(old(socket.sent), socket.sent, EncodeSize(|name|) + name, EncodeSize(size));
    }
    if st == NameSizeOut(v, items) {
      if ok {
        SizeStep(socket.setup, v, items, Wrote(EncodeSize(size)));
      } else {
        ghost var n :| 0 <= n < 8 && socket.at == Step(socket.setup, at, WriteCut(EncodeSize(size)[..n]));
        SizeStep(socket.setup, v, items, WriteCut(EncodeSize(size)[..n]));
      }
    }
  }

  /** The reading loop of _transfer_regular_file: blocks of at most 64 KiB until the announced size is sent. */
  method SendBlocks(v: nat, socket: Socket, data: bytes, ghost items: seq<Item>, ghost st: State) returns (ok: bool)
    requires socket.Valid() && socket.valid
    requires items != [] && items[0].FileItem? && items[0].data == data && ChunksFrom(st, v, items, 0, socket.at)
    modifies socket
    ensures socket.Valid() && socket.valid && socket.pos == old(socket.pos)
    ensures ok ==> socket.sent == old(socket.sent) + data
    ensures !ok ==> old(socket.sent) <= socket.sent < old(socket.sent) + data
    ensures ItemFrom(st, v, items, ok, socket.at)
    ensures Delivers(socket.schedule) ==> ok
  {
    hide Step, Drive, SentIn, ReceivedIn, Delivers, ChunksFrom, ItemFrom;
    var off := 0;
    while off < |data|
      invariant 0 <= off <= |data|
      invariant socket.Valid() && socket.valid && socket.pos == old(socket.pos)
      invariant socket.sent == old(socket.sent) + data[..off]
      invariant ChunksFrom(st, v, items, off, socket.at)
    {
      var next := Min(off + FILE_BUF_SZ, |data|);
      var block := data[off..next];
      ghost var at, sent := socket.at, socket.sent;
      ok := socket.WriteSock(block);
      if !ok {
        ghost var n :| 0 <= n < |block| && socket.sent == sent + block[..n]
          && socket.at == Step(socket.setup, at, WriteCut(block[..n]));
        ChunkSteps(socket.setup, st, v, items, off, at, WriteCut(block[..n]));
        CutWithin(old(socket.sent), data, off, next, n, socket.sent);
        return;
      }
      ChunkSteps(socket.setup, st, v, items, off, at, Wrote(block));
      assert data[..next] == data[..off] + block;
      off := next;
    }
    assert data[..|data|] == data;
    ChunkEnds(st, v, items, socket.at);
    return true;
  }

  lemma CutWithin(before: bytes, data: bytes, off: nat, next: nat, n: nat, now: bytes)
    requires off <= next <= |data| && n < next - off && now == before + data[..off] + data[off..next][..n]
    ensures before <= now < before + data
  {
    assert now == before + data[..off + n];
  }

  /** _transfer_directory. What a failure leaves on the way is a part of the entry, never all of it. */
  method TransferDirectory(v: nat, socket: Socket, name: bytes, ghost items: seq<Item>) returns (ok: bool)
    requires socket.Valid() && socket.valid && |name| < TWO_63 && items != [] && items[0] == DirItem(name)
    modifies socket
    ensures socket.Valid() && socket.valid && socket.pos == old(socket.pos)
    ensures ok ==> socket.sent == old(socket.sent) + EncodeItem(items[0])
    ensures !ok ==> old(socket.sent) <= socket.sent < old(socket.sent) + EncodeItem(items[0])
    ensures ItemFrom(old(socket.at), v, items, ok, socket.at)
    ensures Delivers(socket.schedule) ==> ok
  {
    hide Step, Drive, SentIn, ReceivedIn, Delivers, EncodeSize, AtData, AtItem;
    ItemStartStep(socket.setup, v, items, true);
    DirectorySent(v, items);
    socket.Note(true);
    ok := SendHeader(v, socket, name, -1, items);
    assert EncodeItem(items[0]) == EncodeSize(|name|) + name + EncodeSize(-1);
  }

  /** _transfer_regular_file. Nothing is sent of a file that cannot be read or is too large; what another failure
      leaves on the way is a part of the entry, never all of it. */
  method TransferRegularFile(v: nat, socket: Socket, fs: FileSystem, path: bytes, name: bytes, limits: Limits,
      ghost items: seq<Item>)
    returns (ok: bool)
    requires socket.Valid() && socket.valid && |name| < TWO_63 && limits.maxFileSize < TWO_63 && items != []
    requires Readable(limits, fs.root, fs.cwd, path).Some? ==>
      items[0] == FileItem(name, Readable(limits, fs.root, fs.cwd, path).value)
    modifies socket, fs`ops
    ensures socket.Valid() && socket.valid && socket.pos == old(socket.pos)
    ensures ok ==>
      && Readable(limits, fs.root, fs.cwd, path).Some?
      && socket.sent == old(socket.sent) + EncodeItem(items[0])
    ensures Readable(limits, fs.root, fs.cwd, path) == None ==> !ok && socket.sent == old(socket.sent)
    ensures !ok ==> old(socket.sent) <= socket.sent < old(socket.sent) + EncodeItem(items[0])
    ensures ItemFrom(old(socket.at), v, items, ok, socket.at)
    ensures Delivers(socket.schedule) && fs.Reliable() ==> (ok <==> Readable(limits, fs.root, fs.cwd, path).Some?)
  {
    hide Step, Drive, SentIn, ReceivedIn, Delivers, EncodeSize, Resolve, Proper, Enumerates, AtData, AtItem,
      EncodeItem, Readable, ChunksFrom;
    ghost var st := socket.at;
    ItemStartStep(socket.setup, v, items, true);
    ItemStartStep(socket.setup, v, items, false);
    EncodedItemSize(items[0]);
    var data := Readable(limits, fs.root, fs.cwd, path);
    ReadableFits(limits, fs.root, fs.cwd, path);
    var refused := fs.Refused();
    if refused || data == None {
      socket.Note(false);
      return false;
    }
    socket.Note(true);
    ghost var header := EncodeSize(|name|) + name + EncodeSize(|data.value|);
    FileEncoded(name, data.value);
    ok := SendHeader(v, socket, name, |data.value|, items);
    if !ok {
      CutEarlier(old(socket.sent), socket.sent, header, data.value);
      return;
    }
    ChunkEnds(st, v, items, socket.at);
    ok := SendBlocks(v, socket, data.value, items, st);
    if !ok {
      CutLater(old(socket.sent), socket.sent, header, data.value);
    }
  }

  lemma FileEncoded(name: bytes, data: bytes)
    requires |name| < TWO_63 && |data| < TWO_63
    ensures EncodeItem(FileItem(name, data)) == (EncodeSize(|name|) + name + EncodeSize(|data|)) + data
  {
  }

  lemma ReadableFits(limits: Limits, root: Node, cwd: Path, path: bytes)
    ensures var data := Readable(limits, root, cwd, path); data.Some? ==> |data.value| <= limits.maxFileSize
  {
  }

  /** open_file and get_file_size: the bytes of a regular file whose size is allowed. */
  function Readable(limits: Limits, root: Node, cwd: Path, path: bytes): Option<bytes> {
    var p := Resolve(root, cwd, path);
    if p == None then None
    else
      match Get(root, p.value)
      case Some(File(data)) => if SizeAllowed(limits, |data|) then Some(data) else None
      case _ => None
  }

  /** _transfer_single_file. Nothing is sent of an entry that cannot be; a failure leaves a part of the entry on the
      way, never all of it. */
  method TransferSingleFile(v: nat, socket: Socket, fs: FileSystem, path: bytes, pathLen: nat, limits: Limits,
      ghost items: seq<Item>)
    returns (ok: bool)
    requires socket.Valid() && socket.valid && (v == 1 || pathLen <= |path|)
    requires |path| < TWO_31 && limits.maxFileSize < TWO_63 && items != []
    requires ItemOf(v, limits, fs.root, fs.cwd, path, pathLen).Some? ==>
      items[0] == ItemOf(v, limits, fs.root, fs.cwd, path, pathLen).value
    modifies socket, fs`ops
    ensures socket.Valid() && socket.valid && socket.pos == old(socket.pos)
    ensures ok ==>
      && ItemOf(v, limits, fs.root, fs.cwd, path, pathLen).Some?
      && socket.sent == old(socket.sent) + EncodeItem(items[0])
    ensures ItemOf(v, limits, fs.root, fs.cwd, path, pathLen) == None ==> !ok && socket.sent == old(socket.sent)
    ensures !ok ==> old(socket.sent) <= socket.sent < old(socket.sent) + EncodeItem(items[0])
    ensures ItemFrom(old(socket.at), v, items, ok, socket.at)
    ensures Delivers(socket.schedule) && fs.Reliable() ==>
      (ok <==> ItemOf(v, limits, fs.root, fs.cwd, path, pathLen).Some?)
  {
    hide Step, Drive, SentIn, ReceivedIn, Delivers, EncodeSize, Resolve, Proper, Enumerates, AtData, AtItem, EncodeItem;
    ItemStartStep(socket.setup, v, items, false);
    var name: bytes := [];
    if v == 1 {
      name := path[AfterLastSlash(path)..];
    } else if 2 <= v <= 4 {
      name := path[pathLen..];
    }
    EncodedItemSize(items[0]);
    if name == [] || |name| > MAX_FILE_NAME_LENGTH {
      socket.Note(false);
      return false;
    }
    if name[|name| - 1] == SLASH {
      ok := TransferDirectory(v, socket, name[..|name| - 1], items);
    } else {
      ok := TransferRegularFile(v, socket, fs, path, name, limits, items);
    }
  }

  /** What a list of paths is announced as; an entry the transfer stops at stands for itself. */
  function Announced(v: nat, limits: Limits, root: Node, cwd: Path, files: seq<bytes>, pathLen: nat): seq<Item>
    requires v == 1 || forall f | f in files :: pathLen <= |f|
  {
    if files == [] then []
    else
      var item := ItemOf(v, limits, root, cwd, files[0], pathLen);
      [if item.Some? then item.value else DirItem([])] + Announced(v, limits, root, cwd, files[1..], pathLen)
  }

  /** Every listed path can be sent. */
  predicate AllSendable(v: nat, limits: Limits, root: Node, cwd: Path, files: seq<bytes>, pathLen: nat)
    requires v == 1 || forall f | f in files :: pathLen <= |f|
  {
    forall i | 0 <= i < |files| :: ItemOf(v, limits, root, cwd, files[i], pathLen).Some?
  }

  lemma {:induction false} AnnouncedAt(v: nat, limits: Limits, root: Node, cwd: Path, files: seq<bytes>, pathLen: nat)
    requires v == 1 || forall f | f in files :: pathLen <= |f|
    ensures |Announced(v, limits, root, cwd, files, pathLen)| == |files|
    ensures forall i | 0 <= i < |files| && ItemOf(v, limits, root, cwd, files[i], pathLen).Some? ::
      Announced(v, limits, root, cwd, files, pathLen)[i] == ItemOf(v, limits, root, cwd, files[i], pathLen).value
  {
    hide ItemOf;
    if files != [] {
      AnnouncedAt(v, limits, root, cwd, files[1..], pathLen);
    }
  }

  /** The list is acceptable before anything is sent. */
  predicate ListAllowed(limits: Limits, files: seq<bytes>) {
    0 < |files| < TWO_32 - 1 && !(limits.isAutoSend && |files| > limits.autoMaxFiles)
  }

  /** The entries that a version sends of a list: version 1 only the first. */
  function FilesSent(v: nat, files: seq<bytes>): seq<bytes> {
    if v == 1 then files[..Min(1, |files|)] else files
  }

  lemma AnnouncedPrefix(v: nat, limits: Limits, root: Node, cwd: Path, files: seq<bytes>, pathLen: nat)
    requires v == 1 || forall f | f in files :: pathLen <= |f|
    ensures var all := Announced(v, limits, root, cwd, files, pathLen);
            && |all| == |files|
            && Announced(v, limits, root, cwd, FilesSent(v, files), pathLen)
               == if v == 1 then all[..Min(1, |all|)] else all
  {
    AnnouncedAt(v, limits, root, cwd, files, pathLen);
    if v == 1 && files != [] {
      assert files[..1][1..] == [];
      assert Announced(v, limits, root, cwd, files[..1][1..], pathLen) == [];
    }
  }

  method SendCount(v: nat, socket: Socket, count: nat, ghost items: seq<Item>) returns (ok: bool)
    requires socket.Valid() && socket.valid && count == |items| < TWO_32
    modifies socket
    ensures socket.Valid() && socket.valid && socket.pos == old(socket.pos)
    ensures ok ==> socket.sent == old(socket.sent) + EncodeSize(count)
    ensures !ok ==> old(socket.sent) <= socket.sent < old(socket.sent) + EncodeSize(count)
    ensures old(socket.at) == CountOut(v, items) ==> socket.at == if ok then AtItem(v, items) else Failed(v)
    ensures Delivers(socket.schedule) ==> ok
  {
    hide Step, Drive, SentIn, ReceivedIn, Delivers, EncodeSize, AtItem;
    ghost var st := socket.at;
    ok := socket.SendSize(count);
    if ok {
      CountOutStep(socket.setup, v, items, Wrote(EncodeSize(count)));
    } else {
      ghost var n :| 0 <= n < 8 && socket.at == Step(socket.setup, st, WriteCut(EncodeSize(count)[..n]));
      CountOutStep(socket.setup, v, items, WriteCut(EncodeSize(count)[..n]));
    }
  }

  /** The entries before the k-th are sent whole, and of the k-th a part, or nothing when it cannot be sent. */
  ghost predicate StoppedAt(v: nat, limits: Limits, root: Node, cwd: Path, files: seq<bytes>, pathLen: nat,
      before: bytes, now: bytes, k: nat)
    requires v == 1 || forall f | f in files :: pathLen <= |f|
  {
    && k < |files| && (forall j | 0 <= j < k :: ItemOf(v, limits, root, cwd, files[j], pathLen).Some?)
    && var done := before + EncodeItems(Announced(v, limits, root, cwd, files[..k], pathLen));
    && match ItemOf(v, limits, root, cwd, files[k], pathLen)
       case None => now == done
       case Some(item) => done <= now < done + EncodeItem(item)
  }

  /** The transfer stopped at some entry. */
  ghost predicate Stopped(v: nat, limits: Limits, root: Node, cwd: Path, files: seq<bytes>, pathLen: nat,
      before: bytes, now: bytes)
    requires v == 1 || forall f | f in files :: pathLen <= |f|
  {
    exists k: nat :: StoppedAt(v, limits, root, cwd, files, pathLen, before, now, k)
  }

  lemma {:induction false} AnnouncedUpTo(v: nat, limits: Limits, root: Node, cwd: Path, files: seq<bytes>,
      pathLen: nat, k: nat)
    requires v == 1 || forall f | f in files :: pathLen <= |f|
    requires k <= |files|
    ensures |Announced(v, limits, root, cwd, files, pathLen)| == |files|
    ensures Announced(v, limits, root, cwd, files[..k], pathLen) == Announced(v, limits, root, cwd, files, pathLen)[..k]
  {
    hide ItemOf, Announced;
    AnnouncedFirst(v, limits, root, cwd, files, pathLen);
    AnnouncedFirst(v, limits, root, cwd, files[..k], pathLen);
    if files != [] {
      AnnouncedUpTo(v, limits, root, cwd, files[1..], pathLen, if k > 0 then k - 1 else 0);
    }
    if k > 0 {
      assert files[..k][1..] == files[1..][..k - 1];
    }
  }

  lemma AnnouncedFirst(v: nat, limits: Limits, root: Node, cwd: Path, files: seq<bytes>, pathLen: nat)
    requires v == 1 || forall f | f in files :: pathLen <= |f|
    ensures files == [] ==> Announced(v, limits, root, cwd, files, pathLen) == []
    ensures files != [] ==>
      var item := ItemOf(v, limits, root, cwd, files[0], pathLen);
      Announced(v, limits, root, cwd, files, pathLen)
      == [if item.Some? then item.value else DirItem([])] + Announced(v, limits, root, cwd, files[1..], pathLen)
  {
    hide ItemOf;
  }

  lemma EncodedItemSize(item: Item)
    ensures |EncodeItem(item)| >= 16
  {
  }

  lemma StopsHere(v: nat, limits: Limits, root: Node, cwd: Path, files: seq<bytes>, pathLen: nat,
      before: bytes, now: bytes, k: nat)
    requires v == 1 || forall f | f in files :: pathLen <= |f|
    requires k < |files| && forall j | 0 <= j < k :: ItemOf(v, limits, root, cwd, files[j], pathLen).Some?
    requires var items := Announced(v, limits, root, cwd, files, pathLen);
             && |items| == |files|
             && var done := before + EncodeItems(items[..k]);
             && match ItemOf(v, limits, root, cwd, files[k], pathLen)
                case None => now == done
                case Some(item) => done <= now < done + EncodeItem(item)
    ensures Stopped(v, limits, root, cwd, files, pathLen, before, now)
  {
    hide ItemOf, EncodeItem, EncodeItems, Announced;
    AnnouncedUpTo(v, limits, root, cwd, files, pathLen, k);
    assert StoppedAt(v, limits, root, cwd, files, pathLen, before, now, k);
  }

  /** The loop of _send_files_common. It stops at the first entry that cannot be sent. */
  method SendItems(v: nat, socket: Socket, fs: FileSystem, files: seq<bytes>, pathLen: nat, limits: Limits)
    returns (ok: bool)
    requires socket.Valid() && socket.valid && (v == 1 || forall f | f in files :: pathLen <= |f|)
    requires (forall f | f in files :: |f| < TWO_31) && limits.maxFileSize < TWO_63
    modifies socket, fs`ops
    ensures socket.Valid() && socket.valid && socket.pos == old(socket.pos)
    ensures ok ==>
      && AllSendable(v, limits, fs.root, fs.cwd, files, pathLen)
      && socket.sent == old(socket.sent) + EncodeItems(Announced(v, limits, fs.root, fs.cwd, files, pathLen))
    ensures !ok ==> Stopped(v, limits, fs.root, fs.cwd, files, pathLen, old(socket.sent), socket.sent)
    ensures ListFrom(old(socket.at), v, Announced(v, limits, fs.root, fs.cwd, files, pathLen), ok, socket.at)
    ensures Delivers(socket.schedule) && fs.Reliable() ==>
      (ok <==> AllSendable(v, limits, fs.root, fs.cwd, files, pathLen))
  {
    hide Step, Drive, SentIn, ReceivedIn, Delivers, EncodeSize, ItemOf, Proper, Enumerates, AtItem, EncodeItem,
      ItemFrom, ItemsFrom, ListFrom, Announced, EncodeItems, Stopped;
    ghost var items := Announced(v, limits, fs.root, fs.cwd, files, pathLen);
    ghost var st := socket.at;
    AnnouncedAt(v, limits, fs.root, fs.cwd, files, pathLen);
    ListEnds(st, v, items, st);
    NothingEncoded(items);
    var i := 0;
    while i < |files|
      invariant 0 <= i <= |files|
      invariant socket.Valid() && socket.valid && socket.pos == old(socket.pos)
      invariant forall j | 0 <= j < i :: ItemOf(v, limits, fs.root, fs.cwd, files[j], pathLen).Some?
      invariant socket.sent == old(socket.sent) + EncodeItems(items[..i])
      invariant ItemsFrom(st, v, items, items[i..], socket.at)
    {
      assert files[i] in files;
      ItemsAhead(items, i, old(socket.sent));
      ghost var at := socket.at;
      ok := TransferSingleFile(v, socket, fs, files[i], pathLen, limits, items[i..]);
      ItemsSteps(st, v, items, items[i..], at, ok, socket.at);
      ListEnds(st, v, items, socket.at);
      if !ok {
        StopsHere(v, limits, fs.root, fs.cwd, files, pathLen, old(socket.sent), socket.sent, i);
        return;
      }
      i := i + 1;
    }
    assert items[..i] == items && items[i..] == [];
    ListEnds(st, v, items, socket.at);
    return true;
  }

  lemma ItemsAhead(items: seq<Item>, i: nat, before: bytes)
    requires i < |items|
    ensures items[i..] != [] && items[i..][0] == items[i] && items[i..][1..] == items[i + 1..]
    ensures before + EncodeItems(items[..i + 1]) == before + EncodeItems(items[..i]) + EncodeItem(items[i])
  {
    hide EncodeItem, EncodeItems;
    EncodeSnoc(items[..i], items[i]);
    assert items[..i + 1] == items[..i] + [items[i]];
  }

  lemma NothingEncoded(items: seq<Item>)
    ensures EncodeItems(items[..0]) == [] && items[0..] == items
  {
  }

  /** What a transfer that failed has sent: a part of the count, or all of it and the entries before the one at which
      it stopped, with at most a part of that one. */
  ghost predicate BrokenOff(v: nat, limits: Limits, root: Node, cwd: Path, files: seq<bytes>, pathLen: nat,
      before: bytes, now: bytes)
    requires v == 1 || forall f | f in files :: pathLen <= |f|
    requires |files| < TWO_32
  {
    || (v > 1 && before <= now < before + EncodeSize(|files|))
    || Stopped(v, limits, root, cwd, files, pathLen, before + (if v > 1 then EncodeSize(|files|) else []), now)
  }

  /** The count and the entries. */
  method SendList(v: nat, socket: Socket, fs: FileSystem, files: seq<bytes>, pathLen: nat, limits: Limits)
    returns (ok: bool)
    requires socket.Valid() && socket.valid && v >= 1 && |files| < TWO_32
    requires v == 1 || forall f | f in files :: pathLen <= |f|
    requires (forall f | f in files :: |f| < TWO_31) && limits.maxFileSize < TWO_63
    modifies socket, fs`ops
    ensures socket.Valid() && socket.valid && socket.pos == old(socket.pos)
    ensures ok ==> AllSendable(v, limits, fs.root, fs.cwd, FilesSent(v, files), pathLen)
    ensures ok ==>
      socket.sent == old(socket.sent)
        + EncodeTransfer(v, Announced(v, limits, fs.root, fs.cwd, FilesSent(v, files), pathLen))
    ensures !ok ==>
      BrokenOff(v, limits, fs.root, fs.cwd, FilesSent(v, files), pathLen, old(socket.sent), socket.sent)
    ensures old(socket.at) == StartSending(v, Announced(v, limits, fs.root, fs.cwd, files, pathLen)) ==>
      socket.at == if ok then AfterSend(v) else Failed(v)
    ensures Delivers(socket.schedule) && fs.Reliable() ==>
      (ok <==> AllSendable(v, limits, fs.root, fs.cwd, FilesSent(v, files), pathLen))
  {
    hide Step, Drive, SentIn, ReceivedIn, Delivers, EncodeSize, ItemOf, Proper, Enumerates, AtItem, EncodeItem,
      AfterSend, EncodeItems, Announced, AllSendable, Stopped;
    ghost var all := Announced(v, limits, fs.root, fs.cwd, files, pathLen);
    AnnouncedPrefix(v, limits, fs.root, fs.cwd, files, pathLen);
    SendStarts(v, all);
    if v > 1 {
      ok := SendCount(v, socket, |files|, all);
      if !ok {
        return;
      }
    }
    assert v == 1 ==> old(socket.sent) + [] == old(socket.sent);
    ok := SendItems(v, socket, fs, FilesSent(v, files), pathLen, limits);
  }

  lemma SendStarts(v: nat, items: seq<Item>)
    ensures v > 1 ==> StartSending(v, items) == CountOut(v, items)
    ensures v == 1 ==> StartSending(v, items) == AtItem(v, items[..Min(1, |items|)])
  {
  }

  /** _send_files_common from an acceptable list on. On success the stream grew by exactly the encoded transfer, the
      acknowledgement was waited for from version 4 on, and the socket is closed; without failures from outside it
      succeeds exactly when every entry can be sent. */
  method SendFilesCommon(v: nat, socket: Socket, fs: FileSystem, files: seq<bytes>, pathLen: nat, limits: Limits)
    returns (ok: bool)
    requires socket.Valid() && socket.valid && v >= 1
    requires v == 1 || forall f | f in files :: pathLen <= |f|
    requires (forall f | f in files :: |f| < TWO_31) && limits.maxFileSize < TWO_63
    modifies socket, fs`ops
    ensures socket.Valid() && (ok <==> !socket.valid)
    ensures !ListAllowed(limits, files) ==> !ok && socket.sent == old(socket.sent) && socket.at == old(socket.at)
    ensures ok ==>
      && AllSendable(v, limits, fs.root, fs.cwd, FilesSent(v, files), pathLen)
      && socket.sent == old(socket.sent)
           + EncodeTransfer(v, Announced(v, limits, fs.root, fs.cwd, FilesSent(v, files), pathLen))
    ensures !ok && ListAllowed(limits, files) ==>
      BrokenOff(v, limits, fs.root, fs.cwd, FilesSent(v, files), pathLen, old(socket.sent), socket.sent)
    ensures old(socket.pos) <= socket.pos <= old(socket.pos) + (if ok && v >= 4 then 1 else 0)
    ensures ListAllowed(limits, files) ==>
      SendFrom(old(socket.at), v, Announced(v, limits, fs.root, fs.cwd, files, pathLen), ok, socket.valid, socket.at)
    ensures Delivers(socket.schedule) && fs.Reliable() ==>
      (ok <==> ListAllowed(limits, files) && AllSendable(v, limits, fs.root, fs.cwd, FilesSent(v, files), pathLen))
  {
    hide Step, Drive, SentIn, ReceivedIn, Delivers, Proper, Enumerates, SendFrom, StartSending, Announced, AllSendable,
      EncodeTransfer, BrokenOff;
    if |files| == 0 || |files| >= TWO_32 - 1 || (limits.isAutoSend && |files| > limits.autoMaxFiles) {
      return false;
    }
    ghost var all := Announced(v, limits, fs.root, fs.cwd, files, pathLen);
    ghost var st := socket.at;
    ok := SendList(v, socket, fs, files, pathLen, limits);
    SendEnds(socket.setup, st, v, all, socket.at);
    if !ok {
      return;
    }
    if v >= 4 {
      var _ := ReadAck(socket);
    }
    SendEnds(socket.setup, st, v, all, socket.at);
    socket.CloseSocket();
  }
}
