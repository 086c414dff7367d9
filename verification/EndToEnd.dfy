/** A whole transfer: copied entries sent by one client and received by another, through the loops on both sides and
    over any two transports that keep delivering. */
module EndToEnd {
  import opened Bytes
  import opened Wire
  import opened Session
  import opened NetUtils
  import opened Trees
  import opened FileSystems
  import opened Mkdirs
  import opened SendFiles
  import opened Flatten
  import opened GetFiles
  import opened Forest
  import opened RoundTrip
  import opened Selector

  /** The copied entries can be sent and received: names both ends accept, sizes and count within the limits, at least
      one leaf. */
  ghost predicate Transferable(setup: Setup, v: nat, limits: Limits, order: set<bytes> -> seq<bytes>, root: Node,
      cwd: Path, par: bytes, P: Path, top: seq<bytes>)
  {
    && CopiedFrom(order, root, cwd, par, P, top)
    && var ls := LeavesUnder(order, v >= 3, Dir(EntriesAt(root, P)), top);
    && 0 < |ls| <= setup.maxFileCount && |ls| < TWO_32 - 1 && (limits.isAutoSend ==> |ls| <= limits.autoMaxFiles)
    && forall l | l in ls :: GoodLeaf(setup, limits, par, l)
  }

  /** The receiver has a free name for its temp directory, and its working directory is not extremely full. */
  ghost predicate HasRoom(v: nat, ids: seq<uint32>, h0: Entries, m: Entries, top: seq<bytes>) {
    (exists id | id in ids :: Hex(id) !in h0) && Roomy(h0, KeptAmong(v >= 3, m, top))
  }

  lemma SentIsPromising(setup: Setup, limits: Limits, v: nat, order: set<bytes> -> seq<bytes>, root: Node, cwd: Path,
      par: bytes, P: Path, top: seq<bytes>, ids: seq<uint32>, h0: Entries)
    requires 2 <= v <= 4 && setup.maxFileSize >= 0
    requires Transferable(setup, v, limits, order, root, cwd, par, P, top)
    requires HasRoom(v, ids, h0, EntriesAt(root, P), top)
    ensures var paths := TrimFirst(TopPaths(par, top));
            var files := SelectedLeaves(order, v >= 3, root, cwd, paths);
            var pathLen := ParentLength(paths);
            && (forall f | f in files :: pathLen <= |f|)
            && AllSendable(v, limits, root, cwd, files, pathLen) && ListAllowed(limits, files)
            && var sent := EncodeTransfer(v, Announced(v, limits, root, cwd, files, pathLen));
            && Promising(setup, v, ids, h0, sent)
            && forall hex: bytes | ProperName(hex) && |hex| <= 8 ::
                 GetSpec(setup, v, hex, sent)
                 == Some(ReceiveFiles.Received(KeptAmong(v >= 3, EntriesAt(root, P), top), |sent|))
  {
    hide CopiedFrom, LeavesUnder, GoodLeaf, KeptAmong, Leaves, SelectedLeaves, TrimFirst, TopPaths, ParentLength,
      AllSendable, Announced, EncodeTransfer, GetSpec, Hex, Proper, Get, Promising, LeafItems, Roomy;
    ParentIsDir(order, root, cwd, par, P, top);
    ForestIsPromising(setup, limits, v, order, root, cwd, par, P, top, [], ids, h0);
    ForestSent(setup, limits, v, order, root, cwd, par, P, top);
    var paths := TrimFirst(TopPaths(par, top));
    var files := SelectedLeaves(order, v >= 3, root, cwd, paths);
    var sent := EncodeTransfer(v, Announced(v, limits, root, cwd, files, ParentLength(paths)));
    assert sent + [] == sent;
    AnnouncedAt(v, limits, root, cwd, files, ParentLength(paths));
    forall hex: bytes | ProperName(hex) && |hex| <= 8
      ensures GetSpec(setup, v, hex, sent)
           == Some(ReceiveFiles.Received(KeptAmong(v >= 3, EntriesAt(root, P), top), |sent|))
    {
      TreeRoundTrip(setup, limits, v, hex, order, root, cwd, par, P, top, []);
    }
  }

  lemma ParentIsDir(order: set<bytes> -> seq<bytes>, root: Node, cwd: Path, par: bytes, P: Path, top: seq<bytes>)
    requires CopiedFrom(order, root, cwd, par, P, top)
    ensures DirAt(root, P)
  {
  }

  /** The working directory gained exactly the entries m, each once and with its content: under its own name when
      nothing stands in its way, otherwise under the one the rule for new names gives it. The temp directory, named
      by the first unused candidate, is gone. */
  ghost predicate Arrived(workingDirSet: bool, ids: seq<uint32>, h0: Entries, h: Entries, m: Entries, files: seq<bytes>,
      dests: seq<bytes>, moves: map<bytes, bytes>, placed: Entries)
  {
    && Unused(ids, h0).Some?
    && var hex := Unused(ids, h0).value;
    && Settled(workingDirSet, h0, hex, m, files, dests, moves, placed)
    && h == h0 + placed && hex !in h
    && (Undisturbed(workingDirSet, h0, hex, m) ==> h == h0 + m)
  }

  /** What was delivered is the one thing the stream stands for, whatever the temp directory is called. */
  lemma DeliveredIs(setup: Setup, v: nat, workingDirSet: bool, stream: bytes, used: nat, h0: Entries, h: Entries,
      hex: bytes, received: Entries, files: seq<bytes>, dests: seq<bytes>, moves: map<bytes, bytes>, placed: Entries,
      ids: seq<uint32>, m: Entries)
    requires Delivered(setup, v, workingDirSet, stream, used, h0, h, hex, received, files, dests, moves, placed)
    requires Unused(ids, h0) == Some(hex)
    requires forall hex: bytes | ProperName(hex) && |hex| <= 8 ::
               GetSpec(setup, v, hex, stream) == Some(ReceiveFiles.Received(m, |stream|))
    ensures received == m && used == |stream|
    ensures Arrived(workingDirSet, ids, h0, h, m, files, dests, moves, placed)
  {
    hide GetSpec, Settled, Hex, Unused;
    NamesKept(workingDirSet, h0, hex, received, files, dests, moves, placed);
    UnusedIs(ids, h0);
    var id: uint32 :| id in ids && hex == Hex(id);
    assert Power16(8) == TWO_32;
    HexShort(id, 8);
  }

  /** The copied paths come out of the clipboard as they are: short, without NUL, and below one parent; the first may
      have a separator at its end. */
  predicate SharedParent(copied: seq<bytes>, par: bytes, top: seq<bytes>) {
    PathsOk(copied) && TrimFirst(copied) == TopPaths(par, top)
  }

  /** What is sent of the copied entries. */
  ghost function Stream(v: nat, limits: Limits, order: set<bytes> -> seq<bytes>, root: Node, cwd: Path,
      copied: seq<bytes>): bytes
    requires v >= 2 && PathsOk(copied)
    requires forall f | f in FilesToSend(v, order, root, cwd, copied) :: PathLength(v, copied) <= |f|
  {
    EncodeTransfer(v, Announced(v, limits, root, cwd, FilesToSend(v, order, root, cwd, copied), PathLength(v, copied)))
  }

  method Send(v: nat, fs: FileSystem, task: Task, sending: Setup, schedule: nat -> Outcome) returns (stream: bytes)
    requires v >= 2 && fs.Valid() && fs.Reliable() && Delivers(schedule) && TaskOk(task) && task.copied.Some?
    requires forall f | f in FilesToSend(v, fs.order, fs.root, fs.cwd, task.copied.value) ::
               PathLength(v, task.copied.value) <= |f|
    requires var files := FilesToSend(v, fs.order, fs.root, fs.cwd, task.copied.value);
             && ListAllowed(task.limits, files)
             && AllSendable(v, task.limits, fs.root, fs.cwd, files, PathLength(v, task.copied.value))
    modifies fs`ops
    ensures fs.Valid() && stream == Stream(v, task.limits, fs.order, fs.root, fs.cwd, task.copied.value)
  {
    hide AllSendable, ListAllowed, Announced, EncodeTransfer, Proper, Enumerates, Drive, Step, SentIn, ReceivedIn,
      Delivers, PathsOk, FilesToSend, PathLength;
    var sender := new Socket([], schedule, sending);
    ghost var files;
    var ok;
    ok, files := SendCopied(v, sender, fs, task);
    assert [] + sender.sent == sender.sent;
    return sender.sent;
  }

  method Receive(v: nat, fs: FileSystem, ids: seq<uint32>, workingDirSet: bool, setup: Setup, schedule: nat -> Outcome,
      stream: bytes, ghost m: Entries)
    returns (status: bool, dests: seq<bytes>, ghost moves: map<bytes, bytes>, ghost placed: Entries)
    requires v >= 1 && fs.Valid() && fs.Reliable() && Delivers(schedule)
    requires Promising(setup, v, ids, Here(fs.root, fs.cwd), stream)
    requires forall hex: bytes | ProperName(hex) && |hex| <= 8 ::
               GetSpec(setup, v, hex, stream) == Some(ReceiveFiles.Received(m, |stream|))
    modifies fs
    ensures status && fs.Valid() && NothingLost(old(fs.root), fs.cwd, fs.root)
    ensures Arrived(workingDirSet, ids, Here(old(fs.root), fs.cwd), Here(fs.root, fs.cwd), m, fs.order(m.Keys), dests,
                    moves, placed)
  {
    hide GetSpec, Hex, Proper, Get, Promising, Enumerates, Drive, Step, SentIn, ReceivedIn, Delivers, Arrived,
      Receivable, NothingLost, Delivered, ProperName, Unused;
    var receiver := new Socket(stream, schedule, setup);
    assert receiver.inbound[0..] == stream;
    ghost var h0, hex, received := Here(fs.root, fs.cwd), [], map[];
    PromisingIsReceivable(setup, v, workingDirSet, ids, fs.order, h0, stream);
    status, dests, hex, received, moves, placed := GetFilesDirs(v, receiver, fs, ids, workingDirSet);
    DeliveredIs(setup, v, workingDirSet, stream, receiver.pos, h0, Here(fs.root, fs.cwd), hex, received,
      fs.order(received.Keys), dests, moves, placed, ids, m);
  }

  lemma StreamIsPromising(setup: Setup, v: nat, fs: FileSystem, task: Task, par: bytes, P: Path, top: seq<bytes>,
      h0: Entries)
    requires 2 <= v <= 4 && setup.maxFileSize >= 0 && task.copied.Some? && SharedParent(task.copied.value, par, top)
    requires Transferable(setup, v, task.limits, fs.order, fs.root, fs.cwd, par, P, top)
    requires DirAt(fs.root, P) && HasRoom(v, task.ids, h0, EntriesAt(fs.root, P), top)
    ensures var files := FilesToSend(v, fs.order, fs.root, fs.cwd, task.copied.value);
            var pathLen := PathLength(v, task.copied.value);
            && (forall f | f in files :: pathLen <= |f|)
            && ListAllowed(task.limits, files) && AllSendable(v, task.limits, fs.root, fs.cwd, files, pathLen)
            && var stream := Stream(v, task.limits, fs.order, fs.root, fs.cwd, task.copied.value);
            && Promising(setup, v, task.ids, h0, stream)
            && forall hex: bytes | ProperName(hex) && |hex| <= 8 ::
                 GetSpec(setup, v, hex, stream)
                 == Some(ReceiveFiles.Received(KeptAmong(v >= 3, EntriesAt(fs.root, P), top), |stream|))
  {
    hide CopiedFrom, LeavesUnder, GoodLeaf, KeptAmong, SelectedLeaves, TrimFirst, TopPaths, ParentLength, AllSendable,
      Announced, EncodeTransfer, GetSpec, Hex, Proper, Get, Promising, Roomy, PathsOk, Transferable, HasRoom,
      ListAllowed, ProperName;
    SentIsPromising(setup, task.limits, v, fs.order, fs.root, fs.cwd, par, P, top, task.ids, h0);
    TransferableTrimmed(setup, task.limits, v, fs.order, fs.root, fs.cwd, par, P, top);
  }

  lemma TransferableTrimmed(setup: Setup, limits: Limits, v: nat, order: set<bytes> -> seq<bytes>, root: Node,
      cwd: Path, par: bytes, P: Path, top: seq<bytes>)
    requires Transferable(setup, v, limits, order, root, cwd, par, P, top)
    ensures TrimFirst(TopPaths(par, top)) == TopPaths(par, top)
  {
    hide LeavesUnder, GoodLeaf, TrimFirst, TopPaths, ProperName;
    ProperGet(root, P);
    TopLengths(par, top);
  }

  lemma TransferableDir(setup: Setup, limits: Limits, v: nat, order: set<bytes> -> seq<bytes>, root: Node, cwd: Path,
      par: bytes, P: Path, top: seq<bytes>)
    requires Transferable(setup, v, limits, order, root, cwd, par, P, top)
    ensures DirAt(root, P)
  {
  }

  /** The whole way, with version 2, 3 or 4: what the first client sends of its copied entries, the second one finds in
      its working directory, every top-level entry once with its content and, unless something stands in the way of
      its name, under its own name; nothing that was there is lost or changed, and the temp directory is gone. From
      version 3 on it is exactly what was copied; version 2 drops directories without files. */
  method SendThenGet(v: nat, fs: FileSystem, other: FileSystem, task: Task, setup: Setup, sending: Setup,
      schedule: nat -> Outcome, schedule': nat -> Outcome, par: bytes, P: Path, top: seq<bytes>)
    returns (status: bool, dests: seq<bytes>, ghost moves: map<bytes, bytes>, ghost placed: Entries)
    requires 2 <= v <= 4 && fs.Valid() && other.Valid() && fs != other && fs.Reliable() && other.Reliable()
    requires Delivers(schedule) && Delivers(schedule') && TaskOk(task) && setup.maxFileSize >= 0
    requires task.copied.Some? && SharedParent(task.copied.value, par, top)
    requires Transferable(setup, v, task.limits, fs.order, fs.root, fs.cwd, par, P, top)
    requires HasRoom(v, task.ids, Here(other.root, other.cwd), EntriesAt(fs.root, P), top)
    modifies fs`ops, other
    ensures status && other.Valid() && NothingLost(old(other.root), other.cwd, other.root)
    ensures var received := KeptAmong(v >= 3, EntriesAt(fs.root, P), top);
            Arrived(task.workingDirSet, task.ids, Here(old(other.root), other.cwd), Here(other.root, other.cwd),
                    received, other.order(received.Keys), dests, moves, placed)
  {
    hide KeptAmong, AllSendable, GetSpec, Proper, Get, Promising, Enumerates, Delivers, Arrived, NothingLost,
      SharedParent, Transferable, HasRoom, ListAllowed, ProperName, Stream, FilesToSend, PathLength, PathsOk;
    ghost var h0 := Here(other.root, other.cwd);
    TransferableDir(setup, task.limits, v, fs.order, fs.root, fs.cwd, par, P, top);
    StreamIsPromising(setup, v, fs, task, par, P, top, h0);
    var stream := Send(v, fs, task, sending, schedule);
    status, dests, moves, placed := Receive(v, other, task.ids, task.workingDirSet, setup, schedule', stream,
      KeptAmong(v >= 3, EntriesAt(fs.root, P), top));
  }
}
