/** One whole session of the client: the version range (src/main.c), the version selection (src/proto/selector.c) and
    the request and dispatch of each version (src/proto/versions.c). */
module Selector {
  import opened Bytes
  import opened Wire
  import opened Session
  import SessionLaws
  import opened NetUtils
  import opened Trees
  import opened FileSystems
  import opened Mkdirs
  import opened SaveFiles
  import opened GetFiles
  import opened SendFiles
  import opened Flatten
  import opened TextMethods
  import opened Eol
  import opened ImageMethods

  const PROTOCOL_MIN := 1
  const PROTOCOL_MAX := 4

  type uint16 = n: int | 0 <= n < 65536

  class Configuration {
    var minProtoVersion: uint16
    var maxProtoVersion: uint16

    /** The version range of _apply_default_conf. A bound below the known versions becomes 1 for the minimum, one above
        them 4; the maximum is kept when it is in what the minimum leaves, and becomes 4 otherwise. So without any
        configuration the range is 1 .. 4, and a range of known versions is kept. */
    method ApplyDefaultConf()
      modifies this
      ensures KnownRange(minProtoVersion, maxProtoVersion)
      ensures KnownRange(old(minProtoVersion), old(maxProtoVersion)) ==>
        minProtoVersion == old(minProtoVersion) && maxProtoVersion == old(maxProtoVersion)
      ensures old(minProtoVersion) < 1 ==> minProtoVersion == 1
      ensures old(minProtoVersion) > 4 ==> minProtoVersion == 4
      ensures 1 <= old(minProtoVersion) <= 4 ==> minProtoVersion == old(minProtoVersion)
      ensures minProtoVersion <= old(maxProtoVersion) <= 4 ==> maxProtoVersion == old(maxProtoVersion)
      ensures !(minProtoVersion <= old(maxProtoVersion) <= 4) ==> maxProtoVersion == 4
      ensures old(minProtoVersion) == 0 && old(maxProtoVersion) == 0 ==> minProtoVersion == 1 && maxProtoVersion == 4
    {
      if minProtoVersion < PROTOCOL_MIN {
        minProtoVersion := PROTOCOL_MIN;
      }
      if minProtoVersion > PROTOCOL_MAX {
        minProtoVersion := PROTOCOL_MAX;
      }
      if maxProtoVersion < minProtoVersion || maxProtoVersion > PROTOCOL_MAX {
        maxProtoVersion := PROTOCOL_MAX;
      }
    }
  }

  predicate KnownRange(min: nat, max: nat) {
    PROTOCOL_MIN <= min <= max <= PROTOCOL_MAX
  }

  /** What the methods take from outside the session: candidates for the temp directory, whether a working directory
      is configured, the time, the limits on sent files, and the copied paths, if any. */
  datatype Task = Task(ids: seq<uint32>, workingDirSet: bool, millis: nat, limits: Limits, copied: Option<seq<bytes>>)

  /** The time fits nine digits, and copied paths are short strings that are no shorter than the common parent. */
  predicate TaskOk(task: Task) {
    && task.millis < Power32(9) && task.limits.maxFileSize < TWO_63
    && (task.copied.Some? ==> PathsOk(task.copied.value))
  }

  predicate PathsOk(copied: seq<bytes>) {
    && (forall i | 0 <= i < |copied| :: 0 < |copied[i]| < MAX_PATH_LENGTH && NulFree(copied[i]))
    && (forall p | p in TrimFirst(copied) :: ParentLength(TrimFirst(copied)) <= |p|)
  }

  /** The files a version sends of the copied paths. */
  function FilesToSend(v: nat, order: set<bytes> -> seq<bytes>, root: Node, cwd: Path, copied: seq<bytes>): seq<bytes>
    requires PathsOk(copied)
  {
    if v == 1 then RegularFiles(root, cwd, copied)
    else SelectedLeaves(order, v >= 3, root, cwd, TrimFirst(copied))
  }

  function PathLength(v: nat, copied: seq<bytes>): nat
    requires PathsOk(copied)
  {
    if v == 1 then 0 else ParentLength(TrimFirst(copied))
  }

  lemma AmongLong(files: seq<bytes>, paths: seq<bytes>, pathLen: nat)
    requires Among(files, paths) && forall p | p in paths :: pathLen <= |p|
    ensures forall f | f in files :: pathLen <= |f| < TWO_31
  {
  }

  lemma ShortPaths(copied: seq<bytes>, files: seq<bytes>)
    requires PathsOk(copied) && forall f | f in files :: f in copied
    ensures forall f | f in files :: |f| < TWO_31
  {
  }

  /** The list that send_file_v1 .. send_files_v4 send, with the length of the common parent. */
  method ListToSend(v: nat, fs: FileSystem, copied: seq<bytes>) returns (files: seq<bytes>, pathLen: nat)
    requires fs.Valid() && PathsOk(copied)
    modifies fs`ops
    ensures fs.Valid() && pathLen == PathLength(v, copied)
    ensures forall f | f in files :: pathLen <= |f| < TWO_31
    ensures if v == 1 then forall f | f in files :: f in copied else Among(files, TrimFirst(copied))
    ensures fs.Reliable() || v == 1 ==> files == FilesToSend(v, fs.order, fs.root, fs.cwd, copied)
  {
    hide Among, TrimFirst, ParentLength, RegularFiles, SelectedLeaves, Enumerates;
    if v == 1 {
      pathLen := 0;
      files := GetCopiedFiles(fs, copied);
      ShortPaths(copied, files);
    } else {
      var lst;
      lst, pathLen := GetCopiedDirsFiles(fs, copied, v >= 3);
      files := lst.items;
      AmongLong(files, TrimFirst(copied), pathLen);
    }
  }

  /** This list was sent, whole: it is acceptable, every entry of it can be sent, and each lies at or below a copied
      path. */
  ghost predicate SentList(v: nat, task: Task, root: Node, cwd: Path, files: seq<bytes>, sent: bytes)
    requires TaskOk(task)
  {
    && task.copied.Some?
    && var pathLen := PathLength(v, task.copied.value);
    && (forall f | f in files :: pathLen <= |f|)
    && (if v == 1 then forall f | f in files :: f in task.copied.value
        else Among(files, TrimFirst(task.copied.value)))
    && ListAllowed(task.limits, files) && AllSendable(v, task.limits, root, cwd, FilesSent(v, files), pathLen)
    && sent == EncodeTransfer(v, Announced(v, task.limits, root, cwd, FilesSent(v, files), pathLen))
  }

  lemma ListWasSent(v: nat, task: Task, root: Node, cwd: Path, files: seq<bytes>, before: bytes, now: bytes)
    requires TaskOk(task) && task.copied.Some?
    requires var pathLen := PathLength(v, task.copied.value);
             && (forall f | f in files :: pathLen <= |f|)
             && (if v == 1 then forall f | f in files :: f in task.copied.value
                 else Among(files, TrimFirst(task.copied.value)))
             && ListAllowed(task.limits, files) && AllSendable(v, task.limits, root, cwd, FilesSent(v, files), pathLen)
             && now == before + EncodeTransfer(v, Announced(v, task.limits, root, cwd, FilesSent(v, files), pathLen))
    ensures before <= now && SentList(v, task, root, cwd, files, now[|before|..])
  {
    hide EncodeTransfer, Announced, AllSendable, Among, PathsOk, PathLength;
    Appended(before, EncodeTransfer(v, Announced(v, task.limits, root, cwd, FilesSent(v, files),
                                                 PathLength(v, task.copied.value))));
  }

  lemma SendIsOver(st: State, v: nat, items: seq<Item>, ok: bool, open: bool, now: State)
    requires SendFrom(st, v, items, ok, open, now)
    ensures st == StartSending(v, items) ==> now == Over(v, ok, open)
  {
  }

  /** The session takes the list, when it is acceptable. */
  ghost method NoteListed(v: nat, socket: Socket, fs: FileSystem, limits: Limits, files: seq<bytes>, pathLen: nat)
    requires socket.Valid() && socket.valid && (v == 1 || forall f | f in files :: pathLen <= |f|)
    modifies socket
    ensures socket.Valid() && socket.valid && socket.sent == old(socket.sent) && socket.pos == old(socket.pos)
    ensures old(socket.at) == ListFiles(v) ==>
      socket.at == if ListAllowed(limits, files)
                   then StartSending(v, Announced(v, limits, fs.root, fs.cwd, files, pathLen)) else Failed(v)
  {
    hide Step, Drive, SentIn, ReceivedIn, Announced, StartSending, ListAllowed;
    ghost var items := Announced(v, limits, fs.root, fs.cwd, files, pathLen);
    TakeSteps(socket.setup, v, None, Some(items));
    TakeSteps(socket.setup, v, None, None);
    socket.NoteTaken(Listed(if ListAllowed(limits, files) then Some(items) else None));
  }

  /** send_file_v1 .. send_files_v4. On success the stream has grown by one whole list of entries at or below the
      copied paths. When the system refuses nothing, that is all leaves of the copied paths; if the transport delivers
      too, it succeeds exactly when the list is acceptable and every entry can be sent. */
  method SendCopied(v: nat, socket: Socket, fs: FileSystem, task: Task) returns (ok: bool, ghost files: seq<bytes>)
    requires socket.Valid() && socket.valid && fs.Valid() && TaskOk(task) && v >= 1
    modifies socket, fs`ops
    ensures socket.Valid() && fs.Valid() && (ok <==> !socket.valid)
    ensures task.copied == None ==> !ok
    ensures ok ==>
      old(socket.sent) <= socket.sent
      && SentList(v, task, fs.root, fs.cwd, files, socket.sent[|old(socket.sent)|..])
    ensures task.copied.Some? ==>
      && (forall f | f in files :: PathLength(v, task.copied.value) <= |f|)
      && (fs.Reliable() || v == 1 ==> files == FilesToSend(v, fs.order, fs.root, fs.cwd, task.copied.value))
      && (Delivers(socket.schedule) && fs.Reliable() ==>
           (ok <==>
             && ListAllowed(task.limits, files)
             && AllSendable(v, task.limits, fs.root, fs.cwd, FilesSent(v, files), PathLength(v, task.copied.value))))
    ensures old(socket.at) == ListFiles(v) ==> socket.at == Over(v, ok, socket.valid)
  {
    hide Step, Drive, SentIn, ReceivedIn, Delivers, Proper, Enumerates, FilesToSend, PathLength, AllSendable,
      EncodeTransfer, StartSending, PathsOk, SentList, Among, TrimFirst, Announced, ListAllowed, FilesSent, BrokenOff,
      SendFrom, DirAt, ProperPath;
    files := [];
    TakeSteps(socket.setup, v, None, None);
    if task.copied == None {
      socket.NoteTaken(Listed(None));
      return false, files;
    }
    var listed, pathLen := ListToSend(v, fs, task.copied.value);
    files := listed;
    NoteListed(v, socket, fs, task.limits, listed, pathLen);
    ghost var before, st := socket.sent, socket.at;
    ok := SendFilesCommon(v, socket, fs, listed, pathLen, task.limits);
    if ListAllowed(task.limits, listed) {
      SendIsOver(st, v, Announced(v, task.limits, fs.root, fs.cwd, listed, pathLen), ok, socket.valid, socket.at);
    }
    if ok {
      ListWasSent(v, task, fs.root, fs.cwd, files, before, socket.sent);
    }
  }

  // The exchanges before the method.

  lemma RequestSteps(setup: Setup, v: nat, ev: Event, ev': Event)
    requires Fits(WantWrite([setup.request]), ev) && Fits(WantRead(1), ev')
    ensures ev.WriteCut? ==> Step(setup, Request(v), ev) == Failed(v)
    ensures ev.Wrote? ==>
      Step(setup, Step(setup, Request(v), ev), ev')
      == if ev'.Got? && ev'.data[0] == STATUS_OK then Dispatch(setup, v) else Failed(v)
  {
  }

  /** method_request */
  method MethodRequest(v: nat, socket: Socket) returns (ok: bool)
    requires socket.Valid() && socket.valid
    modifies socket
    ensures socket.Valid() && socket.valid
    ensures ok ==>
      && socket.sent == old(socket.sent) + [socket.setup.request] && socket.pos == old(socket.pos) + 1
      && old(socket.pos) < |socket.inbound| && socket.inbound[old(socket.pos)] == STATUS_OK
    ensures Delivers(socket.schedule) ==>
      (ok <==> old(socket.pos) < |socket.inbound| && socket.inbound[old(socket.pos)] == STATUS_OK)
    ensures old(socket.at) == Request(v) ==> socket.at == if ok then Dispatch(socket.setup, v) else Failed(v)
  {
    hide Step, Drive, SentIn, ReceivedIn, Delivers, Dispatch;
    ghost var st := socket.at;
    ok := WriteByte(socket, socket.setup.request);
    RequestSteps(socket.setup, v, ByteOut(ok, socket.setup.request), ReadCut([]));
    if !ok {
      return;
    }
    var status;
    ok, status := ReadByte(socket);
    RequestSteps(socket.setup, v, ByteOut(true, socket.setup.request), ByteIn(ok, status));
    ok := ok && status == STATUS_OK;
  }

  function ByteOut(ok: bool, b: byte): Event {
    if ok then Wrote([b]) else WriteCut([])
  }

  function ByteIn(ok: bool, b: byte): Event {
    if ok then Got([b]) else ReadCut([])
  }

  method WriteByte(socket: Socket, b: byte) returns (ok: bool)
    requires socket.Valid() && socket.valid
    modifies socket
    ensures socket.Valid() && socket.valid && socket.pos == old(socket.pos)
    ensures socket.sent == old(socket.sent) + if ok then [b] else []
    ensures socket.at == Step(socket.setup, old(socket.at), ByteOut(ok, b))
    ensures Delivers(socket.schedule) ==> ok
  {
    hide Step, Drive, SentIn, ReceivedIn, Delivers;
    var data: bytes := [b];
    ok := socket.WriteSock(data);
    if !ok {
      ghost var n :| 0 <= n < |data| && socket.sent == old(socket.sent) + data[..n]
        && socket.at == Step(socket.setup, old(socket.at), WriteCut(data[..n]));
      assert data[..n] == [];
    }
  }

  method ReadByte(socket: Socket) returns (ok: bool, b: byte)
    requires socket.Valid() && socket.valid
    modifies socket
    ensures socket.Valid() && socket.valid && socket.sent == old(socket.sent)
    ensures socket.pos == old(socket.pos) + if ok then 1 else 0
    ensures ok ==> b == socket.inbound[old(socket.pos)]
    ensures socket.at == Step(socket.setup, old(socket.at), ByteIn(ok, b))
    ensures Delivers(socket.schedule) ==> (ok <==> old(socket.pos) < |socket.inbound|)
  {
    hide Step, Drive, SentIn, ReceivedIn, Delivers;
    var buf := new byte[1];
    b := 0;
    ok := socket.ReadSock(buf, 1);
    if ok {
      b := buf[0];
      assert buf[..1] == socket.inbound[old(socket.pos)..socket.pos] == [b];
    } else {
      assert socket.inbound[old(socket.pos)..socket.pos] == [];
    }
  }

  lemma OfferSteps(setup: Setup, ev: Event, ev': Event)
    requires Fits(WantRead(1), ev)
    ensures ev.ReadCut? ==> Step(setup, AwaitOffer, ev) == Failed(0)
    ensures ev.Got? ==>
      var v, now := ev.data[0], Step(setup, AwaitOffer, ev);
      && (v < setup.minVersion || v > setup.maxVersion ==>
           (Fits(WantWrite([0]), ev') ==> Step(setup, now, ev') == Failed(0)))
      && (setup.minVersion <= v <= setup.maxVersion && Fits(WantWrite([v]), ev') ==>
           Step(setup, now, ev') == if ev'.Wrote? then Enter(setup, v) else Failed(0))
  {
  }

  /** negotiate_unknown_proto: an offer outside the configured range is refused with a zero byte. */
  method NegotiateUnknownProto(socket: Socket) returns (version: Option<byte>)
    requires socket.Valid() && socket.valid
    modifies socket
    ensures socket.Valid() && socket.valid
    ensures version.Some? ==>
      && socket.setup.minVersion <= version.value <= socket.setup.maxVersion
      && socket.pos == old(socket.pos) + 1 && version.value == socket.inbound[old(socket.pos)]
      && socket.sent == old(socket.sent) + [version.value]
    ensures version == None && Delivers(socket.schedule) && old(socket.pos) < |socket.inbound| ==>
      && !(socket.setup.minVersion <= socket.inbound[old(socket.pos)] <= socket.setup.maxVersion)
      && socket.sent == old(socket.sent) + [0]
    ensures old(socket.at) == AwaitOffer ==>
      socket.at == if version.Some? then Enter(socket.setup, version.value) else Failed(0)
  {
    hide Step, Drive, SentIn, ReceivedIn, Delivers, Enter;
    var ok, offer := ReadByte(socket);
    OfferSteps(socket.setup, ByteIn(ok, offer), ByteOut(false, offer));
    if !ok {
      return None;
    }
    if offer < socket.setup.minVersion || offer > socket.setup.maxVersion {
      var refused := WriteByte(socket, 0);
      OfferSteps(socket.setup, ByteIn(true, offer), ByteOut(refused, 0));
      return None;
    }
    ok := WriteByte(socket, offer);
    OfferSteps(socket.setup, ByteIn(true, offer), ByteOut(ok, offer));
    version := if ok then Some(offer) else None;
  }

  lemma HelloSteps(setup: Setup, ev: Event, ev': Event)
    requires Fits(WantWrite([setup.maxVersion % 256]), ev) && Fits(WantRead(1), ev')
    ensures ev.WriteCut? ==> Step(setup, Hello, ev) == Failed(0)
    ensures ev.Wrote? ==>
      var now := Step(setup, Step(setup, Hello, ev), ev');
      && (ev'.ReadCut? ==> now == Failed(0))
      && (ev'.Got? ==>
            now == if ev'.data[0] == PROTOCOL_SUPPORTED then Enter(setup, setup.maxVersion % 256)
                   else if ev'.data[0] == PROTOCOL_UNKNOWN then AwaitOffer
                   else Failed(0))
  {
  }

  /** What the client writes to agree on a version: its highest one, and the server's offer when that is accepted. */
  function Greeting(setup: Setup, v: byte, answer: byte): bytes {
    [setup.maxVersion % 256] + if answer == PROTOCOL_SUPPORTED then [] else [v]
  }

  /** The first part of handle_proto: the version in use, when both sides agree on one. */
  method SelectVersion(socket: Socket) returns (version: Option<byte>)
    requires socket.Valid() && socket.valid && socket.at == Hello
    modifies socket
    ensures socket.Valid() && socket.valid
    ensures version.Some? ==>
      && old(socket.pos) < |socket.inbound|
      && socket.sent == old(socket.sent)
           + Greeting(socket.setup, version.value, socket.inbound[old(socket.pos)])
      && socket.pos == old(socket.pos) + |Greeting(socket.setup, version.value, socket.inbound[old(socket.pos)])|
      && if socket.inbound[old(socket.pos)] == PROTOCOL_SUPPORTED then version.value == socket.setup.maxVersion % 256
         else socket.setup.minVersion <= version.value <= socket.setup.maxVersion
    ensures socket.at == if version.Some? then Enter(socket.setup, version.value) else Failed(0)
  {
    hide Step, Drive, SentIn, ReceivedIn, Delivers, Enter;
    var ok := WriteByte(socket, socket.setup.maxVersion % 256);
    ghost var ev := ByteOut(ok, socket.setup.maxVersion % 256);
    HelloSteps(socket.setup, ev, ReadCut([]));
    if !ok {
      return None;
    }
    var status;
    ok, status := ReadByte(socket);
    HelloSteps(socket.setup, ev, ByteIn(ok, status));
    if !ok {
      return None;
    }
    if status == PROTOCOL_SUPPORTED {
      return Some(socket.setup.maxVersion % 256);
    } else if status == PROTOCOL_UNKNOWN {
      version := NegotiateUnknownProto(socket);
    } else {
      return None;
    }
  }

  lemma EnterSteps(setup: Setup, v: nat)
    ensures Enter(setup, v) == if KnownRange(v, v) && KnownMethod(v, setup.request) then Request(v) else Failed(v)
    ensures KnownRange(v, v) ==>
      (KnownMethod(v, setup.request) <==>
        || setup.request in {METHOD_GET_TEXT, METHOD_SEND_TEXT, METHOD_GET_FILE, METHOD_SEND_FILE, METHOD_GET_IMAGE,
                             METHOD_INFO}
        || (v >= 3 && setup.request in {METHOD_GET_COPIED_IMAGE, METHOD_GET_SCREENSHOT}))
  {
  }

  /** Where the session stands when the request was granted. */
  lemma DispatchSteps(setup: Setup, v: nat)
    ensures setup.request == METHOD_GET_TEXT ==> Dispatch(setup, v) == TextSize(v)
    ensures setup.request == METHOD_SEND_TEXT ==> Dispatch(setup, v) == TakeText(v)
    ensures setup.request == METHOD_GET_FILE ==> Dispatch(setup, v) == Count(v)
    ensures setup.request == METHOD_SEND_FILE ==> Dispatch(setup, v) == ListFiles(v)
    ensures setup.request == METHOD_GET_IMAGE || setup.request == METHOD_GET_COPIED_IMAGE ==>
      Dispatch(setup, v) == FileSize(v, 0)
    ensures setup.request == METHOD_GET_SCREENSHOT ==> Dispatch(setup, v) == DisplayOut(v)
    ensures setup.request == METHOD_INFO ==> Dispatch(setup, v) == InfoSize(v)
  {
  }

  /** What a session may do to the files: Get Files loses nothing, an image request changes one image file, and the
      others change nothing. */
  ghost predicate Harmless(request: byte, millis: nat, was: Node, cwd: Path, now: Node)
    requires DirAt(was, cwd) && millis < Power32(9)
  {
    if request == METHOD_GET_FILE then NothingLost(was, cwd, now)
    else if request in {METHOD_GET_IMAGE, METHOD_GET_COPIED_IMAGE, METHOD_GET_SCREENSHOT} then
      now == was || ChangedAt(was, now, cwd + [ImageName(millis)])
    else now == was
  }

  /** The clipboard's text in its buffer, if there is one. */
  ghost function ClipText(clip: array?<byte>, length: nat): Option<bytes>
    requires clip != null ==> length <= clip.Length
    reads clip
  {
    if clip == null then None else Some(clip[..length])
  }

  /** What a granted request brings: a text for the clipboard, the name of an image, the paths of received entries. */
  datatype Gain = Nothing | Text(pending: bytes) | Image(name: bytes) | Files(dests: seq<bytes>)

  /** The stream begins with a text, and its pasted form is ready for the clipboard. */
  ghost predicate GotText(setup: Setup, stream: bytes, gain: Gain) {
    && ParseText(setup, stream).Some? && ToLf(CStr(ParseText(setup, stream).value)) != []
    && gain == Text(ToLf(CStr(ParseText(setup, stream).value)))
  }

  /** The stream begins with a text of which nothing is left for the clipboard. */
  ghost predicate GotEmptyText(setup: Setup, stream: bytes) {
    ParseText(setup, stream).Some? && ToLf(CStr(ParseText(setup, stream).value)) == []
  }

  /** How a run ends for the result ok: as the automaton ends, but that a text which was accepted on the socket is a
      failure when nothing is left of it for the clipboard. */
  predicate Ends(setup: Setup, ok: bool, open: bool, at: State) {
    && at.Over? && at.open == open && (ok ==> at.ok)
    && (at.ok && !ok ==> setup.request == METHOD_GET_TEXT)
  }

  /** What was sent is the outgoing form of the clipboard text. */
  ghost predicate SentText(setup: Setup, clip: Option<bytes>, sent: bytes) {
    && clip.Some? && 1 <= |clip.value| <= setup.maxText
    && var t := ToLf(CStr(clip.value));
    && t != [] && sent == EncodeSize(|t|) + t
  }

  /** The stream is one whole transfer, and the working directory gained what it announced. */
  ghost predicate GotFiles(setup: Setup, v: nat, task: Task, order: set<bytes> -> seq<bytes>, stream: bytes,
      h0: Entries, h: Entries, dests: seq<bytes>)
  {
    && Unused(task.ids, h0).Some?
    && exists used: nat, received: Entries, moves: map<bytes, bytes>, placed: Entries ::
         Delivered(setup, v, task.workingDirSet, stream, used, h0, h, Unused(task.ids, h0).value, received,
                   order(received.Keys), dests, moves, placed)
  }

  /** The stream begins with an image, and the file of that name holds it. */
  ghost predicate GotImage(setup: Setup, v: nat, millis: nat, stream: bytes, cwd: Path, now: Node, gain: Gain)
    requires millis < Power32(9)
  {
    && gain == Image(ImageName(millis)) && ParseImage(setup, v, stream).Some?
    && Get(now, cwd + [ImageName(millis)]) == Some(File(ParseImage(setup, v, stream).value))
  }

  /** One list was sent, whole; it is that of all leaves of the copied paths unless the system refused something. */
  ghost predicate SentCopied(v: nat, task: Task, fs: FileSystem, root: Node, sent: bytes)
    requires TaskOk(task)
  {
    exists files ::
      && SentList(v, task, root, fs.cwd, files, sent)
      && (fs.Reliable() || v == 1 ==> files == FilesToSend(v, fs.order, root, fs.cwd, task.copied.value))
  }

  /** What success means for each request: stream is what the server sent from the grant on, and sent what the client
      did. */
  ghost predicate Fulfilled(setup: Setup, v: nat, task: Task, fs: FileSystem, clip: Option<bytes>, stream: bytes,
      sent: bytes, was: Node, now: Node, gain: Gain)
    requires TaskOk(task) && DirAt(was, fs.cwd) && DirAt(now, fs.cwd)
  {
    var request := setup.request;
    if request == METHOD_GET_TEXT then GotText(setup, stream, gain)
    else if request == METHOD_SEND_TEXT then SentText(setup, clip, sent)
    else if request == METHOD_GET_FILE then
      gain.Files? && GotFiles(setup, v, task, fs.order, stream, Here(was, fs.cwd), Here(now, fs.cwd), gain.dests)
    else if request == METHOD_SEND_FILE then
      SentCopied(v, task, fs, was, sent)
    else if request == METHOD_GET_SCREENSHOT then
      stream != [] && stream[0] == STATUS_OK && GotImage(setup, v, task.millis, stream[1..], fs.cwd, now, gain)
    else if request in {METHOD_GET_IMAGE, METHOD_GET_COPIED_IMAGE} then
      GotImage(setup, v, task.millis, stream, fs.cwd, now, gain)
    else ParseInfo(setup, v, stream).Some?
  }

  /** What the client writes before the method, reading as many bytes: its highest version, the offer when that was not
      supported but another known to the server is, and the request. */
  function Opening(setup: Setup, v: byte, answer: byte): bytes {
    Greeting(setup, v, answer) + [setup.request]
  }

  /** What a successful session means: after the opening the request is fulfilled, in the version both ends use. */
  ghost predicate Succeeded(setup: Setup, v: nat, task: Task, fs: FileSystem, clip: Option<bytes>, stream: bytes,
      sent: bytes, was: Node, now: Node, gain: Gain)
    requires TaskOk(task) && DirAt(was, fs.cwd) && DirAt(now, fs.cwd)
  {
    && KnownRange(v, v) && stream != []
    && (stream[0] == PROTOCOL_SUPPORTED ==> v == setup.maxVersion % 256)
    && (stream[0] != PROTOCOL_SUPPORTED ==> setup.minVersion <= v <= setup.maxVersion)
    && var n := |Opening(setup, v, stream[0])|;
    && n <= |stream| && stream[n - 1] == STATUS_OK && Opening(setup, v, stream[0]) <= sent
    && Fulfilled(setup, v, task, fs, clip, stream[n..], sent[n..], was, now, gain)
  }

  lemma Unharmed(request: byte, millis: nat, was: Node, cwd: Path)
    requires DirAt(was, cwd) && millis < Power32(9)
    ensures Harmless(request, millis, was, cwd, was)
  {
    NothingLostYet(was, cwd);
  }

  lemma Appended(before: bytes, more: bytes)
    ensures before <= before + more && (before + more)[|before|..] == more
  {
  }

  // The methods, seen from the dispatch.

  method GetTextOver(v: nat, socket: Socket) returns (ok: bool, gain: Gain)
    requires socket.Valid() && socket.valid
    modifies socket
    ensures socket.Valid()
    ensures ok ==> old(socket.pos) <= |socket.inbound| && old(socket.sent) <= socket.sent
    ensures ok ==> GotText(socket.setup, socket.inbound[old(socket.pos)..], gain)
    ensures old(socket.at) == TextSize(v) ==>
      && socket.at.Over? && socket.at.v == v && socket.at.open == socket.valid && (ok ==> socket.at.ok)
      && (socket.at.ok && !ok ==> GotEmptyText(socket.setup, socket.inbound[old(socket.pos)..]))
  {
    hide Step, Drive, SentIn, ReceivedIn, Delivers, ParseBlock, ToLf, CStr;
    var accepted, pending := GetTextCommon(v, socket);
    ok := pending.Some?;
    gain := if ok then Text(pending.value) else Nothing;
  }

  method SendTextOver(v: nat, socket: Socket, clip: array?<byte>, length: nat) returns (ok: bool)
    requires socket.Valid() && socket.valid
    requires clip != null ==> length < clip.Length < TWO_63 && clip[length] == NUL
    modifies socket, clip
    ensures socket.Valid()
    ensures ok ==> old(socket.pos) <= |socket.inbound| && old(socket.sent) <= socket.sent
    ensures ok ==> SentText(socket.setup, old(ClipText(clip, length)), socket.sent[|old(socket.sent)|..])
    ensures old(socket.at) == TakeText(v) ==> socket.at == Over(v, ok, socket.valid)
  {
    hide Step, Drive, SentIn, ReceivedIn, Delivers, EncodeSize, ToLf, CStr;
    ghost var text, before := ClipText(clip, length), socket.sent;
    ok := SendTextCommon(v, socket, clip, length);
    if ok {
      ghost var t := ToLf(CStr(text.value));
      Appended(before, EncodeSize(|t|) + t);
    }
  }

  method SendFilesOver(v: nat, socket: Socket, fs: FileSystem, task: Task) returns (ok: bool)
    requires socket.Valid() && socket.valid && fs.Valid() && TaskOk(task) && v >= 1
    modifies socket, fs`ops
    ensures socket.Valid() && fs.Valid()
    ensures ok ==> old(socket.pos) <= |socket.inbound| && old(socket.sent) <= socket.sent
    ensures ok ==> SentCopied(v, task, fs, fs.root, socket.sent[|old(socket.sent)|..])
    ensures old(socket.at) == ListFiles(v) ==> socket.at == Over(v, ok, socket.valid)
  {
    hide Step, Drive, SentIn, ReceivedIn, Delivers, Proper, Enumerates, FilesToSend, PathLength, AllSendable, PathsOk;
    ghost var files;
    ok, files := SendCopied(v, socket, fs, task);
  }

  /** The image from the clipboard, or of the screen with its display asked for first. */
  method GetImageOver(v: nat, socket: Socket, fs: FileSystem, task: Task, screenshot: bool)
    returns (ok: bool, gain: Gain)
    requires socket.Valid() && socket.valid && fs.Valid() && TaskOk(task) && socket.setup.display < TWO_31
    modifies socket, fs
    ensures socket.Valid() && fs.Valid()
    ensures fs.root == old(fs.root) || ChangedAt(old(fs.root), fs.root, fs.cwd + [ImageName(task.millis)])
    ensures ok ==>
      && old(socket.pos) <= |socket.inbound| && old(socket.sent) <= socket.sent
      && var stream := socket.inbound[old(socket.pos)..];
      && (screenshot ==> stream != [] && stream[0] == STATUS_OK)
      && GotImage(socket.setup, v, task.millis, if screenshot then stream[1..] else stream, fs.cwd, fs.root, gain)
    ensures old(socket.at) == (if screenshot then DisplayOut(v) else FileSize(v, 0)) ==>
      socket.at == Over(v, ok, socket.valid)
  {
    hide Step, Drive, SentIn, ReceivedIn, Delivers, Enumerates, Proper, Get, ChangedAt, Cleared, Base32, Power32,
      ParsePayload, EncodeSize, PathsOk;
    var name;
    if screenshot {
      assert socket.pos < |socket.inbound| ==> socket.inbound[socket.pos..][1..] == socket.inbound[socket.pos + 1..];
      ok, name := GetScreenshotCommon(v, socket, fs, task.millis);
    } else {
      ok, name := SaveImageCommon(v, socket, fs, task.millis);
    }
    gain := Image(name);
  }

  method GetFilesOver(v: nat, socket: Socket, fs: FileSystem, task: Task) returns (ok: bool, dests: seq<bytes>)
    requires socket.Valid() && socket.valid && fs.Valid() && v >= 1
    modifies socket, fs
    ensures socket.Valid() && fs.Valid() && NothingLost(old(fs.root), fs.cwd, fs.root)
    ensures ok ==>
      && old(socket.pos) <= |socket.inbound| && old(socket.sent) <= socket.sent
      && GotFiles(socket.setup, v, task, fs.order, socket.inbound[old(socket.pos)..], Here(old(fs.root), fs.cwd),
                  Here(fs.root, fs.cwd), dests)
    ensures old(socket.at) == Count(v) ==> socket.at == Over(v, ok, socket.valid)
  {
    hide Step, Drive, SentIn, ReceivedIn, Delivers, Enumerates, Proper, Get, CanPut, NothingLost, Put, Delivered,
      Promising, Unused;
    ghost var hex, received, moves, placed;
    ghost var used, start := 0, socket.pos;
    ok, dests, hex, received, moves, placed := GetFilesDirs(v, socket, fs, task.ids, task.workingDirSet);
    if ok {
      used := socket.pos - start;
    }
  }

  /** The second switch of version_1 .. version_4, after a granted request. On success the request is fulfilled. */
  method RunMethod(v: nat, socket: Socket, fs: FileSystem, task: Task, clip: array?<byte>, length: nat)
    returns (ok: bool, gain: Gain)
    requires socket.Valid() && socket.valid && fs.Valid() && TaskOk(task) && 1 <= v <= 4
    requires clip != null ==> length < clip.Length < TWO_63 && clip[length] == NUL
    requires socket.setup.display < TWO_31 && KnownMethod(v, socket.setup.request)
    modifies socket, fs, clip
    ensures socket.Valid() && fs.Valid()
    ensures Harmless(socket.setup.request, task.millis, old(fs.root), fs.cwd, fs.root)
    ensures ok ==>
      && old(socket.pos) <= |socket.inbound| && old(socket.sent) <= socket.sent
      && Fulfilled(socket.setup, v, task, fs, old(ClipText(clip, length)),
                   socket.inbound[old(socket.pos)..], socket.sent[|old(socket.sent)|..], old(fs.root), fs.root, gain)
    ensures old(socket.at) == Dispatch(socket.setup, v) ==>
      && Ends(socket.setup, ok, socket.valid, socket.at) && socket.at.v == v
      && (socket.at.ok && !ok ==> GotEmptyText(socket.setup, socket.inbound[old(socket.pos)..]))
  {
    hide Step, Drive, SentIn, ReceivedIn, Delivers, Dispatch, Enumerates, Proper, Get, CanPut, NothingLost, ChangedAt,
      Put, Base32, Power32, PathsOk, GotText, GotEmptyText, SentText, GotFiles, GotImage, SentCopied, ParseText,
      InfoMatches;
    var setup := socket.setup;
    DispatchSteps(setup, v);
    Unharmed(setup.request, task.millis, fs.root, fs.cwd);
    ok, gain := false, Nothing;
    if setup.request == METHOD_GET_TEXT {
      ok, gain := GetTextOver(v, socket);
    } else if setup.request == METHOD_SEND_TEXT {
      ok := SendTextOver(v, socket, clip, length);
    } else if setup.request == METHOD_GET_FILE {
      var dests;
      ok, dests := GetFilesOver(v, socket, fs, task);
      gain := Files(dests);
    } else if setup.request == METHOD_SEND_FILE {
      ok := SendFilesOver(v, socket, fs, task);
    } else if setup.request in {METHOD_GET_IMAGE, METHOD_GET_COPIED_IMAGE, METHOD_GET_SCREENSHOT} {
      ok, gain := GetImageOver(v, socket, fs, task, setup.request == METHOD_GET_SCREENSHOT);
    } else if v < 4 {
      ok := InfoV1(v, socket);
    } else {
      ok := InfoV4(v, socket);
    }
  }

  /** proto_handler with the first switch of version_1 .. version_4; mismatch when the version is none of them. */
  method ProtoHandler(v: nat, socket: Socket, fs: FileSystem, task: Task, clip: array?<byte>, length: nat)
    returns (ok: bool, mismatch: bool, gain: Gain)
    requires socket.Valid() && socket.valid && fs.Valid() && TaskOk(task)
    requires clip != null ==> length < clip.Length < TWO_63 && clip[length] == NUL
    requires socket.setup.display < TWO_31 && socket.at == Enter(socket.setup, v)
    modifies socket, fs, clip
    ensures socket.Valid() && fs.Valid() && (mismatch <==> !KnownRange(v, v)) && (ok ==> !mismatch)
    ensures Harmless(socket.setup.request, task.millis, old(fs.root), fs.cwd, fs.root)
    ensures ok ==>
      && old(socket.pos) < |socket.inbound| && socket.inbound[old(socket.pos)] == STATUS_OK
      && old(socket.sent) + [socket.setup.request] <= socket.sent
      && Fulfilled(socket.setup, v, task, fs, old(ClipText(clip, length)),
                   socket.inbound[old(socket.pos) + 1..], socket.sent[|old(socket.sent)| + 1..],
                   old(fs.root), fs.root, gain)
    ensures
      !(1 <= v <= 4 && (socket.setup.request in {1, 2, 3, 4, 5, 125} || (v >= 3 && socket.setup.request in {6, 7})))
      ==> !ok && socket.sent == old(socket.sent) && socket.pos == old(socket.pos) && fs.root == old(fs.root)
    ensures Ends(socket.setup, ok, socket.valid, socket.at)
  {
    hide Step, Drive, SentIn, ReceivedIn, Delivers, Dispatch, Enumerates, Proper, Get, CanPut, NothingLost, ChangedAt,
      Put, Base32, Power32, PathsOk, KnownMethod, Harmless, Enter, Fulfilled;
    EnterSteps(socket.setup, v);
    Unharmed(socket.setup.request, task.millis, fs.root, fs.cwd);
    ok, mismatch, gain := false, !(1 <= v <= 4), Nothing;
    if mismatch || !KnownMethod(v, socket.setup.request) {
      return;
    }
    ok := MethodRequest(v, socket);
    if !ok {
      return;
    }
    ok, gain := RunMethod(v, socket, fs, task, clip, length);
  }

  /** The opening on both streams. */
  lemma OpeningDone(setup: Setup, v: byte, inbound: bytes, start: nat, before: bytes, sent: bytes)
    requires start < |inbound|
    requires var greeting := Greeting(setup, v, inbound[start]);
             && start + |greeting| < |inbound| && before + greeting + [setup.request] <= sent
    ensures var n := |Opening(setup, v, inbound[start])|;
            && n == |Greeting(setup, v, inbound[start])| + 1 && start + n <= |inbound|
            && inbound[start..][0] == inbound[start] && inbound[start..][n - 1] == inbound[start + n - 1]
            && before <= sent && Opening(setup, v, inbound[start]) <= sent[|before|..]
            && inbound[start..][n..] == inbound[start + n..]
            && sent[|before|..][n..] == sent[|before + Greeting(setup, v, inbound[start])| + 1..]
  {
    var opening := Opening(setup, v, inbound[start]);
    assert before + opening == before + Greeting(setup, v, inbound[start]) + [setup.request];
    assert sent == before + opening + sent[|before| + |opening|..];
  }

  /** handle_proto. Whatever the peer and the transport do, the run follows the session automaton to its end; with a
      version range that the defaults can leave, the branch for an invalid version is not taken. On success the request
      is fulfilled. */
  method HandleProto(socket: Socket, fs: FileSystem, task: Task, clip: array?<byte>, length: nat)
    returns (ok: bool, mismatch: bool, gain: Gain, ghost v: nat)
    requires socket.Valid() && socket.valid && socket.at == Hello && fs.Valid() && TaskOk(task)
    requires clip != null ==> length < clip.Length < TWO_63 && clip[length] == NUL
    requires socket.setup.display < TWO_31
    modifies socket, fs, clip
    ensures socket.Valid() && fs.Valid()
    ensures Harmless(socket.setup.request, task.millis, old(fs.root), fs.cwd, fs.root)
    ensures ok ==>
      && old(socket.pos) <= |socket.inbound| && old(socket.sent) <= socket.sent
      && Succeeded(socket.setup, v, task, fs, old(ClipText(clip, length)),
                   socket.inbound[old(socket.pos)..], socket.sent[|old(socket.sent)|..], old(fs.root), fs.root, gain)
    ensures Ends(socket.setup, ok, socket.valid, socket.at)
    ensures KnownRange(socket.setup.minVersion, socket.setup.maxVersion) ==> !mismatch
  {
    hide Step, Drive, SentIn, ReceivedIn, Delivers, Dispatch, Enumerates, Proper, Get, CanPut, NothingLost, ChangedAt,
      Put, Base32, Power32, PathsOk, KnownMethod, Harmless, Enter, Fulfilled;
    Unharmed(socket.setup.request, task.millis, fs.root, fs.cwd);
    ghost var start, before := socket.pos, socket.sent;
    ok, mismatch, gain, v := false, false, Nothing, 0;
    var version := SelectVersion(socket);
    if version == None {
      return;
    }
    v := version.value;
    ok, mismatch, gain := ProtoHandler(version.value, socket, fs, task, clip, length);
    if ok {
      OpeningDone(socket.setup, v, socket.inbound, start, before, socket.sent);
    }
  }

  /** A whole run with the caller's final close: the socket has been closed exactly once, nothing was read or written
      after that, and the log is a complete run of the session automaton. On success the request is fulfilled. */
  method RunSession(socket: Socket, fs: FileSystem, task: Task, clip: array?<byte>, length: nat)
    returns (ok: bool, gain: Gain, ghost v: nat)
    requires socket.Valid() && socket.valid && socket.at == Hello && fs.Valid() && TaskOk(task)
    requires clip != null ==> length < clip.Length < TWO_63 && clip[length] == NUL
    requires socket.setup.display < TWO_31
    modifies socket, fs, clip
    ensures socket.Valid() && fs.Valid() && !socket.valid && socket.closes == 1
    ensures Harmless(socket.setup.request, task.millis, old(fs.root), fs.cwd, fs.root)
    ensures ok ==>
      && old(socket.pos) <= |socket.inbound| && old(socket.sent) <= socket.sent
      && Succeeded(socket.setup, v, task, fs, old(ClipText(clip, length)),
                   socket.inbound[old(socket.pos)..], socket.sent[|old(socket.sent)|..], old(fs.root), fs.root, gain)
    ensures socket.at == Drive(socket.setup, socket.log)
    ensures Ends(socket.setup, ok, false, socket.at)
    ensures exists i | 0 <= i < |socket.log| :: socket.log[i].Closed?
    ensures forall i, j | 0 <= i < j < |socket.log| && socket.log[i].Closed? :: socket.log[j].Local?
  {
    hide Step, Drive, SentIn, ReceivedIn, Delivers, Enumerates, Proper, Get, CanPut, NothingLost, ChangedAt, Put,
      Base32, Power32, PathsOk, Harmless, Succeeded;
    var mismatch;
    ghost var text := ClipText(clip, length);
    ghost var was, start, before := fs.root, socket.pos, socket.sent;
    ok, mismatch, gain, v := HandleProto(socket, fs, task, clip, length);
    CloseStep(socket.setup, socket.at.v, socket.at.ok);
    socket.CloseSocket();
    assert ok ==>
      Succeeded(socket.setup, v, task, fs, text, socket.inbound[start..], socket.sent[|before|..], was, fs.root, gain);
    SessionLaws.Typestate(socket.setup, socket.log);
  }
}
