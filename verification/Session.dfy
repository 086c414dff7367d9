/** The client side of one session as a state machine over socket operations and local decisions:
    src/proto/selector.c, src/proto/versions.c and the exchange orders of src/proto/methods.c.
    The methods that do the work are proved to follow it; what holds of every run is proved in SessionLaws. */
module Session {
  import opened Bytes
  import opened Wire

  const METHOD_GET_TEXT: byte := 1
  const METHOD_SEND_TEXT: byte := 2
  const METHOD_GET_FILE: byte := 3
  const METHOD_SEND_FILE: byte := 4
  const METHOD_GET_IMAGE: byte := 5
  const METHOD_GET_COPIED_IMAGE: byte := 6
  const METHOD_GET_SCREENSHOT: byte := 7
  const METHOD_INFO: byte := 125

  const PROTOCOL_SUPPORTED: byte := 1
  const PROTOCOL_OBSOLETE: byte := 2
  const PROTOCOL_UNKNOWN: byte := 3

  const STATUS_OK: byte := 1
  const STATUS_NO_DATA: byte := 2
  const STATUS_UNKNOWN_METHOD: byte := 3
  const STATUS_METHOD_NOT_IMPLEMENTED: byte := 4

  const ACK: bytes := [1]
  const MAX_FILE_NAME_LENGTH := 2048
  const FILE_BUF_SZ := 65536

  /** The numbers of the protocol: methods, answers to a version, answers to a request, and the acknowledgement. */
  lemma WireNumbers()
    ensures METHOD_GET_TEXT == 1 && METHOD_SEND_TEXT == 2 && METHOD_GET_FILE == 3 && METHOD_SEND_FILE == 4
    ensures METHOD_GET_IMAGE == 5 && METHOD_GET_COPIED_IMAGE == 6 && METHOD_GET_SCREENSHOT == 7 && METHOD_INFO == 125
    ensures PROTOCOL_SUPPORTED == 1 && PROTOCOL_OBSOLETE == 2 && PROTOCOL_UNKNOWN == 3
    ensures STATUS_OK == 1 && ACK == [1]
  {
  }

  /** "clip_share" */
  const INFO_NAME: bytes := [99, 108, 105, 112, 95, 115, 104, 97, 114, 101]

  /** One entry of a file transfer: a regular file with its bytes, or a directory. */
  datatype Item = FileItem(name: bytes, data: bytes) | DirItem(name: bytes)

  /** The lengths of an entry fit signed 64-bit sizes. */
  predicate Sized(item: Item) {
    |item.name| < TWO_63 && (item.FileItem? ==> |item.data| < TWO_63)
  }

  /** What a session is about: the configuration and the request. */
  datatype Setup = Setup(
    minVersion: nat,
    maxVersion: nat,
    request: byte,
    display: nat,
    maxText: int,
    maxFileSize: int,
    maxFileCount: int,
    utf8: bytes -> bool)

  datatype Event =
    | Wrote(data: bytes)
    | WriteCut(part: bytes)
    | Got(data: bytes)
    | ReadCut(part: bytes)
    | Local(ok: bool)
    | Copied(text: Option<bytes>)  // the clipboard text taken for sending, if any
    | Listed(items: Option<seq<Item>>)  // the entries found for sending, if any
    | Closed

  datatype Want =
    | WantWrite(data: bytes)
    | WantRead(n: nat)
    | WantLocal
    | WantText
    | WantList
    | WantClose
    | WantNothing

  /** Where the client stands; v is the protocol version in use. In the states that save a file, left is the number
      of files still to come, this one included, and 0 when an image is saved. */
  datatype State =
    | Hello
    | AwaitStatus
    | AwaitOffer
    | Refusing
    | Accepting(v: nat)
    | Request(v: nat)
    | AwaitMethodStatus(v: nat)
    | TextSize(v: nat)
    | TextBody(v: nat, n: nat)
    | InfoSize(v: nat)
    | InfoBody(v: nat, n: nat)
    | InfoAck(v: nat)
    | TakeText(v: nat)
    | TextSizeOut(v: nat, text: bytes)
    | TextOut(v: nat, text: bytes)
    | ListFiles(v: nat)
    | CountOut(v: nat, items: seq<Item>)
    | ItemStart(v: nat, items: seq<Item>)
    | NameSizeOut(v: nat, items: seq<Item>)
    | NameOut(v: nat, items: seq<Item>)
    | SizeOut(v: nat, items: seq<Item>)
    | DataOut(v: nat, items: seq<Item>, off: nat)
    | AwaitAck(v: nat)
    | DisplayOut(v: nat)
    | AwaitDisplay(v: nat)
    | Count(v: nat)
    | MakeTemp(v: nat, left: nat)
    | NameSize(v: nat, left: nat)
    | Name(v: nat, left: nat, n: nat)
    | Check(v: nat, left: nat)
    | FileSize(v: nat, left: nat)
    | MakeDir(v: nat, left: nat)
    | Open(v: nat, left: nat, n: nat)
    | Body(v: nat, left: nat, n: nat)
    | Store(v: nat, left: nat, n: nat)
    | Detach(v: nat)
    | Unpack(v: nat)
    | AckOut(v: nat)
    | Over(v: nat, ok: bool, open: bool)
    | Astray

  /** The methods a protocol version knows. */
  predicate KnownMethod(v: nat, request: byte) {
    || request in {METHOD_GET_TEXT, METHOD_SEND_TEXT, METHOD_GET_FILE, METHOD_SEND_FILE, METHOD_GET_IMAGE, METHOD_INFO}
    || (v >= 3 && request in {METHOD_GET_COPIED_IMAGE, METHOD_GET_SCREENSHOT})
  }

  function Failed(v: nat): State {
    Over(v, false, true)
  }

  /** proto_handler and the first switch of version_1 .. version_4. */
  function Enter(s: Setup, v: nat): State {
    if 1 <= v <= 4 && KnownMethod(v, s.request) then Request(v) else Failed(v)
  }

  function AfterSend(v: nat): State {
    if v >= 4 then AwaitAck(v) else Over(v, true, true)
  }

  function AtItem(v: nat, items: seq<Item>): State {
    if items == [] then AfterSend(v) else ItemStart(v, items)
  }

  /** _send_files_common up to the first file; version 1 sends no count and one file. */
  function StartSending(v: nat, items: seq<Item>): State {
    if v > 1 then CountOut(v, items) else AtItem(v, items[..Min(1, |items|)])
  }

  function AnnouncedSize(item: Item): int {
    match item
    case FileItem(_, data) => |data|
    case DirItem(_) => -1
  }

  function AtData(v: nat, items: seq<Item>, off: nat): State
    requires items != []
  {
    if items[0].FileItem? && off < |items[0].data| then DataOut(v, items, off) else AtItem(v, items[1..])
  }

  function AfterSave(v: nat, left: nat): State {
    if left == 0 then (if v >= 4 then AckOut(v) else Over(v, true, true))
    else if left == 1 then (if v >= 4 then Unpack(v) else Detach(v))
    else NameSize(v, left - 1)
  }

  function AtBody(v: nat, left: nat, n: nat): State {
    if n == 0 then AfterSave(v, left) else Body(v, left, n)
  }

  /** What _save_file_common does with an announced size. */
  function AtSize(s: Setup, v: nat, left: nat, size: int): State {
    if size > s.maxFileSize then Failed(v)
    else if size == -1 && v >= 3 then MakeDir(v, left)
    else if size < 0 then Failed(v)
    else Open(v, left, size)
  }

  /** The second switch of version_1 .. version_4. */
  function Dispatch(s: Setup, v: nat): State {
    if s.request == METHOD_GET_TEXT then TextSize(v)
    else if s.request == METHOD_SEND_TEXT then TakeText(v)
    else if s.request == METHOD_GET_FILE then Count(v)
    else if s.request == METHOD_SEND_FILE then ListFiles(v)
    else if s.request == METHOD_GET_IMAGE || s.request == METHOD_GET_COPIED_IMAGE then FileSize(v, 0)
    else if s.request == METHOD_GET_SCREENSHOT then DisplayOut(v)
    else if s.request == METHOD_INFO then InfoSize(v)
    else Failed(v)
  }

  /** Whether the name a server gives is the one info_v1 and info_v4 look for. */
  predicate InfoMatches(v: nat, data: bytes) {
    if v < 4 then CStr(data + [NUL]) == INFO_NAME
    else INFO_NAME <= data && (|data| == |INFO_NAME| || data[|INFO_NAME|] in {NUL, LF})
  }

  /** The next operation in each state. */
  function Wants(s: Setup, st: State): Want {
    match st
    case Hello => WantWrite([s.maxVersion % 256])
    case AwaitStatus => WantRead(1)
    case AwaitOffer => WantRead(1)
    case Refusing => WantWrite([0])
    case Accepting(v) => WantWrite([v % 256])
    case Request(v) => WantWrite([s.request])
    case AwaitMethodStatus(_) => WantRead(1)
    case TextSize(_) => WantRead(8)
    case TextBody(_, n) => WantRead(n)
    case InfoSize(_) => WantRead(8)
    case InfoBody(_, n) => WantRead(n)
    case InfoAck(_) => WantWrite(ACK)
    case TakeText(_) => WantText
    case TextSizeOut(_, t) => WantWrite(EncodeSize(|t|))
    case TextOut(_, t) => WantWrite(t)
    case ListFiles(_) => WantList
    case CountOut(_, items) => WantWrite(EncodeSize(|items|))
    case ItemStart(_, _) => WantLocal
    case NameSizeOut(_, items) => if items == [] then WantNothing else WantWrite(EncodeSize(|items[0].name|))
    case NameOut(_, items) => if items == [] then WantNothing else WantWrite(items[0].name)
    case SizeOut(_, items) => if items == [] then WantNothing else WantWrite(EncodeSize(AnnouncedSize(items[0])))
    case DataOut(_, items, off) =>
      if items != [] && items[0].FileItem? && off < |items[0].data|
      then WantWrite(items[0].data[off..Min(off + FILE_BUF_SZ, |items[0].data|)])
      else WantNothing
    case AwaitAck(_) => WantRead(1)
    case DisplayOut(_) => WantWrite(EncodeSize(s.display))
    case AwaitDisplay(_) => WantRead(1)
    case Count(_) => WantRead(8)
    case MakeTemp(_, _) => WantLocal
    case NameSize(_, _) => WantRead(8)
    case Name(_, _, n) => WantRead(n)
    case Check(_, _) => WantLocal
    case FileSize(_, _) => WantRead(8)
    case MakeDir(_, _) => WantLocal
    case Open(_, _, _) => WantLocal
    case Body(_, _, n) => WantRead(Min(n, FILE_BUF_SZ))
    case Store(_, _, _) => WantLocal
    case Detach(_) => WantClose
    case Unpack(_) => WantLocal
    case AckOut(_) => WantWrite(ACK)
    case Over(_, _, open) => if open then WantClose else WantNothing
    case Astray => WantNothing
  }

  /** Whether an event is what the state asked for, completed or cut short. After its close a client may still work
      on its own files. */
  predicate Fits(w: Want, ev: Event) {
    match w
    case WantWrite(d) => ev == Wrote(d) || (ev.WriteCut? && ev.part < d)
    case WantRead(n) => (ev.Got? && |ev.data| == n) || (ev.ReadCut? && |ev.part| < n)
    case WantLocal => ev.Local?
    case WantText => ev.Copied?
    case WantList => ev.Listed?
    case WantClose => ev.Closed?
    case WantNothing => false
  }

  function Next(s: Setup, st: State, ev: Event): State
    requires Fits(Wants(s, st), ev)
  {
    match st
    case Hello => if ev.Wrote? then AwaitStatus else Failed(0)
    case AwaitStatus =>
      if ev.ReadCut? then Failed(0)
      else if ev.data[0] == PROTOCOL_SUPPORTED then Enter(s, s.maxVersion % 256)
      else if ev.data[0] == PROTOCOL_UNKNOWN then AwaitOffer
      else Failed(0)
    case AwaitOffer =>
      if ev.ReadCut? then Failed(0)
      else if ev.data[0] < s.minVersion || ev.data[0] > s.maxVersion then Refusing
      else Accepting(ev.data[0])
    case Refusing => Failed(0)
    case Accepting(v) => if ev.Wrote? then Enter(s, v) else Failed(0)
    case Request(v) => if ev.Wrote? then AwaitMethodStatus(v) else Failed(v)
    case AwaitMethodStatus(v) => if ev.Got? && ev.data[0] == STATUS_OK then Dispatch(s, v) else Failed(v)
    case TextSize(v) =>
      if ev.ReadCut? then Failed(v)
      else
        var n := DecodeSize(ev.data);
        if n <= 0 || n > s.maxText then Failed(v) else TextBody(v, n)
    case TextBody(v, n) =>
      if ev.ReadCut? || !s.utf8(ev.data) then Failed(v)
      else if v >= 4 then AckOut(v)
      else Over(v, true, true)
    case InfoSize(v) =>
      if ev.ReadCut? then Failed(v)
      else
        var n := DecodeSize(ev.data);
        if n <= 0 || n > s.maxText then Failed(v) else InfoBody(v, n)
    case InfoBody(v, n) =>
      if ev.ReadCut? || !s.utf8(ev.data) || !InfoMatches(v, ev.data) then Failed(v)
      else if v >= 4 then InfoAck(v)
      else Over(v, true, true)
    case InfoAck(v) => Over(v, ev.Wrote?, true)
    case TakeText(v) => if ev.text.Some? then TextSizeOut(v, ev.text.value) else Failed(v)
    case TextSizeOut(v, t) => if ev.Wrote? then TextOut(v, t) else Failed(v)
    case TextOut(v, t) => if ev.Wrote? then AfterSend(v) else Failed(v)
    case ListFiles(v) => if ev.items.Some? then StartSending(v, ev.items.value) else Failed(v)
    case CountOut(v, items) => if ev.Wrote? then AtItem(v, items) else Failed(v)
    case ItemStart(v, items) => if ev.ok then NameSizeOut(v, items) else Failed(v)
    case NameSizeOut(v, items) => if ev.Wrote? then NameOut(v, items) else Failed(v)
    case NameOut(v, items) => if ev.Wrote? then SizeOut(v, items) else Failed(v)
    case SizeOut(v, items) => if ev.Wrote? then AtData(v, items, 0) else Failed(v)
    case DataOut(v, items, off) => if ev.Wrote? then AtData(v, items, off + |ev.data|) else Failed(v)
    case AwaitAck(v) => Over(v, true, true)
    case DisplayOut(v) => if ev.Wrote? then AwaitDisplay(v) else Failed(v)
    case AwaitDisplay(v) => if ev.Got? && ev.data[0] == STATUS_OK then FileSize(v, 0) else Failed(v)
    case Count(v) =>
      if ev.ReadCut? then Failed(v)
      else
        var n := DecodeSize(ev.data);
        if n <= 0 || n > s.maxFileCount then Failed(v) else MakeTemp(v, n)
    case MakeTemp(v, left) => if ev.ok then NameSize(v, left) else Failed(v)
    case NameSize(v, left) =>
      if ev.ReadCut? then Failed(v)
      else
        var n := DecodeSize(ev.data);
        if n <= 0 || n > MAX_FILE_NAME_LENGTH then Failed(v) else Name(v, left, n)
    case Name(v, left, n) => if ev.Got? then Check(v, left) else Failed(v)
    case Check(v, left) => if ev.ok then FileSize(v, left) else Failed(v)
    case FileSize(v, left) => if ev.Got? then AtSize(s, v, left, DecodeSize(ev.data)) else Failed(v)
    case MakeDir(v, left) => if ev.ok then AfterSave(v, left) else Failed(v)
    case Open(v, left, n) => if ev.ok then AtBody(v, left, n) else Failed(v)
    case Body(v, left, n) => if ev.Got? then Store(v, left, n - |ev.data|) else Failed(v)
    case Store(v, left, n) => if ev.ok then AtBody(v, left, n) else Failed(v)
    case Detach(v) => Unpack(v)
    case Unpack(v) => if v < 4 then Over(v, ev.ok, false) else if ev.ok then AckOut(v) else Failed(v)
    case AckOut(v) => Over(v, true, true)
    case Over(v, ok, open) => Over(v, ok, false)
  }

  function Step(s: Setup, st: State, ev: Event): State {
    if Fits(Wants(s, st), ev) then Next(s, st, ev) else Astray
  }

  /** The state after a whole log of events. */
  function Drive(s: Setup, log: seq<Event>): State {
    if log == [] then Hello else Step(s, Drive(s, log[..|log| - 1]), log[|log| - 1])
  }

  /** Every byte the transport took, in order. */
  function SentIn(log: seq<Event>): bytes {
    if log == [] then []
    else
      var ev := log[|log| - 1];
      SentIn(log[..|log| - 1]) + (if ev.Wrote? then ev.data else if ev.WriteCut? then ev.part else [])
  }

  /** Every byte the transport delivered, in order. */
  function ReceivedIn(log: seq<Event>): bytes {
    if log == [] then []
    else
      var ev := log[|log| - 1];
      ReceivedIn(log[..|log| - 1]) + (if ev.Got? then ev.data else if ev.ReadCut? then ev.part else [])
  }

  lemma LogStep(s: Setup, log: seq<Event>, ev: Event)
    ensures Drive(s, log + [ev]) == Step(s, Drive(s, log), ev)
    ensures SentIn(log + [ev]) == SentIn(log) + (if ev.Wrote? then ev.data else if ev.WriteCut? then ev.part else [])
    ensures ReceivedIn(log + [ev])
         == ReceivedIn(log) + (if ev.Got? then ev.data else if ev.ReadCut? then ev.part else [])
  {
    assert (log + [ev])[..|log|] == log;
  }

  // Stretches of the machine that one method goes through: started in the given kind of state it ends, depending on
  // its result, where the machine says.

  predicate SaveFrom(was: State, v: nat, ok: bool, now: State) {
    was.FileSize? && was.v == v ==> now == if ok then AfterSave(v, was.left) else Failed(v)
  }

  predicate DataFrom(was: State, v: nat, n: nat, ok: bool, now: State) {
    was.Open? && was.v == v && was.n == n ==> now == if ok then AfterSave(v, was.left) else Failed(v)
  }

  predicate BlocksFrom(was: State, v: nat, n: nat, left: nat, now: State) {
    was.Open? && was.v == v && was.n == n ==> now == AtBody(v, was.left, left)
  }

  predicate BlockFrom(was: State, v: nat, left: nat, ok: bool, now: State) {
    was.Body? && was.v == v && was.n == left ==>
      now == if ok then AtBody(v, was.left, left - Min(left, FILE_BUF_SZ)) else Failed(v)
  }

  predicate CheckFrom(was: State, v: nat, ok: bool, now: State) {
    was.Check? && was.v == v ==> now == if ok then AfterSave(v, was.left) else Failed(v)
  }

  /** The size of an entry is read and leads on, or ends the session. */
  lemma SaveSteps(s: Setup, st: State, v: nat, ev: Event)
    requires Fits(WantRead(8), ev)
    ensures ev.ReadCut? ==> SaveFrom(st, v, false, Step(s, st, ev))
    ensures ev.Got? ==>
      var size, now := DecodeSize(ev.data), Step(s, st, ev);
      && (size > s.maxFileSize ==> SaveFrom(st, v, false, now))
      && (size <= s.maxFileSize && size == -1 && v >= 3 ==>
            forall ok: bool :: SaveFrom(st, v, ok, Step(s, now, Local(ok))))
      && (size <= s.maxFileSize && size < 0 && !(size == -1 && v >= 3) ==> SaveFrom(st, v, false, now))
      && (0 <= size <= s.maxFileSize ==>
            forall ok: bool, later: State :: DataFrom(now, v, size, ok, later) ==> SaveFrom(st, v, ok, later))
  {
    hide EncodeSize, DecodeSize, InfoMatches;
  }

  lemma OpenSteps(s: Setup, st: State, v: nat, n: nat, ok: bool)
    ensures ok ==> BlocksFrom(st, v, n, n, Step(s, st, Local(ok)))
    ensures !ok ==> DataFrom(st, v, n, ok, Step(s, st, Local(ok)))
  {
  }

  /** One more block. */
  lemma BlocksSteps(was: State, v: nat, n: nat, left: nat, st: State, ok: bool, now: State)
    requires BlocksFrom(was, v, n, left, st) && BlockFrom(st, v, left, ok, now) && left > 0
    ensures ok ==> BlocksFrom(was, v, n, left - Min(left, FILE_BUF_SZ), now)
    ensures !ok ==> DataFrom(was, v, n, false, now)
  {
  }

  lemma BlocksDone(was: State, v: nat, n: nat, now: State)
    requires BlocksFrom(was, v, n, 0, now)
    ensures DataFrom(was, v, n, true, now)
  {
  }

  lemma BlockSteps(s: Setup, st: State, v: nat, left: nat, ev: Event, stored: bool)
    requires left > 0 && Fits(WantRead(Min(left, FILE_BUF_SZ)), ev)
    ensures ev.ReadCut? ==> BlockFrom(st, v, left, false, Step(s, st, ev))
    ensures ev.Got? ==> BlockFrom(st, v, left, stored, Step(s, Step(s, st, ev), Local(stored)))
  {
  }

  lemma CheckSteps(s: Setup, st: State, v: nat, ok: bool)
    ensures !ok ==> CheckFrom(st, v, false, Step(s, st, Local(ok)))
    ensures ok ==> forall saved: bool, later: State ::
      SaveFrom(Step(s, st, Local(ok)), v, saved, later) ==> CheckFrom(st, v, saved, later)
  {
  }

  /** After the name: one whole entry. */
  predicate EntryFrom(was: State, v: nat, ok: bool, now: State) {
    was.NameSize? && was.v == v ==> now == if ok then AfterSave(v, was.left) else Failed(v)
  }

  /** With left entries to come; all of them received when left is 0. */
  function AtEntry(v: nat, left: nat): State {
    if left > 0 then NameSize(v, left) else if v >= 4 then Unpack(v) else Detach(v)
  }

  predicate EntriesFrom(was: State, v: nat, count: nat, left: nat, now: State) {
    was == NameSize(v, count) ==> now == AtEntry(v, left)
  }

  predicate AllEntriesFrom(was: State, v: nat, count: nat, ok: bool, now: State) {
    was == NameSize(v, count) ==> now == if ok then AtEntry(v, 0) else Failed(v)
  }

  lemma EntrySteps(s: Setup, st: State, v: nat, ev: Event)
    requires Fits(WantRead(8), ev)
    ensures ev.ReadCut? ==> EntryFrom(st, v, false, Step(s, st, ev))
    ensures ev.Got? && !(0 < DecodeSize(ev.data) <= MAX_FILE_NAME_LENGTH) ==> EntryFrom(st, v, false, Step(s, st, ev))
  {
    hide EncodeSize, DecodeSize, InfoMatches;
  }

  lemma NameSteps(s: Setup, st: State, v: nat, ev: Event, ev': Event)
    requires Fits(WantRead(8), ev) && ev.Got? && 0 < DecodeSize(ev.data) <= MAX_FILE_NAME_LENGTH
    requires Fits(WantRead(DecodeSize(ev.data)), ev')
    ensures var now := Step(s, Step(s, st, ev), ev');
            && (ev'.ReadCut? ==> EntryFrom(st, v, false, now))
            && (ev'.Got? ==>
                  forall ok: bool, later: State :: CheckFrom(now, v, ok, later) ==> EntryFrom(st, v, ok, later))
  {
    hide EncodeSize, DecodeSize, InfoMatches;
  }

  lemma EntriesSteps(was: State, v: nat, count: nat, left: nat, st: State, ok: bool, now: State)
    requires EntriesFrom(was, v, count, left, st) && left > 0 && EntryFrom(st, v, ok, now)
    ensures ok ==> EntriesFrom(was, v, count, left - 1, now)
    ensures !ok ==> AllEntriesFrom(was, v, count, false, now)
  {
  }

  lemma EntriesEnds(st: State, v: nat, count: nat, now: State)
    ensures count > 0 ==> EntriesFrom(st, v, count, count, st)
    ensures EntriesFrom(st, v, count, 0, now) ==> AllEntriesFrom(st, v, count, true, now)
  {
  }

  /** Get Files from the count on: the transfer is over, and the session says how it went. */
  predicate GetFilesFrom(was: State, v: nat, ok: bool, open: bool, now: State) {
    was == Count(v) ==> now == Over(v, ok, open)
  }

  lemma CountSteps(s: Setup, st: State, v: nat, ev: Event)
    requires Fits(WantRead(8), ev)
    ensures ev.ReadCut? ==> GetFilesFrom(st, v, false, true, Step(s, st, ev))
    ensures ev.Got? ==>
      var n, now := DecodeSize(ev.data), Step(s, st, ev);
      && (n <= 0 || n > s.maxFileCount ==> GetFilesFrom(st, v, false, true, now))
      && (0 < n <= s.maxFileCount ==>
            && GetFilesFrom(st, v, false, true, Step(s, now, Local(false)))
            && (st == Count(v) ==> Step(s, now, Local(true)) == NameSize(v, n)))
  {
    hide EncodeSize, DecodeSize, InfoMatches;
  }

  /** What follows the last entry: before version 4 the socket is closed first, from version 4 on it is acknowledged
      and closed when everything worked, and closed at once otherwise. */
  lemma UnpackSteps(s: Setup, v: nat, ok: bool, ev: Event)
    requires Fits(WantWrite(ACK), ev)
    ensures Step(s, Unpack(v), Local(ok)) == if v < 4 then Over(v, ok, false) else if ok then AckOut(v) else Failed(v)
    ensures Step(s, AckOut(v), ev) == Over(v, true, true)
  {
    hide EncodeSize, DecodeSize, InfoMatches, StartSending, AtItem, AtData, AfterSave, AtBody, AtSize, Dispatch,
      Enter, KnownMethod, AfterSend;
  }

  lemma DetachSteps(s: Setup, v: nat)
    ensures v >= 4 ==> AtEntry(v, 0) == Unpack(v)
    ensures v < 4 ==> Step(s, AtEntry(v, 0), Closed) == Unpack(v)
  {
  }

  lemma ReceivedSoFar(st: State, st': State, v: nat, count: nat, ok: bool, now: State)
    requires st == Count(v) ==> st' == NameSize(v, count)
    requires AllEntriesFrom(st', v, count, ok, now)
    ensures ok ==> (st == Count(v) ==> now == AtEntry(v, 0))
    ensures !ok ==> GetFilesFrom(st, v, false, true, now)
  {
  }

  // Sending a list of entries.

  /** From the start of the first entry of items; the rest is to be sent next. */
  predicate ItemFrom(was: State, v: nat, items: seq<Item>, ok: bool, now: State) {
    items != [] && was == ItemStart(v, items) ==> now == if ok then AtItem(v, items[1..]) else Failed(v)
  }

  predicate ItemsFrom(was: State, v: nat, items: seq<Item>, rest: seq<Item>, now: State) {
    was == AtItem(v, items) ==> now == AtItem(v, rest)
  }

  predicate SendFrom(was: State, v: nat, items: seq<Item>, ok: bool, open: bool, now: State) {
    was == StartSending(v, items) ==> now == Over(v, ok, open)
  }

  lemma ItemStartStep(s: Setup, v: nat, items: seq<Item>, ok: bool)
    ensures Step(s, ItemStart(v, items), Local(ok)) == if ok then NameSizeOut(v, items) else Failed(v)
  {
  }

  lemma NameSizeStep(s: Setup, v: nat, items: seq<Item>, ev: Event)
    requires items != [] && Fits(WantWrite(EncodeSize(|items[0].name|)), ev)
    ensures Step(s, NameSizeOut(v, items), ev) == if ev.Wrote? then NameOut(v, items) else Failed(v)
  {
  }

  lemma NameStep(s: Setup, v: nat, items: seq<Item>, ev: Event)
    requires items != [] && Fits(WantWrite(items[0].name), ev)
    ensures Step(s, NameOut(v, items), ev) == if ev.Wrote? then SizeOut(v, items) else Failed(v)
  {
  }

  lemma SizeStep(s: Setup, v: nat, items: seq<Item>, ev: Event)
    requires items != [] && Fits(WantWrite(EncodeSize(AnnouncedSize(items[0]))), ev)
    ensures Step(s, SizeOut(v, items), ev) == if ev.Wrote? then AtData(v, items, 0) else Failed(v)
  {
  }

  lemma DirectorySent(v: nat, items: seq<Item>)
    requires items != [] && items[0].DirItem?
    ensures AtData(v, items, 0) == AtItem(v, items[1..])
  {
  }

  predicate ChunksFrom(was: State, v: nat, items: seq<Item>, off: nat, now: State)
    requires items != []
  {
    was == ItemStart(v, items) ==> now == AtData(v, items, off)
  }

  lemma ChunkSteps(s: Setup, was: State, v: nat, items: seq<Item>, off: nat, st: State, ev: Event)
    requires items != [] && items[0].FileItem? && off < |items[0].data| && ChunksFrom(was, v, items, off, st)
    requires Fits(WantWrite(items[0].data[off..Min(off + FILE_BUF_SZ, |items[0].data|)]), ev)
    ensures ev.WriteCut? ==> ItemFrom(was, v, items, false, Step(s, st, ev))
    ensures ev.Wrote? ==>
      ChunksFrom(was, v, items, Min(off + FILE_BUF_SZ, |items[0].data|), Step(s, st, ev))
  {
  }

  lemma ChunkEnds(was: State, v: nat, items: seq<Item>, now: State)
    requires items != [] && items[0].FileItem?
    ensures (was == ItemStart(v, items) ==> now == AtData(v, items, 0)) ==> ChunksFrom(was, v, items, 0, now)
    ensures ChunksFrom(was, v, items, |items[0].data|, now) ==> ItemFrom(was, v, items, true, now)
  {
  }

  lemma ItemsSteps(was: State, v: nat, items: seq<Item>, rest: seq<Item>, st: State, ok: bool, now: State)
    requires rest != [] && ItemsFrom(was, v, items, rest, st) && ItemFrom(st, v, rest, ok, now)
    ensures ok ==> ItemsFrom(was, v, items, rest[1..], now)
    ensures !ok ==> (was == AtItem(v, items) ==> now == Failed(v))
  {
  }

  lemma CountOutStep(s: Setup, v: nat, items: seq<Item>, ev: Event)
    requires Fits(WantWrite(EncodeSize(|items|)), ev)
    ensures Step(s, CountOut(v, items), ev) == if ev.Wrote? then AtItem(v, items) else Failed(v)
  {
  }

  lemma CloseStep(s: Setup, v: nat, ok: bool)
    ensures Step(s, Over(v, ok, true), Closed) == Over(v, ok, false)
  {
  }

  predicate ListFrom(was: State, v: nat, items: seq<Item>, ok: bool, now: State) {
    was == AtItem(v, items) ==> now == if ok then AfterSend(v) else Failed(v)
  }

  lemma ListEnds(was: State, v: nat, items: seq<Item>, now: State)
    ensures ItemsFrom(was, v, items, items, was)
    ensures ItemsFrom(was, v, items, [], now) ==> ListFrom(was, v, items, true, now)
    ensures (was == AtItem(v, items) ==> now == Failed(v)) ==> ListFrom(was, v, items, false, now)
  {
  }

  lemma SendEnds(s: Setup, st: State, v: nat, items: seq<Item>, now: State)
    ensures (st == StartSending(v, items) ==> now == Failed(v)) ==> SendFrom(st, v, items, false, true, now)
    ensures (st == StartSending(v, items) ==> now == Over(v, true, true)) ==>
      SendFrom(st, v, items, true, false, Step(s, now, Closed))
    ensures v > 1 ==> StartSending(v, items) == CountOut(v, items)
    ensures v == 1 ==> StartSending(v, items) == AtItem(v, items[..Min(1, |items|)])
    ensures v < 4 ==> AfterSend(v) == Over(v, true, true)
    ensures v >= 4 ==> AfterSend(v) == AwaitAck(v)
  {
  }
}
