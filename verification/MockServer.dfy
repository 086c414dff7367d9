/** The server side of a session as a state machine: negotiate_protocol, handle_protocol and the handlers of
    tests/utils/mock_server.py. */
module MockServer {
  import opened Bytes
  import opened Wire
  import opened Session

  /** What the server has to offer, and whether its n-th local operation (decoding a name or a text, making a directory
      or a file) works; one that fails ends the server. */
  datatype Stock = Stock(
    protoMin: nat,
    protoMax: nat,
    text: Option<bytes>,
    filesCopied: bool,
    files: nat -> seq<Item>,
    imageCopied: bool,
    image: bytes,
    screen: bytes,
    luck: nat -> bool)

  /** Where the server stands. SDone says whether the handler ran to its end; v is 0 without an agreed version. */
  datatype Server =
    | SHello
    | SObsolete
    | SUnknown
    | SOffer
    | SResponse
    | SSupported(v: nat)
    | SMethod(v: nat)
    | SRefuse(v: nat, status: byte)
    | SSend(v: nat, out: seq<bytes>)
    | SReadAck(v: nat)
    | SGrantDisplay(v: nat)
    | SDisplay(v: nat)
    | SGrantText(v: nat)
    | STextSize(v: nat)
    | SText(v: nat, n: nat)
    | SDecode(v: nat)
    | SGrantFiles(v: nat)
    | SCount(v: nat)
    | SNameSize(v: nat, left: nat)
    | SName(v: nat, left: nat, n: nat)
    | SNameCheck(v: nat, left: nat)
    | SSize(v: nat, left: nat)
    | SMakeDir(v: nat, left: nat)
    | SOpen(v: nat, left: nat, n: nat)
    | SData(v: nat, left: nat, n: nat)
    | SWriteAck(v: nat)
    | SDone(v: nat, ok: bool)

  /** send_data */
  function BlockOut(data: bytes): seq<bytes> {
    [EncodeSize(|data|), data]
  }

  /** send_file: a directory is announced with the size 2^64 - 1. */
  function FileOut(item: Item): seq<bytes> {
    match item
    case FileItem(name, data) => BlockOut(name) + BlockOut(data)
    case DirItem(name) => BlockOut(name) + [EncodeSize(-1)]
  }

  function FilesOut(items: seq<Item>): seq<bytes> {
    if items == [] then [] else FileOut(items[0]) + FilesOut(items[1..])
  }

  /** The handler for a method byte. */
  function Handler(k: Stock, v: nat, m: byte): Server {
    if !(1 <= v <= 4) then SDone(v, false)
    else if !KnownMethod(v, m) then SRefuse(v, STATUS_UNKNOWN_METHOD)
    else if m == METHOD_GET_TEXT then
      match k.text
      case None => SRefuse(v, STATUS_NO_DATA)
      case Some(t) => SSend(v, [[STATUS_OK]] + BlockOut(t))
    else if m == METHOD_SEND_TEXT then SGrantText(v)
    else if m == METHOD_GET_FILE then
      if k.filesCopied then SSend(v, [[STATUS_OK], EncodeSize(|k.files(v)|)] + FilesOut(k.files(v)))
      else SRefuse(v, STATUS_NO_DATA)
    else if m == METHOD_SEND_FILE then SGrantFiles(v)
    else if m == METHOD_GET_IMAGE then
      SSend(v, [[STATUS_OK]] + BlockOut(if k.imageCopied then k.image else k.screen))
    else if m == METHOD_GET_COPIED_IMAGE then
      if k.imageCopied then SSend(v, [[STATUS_OK]] + BlockOut(k.image)) else SRefuse(v, STATUS_NO_DATA)
    else if m == METHOD_GET_SCREENSHOT then SGrantDisplay(v)
    else SRefuse(v, STATUS_METHOD_NOT_IMPLEMENTED)
  }

  /** After the last entry or the text. */
  function AfterReceived(v: nat): Server {
    if v < 4 then SDone(v, true) else SWriteAck(v)
  }

  function AtNext(v: nat, left: nat): Server {
    if left == 0 then AfterReceived(v) else SNameSize(v, left)
  }

  /** What an announced size leads to: before version 3 a negative one ends the loop; from version 3 on only -1 has a
      meaning and other negative ones cannot be received. */
  function AtServerSize(v: nat, left: nat, size: int): Server {
    if v < 3 && size < 0 then SDone(v, false)
    else if size == -1 then SMakeDir(v, left)
    else if size < 0 then SDone(v, false)
    else SOpen(v, left, size)
  }

  function ServerWants(k: Stock, r: Server): Want {
    match r
    case SHello => WantRead(1)
    case SObsolete => WantWrite([PROTOCOL_OBSOLETE])
    case SUnknown => WantWrite([PROTOCOL_UNKNOWN])
    case SOffer => WantWrite([k.protoMax % 256])
    case SResponse => WantRead(1)
    case SSupported(_) => WantWrite([PROTOCOL_SUPPORTED])
    case SMethod(_) => WantRead(1)
    case SRefuse(_, status) => WantWrite([status])
    case SSend(_, out) => if out == [] then WantNothing else WantWrite(out[0])
    case SReadAck(_) => WantRead(1)
    case SGrantDisplay(_) => WantWrite([STATUS_OK])
    case SDisplay(_) => WantRead(8)
    case SGrantText(_) => WantWrite([STATUS_OK])
    case STextSize(_) => WantRead(8)
    case SText(_, n) => WantRead(n)
    case SDecode(_) => WantLocal
    case SGrantFiles(_) => WantWrite([STATUS_OK])
    case SCount(_) => WantRead(8)
    case SNameSize(_, _) => WantRead(8)
    case SName(_, _, n) => WantRead(n)
    case SNameCheck(_, _) => WantLocal
    case SSize(_, _) => WantRead(8)
    case SMakeDir(_, _) => WantLocal
    case SOpen(_, _, _) => WantLocal
    case SData(_, _, n) => WantRead(n)
    case SWriteAck(_) => WantWrite(ACK)
    case SDone(_, _) => WantNothing
  }

  /** What follows a completed operation. */
  function ServerNext(k: Stock, r: Server, ev: Event): Server
    requires Fits(ServerWants(k, r), ev) && !ev.WriteCut? && !ev.ReadCut?
  {
    match r
    case SHello =>
      var v := ev.data[0];
      if v < k.protoMin then SObsolete else if v > k.protoMax then SUnknown else SSupported(v)
    case SObsolete => SDone(0, false)
    case SUnknown => SOffer
    case SOffer => SResponse
    case SResponse =>
      if ev.data[0] != NUL && ev.data[0] == k.protoMax % 256 then SMethod(k.protoMax % 256) else SDone(0, false)
    case SSupported(v) => SMethod(v)
    case SMethod(v) => Handler(k, v, ev.data[0])
    case SRefuse(v, _) => SDone(v, false)
    case SSend(v, out) =>
      if |out| > 1 then SSend(v, out[1..]) else if v < 4 then SDone(v, true) else SReadAck(v)
    case SReadAck(v) => SDone(v, true)
    case SGrantDisplay(v) => SDisplay(v)
    case SDisplay(v) =>
      if ServerInt(ev.data) in {0, 1} then SSend(v, [[STATUS_OK]] + BlockOut(k.screen)) else SRefuse(v, STATUS_NO_DATA)
    case SGrantText(v) => STextSize(v)
    case STextSize(v) => if ServerInt(ev.data) < 0 then SDone(v, false) else SText(v, ServerInt(ev.data))
    case SText(v, _) => SDecode(v)
    case SDecode(v) => if ev.ok then AfterReceived(v) else SDone(v, false)
    case SGrantFiles(v) => if v == 1 then SNameSize(v, 1) else SCount(v)
    case SCount(v) => if ServerInt(ev.data) <= 0 then SDone(v, false) else SNameSize(v, ServerInt(ev.data))
    case SNameSize(v, left) => if ServerInt(ev.data) < 0 then SDone(v, false) else SName(v, left, ServerInt(ev.data))
    case SName(v, left, _) => SNameCheck(v, left)
    case SNameCheck(v, left) => if ev.ok then SSize(v, left) else SDone(v, false)
    case SSize(v, left) => AtServerSize(v, left, ServerInt(ev.data))
    case SMakeDir(v, left) => if ev.ok && left > 0 then AtNext(v, left - 1) else SDone(v, false)
    case SOpen(v, left, n) => if ev.ok then SData(v, left, n) else SDone(v, false)
    case SData(v, left, _) => if left > 0 then AtNext(v, left - 1) else SDone(v, false)
    case SWriteAck(v) => SDone(v, true)
  }
}
