/** Text and server information: _send_text_common, _get_text_common, info_v1 and info_v4 (src/proto/methods.c). */
module TextMethods {
  import opened Bytes
  import opened Wire
  import opened Session
  import opened NetUtils
  import opened Acks
  import opened SendFiles
  import opened Eol

  /** The block of allowed length that a stream begins with. */
  function ParseBlock(setup: Setup, s: bytes): Option<bytes> {
    if |s| < 8 then None
    else
      var n := DecodeSize(s[..8]);
      if n <= 0 || n > setup.maxText || |s| < 8 + n then None else Some(s[8..8 + n])
  }

  function ParseText(setup: Setup, s: bytes): Option<bytes> {
    match ParseBlock(setup, s)
    case Some(t) => if setup.utf8(t) then Some(t) else None
    case None => None
  }

  function ParseInfo(setup: Setup, v: nat, s: bytes): Option<bytes> {
    match ParseText(setup, s)
    case Some(t) => if InfoMatches(v, t) then Some(t) else None
    case None => None
  }

  /** The stream begins with the length of d and d. */
  predicate Announces(s: bytes, d: bytes) {
    |d| < TWO_63 && EncodeSize(|d|) + d <= s
  }

  /** The block is the text that is announced, when its length is from 1 to the limit. */
  lemma BlockIs(setup: Setup, s: bytes, d: bytes)
    ensures ParseBlock(setup, s) == Some(d) <==> Announces(s, d) && 1 <= |d| <= setup.maxText
  {
    hide EncodeSize, DecodeSize;
    if Announces(s, d) {
      SizeRoundTrip(|d|);
      assert s[..8] == EncodeSize(|d|) && s[8..8 + |d|] == d;
    }
    if ParseBlock(setup, s) == Some(d) {
      SizeBytesRoundTrip(s[..8]);
      assert s == s[..8] + s[8..8 + |d|] + s[8 + |d|..];
    }
  }

  /** And a text is such a block in UTF-8. */
  lemma TextIs(setup: Setup, s: bytes, d: bytes)
    ensures ParseText(setup, s) == Some(d) <==> Announces(s, d) && 1 <= |d| <= setup.maxText && setup.utf8(d)
  {
    hide ParseBlock, Announces;
    BlockIs(setup, s, d);
  }

  /** The block begins with "clip_share" and ends there, with a NUL, or from version 4 on with a line end. */
  predicate NamesServer(v: nat, d: bytes) {
    && |d| >= 10 && d[..10] == Ascii("clip_share")
    && (|d| == 10 || d[10] == 0 || (v >= 4 && d[10] == 10))
  }

  lemma InfoNameSpelled()
    ensures INFO_NAME == Ascii("clip_share")
  {
    hide Ascii;
  }

  lemma ServerNamed(v: nat, d: bytes)
    ensures InfoMatches(v, d) <==> NamesServer(v, d)
  {
    hide Ascii, CStr;
    InfoNameSpelled();
    var t := d + [NUL];
    if |d| >= 10 && d[..10] == INFO_NAME && (|d| == 10 || d[10] == NUL) {
      assert INFO_NAME <= t && t[10] == NUL;
      CStrIs(t, INFO_NAME);
    }
    if CStr(t) == INFO_NAME {
      assert t[|d|] == NUL && NUL in t;
      StringEnds(t);
      assert t[..10] == INFO_NAME && t[10] == NUL;
      assert d[..10] == t[..10];
    }
  }

  /** A server's name is a text that names a ClipShare server. */
  lemma InfoIs(setup: Setup, v: nat, s: bytes, d: bytes)
    ensures ParseInfo(setup, v, s) == Some(d) <==>
      Announces(s, d) && 1 <= |d| <= setup.maxText && setup.utf8(d) && NamesServer(v, d)
  {
    hide ParseText, Announces, InfoMatches, NamesServer;
    TextIs(setup, s, d);
    ServerNamed(v, d);
  }

  lemma NamedBlock(setup: Setup, v: nat, s: bytes)
    ensures var block := ParseBlock(setup, s);
            ParseInfo(setup, v, s)
            == if block.Some? && setup.utf8(block.value) && InfoMatches(v, block.value) then block else None
    ensures ParseInfo(setup, v, s).Some? <==> exists d ::
      Announces(s, d) && |d| <= setup.maxText && setup.utf8(d) && NamesServer(v, d)
    ensures ParseInfo(setup, v, s).Some? ==> NamesServer(v, ParseInfo(setup, v, s).value)
  {
    hide ParseBlock, Announces, InfoMatches, Ascii;
    forall d
      ensures ParseInfo(setup, v, s) == Some(d) <==>
        Announces(s, d) && 1 <= |d| <= setup.maxText && setup.utf8(d) && NamesServer(v, d)
    {
      InfoIs(setup, v, s, d);
    }
  }

  /** What is pasted or sent of a text: nothing but its LF form up to a NUL. Without CR CR LF it has no CR LF left, and
      without CR it is the text up to its NUL. */
  lemma LineEndsOnly(text: bytes)
    ensures var s, t := CStr(text), ToLf(CStr(text));
            && NulFree(s) && s <= text && (|s| < |text| ==> text[|s|] == NUL)
            && ((forall i | 0 <= i < |s| :: !CrCrLfAt(s, i)) ==> forall i | 0 <= i < |t| :: !CrLfAt(t, i))
            && (CR !in s ==> t == s)
  {
    hide ToLf, CStr;
    var s := CStr(text);
    LfTwice(s);
    LfFixed(ToLf(s));
    LfFixed(s);
  }

  function AfterText(setup: Setup, v: nat, data: Option<bytes>): State {
    if data == None || !setup.utf8(data.value) then Failed(v) else if v >= 4 then AckOut(v) else Over(v, true, true)
  }

  function AfterInfo(setup: Setup, v: nat, data: Option<bytes>): State {
    if data == None || !setup.utf8(data.value) || !InfoMatches(v, data.value) then Failed(v)
    else if v >= 4 then InfoAck(v)
    else Over(v, true, true)
  }

  predicate BlockRead(setup: Setup, v: nat, was: State, data: Option<bytes>, now: State) {
    && (was == TextSize(v) ==> now == AfterText(setup, v, data))
    && (was == InfoSize(v) ==> now == AfterInfo(setup, v, data))
  }

  lemma BlockSizeSteps(setup: Setup, v: nat, st: State, ev: Event)
    requires Fits(WantRead(8), ev)
    ensures ev.ReadCut? ==> BlockRead(setup, v, st, None, Step(setup, st, ev))
    ensures ev.Got? && !(0 < DecodeSize(ev.data) <= setup.maxText) ==>
      BlockRead(setup, v, st, None, Step(setup, st, ev))
  {
  }

  lemma BlockBodySteps(setup: Setup, v: nat, st: State, ev: Event, ev': Event)
    requires Fits(WantRead(8), ev) && ev.Got? && 0 < DecodeSize(ev.data) <= setup.maxText
    requires Fits(WantRead(DecodeSize(ev.data)), ev')
    ensures BlockRead(setup, v, st, if ev'.Got? then Some(ev'.data) else None, Step(setup, Step(setup, st, ev), ev'))
  {
  }

  /** The length and the data, as _get_text_common and _get_info_common read them. */
  method ReadBlock(v: nat, socket: Socket) returns (data: Option<bytes>)
    requires socket.Valid() && socket.valid
    modifies socket
    ensures socket.Valid() && socket.valid && socket.sent == old(socket.sent) && old(socket.pos) <= socket.pos
    ensures data.Some? ==>
      && data == ParseBlock(socket.setup, socket.inbound[old(socket.pos)..])
      && socket.pos == old(socket.pos) + 8 + |data.value|
    ensures Delivers(socket.schedule) ==> data == ParseBlock(socket.setup, socket.inbound[old(socket.pos)..])
    ensures BlockRead(socket.setup, v, old(socket.at), data, socket.at)
  {
    hide Step, Drive, SentIn, ReceivedIn, Delivers, BlockRead;
    ghost var start, st := socket.pos, socket.at;
    ghost var stream := socket.inbound[start..];
    var ok, length := socket.ReadSize();
    ghost var ev := if ok then Got(socket.inbound[start..socket.pos]) else ReadCut(socket.inbound[start..socket.pos]);
    BlockSizeSteps(socket.setup, v, st, ev);
    if !ok {
      return None;
    }
    assert stream[..8] == socket.inbound[start..socket.pos];
    if length <= 0 || length > socket.setup.maxText {
      return None;
    }
    var buf := new byte[length];
    ok := socket.ReadSock(buf, length);
    ghost var part := socket.inbound[start + 8..socket.pos];
    BlockBodySteps(socket.setup, v, st, ev, if ok then Got(part) else ReadCut(part));
    if !ok {
      return None;
    }
    assert stream[8..8 + length] == part == buf[..];
    return Some(buf[..]);
  }

  /** The clipboard's side of a received text: the EOL conversion works on the NUL-terminated buffer in place. */
  method Paste(text: bytes) returns (pending: Option<bytes>)
    ensures var t := ToLf(CStr(text)); pending == if t == [] then None else Some(t)
  {
    hide CStr, ToLf;
    var data := Terminated(text);
    var length := ConvertToLf(data);
    pending := if length <= 0 then None else Some(CStr(data[..]));
  }

  method Terminated(text: bytes) returns (data: array<byte>)
    ensures fresh(data) && NUL in data[..] && CStr(data[..]) == CStr(text)
  {
    data := new byte[|text| + 1];
    for i := 0 to |text|
      invariant forall j | 0 <= j < i :: data[j] == text[j]
    {
      data[i] := text[i];
    }
    data[|text|] := NUL;
    assert data[..][|text|] == NUL;
    assert data[..] == text + [NUL];
    CStrIs(data[..], CStr(text));
  }

  /** _get_text_common. The text is accepted when the whole announced block came and is UTF-8; the acknowledgement is
      written then only, and nothing else is written. Before version 4 the socket is closed as soon as the block is
      read. */
  method GetTextCommon(v: nat, socket: Socket) returns (accepted: bool, pending: Option<bytes>)
    requires socket.Valid() && socket.valid
    modifies socket
    ensures socket.Valid()
    ensures accepted ==>
      var text := ParseText(socket.setup, socket.inbound[old(socket.pos)..]);
      && text.Some? && !socket.valid
      && (var t := ToLf(CStr(text.value)); pending == if t == [] then None else Some(t))
      && socket.pos == old(socket.pos) + 8 + |text.value|
    ensures !accepted ==> pending == None
    ensures Delivers(socket.schedule) ==>
      (accepted <==> ParseText(socket.setup, socket.inbound[old(socket.pos)..]).Some?)
    ensures socket.sent == old(socket.sent) || (socket.sent == old(socket.sent) + ACK && v >= 4 && accepted)
    ensures v >= 4 && accepted && Delivers(socket.schedule) ==> socket.sent == old(socket.sent) + ACK
    ensures old(socket.at) == TextSize(v) ==> socket.at == Over(v, accepted, socket.valid)
  {
    hide Step, Drive, SentIn, ReceivedIn, Delivers, CStr, ToLf;
    accepted, pending := false, None;
    var data := ReadBlock(v, socket);
    CloseStep(socket.setup, v, true);
    CloseStep(socket.setup, v, false);
    if data == None {
      return;
    }
    if v < 4 {
      socket.CloseSocket();
    }
    if !socket.setup.utf8(data.value) {
      return;
    }
    if v >= 4 {
      var acked := SendAck(socket);
      UnpackSteps(socket.setup, v, true, AckEvent(acked));
      socket.CloseSocket();
    }
    accepted := true;
    pending := Paste(data.value);
  }

  lemma TextOutSteps(setup: Setup, v: nat, t: bytes, ev: Event, ev': Event)
    requires Fits(WantWrite(EncodeSize(|t|)), ev) && Fits(WantWrite(t), ev')
    ensures ev.WriteCut? ==> Step(setup, TextSizeOut(v, t), ev) == Failed(v)
    ensures ev.Wrote? ==>
      Step(setup, Step(setup, TextSizeOut(v, t), ev), ev') == if ev'.Wrote? then AfterSend(v) else Failed(v)
  {
  }

  /** _send_data of the text. */
  method SendTextData(v: nat, socket: Socket, t: bytes) returns (ok: bool)
    requires socket.Valid() && socket.valid && |t| < TWO_63
    modifies socket
    ensures socket.Valid() && socket.valid && socket.pos == old(socket.pos)
    ensures ok ==> socket.sent == old(socket.sent) + (EncodeSize(|t|) + t)
    ensures old(socket.at) == TextSizeOut(v, t) ==> socket.at == if ok then AfterSend(v) else Failed(v)
    ensures Delivers(socket.schedule) ==> ok
  {
    hide Step, Drive, SentIn, ReceivedIn, Delivers, EncodeSize, AfterSend;
    ghost var st := socket.at;
    ok := SendData(socket, t);
    var whole := Wrote(EncodeSize(|t|));
    TextOutSteps(socket.setup, v, t, whole, Wrote(t));
    if !ok {
      if n :| 0 <= n < 8 && socket.at == Step(socket.setup, st, WriteCut(EncodeSize(|t|)[..n])) {
        TextOutSteps(socket.setup, v, t, WriteCut(EncodeSize(|t|)[..n]), Wrote(t));
      } else {
        ghost var n :| 0 <= n < |t|
          && socket.at == Step(socket.setup, Step(socket.setup, st, whole), WriteCut(t[..n]));
        TextOutSteps(socket.setup, v, t, whole, WriteCut(t[..n]));
      }
    }
  }

  /** _send_text_common on the clipboard's buffer of the given length, which is followed by a terminator. */
  method SendTextCommon(v: nat, socket: Socket, buf: array?<byte>, length: nat) returns (ok: bool)
    requires socket.Valid() && socket.valid
    requires buf != null ==> length < buf.Length < TWO_63 && buf[length] == NUL
    modifies socket, buf
    ensures socket.Valid() && (ok <==> !socket.valid)
    ensures !(buf != null && 1 <= length <= socket.setup.maxText) ==> !ok && socket.sent == old(socket.sent)
    ensures buf != null && 1 <= length <= socket.setup.maxText ==>
      var t := ToLf(CStr(old(buf[..length])));
      && (ok ==> t != [] && socket.sent == old(socket.sent) + (EncodeSize(|t|) + t))
      && (t == [] ==> socket.sent == old(socket.sent))
      && (Delivers(socket.schedule) ==> (ok <==> t != []))
    ensures old(socket.at) == TakeText(v) ==> socket.at == Over(v, ok, socket.valid)
    ensures old(socket.pos) <= socket.pos <= old(socket.pos) + (if ok && v >= 4 then 1 else 0)
  {
    hide Step, Drive, SentIn, ReceivedIn, Delivers, EncodeSize, CStr, ToLf;
    TakeSteps(socket.setup, v, None, None);
    if buf == null || length <= 0 || length > socket.setup.maxText {
      socket.NoteTaken(Copied(None));
      return false;
    }
    ghost var clip := buf[..length];
    ClipString(buf[..], length);
    var newLen := ConvertToLf(buf);
    var t := CStr(buf[..]);
    socket.NoteTaken(Copied(if newLen <= 0 then None else Some(t)));
    TakeSteps(socket.setup, v, Some(t), None);
    if newLen <= 0 {
      return false;
    }
    ok := SendTextData(v, socket, t);
    if !ok {
      return;
    }
    if v >= 4 {
      var _ := ReadAck(socket);
    }
    socket.CloseSocket();
    CloseStep(socket.setup, v, true);
  }

  lemma TakeSteps(setup: Setup, v: nat, text: Option<bytes>, items: Option<seq<Item>>)
    ensures Step(setup, TakeText(v), Copied(text)) == if text == None then Failed(v) else TextSizeOut(v, text.value)
    ensures Step(setup, ListFiles(v), Listed(items))
         == if items == None then Failed(v) else StartSending(v, items.value)
  {
  }

  lemma ClipString(buf: bytes, length: nat)
    requires length < |buf| && buf[length] == NUL
    ensures NUL in buf && CStr(buf) == CStr(buf[..length])
  {
    CStrIs(buf, CStr(buf[..length]));
  }

  /** info_v1: the socket is closed whatever was read. */
  method InfoV1(v: nat, socket: Socket) returns (ok: bool)
    requires socket.Valid() && socket.valid && v < 4
    modifies socket
    ensures socket.Valid() && !socket.valid && socket.sent == old(socket.sent)
    ensures ok ==>
      var info := ParseInfo(socket.setup, v, socket.inbound[old(socket.pos)..]);
      info.Some? && NamesServer(v, info.value)
    ensures Delivers(socket.schedule) ==>
      (ok <==> exists d ::
         Announces(socket.inbound[old(socket.pos)..], d) && |d| <= socket.setup.maxText && socket.setup.utf8(d)
         && NamesServer(v, d))
    ensures old(socket.at) == InfoSize(v) ==> socket.at == Over(v, ok, socket.valid)
  {
    hide Step, Drive, SentIn, ReceivedIn, Delivers, InfoMatches, ParseText, ParseInfo, ParseBlock, Announces,
      NamesServer;
    NamedBlock(socket.setup, v, socket.inbound[socket.pos..]);
    var info := ReadBlock(v, socket);
    ok := info.Some? && socket.setup.utf8(info.value) && InfoMatches(v, info.value);
    CloseStep(socket.setup, v, ok);
    socket.CloseSocket();
  }

  /** info_v4: the acknowledgement is written once the name is accepted, and the socket is closed only when that
      worked. */
  method InfoV4(v: nat, socket: Socket) returns (ok: bool)
    requires socket.Valid() && socket.valid && v >= 4
    modifies socket
    ensures socket.Valid() && (ok <==> !socket.valid)
    ensures ok ==>
      var info := ParseInfo(socket.setup, v, socket.inbound[old(socket.pos)..]);
      info.Some? && NamesServer(v, info.value)
    ensures Delivers(socket.schedule) ==>
      (ok <==> exists d ::
         Announces(socket.inbound[old(socket.pos)..], d) && |d| <= socket.setup.maxText && socket.setup.utf8(d)
         && NamesServer(v, d))
    ensures socket.sent == old(socket.sent) + if ok then ACK else []
    ensures old(socket.at) == InfoSize(v) ==> socket.at == Over(v, ok, socket.valid)
  {
    hide Step, Drive, SentIn, ReceivedIn, Delivers, InfoMatches, ParseText, ParseInfo, ParseBlock, Announces,
      NamesServer;
    NamedBlock(socket.setup, v, socket.inbound[socket.pos..]);
    var info := ReadBlock(v, socket);
    ok := info.Some? && socket.setup.utf8(info.value) && InfoMatches(v, info.value);
    if !ok {
      assert socket.sent + [] == socket.sent;
      return;
    }
    ok := SendAck(socket);
    InfoAckStep(socket.setup, v, AckEvent(ok));
    if !ok {
      return;
    }
    CloseStep(socket.setup, v, ok);
    socket.CloseSocket();
  }

  lemma InfoAckStep(setup: Setup, v: nat, ev: Event)
    requires Fits(WantWrite(ACK), ev)
    ensures Step(setup, InfoAck(v), ev) == Over(v, ev.Wrote?, true)
  {
  }
}
