/** Images: _set_filename, _save_image_common and _get_screenshot_common (src/proto/methods.c). */
module ImageMethods {
  import opened Bytes
  import opened Numerals
  import opened Wire
  import opened Session
  import opened NetUtils
  import opened Acks
  import opened Trees
  import opened Paths
  import opened FileSystems
  import opened Mkdirs
  import opened SaveFiles

  const PNG: bytes := [46, 112, 110, 103]  // ".png"

  /** base32_alpha */
  function Base32Digit(d: nat): byte
    requires d < 32
  {
    if d < 10 then 48 + d else 87 + d
  }

  function Base32(n: nat, k: nat): (s: bytes)
    ensures |s| == k
    decreases k
  {
    if k == 0 then [] else Base32(n / 32, k - 1) + [Base32Digit(n % 32)]
  }

  function Power32(k: nat): nat {
    if k == 0 then 1 else 32 * Power32(k - 1)
  }

  const ALPHABET := "0123456789abcdefghijklmnopqrstuv"

  lemma AlphabetAt(d: nat)
    requires d < 32
    ensures Base32Digit(d) == ALPHABET[d] as int
  {
  }

  /** k digits of a number in base 32, with leading zeros. */
  lemma {:induction false} Base32Spelled(n: nat, k: nat)
    requires n < Power32(k)
    ensures Spells(Base32(n, k), ALPHABET, n)
    decreases k
  {
    hide Spells, Base32Digit;
    if k == 0 {
      SpellsNothing(ALPHABET);
    } else {
      AlphabetAt(n % 32);
      Base32Spelled(n / 32, k - 1);
      SpellsSnoc(Base32(n / 32, k - 1), ALPHABET, n / 32, n % 32, Base32Digit(n % 32));
      assert n / 32 * 32 + n % 32 == n;
    }
  }

  /** The name is the time in base 32 with nine digits, and ".png". */
  lemma ImageNameSpelled(millis: nat)
    requires millis < Power32(9)
    ensures var name := ImageName(millis);
            |name| == 13 && Spells(name[..9], ALPHABET, millis) && name[9..] == Ascii(".png")
  {
    hide Base32, Power32, Ascii, Spells;
    Base32Spelled(millis, 9);
    assert ImageName(millis)[..9] == Base32(millis, 9) && ImageName(millis)[9..] == PNG;
    assert PNG == Ascii(".png");
  }

  /** Nine digits of the time in milliseconds. */
  function ImageName(millis: nat): bytes {
    Base32(millis, 9) + PNG
  }

  lemma {:induction false} Base32Zero(k: nat)
    ensures Base32(0, k) == seq(k, _ => 48)
  {
    if k > 0 {
      Base32Zero(k - 1);
    }
  }

  lemma {:induction false} Base32Injective(a: nat, b: nat, k: nat)
    requires a < Power32(k) && b < Power32(k) && Base32(a, k) == Base32(b, k)
    ensures a == b
    decreases k
  {
    if k > 0 {
      var s, t := Base32(a, k), Base32(b, k);
      assert s[..k - 1] == Base32(a / 32, k - 1) && t[..k - 1] == Base32(b / 32, k - 1);
      assert s[k - 1] == t[k - 1];
      Base32Injective(a / 32, b / 32, k - 1);
    }
  }

  /** Images saved at different times have different names, and every name is one proper file name that does not
      start with a dot. */
  lemma ImageNames(a: nat, b: nat)
    requires a < Power32(9) && b < Power32(9)
    ensures ImageName(a) == ImageName(b) <==> a == b
    ensures ProperName(ImageName(a)) && ImageName(a)[0] != DOT
  {
    hide Base32, Power32, ProperName;
    assert ImageName(a)[..9] == Base32(a, 9) && ImageName(b)[..9] == Base32(b, 9);
    if ImageName(a) == ImageName(b) {
      Base32Injective(a, b, 9);
    }
    Base32Digits(a, 9);
    DigitsProper(Base32(a, 9));
  }

  lemma DigitsProper(s: bytes)
    requires |s| == 9 && forall i | 0 <= i < 9 :: 48 <= s[i] <= 57 || 97 <= s[i] <= 118
    ensures ProperName(s + PNG) && (s + PNG)[0] != DOT
  {
    assert forall i | 0 <= i < 13 :: (s + PNG)[i] == if i < 9 then s[i] else PNG[i - 9];
  }

  lemma {:induction false} Base32Digits(n: nat, k: nat)
    ensures forall i | 0 <= i < k :: 48 <= Base32(n, k)[i] <= 57 || 97 <= Base32(n, k)[i] <= 118
    decreases k
  {
    if k > 0 {
      Base32Digits(n / 32, k - 1);
    }
  }

  /** _set_filename: the digits replace the zeros from the ninth place backwards, as many as the time has. */
  method SetFilename(millis: nat) returns (filename: bytes)
    requires millis < Power32(9)
    ensures filename == ImageName(millis)
    ensures |filename| == 13 && Spells(filename[..9], ALPHABET, millis) && filename[9..] == Ascii(".png")
  {
    hide Spells, Ascii, Base32, Power32, Base32Digit;
    var name: bytes := seq(9, _ => 48);
    var tm: nat, ind := millis, 8;
    NineDigits(millis, 0, tm, name);
    while tm > 0
      invariant -1 <= ind <= 8 && |name| == 9
      invariant tm < Power32((ind + 1) as nat)
      invariant name[..ind + 1] == seq(ind + 1, _ => 48)
      invariant Base32(millis, 9) == Base32(tm, (ind + 1) as nat) + name[ind + 1..]
      decreases tm
    {
      DigitStep(tm, (ind + 1) as nat);
      name := name[ind := Base32Digit(tm % 32)];
      assert name[ind..] == [Base32Digit(tm % 32)] + name[ind + 1..];
      tm := tm / 32;
      ind := ind - 1;
    }
    Base32Zero((ind + 1) as nat);
    assert name == name[..ind + 1] + name[ind + 1..];
    ImageNameSpelled(millis);
    return name + PNG;
  }

  lemma NineDigits(millis: nat, ind: nat, tm: nat, name: bytes)
    requires tm == millis && |name| == 9
    ensures Base32(millis, 9) == Base32(tm, 9) + name[9..]
  {
  }

  lemma DigitStep(tm: nat, k: nat)
    requires 0 < tm < Power32(k)
    ensures k > 0 && tm / 32 < Power32(k - 1) && Base32(tm, k) == Base32(tm / 32, k - 1) + [Base32Digit(tm % 32)]
  {
  }

  /** An image name leads to an entry of the working directory. */
  lemma ImagePlace(fs: FileSystem, millis: nat)
    requires fs.Valid() && millis < Power32(9)
    ensures var n := ImageName(millis);
            && Names(fs, n, fs.cwd + [n])
            && Resolve(fs.root, fs.cwd, n) == Some(fs.cwd + [n])
            && n[0] != DOT
  {
    hide Base32, Power32, Proper, Enumerates;
    var n := ImageName(millis);
    ImageNames(millis, millis);
    SplitWhole(n);
    SoleComponent(fs.root, fs.cwd, n);
  }

  lemma SoleComponent(root: Node, cwd: Path, n: bytes)
    requires ProperName(n) && DirAt(root, cwd) && Split(n) == [n]
    ensures Downward(n) && Clean(Split(n)) == [n] && Resolve(root, cwd, n) == Some(cwd + [n])
  {
    assert [n][1..] == [];
    assert Walk(root, cwd + [n], []) == Some(cwd + [n]);
    NoSeparatorFirst(n);
  }

  lemma NoSeparatorFirst(n: bytes)
    requires n != [] && SLASH !in n
    ensures n[0] != SLASH
  {
    assert n[0] in n;
  }

  /** The bytes of the image a stream begins with. */
  function ParseImage(setup: Setup, v: nat, s: bytes): Option<bytes> {
    match ParsePayload(setup, v, s)
    case Some(Payload(File(data), _)) => Some(data)
    case _ => None
  }

  lemma ImageParsed(setup: Setup, v: nat, s: bytes)
    ensures var payload, data := ParsePayload(setup, v, s), ParseImage(setup, v, s);
            && (data.Some? <==> payload.Some? && payload.value.leaf.File?)
            && (data.Some? ==> payload == Some(Payload(File(data.value), 8 + |data.value|)))
  {
    hide DecodeSize;
  }

  /** _save_image_common. Only the file of that name changes, and an existing one is replaced; on success it holds
      the announced bytes, and on failure no part of an image stays behind. The acknowledgement is written on success
      only, and the socket is closed in every case. */
  method SaveImageCommon(v: nat, socket: Socket, fs: FileSystem, millis: nat) returns (ok: bool, name: bytes)
    requires socket.Valid() && socket.valid && fs.Valid() && millis < Power32(9)
    modifies socket, fs
    ensures socket.Valid() && !socket.valid && fs.Valid() && name == ImageName(millis)
    ensures ChangedAt(old(fs.root), fs.root, fs.cwd + [name])
    ensures ok ==>
      var data := ParseImage(socket.setup, v, socket.inbound[old(socket.pos)..]);
      && data.Some? && socket.pos == old(socket.pos) + 8 + |data.value|
      && Get(fs.root, fs.cwd + [name]) == Some(File(data.value))
    ensures socket.sent == old(socket.sent) || (socket.sent == old(socket.sent) + ACK && v >= 4 && ok)
    ensures v >= 4 && ok && Delivers(socket.schedule) ==> socket.sent == old(socket.sent) + ACK
    ensures Delivers(socket.schedule) && fs.Reliable() && Get(old(fs.root), fs.cwd + [name]) == None ==>
      (ok <==> ParseImage(socket.setup, v, socket.inbound[old(socket.pos)..]).Some?)
    ensures fs.Reliable() && !ok ==> fs.root == old(fs.root) || Cleared(old(fs.root), fs.root, fs.cwd + [name])
    ensures fs.Reliable() && !ok && Get(old(fs.root), fs.cwd + [name]) == None ==> fs.root == old(fs.root)
    ensures old(socket.at) == FileSize(v, 0) ==> socket.at == Over(v, ok, socket.valid)
  {
    hide Step, Drive, SentIn, ReceivedIn, Delivers, Put, Get, Drop, CanPut, Proper, Split, Clean, Walk, ChangedAt,
      Cleared, Enumerates, Base32, Power32, ImageName, Names, Resolve, NulFree, ProperName, DecodeSize, ParseImage,
      ParsePayload;
    name := SetFilename(millis);
    ImagePlace(fs, millis);
    ImageParsed(socket.setup, v, socket.inbound[socket.pos..]);
    ok := SaveFileCommon(v, socket, fs, name, fs.cwd + [name]);
    CloseStep(socket.setup, v, ok);
    if v >= 4 && ok {
      var acked := SendAck(socket);
      UnpackSteps(socket.setup, v, ok, AckEvent(acked));
    }
    socket.CloseSocket();
  }

  lemma DisplaySteps(setup: Setup, v: nat, ev: Event, ev': Event)
    requires Fits(WantWrite(EncodeSize(setup.display)), ev) && Fits(WantRead(1), ev')
    ensures ev.WriteCut? ==> Step(setup, DisplayOut(v), ev) == Failed(v)
    ensures ev.Wrote? ==>
      Step(setup, Step(setup, DisplayOut(v), ev), ev')
      == if ev'.Got? && ev'.data[0] == STATUS_OK then FileSize(v, 0) else Failed(v)
  {
    hide EncodeSize, DecodeSize, InfoMatches;
  }

  /** The part of _get_screenshot_common before the image: the display is asked for, and must be granted. */
  method SelectDisplay(v: nat, socket: Socket) returns (ok: bool)
    requires socket.Valid() && socket.valid && socket.setup.display < TWO_31
    modifies socket
    ensures socket.Valid() && socket.valid && old(socket.pos) <= socket.pos <= |socket.inbound|
    ensures ok ==>
      && socket.sent == old(socket.sent) + EncodeSize(socket.setup.display)
      && socket.pos == old(socket.pos) + 1 && socket.inbound[old(socket.pos)] == STATUS_OK
    ensures Delivers(socket.schedule) ==>
      (ok <==> old(socket.pos) < |socket.inbound| && socket.inbound[old(socket.pos)] == STATUS_OK)
    ensures old(socket.at) == DisplayOut(v) ==> socket.at == if ok then FileSize(v, 0) else Failed(v)
  {
    hide Step, Drive, SentIn, ReceivedIn, Delivers, EncodeSize;
    ghost var st, start := socket.at, socket.pos;
    var setup := socket.setup;
    ok := socket.SendSize(setup.display);
    ghost var ev := Wrote(EncodeSize(setup.display));
    if !ok {
      ghost var n :| 0 <= n < 8 && socket.at == Step(setup, st, WriteCut(EncodeSize(setup.display)[..n]));
      DisplaySteps(setup, v, WriteCut(EncodeSize(setup.display)[..n]), ReadCut([]));
      return;
    }
    var status := new byte[1];
    ok := socket.ReadSock(status, 1);
    ghost var part := socket.inbound[start..socket.pos];
    DisplaySteps(setup, v, ev, if ok then Got(part) else ReadCut(part));
    if ok {
      assert status[..1][0] == socket.inbound[start];
      ok := status[0] == STATUS_OK;
    }
  }

  /** _get_screenshot_common. Without the grant of the display no file changes; after it, only the image's does. */
  method GetScreenshotCommon(v: nat, socket: Socket, fs: FileSystem, millis: nat) returns (ok: bool, name: bytes)
    requires socket.Valid() && socket.valid && fs.Valid() && millis < Power32(9) && socket.setup.display < TWO_31
    modifies socket, fs
    ensures socket.Valid() && fs.Valid() && name == ImageName(millis)
    ensures fs.root == old(fs.root) || ChangedAt(old(fs.root), fs.root, fs.cwd + [name])
    ensures !(old(socket.pos) < |socket.inbound| && socket.inbound[old(socket.pos)] == STATUS_OK) ==>
      !ok && fs.root == old(fs.root)
    ensures fs.Reliable() && !ok ==> fs.root == old(fs.root) || Cleared(old(fs.root), fs.root, fs.cwd + [name])
    ensures fs.Reliable() && !ok && Get(old(fs.root), fs.cwd + [name]) == None ==> fs.root == old(fs.root)
    ensures ok ==>
      && old(socket.pos) < socket.pos <= |socket.inbound| && socket.inbound[old(socket.pos)] == STATUS_OK
      && var data := ParseImage(socket.setup, v, socket.inbound[old(socket.pos) + 1..]);
      && data.Some? && Get(fs.root, fs.cwd + [name]) == Some(File(data.value)) && !socket.valid
    ensures ok ==> old(socket.sent) + EncodeSize(socket.setup.display) <= socket.sent
    ensures ok && Delivers(socket.schedule) ==>
      socket.sent == old(socket.sent) + EncodeSize(socket.setup.display) + if v >= 4 then ACK else []
    ensures Delivers(socket.schedule) && fs.Reliable() && Get(old(fs.root), fs.cwd + [name]) == None ==>
      (ok <==>
        && old(socket.pos) < |socket.inbound| && socket.inbound[old(socket.pos)] == STATUS_OK
        && ParseImage(socket.setup, v, socket.inbound[old(socket.pos) + 1..]).Some?)
    ensures old(socket.at) == DisplayOut(v) ==> socket.at == Over(v, ok, socket.valid)
  {
    hide Step, Drive, SentIn, ReceivedIn, Delivers, Get, ChangedAt, Cleared, Proper, Enumerates, Base32, Power32,
      EncodeSize, ParsePayload;
    name := ImageName(millis);
    ok := SelectDisplay(v, socket);
    if !ok {
      return;
    }
    ok, name := SaveImageCommon(v, socket, fs, millis);
  }
}
