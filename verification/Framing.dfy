/** The framing of a file list: what a receiver reads is what a sender wrote, and receiving is storing what was read
    (src/proto/methods.c). */
module Framing {
  import opened Bytes
  import opened Wire
  import opened Session
  import SessionLaws
  import opened Trees
  import opened Mkdirs
  import opened ReceivedNames
  import opened ReceiveFiles
  import opened SendFiles

  /** A value and how many bytes of the stream it takes. */
  datatype Parsed<T> = Parsed(value: T, length: nat)

  // What an acknowledged payload is, in terms of what a server encodes.

  /** An entry that the limits of the client allow. */
  predicate Allowed(s: Setup, v: nat, item: Item) {
    && 1 <= |item.name| <= 2048
    && match item
       case FileItem(_, data) => |data| <= s.maxFileSize && |data| < TWO_63
       case DirItem(_) => v >= 3 && -1 <= s.maxFileSize
  }

  lemma BodySpelled(s: Setup, v: nat, b: bytes) returns (leaf: Option<bytes>)
    requires SessionLaws.WholeBody(s, v, b)
    ensures leaf.Some? ==>
      |leaf.value| <= s.maxFileSize && |leaf.value| < TWO_63 && b == EncodeSize(|leaf.value|) + leaf.value
    ensures leaf == None ==> v >= 3 && -1 <= s.maxFileSize && b == EncodeSize(-1)
  {
    hide EncodeSize, DecodeSize;
    SizeBytesRoundTrip(b[..8]);
    assert b == b[..8] + b[8..];
    if DecodeSize(b[..8]) == -1 {
      leaf := None;
      assert |b| == 8 ==> b[8..] == [];
      assert b == b[..8] || |b| != 8;
    } else {
      leaf := Some(b[8..]);
    }
  }

  lemma EntrySpelled(s: Setup, v: nat, e: bytes) returns (item: Item)
    requires SessionLaws.WholeEntry(s, v, e)
    ensures Allowed(s, v, item) && e == EncodeItem(item)
  {
    hide EncodeSize, DecodeSize, SessionLaws.WholeBody;
    var i :| 0 <= i <= |e| && SessionLaws.WholeName(e[..i]) && SessionLaws.WholeBody(s, v, e[i..]);
    var head := e[..i];
    SizeBytesRoundTrip(head[..8]);
    var name := head[8..];
    assert head == EncodeSize(|name|) + name;
    var leaf := BodySpelled(s, v, e[i..]);
    item := if leaf.Some? then FileItem(name, leaf.value) else DirItem(name);
    assert e == head + e[i..];
    ItemSpelled(item, head, e[i..]);
  }

  lemma ItemSpelled(item: Item, head: bytes, body: bytes)
    requires head == EncodeSize(|item.name|) + item.name
    requires body == match item
                     case FileItem(_, data) => EncodeSize(|data|) + data
                     case DirItem(_) => EncodeSize(-1)
    ensures EncodeItem(item) == head + body
  {
    hide EncodeSize;
  }

  lemma {:induction false} EntriesSpelled(s: Setup, v: nat, q: bytes, k: nat) returns (items: seq<Item>)
    requires SessionLaws.WholeEntries(s, v, q, k)
    ensures |items| == k && q == EncodeItems(items) && forall item | item in items :: Allowed(s, v, item)
    decreases k
  {
    hide SessionLaws.WholeEntry, EncodeItem, Allowed;
    if k == 0 {
      items := [];
    } else {
      var i :| 0 <= i <= |q| && SessionLaws.WholeEntries(s, v, q[..i], k - 1) && SessionLaws.WholeEntry(s, v, q[i..]);
      var front := EntriesSpelled(s, v, q[..i], k - 1);
      var item := EntrySpelled(s, v, q[i..]);
      items := front + [item];
      EncodeSnoc(front, item);
      assert q == q[..i] + q[i..];
    }
  }

  /** What a server encodes for a request, within the limits of the client: a text, a list of files and directories, or
      an image after the grant of its display if one was asked for. */
  ghost predicate Encoded(s: Setup, v: nat, p: bytes) {
    if s.request in {METHOD_GET_TEXT, METHOD_INFO} then
      exists d :: p == EncodeSize(|d|) + d && 1 <= |d| <= s.maxText && |d| < TWO_63 && s.utf8(d)
    else if s.request == METHOD_GET_FILE then
      exists items ::
        && 1 <= |items| <= s.maxFileCount && |items| < TWO_63 && p == EncodeSize(|items|) + EncodeItems(items)
        && forall item | item in items :: Allowed(s, v, item)
    else
      var granted := if s.request == METHOD_GET_SCREENSHOT then [STATUS_OK] else [];
      || p == granted + EncodeSize(-1)
      || exists d :: p == granted + (EncodeSize(|d|) + d) && |d| <= s.maxFileSize && |d| < TWO_63
  }

  lemma PayloadSpelled(s: Setup, v: nat, p: bytes)
    requires SessionLaws.WholePayload(s, v, p)
    ensures Encoded(s, v, p)
  {
    hide EncodeSize, DecodeSize, SessionLaws.WholeBody, EncodeItems, Allowed, InfoMatches;
    if s.request in {METHOD_GET_TEXT, METHOD_INFO} {
      SizeBytesRoundTrip(p[..8]);
      assert p == p[..8] + p[8..];
      assert p == EncodeSize(|p[8..]|) + p[8..];
    } else if s.request == METHOD_GET_FILE {
      SizeBytesRoundTrip(p[..8]);
      assert p == p[..8] + p[8..];
      var items := EntriesSpelled(s, v, p[8..], DecodeSize(p[..8]));
    } else {
      var i :| 0 <= i <= |p| && SessionLaws.AfterName(s, v, p[..i], 0) && SessionLaws.WholeBody(s, v, p[i..]);
      var leaf := BodySpelled(s, v, p[i..]);
      assert p == p[..i] + p[i..];
    }
  }

  /** Whatever version 4 acknowledges was received whole: what came since the grant is exactly what a server encodes. */
  lemma AcknowledgedWhole(s: Setup, log: seq<Event>, i: nat)
    requires i < |log| && !Drive(s, log).Astray? && SessionLaws.Acknowledging(Drive(s, log[..i]))
    ensures var v := Drive(s, log[..i]).v;
            v >= 4 && Encoded(s, v, SessionLaws.Payload(s, log[..i]))
  {
    hide Drive, Encoded, SessionLaws.Payload, SessionLaws.WholePayload;
    SessionLaws.AckDiscipline(s, log, i);
    PayloadSpelled(s, Drive(s, log[..i]).v, SessionLaws.Payload(s, log[..i]));
  }

  /** Size and data; -1 announces a directory. */
  function ParseBody(name: bytes, s: bytes): Option<Parsed<Item>> {
    if |s| < 8 then None
    else
      var size := DecodeSize(s[..8]);
      if size == -1 then Some(Parsed(DirItem(name), 8))
      else if size < 0 || |s| < 8 + size then None
      else Some(Parsed(FileItem(name, s[8..8 + size]), 8 + size))
  }

  /** One entry. */
  function ParseItem(s: bytes): (p: Option<Parsed<Item>>)
    ensures p.Some? ==> 0 < p.value.length <= |s|
  {
    if |s| < 8 then None
    else
      var n := DecodeSize(s[..8]);
      if n < 0 || |s| < 8 + n then None
      else
        match ParseBody(s[8..8 + n], s[8 + n..])
        case None => None
        case Some(b) => Some(Parsed(b.value, 8 + n + b.length))
  }

  function ParseItems(s: bytes, count: nat): (p: Option<Parsed<seq<Item>>>)
    ensures p.Some? ==> |p.value.value| == count && p.value.length <= |s|
    decreases count
  {
    if count == 0 then Some(Parsed([], 0))
    else
      match ParseItem(s)
      case None => None
      case Some(first) =>
        match ParseItems(s[first.length..], count - 1)
        case None => None
        case Some(rest) => Some(Parsed([first.value] + rest.value, first.length + rest.length))
  }

  /** Count and entries. */
  function ParseTransfer(s: bytes): Option<Parsed<seq<Item>>> {
    if |s| < 8 || DecodeSize(s[..8]) < 0 then None
    else
      match ParseItems(s[8..], DecodeSize(s[..8]))
      case None => None
      case Some(items) => Some(Parsed(items.value, 8 + items.length))
  }

  lemma BodyRoundTrip(item: Item, rest: bytes)
    requires Sized(item)
    ensures var e := EncodeSize(AnnouncedSize(item)) + if item.FileItem? then item.data else [];
            ParseBody(item.name, e + rest) == Some(Parsed(item, |e|))
  {
    hide DecodeSize, EncodeSize;
    var a := EncodeSize(AnnouncedSize(item));
    SizeRoundTrip(AnnouncedSize(item));
    match item {
      case FileItem(name, data) =>
        var s := (a + data) + rest;
        assert s[..8] == a && s[8..8 + |data|] == data;
      case DirItem(name) =>
        assert ((a + []) + rest)[..8] == a;
    }
  }

  lemma ItemRoundTrip(item: Item, rest: bytes)
    requires Sized(item)
    ensures ParseItem(EncodeItem(item) + rest) == Some(Parsed(item, |EncodeItem(item)|))
  {
    hide DecodeSize, EncodeSize, ParseBody;
    var a, n := EncodeSize(|item.name|), |item.name|;
    var e := EncodeSize(AnnouncedSize(item)) + if item.FileItem? then item.data else [];
    var s := EncodeItem(item) + rest;
    SizeRoundTrip(n);
    BodyRoundTrip(item, rest);
    assert s[..8] == a && s[8..8 + n] == item.name && s[8 + n..] == e + rest;
  }

  lemma {:induction false} ItemsRoundTrip(items: seq<Item>, rest: bytes)
    requires forall item | item in items :: Sized(item)
    ensures ParseItems(EncodeItems(items) + rest, |items|) == Some(Parsed(items, |EncodeItems(items)|))
    decreases |items|
  {
    hide EncodeItem, ParseItem, Sized;
    if items != [] {
      var a, b := EncodeItem(items[0]), EncodeItems(items[1..]);
      ItemRoundTrip(items[0], b + rest);
      ItemsRoundTrip(items[1..], rest);
      assert EncodeItems(items) + rest == a + (b + rest);
      assert (a + (b + rest))[|a|..] == b + rest;
      assert [items[0]] + items[1..] == items;
    }
  }

  /** For every list of files and directories, what version 2 and later write is read back as the same list in the
      same order, and exactly the bytes written are used, whatever follows them. */
  lemma TransferRoundTrip(v: nat, items: seq<Item>, rest: bytes)
    requires v >= 2 && |items| < TWO_63 && forall item | item in items :: Sized(item)
    ensures ParseTransfer(EncodeTransfer(v, items) + rest) == Some(Parsed(items, |EncodeTransfer(v, items)|))
  {
    hide EncodeItems, ParseItems, DecodeSize, EncodeSize, Sized;
    var s := EncodeTransfer(v, items) + rest;
    SizeRoundTrip(|items|);
    ItemsRoundTrip(items, rest);
    assert s[..8] == EncodeSize(|items|) && s[8..] == EncodeItems(items) + rest;
  }

  /** Different lists are written differently. */
  lemma TransferInjective(v: nat, items: seq<Item>, others: seq<Item>)
    requires v >= 2 && |items| < TWO_63 && |others| < TWO_63
    requires (forall item | item in items :: Sized(item)) && (forall item | item in others :: Sized(item))
    requires EncodeTransfer(v, items) == EncodeTransfer(v, others)
    ensures items == others
  {
    hide EncodeTransfer, ParseTransfer;
    TransferRoundTrip(v, items, []);
    TransferRoundTrip(v, others, []);
  }

  // The receiver

  function LeafOf(item: Item): Node {
    match item
    case FileItem(_, data) => File(data)
    case DirItem(_) => Dir(map[])
  }

  /** What an entry adds to the temp directory; None when it is refused for its name, its size, or what is there. */
  function Accept(setup: Setup, v: nat, hex: bytes, m: Entries, item: Item): Option<Entries>
    requires ProperName(hex)
  {
    if item.name == [] || |item.name| > MAX_FILE_NAME_LENGTH || AnnouncedSize(item) > setup.maxFileSize then None
    else
      var n := CleanedName(v, item.name);
      var place := PlaceFor(setup.utf8, v, hex, item.name);
      if place == None || (item.DirItem? && v < 3) then None
      else if v > 1 && !ParentFits(hex, m, n) then None
      else if item.DirItem? && |NewPath(hex, n)| > MAX_PATH then None
      else
        Confinement(setup.utf8, v, hex, item.name);
        Insert(m, place.value, LeafOf(item))
  }

  function AcceptAll(setup: Setup, v: nat, hex: bytes, m: Entries, items: seq<Item>): Option<Entries>
    requires ProperName(hex)
    decreases |items|
  {
    if items == [] then Some(m)
    else
      match Accept(setup, v, hex, m, items[0])
      case None => None
      case Some(m') => AcceptAll(setup, v, hex, m', items[1..])
  }

  /** Receiving one entry is parsing it and storing it, for every stream. */
  lemma ReceiveIsAccept(setup: Setup, v: nat, hex: bytes, m: Entries, s: bytes)
    requires ProperName(hex)
    ensures ReceiveOne(setup, v, hex, m, s)
         == match ParseItem(s)
            case None => None
            case Some(p) =>
              match Accept(setup, v, hex, m, p.value)
              case None => None
              case Some(m') => Some(Received(m', p.length))
  {
    hide PlaceFor, CleanedName, ParentFits, Insert, NewPath, DecodeSize;
  }

  /** Receiving a list is parsing entries and storing them one after the other: when the whole stream parses, the
      result is that of storing the parsed list, and a stream that does not parse is never accepted. */
  lemma {:induction false} ReceiveIsAcceptAll(setup: Setup, v: nat, hex: bytes, m: Entries, s: bytes, count: nat)
    requires ProperName(hex)
    ensures ReceiveMany(setup, v, hex, m, s, count)
         == match ParseItems(s, count)
            case None => None
            case Some(p) =>
              match AcceptAll(setup, v, hex, m, p.value)
              case None => None
              case Some(m') => Some(Received(m', p.length))
    decreases count
  {
    hide ReceiveOne, ParseItem, Accept, ParseItems, AcceptAll, ProperName, DecodeSize;
    FirstParsed(s, count);
    if count > 0 {
      ReceiveIsAccept(setup, v, hex, m, s);
      if ParseItem(s).Some? && ParseItems(s[ParseItem(s).value.length..], count - 1).Some? {
        var first := ParseItem(s).value;
        FirstAccepted(setup, v, hex, m, first.value, ParseItems(s[first.length..], count - 1).value.value);
      }
      if ParseItem(s).Some? && Accept(setup, v, hex, m, ParseItem(s).value.value).Some? {
        var first := ParseItem(s).value;
        ReceiveIsAcceptAll(setup, v, hex, Accept(setup, v, hex, m, first.value).value, s[first.length..], count - 1);
      }
    } else {
      NoneAccepted(setup, v, hex, m);
    }
  }

  lemma FirstParsed(s: bytes, count: nat)
    ensures count == 0 ==> ParseItems(s, count) == Some(Parsed([], 0))
    ensures count > 0 && ParseItem(s) == None ==> ParseItems(s, count) == None
    ensures count > 0 && ParseItem(s).Some? ==>
      var first := ParseItem(s).value;
      && first.length <= |s|
      && ParseItems(s, count) == match ParseItems(s[first.length..], count - 1)
                                 case None => None
                                 case Some(rest) => Some(Parsed([first.value] + rest.value, first.length + rest.length))
  {
    hide ParseItem;
  }

  lemma FirstAccepted(setup: Setup, v: nat, hex: bytes, m: Entries, item: Item, rest: seq<Item>)
    requires ProperName(hex)
    ensures AcceptAll(setup, v, hex, m, [item] + rest)
         == match Accept(setup, v, hex, m, item)
            case None => None
            case Some(m') => AcceptAll(setup, v, hex, m', rest)
  {
    hide Accept, ProperName;
    assert ([item] + rest)[0] == item && ([item] + rest)[1..] == rest;
  }

  lemma NoneAccepted(setup: Setup, v: nat, hex: bytes, m: Entries)
    requires ProperName(hex)
    ensures AcceptAll(setup, v, hex, m, []) == Some(m)
  {
  }
}
