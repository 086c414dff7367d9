/** Session duality: every exchange between the client and the mock server runs to its end. */
module Exchanges {
  import opened Bytes
  import opened Wire
  import opened Session
  import opened MockServer
  import opened Duality

  function Joined(out: seq<bytes>): bytes {
    if out == [] then [] else out[0] + Joined(out[1..])
  }

  function AfterSent(v: nat): Server {
    if v < 4 then SDone(v, true) else SReadAck(v)
  }

  lemma SendStep(k: Stock, v: nat, out: seq<bytes>)
    requires out != []
    ensures ServerWants(k, SSend(v, out)) == WantWrite(out[0])
    ensures ServerNext(k, SSend(v, out), Wrote(out[0])) == if |out| > 1 then SSend(v, out[1..]) else AfterSent(v)
  {
  }

  /** The server writes everything it has to send. */
  lemma {:induction false} ServerSendsAll(w: World, x: Net, v: nat, out: seq<bytes>)
    requires x.r == SSend(v, out) && out != []
    requires Ends(w, Net(x.c, x.k, AfterSent(v), x.j, x.c2s, x.s2c + Joined(out)))
    ensures Ends(w, x)
    decreases |out|
  {
    hide ServerWants, ServerNext, Ends;
    SendStep(w.stock, v, out);
    if |out| > 1 {
      assert (x.s2c + out[0]) + Joined(out[1..]) == x.s2c + Joined(out);
      ServerSendsAll(w, Net(x.c, x.k, SSend(v, out[1..]), x.j, x.c2s, x.s2c + out[0]), v, out[1..]);
      ServerWrites(w, x, out[0], SSend(v, out[1..]));
    } else {
      assert out[1..] == [] && Joined([]) == [];
      assert Joined(out) == out[0] + Joined(out[1..]) == out[0];
      ServerWrites(w, x, out[0], AfterSent(v));
    }
  }

  /** The server has written everything: it is done, or it waits for the acknowledgement. */
  predicate ServerIdle(x: Net, v: nat) {
    x.r == AfterSent(v) && x.c2s == []
  }

  lemma IdleWaits(w: World, x: Net, v: nat)
    requires ServerIdle(x, v)
    ensures ServerEvent(w, x) == None
  {
  }

  lemma ClientFails(w: World, x: Net, v: nat)
    requires ServerIdle(x, v) && x.c == Failed(v) && !Smooth(w)
    ensures Ends(w, x)
  {
    hide Smooth, ServerEvent, Ends;
    IdleWaits(w, x, v);
    ClientIsThrough(w, x);
  }

  lemma AckStep(s: Setup, v: nat)
    ensures Wants(s, AckOut(v)) == WantWrite(ACK) && Next(s, AckOut(v), Wrote(ACK)) == Over(v, true, true)
    ensures Wants(s, InfoAck(v)) == WantWrite(ACK) && Next(s, InfoAck(v), Wrote(ACK)) == Over(v, true, true)
  {
    hide EncodeSize, DecodeSize, InfoMatches;
  }

  lemma ServerAckStep(k: Stock, v: nat)
    ensures ServerWants(k, SReadAck(v)) == WantRead(1) && ServerNext(k, SReadAck(v), Got(ACK)) == SDone(v, true)
  {
    hide EncodeSize, DecodeSize, InfoMatches;
  }

  lemma DoneIsIdle(w: World, x: Net)
    requires x.r.SDone?
    ensures ServerEvent(w, x) == None
  {
  }

  /** The acknowledgement goes across and both ends are through. */
  lemma AckExchanged(w: World, x: Net, v: nat)
    requires ServerIdle(x, v) && v >= 4 && x.c == AckOut(v) && x.s2c == []
    ensures Ends(w, x)
  {
    hide Smooth, ServerEvent, Ends, Wants, Next, ServerWants, ServerNext;
    var z := Net(Over(v, true, true), x.k, SDone(v, true), x.j, [], []);
    DoneIsIdle(w, z);
    ClientIsThrough(w, z);
    AckStep(w.setup, v);
    ServerAckStep(w.stock, v);
    var y := Net(Over(v, true, true), x.k, SReadAck(v), x.j, ACK, []);
    assert ACK + [] == ACK == [] + ACK;
    ServerReads(w, y, ACK, [], SDone(v, true));
    ClientWrites(w, x, ACK, Over(v, true, true));
  }

  /** A successful request for data, from the last thing saved or read on. */
  lemma Accepted(w: World, x: Net, v: nat)
    requires ServerIdle(x, v) && x.s2c == []
    requires x.c == if v >= 4 then AckOut(v) else Over(v, true, true)
    ensures Ends(w, x)
  {
    hide Smooth, ServerEvent, Ends;
    if v >= 4 {
      AckExchanged(w, x, v);
    } else {
      IdleWaits(w, x, v);
      ClientIsThrough(w, x);
    }
  }

  lemma TextSteps(s: Setup, v: nat, t: bytes)
    requires |t| < TWO_63
    ensures Wants(s, TextSize(v)) == WantRead(|EncodeSize(|t|)|)
    ensures var fits := 0 < |t| <= s.maxText;
            && Next(s, TextSize(v), Got(EncodeSize(|t|))) == (if fits then TextBody(v, |t|) else Failed(v))
            && Wants(s, TextBody(v, |t|)) == WantRead(|t|)
            && Next(s, TextBody(v, |t|), Got(t))
               == if !s.utf8(t) then Failed(v) else if v >= 4 then AckOut(v) else Over(v, true, true)
  {
    hide EncodeSize, DecodeSize, InfoMatches;
    SizeRoundTrip(|t|);
  }

  lemma GetText(w: World, x: Net, v: nat, t: bytes)
    requires ServerIdle(x, v) && x.c == TextSize(v) && x.s2c == EncodeSize(|t|) + t && |t| < TWO_63
    requires Smooth(w) ==> TakesText(w.setup, t)
    ensures Ends(w, x)
  {
    hide Smooth, ServerEvent, Ends, Wants, Next, AfterSent, EncodeSize;
    TextSteps(w.setup, v, t);
    var next := Next(w.setup, TextSize(v), Got(EncodeSize(|t|)));
    var y := Net(next, x.k, x.r, x.j, [], t);
    if next == Failed(v) {
      ClientFails(w, y, v);
    } else {
      var last := Next(w.setup, TextBody(v, |t|), Got(t));
      var z := Net(last, x.k, x.r, x.j, [], []);
      if last == Failed(v) {
        ClientFails(w, z, v);
      } else {
        Accepted(w, z, v);
      }
      assert t + [] == t;
      ClientReads(w, y, t, [], last);
    }
    ClientReads(w, x, EncodeSize(|t|), t, next);
  }

  // Files and images

  /** Whatever the client's luck has been. */
  ghost predicate EndsAnyway(w: World, c: State, r: Server, j: nat, c2s: bytes, s2c: bytes) {
    forall k: nat :: Ends(w, Net(c, k, r, j, c2s, s2c))
  }

  lemma BodySteps(s: Setup, v: nat, left: nat, n: nat, d: bytes)
    requires n > 0 && |d| == Min(n, FILE_BUF_SZ)
    ensures Wants(s, Body(v, left, n)) == WantRead(|d|)
    ensures Next(s, Body(v, left, n), Got(d)) == Store(v, left, n - |d|)
    ensures Wants(s, Store(v, left, n)) == WantLocal && Wants(s, Open(v, left, n)) == WantLocal
    ensures forall ok: bool ::
      Next(s, Store(v, left, n - |d|), Local(ok)) == if ok then AtBody(v, left, n - |d|) else Failed(v)
  {
    hide EncodeSize, DecodeSize, InfoMatches, StartSending, AtItem, AtData, AfterSave, AtBody, AtSize, Dispatch,
      Enter, KnownMethod, AfterSend;
  }

  /** The data of one file, in the blocks the client asks for. */
  lemma {:induction false} ClientCopies(w: World, x: Net, v: nat, left: nat, n: nat, rest: bytes)
    requires ServerIdle(x, v) && x.c == AtBody(v, left, n) && n <= |x.s2c| && x.s2c[n..] == rest
    requires EndsAnyway(w, AfterSave(v, left), x.r, x.j, [], rest)
    ensures Ends(w, x)
    decreases n
  {
    hide Smooth, ServerEvent, Ends, Wants, Next, AfterSent, AfterSave, EndsAnyway, AtBody, EncodeSize;
    if n == 0 {
      CopiesNothing(w, x, v, left, rest);
    } else {
      var m := Min(n, FILE_BUF_SZ);
      var d, tail := x.s2c[..m], x.s2c[m..];
      InBody(v, left, n);
      BodySteps(w.setup, v, left, n, d);
      if w.luck(x.k) {
        assert tail[n - m..] == rest;
        ClientCopies(w, Net(AtBody(v, left, n - m), x.k + 1, x.r, x.j, [], tail), v, left, n - m, rest);
      }
      ClientStores(w, Net(Store(v, left, n - m), x.k, x.r, x.j, [], tail), v, left, n - m);
      assert d + tail == x.s2c;
      ClientReads(w, x, d, tail, Store(v, left, n - m));
    }
  }

  /** A block was read; the client stores it, from where the rest is known to end, or fails. */
  lemma ClientStores(w: World, x: Net, v: nat, left: nat, n: nat)
    requires ServerIdle(x, v) && x.c == Store(v, left, n)
    requires w.luck(x.k) ==> Ends(w, Net(AtBody(v, left, n), x.k + 1, x.r, x.j, [], x.s2c))
    ensures Ends(w, x)
  {
    hide Smooth, ServerEvent, Ends, Wants, Next, AfterSent, AfterSave, AtBody;
    StoreStep(w.setup, v, left, n, w.luck(x.k));
    Lucky(w, x.k);
    var next := if w.luck(x.k) then AtBody(v, left, n) else Failed(v);
    if !w.luck(x.k) {
      ClientFails(w, Net(next, x.k + 1, x.r, x.j, [], x.s2c), v);
    }
    ClientDecides(w, x, next);
  }

  lemma InBody(v: nat, left: nat, n: nat)
    requires n > 0
    ensures AtBody(v, left, n) == Body(v, left, n)
  {
  }

  lemma CopiesNothing(w: World, x: Net, v: nat, left: nat, rest: bytes)
    requires x.c2s == [] && x.c == AtBody(v, left, 0) && x.s2c[0..] == rest
    requires EndsAnyway(w, AfterSave(v, left), x.r, x.j, [], rest)
    ensures Ends(w, x)
  {
    hide Smooth, Ends, AfterSave;
    assert x.s2c[0..] == x.s2c;
    assert x == Net(AfterSave(v, left), x.k, x.r, x.j, [], rest);
  }

  lemma StoreStep(s: Setup, v: nat, left: nat, n: nat, ok: bool)
    ensures Wants(s, Store(v, left, n)) == WantLocal
    ensures Next(s, Store(v, left, n), Local(ok)) == if ok then AtBody(v, left, n) else Failed(v)
    ensures Wants(s, Open(v, left, n)) == WantLocal
    ensures Next(s, Open(v, left, n), Local(ok)) == if ok then AtBody(v, left, n) else Failed(v)
    ensures Wants(s, MakeDir(v, left)) == WantLocal
    ensures Next(s, MakeDir(v, left), Local(ok)) == if ok then AfterSave(v, left) else Failed(v)
  {
    hide EncodeSize, DecodeSize, InfoMatches, AtBody, AfterSave;
  }

  lemma FileSizeStep(s: Setup, v: nat, left: nat, size: int)
    requires -1 <= size < TWO_63
    ensures Wants(s, FileSize(v, left)) == WantRead(|EncodeSize(size)|)
    ensures Next(s, FileSize(v, left), Got(EncodeSize(size))) == AtSize(s, v, left, size)
  {
    hide EncodeSize, DecodeSize, InfoMatches;
    SizeRoundTrip(size);
  }

  /** A file: its size and its data. */
  lemma ClientSaves(w: World, x: Net, v: nat, left: nat, data: bytes, rest: bytes)
    requires ServerIdle(x, v) && x.c == FileSize(v, left) && x.s2c == EncodeSize(|data|) + (data + rest)
    requires |data| < TWO_63 && EndsAnyway(w, AfterSave(v, left), x.r, x.j, [], rest)
    requires Smooth(w) ==> |data| <= w.setup.maxFileSize
    ensures Ends(w, x)
  {
    hide Smooth, ServerEvent, Ends, Wants, Next, AfterSent, AfterSave, EncodeSize, AtBody, EndsAnyway;
    var n := |data|;
    FileSizeStep(w.setup, v, left, n);
    var next := AtSize(w.setup, v, left, n);
    var y := Net(next, x.k, x.r, x.j, [], data + rest);
    if next == Failed(v) {
      ClientFails(w, y, v);
    } else {
      StoreStep(w.setup, v, left, n, w.luck(x.k));
      Lucky(w, x.k);
      var last := if w.luck(x.k) then AtBody(v, left, n) else Failed(v);
      var z := Net(last, x.k + 1, x.r, x.j, [], data + rest);
      if w.luck(x.k) {
        assert (data + rest)[n..] == rest;
        ClientCopies(w, z, v, left, n, rest);
      } else {
        ClientFails(w, z, v);
      }
      ClientDecides(w, y, last);
    }
    ClientReads(w, x, EncodeSize(n), data + rest, next);
  }

  /** A directory: its mark. */
  lemma ClientMakes(w: World, x: Net, v: nat, left: nat, rest: bytes)
    requires ServerIdle(x, v) && x.c == FileSize(v, left) && x.s2c == EncodeSize(-1) + rest
    requires EndsAnyway(w, AfterSave(v, left), x.r, x.j, [], rest)
    requires Smooth(w) ==> v >= 3 && -1 <= w.setup.maxFileSize
    ensures Ends(w, x)
  {
    hide Smooth, ServerEvent, Ends, Wants, Next, AfterSent, AfterSave, EncodeSize;
    FileSizeStep(w.setup, v, left, -1);
    var next := AtSize(w.setup, v, left, -1);
    var y := Net(next, x.k, x.r, x.j, [], rest);
    if next == Failed(v) {
      ClientFails(w, y, v);
    } else {
      StoreStep(w.setup, v, left, 0, w.luck(x.k));
      Lucky(w, x.k);
      var last := if w.luck(x.k) then AfterSave(v, left) else Failed(v);
      var z := Net(last, x.k + 1, x.r, x.j, [], rest);
      if w.luck(x.k) {
        assert z == Net(AfterSave(v, left), x.k + 1, x.r, x.j, [], rest);
      } else {
        ClientFails(w, z, v);
      }
      ClientDecides(w, y, last);
    }
    ClientReads(w, x, EncodeSize(-1), rest, next);
  }

  lemma AcceptedAnyway(w: World, r: Server, j: nat, v: nat)
    requires r == AfterSent(v)
    ensures EndsAnyway(w, AfterSave(v, 0), r, j, [], [])
  {
    hide Smooth, Ends;
    forall k: nat
      ensures Ends(w, Net(AfterSave(v, 0), k, r, j, [], []))
    {
      Accepted(w, Net(AfterSave(v, 0), k, r, j, [], []), v);
    }
  }

  lemma GetImage(w: World, x: Net, v: nat, data: bytes)
    requires ServerIdle(x, v) && x.c == FileSize(v, 0) && x.s2c == EncodeSize(|data|) + data && |data| < TWO_63
    requires Smooth(w) ==> |data| <= w.setup.maxFileSize
    ensures Ends(w, x)
  {
    hide Smooth, Ends, EndsAnyway, AfterSent, AfterSave, EncodeSize;
    AcceptedAnyway(w, x.r, x.j, v);
    assert data + [] == data;
    ClientSaves(w, x, v, 0, data, []);
  }

  // Get Files

  lemma NameSteps(s: Setup, v: nat, left: nat, name: bytes)
    requires |name| < TWO_63
    ensures Wants(s, NameSize(v, left)) == WantRead(|EncodeSize(|name|)|)
    ensures var fits := 0 < |name| <= MAX_FILE_NAME_LENGTH;
            && Next(s, NameSize(v, left), Got(EncodeSize(|name|)))
               == (if fits then Name(v, left, |name|) else Failed(v))
            && Wants(s, Name(v, left, |name|)) == WantRead(|name|)
            && Next(s, Name(v, left, |name|), Got(name)) == Check(v, left)
  {
    hide EncodeSize, DecodeSize, InfoMatches;
    SizeRoundTrip(|name|);
  }

  lemma CheckStep(s: Setup, v: nat, left: nat, ok: bool)
    ensures Wants(s, Check(v, left)) == WantLocal
    ensures Next(s, Check(v, left), Local(ok)) == if ok then FileSize(v, left) else Failed(v)
    ensures Wants(s, MakeTemp(v, left)) == WantLocal
    ensures Next(s, MakeTemp(v, left), Local(ok)) == if ok then NameSize(v, left) else Failed(v)
  {
    hide EncodeSize, DecodeSize, InfoMatches;
  }

  function BodyBytes(item: Item): bytes {
    EncodeSize(AnnouncedSize(item)) + if item.FileItem? then item.data else []
  }

  /** The client takes every entry when nothing stands in the way. */
  ghost predicate Receivable(w: World, v: nat, items: seq<Item>) {
    forall item | item in items :: Sized(item) && (Smooth(w) ==> Takes(w.setup, v, item))
  }

  /** The size and the data of an entry, whatever it is. */
  lemma ClientBody(w: World, x: Net, v: nat, left: nat, item: Item, rest: bytes)
    requires ServerIdle(x, v) && x.c == FileSize(v, left) && x.s2c == BodyBytes(item) + rest && Sized(item)
    requires EndsAnyway(w, AfterSave(v, left), x.r, x.j, [], rest)
    requires Smooth(w) ==> Takes(w.setup, v, item)
    ensures Ends(w, x)
  {
    hide Smooth, Ends, EndsAnyway, AfterSent, AfterSave, EncodeSize;
    match item {
      case FileItem(_, data) =>
        assert (EncodeSize(|data|) + data) + rest == EncodeSize(|data|) + (data + rest);
        ClientSaves(w, x, v, left, data, rest);
      case DirItem(_) =>
        assert (EncodeSize(-1) + []) + rest == EncodeSize(-1) + rest;
        ClientMakes(w, x, v, left, rest);
    }
  }

  /** One entry. */
  lemma ClientEntry(w: World, x: Net, v: nat, left: nat, item: Item, rest: bytes)
    requires ServerIdle(x, v) && x.c == NameSize(v, left) && Sized(item)
    requires x.s2c == EncodeSize(|item.name|) + (item.name + (BodyBytes(item) + rest))
    requires EndsAnyway(w, AfterSave(v, left), x.r, x.j, [], rest)
    requires Smooth(w) ==> Takes(w.setup, v, item)
    ensures Ends(w, x)
  {
    hide Smooth, ServerEvent, Ends, EndsAnyway, Wants, Next, AfterSent, AfterSave, EncodeSize, BodyBytes;
    var name, tail := item.name, BodyBytes(item) + rest;
    NameSteps(w.setup, v, left, name);
    var next := Next(w.setup, NameSize(v, left), Got(EncodeSize(|name|)));
    var y := Net(next, x.k, x.r, x.j, [], name + tail);
    if next == Failed(v) {
      ClientFails(w, y, v);
    } else {
      ClientChecks(w, Net(Check(v, left), x.k, x.r, x.j, [], tail), v, left, item, rest);
      ClientReads(w, y, name, tail, Check(v, left));
    }
    ClientReads(w, x, EncodeSize(|name|), name + tail, next);
  }

  /** The name was read; the client accepts it or fails. */
  lemma ClientChecks(w: World, x: Net, v: nat, left: nat, item: Item, rest: bytes)
    requires ServerIdle(x, v) && x.c == Check(v, left) && Sized(item) && x.s2c == BodyBytes(item) + rest
    requires EndsAnyway(w, AfterSave(v, left), x.r, x.j, [], rest)
    requires Smooth(w) ==> Takes(w.setup, v, item)
    ensures Ends(w, x)
  {
    hide Smooth, ServerEvent, Ends, EndsAnyway, Wants, Next, AfterSent, AfterSave, EncodeSize, BodyBytes;
    CheckStep(w.setup, v, left, w.luck(x.k));
    Lucky(w, x.k);
    var last := if w.luck(x.k) then FileSize(v, left) else Failed(v);
    var y := Net(last, x.k + 1, x.r, x.j, [], x.s2c);
    if w.luck(x.k) {
      ClientBody(w, y, v, left, item, rest);
    } else {
      ClientFails(w, y, v);
    }
    ClientDecides(w, x, last);
  }

  lemma ItemJoined(items: seq<Item>)
    requires items != []
    ensures Joined(FilesOut(items))
      == EncodeSize(|items[0].name|) + (items[0].name + (BodyBytes(items[0]) + Joined(FilesOut(items[1..]))))
  {
    hide EncodeSize, Joined, BodyBytes, FileOut;
    JoinedCat(FileOut(items[0]), FilesOut(items[1..]));
    FileJoined(items[0]);
    Regroup(EncodeSize(|items[0].name|), items[0].name, BodyBytes(items[0]), Joined(FilesOut(items[1..])));
  }

  lemma Regroup(a: bytes, b: bytes, c: bytes, d: bytes)
    ensures (a + b + c) + d == a + (b + (c + d))
  {
  }

  lemma FileJoined(item: Item)
    ensures Joined(FileOut(item)) == EncodeSize(|item.name|) + item.name + BodyBytes(item)
  {
    hide EncodeSize, Joined;
    JoinedTwo(EncodeSize(|item.name|), item.name);
    match item {
      case FileItem(name, data) =>
        JoinedCat(BlockOut(name), BlockOut(data));
        JoinedTwo(EncodeSize(|data|), data);
      case DirItem(name) =>
        JoinedCat(BlockOut(name), [EncodeSize(-1)]);
        JoinedTwo(EncodeSize(-1), []);
        assert EncodeSize(-1) + [] == EncodeSize(-1);
    }
  }

  lemma {:induction false} JoinedCat(a: seq<bytes>, b: seq<bytes>)
    ensures Joined(a + b) == Joined(a) + Joined(b)
    decreases |a|
  {
    if a == [] {
      assert a + b == b;
    } else {
      assert (a + b)[1..] == a[1..] + b;
      JoinedCat(a[1..], b);
      assert a[0] + (Joined(a[1..]) + Joined(b)) == Joined(a) + Joined(b);
    }
  }

  lemma JoinedTwo(a: bytes, b: bytes)
    ensures Joined([a, b]) == a + b && Joined([a]) == a
  {
    assert [a, b][1..] == [b] && [b][1..] == [] && [a][1..] == [];
    assert Joined([b]) == b + [] == b && Joined([a]) == a + [] == a;
  }

  /** Every entry that is still to come, down to the end of the exchange. */
  lemma {:induction false} ClientEntries(w: World, x: Net, v: nat, items: seq<Item>)
    requires ServerIdle(x, v) && items != [] && x.c == NameSize(v, |items|) && x.s2c == Joined(FilesOut(items))
    requires Receivable(w, v, items)
    ensures Ends(w, x)
    decreases |items|
  {
    hide Smooth, Ends, EndsAnyway, AfterSent, Joined, FilesOut, Sized, BodyBytes, EncodeSize;
    ItemJoined(items);
    var rest := Joined(FilesOut(items[1..]));
    assert EndsAnyway(w, AfterSave(v, |items|), x.r, x.j, [], rest) by {
      if |items| == 1 {
        assert items[1..] == [];
        NothingJoined();
        LastSaved(w, x.r, x.j, v);
      } else {
        NextEntries(w, x, v, items);
      }
    }
    ClientEntry(w, x, v, |items|, items[0], rest);
  }

  lemma {:induction false} NextEntries(w: World, x: Net, v: nat, items: seq<Item>)
    requires ServerIdle(x, v) && |items| > 1
    requires Receivable(w, v, items)
    ensures EndsAnyway(w, AfterSave(v, |items|), x.r, x.j, [], Joined(FilesOut(items[1..])))
    decreases |items|, 0
  {
    hide Smooth, Ends, AfterSent, Joined, FilesOut, Sized;
    var rest := Joined(FilesOut(items[1..]));
    forall k: nat
      ensures Ends(w, Net(AfterSave(v, |items|), k, x.r, x.j, [], rest))
    {
      ClientEntries(w, Net(NameSize(v, |items| - 1), k, x.r, x.j, [], rest), v, items[1..]);
    }
  }

  lemma NothingJoined()
    ensures Joined(FilesOut([])) == []
  {
  }

  lemma UnpackStep(s: Setup, v: nat, ok: bool)
    requires v >= 4
    ensures Wants(s, Unpack(v)) == WantLocal && Next(s, Unpack(v), Local(ok)) == if ok then AckOut(v) else Failed(v)
  {
    hide EncodeSize, DecodeSize, InfoMatches;
  }

  /** After the last entry: before version 4 the client closes; from then on it moves the files and acknowledges. */
  lemma LastSaved(w: World, r: Server, j: nat, v: nat)
    requires r == AfterSent(v)
    ensures EndsAnyway(w, AfterSave(v, 1), r, j, [], [])
  {
    hide Smooth, Ends, Wants, Next;
    forall k: nat
      ensures Ends(w, Net(AfterSave(v, 1), k, r, j, [], []))
    {
      var x := Net(AfterSave(v, 1), k, r, j, [], []);
      if v < 4 {
        IdleWaits(w, x, v);
        ClientIsThrough(w, x);
      } else {
        var next := if w.luck(k) then AckOut(v) else Failed(v);
        var y := Net(next, k + 1, r, j, [], []);
        UnpackStep(w.setup, v, w.luck(k));
        Lucky(w, k);
        if w.luck(k) {
          AckExchanged(w, y, v);
        } else {
          ClientFails(w, y, v);
        }
        ClientDecides(w, x, next);
      }
    }
  }

  lemma CountStep(s: Setup, v: nat, n: nat)
    requires n < TWO_63
    ensures Wants(s, Count(v)) == WantRead(|EncodeSize(n)|)
    ensures Next(s, Count(v), Got(EncodeSize(n))) == if n <= 0 || n > s.maxFileCount then Failed(v) else MakeTemp(v, n)
  {
    hide EncodeSize, DecodeSize, InfoMatches;
    SizeRoundTrip(n);
  }

  lemma GetEntries(w: World, x: Net, v: nat, items: seq<Item>)
    requires ServerIdle(x, v) && items != [] && x.c == MakeTemp(v, |items|) && x.s2c == Joined(FilesOut(items))
    requires Receivable(w, v, items)
    ensures Ends(w, x)
  {
    hide Smooth, ServerEvent, Ends, Wants, Next, AfterSent, EncodeSize, Joined, FilesOut, Sized;
    CheckStep(w.setup, v, |items|, w.luck(x.k));
    Lucky(w, x.k);
    var next := if w.luck(x.k) then NameSize(v, |items|) else Failed(v);
    var y := Net(next, x.k + 1, x.r, x.j, [], x.s2c);
    if w.luck(x.k) {
      ClientEntries(w, y, v, items);
    } else {
      ClientFails(w, y, v);
    }
    ClientDecides(w, x, next);
  }

  lemma GetFiles(w: World, x: Net, v: nat, items: seq<Item>)
    requires ServerIdle(x, v) && x.c == Count(v) && x.s2c == EncodeSize(|items|) + Joined(FilesOut(items))
    requires |items| < TWO_63 && (Smooth(w) ==> 0 < |items| <= w.setup.maxFileCount)
    requires Receivable(w, v, items)
    ensures Ends(w, x)
  {
    hide Smooth, ServerEvent, Ends, Wants, Next, AfterSent, EncodeSize, Joined, FilesOut, Sized;
    CountStep(w.setup, v, |items|);
    var next := Next(w.setup, Count(v), Got(EncodeSize(|items|)));
    var y := Net(next, x.k, x.r, x.j, [], Joined(FilesOut(items)));
    if next == Failed(v) {
      ClientFails(w, y, v);
    } else {
      GetEntries(w, y, v, items);
    }
    ClientReads(w, x, EncodeSize(|items|), Joined(FilesOut(items)), next);
  }
}
