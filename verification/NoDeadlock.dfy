/** Session duality and version negotiation, over every interleaving of the client and the mock server. */
module NoDeadlock {
  import opened Bytes
  import opened Wire
  import opened Session
  import opened MockServer
  import opened Duality
  import opened Exchanges
  import opened SendExchanges

  /** All lengths fit signed 64-bit sizes, and the server's highest version fits a byte. */
  ghost predicate Sane(w: World) {
    && (w.stock.text.Some? ==> |w.stock.text.value| < TWO_63)
    && |w.stock.image| < TWO_63 && |w.stock.screen| < TWO_63 && w.stock.protoMax < 256
    && (forall v: nat :: SaneList(w.stock.files(v)))
    && (w.text.Some? ==> |w.text.value| < TWO_63)
    && (forall v: nat :: w.outgoing(v).Some? ==> SaneList(w.outgoing(v).value))
    && w.setup.display < TWO_31
  }

  predicate SaneList(items: seq<Item>) {
    |items| < TWO_63 && forall item | item in items :: Sized(item)
  }

  // The methods, from the granted request on

  lemma TakeStep(w: World, x: Net, v: nat)
    requires x.c == TakeText(v) || x.c == ListFiles(v)
    ensures x.c == TakeText(v) ==>
      Go(w, x, true) == Some(Net(if w.text.Some? then TextSizeOut(v, w.text.value) else Failed(v),
                                 x.k, x.r, x.j, x.c2s, x.s2c))
    ensures x.c == ListFiles(v) ==>
      Go(w, x, true) == Some(Net(if w.outgoing(v).Some? then StartSending(v, w.outgoing(v).value) else Failed(v),
                                 x.k, x.r, x.j, x.c2s, x.s2c))
  {
    hide StartSending;
    assert x.s2c[0..] == x.s2c && x.c2s + [] == x.c2s;
  }

  lemma TextOutSteps(s: Setup, v: nat, t: bytes)
    ensures var d := EncodeSize(|t|);
            Wants(s, TextSizeOut(v, t)) == WantWrite(d) && Next(s, TextSizeOut(v, t), Wrote(d)) == TextOut(v, t)
    ensures Wants(s, TextOut(v, t)) == WantWrite(t) && Next(s, TextOut(v, t), Wrote(t)) == AfterSend(v)
  {
    hide EncodeSize, AfterSend;
  }

  lemma ServerTextSteps(k: Stock, v: nat, t: bytes, ok: bool)
    requires |t| < TWO_63
    ensures ServerWants(k, STextSize(v)) == WantRead(8)
    ensures var n := ServerInt(EncodeSize(|t|));
            && ServerNext(k, STextSize(v), Got(EncodeSize(|t|))) == (if n < 0 then SDone(v, false) else SText(v, n))
            && (n >= 0 || |t| < TWO_32 ==> n == |t|)
    ensures ServerWants(k, SText(v, |t|)) == WantRead(|t|) && ServerNext(k, SText(v, |t|), Got(t)) == SDecode(v)
    ensures ServerWants(k, SDecode(v)) == WantLocal
    ensures ServerNext(k, SDecode(v), Local(ok)) == if ok then AfterReceived(v) else SDone(v, false)
  {
    hide EncodeSize, ServerInt, AfterReceived;
    ServerIntValue(|t|);
  }

  lemma SendText(w: World, x: Net, v: nat)
    requires Sane(w) && x.c == TakeText(v) && x.r == STextSize(v) && x.c2s == [] && x.s2c == []
    requires Smooth(w) ==> w.text.Some? && |w.text.value| < TWO_32
    ensures Ends(w, x)
  {
    hide Smooth, Ends, Wants, Next, ServerWants, ServerNext, ServerEvent, EncodeSize, ServerInt, Go, AfterSend, Sane;
    TakeStep(w, x, v);
    var y := Go(w, x, true).value;
    if w.text == None {
      ServerTextSteps(w.stock, v, [], true);
      Waiting(w, y, 8);
      ClientIsThrough(w, y);
    } else {
      SaneText(w);
      SendSomeText(w, y, v, w.text.value);
    }
    Back(w, x, true);
  }

  lemma SendSomeText(w: World, x: Net, v: nat, t: bytes)
    requires x.c == TextSizeOut(v, t) && x.r == STextSize(v) && x.c2s == [] && x.s2c == []
    requires |t| < TWO_63 && (Smooth(w) ==> |t| < TWO_32)
    ensures Ends(w, x)
  {
    hide Smooth, Ends, Wants, Next, ServerWants, ServerNext, EncodeSize, AfterSend;
    var d := EncodeSize(|t|);
    TextOutSteps(w.setup, v, t);
    TextArrives(w, Net(AfterSend(v), x.k, x.r, x.j, d + t, []), v, t);
    assert [] + d == d;
    ClientWrites(w, Net(TextOut(v, t), x.k, x.r, x.j, d, []), t, AfterSend(v));
    ClientWrites(w, x, d, TextOut(v, t));
  }

  lemma TextArrives(w: World, x: Net, v: nat, t: bytes)
    requires x.c == AfterSend(v) && x.r == STextSize(v) && x.c2s == EncodeSize(|t|) + t && x.s2c == []
    requires |t| < TWO_63 && (Smooth(w) ==> |t| < TWO_32)
    ensures Ends(w, x)
  {
    hide Smooth, Ends, Wants, Next, ServerWants, ServerNext, EncodeSize, ServerInt, AfterSend;
    var d := EncodeSize(|t|);
    ServerTextSteps(w.stock, v, t, true);
    var n := ServerInt(d);
    var next := if n < 0 then SDone(v, false) else SText(v, n);
    var z := Net(AfterSend(v), x.k, next, x.j, t, []);
    if n < 0 {
      SentIsOver(w, z, v);
    } else {
      ReadText(w, z, v, t);
    }
    ServerReads(w, x, d, t, next);
  }

  lemma SaneText(w: World)
    requires Sane(w) && w.text.Some?
    ensures |w.text.value| < TWO_63
  {
  }

  lemma SentIsOver(w: World, x: Net, v: nat)
    requires !Smooth(w) && ServerGone(x) && x.c == AfterSend(v)
    ensures Ends(w, x)
  {
    hide Smooth, Ends;
    GoneIsOver(w, x);
  }

  lemma ReadText(w: World, x: Net, v: nat, t: bytes)
    requires |t| < TWO_63 && x.c == AfterSend(v) && x.r == SText(v, |t|) && x.c2s == t && x.s2c == []
    ensures Ends(w, x)
  {
    hide Smooth, Ends, ServerWants, ServerNext, EncodeSize, ServerInt;
    var ok := w.stock.luck(x.j);
    ServerTextSteps(w.stock, v, t, ok);
    Lucky(w, x.j);
    var next := if ok then AfterReceived(v) else SDone(v, false);
    var z := Net(x.c, x.k, next, x.j + 1, [], []);
    if ok {
      LoopIsOver(w, z, v);
    } else {
      GoneIsOver(w, z);
    }
    ServerDecides(w, Net(x.c, x.k, SDecode(v), x.j, [], []), next);
    assert t + [] == t;
    ServerReads(w, x, t, [], SDecode(v));
  }

  lemma ServerCountStep(k: Stock, v: nat, n: nat)
    requires n < TWO_63
    ensures ServerWants(k, SCount(v)) == WantRead(8)
    ensures ServerNext(k, SCount(v), Got(EncodeSize(n)))
         == if ServerInt(EncodeSize(n)) <= 0 then SDone(v, false) else SNameSize(v, n)
    ensures 0 < n < TWO_32 ==> ServerInt(EncodeSize(n)) > 0
  {
    hide EncodeSize, ServerInt;
    ServerIntValue(n);
  }

  lemma CountOutStep(s: Setup, v: nat, items: seq<Item>)
    ensures var d := EncodeSize(|items|);
            Wants(s, CountOut(v, items)) == WantWrite(d) && Next(s, CountOut(v, items), Wrote(d)) == AtItem(v, items)
  {
    hide EncodeSize, AtItem;
  }

  lemma SendCount(w: World, x: Net, v: nat, items: seq<Item>)
    requires x.c == CountOut(v, items) && x.r == SCount(v) && x.c2s == [] && x.s2c == [] && SaneList(items)
    requires Sendable(w, v, items) && (Smooth(w) ==> 0 < |items| < TWO_32)
    ensures Ends(w, x)
  {
    hide Smooth, Ends, Wants, Next, ServerWants, ServerNext, EncodeSize, ServerInt, Sized, AtItem;
    var d := EncodeSize(|items|);
    CountOutStep(w.setup, v, items);
    ServerCountStep(w.stock, v, |items|);
    ServerIntValue(|items|);
    var next := ServerNext(w.stock, SCount(v), Got(d));
    var z := Net(AtItem(v, items), x.k, next, x.j, [], []);
    if next.SDone? {
      SendsAlone(w, z, v, items);
    } else {
      SendLoop(w, z, v, items);
    }
    assert d + [] == d == [] + d;
    ServerReads(w, Net(AtItem(v, items), x.k, x.r, x.j, d, []), d, [], next);
    ClientWrites(w, x, d, AtItem(v, items));
  }

  predicate CanSend(w: World, v: nat) {
    && w.outgoing(v).Some? && 0 < |w.outgoing(v).value| < TWO_32
    && forall item | item in w.outgoing(v).value :: ServerTakes(v, item)
  }

  lemma SendFiles(w: World, x: Net, v: nat)
    requires Sane(w) && v >= 1 && x.c == ListFiles(v) && x.c2s == [] && x.s2c == []
    requires x.r == if v == 1 then SNameSize(v, 1) else SCount(v)
    requires Smooth(w) ==> CanSend(w, v)
    ensures Ends(w, x)
  {
    hide Smooth, Ends, Go, ServerEvent, Sized;
    TakeStep(w, x, v);
    var y := Go(w, x, true).value;
    if w.outgoing(v) == None {
      Waiting(w, y, 8);
      ClientIsThrough(w, y);
    } else {
      var items := w.outgoing(v).value;
      if v > 1 {
        SendCount(w, y, v, items);
      } else if items == [] {
        assert items[..0] == [];
        Waiting(w, y, 8);
        ClientIsThrough(w, y);
      } else {
        SendLoop(w, y, v, items[..1]);
      }
    }
    Back(w, x, true);
  }

  // The grant

  lemma StatusStep(s: Setup, v: nat, status: byte)
    ensures Wants(s, AwaitMethodStatus(v)) == WantRead(1)
    ensures Next(s, AwaitMethodStatus(v), Got([status])) == if status == STATUS_OK then Dispatch(s, v) else Failed(v)
  {
    hide Dispatch;
  }

  /** The client reads the grant, and the exchange goes on. */
  lemma GrantRead(w: World, x: Net, v: nat, payload: bytes)
    requires x.c == AwaitMethodStatus(v) && x.s2c == [STATUS_OK] + payload
    requires Ends(w, Net(Dispatch(w.setup, v), x.k, x.r, x.j, x.c2s, payload))
    ensures Ends(w, x)
  {
    hide Smooth, Ends, Wants, Next, Dispatch;
    StatusStep(w.setup, v, STATUS_OK);
    ClientReads(w, x, [STATUS_OK], payload, Dispatch(w.setup, v));
  }

  lemma RefuseSteps(k: Stock, v: nat, status: byte)
    ensures ServerWants(k, SRefuse(v, status)) == WantWrite([status])
    ensures ServerNext(k, SRefuse(v, status), Wrote([status])) == SDone(v, false)
  {
  }

  lemma Refused(w: World, x: Net, v: nat, status: byte)
    requires !Smooth(w) && x.c == AwaitMethodStatus(v) && x.r == SRefuse(v, status) && status != STATUS_OK
    requires x.c2s == [] && x.s2c == []
    ensures Ends(w, x)
  {
    hide Smooth, Ends, Wants, Next, ServerWants, ServerNext, Dispatch;
    StatusStep(w.setup, v, status);
    RefuseSteps(w.stock, v, status);
    GoneIsOver(w, Net(Failed(v), x.k, SDone(v, false), x.j, [], []));
    assert [status] + [] == [status] == [] + [status];
    ClientReads(w, Net(x.c, x.k, SDone(v, false), x.j, [], [status]), [status], [], Failed(v));
    ServerWrites(w, x, [status], SDone(v, false));
  }

  /** A grant followed by a block of data. */
  lemma BlockJoined(t: bytes)
    ensures Joined([[STATUS_OK]] + BlockOut(t)) == [STATUS_OK] + (EncodeSize(|t|) + t)
    ensures Joined([[STATUS_OK]] + BlockOut(t))[0..] == [] + Joined([[STATUS_OK]] + BlockOut(t))
  {
    hide EncodeSize, Joined;
    JoinedCat([[STATUS_OK]], BlockOut(t));
    JoinedTwo([STATUS_OK], []);
    JoinedTwo(EncodeSize(|t|), t);
  }

  lemma GrantText(w: World, x: Net, v: nat, t: bytes)
    requires x.c == AwaitMethodStatus(v) && x.r == SSend(v, [[STATUS_OK]] + BlockOut(t)) && x.c2s == [] && x.s2c == []
    requires |t| < TWO_63 && Dispatch(w.setup, v) in {TextSize(v), FileSize(v, 0)}
    requires Smooth(w) ==>
      if Dispatch(w.setup, v).TextSize? then TakesText(w.setup, t) else |t| <= w.setup.maxFileSize
    ensures Ends(w, x)
  {
    hide Smooth, Ends, Dispatch, EncodeSize, Joined, AfterSent, BlockOut;
    var payload, out := EncodeSize(|t|) + t, [[STATUS_OK]] + BlockOut(t);
    BlockJoined(t);
    var y := Net(Dispatch(w.setup, v), x.k, AfterSent(v), x.j, [], payload);
    if y.c.TextSize? {
      GetText(w, y, v, t);
    } else {
      GetImage(w, y, v, t);
    }
    GrantRead(w, Net(x.c, x.k, AfterSent(v), x.j, [], [STATUS_OK] + payload), v, payload);
    assert [] + Joined(out) == [STATUS_OK] + payload;
    ServerSendsAll(w, x, v, out);
  }

  lemma FilesJoined(items: seq<Item>)
    ensures var n, files := EncodeSize(|items|), Joined(FilesOut(items));
            [] + Joined([[STATUS_OK], n] + FilesOut(items)) == [STATUS_OK] + (n + files)
  {
    hide EncodeSize, Joined, FilesOut;
    var n, files := EncodeSize(|items|), Joined(FilesOut(items));
    JoinedCat([[STATUS_OK], n], FilesOut(items));
    JoinedTwo([STATUS_OK], n);
    Regrouped([STATUS_OK], n, files);
  }

  lemma Regrouped(a: bytes, b: bytes, c: bytes)
    ensures [] + ((a + b) + c) == a + (b + c)
  {
  }

  lemma GrantFiles(w: World, x: Net, v: nat, items: seq<Item>)
    requires x.c == AwaitMethodStatus(v) && x.r == SSend(v, [[STATUS_OK], EncodeSize(|items|)] + FilesOut(items))
    requires x.c2s == [] && x.s2c == [] && |items| < TWO_63 && Dispatch(w.setup, v) == Count(v)
    requires Receivable(w, v, items) && (Smooth(w) ==> 0 < |items| <= w.setup.maxFileCount)
    ensures Ends(w, x)
  {
    hide Smooth, Ends, Dispatch, EncodeSize, Joined, AfterSent, FilesOut, Receivable;
    var n, files := EncodeSize(|items|), Joined(FilesOut(items));
    FilesJoined(items);
    GetFiles(w, Net(Count(v), x.k, AfterSent(v), x.j, [], n + files), v, items);
    GrantRead(w, Net(x.c, x.k, AfterSent(v), x.j, [], [STATUS_OK] + (n + files)), v, n + files);
    ServerSendsAll(w, x, v, [[STATUS_OK], n] + FilesOut(items));
  }

  lemma GrantSteps(k: Stock, v: nat)
    ensures ServerWants(k, SGrantText(v)) == WantWrite([STATUS_OK])
    ensures ServerNext(k, SGrantText(v), Wrote([STATUS_OK])) == STextSize(v)
    ensures ServerWants(k, SGrantFiles(v)) == WantWrite([STATUS_OK])
    ensures ServerNext(k, SGrantFiles(v), Wrote([STATUS_OK])) == if v == 1 then SNameSize(v, 1) else SCount(v)
    ensures ServerWants(k, SGrantDisplay(v)) == WantWrite([STATUS_OK])
    ensures ServerNext(k, SGrantDisplay(v), Wrote([STATUS_OK])) == SDisplay(v)
  {
  }

  /** The server grants and waits; the client goes on. */
  lemma GrantFirst(w: World, x: Net, v: nat)
    requires Sane(w) && v >= 1 && x.c == AwaitMethodStatus(v) && x.c2s == [] && x.s2c == []
    requires || (x.r == SGrantText(v) && Dispatch(w.setup, v) == TakeText(v))
             || (x.r == SGrantFiles(v) && Dispatch(w.setup, v) == ListFiles(v))
             || (x.r == SGrantDisplay(v) && Dispatch(w.setup, v) == DisplayOut(v))
    requires Smooth(w) && x.r.SGrantText? ==> w.text.Some? && |w.text.value| < TWO_32
    requires Smooth(w) && x.r.SGrantFiles? ==> CanSend(w, v)
    requires Smooth(w) && x.r.SGrantDisplay? ==>
      w.setup.display in {0, 1} && |w.stock.screen| <= w.setup.maxFileSize
    ensures Ends(w, x)
  {
    hide Smooth, Ends, Dispatch, ServerWants, ServerNext, Sane;
    GrantSteps(w.stock, v);
    var next := ServerNext(w.stock, x.r, Wrote([STATUS_OK]));
    var y := Net(Dispatch(w.setup, v), x.k, next, x.j, [], []);
    if x.r.SGrantText? {
      SendText(w, y, v);
    } else if x.r.SGrantFiles? {
      SendFiles(w, y, v);
    } else {
      Screenshot(w, y, v);
    }
    assert [STATUS_OK] + [] == [STATUS_OK] == [] + [STATUS_OK];
    GrantRead(w, Net(x.c, x.k, next, x.j, [], [STATUS_OK]), v, []);
    ServerWrites(w, x, [STATUS_OK], next);
  }

  lemma DisplaySteps(w: World, v: nat, status: byte)
    requires w.setup.display < TWO_31
    ensures var d := EncodeSize(w.setup.display);
            && Wants(w.setup, DisplayOut(v)) == WantWrite(d)
            && Next(w.setup, DisplayOut(v), Wrote(d)) == AwaitDisplay(v)
    ensures Wants(w.setup, AwaitDisplay(v)) == WantRead(1)
    ensures Next(w.setup, AwaitDisplay(v), Got([status])) == if status == STATUS_OK then FileSize(v, 0) else Failed(v)
  {
    hide EncodeSize;
  }

  lemma ServerDisplaySteps(w: World, v: nat)
    requires w.setup.display < TWO_31
    ensures ServerWants(w.stock, SDisplay(v)) == WantRead(8)
    ensures ServerNext(w.stock, SDisplay(v), Got(EncodeSize(w.setup.display)))
         == if w.setup.display in {0, 1} then SSend(v, [[STATUS_OK]] + BlockOut(w.stock.screen))
            else SRefuse(v, STATUS_NO_DATA)
  {
    hide EncodeSize, ServerInt;
    SizeRoundTrip(w.setup.display);
  }

  lemma Screenshot(w: World, x: Net, v: nat)
    requires Sane(w) && x.c == DisplayOut(v) && x.r == SDisplay(v) && x.c2s == [] && x.s2c == []
    requires Smooth(w) ==> w.setup.display in {0, 1} && |w.stock.screen| <= w.setup.maxFileSize
    ensures Ends(w, x)
  {
    hide Smooth, Ends, Wants, Next, ServerWants, ServerNext, EncodeSize, BlockOut;
    var d := EncodeSize(w.setup.display);
    DisplaySteps(w, v, STATUS_OK);
    ServerDisplaySteps(w, v);
    var next := ServerNext(w.stock, SDisplay(v), Got(d));
    var y := Net(AwaitDisplay(v), x.k, next, x.j, [], []);
    if next.SSend? {
      ShowDisplay(w, y, v);
    } else {
      HideDisplay(w, y, v);
    }
    assert d + [] == d == [] + d;
    ServerReads(w, Net(AwaitDisplay(v), x.k, x.r, x.j, d, []), d, [], next);
    ClientWrites(w, x, d, AwaitDisplay(v));
  }

  lemma ShowDisplay(w: World, x: Net, v: nat)
    requires Sane(w) && x.c == AwaitDisplay(v) && x.r == SSend(v, [[STATUS_OK]] + BlockOut(w.stock.screen))
    requires x.c2s == [] && x.s2c == [] && (Smooth(w) ==> |w.stock.screen| <= w.setup.maxFileSize)
    ensures Ends(w, x)
  {
    hide Smooth, Ends, Wants, Next, EncodeSize, Joined, AfterSent, BlockOut;
    var t := w.stock.screen;
    var payload, out := EncodeSize(|t|) + t, [[STATUS_OK]] + BlockOut(t);
    BlockJoined(t);
    DisplaySteps(w, v, STATUS_OK);
    GetImage(w, Net(FileSize(v, 0), x.k, AfterSent(v), x.j, [], payload), v, t);
    assert [] + Joined(out) == [STATUS_OK] + payload;
    ClientReads(w, Net(x.c, x.k, AfterSent(v), x.j, [], [STATUS_OK] + payload), [STATUS_OK], payload, FileSize(v, 0));
    ServerSendsAll(w, x, v, out);
  }

  lemma HideDisplay(w: World, x: Net, v: nat)
    requires !Smooth(w) && x.c == AwaitDisplay(v) && x.r == SRefuse(v, STATUS_NO_DATA) && x.c2s == [] && x.s2c == []
    requires w.setup.display < TWO_31
    ensures Ends(w, x)
  {
    hide Smooth, Ends, Wants, Next, ServerWants, ServerNext;
    DisplaySteps(w, v, STATUS_NO_DATA);
    RefuseSteps(w.stock, v, STATUS_NO_DATA);
    GoneIsOver(w, Net(Failed(v), x.k, SDone(v, false), x.j, [], []));
    var d := [STATUS_NO_DATA];
    assert d + [] == d == [] + d;
    ClientReads(w, Net(x.c, x.k, SDone(v, false), x.j, [], d), d, [], Failed(v));
    ServerWrites(w, x, d, SDone(v, false));
  }

  /** What is granted when nothing stands in the way. */
  lemma GrantedSmoothly(w: World, v: nat)
    requires Sane(w) && v == HighestCommon(w) && Smooth(w)
    ensures !Handler(w.stock, v, w.setup.request).SRefuse? && !Handler(w.stock, v, w.setup.request).SDone?
    ensures w.setup.request == METHOD_GET_TEXT ==> w.stock.text.Some? && TakesText(w.setup, w.stock.text.value)
    ensures w.setup.request == METHOD_SEND_TEXT ==> w.text.Some? && |w.text.value| < TWO_32
    ensures w.setup.request == METHOD_GET_FILE ==>
      0 < |w.stock.files(v)| <= w.setup.maxFileCount && Receivable(w, v, w.stock.files(v))
    ensures w.setup.request == METHOD_SEND_FILE ==> CanSend(w, v)
    ensures w.setup.request == METHOD_GET_IMAGE ==>
      |if w.stock.imageCopied then w.stock.image else w.stock.screen| <= w.setup.maxFileSize
    ensures w.setup.request == METHOD_GET_COPIED_IMAGE ==> |w.stock.image| <= w.setup.maxFileSize
    ensures w.setup.request == METHOD_GET_SCREENSHOT ==>
      w.setup.display in {0, 1} && |w.stock.screen| <= w.setup.maxFileSize
  {
    hide Sized, BlockOut, FilesOut, EncodeSize;
  }

  /** The request has arrived. */
  lemma Requested(w: World, x: Net, v: nat)
    requires Sane(w) && 1 <= v <= 4 && KnownMethod(v, w.setup.request) && (Smooth(w) ==> v == HighestCommon(w))
    requires x.c == AwaitMethodStatus(v) && x.r == Handler(w.stock, v, w.setup.request) && x.c2s == [] && x.s2c == []
    ensures Ends(w, x)
  {
    hide Smooth, Ends, EncodeSize, BlockOut, FilesOut, Sized, CanSend, Takes, TakesText, HighestCommon;
    if Smooth(w) {
      GrantedSmoothly(w, v);
    }
    if x.r.SRefuse? {
      Refused(w, x, v, x.r.status);
    } else if w.setup.request == METHOD_GET_TEXT {
      GrantText(w, x, v, w.stock.text.value);
    } else if w.setup.request == METHOD_GET_FILE {
      GrantFiles(w, x, v, w.stock.files(v));
    } else if w.setup.request == METHOD_GET_IMAGE {
      GrantText(w, x, v, if w.stock.imageCopied then w.stock.image else w.stock.screen);
    } else if w.setup.request == METHOD_GET_COPIED_IMAGE {
      GrantText(w, x, v, w.stock.image);
    } else {
      GrantFirst(w, x, v);
    }
  }
}
