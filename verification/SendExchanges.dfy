/** Session duality, the requests that send: the client writes an entry, the server reads it. */
module SendExchanges {
  import opened Bytes
  import opened Wire
  import opened Session
  import opened MockServer
  import opened Duality
  import opened Exchanges

  /** The server has given up; the client sends the rest and then closes or waits in vain. */
  predicate ServerGone(x: Net) {
    x.r.SDone? && !x.r.ok && x.s2c == []
  }

  lemma GoneIsOver(w: World, x: Net)
    requires !Smooth(w) && ServerGone(x) && (x.c.AwaitAck? || (x.c.Over? && x.c.open))
    ensures Ends(w, x)
  {
    hide Smooth, Ends;
    DoneIsIdle(w, x);
    EndsHere(w, x);
  }

  lemma DataStep(s: Setup, v: nat, items: seq<Item>, off: nat)
    requires items != [] && items[0].FileItem? && off < |items[0].data|
    ensures var d := items[0].data[off..Min(off + FILE_BUF_SZ, |items[0].data|)];
            && Wants(s, DataOut(v, items, off)) == WantWrite(d)
            && Next(s, DataOut(v, items, off), Wrote(d)) == AtData(v, items, off + |d|)
            && 0 < |d| && off + |d| <= |items[0].data|
  {
    hide AtData;
  }

  lemma ItemSteps(s: Setup, v: nat, items: seq<Item>, ok: bool)
    requires items != []
    ensures Wants(s, ItemStart(v, items)) == WantLocal
    ensures Next(s, ItemStart(v, items), Local(ok)) == if ok then NameSizeOut(v, items) else Failed(v)
  {
  }

  lemma HeaderSteps(s: Setup, v: nat, items: seq<Item>)
    requires items != []
    ensures var d := EncodeSize(|items[0].name|);
            && Wants(s, NameSizeOut(v, items)) == WantWrite(d)
            && Next(s, NameSizeOut(v, items), Wrote(d)) == NameOut(v, items)
    ensures var d := items[0].name;
            Wants(s, NameOut(v, items)) == WantWrite(d) && Next(s, NameOut(v, items), Wrote(d)) == SizeOut(v, items)
  {
    hide AtData, EncodeSize;
  }

  lemma SizeSteps(s: Setup, v: nat, items: seq<Item>)
    requires items != []
    ensures var d := EncodeSize(AnnouncedSize(items[0]));
            Wants(s, SizeOut(v, items)) == WantWrite(d) && Next(s, SizeOut(v, items), Wrote(d)) == AtData(v, items, 0)
  {
    hide AtData, EncodeSize;
  }

  /** The data of one file goes out; what follows is already known to end. */
  lemma {:induction false} ClientSendsData(w: World, x: Net, v: nat, items: seq<Item>, off: nat)
    requires items != [] && x.c == AtData(v, items, off)
    requires items[0].FileItem? ==> off <= |items[0].data|
    requires var rest := if items[0].FileItem? then items[0].data[off..] else [];
             Ends(w, Net(AtItem(v, items[1..]), x.k, x.r, x.j, x.c2s + rest, x.s2c))
    ensures Ends(w, x)
    decreases if items[0].FileItem? then |items[0].data| - off else 0
  {
    hide Smooth, Ends, Wants, Next, AtItem;
    if items[0].FileItem? && off < |items[0].data| {
      var data := items[0].data;
      var d := data[off..Min(off + FILE_BUF_SZ, |data|)];
      DataStep(w.setup, v, items, off);
      assert x.c2s + data[off..] == (x.c2s + d) + data[off + |d|..];
      ClientSendsData(w, Net(AtData(v, items, off + |d|), x.k, x.r, x.j, x.c2s + d, x.s2c), v, items, off + |d|);
      ClientWrites(w, x, d, AtData(v, items, off + |d|));
    } else {
      assert x.c2s + [] == x.c2s;
      assert x == Net(AtItem(v, items[1..]), x.k, x.r, x.j, x.c2s, x.s2c);
    }
  }

  /** The client alone, from the start of an entry on. */
  lemma {:induction false} SendsAlone(w: World, x: Net, v: nat, items: seq<Item>)
    requires !Smooth(w) && ServerGone(x) && x.c == AtItem(v, items)
    ensures Ends(w, x)
    decreases |items|, 2
  {
    hide Smooth, Ends, Wants, Next, EncodeSize;
    if items == [] {
      GoneIsOver(w, x);
    } else {
      ItemSteps(w.setup, v, items, w.luck(x.k));
      Lucky(w, x.k);
      var next := if w.luck(x.k) then NameSizeOut(v, items) else Failed(v);
      var y := Net(next, x.k + 1, x.r, x.j, x.c2s, []);
      if w.luck(x.k) {
        HeaderAlone(w, y, v, items);
      } else {
        GoneIsOver(w, y);
      }
      ClientDecides(w, x, next);
    }
  }

  lemma {:induction false} HeaderAlone(w: World, x: Net, v: nat, items: seq<Item>)
    requires !Smooth(w) && ServerGone(x) && items != [] && x.c == NameSizeOut(v, items)
    ensures Ends(w, x)
    decreases |items|, 1
  {
    hide Smooth, Ends, Wants, Next, EncodeSize, AtData, AtItem;
    HeaderSteps(w.setup, v, items);
    SizeSteps(w.setup, v, items);
    var a, b, c := EncodeSize(|items[0].name|), items[0].name, EncodeSize(AnnouncedSize(items[0]));
    var y := Net(NameOut(v, items), x.k, x.r, x.j, x.c2s + a, []);
    var z := Net(SizeOut(v, items), x.k, x.r, x.j, x.c2s + a + b, []);
    var last := Net(AtData(v, items, 0), x.k, x.r, x.j, x.c2s + a + b + c, []);
    DataAlone(w, last, v, items);
    ClientWrites(w, z, c, AtData(v, items, 0));
    ClientWrites(w, y, b, SizeOut(v, items));
    ClientWrites(w, x, a, NameOut(v, items));
  }

  lemma {:induction false} DataAlone(w: World, x: Net, v: nat, items: seq<Item>)
    requires !Smooth(w) && ServerGone(x) && items != [] && x.c == AtData(v, items, 0)
    ensures Ends(w, x)
    decreases |items|, 0
  {
    hide Smooth, Ends, AtItem;
    var rest := if items[0].FileItem? then items[0].data[0..] else [];
    SendsAlone(w, Net(AtItem(v, items[1..]), x.k, x.r, x.j, x.c2s + rest, []), v, items[1..]);
    ClientSendsData(w, x, v, items, 0);
  }

  // Both sides, entry by entry

  lemma ServerNameSteps(k: Stock, v: nat, left: nat, name: bytes)
    requires |name| < TWO_63
    ensures ServerWants(k, SNameSize(v, left)) == WantRead(8)
    ensures var m := ServerInt(EncodeSize(|name|));
            && ServerNext(k, SNameSize(v, left), Got(EncodeSize(|name|)))
               == (if m < 0 then SDone(v, false) else SName(v, left, m))
            && (m >= 0 || |name| < TWO_32 ==> m == |name|)
    ensures ServerWants(k, SName(v, left, |name|)) == WantRead(|name|)
    ensures ServerNext(k, SName(v, left, |name|), Got(name)) == SNameCheck(v, left)
  {
    hide EncodeSize, ServerInt;
    ServerIntValue(|name|);
  }

  lemma ServerCheckStep(k: Stock, v: nat, left: nat, ok: bool)
    ensures ServerWants(k, SNameCheck(v, left)) == WantLocal
    ensures ServerNext(k, SNameCheck(v, left), Local(ok)) == if ok then SSize(v, left) else SDone(v, false)
  {
  }

  lemma ServerIntValue(n: int)
    requires -1 <= n < TWO_63
    ensures |EncodeSize(n)| == 8 && (ServerInt(EncodeSize(n)) == n || ServerInt(EncodeSize(n)) < -1)
    ensures n < TWO_32 ==> ServerInt(EncodeSize(n)) == n
  {
    PowerEight();
    BigEndianValue(n, 8);
  }

  lemma ServerSizeSteps(k: Stock, v: nat, left: nat, size: int, data: bytes, ok: bool)
    requires -1 <= size < TWO_63 && left > 0
    ensures ServerWants(k, SSize(v, left)) == WantRead(8)
    ensures ServerNext(k, SSize(v, left), Got(EncodeSize(size))) == AtServerSize(v, left, ServerInt(EncodeSize(size)))
    ensures ServerInt(EncodeSize(size)) == size || ServerInt(EncodeSize(size)) < -1
    ensures size < TWO_32 ==> ServerInt(EncodeSize(size)) == size
    ensures ServerWants(k, SMakeDir(v, left)) == WantLocal
    ensures ServerNext(k, SMakeDir(v, left), Local(ok)) == if ok then AtNext(v, left - 1) else SDone(v, false)
    ensures ServerWants(k, SOpen(v, left, |data|)) == WantLocal
    ensures ServerNext(k, SOpen(v, left, |data|), Local(ok)) == if ok then SData(v, left, |data|) else SDone(v, false)
    ensures ServerWants(k, SData(v, left, |data|)) == WantRead(|data|)
    ensures ServerNext(k, SData(v, left, |data|), Got(data)) == AtNext(v, left - 1)
  {
    hide AtNext, EncodeSize, ServerInt;
    ServerIntValue(size);
  }

  ghost predicate Sendable(w: World, v: nat, items: seq<Item>) {
    forall item | item in items :: Sized(item) && (Smooth(w) ==> ServerTakes(v, item))
  }

  /** The client is at items and the server expects as many; nothing is in flight. */
  ghost predicate InStep(w: World, x: Net, v: nat, items: seq<Item>) {
    && x.c == AtItem(v, items) && x.r == AtNext(v, |items|)
    && x.c2s == [] && x.s2c == [] && Sendable(w, v, items)
  }

  /** The loop over the entries, on both sides. */
  lemma {:induction false} SendLoop(w: World, x: Net, v: nat, items: seq<Item>)
    requires InStep(w, x, v, items)
    ensures Ends(w, x)
    decreases |items|, 5
  {
    hide Smooth, Ends, Wants, Next, EncodeSize, Sized;
    if items == [] {
      LoopIsOver(w, x, v);
    } else {
      ItemSteps(w.setup, v, items, w.luck(x.k));
      Lucky(w, x.k);
      var next := if w.luck(x.k) then NameSizeOut(v, items) else Failed(v);
      var y := Net(next, x.k + 1, x.r, x.j, [], []);
      if w.luck(x.k) {
        SendHeader(w, y, v, items);
      } else {
        Waiting(w, y, 8);
        ClientIsThrough(w, y);
      }
      ClientDecides(w, x, next);
    }
  }

  lemma EndSteps(w: World, v: nat)
    ensures ServerWants(w.stock, SWriteAck(v)) == WantWrite(ACK)
    ensures ServerNext(w.stock, SWriteAck(v), Wrote(ACK)) == SDone(v, true)
    ensures Wants(w.setup, AwaitAck(v)) == WantRead(|ACK|)
    ensures Next(w.setup, AwaitAck(v), Got(ACK)) == Over(v, true, true)
  {
  }

  /** Everything was received: from version 4 on the acknowledgement comes back. */
  lemma LoopIsOver(w: World, x: Net, v: nat)
    requires x.c == AfterSend(v) && x.r == AfterReceived(v) && x.c2s == [] && x.s2c == []
    ensures Ends(w, x)
  {
    hide Smooth, Ends, Wants, Next, ServerWants, ServerNext, ServerEvent;
    var z := Net(Over(v, true, true), x.k, SDone(v, true), x.j, [], []);
    DoneIsIdle(w, z);
    ClientIsThrough(w, z);
    if v >= 4 {
      EndSteps(w, v);
      var y := Net(AwaitAck(v), x.k, SDone(v, true), x.j, [], ACK);
      assert ACK + [] == ACK == [] + ACK;
      ClientReads(w, y, ACK, [], Over(v, true, true));
      ServerWrites(w, x, ACK, SDone(v, true));
    } else {
      assert x == z;
    }
  }

  /** The length and the name of an entry. */
  lemma {:induction false} SendHeader(w: World, x: Net, v: nat, items: seq<Item>)
    requires items != [] && x.c == NameSizeOut(v, items) && x.r == SNameSize(v, |items|) && x.c2s == [] && x.s2c == []
    requires Sendable(w, v, items)
    ensures Ends(w, x)
    decreases |items|, 4, 1
  {
    hide Smooth, Ends, Wants, Next, ServerWants, ServerNext, EncodeSize, AtData;
    var a, b := EncodeSize(|items[0].name|), items[0].name;
    assert Sized(items[0]);
    HeaderSteps(w.setup, v, items);
    NameArrives(w, Net(SizeOut(v, items), x.k, x.r, x.j, a + b, []), v, items);
    assert [] + a == a;
    ClientWrites(w, Net(NameOut(v, items), x.k, x.r, x.j, a, []), b, SizeOut(v, items));
    ClientWrites(w, x, a, NameOut(v, items));
  }

  lemma {:induction false} NameArrives(w: World, x: Net, v: nat, items: seq<Item>)
    requires items != [] && x.c == SizeOut(v, items) && x.r == SNameSize(v, |items|) && x.s2c == []
    requires x.c2s == EncodeSize(|items[0].name|) + items[0].name && Sendable(w, v, items)
    ensures Ends(w, x)
    decreases |items|, 4, 0
  {
    hide Smooth, Ends, Wants, Next, ServerWants, ServerNext, EncodeSize, AtData, ServerInt;
    var a, b := EncodeSize(|items[0].name|), items[0].name;
    assert Sized(items[0]);
    ServerNameSteps(w.stock, v, |items|, b);
    var m := ServerInt(a);
    var next := if m < 0 then SDone(v, false) else SName(v, |items|, m);
    var z := Net(SizeOut(v, items), x.k, next, x.j, b, []);
    if m < 0 {
      SizeAlone(w, z, v, items);
    } else {
      ReadName(w, z, v, items);
    }
    ServerReads(w, x, a, b, next);
  }

  lemma {:induction false} ReadName(w: World, x: Net, v: nat, items: seq<Item>)
    requires items != [] && x.c == SizeOut(v, items) && x.r == SName(v, |items|, |items[0].name|)
    requires x.c2s == items[0].name && x.s2c == []
    requires Sendable(w, v, items)
    ensures Ends(w, x)
    decreases |items|, 3
  {
    hide Smooth, Ends, Wants, Next, ServerWants, ServerNext, EncodeSize, AtData, ServerInt;
    var b, ok := items[0].name, w.stock.luck(x.j);
    assert Sized(items[0]);
    ServerNameSteps(w.stock, v, |items|, b);
    ServerCheckStep(w.stock, v, |items|, ok);
    Lucky(w, x.j);
    var next := if ok then SSize(v, |items|) else SDone(v, false);
    var z := Net(x.c, x.k, next, x.j + 1, [], []);
    if ok {
      SendSize(w, z, v, items);
    } else {
      SizeAlone(w, z, v, items);
    }
    ServerDecides(w, Net(x.c, x.k, SNameCheck(v, |items|), x.j, [], []), next);
    assert b + [] == b;
    ServerReads(w, x, b, [], SNameCheck(v, |items|));
  }

  lemma {:induction false} SizeAlone(w: World, x: Net, v: nat, items: seq<Item>)
    requires !Smooth(w) && ServerGone(x) && items != [] && x.c == SizeOut(v, items)
    ensures Ends(w, x)
  {
    hide Smooth, Ends, Wants, Next, EncodeSize, AtData;
    SizeSteps(w.setup, v, items);
    var c := EncodeSize(AnnouncedSize(items[0]));
    DataAlone(w, Net(AtData(v, items, 0), x.k, x.r, x.j, x.c2s + c, []), v, items);
    ClientWrites(w, x, c, AtData(v, items, 0));
  }

  /** The size of an entry, and what the server makes of it. */
  lemma {:induction false} SendSize(w: World, x: Net, v: nat, items: seq<Item>)
    requires items != [] && x.c == SizeOut(v, items) && x.r == SSize(v, |items|) && x.c2s == [] && x.s2c == []
    requires Sendable(w, v, items)
    ensures Ends(w, x)
    decreases |items|, 2
  {
    hide Smooth, Ends, Wants, Next, ServerWants, ServerNext, EncodeSize, AtData, ServerInt;
    var size := AnnouncedSize(items[0]);
    var c := EncodeSize(size);
    assert Sized(items[0]);
    SizeSteps(w.setup, v, items);
    ServerSizeSteps(w.stock, v, |items|, size, [], true);
    var next := AtServerSize(v, |items|, ServerInt(c));
    var y := Net(AtData(v, items, 0), x.k, next, x.j, [], []);
    if next.SDone? {
      DataAlone(w, y, v, items);
    } else if next.SMakeDir? {
      SendDirectory(w, y, v, items);
    } else {
      SendFile(w, y, v, items);
    }
    assert c + [] == c == [] + c;
    ServerReads(w, Net(AtData(v, items, 0), x.k, x.r, x.j, c, []), c, [], next);
    ClientWrites(w, x, c, AtData(v, items, 0));
  }

  lemma {:induction false} SendDirectory(w: World, x: Net, v: nat, items: seq<Item>)
    requires items != [] && x.c == AtData(v, items, 0) && x.r == SMakeDir(v, |items|) && x.c2s == [] && x.s2c == []
    requires items[0].DirItem? && Sendable(w, v, items)
    ensures Ends(w, x)
    decreases |items|, 1
  {
    hide Smooth, Ends, ServerWants, ServerNext, EncodeSize, ServerInt, Sized;
    var ok := w.stock.luck(x.j);
    ServerSizeSteps(w.stock, v, |items|, -1, [], ok);
    Lucky(w, x.j);
    var next := if ok then AtNext(v, |items| - 1) else SDone(v, false);
    var y := Net(x.c, x.k, next, x.j + 1, [], []);
    if ok {
      SendLoop(w, y, v, items[1..]);
    } else {
      DataAlone(w, y, v, items);
    }
    ServerDecides(w, x, next);
  }

  lemma {:induction false} SendFile(w: World, x: Net, v: nat, items: seq<Item>)
    requires items != [] && items[0].FileItem? && x.c == AtData(v, items, 0)
    requires x.r == SOpen(v, |items|, |items[0].data|) && x.c2s == [] && x.s2c == []
    requires Sendable(w, v, items)
    ensures Ends(w, x)
    decreases |items|, 1
  {
    hide Smooth, Ends, ServerWants, ServerNext, EncodeSize, ServerInt, Sized, AtData, AtItem, AtNext;
    var ok, data := w.stock.luck(x.j), items[0].data;
    ServerSizeSteps(w.stock, v, |items|, -1, data, ok);
    Lucky(w, x.j);
    var next := if ok then SData(v, |items|, |data|) else SDone(v, false);
    var y := Net(x.c, x.k, next, x.j + 1, [], []);
    if ok {
      var r := AtNext(v, |items| - 1);
      SendLoop(w, Net(AtItem(v, items[1..]), x.k, r, x.j + 1, [], []), v, items[1..]);
      assert data + [] == data == [] + data[0..];
      ServerReads(w, Net(AtItem(v, items[1..]), x.k, next, x.j + 1, data, []), data, [], r);
      ClientSendsData(w, y, v, items, 0);
    } else {
      DataAlone(w, y, v, items);
    }
    ServerDecides(w, x, next);
  }
}
