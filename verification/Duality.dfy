/** The client and the mock server connected by two byte queues, under every interleaving of their steps. */
module Duality {
  import opened Bytes
  import opened Wire
  import opened Session
  import opened MockServer

  /** One connection: the request and the stock, and the data and the luck of the client. */
  datatype World = World(
    setup: Setup,
    text: Option<bytes>,
    outgoing: nat -> Option<seq<Item>>,
    luck: nat -> bool,
    stock: Stock)

  /** Both ends and what is in flight between them; k and j count their local operations. */
  datatype Net = Net(c: State, k: nat, r: Server, j: nat, c2s: bytes, s2c: bytes)

  const START := Net(Hello, 0, SHello, 0, [], [])

  /** What the client can do now; nothing while it waits for bytes, and nothing more once it starts its close. */
  function ClientEvent(w: World, x: Net): Option<Event> {
    match Wants(w.setup, x.c)
    case WantWrite(d) => Some(Wrote(d))
    case WantRead(n) => if n <= |x.s2c| then Some(Got(x.s2c[..n])) else None
    case WantLocal => Some(Local(w.luck(x.k)))
    case WantText => Some(Copied(w.text))
    case WantList => if x.c.ListFiles? then Some(Listed(w.outgoing(x.c.v))) else None
    case WantClose => None
    case WantNothing => None
  }

  function ServerEvent(w: World, x: Net): Option<Event> {
    match ServerWants(w.stock, x.r)
    case WantWrite(d) => Some(Wrote(d))
    case WantRead(n) => if n <= |x.c2s| then Some(Got(x.c2s[..n])) else None
    case WantLocal => Some(Local(w.stock.luck(x.j)))
    case _ => None
  }

  function WrittenBy(ev: Event): bytes {
    if ev.Wrote? then ev.data else []
  }

  function TakenBy(ev: Event): nat {
    if ev.Got? then |ev.data| else 0
  }

  function Tick(ev: Event): nat {
    if ev.Local? then 1 else 0
  }

  /** One step of the client (true) or of the server (false), if it can step. */
  function Go(w: World, x: Net, client: bool): Option<Net> {
    if client then
      match ClientEvent(w, x)
      case None => None
      case Some(ev) =>
        Some(Net(Next(w.setup, x.c, ev), x.k + Tick(ev), x.r, x.j, x.c2s + WrittenBy(ev), x.s2c[TakenBy(ev)..]))
    else
      match ServerEvent(w, x)
      case None => None
      case Some(ev) =>
        Some(Net(x.c, x.k, ServerNext(w.stock, x.r, ev), x.j + Tick(ev), x.c2s[TakenBy(ev)..], x.s2c + WrittenBy(ev)))
  }

  function Run(w: World, x: Net, word: seq<bool>): Option<Net>
    decreases |word|
  {
    if word == [] then Some(x)
    else
      match Go(w, x, word[0])
      case None => None
      case Some(y) => Run(w, y, word[1..])
  }

  predicate Stuck(w: World, x: Net) {
    Go(w, x, true) == None && Go(w, x, false) == None
  }

  /** A step of one end does not change what the other can do, and the order of two steps does not matter. */
  lemma Diamond(w: World, x: Net)
    requires Go(w, x, true).Some? && Go(w, x, false).Some?
    ensures Go(w, Go(w, x, true).value, false) == Go(w, Go(w, x, false).value, true)
    ensures Go(w, Go(w, x, true).value, false).Some?
  {
    hide Wants, ServerWants, Next, ServerNext;
    var e, f := ClientEvent(w, x).value, ServerEvent(w, x).value;
    var y, z := Go(w, x, true).value, Go(w, x, false).value;
    assert TakenBy(e) <= |x.s2c| && TakenBy(f) <= |x.c2s|;
    assert (x.c2s + WrittenBy(e))[..TakenBy(f)] == x.c2s[..TakenBy(f)];
    assert (x.s2c + WrittenBy(f))[..TakenBy(e)] == x.s2c[..TakenBy(e)];
    assert ServerEvent(w, y) == Some(f) && ClientEvent(w, z) == Some(e);
    assert (x.c2s + WrittenBy(e))[TakenBy(f)..] == x.c2s[TakenBy(f)..] + WrittenBy(e);
    assert (x.s2c + WrittenBy(f))[TakenBy(e)..] == x.s2c[TakenBy(e)..] + WrittenBy(f);
  }

  /** A run to a stuck state can take any possible step first. */
  lemma {:induction false} StepFirst(w: World, x: Net, word: seq<bool>, client: bool) returns (rest: seq<bool>)
    requires Run(w, x, word).Some? && Stuck(w, Run(w, x, word).value) && Go(w, x, client).Some?
    ensures |word| == |rest| + 1 && Run(w, Go(w, x, client).value, rest) == Run(w, x, word)
    decreases |word|
  {
    hide Go;
    if word[0] == client {
      rest := word[1..];
    } else {
      Diamond(w, x);
      var x' := Go(w, x, word[0]).value;
      var tail := StepFirst(w, x', word[1..], client);
      rest := [word[0]] + tail;
      assert rest[1..] == tail;
    }
  }

  /** All maximal runs end in the same state after the same number of steps: from every reachable state the rest of
      the run is still possible. */
  lemma {:induction false} Confluence(w: World, x: Net, word: seq<bool>, other: seq<bool>) returns (rest: seq<bool>)
    requires Run(w, x, word).Some? && Stuck(w, Run(w, x, word).value) && Run(w, x, other).Some?
    ensures |word| == |other| + |rest| && Run(w, Run(w, x, other).value, rest) == Run(w, x, word)
    decreases |other|
  {
    hide Go;
    if other == [] {
      rest := word;
    } else {
      var tail := StepFirst(w, x, word, other[0]);
      rest := Confluence(w, Go(w, x, other[0]).value, tail, other[1..]);
    }
  }

  // Where runs end.

  /** The client starts its close. */
  predicate Closing(st: State) {
    st.Over? || st.Detach?
  }

  predicate ClientSucceeded(st: State) {
    st.Detach? || (st.Over? && st.ok)
  }

  predicate BothSucceeded(x: Net) {
    ClientSucceeded(x.c) && x.r.SDone? && x.r.ok
  }

  predicate RangesMeet(w: World) {
    w.setup.minVersion <= w.stock.protoMax && w.stock.protoMin <= w.setup.maxVersion
  }

  function HighestCommon(w: World): nat {
    if w.setup.maxVersion < w.stock.protoMax then w.setup.maxVersion else w.stock.protoMax
  }

  /** An entry the client takes. */
  predicate Takes(s: Setup, v: nat, item: Item) {
    && 0 < |item.name| <= MAX_FILE_NAME_LENGTH && AnnouncedSize(item) <= s.maxFileSize
    && (item.DirItem? ==> v >= 3)
  }

  /** An entry the server takes. */
  predicate ServerTakes(v: nat, item: Item) {
    |item.name| < TWO_32 && AnnouncedSize(item) < TWO_32 && (item.DirItem? ==> v >= 3)
  }

  predicate TakesText(s: Setup, t: bytes) {
    0 < |t| <= s.maxText && s.utf8(t)
  }

  /** The request can be met and what is sent fits the limits of the other end. */
  predicate Granted(w: World, v: nat) {
    var s, k := w.setup, w.stock;
    if s.request == METHOD_GET_TEXT then k.text.Some? && TakesText(s, k.text.value)
    else if s.request == METHOD_SEND_TEXT then w.text.Some? && |w.text.value| < TWO_32
    else if s.request == METHOD_GET_FILE then
      && k.filesCopied && 0 < |k.files(v)| <= s.maxFileCount
      && forall item | item in k.files(v) :: Takes(s, v, item)
    else if s.request == METHOD_SEND_FILE then
      && w.outgoing(v).Some? && 0 < |w.outgoing(v).value| < TWO_32
      && forall item | item in w.outgoing(v).value :: ServerTakes(v, item)
    else if s.request == METHOD_GET_IMAGE then |if k.imageCopied then k.image else k.screen| <= s.maxFileSize
    else if s.request == METHOD_GET_COPIED_IMAGE then v >= 3 && k.imageCopied && |k.image| <= s.maxFileSize
    else s.request == METHOD_GET_SCREENSHOT && v >= 3 && s.display in {0, 1} && |k.screen| <= s.maxFileSize
  }

  /** Nothing stands in the way: the version ranges meet, the request is granted, and no local operation fails. */
  ghost predicate Smooth(w: World) {
    && 1 <= w.setup.minVersion <= w.setup.maxVersion <= 4 && 1 <= w.stock.protoMin <= w.stock.protoMax
    && RangesMeet(w) && Granted(w, HighestCommon(w))
    && (forall k: nat :: w.luck(k)) && (forall k: nat :: w.stock.luck(k))
  }

  lemma Lucky(w: World, k: nat)
    ensures Smooth(w) ==> w.luck(k) && w.stock.luck(k)
  {
  }

  /** One end has started its close; when both succeeded every byte written was read, and both succeed when nothing
      stands in the way. */
  ghost predicate Fine(w: World, x: Net) {
    && (Closing(x.c) || x.r.SDone?)
    && (BothSucceeded(x) ==> x.c2s == [] && x.s2c == [])
    && (Smooth(w) ==> BothSucceeded(x))
  }

  ghost predicate Ends(w: World, x: Net) {
    exists word :: EndsBy(w, x, word)
  }

  ghost predicate EndsBy(w: World, x: Net, word: seq<bool>) {
    Run(w, x, word).Some? && Stuck(w, Run(w, x, word).value) && Fine(w, Run(w, x, word).value)
  }

  lemma Back(w: World, x: Net, client: bool)
    requires Go(w, x, client).Some? && Ends(w, Go(w, x, client).value)
    ensures Ends(w, x)
  {
    hide Go, Stuck, Fine;
    var word :| EndsBy(w, Go(w, x, client).value, word);
    assert ([client] + word)[1..] == word;
    assert EndsBy(w, x, [client] + word);
  }

  lemma EndsHere(w: World, x: Net)
    requires ClientEvent(w, x) == None && ServerEvent(w, x) == None && Fine(w, x)
    ensures Ends(w, x)
  {
    hide ClientEvent, ServerEvent, Fine;
    assert EndsBy(w, x, []);
  }

  lemma WritesTo(w: World, x: Net, d: bytes, next: State)
    requires Wants(w.setup, x.c) == WantWrite(d) && Next(w.setup, x.c, Wrote(d)) == next
    ensures Go(w, x, true) == Some(Net(next, x.k, x.r, x.j, x.c2s + d, x.s2c))
  {
    hide Wants, Next;
    assert x.s2c[0..] == x.s2c;
  }

  lemma ReadsTo(w: World, x: Net, d: bytes, rest: bytes, next: State)
    requires x.s2c == d + rest
    requires Wants(w.setup, x.c) == WantRead(|d|) && Next(w.setup, x.c, Got(d)) == next
    ensures Go(w, x, true) == Some(Net(next, x.k, x.r, x.j, x.c2s, rest))
  {
    hide Wants, Next;
    assert x.s2c[..|d|] == d && x.s2c[|d|..] == rest && x.c2s + [] == x.c2s;
  }

  lemma ServerWritesTo(w: World, x: Net, d: bytes, next: Server)
    requires ServerWants(w.stock, x.r) == WantWrite(d) && ServerNext(w.stock, x.r, Wrote(d)) == next
    ensures Go(w, x, false) == Some(Net(x.c, x.k, next, x.j, x.c2s, x.s2c + d))
  {
    hide ServerWants, ServerNext;
    assert x.c2s[0..] == x.c2s;
  }

  lemma ServerReadsTo(w: World, x: Net, d: bytes, rest: bytes, next: Server)
    requires x.c2s == d + rest
    requires ServerWants(w.stock, x.r) == WantRead(|d|) && ServerNext(w.stock, x.r, Got(d)) == next
    ensures Go(w, x, false) == Some(Net(x.c, x.k, next, x.j, rest, x.s2c))
  {
    hide ServerWants, ServerNext;
    assert x.c2s[..|d|] == d && x.c2s[|d|..] == rest && x.s2c + [] == x.s2c;
  }

  lemma ClientWrites(w: World, x: Net, d: bytes, next: State)
    requires Wants(w.setup, x.c) == WantWrite(d) && Next(w.setup, x.c, Wrote(d)) == next
    requires Ends(w, Net(next, x.k, x.r, x.j, x.c2s + d, x.s2c))
    ensures Ends(w, x)
  {
    hide Wants, Next, Ends, Go;
    WritesTo(w, x, d, next);
    Back(w, x, true);
  }

  lemma ClientReads(w: World, x: Net, d: bytes, rest: bytes, next: State)
    requires x.s2c == d + rest
    requires Wants(w.setup, x.c) == WantRead(|d|) && Next(w.setup, x.c, Got(d)) == next
    requires Ends(w, Net(next, x.k, x.r, x.j, x.c2s, rest))
    ensures Ends(w, x)
  {
    hide Wants, Next, Ends, Go;
    ReadsTo(w, x, d, rest, next);
    Back(w, x, true);
  }

  lemma ClientDecides(w: World, x: Net, next: State)
    requires Wants(w.setup, x.c) == WantLocal && Next(w.setup, x.c, Local(w.luck(x.k))) == next
    requires Ends(w, Net(next, x.k + 1, x.r, x.j, x.c2s, x.s2c))
    ensures Ends(w, x)
  {
    hide Wants, Next, Ends;
    assert x.s2c[0..] == x.s2c && x.c2s + [] == x.c2s;
    Back(w, x, true);
  }

  lemma ServerWrites(w: World, x: Net, d: bytes, next: Server)
    requires ServerWants(w.stock, x.r) == WantWrite(d) && ServerNext(w.stock, x.r, Wrote(d)) == next
    requires Ends(w, Net(x.c, x.k, next, x.j, x.c2s, x.s2c + d))
    ensures Ends(w, x)
  {
    hide ServerWants, ServerNext, Ends, Go;
    ServerWritesTo(w, x, d, next);
    Back(w, x, false);
  }

  lemma ServerReads(w: World, x: Net, d: bytes, rest: bytes, next: Server)
    requires x.c2s == d + rest
    requires ServerWants(w.stock, x.r) == WantRead(|d|) && ServerNext(w.stock, x.r, Got(d)) == next
    requires Ends(w, Net(x.c, x.k, next, x.j, rest, x.s2c))
    ensures Ends(w, x)
  {
    hide ServerWants, ServerNext, Ends, Go;
    ServerReadsTo(w, x, d, rest, next);
    Back(w, x, false);
  }

  lemma ServerDecides(w: World, x: Net, next: Server)
    requires ServerWants(w.stock, x.r) == WantLocal && ServerNext(w.stock, x.r, Local(w.stock.luck(x.j))) == next
    requires Ends(w, Net(x.c, x.k, next, x.j + 1, x.c2s, x.s2c))
    ensures Ends(w, x)
  {
    hide ServerWants, ServerNext, Ends;
    assert x.c2s[0..] == x.c2s && x.s2c + [] == x.s2c;
    Back(w, x, false);
  }

  /** The client has started its close and the server waits for bytes that do not come, or is done too. */
  lemma ClientIsThrough(w: World, x: Net)
    requires Closing(x.c) && (x.c.Over? ==> x.c.open) && ServerEvent(w, x) == None
    requires BothSucceeded(x) ==> x.c2s == [] && x.s2c == []
    requires Smooth(w) ==> BothSucceeded(x)
    ensures Ends(w, x)
  {
    hide ServerEvent, Smooth;
    EndsHere(w, x);
  }

  lemma Waiting(w: World, x: Net, n: nat)
    requires ServerWants(w.stock, x.r) == WantRead(n) && n > |x.c2s|
    ensures ServerEvent(w, x) == None
  {
  }
}
