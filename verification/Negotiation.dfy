/** Version negotiation between the client and the mock server, and the theorems on whole sessions that start with it:
    they hold for every interleaving. */
module Negotiation {
  import opened Bytes
  import opened Wire
  import opened Session
  import opened MockServer
  import opened Duality
  import opened NoDeadlock

  ghost predicate Reaches(w: World, x: Net, y: Net) {
    exists word :: Run(w, x, word) == Some(y)
  }

  lemma Reach(w: World, x: Net, client: bool, y: Net, z: Net)
    requires Go(w, x, client) == Some(y) && Reaches(w, y, z)
    ensures Reaches(w, x, z)
  {
    hide Go;
    var word :| Run(w, y, word) == Some(z);
    assert ([client] + word)[1..] == word;
    assert Run(w, x, [client] + word) == Some(z);
  }

  lemma ReachSelf(w: World, x: Net)
    ensures Reaches(w, x, x)
  {
    assert Run(w, x, []) == Some(x);
  }

  lemma {:induction false} RunCat(w: World, x: Net, a: seq<bool>, b: seq<bool>)
    requires Run(w, x, a).Some?
    ensures Run(w, x, a + b) == Run(w, Run(w, x, a).value, b)
    decreases |a|
  {
    hide Go;
    if a == [] {
      assert a + b == b;
    } else {
      assert (a + b)[1..] == a[1..] + b;
      RunCat(w, Go(w, x, a[0]).value, a[1..], b);
    }
  }

  lemma EndsFrom(w: World, x: Net, y: Net)
    requires Reaches(w, x, y) && Ends(w, y)
    ensures Ends(w, x)
  {
    hide Go, Stuck, Fine, Smooth;
    var a :| Run(w, x, a) == Some(y);
    var b :| EndsBy(w, y, b);
    RunCat(w, x, a, b);
    assert EndsBy(w, x, a + b);
  }

  const NO_VERSION := Net(Failed(0), 0, SDone(0, false), 0, [], [])

  function Speaking(w: World, v: nat): Net {
    Net(Enter(w.setup, v), 0, SMethod(v), 0, [], [])
  }

  /** Where an offer of the server's highest version leads. */
  function Answered(w: World): Net {
    var p := w.stock.protoMax;
    if p < w.setup.minVersion || p > w.setup.maxVersion then NO_VERSION
    else if p == 0 then Net(Enter(w.setup, 0), 0, SDone(0, false), 0, [], [])
    else Speaking(w, p)
  }

  /** Where the negotiation leads. */
  function Negotiated(w: World): Net {
    var b, p := w.setup.maxVersion % 256, w.stock.protoMax;
    if b < w.stock.protoMin then NO_VERSION
    else if b <= p then Speaking(w, b)
    else Answered(w)
  }

  lemma Alone(d: bytes)
    ensures d + [] == d == [] + d
  {
  }

  lemma ClientHello(s: Setup)
    ensures var d := [s.maxVersion % 256]; Wants(s, Hello) == WantWrite(d) && Next(s, Hello, Wrote(d)) == AwaitStatus
  {
    hide EncodeSize, DecodeSize, InfoMatches, StartSending, AtItem, AtData, AfterSave, AtBody, AtSize, Dispatch,
      Enter, KnownMethod, AfterSend;
  }

  lemma ClientStatus(s: Setup)
    ensures Wants(s, AwaitStatus) == WantRead(1)
    ensures Next(s, AwaitStatus, Got([PROTOCOL_SUPPORTED])) == Enter(s, s.maxVersion % 256)
    ensures Next(s, AwaitStatus, Got([PROTOCOL_UNKNOWN])) == AwaitOffer
    ensures Next(s, AwaitStatus, Got([PROTOCOL_OBSOLETE])) == Failed(0)
  {
    hide EncodeSize, DecodeSize, InfoMatches, StartSending, AtItem, AtData, AfterSave, AtBody, AtSize, Dispatch,
      Enter, KnownMethod, AfterSend;
  }

  lemma ClientOffer(s: Setup, p: byte)
    ensures Wants(s, AwaitOffer) == WantRead(1)
    ensures Next(s, AwaitOffer, Got([p])) == if p < s.minVersion || p > s.maxVersion then Refusing else Accepting(p)
    ensures Wants(s, Refusing) == WantWrite([0]) && Next(s, Refusing, Wrote([0])) == Failed(0)
    ensures Wants(s, Accepting(p)) == WantWrite([p]) && Next(s, Accepting(p), Wrote([p])) == Enter(s, p)
  {
    hide EncodeSize, DecodeSize, InfoMatches, StartSending, AtItem, AtData, AfterSave, AtBody, AtSize, Dispatch,
      Enter, KnownMethod, AfterSend;
  }

  lemma ServerHello(k: Stock, b: byte)
    requires k.protoMax < 256
    ensures ServerWants(k, SHello) == WantRead(1)
    ensures ServerNext(k, SHello, Got([b]))
         == if b < k.protoMin then SObsolete else if b > k.protoMax then SUnknown else SSupported(b)
    ensures ServerWants(k, SObsolete) == WantWrite([PROTOCOL_OBSOLETE])
    ensures ServerNext(k, SObsolete, Wrote([PROTOCOL_OBSOLETE])) == SDone(0, false)
    ensures ServerWants(k, SSupported(b)) == WantWrite([PROTOCOL_SUPPORTED])
    ensures ServerNext(k, SSupported(b), Wrote([PROTOCOL_SUPPORTED])) == SMethod(b)
  {
    hide EncodeSize, DecodeSize;
  }

  lemma ServerOffer(k: Stock, p: byte)
    requires p == k.protoMax
    ensures ServerWants(k, SUnknown) == WantWrite([PROTOCOL_UNKNOWN])
    ensures ServerNext(k, SUnknown, Wrote([PROTOCOL_UNKNOWN])) == SOffer
    ensures ServerWants(k, SOffer) == WantWrite([p]) && ServerNext(k, SOffer, Wrote([p])) == SResponse
    ensures ServerWants(k, SResponse) == WantRead(1)
    ensures ServerNext(k, SResponse, Got([0])) == SDone(0, false)
    ensures p != 0 ==> ServerNext(k, SResponse, Got([p])) == SMethod(p)
  {
    hide EncodeSize, DecodeSize;
  }

  /** The offer is made. */
  lemma Offered(w: World)
    requires w.stock.protoMax < 256
    ensures Reaches(w, Net(AwaitStatus, 0, SUnknown, 0, [], []), Answered(w))
  {
    hide Wants, Next, ServerWants, ServerNext, Go, Reaches, Answered;
    var p: byte := w.stock.protoMax;
    ClientStatus(w.setup);
    ServerOffer(w.stock, p);
    var x := Net(AwaitStatus, 0, SUnknown, 0, [], []);
    var x1 := Net(AwaitStatus, 0, SOffer, 0, [], [PROTOCOL_UNKNOWN]);
    var x2 := Net(AwaitOffer, 0, SOffer, 0, [], []);
    Alone([PROTOCOL_UNKNOWN]);
    OfferAnswered(w);
    ServerWritesTo(w, x, [PROTOCOL_UNKNOWN], SOffer);
    ReadsTo(w, x1, [PROTOCOL_UNKNOWN], [], AwaitOffer);
    Reach(w, x1, true, x2, Answered(w));
    Reach(w, x, false, x1, Answered(w));
  }

  lemma AnswerSteps(w: World, p: byte, answer: byte, mid: State)
    requires p == w.stock.protoMax
    requires answer == if p < w.setup.minVersion || p > w.setup.maxVersion then 0 else p
    requires mid == if p < w.setup.minVersion || p > w.setup.maxVersion then Refusing else Accepting(p)
    ensures var last := Answered(w);
            && last == Net(last.c, 0, last.r, 0, [], [])
            && Wants(w.setup, AwaitOffer) == WantRead(1) && Next(w.setup, AwaitOffer, Got([p])) == mid
            && Wants(w.setup, mid) == WantWrite([answer]) && Next(w.setup, mid, Wrote([answer])) == last.c
            && ServerWants(w.stock, SResponse) == WantRead(1)
            && ServerNext(w.stock, SResponse, Got([answer])) == last.r
  {
    hide Wants, Next, ServerWants, ServerNext, Enter;
    ClientOffer(w.setup, p);
    ServerOffer(w.stock, p);
  }

  /** The offer is answered. */
  lemma OfferAnswered(w: World)
    requires w.stock.protoMax < 256
    ensures Reaches(w, Net(AwaitOffer, 0, SOffer, 0, [], []), Answered(w))
  {
    hide Wants, Next, ServerWants, ServerNext, Go, Reaches, Answered;
    var p: byte := w.stock.protoMax;
    var answer: byte := if p < w.setup.minVersion || p > w.setup.maxVersion then 0 else p;
    var mid := if p < w.setup.minVersion || p > w.setup.maxVersion then Refusing else Accepting(p);
    var last := Answered(w);
    ServerOffer(w.stock, p);
    AnswerSteps(w, p, answer, mid);
    var x := Net(AwaitOffer, 0, SOffer, 0, [], []);
    var x1 := Net(AwaitOffer, 0, SResponse, 0, [], [p]);
    var x2 := Net(mid, 0, SResponse, 0, [], []);
    var x3 := Net(last.c, 0, SResponse, 0, [answer], []);
    Alone([p]);
    Alone([answer]);
    ServerWritesTo(w, x, [p], SResponse);
    ReadsTo(w, x1, [p], [], mid);
    WritesTo(w, x2, [answer], last.c);
    ServerReadsTo(w, x3, [answer], [], last.r);
    ReachSelf(w, last);
    Reach(w, x3, false, last, last);
    Reach(w, x2, true, x3, last);
    Reach(w, x1, true, x2, last);
    Reach(w, x, false, x1, last);
  }

  /** The server answers the first version at once: it is too old, or both know it. */
  lemma AnsweredAtOnce(w: World, first: Server)
    requires w.stock.protoMax < 256 && first != SUnknown
    requires first == ServerNext(w.stock, SHello, Got([w.setup.maxVersion % 256]))
    ensures Reaches(w, Net(AwaitStatus, 0, first, 0, [], []), Negotiated(w))
  {
    hide Wants, Next, ServerWants, ServerNext, Go, Reaches, Enter;
    var x := Negotiated(w);
    ClientStatus(w.setup);
    ServerHello(w.stock, w.setup.maxVersion % 256);
    var status := if first == SObsolete then PROTOCOL_OBSOLETE else PROTOCOL_SUPPORTED;
    var x2, x3 := Net(AwaitStatus, 0, first, 0, [], []), Net(AwaitStatus, 0, x.r, 0, [], [status]);
    Alone([status]);
    ServerWritesTo(w, x2, [status], x.r);
    ReadsTo(w, x3, [status], [], x.c);
    ReachSelf(w, x);
    Reach(w, x3, true, x, x);
    Reach(w, x2, false, x3, x);
  }

  lemma ReachesNegotiated(w: World)
    requires w.stock.protoMax < 256
    ensures Reaches(w, START, Negotiated(w))
  {
    hide Wants, Next, ServerWants, ServerNext, Go, Reaches, Enter;
    var b, p: byte := w.setup.maxVersion % 256, w.stock.protoMax;
    var x := Negotiated(w);
    ClientHello(w.setup);
    ServerHello(w.stock, b);
    var x1 := Net(AwaitStatus, 0, SHello, 0, [b], []);
    var first := ServerNext(w.stock, SHello, Got([b]));
    var x2 := Net(AwaitStatus, 0, first, 0, [], []);
    Alone([b]);
    WritesTo(w, START, [b], AwaitStatus);
    ServerReadsTo(w, x1, [b], [], first);
    if first == SUnknown {
      Offered(w);
    } else {
      AnsweredAtOnce(w, first);
    }
    Reach(w, x1, false, x2, x);
    Reach(w, START, true, x1, x);
  }

  lemma RequestSteps(s: Setup, k: Stock, v: nat)
    ensures Wants(s, Request(v)) == WantWrite([s.request])
    ensures Next(s, Request(v), Wrote([s.request])) == AwaitMethodStatus(v)
    ensures ServerWants(k, SMethod(v)) == WantRead(1)
    ensures ServerNext(k, SMethod(v), Got([s.request])) == Handler(k, v, s.request)
  {
    hide EncodeSize, DecodeSize, Handler;
  }

  lemma SpeakingEnds(w: World, v: nat)
    requires Sane(w) && (Smooth(w) ==> v == HighestCommon(w))
    ensures Ends(w, Speaking(w, v))
  {
    hide Wants, Next, ServerWants, ServerNext, Ends, Sane, KnownMethod, Handler, ServerEvent;
    var x, m := Speaking(w, v), [w.setup.request];
    RequestSteps(w.setup, w.stock, v);
    if x.c == Request(v) {
      var h := Handler(w.stock, v, w.setup.request);
      Requested(w, Net(AwaitMethodStatus(v), 0, h, 0, [], []), v);
      Alone(m);
      ServerReads(w, Net(AwaitMethodStatus(v), 0, SMethod(v), 0, m, []), m, [], h);
      ClientWrites(w, x, m, AwaitMethodStatus(v));
    } else {
      Waiting(w, x, 1);
      if Smooth(w) {
        SmoothEnters(w);
      }
      ClientIsThrough(w, x);
    }
  }

  lemma SmoothEnters(w: World)
    requires Smooth(w)
    ensures Enter(w.setup, HighestCommon(w)) == Request(HighestCommon(w))
  {
  }

  /** The session runs to its end from the start. */
  lemma StartEnds(w: World)
    requires Sane(w)
    ensures Ends(w, START) && Ends(w, Negotiated(w))
  {
    hide Ends, Reaches, Wants, Next, ServerWants, ServerNext, Enter;
    ReachesNegotiated(w);
    var x := Negotiated(w);
    if x == NO_VERSION {
      SendExchanges.GoneIsOver(w, x);
    } else if x.r.SDone? {
      EnterNothing(w.setup);
      SendExchanges.GoneIsOver(w, x);
    } else {
      SpeakingEnds(w, x.r.v);
    }
    EndsFrom(w, START, x);
  }

  lemma EnterNothing(s: Setup)
    ensures Enter(s, 0) == Failed(0)
  {
  }

  /** Session duality. For every version, request, data, local failure and interleaving: as long as neither end has
      started its close, one of them can step, so they never both wait; the run can be continued to an end at which, if
      both succeeded, every byte written was read. */
  lemma SessionDuality(w: World, word: seq<bool>)
    requires Sane(w) && Run(w, START, word).Some?
    ensures var x := Run(w, START, word).value;
            && Ends(w, x)
            && (!Closing(x.c) && !x.r.SDone? ==> !Stuck(w, x))
            && (Stuck(w, x) && BothSucceeded(x) ==> x.c2s == [] && x.s2c == [])
            && (Stuck(w, x) && Smooth(w) ==> BothSucceeded(x))
  {
    hide Go, Stuck, ClientSucceeded, Smooth;
    StartEnds(w);
    var whole :| EndsBy(w, START, whole);
    var rest := Confluence(w, START, whole, word);
    var x := Run(w, START, word).value;
    assert EndsBy(w, x, rest);
    if Stuck(w, x) && rest != [] {
      NoStep(w, x, rest[0]);
      assert false;
    }
  }

  lemma NoStep(w: World, x: Net, client: bool)
    requires Stuck(w, x)
    ensures Go(w, x, client) == None
  {
  }

  /** All complete runs of a session end alike, after the same number of steps. */
  lemma SameEnd(w: World, word: seq<bool>, other: seq<bool>)
    requires Run(w, START, word).Some? && Stuck(w, Run(w, START, word).value)
    requires Run(w, START, other).Some? && Stuck(w, Run(w, START, other).value)
    ensures Run(w, START, word) == Run(w, START, other) && |word| == |other|
  {
    hide Go, Stuck;
    var rest := Confluence(w, START, word, other);
    if rest != [] {
      NoStep(w, Run(w, START, other).value, rest[0]);
      assert false;
    }
  }

  // The version in use

  function ClientVersion(st: State): Option<nat> {
    match st
    case Hello => None
    case AwaitStatus => None
    case AwaitOffer => None
    case Refusing => None
    case Astray => None
    case _ => if st.v == 0 then None else Some(st.v)
  }

  function ServerVersion(r: Server): Option<nat> {
    match r
    case SHello => None
    case SObsolete => None
    case SUnknown => None
    case SOffer => None
    case SResponse => None
    case _ => if r.v == 0 then None else Some(r.v)
  }

  lemma ClientKeeps(s: Setup, st: State, ev: Event)
    requires Fits(Wants(s, st), ev) && ClientVersion(st).Some? && !(ev.WriteCut? && st.Accepting?)
    ensures ClientVersion(Next(s, st, ev)) == ClientVersion(st)
  {
    hide Next, Wants, Fits, ClientVersion;
    if ev.Local? {
      ClientDecisionKeeps(s, st, ev);
    } else if ev.Wrote? || ev.WriteCut? {
      ClientWriteKeeps(s, st, ev);
    } else if ev.Got? || ev.ReadCut? {
      ClientReadKeeps(s, st, ev);
    } else {
      ClientTakeKeeps(s, st, ev);
    }
  }

  lemma ClientDecisionKeeps(s: Setup, st: State, ev: Event)
    requires Fits(Wants(s, st), ev) && ClientVersion(st).Some? && ev.Local?
    ensures ClientVersion(Next(s, st, ev)) == ClientVersion(st)
  {
    hide EncodeSize, DecodeSize, InfoMatches, KnownMethod, StartSending, AtItem, AtData, Dispatch, Enter, AtSize;
  }

  lemma ClientWriteKeeps(s: Setup, st: State, ev: Event)
    requires Fits(Wants(s, st), ev) && ClientVersion(st).Some? && !(ev.WriteCut? && st.Accepting?)
    requires ev.Wrote? || ev.WriteCut?
    ensures ClientVersion(Next(s, st, ev)) == ClientVersion(st)
  {
    hide EncodeSize, DecodeSize, InfoMatches, KnownMethod, StartSending, Dispatch, AtSize, AfterSave, AtBody;
  }

  lemma ClientReadKeeps(s: Setup, st: State, ev: Event)
    requires Fits(Wants(s, st), ev) && ClientVersion(st).Some? && (ev.Got? || ev.ReadCut?)
    ensures ClientVersion(Next(s, st, ev)) == ClientVersion(st)
  {
    hide EncodeSize, DecodeSize, InfoMatches, KnownMethod, AtData, AfterSave, AtBody, StartSending, AtItem, AfterSend;
  }

  lemma ClientTakeKeeps(s: Setup, st: State, ev: Event)
    requires Fits(Wants(s, st), ev) && ClientVersion(st).Some? && !(ev.Local? || ev.Wrote? || ev.WriteCut?)
    requires !ev.Got? && !ev.ReadCut?
    ensures ClientVersion(Next(s, st, ev)) == ClientVersion(st)
  {
    hide EncodeSize, DecodeSize, InfoMatches, KnownMethod, AtData, AfterSave, AtBody, Enter, Dispatch, AtSize;
  }

  lemma ServerKeeps(k: Stock, r: Server, ev: Event)
    requires Fits(ServerWants(k, r), ev) && !ev.WriteCut? && !ev.ReadCut? && ServerVersion(r).Some?
    ensures ServerVersion(ServerNext(k, r, ev)) == ServerVersion(r)
  {
    hide EncodeSize, DecodeSize;
  }

  lemma {:induction false} VersionsStay(w: World, x: Net, word: seq<bool>)
    requires Run(w, x, word).Some?
    ensures var y := Run(w, x, word).value;
            && (ClientVersion(x.c).Some? ==> ClientVersion(y.c) == ClientVersion(x.c))
            && (ServerVersion(x.r).Some? ==> ServerVersion(y.r) == ServerVersion(x.r))
    decreases |word|
  {
    hide Wants, Next, ServerWants, ServerNext, ClientVersion, ServerVersion;
    if word != [] {
      var y := Go(w, x, word[0]).value;
      if word[0] && ClientVersion(x.c).Some? {
        ClientKeeps(w.setup, x.c, ClientEvent(w, x).value);
      } else if !word[0] && ServerVersion(x.r).Some? {
        ServerKeeps(w.stock, x.r, ServerEvent(w, x).value);
      }
      VersionsStay(w, y, word[1..]);
    }
  }

  lemma EnterVersion(w: World)
    requires 1 <= w.setup.minVersion <= w.setup.maxVersion <= 4 && 1 <= w.stock.protoMin <= w.stock.protoMax < 256
    ensures var x, v := Negotiated(w), HighestCommon(w);
            if RangesMeet(w) then
              && ClientVersion(x.c) == Some(v) == ServerVersion(x.r)
              && w.setup.minVersion <= v <= w.setup.maxVersion && w.stock.protoMin <= v <= w.stock.protoMax
            else x == NO_VERSION
  {
  }

  predicate InBoth(w: World, u: nat) {
    w.setup.minVersion <= u <= w.setup.maxVersion && w.stock.protoMin <= u <= w.stock.protoMax
  }

  /** Negotiation, for every client range of known versions and every server range: in every run, whichever end has a
      version in use has the highest one both ranges contain, so both have the same; every complete run ends with both
      using it when the ranges meet, and with neither using any when they do not. */
  lemma VersionsAgree(w: World, word: seq<bool>)
    requires Sane(w) && Run(w, START, word).Some?
    requires 1 <= w.setup.minVersion <= w.setup.maxVersion <= 4 && 1 <= w.stock.protoMin <= w.stock.protoMax
    ensures var x, v := Run(w, START, word).value, HighestCommon(w);
            && (ClientVersion(x.c).Some? ==> RangesMeet(w) && ClientVersion(x.c).value == v)
            && (ServerVersion(x.r).Some? ==> RangesMeet(w) && ServerVersion(x.r).value == v)
            && (Stuck(w, x) ==>
                 && (RangesMeet(w) <==> ClientVersion(x.c) == Some(v))
                 && (RangesMeet(w) <==> ServerVersion(x.r) == Some(v)))
    ensures RangesMeet(w) ==>
      InBoth(w, HighestCommon(w))
    ensures forall u: nat | InBoth(w, u) :: RangesMeet(w) && u <= HighestCommon(w)
  {
    hide Go, Stuck, Negotiated, Fine, Smooth, ClientVersion, ServerVersion;
    StartEnds(w);
    ReachesNegotiated(w);
    EnterVersion(w);
    var mid := Negotiated(w);
    var a :| Run(w, START, a) == Some(mid);
    var b :| EndsBy(w, mid, b);
    RunCat(w, START, a, b);
    var last := Run(w, mid, b).value;
    VersionsStay(w, mid, b);
    if !RangesMeet(w) {
      NoVersion(w, b);
    }
    var x := Run(w, START, word).value;
    var rest := Confluence(w, START, a + b, word);
    VersionsStay(w, x, rest);
    if Stuck(w, x) && rest != [] {
      NoStep(w, x, rest[0]);
      assert false;
    }
  }

  /** With the range 1 .. 4, which the defaults leave without any configuration, the client agrees with every server
      whose range meets it: both use the server's highest version, but no higher than 4. */
  lemma UnconfiguredAgrees(w: World, word: seq<bool>)
    requires Sane(w) && Run(w, START, word).Some? && Stuck(w, Run(w, START, word).value)
    requires w.setup.minVersion == 1 && w.setup.maxVersion == 4 && 1 <= w.stock.protoMin <= w.stock.protoMax
    ensures var x, v := Run(w, START, word).value, Min(4, w.stock.protoMax);
            && (w.stock.protoMin <= 4 ==> ClientVersion(x.c) == Some(v) && ServerVersion(x.r) == Some(v))
            && (w.stock.protoMin > 4 ==> ClientVersion(x.c) == None && ServerVersion(x.r) == None)
  {
    hide Stuck, Run, ClientVersion, ServerVersion;
    VersionsAgree(w, word);
  }

  lemma NoVersion(w: World, word: seq<bool>)
    requires Run(w, NO_VERSION, word).Some?
    ensures var y := Run(w, NO_VERSION, word).value; ClientVersion(y.c) == None && ServerVersion(y.r) == None
  {
    hide Go;
    NothingMoves(w);
  }

  lemma NothingMoves(w: World)
    ensures forall client: bool :: Go(w, NO_VERSION, client) == None
  {
    hide Wants, ServerWants, Next, ServerNext;
    NothingWanted(w);
  }

  lemma NothingWanted(w: World)
    ensures Wants(w.setup, Failed(0)) == WantClose && ServerWants(w.stock, SDone(0, false)) == WantNothing
  {
    hide EncodeSize, DecodeSize, Next, ServerNext;
  }
}
