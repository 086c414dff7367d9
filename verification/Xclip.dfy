/** The owner's event loop: doIn (src/xclip/xclip.c). Whether the selection was lost is remembered from one call to the
    next, like the context and the position. */
module Xclip {
  import opened Bytes
  import opened Xclib

  /** The owner with its clear flag, what it has put into properties so far, and for each request it took up whether it
      asked for the targets. */
  datatype Serving = Serving(o: In, clear: bool, puts: seq<Property>, accepted: seq<bool>)

  const BLANK := Display(None, [], [], false)

  function ServeEvent(text: bytes, chunk: nat, s: Serving, evt: XEvent): Serving {
    var r := XcinStep(text, chunk, BLANK, s.o, evt);
    var accepted := if s.o.context == InIdle && evt.SelectionRequest? then [evt.forTargets] else [];
    Serving(r.o, s.clear || evt == SelectionClear, s.puts + r.put, s.accepted + accepted)
  }

  /** How a call begins: no transfer is open, and the flag may be set from an earlier call. */
  function Entry(pos: nat, clear: bool): Serving {
    Serving(In(InIdle, pos), clear, [], [])
  }

  function Serve(text: bytes, chunk: nat, entry: Serving, events: seq<XEvent>): Serving {
    if events == [] then entry
    else ServeEvent(text, chunk, Serve(text, chunk, entry, events[..|events| - 1]), events[|events| - 1])
  }

  lemma ServeSnoc(text: bytes, chunk: nat, entry: Serving, events: seq<XEvent>, k: nat)
    requires k < |events|
    ensures Serve(text, chunk, entry, events[..k + 1])
         == ServeEvent(text, chunk, Serve(text, chunk, entry, events[..k]), events[k])
  {
    assert events[..k + 1][..k] == events[..k];
  }

  /** The rest of a transfer in chunks, from a position on: the chunks, and the empty property at the end. */
  function ChunksFrom(text: bytes, chunk: nat, pos: nat): seq<Property>
    requires chunk >= 1
    decreases if pos >= |text| then 0 else |text| - pos
  {
    if pos >= |text| then [Property(TextKind, [])]
    else [Property(TextKind, Chunk(text, chunk, pos))] + ChunksFrom(text, chunk, pos + chunk)
  }

  /** Everything that is put into properties for one request. */
  function Service(text: bytes, chunk: nat, forTargets: bool): seq<Property>
    requires chunk >= 1
  {
    if !forTargets && |text| > chunk then [Property(IncrKind, [])] + ChunksFrom(text, chunk, 0)
    else [Answer(text, chunk, forTargets)]
  }

  function Services(text: bytes, chunk: nat, accepted: seq<bool>): seq<Property>
    requires chunk >= 1
  {
    if accepted == [] then []
    else Services(text, chunk, accepted[..|accepted| - 1]) + Service(text, chunk, accepted[|accepted| - 1])
  }

  function Texts(puts: seq<Property>): bytes {
    if puts == [] then [] else puts[0].data + Texts(puts[1..])
  }

  /** The data of one complete service for the text is the text. */
  lemma ServiceIsText(text: bytes, chunk: nat)
    requires chunk >= 1
    ensures Texts(Service(text, chunk, false)) == text
  {
    var s := Service(text, chunk, false);
    if |text| > chunk {
      ChunksAreText(text, chunk, 0);
      assert s[1..] == ChunksFrom(text, chunk, 0);
      assert [] + text[0..] == text;
    } else {
      assert s[1..] == [] && text + [] == text;
    }
  }

  lemma {:induction false} ChunksAreText(text: bytes, chunk: nat, pos: nat)
    requires chunk >= 1
    ensures Texts(ChunksFrom(text, chunk, pos)) == text[Min(pos, |text|)..]
    decreases if pos >= |text| then 0 else |text| - pos
  {
    hide Chunk;
    var s := ChunksFrom(text, chunk, pos);
    if pos < |text| {
      ChunksAreText(text, chunk, pos + chunk);
      assert s[1..] == ChunksFrom(text, chunk, pos + chunk);
      NextChunkOf(text, chunk, pos);
    } else {
      assert s[1..] == [] && [] + Texts([]) == [];
    }
  }

  lemma NextChunkOf(text: bytes, chunk: nat, pos: nat)
    requires chunk >= 1 && pos < |text|
    ensures text[pos..] == Chunk(text, chunk, pos) + text[Min(pos + chunk, |text|)..]
  {
  }

  /** Between transfers every request taken up has been served completely; within one, the rest of it is missing. */
  predicate OnTrack(text: bytes, chunk: nat, s: Serving)
    requires chunk >= 1
  {
    if s.o.context == InIdle then s.puts == Services(text, chunk, s.accepted)
    else s.puts + ChunksFrom(text, chunk, s.o.pos) == Services(text, chunk, s.accepted)
  }

  lemma IdleOnTrack(text: bytes, chunk: nat, s: Serving, evt: XEvent)
    requires chunk >= 1 && OnTrack(text, chunk, s) && s.o.context == InIdle
    ensures OnTrack(text, chunk, ServeEvent(text, chunk, s, evt))
  {
    hide Services, ChunksFrom;
    assert s.puts + [] == s.puts && s.accepted + [] == s.accepted;
    if evt.SelectionRequest? {
      ServicesSnoc(text, chunk, s.accepted, evt.forTargets);
      if !evt.forTargets && |text| > chunk {
        var p := Property(IncrKind, []);
        assert s.puts + ([p] + ChunksFrom(text, chunk, 0)) == (s.puts + [p]) + ChunksFrom(text, chunk, 0);
      }
    }
  }

  lemma IncrOnTrack(text: bytes, chunk: nat, s: Serving, evt: XEvent)
    requires chunk >= 1 && OnTrack(text, chunk, s) && s.o.context == InIncr
    ensures OnTrack(text, chunk, ServeEvent(text, chunk, s, evt))
  {
    hide Services, ChunksFrom;
    assert s.puts + [] == s.puts && s.accepted + [] == s.accepted;
    ChunksStep(text, chunk, s.o.pos);
    if evt == PropertyDelete {
      var c := Property(TextKind, Chunk(text, chunk, s.o.pos));
      assert s.puts + ([c] + ChunksFrom(text, chunk, s.o.pos + chunk))
          == (s.puts + [c]) + ChunksFrom(text, chunk, s.o.pos + chunk);
    }
  }

  lemma ServicesSnoc(text: bytes, chunk: nat, accepted: seq<bool>, forTargets: bool)
    requires chunk >= 1
    ensures Services(text, chunk, accepted + [forTargets])
         == Services(text, chunk, accepted) + Service(text, chunk, forTargets)
  {
    assert (accepted + [forTargets])[..|accepted|] == accepted;
  }

  lemma ChunksStep(text: bytes, chunk: nat, pos: nat)
    requires chunk >= 1
    ensures Chunk(text, chunk, pos) == [] <==> pos >= |text|
    ensures ChunksFrom(text, chunk, pos)
         == if pos >= |text| then [Property(TextKind, Chunk(text, chunk, pos))]
            else [Property(TextKind, Chunk(text, chunk, pos))] + ChunksFrom(text, chunk, pos + chunk)
  {
  }

  /** Whatever the flag was at entry: the service is on track, and the flag is set if and only if it was, or the
      selection was lost in this call. */
  lemma {:induction false} ServeOnTrack(text: bytes, chunk: nat, pos: nat, clear: bool, events: seq<XEvent>)
    requires chunk >= 1
    ensures OnTrack(text, chunk, Serve(text, chunk, Entry(pos, clear), events))
    ensures Serve(text, chunk, Entry(pos, clear), events).clear <==> clear || SelectionClear in events
  {
    hide OnTrack;
    var entry := Entry(pos, clear);
    if events == [] {
      NothingServed(text, chunk, pos, clear);
    } else {
      var front, evt := events[..|events| - 1], events[|events| - 1];
      ServeOnTrack(text, chunk, pos, clear, front);
      var s := Serve(text, chunk, entry, front);
      if s.o.context == InIdle {
        IdleOnTrack(text, chunk, s, evt);
      } else {
        IncrOnTrack(text, chunk, s, evt);
      }
      assert events == front + [evt];
    }
  }

  lemma NothingServed(text: bytes, chunk: nat, pos: nat, clear: bool)
    requires chunk >= 1
    ensures OnTrack(text, chunk, Entry(pos, clear)) && Entry(pos, clear).clear == clear
  {
  }

  predicate MayReturn(s: Serving) {
    s.clear && s.o.context == InIdle
  }

  /** The loop tests after each event whether it may return, and n events are the first after which it may. */
  ghost predicate ReturnsAfter(text: bytes, chunk: nat, entry: Serving, events: seq<XEvent>, n: nat) {
    && 0 < n <= |events| && MayReturn(Serve(text, chunk, entry, events[..n]))
    && forall k | 0 < k < n :: !MayReturn(Serve(text, chunk, entry, events[..k]))
  }

  /** doIn on a stream of events. It returns after the first event after which the selection has been lost, in this
      call or an earlier one, and no transfer is open; then every request it took up has been served completely. Until
      then it goes on with every event. */
  method DoIn(server: XServer, owner: Owner, events: seq<XEvent>) returns (returned: bool, used: nat, ghost s: Serving)
    requires owner.chunkSize >= 1 && owner.View().context == InIdle
    modifies server, owner
    ensures used <= |events|
    ensures s == Serve(owner.text[..], owner.chunkSize, Entry(old(owner.pos), old(owner.clear)), events[..used])
    ensures s.o == owner.View() && s.clear == owner.clear
    ensures returned ==>
      && ReturnsAfter(owner.text[..], owner.chunkSize, Entry(old(owner.pos), old(owner.clear)), events, used)
      && owner.View().context == InIdle && owner.clear && (old(owner.clear) || SelectionClear in events[..used])
      && s.puts == Services(owner.text[..], owner.chunkSize, s.accepted)
    ensures !returned ==>
      && used == |events|
      && forall k | 0 < k <= used ::
           !MayReturn(Serve(owner.text[..], owner.chunkSize, Entry(old(owner.pos), old(owner.clear)), events[..k]))
  {
    hide XcinStep, Serve;
    ghost var text, chunk, entry := owner.text[..], owner.chunkSize, Entry(owner.pos, owner.clear);
    used := 0;
    s := entry;
    NoEvents(text, chunk, entry, events);
    while used < |events|
      invariant 0 <= used <= |events| && s == Serve(text, chunk, entry, events[..used])
      invariant s.o == owner.View() && s.clear == owner.clear
      invariant forall k | 0 < k <= used :: !MayReturn(Serve(text, chunk, entry, events[..k]))
    {
      var evt := events[used];
      ServeSnoc(text, chunk, entry, events, used);
      SameWithout(text, chunk, server.View(), owner.View(), evt);
      s := ServeEvent(text, chunk, s, evt);
      used := used + 1;
      ghost var put;
      var finished;
      finished, put := owner.Xcin(server, evt);
      if evt == SelectionClear {
        owner.clear := true;
      }
      if owner.context == InIdle && owner.clear {
        ServeOnTrack(text, chunk, entry.o.pos, entry.clear, events[..used]);
        return true, used, s;
      }
    }
    return false, used, s;
  }

  lemma NoEvents(text: bytes, chunk: nat, entry: Serving, events: seq<XEvent>)
    ensures Serve(text, chunk, entry, events[..0]) == entry
  {
  }

  // The flag is never reset, so a call may return without a SelectionClear of its own.

  /** Every return of such a call follows a SelectionClear that came in this call. */
  ghost predicate WaitsForClear(text: bytes, chunk: nat, entry: Serving) {
    forall events, n: nat | ReturnsAfter(text, chunk, entry, events, n) :: SelectionClear in events[..n]
  }

  /** A call waits for a SelectionClear of its own if and only if the flag is not set when it begins. */
  lemma WaitsUnlessCleared(text: bytes, chunk: nat, pos: nat, clear: bool)
    requires chunk >= 1
    ensures WaitsForClear(text, chunk, Entry(pos, clear)) <==> !clear
  {
    hide Serve;
    if clear {
      ReturnsAtOnce(text, chunk, pos);
      var events := [SelectionRequest(true)];
      assert SelectionClear !in events[..1];
    } else {
      forall events, n: nat | ReturnsAfter(text, chunk, Entry(pos, clear), events, n)
        ensures SelectionClear in events[..n]
      {
        ServeOnTrack(text, chunk, pos, clear, events[..n]);
      }
    }
  }

  /** A call that begins with the flag set returns after a request for the targets alone. */
  lemma ReturnsAtOnce(text: bytes, chunk: nat, pos: nat)
    requires chunk >= 1
    ensures var events := [SelectionRequest(true)];
            && ReturnsAfter(text, chunk, Entry(pos, true), events, 1) && SelectionClear !in events
            && Serve(text, chunk, Entry(pos, true), events[..1]).puts == [TARGET_LIST]
            && TARGET_LIST.kind == AtomKind && |TARGET_LIST.data| == 2
  {
    var events := [SelectionRequest(true)];
    assert events[..1] == events && events[..0] == [];
  }

  /** Such a call serves what its first event asks for, in full, and nothing else. */
  lemma ServesOneRequest(text: bytes, chunk: nat, pos: nat, events: seq<XEvent>, n: nat)
    requires chunk >= 1 && ReturnsAfter(text, chunk, Entry(pos, true), events, n)
    ensures var s := Serve(text, chunk, Entry(pos, true), events[..n]);
            && s.accepted == (if events[0].SelectionRequest? then [events[0].forTargets] else [])
            && s.puts == Services(text, chunk, s.accepted)
  {
    hide Serve;
    var entry := Entry(pos, true);
    NoEvents(text, chunk, entry, events);
    ServeSnoc(text, chunk, entry, events, 0);
    AcceptsNoMore(text, chunk, pos, events, n, n);
    ServeOnTrack(text, chunk, pos, true, events[..n]);
  }

  lemma {:induction false} AcceptsNoMore(text: bytes, chunk: nat, pos: nat, events: seq<XEvent>, n: nat, k: nat)
    requires chunk >= 1 && ReturnsAfter(text, chunk, Entry(pos, true), events, n) && 0 < k <= n
    ensures Serve(text, chunk, Entry(pos, true), events[..k]).accepted
         == Serve(text, chunk, Entry(pos, true), events[..1]).accepted
  {
    hide Serve;
    if k > 1 {
      AcceptsNoMore(text, chunk, pos, events, n, k - 1);
      ServeSnoc(text, chunk, Entry(pos, true), events, k - 1);
      ServeOnTrack(text, chunk, pos, true, events[..k - 1]);
      assert !MayReturn(Serve(text, chunk, Entry(pos, true), events[..k - 1]));
    }
  }

  /** The owner's side of a step does not depend on the display. */
  lemma SameWithout(text: bytes, chunk: nat, d: Display, o: In, evt: XEvent)
    ensures XcinStep(text, chunk, d, o, evt).o == XcinStep(text, chunk, BLANK, o, evt).o
    ensures XcinStep(text, chunk, d, o, evt).put == XcinStep(text, chunk, BLANK, o, evt).put
  {
  }

  /** Once the selection is lost, a transfer that is open takes as many further deletions as it has properties left,
      and then the loop returns. */
  lemma {:induction false} ClearedLoopEnds(text: bytes, chunk: nat, s: Serving, deletions: seq<XEvent>)
    requires chunk >= 1 && s.clear && s.o.context == InIncr
    requires forall i | 0 <= i < |deletions| :: deletions[i] == PropertyDelete
    requires |deletions| == |ChunksFrom(text, chunk, s.o.pos)|
    ensures MayReturn(ServeOn(text, chunk, s, deletions))
    decreases |deletions|
  {
    hide ChunksFrom;
    ChunksStep(text, chunk, s.o.pos);
    var u := ServeEvent(text, chunk, s, deletions[0]);
    if s.o.pos < |text| {
      ClearedLoopEnds(text, chunk, u, deletions[1..]);
    } else {
      assert deletions[1..] == [];
    }
  }

  function ServeOn(text: bytes, chunk: nat, s: Serving, events: seq<XEvent>): Serving
    decreases |events|
  {
    if events == [] then s else ServeOn(text, chunk, ServeEvent(text, chunk, s, events[0]), events[1..])
  }
}
