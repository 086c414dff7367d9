/** One selection transfer under every interleaving of its owner and its requestor: the event loops of doIn and doOut
    (src/xclip/xclip.c) around xcin and xcout. */
module Incr {
  import opened Bytes
  import opened Xclib

  /** The display, both ends, whether the requestor has everything, and how many deletions the owner has answered. */
  datatype Transfer = Transfer(d: Display, o: In, r: Out, complete: bool, deletes: nat)

  function Start(pos: nat): Transfer {
    Transfer(Display(None, [], [], false), In(InIdle, pos), Out(OutNone, []), false, 0)
  }

  /** One round of doIn, if an event is there. */
  function OwnerMove(text: bytes, chunk: nat, t: Transfer): Option<Transfer> {
    if t.d.ownerQ == [] then None
    else
      var evt := t.d.ownerQ[0];
      var s := XcinStep(text, chunk, t.d.(ownerQ := t.d.ownerQ[1..]), t.o, evt);
      var more := if t.o.context == InIncr && evt == PropertyDelete then 1 else 0;
      Some(Transfer(s.d, s.o, t.r, t.complete, t.deletes + more))
  }

  /** One round of doOut: an event is taken only once the selection was asked for. */
  function RequestorMove(t: Transfer): Option<Transfer> {
    if t.complete then None
    else if t.r.context == OutNone then
      var s := XcoutStep(t.d, t.r, SelectionClear);
      Some(Transfer(s.d, t.o, s.r, s.complete, t.deletes))
    else if t.d.requestorQ == [] then None
    else
      var s := XcoutStep(t.d.(requestorQ := t.d.requestorQ[1..]), t.r, t.d.requestorQ[0]);
      Some(Transfer(s.d, t.o, s.r, s.complete, t.deletes))
  }

  function Move(text: bytes, chunk: nat, t: Transfer, owner: bool): Option<Transfer> {
    if owner then OwnerMove(text, chunk, t) else RequestorMove(t)
  }

  /** A run: who moves when. */
  function Moves(text: bytes, chunk: nat, t: Transfer, word: seq<bool>): Option<Transfer>
    decreases |word|
  {
    if word == [] then Some(t)
    else
      match Move(text, chunk, t, word[0])
      case None => None
      case Some(u) => Moves(text, chunk, u, word[1..])
  }

  /** The number of chunks of n bytes. */
  function Chunks(n: int, chunk: nat): nat
    requires chunk >= 1
    decreases if n <= 0 then 0 else n
  {
    if n <= 0 then 0 else 1 + Chunks(n - chunk, chunk)
  }

  /** It is n / chunk, rounded up. */
  lemma {:induction false} ChunksRoundUp(n: nat, chunk: nat)
    requires chunk >= 1
    ensures n <= Chunks(n, chunk) * chunk < n + chunk
    decreases n
  {
    if n > chunk {
      ChunksRoundUp(n - chunk, chunk);
      assert Chunks(n, chunk) * chunk == Chunks(n - chunk, chunk) * chunk + chunk;
    } else if n > 0 {
      assert Chunks(n - chunk, chunk) == 0;
    }
  }

  // What every reachable state looks like

  predicate NotAsked(t: Transfer) {
    && t.r == Out(OutNone, []) && t.d == Display(None, [], [], false)
    && t.o.context == InIdle && !t.complete && t.deletes == 0
  }

  predicate Asked(t: Transfer) {
    && t.r == Out(SentConvSel, []) && t.d == Display(None, [SelectionRequest(false)], [], false)
    && t.o.context == InIdle && !t.complete && t.deletes == 0
  }

  /** The answer is in the property, and the requestor has not seen it. */
  predicate Answered(text: bytes, chunk: nat, t: Transfer) {
    && t.r == Out(SentConvSel, []) && !t.complete && t.d.ownerQ == [] && t.deletes == 0
    && t.d.prop == Some(Answer(text, chunk, false))
    && (t.d.requestorQ == [SelectionNotify(true)] || t.d.requestorQ == [PropertyNewValue, SelectionNotify(true)])
    && t.d.listens == (|text| > chunk)
    && (if |text| > chunk then t.o == In(InIncr, 0) else t.o.context == InIdle)
  }

  /** The owner has answered as many deletions as chunks were cut off. */
  predicate InCount(text: bytes, chunk: nat, t: Transfer)
    requires chunk >= 1
  {
    t.deletes + Chunks(|text| - t.o.pos, chunk) == Chunks(|text|, chunk)
  }

  /** The property was deleted; the next chunk is the owner's business. */
  predicate OwnersTurn(text: bytes, chunk: nat, t: Transfer)
    requires chunk >= 1
  {
    && |text| > chunk && t.r == Out(OutIncr, text[..Min(t.o.pos, |text|)]) && !t.complete && t.o.context == InIncr
    && t.d.prop == None && t.d.listens && InCount(text, chunk, t)
    && (t.d.ownerQ == [PropertyDelete] || t.d.ownerQ == [PropertyNewValue, PropertyDelete])
    && (t.d.requestorQ == [] || t.d.requestorQ == [PropertyDelete])
  }

  /** A chunk is in the property, after what the requestor has already. */
  predicate ChunkThere(text: bytes, chunk: nat, t: Transfer)
    requires chunk >= 1
  {
    && |text| > chunk && t.r.context == OutIncr && !t.complete && t.o.context == InIncr && t.d.listens
    && InCount(text, chunk, t)
    && t.d.prop.Some? && t.d.prop.value.data != []
    && t.r.buf + t.d.prop.value.data == text[..Min(t.o.pos, |text|)]
    && (t.d.ownerQ == [] || t.d.ownerQ == [PropertyNewValue])
    && (t.d.requestorQ == [PropertyNewValue] || t.d.requestorQ == [PropertyDelete, PropertyNewValue])
  }

  /** The empty property that ends the transfer is there. */
  predicate EndThere(text: bytes, chunk: nat, t: Transfer)
    requires chunk >= 1
  {
    && |text| > chunk && t.r == Out(OutIncr, text) && !t.complete && t.o.context == InIdle && t.d.listens
    && t.deletes == Chunks(|text|, chunk) + 1
    && t.d.prop == Some(Property(TextKind, []))
    && (t.d.ownerQ == [] || t.d.ownerQ == [PropertyNewValue])
    && (t.d.requestorQ == [PropertyNewValue] || t.d.requestorQ == [PropertyDelete, PropertyNewValue])
  }

  predicate Done(text: bytes, chunk: nat, t: Transfer)
    requires chunk >= 1
  {
    && t.complete && t.r == Out(OutNone, text) && t.o.context == InIdle && t.d.prop == None
    && t.deletes == (if |text| > chunk then Chunks(|text|, chunk) + 1 else 0)
    && forall i | 0 <= i < |t.d.ownerQ| :: !t.d.ownerQ[i].SelectionRequest?
  }

  predicate Reachable(text: bytes, chunk: nat, t: Transfer)
    requires chunk >= 1
  {
    || NotAsked(t) || Asked(t) || Answered(text, chunk, t) || OwnersTurn(text, chunk, t) || ChunkThere(text, chunk, t)
    || EndThere(text, chunk, t) || Done(text, chunk, t)
  }

  lemma NextChunk(text: bytes, chunk: nat, pos: nat)
    requires chunk >= 1
    ensures text[..Min(pos, |text|)] + Chunk(text, chunk, pos) == text[..Min(pos + chunk, |text|)]
    ensures Chunk(text, chunk, pos) == [] <==> pos >= |text|
    ensures pos >= |text| ==> text[..Min(pos, |text|)] == text
    ensures Chunks(|text| - pos, chunk) == if pos >= |text| then 0 else 1 + Chunks(|text| - (pos + chunk), chunk)
  {
    if pos < |text| {
      SliceJoin(text, 0, pos, Min(pos + chunk, |text|));
      assert text[0..pos] == text[..pos] && text[0..Min(pos + chunk, |text|)] == text[..Min(pos + chunk, |text|)];
    }
  }

  /** Potential: every move uses some of it. */
  function Rank(text: bytes, chunk: nat, t: Transfer): nat
    requires chunk >= 1
  {
    var queued := |t.d.ownerQ| + |t.d.requestorQ| + if t.d.prop.Some? then 2 else 0;
    var whole := if |text| > chunk then 4 * Chunks(|text|, chunk) + 8 else 4;
    if NotAsked(t) then queued + whole + 2
    else if Asked(t) then queued + whole
    else if t.o.context == InIncr then queued + 4 * Chunks(|text| - t.o.pos, chunk) + 4
    else queued
  }

  lemma AskedMoves(text: bytes, chunk: nat, t: Transfer, owner: bool)
    requires chunk >= 1 && (NotAsked(t) || Asked(t)) && Move(text, chunk, t, owner).Some?
    ensures var u := Move(text, chunk, t, owner).value;
            Reachable(text, chunk, u) && Rank(text, chunk, u) < Rank(text, chunk, t)
  {
  }

  lemma AnsweredMoves(text: bytes, chunk: nat, t: Transfer, owner: bool)
    requires chunk >= 1 && Answered(text, chunk, t) && Move(text, chunk, t, owner).Some?
    ensures var u := Move(text, chunk, t, owner).value;
            Reachable(text, chunk, u) && Rank(text, chunk, u) < Rank(text, chunk, t)
  {
    assert text[..0] == [];
  }

  lemma OwnersTurnMoves(text: bytes, chunk: nat, t: Transfer, owner: bool)
    requires chunk >= 1 && OwnersTurn(text, chunk, t) && Move(text, chunk, t, owner).Some?
    ensures var u := Move(text, chunk, t, owner).value;
            Reachable(text, chunk, u) && Rank(text, chunk, u) < Rank(text, chunk, t)
  {
    hide Chunks, Move, Chunk;
    NextChunk(text, chunk, t.o.pos);
    if owner && t.d.ownerQ == [PropertyDelete] {
      OwnerPuts(text, chunk, t);
    } else {
      OwnersTurnPasses(text, chunk, t, owner);
    }
  }

  /** The owner answers a deletion with the next chunk, or with the end. */
  lemma OwnerPuts(text: bytes, chunk: nat, t: Transfer)
    requires chunk >= 1 && OwnersTurn(text, chunk, t) && t.d.ownerQ == [PropertyDelete]
    ensures var u := Move(text, chunk, t, true);
            u.Some? && Reachable(text, chunk, u.value) && Rank(text, chunk, u.value) < Rank(text, chunk, t)
  {
    hide Chunks, Chunk;
    NextChunk(text, chunk, t.o.pos);
    var u := Move(text, chunk, t, true).value;
    assert u.d.prop == Some(Property(TextKind, Chunk(text, chunk, t.o.pos))) && u.d.ownerQ == [PropertyNewValue];
    assert t.o.pos < |text| ==> u.o == In(InIncr, t.o.pos + chunk) && ChunkThere(text, chunk, u);
    assert t.o.pos >= |text| ==> EndThere(text, chunk, u);
  }

  lemma OwnersTurnPasses(text: bytes, chunk: nat, t: Transfer, owner: bool)
    requires chunk >= 1 && OwnersTurn(text, chunk, t) && Move(text, chunk, t, owner).Some?
    requires owner ==> t.d.ownerQ == [PropertyNewValue, PropertyDelete]
    ensures var u := Move(text, chunk, t, owner).value;
            OwnersTurn(text, chunk, u) && Rank(text, chunk, u) < Rank(text, chunk, t)
  {
    hide Chunks, Chunk;
  }

  lemma ChunkThereMoves(text: bytes, chunk: nat, t: Transfer, owner: bool)
    requires chunk >= 1 && ChunkThere(text, chunk, t) && Move(text, chunk, t, owner).Some?
    ensures var u := Move(text, chunk, t, owner).value;
            Reachable(text, chunk, u) && Rank(text, chunk, u) < Rank(text, chunk, t)
  {
    hide Chunks;
  }

  lemma EndMoves(text: bytes, chunk: nat, t: Transfer, owner: bool)
    requires chunk >= 1 && (EndThere(text, chunk, t) || Done(text, chunk, t)) && Move(text, chunk, t, owner).Some?
    ensures var u := Move(text, chunk, t, owner).value;
            Reachable(text, chunk, u) && Rank(text, chunk, u) < Rank(text, chunk, t)
  {
    hide Chunks;
  }

  /** Every move leads from a reachable kind of state to another, and uses some of the potential. */
  lemma MoveKeeps(text: bytes, chunk: nat, t: Transfer, owner: bool)
    requires chunk >= 1 && Reachable(text, chunk, t) && Move(text, chunk, t, owner).Some?
    ensures var u := Move(text, chunk, t, owner).value;
            Reachable(text, chunk, u) && Rank(text, chunk, u) < Rank(text, chunk, t)
  {
    hide Move, Chunks, Rank;
    if NotAsked(t) || Asked(t) {
      AskedMoves(text, chunk, t, owner);
    } else if Answered(text, chunk, t) {
      AnsweredMoves(text, chunk, t, owner);
    } else if OwnersTurn(text, chunk, t) {
      OwnersTurnMoves(text, chunk, t, owner);
    } else if ChunkThere(text, chunk, t) {
      ChunkThereMoves(text, chunk, t, owner);
    } else {
      EndMoves(text, chunk, t, owner);
    }
  }

  lemma {:induction false} RunKeeps(text: bytes, chunk: nat, t: Transfer, word: seq<bool>)
    requires chunk >= 1 && Reachable(text, chunk, t) && Moves(text, chunk, t, word).Some?
    ensures var u := Moves(text, chunk, t, word).value;
            Reachable(text, chunk, u) && |word| + Rank(text, chunk, u) <= Rank(text, chunk, t)
    decreases |word|
  {
    hide Move, Reachable, Rank;
    if word != [] {
      MoveKeeps(text, chunk, t, word[0]);
      RunKeeps(text, chunk, Move(text, chunk, t, word[0]).value, word[1..]);
    }
  }

  /** The owner has not seen the request yet. */
  predicate Waiting(t: Transfer) {
    !t.complete && (t.r.context == OutNone || SelectionRequest(false) in t.d.ownerQ)
  }

  /** What the owner has not put into the property yet: all of the text before it takes up the request, what follows
      its position while it sends in chunks, and nothing once it is through. */
  function Unsent(text: bytes, t: Transfer): bytes {
    if t.o.context == InIncr then text[Min(t.o.pos, |text|)..] else if Waiting(t) then text else []
  }

  /** Conservation: at every moment of every interleaving, what the requestor has, the unread property and the unsent
      rest of the text make up the text. */
  lemma Conservation(text: bytes, chunk: nat, pos: nat, word: seq<bool>)
    requires chunk >= 1 && Moves(text, chunk, Start(pos), word).Some?
    ensures var t := Moves(text, chunk, Start(pos), word).value;
            t.r.buf + PropertyData(t.d) + Unsent(text, t) == text
  {
    hide Moves;
    RunKeeps(text, chunk, Start(pos), word);
    Conserved(text, chunk, Moves(text, chunk, Start(pos), word).value);
  }

  lemma Conserved(text: bytes, chunk: nat, t: Transfer)
    requires chunk >= 1 && Reachable(text, chunk, t)
    ensures t.r.buf + PropertyData(t.d) + Unsent(text, t) == text
  {
    hide Chunks, InCount;
    if OwnersTurn(text, chunk, t) || ChunkThere(text, chunk, t) {
      var k := Min(t.o.pos, |text|);
      assert t.r.buf + PropertyData(t.d) == text[..k];
      assert text[..k] + text[k..] == text;
    } else if EndThere(text, chunk, t) || Done(text, chunk, t) {
      assert t.r.buf + PropertyData(t.d) + Unsent(text, t) == t.r.buf + [] + [];
    } else {
      assert t.r.buf == [];
    }
  }

  /** Every interleaving ends: after at most 4 * ceil(len / chunk) + 10 moves nothing is left to do, and then the
      requestor has exactly the text. It has it whenever it is through, and the owner has then answered
      ceil(len / chunk) + 1 deletions if the text is longer than a chunk, and none otherwise. */
  lemma TransferEnds(text: bytes, chunk: nat, pos: nat, word: seq<bool>)
    requires chunk >= 1 && Moves(text, chunk, Start(pos), word).Some?
    ensures var t := Moves(text, chunk, Start(pos), word).value;
            && (OwnerMove(text, chunk, t) == None && RequestorMove(t) == None ==> t.complete)
            && (t.complete ==>
                 && t.r.buf == text && t.o.context == InIdle
                 && t.deletes == if |text| > chunk then Chunks(|text|, chunk) + 1 else 0)
    ensures |word| <= 4 * Chunks(|text|, chunk) + 10
  {
    hide Chunks, Moves;
    RunKeeps(text, chunk, Start(pos), word);
  }

  // The same run on the objects

  lemma {:induction false} MovesSnoc(text: bytes, chunk: nat, t: Transfer, word: seq<bool>, owner: bool)
    requires Moves(text, chunk, t, word).Some?
    ensures Moves(text, chunk, t, word + [owner]) == Move(text, chunk, Moves(text, chunk, t, word).value, owner)
    decreases |word|
  {
    hide Move;
    var all := word + [owner];
    if word == [] {
      assert all[0] == owner && all[1..] == [];
    } else {
      assert all[0] == word[0] && all[1..] == word[1..] + [owner];
      MovesSnoc(text, chunk, Move(text, chunk, t, word[0]).value, word[1..], owner);
    }
  }

  /** The body of the inner loop of doIn, when an event is there. */
  method TakeOwnerEvent(server: XServer, owner: Owner, ghost t: Transfer) returns (ghost u: Transfer)
    requires owner.chunkSize >= 1 && server.ownerQ != [] && t.d == server.View() && t.o == owner.View()
    modifies server, owner
    ensures OwnerMove(owner.text[..], owner.chunkSize, t) == Some(u)
    ensures u.d == server.View() && u.o == owner.View() && u.r == t.r && u.complete == t.complete
  {
    hide XcinStep;
    u := OwnerMove(owner.text[..], owner.chunkSize, t).value;
    var evt := server.ownerQ[0];
    server.ownerQ := server.ownerQ[1..];
    ghost var put;
    var finished;
    finished, put := owner.Xcin(server, evt);
  }

  /** The body of the loop of doOut, when it need not wait. */
  method TakeRequestorEvent(server: XServer, requestor: Requestor, ghost t: Transfer)
    returns (complete: bool, ghost u: Transfer)
    requires requestor.len == requestor.txt.Length && t.d == server.View() && t.r == requestor.View() && !t.complete
    requires requestor.context == OutNone || server.requestorQ != []
    modifies server, requestor
    ensures requestor.len == requestor.txt.Length && (requestor.txt == old(requestor.txt) || fresh(requestor.txt))
    ensures RequestorMove(t) == Some(u)
    ensures u.d == server.View() && u.r == requestor.View() && u.o == t.o && u.complete == complete
  {
    hide XcoutStep;
    u := RequestorMove(t).value;
    var evt := SelectionClear;
    if requestor.context != OutNone {
      evt := server.requestorQ[0];
      server.requestorQ := server.requestorQ[1..];
    }
    complete := requestor.Xcout(server, evt);
  }

  /** Owner and requestor in any order (true for the owner): the objects go through the states of a run, and when the
      requestor is through, its buffer holds exactly the owner's text. A turn in which XNextEvent would block is
      skipped. */
  method Interleave(server: XServer, owner: Owner, requestor: Requestor, order: seq<bool>)
    returns (complete: bool, ghost word: seq<bool>, ghost deletes: nat)
    requires owner.chunkSize >= 1 && owner.View().context == InIdle && server.View() == Display(None, [], [], false)
    requires requestor.len == requestor.txt.Length && requestor.View() == Out(OutNone, [])
    modifies server, owner, requestor
    ensures requestor.len == requestor.txt.Length && |word| <= |order|
    ensures Moves(owner.text[..], owner.chunkSize, Start(old(owner.pos)), word)
         == Some(Transfer(server.View(), owner.View(), requestor.View(), complete, deletes))
    ensures complete ==> requestor.txt[..] == owner.text[..]
  {
    hide Chunks, Moves, OwnerMove, RequestorMove, XcinStep, XcoutStep;
    ghost var text, chunk, first := owner.text[..], owner.chunkSize, Start(owner.pos);
    complete, word, deletes := false, [], 0;
    NoMoves(text, chunk, first);
    for i := 0 to |order|
      invariant requestor.len == requestor.txt.Length && |word| <= i
      invariant Moves(text, chunk, first, word)
             == Some(Transfer(server.View(), owner.View(), requestor.View(), complete, deletes))
    {
      ghost var t := Transfer(server.View(), owner.View(), requestor.View(), complete, deletes);
      ghost var u := t;
      MovesSnoc(text, chunk, first, word, order[i]);
      if order[i] && server.ownerQ != [] {
        u := TakeOwnerEvent(server, owner, t);
        word, deletes := word + [true], u.deletes;
      } else if !order[i] && !complete && (requestor.context == OutNone || server.requestorQ != []) {
        complete, u := TakeRequestorEvent(server, requestor, t);
        word, deletes := word + [false], u.deletes;
      }
    }
    TransferEnds(text, chunk, old(owner.pos), word);
  }

  lemma NoMoves(text: bytes, chunk: nat, t: Transfer)
    ensures Moves(text, chunk, t, []) == Some(t)
  {
  }
}
