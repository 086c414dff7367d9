/** What holds of every run of the client's session automaton. */
module SessionLaws {
  import opened Bytes
  import opened Wire
  import opened Session

  /** The descriptor is closed: before version 4 that happens while the received files are still to be moved. */
  predicate IsClosed(st: State) {
    (st.Unpack? && st.v < 4) || (st.Over? && !st.open)
  }

  /** An event in which nothing went wrong. */
  predicate Succeeded(ev: Event) {
    match ev
    case Wrote(_) => true
    case Got(_) => true
    case Local(ok) => ok
    case Copied(text) => text.Some?
    case Listed(items) => items.Some?
    case _ => false
  }

  predicate Before4(st: State) {
    st.Detach? ==> st.v < 4
  }

  lemma ClosedStep(s: Setup, st: State, ev: Event)
    requires IsClosed(st) && !Step(s, st, ev).Astray?
    ensures ev.Local? && IsClosed(Step(s, st, ev))
  {
    hide EncodeSize, DecodeSize, InfoMatches;
  }

  lemma ClosingStep(s: Setup, st: State, ev: Event)
    requires (st.Detach? || st.Over? || st.Unpack?) && Before4(st) && !IsClosed(st) && !Step(s, st, ev).Astray?
    ensures IsClosed(Step(s, st, ev)) <==> ev.Closed?
  {
    hide EncodeSize, DecodeSize, InfoMatches;
  }

  lemma OtherStep(s: Setup, st: State, ev: Event)
    requires !(st.Detach? || st.Over? || st.Unpack?) && !Step(s, st, ev).Astray?
    ensures !ev.Closed? && !IsClosed(Step(s, st, ev)) && !st.Astray?
  {
    hide Next, EncodeSize;
    if ev.Local? {
      OtherDecision(s, st, ev);
    } else {
      OtherTransfer(s, st, ev);
    }
  }

  lemma OtherDecision(s: Setup, st: State, ev: Event)
    requires !(st.Detach? || st.Over? || st.Unpack?) && Fits(Wants(s, st), ev) && ev.Local?
    ensures !IsClosed(Next(s, st, ev))
  {
    hide EncodeSize, DecodeSize, InfoMatches, StartSending, AtSize, Enter, Dispatch, AtItem, AtData;
  }

  lemma OtherTransfer(s: Setup, st: State, ev: Event)
    requires !(st.Detach? || st.Over? || st.Unpack?) && Fits(Wants(s, st), ev) && !ev.Local?
    ensures !IsClosed(Next(s, st, ev))
  {
    hide Next, Fits, Wants, IsClosed;
    if ev.Wrote? || ev.WriteCut? {
      OtherWrite(s, st, ev);
    } else {
      OtherRead(s, st, ev);
    }
  }

  lemma OtherWrite(s: Setup, st: State, ev: Event)
    requires !(st.Detach? || st.Over? || st.Unpack?) && Fits(Wants(s, st), ev) && (ev.Wrote? || ev.WriteCut?)
    ensures !IsClosed(Next(s, st, ev))
  {
    hide EncodeSize, DecodeSize, InfoMatches, KnownMethod, StartSending, AtSize, Dispatch, AfterSave, AtBody;
  }

  lemma OtherRead(s: Setup, st: State, ev: Event)
    requires !(st.Detach? || st.Over? || st.Unpack?) && Fits(Wants(s, st), ev)
    requires !ev.Local? && !ev.Wrote? && !ev.WriteCut?
    ensures !IsClosed(Next(s, st, ev))
  {
    hide EncodeSize, DecodeSize, InfoMatches, KnownMethod, AtData, AfterSave, AtBody;
  }

  lemma DetachStep(s: Setup, st: State, ev: Event)
    ensures Before4(Step(s, st, ev))
  {
    hide Next, Fits, Wants;
    if Fits(Wants(s, st), ev) {
      if ev.Local? {
        DetachDecision(s, st, ev);
      } else {
        DetachTransfer(s, st, ev);
      }
    }
  }

  lemma DetachDecision(s: Setup, st: State, ev: Event)
    requires Fits(Wants(s, st), ev) && ev.Local?
    ensures Before4(Next(s, st, ev))
  {
    hide EncodeSize, DecodeSize, InfoMatches, StartSending, AtSize, Enter, Dispatch, AtItem, AtData;
  }

  lemma DetachTransfer(s: Setup, st: State, ev: Event)
    requires Fits(Wants(s, st), ev) && !ev.Local?
    ensures Before4(Next(s, st, ev))
  {
    hide Next, Fits, Wants;
    if ev.Wrote? || ev.WriteCut? {
      DetachWrite(s, st, ev);
    } else {
      DetachRead(s, st, ev);
    }
  }

  lemma DetachWrite(s: Setup, st: State, ev: Event)
    requires Fits(Wants(s, st), ev) && (ev.Wrote? || ev.WriteCut?)
    ensures Before4(Next(s, st, ev))
  {
    hide EncodeSize, DecodeSize, InfoMatches, KnownMethod, StartSending, AtSize, Dispatch, AfterSave, AtBody;
  }

  lemma DetachRead(s: Setup, st: State, ev: Event)
    requires Fits(Wants(s, st), ev) && !ev.Local? && !ev.Wrote? && !ev.WriteCut?
    ensures Before4(Next(s, st, ev))
  {
    hide EncodeSize, DecodeSize, InfoMatches, KnownMethod, AtData, AfterSave, AtBody;
  }

  lemma CloseStepOf(s: Setup, st: State, ev: Event)
    requires Before4(st) && !Step(s, st, ev).Astray?
    ensures Before4(Step(s, st, ev)) && !st.Astray?
    ensures IsClosed(st) ==> ev.Local? && IsClosed(Step(s, st, ev))
    ensures !IsClosed(st) ==> (IsClosed(Step(s, st, ev)) <==> ev.Closed?)
  {
    hide Step;
    DetachStep(s, st, ev);
    if IsClosed(st) {
      ClosedStep(s, st, ev);
    } else if st.Detach? || st.Over? || st.Unpack? {
      ClosingStep(s, st, ev);
    } else {
      OtherStep(s, st, ev);
    }
  }

  /** The log holds a close exactly when the state says so. */
  lemma {:induction false} ClosedInLog(s: Setup, log: seq<Event>)
    requires !Drive(s, log).Astray?
    ensures Before4(Drive(s, log))
    ensures (exists i | 0 <= i < |log| :: log[i].Closed?) <==> IsClosed(Drive(s, log))
  {
    hide Step;
    if log != [] {
      var front, ev := log[..|log| - 1], log[|log| - 1];
      assert log == front + [ev];
      assert Drive(s, log) == Step(s, Drive(s, front), ev);
      StaysAstray(s, Drive(s, front), ev);
      ClosedInLog(s, front);
      CloseStepOf(s, Drive(s, front), ev);
      assert forall i | 0 <= i < |front| :: log[i] == front[i];
    }
  }

  lemma StaysAstray(s: Setup, st: State, ev: Event)
    ensures st.Astray? ==> Step(s, st, ev).Astray?
  {
    hide EncodeSize, DecodeSize, InfoMatches;
  }

  /** A run that never left the automaton was in it all the time. */
  lemma {:induction false} PrefixFollows(s: Setup, log: seq<Event>, k: nat)
    requires k <= |log| && !Drive(s, log).Astray?
    ensures !Drive(s, log[..k]).Astray?
    decreases |log|
  {
    hide Step;
    if k == |log| {
      assert log[..k] == log;
    } else {
      var front, ev := log[..|log| - 1], log[|log| - 1];
      StaysAstray(s, Drive(s, front), ev);
      PrefixFollows(s, front, k);
      assert front[..k] == log[..k];
    }
  }

  /** Socket typestate: after the close there is no read, no write and no second close, on every run, and a run whose
      descriptor is closed at the end closed it. */
  lemma Typestate(s: Setup, log: seq<Event>)
    requires !Drive(s, log).Astray?
    ensures forall i, j | 0 <= i < j < |log| && log[i].Closed? :: log[j].Local?
    ensures (exists i | 0 <= i < |log| :: log[i].Closed?) <==> IsClosed(Drive(s, log))
  {
    hide Step;
    ClosedInLog(s, log);
    forall i, j | 0 <= i < j < |log| && log[i].Closed?
      ensures log[j].Local?
    {
      PrefixFollows(s, log, j);
      PrefixFollows(s, log, j + 1);
      ClosedInLog(s, log[..j]);
      assert log[..j][i] == log[i];
      assert log[..j + 1] == log[..j] + [log[j]];
      LogStep(s, log[..j], log[j]);
      CloseStepOf(s, Drive(s, log[..j]), log[j]);
    }
  }

  // What a client that acknowledges has consumed.

  /** Before the request is granted. */
  predicate Preliminary(st: State) {
    || st.Hello? || st.AwaitStatus? || st.AwaitOffer? || st.Refusing? || st.Accepting? || st.Request?
    || st.AwaitMethodStatus?
  }

  function ReceivedBy(ev: Event): bytes {
    if ev.Got? then ev.data else if ev.ReadCut? then ev.part else []
  }

  /** The bytes received since the request was granted. */
  function Payload(s: Setup, log: seq<Event>): bytes {
    if log == [] then []
    else
      var front := log[..|log| - 1];
      if Preliminary(Drive(s, front)) then [] else Payload(s, front) + ReceivedBy(log[|log| - 1])
  }

  /** Size and data of a file, or the mark of a directory. */
  predicate WholeBody(s: Setup, v: nat, b: bytes) {
    && |b| >= 8
    && var size := DecodeSize(b[..8]);
    && size <= s.maxFileSize
    && ((size == -1 && v >= 3 && |b| == 8) || (size >= 0 && |b| == 8 + size))
  }

  /** All but the last n bytes of a file. */
  predicate PartOfBody(s: Setup, b: bytes, n: nat) {
    && |b| >= 8
    && var size := DecodeSize(b[..8]);
    && 0 <= size <= s.maxFileSize && n <= size && |b| == 8 + size - n
  }

  predicate WholeName(e: bytes) {
    && |e| >= 8
    && var n := DecodeSize(e[..8]);
    && 0 < n <= MAX_FILE_NAME_LENGTH && |e| == 8 + n
  }

  ghost predicate WholeEntry(s: Setup, v: nat, e: bytes) {
    exists i | 0 <= i <= |e| :: WholeName(e[..i]) && WholeBody(s, v, e[i..])
  }

  ghost predicate WholeEntries(s: Setup, v: nat, q: bytes, k: nat)
    decreases k
  {
    if k == 0 then q == []
    else exists i | 0 <= i <= |q| :: WholeEntries(s, v, q[..i], k - 1) && WholeEntry(s, v, q[i..])
  }

  /** The announced count, and all entries but the last left. */
  ghost predicate AllBut(s: Setup, v: nat, p: bytes, left: nat) {
    && |p| >= 8
    && var count := DecodeSize(p[..8]);
    && 0 < count <= s.maxFileCount && left <= count && WholeEntries(s, v, p[8..], count - left)
  }

  /** A text block of allowed length. */
  predicate WholeText(s: Setup, p: bytes) {
    && |p| >= 8
    && var n := DecodeSize(p[..8]);
    && 0 < n <= s.maxText && |p| == 8 + n && s.utf8(p[8..])
  }

  /** What comes before an image: nothing, or the grant of the display. */
  predicate BeforeImage(s: Setup, p: bytes) {
    if s.request == METHOD_GET_SCREENSHOT then p == [STATUS_OK]
    else s.request in {METHOD_GET_IMAGE, METHOD_GET_COPIED_IMAGE} && p == []
  }

  ghost predicate AfterName(s: Setup, v: nat, p: bytes, left: nat) {
    if left == 0 then BeforeImage(s, p)
    else
      && s.request == METHOD_GET_FILE
      && exists i | 0 <= i <= |p| :: AllBut(s, v, p[..i], left) && WholeName(p[i..])
  }

  ghost predicate InData(s: Setup, v: nat, p: bytes, left: nat, n: nat) {
    exists i | 0 <= i <= |p| :: AfterName(s, v, p[..i], left) && PartOfBody(s, p[i..], n)
  }

  ghost predicate AfterData(s: Setup, v: nat, p: bytes, left: nat) {
    exists i | 0 <= i <= |p| :: AfterName(s, v, p[..i], left) && WholeBody(s, v, p[i..])
  }

  /** The whole announced payload of a request, accepted as far as its content decides. */
  ghost predicate WholePayload(s: Setup, v: nat, p: bytes) {
    if s.request == METHOD_GET_TEXT then WholeText(s, p)
    else if s.request == METHOD_INFO then WholeText(s, p) && InfoMatches(v, p[8..])
    else if s.request == METHOD_GET_FILE then AllBut(s, v, p, 0)
    else AfterData(s, v, p, 0)
  }

  /** What was consumed in each state. */
  ghost predicate Consumed(s: Setup, st: State, p: bytes) {
    match st
    case TextSize(_) => s.request == METHOD_GET_TEXT && p == []
    case TextBody(_, n) => s.request == METHOD_GET_TEXT && |p| == 8 && 0 < n == DecodeSize(p) <= s.maxText
    case InfoSize(_) => s.request == METHOD_INFO && p == []
    case InfoBody(_, n) => s.request == METHOD_INFO && |p| == 8 && 0 < n == DecodeSize(p) <= s.maxText
    case InfoAck(v) => v >= 4 && s.request == METHOD_INFO && WholePayload(s, v, p)
    case Count(_) => s.request == METHOD_GET_FILE && p == []
    case MakeTemp(v, left) => s.request == METHOD_GET_FILE && left > 0 && AllBut(s, v, p, left) && |p| == 8
    case NameSize(v, left) => s.request == METHOD_GET_FILE && left > 0 && AllBut(s, v, p, left)
    case Name(v, left, n) =>
      && s.request == METHOD_GET_FILE && left > 0 && |p| >= 8 && AllBut(s, v, p[..|p| - 8], left)
      && 0 < n == DecodeSize(p[|p| - 8..]) <= MAX_FILE_NAME_LENGTH
    case Check(v, left) => left > 0 && AfterName(s, v, p, left)
    case DisplayOut(_) => s.request == METHOD_GET_SCREENSHOT && p == []
    case AwaitDisplay(_) => s.request == METHOD_GET_SCREENSHOT && p == []
    case FileSize(v, left) => AfterName(s, v, p, left)
    case MakeDir(v, left) => AfterData(s, v, p, left)
    case Open(v, left, n) => InData(s, v, p, left, n)
    case Body(v, left, n) => n > 0 && InData(s, v, p, left, n)
    case Store(v, left, n) => InData(s, v, p, left, n)
    case Detach(v) => v < 4 && s.request == METHOD_GET_FILE && AllBut(s, v, p, 0)
    case Unpack(v) => s.request == METHOD_GET_FILE && AllBut(s, v, p, 0)
    case AckOut(v) => v >= 4 && s.request != METHOD_INFO && WholePayload(s, v, p)
    case _ => true
  }

  lemma EntryAppended(s: Setup, v: nat, p: bytes, left: nat)
    requires left > 0 && AfterData(s, v, p, left)
    ensures AllBut(s, v, p, left - 1)
  {
    hide WholeName, WholeBody, WholeEntries;
    var k :| 0 <= k <= |p| && AfterName(s, v, p[..k], left) && WholeBody(s, v, p[k..]);
    var i :| 0 <= i <= |p[..k]| && AllBut(s, v, p[..k][..i], left) && WholeName(p[..k][i..]);
    var e, q := p[i..], p[8..];
    assert p[..k][..i] == p[..i];
    assert p[..i][..8] == p[..8] && p[..i][8..] == q[..i - 8] && q[i - 8..] == e;
    assert WholeEntry(s, v, e) by {
      assert e[..k - i] == p[..k][i..] && e[k - i..] == p[k..];
    }
    EntriesSnoc(s, v, q, DecodeSize(p[..8]) - left, i - 8);
  }

  lemma EntriesSnoc(s: Setup, v: nat, q: bytes, k: nat, i: nat)
    requires i <= |q| && WholeEntries(s, v, q[..i], k) && WholeEntry(s, v, q[i..])
    ensures WholeEntries(s, v, q, k + 1)
  {
  }

  lemma BodyComplete(s: Setup, v: nat, p: bytes, left: nat)
    requires InData(s, v, p, left, 0)
    ensures AfterData(s, v, p, left)
  {
    hide AfterName;
    var i :| 0 <= i <= |p| && AfterName(s, v, p[..i], left) && PartOfBody(s, p[i..], 0);
    assert WholeBody(s, v, p[i..]);
  }

  /** A whole entry or image leads to the next stretch. */
  lemma SavedConsumes(s: Setup, v: nat, p: bytes, left: nat)
    requires AfterData(s, v, p, left) && (left == 0 ==> s.request != METHOD_GET_FILE)
    requires left == 0 ==> s.request in {METHOD_GET_IMAGE, METHOD_GET_COPIED_IMAGE, METHOD_GET_SCREENSHOT}
    requires left > 0 ==> s.request == METHOD_GET_FILE
    ensures Consumed(s, AfterSave(v, left), p)
  {
    hide AllBut, AfterData;
    if left > 0 {
      EntryAppended(s, v, p, left);
    }
  }

  lemma SavingRequest(s: Setup, v: nat, p: bytes, left: nat)
    ensures AfterData(s, v, p, left) || (exists n: nat :: InData(s, v, p, left, n)) || AfterName(s, v, p, left) ==>
      if left == 0 then s.request in {METHOD_GET_IMAGE, METHOD_GET_COPIED_IMAGE, METHOD_GET_SCREENSHOT}
      else s.request == METHOD_GET_FILE
  {
    hide AllBut, WholeName, WholeBody, PartOfBody;
  }

  lemma AtBodyConsumes(s: Setup, v: nat, p: bytes, left: nat, n: nat)
    requires InData(s, v, p, left, n)
    ensures Consumed(s, AtBody(v, left, n), p)
  {
    hide AfterData, InData, AfterSave;
    SavingRequest(s, v, p, left);
    if n == 0 {
      BodyComplete(s, v, p, left);
      SavedConsumes(s, v, p, left);
    }
  }

  lemma SizeConsumes(s: Setup, v: nat, p: bytes, left: nat, d: bytes)
    requires AfterName(s, v, p, left) && |d| == 8
    ensures Consumed(s, AtSize(s, v, left, DecodeSize(d)), p + d)
  {
    hide AfterName;
    var i, size := |p|, DecodeSize(d);
    assert (p + d)[..i] == p && (p + d)[i..] == d && d[..8] == d;
    if 0 <= size <= s.maxFileSize {
      assert PartOfBody(s, (p + d)[i..], size);
      assert InData(s, v, p + d, left, size);
    } else if size == -1 && v >= 3 && size <= s.maxFileSize {
      assert WholeBody(s, v, (p + d)[i..]);
      assert AfterData(s, v, p + d, left);
    }
  }

  lemma DataConsumes(s: Setup, v: nat, p: bytes, left: nat, n: nat, d: bytes)
    requires InData(s, v, p, left, n) && |d| <= n
    ensures InData(s, v, p + d, left, n - |d|)
  {
    hide AfterName;
    var i :| 0 <= i <= |p| && AfterName(s, v, p[..i], left) && PartOfBody(s, p[i..], n);
    assert (p + d)[..i] == p[..i] && (p + d)[i..] == p[i..] + d;
    assert (p[i..] + d)[..8] == p[i..][..8];
    assert PartOfBody(s, (p + d)[i..], n - |d|);
  }

  lemma NameConsumes(s: Setup, v: nat, p: bytes, left: nat, d: bytes)
    requires s.request == METHOD_GET_FILE && left > 0 && |p| >= 8 && AllBut(s, v, p[..|p| - 8], left)
    requires 0 < DecodeSize(p[|p| - 8..]) == |d| <= MAX_FILE_NAME_LENGTH
    ensures AfterName(s, v, p + d, left)
  {
    hide AllBut;
    var i := |p| - 8;
    assert (p + d)[..i] == p[..i];
    var e := (p + d)[i..];
    assert e[..8] == p[i..];
    assert WholeName(e);
  }

  lemma FirstSteps(s: Setup, st: State, p: bytes, ev: Event)
    requires Preliminary(st)
    ensures Consumed(s, Step(s, st, ev), [])
  {
    hide AllBut, WholeText;
  }

  lemma TextSizeSteps(s: Setup, st: State, p: bytes, ev: Event)
    requires (st.TextSize? || st.InfoSize?) && Consumed(s, st, p)
    ensures Consumed(s, Step(s, st, ev), p + ReceivedBy(ev))
  {
    hide AllBut, WholePayload, WholeText;
    assert p + ReceivedBy(ev) == ReceivedBy(ev);
  }

  lemma TextBodySteps(s: Setup, st: State, p: bytes, ev: Event)
    requires (st.TextBody? || st.InfoBody?) && Consumed(s, st, p)
    ensures Consumed(s, Step(s, st, ev), p + ReceivedBy(ev))
  {
    hide AllBut, InfoMatches;
    if ev.Got? {
      assert (p + ev.data)[..8] == p && (p + ev.data)[8..] == ev.data;
    }
  }

  lemma CountConsumes(s: Setup, v: nat, d: bytes)
    requires |d| == 8 && 0 < DecodeSize(d) <= s.maxFileCount
    ensures AllBut(s, v, d, DecodeSize(d))
  {
    assert d[..8] == d;
  }

  lemma CountNext(s: Setup, v: nat, ev: Event)
    ensures var now := Step(s, Count(v), ev);
            if ev.Got? && |ev.data| == 8 && 0 < DecodeSize(ev.data) <= s.maxFileCount then
              now == MakeTemp(v, DecodeSize(ev.data))
            else now.Over? || now.Astray?
  {
    hide EncodeSize, DecodeSize, InfoMatches;
  }

  lemma CountStep(s: Setup, st: State, p: bytes, ev: Event)
    requires st.Count? && Consumed(s, st, p)
    ensures Consumed(s, Step(s, st, ev), p + ReceivedBy(ev))
  {
    hide AllBut, AfterName, WholeText, WholePayload, Step, DecodeSize;
    CountNext(s, st.v, ev);
    var d := ReceivedBy(ev);
    assert p + d == d;
    if |d| == 8 && 0 < DecodeSize(d) <= s.maxFileCount {
      CountConsumes(s, st.v, d);
    }
  }

  lemma MakeTempStep(s: Setup, st: State, p: bytes, ev: Event)
    requires st.MakeTemp? && Consumed(s, st, p)
    ensures Consumed(s, Step(s, st, ev), p + ReceivedBy(ev))
  {
    hide AllBut, AfterName, WholeText, WholePayload;
    if ev.Local? {
      assert p + [] == p;
    }
  }

  lemma NameSizeSteps(s: Setup, st: State, p: bytes, ev: Event)
    requires st.NameSize? && Consumed(s, st, p)
    ensures Consumed(s, Step(s, st, ev), p + ReceivedBy(ev))
  {
    hide AllBut, AfterName, WholeText, WholePayload;
    if ev.Got? && |ev.data| == 8 {
      assert (p + ev.data)[..|p + ev.data| - 8] == p && (p + ev.data)[|p + ev.data| - 8..] == ev.data;
    }
  }

  lemma NameSteps(s: Setup, st: State, p: bytes, ev: Event)
    requires (st.Name? || st.Check?) && Consumed(s, st, p)
    ensures Consumed(s, Step(s, st, ev), p + ReceivedBy(ev))
  {
    hide AllBut, AfterName, WholeText, WholePayload;
    if st.Name? && ev.Got? && |ev.data| == st.n {
      NameConsumes(s, st.v, p, st.left, ev.data);
    } else if st.Check? && ev.Local? {
      assert p + [] == p;
    }
  }

  lemma FileSizeSteps(s: Setup, st: State, p: bytes, ev: Event)
    requires (st.FileSize? || st.MakeDir?) && Consumed(s, st, p)
    ensures Consumed(s, Step(s, st, ev), p + ReceivedBy(ev))
  {
    hide AfterName, AfterData, InData, AfterSave, AtSize, WholePayload, AllBut, WholeText;
    SavingRequest(s, st.v, p, st.left);
    if st.FileSize? && ev.Got? && |ev.data| == 8 {
      SizeConsumes(s, st.v, p, st.left, ev.data);
    } else if st.MakeDir? && ev.Local? {
      assert p + [] == p;
      SavedConsumes(s, st.v, p, st.left);
    }
  }

  lemma DataSteps(s: Setup, st: State, p: bytes, ev: Event)
    requires (st.Open? || st.Body? || st.Store?) && Consumed(s, st, p)
    ensures Consumed(s, Step(s, st, ev), p + ReceivedBy(ev))
  {
    hide AfterName, AfterData, InData, AtBody, WholePayload, AllBut, WholeText;
    if st.Body? && ev.Got? && |ev.data| <= st.n {
      DataConsumes(s, st.v, p, st.left, st.n, ev.data);
    } else if !st.Body? && ev.Local? {
      assert p + [] == p;
      AtBodyConsumes(s, st.v, p, st.left, st.n);
    }
  }

  lemma DisplaySteps(s: Setup, st: State, p: bytes, ev: Event)
    requires st.DisplayOut? || st.AwaitDisplay?
    requires Consumed(s, st, p)
    ensures Consumed(s, Step(s, st, ev), p + ReceivedBy(ev))
  {
    hide AllBut, WholeText, WholePayload;
    if ev.Got? && |ev.data| == 1 && ev.data[0] == STATUS_OK {
      assert ev.data == [STATUS_OK];
    }
  }

  lemma EndSteps(s: Setup, st: State, p: bytes, ev: Event)
    requires st.Detach? || st.Unpack? || st.AckOut? || st.InfoAck? || st.Over?
    requires Consumed(s, st, p)
    ensures Consumed(s, Step(s, st, ev), p + ReceivedBy(ev))
  {
    hide AllBut, WholeText;
    assert p + [] == p;
  }

  predicate Sending(st: State) {
    || st.TakeText? || st.TextSizeOut? || st.TextOut? || st.ListFiles? || st.CountOut? || st.ItemStart?
    || st.NameSizeOut? || st.NameOut? || st.SizeOut? || st.DataOut? || st.AwaitAck?
  }

  lemma SendingStep(s: Setup, st: State, ev: Event)
    requires Sending(st)
    ensures var now := Step(s, st, ev); Sending(now) || now.Over? || now.Astray?
  {
    hide EncodeSize, DecodeSize, InfoMatches;
  }

  lemma {:induction false} ConsumedSoFar(s: Setup, log: seq<Event>)
    ensures Consumed(s, Drive(s, log), Payload(s, log))
  {
    hide Step, Consumed;
    if log == [] {
      NothingConsumed(s);
    } else {
      var front, ev := log[..|log| - 1], log[|log| - 1];
      var st, p := Drive(s, front), Payload(s, front);
      ConsumedSoFar(s, front);
      if Preliminary(st) {
        FirstSteps(s, st, p, ev);
      } else if st.TextSize? || st.InfoSize? {
        TextSizeSteps(s, st, p, ev);
      } else if st.TextBody? || st.InfoBody? {
        TextBodySteps(s, st, p, ev);
      } else if st.Count? {
        CountStep(s, st, p, ev);
      } else if st.MakeTemp? {
        MakeTempStep(s, st, p, ev);
      } else if st.NameSize? {
        NameSizeSteps(s, st, p, ev);
      } else if st.Name? || st.Check? {
        NameSteps(s, st, p, ev);
      } else if st.FileSize? || st.MakeDir? {
        FileSizeSteps(s, st, p, ev);
      } else if st.Open? || st.Body? || st.Store? {
        DataSteps(s, st, p, ev);
      } else if st.DisplayOut? || st.AwaitDisplay? {
        DisplaySteps(s, st, p, ev);
      } else if Sending(st) {
        SendingStep(s, st, ev);
        NothingToShow(s, Step(s, st, ev), p + ReceivedBy(ev));
      } else if st.Astray? {
        StaysAstray(s, st, ev);
        NothingToShow(s, Step(s, st, ev), p + ReceivedBy(ev));
      } else {
        EndSteps(s, st, p, ev);
      }
    }
  }

  lemma NothingToShow(s: Setup, st: State, p: bytes)
    requires Sending(st) || st.Over? || st.Astray?
    ensures Consumed(s, st, p)
  {
  }

  lemma NothingConsumed(s: Setup)
    ensures Consumed(s, Hello, [])
  {
  }

  predicate Acknowledging(st: State) {
    st.AckOut? || st.InfoAck?
  }

  lemma SendersSucceed(s: Setup, st: State, ev: Event)
    requires Sending(st) && !Step(s, st, ev).Astray? && !Step(s, st, ev).Over?
    ensures Succeeded(ev)
  {
    hide EncodeSize, DecodeSize, InfoMatches;
  }

  lemma OthersSucceed(s: Setup, st: State, ev: Event)
    requires !Sending(st) && !Step(s, st, ev).Astray? && !Step(s, st, ev).Over?
    ensures !st.Astray? && !st.Over? && (Succeeded(ev) || ev.Closed?)
  {
    hide EncodeSize, DecodeSize, InfoMatches, StartSending, AtItem, AtData;
  }

  lemma OnlySuccess(s: Setup, st: State, ev: Event)
    requires var now := Step(s, st, ev); !now.Astray? && !now.Over?
    ensures !st.Astray? && !st.Over? && (Succeeded(ev) || ev.Closed?)
  {
    hide Step, Succeeded;
    if Sending(st) {
      SendersSucceed(s, st, ev);
    } else {
      OthersSucceed(s, st, ev);
    }
  }

  lemma {:induction false} OnlySuccesses(s: Setup, log: seq<Event>)
    requires !Drive(s, log).Astray? && !Drive(s, log).Over?
    ensures forall i | 0 <= i < |log| :: Succeeded(log[i]) || log[i].Closed?
  {
    hide Step, Succeeded;
    if log != [] {
      var front, ev := log[..|log| - 1], log[|log| - 1];
      OnlySuccess(s, Drive(s, front), ev);
      OnlySuccesses(s, front);
      assert log == front + [ev];
    }
  }

  lemma AckEnds(s: Setup, st: State, ev: Event)
    requires Acknowledging(st) && !Step(s, st, ev).Astray?
    ensures (ev == Wrote(ACK) || ev == WriteCut([])) && Step(s, st, ev).Over? && Step(s, st, ev).open
  {
    if ev.WriteCut? {
      assert ev.part == [];
    }
  }

  lemma OverEnds(s: Setup, st: State, ev: Event)
    requires st.Over? && !Step(s, st, ev).Astray?
    ensures st.open && ev.Closed? && Step(s, st, ev).Over? && !Step(s, st, ev).open
  {
    hide EncodeSize, DecodeSize, InfoMatches;
  }

  /** Acknowledgement discipline. Whenever the client is about to acknowledge, it speaks version 4, nothing went wrong
      before, and the bytes received since the grant are exactly one whole acceptable payload; the next event is the
      acknowledgement, and nothing but the close follows it. */
  lemma AckDiscipline(s: Setup, log: seq<Event>, i: nat)
    requires i < |log| && !Drive(s, log).Astray? && Acknowledging(Drive(s, log[..i]))
    ensures var v := Drive(s, log[..i]).v;
            v >= 4 && WholePayload(s, v, Payload(s, log[..i]))
    ensures forall j | 0 <= j < i :: Succeeded(log[j])
    ensures log[i] == Wrote(ACK) || log[i] == WriteCut([])
    ensures |log| == i + 1 || (|log| == i + 2 && log[i + 1].Closed?)
  {
    hide Step, Drive, Succeeded, WholePayload, Payload;
    var before := log[..i];
    AckPayload(s, before);
    PrefixFollows(s, log, i);
    OnlySuccesses(s, before);
    ClosedInLog(s, before);
    assert forall j | 0 <= j < i :: before[j] == log[j];
    FollowOn(s, log, i);
    AckEnds(s, Drive(s, before), log[i]);
    OnlyCloseFollows(s, log, i + 1);
  }

  lemma AckPayload(s: Setup, log: seq<Event>)
    requires Acknowledging(Drive(s, log))
    ensures var v := Drive(s, log).v; v >= 4 && WholePayload(s, v, Payload(s, log))
  {
    hide Drive, WholePayload, Payload;
    ConsumedSoFar(s, log);
  }

  /** When the run is over and still open, only the close can follow. */
  lemma OnlyCloseFollows(s: Setup, log: seq<Event>, i: nat)
    requires i <= |log| && !Drive(s, log).Astray? && Drive(s, log[..i]).Over? && Drive(s, log[..i]).open
    ensures |log| == i || (|log| == i + 1 && log[i].Closed?)
  {
    hide Step, Drive;
    if i < |log| {
      FollowOn(s, log, i);
      OverEnds(s, Drive(s, log[..i]), log[i]);
      if i + 1 < |log| {
        FollowOn(s, log, i + 1);
        OverEnds(s, Drive(s, log[..i + 1]), log[i + 1]);
        assert false;
      }
    }
  }

  lemma FollowOn(s: Setup, log: seq<Event>, i: nat)
    requires i < |log| && !Drive(s, log).Astray?
    ensures Drive(s, log[..i + 1]) == Step(s, Drive(s, log[..i]), log[i])
    ensures !Drive(s, log[..i + 1]).Astray?
  {
    hide Step;
    PrefixFollows(s, log, i + 1);
    assert log[..i + 1] == log[..i] + [log[i]];
    LogStep(s, log[..i], log[i]);
  }

  /** The acknowledgement is the last byte written, and it is written at most once. */
  lemma AckIsLast(s: Setup, log: seq<Event>, i: nat)
    requires i < |log| && !Drive(s, log).Astray? && Acknowledging(Drive(s, log[..i]))
    ensures SentIn(log) == SentIn(log[..i]) + (if log[i] == Wrote(ACK) then ACK else [])
    ensures ReceivedIn(log) == ReceivedIn(log[..i])
    ensures forall k | 0 <= k < |log| && Acknowledging(Drive(s, log[..k])) :: k == i
  {
    hide Step, WholePayload, Payload, Drive, SentIn, ReceivedIn, Succeeded, Acknowledging;
    AckDiscipline(s, log, i);
    LastEvents(s, log, i);
    NothingMoved(log[i], ReceivedIn(log[..i]));
    forall k | 0 <= k < |log| && Acknowledging(Drive(s, log[..k]))
      ensures k == i
    {
      AckDiscipline(s, log, k);
    }
  }

  function SentBy(ev: Event): bytes {
    if ev.Wrote? then ev.data else if ev.WriteCut? then ev.part else []
  }

  lemma LogAt(s: Setup, log: seq<Event>, k: nat)
    requires k < |log|
    ensures SentIn(log[..k + 1]) == SentIn(log[..k]) + SentBy(log[k])
    ensures ReceivedIn(log[..k + 1]) == ReceivedIn(log[..k]) + ReceivedBy(log[k])
  {
    hide Step, Drive, SentIn, ReceivedIn;
    assert log[..k + 1] == log[..k] + [log[k]];
    LogStep(s, log[..k], log[k]);
  }

  /** Only the close can follow event i. */
  lemma LastEvents(s: Setup, log: seq<Event>, i: nat)
    requires |log| == i + 1 || (|log| == i + 2 && log[i + 1].Closed?)
    ensures SentIn(log) == SentIn(log[..i]) + SentBy(log[i])
    ensures ReceivedIn(log) == ReceivedIn(log[..i]) + ReceivedBy(log[i])
  {
    hide Step, Drive, SentIn, ReceivedIn, SentBy, ReceivedBy;
    LogAt(s, log, i);
    if |log| == i + 2 {
      LogAt(s, log, i + 1);
      NothingMoved(log[i + 1], SentIn(log[..i + 1]));
      NothingMoved(log[i + 1], ReceivedIn(log[..i + 1]));
    }
    assert log[..|log|] == log;
  }

  lemma NothingMoved(ev: Event, b: bytes)
    requires ev.Closed? || ev.Wrote? || ev.WriteCut?
    ensures b + ReceivedBy(ev) == b
    ensures ev.Closed? ==> b + SentBy(ev) == b
  {
  }

  predicate AsksForData(request: byte) {
    request in {METHOD_GET_TEXT, METHOD_GET_FILE, METHOD_GET_IMAGE, METHOD_GET_COPIED_IMAGE, METHOD_GET_SCREENSHOT,
                METHOD_INFO}
  }

  lemma {:induction false} SendersSend(s: Setup, log: seq<Event>)
    ensures Sending(Drive(s, log)) ==> !AsksForData(s.request)
  {
    hide Step, AsksForData;
    if log != [] {
      SendersSend(s, log[..|log| - 1]);
      SendersStep(s, Drive(s, log[..|log| - 1]), log[|log| - 1]);
    }
  }

  lemma SendersStep(s: Setup, st: State, ev: Event)
    requires Sending(st) ==> !AsksForData(s.request)
    ensures Sending(Step(s, st, ev)) ==> !AsksForData(s.request)
  {
    hide Next, Fits, Wants, AsksForData;
    if !Sending(st) && Fits(Wants(s, st), ev) {
      if st.AwaitMethodStatus? {
        SendersStart(s, st, ev);
      } else {
        OthersNeverSend(s, st, ev);
      }
    }
  }

  lemma SendersStart(s: Setup, st: State, ev: Event)
    requires st.AwaitMethodStatus? && Fits(Wants(s, st), ev)
    ensures Sending(Next(s, st, ev)) ==> !AsksForData(s.request)
  {
    hide EncodeSize, DecodeSize, InfoMatches, StartSending, AtSize, Enter, AtItem, AtData, AfterSave, AtBody;
  }

  lemma OthersNeverSend(s: Setup, st: State, ev: Event)
    requires !Sending(st) && !st.AwaitMethodStatus? && Fits(Wants(s, st), ev)
    ensures !Sending(Next(s, st, ev))
  {
    hide Next, Fits, Wants, Sending;
    if ev.Local? {
      DecisionsNeverSend(s, st, ev);
    } else {
      TransfersNeverSend(s, st, ev);
    }
  }

  lemma DecisionsNeverSend(s: Setup, st: State, ev: Event)
    requires !Sending(st) && Fits(Wants(s, st), ev) && ev.Local?
    ensures !Sending(Next(s, st, ev))
  {
    hide EncodeSize, DecodeSize, InfoMatches, KnownMethod, StartSending, AtItem, AtData, Dispatch, Enter, AtSize;
  }

  lemma TransfersNeverSend(s: Setup, st: State, ev: Event)
    requires !Sending(st) && !st.AwaitMethodStatus? && Fits(Wants(s, st), ev) && !ev.Local?
    ensures !Sending(Next(s, st, ev))
  {
    hide EncodeSize, DecodeSize, InfoMatches, KnownMethod, StartSending, AtItem, AtData, Dispatch, AfterSave, AtBody;
  }

  lemma SuccessComesFrom(s: Setup, st: State, ev: Event)
    requires Step(s, st, ev).Over? && Step(s, st, ev).ok && Step(s, st, ev).v >= 4
    requires Sending(st) ==> !AsksForData(s.request)
    requires AsksForData(s.request)
    ensures if Step(s, st, ev).open then Acknowledging(st) else st == Over(Step(s, st, ev).v, true, true)
    ensures Acknowledging(st) ==> st.v == Step(s, st, ev).v
  {
    hide EncodeSize, DecodeSize, InfoMatches;
  }

  /** A version 4 request for data that ended well was acknowledged (or the acknowledgement could not be written)
      right before the close, after one whole acceptable payload. */
  lemma SuccessIsAcknowledged(s: Setup, log: seq<Event>, v: nat)
    requires Drive(s, log) == Over(v, true, false) && v >= 4 && AsksForData(s.request)
    ensures |log| >= 2
    ensures var before := log[..|log| - 2];
            && Acknowledging(Drive(s, before)) && WholePayload(s, v, Payload(s, before))
            && (log[|log| - 2] == Wrote(ACK) || log[|log| - 2] == WriteCut([]))
            && log[|log| - 1].Closed?
  {
    hide Step, WholePayload, Payload, AsksForData;
    var front := log[..|log| - 1];
    SendersSend(s, front);
    SuccessComesFrom(s, Drive(s, front), log[|log| - 1]);
    var before := front[..|front| - 1];
    assert before == log[..|log| - 2] && front[|front| - 1] == log[|log| - 2];
    SendersSend(s, before);
    SuccessComesFrom(s, Drive(s, before), front[|front| - 1]);
    AckDiscipline(s, log, |log| - 2);
  }
}
