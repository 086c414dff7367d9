/** The selection owner xcin and the requestor xcout (src/xclip/xclib.c) over an X server that keeps one property and
    one event queue for each of them. Large texts go through the property in chunks: the INCR mechanism of section
    2.7.2 of the ICCCM. */
module Xclib {
  import opened Bytes

  datatype Kind = IncrKind | AtomKind | TextKind
  datatype Property = Property(kind: Kind, data: bytes)

  datatype XEvent =
    | SelectionRequest(forTargets: bool)
    | SelectionNotify(granted: bool)
    | SelectionClear
    | PropertyNewValue
    | PropertyDelete

  /** The property of the requestor's window, the undelivered events, and whether the owner is told of changes. */
  datatype Display = Display(
    prop: Option<Property>, ownerQ: seq<XEvent>, requestorQ: seq<XEvent>, listens: bool)

  function ChangedProperty(d: Display, p: Property): Display {
    Display(Some(p), d.ownerQ + (if d.listens then [PropertyNewValue] else []), d.requestorQ + [PropertyNewValue],
            d.listens)
  }

  function DeletedProperty(d: Display): Display {
    if d.prop == None then d
    else
      Display(None, d.ownerQ + (if d.listens then [PropertyDelete] else []), d.requestorQ + [PropertyDelete], d.listens)
  }

  /** The bytes of the property; none when there is no property. */
  function PropertyData(d: Display): bytes {
    if d.prop == None then [] else d.prop.value.data
  }

  class XServer {
    var prop: Option<Property>
    var ownerQ: seq<XEvent>
    var requestorQ: seq<XEvent>
    var listens: bool

    constructor ()
      ensures View() == Display(None, [], [], false)
    {
      prop, ownerQ, requestorQ, listens := None, [], [], false;
    }

    function View(): Display
      reads this
    {
      Display(prop, ownerQ, requestorQ, listens)
    }

    method ChangeProperty(p: Property)
      modifies this
      ensures View() == ChangedProperty(old(View()), p)
    {
      prop := Some(p);
      requestorQ := requestorQ + [PropertyNewValue];
      if listens {
        ownerQ := ownerQ + [PropertyNewValue];
      }
    }

    method DeleteProperty()
      modifies this
      ensures View() == DeletedProperty(old(View()))
    {
      if prop.Some? {
        prop := None;
        requestorQ := requestorQ + [PropertyDelete];
        if listens {
          ownerQ := ownerQ + [PropertyDelete];
        }
      }
    }

    method SelectInput()
      modifies this
      ensures View() == old(View()).(listens := true)
    {
      listens := true;
    }

    method ConvertSelection()
      modifies this
      ensures View() == old(View()).(ownerQ := old(ownerQ) + [SelectionRequest(false)])
    {
      ownerQ := ownerQ + [SelectionRequest(false)];
    }

    method SendNotify()
      modifies this
      ensures View() == old(View()).(requestorQ := old(requestorQ) + [SelectionNotify(true)])
    {
      requestorQ := requestorQ + [SelectionNotify(true)];
    }
  }

  // The owner

  datatype InContext = InIdle | InIncr
  datatype In = In(context: InContext, pos: nat)

  /** What xcin does with an event: the display and the owner after it, what was put into the property, and the
      result. */
  datatype InResult = InResult(d: Display, o: In, put: seq<Property>, finished: bool)

  /** The two atoms that answer a request for the targets. */
  const TARGET_LIST := Property(AtomKind, [0, 0])

  function Chunk(text: bytes, chunk: nat, pos: nat): bytes {
    if pos >= |text| then [] else text[pos..Min(pos + chunk, |text|)]
  }

  /** The answer to a request. */
  function Answer(text: bytes, chunk: nat, forTargets: bool): Property {
    if forTargets then TARGET_LIST
    else if |text| > chunk then Property(IncrKind, [])
    else Property(TextKind, text)
  }

  function Notified(d: Display): Display {
    d.(requestorQ := d.requestorQ + [SelectionNotify(true)])
  }

  function XcinStep(text: bytes, chunk: nat, d: Display, o: In, evt: XEvent): InResult {
    match o.context
    case InIdle =>
      if !evt.SelectionRequest? then InResult(d, o, [], false)
      else
        var p := Answer(text, chunk, evt.forTargets);
        var incr := p.kind == IncrKind;
        var d' := ChangedProperty(d, p);
        InResult(Notified(if incr then d'.(listens := true) else d'), In(if incr then InIncr else InIdle, 0), [p],
                 !evt.forTargets && !incr)
    case InIncr =>
      if evt != PropertyDelete then InResult(d, o, [], false)
      else
        var c := Chunk(text, chunk, o.pos);
        var p := Property(TextKind, c);
        InResult(ChangedProperty(d, p), In(if c == [] then InIdle else InIncr, o.pos + chunk), [p], c == [])
  }

  /** The owner of the selection. What doIn keeps in static variables (the context, the position, and whether the
      selection was lost) outlives a call. */
  class Owner {
    const text: array<byte>
    const chunkSize: nat
    var context: InContext
    var pos: nat
    var clear: bool

    constructor (text: array<byte>, chunkSize: nat)
      requires chunkSize >= 1
      ensures this.text == text && this.chunkSize == chunkSize && View().context == InIdle && !clear
    {
      this.text, this.chunkSize := text, chunkSize;
      context, pos, clear := InIdle, 0, false;
    }

    function View(): In
      reads this
    {
      In(context, pos)
    }

    /** xcin */
    method Xcin(server: XServer, evt: XEvent) returns (finished: bool, ghost put: seq<Property>)
      requires chunkSize >= 1
      modifies this, server
      ensures InResult(server.View(), View(), put, finished)
           == XcinStep(text[..], chunkSize, old(server.View()), old(View()), evt)
      ensures clear == old(clear)
    {
      put := [];
      match context {
        case InIdle =>
          if !evt.SelectionRequest? {
            return false, put;
          }
          var len := text.Length;
          pos := 0;
          if evt.forTargets {
            server.ChangeProperty(TARGET_LIST);
            put := [TARGET_LIST];
          } else if len > chunkSize {
            server.ChangeProperty(Property(IncrKind, []));
            put := [Property(IncrKind, [])];
            server.SelectInput();
            context := InIncr;
          } else {
            server.ChangeProperty(Property(TextKind, text[..]));
            put := [Property(TextKind, text[..])];
          }
          server.SendNotify();
          if evt.forTargets {
            return false, put;
          }
          return len <= chunkSize, put;
        case InIncr =>
          if evt != PropertyDelete {
            return false, put;
          }
          var len := text.Length;
          var chunkLen: int := chunkSize;
          if pos + chunkLen > len {
            chunkLen := len - pos;
          }
          if pos > len {
            chunkLen := 0;
          }
          var c: bytes := [];
          if chunkLen != 0 {
            c := text[pos..pos + chunkLen];
          }
          assert c == Chunk(text[..], chunkSize, pos);
          server.ChangeProperty(Property(TextKind, c));
          put := [Property(TextKind, c)];
          if chunkLen == 0 {
            context := InIdle;
          }
          pos := pos + chunkSize;
          return chunkLen == 0, put;
      }
    }
  }

  // The requestor

  datatype OutContext = OutNone | SentConvSel | OutIncr | BadTarget
  datatype Out = Out(context: OutContext, buf: bytes)
  datatype OutResult = OutResult(d: Display, r: Out, complete: bool)

  /** What xcout does; without a context no event was taken. */
  function XcoutStep(d: Display, r: Out, evt: XEvent): OutResult {
    match r.context
    case OutNone =>
      OutResult(d.(ownerQ := d.ownerQ + [SelectionRequest(false)]), Out(SentConvSel, []), false)
    case SentConvSel =>
      if !evt.SelectionNotify? then OutResult(d, r, false)
      else if !evt.granted then OutResult(d, Out(BadTarget, r.buf), false)
      else if d.prop.Some? && d.prop.value.kind == IncrKind then
        OutResult(DeletedProperty(d), Out(OutIncr, r.buf), false)
      else OutResult(DeletedProperty(d), Out(OutNone, PropertyData(d)), true)
    case OutIncr =>
      if evt != PropertyNewValue then OutResult(d, r, false)
      else if PropertyData(d) == [] then OutResult(DeletedProperty(d), Out(OutNone, r.buf), true)
      else OutResult(DeletedProperty(d), Out(OutIncr, r.buf + PropertyData(d)), false)
    case BadTarget => OutResult(d, r, false)
  }

  class Requestor {
    var context: OutContext
    var txt: array<byte>
    var len: nat

    constructor ()
      ensures len == txt.Length && fresh(txt) && View() == Out(OutNone, [])
    {
      context, len := OutNone, 0;
      txt := new byte[0];
    }

    function View(): Out
      requires len == txt.Length
      reads this, txt
    {
      Out(context, txt[..])
    }

    /** The buffer with more data at its end, as malloc or realloc and memcpy make it. */
    method Append(data: bytes)
      requires len == txt.Length
      modifies this
      ensures len == txt.Length && fresh(txt) && txt[..] == old(txt[..]) + data && context == old(context)
    {
      var ltxt := new byte[len + |data|];
      for i := 0 to len
        modifies ltxt
        invariant forall j | 0 <= j < i :: ltxt[j] == txt[j]
      {
        ltxt[i] := txt[i];
      }
      for i := 0 to |data|
        modifies ltxt
        invariant forall j | 0 <= j < len :: ltxt[j] == txt[j]
        invariant forall j | len <= j < len + i :: ltxt[j] == data[j - len]
      {
        ltxt[len + i] := data[i];
      }
      assert ltxt[..] == txt[..] + data;
      txt := ltxt;
      len := len + |data|;
    }

    method Reset()
      modifies this
      ensures len == txt.Length == 0 && fresh(txt) && context == old(context)
    {
      len := 0;
      txt := new byte[0];
    }

    /** xcout */
    method Xcout(server: XServer, evt: XEvent) returns (complete: bool)
      requires len == txt.Length
      modifies this, server
      ensures len == txt.Length && (txt == old(txt) || fresh(txt))
      ensures OutResult(server.View(), View(), complete) == XcoutStep(old(server.View()), old(View()), evt)
    {
      match context {
        case OutNone =>
          Reset();
          server.ConvertSelection();
          context := SentConvSel;
          return false;
        case SentConvSel =>
          if !evt.SelectionNotify? {
            return false;
          }
          if !evt.granted {
            context := BadTarget;
            return false;
          }
          if server.prop.Some? && server.prop.value.kind == IncrKind {
            server.DeleteProperty();
            context := OutIncr;
            return false;
          }
          var buffer := PropertyData(server.View());
          server.DeleteProperty();
          Reset();
          Append(buffer);
          assert txt[..] == buffer;
          context := OutNone;
          return true;
        case OutIncr =>
          if evt != PropertyNewValue {
            return false;
          }
          var buffer := PropertyData(server.View());
          if buffer == [] {
            server.DeleteProperty();
            context := OutNone;
            return true;
          }
          Append(buffer);
          server.DeleteProperty();
          return false;
        case BadTarget =>
          return false;
      }
    }
  }
}
