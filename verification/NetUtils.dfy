/** Blocking reads and writes over a transport that may move any number of bytes, stall or break at each call
    (src/utils/net_utils.c). */
module NetUtils {
  import opened Bytes
  import opened Wire
  import opened Session

  /** What one recv or send call does: moves up to n bytes (at least one while there is something to move),
      makes no progress, or fails for good. */
  datatype Outcome = Moved(n: nat) | Stalled | Broken

  /** No break, and never eleven calls in a row without progress. */
  ghost predicate Delivers(schedule: nat -> Outcome) {
    && (forall k :: schedule(k) != Broken)
    && (forall k: nat :: ProgressWithin(schedule, k))
  }

  ghost predicate ProgressWithin(schedule: nat -> Outcome, k: nat) {
    exists j :: k <= j < k + 11 && schedule(j).Moved?
  }

  /** Calls numbered from .. to made no progress. */
  ghost predicate StalledThrough(schedule: nat -> Outcome, from: nat, to: nat) {
    forall j :: from <= j < to ==> !schedule(j).Moved?
  }

  class Socket {
    // the peer: everything it sends before it closes, and how the transport behaves at each call
    const inbound: bytes
    const schedule: nat -> Outcome
    const setup: Setup  // the configuration and the request of this session

    var valid: bool  // the MASK_VALID bit of socket->type
    var pos: nat  // bytes of inbound delivered so far
    var sent: bytes  // bytes the transport took so far
    var calls: nat  // transport calls so far
    var closes: nat  // how often the descriptor was closed
    ghost var log: seq<Event>
    ghost var at: State

    constructor (inbound: bytes, schedule: nat -> Outcome, setup: Setup)
      ensures Valid() && valid && pos == 0 && sent == [] && log == [] && at == Hello
      ensures this.inbound == inbound && this.schedule == schedule && this.setup == setup
    {
      this.inbound, this.schedule, this.setup := inbound, schedule, setup;
      valid, pos, sent, calls, closes := true, 0, [], 0, 0;
      log, at := [], Hello;
    }

    /** The counters agree with the log, and at is where the log leads. */
    ghost predicate Valid()
      reads this
    {
      && pos <= |inbound|
      && inbound[..pos] == ReceivedIn(log)
      && sent == SentIn(log)
      && at == Drive(setup, log)
      && closes == if valid then 0 else 1
    }

    ghost method Record(ev: Event)
      requires at == Drive(setup, log)
      modifies `log, `at
      ensures log == old(log) + [ev]
      ensures at == Step(setup, old(at), ev) == Drive(setup, log)
      ensures SentIn(log) == old(SentIn(log)) + (if ev.Wrote? then ev.data else if ev.WriteCut? then ev.part else [])
      ensures ReceivedIn(log)
           == old(ReceivedIn(log)) + (if ev.Got? then ev.data else if ev.ReadCut? then ev.part else [])
    {
      LogStep(setup, log, ev);
      log, at := log + [ev], Step(setup, at, ev);
    }

    /** A decision or an operation on local files: the transport is not involved. */
    ghost method Note(ok: bool)
      requires Valid()
      modifies `log, `at
      ensures Valid() && at == Step(setup, old(at), Local(ok))
    {
      Record(Local(ok));
    }

    /** The data to send was taken from the clipboard. */
    ghost method NoteTaken(ev: Event)
      requires Valid() && (ev.Copied? || ev.Listed?)
      modifies `log, `at
      ensures Valid() && at == Step(setup, old(at), ev)
    {
      Record(ev);
    }

    /** One recv call for at most req bytes into buf from index total on. Delivers 0 at the end of the stream. */
    method Recv(buf: array<byte>, total: nat, req: nat) returns (got: nat, fatal: bool)
      requires valid && pos <= |inbound| && 0 < req && total + req <= buf.Length
      modifies `pos, `calls, buf
      ensures calls == old(calls) + 1
      ensures got <= req && pos == old(pos) + got <= |inbound|
      ensures buf[..total] == old(buf[..total]) && buf[total..total + got] == inbound[old(pos)..pos]
      ensures fatal <==> schedule(old(calls)) == Broken || (schedule(old(calls)).Moved? && old(pos) == |inbound|)
      ensures got > 0 <==> schedule(old(calls)).Moved? && old(pos) < |inbound|
    {
      got, fatal := 0, false;
      match schedule(calls) {
        case Stalled =>
        case Broken => fatal := true;
        case Moved(n) =>
          got := Min(Min(if n == 0 then 1 else n, req), |inbound| - pos);
          fatal := got == 0;
          for i := 0 to got
            modifies buf
            invariant forall k | 0 <= k < total :: buf[k] == old(buf[k])
            invariant forall k | total <= k < total + i :: buf[k] == inbound[pos + (k - total)]
          {
            buf[total + i] := inbound[pos + i];
          }
          pos := pos + got;
      }
      calls := calls + 1;
    }

    /** The loop of read_sock. */
    method Fill(buf: array<byte>, size: nat) returns (ok: bool)
      requires valid && pos <= |inbound| && size <= buf.Length
      modifies `pos, `calls, buf
      ensures old(pos) <= pos <= |inbound| && pos <= old(pos) + size && (ok <==> pos == old(pos) + size)
      ensures buf[..pos - old(pos)] == inbound[old(pos)..pos]
      ensures calls - old(calls) <= if size == 0 then 0 else 11 * size + 1
      ensures Delivers(schedule) ==> (ok <==> old(pos) + size <= |inbound|)
    {
      var cnt := 0;
      var total := 0;
      ghost var stalls: nat := calls;  // the first call since the last progress
      while total < size
        invariant total <= size && cnt <= 11
        invariant pos == old(pos) + total <= |inbound|
        invariant buf[..total] == inbound[old(pos)..pos]
        invariant 0 <= calls - old(calls) <= 11 * total + cnt
        invariant total == size ==> cnt == if size == 0 then 0 else 1
        invariant stalls <= calls && StalledThrough(schedule, stalls, calls)
        invariant cnt == calls - stalls + (if total > 0 then 1 else 0)
        decreases size - total, 11 - cnt
      {
        var got, fatal := Recv(buf, total, Min(size - total, TWO_31 - 1));
        if got > 0 {
          ReadSoFar(buf[..], total, got, inbound, old(pos));
          total := total + got;
          cnt := 0;
          stalls := calls;
        } else if cnt > 10 || fatal {
          if !fatal {
            TooManyStalls(schedule, stalls, calls);
          }
          return false;
        }
        cnt := cnt + 1;
      }
      return true;
    }

    /** read_sock: succeeds exactly when size bytes were delivered, and then buf holds them; otherwise it has a
        shorter prefix of them. */
    method ReadSock(buf: array<byte>, size: nat) returns (ok: bool)
      requires Valid() && valid && size <= buf.Length
      modifies this, buf
      ensures Valid() && valid && sent == old(sent)
      ensures old(pos) <= pos <= old(pos) + size && (ok <==> pos == old(pos) + size)
      ensures buf[..pos - old(pos)] == inbound[old(pos)..pos]
      ensures at == Step(setup, old(at), if ok then Got(inbound[old(pos)..pos]) else ReadCut(inbound[old(pos)..pos]))
      ensures calls - old(calls) <= if size == 0 then 0 else 11 * size + 1
      ensures Delivers(schedule) ==> (ok <==> old(pos) + size <= |inbound|)
    {
      ok := Fill(buf, size);
      ghost var data := inbound[old(pos)..pos];
      Record(if ok then Got(data) else ReadCut(data));
      assert inbound[..pos] == inbound[..old(pos)] + data;
    }

    /** One send call offering all of data. */
    method Send(data: bytes) returns (taken: nat, fatal: bool)
      requires valid && data != []
      modifies `sent, `calls
      ensures calls == old(calls) + 1
      ensures taken <= |data| && sent == old(sent) + data[..taken]
      ensures fatal <==> schedule(old(calls)) == Broken
      ensures taken > 0 <==> schedule(old(calls)).Moved?
    {
      taken, fatal := 0, false;
      match schedule(calls) {
        case Stalled =>
        case Broken => fatal := true;
        case Moved(n) => taken := Min(if n == 0 then 1 else n, |data|);
      }
      sent := sent + data[..taken];
      calls := calls + 1;
    }

    /** The loop of write_sock. */
    method Drain(buf: bytes) returns (ok: bool)
      requires valid
      modifies `sent, `calls
      ensures exists n :: 0 <= n <= |buf| && sent == old(sent) + buf[..n] && (ok <==> n == |buf|)
      ensures calls - old(calls) <= if buf == [] then 0 else 11 * |buf| + 1
      ensures Delivers(schedule) ==> ok
    {
      var size := |buf|;
      var cnt := 0;
      var total := 0;
      ghost var stalls: nat := calls;
      while total < size
        invariant total <= size && cnt <= 11
        invariant sent == old(sent) + buf[..total]
        invariant 0 <= calls - old(calls) <= 11 * total + cnt
        invariant total == size ==> cnt == if size == 0 then 0 else 1
        invariant stalls <= calls && StalledThrough(schedule, stalls, calls)
        invariant cnt == calls - stalls + (if total > 0 then 1 else 0)
        decreases size - total, 11 - cnt
      {
        var taken, fatal := Send(buf[total..total + Min(size - total, TWO_31 - 1)]);
        assert buf[..total + taken] == buf[..total] + buf[total..total + Min(size - total, TWO_31 - 1)][..taken];
        if taken > 0 {
          total := total + taken;
          cnt := 0;
          stalls := calls;
        } else if cnt > 10 || fatal {
          if !fatal {
            TooManyStalls(schedule, stalls, calls);
          }
          return false;
        }
        cnt := cnt + 1;
      }
      return true;
    }

    /** write_sock: succeeds exactly when the transport took all of buf, and then the stream grew by buf; otherwise it
        grew by a shorter prefix. */
    method WriteSock(buf: bytes) returns (ok: bool)
      requires Valid() && valid
      modifies this
      ensures Valid() && valid && pos == old(pos)
      ensures ok ==> sent == old(sent) + buf && at == Step(setup, old(at), Wrote(buf))
      ensures !ok ==> exists n :: 0 <= n < |buf| && sent == old(sent) + buf[..n]
                               && at == Step(setup, old(at), WriteCut(buf[..n]))
      ensures calls - old(calls) <= if buf == [] then 0 else 11 * |buf| + 1
      ensures Delivers(schedule) ==> ok
    {
      ok := Drain(buf);
      ghost var n :| 0 <= n <= |buf| && sent == old(sent) + buf[..n] && (ok <==> n == |buf|);
      assert buf[..|buf|] == buf;
      Record(if ok then Wrote(buf) else WriteCut(buf[..n]));
    }

    /** send_size fills an 8-byte buffer from its last byte down, shifting the value right by eight bits each time. */
    method SendSize(size: int64) returns (ok: bool)
      requires Valid() && valid
      modifies this
      ensures Valid() && valid && pos == old(pos)
      ensures ok ==> sent == old(sent) + EncodeSize(size) && at == Step(setup, old(at), Wrote(EncodeSize(size)))
      ensures !ok ==> exists n :: 0 <= n < 8 && sent == old(sent) + EncodeSize(size)[..n]
                               && at == Step(setup, old(at), WriteCut(EncodeSize(size)[..n]))
      ensures Delivers(schedule) ==> ok
    {
      var buf := new byte[8];
      var sz: int := size;
      var i := 7;
      while i >= 0
        modifies buf
        invariant -1 <= i <= 7
        invariant EncodeSize(size) == BigEndian(sz, (i + 1) as nat) + buf[i + 1..]
      {
        ghost var done := buf[i + 1..];
        buf[i] := sz % 256;
        LastByte(sz, (i + 1) as nat, done, buf[i..]);
        sz := sz / 256;
        i := i - 1;
      }
      assert buf[0..] == buf[..] && BigEndian(sz, 0) + buf[..] == buf[..];
      ok := WriteSock(buf[..]);
    }

    /** read_size shifts the bytes into a signed 64-bit value from the left; the shift drops the bits it pushes out. */
    method ReadSize() returns (ok: bool, size: int64)
      requires Valid() && valid
      modifies this
      ensures Valid() && valid && sent == old(sent)
      ensures old(pos) <= pos <= old(pos) + 8 && (ok <==> pos == old(pos) + 8)
      ensures at == Step(setup, old(at), if ok then Got(inbound[old(pos)..pos]) else ReadCut(inbound[old(pos)..pos]))
      ensures ok ==> size == DecodeSize(inbound[old(pos)..pos])
      ensures Delivers(schedule) ==> (ok <==> old(pos) + 8 <= |inbound|)
    {
      var buf := new byte[8];
      size := 0;
      ok := ReadSock(buf, 8);
      if ok {
        assert buf[..8] == buf[..];
        size := JoinBytes(buf[..]);
      }
    }

    /** close_socket and close_socket_no_wait: a socket that is already closed is left alone. */
    method CloseSocket()
      requires Valid()
      modifies this
      ensures Valid() && !valid && pos == old(pos) && sent == old(sent) && calls == old(calls)
      ensures at == if old(valid) then Step(setup, old(at), Closed) else old(at)
    {
      if !valid {
        return;
      }
      valid := false;
      closes := closes + 1;
      Record(Closed);
    }
  }

  method JoinBytes(buf: bytes) returns (size: int64)
    requires |buf| == 8
    ensures size == DecodeSize(buf)
  {
    size := 0;
    for i := 0 to 8
      invariant size == Signed(Unsigned(buf[..i]))
    {
      ShiftInStep(buf, i);
      size := ShiftIn(size, buf[i]);
    }
    assert buf[..8] == buf;
  }

  /** (size << 8) | b on a signed 64-bit value. */
  function ShiftIn(size: int64, b: byte): int64 {
    Signed((size * 256 + b) % TWO_64)
  }

  lemma ReadSoFar(buf: bytes, total: nat, got: nat, inbound: bytes, start: nat)
    requires total + got <= |buf| && start + total + got <= |inbound|
    requires buf[..total] == inbound[start..start + total]
    requires buf[total..total + got] == inbound[start + total..start + total + got]
    ensures buf[..total + got] == inbound[start..start + total + got]
  {
    assert buf[..total + got] == buf[..total] + buf[total..total + got];
    SliceJoin(inbound, start, start + total, start + total + got);
  }

  /** Filling in the last byte leaves the bytes before it to do. */
  lemma LastByte(n: int, k: nat, done: bytes, now: bytes)
    requires k > 0 && now == [n % 256] + done
    ensures BigEndian(n, k) + done == BigEndian(n / 256, k - 1) + now
  {
  }

  lemma ShiftInStep(s: bytes, i: nat)
    requires |s| == 8 && i < 8
    ensures Unsigned(s[..i]) < TWO_63
    ensures ShiftIn(Signed(Unsigned(s[..i])), s[i]) == Signed(Unsigned(s[..i + 1]))
  {
    UnsignedBelow(s[..i]);
    assert s[..i + 1][..i] == s[..i];
    assert Pow256(i) <= Pow256(7) by { PowMonotone(i, 7); }
    PowerEight();
  }

  lemma {:induction false} PowMonotone(i: nat, k: nat)
    requires i <= k
    ensures Pow256(i) <= Pow256(k)
    decreases k - i
  {
    if i < k {
      PowMonotone(i + 1, k);
    }
  }

  /** Eleven calls in a row without progress do not happen on a delivering transport. */
  lemma TooManyStalls(schedule: nat -> Outcome, from: nat, to: nat)
    requires StalledThrough(schedule, from, to) && to >= from + 11
    ensures !Delivers(schedule)
  {
    assert !ProgressWithin(schedule, from);
  }

}
