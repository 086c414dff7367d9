/** The one-byte acknowledgement of protocol version 4: _read_ack and _send_ack (src/proto/methods.c). */
module Acks {
  import opened Bytes
  import opened Session
  import opened NetUtils

  function AckEvent(ok: bool): Event {
    if ok then Wrote(ACK) else WriteCut([])
  }

  method SendAck(socket: Socket) returns (ok: bool)
    requires socket.Valid() && socket.valid
    modifies socket
    ensures socket.Valid() && socket.valid && socket.pos == old(socket.pos)
    ensures socket.sent == if ok then old(socket.sent) + ACK else old(socket.sent)
    ensures ok ==> socket.sent == old(socket.sent) + [1]
    ensures socket.at == Step(socket.setup, old(socket.at), AckEvent(ok))
    ensures Delivers(socket.schedule) ==> ok
  {
    hide Step, Drive, SentIn, ReceivedIn, Delivers;
    ok := socket.WriteSock(ACK);
    if !ok {
      ghost var n :| 0 <= n < |ACK| && socket.sent == old(socket.sent) + ACK[..n]
        && socket.at == Step(socket.setup, old(socket.at), WriteCut(ACK[..n]));
      assert ACK[..n] == [];
    }
  }

  /** Whether the acknowledgement came or not, only its byte is consumed. */
  method ReadAck(socket: Socket) returns (ok: bool)
    requires socket.Valid() && socket.valid
    modifies socket
    ensures socket.Valid() && socket.valid && socket.sent == old(socket.sent)
    ensures old(socket.pos) <= socket.pos <= old(socket.pos) + 1
    ensures ok <==> socket.pos == old(socket.pos) + 1 && socket.inbound[old(socket.pos)] == 1
    ensures old(socket.at).AwaitAck? ==> socket.at == Over(old(socket.at).v, true, true)
    ensures Delivers(socket.schedule) && old(socket.pos) < |socket.inbound| ==> socket.pos == old(socket.pos) + 1
  {
    hide Drive, SentIn, ReceivedIn, Delivers;
    var status := new byte[1];
    var got := socket.ReadSock(status, 1);
    if got {
      assert status[..1][0] == socket.inbound[old(socket.pos)];
    }
    ok := got && status[0] == 1;
  }
}
