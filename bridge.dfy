/**
 * What the bridge does to connections and to the serial line, as values:
 * the UART-to-TCP broadcast of `uart_dispatcher` and the TCP-to-UART
 * forward with echo of `connection_cb`. The class in SerialOverIp performs
 * these step by step and is proved to agree with the functions here.
 */
module Bridge {
  import opened Mongoose

  /** A connection the bridge serves: one accepted by the bridge's listener. */
  predicate ServedBy(c: Conn, listener: ListenerId) {
    c.listener == Some(listener)
  }

  /**
   * One pass of the `mg_next` loop: every served connection gets `data`
   * queued; every other connection (the listening socket, HTTP clients) is
   * left as it was. Order and number of connections are kept.
   */
  function Broadcast(conns: seq<Conn>, listener: ListenerId, data: seq<byte>): (r: seq<Conn>)
    ensures |r| == |conns|
    ensures forall k :: 0 <= k < |r| ==>
      r[k].listener == conns[k].listener && r[k].recv == conns[k].recv && r[k].sendAndClose == conns[k].sendAndClose
    ensures forall k :: 0 <= k < |r| ==>
      r[k].outbox == conns[k].outbox + (if ServedBy(conns[k], listener) then data else [])
  {
    if conns == [] then []
    else
      var c := conns[0];
      [if ServedBy(c, listener) then MgSend(c, data) else c] + Broadcast(conns[1..], listener, data)
  }

  /** Broadcasting nothing changes nothing. */
  lemma BroadcastNothing(conns: seq<Conn>, listener: ListenerId)
    ensures Broadcast(conns, listener, []) == conns
  {
    var r := Broadcast(conns, listener, []);
    assert forall k :: 0 <= k < |r| ==> r[k] == conns[k];
  }

  /** The bytes of several serial reads, in the order they were read. */
  function Concat(chunks: seq<seq<byte>>): seq<byte> {
    if chunks == [] then [] else chunks[0] + Concat(chunks[1..])
  }

  /** The connections after one dispatcher broadcast per chunk, in order. */
  function BroadcastAll(conns: seq<Conn>, listener: ListenerId, chunks: seq<seq<byte>>): (r: seq<Conn>)
    ensures |r| == |conns|
    ensures forall k :: 0 <= k < |r| ==> r[k].listener == conns[k].listener && r[k].recv == conns[k].recv
    ensures forall k :: 0 <= k < |r| ==> !ServedBy(conns[k], listener) ==> r[k] == conns[k]
    decreases |chunks|
  {
    if chunks == [] then conns
    else BroadcastAll(Broadcast(conns, listener, chunks[0]), listener, chunks[1..])
  }

  /**
   * Over any run of dispatches, each served connection receives exactly the
   * concatenation of the chunks, in the order they were read, with no byte
   * lost or repeated; unserved connections receive nothing.
   */
  lemma {:induction false} BroadcastAllDeliversConcat(conns: seq<Conn>, listener: ListenerId, chunks: seq<seq<byte>>)
    ensures |BroadcastAll(conns, listener, chunks)| == |conns|
    ensures forall k :: 0 <= k < |conns| ==>
      BroadcastAll(conns, listener, chunks)[k].outbox ==
        conns[k].outbox + (if ServedBy(conns[k], listener) then Concat(chunks) else [])
    ensures forall k :: 0 <= k < |conns| ==>
      BroadcastAll(conns, listener, chunks)[k].listener == conns[k].listener &&
      BroadcastAll(conns, listener, chunks)[k].recv == conns[k].recv &&
      BroadcastAll(conns, listener, chunks)[k].sendAndClose == conns[k].sendAndClose
    decreases |chunks|
  {
    if chunks != [] {
      var mid := Broadcast(conns, listener, chunks[0]);
      BroadcastAllDeliversConcat(mid, listener, chunks[1..]);
      forall k | 0 <= k < |conns|
        ensures BroadcastAll(conns, listener, chunks)[k].outbox ==
          conns[k].outbox + (if ServedBy(conns[k], listener) then Concat(chunks) else [])
      {
        if ServedBy(conns[k], listener) {
          assert mid[k].outbox == conns[k].outbox + chunks[0];
          assert Concat(chunks) == chunks[0] + Concat(chunks[1..]);
        }
      }
    }
  }

  /** What `connection_cb` writes to the UART for received bytes: the bytes, then a flush. */
  datatype UartOp = Write(data: seq<byte>) | Flush

  /** Every byte written to the UART, in order. */
  function Forwarded(log: seq<UartOp>): seq<byte> {
    if log == [] then []
    else (if log[0].Write? then log[0].data else []) + Forwarded(log[1..])
  }

  lemma {:induction false} ForwardedAppend(a: seq<UartOp>, b: seq<UartOp>)
    ensures Forwarded(a + b) == Forwarded(a) + Forwarded(b)
    decreases |a|
  {
    if a == [] {
      assert a + b == b;
    } else {
      assert (a + b)[0] == a[0];
      assert (a + b)[1..] == a[1..] + b;
      ForwardedAppend(a[1..], b);
    }
  }

  /** Every write to the UART is immediately followed by a flush. */
  ghost predicate FlushedAfterWrites(log: seq<UartOp>) {
    forall i :: 0 <= i < |log| && log[i].Write? ==> i + 1 < |log| && log[i + 1] == Flush
  }

  /** The UART operations for one `MG_EV_RECV`. */
  function ForwardOps(data: seq<byte>): (ops: seq<UartOp>)
    ensures ops != [] && ops[|ops| - 1] == Flush
    ensures FlushedAfterWrites(ops)
    ensures Forwarded(ops) == data
  {
    var ops := [Write(data), Flush];
    assert ops[1..] == [Flush] && ops[1..][1..] == [];
    assert Forwarded(ops[1..]) == [] + Forwarded([]);
    ops
  }

  /** Appending a forward keeps "every write is flushed" and adds exactly the received bytes. */
  lemma ForwardKeepsFlushed(log: seq<UartOp>, data: seq<byte>)
    requires FlushedAfterWrites(log)
    ensures FlushedAfterWrites(log + ForwardOps(data))
    ensures Forwarded(log + ForwardOps(data)) == Forwarded(log) + data
  {
    ForwardedAppend(log, ForwardOps(data));
  }

  /**
   * The connection after `MG_EV_RECV` in `connection_cb`: the received bytes
   * are echoed into its own send buffer and the receive buffer is emptied.
   */
  function Echo(c: Conn): (r: Conn)
    ensures r.outbox == c.outbox + c.recv && r.recv == []
    ensures r.listener == c.listener && r.sendAndClose == c.sendAndClose
  {
    MgSend(c, c.recv).(recv := [])
  }

  /**
   * Over rounds of receive-then-callback, a peer gets back exactly the
   * concatenation of what it sent, and its receive buffer ends empty.
   */
  function EchoRounds(c: Conn, rounds: seq<seq<byte>>): (r: Conn)
    ensures r.listener == c.listener && r.sendAndClose == c.sendAndClose
    ensures rounds != [] ==> r.recv == []
    ensures |r.outbox| >= |c.outbox| && r.outbox[..|c.outbox|] == c.outbox
    decreases |rounds|
  {
    if rounds == [] then c else EchoRounds(Echo(c.(recv := c.recv + rounds[0])), rounds[1..])
  }

  lemma {:induction false} EchoRoundsReturnsConcat(c: Conn, rounds: seq<seq<byte>>)
    requires c.recv == []
    ensures EchoRounds(c, rounds).outbox == c.outbox + Concat(rounds)
    ensures EchoRounds(c, rounds).recv == []
    decreases |rounds|
  {
    if rounds != [] {
      var next := Echo(c.(recv := c.recv + rounds[0]));
      assert next.outbox == c.outbox + rounds[0];
      EchoRoundsReturnsConcat(next, rounds[1..]);
      assert Concat(rounds) == rounds[0] + Concat(rounds[1..]);
    }
  }

  /** A client sends "AT\r\n": it gets "AT\r\n" back and the UART gets it followed by a flush. */
  lemma EchoScenario(c: Conn)
    requires c.recv == [65, 84, 13, 10] && c.outbox == []
    ensures Echo(c).outbox == [65, 84, 13, 10] && Echo(c).recv == []
    ensures ForwardOps(c.recv) == [Write([65, 84, 13, 10]), Flush]
  {
  }

  /** The serial line yields "OK\r\n" with two bridge peers: both receive exactly "OK\r\n". */
  lemma BroadcastScenario(listener: ListenerId, http: ListenerId)
    requires http != listener
    ensures var conns := [Conn(Some(listener), [], [], false), Conn(Some(listener), [], [], false),
                          Conn(Some(http), [], [], false)];
            var r := Broadcast(conns, listener, [79, 75, 13, 10]);
            r[0].outbox == [79, 75, 13, 10] && r[1].outbox == [79, 75, 13, 10] && r[2].outbox == []
  {
  }
}
