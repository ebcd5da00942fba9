/**
  The asynchronous test client as one object whose handlers run one at a
  time: a single thread runs the event loop, and the enqueue and write
  handlers also go through the strand.  Calls made from the caller's thread
  are modelled as atomic steps between handlers.  Each method is either an
  operation a caller invokes (`Connect`, `Write`, the setters, `Stop`) or a
  completion handler that the event loop runs (`OnConnectFailed`,
  `OnConnectSucceeded`, `OnDeadlineExpired`, `RunEnqueue`,
  `OnWriteComplete`).

  The socket, the deadline timer and the outstanding asynchronous operations
  are represented by ghost fields; `wire` is the byte stream handed to the
  socket, and `called`, `freed` and `sent` record the life of every buffer.
 */
module Client {
  import opened Wrappers
  import opened Framing
  import opened Connection

  /** The outbound side of the client, as one value. */
  datatype Outbound = Outbound(
    outbox: seq<Payload>,
    posted: seq<Payload>,
    wire: seq<Byte>,
    writing: bool,
    called: seq<Payload>,
    freed: seq<Payload>,
    sent: seq<Payload>)

  class AsyncClient {
    /** Byte order of the host: the length prefix is written in it. */
    const order: ByteOrder

    var hasConnected: bool      // has_connected_
    var reconnectCount: int     // reconnect_cnt_
    var connectTimeout: nat     // connect_timeout_, in seconds
    var running: bool           // the event-loop thread has not been stopped

    var outbox: seq<Payload>    // outbox_: buffers waiting for (or in) their write, oldest first
    var posted: seq<Payload>    // enqueue handlers posted to the strand and not yet run, oldest first
    var wire: seq<Byte>         // every byte handed to the socket, in order

    ghost var connecting: bool         // an async_connect waits for its completion
    ghost var deadline: Option<nat>    // the deadline timer's pending wait
    ghost var socketOpen: bool         // false once the deadline has closed the socket
    ghost var attempts: nat            // async_connect calls issued
    ghost var writing: bool            // an async_write waits for its completion
    ghost var called: seq<Payload>     // every buffer handed to Write, in order
    ghost var freed: seq<Payload>      // every buffer released, in order
    ghost var sent: seq<Payload>       // every buffer whose frame went to async_write, in order

    ghost function ConnState(): Conn
      reads this
    {
      Conn(hasConnected, reconnectCount, connectTimeout, connecting, deadline, socketOpen, attempts)
    }

    ghost function OutState(): Outbound
      reads this
    {
      Outbound(outbox, posted, wire, writing, called, freed, sent)
    }

    /**
      Ownership and ordering of the buffers: every buffer handed over is, in
      handing-over order, either released, queued in `outbox`, or still in a
      posted handler; the buffers written are the released ones plus the head
      of `outbox` while its write is outstanding; and the socket has received
      exactly their frames, in that order.
     */
    ghost predicate Valid()
      reads this
    {
      && called == freed + outbox + posted
      && (writing ==> outbox != [])
      && sent == freed + (if writing then [outbox[0]] else [])
      && wire == EncodeFrames(order, sent)
    }

    /** A new client: not connected, timeout 1 second, unbounded retries, nothing queued. */
    constructor (order: ByteOrder)
      ensures Valid() && this.order == order && running
      ensures ConnState() == Initial()
      ensures OutState() == Outbound([], [], [], false, [], [], [])
    {
      this.order := order;
      hasConnected, reconnectCount, connectTimeout, running := false, -1, 1, true;
      outbox, posted, wire := [], [], [];
      connecting, deadline, socketOpen, attempts := false, None, true, 0;
      writing, called, freed, sent := false, [], [], [];
    }

    method SetConnectTimeout(seconds: nat)
      requires Valid()
      modifies this
      ensures Valid() && running == old(running) && OutState() == old(OutState())
      ensures ConnState() == old(ConnState()).(connectTimeout := seconds)
    {
      connectTimeout := seconds;
    }

    method SetReconnectCount(count: int)
      requires Valid()
      modifies this
      ensures Valid() && running == old(running) && OutState() == old(OutState())
      ensures ConnState() == old(ConnState()).(reconnectCount := count)
    {
      reconnectCount := count;
    }

    method HasConnected() returns (connected: bool)
      ensures connected == hasConnected
    {
      connected := hasConnected;
    }

    /**
      `connect()`: arm the deadline for `connectTimeout` seconds, then issue
      an asynchronous connect.
     */
    method Connect()
      requires Valid() && !connecting
      modifies this
      ensures Valid() && running == old(running) && OutState() == old(OutState())
      ensures ConnState() == Attempt(old(ConnState()))
    {
      deadline := Some(connectTimeout);
      socketOpen := true;
      connecting := true;
      attempts := attempts + 1;
    }

    /** The connect handler with an error: give up on 0, otherwise count down (if positive) and reconnect. */
    method OnConnectFailed()
      requires Valid() && running && Enabled(ConnState(), ConnectFailed)
      modifies this
      ensures Valid() && running == old(running) && OutState() == old(OutState())
      ensures ConnState() == Step(old(ConnState()), ConnectFailed)
    {
      ghost var before := ConnState();
      connecting := false;
      hasConnected := false;
      if reconnectCount == 0 {
        assert NextCount(before.reconnectCount).None?;
        return;
      }
      if reconnectCount > 0 {
        reconnectCount := reconnectCount - 1;
      }
      socketOpen := true;  // a fresh socket replaces the failed one
      assert NextCount(before.reconnectCount) == Some(reconnectCount);
      assert ConnState() == before.(hasConnected := false, connecting := false,
                                    reconnectCount := reconnectCount, socketOpen := true);
      Connect();
    }

    /** The connect handler without an error: connected, and the deadline is cancelled. */
    method OnConnectSucceeded()
      requires Valid() && running && Enabled(ConnState(), ConnectSucceeded)
      modifies this
      ensures Valid() && running == old(running) && OutState() == old(OutState())
      ensures ConnState() == Step(old(ConnState()), ConnectSucceeded)
    {
      hasConnected := true;
      connecting := false;
      deadline := None;
    }

    /** The deadline handler without an error: close the socket. */
    method OnDeadlineExpired()
      requires Valid() && running && Enabled(ConnState(), DeadlineExpired)
      modifies this
      ensures Valid() && running == old(running) && OutState() == old(OutState())
      ensures ConnState() == Step(old(ConnState()), DeadlineExpired)
    {
      deadline := None;
      socketOpen := false;
    }

    /**
      `stop()`: stop the event loop and join its thread; no handler runs
      afterwards.  A second call changes nothing.
     */
    method Stop()
      requires Valid()
      modifies this
      ensures Valid() && !running
      ensures ConnState() == old(ConnState()) && OutState() == old(OutState())
    {
      if running {
        running := false;
      }
    }

    /**
      `write(buffer)`, reached from `call()` with the codec's output: take
      ownership of the buffer and post the enqueue handler to the strand.
     */
    method Write(message: Payload)
      requires Valid()
      modifies this
      ensures Valid() && running == old(running) && ConnState() == old(ConnState())
      ensures posted == old(posted) + [message] && called == old(called) + [message]
      ensures outbox == old(outbox) && wire == old(wire) && writing == old(writing)
      ensures freed == old(freed) && sent == old(sent)
    {
      posted := posted + [message];
      called := called + [message];
    }

    /**
      The posted enqueue handler, run by the strand for the oldest posted
      buffer: append it to `outbox`, and start a write only if `outbox` was
      empty before.  A write that is outstanding, or a queue left stalled by
      a failed write, makes it return without writing.
     */
    method RunEnqueue()
      requires Valid() && running && posted != []
      modifies this
      ensures Valid() && running == old(running) && ConnState() == old(ConnState())
      ensures outbox == old(outbox) + [old(posted)[0]] && posted == old(posted)[1..]
      ensures writing == (old(writing) || old(outbox) == [])
      ensures wire == old(wire) + (if old(outbox) == [] then EncodeFrame(order, old(posted)[0]) else [])
      ensures called == old(called) && freed == old(freed)
    {
      var message := posted[0];
      posted := posted[1..];
      outbox := outbox + [message];
      if |outbox| > 1 {
        return;  // a write is outstanding, or draining has stopped
      }
      WriteHead();
    }

    /**
      `write()`: send the head of `outbox` as its four-byte length prefix
      followed by its bytes.  Nothing may be in flight: this obligation, met
      at every call, is the single-write-in-flight property.
     */
    method WriteHead()
      requires Valid() && !writing && outbox != []
      modifies this
      ensures Valid() && running == old(running) && ConnState() == old(ConnState())
      ensures writing && wire == old(wire) + EncodeFrame(order, outbox[0])
      ensures sent == old(sent) + [outbox[0]]
      ensures outbox == old(outbox) && posted == old(posted)
      ensures called == old(called) && freed == old(freed)
    {
      var message := outbox[0];
      var prefix := LengthPrefix(order, |message|);
      EncodeFramesAppend(order, sent, message);
      wire := wire + prefix + message;
      writing := true;
      sent := sent + [message];
    }

    /**
      The write handler: release the head's buffer and drop it from `outbox`,
      whether or not the write failed.  After a failure nothing more is
      written; after a success the next head, if any, is written.
     */
    method OnWriteComplete(ok: bool)
      requires Valid() && running && writing
      modifies this
      ensures Valid() && running == old(running) && ConnState() == old(ConnState())
      ensures freed == old(freed) + [old(outbox)[0]] && outbox == old(outbox)[1..]
      ensures writing == (ok && outbox != [])
      ensures wire == old(wire) + (if ok && outbox != [] then EncodeFrame(order, outbox[0]) else [])
      ensures posted == old(posted) && called == old(called)
    {
      writing := false;
      freed := freed + [outbox[0]];  // the buffer is released here and nowhere else
      outbox := outbox[1..];
      if !ok {
        return;
      }
      if outbox != [] {
        WriteHead();
      }
    }
  }

  /**
    In any consistent state, buffers are released in handing-over order and
    each at most once, writes start in handing-over order, and at most one
    write is outstanding: the written buffers are a prefix of the buffers
    handed over, and they outnumber the released ones by one exactly while a
    write is outstanding.
   */
  lemma DeliveryOrder(c: AsyncClient)
    requires c.Valid()
    ensures c.freed <= c.sent <= c.called
    ensures |c.sent| == |c.freed| + (if c.writing then 1 else 0)
    ensures |c.freed| + |c.outbox| + |c.posted| == |c.called|
  {
  }

  /**
    The receiver that decodes the socket's byte stream gets back exactly the
    buffers written, in order, provided each fits a four-byte length.
   */
  lemma WireDecodesToSent(c: AsyncClient)
    requires c.Valid() && Representable(c.sent)
    ensures DecodeFrames(c.order, c.wire) == Some(c.sent)
  {
    StreamRoundTrip(c.order, c.sent);
  }

  /**
    Three buffers handed over and written on a healthy connection reach the
    socket as their three frames, back to back, in the order handed over, and
    the queue is left empty.
   */
  method DrainThree(order: ByteOrder, a: Payload, b: Payload, d: Payload)
    returns (wire: seq<Byte>, remaining: seq<Payload>)
    ensures wire == EncodeFrame(order, a) + EncodeFrame(order, b) + EncodeFrame(order, d)
    ensures remaining == []
  {
    var c := new AsyncClient(order);
    c.Write(a);
    c.Write(b);
    c.Write(d);
    c.RunEnqueue();
    c.RunEnqueue();
    c.RunEnqueue();
    c.OnWriteComplete(true);
    c.OnWriteComplete(true);
    c.OnWriteComplete(true);
    wire := c.wire;
    remaining := c.outbox;
  }
}
