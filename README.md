# Asynchronous test client: connect/retry and framed writes

A Dafny model of the `async_client` class of rest_rpc's test client. The
client opens one TCP connection. It retries a failed connect according to a
counter and aborts a stalled attempt with a deadline timer. It sends
caller-supplied byte buffers over the connection as length-prefixed frames,
one write at a time, in the order the buffers were handed over.

A single thread runs the client's event loop, so its handlers run one at a
time. The enqueue and write handlers also go through a Boost.Asio strand; the
connect and deadline handlers do not. The model is sequential: each
asynchronous completion is an event, delivered by calling the matching method,
and each call from a caller's thread is one step between handlers.

- `wrappers.dfy` (module `Wrappers`): `Option`.
- `framing.dfy` (module `Framing`): the wire format as pure functions. Each
  frame is a four-byte length prefix in host byte order followed by the
  payload bytes. The host (its byte order and the width of its `size_t`) is a
  parameter. A receiver-side decoder is the partner the encoding is proved
  against: a round trip in both directions, plus the silent truncation of
  lengths of 2^32 bytes or more.
- `connection.dfy` (module `Connection`): the connect logic as a state
  machine. The events are a failed connect, a successful connect and an
  expired deadline. `Step` gives the handler of each event, and `Run` plays a
  sequence of events. The lemmas prove the retry policy: a counter of N >= 0
  gives exactly N + 1 attempts when every attempt fails, and a negative
  counter retries forever.
- `client.dfy` (module `Client`): the class `AsyncClient`. Its fields are the
  client's own fields, the strand's queue of posted enqueue handlers, and the
  byte stream handed to the socket. Ghost fields stand for the socket, the
  timer and the outstanding operations. `Valid()` holds three facts:
  - every buffer handed over is released, queued or still posted, in
    handing-over order;
  - the buffers written are the released ones plus the head of the queue
    while its write is outstanding;
  - the socket received exactly their frames, in order.

  Each connect handler is proved to perform `Connection.Step`. The writer's
  methods state the new queue, the new stream and which buffer was released.

The code attempts a write as soon as a buffer is queued, whether or not the
client is connected. The model follows the code; it does not hold frames back
until the connection is up.

## Model

| member | source | states |
|---|---|---|
| `Framing.PrefixCarriesLowBits` | test_client/async_client.hpp:104-105 | The four prefix bytes read back as the payload length modulo 2^32. A length of 2^32 or more is silently truncated to its low 32 bits. |
| `Framing.PrefixOfReadLength` | test_client/async_client.hpp:104-105 | Any four bytes are the prefix of exactly the length they read as, and that length is below 2^32. So the prefix encoding is a bijection onto four-byte strings. |
| `Framing.AsWrittenPrefixAgrees` | test_client/async_client.hpp:104-105 | The prefix the code builds (the first `sizeof(int32_t)` bytes of the `size_t` in memory) equals the intended prefix. This holds on little-endian hosts and on hosts with a four-byte `size_t`. |
| `Framing.AsWrittenPrefixLosesLength` | test_client/async_client.hpp:104-105 | On a 64-bit big-endian host, the code's prefix for every payload of 1 to 2^32 - 1 bytes is 00 00 00 00 and reads as length 0. The intended prefix reads as the payload's length. |
| `Framing.EncodeFrame` | test_client/async_client.hpp:103-107 | A frame is 4 + length bytes: the length prefix, then exactly the payload bytes and nothing else. |
| `Framing.DecodeFrame` | test_client/async_client.hpp:103-107 | A decoded frame consumes exactly the prefix plus the payload it yields, and leaves the rest. |
| `Framing.DecodeTruncatedFrame` | test_client/async_client.hpp:104-106 | For any payload, the receiver reads only the first length mod 2^32 bytes as the payload. The remaining bytes are taken as the start of what follows. |
| `Framing.FrameRoundTrip` | test_client/async_client.hpp:103-107 | A frame whose payload is shorter than 2^32 bytes, followed by anything, decodes to that payload and exactly the bytes that follow. |
| `Framing.DecodedFrameIsEncoded` | test_client/async_client.hpp:103-107 | Converse of the round trip: whatever decodes as a frame is the encoding of its payload (shorter than 2^32 bytes) followed by the rest. |
| `Framing.StreamRoundTrip` | test_client/async_client.hpp:102-123 | Frames written back to back decode to the payloads in the same order, when every payload fits a four-byte length. |
| `Framing.DecodedStreamIsEncoded` | test_client/async_client.hpp:102-123 | Converse for streams: a stream that decodes to a list of payloads is exactly their frames, back to back, and each payload fits a four-byte length. |
| `Connection.Initial` | test_client/async_client.hpp:125-135 | A new client is not connected, has no attempt or deadline pending, and uses the defaults: timeout 1 second, reconnect count -1. |
| `Connection.FailureRetriesOrGivesUp` | test_client/async_client.hpp:37-49 | A failed attempt clears `hasConnected`. With counter 0 nothing more happens. Otherwise exactly one new attempt starts, with the deadline re-armed for the timeout on a fresh socket. A positive counter drops by exactly one; a negative counter is kept unchanged. |
| `Connection.SuccessIsQuiescent` | test_client/async_client.hpp:51-53 | A successful connect sets `hasConnected` and cancels the deadline. After that no event can arrive, so no further attempt is made. |
| `Connection.DeadlineFailsPendingAttempt` | test_client/async_client.hpp:81-84 | When the deadline expires on an outstanding attempt, it closes the socket. The attempt can then only complete as a failure, which goes through the retry policy. |
| `Connection.BoundedFailures` | test_client/async_client.hpp:37-49 | While the counter lasts, each failure uses one unit of it and starts exactly one new attempt. |
| `Connection.RetryBound` | test_client/async_client.hpp:37-49 | With counter N >= 0 and every attempt failing, the client is still connecting after N failures. After N + 1 failures it has given up for good, having made N + 1 attempts counting the outstanding one. Giving up does not cancel the deadline: if the outstanding attempt armed it, that wait is still pending and its expiry can still arrive. |
| `Connection.FreshClientAttempts` | test_client/async_client.hpp:29-49 | After `set_reconnect_count(N)` and `connect()` on a new client, failures make exactly N + 1 attempts in all and leave the client disconnected with no connect attempt outstanding. The last attempt's one-second deadline wait stays armed, because the give-up path returns without cancelling it. Its expiry is the only completion that can still arrive. |
| `Connection.UnboundedRetry` | test_client/async_client.hpp:44-49 | With a negative counter, the client is connecting again after any number of failures, with the counter unchanged. |
| `Connection.AttemptBudget` | test_client/async_client.hpp:33-57 | With counter N >= 0, attempts + counter never grows over any interleaving of failures and expired deadlines. So at most N further attempts start. |
| `Client.AsyncClient.constructor` | test_client/async_client.hpp:14-19 | A new client runs its event loop and starts in the `Connection.Initial` state with nothing queued, posted or written. |
| `Client.AsyncClient.SetConnectTimeout` | test_client/async_client.hpp:25-27 | Sets the timeout and changes nothing else. |
| `Client.AsyncClient.SetReconnectCount` | test_client/async_client.hpp:29-31 | Sets the counter and changes nothing else. |
| `Client.AsyncClient.HasConnected` | test_client/async_client.hpp:66-68 | Returns `hasConnected`. |
| `Client.AsyncClient.Connect` | test_client/async_client.hpp:33-36 | Arms the deadline for the configured timeout and starts one attempt (`Connection.Attempt`). The queue and the stream are unchanged. |
| `Client.AsyncClient.OnConnectFailed` | test_client/async_client.hpp:37-50 | The new connection state is `Connection.Step` of the old one on a failure. The outbound side is unchanged. |
| `Client.AsyncClient.OnConnectSucceeded` | test_client/async_client.hpp:51-55 | The new connection state is `Connection.Step` of the old one on a success: connected, deadline cancelled. |
| `Client.AsyncClient.OnDeadlineExpired` | test_client/async_client.hpp:79-86 | The new connection state is `Connection.Step` of the old one on an expired deadline: the socket is closed. |
| `Client.AsyncClient.Stop` | test_client/async_client.hpp:70-76 | After `Stop` the event loop is not running, so no handler runs any more. The buffer-ownership invariant still holds, nothing else changes, and a second call is a no-op. |
| `Client.AsyncClient.Write` | test_client/async_client.hpp:88-91 | Takes ownership of the buffer and posts its enqueue handler behind earlier ones. Nothing is queued or written yet. |
| `Client.AsyncClient.RunEnqueue` | test_client/async_client.hpp:91-99 | Appends the oldest posted buffer to the back of `outbox`, leaving earlier entries and their order unchanged. Starts a write exactly when `outbox` was empty before. A queue stalled by a failed write stays stalled. |
| `Client.AsyncClient.WriteHead` | test_client/async_client.hpp:102-107 | Requires that no write is outstanding. Sends the head of `outbox` as its four-byte prefix followed by its bytes, and nothing else. |
| `Client.AsyncClient.OnWriteComplete` | test_client/async_client.hpp:108-121 | Releases the head and pops it, whether or not the write failed. After a failure nothing more is written. After a success the next head is written exactly when one exists. |
| `Client.DeliveryOrder` | test_client/async_client.hpp:88-123 | Released buffers are a prefix of written buffers, which are a prefix of buffers handed over. So release and transmission follow handing-over order and each buffer is released at most once. Written outnumber released by one exactly while a write is outstanding. |
| `Client.WireDecodesToSent` | test_client/async_client.hpp:102-123 | The socket's byte stream decodes to exactly the written buffers, in order, when each fits a four-byte length. |
| `Client.DrainThree` | test_client/async_client.hpp:88-123 | Three buffers handed over on a healthy connection reach the socket as their three frames, back to back, in the order handed over, and the queue ends empty. |

## Left out

- Boost.Asio itself is not modelled: `io_service`, the socket object, `async_connect`, `async_write`, `make_address_v4` (an invalid host address throws there) and `work_`. Completions are events, and the host and port are not represented.
- The background thread that runs the event loop, and the strand's `post`/`wrap`, are left out. Handlers being serialised on that one thread is the assumption behind the sequential model. Buffers posted from different threads reach the strand in some order; `posted` is that order.
- `connect()`, `set_connect_timeout()`, `set_reconnect_count()`, `has_connected()` and `call()` run on the caller's thread and are not synchronised with the handlers (for instance, `set_reconnect_count` can race with the decrement in the connect handler). The model treats each call as an atomic step between handlers.
- `Client.AsyncClient.WriteHead`: sends the corrected prefix (`Framing.LengthPrefix`), not the code's (`Framing.AsWrittenPrefix`), and the class has no `size_t` width. The two prefixes are equal on little-endian hosts and on hosts with a four-byte `size_t` (`Framing.AsWrittenPrefixAgrees`). They differ on 64-bit big-endian hosts (`Framing.AsWrittenPrefixLosesLength`).
- `call()`'s argument codec (`pack_args`, from `codec.h`) is not part of this model. `call()` hands the codec's bytes to `write`, which is `Client.AsyncClient.Write`.
- Wall-clock time is left out: the deadline's expiry is an event. The `(long)` cast of the timeout is not modelled.
- Timer handlers that run with an error are left out: they follow re-arming or cancelling the timer and do nothing. So is an expiry whose handler was already queued when a success cancelled the timer; in that case the code would close a connected socket.
- Raw memory (`release()`, `::free`, `string_view` over raw pointers) is modelled as ghost sequences of handed-over, released and written buffers. The prefix buffer points at `write()`'s local `size`, which is gone when the asynchronous write runs. The model gives the bytes that variable held.
- Logging to `std::cout`/`std::cerr` is left out.
- The destructor (which calls `stop()`) is not modelled. Buffers still posted or queued at that point are never released, and in the model they stay in `posted`/`outbox`.
- `Client.AsyncClient.Connect`: requires that no attempt is outstanding. The code never starts two concurrent attempts itself, and two calls of `connect()` from outside would race on one socket, which the model does not represent.
- `Client.AsyncClient.OnWriteComplete`: `wire` records whole frames handed to `async_write`. How much of a failed frame actually left the host is not modelled.
- `Client.AsyncClient.OnConnectSucceeded`: the event requires the socket to be open. A connect cannot succeed on a socket the deadline has closed.

## Findings

| source | as written | input that shows it | evidently intended | confidence | as-written member | corrected member |
|---|---|---|---|---|---|---|
| test_client/async_client.hpp:104-105 | The prefix is the first `sizeof(int32_t)` bytes of the memory holding the `size_t` length. | A 64-bit big-endian host and any payload of 1 to 2^32 - 1 bytes (e.g. 1 byte): the prefix is 00 00 00 00, which reads as length 0. | The length's low 32 bits as a four-byte integer in host byte order, as on little-endian and 32-bit hosts. | medium, not executed | `Framing.AsWrittenPrefixLosesLength` | `Framing.FrameRoundTrip` |
