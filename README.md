# Broadcast hub of the event relay

The relay takes opaque event payloads over HTTP (`/ingest`). It pushes each one to
every subscriber connected over a WebSocket (`/ws`). A new subscriber is first
replayed the recent history. The core of `index.js` is the hub state, which is
module-level:

- `clients`: the set of live sockets;
- `buffer`: the most recent raw payloads, oldest first, capped at 50.

Three handlers change that state, each as one atomic step on the single-threaded
event loop:

- **ingest**: push the payload onto the buffer and shift off the oldest entry if
  the buffer is over 50. Then send the payload to every registered socket and
  unregister each socket whose `send` throws.
- **subscribe**: register the new socket, then replay every buffered payload to
  it in order. A throwing send is ignored.
- **close**: unregister the socket.

The model has two modules:

- `History` (`history.dfy`) specifies the buffer. `Retain` is one push-and-shift
  step and `LastN` gives the latest `n` payloads. The lemmas prove FIFO
  retention: after any run of ingests, the buffer holds exactly the latest 50
  payloads in ingest order.
- `Relay` (`hub.dfy`) holds the `Hub` class. Its real fields are `buffer` and
  `clients`. Its ghost fields are `ingested`, every payload ever ingested, and
  `sends`, which records every `send` issued per socket. Each entry of `sends`
  is an `Attempt`: the payload and whether the call returned or threw.
  `Valid()` is the invariant `buffer == LastN(ingested, 50)`, which implies
  `|buffer| <= 50`.

`socket.send` is the only foreign call, and its outcome is an input:

- `Ingest` takes `failing`, the sockets whose send throws on that call.
- `Subscribe` takes `lost`, the positions of the replay items whose send throws.

## Model

| member | source | states |
|---|---|---|
| `History.LastN` | index.js:67-69 | the latest `min(|s|, n)` payloads: exactly that length, and element by element the tail of `s` |
| `History.Retain` | index.js:68-69 | one ingest appends `p` at the tail and removes at most one entry, always from the head. A buffer within capacity stays within capacity. Below 50 the result is `buffer + [p]`; at 50 it is `buffer[1..] + [p]` |
| `History.IngestAll` | index.js:67-69 | repeated ingests never take a buffer that starts within 50 entries above 50, and the newest entry is the last payload ingested |
| `History.RetainLastN` | index.js:68-69 | one ingest keeps "the buffer is the latest 50 payloads" true |
| `History.IngestAllKeepsLatest` | index.js:68-69 | FIFO eviction: from any buffer within capacity, ingesting `ps` leaves the latest 50 of `buffer + ps` in ingest order. From an empty buffer, that is the last `min(k, 50)` payloads |
| `History.OneOverCapacityEvictsFirst` | index.js:68-69 | ingesting 51 payloads into an empty buffer keeps the last 50 in order and evicts only the first |
| `History.CaughtUpThenLive` | index.js:46-78 | replaying the latest 50 of `history` and then sending `live` gives exactly the latest `50 + |live|` payloads of `history + live`: no gap and no duplicate between replay and live traffic |
| `Relay.Delivered` | index.js:72-77 | the payloads a socket actually received, taken from its send log, are never more than the sends issued |
| `Relay.DeliveredAppend` | index.js:72-77 | what a socket receives from a later part of its log follows what it received earlier, so per-socket delivery keeps ingest order |
| `Relay.Replay` | index.js:50-52 | a replay issues exactly one send per buffered item |
| `Relay.ReplayAttemptsEachItem` | index.js:50-52 | the replay's `i`-th send carries the `i`-th buffered payload, oldest first, and fails exactly when position `i` is lost. A failure does not stop later items |
| `Relay.ReplayWithoutLossDeliversAll` | index.js:50-52 | when no replay send throws, the socket receives the whole buffer in order |
| `Relay.Hub.Valid` | index.js:14 | the hub invariant: the buffer is the latest 50 ingested payloads, hence never longer than 50 |
| `Relay.Hub.constructor` | index.js:12-14 | the hub starts with no sockets, an empty buffer and no sends |
| `Relay.Hub.Ingest` | index.js:67-78 | the invariant is kept and `ingested` grows by `p`. The new buffer is `Retain(old buffer, p)`. `clients` becomes exactly the old clients minus those whose send threw. Each socket registered at the start gets exactly one send of `p`, recording whether it threw; no other socket's log changes |
| `Relay.Hub.FanOut` | index.js:72-78 | each socket registered when the loop starts gets one send of `p`, whatever happens to the others. Exactly the failing ones are removed and none is added |
| `Relay.Hub.Subscribe` | index.js:46-52 | the socket is registered even if replay sends throw. Buffer and history are unchanged. The socket's log grows by exactly `Replay(buffer, lost)`: the buffer, oldest first, one send per item. No other socket's log changes |
| `Relay.Hub.Close` | index.js:54-55 | removes only that socket. Closing a socket that is not registered leaves `clients` unchanged, and the buffer and logs are untouched |

`Relay.FailureIsolationExample` is a client of the class with no contract. Two
sockets subscribe, the send to one throws on an ingest, and the proof shows that
the other socket still gets the payload and only the failing one is unregistered.

Where the hub's design description and `index.js` differ, the model follows the
code:

- The design treats the retention capacity as a construction parameter, with 0
  allowed. `index.js` fixes it at 50, and so does `History.Capacity`.
- The design leaves the reaction to a replay failure open. In `index.js`, each
  replay item has its own `try`/`catch`: a failure skips only that item, later
  items are still sent, and the socket stays registered. `Relay.Hub.Subscribe`
  states exactly that.

## Left out

- Request routing, the `OPTIONS` preflight and the 404 fallback (index.js:16-39): HTTP plumbing with no state.
- `CORS_HEADERS`, `Response` objects and status codes (index.js:5-9, 21, 35-38, 59, 82-92): host-runtime objects.
- The `fetch` listener, `WebSocketPair` creation, `server.accept()` and the registration of the close listener (index.js:1-3, 43-44, 54): host APIs. The socket comes in as a parameter of `Subscribe`, and close is a method the environment may call.
- `await request.text()` and the error path that answers 500 (index.js:65, 87-92): I/O. The payload comes in as an opaque string, and the buffer operations themselves cannot throw.
- `console.log` calls (index.js:47, 56, 80): observability only.
- Concurrency: each handler's bookkeeping runs without yielding on a single-threaded event loop, so each is modelled as one atomic method.
- Payload contents: never parsed or validated.
- What `send` does on the wire: the model records the call and its outcome, nothing more.
- Relay.Hub.FanOut: does not state the order in which distinct sockets are sent to. JavaScript iterates a `Set` in insertion order; the model picks sockets in an unspecified order, and no property of the hub depends on that order.
- Relay.Hub.Subscribe: the replay's sends enter the ghost log in one step after the loop, not one by one. The socket's log is the same either way because nothing else runs in between.
