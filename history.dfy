/** The hub's history buffer: the most recent raw payloads, oldest first,
    capped at a fixed capacity, evicting the oldest entry first. */
module History {

  /** An ingested payload: the raw request body, never parsed. */
  type Payload = string

  /** How many payloads the buffer retains for replay. */
  const Capacity: nat := 50

  /** The last min(|s|, n) elements of `s`, in their original order. */
  function LastN(s: seq<Payload>, n: nat): (r: seq<Payload>)
    ensures |r| == if |s| < n then |s| else n
    ensures forall i :: 0 <= i < |r| ==> r[i] == s[|s| - |r| + i]
  {
    if |s| <= n then s else s[|s| - n..]
  }

  /** The buffer after one ingest of `p`: push at the tail, then shift off
      the head once if the length went over capacity. */
  function Retain(buffer: seq<Payload>, p: Payload): (r: seq<Payload>)
    ensures |r| >= 1 && r[|r| - 1] == p
    ensures |buffer| <= |r| <= |buffer| + 1
    ensures r == (buffer + [p])[|buffer| + 1 - |r|..]
    ensures |buffer| <= Capacity ==> |r| <= Capacity
    ensures |buffer| < Capacity ==> r == buffer + [p]
    ensures |buffer| == Capacity ==> r == buffer[1..] + [p]
  {
    var pushed := buffer + [p];
    if |pushed| > Capacity then
      assert pushed[1..] == buffer[1..] + [p];
      pushed[1..]
    else
      pushed
  }

  /** The buffer after ingesting every payload of `ps`, first to last. */
  function IngestAll(buffer: seq<Payload>, ps: seq<Payload>): (r: seq<Payload>)
    ensures |buffer| <= Capacity ==> |r| <= Capacity
    ensures ps != [] ==> |r| >= 1 && r[|r| - 1] == ps[|ps| - 1]
  {
    if ps == [] then buffer
    else Retain(IngestAll(buffer, ps[..|ps| - 1]), ps[|ps| - 1])
  }

  /** One ingest keeps "the buffer is the latest payloads" true: retaining
      `p` after the latest payloads of `events` gives the latest payloads of
      `events + [p]`. */
  lemma RetainLastN(events: seq<Payload>, p: Payload)
    ensures Retain(LastN(events, Capacity), p) == LastN(events + [p], Capacity)
  {
  }

  /** FIFO retention: starting from any buffer within capacity, ingesting
      `ps` leaves exactly the latest `Capacity` payloads of the old buffer
      followed by `ps`, in ingest order. */
  lemma {:induction false} IngestAllKeepsLatest(buffer: seq<Payload>, ps: seq<Payload>)
    requires |buffer| <= Capacity
    ensures IngestAll(buffer, ps) == LastN(buffer + ps, Capacity)
  {
    if ps == [] {
      assert buffer + ps == buffer;
    } else {
      var init, p := ps[..|ps| - 1], ps[|ps| - 1];
      calc {
        IngestAll(buffer, ps);
        Retain(IngestAll(buffer, init), p);
        { IngestAllKeepsLatest(buffer, init); }
        Retain(LastN(buffer + init, Capacity), p);
        { RetainLastN(buffer + init, p); }
        LastN((buffer + init) + [p], Capacity);
        { assert (buffer + init) + [p] == buffer + ps; }
        LastN(buffer + ps, Capacity);
      }
    }
  }

  /** Ingesting one payload more than the capacity into an empty buffer
      evicts exactly the first one and keeps the rest in order. */
  lemma OneOverCapacityEvictsFirst(events: seq<Payload>)
    requires |events| == Capacity + 1
    ensures IngestAll([], events) == events[1..]
  {
    calc {
      IngestAll([], events);
      { IngestAllKeepsLatest([], events); }
      LastN([] + events, Capacity);
      { assert [] + events == events; }
      LastN(events, Capacity);
      events[|events| - Capacity..];
    }
  }

  /** Replay then live stream leaves no gap and no duplicate: a subscriber
      replayed the latest payloads of `history` and then sent every payload
      of `live` has seen exactly the latest `Capacity + |live|` payloads of
      the whole ingest order. */
  lemma CaughtUpThenLive(history: seq<Payload>, live: seq<Payload>)
    ensures LastN(history, Capacity) + live == LastN(history + live, Capacity + |live|)
  {
  }
}
