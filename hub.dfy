/** The broadcast hub: the live subscriber sockets, the history buffer, and
    the three handlers that change them (ingest, subscribe, close). Each
    handler is one atomic step: its bookkeeping runs without yielding to
    the event loop. */
module Relay {
  import opened History

  /** A subscriber socket, known only by its identity. */
  datatype Socket = Socket(id: nat)

  /** One call of `send` on a socket: the payload, and whether the call
      returned normally (`ok`) or threw. */
  datatype Attempt = Attempt(payload: Payload, ok: bool)

  /** The payloads of the attempts that did not throw, in order. */
  function Delivered(log: seq<Attempt>): (r: seq<Payload>)
    ensures |r| <= |log|
  {
    if log == [] then []
    else
      var last := log[|log| - 1];
      Delivered(log[..|log| - 1]) + (if last.ok then [last.payload] else [])
  }

  /** The attempts of replaying `items` in order; `lost` holds the positions
      (0-based) whose send throws. */
  function Replay(items: seq<Payload>, lost: set<nat>): (r: seq<Attempt>)
    ensures |r| == |items|
  {
    if items == [] then []
    else
      var last := |items| - 1;
      Replay(items[..last], lost) + [Attempt(items[last], last !in lost)]
  }

  /** Replay attempts every item exactly once, in buffer order, and the
      attempt at position `i` fails exactly when `i` is lost. */
  lemma {:induction false} ReplayAttemptsEachItem(items: seq<Payload>, lost: set<nat>)
    ensures |Replay(items, lost)| == |items|
    ensures forall i :: 0 <= i < |items| ==> Replay(items, lost)[i] == Attempt(items[i], i !in lost)
  {
    if items != [] {
      var last := |items| - 1;
      ReplayAttemptsEachItem(items[..last], lost);
    }
  }

  /** A replay in which no send throws delivers the whole buffer, oldest
      first. */
  lemma {:induction false} ReplayWithoutLossDeliversAll(items: seq<Payload>, lost: set<nat>)
    requires forall i :: 0 <= i < |items| ==> i !in lost
    ensures Delivered(Replay(items, lost)) == items
  {
    if items != [] {
      var last := |items| - 1;
      var init := items[..last];
      ReplayWithoutLossDeliversAll(init, lost);
      assert Replay(items, lost) == Replay(init, lost) + [Attempt(items[last], true)];
      assert Replay(items, lost)[..|Replay(items, lost)| - 1] == Replay(init, lost);
      assert items == init + [items[last]];
    }
  }

  /** What a socket has received is made of what it received from each
      part of its log, in log order: later sends never reorder earlier
      deliveries. */
  lemma {:induction false} DeliveredAppend(a: seq<Attempt>, b: seq<Attempt>)
    ensures Delivered(a + b) == Delivered(a) + Delivered(b)
  {
    if b == [] {
      assert a + b == a;
    } else {
      var init, last := b[..|b| - 1], b[|b| - 1];
      var tail := if last.ok then [last.payload] else [];
      assert (a + b)[..|a + b| - 1] == a + init;
      calc {
        Delivered(a + b);
        Delivered(a + init) + tail;
        { DeliveredAppend(a, init); }
        (Delivered(a) + Delivered(init)) + tail;
        Delivered(a) + (Delivered(init) + tail);
        Delivered(a) + Delivered(b);
      }
    }
  }

  /** The sends recorded for socket `s` in `sends`; none if it has no entry. */
  ghost function Log(sends: map<Socket, seq<Attempt>>, s: Socket): seq<Attempt>
  {
    if s in sends then sends[s] else []
  }

  class Hub {
    /** The most recent payloads, oldest first. */
    var buffer: seq<Payload>
    /** The sockets that currently receive live payloads. */
    var clients: set<Socket>

    /** Every payload ever ingested, in ingest order. */
    ghost var ingested: seq<Payload>
    /** Per socket, every send the hub issued to it, in order, with its outcome. */
    ghost var sends: map<Socket, seq<Attempt>>

    /** The buffer holds exactly the latest payloads, so it never exceeds
        its capacity. */
    ghost predicate Valid()
      reads this
      ensures Valid() ==> |buffer| <= Capacity
    {
      buffer == LastN(ingested, Capacity)
    }

    /** The hub starts with no sockets, an empty buffer and no sends. */
    constructor ()
      ensures Valid()
      ensures buffer == [] && clients == {} && ingested == []
      ensures forall s :: Log(sends, s) == []
    {
      buffer := [];
      clients := {};
      ingested := [];
      sends := map[];
    }

    /** Ingest of payload `p`: retain it in the buffer (push, then shift
        off the oldest entry if over capacity), then fan it out.
        `failing` is the set of sockets whose send throws on this call. */
    method Ingest(p: Payload, failing: set<Socket>)
      requires Valid()
      modifies this
      ensures Valid()
      ensures ingested == old(ingested) + [p]
      ensures buffer == Retain(old(buffer), p)
      ensures clients == old(clients) - failing
      ensures forall s {:trigger Log(sends, s)} :: (Log(sends, s) ==
        if s in old(clients) then Log(old(sends), s) + [Attempt(p, s !in failing)] else Log(old(sends), s))
    {
      ingested := ingested + [p];
      buffer := buffer + [p];
      if |buffer| > Capacity {
        buffer := buffer[1..];
      }
      assert Valid() && buffer == Retain(old(buffer), p) by {
        RetainLastN(old(ingested), p);
      }
      FanOut(p, failing);
    }

    /** The fan-out loop of an ingest: send `p` once to every socket
        registered when the loop starts, unregistering each socket whose
        send throws (those in `failing`). Removing the current socket does
        not disturb the iteration over the others. */
    method FanOut(p: Payload, failing: set<Socket>)
      modifies this`clients, this`sends
      ensures clients == old(clients) - failing
      ensures forall s {:trigger Log(sends, s)} :: (Log(sends, s) ==
        if s in old(clients) then Log(old(sends), s) + [Attempt(p, s !in failing)] else Log(old(sends), s))
    {
      var pending := clients;
      while pending != {}
        invariant pending <= old(clients)
        invariant clients == old(clients) - (failing - pending)
        invariant forall s {:trigger Log(sends, s)} :: (Log(sends, s) ==
          if s in old(clients) - pending then Log(old(sends), s) + [Attempt(p, s !in failing)] else Log(old(sends), s))
        decreases pending
      {
        var socket :| socket in pending;
        pending := pending - {socket};
        var ok := socket !in failing;
        ghost var before := sends;
        sends := sends[socket := Log(sends, socket) + [Attempt(p, ok)]];
        assert forall s :: s != socket ==> Log(sends, s) == Log(before, s);
        if !ok {
          clients := clients - {socket};
        }
      }
    }

    /** Subscription of `socket`: register it, then replay the whole buffer
        to it, oldest first. A send that throws is ignored and the replay
        goes on with the next item; the socket stays registered. `lost`
        holds the positions of the replay items whose send throws. The
        replay's sends are gathered in `replayed` and entered in the hub's
        log when the loop ends; nothing else runs in between. */
    method Subscribe(socket: Socket, lost: set<nat>)
      requires Valid()
      modifies this`clients, this`sends
      ensures Valid()
      ensures clients == old(clients) + {socket}
      ensures buffer == old(buffer) && ingested == old(ingested)
      ensures Log(sends, socket) == Log(old(sends), socket) + Replay(buffer, lost)
      ensures forall s :: s != socket ==> Log(sends, s) == Log(old(sends), s)
    {
      clients := clients + {socket};
      ghost var replayed: seq<Attempt> := [];
      for i := 0 to |buffer|
        invariant replayed == Replay(buffer[..i], lost)
      {
        assert buffer[..i + 1][..i] == buffer[..i];
        replayed := replayed + [Attempt(buffer[i], i !in lost)];
      }
      assert buffer[..|buffer|] == buffer;
      sends := sends[socket := Log(sends, socket) + replayed];
    }

    /** The close listener of `socket`: unregister it. Closing a socket that
        is not registered changes nothing. */
    method Close(socket: Socket)
      requires Valid()
      modifies this`clients
      ensures Valid()
      ensures clients == old(clients) - {socket}
      ensures socket !in old(clients) ==> clients == old(clients)
      ensures buffer == old(buffer) && ingested == old(ingested) && sends == old(sends)
    {
      clients := clients - {socket};
    }
  }

  /** Two sockets subscribe to an empty hub; the send to one of them
      throws on an ingest. The other still gets the payload and the failing
      one is unregistered. */
  method FailureIsolationExample(p: Payload)
  {
    var hub := new Hub();
    var a, b := Socket(1), Socket(2);
    hub.Subscribe(a, {});
    hub.Subscribe(b, {});
    assert hub.clients == {a, b};
    assert Log(hub.sends, a) == [] && Log(hub.sends, b) == [];
    hub.Ingest(p, {b});
    assert hub.clients == {a};
    assert Log(hub.sends, a) == [Attempt(p, true)];
    assert Log(hub.sends, b) == [Attempt(p, false)];
  }
}
