/**
 * The lifecycle of a `Connection`: the idempotent `Close`, the close calls at the end of
 * its receive loop, `Send` into its bounded queue of outgoing packets, and the decisions
 * of its send loop. Sockets, streams and the abstract hooks of derived classes are state
 * flags and logs here: `onClose` records each call of the `OnClose` hook, `dropped` each
 * packet handed to `OnPacketQueueFull`.
 */
module Connections {
  import opened Wrappers
  import opened Packets
  import opened RingBuffers

  /** The nullable `CancellationTokenSource` field; no code in `Connection` assigns it. */
  datatype TokenSource = NoSource | Source(cancelled: bool)

  /** The nullable `_client` field and whether its socket is connected. */
  datatype ClientState = NoClient | Connected | Disconnected

  /** `CancellationTokenSource?.Cancel()`. */
  function Cancel(t: TokenSource): TokenSource {
    if t.Source? then Source(true) else NoSource
  }

  /** `_client?.Close()`. */
  function Shut(c: ClientState): ClientState {
    if c == NoClient then NoClient else Disconnected
  }

  /** How the `await foreach` over the reader ended. */
  datatype ReceiveEnd =
    | Finished       // the enumeration ended
    | ReadIOFailed   // an IOException escaped it
    | ReadFailed     // another exception escaped it

  /** The result of one `WriteAsync` and `FlushAsync` of a packet. */
  datatype WriteOutcome = Written | ConnectionReset | SocketFailed | WriteFailed

  /** Why the send loop stopped. */
  datatype SendEnd =
    | NotConnected   // the connected check before the loop failed
    | TokenMissing   // a null token source is dereferenced for its token: the task faults
    | Cancelled      // the loop condition found cancellation requested
    | StreamMissing  // a packet arrived while `_stream` was null: cancel and break
    | Reset          // a write failed with ConnectionReset: break
    | Drained        // the queue is empty and the loop waits for the next permit

  /**
   * The packets handed to the stream, the queue left behind, and why the loop stopped.
   */
  datatype SendRun = SendRun(attempted: seq<NetworkPacket>, rest: seq<Option<NetworkPacket>>, end: SendEnd)

  /**
   * The body of the send loop over the queued packets, the token not cancelled: a null
   * packet is skipped without a write, a packet is written with outcome `writes[i]` for
   * queue position `i`, a ConnectionReset ends the loop, any other failure is logged and
   * the loop goes on.
   */
  function Drain(queue: seq<Option<NetworkPacket>>, writes: seq<WriteOutcome>, hasStream: bool): SendRun
    requires |writes| >= |queue|
    decreases |queue|
  {
    if queue == [] then SendRun([], [], Drained)
    else if queue[0].None? then Drain(queue[1..], writes[1..], hasStream)
    else if !hasStream then SendRun([], queue[1..], StreamMissing)
    else if writes[0] == ConnectionReset then SendRun([queue[0].value], queue[1..], Reset)
    else
      var r := Drain(queue[1..], writes[1..], hasStream);
      SendRun([queue[0].value] + r.attempted, r.rest, r.end)
  }

  /** `SendPacketsWhenAvailable` from the given state. */
  function SendLoop(client: ClientState, token: TokenSource, hasStream: bool,
                    queue: seq<Option<NetworkPacket>>, writes: seq<WriteOutcome>): SendRun
    requires |writes| >= |queue|
  {
    if client != Connected then SendRun([], queue, NotConnected)
    else if token == NoSource then SendRun([], queue, TokenMissing)
    else if token.cancelled then SendRun([], queue, Cancelled)
    else Drain(queue, writes, hasStream)
  }

  /** The non-null packets of a queue, in order. */
  function NonNull(q: seq<Option<NetworkPacket>>): seq<NetworkPacket> {
    if q == [] then [] else (if q[0].Some? then [q[0].value] else []) + NonNull(q[1..])
  }

  /** No write among the non-null packets of `q` (positions aligned with `writes`) ends in ConnectionReset. */
  predicate NoReset(q: seq<Option<NetworkPacket>>, writes: seq<WriteOutcome>)
    requires |writes| >= |q|
  {
    forall i :: 0 <= i < |q| && q[i].Some? ==> writes[i] != ConnectionReset
  }

  /**
   * What the send loop does to the queue: it consumes a prefix of it, the packets it hands
   * to the stream are the non-null packets of that prefix (all but the one it found with no
   * stream), and it stops early only on a reset at the last packet consumed or a missing stream.
   */
  lemma {:induction false} DrainConsumesPrefix(queue: seq<Option<NetworkPacket>>, writes: seq<WriteOutcome>, hasStream: bool)
    requires |writes| >= |queue|
    ensures var r := Drain(queue, writes, hasStream); var n := |queue| - |r.rest|;
      && |r.rest| <= |queue|
      && queue == queue[..n] + r.rest
      && (r.end != StreamMissing ==> r.attempted == NonNull(queue[..n]))
      && (r.end == Drained ==> r.rest == [])
      && (r.end == Reset ==> 0 < n && queue[n - 1].Some? && writes[n - 1] == ConnectionReset)
      && (r.end == StreamMissing ==> !hasStream && 0 < n && queue[n - 1].Some? && r.attempted == [])
      && (r.end == Drained || r.end == Reset || r.end == StreamMissing)
    decreases |queue|
  {
    if queue == [] {
    } else if queue[0].None? || (hasStream && writes[0] != ConnectionReset) {
      DrainConsumesPrefix(queue[1..], writes[1..], hasStream);
      DrainPrefixStep(queue, Drain(queue[1..], writes[1..], hasStream));
    } else {
      assert queue == queue[..1] + queue[1..];
      NonNullStep([queue[0]]);
    }
  }

  /** The prefix the recursive call consumed, with the head in front. */
  lemma DrainPrefixStep(queue: seq<Option<NetworkPacket>>, r: SendRun)
    requires queue != [] && |r.rest| <= |queue| - 1
    requires var tail := queue[1..]; tail == tail[..|tail| - |r.rest|] + r.rest
    ensures var n := |queue| - |r.rest|;
      && queue == queue[..n] + r.rest
      && NonNull(queue[..n]) == (if queue[0].Some? then [queue[0].value] else []) + NonNull(queue[1..][..n - 1])
  {
    var n := |queue| - |r.rest|;
    assert queue[..n] == [queue[0]] + queue[1..][..n - 1];
    NonNullStep(queue[..n]);
  }

  lemma NonNullStep(q: seq<Option<NetworkPacket>>)
    requires q != []
    ensures NonNull(q) == (if q[0].Some? then [q[0].value] else []) + NonNull(q[1..])
  {
  }

  /** With a stream and no reset among the writes, the loop hands every non-null packet to the stream, in order, and waits. */
  lemma {:induction false} DrainWritesAll(queue: seq<Option<NetworkPacket>>, writes: seq<WriteOutcome>)
    requires |writes| >= |queue| && NoReset(queue, writes)
    ensures Drain(queue, writes, true) == SendRun(NonNull(queue), [], Drained)
    decreases |queue|
  {
    if queue != [] {
      assert NoReset(queue[1..], writes[1..]) by {
        forall i | 0 <= i < |queue[1..]| && queue[1..][i].Some?
          ensures writes[1..][i] != ConnectionReset
        {
          assert queue[1..][i] == queue[i + 1];
        }
      }
      DrainWritesAll(queue[1..], writes[1..]);
    }
  }

  class Connection {
    /** `Id`, drawn by the constructor. */
    const id: nat
    var client: ClientState
    /** Whether `_stream` has been obtained from the client. */
    var hasStream: bool
    var tokenSource: TokenSource
    var closed: bool
    /** The `expected` argument of each `OnClose` call, in order. */
    var onClose: seq<bool>
    /** `_packetsToSend`. */
    const packetsToSend: RingBuffer<Option<NetworkPacket>>
    /** The packets handed to `OnPacketQueueFull`, in order. */
    var dropped: seq<Option<NetworkPacket>>

    ghost predicate Valid()
      reads this, packetsToSend
    {
      packetsToSend.Valid()
    }

    constructor (id: nat, client: ClientState, packetsToSend: RingBuffer<Option<NetworkPacket>>)
      requires packetsToSend.Valid() && packetsToSend.queue == []
      ensures Valid()
      ensures this.id == id && this.client == client && this.packetsToSend == packetsToSend
      ensures !hasStream && tokenSource == NoSource && !closed && onClose == [] && dropped == []
      ensures packetsToSend.queue == []
    {
      this.id := id;
      this.client := client;
      this.packetsToSend := packetsToSend;
      hasStream := false;
      tokenSource := NoSource;
      closed := false;
      onClose := [];
      dropped := [];
    }

    /**
     * The constructor with the queue it builds: a `maxQueuedPackets` of 0 makes the
     * `RingBuffer` constructor throw.
     */
    static method New(id: nat, client: ClientState, maxQueuedPackets: u16) returns (r: Result<Connection, BufferError>)
      ensures r.Failure? <==> maxQueuedPackets == 0
      ensures r.Success? ==> fresh(r.value) && fresh(r.value.packetsToSend) && r.value.Valid()
      ensures r.Success? ==> r.value.id == id && r.value.client == client && !r.value.closed
      ensures r.Success? ==> r.value.packetsToSend.capacity == maxQueuedPackets as nat && r.value.packetsToSend.queue == []
    {
      var buffer := RingBuffer<Option<NetworkPacket>>.New(maxQueuedPackets as nat);
      if buffer.Failure? {
        return Failure(buffer.error);
      }
      var c := new Connection(id, client, buffer.value);
      return Success(c);
    }

    /** `IsConnected`. */
    predicate IsConnected()
      reads this
    {
      client == Connected
    }

    /**
     * The first call cancels the token source, closes the client, marks the connection
     * closed and calls `OnClose(expected)`; any later call changes nothing.
     */
    method Close(expected: bool)
      modifies this
      ensures old(closed) ==> closed && onClose == old(onClose) && client == old(client) && tokenSource == old(tokenSource)
      ensures !old(closed) ==> closed && onClose == old(onClose) + [expected]
                                && client == Shut(old(client)) && tokenSource == Cancel(old(tokenSource))
      ensures hasStream == old(hasStream) && dropped == old(dropped)
    {
      if closed {
        return;
      }
      tokenSource := Cancel(tokenSource);
      client := Shut(client);
      closed := true;
      onClose := onClose + [expected];
    }

    /**
     * `ExecuteAsync` around its receive loop: nothing at all without a client; otherwise the
     * stream is obtained, and however the loop ends `Close(false)` is called, twice after an
     * exception, so `OnClose(false)` runs once unless the connection was already closed.
     */
    method ExecuteAsync(ended: ReceiveEnd)
      modifies this
      ensures old(client) == NoClient ==> client == NoClient && closed == old(closed) && onClose == old(onClose) && hasStream == old(hasStream)
      ensures old(client) != NoClient ==> hasStream && closed
      ensures old(client) != NoClient ==> onClose == old(onClose) + (if old(closed) then [] else [false])
      ensures old(client) != NoClient && !old(closed) ==> client == Shut(old(client)) && tokenSource == Cancel(old(tokenSource))
      ensures old(client) == NoClient || old(closed) ==> client == old(client) && tokenSource == old(tokenSource)
      ensures dropped == old(dropped)
    {
      if client == NoClient {
        return;   // logged as critical
      }
      hasStream := true;
      match ended {
        case Finished =>
        case ReadIOFailed =>
          Close(false);
        case ReadFailed =>
          Close(false);
      }
      Close(false);
    }

    /** `Send`: enqueue only, whether or not the connection is closed; a full queue drops the packet. */
    method Send(packet: Option<NetworkPacket>)
      requires Valid()
      modifies packetsToSend, this
      ensures Valid()
      ensures |old(packetsToSend.queue)| >= packetsToSend.capacity ==>
                packetsToSend.queue == old(packetsToSend.queue) && dropped == old(dropped) + [packet]
      ensures |old(packetsToSend.queue)| < packetsToSend.capacity ==>
                packetsToSend.queue == old(packetsToSend.queue) + [packet] && dropped == old(dropped)
      ensures closed == old(closed) && onClose == old(onClose) && client == old(client)
      ensures hasStream == old(hasStream) && tokenSource == old(tokenSource)
    {
      var full := packetsToSend.Enqueue(packet);
      if full.Some? {
        dropped := dropped + [full.value];   // OnPacketQueueFull: logged and dropped
      }
    }

    /**
     * `SendPacketsWhenAvailable`: one dequeue per turn, `writes[i]` being the outcome of
     * writing the `i`-th queued packet. It stops where the source breaks or returns, and
     * where the queue is empty and the real loop would wait.
     */
    method SendPacketsWhenAvailable(writes: seq<WriteOutcome>) returns (attempted: seq<NetworkPacket>, end: SendEnd)
      requires Valid() && |writes| >= |packetsToSend.queue|
      modifies packetsToSend, this
      ensures Valid()
      ensures var r := SendLoop(old(client), old(tokenSource), old(hasStream), old(packetsToSend.queue), writes);
        && attempted == r.attempted && end == r.end && packetsToSend.queue == r.rest
      ensures tokenSource == (if end == StreamMissing then Cancel(old(tokenSource)) else old(tokenSource))
      ensures closed == old(closed) && onClose == old(onClose) && client == old(client)
      ensures hasStream == old(hasStream) && dropped == old(dropped)
    {
      if client != Connected {
        return [], NotConnected;   // logged: a closed connection
      }
      if tokenSource == NoSource {
        return [], TokenMissing;
      }
      if tokenSource.cancelled {
        return [], Cancelled;
      }
      attempted := [];
      ghost var queue0 := packetsToSend.queue;
      var i := 0;
      while true
        invariant Valid()
        invariant 0 <= i <= |queue0| && packetsToSend.queue == queue0[i..]
        invariant tokenSource == old(tokenSource) && client == old(client) && closed == old(closed)
        invariant onClose == old(onClose) && hasStream == old(hasStream) && dropped == old(dropped)
        invariant Drain(queue0, writes, hasStream)
               == (var r := Drain(queue0[i..], writes[i..], hasStream); SendRun(attempted + r.attempted, r.rest, r.end))
        decreases |queue0| - i
      {
        if packetsToSend.permits == 0 {
          assert queue0[i..] == [];
          return attempted, Drained;
        }
        var next := packetsToSend.DequeueAsync(false);
        var packet := next.value;
        assert queue0[i..][1..] == queue0[i + 1..] && writes[i..][1..] == writes[i + 1..];
        if packet.Some? {
          if !hasStream {
            tokenSource := Cancel(tokenSource);   // logged as critical
            return attempted, StreamMissing;
          }
          if writes[i] == ConnectionReset {
            return attempted + [packet.value], Reset;
          }
          // any other failure is logged and the loop goes on
          assert attempted + ([packet.value] + Drain(queue0[i + 1..], writes[i + 1..], hasStream).attempted)
              == (attempted + [packet.value]) + Drain(queue0[i + 1..], writes[i + 1..], hasStream).attempted;
          attempted := attempted + [packet.value];
        }
        i := i + 1;
      }
    }
  }
}
