/**
 * The bounded, drop-newest FIFO of `RingBuffer<T>`.
 *
 * The concurrent queue becomes a `seq` field and the semaphore becomes a permit counter;
 * the model is sequential, so a consumer that would have to wait for a permit is not
 * modelled (the dequeue requires a permit unless its cancellation signal has fired).
 */
module RingBuffers {
  import opened Wrappers

  /** The constructor's `ArgumentException`. */
  datatype BufferError = CapacityMustBePositive

  /** What `DequeueAsync` completes with: the head item, or the cancellation it observed. */
  datatype Dequeued<T> = Canceled | Item(value: T)

  class RingBuffer<T> {
    /** `_capacity`: fixed when the buffer is built. */
    const capacity: nat
    /** `_queue`, head first. */
    var queue: seq<T>
    /** The current count of `_signal`. */
    var permits: nat

    ghost predicate Valid()
      reads this
    {
      capacity > 0 && |queue| <= capacity && permits == |queue|
    }

    /** The constructor after its capacity check has passed. */
    constructor (capacity: nat)
      requires capacity > 0
      ensures Valid()
      ensures this.capacity == capacity && queue == []
    {
      this.capacity := capacity;
      queue := [];
      permits := 0;
    }

    /** The whole constructor: capacity 0 is rejected, any other capacity gives an empty buffer. */
    static method New(capacity: nat) returns (r: Result<RingBuffer<T>, BufferError>)
      ensures r.Failure? <==> capacity == 0
      ensures r.Failure? ==> r.error == CapacityMustBePositive
      ensures r.Success? ==> fresh(r.value) && r.value.Valid()
      ensures r.Success? ==> r.value.capacity == capacity && r.value.queue == []
    {
      if capacity <= 0 {
        return Failure(CapacityMustBePositive);
      }
      var b := new RingBuffer<T>(capacity);
      return Success(b);
    }

    /**
     * Drop-newest enqueue. At capacity the item goes to the `BufferFull` handlers
     * (returned as `bufferFull`) and nothing is stored; otherwise it is appended and
     * one permit is released.
     */
    method Enqueue(item: T) returns (bufferFull: Option<T>)
      requires Valid()
      modifies this
      ensures Valid()
      ensures old(|queue|) >= capacity ==> bufferFull == Some(item) && queue == old(queue)
      ensures old(|queue|) < capacity ==> bufferFull == None && queue == old(queue) + [item]
    {
      if |queue| >= capacity {
        return Some(item);
      }
      queue := queue + [item];
      permits := permits + 1;
      return None;
    }

    /**
     * Takes one permit and removes the head. A cancellation signal that has already
     * fired makes the wait fail before anything is removed.
     */
    method DequeueAsync(cancelled: bool) returns (r: Dequeued<T>)
      requires Valid()
      requires cancelled || permits > 0
      modifies this
      ensures Valid()
      ensures cancelled ==> r == Canceled && queue == old(queue)
      ensures !cancelled ==> r == Item(old(queue)[0]) && queue == old(queue)[1..]
    {
      if cancelled {
        return Canceled;
      }
      permits := permits - 1;
      r := Item(queue[0]);
      queue := queue[1..];
    }
  }

  /** One step a producer or the consumer can take on a buffer. */
  datatype Op<T> = Put(item: T) | Take

  /** What a sequence of steps leaves behind and hands out. */
  datatype Trace<T> = Trace(contents: seq<T>, accepted: seq<T>, taken: seq<T>, dropped: seq<T>)

  /**
   * Runs `ops` sequentially from contents `q`, by the rules of `Enqueue` and `DequeueAsync`.
   * A `Take` on an empty buffer is a consumer that is still waiting: it removes nothing.
   */
  function Run<T>(capacity: nat, q: seq<T>, ops: seq<Op<T>>): Trace<T>
    decreases |ops|
  {
    if ops == [] then Trace(q, [], [], [])
    else
      var last := ops[|ops| - 1];
      var t := Run(capacity, q, ops[..|ops| - 1]);
      match last
      case Put(x) =>
        if |t.contents| >= capacity then Trace(t.contents, t.accepted, t.taken, t.dropped + [x])
        else Trace(t.contents + [x], t.accepted + [x], t.taken, t.dropped)
      case Take =>
        if t.contents == [] then t
        else Trace(t.contents[1..], t.accepted, t.taken + [t.contents[0]], t.dropped)
  }

  /** The items the producers offered, in order. */
  function Offered<T>(ops: seq<Op<T>>): (r: seq<T>)
    ensures |r| <= |ops|
  {
    if ops == [] then []
    else Offered(ops[..|ops| - 1]) + (match ops[|ops| - 1] case Put(x) => [x] case Take => [])
  }

  /** Capacity invariant: however the steps interleave, the buffer never holds more than its capacity. */
  lemma {:induction false} RunBounded<T>(capacity: nat, q: seq<T>, ops: seq<Op<T>>)
    requires |q| <= capacity
    ensures |Run(capacity, q, ops).contents| <= capacity
    decreases |ops|
  {
    if ops != [] {
      RunBounded(capacity, q, ops[..|ops| - 1]);
    }
  }

  /**
   * FIFO: what has been taken, followed by what is still stored, is exactly the initial
   * contents followed by the accepted items, in the order they were accepted.
   */
  lemma {:induction false} RunFifo<T>(capacity: nat, q: seq<T>, ops: seq<Op<T>>)
    ensures Run(capacity, q, ops).taken + Run(capacity, q, ops).contents == q + Run(capacity, q, ops).accepted
    decreases |ops|
  {
    if ops != [] {
      var t := Run(capacity, q, ops[..|ops| - 1]);
      RunFifo(capacity, q, ops[..|ops| - 1]);
      match ops[|ops| - 1]
      case Put(x) =>
        if |t.contents| < capacity {
          assert t.taken + (t.contents + [x]) == (t.taken + t.contents) + [x];
          assert q + (t.accepted + [x]) == (q + t.accepted) + [x];
        }
      case Take =>
        if t.contents != [] {
          assert (t.taken + [t.contents[0]]) + t.contents[1..] == t.taken + t.contents;
        }
    }
  }

  /** Every offered item is either accepted or handed to the overflow handlers, never both, never lost. */
  lemma {:induction false} RunAccountsForOffers<T>(capacity: nat, q: seq<T>, ops: seq<Op<T>>)
    ensures multiset(Run(capacity, q, ops).accepted) + multiset(Run(capacity, q, ops).dropped)
            == multiset(Offered(ops))
    decreases |ops|
  {
    if ops != [] {
      RunAccountsForOffers(capacity, q, ops[..|ops| - 1]);
    }
  }

  /** `capacity` puts into an empty buffer fill it; one more put is dropped alone and the contents stay. */
  lemma {:induction false} OverflowAfterFill<T>(capacity: nat, items: seq<T>, extra: T)
    requires |items| == capacity
    ensures Run(capacity, [], Puts(items)).contents == items
    ensures Run(capacity, [], Puts(items)).dropped == []
    ensures Run(capacity, [], Puts(items) + [Put(extra)]).dropped == [extra]
    ensures Run(capacity, [], Puts(items) + [Put(extra)]).contents == items
  {
    FillFromEmpty(capacity, items);
    var ops := Puts(items) + [Put(extra)];
    assert ops[..|ops| - 1] == Puts(items);
  }

  /** A run made of puts only. */
  function Puts<T>(items: seq<T>): (ops: seq<Op<T>>)
    ensures |ops| == |items|
    ensures forall i :: 0 <= i < |items| ==> ops[i] == Put(items[i])
  {
    if items == [] then [] else Puts(items[..|items| - 1]) + [Put(items[|items| - 1])]
  }

  lemma {:induction false} FillFromEmpty<T>(capacity: nat, items: seq<T>)
    requires |items| <= capacity
    ensures Run(capacity, [], Puts(items)).contents == items
    ensures Run(capacity, [], Puts(items)).dropped == []
    decreases |items|
  {
    if items != [] {
      var init := items[..|items| - 1];
      FillFromEmpty(capacity, init);
      assert Puts(items)[..|items| - 1] == Puts(init);
      assert init + [items[|items| - 1]] == items;
    }
  }

  /**
   * Drives a buffer object through `ops`; a `Take` is only performed when a permit is
   * available. The object ends where `Run` says, so the lemmas above describe it.
   */
  method Play<T>(b: RingBuffer<T>, ops: seq<Op<T>>) returns (taken: seq<T>, dropped: seq<T>)
    requires b.Valid()
    modifies b
    ensures b.Valid()
    ensures b.queue == Run(b.capacity, old(b.queue), ops).contents
    ensures taken == Run(b.capacity, old(b.queue), ops).taken
    ensures dropped == Run(b.capacity, old(b.queue), ops).dropped
  {
    taken, dropped := [], [];
    ghost var accepted: seq<T> := [];
    var i := 0;
    while i < |ops|
      invariant 0 <= i <= |ops|
      invariant b.Valid()
      invariant Run(b.capacity, old(b.queue), ops[..i]) == Trace(b.queue, accepted, taken, dropped)
    {
      assert ops[..i + 1][..i] == ops[..i];
      match ops[i] {
        case Put(x) =>
          var full := b.Enqueue(x);
          if full.Some? {
            dropped := dropped + [full.value];
          } else {
            accepted := accepted + [x];
          }
        case Take =>
          if b.permits > 0 {
            var r := b.DequeueAsync(false);
            taken := taken + [r.value];
          }
      }
      i := i + 1;
    }
    assert ops[..|ops|] == ops;
  }
}
