/**
 * Threading/BlockingQueue.cs as a sequential state machine: a bounded FIFO whose two
 * limiters mirror how many elements may still be enqueued and how many may be dequeued.
 * A call that would block on a limiter (enqueueing into a full queue, dequeueing from an
 * empty one before turn-off) is ruled out by a precondition.
 */
module BlockingQueues {
  import opened Binary
  import opened Wrappers
  import opened Limiters

  /** What `TryDequeue` returns: an element, or `DequeueStatus.QueueingCancelledButQueueIsEmpty`. */
  datatype DequeueOutcome<T> = Dequeued(value: T) | QueueingCancelledButQueueIsEmpty

  class BlockingQueue<T> {
    const capacity: int
    /** The elements, head first. */
    var queue: seq<T>
    /** `size`, the counter `Size` reports. */
    var size: int
    /** Counts the elements a dequeuer may take; released forever by turn-off. */
    const dequeWaiter: Limiter
    /** Counts the free places an enqueuer may fill. */
    const enqueueLimiter: Limiter
    var isQueueingTurnOff: bool
    var isDisposed: bool

    function Repr(): set<object> {
      {this, dequeWaiter, enqueueLimiter}
    }

    /**
     * The queue never holds more than `capacity` elements; the enqueue limiter's counter plus
     * the size is the capacity; before turn-off the dequeue limiter's counter is the size,
     * and after it (until disposal) that limiter is released forever.
     */
    predicate Valid()
      reads Repr()
    {
      1 <= capacity <= IntMaxValue
      && dequeWaiter != enqueueLimiter
      && dequeWaiter.Valid() && enqueueLimiter.Valid()
      && dequeWaiter.maxValue == IntMaxValue && enqueueLimiter.maxValue == IntMaxValue
      && size == |queue| <= capacity
      && !enqueueLimiter.releasedForever && enqueueLimiter.free + |queue| == capacity
      && (!isQueueingTurnOff ==> !dequeWaiter.releasedForever && dequeWaiter.free == |queue|)
      && (isQueueingTurnOff && !isDisposed ==> dequeWaiter.releasedForever)
      && (isDisposed ==> isQueueingTurnOff)
    }

    constructor (capacity: int)
      requires 1 <= capacity <= IntMaxValue
      ensures Valid() && fresh(dequeWaiter) && fresh(enqueueLimiter)
      ensures this.capacity == capacity && queue == [] && !isQueueingTurnOff && !isDisposed
    {
      this.capacity := capacity;
      queue := [];
      size := 0;
      dequeWaiter := new Limiter(0, IntMaxValue);
      enqueueLimiter := new Limiter(capacity, IntMaxValue);
      isQueueingTurnOff := false;
      isDisposed := false;
    }

    /** The constructor with its check: a capacity below 1 throws. */
    static method Create(capacity: int) returns (r: Result<BlockingQueue<T>, Exception>)
      requires IsInt32(capacity)
      ensures r.Success? <==> capacity >= 1
      ensures r.Failure? ==> r.error == ArgumentException
      ensures r.Success? ==> fresh(r.value.Repr()) && r.value.Valid() && r.value.capacity == capacity
      ensures r.Success? ==> r.value.queue == [] && !r.value.isQueueingTurnOff && !r.value.isDisposed
    {
      if capacity < 1 {
        return Failure(ArgumentException);
      }
      var q := new BlockingQueue<T>(capacity);
      return Success(q);
    }

    /** `Size`: the number of elements, never above the capacity. */
    function Size(): (r: int)
      reads Repr()
      ensures Valid() ==> r == |queue| && 0 <= r <= capacity
    {
      size
    }

    /** `IsFull`: the size has reached the capacity. */
    predicate IsFull()
      reads Repr()
      ensures Valid() ==> (IsFull() <==> |queue| == capacity)
    {
      size >= capacity
    }

    /** A valid queue is full exactly when its enqueue limiter has no free place, so `Enqueue` would block. */
    lemma FullIffNoFreePlace()
      requires Valid()
      ensures IsFull() <==> enqueueLimiter.free == 0
      ensures Size() == |queue| <= capacity
    {
    }

    /** `TurnOffQueueingNewElements`: throws once disposed; otherwise sets the flag and releases dequeuers for good, once. */
    method TurnOffQueueingNewElements() returns (r: Result<(), Exception>)
      requires Valid()
      modifies Repr()
      ensures Valid() && queue == old(queue) && isDisposed == old(isDisposed)
      ensures r.Success? <==> !old(isDisposed)
      ensures r.Failure? ==> r.error == InvalidOperationException && isQueueingTurnOff == old(isQueueingTurnOff)
      ensures r.Success? ==> isQueueingTurnOff
      ensures old(isQueueingTurnOff) ==> unchanged(Repr())
    {
      if isDisposed {
        return Failure(InvalidOperationException);
      }
      if !isQueueingTurnOff {
        isQueueingTurnOff := true;
        dequeWaiter.ReleaseForever();
      }
      return Success(());
    }

    /**
     * `Enqueue`: throws once disposed or turned off; otherwise appends at the tail. The
     * caller must not be blocked by a full queue.
     */
    method Enqueue(value: T) returns (r: Result<(), Exception>)
      requires Valid()
      requires !isDisposed && !isQueueingTurnOff ==> |queue| < capacity
      modifies Repr()
      ensures Valid() && isQueueingTurnOff == old(isQueueingTurnOff) && isDisposed == old(isDisposed)
      ensures r.Success? <==> !old(isDisposed) && !old(isQueueingTurnOff)
      ensures r.Failure? ==> r.error == InvalidOperationException && queue == old(queue)
      ensures r.Success? ==> queue == old(queue) + [value]
    {
      if isDisposed || isQueueingTurnOff {
        return Failure(InvalidOperationException);
      }
      var _ := enqueueLimiter.WaitFree(enqueueLimiter.free, false);
      queue := queue + [value];
      size := size + 1;
      DequeueRelease();
      return Success(());
    }

    /**
     * `Dequeue`: throws once disposed, and also once turned off even if elements remain;
     * otherwise removes the head. Before turn-off the caller must not be blocked by an
     * empty queue.
     */
    method Dequeue() returns (r: Result<T, Exception>)
      requires Valid()
      requires !isDisposed && !isQueueingTurnOff ==> |queue| > 0
      modifies Repr()
      ensures Valid() && isQueueingTurnOff == old(isQueueingTurnOff) && isDisposed == old(isDisposed)
      ensures r.Success? <==> !old(isDisposed) && !old(isQueueingTurnOff)
      ensures r.Failure? ==> r.error == InvalidOperationException && queue == old(queue)
      ensures r.Success? ==> r.value == old(queue)[0] && queue == old(queue)[1..]
    {
      if isDisposed || isQueueingTurnOff {
        return Failure(InvalidOperationException);
      }
      var _ := dequeWaiter.WaitFree(dequeWaiter.free, false);
      var head := queue[0];
      queue := queue[1..];
      size := size - 1;
      var _ := enqueueLimiter.TryRelease(1);
      return Success(head);
    }

    /**
     * `TryDequeue`: throws once disposed; otherwise removes the head, or, when the queue is
     * empty (possible only after turn-off), reports that queueing was cancelled.
     */
    method TryDequeue() returns (r: Result<DequeueOutcome<T>, Exception>)
      requires Valid()
      requires !isDisposed && !isQueueingTurnOff ==> |queue| > 0
      modifies Repr()
      ensures Valid() && isQueueingTurnOff == old(isQueueingTurnOff) && isDisposed == old(isDisposed)
      ensures r.Failure? <==> old(isDisposed)
      ensures r.Failure? ==> r.error == InvalidOperationException && queue == old(queue)
      ensures r.Success? && old(queue) == [] ==> r.value == QueueingCancelledButQueueIsEmpty && queue == []
      ensures r.Success? && old(queue) != [] ==> r.value == Dequeued(old(queue)[0]) && queue == old(queue)[1..]
    {
      if isDisposed {
        return Failure(InvalidOperationException);
      }
      DequeueWait();
      if |queue| == 0 {
        return Success(QueueingCancelledButQueueIsEmpty);
      }
      var head := queue[0];
      queue := queue[1..];
      size := size - 1;
      var _ := enqueueLimiter.TryRelease(1);
      return Success(Dequeued(head));
    }

    /**
     * `TryDequeIfHeadMatched`: throws once disposed or for a null condition; otherwise
     * removes the head exactly when the condition holds on it. The element reported is the
     * head whether or not it was removed, and `None` (the type's default) when the queue is
     * empty.
     */
    method TryDequeIfHeadMatched(condition: Option<T -> bool>) returns (r: Result<(bool, Option<T>), Exception>)
      requires Valid()
      requires !isDisposed && !isQueueingTurnOff && condition.Some? ==> |queue| > 0
      modifies Repr()
      ensures Valid() && isQueueingTurnOff == old(isQueueingTurnOff) && isDisposed == old(isDisposed)
      ensures old(isDisposed) ==> r == Failure(InvalidOperationException)
      ensures !old(isDisposed) && condition.None? ==> r == Failure(ArgumentNullException)
      ensures r.Failure? ==> queue == old(queue)
      ensures r.Success? <==> !old(isDisposed) && condition.Some?
      ensures r.Success? && old(queue) == [] ==> r.value == (false, None) && queue == []
      ensures r.Success? && old(queue) != [] ==> r.value.1 == Some(old(queue)[0])
      ensures r.Success? && old(queue) != [] ==> r.value.0 == condition.value(old(queue)[0])
      ensures r.Success? && r.value.0 ==> queue == old(queue)[1..]
      ensures r.Success? && !r.value.0 ==> queue == old(queue)
    {
      if isDisposed {
        return Failure(InvalidOperationException);
      }
      if condition.None? {
        return Failure(ArgumentNullException);
      }
      DequeueWait();
      if |queue| == 0 {
        DequeueRelease();
        return Success((false, None));
      }
      var element := queue[0];
      var dequeue := condition.value(element);
      if dequeue {
        queue := queue[1..];
        size := size - 1;
        var _ := enqueueLimiter.TryRelease(1);
      } else {
        DequeueRelease();
      }
      return Success((dequeue, Some(element)));
    }

    /** `Dispose`: marks the queue disposed and turned off, without releasing the dequeue limiter. */
    method Dispose()
      requires Valid()
      modifies this
      ensures Valid() && isDisposed && isQueueingTurnOff && queue == old(queue)
    {
      isDisposed := true;
      isQueueingTurnOff := true;
    }

    /** `DequeueWait` when the queue is not empty: before turn-off it takes one unit of the dequeue limiter. */
    method DequeueWait()
      requires Valid() && !isDisposed
      requires !isQueueingTurnOff ==> |queue| > 0
      modifies dequeWaiter
      ensures dequeWaiter.Valid() && dequeWaiter.maxValue == IntMaxValue
      ensures !isQueueingTurnOff ==> !dequeWaiter.releasedForever && dequeWaiter.free == |queue| - 1
      ensures isQueueingTurnOff ==> dequeWaiter.releasedForever
    {
      if !isQueueingTurnOff {
        var _ := dequeWaiter.WaitFree(dequeWaiter.free, false);
      }
    }

    /** `DequeueRelease` after an element has been added or a taken unit is given back: before turn-off, one unit more. */
    method DequeueRelease()
      requires dequeWaiter.Valid() && dequeWaiter.maxValue == IntMaxValue && !isDisposed
      requires !isQueueingTurnOff ==> !dequeWaiter.releasedForever && dequeWaiter.free + 1 == |queue| <= capacity <= IntMaxValue
      requires isQueueingTurnOff ==> dequeWaiter.releasedForever
      modifies dequeWaiter
      ensures dequeWaiter.Valid() && dequeWaiter.maxValue == IntMaxValue
      ensures !isQueueingTurnOff ==> !dequeWaiter.releasedForever && dequeWaiter.free == |queue|
      ensures isQueueingTurnOff ==> dequeWaiter.releasedForever
    {
      if !isQueueingTurnOff {
        var _ := dequeWaiter.TryRelease(1);
      }
    }
  }
}
