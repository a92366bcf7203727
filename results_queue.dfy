/**
 * Results/BoundedResultsQueue.cs: producers acquire result slots in order, fill them in any
 * order, and one consumer takes the results out in acquisition order, as soon as the head
 * slot is filled. A slot is the number of its acquisition; the slots waiting for the
 * consumer sit in a `BlockingQueue` and the results set so far in a map.
 */
module ResultsQueues {
  import opened Binary
  import opened Wrappers
  import opened BlockingQueues
  import opened Limiters

  /** How many slots at the head of `ids` already hold a result: the consumer can take exactly these without waiting. */
  function CompletedPrefix<R>(ids: seq<nat>, results: map<nat, R>): (k: nat)
    ensures k <= |ids|
    ensures forall i :: 0 <= i < k ==> ids[i] in results
    ensures k < |ids| ==> ids[k] !in results
  {
    if ids == [] || ids[0] !in results then 0 else 1 + CompletedPrefix(ids[1..], results)
  }

  /** Every slot of `ids` holds a result. */
  predicate AllCompleted<R>(ids: seq<nat>, results: map<nat, R>) {
    forall i :: 0 <= i < |ids| ==> ids[i] in results
  }

  /** The results of the slots `ids`, in the order of `ids`. */
  function ResultsOf<R>(ids: seq<nat>, results: map<nat, R>): (r: seq<R>)
    requires AllCompleted(ids, results)
    ensures |r| == |ids|
    ensures forall i :: 0 <= i < |ids| ==> r[i] == results[ids[i]]
  {
    if ids == [] then [] else [results[ids[0]]] + ResultsOf(ids[1..], results)
  }

  lemma ResultsOfAppend<R>(ids: seq<nat>, id: nat, results: map<nat, R>)
    requires AllCompleted(ids, results)
    requires id in results
    ensures ResultsOf(ids + [id], results) == ResultsOf(ids, results) + [results[id]]
  {
  }

  /** `CheckDisposed` as written: it tests the turn-off flag, so it also throws on a queue that is only turned off. */
  function CheckDisposedAsWritten(isQueueingTurnOff: bool, isDisposed: bool): (r: Result<(), Exception>)
    ensures r.Failure? ==> r.error == InvalidOperationException
  {
    if isQueueingTurnOff then Failure(InvalidOperationException) else Success(())
  }

  /** `CheckDisposed` as its message says: it throws exactly on a disposed queue. */
  function CheckDisposed(isDisposed: bool): (r: Result<(), Exception>)
    ensures r.Failure? <==> isDisposed
    ensures r.Failure? ==> r.error == InvalidOperationException
  {
    if isDisposed then Failure(InvalidOperationException) else Success(())
  }

  class BoundedResultsQueue<R> {
    const resultRecheckTimeout: int
    const resultSlots: BlockingQueue<nat>
    /** The results set so far, by slot. */
    var results: map<nat, R>
    /** The number of slots acquired so far, which is also the next slot's number. */
    var acquired: nat
    /** The number of slots the consumer has taken out. */
    ghost var delivered: nat
    var isQueueingTurnOff: bool
    var isDisposed: bool

    function Repr(): set<object> {
      {this} + resultSlots.Repr()
    }

    /**
     * The slot queue holds, in order, exactly the slots acquired and not yet delivered; the
     * two turn-off and dispose flags agree with the slot queue's; results exist only for
     * acquired slots.
     */
    ghost predicate Valid()
      reads Repr()
    {
      resultSlots.Valid()
      && isQueueingTurnOff == resultSlots.isQueueingTurnOff
      && isDisposed == resultSlots.isDisposed
      && (isDisposed ==> isQueueingTurnOff)
      && delivered + |resultSlots.queue| == acquired
      && (forall i :: 0 <= i < |resultSlots.queue| ==> resultSlots.queue[i] == delivered + i)
      && (forall id :: id in results ==> id < acquired)
    }

    /** The slots waiting for the consumer, in acquisition order. */
    function Pending(): (r: seq<nat>)
      reads this, resultSlots
      ensures r == resultSlots.queue
    {
      resultSlots.queue
    }

    constructor (capacity: int, resultRecheckTimeout: int)
      requires 1 <= capacity <= IntMaxValue && resultRecheckTimeout >= 0
      ensures Valid() && fresh(resultSlots.Repr())
      ensures this.resultRecheckTimeout == resultRecheckTimeout && resultSlots.capacity == capacity
      ensures Pending() == [] && results == map[] && acquired == 0
      ensures !isQueueingTurnOff && !isDisposed
    {
      this.resultRecheckTimeout := resultRecheckTimeout;
      resultSlots := new BlockingQueue<nat>(capacity);
      results := map[];
      acquired := 0;
      delivered := 0;
      isQueueingTurnOff := false;
      isDisposed := false;
    }

    /** The constructor with its checks: a negative recheck timeout, then a capacity below 1, throw. */
    static method Create(capacity: int, resultRecheckTimeout: int) returns (r: Result<BoundedResultsQueue<R>, Exception>)
      requires IsInt32(capacity)
      ensures r.Success? <==> resultRecheckTimeout >= 0 && capacity >= 1
      ensures r.Failure? ==> r.error == ArgumentException
      ensures r.Success? ==> fresh(r.value.Repr()) && r.value.Valid() && r.value.resultSlots.capacity == capacity
      ensures r.Success? ==> r.value.Pending() == [] && r.value.results == map[] && r.value.acquired == 0
      ensures r.Success? ==> !r.value.isQueueingTurnOff && !r.value.isDisposed
    {
      if resultRecheckTimeout < 0 || capacity < 1 {
        return Failure(ArgumentException);
      }
      var q := new BoundedResultsQueue<R>(capacity, resultRecheckTimeout);
      return Success(q);
    }

    /**
     * `TurnOffAcquiringSlots`: the disposal check as written refuses a queue already turned
     * off (so a second call throws); otherwise acquisition and the slot queue are turned off.
     */
    method TurnOffAcquiringSlots() returns (r: Result<(), Exception>)
      requires Valid()
      modifies Repr()
      ensures Valid() && Pending() == old(Pending()) && results == old(results) && acquired == old(acquired)
      ensures isDisposed == old(isDisposed) && isQueueingTurnOff
      ensures r == CheckDisposedAsWritten(old(isQueueingTurnOff), old(isDisposed))
      ensures r.Failure? <==> old(isQueueingTurnOff)
    {
      r := CheckDisposedAsWritten(isQueueingTurnOff, isDisposed);
      if r.Failure? {
        return;
      }
      isQueueingTurnOff := true;
      var _ := resultSlots.TurnOffQueueingNewElements();
    }

    /**
     * `AcquireFreeResultOrWait`: throws once turned off (the disposal check as written
     * already tests the turn-off flag, so the turn-off check after it never fires); otherwise
     * hands out the next slot and queues it behind the pending ones. The caller must not be
     * blocked by a full slot queue.
     */
    method AcquireFreeResultOrWait() returns (r: Result<nat, Exception>)
      requires Valid()
      requires !isQueueingTurnOff ==> |Pending()| < resultSlots.capacity
      modifies Repr()
      ensures Valid() && results == old(results)
      ensures isQueueingTurnOff == old(isQueueingTurnOff) && isDisposed == old(isDisposed)
      ensures r.Success? <==> !old(isDisposed) && !old(isQueueingTurnOff)
      ensures r.Failure? ==> r.error == InvalidOperationException && Pending() == old(Pending()) && acquired == old(acquired)
      ensures r.Success? ==> r.value == old(acquired) && acquired == old(acquired) + 1
      ensures r.Success? ==> Pending() == old(Pending()) + [r.value] && r.value !in results
    {
      var check := CheckDisposedAsWritten(isQueueingTurnOff, isDisposed);
      if check.Failure? {
        return Failure(check.error);
      }
      var slot := acquired;
      var _ := resultSlots.Enqueue(slot);
      acquired := acquired + 1;
      return Success(slot);
    }

    /**
     * `ResultSlot.SetResult` on an acquired slot: the slot now holds `result`, replacing any
     * earlier one. Waking the consumer then releases the queue's semaphore, which `Dispose`
     * disposed: on a disposed queue the result is stored and `ObjectDisposedException` follows.
     */
    method SetResult(slot: nat, result: R) returns (r: Result<(), Exception>)
      requires Valid() && slot < acquired
      modifies this
      ensures Valid() && results == old(results)[slot := result]
      ensures Pending() == old(Pending()) && acquired == old(acquired)
      ensures isQueueingTurnOff == old(isQueueingTurnOff) && isDisposed == old(isDisposed)
      ensures r == if old(isDisposed) then Failure(ObjectDisposedException) else Success(())
    {
      results := results[slot := result];
      if isDisposed {
        return Failure(ObjectDisposedException);
      }
      return Success(());
    }

    /**
     * The body of `DequeResultsOnCompletion` from its first step, or from where the
     * consumer was woken up, until the enumeration ends or the consumer would wait. It takes
     * out exactly the pending slots that already hold results, from the head, yielding their
     * results in acquisition order; the enumeration ends exactly when acquisition is off
     * and nothing is left pending.
     */
    method DrainCompleted() returns (yielded: seq<R>, finished: bool)
      requires Valid() && !isDisposed
      modifies Repr()
      ensures Valid() && results == old(results) && acquired == old(acquired)
      ensures isQueueingTurnOff == old(isQueueingTurnOff) && isDisposed == old(isDisposed)
      ensures var k := CompletedPrefix(old(Pending()), results);
        Pending() == old(Pending())[k..] && yielded == ResultsOf(old(Pending())[..k], results)
      ensures finished <==> isQueueingTurnOff && CompletedPrefix(old(Pending()), results) == |old(Pending())|
    {
      ghost var ids := resultSlots.queue;
      ghost var k := CompletedPrefix(ids, results);
      var completed := results;
      var i := 0;
      yielded := [];
      while true
        invariant Valid() && !isDisposed && results == completed
        invariant acquired == old(acquired) && isQueueingTurnOff == old(isQueueingTurnOff)
        invariant 0 <= i <= k && resultSlots.queue == ids[i..]
        invariant yielded == ResultsOf(ids[..i], results)
        decreases |resultSlots.queue|
      {
        if !isQueueingTurnOff && |resultSlots.queue| == 0 {
          return yielded, false;
        }
        var outcome := resultSlots.TryDequeIfHeadMatched(Some((slot: nat) => slot in completed));
        var dequeued := outcome.value.0;
        if dequeued {
          var slot := outcome.value.1.value;
          YieldStep(ids, i, slot);
          yielded := yielded + [results[slot]];
          i := i + 1;
          delivered := delivered + 1;
        }
        var size := resultSlots.Size();
        if !(!isDisposed && (!isQueueingTurnOff || size > 0)) {
          return yielded, true;
        }
        if !dequeued {
          return yielded, false;
        }
      }
    }

    /** One result taken out: the yielded sequence grows by the head slot's result. */
    lemma YieldStep(ids: seq<nat>, i: int, slot: nat)
      requires 0 <= i < |ids| && slot == ids[i]
      requires forall j :: 0 <= j <= i ==> ids[j] in results
      ensures AllCompleted(ids[..i + 1], results)
      ensures ResultsOf(ids[..i + 1], results) == ResultsOf(ids[..i], results) + [results[slot]]
    {
      assert ids[..i + 1] == ids[..i] + [slot];
      ResultsOfAppend(ids[..i], slot, results);
    }

    /**
     * `DequeResultsOnCompletion` from its start: the disposal check as written refuses a
     * queue already turned off, although results may still be pending; otherwise the
     * completed results at the head in acquisition order, as `DrainCompleted` states.
     */
    method DequeResultsOnCompletion() returns (r: Result<(seq<R>, bool), Exception>)
      requires Valid()
      modifies Repr()
      ensures Valid() && results == old(results) && acquired == old(acquired)
      ensures isQueueingTurnOff == old(isQueueingTurnOff) && isDisposed == old(isDisposed)
      ensures r.Failure? <==> old(isQueueingTurnOff)
      ensures r.Failure? ==> r.error == InvalidOperationException && Pending() == old(Pending())
      ensures r.Success? ==> var k := CompletedPrefix(old(Pending()), results);
        Pending() == old(Pending())[k..] && r.value.0 == ResultsOf(old(Pending())[..k], results)
        && !r.value.1
    {
      var check := CheckDisposedAsWritten(isQueueingTurnOff, isDisposed);
      if check.Failure? {
        return Failure(check.error);
      }
      var yielded, finished := DrainCompleted();
      return Success((yielded, finished));
    }

    /** `Dispose`: turns acquisition off if it is not yet, then marks the queue and its slot queue disposed. */
    method Dispose()
      requires Valid()
      modifies Repr()
      ensures Valid() && isDisposed && isQueueingTurnOff
      ensures Pending() == old(Pending()) && results == old(results) && acquired == old(acquired)
    {
      if !isQueueingTurnOff {
        var _ := TurnOffAcquiringSlots();
      }
      isDisposed := true;
      resultSlots.Dispose();
    }
  }

  /**
   * A consumer that starts only after producers turned acquisition off is refused, although
   * the queue is not disposed and a result is still owed to it.
   */
  method LateConsumerRefused() returns (r: Result<(seq<int>, bool), Exception>, owed: seq<nat>)
    ensures r == Failure(InvalidOperationException)
    ensures owed == [0]
  {
    var queue := new BoundedResultsQueue<int>(1, 0);
    var slot := queue.AcquireFreeResultOrWait();
    var _ := queue.SetResult(slot.value, 7);
    var _ := queue.TurnOffAcquiringSlots();
    r := queue.DequeResultsOnCompletion();
    owed := queue.Pending();
  }

  /** The same consumer, with the check as its message says, receives the owed result and ends. */
  method LateConsumerServed() returns (yielded: seq<int>, finished: bool)
    ensures yielded == [7] && finished
  {
    var queue := new BoundedResultsQueue<int>(1, 0);
    var slot := queue.AcquireFreeResultOrWait();
    var _ := queue.SetResult(slot.value, 7);
    var _ := queue.TurnOffAcquiringSlots();
    var check := CheckDisposed(queue.isDisposed);
    assert check.Success?;
    yielded, finished := queue.DrainCompleted();
  }

  /**
   * A producer holding a slot acquired before `Dispose` still stores its result, then gets
   * `ObjectDisposedException` when it wakes the consumer.
   */
  method ProducerAfterDispose() returns (r: Result<(), Exception>, stored: Option<int>)
    ensures r == Failure(ObjectDisposedException)
    ensures stored == Some(7)
  {
    var queue := new BoundedResultsQueue<int>(1, 0);
    var slot := queue.AcquireFreeResultOrWait();
    queue.Dispose();
    r := queue.SetResult(slot.value, 7);
    stored := if slot.value in queue.results then Some(queue.results[slot.value]) else None;
  }
}
