/**
 * The counting limiter the queues block on, as a sequential state machine. A caller that
 * would block on the monitor either meets a precondition or, where the source waits only
 * once, sees what other threads did during the wait as parameters.
 */
module Limiters {
  import opened Binary
  import opened Wrappers

  /** `int.MaxValue`, the default maximum. */
  const IntMaxValue: int := 0x7FFF_FFFF

  /**
   * The release step as the source writes it (`Math.Min(maxValue, oldFree + count)` and
   * `newfree - oldFree`, both in unchecked 32-bit arithmetic): whether the release is
   * accepted and the counter it would install.
   */
  function ReleaseStepAsWritten(oldFree: int, maxValue: int, count: int): (r: (bool, int))
    requires IsInt32(oldFree) && oldFree <= maxValue <= IntMaxValue && 0 < count <= IntMaxValue
    ensures IsInt32(r.1) && r.1 <= maxValue
    ensures oldFree + count <= maxValue ==> r == (true, oldFree + count)
    ensures 0 <= oldFree && oldFree + count <= IntMaxValue && oldFree + count > maxValue ==> !r.0
  {
    var sum := WrapInt32(oldFree + count);
    var newFree := if maxValue < sum then maxValue else sum;
    var newCount := WrapInt32(newFree - oldFree);
    (count == newCount, newFree)
  }

  /**
   * With the default maximum, releasing `int.MaxValue` units into a counter of 5 passes the
   * check, because both the sum and the difference wrap around, and would install a
   * negative counter.
   */
  lemma ReleaseStepOverflows()
    ensures ReleaseStepAsWritten(5, IntMaxValue, IntMaxValue) == (true, 5 + IntMaxValue - TwoPow32)
    ensures 5 + IntMaxValue - TwoPow32 < 0
  {
  }

  /**
   * The release step as evidently intended: accepted exactly when the counter plus
   * `count` stays within the maximum, computed without overflow.
   */
  function ReleaseStep(oldFree: int, maxValue: int, count: int): (r: (bool, int))
    requires 0 <= oldFree <= maxValue <= IntMaxValue && 0 < count <= IntMaxValue
    ensures r.0 <==> oldFree + count <= maxValue
    ensures r.0 ==> r.1 == oldFree + count
    ensures !r.0 ==> r.1 == oldFree
    ensures 0 <= r.1 <= maxValue
  {
    if count > maxValue - oldFree then (false, oldFree) else (true, oldFree + count)
  }

  /** The two steps agree whenever the sum fits in 32 bits. */
  lemma ReleaseStepAgreesWithoutOverflow(oldFree: int, maxValue: int, count: int)
    requires 0 <= oldFree <= maxValue <= IntMaxValue && 0 < count <= IntMaxValue
    requires oldFree + count <= IntMaxValue
    ensures ReleaseStepAsWritten(oldFree, maxValue, count).0 == ReleaseStep(oldFree, maxValue, count).0
  {
  }

  class Limiter {
    /** `free`: the units callers of `WaitFree` may still take. */
    var free: int
    /** `maxValue`. */
    const maxValue: int
    /** `releasedForever`: once set, waiting never blocks and the counter stays at the maximum. */
    var releasedForever: bool

    /**
     * The counter is a 32-bit number no greater than the maximum, and sits at the maximum
     * once released forever. A release that overflows leaves it negative.
     */
    predicate Valid()
      reads this
    {
      1 <= maxValue <= IntMaxValue && IsInt32(free) && free <= maxValue && (releasedForever ==> free == maxValue)
    }

    /** The constructor, for arguments it accepts. */
    constructor (free: int, maxValue: int)
      requires 0 <= free <= maxValue <= IntMaxValue && 1 <= maxValue
      ensures Valid() && this.free == free && this.maxValue == maxValue && !releasedForever
    {
      this.free := free;
      this.maxValue := maxValue;
      releasedForever := false;
    }

    /** The constructor with its checks: a negative counter, a maximum below 1 or a counter above it throw. */
    static method Create(free: int, maxValue: int) returns (r: Result<Limiter, Exception>)
      requires IsInt32(free) && IsInt32(maxValue)
      ensures r.Success? <==> 0 <= free <= maxValue && 1 <= maxValue
      ensures r.Failure? ==> r.error == ArgumentException
      ensures r.Success? ==> fresh(r.value) && r.value.Valid()
      ensures r.Success? ==> r.value.free == free && r.value.maxValue == maxValue && !r.value.releasedForever
    {
      if free < 0 || maxValue < 1 || free > maxValue {
        return Failure(ArgumentException);
      }
      var l := new Limiter(free, maxValue);
      return Success(l);
    }

    /**
     * `TryRelease(count, out result)`: a count that is not positive throws; a limiter
     * released forever or at its maximum refuses; otherwise the release step as written
     * decides, in 32-bit arithmetic. The reported number is the counter before the call,
     * and a refused release changes nothing. While the sum fits in 32 bits, a release is
     * accepted exactly when it keeps the counter within the maximum.
     */
    method TryRelease(count: int) returns (r: Result<(bool, int), Exception>)
      requires Valid() && IsInt32(count)
      modifies this
      ensures Valid() && releasedForever == old(releasedForever)
      ensures count <= 0 ==> r == Failure(ArgumentException) && free == old(free)
      ensures count > 0 ==> r.Success? && r.value.1 == old(free)
      ensures count > 0 ==>
        (r.value.0 <==> !old(releasedForever) && old(free) != maxValue && ReleaseStepAsWritten(old(free), maxValue, count).0)
      ensures r.Success? && r.value.0 ==> free == ReleaseStepAsWritten(old(free), maxValue, count).1
      ensures !(r.Success? && r.value.0) ==> free == old(free)
      ensures count > 0 && 0 <= old(free) && old(free) + count <= IntMaxValue ==>
        (r.value.0 <==> !old(releasedForever) && old(free) + count <= maxValue)
        && (r.value.0 ==> free == old(free) + count)
    {
      if count <= 0 {
        return Failure(ArgumentException);
      }
      var currentFree := free;
      if releasedForever || currentFree == maxValue {
        return Success((false, currentFree));
      }
      var oldFree := free;
      var (accepted, newFree) := ReleaseStepAsWritten(oldFree, maxValue, count);
      if !accepted {
        return Success((false, oldFree));
      }
      free := newFree;
      return Success((true, oldFree));
    }

    /**
     * `TryRelease(out result)`: releases one unit. It is accepted exactly when the limiter
     * is not released forever and the counter is below the maximum, which then grows by one.
     */
    method TryReleaseOne() returns (r: (bool, int))
      requires Valid()
      modifies this
      ensures Valid() && releasedForever == old(releasedForever)
      ensures r.1 == old(free)
      ensures r.0 <==> !old(releasedForever) && old(free) < maxValue
      ensures r.0 ==> free == old(free) + 1
      ensures !r.0 ==> free == old(free)
    {
      var result := TryRelease(1);
      r := result.value;
    }

    /** `ReleaseForever`: the counter goes to the maximum for good; a second call changes nothing. */
    method ReleaseForever()
      requires Valid()
      modifies this
      ensures Valid() && releasedForever && free == maxValue
      ensures old(releasedForever) ==> free == old(free)
    {
      if releasedForever {
        return;
      }
      free := maxValue;
      releasedForever := true;
    }

    /**
     * `WaitFree`: takes one unit. Released forever, it takes nothing. With the counter at
     * 0 the caller waits once on the monitor; `wokenFree` and `wokenReleased` are the
     * counter and flag other threads left when it wakes, and a caller woken while the
     * counter is still 0 returns without taking a unit. The reported number is the
     * counter afterwards.
     */
    method WaitFree(wokenFree: int, wokenReleased: bool) returns (counter: int)
      requires Valid()
      requires IsInt32(wokenFree) && wokenFree <= maxValue && (wokenReleased ==> wokenFree == maxValue)
      modifies this
      ensures Valid() && counter == free
      ensures old(releasedForever) ==> releasedForever && free == old(free)
      ensures !old(releasedForever) && old(free) > 0 ==> !releasedForever && free == old(free) - 1
      ensures !old(releasedForever) && old(free) < 0 ==> !releasedForever && free == old(free)
      ensures !old(releasedForever) && old(free) == 0 ==>
        releasedForever == wokenReleased
        && free == (if !wokenReleased && wokenFree > 0 then wokenFree - 1 else wokenFree)
    {
      if releasedForever {
        return free;
      }
      var currentFree := free;
      if currentFree == 0 {
        // Monitor.Wait: other threads run until this caller is woken.
        free := wokenFree;
        releasedForever := wokenReleased;
        currentFree := free;
      }
      if releasedForever {
        return free;
      }
      if currentFree > 0 {
        currentFree := currentFree - 1;
        free := currentFree;
        return currentFree;
      }
      return currentFree;
    }
  }

  /**
   * `new Limiter(5).TryRelease(int.MaxValue)`: the release is accepted, reports the counter
   * 5 it found, and leaves the limiter with a negative counter.
   */
  method OverflowingRelease() returns (r: Result<(bool, int), Exception>, counter: int)
    ensures r == Success((true, 5)) && counter == 5 + IntMaxValue - TwoPow32 && counter < 0
  {
    var limiter := new Limiter(5, IntMaxValue);
    ReleaseStepOverflows();
    r := limiter.TryRelease(IntMaxValue);
    counter := limiter.free;
  }
}
