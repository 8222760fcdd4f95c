/** flipper/core/semaphore.c.  Each method is what a thread does under the lock,
    from the moment it gets the lock to the return or to the wait; a run is any
    sequence of them, by any threads. */
module Semaphores {
  import opened Monitors

  class Semaphore {
    const max: nat
    var count: nat
    ghost var waiters: Waiters<nat>
    /** successful calls since the semaphore was made */
    ghost var initial: nat
    ghost var acquired: nat
    ghost var released: nat

    constructor (max: nat, initial: nat)
      requires 0 < max && initial <= max
      ensures Valid() && this.max == max && count == initial && waiters == Waiters(map[], map[])
    {
      this.max, count := max, initial;
      this.initial, acquired, released, waiters := initial, 0, 0, Waiters(map[], map[]);
    }

    /** The count never passes its bounds and balances the calls; and while somebody
        sleeps, every available count has a woken thread coming for it. */
    ghost predicate Valid()
      reads this
    {
      && count <= max && count + acquired == initial + released
      && waiters.Valid()
      && (waiters.asleep != map[] ==> count <= |waiters.woken|)
    }

    /** t calls acquire, or comes back to it from a wait. */
    ghost predicate Enters(t: Thread, timeout: nat)
      reads this
    {
      waiters.Has(t) ==> t in waiters.woken && waiters.woken[t] == timeout
    }

    method Acquire(t: Thread, timeout: nat) returns (r: Outcome)
      requires Valid() && Enters(t, timeout)
      modifies this
      ensures Valid()
      ensures r == if old(count) > 0 then Returns(Ok) else if timeout == 0 then Returns(ErrorTimeout) else Waits
      ensures count == if r == Returns(Ok) then old(count) - 1 else old(count)
      ensures acquired == (if r == Returns(Ok) then old(acquired) + 1 else old(acquired)) && released == old(released)
      ensures waiters == if r == Waits then old(waiters).Leave(t).Sleep(t, timeout) else old(waiters).Leave(t)
    {
      ghost var before := waiters;
      waiters := waiters.Leave(t);
      Left(before, t);
      if count == 0 {
        if timeout == 0 {
          return Returns(ErrorTimeout);
        }
        FallsAsleep(waiters, t, timeout);
        waiters := waiters.Sleep(t, timeout);
        return Waits;
      }
      count, acquired := count - 1, acquired + 1;
      return Returns(Ok);
    }

    method Release() returns (r: Outcome)
      requires Valid()
      modifies this
      ensures Valid()
      ensures r == if old(count) == max then Returns(ErrorResource) else Returns(Ok)
      ensures count == if r == Returns(Ok) then old(count) + 1 else old(count)
      ensures released == (if r == Returns(Ok) then old(released) + 1 else old(released)) && acquired == old(acquired)
      ensures r == Returns(Ok) ==> Signalled(old(waiters), waiters)
      ensures r != Returns(Ok) ==> waiters == old(waiters)
    {
      if count == max {
        return Returns(ErrorResource);
      }
      count, released := count + 1, released + 1;
      waiters := Signal(waiters);
      return Returns(Ok);
    }

    /** A timed wait ends; its thread has not been woken. */
    method TimeOut(t: Thread) returns (r: Outcome)
      requires Valid() && t in waiters.asleep && waiters.asleep[t] != WAIT_FOREVER
      modifies this
      ensures Valid() && r == Returns(ErrorTimeout) && waiters == old(waiters).Leave(t)
      ensures count == old(count) && acquired == old(acquired) && released == old(released)
    {
      GivesUp(waiters, t);
      waiters := waiters.Leave(t);
      return Returns(ErrorTimeout);
    }

    ghost method WakeSpuriously(t: Thread)
      requires Valid() && t in waiters.asleep
      modifies this
      ensures Valid() && waiters == old(waiters).Wake({t}) && count == old(count)
      ensures acquired == old(acquired) && released == old(released)
    {
      waiters.WakeFacts({t});
      waiters := waiters.Wake({t});
    }
  }

  /** Nobody sleeps on a count that nobody comes for. */
  lemma SleepersAreServed(s: Semaphore)
    requires s.Valid() && s.waiters.asleep != map[] && s.count > 0
    ensures s.count <= |s.waiters.woken| && exists t :: t in s.waiters.woken
  {
  }
}
