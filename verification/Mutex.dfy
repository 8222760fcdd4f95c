/** flipper/core/mutex.c: a mutex with an owner and a 32-bit recursion count.  Each
    method is what one thread does under the inner lock. */
module Mutexes {
  import opened Monitors

  const NO_OWNER: nat := 0
  const COUNT_RANGE: nat := 0x1_0000_0000

  function Held(held: map<Thread, nat>, t: Thread): nat {
    if t in held then held[t] else 0
  }

  /** Acquires minus releases agree with owner and count as far as 32 bits tell. */
  ghost predicate Balanced(held: map<Thread, nat>, owner: nat, lockCount: nat) {
    forall t: Thread :: Held(held, t) % COUNT_RANGE == if owner == t then lockCount else 0
  }

  ghost predicate AtMost(held: map<Thread, nat>, deepest: nat) {
    forall t: Thread :: Held(held, t) <= deepest
  }

  lemma OneMore(held: map<Thread, nat>, owner: nat, lockCount: nat, t: Thread, deepest: nat)
    requires Balanced(held, owner, lockCount) && AtMost(held, deepest) && (owner == t || owner == NO_OWNER)
    requires lockCount < COUNT_RANGE
    ensures var n := Held(held, t) + 1;
            && Balanced(held[t := n], t, ((if owner == t then lockCount else 0) + 1) % COUNT_RANGE)
            && AtMost(held[t := n], if n > deepest then n else deepest)
  {
    var now := held[t := Held(held, t) + 1];
    forall u: Thread
      ensures u != t ==> Held(now, u) % COUNT_RANGE == 0
      ensures Held(now, u) <= deepest || Held(now, u) == Held(held, t) + 1
    {
      assert Held(now, u) == if u == t then Held(held, t) + 1 else Held(held, u);
    }
    assert Held(held, t) % COUNT_RANGE == if owner == t then lockCount else 0;
  }

  lemma OneLess(held: map<Thread, nat>, t: Thread, lockCount: nat, deepest: nat)
    requires Balanced(held, t, lockCount) && AtMost(held, deepest) && 0 < lockCount < COUNT_RANGE
    ensures Held(held, t) > 0
    ensures var n := Held(held, t) - 1;
            && Balanced(held[t := n], if lockCount == 1 then NO_OWNER else t, lockCount - 1)
            && AtMost(held[t := n], deepest)
  {
    assert Held(held, t) % COUNT_RANGE == lockCount;
    var now := held[t := Held(held, t) - 1];
    forall u: Thread
      ensures u != t ==> Held(now, u) % COUNT_RANGE == 0
      ensures Held(now, u) <= deepest
    {
      assert Held(now, u) == if u == t then Held(held, t) - 1 else Held(held, u);
    }
  }

  class Mutex {
    const recursive: bool
    var owner: nat
    var lockCount: nat
    ghost var waiters: Waiters<nat>
    /** successful acquires minus successful releases of each thread */
    ghost var held: map<Thread, nat>
    /** the deepest nesting there has been */
    ghost var deepest: nat

    constructor (recursive: bool)
      ensures Valid() && this.recursive == recursive && owner == NO_OWNER && held == map[] && deepest == 0
    {
      this.recursive, owner, lockCount := recursive, NO_OWNER, 0;
      waiters, held, deepest := Waiters(map[], map[]), map[], 0;
    }

    /** The count is the owner's nesting as far as 32 bits tell, and everybody else
        holds nothing. */
    ghost predicate Consistent()
      reads this
    {
      && lockCount < COUNT_RANGE && Balanced(held, owner, lockCount) && AtMost(held, deepest)
      && waiters.Valid() && (owner != NO_OWNER ==> !waiters.Has(owner))
    }

    /** ... and a free mutex with a sleeper has a woken thread on its way. */
    ghost predicate Valid()
      reads this
    {
      Consistent() && (owner == NO_OWNER && waiters.asleep != map[] ==> waiters.woken != map[])
    }

    ghost predicate Enters(t: Thread, timeout: nat)
      reads this
    {
      waiters.Has(t) ==> t in waiters.woken && waiters.woken[t] == timeout
    }

    /** The owner holds as often as the count says and everybody else not at all,
        exactly as long as nobody is nested 2^32 times. */
    lemma OneOwner()
      requires Valid()
      ensures (forall t: Thread :: Held(held, t) == if owner == t then lockCount else 0)
              <==> (forall t: Thread :: Held(held, t) < COUNT_RANGE)
      ensures deepest < COUNT_RANGE ==> forall t: Thread :: Held(held, t) < COUNT_RANGE
    {
      assert deepest < COUNT_RANGE ==> forall t: Thread :: Held(held, t) <= deepest;
      forall t: Thread
        ensures Held(held, t) < COUNT_RANGE <==> Held(held, t) == if owner == t then lockCount else 0
      {
        assert Held(held, t) % COUNT_RANGE == if owner == t then lockCount else 0;
      }
    }

    method Acquire(t: Thread, timeout: nat) returns (r: Outcome)
      requires Valid() && Enters(t, timeout)
      modifies this
      ensures Valid()
      ensures r == if old(owner) == t then (if recursive then Returns(Ok) else Returns(ErrorResource))
                   else if old(owner) == NO_OWNER then Returns(Ok)
                   else if timeout == 0 then Returns(ErrorTimeout) else Waits
      ensures owner == (if r == Returns(Ok) then t else old(owner))
      ensures held == (if r == Returns(Ok) then old(held)[t := Held(old(held), t) + 1] else old(held))
      ensures deepest == if r == Returns(Ok) && Held(held, t) > old(deepest) then Held(held, t) else old(deepest)
      ensures waiters == if r == Waits then old(waiters).Leave(t).Sleep(t, timeout) else old(waiters).Leave(t)
    {
      Left(waiters, t);
      waiters := waiters.Leave(t);
      if owner == t {
        if !recursive {
          return Returns(ErrorResource);
        }
        Take(t, (lockCount + 1) % COUNT_RANGE);
        return Returns(Ok);
      }
      if owner != NO_OWNER {
        if timeout == 0 {
          return Returns(ErrorTimeout);
        }
        FallsAsleep(waiters, t, timeout);
        waiters := waiters.Sleep(t, timeout);
        return Waits;
      }
      Take(t, 1);
      return Returns(Ok);
    }

    /** t becomes or stays the owner, one level deeper. */
    method Take(t: Thread, count: nat)
      requires Consistent() && !waiters.Has(t) && (owner == t || owner == NO_OWNER)
      requires count == ((if owner == t then lockCount else 0) + 1) % COUNT_RANGE
      modifies this
      ensures Valid() && owner == t && lockCount == count && waiters == old(waiters)
      ensures held == old(held)[t := Held(old(held), t) + 1]
      ensures deepest == if Held(held, t) > old(deepest) then Held(held, t) else old(deepest)
    {
      OneMore(held, owner, lockCount, t, deepest);
      owner, lockCount := t, count;
      held := held[t := Held(held, t) + 1];
      deepest := if Held(held, t) > deepest then Held(held, t) else deepest;
    }

    method Release(t: Thread) returns (r: Outcome)
      requires Valid() && !waiters.Has(t)
      modifies this
      ensures Valid() && deepest == old(deepest)
      ensures r == if old(owner) == t && old(lockCount) > 0 then Returns(Ok) else Returns(ErrorResource)
      ensures r == Returns(Ok) ==> Held(old(held), t) > 0 && held == old(held)[t := Held(old(held), t) - 1]
      ensures r == Returns(Ok) ==> owner == if old(lockCount) == 1 then NO_OWNER else t
      ensures r == Returns(Ok) && owner == NO_OWNER ==> Signalled(old(waiters), waiters)
      ensures r != Returns(Ok) || owner != NO_OWNER ==> waiters == old(waiters)
      ensures r != Returns(Ok) ==> held == old(held) && owner == old(owner) && lockCount == old(lockCount)
    {
      if owner != t || lockCount == 0 {
        return Returns(ErrorResource);
      }
      OneLess(held, t, lockCount, deepest);
      held := held[t := Held(held, t) - 1];
      lockCount := lockCount - 1;
      if lockCount == 0 {
        owner := NO_OWNER;
        waiters := Signal(waiters);
      }
      return Returns(Ok);
    }

    /** A timed wait ends; its thread has not been woken. */
    method TimeOut(t: Thread) returns (r: Outcome)
      requires Valid() && t in waiters.asleep && waiters.asleep[t] != WAIT_FOREVER
      modifies this
      ensures Valid() && r == Returns(ErrorTimeout) && waiters == old(waiters).Leave(t)
      ensures owner == old(owner) && lockCount == old(lockCount) && held == old(held) && deepest == old(deepest)
    {
      GivesUp(waiters, t);
      waiters := waiters.Leave(t);
      return Returns(ErrorTimeout);
    }

    ghost method WakeSpuriously(t: Thread)
      requires Valid() && t in waiters.asleep
      modifies this
      ensures Valid() && waiters == old(waiters).Wake({t})
      ensures owner == old(owner) && lockCount == old(lockCount) && held == old(held) && deepest == old(deepest)
    {
      waiters.WakeFacts({t});
      waiters := waiters.Wake({t});
    }
  }

  /** Nobody sleeps on a free mutex that nobody comes for, and no owner waits for it. */
  lemma SleepersAreServed(m: Mutex)
    requires m.Valid() && m.waiters.asleep != map[]
    ensures m.owner == 0 ==> exists t :: t in m.waiters.woken
    ensures m.owner != 0 ==> m.owner !in m.waiters.asleep && m.owner !in m.waiters.woken
  {
  }
}
