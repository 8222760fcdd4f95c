/** flipper/core/event_flag.c: 24 flags, waited for one by one or together.  Each
    method is what one thread does under the lock. */
module EventFlags {
  import opened Monitors
  import opened EventBits

  const INVALID_BITS: bv32 := 0xFF00_0000
  const WAIT_ALL: bv32 := 1
  const NO_CLEAR: bv32 := 2
  const FLAG_ERROR: bv32 := 0x8000_0000
  const ERROR_TIMEOUT: bv32 := 0xFFFF_FFFE
  const ERROR_PARAMETER: bv32 := 0xFFFF_FFFC

  datatype Request = Request(flags: bv32, options: bv32, timeout: nat)

  datatype Answer = Answer(value: bv32) | Sleeps

  predicate ValidFlags(flags: bv32) {
    flags & INVALID_BITS == 0
  }

  predicate IsSatisfied(current: bv32, flags: bv32, options: bv32) {
    if options & WAIT_ALL == WAIT_ALL then current & flags == flags else current & flags != 0
  }

  /** Clearing flags satisfies nobody. */
  lemma ClearingSatisfiesNobody(current: bv32, cleared: bv32, flags: bv32, options: bv32)
    requires !IsSatisfied(current, flags, options)
    ensures !IsSatisfied(current & !cleared, flags, options)
  {
    if options & WAIT_ALL == WAIT_ALL {
      AllMonotone(current, cleared, flags);
    } else {
      AnyMonotone(current, cleared, flags);
    }
  }

  lemma AllMonotone(current: bv32, cleared: bv32, flags: bv32)
    ensures (current & !cleared) & flags == flags ==> current & flags == flags
  {
  }

  lemma AnyMonotone(current: bv32, cleared: bv32, flags: bv32)
    ensures (current & !cleared) & flags != 0 ==> current & flags != 0
  {
  }

  /** What a granted wait returns is no error code: all of the requested flags or, if
      any will do, at least one of them and nothing else. */
  lemma GrantedValue(current: bv32, flags: bv32, options: bv32)
    requires ValidFlags(flags) && IsSatisfied(current, flags, options) && flags != 0
    ensures var value := current & flags;
            && value & FLAG_ERROR == 0 && value != 0 && value & flags == value
            && (options & WAIT_ALL == WAIT_ALL ==> value == flags)
  {
  }

  /** The flags that a granted wait leaves. */
  function AutoCleared(flags: bv32, r: Request): bv32 {
    if r.options & NO_CLEAR == 0 then flags & !r.flags else flags
  }

  predicate Granted(flags: bv32, waiters: Waiters<Request>, t: Thread, q: Request,
                    flags': bv32, waiters': Waiters<Request>, r: Answer)
  {
    r == Answer(flags & q.flags) && waiters' == waiters.Leave(t) && flags' == AutoCleared(flags, q)
  }

  predicate Delayed(flags: bv32, waiters: Waiters<Request>, t: Thread, q: Request,
                    flags': bv32, waiters': Waiters<Request>, r: Answer)
  {
    && flags' == flags
    && if q.timeout == 0 then r == Answer(ERROR_TIMEOUT) && waiters' == waiters.Leave(t)
       else r == Sleeps && waiters' == waiters.Leave(t).Sleep(t, q)
  }

  /** What a wait does once its condition holds, or while it does not. */
  predicate WaitOutcome(flags: bv32, waiters: Waiters<Request>, t: Thread, q: Request,
                        flags': bv32, waiters': Waiters<Request>, r: Answer)
  {
    if NotYet(flags, q) then Delayed(flags, waiters, t, q, flags', waiters', r)
    else Granted(flags, waiters, t, q, flags', waiters', r)
  }

  /** The condition of a wait in terms of the flags themselves: with WAIT_ALL every
      requested flag has to be up, otherwise some requested flag. */
  lemma ConditionMeans(current: bv32, flags: bv32, options: bv32, up: iset<bv32>, requested: iset<bv32>)
    requires FlagsOf(up, current) && FlagsOf(requested, flags)
    ensures IsSatisfied(current, flags, options) <==>
              if options & 1 == 1 then requested <= up else up * requested != iset{}
  {
    SetsCover(current, flags, up, requested);
    SetsMeet(current, flags, up, requested);
  }

  /** Setting and clearing flags in the same terms. */
  lemma ChangeMeans(flags: bv32, bits: bv32, up: iset<bv32>, given: iset<bv32>)
    requires FlagsOf(up, flags) && FlagsOf(given, bits)
    ensures FlagsOf(up + given, flags | bits) && FlagsOf(up - given, flags & !bits)
  {
    SetJoined(flags, bits, up, given);
    SetCleared(flags, bits, up, given);
  }

  /** A granted wait returns the requested flags that are up and, without NO_CLEAR, takes
      all requested flags down. */
  lemma GrantMeans(flags: bv32, bits: bv32, options: bv32, timeout: nat, up: iset<bv32>, requested: iset<bv32>)
    requires FlagsOf(up, flags) && FlagsOf(requested, bits)
    ensures FlagsOf(up * requested, flags & bits)
    ensures FlagsOf(if options & 2 == 0 then up - requested else up, AutoCleared(flags, Request(bits, options, timeout)))
  {
    SetShared(flags, bits, up, requested);
    SetCleared(flags, bits, up, requested);
  }

  /** A wait is granted exactly if its condition holds; otherwise it fails at once or
      sleeps, and leaves the flags as they are. */
  lemma WaitMeans(flags: bv32, waiters: Waiters<Request>, t: Thread, bits: bv32, options: bv32, timeout: nat,
                  flags': bv32, waiters': Waiters<Request>, r: Answer, up: iset<bv32>, requested: iset<bv32>)
    requires WaitOutcome(flags, waiters, t, Request(bits, options, timeout), flags', waiters', r)
    requires FlagsOf(up, flags) && FlagsOf(requested, bits)
    ensures if if options & 1 == 1 then requested <= up else up * requested != iset{} then
              && r.Answer? && FlagsOf(up * requested, r.value)
              && FlagsOf(if options & 2 == 0 then up - requested else up, flags')
              && waiters' == Waiters(waiters.asleep - {t}, waiters.woken - {t})
            else if timeout == 0 then
              r == Answer(0xFFFF_FFFE) && flags' == flags && waiters' == Waiters(waiters.asleep - {t}, waiters.woken - {t})
            else
              r == Sleeps && flags' == flags && t in waiters'.asleep
              && waiters'.asleep[t] == Request(bits, options, timeout)
  {
    ConditionMeans(flags, bits, options, up, requested);
    GrantMeans(flags, bits, options, timeout, up, requested);
  }

  class EventFlag {
    var flags: bv32
    ghost var waiters: Waiters<Request>

    constructor ()
      ensures Valid() && flags == 0 && waiters == Waiters(map[], map[])
    {
      flags, waiters := 0, Waiters(map[], map[]);
    }

    /** Nobody sleeps on a condition that holds. */
    ghost predicate Valid()
      reads this
    {
      && ValidFlags(flags) && waiters.Valid()
      && (forall t | t in waiters.asleep :: NotYet(flags, waiters.asleep[t]))
    }

    ghost predicate Enters(t: Thread, r: Request)
      reads this
    {
      waiters.Has(t) ==> t in waiters.woken && waiters.woken[t] == r
    }

    method Set(bits: bv32) returns (result: bv32)
      requires Valid()
      modifies this
      ensures Valid()
      ensures bits & 0xFF00_0000 != 0 ==> result == ERROR_PARAMETER && flags == old(flags) && waiters == old(waiters)
      ensures bits & 0xFF00_0000 == 0 ==> result == flags == old(flags) | bits && waiters == old(waiters).WakeAll()
    {
      if bits & INVALID_BITS != 0 {
        return ERROR_PARAMETER;
      }
      result := SetLocked(bits);
    }

    method SetLocked(bits: bv32) returns (result: bv32)
      requires Valid() && ValidFlags(bits)
      modifies this
      ensures Valid() && result == flags == old(flags) | bits && waiters == old(waiters).WakeAll()
    {
      WakeEverybody();
      result := Raise(bits);
    }

    ghost method WakeEverybody()
      requires Valid()
      modifies this`waiters
      ensures Valid() && waiters == old(waiters).WakeAll() && waiters.asleep == map[]
    {
      waiters.WakeAllFacts();
      waiters := waiters.WakeAll();
    }

    method Raise(bits: bv32) returns (result: bv32)
      requires Valid() && ValidFlags(bits) && waiters.asleep == map[]
      modifies this`flags
      ensures Valid() && result == flags == old(flags) | bits
    {
      JoinValid(flags, bits);
      flags := flags | bits;
      result := flags;
    }

    method Clear(bits: bv32) returns (result: bv32)
      requires Valid()
      modifies this
      ensures Valid() && waiters == old(waiters)
      ensures bits & 0xFF00_0000 != 0 ==> result == ERROR_PARAMETER && flags == old(flags)
      ensures bits & 0xFF00_0000 == 0 ==> result == flags == old(flags) & !bits
    {
      if bits & INVALID_BITS != 0 {
        return ERROR_PARAMETER;
      }
      result := ClearBits(bits);
    }

    method ClearBits(bits: bv32) returns (result: bv32)
      requires Valid()
      modifies this
      ensures Valid() && waiters == old(waiters) && result == flags == old(flags) & !bits
    {
      ClearedValid(flags, bits, waiters);
      flags := flags & !bits;
      result := flags;
    }

    method Wait(t: Thread, bits: bv32, options: bv32, timeout: nat) returns (r: Answer)
      requires Valid() && Enters(t, Request(bits, options, timeout))
      modifies this
      ensures Valid()
      ensures bits == 0 || bits & 0xFF00_0000 != 0 ==>
        r == Answer(ERROR_PARAMETER) && flags == old(flags) && waiters == old(waiters)
      ensures bits != 0 && bits & 0xFF00_0000 == 0 ==>
        WaitOutcome(old(flags), old(waiters), t, Request(bits, options, timeout), flags, waiters, r)
    {
      if bits == 0 || bits & INVALID_BITS != 0 {
        return Answer(ERROR_PARAMETER);
      }
      r := WaitLocked(t, bits, options, timeout);
    }

    method WaitLocked(t: Thread, bits: bv32, options: bv32, timeout: nat) returns (r: Answer)
      requires Valid() && Enters(t, Request(bits, options, timeout))
      modifies this
      ensures Valid()
      ensures WaitOutcome(old(flags), old(waiters), t, Request(bits, options, timeout), flags, waiters, r)
    {
      ghost var before := waiters;
      Arrive(t);
      r := WaitOnce(t, Request(bits, options, timeout), before);
    }

    method WaitOnce(t: Thread, q: Request, ghost before: Waiters<Request>) returns (r: Answer)
      requires Valid() && waiters == before.Leave(t) && !waiters.Has(t)
      modifies this
      ensures Valid() && WaitOutcome(old(flags), before, t, q, flags, waiters, r)
    {
      var notYet := NotYet(flags, q);
      if notYet {
        r := Delay(t, q, before);
      } else {
        r := Grant(t, q, before);
      }
    }

    method Delay(t: Thread, q: Request, ghost before: Waiters<Request>) returns (r: Answer)
      requires Valid() && waiters == before.Leave(t) && !waiters.Has(t) && NotYet(flags, q)
      modifies this
      ensures Valid() && Delayed(old(flags), before, t, q, flags, waiters, r)
    {
      if q.timeout == 0 {
        return Answer(ERROR_TIMEOUT);
      }
      GoToSleep(t, q);
      return Sleeps;
    }

    method Grant(t: Thread, q: Request, ghost before: Waiters<Request>) returns (r: Answer)
      requires Valid() && waiters == before.Leave(t)
      modifies this
      ensures Valid() && Granted(old(flags), before, t, q, flags, waiters, r)
    {
      r := Answer(flags & q.flags);
      AutoClear(q);
    }

    method AutoClear(q: Request)
      requires Valid()
      modifies this
      ensures Valid() && waiters == old(waiters) && flags == AutoCleared(old(flags), q)
    {
      var keep := q.options & NO_CLEAR != 0;
      if !keep {
        var _ := ClearBits(q.flags);
      }
    }

    ghost method Arrive(t: Thread)
      requires Valid() && (waiters.Has(t) ==> t in waiters.woken)
      modifies this
      ensures Valid() && flags == old(flags) && waiters == old(waiters).Leave(t) && !waiters.Has(t)
    {
      Left(waiters, t);
      waiters := waiters.Leave(t);
    }

    ghost method GoToSleep(t: Thread, q: Request)
      requires Valid() && !waiters.Has(t) && NotYet(flags, q)
      modifies this
      ensures Valid() && flags == old(flags) && waiters == old(waiters).Sleep(t, q)
    {
      FallsAsleep(waiters, t, q);
      waiters := waiters.Sleep(t, q);
    }

    /** A timed wait ends; its thread has not been woken. */
    method TimeOut(t: Thread) returns (r: Answer)
      requires Valid() && t in waiters.asleep && waiters.asleep[t].timeout != WAIT_FOREVER
      modifies this
      ensures Valid() && r == Answer(ERROR_TIMEOUT) && waiters == old(waiters).Leave(t) && flags == old(flags)
    {
      GivesUp(waiters, t);
      waiters := waiters.Leave(t);
      return Answer(ERROR_TIMEOUT);
    }

    ghost method WakeSpuriously(t: Thread)
      requires Valid() && t in waiters.asleep
      modifies this
      ensures Valid() && waiters == old(waiters).Wake({t}) && flags == old(flags)
    {
      waiters.WakeFacts({t});
      waiters := waiters.Wake({t});
    }
  }

  predicate NotYet(flags: bv32, r: Request) {
    !IsSatisfied(flags, r.flags, r.options)
  }

  lemma JoinValid(a: bv32, b: bv32)
    requires ValidFlags(a) && ValidFlags(b)
    ensures ValidFlags(a | b)
  {
  }

  lemma ClearedValid(flags: bv32, cleared: bv32, w: Waiters<Request>)
    requires ValidFlags(flags) && forall t | t in w.asleep :: NotYet(flags, w.asleep[t])
    ensures ValidFlags(flags & !cleared)
    ensures forall t | t in w.asleep :: NotYet(flags & !cleared, w.asleep[t])
  {
    forall t | t in w.asleep ensures NotYet(flags & !cleared, w.asleep[t]) {
      assert NotYet(flags, w.asleep[t]);
      ClearingSatisfiesNobody(flags, cleared, w.asleep[t].flags, w.asleep[t].options);
    }
  }

  /** Nobody sleeps on a condition that holds: a sleeper with WAIT_ALL misses a requested
      flag, any other sleeper misses all of them. */
  lemma SleeperMisses(event: EventFlag, t: Thread, bits: bv32, options: bv32, timeout: nat,
                      up: iset<bv32>, requested: iset<bv32>)
    requires event.Valid() && t in event.waiters.asleep
    requires event.waiters.asleep[t] == Request(bits, options, timeout)
    requires FlagsOf(up, event.flags) && FlagsOf(requested, bits)
    ensures if options & 1 == 1 then !(requested <= up) else up * requested == iset{}
  {
    assert NotYet(event.flags, event.waiters.asleep[t]);
    ConditionMeans(event.flags, bits, options, up, requested);
  }
}
