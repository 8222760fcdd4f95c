/** The event flag on which a client of the blocking open waits for a close
    notification: what `OpenProtocol` keeps as one boolean per client. */
module CloseFlags {
  import opened Monitors
  import opened EventFlags

  const FILE_CLOSE: bv32 := 1
  const WAIT_ANY: bv32 := 0

  predicate Raised(flags: bv32) {
    flags & FILE_CLOSE != 0
  }

  /** A new flag is not raised; setting raises it, a granted wait lowers it, and it is
      the condition of the wait. */
  lemma RaisedIsCondition(flags: bv32)
    ensures !Raised(0) && Raised(flags | FILE_CLOSE) && !Raised(flags & !FILE_CLOSE)
    ensures IsSatisfied(flags, FILE_CLOSE, WAIT_ANY) <==> Raised(flags)
    ensures ValidFlags(FILE_CLOSE) && WAIT_ANY & NO_CLEAR == 0
  {
  }

  lemma LoweredByWait(flags: bv32)
    ensures NotYet(flags, AwaitRequest()) <==> !Raised(flags)
    ensures AutoCleared(flags, AwaitRequest()) == flags & !FILE_CLOSE
  {
    RaisedIsCondition(flags);
  }

  function AwaitRequest(): Request {
    Request(FILE_CLOSE, WAIT_ANY, WAIT_FOREVER)
  }

  method Allocate() returns (event: EventFlag)
    ensures fresh(event) && event.Valid() && !Raised(event.flags)
  {
    event := new EventFlag();
    RaisedIsCondition(0);
  }

  /** `storage_file_close_callback`: the protocol's notify step. */
  method CloseCallback(event: EventFlag)
    requires event.Valid()
    modifies event
    ensures event.Valid() && Raised(event.flags) && event.waiters.asleep == map[]
  {
    RaisedIsCondition(event.flags);
    var _ := event.Set(FILE_CLOSE);
  }

  lemma AwaitOutcome(flags: bv32, waiters: Waiters<Request>, t: Thread, q: Request,
                     flags': bv32, waiters': Waiters<Request>, r: Answer)
    requires WaitOutcome(flags, waiters, t, q, flags', waiters', r) && q.timeout > 0
    ensures r.Answer? <==> !NotYet(flags, q)
    ensures r.Answer? ==> flags' == AutoCleared(flags, q)
    ensures r.Sleeps? ==> flags' == flags && t in waiters'.asleep
  {
  }

  /** The wait of the open loop: the protocol's retry step exactly if the flag is
      raised, and it is lowered then; otherwise the client sleeps. */
  method AwaitClose(event: EventFlag, t: Thread) returns (r: Answer)
    requires event.Valid() && event.Enters(t, AwaitRequest())
    modifies event
    ensures event.Valid()
    ensures r.Answer? <==> Raised(old(event.flags))
    ensures !Raised(event.flags)
    ensures r.Sleeps? ==> t in event.waiters.asleep
  {
    ghost var flags, waiters := event.flags, event.waiters;
    RaisedIsCondition(flags);
    LoweredByWait(flags);
    r := event.Wait(t, FILE_CLOSE, WAIT_ANY, WAIT_FOREVER);
    AwaitOutcome(flags, waiters, t, AwaitRequest(), event.flags, event.waiters, r);
  }

  /** A client never sleeps while its flag is raised. */
  lemma NobodySleepsRaised(event: EventFlag, t: Thread)
    requires event.Valid() && t in event.waiters.asleep
    requires event.waiters.asleep[t] == AwaitRequest()
    ensures !Raised(event.flags)
  {
    RaisedIsCondition(event.flags);
  }
}
