/** flipper/core/message_queue.c: a bounded queue in a ring buffer, with one
    condition variable for readers and one for writers.  Each method is what one
    thread does under the lock. */
module MessageQueues {
  import opened Monitors

  datatype PutCall<T> = PutCall(msg: T, timeout: nat)

  datatype Received<T> = Received(msg: T) | Failed(status: Status) | Sleeps

  /** The place i positions after head. */
  function Slot(head: nat, i: nat, capacity: nat): int {
    if head + i < capacity then head + i else head + i - capacity
  }

  lemma NextSlot(head: nat, i: nat, capacity: nat)
    requires head < capacity && i < capacity
    ensures (Slot(head, i, capacity) + 1) % capacity == Slot(head, i + 1, capacity)
  {
    WrapsAtEnd(Slot(head, i, capacity) + 1, capacity);
  }

  lemma WrapsAtEnd(place: nat, capacity: nat)
    requires 0 < place <= capacity
    ensures place % capacity == if place == capacity then 0 else place
  {
  }

  /** While somebody sleeps, each of the n things waited for has a woken thread
      coming for it. */
  ghost predicate Served<C>(w: Waiters<C>, n: int) {
    w.Valid() && (w.asleep != map[] ==> n <= |w.woken|)
  }

  lemma SignalServes<C>(w: Waiters<C>, n: int, v: Waiters<C>)
    requires Served(w, n) && Signalled(w, v)
    ensures Served(v, n + 1)
  {
    if w.asleep != map[] && v.asleep != map[] {
      assert n <= |w.woken|;
    }
  }

  lemma LeaveServes<C>(w: Waiters<C>, n: int, t: Thread)
    requires Served(w, n) && (w.Has(t) ==> t in w.woken)
    ensures Served(w.Leave(t), n - 1) && !w.Leave(t).Has(t)
    ensures n <= 0 ==> Served(w.Leave(t), n)
  {
    Left(w, t);
  }

  lemma SleepServes<C>(w: Waiters<C>, t: Thread, c: C)
    requires Served(w, 0) && (w.Has(t) ==> t in w.woken)
    ensures Served(w.Leave(t).Sleep(t, c), 0)
  {
    Left(w, t);
    FallsAsleep(w.Leave(t), t, c);
  }

  class MessageQueue<T(0)> {
    const capacity: nat
    const buffer: array<T>
    var count: nat
    var head: nat
    var tail: nat
    /** the messages in the queue, oldest first */
    ghost var contents: seq<T>
    /** the messages put, and those got, since the last reset */
    ghost var accepted: seq<T>
    ghost var delivered: seq<T>
    ghost var readers: Waiters<nat>
    ghost var writers: Waiters<PutCall<T>>

    constructor (capacity: nat)
      ensures Valid() && contents == [] && this.capacity == capacity && fresh(buffer)
    {
      this.capacity, buffer := capacity, new T[capacity];
      count, head, tail, contents, accepted, delivered := 0, 0, 0, [], [], [];
      readers, writers := Waiters(map[], map[]), Waiters(map[], map[]);
    }

    /** The ring holds the contents. */
    ghost predicate Ring()
      reads this, buffer
    {
      && buffer.Length == capacity && |contents| == count <= capacity
      && (if capacity == 0 then head == tail == 0 else head < capacity && tail == Slot(head, count, capacity))
      && forall i | 0 <= i < count :: buffer[Slot(head, i, capacity)] == contents[i]
    }

    /** What was put and not yet got is in the queue, in order.  While a reader
        sleeps, every message has a woken reader coming for it; while a writer
        sleeps, every free place has a woken writer coming for it. */
    ghost predicate Valid()
      reads this, buffer
    {
      && Ring() && accepted == delivered + contents
      && Served(readers, count) && Served(writers, capacity - count)
    }

    method Store(msg: T)
      requires Ring() && count < capacity
      modifies this`count, this`tail, this`contents, buffer
      ensures Ring() && contents == old(contents) + [msg]
    {
      NextSlot(head, count, capacity);
      buffer[tail] := msg;
      tail := (tail + 1) % capacity;
      count := count + 1;
      contents := contents + [msg];
    }

    method Take() returns (msg: T)
      requires Ring() && count > 0
      modifies this`count, this`head, this`contents
      ensures Ring() && old(contents) == [msg] + contents
    {
      NextSlot(head, 0, capacity);
      msg := buffer[head];
      head := (head + 1) % capacity;
      count := count - 1;
      contents := contents[1..];
    }

    method Put(t: Thread, msg: T, timeout: nat) returns (r: Outcome)
      requires Valid() && (writers.Has(t) ==> t in writers.woken && writers.woken[t] == PutCall(msg, timeout))
      modifies this, buffer
      ensures Valid() && delivered == old(delivered)
      ensures old(|contents| < capacity) ==>
        && r == Returns(Ok) && contents == old(contents) + [msg] && accepted == old(accepted) + [msg]
        && writers == old(writers).Leave(t) && Signalled(old(readers), readers)
      ensures old(|contents| == capacity) ==>
        && contents == old(contents) && accepted == old(accepted) && readers == old(readers)
        && (timeout == 0 ==> r == Returns(ErrorTimeout) && writers == old(writers).Leave(t))
        && (timeout != 0 ==> r == Waits && writers == old(writers).Leave(t).Sleep(t, PutCall(msg, timeout)))
    {
      if count == capacity {
        if timeout == 0 {
          WriterLeaves(t);
          return Returns(ErrorTimeout);
        }
        WriterSleeps(t, PutCall(msg, timeout));
        return Waits;
      }
      Store(msg);
      MessagePut(t, msg);
      return Returns(Ok);
    }

    ghost method WriterLeaves(t: Thread)
      requires Valid() && count == capacity && (writers.Has(t) ==> t in writers.woken)
      modifies this`writers
      ensures Valid() && writers == old(writers).Leave(t)
    {
      LeaveServes(writers, 0, t);
      writers := writers.Leave(t);
    }

    ghost method WriterSleeps(t: Thread, c: PutCall<T>)
      requires Valid() && count == capacity && (writers.Has(t) ==> t in writers.woken)
      modifies this`writers
      ensures Valid() && writers == old(writers).Leave(t).Sleep(t, c)
    {
      SleepServes(writers, t, c);
      writers := writers.Leave(t).Sleep(t, c);
    }

    /** The message in the ring is accepted, and a reader is signalled. */
    ghost method MessagePut(t: Thread, msg: T)
      requires Ring() && accepted + [msg] == delivered + contents && (writers.Has(t) ==> t in writers.woken)
      requires Served(readers, count - 1) && Served(writers, capacity - count + 1)
      modifies this`accepted, this`readers, this`writers
      ensures Valid() && accepted == old(accepted) + [msg]
      ensures writers == old(writers).Leave(t) && Signalled(old(readers), readers)
    {
      accepted := accepted + [msg];
      LeaveServes(writers, capacity - count + 1, t);
      writers := writers.Leave(t);
      ghost var before := readers;
      readers := Signal(readers);
      SignalServes(before, count - 1, readers);
    }

    method Get(t: Thread, timeout: nat) returns (r: Received<T>)
      requires Valid() && (readers.Has(t) ==> t in readers.woken && readers.woken[t] == timeout)
      modifies this, buffer
      ensures Valid() && accepted == old(accepted)
      ensures old(contents != []) ==>
        && r.Received? && old(contents) == [r.msg] + contents && delivered == old(delivered) + [r.msg]
        && readers == old(readers).Leave(t) && Signalled(old(writers), writers)
      ensures old(contents == []) ==>
        && contents == [] && delivered == old(delivered) && writers == old(writers)
        && (timeout == 0 ==> r == Failed(ErrorTimeout) && readers == old(readers).Leave(t))
        && (timeout != 0 ==> r == Sleeps && readers == old(readers).Leave(t).Sleep(t, timeout))
    {
      if count == 0 {
        if timeout == 0 {
          ReaderLeaves(t);
          return Failed(ErrorTimeout);
        }
        ReaderSleeps(t, timeout);
        return Sleeps;
      }
      var msg := Take();
      MessageGot(t, msg);
      return Received(msg);
    }

    ghost method ReaderLeaves(t: Thread)
      requires Valid() && count == 0 && (readers.Has(t) ==> t in readers.woken)
      modifies this`readers
      ensures Valid() && readers == old(readers).Leave(t)
    {
      LeaveServes(readers, 0, t);
      readers := readers.Leave(t);
    }

    ghost method ReaderSleeps(t: Thread, timeout: nat)
      requires Valid() && count == 0 && (readers.Has(t) ==> t in readers.woken)
      modifies this`readers
      ensures Valid() && readers == old(readers).Leave(t).Sleep(t, timeout)
    {
      SleepServes(readers, t, timeout);
      readers := readers.Leave(t).Sleep(t, timeout);
    }

    /** The message out of the ring is delivered, and a writer is signalled. */
    ghost method MessageGot(t: Thread, msg: T)
      requires Ring() && accepted == delivered + [msg] + contents && (readers.Has(t) ==> t in readers.woken)
      requires Served(readers, count + 1) && Served(writers, capacity - count - 1)
      modifies this`delivered, this`readers, this`writers
      ensures Valid() && delivered == old(delivered) + [msg]
      ensures readers == old(readers).Leave(t) && Signalled(old(writers), writers)
    {
      delivered := delivered + [msg];
      LeaveServes(readers, count + 1, t);
      readers := readers.Leave(t);
      ghost var before := writers;
      writers := Signal(writers);
      SignalServes(before, capacity - count - 1, writers);
    }

    /** A timed wait ends; its thread has not been woken. */
    method TimeOutPut(t: Thread) returns (r: Outcome)
      requires Valid() && t in writers.asleep && writers.asleep[t].timeout != WAIT_FOREVER
      modifies this
      ensures Valid() && r == Returns(ErrorTimeout) && writers == old(writers).Leave(t) && readers == old(readers)
      ensures contents == old(contents) && accepted == old(accepted) && delivered == old(delivered)
    {
      GivesUp(writers, t);
      writers := writers.Leave(t);
      return Returns(ErrorTimeout);
    }

    method TimeOutGet(t: Thread) returns (r: Received<T>)
      requires Valid() && t in readers.asleep && readers.asleep[t] != WAIT_FOREVER
      modifies this
      ensures Valid() && r == Failed(ErrorTimeout) && readers == old(readers).Leave(t) && writers == old(writers)
      ensures contents == old(contents) && accepted == old(accepted) && delivered == old(delivered)
    {
      GivesUp(readers, t);
      readers := readers.Leave(t);
      return Failed(ErrorTimeout);
    }

    ghost method WakeWriterSpuriously(t: Thread)
      requires Valid() && t in writers.asleep
      modifies this
      ensures Valid() && writers == old(writers).Wake({t}) && readers == old(readers)
      ensures contents == old(contents) && accepted == old(accepted) && delivered == old(delivered)
    {
      writers.WakeFacts({t});
      writers := writers.Wake({t});
    }

    ghost method WakeReaderSpuriously(t: Thread)
      requires Valid() && t in readers.asleep
      modifies this
      ensures Valid() && readers == old(readers).Wake({t}) && writers == old(writers)
      ensures contents == old(contents) && accepted == old(accepted) && delivered == old(delivered)
    {
      readers.WakeFacts({t});
      readers := readers.Wake({t});
    }

    /** Empties the queue and wakes the writers, for whom there is room now. */
    method Reset()
      requires Valid()
      modifies this
      ensures Valid() && contents == accepted == delivered == []
      ensures writers == old(writers).WakeAll() && readers == old(readers)
    {
      count, head, tail := 0, 0, 0;
      contents, accepted, delivered := [], [], [];
      writers.WakeAllFacts();
      writers := writers.WakeAll();
    }

    method GetCount() returns (n: nat)
      requires Valid()
      ensures n == |contents|
    {
      n := count;
    }

    method GetSpace() returns (n: nat)
      requires Valid()
      ensures n == capacity - |contents|
    {
      var used := GetCount();
      n := capacity - used;
    }
  }

  /** First in, first out: the n-th message got since the last reset is the n-th one
      put. */
  lemma FirstInFirstOut<T(0)>(q: MessageQueue<T>, n: nat)
    requires q.Valid() && n < |q.delivered|
    ensures n < |q.accepted| && q.delivered[n] == q.accepted[n]
  {
  }

  /** Nobody sleeps on a message, or a free place, that nobody comes for. */
  lemma SleepersAreServed<T(0)>(q: MessageQueue<T>)
    requires q.Valid()
    ensures q.readers.asleep != map[] ==> |q.contents| <= |q.readers.woken|
    ensures q.readers.asleep != map[] && q.contents != [] ==> exists t :: t in q.readers.woken
    ensures q.writers.asleep != map[] ==> q.capacity - |q.contents| <= |q.writers.woken|
    ensures q.writers.asleep != map[] && |q.contents| < q.capacity ==> exists t :: t in q.writers.woken
  {
  }
}
