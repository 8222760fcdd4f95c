/** Condition variables of the pthread monitors in flipper/core.

    A thread in a monitor is idle, asleep on a condition variable, or woken and on
    its way back to the lock.  A signal wakes at least one sleeper if there is one,
    a broadcast wakes all, any sleeper may wake for no reason, and a timed wait may
    end while its thread has not been woken. */
module Monitors {

  /** FuriThreadId; 0 stands for nobody. */
  type Thread = t: nat | t > 0 witness 1

  const WAIT_FOREVER: nat := 0xFFFF_FFFF

  datatype Status = Ok | ErrorTimeout | ErrorResource

  /** How the part of a call that runs under the lock ends. */
  datatype Outcome = Returns(status: Status) | Waits

  /** Who waits on a condition variable, with the arguments of the call. */
  datatype Waiters<C> = Waiters(asleep: map<Thread, C>, woken: map<Thread, C>) {
    ghost predicate Valid() {
      forall t | t in asleep :: t !in woken
    }

    predicate Has(t: Thread) {
      t in asleep || t in woken
    }

    function Call(t: Thread): C
      requires Has(t)
    {
      if t in woken then woken[t] else asleep[t]
    }

    function Sleep(t: Thread, c: C): Waiters<C> {
      Waiters(asleep[t := c], woken - {t})
    }

    function Leave(t: Thread): Waiters<C> {
      Waiters(asleep - {t}, woken - {t})
    }

    /** The sleepers in s wake. */
    function Wake(s: set<Thread>): Waiters<C> {
      Waiters(asleep - s, woken + map t | t in asleep && t in s :: asleep[t])
    }

    function WakeAll(): Waiters<C> {
      Wake(asleep.Keys)
    }

    lemma WakeFacts(s: set<Thread>)
      requires Valid() && s <= asleep.Keys
      ensures Wake(s).Valid() && Wake(s).asleep.Keys == asleep.Keys - s
      ensures Wake(s).woken.Keys == woken.Keys + s && |Wake(s).woken| == |woken| + |s|
      ensures forall t :: Wake(s).Has(t) <==> Has(t)
      ensures forall t | Wake(s).Has(t) && Has(t) :: Wake(s).Call(t) == Call(t)
      ensures s == {} ==> Wake(s) == this
    {
      assert s == {} ==> Wake(s).asleep == asleep && Wake(s).woken == woken;
      var w := Wake(s).woken;
      assert w.Keys == woken.Keys + s;
      assert |w| == |w.Keys| && |woken| == |woken.Keys|;
    }

    lemma LeaveFacts(t: Thread)
      requires Valid() && t in woken
      ensures Leave(t).Valid() && Leave(t).asleep == asleep && |Leave(t).woken| == |woken| - 1
    {
      var w := woken - {t};
      assert asleep - {t} == asleep;
      assert w.Keys == woken.Keys - {t};
      assert |w| == |w.Keys| && |woken| == |woken.Keys|;
    }

    lemma WakeAllFacts()
      requires Valid()
      ensures WakeAll().Valid() && WakeAll().asleep == map[]
      ensures WakeAll().woken.Keys == woken.Keys + asleep.Keys
    {
      WakeFacts(asleep.Keys);
      assert WakeAll().asleep.Keys == {};
    }
  }

  /** pthread_cond_signal: any nonempty part of the sleepers wakes. */
  ghost method Signal<C>(w: Waiters<C>) returns (v: Waiters<C>)
    requires w.Valid()
    ensures Signalled(w, v)
  {
    assert w.asleep != map[] ==> w.asleep.Keys <= w.asleep.Keys && w.asleep.Keys != {};
    var s: set<Thread> :| s <= w.asleep.Keys && (w.asleep != map[] ==> s != {});
    w.WakeFacts(s);
    assert s != {} ==> |s| > 0;
    assert w.asleep == map[] ==> s == {};
    v := w.Wake(s);
  }

  ghost predicate Signalled<C>(w: Waiters<C>, v: Waiters<C>) {
    && v.Valid() && v.asleep.Keys <= w.asleep.Keys && w.woken.Keys <= v.woken.Keys
    && (if w.asleep == map[] then v == w else |v.woken| > |w.woken|)
    && (forall t :: v.Has(t) <==> w.Has(t))
    && (forall t | v.Has(t) && w.Has(t) :: v.Call(t) == w.Call(t))
  }

  /** A running thread that comes back from a wait is one woken thread less. */
  lemma Left<C>(w: Waiters<C>, t: Thread)
    requires w.Valid() && (w.Has(t) ==> t in w.woken)
    ensures w.Leave(t).Valid() && w.Leave(t).asleep == w.asleep && !w.Leave(t).Has(t)
    ensures |w.Leave(t).woken| == if t in w.woken then |w.woken| - 1 else |w.woken|
    ensures forall u | w.Leave(t).Has(u) :: w.Has(u) && w.Leave(t).Call(u) == w.Call(u)
  {
    if t in w.woken {
      w.LeaveFacts(t);
    } else {
      assert w.woken - {t} == w.woken && w.asleep - {t} == w.asleep;
    }
  }

  lemma FallsAsleep<C>(w: Waiters<C>, t: Thread, c: C)
    requires w.Valid() && !w.Has(t)
    ensures w.Sleep(t, c).Valid() && w.Sleep(t, c).woken == w.woken && w.Sleep(t, c).asleep == w.asleep[t := c]
  {
    assert w.woken - {t} == w.woken;
  }

  /** A sleeper whose wait times out is not one of the woken. */
  lemma GivesUp<C>(w: Waiters<C>, t: Thread)
    requires w.Valid() && t in w.asleep
    ensures w.Leave(t).Valid() && w.Leave(t).woken == w.woken && !w.Leave(t).Has(t)
    ensures w.Leave(t).asleep.Keys == w.asleep.Keys - {t}
    ensures forall u | w.Leave(t).Has(u) :: w.Has(u) && w.Leave(t).Call(u) == w.Call(u)
  {
    assert w.woken - {t} == w.woken;
  }
}
