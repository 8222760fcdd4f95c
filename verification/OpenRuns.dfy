/** What the steps of `OpenProtocol` do to one client and to the tables, written out, and
    how a client of the blocking open gets from being refused to its answer. */
module OpenRuns {
  import opened StorageGlue
  import opened OpenProtocol

  /** Serving an open request: an invalid name is answered, a listed path is refused, and
      any other path is answered after one entry has been added to its table. */
  lemma OpenMeans(w: World, h: Handle)
    requires w.server == Free && h in w.clients && w.clients[h].phase == Attempting
    ensures Enabled(w, DoOpen(h))
    ensures var c, v := w.clients[h], Do(w, DoOpen(h));
      match Locate(c.path, w.extReady)
      case InvalidName => v == w.(clients := w.clients[h := c.(phase := Answered)])
      case Located(Key(onExt, path)) =>
        if exists e :: e in (if onExt then w.ext else w.internal) && e.path == path then
          v == w.(clients := w.clients[h := c.(phase := Refused(Key(onExt, path)))])
        else
          && v.ext == (if onExt then w.ext + [Entry(h, w.nextId, path)] else w.ext)
          && v.internal == (if onExt then w.internal else w.internal + [Entry(h, w.nextId, path)])
          && v.clients == w.clients[h := c.(phase := Answered, file := Opened(w.nextId, Key(onExt, path)))]
          && v.nextId == w.nextId + 1 && v.extReady == w.extReady
          && v.subscribers == w.subscribers && v.server == Free
  {
    match Locate(w.clients[h].path, w.extReady)
    case InvalidName =>
    case Located(key) => ListedOrNot(w.Table(key.onExt), key.path);
  }

  lemma ListedOrNot(files: seq<Entry>, path: string)
    ensures HasPath(files, path) <==> exists e :: e in files && e.path == path
  {
    if HasPath(files, path) {
      var i :| 0 <= i < |files| && files[i].path == path;
      assert files[i] in files;
    }
  }

  /** A refused client that has been notified asks for the same path again, and nothing
      else changes. */
  lemma RetryMeans(w: World, h: Handle)
    requires h in w.clients
    ensures Enabled(w, DoRetry(h)) <==> w.clients[h].phase.Refused? && w.clients[h].flag
    ensures Enabled(w, DoRetry(h)) ==>
              var c := w.clients[h];
              Do(w, DoRetry(h)) == w.(clients := w.clients[h := Client(Attempting, c.path, false, c.file)])
  {
  }

  predicate Waiting(w: World, h: Handle) {
    h in w.clients && (w.clients[h].phase.Refused? || w.clients[h].phase == Attempting)
  }

  lemma WaitingStep(w: World, a: Action, h: Handle)
    requires Waiting(w, h) && Enabled(w, a) && a != DoOpen(h)
    ensures Waiting(Do(w, a), h) && Do(w, a).clients[h].path == w.clients[h].path
  {
  }

  lemma RefusedStep(w: World, a: Action, h: Handle)
    requires h in w.clients && w.clients[h].phase.Refused? && Enabled(w, a) && a != DoRetry(h)
    ensures h in Do(w, a).clients && Do(w, a).clients[h].phase == w.clients[h].phase
  {
  }

  lemma ExtendRun(w: World, actions: seq<Action>, k: nat, u: World)
    requires k < |actions| && Enabled(w, actions[0]) && Run(Do(w, actions[0]), actions[1..][..k], u)
    ensures Run(w, actions[..k + 1], u)
  {
    assert actions[..k + 1][1..] == actions[1..][..k];
  }

  /** A client waiting for its path is answered only by an open request for that path,
      served in a state u whose table does not list it. */
  lemma {:induction false} AnsweredByOpen(w: World, actions: seq<Action>, v: World, h: Handle)
    returns (k: nat, u: World)
    requires Run(w, actions, v) && h in w.clients && h in v.clients && v.clients[h].phase == Answered
    requires w.clients[h].phase.Refused? || w.clients[h].phase == Attempting
    ensures k < |actions| && actions[k] == DoOpen(h) && Run(w, actions[..k], u)
    ensures h in u.clients && u.clients[h].phase == Attempting && u.clients[h].path == w.clients[h].path
    ensures match Locate(w.clients[h].path, u.extReady)
            case InvalidName => true
            case Located(Key(onExt, path)) =>
              forall e | e in (if onExt then u.ext else u.internal) :: e.path != path
    decreases |actions|
  {
    if actions[0] == DoOpen(h) && !Waiting(Do(w, actions[0]), h) {
      k, u := 0, w;
      OpenMeans(w, h);
    } else {
      if actions[0] == DoOpen(h) {
        StillWaiting(w, h);
      } else {
        WaitingStep(w, actions[0], h);
      }
      k, u := AnsweredByOpen(Do(w, actions[0]), actions[1..], v, h);
      ExtendRun(w, actions, k, u);
      k := k + 1;
    }
  }

  lemma StillWaiting(w: World, h: Handle)
    requires CanOpen(w, h)
    ensures h in Do(w, DoOpen(h)).clients && Do(w, DoOpen(h)).clients[h].path == w.clients[h].path
  {
    OpenMeans(w, h);
  }

  /** A refused client goes on only by trying again, and that after its flag was raised. */
  lemma {:induction false} LeavesRefused(w: World, actions: seq<Action>, v: World, h: Handle)
    returns (k: nat, u: World)
    requires Run(w, actions, v) && h in w.clients && w.clients[h].phase.Refused?
    requires h in v.clients && v.clients[h].phase != w.clients[h].phase
    ensures k < |actions| && actions[k] == DoRetry(h) && Run(w, actions[..k], u)
    ensures h in u.clients && u.clients[h].phase == w.clients[h].phase && u.clients[h].flag
    decreases |actions|
  {
    if actions[0] == DoRetry(h) {
      k, u := 0, w;
    } else {
      RefusedStep(w, actions[0], h);
      k, u := LeavesRefused(Do(w, actions[0]), actions[1..], v, h);
      ExtendRun(w, actions, k, u);
      k := k + 1;
    }
  }
}
