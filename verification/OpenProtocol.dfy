/** The blocking open of the storage service: clients that find a path in use wait
    for a close notification, a single server thread owns the tables of open files
    (flipper/storage/storage_external_api.c, storage_processing.c,
    flipper/core/pubsub.c).

    The model is a state machine.  Its steps are what one thread does without being
    interrupted; the event flag of a waiting client is a boolean, which `CloseFlags`
    ties to the event flag itself, and a notification reaches the subscribers one by
    one. */
module OpenProtocol {
  import opened StorageGlue

  type Handle = nat

  /** A path on the storage it resolved to. */
  datatype Key = Key(onExt: bool, path: string)

  datatype Opened = NotOpened | Opened(id: nat, key: Key)

  /** Where a client is in `storage_file_open` and after it. */
  datatype Phase =
    | Idle
    | Attempting
    | Refused(key: Key)
    | Answered
    | Holding

  datatype Client = Client(phase: Phase, path: string, flag: bool, file: Opened)

  /** What the server does: waits for a message, has closed a file and is about to
      publish, or publishes and has these subscribers left. */
  datatype Server = Free | Closed | Publishing(left: seq<Handle>)

  datatype World = World(
    ext: seq<Entry>,
    internal: seq<Entry>,
    extReady: bool,
    nextId: nat,
    clients: map<Handle, Client>,
    subscribers: seq<Handle>,
    server: Server)
  {
    function Table(onExt: bool): seq<Entry> {
      if onExt then ext else internal
    }

    function WithTable(onExt: bool, files: seq<Entry>): World {
      if onExt then this.(ext := files) else this.(internal := files)
    }

    function WithClient(h: Handle, c: Client): World {
      this.(clients := clients[h := c])
    }
  }

  // ---- paths ----

  const PREFIX_LENGTH: nat := 4

  datatype StorageType = Ext | Int | Any | Error

  function TypeByPath(path: string): StorageType {
    if |path| > PREFIX_LENGTH && path[PREFIX_LENGTH] != '/' then Error
    else if "/ext" <= path then Ext
    else if "/int" <= path then Int
    else if "/any" <= path then Any
    else Error
  }

  datatype Located = InvalidName | Located(key: Key)

  /** The storage of a path; "/any" stands for the external one while that is ready. */
  function Locate(path: string, extReady: bool): Located {
    match TypeByPath(path)
    case Ext => Located(Key(true, path))
    case Int => Located(Key(false, path))
    case Any => Located(Key(extReady, (if extReady then "/ext" else "/int") + path[PREFIX_LENGTH..]))
    case Error => InvalidName
  }

  // ---- steps ----

  /** The client subscribes, with a fresh event flag; the list is locked while a
      notification is under way. */
  predicate CanStart(w: World, h: Handle) {
    !w.server.Publishing? && (h in w.clients ==> w.clients[h].phase == Idle && w.clients[h].file == NotOpened)
  }

  function Start(w: World, h: Handle, path: string): World {
    w.WithClient(h, Client(Attempting, path, false, NotOpened)).(subscribers := w.subscribers + [h])
  }

  predicate In(w: World, h: Handle, phase: Phase) {
    h in w.clients && w.clients[h].phase == phase
  }

  /** The server handles an open request: the path is refused while it is in the
      table; otherwise it enters the table, whatever the file system then answers. */
  predicate CanOpen(w: World, h: Handle) {
    w.server == Free && In(w, h, Attempting)
  }

  ghost function ServeOpen(w: World, h: Handle): World
    requires CanOpen(w, h)
  {
    var c := w.clients[h];
    match Locate(c.path, w.extReady)
    case InvalidName => w.WithClient(h, c.(phase := Answered))
    case Located(key) =>
      if HasPath(w.Table(key.onExt), key.path) then w.WithClient(h, c.(phase := Refused(key)))
      else
        w.WithTable(key.onExt, w.Table(key.onExt) + [Entry(h, w.nextId, key.path)])
         .WithClient(h, c.(phase := Answered, file := Opened(w.nextId, key)))
         .(nextId := w.nextId + 1)
  }

  /** The client's wait returns once its flag is set, and clears it. */
  predicate CanRetry(w: World, h: Handle) {
    h in w.clients && w.clients[h].phase.Refused? && w.clients[h].flag
  }

  function Retry(w: World, h: Handle): World
    requires CanRetry(w, h)
  {
    w.WithClient(h, w.clients[h].(phase := Attempting, flag := false))
  }

  /** The client unsubscribes and returns. */
  predicate CanFinish(w: World, h: Handle, at: nat) {
    && !w.server.Publishing? && In(w, h, Answered)
    && at < |w.subscribers| && w.subscribers[at] == h
  }

  function Finish(w: World, h: Handle, at: nat): World
    requires CanFinish(w, h, at)
  {
    var c := w.clients[h];
    w.WithClient(h, c.(phase := if c.file == NotOpened then Idle else Holding))
     .(subscribers := Without(w.subscribers, at))
  }

  /** The server handles a close request for an open file. */
  predicate CanClose(w: World, h: Handle, at: nat) {
    && w.server == Free && In(w, h, Holding) && w.clients[h].file.Opened?
    && var o := w.clients[h].file;
       at < |w.Table(o.key.onExt)| && w.Table(o.key.onExt)[at].id == o.id
  }

  function ServeClose(w: World, h: Handle, at: nat): World
    requires CanClose(w, h, at)
  {
    var o := w.clients[h].file;
    w.WithTable(o.key.onExt, Without(w.Table(o.key.onExt), at))
     .WithClient(h, w.clients[h].(phase := Idle, file := NotOpened))
     .(server := Closed)
  }

  function BeginPublish(w: World): World
    requires w.server == Closed
  {
    w.(server := Publishing(w.subscribers))
  }

  predicate CanNotify(w: World) {
    w.server.Publishing? && w.server.left != [] && w.server.left[0] in w.clients
  }

  function Notify(w: World): World
    requires CanNotify(w)
  {
    var h := w.server.left[0];
    w.WithClient(h, w.clients[h].(flag := true)).(server := Publishing(w.server.left[1..]))
  }

  function EndPublish(w: World): World
    requires w.server == Publishing([])
  {
    w.(server := Free)
  }

  // ---- what every step keeps ----

  ghost predicate TableKeys(w: World) {
    && Distinct(w.ext) && Distinct(w.internal)
    && (forall onExt, e | e in w.Table(onExt) :: Held(w, onExt, e))
  }

  /** Every entry belongs to a client that has the file open and has yet to close it. */
  predicate Held(w: World, onExt: bool, e: Entry) {
    && e.id < w.nextId && e.file in w.clients
    && w.clients[e.file].file == Opened(e.id, Key(onExt, e.path))
  }

  predicate HolderListed(w: World, h: Handle)
    requires h in w.clients
  {
    var c := w.clients[h];
    && (c.file.Opened? ==> Entry(h, c.file.id, c.file.key.path) in w.Table(c.file.key.onExt))
    && (c.file.Opened? ==> c.phase == Answered || c.phase == Holding)
    && (c.phase == Holding ==> c.file.Opened?)
  }

  predicate Busy(p: Phase) {
    p == Attempting || p.Refused? || p == Answered
  }

  ghost predicate NoneTwice(s: seq<Handle>) {
    forall i, j | 0 <= i < j < |s| :: s[i] != s[j]
  }

  /** A client that was refused and not yet notified has its path in the table, or
      its notification is on the way. */
  ghost predicate NotMissed(w: World, h: Handle)
    requires h in w.clients
  {
    var c := w.clients[h];
    c.phase.Refused? && !c.flag ==>
      || HasPath(w.Table(c.phase.key.onExt), c.phase.key.path)
      || w.server == Closed
      || (w.server.Publishing? && h in w.server.left)
  }

  ghost predicate ClientOk(w: World, h: Handle)
    requires h in w.clients
  {
    && HolderListed(w, h) && NotMissed(w, h)
    && (h in w.subscribers <==> Busy(w.clients[h].phase))
  }

  ghost predicate IdsDiffer(w: World) {
    forall g, h | g in w.clients && h in w.clients && g != h :: IdsApart(w.clients[g].file, w.clients[h].file)
  }

  predicate IdsApart(a: Opened, b: Opened) {
    a.Opened? && b.Opened? ==> a.id != b.id
  }

  ghost predicate Inv(w: World) {
    && TableKeys(w) && IdsDiffer(w) && NoneTwice(w.subscribers)
    && (forall h | h in w.subscribers :: h in w.clients)
    && (forall h | h in w.clients :: ClientOk(w, h))
    && (w.server.Publishing? ==> forall h | h in w.server.left :: h in w.subscribers)
  }

  function Initial(extReady: bool): World {
    World([], [], extReady, 0, map[], [], Free)
  }

  lemma InitialHolds(extReady: bool)
    ensures Inv(Initial(extReady))
  {
  }

  /** Whoever waits unnotified, while the server waits for messages, waits for a
      file that another client has open. */
  lemma WaitsForAHolder(w: World, h: Handle) returns (holder: Handle)
    requires Inv(w) && w.server == Free && h in w.clients && w.clients[h].phase.Refused? && !w.clients[h].flag
    ensures holder in w.clients && holder != h
    ensures w.clients[holder].file.Opened? && w.clients[holder].file.key == w.clients[h].phase.key
    ensures w.clients[holder].phase == Answered || w.clients[holder].phase == Holding
  {
    assert ClientOk(w, h);
    var key := w.clients[h].phase.key;
    var files := w.Table(key.onExt);
    var i :| 0 <= i < |files| && files[i].path == key.path;
    assert files[i] in files && Held(w, key.onExt, files[i]);
    holder := files[i].file;
    assert ClientOk(w, holder);
  }

  lemma StartKeeps(w: World, h: Handle, path: string)
    requires Inv(w) && CanStart(w, h)
    ensures Inv(Start(w, h, path))
  {
    var v := Start(w, h, path);
    if h in w.clients {
      assert ClientOk(w, h);
    }
    forall onExt, e | e in v.Table(onExt) ensures Held(v, onExt, e) {
      assert e in w.Table(onExt) && Held(w, onExt, e);
    }
    forall g | g in v.clients ensures ClientOk(v, g) {
      if g != h {
        assert ClientOk(w, g);
      }
    }
  }

  lemma OpenKeeps(w: World, h: Handle)
    requires Inv(w) && CanOpen(w, h)
    ensures Inv(ServeOpen(w, h))
  {
    var v := ServeOpen(w, h);
    assert ClientOk(w, h);
    match Locate(w.clients[h].path, w.extReady)
    case InvalidName => UntouchedTables(w, h, v.clients[h]);
    case Located(key) =>
      if HasPath(w.Table(key.onExt), key.path) {
        UntouchedTables(w, h, v.clients[h]);
      } else {
        EntryPushed(w, h, key);
      }
  }

  /** A change of one client's phase that leaves the tables alone. */
  lemma UntouchedTables(w: World, h: Handle, c: Client)
    requires Inv(w) && h in w.clients && c.file == w.clients[h].file && ClientOk(w.WithClient(h, c), h)
    ensures Inv(w.WithClient(h, c))
  {
    var v := w.WithClient(h, c);
    forall onExt, e | e in v.Table(onExt) ensures Held(v, onExt, e) {
      assert Held(w, onExt, e);
    }
    forall g | g in v.clients ensures ClientOk(v, g) {
      if g != h {
        assert ClientOk(w, g);
      }
    }
  }

  lemma EntryPushed(w: World, h: Handle, key: Key)
    requires Inv(w) && CanOpen(w, h) && Locate(w.clients[h].path, w.extReady) == Located(key)
    requires !HasPath(w.Table(key.onExt), key.path)
    ensures Inv(ServeOpen(w, h))
  {
    var v := ServeOpen(w, h);
    var e0 := Entry(h, w.nextId, key.path);
    var files := w.Table(key.onExt);
    assert ClientOk(w, h);
    forall i | 0 <= i < |files| ensures files[i].id < w.nextId {
      assert Held(w, key.onExt, files[i]);
    }
    PushKeepsDistinct(files, e0);
    forall onExt, e | e in v.Table(onExt) ensures Held(v, onExt, e) {
      if e != e0 || onExt != key.onExt {
        assert e in w.Table(onExt) && Held(w, onExt, e);
      }
    }
    forall g | g in v.clients ensures ClientOk(v, g) {
      assert ClientOk(w, g);
    }
    IdsStayApart(w, h, key);
  }

  lemma IdsStayApart(w: World, h: Handle, key: Key)
    requires Inv(w) && CanOpen(w, h) && Locate(w.clients[h].path, w.extReady) == Located(key)
    requires !HasPath(w.Table(key.onExt), key.path)
    ensures IdsDiffer(ServeOpen(w, h))
  {
    forall g | g in w.clients && w.clients[g].file.Opened? ensures w.clients[g].file.id < w.nextId {
      assert ClientOk(w, g);
      var f := w.clients[g].file;
      assert Held(w, f.key.onExt, Entry(g, f.id, f.key.path));
    }
  }

  lemma RetryKeeps(w: World, h: Handle)
    requires Inv(w) && CanRetry(w, h)
    ensures Inv(Retry(w, h))
  {
    assert ClientOk(w, h);
    UntouchedTables(w, h, Retry(w, h).clients[h]);
  }

  lemma FinishKeeps(w: World, h: Handle, at: nat)
    requires Inv(w) && CanFinish(w, h, at)
    ensures Inv(Finish(w, h, at))
  {
    var v := Finish(w, h, at);
    assert ClientOk(w, h);
    OneGone(w.subscribers, at);
    forall onExt, e | e in v.Table(onExt) ensures Held(v, onExt, e) {
      assert Held(w, onExt, e);
    }
    forall g | g in v.clients ensures ClientOk(v, g) {
      assert ClientOk(w, g);
    }
  }

  lemma OneGone(s: seq<Handle>, at: nat)
    requires NoneTwice(s) && at < |s|
    ensures NoneTwice(Without(s, at))
    ensures forall h :: h in Without(s, at) <==> h in s && h != s[at]
  {
    var r := Without(s, at);
    assert forall k | 0 <= k < |r| :: r[k] == if k < at then s[k] else s[k + 1];
    forall h ensures h in r <==> h in s && h != s[at] {
      if h in s && h != s[at] {
        var k :| 0 <= k < |s| && s[k] == h;
        assert r[if k < at then k else k - 1] == h;
      }
    }
  }

  lemma CloseKeeps(w: World, h: Handle, at: nat)
    requires Inv(w) && CanClose(w, h, at)
    ensures Inv(ServeClose(w, h, at))
  {
    var v := ServeClose(w, h, at);
    var o := w.clients[h].file;
    var files := w.Table(o.key.onExt);
    assert ClientOk(w, h);
    assert Held(w, o.key.onExt, files[at]) && Entry(h, o.id, o.key.path) in files;
    RemoveKeepsDistinct(files, at);
    forall onExt, e | e in v.Table(onExt) ensures Held(v, onExt, e) {
      StillListed(files, at, e);
      assert e in w.Table(onExt) && Held(w, onExt, e);
    }
    forall g | g in v.clients ensures ClientOk(v, g) {
      assert ClientOk(w, g);
      if g != h && w.clients[g].file.Opened? {
        var q := w.clients[g].file;
        StillListed(files, at, Entry(g, q.id, q.key.path));
      }
    }
  }

  lemma StillListed(files: seq<Entry>, at: nat, e: Entry)
    requires Distinct(files) && at < |files|
    ensures e in Without(files, at) <==> e in files && e != files[at]
    ensures e in Without(files, at) ==> e.id != files[at].id
  {
    var r := Without(files, at);
    assert forall k | 0 <= k < |r| :: r[k] == if k < at then files[k] else files[k + 1];
    if e in files && e != files[at] {
      var k :| 0 <= k < |files| && files[k] == e;
      assert r[if k < at then k else k - 1] == e;
    }
  }

  lemma BeginPublishKeeps(w: World)
    requires Inv(w) && w.server == Closed
    ensures Inv(BeginPublish(w))
  {
    var v := BeginPublish(w);
    forall onExt, e | e in v.Table(onExt) ensures Held(v, onExt, e) {
      assert Held(w, onExt, e);
    }
    forall g | g in v.clients ensures ClientOk(v, g) {
      assert ClientOk(w, g);
    }
  }

  lemma NotifyKeeps(w: World)
    requires Inv(w) && CanNotify(w)
    ensures Inv(Notify(w))
  {
    var v := Notify(w);
    var h := w.server.left[0];
    assert w.server.left == [h] + w.server.left[1..];
    forall onExt, e | e in v.Table(onExt) ensures Held(v, onExt, e) {
      assert Held(w, onExt, e);
    }
    forall g | g in v.clients ensures ClientOk(v, g) {
      assert ClientOk(w, g);
    }
  }

  lemma EndPublishKeeps(w: World)
    requires Inv(w) && w.server == Publishing([])
    ensures Inv(EndPublish(w))
  {
    var v := EndPublish(w);
    forall onExt, e | e in v.Table(onExt) ensures Held(v, onExt, e) {
      assert Held(w, onExt, e);
    }
    forall g | g in v.clients ensures ClientOk(v, g) {
      assert ClientOk(w, g);
    }
  }

  lemma StatusKeeps(w: World, ready: bool)
    requires Inv(w)
    ensures Inv(w.(extReady := ready))
  {
    var v := w.(extReady := ready);
    forall onExt, e | e in v.Table(onExt) ensures Held(v, onExt, e) {
      assert Held(w, onExt, e);
    }
    forall g | g in v.clients ensures ClientOk(v, g) {
      assert ClientOk(w, g);
    }
  }

  // ---- runs ----

  datatype Action =
    | DoStart(h: Handle, path: string)
    | DoOpen(h: Handle)
    | DoRetry(h: Handle)
    | DoFinish(h: Handle, at: nat)
    | DoClose(h: Handle, at: nat)
    | DoBeginPublish
    | DoNotify
    | DoEndPublish
    | DoStatus(ready: bool)

  predicate Enabled(w: World, a: Action) {
    match a
    case DoStart(h, _) => CanStart(w, h)
    case DoOpen(h) => CanOpen(w, h)
    case DoRetry(h) => CanRetry(w, h)
    case DoFinish(h, at) => CanFinish(w, h, at)
    case DoClose(h, at) => CanClose(w, h, at)
    case DoBeginPublish => w.server == Closed
    case DoNotify => CanNotify(w)
    case DoEndPublish => w.server == Publishing([])
    case DoStatus(_) => true
  }

  ghost function Do(w: World, a: Action): World
    requires Enabled(w, a)
  {
    match a
    case DoStart(h, path) => Start(w, h, path)
    case DoOpen(h) => ServeOpen(w, h)
    case DoRetry(h) => Retry(w, h)
    case DoFinish(h, at) => Finish(w, h, at)
    case DoClose(h, at) => ServeClose(w, h, at)
    case DoBeginPublish => BeginPublish(w)
    case DoNotify => Notify(w)
    case DoEndPublish => EndPublish(w)
    case DoStatus(ready) => w.(extReady := ready)
  }

  /** The actions, one after the other, lead from w to v. */
  ghost predicate Run(w: World, actions: seq<Action>, v: World)
    decreases |actions|
  {
    if actions == [] then v == w
    else Enabled(w, actions[0]) && Run(Do(w, actions[0]), actions[1..], v)
  }

  lemma StepKeeps(w: World, a: Action)
    requires Inv(w) && Enabled(w, a)
    ensures Inv(Do(w, a))
  {
    match a
    case DoStart(h, path) => StartKeeps(w, h, path);
    case DoOpen(h) => OpenKeeps(w, h);
    case DoRetry(h) => RetryKeeps(w, h);
    case DoFinish(h, at) => FinishKeeps(w, h, at);
    case DoClose(h, at) => CloseKeeps(w, h, at);
    case DoBeginPublish => BeginPublishKeeps(w);
    case DoNotify => NotifyKeeps(w);
    case DoEndPublish => EndPublishKeeps(w);
    case DoStatus(ready) => StatusKeeps(w, ready);
  }

  /** In every reachable state each table lists a path at most once, and no client
      has missed a close. */
  lemma {:induction false} EveryRunKeeps(w: World, actions: seq<Action>, v: World)
    requires Inv(w) && Run(w, actions, v)
    ensures Inv(v)
    decreases |actions|
  {
    if actions != [] {
      StepKeeps(w, actions[0]);
      EveryRunKeeps(Do(w, actions[0]), actions[1..], v);
    }
  }

  lemma NoCloseIsMissed(extReady: bool, actions: seq<Action>, v: World, h: Handle)
    requires Run(Initial(extReady), actions, v) && h in v.clients && v.clients[h].phase.Refused? && !v.clients[h].flag
    ensures Distinct(v.ext) && Distinct(v.internal)
    ensures var key := v.clients[h].phase.key;
            || HasPath(v.Table(key.onExt), key.path)
            || v.server == Closed || (v.server.Publishing? && h in v.server.left)
  {
    InitialHolds(extReady);
    EveryRunKeeps(Initial(extReady), actions, v);
    assert ClientOk(v, h);
  }
}
