/** The code behind the steps of `OpenProtocol`: the server's file open and close
    (flipper/storage/storage_processing.c) and the subscriber list
    (flipper/core/pubsub.c). */
module StorageServer {
  import opened StorageGlue
  import opened OpenProtocol
  import opened OpenRuns
  import FileTree
  import StoragePaths

  datatype OpenError = Ok | AlreadyOpen | InvalidName | InvalidParameter | NotExist

  /** What opening a path that is not in the table makes of the world. */
  lemma PushedWorld(w: World, h: Handle, key: Key)
    requires CanOpen(w, h) && Locate(w.clients[h].path, w.extReady) == Located(key)
    requires !HasPath(w.Table(key.onExt), key.path)
    ensures var e := [Entry(h, w.nextId, key.path)];
            ServeOpen(w, h) == World(if key.onExt then w.ext + e else w.ext, if key.onExt then w.internal else w.internal + e,
                                     w.extReady, w.nextId + 1,
                                     w.clients[h := w.clients[h].(phase := Answered, file := Opened(w.nextId, key))],
                                     w.subscribers, w.server)
  {
  }

  ghost function OpenAnswer(w: World, h: Handle, fsAnswer: bool): (bool, OpenError)
    requires CanOpen(w, h)
  {
    match Locate(w.clients[h].path, w.extReady)
    case InvalidName => (false, OpenError.InvalidName)
    case Located(key) =>
      if HasPath(w.Table(key.onExt), key.path) then (false, AlreadyOpen)
      else (fsAnswer, if fsAnswer then Ok else NotExist)
  }

  lemma AnswerByLocation(w: World, h: Handle, fsAnswer: bool)
    requires CanOpen(w, h)
    ensures var (ret, error) := OpenAnswer(w, h, fsAnswer);
      match Locate(w.clients[h].path, w.extReady)
      case InvalidName => !ret && error == OpenError.InvalidName
      case Located(Key(onExt, path)) =>
        if exists e :: e in (if onExt then w.ext else w.internal) && e.path == path then !ret && error == AlreadyOpen
        else ret == fsAnswer && error == if fsAnswer then Ok else NotExist
  {
    match Locate(w.clients[h].path, w.extReady)
    case InvalidName =>
    case Located(key) => ListedOrNot(w.Table(key.onExt), key.path);
  }

  class StorageApp {
    const ext: FileTable
    const internal: FileTable
    var extReady: bool
    var nextId: nat
    var clients: map<Handle, Client>
    var subscribers: seq<Handle>
    var server: Server

    constructor (extReady: bool)
      ensures Valid() && View() == Initial(extReady) && fresh(ext) && fresh(internal)
    {
      ext := new FileTable();
      internal := new FileTable();
      this.extReady, nextId, clients, subscribers, server := extReady, 0, map[], [], Free;
      new;
      InitialHolds(extReady);
    }

    ghost function View(): World
      reads this, ext, internal
    {
      World(ext.files, internal.files, extReady, nextId, clients, subscribers, server)
    }

    ghost predicate Valid()
      reads this, ext, internal
    {
      ext != internal && Inv(View())
    }

    /** The path as the storage it belongs to knows it: the key of the entry that the
        path names component by component, or a refusal if that is on no storage. */
    method GetData(path: string) returns (r: Located)
      ensures r == Locate(path, extReady)
      ensures var q := FileTree.Resolve(StoragePaths.Home(extReady), path);
              match r
              case InvalidName => !FileTree.OnStorage(q)
              case Located(key) => FileTree.OnStorage(q) && FileTree.Parse(key.path) == q
                                   && key.onExt == (FileTree.TopName(q) == "ext")
    {
      StoragePaths.LocateAgrees(path, extReady);
      var kind := TypeByPath(path);
      if kind == Error {
        return Located.InvalidName;
      }
      var actual := path;
      if kind == Any {
        kind := if extReady then Ext else Int;
        actual := (if extReady then "/ext" else "/int") + path[PREFIX_LENGTH..];
      }
      return Located(Key(kind == Ext, actual));
    }

    /** Refuses a name on no storage and a path that is in use; any other path enters its
        table, and `fsAnswer` is what the file system then says. */
    method ProcessFileOpen(h: Handle, fsAnswer: bool) returns (ret: bool, error: OpenError)
      requires Valid() && server == Free && h in clients && clients[h].phase == Attempting
      modifies this, ext, internal
      ensures Valid() && CanOpen(old(View()), h) && View() == ServeOpen(old(View()), h)
      ensures subscribers == old(subscribers) && server == Free && extReady == old(extReady)
      ensures var c := old(clients)[h];
        match Locate(c.path, extReady)
        case InvalidName =>
          && !ret && error == OpenError.InvalidName
          && ext.files == old(ext.files) && internal.files == old(internal.files)
          && clients == old(clients)[h := c.(phase := Answered)]
        case Located(Key(onExt, path)) =>
          if exists e :: e in old(if onExt then ext.files else internal.files) && e.path == path then
            && !ret && error == AlreadyOpen
            && ext.files == old(ext.files) && internal.files == old(internal.files)
            && clients == old(clients)[h := c.(phase := Refused(Key(onExt, path)))]
          else
            && ret == fsAnswer && error == (if fsAnswer then Ok else NotExist)
            && ext.files == old(ext.files) + (if onExt then [Entry(h, old(nextId), path)] else [])
            && internal.files == old(internal.files) + (if onExt then [] else [Entry(h, old(nextId), path)])
            && clients == old(clients)[h := c.(phase := Answered, file := Opened(old(nextId), Key(onExt, path)))]
    {
      OpenKeeps(View(), h);
      OpenMeans(View(), h);
      AnswerByLocation(View(), h, fsAnswer);
      ret, error := OpenUnlessInUse(h, fsAnswer);
    }

    method OpenUnlessInUse(h: Handle, fsAnswer: bool) returns (ret: bool, error: OpenError)
      requires ext != internal && CanOpen(View(), h)
      modifies this, ext, internal
      ensures View() == ServeOpen(old(View()), h)
      ensures (ret, error) == OpenAnswer(old(View()), h, fsAnswer)
    {
      var c := clients[h];
      var located := GetData(c.path);
      if located == Located.InvalidName {
        clients := clients[h := c.(phase := Answered)];
        return false, OpenError.InvalidName;
      }
      var key := located.key;
      var storage := if key.onExt then ext else internal;
      var open := storage.PathAlreadyOpen(key.path);
      if open {
        clients := clients[h := c.(phase := Refused(key))];
        return false, AlreadyOpen;
      }
      AddFile(h, key);
      return fsAnswer, if fsAnswer then Ok else NotExist;
    }

    /** The path enters the table under a new id. */
    method AddFile(h: Handle, key: Key)
      requires ext != internal && CanOpen(View(), h) && Locate(clients[h].path, extReady) == Located(key)
      requires !HasPath(View().Table(key.onExt), key.path)
      modifies this, ext, internal
      ensures View() == ServeOpen(old(View()), h)
    {
      PushedWorld(View(), h, key);
      var storage := if key.onExt then ext else internal;
      storage.Push(h, nextId, key.path);
      clients, nextId := clients[h := clients[h].(phase := Answered, file := Opened(nextId, key))], nextId + 1;
    }

    /** The storage whose table has the file; the search goes through all of them. */
    method GetStorageByFile(id: nat) returns (found: bool, onExt: bool)
      ensures found <==> HasId(ext.files, id) || HasId(internal.files, id)
      ensures found ==> (onExt <==> !HasId(internal.files, id))
    {
      found, onExt := false, false;
      var here := ext.HasFile(id);
      if here {
        found, onExt := true, true;
      }
      here := internal.HasFile(id);
      if here {
        found, onExt := true, false;
      }
    }

    /** Takes the file out of its table; the server is then about to publish. */
    method ProcessFileClose(h: Handle) returns (ret: bool, ghost at: nat)
      requires Valid() && server == Free && h in clients && clients[h].phase == Holding
      modifies this, ext, internal
      ensures Valid() && ret && CanClose(old(View()), h, at) && View() == ServeClose(old(View()), h, at)
      ensures var o := old(clients)[h].file;
        && at < |old(if o.key.onExt then ext.files else internal.files)|
        && old(if o.key.onExt then ext.files else internal.files)[at].id == o.id
        && ext.files == old(if o.key.onExt then ext.files[..at] + ext.files[at + 1..] else ext.files)
        && internal.files == old(if o.key.onExt then internal.files else internal.files[..at] + internal.files[at + 1..])
      ensures clients == old(clients)[h := old(clients)[h].(phase := Idle, file := NotOpened)]
      ensures server == Closed && subscribers == old(subscribers) && nextId == old(nextId) && extReady == old(extReady)
    {
      FileIsListed(View(), h);
      var o := clients[h].file;
      var found, onExt := GetStorageByFile(o.id);
      if !found {
        assert false;
      }
      var storage := if onExt then ext else internal;
      ret, at := storage.Pop(o.id);
      CloseKeeps(old(View()), h, at);
      clients := clients[h := clients[h].(phase := Idle, file := NotOpened)];
      server := Closed;
    }

    method Subscribe(h: Handle, path: string)
      requires Valid() && !server.Publishing?
      requires h in clients ==> clients[h].phase == Idle && clients[h].file == NotOpened
      modifies this
      ensures Valid() && CanStart(old(View()), h) && View() == Start(old(View()), h, path)
      ensures clients == old(clients)[h := Client(Attempting, path, false, NotOpened)]
      ensures subscribers == old(subscribers) + [h] && server == old(server) && nextId == old(nextId)
    {
      StartKeeps(View(), h, path);
      clients := clients[h := Client(Attempting, path, false, NotOpened)];
      subscribers := subscribers + [h];
    }

    /** Looks the subscription up in the list and removes it. */
    method Unsubscribe(h: Handle) returns (ghost at: nat)
      requires Valid() && !server.Publishing? && h in clients && clients[h].phase == Answered
      modifies this
      ensures Valid() && CanFinish(old(View()), h, at) && View() == Finish(old(View()), h, at)
      ensures var c := old(clients)[h];
              clients == old(clients)[h := c.(phase := if c.file == NotOpened then Idle else Holding)]
      ensures at < |old(subscribers)| && old(subscribers)[at] == h
      ensures subscribers == old(subscribers)[..at] + old(subscribers)[at + 1..]
      ensures server == old(server) && nextId == old(nextId)
    {
      assert ClientOk(View(), h);
      var i := 0;
      while subscribers[i] != h
        invariant i < |subscribers| && forall k | 0 <= k < i :: subscribers[k] != h
        decreases |subscribers| - i
      {
        i := i + 1;
      }
      at := i;
      FinishKeeps(View(), h, at);
      var c := clients[h];
      clients := clients[h := c.(phase := if c.file == NotOpened then Idle else Holding)];
      subscribers := Without(subscribers, i);
    }

    /** The callback of the next subscriber sets its event flag. */
    method NotifyNext()
      requires Valid() && server.Publishing? && server.left != []
      modifies this
      ensures Valid() && CanNotify(old(View())) && View() == Notify(old(View()))
      ensures clients == old(clients)[old(server.left[0]) := old(clients[server.left[0]]).(flag := true)]
      ensures server == Publishing(old(server.left)[1..]) && subscribers == old(subscribers) && nextId == old(nextId)
    {
      var h := server.left[0];
      assert h in server.left;
      NotifyKeeps(View());
      clients := clients[h := clients[h].(flag := true)];
      server := Publishing(server.left[1..]);
    }

    /** The publication without anybody stepping in: every subscriber is notified. */
    method Publish()
      requires Valid() && server == Closed
      modifies this
      ensures Valid() && server == Free && subscribers == old(subscribers)
      ensures ext.files == old(ext.files) && internal.files == old(internal.files)
      ensures clients.Keys == old(clients.Keys)
      ensures forall h | h in clients ::
        clients[h] == old(clients)[h].(flag := old(clients)[h].flag || h in subscribers)
    {
      BeginPublishKeeps(View());
      server := Publishing(subscribers);
      ghost var i := 0;
      while server.left != []
        invariant Valid() && server.Publishing? && i <= |subscribers| && server.left == subscribers[i..]
        invariant subscribers == old(subscribers) && clients.Keys == old(clients.Keys)
        invariant ext.files == old(ext.files) && internal.files == old(internal.files)
        invariant forall h | h in clients ::
          clients[h] == old(clients)[h].(flag := old(clients)[h].flag || h in subscribers[..i])
        decreases |server.left|
      {
        assert subscribers[..i + 1] == subscribers[..i] + [server.left[0]];
        NotifyNext();
        i := i + 1;
      }
      assert subscribers[..i] == subscribers;
      EndPublishKeeps(View());
      server := Free;
    }
  }

  /** A file a client holds is in the table of its storage and in no other. */
  lemma FileIsListed(w: World, h: Handle)
    requires Inv(w) && In(w, h, Holding)
    ensures w.clients[h].file.Opened?
    ensures var o := w.clients[h].file; HasId(w.Table(o.key.onExt), o.id) && !HasId(w.Table(!o.key.onExt), o.id)
  {
    assert ClientOk(w, h);
    var o := w.clients[h].file;
    var files, others := w.Table(o.key.onExt), w.Table(!o.key.onExt);
    var i :| 0 <= i < |files| && files[i] == Entry(h, o.id, o.key.path);
    assert files[i].id == o.id;
    forall k | 0 <= k < |others| ensures others[k].id != o.id {
      assert others[k] in others && Held(w, !o.key.onExt, others[k]);
      assert IdsApart(w.clients[others[k].file].file, o);
    }
  }
}
