/** helpers/toolbox/dir_walk.c: a depth-first walk that keeps one open directory,
    a path string and a stack of indices.  To leave a directory it cuts the last
    component off the path, reopens the parent and re-reads it up to the saved
    index. */
module DirWalking {
  import opened FileTree
  import opened StorageService
  import opened Preorder

  datatype WalkResult = WalkOk | WalkError | WalkLast

  type FilterCb = (string, FileInfo) -> bool

  datatype Filter = NoFilter | Callback(cb: FilterCb)

  predicate Accepts(f: Filter, name: string, info: FileInfo) {
    f.Callback? ==> f.cb(name, info)
  }

  /** Entry q is one that the filter turns down. */
  predicate Rejected(f: Filter, t: Tree, q: Path) {
    q in t && q.At? && !Accepts(f, q.name, Info(t[q]))
  }

  /** The directories the walk will come back to, innermost first, each with the
      index of the next entry to read there. */
  datatype Frames = Bottom | Frame(dir: Path, next: nat, below: Frames)

  function Saved(fr: Frames): seq<nat> {
    match fr
    case Bottom => []
    case Frame(_, k, below) => Saved(below) + [k]
  }

  /** Below the root, `at` is entry number next - 1 of the directory of the top
      frame, and so on outwards. */
  ghost predicate Positioned(t: Tree, list: Listing, root: Path, at: Path, fr: Frames)
    decreases fr
  {
    && IsDir(t, at) && Within(root, at)
    && match fr
       case Bottom => at == root
       case Frame(d, k, below) =>
         && at != root && at.At? && at.dir == d
         && 1 <= k <= |Entries(t, list, d)| && Entries(t, list, d)[k - 1] == at.name
         && Positioned(t, list, root, d, below)
  }

  /** Everything left to read after the current directory is finished. */
  ghost function Pending(t: Tree, list: Listing, deep: bool, root: Path, at: Path, fr: Frames): seq<Path>
    requires WellFormed(t) && ValidListing(list) && Positioned(t, list, root, at, fr)
    decreases fr
  {
    match fr
    case Bottom => []
    case Frame(d, k, below) =>
      assert Positioned(t, list, root, d, below);
      From(t, list, deep, d, k) + Pending(t, list, deep, root, d, below)
  }

  /** What is left after entry c was read, given what is left beside c's contents. */
  ghost function After(t: Tree, list: Listing, deep: bool, c: Path, beside: seq<Path>): seq<Path>
    requires WellFormed(t) && ValidListing(list) && c in t
  {
    if deep && t[c].Folder? then Inside(t, list, deep, c) + beside else beside
  }

  /** Reading the next entry crosses that entry; its contents come next. */
  lemma ReadEntry(t: Tree, list: Listing, deep: bool, at: Path, i: nat, pending: seq<Path>)
    requires WellFormed(t) && ValidListing(list)
    requires at in t && i < |Entries(t, list, at)|
    ensures var c := At(at, Entries(t, list, at)[i]);
            && c in t
            && From(t, list, deep, at, i) + pending
               == [c] + After(t, list, deep, c, From(t, list, deep, at, i + 1) + pending)
  {
    var c := At(at, Entries(t, list, at)[i]);
    EntryExists(t, list, at, i);
    assert From(t, list, deep, at, i) == [c] + Inside(t, list, deep, c) + From(t, list, deep, at, i + 1);
    assert !(deep && t[c].Folder?) ==> Inside(t, list, deep, c) == [];
    Regroup([c], Inside(t, list, deep, c), From(t, list, deep, at, i + 1), pending);
  }

  /** Entering directory c puts its parent on the stack. */
  lemma EnterEntry(t: Tree, list: Listing, sp: Spelling, root: Path, at: Path, k: nat, fr: Frames, n: string)
    requires WellFormed(t) && ValidListing(list)
    requires Positioned(t, list, root, at, fr) && 1 <= k <= |Entries(t, list, at)|
    requires n == Entries(t, list, at)[k - 1] && At(at, n) in t && t[At(at, n)].Folder?
    ensures OnStorage(at) && At(at, n) != at
    ensures Resolve(sp.home, Text(sp, At(at, n))) == At(at, n) && Text(sp, At(at, n)) == Text(sp, at) + "/" + n
    ensures Within(root, At(at, n)) && Positioned(t, list, root, At(at, n), Frame(at, k, fr))
    ensures From(t, list, true, At(at, n), 0) + Pending(t, list, true, root, At(at, n), Frame(at, k, fr))
         == After(t, list, true, At(at, n), From(t, list, true, at, k) + Pending(t, list, true, root, at, fr))
  {
    SpellEntry(t, sp, At(at, n));
    EntryIsProper(t, at);
    WithinDeeper(at, At(at, n));
    WithinDeeper(root, at);
    assert Positioned(t, list, root, At(at, n), Frame(at, k, fr));
    Rejoin(From(t, list, true, At(at, n), 0), From(t, list, true, at, k), Pending(t, list, true, root, at, fr));
  }

  /** Leaving a finished directory takes its parent off the stack. */
  lemma LeaveEntry(t: Tree, list: Listing, sp: Spelling, deep: bool, root: Path, at: Path, fr: Frames)
    requires WellFormed(t) && ValidListing(list) && Positioned(t, list, root, at, fr) && fr.Frame?
    ensures at.At? && at.dir == fr.dir && Positioned(t, list, root, at.dir, fr.below)
    ensures OnStorage(at) && at.dir != at && Resolve(sp.home, Text(sp, at.dir)) == at.dir
    ensures LastSlash(Text(sp, at)) >= 0 && Text(sp, at)[..LastSlash(Text(sp, at))] == Text(sp, at.dir)
    ensures From(t, list, deep, at, |Entries(t, list, at)|) + Pending(t, list, deep, root, at, fr)
         == From(t, list, deep, at.dir, fr.next) + Pending(t, list, deep, root, at.dir, fr.below)
  {
    SpellEntry(t, sp, at);
    EntryIsProper(t, at);
    WithinDeeper(at.dir, at);
    assert Positioned(t, list, root, fr.dir, fr.below);
    SpellEntry(t, sp, at.dir);
  }

  lemma Rejoin<T>(a: seq<T>, b: seq<T>, c: seq<T>)
    ensures a + (b + c) == (a + b) + c
  {
  }

  lemma Regroup<T>(a: seq<T>, b: seq<T>, c: seq<T>, d: seq<T>)
    ensures (a + b + c) + d == a + (b + (c + d))
  {
  }

  /** No directory of the tree below p is among the open paths. */
  ghost predicate NoDirsOpen(t: Tree, p: Path, open: set<Path>) {
    forall q | q in open && Within(p, q) :: q !in t || t[q].Document?
  }

  lemma OpenedAt(t: Tree, list: Listing, home: string, p: string)
    requires WellFormed(t) && ValidListing(list)
    ensures var q := Resolve(home, p);
            IsDir(t, q) ==> OnStorage(q) && Text(SpellingOf(home, p), q) == p && Positioned(t, list, q, q, Bottom)
  {
    var q := Resolve(home, p);
    if IsDir(t, q) {
      EntryIsProper(t, q);
      TextResolve(home, p);
    }
  }

  /** Entry q, which the filter accepts, is what was handed out. */
  predicate HandedOut(f: Filter, t: Tree, sp: Spelling, q: Path, out: string, info: FileInfo) {
    && q in t && q.At? && Accepts(f, q.name, Info(t[q]))
    && out == Text(sp, q) && info == Info(t[q]) && out[LastSlash(out) + 1..] == q.name
  }

  /** One pass: an entry is turned down or handed out, or nothing is read. */
  predicate OnePass(f: Filter, t: Tree, sp: Spelling, end: bool, r: WalkResult, out: string, info: FileInfo,
                    before: seq<Path>, after: seq<Path>)
  {
    if !end then
      after == before || (before != [] && after == before[1..] && Rejected(f, t, before[0]))
    else if r == WalkOk then
      before != [] && after == before[1..] && HandedOut(f, t, sp, before[0], out, info)
    else r == WalkLast && before == after == []
  }

  /** A read that has turned down `skipped` entries so far, or has ended after them. */
  ghost predicate Reading(f: Filter, t: Tree, sp: Spelling, before: seq<Path>, skipped: nat, end: bool,
                          r: WalkResult, out: string, info: FileInfo, after: seq<Path>)
  {
    && skipped <= |before| && (forall i | 0 <= i < skipped :: Rejected(f, t, before[i]))
    && if !end then after == before[skipped..]
       else if r == WalkOk then
         skipped < |before| && after == before[skipped + 1..] && HandedOut(f, t, sp, before[skipped], out, info)
       else r == WalkLast && skipped == |before| && after == []
  }

  lemma PassRead(f: Filter, t: Tree, sp: Spelling, before: seq<Path>, skipped: nat, end: bool,
                 r: WalkResult, out: string, info: FileInfo, left: seq<Path>, after: seq<Path>)
    returns (skipped': nat)
    requires Reading(f, t, sp, before, skipped, false, WalkOk, "", FileInfo(false, 0), left)
    requires OnePass(f, t, sp, end, r, out, info, left, after)
    ensures Reading(f, t, sp, before, skipped', end, r, out, info, after)
    ensures !end && after != left ==> |after| < |left|
  {
    skipped' := if !end && after != left then skipped + 1 else skipped;
    assert left != [] ==> left[0] == before[skipped] && left[1..] == before[skipped + 1..];
  }

  /** What a read returns, with the callback written out: every entry that it skipped is
      turned down by its own name and info, and the one it hands out is accepted by the
      last component of its path and its info.  Without a filter that is the very next
      entry.  At the end there is nothing left, and all that was left is turned down. */
  lemma ReadMeans(f: Filter, t: Tree, sp: Spelling, before: seq<Path>, skipped: nat,
                  r: WalkResult, out: string, info: FileInfo, after: seq<Path>)
    requires Reading(f, t, sp, before, skipped, true, r, out, info, after)
    ensures skipped <= |before| && (r == WalkOk || r == WalkLast)
    ensures forall i | 0 <= i < skipped ::
      f.Callback? && before[i] in t && before[i].At? && !f.cb(before[i].name, Info(t[before[i]]))
    ensures r == WalkOk ==>
      && skipped < |before| && after == before[skipped + 1..]
      && var q := before[skipped];
         && q in t && out == Text(sp, q) && info == Info(t[q])
         && (f.Callback? ==> f.cb(out[LastSlash(out) + 1..], info))
    ensures r == WalkLast ==> skipped == |before| && after == []
    ensures f == NoFilter ==> skipped == 0 && (r == WalkOk <==> before != [])
  {
    assert forall i | 0 <= i < skipped :: Rejected(f, t, before[i]);
    assert skipped > 0 ==> Rejected(f, t, before[0]);
  }

  lemma FirstOff(s: seq<Path>, c: Path, rest: seq<Path>)
    requires s == [c] + rest
    ensures s != [] && s[0] == c && s[1..] == rest
  {
  }

  class DirWalk {
    const file: DirHandle
    var path: string
    var indexList: seq<nat>
    var currentIndex: nat
    var recursive: bool
    var filter: Filter
    /** where the walk started and where it stands */
    ghost var root: Path
    ghost var at: Path
    ghost var frames: Frames
    /** how it spells its paths */
    ghost var spelling: Spelling
    /** the open paths that are not the walk's own */
    ghost var elsewhere: set<Path>
    /** what is still to be read */
    ghost var unread: seq<Path>

    constructor (storage: Storage)
      ensures file.storage == storage && fresh(file) && !file.isOpen && file.Valid()
      ensures recursive && filter == NoFilter && indexList == [] && currentIndex == 0 && path == ""
    {
      file := new DirHandle(storage);
      path, indexList, currentIndex := "", [], 0;
      recursive, filter := true, NoFilter;
      root, at, frames, unread, elsewhere, spelling := Root, Root, Bottom, [], {}, Spelling("", false);
    }

    method SetRecursive(r: bool)
      modifies this`recursive
      ensures recursive == r
    {
      recursive := r;
    }

    method SetFilter(f: Filter)
      modifies this`filter
      ensures filter == f
    {
      filter := f;
    }

    /** The walk stands inside an existing directory that is open and read up to
        currentIndex, and no other directory of the walked tree is held open. */
    ghost predicate Valid()
      reads this, file, file.storage
    {
      var s := file.storage;
      && s.Valid() && file.Valid()
      && file.isOpen && file.listed && file.dir == at && path == Text(spelling, at) && spelling.home == s.home
      && Positioned(s.tree, s.list, root, at, frames) && indexList == Saved(frames)
      && file.names == Entries(s.tree, s.list, at)
      && file.pos == currentIndex
      && (!recursive ==> indexList == [])
      && unread == From(s.tree, s.list, recursive, at, currentIndex)
                   + Pending(s.tree, s.list, recursive, root, at, frames)
      && s.open == elsewhere + {at} && at !in elsewhere && NoDirsOpen(s.tree, root, elsewhere)
    }

    /** The walk's own handle holds one path, and closing gives it back. */
    lemma HoldsOne()
      requires Valid()
      ensures file.storage.open - file.Held(file.dir) == elsewhere
    {
      EntryIsProper(file.storage.tree, at);
    }

    method Start(p: string)
      modifies this
      ensures path == p && currentIndex == 0 && frames == Bottom && root == at == file.storage.Find(p)
      ensures spelling == SpellingOf(file.storage.home, p) && elsewhere == file.storage.open
      ensures recursive == old(recursive) && filter == old(filter) && indexList == old(indexList)
      ensures file.storage.Valid() && IsDir(file.storage.tree, root) ==>
                unread == From(file.storage.tree, file.storage.list, recursive, root, 0)
    {
      path, currentIndex, frames := p, 0, Bottom;
      root, at := file.storage.Find(p), file.storage.Find(p);
      spelling, elsewhere := SpellingOf(file.storage.home, p), file.storage.open;
      if file.storage.Valid() && IsDir(file.storage.tree, root) {
        unread := From(file.storage.tree, file.storage.list, recursive, root, 0);
      }
    }

    method Open(p: string) returns (ok: bool)
      requires file.storage.Valid() && !file.isOpen && indexList == []
      requires var q := file.storage.Find(p);
               q !in file.storage.open && NoDirsOpen(file.storage.tree, q, file.storage.open)
      modifies this, file, file.storage`open
      ensures file.isOpen && file.dir == root && file.Valid()
      ensures file.storage.open == old(file.storage.open) + file.Held(root)
      ensures recursive == old(recursive) && filter == old(filter)
      ensures root == file.storage.Find(p) && elsewhere == old(file.storage.open)
      ensures spelling == SpellingOf(file.storage.home, p)
      ensures ok <==> IsDir(file.storage.tree, root)
      ensures ok ==> Valid() && at == root
                     && unread == From(file.storage.tree, file.storage.list, recursive, root, 0)
    {
      OpenedAt(file.storage.tree, file.storage.list, file.storage.home, p);
      Start(p);
      ok := file.Open(p);
    }

    /** Save the index of the current directory and extend the path. */
    method Push(name: string)
      modifies this
      ensures indexList == old(indexList) + [old(currentIndex)] && path == old(path) + "/" + name
      ensures at == At(old(at), name) && frames == Frame(old(at), old(currentIndex), old(frames))
      ensures currentIndex == old(currentIndex) && recursive == old(recursive) && filter == old(filter)
      ensures root == old(root) && spelling == old(spelling) && elsewhere == old(elsewhere) && unread == old(unread)
    {
      frames := Frame(at, currentIndex, frames);
      at := At(at, name);
      indexList := indexList + [currentIndex];
      path := path + "/" + name;
    }

    /** Descend into the directory entry just read. */
    method StepIn(name: string)
      requires Valid() && recursive && currentIndex > 0 && name == file.names[currentIndex - 1]
      requires At(at, name) in file.storage.tree && file.storage.tree[At(at, name)].Folder?
      modifies this, file, file.storage`open
      ensures Valid()
      ensures root == old(root) && recursive == old(recursive) && filter == old(filter)
      ensures elsewhere == old(elsewhere) && spelling == old(spelling)
      ensures unread == After(file.storage.tree, file.storage.list, true, At(old(at), name), old(unread))
    {
      EnterEntry(file.storage.tree, file.storage.list, spelling, root, at, currentIndex, frames, name);
      ghost var inner := After(file.storage.tree, file.storage.list, true, At(at, name), unread);
      Push(name);
      var _ := Reopen(0);
      unread := inner;
    }

    /** Cut the last component off the path and take its saved index. */
    method Pop() returns (index: nat)
      requires indexList != [] && at.At? && frames.Frame?
      modifies this
      ensures index == old(indexList)[|old(indexList)| - 1]
      ensures indexList == old(indexList)[..|old(indexList)| - 1]
      ensures path == if LastSlash(old(path)) >= 0 then old(path)[..LastSlash(old(path))] else old(path)
      ensures at == old(at).dir && frames == old(frames).below
      ensures recursive == old(recursive) && filter == old(filter)
      ensures root == old(root) && spelling == old(spelling) && elsewhere == old(elsewhere) && unread == old(unread)
    {
      at, frames := at.dir, frames.below;
      index := indexList[|indexList| - 1];
      indexList := indexList[..|indexList| - 1];
      var lastChar := LastSlash(path);
      if lastChar >= 0 {
        path := path[..lastChar];
      }
    }

    /** Return to the parent of a finished directory: reopen it and re-read it up
        to the saved index. */
    method StepOut() returns (ok: bool)
      requires Valid() && currentIndex == |file.names| && indexList != []
      modifies this, file, file.storage`open
      ensures ok && Valid()
      ensures root == old(root) && recursive == old(recursive) && filter == old(filter)
      ensures elsewhere == old(elsewhere) && spelling == old(spelling)
      ensures unread == old(unread) && |indexList| < |old(indexList)|
    {
      LeaveEntry(file.storage.tree, file.storage.list, spelling, recursive, root, at, frames);
      var index := Pop();
      ok := Reopen(index);
    }

    /** Swap the open directory for `path` and read it up to `index`. */
    method Reopen(index: nat) returns (ok: bool)
      requires file.storage.Valid() && file.Valid() && file.isOpen && OnStorage(file.dir)
      requires IsDir(file.storage.tree, file.storage.Find(path))
      requires file.storage.Find(path) !in file.storage.open - {file.dir}
      requires index <= |Entries(file.storage.tree, file.storage.list, file.storage.Find(path))|
      modifies this`currentIndex, file, file.storage`open
      ensures ok && file.Valid() && file.isOpen && file.listed && file.dir == file.storage.Find(path)
      ensures file.names == Entries(file.storage.tree, file.storage.list, file.dir)
      ensures file.pos == currentIndex == index
      ensures file.storage.open == old(file.storage.open - {file.dir}) + {file.dir}
    {
      currentIndex := 0;
      file.Close();
      var _ := file.Open(path);
      ok := Rewind(index);
    }

    method Rewind(index: nat) returns (ok: bool)
      requires file.Valid() && file.isOpen && file.listed && file.pos == currentIndex == 0
      modifies this`currentIndex, file`pos, file`error
      ensures file.Valid() && file.pos == currentIndex
      ensures ok <==> index <= |file.names|
      ensures ok ==> currentIndex == index
    {
      while true
        invariant file.Valid() && file.pos == currentIndex <= index
        decreases index - currentIndex
      {
        if index == currentIndex {
          return true;
        }
        var more, _, _ := file.Read();
        if !more {
          return false;
        }
        currentIndex := currentIndex + 1;
      }
    }

    /** Read the next entry of the open directory and count it. */
    method Next() returns (name: string, entry: FileInfo)
      requires Valid()
      modifies this`currentIndex, this`unread, file`pos, file`error
      ensures Valid()
      ensures file.error == if old(currentIndex) < |file.names| then Ok else NotExist
      ensures file.error == Ok ==>
        var t, c := file.storage.tree, At(at, name);
        && currentIndex == old(currentIndex) + 1 && name == file.names[old(currentIndex)]
        && c in t && entry == Info(t[c])
        && old(unread) == [c] + After(t, file.storage.list, recursive, c, unread)
      ensures file.error != Ok ==> currentIndex == old(currentIndex) && unread == old(unread)
    {
      ghost var t, list := file.storage.tree, file.storage.list;
      ghost var pending := Pending(t, list, recursive, root, at, frames);
      if currentIndex < |file.names| {
        ReadEntry(t, list, recursive, at, currentIndex, pending);
        unread := From(t, list, recursive, at, currentIndex + 1) + pending;
      }
      var ok, n, e := file.Read();
      name, entry := n, e;
      if file.error == Ok {
        currentIndex := currentIndex + 1;
      }
    }

    /** Hand out the entry just read if the filter accepts it, and step into it if
        it is a directory, accepted or not. */
    method TakeEntry(name: string, entry: FileInfo) returns (accepted: bool, out: string)
      requires Valid() && currentIndex > 0 && name == file.names[currentIndex - 1]
      requires At(at, name) in file.storage.tree && entry == Info(file.storage.tree[At(at, name)])
      modifies this, file, file.storage`open
      ensures Valid()
      ensures root == old(root) && recursive == old(recursive) && filter == old(filter)
      ensures elsewhere == old(elsewhere) && spelling == old(spelling)
      ensures unread == After(file.storage.tree, file.storage.list, recursive, At(old(at), name), old(unread))
      ensures accepted <==> (filter.Callback? ==> filter.cb(name, entry))
      ensures accepted ==> out == Text(spelling, At(old(at), name)) && out[LastSlash(out) + 1..] == name
    {
      accepted, out := false, "";
      if Accepts(filter, name, entry) {
        EntryExists(file.storage.tree, file.storage.list, at, currentIndex - 1);
        CutJoined(path, name);
        out := path + "/" + name;
        accepted := true;
      }
      if entry.isDir && recursive {
        StepIn(name);
      }
    }

    /** One pass of the loop in `dir_walk_iter`: the next entry is handed out or turned
        down, a finished directory is left, or the walk ends. */
    method Iterate() returns (end: bool, r: WalkResult, out: string, info: FileInfo)
      requires Valid()
      modifies this, file, file.storage`open
      ensures Valid()
      ensures root == old(root) && recursive == old(recursive) && filter == old(filter)
      ensures elsewhere == old(elsewhere) && spelling == old(spelling)
      ensures OnePass(filter, file.storage.tree, spelling, end, r, out, info, old(unread), unread)
      ensures !end && unread == old(unread) ==> |indexList| < |old(indexList)|
    {
      var name, entry := Next();
      info, out := entry, "";
      if file.error == Ok {
        r := WalkOk;
        ghost var before, t, c := old(unread), file.storage.tree, At(at, name);
        FirstOff(before, c, After(t, file.storage.list, recursive, c, unread));
        end, out := TakeEntry(name, entry);
      } else if file.error == NotExist {
        if |indexList| == 0 {
          r, end := WalkLast, true;
        } else {
          var ok := StepOut();
          r, end := if ok then WalkOk else WalkError, !ok;
        }
      } else {
        r, end := WalkError, true;
      }
    }

    /** One `dir_walk_read`.  It skips the entries that the callback turns down and
        hands out the first one that it accepts; see `ReadMeans`. */
    method Read() returns (r: WalkResult, out: string, info: FileInfo, ghost skipped: nat)
      requires Valid()
      modifies this, file, file.storage`open
      ensures Valid()
      ensures root == old(root) && recursive == old(recursive) && filter == old(filter)
      ensures elsewhere == old(elsewhere) && spelling == old(spelling)
      ensures Reading(filter, file.storage.tree, spelling, old(unread), skipped, true, r, out, info, unread)
    {
      var end := false;
      r, out, info, skipped := WalkError, "", FileInfo(false, 0), 0;
      ghost var before, t := unread, file.storage.tree;
      while !end
        invariant Valid()
        invariant root == old(root) && recursive == old(recursive) && filter == old(filter)
        invariant elsewhere == old(elsewhere) && spelling == old(spelling)
        invariant Reading(filter, t, spelling, before, skipped, end, r, out, info, unread)
        decreases !end, |unread|, |indexList|
      {
        ghost var left := unread;
        end, r, out, info := Iterate();
        skipped := PassRead(filter, t, spelling, before, skipped, end, r, out, info, left, unread);
      }
    }

    method Close()
      requires file.Valid()
      modifies this, file, file.storage`open
      ensures !file.isOpen && indexList == [] && path == "" && currentIndex == 0
      ensures file.storage.open == if old(file.isOpen) then old(file.storage.open) - file.Held(old(file.dir))
                                   else old(file.storage.open)
    {
      if file.isOpen {
        file.Close();
      }
      indexList := [];
      path := "";
      currentIndex := 0;
    }
  }

  /** The entries a walk of p is for: those strictly below p, or only its own. */
  predicate Covers(deep: bool, p: Path, q: Path) {
    q != p && if deep then Within(p, q) else q.At? && q.dir == p
  }

  /** A fresh walk of p has every such entry to read, once. */
  lemma WalkIsComplete(t: Tree, list: Listing, deep: bool, p: Path)
    requires WellFormed(t) && ValidListing(list) && p in t && t[p].Folder?
    ensures var all := From(t, list, deep, p, 0);
            && (forall i, j | 0 <= i < j < |all| :: all[i] != all[j])
            && forall q :: q in all <==>
                 q in t && q != p && if deep then Within(p, q) else q.At? && q.dir == p
  {
    PreorderVisitsOnce(t, list, deep, p, 0);
    forall q ensures q in From(t, list, deep, p, 0) <==> q in t && Covers(deep, p, q) {
      if deep {
        PreorderVisitsAll(t, list, p, q);
      } else {
        FlatVisits(t, list, p, q);
      }
    }
  }

  /** The texts are those of the entries of s at the places of idx, in order, and an
      entry before place n is left out exactly if the callback turns it down. */
  ghost predicate SelectedTo(texts: seq<string>, sp: Spelling, t: Tree, f: Filter, s: seq<Path>, idx: seq<nat>, n: nat)
  {
    && n <= |s| && |texts| == |idx|
    && (forall i | 0 <= i < |idx| :: idx[i] < n && texts[i] == Text(sp, s[idx[i]]))
    && (forall i, j | 0 <= i < j < |idx| :: idx[i] < idx[j])
    && (forall k | 0 <= k < n :: k !in idx <==> Rejected(f, t, s[k]))
  }

  lemma SelectNext(texts: seq<string>, sp: Spelling, t: Tree, f: Filter, s: seq<Path>, idx: seq<nat>, n: nat,
                   skipped: nat, out: string)
    requires n + skipped < |s| && SelectedTo(texts, sp, t, f, s, idx, n)
    requires forall k | n <= k < n + skipped :: Rejected(f, t, s[k])
    requires !Rejected(f, t, s[n + skipped]) && out == Text(sp, s[n + skipped])
    ensures SelectedTo(texts + [out], sp, t, f, s, idx + [n + skipped], n + skipped + 1)
  {
  }

  lemma SelectRest(texts: seq<string>, sp: Spelling, t: Tree, f: Filter, s: seq<Path>, idx: seq<nat>, n: nat)
    requires n <= |s| && SelectedTo(texts, sp, t, f, s, idx, n)
    requires forall k | n <= k < |s| :: Rejected(f, t, s[k])
    ensures SelectedTo(texts, sp, t, f, s, idx, |s|)
  {
  }

  lemma Ahead(s: seq<Path>, n: nat, skipped: nat)
    requires n <= |s| && n + skipped <= |s|
    ensures forall k | n <= k < n + skipped :: s[n..][k - n] == s[k]
    ensures n + skipped < |s| ==> s[n..][skipped] == s[n + skipped] && s[n..][skipped + 1..] == s[n + skipped + 1..]
  {
  }

  /** The first n entries of s have been passed. */
  predicate Passed(s: seq<Path>, n: nat, left: seq<Path>) {
    n <= |s| && left == s[n..]
  }

  /** One read of the loop. */
  lemma SelectRead(texts: seq<string>, sp: Spelling, t: Tree, f: Filter, s: seq<Path>, idx: seq<nat>, n: nat,
                   skipped: nat, r: WalkResult, out: string, info: FileInfo, left: seq<Path>, after: seq<Path>)
    requires Passed(s, n, left) && SelectedTo(texts, sp, t, f, s, idx, n)
    requires Reading(f, t, sp, left, skipped, true, r, out, info, after)
    ensures r == WalkOk ==>
      && Passed(s, n + skipped + 1, after)
      && SelectedTo(texts + [out], sp, t, f, s, idx + [n + skipped], n + skipped + 1)
    ensures r != WalkOk ==> SelectedTo(texts, sp, t, f, s, idx, |s|)
  {
    Ahead(s, n, skipped);
    forall k | n <= k < n + skipped ensures Rejected(f, t, s[k]) {
      assert s[n..][k - n] == s[k];
    }
    if r == WalkOk {
      SelectNext(texts, sp, t, f, s, idx, n, skipped, out);
    } else {
      SelectRest(texts, sp, t, f, s, idx, n);
    }
  }

  method ReadOne(walk: DirWalk, all: seq<string>, ghost s: seq<Path>, ghost idx: seq<nat>, ghost n: nat)
    returns (more: bool, all': seq<string>, ghost idx': seq<nat>, ghost n': nat)
    requires walk.Valid() && n <= |s| && walk.unread == s[n..]
    requires SelectedTo(all, walk.spelling, walk.file.storage.tree, walk.filter, s, idx, n)
    modifies walk, walk.file, walk.file.storage`open
    ensures walk.Valid() && walk.filter == old(walk.filter) && walk.spelling == old(walk.spelling)
    ensures walk.elsewhere == old(walk.elsewhere)
    ensures n' <= |s| && SelectedTo(all', walk.spelling, walk.file.storage.tree, walk.filter, s, idx', n')
    ensures if more then n' > n && walk.unread == s[n'..] else n' == |s|
  {
    var r, path, info, skipped := walk.Read();
    SelectRead(all, walk.spelling, walk.file.storage.tree, walk.filter, s, idx, n, skipped, r, path, info, s[n..], walk.unread);
    more := r == WalkOk;
    if more {
      all', idx', n' := all + [path], idx + [n + skipped], n + skipped + 1;
    } else {
      all', idx', n' := all, idx, |s|;
    }
  }

  /** The read loop of a client, from a freshly opened walk to DirWalkLast. */
  method ReadToEnd(walk: DirWalk) returns (all: seq<string>, ghost idx: seq<nat>)
    requires walk.Valid()
    modifies walk, walk.file, walk.file.storage`open
    ensures walk.Valid() && walk.filter == old(walk.filter) && walk.spelling == old(walk.spelling)
    ensures walk.elsewhere == old(walk.elsewhere)
    ensures SelectedTo(all, walk.spelling, walk.file.storage.tree, walk.filter, old(walk.unread), idx, |old(walk.unread)|)
  {
    all, idx := [], [];
    ghost var s := walk.unread;
    ghost var n: nat := 0;
    var more := true;
    while more
      invariant walk.Valid() && walk.filter == old(walk.filter) && walk.spelling == old(walk.spelling)
      invariant walk.elsewhere == old(walk.elsewhere)
      invariant n <= |s| && if more then walk.unread == s[n..] else n == |s|
      invariant SelectedTo(all, walk.spelling, walk.file.storage.tree, walk.filter, s, idx, n)
      decreases more, |s| - n
    {
      more, all, idx, n := ReadOne(walk, all, s, idx, n);
    }
  }

  /** What such a loop returns from a walk with n entries to read. */
  lemma SelectedTexts(texts: seq<string>, sp: Spelling, t: Tree, f: Filter, s: seq<Path>, idx: seq<nat>, text: string)
    requires SelectedTo(texts, sp, t, f, s, idx, |s|) && forall q | q in s :: q in t && q.At?
    ensures text in texts <==>
      exists q :: q in s && text == Text(sp, q) && (f.Callback? ==> f.cb(q.name, Info(t[q])))
  {
    if text in texts {
      var i :| 0 <= i < |texts| && texts[i] == text;
      assert s[idx[i]] in s && !Rejected(f, t, s[idx[i]]);
    }
    if q :| q in s && text == Text(sp, q) && (f.Callback? ==> f.cb(q.name, Info(t[q]))) {
      var k :| 0 <= k < |s| && s[k] == q;
      assert !Rejected(f, t, s[k]) && k in idx;
      var i :| 0 <= i < |idx| && idx[i] == k;
      assert texts[i] == text;
    }
  }

  lemma ListedTexts(texts: seq<string>, sp: Spelling, t: Tree, list: Listing, f: Filter, deep: bool, p: Path,
                    s: seq<Path>, idx: seq<nat>)
    requires WellFormed(t) && ValidListing(list) && p in t && t[p].Folder? && s == From(t, list, deep, p, 0)
    requires SelectedTo(texts, sp, t, f, s, idx, |s|)
    ensures forall text :: text in texts <==> exists q ::
              && q in t && Covers(deep, p, q) && text == Text(sp, q)
              && (f.Callback? ==> f.cb(q.name, Info(t[q])))
    ensures forall i, j | 0 <= i < j < |texts| :: texts[i] != texts[j]
  {
    WalkIsComplete(t, list, deep, p);
    forall q | q in s ensures q in t && q.At? {
      assert q in t && Covers(deep, p, q);
    }
    forall i, j | 0 <= i < j < |texts| ensures texts[i] != texts[j] {
      assert s[idx[i]] in s && s[idx[j]] in s;
      SpellEntry(t, sp, s[idx[i]]);
      SpellEntry(t, sp, s[idx[j]]);
    }
    forall text ensures text in texts <==> exists q ::
        && q in t && Covers(deep, p, q) && text == Text(sp, q)
        && (f.Callback? ==> f.cb(q.name, Info(t[q])))
    {
      SelectedTexts(texts, sp, t, f, s, idx, text);
    }
  }

  method NewWalk(storage: Storage, deep: bool, filter: Filter) returns (walk: DirWalk)
    ensures fresh(walk) && fresh(walk.file) && walk.file.storage == storage && !walk.file.isOpen && walk.file.Valid()
    ensures walk.recursive == deep && walk.filter == filter && walk.indexList == []
  {
    walk := new DirWalk(storage);
    walk.SetRecursive(deep);
    walk.SetFilter(filter);
  }

  /** A whole walk: the paths returned are those of exactly the entries below the
      directory, or directly in it, whose own name and info the callback accepts. */
  method ListTree(storage: Storage, path: string, deep: bool, filter: Filter) returns (ok: bool, all: seq<string>)
    requires storage.Valid() && storage.Find(path) !in storage.open
    requires NoDirsOpen(storage.tree, storage.Find(path), storage.open)
    modifies storage`open
    ensures storage.open == old(storage.open) && (ok <==> IsDir(storage.tree, storage.Find(path)))
    ensures ok ==> forall text ::
      text in all <==> exists q ::
        && q in storage.tree && q != storage.Find(path)
        && (if deep then Within(storage.Find(path), q) else q.At? && q.dir == storage.Find(path))
        && text == Text(SpellingOf(storage.home, path), q)
        && (filter.Callback? ==> filter.cb(q.name, Info(storage.tree[q])))
    ensures forall i, j | 0 <= i < j < |all| :: all[i] != all[j]
  {
    all := [];
    ghost var t, p, sp := storage.tree, storage.Find(path), SpellingOf(storage.home, path);
    var walk := NewWalk(storage, deep, filter);
    ok := walk.Open(path);
    if ok {
      ghost var s := walk.unread;
      ghost var idx;
      all, idx := ReadToEnd(walk);
      ListedTexts(all, sp, t, storage.list, filter, deep, p, s, idx);
      walk.HoldsOne();
    }
    walk.Close();
  }
}
