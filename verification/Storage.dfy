/** The storage service as its clients see it: the operations of storage.h that
    the tree algorithms call, each with the contract that header documents.

    `home` is the storage that "/any" stands for.  `open` is the table of open
    paths (files and directories, whoever opened them, however spelled).  A client
    opening a path that is in the table sleeps until it is closed; the algorithms
    here run alone, so their contracts ask that the paths they need are not held
    open by somebody else.
 */
module StorageService {
  import opened FileTree

  datatype FsError =
    | Ok | NotReady | Exist | NotExist | InvalidParameter
    | Denied | InvalidName | Internal | NotImplemented | AlreadyOpen

  datatype FileInfo = FileInfo(isDir: bool, size: nat)

  function Info(x: Item): FileInfo {
    match x
    case Folder => FileInfo(true, 0)
    case Document(data) => FileInfo(false, |data|)
  }

  /** q is a directory a client can name; the root above the storages is not. */
  predicate IsDir(t: Tree, q: Path) {
    q != Root && q in t && t[q].Folder?
  }

  /** A new entry may be created at q, inside a storage. */
  predicate Creatable(t: Tree, q: Path) {
    q.At? && q.dir != Root && q !in t && Linked(t, q)
  }

  /** The parent of a new entry is on a storage, so the entry is. */
  lemma CreatedOnStorage(t: Tree, q: Path)
    requires WellFormed(t)
    ensures Creatable(t, q) ==> OnStorage(q) && Proper(q)
  {
    if Creatable(t, q) {
      EntryIsProper(t, q.dir);
    }
  }

  lemma CreateKeepsForm(t: Tree, q: Path, x: Item)
    requires WellFormed(t) && Creatable(t, q)
    ensures WellFormed(t[q := x])
  {
    var u := t[q := x];
    forall r | r in u ensures Linked(u, r) && (IsMount(r) ==> u[r].Folder?) {
      assert Linked(t, r);
    }
  }

  lemma RemoveKeepsForm(t: Tree, q: Path)
    requires WellFormed(t) && q != Root && Names(t, q) == {}
    ensures WellFormed(t - {q})
  {
    var u := t - {q};
    forall r | r in u ensures Linked(u, r) && (IsMount(r) ==> u[r].Folder?) {
      assert Linked(t, r);
      assert r.At? ==> r.name in Names(t, r.dir);
    }
  }

  class Storage {
    var tree: Tree
    var open: set<Path>
    const list: Listing
    const home: string
    /** false: any operation that writes may fail for lack of space and the like */
    const reliable: bool

    constructor (tree: Tree, list: Listing, home: string, reliable: bool)
      requires WellFormed(tree) && ValidListing(list) && IsStorage(home)
      ensures Valid() && this.tree == tree && open == {}
      ensures this.list == list && this.home == home && this.reliable == reliable
    {
      this.tree, this.open, this.list, this.home, this.reliable := tree, {}, list, home, reliable;
    }

    /** The entry that a path string names. */
    function Find(path: string): Path {
      Resolve(home, path)
    }

    ghost predicate Valid()
      reads this
    {
      WellFormed(tree) && ValidListing(list) && IsStorage(home)
    }

    method Stat(path: string) returns (e: FsError, info: FileInfo)
      ensures e == if !OnStorage(Find(path)) then InvalidName else if Find(path) in tree then Ok else NotExist
      ensures e == Ok ==> info == Info(tree[Find(path)])
      ensures e == Ok ==> match tree[Find(path)]
                          case Folder => info.isDir
                          case Document(data) => !info.isDir && info.size == |data|
    {
      var p := Find(path);
      if !OnStorage(p) {
        return InvalidName, FileInfo(false, 0);
      }
      if p in tree {
        return Ok, Info(tree[p]);
      }
      return NotExist, FileInfo(false, 0);
    }

    method Mkdir(path: string) returns (e: FsError)
      requires Valid()
      modifies this`tree
      ensures Valid()
      ensures tree == if e == Ok then old(tree)[Find(path) := Folder] else old(tree)
      ensures e == Ok ==> Creatable(old(tree), Find(path))
      ensures reliable && Creatable(old(tree), Find(path)) ==> e == Ok
      ensures !OnStorage(Find(path)) <==> e == InvalidName
      ensures OnStorage(Find(path)) && Find(path) in old(tree) ==> e == Exist
    {
      var p := Find(path);
      if !OnStorage(p) {
        CreatedOnStorage(tree, p);
        return InvalidName;
      }
      if p in tree {
        return Exist;
      }
      if !Creatable(tree, p) {
        return NotExist;
      }
      if !reliable {
        var fault: bool := *;
        if fault {
          return Internal;
        }
      }
      CreateKeepsForm(tree, p, Folder);
      tree := tree[p := Folder];
      return Ok;
    }

    /** Open `source` for reading, create `target` (it must not exist) and copy
        the stream.  A failed copy can leave a partial file behind. */
    method CopyFile(source: string, target: string) returns (e: FsError)
      requires Valid() && Find(source) !in open && Find(target) !in open
      modifies this`tree
      ensures Valid()
      ensures var s, q := Find(source), Find(target);
              && (e == Ok ==> && s in old(tree) && old(tree)[s].Document? && Creatable(old(tree), q)
                              && tree == old(tree)[q := old(tree)[s]])
              && (e != Ok ==> tree - {q} == old(tree) - {q})
              && (!Creatable(old(tree), q) || s !in old(tree) ==> e != Ok && tree == old(tree))
              && (reliable && s in old(tree) && old(tree)[s].Document? && Creatable(old(tree), q) ==> e == Ok)
              && (s in old(tree) && old(tree)[s].Document? && q in old(tree) ==> e == Exist)
    {
      var s, q := Find(source), Find(target);
      if s !in tree || tree[s].Folder? {
        return NotExist;
      }
      if q in tree {
        return Exist;
      }
      if !Creatable(tree, q) {
        return NotExist;
      }
      if !reliable {
        var fault: bool := *;
        if fault {
          var partial: seq<char> := *;
          CreateKeepsForm(tree, q, Document(partial));
          tree := tree[q := Document(partial)];
          return Internal;
        }
      }
      CreateKeepsForm(tree, q, tree[s]);
      tree := tree[q := tree[s]];
      return Ok;
    }

    /** Removes a file or an empty directory that is not open; the root directory of
        a storage stays.  The code needs a path on a storage. */
    method Remove(path: string) returns (e: FsError)
      requires Valid() && OnStorage(Find(path))
      modifies this`tree
      ensures Valid()
      ensures var p := Find(path);
              && tree == (if e == Ok then old(tree) - {p} else old(tree))
              && (e == Ok <==> !IsMount(p) && p !in open && p in old(tree) && Names(old(tree), p) == {})
              && (e == NotExist <==> p !in open && p !in old(tree))
    {
      var p := Find(path);
      if p in open {
        return AlreadyOpen;
      }
      if p !in tree {
        return NotExist;
      }
      if IsMount(p) || Names(tree, p) != {} {
        return Denied;
      }
      RemoveKeepsForm(tree, p);
      tree := tree - {p};
      return Ok;
    }
  }

  /** A `File` used as a directory stream. */
  class DirHandle {
    const storage: Storage
    var isOpen: bool
    var listed: bool
    var dir: Path
    var names: seq<string>
    var pos: nat
    var error: FsError

    constructor (storage: Storage)
      ensures this.storage == storage && !isOpen && Valid()
    {
      this.storage := storage;
      isOpen, listed, dir, names, pos, error := false, false, Root, [], 0, Ok;
    }

    ghost predicate Valid()
      reads this, storage
    {
      (isOpen && OnStorage(dir) ==> dir in storage.open) && pos <= |names|
    }

    /** What an open handle on d holds in the table. */
    function Held(d: Path): set<Path> {
      if OnStorage(d) then {d} else {}
    }

    /** A path on a storage enters the open table even when the directory is missing:
        the caller has to close the handle either way. */
    method Open(p: string) returns (ok: bool)
      requires storage.Valid() && !isOpen && storage.Find(p) !in storage.open
      modifies this, storage`open
      ensures Valid() && isOpen && dir == storage.Find(p) && pos == 0 && listed == ok
      ensures storage.open == old(storage.open) + Held(dir)
      ensures ok <==> IsDir(storage.tree, dir)
      ensures ok ==> names == Entries(storage.tree, storage.list, dir) && OnStorage(dir)
    {
      var d := storage.Find(p);
      isOpen, dir, pos := true, d, 0;
      storage.open := storage.open + Held(d);
      if IsDir(storage.tree, d) {
        EntryIsProper(storage.tree, d);
        names, error, ok := Entries(storage.tree, storage.list, d), Ok, true;
      } else {
        names, error, ok := [], if OnStorage(d) then NotExist else InvalidName, false;
      }
      listed := ok;
    }

    /** The stream hands out the entries there were when it was opened; what is
        removed meanwhile must have been handed out before. */
    method Read() returns (ok: bool, name: string, info: FileInfo)
      requires Valid()
      modifies this`pos, this`error
      ensures Valid()
      ensures ok <==> isOpen && listed && old(pos) < |names|
      ensures ok ==> error == Ok && pos == old(pos) + 1 && name == names[old(pos)]
      ensures ok && At(dir, name) in storage.tree ==> info == Info(storage.tree[At(dir, name)])
      ensures ok && At(dir, name) in storage.tree ==> match storage.tree[At(dir, name)]
                                                      case Folder => info.isDir
                                                      case Document(data) => !info.isDir && info.size == |data|
      ensures !ok ==> pos == old(pos) && error == if isOpen && listed then NotExist else InvalidParameter
    {
      name, info := "", FileInfo(false, 0);
      if !isOpen || !listed {
        error, ok := InvalidParameter, false;
      } else if pos == |names| {
        error, ok := NotExist, false;
      } else {
        name := names[pos];
        var c := At(dir, name);
        if c in storage.tree {
          info := Info(storage.tree[c]);
        }
        pos, error, ok := pos + 1, Ok, true;
      }
    }

    method Close()
      requires Valid() && isOpen
      modifies this`isOpen, storage`open
      ensures !isOpen && Valid() && storage.open == old(storage.open) - Held(dir)
    {
      isOpen := false;
      storage.open := storage.open - Held(dir);
    }
  }
}
