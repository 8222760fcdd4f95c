/** `storage_simply_remove_recursive`: deletes a directory tree with one handle
    and one path string, descending at the first subdirectory it reads and
    starting over at the parent once a directory is empty. */
module RemoveTree {
  import opened FileTree
  import opened StorageService

  /** Nothing at or below p is held open. */
  ghost predicate NothingOpen(p: Path, open: set<Path>) {
    forall q | q in open :: !Within(p, q)
  }

  /** t is u with some entries at or below p deleted. */
  ghost predicate Trimmed(t: Tree, u: Tree, p: Path) {
    && (forall q | q in t :: q in u && t[q] == u[q])
    && (forall q | q in u && !Within(p, q) :: q in t)
  }

  lemma DocumentHasNoEntries(t: Tree, q: Path)
    requires WellFormed(t) && q in t && t[q].Document?
    ensures Names(t, q) == {}
  {
    if n :| n in Names(t, q) {
      NamesAreChildren(t, q, n);
      EntryHasFolder(t, At(q, n));
    }
  }

  /** A directory with something below it has an entry. */
  lemma {:induction false} HasEntry(t: Tree, p: Path, q: Path)
    requires WellFormed(t) && q in t && Within(p, q) && q != p
    ensures Names(t, p) != {}
  {
    EntryHasFolder(t, q);
    if q.dir == p {
      NamesAreChildren(t, p, q.name);
    } else {
      HasEntry(t, p, q.dir);
    }
  }

  /** Once p itself is gone, so is everything below it. */
  lemma AllGone(t: Tree, u: Tree, p: Path)
    requires WellFormed(t) && Trimmed(t, u, p) && p !in t
    ensures t == u - Sub(u, p)
  {
    forall q | q in t ensures !Within(p, q) {
      if Within(p, q) {
        AncestorIsFolder(t, p, q);
      }
    }
  }

  method SimplyRemove(s: Storage, path: string) returns (ok: bool, e: FsError)
    requires s.Valid() && OnStorage(s.Find(path))
    modifies s`tree
    ensures s.Valid()
    ensures ok <==> e == Ok || e == NotExist
    ensures var p := s.Find(path);
            && s.tree == (if e == Ok then old(s.tree) - {p} else old(s.tree))
            && (e == Ok <==> !IsMount(p) && p !in s.open && p in old(s.tree) && Names(old(s.tree), p) == {})
            && (e == NotExist <==> p !in s.open && p !in old(s.tree))
  {
    e := s.Remove(path);
    ok := e == Ok || e == NotExist;
  }

  /** Entry k of the listing of `at` and those after it are what is left there. */
  ghost predicate Leftover(t: Tree, at: Path, names: seq<string>, k: nat)
    requires k <= |names|
  {
    forall n :: At(at, n) in t <==> n in names[k..]
  }

  /** Removing the document just read leaves the entries after it. */
  lemma LeftoverStep(t: Tree, at: Path, names: seq<string>, k: nat)
    requires k < |names| && Leftover(t, at, names, k)
    requires forall i, j | 0 <= i < j < |names| :: names[i] != names[j]
    ensures At(at, names[k]) in t
    ensures Leftover(t - {At(at, names[k])}, at, names, k + 1)
  {
    assert names[k..] == [names[k]] + names[k + 1..];
  }

  /** An entry that has nothing below it is its subtree. */
  lemma GoneAtOnce(t: Tree, p: Path)
    requires WellFormed(t) && Names(t, p) == {}
    ensures t - Sub(t, p) == t - {p}
    ensures p !in t ==> t - Sub(t, p) == t
  {
    forall q | q in t && Within(p, q) ensures q == p {
      if q != p {
        HasEntry(t, p, q);
      }
    }
  }

  lemma NamesNeedEntry(t: Tree, p: Path)
    requires WellFormed(t) && (p !in t || t[p].Document?)
    ensures Names(t, p) == {}
  {
    if n :| n in Names(t, p) {
      NamesAreChildren(t, p, n);
      EntryHasFolder(t, At(p, n));
    }
  }

  /** The root directory of a storage stays: the code stops the program when it fails
      to remove it, so it must not be asked to. */
  method RemoveRecursive(s: Storage, path: string) returns (ok: bool)
    requires s.Valid() && OnStorage(s.Find(path)) && NothingOpen(s.Find(path), s.open)
    requires IsMount(s.Find(path)) ==> s.Find(path) !in s.tree
    modifies s
    ensures s.Valid() && s.open == old(s.open)
    ensures ok && s.tree == old(s.tree) - Sub(old(s.tree), s.Find(path))
  {
    ghost var p, t0, sp := s.Find(path), s.tree, SpellingOf(s.home, path);
    var removed, e := SimplyRemove(s, path);
    if p !in t0 || t0[p].Document? {
      NamesNeedEntry(t0, p);
    }
    if removed {
      GoneAtOnce(t0, p);
      return true;
    }
    EntryIsProper(t0, p);
    TextResolve(s.home, path);
    GivenBack(p, s.open, p);
    var dir := new DirHandle(s);
    var found := dir.Open(path);
    if !found {
      assert false;
    }
    DeleteFrom(s, dir, path, sp, p);
    return true;
  }

  /** The outer loop, from the moment the directory `path` is open: empty the open
      directory or go into its next subdirectory, then continue with whatever
      directory `cur` names. */
  method DeleteFrom(s: Storage, dir: DirHandle, path: string, ghost sp: Spelling, ghost p: Path)
    requires s.Valid() && dir.Valid() && dir.storage == s && IsDir(s.tree, p) && !IsMount(p)
    requires dir.isOpen && dir.listed && dir.dir == p && path == Text(sp, p) && sp.home == s.home && dir.pos == 0
    requires dir.names == Entries(s.tree, s.list, p)
    requires NothingOpen(p, s.open - {p}) && p in s.open
    modifies s, dir
    ensures s.Valid() && s.open == old(s.open) - {p}
    ensures s.tree == old(s.tree) - Sub(old(s.tree), p)
  {
    ghost var t0, elsewhere := s.tree, s.open - {p};
    EntryIsProper(t0, p);
    var cur := path;
    ghost var at := p;
    while true
      invariant s.Valid() && OpenAt(s, dir, at, elsewhere) && cur == Text(sp, at)
      invariant NothingOpen(p, elsewhere)
      invariant Trimmed(s.tree, t0, p) && IsDir(s.tree, at) && Within(p, at)
      decreases |s.tree|, Sub(s.tree, at)
    {
      var goDeeper, name := EmptyDir(s, dir, cur, sp, at, p, t0);
      GivenBack(p, elsewhere, at);
      dir.Close();
      if goDeeper {
        SubShrinks(s.tree, at, name);
        cur, at := cur + "/" + name, At(at, name);
      } else {
        SpellEntry(t0, sp, p);
        SpellEntry(s.tree, sp, at);
        RemoveDir(s, cur, sp, at, p);
        if cur == path {
          AllGone(s.tree, t0, p);
          break;
        }
        var lastChar := LastSlash(cur);
        cur, at := cur[..lastChar], at.dir;
      }
      OpenNext(s, dir, cur, sp, at, p, elsewhere);
    }
  }

  /** The handle has just opened the directory `at`, the only path of ours in the
      table. */
  ghost predicate OpenAt(s: Storage, dir: DirHandle, at: Path, elsewhere: set<Path>)
    reads s, dir, dir.storage
    requires s.Valid()
  {
    && dir.Valid() && dir.storage == s && dir.isOpen && dir.listed && dir.dir == at && dir.pos == 0
    && dir.names == Entries(s.tree, s.list, at)
    && OnStorage(at) && s.open == elsewhere + {at}
  }

  method OpenNext(s: Storage, dir: DirHandle, cur: string, ghost sp: Spelling, ghost at: Path, ghost p: Path,
                  ghost elsewhere: set<Path>)
    requires s.Valid() && dir.Valid() && dir.storage == s && !dir.isOpen && s.open == elsewhere
    requires cur == Text(sp, at) && sp.home == s.home && IsDir(s.tree, at)
    requires Within(p, at) && NothingOpen(p, elsewhere)
    modifies s`open, dir
    ensures s.Valid() && OpenAt(s, dir, at, elsewhere)
  {
    SpellEntry(s.tree, sp, at);
    EntryIsProper(s.tree, at);
    GivenBack(p, elsewhere, at);
    var _ := dir.Open(cur);
  }

  lemma GivenBack(p: Path, elsewhere: set<Path>, at: Path)
    requires NothingOpen(p, elsewhere) && Within(p, at)
    ensures at !in elsewhere && (elsewhere + {at}) - {at} == elsewhere
  {
  }

  /** Nothing at or below a directory inside a storage is a storage's root. */
  lemma BelowMount(p: Path, q: Path)
    requires Within(p, q) && p != Root && !IsMount(p)
    ensures !IsMount(q)
  {
  }

  /** Deletes an emptied directory; its parent exists, and is in the subtree unless it
      was the start. */
  method RemoveDir(s: Storage, cur: string, ghost sp: Spelling, ghost at: Path, ghost p: Path)
    requires s.Valid() && cur == Text(sp, at) && sp.home == s.home && IsDir(s.tree, at)
    requires Within(p, at) && p != Root && !IsMount(p) && at !in s.open && Names(s.tree, at) == {}
    modifies s`tree
    ensures s.Valid() && s.tree == old(s.tree) - {at} && |s.tree| < |old(s.tree)|
    ensures at.At? && (at != p ==> Within(p, at.dir) && IsDir(s.tree, at.dir))
  {
    SpellEntry(s.tree, sp, at);
    EntryIsProper(s.tree, at);
    EntryHasFolder(s.tree, at);
    BelowMount(p, at);
    WithinDeeper(at.dir, at);
    var e := s.Remove(cur);
    assert e == Ok && s.tree.Keys == old(s.tree).Keys - {at};
  }

  /** A document in a directory can be removed by the name built for it. */
  lemma RemovableDocument(t: Tree, sp: Spelling, p: Path, open: set<Path>, at: Path, n: string)
    requires WellFormed(t) && IsDir(t, at) && At(at, n) in t && t[At(at, n)].Document?
    requires Within(p, at) && NothingOpen(p, open - {at})
    ensures Resolve(sp.home, Text(sp, at) + "/" + n) == At(at, n) && OnStorage(At(at, n))
    ensures Names(t, At(at, n)) == {} && !IsMount(At(at, n)) && At(at, n) !in open && At(at, n) != at
  {
    SpellEntry(t, sp, At(at, n));
    EntryIsProper(t, At(at, n));
    DocumentHasNoEntries(t, At(at, n));
    WithinDeeper(at, At(at, n));
    assert Within(p, At(at, n));
  }

  /** The inner loop: removes the files it reads until it meets a directory or the
      end of the listing. */
  method EmptyDir(s: Storage, dir: DirHandle, cur: string, ghost sp: Spelling, ghost at: Path, ghost p: Path,
                  ghost t0: Tree)
    returns (deeper: bool, name: string)
    requires s.Valid() && dir.Valid() && dir.storage == s
    requires dir.isOpen && dir.listed && dir.dir == at && cur == Text(sp, at) && sp.home == s.home && dir.pos == 0
    requires IsDir(s.tree, at) && Within(p, at) && dir.names == Entries(s.tree, s.list, at)
    requires NothingOpen(p, s.open - {at}) && Trimmed(s.tree, t0, p)
    modifies s`tree, dir`pos, dir`error
    ensures s.Valid() && dir.Valid()
    ensures Trimmed(s.tree, t0, p) && IsDir(s.tree, at)
    ensures s.tree == old(s.tree) || |s.tree| < |old(s.tree)|
    ensures deeper ==> IsDir(s.tree, At(at, name))
    ensures !deeper ==> Names(s.tree, at) == {}
  {
    deeper, name := false, "";
    while true
      invariant s.Valid() && dir.Valid()
      invariant Trimmed(s.tree, t0, p) && IsDir(s.tree, at)
      invariant s.tree == old(s.tree) || |s.tree| < |old(s.tree)|
      invariant Leftover(s.tree, at, dir.names, dir.pos)
      decreases |dir.names| - dir.pos
    {
      ghost var k := dir.pos;
      if k < |dir.names| {
        LeftoverStep(s.tree, at, dir.names, k);
      }
      var more, n, info := dir.Read();
      if !more {
        break;
      }
      if info.isDir {
        deeper, name := true, n;
        break;
      }
      ghost var c := At(at, n);
      RemovableDocument(s.tree, sp, p, s.open, at, n);
      var e := s.Remove(cur + "/" + n);
      assert e == Ok;
    }
  }
}
