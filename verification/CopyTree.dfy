/** `storage_common_copy`, `storage_copy_recursive` and `storage_common_rename`:
    a copy walks the source with a `DirWalk` and rebuilds every path it is given
    as the new prefix plus what follows the old one. */
module CopyTree {
  import opened FileTree
  import opened StorageService
  import opened Preorder
  import opened DirWalking
  import opened RemoveTree

  /** The place of q (at or below a) in a copy of a made at b. */
  function Graft(q: Path, a: Path, b: Path): Path
    requires Within(a, q)
  {
    if q == a then b else At(Graft(q.dir, a, b), q.name)
  }

  lemma {:induction false} GraftBack(q: Path, a: Path, b: Path)
    requires Within(a, q)
    ensures Within(b, Graft(q, a, b)) && Graft(Graft(q, a, b), b, a) == q
  {
    if q != a {
      GraftBack(q.dir, a, b);
      WithinDeeper(b, Graft(q.dir, a, b));
    }
  }

  /** The string operation of the copy loop is `Graft`, whatever the spellings. */
  lemma {:induction false} GraftText(sa: Spelling, sb: Spelling, q: Path, a: Path, b: Path)
    requires Within(a, q) && a != Root && b != Root
    ensures |Text(sa, a)| <= |Text(sa, q)|
    ensures Text(sb, Graft(q, a, b)) == Text(sb, b) + Text(sa, q)[|Text(sa, a)|..]
  {
    if q != a {
      GraftText(sa, sb, q.dir, a, b);
      WithinSameTop(a, q.dir);
      GraftBack(q.dir, a, b);
      WithinSameTop(b, Graft(q.dir, a, b));
      var k := |Text(sa, a)|;
      assert Text(sa, q)[k..] == Text(sa, q.dir)[k..] + "/" + q.name;
    }
  }

  /** A path as it is written, component by component. */
  function Plain(p: Path): string {
    Text(Spelling("", false), p)
  }

  lemma {:induction false} BelowHasPrefix(a: Path, q: Path)
    requires Within(a, q) && q != a
    ensures Plain(a) + "/" <= Plain(q)
  {
    if q.dir != a {
      BelowHasPrefix(a, q.dir);
    }
  }

  /** Comparing strings decides whether one extends another by components. */
  lemma {:induction false} PrefixIsBelow(a: Path, q: Path)
    requires ValidNames(a) && ValidNames(q) && Plain(a) + "/" <= Plain(q)
    ensures Within(a, q) && q != a
  {
    var k := |Plain(a)|;
    assert Plain(q)[k] == (Plain(a) + "/")[k];
    CutJoined(Plain(q.dir), q.name);
    var d := Plain(q.dir);
    assert k <= |d|;
    assert Plain(a) == Plain(q)[..k] == d[..k];
    if k == |d| {
      ParseText("", a);
      ParseText("", q.dir);
    } else {
      assert d[k] == Plain(q)[k];
      assert Plain(a) + "/" == d[..k + 1];
      PrefixIsBelow(a, q.dir);
    }
    WithinDeeper(a, q.dir);
  }

  /** The components of a string that names a proper path spell it. */
  lemma PlainParse(home: string, s: string)
    requires Proper(Resolve(home, s))
    ensures ValidNames(Parse(s)) && Plain(Parse(s)) == s
  {
    ProperNames(Resolve(home, s));
    CanonicalNames(home, Parse(s));
    TextParseUpTo("", s, |s|);
  }

  lemma {:induction false} Comparable(a: Path, b: Path, q: Path)
    requires Within(a, q) && Within(b, q)
    ensures Within(a, b) || Within(b, a)
  {
    if q != a && q != b {
      Comparable(a, b, q.dir);
    }
  }

  /** t and u agree outside b. */
  ghost predicate SameOutside(t: Tree, u: Tree, b: Path) {
    forall q | !Within(b, q) :: (q in t <==> q in u) && (q in t ==> t[q] == u[q])
  }

  /** u is t with a copy, names and contents, of everything at or below a placed
      at b. */
  ghost predicate Copied(t: Tree, u: Tree, a: Path, b: Path) {
    && SameOutside(t, u, b)
    && forall q | Within(b, q) :: CopiedAt(t, u, a, b, q)
  }

  predicate CopiedAt(t: Tree, u: Tree, a: Path, b: Path, q: Path)
    requires Within(b, q)
  {
    (q in u <==> Graft(q, b, a) in t) && (q in u ==> u[q] == t[Graft(q, b, a)])
  }

  /** The copy after the entries in `done` have been made. */
  ghost predicate Partly(t: Tree, u: Tree, a: Path, b: Path, done: seq<Path>) {
    && SameOutside(t, u, b)
    && forall q {:trigger q in u} {:trigger Within(b, q)} | Within(b, q) ::
         && (q in u <==> Graft(q, b, a) == a || Graft(q, b, a) in done)
         && (q in u ==> Graft(q, b, a) in t && u[q] == t[Graft(q, b, a)])
  }

  lemma NothingBelow(t: Tree, b: Path, q: Path)
    requires WellFormed(t) && b !in t && Within(b, q)
    ensures q !in t
  {
    if q in t {
      AncestorIsFolder(t, b, q);
    }
  }

  /** A fresh b that is not below a existing directory a shares no path with it. */
  lemma Apart(t: Tree, a: Path, b: Path, q: Path)
    requires WellFormed(t) && a in t && b !in t && !Within(a, b) && Within(a, q)
    ensures !Within(b, q)
  {
    if Within(b, q) {
      Comparable(a, b, q);
      NothingBelow(t, b, a);
    }
  }

  lemma PartlyStart(t: Tree, a: Path, b: Path)
    requires WellFormed(t) && a in t && t[a].Folder? && b !in t
    ensures Partly(t, t[b := Folder], a, b, [])
  {
    var u := t[b := Folder];
    forall q | Within(b, q)
      ensures q in u <==> Graft(q, b, a) == a
      ensures q in u ==> Graft(q, b, a) in t && u[q] == t[Graft(q, b, a)]
    {
      NothingBelow(t, b, q);
      GraftBack(q, b, a);
    }
  }

  lemma PartlyStep(t: Tree, u: Tree, a: Path, b: Path, done: seq<Path>, c: Path)
    requires Partly(t, u, a, b, done) && Within(a, c) && c in t
    ensures Partly(t, u[Graft(c, a, b) := t[c]], a, b, done + [c])
  {
    var v := u[Graft(c, a, b) := t[c]];
    GraftBack(c, a, b);
    forall q | Within(b, q)
      ensures q in v <==> Graft(q, b, a) == a || Graft(q, b, a) in done + [c]
      ensures q in v ==> Graft(q, b, a) in t && v[q] == t[Graft(q, b, a)]
    {
      GraftBack(q, b, a);
    }
  }

  lemma PartlyEnd(t: Tree, u: Tree, a: Path, b: Path, done: seq<Path>)
    requires Partly(t, u, a, b, done) && a in t
    requires forall q :: q in done <==> q in t && Within(a, q) && q != a
    ensures Copied(t, u, a, b)
  {
    forall q | Within(b, q) ensures CopiedAt(t, u, a, b, q) {
      GraftBack(q, b, a);
    }
  }

  /** The parent of the next entry has been copied already, so the next one can be
      created; and it has not been created yet. */
  lemma NextIsCreatable(t: Tree, u: Tree, a: Path, b: Path, done: seq<Path>, c: Path)
    requires WellFormed(t) && Partly(t, u, a, b, done)
    requires a in t && t[a].Folder? && c in t && Within(a, c) && c != a && b != Root
    requires c !in done && (c.dir == a || c.dir in done)
    ensures Creatable(u, Graft(c, a, b))
  {
    var q := Graft(c, a, b);
    GraftBack(c, a, b);
    GraftBack(c.dir, a, b);
    EntryHasFolder(t, c);
    assert q.dir == Graft(c.dir, a, b) && Within(b, q.dir);
    WithinSameTop(b, q.dir);
    assert q.dir in u && u[q.dir] == t[c.dir];
  }

  // ---- the walk while the tree changes elsewhere ----

  lemma {:induction false} PositionedFrame(t: Tree, u: Tree, list: Listing, root: Path, at: Path, fr: Frames)
    requires WellFormed(t) && WellFormed(u) && ValidListing(list) && SameWithin(t, u, root)
    requires Positioned(t, list, root, at, fr)
    ensures Positioned(u, list, root, at, fr)
    ensures Pending(t, list, true, root, at, fr) == Pending(u, list, true, root, at, fr)
    decreases fr
  {
    match fr
    case Bottom =>
    case Frame(d, k, below) =>
      PositionedFrame(t, u, list, root, d, below);
      SameFurtherIn(t, u, root, d);
      EntriesFrame(t, u, list, d);
      FromFrame(t, u, list, true, d, k);
  }

  lemma {:induction false} PendingMembers(t: Tree, list: Listing, root: Path, at: Path, fr: Frames, q: Path)
    requires WellFormed(t) && ValidListing(list) && Positioned(t, list, root, at, fr)
    requires q in Pending(t, list, true, root, at, fr)
    ensures q in t && q.At? && Within(root, q)
    decreases fr
  {
    match fr
    case Frame(d, k, below) =>
      if q in From(t, list, true, d, k) {
        FromWithin(t, list, root, d, k, q);
      } else {
        PendingMembers(t, list, root, d, below, q);
      }
  }

  lemma FromWithin(t: Tree, list: Listing, root: Path, p: Path, i: nat, q: Path)
    requires WellFormed(t) && ValidListing(list) && p in t && Within(root, p)
    requires i <= |Entries(t, list, p)| && q in From(t, list, true, p, i)
    ensures q in t && q.At? && Within(root, q)
  {
    FromMembers(t, list, true, p, i, q);
    var k :| i <= k < |Entries(t, list, p)| && Through(t, true, At(p, Entries(t, list, p)[k]), q);
    var c := At(p, Entries(t, list, p)[k]);
    WithinTransitive(root, c, q);
  }

  /** Changes outside the walked directory do not disturb a walk. */
  twostate lemma StillValid(walk: DirWalk)
    requires old(walk.Valid()) && walk.recursive
    requires unchanged(walk) && unchanged(walk.file) && walk.file.storage.open == old(walk.file.storage.open)
    requires WellFormed(walk.file.storage.tree)
    requires SameWithin(old(walk.file.storage.tree), walk.file.storage.tree, walk.root)
    ensures walk.Valid()
  {
    var s := walk.file.storage;
    var t, u := old(s.tree), s.tree;
    PositionedFrame(t, u, s.list, walk.root, walk.at, walk.frames);
    SameFurtherIn(t, u, walk.root, walk.at);
    EntriesFrame(t, u, s.list, walk.at);
    FromFrame(t, u, s.list, true, walk.at, walk.currentIndex);
  }

  // ---- copying ----

  /** The source and the target are not in use by anybody else. */
  ghost predicate Unused(t: Tree, open: set<Path>, a: Path, b: Path) {
    && a !in open && b !in open
    && (a in t && t[a].Folder? ==> NothingOpen(a, open) && NothingOpen(b, open))
  }

  /** Nobody copies a directory into itself. */
  predicate NotIntoItself(t: Tree, a: Path, b: Path) {
    a in t && t[a].Folder? && Creatable(t, b) ==> !Within(a, b)
  }

  /** What a copy from a to b that answered e has done to t. */
  ghost predicate CopyOutcome(t: Tree, u: Tree, a: Path, b: Path, e: FsError) {
    && (e == Ok ==> a in t && a != Root && Creatable(t, b) && Copied(t, u, a, b))
    && SameOutside(t, u, b)
    && (a !in t || !Creatable(t, b) ==> e != Ok && u == t)
  }

  /** The same entry by entry: a copy that succeeds has everything at or below the source
      at its place below the target, with its contents, and nothing else there; whatever
      the answer, nothing outside the target has changed. */
  lemma CopyMeans(t: Tree, u: Tree, a: Path, b: Path, e: FsError)
    requires CopyOutcome(t, u, a, b, e)
    ensures forall q | !Within(b, q) :: (q in t <==> q in u) && (q in t ==> t[q] == u[q])
    ensures e == Ok ==> forall q | q in t && Within(a, q) :: Graft(q, a, b) in u && u[Graft(q, a, b)] == t[q]
    ensures e == Ok ==> forall q | q in u && Within(b, q) :: Graft(q, b, a) in t && u[q] == t[Graft(q, b, a)]
    ensures a !in t ==> e != Ok && u == t
  {
    if e == Ok {
      forall q | q in t && Within(a, q) ensures Graft(q, a, b) in u && u[Graft(q, a, b)] == t[q] {
        GraftBack(q, a, b);
      }
    }
  }

  lemma CopiedDocument(t: Tree, a: Path, b: Path)
    requires WellFormed(t) && a in t && t[a].Document? && Creatable(t, b)
    ensures Copied(t, t[b := t[a]], a, b)
  {
    var u := t[b := t[a]];
    forall q | Within(b, q) ensures CopiedAt(t, u, a, b, q) {
      NothingBelow(t, b, q);
      GraftBack(q, b, a);
      if q != b && Graft(q, b, a) in t {
        AncestorIsFolder(t, a, Graft(q, b, a));
      }
    }
  }

  method Copy(s: Storage, source: string, target: string) returns (e: FsError)
    requires s.Valid() && Unused(s.tree, s.open, s.Find(source), s.Find(target))
    requires NotIntoItself(s.tree, s.Find(source), s.Find(target))
    modifies s
    ensures s.Valid() && s.open == old(s.open)
    ensures CopyOutcome(old(s.tree), s.tree, s.Find(source), s.Find(target), e)
    ensures e == Ok && old(s.tree)[s.Find(source)].Document? ==>
              s.tree == old(s.tree)[s.Find(target) := old(s.tree)[s.Find(source)]]
    ensures (s.reliable && s.Find(source) in old(s.tree) && s.Find(source) != Root
             && Creatable(old(s.tree), s.Find(target))) ==> e == Ok
    ensures OnStorage(s.Find(source)) && s.Find(source) !in old(s.tree) ==> e == NotExist
    ensures var t, a, b := old(s.tree), s.Find(source), s.Find(target);
            a in t && a != Root && b in t && b != Root ==> e == Exist
    decreases IsDir(s.tree, s.Find(source)), 3
  {
    var info;
    if s.Find(source) in s.tree {
      EntryIsProper(s.tree, s.Find(source));
    }
    e, info := s.Stat(source);
    if e == Ok {
      if info.isDir {
        e := CopyRecursive(s, source, target);
      } else {
        e := CopyDocument(s, source, target);
      }
    }
  }

  /** The part of `storage_common_copy` that streams one file into a new one. */
  method CopyDocument(s: Storage, source: string, target: string) returns (e: FsError)
    requires s.Valid() && s.Find(source) !in s.open && s.Find(target) !in s.open
    requires s.Find(source) in s.tree && s.tree[s.Find(source)].Document?
    modifies s`tree
    ensures s.Valid()
    ensures CopyOutcome(old(s.tree), s.tree, s.Find(source), s.Find(target), e)
    ensures e == Ok ==> s.tree == old(s.tree)[s.Find(target) := old(s.tree)[s.Find(source)]]
    ensures s.Find(target) in old(s.tree) ==> e == Exist
    ensures s.reliable && Creatable(old(s.tree), s.Find(target)) ==> e == Ok
  {
    ghost var t, a, b := s.tree, s.Find(source), s.Find(target);
    if Creatable(t, b) {
      CopiedDocument(t, a, b);
    }
    e := s.CopyFile(source, target);
    assert forall q | q != b :: (q in s.tree - {b} <==> q in s.tree) && (q in t - {b} <==> q in t);
    assert e != Ok ==> forall q | q in s.tree && q != b :: (s.tree - {b})[q] == s.tree[q];
    assert forall q | q in t && q != b :: (t - {b})[q] == t[q];
  }

  method CopyRecursive(s: Storage, source: string, target: string) returns (e: FsError)
    requires s.Valid() && Unused(s.tree, s.open, s.Find(source), s.Find(target))
    requires IsDir(s.tree, s.Find(source)) && NotIntoItself(s.tree, s.Find(source), s.Find(target))
    modifies s
    ensures s.Valid() && s.open == old(s.open)
    ensures CopyOutcome(old(s.tree), s.tree, s.Find(source), s.Find(target), e)
    ensures s.reliable && Creatable(old(s.tree), s.Find(target)) ==> e == Ok
    ensures s.Find(target) != Root && s.Find(target) in old(s.tree) ==> e == Exist
    decreases true, 2
  {
    ghost var t, a, b := s.tree, s.Find(source), s.Find(target);
    EntryIsProper(t, a);
    if b in t {
      EntryIsProper(t, b);
    }
    TextResolve(s.home, source);
    e := s.Mkdir(target);
    var walk := new DirWalk(s);
    if e == Ok {
      PartlyStart(t, a, b);
      EntryIsProper(s.tree, b);
      TextResolve(s.home, target);
      SourceUntouched(t, s.tree, a, b);
      var ok := walk.Open(source);
      if !ok {
        assert false;
      }
      EntriesFrame(t, s.tree, s.list, a);
      FromFrame(t, s.tree, s.list, true, a, 0);
      e := CopyEntries(s, walk, source, target, SpellingOf(s.home, target), t, a, b);
      walk.HoldsOne();
    }
    walk.Close();
  }

  /** The invariant of the copy loop: the walk stands somewhere in the source, the
      entries read so far have been copied, the rest is unread. */
  ghost predicate Copying(s: Storage, walk: DirWalk, t: Tree, a: Path, b: Path, done: seq<Path>)
    requires WellFormed(t) && IsDir(t, a)
    reads s, walk, walk.file, walk.file.storage
  {
    && walk.file.storage == s && walk.Valid()
    && walk.recursive && walk.filter == NoFilter && walk.root == a
    && Partly(t, s.tree, a, b, done)
    && done + walk.unread == From(t, s.list, true, a, 0)
  }

  /** The places of the entries and of their copies are unused. */
  ghost predicate Ready(t: Tree, a: Path, b: Path, elsewhere: set<Path>) {
    && WellFormed(t) && IsDir(t, a) && b !in t && !Within(a, b) && Proper(b) && b != Root
    && NothingOpen(a, elsewhere) && NothingOpen(b, elsewhere)
  }

  lemma SourceUntouched(t: Tree, u: Tree, a: Path, b: Path)
    requires WellFormed(t) && a in t && b !in t && !Within(a, b) && SameOutside(t, u, b)
    ensures SameWithin(t, u, a)
  {
    forall q | Within(a, q) ensures (q in t <==> q in u) && (q in t ==> t[q] == u[q]) {
      Apart(t, a, b, q);
    }
  }

  /** The next entry is new, its parent has been copied, and the string built for
      it spells its place in the copy. */
  lemma NextEntry(t: Tree, list: Listing, u: Tree, sa: Spelling, sb: Spelling, a: Path, b: Path,
                  done: seq<Path>, c: Path, rest: seq<Path>)
    requires WellFormed(t) && ValidListing(list) && IsDir(t, a) && Proper(b) && b != Root
    requires Partly(t, u, a, b, done) && done + ([c] + rest) == From(t, list, true, a, 0)
    ensures c in t && Within(a, c) && c != a && Creatable(u, Graft(c, a, b))
    ensures Resolve(sa.home, Text(sa, c)) == c
    ensures |Text(sa, a)| <= |Text(sa, c)|
    ensures Text(sb, b) + Text(sa, c)[|Text(sa, a)|..] == Text(sb, Graft(c, a, b))
    ensures Resolve(sb.home, Text(sb, Graft(c, a, b))) == Graft(c, a, b)
  {
    var all := From(t, list, true, a, 0);
    var k := |done|;
    assert all[k] == c && all[..k] == done;
    PreorderVisitsAll(t, list, a, c);
    PreorderVisitsOnce(t, list, true, a, 0);
    PreorderParentsFirst(t, list, true, a, 0);
    NextIsCreatable(t, u, a, b, done, c);
    EntryIsProper(t, c);
    ResolveText(sa, c);
    GraftText(sa, sb, c, a, b);
    GraftProper(c, a, b);
    ResolveText(sb, Graft(c, a, b));
  }

  lemma {:induction false} GraftProper(q: Path, a: Path, b: Path)
    requires Within(a, q) && Proper(q) && Proper(b) && b != Root
    ensures Proper(Graft(q, a, b))
  {
    if q != a {
      GraftProper(q.dir, a, b);
      GraftBack(q.dir, a, b);
      WithinSameTop(b, Graft(q.dir, a, b));
    }
  }

  /** Neither a document nor its copy is the directory the walk holds open. */
  lemma NextUnused(t: Tree, a: Path, b: Path, elsewhere: set<Path>, at: Path, c: Path)
    requires Ready(t, a, b, elsewhere) && at in t && t[at].Folder? && Within(a, at)
    requires c in t && t[c].Document? && Within(a, c)
    ensures c !in elsewhere + {at} && Graft(c, a, b) !in elsewhere + {at}
  {
    GraftBack(c, a, b);
    Apart(t, a, b, at);
  }

  lemma AllCopied(t: Tree, list: Listing, u: Tree, a: Path, b: Path, done: seq<Path>)
    requires WellFormed(t) && ValidListing(list) && IsDir(t, a)
    requires Partly(t, u, a, b, done) && done == From(t, list, true, a, 0)
    ensures Copied(t, u, a, b)
  {
    forall q ensures q in done <==> q in t && Within(a, q) && q != a {
      PreorderVisitsAll(t, list, a, q);
    }
    PartlyEnd(t, u, a, b, done);
  }

  lemma OutsideStep(t: Tree, u: Tree, v: Tree, b: Path, q: Path)
    requires SameOutside(t, u, b) && SameOutside(u, v, q) && Within(b, q)
    ensures SameOutside(t, v, b)
  {
    forall r | !Within(b, r) ensures (r in t <==> r in v) && (r in t ==> t[r] == v[r]) {
      if Within(q, r) {
        WithinTransitive(b, q, r);
      }
    }
  }

  lemma NoneSkipped(before: seq<Path>, skipped: nat, after: seq<Path>)
    requires skipped == 0
    ensures before != [] && after == before[1..] ==> before == [before[0]] + after
  {
  }

  /** A read without a filter hands out the next unread entry. */
  method ReadNext(s: Storage, walk: DirWalk) returns (r: WalkResult, path: string, info: FileInfo)
    requires walk.file.storage == s && walk.Valid() && walk.recursive && walk.filter == NoFilter
    modifies s`open, walk, walk.file
    ensures walk.Valid() && walk.recursive && walk.filter == NoFilter
    ensures walk.root == old(walk.root) && walk.elsewhere == old(walk.elsewhere)
    ensures walk.spelling == old(walk.spelling)
    ensures old(walk.unread) == [] ==> r == WalkLast
    ensures old(walk.unread) != [] ==> var c := old(walk.unread)[0];
              && r == WalkOk && old(walk.unread) == [c] + walk.unread
              && c in s.tree && path == Text(walk.spelling, c) && info == Info(s.tree[c])
  {
    ghost var unread := walk.unread;
    ghost var skipped;
    r, path, info, skipped := walk.Read();
    ReadMeans(NoFilter, s.tree, walk.spelling, unread, skipped, r, path, info, walk.unread);
    NoneSkipped(unread, skipped, walk.unread);
  }

  method CopyEntries(s: Storage, walk: DirWalk, source: string, target: string, ghost sb: Spelling,
                     ghost t: Tree, ghost a: Path, ghost b: Path)
    returns (e: FsError)
    requires Ready(t, a, b, walk.elsewhere) && sb.home == s.home
    requires source == Text(walk.spelling, a) && target == Text(sb, b)
    requires Copying(s, walk, t, a, b, [])
    modifies s, walk, walk.file
    ensures walk.file.storage == s && walk.Valid() && walk.elsewhere == old(walk.elsewhere)
    ensures e == Ok ==> Copied(t, s.tree, a, b)
    ensures SameOutside(t, s.tree, b)
    ensures s.reliable ==> e == Ok
    decreases true, 1
  {
    e := Ok;
    ghost var done: seq<Path> := [];
    while true
      invariant Copying(s, walk, t, a, b, done) && walk.elsewhere == old(walk.elsewhere)
      invariant walk.spelling == old(walk.spelling)
      invariant e == Ok
      decreases |walk.unread|
    {
      ghost var unread := walk.unread;
      var r, path, info := ReadNext(s, walk);
      if r == WalkError {
        // a walk over existing directories never fails
        assert false;
        break;
      } else if r == WalkLast {
        AllCopied(t, s.list, s.tree, a, b, done);
        break;
      }
      ghost var c := unread[0];
      NextEntry(t, s.list, s.tree, walk.spelling, sb, a, b, done, c, walk.unread);
      SourceUntouched(t, s.tree, a, b);
      assert Within(a, c);
      e := CopyEntry(s, walk, path, target + path[|source|..], info, t, a, b, done, c);
      if e != Ok {
        break;
      }
      Rejoin(done, [c], walk.unread);
      done := done + [c];
    }
  }

  /** One entry of the copy loop. */
  method CopyEntry(s: Storage, walk: DirWalk, path: string, newPath: string, info: FileInfo,
                   ghost t: Tree, ghost a: Path, ghost b: Path, ghost done: seq<Path>, ghost c: Path)
    returns (e: FsError)
    requires Ready(t, a, b, walk.elsewhere)
    requires walk.file.storage == s && walk.Valid() && walk.recursive && walk.root == a
    requires c in t && Within(a, c) && Partly(t, s.tree, a, b, done)
    requires Creatable(s.tree, Graft(c, a, b))
    requires s.Find(path) == c && c != a && info == Info(t[c])
    requires s.Find(newPath) == Graft(c, a, b)
    modifies s
    ensures walk.Valid() && s.open == old(s.open)
    ensures SameOutside(t, s.tree, b)
    ensures e == Ok ==> Partly(t, s.tree, a, b, done + [c])
    ensures s.reliable ==> e == Ok
    decreases true, 0
  {
    ghost var u := s.tree;
    SourceUntouched(t, u, a, b);
    assert c in u && u[c] == t[c];
    PartlyStep(t, u, a, b, done, c);
    if info.isDir {
      e := s.Mkdir(newPath);
    } else {
      NextUnused(t, a, b, walk.elsewhere, walk.at, c);
      e := Copy(s, path, newPath);
    }
    GraftBack(c, a, b);
    OutsideStep(t, u, s.tree, b, Graft(c, a, b));
    SourceUntouched(t, s.tree, a, b);
    StillValid(walk);
  }

  // ---- renaming ----

  /** u is t with everything at or below a moved to b. */
  ghost predicate Moved(t: Tree, u: Tree, a: Path, b: Path) {
    && (forall q | Within(b, q) :: CopiedAt(t, u, a, b, q))
    && forall q | !Within(b, q) ::
         (q in u <==> q in t && !Within(a, q)) && (q in u ==> u[q] == t[q])
  }

  /** A copy can be made at b, once a file there is removed. */
  predicate FreeTarget(t: Tree, b: Path) {
    Creatable(t, b) || (b in t && t[b].Document?)
  }

  /** What a move is, entry by entry. */
  lemma MovedMeans(t: Tree, u: Tree, a: Path, b: Path)
    requires Moved(t, u, a, b) && !Within(a, b) && !Within(b, a)
    ensures forall q | q in t && Within(a, q) :: Graft(q, a, b) in u && u[Graft(q, a, b)] == t[q]
    ensures forall q | q in u && Within(b, q) :: Graft(q, b, a) in t && u[q] == t[Graft(q, b, a)]
    ensures forall q | Within(a, q) :: q !in u
    ensures forall q | !Within(a, q) && !Within(b, q) :: (q in t <==> q in u) && (q in t ==> t[q] == u[q])
  {
    forall q | Within(a, q) ensures q !in u && (q in t ==> Graft(q, a, b) in u && u[Graft(q, a, b)] == t[q]) {
      GraftBack(q, a, b);
      if Within(b, q) {
        Comparable(a, b, q);
      }
    }
  }

  /** The requests that a rename meets: the source exists, the target is new or a
      file to be replaced, and it is neither the source nor inside it. */
  predicate Movable(t: Tree, a: Path, b: Path) {
    a in t && a != Root && b != a && !(t[a].Folder? && Within(a, b)) && FreeTarget(t, b)
  }

  /** The target is a file and is removed before the copy. */
  predicate Replaces(t: Tree, a: Path, b: Path) {
    && a in t && a != Root && b in t && t[b].Document?
    && !(t[a].Folder? && Within(a, b) && a != b)
  }

  function Cleared(t: Tree, a: Path, b: Path): Tree {
    if Replaces(t, a, b) then t - {b} else t
  }

  /** The prefix test of a rename finds the existing or creatable targets inside the
      source directory, exactly those spelled with the same storage name. */
  lemma PrefixTest(t: Tree, home: string, a: Path, b: Path, source: string, target: string)
    requires WellFormed(t) && a in t && a != Root && (b in t || Creatable(t, b))
    requires Resolve(home, source) == a && Resolve(home, target) == b
    ensures source != "" && source[|source| - 1] != '/'
    ensures source + "/" <= target <==>
              Within(a, b) && a != b && SpellingOf(home, source) == SpellingOf(home, target)
  {
    var pa, pb := Parse(source), Parse(target);
    EntryIsProper(t, a);
    PlainParse(home, source);
    assert source == Plain(pa.dir) + "/" + pa.name;
    assert source[|source| - 1] == pa.name[|pa.name| - 1];
    EntryIsProper(t, if b in t then b else b.dir);
    PlainParse(home, target);
    if source + "/" <= target {
      PrefixIsBelow(pa, pb);
      WithinSameTop(pa, pb);
    }
    if (TopName(pa) == ANY) == (TopName(pb) == ANY) {
      CanonicalWithin(home, pa, pb);
      CanonicalApart(home, pa, pb);
      if Within(pa, pb) && pa != pb {
        BelowHasPrefix(pa, pb);
      }
    }
  }

  /** The target is inside the source directory, but spelled with the storage's other
      name; the prefix test misses it and the copy goes into what it copies. */
  predicate HiddenInside(t: Tree, home: string, source: string, target: string) {
    var a, b := Resolve(home, source), Resolve(home, target);
    && a in t && t[a].Folder? && Within(a, b) && a != b && FreeTarget(t, b)
    && SpellingOf(home, source) != SpellingOf(home, target)
  }

  lemma ClearedFacts(t: Tree, a: Path, b: Path)
    requires WellFormed(t) && a in t && a != Root
    requires FreeTarget(t, b) ==> !(t[a].Folder? && Within(a, b) && a != b)
    ensures WellFormed(Cleared(t, a, b)) && NotIntoItself(Cleared(t, a, b), a, b)
    ensures Replaces(t, a, b) ==> Names(t, b) == {}
    ensures Movable(t, a, b) <==> a in Cleared(t, a, b) && Creatable(Cleared(t, a, b), b)
    ensures Movable(t, a, b) ==> !Within(a, b)
  {
    if b in t && t[b].Document? {
      DocumentHasNoEntries(t, b);
      RemoveKeepsForm(t, b);
      EntryHasFolder(t, b);
      EntryIsProper(t, b);
    }
    if t[a].Document? && a != b {
      NothingInDocument(t, a, b);
    }
  }

  lemma NothingInDocument(t: Tree, a: Path, b: Path)
    requires WellFormed(t) && a in t && t[a].Document? && a != b
    ensures Within(a, b) ==> b !in t && !Creatable(t, b)
  {
    if Within(a, b) && b in t {
      AncestorIsFolder(t, a, b);
    }
    if Within(a, b) && Creatable(t, b) && b.dir != a {
      AncestorIsFolder(t, a, b.dir);
    }
  }

  /** Copying and then deleting the source moves it. */
  lemma CopiedThenRemoved(t: Tree, u: Tree, a: Path, b: Path)
    requires WellFormed(t) && Movable(t, a, b) && Copied(Cleared(t, a, b), u, a, b)
    requires a in Cleared(t, a, b) && !Within(a, b)
    ensures Moved(t, u - Sub(u, a), a, b)
  {
    var c := Cleared(t, a, b);
    var v := u - Sub(u, a);
    ClearedFacts(t, a, b);
    forall q | Within(b, q) ensures CopiedAt(t, v, a, b, q) {
      GraftBack(q, b, a);
      assert CopiedAt(c, u, a, b, q);
      if Within(a, q) {
        Apart(c, a, b, q);
      }
      if b == Graft(q, b, a) {
        Apart(c, a, b, b);
      }
    }
  }

  /** A rename of a file to itself deletes it and then finds nothing to copy. */
  predicate OntoItself(t: Tree, a: Path, b: Path) {
    a == b && a in t && t[a].Document?
  }

  /** "/any" is a second spelling of everything on the storage it stands for. */
  lemma {:induction false} TwoSpellings(home: string, p: Path)
    requires Proper(p) && TopName(p) == home
    ensures var s, u := Text(Spelling(home, true), p), Text(Spelling(home, false), p);
            p != Root ==> s != u && Resolve(home, s) == Resolve(home, u) == p
  {
    ResolveText(Spelling(home, true), p);
    ResolveText(Spelling(home, false), p);
    if p.At? && p.dir != Root {
      TwoSpellings(home, p.dir);
      StillDifferent(Text(Spelling(home, true), p.dir), Text(Spelling(home, false), p.dir), p.name);
    }
  }

  lemma StillDifferent(s: string, u: string, n: string)
    requires s != u
    ensures s + "/" + n != u + "/" + n
  {
    assert (s + "/" + n)[..|s|] == s && (u + "/" + n)[..|u|] == u;
  }

  /** What a rename from a to b that answered e has done to t: success means the
      whole subtree moved; failure loses nothing of the source, and changes nothing
      outside the target, unless a file was renamed to itself. */
  ghost predicate RenameOutcome(t: Tree, u: Tree, a: Path, b: Path, e: FsError) {
    && (e == Ok ==> Movable(t, a, b) && Moved(t, u, a, b))
    && (e != Ok ==> SameOutside(t, u, b) && (SameWithin(t, u, a) <==> !OntoItself(t, a, b)))
  }

  /** The same entry by entry, for failures (`MovedMeans` has the successes). */
  lemma RenameMeans(t: Tree, u: Tree, a: Path, b: Path, e: FsError)
    requires RenameOutcome(t, u, a, b, e)
    ensures e == Ok ==> a in t && a != Root && Moved(t, u, a, b)
    ensures e != Ok ==> forall q | !Within(b, q) :: (q in t <==> q in u) && (q in t ==> t[q] == u[q])
    ensures e != Ok && !(a == b && a in t && t[a].Document?) ==>
              forall q | Within(a, q) :: (q in t <==> q in u) && (q in t ==> t[q] == u[q])
  {
  }

  lemma FailedRename(t: Tree, u: Tree, a: Path, b: Path, e: FsError)
    requires WellFormed(t) && a in t && a != Root
    requires FreeTarget(t, b) ==> !(t[a].Folder? && Within(a, b) && a != b)
    requires CopyOutcome(Cleared(t, a, b), u, a, b, e) && e != Ok
    ensures SameOutside(t, u, b) && (SameWithin(t, u, a) <==> !OntoItself(t, a, b))
  {
    var c := Cleared(t, a, b);
    ClearedFacts(t, a, b);
    assert SameOutside(t, c, b);
    OutsideStep(t, c, u, b, b);
    if OntoItself(t, a, b) {
      assert Within(a, a) && a !in u;
    } else if Movable(t, a, b) {
      forall q | Within(a, q) ensures (q in t <==> q in u) && (q in t ==> t[q] == u[q]) {
        Apart(c, a, b, q);
      }
    } else {
      assert u == t;
    }
  }

  /** The code cannot be asked to move a whole storage: its root directory stays, and
      failing to remove it stops the program. */
  method Rename(s: Storage, source: string, target: string) returns (e: FsError)
    requires s.Valid() && Unused(s.tree, s.open, s.Find(source), s.Find(target))
    requires NothingOpen(s.Find(source), s.open)
    requires Movable(s.tree, s.Find(source), s.Find(target)) ==> !IsMount(s.Find(source))
    requires !HiddenInside(s.tree, s.home, source, target)
    modifies s
    ensures s.Valid() && s.open == old(s.open)
    ensures RenameOutcome(old(s.tree), s.tree, s.Find(source), s.Find(target), e)
    ensures var t, a, b := old(s.tree), s.Find(source), s.Find(target);
            s.reliable ==>
              (e == Ok <==>
                && a in t && a != Root && b != a && !(t[a].Folder? && Within(a, b))
                && (if b in t then t[b].Document?
                    else b.At? && ValidName(b.name) && b.dir != Root && b.dir in t && t[b.dir].Folder?))
    ensures var t, a, b := old(s.tree), s.Find(source), s.Find(target);
            && (a !in t || a == Root ==> e == InvalidName && s.tree == t)
            && (IsDir(t, a) && Within(a, b) && a != b && (b in t || Creatable(t, b)) ==>
                  SpellingOf(s.home, source) == SpellingOf(s.home, target) ==> e == InvalidName && s.tree == t)
            && (a in t && a != Root && b != Root && b in t && t[b].Folder? && !Within(a, b) ==> e == Exist && s.tree == t)
  {
    ghost var t, a, b := s.tree, s.Find(source), s.Find(target);
    var info;
    if a in t {
      EntryIsProper(t, a);
    }
    if b in t {
      EntryIsProper(t, b);
    }
    e, info := s.Stat(source);
    if e != Ok {
      return InvalidName;
    }
    if b in t || Creatable(t, b) {
      PrefixTest(t, s.home, a, b, source, target);
    }
    if info.isDir {
      var dirPath := source;
      if dirPath == "" || dirPath[|dirPath| - 1] != '/' {
        dirPath := dirPath + "/";
      }
      if dirPath <= target {
        return InvalidName;
      }
    }
    ClearedFacts(t, a, b);
    e, info := s.Stat(target);
    if e == Ok && !info.isDir {
      var _ := s.Remove(target);
    }
    assert s.tree == Cleared(t, a, b);
    e := Copy(s, source, target);
    ghost var u := s.tree;
    if e == Ok {
      CopiedThenRemoved(t, u, a, b);
      var ok := RemoveRecursive(s, source);
      if !ok {
        assert false;
      }
    } else {
      FailedRename(t, u, a, b, e);
    }
  }

  /** Moving back undoes a move. */
  lemma MoveBack(t: Tree, u: Tree, v: Tree, a: Path, b: Path)
    requires WellFormed(t) && a in t && b !in t && !Within(a, b)
    requires Moved(t, u, a, b) && Moved(u, v, b, a)
    ensures v == t
  {
    forall q ensures (q in v <==> q in t) && (q in v ==> v[q] == t[q]) {
      if Within(a, q) {
        GraftBack(q, a, b);
      } else if Within(b, q) {
        NothingBelow(t, b, q);
      }
    }
  }
}
