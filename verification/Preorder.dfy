/** The recursive preorder of a directory tree, the specification that the
    iterative walker is proved against. */
module Preorder {
  import opened FileTree

  /** Entries i, i+1, ... of directory p, each followed by its own contents. */
  ghost function From(t: Tree, list: Listing, deep: bool, p: Path, i: nat): seq<Path>
    requires WellFormed(t) && ValidListing(list)
    requires p in t && i <= |Entries(t, list, p)|
    decreases Sub(t, p), |Entries(t, list, p)| - i
  {
    if i == |Entries(t, list, p)| then [] else
      var n := Entries(t, list, p)[i];
      EntryExists(t, list, p, i);
      SubShrinks(t, p, n);
      [At(p, n)] + Inside(t, list, deep, At(p, n)) + From(t, list, deep, p, i + 1)
  }

  /** What the walk yields after c and before c's next sibling. */
  ghost function Inside(t: Tree, list: Listing, deep: bool, c: Path): seq<Path>
    requires WellFormed(t) && ValidListing(list) && c in t
    decreases Sub(t, c)
  {
    if deep && t[c].Folder? then From(t, list, deep, c, 0) else []
  }

  ghost predicate NoRepeats(s: seq<Path>) {
    forall i, j | 0 <= i < j < |s| :: s[i] != s[j]
  }

  ghost predicate Through(t: Tree, deep: bool, c: Path, q: Path) {
    q in t && if deep then Within(c, q) else c == q
  }

  /** q is reached through one of the entries i, i+1, ... of p. */
  ghost predicate Reached(t: Tree, list: Listing, deep: bool, p: Path, i: nat, q: Path) {
    exists k | i <= k < |Entries(t, list, p)| :: Through(t, deep, At(p, Entries(t, list, p)[k]), q)
  }

  lemma {:induction false} StepTowards(t: Tree, list: Listing, p: Path, q: Path)
    requires WellFormed(t) && ValidListing(list)
    requires q in t && Within(p, q) && p != q
    ensures Reached(t, list, true, p, 0, q)
  {
    var es := Entries(t, list, p);
    assert Linked(t, q);
    if q.dir == p {
      NamesAreChildren(t, p, q.name);
      assert Lists(es, Names(t, p));
      var k :| 0 <= k < |es| && es[k] == q.name;
      assert Through(t, true, At(p, es[k]), q);
    } else {
      StepTowards(t, list, p, q.dir);
      var k :| 0 <= k < |es| && Through(t, true, At(p, es[k]), q.dir);
      assert Through(t, true, At(p, es[k]), q);
    }
  }

  lemma {:induction false} FromMembers(t: Tree, list: Listing, deep: bool, p: Path, i: nat, q: Path)
    requires WellFormed(t) && ValidListing(list)
    requires p in t && i <= |Entries(t, list, p)|
    ensures q in From(t, list, deep, p, i) <==> Reached(t, list, deep, p, i, q)
    decreases Sub(t, p), |Entries(t, list, p)| - i
  {
    var es := Entries(t, list, p);
    if i < |es| {
      EntryExists(t, list, p, i);
      SubShrinks(t, p, es[i]);
      var c := At(p, es[i]);
      InsideMembers(t, list, deep, c, q);
      FromMembers(t, list, deep, p, i + 1, q);
      assert q in From(t, list, deep, p, i)
        <==> q == c || q in Inside(t, list, deep, c) || q in From(t, list, deep, p, i + 1);
      assert Reached(t, list, deep, p, i, q)
        <==> Through(t, deep, c, q) || Reached(t, list, deep, p, i + 1, q);
    }
  }

  lemma {:induction false} InsideMembers(t: Tree, list: Listing, deep: bool, c: Path, q: Path)
    requires WellFormed(t) && ValidListing(list) && c in t
    ensures q in Inside(t, list, deep, c) <==> deep && q in t && Within(c, q) && q != c
    decreases Sub(t, c)
  {
    if deep && t[c].Folder? {
      FromMembers(t, list, deep, c, 0, q);
      if q in t && Within(c, q) && q != c {
        StepTowards(t, list, c, q);
      }
      if Reached(t, list, deep, c, 0, q) {
        var k :| 0 <= k < |Entries(t, list, c)| && Through(t, deep, At(c, Entries(t, list, c)[k]), q);
        WithinTransitive(c, At(c, Entries(t, list, c)[k]), q);
        WithinDeeper(At(c, Entries(t, list, c)[k]), q);
      }
    } else if q in t && Within(c, q) && q != c {
      AncestorIsFolder(t, c, q);
    }
  }

  /** Two siblings have nothing in common. */
  lemma {:induction false} SiblingsApart(p: Path, m: string, n: string, q: Path)
    requires Within(At(p, m), q) && Within(At(p, n), q)
    ensures m == n
  {
    WithinDeeper(At(p, m), q);
    WithinDeeper(At(p, n), q);
    if q != At(p, m) && q != At(p, n) {
      SiblingsApart(p, m, n, q.dir);
    }
  }

  /** The walk of a directory visits everything strictly below it. */
  lemma PreorderVisitsAll(t: Tree, list: Listing, p: Path, q: Path)
    requires WellFormed(t) && ValidListing(list) && p in t && t[p].Folder?
    ensures q in From(t, list, true, p, 0) <==> q in t && Within(p, q) && q != p
  {
    InsideMembers(t, list, true, p, q);
  }

  /** A walk that is not recursive visits the entries of the directory itself. */
  lemma FlatVisits(t: Tree, list: Listing, p: Path, q: Path)
    requires WellFormed(t) && ValidListing(list) && p in t
    ensures q in From(t, list, false, p, 0) <==> q in t && q.At? && q.dir == p
  {
    FromMembers(t, list, false, p, 0, q);
    var es := Entries(t, list, p);
    assert Lists(es, Names(t, p));
    if q in t && q.At? && q.dir == p {
      NamesAreChildren(t, p, q.name);
      var k :| 0 <= k < |es| && es[k] == q.name;
      assert Through(t, false, At(p, es[k]), q);
    }
  }

  /** ... and each entry once. */
  lemma {:induction false} PreorderVisitsOnce(t: Tree, list: Listing, deep: bool, p: Path, i: nat)
    requires WellFormed(t) && ValidListing(list)
    requires p in t && i <= |Entries(t, list, p)|
    ensures NoRepeats(From(t, list, deep, p, i))
    decreases Sub(t, p), |Entries(t, list, p)| - i
  {
    var es := Entries(t, list, p);
    if i < |es| {
      EntryExists(t, list, p, i);
      SubShrinks(t, p, es[i]);
      var c := At(p, es[i]);
      var inner, rest := Inside(t, list, deep, c), From(t, list, deep, p, i + 1);
      if deep && t[c].Folder? {
        PreorderVisitsOnce(t, list, deep, c, 0);
      }
      PreorderVisitsOnce(t, list, deep, p, i + 1);
      forall q | q in rest ensures q != c && q !in inner {
        LaterSiblings(t, list, deep, p, i, q);
      }
      InsideMembers(t, list, deep, c, c);
      NoRepeatsJoin(c, inner, rest);
    }
  }

  lemma LaterSiblings(t: Tree, list: Listing, deep: bool, p: Path, i: nat, q: Path)
    requires WellFormed(t) && ValidListing(list)
    requires p in t && i < |Entries(t, list, p)| && At(p, Entries(t, list, p)[i]) in t
    requires q in From(t, list, deep, p, i + 1)
    ensures !Within(At(p, Entries(t, list, p)[i]), q)
    ensures q !in Inside(t, list, deep, At(p, Entries(t, list, p)[i]))
  {
    var es := Entries(t, list, p);
    FromMembers(t, list, deep, p, i + 1, q);
    var k :| i + 1 <= k < |es| && Through(t, deep, At(p, es[k]), q);
    assert Lists(es, Names(t, p));
    if Within(At(p, es[i]), q) {
      SiblingsApart(p, es[i], es[k], q);
    }
    InsideMembers(t, list, deep, At(p, es[i]), q);
  }

  lemma NoRepeatsJoin(c: Path, inner: seq<Path>, rest: seq<Path>)
    requires NoRepeats(inner) && NoRepeats(rest)
    requires c !in inner && c !in rest
    requires forall q | q in rest :: q !in inner
    ensures NoRepeats([c] + inner + rest)
  {
    var s := [c] + inner + rest;
    forall i, j | 0 <= i < j < |s| ensures s[i] != s[j] {
      if j >= 1 + |inner| {
        assert s[j] == rest[j - 1 - |inner|] && s[j] in rest;
        assert i > |inner| ==> s[i] == rest[i - 1 - |inner|];
        assert 1 <= i <= |inner| ==> s[i] == inner[i - 1] && s[i] in inner;
      }
    }
  }

  /** Every entry comes after its parent directory (or is an entry of p). */
  ghost predicate ParentsFirst(p: Path, s: seq<Path>) {
    forall k | 0 <= k < |s| :: s[k].At? && (s[k].dir == p || s[k].dir in s[..k])
  }

  lemma ParentsFirstJoin(p: Path, c: Path, inner: seq<Path>, rest: seq<Path>)
    requires c.At? && c.dir == p && ParentsFirst(c, inner) && ParentsFirst(p, rest)
    ensures ParentsFirst(p, [c] + inner + rest)
  {
    var s := [c] + inner + rest;
    forall k | 0 <= k < |s| ensures s[k].At? && (s[k].dir == p || s[k].dir in s[..k]) {
      if 1 <= k <= |inner| {
        assert s[k] == inner[k - 1] && s[..k] == [c] + inner[..k - 1];
      } else if k > |inner| {
        assert s[k] == rest[k - 1 - |inner|] && s[..k] == [c] + inner + rest[..k - 1 - |inner|];
      }
    }
  }

  lemma {:induction false} PreorderParentsFirst(t: Tree, list: Listing, deep: bool, p: Path, i: nat)
    requires WellFormed(t) && ValidListing(list)
    requires p in t && i <= |Entries(t, list, p)|
    ensures ParentsFirst(p, From(t, list, deep, p, i))
    decreases Sub(t, p), |Entries(t, list, p)| - i
  {
    var es := Entries(t, list, p);
    if i < |es| {
      EntryExists(t, list, p, i);
      SubShrinks(t, p, es[i]);
      var c := At(p, es[i]);
      var inner, rest := Inside(t, list, deep, c), From(t, list, deep, p, i + 1);
      if deep && t[c].Folder? {
        PreorderParentsFirst(t, list, deep, c, 0);
      }
      PreorderParentsFirst(t, list, deep, p, i + 1);
      ParentsFirstJoin(p, c, inner, rest);
    }
  }

  ghost predicate SameWithin(t: Tree, u: Tree, p: Path) {
    forall q | Within(p, q) :: (q in t <==> q in u) && (q in t ==> t[q] == u[q])
  }

  lemma EntriesFrame(t: Tree, u: Tree, list: Listing, p: Path)
    requires SameWithin(t, u, p)
    ensures Entries(t, list, p) == Entries(u, list, p)
  {
    forall n ensures n in Names(t, p) <==> n in Names(u, p) {
      NamesAreChildren(t, p, n);
      NamesAreChildren(u, p, n);
      assert Within(p, At(p, n));
    }
    assert Names(t, p) == Names(u, p);
  }

  lemma SameFurtherIn(t: Tree, u: Tree, p: Path, c: Path)
    requires SameWithin(t, u, p) && Within(p, c)
    ensures SameWithin(t, u, c)
  {
    forall q | Within(c, q) ensures (q in t <==> q in u) && (q in t ==> t[q] == u[q]) {
      WithinTransitive(p, c, q);
    }
  }

  /** The walk of p depends on nothing outside p. */
  lemma {:induction false} FromFrame(t: Tree, u: Tree, list: Listing, deep: bool, p: Path, i: nat)
    requires WellFormed(t) && WellFormed(u) && ValidListing(list) && SameWithin(t, u, p)
    requires p in t && p in u && i <= |Entries(t, list, p)| == |Entries(u, list, p)|
    ensures From(t, list, deep, p, i) == From(u, list, deep, p, i)
    decreases Sub(t, p), |Entries(t, list, p)| - i
  {
    EntriesFrame(t, u, list, p);
    var es := Entries(t, list, p);
    if i < |es| {
      EntryExists(t, list, p, i);
      SubShrinks(t, p, es[i]);
      var c := At(p, es[i]);
      SameFurtherIn(t, u, p, c);
      if deep && t[c].Folder? {
        EntriesFrame(t, u, list, c);
        FromFrame(t, u, list, deep, c, 0);
      }
      FromFrame(t, u, list, deep, p, i + 1);
    }
  }
}
