/** The file tree behind the storage service, and the path strings its clients
    build with "%s/%s" and take apart at the last '/'.

    A tree maps every existing path to what is there.  `Text` spells a path and
    `Resolve` reads a spelling back.  The top-level directories are the storages;
    "/any" is another spelling of one of them.
 */
module FileTree {

  datatype Path = Root | At(dir: Path, name: string)

  datatype Item = Folder | Document(data: seq<char>)

  type Tree = map<Path, Item>

  /** The order in which a directory yields its entries: any fixed function of
      the directory and the names in it. */
  type Listing = (Path, set<string>) -> seq<string>

  predicate ValidName(n: string) {
    n != "" && '/' !in n
  }

  const ANY: string := "any"

  predicate IsStorage(n: string) {
    n == "ext" || n == "int"
  }

  predicate ValidNames(p: Path) {
    p.At? ==> ValidName(p.name) && ValidNames(p.dir)
  }

  /** A path an entry can have; "any" is a spelling only. */
  predicate Proper(p: Path) {
    p.At? ==> ValidName(p.name) && Proper(p.dir) && (p.dir == Root ==> p.name != ANY)
  }

  /** The root directory of a storage. */
  predicate IsMount(p: Path) {
    p.At? && p.dir == Root
  }

  /** The name of the storage a path is on. */
  function TopName(p: Path): string {
    if p == Root then "" else if IsMount(p) then p.name else TopName(p.dir)
  }

  predicate OnStorage(p: Path) {
    IsStorage(TopName(p))
  }

  /** `home` is the storage that "/any" stands for; an aliased spelling says "/any"
      for it. */
  datatype Spelling = Spelling(home: string, aliased: bool)

  function Spelled(sp: Spelling, d: Path, n: string): string {
    if d == Root && sp.aliased && n == sp.home then ANY else n
  }

  function Text(sp: Spelling, p: Path): string {
    match p
    case Root => ""
    case At(d, n) => Text(sp, d) + "/" + Spelled(sp, d, n)
  }

  /** Position of the last '/' in s[..n], or -1. */
  function LastSlashBefore(s: string, n: nat): (i: int)
    requires n <= |s|
    ensures -1 <= i < n
    ensures i >= 0 ==> s[i] == '/'
    ensures forall k | i < k < n :: s[k] != '/'
  {
    if n == 0 then -1
    else if s[n - 1] == '/' then n - 1
    else LastSlashBefore(s, n - 1)
  }

  function LastSlash(s: string): (i: int)
    ensures -1 <= i < |s|
    ensures i >= 0 ==> s[i] == '/'
    ensures forall k | i < k < |s| :: s[k] != '/'
  {
    LastSlashBefore(s, |s|)
  }

  /** The components of a string.  A string that is no spelling at all has an empty
      one, which no tree holds. */
  function Parse(s: string): Path {
    ParseUpTo(s, |s|)
  }

  function ParseUpTo(s: string, n: nat): Path
    requires n <= |s|
  {
    var i := LastSlashBefore(s, n);
    if n == 0 then Root
    else if i < 0 then At(At(Root, ""), s[..n])
    else At(ParseUpTo(s, i), s[i + 1..n])
  }

  /** "/any" replaced by the storage it stands for. */
  function Canonical(home: string, p: Path): Path {
    match p
    case Root => Root
    case At(d, n) => At(Canonical(home, d), if d == Root && n == ANY then home else n)
  }

  /** The path a string names. */
  function Resolve(home: string, s: string): Path {
    Canonical(home, Parse(s))
  }

  /** How the string s spells it. */
  function SpellingOf(home: string, s: string): Spelling {
    Spelling(home, TopName(Parse(s)) == ANY)
  }

  lemma CutJoined(d: string, n: string)
    requires ValidName(n)
    ensures var s := d + "/" + n; LastSlash(s) == |d| && s[..|d|] == d && s[|d| + 1..] == n
  {
    var s := d + "/" + n;
    assert s[|d|] == '/';
    assert forall k | |d| < k < |s| :: s[k] == n[k - |d| - 1] && s[k] != '/';
  }

  /** Only the parsed part of the string matters. */
  lemma {:induction false} ParsePrefix(s: string, u: string, n: nat)
    requires n <= |s| && n <= |u| && s[..n] == u[..n]
    ensures ParseUpTo(s, n) == ParseUpTo(u, n)
    decreases n
  {
    assert forall k | 0 <= k < n :: s[k] == s[..n][k] && u[k] == u[..n][k];
    var i := LastSlashBefore(s, n);
    SameLastSlash(s, u, n);
    if n > 0 && i >= 0 {
      assert s[..i] == s[..n][..i] && u[..i] == u[..n][..i];
      ParsePrefix(s, u, i);
    }
  }

  lemma SameLastSlash(s: string, u: string, n: nat)
    requires n <= |s| && n <= |u| && forall k | 0 <= k < n :: s[k] == u[k]
    ensures LastSlashBefore(s, n) == LastSlashBefore(u, n)
  {
  }

  lemma ParseJoined(d: string, n: string)
    requires ValidName(n)
    ensures Parse(d + "/" + n) == At(Parse(d), n)
  {
    var s := d + "/" + n;
    CutJoined(d, n);
    assert s[|d| + 1..|s|] == n;
    ParsePrefix(s, d, |d|);
  }

  lemma SpelledIsValid(sp: Spelling, d: Path, n: string)
    requires ValidName(n)
    ensures ValidName(Spelled(sp, d, n))
  {
  }

  /** Reading a spelling back gives the path. */
  lemma {:induction false} ResolveText(sp: Spelling, p: Path)
    requires Proper(p)
    ensures Resolve(sp.home, Text(sp, p)) == p
  {
    match p
    case Root =>
    case At(d, n) =>
      SpelledIsValid(sp, d, n);
      ParseJoined(Text(sp, d), Spelled(sp, d, n));
      ResolveText(sp, d);
  }

  lemma {:induction false} ParseText(home: string, p: Path)
    requires ValidNames(p)
    ensures Parse(Text(Spelling(home, false), p)) == p
  {
    match p
    case Root =>
    case At(d, n) =>
      ParseJoined(Text(Spelling(home, false), d), n);
      ParseText(home, d);
  }

  lemma SplitAtSlash(s: string, i: nat, n: nat)
    requires i < n <= |s| && s[i] == '/'
    ensures s[..n] == s[..i] + "/" + s[i + 1..n]
  {
  }

  lemma {:induction false} TextParseUpTo(home: string, s: string, n: nat)
    requires n <= |s| && ValidNames(ParseUpTo(s, n))
    ensures Text(Spelling(home, false), ParseUpTo(s, n)) == s[..n]
    decreases n
  {
    var i := LastSlashBefore(s, n);
    if n > 0 && i >= 0 {
      TextParseUpTo(home, s, i);
      SplitAtSlash(s, i, n);
    }
  }

  lemma {:induction false} TextCanonical(home: string, p: Path)
    ensures Text(Spelling(home, TopName(p) == ANY), Canonical(home, p)) == Text(Spelling(home, false), p)
  {
    if p.At? && p.dir != Root {
      TextCanonical(home, p.dir);
    }
  }

  lemma {:induction false} CanonicalNames(home: string, p: Path)
    requires ValidNames(Canonical(home, p))
    ensures ValidNames(p)
  {
    if p.At? {
      CanonicalNames(home, p.dir);
    }
  }

  lemma {:induction false} ProperNames(p: Path)
    requires Proper(p)
    ensures ValidNames(p)
  {
    if p.At? {
      ProperNames(p.dir);
    }
  }

  lemma TextResolve(home: string, s: string)
    requires Proper(Resolve(home, s))
    ensures Text(SpellingOf(home, s), Resolve(home, s)) == s
  {
    ProperNames(Resolve(home, s));
    CanonicalNames(home, Parse(s));
    TextParseUpTo(home, s, |s|);
    TextCanonical(home, Parse(s));
  }

  /** q is p or lies below p. */
  predicate Within(p: Path, q: Path) {
    p == q || (q.At? && Within(p, q.dir))
  }

  lemma {:induction false} WithinTransitive(p: Path, q: Path, r: Path)
    requires Within(p, q) && Within(q, r)
    ensures Within(p, r)
  {
    if q != r {
      WithinTransitive(p, q, r.dir);
    }
  }

  function Depth(p: Path): nat {
    match p
    case Root => 0
    case At(d, _) => Depth(d) + 1
  }

  lemma {:induction false} WithinDeeper(p: Path, q: Path)
    requires Within(p, q)
    ensures Depth(p) <= Depth(q) && (p != q ==> Depth(p) < Depth(q))
  {
    if p != q {
      WithinDeeper(p, q.dir);
    }
  }

  lemma {:induction false} WithinSameTop(p: Path, q: Path)
    requires Within(p, q) && p != Root
    ensures q != Root && TopName(p) == TopName(q)
  {
    if p != q {
      WithinSameTop(p, q.dir);
    }
  }

  lemma {:induction false} CanonicalApart(home: string, p: Path, q: Path)
    requires (TopName(p) == ANY) == (TopName(q) == ANY)
    ensures Canonical(home, p) == Canonical(home, q) <==> p == q
  {
    if p.At? && q.At? && p.dir != Root && q.dir != Root {
      CanonicalApart(home, p.dir, q.dir);
    }
  }

  /** Two paths that spell their storage alike lie in each other exactly if their
      components do. */
  lemma {:induction false} CanonicalWithin(home: string, p: Path, q: Path)
    requires p != Root && (TopName(p) == ANY) == (TopName(q) == ANY)
    ensures Within(Canonical(home, p), Canonical(home, q)) <==> Within(p, q)
  {
    CanonicalApart(home, p, q);
    if q.At? {
      if q.dir != Root {
        CanonicalWithin(home, p, q.dir);
      }
    }
  }

  predicate Linked(t: Tree, q: Path) {
    q.At? ==> ValidName(q.name) && q.dir in t && t[q.dir].Folder? && (q.dir == Root ==> IsStorage(q.name))
  }

  /** Every entry but the root has a proper name and a parent directory; right below
      the root there are the directories of storages only. */
  ghost predicate WellFormed(t: Tree) {
    && Root in t && t[Root].Folder?
    && forall q {:trigger Linked(t, q)} | q in t :: Linked(t, q) && (IsMount(q) ==> t[q].Folder?)
  }

  lemma {:induction false} EntryIsProper(t: Tree, q: Path)
    requires WellFormed(t) && q in t
    ensures Proper(q) && (q != Root ==> OnStorage(q)) && (IsMount(q) ==> t[q].Folder?)
  {
    assert Linked(t, q);
    if q.At? {
      EntryIsProper(t, q.dir);
    }
  }

  lemma EntryHasFolder(t: Tree, q: Path)
    requires WellFormed(t) && q in t && q.At?
    ensures ValidName(q.name) && q.dir in t && t[q.dir].Folder?
  {
    assert Linked(t, q);
  }

  /** Spelling, reading back and cutting off the last component. */
  lemma SpellEntry(t: Tree, sp: Spelling, q: Path)
    requires WellFormed(t) && q in t
    ensures Resolve(sp.home, Text(sp, q)) == q
    ensures q.At? ==> LastSlash(Text(sp, q)) >= 0 && Text(sp, q)[..LastSlash(Text(sp, q))] == Text(sp, q.dir)
  {
    EntryIsProper(t, q);
    ResolveText(sp, q);
    if q.At? {
      SpelledIsValid(sp, q.dir, q.name);
      CutJoined(Text(sp, q.dir), Spelled(sp, q.dir, q.name));
    }
  }

  /** The paths of t at or below p. */
  ghost function Sub(t: Tree, p: Path): set<Path> {
    set q | q in t && Within(p, q)
  }

  lemma {:induction false} AncestorIsFolder(t: Tree, p: Path, q: Path)
    requires WellFormed(t) && q in t && Within(p, q) && p != q
    ensures p in t && t[p].Folder?
  {
    assert Linked(t, q);
    if q.dir != p {
      AncestorIsFolder(t, p, q.dir);
    }
  }

  /** Names of the entries directly inside p. */
  function Names(t: Tree, p: Path): set<string> {
    set q | q in t && q.At? && q.dir == p :: q.name
  }

  lemma NamesAreChildren(t: Tree, p: Path, n: string)
    ensures n in Names(t, p) <==> At(p, n) in t
  {
    assert At(p, n) in t ==> At(p, n).name in Names(t, p);
  }

  ghost predicate Lists(s: seq<string>, names: set<string>) {
    && (forall n :: n in s <==> n in names)
    && forall i, j | 0 <= i < j < |s| :: s[i] != s[j]
  }

  ghost predicate ValidListing(list: Listing) {
    forall p, names :: Lists(list(p, names), names)
  }

  function Entries(t: Tree, list: Listing, p: Path): seq<string> {
    list(p, Names(t, p))
  }

  lemma EntryExists(t: Tree, list: Listing, p: Path, i: nat)
    requires WellFormed(t) && ValidListing(list)
    requires i < |Entries(t, list, p)|
    ensures ValidName(Entries(t, list, p)[i]) && At(p, Entries(t, list, p)[i]) in t
  {
    var n := Entries(t, list, p)[i];
    assert Lists(Entries(t, list, p), Names(t, p)) && n in Entries(t, list, p);
    NamesAreChildren(t, p, n);
    assert Linked(t, At(p, n));
  }

  lemma SubShrinks(t: Tree, p: Path, n: string)
    requires p in t
    ensures Sub(t, At(p, n)) < Sub(t, p)
  {
    forall q | q in Sub(t, At(p, n)) ensures q in Sub(t, p) {
      WithinTransitive(p, At(p, n), q);
    }
    if Within(At(p, n), p) {
      WithinDeeper(At(p, n), p);
    }
    assert p in Sub(t, p) && p !in Sub(t, At(p, n));
  }
}
