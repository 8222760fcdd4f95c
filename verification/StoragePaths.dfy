/** The service tells storages apart by the first characters of a path and rewrites
    "/any" in place (flipper/storage/storage_processing.c:47-103); the file tree reads
    the same strings component by component.  They agree. */
module StoragePaths {
  import opened FileTree
  import P = OpenProtocol

  /** The name of the storage that "/any" stands for. */
  function Home(extReady: bool): string {
    if extReady then "ext" else "int"
  }

  lemma {:induction false} NoTopWithoutSlash(s: string, n: nat)
    requires n <= |s| && (s == "" || s[0] != '/')
    ensures TopName(ParseUpTo(s, n)) == ""
    decreases n
  {
    var i := LastSlashBefore(s, n);
    if n > 0 && i >= 0 {
      NoTopWithoutSlash(s, i);
    }
  }

  /** The first component ends at the second slash, or with the string. */
  lemma {:induction false} TopIsFirst(s: string, j: nat, n: nat)
    requires 1 <= j <= |s| && s[0] == '/' && (j == |s| || s[j] == '/') && '/' !in s[1..j]
    requires 1 <= n <= |s|
    ensures TopName(ParseUpTo(s, n)) == s[1..if j < n then j else n]
    decreases n
  {
    var i := LastSlashBefore(s, n);
    assert forall k | 1 <= k < j :: s[k] == s[1..j][k - 1];
    if i > 0 {
      TopIsFirst(s, j, i);
    }
  }

  function SecondSlash(s: string, from: nat): (j: nat)
    requires 1 <= from <= |s| && '/' !in s[1..from]
    ensures 1 <= j <= |s| && (j == |s| || s[j] == '/') && '/' !in s[1..j]
    decreases |s| - from
  {
    if from == |s| || s[from] == '/' then from
    else
      assert s[1..from + 1] == s[1..from] + [s[from]];
      SecondSlash(s, from + 1)
  }

  lemma PrefixIsFirst(s: string, n: string, j: nat)
    requires |n| == 3 && '/' !in n && "/" + n <= s && (|s| > 4 ==> s[4] == '/')
    requires 1 <= j <= |s| && (j == |s| || s[j] == '/') && '/' !in s[1..j]
    ensures j == 4 && s[1..j] == n
  {
    assert forall k | 1 <= k < 4 :: s[k] == ("/" + n)[k] == n[k - 1];
    assert forall k | 1 <= k < j :: s[k] == s[1..j][k - 1];
  }

  lemma TopByPrefix(s: string, n: string)
    requires |n| == 3 && '/' !in n
    ensures TopName(Parse(s)) == n <==> "/" + n <= s && (|s| > 4 ==> s[4] == '/')
  {
    if s == "" || s[0] != '/' {
      NoTopWithoutSlash(s, |s|);
    } else {
      var j := SecondSlash(s, 1);
      TopIsFirst(s, j, |s|);
      if s[1..j] == n {
        assert s[..4] == "/" + n;
      }
      if "/" + n <= s && (|s| > 4 ==> s[4] == '/') {
        PrefixIsFirst(s, n, j);
      }
    }
  }

  lemma SameEnd(s: string, u: string, n: nat)
    requires 4 <= n <= |s| == |u| && s[0] == u[0] == '/' && s[4..] == u[4..]
    requires '/' !in s[1..4] && '/' !in u[1..4]
    ensures LastSlashBefore(s, n) == LastSlashBefore(u, n)
    ensures LastSlashBefore(s, n) == 0 || LastSlashBefore(s, n) >= 4
    ensures n > 4 && s[4] == '/' ==> LastSlashBefore(s, n) >= 4
  {
    assert forall k | 1 <= k < 4 :: s[k] == s[1..4][k - 1] && u[k] == u[1..4][k - 1];
    assert forall k | 4 <= k < |s| :: s[k] == s[4..][k - 4] && u[k] == u[4..][k - 4];
  }

  lemma SameSlice(s: string, u: string, i: nat, n: nat)
    requires 4 <= i <= n <= |s| && |s| == |u| && s[4..] == u[4..]
    ensures s[i..n] == u[i..n]
  {
    forall k | i <= k < n ensures s[k] == u[k] {
      assert s[k] == s[4..][k - 4] && u[k] == u[4..][k - 4];
    }
  }

  /** Replacing the storage's name in a string replaces it in the path. */
  lemma {:induction false} Replaced(s: string, u: string, home: string, n: nat)
    requires |home| == 3 && '/' !in home && "/any" <= s && (|s| > 4 ==> s[4] == '/')
    requires 4 <= n <= |s| && u == "/" + home + s[4..]
    ensures ParseUpTo(u, n) == Canonical(home, ParseUpTo(s, n))
    decreases n
  {
    assert s[..4] == "/any" && s[1..4] == "any" && u[1..4] == home && u[4..] == s[4..];
    SameEnd(s, u, n);
    var i := LastSlashBefore(s, n);
    if i >= 4 {
      Replaced(s, u, home, i);
      SameSlice(s, u, i + 1, n);
    }
  }

  lemma {:induction false} SameUnlessAny(home: string, p: Path)
    requires TopName(p) != ANY
    ensures Canonical(home, p) == p
  {
    if p.At? && p.dir != Root {
      SameUnlessAny(home, p.dir);
    }
  }

  lemma {:induction false} TopOfCanonical(home: string, p: Path)
    ensures TopName(Canonical(home, p)) == if TopName(p) == ANY && p != Root then home else TopName(p)
  {
    if p.At? && p.dir != Root {
      TopOfCanonical(home, p.dir);
    }
  }

  lemma TypeIsTop(s: string)
    ensures var top := TopName(Parse(s));
            P.TypeByPath(s) == if top == "ext" then P.Ext else if top == "int" then P.Int
                               else if top == ANY then P.Any else P.Error
  {
    TopByPrefix(s, "ext");
    TopByPrefix(s, "int");
    TopByPrefix(s, "any");
  }

  lemma AnyReplaced(s: string, extReady: bool)
    requires "/any" <= s && (|s| > 4 ==> s[4] == '/')
    ensures Parse((if extReady then "/ext" else "/int") + s[4..]) == Resolve(Home(extReady), s)
  {
    if extReady {
      assert "/" + "ext" == "/ext";
      Replaced(s, "/ext" + s[4..], "ext", |s|);
    } else {
      assert "/" + "int" == "/int";
      Replaced(s, "/int" + s[4..], "int", |s|);
    }
  }

  /** The service's answer is the component-wise one: a path is refused exactly if it
      is on no storage, and otherwise the key names the entry and its storage. */
  lemma LocateAgrees(s: string, extReady: bool)
    ensures var q := Resolve(Home(extReady), s);
            match P.Locate(s, extReady)
            case InvalidName => !OnStorage(q)
            case Located(key) => OnStorage(q) && Parse(key.path) == q && key.onExt == (TopName(q) == "ext")
  {
    TypeIsTop(s);
    TopOfCanonical(Home(extReady), Parse(s));
    if TopName(Parse(s)) != ANY {
      SameUnlessAny(Home(extReady), Parse(s));
    } else {
      TopByPrefix(s, "any");
      AnyReplaced(s, extReady);
    }
  }

  /** Two paths get the same key exactly if they name the same entry. */
  lemma SameKeyExactly(s: string, s': string, extReady: bool)
    requires P.Locate(s, extReady).Located? && P.Locate(s', extReady).Located?
    ensures P.Locate(s, extReady) == P.Locate(s', extReady) <==>
              Resolve(Home(extReady), s) == Resolve(Home(extReady), s')
  {
    LocateAgrees(s, extReady);
    LocateAgrees(s', extReady);
    KeyIsSpelling(s, extReady);
    KeyIsSpelling(s', extReady);
  }

  /** A string that begins with a slash is spelled by its components. */
  lemma {:induction false} SpelledByComponents(s: string, n: nat)
    requires 0 < |s| && s[0] == '/' && n <= |s|
    ensures Text(Spelling("", false), ParseUpTo(s, n)) == s[..n]
    decreases n
  {
    if n > 0 {
      var i := LastSlashBefore(s, n);
      SpelledByComponents(s, i);
      SplitAtSlash(s, i, n);
    }
  }

  lemma KeyIsSpelling(s: string, extReady: bool)
    requires P.Locate(s, extReady).Located?
    ensures var key := P.Locate(s, extReady).key; Text(Spelling("", false), Parse(key.path)) == key.path
  {
    var key := P.Locate(s, extReady).key;
    assert key.path[0] == '/';
    SpelledByComponents(key.path, |key.path|);
    assert key.path[..|key.path|] == key.path;
  }
}
