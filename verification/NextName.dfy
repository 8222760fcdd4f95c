/** `storage_get_next_filename`: tries base, base1, base2, ... until the storage
    has no such entry.  The counter is 16 bits wide, so after base65535 comes
    base0 and then base1 again. */
module NextName {
  import opened FileTree
  import opened StorageService

  const COUNTER_RANGE := 65536

  function Decimal(n: nat): string {
    (if n < 10 then "" else Decimal(n / 10)) + [('0' as int + n % 10) as char]
  }

  function Value(s: string): int {
    if s == "" then 0 else 10 * Value(s[..|s| - 1]) + (s[|s| - 1] as int - '0' as int)
  }

  lemma {:induction false} ValueOfDecimal(n: nat)
    ensures Decimal(n) != "" && '/' !in Decimal(n) && Value(Decimal(n)) == n
  {
    var s := Decimal(n);
    if n >= 10 {
      ValueOfDecimal(n / 10);
      assert s[..|s| - 1] == Decimal(n / 10);
    } else {
      assert s[..|s| - 1] == "";
    }
  }

  predicate IsDigit(c: char) {
    '0' <= c <= '9'
  }

  /** It is written with digits only, without leading zeros, and with one digit below
      ten. */
  lemma {:induction false} DecimalIsCanonical(n: nat)
    ensures forall k | 0 <= k < |Decimal(n)| :: IsDigit(Decimal(n)[k])
    ensures n < 10 ==> Decimal(n) == ["0123456789"[n]]
    ensures n >= 10 ==> |Decimal(n)| > 1 && Decimal(n)[0] != '0'
    ensures n >= 10 ==> Decimal(n)[..|Decimal(n)| - 1] == Decimal(n / 10)
  {
    if n >= 10 {
      DecimalIsCanonical(n / 10);
      assert Decimal(n)[0] == Decimal(n / 10)[0];
    }
  }

  /** The candidates' numbers: none, then those from 1 up, and 0 after the wrap. */
  lemma Suffixes(k: nat)
    requires k <= COUNTER_RANGE
    ensures k == 0 ==> Suffix(k) == ""
    ensures 0 < k < COUNTER_RANGE ==> Suffix(k) == Decimal(k)
    ensures k == COUNTER_RANGE ==> Suffix(k) == Decimal(0)
  {
    assert k < COUNTER_RANGE ==> k % COUNTER_RANGE == k;
  }

  /** They go between the base name and the extension. */
  lemma Candidates(dirname: string, filename: string, ext: string, k: nat)
    requires k <= COUNTER_RANGE
    ensures Candidate(dirname, filename, ext, k) == dirname + "/" + (filename + Suffix(k) + ext)
    ensures k == 0 ==> Candidate(dirname, filename, ext, k) == dirname + "/" + (filename + ext)
  {
    Suffixes(k);
    assert filename + "" == filename;
  }

  /** What candidate number k appends to the base name. */
  function Suffix(k: nat): string {
    if k == 0 then "" else Decimal(k % COUNTER_RANGE)
  }

  function Name(filename: string, ext: string, k: nat): string {
    filename + Suffix(k) + ext
  }

  function Candidate(dirname: string, filename: string, ext: string, k: nat): string {
    dirname + "/" + Name(filename, ext, k)
  }

  predicate Taken(t: Tree, home: string, path: string) {
    OnStorage(Resolve(home, path)) && Resolve(home, path) in t
  }

  /** Some candidate is free; without one the search goes round for ever. */
  ghost predicate HasFree(t: Tree, home: string, dirname: string, filename: string, ext: string) {
    exists k :: 0 <= k <= COUNTER_RANGE && !Taken(t, home, Candidate(dirname, filename, ext, k))
  }

  /** From 65536 on the candidates repeat, so the search ends exactly if one of the
      first 65537 is free. */
  lemma EndsExactlyIfFree(t: Tree, home: string, dirname: string, filename: string, ext: string)
    ensures HasFree(t, home, dirname, filename, ext) <==> exists k: nat :: !Taken(t, home, Candidate(dirname, filename, ext, k))
  {
    forall k: nat | !Taken(t, home, Candidate(dirname, filename, ext, k)) ensures HasFree(t, home, dirname, filename, ext) {
      Recurs(dirname, filename, ext, k);
    }
  }

  /** The number below 65537 that has the same suffix. */
  function Reduced(k: nat): (r: nat)
    ensures r <= COUNTER_RANGE
  {
    if k <= COUNTER_RANGE then k else if k % COUNTER_RANGE == 0 then COUNTER_RANGE else k % COUNTER_RANGE
  }

  lemma Recurs(dirname: string, filename: string, ext: string, k: nat)
    ensures Candidate(dirname, filename, ext, Reduced(k)) == Candidate(dirname, filename, ext, k)
  {
    assert Reduced(k) % COUNTER_RANGE == k % COUNTER_RANGE;
  }

  /** The candidates before number k are all taken. */
  ghost predicate AllTaken(t: Tree, home: string, dirname: string, filename: string, ext: string, k: nat) {
    forall j | 0 <= j < k :: Taken(t, home, Candidate(dirname, filename, ext, j))
  }

  ghost predicate IsFirstFree(t: Tree, home: string, dirname: string, filename: string, ext: string, k: nat) {
    && !Taken(t, home, Candidate(dirname, filename, ext, k))
    && AllTaken(t, home, dirname, filename, ext, k)
  }

  /** Suffixes are empty for candidate 0 only, and then told apart by their value. */
  lemma SuffixValue(k: nat)
    requires k <= COUNTER_RANGE
    ensures (Suffix(k) == "") == (k == 0)
    ensures 0 < k < COUNTER_RANGE ==> Value(Suffix(k)) == k
    ensures k == COUNTER_RANGE ==> Value(Suffix(k)) == 0
  {
    ValueOfDecimal(k % COUNTER_RANGE);
  }

  lemma SuffixesDiffer(i: nat, j: nat)
    requires i < j <= COUNTER_RANGE
    ensures Suffix(i) != Suffix(j)
  {
    SuffixValue(i);
    SuffixValue(j);
  }

  lemma NamesDiffer(filename: string, ext: string, i: nat, j: nat)
    requires i < j <= COUNTER_RANGE
    ensures Name(filename, ext, i) != Name(filename, ext, j)
  {
    if Name(filename, ext, i) == Name(filename, ext, j) {
      SameMiddle(filename, Suffix(i), Suffix(j), ext);
      SuffixesDiffer(i, j);
    }
  }

  lemma SameMiddle(a: string, x: string, y: string, b: string)
    requires a + x + b == a + y + b
    ensures x == y
  {
    var s := a + x + b;
    assert |s| == |a| + |x| + |b| == |a| + |y| + |b|;
    assert s[|a|..|a| + |x|] == x && s[|a|..|a| + |x|] == y;
  }

  lemma NameIsValid(filename: string, ext: string, k: nat)
    requires '/' !in filename && '/' !in ext && filename + ext != ""
    ensures ValidName(Name(filename, ext, k))
  {
    ValueOfDecimal(k % COUNTER_RANGE);
  }

  lemma JoinedPath(home: string, dirname: string, n: string)
    requires ValidName(n)
    ensures Resolve(home, dirname + "/" + n)
         == if dirname == "" then At(Root, if n == ANY then home else n) else At(Resolve(home, dirname), n)
  {
    ParseJoined(dirname, n);
    var q := Parse(dirname);
    assert dirname == "" <==> q == Root;
    assert Resolve(home, dirname + "/" + n)
        == At(Canonical(home, q), if q == Root && n == ANY then home else n);
    assert Canonical(home, Root) == Root;
  }

  /** The names that can be taken in a directory; above the storages there are only
      theirs. */
  function Known(t: Tree, home: string, dirname: string): set<string> {
    if dirname == "" then {"ext", "int", ANY} else Names(t, Resolve(home, dirname))
  }

  lemma TakenName(t: Tree, home: string, dirname: string, filename: string, ext: string, k: nat)
    requires '/' !in filename && '/' !in ext && filename + ext != ""
    requires Taken(t, home, Candidate(dirname, filename, ext, k))
    ensures Name(filename, ext, k) in Known(t, home, dirname)
  {
    NameIsValid(filename, ext, k);
    JoinedPath(home, dirname, Name(filename, ext, k));
    NamesAreChildren(t, Resolve(home, dirname), Name(filename, ext, k));
  }

  ghost function FirstNames(filename: string, ext: string, n: nat): set<string> {
    set k | 0 <= k < n :: Name(filename, ext, k)
  }

  lemma NextFirstNames(filename: string, ext: string, n: nat)
    ensures FirstNames(filename, ext, n + 1) == FirstNames(filename, ext, n) + {Name(filename, ext, n)}
  {
  }

  lemma NewName(filename: string, ext: string, n: nat)
    requires n <= COUNTER_RANGE
    ensures Name(filename, ext, n) !in FirstNames(filename, ext, n)
  {
    forall k | 0 <= k < n ensures Name(filename, ext, k) != Name(filename, ext, n) {
      NamesDiffer(filename, ext, k, n);
    }
  }

  lemma {:induction false} CountNames(filename: string, ext: string, n: nat)
    requires n <= COUNTER_RANGE + 1
    ensures |FirstNames(filename, ext, n)| == n
  {
    if n > 0 {
      CountNames(filename, ext, n - 1);
      NextFirstNames(filename, ext, n - 1);
      NewName(filename, ext, n - 1);
    }
  }

  /** Pigeonhole: a directory of at most 65536 entries leaves a candidate free, so
      the search ends. */
  lemma SmallDirectoryHasFree(t: Tree, home: string, dirname: string, filename: string, ext: string)
    requires '/' !in filename && '/' !in ext && filename + ext != ""
    requires |Names(t, Resolve(home, dirname))| <= COUNTER_RANGE
    ensures HasFree(t, home, dirname, filename, ext)
  {
    if !HasFree(t, home, dirname, filename, ext) {
      var names := FirstNames(filename, ext, COUNTER_RANGE + 1);
      forall k | 0 <= k <= COUNTER_RANGE ensures Name(filename, ext, k) in Known(t, home, dirname) {
        TakenName(t, home, dirname, filename, ext, k);
      }
      CountNames(filename, ext, COUNTER_RANGE + 1);
      SubsetIsSmaller(names, Known(t, home, dirname));
    }
  }

  lemma {:induction false} SubsetIsSmaller(a: set<string>, b: set<string>)
    requires a <= b
    ensures |a| <= |b|
  {
    if x :| x in a {
      SubsetIsSmaller(a - {x}, b - {x});
    }
  }

  /** What the search returns when candidate k is the first free one. */
  function Answer(filename: string, k: nat, maxLen: nat): string {
    if 0 < k < COUNTER_RANGE && maxLen > |filename| then filename + Decimal(k) else filename
  }

  /** The answer names the free candidate exactly if the search stopped before the
      counter wrapped and, unless the base name itself was free, the length limit
      exceeds the base name. */
  lemma AnswerIsFree(t: Tree, home: string, dirname: string, filename: string, ext: string, maxLen: nat, k: nat)
    requires k <= COUNTER_RANGE && IsFirstFree(t, home, dirname, filename, ext, k)
    ensures !Taken(t, home, dirname + "/" + (Answer(filename, k, maxLen) + ext)) <==>
              k == 0 || (k < COUNTER_RANGE && maxLen > |filename|)
  {
    AnswerIsCandidate(dirname, filename, ext, maxLen, k);
    if k > 0 {
      assert Taken(t, home, Candidate(dirname, filename, ext, 0));
    }
  }

  lemma AnswerIsCandidate(dirname: string, filename: string, ext: string, maxLen: nat, k: nat)
    requires k <= COUNTER_RANGE
    ensures var j := if 0 < k < COUNTER_RANGE && maxLen > |filename| then k else 0;
            dirname + "/" + (Answer(filename, k, maxLen) + ext) == Candidate(dirname, filename, ext, j)
  {
    BaseName(filename, ext);
  }

  lemma BaseName(filename: string, ext: string)
    ensures Name(filename, ext, 0) == filename + ext
  {
    assert filename + "" == filename;
  }

  /** Before try k: the counter has the number, the candidate is spelled out, and all
      before it are taken. */
  ghost predicate Trying(t: Tree, home: string, dirname: string, filename: string, ext: string, k: nat, num: nat, path: string) {
    && num == k % COUNTER_RANGE && path == Candidate(dirname, filename, ext, k)
    && AllTaken(t, home, dirname, filename, ext, k)
  }

  lemma FirstTry(t: Tree, home: string, dirname: string, filename: string, ext: string)
    ensures Trying(t, home, dirname, filename, ext, 0, 0, dirname + "/" + (filename + ext))
  {
    BaseName(filename, ext);
  }

  lemma NextCandidate(dirname: string, filename: string, ext: string, k: nat, num: nat, next: nat)
    requires k < COUNTER_RANGE && num == k % COUNTER_RANGE && next == (num + 1) % COUNTER_RANGE
    ensures next == (k + 1) % COUNTER_RANGE
    ensures dirname + "/" + (filename + Decimal(next) + ext) == Candidate(dirname, filename, ext, k + 1)
  {
  }

  lemma OneMoreTaken(t: Tree, home: string, dirname: string, filename: string, ext: string, k: nat, free: nat)
    requires AllTaken(t, home, dirname, filename, ext, k) && Taken(t, home, Candidate(dirname, filename, ext, k))
    requires k <= free && !Taken(t, home, Candidate(dirname, filename, ext, free))
    ensures k < free && AllTaken(t, home, dirname, filename, ext, k + 1)
  {
  }

  lemma NextTry(t: Tree, home: string, dirname: string, filename: string, ext: string, k: nat, num: nat, path: string,
                free: nat, next: nat, path': string)
    requires Trying(t, home, dirname, filename, ext, k, num, path) && Taken(t, home, path)
    requires k <= free <= COUNTER_RANGE && !Taken(t, home, Candidate(dirname, filename, ext, free))
    requires next == (num + 1) % COUNTER_RANGE && path' == dirname + "/" + (filename + Decimal(next) + ext)
    ensures k < free && Trying(t, home, dirname, filename, ext, k + 1, next, path')
  {
    OneMoreTaken(t, home, dirname, filename, ext, k, free);
    NextCandidate(dirname, filename, ext, k, num, next);
  }

  ghost predicate FirstFreeAnswer(t: Tree, home: string, dirname: string, filename: string, ext: string, maxLen: nat,
                                  next: string)
  {
    exists k: nat :: k <= COUNTER_RANGE && IsFirstFree(t, home, dirname, filename, ext, k)
                     && next == Answer(filename, k, maxLen)
  }

  lemma LastTry(t: Tree, home: string, dirname: string, filename: string, ext: string, k: nat, num: nat, path: string,
                maxLen: nat)
    requires Trying(t, home, dirname, filename, ext, k, num, path) && !Taken(t, home, path) && k <= COUNTER_RANGE
    ensures FirstFreeAnswer(t, home, dirname, filename, ext, maxLen,
                            if num != 0 && maxLen > |filename| then filename + Decimal(num) else filename)
  {
    AnswerFound(filename, k, num, maxLen);
    assert IsFirstFree(t, home, dirname, filename, ext, k);
  }

  lemma AnswerFound(filename: string, k: nat, num: nat, maxLen: nat)
    requires k <= COUNTER_RANGE && num == k % COUNTER_RANGE
    ensures Answer(filename, k, maxLen)
         == if num != 0 && maxLen > |filename| then filename + Decimal(num) else filename
  {
  }

  method NextFilename(s: Storage, dirname: string, filename: string, ext: string, maxLen: nat)
    returns (next: string)
    requires HasFree(s.tree, s.home, dirname, filename, ext)
    ensures FirstFreeAnswer(s.tree, s.home, dirname, filename, ext, maxLen, next)
  {
    ghost var free: nat :|
      free <= COUNTER_RANGE && !Taken(s.tree, s.home, Candidate(dirname, filename, ext, free));
    var num: nat := 0;
    var temp := dirname + "/" + (filename + ext);
    ghost var k: nat := 0;
    FirstTry(s.tree, s.home, dirname, filename, ext);
    while true
      invariant k <= free && Trying(s.tree, s.home, dirname, filename, ext, k, num, temp)
      decreases free - k
    {
      var found := Exists(s, temp);
      if !found {
        break;
      }
      num, temp := TryNext(s, dirname, filename, ext, num, temp, k, free);
      k := k + 1;
    }
    LastTry(s.tree, s.home, dirname, filename, ext, k, num, temp, maxLen);
    next := if num != 0 && maxLen > |filename| then filename + Decimal(num) else filename;
  }

  method TryNext(s: Storage, dirname: string, filename: string, ext: string, num: nat, temp: string,
                 ghost k: nat, ghost free: nat) returns (num': nat, temp': string)
    requires Trying(s.tree, s.home, dirname, filename, ext, k, num, temp) && Taken(s.tree, s.home, temp)
    requires k <= free <= COUNTER_RANGE && !Taken(s.tree, s.home, Candidate(dirname, filename, ext, free))
    ensures k < free && Trying(s.tree, s.home, dirname, filename, ext, k + 1, num', temp')
  {
    num' := (num + 1) % COUNTER_RANGE;
    temp' := dirname + "/" + (filename + Decimal(num') + ext);
    NextTry(s.tree, s.home, dirname, filename, ext, k, num, temp, free, num', temp');
  }

  method Exists(s: Storage, path: string) returns (found: bool)
    ensures found == Taken(s.tree, s.home, path)
  {
    var e, _ := s.Stat(path);
    found := e == Ok;
  }
}
