/** A word of flags, flag by flag.  A flag is named by its mask, a word with one bit. */
module EventBits {

  predicate IsFlag(m: bv32) {
    m != 0 && m & (m - 1) == 0
  }

  /** The flag m is set in the word v. */
  predicate Flag(v: bv32, m: bv32) {
    IsFlag(m) && v & m != 0
  }

  lemma FlagCleared(a: bv32, b: bv32, m: bv32)
    ensures Flag(a & !b, m) <==> Flag(a, m) && !Flag(b, m)
  {
  }

  lemma FlagShared(a: bv32, b: bv32, m: bv32)
    ensures Flag(a & b, m) <==> Flag(a, m) && Flag(b, m)
  {
  }

  lemma FlagJoined(a: bv32, b: bv32, m: bv32)
    ensures Flag(a | b, m) <==> Flag(a, m) || Flag(b, m)
  {
  }

  function LowestFlag(v: bv32): bv32 {
    v & (!v + 1)
  }

  lemma LowestIsSet(v: bv32)
    requires v != 0
    ensures Flag(v, LowestFlag(v))
  {
  }

  lemma NoneSet(m: bv32)
    ensures !Flag(0, m)
  {
  }

  /** Two words share a flag. */
  lemma AnyFlag(a: bv32, b: bv32)
    ensures a & b != 0 <==> exists m :: Flag(a, m) && Flag(b, m)
  {
    if a & b != 0 {
      LowestIsSet(a & b);
      FlagShared(a, b, LowestFlag(a & b));
    } else {
      forall m ensures !Flag(a, m) || !Flag(b, m) {
        FlagShared(a, b, m);
        NoneSet(m);
      }
    }
  }

  lemma NoneMissing(a: bv32, b: bv32)
    requires b & !a == 0
    ensures a & b == b
  {
  }

  lemma AllThere(a: bv32, b: bv32)
    requires a & b == b
    ensures b & !a == 0
  {
  }

  /** One word has all flags of the other. */
  lemma AllFlags(a: bv32, b: bv32)
    ensures a & b == b <==> forall m :: Flag(b, m) ==> Flag(a, m)
  {
    if b & !a != 0 {
      LowestIsSet(b & !a);
      FlagCleared(b, a, LowestFlag(b & !a));
      if a & b == b {
        AllThere(a, b);
        assert false;
      }
    } else {
      NoneMissing(a, b);
      forall m ensures Flag(b, m) ==> Flag(a, m) {
        FlagCleared(b, a, m);
        NoneSet(m);
      }
    }
  }

  /** s holds the flags that are set in v. */
  ghost predicate FlagsOf(s: iset<bv32>, v: bv32) {
    forall m {:trigger Flag(v, m)} :: m in s <==> Flag(v, m)
  }

  lemma Member(s: iset<bv32>, v: bv32, m: bv32)
    requires FlagsOf(s, v)
    ensures m in s <==> Flag(v, m)
  {
    var _ := Flag(v, m);
  }

  lemma SetsMeet(a: bv32, b: bv32, s: iset<bv32>, t: iset<bv32>)
    requires FlagsOf(s, a) && FlagsOf(t, b)
    ensures a & b != 0 <==> s * t != iset{}
  {
    AnyFlag(a, b);
    if a & b != 0 {
      var m :| Flag(a, m) && Flag(b, m);
      assert m in s * t;
    } else {
      forall m ensures m !in s * t {
        Member(s, a, m);
        Member(t, b, m);
      }
      assert s * t == iset{};
    }
  }

  lemma SetsCover(a: bv32, b: bv32, s: iset<bv32>, t: iset<bv32>)
    requires FlagsOf(s, a) && FlagsOf(t, b)
    ensures a & b == b <==> t <= s
  {
    AllFlags(a, b);
    if a & b == b {
      forall m | m in t ensures m in s {
        Member(t, b, m);
        Member(s, a, m);
      }
    } else {
      var m :| Flag(b, m) && !Flag(a, m);
      assert m in t && m !in s;
    }
  }

  lemma SetShared(a: bv32, b: bv32, s: iset<bv32>, t: iset<bv32>)
    requires FlagsOf(s, a) && FlagsOf(t, b)
    ensures FlagsOf(s * t, a & b)
  {
    forall m ensures m in s * t <==> Flag(a & b, m) {
      Member(s, a, m);
      Member(t, b, m);
      FlagShared(a, b, m);
    }
  }

  lemma SetCleared(a: bv32, b: bv32, s: iset<bv32>, t: iset<bv32>)
    requires FlagsOf(s, a) && FlagsOf(t, b)
    ensures FlagsOf(s - t, a & !b)
  {
    forall m ensures m in s - t <==> Flag(a & !b, m) {
      Member(s, a, m);
      Member(t, b, m);
      FlagCleared(a, b, m);
    }
  }

  lemma SetJoined(a: bv32, b: bv32, s: iset<bv32>, t: iset<bv32>)
    requires FlagsOf(s, a) && FlagsOf(t, b)
    ensures FlagsOf(s + t, a | b)
  {
    forall m ensures m in s + t <==> Flag(a | b, m) {
      Member(s, a, m);
      Member(t, b, m);
      FlagJoined(a, b, m);
    }
  }
}
