/** The radii for which the 16-bit loops of `u8g2_draw_ellipse` plot what the exact ones
    do are those of `Fits` and no others.

    Beyond them the loop along the longer radius goes wrong, unless it plots nothing at
    all, and it does so before it first lowers u.  Until then err is the 16 bits of
    m^2 v^2 for the shorter radius m, and the exact loop lowers u once 2 m^2 v^2 exceeds
    M^2 (2m - 1) for the longer radius M. */
module EllipseExactness {
  import opened Painting
  import opened Circles
  import opened EllipseCurves
  import opened EllipseBounds
  import opened EllipseRanges

  /** Both loops plot the whole runs. */
  ghost predicate PlotsWhole(ru: byte, rv: byte, us: seq<int>) {
    CodeRun(ru, rv, us) && WholeRun(rv * rv, ru * ru, ru, rv, us)
  }

  ghost predicate DrawnWhole(rx: byte, ry: byte) {
    exists us, vs :: PlotsWhole(rx, ry, us) && PlotsWhole(ry, rx, vs)
  }

  // ---- before u is lowered ----

  /** err in line v as long as u has not been lowered, and the change of err by u. */
  function ErrAt(m: nat, v: nat): int {
    I16((m * m) * (v * v))
  }

  function ChangeAt(m: nat, w: nat): int {
    I16((w * w) * (1 - 2 * m))
  }

  /** The code lowers u on the way to line v, if it has not before. */
  predicate CodeLowers(m: nat, w: nat, v: nat) {
    2 * ErrAt(m, v) + ChangeAt(m, w) > 0
  }

  /** The exact loop does. */
  predicate Lowered(m: nat, w: nat, v: nat) {
    2 * ((m * m) * (v * v)) > (w * w) * (2 * m - 1)
  }

  lemma FirstChange(m: nat, w: nat)
    ensures First16(m, w).uchg == ChangeAt(m, w)
  {
    StoreProduct((1 - m - m) * w, w);
    assert ((1 - m - m) * w) * w == (w * w) * (1 - 2 * m);
  }

  lemma ErrStarts(m: nat)
    ensures ErrAt(m, 0) == 0
  {
    assert (m * m) * (0 * 0) == 0;
  }

  lemma NextSquares(q: nat, k: nat)
    ensures q * ((k + 1) * (k + 1)) == q * (k * k) + q * (2 * k + 1)
    ensures q * (2 * (k + 1) + 1) == q * (2 * k + 1) + 2 * q
  {
    assert (k + 1) * (k + 1) == k * k + (2 * k + 1);
  }

  /** The values in line k, if u is still where it started. */
  predicate Unlowered(m: nat, w: nat, k: nat, s: Values) {
    s.err == ErrAt(m, k) && s.vchg == I16((m * m) * (2 * k + 1)) && s.uchg == ChangeAt(m, w)
  }

  lemma UnloweredStep(m: nat, w: nat, k: nat, s: Values, p2: int)
    requires Unlowered(m, w, k, s)
    ensures Lowers16(s) <==> CodeLowers(m, w, k + 1)
    ensures !Lowers16(s) ==> Unlowered(m, w, k + 1, Next16(p2, TwiceSquare(m), s))
  {
    NextSquares(m * m, k);
    StoreSum((m * m) * (k * k), (m * m) * (2 * k + 1));
    StoreProduct(m * m, 2);
    StoreSum((m * m) * (2 * k + 1), 2 * (m * m));
  }

  lemma UnloweredStart(m: nat, w: nat)
    ensures Unlowered(m, w, 0, First16(m, w))
  {
    FirstChange(m, w);
    ErrStarts(m);
    FirstFactor(m * m);
  }

  lemma FirstFactor(q: nat)
    ensures q * (2 * 0 + 1) == q
  {
  }

  lemma {:induction false} UnloweredAt(m: byte, w: byte, k: nat)
    requires m > 0 && forall j | 0 <= j <= k :: U16(m, w, j) == m
    ensures Unlowered(m, w, k, State16(m, w, k))
  {
    if k == 0 {
      UnloweredStart(m, w);
    } else {
      UnloweredAt(m, w, k - 1);
      assert U16(m, w, k) == m == U16(m, w, k - 1);
      UnloweredStep(m, w, k - 1, State16(m, w, k - 1), TwiceSquare(w));
    }
  }

  /** What the code makes of u in line v, if it has been left alone before. */
  lemma CodeChoice(m: byte, w: byte, v: nat)
    requires m > 0 && v > 0 && forall j | 0 <= j < v :: U16(m, w, j) == m
    ensures U16(m, w, v) == if CodeLowers(m, w, v) then m - 1 else m
  {
    UnloweredAt(m, w, v - 1);
    UnloweredStep(m, w, v - 1, State16(m, w, v - 1), TwiceSquare(w));
  }

  /** What the exact loop makes of it. */
  lemma ExactChoice(p: nat, q: nat, m: nat, v: nat)
    requires q == m * m && v > 0
    ensures NextU(p, q, m, v - 1) == if 2 * (q * (v * v)) > p * (2 * m - 1) then m - 1 else m
  {
    ErrLowerU(p, q, m, v);
    assert p * (m * m) == p * q;
    assert p * (1 - 2 * m) == -(p * (2 * m - 1));
  }

  lemma KeptBefore(m: nat, w: nat, j: nat, v: nat)
    requires j <= v && !Lowered(m, w, v)
    ensures !Lowered(m, w, j)
  {
    Products(j, v);
    UBound(m * m, v * v, j * j);
  }

  /** A line that is kept is before the end of the loop. */
  lemma KeptLineIsPlotted(m: nat, w: nat, v: nat)
    requires m > 0 && w > 0 && v > 0 && !Lowered(m, w, v)
    ensures (w * w) * m >= (m * m) * v
  {
    UBound((m * m) * v, v, 1);
    assert ((m * m) * v) * v == (m * m) * (v * v);
    assert (w * w) * (2 * m - 1) == 2 * ((w * w) * m) - w * w;
  }

  /** The exact run stays at u = m while it does not lower. */
  lemma {:induction false} ExactStays(m: nat, w: nat, us: seq<int>, v: nat)
    requires m > 0 && w > 0 && WholeRun(w * w, m * m, m, w, us) && !Lowered(m, w, v)
    ensures v < |us| && us[v] == m
  {
    if v == 0 {
      assert InRun(w * w, m * m, m, w, us, 0);
    } else {
      KeptBefore(m, w, v - 1, v);
      ExactStays(m, w, us, v - 1);
      ExactChoice(w * w, m * m, m, v);
      KeptLineIsPlotted(m, w, v);
      RunReaches(w * w, m * m, m, w, us, v, m);
    }
  }

  /** A run goes on with the next point if that is on the loop's part of the curve. */
  lemma RunReaches(p: nat, q: nat, ru: nat, rv: nat, us: seq<int>, v: nat, u: int)
    requires WholeRun(p, q, ru, rv, us) && 0 < v <= |us|
    requires u == NextU(p, q, us[v - 1], v - 1) && p * u >= q * v
    ensures v < |us| && us[v] == u
  {
    assert v == |us| ==> RunNext(p, q, ru, us) == u;
    if v < |us| {
      assert InRun(p, q, ru, rv, us, v);
      assert us[..v][v - 1] == us[v - 1];
    }
  }

  /** The two loops choose differently in line v, the exact one having kept u before. */
  predicate GoesWrong(m: nat, w: nat, v: nat) {
    && v > 0 && !Lowered(m, w, v - 1) && Lowered(m, w, v) != CodeLowers(m, w, v)
    && (Lowered(m, w, v) ==> (w * w) * (m - 1) >= (m * m) * v)
  }

  lemma ExactAtWrong(m: nat, w: nat, us: seq<int>, v: nat)
    requires m > 0 && w > 0 && WholeRun(w * w, m * m, m, w, us) && GoesWrong(m, w, v)
    ensures v < |us| && us[v] == if Lowered(m, w, v) then m - 1 else m
    ensures forall j | 0 <= j < v :: us[j] == m
  {
    forall j | 0 <= j < v ensures j < |us| && us[j] == m {
      KeptBefore(m, w, j, v - 1);
      ExactStays(m, w, us, j);
    }
    if Lowered(m, w, v) {
      ExactStays(m, w, us, v - 1);
      ExactChoice(w * w, m * m, m, v);
      RunReaches(w * w, m * m, m, w, us, v, m - 1);
    } else {
      ExactStays(m, w, us, v);
    }
  }

  /** ... so the code does not plot the whole run. */
  lemma WrongIsNotWhole(m: byte, w: byte, us: seq<int>, v: nat)
    requires m > 0 && w > 0 && GoesWrong(m, w, v)
    ensures !PlotsWhole(m, w, us)
  {
    if PlotsWhole(m, w, us) {
      ExactAtWrong(m, w, us, v);
      assert forall j | 0 <= j < v :: U16(m, w, j) == us[j];
      CodeChoice(m, w, v);
    }
  }

  lemma NothingIsNotWhole(m: byte, w: byte, us: seq<int>)
    requires I16(2 * ((w * w) * m)) < 0
    ensures !PlotsWhole(m, w, us)
  {
    PlotsNothing(m, w);
    if PlotsWhole(m, w, us) {
      OneCodeRun(m, w, us, []);
    }
  }

  // ---- where they go wrong ----

  /** The loop along the longer radius w plots nothing or goes wrong somewhere. */
  ghost predicate Fails(m: nat, w: nat) {
    I16(2 * ((w * w) * m)) < 0 || exists v :: GoesWrong(m, w, v)
  }

  function Half(i: nat): nat {
    if i == 0 then 2 else 4 * Half(i - 1)
  }

  /** An odd power of two times an odd number is no square, nor an odd multiple of one. */
  lemma {:induction false} NoSquare(n: nat, m: nat, i: nat, k: int)
    requires m >= 1 && k % 2 == 1
    ensures (n * n) * (2 * m - 1) != Half(i) * k
  {
    if n % 2 == 0 {
      var t := n / 2;
      Quadruple(t, n, m);
      if i > 0 {
        NoSquare(t, m, i - 1, k);
        assert Half(i) * k == 4 * (Half(i - 1) * k);
      }
    } else {
      OddProduct(n, m);
      EvenHalf(i, k);
    }
  }

  lemma Quadruple(t: nat, n: nat, m: nat)
    requires n == 2 * t
    ensures (n * n) * (2 * m - 1) == 4 * ((t * t) * (2 * m - 1))
  {
  }

  lemma OddProduct(n: nat, m: nat)
    requires n % 2 == 1
    ensures ((n * n) * (2 * m - 1)) % 2 == 1
  {
    var t := n / 2;
    assert n * n == 2 * (2 * (t * t) + 2 * t) + 1;
    assert (n * n) * (2 * m - 1) == 2 * ((n * n) * m) - n * n;
  }

  lemma EvenHalf(i: nat, k: int)
    ensures (Half(i) * k) % 2 == 0
  {
    TwiceIsEven(Half(i), if i == 0 then 1 else 2 * Half(i - 1), k);
  }

  lemma TwiceIsEven(n: int, h: int, k: int)
    requires n == 2 * h
    ensures (n * k) % 2 == 0
  {
    assert n * k == 2 * (h * k);
  }

  /** So the change of err is never the lowest 16-bit number. */
  lemma ChangeAboveLowest(m: nat, w: nat)
    requires m >= 1
    ensures ChangeAt(m, w) > -32768
  {
    var z := (w * w) * (2 * m - 1);
    assert (w * w) * (1 - 2 * m) == -z;
    var k := (-z + 32768) / 65536;
    assert I16(-z) == -z - 65536 * k;
    assert Half(7) == 32768;
    NoSquare(w, m, 7, 1 - 2 * k);
  }

  /** A line where err is at least 16384 lowers u whatever the change. */
  lemma HighErr(m: nat, w: nat, v: nat)
    requires m >= 1 && ErrAt(m, v) >= 16384 && v > 0 && !Lowered(m, w, v)
    ensures GoesWrong(m, w, v)
  {
    ChangeAboveLowest(m, w);
    KeptBefore(m, w, v - 1, v);
  }

  /** err is at least 16384 for the radii a..b in line v. */
  predicate Window(a: nat, b: nat, v: nat, k: nat) {
    v > 0 && 65536 * k + 16384 <= (a * v) * (a * v) && (b * v) * (b * v) <= 65536 * k + 32767
  }

  lemma SquareInWindow(x: nat, lo: nat, hi: nat, k: nat)
    requires lo <= x <= hi && 65536 * k + 16384 <= lo * lo && hi * hi <= 65536 * k + 32767
    ensures I16(x * x) >= 16384
  {
    Products(lo, x);
    Products(x, hi);
    SameResidue(x * x - 65536 * k, k);
  }

  lemma InWindow(m: nat, a: nat, b: nat, v: nat, k: nat)
    requires Window(a, b, v, k) && a <= m <= b
    ensures ErrAt(m, v) >= 16384
  {
    Mul(a, m, v);
    Mul(m, b, v);
    SquareInWindow(m * v, a * v, b * v, k);
    assert (m * v) * (m * v) == (m * m) * (v * v);
  }

  /** For low lines u is kept by every ellipse at least as high as wide. */
  lemma LowLine(m: nat, w: nat, v: nat)
    requires 1 <= m <= w && v * v <= m - 1
    ensures !Lowered(m, w, v)
  {
    Products(m, w);
    UBound(m * m, m - 1, v * v);
    Mul(m * m, w * w, 2 * m - 1);
    assert (m * m) * (2 * m - 1) == 2 * ((m * m) * (m - 1)) + m * m;
  }

  lemma FailsInWindow(m: nat, w: nat, a: nat, b: nat, v: nat, k: nat)
    requires a <= m <= b && m <= w && 1 <= a && v * v <= a - 1 && Window(a, b, v, k)
    ensures Fails(m, w)
  {
    InWindow(m, a, b, v, k);
    LowLine(m, w, v);
    HighErr(m, w, v);
  }

  /** For slim ellipses it is kept as far as the stop value says. */
  lemma SlimLine(m: nat, w: nat, v: nat)
    requires 1 <= m && (w * w) * m >= 32768 && m * ((m * v) * (m * v)) <= 32768 * m - 16384
    ensures !Lowered(m, w, v)
  {
    var x, y := (m * m) * (v * v), w * w;
    assert (m * v) * (m * v) == x;
    SlimProduct(y * m, m);
    assert (y * (2 * m - 1)) * m == (y * m) * (2 * m - 1);
    assert (2 * x) * m == 2 * (m * x);
    assert (y * (2 * m - 1) + 1) * m == (y * (2 * m - 1)) * m + m;
    Cancel(2 * x, y * (2 * m - 1), m);
  }

  lemma SlimProduct(z: nat, m: nat)
    requires z >= 32768 && m >= 1
    ensures z * (2 * m - 1) >= 65536 * m - 32768
  {
    Mul(32768, z, 2 * m - 1);
  }

  lemma SlimSquares(a: nat, m: nat, b: nat, v: nat)
    requires a <= m <= b && (b * v) * (b * v) <= 32767
    requires a * ((b * v) * (b * v)) <= 32768 * a - 16384
    ensures m * ((m * v) * (m * v)) <= 32768 * m - 16384
  {
    var x := (b * v) * (b * v);
    Mul(m, b, v);
    Products(m * v, b * v);
    UBound(m, x, (m * v) * (m * v));
    UBound(m - a, 32768, x);
    assert m * x == a * x + (m - a) * x;
  }

  lemma FailsWhenSlim(m: nat, w: nat, a: nat, b: nat, v: nat)
    requires 1 <= a <= m <= b && (w * w) * m >= 32768 && Window(a, b, v, 0)
    requires a * ((b * v) * (b * v)) <= 32768 * a - 16384
    ensures Fails(m, w)
  {
    InWindow(m, a, b, v, 0);
    SlimSquares(a, m, b, v);
    SlimLine(m, w, v);
    HighErr(m, w, v);
  }

  /** A line that one ellipse keeps is kept by every higher one. */
  lemma FailsFrom(m: nat, w: nat, start: nat, v: nat, k: nat)
    requires m >= 1 && start <= w && Window(m, m, v, k)
    requires 2 * ((m * v) * (m * v)) <= (start * start) * (2 * m - 1)
    ensures Fails(m, w)
  {
    InWindow(m, m, m, v, k);
    Products(start, w);
    Mul(start * start, w * w, 2 * m - 1);
    assert (m * v) * (m * v) == (m * m) * (v * v);
    HighErr(m, w, v);
  }
}
