/** The loops of `u8g2_draw_ellipse` in 16-bit arithmetic: for radii within bounds they
    do what the exact ones do, and what happens beyond. */
module EllipseRanges {
  import opened Painting
  import opened Circles
  import opened EllipseCurves
  import opened EllipseBounds

  // ---- the loop in 16 bits ----

  function TwiceSquare(r: nat): int {
    I16(I16(r * r) * 2)
  }

  function First16(ru: nat, rv: nat): Values {
    Values(I16(I16((1 - ru - ru) * rv) * rv), I16(ru * ru), 0, I16(TwiceSquare(rv) * ru), 0)
  }

  predicate Lowers16(s: Values) {
    2 * I16(s.err + s.vchg) + s.uchg > 0
  }

  function Next16(p2: int, q2: int, s: Values): Values {
    var e := I16(s.err + s.vchg);
    if Lowers16(s) then
      Values(I16(s.uchg + p2), I16(s.vchg + q2), I16(e + s.uchg), I16(s.stopu - p2), I16(s.stopv + q2))
    else
      Values(s.uchg, I16(s.vchg + q2), e, s.stopu, I16(s.stopv + q2))
  }

  /** The values after n passes, and the coordinate u, a byte. */
  function State16(ru: nat, rv: nat, n: nat): Values {
    if n == 0 then First16(ru, rv) else Next16(TwiceSquare(rv), TwiceSquare(ru), State16(ru, rv, n - 1))
  }

  function U16(ru: byte, rv: nat, n: nat): byte {
    if n == 0 then ru
    else if Lowers16(State16(ru, rv, n - 1)) then U8(U16(ru, rv, n - 1) - 1)
    else U16(ru, rv, n - 1)
  }

  predicate Goes16(ru: nat, rv: nat, n: nat) {
    State16(ru, rv, n).stopu >= State16(ru, rv, n).stopv
  }

  ghost predicate EndsAt(ru: nat, rv: nat, n: nat) {
    !Goes16(ru, rv, n) && forall k | 0 <= k < n :: Goes16(ru, rv, k)
  }

  ghost predicate Ends(ru: nat, rv: nat) {
    exists n: nat :: EndsAt(ru, rv, n)
  }

  /** us[k] is the coordinate u of the k-th point that the loop plots. */
  ghost predicate CodeRun(ru: byte, rv: byte, us: seq<int>) {
    EndsAt(ru, rv, |us|) && forall k | 0 <= k < |us| :: us[k] == U16(ru, rv, k)
  }

  lemma OneEnd(ru: nat, rv: nat, m: nat, n: nat)
    requires EndsAt(ru, rv, m) && EndsAt(ru, rv, n)
    ensures m == n
  {
  }

  lemma OneCodeRun(ru: byte, rv: byte, us: seq<int>, vs: seq<int>)
    requires CodeRun(ru, rv, us) && CodeRun(ru, rv, vs)
    ensures us == vs
  {
    OneEnd(ru, rv, |us|, |vs|);
  }

  lemma EndsHasRun(ru: byte, rv: byte) returns (us: seq<int>)
    requires Ends(ru, rv)
    ensures CodeRun(ru, rv, us)
  {
    var n: nat :| EndsAt(ru, rv, n);
    us := seq(n, k requires 0 <= k => U16(ru, rv, k));
  }

  lemma FirstFits(ru: nat, rv: nat)
    requires StartFits(ru, rv)
    ensures First16(ru, rv) == First(ru, rv)
    ensures TwiceSquare(rv) == 2 * (rv * rv) && TwiceSquare(ru) == 2 * (ru * ru)
  {
    assert ((1 - 2 * ru) * rv) * rv == (rv * rv) * (1 - 2 * ru);
    assert (rv * rv * 2) * ru == 2 * ((rv * rv) * ru);
  }

  // ---- the 16-bit loop follows the exact one ----

  lemma LoopIsAtPoint(p: nat, q: nat, ru: nat, rv: nat, us: seq<int>, u: int, s: Values)
    requires Loop(p, q, ru, rv, us, u, s) && s.stopu >= s.stopv
    ensures OnCurve(p, q, u, |us|, s) && PointOn(p, q, ru, rv, u, |us|)
  {
  }

  lemma AtIsPoint(ru: nat, rv: nat, us: seq<int>, n: nat)
    requires At(ru, rv, us, n) && Goes(ru, rv, n)
    ensures Point(ru, rv, U(ru, rv, n), n) && OnCurve(rv * rv, ru * ru, U(ru, rv, n), n, State(ru, rv, n))
  {
    LoopIsAtPoint(rv * rv, ru * ru, ru, rv, us, U(ru, rv, n), State(ru, rv, n));
  }

  lemma ReachedPoint(ru: nat, rv: nat, n: nat)
    requires (ru > 0 || rv > 0) && Reached(ru, rv, n)
    ensures Point(ru, rv, U(ru, rv, n), n) && OnCurve(rv * rv, ru * ru, U(ru, rv, n), n, State(ru, rv, n))
  {
    ReachedStep(ru, rv, n);
    var us := StateLoop(ru, rv, n);
    AtIsPoint(ru, rv, us, n);
  }

  predicate AllFit(s: Values) {
    InI16(s.uchg) && InI16(s.vchg) && InI16(s.err) && InI16(s.stopu) && InI16(s.stopv)
  }

  lemma ReachedFits(ru: nat, rv: nat, n: nat)
    requires Bounded(ru, rv) && Reached(ru, rv, n)
    ensures AllFit(State(ru, rv, n)) && 0 <= U(ru, rv, n) <= ru
  {
    ReachedPoint(ru, rv, n);
    PointFits(ru, rv, U(ru, rv, n), n, State(ru, rv, n));
  }

  /** What the next pass computes fits, as far as it is used. */
  lemma PassFits(ru: nat, rv: nat, u: nat, v: nat, s: Values)
    requires Bounded(ru, rv) && Point(ru, rv, u, v) && OnCurve(rv * rv, ru * ru, u, v, s)
    ensures var t := NextValues(2 * (rv * rv), 2 * (ru * ru), s);
            InI16(s.err + s.vchg) && InI16(t.stopu) && InI16(t.stopv)
  {
    CurveStep(rv * rv, ru * ru, u, v, s);
    ErrNextV(rv * rv, ru * ru, u, v);
    MiddleErrFits(ru, rv, u, v);
    StopsFit(ru, rv, u, v, NextU(rv * rv, ru * ru, u, v));
  }

  /** A pass whose values fit is an exact one. */
  lemma ExactPass(p2: int, q2: int, s: Values)
    requires var t := NextValues(p2, q2, s); InI16(s.err + s.vchg) && InI16(t.stopu) && InI16(t.stopv)
    ensures Lowers16(s) == Lowers(s)
    ensures var t, t' := NextValues(p2, q2, s), Next16(p2, q2, s);
            (AllFit(s) ==> t'.stopu == t.stopu && t'.stopv == t.stopv) && (AllFit(s) && AllFit(t) ==> t' == t)
  {
  }

  lemma NextPassFits(ru: nat, rv: nat, n: nat)
    requires Bounded(ru, rv) && Reached(ru, rv, n)
    ensures var s, t := State(ru, rv, n), State(ru, rv, n + 1);
            InI16(s.err + s.vchg) && InI16(t.stopu) && InI16(t.stopv)
  {
    ReachedPoint(ru, rv, n);
    PassFits(ru, rv, U(ru, rv, n), n, State(ru, rv, n));
  }

  /** The 16-bit values are the exact ones, and decide the same. */
  predicate Same(ru: byte, rv: byte, n: nat) {
    && Goes16(ru, rv, n) == Goes(ru, rv, n)
    && (Goes(ru, rv, n) ==> State16(ru, rv, n) == State(ru, rv, n) && U16(ru, rv, n) == U(ru, rv, n))
  }

  lemma SameStart(ru: byte, rv: byte)
    requires Bounded(ru, rv)
    ensures Same(ru, rv, 0)
  {
    BoundedStarts(ru, rv);
    FirstFits(ru, rv);
  }

  lemma StepsFit(ru: byte, rv: byte)
    requires Bounded(ru, rv)
    ensures TwiceSquare(rv) == 2 * (rv * rv) && TwiceSquare(ru) == 2 * (ru * ru)
  {
    BoundedStarts(ru, rv);
    FirstFits(ru, rv);
  }

  lemma SameStep(ru: byte, rv: byte, n: nat, p2: int, q2: int)
    requires Same(ru, rv, n) && Goes(ru, rv, n) && AllFit(State(ru, rv, n))
    requires State(ru, rv, n + 1) == NextValues(p2, q2, State(ru, rv, n))
    requires State16(ru, rv, n + 1) == Next16(p2, q2, State16(ru, rv, n))
    requires var s, t := State(ru, rv, n), State(ru, rv, n + 1);
             InI16(s.err + s.vchg) && InI16(t.stopu) && InI16(t.stopv)
    requires Goes(ru, rv, n + 1) ==> AllFit(State(ru, rv, n + 1)) && 0 <= U(ru, rv, n + 1) < 256
    ensures Same(ru, rv, n + 1)
  {
    ExactPass(p2, q2, State(ru, rv, n));
  }

  lemma ReachedStep(ru: nat, rv: nat, n: nat)
    requires Reached(ru, rv, n)
    ensures Goes(ru, rv, n) && (n > 0 ==> Reached(ru, rv, n - 1))
    ensures Goes(ru, rv, n + 1) ==> Reached(ru, rv, n + 1)
  {
  }

  lemma SameNext(ru: byte, rv: byte, n: nat)
    requires Bounded(ru, rv) && Reached(ru, rv, n) && Same(ru, rv, n)
    ensures Same(ru, rv, n + 1)
  {
    ReachedStep(ru, rv, n);
    StepsFit(ru, rv);
    ReachedFits(ru, rv, n);
    NextPassFits(ru, rv, n);
    if Goes(ru, rv, n + 1) {
      ReachedFits(ru, rv, n + 1);
    }
    SameStep(ru, rv, n, 2 * (rv * rv), 2 * (ru * ru));
  }

  lemma {:induction false} SameReached(ru: byte, rv: byte, n: nat)
    requires Bounded(ru, rv) && Reached(ru, rv, n)
    ensures Same(ru, rv, n + 1)
  {
    if n == 0 {
      SameStart(ru, rv);
    } else {
      ReachedStep(ru, rv, n);
      SameReached(ru, rv, n - 1);
    }
    SameNext(ru, rv, n);
  }

  lemma SameValues(ru: byte, rv: byte, n: nat)
    requires Bounded(ru, rv) && (n > 0 ==> Reached(ru, rv, n - 1))
    ensures Same(ru, rv, n)
  {
    if n == 0 {
      SameStart(ru, rv);
    } else {
      SameReached(ru, rv, n - 1);
    }
  }

  lemma SameRun(ru: byte, rv: byte, us: seq<int>)
    requires forall k: nat | k <= |us| :: Same(ru, rv, k)
    requires !Goes(ru, rv, |us|) && forall k | 0 <= k < |us| :: Goes(ru, rv, k) && us[k] == U(ru, rv, k)
    ensures CodeRun(ru, rv, us)
  {
    assert Same(ru, rv, |us|);
    forall k | 0 <= k < |us| ensures Goes16(ru, rv, k) && us[k] == U16(ru, rv, k) {
      assert Same(ru, rv, k);
    }
  }

  /** For radii whose starting values fit, the code ends and plots the whole run. */
  lemma CodeRunIsWhole(ru: byte, rv: byte) returns (us: seq<int>)
    requires Fits(ru, rv)
    ensures CodeRun(ru, rv, us) && WholeRun(rv * rv, ru * ru, ru, rv, us)
  {
    us := LoopEnds(ru, rv);
    forall k: nat | k <= |us| ensures Same(ru, rv, k) {
      FitsBounds(ru, rv);
      SameValues(ru, rv, k);
    }
    SameRun(ru, rv, us);
  }

  // ---- every store ----

  /** No value that a pass stores wraps. */
  predicate PassStoresFit(p2: int, q2: int, s: Values) {
    InI16(s.err + s.vchg) && AllFit(NextValues(p2, q2, s))
  }

  /** Nor do the coordinates it stores, bytes both. */
  predicate CoordinatesFit(ru: nat, rv: nat, n: nat) {
    0 <= U(ru, rv, n + 1) < 256 && n + 1 < 256
  }

  /** Neither what is stored before a loop nor what its passes store wraps. */
  ghost predicate NoStoreWraps(ru: nat, rv: nat) {
    && StartFits(ru, rv)
    && (forall n: nat :: Reached(ru, rv, n) ==> PassStoresFit(2 * (rv * rv), 2 * (ru * ru), State(ru, rv, n)))
    && (forall n: nat :: Reached(ru, rv, n) ==> CoordinatesFit(ru, rv, n))
  }

  predicate BoundedThroughout(ru: nat, rv: nat) {
    Bounded(ru, rv) && ru > 0 && rv > 0 && 3 * (rv * rv) <= 32767 && 3 * (ru * ru) <= 32767
  }

  lemma FitsThroughoutBounds(rx: nat, ry: nat)
    ensures FitsThroughout(rx, ry) <==> BoundedThroughout(rx, ry)
  {
    var hi, lo := Max(rx, ry), Min(rx, ry);
    SmallerProduct(lo, hi);
    ScaleBounds(hi * hi, lo, 32767);
  }

  /** The line after a plotted one, if the ellipse is at least as wide as the line
      number grows. */
  lemma WideLast(m: nat, w: nat, v: nat)
    requires 2 * ((w * w) * m) <= 32767 && 2 <= m <= w && v < m && w * v <= m * m
    ensures (w * w) * (2 * v + 3) <= 32767
  {
    var h := w * w;
    if v <= m - 2 {
      UBound(h, 2 * m, 2 * v + 3);
      assert h * (2 * m) == 2 * (h * m);
    } else {
      LastLine(m, w);
    }
  }

  lemma LastLine(m: nat, w: nat)
    requires 2 * ((w * w) * m) <= 32767 && 2 <= m <= w && w * (m - 1) <= m * m
    ensures (w * w) * (2 * m + 1) <= 32767
  {
    if m >= 25 {
      UBound(w * w, m, 25);
      WidthBound(25, 25, w);
    } else {
      LastWidth(m, w);
      if m <= 22 {
        Products(w, 24);
        Times(w * w, 576, 2 * m + 1, 45);
      } else {
        Products(w, 25);
        Times(w * w, 625, 2 * m + 1, 49);
      }
    }
  }

  lemma LastWidth(m: nat, w: nat)
    requires 2 <= m <= 24 && w * (m - 1) <= m * m
    ensures w <= if m <= 22 then 24 else 25
  {
    assert (m + 3) * (m - 1) == m * m + 2 * m - 3;
    Cancel(w, m + 2, m - 1);
  }

  lemma Cancel(a: int, b: int, c: nat)
    requires a * c < (b + 1) * c
    ensures a <= b
  {
    if a > b {
      Mul(b + 1, a, c);
    }
  }

  /** The last store of vchg exceeds the one used by twice the square. */
  lemma LastStepFits(ru: nat, rv: nat, u: nat, v: nat)
    requires BoundedThroughout(ru, rv) && Point(ru, rv, u, v)
    ensures (ru * ru) * (2 * v + 3) <= 32767
  {
    if v == 0 {
      assert (ru * ru) * 3 == 3 * (ru * ru);
    } else {
      PositiveRadii(ru, rv, u, v);
      BelowRadius(ru, rv, u, v);
      if rv <= ru {
        SlopeBound(ru, rv, u, v);
        WideLast(rv, ru, v);
      } else {
        TallLast(ru, rv, v);
      }
    }
  }

  lemma SlopeBound(ru: nat, rv: nat, u: nat, v: nat)
    requires ru >= 1 && u <= ru && (rv * rv) * u >= (ru * ru) * v
    ensures ru * v <= rv * rv
  {
    UBound(rv * rv, ru, u);
    assert (ru * v) * ru == (ru * ru) * v;
    assert (rv * rv + 1) * ru == (rv * rv) * ru + ru;
    Cancel(ru * v, rv * rv, ru);
  }

  lemma TallSlope(m: nat, w: nat)
    requires m < w
    ensures m * (2 * w + 1) <= 2 * (w * w)
  {
    Mul(m, w - 1, 2 * w + 1);
    assert (w - 1) * (2 * w + 1) == 2 * (w * w) - w - 1;
  }

  lemma TallTimes(m: nat, w: nat)
    requires m < w
    ensures (m * m) * (2 * w + 1) <= 2 * ((w * w) * m)
  {
    TallSlope(m, w);
    UBound(m, 2 * (w * w), m * (2 * w + 1));
    assert m * (m * (2 * w + 1)) == (m * m) * (2 * w + 1);
    assert m * (2 * (w * w)) == 2 * ((w * w) * m);
  }

  lemma TallLast(m: nat, w: nat, v: nat)
    requires 2 * ((w * w) * m) <= 32767 && m < w && v < w
    ensures (m * m) * (2 * v + 3) <= 32767
  {
    TallTimes(m, w);
    UBound(m * m, 2 * w + 1, 2 * v + 3);
  }

  /** A lowered error term is between the two candidates' ones. */
  lemma LoweredErrFits(p: nat, u: nat, e: int, uchg: int)
    requires uchg == p * (1 - 2 * u) && 2 * e + uchg > 0 && InI16(e) && 2 * p <= 32767
    requires u == 0 ==> e == 0
    ensures InI16(e + uchg)
  {
    if u > 0 {
      Mul(1, 2 * u - 1, p);
      assert p * (2 * u - 1) == -(p * (1 - 2 * u));
    }
  }

  lemma LastChangesFit(p: nat, q: nat, u: nat, v: nat, s: Values)
    requires OnCurve(p, q, u, v, s) && InI16(s.uchg) && InI16(s.vchg)
    requires 3 * p <= 32767 && q * (2 * v + 3) <= 32767
    ensures InI16(s.uchg + 2 * p) && InI16(s.vchg + 2 * q)
  {
    assert q * (2 * v + 3) == q * (2 * v + 1) + 2 * q;
    Mul(0, 2 * u, p);
    assert p * (1 - 2 * u) == p - p * (2 * u);
  }

  lemma MiddleAtZero(ru: nat, rv: nat, v: nat)
    requires Point(ru, rv, 0, v)
    ensures v == 0 && ru == 0 && Err(rv * rv, ru * ru, 0, v + 1) == 0
  {
    if v > 0 {
      PositiveRadii(ru, rv, 0, v);
    } else {
      FirstMiddle(rv * rv, ru * ru, ru);
    }
  }

  lemma PointStoresFit(ru: nat, rv: nat, u: nat, v: nat, s: Values)
    requires BoundedThroughout(ru, rv) && Point(ru, rv, u, v) && OnCurve(rv * rv, ru * ru, u, v, s)
    ensures PassStoresFit(2 * (rv * rv), 2 * (ru * ru), s)
  {
    var p, q := rv * rv, ru * ru;
    PointFits(ru, rv, u, v, s);
    PassFits(ru, rv, u, v, s);
    LastStepFits(ru, rv, u, v);
    LastChangesFit(p, q, u, v, s);
    ErrNextV(p, q, u, v);
    if u == 0 {
      MiddleAtZero(ru, rv, v);
    }
    if Lowers(s) {
      LoweredErrFits(p, u, s.err + s.vchg, s.uchg);
    }
  }

  /** No store of either loop wraps exactly for these radii. */
  lemma StoresFitExactly(rx: nat, ry: nat)
    requires rx > 0 || ry > 0
    ensures NoStoreWraps(rx, ry) && NoStoreWraps(ry, rx) <==> FitsThroughout(rx, ry)
  {
    FitsThroughoutBounds(rx, ry);
    FitsThroughoutBounds(ry, rx);
    if FitsThroughout(rx, ry) {
      EveryPassFits(rx, ry);
      EveryPassFits(ry, rx);
    } else if NoStoreWraps(rx, ry) && NoStoreWraps(ry, rx) {
      BothPositive(rx, ry);
      StartsFitExactly(rx, ry);
      FitsBounds(rx, ry);
      FirstPassStore(rx, ry);
      FirstPassStore(ry, rx);
    }
  }

  lemma EveryPassFits(ru: nat, rv: nat)
    requires BoundedThroughout(ru, rv)
    ensures NoStoreWraps(ru, rv)
  {
    BoundedStarts(ru, rv);
    forall n: nat | Reached(ru, rv, n) ensures PassStoresFit(2 * (rv * rv), 2 * (ru * ru), State(ru, rv, n)) {
      ReachedPoint(ru, rv, n);
      PointStoresFit(ru, rv, U(ru, rv, n), n, State(ru, rv, n));
    }
    forall n: nat | Reached(ru, rv, n) ensures CoordinatesFit(ru, rv, n) {
      ReachedPoint(ru, rv, n);
      CoordinatesInside(ru, rv, U(ru, rv, n), n);
      NextState(ru, rv, n);
    }
  }

  lemma CoordinatesInside(ru: nat, rv: nat, u: nat, v: nat)
    requires BoundedThroughout(ru, rv) && Point(ru, rv, u, v)
    ensures 1 <= u < 256 && v + 1 < 256
  {
    if v > 0 {
      PositiveRadii(ru, rv, u, v);
    }
    if ru > 127 {
      Products(128, ru);
    }
    if rv > 127 {
      Products(128, rv);
    }
  }

  /** With a radius of zero a coordinate is lowered below zero in the first pass. */
  lemma LoweredBelowZero(rv: nat)
    requires rv > 0
    ensures !NoStoreWraps(0, rv)
  {
    AtStart(0, rv);
    Mul(1, rv, rv);
    NextState(0, rv, 0);
    assert U(0, rv, 1) == -1;
    assert Reached(0, rv, 0) && !CoordinatesFit(0, rv, 0);
  }

  lemma BothPositive(rx: nat, ry: nat)
    requires NoStoreWraps(rx, ry) && NoStoreWraps(ry, rx) && (rx > 0 || ry > 0)
    ensures rx > 0 && ry > 0
  {
    if rx == 0 {
      LoweredBelowZero(ry);
    } else if ry == 0 {
      LoweredBelowZero(rx);
    }
  }

  lemma FirstPassStore(ru: nat, rv: nat)
    requires NoStoreWraps(ru, rv)
    ensures 3 * (ru * ru) <= 32767
  {
    AtStart(ru, rv);
    assert Reached(ru, rv, 0);
  }

  // ---- beyond these radii ----

  lemma StoreProduct(a: int, c: nat)
    ensures I16(I16(a) * c) == I16(a * c)
  {
    var k := (a + 32768) / 65536;
    assert I16(a) == a - 65536 * k;
    assert I16(a) * c == a * c - 65536 * (k * c);
    SameResidue(I16(a) * c, k * c);
  }

  lemma StoreSum(a: int, b: int)
    ensures I16(I16(a) + I16(b)) == I16(a + b)
    ensures I16(I16(a) - I16(b)) == I16(a - b)
  {
    var j, k := (a + 32768) / 65536, (b + 32768) / 65536;
    assert I16(a) == a - 65536 * j && I16(b) == b - 65536 * k;
    SameResidue(I16(a) + I16(b), j + k);
    SameResidue(I16(a) - I16(b), j - k);
  }

  lemma SameResidue(a: int, k: int)
    ensures I16(a) == I16(a + 65536 * k)
  {
  }

  /** The loop plots nothing exactly if its slope condition fails at the start: if
      twice the product of one radius and the square of the other, cut to 16 bits,
      is negative. */
  lemma PlotsNothing(ru: byte, rv: byte)
    ensures CodeRun(ru, rv, []) <==> I16(2 * ((rv * rv) * ru)) < 0
  {
    StoreProduct(rv * rv, 2);
    StoreProduct(rv * rv * 2, ru);
    assert (rv * rv * 2) * ru == 2 * ((rv * rv) * ru);
  }

  /** Both loops plot nothing for the circle of radius 26. */
  lemma CircleOf26()
    ensures !Fits(26, 26) && CodeRun(26, 26, [])
  {
    PlotsNothing(26, 26);
  }

  /** With both radii zero the loops repeat the same values for ever, over unbounded
      integers as well. */
  lemma {:induction false} ZeroRadiiNeverEnd(n: nat)
    ensures State(0, 0, n) == State16(0, 0, n) == Values(0, 0, 0, 0, 0)
    ensures Goes(0, 0, n) && Goes16(0, 0, n)
  {
    if n > 0 {
      ZeroRadiiNeverEnd(n - 1);
    }
  }
}
