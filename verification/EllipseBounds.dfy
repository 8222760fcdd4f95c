/** The 16 bits that the ellipse loops run in: for which radii their values fit, over
    all points of a run. */
module EllipseBounds {
  import opened Painting
  import opened Circles
  import opened EllipseCurves

  predicate InI16(v: int) {
    -32768 <= v <= 32767
  }

  /** u8g2_long_t: signed, 16 bits; a value that does not fit wraps. */
  function I16(v: int): int {
    if InI16(v) then v else (v + 32768) % 65536 - 32768
  }

  function Max(a: nat, b: nat): nat {
    if a < b then b else a
  }

  function Min(a: nat, b: nat): nat {
    if a < b then a else b
  }

  /** The radii, not both zero, for which the starting values fit. */
  predicate Fits(rx: nat, ry: nat) {
    var hi, lo := Max(rx, ry), Min(rx, ry);
    0 < hi && hi * hi * Max(2, 2 * lo) <= 32767
  }

  /** ... and for which every value that is stored fits. */
  predicate FitsThroughout(rx: nat, ry: nat) {
    var hi, lo := Max(rx, ry), Min(rx, ry);
    0 < lo && hi * hi * Max(3, 2 * lo) <= 32767
  }

  // ---- the starting values ----

  /** What is stored before a loop, without wrapping. */
  predicate StartFits(ru: nat, rv: nat) {
    && InI16(rv * rv) && InI16(2 * (rv * rv)) && InI16(ru * ru) && InI16(2 * (ru * ru))
    && InI16((1 - 2 * ru) * rv) && InI16((rv * rv) * (1 - 2 * ru)) && InI16(2 * ((rv * rv) * ru))
  }

  /** The bounds that `Fits` is about, for either order of the radii. */
  predicate Bounded(ru: nat, rv: nat) {
    && (ru > 0 || rv > 0)
    && 2 * (rv * rv) <= 32767 && 2 * (ru * ru) <= 32767
    && 2 * ((rv * rv) * ru) <= 32767 && 2 * ((ru * ru) * rv) <= 32767
  }

  lemma UBound(p: nat, ru: nat, u: nat)
    requires u <= ru
    ensures p * u <= p * ru
  {
    Mul(u, ru, p);
  }

  lemma ScaleBounds(h: nat, lo: nat, limit: nat)
    ensures h * Max(2, 2 * lo) <= limit <==> 2 * h <= limit && 2 * (h * lo) <= limit
    ensures h * Max(3, 2 * lo) <= limit <==> 3 * h <= limit && 2 * (h * lo) <= limit
  {
    assert h * (2 * lo) == 2 * (h * lo);
    if lo >= 2 {
      UBound(h, lo, 2);
    } else if lo == 1 {
      assert h * lo == h;
    } else {
      assert h * lo == 0;
    }
  }

  lemma SmallerProduct(lo: nat, hi: nat)
    requires lo <= hi
    ensures lo * lo <= hi * hi && (lo * lo) * hi <= (hi * hi) * lo
  {
    Products(lo, hi);
    UBound(lo * hi, hi, lo);
    assert (lo * hi) * lo == (lo * lo) * hi && (lo * hi) * hi == (hi * hi) * lo;
  }

  lemma FitsBounds(rx: nat, ry: nat)
    ensures Fits(rx, ry) <==> Bounded(rx, ry)
    ensures Bounded(rx, ry) <==> Bounded(ry, rx)
  {
    var hi, lo := Max(rx, ry), Min(rx, ry);
    SmallerProduct(lo, hi);
    ScaleBounds(hi * hi, lo, 32767);
  }

  lemma ChangeFits(p: nat, ru: nat)
    requires 2 * p <= 32767 && 2 * (p * ru) <= 32767
    ensures InI16(p * (1 - 2 * ru))
  {
    assert p * (1 - 2 * ru) == p - 2 * (p * ru);
  }

  lemma FactorFits(ru: nat, rv: nat)
    requires 2 * (rv * rv) <= 32767 && 2 * ((rv * rv) * ru) <= 32767
    ensures InI16((1 - 2 * ru) * rv)
  {
    assert (1 - 2 * ru) * rv == rv - 2 * (rv * ru);
    if rv > 0 {
      Mul(1, rv, rv);
      Mul(rv, rv * rv, ru);
    } else {
      assert rv * ru == 0;
    }
  }

  lemma BoundedStarts(ru: nat, rv: nat)
    requires Bounded(ru, rv)
    ensures StartFits(ru, rv)
  {
    ChangeFits(rv * rv, ru);
    FactorFits(ru, rv);
  }

  /** The values that both loops start from fit exactly for these radii. */
  lemma StartsFitExactly(rx: nat, ry: nat)
    requires rx > 0 || ry > 0
    ensures StartFits(rx, ry) && StartFits(ry, rx) <==> Fits(rx, ry)
  {
    FitsBounds(rx, ry);
    if Fits(rx, ry) {
      BoundedStarts(rx, ry);
      BoundedStarts(ry, rx);
    }
  }

  // ---- bounds on a point that is plotted ----

  lemma OutsideAtRadius(p: nat, q: nat, u: nat, v: nat)
    requires p > 0 && p == v * v && u >= 1
    ensures Err(p, q, u, v) > 0 && Err(p, q, u - 1, v) >= 0
  {
    assert q * (v * v) == p * q;
    Mul(1, u * u, p);
    assert (u * u) * p == p * (u * u);
  }

  /** With both radii positive the curve stays below its end on the other axis. */
  lemma BelowRadius(ru: nat, rv: nat, u: nat, v: nat)
    requires ru > 0 && rv > 0 && Plotted(rv * rv, ru * ru, u, v)
    ensures v < rv
  {
    Mul(1, ru, ru);
    Mul(1, rv, rv);
    WithinRadius(rv * rv, ru * ru, rv, u, v);
    if v == rv {
      OnAxisAtStartOnly(rv * rv, ru * ru, u, v);
      OutsideAtRadius(rv * rv, ru * ru, u, v);
    }
  }

  /** A plotted point, with what the loop knows about it. */
  predicate PointOn(p: nat, q: nat, ru: nat, rv: nat, u: int, v: int) {
    0 <= u <= ru && 0 <= v <= rv && Plotted(p, q, u, v) && (v == 0 ==> u == ru) && (q == 0 ==> v == 0)
  }

  predicate Point(ru: nat, rv: nat, u: int, v: int) {
    PointOn(rv * rv, ru * ru, ru, rv, u, v)
  }

  /** The line after a plotted one is at most at the end on the axis, or the first. */
  lemma NextLineInside(ru: nat, rv: nat, u: nat, v: nat)
    requires Point(ru, rv, u, v) && (ru > 0 || rv > 0)
    ensures v == 0 || v + 1 <= rv
    ensures ru == 0 || rv == 0 ==> v == 0
  {
    if ru > 0 && rv > 0 {
      BelowRadius(ru, rv, u, v);
    }
  }

  lemma LineProduct(q: nat, rv: nat, v: nat)
    requires v == 0 || v + 1 <= rv
    requires 2 * q <= 32767 && 2 * (q * rv) <= 32767
    ensures 2 * (q * (v + 1)) <= 32767 && q * (2 * v + 1) <= 32767
  {
    assert q * (2 * v + 1) == 2 * (q * (v + 1)) - q;
    if v > 0 {
      UBound(q, rv, v + 1);
    }
  }

  lemma VBound(ru: nat, rv: nat, u: nat, v: nat)
    requires Bounded(ru, rv) && Point(ru, rv, u, v)
    ensures 2 * ((ru * ru) * (v + 1)) <= 32767
    ensures (ru * ru) * (2 * v + 1) <= 32767
  {
    NextLineInside(ru, rv, u, v);
    LineProduct(ru * ru, rv, v);
  }

  lemma BestBounds(p: nat, q: nat, u: nat, v: nat)
    requires Best(p, q, u, v) && u >= 1
    ensures -2 * (p * u) - p <= 2 * Err(p, q, u, v) <= 2 * (p * u) - p
  {
    ErrLowerU(p, q, u, v);
    ErrLowerU(p, q, u + 1, v);
    assert p * (1 - 2 * u) == p - 2 * (p * u);
    assert p * (1 - 2 * (u + 1)) == 0 - p - 2 * (p * u);
  }

  lemma ErrBound(p: nat, q: nat, ru: nat, u: nat, v: nat)
    requires Best(p, q, u, v) && 1 <= u <= ru && 2 * p <= 32767 && 2 * (p * ru) <= 32767
    ensures InI16(Err(p, q, u, v))
  {
    var e := Err(p, q, u, v);
    BestBounds(p, q, u, v);
    UBound(p, ru, u);
    assert -32767 <= e;
  }

  lemma PointErrFits(ru: nat, rv: nat, u: nat, v: nat)
    requires Bounded(ru, rv) && Point(ru, rv, u, v)
    ensures InI16(Err(rv * rv, ru * ru, u, v))
  {
    if v == 0 {
      BestStart(rv * rv, ru * ru, ru);
    } else {
      Mul(1, ru, ru);
      OnAxisAtStartOnly(rv * rv, ru * ru, u, v);
      ErrBound(rv * rv, ru * ru, ru, u, v);
    }
  }

  lemma ProductsFit(p: nat, q: nat, u: nat, v: nat, pr: nat)
    requires p * u <= pr && 2 * pr <= 32767 && 2 * p <= 32767
    requires 2 * (q * (v + 1)) <= 32767 && q * (2 * v + 1) <= 32767
    ensures InI16(p * (1 - 2 * u)) && InI16(q * (2 * v + 1)) && InI16(2 * (p * u)) && InI16(2 * (q * v))
  {
    assert p * (1 - 2 * u) == p - 2 * (p * u);
    assert q * (v + 1) == q * v + q;
    assert q * v >= 0 && p * u >= 0;
  }

  lemma PointProductsFit(ru: nat, rv: nat, u: nat, v: nat)
    requires Bounded(ru, rv) && Point(ru, rv, u, v)
    ensures var p, q := rv * rv, ru * ru;
            InI16(p * (1 - 2 * u)) && InI16(q * (2 * v + 1)) && InI16(2 * (p * u)) && InI16(2 * (q * v))
  {
    UBound(rv * rv, ru, u);
    VBound(ru, rv, u, v);
    ProductsFit(rv * rv, ru * ru, u, v, (rv * rv) * ru);
  }

  lemma CurveFits(p: nat, q: nat, u: nat, v: nat, s: Values)
    requires OnCurve(p, q, u, v, s) && InI16(Err(p, q, u, v))
    requires InI16(p * (1 - 2 * u)) && InI16(q * (2 * v + 1)) && InI16(2 * (p * u)) && InI16(2 * (q * v))
    ensures InI16(s.uchg) && InI16(s.vchg) && InI16(s.err) && InI16(s.stopu) && InI16(s.stopv)
  {
  }

  /** All values of a plotted point fit. */
  lemma PointFits(ru: nat, rv: nat, u: nat, v: nat, s: Values)
    requires Bounded(ru, rv) && Point(ru, rv, u, v) && OnCurve(rv * rv, ru * ru, u, v, s)
    ensures InI16(s.uchg) && InI16(s.vchg) && InI16(s.err) && InI16(s.stopu) && InI16(s.stopv)
  {
    PointErrFits(ru, rv, u, v);
    PointProductsFit(ru, rv, u, v);
    CurveFits(rv * rv, ru * ru, u, v, s);
  }

  lemma StopFits(p: nat, ru: nat, u: nat, w: int)
    requires 2 * p <= 32767 && 2 * (p * ru) <= 32767 && u <= ru && (w == u || w == u - 1)
    ensures InI16(2 * (p * w))
  {
    UBound(p, ru, u);
    assert p * (u - 1) == p * u - p;
    assert p * u >= 0;
  }

  /** The values that decide whether the loop goes on fit after the next pass too. */
  lemma StopsFit(ru: nat, rv: nat, u: nat, v: nat, w: int)
    requires Bounded(ru, rv) && Point(ru, rv, u, v) && (w == u || w == u - 1)
    ensures InI16(2 * ((rv * rv) * w)) && InI16(2 * ((ru * ru) * (v + 1)))
  {
    StopFits(rv * rv, ru, u, w);
    VBound(ru, rv, u, v);
    assert (ru * ru) * (v + 1) >= 0;
  }

  // ---- the error term in the middle of a pass ----

  lemma Cauchy(p: nat, q: nat, u: int, v: int)
    ensures (p * u + q * v) * (p * u + q * v) <= (p + q) * (p * (u * u) + q * (v * v))
  {
    var d := u - v;
    assert (p + q) * (p * (u * u) + q * (v * v)) - (p * u + q * v) * (p * u + q * v) == (p * q) * (d * d);
  }

  lemma SquaresBound(p: nat, q: nat, ru: nat, u: nat, v: nat)
    requires Best(p, q, u, v) && 1 <= u <= ru
    ensures 2 * (p * (u * u) + q * (v * v)) <= p * (2 * q + 2 * ru - 1)
  {
    BestBounds(p, q, u, v);
    UBound(p, ru, u);
    assert p * (2 * q + 2 * ru - 1) == 2 * (p * q) + 2 * (p * ru) - p;
  }

  /** On a plotted point the sum of the two products has a bound in the radii alone. */
  lemma SumBound(p: nat, q: nat, ru: nat, u: nat, v: nat)
    requires Best(p, q, u, v) && 1 <= u <= ru
    ensures var s := p * u + q * v; 2 * (s * s) <= (p + q) * (p * (2 * q + 2 * ru - 1))
  {
    var w, b, s := p * (u * u) + q * (v * v), p * (2 * q + 2 * ru - 1), p * u + q * v;
    Cauchy(p, q, u, v);
    SquaresBound(p, q, ru, u, v);
    TwiceTimes(p + q, w, b);
  }

  lemma TwiceTimes(c: nat, w: int, b: int)
    requires 2 * w <= b
    ensures 2 * (c * w) <= c * b
  {
    Mul(2 * w, b, c);
  }

  lemma NextErr(p: nat, q: nat, u: nat, v: nat)
    ensures Err(p, q, u, v + 1) == Err(p, q, u, v) + 2 * (q * v) + q
  {
    ErrNextV(p, q, u, v);
    assert q * (2 * v + 1) == 2 * (q * v) + q;
  }

  /** The error in the middle of a pass in terms of that sum. */
  lemma MiddleBySum(p: nat, q: nat, u: nat, v: nat, pu: nat, qv: nat)
    requires Best(p, q, u, v) && u >= 1 && pu == p * u && qv == q * v && pu >= qv
    ensures 2 * Err(p, q, u, v + 1) <= 3 * (pu + qv) + 2 * q - p
  {
    var e := Err(p, q, u, v);
    assert 2 * e <= 2 * pu - p by {
      BestBounds(p, q, u, v);
    }
    assert Err(p, q, u, v + 1) == e + 2 * qv + q by {
      NextErr(p, q, u, v);
    }
  }

  predicate Room(p: nat, q: nat, ru: nat) {
    var t := 65535 - 2 * q + p;
    t >= 0 && 9 * ((p + q) * (p * (2 * q + 2 * ru - 1))) <= 2 * (t * t)
  }

  lemma SmallerRoot(x: nat, t: nat)
    requires x * x <= t * t
    ensures x <= t
  {
    if x > t {
      Products(t + 1, x);
    }
  }

  lemma SumFits(s: nat, t: nat, bound: int)
    requires 2 * (s * s) <= bound && 9 * bound <= 2 * (t * t)
    ensures 3 * s <= t
  {
    assert (3 * s) * (3 * s) == 9 * (s * s);
    SmallerRoot(3 * s, t);
  }

  lemma SumFitsHere(p: nat, q: nat, ru: nat, u: nat, v: nat, s: nat, t: nat, bound: int)
    requires Best(p, q, u, v) && 1 <= u <= ru && s == p * u + q * v
    requires bound == (p + q) * (p * (2 * q + 2 * ru - 1)) && 9 * bound <= 2 * (t * t)
    ensures 3 * s <= t
  {
    SumBound(p, q, ru, u, v);
    SumFits(s, t, bound);
  }

  lemma MiddleFits(p: nat, q: nat, ru: nat, u: nat, v: nat)
    requires Plotted(p, q, u, v) && 1 <= u <= ru && Room(p, q, ru)
    ensures Err(p, q, u, v + 1) <= 32767
  {
    SumFitsHere(p, q, ru, u, v, p * u + q * v, 65535 - 2 * q + p, (p + q) * (p * (2 * q + 2 * ru - 1)));
    MiddleBySum(p, q, u, v, p * u, q * v);
  }

  /** There is room for all radii of a box if there is for the largest of them. */
  lemma RoomInBox(ru: nat, rv: nat, a: nat, b: nat)
    requires 1 <= ru <= a && rv <= b && 2 * (a * a) <= 65535
    requires var t := 65535 - 2 * (a * a);
             9 * ((b * b + a * a) * ((b * b) * (2 * (a * a) + 2 * a - 1))) <= 2 * (t * t)
    ensures Room(rv * rv, ru * ru, ru)
  {
    Products(ru, a);
    Products(rv, b);
    RoomGrows(rv * rv, b * b, ru * ru, a * a, ru, a);
  }

  lemma RoomGrows(p: nat, pb: nat, q: nat, qa: nat, ru: nat, a: nat)
    requires 1 <= ru <= a && p <= pb && q <= qa && 2 * qa <= 65535
    requires var t := 65535 - 2 * qa; 9 * ((pb + qa) * (pb * (2 * qa + 2 * a - 1))) <= 2 * (t * t)
    ensures Room(p, q, ru)
  {
    var c, d := 2 * q + 2 * ru - 1, 2 * qa + 2 * a - 1;
    Times(p, pb, c, d);
    assert 0 <= p * c;
    Times(p + q, pb + qa, p * c, pb * d);
    Products(65535 - 2 * qa, 65535 - 2 * q + p);
  }

  lemma Times(a: nat, b: nat, c: nat, d: nat)
    requires a <= b && c <= d
    ensures a * c <= b * d
  {
    Mul(a, b, c);
    Mul(c, d, b);
    assert c * b == b * c && d * b == b * d;
  }

  /** There is room for all radii up to (ru, rv). */
  predicate Roomy(ru: nat, rv: nat) {
    var p, q := rv * rv, ru * ru;
    && 2 * q <= 65535
    && 9 * ((p + q) * (p * (2 * q + 2 * ru - 1))) <= 2 * ((65535 - 2 * q) * (65535 - 2 * q))
  }

  lemma WidthBound(lo: nat, hi: nat, other: nat)
    requires 2 * ((other * other) * lo) <= 32767 < 2 * (((hi + 1) * (hi + 1)) * lo)
    ensures other <= hi
  {
    if other > hi {
      Products(hi + 1, other);
      Mul((hi + 1) * (hi + 1), other * other, lo);
    }
  }

  lemma RoomInBoxes(ru: nat, rv: nat, first: nat, last: nat, width: nat)
    requires Bounded(ru, rv) && 1 <= first <= Min(ru, rv) <= last <= width
    requires 32767 < 2 * (((width + 1) * (width + 1)) * first)
    requires Roomy(last, width) && Roomy(width, last)
    ensures Room(rv * rv, ru * ru, ru)
  {
    var lo, hi := Min(ru, rv), Max(ru, rv);
    UBound((width + 1) * (width + 1), lo, first);
    WidthBound(lo, width, hi);
    if ru <= rv {
      RoomInBox(ru, rv, last, width);
    } else {
      RoomInBox(ru, rv, width, last);
    }
  }

  /** The three ellipses for which that bound is not enough. */
  predicate NearlyRound(ru: nat, rv: nat) {
    (ru == 25 && rv == 25) || (ru == 24 && rv == 26) || (ru == 26 && rv == 24)
  }

  lemma RoundBound(lo: nat, hi: nat)
    requires 24 <= lo <= hi && 2 * ((hi * hi) * lo) <= 32767
    ensures (hi <= 25 && lo == 24) || NearlyRound(lo, hi)
  {
    UBound(hi * hi, lo, 24);
    WidthBound(24, 26, hi);
  }

  lemma SlimRoom(ru: nat, rv: nat)
    requires ru == 1 && 2 <= rv && 2 * (rv * rv) <= 32767
    ensures Room(rv * rv, ru * ru, ru)
  {
    if rv > 127 {
      Products(128, rv);
    }
    RoomInBox(1, rv, 1, 127);
  }

  lemma ThinRoom(ru: nat, rv: nat)
    requires Bounded(ru, rv) && rv >= 2 && 1 <= Min(ru, rv) <= 5
    ensures Room(rv * rv, ru * ru, ru)
  {
    var lo := Min(ru, rv);
    if lo == 1 {
      SlimRoom(ru, rv);
    } else {
      LowRoom(ru, rv, lo);
    }
  }

  lemma LowRoom(ru: nat, rv: nat, lo: nat)
    requires Bounded(ru, rv) && lo == Min(ru, rv) && 2 <= lo <= 5
    ensures Room(rv * rv, ru * ru, ru)
  {
    if lo == 2 {
      RoomInBoxes(ru, rv, 2, 2, 90);
    } else if lo == 3 {
      RoomInBoxes(ru, rv, 3, 3, 73);
    } else if lo == 4 {
      RoomInBoxes(ru, rv, 4, 4, 63);
    } else {
      RoomInBoxes(ru, rv, 5, 5, 57);
    }
  }

  lemma MiddlingRoom(ru: nat, rv: nat)
    requires Bounded(ru, rv) && 6 <= Min(ru, rv) <= 15
    ensures Room(rv * rv, ru * ru, ru)
  {
    var lo := Min(ru, rv);
    if lo <= 7 {
      RoomInBoxes(ru, rv, 6, 7, 52);
    } else if lo <= 9 {
      RoomInBoxes(ru, rv, 8, 9, 45);
    } else if lo <= 12 {
      RoomInBoxes(ru, rv, 10, 12, 40);
    } else {
      RoomInBoxes(ru, rv, 13, 15, 35);
    }
  }

  lemma ThickRoom(ru: nat, rv: nat)
    requires Bounded(ru, rv) && 16 <= Min(ru, rv) <= 23
    ensures Room(rv * rv, ru * ru, ru)
  {
    var lo := Min(ru, rv);
    if lo <= 18 {
      RoomInBoxes(ru, rv, 16, 18, 31);
    } else if lo <= 20 {
      RoomInBoxes(ru, rv, 19, 20, 29);
    } else if lo <= 22 {
      RoomInBoxes(ru, rv, 21, 22, 27);
    } else {
      RoomInBoxes(ru, rv, 23, 23, 26);
    }
  }

  lemma RoundRoom(ru: nat, rv: nat)
    requires Bounded(ru, rv) && 24 <= Min(ru, rv) && !NearlyRound(ru, rv)
    ensures Room(rv * rv, ru * ru, ru)
  {
    RoundBound(Min(ru, rv), Max(ru, rv));
    RoomInBox(ru, rv, if ru <= rv then 24 else 25, if ru <= rv then 25 else 24);
  }

  lemma RoomWithin(ru: nat, rv: nat)
    requires Bounded(ru, rv) && ru >= 1 && rv >= 2 && !NearlyRound(ru, rv)
    ensures Room(rv * rv, ru * ru, ru)
  {
    var lo := Min(ru, rv);
    if lo <= 5 {
      ThinRoom(ru, rv);
    } else if lo <= 15 {
      MiddlingRoom(ru, rv);
    } else if lo <= 23 {
      ThickRoom(ru, rv);
    } else {
      RoundRoom(ru, rv);
    }
  }

  // ... and the three that are left are checked line by line.

  lemma LineBound(p: nat, q: nat, u: nat, v: nat)
    requires Best(p, q, u, v) && u >= 1
    ensures 2 * (p * (u * u - u)) + p + 2 * (q * (v * v)) <= 2 * (p * q)
  {
    BestBounds(p, q, u, v);
    assert p * (u * u - u) == p * (u * u) - p * u;
  }

  /** From line v1 on, the best point of a line is at most at m. */
  lemma CloserIn(p: nat, q: nat, u: nat, v: nat, v1: nat, m: nat)
    requires Best(p, q, u, v) && u >= 1 && v >= v1
    requires 2 * (p * (m * m + m)) + p + 2 * (q * (v1 * v1)) > 2 * (p * q)
    ensures u <= m
  {
    LineBound(p, q, u, v);
    Products(v1, v);
    UBound(q, v * v, v1 * v1);
    if u > m {
      Outward(p, u, m);
    }
  }

  lemma Outward(p: nat, u: nat, m: nat)
    requires u > m
    ensures p * (u * u - u) >= p * (m * m + m)
  {
    Products(m + 1, u);
    assert (m + 1) * (m + 1) - (m + 1) == m * m + m;
    UBound(p, u * u - u, m * m + m);
  }

  lemma MiddleWithin(p: nat, q: nat, u: nat, v: nat, v2: nat, m: nat)
    requires u <= m && v <= v2 && p * (m * m) + q * ((v2 + 1) * (v2 + 1)) - p * q <= 32767
    ensures Err(p, q, u, v + 1) <= 32767
  {
    Products(u, m);
    UBound(p, m * m, u * u);
    Products(v + 1, v2 + 1);
    UBound(q, (v2 + 1) * (v2 + 1), (v + 1) * (v + 1));
  }

  lemma RoundFits(u: nat, v: nat)
    requires Plotted(625, 625, u, v) && 1 <= u <= 25
    ensures Err(625, 625, u, v + 1) <= 32767
  {
    if v <= 6 {
      MiddleWithin(625, 625, u, v, 6, 25);
    } else if v <= 9 {
      CloserIn(625, 625, u, v, 7, 24);
      MiddleWithin(625, 625, u, v, 9, 24);
    } else if v <= 11 {
      CloserIn(625, 625, u, v, 10, 23);
      MiddleWithin(625, 625, u, v, 11, 23);
    } else if v <= 12 {
      CloserIn(625, 625, u, v, 12, 22);
      MiddleWithin(625, 625, u, v, 12, 22);
    } else if v <= 14 {
      CloserIn(625, 625, u, v, 13, 21);
      MiddleWithin(625, 625, u, v, 14, 21);
    } else if v <= 15 {
      CloserIn(625, 625, u, v, 15, 20);
      MiddleWithin(625, 625, u, v, 15, 20);
    } else if v <= 16 {
      CloserIn(625, 625, u, v, 16, 19);
      MiddleWithin(625, 625, u, v, 16, 19);
    } else if v <= 17 {
      CloserIn(625, 625, u, v, 17, 18);
      MiddleWithin(625, 625, u, v, 17, 18);
    } else {
      CloserIn(625, 625, u, v, 18, 17);
    }
  }

  lemma WideFits(u: nat, v: nat)
    requires Plotted(576, 676, u, v) && 1 <= u <= 26
    ensures Err(576, 676, u, v + 1) <= 32767
  {
    if v <= 5 {
      MiddleWithin(576, 676, u, v, 5, 26);
    } else if v <= 8 {
      CloserIn(576, 676, u, v, 6, 25);
      MiddleWithin(576, 676, u, v, 8, 25);
    } else if v <= 10 {
      CloserIn(576, 676, u, v, 9, 24);
      MiddleWithin(576, 676, u, v, 10, 24);
    } else if v <= 12 {
      CloserIn(576, 676, u, v, 11, 23);
      MiddleWithin(576, 676, u, v, 12, 23);
    } else if v <= 13 {
      CloserIn(576, 676, u, v, 13, 22);
      MiddleWithin(576, 676, u, v, 13, 22);
    } else if v <= 14 {
      CloserIn(576, 676, u, v, 14, 21);
      MiddleWithin(576, 676, u, v, 14, 21);
    } else if v <= 15 {
      CloserIn(576, 676, u, v, 15, 20);
      MiddleWithin(576, 676, u, v, 15, 20);
    } else if v <= 16 {
      CloserIn(576, 676, u, v, 16, 19);
      MiddleWithin(576, 676, u, v, 16, 19);
    } else {
      CloserIn(576, 676, u, v, 17, 18);
    }
  }

  lemma TallFits(u: nat, v: nat)
    requires Plotted(676, 576, u, v) && 1 <= u <= 24
    ensures Err(676, 576, u, v + 1) <= 32767
  {
    if v <= 6 {
      MiddleWithin(676, 576, u, v, 6, 24);
    } else if v <= 9 {
      CloserIn(676, 576, u, v, 7, 23);
      MiddleWithin(676, 576, u, v, 9, 23);
    } else if v <= 11 {
      CloserIn(676, 576, u, v, 10, 22);
      MiddleWithin(676, 576, u, v, 11, 22);
    } else if v <= 13 {
      CloserIn(676, 576, u, v, 12, 21);
      MiddleWithin(676, 576, u, v, 13, 21);
    } else if v <= 15 {
      CloserIn(676, 576, u, v, 14, 20);
      MiddleWithin(676, 576, u, v, 15, 20);
    } else if v <= 16 {
      CloserIn(676, 576, u, v, 16, 19);
      MiddleWithin(676, 576, u, v, 16, 19);
    } else if v <= 17 {
      CloserIn(676, 576, u, v, 17, 18);
      MiddleWithin(676, 576, u, v, 17, 18);
    } else if v <= 18 {
      CloserIn(676, 576, u, v, 18, 17);
      MiddleWithin(676, 576, u, v, 18, 17);
    } else {
      CloserIn(676, 576, u, v, 19, 16);
    }
  }

  lemma NearlyRoundFits(ru: nat, p: nat, q: nat, u: nat, v: nat)
    requires (ru == 25 && p == q == 625) || (ru == 26 && p == 576 && q == 676) || (ru == 24 && p == 676 && q == 576)
    requires 1 <= u <= ru && Plotted(p, q, u, v)
    ensures Err(p, q, u, v + 1) <= 32767
  {
    if ru == 25 {
      RoundFits(u, v);
    } else if ru == 26 {
      WideFits(u, v);
    } else {
      TallFits(u, v);
    }
  }

  lemma MiddleAbove(ru: nat, rv: nat, u: nat, v: nat)
    requires Bounded(ru, rv) && ru >= 1 && rv >= 2 && 1 <= u <= ru && Plotted(rv * rv, ru * ru, u, v)
    ensures Err(rv * rv, ru * ru, u, v + 1) <= 32767
  {
    if NearlyRound(ru, rv) {
      NearlyRoundFits(ru, rv * rv, ru * ru, u, v);
    } else {
      RoomWithin(ru, rv);
      MiddleFits(rv * rv, ru * ru, ru, u, v);
    }
  }

  lemma LaterIsHigher(p: nat, q: nat, u: nat, v: nat)
    ensures Err(p, q, u, v) <= Err(p, q, u, v + 1)
  {
    ErrNextV(p, q, u, v);
    assert q * (2 * v + 1) >= 0;
  }

  lemma FirstMiddle(p: nat, q: nat, ru: nat)
    requires q == ru * ru
    ensures Err(p, q, ru, 1) == q
  {
    BestStart(p, q, ru);
    ErrNextV(p, q, ru, 0);
  }

  /** In the middle of a pass the error term fits too. */
  lemma MiddleErrFits(ru: nat, rv: nat, u: nat, v: nat)
    requires Bounded(ru, rv) && Point(ru, rv, u, v)
    ensures InI16(Err(rv * rv, ru * ru, u, v + 1))
  {
    if v == 0 {
      FirstMiddle(rv * rv, ru * ru, ru);
    } else {
      PositiveRadii(ru, rv, u, v);
      PointErrFits(ru, rv, u, v);
      LaterIsHigher(rv * rv, ru * ru, u, v);
      MiddleAbove(ru, rv, u, v);
    }
  }

  lemma PositiveRadii(ru: nat, rv: nat, u: nat, v: nat)
    requires Point(ru, rv, u, v) && v > 0
    ensures ru >= 1 && rv >= 2 && u >= 1
  {
    Mul(1, ru, ru);
    OnAxisAtStartOnly(rv * rv, ru * ru, u, v);
    BelowRadius(ru, rv, u, v);
  }
}
