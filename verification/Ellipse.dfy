/** `u8g2_draw_ellipse` and `u8g2_DrawEllipse`: the two loops as they paint, and the
    bounding-box test before them. */
module Ellipses {
  import opened Painting
  import opened Circles
  import opened EllipseCurves
  import opened EllipseBounds
  import opened EllipseRanges
  import opened EllipseExactness
  import opened EllipseCondition

  predicate Mirrored(option: bv8, cx: int, cy: int, x: int, y: int, p: Pixel) {
    Sector(option, p.x - cx, p.y - cy) && Abs(p.x - cx) == x && Abs(p.y - cy) == y
  }

  method DrawEllipseSection(c: Canvas, x: byte, y: byte, cx: byte, cy: byte, option: bv8)
    requires c.Valid()
    modifies c
    ensures Reaches(cx, x, c.x1) && Reaches(cy, y, c.y1) ==>
      forall p :: p in c.painted <==> p in old(c.painted) || (c.Seen(p) && Mirrored(option, cx, cy, x, y, p))
  {
    if Has(option, UPPER_RIGHT) {
      DrawDot(c, true, false, cx, cy, x, y);
    }
    if Has(option, UPPER_LEFT) {
      DrawDot(c, false, false, cx, cy, x, y);
    }
    if Has(option, LOWER_RIGHT) {
      DrawDot(c, true, true, cx, cy, x, y);
    }
    if Has(option, LOWER_LEFT) {
      DrawDot(c, false, true, cx, cy, x, y);
    }
  }

  /** The point that a loop plots in its k-th pass.  In the first loop u is the column,
      in the second the row; the other coordinate counts the passes, modulo 256. */
  function PointX(us: seq<int>, columns: bool, k: nat): int
    requires k < |us|
  {
    if columns then us[k] else U8(k)
  }

  function PointY(us: seq<int>, columns: bool, k: nat): int
    requires k < |us|
  {
    if columns then U8(k) else us[k]
  }

  /** The pixels of a run. */
  ghost predicate RunAt(us: seq<int>, columns: bool, option: bv8, cx: int, cy: int, p: Pixel) {
    exists k :: 0 <= k < |us| && Mirrored(option, cx, cy, PointX(us, columns, k), PointY(us, columns, k), p)
  }

  /** No pixel of the run wraps into the window. */
  ghost predicate Inside(us: seq<int>, columns: bool, c: Canvas, cx: byte, cy: byte) {
    forall k | 0 <= k < |us| :: InsideAt(us, columns, c, cx, cy, k)
  }

  predicate InsideAt(us: seq<int>, columns: bool, c: Canvas, cx: byte, cy: byte, k: nat)
    requires k < |us|
  {
    var x, y := PointX(us, columns, k), PointY(us, columns, k);
    0 <= x && 0 <= y && Reaches(cx, x, c.x1) && Reaches(cy, y, c.y1)
  }

  lemma RunGrows(us: seq<int>, k: nat, columns: bool, option: bv8, cx: int, cy: int, p: Pixel)
    requires k < |us|
    ensures RunAt(us[..k + 1], columns, option, cx, cy, p) <==>
              || RunAt(us[..k], columns, option, cx, cy, p)
              || Mirrored(option, cx, cy, PointX(us, columns, k), PointY(us, columns, k), p)
  {
    var vs, ws := us[..k], us[..k + 1];
    if RunAt(vs, columns, option, cx, cy, p) {
      var j :| 0 <= j < |vs| && Mirrored(option, cx, cy, PointX(vs, columns, j), PointY(vs, columns, j), p);
      assert PointX(ws, columns, j) == PointX(vs, columns, j) && PointY(ws, columns, j) == PointY(vs, columns, j);
    }
    assert PointX(ws, columns, k) == PointX(us, columns, k) && PointY(ws, columns, k) == PointY(us, columns, k);
    if RunAt(ws, columns, option, cx, cy, p) {
      var j :| 0 <= j < |ws| && Mirrored(option, cx, cy, PointX(ws, columns, j), PointY(ws, columns, j), p);
      if j < k {
        assert PointX(ws, columns, j) == PointX(vs, columns, j) && PointY(ws, columns, j) == PointY(vs, columns, j);
      }
    }
  }

  lemma NextLine(k: nat)
    ensures U8(U8(k) + 1) == U8(k + 1)
  {
  }

  /** The starting values of a loop, store by store. */
  method Start(ru: byte, rv: byte) returns (q2: int, p2: int, s: Values)
    ensures q2 == TwiceSquare(ru) && p2 == TwiceSquare(rv) && s == First16(ru, rv)
  {
    q2 := ru;
    q2 := I16(q2 * ru);
    q2 := I16(q2 * 2);
    p2 := rv;
    p2 := I16(p2 * rv);
    p2 := I16(p2 * 2);
    var uchg := 1 - ru - ru;
    uchg := I16(uchg * rv);
    uchg := I16(uchg * rv);
    s := Values(uchg, I16(ru * ru), 0, I16(p2 * ru), 0);
  }

  /** The arithmetic of one pass, store by store. */
  method Pass(p2: int, q2: int, u: byte, v: byte, s: Values) returns (u': byte, v': byte, t: Values)
    ensures u' == (if Lowers16(s) then U8(u - 1) else u) && v' == U8(v + 1) && t == Next16(p2, q2, s)
  {
    var uchg, vchg, err, stopu, stopv := s.uchg, s.vchg, s.err, s.stopu, s.stopv;
    u', v' := u, U8(v + 1);
    stopv := I16(stopv + q2);
    err := I16(err + vchg);
    vchg := I16(vchg + q2);
    if 2 * err + uchg > 0 {
      u' := U8(u - 1);
      stopu := I16(stopu - p2);
      err := I16(err + uchg);
      uchg := I16(uchg + p2);
    }
    t := Values(uchg, vchg, err, stopu, stopv);
  }

  /** What a run has painted after k passes. */
  ghost predicate Painted(c: Canvas, before: set<Pixel>, run: seq<int>, k: nat, columns: bool, option: bv8, cx: byte, cy: byte)
    reads c
    requires k <= |run|
  {
    Inside(run, columns, c, cx, cy) ==>
      forall p :: p in c.painted <==> p in before || (c.Seen(p) && RunAt(run[..k], columns, option, cx, cy, p))
  }

  method PaintPoint(c: Canvas, x: byte, y: byte, cx: byte, cy: byte, option: bv8, ghost before: set<Pixel>,
                    ghost run: seq<int>, ghost k: nat, ghost columns: bool)
    requires c.Valid() && k < |run| && x == PointX(run, columns, k) && y == PointY(run, columns, k)
    requires Painted(c, before, run, k, columns, option, cx, cy)
    modifies c
    ensures Painted(c, before, run, k + 1, columns, option, cx, cy)
  {
    assert Inside(run, columns, c, cx, cy) ==> InsideAt(run, columns, c, cx, cy, k);
    forall p: Pixel { RunGrows(run, k, columns, option, cx, cy, p); }
    DrawEllipseSection(c, x, y, cx, cy, option);
  }

  /** The point and the values before pass k. */
  ghost predicate Before(ru: byte, rv: byte, run: seq<int>, k: nat, u: byte, v: byte, s: Values) {
    && k <= |run| && CodeRun(ru, rv, run)
    && s == State16(ru, rv, k) && u == U16(ru, rv, k) && v == U8(k)
  }

  lemma PassGoesOn(ru: byte, rv: byte, run: seq<int>, k: nat, u: byte, v: byte, s: Values)
    requires Before(ru, rv, run, k, u, v, s)
    ensures s.stopu >= s.stopv <==> k < |run|
    ensures s.stopu >= s.stopv ==> u == run[k]
    ensures var t := Next16(TwiceSquare(rv), TwiceSquare(ru), s);
            s.stopu >= s.stopv ==> Before(ru, rv, run, k + 1, if Lowers16(s) then U8(u - 1) else u, U8(v + 1), t)
  {
    assert k < |run| ==> Goes16(ru, rv, k);
    NextLine(k);
  }

  lemma NothingYet(c: Canvas, run: seq<int>, columns: bool, option: bv8, cx: byte, cy: byte)
    ensures Painted(c, c.painted, run, 0, columns, option, cx, cy)
  {
  }

  lemma AllPainted(c: Canvas, before: set<Pixel>, run: seq<int>, columns: bool, option: bv8, cx: byte, cy: byte)
    requires Painted(c, before, run, |run|, columns, option, cx, cy) && Inside(run, columns, c, cx, cy)
    ensures forall p :: p in c.painted <==> p in before || (c.Seen(p) && RunAt(run, columns, option, cx, cy, p))
  {
    assert run[..|run|] == run;
  }

  /** The first loop: from (rx, 0), row by row. */
  method DrawSides(c: Canvas, cx: byte, cy: byte, rx: byte, ry: byte, option: bv8)
    returns (ghost run: seq<int>)
    requires c.Valid() && Ends(rx, ry)
    modifies c
    ensures CodeRun(rx, ry, run)
    ensures Inside(run, true, c, cx, cy) ==>
      forall p :: p in c.painted <==> p in old(c.painted) || (c.Seen(p) && RunAt(run, true, option, cx, cy, p))
  {
    run := EndsHasRun(rx, ry);
    var rxrx2, ryry2, s := Start(rx, ry);
    var x, y: byte := rx, 0;
    ghost var k := 0;
    ghost var before := c.painted;
    NothingYet(c, run, true, option, cx, cy);
    while s.stopu >= s.stopv
      invariant Before(rx, ry, run, k, x, y, s)
      invariant Painted(c, before, run, k, true, option, cx, cy)
      decreases |run| - k
    {
      PassGoesOn(rx, ry, run, k, x, y, s);
      PaintPoint(c, x, y, cx, cy, option, before, run, k, true);
      x, y, s := Pass(ryry2, rxrx2, x, y, s);
      k := k + 1;
    }
    PassGoesOn(rx, ry, run, k, x, y, s);
    if Inside(run, true, c, cx, cy) {
      AllPainted(c, before, run, true, option, cx, cy);
    }
  }

  /** The second loop: from (0, ry), column by column. */
  method DrawCaps(c: Canvas, cx: byte, cy: byte, rx: byte, ry: byte, option: bv8)
    returns (ghost run: seq<int>)
    requires c.Valid() && Ends(ry, rx)
    modifies c
    ensures CodeRun(ry, rx, run)
    ensures Inside(run, false, c, cx, cy) ==>
      forall p :: p in c.painted <==> p in old(c.painted) || (c.Seen(p) && RunAt(run, false, option, cx, cy, p))
  {
    run := EndsHasRun(ry, rx);
    var ryry2, rxrx2, s := Start(ry, rx);
    var x, y: byte := 0, ry;
    ghost var k := 0;
    ghost var before := c.painted;
    NothingYet(c, run, false, option, cx, cy);
    while s.stopv <= s.stopu
      invariant Before(ry, rx, run, k, y, x, s)
      invariant Painted(c, before, run, k, false, option, cx, cy)
      decreases |run| - k
    {
      PassGoesOn(ry, rx, run, k, y, x, s);
      PaintPoint(c, x, y, cx, cy, option, before, run, k, false);
      y, x, s := Pass(rxrx2, ryry2, y, x, s);
      k := k + 1;
    }
    PassGoesOn(ry, rx, run, k, y, x, s);
    if Inside(run, false, c, cx, cy) {
      AllPainted(c, before, run, false, option, cx, cy);
    }
  }

  /** The pixels of an ellipse are those of its two runs. */
  ghost predicate EllipseAt(us: seq<int>, vs: seq<int>, option: bv8, cx: int, cy: int, p: Pixel) {
    RunAt(us, true, option, cx, cy, p) || RunAt(vs, false, option, cx, cy, p)
  }

  /** The k-th point of the first run lies in the k-th row to either side, and of the
      second in the k-th column. */
  lemma EllipsePixels(us: seq<int>, vs: seq<int>, option: bv8, cx: int, cy: int, p: Pixel)
    requires |us| <= 256 && |vs| <= 256
    ensures EllipseAt(us, vs, option, cx, cy, p) <==>
      && Sector(option, p.x - cx, p.y - cy)
      && ((exists k :: 0 <= k < |us| && Abs(p.x - cx) == us[k] && Abs(p.y - cy) == k)
          || (exists k :: 0 <= k < |vs| && Abs(p.y - cy) == vs[k] && Abs(p.x - cx) == k))
  {
    RunPixels(us, true, option, cx, cy, p);
    RunPixels(vs, false, option, cx, cy, p);
  }

  lemma RunPixels(us: seq<int>, columns: bool, option: bv8, cx: int, cy: int, p: Pixel)
    requires |us| <= 256
    ensures var d, e := if columns then Abs(p.x - cx) else Abs(p.y - cy), if columns then Abs(p.y - cy) else Abs(p.x - cx);
            RunAt(us, columns, option, cx, cy, p) <==>
              Sector(option, p.x - cx, p.y - cy) && exists k :: 0 <= k < |us| && d == us[k] && e == k
  {
    var e := if columns then Abs(p.y - cy) else Abs(p.x - cx);
    if Sector(option, p.x - cx, p.y - cy) && e < |us| {
      assert PointX(us, columns, e) == (if columns then us[e] else e);
      assert PointY(us, columns, e) == (if columns then e else us[e]);
    }
  }

  lemma RunInBox(us: seq<int>, columns: bool, ru: byte, rv: byte, k: nat)
    requires Run(rv * rv, ru * ru, ru, rv, us) && k < |us|
    ensures 0 <= us[k] <= ru && U8(k) == k <= rv
  {
    RunIsClosest(rv * rv, ru * ru, ru, rv, us, k, 0);
  }

  lemma EllipseInBox(us: seq<int>, vs: seq<int>, rx: byte, ry: byte, option: bv8, cx: int, cy: int, p: Pixel)
    requires Run(ry * ry, rx * rx, rx, ry, us) && Run(rx * rx, ry * ry, ry, rx, vs)
    requires EllipseAt(us, vs, option, cx, cy, p)
    ensures cx - rx <= p.x <= cx + rx && cy - ry <= p.y <= cy + ry
  {
    if RunAt(us, true, option, cx, cy, p) {
      var k :| 0 <= k < |us| && Mirrored(option, cx, cy, PointX(us, true, k), PointY(us, true, k), p);
      RunInBox(us, true, rx, ry, k);
    } else {
      var k :| 0 <= k < |vs| && Mirrored(option, cx, cy, PointX(vs, false, k), PointY(vs, false, k), p);
      RunInBox(vs, false, ry, rx, k);
    }
  }

  /** For radii whose starting values fit, what the code plots is the whole run, inside
      the bounding box. */
  lemma FittingRun(us: seq<int>, columns: bool, ru: byte, rv: byte, c: Canvas, cx: byte, cy: byte)
    requires Fits(ru, rv) && CodeRun(ru, rv, us)
    ensures WholeRun(rv * rv, ru * ru, ru, rv, us)
    ensures columns && Reaches(cx, ru, c.x1) && Reaches(cy, rv, c.y1) ==> Inside(us, columns, c, cx, cy)
    ensures !columns && Reaches(cx, rv, c.x1) && Reaches(cy, ru, c.y1) ==> Inside(us, columns, c, cx, cy)
  {
    var vs := CodeRunIsWhole(ru, rv);
    OneCodeRun(ru, rv, us, vs);
    forall k | 0 <= k < |us| ensures 0 <= us[k] <= ru && U8(k) == k <= rv {
      RunInBox(us, columns, ru, rv, k);
    }
  }

  /** The bounding-box test of the ellipse. */
  predicate Meets(c: Canvas, cx: byte, cy: byte, rx: byte, ry: byte)
  {
    c.IsIntersection(U8(cx - rx), U8(cy - ry), U8(cx + rx + 1), U8(cy + ry + 1))
  }

  /** The box of an ellipse that hangs out on the left and is wider than the coordinate
      range is taken to miss every window, whatever of the ellipse the window shows. */
  lemma WideBoxIsSkipped(c: Canvas, cx: byte, cy: byte, rx: byte, ry: byte)
    requires c.Valid() && Reaches(cx, rx, c.x1) && !Spans(cx, rx, c.x1)
    ensures !Meets(c, cx, cy, rx, ry)
  {
  }

  lemma SkippedEllipse(c: Canvas, us: seq<int>, vs: seq<int>, cx: byte, cy: byte, rx: byte, ry: byte, option: bv8)
    requires c.Valid() && !Meets(c, cx, cy, rx, ry) && Spans(cx, rx, c.x1) && Spans(cy, ry, c.y1)
    requires Run(ry * ry, rx * rx, rx, ry, us) && Run(rx * rx, ry * ry, ry, rx, vs)
    ensures forall p | EllipseAt(us, vs, option, cx, cy, p) :: !c.Seen(p)
  {
    forall p | EllipseAt(us, vs, option, cx, cy, p) ensures !c.Seen(p) {
      EllipseInBox(us, vs, rx, ry, option, cx, cy, p);
      BoxNotSeen(c, cx, cy, rx, ry, p);
    }
  }

  lemma FittingIsSmall(rx: nat, ry: nat)
    requires Fits(rx, ry)
    ensures rx < 128 && ry < 128
  {
    if Max(rx, ry) >= 128 {
      Products(128, Max(rx, ry));
    }
  }

  lemma FitsEitherWay(rx: nat, ry: nat)
    ensures Fits(rx, ry) <==> Fits(ry, rx)
  {
  }

  /** The runs of a drawing that ends are the whole ones exactly for these radii. */
  lemma WholeIfFits(rx: byte, ry: byte, us: seq<int>, vs: seq<int>)
    requires CodeRun(rx, ry, us) && CodeRun(ry, rx, vs)
    ensures Fits(rx, ry) <==> WholeRun(ry * ry, rx * rx, rx, ry, us) && WholeRun(rx * rx, ry * ry, ry, rx, vs)
  {
    if rx == 0 && ry == 0 {
      ZeroRadiiNeverEnd(|us|);
      assert false;
    }
    WholeExactlyIfFits(rx, ry);
    if us', vs' :| PlotsWhole(rx, ry, us') && PlotsWhole(ry, rx, vs') {
      OneCodeRun(rx, ry, us, us');
      OneCodeRun(ry, rx, vs, vs');
    } else {
      assert !(PlotsWhole(rx, ry, us) && PlotsWhole(ry, rx, vs));
    }
  }

  /** For radii whose starting values fit, and no others, the two whole runs are painted.
      In general it is what the 16-bit loops plot, if the box meets the window. */
  method DrawEllipse(c: Canvas, cx: byte, cy: byte, rx: byte, ry: byte, option: bv8)
    returns (ghost us: seq<int>, ghost vs: seq<int>)
    requires c.Valid() && Ends(rx, ry) && Ends(ry, rx)
    modifies c
    ensures CodeRun(rx, ry, us) && CodeRun(ry, rx, vs)
    ensures Fits(rx, ry) <==> WholeRun(ry * ry, rx * rx, rx, ry, us) && WholeRun(rx * rx, ry * ry, ry, rx, vs)
    ensures Fits(rx, ry) && cx + rx < 255 && cy + ry < 255
            && c.x1 + rx <= 256 + cx && c.y1 + ry <= 256 + cy ==>
      forall p :: p in c.painted <==> p in old(c.painted) || (c.Seen(p) && EllipseAt(us, vs, option, cx, cy, p))
    ensures Meets(c, cx, cy, rx, ry) && Inside(us, true, c, cx, cy) && Inside(vs, false, c, cx, cy) ==>
      forall p :: p in c.painted <==> p in old(c.painted) || (c.Seen(p) && EllipseAt(us, vs, option, cx, cy, p))
    ensures !Meets(c, cx, cy, rx, ry) ==> c.painted == old(c.painted)
  {
    us := EndsHasRun(rx, ry);
    vs := EndsHasRun(ry, rx);
    WholeIfFits(rx, ry, us, vs);
    if Fits(rx, ry) {
      FittingIsSmall(rx, ry);
      FitsEitherWay(rx, ry);
      FittingRun(us, true, rx, ry, c, cx, cy);
      FittingRun(vs, false, ry, rx, c, cx, cy);
    }
    if !c.IsIntersection(U8(cx - rx), U8(cy - ry), U8(cx + rx + 1), U8(cy + ry + 1)) {
      if Fits(rx, ry) && Spans(cx, rx, c.x1) && Spans(cy, ry, c.y1) {
        SkippedEllipse(c, us, vs, cx, cy, rx, ry, option);
      }
      return;
    }
    ghost var sides := DrawSides(c, cx, cy, rx, ry, option);
    ghost var caps := DrawCaps(c, cx, cy, rx, ry, option);
    OneCodeRun(rx, ry, us, sides);
    OneCodeRun(ry, rx, vs, caps);
  }

  /** The drawing of every ellipse whose starting values fit ends. */
  lemma FittingEnds(rx: byte, ry: byte)
    requires Fits(rx, ry)
    ensures Ends(rx, ry) && Ends(ry, rx)
  {
    FitsEitherWay(rx, ry);
    var us := CodeRunIsWhole(rx, ry);
    var vs := CodeRunIsWhole(ry, rx);
    assert EndsAt(rx, ry, |us|) && EndsAt(ry, rx, |vs|);
  }
}
