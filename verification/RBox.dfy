/** `u8g2_DrawRBox`: four quarter discs and three boxes make a rectangle with its
    corners rounded off. */
module RoundedBox {
  import opened Painting
  import opened Circles

  /** How far v lies outside lo..hi. */
  function Past(lo: int, hi: int, v: int): nat {
    if v < lo then lo - v else if v > hi then v - hi else 0
  }

  predicate InRect(x: int, y: int, w: nat, h: nat, p: Pixel) {
    x <= p.x < x + w && y <= p.y < y + h
  }

  /** The rectangle without the corner pixels that are outside the quarter discs. */
  predicate InRBox(x: int, y: int, w: nat, h: nat, r: nat, p: Pixel) {
    && InRect(x, y, w, h, p)
    && InDisc(r, Past(x + r, x + w - r - 1, p.x), Past(y + r, y + h - r - 1, p.y))
  }

  /** Outside the four corner squares it is the rectangle, and in each of them a quarter of
      a disc. */
  lemma RBoxMeans(x: int, y: int, w: nat, h: nat, r: nat, p: Pixel)
    requires w > 2 * r && h > 2 * r
    ensures InRBox(x, y, w, h, r, p) <==>
      && x <= p.x < x + w && y <= p.y < y + h
      && if x + r <= p.x < x + w - r || y + r <= p.y < y + h - r then true
         else InDisc(r, if p.x < x + r then x + r - p.x else p.x - (x + w - r - 1),
                     if p.y < y + r then y + r - p.y else p.y - (y + h - r - 1))
  {
    DiscColumns(r, Past(x + r, x + w - r - 1, p.x), 0, 0);
    DiscColumns(r, Past(y + r, y + h - r - 1, p.y), 0, 0);
  }

  /** What the four quarter discs paint. */
  predicate InCorners(xl: int, xr: int, yu: int, yl: int, r: nat, p: Pixel) {
    || DiscAt(UPPER_LEFT, xl, yu, r, p) || DiscAt(UPPER_RIGHT, xr, yu, r, p)
    || DiscAt(LOWER_LEFT, xl, yl, r, p) || DiscAt(LOWER_RIGHT, xr, yl, r, p)
  }

  lemma CornersByDistance(xl: int, xr: int, yu: int, yl: int, r: nat, p: Pixel)
    ensures InCorners(xl, xr, yu, yl, r, p) <==>
              || (p.x <= xl && p.y <= yu && InDisc(r, xl - p.x, yu - p.y))
              || (p.x >= xr && p.y <= yu && InDisc(r, p.x - xr, yu - p.y))
              || (p.x <= xl && p.y >= yl && InDisc(r, xl - p.x, p.y - yl))
              || (p.x >= xr && p.y >= yl && InDisc(r, p.x - xr, p.y - yl))
  {
  }

  /** What the three boxes paint. */
  predicate InBoxes(x: int, y: int, w: nat, h: nat, r: nat, p: Pixel) {
    || (x + r < p.x < x + w - r - 1 && (y <= p.y <= y + r || y + h - r - 1 <= p.y < y + h))
    || (x <= p.x < x + w && y + r < p.y < y + h - r - 1)
  }

  /** The disc's two middle columns, and rows, are alike from radius 2 on. */
  lemma FlatTop(r: nat, b: nat)
    requires r >= 2
    ensures InDisc(r, 0, b) <==> InDisc(r, 1, b)
    ensures InDisc(r, b, 0) <==> InDisc(r, b, 1)
  {
    Products(2, r);
    if b <= r {
      Products(b, r);
    } else {
      Products(r + 1, b);
    }
  }

  /** Where the ends of x..x+w-1 meet in one column too few, they are alike. */
  predicate LongEnough(w: nat, r: nat) {
    w >= 2 * r && (w == 2 * r ==> r >= 2)
  }

  lemma FlatAround(r: nat, a: nat, a': nat, b: nat, b': nat)
    requires a == a' || (r >= 2 && a <= 1 && a' <= 1)
    requires b == b' || (r >= 2 && b <= 1 && b' <= 1)
    ensures InDisc(r, a, b) <==> InDisc(r, a', b')
  {
    if r >= 2 {
      FlatTop(r, b);
      FlatTop(r, b');
      FlatTop(r, a);
      FlatTop(r, a');
    }
  }

  /** How far v is from the left, or the right, disc's centre line. */
  function Distance(lo: int, hi: int, left: bool, v: int): int {
    if left then lo - v else v - hi
  }

  /** On its side of the centre line, a disc agrees with the distance to the nearer
      one. */
  lemma SameDistance(lo: int, hi: int, r: nat, left: bool, v: int)
    requires lo <= hi || (lo == hi + 1 && r >= 2)
    requires Distance(lo, hi, left, v) >= 0
    ensures var d, a := Distance(lo, hi, left, v), Past(lo, hi, v); d == a || (r >= 2 && d <= 1 && a <= 1)
  {
  }

  lemma QuarterByDistance(xl: int, xr: int, yu: int, yl: int, r: nat, left: bool, up: bool, p: Pixel)
    requires (xl <= xr || (xl == xr + 1 && r >= 2)) && (yu <= yl || (yu == yl + 1 && r >= 2))
    requires Distance(xl, xr, left, p.x) >= 0 && Distance(yu, yl, up, p.y) >= 0
    ensures InDisc(r, Distance(xl, xr, left, p.x), Distance(yu, yl, up, p.y)) <==>
              InDisc(r, Past(xl, xr, p.x), Past(yu, yl, p.y))
  {
    SameDistance(xl, xr, r, left, p.x);
    SameDistance(yu, yl, r, up, p.y);
    FlatAround(r, Distance(xl, xr, left, p.x), Past(xl, xr, p.x), Distance(yu, yl, up, p.y), Past(yu, yl, p.y));
  }

  /** So the four quarters together are the disc of those distances. */
  lemma QuartersMakeCorners(xl: int, xr: int, yu: int, yl: int, r: nat, p: Pixel)
    requires (xl <= xr || (xl == xr + 1 && r >= 2)) && (yu <= yl || (yu == yl + 1 && r >= 2))
    ensures InCorners(xl, xr, yu, yl, r, p) <==>
              && (p.x <= xl || p.x >= xr) && (p.y <= yu || p.y >= yl)
              && InDisc(r, Past(xl, xr, p.x), Past(yu, yl, p.y))
  {
    CornersByDistance(xl, xr, yu, yl, r, p);
    forall left, up | Distance(xl, xr, left, p.x) >= 0 && Distance(yu, yl, up, p.y) >= 0
      ensures InDisc(r, Distance(xl, xr, left, p.x), Distance(yu, yl, up, p.y)) <==>
                InDisc(r, Past(xl, xr, p.x), Past(yu, yl, p.y))
    {
      QuarterByDistance(xl, xr, yu, yl, r, left, up, p);
    }
    assert p.x <= xl <==> Distance(xl, xr, true, p.x) >= 0;
    assert p.x >= xr <==> Distance(xl, xr, false, p.x) >= 0;
    assert p.y <= yu <==> Distance(yu, yl, true, p.y) >= 0;
    assert p.y >= yl <==> Distance(yu, yl, false, p.y) >= 0;
  }

  /** Discs and boxes together make the rounded box, if both sides are long enough. */
  lemma PartsMakeRBox(x: int, y: int, w: nat, h: nat, r: nat, p: Pixel)
    requires LongEnough(w, r) && LongEnough(h, r)
    ensures InRBox(x, y, w, h, r, p) <==> InParts(x, y, w, h, r, p)
  {
    var xl, xr, yu, yl := x + r, x + w - r - 1, y + r, y + h - r - 1;
    var a, b := Past(xl, xr, p.x), Past(yu, yl, p.y);
    QuartersMakeCorners(xl, xr, yu, yl, r, p);
    InBox(r, a, b);
    DiscColumns(r, a, 0, 0);
    DiscColumns(r, b, 0, 0);
  }

  predicate InParts(x: int, y: int, w: nat, h: nat, r: nat, p: Pixel) {
    InCorners(x + r, x + w - r - 1, y + r, y + h - r - 1, r, p) || InBoxes(x, y, w, h, r, p)
  }

  /** For sizes from 2r upwards that is exactly when they do: at 2r with r below 2 the
      discs of the two ends fill each other's corners. */
  lemma ExactFromTwiceTheRadius(x: int, y: int, w: nat, h: nat, r: nat)
    requires w >= 2 * r && h >= 2 * r
    ensures (forall p :: InRBox(x, y, w, h, r, p) <==> InParts(x, y, w, h, r, p))
            <==> LongEnough(w, r) && LongEnough(h, r)
  {
    if LongEnough(w, r) && LongEnough(h, r) {
      forall p ensures InRBox(x, y, w, h, r, p) <==> InParts(x, y, w, h, r, p) {
        PartsMakeRBox(x, y, w, h, r, p);
      }
    } else {
      CornerFilled(x, y, w, h, r);
    }
  }

  lemma CornerFilled(x: int, y: int, w: nat, h: nat, r: nat)
    requires w >= 2 * r && h >= 2 * r && r < 2 && (w == 2 * r || h == 2 * r)
    ensures !InRBox(x, y, w, h, r, Pixel(x, y)) && InParts(x, y, w, h, r, Pixel(x, y))
  {
    CornersByDistance(x + r, x + w - r - 1, y + r, y + h - r - 1, r, Pixel(x, y));
  }

  /** The side fits between the coordinates that the code computes for it, or hangs out
      left of zero with its first centre line still inside. */
  predicate SideFits(v: byte, w: byte, r: byte, hi: byte) {
    && LongEnough(w, r)
    && if v + w <= 255 then w == 2 * r ==> 1 <= v && v + w <= 254
       else hi <= v && v + r >= 256 && (w == 2 * r ==> hi < v && v + r >= 257)
  }

  /** No coordinate wraps into the window and the sides are long enough. */
  predicate Roomy(c: Canvas, x: byte, y: byte, w: byte, h: byte, r: byte) {
    ExactRadius(r) && SideFits(x, w, r, c.x1) && SideFits(y, h, r, c.y1)
  }

  /** The centre lines of the discs at the two ends of a side. */
  method Centres(v: byte, w: byte, r: byte, ghost hi: byte) returns (near: byte, far: byte)
    ensures SideFits(v, w, r, hi) ==> near == Start(v, w) + r && far == Start(v, w) + w - r - 1
    ensures SideFits(v, w, r, hi) && r < 128 ==> Spans(near, r, hi) && Spans(far, r, hi)
  {
    near := U8(v + r);
    far := U8(v + w);
    far := U8(far - r);
    far := U8(far - 1);
  }

  /** The length between two ends of r pixels each; below 2r it wraps. */
  method Between(w: byte, r: byte) returns (ww: byte)
    ensures ww == U8(w - 2 * r)
  {
    ww := U8(w - r);
    ww := U8(ww - r);
  }

  method DrawCorners(c: Canvas, xl: byte, xr: byte, yu: byte, yl: byte, r: byte)
    requires c.Valid()
    modifies c
    ensures ExactRadius(r) && Around(c, xl, yu, r) && Around(c, xr, yl, r) ==>
      forall p :: p in c.painted <==> p in old(c.painted) || (c.Seen(p) && InCorners(xl, xr, yu, yl, r, p))
  {
    DrawDisc(c, xl, yu, r, UPPER_LEFT);
    DrawDisc(c, xr, yu, r, UPPER_RIGHT);
    DrawDisc(c, xl, yl, r, LOWER_LEFT);
    DrawDisc(c, xr, yl, r, LOWER_RIGHT);
  }

  method DrawTwoBoxes(c: Canvas, x: byte, y: byte, y': byte, w: byte, h: byte)
    requires c.Valid()
    modifies c
    ensures Told(x, w, c.x1) && Told(y, h, c.y1) && Told(y', h, c.y1) ==>
      forall p :: p in c.painted <==>
        p in old(c.painted)
        || (c.Seen(p) && (InRect(Start(x, w), Start(y, h), w, h, p) || InRect(Start(x, w), Start(y', h), w, h, p)))
  {
    c.DrawBox(x, y, w, h);
    c.DrawBox(x, y', w, h);
  }

  method DrawBoxes(c: Canvas, x: byte, y: byte, w: byte, h: byte, r: byte, xl: byte, yu: byte, yl: byte)
    requires c.Valid()
    modifies c
    ensures Roomy(c, x, y, w, h, r) && xl == Start(x, w) + r && yu == Start(y, h) + r && yl == Start(y, h) + h - r - 1 ==>
      forall p :: p in c.painted <==>
        p in old(c.painted) || (c.Seen(p) && InBoxes(Start(x, w), Start(y, h), w, h, r, p))
  {
    var ww := Between(w, r);
    var left, top := U8(xl + 1), U8(yu + 1);
    if ww >= 3 {
      ww := ww - 2;
      DrawTwoBoxes(c, left, y, yl, ww, U8(r + 1));
    }
    var hh := Between(h, r);
    if hh >= 3 {
      hh := hh - 2;
      c.DrawBox(x, top, w, hh);
    }
  }

  lemma BoxOutOfSight(c: Canvas, x: byte, y: byte, w: byte, h: byte, p: Pixel)
    requires c.Valid() && !c.IsIntersection(x, y, U8(x + w), U8(y + h)) && Told(x, w, c.x1) && Told(y, h, c.y1)
    ensures c.Seen(p) ==> !InRect(Start(x, w), Start(y, h), w, h, p)
  {
  }

  /** Paints the rounded box, also one that hangs out left of or above the display. */
  method DrawRBox(c: Canvas, x: byte, y: byte, w: byte, h: byte, r: byte)
    requires c.Valid()
    modifies c
    ensures Roomy(c, x, y, w, h, r) ==>
      forall p :: p in c.painted <==>
        p in old(c.painted) || (c.Seen(p) && InRBox(Start(x, w), Start(y, h), w, h, r, p))
    ensures r <= 76 && w > 2 * r && h > 2 * r && x + w <= 255 && y + h <= 255 ==>
      forall p :: p in c.painted <==> p in old(c.painted) || (c.Seen(p) && InRBox(x, y, w, h, r, p))
  {
    if !c.IsIntersection(x, y, U8(x + w), U8(y + h)) {
      if Roomy(c, x, y, w, h, r) {
        forall p: Pixel { BoxOutOfSight(c, x, y, w, h, p); }
      }
      return;
    }
    DrawParts(c, x, y, w, h, r);
  }

  method DrawParts(c: Canvas, x: byte, y: byte, w: byte, h: byte, r: byte)
    requires c.Valid()
    modifies c
    ensures Roomy(c, x, y, w, h, r) ==>
      forall p :: p in c.painted <==>
        p in old(c.painted) || (c.Seen(p) && InRBox(Start(x, w), Start(y, h), w, h, r, p))
  {
    var xl, xr := Centres(x, w, r, c.x1);
    var yu, yl := Centres(y, h, r, c.y1);
    if Roomy(c, x, y, w, h, r) {
      forall p: Pixel { PartsMakeRBox(Start(x, w), Start(y, h), w, h, r, p); }
    }
    DrawCorners(c, xl, xr, yu, yl, r);
    DrawBoxes(c, x, y, w, h, r, xl, yu, yl);
  }
}
