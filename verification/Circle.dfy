/** lib/u8g2/u8g2_circle.c: the midpoint circle and disc, in the 8-bit arithmetic
    they run in, against closed forms of the pixels they paint. */
module Circles {
  import opened Painting

  predicate InI8(v: int) {
    -128 <= v <= 127
  }

  /** u8g2_int_t: signed, 8 bits; a value that does not fit wraps. */
  function I8(v: int): int {
    if InI8(v) then v else (v + 128) % 256 - 128
  }

  const UPPER_RIGHT: bv8 := 0x01
  const UPPER_LEFT: bv8 := 0x02
  const LOWER_LEFT: bv8 := 0x04
  const LOWER_RIGHT: bv8 := 0x08

  predicate Has(option: bv8, quadrant: bv8) {
    option & quadrant != 0
  }

  /** The offset (dx, dy) from the centre lies in a selected quadrant; the axes
      belong to both neighbours. */
  predicate Sector(option: bv8, dx: int, dy: int) {
    || (Has(option, UPPER_RIGHT) && dx >= 0 && dy <= 0)
    || (Has(option, UPPER_LEFT) && dx <= 0 && dy <= 0)
    || (Has(option, LOWER_RIGHT) && dx >= 0 && dy >= 0)
    || (Has(option, LOWER_LEFT) && dx <= 0 && dy >= 0)
  }

  function Abs(v: int): nat {
    if v < 0 then -v else v
  }

  // ---- the figures ----

  /** In the octant lo <= hi, hi is at most the integer nearest to sqrt(r^2 - lo^2). */
  predicate Below(r: nat, lo: nat, hi: nat) {
    lo * lo + hi * hi - hi < r * r
  }

  predicate Above(r: nat, lo: nat, hi: nat) {
    r * r <= lo * lo + hi * hi + hi
  }

  /** hi is the integer nearest to sqrt(r^2 - lo^2). */
  predicate Nearest(r: nat, lo: nat, hi: nat) {
    Below(r, lo, hi) && Above(r, lo, hi)
  }

  /** The pixels of a disc, by distance from the centre's column and row. */
  predicate InDisc(r: nat, a: nat, b: nat) {
    if r == 0 then a == 0 && b == 0
    else if a <= b then Below(r, a, b) else Below(r, b, a)
  }

  /** The pixels of a circle. */
  predicate OnCircle(r: nat, a: nat, b: nat) {
    if r == 0 then a == 0 && b == 0
    else if a <= b then Nearest(r, a, b) else Nearest(r, b, a)
  }

  /** In halves: in the octant lo <= hi the circle is where the root lies between hi - 1/2
      and hi + 1/2, and the disc where it lies above hi - 1/2. */
  lemma CircleInHalves(r: nat, lo: nat, hi: nat)
    requires r > 0 && lo <= hi
    ensures InDisc(r, lo, hi) <==> InDisc(r, hi, lo)
    ensures OnCircle(r, lo, hi) <==> OnCircle(r, hi, lo)
    ensures InDisc(r, lo, hi) <==> (2 * hi - 1) * (2 * hi - 1) < 4 * (r * r - lo * lo)
    ensures OnCircle(r, lo, hi) <==>
              (2 * hi - 1) * (2 * hi - 1) < 4 * (r * r - lo * lo) < (2 * hi + 1) * (2 * hi + 1)
  {
    assert (2 * hi - 1) * (2 * hi - 1) == 4 * (hi * hi) - 4 * hi + 1;
    assert (2 * hi + 1) * (2 * hi + 1) == 4 * (hi * hi) + 4 * hi + 1;
  }

  /** The four options: up and to the right, up and left, down and left, down and right. */
  lemma SectorMeans(option: bv8, dx: int, dy: int)
    ensures Sector(0x01, dx, dy) <==> dx >= 0 && dy <= 0
    ensures Sector(0x02, dx, dy) <==> dx <= 0 && dy <= 0
    ensures Sector(0x04, dx, dy) <==> dx <= 0 && dy >= 0
    ensures Sector(0x08, dx, dy) <==> dx >= 0 && dy >= 0
    ensures Sector(option, dx, dy) <==>
              || (option & 0x01 != 0 && Sector(0x01, dx, dy)) || (option & 0x02 != 0 && Sector(0x02, dx, dy))
              || (option & 0x04 != 0 && Sector(0x04, dx, dy)) || (option & 0x08 != 0 && Sector(0x08, dx, dy))
  {
  }

  /** There is one nearest integer. */
  lemma NearestIsUnique(r: nat, lo: nat, h: nat, k: nat)
    requires Nearest(r, lo, h) && Nearest(r, lo, k)
    ensures h == k
  {
    if h < k {
      Products(h + 1, k);
    } else if k < h {
      Products(k + 1, h);
    }
  }

  lemma Mul(a: int, b: int, c: nat)
    requires a <= b
    ensures a * c <= b * c
  {
  }

  lemma Products(a: nat, b: nat)
    requires a <= b
    ensures a * a <= b * b
    ensures a * a - a <= b * b - b
  {
    Mul(a, b, a);
    Mul(a, b, b);
    if a > 0 {
      Mul(a, b, a - 1);
      Mul(a - 1, b - 1, b);
      assert a * (a - 1) == a * a - a && b * (b - 1) == b * b - b;
      assert (a - 1) * b == b * (a - 1);
    } else if b > 0 {
      Mul(1, b, b);
    }
  }

  /** Every column of the disc is one span from the centre row to the outline. */
  lemma DiscColumns(r: nat, a: nat, b: nat, c: nat)
    ensures InDisc(r, a, 0) <==> a <= r
    ensures c <= b && InDisc(r, a, b) ==> InDisc(r, a, c)
    ensures InDisc(r, a, b) && !InDisc(r, a, b + 1) ==> OnCircle(r, a, b)
  {
    if r > 0 {
      if a <= r {
        Products(a, r);
      } else {
        Products(r + 1, a);
      }
      if c <= b {
        Products(c, b);
        if c <= a {
          Products(c, a);
        }
        if a <= b {
          Products(a, b);
        }
      }
    }
  }

  /** The outline is the edge of the disc: its pixels belong to the disc and a
      neighbour outwards does not. */
  lemma CircleIsEdge(r: nat, a: nat, b: nat)
    requires OnCircle(r, a, b)
    ensures InDisc(r, a, b) && (!InDisc(r, a, b + 1) || !InDisc(r, a + 1, b))
  {
  }

  // ---- the loop shared by both ----

  /** The loop's arithmetic is exact: f decides the next step, and (x, y) is a
      pixel of the circle. */
  predicate Tracks(r: nat, f: int, ddFx: int, ddFy: int, x: nat, y: nat) {
    && f == (x + 1) * (x + 1) + y * y - y - r * r
    && ddFx == 2 * x + 1 && ddFy == -2 * y
    && x <= y + 1 && y <= r && OnCircle(r, x, y)
  }

  /** The starting values fit eight bits exactly for radii up to 64. */
  lemma StartInRange(r: nat)
    ensures InI8(1 - r) && InI8(0 - r) && InI8(-2 * r) <==> r <= 64
  {
  }

  /** ... and then no step leaves the range, sums within a step included. */
  lemma StepInRange(r: nat, f: int, ddFx: int, ddFy: int, x: nat, y: nat)
    requires r <= 64 && Tracks(r, f, ddFx, ddFy, x, y) && x < y
    ensures InI8(ddFy + 2) && InI8(ddFx + 2)
    ensures f >= 0 ==> InI8(f + (ddFy + 2)) && InI8(f + (ddFy + 2) + (ddFx + 2))
    ensures f < 0 ==> InI8(f + (ddFx + 2))
  {
    Products(x + 1, y);
    Products(r, 64);
    assert 2 * (x * x) + x < r * r;
    if x >= 46 {
      Products(46, x);
    }
    assert f < 2 * x + 1;
    assert f >= 2 * x + 1 - 2 * y;
  }

  /** The row after column x + 1: f >= 0 says that y is now too high. */
  function NextRow(r: nat, x: nat, y: nat): nat
    requires y > 0
  {
    if Below(r, x + 1, y) then y else y - 1
  }

  lemma StepOnCircle(r: nat, x: nat, y: nat)
    requires x < y && OnCircle(r, x, y)
    ensures OnCircle(r, x + 1, NextRow(r, x, y))
  {
    assert (x + 1) * (x + 1) == x * x + 2 * x + 1;
    assert (y - 1) * (y - 1) == y * y - 2 * y + 1;
  }

  lemma StepTracks(r: nat, f: int, ddFx: int, ddFy: int, x: nat, y: nat)
    requires Tracks(r, f, ddFx, ddFy, x, y) && x < y
    ensures f >= 0 <==> NextRow(r, x, y) == y - 1
    ensures f >= 0 ==> Tracks(r, f + (ddFy + 2) + (ddFx + 2), ddFx + 2, ddFy + 2, x + 1, y - 1)
    ensures f < 0 ==> Tracks(r, f + (ddFx + 2), ddFx + 2, ddFy, x + 1, y)
  {
    StepOnCircle(r, x, y);
    assert (x + 2) * (x + 2) == (x + 1) * (x + 1) + 2 * x + 3;
    assert (y - 1) * (y - 1) - (y - 1) == y * y - y - 2 * (y - 1);
  }

  /** The values that a pass updates, and the update in eight bits. */
  datatype Running = Running(f: int, ddFx: int, ddFy: int, x: nat, y: nat)

  function NextRunning(s: Running): Running
    requires s.x < s.y
  {
    if s.f >= 0 then
      var ddFy := I8(s.ddFy + 2);
      Running(I8(I8(s.f + ddFy) + I8(s.ddFx + 2)), I8(s.ddFx + 2), ddFy, s.x + 1, s.y - 1)
    else
      Running(I8(s.f + I8(s.ddFx + 2)), I8(s.ddFx + 2), s.ddFy, s.x + 1, s.y)
  }

  /** The value that f stands for. */
  function Excess(r: nat, x: nat, y: nat): int {
    (x + 1) * (x + 1) + y * y - y - r * r
  }

  /** The radii for which f fits wherever the loop gets. */
  predicate ExactRadius(r: nat) {
    r <= 76 || r == 82 || r == 83
  }

  lemma I8Residue(v: int, k: int)
    ensures I8(v + 256 * k) == I8(v)
  {
  }

  lemma I8Sum(a: int, b: int)
    ensures I8(I8(a) + b) == I8(a + b)
    ensures I8(I8(a) + I8(b)) == I8(a + b)
  {
    var j, k := (a + 128) / 256, (b + 128) / 256;
    assert I8(a) == a - 256 * j && I8(b) == b - 256 * k;
    I8Residue(I8(a) + b, j);
    I8Residue(I8(a) + I8(b), j + k);
  }

  /** The loop's values, in eight bits. */
  predicate TracksWrapped(r: nat, s: Running) {
    && s.f == I8(Excess(r, s.x, s.y)) && s.ddFx == I8(2 * s.x + 1) && s.ddFy == I8(-2 * s.y)
    && s.x <= s.y + 1 && s.y <= r && OnCircle(r, s.x, s.y)
  }

  lemma ExcessBounds(r: nat, x: nat, y: nat)
    requires x < y && OnCircle(r, x, y)
    ensures 2 * x + 1 - 2 * y <= Excess(r, x, y) <= 2 * x
  {
    assert (x + 1) * (x + 1) == x * x + 2 * x + 1;
  }

  /** On the upper rows of larger circles f is lowest right after y was lowered. */
  lemma TopRow(r: nat, x: nat)
    requires r > 0
    ensures Excess(r, x, r) >= 1 - r
  {
    Products(1, x + 1);
  }

  lemma SecondRow(r: nat, x: nat)
    requires 65 <= r && ExactRadius(r) && OnCircle(r, x, r - 1) && x < r - 1
    ensures Excess(r, x, r - 1) >= -128
  {
    assert (r - 1) * (r - 1) == r * r - 2 * r + 1;
    assert x * x >= r;
    if r <= 76 {
      if x < 9 {
        Products(x, 8);
      }
      Products(10, x + 1);
    } else {
      if x < 10 {
        Products(x, 9);
      }
      Products(11, x + 1);
    }
  }

  lemma ThirdRow(r: nat, x: nat)
    requires 65 <= r && ExactRadius(r) && OnCircle(r, x, r - 2) && x < r - 2
    ensures Excess(r, x, r - 2) >= -128
  {
    assert (r - 2) * (r - 2) == r * r - 4 * r + 4;
    assert x * x >= 3 * r - 2;
    if x < 14 {
      Products(x, 13);
    }
    if r >= 82 && x < 16 {
      Products(x, 15);
    }
    Products(if r >= 82 then 17 else 15, x + 1);
  }

  lemma LowerRow(r: nat, x: nat, y: nat)
    requires 65 <= r && ExactRadius(r) && OnCircle(r, x, y) && x < y <= r - 3
    ensures Excess(r, x, y) >= -128
  {
    ExcessBounds(r, x, y);
    Products(y, r - 3);
    assert (r - 3) * (r - 3) == r * r - 6 * r + 9;
    if x < 17 {
      Products(x, 16);
    }
  }

  /** For these radii f fits, so its eight bits decide as it does. */
  lemma ExcessFits(r: nat, x: nat, y: nat)
    requires ExactRadius(r) && OnCircle(r, x, y) && x < y <= r
    ensures InI8(Excess(r, x, y))
  {
    ExcessBounds(r, x, y);
    UpperBound(r, x, y);
    if r >= 65 {
      if y == r {
        TopRow(r, x);
      } else if y == r - 1 {
        SecondRow(r, x);
      } else if y == r - 2 {
        ThirdRow(r, x);
      } else {
        LowerRow(r, x, y);
      }
    }
  }

  lemma UpperBound(r: nat, x: nat, y: nat)
    requires r <= 83 && OnCircle(r, x, y) && x < y
    ensures 2 * x <= 127
  {
    Products(r, 83);
    if x >= 64 {
      Products(64, x);
      Products(65, y);
    }
  }

  lemma NextExcess(r: nat, x: nat, y: nat)
    requires x < y
    ensures Excess(r, x + 1, y) == Excess(r, x, y) + (2 * x + 3)
    ensures Excess(r, x + 1, y - 1) == Excess(r, x, y) + (-2 * y + 2) + (2 * x + 3)
  {
    assert (x + 2) * (x + 2) == (x + 1) * (x + 1) + 2 * x + 3;
    assert (y - 1) * (y - 1) - (y - 1) == y * y - y - 2 * (y - 1);
  }

  lemma Decides(r: nat, x: nat, y: nat)
    requires x < y
    ensures Excess(r, x, y) >= 0 <==> NextRow(r, x, y) == y - 1
  {
  }

  /** A pass over the eight bits of e, a and b. */
  lemma PassSums(s: Running, e: int, a: int, b: int)
    requires s.x < s.y && s.f == I8(e) && s.ddFx == I8(a) && s.ddFy == I8(b)
    ensures var t := NextRunning(s);
            && t.ddFx == I8(a + 2) && t.ddFy == (if s.f >= 0 then I8(b + 2) else s.ddFy)
            && t.f == I8(if s.f >= 0 then e + (b + 2) + (a + 2) else e + (a + 2))
  {
    I8Sum(a, 2);
    I8Sum(b, 2);
    I8Sum(e, b + 2);
    I8Sum(e, a + 2);
    I8Sum(e + (b + 2), a + 2);
  }

  /** As long as f fits, a pass goes on to the circle's next pixel. */
  lemma PassTracks(r: nat, s: Running)
    requires TracksWrapped(r, s) && s.x < s.y && InI8(Excess(r, s.x, s.y))
    ensures TracksWrapped(r, NextRunning(s)) && NextRunning(s).y == NextRow(r, s.x, s.y)
  {
    PassSums(s, Excess(r, s.x, s.y), 2 * s.x + 1, -2 * s.y);
    NextExcess(r, s.x, s.y);
    Decides(r, s.x, s.y);
    StepOnCircle(r, s.x, s.y);
    PassTracked(r, s, Excess(r, s.x, s.y), NextRunning(s));
  }

  lemma PassTracked(r: nat, s: Running, e: int, t: Running)
    requires s.x < s.y <= r && s.f == e && t.x == s.x + 1 && t.y == (if e >= 0 then s.y - 1 else s.y)
    requires t.ddFx == I8(2 * s.x + 1 + 2) && t.ddFy == (if e >= 0 then I8(-2 * s.y + 2) else I8(-2 * s.y))
    requires t.f == I8(if e >= 0 then e + (-2 * s.y + 2) + (2 * s.x + 3) else e + (2 * s.x + 3))
    requires Excess(r, s.x + 1, s.y) == e + (2 * s.x + 3)
    requires Excess(r, s.x + 1, s.y - 1) == e + (-2 * s.y + 2) + (2 * s.x + 3)
    requires OnCircle(r, t.x, t.y)
    ensures TracksWrapped(r, t)
  {
  }

  lemma StartTracks(r: nat)
    ensures TracksWrapped(r, Running(I8(1 - r), 1, I8(2 * I8(0 - r)), 0, r))
  {
    I8Sum(0 - r, 0 - r);
    I8Sum(0 - r, I8(0 - r));
    assert Excess(r, 0, r) == 1 - r;
  }

  method Advance(s: Running) returns (t: Running)
    requires s.x < s.y < 256
    ensures t == NextRunning(s)
  {
    var f, ddFx, ddFy, x, y := s.f, s.ddFx, s.ddFy, s.x, s.y;
    if f >= 0 {
      y := U8(y - 1);
      ddFy := I8(ddFy + 2);
      f := I8(f + ddFy);
    }
    x := U8(x + 1);
    ddFx := I8(ddFx + 2);
    f := I8(f + ddFx);
    t := Running(f, ddFx, ddFy, x, y);
  }

  /** For the exact radii a pass goes on to the circle's next pixel. */
  lemma ExactPass(r: nat, s: Running)
    requires s.x < s.y && ExactRadius(r) && TracksWrapped(r, s)
    ensures TracksWrapped(r, NextRunning(s)) && NextRunning(s).y == NextRow(r, s.x, s.y)
  {
    ExcessFits(r, s.x, s.y);
    PassTracks(r, s);
  }

  // ---- the circle ----

  /** The pixels of one step, by distance from the centre. */
  predicate Corner(x: nat, y: nat, a: nat, b: nat) {
    (a == x && b == y) || (a == y && b == x)
  }

  /** What has been painted once column x is done. */
  predicate CircleUpTo(r: nat, x: nat, a: nat, b: nat) {
    OnCircle(r, a, b) && (a <= x || b <= x)
  }

  lemma CircleStart(r: nat, a: nat, b: nat)
    ensures Corner(0, r, a, b) <==> CircleUpTo(r, 0, a, b)
  {
    if r > 0 && OnCircle(r, a, b) && (a == 0 || b == 0) {
      NearestIsUnique(r, 0, if a == 0 then b else a, r);
    }
  }

  lemma CircleStep(r: nat, x: nat, y: nat, a: nat, b: nat)
    requires x < y && OnCircle(r, x, y)
    ensures CircleUpTo(r, x + 1, a, b) <==> CircleUpTo(r, x, a, b) || Corner(x + 1, NextRow(r, x, y), a, b)
  {
    var z := NextRow(r, x, y);
    StepOnCircle(r, x, y);
    if OnCircle(r, a, b) && (a == x + 1 || b == x + 1) && a > x && b > x {
      var hi := if a == x + 1 then b else a;
      assert Nearest(r, x + 1, hi);
      if z > x {
        NearestIsUnique(r, x + 1, hi, z);
      } else {
        Products(y, hi);
      }
    }
  }

  lemma CircleEnd(r: nat, x: nat, y: nat, a: nat, b: nat)
    requires OnCircle(r, x, y) && y <= x <= y + 1
    ensures CircleUpTo(r, x, a, b) <==> OnCircle(r, a, b)
  {
    if r > 0 && a > x && b > x {
      EndOfOctant(r, x, y);
      Products(x + 1, a);
      Products(x + 1, b);
    }
  }

  lemma EndOfOctant(r: nat, x: nat, y: nat)
    requires r > 0 && OnCircle(r, x, y) && y <= x <= y + 1
    ensures r * r <= 2 * ((x + 1) * (x + 1)) - (x + 1)
  {
    assert (x + 1) * (x + 1) == x * x + 2 * x + 1;
    Products(y, x);
  }

  // ---- the disc ----

  /** The bars of one step. */
  predicate Bar(x: nat, y: nat, a: nat, b: nat) {
    (a == x && b <= y) || (a == y && b <= x)
  }

  predicate DiscUpTo(r: nat, x: nat, y: nat, a: nat, b: nat) {
    InDisc(r, a, b) && (a <= x || (a >= y && b <= x))
  }

  lemma DiscStart(r: nat, a: nat, b: nat)
    ensures Bar(0, r, a, b) <==> DiscUpTo(r, 0, r, a, b)
  {
    if r > 0 {
      if a > r {
        Products(r + 1, a);
      } else if b > r {
        Products(r + 1, b);
      } else {
        Products(a, r);
        Products(b, r);
      }
    }
  }

  /** Pixels at or under a painted one belong to the disc. */
  lemma UnderCircle(r: nat, x: nat, y: nat, a: nat, b: nat)
    requires r > 0 && x <= y && Below(r, x, y) && a <= x && b <= y
    ensures InDisc(r, a, b) && InDisc(r, b, a)
  {
    Products(a, x);
    Products(b, y);
    if b < a {
      Products(b, a);
      Products(a, y);
      Products(b, x);
    }
  }

  lemma OverCircle(r: nat, x: nat, y: nat, a: nat, b: nat)
    requires r > 0 && !Below(r, x, y) && a >= x && b >= y && a <= b
    ensures !InDisc(r, a, b) && !InDisc(r, b, a)
  {
    Products(x, a);
    Products(y, b);
  }

  lemma NextRowIsTop(r: nat, x: nat, y: nat)
    requires x < y && OnCircle(r, x, y)
    ensures !Below(r, x + 1, NextRow(r, x, y) + 1)
    ensures x < NextRow(r, x, y) ==> Below(r, x + 1, NextRow(r, x, y))
  {
    StepOnCircle(r, x, y);
    assert (y + 1) * (y + 1) == y * y + 2 * y + 1;
  }

  /** The bars of the next step lie in the disc. */
  lemma BarInDisc(r: nat, x: nat, y: nat, a: nat, b: nat)
    requires x < y && OnCircle(r, x, y) && Bar(x + 1, NextRow(r, x, y), a, b)
    ensures InDisc(r, a, b)
  {
    var z := NextRow(r, x, y);
    NextRowIsTop(r, x, y);
    if a == x + 1 && b <= z {
      if x < z { UnderCircle(r, x + 1, z, a, b); } else { UnderCircle(r, x, y, b, a); }
    } else {
      if x < z { UnderCircle(r, x + 1, z, b, a); } else { UnderCircle(r, x, y, a, b); }
    }
  }

  /** ... and nothing of the disc is left out of the columns and rows they finish. */
  lemma BarsFinish(r: nat, x: nat, y: nat, a: nat, b: nat)
    requires x < y && OnCircle(r, x, y) && InDisc(r, a, b)
    ensures a == x + 1 ==> b <= NextRow(r, x, y)
    ensures b == x + 1 ==> a <= NextRow(r, x, y) || a <= x + 1
  {
    var z := NextRow(r, x, y);
    NextRowIsTop(r, x, y);
    if a == x + 1 && b > z {
      OverCircle(r, x + 1, z + 1, if a <= b then a else b, if a <= b then b else a);
    }
    if b == x + 1 && a > z && a > x + 1 {
      OverCircle(r, x + 1, z + 1, b, a);
    }
  }

  lemma DiscStep(r: nat, x: nat, y: nat, a: nat, b: nat)
    requires x < y && OnCircle(r, x, y)
    ensures DiscUpTo(r, x + 1, NextRow(r, x, y), a, b)
       <==> DiscUpTo(r, x, y, a, b) || Bar(x + 1, NextRow(r, x, y), a, b)
  {
    if Bar(x + 1, NextRow(r, x, y), a, b) {
      BarInDisc(r, x, y, a, b);
    }
    if InDisc(r, a, b) {
      BarsFinish(r, x, y, a, b);
    }
  }

  lemma DiscEnd(r: nat, x: nat, y: nat, a: nat, b: nat)
    requires OnCircle(r, x, y) && y <= x <= y + 1
    ensures DiscUpTo(r, x, y, a, b) <==> InDisc(r, a, b)
  {
    if r > 0 && a > x && b > x {
      EndOfOctant(r, x, y);
      Products(x + 1, a);
      Products(x + 1, b);
    }
  }

  // ---- drawing ----

  /** Pixel p belongs to the selected quadrants of a circle around (cx, cy). */
  predicate CircleAt(option: bv8, cx: int, cy: int, r: nat, p: Pixel) {
    Sector(option, p.x - cx, p.y - cy) && OnCircle(r, Abs(p.x - cx), Abs(p.y - cy))
  }

  predicate DiscAt(option: bv8, cx: int, cy: int, r: nat, p: Pixel) {
    Sector(option, p.x - cx, p.y - cy) && InDisc(r, Abs(p.x - cx), Abs(p.y - cy))
  }

  /** m pixels to either side of v stay below 255, and those left of zero, which wrap, do
      not get into a window that ends at hi. */
  predicate Reaches(v: byte, m: nat, hi: byte) {
    v + m < 255 && hi + m <= 256 + v
  }

  /** Besides, m pixels to either side of v do not add up to the whole range. */
  predicate Spans(v: byte, m: nat, hi: byte) {
    Reaches(v, m, hi) && (m <= v || m < 128)
  }

  predicate Around(c: Canvas, cx: byte, cy: byte, m: nat) {
    Spans(cx, m, c.x1) && Spans(cy, m, c.y1)
  }

  /** The pixel p belongs to the step (x, y) of a circle around (cx, cy). */
  predicate CircleStepAt(option: bv8, cx: int, cy: int, x: nat, y: nat, p: Pixel) {
    Sector(option, p.x - cx, p.y - cy) && Corner(x, y, Abs(p.x - cx), Abs(p.y - cy))
  }

  function Side(positive: bool, from: int, d: int): int {
    if positive then from + d else from - d
  }

  /** The two pixels of a quadrant. */
  predicate InQuadrant(right: bool, down: bool, cx: int, cy: int, x: nat, y: nat, p: Pixel) {
    || p == Pixel(Side(right, cx, x), Side(down, cy, y))
    || p == Pixel(Side(right, cx, y), Side(down, cy, x))
  }

  lemma QuadrantsMakeStep(option: bv8, cx: int, cy: int, x: nat, y: nat, p: Pixel)
    ensures CircleStepAt(option, cx, cy, x, y, p) <==>
      || (Has(option, UPPER_RIGHT) && InQuadrant(true, false, cx, cy, x, y, p))
      || (Has(option, UPPER_LEFT) && InQuadrant(false, false, cx, cy, x, y, p))
      || (Has(option, LOWER_RIGHT) && InQuadrant(true, true, cx, cy, x, y, p))
      || (Has(option, LOWER_LEFT) && InQuadrant(false, true, cx, cy, x, y, p))
  {
  }

  method DrawDot(c: Canvas, right: bool, down: bool, cx: byte, cy: byte, x: byte, y: byte)
    requires c.Valid()
    modifies c
    ensures Reaches(cx, x, c.x1) && Reaches(cy, y, c.y1) ==>
      forall p :: p in c.painted <==>
        p in old(c.painted) || (c.Seen(p) && p == Pixel(Side(right, cx, x), Side(down, cy, y)))
  {
    c.DrawPixel(U8(Side(right, cx, x)), U8(Side(down, cy, y)));
  }

  method DrawCircleQuadrant(c: Canvas, on: bool, right: bool, down: bool, x: byte, y: byte, cx: byte, cy: byte)
    requires c.Valid()
    modifies c
    ensures Around(c, cx, cy, x) && Around(c, cx, cy, y) ==>
      forall p :: p in c.painted <==>
        p in old(c.painted) || (on && c.Seen(p) && InQuadrant(right, down, cx, cy, x, y, p))
  {
    if on {
      DrawDot(c, right, down, cx, cy, x, y);
      DrawDot(c, right, down, cx, cy, y, x);
    }
  }

  method DrawCircleSection(c: Canvas, x: byte, y: byte, cx: byte, cy: byte, option: bv8)
    requires c.Valid()
    modifies c
    ensures Around(c, cx, cy, x) && Around(c, cx, cy, y) ==>
      forall p :: p in c.painted <==> p in old(c.painted) || (c.Seen(p) && CircleStepAt(option, cx, cy, x, y, p))
  {
    DrawCircleQuadrant(c, Has(option, UPPER_RIGHT), true, false, x, y, cx, cy);
    DrawCircleQuadrant(c, Has(option, UPPER_LEFT), false, false, x, y, cx, cy);
    DrawCircleQuadrant(c, Has(option, LOWER_RIGHT), true, true, x, y, cx, cy);
    DrawCircleQuadrant(c, Has(option, LOWER_LEFT), false, true, x, y, cx, cy);
    forall p: Pixel { QuadrantsMakeStep(option, cx, cy, x, y, p); }
  }

  /** Distance columns and rows from the centre. */
  predicate CirclePixel(option: bv8, cx: int, cy: int, r: nat, x: nat, p: Pixel) {
    Sector(option, p.x - cx, p.y - cy) && CircleUpTo(r, x, Abs(p.x - cx), Abs(p.y - cy))
  }

  /** The figure grows from column x to the next one. */
  method CirclePlot(c: Canvas, cx: byte, cy: byte, rad: byte, option: bv8, x: nat, y: nat, next: nat, ghost before: set<Pixel>)
    requires c.Valid() && x < y <= rad && next <= y && (ExactRadius(rad) ==> OnCircle(rad, x, y) && next == NextRow(rad, x, y))
    requires ExactRadius(rad) && Around(c, cx, cy, rad) ==>
      forall p :: p in c.painted <==> p in before || (c.Seen(p) && CirclePixel(option, cx, cy, rad, x, p))
    modifies c
    ensures ExactRadius(rad) && Around(c, cx, cy, rad) ==>
      forall p :: p in c.painted <==> p in before || (c.Seen(p) && CirclePixel(option, cx, cy, rad, x + 1, p))
  {
    if ExactRadius(rad) {
      forall p: Pixel { CircleStep(rad, x, y, Abs(p.x - cx), Abs(p.y - cy)); }
    }
    DrawCircleSection(c, x + 1, next, cx, cy, option);
  }

  method CirclePass(c: Canvas, cx: byte, cy: byte, rad: byte, option: bv8, s: Running, ghost before: set<Pixel>)
    returns (t: Running)
    requires c.Valid() && s.x < s.y <= rad && (ExactRadius(rad) ==> TracksWrapped(rad, s))
    requires ExactRadius(rad) && Around(c, cx, cy, rad) ==>
      forall p :: p in c.painted <==> p in before || (c.Seen(p) && CirclePixel(option, cx, cy, rad, s.x, p))
    modifies c
    ensures t == NextRunning(s) && (ExactRadius(rad) ==> TracksWrapped(rad, t))
    ensures ExactRadius(rad) && Around(c, cx, cy, rad) ==>
      forall p :: p in c.painted <==> p in before || (c.Seen(p) && CirclePixel(option, cx, cy, rad, t.x, p))
  {
    t := Advance(s);
    if ExactRadius(rad) {
      ExactPass(rad, s);
    }
    CirclePlot(c, cx, cy, rad, option, s.x, s.y, t.y, before);
  }

  method DrawCircleLoop(c: Canvas, cx: byte, cy: byte, rad: byte, option: bv8)
    requires c.Valid()
    modifies c
    ensures ExactRadius(rad) && Around(c, cx, cy, rad) ==>
      forall p :: p in c.painted <==> p in old(c.painted) || (c.Seen(p) && CircleAt(option, cx, cy, rad, p))
  {
    var s := Running(I8(1 - rad), 1, I8(2 * I8(0 - rad)), 0, rad);
    ghost var before := c.painted;
    StartTracks(rad);
    DrawCircleSection(c, s.x, s.y, cx, cy, option);
    forall p: Pixel { CircleStart(rad, Abs(p.x - cx), Abs(p.y - cy)); }
    while s.x < s.y
      invariant s.x <= s.y + 1 && s.y <= rad
      invariant ExactRadius(rad) ==> TracksWrapped(rad, s)
      invariant ExactRadius(rad) && Around(c, cx, cy, rad) ==>
        forall p :: p in c.painted <==>
          p in before || (c.Seen(p) && CirclePixel(option, cx, cy, rad, s.x, p))
      decreases s.y - s.x
    {
      s := CirclePass(c, cx, cy, rad, option, s, before);
    }
    if ExactRadius(rad) {
      forall p: Pixel { CircleEnd(rad, s.x, s.y, Abs(p.x - cx), Abs(p.y - cy)); }
    }
  }

  lemma PixelInBox(option: bv8, cx: int, cy: int, rad: nat, p: Pixel)
    requires CircleAt(option, cx, cy, rad, p) || DiscAt(option, cx, cy, rad, p)
    ensures cx - rad <= p.x <= cx + rad && cy - rad <= p.y <= cy + rad
  {
    InBox(rad, Abs(p.x - cx), Abs(p.y - cy));
  }

  lemma BoxNotSeen(c: Canvas, cx: byte, cy: byte, rx: byte, ry: byte, p: Pixel)
    requires c.Valid() && Spans(cx, rx, c.x1) && Spans(cy, ry, c.y1)
    requires !c.IsIntersection(U8(cx - rx), U8(cy - ry), U8(cx + rx + 1), U8(cy + ry + 1))
    requires cx - rx <= p.x <= cx + rx && cy - ry <= p.y <= cy + ry
    ensures !c.Seen(p)
  {
  }

  /** A figure whose bounding box misses the window shows no pixel. */
  lemma OutOfSight(c: Canvas, option: bv8, cx: byte, cy: byte, rad: byte, p: Pixel)
    requires c.Valid() && Around(c, cx, cy, rad)
    requires !c.IsIntersection(U8(cx - rad), U8(cy - rad), U8(cx + rad + 1), U8(cy + rad + 1))
    requires CircleAt(option, cx, cy, rad, p) || DiscAt(option, cx, cy, rad, p)
    ensures !c.Seen(p)
  {
    PixelInBox(option, cx, cy, rad, p);
    BoxNotSeen(c, cx, cy, rad, rad, p);
  }

  /** Skips a circle whose bounding box misses the window. */
  method DrawCircle(c: Canvas, cx: byte, cy: byte, rad: byte, option: bv8)
    requires c.Valid()
    modifies c
    ensures (rad <= 76 || rad == 82 || rad == 83)
            && cx + rad < 255 && cy + rad < 255 && c.x1 + rad <= 256 + cx && c.y1 + rad <= 256 + cy ==>
      forall p :: p in c.painted <==>
        p in old(c.painted)
        || (c.Seen(p) && Sector(option, p.x - cx, p.y - cy) && OnCircle(rad, Abs(p.x - cx), Abs(p.y - cy)))
  {
    if !c.IsIntersection(U8(cx - rad), U8(cy - rad), U8(cx + rad + 1), U8(cy + rad + 1)) {
      if Around(c, cx, cy, rad) {
        forall p | CircleAt(option, cx, cy, rad, p) || DiscAt(option, cx, cy, rad, p) ensures !c.Seen(p) {
          OutOfSight(c, option, cx, cy, rad, p);
        }
      }
      return;
    }
    DrawCircleLoop(c, cx, cy, rad, option);
  }

  /** Figures do not leave their bounding box. */
  lemma InBox(r: nat, a: nat, b: nat)
    ensures InDisc(r, a, b) || OnCircle(r, a, b) ==> a <= r && b <= r
  {
    if r > 0 {
      if a > r {
        Products(r + 1, a);
      }
      if b > r {
        Products(r + 1, b);
      }
    }
  }

  /** A bar of the disc in column x, from the centre row outwards. */
  predicate OnBar(right: bool, down: bool, cx: int, cy: int, x: nat, height: nat, p: Pixel) {
    p.x == Side(right, cx, x) && 0 <= (if down then p.y - cy else cy - p.y) <= height
  }

  predicate QuadrantBars(right: bool, down: bool, cx: int, cy: int, x: nat, y: nat, p: Pixel) {
    OnBar(right, down, cx, cy, x, y, p) || OnBar(right, down, cx, cy, y, x, p)
  }

  predicate DiscStepAt(option: bv8, cx: int, cy: int, x: nat, y: nat, p: Pixel) {
    Sector(option, p.x - cx, p.y - cy) && Bar(x, y, Abs(p.x - cx), Abs(p.y - cy))
  }

  lemma QuadrantsMakeBars(option: bv8, cx: int, cy: int, x: nat, y: nat, p: Pixel)
    ensures DiscStepAt(option, cx, cy, x, y, p) <==>
      || (Has(option, UPPER_RIGHT) && QuadrantBars(true, false, cx, cy, x, y, p))
      || (Has(option, UPPER_LEFT) && QuadrantBars(false, false, cx, cy, x, y, p))
      || (Has(option, LOWER_RIGHT) && QuadrantBars(true, true, cx, cy, x, y, p))
      || (Has(option, LOWER_LEFT) && QuadrantBars(false, true, cx, cy, x, y, p))
  {
  }

  method DrawBar(c: Canvas, right: bool, down: bool, cx: byte, cy: byte, x: byte, height: byte)
    requires c.Valid()
    modifies c
    ensures Around(c, cx, cy, x) && Around(c, cx, cy, height) ==>
      forall p :: p in c.painted <==>
        p in old(c.painted) || (c.Seen(p) && OnBar(right, down, cx, cy, x, height, p))
  {
    c.DrawVLine(U8(Side(right, cx, x)), if down then cy else U8(cy - height), U8(height + 1));
  }

  method DrawDiscQuadrant(c: Canvas, on: bool, right: bool, down: bool, x: byte, y: byte, cx: byte, cy: byte)
    requires c.Valid()
    modifies c
    ensures Around(c, cx, cy, x) && Around(c, cx, cy, y) ==>
      forall p :: p in c.painted <==>
        p in old(c.painted) || (on && c.Seen(p) && QuadrantBars(right, down, cx, cy, x, y, p))
  {
    if on {
      DrawBar(c, right, down, cx, cy, x, y);
      DrawBar(c, right, down, cx, cy, y, x);
    }
  }

  method DrawDiscSection(c: Canvas, x: byte, y: byte, cx: byte, cy: byte, option: bv8)
    requires c.Valid()
    modifies c
    ensures Around(c, cx, cy, x) && Around(c, cx, cy, y) ==>
      forall p :: p in c.painted <==> p in old(c.painted) || (c.Seen(p) && DiscStepAt(option, cx, cy, x, y, p))
  {
    DrawDiscQuadrant(c, Has(option, UPPER_RIGHT), true, false, x, y, cx, cy);
    DrawDiscQuadrant(c, Has(option, UPPER_LEFT), false, false, x, y, cx, cy);
    DrawDiscQuadrant(c, Has(option, LOWER_RIGHT), true, true, x, y, cx, cy);
    DrawDiscQuadrant(c, Has(option, LOWER_LEFT), false, true, x, y, cx, cy);
    forall p: Pixel { QuadrantsMakeBars(option, cx, cy, x, y, p); }
  }

  predicate DiscPixel(option: bv8, cx: int, cy: int, r: nat, x: nat, y: nat, p: Pixel) {
    Sector(option, p.x - cx, p.y - cy) && DiscUpTo(r, x, y, Abs(p.x - cx), Abs(p.y - cy))
  }

  /** The figure grows from column x to the next one. */
  method DiscPlot(c: Canvas, cx: byte, cy: byte, rad: byte, option: bv8, x: nat, y: nat, next: nat, ghost before: set<Pixel>)
    requires c.Valid() && x < y <= rad && next <= y && (ExactRadius(rad) ==> OnCircle(rad, x, y) && next == NextRow(rad, x, y))
    requires ExactRadius(rad) && Around(c, cx, cy, rad) ==>
      forall p :: p in c.painted <==> p in before || (c.Seen(p) && DiscPixel(option, cx, cy, rad, x, y, p))
    modifies c
    ensures ExactRadius(rad) && Around(c, cx, cy, rad) ==>
      forall p :: p in c.painted <==> p in before || (c.Seen(p) && DiscPixel(option, cx, cy, rad, x + 1, next, p))
  {
    if ExactRadius(rad) {
      forall p: Pixel { DiscStep(rad, x, y, Abs(p.x - cx), Abs(p.y - cy)); }
    }
    DrawDiscSection(c, x + 1, next, cx, cy, option);
  }

  method DiscPass(c: Canvas, cx: byte, cy: byte, rad: byte, option: bv8, s: Running, ghost before: set<Pixel>)
    returns (t: Running)
    requires c.Valid() && s.x < s.y <= rad && (ExactRadius(rad) ==> TracksWrapped(rad, s))
    requires ExactRadius(rad) && Around(c, cx, cy, rad) ==>
      forall p :: p in c.painted <==> p in before || (c.Seen(p) && DiscPixel(option, cx, cy, rad, s.x, s.y, p))
    modifies c
    ensures t == NextRunning(s) && (ExactRadius(rad) ==> TracksWrapped(rad, t))
    ensures ExactRadius(rad) && Around(c, cx, cy, rad) ==>
      forall p :: p in c.painted <==> p in before || (c.Seen(p) && DiscPixel(option, cx, cy, rad, t.x, t.y, p))
  {
    t := Advance(s);
    if ExactRadius(rad) {
      ExactPass(rad, s);
    }
    DiscPlot(c, cx, cy, rad, option, s.x, s.y, t.y, before);
  }

  method DrawDiscLoop(c: Canvas, cx: byte, cy: byte, rad: byte, option: bv8)
    requires c.Valid()
    modifies c
    ensures ExactRadius(rad) && Around(c, cx, cy, rad) ==>
      forall p :: p in c.painted <==> p in old(c.painted) || (c.Seen(p) && DiscAt(option, cx, cy, rad, p))
  {
    var s := Running(I8(1 - rad), 1, I8(2 * I8(0 - rad)), 0, rad);
    ghost var before := c.painted;
    StartTracks(rad);
    DrawDiscSection(c, s.x, s.y, cx, cy, option);
    forall p: Pixel { DiscStart(rad, Abs(p.x - cx), Abs(p.y - cy)); }
    while s.x < s.y
      invariant s.x <= s.y + 1 && s.y <= rad
      invariant ExactRadius(rad) ==> TracksWrapped(rad, s)
      invariant ExactRadius(rad) && Around(c, cx, cy, rad) ==>
        forall p :: p in c.painted <==>
          p in before || (c.Seen(p) && DiscPixel(option, cx, cy, rad, s.x, s.y, p))
      decreases s.y - s.x
    {
      s := DiscPass(c, cx, cy, rad, option, s, before);
    }
    if ExactRadius(rad) {
      forall p: Pixel { DiscEnd(rad, s.x, s.y, Abs(p.x - cx), Abs(p.y - cy)); }
    }
  }

  method DrawDisc(c: Canvas, cx: byte, cy: byte, rad: byte, option: bv8)
    requires c.Valid()
    modifies c
    ensures (rad <= 76 || rad == 82 || rad == 83)
            && cx + rad < 255 && cy + rad < 255 && c.x1 + rad <= 256 + cx && c.y1 + rad <= 256 + cy ==>
      forall p :: p in c.painted <==>
        p in old(c.painted)
        || (c.Seen(p) && Sector(option, p.x - cx, p.y - cy) && InDisc(rad, Abs(p.x - cx), Abs(p.y - cy)))
  {
    if !c.IsIntersection(U8(cx - rad), U8(cy - rad), U8(cx + rad + 1), U8(cy + rad + 1)) {
      if Around(c, cx, cy, rad) {
        forall p | CircleAt(option, cx, cy, rad, p) || DiscAt(option, cx, cy, rad, p) ensures !c.Seen(p) {
          OutOfSight(c, option, cx, cy, rad, p);
        }
      }
      return;
    }
    DrawDiscLoop(c, cx, cy, rad, option);
  }
}
