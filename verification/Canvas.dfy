/** Painting primitives of u8g2 (u8g2_hvline.c, u8g2_intersection.c and DrawBox):
    clipped horizontal and vertical lines on a display whose coordinates are
    8 bits wide and wrap. */
module Painting {

  datatype Pixel = Pixel(x: int, y: int)

  type byte = b: int | 0 <= b < 256

  /** u8g2_uint_t: unsigned, 8 bits; a value that does not fit wraps. */
  function U8(v: int): byte {
    if 0 <= v < 256 then v else v % 256
  }

  lemma NextU8(v: int)
    ensures U8(U8(v) + 1) == U8(v + 1)
  {
  }

  /** The positions that remain of a line of `len` from `a`, clipped to c..d-1.  A
      line that runs past 255 is either cut before the window's last position or
      taken to have started left of zero. */
  predicate Shown(a: byte, len: byte, c: byte, d: byte, p: int) {
    && c <= p < d
    && if a + len < 256 then a <= p < a + len
       else if a < d then a <= p < d - 1
       else p < a + len - 256
  }

  method ClipIntersection(a: byte, len: byte, c: byte, d: byte) returns (hit: bool, start: byte, count: byte)
    requires len > 0 && c <= d
    ensures forall p :: Shown(a, len, c, d, p) <==> hit && start <= p < start + count
  {
    var b: byte := U8(a + len);
    start, count := a, 0;
    if start > b {
      if start < d {
        b := U8(d - 1);
      } else {
        start := c;
      }
    }
    if start >= d || b <= c {
      hit := false;
      return;
    }
    if start < c {
      start := c;
    }
    if b > d {
      b := d;
    }
    count := U8(b - start);
    hit := true;
  }

  /** A start left of zero, written modulo 256, is clipped like the negative number
      it stands for, as long as the window does not reach that far right. */
  lemma ShownFromNegative(k: byte, len: byte, c: byte, d: byte, p: int)
    requires k > 0 && d <= 256 - k
    ensures Shown(256 - k, len, c, d, p) <==> c <= p < d && 0 <= p + k < len
  {
  }

  /** Do a0..a1-1 and v0..v1-1 have a position in common, where v may wrap? */
  function Overlaps(a0: byte, a1: byte, v0: byte, v1: byte): bool {
    if v0 < a1 then
      if v1 > a0 then true else v0 > v1
    else
      if v1 > a0 then v0 > v1 else false
  }

  function Row(left: int, len: int, y: int): (r: set<Pixel>)
    ensures forall p :: p in r <==> p.y == y && left <= p.x < left + len
  {
    var r := set k: int | left <= k < left + len :: Pixel(k, y);
    assert forall p: Pixel :: p == Pixel(p.x, p.y);
    r
  }

  function Column(x: int, top: int, len: int): (r: set<Pixel>)
    ensures forall p :: p in r <==> p.x == x && top <= p.y < top + len
  {
    var r := set k: int | top <= k < top + len :: Pixel(x, k);
    assert forall p: Pixel :: p == Pixel(p.x, p.y);
    r
  }

  /** Where a stretch of `len` positions from v begins: one that would run past 255 has
      started left of zero. */
  function Start(v: byte, len: nat): int {
    if v + len <= 255 then v else v - 256
  }

  /** A window that ends at hi tells such a start from one inside it. */
  predicate Told(v: byte, len: nat, hi: byte) {
    v + len <= 255 || hi <= v
  }

  lemma ShownFromStart(v: byte, len: byte, c: byte, d: byte, p: int)
    requires Told(v, len, d)
    ensures Shown(v, len, c, d, p) <==> c <= p < d && Start(v, len) <= p < Start(v, len) + len
  {
    if v + len > 255 && v > 0 {
      ShownFromNegative(256 - v, len, c, d, p);
    }
  }

  class Canvas {
    var painted: set<Pixel>
    /** the user window: x0..x1-1 by y0..y1-1 */
    const x0: byte
    const x1: byte
    const y0: byte
    const y1: byte
    /** is_page_clip_window_intersection */
    const visible: bool

    constructor (x0: byte, x1: byte, y0: byte, y1: byte, visible: bool)
      requires x0 <= x1 && y0 <= y1
      ensures painted == {} && Valid()
      ensures this.x0 == x0 && this.x1 == x1 && this.y0 == y0 && this.y1 == y1 && this.visible == visible
    {
      painted := {};
      this.x0, this.x1, this.y0, this.y1, this.visible := x0, x1, y0, y1, visible;
    }

    predicate Valid() {
      x0 <= x1 && y0 <= y1
    }

    predicate Seen(p: Pixel) {
      visible && x0 <= p.x < x1 && y0 <= p.y < y1
    }

    predicate IsIntersection(left: byte, top: byte, right: byte, bottom: byte) {
      Overlaps(y0, y1, top, bottom) && Overlaps(x0, x1, left, right)
    }

    /** The pixels of a line in one of the directions right, down, left, up. */
    predicate OnLine(x: byte, y: byte, len: byte, dir: nat, p: Pixel)
      requires dir < 4
    {
      && len != 0 && Seen(p)
      && if dir == 0 || dir == 2 then
           p.y == y && Shown(if dir == 2 then U8(x - len + 1) else x, len, x0, x1, p.x)
         else
           p.x == x && Shown(if dir == 3 then U8(y - len + 1) else y, len, y0, y1, p.y)
    }

    method DrawHVLine(x: byte, y: byte, len: byte, dir: nat)
      requires Valid() && dir < 4
      modifies this
      ensures forall p :: p in painted <==> p in old(painted) || OnLine(x, y, len, dir, p)
    {
      if visible && len != 0 {
        var px, py := x, y;
        if len > 1 {
          if dir == 2 {
            px := U8(px - len);
            px := U8(px + 1);
          } else if dir == 3 {
            py := U8(py - len);
            py := U8(py + 1);
          }
        }
        assert px == if dir == 2 then U8(x - len + 1) else x;
        assert py == if dir == 3 then U8(y - len + 1) else y;
        if dir == 0 || dir == 2 {
          ClippedRow(px, py, len);
        } else {
          ClippedColumn(px, py, len);
        }
      }
    }

    method ClippedRow(x: byte, y: byte, len: byte)
      requires Valid() && visible && len != 0
      modifies this
      ensures forall p :: p in painted <==>
                p in old(painted) || (Seen(p) && p.y == y && Shown(x, len, x0, x1, p.x))
    {
      if y < y0 || y >= y1 {
        return;
      }
      var hit, start, count := ClipIntersection(x, len, x0, x1);
      if !hit {
        return;
      }
      painted := painted + Row(start, count, y);
      forall p ensures p in Row(start, count, y) <==> p.y == y && Shown(x, len, x0, x1, p.x) {
        assert Shown(x, len, x0, x1, p.x) <==> start <= p.x < start + count;
      }
    }

    method ClippedColumn(x: byte, y: byte, len: byte)
      requires Valid() && visible && len != 0
      modifies this
      ensures forall p :: p in painted <==>
                p in old(painted) || (Seen(p) && p.x == x && Shown(y, len, y0, y1, p.y))
    {
      if x < x0 || x >= x1 {
        return;
      }
      var hit, start, count := ClipIntersection(y, len, y0, y1);
      if !hit {
        return;
      }
      painted := painted + Column(x, start, count);
      forall p ensures p in Column(x, start, count) <==> p.x == x && Shown(y, len, y0, y1, p.y) {
        assert Shown(y, len, y0, y1, p.y) <==> start <= p.y < start + count;
      }
    }

    method DrawVLine(x: byte, y: byte, len: byte)
      requires Valid()
      modifies this
      ensures Told(y, len, y1) ==>
        forall p :: p in painted <==>
          p in old(painted) || (Seen(p) && p.x == x && Start(y, len) <= p.y < Start(y, len) + len)
    {
      if Told(y, len, y1) {
        forall p: Pixel { ShownFromStart(y, len, y0, y1, p.y); }
      }
      DrawHVLine(x, y, len, 1);
    }

    method DrawHLine(x: byte, y: byte, len: byte)
      requires Valid()
      modifies this
      ensures Told(x, len, x1) ==>
        forall p :: p in painted <==>
          p in old(painted) || (Seen(p) && p.y == y && Start(x, len) <= p.x < Start(x, len) + len)
    {
      if Told(x, len, x1) {
        forall p: Pixel { ShownFromStart(x, len, x0, x1, p.x); }
      }
      DrawHVLine(x, y, len, 0);
    }

    method DrawPixel(x: byte, y: byte)
      requires Valid()
      modifies this
      ensures forall p :: p in painted <==> p in old(painted) || (Seen(p) && p == Pixel(x, y))
    {
      if y < y0 || y >= y1 || x < x0 || x >= x1 {
        return;
      }
      DrawHVLine(x, y, 1, 0);
    }

    /** The first rows of a box. */
    predicate InRows(x: byte, y: byte, w: byte, h: byte, rows: int, p: Pixel) {
      && Start(x, w) <= p.x < Start(x, w) + w
      && Start(y, h) <= p.y < Start(y, h) + rows
    }

    lemma NextRow(x: byte, y: byte, w: byte, h: byte, rows: nat, p: Pixel)
      requires Told(y, h, y1) && rows < h && Seen(p)
      ensures InRows(x, y, w, h, rows + 1, p) <==>
                InRows(x, y, w, h, rows, p) || (p.y == U8(Start(y, h) + rows) && Start(x, w) <= p.x < Start(x, w) + w)
    {
    }

    /** A filled box; a box that misses the window is skipped. */
    method DrawBox(x: byte, y: byte, w: byte, h: byte)
      requires Valid()
      modifies this
      ensures Told(x, w, x1) && Told(y, h, y1) ==>
        forall p :: p in painted <==>
          p in old(painted) || (Seen(p) && Start(x, w) <= p.x < Start(x, w) + w && Start(y, h) <= p.y < Start(y, h) + h)
    {
      if !IsIntersection(x, y, U8(x + w), U8(y + h)) {
        return;
      }
      var row: int, left: int := y, h;
      while left != 0
        invariant 0 <= left <= h && 0 <= row < 256 && row == U8(Start(y, h) + h - left)
        invariant Told(x, w, x1) && Told(y, h, y1) ==>
          forall p :: p in painted <==> p in old(painted) || (Seen(p) && InRows(x, y, w, h, h - left, p))
      {
        if Told(y, h, y1) {
          forall p | Seen(p) { NextRow(x, y, w, h, h - left, p); }
        }
        DrawHLine(x, row, w);
        NextU8(Start(y, h) + h - left);
        row := U8(row + 1);
        left := left - 1;
      }
    }
  }
}
