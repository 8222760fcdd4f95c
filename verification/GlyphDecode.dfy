/** `u8g2_font_decode_len` and `u8g2_font_decode_glyph`: a glyph is a stream of
    alternating background and foreground runs that wrap at the glyph's width,
    drawn in one of four directions. */
module GlyphDecoding {
  import opened Painting
  import opened Circles
  import opened BitReading

  // ---- directions ----

  /** A vector turned by dir quarter turns. */
  function Turn(dir: nat, v: Pixel): Pixel
    requires dir < 4
  {
    match dir
    case 0 => v
    case 1 => Pixel(-v.y, v.x)
    case 2 => Pixel(-v.x, -v.y)
    case 3 => Pixel(v.y, -v.x)
  }

  /** Where the local point v of a glyph with origin o lies on the display. */
  function Place(o: Pixel, dir: nat, v: Pixel): Pixel
    requires dir < 4
  {
    var t := Turn(dir, v);
    Pixel(o.x + t.x, o.y + t.y)
  }

  /** The point of the glyph at the display's pixel p. */
  function Local(o: Pixel, dir: nat, p: Pixel): Pixel
    requires dir < 4
  {
    match dir
    case 0 => Pixel(p.x - o.x, p.y - o.y)
    case 1 => Pixel(p.y - o.y, o.x - p.x)
    case 2 => Pixel(o.x - p.x, o.y - p.y)
    case 3 => Pixel(o.y - p.y, p.x - o.x)
  }

  lemma LocalOfPlace(o: Pixel, dir: nat, v: Pixel, p: Pixel)
    requires dir < 4
    ensures Local(o, dir, p) == v <==> p == Place(o, dir, v)
  {
  }

  /** The code's displacement, coordinate by coordinate. */
  function AddVectorX(dx: byte, x: int, y: int, dir: nat): byte {
    match dir
    case 0 => U8(dx + x)
    case 1 => U8(dx - y)
    case 2 => U8(dx - x)
    case _ => U8(dx + y)
  }

  function AddVectorY(dy: byte, x: int, y: int, dir: nat): byte {
    match dir
    case 0 => U8(dy + y)
    case 1 => U8(dy + x)
    case 2 => U8(dy - y)
    case _ => U8(dy - x)
  }

  predicate Inside(p: Pixel) {
    0 <= p.x < 255 && 0 <= p.y < 255
  }

  lemma AddVectorPlaces(o: Pixel, dir: nat, v: Pixel)
    requires dir < 4 && Inside(o) && Inside(Place(o, dir, v))
    ensures Pixel(AddVectorX(o.x, v.x, v.y, dir), AddVectorY(o.y, v.x, v.y, dir)) == Place(o, dir, v)
  {
  }

  /** The first `rows` lines of a glyph of width w keep clear of the edges. */
  predicate Clear(o: Pixel, dir: nat, w: nat, rows: nat)
    requires dir < 4
  {
    Inside(o) && Inside(Place(o, dir, Pixel(w - 1, rows - 1)))
  }

  // ---- runs ----

  /** The local pixel l is one of `len` positions from `from` on, counted line by
      line. */
  predicate InRun(w: nat, from: nat, len: nat, l: Pixel) {
    0 <= l.x < w && l.y >= 0 && from <= l.y * w + l.x < from + len
  }

  lemma LinesApart(w: nat, a: int, b: int)
    requires a < b
    ensures a * w + w <= b * w
  {
    Mul(a + 1, b, w);
    assert (a + 1) * w == a * w + w;
  }

  /** l is one of len dots of line y from column x on. */
  predicate InPiece(x: nat, y: nat, len: nat, l: Pixel) {
    l.y == y && x <= l.x < x + len
  }

  /** A piece of one line is a run. */
  lemma PieceIsRun(w: nat, x: nat, y: nat, len: nat, l: Pixel)
    requires x + len <= w
    ensures InRun(w, y * w + x, len, l) <==> InPiece(x, y, len, l)
  {
    if l.y < y {
      LinesApart(w, l.y, y);
    } else if y < l.y {
      LinesApart(w, y, l.y);
    }
  }

  lemma RunSplits(w: nat, from: nat, a: nat, b: nat, l: Pixel)
    ensures InRun(w, from, a + b, l) <==> InRun(w, from, a, l) || InRun(w, from + a, b, l)
  {
  }

  lemma NextLine(w: nat, x: nat, y: nat, rows: nat)
    requires x < w
    ensures (y + 1) * w == y * w + w
    ensures y * w + x < rows * w ==> y < rows
    ensures y * w + x < 128 * w ==> y < 128
  {
    if rows <= y {
      Mul(rows, y, w);
    }
  }

  /** A run continues with the next piece. */
  lemma RunGrows(w: nat, x: nat, y: nat, from: nat, done: nat, len: nat, l: Pixel)
    requires x + len <= w && y * w + x == from + done
    ensures InRun(w, from, done + len, l) <==> InRun(w, from, done, l) || InPiece(x, y, len, l)
  {
    PieceIsRun(w, x, y, len, l);
    RunSplits(w, from, done, len, l);
  }

  /** How far p lies along a line from (x, y) in direction dir. */
  function Along(x: int, y: int, dir: nat, p: Pixel): int {
    match dir
    case 0 => p.x - x
    case 1 => p.y - y
    case 2 => x - p.x
    case _ => y - p.y
  }

  /** A line of the canvas that does not wrap. */
  lemma StraightLine(c: Canvas, x: byte, y: byte, dir: nat, len: byte, p: Pixel)
    requires dir < 4 && 0 < len
    requires if dir == 0 then x + len < 256 else if dir == 1 then y + len < 256
             else if dir == 2 then len <= x + 1 < 256 else len <= y + 1 < 256
    ensures c.OnLine(x, y, len, dir, p) <==>
              c.Seen(p) && (if dir == 0 || dir == 2 then p.y == y else p.x == x) && 0 <= Along(x, y, dir, p) < len
  {
  }

  /** A piece of a glyph line is drawn as a line in direction dir. */
  lemma LineIsPiece(c: Canvas, o: Pixel, dir: nat, w: nat, rows: nat, x: nat, y: nat, len: nat, p: Pixel)
    requires dir < 4 && Clear(o, dir, w, rows) && y < rows && x + len <= w && 0 < len < 256
    ensures Inside(Place(o, dir, Pixel(x, y)))
    ensures var q, l := Place(o, dir, Pixel(x, y)), Local(o, dir, p);
            c.OnLine(q.x, q.y, len, dir, p) <==> c.Seen(p) && InPiece(x, y, len, l)
  {
    var q := Place(o, dir, Pixel(x, y));
    StraightLine(c, q.x, q.y, dir, len, p);
  }

  lemma PieceDrawn(c: Canvas, o: Pixel, dir: nat, w: nat, rows: nat, x: nat, y: nat, len: nat, p: Pixel)
    requires dir < 4 && Clear(o, dir, w, rows) && y < rows && x + len <= w && 0 < len < 256
    ensures c.OnLine(AddVectorX(o.x, x, y, dir), AddVectorY(o.y, x, y, dir), len, dir, p) <==>
              c.Seen(p) && InPiece(x, y, len, Local(o, dir, p))
  {
    LineIsPiece(c, o, dir, w, rows, x, y, len, p);
    AddVectorPlaces(o, dir, Pixel(x, y));
  }

  // ---- the decoder ----

  /** A list of dots, counted line by line: is dot l there, with this colour? */
  predicate DotAt(dots: seq<bool>, w: nat, on: bool, l: Pixel) {
    0 <= l.x < w && l.y >= 0 && l.y * w + l.x < |dots| && dots[l.y * w + l.x] == on
  }

  lemma NoDots(w: nat, on: bool, l: Pixel)
    ensures !DotAt([], w, on, l)
  {
    if l.y >= 0 {
      Mul(0, l.y, w);
    }
  }

  function Repeat(on: bool, n: nat): seq<bool> {
    seq(n, _ => on)
  }

  lemma RunAddsDots(dots: seq<bool>, w: nat, on: bool, n: nat, colour: bool, l: Pixel)
    ensures DotAt(dots + Repeat(on, n), w, colour, l) <==>
              DotAt(dots, w, colour, l) || (on == colour && InRun(w, |dots|, n, l))
  {
  }

  /** A group of the stream: a background and a foreground run, drawn count times. */
  datatype Group = Group(zeros: nat, ones: nat, count: nat)

  function Cycles(g: Group, k: nat): seq<bool> {
    if k == 0 then [] else Cycles(g, k - 1) + (Repeat(false, g.zeros) + Repeat(true, g.ones))
  }

  /** The dots of the first n groups, background and foreground, line by line. */
  function Dots(groups: seq<Group>, n: nat): seq<bool>
    requires n <= |groups|
  {
    if n == 0 then [] else Dots(groups, n - 1) + Cycles(groups[n - 1], groups[n - 1].count)
  }

  /** The bits from pos on encode group g: its two run lengths, a 1 for every
      repetition and a closing 0. */
  predicate GroupAt(d: seq<bool>, pos: nat, b0: nat, b1: nat, g: Group)
    requires b0 <= 8 && b1 <= 8
  {
    && g.count >= 1 && pos + b0 + b1 + g.count < |d|
    && LengthsAt(d, pos, b0, b1, g) && RepeatedAt(d, pos + b0 + b1, g.count)
  }

  predicate LengthsAt(d: seq<bool>, pos: nat, b0: nat, b1: nat, g: Group)
    requires b0 <= 8 && b1 <= 8 && pos + b0 + b1 <= |d|
  {
    Value(d, pos, b0) == g.zeros && Value(d, pos + b0, b1) == g.ones
  }

  predicate RepeatedAt(d: seq<bool>, bits: nat, count: nat)
    requires bits + count <= |d|
  {
    forall k: nat | bits <= k < bits + count :: d[k] <==> k < bits + count - 1
  }

  lemma {:induction false} CyclesGrow(g: Group, k: nat, n: nat)
    requires k <= n
    ensures |Cycles(g, k)| <= |Cycles(g, n)|
    decreases n
  {
    if k < n {
      CyclesGrow(g, k, n - 1);
    }
  }

  lemma {:induction false} CyclesLength(g: Group, k: nat)
    ensures |Cycles(g, k)| == k * (g.zeros + g.ones)
  {
    if k > 0 {
      CyclesLength(g, k - 1);
      assert k * (g.zeros + g.ones) == (k - 1) * (g.zeros + g.ones) + (g.zeros + g.ones);
    }
  }

  /** Which dots of a group are foreground: each repetition begins with the background
      run. */
  lemma {:induction false} CycleColours(g: Group, k: nat, c: nat, j: nat)
    requires c < k && j < g.zeros + g.ones
    ensures 0 <= c * (g.zeros + g.ones) + j < |Cycles(g, k)|
    ensures Cycles(g, k)[c * (g.zeros + g.ones) + j] <==> j >= g.zeros
  {
    CyclesLength(g, k - 1);
    if c < k - 1 {
      CycleColours(g, k - 1, c, j);
    }
  }

  lemma NextCycle(g: Group, k: nat, dots: seq<bool>)
    ensures dots + Cycles(g, k + 1) == dots + Cycles(g, k) + Repeat(false, g.zeros) + Repeat(true, g.ones)
  {
  }

  /** The number of bits in the first n groups. */
  function BitCount(groups: seq<Group>, n: nat, b0: nat, b1: nat): nat
    requires n <= |groups|
  {
    if n == 0 then 0 else BitCount(groups, n - 1, b0, b1) + b0 + b1 + groups[n - 1].count
  }

  /** The fields of `u8g2_font_info_t` that say how many bits each part takes. */
  datatype FontInfo = FontInfo(bits0: nat, bits1: nat, width: nat, height: nat, x: nat, y: nat, delta: nat)

  lemma {:induction false} DotsGrow(groups: seq<Group>, k: nat, n: nat)
    requires k <= n <= |groups|
    ensures |Dots(groups, k)| <= |Dots(groups, n)|
    decreases n
  {
    if k < n {
      DotsGrow(groups, k, n - 1);
    }
  }

  /** The bits from pos on encode the groups; the last group is the one that fills
      line h, and the lines stay within a signed byte. */
  predicate Encoded(d: seq<bool>, pos: nat, b0: nat, b1: nat, w: nat, h: int, groups: seq<Group>)
    requires b0 <= 8 && b1 <= 8
  {
    && groups != []
    && (forall i | 0 <= i < |groups| :: EncodedGroup(d, pos, b0, b1, w, h, groups, i))
    && |Dots(groups, |groups|)| < 128 * w
  }

  predicate EncodedGroup(d: seq<bool>, pos: nat, b0: nat, b1: nat, w: nat, h: int, groups: seq<Group>, i: nat)
    requires b0 <= 8 && b1 <= 8 && i < |groups|
  {
    && GroupAt(d, pos + BitCount(groups, i, b0, b1), b0, b1, groups[i])
    && (i + 1 == |groups| <==> |Dots(groups, i + 1)| >= h * w)
  }

  lemma NextGroup(d: seq<bool>, pos: nat, b0: nat, b1: nat, w: nat, h: int, groups: seq<Group>, i: nat, limit: nat)
    requires b0 <= 8 && b1 <= 8 && Encoded(d, pos, b0, b1, w, h, groups) && i < |groups|
    requires |Dots(groups, |groups|)| <= limit
    ensures EncodedGroup(d, pos, b0, b1, w, h, groups, i)
    ensures |Dots(groups, i + 1)| < 128 * w && |Dots(groups, i + 1)| <= limit
  {
    DotsGrow(groups, i + 1, |groups|);
  }

  lemma LineReached(w: nat, x: nat, y: int, h: int)
    requires x < w
    ensures y >= h <==> y * w + x >= h * w
  {
    if y >= h {
      Mul(h, y, w);
    } else {
      LinesApart(w, y, h);
    }
  }

  predicate ReadableInfo(f: FontInfo) {
    && f.bits0 <= 8 && f.bits1 <= 8 && f.width <= 8 && f.height <= 8
    && 1 <= f.x <= 8 && 1 <= f.y <= 8 && 1 <= f.delta <= 8
  }

  /** What precedes the runs: the glyph's size, its place and the distance to the
      next glyph. */
  datatype Header = Header(width: int, height: int, x: int, y: int, delta: int)

  function HeaderBits(f: FontInfo): nat {
    f.width + f.height + f.x + f.y + f.delta
  }

  function HeaderAt(d: seq<bool>, pos: nat, f: FontInfo): Header
    requires ReadableInfo(f) && pos + HeaderBits(f) < |d|
  {
    var p1 := pos + f.width;
    var p2 := p1 + f.height;
    var p3 := p2 + f.x;
    var p4 := p3 + f.y;
    Header(I8(Value(d, pos, f.width)), I8(Value(d, p1, f.height)),
           Value(d, p2, f.x) - Pow2(f.x - 1), Value(d, p3, f.y) - Pow2(f.y - 1),
           Value(d, p4, f.delta) - Pow2(f.delta - 1))
  }

  /** The order of the fields, the size first: if the bits at the glyph spell a width and
      then a height, these are the header's. */
  lemma SizeOfSpelling(d: seq<bool>, pos: nat, f: FontInfo, width: nat, height: nat)
    requires ReadableInfo(f) && pos + HeaderBits(f) < |d|
    requires Spells(d, pos, f.width, width) && Spells(d, pos + f.width, f.height, height)
    ensures HeaderAt(d, pos, f).width == I8(width) && HeaderAt(d, pos, f).height == I8(height)
  {
    ValueOfSpelling(d, pos, f.width, width);
    ValueOfSpelling(d, pos + f.width, f.height, height);
  }

  /** Behind the size comes x, moved up by half its field's range ... */
  lemma LeftOfSpelling(d: seq<bool>, pos: nat, px: nat, f: FontInfo, x: int)
    requires ReadableInfo(f) && pos + HeaderBits(f) < |d| && px == pos + f.width + f.height
    requires Spells(d, px, f.x, x + Pow2(f.x - 1))
    ensures HeaderAt(d, pos, f).x == x
  {
    SignedSpelling(d, px, f.x, x);
  }

  /** ... and behind x comes y, likewise. */
  lemma UpOfSpelling(d: seq<bool>, pos: nat, py: nat, f: FontInfo, y: int)
    requires ReadableInfo(f) && pos + HeaderBits(f) < |d| && py == pos + f.width + f.height + f.x
    requires Spells(d, py, f.y, y + Pow2(f.y - 1))
    ensures HeaderAt(d, pos, f).y == y
  {
    SignedSpelling(d, py, f.y, y);
  }

  /** The distance to the next glyph comes last, right before the runs. */
  lemma DeltaOfSpelling(d: seq<bool>, pos: nat, pd: nat, f: FontInfo, delta: int)
    requires ReadableInfo(f) && pos + HeaderBits(f) < |d|
    requires pd == pos + f.width + f.height + f.x + f.y
    requires Spells(d, pd, f.delta, delta + Pow2(f.delta - 1))
    ensures HeaderAt(d, pos, f).delta == delta && pos + HeaderBits(f) == pd + f.delta
  {
    SignedSpelling(d, pd, f.delta, delta);
  }

  /** The bounding box that is tested before a glyph is drawn; right and bottom are
      excluded. */
  datatype Box = Box(x0: byte, y0: byte, x1: byte, y1: byte)

  function BoundingBox(x: byte, y: byte, dir: nat, w: int, h: int): Box {
    match dir
    case 0 => Box(x, y, U8(x + w), U8(y + h))
    case 1 => Box(U8(x - h + 1), y, U8(x + 1), U8(y + w))
    case 2 => Box(U8(x - w + 1), U8(y - h + 1), U8(x + 1), U8(y + 1))
    case _ => Box(x, U8(y - w + 1), U8(x + h), U8(y + 1))
  }

  /** The box is tight: it holds the pixels of the first h lines and no others. */
  lemma BoxIsTight(o: Pixel, dir: nat, w: nat, h: nat, p: Pixel)
    requires dir < 4 && w > 0 && h > 0 && Clear(o, dir, w, h)
    ensures var b, l := BoundingBox(o.x, o.y, dir, w, h), Local(o, dir, p);
            0 <= l.x < w && 0 <= l.y < h <==> b.x0 <= p.x < b.x1 && b.y0 <= p.y < b.y1
  {
  }

  /** No dot of the colour lies beyond position n. */
  predicate NoneBeyond(dots: seq<bool>, colour: bool, n: int) {
    forall k | 0 <= k < |dots| && k >= n :: dots[k] != colour
  }

  /** Every dot of a colour lies in the box exactly if none lies beyond line h. */
  lemma DotsInBox(dots: seq<bool>, colour: bool, w: nat, h: nat)
    requires w > 0
    ensures NoneBeyond(dots, colour, h * w) <==> forall l :: DotAt(dots, w, colour, l) ==> l.y < h
  {
    if NoneBeyond(dots, colour, h * w) {
      forall l | DotAt(dots, w, colour, l) ensures l.y < h {
        LineReached(w, l.x, l.y, h);
      }
    } else {
      var k :| 0 <= k < |dots| && k >= h * w && dots[k] == colour;
      var l := DotNumber(w, k);
      LineReached(w, l.x, l.y, h);
      assert DotAt(dots, w, colour, l);
    }
  }

  function DotNumber(w: nat, k: nat): (l: Pixel)
    requires w > 0
    ensures 0 <= l.x < w && l.y >= 0 && l.y * w + l.x == k
  {
    Pixel(k % w, k / w)
  }

  lemma BoxOutOfSight(c: Canvas, o: Pixel, dir: nat, w: nat, h: nat, p: Pixel)
    requires dir < 4 && w > 0 && h > 0 && Clear(o, dir, w, h) && c.Valid()
    requires var b := BoundingBox(o.x, o.y, dir, w, h); !c.IsIntersection(b.x0, b.y0, b.x1, b.y1)
    ensures var l := Local(o, dir, p); c.Seen(p) ==> !(0 <= l.x < w && 0 <= l.y < h)
  {
    BoxIsTight(o, dir, w, h, p);
    var b := BoundingBox(o.x, o.y, dir, w, h);
    assert b.x0 <= b.x1 && b.y0 <= b.y1;
  }

  lemma NumberOfDot(w: nat, l: Pixel)
    requires 0 <= l.x < w && l.y >= 0
    ensures 0 <= l.y * w + l.x && DotNumber(w, l.y * w + l.x) == l
  {
    Mul(0, l.y, w);
    var m := DotNumber(w, l.y * w + l.x);
    if l.y < m.y {
      LinesApart(w, l.y, m.y);
    } else if m.y < l.y {
      LinesApart(w, m.y, l.y);
    }
  }

  /** Every dot of the colour beyond line h is outside the window or painted already. */
  predicate LateDotsHidden(c: Canvas, before: set<Pixel>, o: Pixel, dir: nat, w: nat, h: int, dots: seq<bool>, colour: bool)
    requires dir < 4 && w > 0
  {
    forall k | 0 <= k < |dots| && k >= h * w && dots[k] == colour ::
      var p := Place(o, dir, DotNumber(w, k)); c.Seen(p) ==> p in before
  }

  /** A dot that shows although the glyph's box misses the window is beyond line h. */
  lemma ShownDotIsLate(c: Canvas, o: Pixel, dir: nat, w: nat, h: int, rows: nat, dots: seq<bool>, colour: bool, p: Pixel)
    requires dir < 4 && w > 0 && h <= rows && Clear(o, dir, w, rows) && c.Valid()
    requires var b := BoundingBox(o.x, o.y, dir, w, h); !c.IsIntersection(b.x0, b.y0, b.x1, b.y1)
    requires c.Seen(p) && DotAt(dots, w, colour, Local(o, dir, p))
    ensures var k := Local(o, dir, p).y * w + Local(o, dir, p).x;
            && 0 <= k < |dots| && k >= h * w && dots[k] == colour && Place(o, dir, DotNumber(w, k)) == p
  {
    var l := Local(o, dir, p);
    NumberOfDot(w, l);
    LocalOfPlace(o, dir, l, p);
    LineReached(w, l.x, l.y, h);
    if l.y < h {
      BoxOutOfSight(c, o, dir, w, h, p);
    }
  }

  lemma LateDotIsThere(o: Pixel, dir: nat, w: nat, dots: seq<bool>, colour: bool, k: nat)
    requires dir < 4 && w > 0 && k < |dots| && dots[k] == colour
    ensures DotAt(dots, w, colour, Local(o, dir, Place(o, dir, DotNumber(w, k))))
  {
    LocalOfPlace(o, dir, DotNumber(w, k), Place(o, dir, DotNumber(w, k)));
  }

  /** A glyph whose box misses the window has nothing more to show exactly if its late
      dots are hidden. */
  lemma SkipLosesNothing(c: Canvas, before: set<Pixel>, o: Pixel, dir: nat, w: nat, h: int, rows: nat,
                         dots: seq<bool>, colour: bool)
    requires dir < 4 && w > 0 && h <= rows && Clear(o, dir, w, rows) && c.Valid()
    requires var b := BoundingBox(o.x, o.y, dir, w, h); !c.IsIntersection(b.x0, b.y0, b.x1, b.y1)
    ensures (forall p :: c.Seen(p) && DotAt(dots, w, colour, Local(o, dir, p)) ==> p in before)
            <==> LateDotsHidden(c, before, o, dir, w, h, dots, colour)
  {
    forall p | c.Seen(p) && DotAt(dots, w, colour, Local(o, dir, p))
      ensures var k := Local(o, dir, p).y * w + Local(o, dir, p).x;
              && 0 <= k < |dots| && k >= h * w && dots[k] == colour && Place(o, dir, DotNumber(w, k)) == p
    {
      ShownDotIsLate(c, o, dir, w, h, rows, dots, colour, p);
    }
    forall k | 0 <= k < |dots| && dots[k] == colour
      ensures DotAt(dots, w, colour, Local(o, dir, Place(o, dir, DotNumber(w, k))))
    {
      LateDotIsThere(o, dir, w, dots, colour, k);
    }
  }

  /** In particular a glyph whose dots of the colour are all in the lines of its box
      loses none of them. */
  lemma BoxedGlyphIsSafe(c: Canvas, o: Pixel, dir: nat, w: nat, h: nat, rows: nat, dots: seq<bool>, colour: bool)
    requires dir < 4 && w > 0 && h <= rows && Clear(o, dir, w, rows) && c.Valid()
    requires var b := BoundingBox(o.x, o.y, dir, w, h); !c.IsIntersection(b.x0, b.y0, b.x1, b.y1)
    requires forall l :: DotAt(dots, w, colour, l) ==> l.y < h
    ensures forall p :: c.Seen(p) ==> !DotAt(dots, w, colour, Local(o, dir, p))
  {
    DotsInBox(dots, colour, w, h);
    SkipLosesNothing(c, {}, o, dir, w, h, rows, dots, colour);
  }

  /** The upper left corner of a glyph with origin o, as the code computes it. */
  function UpperLeft(o: Pixel, dir: nat, x: int, y: int, h: int): Pixel
    requires 0 <= o.x < 256 && 0 <= o.y < 256
  {
    var up := I8(-(h + y));
    Pixel(AddVectorX(o.x, x, up, dir), AddVectorY(o.y, x, up, dir))
  }

  /** It is x to the right of the origin and height + y above it, as seen in the
      direction of drawing. */
  lemma UpperLeftMeans(o: Pixel, dir: nat, x: int, y: int, h: int)
    requires 0 <= o.x < 256 && 0 <= o.y < 256 && InI8(h + y) && h + y > -128
    ensures var p := UpperLeft(o, dir, x, y, h);
            && (dir == 0 ==> p.x == U8(o.x + x) && p.y == U8(o.y - (h + y)))
            && (dir == 1 ==> p.x == U8(o.x + (h + y)) && p.y == U8(o.y + x))
            && (dir == 2 ==> p.x == U8(o.x - x) && p.y == U8(o.y + (h + y)))
            && (dir == 3 ==> p.x == U8(o.x - (h + y)) && p.y == U8(o.y - x))
  {
  }


  // ---- rotation ----

  /** Where the upper left corner of a glyph with origin o lies. */
  function Corner(o: Pixel, dir: nat, hd: Header): Pixel
    requires dir < 4
  {
    Place(o, dir, Pixel(hd.x, -(hd.height + hd.y)))
  }

  /** The pixels of a glyph drawn from origin o: the offsets place its upper left
      corner, the dots follow. */
  predicate GlyphAt(o: Pixel, dir: nat, hd: Header, dots: seq<bool>, colour: bool, p: Pixel)
    requires dir < 4 && hd.width > 0
  {
    DotAt(dots, hd.width, colour, Local(Corner(o, dir, hd), dir, p))
  }

  /** Neither the origin nor the corner nor a line of the glyph wraps. */
  predicate Flat(o: Pixel, dir: nat, hd: Header, rows: nat)
    requires dir < 4 && hd.width > 0
  {
    Inside(o) && InI8(-(hd.height + hd.y)) && Clear(Corner(o, dir, hd), dir, hd.width, rows)
  }

  /** Besides what was painted before, c shows the glyph's dots of the colour. */
  ghost predicate PaintsGlyph(c: Canvas, before: set<Pixel>, wanted: bool, o: Pixel, dir: nat, hd: Header,
                              dots: seq<bool>, colour: bool)
    reads c
    requires dir < 4 && hd.width > 0
  {
    forall p :: p in c.painted <==> p in before || (wanted && c.Seen(p) && GlyphAt(o, dir, hd, dots, colour, p))
  }

  /** Drawing in direction dir turns the glyph by dir quarter turns about its origin. */
  lemma DirectionIsRotation(o: Pixel, dir: nat, hd: Header, dots: seq<bool>, colour: bool, v: Pixel)
    requires dir < 4 && hd.width > 0
    ensures GlyphAt(o, dir, hd, dots, colour, Place(o, dir, v)) <==> GlyphAt(o, 0, hd, dots, colour, Place(o, 0, v))
  {
    var offset := Pixel(hd.x, -(hd.height + hd.y));
    assert Local(Place(o, dir, offset), dir, Place(o, dir, v)) == Pixel(v.x - offset.x, v.y - offset.y);
  }

  /** A glyph painted upright from one origin and in direction dir from another: the
      pixels added are each other's quarter turns, wherever both windows show them. */
  lemma PaintedTurned(upright: Canvas, turned: Canvas, before0: set<Pixel>, before1: set<Pixel>, o: Pixel, o': Pixel,
                      dir: nat, hd: Header, dots: seq<bool>, colour: bool, v: Pixel)
    requires dir < 4 && hd.width > 0
    requires PaintsGlyph(upright, before0, true, o, 0, hd, dots, colour)
    requires PaintsGlyph(turned, before1, true, o', dir, hd, dots, colour)
    requires upright.Seen(Place(o, 0, v)) && Place(o, 0, v) !in before0
    requires turned.Seen(Place(o', dir, v)) && Place(o', dir, v) !in before1
    ensures Place(o', dir, v) in turned.painted <==> Place(o, 0, v) in upright.painted
  {
    DirectionIsRotation(o', dir, hd, dots, colour, v);
    assert Local(Corner(o, 0, hd), 0, Place(o, 0, v)) == Local(Corner(o', 0, hd), 0, Place(o', 0, v));
  }

  /** Without wrapping, the decoder's corner is that corner. */
  lemma UpperLeftIsPlace(o: Pixel, dir: nat, hd: Header)
    requires dir < 4 && Inside(o) && InI8(-(hd.height + hd.y))
    requires Inside(Corner(o, dir, hd))
    ensures UpperLeft(o, dir, hd.x, hd.y, hd.height) == Corner(o, dir, hd)
  {
    AddVectorPlaces(o, dir, Pixel(hd.x, -(hd.height + hd.y)));
  }

  // ---- a glyph that loses a dot ----

  lemma LongRunDots(groups: seq<Group>)
    requires groups == [Group(0, 2, 1)]
    ensures Dots(groups, 1) == [true, true]
  {
    assert Cycles(groups[0], 0) == [];
    assert Cycles(groups[0], 1) == [true, true];
    assert Dots(groups, 0) == [];
  }

  lemma LongRunGroup(d: seq<bool>, pos: nat, g: Group)
    requires pos + 3 < |d| && !d[pos] && d[pos + 1] && !d[pos + 2] && g == Group(0, 2, 1)
    ensures GroupAt(d, pos, 0, 2, g)
  {
    assert Term(d, pos, 2, 0) == 0 && Term(d, pos, 2, 1) == 1;
  }

  lemma OneGroupEncoded(d: seq<bool>, pos: nat, groups: seq<Group>, h: nat, w: nat)
    requires |groups| == 1 && GroupAt(d, pos, 0, 2, groups[0]) && h * w <= |Dots(groups, 1)| < 128 * w
    ensures Encoded(d, pos, 0, 2, w, h, groups)
  {
    assert BitCount(groups, 0, 0, 2) == 0;
    assert EncodedGroup(d, pos, 0, 2, w, h, groups, 0);
  }

  /** One bit for each header field, two for a foreground run. */
  function SmallInfo(): FontInfo {
    FontInfo(0, 2, 1, 1, 1, 1, 1)
  }

  /** One dot wide and one line high, at the origin's line, with one run of two dots. */
  predicate IsSmallGlyph(d: seq<bool>) {
    |d| >= 16 && d[0] && d[1] && d[2] && d[3] && d[4] && !d[5] && d[6] && !d[7]
  }

  lemma SmallHeader(d: seq<bool>)
    requires IsSmallGlyph(d)
    ensures HeaderAt(d, 0, SmallInfo()) == Header(1, 1, 0, 0, 0)
  {
    assert Value(d, 0, 1) == 1 && Value(d, 1, 1) == 1 && Value(d, 2, 1) == 1 && Value(d, 3, 1) == 1 && Value(d, 4, 1) == 1;
  }

  /** A complete glyph as the decoder asks for it ... */
  lemma SmallGlyphIsWellFormed(d: seq<bool>, groups: seq<Group>)
    requires IsSmallGlyph(d) && groups == [Group(0, 2, 1)]
    ensures ReadableInfo(SmallInfo()) && HeaderBits(SmallInfo()) < |d|
    ensures var hd := HeaderAt(d, 0, SmallInfo());
            && hd == Header(1, 1, 0, 0, 0)
            && Encoded(d, HeaderBits(SmallInfo()), 0, 2, hd.width, hd.height, groups)
            && Dots(groups, 1) == [true, true]
  {
    SmallHeader(d);
    LongRunDots(groups);
    LongRunGroup(d, 5, groups[0]);
    OneGroupEncoded(d, 5, groups, 1, 1);
  }

  lemma SmallCorner(hd: Header)
    requires hd == Header(1, 1, 0, 0, 0)
    ensures Corner(Pixel(3, 5), 0, hd) == Pixel(3, 4) && Flat(Pixel(3, 5), 0, hd, 2)
  {
  }

  lemma SecondDot(c: Canvas, o: Pixel, w: nat, dots: seq<bool>)
    requires w == 1 && dots == [true, true] && c.Seen(Pixel(o.x, o.y + 1))
    ensures DotAt(dots, w, true, Local(o, 0, Pixel(o.x, o.y + 1)))
    ensures !LateDotsHidden(c, {}, o, 0, w, 1, dots, true)
  {
    var k := 1;
    assert DotNumber(w, k) == Pixel(0, 1);
    assert Place(o, 0, DotNumber(w, k)) == Pixel(o.x, o.y + 1);
    LateDotIsThere(o, 0, w, dots, true, k);
  }

  /** ... loses a dot when it is drawn from (3, 5): its line is just above the window, so
      it is skipped, and the next line is inside. */
  lemma SkipCanLoseADot(c: Canvas, dots: seq<bool>, hd: Header)
    requires c.visible && c.x0 == 0 && c.x1 == 10 && c.y0 == 5 && c.y1 == 10
    requires dots == [true, true] && hd == Header(1, 1, 0, 0, 0)
    ensures Flat(Pixel(3, 5), 0, hd, 2) && Corner(Pixel(3, 5), 0, hd) == Pixel(3, 4)
    ensures var b := BoundingBox(3, 4, 0, 1, 1); !c.IsIntersection(b.x0, b.y0, b.x1, b.y1)
    ensures !LateDotsHidden(c, {}, Pixel(3, 4), 0, 1, 1, dots, true)
    ensures c.Seen(Pixel(3, 5)) && GlyphAt(Pixel(3, 5), 0, hd, dots, true, Pixel(3, 5))
  {
    SmallCorner(hd);
    SecondDot(c, Pixel(3, 4), hd.width, dots);
  }

  class Decoder {
    const reader: Reader
    /** what is drawn in the foreground colour, and in the background colour */
    const ink: Canvas
    const paper: Canvas
    var targetX: byte
    var targetY: byte
    var x: int
    var y: int
    var width: int
    var height: int
    var transparent: bool
    var dir: nat

    constructor (reader: Reader, ink: Canvas, paper: Canvas, dir: nat, transparent: bool)
      requires dir < 4
      ensures this.reader == reader && this.ink == ink && this.paper == paper
      ensures this.dir == dir && this.transparent == transparent
    {
      this.reader, this.ink, this.paper, this.dir, this.transparent := reader, ink, paper, dir, transparent;
      targetX, targetY, x, y, width, height := 0, 0, 0, 0, 0, 0;
    }

    ghost predicate Valid()
      reads this, reader
    {
      reader.Valid() && ink.Valid() && paper.Valid() && ink != paper && dir < 4
    }

    ghost function Target(): (o: Pixel)
      reads this
      ensures 0 <= o.x < 256 && 0 <= o.y < 256
    {
      Pixel(targetX, targetY)
    }

    /** The local position is inside the glyph's lines. */
    ghost predicate InLine()
      reads this
    {
      0 < width < 128 && 0 <= x < width && 0 <= y < 128
    }

    ghost function Position(): int
      reads this
    {
      y * width + x
    }

    /** Draws a piece of a line of the glyph in one colour. */
    method DrawLine(c: Canvas, lx: nat, ly: nat, len: nat, ghost rows: nat)
      requires c.Valid() && dir < 4 && 0 < width < 128 && lx + len <= width && (len > 0 ==> ly < rows)
      modifies c
      ensures Clear(Target(), dir, width, rows) ==>
        forall p :: p in c.painted <==>
          p in old(c.painted) || (c.Seen(p) && InPiece(lx, ly, len, Local(Target(), dir, p)))
    {
      if Clear(Target(), dir, width, rows) && len > 0 {
        forall p: Pixel { PieceDrawn(c, Target(), dir, width, rows, lx, ly, len, p); }
      }
      c.DrawHVLine(AddVectorX(targetX, lx, ly, dir), AddVectorY(targetY, lx, ly, dir), len, dir);
    }

    method DrawPiece(lx: nat, ly: nat, len: nat, fg: bool, ghost rows: nat)
      requires Valid() && 0 < width < 128 && lx + len <= width && (len > 0 ==> ly < rows)
      modifies ink, paper
      ensures Clear(Target(), dir, width, rows) ==>
        forall p :: p in ink.painted <==>
          p in old(ink.painted)
          || (fg && ink.Seen(p) && InPiece(lx, ly, len, Local(Target(), dir, p)))
      ensures Clear(Target(), dir, width, rows) ==>
        forall p :: p in paper.painted <==>
          p in old(paper.painted)
          || (!fg && !transparent && paper.Seen(p) && InPiece(lx, ly, len, Local(Target(), dir, p)))
    {
      if fg {
        DrawLine(ink, lx, ly, len, rows);
      } else if !transparent {
        DrawLine(paper, lx, ly, len, rows);
      }
    }

    /** c shows a run besides what it showed before. */
    ghost predicate ShowsRun(c: Canvas, before: set<Pixel>, wanted: bool, from: nat, len: nat, rows: nat)
      reads this, c
      requires dir < 4 && width > 0
    {
      Clear(Target(), dir, width, rows) ==>
        forall p :: p in c.painted <==>
          p in before || (wanted && c.Seen(p) && InRun(width, from, len, Local(Target(), dir, p)))
    }

    /** The next piece of a run. */
    method DrawNext(lx: nat, ly: nat, len: nat, fg: bool, ghost rows: nat,
                    ghost inked: set<Pixel>, ghost papered: set<Pixel>, ghost from: nat, ghost done: nat)
      requires Valid() && 0 < width < 128 && lx + len <= width && (len > 0 ==> ly < rows)
      requires ly * width + lx == from + done
      requires ShowsRun(ink, inked, fg, from, done, rows)
      requires ShowsRun(paper, papered, !fg && !transparent, from, done, rows)
      modifies ink, paper
      ensures ShowsRun(ink, inked, fg, from, done + len, rows)
      ensures ShowsRun(paper, papered, !fg && !transparent, from, done + len, rows)
    {
      forall p: Pixel { RunGrows(width, lx, ly, from, done, len, Local(Target(), dir, p)); }
      DrawPiece(lx, ly, len, fg, rows);
    }

    /** One run of the stream, wrapped at the glyph's width. */
    method DecodeLen(len: nat, fg: bool, ghost rows: nat)
      requires Valid() && InLine() && len < 256
      requires Position() + len < 128 * width && Position() + len <= rows * width
      modifies this`x, this`y, ink, paper
      ensures InLine() && Position() == old(Position()) + len
      ensures ShowsRun(ink, old(ink.painted), fg, old(Position()), len, rows)
      ensures ShowsRun(paper, old(paper.painted), !fg && !transparent, old(Position()), len, rows)
    {
      var cnt: nat, lx: nat, ly: nat := len, x, y;
      ghost var from: nat, done: nat := Position(), 0;
      ghost var inked, papered := ink.painted, paper.painted;
      var rem: nat := width - lx;
      while cnt >= rem
        invariant lx < width && rem == width - lx && done + cnt == len && ly * width + lx == from + done
        invariant ShowsRun(ink, inked, fg, from, done, rows)
        invariant ShowsRun(paper, papered, !fg && !transparent, from, done, rows)
        decreases cnt
      {
        NextLine(width, lx, ly, rows);
        DrawNext(lx, ly, rem, fg, rows, inked, papered, from, done);
        done := done + rem;
        cnt := cnt - rem;
        lx := 0;
        ly := ly + 1;
        rem := width - lx;
      }
      NextLine(width, lx, ly, rows);
      DrawNext(lx, ly, cnt, fg, rows, inked, papered, from, done);
      lx := lx + cnt;
      x, y := I8(lx), I8(ly);
    }

    /** c shows the dots of one colour besides what it showed before. */
    ghost predicate Shows(c: Canvas, before: set<Pixel>, wanted: bool, colour: bool, dots: seq<bool>)
      reads this, c
      requires dir < 4 && width > 0
    {
      forall p :: p in c.painted <==>
        p in before || (wanted && c.Seen(p) && DotAt(dots, width, colour, Local(Target(), dir, p)))
    }

    /** Both colours show the dots. */
    ghost predicate Drawn(inked: set<Pixel>, papered: set<Pixel>, dots: seq<bool>, rows: nat)
      reads this, ink, paper
      requires dir < 4 && width > 0
    {
      Clear(Target(), dir, width, rows) ==>
        Shows(ink, inked, true, true, dots) && Shows(paper, papered, !transparent, false, dots)
    }

    method DrawRun(len: nat, fg: bool, ghost rows: nat,
                   ghost inked: set<Pixel>, ghost papered: set<Pixel>, ghost dots: seq<bool>)
      requires Valid() && InLine() && len < 256 && |dots| == Position()
      requires Position() + len < 128 * width && Position() + len <= rows * width
      requires Drawn(inked, papered, dots, rows)
      modifies this`x, this`y, ink, paper
      ensures InLine() && Position() == old(Position()) + len
      ensures Drawn(inked, papered, dots + Repeat(fg, len), rows)
    {
      forall p: Pixel { RunAddsDots(dots, width, fg, len, true, Local(Target(), dir, p)); }
      forall p: Pixel { RunAddsDots(dots, width, fg, len, false, Local(Target(), dir, p)); }
      DecodeLen(len, fg, rows);
    }

    /** One group: its two runs, again and again while a 1 bit follows. */
    method DrawCycles(a: nat, b: nat, ghost g: Group, ghost rows: nat,
                      ghost inked: set<Pixel>, ghost papered: set<Pixel>, ghost dots: seq<bool>)
      requires Valid() && InLine() && a == g.zeros < 256 && b == g.ones < 256 && g.count >= 1
      requires |dots| == Position() && Drawn(inked, papered, dots, rows)
      requires var total := Position() + |Cycles(g, g.count)|; total < 128 * width && total <= rows * width
      requires reader.Position() + g.count < |reader.bits|
      requires RepeatedAt(reader.bits, reader.Position(), g.count)
      modifies this`x, this`y, reader, ink, paper
      ensures Valid() && InLine() && reader.Position() == old(reader.Position()) + g.count
      ensures Position() == |dots + Cycles(g, g.count)|
      ensures Drawn(inked, papered, dots + Cycles(g, g.count), rows)
    {
      var more := true;
      ghost var k, now, bits := 0, dots, reader.Position();
      assert dots == dots + Cycles(g, 0);
      while more
        invariant Valid() && InLine() && 0 <= k <= g.count && (more <==> k < g.count)
        invariant now == dots + Cycles(g, k) && |now| == Position() && reader.Position() == bits + k
        invariant Drawn(inked, papered, now, rows)
        decreases g.count - k
      {
        CyclesGrow(g, k + 1, g.count);
        NextCycle(g, k, dots);
        DrawRun(a, false, rows, inked, papered, now);
        now := now + Repeat(false, a);
        DrawRun(b, true, rows, inked, papered, now);
        now := now + Repeat(true, b);
        var bit := reader.GetUnsignedBits(1);
        more := bit != 0;
        k := k + 1;
      }
    }

    method ReadLengths(info: FontInfo, ghost g: Group) returns (a: nat, b: nat)
      requires reader.Valid() && ReadableInfo(info)
      requires reader.Position() + info.bits0 + info.bits1 < |reader.bits|
      requires LengthsAt(reader.bits, reader.Position(), info.bits0, info.bits1, g)
      modifies reader
      ensures reader.Valid() && a == g.zeros < 256 && b == g.ones < 256
      ensures reader.Position() == old(reader.Position()) + info.bits0 + info.bits1
    {
      a := reader.GetUnsignedBits(info.bits0);
      b := reader.GetUnsignedBits(info.bits1);
    }

    /** One group; there are more if the lines of the glyph are not filled yet. */
    method DrawGroup(info: FontInfo, ghost start: nat, ghost groups: seq<Group>, ghost i: nat, ghost rows: nat,
                     ghost inked: set<Pixel>, ghost papered: set<Pixel>)
      returns (more: bool)
      requires Valid() && InLine() && ReadableInfo(info) && i < |groups|
      requires Position() == |Dots(groups, i)| && Drawn(inked, papered, Dots(groups, i), rows)
      requires |Dots(groups, i + 1)| < 128 * width && |Dots(groups, i + 1)| <= rows * width
      requires EncodedGroup(reader.bits, start, info.bits0, info.bits1, width, height, groups, i)
      requires reader.Position() == start + BitCount(groups, i, info.bits0, info.bits1)
      modifies this`x, this`y, reader, ink, paper
      ensures Valid() && InLine()
      ensures reader.Position() == start + BitCount(groups, i + 1, info.bits0, info.bits1)
      ensures Position() == |Dots(groups, i + 1)| && Drawn(inked, papered, Dots(groups, i + 1), rows)
      ensures more <==> i + 1 < |groups|
    {
      var a, b := ReadLengths(info, groups[i]);
      DrawCycles(a, b, groups[i], rows, inked, papered, Dots(groups, i));
      LineReached(width, x, y, height);
      more := y < height;
    }

    /** The loop over the groups, until the lines of the glyph are filled. */
    method DecodeRuns(info: FontInfo, ghost groups: seq<Group>, ghost rows: nat,
                      ghost inked: set<Pixel>, ghost papered: set<Pixel>)
      requires Valid() && 0 < width < 128 && x == 0 && y == 0 && ReadableInfo(info)
      requires Drawn(inked, papered, [], rows)
      requires Encoded(reader.bits, reader.Position(), info.bits0, info.bits1, width, height, groups)
      requires |Dots(groups, |groups|)| <= rows * width
      modifies this`x, this`y, reader, ink, paper
      ensures Valid() && Drawn(inked, papered, Dots(groups, |groups|), rows)
      ensures reader.Position()
           == old(reader.Position()) + BitCount(groups, |groups|, info.bits0, info.bits1)
    {
      ghost var i, b0, b1, start := 0, info.bits0, info.bits1, reader.Position();
      var more := true;
      while more
        invariant Valid() && InLine() && i <= |groups|
        invariant Position() == |Dots(groups, i)| && Drawn(inked, papered, Dots(groups, i), rows)
        invariant reader.Position() == start + BitCount(groups, i, b0, b1)
        invariant more <==> i < |groups|
        decreases |groups| - i
      {
        NextGroup(reader.bits, start, b0, b1, width, height, groups, i, rows * width);
        more := DrawGroup(info, start, groups, i, rows, inked, papered);
        i := i + 1;
      }
    }

    /** Reads the glyph's size. */
    method SetupDecode(glyph: nat, info: FontInfo)
      requires reader.Valid() && ReadableInfo(info) && 8 * glyph + HeaderBits(info) < |reader.bits|
      modifies this`width, this`height, reader
      ensures reader.Valid() && reader.Position() == 8 * glyph + info.width + info.height
      ensures var hd := HeaderAt(reader.bits, 8 * glyph, info); width == hd.width && height == hd.height
    {
      reader.Seek(glyph);
      var w := reader.GetUnsignedBits(info.width);
      var h := reader.GetUnsignedBits(info.height);
      width, height := I8(w), I8(h);
    }

    method ReadHeader(glyph: nat, info: FontInfo, ghost hd: Header) returns (x: int, y: int, d: int)
      requires reader.Valid() && ReadableInfo(info) && 8 * glyph + HeaderBits(info) < |reader.bits|
      requires hd == HeaderAt(reader.bits, 8 * glyph, info)
      modifies this`width, this`height, reader
      ensures reader.Valid() && reader.Position() == 8 * glyph + HeaderBits(info)
      ensures Header(width, height, x, y, d) == hd
    {
      SetupDecode(glyph, info);
      x := reader.GetSignedBits(info.x);
      y := reader.GetSignedBits(info.y);
      d := reader.GetSignedBits(info.delta);
    }

    ghost predicate InSight()
      reads this
      requires dir < 4
    {
      var b := BoundingBox(targetX, targetY, dir, width, height);
      ink.IsIntersection(b.x0, b.y0, b.x1, b.y1)
    }

    ghost predicate LateHidden(c: Canvas, before: set<Pixel>, colour: bool, dots: seq<bool>)
      reads this
      requires dir < 4 && width > 0
    {
      LateDotsHidden(c, before, Target(), dir, width, height, dots, colour)
    }

    /** A glyph in sight is shown, where no coordinate wraps; one out of sight changes
        nothing, and that shows its dots exactly if the late ones are hidden. */
    ghost predicate Outcome(c: Canvas, before: set<Pixel>, wanted: bool, colour: bool, dots: seq<bool>, rows: nat)
      reads this, c
      requires dir < 4 && width > 0
    {
      && (!InSight() ==> c.painted == before)
      && (Clear(Target(), dir, width, rows) ==>
            (Shows(c, before, wanted, colour, dots) <==> InSight() || !wanted || LateHidden(c, before, colour, dots)))
    }

    lemma SkippedOutcome(c: Canvas, wanted: bool, colour: bool, dots: seq<bool>, rows: nat)
      requires dir < 4 && width > 0 && height <= rows && c.Valid() && !InSight()
      requires ink.x0 == c.x0 && ink.x1 == c.x1 && ink.y0 == c.y0 && ink.y1 == c.y1
      ensures Outcome(c, c.painted, wanted, colour, dots, rows)
    {
      if Clear(Target(), dir, width, rows) {
        SkipLosesNothing(c, c.painted, Target(), dir, width, height, rows, dots, colour);
      }
    }

    /** Draws the glyph's dots from the target position on, or skips them. */
    method DrawDots(info: FontInfo, ghost groups: seq<Group>, ghost rows: nat)
      requires Valid() && ReadableInfo(info) && 0 < width < 128 && height <= rows
      requires ink.x0 == paper.x0 && ink.x1 == paper.x1 && ink.y0 == paper.y0 && ink.y1 == paper.y1
      requires Encoded(reader.bits, reader.Position(), info.bits0, info.bits1, width, height, groups)
      requires |Dots(groups, |groups|)| <= rows * width
      modifies this`x, this`y, reader, ink, paper
      ensures Valid()
      ensures InSight() ==> reader.Position() == old(reader.Position()) + BitCount(groups, |groups|, info.bits0, info.bits1)
      ensures Outcome(ink, old(ink.painted), true, true, Dots(groups, |groups|), rows)
      ensures Outcome(paper, old(paper.painted), !transparent, false, Dots(groups, |groups|), rows)
    {
      var b := BoundingBox(targetX, targetY, dir, width, height);
      if !ink.IsIntersection(b.x0, b.y0, b.x1, b.y1) {
        SkippedOutcome(ink, true, true, Dots(groups, |groups|), rows);
        SkippedOutcome(paper, !transparent, false, Dots(groups, |groups|), rows);
        return;
      }
      x, y := 0, 0;
      NothingDrawn(rows);
      DecodeRuns(info, groups, rows, ink.painted, paper.painted);
    }

    lemma NothingDrawn(rows: nat)
      requires dir < 4 && width > 0
      ensures Drawn(ink.painted, paper.painted, [], rows)
    {
      forall p: Pixel { NoDots(width, true, Local(Target(), dir, p)); }
      forall p: Pixel { NoDots(width, false, Local(Target(), dir, p)); }
    }

    /** From the origin to the glyph's upper left corner. */
    method MoveTarget(x: int, y: int)
      modifies this`targetX, this`targetY
      ensures Target() == UpperLeft(old(Target()), dir, x, y, height)
    {
      var up := I8(-(height + y));
      targetX, targetY := AddVectorX(targetX, x, up, dir), AddVectorY(targetY, x, up, dir);
    }

    /** What is shown from the corner on is the glyph, as placed from the origin. */
    lemma ShownGlyph(c: Canvas, before: set<Pixel>, wanted: bool, o: Pixel, hd: Header, dots: seq<bool>, colour: bool, rows: nat)
      requires dir < 4 && hd.width > 0 && width == hd.width && height == hd.height && Flat(o, dir, hd, rows)
      requires Target() == UpperLeft(o, dir, hd.x, hd.y, height)
      ensures Clear(Target(), dir, width, rows)
      ensures Shows(c, before, wanted, colour, dots) <==> PaintsGlyph(c, before, wanted, o, dir, hd, dots, colour)
    {
      UpperLeftIsPlace(o, dir, hd);
    }

    method DecodeGlyph(glyph: nat, info: FontInfo, ghost hd: Header, ghost groups: seq<Group>, ghost rows: nat)
      returns (d: int)
      requires Valid() && ReadableInfo(info) && 8 * glyph + HeaderBits(info) < |reader.bits|
      requires ink.x0 == paper.x0 && ink.x1 == paper.x1 && ink.y0 == paper.y0 && ink.y1 == paper.y1
      requires hd == HeaderAt(reader.bits, 8 * glyph, info)
      requires hd.width > 0 ==>
        && Encoded(reader.bits, 8 * glyph + HeaderBits(info), info.bits0, info.bits1, hd.width, hd.height, groups)
        && |Dots(groups, |groups|)| <= rows * hd.width && hd.height <= rows
      modifies this, reader, ink, paper
      ensures Valid() && dir == old(dir) && transparent == old(transparent)
      ensures d == hd.delta && width == hd.width && height == hd.height
      ensures Target() == if width > 0 then UpperLeft(old(Target()), dir, hd.x, hd.y, height) else old(Target())
      ensures width <= 0 ==> ink.painted == old(ink.painted) && paper.painted == old(paper.painted)
      ensures width > 0 ==> Outcome(ink, old(ink.painted), true, true, Dots(groups, |groups|), rows)
      ensures width > 0 ==> Outcome(paper, old(paper.painted), !transparent, false, Dots(groups, |groups|), rows)
      ensures width > 0 && Flat(old(Target()), dir, hd, rows) ==>
        && (InSight() || LateHidden(ink, old(ink.painted), true, Dots(groups, |groups|)) <==>
            PaintsGlyph(ink, old(ink.painted), true, old(Target()), dir, hd, Dots(groups, |groups|), true))
        && (InSight() || transparent || LateHidden(paper, old(paper.painted), false, Dots(groups, |groups|)) <==>
            PaintsGlyph(paper, old(paper.painted), !transparent, old(Target()), dir, hd, Dots(groups, |groups|), false))
    {
      ghost var origin, inked, papered := Target(), ink.painted, paper.painted;
      var x, y;
      x, y, d := ReadHeader(glyph, info, hd);
      if width > 0 {
        MoveTarget(x, y);
        DrawDots(info, groups, rows);
        if Flat(origin, dir, hd, rows) {
          ShownGlyph(ink, inked, true, origin, hd, Dots(groups, |groups|), true, rows);
          ShownGlyph(paper, papered, !transparent, origin, hd, Dots(groups, |groups|), false, rows);
        }
      }
    }
  }
}
