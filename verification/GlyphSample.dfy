/** One glyph in full, from its bytes to its pixels: four dots wide and one line high,
    one to the right of the origin and right below it, a background and a foreground dot
    drawn twice. */
module GlyphSample {
  import opened Painting
  import opened BitReading
  import opened GlyphDecoding

  const SampleBytes: seq<bv8> := [0xFC, 0x76, 0x01, 0x00]

  const SampleInfo := FontInfo(1, 2, 3, 1, 2, 3, 4)

  const SampleHeader := Header(4, 1, 1, -1, 3)

  predicate HeaderFields(d: seq<bool>) {
    && |d| == 32 && !d[0] && !d[1] && d[2] && d[3] && d[4] && d[5] && d[6] && d[7]
    && !d[8] && d[9] && d[10] && !d[11] && d[12]
  }

  predicate RunFields(d: seq<bool>) {
    |d| == 32 && d[13] && d[14] && !d[15] && d[16] && !d[17]
  }

  lemma SampleBits(bits: seq<bool>)
    requires BitsOf(bits, SampleBytes)
    ensures HeaderFields(bits) && RunFields(bits)
  {
    FirstByte(bits);
    SecondByte(bits);
    assert bits[16] == Bit(SampleBytes, 16) && bits[17] == Bit(SampleBytes, 17);
  }

  lemma FirstByte(bits: seq<bool>)
    requires BitsOf(bits, SampleBytes)
    ensures !bits[0] && !bits[1] && bits[2] && bits[3] && bits[4] && bits[5] && bits[6] && bits[7]
  {
    assert !Bit(SampleBytes, 0) && !Bit(SampleBytes, 1) && Bit(SampleBytes, 2) && Bit(SampleBytes, 3);
    assert Bit(SampleBytes, 4) && Bit(SampleBytes, 5) && Bit(SampleBytes, 6) && Bit(SampleBytes, 7);
  }

  lemma SecondByte(bits: seq<bool>)
    requires BitsOf(bits, SampleBytes)
    ensures !bits[8] && bits[9] && bits[10] && !bits[11] && bits[12] && bits[13] && bits[14] && !bits[15]
  {
    assert !Bit(SampleBytes, 8) && Bit(SampleBytes, 9) && Bit(SampleBytes, 10) && !Bit(SampleBytes, 11);
    assert Bit(SampleBytes, 12) && Bit(SampleBytes, 13) && Bit(SampleBytes, 14) && !Bit(SampleBytes, 15);
  }

  lemma SampleFields(d: seq<bool>)
    requires HeaderFields(d)
    ensures HeaderBits(SampleInfo) == 13 && HeaderAt(d, 0, SampleInfo) == SampleHeader
  {
    assert Value(d, 0, 3) == 4 && Value(d, 3, 1) == 1 && Value(d, 4, 2) == 3;
    assert Value(d, 6, 3) == 3 && Value(d, 9, 4) == 11;
  }

  lemma SampleRuns(d: seq<bool>, groups: seq<Group>)
    requires RunFields(d) && groups == [Group(1, 1, 2)]
    ensures Dots(groups, 1) == [false, true, false, true]
    ensures Encoded(d, 13, 1, 2, 4, 1, groups)
  {
    var g := groups[0];
    assert Cycles(g, 0) == [];
    assert Cycles(g, 1) == [false, true];
    assert Cycles(g, 2) == [false, true, false, true];
    assert Dots(groups, 0) == [];
    assert Term(d, 13, 1, 0) == 1 && Term(d, 14, 2, 0) == 1 && Term(d, 14, 2, 1) == 0;
    assert BitCount(groups, 0, 1, 2) == 0;
    assert EncodedGroup(d, 13, 1, 2, 4, 1, groups, 0);
  }

  /** Its four dots lie right of (11, 10), background first. */
  lemma SamplePixels(dots: seq<bool>, colour: bool, p: Pixel)
    requires dots == [false, true, false, true]
    ensures GlyphAt(Pixel(10, 10), 0, SampleHeader, dots, colour, p) <==>
              p.y == 10 && if colour then p.x == 12 || p.x == 14 else p.x == 11 || p.x == 13
  {
  }

  function SampleDots(wanted: bool, colour: bool): set<Pixel> {
    if !wanted then {} else if colour then {Pixel(12, 10), Pixel(14, 10)} else {Pixel(11, 10), Pixel(13, 10)}
  }

  lemma SampleDot(c: Canvas, wanted: bool, dots: seq<bool>, colour: bool, p: Pixel)
    requires dots == [false, true, false, true]
    requires c.visible && c.x0 == 0 && c.x1 == 128 && c.y0 == 0 && c.y1 == 64
    requires PaintsGlyph(c, {}, wanted, Pixel(10, 10), 0, SampleHeader, dots, colour)
    ensures p in c.painted <==> p in SampleDots(wanted, colour)
  {
    SamplePixels(dots, colour, p);
    assert p in c.painted <==> wanted && c.Seen(p) && GlyphAt(Pixel(10, 10), 0, SampleHeader, dots, colour, p);
  }

  /** The decoder is set up for the glyph, at (10, 10), with nothing painted. */
  ghost predicate Ready(decoder: Decoder)
    reads decoder, decoder.reader, decoder.ink, decoder.paper
  {
    && decoder.Valid() && decoder.dir == 0 && decoder.Target() == Pixel(10, 10)
    && decoder.reader.data == SampleBytes
    && SampleWindow(decoder.ink) && SampleWindow(decoder.paper)
  }

  ghost predicate SampleWindow(c: Canvas)
    reads c
  {
    c.painted == {} && c.visible && c.x0 == 0 && c.x1 == 128 && c.y0 == 0 && c.y1 == 64
  }

  lemma InView(decoder: Decoder)
    requires decoder.ink.visible && decoder.ink.x0 == 0 && decoder.ink.x1 == 128
    requires decoder.ink.y0 == 0 && decoder.ink.y1 == 64
    requires decoder.dir == 0 && decoder.width == 4 && decoder.height == 1
    requires decoder.Target() == UpperLeft(Pixel(10, 10), 0, 1, -1, 1)
    ensures decoder.InSight()
  {
  }

  method DecodeSample(decoder: Decoder, ghost groups: seq<Group>) returns (d: int)
    requires Ready(decoder) && groups == [Group(1, 1, 2)]
    modifies decoder, decoder.reader, decoder.ink, decoder.paper
    ensures d == 3 && Dots(groups, 1) == [false, true, false, true]
    ensures PaintsGlyph(decoder.ink, {}, true, Pixel(10, 10), 0, SampleHeader, Dots(groups, 1), true)
    ensures PaintsGlyph(decoder.paper, {}, !old(decoder.transparent), Pixel(10, 10), 0, SampleHeader, Dots(groups, 1), false)
  {
    SampleBits(decoder.reader.bits);
    SampleFields(decoder.reader.bits);
    SampleRuns(decoder.reader.bits, groups);
    SampleFlat();
    d := decoder.DecodeGlyph(0, SampleInfo, SampleHeader, groups, 1);
    InView(decoder);
  }

  lemma SampleFlat()
    ensures Flat(Pixel(10, 10), 0, SampleHeader, 1)
  {
  }

  /** Decoding the bytes paints the four dots and returns the distance to the next glyph. */
  method DrawSample(transparent: bool) returns (ink: Canvas, paper: Canvas, d: int)
    ensures d == 3
    ensures ink.painted == {Pixel(12, 10), Pixel(14, 10)}
    ensures paper.painted == if transparent then {} else {Pixel(11, 10), Pixel(13, 10)}
  {
    var reader := new Reader(SampleBytes, 0);
    ink := new Canvas(0, 128, 0, 64, true);
    paper := new Canvas(0, 128, 0, 64, true);
    var decoder := new Decoder(reader, ink, paper, 0, transparent);
    decoder.targetX, decoder.targetY := 10, 10;
    ghost var groups := [Group(1, 1, 2)];
    d := DecodeSample(decoder, groups);
    forall p: Pixel { SampleDot(ink, true, Dots(groups, 1), true, p); }
    forall p: Pixel { SampleDot(paper, !transparent, Dots(groups, 1), false, p); }
  }
}
