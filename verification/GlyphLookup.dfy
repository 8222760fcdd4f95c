/** `u8g2_font_get_glyph_data`: finds a glyph record with the help of jump offsets
    and of a table of Unicode blocks.  Against it stands a plain scan of the whole
    section from its first record. */
module GlyphLookup {

  type byte = b: int | 0 <= b < 256

  datatype Option<T> = None | Some(value: T)

  const LAST_ENCODING := 0xFFFF

  /** The font without its header; offsets count from the first record. */
  datatype Font = Font(data: seq<byte>, upperA: nat, lowerA: nat, unicode: nat)

  function Word(d: seq<byte>, i: nat): nat
    requires i + 1 < |d|
  {
    d[i] as nat * 256 + d[i + 1] as nat
  }

  /** A number written with its high byte first is read back. */
  lemma BigEndian(d: seq<byte>, i: nat, n: nat)
    requires i + 1 < |d| && d[i] as int == n / 256 && d[i + 1] as int == n % 256
    ensures Word(d, i) == n
  {
  }

  /** How the records of a section are laid out: wide records carry a 16-bit
      encoding and end with encoding 0, the others end with size 0. */
  predicate HasHead(d: seq<byte>, wide: bool, i: nat) {
    i + 1 < |d| && (wide && Word(d, i) != 0 ==> i + 2 < |d|)
  }

  predicate AtEnd(d: seq<byte>, wide: bool, i: nat)
    requires HasHead(d, wide, i)
  {
    if wide then Word(d, i) == 0 else d[i + 1] == 0
  }

  function Encoding(d: seq<byte>, wide: bool, i: nat): nat
    requires HasHead(d, wide, i)
  {
    if wide then Word(d, i) else d[i]
  }

  function Size(d: seq<byte>, wide: bool, i: nat): nat
    requires HasHead(d, wide, i) && !AtEnd(d, wide, i)
  {
    if wide then d[i + 2] else d[i + 1]
  }

  /** The section that starts at i is a chain of records that ends inside the data. */
  predicate Chain(d: seq<byte>, wide: bool, i: nat)
    decreases |d| - i
  {
    && HasHead(d, wide, i)
    && (AtEnd(d, wide, i) || (Size(d, wide, i) > 0 && Chain(d, wide, i + Size(d, wide, i))))
  }

  /** The glyph data of the first record for `encoding`. */
  function Scan(d: seq<byte>, wide: bool, i: nat, encoding: nat): Option<nat>
    requires Chain(d, wide, i)
    decreases |d| - i
  {
    if AtEnd(d, wide, i) then None
    else if Encoding(d, wide, i) == encoding then Some(i + if wide then 3 else 2)
    else Scan(d, wide, i + Size(d, wide, i), encoding)
  }

  /** r is a record of the section, and the first for its encoding. */
  predicate FirstRecord(d: seq<byte>, wide: bool, i: nat, r: nat)
    requires Chain(d, wide, i)
    decreases |d| - i
  {
    && !AtEnd(d, wide, i)
    && if r == i then true
       else var next := i + Size(d, wide, i);
         && FirstRecord(d, wide, next, r) && HasHead(d, wide, r)
         && Encoding(d, wide, i) != Encoding(d, wide, r)
  }

  /** The scan returns the data of a record exactly if there is one for the encoding,
      and then of the first one. */
  lemma {:induction false} ScanFinds(d: seq<byte>, wide: bool, i: nat, encoding: nat, r: nat)
    requires Chain(d, wide, i) && HasHead(d, wide, r)
    ensures FirstRecord(d, wide, i, r) && Encoding(d, wide, r) == encoding
       <==> Scan(d, wide, i, encoding) == Some(r + if wide then 3 else 2)
    decreases |d| - i
  {
    if !AtEnd(d, wide, i) {
      ScanFinds(d, wide, i + Size(d, wide, i), encoding, r);
      ScanIsAhead(d, wide, i + Size(d, wide, i), encoding);
    }
  }

  lemma {:induction false} ScanIsAhead(d: seq<byte>, wide: bool, i: nat, encoding: nat)
    requires Chain(d, wide, i)
    ensures Scan(d, wide, i, encoding).Some? ==> Scan(d, wide, i, encoding).value >= i + if wide then 3 else 2
    decreases |d| - i
  {
    if !AtEnd(d, wide, i) {
      ScanIsAhead(d, wide, i + Size(d, wide, i), encoding);
    }
  }

  // ---- records as they are written ----

  datatype Record = Record(encoding: nat, glyph: seq<byte>)

  /** The record fits its format: a narrow one has one byte for the encoding, a wide one
      two, and both have one byte for the size. */
  predicate Fits(r: Record, wide: bool) {
    if wide then 0 < r.encoding < 0x1_0000 && |r.glyph| + 3 < 256 else r.encoding < 256 && |r.glyph| + 2 < 256
  }

  /** What comes before the glyph: the high byte of a wide encoding first. */
  function Head(r: Record, wide: bool): seq<byte>
    requires Fits(r, wide)
  {
    if wide then [r.encoding / 256, r.encoding % 256, |r.glyph| + 3] else [r.encoding, |r.glyph| + 2]
  }

  /** These records have been written to the data from i on. */
  predicate Written(d: seq<byte>, wide: bool, i: nat, records: seq<Record>)
    decreases |records|
  {
    if records == [] then
      i + 1 < |d| && d[i + 1] == 0 && (wide ==> d[i] == 0)
    else
      var r, glyph := records[0], i + if wide then 3 else 2;
      && Fits(r, wide) && glyph + |r.glyph| < |d|
      && d[i..glyph] == Head(r, wide) && d[glyph..glyph + |r.glyph|] == r.glyph
      && Written(d, wide, glyph + |r.glyph|, records[1..])
  }

  /** The records are a chain, and the scan finds the glyph of the first one with the
      encoding if there is one. */
  lemma {:induction false} ScanWritten(d: seq<byte>, wide: bool, i: nat, records: seq<Record>, encoding: nat)
    returns (k: nat)
    requires Written(d, wide, i, records)
    ensures Chain(d, wide, i) && k <= |records| && forall j | 0 <= j < k :: records[j].encoding != encoding
    ensures if k == |records| then Scan(d, wide, i, encoding) == None
            else
              && records[k].encoding == encoding && Scan(d, wide, i, encoding).Some?
              && var p := Scan(d, wide, i, encoding).value;
                 p + |records[k].glyph| <= |d| && d[p..p + |records[k].glyph|] == records[k].glyph
    decreases |records|
  {
    k := 0;
    if records != [] {
      FirstOf(d, wide, i, records);
      var rest, next := records[1..], i + Size(d, wide, i);
      assert forall j | 0 <= j < |rest| :: rest[j] == records[j + 1];
      k := ScanWritten(d, wide, next, rest, encoding);
      ScanStep(d, wide, i, next, encoding);
      k := if records[0].encoding == encoding then 0 else k + 1;
    }
  }

  lemma ScanStep(d: seq<byte>, wide: bool, i: nat, next: nat, encoding: nat)
    requires HasHead(d, wide, i) && !AtEnd(d, wide, i) && Size(d, wide, i) > 0 && next == i + Size(d, wide, i)
    requires Chain(d, wide, next)
    ensures Chain(d, wide, i)
    ensures Scan(d, wide, i, encoding) ==
              if Encoding(d, wide, i) == encoding then Some(i + if wide then 3 else 2) else Scan(d, wide, next, encoding)
  {
  }

  lemma FirstOf(d: seq<byte>, wide: bool, i: nat, records: seq<Record>)
    requires records != [] && Written(d, wide, i, records)
    ensures HasHead(d, wide, i) && !AtEnd(d, wide, i) && Encoding(d, wide, i) == records[0].encoding
    ensures Written(d, wide, i + Size(d, wide, i), records[1..])
    ensures var p := i + if wide then 3 else 2;
            Size(d, wide, i) > 0 && p + |records[0].glyph| <= |d| && d[p..p + |records[0].glyph|] == records[0].glyph
  {
    var head := Head(records[0], wide);
    assert forall j | 0 <= j < |head| :: head[j] == d[i + j];
    assert d[i] == head[0] && d[i + 1] == head[1] && (wide ==> d[i + 2] == head[2]);
  }

  /** The section from i passes only encodings below `limit` before it gets to j. */
  predicate Below(d: seq<byte>, wide: bool, i: nat, j: nat, limit: nat)
    requires Chain(d, wide, i)
    decreases |d| - i
  {
    i == j
    || (!AtEnd(d, wide, i) && Encoding(d, wide, i) < limit && Below(d, wide, i + Size(d, wide, i), j, limit))
  }

  /** Starting at j instead of i loses nothing for encodings from `limit` up. */
  lemma {:induction false} SkipBelow(d: seq<byte>, wide: bool, i: nat, j: nat, limit: nat, encoding: nat)
    requires Chain(d, wide, i) && Below(d, wide, i, j, limit) && encoding >= limit
    ensures Chain(d, wide, j) && Scan(d, wide, i, encoding) == Scan(d, wide, j, encoding)
    decreases |d| - i
  {
    if i != j {
      SkipBelow(d, wide, i + Size(d, wide, i), j, limit, encoding);
    }
  }

  /** A table of Unicode blocks from `table` on: each entry moves `at` forward to the
      next block and gives an encoding that the records before the block after it do
      not exceed; the last entry gives the last encoding there is. */
  predicate BlockTable(d: seq<byte>, table: nat, at: nat, first: nat, passed: nat)
    requires Chain(d, true, first)
    decreases |d| - table
  {
    && table + 3 < |d|
    && Below(d, true, first, at + Word(d, table), passed + 1)
    && (Word(d, table + 2) == LAST_ENCODING
        || BlockTable(d, table + 4, at + Word(d, table), first, Word(d, table + 2)))
  }

  /** The first wide record: the table's first entry leads to it. */
  function FirstWide(f: Font): nat
    requires f.unicode + 1 < |f.data|
  {
    f.unicode + Word(f.data, f.unicode)
  }

  predicate WellFormed(f: Font) {
    && Chain(f.data, false, 0)
    && Below(f.data, false, 0, f.upperA, 'A' as int)
    && Below(f.data, false, 0, f.lowerA, 'a' as int)
    && f.unicode + 1 < |f.data| && Chain(f.data, true, FirstWide(f))
    && BlockTable(f.data, f.unicode, f.unicode, FirstWide(f), 255)
  }

  /** The specification: scan the section from its start. */
  function Lookup(f: Font, encoding: nat): Option<nat>
    requires WellFormed(f)
  {
    if encoding <= 255 then Scan(f.data, false, 0, encoding)
    else Scan(f.data, true, FirstWide(f), encoding)
  }

  method GetGlyphData(f: Font, encoding: nat) returns (r: Option<nat>)
    requires WellFormed(f) && encoding <= LAST_ENCODING
    ensures r == Lookup(f, encoding)
    ensures encoding <= 255 ==> r == Scan(f.data, false, 0, encoding)
    ensures encoding > 255 ==> r == Scan(f.data, true, f.unicode + Word(f.data, f.unicode), encoding)
  {
    var d, font := f.data, 0;
    if encoding <= 255 {
      if encoding >= 'a' as int {
        SkipBelow(d, false, 0, f.lowerA, 'a' as int, encoding);
        font := font + f.lowerA;
      } else if encoding >= 'A' as int {
        SkipBelow(d, false, 0, f.upperA, 'A' as int, encoding);
        font := font + f.upperA;
      }
      while d[font + 1] != 0
        invariant Chain(d, false, font)
        invariant Scan(d, false, font, encoding) == Lookup(f, encoding)
        decreases |d| - font
      {
        if d[font] == encoding {
          return Some(font + 2);
        }
        font := font + d[font + 1];
      }
    } else {
      font := FindBlock(f, encoding);
      var e := Word(d, font);
      while e != 0
        invariant Chain(d, true, font) && e == Word(d, font)
        invariant Scan(d, true, font, encoding) == Lookup(f, encoding)
        decreases |d| - font
      {
        if e == encoding {
          return Some(font + 3);
        }
        font := font + d[font + 2];
        e := Word(d, font);
      }
    }
    return None;
  }

  /** The search of the block table. */
  method FindBlock(f: Font, encoding: nat) returns (font: nat)
    requires WellFormed(f) && 255 < encoding <= LAST_ENCODING
    ensures Chain(f.data, true, font) && Scan(f.data, true, font, encoding) == Lookup(f, encoding)
  {
    var d := f.data;
    font := f.unicode;
    var table: nat, e: nat := font, 255;
    while true
      invariant BlockTable(d, table, font, FirstWide(f), e) && e < encoding
      decreases |d| - table
    {
      SkipBelow(d, true, FirstWide(f), font + Word(d, table), e + 1, encoding);
      font := font + Word(d, table);
      e := Word(d, table + 2);
      table := table + 4;
      if e >= encoding {
        break;
      }
    }
  }
}
