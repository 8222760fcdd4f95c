/** The bit reader of u8g2_font.c: fields of up to eight bits, least significant
    bit first, packed across byte boundaries. */
module BitReading {
  import opened Circles

  predicate BitOf(v: bv8, k: bv8)
    requires k < 8
  {
    (v >> k) & 1 == 1
  }

  /** What the reader makes of the current byte and the next one. */
  function Window(first: bv8, second: bv8, at: bv8, cnt: bv8): bv8
    requires at < 8 && cnt <= 8
  {
    (if at + cnt >= 8 then (first >> at) | (second << (8 - at)) else first >> at) & Mask(cnt)
  }

  function Mask(cnt: bv8): bv8
    requires cnt <= 8
  {
    if cnt == 8 then 0xFF else (1 << cnt) - 1
  }

  lemma WindowBit(first: bv8, second: bv8, at: bv8, cnt: bv8, k: bv8)
    requires at < 8 && cnt <= 8 && k < 8
    ensures BitOf(Window(first, second, at, cnt), k) <==>
              k < cnt && if at + k < 8 then BitOf(first, at + k) else BitOf(second, at + k - 8)
  {
  }

  function BitValue(v: bv8, k: bv8): nat
    requires k < 8
  {
    if BitOf(v, k) then 1 else 0
  }

  /** A byte is the sum of its bits. */
  lemma ByteValue(v: bv8)
    ensures v as nat == BitValue(v, 0) + 2 * BitValue(v, 1) + 4 * BitValue(v, 2) + 8 * BitValue(v, 3)
              + 16 * BitValue(v, 4) + 32 * BitValue(v, 5) + 64 * BitValue(v, 6) + 128 * BitValue(v, 7)
  {
  }

  predicate Bit(d: seq<bv8>, i: nat)
    requires i / 8 < |d|
  {
    BitOf(d[i / 8], (i % 8) as bv8)
  }

  /** The same data as a list of bits. */
  predicate BitsOf(bits: seq<bool>, d: seq<bv8>) {
    && |bits| == 8 * |d|
    && forall i {:trigger Bit(d, i)} | 0 <= i < 8 * |d| :: bits[i] == Bit(d, i)
  }

  function Bits(d: seq<bv8>): (bits: seq<bool>)
    ensures BitsOf(bits, d)
  {
    seq(8 * |d|, i requires 0 <= i < 8 * |d| => Bit(d, i))
  }

  /** Bit k of the n-bit field that starts at bit i; 0 outside the field. */
  function Term(bits: seq<bool>, i: nat, n: nat, k: nat): nat
    requires i + n <= |bits|
  {
    if k < n && bits[i + k] then 1 else 0
  }

  /** The value of a field of up to eight bits, least significant bit first. */
  function Value(d: seq<bool>, i: nat, n: nat): nat
    requires n <= 8 && i + n <= |d|
  {
    Term(d, i, n, 0) + 2 * Term(d, i, n, 1) + 4 * Term(d, i, n, 2) + 8 * Term(d, i, n, 3)
    + 16 * Term(d, i, n, 4) + 32 * Term(d, i, n, 5) + 64 * Term(d, i, n, 6) + 128 * Term(d, i, n, 7)
  }

  lemma BitIndex(ptr: nat, at: bv8, k: bv8)
    requires at < 8 && k < 8
    ensures var i := 8 * ptr + at as nat + k as nat;
            if at + k < 8 then i / 8 == ptr && (i % 8) as bv8 == at + k
            else i / 8 == ptr + 1 && (i % 8) as bv8 == at + k - 8
  {
  }

  function NextByte(d: seq<bv8>, ptr: nat, at: bv8, cnt: bv8): bv8
    requires at < 8 && cnt <= 8 && (at + cnt >= 8 ==> ptr + 1 < |d|)
  {
    if at + cnt >= 8 then d[ptr + 1] else 0
  }

  lemma WindowTerm(bits: seq<bool>, d: seq<bv8>, ptr: nat, at: bv8, cnt: bv8, k: bv8, i: nat)
    requires at < 8 && cnt <= 8 && k < 8 && k as nat == i && BitsOf(bits, d)
    requires ptr < |d| && (at + cnt >= 8 ==> ptr + 1 < |d|)
    requires 8 * ptr + at as nat + cnt as nat <= 8 * |d|
    ensures BitValue(Window(d[ptr], NextByte(d, ptr, at, cnt), at, cnt), k)
         == Term(bits, 8 * ptr + at as nat, cnt as nat, i)
  {
    WindowBit(d[ptr], NextByte(d, ptr, at, cnt), at, cnt, k);
    if k < cnt {
      FieldBit(bits, d, ptr, at, cnt, k, i);
    }
  }

  /** Bit i of the field is in this byte or in the next one. */
  lemma FieldBit(bits: seq<bool>, d: seq<bv8>, ptr: nat, at: bv8, cnt: bv8, k: bv8, i: nat)
    requires at < 8 && k < cnt <= 8 && k as nat == i && BitsOf(bits, d)
    requires ptr < |d| && (at + cnt >= 8 ==> ptr + 1 < |d|)
    requires 8 * ptr + at as nat + i < 8 * |d|
    ensures bits[8 * ptr + at as nat + i] ==
              if at + k < 8 then BitOf(d[ptr], at + k) else BitOf(NextByte(d, ptr, at, cnt), at + k - 8)
  {
    BitIndex(ptr, at, k);
    assert Bit(d, 8 * ptr + at as nat + i) == bits[8 * ptr + at as nat + i];
  }

  lemma WindowSum(bits: seq<bool>, d: seq<bv8>, ptr: nat, at: bv8, cnt: bv8)
    requires at < 8 && cnt <= 8 && BitsOf(bits, d)
    requires ptr < |d| && (at + cnt >= 8 ==> ptr + 1 < |d|)
    requires 8 * ptr + at as nat + cnt as nat <= 8 * |d|
    ensures Window(d[ptr], NextByte(d, ptr, at, cnt), at, cnt) as nat
         == Value(bits, 8 * ptr + at as nat, cnt as nat)
  {
    ByteValue(Window(d[ptr], NextByte(d, ptr, at, cnt), at, cnt));
    WindowTerm(bits, d, ptr, at, cnt, 0, 0);
    WindowTerm(bits, d, ptr, at, cnt, 1, 1);
    WindowTerm(bits, d, ptr, at, cnt, 2, 2);
    WindowTerm(bits, d, ptr, at, cnt, 3, 3);
    WindowTerm(bits, d, ptr, at, cnt, 4, 4);
    WindowTerm(bits, d, ptr, at, cnt, 5, 5);
    WindowTerm(bits, d, ptr, at, cnt, 6, 6);
    WindowTerm(bits, d, ptr, at, cnt, 7, 7);
  }

  /** Reading the window reads the field. */
  lemma WindowValue(bits: seq<bool>, d: seq<bv8>, ptr: nat, at: nat, cnt: nat)
    requires at < 8 && cnt <= 8 && BitsOf(bits, d) && 8 * ptr + at + cnt < |bits|
    ensures ptr < |d| && (at + cnt >= 8 ==> ptr + 1 < |d|)
    ensures at as bv8 + cnt as bv8 >= 8 <==> at + cnt >= 8
    ensures Window(d[ptr], NextByte(d, ptr, at as bv8, cnt as bv8), at as bv8, cnt as bv8) as nat
         == Value(bits, 8 * ptr + at, cnt)
  {
    SmallSum(at, cnt);
    WindowSum(bits, d, ptr, at as bv8, cnt as bv8);
  }

  lemma SmallSum(at: nat, cnt: nat)
    requires at < 8 && cnt <= 8
    ensures at as bv8 < 8 && cnt as bv8 <= 8 && (at as bv8 + cnt as bv8 >= 8 <==> at + cnt >= 8)
    ensures (at as bv8) as nat == at && (cnt as bv8) as nat == cnt
  {
  }

  function Pow2(n: nat): nat
    requires n <= 8
  {
    match n
    case 0 => 1
    case 1 => 2
    case 2 => 4
    case 3 => 8
    case 4 => 16
    case 5 => 32
    case 6 => 64
    case 7 => 128
    case 8 => 256
  }

  lemma ValueBound(d: seq<bool>, i: nat, n: nat)
    requires n <= 8 && i + n <= |d|
    ensures Value(d, i, n) < Pow2(n)
  {
  }

  /** The n bits from i on spell v in binary, least significant bit first. */
  predicate Spells(d: seq<bool>, i: nat, n: nat, v: int)
    decreases n
  {
    if n == 0 then v == 0
    else v >= 0 && i < |d| && (d[i] <==> v % 2 == 1) && Spells(d, i + 1, n - 1, v / 2)
  }

  lemma ValueSplits(d: seq<bool>, i: nat, n: nat)
    requires 1 <= n <= 8 && i + n <= |d|
    ensures Value(d, i, n) == (if d[i] then 1 else 0) + 2 * Value(d, i + 1, n - 1)
  {
  }

  /** Writing a number and reading it back. */
  lemma {:induction false} ValueOfSpelling(d: seq<bool>, i: nat, n: nat, v: int)
    requires n <= 8 && i + n <= |d| && Spells(d, i, n, v)
    ensures Value(d, i, n) == v
    decreases n
  {
    if n > 0 {
      ValueSplits(d, i, n);
      ValueOfSpelling(d, i + 1, n - 1, v / 2);
    }
  }

  lemma SignedSpelling(d: seq<bool>, i: nat, n: nat, v: int)
    requires 1 <= n <= 8 && i + n <= |d| && Spells(d, i, n, v + Pow2(n - 1))
    ensures Value(d, i, n) - Pow2(n - 1) == v
  {
    ValueOfSpelling(d, i, n, v + Pow2(n - 1));
  }

  function HalfBit(cnt: nat): bv8
    requires 1 <= cnt <= 8
  {
    1 << (cnt - 1)
  }

  lemma HalfRange(cnt: nat)
    requires 1 <= cnt <= 8
    ensures HalfBit(cnt) as nat == Pow2(cnt - 1) <= 128 && Pow2(cnt) == 2 * Pow2(cnt - 1)
  {
  }

  /** Both casts to a signed byte may wrap, their difference does not. */
  lemma Centred(value: nat, half: nat)
    requires value < 2 * half && half <= 128
    ensures I8(I8(value) - I8(half)) == value - half
  {
  }

  class Reader {
    const data: seq<bv8>
    ghost const bits: seq<bool>
    var ptr: nat
    var bitPos: nat

    constructor (data: seq<bv8>, ptr: nat)
      ensures Valid() && this.data == data && Position() == 8 * ptr
    {
      this.data, this.ptr, bitPos := data, ptr, 0;
      bits := Bits(data);
    }

    ghost predicate Valid()
      reads this
    {
      bitPos < 8 && BitsOf(bits, data)
    }

    ghost function Position(): nat
      reads this
    {
      8 * ptr + bitPos
    }

    method Seek(to: nat)
      requires Valid()
      modifies this
      ensures Valid() && Position() == 8 * to
    {
      ptr, bitPos := to, 0;
    }

    /** Reads the next `cnt` bits and moves past them.  A field that ends with its
        byte already touches the byte after it. */
    method GetUnsignedBits(cnt: nat) returns (val: nat)
      requires Valid() && cnt <= 8 && Position() + cnt < |bits|
      modifies this
      ensures Valid() && Position() == old(Position()) + cnt
      ensures val == Value(bits, old(Position()), cnt) && val < 256
    {
      val := ReadWindow(bits, data, ptr, bitPos, cnt);
      bitPos := bitPos + cnt;
      if bitPos >= 8 {
        ptr := ptr + 1;
        bitPos := bitPos - 8;
      }
    }

    /** A signed field is stored with its value moved up by half its range. */
    method GetSignedBits(cnt: nat) returns (v: int)
      requires Valid() && 1 <= cnt <= 8 && Position() + cnt < |bits|
      modifies this
      ensures Valid() && Position() == old(Position()) + cnt
      ensures v == Value(bits, old(Position()), cnt) - Pow2(cnt - 1)
      ensures 0 - Pow2(cnt - 1) <= v < Pow2(cnt - 1)
    {
      ghost var value, half := Value(bits, Position(), cnt), Pow2(cnt - 1);
      HalfRange(cnt);
      ValueBound(bits, Position(), cnt);
      var u := GetUnsignedBits(cnt);
      v := I8(u);
      var d := I8(HalfBit(cnt) as int);
      v := I8(v - d);
      Centred(value, half);
    }
  }

  function ReadWindow(ghost bits: seq<bool>, d: seq<bv8>, ptr: nat, at: nat, cnt: nat): (val: nat)
    requires at < 8 && cnt <= 8 && BitsOf(bits, d) && 8 * ptr + at + cnt < |bits|
    ensures val == Value(bits, 8 * ptr + at, cnt) && val < 256
  {
    WindowValue(bits, d, ptr, at, cnt);
    SmallSum(at, cnt);
    Window(d[ptr], NextByte(d, ptr, at as bv8, cnt as bv8), at as bv8, cnt as bv8) as nat
  }
}
