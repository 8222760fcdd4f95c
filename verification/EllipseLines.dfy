/** Ellipses with one radius zero, straight lines: when the loops of `u8g2_draw_ellipse`
    plot them whole, and when they end at all. */
module EllipseLines {
  import opened Painting
  import opened Circles
  import opened EllipseCurves
  import opened EllipseBounds
  import opened EllipseRanges

  lemma LineStarts(m: byte)
    ensures First16(m, 0) == Values(0, I16(m * m), 0, 0, 0) && First16(0, m) == Values(I16(m * m), 0, 0, 0, 0)
    ensures TwiceSquare(0) == 0
  {
    assert (1 - m - m) * 0 == 0;
  }

  /** A straight line, one radius zero, is one point to either loop.  The code plots
      just that exactly if the starting values fit. */
  lemma LineIsWholeExactly(m: byte)
    requires m > 0
    ensures CodeRun(m, 0, [m]) && CodeRun(0, m, [0]) <==> Fits(m, 0)
  {
    LineStarts(m);
    LinePasses(m);
    SquareInRange(m);
  }

  lemma LinePasses(m: byte)
    requires First16(m, 0) == Values(0, I16(m * m), 0, 0, 0) && First16(0, m) == Values(I16(m * m), 0, 0, 0, 0)
    requires TwiceSquare(0) == 0
    ensures CodeRun(m, 0, [m]) <==> TwiceSquare(m) > 0
    ensures CodeRun(0, m, [0]) <==> I16(m * m) > 0 && I16(-TwiceSquare(m)) < 0
  {
    assert Goes16(m, 0, 0) && Goes16(0, m, 0);
    assert Goes16(m, 0, 1) <==> TwiceSquare(m) <= 0;
    assert Goes16(0, m, 1) <==> !(I16(m * m) > 0 && I16(-TwiceSquare(m)) < 0);
  }

  lemma SquareInRange(m: byte)
    requires m > 0
    ensures TwiceSquare(m) > 0 && I16(m * m) > 0 <==> m * m * 2 <= 32767
    ensures TwiceSquare(m) > 0 ==> I16(-TwiceSquare(m)) < 0
  {
    Products(m, 255);
  }

  // ---- ending ----

  /** The first pass that is not entered is the end. */
  lemma StopsAt(ru: nat, rv: nat, n: nat)
    requires !Goes16(ru, rv, n)
    ensures Ends(ru, rv)
  {
    if k :| 0 <= k < n && !Goes16(ru, rv, k) {
      StopsAt(ru, rv, k);
    } else {
      assert EndsAt(ru, rv, n);
    }
  }

  lemma NeverStops(ru: nat, rv: nat)
    requires forall n: nat :: Goes16(ru, rv, n)
    ensures !Ends(ru, rv)
  {
    forall n: nat ensures !EndsAt(ru, rv, n) {
      assert Goes16(ru, rv, n);
    }
  }

  // Where the radius to be lowered is the positive one, stopu stays 0.

  lemma {:induction false} FlatStops(m: byte, n: nat)
    ensures State16(m, 0, n).stopu == 0 && State16(m, 0, n).stopv == I16((2 * (m * m)) * n)
  {
    LineStarts(m);
    if n > 0 {
      FlatStops(m, n - 1);
      var d := 2 * (m * m);
      TwiceSquareStored(m, d);
      FlatStep(State16(m, 0, n - 1), d * (n - 1), d, TwiceSquare(m));
      NextMultiple(d, n);
    }
  }

  lemma TwiceSquareStored(m: byte, d: int)
    requires d == 2 * (m * m)
    ensures TwiceSquare(m) == I16(d)
  {
    StoreProduct(m * m, 2);
  }

  lemma NextMultiple(d: int, n: nat)
    requires n > 0
    ensures d * n == d * (n - 1) + d
  {
  }

  lemma FlatStep(s: Values, a: int, d: int, q2: int)
    requires s.stopu == 0 && s.stopv == I16(a) && q2 == I16(d)
    ensures Next16(0, q2, s).stopu == 0 && Next16(0, q2, s).stopv == I16(a + d)
  {
    StoreSum(a, d);
  }

  lemma TwiceSquareClass(m: byte)
    requires m > 0 && m != 128
    ensures I16(2 * (m * m)) != 0 && I16(2 * (m * m)) != -32768
  {
    Products(m, 255);
    if m < 128 {
      Products(m, 127);
    } else if m <= 181 {
      Products(129, m);
      Products(m, 181);
    } else if m <= 221 {
      Products(182, m);
      Products(m, 221);
    } else {
      Products(222, m);
    }
  }

  lemma HalfMultiples(n: nat)
    ensures I16(32768 * n) <= 0
  {
    assert 32768 * n == (n % 2) * 32768 + 65536 * (n / 2);
    SameResidue((n % 2) * 32768, n / 2);
  }

  lemma Flat128(n: nat)
    ensures Goes16(128, 0, n)
  {
    FlatStops(128, n);
    HalfMultiples(n);
  }

  lemma FlatEnds(m: byte, d: nat)
    requires m > 0 && m != 128 && d == 2 * (m * m)
    ensures Ends(m, 0)
  {
    TwiceSquareClass(m);
    if I16(d) > 0 {
      FlatStops(m, 1);
      StopsAt(m, 0, 1);
    } else {
      OppositeMultiple(d);
      FlatStops(m, 65535);
      StopsAt(m, 0, 65535);
    }
  }

  lemma OppositeMultiple(d: nat)
    requires -32768 < I16(d) < 0
    ensures I16(d * 65535) > 0
  {
    assert d * 65535 == (0 - d) + 65536 * d;
    SameResidue(0 - d, d);
    NegativeStore(d);
  }

  lemma NegativeStore(d: int)
    requires -32768 < I16(d) < 0
    ensures I16(-d) > 0
  {
    StoreSum(0, d);
  }

  /** The loop along a horizontal line never ends at radius 128 only. */
  lemma FlatLineEnds(m: byte)
    requires m > 0
    ensures Ends(m, 0) <==> m != 128
  {
    if m == 128 {
      forall n: nat ensures Goes16(128, 0, n) {
        Flat128(n);
      }
      NeverStops(128, 0);
    } else {
      FlatEnds(m, 2 * (m * m));
    }
  }

  // In the other loop u is lowered below zero, again and again.

  predicate LineLowers(m: nat, j: nat) {
    2 * I16((m * m) * (j * j)) + I16((m * m) * (2 * j + 1)) > 0
  }

  /** The values after j passes that all lowered u. */
  function LineState(m: nat, j: nat): Values {
    Values(I16((m * m) * (2 * j + 1)), 0, I16((m * m) * (j * j)), I16(-(2 * (m * m)) * j), 0)
  }

  lemma StepOnStores(a: int, b: int, c: int, p2: int, s: Values)
    requires s == Values(I16(a), 0, I16(b), I16(c), 0)
    ensures Lowers16(s) <==> 2 * I16(b) + I16(a) > 0
    ensures Lowers16(s) ==> Next16(I16(p2), 0, s) == Values(I16(a + p2), 0, I16(b + a), I16(c - p2), 0)
    ensures !Lowers16(s) ==> Next16(I16(p2), 0, s) == s
  {
    StoreSum(a, p2);
    StoreSum(b, a);
    StoreSum(c, p2);
  }

  lemma LineProducts(p: nat, j: nat)
    ensures p * ((j + 1) * (j + 1)) == p * (j * j) + p * (2 * j + 1)
    ensures p * (2 * (j + 1) + 1) == p * (2 * j + 1) + 2 * p
    ensures -(2 * p) * (j + 1) == -(2 * p) * j - 2 * p
  {
    assert (j + 1) * (j + 1) == j * j + (2 * j + 1);
  }

  lemma LineStep(m: nat, j: nat)
    ensures Lowers16(LineState(m, j)) <==> LineLowers(m, j)
    ensures LineLowers(m, j) ==> Next16(TwiceSquare(m), 0, LineState(m, j)) == LineState(m, j + 1)
    ensures !LineLowers(m, j) ==> Next16(TwiceSquare(m), 0, LineState(m, j)) == LineState(m, j)
  {
    var p := m * m;
    StoreProduct(p, 2);
    LineProducts(p, j);
    StepOnStores(p * (2 * j + 1), p * (j * j), -(2 * p) * j, 2 * p, LineState(m, j));
  }

  /** The first line that does not lower u is the last one that changes anything. */
  lemma {:induction false} LineStateAt(m: byte, k: nat, n: nat)
    requires forall i | 0 <= i < k :: LineLowers(m, i)
    requires n > k ==> !LineLowers(m, k)
    ensures State16(0, m, n) == LineState(m, if n < k then n else k)
  {
    LineStarts(m);
    if n == 0 {
      assert (m * m) * (2 * 0 + 1) == m * m && (m * m) * (0 * 0) == 0;
    } else {
      LineStateAt(m, k, n - 1);
      LineStep(m, if n - 1 < k then n - 1 else k);
    }
  }

  lemma NeverEndsIfStuck(m: byte, k: nat)
    requires !LineLowers(m, k)
    requires forall i | 0 <= i < k :: LineLowers(m, i)
    requires forall i | 0 <= i <= k :: LineState(m, i).stopu >= 0
    ensures !Ends(0, m)
  {
    forall n: nat ensures Goes16(0, m, n) {
      LineStateAt(m, k, n);
    }
    NeverStops(0, m);
  }

  /** Negative stop values after one or two passes end the loop. */
  lemma EndsByStop(m: byte, k: nat)
    requires forall i | 0 <= i < k :: LineLowers(m, i)
    requires LineState(m, k).stopu < 0
    ensures Ends(0, m)
  {
    LineStateAt(m, k, k);
    StopsAt(0, m, k);
  }

  lemma ShortLineEnds(m: byte)
    requires 0 < m <= 128
    ensures Ends(0, m)
  {
    var p := m * m;
    Products(m, 128);
    Products(1, m);
    assert p * (2 * 0 + 1) == p && p * (0 * 0) == 0 && -(2 * p) * 1 == -(2 * p);
    EndsByStop(m, 1);
  }

  lemma FirstProducts(p: nat)
    ensures p * (0 * 0) == 0 && p * (1 * 1) == p && p * (2 * 2) == 4 * p
    ensures p * (2 * 0 + 1) == p && p * (2 * 1 + 1) == 3 * p && p * (2 * 2 + 1) == 5 * p
    ensures -(2 * p) * 0 == 0 && -(2 * p) * 1 == -2 * p && -(2 * p) * 2 == -4 * p
  {
  }

  lemma FirstLines(m: nat, p: nat)
    requires p == m * m
    ensures LineLowers(m, 0) <==> I16(p) > 0
    ensures LineLowers(m, 1) <==> 2 * I16(p) + I16(3 * p) > 0
    ensures LineLowers(m, 2) <==> 2 * I16(4 * p) + I16(5 * p) > 0
    ensures LineState(m, 0).stopu == 0
    ensures LineState(m, 1).stopu == I16(-2 * p) && LineState(m, 2).stopu == I16(-4 * p)
  {
    FirstProducts(p);
  }

  lemma MiddlingLineValues(p: nat)
    requires 16641 <= p <= 24336
    ensures I16(p) == p && I16(3 * p) == 3 * p - 65536 && I16(-4 * p) < 0
  {
  }

  lemma MiddlingLineEnds(m: byte)
    requires 129 <= m <= 156
    ensures Ends(0, m)
  {
    Products(129, m);
    Products(m, 156);
    FirstLines(m, m * m);
    MiddlingLineValues(m * m);
    assert LineLowers(m, 0) && LineLowers(m, 1);
    EndsByStop(m, 2);
  }

  /** The loop lowers u in the lines before k, with a stop value that is not negative. */
  predicate LowersBefore(m: nat, k: nat) {
    k > 0 ==> LineLowers(m, k - 1) && LineState(m, k - 1).stopu >= 0 && LowersBefore(m, k - 1)
  }

  lemma {:induction false} LowersAll(m: nat, k: nat, i: nat)
    requires LowersBefore(m, k) && i < k
    ensures LineLowers(m, i) && LineState(m, i).stopu >= 0
  {
    if i < k - 1 {
      LowersAll(m, k - 1, i);
    }
  }

  lemma StuckInLine(m: byte, k: nat)
    requires LowersBefore(m, k) && !LineLowers(m, k) && LineState(m, k).stopu >= 0
    ensures !Ends(0, m)
  {
    forall i | 0 <= i < k ensures LineLowers(m, i) && LineState(m, i).stopu >= 0 {
      LowersAll(m, k, i);
    }
    NeverEndsIfStuck(m, k);
  }

  lemma LongLineValues(p: nat)
    requires 24649 <= p <= 29929
    ensures I16(p) == p && I16(3 * p) == 3 * p - 65536
    ensures I16(4 * p) == 4 * p - 131072 && I16(5 * p) <= 5 * p - 131072
    ensures I16(-2 * p) == 65536 - 2 * p && I16(-4 * p) == 131072 - 4 * p
  {
  }

  lemma LongLine(m: nat, p: nat)
    requires p == m * m && 24649 <= p <= 29929
    ensures LineLowers(m, 0) && LineLowers(m, 1) && !LineLowers(m, 2)
    ensures LineState(m, 0).stopu >= 0 && LineState(m, 1).stopu >= 0 && LineState(m, 2).stopu >= 0
  {
    FirstLines(m, p);
    LongLineValues(p);
  }

  lemma TwoLowered(m: nat)
    requires LineLowers(m, 0) && LineLowers(m, 1) && LineState(m, 0).stopu >= 0 && LineState(m, 1).stopu >= 0
    ensures LowersBefore(m, 2)
  {
    assert LowersBefore(m, 0) && LowersBefore(m, 1);
  }

  lemma LongLineStuck(m: byte)
    requires 157 <= m <= 173
    ensures !Ends(0, m)
  {
    Products(157, m);
    Products(m, 173);
    LongLine(m, m * m);
    TwoLowered(m);
    StuckInLine(m, 2);
  }

  lemma Stuck174()
    ensures !Ends(0, 174)
  {
    StuckInLine(174, 5);
  }

  lemma Stuck175()
    ensures !Ends(0, 175)
  {
    StuckInLine(175, 5);
  }

  lemma Stuck176()
    ensures !Ends(0, 176)
  {
    StuckInLine(176, 4);
  }

  lemma Stuck177()
    ensures !Ends(0, 177)
  {
    StuckInLine(177, 4);
  }

  lemma Stuck178()
    ensures !Ends(0, 178)
  {
    StuckInLine(178, 4);
  }

  lemma Stuck179()
    ensures !Ends(0, 179)
  {
    StuckInLine(179, 6);
  }

  lemma Stuck180()
    ensures !Ends(0, 180)
  {
    StuckInLine(180, 8);
  }

  lemma LongerLineStuck(m: byte)
    requires 174 <= m <= 180
    ensures !Ends(0, m)
  {
    match m
    case 174 => Stuck174();
    case 175 => Stuck175();
    case 176 => Stuck176();
    case 177 => Stuck177();
    case 178 => Stuck178();
    case 179 => Stuck179();
    case _ => Stuck180();
  }

  lemma Square181(j: nat, jj: nat, h: nat, hh: nat)
    requires jj == (if j % 2 == 0 then 4 * hh else 4 * hh + 4 * h + 1) && jj <= 2304
    ensures I16(32761 * jj) == if j % 2 == 0 then -7 * jj else 32768 - 7 * jj
  {
    if j % 2 == 0 {
      SameResidue(-7 * jj, 2 * hh);
    } else {
      SameResidue(32768 - 7 * jj, 2 * hh + 2 * h);
    }
  }

  lemma SquareByHalf(j: nat, h: nat)
    requires h == j / 2
    ensures j * j == if j % 2 == 0 then 4 * (h * h) else 4 * (h * h) + 4 * h + 1
  {
    assert j == 2 * h || j == 2 * h + 1;
  }

  lemma Change181(j: nat)
    requires j <= 48
    ensures I16(32761 * (2 * j + 1)) == 32761 - 14 * j && I16(-65522 * j) == 14 * j
  {
    SameResidue(32761 - 14 * j, j);
    SameResidue(14 * j, 0 - j);
  }

  lemma Lowers181(j: nat, jj: nat)
    requires jj == j * j && j <= 48
    ensures jj <= 2304
    ensures 2 * (if j % 2 == 0 then -7 * jj else 32768 - 7 * jj) + (32761 - 14 * j) > 0 <==> j < 48
  {
    Products(j, 48);
    if j <= 46 {
      Products(j, 46);
    }
  }

  /** At radius 181, where twice the square is 14 below a multiple of 65536. */
  lemma Line181(j: nat)
    requires j <= 48
    ensures LineLowers(181, j) <==> j < 48
    ensures LineState(181, j).stopu == 14 * j
  {
    Lowers181(j, j * j);
    SquareByHalf(j, j / 2);
    Square181(j, j * j, j / 2, (j / 2) * (j / 2));
    Change181(j);
  }

  lemma Line181Stuck()
    ensures !Ends(0, 181)
  {
    forall i | 0 <= i <= 48 ensures (LineLowers(181, i) <==> i < 48) && LineState(181, i).stopu >= 0 {
      Line181(i);
    }
    NeverEndsIfStuck(181, 48);
  }

  /** From radius 182 on the change of err has wrapped to a negative number. */
  lemma LongestLineStuck(m: byte)
    requires 182 <= m
    ensures !Ends(0, m)
  {
    Products(182, m);
    Products(m, 255);
    FirstProducts(m * m);
    NeverEndsIfStuck(m, 0);
  }

  /** The loop along a vertical line ends exactly for radii up to 156. */
  lemma SteepLineEnds(m: byte)
    requires m > 0
    ensures Ends(0, m) <==> m <= 156
  {
    if m <= 128 {
      ShortLineEnds(m);
    } else if m <= 156 {
      MiddlingLineEnds(m);
    } else if m <= 173 {
      LongLineStuck(m);
    } else if m <= 180 {
      LongerLineStuck(m);
    } else if m == 181 {
      Line181Stuck();
    } else {
      LongestLineStuck(m);
    }
  }
}
