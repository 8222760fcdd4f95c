/** The radii for which the circle and disc loops, in eight bits, plot what exact ones
    would: those of `ExactRadius` and no others. */
module CircleExactness {
  import opened Circles

  /** The values after n passes in eight bits, as long as the loop goes on. */
  function CodeAt(r: nat, n: nat): Running {
    if n == 0 then Running(I8(1 - r), 1, I8(2 * I8(0 - r)), 0, r)
    else
      var s := CodeAt(r, n - 1);
      if s.x < s.y then NextRunning(s) else s
  }

  /** The row of the circle's pixel in column n. */
  function RowAt(r: nat, n: nat): nat {
    if n == 0 then r
    else
      var y := RowAt(r, n - 1);
      if n - 1 < y then NextRow(r, n - 1, y) else y
  }

  /** The exact loop gets to its n-th pass. */
  ghost predicate GoesTo(r: nat, n: nat) {
    forall k | 0 <= k < n :: k < RowAt(r, k)
  }

  ghost predicate PlotsCircle(r: nat) {
    forall n: nat | GoesTo(r, n) :: CodeAt(r, n).x == n && CodeAt(r, n).y == RowAt(r, n)
  }

  predicate SameAt(r: nat, n: nat) {
    TracksWrapped(r, CodeAt(r, n)) && CodeAt(r, n).x == n && CodeAt(r, n).y == RowAt(r, n)
  }

  predicate FitsAt(r: nat, n: nat) {
    InI8(Excess(r, n, RowAt(r, n)))
  }

  lemma SameNext(r: nat, n: nat)
    requires SameAt(r, n) && FitsAt(r, n) && n < RowAt(r, n)
    ensures SameAt(r, n + 1)
  {
    PassTracks(r, CodeAt(r, n));
  }

  lemma {:induction false} Follows(r: nat, n: nat)
    requires GoesTo(r, n) && forall k | 0 <= k < n && SameAt(r, k) :: FitsAt(r, k)
    ensures SameAt(r, n)
  {
    if n == 0 {
      StartTracks(r);
    } else {
      Follows(r, n - 1);
      SameNext(r, n - 1);
    }
  }

  lemma ExactPlots(r: nat)
    requires ExactRadius(r)
    ensures PlotsCircle(r)
  {
    forall n: nat | GoesTo(r, n) ensures SameAt(r, n) {
      forall k | 0 <= k < n && SameAt(r, k) ensures FitsAt(r, k) {
        ExcessFits(r, k, RowAt(r, k));
      }
      Follows(r, n);
    }
  }

  /** The row stays at the top while the column's square is below the radius. */
  lemma {:induction false} TopRows(r: nat, x: nat, n: nat)
    requires x * x < r && n <= x
    ensures RowAt(r, n) == r && n < r
  {
    Products(n, x);
    if n > 0 {
      Products(1, n);
      TopRows(r, x, n - 1);
    }
  }

  lemma TopExcess(r: nat, k: nat, x: nat)
    requires k < x <= 12 && 77 <= r <= 129
    ensures InI8(Excess(r, k, r))
  {
    Products(k + 1, 12);
    Products(1, k + 1);
  }

  lemma SameUntilLowered(r: nat, x: nat)
    requires 77 <= r <= 129 && 9 <= x <= 12 && (x - 1) * (x - 1) < r <= x * x
    ensures GoesTo(r, x) && SameAt(r, x) && RowAt(r, x) == r - 1
  {
    forall k | 0 <= k < x ensures RowAt(r, k) == r && k < r && FitsAt(r, k) {
      TopRows(r, x - 1, k);
      TopExcess(r, k, x);
    }
    Follows(r, x);
  }

  /** Where the two loops decide differently, the next pixel is another one. */
  lemma WrongDecision(r: nat, n: nat, y: nat)
    requires GoesTo(r, n) && SameAt(r, n) && y == RowAt(r, n) && n < y
    requires (CodeAt(r, n).f >= 0) != (Excess(r, n, y) >= 0)
    ensures !PlotsCircle(r)
  {
    Decides(r, n, y);
    assert CodeAt(r, n + 1).y != RowAt(r, n + 1);
    assert GoesTo(r, n + 1);
  }

  lemma WrapsToPositive(e: int)
    requires -256 <= e < -128
    ensures I8(e) >= 0
  {
  }

  lemma LowExcess(r: nat, x: nat)
    requires 77 <= r <= 129 && 9 <= x <= 12 && r <= x * x && (x + 1) * (x + 1) - 3 * r + 2 < -128
    ensures -256 <= Excess(r, x, r - 1) < -128
  {
    SecondExcess(r, x);
    Products(10, x + 1);
    assert x == 9 || x == 10 || x == 11 || x == 12;
  }

  /** f has wrapped to a positive number where the row was lowered first: the code lowers
      it again at once. */
  lemma LowersTwice(r: nat, x: nat)
    requires 77 <= r <= 129 && 9 <= x <= 12 && (x - 1) * (x - 1) < r <= x * x && (x + 1) * (x + 1) - 3 * r + 2 < -128
    ensures !PlotsCircle(r)
  {
    SameUntilLowered(r, x);
    LowExcess(r, x);
    WrapsToPositive(Excess(r, x, r - 1));
    WrongDecision(r, x, r - 1);
  }

  lemma SecondExcess(r: nat, x: nat)
    requires r >= 1
    ensures Excess(r, x, r - 1) == (x + 1) * (x + 1) - 3 * r + 2
  {
    assert (r - 1) * (r - 1) == r * r - 2 * r + 1;
  }

  /** Above 129 even the first f has wrapped to a positive number. */
  lemma LowersAtOnce(r: nat)
    requires 130 <= r <= 255
    ensures !PlotsCircle(r)
  {
    assert CodeAt(r, 0).f == 257 - r;
    assert CodeAt(r, 1).y == r - 1;
    assert RowAt(r, 1) == r;
    assert GoesTo(r, 1);
  }

  /** Whole circles and discs exactly for these radii. */
  lemma PlotsCircleExactly(r: nat)
    requires r <= 255
    ensures PlotsCircle(r) <==> ExactRadius(r)
  {
    if ExactRadius(r) {
      ExactPlots(r);
    } else if r >= 130 {
      LowersAtOnce(r);
    } else {
      LowersTwice(r, if r <= 81 then 9 else if r <= 100 then 10 else if r <= 121 then 11 else 12);
    }
  }
}
