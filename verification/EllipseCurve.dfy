/** `u8g2_draw_ellipse` over unbounded integers: two loops that follow the curve from
    its ends on the axes to where its slope passes -1.

    Both loops advance one coordinate v and sometimes lower the other, u.  With
    p and q the squared radii of the other axis each, the error term is
    p u^2 + q v^2 - pq, zero on the curve. */
module EllipseCurves {
  import opened Painting
  import opened Circles

  function Err(p: nat, q: nat, u: int, v: int): int {
    p * (u * u) + q * (v * v) - p * q
  }

  lemma ErrNextV(p: nat, q: nat, u: int, v: int)
    ensures Err(p, q, u, v + 1) == Err(p, q, u, v) + q * (2 * v + 1)
  {
    assert (v + 1) * (v + 1) == v * v + (2 * v + 1);
    assert q * (v * v + (2 * v + 1)) == q * (v * v) + q * (2 * v + 1);
  }

  lemma ErrLowerU(p: nat, q: nat, u: int, v: int)
    ensures Err(p, q, u - 1, v) == Err(p, q, u, v) + p * (1 - 2 * u)
  {
    assert (u - 1) * (u - 1) == u * u + (1 - 2 * u);
    assert p * (u * u + (1 - 2 * u)) == p * (u * u) + p * (1 - 2 * u);
  }

  /** Neither neighbour of u in its line is closer to the curve. */
  predicate Best(p: nat, q: nat, u: int, v: int) {
    && Err(p, q, u, v) + Err(p, q, u + 1, v) >= 0
    && (u >= 1 ==> Err(p, q, u, v) + Err(p, q, u - 1, v) <= 0)
  }

  lemma ErrGrows(p: nat, q: nat, u: nat, w: nat, v: int)
    requires u <= w
    ensures Err(p, q, u, v) <= Err(p, q, w, v)
  {
    Products(u, w);
    Mul(u * u, w * w, p);
    assert p * (u * u) == (u * u) * p && p * (w * w) == (w * w) * p;
  }

  /** ... so no point of the line is closer at all. */
  lemma BestIsClosest(p: nat, q: nat, u: nat, v: int, w: nat)
    requires Best(p, q, u, v)
    ensures Abs(Err(p, q, u, v)) <= Abs(Err(p, q, w, v))
  {
    if u < w {
      ErrGrows(p, q, u, u + 1, v);
      ErrGrows(p, q, u + 1, w, v);
    } else if w < u {
      ErrGrows(p, q, u - 1, u, v);
      ErrGrows(p, q, w, u - 1, v);
    }
  }

  /** Where the loops start. */
  lemma BestStart(p: nat, q: nat, r: nat)
    requires q == r * r
    ensures Err(p, q, r, 0) == 0 && Best(p, q, r, 0)
  {
    assert q * (0 * 0) == 0;
    ErrLowerU(p, q, r, 0);
    ErrLowerU(p, q, r + 1, 0);
    assert 0 <= p * (2 * r + 1);
    assert p * (1 - 2 * (r + 1)) == -(p * (2 * r + 1));
    if r >= 1 {
      assert 0 <= p * (2 * r - 1);
      assert p * (1 - 2 * r) == -(p * (2 * r - 1));
    }
  }

  /** One step: u is kept if the two candidates' errors add up to zero or less. */
  lemma BestKept(p: nat, q: nat, u: nat, v: nat)
    requires Best(p, q, u, v) && Err(p, q, u, v + 1) + Err(p, q, u - 1, v + 1) <= 0
    ensures Best(p, q, u, v + 1)
  {
    ErrNextV(p, q, u, v);
    ErrNextV(p, q, u + 1, v);
    assert 0 <= q * (2 * v + 1);
  }

  /** Otherwise u - 1 is taken, and as long as the slope condition holds there it is
      the best of its line too. */
  lemma BestLowered(p: nat, q: nat, u: nat, v: nat)
    requires Best(p, q, u, v) && Err(p, q, u, v + 1) + Err(p, q, u - 1, v + 1) > 0
    requires p * (u - 1) >= q * (v + 1)
    ensures Best(p, q, u - 1, v + 1)
  {
    if u >= 2 {
      ErrNextV(p, q, u - 1, v);
      ErrNextV(p, q, u, v);
      ErrLowerU(p, q, u, v + 1);
      ErrLowerU(p, q, u - 1, v + 1);
      TwoLower(p, q, u, v);
    }
  }

  lemma TwoLower(p: nat, q: nat, u: nat, v: nat)
    requires p * (u - 1) >= q * (v + 1)
    ensures 2 * (q * (2 * v + 1)) + p * (1 - 2 * u) + p * (1 - 2 * (u - 1)) <= 0
  {
    assert q * (2 * v + 1) == 2 * (q * (v + 1)) - q;
    assert p * (1 - 2 * u) == -2 * (p * (u - 1)) - p;
    assert p * (1 - 2 * (u - 1)) == -2 * (p * (u - 1)) + p;
  }

  // ---- the loops ----

  /** The running values of a loop: xchg and stopx go with u in the first one. */
  datatype Values = Values(uchg: int, vchg: int, err: int, stopu: int, stopv: int)

  /** The values are what they stand for. */
  predicate OnCurve(p: nat, q: nat, u: int, v: int, s: Values) {
    && s.uchg == p * (1 - 2 * u) && s.vchg == q * (2 * v + 1) && s.err == Err(p, q, u, v)
    && s.stopu == 2 * (p * u) && s.stopv == 2 * (q * v)
  }

  /** The loop's choice, and its update of the values. */
  predicate Lowers(s: Values) {
    2 * (s.err + s.vchg) + s.uchg > 0
  }

  function NextValues(p2: int, q2: int, s: Values): Values {
    var e := s.err + s.vchg;
    if Lowers(s) then Values(s.uchg + p2, s.vchg + q2, e + s.uchg, s.stopu - p2, s.stopv + q2)
    else Values(s.uchg, s.vchg + q2, e, s.stopu, s.stopv + q2)
  }

  /** The point that is closer to the curve of the two candidates after (u, v). */
  function NextU(p: nat, q: nat, u: int, v: int): int {
    if Err(p, q, u, v + 1) + Err(p, q, u - 1, v + 1) > 0 then u - 1 else u
  }

  lemma NextProduct(q: nat, v: int)
    ensures q * (v + 1) == q * v + q
    ensures q * (2 * (v + 1) + 1) == q * (2 * v + 1) + 2 * q
    ensures q * (1 - 2 * v) == q * (1 - 2 * (v + 1)) + 2 * q
  {
  }

  /** A pass in terms of the errors of the two candidates. */
  lemma StepByValues(p: nat, q: nat, u: int, v: int, s: Values, kept: int, lowered: int)
    requires OnCurve(p, q, u, v, s) && kept == s.err + s.vchg && lowered == kept + s.uchg
    requires kept == Err(p, q, u, v + 1) && lowered == Err(p, q, u - 1, v + 1)
    requires q * (v + 1) == q * v + q && q * (2 * (v + 1) + 1) == s.vchg + 2 * q
    requires p * (u - 1) == p * u - p && p * (1 - 2 * (u - 1)) == s.uchg + 2 * p
    ensures Lowers(s) <==> NextU(p, q, u, v) == u - 1
    ensures OnCurve(p, q, NextU(p, q, u, v), v + 1, NextValues(2 * p, 2 * q, s))
  {
  }

  lemma CurveStep(p: nat, q: nat, u: int, v: int, s: Values)
    requires OnCurve(p, q, u, v, s)
    ensures Lowers(s) <==> NextU(p, q, u, v) == u - 1
    ensures OnCurve(p, q, NextU(p, q, u, v), v + 1, NextValues(2 * p, 2 * q, s))
  {
    ErrNextV(p, q, u, v);
    ErrLowerU(p, q, u, v + 1);
    NextProduct(q, v);
    NextProduct(p, u - 1);
    StepByValues(p, q, u, v, s, Err(p, q, u, v + 1), Err(p, q, u - 1, v + 1));
  }

  /** A point that a loop plots: the best of its line, on the loop's part of the
      curve. */
  predicate Plotted(p: nat, q: nat, u: int, v: int) {
    u >= 0 && v >= 0 && p * u >= q * v && Best(p, q, u, v)
  }

  lemma SlopeFalls(p: nat, q: nat, u: int, v: int)
    ensures p * (u - 1) == p * u - p && q * (v + 1) == q * v + q
  {
  }

  lemma OnAxisAtStartOnly(p: nat, q: nat, u: nat, v: nat)
    requires q > 0 && Plotted(p, q, u, v) && v > 0
    ensures u > 0
  {
    Mul(1, q, v);
    assert u == 0 ==> p * u == 0;
  }

  /** The next point is plotted as well, unless the loop ends. */
  lemma StaysBest(p: nat, q: nat, u: nat, v: nat)
    requires q > 0 && Plotted(p, q, u, v) && u > 0
    ensures var w := NextU(p, q, u, v);
            && p * w - q * (v + 1) < p * u - q * v
            && (p * w >= q * (v + 1) ==> Plotted(p, q, w, v + 1))
  {
    SlopeFalls(p, q, u, v);
    if NextU(p, q, u, v) == u {
      BestKept(p, q, u, v);
    } else if p * (u - 1) >= q * (v + 1) {
      BestLowered(p, q, u, v);
    }
  }

  /** With one radius zero the loop leaves the axis at once. */
  lemma FlatCurve(p: nat)
    requires p > 0
    ensures NextU(p, 0, 0, 0) == -1 && p * -1 < 0
  {
    assert p * (0 * 0) == 0 && p * (-1 * -1) == p;
  }

  lemma OutsideIsPositive(p: nat, q: nat, rv: nat, u: nat, v: nat)
    requires p == rv * rv && q > 0 && v > rv
    ensures Err(p, q, u, v) > 0
  {
    Products(rv + 1, v);
    assert (rv + 1) * (rv + 1) == p + 2 * rv + 1;
    Mul(p + 1, v * v, q);
    assert q * (v * v) == (v * v) * q && (p + 1) * q == p * q + q;
    assert p * (u * u) >= 0;
  }

  /** The loop never leaves the bounding box. */
  lemma WithinRadius(p: nat, q: nat, rv: nat, u: nat, v: nat)
    requires p == rv * rv && q > 0 && Plotted(p, q, u, v)
    ensures v <= rv
  {
    if v > rv {
      OnAxisAtStartOnly(p, q, u, v);
      OutsideIsPositive(p, q, rv, u, v);
      OutsideIsPositive(p, q, rv, u - 1, v);
    }
  }

  /** A run of a loop: us[k] is the u plotted in line k. */
  ghost predicate Run(p: nat, q: nat, ru: nat, rv: nat, us: seq<int>) {
    forall k | 0 <= k < |us| :: InRun(p, q, ru, rv, us, k)
  }

  predicate InRun(p: nat, q: nat, ru: nat, rv: nat, us: seq<int>, k: nat)
    requires k < |us|
  {
    k <= rv && us[k] <= ru && Plotted(p, q, us[k], k) && us[k] == RunNext(p, q, ru, us[..k])
  }

  function RunNext(p: nat, q: nat, ru: nat, us: seq<int>): int {
    if us == [] then ru else NextU(p, q, us[|us| - 1], |us| - 1)
  }

  /** While a loop continues it stands on a plotted point inside the bounding box. */
  predicate Live(p: nat, q: nat, ru: nat, rv: nat, u: int, v: int) {
    p * u >= q * v ==>
      && Plotted(p, q, u, v) && u <= ru && v <= rv
      && (v == 0 ==> u == ru) && (q == 0 ==> v == 0)
  }

  lemma LoopStep(p: nat, q: nat, ru: nat, rv: nat, u: int, v: nat)
    requires p == rv * rv && q == ru * ru && (p > 0 || q > 0)
    requires Live(p, q, ru, rv, u, v) && p * u >= q * v
    ensures var w := NextU(p, q, u, v);
            Live(p, q, ru, rv, w, v + 1) && p * w - q * (v + 1) < p * u - q * v
  {
    var w := NextU(p, q, u, v);
    if q == 0 {
      FlatCurve(p);
    } else {
      if v > 0 {
        OnAxisAtStartOnly(p, q, u, v);
      }
      StaysBest(p, q, u, v);
      if p * w >= q * (v + 1) {
        WithinRadius(p, q, rv, w, v + 1);
      }
    }
  }

  lemma RunStep(p: nat, q: nat, ru: nat, rv: nat, us: seq<int>, u: int)
    requires Run(p, q, ru, rv, us) && Plotted(p, q, u, |us|) && u <= ru && |us| <= rv
    requires u == RunNext(p, q, ru, us)
    ensures Run(p, q, ru, rv, us + [u])
  {
    var vs := us + [u];
    forall k | 0 <= k < |vs| ensures InRun(p, q, ru, rv, vs, k) {
      if k < |us| {
        assert InRun(p, q, ru, rv, us, k);
        assert vs[..k] == us[..k] && vs[k] == us[k];
      } else {
        assert vs[..k] == us && vs[k] == u;
      }
    }
  }

  /** The loop invariant: `us` has been plotted, u comes next. */
  ghost predicate Loop(p: nat, q: nat, ru: nat, rv: nat, us: seq<int>, u: int, s: Values) {
    && OnCurve(p, q, u, |us|, s) && Live(p, q, ru, rv, u, |us|)
    && Run(p, q, ru, rv, us) && u == RunNext(p, q, ru, us)
  }

  lemma LoopStart(p: nat, q: nat, ru: nat, rv: nat, s: Values)
    requires p == rv * rv && q == ru * ru
    requires s == Values(p * (1 - 2 * ru), q, 0, 2 * (p * ru), 0)
    ensures Loop(p, q, ru, rv, [], ru, s) && s.stopu >= s.stopv
  {
    BestStart(p, q, ru);
  }

  lemma LoopPlots(p: nat, q: nat, ru: nat, rv: nat, us: seq<int>, u: int, s: Values)
    requires Loop(p, q, ru, rv, us, u, s) && s.stopu >= s.stopv
    ensures 0 <= u <= ru && |us| <= rv && Plotted(p, q, u, |us|)
    ensures ru < 256 && rv < 256 ==> U8(u) == u && U8(|us|) == |us|
  {
  }

  lemma LoopKeeps(p: nat, q: nat, ru: nat, rv: nat, us: seq<int>, u: int, s: Values)
    requires p == rv * rv && q == ru * ru && (p > 0 || q > 0)
    requires Loop(p, q, ru, rv, us, u, s) && s.stopu >= s.stopv
    ensures var t := NextValues(2 * p, 2 * q, s);
            && Loop(p, q, ru, rv, us + [u], if Lowers(s) then u - 1 else u, t)
            && t.stopu - t.stopv < s.stopu - s.stopv
  {
    LoopPlots(p, q, ru, rv, us, u, s);
    CurveStep(p, q, u, |us|, s);
    LoopStep(p, q, ru, rv, u, |us|);
    RunStep(p, q, ru, rv, us, u);
  }

  /** A run from its start on the axis to its end. */
  ghost predicate WholeRun(p: nat, q: nat, ru: nat, rv: nat, us: seq<int>) {
    us != [] && Run(p, q, ru, rv, us) && p * RunNext(p, q, ru, us) < q * |us|
  }

  /** There is one whole run. */
  lemma OneWholeRun(p: nat, q: nat, ru: nat, rv: nat, us: seq<int>, vs: seq<int>)
    requires WholeRun(p, q, ru, rv, us) && WholeRun(p, q, ru, rv, vs)
    ensures us == vs
  {
    RunsAgree(p, q, ru, rv, us, vs, |us|);
    RunsAgree(p, q, ru, rv, vs, us, |vs|);
    assert us[..|us|] == us && vs[..|vs|] == vs;
  }

  lemma {:induction false} RunsAgree(p: nat, q: nat, ru: nat, rv: nat, us: seq<int>, vs: seq<int>, n: nat)
    requires WholeRun(p, q, ru, rv, us) && WholeRun(p, q, ru, rv, vs) && n <= |us|
    ensures n <= |vs| && us[..n] == vs[..n]
  {
    if n > 0 {
      RunsAgree(p, q, ru, rv, us, vs, n - 1);
      assert InRun(p, q, ru, rv, us, n - 1);
      assert vs[..|vs|] == vs;
      if n - 1 == |vs| {
        assert false;
      }
      assert InRun(p, q, ru, rv, vs, n - 1);
      assert us[..n] == us[..n - 1] + [us[n - 1]];
      assert vs[..n] == vs[..n - 1] + [vs[n - 1]];
    }
  }

  /** Every point of a run is the closest to the curve of its whole line, and the
      next one is in the same place of its line or one lower. */
  lemma RunIsClosest(p: nat, q: nat, ru: nat, rv: nat, us: seq<int>, k: nat, w: nat)
    requires Run(p, q, ru, rv, us) && k < |us|
    ensures 0 <= us[k] <= ru && k <= rv
    ensures Abs(Err(p, q, us[k], k)) <= Abs(Err(p, q, w, k))
    ensures k + 1 < |us| ==> us[k + 1] == us[k] || us[k + 1] == us[k] - 1
  {
    assert InRun(p, q, ru, rv, us, k);
    BestIsClosest(p, q, us[k], k, w);
    if k + 1 < |us| {
      assert InRun(p, q, ru, rv, us, k + 1);
      assert us[..k + 1][k] == us[k];
    }
  }

  /** The starting values of a loop, and its values after n passes. */
  function First(ru: nat, rv: nat): Values {
    Values((rv * rv) * (1 - 2 * ru), ru * ru, 0, 2 * ((rv * rv) * ru), 0)
  }

  function State(ru: nat, rv: nat, n: nat): Values {
    if n == 0 then First(ru, rv) else NextValues(2 * (rv * rv), 2 * (ru * ru), State(ru, rv, n - 1))
  }

  /** The coordinate u after n passes. */
  function U(ru: nat, rv: nat, n: nat): int {
    if n == 0 then ru
    else if Lowers(State(ru, rv, n - 1)) then U(ru, rv, n - 1) - 1
    else U(ru, rv, n - 1)
  }

  predicate Goes(ru: nat, rv: nat, n: nat) {
    State(ru, rv, n).stopu >= State(ru, rv, n).stopv
  }

  /** The loop gets to its n-th pass. */
  ghost predicate Reached(ru: nat, rv: nat, n: nat) {
    forall k | 0 <= k <= n :: Goes(ru, rv, k)
  }

  /** The invariant holds before the n-th pass, with n points plotted. */
  ghost predicate At(ru: nat, rv: nat, us: seq<int>, n: nat) {
    |us| == n && Loop(rv * rv, ru * ru, ru, rv, us, U(ru, rv, n), State(ru, rv, n))
  }

  lemma AtStart(ru: nat, rv: nat)
    ensures At(ru, rv, [], 0) && Goes(ru, rv, 0)
  {
    LoopStart(rv * rv, ru * ru, ru, rv, First(ru, rv));
  }

  function Gap(ru: nat, rv: nat, n: nat): int {
    State(ru, rv, n).stopu - State(ru, rv, n).stopv
  }

  lemma LoopGoesOn(p: nat, q: nat, ru: nat, rv: nat, us: seq<int>, u: int, s: Values, us': seq<int>, u': int, t: Values)
    requires p == rv * rv && q == ru * ru && (p > 0 || q > 0)
    requires Loop(p, q, ru, rv, us, u, s) && s.stopu >= s.stopv
    requires us' == us + [u] && u' == (if Lowers(s) then u - 1 else u) && t == NextValues(2 * p, 2 * q, s)
    ensures Loop(p, q, ru, rv, us', u', t) && t.stopu - t.stopv < s.stopu - s.stopv
  {
    LoopKeeps(p, q, ru, rv, us, u, s);
  }

  lemma NextState(ru: nat, rv: nat, n: nat)
    ensures State(ru, rv, n + 1) == NextValues(2 * (rv * rv), 2 * (ru * ru), State(ru, rv, n))
    ensures U(ru, rv, n + 1) == if Lowers(State(ru, rv, n)) then U(ru, rv, n) - 1 else U(ru, rv, n)
  {
  }

  lemma LoopToLoop(ru: nat, rv: nat, us: seq<int>, u: int, s: Values, u': int, t: Values)
    requires (ru > 0 || rv > 0) && Loop(rv * rv, ru * ru, ru, rv, us, u, s) && s.stopu >= s.stopv
    requires u' == (if Lowers(s) then u - 1 else u) && t == NextValues(2 * (rv * rv), 2 * (ru * ru), s)
    ensures Loop(rv * rv, ru * ru, ru, rv, us + [u], u', t) && t.stopu - t.stopv < s.stopu - s.stopv
  {
    RadiiPositive(ru, rv);
    LoopGoesOn(rv * rv, ru * ru, ru, rv, us, u, s, us + [u], u', t);
  }

  lemma OnePass(ru: nat, rv: nat, us: seq<int>, n: nat)
    requires (ru > 0 || rv > 0) && At(ru, rv, us, n) && Goes(ru, rv, n)
    ensures At(ru, rv, us + [U(ru, rv, n)], n + 1) && Gap(ru, rv, n + 1) < Gap(ru, rv, n)
  {
    NextState(ru, rv, n);
    LoopToLoop(ru, rv, us, U(ru, rv, n), State(ru, rv, n), U(ru, rv, n + 1), State(ru, rv, n + 1));
  }

  lemma RadiiPositive(ru: nat, rv: nat)
    requires ru > 0 || rv > 0
    ensures rv * rv > 0 || ru * ru > 0
  {
  }

  /** What the loop has plotted before its n-th pass. */
  lemma {:induction false} StateLoop(ru: nat, rv: nat, n: nat) returns (us: seq<int>)
    requires ru > 0 || rv > 0
    requires n > 0 ==> Reached(ru, rv, n - 1)
    ensures At(ru, rv, us, n)
    ensures forall k | 0 <= k < n :: us[k] == U(ru, rv, k)
  {
    if n == 0 {
      us := [];
      AtStart(ru, rv);
    } else {
      us := StateLoop(ru, rv, n - 1);
      assert Goes(ru, rv, n - 1);
      OnePass(ru, rv, us, n - 1);
      us := us + [U(ru, rv, n - 1)];
    }
  }

  lemma EndIsWhole(p: nat, q: nat, ru: nat, rv: nat, us: seq<int>, u: int, s: Values)
    requires Loop(p, q, ru, rv, us, u, s) && us != [] && s.stopu < s.stopv
    ensures WholeRun(p, q, ru, rv, us)
  {
  }

  lemma GapFalls(ru: nat, rv: nat, n: nat)
    requires (ru > 0 || rv > 0) && Reached(ru, rv, n)
    ensures Gap(ru, rv, n + 1) < Gap(ru, rv, n)
  {
    var us := StateLoop(ru, rv, n);
    assert Goes(ru, rv, n);
    OnePass(ru, rv, us, n);
  }

  lemma FindEnd(ru: nat, rv: nat, n: nat) returns (end: nat)
    requires (ru > 0 || rv > 0) && forall k | 0 <= k < n :: Goes(ru, rv, k)
    ensures !Goes(ru, rv, end) && forall k | 0 <= k < end :: Goes(ru, rv, k)
    decreases Gap(ru, rv, n) + 1
  {
    end := n;
    if Goes(ru, rv, n) {
      GapFalls(ru, rv, n);
      end := FindEnd(ru, rv, n + 1);
    }
  }

  /** Over unbounded integers the loop ends, having plotted a whole run. */
  lemma LoopEnds(ru: nat, rv: nat) returns (us: seq<int>)
    requires ru > 0 || rv > 0
    ensures WholeRun(rv * rv, ru * ru, ru, rv, us)
    ensures !Goes(ru, rv, |us|) && forall k | 0 <= k < |us| :: Goes(ru, rv, k) && us[k] == U(ru, rv, k)
  {
    AtStart(ru, rv);
    var n := FindEnd(ru, rv, 0);
    us := StateLoop(ru, rv, n);
    EndIsWhole(rv * rv, ru * ru, ru, rv, us, U(ru, rv, n), State(ru, rv, n));
  }
}
