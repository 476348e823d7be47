/**
 * newton_method_single in lab1/main.py: Newton's method on a quartic, tried
 * from a fixed list of start points, keeping the best |f| seen.
 */
module Newton {
  import opened Reals
  import opened Roots

  /** A derivative smaller than this in magnitude abandons the start point. */
  const FlatSlope: real := 1.0e-15

  /** The start points: 0.0, then x0, then x / 2 for x in -200..200. */
  function StartPoints(x0: real): (pts: seq<real>)
    ensures |pts| == 403 && pts[0] == 0.0 && pts[1] == x0
    ensures forall i | 2 <= i < 403 :: pts[i] == (i - 202) as real / 2.0
    ensures pts[2] == -100.0 && pts[402] == 100.0
  {
    [0.0, x0] + seq(401, i => (i - 200) as real / 2.0)
  }

  /** How the inner loop leaves one start point. */
  datatype Landing =
    | Hit(x: real)                    // an iterate with |f| < tolerance: returned at once
    | Flat(x: real)                   // |f'(x)| < FlatSlope: the start point is abandoned
    | Settled(x: real, xNew: real)    // a step shorter than tolerance to an xNew with |f| >= tolerance
    | Exhausted(x: real)              // every iteration used; x is the last iterate

  /** The inner loop over at most fuel iterations, from x. */
  function Descend(p: Quartic, x: real, fuel: nat, tolerance: real): (l: Landing)
    ensures fuel == 0 ==> l == Exhausted(x)
    ensures l.Hit? ==> Abs(Eval(p, l.x)) < tolerance
    ensures l.Flat? ==> Abs(Eval(p, l.x)) >= tolerance && Abs(Slope(p, l.x)) < FlatSlope
    ensures l.Settled? ==>
      Abs(Eval(p, l.x)) >= tolerance && Abs(Slope(p, l.x)) >= FlatSlope &&
      l.xNew == l.x - Eval(p, l.x) / Slope(p, l.x) &&
      Abs(l.xNew - l.x) < tolerance && Abs(Eval(p, l.xNew)) >= tolerance
    decreases fuel
  {
    if fuel == 0 then Exhausted(x)
    else if Abs(Eval(p, x)) < tolerance then Hit(x)
    else if Abs(Slope(p, x)) < FlatSlope then Flat(x)
    else
      var xNew := x - Eval(p, x) / Slope(p, x);
      if Abs(xNew - x) < tolerance then
        if Abs(Eval(p, xNew)) < tolerance then Hit(xNew) else Settled(x, xNew)
      else Descend(p, xNew, fuel - 1, tolerance)
  }

  /** y is at least as good as every point the search compares after landing l. */
  predicate Beats(p: Quartic, y: real, l: Landing)
  {
    match l
    case Hit(_) => true
    case Flat(x) => Abs(Eval(p, y)) <= Abs(Eval(p, x))
    case Settled(x, xNew) => Abs(Eval(p, y)) <= Abs(Eval(p, xNew)) && Abs(Eval(p, y)) <= Abs(Eval(p, x))
    case Exhausted(x) => Abs(Eval(p, y)) <= Abs(Eval(p, x))
  }

  lemma BeatsMonotone(p: Quartic, y: real, z: real, l: Landing)
    requires Beats(p, y, l) && Abs(Eval(p, z)) <= Abs(Eval(p, y))
    ensures Beats(p, z, l)
  {
  }

  /** Start point i is the first whose inner loop hits. */
  predicate FirstHit(p: Quartic, pts: seq<real>, i: nat, tolerance: real, maxIterations: nat)
    requires i < |pts|
  {
    Descend(p, pts[i], maxIterations, tolerance).Hit? &&
    forall j | 0 <= j < i :: !Descend(p, pts[j], maxIterations, tolerance).Hit?
  }

  /** No start point's inner loop hits. */
  predicate NoHit(p: Quartic, pts: seq<real>, tolerance: real, maxIterations: nat)
  {
    forall j | 0 <= j < |pts| :: !Descend(p, pts[j], maxIterations, tolerance).Hit?
  }

  /** The inner for-loop of newton_method_single, run from one start point. */
  method Descent(p: Quartic, start: real, tolerance: real, maxIterations: nat) returns (l: Landing)
    ensures l == Descend(p, start, maxIterations, tolerance)
  {
    ghost var target := Descend(p, start, maxIterations, tolerance);
    var x := start;
    var iteration := 0;
    while iteration < maxIterations
      invariant 0 <= iteration <= maxIterations
      invariant Descend(p, x, maxIterations - iteration, tolerance) == target
    {
      ghost var rest := Descend(p, x, maxIterations - iteration, tolerance);
      var fx := Eval(p, x);
      var fpx := Slope(p, x);
      if Abs(fx) < tolerance {
        return Hit(x);
      }
      if Abs(fpx) < FlatSlope {
        return Flat(x);
      }
      var xNew := x - fx / fpx;
      if Abs(xNew - x) < tolerance {
        if Abs(Eval(p, xNew)) < tolerance {
          return Hit(xNew);
        }
        return Settled(x, xNew);
      }
      assert rest == Descend(p, xNew, maxIterations - iteration - 1, tolerance);
      x := xNew;
      iteration := iteration + 1;
    }
    return Exhausted(x);
  }

  /** No start point before position n hits. */
  predicate NoHitBefore(p: Quartic, pts: seq<real>, n: nat, tolerance: real, maxIterations: nat)
    requires n <= |pts|
  {
    forall j | 0 <= j < n :: !Descend(p, pts[j], maxIterations, tolerance).Hit?
  }

  /** y beats the landing of every start point before position n. */
  predicate BeatsBefore(p: Quartic, y: real, pts: seq<real>, n: nat, tolerance: real, maxIterations: nat)
    requires n <= |pts|
  {
    forall j | 0 <= j < n :: Beats(p, y, Descend(p, pts[j], maxIterations, tolerance))
  }

  /** y is a point the search compares after landing l: where it stopped, or the settled step's target. */
  predicate Lands(y: real, l: Landing)
  {
    y == l.x || (l.Settled? && y == l.xNew)
  }

  /** y is x0 or a point compared after one of the first n start points. */
  predicate ComparedBefore(p: Quartic, y: real, x0: real, pts: seq<real>, n: nat, tolerance: real, maxIterations: nat)
    requires n <= |pts|
  {
    y == x0 || exists j | 0 <= j < n :: Lands(y, Descend(p, pts[j], maxIterations, tolerance))
  }

  /** The points the search compares after landing l, in the order it compares them. */
  function LandingPoints(l: Landing): (s: seq<real>)
    ensures l.Settled? ==> s == [l.xNew, l.x]
    ensures !l.Settled? ==> s == [l.x]
  {
    if l.Settled? then [l.xNew, l.x] else [l.x]
  }

  /** Every point the search compares before start point n: x0, then each landing's points. */
  function Compared(p: Quartic, x0: real, pts: seq<real>, n: nat, tolerance: real, maxIterations: nat): (s: seq<real>)
    requires n <= |pts|
    ensures |s| >= 1 && s[0] == x0
  {
    if n == 0 then [x0]
    else Compared(p, x0, pts, n - 1, tolerance, maxIterations) + LandingPoints(Descend(p, pts[n - 1], maxIterations, tolerance))
  }

  /** s[i] is the first point of s with the least |f|: every earlier one is strictly worse, no later one better. */
  predicate FirstMinAt(p: Quartic, s: seq<real>, i: nat)
    requires i < |s|
  {
    (forall j | 0 <= j < i :: Abs(Eval(p, s[j])) > Abs(Eval(p, s[i]))) &&
    (forall j | i <= j < |s| :: Abs(Eval(p, s[i])) <= Abs(Eval(p, s[j])))
  }

  /** best is s[i], the first least point of s, where s is what the first n start points compared. */
  predicate BestSoFar(p: Quartic, best: real, x0: real, pts: seq<real>, n: nat, tolerance: real, maxIterations: nat, i: nat)
    requires n <= |pts|
  {
    var s := Compared(p, x0, pts, n, tolerance, maxIterations);
    i < |s| && s[i] == best && FirstMinAt(p, s, i)
  }

  /**
   * What newton_method_single promises of its result v: v is a root within
   * tolerance or no worse than x0; it is where the first hitting start point
   * landed; when nothing hits, it beats every landing and it is the first point
   * with the least |f| in the order the search compares them (the strict `<`
   * keeps an earlier point on a tie); and it is x0 or a point the search compared.
   */
  ghost predicate NewtonResult(p: Quartic, x0: real, tolerance: real, maxIterations: nat, v: real)
  {
    var pts := StartPoints(x0);
    (Abs(Eval(p, v)) < tolerance || Abs(Eval(p, v)) <= Abs(Eval(p, x0))) &&
    (forall i | 0 <= i < |pts| && FirstHit(p, pts, i, tolerance, maxIterations) ::
       v == Descend(p, pts[i], maxIterations, tolerance).x) &&
    (NoHit(p, pts, tolerance, maxIterations) ==>
       Abs(Eval(p, v)) <= Abs(Eval(p, x0)) &&
       forall i | 0 <= i < |pts| :: Beats(p, v, Descend(p, pts[i], maxIterations, tolerance))) &&
    (v == x0 || exists i | 0 <= i < |pts| :: Lands(v, Descend(p, pts[i], maxIterations, tolerance))) &&
    (NoHit(p, pts, tolerance, maxIterations) ==>
       exists i :: BestSoFar(p, v, x0, pts, |pts|, tolerance, maxIterations, i))
  }

  /**
   * newton_method_single. The inner loop is Descent; a Settled landing is
   * compared at xNew first and then at x, as the source compares x_new inside
   * the loop and x after it.
   */
  method NewtonSingle(p: Quartic, x0: real, tolerance: real, maxIterations: nat) returns (v: real)
    ensures NewtonResult(p, x0, tolerance, maxIterations, v)
  {
    var pts := StartPoints(x0);
    var bestX := x0;
    var bestFx := Abs(Eval(p, x0));
    ghost var bestAt: nat := 0;
    for idx := 0 to |pts|
      invariant bestFx == Abs(Eval(p, bestX))
      invariant Searched(p, bestX, x0, pts, idx, tolerance, maxIterations, bestAt)
    {
      var landing := Descent(p, pts[idx], tolerance, maxIterations);
      if landing.Hit? {
        HitResult(p, x0, tolerance, maxIterations, idx);
        return landing.x;
      }
      ghost var previous := bestX;
      if landing.Settled? {
        var fxNew := Eval(p, landing.xNew);
        if Abs(fxNew) < bestFx {
          bestX := landing.xNew;
          bestFx := Abs(fxNew);
        }
      }
      var fxFinal := Eval(p, landing.x);
      if Abs(fxFinal) < bestFx {
        bestX := landing.x;
        bestFx := Abs(fxFinal);
      }
      assert bestX == AfterLanding(p, previous, landing);
      bestAt := SearchStep(p, previous, x0, pts, idx, tolerance, maxIterations, bestAt);
    }
    NoHitResult(p, x0, tolerance, maxIterations, bestX, bestAt);
    return bestX;
  }

  /** The better of best and y, keeping best on a tie, as the strict `<` does. */
  function Better(p: Quartic, best: real, y: real): real
  {
    if Abs(Eval(p, y)) < Abs(Eval(p, best)) then y else best
  }

  /** The best point after comparing landing l's points in the search's order. */
  function AfterLanding(p: Quartic, best: real, l: Landing): real
  {
    if l.Settled? then Better(p, Better(p, best, l.xNew), l.x) else Better(p, best, l.x)
  }

  /** The outer loop's invariant after n start points, with best at position at of the compared points. */
  ghost predicate Searched(p: Quartic, best: real, x0: real, pts: seq<real>, n: nat, tolerance: real, maxIterations: nat, at: nat)
  {
    n <= |pts| && Abs(Eval(p, best)) <= Abs(Eval(p, x0)) &&
    NoHitBefore(p, pts, n, tolerance, maxIterations) &&
    BeatsBefore(p, best, pts, n, tolerance, maxIterations) &&
    ComparedBefore(p, best, x0, pts, n, tolerance, maxIterations) &&
    BestSoFar(p, best, x0, pts, n, tolerance, maxIterations, at)
  }

  /** One pass of the outer loop over a start point that does not hit keeps the invariant. */
  lemma SearchStep(p: Quartic, best: real, x0: real, pts: seq<real>, n: nat, tolerance: real, maxIterations: nat, at: nat)
    returns (at': nat)
    requires n < |pts| && Searched(p, best, x0, pts, n, tolerance, maxIterations, at)
    requires !Descend(p, pts[n], maxIterations, tolerance).Hit?
    ensures Searched(p, AfterLanding(p, best, Descend(p, pts[n], maxIterations, tolerance)), x0, pts, n + 1, tolerance, maxIterations, at')
  {
    at' := MinStep(p, best, x0, pts, n, tolerance, maxIterations, at);
    BeatsStep(p, best, x0, pts, n, tolerance, maxIterations);
  }

  /** The pass keeps the best point the first least point of everything compared. */
  lemma MinStep(p: Quartic, best: real, x0: real, pts: seq<real>, n: nat, tolerance: real, maxIterations: nat, at: nat)
    returns (at': nat)
    requires n < |pts| && BestSoFar(p, best, x0, pts, n, tolerance, maxIterations, at)
    ensures BestSoFar(p, AfterLanding(p, best, Descend(p, pts[n], maxIterations, tolerance)), x0, pts, n + 1, tolerance, maxIterations, at')
  {
    var l := Descend(p, pts[n], maxIterations, tolerance);
    var seen := Compared(p, x0, pts, n, tolerance, maxIterations);
    var y := best;
    at' := at;
    if l.Settled? {
      if Abs(Eval(p, l.xNew)) < Abs(Eval(p, y)) {
        NewMin(p, seen, at', l.xNew);
        y, at' := l.xNew, |seen|;
      } else {
        KeepMin(p, seen, at', l.xNew);
      }
      seen := seen + [l.xNew];
    }
    if Abs(Eval(p, l.x)) < Abs(Eval(p, y)) {
      NewMin(p, seen, at', l.x);
      y, at' := l.x, |seen|;
    } else {
      KeepMin(p, seen, at', l.x);
    }
    seen := seen + [l.x];
    assert seen == Compared(p, x0, pts, n + 1, tolerance, maxIterations);
    assert y == AfterLanding(p, best, l);
  }

  /** The pass keeps the hit-free, beats-every-landing, compared and no-worse-than-x0 parts of the invariant. */
  lemma BeatsStep(p: Quartic, best: real, x0: real, pts: seq<real>, n: nat, tolerance: real, maxIterations: nat)
    requires n < |pts| && Abs(Eval(p, best)) <= Abs(Eval(p, x0))
    requires NoHitBefore(p, pts, n, tolerance, maxIterations) && !Descend(p, pts[n], maxIterations, tolerance).Hit?
    requires BeatsBefore(p, best, pts, n, tolerance, maxIterations)
    requires ComparedBefore(p, best, x0, pts, n, tolerance, maxIterations)
    ensures var y := AfterLanding(p, best, Descend(p, pts[n], maxIterations, tolerance));
      Abs(Eval(p, y)) <= Abs(Eval(p, x0)) &&
      NoHitBefore(p, pts, n + 1, tolerance, maxIterations) &&
      BeatsBefore(p, y, pts, n + 1, tolerance, maxIterations) &&
      ComparedBefore(p, y, x0, pts, n + 1, tolerance, maxIterations)
  {
    var l := Descend(p, pts[n], maxIterations, tolerance);
    var y := best;
    if l.Settled? && Abs(Eval(p, l.xNew)) < Abs(Eval(p, y)) {
      Improve(p, pts, n, y, l.xNew, tolerance, maxIterations);
      y := l.xNew;
    }
    if Abs(Eval(p, l.x)) < Abs(Eval(p, y)) {
      Improve(p, pts, n, y, l.x, tolerance, maxIterations);
      y := l.x;
    }
    assert y == AfterLanding(p, best, l);
    assert Beats(p, y, l);
    assert BeatsBefore(p, y, pts, n + 1, tolerance, maxIterations);
    CompareAfter(p, y, x0, pts, n, tolerance, maxIterations);
  }

  /** The first start point that hits gives NewtonResult at its landing. */
  lemma HitResult(p: Quartic, x0: real, tolerance: real, maxIterations: nat, i: nat)
    requires var pts := StartPoints(x0);
      i < |pts| && NoHitBefore(p, pts, i, tolerance, maxIterations) &&
      Descend(p, pts[i], maxIterations, tolerance).Hit?
    ensures NewtonResult(p, x0, tolerance, maxIterations, Descend(p, StartPoints(x0)[i], maxIterations, tolerance).x)
  {
    var pts := StartPoints(x0);
    var l := Descend(p, pts[i], maxIterations, tolerance);
    FirstHitUnique(p, pts, i, tolerance, maxIterations);
    assert Lands(l.x, l);
    assert !NoHit(p, pts, tolerance, maxIterations);
  }

  /** The loop's invariant over all start points gives NewtonResult when nothing hit. */
  lemma NoHitResult(p: Quartic, x0: real, tolerance: real, maxIterations: nat, y: real, at: nat)
    requires var pts := StartPoints(x0);
      Abs(Eval(p, y)) <= Abs(Eval(p, x0)) &&
      NoHitBefore(p, pts, |pts|, tolerance, maxIterations) &&
      BeatsBefore(p, y, pts, |pts|, tolerance, maxIterations) &&
      ComparedBefore(p, y, x0, pts, |pts|, tolerance, maxIterations) &&
      BestSoFar(p, y, x0, pts, |pts|, tolerance, maxIterations, at)
    ensures NewtonResult(p, x0, tolerance, maxIterations, y)
  {
  }

  /** A point no better than the first least point of s leaves it the first least point. */
  lemma KeepMin(p: Quartic, s: seq<real>, i: nat, e: real)
    requires i < |s| && FirstMinAt(p, s, i)
    requires Abs(Eval(p, e)) >= Abs(Eval(p, s[i]))
    ensures FirstMinAt(p, s + [e], i)
  {
    var t := s + [e];
    forall j | i <= j < |t|
      ensures Abs(Eval(p, t[i])) <= Abs(Eval(p, t[j]))
    {
      if j < |s| { assert t[j] == s[j]; }
    }
    forall j | 0 <= j < i
      ensures Abs(Eval(p, t[j])) > Abs(Eval(p, t[i]))
    {
      assert t[j] == s[j];
    }
  }

  /** A point strictly better than the first least point of s becomes the first least point. */
  lemma NewMin(p: Quartic, s: seq<real>, i: nat, e: real)
    requires i < |s| && FirstMinAt(p, s, i)
    requires Abs(Eval(p, e)) < Abs(Eval(p, s[i]))
    ensures FirstMinAt(p, s + [e], |s|)
  {
    var t := s + [e];
    forall j | 0 <= j < |s|
      ensures Abs(Eval(p, t[j])) > Abs(Eval(p, t[|s|]))
    {
      assert t[j] == s[j];
      if j < i {
        assert Abs(Eval(p, s[j])) > Abs(Eval(p, s[i]));
      } else {
        assert Abs(Eval(p, s[i])) <= Abs(Eval(p, s[j]));
      }
    }
  }

  /** Some start point hits, so one of them is the first to hit. */
  lemma {:induction false} FirstHitExists(p: Quartic, pts: seq<real>, n: nat, tolerance: real, maxIterations: nat)
    requires n <= |pts| && !NoHitBefore(p, pts, n, tolerance, maxIterations)
    ensures exists i | 0 <= i < n :: FirstHit(p, pts, i, tolerance, maxIterations)
  {
    if NoHitBefore(p, pts, n - 1, tolerance, maxIterations) {
      assert FirstHit(p, pts, n - 1, tolerance, maxIterations);
    } else {
      FirstHitExists(p, pts, n - 1, tolerance, maxIterations);
    }
  }

  /** Two first least points of one sequence are the same position. */
  lemma FirstMinUnique(p: Quartic, s: seq<real>, i: nat, j: nat)
    requires i < |s| && j < |s| && FirstMinAt(p, s, i) && FirstMinAt(p, s, j)
    ensures i == j
  {
    FirstMinCompare(p, s, i, j);
    FirstMinCompare(p, s, j, i);
  }

  /** How the first least point s[i] compares with s[k]. */
  lemma FirstMinCompare(p: Quartic, s: seq<real>, i: nat, k: nat)
    requires i < |s| && k < |s| && FirstMinAt(p, s, i)
    ensures k < i ==> Abs(Eval(p, s[k])) > Abs(Eval(p, s[i]))
    ensures i <= k ==> Abs(Eval(p, s[i])) <= Abs(Eval(p, s[k]))
  {
  }

  /** NewtonResult leaves no choice: it holds of exactly one value, the one newton_method_single returns. */
  lemma NewtonResultUnique(p: Quartic, x0: real, tolerance: real, maxIterations: nat, v: real, w: real)
    requires NewtonResult(p, x0, tolerance, maxIterations, v)
    requires NewtonResult(p, x0, tolerance, maxIterations, w)
    ensures v == w
  {
    var pts := StartPoints(x0);
    if NoHit(p, pts, tolerance, maxIterations) {
      var i :| BestSoFar(p, v, x0, pts, |pts|, tolerance, maxIterations, i);
      var j :| BestSoFar(p, w, x0, pts, |pts|, tolerance, maxIterations, j);
      FirstMinUnique(p, Compared(p, x0, pts, |pts|, tolerance, maxIterations), i, j);
    } else {
      FirstHitExists(p, pts, |pts|, tolerance, maxIterations);
    }
  }

  /** A point compared so far stays one after the next start point, and so does that start point's landing. */
  lemma CompareAfter(p: Quartic, y: real, x0: real, pts: seq<real>, n: nat, tolerance: real, maxIterations: nat)
    requires n < |pts|
    requires ComparedBefore(p, y, x0, pts, n, tolerance, maxIterations) || Lands(y, Descend(p, pts[n], maxIterations, tolerance))
    ensures ComparedBefore(p, y, x0, pts, n + 1, tolerance, maxIterations)
  {
  }

  /** When start point i hits and none before it does, it is the only first hit. */
  lemma FirstHitUnique(p: Quartic, pts: seq<real>, i: nat, tolerance: real, maxIterations: nat)
    requires i < |pts| && NoHitBefore(p, pts, i, tolerance, maxIterations)
    requires Descend(p, pts[i], maxIterations, tolerance).Hit?
    ensures forall j | 0 <= j < |pts| && FirstHit(p, pts, j, tolerance, maxIterations) :: j == i
  {
  }

  /** A strictly better point still beats every landing the old best beat. */
  lemma Improve(p: Quartic, pts: seq<real>, n: nat, y: real, z: real, tolerance: real, maxIterations: nat)
    requires n <= |pts| && BeatsBefore(p, y, pts, n, tolerance, maxIterations)
    requires Abs(Eval(p, z)) <= Abs(Eval(p, y))
    ensures BeatsBefore(p, z, pts, n, tolerance, maxIterations)
  {
    forall j | 0 <= j < n
      ensures Beats(p, z, Descend(p, pts[j], maxIterations, tolerance))
    {
      BeatsMonotone(p, y, z, Descend(p, pts[j], maxIterations, tolerance));
    }
  }
}
