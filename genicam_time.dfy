/**
 * The host-side timestamp synchroniser of the camera facade
 * (crates/genicam/src/time.rs): a sliding window of `(device ticks, host
 * instant)` samples with a capacity, an origin fixed by the first sample,
 * and linear-fit coefficients that only a fit over two or more samples
 * changes. The least-squares fit and its outlier refit are computed on
 * exact reals; the rounding of the source's `f64` arithmetic is not modelled.
 */
module GenicamTime {
  import opened Bytes
  import opened Wrappers

  /** A host `Instant`, as a reading of a monotonic clock. */
  type Instant = nat
  /** A host `SystemTime`, as a reading of the wall clock. */
  type SystemTime = int

  datatype Sample = Sample(ticks: u64, host: Instant)

  /** The window after one `update`: when it holds `cap` samples the oldest goes, then the new one is appended. */
  function Pushed(cap: nat, w: seq<Sample>, s: Sample): seq<Sample>
  {
    // `pop_front` on an empty deque removes nothing
    var kept := if |w| == cap && |w| > 0 then w[1..] else w;
    kept + [s]
  }

  /** The window after the samples of `history` were passed to `update` in order. */
  function Windowed(cap: nat, history: seq<Sample>): seq<Sample>
  {
    if |history| == 0 then []
    else Pushed(cap, Windowed(cap, history[..|history| - 1]), history[|history| - 1])
  }

  /** Appending to a suffix of p, with or without its first element, gives a suffix of p + [x]. */
  lemma SuffixSnoc(p: seq<Sample>, x: Sample, k: nat)
    requires k <= |p|
    ensures p[k..] + [x] == (p + [x])[k..]
  {
  }

  /** The window is always a suffix of what was recorded, and the latest sample is its last element. */
  lemma {:induction false} WindowedSuffix(cap: nat, history: seq<Sample>)
    ensures |Windowed(cap, history)| <= |history|
    ensures Windowed(cap, history) == history[|history| - |Windowed(cap, history)|..]
    ensures |history| > 0 ==> |Windowed(cap, history)| > 0
    ensures |history| > 0 ==> Windowed(cap, history)[|Windowed(cap, history)| - 1] == history[|history| - 1]
  {
    if |history| > 0 {
      var n := |history|;
      var p, x := history[..n - 1], history[n - 1];
      assert history == p + [x];
      WindowedSuffix(cap, p);
      var w := Windowed(cap, p);
      var k := |p| - |w|;
      if |w| == cap && |w| > 0 {
        assert Windowed(cap, history) == w[1..] + [x];
        assert w[1..] == p[k + 1..];
        SuffixSnoc(p, x, k + 1);
        assert |history| - |Windowed(cap, history)| == k + 1;
      } else {
        assert Windowed(cap, history) == w + [x];
        SuffixSnoc(p, x, k);
        assert |history| - |Windowed(cap, history)| == k;
      }
    }
  }

  /** With a capacity of one or more the window holds exactly the last `min(len, cap)` samples. */
  lemma {:induction false} WindowedIsLatest(cap: nat, history: seq<Sample>)
    requires cap >= 1
    ensures |Windowed(cap, history)| == MinNat(|history|, cap)
    ensures Windowed(cap, history) == history[|history| - MinNat(|history|, cap)..]
  {
    WindowedSuffix(cap, history);
    if |history| > 0 {
      var p := history[..|history| - 1];
      WindowedIsLatest(cap, p);
    }
  }

  /** A capacity of zero never drops anything: the window grows with every sample. */
  lemma {:induction false} ZeroCapacityUnbounded(history: seq<Sample>)
    ensures Windowed(0, history) == history
  {
    if |history| > 0 {
      var p := history[..|history| - 1];
      ZeroCapacityUnbounded(p);
      if |p| > 0 {
        assert Windowed(0, history) == p + [history[|history| - 1]];
      }
      assert p + [history[|history| - 1]] == history;
    }
  }

  // -------------------------------------------------------------------
  // The least-squares line of `compute_fit`, in exact real arithmetic.

  /** `f64::EPSILON`, 2^-52. */
  const EPSILON: real := 1.0 / 4503599627370496.0

  function Abs(x: real): real { if x < 0.0 then -x else x }

  /** The sum of the x coordinates. */
  function SumX(p: seq<(real, real)>): real
  {
    if |p| == 0 then 0.0 else SumX(p[..|p| - 1]) + p[|p| - 1].0
  }

  /** The sum of the y coordinates. */
  function SumY(p: seq<(real, real)>): real
  {
    if |p| == 0 then 0.0 else SumY(p[..|p| - 1]) + p[|p| - 1].1
  }

  /** The sum of squared x deviations from `mx`: the denominator of the slope. */
  function Sxx(p: seq<(real, real)>, mx: real): (r: real)
    ensures r >= 0.0
  {
    if |p| == 0 then 0.0
    else
      var d := p[|p| - 1].0 - mx;
      assert d * d >= 0.0;
      Sxx(p[..|p| - 1], mx) + d * d
  }

  /** The sum of the products of x and y deviations: the numerator of the slope. */
  function Sxy(p: seq<(real, real)>, mx: real, my: real): real
  {
    if |p| == 0 then 0.0 else Sxy(p[..|p| - 1], mx, my) + (p[|p| - 1].0 - mx) * (p[|p| - 1].1 - my)
  }

  /**
   * What `compute_fit` returns: nothing for fewer than two samples or for
   * x values too close together (a denominator below `f64::EPSILON`),
   * otherwise the slope and intercept of the least-squares line.
   */
  function LeastSquares(samples: seq<(real, real)>): (r: Option<(real, real)>)
    ensures r.Some? <==> |samples| >= 2 && Sxx(samples, SumX(samples) / (|samples| as real)) >= EPSILON
  {
    if |samples| < 2 then None
    else
      var n := |samples| as real;
      var mx, my := SumX(samples) / n, SumY(samples) / n;
      LineOf(mx, my, Sxx(samples, mx), Sxy(samples, mx, my))
  }

  /** The line through the means with slope `numer / denom`, unless the denominator is below `f64::EPSILON`. */
  function LineOf(mx: real, my: real, denom: real, numer: real): (r: Option<(real, real)>)
    ensures r.Some? <==> Abs(denom) >= EPSILON
  {
    if Abs(denom) < EPSILON then None
    else
      var slope := numer / denom;
      Some((slope, my - slope * mx))
  }

  /** `compute_fit`: the two passes over the samples, first the sums, then the deviation products. */
  method ComputeFit(samples: seq<(real, real)>) returns (r: Option<(real, real)>)
    ensures r == LeastSquares(samples)
  {
    if |samples| < 2 {
      return None;
    }
    var sumX, sumY := Sums(samples);
    var n := |samples| as real;
    var meanX, meanY := sumX / n, sumY / n;
    var denom, numer := Deviations(samples, meanX, meanY);
    r := LineOf(meanX, meanY, denom, numer);
  }

  /** The first pass of `compute_fit`: the coordinate sums. */
  method Sums(samples: seq<(real, real)>) returns (sumX: real, sumY: real)
    ensures sumX == SumX(samples) && sumY == SumY(samples)
  {
    sumX, sumY := 0.0, 0.0;
    var i := 0;
    while i < |samples|
      invariant 0 <= i <= |samples|
      invariant sumX == SumX(samples[..i]) && sumY == SumY(samples[..i])
    {
      assert samples[..i + 1][..i] == samples[..i];
      sumX, sumY := sumX + samples[i].0, sumY + samples[i].1;
      i := i + 1;
    }
    assert samples[..i] == samples;
  }

  /** The second pass of `compute_fit`: the sums of deviation products about the means. */
  method Deviations(samples: seq<(real, real)>, meanX: real, meanY: real) returns (denom: real, numer: real)
    ensures denom == Sxx(samples, meanX) && numer == Sxy(samples, meanX, meanY)
  {
    denom, numer := 0.0, 0.0;
    var i := 0;
    while i < |samples|
      invariant 0 <= i <= |samples|
      invariant denom == Sxx(samples[..i], meanX) && numer == Sxy(samples[..i], meanX, meanY)
    {
      assert samples[..i + 1][..i] == samples[..i];
      var dx, dy := samples[i].0 - meanX, samples[i].1 - meanY;
      denom, numer := denom + dx * dx, numer + dx * dy;
      i := i + 1;
    }
    assert samples[..i] == samples;
  }

  /** The point lies on the line y = m x + c. */
  predicate OnLineAt(pt: (real, real), m: real, c: real)
  {
    pt.1 == m * pt.0 + c
  }

  /** Every sample lies on the line y = m x + c. */
  predicate OnLine(p: seq<(real, real)>, m: real, c: real)
  {
    forall i :: 0 <= i < |p| ==> OnLineAt(p[i], m, c)
  }

  lemma {:induction false} SumOnLine(p: seq<(real, real)>, m: real, c: real)
    requires OnLine(p, m, c)
    ensures SumY(p) == m * SumX(p) + c * (|p| as real)
  {
    if |p| > 0 {
      var q := p[..|p| - 1];
      assert OnLine(q, m, c) by { forall i | 0 <= i < |q| ensures OnLineAt(q[i], m, c) { assert q[i] == p[i]; } }
      SumOnLine(q, m, c);
    }
  }

  lemma {:induction false} CrossOnLine(p: seq<(real, real)>, m: real, c: real, mx: real)
    requires OnLine(p, m, c)
    ensures Sxy(p, mx, m * mx + c) == m * Sxx(p, mx)
  {
    if |p| > 0 {
      var q := p[..|p| - 1];
      assert OnLine(q, m, c) by { forall i | 0 <= i < |q| ensures OnLineAt(q[i], m, c) { assert q[i] == p[i]; } }
      CrossOnLine(q, m, c, mx);
      var x := p[|p| - 1].0;
      var d := x - mx;
      TermOnLine(x, mx, m, c);
      assert Sxy(p, mx, m * mx + c) == m * Sxx(q, mx) + m * (d * d);
      assert Sxx(p, mx) == Sxx(q, mx) + d * d;
      Distribute(m, Sxx(q, mx), d * d);
    }
  }

  lemma Distribute(m: real, u: real, v: real)
    ensures m * (u + v) == m * u + m * v
  {
  }

  /** One sample's deviation product on the line is m times its squared x deviation. */
  lemma TermOnLine(x: real, mx: real, m: real, c: real)
    ensures (x - mx) * ((m * x + c) - (m * mx + c)) == m * ((x - mx) * (x - mx))
  {
    assert (m * x + c) - (m * mx + c) == m * (x - mx);
  }

  /**
   * Samples that lie exactly on a line are fitted by that line, whenever
   * they are spread enough for `compute_fit` to fit at all.
   */
  lemma LineFitExact(p: seq<(real, real)>, m: real, c: real)
    requires OnLine(p, m, c) && LeastSquares(p).Some?
    ensures LeastSquares(p) == Some((m, c))
  {
    var n := |p| as real;
    var mx, my := SumX(p) / n, SumY(p) / n;
    var denom := Sxx(p, mx);
    SumOnLine(p, m, c);
    MeanOnLine(SumX(p), n, m, c);
    assert my == m * mx + c;
    CrossOnLine(p, m, c, mx);
    var numer := Sxy(p, mx, my);
    assert numer == m * denom;
    assert LeastSquares(p) == LineOf(mx, my, denom, numer);
    assert Abs(denom) >= EPSILON;
    assert numer / denom == m by {
      SlopeOf(m, denom);
    }
    assert my - m * mx == c;
    LineOfExact(mx, my, denom, numer, m, c);
  }

  /** A slope of m through a mean on the line y = m x + c gives that line. */
  lemma LineOfExact(mx: real, my: real, denom: real, numer: real, m: real, c: real)
    requires Abs(denom) >= EPSILON && numer / denom == m && my - m * mx == c
    ensures LineOf(mx, my, denom, numer) == Some((m, c))
  {
    assert !(Abs(denom) < EPSILON);
    assert LineOf(mx, my, denom, numer) == Some((numer / denom, my - (numer / denom) * mx));
    assert my - (numer / denom) * mx == c;
  }

  /** The mean of values m x + c is m times their x mean plus c. */
  lemma MeanOnLine(sx: real, n: real, m: real, c: real)
    requires n > 0.0
    ensures (m * sx + c * n) / n == m * (sx / n) + c
  {
  }

  /** A slope numerator that is m times the denominator gives slope m. */
  lemma SlopeOf(m: real, denom: real)
    requires denom != 0.0
    ensures (m * denom) / denom == m
  {
  }

  // -------------------------------------------------------------------
  // The trimmed refit of `fit`.

  /** The number of residuals `fit` trims from each end: `floor(n * 0.1)`. */
  function TrimCount(n: nat): nat { n / 10 }

  /** Each sample's index and its residual from the line (slope, intercept). */
  function Residuals(pts: seq<(real, real)>, slope: real, intercept: real): (r: seq<(nat, real)>)
    ensures |r| == |pts|
    ensures forall k :: 0 <= k < |r| ==> r[k].0 == k
  {
    seq(|pts|, k requires 0 <= k < |pts| => (k, pts[k].1 - (slope * pts[k].0 + intercept)))
  }

  predicate SortedByResidual(s: seq<(nat, real)>)
  {
    forall i, j :: 0 <= i < j < |s| ==> s[i].1 <= s[j].1
  }

  /** Puts `e` before the first element whose residual is not smaller. */
  function InsertByResidual(e: (nat, real), s: seq<(nat, real)>): (r: seq<(nat, real)>)
    requires SortedByResidual(s)
    ensures |r| == |s| + 1 && (r[0] == e || (|s| > 0 && r[0] == s[0]))
    ensures SortedByResidual(r) && multiset(r) == multiset(s) + multiset{e}
  {
    if |s| == 0 || e.1 <= s[0].1 then [e] + s
    else
      var t := InsertByResidual(e, s[1..]);
      assert s == [s[0]] + s[1..];
      assert forall j :: 0 <= j < |t| ==> s[0].1 <= t[0].1 <= t[j].1;
      [s[0]] + t
  }

  /**
   * `sort_by` on the residuals: ordered by residual, a permutation of its
   * input, and stable (an element is inserted in front of its equals that
   * came after it).
   */
  function SortByResidual(rs: seq<(nat, real)>): (r: seq<(nat, real)>)
    ensures SortedByResidual(r) && multiset(r) == multiset(rs)
  {
    if |rs| == 0 then []
    else
      assert rs == [rs[0]] + rs[1..];
      InsertByResidual(rs[0], SortByResidual(rs[1..]))
  }

  /** The samples kept after `trim` residuals are dropped from each end of the sorted order. */
  function Middle(pts: seq<(real, real)>, sorted: seq<(nat, real)>, trim: nat): (r: seq<(real, real)>)
    requires |sorted| > 2 * trim && forall j :: 0 <= j < |sorted| ==> sorted[j].0 < |pts|
    ensures |r| == |sorted| - 2 * trim
    ensures forall k :: 0 <= k < |r| ==> r[k] == pts[sorted[trim + k].0]
  {
    seq(|sorted| - 2 * trim, k requires 0 <= k < |sorted| - 2 * trim => pts[sorted[trim + k].0])
  }

  /** Sorting the residuals keeps every index a valid sample index. */
  lemma SortedIndices(pts: seq<(real, real)>, slope: real, intercept: real)
    ensures var sorted := SortByResidual(Residuals(pts, slope, intercept));
            |sorted| == |pts| && forall j :: 0 <= j < |sorted| ==> sorted[j].0 < |pts|
  {
    var rs := Residuals(pts, slope, intercept);
    var sorted := SortByResidual(rs);
    assert |sorted| == |multiset(sorted)| == |multiset(rs)| == |rs|;
    forall j | 0 <= j < |sorted| ensures sorted[j].0 < |pts| {
      assert sorted[j] in multiset(rs);
      var k :| 0 <= k < |rs| && rs[k] == sorted[j];
    }
  }

  /**
   * The refit: from ten samples on, the residuals from the first line are
   * sorted, the lowest and highest tenth dropped, and the rest refitted; a
   * refit that finds no line keeps the first one.
   */
  function Refit(pts: seq<(real, real)>, slope: real, intercept: real): (real, real)
  {
    if |pts| < 10 then (slope, intercept)
    else
      var sorted := SortByResidual(Residuals(pts, slope, intercept));
      var trim := TrimCount(|sorted|);
      SortedIndices(pts, slope, intercept);
      if trim > 0 && |sorted| > trim * 2 then
        match LeastSquares(Middle(pts, sorted, trim))
        case Some(line) => line
        case None => (slope, intercept)
      else (slope, intercept)
  }

  /**
   * From ten samples on, the guard of the refit always holds, and the refit
   * works on at least eight samples, so `compute_fit` never rejects it for
   * having too few.
   */
  lemma RefitGuardHolds(pts: seq<(real, real)>, slope: real, intercept: real)
    requires |pts| >= 10
    ensures var sorted := SortByResidual(Residuals(pts, slope, intercept));
            var trim := TrimCount(|sorted|);
            && trim > 0 && |sorted| > trim * 2
            && |sorted| - 2 * trim >= 8
  {
    SortedIndices(pts, slope, intercept);
  }

  /** The refit of samples on a line is that line again. */
  lemma RefitOnLine(pts: seq<(real, real)>, m: real, c: real)
    requires OnLine(pts, m, c)
    ensures Refit(pts, m, c) == (m, c)
  {
    if |pts| >= 10 {
      var sorted := SortByResidual(Residuals(pts, m, c));
      var trim := TrimCount(|sorted|);
      SortedIndices(pts, m, c);
      RefitGuardHolds(pts, m, c);
      var mid := Middle(pts, sorted, trim);
      assert OnLine(mid, m, c) by {
        forall k | 0 <= k < |mid| ensures OnLineAt(mid[k], m, c) {
          assert mid[k] == pts[sorted[trim + k].0];
        }
      }
      if LeastSquares(mid).Some? {
        LineFitExact(mid, m, c);
      }
    }
  }

  // -------------------------------------------------------------------
  // The fit over the window.

  /** `host.duration_since(origin).as_secs_f64()`, with `Instant` read in nanoseconds; an earlier `host` gives zero. */
  function Seconds(origin: Instant, host: Instant): real
  {
    if host >= origin then (host - origin) as real / 1000000000.0 else 0.0
  }

  /** The points `fit` regresses: ticks relative to the first sample, seconds since the origin. */
  function Points(window: seq<Sample>, origin: Instant, base: real): (r: seq<(real, real)>)
    ensures |r| == |window|
    ensures forall k :: 0 <= k < |r| ==> r[k] == ((window[k].ticks as real) - base, Seconds(origin, window[k].host))
  {
    seq(|window|, k requires 0 <= k < |window| => ((window[k].ticks as real) - base, Seconds(origin, window[k].host)))
  }

  /**
   * The coefficients `fit` reports for a window: the least-squares line of
   * the points, refitted without its outliers from ten samples on, with the
   * intercept moved back from relative to absolute ticks.
   */
  function FitOf(window: seq<Sample>, origin: Instant): (r: Option<(real, real)>)
    ensures |window| < 2 ==> r.None?
  {
    if |window| < 2 then None
    else
      var base := window[0].ticks as real;
      FitPoints(Points(window, origin, base), base)
  }

  /**
   * The refit step of `fit`: from ten samples on, the tenth of the samples
   * furthest from the first line at each end is dropped and the rest fitted
   * again; the first line stands when that fit fails.
   */
  method RefitLine(pts: seq<(real, real)>, slope: real, intercept: real) returns (line: (real, real))
    ensures line == Refit(pts, slope, intercept)
  {
    line := (slope, intercept);
    if |pts| >= 10 {
      var sorted := SortByResidual(Residuals(pts, slope, intercept));
      SortedIndices(pts, slope, intercept);
      var trim := TrimCount(|sorted|);
      if trim > 0 && |sorted| > trim * 2 {
        var refit := ComputeFit(Middle(pts, sorted, trim));
        if refit.Some? {
          line := refit.value;
        }
      }
    }
  }

  /** The fit of points whose x values are ticks less `base`, as coefficients of absolute ticks. */
  function FitPoints(pts: seq<(real, real)>, base: real): Option<(real, real)>
  {
    match LeastSquares(pts)
    case None => None
    case Some(first) => Some(Absolute(Refit(pts, first.0, first.1), base))
  }

  /** A line over ticks less `base`, as a line over absolute ticks. */
  function Absolute(line: (real, real), base: real): (real, real)
  {
    (line.0, line.1 - line.0 * base)
  }

  /** `FitPoints` in terms of the first fit and the refit made from it. */
  lemma FitPointsUnfold(pts: seq<(real, real)>, base: real, first: (real, real), line: (real, real))
    requires LeastSquares(pts) == Some(first) && Refit(pts, first.0, first.1) == line
    ensures FitPoints(pts, base) == Some(Absolute(line, base))
  {
  }

  /** Moving the x origin to `base` moves the intercept by m times `base`. */
  lemma Rebase(m: real, t: real, base: real, b: real)
    ensures m * (t - base) + (b + m * base) == m * t + b
  {
  }

  /**
   * A device clock that runs exactly linearly against the host clock is
   * recovered exactly: whenever the window is spread enough to be fitted,
   * the fit is that line, so it predicts every sample without error.
   */
  lemma FitRecoversLinearClock(window: seq<Sample>, origin: Instant, m: real, b: real)
    requires forall k :: 0 <= k < |window| ==> Seconds(origin, window[k].host) == m * (window[k].ticks as real) + b
    requires FitOf(window, origin).Some?
    ensures FitOf(window, origin) == Some((m, b))
  {
    PointsOnLine(window, origin, m, b);
    FitOfRebasedLine(window, origin, m, b);
  }

  /** A window on the line y = m x + b, rebased to its first sample, is fitted by y = m x + b. */
  lemma FitOfRebasedLine(window: seq<Sample>, origin: Instant, m: real, b: real)
    requires |window| > 0 && FitOf(window, origin).Some?
    requires var base := window[0].ticks as real; OnLine(Points(window, origin, base), m, b + m * base)
    ensures FitOf(window, origin) == Some((m, b))
  {
    var base := window[0].ticks as real;
    FitOfOnLine(window, origin, m, b + m * base);
    AbsoluteRebased(m, b, base);
  }

  /** The line rebased to `base` by `PointsOnLine` is moved back by `Absolute`. */
  lemma AbsoluteRebased(m: real, b: real, base: real)
    ensures Absolute((m, b + m * base), base) == (m, b)
  {
    var fit := Absolute((m, b + m * base), base);
    assert fit.0 == m && fit.1 == b;
  }

  /** A window whose points lie on a line is fitted by that line, in absolute ticks. */
  lemma FitOfOnLine(window: seq<Sample>, origin: Instant, m: real, c: real)
    requires |window| > 0 && OnLine(Points(window, origin, window[0].ticks as real), m, c)
    requires FitOf(window, origin).Some?
    ensures FitOf(window, origin) == Some(Absolute((m, c), window[0].ticks as real))
  {
    var base := window[0].ticks as real;
    var pts := Points(window, origin, base);
    assert FitOf(window, origin) == FitPoints(pts, base);
    LineFitExact(pts, m, c);
    RefitOnLine(pts, m, c);
    FitPointsUnfold(pts, base, (m, c), (m, c));
  }

  /** Samples of a linear clock give points on the line rebased to the first sample's ticks. */
  lemma PointsOnLine(window: seq<Sample>, origin: Instant, m: real, b: real)
    requires |window| > 0
    requires forall k :: 0 <= k < |window| ==> Seconds(origin, window[k].host) == m * (window[k].ticks as real) + b
    ensures var base := window[0].ticks as real; OnLine(Points(window, origin, base), m, b + m * base)
  {
    var base := window[0].ticks as real;
    var pts := Points(window, origin, base);
    forall k | 0 <= k < |pts| ensures OnLineAt(pts[k], m, b + m * base) {
      Rebase(m, window[k].ticks as real, base, b);
    }
  }

  class TimeSync {
    /** The fit coefficients are `f64` in the source. */
    var a: real
    var b: real
    var freqHz: Option<real>
    var window: seq<Sample>
    const cap: nat
    var originInstant: Option<Instant>
    var originSystem: Option<SystemTime>
    /** Every sample passed to `update`, oldest first. */
    ghost var history: seq<Sample>

    /** The window follows the recorded samples, and the origin is the first sample's host instant. */
    ghost predicate Valid()
      reads this
    {
      && window == Windowed(cap, history)
      && (originInstant.Some? <==> |history| > 0)
      && (|history| > 0 ==> originInstant == Some(history[0].host))
      && (originSystem.Some? <==> originInstant.Some?)
      && (|window| > 0 ==> originInstant.Some?)
    }

    /** `TimeSync::new(cap)`: no samples, coefficients (0, 0), no origin, no frequency. */
    constructor(cap: nat)
      ensures Valid() && this.cap == cap && history == []
      ensures a == 0.0 && b == 0.0 && freqHz.None?
      ensures window == [] && originInstant.None? && originSystem.None?
    {
      a, b, freqHz := 0.0, 0.0, None;
      window := [];
      this.cap := cap;
      originInstant, originSystem := None, None;
      history := [];
    }

    /**
     * `update`: the first sample fixes the origin (its host instant and the
     * wall clock `now`); a full window drops its oldest sample; the new one
     * is appended.
     */
    method Update(devTicks: u64, host: Instant, now: SystemTime)
      requires Valid()
      modifies this
      ensures Valid() && history == old(history) + [Sample(devTicks, host)]
      ensures window == Pushed(cap, old(window), Sample(devTicks, host))
      ensures old(originInstant).None? ==> originInstant == Some(host) && originSystem == Some(now)
      ensures old(originInstant).Some? ==> originInstant == old(originInstant) && originSystem == old(originSystem)
      ensures a == old(a) && b == old(b) && freqHz == old(freqHz)
    {
      if originInstant.None? {
        originInstant := Some(host);
        originSystem := Some(now);
      }
      if |window| == cap {
        if |window| > 0 {
          window := window[1..];
        }
      }
      window := window + [Sample(devTicks, host)];
      history := history + [Sample(devTicks, host)];
      assert history[..|history| - 1] == old(history);
    }

    method Len() returns (n: nat)
      ensures n == |window|
    {
      n := |window|;
    }

    method Capacity() returns (c: nat)
      ensures c == cap
    {
      c := cap;
    }

    /** `sample_bounds`: nothing for an empty window, otherwise its oldest and newest samples. */
    method SampleBounds() returns (r: Option<(Sample, Sample)>)
      ensures r.None? <==> |window| == 0
      ensures r.Some? ==> r.value.0 == window[0] && r.value.1 == window[|window| - 1]
    {
      if |window| == 0 {
        return None;
      }
      r := Some((window[0], window[|window| - 1]));
    }

    /**
     * `fit`: with fewer than two samples nothing changes and the result is
     * None. Otherwise a reported frequency is stored; the least-squares line
     * of the window's points, refitted without outliers from ten samples on,
     * becomes the coefficients, and no line leaves them as they were.
     */
    method Fit(freq: Option<real>) returns (r: Option<(real, real)>)
      requires Valid()
      modifies this
      ensures Valid() && window == old(window) && history == old(history)
      ensures originInstant == old(originInstant) && originSystem == old(originSystem)
      ensures |window| < 2 ==> r.None? && a == old(a) && b == old(b) && freqHz == old(freqHz)
      ensures |window| >= 2 ==> freqHz == (if freq.Some? then freq else old(freqHz))
      ensures |window| >= 2 ==> originInstant.Some? && r == FitOf(window, originInstant.value)
      ensures r.None? ==> a == old(a) && b == old(b)
      ensures r.Some? ==> r == Some((a, b))
    {
      if |window| < 2 {
        return None;
      }
      if freq.Some? {
        freqHz := freq;
      }
      // a sample was recorded, so the origin is set
      var origin := originInstant.value;
      var base := window[0].ticks as real;
      var samples := Points(window, origin, base);
      var first := ComputeFit(samples);
      if first.None? {
        return None;
      }
      var line := RefitLine(samples, first.value.0, first.value.1);
      var fit := Absolute(line, base);
      a, b := fit.0, fit.1;
      FitPointsUnfold(samples, base, first.value, line);
      r := Some(fit);
    }
  }
}
