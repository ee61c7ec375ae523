/** The piecewise-linear estimate of unserved energy against added surplus
    that ReEDS_Augur/stress_periods.py builds per region (353-375) and
    inverts at the target (379-391).

    For one region, `a` holds the positive per-sample shortfall totals in
    ascending order and `n` is the number of samples. Adding a surplus `x`
    leaves `max(a_j - x, 0)` unserved in sample `j`, so the expected unserved
    energy is `Excess(a, x) / n`. The curve has one segment per positive
    sample: from the previous total to this one, with a slope of minus the
    number of samples still short, over `n`. */
module Plf {
  import opened Seqs

  /** Each total is at least the one before it. */
  ghost predicate Ascending(a: seq<real>)
    decreases |a|
  {
    |a| <= 1 || (Ascending(a[..|a| - 1]) && a[|a| - 2] <= a[|a| - 1])
  }

  lemma {:induction false} AscendingOrder(a: seq<real>)
    requires Ascending(a)
    ensures forall i, j :: 0 <= i < j < |a| ==> a[i] <= a[j]
    decreases |a|
  {
    if |a| > 1 {
      var a' := a[..|a| - 1];
      AscendingOrder(a');
      assert forall i :: 0 <= i < |a'| ==> a'[i] == a[i];
    }
  }

  /** Every total is above zero (the source keeps only those, line 357). */
  ghost predicate AllPositive(a: seq<real>)
    decreases |a|
  {
    |a| == 0 || (AllPositive(a[..|a| - 1]) && a[|a| - 1] > 0.0)
  }

  lemma {:induction false} PositiveAt(a: seq<real>)
    requires AllPositive(a)
    ensures forall i :: 0 <= i < |a| ==> a[i] > 0.0
    decreases |a|
  {
    if |a| > 0 {
      var a' := a[..|a| - 1];
      PositiveAt(a');
      assert forall i :: 0 <= i < |a'| ==> a'[i] == a[i];
    }
  }

  /** Total unserved energy over the samples once `x` is added to each. */
  function Excess(a: seq<real>, x: real): (r: real)
    ensures r >= 0.0
    decreases |a|
  {
    if |a| == 0 then 0.0
    else Excess(a[..|a| - 1], x) + (if a[|a| - 1] > x then a[|a| - 1] - x else 0.0)
  }

  /** One row of the curve: from (x1, y1) to (x2, y2) with the given slope. */
  datatype Segment = Segment(x1: real, x2: real, slope: real, y1: real, y2: real)

  /** Line 364: a segment starts where the previous one ended, the first at 0. */
  function X1(a: seq<real>, i: nat): real
    requires i < |a|
  {
    if i == 0 then 0.0 else a[i - 1]
  }

  /** Line 368: the change in unserved energy over segment `i` (`Dy`). */
  function Drop(a: seq<real>, slopes: seq<real>, i: nat): real
    requires i < |a| && |slopes| == |a|
  {
    slopes[i] * (a[i] - X1(a, i))
  }

  /** Lines 359 and 372: the intercept (mean unserved energy) plus the drops
      of the segments before `i`. */
  function Y1(a: seq<real>, slopes: seq<real>, n: real, i: nat): real
    requires i <= |a| && |slopes| == |a| && n > 0.0
    decreases i
  {
    if i == 0 then Sum(a) / n
    else Y1(a, slopes, n, i - 1) + Drop(a, slopes, i - 1)
  }

  /** Lines 353-375: segment `i` of the curve; each segment ends where the
      next begins and the last ends at zero (`shift(-1, fill_value=0)`). */
  function SegmentAt(a: seq<real>, slopes: seq<real>, n: real, i: nat): Segment
    requires i < |a| && |slopes| == |a| && n > 0.0
  {
    Segment(X1(a, i), a[i], slopes[i], Y1(a, slopes, n, i),
            if i + 1 < |a| then Y1(a, slopes, n, i + 1) else 0.0)
  }

  function Curve(a: seq<real>, slopes: seq<real>, n: real): (r: seq<Segment>)
    requires |slopes| == |a| && n > 0.0
    ensures |r| == |a|
    ensures forall i :: 0 <= i < |r| ==> r[i] == SegmentAt(a, slopes, n, i)
  {
    seq(|a|, i requires 0 <= i < |a| => SegmentAt(a, slopes, n, i))
  }

  /** The slope of segment `i`: minus the samples whose shortfall exceeds
      the segment's start, over `n`. */
  function Slopes(m: nat, n: real): (r: seq<real>)
    requires n > 0.0
    ensures Counting(r, m, n)
    ensures forall i :: 0 <= i < m ==> r[i] < 0.0
  {
    seq(m, i requires 0 <= i < m => -((m - i) as real) / n)
  }

  // ---------------------------------------------------------------------------
  // The curve follows the expected unserved energy
  // ---------------------------------------------------------------------------

  /** With every shortfall positive, adding nothing leaves all of it. */
  lemma {:induction false} ExcessAtZero(a: seq<real>)
    requires AllPositive(a)
    ensures Excess(a, 0.0) == Sum(a)
    decreases |a|
  {
    if |a| > 0 {
      ExcessAtZero(a[..|a| - 1]);
    }
  }

  /** Between two points that no shortfall lies strictly between, the
      excess falls linearly: by the gap times the samples at or above `hi`. */
  lemma {:induction false} ExcessStep(a: seq<real>, lo: real, hi: real, k: nat)
    requires lo <= hi && k <= |a|
    requires forall j :: 0 <= j < k ==> a[j] <= lo
    requires forall j :: k <= j < |a| ==> a[j] >= hi
    ensures Excess(a, hi) == Excess(a, lo) - ((|a| - k) as real) * (hi - lo)
    decreases |a|
  {
    if |a| > 0 {
      var a' := a[..|a| - 1];
      if k == |a| {
        ExcessStep(a', lo, hi, k - 1);
      } else {
        ExcessStep(a', lo, hi, k);
        assert ((|a| - k) as real) * (hi - lo) == ((|a'| - k) as real) * (hi - lo) + (hi - lo);
      }
    }
  }

  /** Slopes of minus the samples still short at each segment, over `n`. */
  ghost predicate Counting(s: seq<real>, m: nat, n: real)
    requires n > 0.0
  {
    |s| == m && forall j :: 0 <= j < m ==> s[j] == -((m - j) as real) / n
  }

  /** Every breakpoint of the curve lies on the expected unserved energy:
      at the start `x` of segment `i` the curve is `Excess(a, x) / n`. */
  lemma {:induction false} CurveTracksExcess(a: seq<real>, s: seq<real>, n: real, i: nat, x: real)
    requires Ascending(a) && AllPositive(a) && n > 0.0 && i < |a|
    requires Counting(s, |a|, n) && x == X1(a, i)
    ensures Y1(a, s, n, i) == Excess(a, x) / n
    decreases i
  {
    if i == 0 {
      ExcessAtZero(a);
    } else {
      var lo := X1(a, i - 1);
      var c := (|a| - (i - 1)) as real;
      CurveTracksExcess(a, s, n, i - 1, lo);
      Bounds(a, i - 1, lo, x);
      ExcessAt(a, i - 1, lo, x, c);
      Y1Step(a, s, n, i, c, lo, x, Excess(a, lo), Excess(a, x));
    }
  }

  /** One segment further along, the curve falls by `c/n` per unit of
      surplus, where `c` counts the samples still short. */
  lemma Y1Step(a: seq<real>, s: seq<real>, n: real, i: nat, c: real, lo: real, hi: real, e: real, e': real)
    requires n > 0.0 && 0 < i < |a| && Counting(s, |a|, n)
    requires c == (|a| - (i - 1)) as real && lo == X1(a, i - 1) && hi == a[i - 1]
    requires Y1(a, s, n, i - 1) == e / n
    requires e' == e - c * (hi - lo)
    ensures Y1(a, s, n, i) == e' / n
  {
    assert s[i - 1] == -c / n;
    ShiftDivide(Y1(a, s, n, i), Y1(a, s, n, i - 1), Drop(a, s, i - 1), e, e', c, hi - lo, n);
  }

  /** Across segment `i` the excess falls by the gap times the samples left. */
  lemma ExcessAt(a: seq<real>, i: nat, lo: real, hi: real, c: real)
    requires i < |a| && 0.0 <= lo <= hi
    requires forall j :: 0 <= j < i ==> a[j] <= lo
    requires forall j :: i <= j < |a| ==> a[j] >= hi
    requires c == (|a| - i) as real
    ensures Excess(a, hi) == Excess(a, lo) - c * (hi - lo)
  {
    ExcessStep(a, lo, hi, i);
  }

  /** One step of the intercept: `y = e/n + (-c/n)*d` is `(e - c*d)/n`. */
  lemma ShiftDivide(y: real, y0: real, drop: real, e: real, e': real, c: real, d: real, n: real)
    requires n > 0.0
    requires y == y0 + drop && y0 == e / n && drop == -c / n * d && e' == e - c * d
    ensures y == e' / n
  {
  }

  /** After the last segment nothing is left unserved. */
  lemma CurveEndsAtZero(a: seq<real>)
    requires Ascending(a) && |a| > 0
    ensures Excess(a, a[|a| - 1]) == 0.0
  {
    AscendingOrder(a);
    ExcessNone(a, a[|a| - 1]);
  }

  lemma {:induction false} ExcessNone(a: seq<real>, x: real)
    requires forall j :: 0 <= j < |a| ==> a[j] <= x
    ensures Excess(a, x) == 0.0
    decreases |a|
  {
    if |a| > 0 {
      ExcessNone(a[..|a| - 1], x);
    }
  }

  /** Line 370: every drop is at most zero, the invariant the source asserts. */
  lemma DropsNonPositive(a: seq<real>, slopes: seq<real>, i: nat)
    requires Ascending(a) && AllPositive(a) && |slopes| == |a| && i < |a|
    requires forall j :: 0 <= j < |slopes| ==> slopes[j] <= 0.0
    ensures Drop(a, slopes, i) <= 0.0
  {
    Bounds(a, i, X1(a, i), a[i]);
    NonPositiveProduct(slopes[i], a[i] - X1(a, i));
  }

  lemma NonPositiveProduct(s: real, d: real)
    requires s <= 0.0 && d >= 0.0
    ensures s * d <= 0.0
  {
  }

  // ---------------------------------------------------------------------------
  // Inverting the curve at the target
  // ---------------------------------------------------------------------------

  /** Lines 380-382: the target lies between the segment's end values. */
  predicate Brackets(seg: Segment, t: real)
  {
    seg.y2 <= t <= seg.y1
  }

  /** Lines 385-386: the surplus at which the segment's line reaches `t`. */
  function Surplus(seg: Segment, t: real): (x: real)
    requires seg.slope != 0.0
    ensures seg.y1 + seg.slope * (x - seg.x1) == t
  {
    var x := seg.x1 + (t - seg.y1) * (1.0 / seg.slope);
    OnLine(seg.x1, seg.y1, seg.slope, t, x);
    x
  }

  lemma OnLine(x1: real, y1: real, slope: real, t: real, x: real)
    requires slope != 0.0 && x == x1 + (t - y1) * (1.0 / slope)
    ensures y1 + slope * (x - x1) == t
  {
    assert x - x1 == (t - y1) / slope;
  }

  lemma OnSurplus(seg: Segment, t: real, x: real)
    requires seg.slope != 0.0 && x == Surplus(seg, t)
    ensures seg.y1 + seg.slope * (x - seg.x1) == t
  {
  }

  ghost predicate NonZeroSlopes(curve: seq<Segment>)
  {
    forall i :: 0 <= i < |curve| ==> curve[i].slope != 0.0
  }

  /** Lines 380-387: the surplus of every segment bracketing the target, in
      curve order. */
  function Inversions(curve: seq<Segment>, t: real): (r: seq<real>)
    requires NonZeroSlopes(curve)
    ensures forall x :: x in r <==>
              exists i :: 0 <= i < |curve| && Brackets(curve[i], t) && x == Surplus(curve[i], t)
    decreases |curve|
  {
    if |curve| == 0 then []
    else
      var c' := curve[..|curve| - 1];
      var last := curve[|curve| - 1];
      var r' := Inversions(c', t);
      assert forall i :: 0 <= i < |c'| ==> c'[i] == curve[i];
      if Brackets(last, t) then r' + [Surplus(last, t)] else r'
  }

  /** The end of segment `i` lies on the expected unserved energy too. */
  lemma SegmentEnd(a: seq<real>, s: seq<real>, n: real, i: nat)
    requires Ascending(a) && AllPositive(a) && n > 0.0 && i < |a| && Counting(s, |a|, n)
    ensures SegmentAt(a, s, n, i).y2 == Excess(a, a[i]) / n
  {
    if i + 1 < |a| {
      CurveTracksExcess(a, s, n, i + 1, a[i]);
    } else {
      CurveEndsAtZero(a);
    }
  }

  /** The surplus found on a bracketing segment lies within the segment and
      leaves exactly the target unserved. */
  lemma HitsAt(a: seq<real>, s: seq<real>, n: real, i: nat, t: real, seg: Segment, x: real)
    requires Ascending(a) && AllPositive(a) && n > 0.0 && i < |a| && Counting(s, |a|, n)
    requires seg == SegmentAt(a, s, n, i) && Brackets(seg, t)
    requires seg.y1 + seg.slope * (x - seg.x1) == t
    ensures X1(a, i) <= x <= a[i]
    ensures Excess(a, x) / n == t
  {
    var lo, hi := X1(a, i), a[i];
    var c := (|a| - i) as real;
    HitsLine(a, s, n, i, t, seg, x, lo, hi, c);
    Bounds(a, i, lo, hi);
    ExcessHit(a, i, lo, hi, x, c, t, n);
  }

  /** On the segment's line, the surplus at the target lies between the
      segment's ends and leaves `t * n` of excess. */
  lemma HitsLine(a: seq<real>, s: seq<real>, n: real, i: nat, t: real, seg: Segment, x: real,
                 lo: real, hi: real, c: real)
    requires Ascending(a) && AllPositive(a) && n > 0.0 && i < |a| && Counting(s, |a|, n)
    requires seg == SegmentAt(a, s, n, i) && Brackets(seg, t)
    requires seg.y1 + seg.slope * (x - seg.x1) == t
    requires lo == X1(a, i) && hi == a[i] && c == (|a| - i) as real
    ensures lo <= x <= hi && Excess(a, lo) - c * (x - lo) == t * n
  {
    SegmentLine(a, s, n, i, seg, lo, hi, c);
    InvertSegment(seg, n, c, lo, hi, Excess(a, lo), Excess(a, hi), t, x);
  }

  lemma InvertSegment(seg: Segment, n: real, c: real, lo: real, hi: real, elo: real, ehi: real,
                      t: real, x: real)
    requires n > 0.0 && c >= 1.0 && lo <= hi
    requires seg.x1 == lo && seg.slope == -c / n
    requires seg.y1 == elo / n && seg.y2 == ehi / n && ehi == elo - c * (hi - lo)
    requires Brackets(seg, t) && seg.y1 + seg.slope * (x - seg.x1) == t
    ensures lo <= x <= hi && elo - c * (x - lo) == t * n
  {
    Invert(n, c, lo, hi, elo, ehi, seg.y1, seg.y2, seg.slope, t, x);
  }

  /** A surplus `x` inside segment `i` that the line puts at the target
      leaves exactly the target unserved. */
  lemma ExcessHit(a: seq<real>, i: nat, lo: real, hi: real, x: real, c: real, t: real, n: real)
    requires i < |a| && n > 0.0 && lo <= x <= hi
    requires forall j :: 0 <= j < i ==> a[j] <= lo
    requires forall j :: i <= j < |a| ==> a[j] >= hi
    requires c == (|a| - i) as real
    requires Excess(a, lo) - c * (x - lo) == t * n
    ensures Excess(a, x) / n == t
  {
    ExcessLine(a, lo, x, i, c);
    ScaleBack(Excess(a, x), Excess(a, lo) - c * (x - lo), t, n);
  }

  lemma ExcessLine(a: seq<real>, lo: real, hi: real, k: nat, c: real)
    requires lo <= hi && k <= |a| && c == (|a| - k) as real
    requires forall j :: 0 <= j < k ==> a[j] <= lo
    requires forall j :: k <= j < |a| ==> a[j] >= hi
    ensures Excess(a, hi) == Excess(a, lo) - c * (hi - lo)
  {
    ExcessStep(a, lo, hi, k);
  }

  /** Segment `i` runs from the excess at its start to the excess at its end
      with slope minus the samples still short, over `n`. */
  lemma SegmentLine(a: seq<real>, s: seq<real>, n: real, i: nat, seg: Segment, lo: real, hi: real, c: real)
    requires Ascending(a) && AllPositive(a) && n > 0.0 && i < |a| && Counting(s, |a|, n)
    requires seg == SegmentAt(a, s, n, i) && lo == X1(a, i) && hi == a[i] && c == (|a| - i) as real
    ensures seg.x1 == lo && seg.slope == -c / n && c >= 1.0 && lo <= hi
    ensures seg.y1 == Excess(a, lo) / n && seg.y2 == Excess(a, hi) / n
    ensures Excess(a, hi) == Excess(a, lo) - c * (hi - lo)
  {
    assert seg.y1 == Excess(a, lo) / n by {
      CurveTracksExcess(a, s, n, i, lo);
    }
    assert seg.y2 == Excess(a, hi) / n by {
      SegmentEnd(a, s, n, i);
    }
    Bounds(a, i, lo, hi);
    ExcessAt(a, i, lo, hi, c);
  }

  /** Segment `i` starts at or after every earlier total and ends at or
      before every later one. */
  lemma Bounds(a: seq<real>, i: nat, lo: real, hi: real)
    requires Ascending(a) && AllPositive(a) && i < |a| && lo == X1(a, i) && hi == a[i]
    ensures 0.0 <= lo <= hi
    ensures forall j :: 0 <= j < i ==> a[j] <= lo
    ensures forall j :: i <= j < |a| ==> a[j] >= hi
  {
    AscendingOrder(a);
    PositiveAt(a);
  }

  lemma ScaleBack(e: real, e': real, t: real, n: real)
    requires n > 0.0 && e == e' && e' == t * n
    ensures e / n == t
  {
  }

  /** The arithmetic of lines 385-386 on one segment of the curve. */
  lemma Invert(n: real, c: real, lo: real, hi: real, elo: real, ehi: real,
               y1: real, y2: real, slope: real, t: real, x: real)
    requires n > 0.0 && c >= 1.0 && lo <= hi
    requires y1 == elo / n && y2 == ehi / n && ehi == elo - c * (hi - lo)
    requires slope == -c / n && y2 <= t <= y1
    requires y1 + slope * (x - lo) == t
    ensures lo <= x <= hi
    ensures elo - c * (x - lo) == t * n
  {
    var g := y1 - t;
    assert c / n * (x - lo) == g;
    var k := n / c;
    assert x - lo == g * k by {
      assert c / n * k == 1.0;
    }
    assert elo == y1 * n;
    assert c * (x - lo) == g * n by {
      assert c * k == n;
    }
    assert y1 - y2 == c / n * (hi - lo);
    MulMonotoneBelow(g, c / n * (hi - lo), k);
    assert c / n * (hi - lo) * k == hi - lo by {
      assert c / n * k == 1.0;
    }
  }

  lemma MulMonotoneBelow(g: real, h: real, k: real)
    requires 0.0 <= g <= h && k > 0.0
    ensures 0.0 <= g * k <= h * k
  {
  }

  /** For the slopes of line 362 read as the samples still short, every
      surplus the inversion reports leaves exactly the target unserved. */
  lemma InversionHitsTarget(a: seq<real>, n: real, t: real, x: real)
    requires Ascending(a) && AllPositive(a) && n > 0.0
    requires x in Inversions(Curve(a, Slopes(|a|, n), n), t)
    ensures Excess(a, x) / n == t
    ensures 0.0 <= x
  {
    var s := Slopes(|a|, n);
    var curve := Curve(a, s, n);
    var i :| 0 <= i < |curve| && Brackets(curve[i], t) && x == Surplus(curve[i], t);
    var seg := curve[i];
    OnSurplus(seg, t, x);
    HitsAt(a, s, n, i, t, seg, x);
    Bounds(a, i, X1(a, i), a[i]);
  }

  /** Any target between zero and the mean unserved energy is bracketed by
      some segment, whatever the (non-zero) slopes. */
  lemma InversionExists(a: seq<real>, slopes: seq<real>, n: real, t: real)
    requires |a| > 0 && |slopes| == |a| && n > 0.0
    requires forall i :: 0 <= i < |slopes| ==> slopes[i] != 0.0
    requires 0.0 <= t <= Sum(a) / n
    ensures NonZeroSlopes(Curve(a, slopes, n))
    ensures |Inversions(Curve(a, slopes, n), t)| > 0
  {
    var curve := Curve(a, slopes, n);
    var j := BracketFrom(a, slopes, n, t, 0);
    assert Surplus(curve[j], t) in Inversions(curve, t);
  }

  lemma {:induction false} BracketFrom(a: seq<real>, slopes: seq<real>, n: real, t: real, i: nat)
      returns (j: nat)
    requires i < |a| && |slopes| == |a| && n > 0.0
    requires 0.0 <= t <= Y1(a, slopes, n, i)
    ensures i <= j < |a| && Brackets(SegmentAt(a, slopes, n, j), t)
    decreases |a| - i
  {
    if i + 1 == |a| || t >= Y1(a, slopes, n, i + 1) {
      j := i;
    } else {
      j := BracketFrom(a, slopes, n, t, i + 1);
    }
  }

  // ---------------------------------------------------------------------------
  // The slopes as line 362 computes them
  // ---------------------------------------------------------------------------

  ghost predicate StrictlyAscending(a: seq<real>)
  {
    forall i, j :: 0 <= i < j < |a| ==> a[i] < a[j]
  }

  function CountBelow(a: seq<real>, v: real): (c: nat)
    ensures c <= |a|
  {
    if |a| == 0 then 0 else CountBelow(a[..|a| - 1], v) + (if a[|a| - 1] < v then 1 else 0)
  }

  function CountAbove(a: seq<real>, v: real): (c: nat)
    ensures c <= |a|
  {
    if |a| == 0 then 0 else CountAbove(a[..|a| - 1], v) + (if a[|a| - 1] > v then 1 else 0)
  }

  /** Lines 360-365: the position of sample `i` (ascending order) in the
      descending sort; equal totals keep their relative order in both sorts,
      so a sample is preceded by the larger totals and by the equal totals
      before it. */
  function SortedRank(a: seq<real>, i: nat): int
    requires i < |a|
  {
    CountAbove(a, a[i]) + (i - CountBelow(a, a[i]))
  }

  /** Line 362 as written: the running count of `-1` down the descending
      order, over `n`. */
  function SlopesAsWritten(a: seq<real>, n: real): (r: seq<real>)
    requires n > 0.0
    ensures |r| == |a|
    ensures forall i :: 0 <= i < |a| ==> r[i] == -((SortedRank(a, i) + 1) as real) / n
  {
    seq(|a|, i requires 0 <= i < |a| => -((SortedRank(a, i) + 1) as real) / n)
  }

  lemma {:induction false} CountBelowSplit(a: seq<real>, v: real, k: nat)
    requires k <= |a|
    requires forall j :: 0 <= j < k ==> a[j] < v
    requires forall j :: k <= j < |a| ==> a[j] >= v
    ensures CountBelow(a, v) == k
    decreases |a|
  {
    if |a| > 0 {
      if k == |a| {
        CountBelowSplit(a[..|a| - 1], v, k - 1);
      } else {
        CountBelowSplit(a[..|a| - 1], v, k);
      }
    }
  }

  lemma {:induction false} CountAboveSplit(a: seq<real>, v: real, k: nat)
    requires k <= |a|
    requires forall j :: 0 <= j < k ==> a[j] <= v
    requires forall j :: k <= j < |a| ==> a[j] > v
    ensures CountAbove(a, v) == |a| - k
    decreases |a|
  {
    if |a| > 0 {
      if k == |a| {
        CountAboveSplit(a[..|a| - 1], v, k - 1);
      } else {
        CountAboveSplit(a[..|a| - 1], v, k);
      }
    }
  }

  /** Without equal totals the slopes as written are the samples still short. */
  lemma AsWrittenWithoutTies(a: seq<real>, n: real)
    requires StrictlyAscending(a) && n > 0.0
    ensures SlopesAsWritten(a, n) == Slopes(|a|, n)
  {
    forall i | 0 <= i < |a|
      ensures SlopesAsWritten(a, n)[i] == Slopes(|a|, n)[i]
    {
      CountBelowSplit(a, a[i], i);
      CountAboveSplit(a, a[i], i + 1);
    }
  }

  /** Two samples each 5 MWh short and a target of 1 MWh: the slopes as
      written put the target on the zero-length second segment, whose
      surplus of 6.5 MWh leaves nothing unserved; with the samples still
      short as the slope the surplus is 4 MWh, which meets the target. */
  lemma TiedShortfallsAsWritten()
    ensures Inversions(Curve([5.0, 5.0], SlopesAsWritten([5.0, 5.0], 2.0), 2.0), 1.0) == [6.5]
    ensures Excess([5.0, 5.0], 6.5) / 2.0 == 0.0
    ensures Inversions(Curve([5.0, 5.0], Slopes(2, 2.0), 2.0), 1.0) == [4.0]
    ensures Excess([5.0, 5.0], 4.0) / 2.0 == 1.0
  {
    var a := [5.0, 5.0];
    assert a[..1] == [5.0];
    assert CountBelow(a, 5.0) == 0 && CountAbove(a, 5.0) == 0;
    var w := SlopesAsWritten(a, 2.0);
    assert w == [-0.5, -1.0];
    var cw := Curve(a, w, 2.0);
    assert Sum(a) == 10.0;
    assert cw[0] == Segment(0.0, 5.0, -0.5, 5.0, 2.5);
    assert cw[1] == Segment(5.0, 5.0, -1.0, 2.5, 0.0);
    assert cw[..1] == [cw[0]];
    assert Inversions(cw[..1], 1.0) == [];
    var s := Slopes(2, 2.0);
    assert s == [-1.0, -0.5];
    var cs := Curve(a, s, 2.0);
    assert cs[0] == Segment(0.0, 5.0, -1.0, 5.0, 0.0);
    assert cs[1] == Segment(5.0, 5.0, -0.5, 0.0, 0.0);
    assert cs[..1] == [cs[0]];
    assert Inversions(cs[..1], 1.0) == [4.0];
  }

  // ---------------------------------------------------------------------------
  // From sample totals to the curve's input
  // ---------------------------------------------------------------------------

  /** Line 350: only samples with a positive shortfall get a segment. */
  function IsShort(v: real): bool { v > 0.0 }

  /** Sorting by `Neg` in descending order sorts in ascending order. */
  function Neg(v: real): real { -v }

  lemma {:induction false} SortedAscending(a: seq<real>)
    requires SortedDesc(a, Neg)
    ensures Ascending(a)
    decreases |a|
  {
    if |a| > 1 {
      var a' := a[..|a| - 1];
      assert SortedDesc(a', Neg) by {
        forall i, j | 0 <= i < j < |a'| ensures Neg(a'[i]) >= Neg(a'[j]) {
          assert a'[i] == a[i] && a'[j] == a[j];
        }
      }
      SortedAscending(a');
      assert Neg(a[|a| - 2]) >= Neg(a[|a| - 1]);
    }
  }

  lemma {:induction false} PositiveAll(a: seq<real>)
    requires forall i :: 0 <= i < |a| ==> a[i] > 0.0
    ensures AllPositive(a)
    decreases |a|
  {
    if |a| > 0 {
      var a' := a[..|a| - 1];
      assert forall i :: 0 <= i < |a'| ==> a'[i] == a[i];
      PositiveAll(a');
    }
  }

  lemma {:induction false} ExcessAppend(a: seq<real>, b: seq<real>, x: real)
    ensures Excess(a + b, x) == Excess(a, x) + Excess(b, x)
    decreases |b|
  {
    if |b| == 0 {
      assert a + b == a;
    } else {
      var b' := b[..|b| - 1];
      assert (a + b)[..|a + b| - 1] == a + b';
      ExcessAppend(a, b', x);
    }
  }

  /** The excess depends on the totals only, not on their order. */
  lemma {:induction false} ExcessPermutation(a: seq<real>, b: seq<real>, x: real)
    requires multiset(a) == multiset(b)
    ensures Excess(a, x) == Excess(b, x)
    decreases |b|
  {
    if |b| == 0 {
      assert |a| == |multiset(a)| == 0;
    } else {
      var e := b[|b| - 1];
      var b' := b[..|b| - 1];
      assert b == b' + [e];
      assert e in multiset(a);
      var i :| 0 <= i < |a| && a[i] == e;
      var a' := a[..i] + a[i + 1..];
      RemoveOne(a, i, b');
      ExcessPermutation(a', b', x);
      ExcessRemove(a, i, x);
      assert (b' + [e])[..|b'|] == b';
    }
  }

  lemma RemoveOne(a: seq<real>, i: nat, b': seq<real>)
    requires i < |a| && multiset(a) == multiset(b' + [a[i]])
    ensures multiset(a[..i] + a[i + 1..]) == multiset(b')
  {
    assert a == a[..i] + [a[i]] + a[i + 1..];
    assert multiset(a) == multiset(a[..i]) + multiset{a[i]} + multiset(a[i + 1..]);
    assert multiset(a[..i] + a[i + 1..]) == multiset(a[..i]) + multiset(a[i + 1..]);
    assert multiset(b' + [a[i]]) == multiset(b') + multiset{a[i]};
    forall v ensures multiset(a[..i] + a[i + 1..])[v] == multiset(b')[v] {
      assert multiset(a)[v] == multiset(b')[v] + multiset{a[i]}[v];
    }
  }

  /** Taking one total out of the sequence removes its share of the excess. */
  lemma ExcessRemove(a: seq<real>, i: nat, x: real)
    requires i < |a|
    ensures Excess(a, x) == Excess(a[..i] + a[i + 1..], x) + (if a[i] > x then a[i] - x else 0.0)
  {
    var e := a[i];
    assert a[..i] + ([e] + a[i + 1..]) == a;
    ExcessAppend(a[..i], [e] + a[i + 1..], x);
    ExcessAppend([e], a[i + 1..], x);
    ExcessAppend(a[..i], a[i + 1..], x);
    assert [e][..0] == [];
  }

  /** Totals that are not positive add nothing at a non-negative surplus. */
  lemma {:induction false} ExcessOfShort(s: seq<real>, x: real)
    requires x >= 0.0
    ensures Excess(Filter(s, IsShort), x) == Excess(s, x)
    decreases |s|
  {
    if |s| > 0 {
      var s' := s[..|s| - 1];
      var v := s[|s| - 1];
      ExcessOfShort(s', x);
      var r' := Filter(s', IsShort);
      if IsShort(v) {
        assert Filter(s, IsShort) == r' + [v];
        assert (r' + [v])[..|r'|] == r';
      } else {
        assert Filter(s, IsShort) == r';
      }
    }
  }

  /** Every segment of the curve falls. */
  lemma CurveFalls(a: seq<real>, n: real)
    requires n > 0.0
    ensures NonZeroSlopes(Curve(a, Slopes(|a|, n), n))
  {
    var s := Slopes(|a|, n);
    var c := Curve(a, s, n);
    forall i | 0 <= i < |c| ensures c[i].slope != 0.0 {
      assert c[i] == SegmentAt(a, s, n, i);
    }
  }
}
